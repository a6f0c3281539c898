/** Printing conditional expressions (cond_expr_to_str in libsepol/src/kernel_to_conf.c and
  * libsepol/src/kernel_to_cil.c): a stack of strings turns postfix into infix text for policy.conf
  * and into prefix text for CIL.
  */
module CondText {
  import opened AvTables
  import opened CondExpr

  datatype Style = Conf | Cil

  function OpText(style: Style, op: Token): string
    requires IsBinary(op)
  {
    match (style, op)
    case (Conf, Or) => "||"
    case (Conf, And) => "&&"
    case (Conf, Xor) => "^"
    case (Conf, Eq) => "=="
    case (Conf, _) => "!="
    case (Cil, Or) => "or"
    case (Cil, And) => "and"
    case (Cil, Xor) => "xor"
    case (Cil, Eq) => "eq"
    case (Cil, _) => "neq"
  }

  function NotText(style: Style, v: string): string {
    if style == Conf then "! " + v else "(not " + v + ")"
  }

  function BinaryText(style: Style, op: Token, v: string, w: string): string
    requires IsBinary(op)
  {
    if style == Conf then "(" + v + OpBlock(style, op) + w + ")" else "(" + OpBlock(style, op) + v + " " + w + ")"
  }

  /** The text of an expression. */
  ghost function Text(style: Style, names: seq<string>, t: Tree): string
    requires t.Valid(|names|)
  {
    match t
    case Leaf(b) => names[b - 1]
    case Negation(u) => NotText(style, Text(style, names, u))
    case Binary(op, l, r) => BinaryText(style, op, Text(style, names, l), Text(style, names, r))
  }

  ghost function Texts(style: Style, names: seq<string>, ts: seq<Tree>): seq<string>
    requires AllValid(ts, |names|)
  {
    seq(|ts|, i requires 0 <= i < |ts| => Text(style, names, ts[i]))
  }

  /** One turn of the loop: None is the error exit. */
  method Render(style: Style, names: seq<string>, cur: Token, stack: seq<string>, ghost ts: seq<Tree>)
    returns (next: Option<seq<string>>)
    requires AllValid(ts, |names|) && stack == Texts(style, names, ts) && (cur.Bool? ==> 0 < cur.boolean <= |names|)
    ensures match Read(cur, ts)
            case None => next == None
            case Some(us) => AllValid(us, |names|) && next == Some(Texts(style, names, us))
  {
    var k := |stack|;
    if Read(cur, ts).Some? {
      ReadValid(cur, ts, |names|);
    }
    if cur.Bool? {
      next := Some(stack + [names[cur.boolean - 1]]);
    } else if cur == Not {
      if k < 1 {
        return None;
      }
      assert ts[k - 1] in ts;
      next := Some(stack[..k - 1] + [NotText(style, stack[k - 1])]);
    } else if IsBinary(cur) {
      if k < 2 {
        return None;
      }
      assert ts[k - 1] in ts && ts[k - 2] in ts;
      next := Some(stack[..k - 2] + [BinaryText(style, cur, stack[k - 2], stack[k - 1])]);
    } else {
      return None;
    }
    assert next.value == Texts(style, names, Read(cur, ts).value);
  }

  /** cond_expr_to_str: a text exactly for the tokens of a single expression, and then its text. */
  method CondExprToStr(style: Style, names: seq<string>, expr: seq<Token>) returns (text: Option<string>)
    requires InRange(expr, |names|)
    ensures match Parse(expr, [])
            case None => text == None
            case Some(ts) =>
              AllValid(ts, |names|) && text == if |ts| == 1 then Some(Text(style, names, ts[0])) else None
  {
    hide Read, Text;
    if Parse(expr, []).Some? {
      ParseWritesBack(expr, [], |names|);
    }
    var stack := [];
    ghost var ts: seq<Tree> := [];
    for i := 0 to |expr|
      invariant AllValid(ts, |names|) && stack == Texts(style, names, ts)
      invariant Parse(expr, []) == Parse(expr[i..], ts)
    {
      assert expr[i..][0] == expr[i] && expr[i..][1..] == expr[i + 1..];
      var next := Render(style, names, expr[i], stack, ts);
      if next.None? {
        return None;
      }
      stack := next.value;
      ts := Read(expr[i], ts).value;
    }
    if |stack| == 1 {
      text := Some(stack[0]);
    } else {
      text := None;
    }
  }

  /** The texts of the connectives. */
  lemma Connectives()
    ensures OpBlock(Conf, Or) == " || " && OpBlock(Conf, And) == " && " && OpBlock(Conf, Xor) == " ^ "
    ensures OpBlock(Conf, Eq) == " == " && OpBlock(Conf, Neq) == " != "
    ensures OpBlock(Cil, Or) == "or " && OpBlock(Cil, And) == "and " && OpBlock(Cil, Xor) == "xor "
    ensures OpBlock(Cil, Eq) == "eq " && OpBlock(Cil, Neq) == "neq "
  {
  }

  /** Where they stand: between the operands in policy.conf, before them in CIL. */
  lemma Placement(op: Token, v: string, w: string)
    requires IsBinary(op)
    ensures BinaryText(Conf, op, v, w) == "(" + v + OpBlock(Conf, op) + w + ")" && NotText(Conf, v) == "! " + v
    ensures BinaryText(Cil, op, v, w) == "(" + OpBlock(Cil, op) + v + " " + w + ")" &&
            NotText(Cil, v) == "(not " + v + ")"
  {
    hide OpBlock;
  }

  // Reading a text back.

  predicate NameChar(c: char) {
    c != ' ' && c != '(' && c != ')' && c != '!'
  }

  /** Distinct names that no text can break. */
  ghost predicate GoodNames(names: seq<string>) {
    && (forall i, j :: 0 <= i < j < |names| ==> names[i] != names[j])
    && forall i :: 0 <= i < |names| ==> names[i] != "" && forall k :: 0 <= k < |names[i]| ==> NameChar(names[i][k])
  }

  ghost function NameLength(text: string): (n: nat)
    ensures n <= |text|
  {
    if text == "" || !NameChar(text[0]) then 0 else 1 + NameLength(text[1..])
  }

  lemma {:induction false} NameLengthOf(name: string, rest: string)
    requires (forall k :: 0 <= k < |name| ==> NameChar(name[k])) && (rest == "" || !NameChar(rest[0]))
    ensures NameLength(name + rest) == |name|
  {
    if name == "" {
      assert name + rest == rest;
    } else {
      assert (name + rest)[1..] == name[1..] + rest && (name + rest)[0] == name[0];
      NameLengthOf(name[1..], rest);
    }
  }

  predicate Starts(text: string, p: string) {
    |p| <= |text| && text[..|p|] == p
  }

  /** An operator as it stands in a text, with its spaces. */
  function OpBlock(style: Style, op: Token): string
    requires IsBinary(op)
  {
    (if style == Conf then " " else "") + OpText(style, op) + " "
  }

  /** The character that tells an operator from the others. */
  function OpChar(style: Style, op: Token): char
    requires IsBinary(op)
  {
    match (style, op)
    case (Conf, Or) => '|'
    case (Conf, And) => '&'
    case (Conf, Xor) => '^'
    case (Conf, Eq) => '='
    case (Conf, _) => '!'
    case (Cil, Or) => 'o'
    case (Cil, And) => 'a'
    case (Cil, Xor) => 'x'
    case (Cil, Eq) => 'e'
    case (Cil, _) => 'n'
  }

  lemma OpCharOf(style: Style, op: Token)
    requires IsBinary(op)
    ensures var i := if style == Conf then 1 else 0;
            |OpBlock(style, op)| > i && OpBlock(style, op)[i] == OpChar(style, op)
  {
  }

  /** The operator a text begins with. */
  ghost function ReadOp(style: Style, text: string): (r: Option<(Token, string)>)
    ensures r.Some? ==> IsBinary(r.value.0) && |r.value.1| < |text|
  {
    if Starts(text, OpBlock(style, Or)) then Some((Or, text[|OpBlock(style, Or)|..]))
    else if Starts(text, OpBlock(style, And)) then Some((And, text[|OpBlock(style, And)|..]))
    else if Starts(text, OpBlock(style, Xor)) then Some((Xor, text[|OpBlock(style, Xor)|..]))
    else if Starts(text, OpBlock(style, Eq)) then Some((Eq, text[|OpBlock(style, Eq)|..]))
    else if Starts(text, OpBlock(style, Neq)) then Some((Neq, text[|OpBlock(style, Neq)|..]))
    else None
  }

  lemma StartsWithOne(style: Style, op: Token, other: Token, rest: string)
    requires IsBinary(op) && IsBinary(other)
    ensures Starts(OpBlock(style, op) + rest, OpBlock(style, other)) <==> op == other
  {
    hide OpBlock;
    OpCharOf(style, op);
    OpCharOf(style, other);
    var i := if style == Conf then 1 else 0;
    var text, p := OpBlock(style, op) + rest, OpBlock(style, other);
    assert text[i] == OpChar(style, op);
    if Starts(text, p) {
      assert text[..|p|][i] == p[i];
    }
    assert text[..|OpBlock(style, op)|] == OpBlock(style, op);
  }

  lemma ReadOpText(style: Style, op: Token, rest: string)
    requires IsBinary(op)
    ensures ReadOp(style, OpBlock(style, op) + rest) == Some((op, rest))
  {
    hide OpBlock, Starts;
    StartsWithOne(style, op, Or, rest);
    StartsWithOne(style, op, And, rest);
    StartsWithOne(style, op, Xor, rest);
    StartsWithOne(style, op, Eq, rest);
    StartsWithOne(style, op, Neq, rest);
    assert (OpBlock(style, op) + rest)[|OpBlock(style, op)|..] == rest;
  }

  /** A reader for the texts: an expression and what is left behind it. */
  ghost function ReadText(style: Style, names: seq<string>, text: string): (r: Option<(Tree, string)>)
    ensures r.Some? ==> |r.value.1| < |text|
    decreases |text|
  {
    if style == Conf && Starts(text, "! ") then
      match ReadText(style, names, text[2..])
      case None => None
      case Some((t, rest)) => Some((Negation(t), rest))
    else if style == Cil && Starts(text, "(not ") then
      match ReadText(style, names, text[5..])
      case None => None
      case Some((t, rest)) => if Starts(rest, ")") then Some((Negation(t), rest[1..])) else None
    else if style == Conf && Starts(text, "(") then
      match ReadText(style, names, text[1..])
      case None => None
      case Some((l, rest)) => match ReadOp(style, rest)
        case None => None
        case Some((op, rest)) => match ReadText(style, names, rest)
          case None => None
          case Some((r, rest)) => if Starts(rest, ")") then Some((Binary(op, l, r), rest[1..])) else None
    else if style == Cil && Starts(text, "(") then
      match ReadOp(style, text[1..])
      case None => None
      case Some((op, rest)) => match ReadText(style, names, rest)
        case None => None
        case Some((l, rest)) => if !Starts(rest, " ") then None else match ReadText(style, names, rest[1..])
          case None => None
          case Some((r, rest)) => if Starts(rest, ")") then Some((Binary(op, l, r), rest[1..])) else None
    else
      var n := NameLength(text);
      if n > 0 && exists b: nat :: b < |names| && names[b] == text[..n]
      then var b: nat :| b < |names| && names[b] == text[..n]; Some((Leaf(b + 1), text[n..]))
      else None
  }

  /** Every text reads back as the expression it was printed for, so different expressions have
    * different texts. */
  lemma {:induction false} TextReadsBack(style: Style, names: seq<string>, t: Tree, rest: string)
    requires GoodNames(names) && t.Valid(|names|) && (rest == "" || !NameChar(rest[0]))
    ensures ReadText(style, names, Text(style, names, t) + rest) == Some((t, rest))
    decreases t
  {
    hide ReadText, GoodNames, OpBlock;
    match t
    case Leaf(b) =>
      LeafReadsBack(style, names, b, rest);
    case Negation(u) =>
      var v := Text(style, names, u);
      TextReadsBack(style, names, u, rest);
      TextReadsBack(style, names, u, ")" + rest);
      NotReadsBack(style, names, v, u, rest);
    case Binary(op, l, r) =>
      var v, w := Text(style, names, l), Text(style, names, r);
      var end := w + (")" + rest);
      TextReadsBack(style, names, r, ")" + rest);
      BlockStart(style, op, end);
      TextReadsBack(style, names, l, if style == Conf then OpBlock(style, op) + end else " " + end);
      BinaryReadsBack(style, names, op, v, w, l, r, rest);
  }

  lemma BlockStart(style: Style, op: Token, rest: string)
    requires IsBinary(op)
    ensures style == Conf ==> OpBlock(style, op) != "" && !NameChar((OpBlock(style, op) + rest)[0])
  {
  }

  lemma LeafReadsBack(style: Style, names: seq<string>, b: nat, rest: string)
    requires GoodNames(names) && 0 < b <= |names| && (rest == "" || !NameChar(rest[0]))
    ensures ReadText(style, names, names[b - 1] + rest) == Some((Leaf(b), rest))
  {
    var name := names[b - 1];
    var text := name + rest;
    NameLengthOf(name, rest);
    assert text[..|name|] == name && text[|name|..] == rest && text[0] == name[0];
    assert !Starts(text, "! ") && !Starts(text, "(not ") && !Starts(text, "(");
  }

  lemma NotReadsBack(style: Style, names: seq<string>, v: string, t: Tree, rest: string)
    requires ReadText(style, names, v + rest) == Some((t, rest))
    requires ReadText(style, names, v + (")" + rest)) == Some((t, ")" + rest))
    ensures ReadText(style, names, NotText(style, v) + rest) == Some((Negation(t), rest))
  {
    hide ReadText;
    if style == Conf {
      ReadNotConf(names, v + rest, t, rest);
      assert NotText(Conf, v) + rest == "! " + (v + rest);
    } else {
      ReadNotCil(names, v + (")" + rest), t, rest);
      assert NotText(Cil, v) + rest == "(not " + (v + (")" + rest));
    }
  }

  lemma ReadNotConf(names: seq<string>, a: string, t: Tree, rest: string)
    requires ReadText(Conf, names, a) == Some((t, rest))
    ensures ReadText(Conf, names, "! " + a) == Some((Negation(t), rest))
  {
    assert ("! " + a)[..2] == "! " && ("! " + a)[2..] == a;
  }

  lemma ReadNotCil(names: seq<string>, a: string, t: Tree, rest: string)
    requires ReadText(Cil, names, a) == Some((t, ")" + rest))
    ensures ReadText(Cil, names, "(not " + a) == Some((Negation(t), rest))
  {
    assert ("(not " + a)[..5] == "(not " && ("(not " + a)[5..] == a;
    assert (")" + rest)[..1] == ")" && (")" + rest)[1..] == rest;
  }

  lemma StartsParen(a: string)
    ensures Starts("(" + a, "(not ") <==> Starts(a, "not ")
  {
    if |a| >= 4 {
      assert ("(" + a)[..5] == "(" + a[..4];
      assert ("(" + a[..4])[1..] == a[..4] && "(not "[1..] == "not ";
    }
  }

  /** How a text in parentheses is read. */
  lemma ReadConf(names: seq<string>, a: string, l: Tree, tail: string, op: Token, end: string, r: Tree, rest: string)
    requires ReadText(Conf, names, a) == Some((l, tail)) && ReadOp(Conf, tail) == Some((op, end))
    requires ReadText(Conf, names, end) == Some((r, ")" + rest))
    ensures ReadText(Conf, names, "(" + a) == Some((Binary(op, l, r), rest))
  {
    hide ReadOp;
    assert ("(" + a)[..1] == "(" && ("(" + a)[1..] == a && ("(" + a)[0] == '(';
    assert (")" + rest)[..1] == ")" && (")" + rest)[1..] == rest;
  }

  lemma ReadCil(names: seq<string>, a: string, op: Token, text: string, l: Tree, end: string, r: Tree, rest: string)
    requires !Starts(a, "not ") && ReadOp(Cil, a) == Some((op, text))
    requires ReadText(Cil, names, text) == Some((l, " " + end)) && ReadText(Cil, names, end) == Some((r, ")" + rest))
    ensures ReadText(Cil, names, "(" + a) == Some((Binary(op, l, r), rest))
  {
    hide ReadOp;
    assert ("(" + a)[..1] == "(" && ("(" + a)[1..] == a;
    assert (" " + end)[..1] == " " && (" " + end)[1..] == end;
    assert (")" + rest)[..1] == ")" && (")" + rest)[1..] == rest;
    StartsParen(a);
  }

  lemma BinaryReadsBack(style: Style, names: seq<string>, op: Token, v: string, w: string, l: Tree, r: Tree,
      rest: string)
    requires IsBinary(op)
    requires var tail := if style == Conf then OpBlock(style, op) + (w + (")" + rest)) else " " + (w + (")" + rest));
             ReadText(style, names, v + tail) == Some((l, tail))
    requires ReadText(style, names, w + (")" + rest)) == Some((r, ")" + rest))
    ensures ReadText(style, names, BinaryText(style, op, v, w) + rest) == Some((Binary(op, l, r), rest))
  {
    hide ReadText, ReadOp, OpBlock;
    var end := w + (")" + rest);
    if style == Conf {
      var tail := OpBlock(Conf, op) + end;
      ReadOpText(Conf, op, end);
      ReadConf(names, v + tail, l, tail, op, end, r, rest);
      assert BinaryText(Conf, op, v, w) + rest == "(" + (v + tail);
    } else {
      var tail := " " + end;
      NotNot(op, v + tail);
      ReadOpText(Cil, op, v + tail);
      ReadCil(names, OpBlock(Cil, op) + (v + tail), op, v + tail, l, end, r, rest);
      assert BinaryText(Cil, op, v, w) + rest == "(" + (OpBlock(Cil, op) + (v + tail));
    }
  }

  lemma NotNot(op: Token, rest: string)
    requires IsBinary(op)
    ensures !Starts(OpBlock(Cil, op) + rest, "not ")
  {
    var text := OpBlock(Cil, op) + rest;
    if op == Neq {
      assert text[1] == 'e';
    } else {
      OpCharOf(Cil, op);
      assert text[0] == OpChar(Cil, op);
    }
    StartsChars(text, "not ");
  }

  lemma StartsChars(text: string, p: string)
    ensures Starts(text, p) ==> forall i :: 0 <= i < |p| ==> text[i] == p[i]
  {
    if Starts(text, p) {
      assert forall i :: 0 <= i < |p| ==> text[..|p|][i] == p[i];
    }
  }
}
