/** The policy statement parser (statement.rs): words, tokens, and the access vector statements. */
module Statement {
  import opened AvTables

  datatype Token =
    | AL | DN | AA | DA | AX | AY | DX | PM | EF | TA | TY | AT | TT | TC | TM | GF
    | LB | RB | CM | ST | TL | HP | HX(n: nat) | ID(s: string)

  // Words.

  /** The characters at which split_whitespace splits (Unicode White_Space). */
  predicate IsSpace(c: char) {
    || c == ' ' || '\t' <= c <= '\r' || c == '\U{85}' || c == '\U{A0}' || c == '\U{1680}'
    || '\U{2000}' <= c <= '\U{200A}' || c == '\U{2028}' || c == '\U{2029}' || c == '\U{202F}'
    || c == '\U{205F}' || c == '\U{3000}'
  }

  function WordLength(s: string): (n: nat)
    ensures n <= |s| && forall i :: 0 <= i < n ==> !IsSpace(s[i])
    ensures n < |s| ==> IsSpace(s[n])
  {
    if s == "" || IsSpace(s[0]) then 0 else 1 + WordLength(s[1..])
  }

  /** split_whitespace. */
  function Words(s: string): seq<string>
    decreases |s|
  {
    if s == "" then []
    else if IsSpace(s[0]) then Words(s[1..])
    else [s[..WordLength(s)]] + Words(s[WordLength(s)..])
  }

  predicate IsWord(w: string) {
    w != "" && forall i :: 0 <= i < |w| ==> !IsSpace(w[i])
  }

  function Join(ws: seq<string>): string
    requires ws != []
  {
    if |ws| == 1 then ws[0] else ws[0] + " " + Join(ws[1..])
  }

  lemma {:induction false} WordLengthOf(w: string, rest: string)
    requires forall i :: 0 <= i < |w| ==> !IsSpace(w[i])
    requires rest == "" || IsSpace(rest[0])
    ensures WordLength(w + rest) == |w|
  {
    if w != "" {
      WordLengthOf(w[1..], rest);
      assert (w + rest)[1..] == w[1..] + rest;
      assert !IsSpace((w + rest)[0]);
    } else {
      assert w + rest == rest;
    }
  }

  lemma {:induction false} WordsOfJoin(ws: seq<string>)
    requires ws != [] && forall w <- ws :: IsWord(w)
    ensures Words(Join(ws)) == ws
  {
    var w := ws[0];
    assert w in ws;
    var rest := if |ws| == 1 then "" else " " + Join(ws[1..]);
    assert Join(ws) == w + rest;
    WordLengthOf(w, rest);
    assert (w + rest)[..|w|] == w && (w + rest)[|w|..] == rest;
    if |ws| > 1 {
      WordsOfJoin(ws[1..]);
      assert rest[1..] == Join(ws[1..]);
    }
  }

  lemma {:induction false} WordsAreWords(s: string)
    ensures forall i :: 0 <= i < |Words(s)| ==> IsWord(Words(s)[i])
    decreases |s|
  {
    if s != "" {
      if IsSpace(s[0]) {
        WordsAreWords(s[1..]);
      } else {
        WordsAreWords(s[WordLength(s)..]);
      }
    }
  }

  // Tokens.

  function Keyword(s: string): Option<Token> {
    match s
    case "allow" => Some(AL)
    case "deny" => Some(DN)
    case "auditallow" => Some(AA)
    case "dontaudit" => Some(DA)
    case "allowxperm" => Some(AX)
    case "auditallowxperm" => Some(AY)
    case "dontauditxperm" => Some(DX)
    case "permissive" => Some(PM)
    case "enforce" => Some(EF)
    case "typeattribute" => Some(TA)
    case "type" => Some(TY)
    case "attribute" => Some(AT)
    case "type_transition" => Some(TT)
    case "type_change" => Some(TC)
    case "type_member" => Some(TM)
    case "genfscon" => Some(GF)
    case "*" => Some(ST)
    case "-" => Some(HP)
    case _ => None
  }

  function HexDigit(c: char): Option<nat> {
    if '0' <= c <= '9' then Some((c - '0') as nat)
    else if 'a' <= c <= 'f' then Some((c - 'a') as nat + 10)
    else if 'A' <= c <= 'F' then Some((c - 'A') as nat + 10)
    else None
  }

  /** The number written in hexadecimal digits, the last digit last. */
  function HexDigits(s: string): Option<nat> {
    if s == "" then Some(0)
    else
      match (HexDigits(s[..|s| - 1]), HexDigit(s[|s| - 1]))
      case (Some(n), Some(d)) => Some(16 * n + d)
      case _ => None
  }

  /** u16::from_str_radix(s, 16): a sign is allowed, an empty number or an overflow is not. */
  function FromHex(s: string): Option<nat> {
    var digits := if s != "" && s[0] == '+' then s[1..] else s;
    match HexDigits(digits)
    case Some(n) => if digits != "" && n < 0x10000 then Some(n) else None
    case None => None
  }

  /** parse_xperm_hex. */
  function ParseXpermHex(s: string): Option<nat> {
    if |s| >= 2 && s[..2] == "0x" then FromHex(s[2..]) else None
  }

  function Find(s: string, c: char): (i: nat)
    ensures i <= |s| && c !in s[..i] && (i < |s| ==> s[i] == c)
  {
    if s == "" || s[0] == c then 0 else
      var i := 1 + Find(s[1..], c);
      assert s[..i] == [s[0]] + s[1..][..i - 1];
      i
  }

  /** extract_token: the tokens one word gives. */
  function ExtractToken(s: string): seq<Token>
    decreases |s|
  {
    if s == "" then []
    else if Keyword(s).Some? then [Keyword(s).value]
    else if Find(s, '{') < |s| then
      var i := Find(s, '{'); ExtractToken(s[..i]) + [LB] + ExtractToken(s[i + 1..])
    else if Find(s, '}') < |s| then
      var i := Find(s, '}'); ExtractToken(s[..i]) + [RB] + ExtractToken(s[i + 1..])
    else if Find(s, ',') < |s| then
      var i := Find(s, ','); ExtractToken(s[..i]) + [CM] + ExtractToken(s[i + 1..])
    else if s[0] == '~' then [TL] + ExtractToken(s[1..])
    else if ParseXpermHex(s).Some? then [HX(ParseXpermHex(s).value)]
    else [ID(s)]
  }

  /** A name that the tokenizer takes as it is. */
  predicate Plain(s: string) {
    && IsWord(s) && Keyword(s).None? && ParseXpermHex(s).None?
    && '{' !in s && '}' !in s && ',' !in s && s[0] != '~'
  }

  /** Exactly the plain words are identifiers. */
  lemma PlainIsIdentifier(s: string)
    requires IsWord(s)
    ensures Plain(s) <==> ExtractToken(s) == [ID(s)]
  {
    hide Keyword, ParseXpermHex, ExtractToken, Find;
    FindIn(s, '{');
    FindIn(s, '}');
    FindIn(s, ',');
    TokensOfWord(s);
  }

  lemma TokensOfWord(s: string)
    requires s != ""
    ensures ExtractToken(s) == [ID(s)] <==>
            && Keyword(s).None? && Find(s, '{') == |s| && Find(s, '}') == |s| && Find(s, ',') == |s|
            && s[0] != '~' && ParseXpermHex(s).None?
  {
    hide Keyword, ParseXpermHex, Find;
    KeywordIsNotId(s);
    if Find(s, '{') < |s| {
      SplitIsNotOne(s, Find(s, '{'), LB);
    } else if Find(s, '}') < |s| {
      SplitIsNotOne(s, Find(s, '}'), RB);
    } else if Find(s, ',') < |s| {
      SplitIsNotOne(s, Find(s, ','), CM);
    } else if s[0] == '~' {
      assert ([TL] + ExtractToken(s[1..]))[0] == TL;
    }
  }

  lemma FindIn(s: string, c: char)
    ensures c in s <==> Find(s, c) < |s|
  {
    assert s[..|s|] == s;
  }

  lemma SplitIsNotOne(s: string, i: nat, t: Token)
    requires i < |s| && !t.ID?
    ensures ExtractToken(s[..i]) + [t] + ExtractToken(s[i + 1..]) != [ID(s)]
  {
    var a, b := ExtractToken(s[..i]), ExtractToken(s[i + 1..]);
    assert (a + [t] + b)[|a|] == t;
  }

  lemma KeywordIsNotId(s: string)
    ensures Keyword(s).Some? ==> !Keyword(s).value.ID?
  {
  }

  function Tokens(ws: seq<string>): seq<Token> {
    if ws == [] then [] else Tokens(ws[..|ws| - 1]) + ExtractToken(ws[|ws| - 1])
  }

  /** tokenize_statement. */
  method TokenizeStatement(statement: string) returns (tokens: seq<Token>)
    ensures tokens == Tokens(Words(statement))
  {
    tokens := [];
    var words := Words(statement);
    for i := 0 to |words|
      invariant tokens == Tokens(words[..i])
    {
      tokens := tokens + ExtractToken(words[i]);
      assert words[..i + 1][..i] == words[..i];
    }
    assert words[..|words|] == words;
  }

  // Statements.

  /** The peekable token iterator. */
  class TokenStream {
    var rest: seq<Token>

    constructor (tokens: seq<Token>)
      ensures rest == tokens
    {
      rest := tokens;
    }

    method Next() returns (t: Option<Token>)
      modifies this
      ensures t == if old(rest) == [] then None else Some(old(rest)[0])
      ensures rest == if old(rest) == [] then [] else old(rest)[1..]
    {
      t := None;
      if rest != [] {
        t := Some(rest[0]);
        rest := rest[1..];
      }
    }
  }

  /** The names up to the closing brace; a `*` among them stands for all, and so does an empty
    * list. */
  function Braced(tokens: seq<Token>, names: Option<seq<string>>): Option<(seq<string>, seq<Token>)> {
    if tokens == [] then None
    else match tokens[0]
      case ID(name) => Braced(tokens[1..], if names.Some? then Some(names.value + [name]) else None)
      case ST => Braced(tokens[1..], None)
      case RB => Some((if names.Some? then names.value else [], tokens[1..]))
      case _ => None
  }

  /** What parse_sterm reads, and what it leaves. */
  function Sterm(tokens: seq<Token>): Option<(seq<string>, seq<Token>)> {
    if tokens == [] then None
    else match tokens[0]
      case ID(name) => Some(([name], tokens[1..]))
      case ST => Some(([], tokens[1..]))
      case LB => Braced(tokens[1..], Some([]))
      case _ => None
  }

  /** parse_sterm. */
  method ParseSterm(ts: TokenStream) returns (r: Option<seq<string>>)
    modifies ts
    ensures r.Some? == Sterm(old(ts.rest)).Some?
    ensures r.Some? ==> (r.value, ts.rest) == Sterm(old(ts.rest)).value
  {
    var t := ts.Next();
    match t {
      case Some(ID(name)) => r := Some([name]);
      case Some(ST) => r := Some([]);
      case Some(LB) =>
        var names := Some([]);
        ghost var before := ts.rest;
        while true
          invariant Braced(ts.rest, names) == Braced(before, Some([]))
          decreases |ts.rest|
        {
          ghost var rest := ts.rest;
          var u := ts.Next();
          match u {
            case Some(ID(name)) =>
              if names.Some? {
                names := Some(names.value + [name]);
              }
            case Some(ST) => names := None;
            case Some(RB) =>
              return Some(if names.Some? then names.value else []);
            case _ =>
              return None;
          }
        }
      case _ => r := None;
    }
  }

  // The forms of a term.

  /** The names among the tokens of a list. */
  function NamesIn(items: seq<Token>): seq<string> {
    if items == [] then []
    else
      var last := items[|items| - 1];
      NamesIn(items[..|items| - 1]) + if last.ID? then [last.s] else []
  }

  predicate IsList(items: seq<Token>) {
    forall i :: 0 <= i < |items| ==> items[i].ID? || items[i] == ST
  }

  lemma BracedStep(t: Token, more: seq<Token>, names: Option<seq<string>>)
    requires t.ID? || t == ST
    ensures Braced([t] + more, names) ==
            Braced(more, if t == ST then None else if names.Some? then Some(names.value + [t.s]) else None)
  {
    assert ([t] + more)[1..] == more;
  }

  lemma BracedEnd(rest: seq<Token>, names: Option<seq<string>>)
    ensures Braced([RB] + rest, names) == Some((if names.Some? then names.value else [], rest))
  {
    assert ([RB] + rest)[1..] == rest;
  }

  lemma {:induction false} BracedList(items: seq<Token>, rest: seq<Token>, names: Option<seq<string>>)
    requires IsList(items)
    ensures Braced(items + [RB] + rest, names) ==
            Some((if names.None? || ST in items then [] else names.value + NamesIn(items), rest))
    decreases |items|
  {
    hide Braced, NamesIn;
    if items == [] {
      assert items + [RB] + rest == [RB] + rest;
      BracedEnd(rest, names);
      NoNames();
      assert names.Some? ==> names.value + [] == names.value;
    } else {
      var t, more := items[0], items[1..];
      assert items == [t] + more && items + [RB] + rest == [t] + (more + [RB] + rest);
      BracedStep(t, more + [RB] + rest, names);
      BracedList(more, rest, if t == ST then None else if names.Some? then Some(names.value + [t.s]) else None);
      NamesFirst(t, more);
      if names.Some? && t.ID? {
        assert names.value + [t.s] + NamesIn(more) == names.value + ([t.s] + NamesIn(more));
      }
    }
  }

  lemma NoNames()
    ensures NamesIn([]) == []
  {
  }

  lemma {:induction false} NamesFirst(t: Token, items: seq<Token>)
    ensures NamesIn([t] + items) == (if t.ID? then [t.s] else []) + NamesIn(items)
  {
    if items == [] {
      assert [t] + items == [t] && [t][..0] == [];
    } else {
      assert ([t] + items)[..|items|] == [t] + items[..|items| - 1];
      NamesFirst(t, items[..|items| - 1]);
    }
  }

  lemma {:induction false} BracedHasList(tokens: seq<Token>, names: Option<seq<string>>) returns (items: seq<Token>)
    requires Braced(tokens, names).Some?
    ensures IsList(items) && tokens == items + [RB] + Braced(tokens, names).value.1
    decreases |tokens|
  {
    if tokens[0] == RB {
      items := [];
    } else {
      var more := BracedHasList(tokens[1..], if tokens[0] == ST then None
                                             else if names.Some? then Some(names.value + [tokens[0].s]) else None);
      items := [tokens[0]] + more;
    }
  }

  /** A term is a name, a star, or names and stars in braces; a star, and an empty list, leave no
    * name, which stands for all.  Nothing else is a term. */
  ghost predicate TermForm(tokens: seq<Token>, names: seq<string>, rest: seq<Token>) {
    || (exists n: string :: tokens == [ID(n)] + rest && names == [n])
    || (tokens == [ST] + rest && names == [])
    || (exists items: seq<Token> :: IsList(items) && tokens == [LB] + items + [RB] + rest
                                    && names == if ST in items then [] else NamesIn(items))
  }

  lemma FormIsRead(tokens: seq<Token>, names: seq<string>, rest: seq<Token>)
    requires TermForm(tokens, names, rest)
    ensures Sterm(tokens) == Some((names, rest))
  {
    hide Braced, NamesIn, IsList;
    if n: string :| tokens == [ID(n)] + rest && names == [n] {
      assert tokens[1..] == rest;
    } else if tokens == [ST] + rest && names == [] {
      assert tokens[1..] == rest;
    } else {
      var items: seq<Token> :| IsList(items) && tokens == [LB] + items + [RB] + rest
                               && names == if ST in items then [] else NamesIn(items);
      assert tokens[1..] == items + [RB] + rest;
      BracedList(items, rest, Some([]));
      assert [] + NamesIn(items) == NamesIn(items);
    }
  }

  lemma ReadHasForm(tokens: seq<Token>, names: seq<string>, rest: seq<Token>)
    requires Sterm(tokens) == Some((names, rest))
    ensures TermForm(tokens, names, rest)
  {
    hide Braced, NamesIn, IsList;
    assert tokens == [tokens[0]] + tokens[1..];
    if tokens[0] == LB {
      var items := BracedHasList(tokens[1..], Some([]));
      BracedList(items, rest, Some([]));
      assert tokens == [LB] + items + [RB] + rest;
      assert [] + NamesIn(items) == NamesIn(items);
    }
  }

  lemma StermForms(tokens: seq<Token>, names: seq<string>, rest: seq<Token>)
    ensures Sterm(tokens) == Some((names, rest)) <==> TermForm(tokens, names, rest)
  {
    hide Sterm, TermForm;
    if TermForm(tokens, names, rest) {
      FormIsRead(tokens, names, rest);
    }
    if Sterm(tokens) == Some((names, rest)) {
      ReadHasForm(tokens, names, rest);
    }
  }

  datatype AvCommand = AvCommand(action: Token, s: seq<string>, t: seq<string>, c: seq<string>, p: seq<string>)

  predicate IsAvAction(t: Token) {
    t in {AL, DN, AA, DA}
  }

  /** The command of an access vector statement, or None for a syntax error. */
  function AvStatement(tokens: seq<Token>): Option<AvCommand> {
    if tokens == [] || !IsAvAction(tokens[0]) then None
    else match Sterm(tokens[1..])
      case None => None
      case Some((s, rest)) => match Sterm(rest)
        case None => None
        case Some((t, rest)) => match Sterm(rest)
          case None => None
          case Some((c, rest)) => match Sterm(rest)
            case None => None
            case Some((p, rest)) => if rest == [] then Some(AvCommand(tokens[0], s, t, c, p)) else None
  }

  /** The access vector branch of exec_statement, up to the call of the rule function. */
  method ParseAv(action: Token, ts: TokenStream) returns (r: Option<AvCommand>)
    requires IsAvAction(action)
    modifies ts
    ensures r == AvStatement([action] + old(ts.rest))
  {
    hide Sterm;
    assert ([action] + ts.rest)[1..] == ts.rest;
    var s := ParseSterm(ts);
    if s.None? { return None; }
    var t := ParseSterm(ts);
    if t.None? { return None; }
    var c := ParseSterm(ts);
    if c.None? { return None; }
    var p := ParseSterm(ts);
    if p.None? { return None; }
    if ts.rest != [] {
      return None;
    }
    r := Some(AvCommand(action, s.value, t.value, c.value, p.value));
  }

  function Ids(names: seq<string>): (ts: seq<Token>)
    ensures |ts| == |names| && forall i :: 0 <= i < |ts| ==> ts[i] == ID(names[i])
  {
    seq(|names|, i requires 0 <= i < |names| => ID(names[i]))
  }

  lemma {:induction false} BracedNames(names: seq<string>, before: seq<string>, rest: seq<Token>)
    ensures Braced(Ids(names) + [RB] + rest, Some(before)) == Some((before + names, rest))
  {
    var tokens := Ids(names) + [RB] + rest;
    if names == [] {
      assert tokens[1..] == rest && before + names == before;
    } else {
      assert tokens[1..] == Ids(names[1..]) + [RB] + rest;
      BracedNames(names[1..], before + [names[0]], rest);
      assert before + [names[0]] + names[1..] == before + names;
    }
  }

  /** A statement with single names and a list of permissions is read as it is written. */
  lemma AvTokens(action: Token, s: string, t: string, c: string, ps: seq<string>)
    requires IsAvAction(action)
    ensures AvStatement([action, ID(s), ID(t), ID(c), LB] + Ids(ps) + [RB]) ==
            Some(AvCommand(action, [s], [t], [c], ps))
  {
    hide Sterm, Braced, Ids;
    var t4 := [LB] + Ids(ps) + [RB];
    var t3 := [ID(c)] + t4;
    var t2 := [ID(t)] + t3;
    var t1 := [ID(s)] + t2;
    assert [action, ID(s), ID(t), ID(c), LB] + Ids(ps) + [RB] == [action] + t1;
    assert ([action] + t1)[1..] == t1;
    StermName(s, t2);
    StermName(t, t3);
    StermName(c, t4);
    StermBraces(ps);
  }

  lemma StermName(name: string, rest: seq<Token>)
    ensures Sterm([ID(name)] + rest) == Some(([name], rest))
  {
    assert ([ID(name)] + rest)[1..] == rest;
  }

  lemma StermBrace(body: seq<Token>)
    ensures Sterm([LB] + body) == Braced(body, Some([]))
  {
    assert ([LB] + body)[1..] == body;
  }

  lemma StermBraces(ps: seq<string>)
    ensures Sterm([LB] + Ids(ps) + [RB]) == Some((ps, []))
  {
    hide Sterm, Braced, Ids;
    var body := Ids(ps) + [RB];
    BracedNames(ps, [], []);
    assert [] + ps == ps && body + [] == body;
    StermBrace(body);
    assert [LB] + body == [LB] + Ids(ps) + [RB];
  }

  // Written statements.

  function ActionName(action: Token): string
    requires IsAvAction(action)
  {
    match action
    case AL => "allow"
    case DN => "deny"
    case AA => "auditallow"
    case _ => "dontaudit"
  }

  /** The words of a printed rule. */
  function RuleWords(action: Token, s: string, t: string, c: string, ps: seq<string>): seq<string>
    requires IsAvAction(action)
  {
    [ActionName(action), s, t, c, "{"] + ps + ["}"]
  }

  lemma {:induction false} TokensConcat(a: seq<string>, b: seq<string>)
    ensures Tokens(a + b) == Tokens(a) + Tokens(b)
  {
    if b == [] {
      assert a + b == a;
    } else {
      assert (a + b)[..|a + b| - 1] == a + b[..|b| - 1];
      TokensConcat(a, b[..|b| - 1]);
    }
  }

  lemma {:induction false} TokensOfNames(names: seq<string>)
    requires forall i :: 0 <= i < |names| ==> Plain(names[i])
    ensures Tokens(names) == Ids(names)
  {
    hide ExtractToken, Plain;
    if names != [] {
      var front, last := names[..|names| - 1], names[|names| - 1];
      TokensOfNames(front);
      PlainWord(last);
      PlainIsIdentifier(last);
      assert Ids(names) == Ids(front) + [ID(last)];
    }
  }

  lemma PlainWord(w: string)
    requires Plain(w)
    ensures IsWord(w)
  {
  }

  lemma TokenOf(w: string)
    ensures Tokens([w]) == ExtractToken(w)
  {
    assert [w][..0] == [];
  }

  lemma BraceTokens()
    ensures ExtractToken("{") == [LB] && ExtractToken("}") == [RB]
  {
    assert "{"[..0] == "" && "{"[1..] == "" && "}"[..0] == "" && "}"[1..] == "";
  }

  lemma ActionKeyword(action: Token)
    requires IsAvAction(action)
    ensures Keyword(ActionName(action)) == Some(action) && ActionName(action) != ""
  {
  }

  lemma ActionWord(action: Token)
    requires IsAvAction(action)
    ensures IsWord(ActionName(action))
  {
    match action
    case AL =>
    case DN =>
    case AA =>
    case _ =>
  }

  lemma ActionToken(action: Token)
    requires IsAvAction(action)
    ensures ExtractToken(ActionName(action)) == [action] && IsWord(ActionName(action))
  {
    hide Keyword, ActionName, IsWord;
    ActionKeyword(action);
    ActionWord(action);
  }

  /** The words of a printed rule with plain names. */
  lemma RuleWordsBack(action: Token, s: string, t: string, c: string, ps: seq<string>)
    requires IsAvAction(action) && Plain(s) && Plain(t) && Plain(c)
    requires forall i :: 0 <= i < |ps| ==> Plain(ps[i])
    ensures Words(Join(RuleWords(action, s, t, c, ps))) == RuleWords(action, s, t, c, ps)
  {
    hide Plain, Words, Join, ActionName;
    var ws := RuleWords(action, s, t, c, ps);
    ActionWord(action);
    forall i | 0 <= i < |ws| ensures IsWord(ws[i]) {
      if 5 <= i < 5 + |ps| { assert ws[i] == ps[i - 5]; PlainWord(ps[i - 5]); }
      if 1 <= i < 4 { PlainWord(ws[i]); }
      assert IsWord("{") && IsWord("}");
    }
    WordsOfJoin(ws);
  }

  /** A printed rule with plain names is parsed back. */
  lemma RuleParsesBack(action: Token, s: string, t: string, c: string, ps: seq<string>)
    requires IsAvAction(action) && Plain(s) && Plain(t) && Plain(c)
    requires forall i :: 0 <= i < |ps| ==> Plain(ps[i])
    ensures AvStatement(Tokens(Words(Join(RuleWords(action, s, t, c, ps))))) ==
            Some(AvCommand(action, [s], [t], [c], ps))
  {
    hide ExtractToken, Plain, Words, Join, AvStatement, ActionName;
    var ws, names := RuleWords(action, s, t, c, ps), [s, t, c];
    RuleWordsBack(action, s, t, c, ps);
    ActionToken(action);
    BraceTokens();
    TokensOfNames(names);
    TokensOfNames(ps);
    TokenOf(ActionName(action));
    TokenOf("{");
    TokenOf("}");
    assert ws == [ActionName(action)] + names + ["{"] + ps + ["}"];
    TokensConcat([ActionName(action)] + names + ["{"] + ps, ["}"]);
    TokensConcat([ActionName(action)] + names + ["{"], ps);
    TokensConcat([ActionName(action)] + names, ["{"]);
    TokensConcat([ActionName(action)], names);
    assert Tokens(ws) == [action, ID(s), ID(t), ID(c), LB] + Ids(ps) + [RB];
    AvTokens(action, s, t, c, ps);
  }

  /** The four statements as they are written. */
  lemma WrittenStatement(word: string, action: Token, s: string, t: string, c: string, ps: seq<string>)
    requires (word, action) in {("allow", AL), ("deny", DN), ("auditallow", AA), ("dontaudit", DA)}
    requires Plain(s) && Plain(t) && Plain(c) && forall i :: 0 <= i < |ps| ==> Plain(ps[i])
    ensures AvStatement(Tokens(Words(Join([word, s, t, c, "{"] + ps + ["}"])))) ==
            Some(AvCommand(action, [s], [t], [c], ps))
  {
    hide Plain, AvStatement, Tokens, Words, Join;
    RuleParsesBack(action, s, t, c, ps);
    assert ActionName(action) == word;
  }

  function HexChar(d: nat, upper: bool): char
    requires d < 16
  {
    if upper then "0123456789ABCDEF"[d] else "0123456789abcdef"[d]
  }

  function Hex(n: nat, upper: bool): string {
    if n < 16 then [HexChar(n, upper)] else Hex(n / 16, upper) + [HexChar(n % 16, upper)]
  }

  lemma {:induction false} HexDigitsBack(n: nat, upper: bool)
    ensures HexDigits(Hex(n, upper)) == Some(n) && Hex(n, upper) != "" && Hex(n, upper)[0] != '+'
  {
    hide HexChar, HexDigit;
    HexDigitOf(n % 16, upper);
    if n >= 16 {
      HexDigitsBack(n / 16, upper);
      HexDigitsEnd(Hex(n / 16, upper), HexChar(n % 16, upper));
      assert n == 16 * (n / 16) + n % 16;
    } else {
      HexDigitsEnd("", HexChar(n, upper));
      assert "" + [HexChar(n, upper)] == [HexChar(n, upper)];
    }
  }

  lemma HexDigitsEnd(s: string, c: char)
    ensures HexDigits(s + [c]) == match (HexDigits(s), HexDigit(c))
                                  case (Some(n), Some(d)) => Some(16 * n + d)
                                  case _ => None
  {
    hide HexDigit;
    assert (s + [c])[..|s|] == s;
  }

  lemma HexDigitOf(d: nat, upper: bool)
    requires d < 16
    ensures HexDigit(HexChar(d, upper)) == Some(d) && HexChar(d, upper) != '+'
  {
  }

  /** A 16-bit number written in hexadecimal, in letters of either case and with or without a plus
    * sign, is read back. */
  lemma HexReadsBack(n: nat, upper: bool)
    ensures ParseXpermHex("0x" + Hex(n, upper)) == if n < 0x10000 then Some(n) else None
    ensures ParseXpermHex("0x+" + Hex(n, upper)) == if n < 0x10000 then Some(n) else None
  {
    var s := Hex(n, upper);
    HexDigitsBack(n, upper);
    assert ("0x" + s)[..2] == "0x" && ("0x" + s)[2..] == s;
    assert ("0x+" + s)[..2] == "0x" && ("0x+" + s)[2..] == "+" + s && ("+" + s)[1..] == s;
  }
}
