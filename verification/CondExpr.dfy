/** Conditional expressions (libsepol/src/conditional.c): a list of operands and operators in
  * reverse polish notation, evaluated on an array stack of bounded depth.
  */
module CondExpr {
  import opened AvTables

  const COND_EXPR_MAXDEPTH := 10

  datatype Token = Bool(boolean: nat) | Not | Or | And | Xor | Eq | Neq | Unknown(exprType: nat)

  /** cond_bool_datum: a boolean and its state. */
  class BoolDatum {
    var state: bool

    constructor (state: bool)
      ensures this.state == state
    {
      this.state := state;
    }
  }

  ghost function States(bools: seq<BoolDatum>): (s: seq<bool>)
    reads bools
    ensures |s| == |bools| && forall i :: 0 <= i < |s| ==> s[i] == bools[i].state
  {
    seq(|bools|, i requires 0 <= i < |bools| reads bools => bools[i].state)
  }

  /** Booleans are numbered from 1. */
  ghost predicate InRange(expr: seq<Token>, n: nat) {
    forall t <- expr :: t.Bool? ==> 0 < t.boolean <= n
  }

  predicate IsBinary(t: Token) {
    t in {Or, And, Xor, Eq, Neq}
  }

  predicate Apply(op: Token, a: bool, b: bool) {
    match op
    case Or => a || b
    case And => a && b
    case Xor => a != b
    case Eq => a == b
    case _ => a != b
  }

  /** One step of the machine on the stack `st`, whose bottom comes first. */
  function Step(t: Token, s: seq<bool>, st: seq<bool>): Option<seq<bool>>
    requires t.Bool? ==> 0 < t.boolean <= |s|
  {
    if t.Bool? then
      if |st| == COND_EXPR_MAXDEPTH then None else Some(st + [s[t.boolean - 1]])
    else if t == Not then
      if |st| < 1 then None else Some(st[..|st| - 1] + [!st[|st| - 1]])
    else if IsBinary(t) then
      if |st| < 2 then None else Some(st[..|st| - 2] + [Apply(t, st[|st| - 2], st[|st| - 1])])
    else
      None
  }

  ghost function Run(expr: seq<Token>, s: seq<bool>, st: seq<bool>): Option<seq<bool>>
    requires InRange(expr, |s|)
    decreases |expr|
  {
    if expr == [] then Some(st)
    else
      assert expr[0] in expr;
      match Step(expr[0], s, st)
      case None => None
      case Some(next) => Run(expr[1..], s, next)
  }

  /** What cond_evaluate_expr returns: the bottom of the final stack, or -1. */
  ghost function Answer(expr: seq<Token>, s: seq<bool>): int
    requires InRange(expr, |s|)
  {
    match Run(expr, s, [])
    case None => -1
    case Some(st) => if st == [] then -1 else if st[0] then 1 else 0
  }

  // The expressions a list of tokens stands for.

  datatype Tree = Leaf(boolean: nat) | Negation(t: Tree) | Binary(op: Token, l: Tree, r: Tree) {
    ghost predicate Valid(n: nat) {
      match this
      case Leaf(b) => 0 < b <= n
      case Negation(t) => t.Valid(n)
      case Binary(op, l, r) => IsBinary(op) && l.Valid(n) && r.Valid(n)
    }

    ghost function Value(s: seq<bool>): bool
      requires Valid(|s|)
    {
      match this
      case Leaf(b) => s[b - 1]
      case Negation(t) => !t.Value(s)
      case Binary(op, l, r) => Apply(op, l.Value(s), r.Value(s))
    }

    ghost function Postfix(): seq<Token> {
      match this
      case Leaf(b) => [Bool(b)]
      case Negation(t) => t.Postfix() + [Not]
      case Binary(op, l, r) => l.Postfix() + r.Postfix() + [op]
    }

    /** The stack that evaluating the postfix form needs. */
    ghost function Depth(): nat {
      match this
      case Leaf(_) => 1
      case Negation(t) => t.Depth()
      case Binary(_, l, r) => if l.Depth() > r.Depth() then l.Depth() else r.Depth() + 1
    }
  }

  ghost function Flat(ts: seq<Tree>): seq<Token> {
    if ts == [] then [] else Flat(ts[..|ts| - 1]) + ts[|ts| - 1].Postfix()
  }

  ghost predicate AllValid(ts: seq<Tree>, n: nat) {
    forall t <- ts :: t.Valid(n)
  }

  /** Reading one token back, onto the trees read so far. */
  ghost function Read(t: Token, ts: seq<Tree>): Option<seq<Tree>> {
    var k := |ts|;
    if t.Bool? then Some(ts + [Leaf(t.boolean)])
    else if t == Not then if k < 1 then None else Some(ts[..k - 1] + [Negation(ts[k - 1])])
    else if IsBinary(t) then if k < 2 then None else Some(ts[..k - 2] + [Binary(t, ts[k - 2], ts[k - 1])])
    else None
  }

  ghost function Parse(expr: seq<Token>, ts: seq<Tree>): Option<seq<Tree>>
    decreases |expr|
  {
    if expr == [] then Some(ts)
    else
      match Read(expr[0], ts)
      case None => None
      case Some(us) => Parse(expr[1..], us)
  }

  lemma FlatEnd(ts: seq<Tree>, t: Tree)
    ensures Flat(ts + [t]) == Flat(ts) + t.Postfix()
  {
    assert (ts + [t])[..|ts|] == ts;
  }

  lemma ReadValid(t: Token, ts: seq<Tree>, n: nat)
    requires (t.Bool? ==> 0 < t.boolean <= n) && AllValid(ts, n) && Read(t, ts).Some?
    ensures AllValid(Read(t, ts).value, n)
  {
    var k, us := |ts|, Read(t, ts).value;
    forall i | 0 <= i < |us| - 1 ensures us[i].Valid(n) {
      assert us[i] == ts[i] && ts[i] in ts;
    }
    assert k > 0 ==> ts[k - 1] in ts;
    assert k > 1 ==> ts[k - 2] in ts;
  }

  lemma ReadWritesBack(t: Token, ts: seq<Tree>, n: nat)
    requires (t.Bool? ==> 0 < t.boolean <= n) && AllValid(ts, n) && Read(t, ts).Some?
    ensures Flat(Read(t, ts).value) == Flat(ts) + [t]
  {
    hide Flat, AllValid;
    var k := |ts|;
    if t.Bool? {
      FlatEnd(ts, Leaf(t.boolean));
    } else if t == Not {
      FlatEnd(ts[..k - 1], Negation(ts[k - 1]));
      FlatEnd(ts[..k - 1], ts[k - 1]);
      assert ts[..k - 1] + [ts[k - 1]] == ts;
      assert Flat(ts) + [t] == Flat(ts[..k - 1]) + (ts[k - 1].Postfix() + [t]);
    } else {
      FlatEnd(ts[..k - 2], Binary(t, ts[k - 2], ts[k - 1]));
      FlatEnd(ts[..k - 2], ts[k - 2]);
      FlatEnd(ts[..k - 1], ts[k - 1]);
      assert ts[..k - 2] + [ts[k - 2]] == ts[..k - 1] && ts[..k - 1] + [ts[k - 1]] == ts;
      assert Flat(ts) + [t] == Flat(ts[..k - 2]) + (ts[k - 2].Postfix() + ts[k - 1].Postfix() + [t]);
    }
  }

  /** What has been read, written out again, is what was there. */
  lemma {:induction false} ParseWritesBack(expr: seq<Token>, ts: seq<Tree>, n: nat)
    requires InRange(expr, n) && AllValid(ts, n) && Parse(expr, ts).Some?
    ensures Flat(Parse(expr, ts).value) == Flat(ts) + expr && AllValid(Parse(expr, ts).value, n)
    decreases |expr|
  {
    hide Flat, Read, AllValid;
    if expr != [] {
      assert expr[0] in expr;
      var us := Read(expr[0], ts).value;
      ReadWritesBack(expr[0], ts, n);
      ReadValid(expr[0], ts, n);
      ParseWritesBack(expr[1..], us, n);
      assert [expr[0]] + expr[1..] == expr;
      assert Flat(ts) + [expr[0]] + expr[1..] == Flat(ts) + ([expr[0]] + expr[1..]);
    }
  }

  lemma {:induction false} RunConcat(a: seq<Token>, b: seq<Token>, s: seq<bool>, st: seq<bool>)
    requires InRange(a, |s|) && InRange(b, |s|)
    ensures InRange(a + b, |s|)
    ensures Run(a + b, s, st) == (match Run(a, s, st) case None => None case Some(next) => Run(b, s, next))
    decreases |a|
  {
    if a == [] {
      assert a + b == b;
    } else {
      assert (a + b)[1..] == a[1..] + b;
      match Step(a[0], s, st)
      case None =>
      case Some(next) => RunConcat(a[1..], b, s, next);
    }
  }

  lemma RunOne(t: Token, s: seq<bool>, st: seq<bool>)
    requires InRange([t], |s|)
    ensures t.Bool? ==> 0 < t.boolean <= |s|
    ensures Run([t], s, st) == Step(t, s, st)
  {
    assert t in [t];
  }

  lemma {:induction false} PostfixInRange(t: Tree, n: nat)
    requires t.Valid(n)
    ensures InRange(t.Postfix(), n)
  {
    match t
    case Leaf(_) =>
    case Negation(u) => PostfixInRange(u, n);
    case Binary(_, l, r) => PostfixInRange(l, n); PostfixInRange(r, n);
  }

  lemma StepNot(s: seq<bool>, st: seq<bool>, v: bool)
    ensures Step(Not, s, st + [v]) == Some(st + [!v])
  {
    assert (st + [v])[..|st|] == st;
  }

  lemma StepBinary(op: Token, s: seq<bool>, st: seq<bool>, v: bool, w: bool)
    requires IsBinary(op)
    ensures Step(op, s, st + [v] + [w]) == Some(st + [Apply(op, v, w)])
  {
    assert (st + [v] + [w])[..|st|] == st;
  }

  lemma RunOperator(a: seq<Token>, b: seq<Token>, op: Token, s: seq<bool>, st: seq<bool>, v: bool, w: bool)
    requires IsBinary(op) && InRange(a, |s|) && InRange(b, |s|)
    requires Run(a, s, st) == Some(st + [v]) && Run(b, s, st + [v]) == Some(st + [v] + [w])
    ensures InRange(a + b + [op], |s|) && Run(a + b + [op], s, st) == Some(st + [Apply(op, v, w)])
  {
    hide Step, Run, Apply;
    RunConcat(a, b, s, st);
    RunConcat(a + b, [op], s, st);
    RunOne(op, s, st + [v] + [w]);
    StepBinary(op, s, st, v, w);
  }

  lemma RunFails(a: seq<Token>, b: seq<Token>, s: seq<bool>, st: seq<bool>)
    requires InRange(a, |s|) && InRange(b, |s|)
    requires Run(a, s, st) == None || Run(b, s, Run(a, s, st).value) == None
    ensures InRange(a + b, |s|) && Run(a + b, s, st) == None
  {
    RunConcat(a, b, s, st);
  }

  /** The machine computes the value of a tree from its postfix form, when the stack suffices. */
  lemma {:induction false} RunPostfix(t: Tree, s: seq<bool>, st: seq<bool>)
    requires t.Valid(|s|) && |st| <= COND_EXPR_MAXDEPTH
    ensures InRange(t.Postfix(), |s|)
    ensures Run(t.Postfix(), s, st) == if |st| + t.Depth() <= COND_EXPR_MAXDEPTH then Some(st + [t.Value(s)]) else None
  {
    PostfixInRange(t, |s|);
    match t
    case Leaf(b) =>
      RunOne(Bool(b), s, st);
    case Negation(u) =>
      RunPostfix(u, s, st);
      RunConcat(u.Postfix(), [Not], s, st);
      RunOne(Not, s, st + [u.Value(s)]);
      StepNot(s, st, u.Value(s));
    case Binary(op, l, r) =>
      RunPostfix(l, s, st);
      PostfixInRange(r, |s|);
      DepthPositive(l);
      var v, w := l.Value(s), r.Value(s);
      if |st| + l.Depth() <= COND_EXPR_MAXDEPTH {
        RunPostfix(r, s, st + [v]);
        if |st| + 1 + r.Depth() <= COND_EXPR_MAXDEPTH {
          RunOperator(l.Postfix(), r.Postfix(), op, s, st, v, w);
        } else {
          RunFails(l.Postfix(), r.Postfix(), s, st);
          RunFails(l.Postfix() + r.Postfix(), [op], s, st);
        }
      } else {
        RunFails(l.Postfix(), r.Postfix(), s, st);
        RunFails(l.Postfix() + r.Postfix(), [op], s, st);
      }
  }

  lemma {:induction false} DepthPositive(t: Tree)
    ensures t.Depth() > 0
  {
    match t
    case Leaf(_) =>
    case Negation(u) => DepthPositive(u);
    case Binary(_, l, r) => DepthPositive(l);
  }

  ghost function Values(ts: seq<Tree>, s: seq<bool>): seq<bool>
    requires AllValid(ts, |s|)
  {
    seq(|ts|, i requires 0 <= i < |ts| => ts[i].Value(s))
  }

  /** The stack suffices for each tree on top of the values of those before it. */
  ghost predicate Fits(ts: seq<Tree>) {
    forall i :: 0 <= i < |ts| ==> i + ts[i].Depth() <= COND_EXPR_MAXDEPTH
  }

  lemma {:induction false} RunFlat(ts: seq<Tree>, s: seq<bool>)
    requires AllValid(ts, |s|)
    ensures InRange(Flat(ts), |s|)
    ensures Run(Flat(ts), s, []) == if Fits(ts) then Some(Values(ts, s)) else None
    ensures Fits(ts) ==> |ts| <= COND_EXPR_MAXDEPTH
  {
    if ts != [] {
      var front, last := ts[..|ts| - 1], ts[|ts| - 1];
      RunFlat(front, s);
      PostfixInRange(last, |s|);
      RunConcat(Flat(front), last.Postfix(), s, []);
      FitsEnd(front, last);
      assert ts == front + [last];
      if Fits(front) {
        RunPostfix(last, s, Values(front, s));
        assert Values(front, s) + [last.Value(s)] == Values(ts, s);
      }
    } else {
      assert Values(ts, s) == [];
    }
  }

  lemma FitsEnd(ts: seq<Tree>, t: Tree)
    ensures Fits(ts + [t]) <==> Fits(ts) && |ts| + t.Depth() <= COND_EXPR_MAXDEPTH
    ensures t.Depth() > 0
  {
    DepthPositive(t);
    var us := ts + [t];
    assert us[|ts|] == t && forall i :: 0 <= i < |ts| ==> us[i] == ts[i];
    if Fits(ts) && |ts| + t.Depth() <= COND_EXPR_MAXDEPTH {
      forall i | 0 <= i < |us| ensures i + us[i].Depth() <= COND_EXPR_MAXDEPTH {
        assert i < |ts| ==> i + ts[i].Depth() <= COND_EXPR_MAXDEPTH;
      }
    }
    if Fits(us) {
      forall i | 0 <= i < |ts| ensures i + ts[i].Depth() <= COND_EXPR_MAXDEPTH {
        assert i + us[i].Depth() <= COND_EXPR_MAXDEPTH;
      }
    }
  }

  /** Whatever runs to the end can be read. */
  lemma {:induction false} RunReads(expr: seq<Token>, s: seq<bool>, st: seq<bool>, ts: seq<Tree>)
    requires InRange(expr, |s|) && |st| == |ts| && Run(expr, s, st).Some?
    ensures Parse(expr, ts).Some?
    decreases |expr|
  {
    if expr != [] {
      assert expr[0] in expr;
      RunReads(expr[1..], s, Step(expr[0], s, st).value, Read(expr[0], ts).value);
    }
  }

  /** The answer for any list of tokens: the value of the first of the trees it consists of, and
    * -1 if it is not made of trees, or of none, or the stack does not suffice. */
  lemma AnswerIsValue(expr: seq<Token>, s: seq<bool>)
    requires InRange(expr, |s|)
    ensures match Parse(expr, [])
            case None => Answer(expr, s) == -1
            case Some(ts) =>
              && Flat(ts) == expr && AllValid(ts, |s|)
              && Answer(expr, s) == if ts == [] || !Fits(ts) then -1 else if ts[0].Value(s) then 1 else 0
  {
    if Parse(expr, []).Some? {
      ParseWritesBack(expr, [], |s|);
      RunFlat(Parse(expr, []).value, s);
    } else if Run(expr, s, []).Some? {
      RunReads(expr, s, [], []);
    }
  }

  lemma {:induction false} ParsePostfix(t: Tree, rest: seq<Token>, ts: seq<Tree>, n: nat)
    requires t.Valid(n)
    ensures Parse(t.Postfix() + rest, ts) == Parse(rest, ts + [t])
    decreases t
  {
    match t
    case Leaf(b) =>
      assert ([Bool(b)] + rest)[1..] == rest;
    case Negation(u) =>
      assert t.Postfix() + rest == u.Postfix() + ([Not] + rest);
      ParsePostfix(u, [Not] + rest, ts, n);
      assert (ts + [u])[..|ts|] == ts;
      assert ([Not] + rest)[1..] == rest;
    case Binary(op, l, r) =>
      var tail := [op] + rest;
      assert t.Postfix() + rest == l.Postfix() + (r.Postfix() + tail);
      ParsePostfix(l, r.Postfix() + tail, ts, n);
      ParsePostfix(r, tail, ts + [l], n);
      assert (ts + [l] + [r])[..|ts|] == ts && tail[1..] == rest;
  }

  /** For the postfix form of a tree the answer is its value whenever the stack suffices. */
  lemma TreeAnswer(t: Tree, s: seq<bool>)
    requires t.Valid(|s|)
    ensures InRange(t.Postfix(), |s|)
    ensures Answer(t.Postfix(), s) == if t.Depth() > COND_EXPR_MAXDEPTH then -1 else if t.Value(s) then 1 else 0
    ensures Parse(t.Postfix(), []) == Some([t])
  {
    assert [] + [t] == [t];
    RunPostfix(t, s, []);
    ParsePostfix(t, [], [], |s|);
    assert t.Postfix() + [] == t.Postfix();
  }

  lemma ApplyMeans(op: Token, a: bool, b: bool)
    requires IsBinary(op)
    ensures (op == Or ==> Apply(op, a, b) == (a || b)) && (op == And ==> Apply(op, a, b) == (a && b))
    ensures (op == Xor ==> Apply(op, a, b) == (a != b)) && (op == Neq ==> Apply(op, a, b) == (a != b))
    ensures op == Eq ==> Apply(op, a, b) == (a == b)
  {
  }

  /** A boolean alone has its own state. */
  lemma BooleanMeaning(b: nat, s: seq<bool>)
    requires 0 < b <= |s|
    ensures InRange([Bool(b)], |s|) && Answer([Bool(b)], s) == if s[b - 1] then 1 else 0
  {
    TreeAnswer(Leaf(b), s);
  }

  /** What each connective means for the answers. */
  lemma ConnectiveMeaning(op: Token, l: Tree, r: Tree, s: seq<bool>)
    requires IsBinary(op) && l.Valid(|s|) && r.Valid(|s|) && Binary(op, l, r).Depth() <= COND_EXPR_MAXDEPTH
    ensures InRange(Binary(op, l, r).Postfix(), |s|) && InRange(l.Postfix(), |s|) && InRange(r.Postfix(), |s|)
    ensures var a, b, c := Answer(l.Postfix(), s), Answer(r.Postfix(), s), Answer(Binary(op, l, r).Postfix(), s);
            && a in {0, 1} && b in {0, 1} && c in {0, 1}
            && (op == Or ==> (c == 1 <==> a == 1 || b == 1))
            && (op == And ==> (c == 1 <==> a == 1 && b == 1))
            && (op == Xor ==> (c == 1 <==> a != b))
            && (op == Eq ==> (c == 1 <==> a == b))
            && (op == Neq ==> (c == 1 <==> a != b))
    ensures InRange(Negation(l).Postfix(), |s|) && Answer(Negation(l).Postfix(), s) == 1 - Answer(l.Postfix(), s)
  {
    hide Answer, Run, Tree.Postfix, InRange, Apply;
    TreeAnswer(Binary(op, l, r), s);
    TreeAnswer(l, s);
    TreeAnswer(r, s);
    TreeAnswer(Negation(l), s);
    ApplyMeans(op, l.Value(s), r.Value(s));
  }

  // The code.

  function Int(b: bool): int {
    if b then 1 else 0
  }

  /** The cells of the array stack in use hold the values of `st`. */
  ghost predicate Holds(a: array<int>, sp: int, st: seq<bool>)
    reads a
  {
    && a.Length == COND_EXPR_MAXDEPTH && sp == |st| - 1 < a.Length
    && (forall i :: 0 <= i < |st| ==> a[i] == Int(st[i]))
    && (sp == -1 ==> a[0] == -1)
  }

  /** The arithmetic on 0 and 1 that the switch does. */
  function Combine(op: Token, a: int, b: int): int
    requires a in {0, 1} && b in {0, 1} && IsBinary(op)
  {
    match op
    case Or => if a == 0 && b == 0 then 0 else 1
    case And => a * b
    case Xor => (a + b) % 2
    case Eq => if a == b then 1 else 0
    case _ => if a != b then 1 else 0
  }

  lemma CombineIsApply(op: Token, a: bool, b: bool)
    requires IsBinary(op)
    ensures Combine(op, Int(a), Int(b)) == Int(Apply(op, a, b))
  {
  }

  /** One turn of the switch; `ok` is false where it returns -1. */
  method Execute(s: array<int>, sp: int, cur: Token, bools: seq<BoolDatum>, ghost st: seq<bool>)
    returns (ok: bool, next: int)
    requires Holds(s, sp, st) && (cur.Bool? ==> 0 < cur.boolean <= |bools|)
    modifies s
    ensures ok == Step(cur, States(bools), st).Some?
    ensures ok ==> Holds(s, next, Step(cur, States(bools), st).value)
  {
    hide Combine, Apply;
    ok, next := true, sp;
    match cur
    case Bool(b) =>
      if sp == COND_EXPR_MAXDEPTH - 1 {
        return false, sp;
      }
      next := sp + 1;
      s[next] := Int(bools[b - 1].state);
    case Not =>
      if sp < 0 {
        return false, sp;
      }
      s[sp] := 1 - s[sp];
    case Unknown(_) =>
      return false, sp;
    case _ =>
      if sp < 1 {
        return false, sp;
      }
      next := sp - 1;
      CombineIsApply(cur, st[next], st[next + 1]);
      s[next] := Combine(cur, s[next], s[next + 1]);
      assert s[next] == Int(Apply(cur, st[next], st[next + 1]));
  }

  /** cond_evaluate_expr. */
  method CondEvaluateExpr(bools: seq<BoolDatum>, expr: seq<Token>) returns (r: int)
    requires InRange(expr, |bools|)
    ensures r == Answer(expr, States(bools))
  {
    hide Step;
    var s := new int[COND_EXPR_MAXDEPTH];
    var sp := -1;
    s[0] := -1;
    ghost var states, st := States(bools), [];
    for i := 0 to |expr|
      invariant Holds(s, sp, st) && States(bools) == states
      invariant InRange(expr[i..], |bools|)
      invariant Run(expr, states, []) == Run(expr[i..], states, st)
    {
      assert expr[i..][0] == expr[i] && expr[i..][1..] == expr[i + 1..];
      var ok;
      ok, sp := Execute(s, sp, expr[i], bools, st);
      if !ok {
        return -1;
      }
      st := Step(expr[i], states, st).value;
    }
    r := s[0];
  }
}
