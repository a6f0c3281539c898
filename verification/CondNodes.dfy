/** Conditional nodes (libsepol/src/conditional.c): cond_normalize_expr tabulates a conditional
  * expression over its booleans, and cond_expr_equal compares the tables.
  */
module CondNodes {
  import opened Arithmetic
  import opened AvTables
  import opened CondExpr

  const COND_MAX_BOOLS := 5

  // Truth tables.

  /** Bit `j` of `k`, which the C code tests with `k & (1 << j)`. */
  predicate Bit(k: nat, j: nat) {
    if j == 0 then k % 2 == 1 else Bit(k / 2, j - 1)
  }

  ghost predicate Distinct(ids: seq<nat>) {
    forall i, j :: 0 <= i < j < |ids| ==> ids[i] != ids[j]
  }

  ghost predicate IdsInRange(ids: seq<nat>, n: nat) {
    forall i :: 0 <= i < |ids| ==> 0 < ids[i] <= n
  }

  /** The states with the first `m` of the booleans set to the bits of `k`. */
  ghost function Assigned(s: seq<bool>, ids: seq<nat>, k: nat, m: nat): (r: seq<bool>)
    requires m <= |ids| && IdsInRange(ids, |s|)
    ensures |r| == |s|
  {
    if m == 0 then s else Assigned(s, ids, k, m - 1)[ids[m - 1] - 1 := Bit(k, m - 1)]
  }

  lemma {:induction false} AssignedAt(s: seq<bool>, ids: seq<nat>, k: nat, m: nat)
    requires m <= |ids| && IdsInRange(ids, |s|) && Distinct(ids)
    ensures forall j :: 0 <= j < m ==> Assigned(s, ids, k, m)[ids[j] - 1] == Bit(k, j)
    ensures forall i :: 0 <= i < |s| && i + 1 !in ids ==> Assigned(s, ids, k, m)[i] == s[i]
  {
    if m > 0 {
      AssignedAt(s, ids, k, m - 1);
    }
  }

  /** The number whose bits are `v`. */
  ghost function Encode(v: seq<bool>): nat {
    if v == [] then 0 else (if v[0] then 1 else 0) + 2 * Encode(v[1..])
  }

  lemma {:induction false} EncodeBits(v: seq<bool>, j: nat)
    requires j < |v|
    ensures Encode(v) < Pow2(|v|) && Bit(Encode(v), j) == v[j]
  {
    EncodeBound(v);
    if j > 0 {
      EncodeBits(v[1..], j - 1);
      assert Encode(v) / 2 == Encode(v[1..]);
    }
  }

  lemma {:induction false} EncodeBound(v: seq<bool>)
    ensures Encode(v) < Pow2(|v|)
  {
    if v != [] {
      EncodeBound(v[1..]);
    }
  }

  // The booleans of an expression.

  ghost function Mentioned(expr: seq<Token>): set<nat> {
    set t <- expr | t.Bool? :: t.boolean
  }

  ghost predicate AgreeOn(expr: seq<Token>, s: seq<bool>, t: seq<bool>) {
    |s| == |t| && forall b <- Mentioned(expr) :: 0 < b <= |s| ==> s[b - 1] == t[b - 1]
  }

  /** An expression depends on the booleans it mentions. */
  lemma AnswerIsLocal(expr: seq<Token>, s: seq<bool>, t: seq<bool>)
    requires InRange(expr, |s|) && AgreeOn(expr, s, t)
    ensures Answer(expr, s) == Answer(expr, t)
  {
    RunIsLocal(expr, s, t, []);
  }

  lemma {:induction false} RunIsLocal(expr: seq<Token>, s: seq<bool>, t: seq<bool>, st: seq<bool>)
    requires InRange(expr, |s|) && AgreeOn(expr, s, t)
    ensures Run(expr, s, st) == Run(expr, t, st)
    decreases |expr|
  {
    if expr != [] {
      assert expr[0] in expr;
      assert expr[0].Bool? ==> expr[0].boolean in Mentioned(expr);
      assert Mentioned(expr[1..]) <= Mentioned(expr);
      match Step(expr[0], s, st)
      case None =>
      case Some(next) => RunIsLocal(expr[1..], s, t, next);
    }
  }

  /** The recorded booleans, and their number, which is only exact while they can be recorded. */
  datatype Recorded = Recorded(ids: seq<nat>, count: nat)

  function Note(r: Recorded, t: Token): Recorded {
    if t.Bool? && !(r.count <= COND_MAX_BOOLS && t.boolean in r.ids)
    then Recorded(if r.count < COND_MAX_BOOLS then r.ids + [t.boolean] else r.ids, r.count + 1)
    else r
  }

  ghost function Scan(expr: seq<Token>): Recorded {
    if expr == [] then Recorded([], 0) else Note(Scan(expr[..|expr| - 1]), expr[|expr| - 1])
  }

  /** Up to COND_MAX_BOOLS, exactly the distinct booleans are recorded; otherwise there are more. */
  lemma {:induction false} ScanIsMentioned(expr: seq<Token>)
    ensures var r := Scan(expr);
            && |r.ids| == (if r.count < COND_MAX_BOOLS then r.count else COND_MAX_BOOLS)
            && Distinct(r.ids) && (forall b <- r.ids :: b in Mentioned(expr))
            && (r.count <= COND_MAX_BOOLS <==> |Mentioned(expr)| <= COND_MAX_BOOLS)
            && (r.count <= COND_MAX_BOOLS ==> forall b <- Mentioned(expr) :: b in r.ids)
  {
    if expr != [] {
      var front, t := expr[..|expr| - 1], expr[|expr| - 1];
      ScanIsMentioned(front);
      MentionedEnd(front, t);
      assert expr == front + [t];
      SizeOfIds(Scan(front).ids, Mentioned(front));
      SizeOfIds(Scan(expr).ids, Mentioned(expr));
    }
  }

  lemma MentionedEnd(expr: seq<Token>, t: Token)
    ensures Mentioned(expr + [t]) == Mentioned(expr) + if t.Bool? then {t.boolean} else {}
  {
    assert t in expr + [t];
  }

  lemma {:induction false} SizeOfIds(ids: seq<nat>, s: set<nat>)
    requires Distinct(ids) && forall b <- ids :: b in s
    ensures |ids| <= |s|
    ensures (forall b <- s :: b in ids) <==> |ids| == |s|
  {
    if ids == [] {
      if forall b <- s :: b in ids { assert s == {}; }
    } else {
      var last := ids[|ids| - 1];
      SizeOfIds(ids[..|ids| - 1], s - {last});
      assert ids == ids[..|ids| - 1] + [last];
      assert forall b :: b in ids <==> b == last || b in ids[..|ids| - 1];
    }
  }

  // Normal forms and their comparison.

  /** The fields of a node that stand for its expression. */
  datatype Form = Form(expr: seq<Token>, count: nat, ids: seq<nat>, table: Word) {
    predicate Small() {
      count <= COND_MAX_BOOLS
    }
  }

  /** The value under assignment `k` of the recorded booleans. */
  ghost function AnswerAt(f: Form, s: seq<bool>, k: nat): int
    requires InRange(f.expr, |s|) && IdsInRange(f.ids, |s|) && f.count == |f.ids|
  {
    Answer(f.expr, Assigned(s, f.ids, k, f.count))
  }

  /** Bit `k` of the table is the value under assignment `k`. */
  ghost predicate Tabulated(f: Form, s: seq<bool>)
    requires InRange(f.expr, |s|) && IdsInRange(f.ids, |s|) && f.count == |f.ids|
  {
    forall k: nat :: k < Pow2(f.count) ==>
      AnswerAt(f, s, k) == if k in f.table then 1 else 0
  }

  lemma {:induction false} IdsAreInRange(expr: seq<Token>, n: nat)
    requires InRange(expr, n)
    ensures IdsInRange(Scan(expr).ids, n)
  {
    ScanIsMentioned(expr);
    var ids := Scan(expr).ids;
    forall i | 0 <= i < |ids| ensures 0 < ids[i] <= n {
      assert ids[i] in Mentioned(expr);
    }
  }

  /** What cond_normalize_expr leaves in a node, for expressions over `n` booleans. */
  ghost predicate Normal(f: Form, n: nat) {
    && InRange(f.expr, n) && f.ids == Scan(f.expr).ids && f.count == Scan(f.expr).count
    && IdsInRange(f.ids, n)
    && (f.Small() ==>
          && |f.ids| == f.count
          && (forall k <- f.table :: 0 <= k < Pow2(f.count))
          && forall s: seq<bool> :: |s| == n ==> Tabulated(f, s))
  }

  /** cond_expr_equal. */
  predicate Equal(a: Form, b: Form) {
    && a.count == b.count
    && if a.Small() then (forall x <- a.ids :: x in b.ids) && a.table == b.table else a.expr == b.expr
  }

  ghost predicate Equivalent(e: seq<Token>, f: seq<Token>, n: nat)
    requires InRange(e, n) && InRange(f, n)
  {
    forall s: seq<bool> :: |s| == n ==> Answer(e, s) == Answer(f, s)
  }

  /** The assignment number under which nothing changes. */
  ghost function Current(s: seq<bool>, ids: seq<nat>): nat
    requires IdsInRange(ids, |s|)
  {
    Encode(seq(|ids|, j requires 0 <= j < |ids| => s[ids[j] - 1]))
  }

  lemma CurrentChangesNothing(s: seq<bool>, ids: seq<nat>)
    requires IdsInRange(ids, |s|) && Distinct(ids)
    ensures Current(s, ids) < Pow2(|ids|) && Assigned(s, ids, Current(s, ids), |ids|) == s
  {
    var v := seq(|ids|, j requires 0 <= j < |ids| => s[ids[j] - 1]);
    EncodeBound(v);
    AssignedAt(s, ids, Encode(v), |ids|);
    var r := Assigned(s, ids, Encode(v), |ids|);
    forall i | 0 <= i < |s| ensures r[i] == s[i] {
      if i + 1 in ids {
        var j :| 0 <= j < |ids| && ids[j] == i + 1;
        EncodeBits(v, j);
      }
    }
  }

  lemma NormalAnswer(f: Form, s: seq<bool>)
    requires Normal(f, |s|) && f.Small()
    ensures Current(s, f.ids) < Pow2(f.count)
    ensures Answer(f.expr, s) == if Current(s, f.ids) in f.table then 1 else 0
  {
    ScanIsMentioned(f.expr);
    CurrentChangesNothing(s, f.ids);
    assert Tabulated(f, s);
  }

  /** In which way two small forms are compared: as if the booleans at the same positions were
    * the same. */
  lemma EqualUpToPositions(a: Form, b: Form, s: seq<bool>)
    requires Normal(a, |s|) && Normal(b, |s|) && a.Small() && a.count == b.count
    ensures a.table == b.table <==>
            forall k: nat :: k < Pow2(a.count) ==> AnswerAt(a, s, k) == AnswerAt(b, s, k)
  {
    hide AnswerAt, Pow2;
    assert Tabulated(a, s) && Tabulated(b, s);
    if forall k: nat :: k < Pow2(a.count) ==> AnswerAt(a, s, k) == AnswerAt(b, s, k) {
      forall k: int ensures k in a.table <==> k in b.table {
        if 0 <= k < Pow2(a.count) {
          assert AnswerAt(a, s, k) == AnswerAt(b, s, k);
        }
      }
    }
  }

  /** For forms with the same recorded booleans in the same order, equality is equivalence. */
  lemma AlignedIsExact(a: Form, b: Form, n: nat)
    requires Normal(a, n) && Normal(b, n) && a.Small() && b.Small() && a.ids == b.ids
    ensures Equal(a, b) <==> Equivalent(a.expr, b.expr, n)
  {
    hide Answer;
    if Equal(a, b) {
      forall s: seq<bool> | |s| == n ensures Answer(a.expr, s) == Answer(b.expr, s) {
        NormalAnswer(a, s);
        NormalAnswer(b, s);
      }
    }
    if Equivalent(a.expr, b.expr, n) {
      EqualUpToPositions(a, b, seq(n, _ => false));
    }
  }

  /** With too many booleans only the same expression is equal, so equal ones are equivalent. */
  lemma LargeIsSound(a: Form, b: Form, n: nat)
    requires Normal(a, n) && Normal(b, n) && !a.Small()
    ensures Equal(a, b) <==> a.expr == b.expr
    ensures Equal(a, b) ==> Equivalent(a.expr, b.expr, n)
  {
  }

  // Expressions that show why the order of the recorded booleans matters.

  /** A false expression that mentions `ids` in order. */
  ghost function Chain(ids: seq<nat>): Tree
    requires |ids| > 0
  {
    var last := Leaf(ids[|ids| - 1]);
    if |ids| == 1 then Binary(Xor, last, last)
    else Binary(Or, Chain(ids[..|ids| - 1]), Binary(Xor, last, last))
  }

  /** An expression with the value of `x` that mentions `ids` in order. */
  ghost function Pick(ids: seq<nat>, x: nat): Tree
    requires |ids| > 0
  {
    Binary(Or, Chain(ids), Leaf(x))
  }

  lemma PairIsFalse(b: nat, s: seq<bool>)
    requires 0 < b <= |s|
    ensures var t := Binary(Xor, Leaf(b), Leaf(b)); t.Valid(|s|) && !t.Value(s) && t.Depth() == 2
  {
  }

  lemma PairPostfix(b: nat)
    ensures Binary(Xor, Leaf(b), Leaf(b)).Postfix() == [Bool(b), Bool(b), Xor]
  {
  }

  lemma {:induction false} ChainIsFalse(ids: seq<nat>, s: seq<bool>)
    requires |ids| > 0 && IdsInRange(ids, |s|)
    ensures Chain(ids).Valid(|s|) && !Chain(ids).Value(s) && 2 <= Chain(ids).Depth() <= 3
  {
    PairIsFalse(ids[|ids| - 1], s);
    if |ids| > 1 {
      ChainIsFalse(ids[..|ids| - 1], s);
    }
  }

  lemma ScanEnd(expr: seq<Token>, t: Token)
    ensures Scan(expr + [t]) == Note(Scan(expr), t)
  {
    assert (expr + [t])[..|expr|] == expr;
  }

  lemma ScanPair(expr: seq<Token>, b: nat)
    requires b !in Scan(expr).ids && Scan(expr).count < COND_MAX_BOOLS
    ensures Scan(expr + [Bool(b), Bool(b), Xor]) == Recorded(Scan(expr).ids + [b], Scan(expr).count + 1)
  {
    hide Scan;
    var t := Bool(b);
    assert expr + [t, t, Xor] == expr + [t] + [t] + [Xor];
    ScanEnd(expr, t);
    ScanEnd(expr + [t], t);
    ScanEnd(expr + [t] + [t], Xor);
  }

  lemma {:induction false} ScanChain(ids: seq<nat>)
    requires 0 < |ids| <= COND_MAX_BOOLS && Distinct(ids)
    ensures Scan(Chain(ids).Postfix()) == Recorded(ids, |ids|)
  {
    hide Scan, Note, Tree.Postfix, Chain;
    var front, b := ids[..|ids| - 1], ids[|ids| - 1];
    assert front + [b] == ids && b !in front;
    ChainStep(ids);
    PairPostfix(b);
    if |ids| == 1 {
      var none: seq<Token> := [];
      ScanNothing();
      ScanPair(none, b);
      assert none + [Bool(b), Bool(b), Xor] == [Bool(b), Bool(b), Xor];
    } else {
      var e := Chain(front).Postfix();
      ScanChain(front);
      ScanPair(e, b);
      ScanOperator(e + [Bool(b), Bool(b), Xor], Or);
      OrPostfix(Chain(front), Binary(Xor, Leaf(b), Leaf(b)));
    }
  }

  lemma ChainStep(ids: seq<nat>)
    requires |ids| > 0
    ensures var last := Leaf(ids[|ids| - 1]);
            Chain(ids) == if |ids| == 1 then Binary(Xor, last, last)
                          else Binary(Or, Chain(ids[..|ids| - 1]), Binary(Xor, last, last))
  {
  }

  lemma ScanNothing()
    ensures Scan([]) == Recorded([], 0)
  {
  }

  lemma ScanOperator(expr: seq<Token>, op: Token)
    requires !op.Bool?
    ensures Scan(expr + [op]) == Scan(expr)
  {
    ScanEnd(expr, op);
  }

  lemma OrPostfix(l: Tree, r: Tree)
    ensures Binary(Or, l, r).Postfix() == l.Postfix() + r.Postfix() + [Or]
  {
  }

  lemma PickIsTheBoolean(ids: seq<nat>, x: nat, s: seq<bool>)
    requires 0 < |ids| <= COND_MAX_BOOLS && Distinct(ids) && IdsInRange(ids, |s|) && x in ids
    ensures InRange(Pick(ids, x).Postfix(), |s|)
    ensures Scan(Pick(ids, x).Postfix()) == Recorded(ids, |ids|)
    ensures Answer(Pick(ids, x).Postfix(), s) == Int(s[x - 1])
  {
    ChainIsFalse(ids, s);
    ScanChain(ids);
    TreeAnswer(Pick(ids, x), s);
    var e := Chain(ids).Postfix();
    ScanEnd(e, Bool(x));
    ScanEnd(e + [Bool(x)], Or);
    assert Pick(ids, x).Postfix() == e + [Bool(x)] + [Or];
  }

  /** The normal form of that expression. */
  ghost function PickForm(ids: seq<nat>, p: nat): Form
    requires p < |ids|
  {
    Form(Pick(ids, ids[p]).Postfix(), |ids|, ids, set k | 0 <= k < Pow2(|ids|) && Bit(k, p))
  }

  lemma PickIsNormal(ids: seq<nat>, p: nat, n: nat)
    requires p < |ids| <= COND_MAX_BOOLS && Distinct(ids) && IdsInRange(ids, n)
    ensures Normal(PickForm(ids, p), n)
  {
    hide Answer;
    var f := PickForm(ids, p);
    PickIsTheBoolean(ids, ids[p], seq(n, _ => false));
    forall s: seq<bool>, k: nat | |s| == n && k < Pow2(f.count)
      ensures AnswerAt(f, s, k) == if k in f.table then 1 else 0
    {
      PickIsTheBoolean(ids, ids[p], Assigned(s, ids, k, |ids|));
      AssignedAt(s, ids, k, |ids|);
    }
    forall s: seq<bool> | |s| == n ensures Tabulated(f, s) {
    }
  }

  /** Two equivalent expressions over the same booleans that compare as different, because the
    * booleans appear in another order. */
  lemma Misaligned(a: seq<nat>, b: seq<nat>, p: nat, q: nat, n: nat)
    requires p < |a| && q < |b| && |a| == |b| <= COND_MAX_BOOLS && a[p] == b[q] && p != q
    requires Distinct(a) && Distinct(b) && IdsInRange(a, n) && IdsInRange(b, n)
    ensures Normal(PickForm(a, p), n) && Normal(PickForm(b, q), n)
    ensures !Equal(PickForm(a, p), PickForm(b, q)) && Equivalent(PickForm(a, p).expr, PickForm(b, q).expr, n)
  {
    hide Answer, Tabulated, Scan, Pick;
    PickIsNormal(a, p, n);
    PickIsNormal(b, q, n);
    forall s: seq<bool> | |s| == n
      ensures Answer(PickForm(a, p).expr, s) == Answer(PickForm(b, q).expr, s)
    {
      PickIsTheBoolean(a, a[p], s);
      PickIsTheBoolean(b, b[q], s);
    }
    PickTables(a, b, p, q);
  }

  lemma PickTables(a: seq<nat>, b: seq<nat>, p: nat, q: nat)
    requires p < |a| && q < |b| && |a| == |b| && p != q
    ensures PickForm(a, p).table != PickForm(b, q).table
  {
    var v := seq(|a|, j => j == p);
    EncodeBits(v, p);
    EncodeBits(v, q);
    assert Encode(v) in PickForm(a, p).table && Encode(v) !in PickForm(b, q).table;
  }

  /** cond_expr_equal decides equivalence for all expressions that record `a` and `b`. */
  ghost predicate Exact(a: seq<nat>, b: seq<nat>, n: nat) {
    forall f, g :: Normal(f, n) && Normal(g, n) && f.ids == a && g.ids == b && f.Small() && g.Small() ==>
      (Equal(f, g) <==> Equivalent(f.expr, g.expr, n))
  }

  lemma ChainIsNormal(ids: seq<nat>, n: nat)
    requires 0 < |ids| <= COND_MAX_BOOLS && Distinct(ids) && IdsInRange(ids, n)
    ensures Normal(Form(Chain(ids).Postfix(), |ids|, ids, {}), n)
    ensures forall s: seq<bool> :: |s| == n ==> Answer(Chain(ids).Postfix(), s) == 0
  {
    hide Answer, Scan, Chain, Tree.Postfix;
    ScanChain(ids);
    forall s: seq<bool> | |s| == n ensures InRange(Chain(ids).Postfix(), n) && Answer(Chain(ids).Postfix(), s) == 0 {
      ChainIsFalse(ids, s);
      TreeAnswer(Chain(ids), s);
    }
    var some: seq<bool> := seq(n, _ => false);
    assert |some| == n;
  }

  /** Two constant expressions that compare as different, because they do not record the same
    * booleans. */
  lemma Unrelated(a: seq<nat>, b: seq<nat>, n: nat)
    requires 0 < |a| <= COND_MAX_BOOLS && Distinct(a) && IdsInRange(a, n)
    requires 0 < |b| <= COND_MAX_BOOLS && Distinct(b) && IdsInRange(b, n)
    requires |a| != |b| || exists x <- a :: x !in b
    ensures !Exact(a, b, n)
  {
    hide Answer, Normal, Chain;
    ChainIsNormal(a, n);
    ChainIsNormal(b, n);
    var f, g := Form(Chain(a).Postfix(), |a|, a, {}), Form(Chain(b).Postfix(), |b|, b, {});
    NormalInRange(f, n);
    NormalInRange(g, n);
    assert f.ids == a && g.ids == b && f.Small() && g.Small() && !Equal(f, g) && Equivalent(f.expr, g.expr, n);
  }

  lemma NormalInRange(f: Form, n: nat)
    requires Normal(f, n)
    ensures InRange(f.expr, n)
  {
  }

  /** An expression without booleans has no value, so it has no small normal form. */
  lemma NoBooleans(expr: seq<Token>, s: seq<bool>)
    requires InRange(expr, |s|)
    ensures (forall t <- expr :: !t.Bool?) ==> Answer(expr, s) == -1
  {
    if expr != [] {
      assert expr[0] in expr;
    }
  }

  lemma SmallHasBooleans(f: Form, n: nat)
    requires Normal(f, n) && f.Small()
    ensures f.ids != []
  {
    hide Answer, Run, Tabulated, Scan;
    var s: seq<bool> := seq(n, _ => false);
    ScanIsMentioned(f.expr);
    assert forall t <- f.expr :: t.Bool? ==> t.boolean in Mentioned(f.expr);
    NormalAnswer(f, s);
    NoBooleans(f.expr, s);
  }

  /** It does so for two records only if they are the same, in the same order; an empty record no
    * normal form has. */
  lemma ExactWhenAligned(a: seq<nat>, b: seq<nat>, n: nat)
    requires |a| <= COND_MAX_BOOLS && Distinct(a) && IdsInRange(a, n)
    requires |b| <= COND_MAX_BOOLS && Distinct(b) && IdsInRange(b, n)
    ensures Exact(a, b, n) <==> a == b || a == [] || b == []
  {
    hide Tabulated, Scan, Equal, Equivalent, Normal;
    if a == [] || b == [] {
      forall f | Normal(f, n) && f.Small() ensures f.ids != [] {
        SmallHasBooleans(f, n);
      }
    } else if a == b {
      forall f | Normal(f, n) ensures InRange(f.expr, n) {
        NormalInRange(f, n);
      }
      forall f, g | Normal(f, n) && Normal(g, n) && f.ids == a && g.ids == b && f.Small() && g.Small()
        ensures Equal(f, g) <==> Equivalent(f.expr, g.expr, n)
      {
        AlignedIsExact(f, g, n);
      }
    } else if |a| != |b| || exists x <- a :: x !in b {
      Unrelated(a, b, n);
    } else {
      var p: nat :| p < |a| && a[p] != b[p];
      assert a[p] in a;
      var q: nat :| q < |b| && b[q] == a[p];
      Misaligned(a, b, p, q, n);
      SameRecord(a, b, p, q, n);
    }
  }

  lemma SameRecord(a: seq<nat>, b: seq<nat>, p: nat, q: nat, n: nat)
    requires p < |a| <= COND_MAX_BOOLS && q < |b| <= COND_MAX_BOOLS
    requires Normal(PickForm(a, p), n) && Normal(PickForm(b, q), n)
    requires !Equal(PickForm(a, p), PickForm(b, q)) && Equivalent(PickForm(a, p).expr, PickForm(b, q).expr, n)
    ensures !Exact(a, b, n)
  {
    hide Normal, Equal, Equivalent;
    assert PickForm(a, p).ids == a && PickForm(b, q).ids == b;
    assert PickForm(a, p).Small() && PickForm(b, q).Small();
  }

  /** And expressions that are not equivalent may compare as equal: `x && !y` and `y && !x`. */
  lemma SwappedCompareEqual()
    ensures var a := Form([Bool(1), Bool(2), Not, And], 2, [1, 2], {1});
            var b := Form([Bool(2), Bool(1), Not, And], 2, [2, 1], {1});
            Normal(a, 2) && Normal(b, 2) && Equal(a, b) && !Equivalent(a.expr, b.expr, 2)
  {
    hide Answer, Tabulated, Scan, Run;
    AndNot(1, 2);
    AndNot(2, 1);
    var s := [true, false];
    AndNotAnswer(1, 2, s);
    AndNotAnswer(2, 1, s);
    assert Answer([Bool(1), Bool(2), Not, And], s) != Answer([Bool(2), Bool(1), Not, And], s);
  }

  lemma AndNot(x: nat, y: nat)
    requires (x == 1 && y == 2) || (x == 2 && y == 1)
    ensures Normal(Form([Bool(x), Bool(y), Not, And], 2, [x, y], {1}), 2)
  {
    hide Answer, Scan;
    var f := Form([Bool(x), Bool(y), Not, And], 2, [x, y], {1});
    AndNotScan(x, y);
    assert Pow2(2) == 4;
    forall s: seq<bool>, k: nat | |s| == 2 && k < 4 ensures AnswerAt(f, s, k) == if k in f.table then 1 else 0 {
      AndNotAnswer(x, y, Assigned(s, [x, y], k, 2));
      AssignedAt(s, [x, y], k, 2);
      assert [x, y][0] == x && [x, y][1] == y;
      assert Bit(k, 0) == (k % 2 == 1) && Bit(k, 1) == (k / 2 % 2 == 1);
    }
    forall s: seq<bool> | |s| == 2 ensures Tabulated(f, s) {
    }
  }

  lemma AndNotAnswer(x: nat, y: nat, s: seq<bool>)
    requires 0 < x <= |s| && 0 < y <= |s|
    ensures InRange([Bool(x), Bool(y), Not, And], |s|)
    ensures Answer([Bool(x), Bool(y), Not, And], s) == Int(s[x - 1] && !s[y - 1])
  {
    var l, r := Leaf(x), Negation(Leaf(y));
    var t := Binary(And, l, r);
    assert l.Postfix() == [Bool(x)] && r.Postfix() == [Bool(y), Not];
    assert t.Postfix() == [Bool(x), Bool(y), Not, And];
    TreeAnswer(t, s);
    assert l.Depth() == 1 && Leaf(y).Depth() == 1;
    assert r.Depth() == 1;
    assert t.Depth() == 2;
    assert l.Value(s) == s[x - 1] && Leaf(y).Value(s) == s[y - 1];
    assert r.Value(s) == !s[y - 1];
  }

  lemma AndNotScan(x: nat, y: nat)
    requires x != y
    ensures Scan([Bool(x), Bool(y), Not, And]) == Recorded([x, y], 2)
  {
    hide Scan;
    var none: seq<Token> := [];
    assert [Bool(x), Bool(y), Not, And] == none + [Bool(x)] + [Bool(y)] + [Not] + [And];
    ScanNothing();
    assert Note(Recorded([], 0), Bool(x)) == Recorded([x], 1);
    assert Note(Recorded([x], 1), Bool(y)) == Recorded([x, y], 2);
    ScanEnd(none, Bool(x));
    ScanEnd(none + [Bool(x)], Bool(y));
    ScanOperator(none + [Bool(x)] + [Bool(y)], Not);
    ScanOperator(none + [Bool(x)] + [Bool(y)] + [Not], And);
  }
}
