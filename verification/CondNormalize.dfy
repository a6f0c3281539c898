/** cond_normalize_expr and cond_expr_equal on the nodes themselves (libsepol/src/conditional.c). */
module CondNormalize {
  import opened Arithmetic
  import opened AvTables
  import opened CondExpr
  import opened CondNodes

  /** cond_node: the lists hold the rules of the branches, as nodes of the conditional table and,
    * in a module, as rule numbers. */
  class CondNode {
    var curState: int
    var expr: seq<Token>
    var trueList: seq<AvNode>
    var falseList: seq<AvNode>
    var avtrueList: seq<nat>
    var avfalseList: seq<nat>
    var nbools: nat
    const boolIds: array<nat>
    var exprPreComp: Word

    constructor (expr: seq<Token>, trueList: seq<AvNode>, falseList: seq<AvNode>, curState: int)
      ensures this.expr == expr && this.trueList == trueList && this.falseList == falseList
      ensures this.curState == curState && boolIds.Length == COND_MAX_BOOLS && fresh(boolIds)
    {
      this.expr, this.trueList, this.falseList, this.curState := expr, trueList, falseList, curState;
      avtrueList, avfalseList := [], [];
      boolIds := new nat[COND_MAX_BOOLS](_ => 0);
      nbools, exprPreComp := 0, {};
    }

    ghost function Ids(): seq<nat>
      requires boolIds.Length == COND_MAX_BOOLS
      reads this, boolIds
    {
      boolIds[..if nbools < COND_MAX_BOOLS then nbools else COND_MAX_BOOLS]
    }

    ghost function AsForm(): Form
      requires boolIds.Length == COND_MAX_BOOLS
      reads this, boolIds
    {
      Form(expr, nbools, Ids(), exprPreComp)
    }
  }

  /** bool_present. */
  method BoolPresent(target: nat, bools: array<nat>, numBools: nat) returns (r: bool)
    requires bools.Length == COND_MAX_BOOLS
    ensures r <==> numBools <= COND_MAX_BOOLS && target in bools[..numBools]
  {
    if numBools > COND_MAX_BOOLS {
      return false;
    }
    var i := 0;
    while i < numBools && target != bools[i]
      invariant i <= numBools && target !in bools[..i]
    {
      i := i + 1;
    }
    r := i != numBools;
  }

  /** same_bools. */
  method SameBools(a: CondNode, b: CondNode) returns (r: bool)
    requires a.boolIds.Length == b.boolIds.Length == COND_MAX_BOOLS && a.nbools <= COND_MAX_BOOLS
    ensures r <==> a.nbools == b.nbools && forall x <- a.Ids() :: x in b.Ids()
  {
    var x := a.nbools;
    if x != b.nbools {
      return false;
    }
    for i := 0 to x
      invariant forall y <- a.boolIds[..i] :: y in b.Ids()
    {
      var present := BoolPresent(a.boolIds[i], b.boolIds, x);
      if !present {
        assert a.boolIds[i] in a.Ids();
        return false;
      }
    }
    r := true;
  }

  /** cond_expr_equal. */
  method CondExprEqual(a: CondNode, b: CondNode) returns (r: bool)
    requires a.boolIds.Length == b.boolIds.Length == COND_MAX_BOOLS
    ensures r == Equal(a.AsForm(), b.AsForm())
  {
    if a.nbools != b.nbools {
      return false;
    }
    if a.nbools <= COND_MAX_BOOLS && b.nbools <= COND_MAX_BOOLS {
      var same := SameBools(a, b);
      if !same {
        return false;
      }
      return a.exprPreComp == b.exprPreComp;
    }
    var i := 0;
    while true
      invariant i <= |a.expr| && i <= |b.expr| && a.expr[..i] == b.expr[..i]
      decreases |a.expr| - i
    {
      if i == |a.expr| && i == |b.expr| {
        return true;
      } else if i == |a.expr| || i == |b.expr| {
        return false;
      }
      if a.expr[i] != b.expr[i] {
        return false;
      }
      i := i + 1;
    }
  }

  // A final negation.

  /** The rules that a node with these lists enables: none when the expression is undefined. */
  ghost function Branch<T>(expr: seq<Token>, s: seq<bool>, t: seq<T>, f: seq<T>): seq<T>
    requires InRange(expr, |s|)
  {
    if Answer(expr, s) > 0 then t else if Answer(expr, s) == 0 then f else []
  }

  lemma StrippedNegation(e: seq<Token>, s: seq<bool>)
    requires InRange(e, |s|) && e != []
    ensures InRange(e + [Not], |s|)
    ensures Answer(e, s) == -1 ==> Answer(e + [Not], s) == -1
    ensures Answer(e, s) != -1 ==>
              && Parse(e, []).Some? && |Parse(e, []).value| > 0
              && Answer(e + [Not], s) == if |Parse(e, []).value| == 1 then 1 - Answer(e, s) else Answer(e, s)
  {
    RunConcat(e, [Not], s, []);
    AnswerIsValue(e, s);
    if Run(e, s, []).Some? {
      var st := Run(e, s, []).value;
      RunOne(Not, s, st);
      RunHeight(e, s, [], []);
      assert |st| == 0 || |st| == 1 || (st[..|st| - 1] + [!st[|st| - 1]])[0] == st[0];
    }
  }

  /** The machine leaves as many values as there are trees. */
  lemma {:induction false} RunHeight(expr: seq<Token>, s: seq<bool>, st: seq<bool>, ts: seq<Tree>)
    requires InRange(expr, |s|) && |st| == |ts| && Run(expr, s, st).Some?
    ensures Parse(expr, ts).Some? && |Parse(expr, ts).value| == |Run(expr, s, st).value|
    decreases |expr|
  {
    if expr != [] {
      assert expr[0] in expr;
      RunHeight(expr[1..], s, Step(expr[0], s, st).value, Read(expr[0], ts).value);
    }
  }

  /** The tokens form at most one expression, as the policy grammar has it. */
  ghost predicate OneTree(expr: seq<Token>) {
    Parse(expr, []).Some? ==> |Parse(expr, []).value| <= 1
  }

  lemma {:induction false} ParseConcat(a: seq<Token>, b: seq<Token>, ts: seq<Tree>)
    ensures Parse(a + b, ts) == (match Parse(a, ts) case None => None case Some(us) => Parse(b, us))
    decreases |a|
  {
    if a == [] {
      assert a + b == b;
    } else {
      assert (a + b)[1..] == a[1..] + b;
      match Read(a[0], ts)
      case None =>
      case Some(us) => ParseConcat(a[1..], b, us);
    }
  }

  lemma OneTreeWithoutNot(e: seq<Token>)
    ensures OneTree(e + [Not]) ==> OneTree(e)
  {
    ParseConcat(e, [Not], []);
    assert [Not][1..] == [];
    if Parse(e, []).Some? && |Parse(e, []).value| > 1 {
      var ts := Parse(e, []).value;
      assert Parse([Not], ts) == Parse([], Read(Not, ts).value);
    }
  }

  /** Dropping a final negation and swapping the lists selects the same list, for a single
    * expression; with several values on the stack it selects the other one. */
  lemma SwapSelectsTheSame<T>(e: seq<Token>, s: seq<bool>, t: seq<T>, f: seq<T>)
    requires InRange(e, |s|) && e != []
    ensures InRange(e + [Not], |s|)
    ensures Branch(e, s, f, t) == Branch(e + [Not], s, t, f) <==> Answer(e, s) == -1 || OneTree(e) || t == f
  {
    hide Parse, Answer;
    StrippedNegation(e, s);
    AnswerRange(e, s);
    AnswerIsValue(e, s);
  }

  lemma AnswerRange(e: seq<Token>, s: seq<bool>)
    requires InRange(e, |s|)
    ensures -1 <= Answer(e, s) <= 1
  {
  }

  // The truth table.

  /** bool_val_to_struct: one datum for each boolean. */
  ghost predicate Separate(bools: seq<BoolDatum>) {
    forall i, j :: 0 <= i < j < |bools| ==> bools[i] != bools[j]
  }

  method SetState(bools: seq<BoolDatum>, b: nat, v: bool)
    requires Separate(bools) && 0 < b <= |bools|
    modifies bools[b - 1]
    ensures States(bools) == old(States(bools))[b - 1 := v]
  {
    bools[b - 1].state := v;
  }

  ghost predicate SameOutside(s: seq<bool>, t: seq<bool>, ids: seq<nat>) {
    |s| == |t| && forall i :: 0 <= i < |s| && i + 1 !in ids ==> s[i] == t[i]
  }

  /** The recorded booleans of a node, in its array. */
  ghost predicate HasIds(boolIds: array<nat>, n: nat, size: nat)
    reads boolIds
  {
    n <= COND_MAX_BOOLS == boolIds.Length && Distinct(boolIds[..n]) && IdsInRange(boolIds[..n], size)
  }

  /** "temporarily set the value for all the bools" to the bits of `test`. */
  method SetBools(bools: seq<BoolDatum>, ids: array<nat>, n: nat, test: nat, ghost s0: seq<bool>)
    requires Separate(bools) && HasIds(ids, n, |bools|) && SameOutside(States(bools), s0, ids[..n])
    modifies set b <- bools
    ensures States(bools) == Assigned(s0, ids[..n], test, n)
  {
    hide States;
    ghost var s := States(bools);
    for j := 0 to n
      invariant States(bools) == Assigned(s, ids[..n], test, j)
    {
      SetState(bools, ids[j], Bit(test, j));
    }
    AssignedOver(s, s0, ids[..n], test);
  }

  lemma AssignedOver(s: seq<bool>, t: seq<bool>, ids: seq<nat>, k: nat)
    requires SameOutside(s, t, ids) && IdsInRange(ids, |s|) && Distinct(ids)
    ensures Assigned(s, ids, k, |ids|) == Assigned(t, ids, k, |ids|)
    ensures SameOutside(Assigned(t, ids, k, |ids|), t, ids)
  {
    AssignedAt(s, ids, k, |ids|);
    AssignedAt(t, ids, k, |ids|);
    var x, y := Assigned(s, ids, k, |ids|), Assigned(t, ids, k, |ids|);
    forall i | 0 <= i < |s| ensures x[i] == y[i] {
      if i + 1 in ids {
        var j :| 0 <= j < |ids| && ids[j] == i + 1;
        assert x[ids[j] - 1] == y[ids[j] - 1];
      }
    }
  }

  /** `s` with the first `m` of the booleans as they are in `t`. */
  ghost function Restored(s: seq<bool>, t: seq<bool>, ids: seq<nat>, m: nat): (r: seq<bool>)
    requires m <= |ids| && IdsInRange(ids, |s|) && |s| == |t|
    ensures |r| == |s|
  {
    if m == 0 then s else Restored(s, t, ids, m - 1)[ids[m - 1] - 1 := t[ids[m - 1] - 1]]
  }

  lemma {:induction false} RestoredAt(s: seq<bool>, t: seq<bool>, ids: seq<nat>, m: nat, i: nat)
    requires m <= |ids| && IdsInRange(ids, |s|) && |s| == |t| && i < |s|
    ensures Restored(s, t, ids, m)[i] == if i + 1 in ids[..m] then t[i] else s[i]
  {
    if m > 0 {
      RestoredAt(s, t, ids, m - 1, i);
      assert ids[..m] == ids[..m - 1] + [ids[m - 1]];
    }
  }

  lemma RestoredAll(s: seq<bool>, t: seq<bool>, ids: seq<nat>)
    requires SameOutside(s, t, ids) && IdsInRange(ids, |s|)
    ensures |s| == |t| && Restored(s, t, ids, |ids|) == t
  {
    hide Restored;
    forall i | 0 <= i < |s| ensures Restored(s, t, ids, |ids|)[i] == t[i] {
      RestoredAt(s, t, ids, |ids|, i);
      assert ids[..|ids|] == ids;
    }
  }

  /** "save the default values for the bools". */
  method SaveBools(bools: seq<BoolDatum>, ids: array<nat>, n: nat) returns (orig: array<bool>)
    requires HasIds(ids, n, |bools|)
    ensures fresh(orig) && orig.Length == COND_MAX_BOOLS
    ensures forall i :: 0 <= i < n ==> orig[i] == States(bools)[ids[i] - 1]
  {
    orig := new bool[COND_MAX_BOOLS];
    for i := 0 to n
      invariant forall j :: 0 <= j < i ==> orig[j] == States(bools)[ids[j] - 1]
    {
      orig[i] := bools[ids[i] - 1].state;
    }
  }

  /** "restore bool default values". */
  method RestoreBools(bools: seq<BoolDatum>, ids: array<nat>, n: nat, orig: array<bool>, ghost s0: seq<bool>)
    requires Separate(bools) && HasIds(ids, n, |bools|) && SameOutside(States(bools), s0, ids[..n])
    requires n <= orig.Length && forall i :: 0 <= i < n ==> orig[i] == s0[ids[i] - 1]
    modifies set b <- bools
    ensures States(bools) == s0
  {
    hide States, Restored, SameOutside;
    ghost var s, all := States(bools), ids[..n];
    RestoredNone(s, s0, all);
    for i := 0 to n
      invariant States(bools) == Restored(s, s0, all, i)
    {
      RestoredNext(s, s0, all, i);
      assert ids[i] == all[i];
      SetState(bools, ids[i], orig[i]);
    }
    RestoredAll(s, s0, all);
  }

  lemma RestoredNone(s: seq<bool>, t: seq<bool>, ids: seq<nat>)
    requires SameOutside(s, t, ids) && IdsInRange(ids, |s|)
    ensures |s| == |t| && Restored(s, t, ids, 0) == s
  {
  }

  lemma RestoredNext(s: seq<bool>, t: seq<bool>, ids: seq<nat>, m: nat)
    requires m < |ids| && IdsInRange(ids, |s|) && |s| == |t|
    ensures Restored(s, t, ids, m + 1) == Restored(s, t, ids, m)[ids[m] - 1 := t[ids[m] - 1]]
  {
  }

  lemma DefinedEverywhere(expr: seq<Token>, s: seq<bool>, t: seq<bool>)
    requires InRange(expr, |s|) && |s| == |t|
    ensures Answer(expr, s) == -1 <==> Answer(expr, t) == -1
  {
    AnswerIsValue(expr, s);
    AnswerIsValue(expr, t);
  }

  /** The table is right up to assignment `test`. */
  ghost predicate FilledTo(f: Form, s: seq<bool>, test: nat)
    requires InRange(f.expr, |s|) && IdsInRange(f.ids, |s|) && f.count == |f.ids|
  {
    && (forall k <- f.table :: 0 <= k < test)
    && forall k: nat :: k < test ==> AnswerAt(f, s, k) == if k in f.table then 1 else 0
  }

  lemma FilledFurther(f: Form, s: seq<bool>, test: nat)
    requires InRange(f.expr, |s|) && IdsInRange(f.ids, |s|) && f.count == |f.ids|
    requires FilledTo(f, s, test) && AnswerAt(f, s, test) != -1
    ensures FilledTo(if AnswerAt(f, s, test) == 1 then f.(table := f.table + {test}) else f, s, test + 1)
  {
    hide Assigned, Answer;
    var g := f.(table := f.table + {test});
    forall k: nat ensures AnswerAt(g, s, k) == AnswerAt(f, s, k) {
    }
    AnswerRange(f.expr, Assigned(s, f.ids, test, f.count));
  }

  /** The table is right for every state of the other booleans. */
  lemma TabulatedAnywhere(f: Form, s: seq<bool>, t: seq<bool>)
    requires InRange(f.expr, |s|) && IdsInRange(f.ids, |s|) && f.count == |f.ids| && Distinct(f.ids)
    requires FilledTo(f, s, Pow2(f.count)) && |s| == |t| && forall b <- Mentioned(f.expr) :: b in f.ids
    ensures Tabulated(f, t)
  {
    hide Assigned, Answer;
    forall k: nat | k < Pow2(f.count) ensures AnswerAt(f, t, k) == AnswerAt(f, s, k) {
      var x, y := Assigned(s, f.ids, k, f.count), Assigned(t, f.ids, k, f.count);
      AssignedAt(s, f.ids, k, f.count);
      AssignedAt(t, f.ids, k, f.count);
      forall b <- Mentioned(f.expr) | 0 < b <= |s| ensures x[b - 1] == y[b - 1] {
        var j :| 0 <= j < |f.ids| && f.ids[j] == b;
        assert x[f.ids[j] - 1] == y[f.ids[j] - 1];
      }
      AnswerIsLocal(f.expr, x, y);
    }
  }

  /** The loop over all assignments. An expression that is undefined is so under the first
    * assignment, whose values the booleans are then left with. */
  method Precompute(bools: seq<BoolDatum>, cn: CondNode) returns (rc: int)
    requires Separate(bools) && InRange(cn.expr, |bools|) && HasIds(cn.boolIds, cn.nbools, |bools|)
    requires cn.exprPreComp == {}
    modifies cn`exprPreComp, set b <- bools
    ensures rc == if old(Answer(cn.expr, States(bools))) == -1 then -1 else 0
    ensures rc == -1 ==>
              && cn.exprPreComp == {}
              && States(bools) == old(Assigned(States(bools), cn.boolIds[..cn.nbools], 0, cn.nbools))
    ensures rc == 0 ==>
              && States(bools) == old(States(bools))
              && FilledTo(Form(cn.expr, cn.nbools, cn.boolIds[..cn.nbools], cn.exprPreComp), States(bools),
                Pow2(cn.nbools))
  {
    hide States, Answer, Assigned, AnswerAt, FilledTo;
    var n := cn.nbools;
    ghost var s0, ids := States(bools), cn.boolIds[..n];
    var origValue := SaveBools(bools, cn.boolIds, n);
    NothingFilled(Form(cn.expr, n, ids, {}), s0);
    for test := 0 to Pow2(n)
      invariant cn.boolIds[..n] == ids && SameOutside(States(bools), s0, ids)
      invariant test == 0 ==> cn.exprPreComp == {}
      invariant test > 0 ==> Answer(cn.expr, s0) != -1
      invariant FilledTo(Form(cn.expr, n, ids, cn.exprPreComp), s0, test)
      modifies cn`exprPreComp, set b <- bools
    {
      SetBools(bools, cn.boolIds, n, test, s0);
      AssignedOver(s0, s0, ids, test);
      DefinedEverywhere(cn.expr, s0, States(bools));
      var k := CondEvaluateExpr(bools, cn.expr);
      ghost var f := Form(cn.expr, n, ids, cn.exprPreComp);
      AnswerAtIs(f, s0, test);
      if k == -1 {
        return -1;
      }
      FilledFurther(f, s0, test);
      if k != 0 {
        cn.exprPreComp := cn.exprPreComp + {test};
      }
    }
    RestoreBools(bools, cn.boolIds, n, origValue, s0);
    rc := 0;
  }

  lemma AnswerAtIs(f: Form, s: seq<bool>, k: nat)
    requires InRange(f.expr, |s|) && IdsInRange(f.ids, |s|) && f.count == |f.ids|
    ensures AnswerAt(f, s, k) == Answer(f.expr, Assigned(s, f.ids, k, f.count))
    ensures -1 <= AnswerAt(f, s, k) <= 1
  {
  }

  lemma NothingFilled(f: Form, s: seq<bool>)
    requires InRange(f.expr, |s|) && IdsInRange(f.ids, |s|) && f.count == |f.ids| && f.table == {}
    ensures FilledTo(f, s, 0)
  {
  }

  predicate Negated(expr: seq<Token>) {
    expr != [] && expr[|expr| - 1] == Not
  }

  /** The expression that cond_normalize_expr keeps. */
  function Stripped(expr: seq<Token>): seq<Token> {
    if Negated(expr) then expr[..|expr| - 1] else expr
  }

  /** "take care of !expr case". */
  method StripNot(cn: CondNode) returns (rc: int)
    requires cn.expr != []
    modifies cn`expr, cn`trueList, cn`falseList, cn`avtrueList, cn`avfalseList
    ensures rc == if old(cn.expr) == [Not] then -1 else 0
    ensures cn.expr == if rc == -1 then old(cn.expr) else Stripped(old(cn.expr))
    ensures (cn.trueList, cn.falseList) ==
            old(if Negated(cn.expr) && cn.expr != [Not] then (cn.falseList, cn.trueList)
              else (cn.trueList, cn.falseList))
    ensures (cn.avtrueList, cn.avfalseList) ==
            old(if Negated(cn.expr) && cn.expr != [Not] then (cn.avfalseList, cn.avtrueList)
              else (cn.avtrueList, cn.avfalseList))
  {
    var last := |cn.expr| - 1;
    if cn.expr[last] == Not {
      if last == 0 {
        return -1;
      }
      cn.expr := cn.expr[..last];
      cn.trueList, cn.falseList := cn.falseList, cn.trueList;
      cn.avtrueList, cn.avfalseList := cn.avfalseList, cn.avtrueList;
    }
    rc := 0;
  }

  /** "find all the bools in the expression". */
  method FindBools(cn: CondNode)
    requires cn.boolIds.Length == COND_MAX_BOOLS && cn.nbools == 0
    modifies cn`nbools, cn.boolIds
    ensures cn.nbools == Scan(cn.expr).count && cn.Ids() == Scan(cn.expr).ids
  {
    hide Scan, Note;
    ScanNothing();
    for i := 0 to |cn.expr|
      invariant Recorded(cn.Ids(), cn.nbools) == Scan(cn.expr[..i])
    {
      var e := cn.expr[i];
      assert cn.expr[..i + 1] == cn.expr[..i] + [e];
      ScanEnd(cn.expr[..i], e);
      NoteOther(Scan(cn.expr[..i]), e);
      if e.Bool? {
        NoteBool(cn, e.boolean);
      }
    }
    assert cn.expr[..|cn.expr|] == cn.expr;
  }

  lemma NoteOther(r: Recorded, t: Token)
    ensures !t.Bool? ==> Note(r, t) == r
  {
  }

  /** "count em all but only record up to COND_MAX_BOOLS". */
  method NoteBool(cn: CondNode, b: nat)
    requires cn.boolIds.Length == COND_MAX_BOOLS
    modifies cn`nbools, cn.boolIds
    ensures Recorded(cn.Ids(), cn.nbools) == old(Note(Recorded(cn.Ids(), cn.nbools), Bool(b)))
  {
    var present := BoolPresent(b, cn.boolIds, cn.nbools);
    if !present {
      if cn.nbools < COND_MAX_BOOLS {
        cn.boolIds[cn.nbools] := b;
      }
      cn.nbools := cn.nbools + 1;
    }
  }

  /** For a single expression, the lists after the swap are selected as those before it. */
  lemma KeepsBranches<T>(e: seq<Token>, n: nat, t: seq<T>, f: seq<T>)
    requires InRange(e, n) && OneTree(e) && e != [Not] && e != []
    ensures InRange(Stripped(e), n)
    ensures forall s: seq<bool> :: |s| == n ==>
              Branch(Stripped(e), s, if Negated(e) then f else t, if Negated(e) then t else f) == Branch(e, s, t, f)
  {
    hide Branch, Parse, OneTree;
    var d := Stripped(e);
    if Negated(e) {
      assert d + [Not] == e;
      OneTreeWithoutNot(d);
      forall s: seq<bool> | |s| == n ensures Branch(d, s, f, t) == Branch(e, s, t, f) {
        SwapSelectsTheSame(d, s, t, f);
      }
    }
  }

  lemma StrippedInRange(e: seq<Token>, n: nat)
    requires InRange(e, n)
    ensures InRange(Stripped(e), n)
  {
  }

  /** cond_normalize_expr. */
  method CondNormalizeExpr(bools: seq<BoolDatum>, cn: CondNode) returns (rc: int)
    requires Separate(bools) && cn.boolIds.Length == COND_MAX_BOOLS
    requires cn.expr != [] && InRange(cn.expr, |bools|)
    modifies cn, cn.boolIds, set b <- bools
    ensures old(cn.expr) == [Not] ==> rc == -1 && States(bools) == old(States(bools))
    ensures old(cn.expr) != [Not] ==>
              && cn.expr == Stripped(old(cn.expr)) && InRange(cn.expr, |bools|)
              && (rc == -1 <==> |Mentioned(cn.expr)| <= COND_MAX_BOOLS && Answer(cn.expr, old(States(bools))) == -1)
              && (rc == -1 ==> cn.nbools == |cn.Ids()| && IdsInRange(cn.Ids(), |bools|) &&
                               States(bools) == Assigned(old(States(bools)), cn.Ids(), 0, cn.nbools))
    ensures rc == 0 ==> States(bools) == old(States(bools)) && Normal(cn.AsForm(), |bools|)
    ensures rc != 0 ==> rc == -1
    ensures old(cn.expr) != [Not] && OneTree(old(cn.expr)) ==>
              forall s: seq<bool> :: |s| == |bools| ==>
                && Branch(cn.expr, s, cn.trueList, cn.falseList) == old(Branch(cn.expr, s, cn.trueList, cn.falseList))
                && Branch(cn.expr, s, cn.avtrueList, cn.avfalseList) ==
                  old(Branch(cn.expr, s, cn.avtrueList, cn.avfalseList))
  {
    hide States, Answer, Assigned, Normal, Scan, Mentioned, Branch, OneTree;
    ghost var e0, s0, t0, f0, at0, af0 := cn.expr, States(bools), cn.trueList, cn.falseList, cn.avtrueList,
        cn.avfalseList;
    Clear(cn);
    rc := StripNot(cn);
    if rc == -1 {
      return;
    }
    StrippedInRange(e0, |bools|);
    FindBools(cn);
    if OneTree(e0) {
      KeepsBranches(e0, |bools|, t0, f0);
      KeepsBranches(e0, |bools|, at0, af0);
    }
    rc := Tabulate(bools, cn);
  }

  /** The initial assignments. */
  method Clear(cn: CondNode)
    requires cn.boolIds.Length == COND_MAX_BOOLS
    modifies cn`nbools, cn`exprPreComp, cn.boolIds
    ensures cn.nbools == 0 && cn.exprPreComp == {}
  {
    cn.nbools := 0;
    forall i | 0 <= i < COND_MAX_BOOLS { cn.boolIds[i] := 0; }
    cn.exprPreComp := {};
  }

  /** "only precompute for exprs with <= COND_MAX_BOOLS". */
  method Tabulate(bools: seq<BoolDatum>, cn: CondNode) returns (rc: int)
    requires Separate(bools) && cn.boolIds.Length == COND_MAX_BOOLS && InRange(cn.expr, |bools|)
    requires cn.nbools == Scan(cn.expr).count && cn.Ids() == Scan(cn.expr).ids && cn.exprPreComp == {}
    modifies cn`exprPreComp, set b <- bools
    ensures rc == if |Mentioned(cn.expr)| <= COND_MAX_BOOLS && Answer(cn.expr, old(States(bools))) == -1 then -1 else 0
    ensures rc == -1 ==>
              && cn.nbools == |cn.Ids()| && IdsInRange(cn.Ids(), |bools|)
              && States(bools) == Assigned(old(States(bools)), cn.Ids(), 0, cn.nbools)
    ensures rc == 0 ==> States(bools) == old(States(bools)) && Normal(cn.AsForm(), |bools|)
  {
    hide States, Answer, Assigned, FilledTo, Scan, Mentioned, Tabulated;
    ghost var s0 := States(bools);
    ScanIsMentioned(cn.expr);
    IdsAreInRange(cn.expr, |bools|);
    rc := 0;
    if cn.nbools <= COND_MAX_BOOLS {
      rc := Precompute(bools, cn);
      if rc == 0 {
        FilledIsNormal(cn.AsForm(), s0);
      }
    }
  }

  lemma FilledIsNormal(f: Form, s: seq<bool>)
    requires InRange(f.expr, |s|) && f.ids == Scan(f.expr).ids && f.count == Scan(f.expr).count && f.Small()
    requires |f.ids| == f.count && IdsInRange(f.ids, |s|) && FilledTo(f, s, Pow2(f.count))
    ensures Normal(f, |s|)
  {
    ScanIsMentioned(f.expr);
    forall t: seq<bool> | |t| == |s| ensures Tabulated(f, t) {
      TabulatedAnywhere(f, s, t);
    }
  }
}
