/** Enabling conditional rules (libsepol/src/conditional.c, libsepol/src/booleans.c): setting a
  * boolean re-evaluates every conditional, which switches the ENABLED bits of its rules;
  * cond_compute_av reads these bits.
  */
module CondState {
  import opened AvTables
  import opened CondExpr
  import opened CondNormalize

  predicate Enabled(s: bv16) {
    s & ENABLED != 0
  }

  /** All bits but ENABLED. */
  function Kind(s: bv16): bv16 {
    s & 0x7FFF
  }

  function SwitchTo(s: bv16, on: bool): bv16 {
    if on then s | ENABLED else s & 0x7FFF
  }

  lemma SwitchBit(s: bv16, on: bool)
    ensures Enabled(SwitchTo(s, on)) == on && Kind(SwitchTo(s, on)) == Kind(s)
  {
  }

  ghost function Nodes(l: seq<AvNode>): set<AvNode> {
    set n <- l
  }

  ghost function RulesOf(c: CondNode): set<AvNode>
    reads c`trueList, c`falseList
  {
    Nodes(c.trueList) + Nodes(c.falseList)
  }

  /** The ENABLED bits of a list. */
  ghost predicate AllEnabled(l: seq<AvNode>, on: bool)
    reads Nodes(l)`specified
  {
    forall i :: 0 <= i < |l| ==> Enabled(l[i].specified) == on
  }

  /** The bits agree with the recorded state. */
  ghost predicate Coherent(c: CondNode)
    reads c, Nodes(c.trueList)`specified, Nodes(c.falseList)`specified
  {
    AllEnabled(c.trueList, c.curState > 0) && AllEnabled(c.falseList, c.curState == 0)
  }

  /** The loops that "turn the rules on or off": nothing but the ENABLED bit changes. */
  method Switch(l: seq<AvNode>, on: bool)
    modifies Nodes(l)`specified
    ensures AllEnabled(l, on)
    ensures forall n <- Nodes(l) :: Kind(n.specified) == old(Kind(n.specified))
  {
    hide Enabled, Kind, SwitchTo;
    for i := 0 to |l|
      invariant forall j :: 0 <= j < i ==> Enabled(l[j].specified) == on
      invariant forall j :: 0 <= j < |l| ==> Kind(l[j].specified) == old(Kind(l[j].specified))
    {
      SwitchBit(l[i].specified, on);
      l[i].specified := SwitchTo(l[i].specified, on);
    }
  }

  /** evaluate_cond_node. */
  method EvaluateCondNode(bools: seq<BoolDatum>, c: CondNode)
    requires InRange(c.expr, |bools|) && Coherent(c) && Nodes(c.trueList) !! Nodes(c.falseList)
    modifies c`curState, RulesOf(c)`specified
    ensures Coherent(c) && c.curState == Answer(c.expr, States(bools))
    ensures forall n <- RulesOf(c) :: Kind(n.specified) == old(Kind(n.specified))
  {
    hide Enabled, Kind;
    var newState := CondEvaluateExpr(bools, c.expr);
    if newState != c.curState {
      c.curState := newState;
      Switch(c.trueList, newState > 0);
      Switch(c.falseList, newState == 0);
    }
  }

  ghost function Objects(conds: seq<CondNode>): set<CondNode> {
    set c <- conds
  }

  /** The conditionals share no rules, and no rule is in both lists of one. */
  ghost predicate Unshared(conds: seq<CondNode>)
    reads Objects(conds)`trueList, Objects(conds)`falseList
  {
    && (forall i :: 0 <= i < |conds| ==> Nodes(conds[i].trueList) !! Nodes(conds[i].falseList))
    && (forall i, j :: 0 <= i < j < |conds| ==> conds[i] != conds[j] && RulesOf(conds[i]) !! RulesOf(conds[j]))
  }

  /** `rules` has all rules of the conditionals. */
  ghost predicate Covers(rules: set<AvNode>, conds: seq<CondNode>)
    reads Objects(conds)`trueList, Objects(conds)`falseList
  {
    forall i :: 0 <= i < |conds| ==> RulesOf(conds[i]) <= rules
  }

  ghost predicate AllCoherent(conds: seq<CondNode>, rules: set<AvNode>)
    requires Covers(rules, conds)
    reads conds, rules`specified
  {
    forall i :: 0 <= i < |conds| ==> Coherent(conds[i])
  }

  ghost predicate AllInRange(conds: seq<CondNode>, n: nat)
    reads Objects(conds)`expr
  {
    forall i :: 0 <= i < |conds| ==> InRange(conds[i].expr, n)
  }

  /** The first `k` conditionals are in the state their expression has under `s`. */
  ghost predicate Current(s: seq<bool>, conds: seq<CondNode>, k: nat)
    requires AllInRange(conds, |s|) && k <= |conds|
    reads conds
  {
    forall i :: 0 <= i < k ==> conds[i].curState == Answer(conds[i].expr, s)
  }

  /** One turn of the loop of evaluate_conds. */
  method EvaluateNext(bools: seq<BoolDatum>, conds: seq<CondNode>, c: CondNode, k: nat, ghost rules: set<AvNode>)
    requires Unshared(conds) && AllInRange(conds, |bools|) && Covers(rules, conds) && AllCoherent(conds, rules)
    requires k < |conds| && c == conds[k] && Current(States(bools), conds, k)
    modifies c`curState, RulesOf(c)`specified
    ensures Covers(rules, conds) && AllCoherent(conds, rules) && Current(States(bools), conds, k + 1)
    ensures forall n <- RulesOf(c) :: Kind(n.specified) == old(Kind(n.specified))
  {
    hide Enabled, Kind, Answer, AllEnabled;
    EvaluateCondNode(bools, c);
    forall i | 0 <= i < |conds| && i != k ensures Coherent(conds[i]) {
      assert RulesOf(conds[i]) !! RulesOf(c) && conds[i] != c by {
        if i < k { } else { }
      }
      assert old(Coherent(conds[i]));
    }
  }

  /** evaluate_conds. */
  method EvaluateConds(bools: seq<BoolDatum>, conds: seq<CondNode>, ghost rules: set<AvNode>)
    requires Unshared(conds) && AllInRange(conds, |bools|) && Covers(rules, conds) && AllCoherent(conds, rules)
    modifies Objects(conds)`curState, rules`specified
    ensures Covers(rules, conds) && AllCoherent(conds, rules) && Current(States(bools), conds, |conds|)
    ensures forall n <- rules :: Kind(n.specified) == old(Kind(n.specified))
  {
    hide Enabled, Kind, Coherent, States;
    for k := 0 to |conds|
      invariant Covers(rules, conds) && AllCoherent(conds, rules) && Current(States(bools), conds, k)
      invariant forall n <- rules :: Kind(n.specified) == old(Kind(n.specified))
    {
      EvaluateNext(bools, conds, conds[k], k, rules);
    }
  }

  // Reading the conditional table.

  /** sepol_av_decision, as far as cond_compute_av writes it. */
  class AvDecision {
    var allowed: Word
    var auditallow: Word
    var auditdeny: Word

    constructor (allowed: Word, auditallow: Word, auditdeny: Word)
      ensures this.allowed == allowed && this.auditallow == auditallow && this.auditdeny == auditdeny
    {
      this.allowed, this.auditallow, this.auditdeny := allowed, auditallow, auditdeny;
    }
  }

  /** A rule of kind `e` counts: (e | ENABLED) == (specified & (e | ENABLED)). */
  predicate Counts(s: bv16, e: bv16) {
    s & (e | ENABLED) == e | ENABLED
  }

  lemma CountsWhenEnabled(s: bv16, e: bv16)
    requires AvKind(e)
    ensures Counts(s, e) <==> Enabled(s) && s & e != 0
  {
    if e == ALLOWED {
      assert s & 0x8001 == 0x8001 <==> s & 0x8000 != 0 && s & 0x0001 != 0;
    } else if e == AUDITALLOW {
      assert s & 0x8002 == 0x8002 <==> s & 0x8000 != 0 && s & 0x0002 != 0;
    } else {
      assert s & 0x8004 == 0x8004 <==> s & 0x8000 != 0 && s & 0x0004 != 0;
    }
  }

  /** The rules of kind `e` among `ns` that a search for (`key`, `wanted`) meets. */
  ghost function Met(ns: set<AvNode>, key: Triple, wanted: bv16, e: bv16): set<AvNode>
    reads ns`specified
  {
    set n <- ns | n.key == key && Overlaps(wanted, n.specified) && Counts(n.specified, e)
  }

  ghost function Union(ns: set<AvNode>): Word
    reads ns`data
  {
    set n <- ns, b <- n.data :: b
  }

  /** The bits of `w` that every rule leaves. */
  ghost function Meet(ns: set<AvNode>, w: Word): Word
    reads ns`data
  {
    set b <- w | forall n <- ns :: b in n.data
  }

  /** The decision `avd` after the rules `ns` have been read into `before`. */
  datatype Decision = Decision(allowed: Word, auditallow: Word, auditdeny: Word)

  ghost function With(before: Decision, ns: set<AvNode>, key: Triple, wanted: bv16): Decision
    reads ns`specified, ns`data
  {
    Decision(before.allowed + Union(Met(ns, key, wanted, ALLOWED)),
             before.auditallow + Union(Met(ns, key, wanted, AUDITALLOW)),
             Meet(Met(ns, key, wanted, AUDITDENY), before.auditdeny))
  }

  ghost function Front(g: seq<AvNode>, p: nat): set<AvNode>
    requires p <= |g|
  {
    set i | 0 <= i < p :: g[i]
  }

  lemma WithNone(before: Decision, g: seq<AvNode>, key: Triple, wanted: bv16, q: nat)
    requires NextAt(g, wanted, 0, q)
    ensures With(before, Front(g, q), key, wanted) == before
  {
    hide Overlaps, Counts;
    assert forall e :: Met(Front(g, q), key, wanted, e) == {};
    assert Meet({}, before.auditdeny) == before.auditdeny;
  }

  lemma WithNext(before: Decision, g: seq<AvNode>, key: Triple, wanted: bv16, p: nat, q: nat)
    requires p < |g| && NextAt(g, wanted, p + 1, q) && g[p].key == key && Overlaps(wanted, g[p].specified)
    ensures var d, n := With(before, Front(g, p), key, wanted), g[p];
            With(before, Front(g, q), key, wanted) ==
            Decision(if Counts(n.specified, ALLOWED) then d.allowed + n.data else d.allowed,
                     if Counts(n.specified, AUDITALLOW) then d.auditallow + n.data else d.auditallow,
                     if Counts(n.specified, AUDITDENY) then d.auditdeny * n.data else d.auditdeny)
  {
    hide Overlaps, Counts, Met, Union, Meet;
    AddOne(Met(Front(g, p), key, wanted, ALLOWED), g[p], before.auditdeny);
    AddOne(Met(Front(g, p), key, wanted, AUDITALLOW), g[p], before.auditdeny);
    AddOne(Met(Front(g, p), key, wanted, AUDITDENY), g[p], before.auditdeny);
    MetNext(g, key, wanted, p, q, ALLOWED);
    MetNext(g, key, wanted, p, q, AUDITALLOW);
    MetNext(g, key, wanted, p, q, AUDITDENY);
  }

  lemma AddOne(ns: set<AvNode>, n: AvNode, w: Word)
    ensures Union(ns + {n}) == Union(ns) + n.data && Meet(ns + {n}, w) == Meet(ns, w) * n.data
  {
    forall b: int ensures b in Union(ns + {n}) <==> b in Union(ns) + n.data {
    }
  }

  lemma MetNext(g: seq<AvNode>, key: Triple, wanted: bv16, p: nat, q: nat, e: bv16)
    requires p < |g| && NextAt(g, wanted, p + 1, q) && g[p].key == key && Overlaps(wanted, g[p].specified)
    ensures Met(Front(g, q), key, wanted, e) ==
            if Counts(g[p].specified, e) then Met(Front(g, p), key, wanted, e) + {g[p]}
                else Met(Front(g, p), key, wanted, e)
  {
    hide Overlaps, Counts;
    forall i | p < i < q ensures g[i] !in Met(Front(g, q), key, wanted, e) {
      assert !Overlaps(wanted, g[i].specified);
    }
  }

  lemma WithAll(t: Avtab, key: Triple, wanted: bv16, before: Decision)
    requires t.Valid()
    ensures t.slotOf(key) < |t.chains|
    ensures With(before, Front(t.Group(key), |t.Group(key)|), key, wanted) == With(before, t.nodes, key, wanted)
  {
    hide Avtab.Valid, Avtab.Group, Overlaps, Counts;
    t.GroupMembers(key);
    var g := t.Group(key);
    forall e ensures Met(Front(g, |g|), key, wanted, e) == Met(t.nodes, key, wanted, e) {
      assert forall n <- t.nodes :: n.key == key ==> n in Front(g, |g|);
    }
  }

  /** cond_compute_av. */
  method CondComputeAv(t: Avtab, key: Triple, wanted: bv16, avd: AvDecision)
    requires t.Valid()
    modifies avd
    ensures Decision(avd.allowed, avd.auditallow, avd.auditdeny) ==
            With(old(Decision(avd.allowed, avd.auditallow, avd.auditdeny)), t.nodes, key, wanted)
  {
    hide Avtab.Valid, Avtab.Group, Overlaps, Counts, With, Front;
    ghost var before := Decision(avd.allowed, avd.auditallow, avd.auditdeny);
    WithAll(t, key, wanted, before);
    ghost var g := t.Group(key);
    t.GroupMembers(key);
    var node, pos := t.SearchNode(key, wanted);
    WithNone(before, g, key, wanted, pos);
    while node != null
      invariant pos <= |g| && node == if pos < |g| then g[pos] else null
      invariant node != null ==> Overlaps(wanted, node.specified)
      invariant Decision(avd.allowed, avd.auditallow, avd.auditdeny) == With(before, Front(g, pos), key, wanted)
      decreases |g| - pos
    {
      ghost var p, here := pos, With(before, Front(g, pos), key, wanted);
      ReadRule(node, avd);
      assert With(before, Front(g, p), key, wanted) == here;
      node, pos := t.SearchNodeNext(node, wanted, p);
      WithNext(before, g, key, wanted, p, pos);
    }
    WithAll(t, key, wanted, before);
  }

  /** The tests of cond_compute_av on one rule. */
  method ReadRule(node: AvNode, avd: AvDecision)
    modifies avd
    ensures avd.allowed == if Counts(node.specified, ALLOWED) then old(avd.allowed) + node.data else old(avd.allowed)
    ensures avd.auditallow == if Counts(node.specified, AUDITALLOW) then old(avd.auditallow) + node.data
            else old(avd.auditallow)
    ensures avd.auditdeny == if Counts(node.specified, AUDITDENY) then old(avd.auditdeny) * node.data
            else old(avd.auditdeny)
  {
    hide Counts;
    if Counts(node.specified, ALLOWED) {
      avd.allowed := avd.allowed + node.data;
    }
    if Counts(node.specified, AUDITDENY) {
      avd.auditdeny := avd.auditdeny * node.data;
    }
    if Counts(node.specified, AUDITALLOW) {
      avd.auditallow := avd.auditallow + node.data;
    }
  }

  // A whole policy: booleans by name, conditionals, and the table of the conditional rules.

  class Policydb {
    const bools: seq<BoolDatum>
    const boolTable: map<string, nat>   // p_bools.table: a name's boolean, counted from 1
    const condList: seq<CondNode>
    const teCondAvtab: Avtab

    constructor (bools: seq<BoolDatum>, boolTable: map<string, nat>, condList: seq<CondNode>, teCondAvtab: Avtab)
      ensures this.bools == bools && this.boolTable == boolTable
      ensures this.condList == condList && this.teCondAvtab == teCondAvtab
    {
      this.bools, this.boolTable, this.condList, this.teCondAvtab := bools, boolTable, condList, teCondAvtab;
    }

    predicate Named() {
      forall name <- boolTable :: 0 < boolTable[name] <= |bools|
    }

    /** All rules of the table belong to the conditionals, and each to one list only. */
    ghost predicate Valid()
      reads Objects(condList)`expr, Objects(condList)`trueList, Objects(condList)`falseList, teCondAvtab`nodes
    {
      && Separate(bools) && Named()
      && Unshared(condList) && AllInRange(condList, |bools|) && Covers(teCondAvtab.nodes, condList)
      && forall n <- teCondAvtab.nodes :: exists i :: 0 <= i < |condList| && n in RulesOf(condList[i])
    }

    /** Every conditional is in the state of its expression, and so are the bits of its rules. */
    ghost predicate Consistent()
      requires Valid()
      reads bools, condList, teCondAvtab`nodes, teCondAvtab.nodes`specified
    {
      AllCoherent(condList, teCondAvtab.nodes) && Current(States(bools), condList, |condList|)
    }

    /** The rules of the branches that the current booleans select. */
    ghost function Selected(): set<AvNode>
      requires Valid()
      reads bools, condList, teCondAvtab`nodes
    {
      set n <- teCondAvtab.nodes | InSelectedBranch(n)
    }

    ghost predicate InSelectedBranch(n: AvNode)
      requires Valid()
      reads bools, condList, teCondAvtab`nodes
    {
      exists i :: 0 <= i < |condList| &&
        n in Branch(condList[i].expr, States(bools), condList[i].trueList, condList[i].falseList)
    }

    /** In a consistent policy, the enabled rules are those of the selected branches. */
    lemma EnabledIsSelected(n: AvNode)
      requires Valid() && Consistent() && n in teCondAvtab.nodes
      ensures Enabled(n.specified) <==> n in Selected()
    {
      hide Enabled, Answer, States, InRange;
      var i :| 0 <= i < |condList| && n in RulesOf(condList[i]);
      var c := condList[i];
      assert Coherent(c) && c.curState == Answer(c.expr, States(bools));
      EnabledInNode(c, n);
      forall j | 0 <= j < |condList| &&
          n in Branch(condList[j].expr, States(bools), condList[j].trueList, condList[j].falseList)
        ensures j == i
      {
        assert n in RulesOf(condList[j]);
      }
    }

    lemma EnabledInNode(c: CondNode, n: AvNode)
      requires InRange(c.expr, |bools|) && Coherent(c) && c.curState == Answer(c.expr, States(bools))
      requires n in RulesOf(c) && Nodes(c.trueList) !! Nodes(c.falseList)
      ensures Enabled(n.specified) <==> n in Branch(c.expr, States(bools), c.trueList, c.falseList)
    {
      hide Enabled, Answer;
    }

    /** In a consistent policy the rules of a conditional over a tree are enabled by its value: those
      * of the true list if it holds, those of the false list if it does not, and none if it is too
      * deep to be evaluated. */
    lemma EnabledByValue(i: nat, t: Tree)
      requires Valid() && Consistent() && i < |condList| && t.Valid(|bools|) && condList[i].expr == t.Postfix()
      ensures forall n <- condList[i].trueList ::
                n.specified & 0x8000 != 0 <==> t.Depth() <= COND_EXPR_MAXDEPTH && t.Value(States(bools))
      ensures forall n <- condList[i].falseList ::
                n.specified & 0x8000 != 0 <==> t.Depth() <= COND_EXPR_MAXDEPTH && !t.Value(States(bools))
    {
      hide Answer, States, Tree.Postfix, Tree.Depth, Tree.Value, InRange;
      var c := condList[i];
      TreeAnswer(t, States(bools));
      assert Coherent(c) && c.curState == Answer(c.expr, States(bools));
      ListsAreEnabled(c);
    }

    lemma ListsAreEnabled(c: CondNode)
      requires Coherent(c)
      ensures forall n <- c.trueList :: n.specified & 0x8000 != 0 <==> c.curState > 0
      ensures forall n <- c.falseList :: n.specified & 0x8000 != 0 <==> c.curState == 0
    {
    }

    /** bool_update: `value` comes from the caller's record. */
    method BoolUpdate(name: string, value: int) returns (rc: int)
      requires Valid()
      modifies set b <- bools
      ensures rc == if name in boolTable && (value == 0 || value == 1) then 0 else -1
      ensures States(bools) == if rc == 0 then old(States(bools))[boolTable[name] - 1 := value == 1]
              else old(States(bools))
    {
      if name !in boolTable {
        return -1;
      }
      if value != 0 && value != 1 {
        return -1;
      }
      SetState(bools, boolTable[name], value == 1);
      rc := 0;
    }

    /** sepol_bool_set: on an error nothing changes, and otherwise all conditionals follow. */
    method BoolSet(name: string, value: int) returns (rc: int)
      requires Valid() && Consistent()
      modifies (set b <- bools), Objects(condList)`curState, teCondAvtab.nodes`specified
      ensures Valid() && Consistent()
      ensures rc == if name in boolTable && (value == 0 || value == 1) then 0 else -1
      ensures States(bools) == if rc == 0 then old(States(bools))[boolTable[name] - 1 := value == 1]
              else old(States(bools))
      ensures forall n <- teCondAvtab.nodes :: Kind(n.specified) == old(Kind(n.specified))
    {
      hide Enabled, Kind, States, Valid, Unshared, Covers, AllInRange, AllCoherent, Current;
      ValidParts();
      rc := BoolUpdate(name, value);
      if rc < 0 {
        return -1;
      }
      EvaluateConds(bools, condList, teCondAvtab.nodes);
      rc := 0;
    }

    /** Any run of calls: what the booleans are after the calls that succeed, and the invariant. */
    method BoolSets(calls: seq<(string, int)>)
      requires Valid() && Consistent()
      modifies (set b <- bools), Objects(condList)`curState, teCondAvtab.nodes`specified
      ensures Valid() && Consistent()
      ensures States(bools) == AfterCalls(old(States(bools)), calls)
      ensures forall n <- teCondAvtab.nodes :: Kind(n.specified) == old(Kind(n.specified))
    {
      hide Enabled, Kind, States, Consistent, Valid;
      ValidParts();
      for i := 0 to |calls|
        invariant Valid() && Consistent()
        invariant States(bools) == AfterCalls(old(States(bools)), calls[..i])
        invariant forall n <- teCondAvtab.nodes :: Kind(n.specified) == old(Kind(n.specified))
      {
        assert calls[..i + 1][..i] == calls[..i];
        var rc := BoolSet(calls[i].0, calls[i].1);
      }
      assert calls[..|calls|] == calls;
    }

    /** The states after a run of calls. */
    ghost function AfterCalls(s: seq<bool>, calls: seq<(string, int)>): (t: seq<bool>)
      requires Named() && |s| == |bools|
      ensures |t| == |s|
    {
      if calls == [] then s
      else
        var (name, value) := calls[|calls| - 1];
        var t := AfterCalls(s, calls[..|calls| - 1]);
        if name in boolTable && (value == 0 || value == 1) then t[boolTable[name] - 1 := value == 1] else t
    }

    lemma ValidParts()
      requires Valid()
      ensures Unshared(condList) && AllInRange(condList, |bools|) && Covers(teCondAvtab.nodes, condList) && Named()
    {
    }

    /** The rules of kind `e` that the selected branches have for (`key`, `wanted`). */
    ghost function Contributing(key: Triple, wanted: bv16, e: bv16): set<AvNode>
      requires Valid()
      reads bools, condList, teCondAvtab`nodes, teCondAvtab.nodes`specified
    {
      set n <- Selected() | n.key == key && Overlaps(wanted, n.specified) && n.specified & e != 0
    }

    lemma MetIsContributing(key: Triple, wanted: bv16, e: bv16)
      requires Valid() && Consistent() && AvKind(e)
      ensures Met(teCondAvtab.nodes, key, wanted, e) == Contributing(key, wanted, e)
    {
      hide Enabled, Counts, Overlaps, Consistent, Valid, InSelectedBranch;
      forall n <- teCondAvtab.nodes
        ensures n in Met(teCondAvtab.nodes, key, wanted, e) <==> n in Contributing(key, wanted, e)
      {
        EnabledIsSelected(n);
        CountsWhenEnabled(n.specified, e);
      }
    }

    /** In every state a run of BoolSet calls can reach, the decision takes in exactly the rules
      * of the selected branches. */
    method ComputeAv(key: Triple, wanted: bv16, avd: AvDecision)
      requires Valid() && Consistent() && teCondAvtab.Valid()
      modifies avd
      ensures avd.allowed == old(avd.allowed) + Union(Contributing(key, wanted, ALLOWED))
      ensures avd.auditallow == old(avd.auditallow) + Union(Contributing(key, wanted, AUDITALLOW))
      ensures avd.auditdeny == Meet(Contributing(key, wanted, AUDITDENY), old(avd.auditdeny))
    {
      hide Valid, Consistent, Contributing, Met, Avtab.Valid;
      MetIsContributing(key, wanted, ALLOWED);
      MetIsContributing(key, wanted, AUDITALLOW);
      MetIsContributing(key, wanted, AUDITDENY);
      CondComputeAv(teCondAvtab, key, wanted, avd);
    }
  }
}
