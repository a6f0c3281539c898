/** Type bounds (libsepol/src/hierarchy.c): a child type may not be allowed more than its parent.
  * bounds_check_type must be right for every boolean assignment without trying the assignments.
  */
module Hierarchy {
  import opened AvTables
  import opened AvRules

  datatype Rule = Rule(key: Triple, specified: bv16, data: Word) {
    predicate Allow() { specified & ALLOWED != 0 }
  }

  datatype Conditional = Conditional(trueList: seq<Rule>, falseList: seq<Rule>)

  /** `te` is te_avtab in the order avtab_map visits it.  `members` is attr_type_map as type
    * numbers, in bitmap order; `bounds` is the declared bound of a type, or 0. */
  datatype Policy = Policy(te: seq<Rule>, conds: seq<Conditional>, members: nat -> seq<nat>, bounds: nat -> nat)

  /** The rule reaches (`s`, `t`, `c`) through attributes. */
  predicate Reaches(p: Policy, r: Rule, k: Triple) {
    k.source in p.members(r.key.source) && k.target in p.members(r.key.target) && k.cls == r.key.cls
  }

  /** All permissions the rules of a list give on `k`, whatever their kind. */
  function Grant(p: Policy, rules: seq<Rule>, k: Triple): Word {
    if rules == [] then {}
    else Grant(p, rules[..|rules| - 1], k) +
         (if Reaches(p, rules[|rules| - 1], k) then rules[|rules| - 1].data else {})
  }

  function Allows(rules: seq<Rule>): seq<Rule> {
    if rules == [] then []
    else Allows(rules[..|rules| - 1]) + (if rules[|rules| - 1].Allow() then [rules[|rules| - 1]] else [])
  }

  /** What is allowed on `k` when conditional `i` is in the state chosen by `choice(i)`. */
  function Effective(p: Policy, choice: nat -> bool, n: nat, k: Triple): Word
    requires n <= |p.conds|
  {
    if n == 0 then Grant(p, Allows(p.te), k)
    else Effective(p, choice, n - 1, k) +
         Grant(p, Allows(if choice(n - 1) then p.conds[n - 1].trueList else p.conds[n - 1].falseList), k)
  }

  function BoundOf(p: Policy, t: nat): nat {
    if p.bounds(t) != 0 then p.bounds(t) else t
  }

  /** The child stays within its parent in the given state of the conditionals. */
  ghost predicate Bounded(p: Policy, choice: nat -> bool, child: nat, parent: nat) {
    forall t, c ::
      Effective(p, choice, |p.conds|, Triple(child, t, c)) <=
      Effective(p, choice, |p.conds|, Triple(parent, BoundOf(p, t), c))
  }

  /** The table of permissions the parent has in every state: the unconditional ones and, per
    * conditional, those common to both branches. */
  function Common(p: Policy, n: nat, k: Triple): Word
    requires n <= |p.conds|
  {
    if n == 0 then Grant(p, Allows(p.te), k)
    else Common(p, n - 1, k) + Grant(p, p.conds[n - 1].trueList, k) * Grant(p, p.conds[n - 1].falseList, k)
  }

  /** What bounds_check_rule finds uncovered for one target of one child rule. */
  function Uncovered(p: Policy, branch: seq<Rule>, r: Rule, parent: nat, t: nat): Word {
    var k := Triple(parent, BoundOf(p, t), r.key.cls);
    r.data - Grant(p, branch, k) - Common(p, |p.conds|, k)
  }

  /** No rule of `rules` gives the child more than the parent has by `branch` or in common. */
  ghost predicate Covered(p: Policy, rules: seq<Rule>, branch: seq<Rule>, child: nat, parent: nat) {
    forall r, t :: r in rules && r.Allow() && child in p.members(r.key.source) && t in p.members(r.key.target)
      ==> Uncovered(p, branch, r, parent, t) == {}
  }

  ghost predicate AllCovered(p: Policy, child: nat, parent: nat) {
    && Covered(p, p.te, [], child, parent)
    && forall i :: 0 <= i < |p.conds| ==>
         && Covered(p, p.conds[i].trueList, p.conds[i].trueList, child, parent)
         && Covered(p, p.conds[i].falseList, p.conds[i].falseList, child, parent)
  }

  /** Whatever the list gives the parent, by rules of any kind, its allow rules give the parent
    * too (on the targets the check can ask for). */
  ghost predicate Backed(p: Policy, rules: seq<Rule>, parent: nat) {
    forall u, t, c :: t in p.members(u) ==>
      Grant(p, rules, Triple(parent, BoundOf(p, t), c)) == Grant(p, Allows(rules), Triple(parent, BoundOf(p, t), c))
  }

  ghost predicate AllBacked(p: Policy, parent: nat) {
    forall i :: 0 <= i < |p.conds| ==> Backed(p, p.conds[i].trueList, parent) && Backed(p, p.conds[i].falseList, parent)
  }

  /** Conditional lists hold only allow rules. */
  ghost predicate AllowOnly(p: Policy) {
    forall i :: 0 <= i < |p.conds| ==>
      (forall r <- p.conds[i].trueList :: r.Allow()) && (forall r <- p.conds[i].falseList :: r.Allow())
  }

  lemma {:induction false} GrantMeaning(p: Policy, rules: seq<Rule>, k: Triple, b: int)
    ensures b in Grant(p, rules, k) <==> exists r <- rules :: Reaches(p, r, k) && b in r.data
  {
    if rules != [] {
      GrantMeaning(p, rules[..|rules| - 1], k, b);
      assert rules == rules[..|rules| - 1] + [rules[|rules| - 1]];
    }
  }

  lemma {:induction false} AllowsMeaning(rules: seq<Rule>)
    ensures forall r :: r in Allows(rules) <==> r in rules && r.Allow()
  {
    if rules != [] {
      var init, last := rules[..|rules| - 1], rules[|rules| - 1];
      AllowsMeaning(init);
      assert rules == init + [last];
      assert forall r :: r in Allows(rules) <==> r in Allows(init) || (r == last && last.Allow());
    }
  }

  lemma {:induction false} AllowsAll(rules: seq<Rule>)
    requires forall i :: 0 <= i < |rules| ==> rules[i].Allow()
    ensures Allows(rules) == rules
  {
    if rules != [] {
      var init := rules[..|rules| - 1];
      AllowsAll(init);
      assert rules == init + [rules[|rules| - 1]];
    }
  }

  /** What the parent has in common it has in every state. */
  lemma {:induction false} CommonIsEffective(p: Policy, choice: nat -> bool, n: nat, k: Triple)
    requires n <= |p.conds|
    requires forall i :: 0 <= i < n ==>
               Grant(p, p.conds[i].trueList, k) == Grant(p, Allows(p.conds[i].trueList), k) &&
               Grant(p, p.conds[i].falseList, k) == Grant(p, Allows(p.conds[i].falseList), k)
    ensures Common(p, n, k) <= Effective(p, choice, n, k)
  {
    hide Grant, Allows;
    if n > 0 {
      CommonIsEffective(p, choice, n - 1, k);
    }
  }

  lemma AllowOnlyIsBacked(p: Policy, parent: nat)
    requires AllowOnly(p)
    ensures AllBacked(p, parent)
  {
    hide Grant, Allows;
    forall i | 0 <= i < |p.conds|
      ensures Backed(p, p.conds[i].trueList, parent) && Backed(p, p.conds[i].falseList, parent)
    {
      AllowsAll(p.conds[i].trueList);
      AllowsAll(p.conds[i].falseList);
    }
  }

  lemma {:induction false} EffectiveGrows(p: Policy, choice: nat -> bool, m: nat, n: nat, k: Triple)
    requires m <= n <= |p.conds|
    ensures Effective(p, choice, m, k) <= Effective(p, choice, n, k)
    decreases n
  {
    if m < n {
      EffectiveGrows(p, choice, m, n - 1, k);
    }
  }

  /** A covered list gives the child nothing beyond the parent's branch and common permissions. */
  lemma CoveredList(p: Policy, rules: seq<Rule>, branch: seq<Rule>, child: nat, parent: nat, t: nat, c: nat)
    requires Covered(p, rules, branch, child, parent)
    ensures var k := Triple(parent, BoundOf(p, t), c);
            Grant(p, Allows(rules), Triple(child, t, c)) <= Grant(p, branch, k) + Common(p, |p.conds|, k)
  {
    AllowsMeaning(rules);
    var k := Triple(parent, BoundOf(p, t), c);
    forall b | b in Grant(p, Allows(rules), Triple(child, t, c))
      ensures b in Grant(p, branch, k) + Common(p, |p.conds|, k)
    {
      GrantMeaning(p, Allows(rules), Triple(child, t, c), b);
      var r :| r in Allows(rules) && Reaches(p, r, Triple(child, t, c)) && b in r.data;
      assert Uncovered(p, branch, r, parent, t) == {};
      assert b !in Uncovered(p, branch, r, parent, t);
    }
  }

  /** Soundness: when nothing is uncovered, the child is bounded in every state of the
    * conditionals. */
  lemma CoveredIsBounded(p: Policy, child: nat, parent: nat, choice: nat -> bool)
    requires AllCovered(p, child, parent) && AllBacked(p, parent)
    ensures Bounded(p, choice, child, parent)
  {
    hide Effective, AllCovered, AllBacked;
    forall t, c
      ensures Effective(p, choice, |p.conds|, Triple(child, t, c)) <=
              Effective(p, choice, |p.conds|, Triple(parent, BoundOf(p, t), c))
    {
      if u: nat :| t in p.members(u) {
        CoveredUpTo(p, child, parent, choice, |p.conds|, u, t, c);
      } else {
        NoTarget(p, choice, |p.conds|, child, t, c);
      }
    }
  }

  lemma {:induction false} NoTarget(p: Policy, choice: nat -> bool, n: nat, child: nat, t: nat, c: nat)
    requires n <= |p.conds| && forall u: nat :: t !in p.members(u)
    ensures Effective(p, choice, n, Triple(child, t, c)) == {}
  {
    var k := Triple(child, t, c);
    var rules := if n == 0 then p.te else if choice(n - 1) then p.conds[n - 1].trueList else p.conds[n - 1].falseList;
    if n > 0 {
      NoTarget(p, choice, n - 1, child, t, c);
    }
    forall b: int ensures b !in Grant(p, Allows(rules), k) {
      GrantMeaning(p, Allows(rules), k, b);
    }
    assert Grant(p, Allows(rules), k) == {};
  }

  lemma {:induction false} CoveredUpTo(p: Policy, child: nat, parent: nat, choice: nat -> bool, n: nat, u: nat,
      t: nat, c: nat)
    requires AllCovered(p, child, parent) && AllBacked(p, parent) && n <= |p.conds| && t in p.members(u)
    ensures Effective(p, choice, n, Triple(child, t, c)) <=
            Effective(p, choice, |p.conds|, Triple(parent, BoundOf(p, t), c))
  {
    hide Grant, Allows, Common, Covered;
    var k := Triple(parent, BoundOf(p, t), c);
    CommonIsEffective(p, choice, |p.conds|, k);
    assert Grant(p, [], k) == {} by { NoRules(p, k); }
    if n == 0 {
      CoveredList(p, p.te, [], child, parent, t, c);
    } else {
      CoveredUpTo(p, child, parent, choice, n - 1, u, t, c);
      var branch := if choice(n - 1) then p.conds[n - 1].trueList else p.conds[n - 1].falseList;
      CoveredList(p, branch, branch, child, parent, t, c);
      assert Grant(p, Allows(branch), k) <= Effective(p, choice, n, k);
      EffectiveGrows(p, choice, n, |p.conds|, k);
    }
  }

  lemma NoRules(p: Policy, k: Triple)
    ensures Grant(p, [], k) == {}
  {
  }

  function ListOf(p: Policy, i: nat, branch: bool): seq<Rule>
    requires i < |p.conds|
  {
    if branch then p.conds[i].trueList else p.conds[i].falseList
  }

  lemma AllowsPart(p: Policy, rules: seq<Rule>, k: Triple, b: int)
    requires b in Grant(p, Allows(rules), k)
    ensures b in Grant(p, rules, k)
  {
    GrantMeaning(p, Allows(rules), k, b);
    AllowsMeaning(rules);
    GrantMeaning(p, rules, k, b);
  }

  /** What is not common, not every branch gives. */
  lemma {:induction false} NotCommon(p: Policy, n: nat, k: Triple, b: int)
    requires n <= |p.conds| && b !in Common(p, n, k)
    ensures b !in Grant(p, Allows(p.te), k)
    ensures forall i :: 0 <= i < n ==> b !in Grant(p, ListOf(p, i, true), k) || b !in Grant(p, ListOf(p, i, false), k)
  {
    if n > 0 {
      NotCommon(p, n - 1, k, b);
    }
  }

  lemma {:induction false} NotEffective(p: Policy, choice: nat -> bool, n: nat, k: Triple, b: int)
    requires n <= |p.conds| && b !in Grant(p, Allows(p.te), k)
    requires forall i :: 0 <= i < n ==> b !in Grant(p, ListOf(p, i, choice(i)), k)
    ensures b !in Effective(p, choice, n, k)
  {
    hide Grant, Allows;
    if n > 0 {
      NotEffective(p, choice, n - 1, k, b);
      var rules := ListOf(p, n - 1, choice(n - 1));
      if b in Grant(p, Allows(rules), k) {
        AllowsPart(p, rules, k, b);
        assert false;
      }
    }
  }

  lemma EffectivePart(p: Policy, choice: nat -> bool, i: nat, k: Triple)
    requires i <= |p.conds|
    ensures Grant(p, if i == |p.conds| then Allows(p.te) else Allows(ListOf(p, i, choice(i))), k) <=
            Effective(p, choice, |p.conds|, k)
  {
    hide Grant, Allows;
    EffectiveGrows(p, choice, 0, |p.conds|, k);
    if i < |p.conds| {
      EffectiveGrows(p, choice, i + 1, |p.conds|, k);
    }
  }

  /** An uncovered rule shows in some state: its own branch is taken, and in every other
    * conditional the branch that does not give the parent the permission.  `i` is the rule's
    * conditional, or |p.conds| for an unconditional rule. */
  lemma UncoveredShows(p: Policy, child: nat, parent: nat, i: nat, branch: bool, r: Rule, t: nat)
    requires i <= |p.conds| && r in (if i == |p.conds| then p.te else ListOf(p, i, branch)) && r.Allow()
    requires child in p.members(r.key.source) && t in p.members(r.key.target)
    requires Uncovered(p, if i == |p.conds| then [] else ListOf(p, i, branch), r, parent, t) != {}
    ensures exists choice: nat -> bool :: !Bounded(p, choice, child, parent)
  {
    hide Grant, Allows, Common, Effective;
    var own, k := Triple(child, t, r.key.cls), Triple(parent, BoundOf(p, t), r.key.cls);
    var rules := if i == |p.conds| then p.te else ListOf(p, i, branch);
    var b := OneOf(Uncovered(p, if i == |p.conds| then [] else rules, r, parent, t));
    var choice: nat -> bool := (j: nat) =>
      if j == i then branch else !(j < |p.conds| && b in Grant(p, ListOf(p, j, true), k));
    NotCommon(p, |p.conds|, k, b);
    NotEffective(p, choice, |p.conds|, k, b);
    EffectivePart(p, choice, i, own);
    AllowsMeaning(rules);
    GrantMeaning(p, Allows(rules), own, b);
    assert r in Allows(rules) && Reaches(p, r, own);
    assert !(Effective(p, choice, |p.conds|, own) <= Effective(p, choice, |p.conds|, k));
    assert !Bounded(p, choice, child, parent);
  }

  /** When the child is bounded in every state, nothing is uncovered. */
  lemma BoundedIsCovered(p: Policy, child: nat, parent: nat)
    requires forall choice: nat -> bool :: Bounded(p, choice, child, parent)
    ensures AllCovered(p, child, parent)
  {
    hide Bounded, Uncovered;
    forall r, t | r in p.te && r.Allow() && child in p.members(r.key.source) && t in p.members(r.key.target)
      ensures Uncovered(p, [], r, parent, t) == {}
    {
      if Uncovered(p, [], r, parent, t) != {} {
        UncoveredShows(p, child, parent, |p.conds|, true, r, t);
        assert false;
      }
    }
    forall i | 0 <= i < |p.conds|
      ensures Covered(p, ListOf(p, i, true), ListOf(p, i, true), child, parent)
      ensures Covered(p, ListOf(p, i, false), ListOf(p, i, false), child, parent)
    {
      ListCovered(p, child, parent, i, true);
      ListCovered(p, child, parent, i, false);
    }
    assert forall i :: 0 <= i < |p.conds| ==>
             p.conds[i].trueList == ListOf(p, i, true) && p.conds[i].falseList == ListOf(p, i, false);
  }

  lemma ListCovered(p: Policy, child: nat, parent: nat, i: nat, branch: bool)
    requires i < |p.conds| && forall choice: nat -> bool :: Bounded(p, choice, child, parent)
    ensures Covered(p, ListOf(p, i, branch), ListOf(p, i, branch), child, parent)
  {
    hide Bounded, Uncovered;
    var rules := ListOf(p, i, branch);
    forall r, t | r in rules && r.Allow() && child in p.members(r.key.source) && t in p.members(r.key.target)
      ensures Uncovered(p, rules, r, parent, t) == {}
    {
      if Uncovered(p, rules, r, parent, t) != {} {
        UncoveredShows(p, child, parent, i, branch, r, t);
        assert false;
      }
    }
  }

  /** The check is exact: nothing is uncovered exactly when the child is bounded in every state of
    * the conditionals. */
  lemma CoveredExactly(p: Policy, child: nat, parent: nat)
    requires AllBacked(p, parent)
    ensures AllCovered(p, child, parent) <==> forall choice: nat -> bool :: Bounded(p, choice, child, parent)
  {
    hide AllCovered, AllBacked, Bounded;
    if AllCovered(p, child, parent) {
      forall choice: nat -> bool { CoveredIsBounded(p, child, parent, choice); }
    }
    if forall choice: nat -> bool :: Bounded(p, choice, child, parent) {
      BoundedIsCovered(p, child, parent);
    }
  }

  // The promise in terms of rules.

  /** An allow rule between the two types, through their attributes, gives the permission. */
  ghost predicate Gives(p: Policy, r: Rule, s: nat, t: nat, c: nat, b: int) {
    && r.specified & 0x0001 != 0 && b in r.data
    && s in p.members(r.key.source) && t in p.members(r.key.target) && r.key.cls == c
  }

  /** The permission is allowed when conditional `i` takes the branch chosen by `choice(i)`, as far
    * as the first `n` conditionals go. */
  ghost predicate Permitted(p: Policy, choice: nat -> bool, n: nat, s: nat, t: nat, c: nat, b: int)
    requires n <= |p.conds|
  {
    || (exists r <- p.te :: Gives(p, r, s, t, c, b))
    || (exists i: nat, r :: i < n && Gives(p, r, s, t, c, b) &&
          if choice(i) then r in p.conds[i].trueList else r in p.conds[i].falseList)
  }

  /** Whatever the child may do to a type, the parent may do to the bound of that type, or to the
    * type itself if it has none. */
  ghost predicate StaysWithin(p: Policy, choice: nat -> bool, child: nat, parent: nat) {
    forall t, c, b: int :: Permitted(p, choice, |p.conds|, child, t, c, b) ==>
      && (p.bounds(t) != 0 ==> Permitted(p, choice, |p.conds|, parent, p.bounds(t), c, b))
      && (p.bounds(t) == 0 ==> Permitted(p, choice, |p.conds|, parent, t, c, b))
  }

  lemma {:induction false} GivenBits(p: Policy, rules: seq<Rule>, s: nat, t: nat, c: nat, b: int)
    ensures b in Grant(p, Allows(rules), Triple(s, t, c)) <==> exists r <- rules :: Gives(p, r, s, t, c, b)
  {
    var k := Triple(s, t, c);
    GrantMeaning(p, Allows(rules), k, b);
    AllowsMeaning(rules);
    forall r | r in rules ensures Gives(p, r, s, t, c, b) <==> r in Allows(rules) && Reaches(p, r, k) && b in r.data {
    }
  }

  lemma {:induction false} EffectiveIsPermitted(p: Policy, choice: nat -> bool, n: nat, s: nat, t: nat, c: nat, b: int)
    requires n <= |p.conds|
    ensures b in Effective(p, choice, n, Triple(s, t, c)) <==> Permitted(p, choice, n, s, t, c, b)
  {
    hide Grant, Allows, Gives;
    if n == 0 {
      GivenBits(p, p.te, s, t, c, b);
    } else {
      EffectiveIsPermitted(p, choice, n - 1, s, t, c, b);
      var list := if choice(n - 1) then p.conds[n - 1].trueList else p.conds[n - 1].falseList;
      GivenBits(p, list, s, t, c, b);
    }
  }

  lemma BoundedIsWithin(p: Policy, choice: nat -> bool, child: nat, parent: nat)
    ensures Bounded(p, choice, child, parent) <==> StaysWithin(p, choice, child, parent)
  {
    hide Effective, Permitted;
    forall s: nat, t: nat, c: nat, b: int {
      EffectiveIsPermitted(p, choice, |p.conds|, s, t, c, b);
    }
    if StaysWithin(p, choice, child, parent) {
      forall t: nat, c: nat
        ensures Effective(p, choice, |p.conds|, Triple(child, t, c)) <=
                Effective(p, choice, |p.conds|, Triple(parent, BoundOf(p, t), c))
      {
        forall b: int | b in Effective(p, choice, |p.conds|, Triple(child, t, c))
          ensures b in Effective(p, choice, |p.conds|, Triple(parent, BoundOf(p, t), c))
        {
          assert Permitted(p, choice, |p.conds|, child, t, c, b);
        }
      }
    }
    if Bounded(p, choice, child, parent) {
      forall t: nat, c: nat, b: int | Permitted(p, choice, |p.conds|, child, t, c, b)
        ensures Permitted(p, choice, |p.conds|, parent, BoundOf(p, t), c, b)
      {
        assert b in Effective(p, choice, |p.conds|, Triple(child, t, c));
      }
    }
  }

  // Which conditional rules of the parent may be there?

  /** The policy with the unconditional rules `te` and one conditional, to whose branches allow
    * rules have been added. */
  function Extended(p: Policy, te: seq<Rule>, cond: Conditional, xs: seq<Rule>, ys: seq<Rule>): Policy {
    p.(te := te, conds := [Conditional(cond.trueList + xs, cond.falseList + ys)])
  }

  /** With this conditional the check is sound, whatever other rules the policy has. */
  ghost predicate SoundWith(p: Policy, cond: Conditional, child: nat, parent: nat) {
    forall te: seq<Rule>, xs: seq<Rule>, ys: seq<Rule>, choice: nat -> bool ::
      (forall r <- xs + ys :: r.Allow()) && AllCovered(Extended(p, te, cond, xs, ys), child, parent) ==>
      Bounded(Extended(p, te, cond, xs, ys), choice, child, parent)
  }

  lemma {:induction false} AllowsConcat(a: seq<Rule>, b: seq<Rule>)
    ensures Allows(a + b) == Allows(a) + Allows(b)
  {
    if b == [] {
      assert a + b == a;
    } else {
      var init, last := b[..|b| - 1], b[|b| - 1];
      assert (a + b)[..|a + b| - 1] == a + init;
      AllowsConcat(a, init);
    }
  }

  lemma {:induction false} GrantConcat(p: Policy, a: seq<Rule>, b: seq<Rule>, k: Triple)
    ensures Grant(p, a + b, k) == Grant(p, a, k) + Grant(p, b, k)
  {
    if b == [] {
      assert a + b == a;
    } else {
      var init, last := b[..|b| - 1], b[|b| - 1];
      assert (a + b)[..|a + b| - 1] == a + init;
      GrantConcat(p, a, init, k);
    }
  }

  /** Grants depend on the attributes only. */
  lemma {:induction false} SameGrant(p: Policy, q: Policy, rules: seq<Rule>, k: Triple)
    requires p.members == q.members
    ensures Grant(p, rules, k) == Grant(q, rules, k)
  {
    if rules != [] {
      SameGrant(p, q, rules[..|rules| - 1], k);
    }
  }

  lemma BackedStays(p: Policy, q: Policy, rules: seq<Rule>, xs: seq<Rule>, parent: nat)
    requires p.members == q.members && p.bounds == q.bounds && Backed(p, rules, parent)
    requires forall i :: 0 <= i < |xs| ==> xs[i].Allow()
    ensures Backed(q, rules + xs, parent)
  {
    hide Grant, Allows;
    AllowsAll(xs);
    AllowsConcat(rules, xs);
    forall u, t, c | t in q.members(u)
      ensures Grant(q, rules + xs, Triple(parent, BoundOf(q, t), c)) ==
              Grant(q, Allows(rules + xs), Triple(parent, BoundOf(q, t), c))
    {
      var k := Triple(parent, BoundOf(p, t), c);
      assert t in p.members(u);
      GrantConcat(q, rules, xs, k);
      GrantConcat(q, Allows(rules), xs, k);
      SameGrant(p, q, rules, k);
      SameGrant(p, q, Allows(rules), k);
    }
  }

  /** The excess that a rule of another kind hides: the child gets the permission by an allow rule
    * in the same branch, which the check takes to be covered. */
  lemma HiddenExcess(p: Policy, cond: Conditional, child: nat, parent: nat, branch: bool, u: nat, t: nat, c: nat)
    requires child != parent && p.members(child) == [child] && t in p.members(u) && p.members(t) == [t]
    requires forall r <- cond.trueList + cond.falseList :: child !in p.members(r.key.source)
    requires var list, k := if branch then cond.trueList else cond.falseList, Triple(parent, BoundOf(p, t), c);
             Grant(p, list, k) != Grant(p, Allows(list), k)
    ensures !SoundWith(p, cond, child, parent)
  {
    hide Grant, Allows, AllCovered, Bounded, SoundWith;
    var list, k := if branch then cond.trueList else cond.falseList, Triple(parent, BoundOf(p, t), c);
    var b := Phantom(p, list, k);
    var r := Rule(Triple(child, t, c), ALLOWED, {b});
    var xs, ys := if branch then [r] else [], if branch then [] else [r];
    var q := Extended(p, [], cond, xs, ys);
    assert cond.trueList + [] == cond.trueList && cond.falseList + [] == cond.falseList;
    SameGrant(p, q, list, k);
    GrantConcat(q, list, [r], k);
    HiddenIsCovered(q, cond, r, b, branch, child, parent);
    SameGrant(p, q, Allows(list), k);
    HiddenIsExcess(q, list, r, b, branch, child, parent, _ => branch);
    Unsound(p, cond, child, parent, xs, ys, _ => branch);
  }

  lemma Unsound(p: Policy, cond: Conditional, child: nat, parent: nat, xs: seq<Rule>, ys: seq<Rule>,
      choice: nat -> bool)
    requires forall r <- xs + ys :: r.Allow()
    requires AllCovered(Extended(p, [], cond, xs, ys), child, parent) &&
             !Bounded(Extended(p, [], cond, xs, ys), choice, child, parent)
    ensures !SoundWith(p, cond, child, parent)
  {
    hide AllCovered, Bounded;
  }

  lemma Phantom(p: Policy, list: seq<Rule>, k: Triple) returns (b: int)
    requires Grant(p, list, k) != Grant(p, Allows(list), k)
    ensures b in Grant(p, list, k) && b !in Grant(p, Allows(list), k)
  {
    AllowsMeaning(list);
    forall x: int | x in Grant(p, Allows(list), k) ensures x in Grant(p, list, k) {
      GrantMeaning(p, Allows(list), k, x);
      GrantMeaning(p, list, k, x);
    }
    b := OneOf(Grant(p, list, k) - Grant(p, Allows(list), k));
  }

  lemma HiddenIsCovered(q: Policy, cond: Conditional, r: Rule, b: int, branch: bool, child: nat, parent: nat)
    requires q.te == [] && |q.conds| == 1 && r.data == {b} && q.members(r.key.target) == [r.key.target]
    requires q.conds[0] == if branch then Conditional(cond.trueList + [r], cond.falseList)
             else Conditional(cond.trueList, cond.falseList + [r])
    requires forall x <- cond.trueList + cond.falseList :: child !in q.members(x.key.source)
    requires b in Grant(q, if branch then q.conds[0].trueList else q.conds[0].falseList,
                        Triple(parent, BoundOf(q, r.key.target), r.key.cls))
    ensures AllCovered(q, child, parent)
  {
    hide Grant, Common;
    var c := q.conds[0];
    assert forall x :: x in c.trueList && x != r ==> child !in q.members(x.key.source);
    assert forall x :: x in c.falseList && x != r ==> child !in q.members(x.key.source);
    assert branch ==> forall x :: x in c.falseList ==> child !in q.members(x.key.source);
    assert !branch ==> forall x :: x in c.trueList ==> child !in q.members(x.key.source);
  }

  lemma HiddenIsExcess(q: Policy, list: seq<Rule>, r: Rule, b: int, branch: bool, child: nat, parent: nat,
      choice: nat -> bool)
    requires q.te == [] && |q.conds| == 1 && r.data == {b} && r.specified == ALLOWED && r.key.source == child != parent
    requires q.members(child) == [child] && q.members(r.key.target) == [r.key.target] && choice(0) == branch
    requires (if branch then q.conds[0].trueList else q.conds[0].falseList) == list + [r]
    requires b !in Grant(q, Allows(list), Triple(parent, BoundOf(q, r.key.target), r.key.cls))
    ensures !Bounded(q, choice, child, parent)
  {
    hide Grant, Allows;
    var own, k := Triple(child, r.key.target, r.key.cls), Triple(parent, BoundOf(q, r.key.target), r.key.cls);
    AllowsConcat(list, [r]);
    AllowsAll([r]) by { assert r.Allow(); }
    assert Allows([]) == [] by { AllowsAll([]); }
    GrantConcat(q, Allows(list), [r], own);
    GrantConcat(q, Allows(list), [r], k);
    GrantMeaning(q, [r], own, b);
    GrantMeaning(q, [r], k, b);
    NoRules(q, k);
    assert r in [r] && Reaches(q, r, own);
    assert Effective(q, choice, 1, own) == Effective(q, choice, 0, own) + Grant(q, Allows(list + [r]), own);
    assert Effective(q, choice, 1, k) == Effective(q, choice, 0, k) + Grant(q, Allows(list + [r]), k);
    assert b in Effective(q, choice, 1, own) && b !in Effective(q, choice, 1, k);
  }

  /** For a conditional of the parent the check is sound in all policies exactly when no rule of
    * another kind gives the parent what no allow rule of the same branch gives. */
  lemma SoundWhenBacked(p: Policy, cond: Conditional, child: nat, parent: nat)
    requires child != parent && p.members(child) == [child]
    requires forall u, t :: t in p.members(u) ==> p.members(t) == [t]
    requires forall r <- cond.trueList + cond.falseList :: child !in p.members(r.key.source)
    ensures SoundWith(p, cond, child, parent) <==> Backed(p, cond.trueList, parent) && Backed(p, cond.falseList, parent)
  {
    hide Grant, Allows, AllCovered, Bounded;
    if Backed(p, cond.trueList, parent) && Backed(p, cond.falseList, parent) {
      forall te: seq<Rule>, xs: seq<Rule>, ys: seq<Rule>, choice: nat -> bool
        | (forall r <- xs + ys :: r.Allow()) && AllCovered(Extended(p, te, cond, xs, ys), child, parent)
        ensures Bounded(Extended(p, te, cond, xs, ys), choice, child, parent)
      {
        var q := Extended(p, te, cond, xs, ys);
        assert forall i :: 0 <= i < |xs| ==> xs[i] in xs + ys;
        assert forall i :: 0 <= i < |ys| ==> ys[i] in xs + ys;
        BackedStays(p, q, cond.trueList, xs, parent);
        BackedStays(p, q, cond.falseList, ys, parent);
        CoveredIsBounded(q, child, parent, choice);
      }
    } else {
      var branch := !Backed(p, cond.trueList, parent);
      var list := if branch then cond.trueList else cond.falseList;
      assert !Backed(p, list, parent);
      var u, t, c :| t in p.members(u) &&
        Grant(p, list, Triple(parent, BoundOf(p, t), c)) != Grant(p, Allows(list), Triple(parent, BoundOf(p, t), c));
      HiddenExcess(p, cond, child, parent, branch, u, t, c);
    }
  }

  /** The restriction to allow rules is needed: a conditional auditallow rule of the parent, in
    * both branches, counts as if it allowed. */
  lemma AuditRuleHidesExcess(choice: nat -> bool)
    ensures exists p: Policy :: AllCovered(p, 1, 2) && !AllowOnly(p) && !Bounded(p, choice, 1, 2)
  {
    var grant := Rule(Triple(1, 3, 1), ALLOWED, {0});
    var audit := Rule(Triple(2, 3, 1), AUDITALLOW, {0});
    var p := Policy([grant], [Conditional([audit], [audit])], t => [t], t => 0);
    var k := Triple(2, 3, 1);
    assert Grant(p, [audit], k) == {0} by { GrantMeaning(p, [audit], k, 0); }
    assert p.te[..0] == [] && Allows(p.te) == [grant] && Allows([audit]) == [];
    assert Common(p, 1, k) == Common(p, 0, k) + {0};
    assert Covered(p, p.te, [], 1, 2);
    assert 0 in Effective(p, choice, 1, Triple(1, 3, 1)) by { GrantMeaning(p, [grant], Triple(1, 3, 1), 0); }
    assert Effective(p, choice, 1, k) == {} by { assert Grant(p, [grant], k) == {}; }
    assert !AllowOnly(p);
  }

  // The tables bounds_check_type builds hold allow nodes only, so a table is its masks.

  ghost function Masks(t: Avtab): imap<Triple, Word>
    reads t`nodes, t.nodes`specified, t.nodes`data
  {
    imap k: Triple :: Mask(t, k, ALLOWED)
  }

  /** Tables that do not share memory. */
  ghost predicate Apart(a: Avtab, b: Avtab)
    reads a`nodes, b`nodes
  {
    a != b && a.htable != b.htable && a.nodes !! b.nodes
  }

  /** bounds_insert_helper: the insertion cannot fail, because a search just found nothing. */
  method InsertNew(t: Avtab, k: Triple, data: Word)
    requires t.Valid() && AvTable(t) && !HasNode(t, k, ALLOWED)
    modifies t, t.htable, t.nodes`next
    ensures t.Valid() && AvTable(t) && fresh(t.nodes - old(t.nodes))
    ensures forall j :: Mask(t, j, ALLOWED) == if j == k then data else old(Mask(t, j, ALLOWED))
  {
    hide Avtab.Valid, Avtab.Group, Overlaps;
    t.GroupMembers(k);
    forall n <- t.nodes ensures Overlaps(ALLOWED, n.specified) <==> n.specified == ALLOWED {
      KindOverlap(ALLOWED, n.specified);
    }
    var rc;
    ghost var node, pos;
    rc, node, pos := t.Insert(k, ALLOWED, data, None);
    assert rc == 0;
  }

  /** `dup->data |= data`, or the insertion of a new node. */
  method OrInto(t: Avtab, k: Triple, data: Word)
    requires t.Valid() && AvTable(t)
    modifies t, t.htable, t.nodes`next, t.nodes`data
    ensures t.Valid() && AvTable(t) && fresh(t.nodes - old(t.nodes))
    ensures forall j :: Mask(t, j, ALLOWED) == old(Mask(t, j, ALLOWED)) + if j == k then data else {}
  {
    hide Avtab.Valid, Avtab.Group;
    var dup := FindNode(t, k, ALLOWED);
    if dup == null {
      InsertNew(t, k, data);
    } else {
      dup.data := dup.data + data;
    }
  }

  /** What the first `n` targets of a rule contribute to the parent's table. */
  ghost function Share(p: Policy, r: Rule, parent: nat, n: nat, k: Triple): Word
    requires n <= |p.members(r.key.target)|
  {
    if k.source == parent && parent in p.members(r.key.source) && k.target in p.members(r.key.target)[..n]
       && k.cls == r.key.cls then r.data else {}
  }

  /** bounds_expand_rule with no other table. */
  method ExpandRule(p: Policy, parent: nat, r: Rule, t: Avtab)
    requires t.Valid() && AvTable(t)
    modifies t, t.htable, t.nodes`next, t.nodes`data
    ensures t.Valid() && AvTable(t) && fresh(t.nodes - old(t.nodes))
    ensures forall k :: Mask(t, k, ALLOWED) ==
              old(Mask(t, k, ALLOWED)) + Share(p, r, parent, |p.members(r.key.target)|, k)
  {
    hide Avtab.Valid, AvTable, Mask;
    if parent in p.members(r.key.source) {
      var targets := p.members(r.key.target);
      for j := 0 to |targets|
        invariant t.Valid() && AvTable(t) && fresh(t.nodes - old(t.nodes))
        invariant forall k :: Mask(t, k, ALLOWED) == old(Mask(t, k, ALLOWED)) + Share(p, r, parent, j, k)
      {
        OrInto(t, Triple(parent, targets[j], r.key.cls), r.data);
        assert targets[..j + 1] == targets[..j] + [targets[j]];
      }
    }
  }

  /** bounds_expand_rule for a false list: what it shares with the true table of the same
    * conditional (`other`) also goes into the global table. */
  method ExpandFalseRule(p: Policy, parent: nat, r: Rule, t: Avtab, global: Avtab, other: Avtab)
    requires t.Valid() && AvTable(t) && global.Valid() && AvTable(global) && other.Valid() && AvTable(other)
    requires Apart(t, global) && Apart(t, other) && Apart(global, other)
    modifies t, t.htable, t.nodes`next, t.nodes`data
    modifies global, global.htable, global.nodes`next, global.nodes`data
    ensures t.Valid() && AvTable(t) && fresh(t.nodes - old(t.nodes))
    ensures global.Valid() && AvTable(global) && fresh(global.nodes - old(global.nodes))
    ensures Apart(t, global)
    ensures forall k :: Mask(t, k, ALLOWED) ==
              old(Mask(t, k, ALLOWED)) + Share(p, r, parent, |p.members(r.key.target)|, k)
    ensures forall k :: Mask(global, k, ALLOWED) == old(Mask(global, k, ALLOWED)) +
              Mask(other, k, ALLOWED) * Share(p, r, parent, |p.members(r.key.target)|, k)
  {
    hide Avtab.Valid, AvTable, Mask;
    if parent in p.members(r.key.source) {
      var targets := p.members(r.key.target);
      for j := 0 to |targets|
        invariant t.Valid() && AvTable(t) && fresh(t.nodes - old(t.nodes))
        invariant global.Valid() && AvTable(global) && fresh(global.nodes - old(global.nodes))
        invariant Apart(t, global)
        invariant forall k :: Mask(t, k, ALLOWED) == old(Mask(t, k, ALLOWED)) + Share(p, r, parent, j, k)
        invariant forall k :: Mask(global, k, ALLOWED) == old(Mask(global, k, ALLOWED)) +
                    Mask(other, k, ALLOWED) * Share(p, r, parent, j, k)
      {
        InsertFalse(t, global, other, Triple(parent, targets[j], r.key.cls), r.data);
        assert targets[..j + 1] == targets[..j] + [targets[j]];
      }
    }
  }

  /** bounds_insert_rule with the other tables given. */
  method InsertFalse(t: Avtab, global: Avtab, other: Avtab, k: Triple, data: Word)
    requires t.Valid() && AvTable(t) && global.Valid() && AvTable(global) && other.Valid() && AvTable(other)
    requires Apart(t, global) && Apart(t, other) && Apart(global, other)
    modifies t, t.htable, t.nodes`next, t.nodes`data
    modifies global, global.htable, global.nodes`next, global.nodes`data
    ensures t.Valid() && AvTable(t) && fresh(t.nodes - old(t.nodes))
    ensures global.Valid() && AvTable(global) && fresh(global.nodes - old(global.nodes))
    ensures Apart(t, global)
    ensures forall j :: Mask(t, j, ALLOWED) == old(Mask(t, j, ALLOWED)) + if j == k then data else {}
    ensures forall j :: Mask(global, j, ALLOWED) == old(Mask(global, j, ALLOWED)) +
              if j == k then Mask(other, k, ALLOWED) * data else {}
  {
    hide Avtab.Valid, AvTable, Mask;
    OrInto(t, k, data);
    var dup := FindNode(other, k, ALLOWED);
    if dup != null {
      var common := dup.data * data;
      if common != {} {
        OrInto(global, k, common);
      }
    } else {
      NoNode(other, k);
    }
  }

  lemma NoNode(t: Avtab, k: Triple)
    requires !HasNode(t, k, ALLOWED)
    ensures Mask(t, k, ALLOWED) == {}
  {
  }

  /** The parent's table for a list of rules: their grants, under the parent as source. */
  ghost function ParentGrant(p: Policy, rules: seq<Rule>, parent: nat, k: Triple): Word {
    if k.source == parent then Grant(p, rules, k) else {}
  }

  lemma GrantStep(p: Policy, rules: seq<Rule>, i: nat, parent: nat, k: Triple)
    requires i < |rules|
    ensures ParentGrant(p, rules[..i + 1], parent, k) ==
            ParentGrant(p, rules[..i], parent, k) + Share(p, rules[i], parent, |p.members(rules[i].key.target)|, k)
  {
    assert rules[..i + 1][..i] == rules[..i];
    var targets := p.members(rules[i].key.target);
    assert targets[..|targets|] == targets;
  }

  /** bounds_expand_cond_rules for a true list. */
  method ExpandList(p: Policy, parent: nat, rules: seq<Rule>, t: Avtab)
    requires t.Valid() && AvTable(t)
    modifies t, t.htable, t.nodes`next, t.nodes`data
    ensures t.Valid() && AvTable(t) && fresh(t.nodes - old(t.nodes))
    ensures forall k :: Mask(t, k, ALLOWED) == old(Mask(t, k, ALLOWED)) + ParentGrant(p, rules, parent, k)
  {
    hide Avtab.Valid, AvTable, Mask, Share;
    for i := 0 to |rules|
      invariant t.Valid() && AvTable(t) && fresh(t.nodes - old(t.nodes))
      invariant forall k :: Mask(t, k, ALLOWED) == old(Mask(t, k, ALLOWED)) + ParentGrant(p, rules[..i], parent, k)
    {
      ExpandRule(p, parent, rules[i], t);
      forall k { GrantStep(p, rules, i, parent, k); }
    }
    assert rules[..|rules|] == rules;
  }

  /** bounds_expand_cond_rules for a false list. */
  method ExpandFalseList(p: Policy, parent: nat, rules: seq<Rule>, t: Avtab, global: Avtab, other: Avtab)
    requires t.Valid() && AvTable(t) && global.Valid() && AvTable(global) && other.Valid() && AvTable(other)
    requires Apart(t, global) && Apart(t, other) && Apart(global, other)
    modifies t, t.htable, t.nodes`next, t.nodes`data
    modifies global, global.htable, global.nodes`next, global.nodes`data
    ensures t.Valid() && AvTable(t) && fresh(t.nodes - old(t.nodes))
    ensures global.Valid() && AvTable(global) && fresh(global.nodes - old(global.nodes))
    ensures Apart(t, global)
    ensures forall k :: Mask(t, k, ALLOWED) == old(Mask(t, k, ALLOWED)) + ParentGrant(p, rules, parent, k)
    ensures forall k :: Mask(global, k, ALLOWED) == old(Mask(global, k, ALLOWED)) +
              Mask(other, k, ALLOWED) * ParentGrant(p, rules, parent, k)
  {
    hide Avtab.Valid, AvTable, Mask, Share;
    for i := 0 to |rules|
      invariant t.Valid() && AvTable(t) && fresh(t.nodes - old(t.nodes))
      invariant global.Valid() && AvTable(global) && fresh(global.nodes - old(global.nodes))
      invariant Apart(t, global)
      invariant forall k :: Mask(t, k, ALLOWED) == old(Mask(t, k, ALLOWED)) + ParentGrant(p, rules[..i], parent, k)
      invariant forall k :: Mask(global, k, ALLOWED) == old(Mask(global, k, ALLOWED)) +
                  Mask(other, k, ALLOWED) * ParentGrant(p, rules[..i], parent, k)
    {
      ExpandFalseRule(p, parent, rules[i], t, global, other);
      forall k { GrantStep(p, rules, i, parent, k); }
    }
    assert rules[..|rules|] == rules;
  }

  lemma AllowsStep(p: Policy, rules: seq<Rule>, r: Rule, parent: nat, k: Triple)
    ensures ParentGrant(p, Allows(rules + [r]), parent, k) == ParentGrant(p, Allows(rules), parent, k) +
              if r.Allow() then Share(p, r, parent, |p.members(r.key.target)|, k) else {}
  {
    assert (rules + [r])[..|rules|] == rules;
    if r.Allow() {
      var allows := Allows(rules) + [r];
      assert allows[..|allows| - 1] == Allows(rules) && allows[..|allows|] == allows;
      GrantStep(p, allows, |allows| - 1, parent, k);
    } else {
      assert Allows(rules + [r]) == Allows(rules);
    }
  }

  /** avtab_map with bounds_expand_rule_callback: only allow rules count. */
  method ExpandAllows(p: Policy, parent: nat, t: Avtab)
    requires t.Valid() && AvTable(t)
    modifies t, t.htable, t.nodes`next, t.nodes`data
    ensures t.Valid() && AvTable(t) && fresh(t.nodes - old(t.nodes))
    ensures forall k :: Mask(t, k, ALLOWED) == old(Mask(t, k, ALLOWED)) + ParentGrant(p, Allows(p.te), parent, k)
  {
    hide Avtab.Valid, AvTable, Mask, Share;
    for i := 0 to |p.te|
      invariant t.Valid() && AvTable(t) && fresh(t.nodes - old(t.nodes))
      invariant forall k :: Mask(t, k, ALLOWED) ==
                  old(Mask(t, k, ALLOWED)) + ParentGrant(p, Allows(p.te[..i]), parent, k)
    {
      assert p.te[..i + 1] == p.te[..i] + [p.te[i]] && p.te[..i + 1][..i] == p.te[..i];
      if p.te[i].Allow() {
        ExpandRule(p, parent, p.te[i], t);
      }
      forall k
        ensures ParentGrant(p, Allows(p.te[..i + 1]), parent, k) == ParentGrant(p, Allows(p.te[..i]), parent, k) +
                  if p.te[i].Allow() then Share(p, p.te[i], parent, |p.members(p.te[i].key.target)|, k) else {}
      {
        AllowsStep(p, p.te[..i], p.te[i], parent, k);
      }
    }
    assert p.te[..|p.te|] == p.te;
  }

  /** struct bounds_cond_info: the parent's tables for the two branches of a conditional. */
  datatype CondInfo = CondInfo(trueTable: Avtab, falseTable: Avtab, cond: Conditional)

  ghost predicate InfoFor(p: Policy, info: CondInfo, parent: nat)
    reads info.trueTable, info.trueTable.htable, info.trueTable.nodes, info.falseTable, info.falseTable.htable,
          info.falseTable.nodes
  {
    && info.trueTable.Valid() && AvTable(info.trueTable) && info.falseTable.Valid() && AvTable(info.falseTable)
    && (forall k :: Mask(info.trueTable, k, ALLOWED) == ParentGrant(p, info.cond.trueList, parent, k))
    && (forall k :: Mask(info.falseTable, k, ALLOWED) == ParentGrant(p, info.cond.falseList, parent, k))
  }

  method NewTable(nslot: nat, slotOf: Triple -> nat) returns (t: Avtab)
    requires 0 < nslot && forall k :: slotOf(k) < nslot
    ensures t.Valid() && AvTable(t) && fresh(t) && fresh(t.htable) && t.nodes == {}
    ensures forall k :: Mask(t, k, ALLOWED) == {}
  {
    t := new Avtab(nslot, slotOf);
  }

  method TrueTable(p: Policy, parent: nat, rules: seq<Rule>, nslot: nat, slotOf: Triple -> nat) returns (t: Avtab)
    requires 0 < nslot && forall k :: slotOf(k) < nslot
    ensures t.Valid() && AvTable(t) && fresh(t) && fresh(t.htable) && fresh(t.nodes)
    ensures forall k :: Mask(t, k, ALLOWED) == ParentGrant(p, rules, parent, k)
  {
    hide Avtab.Valid, AvTable, Mask, ParentGrant;
    t := NewTable(nslot, slotOf);
    ExpandList(p, parent, rules, t);
  }

  method FalseTable(p: Policy, parent: nat, rules: seq<Rule>, global: Avtab, other: Avtab,
                    nslot: nat, slotOf: Triple -> nat)
    returns (t: Avtab)
    requires global.Valid() && AvTable(global) && other.Valid() && AvTable(other) && Apart(global, other)
    requires 0 < nslot && forall k :: slotOf(k) < nslot
    modifies global, global.htable, global.nodes`next, global.nodes`data
    ensures global.Valid() && AvTable(global) && fresh(global.nodes - old(global.nodes))
    ensures t.Valid() && AvTable(t) && fresh(t) && fresh(t.htable) && fresh(t.nodes) && Apart(t, global)
    ensures forall k :: Mask(t, k, ALLOWED) == ParentGrant(p, rules, parent, k)
    ensures forall k :: Mask(global, k, ALLOWED) == old(Mask(global, k, ALLOWED)) +
              Mask(other, k, ALLOWED) * ParentGrant(p, rules, parent, k)
  {
    hide Avtab.Valid, AvTable, Mask, ParentGrant;
    t := NewTable(nslot, slotOf);
    ExpandFalseList(p, parent, rules, t, global, other);
  }

  /** One round of the loop of bounds_expand_parent_rules. */
  method ExpandConditional(p: Policy, parent: nat, cond: Conditional, global: Avtab,
                           nslot: nat, slotOf: Triple -> nat)
    returns (info: CondInfo)
    requires global.Valid() && AvTable(global)
    requires 0 < nslot && forall k :: slotOf(k) < nslot
    modifies global, global.htable, global.nodes`next, global.nodes`data
    ensures global.Valid() && AvTable(global) && fresh(global.nodes - old(global.nodes))
    ensures InfoFor(p, info, parent) && info.cond == cond
    ensures fresh(info.trueTable) && fresh(info.trueTable.htable) && fresh(info.trueTable.nodes)
    ensures fresh(info.falseTable) && fresh(info.falseTable.htable) && fresh(info.falseTable.nodes)
    ensures Apart(info.trueTable, global) && Apart(info.falseTable, global)
    ensures forall k :: Mask(global, k, ALLOWED) == old(Mask(global, k, ALLOWED)) +
              ParentGrant(p, cond.trueList, parent, k) * ParentGrant(p, cond.falseList, parent, k)
  {
    hide Avtab.Valid, AvTable, Mask, ParentGrant;
    var yes := TrueTable(p, parent, cond.trueList, nslot, slotOf);
    var no := FalseTable(p, parent, cond.falseList, global, yes, nslot, slotOf);
    info := CondInfo(yes, no, cond);
  }

  /** The list of infos grows at the front, so it is the conditionals backwards. */
  function CondsOf(infos: seq<CondInfo>): seq<Conditional> {
    if infos == [] then [] else CondsOf(infos[1..]) + [infos[0].cond]
  }

  ghost function ParentCommon(p: Policy, n: nat, parent: nat, k: Triple): Word
    requires n <= |p.conds|
  {
    if k.source == parent then Common(p, n, k) else {}
  }

  lemma CommonStep(p: Policy, n: nat, parent: nat, k: Triple)
    requires n < |p.conds|
    ensures ParentCommon(p, n + 1, parent, k) == ParentCommon(p, n, parent, k) +
              ParentGrant(p, p.conds[n].trueList, parent, k) * ParentGrant(p, p.conds[n].falseList, parent, k)
  {
  }

  lemma CommonStart(p: Policy, parent: nat, k: Triple)
    ensures ParentCommon(p, 0, parent, k) == {} + ParentGrant(p, Allows(p.te), parent, k)
  {
  }

  /** The state bounds_expand_parent_rules leaves after `n` conditionals. */
  ghost predicate Prepared(p: Policy, parent: nat, n: nat, global: Avtab, infos: seq<CondInfo>)
    requires n <= |p.conds|
    reads global, global.htable, global.nodes
    reads set i <- infos :: i.trueTable, set i <- infos :: i.trueTable.htable, set i <- infos,
          m <- i.trueTable.nodes :: m
    reads set i <- infos :: i.falseTable, set i <- infos :: i.falseTable.htable, set i <- infos,
          m <- i.falseTable.nodes :: m
  {
    && global.Valid() && AvTable(global)
    && (forall k :: Mask(global, k, ALLOWED) == ParentCommon(p, n, parent, k))
    && (forall info <- infos :: InfoFor(p, info, parent))
    && CondsOf(infos) == p.conds[..n]
  }

  ghost predicate AllApart(global: Avtab, infos: seq<CondInfo>)
    reads global`nodes, (set i <- infos :: i.trueTable)`nodes, (set i <- infos :: i.falseTable)`nodes
  {
    forall info <- infos :: Apart(info.trueTable, global) && Apart(info.falseTable, global)
  }

  lemma PreparedStart(p: Policy, parent: nat, global: Avtab)
    requires global.Valid() && AvTable(global)
    requires forall k :: Mask(global, k, ALLOWED) == {} + ParentGrant(p, Allows(p.te), parent, k)
    ensures Prepared(p, parent, 0, global, [])
  {
    hide Avtab.Valid, AvTable, Mask, Allows, ParentCommon, ParentGrant;
    forall k { CommonStart(p, parent, k); }
  }

  /** The loop body of bounds_expand_parent_rules. */
  method AddInfo(p: Policy, parent: nat, i: nat, global: Avtab, infos: seq<CondInfo>,
                 nslot: nat, slotOf: Triple -> nat)
    returns (more: seq<CondInfo>)
    requires i < |p.conds| && Prepared(p, parent, i, global, infos) && AllApart(global, infos)
    requires 0 < nslot && forall k :: slotOf(k) < nslot
    modifies global, global.htable, global.nodes`next, global.nodes`data
    ensures Prepared(p, parent, i + 1, global, more) && AllApart(global, more)
    ensures fresh(global.nodes - old(global.nodes))
  {
    hide Avtab.Valid, AvTable, Mask, InfoFor, Allows, ParentCommon, ParentGrant;
    var info := ExpandConditional(p, parent, p.conds[i], global, nslot, slotOf);
    assert forall e <- infos :: InfoFor(p, e, parent);
    forall k { CommonStep(p, i, parent, k); }
    more := [info] + infos;
    assert more[1..] == infos;
  }

  /** bounds_expand_parent_rules. */
  method ExpandParentRules(p: Policy, parent: nat, nslot: nat, slotOf: Triple -> nat)
    returns (global: Avtab, infos: seq<CondInfo>)
    requires 0 < nslot && forall k :: slotOf(k) < nslot
    ensures Prepared(p, parent, |p.conds|, global, infos)
  {
    hide Avtab.Valid, AvTable, Mask, ParentGrant, Prepared;
    global := NewTable(nslot, slotOf);
    ExpandAllows(p, parent, global);
    infos := [];
    PreparedStart(p, parent, global);
    for i := 0 to |p.conds|
      invariant fresh(global) && fresh(global.htable) && fresh(global.nodes)
      invariant Prepared(p, parent, i, global, infos) && AllApart(global, infos)
    {
      infos := AddInfo(p, parent, i, global, infos, nslot, slotOf);
    }
  }

  /** bounds_not_covered. */
  method NotCovered(global: Avtab?, cur: Avtab, k: Triple, data: Word) returns (d: Word)
    requires cur.Valid() && AvTable(cur) && (global != null ==> global.Valid() && AvTable(global))
    ensures d == data - Mask(cur, k, ALLOWED) - (if global != null then Mask(global, k, ALLOWED) else {})
  {
    hide Avtab.Valid;
    d := data;
    var datum := FindNode(cur, k, ALLOWED);
    if datum != null {
      d := d - datum.data;
    }
    if global != null && d != {} {
      datum := FindNode(global, k, ALLOWED);
      if datum != null {
        d := d - datum.data;
      }
    }
  }

  /** One entry of the list of bad rules. */
  datatype Bad = Bad(child: nat, target: nat, cls: nat, data: Word)

  /** The excess of one child rule, over the first `n` of its targets. */
  ghost function RuleExcess(p: Policy, branch: seq<Rule>, r: Rule, child: nat, parent: nat, n: nat): set<Bad>
    requires n <= |p.members(r.key.target)|
  {
    if child !in p.members(r.key.source) then {}
    else set t | t in p.members(r.key.target)[..n] && Uncovered(p, branch, r, parent, t) != {} ::
           Bad(child, t, r.key.cls, Uncovered(p, branch, r, parent, t))
  }

  /** What the check of a list must find: the excess of its allow rules. */
  ghost function Excess(p: Policy, rules: seq<Rule>, branch: seq<Rule>, child: nat, parent: nat): set<Bad> {
    set r, t | r in rules && r.Allow() && child in p.members(r.key.source) && t in p.members(r.key.target)
               && Uncovered(p, branch, r, parent, t) != {} ::
      Bad(child, t, r.key.cls, Uncovered(p, branch, r, parent, t))
  }

  lemma ExcessIsUncovered(p: Policy, rules: seq<Rule>, branch: seq<Rule>, child: nat, parent: nat)
    ensures Excess(p, rules, branch, child, parent) == {} <==> Covered(p, rules, branch, child, parent)
  {
    if Excess(p, rules, branch, child, parent) == {} {
      forall r, t | r in rules && r.Allow() && child in p.members(r.key.source) && t in p.members(r.key.target)
        ensures Uncovered(p, branch, r, parent, t) == {}
      {
        var e := Bad(child, t, r.key.cls, Uncovered(p, branch, r, parent, t));
        assert Uncovered(p, branch, r, parent, t) != {} ==> e in Excess(p, rules, branch, child, parent);
      }
    }
  }

  ghost function BadSet(bad: seq<Bad>): set<Bad> {
    set e <- bad
  }

  /** The two tables together cover the branch and what the parent has in common. */
  ghost predicate Covers(p: Policy, parent: nat, branch: seq<Rule>, global: Avtab?, cur: Avtab)
    reads cur, cur.htable, cur.nodes
    reads if global == null then {} else {global, global.htable}
    reads if global == null then {} else global.nodes
  {
    && cur.Valid() && AvTable(cur)
    && (global != null ==> global.Valid() && AvTable(global))
    && forall k: Triple :: k.source == parent ==>
         Mask(cur, k, ALLOWED) + (if global != null then Mask(global, k, ALLOWED) else {}) ==
         Grant(p, branch, k) + Common(p, |p.conds|, k)
  }

  method CheckTarget(p: Policy, global: Avtab?, cur: Avtab, ghost branch: seq<Rule>, parent: nat, r: Rule, t: nat)
    returns (d: Word)
    requires Covers(p, parent, branch, global, cur)
    ensures d == Uncovered(p, branch, r, parent, t)
  {
    hide Avtab.Valid, AvTable, Mask, Grant, Common;
    var k := Triple(parent, BoundOf(p, t), r.key.cls);
    d := NotCovered(global, cur, k, r.data);
    assert d == r.data - (Mask(cur, k, ALLOWED) + if global != null then Mask(global, k, ALLOWED) else {});
  }

  lemma RuleExcessStep(p: Policy, branch: seq<Rule>, r: Rule, child: nat, parent: nat, i: nat)
    requires child in p.members(r.key.source) && i < |p.members(r.key.target)|
    ensures var t := p.members(r.key.target)[i];
            var d := Uncovered(p, branch, r, parent, t);
            RuleExcess(p, branch, r, child, parent, i + 1) == RuleExcess(p, branch, r, child, parent, i) +
              if d != {} then {Bad(child, t, r.key.cls, d)} else {}
  {
    hide Uncovered;
    var targets := p.members(r.key.target);
    assert targets[..i + 1] == targets[..i] + [targets[i]];
  }

  /** bounds_check_rule. */
  method CheckRule(p: Policy, global: Avtab?, cur: Avtab, ghost branch: seq<Rule>, child: nat, parent: nat,
                   r: Rule, bad: seq<Bad>, numbad: nat)
    returns (more: seq<Bad>, count: nat)
    requires Covers(p, parent, branch, global, cur) && numbad == |bad|
    ensures BadSet(more) == BadSet(bad) + RuleExcess(p, branch, r, child, parent, |p.members(r.key.target)|)
    ensures count == |more|
  {
    hide Covers, Uncovered, RuleExcess;
    more, count := bad, numbad;
    RuleExcessStart(p, branch, r, child, parent);
    if child in p.members(r.key.source) {
      var targets := p.members(r.key.target);
      for i := 0 to |targets|
        invariant Covers(p, parent, branch, global, cur) && count == |more|
        invariant BadSet(more) == BadSet(bad) + RuleExcess(p, branch, r, child, parent, i)
      {
        var d := CheckTarget(p, global, cur, branch, parent, r, targets[i]);
        RuleExcessStep(p, branch, r, child, parent, i);
        if d != {} {
          var e := Bad(child, targets[i], r.key.cls, d);
          assert BadSet([e] + more) == {e} + BadSet(more);
          more, count := [e] + more, count + 1;
        }
      }
    }
  }

  lemma RuleExcessStart(p: Policy, branch: seq<Rule>, r: Rule, child: nat, parent: nat)
    ensures RuleExcess(p, branch, r, child, parent, 0) == {}
    ensures child !in p.members(r.key.source) ==>
              RuleExcess(p, branch, r, child, parent, |p.members(r.key.target)|) == {}
  {
  }

  lemma ExcessStep(p: Policy, rules: seq<Rule>, i: nat, branch: seq<Rule>, child: nat, parent: nat)
    requires i < |rules|
    ensures Excess(p, rules[..i + 1], branch, child, parent) == Excess(p, rules[..i], branch, child, parent) +
              if rules[i].Allow() then RuleExcess(p, branch, rules[i], child, parent, |p.members(rules[i].key.target)|)
              else {}
  {
    hide Uncovered;
    var targets := p.members(rules[i].key.target);
    assert targets[..|targets|] == targets;
    assert rules[..i + 1] == rules[..i] + [rules[i]];
  }

  /** bounds_check_cond_rules, and avtab_map with bounds_check_rule_callback. */
  method CheckList(p: Policy, global: Avtab?, cur: Avtab, ghost branch: seq<Rule>, child: nat, parent: nat,
                   rules: seq<Rule>, bad: seq<Bad>, numbad: nat)
    returns (more: seq<Bad>, count: nat)
    requires Covers(p, parent, branch, global, cur) && numbad == |bad|
    ensures BadSet(more) == BadSet(bad) + Excess(p, rules, branch, child, parent)
    ensures count == |more|
  {
    hide Covers, RuleExcess;
    more, count := bad, numbad;
    for i := 0 to |rules|
      invariant Covers(p, parent, branch, global, cur) && count == |more|
      invariant BadSet(more) == BadSet(bad) + Excess(p, rules[..i], branch, child, parent)
    {
      if rules[i].Allow() {
        more, count := CheckRule(p, global, cur, branch, child, parent, rules[i], more, count);
      }
      ExcessStep(p, rules, i, branch, child, parent);
    }
    assert rules[..|rules|] == rules;
  }

  /** All that the check must report: the child's excess by unconditional rules, and by each
    * branch over the parent's same branch. */
  ghost function AllExcess(p: Policy, conds: seq<Conditional>, child: nat, parent: nat): set<Bad> {
    if conds == [] then Excess(p, p.te, [], child, parent)
    else
      var c := conds[|conds| - 1];
      AllExcess(p, conds[..|conds| - 1], child, parent) + Excess(p, c.trueList, c.trueList, child, parent)
        + Excess(p, c.falseList, c.falseList, child, parent)
  }

  lemma {:induction false} AllExcessMeaning(p: Policy, conds: seq<Conditional>, child: nat, parent: nat, e: Bad)
    ensures e in AllExcess(p, conds, child, parent) <==>
              || e in Excess(p, p.te, [], child, parent)
              || exists c <- conds :: e in Excess(p, c.trueList, c.trueList, child, parent)
                                      || e in Excess(p, c.falseList, c.falseList, child, parent)
  {
    hide Excess;
    if conds != [] {
      AllExcessMeaning(p, conds[..|conds| - 1], child, parent, e);
      assert conds == conds[..|conds| - 1] + [conds[|conds| - 1]];
    }
  }

  /** The order in which the conditionals are checked does not matter. */
  lemma AllExcessOrder(p: Policy, c1: seq<Conditional>, c2: seq<Conditional>, child: nat, parent: nat)
    requires forall c :: c in c1 <==> c in c2
    ensures AllExcess(p, c1, child, parent) == AllExcess(p, c2, child, parent)
  {
    hide Excess, AllExcess;
    forall e ensures e in AllExcess(p, c1, child, parent) <==> e in AllExcess(p, c2, child, parent) {
      AllExcessMeaning(p, c1, child, parent, e);
      AllExcessMeaning(p, c2, child, parent, e);
    }
  }

  lemma {:induction false} NoExcess(p: Policy, conds: seq<Conditional>, child: nat, parent: nat)
    ensures AllExcess(p, conds, child, parent) == {} <==>
              && Covered(p, p.te, [], child, parent)
              && forall c <- conds :: Covered(p, c.trueList, c.trueList, child, parent)
                                      && Covered(p, c.falseList, c.falseList, child, parent)
  {
    hide Excess, Covered;
    ExcessIsUncovered(p, p.te, [], child, parent);
    if conds != [] {
      var init, c := conds[..|conds| - 1], conds[|conds| - 1];
      NoExcess(p, init, child, parent);
      ExcessIsUncovered(p, c.trueList, c.trueList, child, parent);
      ExcessIsUncovered(p, c.falseList, c.falseList, child, parent);
      assert conds == init + [c];
      UnionEmpty(AllExcess(p, init, child, parent), Excess(p, c.trueList, c.trueList, child, parent),
                 Excess(p, c.falseList, c.falseList, child, parent));
    }
  }

  lemma UnionEmpty(a: set<Bad>, b: set<Bad>, c: set<Bad>)
    ensures a + b + c == {} <==> a == {} && b == {} && c == {}
  {
    assert forall e :: e in a + b + c <==> e in a || e in b || e in c;
    assert forall e <- a :: e in a + b + c;
    assert forall e <- b :: e in a + b + c;
    assert forall e <- c :: e in a + b + c;
  }

  ghost function CondList(infos: seq<CondInfo>): seq<Conditional> {
    seq(|infos|, i requires 0 <= i < |infos| => infos[i].cond)
  }

  lemma {:induction false} CondListMembers(infos: seq<CondInfo>)
    ensures forall c :: c in CondList(infos) <==> c in CondsOf(infos)
  {
    if infos != [] {
      CondListMembers(infos[1..]);
      assert CondList(infos) == [infos[0].cond] + CondList(infos[1..]);
    }
  }

  lemma PreparedCovers(p: Policy, parent: nat, global: Avtab, infos: seq<CondInfo>)
    requires Prepared(p, parent, |p.conds|, global, infos)
    ensures Covers(p, parent, [], null, global)
    ensures forall info <- infos ::
              && Covers(p, parent, info.cond.trueList, global, info.trueTable)
              && Covers(p, parent, info.cond.falseList, global, info.falseTable)
  {
    hide Avtab.Valid, AvTable, Mask, Grant, Common;
    forall k: Triple { NoRules(p, k); }
  }

  /** The loop body of bounds_check_child_rules. */
  method CheckInfo(p: Policy, global: Avtab, info: CondInfo, child: nat, parent: nat, bad: seq<Bad>, numbad: nat)
    returns (more: seq<Bad>, count: nat)
    requires Covers(p, parent, info.cond.trueList, global, info.trueTable)
    requires Covers(p, parent, info.cond.falseList, global, info.falseTable) && numbad == |bad|
    ensures BadSet(more) == BadSet(bad)
              + Excess(p, info.cond.trueList, info.cond.trueList, child, parent)
              + Excess(p, info.cond.falseList, info.cond.falseList, child, parent)
    ensures count == |more|
  {
    hide Covers, Excess, BadSet;
    more, count := CheckList(p, global, info.trueTable, info.cond.trueList, child, parent,
                             info.cond.trueList, bad, numbad);
    more, count := CheckList(p, global, info.falseTable, info.cond.falseList, child, parent,
                             info.cond.falseList, more, count);
  }

  lemma AllExcessStep(p: Policy, infos: seq<CondInfo>, i: nat, child: nat, parent: nat)
    requires i < |infos|
    ensures var c := infos[i].cond;
            AllExcess(p, CondList(infos[..i + 1]), child, parent) == AllExcess(p, CondList(infos[..i]), child, parent)
              + Excess(p, c.trueList, c.trueList, child, parent) + Excess(p, c.falseList, c.falseList, child, parent)
  {
    hide Excess;
    assert CondList(infos[..i + 1])[..i] == CondList(infos[..i]);
  }

  /** bounds_check_child_rules. */
  method CheckChildRules(p: Policy, global: Avtab, infos: seq<CondInfo>, child: nat, parent: nat)
    returns (bad: seq<Bad>, numbad: nat)
    requires Prepared(p, parent, |p.conds|, global, infos)
    ensures BadSet(bad) == AllExcess(p, p.conds, child, parent) && numbad == |bad|
  {
    hide Prepared, Covers, Excess, BadSet, AllExcess;
    PreparedCovers(p, parent, global, infos);
    bad, numbad := [], 0;
    bad, numbad := CheckList(p, null, global, [], child, parent, p.te, bad, numbad);
    NoBad(p, child, parent);
    for i := 0 to |infos|
      invariant forall info <- infos ::
                  && Covers(p, parent, info.cond.trueList, global, info.trueTable)
                  && Covers(p, parent, info.cond.falseList, global, info.falseTable)
      invariant BadSet(bad) == AllExcess(p, CondList(infos[..i]), child, parent) && numbad == |bad|
    {
      bad, numbad := CheckInfo(p, global, infos[i], child, parent, bad, numbad);
      AllExcessStep(p, infos, i, child, parent);
    }
    assert infos[..|infos|] == infos;
    PreparedConds(p, parent, global, infos);
    AllExcessOrder(p, CondList(infos), p.conds, child, parent);
  }

  lemma NoBad(p: Policy, child: nat, parent: nat)
    ensures BadSet([]) == {} && AllExcess(p, CondList([]), child, parent) == {} + Excess(p, p.te, [], child, parent)
  {
  }

  lemma PreparedConds(p: Policy, parent: nat, global: Avtab, infos: seq<CondInfo>)
    requires Prepared(p, parent, |p.conds|, global, infos)
    ensures forall c :: c in CondList(infos) <==> c in p.conds
  {
    CondListMembers(infos);
    assert p.conds[..|p.conds|] == p.conds;
  }

  /** bounds_check_type: the list of bad rules is exactly the excess, so nothing bad means that
    * everything is covered. */
  method BoundsCheckType(p: Policy, child: nat, parent: nat, nslot: nat, slotOf: Triple -> nat)
    returns (bad: seq<Bad>, numbad: nat)
    requires 0 < nslot && forall k :: slotOf(k) < nslot
    ensures BadSet(bad) == AllExcess(p, p.conds, child, parent) && numbad == |bad|
    ensures numbad == 0 <==> AllCovered(p, child, parent)
    ensures AllBacked(p, parent) ==>
              (numbad == 0 <==> forall choice: nat -> bool :: StaysWithin(p, choice, child, parent))
  {
    hide Prepared, AllExcess, Covered, AllBacked, Bounded, StaysWithin;
    var global, infos := ExpandParentRules(p, parent, nslot, slotOf);
    bad, numbad := CheckChildRules(p, global, infos, child, parent);
    NoExcess(p, p.conds, child, parent);
    if numbad == 0 {
      assert bad == [];
    } else {
      assert bad[0] in BadSet(bad);
    }
    if AllBacked(p, parent) {
      CoveredExactly(p, child, parent);
      forall choice: nat -> bool { BoundedIsWithin(p, choice, child, parent); }
    }
  }
}
