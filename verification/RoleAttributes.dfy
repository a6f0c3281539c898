/** Role attributes (libsepol/src/link.c, expand_role_attributes): the roles of an attribute may
  * be attributes themselves; a scan that restarts after every change replaces them by their
  * members until only regular roles are left.
  */
module RoleAttributes {
  /** The roles by number: which of them are attributes, and the bitmap of each. */
  datatype Graph = Graph(attr: seq<bool>, members: seq<set<nat>>) {
    ghost predicate Valid() {
      |attr| == |members| && forall i, b :: 0 <= i < |members| && b in members[i] ==> b < |members|
    }

    predicate IsAttr(i: nat) {
      i < |attr| && attr[i]
    }
  }

  /** `c` contains the members of all its attributes, except perhaps those of `r`. */
  ghost predicate ClosedBut(g: Graph, r: nat, c: set<nat>)
    requires g.Valid()
  {
    forall a <- c :: g.IsAttr(a) && a != r ==> g.members[a] <= c
  }

  ghost predicate Closed(g: Graph, c: set<nat>)
    requires g.Valid()
  {
    forall a <- c :: g.IsAttr(a) ==> g.members[a] <= c
  }

  ghost predicate InEveryClosed(g: Graph, s: set<nat>, x: nat)
    requires g.Valid()
  {
    forall c: set<nat> :: Closed(g, c) && s <= c ==> x in c
  }

  /** The least closed set that contains `s`. */
  ghost function Closure(g: Graph, s: set<nat>): set<nat>
    requires g.Valid()
  {
    set x: nat | x < |g.members| && InEveryClosed(g, s, x)
  }

  lemma ClosureIsLeast(g: Graph, s: set<nat>)
    requires g.Valid() && forall x <- s :: x < |g.members|
    ensures Closed(g, Closure(g, s)) && s <= Closure(g, s)
    ensures forall c :: Closed(g, c) && s <= c ==> Closure(g, s) <= c
  {
    forall a, b | a in Closure(g, s) && g.IsAttr(a) && b in g.members[a] ensures b in Closure(g, s) {
      forall c: set<nat> | Closed(g, c) && s <= c ensures b in c {
        assert a in c;
      }
    }
  }

  /** The regular roles an attribute stands for. */
  ghost function Regulars(g: Graph, a: nat): set<nat>
    requires g.Valid() && a < |g.members|
  {
    set x | x in Closure(g, g.members[a]) && !g.IsAttr(x)
  }

  /** A chain of roles, each the member of the attribute before it. */
  predicate Path(g: Graph, p: seq<nat>)
    requires g.Valid()
  {
    forall i :: 0 <= i < |p| - 1 ==> g.IsAttr(p[i]) && p[i + 1] in g.members[p[i]]
  }

  /** A chain leads from `s` to `x`. */
  ghost predicate Reached(g: Graph, s: set<nat>, x: nat)
    requires g.Valid()
  {
    exists p: seq<nat> :: |p| > 0 && p[0] in s && p[|p| - 1] == x && Path(g, p)
  }

  /** The closure is reachability. */
  lemma ClosureIsReachability(g: Graph, s: set<nat>, x: nat)
    requires g.Valid() && forall y <- s :: y < |g.members|
    ensures x in Closure(g, s) <==> Reached(g, s, x)
  {
    hide Reached;
    ClosureIsLeast(g, s);
    if Reached(g, s, x) {
      ReachedIsInside(g, s, x, Closure(g, s));
    }
    var c := set y | y in Closure(g, s) && Reached(g, s, y);
    forall y | y in s ensures y in c {
      ReachedStart(g, s, y);
    }
    forall a, b | a in c && g.IsAttr(a) && b in g.members[a] ensures b in c {
      ReachedStep(g, s, a, b);
    }
    assert Closed(g, c);
  }

  lemma ReachedIsInside(g: Graph, s: set<nat>, x: nat, c: set<nat>)
    requires g.Valid() && Reached(g, s, x) && s <= c && Closed(g, c)
    ensures x in c
  {
    var p: seq<nat> :| |p| > 0 && p[0] in s && p[|p| - 1] == x && Path(g, p);
    PathStaysInside(g, p, c);
  }

  lemma ReachedStart(g: Graph, s: set<nat>, x: nat)
    requires g.Valid() && x in s
    ensures Reached(g, s, x)
  {
    var p := [x];
    assert p[0] in s && p[|p| - 1] == x && Path(g, p);
  }

  lemma ReachedStep(g: Graph, s: set<nat>, a: nat, b: nat)
    requires g.Valid() && Reached(g, s, a) && g.IsAttr(a) && b in g.members[a]
    ensures Reached(g, s, b)
  {
    var p: seq<nat> :| |p| > 0 && p[0] in s && p[|p| - 1] == a && Path(g, p);
    var q := p + [b];
    assert q[0] in s && q[|q| - 1] == b && Path(g, q);
  }

  lemma {:induction false} PathStaysInside(g: Graph, p: seq<nat>, c: set<nat>)
    requires g.Valid() && |p| > 0 && Path(g, p) && p[0] in c && Closed(g, c)
    ensures p[|p| - 1] in c
  {
    if |p| > 1 {
      assert g.IsAttr(p[0]) && p[1] in g.members[p[0]];
      PathStaysInside(g, p[1..], c);
    }
  }

  // One call: the bitmap of role `r` is rewritten while all other bitmaps stay as they are.

  /** The attributes left in a bitmap. */
  ghost function Pending(g: Graph, s: set<nat>): set<nat> {
    set a | a in s && g.IsAttr(a)
  }

  /** The smallest attribute of the bitmap, where the scan stops. */
  ghost predicate IsNext(g: Graph, s: set<nat>, i: nat) {
    i in Pending(g, s) && forall a <- Pending(g, s) :: i <= a
  }

  /** What happens there: the attribute is removed and, unless it is `r` itself, its members are
    * added. */
  ghost function Replace(g: Graph, r: nat, s: set<nat>, i: nat): set<nat>
    requires g.Valid() && g.IsAttr(i)
  {
    s - {i} + if i == r then {} else g.members[i]
  }

  /** A set of attributes without `r`, each of which has a member in the set: a cycle that does
    * not pass through `r`. */
  ghost predicate Trap(g: Graph, r: nat, u: set<nat>)
    requires g.Valid()
  {
    forall a <- u :: g.IsAttr(a) && a != r && g.members[a] * u != {}
  }

  ghost predicate Trapped(g: Graph, r: nat, s: set<nat>)
    requires g.Valid()
  {
    exists u: set<nat> :: Trap(g, r, u) && s * u != {}
  }

  /** A removed attribute may come back, but never past a trap. */
  lemma TrapPersists(g: Graph, r: nat, s: set<nat>, i: nat, u: set<nat>)
    requires g.Valid() && IsNext(g, s, i) && Trap(g, r, u) && s * u != {}
    ensures Replace(g, r, s, i) * u != {}
  {
    var a :| a in s * u;
    if a != i {
      assert a in Replace(g, r, s, i) * u;
    } else {
      var b :| b in g.members[i] * u;
      assert b in Replace(g, r, s, i) * u;
    }
  }

  /** The weight of the attributes below `n` in a bitmap. */
  ghost function Weight(w: map<nat, nat>, s: set<nat>, n: nat): nat {
    if n == 0 then 0 else Weight(w, s, n - 1) + if n - 1 in s && n - 1 in w then w[n - 1] else 0
  }

  lemma {:induction false} WeightOfUnion(w: map<nat, nat>, s: set<nat>, t: set<nat>, n: nat)
    ensures Weight(w, s + t, n) <= Weight(w, s, n) + Weight(w, t, n)
  {
    if n > 0 {
      WeightOfUnion(w, s, t, n - 1);
    }
  }

  lemma {:induction false} WeightWithout(w: map<nat, nat>, s: set<nat>, i: nat, n: nat)
    requires i in s && i in w
    ensures Weight(w, s, n) == Weight(w, s - {i}, n) + if i < n then w[i] else 0
  {
    if n > 0 {
      WeightWithout(w, s, i, n - 1);
    }
  }

  lemma {:induction false} WeightExtended(w: map<nat, nat>, v: map<nat, nat>, s: set<nat>, n: nat)
    requires forall a :: a in s && a in v ==> a in w && w[a] == v[a]
    requires forall a :: a in s && a in w ==> a in v
    ensures Weight(w, s, n) == Weight(v, s, n)
  {
    if n > 0 {
      WeightExtended(w, v, s, n - 1);
    }
  }

  /** Each weighed attribute but `r` weighs more than its members together, all of which are
    * weighed if they are attributes. */
  ghost predicate Weighs(g: Graph, r: nat, w: map<nat, nat>)
    requires g.Valid()
  {
    && r in w && w[r] > 0
    && forall a <- w :: a != r ==>
         && g.IsAttr(a) && Pending(g, g.members[a]) <= w.Keys
         && w[a] > Weight(w, g.members[a], |g.members|)
  }

  /** Replacing an attribute loses weight, even when the attribute comes back with the members. */
  lemma ReplaceLosesWeight(g: Graph, r: nat, w: map<nat, nat>, s: set<nat>, i: nat)
    requires g.Valid() && g.IsAttr(i) && i in s && Weighs(g, r, w) && Pending(g, s) <= w.Keys
    ensures Pending(g, Replace(g, r, s, i)) <= w.Keys
    ensures Weight(w, Replace(g, r, s, i), |g.members|) < Weight(w, s, |g.members|)
  {
    var n := |g.members|;
    assert i in Pending(g, s);
    WeightWithout(w, s, i, n);
    if i == r {
      assert Replace(g, r, s, i) == s - {i};
    } else {
      WeightOfUnion(w, s - {i}, g.members[i], n);
      assert forall a <- Pending(g, g.members[i]) :: a in w;
    }
  }

  lemma WeighOne(g: Graph, r: nat, w: map<nat, nat>, a: nat)
    requires g.Valid() && Weighs(g, r, w) && g.IsAttr(a) && a !in w && Pending(g, g.members[a]) <= w.Keys
    ensures Weighs(g, r, w[a := Weight(w, g.members[a], |g.members|) + 1])
  {
    hide Weight;
    var more := w[a := Weight(w, g.members[a], |g.members|) + 1];
    forall b <- more | b != r
      ensures g.IsAttr(b) && Pending(g, g.members[b]) <= more.Keys && more[b] > Weight(more, g.members[b], |g.members|)
    {
      assert a in g.members[b] ==> a in Pending(g, g.members[b]);
      WeightExtended(more, w, g.members[b], |g.members|);
    }
  }

  /** Weighing goes on until every attribute left has a member among those left: a trap. */
  lemma WeighAll(g: Graph, r: nat, w: map<nat, nat>, left: set<nat>) returns (v: map<nat, nat>, u: set<nat>)
    requires g.Valid() && Weighs(g, r, w) && r in w
    requires forall a: nat :: g.IsAttr(a) ==> a in left || a in w
    requires forall a <- left :: g.IsAttr(a) && a !in w
    ensures Weighs(g, r, v) && Trap(g, r, u)
    ensures forall a: nat :: g.IsAttr(a) ==> a in u || a in v
    decreases left
  {
    hide Weighs, Weight, Trap, Pending;
    if a :| a in left && Pending(g, g.members[a]) <= w.Keys {
      WeighOne(g, r, w, a);
      v, u := WeighAll(g, r, w[a := Weight(w, g.members[a], |g.members|) + 1], left - {a});
    } else {
      v, u := w, left;
      LeftIsTrap(g, r, w, left);
    }
  }

  lemma LeftIsTrap(g: Graph, r: nat, w: map<nat, nat>, left: set<nat>)
    requires g.Valid() && r in w
    requires forall a: nat :: g.IsAttr(a) ==> a in left || a in w
    requires forall a <- left :: g.IsAttr(a) && a !in w && !(Pending(g, g.members[a]) <= w.Keys)
    ensures Trap(g, r, left)
  {
    forall a <- left ensures g.members[a] * left != {} {
      var b :| b in Pending(g, g.members[a]) && b !in w;
      assert b in g.members[a] * left;
    }
  }

  /** Without a trap in the bitmap there are weights for all it holds. */
  lemma UntrappedWeights(g: Graph, r: nat, s: set<nat>) returns (w: map<nat, nat>)
    requires g.Valid() && g.IsAttr(r) && !Trapped(g, r, s)
    ensures Weighs(g, r, w) && Pending(g, s) <= w.Keys
  {
    var left := set a: nat | a < |g.attr| && g.IsAttr(a) && a != r;
    var u;
    w, u := WeighAll(g, r, map[r := 1], left);
    assert s * u == {};
    forall a <- Pending(g, s) ensures a in w {
      assert a in u ==> a in s * u;
    }
  }

  ghost predicate InEveryClosedBut(g: Graph, r: nat, s: set<nat>, x: nat)
    requires g.Valid()
  {
    forall c: set<nat> :: ClosedBut(g, r, c) && s <= c ==> x in c
  }

  /** The regular roles the bitmap `s` of `r` stands for. */
  ghost function StandsFor(g: Graph, r: nat, s: set<nat>): set<nat>
    requires g.Valid()
  {
    set x: nat | x < |g.members| && !g.IsAttr(x) && InEveryClosedBut(g, r, s, x)
  }

  lemma ReplaceKeepsMeaning(g: Graph, r: nat, s: set<nat>, i: nat)
    requires g.Valid() && g.IsAttr(i) && i in s
    ensures StandsFor(g, r, Replace(g, r, s, i)) == StandsFor(g, r, s)
  {
    var t := Replace(g, r, s, i);
    forall x: nat | !g.IsAttr(x) ensures InEveryClosedBut(g, r, t, x) <==> InEveryClosedBut(g, r, s, x) {
      forall c: set<nat> | ClosedBut(g, r, c) && s <= c && InEveryClosedBut(g, r, t, x) ensures x in c {
        assert t <= c;
      }
      forall c: set<nat> | ClosedBut(g, r, c) && t <= c && InEveryClosedBut(g, r, s, x) ensures x in c {
        assert ClosedBut(g, r, c + {i}) && s <= c + {i};
      }
    }
  }

  lemma NothingPending(g: Graph, r: nat, s: set<nat>)
    requires g.Valid() && Pending(g, s) == {} && forall x <- s :: x < |g.members|
    ensures StandsFor(g, r, s) == s
  {
    forall x <- s ensures !g.IsAttr(x) {
      assert x !in Pending(g, s);
    }
    assert ClosedBut(g, r, s);
  }

  lemma MeaningAtStart(g: Graph, r: nat)
    requires g.Valid() && g.IsAttr(r)
    ensures StandsFor(g, r, g.members[r]) == Regulars(g, r)
  {
    forall c: set<nat> | g.members[r] <= c ensures ClosedBut(g, r, c) <==> Closed(g, c) {
    }
    forall x: nat ensures InEveryClosedBut(g, r, g.members[r], x) <==> InEveryClosed(g, g.members[r], x) {
    }
  }

  class RoleDatum {
    const value: nat
    const isAttr: bool
    var roles: set<nat>

    constructor (value: nat, isAttr: bool, roles: set<nat>)
      ensures this.value == value && this.isAttr == isAttr && this.roles == roles
    {
      this.value, this.isAttr, this.roles := value, isAttr, roles;
    }
  }

  /** role_val_to_struct: the role with value `i + 1` is at `i`. */
  ghost predicate Indexed(roles: seq<RoleDatum>) {
    forall i :: 0 <= i < |roles| ==> roles[i].value == i + 1
  }

  ghost function Bitmaps(roles: seq<RoleDatum>): (m: seq<set<nat>>)
    reads roles
    ensures |m| == |roles| && forall i :: 0 <= i < |roles| ==> m[i] == roles[i].roles
  {
    if roles == [] then [] else [roles[0].roles] + Bitmaps(roles[1..])
  }

  ghost function GraphOf(roles: seq<RoleDatum>): Graph
    reads roles
  {
    Graph(seq(|roles|, i requires 0 <= i < |roles| => roles[i].isAttr), Bitmaps(roles))
  }

  /** The scan with its restarts (expand_role_attributes, from the label on). */
  method ExpandRole(roles: seq<RoleDatum>, r: nat, role: RoleDatum)
    requires Indexed(roles) && GraphOf(roles).Valid() && r < |roles| && roles[r] == role && role.isAttr
    requires !Trapped(GraphOf(roles), r, role.roles)
    modifies role`roles
    ensures role.roles == old(Regulars(GraphOf(roles), r))
  {
    hide Trapped, StandsFor, Regulars, Weighs, Weight;
    ghost var g := GraphOf(roles);
    ghost var w := UntrappedWeights(g, r, role.roles);
    MeaningAtStart(g, r);
    var i := 0;
    while i < |roles|
      invariant i <= |roles|
      invariant StandsFor(g, r, role.roles) == Regulars(g, r)
      invariant forall x <- role.roles :: x < |roles|
      invariant forall a <- Pending(g, role.roles) :: i <= a
      invariant Weighs(g, r, w) && Pending(g, role.roles) <= w.Keys
      decreases Weight(w, role.roles, |roles|), |roles| - i
    {
      if i in role.roles && roles[i].isAttr {
        ReplaceKeepsMeaning(g, r, role.roles, i);
        ReplaceLosesWeight(g, r, w, role.roles, i);
        ghost var s := role.roles;
        role.roles := role.roles - {i};
        if roles[i].value == role.value {
          assert role.roles == Replace(g, r, s, i);
          assert Pending(g, role.roles) <= Pending(g, s) - {i};
          i := i + 1;
          continue;
        }
        role.roles := role.roles + roles[i].roles;
        assert role.roles == Replace(g, r, s, i);
        i := 0;
      } else {
        assert g.IsAttr(i) == roles[i].isAttr;
        assert i !in Pending(g, role.roles);
        i := i + 1;
      }
    }
    NothingPending(g, r, role.roles);
  }

  // When does the scan end at all?

  ghost function Smallest(s: set<nat>): (m: nat)
    requires s != {}
    ensures m in s && forall x <- s :: m <= x
  {
    var a :| a in s;
    if s == {a} then a
    else
      var m := Smallest(s - {a});
      assert forall x <- s :: x == a || x in s - {a};
      if a < m then a else m
  }

  /** The bitmap after `n` replacements (or fewer, once no attribute is left). */
  ghost function After(g: Graph, r: nat, s: set<nat>, n: nat): set<nat>
    requires g.Valid()
  {
    if n == 0 then s
    else
      var t := After(g, r, s, n - 1);
      if Pending(g, t) == {} then t else Replace(g, r, t, Smallest(Pending(g, t)))
  }

  lemma {:induction false} TrappedForever(g: Graph, r: nat, s: set<nat>, u: set<nat>, n: nat)
    requires g.Valid() && Trap(g, r, u) && s * u != {}
    ensures After(g, r, s, n) * u != {} && Pending(g, After(g, r, s, n)) != {}
  {
    if n > 0 {
      TrappedForever(g, r, s, u, n - 1);
      var t := After(g, r, s, n - 1);
      TrapPersists(g, r, t, Smallest(Pending(g, t)), u);
    }
    var a :| a in After(g, r, s, n) * u;
    assert a in Pending(g, After(g, r, s, n));
  }

  lemma {:induction false} AfterAfter(g: Graph, r: nat, s: set<nat>, n: nat)
    requires g.Valid() && Pending(g, s) != {}
    ensures After(g, r, s, n + 1) == After(g, r, Replace(g, r, s, Smallest(Pending(g, s))), n)
  {
    if n > 0 {
      AfterAfter(g, r, s, n - 1);
    } else {
      assert After(g, r, s, 0) == s;
    }
  }

  lemma {:induction false} WeighedEnds(g: Graph, r: nat, w: map<nat, nat>, s: set<nat>) returns (n: nat)
    requires g.Valid() && Weighs(g, r, w) && Pending(g, s) <= w.Keys
    ensures Pending(g, After(g, r, s, n)) == {}
    decreases Weight(w, s, |g.members|)
  {
    if Pending(g, s) == {} {
      n := 0;
    } else {
      var i := Smallest(Pending(g, s));
      ReplaceLosesWeight(g, r, w, s, i);
      n := WeighedEnds(g, r, w, Replace(g, r, s, i));
      AfterAfter(g, r, s, n);
      n := n + 1;
    }
  }

  /** The scan of an attribute ends exactly when its bitmap reaches no cycle of attributes that
    * avoids it: a cycle through the attribute itself is cut, any other one goes on forever. */
  lemma EndsUnlessTrapped(g: Graph, r: nat, s: set<nat>)
    requires g.Valid() && g.IsAttr(r)
    ensures (exists n: nat :: Pending(g, After(g, r, s, n)) == {}) <==> !Trapped(g, r, s)
  {
    if Trapped(g, r, s) {
      var u: set<nat> :| Trap(g, r, u) && s * u != {};
      forall n: nat ensures Pending(g, After(g, r, s, n)) != {} {
        TrappedForever(g, r, s, u, n);
      }
    } else {
      var w := UntrappedWeights(g, r, s);
      var n := WeighedEnds(g, r, w, s);
      assert Pending(g, After(g, r, s, n)) == {};
    }
  }

  /** An attribute whose one member lies on a cycle of two others is scanned forever. */
  lemma AvoidedCycle(n: nat)
    ensures var g := Graph([true, true, true], [{1}, {2}, {1}]);
            g.Valid() && Pending(g, After(g, 0, g.members[0], n)) != {}
  {
    var g := Graph([true, true, true], [{1}, {2}, {1}]);
    assert 2 in g.members[1] * {1, 2} && 1 in g.members[2] * {1, 2} && 1 in g.members[0] * {1, 2};
    TrappedForever(g, 0, g.members[0], {1, 2}, n);
  }

  // The whole run: every attribute is expanded, in hash table order, with the bitmaps of those
  // before it already rewritten.

  /** Attributes that each have a member among themselves. */
  ghost predicate Cyclic(g: Graph, u: set<nat>)
    requires g.Valid()
  {
    forall a <- u :: g.IsAttr(a) && g.members[a] * u != {}
  }

  ghost predicate Acyclic(g: Graph)
    requires g.Valid()
  {
    forall u: set<nat> :: Cyclic(g, u) ==> u == {}
  }

  ghost function Rewritten(g: Graph, r: nat): Graph
    requires g.Valid() && r < |g.members|
  {
    g.(members := g.members[r := Regulars(g, r)])
  }

  lemma RewrittenIsValid(g: Graph, r: nat)
    requires g.Valid() && r < |g.members|
    ensures Rewritten(g, r).Valid()
  {
  }

  ghost function Step(g: Graph, r: nat): (h: Graph)
    requires g.Valid() && r < |g.members|
  {
    if g.IsAttr(r) then Rewritten(g, r) else g
  }

  /** Each attribute in turn is free of cycles that avoid it, in the graph it is met in. */
  ghost predicate Ends(g: Graph, order: seq<nat>)
    requires g.Valid() && forall i :: 0 <= i < |order| ==> order[i] < |g.members|
    decreases |order|
  {
    order == [] ||
    (RewrittenIsValid(g, order[0]);
     && (g.IsAttr(order[0]) ==> !Trapped(g, order[0], g.members[order[0]]))
     && Ends(Step(g, order[0]), order[1..]))
  }

  lemma EndsFurther(g: Graph, order: seq<nat>)
    requires g.Valid() && |order| > 0 && forall i :: 0 <= i < |order| ==> order[i] < |g.members|
    requires Ends(g, order)
    ensures g.IsAttr(order[0]) ==> !Trapped(g, order[0], g.members[order[0]])
    ensures Step(g, order[0]).Valid() && |Step(g, order[0]).members| == |g.members|
    ensures Ends(Step(g, order[0]), order[1..])
  {
    hide Trapped, Regulars;
    RewrittenIsValid(g, order[0]);
  }

  lemma AcyclicIsUntrapped(g: Graph, r: nat, s: set<nat>)
    requires g.Valid() && Acyclic(g)
    ensures !Trapped(g, r, s)
  {
    forall u | Trap(g, r, u) ensures s * u == {} {
      assert Cyclic(g, u);
    }
  }

  /** No attribute reaches a cycle of attributes that avoids it. */
  ghost predicate Untrapped(g: Graph)
    requires g.Valid()
  {
    forall r: nat :: g.IsAttr(r) ==> !Trapped(g, r, g.members[r])
  }

  /** Rewriting an attribute makes no trap: the attribute has no attributes left, so that it is in
    * none, and the other members are as they were. */
  lemma RewrittenIsUntrapped(g: Graph, r: nat)
    requires g.Valid() && g.IsAttr(r) && Untrapped(g)
    ensures Rewritten(g, r).Valid() && Untrapped(Rewritten(g, r))
  {
    var h := Rewritten(g, r);
    assert forall b <- h.members[r] :: !g.IsAttr(b);
    forall a: nat, u: set<nat> | h.IsAttr(a) && Trap(h, a, u) ensures h.members[a] * u == {} {
      assert h.members[r] * u == {};
      if a != r {
        assert Trap(g, a, u);
        assert !Trapped(g, a, g.members[a]);
      }
    }
  }

  lemma {:induction false} UntrappedEnds(g: Graph, order: seq<nat>)
    requires g.Valid() && Untrapped(g) && forall i :: 0 <= i < |order| ==> order[i] < |g.members|
    ensures Ends(g, order)
    decreases |order|
  {
    hide Trapped, Regulars;
    if order != [] {
      if g.IsAttr(order[0]) {
        RewrittenIsUntrapped(g, order[0]);
      }
      UntrappedEnds(Step(g, order[0]), order[1..]);
    }
  }

  /** The run ends in every order exactly when no attribute reaches a cycle that avoids it, in the
    * graph as it is at the start. */
  lemma EndsInEveryOrder(g: Graph)
    requires g.Valid()
    ensures (forall order: seq<nat> :: (forall i :: 0 <= i < |order| ==> order[i] < |g.members|) ==>
            Ends(g, order)) <==>
            Untrapped(g)
  {
    hide Trapped, Regulars;
    if Untrapped(g) {
      forall order: seq<nat> | forall i :: 0 <= i < |order| ==> order[i] < |g.members| ensures Ends(g, order) {
        UntrappedEnds(g, order);
      }
    } else {
      var r: nat :| g.IsAttr(r) && Trapped(g, r, g.members[r]);
      assert !Ends(g, [r]);
    }
  }

  /** Without any cycle the run ends in every order. */
  lemma AcyclicEnds(g: Graph, order: seq<nat>)
    requires g.Valid() && Acyclic(g) && forall i :: 0 <= i < |order| ==> order[i] < |g.members|
    ensures Ends(g, order)
  {
    hide Acyclic, Trapped, Ends;
    forall r: nat | g.IsAttr(r) ensures !Trapped(g, r, g.members[r]) {
      AcyclicIsUntrapped(g, r, g.members[r]);
    }
    UntrappedEnds(g, order);
  }

  /** Rewriting one attribute changes what no attribute stands for. */
  lemma RewrittenStandsForTheSame(g: Graph, r: nat, a: nat)
    requires g.Valid() && g.IsAttr(r) && a < |g.members| && Rewritten(g, r).Valid()
    ensures Regulars(Rewritten(g, r), a) == Regulars(g, a)
  {
    var h := Rewritten(g, r);
    ClosureIsLeast(g, g.members[r]);
    ClosureIsLeast(g, g.members[a]);
    ClosureIsLeast(h, h.members[a]);
    forall x | x in Regulars(h, a) ensures x in Regulars(g, a) {
      ShrinkClosed(g, r, Closure(g, g.members[a]));
      if a == r {
        assert h.members[a] <= Closure(g, g.members[a]);
      }
    }
    forall x | x in Regulars(g, a) ensures x in Regulars(h, a) {
      var c := Closure(h, h.members[a]);
      if r in c || a == r {
        GrowClosed(g, r, a, c);
        assert x in c + Closure(g, g.members[r]);
      } else {
        assert Closed(g, c);
      }
    }
  }

  lemma ShrinkClosed(g: Graph, r: nat, c: set<nat>)
    requires g.Valid() && g.IsAttr(r) && Rewritten(g, r).Valid() && Closed(g, c)
    ensures Closed(Rewritten(g, r), c)
  {
    ClosureIsLeast(g, g.members[r]);
  }

  lemma GrowClosed(g: Graph, r: nat, a: nat, c: set<nat>)
    requires g.Valid() && g.IsAttr(r) && a < |g.members| && Rewritten(g, r).Valid() && Closed(Rewritten(g, r), c)
    requires (r in c || a == r) && Rewritten(g, r).members[a] <= c
    ensures Closed(g, c + Closure(g, g.members[r])) && g.members[a] <= c + Closure(g, g.members[r])
    ensures Regulars(g, r) <= c
  {
    ClosureIsLeast(g, g.members[r]);
  }

  /** `h` is `g` with the attributes among `done` expanded. */
  ghost predicate Expanded(g: Graph, done: seq<nat>, h: Graph)
    requires g.Valid()
  {
    && h.Valid() && h.attr == g.attr
    && (forall r: nat :: r < |g.members| ==> Regulars(h, r) == Regulars(g, r))
    && (forall r: nat :: r < |g.members| ==>
          h.members[r] == if r in done && g.IsAttr(r) then Regulars(g, r) else g.members[r])
  }

  lemma NothingExpanded(g: Graph)
    requires g.Valid()
    ensures Expanded(g, [], g)
  {
    hide Regulars;
  }

  lemma ExpandedMembers(g: Graph, done: seq<nat>, h: Graph)
    requires g.Valid() && Expanded(g, done, h)
    ensures |h.members| == |g.members|
    ensures forall r: nat :: r < |g.members| ==>
              h.members[r] == if r in done && g.IsAttr(r) then Regulars(g, r) else g.members[r]
  {
    hide Regulars;
  }

  lemma ExpandedFurther(g: Graph, done: seq<nat>, h: Graph, r: nat)
    requires g.Valid() && r < |g.members| && Expanded(g, done, h)
    ensures h.Valid() && |h.members| == |g.members|
    ensures Expanded(g, done + [r], Step(h, r))
  {
    hide Regulars;
    if h.IsAttr(r) {
      RewrittenIsValid(h, r);
      forall a: nat | a < |g.members| { RewrittenStandsForTheSame(h, r, a); }
    }
  }

  /** expand_role_attributes, called for one entry of the table. */
  method ExpandEntry(roles: seq<RoleDatum>, r: nat, role: RoleDatum)
    requires Indexed(roles) && GraphOf(roles).Valid() && r < |roles| && roles[r] == role
    requires role.isAttr ==> !Trapped(GraphOf(roles), r, role.roles)
    modifies role`roles
    ensures GraphOf(roles) == old(Step(GraphOf(roles), r))
  {
    hide Trapped, Regulars;
    if role.isAttr {
      ghost var g := GraphOf(roles);
      ExpandRole(roles, r, role);
      assert GraphOf(roles).members == g.members[r := Regulars(g, r)];
    }
  }

  /** hashtab_map with expand_role_attributes, over the roles in any order in which it ends. */
  method ExpandAll(roles: seq<RoleDatum>, order: seq<nat>)
    requires Indexed(roles) && GraphOf(roles).Valid()
    requires forall i :: 0 <= i < |order| ==> order[i] < |roles|
    requires Ends(GraphOf(roles), order)
    modifies (set role <- roles)`roles
    ensures forall r: nat :: r < |roles| ==>
              roles[r].roles == if r in order && roles[r].isAttr then old(Regulars(GraphOf(roles), r))
                else old(roles[r].roles)
  {
    hide Trapped, Regulars, Expanded, Ends, Step;
    ghost var g := GraphOf(roles);
    NothingExpanded(g);
    for i := 0 to |order|
      invariant GraphOf(roles).Valid() && Expanded(g, order[..i], GraphOf(roles))
      invariant Ends(GraphOf(roles), order[i..])
    {
      ExpandedFurther(g, order[..i], GraphOf(roles), order[i]);
      EndsFurther(GraphOf(roles), order[i..]);
      assert order[i..][1..] == order[i + 1..] && order[..i + 1] == order[..i] + [order[i]];
      ExpandEntry(roles, order[i], roles[order[i]]);
    }
    assert order[..|order|] == order;
    ExpandedMembers(g, order, GraphOf(roles));
  }
}
