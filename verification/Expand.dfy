/** Attribute expansion (libsepol/src/expand.c): expand_avtab copies a rule table into one whose
  * rules are all between individual types.
  */
module Expand {
  import opened AvTables

  /** A rule of an unconditional table: a single kind, not ENABLED, xperms exactly when needed. */
  datatype Rule = Rule(key: Triple, specified: bv16, data: Word, xperms: Option<Xperms>) {
    predicate Valid() {
      && (AvKind(specified) || XpermKind(specified) || TypeKind(specified))
      && (XpermKind(specified) ==> xperms.Some?)
    }

    function Payload(): Word
      requires Valid()
    {
      if XpermKind(specified) then xperms.value.perms else data
    }

    function Id(t: Triple): Id
      requires Valid()
    {
      Entry(t, specified, if XpermKind(specified) then Some((xperms.value.specified, xperms.value.driver)) else None)
    }
  }

  /** What makes two rules the same entry: extended rules also by their kind of set and driver. */
  datatype Id = Entry(key: Triple, specified: bv16, xset: Option<(nat, nat)>)

  ghost function RuleOf(n: AvNode): Rule
    reads n`specified, n`data, n`xperms
  {
    Rule(n.key, n.specified, n.data, n.xperms)
  }

  /** The types of the policy: type_val_to_struct tells the individual types, attr_type_map maps
    * an attribute to the bits of its members, in increasing order.  Types count from 1, bits
    * from 0. */
  datatype Types = Types(individual: set<nat>, attrTypes: nat -> seq<nat>)

  ghost predicate Increasing(ns: seq<nat>) {
    forall i, j :: 0 <= i < j < |ns| ==> ns[i] < ns[j]
  }

  /** The types a rule's source or target stands for, in the order of ebitmap_for_each_positive_bit. */
  function MemberSeq(p: Types, t: nat): seq<nat> {
    if t in p.individual then [t]
        else seq(|p.attrTypes(t)|, i requires 0 <= i < |p.attrTypes(t)| => p.attrTypes(t)[i] + 1)
  }

  ghost function Numbers(ns: seq<nat>): set<nat> {
    set n <- ns
  }

  ghost function Members(p: Types, t: nat): set<nat> {
    Numbers(MemberSeq(p, t))
  }

  /** The entry is the rule's, for a source in `ss` and a target in `ts`. */
  ghost predicate Hits(r: Rule, ss: set<nat>, ts: set<nat>, id: Id)
    requires r.Valid()
  {
    id.key.source in ss && id.key.target in ts && id.key.cls == r.key.cls && id == r.Id(id.key)
  }

  /** The rule applies to the entry once attributes are read as their members. */
  ghost predicate Covers(p: Types, r: Rule, id: Id)
    requires r.Valid()
  {
    Hits(r, Members(p, r.key.source), Members(p, r.key.target), id)
  }

  /** Two rules for one entry: grants accumulate, auditdeny masks intersect. */
  function Merge(specified: bv16, before: Option<Word>, w: Word): Option<Word> {
    match before
    case None => Some(w)
    case Some(x) => if specified == AUDITDENY then Some(x * w) else if TypeKind(specified) then Some(x) else Some(x + w)
  }

  /** What `rules` say together about one entry. */
  ghost function Gather(p: Types, rules: seq<Rule>, id: Id): Option<Word>
    requires AllValid(rules)
  {
    if rules == [] then None
    else
      var r, before := rules[|rules| - 1], Gather(p, rules[..|rules| - 1], id);
      if Covers(p, r, id) then Merge(id.specified, before, r.Payload()) else before
  }

  /** Expansion preserves meaning: an entry exists exactly for the covered pairs, a permission is
    * granted exactly when some covering rule grants it, and audit is suppressed (a bit missing
    * from an auditdeny mask) exactly when some covering rule suppresses it. */
  lemma {:induction false} GatherMeaning(p: Types, rules: seq<Rule>, id: Id)
    requires AllValid(rules)
    ensures Gather(p, rules, id).Some? <==> exists r <- rules :: Covers(p, r, id)
    ensures Gather(p, rules, id).Some? && id.specified != AUDITDENY && !TypeKind(id.specified) ==>
              forall b :: b in Gather(p, rules, id).value <==> exists r <- rules :: Covers(p, r, id) && b in r.Payload()
    ensures Gather(p, rules, id).Some? && id.specified == AUDITDENY ==>
              forall b :: b in Gather(p, rules, id).value <==> forall r <- rules :: Covers(p, r, id) ==>
                  b in r.Payload()
  {
    hide Covers;
    if rules != [] {
      var r, before := rules[|rules| - 1], rules[..|rules| - 1];
      GatherMeaning(p, before, id);
      assert rules == before + [r];
    }
  }

  /** Only the set of rules matters, not the order in which the table is walked. */
  lemma GatherOrder(p: Types, r1: seq<Rule>, r2: seq<Rule>, id: Id)
    requires AllValid(r1) && AllValid(r2)
    requires forall r :: r in r1 <==> r in r2
    requires !TypeKind(id.specified)
    ensures Gather(p, r1, id) == Gather(p, r2, id)
  {
    hide Covers, Gather;
    GatherMeaning(p, r1, id);
    GatherMeaning(p, r2, id);
    var g1, g2 := Gather(p, r1, id), Gather(p, r2, id);
    if g1.Some? && g2.Some? {
      assert forall b :: b in g1.value <==> b in g2.value;
      assert g1.value == g2.value;
    }
  }

  ghost function IdOf(n: AvNode): Id
    requires RuleOf(n).Valid()
    reads n`specified, n`data, n`xperms
  {
    RuleOf(n).Id(n.key)
  }

  /** A table with single-kind rules and one node per entry. */
  ghost predicate OnePerEntry(t: Avtab)
    reads t`nodes, t.nodes`specified, t.nodes`data, t.nodes`xperms
  {
    && (forall n <- t.nodes :: RuleOf(n).Valid())
    && (forall m <- t.nodes, n <- t.nodes :: IdOf(m) == IdOf(n) ==> m == n)
  }

  /** The content of a table: what is stored under each entry. */
  ghost function Lookup(t: Avtab, id: Id): Option<Word>
    requires OnePerEntry(t)
    reads t`nodes, t.nodes`specified, t.nodes`data, t.nodes`xperms
  {
    if exists n <- t.nodes :: IdOf(n) == id
    then var n :| n in t.nodes && IdOf(n) == id; Some(RuleOf(n).Payload())
    else None
  }

  lemma SameKindOverlap(a: bv16, b: bv16)
    requires AvKind(a) || XpermKind(a) || TypeKind(a)
    requires AvKind(b) || XpermKind(b) || TypeKind(b)
    ensures Overlaps(a, b) <==> a == b
  {
  }

  /** The loop over avtab_search_node_next, from the first overlapping node on. */
  method FindSameSet(t: Avtab, r: Rule, first: AvNode?, ghost start: nat) returns (node: AvNode?, ghost p: nat)
    requires t.Valid() && OnePerEntry(t) && r.Valid() && XpermKind(r.specified) && t.slotOf(r.key) < |t.chains|
    requires forall i :: 0 <= i < |t.Group(r.key)| ==>
               var n := t.Group(r.key)[i];
               n in t.nodes && n.key == r.key && (Overlaps(r.specified, n.specified) <==> r.specified == n.specified)
    requires NextAt(t.Group(r.key), r.specified, 0, start)
    requires first == if start < |t.Group(r.key)| then t.Group(r.key)[start] else null
    ensures p <= |t.Group(r.key)| && forall i :: 0 <= i < p ==> IdOf(t.Group(r.key)[i]) != r.Id(r.key)
    ensures node == if p < |t.Group(r.key)| then t.Group(r.key)[p] else null
    ensures node != null ==> IdOf(node) == r.Id(r.key)
  {
    hide Avtab.Valid, Avtab.Group, Overlaps;
    ghost var g := t.Group(r.key);
    node, p := first, start;
    while node != null
      invariant NextAt(g, r.specified, p, p)
      invariant node == if p < |g| then g[p] else null
      invariant forall i :: 0 <= i < p ==> IdOf(g[i]) != r.Id(r.key)
      decreases |g| - p
    {
      if node.xperms.value.specified == r.xperms.value.specified &&
          node.xperms.value.driver == r.xperms.value.driver {
        break;
      }
      node, p := t.SearchNodeNext(node, r.specified, p);
    }
  }

  /** The search of expand_avtab_insert: for an extended rule, the node of the same kind of set
    * and driver among all that overlap. */
  method FindEntry(t: Avtab, r: Rule) returns (node: AvNode?)
    requires t.Valid() && OnePerEntry(t) && r.Valid()
    ensures node == null <==> forall n <- t.nodes :: IdOf(n) != r.Id(r.key)
    ensures node != null ==> node in t.nodes && IdOf(node) == r.Id(r.key)
  {
    hide Avtab.Valid, Avtab.Group, Avtab.HasOverlap, Overlaps;
    t.GroupMembers(r.key);
    forall n <- t.nodes ensures Overlaps(r.specified, n.specified) <==> r.specified == n.specified {
      SameKindOverlap(r.specified, RuleOf(n).specified);
    }
    ghost var p;
    node, p := t.SearchNode(r.key, r.specified);
    if XpermKind(r.specified) {
      node, p := FindSameSet(t, r, node, p);
    }
  }

  /** expand_avtab_insert when the entry is new. */
  method AddEntry(t: Avtab, r: Rule)
    requires t.Valid() && OnePerEntry(t) && r.Valid()
    requires forall n <- t.nodes :: IdOf(n) != r.Id(r.key)
    modifies t, t.htable, t.nodes`next
    ensures t.Valid() && OnePerEntry(t) && fresh(t.nodes - old(t.nodes))
    ensures forall id :: Lookup(t, id) ==
              if id == r.Id(r.key) then Some(r.Payload()) else old(Lookup(t, id))
  {
    hide Avtab.Valid, Avtab.Group;
    var node, pos := t.InsertNonunique(r.key, r.specified, r.data, if XpermKind(r.specified) then r.xperms else None);
    forall id | id != r.Id(r.key) ensures Lookup(t, id) == old(Lookup(t, id)) {
      if n :| n in old(t.nodes) && old(IdOf(n)) == id {
        assert IdOf(n) == id;
      }
    }
  }

  /** expand_avtab_insert when the entry exists. */
  method MergeEntry(t: Avtab, r: Rule, node: AvNode) returns (rc: int)
    requires t.Valid() && OnePerEntry(t) && r.Valid()
    requires node in t.nodes && IdOf(node) == r.Id(r.key)
    modifies node`data, node`xperms
    ensures t.Valid() && OnePerEntry(t)
    ensures rc == if TypeKind(r.specified) then -1 else 0
    ensures forall id :: Lookup(t, id) ==
              if id == r.Id(r.key) then Merge(r.specified, old(Lookup(t, id)), r.Payload()) else old(Lookup(t, id))
  {
    hide Avtab.Valid, Avtab.Group;
    rc := 0;
    if r.specified == ALLOWED || r.specified == AUDITALLOW {
      node.data := node.data + r.data;
    } else if r.specified == AUDITDENY {
      node.data := node.data * r.data;
    } else if XpermKind(r.specified) {
      node.xperms := Some(node.xperms.value.(perms := node.xperms.value.perms + r.xperms.value.perms));
    } else {
      rc := -1;
    }
    assert forall n <- t.nodes :: IdOf(n) == old(IdOf(n));
  }

  /** expand_avtab_insert: -1 is the "Type conflict!" error. */
  method InsertEntry(t: Avtab, r: Rule) returns (rc: int)
    requires t.Valid() && OnePerEntry(t) && r.Valid()
    modifies t, t.htable, t.nodes`next, t.nodes`data, t.nodes`xperms
    ensures t.Valid() && OnePerEntry(t) && fresh(t.nodes - old(t.nodes))
    ensures rc == if TypeKind(r.specified) && old(Lookup(t, r.Id(r.key))).Some? then -1 else 0
    ensures forall id :: Lookup(t, id) ==
              if id == r.Id(r.key) then Merge(r.specified, old(Lookup(t, id)), r.Payload()) else old(Lookup(t, id))
  {
    hide Avtab.Valid, Avtab.Group;
    var node := FindEntry(t, r);
    if node == null {
      AddEntry(t, r);
      rc := 0;
    } else {
      rc := MergeEntry(t, r, node);
    }
  }

  type Content = imap<Id, Option<Word>>

  ghost function ContentOf(t: Avtab): Content
    requires OnePerEntry(t)
    reads t`nodes, t.nodes`specified, t.nodes`data, t.nodes`xperms
  {
    imap id: Id :: Lookup(t, id)
  }

  /** From `v` to `w`, exactly the entries the rule hits have merged its payload. */
  ghost predicate Gained(v: Content, w: Content, r: Rule, ss: set<nat>, ts: set<nat>)
    requires r.Valid()
  {
    forall id :: id in v && id in w &&
      w[id] == if Hits(r, ss, ts, id) then Merge(r.specified, v[id], r.Payload()) else v[id]
  }

  lemma GainedTwice(u: Content, v: Content, w: Content, r: Rule, s1: set<nat>, t1: set<nat>,
                    s2: set<nat>, t2: set<nat>, ss: set<nat>, ts: set<nat>)
    requires r.Valid() && Gained(u, v, r, s1, t1) && Gained(v, w, r, s2, t2)
    requires forall a, b :: a in ss && b in ts <==> (a in s1 && b in t1) || (a in s2 && b in t2)
    ensures Gained(u, w, r, ss, ts)
  {
    hide Merge;
    forall id
      ensures w[id] == if Hits(r, ss, ts, id) then Merge(r.specified, u[id], r.Payload()) else u[id]
    {
      MergeTwice(r.specified, u[id], r.Payload());
    }
  }

  lemma MergeTwice(specified: bv16, before: Option<Word>, w: Word)
    ensures Merge(specified, Merge(specified, before, w), w) == Merge(specified, before, w)
  {
    if before.Some? {
      assert (before.value + w) + w == before.value + w;
      assert (before.value * w) * w == before.value * w;
    }
    assert w + w == w && w * w == w;
  }

  lemma GainedNowhere(v: Content, r: Rule, ss: set<nat>, ts: set<nat>)
    requires r.Valid() && (ss == {} || ts == {}) && forall id :: id in v
    ensures Gained(v, v, r, ss, ts)
  {
  }

  /** Some entry the rule hits is a type rule that already exists. */
  ghost predicate Clash(v: Content, r: Rule, ss: set<nat>, ts: set<nat>)
    requires r.Valid()
  {
    TypeKind(r.specified) && exists id :: Hits(r, ss, ts, id) && id in v && v[id].Some?
  }

  /** One source against all targets: the inner loop of expand_avtab_node. */
  method ExpandTargets(t: Avtab, r: Rule, source: nat, targets: seq<nat>) returns (rc: int)
    requires t.Valid() && OnePerEntry(t) && r.Valid() && Increasing(targets)
    modifies t, t.htable, t.nodes`next, t.nodes`data, t.nodes`xperms
    ensures t.Valid() && OnePerEntry(t) && fresh(t.nodes - old(t.nodes))
    ensures rc == if Clash(old(ContentOf(t)), r, {source}, Numbers(targets)) then -1 else 0
    ensures rc == 0 ==> Gained(old(ContentOf(t)), ContentOf(t), r, {source}, Numbers(targets))
  {
    hide Avtab.Valid, OnePerEntry, Lookup, Gained;
    assert Numbers(targets[..0]) == {};
    GainedNowhere(ContentOf(t), r, {source}, {});
    for j := 0 to |targets|
      invariant t.Valid() && OnePerEntry(t) && fresh(t.nodes - old(t.nodes))
      invariant !Clash(old(ContentOf(t)), r, {source}, Numbers(targets[..j]))
      invariant Gained(old(ContentOf(t)), ContentOf(t), r, {source}, Numbers(targets[..j]))
    {
      var one := r.(key := Triple(source, targets[j], r.key.cls));
      ghost var v := ContentOf(t);
      rc := InsertEntry(t, one);
      TargetStep(old(ContentOf(t)), v, ContentOf(t), r, source, targets, j);
      if rc != 0 {
        return;
      }
    }
    assert targets[..|targets|] == targets;
    rc := 0;
  }

  lemma TargetStep(u: Content, v: Content, w: Content, r: Rule, source: nat, targets: seq<nat>, j: nat)
    requires r.Valid() && j < |targets| && Increasing(targets)
    requires Gained(u, v, r, {source}, Numbers(targets[..j]))
    requires !Clash(u, r, {source}, Numbers(targets[..j]))
    ensures var id := r.Id(Triple(source, targets[j], r.key.cls));
            && u[id] == v[id]
            && (TypeKind(r.specified) && u[id].Some? ==> Clash(u, r, {source}, Numbers(targets)))
            && (!(TypeKind(r.specified) && u[id].Some?) ==> !Clash(u, r, {source}, Numbers(targets[..j + 1])))
            && ((forall i :: i in v && i in w && w[i] == if i == id then Merge(r.specified, v[i], r.Payload())
              else v[i]) ==>
                  Gained(u, w, r, {source}, Numbers(targets[..j + 1])))
  {
  }

  /** The pairs of expand_avtab_node: the members of the source against those of the target.  An
    * individual type stands for itself, so the four branches of the function are the four
    * combinations of `sources` and `targets`. */
  method ExpandNode(p: Types, t: Avtab, r: Rule) returns (rc: int)
    requires t.Valid() && OnePerEntry(t) && r.Valid()
    requires forall a :: Increasing(p.attrTypes(a))
    modifies t, t.htable, t.nodes`next, t.nodes`data, t.nodes`xperms
    ensures t.Valid() && OnePerEntry(t) && fresh(t.nodes - old(t.nodes))
    ensures var ss, ts := Members(p, r.key.source), Members(p, r.key.target);
            && rc == (if Clash(old(ContentOf(t)), r, ss, ts) then -1 else 0)
            && (rc == 0 ==> Gained(old(ContentOf(t)), ContentOf(t), r, ss, ts))
  {
    hide Avtab.Valid, OnePerEntry, Lookup, Gained;
    var sources, targets := MemberSeq(p, r.key.source), MemberSeq(p, r.key.target);
    ghost var ts := Numbers(targets);
    assert Numbers(sources[..0]) == {};
    GainedNowhere(ContentOf(t), r, {}, ts);
    for i := 0 to |sources|
      invariant t.Valid() && OnePerEntry(t) && fresh(t.nodes - old(t.nodes))
      invariant !Clash(old(ContentOf(t)), r, Numbers(sources[..i]), ts)
      invariant Gained(old(ContentOf(t)), ContentOf(t), r, Numbers(sources[..i]), ts)
    {
      ghost var v := ContentOf(t);
      rc := ExpandTargets(t, r, sources[i], targets);
      SourceStep(old(ContentOf(t)), v, ContentOf(t), r, sources, ts, i);
      if rc != 0 {
        return;
      }
    }
    assert sources[..|sources|] == sources;
    rc := 0;
  }

  lemma SourceStep(u: Content, v: Content, w: Content, r: Rule, sources: seq<nat>, ts: set<nat>, i: nat)
    requires r.Valid() && i < |sources| && Increasing(sources)
    requires Gained(u, v, r, Numbers(sources[..i]), ts)
    requires !Clash(u, r, Numbers(sources[..i]), ts)
    ensures Clash(v, r, {sources[i]}, ts) ==> Clash(u, r, Numbers(sources), ts)
    ensures !Clash(v, r, {sources[i]}, ts) ==> !Clash(u, r, Numbers(sources[..i + 1]), ts)
    ensures Gained(v, w, r, {sources[i]}, ts) ==> Gained(u, w, r, Numbers(sources[..i + 1]), ts)
  {
    assert Numbers(sources[..i + 1]) == Numbers(sources[..i]) + {sources[i]};
    if Gained(v, w, r, {sources[i]}, ts) {
      GainedTwice(u, v, w, r, Numbers(sources[..i]), ts, {sources[i]}, ts, Numbers(sources[..i + 1]), ts);
    }
  }

  ghost function RulesOf(ns: seq<AvNode>): (rules: seq<Rule>)
    reads (set n <- ns)`specified, (set n <- ns)`data, (set n <- ns)`xperms
    ensures |rules| == |ns| && forall i :: 0 <= i < |ns| ==> rules[i] == RuleOf(ns[i])
  {
    if ns == [] then [] else [RuleOf(ns[0])] + RulesOf(ns[1..])
  }

  ghost predicate AllValid(rules: seq<Rule>) {
    forall r <- rules :: r.Valid()
  }

  /** Two type rules for one entry. */
  ghost predicate Conflict(p: Types, rules: seq<Rule>)
    requires AllValid(rules)
  {
    exists i, j, id :: 0 <= i < j < |rules| && TypeKind(rules[i].specified) && Covers(p, rules[i], id) &&
      Covers(p, rules[j], id)
  }

  /** The content after expanding `rules` into an empty table. */
  ghost predicate Expanded(p: Types, rules: seq<Rule>, v: Content)
    requires AllValid(rules)
  {
    forall id :: id in v && v[id] == Gather(p, rules, id)
  }

  lemma ExpandStep(p: Types, rules: seq<Rule>, r: Rule, v: Content, w: Content)
    requires AllValid(rules) && r.Valid() && AllValid(rules + [r])
    requires Expanded(p, rules, v) && !Conflict(p, rules)
    ensures var ss, ts := Members(p, r.key.source), Members(p, r.key.target);
            && (Clash(v, r, ss, ts) <==> Conflict(p, rules + [r]))
            && (Gained(v, w, r, ss, ts) ==> Expanded(p, rules + [r], w))
  {
    hide Clash, Conflict;
    if Clash(v, r, Members(p, r.key.source), Members(p, r.key.target)) {
      ClashMeansConflict(p, rules, r, v);
    }
    if Conflict(p, rules + [r]) {
      ConflictMeansClash(p, rules, r, v);
    }
    assert (rules + [r])[..|rules|] == rules;
  }

  lemma ClashMeansConflict(p: Types, rules: seq<Rule>, r: Rule, v: Content)
    requires AllValid(rules) && r.Valid() && AllValid(rules + [r])
    requires Expanded(p, rules, v) && Clash(v, r, Members(p, r.key.source), Members(p, r.key.target))
    ensures Conflict(p, rules + [r])
  {
    var all := rules + [r];
    var id :| Covers(p, r, id) && v[id].Some?;
    GatherMeaning(p, rules, id);
    var i :| 0 <= i < |rules| && Covers(p, rules[i], id);
    assert Covers(p, all[i], id) && Covers(p, all[|rules|], id);
  }

  lemma ConflictMeansClash(p: Types, rules: seq<Rule>, r: Rule, v: Content)
    requires AllValid(rules) && r.Valid() && AllValid(rules + [r])
    requires Expanded(p, rules, v) && !Conflict(p, rules) && Conflict(p, rules + [r])
    ensures Clash(v, r, Members(p, r.key.source), Members(p, r.key.target))
  {
    hide Merge;
    var all := rules + [r];
    var i, j, id :| 0 <= i < j < |all| && TypeKind(all[i].specified) && Covers(p, all[i], id) && Covers(p, all[j], id);
    assert forall k :: 0 <= k < |rules| ==> all[k] == rules[k];
    GatherMeaning(p, rules, id);
    assert j == |rules| && rules[i] in rules && Hits(r, Members(p, r.key.source), Members(p, r.key.target), id);
  }

  /** The body of expand_avtab, as avtab_map calls it on the nodes in `order`. */
  method ExpandNodes(p: Types, order: seq<AvNode>, expa: Avtab, ghost rules: seq<Rule>) returns (rc: int)
    requires |rules| == |order| && AllValid(rules)
    requires forall k :: 0 <= k < |order| ==> RuleOf(order[k]) == rules[k] && order[k] !in expa.nodes
    requires forall t :: Increasing(p.attrTypes(t))
    requires expa.Valid() && expa.nodes == {}
    modifies expa, expa.htable
    ensures expa.Valid() && OnePerEntry(expa)
    ensures rc == if Conflict(p, rules) then -1 else 0
    ensures rc == 0 ==> Expanded(p, rules, ContentOf(expa))
  {
    hide Avtab.Valid, OnePerEntry, Lookup, Gained, Gather, Conflict, Clash, ContentOf, Expanded;
    EmptyTable(p, expa);
    for i := 0 to |order|
      invariant expa.Valid() && OnePerEntry(expa) && fresh(expa.nodes)
      invariant forall k :: 0 <= k < |order| ==> RuleOf(order[k]) == rules[k]
      invariant Expanded(p, rules[..i], ContentOf(expa)) && !Conflict(p, rules[..i])
    {
      var n := order[i];
      var r := Rule(n.key, n.specified, n.data, n.xperms);
      ghost var v := ContentOf(expa);
      rc := ExpandNode(p, expa, r);
      assert rules[..i + 1] == rules[..i] + [r];
      ExpandStep(p, rules[..i], r, v, ContentOf(expa));
      if rc != 0 {
        ConflictRemains(p, rules, i + 1);
        return;
      }
    }
    assert rules[..|order|] == rules;
    rc := 0;
  }

  // The promise in terms of the rules of the two tables.

  /** The type `s` is meant by `u`: the type itself, or a member of the attribute. */
  ghost predicate StandsFor(p: Types, u: nat, s: nat) {
    || (u in p.individual && s == u)
    || (u !in p.individual && s > 0 && s - 1 in p.attrTypes(u))
  }

  /** The same kind of rule for the same class; extended rules also with the same kind of set and
    * the same driver. */
  ghost predicate SameRule(n: Rule, m: Rule) {
    && n.specified == m.specified && n.key.cls == m.key.cls
    && (n.specified & 0x0700 != 0 && n.xperms.Some? && m.xperms.Some? ==>
          n.xperms.value.specified == m.xperms.value.specified && n.xperms.value.driver == m.xperms.value.driver)
  }

  /** The rule `n` of the source table is about what the rule `m` of the expanded one is about. */
  ghost predicate IsAbout(p: Types, n: Rule, m: Rule) {
    SameRule(n, m) && StandsFor(p, n.key.source, m.key.source) && StandsFor(p, n.key.target, m.key.target)
  }

  ghost function Says(r: Rule): Word {
    if r.specified & 0x0700 != 0 && r.xperms.Some? then r.xperms.value.perms else r.data
  }

  ghost function RulesIn(t: Avtab): set<Rule>
    reads t`nodes, t.nodes`specified, t.nodes`data, t.nodes`xperms
  {
    set n <- t.nodes :: RuleOf(n)
  }

  /** Every entry comes from some rule, and is there once. */
  ghost predicate NothingElse(p: Types, from: set<Rule>, to: set<Rule>) {
    && (forall m <- to :: exists n <- from :: IsAbout(p, n, m))
    && (forall l <- to, m <- to :: l.key == m.key && SameRule(l, m) ==> l == m)
  }

  /** Every pair a rule is about has an entry. */
  ghost predicate NothingMissing(p: Types, from: set<Rule>, to: set<Rule>) {
    forall n <- from, s: nat, t: nat :: StandsFor(p, n.key.source, s) && StandsFor(p, n.key.target, t) ==>
      exists m <- to :: m.key == Triple(s, t, n.key.cls) && SameRule(n, m)
  }

  /** An entry says what all rules about it say: the union of what they grant, and the
    * intersection of what they audit. */
  ghost predicate MaskKept(p: Types, from: set<Rule>, to: set<Rule>) {
    forall m <- to, b: int ::
      (b in Says(m) <==>
       if m.specified == 0x0004 then forall n <- from :: IsAbout(p, n, m) ==> b in Says(n)
       else exists n <- from :: IsAbout(p, n, m) && b in Says(n))
  }

  /** Two type rules are about one pair. */
  ghost predicate TypeConflict(p: Types, a: Avtab)
    reads a`nodes, a.nodes`specified, a.nodes`data, a.nodes`xperms
  {
    exists m <- a.nodes, n <- a.nodes, s: nat, t: nat ::
      && m != n && m.specified & 0x0070 != 0 && SameRule(RuleOf(m), RuleOf(n))
      && StandsFor(p, m.key.source, s) && StandsFor(p, n.key.source, s)
      && StandsFor(p, m.key.target, t) && StandsFor(p, n.key.target, t)
  }

  lemma MembersStand(p: Types, u: nat, s: nat)
    ensures s in Members(p, u) <==> StandsFor(p, u, s)
  {
    if s > 0 && s - 1 in p.attrTypes(u) && u !in p.individual {
      var i :| 0 <= i < |p.attrTypes(u)| && p.attrTypes(u)[i] == s - 1;
      assert MemberSeq(p, u)[i] == s;
    }
  }

  lemma AboutIsCovering(p: Types, n: Rule, m: Rule)
    requires n.Valid() && m.Valid()
    ensures IsAbout(p, n, m) <==> Covers(p, n, m.Id(m.key))
    ensures Says(n) == n.Payload()
    ensures SameRule(n, m) <==> n.Id(m.key) == m.Id(m.key) && n.key.cls == m.key.cls
  {
    MembersStand(p, n.key.source, m.key.source);
    MembersStand(p, n.key.target, m.key.target);
    assert forall e: bv16 :: XpermKind(e) ==> e & 0x0700 != 0;
    assert forall e: bv16 :: AvKind(e) || TypeKind(e) ==> e & 0x0700 == 0;
  }

  /** Of type rules the first counts, which without a conflict is the only one. */
  lemma {:induction false} GatherIsOne(p: Types, rules: seq<Rule>, id: Id)
    requires AllValid(rules) && TypeKind(id.specified) && Gather(p, rules, id).Some?
    ensures exists i :: 0 <= i < |rules| && Covers(p, rules[i], id) && Gather(p, rules, id).value == rules[i].Payload()
  {
    hide Covers;
    var r, before := rules[|rules| - 1], rules[..|rules| - 1];
    if Gather(p, before, id).Some? {
      GatherIsOne(p, before, id);
      var i :| 0 <= i < |before| && Covers(p, before[i], id) && Gather(p, before, id).value == before[i].Payload();
      assert rules[i] == before[i];
    }
  }

  lemma GatherTypeBits(p: Types, rules: seq<Rule>, id: Id, b: int)
    requires AllValid(rules) && TypeKind(id.specified) && Gather(p, rules, id).Some? && !Conflict(p, rules)
    ensures b in Gather(p, rules, id).value <==> exists r <- rules :: Covers(p, r, id) && b in r.Payload()
  {
    hide Gather;
    GatherIsOne(p, rules, id);
    var i :| 0 <= i < |rules| && Covers(p, rules[i], id) && Gather(p, rules, id).value == rules[i].Payload();
    assert rules[i] in rules;
    forall r <- rules | Covers(p, r, id) ensures r == rules[i] {
      var j :| 0 <= j < |rules| && rules[j] == r;
      assert TypeKind(rules[i].specified) && TypeKind(rules[j].specified);
      assert j == i by { CoverOnce(p, rules, i, j, id); }
    }
  }

  lemma CoverOnce(p: Types, rules: seq<Rule>, i: nat, j: nat, id: Id)
    requires AllValid(rules) && !Conflict(p, rules) && i < |rules| && j < |rules| && TypeKind(id.specified)
    requires Covers(p, rules[i], id) && Covers(p, rules[j], id)
    ensures i == j
  {
  }

  lemma ContentBits(p: Types, rules: seq<Rule>, m: Rule, b: int)
    requires AllValid(rules) && m.Valid() && !Conflict(p, rules)
    requires Gather(p, rules, m.Id(m.key)) == Some(m.Payload())
    ensures b in Says(m) <==>
            if m.specified == 0x0004 then forall n <- rules :: IsAbout(p, n, m) ==> b in Says(n)
            else exists n <- rules :: IsAbout(p, n, m) && b in Says(n)
  {
    hide Gather, Conflict, IsAbout, Covers, Says;
    var id := m.Id(m.key);
    GatherMeaning(p, rules, id);
    if TypeKind(m.specified) { GatherTypeBits(p, rules, id, b); }
    AboutIsCovering(p, m, m);
    forall n <- rules ensures (IsAbout(p, n, m) <==> Covers(p, n, id)) && Says(n) == n.Payload() {
      AboutIsCovering(p, n, m);
    }
  }

  /** The content of the expanded table, read as rules. */
  lemma ContentIsExpansion(p: Types, from: set<Rule>, rules: seq<Rule>, t: Avtab)
    requires AllValid(rules) && OnePerEntry(t) && !Conflict(p, rules)
    requires forall r :: r in from <==> r in rules
    requires forall id :: Lookup(t, id) == Gather(p, rules, id)
    ensures NothingElse(p, from, RulesIn(t)) && NothingMissing(p, from, RulesIn(t))
    ensures MaskKept(p, from, RulesIn(t))
  {
    hide Gather, Conflict, Covers, IsAbout, SameRule, StandsFor, Says;
    forall m <- t.nodes ensures Gather(p, rules, IdOf(m)) == Some(RuleOf(m).Payload()) {
      assert Lookup(t, IdOf(m)) == Some(RuleOf(m).Payload());
    }
    forall m <- RulesIn(t) ensures m.Valid() && Gather(p, rules, m.Id(m.key)) == Some(m.Payload()) {
    }
    forall m <- RulesIn(t) ensures exists n <- from :: IsAbout(p, n, m) {
      GatherMeaning(p, rules, m.Id(m.key));
      var n :| n in rules && Covers(p, n, m.Id(m.key));
      AboutIsCovering(p, n, m);
      assert n in from;
    }
    forall l <- RulesIn(t), m <- RulesIn(t) | l.key == m.key && SameRule(l, m) ensures l == m {
      AboutIsCovering(p, l, m);
    }
    forall m <- RulesIn(t), b: int
      ensures b in Says(m) <==>
              if m.specified == 0x0004 then forall n <- from :: IsAbout(p, n, m) ==> b in Says(n)
              else exists n <- from :: IsAbout(p, n, m) && b in Says(n)
    {
      ContentBits(p, rules, m, b);
    }
    forall n <- from, x: nat, y: nat | StandsFor(p, n.key.source, x) && StandsFor(p, n.key.target, y)
      ensures exists m <- RulesIn(t) :: m.key == Triple(x, y, n.key.cls) && SameRule(n, m)
    {
      EntryFor(p, rules, t, n, x, y);
    }
  }

  lemma EntryFor(p: Types, rules: seq<Rule>, t: Avtab, n: Rule, x: nat, y: nat)
    requires AllValid(rules) && OnePerEntry(t) && n in rules && StandsFor(p, n.key.source, x) &&
             StandsFor(p, n.key.target, y)
    requires forall id :: Lookup(t, id) == Gather(p, rules, id)
    ensures exists m <- RulesIn(t) :: m.key == Triple(x, y, n.key.cls) && SameRule(n, m)
  {
    hide Gather, StandsFor;
    var id := n.Id(Triple(x, y, n.key.cls));
    MembersStand(p, n.key.source, x);
    MembersStand(p, n.key.target, y);
    assert Covers(p, n, id);
    GatherMeaning(p, rules, id);
    assert Lookup(t, id).Some?;
    var m :| m in t.nodes && IdOf(m) == id;
    assert RuleOf(m) in RulesIn(t) && RuleOf(m).key == Triple(x, y, n.key.cls);
  }

  lemma RulesAre(a: Avtab, order: seq<AvNode>, rules: seq<Rule>)
    requires WalkOf(a, order, rules)
    ensures forall r :: r in RulesIn(a) <==> r in rules
    ensures forall n <- a.nodes :: RuleOf(n) in rules
    ensures forall r <- rules :: exists n <- a.nodes :: RuleOf(n) == r
  {
    hide RuleOf;
    forall r | r in rules ensures r in RulesIn(a) {
      var i :| 0 <= i < |rules| && rules[i] == r;
      assert order[i] in a.nodes;
    }
    forall n <- a.nodes ensures RuleOf(n) in rules {
      var i :| 0 <= i < |order| && order[i] == n;
      assert rules[i] == RuleOf(n);
    }
  }

  lemma ConflictIsTypeConflict(p: Types, a: Avtab, order: seq<AvNode>, rules: seq<Rule>)
    requires AllValid(rules) && WalkOf(a, order, rules)
    ensures Conflict(p, rules) <==> TypeConflict(p, a)
  {
    hide StandsFor, Rule.Id;
    if Conflict(p, rules) {
      var i, j, id :| 0 <= i < j < |rules| && TypeKind(rules[i].specified) && Covers(p, rules[i], id) &&
          Covers(p, rules[j], id);
      ConflictAt(p, rules[i], rules[j], id);
      assert order[i] != order[j] && SameRule(RuleOf(order[i]), RuleOf(order[j]));
    }
    if TypeConflict(p, a) {
      var m, n, x: nat, y: nat :| m in a.nodes && n in a.nodes
        && m != n && m.specified & 0x0070 != 0 && SameRule(RuleOf(m), RuleOf(n))
        && StandsFor(p, m.key.source, x) && StandsFor(p, n.key.source, x)
        && StandsFor(p, m.key.target, y) && StandsFor(p, n.key.target, y);
      var i :| 0 <= i < |order| && order[i] == m;
      var j :| 0 <= j < |order| && order[j] == n;
      ConflictFrom(p, rules, i, j, x, y);
    }
  }

  lemma ConflictAt(p: Types, r: Rule, q: Rule, id: Id)
    requires r.Valid() && q.Valid() && TypeKind(r.specified) && Covers(p, r, id) && Covers(p, q, id)
    ensures r.specified & 0x0070 != 0 && SameRule(r, q)
    ensures StandsFor(p, r.key.source, id.key.source) && StandsFor(p, q.key.source, id.key.source)
    ensures StandsFor(p, r.key.target, id.key.target) && StandsFor(p, q.key.target, id.key.target)
  {
    MembersStand(p, r.key.source, id.key.source);
    MembersStand(p, q.key.source, id.key.source);
    MembersStand(p, r.key.target, id.key.target);
    MembersStand(p, q.key.target, id.key.target);
  }

  lemma ConflictFrom(p: Types, rules: seq<Rule>, i: nat, j: nat, x: nat, y: nat)
    requires AllValid(rules) && i < |rules| && j < |rules| && i != j
    requires rules[i].specified & 0x0070 != 0 && SameRule(rules[i], rules[j])
    requires StandsFor(p, rules[i].key.source, x) && StandsFor(p, rules[j].key.source, x)
    requires StandsFor(p, rules[i].key.target, y) && StandsFor(p, rules[j].key.target, y)
    ensures Conflict(p, rules)
  {
    var r, q := rules[i], rules[j];
    assert r.Valid() && q.Valid() && TypeKind(r.specified);
    MembersStand(p, r.key.source, x);
    MembersStand(p, q.key.source, x);
    MembersStand(p, r.key.target, y);
    MembersStand(p, q.key.target, y);
    var id := r.Id(Triple(x, y, r.key.cls));
    assert Covers(p, r, id) && Covers(p, q, id);
    if i < j {
      assert Covers(p, rules[i], id) && Covers(p, rules[j], id);
    } else {
      assert Covers(p, rules[j], id) && Covers(p, rules[i], id) && TypeKind(rules[j].specified);
    }
  }

  /** The nodes of the table in the order avtab_map visits them, with their rules. */
  ghost predicate WalkOf(a: Avtab, order: seq<AvNode>, rules: seq<Rule>)
    reads a`nodes, a.nodes`specified, a.nodes`data, a.nodes`xperms
  {
    && |rules| == |order| && (forall i :: 0 <= i < |order| ==> order[i] in a.nodes && rules[i] == RuleOf(order[i]))
    && (forall n <- a.nodes :: n in order) && (forall i, j :: 0 <= i < j < |order| ==> order[i] != order[j])
  }

  /** avtab_map with expand_avtab_node, into an empty table. */
  method ExpandTable(p: Types, a: Avtab, nslot: nat, slotOf: Triple -> nat)
    returns (rc: int, expa: Avtab, ghost order: seq<AvNode>, ghost rules: seq<Rule>)
    requires a.Valid() && (forall n <- a.nodes :: RuleOf(n).Valid())
    requires forall t :: Increasing(p.attrTypes(t))
    requires 0 < nslot && forall t :: slotOf(t) < nslot
    ensures WalkOf(a, order, rules) && AllValid(rules) && fresh(expa) && expa.Valid() && OnePerEntry(expa)
    ensures rc == if Conflict(p, rules) then -1 else 0
    ensures rc == 0 ==> forall id :: Lookup(expa, id) == Gather(p, rules, id)
  {
    hide Avtab.Valid, OnePerEntry, Lookup, Gather, Conflict, RuleOf;
    var nodes := a.Walk();
    order := nodes;
    rules := RulesOf(nodes);
    expa := new Avtab(nslot, slotOf);
    rc := ExpandNodes(p, nodes, expa, rules);
  }

  /** expand_avtab.  `rules` are the rules of `a` in the order avtab_map visits them. */
  method ExpandAvtab(p: Types, a: Avtab, nslot: nat, slotOf: Triple -> nat)
    returns (rc: int, expa: Avtab, ghost rules: seq<Rule>)
    requires a.Valid() && (forall n <- a.nodes :: RuleOf(n).Valid())
    requires forall t :: Increasing(p.attrTypes(t))
    requires 0 < nslot && forall t :: slotOf(t) < nslot
    ensures AllValid(rules) && fresh(expa) && expa.Valid() && OnePerEntry(expa)
    ensures (forall n <- a.nodes :: RuleOf(n) in rules) && (forall r <- rules :: exists n <- a.nodes :: RuleOf(n) == r)
    ensures rc == if Conflict(p, rules) then -1 else 0
    ensures rc == 0 ==> forall id :: Lookup(expa, id) == Gather(p, rules, id)
    ensures rc == if TypeConflict(p, a) then -1 else 0
    ensures rc == 0 ==>
              && NothingElse(p, RulesIn(a), RulesIn(expa)) && NothingMissing(p, RulesIn(a), RulesIn(expa))
              && MaskKept(p, RulesIn(a), RulesIn(expa))
  {
    hide Avtab.Valid, OnePerEntry, Lookup, Gather, Conflict, RuleOf, RulesIn, AllValid, Increasing;
    hide TypeConflict, NothingElse, NothingMissing, MaskKept, Rule.Valid, WalkOf;
    ghost var order;
    rc, expa, order, rules := ExpandTable(p, a, nslot, slotOf);
    RulesAre(a, order, rules);
    ConflictIsTypeConflict(p, a, order, rules);
    if rc == 0 {
      ContentIsExpansion(p, RulesIn(a), rules, expa);
    }
  }

  lemma EmptyTable(p: Types, t: Avtab)
    requires t.nodes == {}
    ensures OnePerEntry(t) && Expanded(p, [], ContentOf(t)) && !Conflict(p, [])
  {
  }

  lemma ConflictRemains(p: Types, rules: seq<Rule>, i: nat)
    requires AllValid(rules) && i <= |rules| && AllValid(rules[..i])
    ensures Conflict(p, rules[..i]) ==> Conflict(p, rules)
  {
    if Conflict(p, rules[..i]) {
      var a, b, id :| 0 <= a < b < i && TypeKind(rules[..i][a].specified)
                      && Covers(p, rules[..i][a], id) && Covers(p, rules[..i][b], id);
      assert rules[..i][a] == rules[a] && rules[..i][b] == rules[b];
    }
  }
}
