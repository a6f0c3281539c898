/** Extended permission rules (sepol_impl.rs): add_xperm_rule_impl edits the set of 16-bit ioctl
  * commands of a key, which is spread over one driver node and one function node per driver.
  */
module XpermRule {
  import opened AvTables

  const ALL_256: Word := set b: int | 0 <= b < 256

  /** The node carries ioctl commands for (`key`, `effect`). */
  ghost predicate Carries(n: AvNode, key: Triple, effect: bv16)
    reads n`specified, n`xperms
  {
    n.key == key && Overlaps(effect, n.specified) && n.xperms.Some?
  }

  ghost predicate IsDriver(n: AvNode, key: Triple, effect: bv16)
    reads n`specified, n`xperms
  {
    Carries(n, key, effect) && n.xperms.value.specified == IOCTLDRIVER
  }

  ghost predicate IsFunction(n: AvNode, key: Triple, effect: bv16)
    reads n`specified, n`xperms
  {
    Carries(n, key, effect) && n.xperms.value.specified == IOCTLFUNCTION
  }

  /** The key has at most one driver node, and at most one function node per driver byte. */
  ghost predicate Canonical(ns: set<AvNode>, key: Triple, effect: bv16)
    reads ns`specified, ns`xperms
  {
    && (forall m <- ns, n <- ns :: IsDriver(m, key, effect) && IsDriver(n, key, effect) ==> m == n)
    && (forall m <- ns, n <- ns :: IsFunction(m, key, effect) && IsFunction(n, key, effect) ==>
          m == n || m.xperms.value.driver != n.xperms.value.driver)
    && (forall n <- ns :: IsFunction(n, key, effect) ==> n.xperms.value.driver < 256)
  }

  /** The command is allowed: through its driver byte as a whole, or through its function byte. */
  ghost predicate Allows(ns: set<AvNode>, key: Triple, effect: bv16, cmd: nat)
    reads ns`specified, ns`xperms
  {
    exists n <- ns ::
      || (IsDriver(n, key, effect) && cmd / 256 in n.xperms.value.perms)
      || (IsFunction(n, key, effect) && n.xperms.value.driver == cmd / 256
          && cmd % 256 in n.xperms.value.perms)
  }

  /** Everything the edit of (`key`, `effect`) must leave alone. */
  ghost function Rest(ns: set<AvNode>, key: Triple, effect: bv16): set<(AvNode, Option<Xperms>)>
    reads ns`specified, ns`xperms
  {
    set n <- ns | !IsDriver(n, key, effect) && !IsFunction(n, key, effect) :: (n, n.xperms)
  }

  /** The commands a rule with bounds `low` and `high` names: the exact range within one driver
    * byte, and whole drivers otherwise. */
  predicate Named(low: nat, high: nat, cmd: nat) {
    if low / 256 == high / 256 then low <= cmd <= high
    else low / 256 <= cmd / 256 <= high / 256
  }

  /** The rounding of a range that spans drivers. */
  lemma NamedRounds(low: nat, high: nat, cmd: nat)
    requires low / 256 != high / 256
    ensures Named(low, high, cmd) <==> low - low % 256 <= cmd <= high - high % 256 + 255
  {
  }

  /** `driver` and `functions` are the key's nodes, as the first loop of add_xperm_rule_impl
    * collects them: functions[d] is the node of driver byte `d`, or null. */
  ghost predicate Listed(ns: set<AvNode>, key: Triple, effect: bv16, driver: AvNode?, functions: seq<AvNode?>)
    reads ns`specified, ns`xperms
  {
    && |functions| == 256
    && (driver != null ==> driver in ns && IsDriver(driver, key, effect))
    && (forall d :: 0 <= d < 256 && functions[d] != null ==>
          && functions[d] in ns && IsFunction(functions[d], key, effect)
          && functions[d].xperms.value.driver == d)
    && (forall n <- ns :: IsDriver(n, key, effect) ==> n == driver)
    && (forall n <- ns :: IsFunction(n, key, effect) ==>
          n.xperms.value.driver < 256 && functions[n.xperms.value.driver] == n)
  }

  lemma ListedMeaning(ns: set<AvNode>, key: Triple, effect: bv16, driver: AvNode?, functions: seq<AvNode?>)
    requires Listed(ns, key, effect, driver, functions)
    ensures Canonical(ns, key, effect)
    ensures forall cmd: nat :: cmd < 0x10000 ==>
              (Allows(ns, key, effect, cmd) <==>
               || (driver != null && cmd / 256 in driver.xperms.value.perms)
               || (functions[cmd / 256] != null && cmd % 256 in functions[cmd / 256].xperms.value.perms))
  {
  }

  lemma CanonicalPart(ns: set<AvNode>, ms: set<AvNode>, key: Triple, effect: bv16)
    requires Canonical(ns, key, effect) && ms <= ns
    ensures Canonical(ms, key, effect)
  {
  }

  lemma FunctionByte(ns: set<AvNode>, n: AvNode, key: Triple, effect: bv16)
    requires Canonical(ns, key, effect) && n in ns
    ensures IsFunction(n, key, effect) ==> n.xperms.value.driver < 256
  {
  }

  lemma ListedNone(g: seq<AvNode>, key: Triple, effect: bv16, p: nat, none: seq<AvNode?>)
    requires NextAt(g, effect, 0, p) && |none| == 256 && forall d :: 0 <= d < 256 ==> none[d] == null
    ensures Listed(Elements(g[..p]), key, effect, null, none)
  {
  }

  /** Listing one more node, and skipping those that do not overlap. */
  lemma ListedNext(g: seq<AvNode>, key: Triple, effect: bv16, p: nat, q: nat,
                   driver: AvNode?, functions: seq<AvNode?>)
    requires p < |g| && NextAt(g, effect, p + 1, q) && g[p].key == key && Overlaps(effect, g[p].specified)
    requires Canonical(Elements(g), key, effect)
    requires Listed(Elements(g[..p]), key, effect, driver, functions)
    requires forall i, j :: 0 <= i < j < |g| ==> g[i] != g[j]
    ensures var n := g[p];
            Listed(Elements(g[..q]), key, effect, if IsDriver(n, key, effect) then n else driver,
                   if IsFunction(n, key, effect) then functions[n.xperms.value.driver := n] else functions)
  {
    assert g[p] in g && forall m <- g[..p] :: m in g;
  }

  lemma ListedGroup(ns: set<AvNode>, g: seq<AvNode>, key: Triple, effect: bv16,
                    driver: AvNode?, functions: seq<AvNode?>)
    requires Listed(Elements(g), key, effect, driver, functions)
    requires forall n <- g :: n in ns
    requires forall n <- ns :: n.key == key ==> n in g
    ensures Listed(ns, key, effect, driver, functions)
  {
  }

  /** One turn of the loop: the node at position `p` of the group is listed, and the search goes
    * on behind it. */
  method CollectNode(t: Avtab, key: Triple, effect: bv16, node: AvNode, ghost p: nat, driver: AvNode?,
      functions: seq<AvNode?>)
    returns (next: AvNode?, ghost q: nat, newDriver: AvNode?, newFunctions: seq<AvNode?>)
    requires t.Valid() && t.slotOf(key) < |t.chains| && p < |t.Group(key)| && t.Group(key)[p] == node
    requires node.key == key && Overlaps(effect, node.specified) && Canonical(Elements(t.Group(key)), key, effect)
    requires forall i, j :: 0 <= i < j < |t.Group(key)| ==> t.Group(key)[i] != t.Group(key)[j]
    requires |functions| == 256 && Listed(Elements(t.Group(key)[..p]), key, effect, driver, functions)
    ensures NextAt(t.Group(key), effect, p + 1, q) && next == if q < |t.Group(key)| then t.Group(key)[q] else null
    ensures |newFunctions| == 256 && Listed(Elements(t.Group(key)[..q]), key, effect, newDriver, newFunctions)
  {
    hide Avtab.Valid, Avtab.Group, Listed, Canonical;
    ghost var g := t.Group(key);
    newDriver, newFunctions := driver, functions;
    assert node in Elements(g);
    FunctionByte(Elements(g), node, key, effect);
    if node.xperms.Some? {
      var xp := node.xperms.value;
      if xp.specified == IOCTLDRIVER {
        newDriver := node;
      } else if xp.specified == IOCTLFUNCTION {
        newFunctions := functions[xp.driver := node];
      }
    }
    next, q := t.SearchNodeNext(node, effect, p);
    ListedNext(g, key, effect, p, q, driver, functions);
  }

  /** The loop over avtab_search_node and avtab_search_node_next. */
  method Collect(t: Avtab, key: Triple, effect: bv16) returns (driver: AvNode?, functions: seq<AvNode?>)
    requires t.Valid() && Canonical(t.nodes, key, effect)
    ensures Listed(t.nodes, key, effect, driver, functions)
  {
    hide Avtab.Valid, Avtab.Group, Listed, Canonical;
    driver, functions := null, seq(256, _ => null);
    t.GroupMembers(key);
    ghost var g := t.Group(key);
    CanonicalPart(t.nodes, Elements(g), key, effect);
    var node, p := t.SearchNode(key, effect);
    ListedNone(g, key, effect, p, functions);
    while node != null
      invariant NextAt(g, effect, p, p)
      invariant node == if p < |g| then g[p] else null
      invariant |functions| == 256 && Listed(Elements(g[..p]), key, effect, driver, functions)
      decreases |g| - p
    {
      node, p, driver, functions := CollectNode(t, key, effect, node, p, driver, functions);
    }
    assert g[..p] == g;
    ListedGroup(t.nodes, g, key, effect, driver, functions);
  }

  /** create_driver_node and create_func_node. */
  method CreateNode(t: Avtab, key: Triple, effect: bv16, specified: nat, driver: nat) returns (node: AvNode)
    requires t.Valid()
    modifies t, t.htable, t.nodes`next
    ensures t.Valid() && fresh(node) && t.nodes == old(t.nodes) + {node}
    ensures node.key == key && node.specified == effect
    ensures node.xperms == Some(Xperms(specified, driver, {}))
  {
    hide Avtab.Valid, Avtab.Group;
    ghost var pos;
    node, pos := t.InsertNonunique(key, effect, {}, None);
    node.xperms := Some(Xperms(specified, driver, {}));
  }

  /** A node of its own driver byte (or the first driver node) joins the list. */
  lemma ListedAdd(ns: set<AvNode>, n: AvNode, key: Triple, effect: bv16,
                  driver: AvNode?, functions: seq<AvNode?>)
    requires Listed(ns, key, effect, driver, functions) && n !in ns
    ensures IsDriver(n, key, effect) && driver == null ==>
              Listed(ns + {n}, key, effect, n, functions)
    ensures IsFunction(n, key, effect) && n.xperms.value.driver < 256 && functions[n.xperms.value.driver] == null ==>
              Listed(ns + {n}, key, effect, driver, functions[n.xperms.value.driver := n])
    ensures IsDriver(n, key, effect) || IsFunction(n, key, effect) ==>
              Rest(ns + {n}, key, effect) == Rest(ns, key, effect)
  {
  }

  method EnsureDriver(t: Avtab, key: Triple, effect: bv16, driver: AvNode?, functions: seq<AvNode?>)
    returns (node: AvNode)
    requires t.Valid() && XpermKind(effect) && Listed(t.nodes, key, effect, driver, functions)
    modifies t, t.htable, t.nodes`next
    ensures t.Valid() && Listed(t.nodes, key, effect, node, functions)
    ensures t.nodes == old(t.nodes) + {node} && fresh(t.nodes - old(t.nodes))
    ensures node.xperms == if driver != null then driver.xperms else Some(Xperms(IOCTLDRIVER, 0, {}))
    ensures Rest(t.nodes, key, effect) == old(Rest(t.nodes, key, effect))
  {
    hide Avtab.Valid, Rest;
    if driver != null {
      node := driver;
    } else {
      node := CreateNode(t, key, effect, IOCTLDRIVER, 0);
      ListedAdd(old(t.nodes), node, key, effect, driver, functions);
    }
  }

  method EnsureFunction(t: Avtab, key: Triple, effect: bv16, driver: AvNode?, functions: seq<AvNode?>, d: nat)
    returns (node: AvNode)
    requires t.Valid() && XpermKind(effect) && Listed(t.nodes, key, effect, driver, functions) && d < 256
    modifies t, t.htable, t.nodes`next
    ensures t.Valid() && Listed(t.nodes, key, effect, driver, functions[d := node])
    ensures t.nodes == old(t.nodes) + {node} && fresh(t.nodes - old(t.nodes))
    ensures node.xperms == if functions[d] != null then functions[d].xperms else Some(Xperms(IOCTLFUNCTION, d, {}))
    ensures Rest(t.nodes, key, effect) == old(Rest(t.nodes, key, effect))
  {
    hide Avtab.Valid, Rest;
    if functions[d] != null {
      node := functions[d];
      assert functions[d := node] == functions;
    } else {
      node := CreateNode(t, key, effect, IOCTLFUNCTION, d);
      ListedAdd(old(t.nodes), node, key, effect, driver, functions);
    }
  }

  function Range(low: int, high: int): (r: set<int>)
    ensures forall b :: b in r <==> low <= b <= high
    decreases high - low + 1
  {
    if high < low then {} else Range(low, high - 1) + {high}
  }

  /** The loop that sets (or clears) the bits `low` to `high` of a node. */
  method WriteBits(node: AvNode, low: nat, high: nat, value: bool)
    requires node.xperms.Some?
    modifies node`xperms
    ensures var x := old(node.xperms.value);
            node.xperms == Some(x.(perms := if value then x.perms + Range(low, high) else x.perms - Range(low, high)))
  {
    ghost var x := node.xperms.value;
    var i, perms := low, node.xperms.value.perms;
    while i <= high
      invariant low <= i && (i <= high + 1 || i == low)
      invariant perms == if value then x.perms + Range(low, i - 1) else x.perms - Range(low, i - 1)
      invariant node.xperms == Some(x.(perms := perms))
      decreases high + 1 - i
    {
      var xp := node.xperms.value;
      perms := if value then xp.perms + {i} else xp.perms - {i};
      node.xperms := Some(xp.(perms := perms));
      i := i + 1;
    }
    assert Range(low, i - 1) == Range(low, high);
  }

  /** Rewriting the permission bits of one listed node keeps the list and everything else. */
  method WriteListed(t: Avtab, key: Triple, effect: bv16, driver: AvNode?, functions: seq<AvNode?>,
                     node: AvNode, low: nat, high: nat, value: bool)
    requires t.Valid() && Listed(t.nodes, key, effect, driver, functions)
    requires node == driver || node in functions
    modifies node`xperms
    ensures t.Valid() && Listed(t.nodes, key, effect, driver, functions)
    ensures var x := old(node.xperms.value);
            node.xperms == Some(x.(perms := if value then x.perms + Range(low, high) else x.perms - Range(low, high)))
    ensures Rest(t.nodes, key, effect) == old(Rest(t.nodes, key, effect))
  {
    hide Avtab.Valid;
    WriteBits(node, low, high, value);
  }

  /** The plain branch of add_xperm_rule_impl, for a range that spans drivers. */
  method AddDrivers(t: Avtab, key: Triple, effect: bv16, low: nat, high: nat,
                    driver: AvNode?, functions: seq<AvNode?>)
    requires t.Valid() && XpermKind(effect) && Listed(t.nodes, key, effect, driver, functions)
    requires low < 0x10000 && high < 0x10000
    modifies t, t.htable, t.nodes`next, t.nodes`xperms
    ensures t.Valid() && Canonical(t.nodes, key, effect) && fresh(t.nodes - old(t.nodes))
    requires low / 256 != high / 256
    ensures forall cmd: nat :: cmd < 0x10000 ==>
              (Allows(t.nodes, key, effect, cmd) <==>
               old(Allows(t.nodes, key, effect, cmd)) || Named(low, high, cmd))
    ensures Rest(t.nodes, key, effect) == old(Rest(t.nodes, key, effect))
  {
    hide Avtab.Valid, Rest, Allows, Canonical;
    ListedMeaning(t.nodes, key, effect, driver, functions);
    var node := EnsureDriver(t, key, effect, driver, functions);
    WriteListed(t, key, effect, node, functions, node, low / 256, high / 256, true);
    ListedMeaning(t.nodes, key, effect, node, functions);
  }

  /** The plain branch within one driver. */
  method AddFunctions(t: Avtab, key: Triple, effect: bv16, low: nat, high: nat,
                      driver: AvNode?, functions: seq<AvNode?>)
    requires t.Valid() && XpermKind(effect) && Listed(t.nodes, key, effect, driver, functions)
    requires low < 0x10000 && high < 0x10000
    modifies t, t.htable, t.nodes`next, t.nodes`xperms
    ensures t.Valid() && Canonical(t.nodes, key, effect) && fresh(t.nodes - old(t.nodes))
    requires low / 256 == high / 256
    ensures forall cmd: nat :: cmd < 0x10000 ==>
              (Allows(t.nodes, key, effect, cmd) <==>
               old(Allows(t.nodes, key, effect, cmd)) || Named(low, high, cmd))
    ensures Rest(t.nodes, key, effect) == old(Rest(t.nodes, key, effect))
  {
    hide Avtab.Valid, Rest, Allows, Canonical;
    ListedMeaning(t.nodes, key, effect, driver, functions);
    var d := low / 256;
    var node := EnsureFunction(t, key, effect, driver, functions, d);
    var listed := functions[d := node];
    assert listed[d] == node;
    WriteListed(t, key, effect, driver, listed, node, low % 256, high % 256, true);
    ListedMeaning(t.nodes, key, effect, driver, listed);
  }

  /** The loop that removes every function node of the key. */
  method RemoveFunctions(t: Avtab, key: Triple, effect: bv16, driver: AvNode?, functions: seq<AvNode?>)
    requires t.Valid() && Listed(t.nodes, key, effect, driver, functions)
    modifies t, t.htable, t.nodes`next
    ensures t.Valid() && t.nodes <= old(t.nodes)
    ensures Listed(t.nodes, key, effect, driver, seq(256, _ => null))
    ensures Rest(t.nodes, key, effect) == old(Rest(t.nodes, key, effect))
  {
    hide Avtab.Valid, Rest, Listed;
    ListedLength(t.nodes, key, effect, driver, functions);
    var list := functions;
    for i := 0 to 256
      invariant t.Valid() && t.nodes <= old(t.nodes) && |list| == 256
      invariant Listed(t.nodes, key, effect, driver, list)
      invariant forall d :: 0 <= d < i ==> list[d] == null
      invariant Rest(t.nodes, key, effect) == old(Rest(t.nodes, key, effect))
    {
      if list[i] != null {
        ListedRemove(t.nodes, key, effect, driver, list, i);
        ghost var ns := t.nodes;
        var rc, p := t.RemoveNode(list[i]);
        list := list[i := null];
      }
    }
    assert list == seq(256, _ => null);
  }

  lemma ListedLength(ns: set<AvNode>, key: Triple, effect: bv16, driver: AvNode?, functions: seq<AvNode?>)
    requires Listed(ns, key, effect, driver, functions)
    ensures |functions| == 256
  {
  }

  lemma ListedRemove(ns: set<AvNode>, key: Triple, effect: bv16, driver: AvNode?, functions: seq<AvNode?>, d: nat)
    requires Listed(ns, key, effect, driver, functions) && d < 256 && functions[d] != null
    ensures functions[d] in ns
    ensures Listed(ns - {functions[d]}, key, effect, driver, functions[d := null])
    ensures Rest(ns - {functions[d]}, key, effect) == Rest(ns, key, effect)
  {
  }

  /** Filling a listed node with all 256 bits. */
  method FillListed(t: Avtab, key: Triple, effect: bv16, driver: AvNode?, functions: seq<AvNode?>, node: AvNode)
    requires t.Valid() && Listed(t.nodes, key, effect, driver, functions)
    requires node == driver || node in functions
    modifies node`xperms
    ensures t.Valid() && Listed(t.nodes, key, effect, driver, functions)
    ensures node.xperms == Some(old(node.xperms.value).(perms := ALL_256))
    ensures Rest(t.nodes, key, effect) == old(Rest(t.nodes, key, effect))
  {
    hide Avtab.Valid;
    node.xperms := Some(node.xperms.value.(perms := ALL_256));
  }

  /** The reset branch up to the driver node: no function node is left, and the driver node
    * allows everything but the drivers of the range. */
  method ResetDrivers(t: Avtab, key: Triple, effect: bv16, low: nat, high: nat,
                      driver: AvNode?, functions: seq<AvNode?>)
    returns (node: AvNode)
    requires t.Valid() && XpermKind(effect) && Listed(t.nodes, key, effect, driver, functions)
    requires low < 0x10000 && high < 0x10000
    modifies t, t.htable, t.nodes`next, t.nodes`xperms
    ensures t.Valid() && Listed(t.nodes, key, effect, node, seq(256, _ => null)) && fresh(t.nodes - old(t.nodes))
    ensures node.xperms.value.perms == ALL_256 - Range(low / 256, high / 256)
    ensures Rest(t.nodes, key, effect) == old(Rest(t.nodes, key, effect))
  {
    hide Avtab.Valid, Rest;
    var none: seq<AvNode?> := seq(256, _ => null);
    RemoveFunctions(t, key, effect, driver, functions);
    node := EnsureDriver(t, key, effect, driver, none);
    FillListed(t, key, effect, node, none, node);
    WriteListed(t, key, effect, node, none, node, low / 256, high / 256, false);
  }

  /** The reset branch of add_xperm_rule_impl. */
  method ResetCommands(t: Avtab, key: Triple, effect: bv16, low: nat, high: nat,
                       driver: AvNode?, functions: seq<AvNode?>)
    requires t.Valid() && XpermKind(effect) && Listed(t.nodes, key, effect, driver, functions)
    requires low < 0x10000 && high < 0x10000
    modifies t, t.htable, t.nodes`next, t.nodes`xperms
    ensures t.Valid() && Canonical(t.nodes, key, effect) && fresh(t.nodes - old(t.nodes))
    ensures forall cmd: nat :: cmd < 0x10000 ==>
              (Allows(t.nodes, key, effect, cmd) <==> !Named(low, high, cmd))
    ensures Rest(t.nodes, key, effect) == old(Rest(t.nodes, key, effect))
  {
    hide Avtab.Valid, Rest, Allows, Canonical;
    var none: seq<AvNode?> := seq(256, _ => null);
    var node := ResetDrivers(t, key, effect, low, high, driver, functions);
    if low / 256 == high / 256 {
      OpenFunctions(t, key, effect, low, high, node, none);
    } else {
      ListedMeaning(t.nodes, key, effect, node, none);
    }
  }

  /** The end of the reset branch within one driver: all functions but those of the range. */
  method OpenFunctions(t: Avtab, key: Triple, effect: bv16, low: nat, high: nat,
                       node: AvNode, none: seq<AvNode?>)
    requires t.Valid() && XpermKind(effect) && Listed(t.nodes, key, effect, node, none)
    requires none == seq(256, _ => null) && low / 256 == high / 256 < 256
    requires node.xperms.value.perms == ALL_256 - {low / 256}
    modifies t, t.htable, t.nodes`next, t.nodes`xperms
    ensures t.Valid() && Canonical(t.nodes, key, effect) && fresh(t.nodes - old(t.nodes))
    ensures forall cmd: nat :: cmd < 0x10000 ==>
              (Allows(t.nodes, key, effect, cmd) <==> !Named(low, high, cmd))
    ensures Rest(t.nodes, key, effect) == old(Rest(t.nodes, key, effect))
  {
    hide Avtab.Valid, Rest, Allows, Canonical;
    var d := low / 256;
    var func := EnsureFunction(t, key, effect, node, none, d);
    var listed := none[d := func];
    assert listed[d] == func;
    FillListed(t, key, effect, node, listed, func);
    WriteListed(t, key, effect, node, listed, func, low % 256, high % 256, false);
    ListedMeaning(t.nodes, key, effect, node, listed);
  }

  datatype Xperm = Xperm(low: nat, high: nat, reset: bool)

  /** What one call does to a set of commands. */
  predicate AfterCall(x: Xperm, before: bool, cmd: nat) {
    if x.reset then !Named(x.low, x.high, cmd) else before || Named(x.low, x.high, cmd)
  }

  /** The bounds of the commands a call is about: whole drivers unless it stays within one. */
  function RoundedLow(x: Xperm): nat {
    if x.low / 256 == x.high / 256 then x.low else x.low / 256 * 256
  }

  function RoundedHigh(x: Xperm): nat {
    if x.low / 256 == x.high / 256 then x.high else x.high / 256 * 256 + 255
  }

  lemma NamedIsRange(x: Xperm, cmd: nat)
    ensures Named(x.low, x.high, cmd) <==> RoundedLow(x) <= cmd <= RoundedHigh(x)
  {
    if x.low / 256 != x.high / 256 {
      NamedRounds(x.low, x.high, cmd);
    }
  }

  /** add_xperm_rule_impl. */
  method AddXpermRuleImpl(t: Avtab, key: Triple, effect: bv16, x: Xperm)
    requires t.Valid() && XpermKind(effect) && Canonical(t.nodes, key, effect)
    requires x.low < 0x10000 && x.high < 0x10000
    modifies t, t.htable, t.nodes`next, t.nodes`xperms
    ensures t.Valid() && Canonical(t.nodes, key, effect) && fresh(t.nodes - old(t.nodes))
    ensures forall cmd: nat :: cmd < 0x10000 ==>
              (Allows(t.nodes, key, effect, cmd) <==> AfterCall(x, old(Allows(t.nodes, key, effect, cmd)), cmd))
    ensures forall cmd: nat :: cmd < 0x10000 ==>
              (Allows(t.nodes, key, effect, cmd) <==>
               if x.reset then !(RoundedLow(x) <= cmd <= RoundedHigh(x))
               else old(Allows(t.nodes, key, effect, cmd)) || RoundedLow(x) <= cmd <= RoundedHigh(x))
    ensures Rest(t.nodes, key, effect) == old(Rest(t.nodes, key, effect))
  {
    hide Avtab.Valid, Rest, Allows, Canonical, Listed, Named, RoundedLow, RoundedHigh;
    forall cmd: nat { NamedIsRange(x, cmd); }
    var driver, functions := Collect(t, key, effect);
    if x.reset {
      ResetCommands(t, key, effect, x.low, x.high, driver, functions);
    } else if x.low / 256 != x.high / 256 {
      AddDrivers(t, key, effect, x.low, x.high, driver, functions);
    } else {
      AddFunctions(t, key, effect, x.low, x.high, driver, functions);
    }
  }

  /** What a list of calls does to a set of commands, the first call first. */
  predicate AfterCalls(xs: seq<Xperm>, before: bool, cmd: nat) {
    if xs == [] then before else AfterCall(xs[|xs| - 1], AfterCalls(xs[..|xs| - 1], before, cmd), cmd)
  }

  /** The loop of allowxperm (lib.rs) over the permission list of one rule. */
  method AddXpermRules(t: Avtab, key: Triple, effect: bv16, xs: seq<Xperm>)
    requires t.Valid() && XpermKind(effect) && Canonical(t.nodes, key, effect)
    requires forall x <- xs :: x.low < 0x10000 && x.high < 0x10000
    modifies t, t.htable, t.nodes`next, t.nodes`xperms
    ensures t.Valid() && Canonical(t.nodes, key, effect) && fresh(t.nodes - old(t.nodes))
    ensures forall cmd: nat :: cmd < 0x10000 ==>
              (Allows(t.nodes, key, effect, cmd) <==> AfterCalls(xs, old(Allows(t.nodes, key, effect, cmd)), cmd))
    ensures Rest(t.nodes, key, effect) == old(Rest(t.nodes, key, effect))
  {
    hide Avtab.Valid, Rest, Allows, Canonical, AfterCall;
    for i := 0 to |xs|
      invariant t.Valid() && Canonical(t.nodes, key, effect) && fresh(t.nodes - old(t.nodes))
      invariant forall cmd: nat :: cmd < 0x10000 ==>
                  (Allows(t.nodes, key, effect, cmd) <==>
                   AfterCalls(xs[..i], old(Allows(t.nodes, key, effect, cmd)), cmd))
      invariant Rest(t.nodes, key, effect) == old(Rest(t.nodes, key, effect))
    {
      AddXpermRuleImpl(t, key, effect, xs[i]);
      assert xs[..i + 1][..i] == xs[..i];
    }
    assert xs[..|xs|] == xs;
  }

  /** Calls without reset accumulate, in any order. */
  lemma {:induction false} PlainCallsUnite(xs: seq<Xperm>, before: bool, cmd: nat)
    requires forall x <- xs :: !x.reset
    ensures AfterCalls(xs, before, cmd) <==> before || exists x <- xs :: Named(x.low, x.high, cmd)
  {
    if xs != [] {
      PlainCallsUnite(xs[..|xs| - 1], before, cmd);
      assert xs == xs[..|xs| - 1] + [xs[|xs| - 1]];
    }
  }

  ghost predicate NamedByAny(xs: seq<Xperm>, cmd: nat) {
    exists i :: 0 <= i < |xs| && Named(xs[i].low, xs[i].high, cmd)
  }

  /** A complemented list `~{ a b ... }` is promised to allow all commands but the listed ones.
    * The parser turns it into one reset call per range, and each call forgets those before it:
    * the promise is kept exactly when the last range covers all the others. */
  lemma ComplementedList(xs: seq<Xperm>, before: bool)
    requires xs != [] && forall x <- xs :: x.reset
    ensures (forall cmd: nat :: AfterCalls(xs, before, cmd) <==> !NamedByAny(xs, cmd)) <==>
            (forall cmd: nat :: NamedByAny(xs, cmd) ==> NamedByAny([xs[|xs| - 1]], cmd))
  {
    hide Named;
    var last := xs[|xs| - 1];
    assert last in xs;
    forall cmd: nat
      ensures AfterCalls(xs, before, cmd) <==> !NamedByAny([last], cmd)
      ensures NamedByAny([last], cmd) ==> NamedByAny(xs, cmd)
    {
      assert [last][0] == last;
    }
  }

  /** The statement `~{ 0x8910 0x892A }` leaves 0x8910 allowed. */
  lemma ComplementedPair(before: bool)
    ensures AfterCalls([Xperm(0x8910, 0x8910, true), Xperm(0x892A, 0x892A, true)], before, 0x8910)
  {
    var xs := [Xperm(0x8910, 0x8910, true), Xperm(0x892A, 0x892A, true)];
    assert xs[..1] == [xs[0]];
  }
}
