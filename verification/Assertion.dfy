/** The neverallow checker (libsepol/src/assertion.c): it looks for a rule of the policy that
  * allows what an assertion forbids, and then counts all of them for the report.
  */
module Assertion {
  import opened AvTables

  const XPERMS_ALLOWED: bv16 := 0x0100

  /** attr_type_map and type_attr_map: for each type, by bit, the types it stands for and the
    * attributes it has (itself included). */
  datatype Types = Types(members: seq<set<nat>>, attributes: seq<set<nat>>) {
    ghost predicate Valid() {
      && |members| == |attributes|
      && (forall i, b :: 0 <= i < |members| && b in members[i] ==> b < |members|)
      && (forall i, b :: 0 <= i < |attributes| && b in attributes[i] ==> b < |attributes|)
    }
  }

  datatype ClassPerm = ClassPerm(cls: nat, data: Word)

  /** A neverallow rule; `xperms` is there for a neverallowxperm rule. */
  datatype Neverallow = Neverallow(stypes: set<nat>, ttypes: set<nat>, self: bool, notself: bool,
                                   perms: seq<ClassPerm>, xperms: Option<Xperms>)

  // What an assertion means.

  datatype Entry = Entry(key: Triple, specified: bv16, data: Word, xperms: Option<Xperms>)

  predicate IsAllow(e: Entry) {
    e.specified & ALLOWED != 0
  }

  /** An xperm rule of one of the three known kinds. */
  predicate Recognised(e: Entry) {
    && Overlaps(XPERMS_ALLOWED, e.specified) && e.xperms.Some?
    && e.xperms.value.specified in {IOCTLFUNCTION, IOCTLDRIVER, NLMSG}
  }

  /** Keys are type numbers of the policy, and an xperm rule has its permissions. */
  ghost predicate WellFormed(p: Types, table: set<Entry>) {
    forall e <- table ::
      && (IsAllow(e) ==> 0 < e.key.source <= |p.members| && 0 < e.key.target <= |p.members|)
      && (Overlaps(XPERMS_ALLOWED, e.specified) ==> e.xperms.Some?)
  }

  /** The command numbers of an extended permission set. */
  datatype Command = Ioctl(driver: int, number: int) | Nlmsg(driver: int, number: int)

  ghost predicate InSet(x: Xperms, c: Command) {
    match c
    case Ioctl(d, f) =>
      || (x.specified == IOCTLFUNCTION && d == x.driver && f in x.perms)
      || (x.specified == IOCTLDRIVER && d in x.perms && 0 <= f < 256)
    case Nlmsg(d, f) => x.specified == NLMSG && d == x.driver && f in x.perms
  }

  ghost predicate SharesCommand(x: Xperms, y: Xperms) {
    exists c :: InSet(x, c) && InSet(y, c)
  }

  /** check_extended_permissions. */
  predicate CheckExtendedPermissions(n: Xperms, a: Xperms) {
    if n.specified == IOCTLFUNCTION && a.specified == IOCTLFUNCTION then
      n.driver == a.driver && n.perms * a.perms != {}
    else if n.specified == IOCTLFUNCTION && a.specified == IOCTLDRIVER then
      n.driver in a.perms
    else if n.specified == IOCTLDRIVER && a.specified == IOCTLFUNCTION then
      a.driver in n.perms
    else if n.specified == IOCTLDRIVER && a.specified == IOCTLDRIVER then
      n.perms * a.perms != {}
    else if n.specified == NLMSG && a.specified == NLMSG then
      n.driver == a.driver && n.perms * a.perms != {}
    else false
  }

  /** extended_permissions_violated; `result` holds what was there before. */
  function ExtendedPermissionsViolated(result: Xperms, n: Xperms, a: Xperms): Xperms {
    if n.specified == IOCTLFUNCTION && a.specified == IOCTLFUNCTION then
      Xperms(IOCTLFUNCTION, a.driver, n.perms * a.perms)
    else if n.specified == IOCTLFUNCTION && a.specified == IOCTLDRIVER then
      Xperms(IOCTLFUNCTION, n.driver, n.perms)
    else if n.specified == IOCTLDRIVER && a.specified == IOCTLFUNCTION then
      Xperms(IOCTLFUNCTION, a.driver, a.perms)
    else if n.specified == IOCTLDRIVER && a.specified == IOCTLDRIVER then
      result.(specified := IOCTLDRIVER, perms := n.perms * a.perms)
    else if n.specified == NLMSG && a.specified == NLMSG then
      Xperms(NLMSG, a.driver, n.perms * a.perms)
    else result
  }

  ghost predicate Bytes(x: Xperms) {
    forall b <- x.perms :: 0 <= b < 256
  }

  /** The check finds a common command, except that an empty set of functions counts as common
    * with a driver. */
  lemma CheckIsSharing(n: Xperms, a: Xperms)
    requires Bytes(n) && Bytes(a)
    ensures SharesCommand(n, a) <==> CheckExtendedPermissions(n, a) && n.perms != {} && a.perms != {}
  {
    if CheckExtendedPermissions(n, a) && n.perms != {} && a.perms != {} {
      if n.specified == NLMSG {
        var f := OneOf(n.perms * a.perms);
        assert InSet(n, Nlmsg(n.driver, f)) && InSet(a, Nlmsg(n.driver, f));
      } else if n.specified == IOCTLDRIVER && a.specified == IOCTLDRIVER {
        var d := OneOf(n.perms * a.perms);
        assert InSet(n, Ioctl(d, 0)) && InSet(a, Ioctl(d, 0));
      } else if n.specified == a.specified {
        var f := OneOf(n.perms * a.perms);
        assert InSet(n, Ioctl(n.driver, f)) && InSet(a, Ioctl(n.driver, f));
      } else if n.specified == IOCTLFUNCTION {
        var f := OneOf(n.perms);
        assert InSet(n, Ioctl(n.driver, f)) && InSet(a, Ioctl(n.driver, f));
      } else {
        var f := OneOf(a.perms);
        assert InSet(n, Ioctl(a.driver, f)) && InSet(a, Ioctl(a.driver, f));
      }
    }
    if SharesCommand(n, a) {
      var c :| InSet(n, c) && InSet(a, c);
      if n.specified == a.specified == IOCTLDRIVER {
        assert c.driver in n.perms * a.perms;
      } else if n.specified == a.specified {
        assert c.number in n.perms * a.perms;
      }
    }
  }

  /** The permissions named in the report are those that both rules have. */
  lemma ViolatedIsCommon(result: Xperms, n: Xperms, a: Xperms, c: Command)
    requires Bytes(n) && Bytes(a) && CheckExtendedPermissions(n, a)
    ensures InSet(ExtendedPermissionsViolated(result, n, a), c) <==> InSet(n, c) && InSet(a, c)
  {
  }

  /** The recognised xperm rules of the class between types in `ss` and in `ts`. */
  ghost function Block(table: set<Entry>, ss: set<nat>, ts: set<nat>, cls: nat): set<Entry> {
    set e <- table | Recognised(e) && e.key.cls == cls &&
                     e.key.source > 0 && e.key.source - 1 in ss && e.key.target > 0 && e.key.target - 1 in ts
  }

  ghost predicate AnyHit(x: Xperms, es: set<Entry>) {
    exists e <- es :: Recognised(e) && CheckExtendedPermissions(x, e.xperms.value)
  }

  /** The extended permissions are granted from `i` to `j`: either nothing restricts the plain
    * permission, or an xperm rule shares a command. */
  ghost predicate Clash(p: Types, table: set<Entry>, x: Xperms, cls: nat, i: nat, j: nat)
    requires i < |p.attributes| && j < |p.attributes|
  {
    var es := Block(table, p.attributes[i], p.attributes[j], cls);
    es == {} || AnyHit(x, es)
  }

  /** A rule with the key `k` is, among others, about source `i` and target `j`. */
  ghost predicate IsAbout(p: Types, k: Triple, i: nat, j: nat) {
    && 0 < k.source <= |p.members| && 0 < k.target <= |p.members|
    && i in p.members[k.source - 1] && j in p.members[k.target - 1]
  }

  /** The assertion is about source `i` and target `j`: without targets of its own, `~self`
    * means every other type. */
  predicate Forbids(r: Neverallow, i: nat, j: nat) {
    && i in r.stypes
    && if r.notself then (r.ttypes == {} || j in r.ttypes) && i != j else j in r.ttypes || (r.self && i == j)
  }

  predicate SharesPerm(perms: seq<ClassPerm>, cls: nat, data: Word) {
    exists c <- perms :: c.cls == cls && c.data * data != {}
  }

  ghost predicate Offends(p: Types, table: set<Entry>, r: Neverallow, e: Entry, i: nat, j: nat)
    requires p.Valid()
  {
    && IsAllow(e) && SharesPerm(r.perms, e.key.cls, e.data)
    && IsAbout(p, e.key, i, j) && Forbids(r, i, j)
    && (r.xperms.Some? ==> Clash(p, table, r.xperms.value, e.key.cls, i, j))
  }

  /** The assertion is violated. */
  ghost predicate Violated(p: Types, table: set<Entry>, r: Neverallow)
    requires p.Valid()
  {
    exists e <- table, i, j :: Offends(p, table, r, e, i, j)
  }

  /** The violations that the loops over source and target get to see: with `self`, only those
    * of a type against itself. */
  ghost predicate Seen(p: Types, table: set<Entry>, r: Neverallow)
    requires p.Valid()
  {
    exists e <- table, i, j :: Offends(p, table, r, e, i, j) && (r.self ==> i == j)
  }

  /** What the checker answers. */
  ghost predicate Caught(p: Types, table: set<Entry>, r: Neverallow)
    requires p.Valid()
  {
    if r.xperms.Some? then Seen(p, table, r) else Violated(p, table, r)
  }

  /** A `self` rule that also names a pair of different types. */
  ghost predicate Mixed(r: Neverallow) {
    r.self && exists i, j :: i != j && Forbids(r, i, j)
  }

  predicate NamesPerm(r: Neverallow) {
    exists c <- r.perms :: c.data != {}
  }

  lemma UnmixedIsSeen(p: Types, table: set<Entry>, r: Neverallow)
    requires p.Valid() && !(Mixed(r) && NamesPerm(r))
    ensures Seen(p, table, r) <==> Violated(p, table, r)
  {
  }

  /** The report misses no violation, in any policy. */
  ghost predicate ReportIsExact(r: Neverallow) {
    forall p: Types, table: set<Entry> :: p.Valid() && WellFormed(p, table) ==>
      (Seen(p, table, r) <==> Violated(p, table, r))
  }

  /** The checker misses no violation, in any policy. */
  ghost predicate CheckIsExact(r: Neverallow) {
    forall p: Types, table: set<Entry> :: p.Valid() && WellFormed(p, table) ==>
      (Caught(p, table, r) <==> Violated(p, table, r))
  }

  /** The policy that allows one permission from `i` to `j`, with no attributes. */
  ghost function Flat(n: nat): Types {
    Types(seq(n, k => {k}), seq(n, k => {k}))
  }

  lemma MixedIsMissed(r: Neverallow) returns (p: Types, table: set<Entry>)
    requires Mixed(r) && NamesPerm(r)
    ensures p.Valid() && WellFormed(p, table) && Violated(p, table, r) && !Seen(p, table, r)
  {
    var i: nat, j: nat :| i != j && Forbids(r, i, j);
    var c :| c in r.perms && c.data != {};
    p := Flat(i + j + 1);
    var e := Entry(Triple(i + 1, j + 1, c.cls), ALLOWED, c.data, None);
    table := {e};
    assert IsAbout(p, e.key, i, j);
    assert c.data * c.data == c.data;
    assert Offends(p, table, r, e, i, j);
  }

  /** The report is exact for just those rules that do not mix `self` with other pairs, and so is
    * the checker when extended permissions are involved; without them it is always exact. */
  lemma ExactUnlessMixed(r: Neverallow)
    ensures ReportIsExact(r) <==> !(Mixed(r) && NamesPerm(r))
    ensures CheckIsExact(r) <==> !(r.xperms.Some? && Mixed(r) && NamesPerm(r))
  {
    hide WellFormed, Violated, Seen;
    if Mixed(r) && NamesPerm(r) {
      var p, table := MixedIsMissed(r);
      assert r.xperms.Some? ==> !Caught(p, table, r);
    } else {
      forall p: Types, table: set<Entry> | p.Valid() ensures Seen(p, table, r) <==> Violated(p, table, r) {
        UnmixedIsSeen(p, table, r);
      }
    }
  }

  // The same in terms of commands.

  /** A set of one byte per permission, and not empty. */
  ghost predicate Proper(x: Xperms) {
    x.perms != {} && Bytes(x)
  }

  /** An xperm rule of one of the three kinds restricts the class between the two types. */
  ghost predicate Restricts(p: Types, e: Entry, cls: nat, i: nat, j: nat)
    requires i < |p.attributes| && j < |p.attributes|
  {
    && e.specified & 0x0100 != 0 && e.xperms.Some? && 1 <= e.xperms.value.specified <= 3 && e.key.cls == cls
    && e.key.source > 0 && e.key.source - 1 in p.attributes[i]
    && e.key.target > 0 && e.key.target - 1 in p.attributes[j]
  }

  ghost predicate ProperMasks(table: set<Entry>, r: Neverallow) {
    r.xperms.Some? ==>
      && Proper(r.xperms.value)
      && forall e <- table :: e.specified & 0x0100 != 0 && e.xperms.Some? && 1 <= e.xperms.value.specified <= 3 ==>
           Proper(e.xperms.value)
  }

  /** A command of `x` may be used from `i` to `j`: no xperm rule restricts the class, or one
    * allows a common command. */
  ghost predicate CommandGranted(p: Types, table: set<Entry>, x: Xperms, cls: nat, i: nat, j: nat)
    requires i < |p.attributes| && j < |p.attributes|
  {
    || (forall e <- table :: !Restricts(p, e, cls, i, j))
    || exists e <- table :: Restricts(p, e, cls, i, j) && SharesCommand(x, e.xperms.value)
  }

  /** The assertion is against access from `i` to `j`. */
  ghost predicate PairForbidden(r: Neverallow, i: nat, j: nat) {
    || (i in r.stypes && j in r.ttypes && !r.notself)
    || (i in r.stypes && i == j && r.self && !r.notself)
    || (i in r.stypes && j in r.ttypes && r.notself && i != j)
    || (i in r.stypes && r.ttypes == {} && r.notself && i != j)
  }

  /** The allow rule grants access from `i` to `j` that the assertion is against. */
  ghost predicate GrantsForbidden(p: Types, r: Neverallow, e: Entry, i: nat, j: nat) {
    && e.specified & 0x0001 != 0 && PairForbidden(r, i, j)
    && (exists k, b: int :: 0 <= k < |r.perms| && r.perms[k].cls == e.key.cls && b in r.perms[k].data && b in e.data)
    && 0 < e.key.source <= |p.members| && i in p.members[e.key.source - 1]
    && 0 < e.key.target <= |p.members| && j in p.members[e.key.target - 1]
  }

  /** The policy grants what the assertion forbids. */
  ghost predicate Infringed(p: Types, table: set<Entry>, r: Neverallow)
    requires p.Valid()
  {
    exists e <- table, i, j ::
      && GrantsForbidden(p, r, e, i, j)
      && (r.xperms.Some? ==> CommandGranted(p, table, r.xperms.value, e.key.cls, i, j))
  }

  lemma RestrictsIsInBlock(p: Types, table: set<Entry>, e: Entry, cls: nat, i: nat, j: nat)
    requires i < |p.attributes| && j < |p.attributes|
    ensures e in Block(table, p.attributes[i], p.attributes[j], cls) <==> e in table && Restricts(p, e, cls, i, j)
  {
    assert Overlaps(XPERMS_ALLOWED, e.specified) <==> e.specified & 0x0100 != 0;
  }

  lemma ClashIsCommand(p: Types, table: set<Entry>, r: Neverallow, cls: nat, i: nat, j: nat)
    requires i < |p.attributes| && j < |p.attributes| && r.xperms.Some? && ProperMasks(table, r)
    ensures Clash(p, table, r.xperms.value, cls, i, j) <==> CommandGranted(p, table, r.xperms.value, cls, i, j)
  {
    hide SharesCommand, CheckExtendedPermissions, Block;
    var x, es := r.xperms.value, Block(table, p.attributes[i], p.attributes[j], cls);
    forall e ensures e in es <==> e in table && Restricts(p, e, cls, i, j) {
      RestrictsIsInBlock(p, table, e, cls, i, j);
    }
    forall e <- es ensures Recognised(e) &&
        (SharesCommand(x, e.xperms.value) <==> CheckExtendedPermissions(x, e.xperms.value)) {
      BlockRecognised(table, p.attributes[i], p.attributes[j], cls, e);
      CheckIsSharing(x, e.xperms.value);
    }
  }

  lemma BlockRecognised(table: set<Entry>, ss: set<nat>, ts: set<nat>, cls: nat, e: Entry)
    requires e in Block(table, ss, ts, cls)
    ensures Recognised(e)
  {
  }

  lemma GrantIsOffence(p: Types, r: Neverallow, e: Entry, i: nat, j: nat)
    ensures GrantsForbidden(p, r, e, i, j) <==>
            IsAllow(e) && SharesPerm(r.perms, e.key.cls, e.data) && IsAbout(p, e.key, i, j) && Forbids(r, i, j)
  {
    if SharesPerm(r.perms, e.key.cls, e.data) {
      var c :| c in r.perms && c.cls == e.key.cls && c.data * e.data != {};
      var b := OneOf(c.data * e.data);
      var k :| 0 <= k < |r.perms| && r.perms[k] == c;
      assert b in r.perms[k].data && b in e.data;
    }
    if exists k, b: int :: 0 <= k < |r.perms| && r.perms[k].cls == e.key.cls && b in r.perms[k].data && b in e.data {
      var k, b: int :| 0 <= k < |r.perms| && r.perms[k].cls == e.key.cls && b in r.perms[k].data && b in e.data;
      assert r.perms[k] in r.perms && b in r.perms[k].data * e.data;
    }
  }

  /** With proper permission sets, a violation is a granted command. */
  lemma ViolatedIsInfringed(p: Types, table: set<Entry>, r: Neverallow)
    requires p.Valid() && ProperMasks(table, r)
    ensures Violated(p, table, r) <==> Infringed(p, table, r)
  {
    hide Clash, CommandGranted, SharesPerm, Forbids, IsAllow, ProperMasks, PairForbidden;
    forall e, i, j | e in table && IsAbout(p, e.key, i, j) && r.xperms.Some?
      ensures Clash(p, table, r.xperms.value, e.key.cls, i, j) <==>
              CommandGranted(p, table, r.xperms.value, e.key.cls, i, j)
    {
      ClashIsCommand(p, table, r, e.key.cls, i, j);
    }
    if Violated(p, table, r) {
      var e, i, j :| e in table && Offends(p, table, r, e, i, j);
      GrantIsOffence(p, r, e, i, j);
      assert r.xperms.Some? ==> CommandGranted(p, table, r.xperms.value, e.key.cls, i, j);
    }
    if Infringed(p, table, r) {
      var e, i, j :| e in table && GrantsForbidden(p, r, e, i, j)
                     && (r.xperms.Some? ==> CommandGranted(p, table, r.xperms.value, e.key.cls, i, j));
      GrantIsOffence(p, r, e, i, j);
      assert Offends(p, table, r, e, i, j);
    }
  }

  // The code.

  ghost function EntryOf(n: AvNode): Entry
    reads n`specified, n`data, n`xperms
  {
    Entry(n.key, n.specified, n.data, n.xperms)
  }

  ghost function TableOf(t: Avtab): set<Entry>
    reads t`nodes, t.nodes`specified, t.nodes`data, t.nodes`xperms
  {
    set n <- t.nodes :: EntryOf(n)
  }

  ghost predicate HasXperms(t: Avtab)
    reads t`nodes, t.nodes`specified, t.nodes`xperms
  {
    forall n <- t.nodes :: Overlaps(XPERMS_ALLOWED, n.specified) ==> n.xperms.Some?
  }

  lemma BlockJoin(table: set<Entry>, s: nat, ss: set<nat>, ts: set<nat>, cls: nat)
    ensures Block(table, ss + {s}, ts, cls) == Block(table, ss, ts, cls) + Block(table, {s}, ts, cls)
    ensures Block(table, ts, ss + {s}, cls) == Block(table, ts, ss, cls) + Block(table, ts, {s}, cls)
  {
  }

  lemma BlockPart(table: set<Entry>, ss: set<nat>, ts: set<nat>, us: set<nat>, vs: set<nat>, cls: nat)
    requires ss <= us && ts <= vs
    ensures Block(table, ss, ts, cls) <= Block(table, us, vs, cls)
  {
  }

  lemma NoBlock(table: set<Entry>, ts: set<nat>, cls: nat)
    ensures Block(table, {}, ts, cls) == {} == Block(table, ts, {}, cls)
  {
  }

  /** The bits below `n`: what a loop over the positive bits of `s` has visited. */
  function Below(s: set<nat>, n: nat): set<nat> {
    set x <- s | x < n
  }

  lemma BelowNext(s: set<nat>, n: nat)
    ensures Below(s, n + 1) == if n in s then Below(s, n) + {n} else Below(s, n)
    ensures Below(s, 0) == {}
  {
  }

  lemma BelowAll(s: set<nat>, n: nat)
    requires forall x <- s :: x < n
    ensures Below(s, n) == s
  {
  }

  /** How the xperm rules `es` change the answer `rc` so far, and whether they settle it. */
  ghost predicate Verdict(x: Xperms, es: set<Entry>, before: bool, rc: bool, stop: bool) {
    stop == AnyHit(x, es) && rc == (stop || (before && es == {}))
  }

  lemma VerdictJoin(x: Xperms, es: set<Entry>, fs: set<Entry>, before: bool, mid: bool, rc: bool, stop: bool)
    requires Verdict(x, es, before, mid, false) && Verdict(x, fs, mid, rc, stop)
    ensures Verdict(x, es + fs, before, rc, stop)
  {
  }

  /** One hit settles the answer, whatever else there is. */
  lemma VerdictStops(x: Xperms, es: set<Entry>, fs: set<Entry>, mid: bool, rc: bool, before: bool)
    requires Verdict(x, es, mid, rc, true) && es <= fs
    ensures rc && Verdict(x, fs, before, true, true)
  {
  }

  lemma VerdictOne(x: Xperms, e: Entry, before: bool, rc: bool)
    requires Recognised(e) && rc == CheckExtendedPermissions(x, e.xperms.value)
    ensures Verdict(x, {e}, before, rc, rc)
  {
  }

  lemma VerdictMeans(x: Xperms, es: set<Entry>, rc: bool, stop: bool)
    requires Verdict(x, es, true, rc, stop)
    ensures rc <==> es == {} || AnyHit(x, es)
    ensures stop ==> rc
  {
  }

  lemma VerdictNone(x: Xperms, before: bool)
    ensures Verdict(x, {}, before, before, false)
  {
  }

  /** The entries of the first `p` nodes of the group. */
  ghost function Front(g: seq<AvNode>, p: nat): set<Entry>
    requires p <= |g|
    reads (set n <- g)`specified, (set n <- g)`data, (set n <- g)`xperms
  {
    set i | 0 <= i < p && Recognised(EntryOf(g[i])) :: EntryOf(g[i])
  }

  lemma FrontNext(g: seq<AvNode>, p: nat, q: nat)
    requires p < |g| && NextAt(g, XPERMS_ALLOWED, p + 1, q)
    ensures Front(g, q) == if Recognised(EntryOf(g[p])) then Front(g, p) + {EntryOf(g[p])} else Front(g, p)
  {
    hide Overlaps;
    assert forall i :: p < i < q ==> !Recognised(EntryOf(g[i]));
  }

  lemma FrontGrows(g: seq<AvNode>, p: nat)
    requires p <= |g|
    ensures Front(g, p) <= Front(g, |g|)
  {
  }

  lemma FrontNone(g: seq<AvNode>, q: nat)
    requires NextAt(g, XPERMS_ALLOWED, 0, q)
    ensures Front(g, q) == {}
  {
    hide Overlaps;
    assert forall i :: 0 <= i < q ==> !Recognised(EntryOf(g[i]));
  }

  lemma FrontAll(t: Avtab, k: Triple)
    requires t.Valid() && k.source > 0 && k.target > 0
    ensures t.slotOf(k) < |t.chains|
    ensures Front(t.Group(k), |t.Group(k)|) == Block(TableOf(t), {k.source - 1}, {k.target - 1}, k.cls)
  {
    hide Avtab.Valid, Avtab.Group, Recognised;
    t.GroupMembers(k);
    var g := t.Group(k);
    forall e | e in Block(TableOf(t), {k.source - 1}, {k.target - 1}, k.cls) ensures e in Front(g, |g|) {
      var n :| n in t.nodes && EntryOf(n) == e;
      assert n.key == k && n in g;
    }
  }

  lemma RecognisedKind(e: Entry)
    requires Overlaps(XPERMS_ALLOWED, e.specified) && e.xperms.Some?
    ensures Recognised(e) <==> e.xperms.value.specified in {IOCTLFUNCTION, IOCTLDRIVER, NLMSG}
  {
  }

  /** The search loop for one pair of attributes. */
  method CheckGroup(t: Avtab, key: Triple, x: Xperms, before: bool) returns (rc: bool, stop: bool)
    requires t.Valid() && key.source > 0 && key.target > 0
    requires HasXperms(t)
    ensures Verdict(x, Block(TableOf(t), {key.source - 1}, {key.target - 1}, key.cls), before, rc, stop)
  {
    hide Avtab.Valid, Avtab.Group, Block, Overlaps, Front, Verdict, Recognised, CheckExtendedPermissions;
    FrontAll(t, key);
    ghost var g := t.Group(key);
    t.GroupMembers(key);
    rc := before;
    var node, pos := t.SearchNode(key, XPERMS_ALLOWED);
    FrontNone(g, pos);
    VerdictNone(x, before);
    while node != null
      invariant pos <= |g| && node == if pos < |g| then g[pos] else null
      invariant node != null ==> Overlaps(XPERMS_ALLOWED, node.specified)
      invariant Verdict(x, Front(g, pos), before, rc, false)
      decreases |g| - pos
    {
      var xperms := node.xperms.value;
      ghost var p, mid := pos, rc;
      node, pos := t.SearchNodeNext(node, XPERMS_ALLOWED, p);
      FrontNext(g, p, pos);
      assert Recognised(EntryOf(g[p])) <==> xperms.specified in {IOCTLFUNCTION, IOCTLDRIVER, NLMSG} by {
        RecognisedKind(EntryOf(g[p]));
      }
      if xperms.specified != IOCTLFUNCTION && xperms.specified != IOCTLDRIVER && xperms.specified != NLMSG {
        continue;
      }
      rc := CheckExtendedPermissions(x, xperms);
      VerdictOne(x, EntryOf(g[p]), mid, rc);
      VerdictJoin(x, Front(g, p), {EntryOf(g[p])}, before, mid, rc, rc);
      if rc {
        FrontGrows(g, pos);
        VerdictStops(x, {EntryOf(g[p])}, Front(g, |g|), mid, rc, before);
        return true, true;
      }
    }
    stop := false;
  }

  method CheckTargets(t: Avtab, n: nat, i: nat, tattr: set<nat>, cls: nat, x: Xperms, before: bool)
    returns (rc: bool, stop: bool)
    requires t.Valid() && HasXperms(t) && forall j <- tattr :: j < n
    ensures Verdict(x, Block(TableOf(t), {i}, tattr, cls), before, rc, stop)
  {
    hide Avtab.Valid, HasXperms, Block, Verdict, TableOf;
    ghost var table := TableOf(t);
    rc, stop := before, false;
    NoBlock(table, {i}, cls);
    BelowNext(tattr, 0);
    VerdictNone(x, before);
    for j := 0 to n
      invariant !stop && Verdict(x, Block(table, {i}, Below(tattr, j), cls), before, rc, false)
    {
      BelowNext(tattr, j);
      if j in tattr {
        ghost var mid := rc;
        rc, stop := CheckGroup(t, Triple(i + 1, j + 1, cls), x, rc);
        BlockJoin(table, j, Below(tattr, j), {i}, cls);
        if stop {
          BlockPart(table, {i}, {j}, {i}, tattr, cls);
          VerdictStops(x, Block(table, {i}, {j}, cls), Block(table, {i}, tattr, cls), mid, rc, before);
          return;
        }
        VerdictJoin(x, Block(table, {i}, Below(tattr, j), cls), Block(table, {i}, {j}, cls), before, mid, rc, false);
      }
    }
    BelowAll(tattr, n);
  }

  /** check_assertion_extended_permissions_avtab. */
  method CheckXpermsAvtab(t: Avtab, p: Types, x: Xperms, cls: nat, i: nat, j: nat) returns (rc: bool)
    requires t.Valid() && HasXperms(t) && p.Valid() && i < |p.attributes| && j < |p.attributes|
    ensures rc <==> Clash(p, TableOf(t), x, cls, i, j)
  {
    hide Avtab.Valid, HasXperms, Block, Verdict, TableOf, AnyHit;
    ghost var table := TableOf(t);
    var n, sattr, tattr := |p.attributes|, p.attributes[i], p.attributes[j];
    rc := true;
    NoBlock(table, tattr, cls);
    BelowNext(sattr, 0);
    VerdictNone(x, true);
    for a := 0 to n
      invariant Verdict(x, Block(table, Below(sattr, a), tattr, cls), true, rc, false)
    {
      BelowNext(sattr, a);
      if a in sattr {
        ghost var mid := rc;
        var done;
        rc, done := CheckTargets(t, n, a, tattr, cls, x, rc);
        BlockJoin(table, a, Below(sattr, a), tattr, cls);
        if done {
          BlockPart(table, {a}, tattr, sattr, tattr, cls);
          VerdictStops(x, Block(table, {a}, tattr, cls), Block(table, sattr, tattr, cls), mid, rc, true);
          VerdictMeans(x, Block(table, sattr, tattr, cls), rc, true);
          return;
        }
        VerdictJoin(x, Block(table, Below(sattr, a), tattr, cls), Block(table, {a}, tattr, cls), true, mid, rc, false);
      }
    }
    BelowAll(sattr, n);
    VerdictMeans(x, Block(table, sattr, tattr, cls), rc, false);
  }

  /** A pair the loops over source and target skip. */
  predicate Skipped(r: Neverallow, i: nat, j: nat) {
    (r.self && i != j) || (r.notself && i == j)
  }

  predicate KeyInRange(p: Types, k: Triple) {
    0 < k.source <= |p.members| && 0 < k.target <= |p.members|
  }

  /** `src` and `tgt` are the pairs of the key the rule forbids, up to the skipped ones. */
  ghost predicate Matches(p: Types, r: Neverallow, k: Triple, src: set<nat>, tgt: set<nat>) {
    && (forall i, j :: !Skipped(r, i, j) ==> (i in src && j in tgt <==> IsAbout(p, k, i, j) && Forbids(r, i, j)))
    && (forall i <- src :: i < |p.attributes|)
    && (forall j <- tgt :: j < |p.attributes|)
  }

  /** The bitmaps src_matches and tgt_matches. */
  method ComputeMatches(p: Types, r: Neverallow, k: Triple) returns (src: set<nat>, tgt: set<nat>)
    requires p.Valid() && KeyInRange(p, k)
    ensures Matches(p, r, k, src, tgt)
  {
    src := r.stypes * p.members[k.source - 1];
    if r.notself {
      if r.ttypes == {} {
        tgt := p.members[k.target - 1];
      } else {
        tgt := r.ttypes * p.members[k.target - 1];
      }
    } else {
      tgt := r.ttypes * p.members[k.target - 1];
      if r.self {
        var selfMatches := src * p.members[k.target - 1];
        if selfMatches != {} {
          tgt := tgt + selfMatches;
        }
      }
    }
    forall i, j | !Skipped(r, i, j)
      ensures i in src && j in tgt <==> IsAbout(p, k, i, j) && Forbids(r, i, j)
    {
      if r.self && !r.notself {
        assert i in src && j in p.members[k.target - 1] ==> i in src * p.members[k.target - 1];
      }
    }
  }

  ghost predicate PairClashes(p: Types, table: set<Entry>, r: Neverallow, cls: nat, i: nat, j: nat) {
    && i < |p.attributes| && j < |p.attributes| && !Skipped(r, i, j)
    && (r.xperms.Some? ==> Clash(p, table, r.xperms.value, cls, i, j))
  }

  ghost predicate SomePair(p: Types, table: set<Entry>, r: Neverallow, cls: nat, src: set<nat>, tgt: set<nat>) {
    exists i <- src, j <- tgt :: PairClashes(p, table, r, cls, i, j)
  }

  lemma SomePairNext(p: Types, table: set<Entry>, r: Neverallow, cls: nat, i: nat, ss: set<nat>, ts: set<nat>)
    ensures SomePair(p, table, r, cls, ss + {i}, ts) <==>
            SomePair(p, table, r, cls, ss, ts) || SomePair(p, table, r, cls, {i}, ts)
    ensures SomePair(p, table, r, cls, ts, ss + {i}) <==>
            SomePair(p, table, r, cls, ts, ss) || SomePair(p, table, r, cls, ts, {i})
  {
    hide PairClashes;
  }

  lemma SomePairPart(p: Types, table: set<Entry>, r: Neverallow, cls: nat,
                     ss: set<nat>, ts: set<nat>, us: set<nat>, vs: set<nat>)
    requires ss <= us && ts <= vs && SomePair(p, table, r, cls, ss, ts)
    ensures SomePair(p, table, r, cls, us, vs)
  {
    hide PairClashes;
  }

  lemma SomePairOne(p: Types, table: set<Entry>, r: Neverallow, cls: nat, i: nat, j: nat)
    ensures SomePair(p, table, r, cls, {i}, {j}) <==> PairClashes(p, table, r, cls, i, j)
    ensures !SomePair(p, table, r, cls, {i}, {}) && !SomePair(p, table, r, cls, {}, {j})
  {
    hide PairClashes;
  }

  /** An allow rule with the key offends, and the loops get to see it. */
  ghost predicate KeySeen(p: Types, table: set<Entry>, r: Neverallow, k: Triple)
    requires p.Valid()
  {
    exists i, j ::
      && IsAbout(p, k, i, j) && Forbids(r, i, j) && (r.self ==> i == j)
      && (r.xperms.Some? ==> Clash(p, table, r.xperms.value, k.cls, i, j))
  }

  lemma MatchesAreSeen(p: Types, table: set<Entry>, r: Neverallow, k: Triple, src: set<nat>, tgt: set<nat>)
    requires p.Valid() && Matches(p, r, k, src, tgt)
    ensures KeySeen(p, table, r, k) <==> SomePair(p, table, r, k.cls, src, tgt)
  {
    hide Clash;
    if SomePair(p, table, r, k.cls, src, tgt) {
      var i, j :| i in src && j in tgt && PairClashes(p, table, r, k.cls, i, j);
      assert IsAbout(p, k, i, j) && Forbids(r, i, j);
    }
    if KeySeen(p, table, r, k) {
      var i, j :| IsAbout(p, k, i, j) && Forbids(r, i, j) && (r.self ==> i == j) &&
                  (r.xperms.Some? ==> Clash(p, table, r.xperms.value, k.cls, i, j));
      assert i in src && j in tgt && PairClashes(p, table, r, k.cls, i, j);
    }
  }

  /** The inner loop of check_assertion_extended_permissions. */
  method CheckRow(t: Avtab, p: Types, r: Neverallow, cls: nat, i: nat, tgt: set<nat>) returns (rc: bool)
    requires t.Valid() && HasXperms(t) && p.Valid() && r.xperms.Some?
    requires i < |p.attributes| && forall j <- tgt :: j < |p.attributes|
    ensures rc <==> SomePair(p, TableOf(t), r, cls, {i}, tgt)
  {
    hide Avtab.Valid, HasXperms, TableOf, Clash, SomePair;
    ghost var table := TableOf(t);
    SomePairOne(p, table, r, cls, i, 0);
    BelowNext(tgt, 0);
    for j := 0 to |p.attributes|
      invariant !SomePair(p, table, r, cls, {i}, Below(tgt, j))
    {
      BelowNext(tgt, j);
      if j in tgt {
        SomePairNext(p, table, r, cls, j, Below(tgt, j), {i});
        SomePairOne(p, table, r, cls, i, j);
        if r.self && i != j {
          continue;
        }
        if r.notself && i == j {
          continue;
        }
        var found := CheckXpermsAvtab(t, p, r.xperms.value, cls, i, j);
        if found {
          SomePairPart(p, table, r, cls, {i}, {j}, {i}, tgt);
          return true;
        }
      }
    }
    BelowAll(tgt, |p.attributes|);
    rc := false;
  }

  /** check_assertion_extended_permissions. */
  method CheckXperms(t: Avtab, p: Types, r: Neverallow, k: Triple) returns (rc: bool)
    requires t.Valid() && HasXperms(t) && p.Valid() && KeyInRange(p, k) && r.xperms.Some?
    ensures rc <==> KeySeen(p, TableOf(t), r, k)
  {
    hide Avtab.Valid, HasXperms, TableOf, SomePair, KeySeen;
    ghost var table := TableOf(t);
    var src, tgt := ComputeMatches(p, r, k);
    MatchesAreSeen(p, table, r, k, src, tgt);
    SomePairNone(p, table, r, k.cls, tgt);
    SomePairNone(p, table, r, k.cls, src);
    if src == {} {
      return false;
    }
    if tgt == {} {
      return false;
    }
    BelowNext(src, 0);
    for i := 0 to |p.attributes|
      invariant !SomePair(p, table, r, k.cls, Below(src, i), tgt)
    {
      BelowNext(src, i);
      if i in src {
        SomePairNext(p, table, r, k.cls, i, Below(src, i), tgt);
        var found := CheckRow(t, p, r, k.cls, i, tgt);
        if found {
          SomePairPart(p, table, r, k.cls, {i}, tgt, src, tgt);
          return true;
        }
      }
    }
    BelowAll(src, |p.attributes|);
    rc := false;
  }

  lemma SomePairNone(p: Types, table: set<Entry>, r: Neverallow, cls: nat, ss: set<nat>)
    ensures !SomePair(p, table, r, cls, ss, {}) && !SomePair(p, table, r, cls, {}, ss)
  {
  }

  /** Two sets without two different members between them. */
  lemma SameSingleton(s: set<nat>, t: set<nat>)
    requires s != {} && t != {}
    ensures (exists i <- s, j <- t :: i != j) <==> !(|s| == 1 && |t| == 1 && |s * t| == 1)
  {
    var a :| a in s;
    var b :| b in t;
    if forall i <- s, j <- t :: i == j {
      assert s == {a} == t;
      Both(s, t, a);
    } else if |s| == 1 && |t| == 1 {
      Single(s, a);
      Single(t, b);
      assert a != b && s * t == {};
    }
  }

  lemma Both(s: set<nat>, t: set<nat>, a: nat)
    requires s == {a} == t
    ensures |s| == 1 && |t| == 1 && |s * t| == 1
  {
    assert s * t == {a};
  }

  lemma Single(s: set<nat>, a: nat)
    requires |s| == 1 && a in s
    ensures s == {a}
  {
    assert |s - {a}| == 0;
  }

  /** check_assertion_notself_match. */
  method CheckNotselfMatch(p: Types, r: Neverallow, k: Triple) returns (rc: bool)
    requires p.Valid() && KeyInRange(p, k) && r.notself
    ensures rc <==> exists i, j :: IsAbout(p, k, i, j) && Forbids(r, i, j)
  {
    var srcMatches := r.stypes * p.members[k.source - 1];
    var tgtMatches := if r.ttypes == {} then p.members[k.target - 1] else r.ttypes * p.members[k.target - 1];
    assert forall i, j :: IsAbout(p, k, i, j) && Forbids(r, i, j) <==> i in srcMatches && j in tgtMatches && i != j;
    if |srcMatches| == 0 || |tgtMatches| == 0 {
      assert srcMatches == {} || tgtMatches == {};
      return false;
    }
    SameSingleton(srcMatches, tgtMatches);
    if |srcMatches| == 1 && |tgtMatches| == 1 && |srcMatches * tgtMatches| == 1 {
      return false;
    }
    assert exists i <- srcMatches, j <- tgtMatches :: i != j;
    ghost var i, j :| i in srcMatches && j in tgtMatches && i != j;
    assert IsAbout(p, k, i, j) && Forbids(r, i, j);
    rc := true;
  }

  /** check_assertion_self_match. */
  method CheckSelfMatch(p: Types, r: Neverallow, k: Triple) returns (rc: bool)
    requires p.Valid() && KeyInRange(p, k)
    ensures rc <==> exists i :: IsAbout(p, k, i, i) && i in r.stypes
  {
    var srcMatches := r.stypes * p.members[k.source - 1];
    var matches := srcMatches * p.members[k.target - 1];
    assert forall i :: IsAbout(p, k, i, i) && i in r.stypes <==> i in matches;
    if matches == {} {
      return false;
    }
    ghost var i :| i in matches;
    rc := true;
  }

  /** match_any_class_permissions. */
  method MatchAnyClassPermissions(perms: seq<ClassPerm>, cls: nat, data: Word) returns (b: bool)
    ensures b == SharesPerm(perms, cls, data)
  {
    for c := 0 to |perms|
      invariant forall d :: 0 <= d < c ==> !(perms[d].cls == cls && perms[d].data * data != {})
    {
      if perms[c].cls == cls && perms[c].data * data != {} {
        return true;
      }
    }
    b := false;
  }

  /** What the checker finds for an allow rule with the key: every offending pair without
    * extended permissions, and otherwise those the loops get to see. */
  ghost predicate KeyCaught(p: Types, table: set<Entry>, r: Neverallow, k: Triple)
    requires p.Valid()
  {
    if r.xperms.Some? then KeySeen(p, table, r, k) else exists i, j :: IsAbout(p, k, i, j) && Forbids(r, i, j)
  }

  ghost predicate Suspect(r: Neverallow, e: Entry) {
    IsAllow(e) && SharesPerm(r.perms, e.key.cls, e.data)
  }

  lemma CaughtByKey(p: Types, table: set<Entry>, r: Neverallow)
    requires p.Valid()
    ensures Caught(p, table, r) <==> exists e <- table :: Suspect(r, e) && KeyCaught(p, table, r, e.key)
    ensures Seen(p, table, r) <==> exists e <- table :: Suspect(r, e) && KeySeen(p, table, r, e.key)
  {
    hide IsAllow, SharesPerm, Clash, Forbids;
    forall e <- table, i, j | Offends(p, table, r, e, i, j)
      ensures Suspect(r, e)
      ensures (r.self ==> i == j) ==> KeySeen(p, table, r, e.key)
      ensures r.xperms.None? ==> KeyCaught(p, table, r, e.key)
    {
    }
    forall e <- table | Suspect(r, e) && KeySeen(p, table, r, e.key) ensures Seen(p, table, r) {
      var i, j :| IsAbout(p, e.key, i, j) && Forbids(r, i, j) && (r.self ==> i == j) &&
                  (r.xperms.Some? ==> Clash(p, table, r.xperms.value, e.key.cls, i, j));
      assert Offends(p, table, r, e, i, j);
    }
    forall e <- table | Suspect(r, e) && r.xperms.None? && KeyCaught(p, table, r, e.key)
      ensures Violated(p, table, r)
    {
      var i, j :| IsAbout(p, e.key, i, j) && Forbids(r, i, j);
      assert Offends(p, table, r, e, i, j);
    }
  }

  lemma SeenIsCaught(p: Types, table: set<Entry>, r: Neverallow)
    requires p.Valid()
    ensures Seen(p, table, r) ==> Caught(p, table, r)
  {
    hide Offends;
  }

  /** check_assertion_avtab_match. */
  method CheckAvtabMatch(t: Avtab, p: Types, r: Neverallow, node: AvNode) returns (rc: bool)
    requires t.Valid() && HasXperms(t) && p.Valid() && (IsAllow(EntryOf(node)) ==> KeyInRange(p, node.key))
    ensures rc <==> Suspect(r, EntryOf(node)) && KeyCaught(p, TableOf(t), r, node.key)
  {
    hide Avtab.Valid, HasXperms, TableOf, Clash, SharesPerm;
    var k := node.key;
    if node.specified & ALLOWED == 0 {
      return false;
    }
    var shares := MatchAnyClassPermissions(r.perms, k.cls, node.data);
    if !shares {
      return false;
    }
    rc := CheckKey(t, p, r, k);
  }

  /** The rest of check_assertion_avtab_match, which looks at the key only. */
  method CheckKey(t: Avtab, p: Types, r: Neverallow, k: Triple) returns (rc: bool)
    requires t.Valid() && HasXperms(t) && p.Valid() && KeyInRange(p, k)
    ensures rc <==> KeyCaught(p, TableOf(t), r, k)
  {
    hide Avtab.Valid, HasXperms, TableOf, Clash;
    if r.stypes * p.members[k.source - 1] == {} {
      NoSource(p, r, k);
      return false;
    }
    if r.notself {
      var match_ := CheckNotselfMatch(p, r, k);
      if !match_ {
        return false;
      }
    } else if r.ttypes * p.members[k.target - 1] == {} {
      if r.self {
        var match_ := CheckSelfMatch(p, r, k);
        if !match_ {
          NoExplicitTarget(p, r, k);
          return false;
        }
      } else {
        NoExplicitTarget(p, r, k);
        return false;
      }
    } else {
      ExplicitTarget(p, r, k);
    }
    if r.xperms.Some? {
      rc := CheckXperms(t, p, r, k);
      return;
    }
    rc := true;
  }

  lemma NoSource(p: Types, r: Neverallow, k: Triple)
    requires KeyInRange(p, k) && r.stypes * p.members[k.source - 1] == {}
    ensures forall i, j :: !(IsAbout(p, k, i, j) && Forbids(r, i, j))
  {
    forall i, j | IsAbout(p, k, i, j) ensures !Forbids(r, i, j) {
      assert i !in r.stypes * p.members[k.source - 1];
    }
  }

  lemma ExplicitTarget(p: Types, r: Neverallow, k: Triple)
    requires KeyInRange(p, k) && !r.notself
    requires r.stypes * p.members[k.source - 1] != {} && r.ttypes * p.members[k.target - 1] != {}
    ensures exists i, j :: IsAbout(p, k, i, j) && Forbids(r, i, j)
  {
    var i :| i in r.stypes * p.members[k.source - 1];
    var j :| j in r.ttypes * p.members[k.target - 1];
    assert IsAbout(p, k, i, j) && Forbids(r, i, j);
  }

  lemma NoExplicitTarget(p: Types, r: Neverallow, k: Triple)
    requires KeyInRange(p, k) && !r.notself && r.ttypes * p.members[k.target - 1] == {}
    ensures forall i, j :: IsAbout(p, k, i, j) && Forbids(r, i, j) ==> r.self && i == j
  {
    forall i, j | IsAbout(p, k, i, j) && Forbids(r, i, j) ensures r.self && i == j {
      assert j !in r.ttypes * p.members[k.target - 1];
    }
  }

  /** avtab_map with check_assertion_avtab_match. */
  method CheckTable(t: Avtab, p: Types, r: Neverallow) returns (rc: bool)
    requires t.Valid() && p.Valid() && WellFormed(p, TableOf(t))
    ensures rc <==> Caught(p, TableOf(t), r)
  {
    hide Avtab.Valid, HasXperms, WellFormed, TableOf, Caught, KeyCaught, KeyInRange, IsAllow, Suspect;
    WellFormedNodes(t, p);
    CaughtByKey(p, TableOf(t), r);
    var order := t.Walk();
    WalkIsTable(t, order);
    for i := 0 to |order|
      invariant forall j :: 0 <= j < i ==>
                  !(Suspect(r, EntryOf(order[j])) && KeyCaught(p, TableOf(t), r, order[j].key))
    {
      var found := CheckAvtabMatch(t, p, r, order[i]);
      if found {
        return true;
      }
    }
    rc := false;
  }

  lemma WalkIsTable(t: Avtab, order: seq<AvNode>)
    requires forall i :: 0 <= i < |order| ==> order[i] in t.nodes
    requires forall n <- t.nodes :: n in order
    ensures forall i :: 0 <= i < |order| ==> EntryOf(order[i]) in TableOf(t)
    ensures forall e <- TableOf(t) :: exists i :: 0 <= i < |order| && EntryOf(order[i]) == e
  {
  }

  lemma WellFormedNodes(t: Avtab, p: Types)
    requires WellFormed(p, TableOf(t))
    ensures HasXperms(t) && forall n <- t.nodes :: IsAllow(EntryOf(n)) ==> KeyInRange(p, n.key)
  {
    forall n <- t.nodes ensures EntryOf(n) in TableOf(t) {
    }
    hide IsAllow, Overlaps;
  }

  /** The policy, with both its tables, breaks the assertion. */
  ghost predicate Breaks(p: Types, base: Avtab, cond: Avtab, r: Neverallow)
    requires p.Valid()
    reads base`nodes, base.nodes`specified, base.nodes`data, base.nodes`xperms
    reads cond`nodes, cond.nodes`specified, cond.nodes`data, cond.nodes`xperms
  {
    Violated(p, TableOf(base), r) || Violated(p, TableOf(cond), r)
  }

  /** It breaks the assertion, and the loops get to see it. */
  ghost predicate BreaksSeen(p: Types, base: Avtab, cond: Avtab, r: Neverallow)
    requires p.Valid()
    reads base`nodes, base.nodes`specified, base.nodes`data, base.nodes`xperms
    reads cond`nodes, cond.nodes`specified, cond.nodes`data, cond.nodes`xperms
  {
    Seen(p, TableOf(base), r) || Seen(p, TableOf(cond), r)
  }

  /** check_assertion: the unconditional table first. */
  method CheckAssertion(base: Avtab, cond: Avtab, p: Types, r: Neverallow) returns (rc: bool)
    requires base.Valid() && cond.Valid() && p.Valid()
    requires WellFormed(p, TableOf(base)) && WellFormed(p, TableOf(cond))
    ensures rc <==> Caught(p, TableOf(base), r) || Caught(p, TableOf(cond), r)
    ensures !(r.xperms.Some? && Mixed(r) && NamesPerm(r)) ==> (rc <==> Breaks(p, base, cond, r))
    ensures !(r.xperms.Some? && Mixed(r) && NamesPerm(r))
            && ProperMasks(TableOf(base), r) && ProperMasks(TableOf(cond), r) ==>
              (rc <==> Infringed(p, TableOf(base), r) || Infringed(p, TableOf(cond), r))
  {
    hide Avtab.Valid, WellFormed, Seen, Violated, Infringed, TableOf, Mixed, NamesPerm, ProperMasks;
    if ProperMasks(TableOf(base), r) && ProperMasks(TableOf(cond), r) {
      ViolatedIsInfringed(p, TableOf(base), r);
      ViolatedIsInfringed(p, TableOf(cond), r);
    }
    if !(Mixed(r) && NamesPerm(r)) {
      UnmixedIsSeen(p, TableOf(base), r);
      UnmixedIsSeen(p, TableOf(cond), r);
    }
    rc := CheckTable(base, p, r);
    if !rc {
      rc := CheckTable(cond, p, r);
    }
  }

  // The report, which is made when the checker has found something.

  /** Whether there are xperm rules at all, and one among them that shares a command. */
  ghost predicate Tally(x: Xperms, es: set<Entry>, found: bool, hit: bool) {
    found == (es != {}) && hit == AnyHit(x, es)
  }

  lemma TallyJoin(x: Xperms, es: set<Entry>, fs: set<Entry>, found: bool, hit: bool, found1: bool, hit1: bool)
    requires Tally(x, es, found, hit) && Tally(x, fs, found1, hit1)
    ensures Tally(x, es + fs, found || found1, hit || hit1)
    ensures hit1 ==> found1
  {
  }

  lemma TallyOne(x: Xperms, e: Entry)
    requires Recognised(e)
    ensures Tally(x, {e}, true, CheckExtendedPermissions(x, e.xperms.value)) && Tally(x, {}, false, false)
  {
  }

  lemma TallyNone(x: Xperms)
    ensures Tally(x, {}, false, false)
  {
  }

  lemma TallyMeans(x: Xperms, es: set<Entry>, found: bool, hit: bool)
    requires Tally(x, es, found, hit)
    ensures !found || hit <==> es == {} || AnyHit(x, es)
  {
  }

  /** The search loop of report_assertion_extended_permissions for one pair of attributes. */
  method CountGroup(t: Avtab, key: Triple, x: Xperms) returns (found: bool, errors: nat)
    requires t.Valid() && HasXperms(t) && key.source > 0 && key.target > 0
    ensures Tally(x, Block(TableOf(t), {key.source - 1}, {key.target - 1}, key.cls), found, errors > 0)
  {
    hide Avtab.Valid, Avtab.Group, Block, Overlaps, Front, Tally, Recognised, CheckExtendedPermissions;
    FrontAll(t, key);
    ghost var g := t.Group(key);
    t.GroupMembers(key);
    found, errors := false, 0;
    var node, pos := t.SearchNode(key, XPERMS_ALLOWED);
    FrontNone(g, pos);
    TallyNone(x);
    while node != null
      invariant pos <= |g| && node == if pos < |g| then g[pos] else null
      invariant node != null ==> Overlaps(XPERMS_ALLOWED, node.specified)
      invariant Tally(x, Front(g, pos), found, errors > 0)
      decreases |g| - pos
    {
      var xperms := node.xperms.value;
      ghost var p := pos;
      node, pos := t.SearchNodeNext(node, XPERMS_ALLOWED, p);
      FrontNext(g, p, pos);
      assert Recognised(EntryOf(g[p])) <==> xperms.specified in {IOCTLFUNCTION, IOCTLDRIVER, NLMSG} by {
        RecognisedKind(EntryOf(g[p]));
      }
      if xperms.specified != IOCTLFUNCTION && xperms.specified != IOCTLDRIVER && xperms.specified != NLMSG {
        continue;
      }
      TallyOne(x, EntryOf(g[p]));
      TallyJoin(x, Front(g, p), {EntryOf(g[p])}, found, errors > 0, true, CheckExtendedPermissions(x, xperms));
      found := true;
      if CheckExtendedPermissions(x, xperms) {
        errors := errors + 1;
      }
    }
  }

  method CountTargets(t: Avtab, n: nat, i: nat, tattr: set<nat>, cls: nat, x: Xperms)
    returns (found: bool, errors: nat)
    requires t.Valid() && HasXperms(t) && forall j <- tattr :: j < n
    ensures Tally(x, Block(TableOf(t), {i}, tattr, cls), found, errors > 0)
  {
    hide Avtab.Valid, HasXperms, Block, Tally, TableOf;
    ghost var table := TableOf(t);
    found, errors := false, 0;
    NoBlock(table, {i}, cls);
    BelowNext(tattr, 0);
    TallyNone(x);
    for j := 0 to n
      invariant Tally(x, Block(table, {i}, Below(tattr, j), cls), found, errors > 0)
    {
      BelowNext(tattr, j);
      if j in tattr {
        var found1, errors1 := CountGroup(t, Triple(i + 1, j + 1, cls), x);
        BlockJoin(table, j, Below(tattr, j), {i}, cls);
        TallyJoin(x, Block(table, {i}, Below(tattr, j), cls), Block(table, {i}, {j}, cls),
                  found, errors > 0, found1, errors1 > 0);
        found, errors := found || found1, errors + errors1;
      }
    }
    BelowAll(tattr, n);
  }

  /** report_assertion_extended_permissions. */
  method ReportXperms(t: Avtab, p: Types, x: Xperms, cls: nat, i: nat, j: nat) returns (errors: nat)
    requires t.Valid() && HasXperms(t) && p.Valid() && i < |p.attributes| && j < |p.attributes|
    ensures errors > 0 <==> Clash(p, TableOf(t), x, cls, i, j)
  {
    hide Avtab.Valid, HasXperms, Block, Tally, TableOf, AnyHit;
    ghost var table := TableOf(t);
    var n, sattr, tattr := |p.attributes|, p.attributes[i], p.attributes[j];
    var found := false;
    errors := 0;
    NoBlock(table, tattr, cls);
    BelowNext(sattr, 0);
    TallyNone(x);
    for a := 0 to n
      invariant Tally(x, Block(table, Below(sattr, a), tattr, cls), found, errors > 0)
    {
      BelowNext(sattr, a);
      if a in sattr {
        var found1, errors1 := CountTargets(t, n, a, tattr, cls, x);
        BlockJoin(table, a, Below(sattr, a), tattr, cls);
        TallyJoin(x, Block(table, Below(sattr, a), tattr, cls), Block(table, {a}, tattr, cls),
                  found, errors > 0, found1, errors1 > 0);
        found, errors := found || found1, errors + errors1;
      }
    }
    BelowAll(sattr, n);
    TallyMeans(x, Block(table, sattr, tattr, cls), found, errors > 0);
    if !found {
      errors := errors + 1;
    }
  }

  /** The innermost loop of report_assertion_avtab_matches. */
  method ReportRow(t: Avtab, p: Types, r: Neverallow, cls: nat, i: nat, tgt: set<nat>) returns (errors: nat)
    requires t.Valid() && HasXperms(t) && p.Valid() && i < |p.attributes| && forall j <- tgt :: j < |p.attributes|
    ensures errors > 0 <==> SomePair(p, TableOf(t), r, cls, {i}, tgt)
  {
    hide Avtab.Valid, HasXperms, TableOf, Clash, SomePair;
    ghost var table := TableOf(t);
    errors := 0;
    SomePairOne(p, table, r, cls, i, 0);
    BelowNext(tgt, 0);
    for j := 0 to |p.attributes|
      invariant errors > 0 <==> SomePair(p, table, r, cls, {i}, Below(tgt, j))
    {
      BelowNext(tgt, j);
      if j in tgt {
        SomePairNext(p, table, r, cls, j, Below(tgt, j), {i});
        SomePairOne(p, table, r, cls, i, j);
        if r.self && i != j {
          continue;
        }
        if r.notself && i == j {
          continue;
        }
        if r.xperms.Some? {
          var more := ReportXperms(t, p, r.xperms.value, cls, i, j);
          errors := errors + more;
        } else {
          errors := errors + 1;
        }
      }
    }
    BelowAll(tgt, |p.attributes|);
  }

  method ReportPairs(t: Avtab, p: Types, r: Neverallow, cls: nat, src: set<nat>, tgt: set<nat>) returns (errors: nat)
    requires t.Valid() && HasXperms(t) && p.Valid()
    requires (forall i <- src :: i < |p.attributes|) && forall j <- tgt :: j < |p.attributes|
    ensures errors > 0 <==> SomePair(p, TableOf(t), r, cls, src, tgt)
  {
    hide Avtab.Valid, HasXperms, TableOf, SomePair;
    ghost var table := TableOf(t);
    errors := 0;
    SomePairNone(p, table, r, cls, tgt);
    BelowNext(src, 0);
    for i := 0 to |p.attributes|
      invariant errors > 0 <==> SomePair(p, table, r, cls, Below(src, i), tgt)
    {
      BelowNext(src, i);
      if i in src {
        SomePairNext(p, table, r, cls, i, Below(src, i), tgt);
        var more := ReportRow(t, p, r, cls, i, tgt);
        errors := errors + more;
      }
    }
    BelowAll(src, |p.attributes|);
  }

  /** report_assertion_avtab_matches: the increase of the error count. */
  method ReportAvtabMatches(t: Avtab, p: Types, r: Neverallow, node: AvNode) returns (errors: nat)
    requires t.Valid() && HasXperms(t) && p.Valid() && (IsAllow(EntryOf(node)) ==> KeyInRange(p, node.key))
    ensures errors > 0 <==> Suspect(r, EntryOf(node)) && KeySeen(p, TableOf(t), r, node.key)
  {
    hide Avtab.Valid, HasXperms, TableOf, SomePair, KeySeen, Matches;
    var k := node.key;
    if node.specified & ALLOWED == 0 {
      return 0;
    }
    var shares := MatchAnyClassPermissions(r.perms, k.cls, node.data);
    if !shares {
      return 0;
    }
    errors := ReportKey(t, p, r, k, node.data);
  }

  method ReportKey(t: Avtab, p: Types, r: Neverallow, k: Triple, data: Word) returns (errors: nat)
    requires t.Valid() && HasXperms(t) && p.Valid() && KeyInRange(p, k) && SharesPerm(r.perms, k.cls, data)
    ensures errors > 0 <==> KeySeen(p, TableOf(t), r, k)
  {
    hide Avtab.Valid, HasXperms, TableOf, SomePair, KeySeen;
    ghost var table := TableOf(t);
    var src, tgt := ComputeMatches(p, r, k);
    MatchesAreSeen(p, table, r, k, src, tgt);
    SomePairNone(p, table, r, k.cls, tgt);
    SomePairNone(p, table, r, k.cls, src);
    errors := 0;
    if src == {} {
      return;
    }
    if tgt == {} {
      return;
    }
    for c := 0 to |r.perms|
      invariant errors > 0 <==> SomePair(p, table, r, k.cls, src, tgt) && SharesPerm(r.perms[..c], k.cls, data)
    {
      assert r.perms[..c + 1] == r.perms[..c] + [r.perms[c]];
      if r.perms[c].cls != k.cls || r.perms[c].data * data == {} {
        continue;
      }
      var more := ReportPairs(t, p, r, k.cls, src, tgt);
      errors := errors + more;
    }
    assert r.perms[..|r.perms|] == r.perms;
  }

  method ReportTable(t: Avtab, p: Types, r: Neverallow) returns (errors: nat)
    requires t.Valid() && p.Valid() && WellFormed(p, TableOf(t))
    ensures errors > 0 <==> Seen(p, TableOf(t), r)
  {
    hide Avtab.Valid, HasXperms, WellFormed, TableOf, Seen, KeySeen, KeyInRange, IsAllow, Suspect;
    WellFormedNodes(t, p);
    CaughtByKey(p, TableOf(t), r);
    var order := t.Walk();
    WalkIsTable(t, order);
    errors := 0;
    for i := 0 to |order|
      invariant errors > 0 <==> exists j :: 0 <= j < i && Suspect(r, EntryOf(order[j])) &&
                                            KeySeen(p, TableOf(t), r, order[j].key)
    {
      var more := ReportAvtabMatches(t, p, r, order[i]);
      errors := errors + more;
    }
  }

  /** report_assertion_failures: it counts errors exactly when there is a violation that the
    * loops get to see. */
  method ReportAssertionFailures(base: Avtab, cond: Avtab, p: Types, r: Neverallow) returns (errors: nat)
    requires base.Valid() && cond.Valid() && p.Valid()
    requires WellFormed(p, TableOf(base)) && WellFormed(p, TableOf(cond))
    ensures errors > 0 <==> BreaksSeen(p, base, cond, r)
  {
    hide Avtab.Valid, WellFormed, Seen, TableOf;
    errors := ReportTable(base, p, r);
    var more := ReportTable(cond, p, r);
    errors := errors + more;
  }

  /** check_assertions: -1 when the errors reported for the rules are not zero. A rule that is
    * not an assertion is `None` here. */
  method CheckAssertions(base: Avtab, cond: Avtab, p: Types, rules: seq<Option<Neverallow>>) returns (rc: int)
    requires base.Valid() && cond.Valid() && p.Valid()
    requires WellFormed(p, TableOf(base)) && WellFormed(p, TableOf(cond))
    ensures rc == if exists r <- rules :: r.Some? && BreaksSeen(p, base, cond, r.value) then -1 else 0
    ensures (forall r <- rules :: r.Some? ==> !(Mixed(r.value) && NamesPerm(r.value))) ==>
              (rc == 0 <==> forall r <- rules :: r.Some? ==> !Breaks(p, base, cond, r.value))
  {
    hide Avtab.Valid, WellFormed, Seen, Violated, TableOf, Mixed, NamesPerm;
    var errors := 0;
    for i := 0 to |rules|
      invariant errors >= 0
      invariant errors > 0 <==> exists j :: 0 <= j < i && rules[j].Some? && BreaksSeen(p, base, cond, rules[j].value)
    {
      if rules[i].None? {
        continue;
      }
      var r := rules[i].value;
      SeenIsCaught(p, TableOf(base), r);
      SeenIsCaught(p, TableOf(cond), r);
      var found := CheckAssertion(base, cond, p, r);
      if found {
        var more := ReportAssertionFailures(base, cond, p, r);
        errors := errors + more;
      }
    }
    forall r <- rules | r.Some? && !(Mixed(r.value) && NamesPerm(r.value))
      ensures Breaks(p, base, cond, r.value) <==> BreaksSeen(p, base, cond, r.value)
    {
      UnmixedIsSeen(p, TableOf(base), r.value);
      UnmixedIsSeen(p, TableOf(cond), r.value);
    }
    rc := if errors > 0 then -1 else 0;
  }
}
