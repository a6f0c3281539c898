/** Enabling declaration blocks (libsepol/src/link.c, avrule_block.c): enable_avrules starts from
  * all first branches and disables those whose requirements are not met until nothing changes.
  */
module Linker {
  const SYM_CLASSES := 1
  const SYM_ROLES := 2
  const SYM_USERS := 4

  const SEPOL_ERR := -1
  const SEPOL_EREQ := -3

  /** A required class, with the names of its required permissions. */
  datatype ClassReq = ClassReq(id: string, perms: seq<string>)

  /** decl->required: symbols of all tables but the classes, then classes with permissions. */
  datatype Required = Required(symbols: seq<(nat, string)>, classes: seq<ClassReq>)

  /** A scope entry: the declarations (numbered from 1) that declare or only require the symbol. */
  datatype Scope = Scope(isDecl: bool, declIds: seq<nat>)

  /** What enabling does not change: the scope tables and the permissions of each class,
    * inherited ones included. */
  datatype Symbols = Symbols(scopes: map<(nat, string), Scope>, classPerms: map<string, set<string>>)

  class AvruleDecl {
    const id: nat
    const required: Required
    var enabled: bool
    ghost const place: (nat, nat)   // its block, and its position in that block's branch list

    constructor (id: nat, required: Required, ghost place: (nat, nat))
      ensures this.id == id && this.required == required && this.place == place
    {
      this.id, this.required, this.place, enabled := id, required, place, false;
    }
  }

  class AvruleBlock {
    const branches: seq<AvruleDecl>
    const optional: bool
    var enabled: AvruleDecl?

    constructor (branches: seq<AvruleDecl>, optional: bool)
      ensures this.branches == branches && this.optional == optional
    {
      this.branches, this.optional, enabled := branches, optional, null;
    }
  }

  /** is_id_enabled, as a function of the enabled declarations. */
  predicate IdEnabled(p: Symbols, on: set<nat>, table: nat, id: string) {
    && (table, id) in p.scopes
    && var scope := p.scopes[(table, id)];
       && scope.isDecl && |scope.declIds| > 0
       && if table == SYM_ROLES || table == SYM_USERS then exists d <- scope.declIds :: d in on
          else scope.declIds[|scope.declIds| - 1] in on
  }

  /** is_perm_existent. */
  predicate PermExistent(p: Symbols, cls: string, perm: string) {
    cls in p.classPerms && perm in p.classPerms[cls]
  }

  predicate ClassMet(p: Symbols, on: set<nat>, c: ClassReq) {
    IdEnabled(p, on, SYM_CLASSES, c.id) && forall q <- c.perms :: PermExistent(p, c.id, q)
  }

  /** All requirements hold when exactly the declarations in `on` are enabled. */
  predicate Met(p: Symbols, on: set<nat>, r: Required) {
    (forall s <- r.symbols :: IdEnabled(p, on, s.0, s.1)) && forall c <- r.classes :: ClassMet(p, on, c)
  }

  lemma MetMonotone(p: Symbols, on: set<nat>, more: set<nat>, r: Required)
    requires on <= more && Met(p, on, r)
    ensures Met(p, more, r)
  {
  }

  /** The first branches, by number, with what they require. */
  type Firsts = map<nat, Required>

  /** Every declaration of the set is a first branch whose requirements the set itself meets. */
  ghost predicate Stable(p: Symbols, firsts: Firsts, s: set<nat>) {
    s <= firsts.Keys && forall d <- s :: Met(p, s, firsts[d])
  }

  /** The greatest stable set. */
  ghost function Greatest(p: Symbols, firsts: Firsts): set<nat> {
    set d | d in firsts && exists s: set<nat> :: Stable(p, firsts, s) && d in s
  }

  lemma GreatestIsStable(p: Symbols, firsts: Firsts)
    ensures Stable(p, firsts, Greatest(p, firsts))
    ensures forall s :: Stable(p, firsts, s) ==> s <= Greatest(p, firsts)
  {
    hide Met;
    var g := Greatest(p, firsts);
    forall d <- g ensures Met(p, g, firsts[d]) {
      var s: set<nat> :| Stable(p, firsts, s) && d in s;
      assert forall e <- s :: e in g;
      MetMonotone(p, s, g, firsts[d]);
    }
  }

  // What being in the greatest stable set means, symbol by symbol.

  /** The symbol has a scope entry by which it is declared. */
  predicate Declared(p: Symbols, table: nat, id: string) {
    (table, id) in p.scopes && p.scopes[(table, id)].isDecl && p.scopes[(table, id)].declIds != []
  }

  /** Of a role or a user, one declaration in `g` is enough. */
  predicate OneIn(p: Symbols, g: set<nat>, table: nat, id: string) {
    && Declared(p, table, id)
    && var ids := p.scopes[(table, id)].declIds; exists i :: 0 <= i < |ids| && ids[i] in g
  }

  /** Of any other symbol, it takes the last. */
  predicate LastIn(p: Symbols, g: set<nat>, table: nat, id: string) {
    Declared(p, table, id) && p.scopes[(table, id)].declIds[|p.scopes[(table, id)].declIds| - 1] in g
  }

  /** A first branch is in the greatest stable set exactly when, with respect to that set, each role
    * and user it requires has a declaration, each other symbol and class has its last one, and the
    * permissions of the classes exist. */
  lemma GreatestMembers(p: Symbols, firsts: Firsts, d: nat)
    requires d in firsts
    ensures var g, r := Greatest(p, firsts), firsts[d];
            d in g <==>
              && (forall s <- r.symbols :: if s.0 in {2, 4} then OneIn(p, g, s.0, s.1) else LastIn(p, g, s.0, s.1))
              && (forall c <- r.classes :: LastIn(p, g, 1, c.id) &&
                    forall q <- c.perms :: c.id in p.classPerms && q in p.classPerms[c.id])
  {
    var g, r := Greatest(p, firsts), firsts[d];
    GreatestIsStable(p, firsts);
    GreatestIsClosed(p, firsts, d);
    forall table: nat, id: string
      ensures IdEnabled(p, g, table, id) <==> if table in {2, 4} then OneIn(p, g, table, id)
              else LastIn(p, g, table, id)
    {
      IdEnabledMeans(p, g, table, id);
    }
    assert d in g <==> Met(p, g, r);
  }

  lemma IdEnabledMeans(p: Symbols, g: set<nat>, table: nat, id: string)
    ensures IdEnabled(p, g, table, id) <==> if table in {2, 4} then OneIn(p, g, table, id) else LastIn(p, g, table, id)
  {
  }

  lemma GreatestIsClosed(p: Symbols, firsts: Firsts, d: nat)
    ensures d in firsts && Met(p, Greatest(p, firsts), firsts[d]) ==> d in Greatest(p, firsts)
  {
    hide Met;
    var g := Greatest(p, firsts);
    GreatestIsStable(p, firsts);
    if d in firsts && Met(p, g, firsts[d]) {
      forall e <- g + {d} ensures Met(p, g + {d}, firsts[e]) {
        MetMonotone(p, g, g + {d}, firsts[e]);
      }
      assert Stable(p, firsts, g + {d});
    }
  }

  /** A first branch that requires nothing but roles and users, each with a declaration that is in
    * the greatest stable set, is in it. */
  lemma RolesNeedOne(p: Symbols, firsts: Firsts, d: nat)
    requires d in firsts && firsts[d].classes == []
    requires forall s <- firsts[d].symbols :: s.0 in {2, 4} && OneIn(p, Greatest(p, firsts), s.0, s.1)
    ensures d in Greatest(p, firsts)
  {
    GreatestMembers(p, firsts, d);
  }

  /** What a first branch of the greatest stable set requires from other tables has its last
    * declaration in the set. */
  lemma OthersNeedLast(p: Symbols, firsts: Firsts, d: nat)
    requires d in Greatest(p, firsts)
    ensures forall s <- firsts[d].symbols :: s.0 !in {2, 4} ==> LastIn(p, Greatest(p, firsts), s.0, s.1)
    ensures forall c <- firsts[d].classes :: LastIn(p, Greatest(p, firsts), 1, c.id)
  {
    GreatestMembers(p, firsts, d);
  }

  datatype Policy = Policy(syms: Symbols, blocks: seq<AvruleBlock>, decls: seq<AvruleDecl?>) {
    /** decl_val_to_struct. */
    function Decl(d: nat): AvruleDecl? {
      if 1 <= d <= |decls| then decls[d - 1] else null
    }

    /** decl_val_to_struct lists exactly the declarations of the blocks, under their numbers. */
    ghost predicate WellFormed() {
      && (forall i, j :: 0 <= i < j < |blocks| ==> blocks[i] != blocks[j])
      && (forall i, k :: 0 <= i < |blocks| && 0 <= k < |blocks[i].branches| ==>
            var b := blocks[i].branches[k]; Decl(b.id) == b && b.place == (i, k))
      && (forall d: nat :: Decl(d) != null ==>
            var b := Decl(d);
            b.id == d && b.place.0 < |blocks| && b.place.1 < |blocks[b.place.0].branches|
            && blocks[b.place.0].branches[b.place.1] == b)
      && (forall k <- syms.scopes, d <- syms.scopes[k].declIds :: 1 <= d <= |decls|)
    }

    ghost function DeclSet(): set<AvruleDecl> {
      set d: AvruleDecl | d in decls
    }

    ghost function BlockSet(): set<AvruleBlock> {
      set b <- blocks
    }

    /** The numbers of the enabled declarations. */
    ghost function On(): set<nat>
      reads DeclSet()`enabled
    {
      set d: nat | d <= |decls| && Decl(d) != null && Decl(d).enabled
    }

    ghost function Firsts(): Firsts {
      map d: nat | d <= |decls| && Decl(d) != null && Decl(d).place.1 == 0 :: Decl(d).required
    }
  }

  /** Declaration `d` is at place `d - 1`. */
  lemma DeclsAreNumbered(p: Policy, i: nat)
    requires p.WellFormed() && i < |p.decls|
    ensures p.decls[i] != null ==> p.decls[i].id == i + 1
  {
    assert p.decls[i] != null ==> p.Decl(i + 1) == p.decls[i];
  }

  /** is_id_enabled (avrule_block.c). */
  method IsIdEnabled(p: Policy, table: nat, id: string) returns (yes: bool)
    requires p.WellFormed()
    ensures yes == IdEnabled(p.syms, p.On(), table, id)
  {
    if (table, id) !in p.syms.scopes {
      return false;
    }
    var scope := p.syms.scopes[(table, id)];
    if !scope.isDecl || |scope.declIds| < 1 {
      return false;
    }
    if table == SYM_ROLES || table == SYM_USERS {
      for i := 0 to |scope.declIds|
        invariant forall k :: 0 <= k < i ==> scope.declIds[k] !in p.On()
      {
        var decl := p.Decl(scope.declIds[i]);
        if decl != null && decl.enabled {
          assert scope.declIds[i] in scope.declIds && scope.declIds[i] in p.On();
          return true;
        }
      }
    } else {
      var decl := p.Decl(scope.declIds[|scope.declIds| - 1]);
      if decl != null && decl.enabled {
        return true;
      }
    }
    yes := false;
  }

  /** is_decl_requires_met: 1 when all requirements hold and 0 otherwise.  The error return for
    * a class without scope information cannot be taken, because the class was just found
    * enabled. */
  method IsDeclRequiresMet(p: Policy, r: Required) returns (rc: int)
    requires p.WellFormed()
    ensures rc == if Met(p.syms, p.On(), r) then 1 else 0
  {
    for i := 0 to |r.symbols|
      invariant forall k :: 0 <= k < i ==> IdEnabled(p.syms, p.On(), r.symbols[k].0, r.symbols[k].1)
    {
      var yes := IsIdEnabled(p, r.symbols[i].0, r.symbols[i].1);
      if !yes {
        return 0;
      }
    }
    for i := 0 to |r.classes|
      invariant forall k :: 0 <= k < i ==> ClassMet(p.syms, p.On(), r.classes[k])
    {
      var c := r.classes[i];
      var yes := IsIdEnabled(p, SYM_CLASSES, c.id);
      if !yes {
        assert !ClassMet(p.syms, p.On(), c);
        return 0;
      }
      if (SYM_CLASSES, c.id) !in p.syms.scopes {
        return -1;
      }
      for j := 0 to |c.perms|
        invariant forall k :: 0 <= k < j ==> PermExistent(p.syms, c.id, c.perms[k])
      {
        if !PermExistent(p.syms, c.id, c.perms[j]) {
          assert !ClassMet(p.syms, p.On(), c);
          return 0;
        }
      }
    }
    rc := 1;
  }

  /** Exactly the declarations in `on`, all of them first branches, are enabled, and the blocks
    * point to them. */
  ghost predicate Enabled(p: Policy, on: set<nat>)
    requires p.WellFormed()
    reads p.DeclSet()`enabled, p.BlockSet()`enabled
  {
    && p.On() == on && on <= p.Firsts().Keys
    && forall i :: 0 <= i < |p.blocks| && |p.blocks[i].branches| > 0 ==>
         p.blocks[i].enabled == if p.blocks[i].branches[0].id in on then p.blocks[i].branches[0] else null
  }

  /** Step 1: enable all first branches. */
  method EnableFirsts(p: Policy) returns (ret: int)
    requires p.WellFormed()
    modifies p.DeclSet()`enabled, p.BlockSet()`enabled
    ensures ret == if exists i :: 0 <= i < |p.blocks| && p.blocks[i].branches == [] then SEPOL_ERR else 0
    ensures ret == 0 ==> Enabled(p, p.Firsts().Keys)
  {
    for i := 0 to |p.blocks|
      invariant forall a :: 0 <= a < i ==> p.blocks[a].branches != []
      invariant forall a :: 0 <= a < i ==> p.blocks[a].enabled == p.blocks[a].branches[0]
      invariant forall a, k :: 0 <= a < i && 0 <= k < |p.blocks[a].branches| ==>
                  p.blocks[a].branches[k].enabled == (k == 0)
    {
      var block := p.blocks[i];
      if block.branches == [] {
        block.enabled := null;
        return SEPOL_ERR;
      }
      SetBranches(p, i, block);
    }
    FirstsOn(p);
    ret := 0;
  }

  lemma FirstsOn(p: Policy)
    requires p.WellFormed()
    requires forall a :: 0 <= a < |p.blocks| ==>
               p.blocks[a].branches != [] && p.blocks[a].enabled == p.blocks[a].branches[0]
    requires forall a, k :: 0 <= a < |p.blocks| && 0 <= k < |p.blocks[a].branches| ==>
               p.blocks[a].branches[k].enabled == (k == 0)
    ensures Enabled(p, p.Firsts().Keys)
  {
    forall d: nat ensures d in p.On() <==> d in p.Firsts() {
    }
    forall a | 0 <= a < |p.blocks| ensures p.blocks[a].branches[0].id in p.Firsts() {
      var d := p.blocks[a].branches[0];
      assert d.place == (a, 0) && p.Decl(d.id) == d;
    }
  }

  method SetBranches(p: Policy, i: nat, block: AvruleBlock)
    requires p.WellFormed() && i < |p.blocks| && block == p.blocks[i] && block.branches != []
    modifies (set d <- block.branches)`enabled, block`enabled
    ensures block.enabled == block.branches[0]
    ensures forall k :: 0 <= k < |block.branches| ==> block.branches[k].enabled == (k == 0)
  {
    block.enabled := block.branches[0];
    block.branches[0].enabled := true;
    for k := 1 to |block.branches|
      invariant block.enabled == block.branches[0]
      invariant forall l :: 0 <= l < k ==> block.branches[l].enabled == (l == 0)
    {
      assert forall l :: 0 <= l < k ==> block.branches[l].place == (i, l);
      block.branches[k].enabled := false;
    }
  }

  /** Disabling one more first branch. */
  method DisableBlock(p: Policy, i: nat, block: AvruleBlock, ghost on: set<nat>)
    requires p.WellFormed() && Enabled(p, on)
    requires i < |p.blocks| && block == p.blocks[i] && block.branches != [] && block.enabled != null
    modifies p.DeclSet()`enabled, p.BlockSet()`enabled
    ensures block.branches[0].id in on
    ensures Enabled(p, on - {block.branches[0].id})
  {
    var decl := block.branches[0];
    assert decl.place == (i, 0) && p.Decl(decl.id) == decl;
    decl.enabled := false;
    block.enabled := null;
    assert p.On() == on - {decl.id};
  }

  /** A block whose first branch is enabled but not supported by the current set can never be
    * part of the greatest stable set. */
  lemma UnmetIsOutside(p: Symbols, firsts: Firsts, on: set<nat>, d: nat)
    requires Greatest(p, firsts) <= on && d in firsts && !Met(p, on, firsts[d])
    ensures d !in Greatest(p, firsts)
  {
    hide Met;
    GreatestIsStable(p, firsts);
    if d in Greatest(p, firsts) {
      MetMonotone(p, Greatest(p, firsts), on, firsts[d]);
    }
  }

  /** All enabled blocks before `n` have their requirements met. */
  ghost predicate MetBefore(p: Policy, on: set<nat>, n: nat)
    requires n <= |p.blocks|
  {
    forall i :: 0 <= i < n && p.blocks[i].branches != [] && p.blocks[i].branches[0].id in on ==>
      Met(p.syms, on, p.blocks[i].branches[0].required)
  }

  /** The blocks that must stay enabled are in `on`. */
  ghost predicate MandatoryIn(p: Policy, on: set<nat>) {
    forall i :: 0 <= i < |p.blocks| && !p.blocks[i].optional && p.blocks[i].branches != [] ==>
      p.blocks[i].branches[0].id in on
  }

  lemma OptionalLeaves(p: Policy, on: set<nat>, i: nat)
    requires p.WellFormed() && MandatoryIn(p, on)
    requires i < |p.blocks| && p.blocks[i].optional && p.blocks[i].branches != []
    ensures MandatoryIn(p, on - {p.blocks[i].branches[0].id})
  {
    var d := p.blocks[i].branches[0];
    forall j | 0 <= j < |p.blocks| && !p.blocks[j].optional && p.blocks[j].branches != []
      ensures p.blocks[j].branches[0].id in on - {d.id}
    {
      var e := p.blocks[j].branches[0];
      assert e.place == (j, 0) && d.place == (i, 0) && p.Decl(e.id) == e && p.Decl(d.id) == d;
    }
  }

  /** The body of the loop of step 2: disable the block unless its requirements are met. */
  method CheckBlock(p: Policy, i: nat, block: AvruleBlock, ghost on: set<nat>) returns (rc: int)
    requires p.WellFormed() && Enabled(p, on) && Greatest(p.syms, p.Firsts()) <= on
    requires i < |p.blocks| && block == p.blocks[i] && block.branches != []
    modifies p.DeclSet()`enabled, p.BlockSet()`enabled
    ensures var d := block.branches[0];
            && rc == (if d.id in on && !Met(p.syms, on, d.required) then 0 else 1)
            && (rc == 0 ==> d.id !in Greatest(p.syms, p.Firsts()))
            && Enabled(p, if rc == 0 then on - {d.id} else on)
  {
    hide Met;
    var decl := block.branches[0];
    assert decl.place == (i, 0) && p.Decl(decl.id) == decl;
    if block.enabled == null {
      return 1;
    }
    rc := IsDeclRequiresMet(p, decl.required);
    if rc == 0 {
      UnmetIsOutside(p.syms, p.Firsts(), on, decl.id);
      DisableBlock(p, i, block, on);
    }
  }

  /** One round of step 2, over all blocks. */
  method Round(p: Policy, ghost on: set<nat>) returns (ret: int, changed: bool, ghost left: set<nat>)
    requires p.WellFormed() && Enabled(p, on) && Greatest(p.syms, p.Firsts()) <= on && MandatoryIn(p, on)
    requires forall i :: 0 <= i < |p.blocks| ==> p.blocks[i].branches != []
    modifies p.DeclSet()`enabled, p.BlockSet()`enabled
    ensures Greatest(p.syms, p.Firsts()) <= left <= on && (changed ==> left < on)
    ensures ret == 0 || ret == SEPOL_EREQ
    ensures ret == 0 ==> Enabled(p, left) && MandatoryIn(p, left)
    ensures ret == 0 && !changed ==> left == on && MetBefore(p, on, |p.blocks|)
    ensures ret == SEPOL_EREQ ==> !MandatoryIn(p, Greatest(p.syms, p.Firsts()))
  {
    hide Met, Enabled, Greatest, MandatoryIn;
    changed, left := false, on;
    for i := 0 to |p.blocks|
      invariant Greatest(p.syms, p.Firsts()) <= left <= on && (changed ==> left < on)
      invariant Enabled(p, left) && MandatoryIn(p, left)
      invariant !changed ==> left == on && MetBefore(p, on, i)
    {
      var block := p.blocks[i];
      var rc := CheckBlock(p, i, block, left);
      if rc == 0 {
        ghost var d := block.branches[0].id;
        changed := true;
        if !block.optional {
          MandatoryGone(p, i);
          return SEPOL_EREQ, changed, left - {d};
        }
        OptionalLeaves(p, left, i);
        left := left - {d};
      }
    }
    ret := 0;
  }

  lemma MandatoryGone(p: Policy, i: nat)
    requires i < |p.blocks| && !p.blocks[i].optional && p.blocks[i].branches != []
    requires p.blocks[i].branches[0].id !in Greatest(p.syms, p.Firsts())
    ensures !MandatoryIn(p, Greatest(p.syms, p.Firsts()))
  {
  }

  /** When a round changes nothing, what is left is the greatest stable set. */
  lemma UnchangedIsGreatest(p: Policy, on: set<nat>)
    requires p.WellFormed() && on <= p.Firsts().Keys && Greatest(p.syms, p.Firsts()) <= on
    requires MetBefore(p, on, |p.blocks|)
    ensures on == Greatest(p.syms, p.Firsts())
  {
    hide Met, Greatest;
    forall d <- on ensures Met(p.syms, on, p.Firsts()[d]) {
      var b := p.Decl(d);
      assert p.blocks[b.place.0].branches[0] == b;
    }
    assert Stable(p.syms, p.Firsts(), on);
    GreatestIsStable(p.syms, p.Firsts());
  }

  /** Step 2: rounds until nothing changes. */
  method Settle(p: Policy) returns (ret: int)
    requires p.WellFormed() && Enabled(p, p.Firsts().Keys)
    requires forall i :: 0 <= i < |p.blocks| ==> p.blocks[i].branches != []
    modifies p.DeclSet()`enabled, p.BlockSet()`enabled
    ensures ret == if MandatoryIn(p, Greatest(p.syms, p.Firsts())) then 0 else SEPOL_EREQ
    ensures ret == 0 ==> Enabled(p, Greatest(p.syms, p.Firsts()))
  {
    hide Met, Greatest, MetBefore;
    ghost var on := p.Firsts().Keys;
    GreatestIsStable(p.syms, p.Firsts());
    AllMandatory(p);
    var changed := true;
    while changed
      invariant Enabled(p, on) && Greatest(p.syms, p.Firsts()) <= on && MandatoryIn(p, on)
      invariant !changed ==> on == Greatest(p.syms, p.Firsts())
      decreases |on|, changed
    {
      ghost var before := on;
      ret, changed, on := Round(p, on);
      if ret != 0 {
        return;
      }
      if changed {
        Smaller(on, before);
      } else {
        UnchangedIsGreatest(p, on);
      }
    }
    ret := 0;
  }

  lemma Smaller(a: set<nat>, b: set<nat>)
    requires a < b
    ensures |a| < |b|
  {
    assert b == a + (b - a) && a !! (b - a);
  }

  lemma AllMandatory(p: Policy)
    requires p.WellFormed()
    ensures MandatoryIn(p, p.Firsts().Keys)
  {
    forall i | 0 <= i < |p.blocks| && p.blocks[i].branches != [] ensures p.blocks[i].branches[0].id in p.Firsts() {
      var d := p.blocks[i].branches[0];
      assert d.place == (i, 0) && p.Decl(d.id) == d;
    }
  }

  /** The branch of a block that ends up enabled: the first one if it is in the greatest stable
    * set, otherwise the else branch, which the global block does not have. */
  ghost function Chosen(p: Policy, i: nat): AvruleDecl?
    requires i < |p.blocks| && p.blocks[i].branches != []
  {
    if p.blocks[i].branches[0].id in Greatest(p.syms, p.Firsts()) then p.blocks[i].branches[0]
    else if i > 0 && |p.blocks[i].branches| > 1 then p.blocks[i].branches[1]
    else null
  }

  /** enable_avrules: fails exactly when a block is empty or a mandatory block lies outside the
    * greatest stable set; otherwise exactly the chosen branches are enabled, one per block at
    * most. */
  method EnableAvrules(p: Policy) returns (ret: int)
    requires p.WellFormed()
    modifies p.DeclSet()`enabled, p.BlockSet()`enabled
    ensures ret == if exists i :: 0 <= i < |p.blocks| && p.blocks[i].branches == [] then SEPOL_ERR
                   else if !MandatoryIn(p, Greatest(p.syms, p.Firsts())) then SEPOL_EREQ else 0
    ensures ret == 0 ==> forall i :: 0 <= i < |p.blocks| ==>
              p.blocks[i].branches != [] && BranchOn(p, i, Chosen(p, i))
    ensures ret == SEPOL_EREQ <==>
              && (forall i :: 0 <= i < |p.blocks| ==> p.blocks[i].branches != [])
              && exists i :: 0 <= i < |p.blocks| && !p.blocks[i].optional
                             && p.blocks[i].branches[0].id !in Greatest(p.syms, p.Firsts())
    ensures ret == 0 ==> forall i, k :: 0 <= i < |p.blocks| && 0 <= k < |p.blocks[i].branches| ==>
              (p.blocks[i].branches[k].enabled <==>
               if p.blocks[i].branches[0].id in Greatest(p.syms, p.Firsts()) then k == 0 else i > 0 && k == 1)
  {
    hide Greatest;
    DistinctBranches(p);
    ret := EnableFirsts(p);
    if ret != 0 {
      return;
    }
    ret := Settle(p);
    if ret != 0 {
      return;
    }
    EnableElse(p);
  }

  lemma DistinctBranches(p: Policy)
    requires p.WellFormed()
    ensures forall i, j, k :: 0 <= i < |p.blocks| && 0 <= j < k < |p.blocks[i].branches| ==>
              p.blocks[i].branches[j] != p.blocks[i].branches[k]
  {
    forall i, j, k | 0 <= i < |p.blocks| && 0 <= j < k < |p.blocks[i].branches|
      ensures p.blocks[i].branches[j] != p.blocks[i].branches[k]
    {
      assert p.blocks[i].branches[j].place == (i, j) && p.blocks[i].branches[k].place == (i, k);
    }
  }

  /** In block `i` exactly the branch `chosen` (or none) is enabled. */
  ghost predicate BranchOn(p: Policy, i: nat, chosen: AvruleDecl?)
    requires i < |p.blocks|
    reads p.DeclSet()`enabled, p.BlockSet()`enabled
    requires p.WellFormed()
  {
    && p.blocks[i].enabled == chosen
    && forall k :: 0 <= k < |p.blocks[i].branches| ==>
         var d := p.blocks[i].branches[k]; p.Decl(d.id) == d && (d.enabled <==> d == chosen)
  }

  /** The branch a block has after step 2. */
  ghost function Kept(p: Policy, i: nat): AvruleDecl?
    requires i < |p.blocks| && p.blocks[i].branches != []
  {
    if p.blocks[i].branches[0].id in Greatest(p.syms, p.Firsts()) then p.blocks[i].branches[0] else null
  }

  /** Step 4: else handling, for all blocks but the first. */
  method EnableElse(p: Policy)
    requires p.WellFormed() && Enabled(p, Greatest(p.syms, p.Firsts()))
    requires forall i :: 0 <= i < |p.blocks| ==> p.blocks[i].branches != []
    modifies p.DeclSet()`enabled, p.BlockSet()`enabled
    ensures forall i :: 0 <= i < |p.blocks| ==> BranchOn(p, i, Chosen(p, i))
  {
    hide Greatest, BranchOn;
    OnlyFirsts(p);
    assert |p.blocks| > 0 ==> Chosen(p, 0) == Kept(p, 0);
    var i := 1;
    while i < |p.blocks|
      invariant 1 <= i
      invariant forall a :: 0 <= a < |p.blocks| ==>
                  BranchOn(p, a, if a < i then Chosen(p, a) else Kept(p, a))
    {
      ElseOfBlock(p, i, p.blocks[i]);
      i := i + 1;
    }
  }

  method ElseOfBlock(p: Policy, i: nat, block: AvruleBlock)
    requires p.WellFormed() && 0 < i < |p.blocks| && block == p.blocks[i] && block.branches != []
    requires forall a :: 0 <= a < |p.blocks| ==> p.blocks[a].branches != []
    requires BranchOn(p, i, Kept(p, i))
    modifies (set d <- block.branches)`enabled, block`enabled
    ensures BranchOn(p, i, Chosen(p, i))
    ensures forall a :: 0 <= a < |p.blocks| && a != i && old(BranchOn(p, a, Kept(p, a))) ==> BranchOn(p, a, Kept(p, a))
    ensures forall a :: 0 <= a < |p.blocks| && a != i && old(BranchOn(p, a, Chosen(p, a))) ==>
            BranchOn(p, a, Chosen(p, a))
  {
    hide Greatest;
    if block.enabled == null && |block.branches| > 1 {
      assert block.branches[1].place == (i, 1) && block.branches[0].place == (i, 0);
      block.enabled := block.branches[1];
      block.branches[1].enabled := true;
    }
  }

  lemma OnlyFirsts(p: Policy)
    requires p.WellFormed() && Enabled(p, Greatest(p.syms, p.Firsts()))
    requires forall i :: 0 <= i < |p.blocks| ==> p.blocks[i].branches != []
    ensures forall i :: 0 <= i < |p.blocks| ==> BranchOn(p, i, Kept(p, i))
  {
    hide Greatest;
    forall i, k | 0 <= i < |p.blocks| && 0 <= k < |p.blocks[i].branches|
      ensures var d := p.blocks[i].branches[k]; p.Decl(d.id) == d && (d.enabled <==> d == Kept(p, i))
    {
      var d := p.blocks[i].branches[k];
      assert d.place == (i, k) && p.Decl(d.id) == d;
      assert d.enabled <==> d.id in p.On();
    }
  }
}
