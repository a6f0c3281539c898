/** The rule functions between the statement parser and the table (lib.rs): allow, deny,
  * auditallow and dontaudit call sepol_add_rule for every combination of the listed names.
  */
module RuleLists {
  import opened AvTables
  import opened AvRules
  import opened AddRule

  /** The masks of all triples and all three kinds. */
  type Masks = imap<(Triple, bv16), Word>

  ghost function AllMasks(t: Avtab): Masks
    reads t`nodes, t.nodes`specified, t.nodes`data
  {
    imap k: Triple, e: bv16 | AvKind(e) :: (k, e) := Mask(t, k, e)
  }

  type Names = (string, string, string, string)

  ghost function BitsOf(perm: Option<PermValue>): Word {
    match perm
    case Some(p) => {p - 1}
    case None => ALL_ONES
  }

  /** The rule with these names is about bit `b` of triple `k`. */
  ghost predicate Hits(db: Symbols, r: Names, strip: bool, k: Triple, b: int) {
    && Resolve(db, r.0, r.1, r.2, r.3).Some?
    && var a := Resolve(db, r.0, r.1, r.2, r.3).value;
       && k.source in TypeArg(a.src, db.types, strip) && k.target in TypeArg(a.tgt, db.types, strip)
       && k.cls in ClassArg(a.cls, db.classes) && b in BitsOf(a.perm)
  }

  ghost predicate AnyHits(db: Symbols, rs: set<Names>, strip: bool, k: Triple, b: int) {
    exists r <- rs :: Hits(db, r, strip, k, b)
  }

  /** From `v` to `w` exactly the bits that some rule of `rs` is about are set, or cleared, in the
    * masks of kind `e`. */
  ghost predicate Applied(v: Masks, w: Masks, db: Symbols, rs: set<Names>, e: bv16, invert: bool) {
    forall k: Triple, f: bv16 | AvKind(f) ::
      && (k, f) in v && (k, f) in w
      && if f != e then w[(k, f)] == v[(k, f)]
         else forall b: int :: 0 <= b < 32 ==>
                (b in w[(k, f)] <==>
                 if invert then b in v[(k, f)] && !AnyHits(db, rs, StripAv(e, invert), k, b)
                 else b in v[(k, f)] || AnyHits(db, rs, StripAv(e, invert), k, b))
  }

  lemma AppliedTwice(u: Masks, v: Masks, w: Masks, db: Symbols, rs: set<Names>, qs: set<Names>, e: bv16, invert: bool)
    requires Applied(u, v, db, rs, e, invert) && Applied(v, w, db, qs, e, invert)
    ensures Applied(u, w, db, rs + qs, e, invert)
  {
    hide Hits;
    forall k: Triple, b: int
      ensures AnyHits(db, rs + qs, StripAv(e, invert), k, b) <==>
              AnyHits(db, rs, StripAv(e, invert), k, b) || AnyHits(db, qs, StripAv(e, invert), k, b)
    {
    }
  }

  lemma AppliedNone(t: Avtab, db: Symbols, e: bv16, invert: bool)
    ensures Applied(AllMasks(t), AllMasks(t), db, {}, e, invert)
  {
  }

  /** What the edit of one rule does to the masks of its kind, bit by bit. */
  lemma EditedBits(v: View, w: View, db: Symbols, r: Names, e: bv16, invert: bool, k: Triple, b: int)
    requires 0 <= b < 32 && k in v.mask && k in w.mask
    requires Resolve(db, r.0, r.1, r.2, r.3).None? ==> w == v
    requires Resolve(db, r.0, r.1, r.2, r.3).Some? ==>
               var a, strip := Resolve(db, r.0, r.1, r.2, r.3).value, StripAv(e, invert);
               Edited(v, w, e, a.perm, invert, TypeArg(a.src, db.types, strip), TypeArg(a.tgt, db.types, strip),
                      ClassArg(a.cls, db.classes))
    ensures b in w.mask[k] <==>
            if invert then b in v.mask[k] && !AnyHits(db, {r}, StripAv(e, invert), k, b)
            else b in v.mask[k] || AnyHits(db, {r}, StripAv(e, invert), k, b)
  {
    hide Resolve, TypeArg, ClassArg, Edited;
    var strip := StripAv(e, invert);
    assert AnyHits(db, {r}, strip, k, b) <==> Hits(db, r, strip, k, b);
    if Resolve(db, r.0, r.1, r.2, r.3).Some? {
      var a := Resolve(db, r.0, r.1, r.2, r.3).value;
      MaskAfterEdit(v, w, e, a.perm, invert, TypeArg(a.src, db.types, strip), TypeArg(a.tgt, db.types, strip),
                    ClassArg(a.cls, db.classes), k);
    }
  }

  /** The masks of all kinds, from what a view of kind `e` remembers. */
  ghost function FullMasks(v: View, e: bv16): Masks {
    imap k: Triple, f: bv16 | AvKind(f) :: (k, f) := if f == e then (if k in v.mask then v.mask[k] else {})
      else MaskAmong(v.others, k, f)
  }

  lemma ViewIsMasks(t: Avtab, e: bv16)
    requires AvTable(t)
    ensures FullMasks(ViewOf(t, e), e) == AllMasks(t)
  {
    hide AvTable, Mask, MaskAmong, HasNode, Others;
    forall k: Triple, f: bv16 | AvKind(f) ensures FullMasks(ViewOf(t, e), e)[(k, f)] == Mask(t, k, f) {
      if f != e {
        MaskOfOther(t, e, k, f);
      }
    }
  }

  /** sepol_add_rule, told by its masks: `v` and `w` are the views before and after. */
  lemma EditIsApplied(v: View, w: View, db: Symbols, r: Names, e: bv16, invert: bool)
    requires forall k: Triple :: k in v.mask && k in w.mask
    requires Resolve(db, r.0, r.1, r.2, r.3).None? ==> w == v
    requires Resolve(db, r.0, r.1, r.2, r.3).Some? ==>
               var a, strip := Resolve(db, r.0, r.1, r.2, r.3).value, StripAv(e, invert);
               Edited(v, w, e, a.perm, invert, TypeArg(a.src, db.types, strip), TypeArg(a.tgt, db.types, strip),
                      ClassArg(a.cls, db.classes))
    ensures Applied(FullMasks(v, e), FullMasks(w, e), db, {r}, e, invert)
  {
    hide Resolve, TypeArg, ClassArg, AnyHits, MaskAmong;
    forall k: Triple, b: int | 0 <= b < 32
      ensures b in w.mask[k] <==>
              if invert then b in v.mask[k] && !AnyHits(db, {r}, StripAv(e, invert), k, b)
              else b in v.mask[k] || AnyHits(db, {r}, StripAv(e, invert), k, b)
    {
      EditedBits(v, w, db, r, e, invert, k, b);
    }
  }

  /** add_rule, the innermost call. */
  method AddOne(t: Avtab, db: Symbols, r: Names, e: bv16, invert: bool)
    requires t.Valid() && AvTable(t) && AvKind(e)
    modifies t, t.htable, t.nodes`next, t.nodes`data
    ensures t.Valid() && AvTable(t) && fresh(t.nodes - old(t.nodes))
    ensures Applied(old(AllMasks(t)), AllMasks(t), db, {r}, e, invert)
  {
    hide Avtab.Valid, AvTable, Resolve, TypeArg, ClassArg, Edited, Applied, Mask, Others, HasNode, FullMasks, AllMasks;
    ghost var v := ViewOf(t, e);
    ViewIsMasks(t, e);
    var rc := SepolAddRule(t, db, r.0, r.1, r.2, r.3, e, invert);
    ViewIsMasks(t, e);
    EditIsApplied(v, ViewOf(t, e), db, r, e, invert);
  }

  /** expand_wildcard: no names stand for the empty name, which is the wildcard. */
  function ExpandWildcard(items: seq<string>): (r: seq<string>)
    ensures r != [] && (forall x :: x in r <==> if items == [] then x == "" else x in items)
  {
    if items == [] then [""] else items
  }

  ghost function Product(ss: seq<string>, ts: seq<string>, cs: seq<string>, ps: seq<string>): set<Names> {
    set s <- ss, t <- ts, c <- cs, p <- ps :: (s, t, c, p)
  }

  lemma ProductJoin(a: seq<string>, b: seq<string>, ss: seq<string>, ts: seq<string>, cs: seq<string>, ps: seq<string>)
    ensures Product(a + b, ts, cs, ps) == Product(a, ts, cs, ps) + Product(b, ts, cs, ps)
    ensures Product(ss, a + b, cs, ps) == Product(ss, a, cs, ps) + Product(ss, b, cs, ps)
    ensures Product(ss, ts, a + b, ps) == Product(ss, ts, a, ps) + Product(ss, ts, b, ps)
    ensures Product(ss, ts, cs, a + b) == Product(ss, ts, cs, a) + Product(ss, ts, cs, b)
  {
  }

  lemma ProductOne(s: string, t: string, c: string, p: string)
    ensures Product([s], [t], [c], [p]) == {(s, t, c, p)}
  {
  }

  lemma ProductNone(ss: seq<string>, ts: seq<string>, cs: seq<string>, ps: seq<string>)
    requires ss == [] || ts == [] || cs == [] || ps == []
    ensures Product(ss, ts, cs, ps) == {}
  {
  }

  method AddPerms(t: Avtab, db: Symbols, s: string, tg: string, c: string, ps: seq<string>, e: bv16, invert: bool)
    requires t.Valid() && AvTable(t) && AvKind(e)
    modifies t, t.htable, t.nodes`next, t.nodes`data
    ensures t.Valid() && AvTable(t) && fresh(t.nodes - old(t.nodes))
    ensures Applied(old(AllMasks(t)), AllMasks(t), db, Product([s], [tg], [c], ps), e, invert)
  {
    hide Avtab.Valid, AvTable, Applied, AllMasks, Product;
    AppliedNone(t, db, e, invert);
    ProductNone([s], [tg], [c], []);
    for i := 0 to |ps|
      invariant t.Valid() && AvTable(t) && fresh(t.nodes - old(t.nodes))
      invariant Applied(old(AllMasks(t)), AllMasks(t), db, Product([s], [tg], [c], ps[..i]), e, invert)
    {
      ghost var v := AllMasks(t);
      AddOne(t, db, (s, tg, c, ps[i]), e, invert);
      ProductOne(s, tg, c, ps[i]);
      assert ps[..i + 1] == ps[..i] + [ps[i]];
      ProductJoin(ps[..i], [ps[i]], [s], [tg], [c], []);
      AppliedTwice(old(AllMasks(t)), v, AllMasks(t), db, Product([s], [tg], [c], ps[..i]), {(s, tg, c, ps[i])}, e,
        invert);
    }
    assert ps[..|ps|] == ps;
  }

  method AddClasses(t: Avtab, db: Symbols, s: string, tg: string, cs: seq<string>, ps: seq<string>, e: bv16,
      invert: bool)
    requires t.Valid() && AvTable(t) && AvKind(e)
    modifies t, t.htable, t.nodes`next, t.nodes`data
    ensures t.Valid() && AvTable(t) && fresh(t.nodes - old(t.nodes))
    ensures Applied(old(AllMasks(t)), AllMasks(t), db, Product([s], [tg], cs, ps), e, invert)
  {
    hide Avtab.Valid, AvTable, Applied, AllMasks, Product;
    AppliedNone(t, db, e, invert);
    ProductNone([s], [tg], [], ps);
    for i := 0 to |cs|
      invariant t.Valid() && AvTable(t) && fresh(t.nodes - old(t.nodes))
      invariant Applied(old(AllMasks(t)), AllMasks(t), db, Product([s], [tg], cs[..i], ps), e, invert)
    {
      ghost var v := AllMasks(t);
      AddPerms(t, db, s, tg, cs[i], ps, e, invert);
      assert cs[..i + 1] == cs[..i] + [cs[i]];
      ProductJoin(cs[..i], [cs[i]], [s], [tg], [], ps);
      AppliedTwice(old(AllMasks(t)), v, AllMasks(t), db, Product([s], [tg], cs[..i], ps),
        Product([s], [tg], [cs[i]], ps), e, invert);
    }
    assert cs[..|cs|] == cs;
  }

  method AddTargets(t: Avtab, db: Symbols, s: string, ts: seq<string>, cs: seq<string>, ps: seq<string>, e: bv16,
      invert: bool)
    requires t.Valid() && AvTable(t) && AvKind(e)
    modifies t, t.htable, t.nodes`next, t.nodes`data
    ensures t.Valid() && AvTable(t) && fresh(t.nodes - old(t.nodes))
    ensures Applied(old(AllMasks(t)), AllMasks(t), db, Product([s], ts, cs, ps), e, invert)
  {
    hide Avtab.Valid, AvTable, Applied, AllMasks, Product;
    AppliedNone(t, db, e, invert);
    ProductNone([s], [], cs, ps);
    for i := 0 to |ts|
      invariant t.Valid() && AvTable(t) && fresh(t.nodes - old(t.nodes))
      invariant Applied(old(AllMasks(t)), AllMasks(t), db, Product([s], ts[..i], cs, ps), e, invert)
    {
      ghost var v := AllMasks(t);
      AddClasses(t, db, s, ts[i], cs, ps, e, invert);
      assert ts[..i + 1] == ts[..i] + [ts[i]];
      ProductJoin(ts[..i], [ts[i]], [s], [], cs, ps);
      AppliedTwice(old(AllMasks(t)), v, AllMasks(t), db, Product([s], ts[..i], cs, ps), Product([s], [ts[i]], cs, ps),
        e, invert);
    }
    assert ts[..|ts|] == ts;
  }

  // What the listed names mean.

  /** The list stands for the name; the empty list stands for the wildcard, the empty name. */
  predicate Listed(names: seq<string>, n: string) {
    if names == [] then n == "" else n in names
  }

  /** Some rule over the listed names is about the bit. */
  ghost predicate AnyMeant(db: Symbols, s: seq<string>, tg: seq<string>, c: seq<string>, p: seq<string>, adds: bool,
                           k: Triple, b: int)
  {
    exists x, y, z, w :: Listed(s, x) && Listed(tg, y) && Listed(c, z) && Listed(p, w)
                         && Known(db, x, y, z, w) && Meant(db, x, y, z, w, adds, k, b)
  }

  lemma HitsIsMeant(db: Symbols, r: Names, strip: bool, k: Triple, b: int)
    requires 0 <= b < 32
    ensures Hits(db, r, strip, k, b) <==>
            Known(db, r.0, r.1, r.2, r.3) && Meant(db, r.0, r.1, r.2, r.3, !strip, k, b)
  {
    hide TypeArg, ClassArg, TypeMeant, ClassMeant, BitMeant, Find, Known;
    ResolveIsKnown(db, r.0, r.1, r.2, r.3);
    if Resolve(db, r.0, r.1, r.2, r.3).Some? {
      TypeArgIsMeant(db.types, r.0, strip, k.source);
      TypeArgIsMeant(db.types, r.1, strip, k.target);
      ClassArgIsMeant(db.classes, r.2, k.cls);
      if r.3 == "" {
        WildcardBit(db.classes, r.2, b);
      } else {
        PermIsMeant(db, r.0, r.1, r.2, r.3, b);
      }
    }
  }

  lemma AnyHitsIsMeant(db: Symbols, s: seq<string>, tg: seq<string>, c: seq<string>, p: seq<string>, strip: bool,
                       k: Triple, b: int)
    requires 0 <= b < 32
    ensures AnyHits(db, Product(ExpandWildcard(s), ExpandWildcard(tg), ExpandWildcard(c), ExpandWildcard(p)), strip,
            k, b)
            <==> AnyMeant(db, s, tg, c, p, !strip, k, b)
  {
    hide Hits, Known, Meant;
    var rs := Product(ExpandWildcard(s), ExpandWildcard(tg), ExpandWildcard(c), ExpandWildcard(p));
    if AnyHits(db, rs, strip, k, b) {
      var r :| r in rs && Hits(db, r, strip, k, b);
      HitsIsMeant(db, r, strip, k, b);
      assert Listed(s, r.0) && Listed(tg, r.1) && Listed(c, r.2) && Listed(p, r.3);
    }
    if AnyMeant(db, s, tg, c, p, !strip, k, b) {
      var x, y, z, w :| Listed(s, x) && Listed(tg, y) && Listed(c, z) && Listed(p, w)
                        && Known(db, x, y, z, w) && Meant(db, x, y, z, w, !strip, k, b);
      HitsIsMeant(db, (x, y, z, w), strip, k, b);
      assert (x, y, z, w) in rs;
    }
  }

  /** From `v` to `w` the bits that are meant are set, or cleared, for kind `e`, and no others. */
  ghost predicate Done(v: Masks, w: Masks, db: Symbols, s: seq<string>, tg: seq<string>, c: seq<string>, p: seq<string>,
                       e: bv16, invert: bool)
  {
    forall k: Triple, f: bv16 | AvKind(f) ::
      && (k, f) in v && (k, f) in w
      && (f != e ==> w[(k, f)] == v[(k, f)])
      && (f == e ==> forall b: int :: 0 <= b < 32 ==>
            (b in w[(k, f)] <==> if AnyMeant(db, s, tg, c, p, Adds(e, invert), k, b) then !invert else b in v[(k, f)]))
  }

  lemma AppliedIsDone(v: Masks, w: Masks, db: Symbols, s: seq<string>, tg: seq<string>, c: seq<string>, p: seq<string>,
                      e: bv16, invert: bool)
    requires AvKind(e)
    requires Applied(v, w, db, Product(ExpandWildcard(s), ExpandWildcard(tg), ExpandWildcard(c), ExpandWildcard(p)),
             e, invert)
    ensures Done(v, w, db, s, tg, c, p, e, invert)
  {
    hide AnyHits, AnyMeant, Product;
    AddsIsNotStrip(e, invert);
    forall k: Triple, b: int | 0 <= b < 32 {
      AnyHitsIsMeant(db, s, tg, c, p, StripAv(e, invert), k, b);
    }
  }

  /** allow, deny, auditallow and dontaudit, which differ in `e` and `invert` only: exactly the
    * bits that some combination of the listed names is about are edited. */
  method AddRules(t: Avtab, db: Symbols, s: seq<string>, tg: seq<string>, c: seq<string>, p: seq<string>, e: bv16,
      invert: bool)
    requires t.Valid() && AvTable(t) && AvKind(e)
    modifies t, t.htable, t.nodes`next, t.nodes`data
    ensures t.Valid() && AvTable(t) && fresh(t.nodes - old(t.nodes))
    ensures Applied(old(AllMasks(t)), AllMasks(t), db,
                    Product(ExpandWildcard(s), ExpandWildcard(tg), ExpandWildcard(c), ExpandWildcard(p)), e, invert)
    ensures Done(old(AllMasks(t)), AllMasks(t), db, s, tg, c, p, e, invert)
  {
    hide Avtab.Valid, AvTable, Applied, AllMasks, Product, Done;
    var ss, ts, cs, ps := ExpandWildcard(s), ExpandWildcard(tg), ExpandWildcard(c), ExpandWildcard(p);
    AppliedNone(t, db, e, invert);
    ProductNone([], ts, cs, ps);
    for i := 0 to |ss|
      invariant t.Valid() && AvTable(t) && fresh(t.nodes - old(t.nodes))
      invariant Applied(old(AllMasks(t)), AllMasks(t), db, Product(ss[..i], ts, cs, ps), e, invert)
    {
      ghost var v := AllMasks(t);
      AddTargets(t, db, ss[i], ts, cs, ps, e, invert);
      assert ss[..i + 1] == ss[..i] + [ss[i]];
      ProductJoin(ss[..i], [ss[i]], [], ts, cs, ps);
      AppliedTwice(old(AllMasks(t)), v, AllMasks(t), db, Product(ss[..i], ts, cs, ps), Product([ss[i]], ts, cs, ps),
        e, invert);
    }
    assert ss[..|ss|] == ss;
    AppliedIsDone(old(AllMasks(t)), AllMasks(t), db, s, tg, c, p, e, invert);
  }
}
