/** Extensible bitmaps (libsepol/src/ebitmap.c): sparse lists of 64-bit chunks that stand for sets
  * of bits.
  */
module Ebitmaps {
  import opened Arithmetic
  import opened AvTables

  const MAPSIZE := 64
  const EINVAL := 22
  const EOVERFLOW := 75

  const ALL_64: Word := set b: int | 0 <= b < 64

  datatype Chunk = Chunk(startbit: nat, bits: Word)

  /** A chunk is aligned and has a bit set. */
  predicate Sound(c: Chunk) {
    c.startbit % MAPSIZE == 0 && c.bits != {} && c.bits <= ALL_64
  }

  ghost predicate Canonical(ns: seq<Chunk>) {
    && (forall i :: 0 <= i < |ns| ==> Sound(ns[i]))
    && (forall i, j :: 0 <= i < j < |ns| ==> ns[i].startbit < ns[j].startbit)
  }

  /** The map of the chunk at `base`, or an empty one. */
  ghost function MapAt(ns: seq<Chunk>, base: int): Word {
    if ns == [] then {}
    else if ns[|ns| - 1].startbit == base then ns[|ns| - 1].bits
    else MapAt(ns[..|ns| - 1], base)
  }

  /** The bit is set. */
  ghost predicate Has(ns: seq<Chunk>, x: int) {
    x % MAPSIZE in MapAt(ns, x - x % MAPSIZE)
  }

  ghost predicate AllBelow(ns: seq<Chunk>, s: int) {
    forall i :: 0 <= i < |ns| ==> ns[i].startbit < s
  }

  lemma {:induction false} NothingAbove(ns: seq<Chunk>, base: int)
    requires AllBelow(ns, base)
    ensures MapAt(ns, base) == {}
  {
    if ns != [] {
      NothingAbove(ns[..|ns| - 1], base);
    }
  }

  lemma MapAtEnd(ns: seq<Chunk>, c: Chunk, base: int)
    ensures MapAt(ns + [c], base) == if base == c.startbit then c.bits else MapAt(ns, base)
  {
    assert (ns + [c])[..|ns|] == ns;
  }

  lemma {:induction false} MapAtIndex(ns: seq<Chunk>, i: nat)
    requires Canonical(ns) && i < |ns|
    ensures MapAt(ns, ns[i].startbit) == ns[i].bits
  {
    if i < |ns| - 1 {
      MapAtIndex(ns[..|ns| - 1], i);
    }
  }

  lemma {:induction false} MapAtMember(ns: seq<Chunk>, base: int)
    ensures MapAt(ns, base) != {} ==>
              exists i :: 0 <= i < |ns| && ns[i].startbit == base && ns[i].bits == MapAt(ns, base)
  {
    if ns != [] && ns[|ns| - 1].startbit != base {
      MapAtMember(ns[..|ns| - 1], base);
    }
  }

  lemma CanonicalEnd(ns: seq<Chunk>, c: Chunk)
    requires Canonical(ns) && Sound(c) && AllBelow(ns, c.startbit)
    ensures Canonical(ns + [c])
  {
  }

  /** The first `i` chunks of one list and the first `j` of another are merged up to the same
    * place: what is left of either lies above what is done of both. */
  ghost predicate Aligned(a: seq<Chunk>, i: nat, b: seq<Chunk>, j: nat) {
    && i <= |a| && j <= |b|
    && (i < |a| ==> AllBelow(b[..j], a[i].startbit))
    && (j < |b| ==> AllBelow(a[..i], b[j].startbit))
  }

  lemma PrefixBelow(a: seq<Chunk>, i: nat)
    requires Canonical(a) && i < |a|
    ensures AllBelow(a[..i], a[i].startbit)
    ensures i + 1 < |a| ==> AllBelow(a[..i + 1], a[i + 1].startbit)
    ensures a[..i + 1] == a[..i] + [a[i]]
  {
  }

  /** Advancing over the smaller of two chunks, or over two at the same place. */
  lemma AlignedNext(a: seq<Chunk>, i: nat, b: seq<Chunk>, j: nat)
    requires Canonical(a) && Canonical(b) && Aligned(a, i, b, j)
    ensures i < |a| && (j == |b| || a[i].startbit < b[j].startbit) ==> Aligned(a, i + 1, b, j)
    ensures j < |b| && (i == |a| || b[j].startbit < a[i].startbit) ==> Aligned(a, i, b, j + 1)
    ensures i < |a| && j < |b| && a[i].startbit == b[j].startbit ==> Aligned(a, i + 1, b, j + 1)
  {
    if i < |a| { PrefixBelow(a, i); }
    if j < |b| { PrefixBelow(b, j); }
  }

  /** The three merges: union, intersection, symmetric difference. */
  datatype Op = Or | And | Xor

  function Apply(op: Op, v: Word, w: Word): Word {
    match op
    case Or => v + w
    case And => v * w
    case Xor => (v - w) + (w - v)
  }

  lemma ApplyEmpty(op: Op, v: Word)
    ensures Apply(op, {}, v) == Apply(op, v, {}) == if op == And then {} else v
  {
    assert {} * v == {} && v * {} == {};
    assert ({} - v) + (v - {}) == v;
  }

  /** The maps of `out` are those of the first `i` and `j` chunks, merged. */
  ghost predicate MapsMerged(op: Op, a: seq<Chunk>, i: nat, b: seq<Chunk>, j: nat, out: seq<Chunk>)
    requires i <= |a| && j <= |b|
  {
    forall base: int :: MapAt(out, base) == Apply(op, MapAt(a[..i], base), MapAt(b[..j], base))
  }

  /** The list `out` is the merge of the first `i` and `j` chunks. */
  ghost predicate Merged(op: Op, a: seq<Chunk>, i: nat, b: seq<Chunk>, j: nat, out: seq<Chunk>) {
    && Aligned(a, i, b, j) && Canonical(out) && MapsMerged(op, a, i, b, j, out)
    && (i < |a| ==> AllBelow(out, a[i].startbit)) && (j < |b| ==> AllBelow(out, b[j].startbit))
  }

  lemma MergedStart(op: Op, a: seq<Chunk>, b: seq<Chunk>)
    ensures Merged(op, a, 0, b, 0, [])
  {
    ApplyEmpty(op, {});
  }

  /** The end of a prefix, at a place the other prefix has nothing. */
  lemma PrefixEnd(a: seq<Chunk>, i: nat, b: seq<Chunk>, j: nat)
    requires Canonical(a) && Canonical(b) && Aligned(a, i, b, j) && i < |a|
    ensures MapAt(b[..j], a[i].startbit) == {} == MapAt(a[..i], a[i].startbit)
    ensures forall base: int :: MapAt(a[..i + 1], base) == if base == a[i].startbit then a[i].bits
            else MapAt(a[..i], base)
  {
    PrefixBelow(a, i);
    NothingAbove(a[..i], a[i].startbit);
    NothingAbove(b[..j], a[i].startbit);
    forall base: int { MapAtEnd(a[..i], a[i], base); }
  }

  lemma MapsFirst(op: Op, a: seq<Chunk>, i: nat, b: seq<Chunk>, j: nat, out: seq<Chunk>)
    requires Canonical(a) && Canonical(b) && Aligned(a, i, b, j) && i < |a| && MapsMerged(op, a, i, b, j, out)
    requires AllBelow(out, a[i].startbit)
    ensures MapsMerged(op, a, i + 1, b, j, if op == And then out else out + [a[i]])
  {
    hide Apply, Aligned, Canonical, AllBelow;
    PrefixEnd(a, i, b, j);
    ApplyEmpty(op, a[i].bits);
    ApplyEmpty(op, {});
    NothingAbove(out, a[i].startbit);
    forall base: int { MapAtEnd(out, a[i], base); }
  }

  /** One chunk of `a` alone. */
  lemma MergeFirst(op: Op, a: seq<Chunk>, i: nat, b: seq<Chunk>, j: nat, out: seq<Chunk>)
    requires Canonical(a) && Canonical(b) && Merged(op, a, i, b, j, out)
    requires i < |a| && (j == |b| || a[i].startbit < b[j].startbit)
    ensures Merged(op, a, i + 1, b, j, if op == And then out else out + [a[i]])
  {
    hide MapsMerged, Sound, Aligned;
    AlignedNext(a, i, b, j);
    MapsFirst(op, a, i, b, j, out);
    if op != And {
      CanonicalEnd(out, a[i]);
    }
  }

  lemma ApplySwap(op: Op, v: Word, w: Word)
    ensures Apply(op, v, w) == Apply(op, w, v)
  {
  }

  lemma MergedSwap(op: Op, a: seq<Chunk>, i: nat, b: seq<Chunk>, j: nat, out: seq<Chunk>)
    requires Merged(op, a, i, b, j, out)
    ensures Merged(op, b, j, a, i, out)
  {
    hide Apply, Canonical;
    forall base: int
      ensures Apply(op, MapAt(a[..i], base), MapAt(b[..j], base)) == Apply(op, MapAt(b[..j], base), MapAt(a[..i], base))
    {
      ApplySwap(op, MapAt(a[..i], base), MapAt(b[..j], base));
    }
  }

  lemma MapsBoth(op: Op, a: seq<Chunk>, i: nat, b: seq<Chunk>, j: nat, out: seq<Chunk>, bits: Word)
    requires Canonical(a) && Canonical(b) && Aligned(a, i, b, j) && MapsMerged(op, a, i, b, j, out)
    requires i < |a| && j < |b| && a[i].startbit == b[j].startbit && AllBelow(out, a[i].startbit)
    requires bits == Apply(op, a[i].bits, b[j].bits)
    ensures MapsMerged(op, a, i + 1, b, j + 1, if bits == {} then out else out + [Chunk(a[i].startbit, bits)])
  {
    hide Apply, Aligned, Canonical, AllBelow;
    PrefixEnd(a, i, b, j);
    AlignedSwap(a, i, b, j);
    PrefixEnd(b, j, a, i);
    NothingAbove(out, a[i].startbit);
    forall base: int { MapAtEnd(out, Chunk(a[i].startbit, bits), base); }
  }

  /** Two chunks at the same place. */
  lemma MergeBoth(op: Op, a: seq<Chunk>, i: nat, b: seq<Chunk>, j: nat, out: seq<Chunk>)
    requires Canonical(a) && Canonical(b) && Merged(op, a, i, b, j, out)
    requires i < |a| && j < |b| && a[i].startbit == b[j].startbit
    ensures var bits := Apply(op, a[i].bits, b[j].bits);
            Merged(op, a, i + 1, b, j + 1, if bits == {} then out else out + [Chunk(a[i].startbit, bits)])
  {
    hide Apply, MapsMerged, Aligned;
    var bits := Apply(op, a[i].bits, b[j].bits);
    AlignedNext(a, i, b, j);
    MapsBoth(op, a, i, b, j, out, bits);
    if bits != {} {
      ApplySound(op, a[i].bits, b[j].bits);
      CanonicalEnd(out, Chunk(a[i].startbit, bits));
    }
  }

  lemma AlignedSwap(a: seq<Chunk>, i: nat, b: seq<Chunk>, j: nat)
    requires Aligned(a, i, b, j)
    ensures Aligned(b, j, a, i)
  {
  }

  lemma ApplySound(op: Op, v: Word, w: Word)
    requires v <= ALL_64 && w <= ALL_64
    ensures Apply(op, v, w) <= ALL_64
  {
  }

  // The bitmaps.

  ghost function HighOf(ns: seq<Chunk>): nat {
    if ns == [] then 0 else ns[|ns| - 1].startbit + MAPSIZE
  }

  /** The place of the highest chunk is the highest with a bit. */
  lemma HighIsTop(ns: seq<Chunk>)
    requires Canonical(ns)
    ensures ns != [] ==> MapAt(ns, HighOf(ns) - MAPSIZE) != {}
    ensures forall base: int :: base > HighOf(ns) - MAPSIZE ==> MapAt(ns, base) == {}
  {
    if ns != [] {
      MapAtIndex(ns, |ns| - 1);
    }
    forall base: int | base > HighOf(ns) - MAPSIZE ensures MapAt(ns, base) == {} {
      NothingAbove(ns, base);
    }
  }

  lemma HighOfUnion(a: seq<Chunk>, b: seq<Chunk>, out: seq<Chunk>)
    requires Canonical(a) && Canonical(b) && Canonical(out)
    requires forall base: int :: MapAt(out, base) == Apply(Or, MapAt(a, base), MapAt(b, base))
    ensures HighOf(out) == if HighOf(a) > HighOf(b) then HighOf(a) else HighOf(b)
  {
    HighIsTop(a);
    HighIsTop(b);
    HighIsTop(out);
    Aligned64(a);
    Aligned64(b);
    Aligned64(out);
    assert out == [] || MapAt(out, HighOf(out) - MAPSIZE) != {};
    assert a != [] ==> MapAt(out, HighOf(a) - MAPSIZE) != {};
    assert b != [] ==> MapAt(out, HighOf(b) - MAPSIZE) != {};
  }

  lemma Aligned64(ns: seq<Chunk>)
    requires Canonical(ns)
    ensures HighOf(ns) % MAPSIZE == 0 && (HighOf(ns) == 0 <==> ns == [])
  {
  }

  class Ebitmap {
    var nodes: seq<Chunk>
    var highbit: nat

    constructor ()
      ensures Valid() && nodes == []
    {
      nodes, highbit := [], 0;
    }

    ghost predicate Valid()
      reads this
    {
      Canonical(nodes) && highbit == HighOf(nodes) && highbit < TWO_32
    }

    /** The set a bitmap stands for. */
    ghost predicate Bit(x: int)
      reads this
    {
      Has(nodes, x)
    }
  }

  lemma ApplyBits(op: Op, a: seq<Chunk>, b: seq<Chunk>, out: seq<Chunk>)
    requires Merged(op, a, |a|, b, |b|, out)
    ensures forall x: int :: Has(out, x) <==>
              match op
              case Or => Has(a, x) || Has(b, x)
              case And => Has(a, x) && Has(b, x)
              case Xor => Has(a, x) != Has(b, x)
  {
    assert a[..|a|] == a && b[..|b|] == b;
  }

  /** ebitmap_or. */
  method OrInto(dst: Ebitmap, e1: Ebitmap, e2: Ebitmap)
    requires e1.Valid() && e2.Valid() && dst != e1 && dst != e2
    modifies dst
    ensures dst.Valid() && forall x: int :: dst.Bit(x) <==> e1.Bit(x) || e2.Bit(x)
  {
    hide Canonical, Merged, Apply, Has, MapAt;
    dst.nodes, dst.highbit := [], 0;
    var n1, n2 := 0, 0;
    MergedStart(Or, e1.nodes, e2.nodes);
    while n1 < |e1.nodes| || n2 < |e2.nodes|
      invariant n1 <= |e1.nodes| && n2 <= |e2.nodes|
      invariant Merged(Or, e1.nodes, n1, e2.nodes, n2, dst.nodes)
      decreases |e1.nodes| - n1 + |e2.nodes| - n2
    {
      if n1 < |e1.nodes| && n2 < |e2.nodes| && e1.nodes[n1].startbit == e2.nodes[n2].startbit {
        MergeBoth(Or, e1.nodes, n1, e2.nodes, n2, dst.nodes);
        OrNotEmpty(e1.nodes, n1, e2.nodes[n2].bits);
        dst.nodes := dst.nodes + [Chunk(e1.nodes[n1].startbit, e1.nodes[n1].bits + e2.nodes[n2].bits)];
        n1, n2 := n1 + 1, n2 + 1;
      } else if n2 == |e2.nodes| || (n1 < |e1.nodes| && e1.nodes[n1].startbit < e2.nodes[n2].startbit) {
        MergeFirst(Or, e1.nodes, n1, e2.nodes, n2, dst.nodes);
        dst.nodes := dst.nodes + [e1.nodes[n1]];
        n1 := n1 + 1;
      } else {
        MergedSwap(Or, e1.nodes, n1, e2.nodes, n2, dst.nodes);
        MergeFirst(Or, e2.nodes, n2, e1.nodes, n1, dst.nodes);
        MergedSwap(Or, e2.nodes, n2 + 1, e1.nodes, n1, dst.nodes + [e2.nodes[n2]]);
        dst.nodes := dst.nodes + [e2.nodes[n2]];
        n2 := n2 + 1;
      }
    }
    dst.highbit := if e1.highbit > e2.highbit then e1.highbit else e2.highbit;
    ApplyBits(Or, e1.nodes, e2.nodes, dst.nodes);
    UnionMaps(e1.nodes, e2.nodes, dst.nodes);
    HighOfUnion(e1.nodes, e2.nodes, dst.nodes);
  }

  lemma OrNotEmpty(a: seq<Chunk>, i: nat, w: Word)
    requires Canonical(a) && i < |a|
    ensures Apply(Or, a[i].bits, w) == a[i].bits + w != {}
  {
    assert Sound(a[i]);
  }

  lemma UnionMaps(a: seq<Chunk>, b: seq<Chunk>, out: seq<Chunk>)
    requires Merged(Or, a, |a|, b, |b|, out)
    ensures Canonical(out) && forall base: int :: MapAt(out, base) == Apply(Or, MapAt(a, base), MapAt(b, base))
  {
    assert a[..|a|] == a && b[..|b|] == b;
  }

  /** What one list has left over meets nothing in the other. */
  lemma {:induction false} AndRest(a: seq<Chunk>, i: nat, b: seq<Chunk>, j: nat, out: seq<Chunk>)
    requires Canonical(a) && Canonical(b) && Merged(And, a, i, b, j, out) && i <= |a| && j <= |b| &&
             (i == |a| || j == |b|)
    ensures Merged(And, a, |a|, b, |b|, out)
    decreases |a| - i + |b| - j
  {
    hide Canonical, Merged;
    if i < |a| {
      MergeFirst(And, a, i, b, j, out);
      AndRest(a, i + 1, b, j, out);
    } else if j < |b| {
      MergedSwap(And, a, i, b, j, out);
      MergeFirst(And, b, j, a, i, out);
      MergedSwap(And, b, j + 1, a, i, out);
      AndRest(a, i, b, j + 1, out);
    }
  }

  lemma MergedCanonical(op: Op, a: seq<Chunk>, i: nat, b: seq<Chunk>, j: nat, out: seq<Chunk>)
    requires Merged(op, a, i, b, j, out)
    ensures Canonical(out)
  {
  }

  /** The highest place of a merge is among those of the merged lists. */
  lemma MergedHigh(op: Op, a: seq<Chunk>, b: seq<Chunk>, out: seq<Chunk>)
    requires Canonical(a) && Canonical(b) && Merged(op, a, |a|, b, |b|, out)
    requires HighOf(a) < TWO_32 && HighOf(b) < TWO_32
    ensures HighOf(out) < TWO_32
  {
    HighIsTop(a);
    HighIsTop(b);
    HighIsTop(out);
    assert a[..|a|] == a && b[..|b|] == b;
    ApplyEmpty(op, {});
  }

  /** ebitmap_and. */
  method AndInto(dst: Ebitmap, e1: Ebitmap, e2: Ebitmap)
    requires e1.Valid() && e2.Valid() && dst != e1 && dst != e2
    modifies dst
    ensures dst.Valid() && forall x: int :: dst.Bit(x) <==> e1.Bit(x) && e2.Bit(x)
  {
    hide Canonical, Merged, Has, MapAt;
    dst.nodes, dst.highbit := [], 0;
    var n1, n2 := 0, 0;
    MergedStart(And, e1.nodes, e2.nodes);
    while n1 < |e1.nodes| && n2 < |e2.nodes|
      invariant n1 <= |e1.nodes| && n2 <= |e2.nodes| && dst.highbit == HighOf(dst.nodes)
      invariant Merged(And, e1.nodes, n1, e2.nodes, n2, dst.nodes)
      decreases |e1.nodes| - n1 + |e2.nodes| - n2
    {
      if e1.nodes[n1].startbit == e2.nodes[n2].startbit {
        MergeBoth(And, e1.nodes, n1, e2.nodes, n2, dst.nodes);
        var bits := e1.nodes[n1].bits * e2.nodes[n2].bits;
        if bits != {} {
          dst.nodes := dst.nodes + [Chunk(e1.nodes[n1].startbit, bits)];
          dst.highbit := e1.nodes[n1].startbit + MAPSIZE;
        }
        n1, n2 := n1 + 1, n2 + 1;
      } else if e1.nodes[n1].startbit > e2.nodes[n2].startbit {
        MergedSwap(And, e1.nodes, n1, e2.nodes, n2, dst.nodes);
        MergeFirst(And, e2.nodes, n2, e1.nodes, n1, dst.nodes);
        MergedSwap(And, e2.nodes, n2 + 1, e1.nodes, n1, dst.nodes);
        n2 := n2 + 1;
      } else {
        MergeFirst(And, e1.nodes, n1, e2.nodes, n2, dst.nodes);
        n1 := n1 + 1;
      }
    }
    AndRest(e1.nodes, n1, e2.nodes, n2, dst.nodes);
    Finished(And, e1.nodes, e2.nodes, dst.nodes);
  }

  lemma Finished(op: Op, a: seq<Chunk>, b: seq<Chunk>, out: seq<Chunk>)
    requires Canonical(a) && Canonical(b) && Merged(op, a, |a|, b, |b|, out)
    requires HighOf(a) < TWO_32 && HighOf(b) < TWO_32
    ensures Canonical(out) && HighOf(out) < TWO_32
    ensures forall x: int :: Has(out, x) <==>
              match op
              case Or => Has(a, x) || Has(b, x)
              case And => Has(a, x) && Has(b, x)
              case Xor => Has(a, x) != Has(b, x)
  {
    hide Canonical, Merged, Has;
    MergedCanonical(op, a, |a|, b, |b|, out);
    MergedHigh(op, a, b, out);
    ApplyBits(op, a, b, out);
  }

  /** ebitmap_xor. */
  method XorInto(dst: Ebitmap, e1: Ebitmap, e2: Ebitmap)
    requires e1.Valid() && e2.Valid() && dst != e1 && dst != e2
    modifies dst
    ensures dst.Valid() && forall x: int :: dst.Bit(x) <==> e1.Bit(x) != e2.Bit(x)
  {
    hide Canonical, Merged, Has, MapAt;
    dst.nodes, dst.highbit := [], 0;
    var n1, n2 := 0, 0;
    MergedStart(Xor, e1.nodes, e2.nodes);
    while n1 < |e1.nodes| || n2 < |e2.nodes|
      invariant n1 <= |e1.nodes| && n2 <= |e2.nodes| && dst.highbit == HighOf(dst.nodes)
      invariant Merged(Xor, e1.nodes, n1, e2.nodes, n2, dst.nodes)
      decreases |e1.nodes| - n1 + |e2.nodes| - n2
    {
      var startbit, bits;
      if n1 < |e1.nodes| && n2 < |e2.nodes| && e1.nodes[n1].startbit == e2.nodes[n2].startbit {
        MergeBoth(Xor, e1.nodes, n1, e2.nodes, n2, dst.nodes);
        startbit := e1.nodes[n1].startbit;
        bits := (e1.nodes[n1].bits - e2.nodes[n2].bits) + (e2.nodes[n2].bits - e1.nodes[n1].bits);
        n1, n2 := n1 + 1, n2 + 1;
      } else if n2 == |e2.nodes| || (n1 < |e1.nodes| && e1.nodes[n1].startbit < e2.nodes[n2].startbit) {
        MergeFirst(Xor, e1.nodes, n1, e2.nodes, n2, dst.nodes);
        NotEmpty(e1.nodes, n1);
        startbit, bits := e1.nodes[n1].startbit, e1.nodes[n1].bits;
        n1 := n1 + 1;
      } else {
        MergedSwap(Xor, e1.nodes, n1, e2.nodes, n2, dst.nodes);
        MergeFirst(Xor, e2.nodes, n2, e1.nodes, n1, dst.nodes);
        MergedSwap(Xor, e2.nodes, n2 + 1, e1.nodes, n1, dst.nodes + [e2.nodes[n2]]);
        NotEmpty(e2.nodes, n2);
        startbit, bits := e2.nodes[n2].startbit, e2.nodes[n2].bits;
        n2 := n2 + 1;
      }
      if bits != {} {
        dst.nodes := dst.nodes + [Chunk(startbit, bits)];
        dst.highbit := startbit + MAPSIZE;
      }
    }
    Finished(Xor, e1.nodes, e2.nodes, dst.nodes);
  }

  lemma NotEmpty(a: seq<Chunk>, i: nat)
    requires Canonical(a) && i < |a|
    ensures a[i].bits != {} && Chunk(a[i].startbit, a[i].bits) == a[i]
  {
    assert Sound(a[i]);
  }

  // Deciding.

  /** A set has one canonical list. */
  lemma {:induction false} CanonicalIsUnique(a: seq<Chunk>, b: seq<Chunk>)
    requires Canonical(a) && Canonical(b) && forall base: int :: MapAt(a, base) == MapAt(b, base)
    ensures a == b
    decreases |a|
  {
    HighIsTop(a);
    HighIsTop(b);
    if a == [] || b == [] {
      assert a != [] ==> MapAt(b, HighOf(a) - MAPSIZE) != {};
      assert b != [] ==> MapAt(a, HighOf(b) - MAPSIZE) != {};
    } else {
      assert MapAt(b, HighOf(a) - MAPSIZE) != {} && MapAt(a, HighOf(b) - MAPSIZE) != {};
      var x, y, c := a[..|a| - 1], b[..|b| - 1], a[|a| - 1];
      assert c == b[|b| - 1];
      NothingAbove(x, c.startbit);
      NothingAbove(y, c.startbit);
      forall base: int ensures MapAt(x, base) == MapAt(y, base) {
        assert MapAt(a, base) == MapAt(b, base);
      }
      CanonicalIsUnique(x, y);
      assert a == x + [c] && b == y + [c];
    }
  }

  /** The bits tell the maps. */
  lemma BitsTellMaps(a: seq<Chunk>, b: seq<Chunk>)
    requires Canonical(a) && Canonical(b) && forall x: int :: Has(a, x) <==> Has(b, x)
    ensures forall base: int :: MapAt(a, base) == MapAt(b, base)
  {
    forall base: int ensures MapAt(a, base) == MapAt(b, base) {
      MapsInRange(a, base);
      MapsInRange(b, base);
      forall k: int ensures k in MapAt(a, base) <==> k in MapAt(b, base) {
        if 0 <= k < MAPSIZE && base % MAPSIZE == 0 {
          assert (base + k) % MAPSIZE == k;
          assert Has(a, base + k) <==> Has(b, base + k);
        }
      }
    }
  }

  lemma MapsInRange(a: seq<Chunk>, base: int)
    requires Canonical(a)
    ensures forall k <- MapAt(a, base) :: 0 <= k < MAPSIZE && base % MAPSIZE == 0
  {
    MapAtMember(a, base);
    forall k <- MapAt(a, base) ensures 0 <= k < MAPSIZE && base % MAPSIZE == 0 {
      var i :| 0 <= i < |a| && a[i].startbit == base && a[i].bits == MapAt(a, base);
      assert Sound(a[i]);
    }
  }

  /** ebitmap_cmp decides equality. */
  method Cmp(e1: Ebitmap, e2: Ebitmap) returns (r: bool)
    requires e1.Valid() && e2.Valid()
    ensures r <==> forall x: int :: e1.Bit(x) <==> e2.Bit(x)
  {
    hide Canonical, MapAt, Has, HighOf;
    if forall x: int :: e1.Bit(x) <==> e2.Bit(x) {
      forall x: int ensures Has(e1.nodes, x) <==> Has(e2.nodes, x) {
        assert e1.Bit(x) <==> e2.Bit(x);
      }
      BitsTellMaps(e1.nodes, e2.nodes);
      CanonicalIsUnique(e1.nodes, e2.nodes);
    }
    if e1.highbit != e2.highbit {
      return false;
    }
    var n := 0;
    while n < |e1.nodes| && n < |e2.nodes| && e1.nodes[n] == e2.nodes[n]
      invariant n <= |e1.nodes| && n <= |e2.nodes| && e1.nodes[..n] == e2.nodes[..n]
    {
      n := n + 1;
    }
    r := n == |e1.nodes| && n == |e2.nodes|;
    if r {
      assert e1.nodes == e2.nodes;
    }
  }

  /** ebitmap_match_any decides overlap. */
  method MatchAny(e1: Ebitmap, e2: Ebitmap) returns (r: bool)
    requires e1.Valid() && e2.Valid()
    ensures r <==> exists x: int :: e1.Bit(x) && e2.Bit(x)
  {
    hide Canonical, Merged, Has, MapAt;
    var n1, n2 := 0, 0;
    MergedStart(And, e1.nodes, e2.nodes);
    while n1 < |e1.nodes| && n2 < |e2.nodes|
      invariant n1 <= |e1.nodes| && n2 <= |e2.nodes| && Merged(And, e1.nodes, n1, e2.nodes, n2, [])
      decreases |e1.nodes| - n1 + |e2.nodes| - n2
    {
      if e1.nodes[n1].startbit < e2.nodes[n2].startbit {
        MergeFirst(And, e1.nodes, n1, e2.nodes, n2, []);
        n1 := n1 + 1;
      } else if e2.nodes[n2].startbit < e1.nodes[n1].startbit {
        MergedSwap(And, e1.nodes, n1, e2.nodes, n2, []);
        MergeFirst(And, e2.nodes, n2, e1.nodes, n1, []);
        MergedSwap(And, e2.nodes, n2 + 1, e1.nodes, n1, []);
        n2 := n2 + 1;
      } else {
        if e1.nodes[n1].bits * e2.nodes[n2].bits != {} {
          ghost var x := CommonBit(e1.nodes, n1, e2.nodes, n2);
          assert e1.Bit(x) && e2.Bit(x);
          return true;
        }
        MergeBoth(And, e1.nodes, n1, e2.nodes, n2, []);
        n1, n2 := n1 + 1, n2 + 1;
      }
    }
    AndRest(e1.nodes, n1, e2.nodes, n2, []);
    Finished(And, e1.nodes, e2.nodes, []);
    forall x: int ensures !(e1.Bit(x) && e2.Bit(x)) {
      NoBits(x);
    }
    r := false;
  }

  lemma NoBits(x: int)
    ensures !Has([], x)
  {
  }

  lemma HasAt(a: seq<Chunk>, i: nat, k: int)
    requires Canonical(a) && i < |a| && 0 <= k < MAPSIZE
    ensures Has(a, a[i].startbit + k) <==> k in a[i].bits
  {
    MapAtIndex(a, i);
    assert Sound(a[i]);
    assert (a[i].startbit + k) % MAPSIZE == k;
  }

  lemma CommonBit(a: seq<Chunk>, i: nat, b: seq<Chunk>, j: nat) returns (x: int)
    requires Canonical(a) && Canonical(b) && i < |a| && j < |b| && a[i].startbit == b[j].startbit
    requires a[i].bits * b[j].bits != {}
    ensures Has(a, x) && Has(b, x)
  {
    assert Sound(a[i]);
    var k := OneOf(a[i].bits * b[j].bits);
    HasAt(a, i, k);
    HasAt(b, j, k);
    x := a[i].startbit + k;
  }

  /** The first `j` chunks of `b` are contained in `a`, whose first `i` chunks have been passed. */
  ghost predicate Covered(a: seq<Chunk>, i: nat, b: seq<Chunk>, j: nat) {
    && Aligned(a, i, b, j)
    && forall base: int :: MapAt(b[..j], base) <= MapAt(a[..i], base)
  }

  lemma CoveredNext(a: seq<Chunk>, i: nat, b: seq<Chunk>, j: nat)
    requires Canonical(a) && Canonical(b) && Covered(a, i, b, j) && i < |a| && j < |b|
    ensures a[i].startbit < b[j].startbit ==> Covered(a, i + 1, b, j)
    ensures a[i].startbit == b[j].startbit && b[j].bits <= a[i].bits ==> Covered(a, i + 1, b, j + 1)
  {
    hide Canonical, MapAt, AllBelow;
    AlignedNext(a, i, b, j);
    PrefixEnd(a, i, b, j);
    AlignedSwap(a, i, b, j);
    PrefixEnd(b, j, a, i);
    if a[i].startbit == b[j].startbit && b[j].bits <= a[i].bits {
      var x, y := a[..i + 1], b[..j + 1];
      forall base: int ensures MapAt(y, base) <= MapAt(x, base) {
        assert MapAt(b[..j], base) <= MapAt(a[..i], base);
      }
    }
  }

  /** A chunk of `b` that finds no cover. */
  lemma Uncovered(a: seq<Chunk>, i: nat, b: seq<Chunk>, j: nat) returns (x: int)
    requires Canonical(a) && Canonical(b) && Aligned(a, i, b, j) && j < |b|
    requires i < |a| ==> b[j].startbit < a[i].startbit || (a[i].startbit == b[j].startbit && !(b[j].bits <= a[i].bits))
    ensures Has(b, x) && !Has(a, x)
  {
    var s := b[j].startbit;
    assert Sound(b[j]);
    if i < |a| && a[i].startbit == s {
      MapAtIndex(a, i);
      var k: int :| k in b[j].bits && k !in a[i].bits;
      HasAt(b, j, k);
      HasAt(a, i, k);
      x := s + k;
    } else {
      var k := OneOf(b[j].bits);
      HasAt(b, j, k);
      x := s + k;
      assert x % MAPSIZE == k;
      NotThere(a, i, s);
    }
  }

  lemma NotThere(a: seq<Chunk>, i: nat, s: int)
    requires Canonical(a) && i <= |a| && AllBelow(a[..i], s) && (i < |a| ==> s < a[i].startbit)
    ensures MapAt(a, s) == {}
  {
    MapAtMember(a, s);
    forall k | 0 <= k < |a| ensures a[k].startbit != s {
      if k < i { assert a[..i][k] == a[k]; }
    }
  }

  lemma CoveredAll(a: seq<Chunk>, i: nat, b: seq<Chunk>)
    requires Canonical(a) && Covered(a, i, b, |b|)
    ensures forall x: int :: Has(b, x) ==> Has(a, x)
  {
    assert b[..|b|] == b;
    forall x: int | Has(b, x) ensures Has(a, x) {
      var base := x - x % MAPSIZE;
      MapAtMember(a[..i], base);
      var k :| 0 <= k < i && a[..i][k].startbit == base && a[..i][k].bits == MapAt(a[..i], base);
      MapAtIndex(a, k);
    }
  }

  /** ebitmap_contains decides inclusion. */
  method Contains(e1: Ebitmap, e2: Ebitmap) returns (r: bool)
    requires e1.Valid() && e2.Valid()
    ensures r <==> forall x: int :: e2.Bit(x) ==> e1.Bit(x)
  {
    hide Canonical, Covered, Has, MapAt;
    ghost var x;
    if e1.highbit < e2.highbit {
      x := TopMissing(e1.nodes, e2.nodes);
      assert e2.Bit(x) && !e1.Bit(x);
      return false;
    }
    var n1, n2 := 0, 0;
    NothingCovered(e1.nodes, e2.nodes);
    while n1 < |e1.nodes| && n2 < |e2.nodes| && e1.nodes[n1].startbit <= e2.nodes[n2].startbit
      invariant n1 <= |e1.nodes| && n2 <= |e2.nodes| && Covered(e1.nodes, n1, e2.nodes, n2)
      decreases |e1.nodes| - n1 + |e2.nodes| - n2
    {
      CoveredNext(e1.nodes, n1, e2.nodes, n2);
      if e1.nodes[n1].startbit < e2.nodes[n2].startbit {
        n1 := n1 + 1;
        continue;
      }
      if e1.nodes[n1].bits * e2.nodes[n2].bits != e2.nodes[n2].bits {
        CoveredAligned(e1.nodes, n1, e2.nodes, n2);
        x := Uncovered(e1.nodes, n1, e2.nodes, n2);
        assert e2.Bit(x) && !e1.Bit(x);
        return false;
      }
      n1, n2 := n1 + 1, n2 + 1;
    }
    if n2 < |e2.nodes| {
      CoveredAligned(e1.nodes, n1, e2.nodes, n2);
      x := Uncovered(e1.nodes, n1, e2.nodes, n2);
      assert e2.Bit(x) && !e1.Bit(x);
      return false;
    }
    CoveredAll(e1.nodes, n1, e2.nodes);
    r := true;
  }

  lemma NothingCovered(a: seq<Chunk>, b: seq<Chunk>)
    ensures Covered(a, 0, b, 0)
  {
  }

  lemma CoveredAligned(a: seq<Chunk>, i: nat, b: seq<Chunk>, j: nat)
    requires Covered(a, i, b, j)
    ensures Aligned(a, i, b, j)
  {
  }

  lemma TopMissing(a: seq<Chunk>, b: seq<Chunk>) returns (x: int)
    requires Canonical(a) && Canonical(b) && HighOf(a) < HighOf(b)
    ensures Has(b, x) && !Has(a, x)
  {
    var c := b[|b| - 1];
    assert Sound(c);
    var k := OneOf(c.bits);
    HasAt(b, |b| - 1, k);
    x := c.startbit + k;
    assert x % MAPSIZE == k;
    Aligned64(a);
    HighIsTop(a);
  }

  /** ebitmap_get_bit. */
  method GetBit(e: Ebitmap, bit: nat) returns (r: bool)
    requires e.Valid()
    ensures r <==> e.Bit(bit)
  {
    hide Canonical, MapAt, Has;
    if e.highbit < bit {
      AboveHigh(e.nodes, bit);
      return false;
    }
    var n := 0;
    while n < |e.nodes| && e.nodes[n].startbit <= bit
      invariant n <= |e.nodes| && forall i :: 0 <= i < n ==> e.nodes[i].startbit + MAPSIZE <= bit
    {
      if e.nodes[n].startbit + MAPSIZE > bit {
        HasAt(e.nodes, n, bit - e.nodes[n].startbit);
        return bit - e.nodes[n].startbit in e.nodes[n].bits;
      }
      n := n + 1;
    }
    NoChunkFor(e.nodes, n, bit);
    r := false;
  }

  lemma NoChunkFor(ns: seq<Chunk>, n: nat, bit: nat)
    requires Canonical(ns) && n <= |ns| && (n < |ns| ==> bit < ns[n].startbit)
    requires forall i :: 0 <= i < n ==> ns[i].startbit + MAPSIZE <= bit
    ensures !Has(ns, bit) && AllBelow(ns[..n], bit - bit % MAPSIZE) &&
            (n < |ns| ==> bit - bit % MAPSIZE < ns[n].startbit)
  {
    var base := bit - bit % MAPSIZE;
    forall i | 0 <= i < n ensures ns[i].startbit < base {
      assert Sound(ns[i]);
    }
    NotThere(ns, n, base);
  }

  lemma AboveHigh(ns: seq<Chunk>, bit: nat)
    requires Canonical(ns) && HighOf(ns) < bit
    ensures !Has(ns, bit)
  {
    HighIsTop(ns);
    Aligned64(ns);
  }

  // Changing one bit.

  lemma {:induction false} MapAtConcat(x: seq<Chunk>, y: seq<Chunk>, base: int)
    requires forall i :: 0 <= i < |y| ==> Sound(y[i])
    ensures MapAt(x + y, base) == if MapAt(y, base) != {} then MapAt(y, base) else MapAt(x, base)
  {
    if y == [] {
      assert x + y == x;
    } else {
      assert (x + y)[..|x + y| - 1] == x + y[..|y| - 1];
      assert Sound(y[|y| - 1]);
      MapAtConcat(x, y[..|y| - 1], base);
    }
  }

  /** What `out` has differs from what `ns` has at most in the chunk at `s`. */
  ghost predicate Changed(ns: seq<Chunk>, out: seq<Chunk>, s: int, bits: Word) {
    Canonical(out) && forall base: int :: MapAt(out, base) == if base == s then bits else MapAt(ns, base)
  }

  /** Replacing the chunk at `s`, if there is one, by the chunks of `mid`, of which there is at
    * most one. */
  lemma Splice(ns: seq<Chunk>, n: nat, m: nat, mid: seq<Chunk>, s: int)
    requires Canonical(ns) && n <= m <= |ns| && m <= n + 1 && |mid| <= 1
    requires (m == n + 1 ==> ns[n].startbit == s) && (|mid| == 1 ==> mid[0].startbit == s && Sound(mid[0]))
    requires AllBelow(ns[..n], s) && (m < |ns| ==> s < ns[m].startbit)
    ensures Changed(ns, ns[..n] + mid + ns[m..], s, if mid == [] then {} else mid[0].bits)
    ensures HighOf(ns[..n] + mid + ns[m..]) == if m < |ns| then HighOf(ns) else HighOf(ns[..n] + mid)
  {
    hide Canonical, Sound, MapAt, AllBelow;
    var out := ns[..n] + mid + ns[m..];
    SplicedCanonical(ns, n, m, mid, s);
    forall base: int {
      SplicedMap(ns, n, m, mid, s, base);
    }
    assert m < |ns| ==> out[|out| - 1] == ns[|ns| - 1];
    assert m == |ns| ==> out == ns[..n] + mid;
  }

  lemma SplicedMap(ns: seq<Chunk>, n: nat, m: nat, mid: seq<Chunk>, s: int, base: int)
    requires Canonical(ns) && n <= m <= |ns| && m <= n + 1 && |mid| <= 1
    requires (m == n + 1 ==> ns[n].startbit == s) && (|mid| == 1 ==> mid[0].startbit == s && Sound(mid[0]))
    requires AllBelow(ns[..n], s) && (m < |ns| ==> s < ns[m].startbit)
    ensures MapAt(ns[..n] + mid + ns[m..], base) == if base == s then (if mid == [] then {} else mid[0].bits)
            else MapAt(ns, base)
  {
    hide MapAt, Sound, AllBelow;
    var x, y, z := ns[..n], ns[n..m], ns[m..];
    forall i | 0 <= i < |z| ensures Sound(z[i]) && z[i].startbit > s { assert z[i] == ns[m + i]; }
    assert forall i :: 0 <= i < |y| ==> Sound(y[i]) && y[i].startbit == s;
    MapAtConcat(x + mid, z, base);
    MapAtConcat(x, mid, base);
    assert ns == x + y + z;
    MapAtConcat(x + y, z, base);
    MapAtConcat(x, y, base);
    MapAtOne(y, s, base);
    MapAtOne(mid, s, base);
    if base == s {
      NothingAbove(x, s);
      NothingBelow(z, s);
    }
  }

  lemma MapAtOne(ns: seq<Chunk>, s: int, base: int)
    requires |ns| <= 1 && (|ns| == 1 ==> ns[0].startbit == s)
    ensures MapAt(ns, base) == if ns != [] && base == s then ns[0].bits else {}
  {
  }

  lemma SplicedCanonical(ns: seq<Chunk>, n: nat, m: nat, mid: seq<Chunk>, s: int)
    requires Canonical(ns) && n <= m <= |ns| && m <= n + 1 && |mid| <= 1
    requires (m == n + 1 ==> ns[n].startbit == s) && (|mid| == 1 ==> mid[0].startbit == s && Sound(mid[0]))
    requires AllBelow(ns[..n], s) && (m < |ns| ==> s < ns[m].startbit)
    ensures Canonical(ns[..n] + mid + ns[m..])
  {
    hide Sound;
    var x, z := ns[..n], ns[m..];
    var head := x + mid;
    assert Canonical(head);
    var out := head + z;
    forall i | 0 <= i < |out| ensures Sound(out[i]) {
      if i >= |head| { assert out[i] == ns[m + i - |head|]; } else { assert out[i] == head[i]; }
    }
    forall i, j | 0 <= i < j < |out| ensures out[i].startbit < out[j].startbit {
      if i >= |head| {
        assert out[i] == ns[m + i - |head|] && out[j] == ns[m + j - |head|];
      } else if j < |head| {
        assert out[i] == head[i] && out[j] == head[j];
      } else {
        assert out[j] == ns[m + j - |head|] && out[i] == head[i];
        assert ns[m].startbit <= out[j].startbit;
        if i < n { assert x[i] == out[i]; } else { assert mid[i - n] == out[i]; }
      }
    }
  }

  lemma {:induction false} NothingBelow(ns: seq<Chunk>, s: int)
    requires forall i :: 0 <= i < |ns| ==> ns[i].startbit > s
    ensures MapAt(ns, s) == {}
  {
    if ns != [] {
      NothingBelow(ns[..|ns| - 1], s);
    }
  }

  /** Setting or clearing bit `k` of the map at `s` changes that bit alone. */
  lemma ChangedBit(ns: seq<Chunk>, out: seq<Chunk>, s: nat, k: nat, value: bool)
    requires s % MAPSIZE == 0 && k < MAPSIZE
    requires Changed(ns, out, s, if value then MapAt(ns, s) + {k} else MapAt(ns, s) - {k})
    ensures forall x: int :: Has(out, x) <==> if x == s + k then value else Has(ns, x)
  {
    hide Canonical, MapAt;
    forall x: int ensures Has(out, x) <==> if x == s + k then value else Has(ns, x) {
      assert x == x - x % MAPSIZE + x % MAPSIZE;
      assert x == s + k ==> x % MAPSIZE == k;
    }
  }

  lemma HighBound(ns: seq<Chunk>, n: nat)
    requires Canonical(ns) && n <= |ns|
    ensures Canonical(ns[..n]) && HighOf(ns[..n]) <= HighOf(ns)
  {
  }

  /** The chunk that `ebitmap_set_bit` stops at covers the bit. */
  lemma ChunkFor(ns: seq<Chunk>, n: nat, bit: nat)
    requires Canonical(ns) && n < |ns| && ns[n].startbit <= bit < ns[n].startbit + MAPSIZE
    ensures ns[n].startbit == bit - bit % MAPSIZE && MapAt(ns, ns[n].startbit) == ns[n].bits
    ensures AllBelow(ns[..n], ns[n].startbit) && (n + 1 < |ns| ==> ns[n].startbit < ns[n + 1].startbit)
    ensures ns[n].bits <= ALL_64 && bit % MAPSIZE in ALL_64
  {
    assert Sound(ns[n]);
    MapAtIndex(ns, n);
  }

  /** Setting or clearing `bit` by replacing the chunk that holds it, if there is one. */
  lemma OneBit(ns: seq<Chunk>, n: nat, m: nat, mid: seq<Chunk>, bits: Word, bit: nat, s: nat, value: bool)
    requires Canonical(ns) && n <= m <= |ns| && m <= n + 1 && bits <= ALL_64 && s == bit - bit % MAPSIZE
    requires (m == n + 1 ==> ns[n].startbit == s) && AllBelow(ns[..n], s) && (m < |ns| ==> s < ns[m].startbit)
    requires bits == if value then MapAt(ns, s) + {bit - s} else MapAt(ns, s) - {bit - s}
    requires mid == if bits == {} then [] else [Chunk(s, bits)]
    ensures Canonical(ns[..n] + mid + ns[m..])
    ensures HighOf(ns[..n] + mid + ns[m..]) == if m < |ns| then HighOf(ns) else HighOf(ns[..n] + mid)
    ensures forall x: int :: Has(ns[..n] + mid + ns[m..], x) <==> if x == bit then value else Has(ns, x)
  {
    hide Canonical, MapAt, Has, AllBelow, HighOf, Sound;
    MidSound(s, bits);
    Splice(ns, n, m, mid, s);
    assert bits == if mid == [] then {} else mid[0].bits;
    ChangedBit(ns, ns[..n] + mid + ns[m..], s, bit % MAPSIZE, value);
  }

  method SetInChunk(e: Ebitmap, n: nat, bit: nat, value: bool)
    requires e.Valid() && n < |e.nodes| && e.nodes[n].startbit <= bit < e.nodes[n].startbit + MAPSIZE
    modifies e
    ensures e.Valid() && forall x: int :: e.Bit(x) <==> if x == bit then value else old(e.Bit(x))
  {
    hide Canonical, MapAt, Has, Sound, AllBelow;
    ghost var was := e.nodes;
    ghost var s := e.nodes[n].startbit;
    ChunkFor(was, n, bit);
    HighBound(was, n);
    var bits := if value then e.nodes[n].bits + {bit - e.nodes[n].startbit}
        else e.nodes[n].bits - {bit - e.nodes[n].startbit};
    ghost var mid := if bits == {} then [] else [Chunk(s, bits)];
    ghost var out := was[..n] + mid + was[n + 1..];
    OneBit(was, n, n + 1, mid, bits, bit, s, value);
    assert forall x: int :: Has(out, x) <==> if x == bit then value else Has(was, x);
    SplicedHigh(was, n, mid);
    if bits == {} {
      if n + 1 == |e.nodes| {
        e.highbit := if n > 0 then e.nodes[n - 1].startbit + MAPSIZE else 0;
      }
      e.nodes := e.nodes[..n] + e.nodes[n + 1..];
    } else {
      e.nodes := e.nodes[n := Chunk(e.nodes[n].startbit, bits)];
    }
    Spliced(was, n, Chunk(s, bits));
    assert e.nodes == out;
  }

  lemma Spliced(ns: seq<Chunk>, n: nat, c: Chunk)
    requires n < |ns|
    ensures ns[n := c] == ns[..n] + [c] + ns[n + 1..]
    ensures ns[..n] + ns[n + 1..] == ns[..n] + [] + ns[n + 1..]
  {
  }

  /** ebitmap_set_bit: one bit takes the value; the highest chunk is refused. */
  method SetBit(e: Ebitmap, bit: nat, value: bool) returns (r: int)
    requires e.Valid() && bit < TWO_32
    modifies e
    ensures e.Valid()
    ensures r == if bit - bit % MAPSIZE + MAPSIZE == TWO_32 then -EINVAL else 0
    ensures forall x: int :: e.Bit(x) <==> if r == 0 && x == bit then value else old(e.Bit(x))
  {
    hide Canonical, MapAt, Has, Sound, AllBelow;
    var startbit := bit - bit % MAPSIZE;
    var highbit := (startbit + MAPSIZE) % TWO_32;
    if highbit == 0 {
      return -EINVAL;
    }
    ghost var was := e.nodes;
    var n := 0;
    while n < |e.nodes| && e.nodes[n].startbit <= bit
      invariant n <= |e.nodes| && unchanged(e)
      invariant forall i :: 0 <= i < n ==> e.nodes[i].startbit + MAPSIZE <= bit
    {
      if e.nodes[n].startbit + MAPSIZE > bit {
        SetInChunk(e, n, bit, value);
        return 0;
      }
      n := n + 1;
    }
    NoChunkFor(was, n, bit);
    if !value {
      return 0;
    }
    NotThere(was, n, startbit);
    SplicedHigh(was, n, [Chunk(startbit, {bit % MAPSIZE})]);
    OneBit(was, n, n, [Chunk(startbit, {bit % MAPSIZE})], {bit % MAPSIZE}, bit, startbit, value);
    if n == |e.nodes| {
      e.highbit := highbit;
    }
    e.nodes := e.nodes[..n] + [Chunk(startbit, {bit % MAPSIZE})] + e.nodes[n..];
    r := 0;
  }

  lemma MidSound(startbit: nat, bits: Word)
    requires startbit % MAPSIZE == 0 && bits <= ALL_64
    ensures bits != {} ==> Sound(Chunk(startbit, bits))
    ensures forall k: int | 0 <= k < MAPSIZE :: k in ALL_64
  {
  }

  lemma SplicedHigh(ns: seq<Chunk>, n: nat, mid: seq<Chunk>)
    requires n <= |ns|
    ensures mid != [] ==> HighOf(ns[..n] + mid) == mid[|mid| - 1].startbit + MAPSIZE
    ensures mid == [] ==> HighOf(ns[..n] + mid) == if n > 0 then ns[n - 1].startbit + MAPSIZE else 0
  {
    assert mid == [] ==> ns[..n] + mid == ns[..n];
  }

  // Complements and ranges: lists filled place by place.

  /** The maps of `ns` are given by `f` at the places of [lo, cur), and are empty elsewhere. */
  ghost predicate Filled(ns: seq<Chunk>, f: int -> Word, lo: nat, cur: nat) {
    && Canonical(ns) && AllBelow(ns, cur) && cur % MAPSIZE == 0
    && forall base: int :: MapAt(ns, base) == if base % MAPSIZE == 0 && lo <= base < cur then f(base) else {}
  }

  lemma FilledNext(ns: seq<Chunk>, f: int -> Word, lo: nat, cur: nat)
    requires Filled(ns, f, lo, cur) && lo <= cur && f(cur) <= ALL_64
    ensures Filled(if f(cur) == {} then ns else ns + [Chunk(cur, f(cur))], f, lo, cur + MAPSIZE)
  {
    var out := if f(cur) == {} then ns else ns + [Chunk(cur, f(cur))];
    NothingAbove(ns, cur);
    forall base: int
      ensures MapAt(out, base) == if base % MAPSIZE == 0 && lo <= base < cur + MAPSIZE then f(base) else {}
    {
      MapAtEnd(ns, Chunk(cur, f(cur)), base);
      assert base % MAPSIZE == 0 && cur <= base < cur + MAPSIZE ==> base == cur;
    }
  }

  lemma FilledHigh(ns: seq<Chunk>, f: int -> Word, lo: nat, cur: nat)
    requires Filled(ns, f, lo, cur)
    ensures Canonical(ns) && HighOf(ns) <= cur
  {
    assert ns != [] ==> Sound(ns[|ns| - 1]);
  }

  /** The complement of the map at `base`, cut at `maxbit`. */
  ghost function Complement(ns: seq<Chunk>, maxbit: nat): int -> Word {
    base => set k <- ALL_64 | base + k < maxbit && k !in MapAt(ns, base)
  }

  lemma ComplementBits(ns: seq<Chunk>, out: seq<Chunk>, maxbit: nat, cur: nat)
    requires Filled(out, Complement(ns, maxbit), 0, cur) && maxbit <= cur
    ensures forall x: int :: Has(out, x) <==> 0 <= x < maxbit && !Has(ns, x)
  {
    hide Canonical, MapAt, AllBelow;
    forall x: int ensures Has(out, x) <==> 0 <= x < maxbit && !Has(ns, x) {
      var base := x - x % MAPSIZE;
      assert base % MAPSIZE == 0;
      assert MapAt(out, base) == if 0 <= base < cur then Complement(ns, maxbit)(base) else {};
    }
  }

  /** ebitmap_not: what is missing below `maxbit`. */
  method Not(dst: Ebitmap, e1: Ebitmap, maxbit: nat)
    requires e1.Valid() && dst != e1 && maxbit <= TWO_32 - MAPSIZE
    modifies dst
    ensures dst.Valid() && forall x: int :: dst.Bit(x) <==> 0 <= x < maxbit && !e1.Bit(x)
  {
    hide Canonical, MapAt, Has, Filled, AllBelow;
    dst.nodes, dst.highbit := [], 0;
    var n, cur := 0, 0;
    ghost var f := Complement(e1.nodes, maxbit);
    FilledStart(f, 0);
    NothingPassed(e1.nodes);
    while cur < maxbit
      invariant n <= |e1.nodes| && AllBelow(e1.nodes[..n], cur) && (n < |e1.nodes| ==> cur <= e1.nodes[n].startbit)
      invariant Filled(dst.nodes, f, 0, cur) && dst.highbit == HighOf(dst.nodes) && cur < maxbit + MAPSIZE
      invariant cur % MAPSIZE == 0
      decreases maxbit - cur
    {
      var bits;
      PassedNext(e1.nodes, n, cur);
      if n < |e1.nodes| && e1.nodes[n].startbit == cur {
        bits := ALL_64 - e1.nodes[n].bits;
        n := n + 1;
      } else {
        bits := ALL_64;
      }
      if maxbit - cur < MAPSIZE {
        bits := bits * (set k <- ALL_64 | k < maxbit - cur);
      }
      assert bits == f(cur) by { ComplementAt(e1.nodes, maxbit, cur, bits); }
      FilledNext(dst.nodes, f, 0, cur);
      if bits != {} {
        dst.nodes := dst.nodes + [Chunk(cur, bits)];
        dst.highbit := cur + MAPSIZE;
      }
      cur := cur + MAPSIZE;
    }
    FilledHigh(dst.nodes, f, 0, cur);
    ComplementBits(e1.nodes, dst.nodes, maxbit, cur);
  }

  lemma ComplementAt(ns: seq<Chunk>, maxbit: nat, cur: nat, bits: Word)
    requires forall k: int :: k in bits <==> 0 <= k < MAPSIZE && cur + k < maxbit && k !in MapAt(ns, cur)
    ensures bits == Complement(ns, maxbit)(cur)
  {
    hide MapAt;
    assert forall k: int :: k in bits <==> k in Complement(ns, maxbit)(cur);
  }

  lemma FilledStart(f: int -> Word, lo: nat)
    requires lo % MAPSIZE == 0
    ensures Filled([], f, lo, lo)
  {
  }

  lemma NothingPassed(ns: seq<Chunk>)
    ensures AllBelow(ns[..0], 0)
  {
  }

  /** The walk of the chunks keeps up with the places. */
  lemma PassedNext(ns: seq<Chunk>, n: nat, cur: nat)
    requires Canonical(ns) && n <= |ns| && AllBelow(ns[..n], cur) && (n < |ns| ==> cur <= ns[n].startbit) &&
             cur % MAPSIZE == 0
    ensures n < |ns| && ns[n].startbit == cur ==> MapAt(ns, cur) == ns[n].bits
    ensures n < |ns| && ns[n].startbit == cur ==>
              AllBelow(ns[..n + 1], cur + MAPSIZE) && (n + 1 < |ns| ==> cur + MAPSIZE <= ns[n + 1].startbit)
    ensures !(n < |ns| && ns[n].startbit == cur) ==>
              MapAt(ns, cur) == {} && AllBelow(ns[..n], cur + MAPSIZE) && (n < |ns| ==> cur + MAPSIZE <= ns[n].startbit)
  {
    if n < |ns| {
      assert Sound(ns[n]);
      if ns[n].startbit == cur {
        MapAtIndex(ns, n);
        assert ns[..n + 1] == ns[..n] + [ns[n]];
        if n + 1 < |ns| { assert Sound(ns[n + 1]); }
      }
    }
    if n == |ns| || ns[n].startbit != cur {
      NotThere(ns, n, cur);
    }
  }

  /** Above the bound required by `Not` its counter, which wraps at 32 bits, stays below `maxbit`
    * for ever. */
  lemma CounterNeverReaches(maxbit: nat, steps: nat)
    requires TWO_32 - MAPSIZE < maxbit < TWO_32
    ensures steps * MAPSIZE % TWO_32 < maxbit
  {
    var c := steps * MAPSIZE % TWO_32;
    assert c % MAPSIZE == 0;
  }

  /** ebitmap_andnot. */
  method AndNot(dst: Ebitmap, e1: Ebitmap, e2: Ebitmap, maxbit: nat)
    requires e1.Valid() && e2.Valid() && dst != e1 && dst != e2 && maxbit <= TWO_32 - MAPSIZE
    modifies dst
    ensures dst.Valid() && forall x: int :: dst.Bit(x) <==> e1.Bit(x) && x < maxbit && !e2.Bit(x)
  {
    hide Canonical, MapAt, Has;
    var e3 := new Ebitmap();
    Not(e3, e2, maxbit);
    AndInto(dst, e1, e3);
    forall x: int ensures e1.Bit(x) ==> 0 <= x {
      BitsInRange(e1.nodes, x);
    }
  }

  lemma BitsInRange(ns: seq<Chunk>, x: int)
    requires Canonical(ns)
    ensures Has(ns, x) ==> 0 <= x < HighOf(ns)
  {
    HighIsTop(ns);
    Aligned64(ns);
    MapAtMember(ns, x - x % MAPSIZE);
  }

  /** ebitmap_cpy, chunk by chunk. */
  method Copy(dst: Ebitmap, src: Ebitmap)
    requires src.Valid() && dst != src
    modifies dst
    ensures dst.Valid() && dst.nodes == src.nodes && forall x: int :: dst.Bit(x) <==> src.Bit(x)
  {
    hide Canonical, MapAt, Has, HighOf;
    dst.nodes, dst.highbit := [], 0;
    var n := 0;
    while n < |src.nodes|
      invariant n <= |src.nodes| && dst.nodes == src.nodes[..n]
    {
      dst.nodes := dst.nodes + [Chunk(src.nodes[n].startbit, src.nodes[n].bits)];
      n := n + 1;
    }
    dst.highbit := src.highbit;
    assert dst.nodes == src.nodes;
  }

  /** ebitmap_union. */
  method Union(dst: Ebitmap, e1: Ebitmap)
    requires dst.Valid() && e1.Valid()
    modifies dst
    ensures dst.Valid() && forall x: int :: dst.Bit(x) <==> old(dst.Bit(x)) || old(e1.Bit(x))
  {
    hide Canonical, MapAt, Has;
    var tmp := new Ebitmap();
    OrInto(tmp, dst, e1);
    dst.nodes, dst.highbit := tmp.nodes, tmp.highbit;
    assert forall x: int :: dst.Bit(x) <==> tmp.Bit(x);
  }

  /** The bits of [minbit, maxbit] in the chunk at `base`. */
  ghost function Range(minbit: nat, maxbit: nat): int -> Word {
    base => set k <- ALL_64 | minbit <= base + k <= maxbit
  }

  /** The map of one chunk of a range, by the four cases of first and last. */
  method RangeMap(minbit: nat, maxbit: nat, minstartbit: nat, maxstartbit: nat, startbit: nat) returns (bits: Word)
    requires minbit <= maxbit && minstartbit <= minbit < minstartbit + MAPSIZE &&
             maxstartbit <= maxbit < maxstartbit + MAPSIZE
    requires startbit == minstartbit || minstartbit + MAPSIZE <= startbit
    requires startbit == maxstartbit || startbit + MAPSIZE <= maxstartbit
    ensures bits == Range(minbit, maxbit)(startbit) && {} != bits <= ALL_64
  {
    hide Range;
    var first, last := startbit == minstartbit, startbit == maxstartbit;
    if !first && !last {
      bits := ALL_64;
    } else if !last {
      bits := set k <- ALL_64 | minbit - startbit <= k;
    } else if !first {
      bits := set k <- ALL_64 | k < maxbit - startbit + 1;
    } else {
      bits := set k <- ALL_64 | minbit - startbit <= k < minbit - startbit + (maxbit - minbit + 1);
    }
    RangeAt(minbit, maxbit, startbit, bits);
  }

  method FillRange(e: Ebitmap, minbit: nat, maxbit: nat, minstartbit: nat, maxstartbit: nat)
    requires e.nodes == [] && minbit <= maxbit && minstartbit % MAPSIZE == maxstartbit % MAPSIZE == 0
    requires minstartbit <= minbit < minstartbit + MAPSIZE && maxstartbit <= maxbit < maxstartbit + MAPSIZE
    modifies e`nodes
    ensures Filled(e.nodes, Range(minbit, maxbit), minstartbit, maxstartbit + MAPSIZE) &&
            HighOf(e.nodes) == maxstartbit + MAPSIZE
  {
    hide Filled, HighOf, Range;
    var startbit := minstartbit;
    FilledStart(Range(minbit, maxbit), minstartbit);
    while startbit <= maxstartbit
      invariant Filled(e.nodes, Range(minbit, maxbit), minstartbit, startbit) &&
                minstartbit <= startbit <= maxstartbit + MAPSIZE
      invariant startbit % MAPSIZE == 0 && (startbit > minstartbit ==> HighOf(e.nodes) == startbit)
      decreases maxstartbit + MAPSIZE - startbit
    {
      var bits := RangeMap(minbit, maxbit, minstartbit, maxstartbit, startbit);
      FilledNext(e.nodes, Range(minbit, maxbit), minstartbit, startbit);
      HighEnd(e.nodes, Chunk(startbit, bits));
      e.nodes := e.nodes + [Chunk(startbit, bits)];
      startbit := startbit + MAPSIZE;
    }
  }

  /** ebitmap_init_range: every bit from `minbit` to `maxbit`; the highest chunk is refused. */
  method InitRange(e: Ebitmap, minbit: nat, maxbit: nat) returns (r: int)
    requires minbit < TWO_32 && maxbit < TWO_32
    modifies e
    ensures e.Valid()
    ensures r == if minbit > maxbit then -EINVAL
                 else if maxbit - maxbit % MAPSIZE + MAPSIZE == TWO_32 then -EOVERFLOW else 0
    ensures forall x: int :: e.Bit(x) <==> r == 0 && minbit <= x <= maxbit
  {
    hide Canonical, MapAt, Has, Filled, AllBelow, HighOf, Range;
    var minstartbit, maxstartbit := minbit - minbit % MAPSIZE, maxbit - maxbit % MAPSIZE;
    var minhighbit, maxhighbit := (minstartbit + MAPSIZE) % TWO_32, (maxstartbit + MAPSIZE) % TWO_32;
    e.nodes, e.highbit := [], 0;
    ghost var f := Range(minbit, maxbit);
    FilledStart(f, minstartbit);
    FilledHigh([], f, minstartbit, minstartbit);
    HighEnd([], Chunk(0, {}));
    forall x: int ensures !e.Bit(x) { NoBits(x); }
    if minbit > maxbit {
      return -EINVAL;
    }
    if minhighbit == 0 || maxhighbit == 0 {
      return -EOVERFLOW;
    }
    FillRange(e, minbit, maxbit, minstartbit, maxstartbit);
    RangeBits(e.nodes, minbit, maxbit, maxstartbit + MAPSIZE);
    FilledHigh(e.nodes, f, minstartbit, maxstartbit + MAPSIZE);
    e.highbit := maxhighbit;
    r := 0;
  }

  lemma HighEnd(ns: seq<Chunk>, c: Chunk)
    ensures HighOf(ns + [c]) == c.startbit + MAPSIZE && HighOf([]) == 0
  {
  }

  lemma RangeAt(minbit: nat, maxbit: nat, startbit: nat, bits: Word)
    requires minbit <= maxbit && startbit <= maxbit && minbit < startbit + MAPSIZE
    requires forall k: int :: k in bits <==> 0 <= k < MAPSIZE && minbit <= startbit + k <= maxbit
    ensures bits == Range(minbit, maxbit)(startbit) && {} != bits <= ALL_64
  {
    assert forall k: int :: k in bits <==> k in Range(minbit, maxbit)(startbit);
    var k := if startbit < minbit then minbit - startbit else 0;
    assert k in bits;
  }

  lemma RangeBits(ns: seq<Chunk>, minbit: nat, maxbit: nat, cur: nat)
    requires Filled(ns, Range(minbit, maxbit), minbit - minbit % MAPSIZE, cur) && maxbit < cur
    ensures forall x: int :: Has(ns, x) <==> minbit <= x <= maxbit
  {
    hide Canonical, MapAt, AllBelow;
    forall x: int ensures Has(ns, x) <==> minbit <= x <= maxbit {
      var base := x - x % MAPSIZE;
      assert base % MAPSIZE == 0;
      assert MapAt(ns, base) == if minbit - minbit % MAPSIZE <= base < cur then Range(minbit, maxbit)(base) else {};
    }
  }

  // Counting.

  ghost function Members(ns: seq<Chunk>): set<int> {
    set x: int | 0 <= x < HighOf(ns) && Has(ns, x)
  }

  ghost function Shifted(s: int, bits: Word): set<int> {
    set k <- bits :: s + k
  }

  lemma ShiftedHas(s: int, bits: Word, y: int)
    ensures y in Shifted(s, bits) <==> y - s in bits
  {
    assert y == s + (y - s);
  }

  lemma {:induction false} ShiftedSize(s: int, bits: Word)
    ensures |Shifted(s, bits)| == |bits|
    decreases |bits|
  {
    if bits == {} {
      assert Shifted(s, bits) == {};
    } else {
      var k := OneOf(bits);
      ShiftedSize(s, bits - {k});
      var fewer := Shifted(s, bits - {k});
      assert s + k !in fewer;
      forall y: int ensures y in Shifted(s, bits) <==> y in fewer + {s + k} {
        ShiftedHas(s, bits, y);
        ShiftedHas(s, bits - {k}, y);
      }
      assert Shifted(s, bits) == fewer + {s + k};
    }
  }

  lemma MembersEnd(ns: seq<Chunk>, c: Chunk)
    requires Canonical(ns + [c])
    ensures |Members(ns + [c])| == |Members(ns)| + |c.bits|
  {
    hide Has, Members;
    EndSplit(ns, c);
    forall x: int ensures x in Members(ns + [c]) <==> x in Members(ns) || x in Shifted(c.startbit, c.bits) {
      MemberEnd(ns, c, x);
    }
    MembersTell(ns);
    assert Members(ns) !! Shifted(c.startbit, c.bits) by {
      forall x <- Members(ns) ensures x < c.startbit {
        BitsInRange(ns, x);
        assert ns != [] ==> Sound(ns[|ns| - 1]);
      }
    }
    ShiftedSize(c.startbit, c.bits);
    assert Members(ns + [c]) == Members(ns) + Shifted(c.startbit, c.bits);
  }

  lemma EndSplit(ns: seq<Chunk>, c: Chunk)
    requires Canonical(ns + [c])
    ensures Canonical(ns) && Sound(c) && AllBelow(ns, c.startbit)
  {
    var out := ns + [c];
    assert out[..|ns|] == ns && out[|ns|] == c;
    HighBound(out, |ns|);
    forall i | 0 <= i < |ns| ensures ns[i].startbit < c.startbit { assert out[i] == ns[i]; }
  }

  lemma MemberEnd(ns: seq<Chunk>, c: Chunk, x: int)
    requires Canonical(ns) && Sound(c) && AllBelow(ns, c.startbit)
    ensures x in Members(ns + [c]) <==> x in Members(ns) || x in Shifted(c.startbit, c.bits)
  {
    hide Canonical, MapAt, AllBelow, HighOf;
    CanonicalEnd(ns, c);
    BitsInRange(ns, x);
    BitsInRange(ns + [c], x);
    MapAtEnd(ns, c, x - x % MAPSIZE);
    NothingAbove(ns, c.startbit);
    ShiftedHas(c.startbit, c.bits, x);
    Position(x, c.startbit);
  }

  lemma Position(x: int, s: int)
    requires s % MAPSIZE == 0
    ensures x - x % MAPSIZE == s <==> 0 <= x - s < MAPSIZE
  {
  }

  /** ebitmap_cardinality counts the members; the sum stays within 32 bits. */
  method Cardinality(e1: Ebitmap) returns (count: nat)
    requires e1.Valid()
    ensures count == |Members(e1.nodes)| < TWO_32
  {
    hide Canonical, Has, Members, HighOf;
    count := 0;
    var n := 0;
    NoMembers();
    while n < |e1.nodes|
      invariant n <= |e1.nodes| && count == |Members(e1.nodes[..n])|
    {
      assert e1.nodes[..n + 1] == e1.nodes[..n] + [e1.nodes[n]];
      HighBound(e1.nodes, n + 1);
      MembersEnd(e1.nodes[..n], e1.nodes[n]);
      count := count + |e1.nodes[n].bits|;
      n := n + 1;
    }
    assert e1.nodes[..n] == e1.nodes;
    MembersBound(e1.nodes);
  }

  lemma NoMembers()
    ensures Members([][..0]) == {}
  {
  }

  lemma MembersBound(ns: seq<Chunk>)
    ensures |Members(ns)| <= HighOf(ns)
  {
    UpTo(HighOf(ns), Members(ns));
  }

  lemma {:induction false} UpTo(n: nat, s: set<int>)
    requires forall x <- s :: 0 <= x < n
    ensures |s| <= n
  {
    if n == 0 {
      if s != {} {
        var x := OneOf(s);
        assert false;
      }
    } else {
      UpTo(n - 1, s - {n - 1});
    }
  }

  /** An unsigned count assigned to an int. */
  function ToInt(u: nat): int {
    if u < TWO_32 / 2 then u else u - TWO_32
  }

  /** ebitmap_hamming_distance counts the symmetric difference, in an int. */
  method HammingDistance(e1: Ebitmap, e2: Ebitmap) returns (distance: int)
    requires e1.Valid() && e2.Valid()
    ensures distance == ToInt(|(Members(e1.nodes) - Members(e2.nodes)) + (Members(e2.nodes) - Members(e1.nodes))|)
    ensures var n := |(Members(e1.nodes) - Members(e2.nodes)) + (Members(e2.nodes) - Members(e1.nodes))|;
            n < TWO_32 && distance == if n < 0x8000_0000 then n else n - TWO_32
  {
    hide Canonical, Has, Members, MapAt;
    ghost var s, t := Members(e1.nodes), Members(e2.nodes);
    var same := Cmp(e1, e2);
    MembersTell(e1.nodes);
    MembersTell(e2.nodes);
    if same {
      assert s == t by {
        forall x: int ensures x in s <==> x in t { assert e1.Bit(x) <==> e2.Bit(x); }
      }
      assert (s - t) + (t - s) == {};
      return 0;
    }
    var tmp := new Ebitmap();
    XorInto(tmp, e1, e2);
    var count := Cardinality(tmp);
    MembersTell(tmp.nodes);
    assert Members(tmp.nodes) == (s - t) + (t - s) by {
      forall x: int ensures x in Members(tmp.nodes) <==> x in (s - t) + (t - s) {
        assert tmp.Bit(x) <==> e1.Bit(x) != e2.Bit(x);
      }
    }
    distance := ToInt(count);
  }

  lemma MembersTell(ns: seq<Chunk>)
    requires Canonical(ns)
    ensures forall x: int :: x in Members(ns) <==> Has(ns, x)
  {
    hide Has, Canonical, HighOf;
    forall x: int { BitsInRange(ns, x); }
  }

  // Reading.

  /** The image of a bitmap: the header, and what chunks of the body the file has. */
  datatype Image = Image(mapsize: nat, highbit: nat, count: nat, body: seq<Chunk>)

  /** The images that are accepted. */
  ghost predicate Acceptable(im: Image) {
    && im.mapsize == MAPSIZE
    && (im.highbit == 0 ||
      (0 < im.count <= |im.body| && Canonical(im.body[..im.count]) && im.highbit == HighOf(im.body[..im.count])))
  }

  /** ebitmap_read accepts the canonical bodies whose highest chunk is the one announced, and
    * nothing else; but an image that announces no bit stands for no bit, whatever its count. */
  method Read(e: Ebitmap, im: Image) returns (ok: bool)
    requires im.highbit < TWO_32 && forall i :: 0 <= i < |im.body| ==> im.body[i].bits <= ALL_64
    modifies e
    ensures ok <==> Acceptable(im)
    ensures e.Valid() && e.nodes == if ok && im.highbit > 0 then im.body[..im.count] else []
  {
    e.nodes, e.highbit := [], 0;
    if im.mapsize != MAPSIZE {
      return false;
    }
    if im.highbit == 0 {
      return true;
    }
    if im.highbit % MAPSIZE != 0 || im.count == 0 {
      if 0 < im.count <= |im.body| && Canonical(im.body[..im.count]) { Aligned64(im.body[..im.count]); }
      return false;
    }
    ok := ReadBody(e, im);
  }

  method ReadBody(e: Ebitmap, im: Image) returns (ok: bool)
    requires 0 < im.highbit < TWO_32 && im.highbit % MAPSIZE == 0 && im.mapsize == MAPSIZE && im.count > 0
    requires forall i :: 0 <= i < |im.body| ==> im.body[i].bits <= ALL_64
    requires e.nodes == [] && e.highbit == 0
    modifies e
    ensures ok <==> Acceptable(im)
    ensures e.Valid() && e.nodes == if ok then im.body[..im.count] else []
  {
    hide Sound;
    var l: seq<Chunk> := [];
    var i := 0;
    while i < im.count
      invariant i <= im.count && i <= |im.body| && l == im.body[..i] && Canonical(l) && unchanged(e)
    {
      if i == |im.body| {
        return false;
      }
      var n := im.body[i];
      if n.startbit % MAPSIZE != 0 || n.startbit > im.highbit - MAPSIZE || n.bits == {} ||
          (i > 0 && n.startbit <= l[i - 1].startbit) {
        Refused(im, i);
        return false;
      }
      ReadNext(im.body, i);
      l := l + [n];
      i := i + 1;
    }
    if l[i - 1].startbit + MAPSIZE != im.highbit {
      return false;
    }
    e.nodes, e.highbit := l, im.highbit;
    ok := true;
  }

  lemma ReadNext(body: seq<Chunk>, i: nat)
    requires i < |body| && Canonical(body[..i]) && body[i].startbit % MAPSIZE == 0 && {} != body[i].bits <= ALL_64
    requires i > 0 ==> body[i].startbit > body[i - 1].startbit
    ensures Canonical(body[..i + 1]) && body[..i + 1] == body[..i] + [body[i]]
  {
    forall k | 0 <= k < i ensures body[..i][k].startbit < body[i].startbit {
      assert body[..i][i - 1] == body[i - 1];
    }
    CanonicalEnd(body[..i], body[i]);
  }

  lemma Refused(im: Image, i: nat)
    requires i < |im.body| && i < im.count && im.highbit > 0
    requires var n := im.body[i];
             n.startbit % MAPSIZE != 0 || n.startbit > im.highbit - MAPSIZE || n.bits == {} ||
               (i > 0 && n.startbit <= im.body[i - 1].startbit)
    ensures !Acceptable(im)
  {
    if im.count <= |im.body| && Canonical(im.body[..im.count]) {
      var ns := im.body[..im.count];
      assert Sound(ns[i]) && ns[i] == im.body[i] && (i > 0 ==> ns[i - 1] == im.body[i - 1]);
      assert ns[i].startbit <= ns[|ns| - 1].startbit;
    }
  }
}
