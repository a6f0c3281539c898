/** The access vector table (libsepol/src/avtab.c): a hash table of chains that are linked
  * through `next` and ordered by (source, target, class).  A chain may hold several nodes with
  * the same triple, so the table denotes a multimap: `Group(t)` is the sequence of nodes for
  * the triple `t`, in chain order.
  */
module AvTables {
  datatype Option<+T> = None | Some(value: T)

  // Values of avtab_key.specified (sepol/policydb/avtab.h).
  const ALLOWED: bv16 := 0x0001
  const AUDITALLOW: bv16 := 0x0002
  const AUDITDENY: bv16 := 0x0004
  const XPERMS: bv16 := 0x0700
  const ENABLED: bv16 := 0x8000

  // Values of avtab_extended_perms.specified.
  const IOCTLFUNCTION := 1
  const IOCTLDRIVER := 2
  const NLMSG := 3

  const EEXIST := -17

  // The single rule kinds.
  predicate AvKind(s: bv16) { s == ALLOWED || s == AUDITALLOW || s == AUDITDENY }
  predicate XpermKind(s: bv16) { s == 0x0100 || s == 0x0200 || s == 0x0400 }
  predicate TypeKind(s: bv16) { s == 0x0010 || s == 0x0020 || s == 0x0040 }

  datatype Triple = Triple(source: nat, target: nat, cls: nat)

  /** The order of a chain. */
  predicate Before(a: Triple, b: Triple) {
    || a.source < b.source
    || (a.source == b.source && a.target < b.target)
    || (a.source == b.source && a.target == b.target && a.cls < b.cls)
  }

  /** A search for `wanted` stops at a node whose rule kind shares a bit with it; the ENABLED
    * bit of `wanted` is ignored. */
  predicate Overlaps(wanted: bv16, specified: bv16) {
    (wanted & 0x7FFF) & specified != 0
  }

  /** A shared bit other than ENABLED. */
  lemma OverlapBits(wanted: bv16, specified: bv16)
    ensures Overlaps(wanted, specified) <==> wanted & specified & 0x7FFF != 0
    ensures Overlaps(wanted | ENABLED, specified) == Overlaps(wanted, specified)
  {
  }

  /** A 32-bit word, or a 256-bit permission set, as the set of its one bits: `|` is union, `&`
    * intersection and `& ~` difference. */
  type Word = set<int>

  const ALL_ONES: Word := set b: int | 0 <= b < 32

  /** A bit of a word that has one. */
  lemma OneOf(w: Word) returns (b: int)
    ensures w != {} ==> b in w
  {
    if forall c :: c !in w {
      assert w == {};
      b := 0;
    } else {
      b :| b in w;
    }
  }

  datatype Xperms = Xperms(specified: nat, driver: nat, perms: Word)

  class AvNode {
    const key: Triple
    var specified: bv16
    var data: Word
    var xperms: Option<Xperms>
    var next: AvNode?

    constructor (key: Triple, specified: bv16, data: Word, xperms: Option<Xperms>)
      ensures this.key == key && this.specified == specified
      ensures this.data == data && this.xperms == xperms
    {
      this.key, this.specified, this.data, this.xperms := key, specified, data, xperms;
      next := null;
    }
  }

  ghost function Elements(g: seq<AvNode>): set<AvNode> {
    set n <- g
  }

  /** The nodes of chain `c` whose triple is `t`. */
  ghost function Filter(c: seq<AvNode>, t: Triple): seq<AvNode> {
    if c == [] then [] else (if c[0].key == t then [c[0]] else []) + Filter(c[1..], t)
  }

  lemma {:induction false} FilterConcat(a: seq<AvNode>, b: seq<AvNode>, t: Triple)
    ensures Filter(a + b, t) == Filter(a, t) + Filter(b, t)
  {
    if a == [] {
      assert a + b == b;
    } else {
      FilterConcat(a[1..], b, t);
      assert (a + b)[1..] == a[1..] + b;
      var h := if a[0].key == t then [a[0]] else [];
      assert Filter(a + b, t) == h + (Filter(a[1..], t) + Filter(b, t));
    }
  }

  lemma FilterInsert(c: seq<AvNode>, n: AvNode, j: nat, t: Triple)
    requires j <= |c|
    ensures Filter(c[..j] + [n] + c[j..], t) ==
            Filter(c[..j], t) + (if t == n.key then [n] else []) + Filter(c[j..], t)
    ensures Filter(c, t) == Filter(c[..j], t) + Filter(c[j..], t)
  {
    FilterConcat(c[..j] + [n], c[j..], t);
    FilterConcat(c[..j], [n], t);
    FilterConcat(c[..j], c[j..], t);
    assert c == c[..j] + c[j..];
  }

  lemma {:induction false} FilterMembers(c: seq<AvNode>, t: Triple)
    ensures forall i :: 0 <= i < |Filter(c, t)| ==> Filter(c, t)[i] in c && Filter(c, t)[i].key == t
    ensures forall i :: 0 <= i < |c| && c[i].key == t ==> c[i] in Filter(c, t)
    ensures (forall i :: 0 <= i < |c| ==> c[i].key != t) ==> Filter(c, t) == []
  {
    if c != [] {
      FilterMembers(c[1..], t);
    }
  }

  lemma {:induction false} FilterDistinct(c: seq<AvNode>, t: Triple)
    requires forall i, j :: 0 <= i < j < |c| ==> c[i] != c[j]
    ensures forall i, j :: 0 <= i < j < |Filter(c, t)| ==> Filter(c, t)[i] != Filter(c, t)[j]
  {
    if c != [] {
      FilterDistinct(c[1..], t);
      FilterMembers(c[1..], t);
    }
  }

  /** `i` is where a search of `g` for `wanted` from position `start` stops: the first
    * overlapping node, or the end. */
  ghost predicate NextAt(g: seq<AvNode>, wanted: bv16, start: nat, i: nat)
    reads (set n <- g)`specified
  {
    && start <= i <= |g|
    && (forall j :: start <= j < i ==> !Overlaps(wanted, g[j].specified))
    && (i < |g| ==> Overlaps(wanted, g[i].specified))
  }

  /** `j` is where the scan of the ordered chain `c` for (`key`, `wanted`) stops: at a match, or
    * at a larger triple, or at the end. */
  ghost predicate StopsAt(c: seq<AvNode>, key: Triple, wanted: bv16, j: nat)
    reads (set n <- c)`specified
  {
    && j <= |c|
    && (forall i :: 0 <= i < j ==>
          !Before(key, c[i].key) && !(c[i].key == key && Overlaps(wanted, c[i].specified)))
    && (j < |c| ==> Before(key, c[j].key) || (c[j].key == key && Overlaps(wanted, c[j].specified)))
  }

  lemma ScannedPart(c: seq<AvNode>, key: Triple, wanted: bv16, j: nat)
    requires StopsAt(c, key, wanted, j)
    ensures forall i :: 0 <= i < |Filter(c[..j], key)| ==> !Overlaps(wanted, Filter(c[..j], key)[i].specified)
  {
    FilterMembers(c[..j], key);
    forall i | 0 <= i < |Filter(c[..j], key)| ensures !Overlaps(wanted, Filter(c[..j], key)[i].specified) {
      var k :| 0 <= k < j && c[k] == Filter(c[..j], key)[i];
    }
  }

  lemma UnscannedPart(c: seq<AvNode>, key: Triple, wanted: bv16, j: nat)
    requires Ordered(c) && StopsAt(c, key, wanted, j)
    ensures forall i :: j <= i < |c| ==> !Before(c[i].key, key)
    ensures if j < |c| && c[j].key == key
            then Filter(c[j..], key) != [] && Filter(c[j..], key)[0] == c[j]
            else Filter(c[j..], key) == []
  {
    FilterMembers(c[j..], key);
    if j < |c| && c[j].key != key {
      assert forall k :: j <= k < |c| ==> c[k].key != key;
    }
  }

  /** Stopping early at a larger triple loses nothing: the scan finds the first overlap of the
    * whole group, and position `j` is where a new node keeps the chain ordered. */
  lemma StopsAtFirst(c: seq<AvNode>, key: Triple, wanted: bv16, j: nat)
    requires Ordered(c) && StopsAt(c, key, wanted, j)
    ensures NextAt(Filter(c, key), wanted, 0, |Filter(c[..j], key)|)
    ensures Filter(c, key) == Filter(c[..j], key) + Filter(c[j..], key)
    ensures if j < |c| && c[j].key == key
            then Filter(c[j..], key) != [] && Filter(c[j..], key)[0] == c[j]
            else Filter(c[j..], key) == []
    ensures forall i :: j <= i < |c| ==> !Before(c[i].key, key)
  {
    hide Ordered, Filter;
    FilterConcat(c[..j], c[j..], key);
    assert c == c[..j] + c[j..];
    ScannedPart(c, key, wanted, j);
    UnscannedPart(c, key, wanted, j);
  }

  /** The `p`-th node of a group, as a position in the chain. */
  lemma {:induction false} GroupPosition(c: seq<AvNode>, t: Triple, p: nat) returns (j: nat)
    requires p < |Filter(c, t)|
    ensures j < |c| && c[j] == Filter(c, t)[p] && c[j].key == t
    ensures |Filter(c[..j + 1], t)| == p + 1
    ensures Filter(c, t) == Filter(c[..j + 1], t) + Filter(c[j + 1..], t)
  {
    hide Filter;
    FilterHead(c, t);
    FilterHead([c[0]], t);
    assert [c[0]][1..] == [] && c == [c[0]] + c[1..];
    if c[0].key == t && p == 0 {
      j := 0;
      assert c[..1] == [c[0]];
    } else {
      var d := c[1..];
      var k := GroupPosition(d, t, if c[0].key == t then p - 1 else p);
      assert [c[0]] + d[..k + 1] == c[..k + 2];
      FilterConcat([c[0]], d[..k + 1], t);
      j := k + 1;
    }
    FilterConcat(c[..j + 1], c[j + 1..], t);
    assert c == c[..j + 1] + c[j + 1..];
  }

  lemma FilterHead(c: seq<AvNode>, t: Triple)
    ensures c == [] ==> Filter(c, t) == []
    ensures c != [] ==> Filter(c, t) == (if c[0].key == t then [c[0]] else []) + Filter(c[1..], t)
    ensures Filter([], t) == []
  {
  }

  lemma StopsAtNext(c: seq<AvNode>, key: Triple, wanted: bv16, p: nat, j: nat, k: nat)
    requires Ordered(c) && j < |c| && StopsAt(c[j + 1..], key, wanted, k)
    requires |Filter(c[..j + 1], key)| == p + 1
    ensures var g, d := Filter(c, key), c[j + 1..];
            var i := p + 1 + |Filter(d[..k], key)|;
            && NextAt(g, wanted, p + 1, i)
            && (if k < |d| && d[k].key == key then i < |g| && g[i] == d[k] else i == |g|)
  {
    hide Filter, StopsAt;
    var d := c[j + 1..];
    assert Ordered(d);
    StopsAtFirst(d, key, wanted, k);
    FilterConcat(c[..j + 1], d, key);
    assert c == c[..j + 1] + d;
  }

  /** A chain is what following `next` from the bucket head visits. */
  ghost predicate Linked(head: AvNode?, c: seq<AvNode>)
    reads (set n <- c)`next
  {
    && head == (if |c| == 0 then null else c[0])
    && (forall i :: 0 <= i < |c| - 1 ==> c[i].next == c[i + 1])
    && (|c| > 0 ==> c[|c| - 1].next == null)
  }

  ghost predicate Ordered(c: seq<AvNode>) {
    forall i, j :: 0 <= i < j < |c| ==> c[i] != c[j] && !Before(c[j].key, c[i].key)
  }

  /** Every node is in the chain of the slot its key hashes to, and the chains are ordered. */
  ghost predicate Placed(chains: seq<seq<AvNode>>, nodes: set<AvNode>, slotOf: Triple -> nat) {
    && (forall s, n :: 0 <= s < |chains| && n in chains[s] ==> n in nodes && slotOf(n.key) == s)
    && (forall n <- nodes :: slotOf(n.key) < |chains| && n in chains[slotOf(n.key)])
    && (forall s :: 0 <= s < |chains| ==> Ordered(chains[s]))
  }

  lemma SpliceOrdered(c: seq<AvNode>, n: AvNode, j: nat)
    requires Ordered(c) && n !in c && j <= |c|
    requires forall i :: 0 <= i < j ==> !Before(n.key, c[i].key)
    requires forall i :: j <= i < |c| ==> !Before(c[i].key, n.key)
    ensures Ordered(c[..j] + [n] + c[j..])
  {
    var d := c[..j] + [n] + c[j..];
    assert forall i :: 0 <= i < |d| ==> d[i] == if i < j then c[i] else if i == j then n else c[i - 1];
  }

  lemma SplicePlaced(chains: seq<seq<AvNode>>, nodes: set<AvNode>, slotOf: Triple -> nat, n: AvNode, j: nat)
    requires Placed(chains, nodes, slotOf) && n !in nodes
    requires slotOf(n.key) < |chains| && j <= |chains[slotOf(n.key)]|
    requires forall i :: 0 <= i < j ==> !Before(n.key, chains[slotOf(n.key)][i].key)
    requires forall i :: j <= i < |chains[slotOf(n.key)]| ==> !Before(chains[slotOf(n.key)][i].key, n.key)
    ensures var c := chains[slotOf(n.key)];
            Placed(chains[slotOf(n.key) := c[..j] + [n] + c[j..]], nodes + {n}, slotOf)
    ensures forall s, i :: 0 <= s < |chains| && 0 <= i < |chains[s]| ==>
              chains[s][i] in nodes && slotOf(chains[s][i].key) == s
    ensures Ordered(chains[slotOf(n.key)])
  {
    hide Ordered;
    var c := chains[slotOf(n.key)];
    var d := c[..j] + [n] + c[j..];
    assert d[j] == n && forall m <- c :: m in c[..j] + c[j..];
    SpliceOrdered(c, n, j);
  }

  lemma UnsplicePlaced(chains: seq<seq<AvNode>>, nodes: set<AvNode>, slotOf: Triple -> nat, n: AvNode, j: nat)
    requires Placed(chains, nodes, slotOf) && slotOf(n.key) < |chains|
    requires j < |chains[slotOf(n.key)]| && chains[slotOf(n.key)][j] == n
    ensures var c := chains[slotOf(n.key)];
            Placed(chains[slotOf(n.key) := c[..j] + c[j + 1..]], nodes - {n}, slotOf)
    ensures forall s, i :: 0 <= s < |chains| && 0 <= i < |chains[s]| ==>
              chains[s][i] in nodes && slotOf(chains[s][i].key) == s
    ensures Ordered(chains[slotOf(n.key)])
  {
    var c := chains[slotOf(n.key)];
    UnspliceOrdered(c, j);
    assert forall m <- c :: m in c[..j] + [n] + c[j + 1..];
    assert n in c;
  }

  lemma UnspliceOrdered(c: seq<AvNode>, j: nat)
    requires Ordered(c) && j < |c|
    ensures Ordered(c[..j] + c[j + 1..]) && c[j] !in c[..j] + c[j + 1..]
  {
    var d := c[..j] + c[j + 1..];
    assert forall i :: 0 <= i < |d| ==> d[i] == if i < j then c[i] else c[i + 1];
  }

  /** The order in which avtab_map visits the nodes: slot by slot, along each chain. */
  ghost function Flatten(chains: seq<seq<AvNode>>): seq<AvNode> {
    if chains == [] then [] else Flatten(chains[..|chains| - 1]) + chains[|chains| - 1]
  }

  /** The first `k` chains hold, each exactly once, the nodes whose slot is below `k`. */
  lemma {:induction false} FlattenOnce(chains: seq<seq<AvNode>>, nodes: set<AvNode>,
                                       slotOf: Triple -> nat, k: nat)
    requires Placed(chains, nodes, slotOf) && k <= |chains|
    ensures forall i :: 0 <= i < |Flatten(chains[..k])| ==>
              Flatten(chains[..k])[i] in nodes && slotOf(Flatten(chains[..k])[i].key) < k
    ensures forall i, j :: 0 <= i < j < |Flatten(chains[..k])| ==>
              Flatten(chains[..k])[i] != Flatten(chains[..k])[j]
    ensures forall n <- nodes :: slotOf(n.key) < k ==> n in Flatten(chains[..k])
  {
    if k > 0 {
      FlattenOnce(chains, nodes, slotOf, k - 1);
      assert chains[..k][..k - 1] == chains[..k - 1];
      var before, last := Flatten(chains[..k - 1]), chains[k - 1];
      assert Flatten(chains[..k]) == before + last;
      assert Ordered(last) && forall i :: 0 <= i < |last| ==> slotOf(last[i].key) == k - 1;
    }
  }

  class Avtab {
    const htable: array<AvNode?>
    const slotOf: Triple -> nat   // avtab_hash with the table's mask; it ignores `specified`
    var nel: nat
    ghost var chains: seq<seq<AvNode>>
    ghost var nodes: set<AvNode>

    ghost predicate AllLinked(cs: seq<seq<AvNode>>)
      reads htable, (set c <- cs, n <- c :: n)`next
    {
      |cs| == htable.Length && forall s :: 0 <= s < |cs| ==> Linked(htable[s], cs[s])
    }

    ghost predicate Valid()
      reads this, htable, nodes`next
    {
      && 0 < htable.Length == |chains|
      && (forall t :: slotOf(t) < |chains|)
      && Placed(chains, nodes, slotOf)
      && AllLinked(chains)
      && nel == |nodes|
    }

    lemma ChainOrdered(s: nat)
      requires Valid() && s < |chains|
      ensures Ordered(chains[s]) && Linked(htable[s], chains[s])
    {
    }

    /** The multimap: all nodes stored for `t`. */
    ghost function Group(t: Triple): seq<AvNode>
      requires slotOf(t) < |chains|
      reads this`chains
    {
      Filter(chains[slotOf(t)], t)
    }

    lemma GroupMembers(t: Triple)
      requires Valid()
      ensures slotOf(t) < |chains|
      ensures forall i :: 0 <= i < |Group(t)| ==> Group(t)[i] in nodes && Group(t)[i].key == t
      ensures forall n <- nodes :: n.key == t ==> n in Group(t)
      ensures forall i, j :: 0 <= i < j < |Group(t)| ==> Group(t)[i] != Group(t)[j]
    {
      FilterMembers(chains[slotOf(t)], t);
      FilterDistinct(chains[slotOf(t)], t);
    }

    /** The chains are in lexicographic order of source, target and class. */
    lemma ChainsAreSorted(s: nat, i: nat, j: nat)
      requires Valid() && s < |chains| && i < j < |chains[s]|
      ensures var a, b := chains[s][i].key, chains[s][j].key;
              || a.source < b.source
              || (a.source == b.source && a.target < b.target)
              || (a.source == b.source && a.target == b.target && a.cls <= b.cls)
    {
      ChainOrdered(s);
    }

    /** Some node for the triple has a kind that shares a bit with the wanted one. */
    ghost predicate HasOverlap(key: Triple, wanted: bv16)
      reads this`nodes, nodes`specified
    {
      exists n <- nodes :: n.key == key && Overlaps(wanted, n.specified)
    }

    lemma FirstOverlap(key: Triple, wanted: bv16, pos: nat)
      requires Valid() && NextAt(Group(key), wanted, 0, pos)
      ensures pos < |Group(key)| <==> HasOverlap(key, wanted)
      ensures pos < |Group(key)| ==>
                var n := Group(key)[pos]; n in nodes && n.key == key && Overlaps(wanted, n.specified)
    {
      hide Avtab.Valid, Group, Overlaps;
      GroupMembers(key);
      if HasOverlap(key, wanted) {
        var n :| n in nodes && n.key == key && Overlaps(wanted, n.specified);
        assert n in Group(key);
      }
    }

    constructor (nslot: nat, slotOf: Triple -> nat)
      requires 0 < nslot && forall t :: slotOf(t) < nslot
      ensures Valid() && fresh(htable) && nodes == {} && this.slotOf == slotOf
    {
      htable := new AvNode?[nslot](_ => null);
      this.slotOf := slotOf;
      nel := 0;
      chains := seq(nslot, _ => []);
      nodes := {};
    }

    /** The pointer work of avtab_insert_node: `newNode` goes behind `prev`, the node before
      * position `j` in the chain of slot `s`, or becomes the bucket head. */
    method Splice(newNode: AvNode, prev: AvNode?, s: nat, ghost cs: seq<seq<AvNode>>, ghost j: nat)
      requires AllLinked(cs) && s < |cs| && j <= |cs[s]|
      requires forall k, i :: 0 <= k < |cs| && 0 <= i < |cs[k]| ==>
                 cs[k][i] != newNode && slotOf(cs[k][i].key) == k
      requires Ordered(cs[s])
      requires prev == if j == 0 then null else cs[s][j - 1]
      modifies htable, newNode`next, (if prev == null then {} else {prev})`next
      ensures AllLinked(cs[s := cs[s][..j] + [newNode] + cs[s][j..]])
    {
      if prev != null {
        newNode.next := prev.next;
        prev.next := newNode;
      } else {
        newNode.next := htable[s];
        htable[s] := newNode;
      }
      ghost var c := cs[s];
      ghost var d := c[..j] + [newNode] + c[j..];
      assert d[j] == newNode && (j > 0 ==> d[j - 1] == prev);
      assert forall i :: 0 <= i < j ==> d[i] == c[i];
      assert forall i :: j <= i < |c| ==> d[i + 1] == c[i];
      assert Linked(htable[s], d);
      forall k | 0 <= k < |cs| && k != s ensures Linked(htable[k], cs[k]) {
        assert old(Linked(htable[k], cs[k]));
        assert forall i :: 0 <= i < |cs[k]| ==> cs[k][i].next == old(cs[k][i].next);
      }
    }

    /** avtab_insert_node.  `j` is the position in the chain. */
    method InsertNode(prev: AvNode?, key: Triple, specified: bv16, data: Word,
                      xperms: Option<Xperms>, ghost j: nat)
      returns (newNode: AvNode)
      requires Valid()
      requires j <= |chains[slotOf(key)]|
      requires prev == if j == 0 then null else chains[slotOf(key)][j - 1]
      requires forall i :: 0 <= i < j ==> !Before(key, chains[slotOf(key)][i].key)
      requires forall i :: j <= i < |chains[slotOf(key)]| ==> !Before(chains[slotOf(key)][i].key, key)
      modifies this, htable, nodes`next
      ensures Valid() && fresh(newNode) && nodes == old(nodes) + {newNode}
      ensures newNode.key == key && newNode.specified == specified
      ensures newNode.data == data && newNode.xperms == xperms
      ensures var c := old(chains[slotOf(key)]);
              chains == old(chains)[slotOf(key) := c[..j] + [newNode] + c[j..]]
    {
      hide Placed, Linked, Ordered;
      var hvalue := slotOf(key);
      newNode := new AvNode(key, specified, data, xperms);
      ghost var cs := chains;
      ghost var ds := cs[hvalue := cs[hvalue][..j] + [newNode] + cs[hvalue][j..]];
      SplicePlaced(cs, nodes, slotOf, newNode, j);
      nodes, chains, nel := nodes + {newNode}, ds, nel + 1;
      Splice(newNode, prev, hvalue, cs, j);
    }

    /** The chain scan that avtab_insert, avtab_insert_nonunique, avtab_search and
      * avtab_search_node share. */
    method Seek(key: Triple, specified: bv16) returns (prev: AvNode?, cur: AvNode?, ghost j: nat)
      requires Valid()
      ensures Ordered(chains[slotOf(key)]) && StopsAt(chains[slotOf(key)], key, specified, j)
      ensures prev == if j == 0 then null else chains[slotOf(key)][j - 1]
      ensures cur == if j < |chains[slotOf(key)]| then chains[slotOf(key)][j] else null
    {
      prev, cur, j := null, htable[slotOf(key)], 0;
      ghost var c := chains[slotOf(key)];
      assert Linked(cur, c);
      while cur != null
        invariant j <= |c|
        invariant prev == if j == 0 then null else c[j - 1]
        invariant cur == if j < |c| then c[j] else null
        invariant forall i :: 0 <= i < j ==>
                    !Before(key, c[i].key) && !(c[i].key == key && Overlaps(specified, c[i].specified))
        decreases |c| - j
      {
        if cur.key == key && Overlaps(specified, cur.specified) {
          return;
        }
        if Before(key, cur.key) {
          return;
        }
        prev, cur, j := cur, cur.next, j + 1;
      }
    }

    /** What a new node at position `j` of its chain does to the multimap. */
    lemma GroupsAfterInsert(cs: seq<seq<AvNode>>, n: AvNode, j: nat)
      requires Valid() && slotOf(n.key) < |cs| && j <= |cs[slotOf(n.key)]|
      requires var c := cs[slotOf(n.key)]; chains == cs[slotOf(n.key) := c[..j] + [n] + c[j..]]
      ensures var c := cs[slotOf(n.key)]; Group(n.key) == Filter(c[..j], n.key) + [n] + Filter(c[j..], n.key)
      ensures forall t :: t != n.key ==> Group(t) == Filter(cs[slotOf(t)], t)
    {
      hide Placed, Linked, AllLinked, Ordered;
      var c := cs[slotOf(n.key)];
      FilterInsert(c, n, j, n.key);
      forall t | t != n.key ensures Group(t) == Filter(cs[slotOf(t)], t) {
        FilterInsert(c, n, j, t);
      }
    }

    /** avtab_insert_nonunique: the new node comes before the first overlapping node of its
      * group, or at the end of the group; no other group changes. */
    method InsertNonunique(key: Triple, specified: bv16, data: Word, xperms: Option<Xperms>)
      returns (newNode: AvNode, ghost pos: nat)
      requires Valid()
      modifies this, htable, nodes`next
      ensures Valid() && fresh(newNode) && nodes == old(nodes) + {newNode}
      ensures newNode.key == key && newNode.specified == specified
      ensures newNode.data == data && newNode.xperms == xperms
      ensures old(NextAt(Group(key), specified, 0, pos))
      ensures Group(key) == old(Group(key))[..pos] + [newNode] + old(Group(key))[pos..]
      ensures forall t :: t != key ==> Group(t) == old(Group(t))
    {
      hide Placed, Linked, AllLinked, Ordered;
      GroupMembers(key);
      var prev, cur, j := Seek(key, specified);
      ghost var cs, c := chains, chains[slotOf(key)];
      StopsAtFirst(c, key, specified, j);
      pos := |Filter(c[..j], key)|;
      newNode := InsertNode(prev, key, specified, data, xperms, j);
      GroupsAfterInsert(cs, newNode, j);
    }

    /** avtab_insert: refuses a second non-xperm rule of a kind the group already has. */
    method Insert(key: Triple, specified: bv16, data: Word, xperms: Option<Xperms>)
      returns (rc: int, ghost newNode: AvNode?, ghost pos: nat)
      requires Valid()
      modifies this, htable, nodes`next
      ensures Valid()
      ensures old(NextAt(Group(key), specified, 0, pos))
      ensures rc == if old(pos < |Group(key)|) && specified & 0x7FFF & XPERMS == 0 then EEXIST else 0
      ensures rc == if old(HasOverlap(key, specified)) && specified & 0x0700 == 0 then -17 else 0
      ensures rc == EEXIST ==> nodes == old(nodes) && chains == old(chains) && nel == old(nel)
      ensures rc == 0 ==>
                && newNode != null && fresh(newNode) && nodes == old(nodes) + {newNode}
                && newNode.key == key && newNode.specified == specified
                && newNode.data == data && newNode.xperms == xperms
                && Group(key) == old(Group(key))[..pos] + [newNode] + old(Group(key))[pos..]
      ensures forall t :: t != key ==> Group(t) == old(Group(t))
    {
      hide Placed, Linked, AllLinked, Ordered, HasOverlap;
      GroupMembers(key);
      var prev, cur, j := Seek(key, specified);
      ghost var cs, c := chains, chains[slotOf(key)];
      StopsAtFirst(c, key, specified, j);
      pos := |Filter(c[..j], key)|;
      FirstOverlap(key, specified, pos);
      if cur != null && cur.key == key && specified & 0x7FFF & XPERMS == 0 {
        newNode := null;
        return EEXIST, newNode, pos;
      }
      newNode := InsertNode(prev, key, specified, data, xperms, j);
      GroupsAfterInsert(cs, newNode, j);
      rc := 0;
    }

    /** avtab_search and avtab_search_node: the first overlapping node of the group. */
    method SearchNode(key: Triple, specified: bv16) returns (node: AvNode?, ghost pos: nat)
      requires Valid()
      ensures NextAt(Group(key), specified, 0, pos)
      ensures node == if pos < |Group(key)| then Group(key)[pos] else null
      ensures node == null <==> !HasOverlap(key, specified)
      ensures node != null ==> node in nodes && node.key == key && Overlaps(specified, node.specified)
    {
      var prev, cur, j := Seek(key, specified);
      ghost var c := chains[slotOf(key)];
      StopsAtFirst(c, key, specified, j);
      pos := |Filter(c[..j], key)|;
      FirstOverlap(key, specified, pos);
      node := if cur != null && cur.key == key then cur else null;
    }

    /** avtab_search_node_next: the next overlapping node of the group behind position `p`. */
    method SearchNodeNext(node: AvNode, specified: bv16, ghost p: nat)
      returns (next: AvNode?, ghost pos: nat)
      requires Valid()
      requires p < |Group(node.key)| && Group(node.key)[p] == node
      ensures NextAt(Group(node.key), specified, p + 1, pos)
      ensures next == if pos < |Group(node.key)| then Group(node.key)[pos] else null
    {
      hide Placed, Filter;
      var key := node.key;
      ghost var c := chains[slotOf(key)];
      ghost var j := GroupPosition(c, key, p);
      ChainOrdered(slotOf(key));
      ghost var d, k := c[j + 1..], 0;
      assert Linked(htable[slotOf(key)], c);
      next := node.next;
      while next != null
        invariant k <= |d|
        invariant next == if k < |d| then d[k] else null
        invariant forall i :: 0 <= i < k ==>
                    !Before(key, d[i].key) && !(d[i].key == key && Overlaps(specified, d[i].specified))
        decreases |d| - k
      {
        if next.key == key && Overlaps(specified, next.specified) {
          break;
        }
        if Before(key, next.key) {
          break;
        }
        next, k := next.next, k + 1;
      }
      StopsAtNext(c, key, specified, p, j, k);
      pos := p + 1 + |Filter(d[..k], key)|;
      if next != null && next.key != key {
        next := null;
      }
    }

    /** The pointer work of xperm_remove_node. */
    method Unsplice(node: AvNode, prev: AvNode?, s: nat, ghost cs: seq<seq<AvNode>>, ghost j: nat)
      requires AllLinked(cs) && s < |cs| && j < |cs[s]| && cs[s][j] == node
      requires forall k, i :: 0 <= k < |cs| && 0 <= i < |cs[k]| ==> slotOf(cs[k][i].key) == k
      requires Ordered(cs[s])
      requires prev == if j == 0 then null else cs[s][j - 1]
      modifies htable, (if prev == null then {} else {prev})`next
      ensures AllLinked(cs[s := cs[s][..j] + cs[s][j + 1..]])
    {
      if prev != null {
        prev.next := node.next;
      } else {
        htable[s] := node.next;
      }
      ghost var c := cs[s];
      ghost var d := c[..j] + c[j + 1..];
      assert j > 0 ==> d[j - 1] == prev;
      assert forall i :: 0 <= i < j ==> d[i] == c[i];
      assert forall i :: j <= i < |d| ==> d[i] == c[i + 1];
      assert Linked(htable[s], d);
      forall k | 0 <= k < |cs| && k != s ensures Linked(htable[k], cs[k]) {
        assert old(Linked(htable[k], cs[k]));
        assert forall i :: 0 <= i < |cs[k]| ==> cs[k][i] != prev;
        assert forall i :: 0 <= i < |cs[k]| ==> cs[k][i].next == old(cs[k][i].next);
      }
    }

    lemma GroupsAfterRemove(cs: seq<seq<AvNode>>, n: AvNode, j: nat)
      requires Valid() && slotOf(n.key) < |cs| && j < |cs[slotOf(n.key)]| && cs[slotOf(n.key)][j] == n
      requires var c := cs[slotOf(n.key)]; chains == cs[slotOf(n.key) := c[..j] + c[j + 1..]]
      ensures var g, p := Filter(cs[slotOf(n.key)], n.key), |Filter(cs[slotOf(n.key)][..j], n.key)|;
              p < |g| && g[p] == n && Group(n.key) == g[..p] + g[p + 1..]
      ensures forall t :: t != n.key ==> Group(t) == Filter(cs[slotOf(t)], t)
    {
      hide Placed, Linked, AllLinked, Ordered;
      var c := cs[slotOf(n.key)];
      var rest := c[..j] + c[j + 1..];
      assert rest[..j] + [n] + rest[j..] == c;
      FilterInsert(rest, n, j, n.key);
      forall t | t != n.key ensures Group(t) == Filter(cs[slotOf(t)], t) {
        FilterInsert(rest, n, j, t);
      }
      assert rest[..j] == c[..j] && rest[j..] == c[j + 1..];
    }

    /** xperm_remove_node (sepol_impl.rs): unlink `node`, or -1 when it is not in the table. */
    method RemoveNode(node: AvNode) returns (rc: int, ghost pos: nat)
      requires Valid()
      modifies this, htable, nodes`next
      ensures Valid()
      ensures rc == if node in old(nodes) then 0 else -1
      ensures rc == -1 ==> nodes == old(nodes) && chains == old(chains)
      ensures rc == 0 ==>
                && nodes == old(nodes) - {node}
                && old(pos < |Group(node.key)| && Group(node.key)[pos] == node)
                && Group(node.key) == old(Group(node.key))[..pos] + old(Group(node.key))[pos + 1..]
      ensures forall t :: t != node.key ==> Group(t) == old(Group(t))
    {
      hide Placed, AllLinked, Ordered, Filter;
      var hvalue := slotOf(node.key);
      var prev: AvNode?, cur := null, htable[hvalue];
      ghost var cs, c, j := chains, chains[hvalue], 0;
      ChainOrdered(hvalue);
      while cur != null
        invariant j <= |c|
        invariant prev == if j == 0 then null else c[j - 1]
        invariant cur == if j < |c| then c[j] else null
        invariant forall i :: 0 <= i < j ==> c[i] != node
        decreases |c| - j
      {
        if cur == node {
          break;
        }
        prev, cur, j := cur, cur.next, j + 1;
      }
      NodePlace(node);
      if cur == null {
        return -1, 0;
      }
      UnsplicePlaced(cs, nodes, slotOf, node, j);
      nodes, chains, nel := nodes - {node}, cs[hvalue := c[..j] + c[j + 1..]], nel - 1;
      Unsplice(node, prev, hvalue, cs, j);
      GroupsAfterRemove(cs, node, j);
      rc, pos := 0, |Filter(c[..j], node.key)|;
    }

    lemma NodePlace(n: AvNode)
      requires Valid()
      ensures n in nodes <==> n in chains[slotOf(n.key)]
      ensures n in nodes ==> 0 < nel
    {
    }

    /** avtab_map: the nodes in the order in which `apply` is called on them.  Every node of the
      * table is visited exactly once. */
    method Walk() returns (order: seq<AvNode>)
      requires Valid()
      ensures forall i :: 0 <= i < |order| ==> order[i] in nodes
      ensures forall n <- nodes :: n in order
      ensures forall i, j :: 0 <= i < j < |order| ==> order[i] != order[j]
    {
      hide Placed, Ordered;
      order := [];
      for s := 0 to htable.Length
        invariant order == Flatten(chains[..s])
      {
        var cur := htable[s];
        ghost var c, j := chains[s], 0;
        while cur != null
          invariant j <= |c| && order == Flatten(chains[..s]) + c[..j]
          invariant cur == if j < |c| then c[j] else null
          decreases |c| - j
        {
          order, cur, j := order + [cur], cur.next, j + 1;
        }
        assert chains[..s + 1][..s] == chains[..s] && c[..j] == c;
      }
      FlattenOnce(chains, nodes, slotOf, |chains|);
      assert chains[..|chains|] == chains;
    }
  }
}
