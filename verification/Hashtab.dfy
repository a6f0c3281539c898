/** The hash table of symbol tables (libsepol/src/hashtab.c): sorted chains, and a table that is
  * doubled and rehashed in place before an insertion when it is full.
  */
module Hashtables {
  import opened Arithmetic
  import opened AvTables

  type Key = string
  type Datum = nat   // a pointer

  const SEPOL_EEXIST := -17
  const SEPOL_ENOENT := -2
  const SEPOL_ENOMEM := -12

  /** keycmp is a total order. */
  ghost predicate TotalOrder(cmp: (Key, Key) -> int) {
    && (forall a, b :: cmp(a, b) == 0 <==> a == b)
    && (forall a, b :: cmp(a, b) > 0 <==> cmp(b, a) < 0)
    && (forall a, b, c :: cmp(a, b) < 0 && cmp(b, c) < 0 ==> cmp(a, c) < 0)
  }

  lemma OrderOf(cmp: (Key, Key) -> int, a: Key, b: Key)
    requires TotalOrder(cmp)
    ensures (cmp(a, b) == 0 <==> a == b) && (cmp(a, b) > 0 <==> cmp(b, a) < 0)
    ensures cmp(a, a) == 0
  {
  }

  lemma OrderChain(cmp: (Key, Key) -> int, a: Key, b: Key, c: Key)
    requires TotalOrder(cmp) && cmp(a, b) < 0 && cmp(b, c) < 0
    ensures cmp(a, c) < 0
  {
  }

  class HashNode {
    const key: Key
    const datum: Datum
    var next: HashNode?

    constructor (key: Key, datum: Datum)
      ensures this.key == key && this.datum == datum && next == null
    {
      this.key, this.datum, next := key, datum, null;
    }
  }

  // One chain.

  ghost predicate Chained(head: HashNode?, c: seq<HashNode>)
    reads (set n <- c)`next
  {
    && head == (if |c| == 0 then null else c[0])
    && (forall i :: 0 <= i < |c| - 1 ==> c[i].next == c[i + 1])
    && (|c| > 0 ==> c[|c| - 1].next == null)
  }

  ghost predicate Sorted(cmp: (Key, Key) -> int, c: seq<HashNode>) {
    forall i, j :: 0 <= i < j < |c| ==> cmp(c[i].key, c[j].key) < 0
  }

  /** Where a scan for `key` stops. */
  ghost predicate ScanStops(cmp: (Key, Key) -> int, c: seq<HashNode>, key: Key, j: nat) {
    j <= |c| && (forall i :: 0 <= i < j ==> cmp(key, c[i].key) > 0) && (j < |c| ==> cmp(key, c[j].key) <= 0)
  }

  /** The key is in the chain exactly if the scan stops at it. */
  lemma ScanStopsKey(cmp: (Key, Key) -> int, c: seq<HashNode>, key: Key, j: nat)
    requires TotalOrder(cmp) && Sorted(cmp, c) && ScanStops(cmp, c, key, j)
    ensures forall i :: 0 <= i < |c| && i != j ==> c[i].key != key
    ensures j < |c| ==> (cmp(key, c[j].key) == 0 <==> c[j].key == key)
  {
    hide TotalOrder;
    forall i | 0 <= i < |c| && i != j ensures c[i].key != key {
      OrderOf(cmp, key, c[i].key);
      if j < i {
        OrderOf(cmp, c[j].key, c[i].key);
        OrderOf(cmp, key, c[j].key);
      }
    }
    if j < |c| {
      OrderOf(cmp, key, c[j].key);
    }
  }

  lemma InsertSorted(cmp: (Key, Key) -> int, c: seq<HashNode>, n: HashNode, j: nat)
    requires TotalOrder(cmp) && Sorted(cmp, c) && ScanStops(cmp, c, n.key, j)
    requires j < |c| ==> c[j].key != n.key
    ensures Sorted(cmp, c[..j] + [n] + c[j..])
  {
    hide TotalOrder;
    var d := c[..j] + [n] + c[j..];
    forall i | j <= i < |c| ensures cmp(n.key, c[i].key) < 0 {
      OrderOf(cmp, n.key, c[j].key);
      if j < i {
        OrderChain(cmp, n.key, c[j].key, c[i].key);
      }
    }
    forall i | 0 <= i < j ensures cmp(c[i].key, n.key) < 0 {
      OrderOf(cmp, n.key, c[i].key);
    }
    assert forall i :: 0 <= i < |d| ==> d[i] == if i < j then c[i] else if i == j then n else c[i - 1];
  }

  lemma RemoveSorted(cmp: (Key, Key) -> int, c: seq<HashNode>, j: nat)
    requires Sorted(cmp, c) && j < |c|
    ensures Sorted(cmp, c[..j] + c[j + 1..])
  {
    var d := c[..j] + c[j + 1..];
    assert forall i :: 0 <= i < |d| ==> d[i] == if i < j then c[i] else c[i + 1];
  }

  // A table of chains.

  /** Every bucket is chained. */
  ghost predicate AllChained(htable: array<HashNode?>, chains: seq<seq<HashNode>>)
    reads htable, (set c <- chains, n <- c :: n)`next
  {
    |chains| == htable.Length && forall s :: 0 <= s < |chains| ==> Chained(htable[s], chains[s])
  }

  /** The chains are sorted and hold exactly `nodes`, each in the slot of its key. */
  ghost predicate Filed(cmp: (Key, Key) -> int, slotOf: Key -> nat, chains: seq<seq<HashNode>>, nodes: set<HashNode>) {
    && (forall s :: 0 <= s < |chains| ==> Sorted(cmp, chains[s]))
    && (forall s, n :: 0 <= s < |chains| && n in chains[s] ==> n in nodes && slotOf(n.key) == s)
    && (forall n <- nodes :: slotOf(n.key) < |chains| && n in chains[slotOf(n.key)])
  }

  lemma FiledInsert(cmp: (Key, Key) -> int, slotOf: Key -> nat, chains: seq<seq<HashNode>>, nodes: set<HashNode>,
      n: HashNode, j: nat)
    requires TotalOrder(cmp) && Filed(cmp, slotOf, chains, nodes) && slotOf(n.key) < |chains|
    requires ScanStops(cmp, chains[slotOf(n.key)], n.key, j)
    requires forall m <- nodes :: m.key != n.key
    ensures var c := chains[slotOf(n.key)];
            Filed(cmp, slotOf, chains[slotOf(n.key) := c[..j] + [n] + c[j..]], nodes + {n})
  {
    hide TotalOrder, Sorted, ScanStops;
    var c := chains[slotOf(n.key)];
    ScanStopsBefore(cmp, c, n.key, j);
    InsertSorted(cmp, c, n, j);
    InsertMembers(c, n, j);
  }

  lemma InsertMembers(c: seq<HashNode>, n: HashNode, j: nat)
    requires j <= |c|
    ensures forall m :: m in c[..j] + [n] + c[j..] <==> m in c || m == n
  {
    var d := c[..j] + [n] + c[j..];
    assert d[j] == n && c == c[..j] + c[j..];
  }

  lemma ScanStopsBefore(cmp: (Key, Key) -> int, c: seq<HashNode>, key: Key, j: nat)
    requires ScanStops(cmp, c, key, j)
    ensures j <= |c|
  {
  }

  lemma FiledRemove(cmp: (Key, Key) -> int, slotOf: Key -> nat, chains: seq<seq<HashNode>>, nodes: set<HashNode>,
      s: nat, j: nat)
    requires TotalOrder(cmp) && Filed(cmp, slotOf, chains, nodes) && s < |chains| && j < |chains[s]|
    ensures var c := chains[s];
            Filed(cmp, slotOf, chains[s := c[..j] + c[j + 1..]], nodes - {c[j]})
  {
    hide TotalOrder, Sorted;
    var c := chains[s];
    RemoveSorted(cmp, c, j);
    SortedDistinct(cmp, c);
    RemoveMembers(c, j);
    assert c[j] in c;
    var d, left := chains[s := c[..j] + c[j + 1..]], nodes - {c[j]};
    forall t, n | 0 <= t < |d| && n in d[t] ensures n in left && slotOf(n.key) == t {
      assert n in chains[t] && slotOf(n.key) == t && slotOf(c[j].key) == s;
      assert t == s ==> n in c[..j] + c[j + 1..];
    }
    forall n <- left ensures slotOf(n.key) < |d| && n in d[slotOf(n.key)] {
      assert n in chains[slotOf(n.key)];
    }
  }

  lemma SortedDistinct(cmp: (Key, Key) -> int, c: seq<HashNode>)
    requires TotalOrder(cmp) && Sorted(cmp, c)
    ensures forall i, k :: 0 <= i < k < |c| ==> c[i] != c[k] && c[i].key != c[k].key
  {
    hide TotalOrder;
    forall i, k | 0 <= i < k < |c| ensures c[i].key != c[k].key {
      OrderOf(cmp, c[i].key, c[k].key);
    }
  }

  lemma RemoveMembers(c: seq<HashNode>, j: nat)
    requires j < |c| && forall i, k :: 0 <= i < k < |c| ==> c[i] != c[k]
    ensures forall m :: m in c[..j] + c[j + 1..] <==> m in c && m != c[j]
  {
    var d := c[..j] + c[j + 1..];
    assert c == c[..j] + [c[j]] + c[j + 1..];
    assert forall i :: 0 <= i < |d| ==> d[i] == if i < j then c[i] else c[i + 1];
  }

  /** The pointer work of an insertion: `n` goes behind `prev`, or becomes the bucket head. */
  method Splice(htable: array<HashNode?>, n: HashNode, prev: HashNode?, s: nat, ghost chains: seq<seq<HashNode>>,
      ghost j: nat,
                ghost slotOf: Key -> nat)
    requires AllChained(htable, chains) && s < |chains| && j <= |chains[s]|
    requires forall t, i :: 0 <= t < |chains| && 0 <= i < |chains[t]| ==>
             chains[t][i] != n && slotOf(chains[t][i].key) == t
    requires forall i, k :: 0 <= i < k < |chains[s]| ==> chains[s][i] != chains[s][k]
    requires prev == if j == 0 then null else chains[s][j - 1]
    modifies htable, n`next, (if prev == null then {} else {prev})`next
    ensures AllChained(htable, chains[s := chains[s][..j] + [n] + chains[s][j..]])
  {
    hide Chained;
    ghost var c := chains[s];
    assert forall t :: 0 <= t < |chains| ==> Chained(htable[t], chains[t]);
    if prev != null {
      LinkBehind(n, prev, htable[s], c, j);
    } else {
      LinkFirst(n, htable, s, c);
      assert c[..j] + [n] + c[j..] == [n] + c;
    }
  }

  method LinkFirst(n: HashNode, htable: array<HashNode?>, s: nat, ghost c: seq<HashNode>)
    requires s < htable.Length && Chained(htable[s], c) && forall i :: 0 <= i < |c| ==> c[i] != n
    modifies n`next, htable
    ensures Chained(htable[s], [n] + c)
    ensures forall t :: 0 <= t < htable.Length && t != s ==> htable[t] == old(htable[t])
  {
    n.next := htable[s];
    htable[s] := n;
    ghost var d := [n] + c;
    assert forall i :: 0 <= i < |c| ==> d[i + 1] == c[i] && c[i].next == old(c[i].next);
  }

  method LinkBehind(n: HashNode, prev: HashNode, ghost head: HashNode?, ghost c: seq<HashNode>, ghost j: nat)
    requires Chained(head, c) && 0 < j <= |c| && prev == c[j - 1]
    requires forall i :: 0 <= i < |c| ==> c[i] != n
    requires forall i, k :: 0 <= i < k < |c| ==> c[i] != c[k]
    modifies n`next, prev`next
    ensures Chained(head, c[..j] + [n] + c[j..])
  {
    n.next := prev.next;
    prev.next := n;
    ghost var d := c[..j] + [n] + c[j..];
    assert d[j] == n && d[j - 1] == prev;
    assert forall i :: 0 <= i < j ==> d[i] == c[i];
    assert forall i :: j <= i < |c| ==> d[i + 1] == c[i];
  }

  /** The scans of hashtab_insert, hashtab_remove and hashtab_search, and the rehash. */
  method Seek(htable: array<HashNode?>, cmp: (Key, Key) -> int, key: Key, s: nat, ghost c: seq<HashNode>)
    returns (prev: HashNode?, cur: HashNode?, ghost j: nat)
    requires s < htable.Length && Chained(htable[s], c)
    ensures ScanStops(cmp, c, key, j)
    ensures prev == if j == 0 then null else c[j - 1]
    ensures cur == if j < |c| then c[j] else null
  {
    prev, cur, j := null, htable[s], 0;
    while cur != null
      invariant j <= |c|
      invariant prev == if j == 0 then null else c[j - 1]
      invariant cur == if j < |c| then c[j] else null
      invariant forall i :: 0 <= i < j ==> cmp(key, c[i].key) > 0
      decreases |c| - j
    {
      if cmp(key, cur.key) <= 0 {
        return;
      }
      prev, cur, j := cur, cur.next, j + 1;
    }
  }

  ghost function Members(c: seq<HashNode>): set<HashNode> {
    set n <- c
  }

  lemma FiledChain(cmp: (Key, Key) -> int, slotOf: Key -> nat, chains: seq<seq<HashNode>>, nodes: set<HashNode>, s: nat)
    requires TotalOrder(cmp) && Filed(cmp, slotOf, chains, nodes) && s < |chains|
    ensures Sorted(cmp, chains[s])
    ensures forall i, k :: 0 <= i < k < |chains[s]| ==>
              chains[s][i] != chains[s][k] && chains[s][i].key != chains[s][k].key
    ensures forall i :: 0 <= i < |chains[s]| ==> chains[s][i] in nodes && slotOf(chains[s][i].key) == s
  {
    hide TotalOrder;
    SortedDistinct(cmp, chains[s]);
  }

  lemma FiledSlots(cmp: (Key, Key) -> int, slotOf: Key -> nat, chains: seq<seq<HashNode>>, nodes: set<HashNode>)
    requires Filed(cmp, slotOf, chains, nodes)
    ensures forall s, i :: 0 <= s < |chains| && 0 <= i < |chains[s]| ==>
            chains[s][i] in nodes && slotOf(chains[s][i].key) == s
  {
  }

  /** What an insertion at the place of a scan needs, and what it gives. */
  lemma InsertFacts(cmp: (Key, Key) -> int, slotOf: Key -> nat, chains: seq<seq<HashNode>>, nodes: set<HashNode>,
      n: HashNode, j: nat)
    requires TotalOrder(cmp) && Filed(cmp, slotOf, chains, nodes) && slotOf(n.key) < |chains| && n !in nodes
    requires ScanStops(cmp, chains[slotOf(n.key)], n.key, j) && forall m <- nodes :: m.key != n.key
    ensures j <= |chains[slotOf(n.key)]| && (j > 0 ==> chains[slotOf(n.key)][j - 1] in nodes)
    ensures forall t, i :: 0 <= t < |chains| && 0 <= i < |chains[t]| ==>
            chains[t][i] != n && slotOf(chains[t][i].key) == t
    ensures forall i, k :: 0 <= i < k < |chains[slotOf(n.key)]| ==> chains[slotOf(n.key)][i] != chains[slotOf(n.key)][k]
    ensures var c := chains[slotOf(n.key)];
            Filed(cmp, slotOf, chains[slotOf(n.key) := c[..j] + [n] + c[j..]], nodes + {n})
  {
    hide TotalOrder, Filed, Sorted, ScanStops;
    ScanStopsBefore(cmp, chains[slotOf(n.key)], n.key, j);
    FiledInsert(cmp, slotOf, chains, nodes, n, j);
    FiledChain(cmp, slotOf, chains, nodes, slotOf(n.key));
    FiledSlots(cmp, slotOf, chains, nodes);
  }

  lemma ChainedAt(htable: array<HashNode?>, chains: seq<seq<HashNode>>, s: nat)
    requires AllChained(htable, chains) && s < |chains|
    ensures s < htable.Length && Chained(htable[s], chains[s])
  {
  }

  /** The body of the innermost loop of hashtab_check_resize: one node moves to its place in the
    * new table. */
  method MoveNode(newHtable: array<HashNode?>, n: HashNode, hvalue: nat, cmp: (Key, Key) -> int,
                  ghost slotOf: Key -> nat, ghost chains: seq<seq<HashNode>>, ghost moved: set<HashNode>)
    returns (ghost after: seq<seq<HashNode>>)
    requires TotalOrder(cmp) && Filed(cmp, slotOf, chains, moved) && AllChained(newHtable, chains)
    requires hvalue == slotOf(n.key) < |chains| && n !in moved && forall m <- moved :: m.key != n.key
    modifies newHtable, n`next, moved`next
    ensures Filed(cmp, slotOf, after, moved + {n}) && AllChained(newHtable, after)
  {
    hide TotalOrder, Filed, AllChained, Chained, Sorted, ScanStops;
    ChainedAt(newHtable, chains, hvalue);
    var prev, cur, j := Seek(newHtable, cmp, n.key, hvalue, chains[hvalue]);
    ghost var c := chains[hvalue];
    InsertFacts(cmp, slotOf, chains, moved, n, j);
    after := chains[hvalue := c[..j] + [n] + c[j..]];
    Splice(newHtable, n, prev, hvalue, chains, j, slotOf);
  }

  /** The chain `c` still has to be moved: no key of it is among those of `moved`. */
  ghost predicate Pending(c: seq<HashNode>, moved: set<HashNode>) {
    && (forall i, k :: 0 <= i < k < |c| ==> c[i] != c[k] && c[i].key != c[k].key)
    && forall i, m :: 0 <= i < |c| && m in moved ==> c[i] != m && m.key != c[i].key
  }

  lemma PendingHead(c: seq<HashNode>, moved: set<HashNode>)
    requires Pending(c, moved) && c != []
    ensures c[0] !in moved && (forall m <- moved :: m.key != c[0].key) && Pending(c[1..], moved + {c[0]})
    ensures forall i :: 0 <= i < |c[1..]| ==> c[1..][i] !in moved + {c[0]}
  {
  }

  method MoveNext(newHtable: array<HashNode?>, cur: HashNode, ghost c: seq<HashNode>, size: nat,
      hash: (nat, Key) -> nat,
                  cmp: (Key, Key) -> int, ghost chains: seq<seq<HashNode>>, ghost moved: set<HashNode>)
    returns (next: HashNode?, ghost after: seq<seq<HashNode>>)
    requires TotalOrder(cmp) && (forall k :: hash(size, k) < size) && size == newHtable.Length
    requires Filed(cmp, k => hash(size, k), chains, moved) && AllChained(newHtable, chains)
    requires c != [] && c[0] == cur && Chained(cur, c) && Pending(c, moved)
    modifies newHtable, cur`next, moved`next
    ensures Filed(cmp, k => hash(size, k), after, moved + {cur}) && AllChained(newHtable, after)
    ensures Chained(next, c[1..]) && Pending(c[1..], moved + {cur})
  {
    hide TotalOrder, Filed, AllChained, Pending;
    PendingHead(c, moved);
    ChainsOf(newHtable, chains);
    var hvalue := hash(size, cur.key);
    next := cur.next;
    ChainedTail(cur, c);
    after := MoveNode(newHtable, cur, hvalue, cmp, k => hash(size, k), chains, moved);
    assert Chained(next, c[1..]);
  }

  lemma ChainedTail(head: HashNode, c: seq<HashNode>)
    requires c != [] && Chained(head, c)
    ensures Chained(head.next, c[1..])
  {
  }

  /** "Move all elements" of one bucket. */
  method MoveChain(newHtable: array<HashNode?>, head: HashNode?, ghost c: seq<HashNode>, size: nat,
                   hash: (nat, Key) -> nat, cmp: (Key, Key) -> int, ghost chains: seq<seq<HashNode>>,
                     ghost moved: set<HashNode>)
    returns (ghost after: seq<seq<HashNode>>)
    requires TotalOrder(cmp) && (forall k :: hash(size, k) < size) && size == newHtable.Length
    requires Filed(cmp, k => hash(size, k), chains, moved) && AllChained(newHtable, chains)
    requires Chained(head, c) && Pending(c, moved)
    modifies newHtable, Members(c)`next, moved`next
    ensures Filed(cmp, k => hash(size, k), after, moved + Members(c)) && AllChained(newHtable, after)
  {
    hide TotalOrder, Filed, AllChained, Chained, Pending;
    after := chains;
    var cur := head;
    ghost var i := 0;
    assert c[0..] == c && moved + Members(c[..0]) == moved;
    while cur != null
      invariant i <= |c| && Chained(cur, c[i..]) && Pending(c[i..], moved + Members(c[..i]))
      invariant Filed(cmp, k => hash(size, k), after, moved + Members(c[..i])) && AllChained(newHtable, after)
      decreases |c| - i
    {
      ChainedHead(cur, c[i..]);
      assert moved + Members(c[..i]) + {cur} == moved + Members(c[..i + 1]) && c[i..][1..] == c[i + 1..];
      cur, after := MoveNext(newHtable, cur, c[i..], size, hash, cmp, after, moved + Members(c[..i]));
      i := i + 1;
    }
    ChainedHead(cur, c[i..]);
    assert c[..i] == c;
  }

  lemma ChainedHead(head: HashNode?, c: seq<HashNode>)
    requires Chained(head, c)
    ensures head == if c == [] then null else c[0]
  {
  }

  lemma ChainsOf(htable: array<HashNode?>, chains: seq<seq<HashNode>>)
    requires AllChained(htable, chains)
    ensures |chains| == htable.Length
  {
  }

  lemma {:induction false} PowerSum(a: nat, b: nat)
    ensures Pow2(a + b) == Pow2(a) * Pow2(b)
  {
    if a > 0 {
      PowerSum(a - 1, b);
      assert Pow2(a + b) == 2 * Pow2(a - 1 + b);
    }
  }

  lemma Power32()
    ensures Pow2(32) == TWO_32
  {
    assert Pow2(4) == 16 && Pow2(8) == 256;
    PowerSum(8, 8);
    PowerSum(16, 16);
  }

  /** Doubling in 32 bits keeps a multiple of a power of two a multiple of the next one. */
  lemma DoubleMultiple(q: nat, k: nat) returns (r: nat)
    requires k < 32 && q * Pow2(k) < TWO_32
    ensures 2 * (q * Pow2(k)) % TWO_32 == r * Pow2(k + 1)
  {
    hide Pow2;
    var n, p, h := q * Pow2(k), Pow2(k + 1), Pow2(31 - k);
    PowerStep(k);
    Doubled(q, Pow2(k));
    Power32();
    PowerSum(31 - k, k + 1);
    if 2 * n < TWO_32 {
      r := q;
    } else {
      AtLeast(q, h, p);
      Difference(q, h, p);
      r := q - h;
    }
  }

  lemma PowerStep(k: nat)
    ensures Pow2(k + 1) == 2 * Pow2(k)
  {
  }

  lemma Doubled(q: nat, p: nat)
    ensures q * (2 * p) == 2 * (q * p)
  {
  }

  lemma AtLeast(q: nat, h: nat, p: nat)
    requires p > 0
    ensures q < h ==> q * p < h * p
  {
    if q < h {
      var d := h - q;
      Difference(h, q, p);
      assert (d - 1) * p >= 0;
      Difference(d, 1, p);
    }
  }

  lemma Difference(q: nat, h: nat, p: nat)
    ensures (q - h) * p == q * p - h * p
  {
  }

  lemma MultipleIsSmall(r: nat, k: nat)
    requires k <= 32 && 0 < r * Pow2(k) < TWO_32
    ensures k < 32
  {
    hide Pow2;
    Power32();
  }

  /** The size to grow to. Each doubling is cut to 32 bits, but the number of trailing zero bits
    * grows, so the loop ends even when a size that is no power of two wraps around. */
  method GrownSize(size: nat, nel: nat) returns (newSize: nat)
    requires 0 < size < TWO_32
    ensures 0 < newSize < TWO_32
    ensures newSize > nel || 2 * newSize % TWO_32 == 0
    ensures size > nel ==> newSize == size
  {
    newSize := size;
    ghost var k, q := 0, size;
    while newSize <= nel && 2 * newSize % TWO_32 != 0
      invariant 0 < newSize < TWO_32 && k < 32 && newSize == q * Pow2(k)
      invariant size > nel ==> newSize == size
      decreases 32 - k
    {
      q := DoubleMultiple(q, k);
      newSize, k := 2 * newSize % TWO_32, k + 1;
      MultipleIsSmall(q, k);
    }
  }

  /** The nodes of the first `i` buckets. */
  ghost function MovedBy(nodes: set<HashNode>, slotOf: Key -> nat, i: nat): set<HashNode> {
    set n <- nodes | slotOf(n.key) < i
  }

  lemma NextBucket(cmp: (Key, Key) -> int, slotOf: Key -> nat, chains: seq<seq<HashNode>>, nodes: set<HashNode>, i: nat)
    requires TotalOrder(cmp) && Filed(cmp, slotOf, chains, nodes) && i < |chains|
    ensures Pending(chains[i], MovedBy(nodes, slotOf, i))
    ensures MovedBy(nodes, slotOf, i) + Members(chains[i]) == MovedBy(nodes, slotOf, i + 1)
    ensures Members(chains[i]) <= nodes
    ensures forall s, k :: i < s < |chains| && 0 <= k < |chains[s]| ==>
              chains[s][k] !in MovedBy(nodes, slotOf, i + 1)
  {
    hide TotalOrder, Sorted;
    FiledChain(cmp, slotOf, chains, nodes, i);
    FiledSlots(cmp, slotOf, chains, nodes);
  }

  /** The loops that move all elements to the new table. */
  method Rehash(htable: array<HashNode?>, newHtable: array<HashNode?>, hash: (nat, Key) -> nat, cmp: (Key, Key) -> int,
                ghost slotOf: Key -> nat, ghost chains: seq<seq<HashNode>>, ghost nodes: set<HashNode>)
    returns (ghost after: seq<seq<HashNode>>)
    requires TotalOrder(cmp) && (forall k :: hash(newHtable.Length, k) < newHtable.Length)
    requires Filed(cmp, slotOf, chains, nodes) && AllChained(htable, chains) && (forall k :: slotOf(k) < |chains|)
    requires htable != newHtable && forall i :: 0 <= i < newHtable.Length ==> newHtable[i] == null
    modifies newHtable, nodes`next
    ensures Filed(cmp, k => hash(newHtable.Length, k), after, nodes) && AllChained(newHtable, after)
  {
    hide TotalOrder, Filed, Pending, Chained;
    var size := newHtable.Length;
    after := seq(size, _ => []);
    EmptyTable(newHtable, after, cmp, k => hash(size, k));
    assert MovedBy(nodes, slotOf, 0) == {};
    for i := 0 to htable.Length
      invariant forall s :: i <= s < |chains| ==> Chained(htable[s], chains[s])
      invariant Filed(cmp, k => hash(size, k), after, MovedBy(nodes, slotOf, i)) && AllChained(newHtable, after)
    {
      NextBucket(cmp, slotOf, chains, nodes, i);
      after := MoveChain(newHtable, htable[i], chains[i], size, hash, cmp, after, MovedBy(nodes, slotOf, i));
    }
    assert MovedBy(nodes, slotOf, htable.Length) == nodes;
  }

  lemma EmptyTable(htable: array<HashNode?>, chains: seq<seq<HashNode>>, cmp: (Key, Key) -> int, slotOf: Key -> nat)
    requires |chains| == htable.Length && (forall i :: 0 <= i < |chains| ==> chains[i] == [] && htable[i] == null)
    ensures Filed(cmp, slotOf, chains, {}) && AllChained(htable, chains)
  {
  }

  /** The pointer work of a removal. */
  method Unsplice(htable: array<HashNode?>, n: HashNode, prev: HashNode?, s: nat, ghost chains: seq<seq<HashNode>>,
      ghost j: nat,
                  ghost slotOf: Key -> nat)
    requires AllChained(htable, chains) && s < |chains| && j < |chains[s]| && chains[s][j] == n
    requires forall t, i :: 0 <= t < |chains| && 0 <= i < |chains[t]| ==> slotOf(chains[t][i].key) == t
    requires forall i, k :: 0 <= i < k < |chains[s]| ==> chains[s][i] != chains[s][k]
    requires prev == if j == 0 then null else chains[s][j - 1]
    modifies htable, (if prev == null then {} else {prev})`next
    ensures AllChained(htable, chains[s := chains[s][..j] + chains[s][j + 1..]])
  {
    ghost var c := chains[s];
    if prev == null {
      htable[s] := n.next;
    } else {
      prev.next := n.next;
    }
    ghost var d := c[..j] + c[j + 1..];
    assert j > 0 ==> d[j - 1] == prev;
    assert forall i :: 0 <= i < j ==> d[i] == c[i];
    assert forall i :: j <= i < |d| ==> d[i] == c[i + 1];
    assert Chained(htable[s], d);
    forall t | 0 <= t < |chains| && t != s ensures Chained(htable[t], chains[t]) {
      assert old(Chained(htable[t], chains[t]));
      assert forall i :: 0 <= i < |chains[t]| ==> chains[t][i].next == old(chains[t][i].next);
    }
  }

  /** The bindings of exactly the nodes `ns`, each key once. */
  ghost predicate Lists(order: seq<(Key, Datum)>, ns: set<HashNode>) {
    && (forall i :: 0 <= i < |order| ==> exists n :: n in ns && order[i] == (n.key, n.datum))
    && (forall n <- ns :: (n.key, n.datum) in order)
    && (forall i, j :: 0 <= i < j < |order| ==> order[i].0 != order[j].0)
  }

  lemma ListsMore(order: seq<(Key, Datum)>, ns: set<HashNode>, n: HashNode)
    requires Lists(order, ns) && forall m <- ns :: m.key != n.key
    ensures Lists(order + [(n.key, n.datum)], ns + {n})
  {
  }

  /** The walk along one bucket. */
  method MapBucket(head: HashNode?, ghost c: seq<HashNode>, order: seq<(Key, Datum)>, ghost before: set<HashNode>)
    returns (more: seq<(Key, Datum)>)
    requires Chained(head, c) && Pending(c, before) && Lists(order, before)
    ensures Lists(more, before + Members(c))
  {
    hide Lists;
    more := order;
    var cur := head;
    ghost var i := 0;
    assert before + Members(c[..0]) == before;
    while cur != null
      invariant i <= |c| && cur == if i < |c| then c[i] else null
      invariant Lists(more, before + Members(c[..i]))
      decreases |c| - i
    {
      ListsMore(more, before + Members(c[..i]), cur);
      assert before + Members(c[..i]) + {cur} == before + Members(c[..i + 1]);
      more := more + [(cur.key, cur.datum)];
      cur, i := cur.next, i + 1;
    }
    assert c[..i] == c;
  }

  ghost function DatumOf(nodes: set<HashNode>, key: Key): Option<Datum> {
    if exists n <- nodes :: n.key == key then var n :| n in nodes && n.key == key; Some(n.datum) else None
  }

  ghost predicate DistinctKeys(nodes: set<HashNode>) {
    forall m <- nodes, n <- nodes :: m.key == n.key ==> m == n
  }

  lemma DatumAdded(nodes: set<HashNode>, n: HashNode)
    requires DistinctKeys(nodes) && forall m <- nodes :: m.key != n.key
    ensures DistinctKeys(nodes + {n})
    ensures forall k :: DatumOf(nodes + {n}, k) == if k == n.key then Some(n.datum) else DatumOf(nodes, k)
  {
  }

  lemma DatumRemoved(nodes: set<HashNode>, n: HashNode)
    requires DistinctKeys(nodes) && n in nodes
    ensures DatumOf(nodes, n.key) == Some(n.datum)
    ensures forall k :: DatumOf(nodes - {n}, k) == if k == n.key then None else DatumOf(nodes, k)
  {
  }

  class Hashtab {
    var htable: array<HashNode?>
    var size: nat
    var nel: nat
    const hash: (nat, Key) -> nat   // hash_value, which depends on the size of the table
    const cmp: (Key, Key) -> int
    ghost var chains: seq<seq<HashNode>>
    ghost var nodes: set<HashNode>

    ghost function SlotOf(): Key -> nat
      reads this`size
    {
      var n := size;
      k => hash(n, k)
    }

    ghost predicate Valid()
      reads this, htable, nodes`next, (set c <- chains, n <- c :: n)`next
    {
      && TotalOrder(cmp) && (forall n, k :: n > 0 ==> hash(n, k) < n)
      && 0 < size == htable.Length < TWO_32
      && Filed(cmp, SlotOf(), chains, nodes) && AllChained(htable, chains)
      && nel == |nodes|
    }

    /** The map: what is stored under a key. */
    ghost function Lookup(key: Key): Option<Datum>
      reads this`nodes
    {
      DatumOf(nodes, key)
    }

    lemma LookupChain(key: Key, c: seq<HashNode>, j: nat)
      requires Valid() && hash(size, key) < |chains| && c == chains[hash(size, key)] && ScanStops(cmp, c, key, j)
      ensures Lookup(key) == if j < |c| && cmp(key, c[j].key) == 0 then Some(c[j].datum) else None
      ensures Lookup(key).None? ==> forall n <- nodes :: n.key != key
    {
      hide TotalOrder, Sorted, AllChained;
      FiledChain(cmp, SlotOf(), chains, nodes, hash(size, key));
      ScanStopsKey(cmp, c, key, j);
      if exists n <- nodes :: n.key == key {
        var n :| n in nodes && n.key == key;
        assert n in c;
      }
    }

    lemma UniqueKeys()
      requires Valid()
      ensures DistinctKeys(nodes)
    {
      hide TotalOrder, Sorted, AllChained;
      forall m <- nodes, n <- nodes | m.key == n.key ensures m == n {
        FiledChain(cmp, SlotOf(), chains, nodes, hash(size, m.key));
        assert m in chains[SlotOf()(m.key)] && n in chains[SlotOf()(n.key)];
      }
    }

    lemma BucketOf(key: Key)
      requires Valid()
      ensures hash(size, key) < |chains| == htable.Length && Chained(htable[hash(size, key)], chains[hash(size, key)])
    {
      ChainedAt(htable, chains, hash(size, key));
    }

    /** hashtab_create. */
    constructor (hash: (nat, Key) -> nat, cmp: (Key, Key) -> int, size: nat)
      requires 0 < size < TWO_32 && TotalOrder(cmp) && forall n, k :: n > 0 ==> hash(n, k) < n
      ensures Valid() && fresh(htable) && nodes == {} && this.size == size
      ensures this.hash == hash && this.cmp == cmp
    {
      this.hash, this.cmp, this.size, nel := hash, cmp, size, 0;
      htable := new HashNode?[size](_ => null);
      chains, nodes := seq(size, _ => []), {};
      new;
      EmptyTable(htable, chains, cmp, SlotOf());
    }

    /** hashtab_check_resize: the rehash keeps every node, so every binding. */
    method CheckResize()
      requires Valid()
      modifies this, nodes`next
      ensures Valid() && nodes == old(nodes) && nel == old(nel)
      ensures fresh(htable) || (htable == old(htable) && htable[..] == old(htable[..]))
      ensures size > nel || 2 * size % TWO_32 == 0
      ensures old(size > nel) ==> htable == old(htable)
    {
      hide TotalOrder, Filed, AllChained;
      var newSize := GrownSize(size, nel);
      if size != newSize {
        GrowTo(newSize);
      }
    }

    method GrowTo(newSize: nat)
      requires Valid() && 0 < newSize < TWO_32
      modifies this, nodes`next
      ensures Valid() && nodes == old(nodes) && nel == old(nel) && fresh(htable) && size == newSize
    {
      hide TotalOrder, Filed, AllChained;
      var newHtable := new HashNode?[newSize](_ => null);
      ChainsOf(htable, chains);
      Slots();
      ghost var after := Rehash(htable, newHtable, hash, cmp, SlotOf(), chains, nodes);
      size, htable, chains := newSize, newHtable, after;
      SameSlots(newSize);
    }

    lemma Slots()
      requires size > 0 && forall n, k :: n > 0 ==> hash(n, k) < n
      ensures forall k :: SlotOf()(k) < size
    {
      assert forall k :: SlotOf()(k) == hash(size, k);
    }

    lemma SameSlots(n: nat)
      requires size == n && Filed(cmp, k => hash(n, k), chains, nodes)
      ensures Filed(cmp, SlotOf(), chains, nodes)
    {
      assert forall k :: SlotOf()(k) == hash(n, k);
    }

    /** hashtab_insert: a second binding for a key is refused. */
    method Insert(key: Key, datum: Datum) returns (rc: int)
      requires Valid()
      modifies this, htable, nodes`next
      ensures Valid()
      ensures rc == if old(nel) == TWO_32 - 1 then SEPOL_ENOMEM
                    else if old(Lookup(key)).Some? then SEPOL_EEXIST else 0
      ensures forall k :: Lookup(k) == if rc == 0 && k == key then Some(datum) else old(Lookup(k))
      ensures fresh(nodes - old(nodes)) && (rc != 0 ==> nodes == old(nodes)) &&
              nel == old(nel) + if rc == 0 then 1 else 0
    {
      hide TotalOrder, Filed, AllChained, Chained, ScanStops, Sorted;
      if nel == TWO_32 - 1 {
        return SEPOL_ENOMEM;
      }
      CheckResize();
      var hvalue := hash(size, key);
      BucketOf(key);
      var prev, cur, j := Seek(htable, cmp, key, hvalue, chains[hvalue]);
      LookupChain(key, chains[hvalue], j);
      if cur != null && cmp(key, cur.key) == 0 {
        return SEPOL_EEXIST;
      }
      AddNode(key, datum, hvalue, prev, j);
      rc := 0;
    }

    /** The new node of hashtab_insert. */
    method AddNode(key: Key, datum: Datum, hvalue: nat, prev: HashNode?, ghost j: nat)
      requires Valid() && hvalue == hash(size, key) < |chains| && ScanStops(cmp, chains[hvalue], key, j)
      requires prev == if j == 0 || j > |chains[hvalue]| then null else chains[hvalue][j - 1]
      requires forall n <- nodes :: n.key != key
      modifies this, htable, nodes`next
      ensures Valid() && nel == old(nel) + 1 && fresh(nodes - old(nodes)) && htable == old(htable)
      ensures forall k :: Lookup(k) == if k == key then Some(datum) else old(Lookup(k))
    {
      hide TotalOrder, Filed, AllChained, Sorted, ScanStops, Chained, DistinctKeys, DatumOf;
      var newnode := new HashNode(key, datum);
      ghost var c := chains[hvalue];
      InsertFacts(cmp, SlotOf(), chains, nodes, newnode, j);
      UniqueKeys();
      DatumAdded(nodes, newnode);
      Splice(htable, newnode, prev, hvalue, chains, j, SlotOf());
      chains, nodes, nel := chains[hvalue := c[..j] + [newnode] + c[j..]], nodes + {newnode}, nel + 1;
    }

    /** hashtab_search. */
    method Search(key: Key) returns (datum: Option<Datum>)
      requires Valid()
      ensures datum == Lookup(key)
    {
      hide TotalOrder, Filed, AllChained, Chained, ScanStops, Sorted;
      BucketOf(key);
      var hvalue := hash(size, key);
      var prev, cur, j := Seek(htable, cmp, key, hvalue, chains[hvalue]);
      LookupChain(key, chains[hvalue], j);
      datum := if cur != null && cmp(key, cur.key) == 0 then Some(cur.datum) else None;
    }

    /** hashtab_remove. */
    method Remove(key: Key) returns (rc: int)
      requires Valid()
      modifies this, htable, nodes`next
      ensures Valid() && htable == old(htable)
      ensures rc == if old(Lookup(key)).None? then SEPOL_ENOENT else 0
      ensures forall k :: Lookup(k) == if k == key then None else old(Lookup(k))
      ensures nodes <= old(nodes) && nel == old(nel) - if rc == 0 then 1 else 0
    {
      hide TotalOrder, Filed, AllChained, Chained, ScanStops, Sorted, DistinctKeys, DatumOf;
      var hvalue := hash(size, key);
      BucketOf(key);
      var last, cur, j := Seek(htable, cmp, key, hvalue, chains[hvalue]);
      LookupChain(key, chains[hvalue], j);
      if cur == null {
        return SEPOL_ENOENT;
      }
      if cmp(key, cur.key) != 0 {
        return SEPOL_ENOENT;
      }
      OrderOf(cmp, key, cur.key);
      ghost var c := chains[hvalue];
      FiledChain(cmp, SlotOf(), chains, nodes, hvalue);
      FiledSlots(cmp, SlotOf(), chains, nodes);
      FiledRemove(cmp, SlotOf(), chains, nodes, hvalue, j);
      UniqueKeys();
      DatumRemoved(nodes, cur);
      Unsplice(htable, cur, last, hvalue, chains, j, SlotOf());
      chains, nodes, nel := chains[hvalue := c[..j] + c[j + 1..]], nodes - {cur}, nel - 1;
      rc := 0;
    }

    /** hashtab_map: the bindings in the order in which `apply` is called on them. */
    method Map() returns (order: seq<(Key, Datum)>)
      requires Valid()
      ensures forall b <- order :: Lookup(b.0) == Some(b.1)
      ensures forall k :: Lookup(k).Some? ==> (k, Lookup(k).value) in order
      ensures forall i, j :: 0 <= i < j < |order| ==> order[i].0 != order[j].0
    {
      hide TotalOrder, Filed, AllChained, Chained, Sorted, DistinctKeys, DatumOf;
      order := [];
      ChainsOf(htable, chains);
      assert MovedBy(nodes, SlotOf(), 0) == {};
      for i := 0 to size
        invariant Lists(order, MovedBy(nodes, SlotOf(), i))
      {
        NextBucket(cmp, SlotOf(), chains, nodes, i);
        ChainedAt(htable, chains, i);
        order := MapBucket(htable[i], chains[i], order, MovedBy(nodes, SlotOf(), i));
      }
      assert MovedBy(nodes, SlotOf(), size) == nodes;
      UniqueKeys();
      ListsAll(order);
    }

    lemma ListsAll(order: seq<(Key, Datum)>)
      requires DistinctKeys(nodes) && Lists(order, nodes)
      ensures forall b <- order :: Lookup(b.0) == Some(b.1)
      ensures forall k :: Lookup(k).Some? ==> (k, Lookup(k).value) in order
      ensures forall i, j :: 0 <= i < j < |order| ==> order[i].0 != order[j].0
    {
    }
  }
}
