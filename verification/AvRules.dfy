/** Access vector rules as the rest of the library reads them from an Avtab: per triple and rule
  * kind one 32-bit mask, where a missing node stands for the neutral mask.
  */
module AvRules {
  import opened AvTables

  /** Permissions a missing rule grants (or audits): none, but an absent auditdeny audits all. */
  function Neutral(e: bv16): Word {
    if e == AUDITDENY then ALL_ONES else {}
  }

  /** Access vector nodes carry a single kind, and a triple has at most one node of a kind. */
  ghost predicate AvTable(t: Avtab)
    reads t`nodes, t.nodes`specified
  {
    && (forall n <- t.nodes :: n.specified & 7 != 0 ==> AvKind(n.specified))
    && (forall m <- t.nodes, n <- t.nodes ::
          m.key == n.key && m.specified == n.specified && AvKind(n.specified) ==> m == n)
  }

  ghost predicate HasNode(t: Avtab, k: Triple, e: bv16)
    reads t`nodes, t.nodes`specified
  {
    exists n :: n in t.nodes && n.key == k && n.specified == e
  }

  /** The effective mask of (`k`, `e`). */
  ghost function Mask(t: Avtab, k: Triple, e: bv16): Word
    reads t`nodes, t.nodes`specified, t.nodes`data
  {
    if HasNode(t, k, e)
    then var n :| n in t.nodes && n.key == k && n.specified == e; n.data
    else Neutral(e)
  }

  /** The nodes of all other kinds, with their data. */
  ghost function Others(t: Avtab, e: bv16): set<(AvNode, bv16, Word)>
    reads t`nodes, t.nodes`specified, t.nodes`data
  {
    set n <- t.nodes | n.specified != e :: (n, n.specified, n.data)
  }

  /** The mask of another kind, from what is remembered of the other kinds. */
  ghost function MaskAmong(others: set<(AvNode, bv16, Word)>, k: Triple, f: bv16): Word {
    if exists x <- others :: x.0.key == k && x.1 == f
    then var x :| x in others && x.0.key == k && x.1 == f; x.2
    else Neutral(f)
  }

  lemma MaskOfOther(t: Avtab, e: bv16, k: Triple, f: bv16)
    requires AvTable(t) && AvKind(f) && f != e
    ensures Mask(t, k, f) == MaskAmong(Others(t, e), k, f)
  {
    if HasNode(t, k, f) {
      var n :| n in t.nodes && n.key == k && n.specified == f;
      assert (n, n.specified, n.data) in Others(t, e);
    }
  }

  lemma KindOverlap(e: bv16, s: bv16)
    requires AvKind(e) && (s & 7 != 0 ==> AvKind(s))
    ensures Overlaps(e, s) <==> s == e
  {
  }

  /** A search for one access vector kind finds the node of that kind. */
  method FindNode(t: Avtab, k: Triple, e: bv16) returns (node: AvNode?)
    requires t.Valid() && AvTable(t) && AvKind(e)
    ensures node == null <==> !HasNode(t, k, e)
    ensures node != null ==>
              node in t.nodes && node.key == k && node.specified == e && node.data == Mask(t, k, e)
  {
    hide Overlaps;
    ghost var pos;
    node, pos := t.SearchNode(k, e);
    t.GroupMembers(k);
    forall n <- t.nodes ensures Overlaps(e, n.specified) <==> n.specified == e {
      KindOverlap(e, n.specified);
    }
  }

  /** All that a table says about kind `e`, and what it holds for the other kinds. */
  datatype View = View(mask: imap<Triple, Word>, has: imap<Triple, bool>, others: set<(AvNode, bv16, Word)>)

  ghost function ViewOf(t: Avtab, e: bv16): View
    reads t`nodes, t.nodes`specified, t.nodes`data
  {
    View(imap k: Triple :: Mask(t, k, e), imap k: Triple :: HasNode(t, k, e), Others(t, e))
  }
}
