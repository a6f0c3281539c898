/** Printing the access vector rules of a table (sepol_print_avtab_rules in sepol_impl.rs), and
  * reading the printed statements back into an empty table.
  */
module Dump {
  import opened AvTables
  import opened AvRules
  import opened AddRule
  import opened RuleLists
  import opened Statement

  /** sym_val_to_name and class_val_to_struct: names by value, counted from 1, where the policy
    * has them. */
  datatype ValueNames = ValueNames(types: seq<Option<string>>, classes: seq<Option<(string, ClassDatum)>>) {
    function TypeName(v: nat): Option<string> {
      if 1 <= v <= |types| then types[v - 1] else None
    }

    function Class(v: nat): Option<(string, ClassDatum)> {
      if 1 <= v <= |classes| then classes[v - 1] else None
    }
  }

  ghost predicate OwnPerm(cls: ClassDatum, b: nat) {
    exists n <- cls.permissions :: cls.permissions[n] == b + 1
  }

  ghost predicate CommonPerm(cls: ClassDatum, b: nat) {
    exists n <- cls.common :: cls.common[n] == b + 1
  }

  /** The bits that have a name. */
  ghost function NamedBits(cls: ClassDatum): Word {
    set b: nat | b < 32 && (OwnPerm(cls, b) || CommonPerm(cls, b))
  }

  /** A name table for the permissions: own names come first. */
  ghost predicate NamesPerms(cls: ClassDatum, names: seq<Option<string>>) {
    |names| == 32 && forall b: nat :: b < 32 ==>
      match names[b]
      case Some(n) =>
        if OwnPerm(cls, b) then n in cls.permissions && cls.permissions[n] == b + 1
        else n in cls.common && cls.common[n] == b + 1
      case None => !OwnPerm(cls, b) && !CommonPerm(cls, b)
  }

  /** The loop over the class's own permissions, in hash table order. */
  method OwnNames(cls: ClassDatum, names: array<Option<string>>)
    requires names.Length == 32 && forall b :: 0 <= b < 32 ==> names[b] == None
    modifies names
    ensures forall b: nat :: b < 32 ==>
              if OwnPerm(cls, b)
              then names[b].Some? && names[b].value in cls.permissions && cls.permissions[names[b].value] == b + 1
              else names[b] == None
  {
    var left := cls.permissions.Keys;
    while left != {}
      invariant left <= cls.permissions.Keys
      invariant forall b :: 0 <= b < 32 && names[b].Some? ==>
                  names[b].value in cls.permissions && cls.permissions[names[b].value] == b + 1
      invariant forall n <- cls.permissions :: n !in left ==> names[cls.permissions[n] - 1].Some?
      decreases left
    {
      var n :| n in left;
      names[cls.permissions[n] - 1] := Some(n);
      left := left - {n};
    }
  }

  /** The loop over the inherited permissions: they fill the gaps. */
  method CommonNames(cls: ClassDatum, names: array<Option<string>>)
    requires names.Length == 32
    requires forall b: nat :: b < 32 ==>
               if OwnPerm(cls, b)
               then names[b].Some? && names[b].value in cls.permissions && cls.permissions[names[b].value] == b + 1
               else names[b] == None
    modifies names
    ensures NamesPerms(cls, names[..])
  {
    ghost var before := names[..];
    var left := cls.common.Keys;
    while left != {}
      invariant left <= cls.common.Keys
      invariant forall b: nat :: b < 32 && before[b].Some? ==> names[b] == before[b]
      invariant forall b: nat :: b < 32 && before[b].None? && names[b].Some? ==>
                  names[b].value in cls.common && cls.common[names[b].value] == b + 1
      invariant forall n <- cls.common :: n !in left ==> names[cls.common[n] - 1].Some?
      decreases left
    {
      var n :| n in left;
      if names[cls.common[n] - 1].None? {
        names[cls.common[n] - 1] := Some(n);
      }
      left := left - {n};
    }
  }

  /** The value-to-name lookup for permissions. */
  method PermNames(cls: ClassDatum) returns (names: array<Option<string>>)
    ensures fresh(names) && NamesPerms(cls, names[..])
  {
    names := new Option<string>[32](_ => None);
    OwnNames(cls, names);
    CommonNames(cls, names);
  }

  /** The printed names of the bits of `data` below `n`. */
  ghost function Printed(names: seq<Option<string>>, data: Word, n: nat): seq<string>
    requires n <= |names|
  {
    if n == 0 then []
    else Printed(names, data, n - 1) + if n - 1 in data && names[n - 1].Some? then [names[n - 1].value] else []
  }

  lemma {:induction false} PrintedMembers(names: seq<Option<string>>, data: Word, n: nat, p: string)
    requires n <= |names|
    ensures p in Printed(names, data, n) <==> exists b: nat :: b < n && b in data && names[b] == Some(p)
  {
    if n > 0 {
      PrintedMembers(names, data, n - 1, p);
      if n - 1 in data && names[n - 1] == Some(p) {
        var b: nat := n - 1;
        assert b in data && names[b] == Some(p);
      }
    }
  }

  lemma {:induction false} JoinEnd(ws: seq<string>, w: string)
    requires ws != []
    ensures Join(ws + [w]) == Join(ws) + " " + w
  {
    if |ws| == 1 {
      assert (ws + [w])[1..] == [w];
    } else {
      assert (ws + [w])[1..] == ws[1..] + [w];
      JoinEnd(ws[1..], w);
    }
  }

  function ActionOf(kind: bv16): Token
    requires AvKind(kind)
  {
    if kind == ALLOWED then AL else if kind == AUDITALLOW then AA else DA
  }

  /** What a rule prints: a dontaudit statement lists the permissions that are not audited. */
  function Shown(kind: bv16, data: Word): Word {
    if kind == AUDITDENY then ALL_ONES - data else data
  }

  /** The loop that prints the permissions, with the brackets around them. */
  method PrintPerms(action: Token, s: string, t: string, c: string, names: array<Option<string>>, data: Word)
    returns (line: Option<string>)
    requires IsAvAction(action) && names.Length == 32
    ensures var ps := Printed(names[..], data, 32);
            line == if ps == [] then None else Some(Join(RuleWords(action, s, t, c, ps)))
  {
    hide Join;
    var text := "";
    var first := true;
    ghost var head := [ActionName(action), s, t, c, "{"];
    for bit := 0 to 32
      invariant first == (Printed(names[..], data, bit) == [])
      invariant !first ==> text == Join(head + Printed(names[..], data, bit))
    {
      if bit in data && names[bit].Some? {
        ghost var ps, p := Printed(names[..], data, bit), names[bit].value;
        if first {
          text := ActionName(action) + " " + s + " " + t + " " + c + " {";
          HeadText(action, s, t, c);
          assert head + ps == head;
          first := false;
        }
        JoinEnd(head + ps, p);
        text := text + " " + names[bit].value;
        assert head + (ps + [p]) == head + ps + [p];
      } else {
        assert Printed(names[..], data, bit + 1) == Printed(names[..], data, bit);
      }
    }
    line := None;
    if !first {
      ghost var ps := Printed(names[..], data, 32);
      JoinEnd(head + ps, "}");
      assert RuleWords(action, s, t, c, ps) == head + ps + ["}"];
      text := text + " " + "}";
      line := Some(text);
    }
  }

  lemma HeadText(action: Token, s: string, t: string, c: string)
    requires IsAvAction(action)
    ensures Join([ActionName(action), s, t, c, "{"]) == ActionName(action) + " " + s + " " + t + " " + c + " {"
  {
    var a := ActionName(action);
    JoinEnd([a], s);
    JoinEnd([a, s], t);
    JoinEnd([a, s, t], c);
    JoinEnd([a, s, t, c], "{");
    assert [a] + [s] == [a, s] && [a, s] + [t] == [a, s, t] && [a, s, t] + [c] == [a, s, t, c];
    assert [a, s, t, c] + ["{"] == [a, s, t, c, "{"];
    assert " " + "{" == " {";
  }

  /** A rule as it is dumped: its node at the time, and the printed permissions. */
  datatype Dumped = Dumped(key: Triple, kind: bv16, data: Word, ps: seq<string>)

  ghost predicate Printable(names: ValueNames, k: Triple) {
    names.TypeName(k.source).Some? && names.TypeName(k.target).Some? && names.Class(k.cls).Some?
  }

  /** The printed permissions name exactly the shown bits that have a name. */
  ghost predicate ShowsAll(cls: ClassDatum, kind: bv16, data: Word, ps: seq<string>) {
    exists pn: seq<Option<string>> :: NamesPerms(cls, pn) && ps == Printed(pn, Shown(kind, data), 32)
  }

  ghost predicate LineOf(names: ValueNames, d: Dumped, line: string) {
    && Printable(names, d.key) && AvKind(d.kind) && d.ps != []
    && ShowsAll(names.Class(d.key.cls).value.1, d.kind, d.data, d.ps)
    && line == Join(RuleWords(ActionOf(d.kind), names.TypeName(d.key.source).value,
                              names.TypeName(d.key.target).value, names.Class(d.key.cls).value.0, d.ps))
  }

  /** The permission names a bit that is granted, or, in a dontaudit line, not audited. */
  ghost predicate PrintedFor(cls: ClassDatum, d: Dumped, p: string) {
    exists b: nat ::
      && b < 32 && (b in d.data <==> d.kind != 0x0004)
      && ((p in cls.permissions && cls.permissions[p] == b + 1) || (p in cls.common && cls.common[p] == b + 1))
  }

  /** What a printed line says: the word of its kind, the names at the places of the values, and
    * permissions that are granted, or, in a dontaudit line, not audited. */
  lemma LineMeans(names: ValueNames, d: Dumped, line: string)
    requires LineOf(names, d, line)
    ensures var s, t, c := d.key.source, d.key.target, d.key.cls;
            && 1 <= s <= |names.types| && 1 <= t <= |names.types| && 1 <= c <= |names.classes|
            && names.types[s - 1].Some? && names.types[t - 1].Some? && names.classes[c - 1].Some?
            && var word := if d.kind == 0x0001 then "allow" else if d.kind == 0x0002 then "auditallow" else "dontaudit";
               line == Join([word, names.types[s - 1].value, names.types[t - 1].value, names.classes[c - 1].value.0,
                            "{"] + d.ps + ["}"])
    ensures forall p <- d.ps :: PrintedFor(names.classes[d.key.cls - 1].value.1, d, p)
  {
    hide Join, Printed;
    var cls := names.classes[d.key.cls - 1].value.1;
    var pn: seq<Option<string>> :| NamesPerms(cls, pn) && d.ps == Printed(pn, Shown(d.kind, d.data), 32);
    forall p <- d.ps ensures PrintedFor(cls, d, p) {
      PrintedMembers(pn, Shown(d.kind, d.data), 32, p);
      var b: nat :| b < 32 && b in Shown(d.kind, d.data) && pn[b] == Some(p);
    }
  }

  /** A rule of which nothing is printed: it lacks a name, or none of its shown bits has one. */
  ghost predicate Unprinted(names: ValueNames, k: Triple, kind: bv16, data: Word) {
    Printable(names, k) ==> ShowsAll(names.Class(k.cls).value.1, kind, data, [])
  }

  /** The access vector branch of sepol_print_avtab_rules for one node. */
  method PrintNode(names: ValueNames, n: AvNode) returns (line: Option<string>, ghost d: Dumped)
    ensures line.Some? ==>
              && AvKind(d.kind) && LineOf(names, d, line.value)
              && d.key == n.key && d.kind == n.specified && d.data == n.data
    ensures line.None? && AvKind(n.specified) ==> Unprinted(names, n.key, n.specified, n.data)
  {
    d := Dumped(n.key, n.specified, n.data, []);
    line := None;
    var src, tgt, cls := names.TypeName(n.key.source), names.TypeName(n.key.target), names.Class(n.key.cls);
    if src.None? || tgt.None? || cls.None? {
      return;
    }
    if !AvKind(n.specified) {
      return;
    }
    var permNames := PermNames(cls.value.1);
    d := Dumped(n.key, n.specified, n.data, Printed(permNames[..], Shown(n.specified, n.data), 32));
    line := PrintPerms(ActionOf(n.specified), src.value, tgt.value, cls.value.0, permNames, Shown(n.specified, n.data));
  }

  /** The printed lines and what they come from: all rules that print anything, each once. */
  ghost predicate IsDump(t: Avtab, names: ValueNames, lines: seq<string>, ds: seq<Dumped>)
    reads t`nodes, t.nodes`specified, t.nodes`data
  {
    && |lines| == |ds|
    && (forall i :: 0 <= i < |ds| ==> LineOf(names, ds[i], lines[i]))
    && (forall i :: 0 <= i < |ds| ==> HasNode(t, ds[i].key, ds[i].kind) && ds[i].data == Mask(t, ds[i].key, ds[i].kind))
    && forall n <- t.nodes :: AvKind(n.specified) ==>
         Unprinted(names, n.key, n.specified, n.data) || Lists(ds, n.key, n.specified)
  }

  ghost predicate Lists(ds: seq<Dumped>, k: Triple, kind: bv16) {
    exists i :: 0 <= i < |ds| && ds[i].key == k && ds[i].kind == kind
  }

  lemma ListsMore(ds: seq<Dumped>, d: Dumped, k: Triple, kind: bv16)
    ensures Lists(ds + [d], k, kind) <==> Lists(ds, k, kind) || (d.key == k && d.kind == kind)
  {
    var es := ds + [d];
    if Lists(ds, k, kind) {
      var i :| 0 <= i < |ds| && ds[i].key == k && ds[i].kind == kind;
      assert es[i] == ds[i];
    }
    if d.key == k && d.kind == kind {
      assert es[|ds|] == d;
    }
  }

  /** sepol_print_avtab_rules, as far as access vector rules go. */
  method PrintAvtabRules(t: Avtab, names: ValueNames) returns (lines: seq<string>, ghost ds: seq<Dumped>)
    requires t.Valid() && AvTable(t)
    ensures IsDump(t, names, lines, ds)
  {
    hide Avtab.Valid, AvTable, Unprinted, LineOf, Lists, AvKind, Mask, HasNode;
    var order := t.Walk();
    lines, ds := [], [];
    for i := 0 to |order|
      invariant |lines| == |ds|
      invariant forall j :: 0 <= j < |ds| ==> LineOf(names, ds[j], lines[j])
      invariant forall j :: 0 <= j < |ds| ==>
                  HasNode(t, ds[j].key, ds[j].kind) && ds[j].data == Mask(t, ds[j].key, ds[j].kind)
      invariant forall j :: 0 <= j < i && AvKind(order[j].specified) ==>
                  || Unprinted(names, order[j].key, order[j].specified, order[j].data)
                  || Lists(ds, order[j].key, order[j].specified)
    {
      var line;
      ghost var d;
      line, d := PrintNode(names, order[i]);
      if line.Some? {
        NodeMask(t, order[i]);
        forall j | 0 <= j <= i { ListsMore(ds, d, order[j].key, order[j].specified); }
        lines, ds := lines + [line.value], ds + [d];
      }
    }
  }

  lemma NodeMask(t: Avtab, n: AvNode)
    requires AvTable(t) && n in t.nodes && AvKind(n.specified)
    ensures HasNode(t, n.key, n.specified) && Mask(t, n.key, n.specified) == n.data
  {
  }
}
