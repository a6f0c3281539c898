/** Adding and removing access vector rules (sepol_impl.rs): add_rule_impl, expand_rule and
  * sepol_add_rule, with their wildcards.
  */
module AddRule {
  import opened AvTables
  import opened AvRules

  const TYPE_ATTRIB := 1

  /** A symbol table as its hash buckets: chains of (name, datum). */
  type Table<T> = seq<seq<(string, T)>>

  datatype TypeDatum = TypeDatum(value: nat, flavor: nat)
  datatype ClassDatum = ClassDatum(value: nat, permissions: map<string, PermValue>, common: map<string, PermValue>)

  type PermValue = v: nat | 1 <= v <= 32 witness 1

  /** The edit of one mask: set or clear one permission, or all of them.  Permission values are
    * one more than their bit. */
  function Edit(mask: Word, perm: Option<PermValue>, invert: bool): Word {
    match perm
    case Some(p) => if invert then mask - {p - 1} else mask + {p - 1}
    case None => if invert then {} else ALL_ONES
  }

  lemma EditTwice(mask: Word, perm: Option<PermValue>, invert: bool)
    ensures Edit(Edit(mask, perm, invert), perm, invert) == Edit(mask, perm, invert)
  {
  }

  predicate IsRedundant(e: bv16, data: Word) {
    if e == AUDITDENY then data == ALL_ONES else data == {}
  }

  /** The node for (`key`, `effect`), inserted with the neutral mask when it is missing; no
    * mask changes. */
  method FindOrInsert(t: Avtab, key: Triple, effect: bv16) returns (node: AvNode)
    requires t.Valid() && AvTable(t) && AvKind(effect)
    modifies t, t.htable, t.nodes`next
    ensures t.Valid() && AvTable(t) && fresh(t.nodes - old(t.nodes))
    ensures node in t.nodes && node.key == key && node.specified == effect
    ensures node.data == old(Mask(t, key, effect))
    ensures forall k :: k != key ==> HasNode(t, k, effect) == old(HasNode(t, k, effect))
    ensures forall k :: Mask(t, k, effect) == old(Mask(t, k, effect))
    ensures Others(t, effect) == old(Others(t, effect))
  {
    hide Avtab.Valid, Avtab.Group;
    var found := FindNode(t, key, effect);
    if found != null {
      node := found;
    } else {
      ghost var pos;
      node, pos := t.InsertNonunique(key, effect, Neutral(effect), None);
    }
  }

  /** Store a mask in its node and drop the node if the mask says nothing. */
  method StoreMask(t: Avtab, node: AvNode, data: Word)
    requires t.Valid() && AvTable(t) && node in t.nodes && AvKind(node.specified)
    modifies t, t.htable, t.nodes`next, node`data
    ensures t.Valid() && AvTable(t)
    ensures t.nodes == old(t.nodes) - (if IsRedundant(node.specified, data) then {node} else {})
    ensures forall k :: Mask(t, k, node.specified) ==
              if k == node.key then data else old(Mask(t, k, node.specified))
    ensures Others(t, node.specified) == old(Others(t, node.specified))
    ensures forall k :: HasNode(t, k, node.specified) ==
              if k == node.key then data != Neutral(node.specified) else old(HasNode(t, k, node.specified))
  {
    hide Avtab.Valid, Avtab.Group;
    node.data := data;
    if IsRedundant(node.specified, node.data) {
      var rc, p := t.RemoveNode(node);
    }
  }

  /** From `v` to `w`, kind `e` is edited exactly on the product of `ss`, `ts` and `cs`: there
    * the mask is edited and a node remains only for a mask that says something; nothing changes
    * anywhere else, nor for any other kind. */
  ghost predicate Edited(v: View, w: View, e: bv16, perm: Option<PermValue>, invert: bool,
                         ss: set<nat>, ts: set<nat>, cs: set<nat>)
  {
    && w.others == v.others
    && forall k: Triple ::
         && k in v.mask && k in w.mask && k in v.has && k in w.has
         && if k.source in ss && k.target in ts && k.cls in cs
            then w.mask[k] == Edit(v.mask[k], perm, invert) && w.has[k] == (w.mask[k] != Neutral(e))
            else w.mask[k] == v.mask[k] && w.has[k] == v.has[k]
  }

  lemma EditedNowhere(t: Avtab, e: bv16, perm: Option<PermValue>, invert: bool,
                      ss: set<nat>, ts: set<nat>, cs: set<nat>)
    requires ss == {} || ts == {} || cs == {}
    ensures Edited(ViewOf(t, e), ViewOf(t, e), e, perm, invert, ss, ts, cs)
  {
  }

  /** Edits of several products compose when the products fit together, overlaps included. */
  lemma EditedTwice(u: View, v: View, w: View, e: bv16, perm: Option<PermValue>, invert: bool,
                    s1: set<nat>, t1: set<nat>, c1: set<nat>, s2: set<nat>, t2: set<nat>, c2: set<nat>,
                    ss: set<nat>, ts: set<nat>, cs: set<nat>)
    requires Edited(u, v, e, perm, invert, s1, t1, c1) && Edited(v, w, e, perm, invert, s2, t2, c2)
    requires forall k: Triple :: k.source in ss && k.target in ts && k.cls in cs <==>
               (k.source in s1 && k.target in t1 && k.cls in c1) || (k.source in s2 && k.target in t2 && k.cls in c2)
    ensures Edited(u, w, e, perm, invert, ss, ts, cs)
  {
    hide Edit, Neutral;
    forall k: Triple {
      EditTwice(u.mask[k], perm, invert);
    }
  }

  /** add_rule_impl. */
  method AddRuleImpl(t: Avtab, key: Triple, perm: Option<PermValue>, effect: bv16, invert: bool)
    requires t.Valid() && AvTable(t) && AvKind(effect)
    modifies t, t.htable, t.nodes`next, t.nodes`data
    ensures t.Valid() && AvTable(t) && fresh(t.nodes - old(t.nodes))
    ensures Edited(old(ViewOf(t, effect)), ViewOf(t, effect), effect, perm, invert,
                   {key.source}, {key.target}, {key.cls})
  {
    hide Avtab.Valid, Edit, Mask, Others, HasNode;
    var node := FindOrInsert(t, key, effect);
    StoreMask(t, node, Edit(node.data, perm, invert));
  }

  /** A wildcard that only adds rules visits the attributes; one that strips them visits every
    * type, attribute and alias. */
  predicate Visited(d: TypeDatum, strip: bool) {
    strip || d.flavor == TYPE_ATTRIB
  }

  /** The values a wildcard has visited when it stands at entry `j` of bucket `i`. */
  ghost function TypesUpTo(types: Table<TypeDatum>, strip: bool, i: nat, j: nat): set<nat> {
    set a, b | 0 <= a < |types| && 0 <= b < |types[a]| && (a < i || (a == i && b < j))
               && Visited(types[a][b].1, strip) :: types[a][b].1.value
  }

  ghost function ClassesUpTo(classes: Table<ClassDatum>, i: nat, j: nat): set<nat> {
    set a, b | 0 <= a < |classes| && 0 <= b < |classes[a]| && (a < i || (a == i && b < j)) ::
      classes[a][b].1.value
  }

  /** The type values a source or target argument stands for; None is the wildcard. */
  ghost function TypeArg(d: Option<TypeDatum>, types: Table<TypeDatum>, strip: bool): set<nat> {
    if d.Some? then {d.value.value} else TypesUpTo(types, strip, |types|, 0)
  }

  ghost function ClassArg(c: Option<ClassDatum>, classes: Table<ClassDatum>): set<nat> {
    if c.Some? then {c.value.value} else ClassesUpTo(classes, |classes|, 0)
  }

  predicate StripAv(effect: bv16, invert: bool) {
    (effect == AUDITDENY) == !invert
  }

  datatype Symbols = Symbols(types: Table<TypeDatum>, classes: Table<ClassDatum>)

  /** expand_rule, once the source and the target are chosen. */
  method ExpandClass(t: Avtab, db: Symbols, src: TypeDatum, tgt: TypeDatum, cls: Option<ClassDatum>,
                     perm: Option<PermValue>, effect: bv16, invert: bool)
    requires t.Valid() && AvTable(t) && AvKind(effect)
    modifies t, t.htable, t.nodes`next, t.nodes`data
    ensures t.Valid() && AvTable(t) && fresh(t.nodes - old(t.nodes))
    ensures Edited(old(ViewOf(t, effect)), ViewOf(t, effect), effect, perm, invert,
                   {src.value}, {tgt.value}, ClassArg(cls, db.classes))
  {
    hide Avtab.Valid, AvTable, ViewOf, Edited;
    if cls.Some? {
      AddRuleImpl(t, Triple(src.value, tgt.value, cls.value.value), perm, effect, invert);
      return;
    }
    EditedNowhere(t, effect, perm, invert, {src.value}, {tgt.value}, ClassesUpTo(db.classes, 0, 0));
    for i := 0 to |db.classes|
      invariant t.Valid() && AvTable(t) && fresh(t.nodes - old(t.nodes))
      invariant Edited(old(ViewOf(t, effect)), ViewOf(t, effect), effect, perm, invert,
                       {src.value}, {tgt.value}, ClassesUpTo(db.classes, i, 0))
    {
      for j := 0 to |db.classes[i]|
        invariant t.Valid() && AvTable(t) && fresh(t.nodes - old(t.nodes))
        invariant Edited(old(ViewOf(t, effect)), ViewOf(t, effect), effect, perm, invert,
                         {src.value}, {tgt.value}, ClassesUpTo(db.classes, i, j))
      {
        var d := db.classes[i][j].1;
        ghost var v := ViewOf(t, effect);
        AddRuleImpl(t, Triple(src.value, tgt.value, d.value), perm, effect, invert);
        assert ClassesUpTo(db.classes, i, j + 1) == ClassesUpTo(db.classes, i, j) + {d.value};
        EditedTwice(old(ViewOf(t, effect)), v, ViewOf(t, effect), effect, perm, invert,
                    {src.value}, {tgt.value}, ClassesUpTo(db.classes, i, j),
                    {src.value}, {tgt.value}, {d.value},
                    {src.value}, {tgt.value}, ClassesUpTo(db.classes, i, j + 1));
      }
      assert ClassesUpTo(db.classes, i, |db.classes[i]|) == ClassesUpTo(db.classes, i + 1, 0);
    }
  }

  /** expand_rule, once the source is chosen. */
  method ExpandTarget(t: Avtab, db: Symbols, src: TypeDatum, tgt: Option<TypeDatum>, cls: Option<ClassDatum>,
                      perm: Option<PermValue>, effect: bv16, invert: bool)
    requires t.Valid() && AvTable(t) && AvKind(effect)
    modifies t, t.htable, t.nodes`next, t.nodes`data
    ensures t.Valid() && AvTable(t) && fresh(t.nodes - old(t.nodes))
    ensures Edited(old(ViewOf(t, effect)), ViewOf(t, effect), effect, perm, invert,
                   {src.value}, TypeArg(tgt, db.types, StripAv(effect, invert)), ClassArg(cls, db.classes))
  {
    hide Avtab.Valid, AvTable, ViewOf, Edited;
    var strip := StripAv(effect, invert);
    if tgt.Some? {
      ExpandClass(t, db, src, tgt.value, cls, perm, effect, invert);
      return;
    }
    EditedNowhere(t, effect, perm, invert, {src.value}, TypesUpTo(db.types, strip, 0, 0), ClassArg(cls, db.classes));
    for i := 0 to |db.types|
      invariant t.Valid() && AvTable(t) && fresh(t.nodes - old(t.nodes))
      invariant Edited(old(ViewOf(t, effect)), ViewOf(t, effect), effect, perm, invert,
                       {src.value}, TypesUpTo(db.types, strip, i, 0), ClassArg(cls, db.classes))
    {
      for j := 0 to |db.types[i]|
        invariant t.Valid() && AvTable(t) && fresh(t.nodes - old(t.nodes))
        invariant Edited(old(ViewOf(t, effect)), ViewOf(t, effect), effect, perm, invert,
                         {src.value}, TypesUpTo(db.types, strip, i, j), ClassArg(cls, db.classes))
      {
        var d := db.types[i][j].1;
        if !Visited(d, strip) {
          assert TypesUpTo(db.types, strip, i, j + 1) == TypesUpTo(db.types, strip, i, j);
          continue;
        }
        ghost var v := ViewOf(t, effect);
        ExpandClass(t, db, src, d, cls, perm, effect, invert);
        assert TypesUpTo(db.types, strip, i, j + 1) == TypesUpTo(db.types, strip, i, j) + {d.value};
        EditedTwice(old(ViewOf(t, effect)), v, ViewOf(t, effect), effect, perm, invert,
                    {src.value}, TypesUpTo(db.types, strip, i, j), ClassArg(cls, db.classes),
                    {src.value}, {d.value}, ClassArg(cls, db.classes),
                    {src.value}, TypesUpTo(db.types, strip, i, j + 1), ClassArg(cls, db.classes));
      }
      assert TypesUpTo(db.types, strip, i, |db.types[i]|) == TypesUpTo(db.types, strip, i + 1, 0);
    }
  }

  /** expand_rule: the edit happens exactly on the product of what the three arguments stand for. */
  method ExpandRule(t: Avtab, db: Symbols, src: Option<TypeDatum>, tgt: Option<TypeDatum>, cls: Option<ClassDatum>,
                    perm: Option<PermValue>, effect: bv16, invert: bool)
    requires t.Valid() && AvTable(t) && AvKind(effect)
    modifies t, t.htable, t.nodes`next, t.nodes`data
    ensures t.Valid() && AvTable(t) && fresh(t.nodes - old(t.nodes))
    ensures Edited(old(ViewOf(t, effect)), ViewOf(t, effect), effect, perm, invert,
                   TypeArg(src, db.types, StripAv(effect, invert)),
                   TypeArg(tgt, db.types, StripAv(effect, invert)), ClassArg(cls, db.classes))
  {
    hide Avtab.Valid, AvTable, ViewOf, Edited;
    var strip := StripAv(effect, invert);
    if src.Some? {
      ExpandTarget(t, db, src.value, tgt, cls, perm, effect, invert);
      return;
    }
    EditedNowhere(t, effect, perm, invert, TypesUpTo(db.types, strip, 0, 0), TypeArg(tgt, db.types, strip),
      ClassArg(cls, db.classes));
    for i := 0 to |db.types|
      invariant t.Valid() && AvTable(t) && fresh(t.nodes - old(t.nodes))
      invariant Edited(old(ViewOf(t, effect)), ViewOf(t, effect), effect, perm, invert,
                       TypesUpTo(db.types, strip, i, 0), TypeArg(tgt, db.types, strip), ClassArg(cls, db.classes))
    {
      for j := 0 to |db.types[i]|
        invariant t.Valid() && AvTable(t) && fresh(t.nodes - old(t.nodes))
        invariant Edited(old(ViewOf(t, effect)), ViewOf(t, effect), effect, perm, invert,
                         TypesUpTo(db.types, strip, i, j), TypeArg(tgt, db.types, strip), ClassArg(cls, db.classes))
      {
        var d := db.types[i][j].1;
        if !Visited(d, strip) {
          assert TypesUpTo(db.types, strip, i, j + 1) == TypesUpTo(db.types, strip, i, j);
          continue;
        }
        ghost var v := ViewOf(t, effect);
        ExpandTarget(t, db, d, tgt, cls, perm, effect, invert);
        assert TypesUpTo(db.types, strip, i, j + 1) == TypesUpTo(db.types, strip, i, j) + {d.value};
        EditedTwice(old(ViewOf(t, effect)), v, ViewOf(t, effect), effect, perm, invert,
                    TypesUpTo(db.types, strip, i, j), TypeArg(tgt, db.types, strip), ClassArg(cls, db.classes),
                    {d.value}, TypeArg(tgt, db.types, strip), ClassArg(cls, db.classes),
                    TypesUpTo(db.types, strip, i, j + 1), TypeArg(tgt, db.types, strip), ClassArg(cls, db.classes));
      }
      assert TypesUpTo(db.types, strip, i, |db.types[i]|) == TypesUpTo(db.types, strip, i + 1, 0);
    }
  }

  /** hashtab_search: the entry of that name. */
  function Find<T>(table: Table<T>, name: string): Option<T> {
    if table == [] then None
    else
      var found := FindInChain(table[0], name);
      if found.Some? then found else Find(table[1..], name)
  }

  function FindInChain<T>(chain: seq<(string, T)>, name: string): Option<T> {
    if chain == [] then None
    else if chain[0].0 == name then Some(chain[0].1) else FindInChain(chain[1..], name)
  }

  /** find_perm: the class's own permissions come before the inherited ones. */
  function FindPerm(cls: ClassDatum, name: string): Option<PermValue> {
    if name in cls.permissions then Some(cls.permissions[name])
    else if name in cls.common then Some(cls.common[name]) else None
  }

  datatype Args = Args(src: Option<TypeDatum>, tgt: Option<TypeDatum>, cls: Option<ClassDatum>,
                       perm: Option<PermValue>)

  /** What the names of a rule stand for: the empty name is a wildcard, an unknown name is an
    * error, and so is a permission without a class. */
  function Resolve(db: Symbols, s: string, t: string, c: string, p: string): Option<Args> {
    var src, tgt, cls := Find(db.types, s), Find(db.types, t), Find(db.classes, c);
    if (s != "" && src.None?) || (t != "" && tgt.None?) || (c != "" && cls.None?)
       || (p != "" && (c == "" || FindPerm(cls.value, p).None?))
    then None
    else Some(Args(if s == "" then None else src, if t == "" then None else tgt,
                   if c == "" then None else cls, if p == "" then None else FindPerm(cls.value, p)))
  }

  // What the names of a rule mean.

  /** The datum is that of the first entry of the name, in hash table order. */
  ghost predicate FirstNamed<T(!new)>(table: Table<T>, name: string, d: T) {
    exists a, b :: 0 <= a < |table| && 0 <= b < |table[a]| && table[a][b] == (name, d)
                   && forall i, j :: 0 <= i < |table| && 0 <= j < |table[i]| && table[i][j].0 == name ==>
                        i > a || (i == a && j >= b)
  }

  ghost predicate Named<T(!new)>(table: Table<T>, name: string) {
    exists a, b :: 0 <= a < |table| && 0 <= b < |table[a]| && table[a][b].0 == name
  }

  lemma {:induction false} FindInChainFirst<T(!new)>(chain: seq<(string, T)>, name: string)
    ensures match FindInChain(chain, name)
            case None => forall j :: 0 <= j < |chain| ==> chain[j].0 != name
            case Some(d) => exists b :: 0 <= b < |chain| && chain[b] == (name, d) && forall j :: 0 <= j < b ==>
              chain[j].0 != name
  {
    if chain != [] && chain[0].0 != name {
      FindInChainFirst(chain[1..], name);
      match FindInChain(chain[1..], name)
      case None =>
        forall j | 0 <= j < |chain| ensures chain[j].0 != name { assert j > 0 ==> chain[j] == chain[1..][j - 1]; }
      case Some(d) =>
        var b :| 0 <= b < |chain| - 1 && chain[1..][b] == (name, d) && forall j :: 0 <= j < b ==>
            chain[1..][j].0 != name;
        forall j | 0 <= j < b + 1 ensures chain[j].0 != name { assert j > 0 ==> chain[j] == chain[1..][j - 1]; }
        assert chain[b + 1] == (name, d);
    }
  }

  /** hashtab_search finds the first entry of the name, wherever it is. */
  lemma {:induction false} FindIsFirst<T(!new)>(table: Table<T>, name: string)
    ensures Find(table, name).Some? <==> Named(table, name)
    ensures Find(table, name).Some? ==> FirstNamed(table, name, Find(table, name).value)
  {
    if table != [] {
      FindInChainFirst(table[0], name);
      if FindInChain(table[0], name).None? {
        FindIsFirst(table[1..], name);
        FindFurther(table, name);
      } else {
        var d := FindInChain(table[0], name).value;
        var b :| 0 <= b < |table[0]| && table[0][b] == (name, d) && forall j :: 0 <= j < b ==> table[0][j].0 != name;
        assert table[0][b].0 == name;
      }
    }
  }

  lemma FindFurther<T(!new)>(table: Table<T>, name: string)
    requires table != [] && forall j :: 0 <= j < |table[0]| ==> table[0][j].0 != name
    ensures Named(table, name) <==> Named(table[1..], name)
    ensures forall d :: FirstNamed(table[1..], name, d) ==> FirstNamed(table, name, d)
  {
    var rest := table[1..];
    if Named(table, name) {
      var a, b :| 0 <= a < |table| && 0 <= b < |table[a]| && table[a][b].0 == name;
      assert rest[a - 1] == table[a];
    }
    if Named(rest, name) {
      var a, b :| 0 <= a < |rest| && 0 <= b < |rest[a]| && rest[a][b].0 == name;
      assert table[a + 1] == rest[a];
    }
    forall d | FirstNamed(rest, name, d) ensures FirstNamed(table, name, d) {
      var a, b :| 0 <= a < |rest| && 0 <= b < |rest[a]| && rest[a][b] == (name, d)
                  && forall i, j :: 0 <= i < |rest| && 0 <= j < |rest[i]| && rest[i][j].0 == name ==>
                    i > a || (i == a && j >= b);
      forall i, j | 0 <= i < |table| && 0 <= j < |table[i]| && table[i][j].0 == name
          ensures i > a + 1 || (i == a + 1 && j >= b) {
        assert rest[i - 1] == table[i];
      }
      assert table[a + 1][b] == (name, d);
    }
  }

  lemma FirstIsOne<T(!new)>(table: Table<T>, name: string, d: T, e: T)
    requires FirstNamed(table, name, d) && FirstNamed(table, name, e)
    ensures d == e
  {
    var a, b :| 0 <= a < |table| && 0 <= b < |table[a]| && table[a][b] == (name, d)
                && forall i, j :: 0 <= i < |table| && 0 <= j < |table[i]| && table[i][j].0 == name ==>
                  i > a || (i == a && j >= b);
    var x, y :| 0 <= x < |table| && 0 <= y < |table[x]| && table[x][y] == (name, e)
                && forall i, j :: 0 <= i < |table| && 0 <= j < |table[i]| && table[i][j].0 == name ==>
                  i > x || (i == x && j >= y);
  }

  /** The type value is meant: that of the name, or, by a wildcard, that of any entry, but for a
    * rule that adds permissions only that of an attribute. */
  ghost predicate TypeMeant(types: Table<TypeDatum>, name: string, adds: bool, v: nat) {
    if name != "" then exists d :: FirstNamed(types, name, d) && d.value == v
    else exists a, b :: 0 <= a < |types| && 0 <= b < |types[a]| && types[a][b].1.value == v
                        && (adds ==> types[a][b].1.flavor == 1)
  }

  ghost predicate ClassMeant(classes: Table<ClassDatum>, name: string, v: nat) {
    if name != "" then exists d :: FirstNamed(classes, name, d) && d.value == v
    else exists a, b :: 0 <= a < |classes| && 0 <= b < |classes[a]| && classes[a][b].1.value == v
  }

  /** The class has the permission at bit `b`, by a name of its own or else an inherited one. */
  ghost predicate HasPerm(d: ClassDatum, p: string, b: int) {
    if p in d.permissions then d.permissions[p] == b + 1 else p in d.common && d.common[p] == b + 1
  }

  /** The bit is meant: that of the named permission, or, by a wildcard, any. */
  ghost predicate BitMeant(classes: Table<ClassDatum>, c: string, p: string, b: int) {
    p == "" || exists d :: FirstNamed(classes, c, d) && HasPerm(d, p, b)
  }

  /** The rule is about bit `b` of `k`. */
  ghost predicate Meant(db: Symbols, s: string, tg: string, c: string, p: string, adds: bool, k: Triple, b: int) {
    && TypeMeant(db.types, s, adds, k.source) && TypeMeant(db.types, tg, adds, k.target)
    && ClassMeant(db.classes, c, k.cls) && BitMeant(db.classes, c, p, b)
  }

  /** All names are known. */
  ghost predicate Known(db: Symbols, s: string, tg: string, c: string, p: string) {
    && (s == "" || Named(db.types, s)) && (tg == "" || Named(db.types, tg)) && (c == "" || Named(db.classes, c))
    && (p == "" || (c != "" && exists d :: FirstNamed(db.classes, c, d) && (p in d.permissions || p in d.common)))
  }

  lemma TypeArgIsMeant(types: Table<TypeDatum>, name: string, strip: bool, v: nat)
    requires name == "" || Find(types, name).Some?
    ensures v in TypeArg(if name == "" then None else Find(types, name), types, strip) <==>
            TypeMeant(types, name, !strip, v)
  {
    if name != "" {
      FindIsFirst(types, name);
      var d := Find(types, name).value;
      if TypeMeant(types, name, !strip, v) {
        var e :| FirstNamed(types, name, e) && e.value == v;
        FirstIsOne(types, name, d, e);
      }
    }
  }

  lemma ClassArgIsMeant(classes: Table<ClassDatum>, name: string, v: nat)
    requires name == "" || Find(classes, name).Some?
    ensures v in ClassArg(if name == "" then None else Find(classes, name), classes) <==> ClassMeant(classes, name, v)
  {
    if name != "" {
      FindIsFirst(classes, name);
      var d := Find(classes, name).value;
      if ClassMeant(classes, name, v) {
        var e :| FirstNamed(classes, name, e) && e.value == v;
        FirstIsOne(classes, name, d, e);
      }
    }
  }

  lemma ResolveIsKnown(db: Symbols, s: string, tg: string, c: string, p: string)
    ensures Resolve(db, s, tg, c, p).Some? <==> Known(db, s, tg, c, p)
  {
    hide Find, FirstNamed, Named;
    FindIsFirst(db.types, s);
    FindIsFirst(db.types, tg);
    FindIsFirst(db.classes, c);
    if c != "" && Named(db.classes, c) {
      var d := Find(db.classes, c).value;
      forall e | FirstNamed(db.classes, c, e) ensures e == d { FirstIsOne(db.classes, c, d, e); }
    }
    forall e | FirstNamed(db.classes, c, e) ensures Named(db.classes, c) { FirstIsNamed(db.classes, c, e); }
  }

  lemma FirstIsNamed<T(!new)>(table: Table<T>, name: string, d: T)
    requires FirstNamed(table, name, d)
    ensures Named(table, name)
  {
  }

  lemma PermIsMeant(db: Symbols, s: string, tg: string, c: string, p: string, b: int)
    requires Resolve(db, s, tg, c, p).Some? && p != ""
    ensures Resolve(db, s, tg, c, p).value.perm.Some?
    ensures Resolve(db, s, tg, c, p).value.perm.value == b + 1 <==> BitMeant(db.classes, c, p, b)
  {
    hide Find, FirstNamed, Named;
    FindIsFirst(db.classes, c);
    var d := Find(db.classes, c).value;
    forall e | FirstNamed(db.classes, c, e) ensures e == d { FirstIsOne(db.classes, c, d, e); }
  }

  /** What a rule does to a mask, bit by bit. */
  lemma EditIsMeant(v: View, w: View, db: Symbols, s: string, tg: string, c: string, p: string, e: bv16, invert: bool,
                    k: Triple, b: int)
    requires Resolve(db, s, tg, c, p).Some? && 0 <= b < 32
    requires var args, strip := Resolve(db, s, tg, c, p).value, StripAv(e, invert);
             Edited(v, w, e, args.perm, invert, TypeArg(args.src, db.types, strip), TypeArg(args.tgt, db.types, strip),
                    ClassArg(args.cls, db.classes))
    ensures k in v.mask && k in w.mask
    ensures b in w.mask[k] <==> if Meant(db, s, tg, c, p, !StripAv(e, invert), k, b) then !invert else b in v.mask[k]
  {
    hide TypeArg, ClassArg, TypeMeant, ClassMeant, BitMeant, Edited, Find;
    var args, strip := Resolve(db, s, tg, c, p).value, StripAv(e, invert);
    MaskAfterEdit(v, w, e, args.perm, invert, TypeArg(args.src, db.types, strip), TypeArg(args.tgt, db.types, strip),
                  ClassArg(args.cls, db.classes), k);
    TypeArgIsMeant(db.types, s, strip, k.source);
    TypeArgIsMeant(db.types, tg, strip, k.target);
    ClassArgIsMeant(db.classes, c, k.cls);
    if p == "" {
      assert BitMeant(db.classes, c, p, b) by { WildcardBit(db.classes, c, b); }
    } else {
      PermIsMeant(db, s, tg, c, p, b);
    }
  }

  lemma WildcardBit(classes: Table<ClassDatum>, c: string, b: int)
    ensures BitMeant(classes, c, "", b)
  {
  }

  /** A rule adds permissions to what is allowed or audited, and, for auditdeny, takes them from
    * what is audited. */
  predicate Adds(e: bv16, invert: bool) {
    if invert then e == 0x0004 else e == 0x0001 || e == 0x0002
  }

  lemma AddsIsNotStrip(e: bv16, invert: bool)
    requires AvKind(e)
    ensures Adds(e, invert) <==> !StripAv(e, invert)
  {
  }

  /** The values a symbol table has. */
  ghost predicate TypeIn(types: Table<TypeDatum>, v: nat) {
    exists a, b :: 0 <= a < |types| && 0 <= b < |types[a]| && types[a][b].1.value == v
  }

  ghost predicate ClassIn(classes: Table<ClassDatum>, v: nat) {
    exists a, b :: 0 <= a < |classes| && 0 <= b < |classes[a]| && classes[a][b].1.value == v
  }

  /** No allow rule is left between types of the policy for a class of the policy. */
  ghost predicate NothingAllowed(t: Avtab, db: Symbols)
    reads t`nodes, t.nodes`specified
  {
    forall n <- t.nodes :: n.specified == ALLOWED ==>
      !(TypeIn(db.types, n.key.source) && TypeIn(db.types, n.key.target) && ClassIn(db.classes, n.key.cls))
  }

  lemma WildcardValues(db: Symbols, v: nat)
    ensures v in TypeArg(None, db.types, true) <==> TypeIn(db.types, v)
    ensures v in ClassArg(None, db.classes) <==> ClassIn(db.classes, v)
  {
  }

  /** A fully wildcarded deny leaves nothing allowed. */
  lemma DenyAllLeavesNothing(t: Avtab, db: Symbols, v: View)
    requires Edited(v, ViewOf(t, ALLOWED), ALLOWED, None, true,
                    TypeArg(None, db.types, true), TypeArg(None, db.types, true), ClassArg(None, db.classes))
    ensures NothingAllowed(t, db)
  {
    hide TypeArg, ClassArg, TypeIn, ClassIn;
    forall n <- t.nodes | n.specified == ALLOWED
      ensures !(TypeIn(db.types, n.key.source) && TypeIn(db.types, n.key.target) && ClassIn(db.classes, n.key.cls))
    {
      WildcardValues(db, n.key.source);
      WildcardValues(db, n.key.target);
      WildcardValues(db, n.key.cls);
      assert HasNode(t, n.key, ALLOWED) && ViewOf(t, ALLOWED).has[n.key];
    }
  }

  lemma ViewTells(t: Avtab, e: bv16)
    requires AvTable(t)
    ensures forall k: Triple :: k in ViewOf(t, e).mask && ViewOf(t, e).mask[k] == Mask(t, k, e)
    ensures forall k: Triple, f: bv16 :: AvKind(f) && f != e ==> Mask(t, k, f) == MaskAmong(ViewOf(t, e).others, k, f)
  {
    hide Mask, MaskAmong, Others;
    forall k: Triple, f: bv16 | AvKind(f) && f != e ensures Mask(t, k, f) == MaskAmong(ViewOf(t, e).others, k, f) {
      MaskOfOther(t, e, k, f);
    }
  }

  lemma OthersStay(v: View, w: View, e: bv16, perm: Option<PermValue>, invert: bool,
                   ss: set<nat>, ts: set<nat>, cs: set<nat>)
    requires Edited(v, w, e, perm, invert, ss, ts, cs)
    ensures w.others == v.others
  {
  }

  lemma MasksAreMeant(t: Avtab, v: View, db: Symbols, s: string, tg: string, c: string, p: string, e: bv16,
      invert: bool)
    requires Resolve(db, s, tg, c, p).Some? && AvKind(e)
    requires var args, strip := Resolve(db, s, tg, c, p).value, StripAv(e, invert);
             Edited(v, ViewOf(t, e), e, args.perm, invert, TypeArg(args.src, db.types, strip),
                    TypeArg(args.tgt, db.types, strip), ClassArg(args.cls, db.classes))
    ensures forall k: Triple :: k in v.mask
    ensures forall k: Triple, b: int :: 0 <= b < 32 ==>
              (b in Mask(t, k, e) <==> if Meant(db, s, tg, c, p, Adds(e, invert), k, b) then !invert
                else b in v.mask[k])
  {
    hide Edited, Resolve, Meant, TypeArg, ClassArg, Mask, Others, HasNode;
    AddsIsNotStrip(e, invert);
    forall k: Triple, b: int | 0 <= b < 32
      ensures k in v.mask
      ensures b in Mask(t, k, e) <==> if Meant(db, s, tg, c, p, Adds(e, invert), k, b) then !invert else b in v.mask[k]
    {
      EditIsMeant(v, ViewOf(t, e), db, s, tg, c, p, e, invert, k, b);
      assert ViewOf(t, e).mask[k] == Mask(t, k, e);
    }
    forall k: Triple ensures k in v.mask {
      EditIsMeant(v, ViewOf(t, e), db, s, tg, c, p, e, invert, k, 0);
    }
  }

  /** sepol_add_rule: with resolvable names, exactly the product is edited; otherwise nothing. */
  method SepolAddRule(t: Avtab, db: Symbols, s: string, tg: string, c: string, p: string,
                      effect: bv16, invert: bool)
    returns (rc: int)
    requires t.Valid() && AvTable(t) && AvKind(effect)
    modifies t, t.htable, t.nodes`next, t.nodes`data
    ensures t.Valid() && AvTable(t) && fresh(t.nodes - old(t.nodes))
    ensures rc == if Resolve(db, s, tg, c, p).None? then -1 else 0
    ensures rc == -1 ==> ViewOf(t, effect) == old(ViewOf(t, effect))
    ensures rc == 0 ==>
              var args, strip := Resolve(db, s, tg, c, p).value, StripAv(effect, invert);
              Edited(old(ViewOf(t, effect)), ViewOf(t, effect), effect, args.perm, invert,
                     TypeArg(args.src, db.types, strip), TypeArg(args.tgt, db.types, strip),
                     ClassArg(args.cls, db.classes))
    ensures s == tg == c == p == "" && effect == ALLOWED && invert ==> NothingAllowed(t, db)
    ensures rc == if Known(db, s, tg, c, p) then 0 else -1
    ensures rc == 0 ==> forall k: Triple, b: int :: 0 <= b < 32 ==>
              (b in Mask(t, k, effect) <==>
               if Meant(db, s, tg, c, p, Adds(effect, invert), k, b) then !invert else b in old(Mask(t, k, effect)))
    ensures forall k: Triple, f: bv16 :: AvKind(f) && (f != effect || rc == -1) ==> Mask(t, k, f) == old(Mask(t, k, f))
  {
    hide Avtab.Valid, AvTable, ViewOf, Edited, NothingAllowed, TypeArg, ClassArg, Meant, Known, Mask;
    ResolveIsKnown(db, s, tg, c, p);
    var src := if s != "" then Find(db.types, s) else None;
    var tgt := if tg != "" then Find(db.types, tg) else None;
    var cls := if c != "" then Find(db.classes, c) else None;
    var perm := if p != "" && cls.Some? then FindPerm(cls.value, p) else None;
    if (s != "" && src.None?) || (tg != "" && tgt.None?) || (c != "" && cls.None?) || (p != "" && perm.None?) {
      return -1;
    }
    ghost var was := ViewOf(t, effect);
    ViewTells(t, effect);
    ExpandRule(t, db, src, tgt, cls, perm, effect, invert);
    ViewTells(t, effect);
    OthersStay(was, ViewOf(t, effect), effect, perm, invert, TypeArg(src, db.types, StripAv(effect, invert)),
               TypeArg(tgt, db.types, StripAv(effect, invert)), ClassArg(cls, db.classes));
    MasksAreMeant(t, was, db, s, tg, c, p, effect, invert);
    if s == tg == c == p == "" && effect == ALLOWED && invert {
      DenyAllLeavesNothing(t, db, was);
    }
    rc := 0;
  }

  /** Removing a permission right after adding it on the same product gives a triple its old mask
    * back exactly when the permission was not there before; outside the product always. */
  lemma AddThenRemove(u: View, v: View, w: View, p: PermValue, ss: set<nat>, ts: set<nat>, cs: set<nat>,
                      k: Triple)
    requires Edited(u, v, ALLOWED, Some(p), false, ss, ts, cs)
    requires Edited(v, w, ALLOWED, Some(p), true, ss, ts, cs)
    ensures w.mask[k] == u.mask[k] <==>
            (k.source in ss && k.target in ts && k.cls in cs ==> p - 1 !in u.mask[k])
  {
    hide Neutral, Edited;
    MaskAfterEdit(u, v, ALLOWED, Some(p), false, ss, ts, cs, k);
    MaskAfterEdit(v, w, ALLOWED, Some(p), true, ss, ts, cs, k);
  }

  lemma MaskAfterEdit(v: View, w: View, e: bv16, perm: Option<PermValue>, invert: bool,
                      ss: set<nat>, ts: set<nat>, cs: set<nat>, k: Triple)
    requires Edited(v, w, e, perm, invert, ss, ts, cs)
    ensures k in v.mask && k in w.mask
    ensures w.mask[k] == if k.source in ss && k.target in ts && k.cls in cs
                         then Edit(v.mask[k], perm, invert) else v.mask[k]
  {
    hide Edit, Neutral;
  }
}
