/** Dump and reload: the printed access vector rules of a table, read by the statement parser and
  * applied to an empty table, give back the masks of the dumped table.
  */
module Reload {
  import opened AvTables
  import opened AvRules
  import opened AddRule
  import opened RuleLists
  import S = Statement
  import opened Dump

  function EffectOf(action: S.Token): (bv16, bool)
    requires S.IsAvAction(action)
  {
    match action
    case AL => (ALLOWED, false)
    case DN => (ALLOWED, true)
    case AA => (AUDITALLOW, false)
    case _ => (AUDITDENY, true)
  }

  ghost function RulesOf(cmd: S.AvCommand): set<RuleLists.Names> {
    Product(ExpandWildcard(cmd.s), ExpandWildcard(cmd.t), ExpandWildcard(cmd.c), ExpandWildcard(cmd.p))
  }

  /** What a statement does to the masks: a syntax error or a comment does nothing. */
  ghost predicate Executed(v: Masks, w: Masks, db: Symbols, statement: string) {
    var words := S.Words(statement);
    var cmd := if words == [] || (words[0] != "" && words[0][0] == '#') then None else S.AvStatement(S.Tokens(words));
    if cmd.Some? && S.IsAvAction(cmd.value.action)
    then Applied(v, w, db, RulesOf(cmd.value), EffectOf(cmd.value.action).0, EffectOf(cmd.value.action).1)
    else w == v
  }

  // What each of the four actions means.

  ghost predicate Meant(db: Symbols, cmd: S.AvCommand, adds: bool, k: Triple, b: int) {
    AnyMeant(db, cmd.s, cmd.t, cmd.c, cmd.p, adds, k, b)
  }

  /** The masks of all other kinds stay. */
  ghost predicate OthersStay(v: Masks, w: Masks, e: bv16) {
    forall k: Triple, f: bv16 | AvKind(f) :: (k, f) in v && (k, f) in w && (f != e ==> w[(k, f)] == v[(k, f)])
  }

  ghost predicate Allowed(v: Masks, w: Masks, db: Symbols, cmd: S.AvCommand, e: bv16) {
    && OthersStay(v, w, e)
    && forall k: Triple, b: int :: 0 <= b < 32 ==>
         (k, e) in v && (k, e) in w && (b in w[(k, e)] <==> b in v[(k, e)] || Meant(db, cmd, true, k, b))
  }

  ghost predicate Denied(v: Masks, w: Masks, db: Symbols, cmd: S.AvCommand, e: bv16, adds: bool) {
    && OthersStay(v, w, e)
    && forall k: Triple, b: int :: 0 <= b < 32 ==>
         (k, e) in v && (k, e) in w && (b in w[(k, e)] <==> b in v[(k, e)] && !Meant(db, cmd, adds, k, b))
  }

  /** An allow adds to what is allowed and an auditallow to what is audited when granted; a deny takes
    * from what is allowed, and a dontaudit from what is audited when denied. A wildcard type of a
    * deny is any type, of the others any attribute. */
  ghost predicate Obeyed(v: Masks, w: Masks, db: Symbols, cmd: S.AvCommand) {
    && (cmd.action == S.AL ==> Allowed(v, w, db, cmd, 0x0001))
    && (cmd.action == S.DN ==> Denied(v, w, db, cmd, 0x0001, false))
    && (cmd.action == S.AA ==> Allowed(v, w, db, cmd, 0x0002))
    && (cmd.action == S.DA ==> Denied(v, w, db, cmd, 0x0004, true))
  }

  lemma DoneIsObeyed(v: Masks, w: Masks, db: Symbols, cmd: S.AvCommand)
    requires S.IsAvAction(cmd.action)
    requires Done(v, w, db, cmd.s, cmd.t, cmd.c, cmd.p, EffectOf(cmd.action).0, EffectOf(cmd.action).1)
    ensures Obeyed(v, w, db, cmd)
  {
    hide AnyMeant;
  }

  /** What is denied right after it was allowed is not allowed. */
  lemma AllowThenDeny(u: Masks, v: Masks, w: Masks, db: Symbols, cmd: S.AvCommand, k: Triple, b: int)
    requires cmd.action == S.AL && Obeyed(u, v, db, cmd) && Obeyed(v, w, db, cmd.(action := S.DN)) && 0 <= b < 32
    ensures (k, ALLOWED) in u && (k, ALLOWED) in w
    ensures Meant(db, cmd, true, k, b) ==> b !in w[(k, ALLOWED)]
    ensures !Meant(db, cmd, false, k, b) ==> (b in w[(k, ALLOWED)] <==> b in u[(k, ALLOWED)])
  {
    hide AnyMeant;
    var deny := cmd.(action := S.DN);
    AddsIsPart(db, cmd.s, cmd.t, cmd.c, cmd.p, k, b);
    assert Denied(v, w, db, deny, ALLOWED, false) && Allowed(u, v, db, cmd, ALLOWED);
    assert Meant(db, deny, false, k, b) <==> Meant(db, cmd, false, k, b);
  }

  /** A wildcard that stands for the attributes only stands for no more than one for all types. */
  lemma AddsIsPart(db: Symbols, s: seq<string>, t: seq<string>, c: seq<string>, p: seq<string>, k: Triple, b: int)
    ensures AnyMeant(db, s, t, c, p, true, k, b) ==> AnyMeant(db, s, t, c, p, false, k, b)
  {
    hide Known, ClassMeant, BitMeant, TypeMeant;
    if AnyMeant(db, s, t, c, p, true, k, b) {
      var x, y, z, w :| Listed(s, x) && Listed(t, y) && Listed(c, z) && Listed(p, w)
                        && Known(db, x, y, z, w) && AddRule.Meant(db, x, y, z, w, true, k, b);
      TypePart(db.types, x, k.source);
      TypePart(db.types, y, k.target);
      assert AddRule.Meant(db, x, y, z, w, false, k, b);
    }
  }

  lemma TypePart(types: Table<TypeDatum>, name: string, v: nat)
    ensures TypeMeant(types, name, true, v) ==> TypeMeant(types, name, false, v)
  {
  }

  /** parse_statement and exec_statement, for access vector statements. Trimming the statement
    * first does not change its words. */
  method ParseStatement(t: Avtab, db: Symbols, statement: string)
    requires t.Valid() && AvTable(t)
    requires var tokens := S.Tokens(S.Words(statement)); tokens == [] || S.IsAvAction(tokens[0])
    modifies t, t.htable, t.nodes`next, t.nodes`data
    ensures t.Valid() && AvTable(t) && fresh(t.nodes - old(t.nodes))
    ensures Executed(old(AllMasks(t)), AllMasks(t), db, statement)
    ensures var words := S.Words(statement);
            var cmd := S.AvStatement(S.Tokens(words));
            && (words == [] || words[0] == "" || words[0][0] == '#' || cmd.None? ==> AllMasks(t) == old(AllMasks(t)))
            && (words != [] && words[0] != "" && words[0][0] != '#' && cmd.Some? ==>
                  Obeyed(old(AllMasks(t)), AllMasks(t), db, cmd.value))
  {
    hide Avtab.Valid, AvTable, Applied, AllMasks, Product, S.Words, S.Tokens, S.AvStatement, ExpandWildcard;
    hide Done, Obeyed;
    S.WordsAreWords(statement);
    var words := S.Words(statement);
    if words == [] || (words[0] != "" && words[0][0] == '#') {
      return;
    }
    var tokens := S.TokenizeStatement(statement);
    if tokens == [] {
      StatementAction(tokens);
      return;
    }
    var ts := new S.TokenStream(tokens);
    var next := ts.Next();
    var action := next.value;
    assert [action] + tokens[1..] == tokens;
    var cmd := S.ParseAv(action, ts);
    StatementAction(tokens);
    if cmd.Some? {
      var (e, invert) := EffectOf(action);
      AddRules(t, db, cmd.value.s, cmd.value.t, cmd.value.c, cmd.value.p, e, invert);
      DoneIsObeyed(old(AllMasks(t)), AllMasks(t), db, cmd.value);
    }
  }

  lemma StatementAction(tokens: seq<S.Token>)
    ensures S.AvStatement(tokens).Some? ==>
              tokens != [] && S.IsAvAction(tokens[0]) && S.AvStatement(tokens).value.action == tokens[0]
  {
    hide S.Sterm;
  }

  function BitOf(v: PermValue): (b: nat)
    ensures b < 32 && b + 1 == v
  {
    var n: int := v; n - 1
  }

  /** An inherited permission whose name the class has itself is never printed under that name,
    * because its bit has a name of the class's own. */
  ghost predicate Unhidden(cls: ClassDatum) {
    forall n <- cls.common :: n in cls.permissions ==> OwnPerm(cls, BitOf(cls.common[n]))
  }

  ghost predicate LeadsBack(cls: ClassDatum, pn: seq<Option<string>>) {
    |pn| == 32 && forall b: nat :: b < 32 && pn[b].Some? ==> FindPerm(cls, pn[b].value) == Some(b + 1)
  }

  /** Whichever names are printed for the bits, they are read back as the same bits, exactly when
    * no inherited permission is hidden. */
  lemma UnhiddenLeadsBack(cls: ClassDatum)
    ensures (forall pn: seq<Option<string>> :: NamesPerms(cls, pn) ==> LeadsBack(cls, pn)) <==> Unhidden(cls)
  {
    if Unhidden(cls) {
      forall pn: seq<Option<string>> | NamesPerms(cls, pn) ensures LeadsBack(cls, pn) {
      }
    } else {
      var n :| n in cls.common && n in cls.permissions && !OwnPerm(cls, BitOf(cls.common[n]));
      var b := BitOf(cls.common[n]);
      var some := seq(32, (i: nat) => SomeName(cls, i));
      var pn := some[b := Some(n)];
      forall i: nat | i < 32
        ensures match pn[i]
                case Some(m) =>
                  if OwnPerm(cls, i) then m in cls.permissions && cls.permissions[m] == i + 1
                  else m in cls.common && cls.common[m] == i + 1
                case None => !OwnPerm(cls, i) && !CommonPerm(cls, i)
      {
        assert i != b ==> pn[i] == SomeName(cls, i);
      }
      assert NamesPerms(cls, pn);
      assert pn[b] == Some(n) && FindPerm(cls, n) == Some(cls.permissions[n]);
      assert !LeadsBack(cls, pn);
    }
  }

  ghost function SomeName(cls: ClassDatum, b: nat): Option<string> {
    if OwnPerm(cls, b) then var n :| n in cls.permissions && cls.permissions[n] == b + 1; Some(n)
    else if CommonPerm(cls, b) then var n :| n in cls.common && cls.common[n] == b + 1; Some(n)
    else None
  }

  /** The names of a policy: plain identifiers that its symbol tables lead back to the value. */
  ghost predicate NamesAgree(db: Symbols, names: ValueNames) {
    && (forall v: nat | names.TypeName(v).Some? ::
          var n := names.TypeName(v).value;
          S.Plain(n) && Find(db.types, n).Some? && Find(db.types, n).value.value == v)
    && (forall v: nat | names.Class(v).Some? ::
          var (n, cls) := names.Class(v).value;
          && S.Plain(n) && Find(db.classes, n) == Some(cls) && cls.value == v
          && Unhidden(cls)
          && (forall p <- cls.permissions :: S.Plain(p)) && (forall p <- cls.common :: S.Plain(p)))
  }

  /** The bits a dumped rule shows. */
  ghost predicate Shows(names: ValueNames, d: Dumped, k: Triple, b: int) {
    k == d.key && names.Class(k.cls).Some? && b in Shown(d.kind, d.data) && b in NamedBits(names.Class(k.cls).value.1)
  }

  lemma PermissionOf(db: Symbols, names: ValueNames, v: nat, pn: seq<Option<string>>, b: nat)
    requires NamesAgree(db, names) && names.Class(v).Some? && NamesPerms(names.Class(v).value.1, pn)
    requires b < 32 && pn[b].Some?
    ensures S.Plain(pn[b].value) && FindPerm(names.Class(v).value.1, pn[b].value) == Some(b + 1)
    ensures b in NamedBits(names.Class(v).value.1)
  {
    hide S.Plain, Find;
    var cls := names.Class(v).value.1;
    var p := pn[b].value;
    if OwnPerm(cls, b) {
      assert p in cls.permissions;
    } else {
      assert p in cls.common;
    }
  }

  lemma PrintedPlain(db: Symbols, names: ValueNames, v: nat, kind: bv16, data: Word, ps: seq<string>)
    requires NamesAgree(db, names) && names.Class(v).Some? && ShowsAll(names.Class(v).value.1, kind, data, ps)
    ensures forall i :: 0 <= i < |ps| ==> S.Plain(ps[i])
  {
    hide S.Plain, Find, Printed, NamesAgree;
    var pn: seq<Option<string>> :| NamesPerms(names.Class(v).value.1, pn) && ps == Printed(pn, Shown(kind, data), 32);
    forall i | 0 <= i < |ps| ensures S.Plain(ps[i]) {
      PrintedMembers(pn, Shown(kind, data), 32, ps[i]);
      var b: nat :| b < 32 && b in Shown(kind, data) && pn[b] == Some(ps[i]);
      PermissionOf(db, names, v, pn, b);
    }
  }

  /** Exactly the shown bits with a name are found again under the printed permissions. */
  lemma PrintedBits(db: Symbols, names: ValueNames, v: nat, kind: bv16, data: Word, ps: seq<string>, b: int)
    requires NamesAgree(db, names) && names.Class(v).Some? && ShowsAll(names.Class(v).value.1, kind, data, ps)
    requires 0 <= b < 32
    ensures var cls := names.Class(v).value.1;
            (exists p <- ps :: FindPerm(cls, p) == Some(b + 1)) <==> b in Shown(kind, data) && b in NamedBits(cls)
  {
    hide S.Plain, Find, Printed, NamesAgree, FindPerm;
    var cls := names.Class(v).value.1;
    var pn: seq<Option<string>> :| NamesPerms(cls, pn) && ps == Printed(pn, Shown(kind, data), 32);
    if p :| p in ps && FindPerm(cls, p) == Some(b + 1) {
      PrintedMembers(pn, Shown(kind, data), 32, p);
      var c: nat :| c < 32 && c in Shown(kind, data) && pn[c] == Some(p);
      PermissionOf(db, names, v, pn, c);
    }
    if b in Shown(kind, data) && b in NamedBits(cls) {
      PermissionOf(db, names, v, pn, b);
      PrintedMembers(pn, Shown(kind, data), 32, pn[b].value);
    }
  }

  /** A printed line is executed as the rule it was printed for. */
  lemma LineCommand(db: Symbols, names: ValueNames, d: Dumped, line: string)
    requires NamesAgree(db, names) && LineOf(names, d, line)
    ensures var s, t, c := names.TypeName(d.key.source).value, names.TypeName(d.key.target).value,
            names.Class(d.key.cls).value.0;
            var action := ActionOf(d.kind);
            && S.AvStatement(S.Tokens(S.Words(line))) == Some(S.AvCommand(action, [s], [t], [c], d.ps))
            && EffectOf(action) == (d.kind, d.kind == AUDITDENY)
            && S.Words(line) != [] && S.Words(line)[0] == S.ActionName(action)
  {
    hide S.Plain, ShowsAll, S.Words, S.Join, S.Tokens, S.AvStatement, Find;
    var s, t, c := names.TypeName(d.key.source).value, names.TypeName(d.key.target).value,
        names.Class(d.key.cls).value.0;
    PrintedPlain(db, names, d.key.cls, d.kind, d.data, d.ps);
    S.RuleParsesBack(ActionOf(d.kind), s, t, c, d.ps);
    S.RuleWordsBack(ActionOf(d.kind), s, t, c, d.ps);
  }

  /** Which bits a printed rule is about once its names are looked up. */
  lemma LineHits(db: Symbols, names: ValueNames, d: Dumped, line: string, strip: bool, k: Triple, b: int)
    requires NamesAgree(db, names) && LineOf(names, d, line) && 0 <= b < 32
    ensures var s, t, c := names.TypeName(d.key.source).value, names.TypeName(d.key.target).value,
            names.Class(d.key.cls).value.0;
            AnyHits(db, Product([s], [t], [c], d.ps), strip, k, b) <==> Shows(names, d, k, b)
  {
    hide S.Plain, Find, ShowsAll, S.Join, FindPerm, NamedBits, Resolve;
    var s, t := names.TypeName(d.key.source).value, names.TypeName(d.key.target).value;
    var (c, cls) := names.Class(d.key.cls).value;
    PrintedPlain(db, names, d.key.cls, d.kind, d.data, d.ps);
    PrintedBits(db, names, d.key.cls, d.kind, d.data, d.ps, b);
    forall p <- d.ps
      ensures Hits(db, (s, t, c, p), strip, k, b) <==> k == d.key && FindPerm(cls, p) == Some(b + 1)
    {
      OneHits(db, names, d.key, p, strip, k, b);
    }
    if AnyHits(db, Product([s], [t], [c], d.ps), strip, k, b) {
      var r :| r in Product([s], [t], [c], d.ps) && Hits(db, r, strip, k, b);
    }
    if Shows(names, d, k, b) {
      var p :| p in d.ps && FindPerm(cls, p) == Some(b + 1);
      assert s in [s] && t in [t] && c in [c];
      assert (s, t, c, p) in Product([s], [t], [c], d.ps);
    }
  }

  lemma OneHits(db: Symbols, names: ValueNames, key: Triple, p: string, strip: bool, k: Triple, b: int)
    requires NamesAgree(db, names) && Printable(names, key) && S.Plain(p)
    ensures var s, t, cls := names.TypeName(key.source).value, names.TypeName(key.target).value,
            names.Class(key.cls).value;
            Hits(db, (s, t, cls.0, p), strip, k, b) <==> k == key && FindPerm(cls.1, p) == Some(b + 1)
  {
    hide Find, FindPerm;
    var s, t := names.TypeName(key.source).value, names.TypeName(key.target).value;
    var (c, cls) := names.Class(key.cls).value;
    assert S.Plain(s) && S.Plain(t) && S.Plain(c);
    assert s != "" && t != "" && c != "" && p != "";
  }

  /** Some of the first `n` dumped rules shows the bit. */
  ghost predicate ShownBefore(names: ValueNames, ds: seq<Dumped>, n: nat, k: Triple, f: bv16, b: int)
    requires n <= |ds|
  {
    exists i :: 0 <= i < n && ds[i].kind == f && Shows(names, ds[i], k, b)
  }

  /** The masks after reading the first `n` lines into an empty table. */
  ghost predicate Reloaded(m: Masks, names: ValueNames, ds: seq<Dumped>, n: nat)
    requires n <= |ds|
  {
    forall k: Triple, f: bv16 | AvKind(f) ::
      (k, f) in m && forall b: int :: 0 <= b < 32 ==>
        (b in m[(k, f)] <==> if f == AUDITDENY then !ShownBefore(names, ds, n, k, f, b)
          else ShownBefore(names, ds, n, k, f, b))
  }

  lemma ShownNext(names: ValueNames, ds: seq<Dumped>, n: nat, k: Triple, f: bv16, b: int)
    requires n < |ds|
    ensures ShownBefore(names, ds, n + 1, k, f, b) <==>
            ShownBefore(names, ds, n, k, f, b) || (ds[n].kind == f && Shows(names, ds[n], k, b))
  {
    hide Shows;
  }

  /** A printed line sets, or clears, just the bits its rule shows. */
  lemma LineApplied(db: Symbols, names: ValueNames, d: Dumped, line: string, v: Masks, w: Masks)
    returns (rs: set<RuleLists.Names>)
    requires NamesAgree(db, names) && LineOf(names, d, line) && Executed(v, w, db, line)
    ensures AvKind(d.kind) && Applied(v, w, db, rs, d.kind, d.kind == AUDITDENY)
    ensures forall k: Triple, b: int | 0 <= b < 32 ::
              AnyHits(db, rs, StripAv(d.kind, d.kind == AUDITDENY), k, b) <==> Shows(names, d, k, b)
  {
    hide NamesAgree, LineOf, S.Words, S.Tokens, S.AvStatement, AnyHits, Shows, Product, S.ActionName, Applied;
    LineKind(names, d, line);
    LineCommand(db, names, d, line);
    S.ActionWord(ActionOf(d.kind));
    ActionStart(ActionOf(d.kind));
    var s, t := names.TypeName(d.key.source).value, names.TypeName(d.key.target).value;
    rs := Product([s], [t], [names.Class(d.key.cls).value.0], d.ps);
    forall k: Triple, b: int | 0 <= b < 32
      ensures AnyHits(db, rs, StripAv(d.kind, d.kind == AUDITDENY), k, b) <==> Shows(names, d, k, b)
    {
      LineHits(db, names, d, line, StripAv(d.kind, d.kind == AUDITDENY), k, b);
    }
  }

  lemma ReloadedNext(db: Symbols, names: ValueNames, ds: seq<Dumped>, n: nat, line: string, v: Masks, w: Masks)
    requires NamesAgree(db, names) && n < |ds| && LineOf(names, ds[n], line)
    requires Reloaded(v, names, ds, n) && Executed(v, w, db, line)
    ensures Reloaded(w, names, ds, n + 1)
  {
    hide NamesAgree, LineOf, ShownBefore, Executed, AnyHits, Shows, StripAv, AvKind;
    var d := ds[n];
    var rs := LineApplied(db, names, d, line, v, w);
    forall k: Triple, f: bv16 | AvKind(f)
      ensures (k, f) in w
      ensures forall b: int :: 0 <= b < 32 ==>
        (b in w[(k, f)] <==> if f == AUDITDENY then !ShownBefore(names, ds, n + 1, k, f, b)
          else ShownBefore(names, ds, n + 1, k, f, b))
    {
      forall b: int | 0 <= b < 32
        ensures b in w[(k, f)] <==> if f == AUDITDENY then !ShownBefore(names, ds, n + 1, k, f, b)
                else ShownBefore(names, ds, n + 1, k, f, b)
      {
        ShownNext(names, ds, n, k, f, b);
        assert b in v[(k, f)] <==> if f == AUDITDENY then !ShownBefore(names, ds, n, k, f, b)
            else ShownBefore(names, ds, n, k, f, b);
        assert AnyHits(db, rs, StripAv(d.kind, d.kind == AUDITDENY), k, b) <==> Shows(names, d, k, b);
      }
    }
  }

  lemma LineKind(names: ValueNames, d: Dumped, line: string)
    requires LineOf(names, d, line)
    ensures AvKind(d.kind) && Printable(names, d.key) && d.ps != []
  {
  }

  lemma ActionStart(action: S.Token)
    requires S.IsAvAction(action)
    ensures S.ActionName(action) != "" && S.ActionName(action)[0] != '#'
  {
  }

  lemma ReloadedNothing(t: Avtab, names: ValueNames, ds: seq<Dumped>)
    requires t.nodes == {}
    ensures AvTable(t) && Reloaded(AllMasks(t), names, ds, 0)
  {
  }

  /** The masks of the two tables agree on all permissions with a name, of all triples with names,
    * and the second table says nothing else. */
  ghost predicate RoundTrip(m: Masks, w: Masks, names: ValueNames) {
    forall k: Triple, f: bv16 | AvKind(f) ::
      (k, f) in m && (k, f) in w && forall b: int :: 0 <= b < 32 ==>
        (b in w[(k, f)] <==>
         if Printable(names, k) && b in NamedBits(names.Class(k.cls).value.1) then b in m[(k, f)] else f == AUDITDENY)
  }

  /** All lines together show exactly the named bits of the dumped masks. */
  lemma ShownIsDumped(t: Avtab, names: ValueNames, lines: seq<string>, ds: seq<Dumped>, k: Triple, f: bv16, b: int)
    requires AvTable(t) && IsDump(t, names, lines, ds) && AvKind(f) && 0 <= b < 32
    ensures ShownBefore(names, ds, |ds|, k, f, b) <==>
            Printable(names, k) && b in NamedBits(names.Class(k.cls).value.1) && b in Shown(f, Mask(t, k, f))
  {
    hide NamedBits, AvKind, LineOf, AvTable, Mask;
    if ShownBefore(names, ds, |ds|, k, f, b) {
      var i :| 0 <= i < |ds| && ds[i].kind == f && Shows(names, ds[i], k, b);
      LineKind(names, ds[i], lines[i]);
    }
    if Printable(names, k) && b in NamedBits(names.Class(k.cls).value.1) && b in Shown(f, Mask(t, k, f)) {
      ShownHasNode(t, k, f, b);
      var n :| n in t.nodes && n.key == k && n.specified == f;
      NodeMask(t, n);
      if Unprinted(names, k, f, n.data) {
        NothingShown(names.Class(k.cls).value.1, f, n.data, b);
      }
      var i :| 0 <= i < |ds| && ds[i].key == k && ds[i].kind == f;
      assert Shows(names, ds[i], k, b);
    }
  }

  lemma ShownHasNode(t: Avtab, k: Triple, f: bv16, b: int)
    requires b in Shown(f, Mask(t, k, f))
    ensures HasNode(t, k, f)
  {
  }

  lemma NothingShown(cls: ClassDatum, kind: bv16, data: Word, b: int)
    requires ShowsAll(cls, kind, data, [])
    ensures !(0 <= b < 32 && b in NamedBits(cls) && b in Shown(kind, data))
  {
    hide Printed, Shown;
    var pn: seq<Option<string>> :| NamesPerms(cls, pn) && [] == Printed(pn, Shown(kind, data), 32);
    if 0 <= b < 32 && b in NamedBits(cls) {
      assert pn[b].Some?;
      PrintedMembers(pn, Shown(kind, data), 32, pn[b].value);
    }
  }

  /** The lines show exactly the named bits of the masks `m`. */
  ghost predicate ShowsMasks(names: ValueNames, ds: seq<Dumped>, m: Masks) {
    forall k: Triple, f: bv16 | AvKind(f) ::
      (k, f) in m && forall b: int :: 0 <= b < 32 ==>
        (ShownBefore(names, ds, |ds|, k, f, b) <==>
         Printable(names, k) && b in NamedBits(names.Class(k.cls).value.1) && b in Shown(f, m[(k, f)]))
  }

  lemma DumpShowsMasks(t: Avtab, names: ValueNames, lines: seq<string>, ds: seq<Dumped>)
    requires AvTable(t) && IsDump(t, names, lines, ds)
    ensures ShowsMasks(names, ds, AllMasks(t)) && |lines| == |ds|
    ensures forall i :: 0 <= i < |ds| ==> LineOf(names, ds[i], lines[i])
  {
    hide AvTable, ShownBefore, NamedBits, Shown, Mask, LineOf, Unprinted, Lists, HasNode, AvKind;
    forall k: Triple, f: bv16, b: int | AvKind(f) && 0 <= b < 32
      ensures ShownBefore(names, ds, |ds|, k, f, b) <==>
              Printable(names, k) && b in NamedBits(names.Class(k.cls).value.1) && b in Shown(f, Mask(t, k, f))
    {
      ShownIsDumped(t, names, lines, ds, k, f, b);
    }
  }

  lemma ReadBack(names: ValueNames, ds: seq<Dumped>, m: Masks, w: Masks)
    requires ShowsMasks(names, ds, m) && Reloaded(w, names, ds, |ds|)
    ensures RoundTrip(m, w, names)
  {
    hide ShownBefore, NamedBits, AvKind;
    forall k: Triple, f: bv16, b: int | AvKind(f) && 0 <= b < 32
      ensures b in w[(k, f)] <==>
              if Printable(names, k) && b in NamedBits(names.Class(k.cls).value.1) then b in m[(k, f)]
                  else f == AUDITDENY
    {
      assert ShownBefore(names, ds, |ds|, k, f, b) <==>
             Printable(names, k) && b in NamedBits(names.Class(k.cls).value.1) && b in Shown(f, m[(k, f)]);
    }
  }

  lemma LineIsAv(db: Symbols, names: ValueNames, d: Dumped, line: string)
    requires NamesAgree(db, names) && LineOf(names, d, line)
    ensures var tokens := S.Tokens(S.Words(line)); tokens != [] && S.IsAvAction(tokens[0])
  {
    hide NamesAgree, LineOf, S.Words, S.Tokens, S.AvStatement;
    LineKind(names, d, line);
    LineCommand(db, names, d, line);
    StatementAction(S.Tokens(S.Words(line)));
  }

  /** Dump the table `t` and read the lines into a new one. */
  method DumpAndReload(t: Avtab, names: ValueNames, db: Symbols, nslot: nat, slotOf: Triple -> nat) returns (r: Avtab)
    requires t.Valid() && AvTable(t) && NamesAgree(db, names)
    requires 0 < nslot && forall k :: slotOf(k) < nslot
    ensures fresh(r) && r.Valid() && AvTable(r)
    ensures RoundTrip(old(AllMasks(t)), AllMasks(r), names)
  {
    hide Avtab.Valid, AvTable, AllMasks, IsDump, Reloaded, NamesAgree, LineOf, Executed, ShowsMasks, RoundTrip;
    var lines;
    ghost var ds;
    lines, ds := PrintAvtabRules(t, names);
    ghost var m := AllMasks(t);
    DumpShowsMasks(t, names, lines, ds);
    r := new Avtab(nslot, slotOf);
    ReloadedNothing(r, names, ds);
    for i := 0 to |lines|
      invariant r.Valid() && AvTable(r) && fresh(r.nodes)
      invariant Reloaded(AllMasks(r), names, ds, i)
    {
      ghost var v := AllMasks(r);
      LineIsAv(db, names, ds[i], lines[i]);
      ParseStatement(r, db, lines[i]);
      ReloadedNext(db, names, ds, i, lines[i], v, AllMasks(r));
    }
    ReadBack(names, ds, m, AllMasks(r));
  }
}
