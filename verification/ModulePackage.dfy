/** Module packages (libsepol/src/module.c): a header with section offsets, the policy, and up to
  * four optional sections, each behind a magic number.  Section lengths are not stored: the reader
  * takes the distance to the next offset, or to the end of the file.
  */
module ModulePackage {
  import opened Arithmetic
  import opened AvTables

  type Byte = b: nat | b < 256
  type Bytes = seq<Byte>

  const PACKAGE_MAGIC := 0xf97cff8f
  const MOD_MAGIC := 0xf97cff8d
  const SECTION_FC := 0xf97cff90
  const SECTION_SEUSER := 0x97cff91
  const SECTION_USER_EXTRA := 0x97cff92
  const SECTION_NETFILTER := 0x97cff93
  const MAXSECTIONS := 100

  // 32-bit words in little-endian order.

  function Le32(n: nat): (b: Bytes)
    ensures |b| == 4
  {
    [n % 256, n / 256 % 256, n / 256 / 256 % 256, n / 256 / 256 / 256 % 256]
  }

  function Word32(b: Bytes): (n: nat)
    requires |b| == 4
    ensures n < TWO_32
  {
    var x: nat, y: nat, z: nat, w: nat := b[0], b[1], b[2], b[3];
    x + 256 * (y + 256 * (z + 256 * w))
  }

  lemma WordRoundTrip(n: nat)
    requires n < TWO_32
    ensures Word32(Le32(n)) == n
  {
    var a := n / 256;
    var b := a / 256;
    var c := b / 256;
    assert c < 256 && c % 256 == c;
  }

  function Words(ns: seq<nat>): (b: Bytes)
    ensures |b| == 4 * |ns|
  {
    if ns == [] then [] else Words(ns[..|ns| - 1]) + Le32(ns[|ns| - 1])
  }

  lemma {:induction false} WordsAt(ns: seq<nat>, i: nat)
    requires i < |ns|
    ensures Words(ns)[4 * i..4 * i + 4] == Le32(ns[i])
  {
    var front := ns[..|ns| - 1];
    if i < |front| {
      WordsAt(front, i);
      assert Words(ns)[4 * i..4 * i + 4] == Words(front)[4 * i..4 * i + 4];
    }
  }

  // Packages.

  /** The policy is known by its image, the bytes that policydb_write writes. */
  datatype Package = Package(version: nat, policy: Option<Bytes>, isBase: bool, fileContexts: Option<Bytes>,
                             seusers: Option<Bytes>, userExtra: Option<Bytes>, netfilterContexts: Option<Bytes>)

  datatype Section = Section(magic: nat, data: Bytes) {
    /** The bytes of a section; a policy image brings its own magic number. */
    function Image(): Bytes {
      if magic == MOD_MAGIC then data else Le32(magic) + data
    }
  }

  function Optional(magic: nat, data: Option<Bytes>): seq<Section> {
    if data.Some? then [Section(magic, data.value)] else []
  }

  /** The sections of a package, in the order in which they are written. */
  function Sections(p: Package): seq<Section>
    requires p.policy.Some?
  {
    [Section(MOD_MAGIC, p.policy.value)] + Optional(SECTION_FC, p.fileContexts) + Optional(SECTION_SEUSER, p.seusers)
      + Optional(SECTION_USER_EXTRA, p.userExtra) + Optional(SECTION_NETFILTER, p.netfilterContexts)
  }

  function Concat(secs: seq<Section>): Bytes {
    if secs == [] then [] else Concat(secs[..|secs| - 1]) + secs[|secs| - 1].Image()
  }

  /** Where section `i` starts. */
  function Offset(secs: seq<Section>, i: nat): nat
    requires i <= |secs|
  {
    4 * (|secs| + 3) + |Concat(secs[..i])|
  }

  /** Offsets are 32-bit words and wrap around. */
  function Offsets(secs: seq<Section>): seq<nat> {
    seq(|secs|, i requires 0 <= i < |secs| => Offset(secs, i) % TWO_32)
  }

  function Image(p: Package): Bytes
    requires p.policy.Some?
  {
    var secs := Sections(p);
    Words([PACKAGE_MAGIC, p.version, |secs|] + Offsets(secs)) + Concat(secs)
  }

  /** What sepol_module_package_write refuses. */
  predicate Writable(p: Package) {
    p.policy.Some? && p.policy.value != [] && ((p.seusers.Some? || p.userExtra.Some?) ==> p.isBase)
  }

  // Writing.

  class PolicyFile {
    var bytes: Bytes
    var pos: nat

    constructor (bytes: Bytes)
      ensures this.bytes == bytes && pos == 0
    {
      this.bytes, pos := bytes, 0;
    }

    /** put_entry at the end of the file. */
    method Put(b: Bytes)
      modifies this
      ensures bytes == old(bytes) + b && pos == old(pos)
    {
      bytes := bytes + b;
    }

    /** policy_file_seek. */
    method Seek(offset: nat) returns (ok: bool)
      modifies this`pos
      ensures ok == (offset <= |bytes|) && pos == if ok then offset else old(pos)
    {
      ok := offset <= |bytes|;
      if ok {
        pos := offset;
      }
    }

    /** next_entry. */
    method Next(n: nat) returns (b: Option<Bytes>)
      requires pos <= |bytes|
      modifies this`pos
      ensures b == if old(pos) + n <= |bytes| then Some(bytes[old(pos)..old(pos) + n]) else None
      ensures pos == if b.Some? then old(pos) + n else old(pos)
    {
      b := None;
      if pos + n <= |bytes| {
        b := Some(bytes[pos..pos + n]);
        pos := pos + n;
      }
    }
  }

  lemma ConcatEnd(secs: seq<Section>, s: Section)
    ensures Concat(secs + [s]) == Concat(secs) + s.Image()
  {
    assert (secs + [s])[..|secs|] == secs;
  }

  lemma WordsEnd(ns: seq<nat>, n: nat)
    ensures Words(ns + [n]) == Words(ns) + Le32(n)
  {
    assert (ns + [n])[..|ns|] == ns;
  }

  /** The words for the sections, when there are `all` of them in the end. */
  ghost predicate Placed(secs: seq<Section>, all: nat, offsets: seq<nat>) {
    && |offsets| == |secs|
    && forall i :: 0 <= i < |secs| ==> offsets[i] == (4 * (all + 3) + |Concat(secs[..i])|) % TWO_32
  }

  lemma PlacedMore(secs: seq<Section>, all: nat, offsets: seq<nat>, s: Section)
    requires secs != [] && Placed(secs, all, offsets)
    ensures Placed(secs + [s], all,
                   offsets + [(offsets[|offsets| - 1] + |secs[|secs| - 1].Image()| % TWO_32) % TWO_32])
  {
    hide Concat;
    var last, now := |secs| - 1, secs + [s];
    assert secs[..last] + [secs[last]] == secs;
    ConcatEnd(secs[..last], secs[last]);
    WrapSum(4 * (all + 3) + |Concat(secs[..last])|, |secs[last].Image()|);
    forall i | 0 <= i <= |secs| ensures now[..i] == secs[..i] {
    }
    assert secs[..|secs|] == secs;
  }

  /** One step of "calculate offsets": the word for the next section, if there is one, and the
    * length of that section. */
  method AddOffset(magic: nat, data: Option<Bytes>, offsets: seq<nat>, len: nat, ghost done: seq<Section>,
      ghost all: nat)
    returns (more: seq<nat>, next: nat)
    requires magic != MOD_MAGIC && done != [] && Placed(done, all, offsets)
    requires len == |done[|done| - 1].Image()| % TWO_32
    ensures var now := done + Optional(magic, data);
            Placed(now, all, more) && next == |now[|now| - 1].Image()| % TWO_32
  {
    hide Placed;
    more, next := offsets, len;
    if data.Some? {
      PlacedMore(done, all, offsets, Section(magic, data.value));
      PlacedLength(done, all, offsets);
      more := offsets + [(offsets[|offsets| - 1] + len) % TWO_32];
      next := (|data.value| + 4) % TWO_32;
    } else {
      assert done + Optional(magic, data) == done;
    }
  }

  lemma PlacedLength(secs: seq<Section>, all: nat, offsets: seq<nat>)
    requires Placed(secs, all, offsets)
    ensures |offsets| == |secs|
  {
  }

  lemma WrapSum(a: nat, b: nat)
    ensures (a % TWO_32 + b % TWO_32) % TWO_32 == (a + b) % TWO_32
  {
  }

  /** "write sections", for one of the optional ones. */
  method WriteSection(file: PolicyFile, magic: nat, data: Option<Bytes>, ghost before: Bytes, ghost done: seq<Section>)
    requires magic != MOD_MAGIC && file.bytes == before + Concat(done)
    modifies file
    ensures file.bytes == before + Concat(done + Optional(magic, data))
  {
    hide Concat, Le32;
    if data.Some? {
      file.Put(Le32(magic));
      file.Put(data.value);
      ConcatEnd(done, Section(magic, data.value));
      assert before + Concat(done) + Le32(magic) + data.value == before + (Concat(done) + (Le32(magic) + data.value));
    } else {
      assert done + Optional(magic, data) == done;
    }
  }

  /** sepol_module_package_write into an empty file with room for everything. */
  method Write(p: Package, file: PolicyFile) returns (rc: int)
    requires file.bytes == []
    modifies file
    ensures rc == if Writable(p) then 0 else -1
    ensures rc == 0 ==> file.bytes == Image(p)
    ensures rc == 0 <==> p.policy.Some? && p.policy.value != [] && (p.isBase || (p.seusers.None? && p.userExtra.None?))
  {
    hide Words, Le32, Sections, Offsets, Concat;
    if p.policy.None? || p.policy.value == [] {
      return -1;
    }
    if (p.seusers.Some? || p.userExtra.Some?) && !p.isBase {
      return -1;
    }
    var nsec := 1 + (if p.fileContexts.Some? then 1 else 0) + (if p.seusers.Some? then 1 else 0)
                + (if p.userExtra.Some? then 1 else 0) + (if p.netfilterContexts.Some? then 1 else 0);
    SectionCount(p);
    file.Put(Le32(PACKAGE_MAGIC) + Le32(p.version) + Le32(nsec));
    var offsets := CalculateOffsets(p, nsec);
    file.Put(Words(offsets));
    HeaderBytes(p.version, nsec, offsets);
    WriteSections(p, file);
    rc := 0;
  }

  lemma SectionCount(p: Package)
    requires p.policy.Some?
    ensures |Sections(p)| == 1 + (if p.fileContexts.Some? then 1 else 0) + (if p.seusers.Some? then 1 else 0)
                             + (if p.userExtra.Some? then 1 else 0) + (if p.netfilterContexts.Some? then 1 else 0)
  {
  }

  lemma HeaderBytes(version: nat, nsec: nat, offsets: seq<nat>)
    ensures Words([PACKAGE_MAGIC, version, nsec] + offsets) ==
            Le32(PACKAGE_MAGIC) + Le32(version) + Le32(nsec) + Words(offsets)
  {
    hide Words, Le32;
    WordsConcat([PACKAGE_MAGIC, version, nsec], offsets);
    ThreeWords(PACKAGE_MAGIC, version, nsec);
  }

  lemma ThreeWords(a: nat, b: nat, c: nat)
    ensures Words([a, b, c]) == Le32(a) + Le32(b) + Le32(c)
  {
    hide Words, Le32;
    OneWord(a);
    WordsEnd([a], b);
    WordsEnd([a, b], c);
    assert [a] + [b] == [a, b] && [a, b] + [c] == [a, b, c];
  }

  lemma OneWord(a: nat)
    ensures Words([a]) == Le32(a)
  {
    hide Le32;
    assert [a][..0] == [];
    assert Words([]) == [];
  }

  lemma {:induction false} WordsConcat(a: seq<nat>, b: seq<nat>)
    ensures Words(a + b) == Words(a) + Words(b)
  {
    if b == [] {
      assert a + b == a;
    } else {
      WordsConcat(a, b[..|b| - 1]);
      assert (a + b)[..|a + b| - 1] == a + b[..|b| - 1];
    }
  }

  /** "calculate offsets". */
  method CalculateOffsets(p: Package, nsec: nat) returns (offsets: seq<nat>)
    requires p.policy.Some? && nsec == |Sections(p)|
    ensures offsets == Offsets(Sections(p))
  {
    hide Placed, Section.Image;
    ghost var done := [Section(MOD_MAGIC, p.policy.value)];
    var len := |p.policy.value| % TWO_32;
    offsets := [(nsec + 3) * 4 % TWO_32];
    FirstPlaced(p.policy.value, nsec);
    offsets, len := AddOffset(SECTION_FC, p.fileContexts, offsets, len, done, nsec);
    done := done + Optional(SECTION_FC, p.fileContexts);
    offsets, len := AddOffset(SECTION_SEUSER, p.seusers, offsets, len, done, nsec);
    done := done + Optional(SECTION_SEUSER, p.seusers);
    offsets, len := AddOffset(SECTION_USER_EXTRA, p.userExtra, offsets, len, done, nsec);
    done := done + Optional(SECTION_USER_EXTRA, p.userExtra);
    offsets, len := AddOffset(SECTION_NETFILTER, p.netfilterContexts, offsets, len, done, nsec);
    assert done + Optional(SECTION_NETFILTER, p.netfilterContexts) == Sections(p);
    AllPlaced(Sections(p), offsets);
  }

  lemma FirstPlaced(image: Bytes, all: nat)
    ensures Placed([Section(MOD_MAGIC, image)], all, [(all + 3) * 4 % TWO_32])
    ensures Section(MOD_MAGIC, image).Image() == image
  {
    assert [Section(MOD_MAGIC, image)][..0] == [];
  }

  lemma AllPlaced(secs: seq<Section>, offsets: seq<nat>)
    requires Placed(secs, |secs|, offsets)
    ensures offsets == Offsets(secs)
  {
  }

  lemma NothingBefore(secs: seq<Section>)
    requires |secs| == 1
    ensures Concat(secs[..0]) == []
  {
  }

  method WriteSections(p: Package, file: PolicyFile)
    requires p.policy.Some?
    modifies file
    ensures file.bytes == old(file.bytes) + Concat(Sections(p))
  {
    hide Concat;
    ghost var before, done := file.bytes, [Section(MOD_MAGIC, p.policy.value)];
    file.Put(p.policy.value);
    ConcatEnd([], done[0]);
    NothingBefore(done);
    assert [] + [done[0]] == done && done[..0] == [] && [] + p.policy.value == p.policy.value;
    WriteSection(file, SECTION_FC, p.fileContexts, before, done);
    done := done + Optional(SECTION_FC, p.fileContexts);
    WriteSection(file, SECTION_SEUSER, p.seusers, before, done);
    done := done + Optional(SECTION_SEUSER, p.seusers);
    WriteSection(file, SECTION_USER_EXTRA, p.userExtra, before, done);
    done := done + Optional(SECTION_USER_EXTRA, p.userExtra);
    WriteSection(file, SECTION_NETFILTER, p.netfilterContexts, before, done);
    assert done + Optional(SECTION_NETFILTER, p.netfilterContexts) == Sections(p);
  }

  // Reading.

  /** What has been read of a package; a section that is there has been seen. */
  datatype Loaded = Loaded(version: nat, policy: Option<Bytes>, fileContexts: Option<Bytes>, seusers: Option<Bytes>,
                           userExtra: Option<Bytes>, netfilterContexts: Option<Bytes>)

  /** policydb_read: the image it takes from the given bytes, or None for an invalid policy. */
  type Parser = Bytes -> Option<Bytes>

  function FieldOf(m: Loaded, magic: nat): Option<Bytes> {
    if magic == SECTION_FC then m.fileContexts
    else if magic == SECTION_SEUSER then m.seusers
    else if magic == SECTION_USER_EXTRA then m.userExtra
    else if magic == SECTION_NETFILTER then m.netfilterContexts
    else if magic == MOD_MAGIC then m.policy
    else None
  }

  function WithField(m: Loaded, magic: nat, data: Bytes): Loaded {
    if magic == SECTION_FC then m.(fileContexts := Some(data))
    else if magic == SECTION_SEUSER then m.(seusers := Some(data))
    else if magic == SECTION_USER_EXTRA then m.(userExtra := Some(data))
    else if magic == SECTION_NETFILTER then m.(netfilterContexts := Some(data))
    else if magic == MOD_MAGIC then m.(policy := Some(data))
    else m
  }

  /** One section: too short, seen before, or an invalid policy is an error; an unknown one is
    * skipped. */
  function ReadSection(bytes: Bytes, off: nat, end: nat, m: Loaded, parse: Parser): Option<Loaded>
    requires off <= end <= |bytes|
  {
    if end - off < 4 then None
    else
      var magic := Word32(bytes[off..off + 4]);
      if FieldOf(m, magic).Some? then None
      else if magic == MOD_MAGIC then
        match parse(bytes[off..]) case None => None case Some(image) => Some(WithField(m, magic, image))
      else Some(WithField(m, magic, bytes[off + 4..end]))
  }

  predicate Increasing(offs: seq<nat>, size: nat) {
    && (forall i :: 0 <= i < |offs| - 1 ==> offs[i] <= offs[i + 1])
    && (forall i :: 0 <= i < |offs| ==> offs[i] <= size)
  }

  function ReadFrom(bytes: Bytes, offs: seq<nat>, i: nat, m: Loaded, parse: Parser): Option<Loaded>
    requires Increasing(offs, |bytes|)
    decreases |offs| - i
  {
    if i + 1 >= |offs| then Some(m)
    else
      match ReadSection(bytes, offs[i], offs[i + 1], m, parse)
      case None => None
      case Some(next) => ReadFrom(bytes, offs, i + 1, next, parse)
  }

  function WordAt(bytes: Bytes, i: nat): (n: nat)
    requires 4 * i + 4 <= |bytes|
    ensures n < TWO_32
  {
    Word32(bytes[4 * i..4 * i + 4])
  }

  /** The section offsets, and the size of the file as the last of them. */
  function OffsetsIn(bytes: Bytes, nsec: nat): (offs: seq<nat>)
    requires 12 + 4 * nsec <= |bytes|
    ensures |offs| == nsec + 1
  {
    seq(nsec, i requires 0 <= i < nsec => WordAt(bytes, i + 3)) + [|bytes|]
  }

  /** module_package_read_offsets. */
  function ReadOffsets(bytes: Bytes): (r: Option<(nat, seq<nat>)>)
    ensures r.Some? ==> Increasing(r.value.1, |bytes|)
  {
    if |bytes| < 12 || WordAt(bytes, 0) != PACKAGE_MAGIC then None
    else
      var nsec := WordAt(bytes, 2);
      if nsec > MAXSECTIONS || 12 + 4 * nsec > |bytes| || !Increasing(OffsetsIn(bytes, nsec), |bytes|) then None
      else Some((WordAt(bytes, 1), OffsetsIn(bytes, nsec)))
  }

  /** sepol_module_package_read. */
  function ReadPackage(bytes: Bytes, parse: Parser): Option<Loaded> {
    match ReadOffsets(bytes)
    case None => None
    case Some((version, offs)) =>
      match ReadFrom(bytes, offs, 0, Loaded(version, None, None, None, None, None), parse)
      case None => None
      case Some(m) => if m.policy.None? then None else Some(m)
  }

  /** module_package_read_offsets, from the start of the file. */
  method ReadPackageOffsets(file: PolicyFile) returns (r: Option<(nat, seq<nat>)>)
    requires file.pos == 0
    modifies file`pos
    ensures r == ReadOffsets(file.bytes)
  {
    hide Word32;
    var buf := file.Next(12);
    if buf.None? {
      return None;
    }
    ghost var bytes := file.bytes;
    assert buf.value[..4] == bytes[4 * 0..4] && buf.value[4..8] == bytes[4..8] && buf.value[8..] == bytes[8..12];
    if Word32(buf.value[..4]) != PACKAGE_MAGIC {
      return None;
    }
    var version, nsec := Word32(buf.value[4..8]), Word32(buf.value[8..]);
    if nsec > MAXSECTIONS {
      return None;
    }
    var words := file.Next(4 * nsec);
    if words.None? {
      return None;
    }
    r := CheckOffsets(file, version, nsec, words.value);
  }

  /** "offsets are not increasing", and "offset greater than file size". */
  method CheckOffsets(file: PolicyFile, version: nat, nsec: nat, words: Bytes) returns (r: Option<(nat, seq<nat>)>)
    requires 12 + 4 * nsec <= |file.bytes| && words == file.bytes[12..12 + 4 * nsec]
    ensures r == if Increasing(OffsetsIn(file.bytes, nsec), |file.bytes|)
                 then Some((version, OffsetsIn(file.bytes, nsec))) else None
  {
    hide Word32;
    ghost var bytes, all := file.bytes, OffsetsIn(file.bytes, nsec);
    var off: seq<nat> := [];
    for i := 0 to nsec
      invariant |off| == i && forall j :: 0 <= j < i ==> off[j] == all[j]
      invariant forall j :: 0 <= j < i - 1 ==> off[j] <= off[j + 1]
    {
      SliceOfSlice(bytes, 12, 12 + 4 * nsec, 4 * i, 4 * i + 4);
      assert Word32(words[4 * i..4 * i + 4]) == WordAt(bytes, i + 3) == all[i];
      off := off + [Word32(words[4 * i..4 * i + 4])];
      if i > 0 && off[i] < off[i - 1] {
        NotIncreasing(all, i - 1, |bytes|);
        return None;
      }
    }
    var size := |file.bytes|;
    off := off + [size];
    assert off == all;
    if nsec > 0 && off[nsec] < off[nsec - 1] {
      NotIncreasing(all, nsec - 1, |bytes|);
      return None;
    }
    LastIsGreatest(off);
    r := Some((version, off));
  }

  lemma SliceOfSlice(b: Bytes, from: nat, to: nat, i: nat, j: nat)
    requires from <= to <= |b| && i <= j <= to - from
    ensures b[from..to][i..j] == b[from + i..from + j]
  {
    var x, y := b[from..to][i..j], b[from + i..from + j];
    assert forall k :: 0 <= k < j - i ==> x[k] == b[from..to][i + k] == b[from + (i + k)] == y[k];
  }

  lemma NotIncreasing(offs: seq<nat>, j: nat, size: nat)
    requires j + 1 < |offs| && offs[j] > offs[j + 1]
    ensures !Increasing(offs, size)
  {
    var i := j;
    assert 0 <= i < |offs| - 1;
  }

  lemma {:induction false} LastIsGreatest(offs: seq<nat>)
    requires offs != [] && forall i :: 0 <= i < |offs| - 1 ==> offs[i] <= offs[i + 1]
    ensures forall i :: 0 <= i < |offs| ==> offs[i] <= offs[|offs| - 1]
  {
    if |offs| > 1 {
      LastIsGreatest(offs[..|offs| - 1]);
    }
  }

  /** The body of the loop of sepol_module_package_read. */
  method ReadNext(file: PolicyFile, off: nat, end: nat, m: Loaded, parse: Parser) returns (r: Option<Loaded>)
    requires off <= end <= |file.bytes|
    modifies file`pos
    ensures r == ReadSection(file.bytes, off, end, m, parse)
  {
    hide Word32;
    var ok := file.Seek(off);
    if !ok {
      return None;
    }
    var len := end - off;
    if len < 4 {
      return None;
    }
    var buf := file.Next(4);
    if buf.None? {
      return None;
    }
    var magic := Word32(buf.value);
    if FieldOf(m, magic).Some? {
      return None;
    }
    if magic == MOD_MAGIC {
      ok := file.Seek(off);
      var image := parse(file.bytes[off..]);
      if image.None? {
        return None;
      }
      return Some(WithField(m, magic, image.value));
    }
    if magic == SECTION_FC || magic == SECTION_SEUSER || magic == SECTION_USER_EXTRA || magic == SECTION_NETFILTER {
      var data := file.Next(len - 4);
      if data.None? {
        return None;
      }
      return Some(WithField(m, magic, data.value));
    }
    r := Some(m);
  }

  lemma OffsetsFacts(bytes: Bytes)
    ensures ReadOffsets(bytes).Some? ==>
              && |bytes| >= 12 && WordAt(bytes, 0) == 0xf97cff8f
              && ReadOffsets(bytes).value.0 == WordAt(bytes, 1) && WordAt(bytes, 2) <= 100
  {
    hide Increasing;
  }

  lemma VersionStays(bytes: Bytes, off: nat, end: nat, m: Loaded, parse: Parser)
    requires off <= end <= |bytes|
    ensures ReadSection(bytes, off, end, m, parse).Some? ==>
            ReadSection(bytes, off, end, m, parse).value.version == m.version
  {
    hide Word32;
  }

  /** sepol_module_package_read. */
  method Read(file: PolicyFile, parse: Parser) returns (rc: int, mod: Loaded)
    requires file.pos == 0
    modifies file`pos
    ensures match ReadPackage(file.bytes, parse)
            case None => rc == -1
            case Some(m) => rc == 0 && mod == m
    ensures rc == 0 ==>
              && mod.policy.Some? && |file.bytes| >= 12 && WordAt(file.bytes, 0) == 0xf97cff8f
              && mod.version == WordAt(file.bytes, 1) && WordAt(file.bytes, 2) <= 100
  {
    hide ReadOffsets, ReadSection, WordAt;
    OffsetsFacts(file.bytes);
    mod := Loaded(0, None, None, None, None, None);
    var header := ReadPackageOffsets(file);
    if header.None? {
      return -1, mod;
    }
    var (version, offs) := header.value;
    mod := mod.(version := version);
    var i := 0;
    while i + 1 < |offs|
      invariant ReadFrom(file.bytes, offs, 0, Loaded(version, None, None, None, None, None), parse) ==
                ReadFrom(file.bytes, offs, i, mod, parse)
      invariant mod.version == version
      decreases |offs| - i
    {
      VersionStays(file.bytes, offs[i], offs[i + 1], mod, parse);
      var next := ReadNext(file, offs[i], offs[i + 1], mod, parse);
      if next.None? {
        return -1, mod;
      }
      mod := next.value;
      i := i + 1;
    }
    if mod.policy.None? {
      return -1, mod;
    }
    rc := 0;
  }

  // The round trip.

  /** The fields after the sections have been read in order. */
  ghost function Filled(m: Loaded, secs: seq<Section>): Loaded {
    if secs == [] then m
    else WithField(Filled(m, secs[..|secs| - 1]), secs[|secs| - 1].magic, secs[|secs| - 1].data)
  }

  ghost predicate Parses(parse: Parser, image: Bytes) {
    |image| >= 4 && Word32(image[..4]) == MOD_MAGIC && forall rest: Bytes :: parse(image + rest) == Some(image)
  }

  lemma {:induction false} ConcatSplit(secs: seq<Section>, i: nat) returns (rest: Bytes)
    requires i < |secs|
    ensures Concat(secs) == Concat(secs[..i]) + secs[i].Image() + rest
    decreases |secs|
  {
    hide Section.Image;
    var front, last := secs[..|secs| - 1], secs[|secs| - 1];
    if i == |secs| - 1 {
      rest := [];
    } else {
      var tail := ConcatSplit(front, i);
      assert front[..i] == secs[..i];
      rest := tail + last.Image();
    }
  }

  lemma OffsetNext(secs: seq<Section>, i: nat)
    requires i < |secs|
    ensures Offset(secs, i + 1) == Offset(secs, i) + |secs[i].Image()|
  {
    assert secs[..i + 1][..i] == secs[..i];
  }

  /** Each section of a written package is read as it was. */
  lemma SectionReadsBack(header: Bytes, secs: seq<Section>, i: nat, m: Loaded, parse: Parser)
    requires i < |secs| && |header| == 4 * (|secs| + 3)
    requires FieldOf(m, secs[i].magic).None? && secs[i].magic < TWO_32
    requires secs[i].magic == MOD_MAGIC ==> Parses(parse, secs[i].data)
    ensures Offset(secs, i) <= Offset(secs, i + 1) <= |header + Concat(secs)|
    ensures ReadSection(header + Concat(secs), Offset(secs, i), Offset(secs, i + 1), m, parse) ==
            Some(WithField(m, secs[i].magic, secs[i].data))
  {
    hide Concat, Le32, Word32, WithField, FieldOf;
    var bytes, s, off := header + Concat(secs), secs[i], Offset(secs, i);
    var rest := ConcatSplit(secs, i);
    OffsetNext(secs, i);
    Middle(header, Concat(secs[..i]), s.Image(), rest);
    assert bytes == header + (Concat(secs[..i]) + s.Image() + rest);
    if s.magic == MOD_MAGIC {
      assert s.Image() == s.data;
    } else {
      WordRoundTrip(s.magic);
      Prefix(Le32(s.magic), s.data);
    }
  }

  lemma Prefix(a: Bytes, b: Bytes)
    requires |a| == 4
    ensures (a + b)[..4] == a && (a + b)[4..] == b
  {
  }

  /** Where a section lies in a file. */
  lemma Middle(a: Bytes, b: Bytes, c: Bytes, d: Bytes)
    ensures var all, off := a + (b + c + d), |a| + |b|;
            && |all| >= off + |c| && all[off..] == c + d && all[off..off + |c|] == c
            && (|c| >= 4 ==> all[off..off + 4] == c[..4] && all[off + 4..off + |c|] == c[4..])
  {
    var all, off := a + (b + c + d), |a| + |b|;
    assert all == (a + b) + (c + d);
    assert all[off..] == c + d;
    assert all[off..off + |c|] == all[off..][..|c|];
    if |c| >= 4 {
      assert all[off..off + 4] == all[off..][..4] && all[off + 4..off + |c|] == all[off..][4..|c|];
    }
  }

  lemma {:induction false} OffsetsGrow(secs: seq<Section>, i: nat, j: nat)
    requires i <= j <= |secs|
    ensures Offset(secs, i) <= Offset(secs, j)
    decreases j - i
  {
    if i < j {
      OffsetNext(secs, i);
      OffsetsGrow(secs, i + 1, j);
    }
  }

  /** The offsets a reader finds, when nothing has wrapped around. */
  ghost function AllOffsets(secs: seq<Section>): seq<nat> {
    seq(|secs| + 1, i requires 0 <= i < |secs| + 1 => Offset(secs, i))
  }

  lemma AllIncreasing(secs: seq<Section>, size: nat)
    requires size == Offset(secs, |secs|)
    ensures Increasing(AllOffsets(secs), size)
  {
    hide Offset;
    forall i | 0 <= i < |secs| ensures Offset(secs, i) <= Offset(secs, i + 1) {
      OffsetsGrow(secs, i, i + 1);
    }
    forall i | 0 <= i <= |secs| ensures Offset(secs, i) <= size {
      OffsetsGrow(secs, i, |secs|);
    }
  }

  ghost predicate DistinctKnown(secs: seq<Section>) {
    && (forall i, j :: 0 <= i < j < |secs| ==> secs[i].magic != secs[j].magic)
    && forall s <- secs :: s.magic in {MOD_MAGIC, SECTION_FC, SECTION_SEUSER, SECTION_USER_EXTRA, SECTION_NETFILTER}
  }

  /** A field is still open before its section. */
  lemma {:induction false} FieldOpen(m: Loaded, secs: seq<Section>, magic: nat)
    requires FieldOf(m, magic).None? && forall s <- secs :: s.magic != magic
    ensures FieldOf(Filled(m, secs), magic).None?
  {
    if secs != [] {
      FieldOpen(m, secs[..|secs| - 1], magic);
    }
  }

  lemma {:induction false} AllReadBack(header: Bytes, secs: seq<Section>, i: nat, m: Loaded, parse: Parser)
    requires i <= |secs| && |header| == 4 * (|secs| + 3) && DistinctKnown(secs)
    requires forall s <- secs :: FieldOf(m, s.magic).None?
    requires forall s <- secs :: s.magic == MOD_MAGIC ==> Parses(parse, s.data)
    requires Increasing(AllOffsets(secs), |header + Concat(secs)|)
    ensures ReadFrom(header + Concat(secs), AllOffsets(secs), i, Filled(m, secs[..i]), parse) == Some(Filled(m, secs))
    decreases |secs| - i
  {
    hide Concat, Offset, Parses, ReadSection;
    assert secs[..|secs|] == secs;
    if i < |secs| {
      assert secs[i] in secs;
      forall s <- secs[..i] ensures s.magic != secs[i].magic {
      }
      FieldOpen(m, secs[..i], secs[i].magic);
      SectionReadsBack(header, secs, i, Filled(m, secs[..i]), parse);
      assert secs[..i + 1][..i] == secs[..i];
      AllReadBack(header, secs, i + 1, m, parse);
    }
  }

  lemma OptionalFills(m: Loaded, secs: seq<Section>, magic: nat, data: Option<Bytes>)
    ensures Filled(m, secs + Optional(magic, data)) ==
            if data.Some? then WithField(Filled(m, secs), magic, data.value) else Filled(m, secs)
  {
    if data.Some? {
      assert (secs + [Section(magic, data.value)])[..|secs|] == secs;
    } else {
      assert secs + [] == secs;
    }
  }

  /** What should come back. */
  function LoadedOf(p: Package): Loaded {
    Loaded(p.version, p.policy, p.fileContexts, p.seusers, p.userExtra, p.netfilterContexts)
  }

  lemma FilledAll(p: Package)
    requires p.policy.Some?
    ensures Filled(Loaded(p.version, None, None, None, None, None), Sections(p)) == LoadedOf(p)
  {
    hide Filled, Optional;
    var m := Loaded(p.version, None, None, None, None, None);
    var a := [Section(MOD_MAGIC, p.policy.value)];
    var b := a + Optional(SECTION_FC, p.fileContexts);
    var c := b + Optional(SECTION_SEUSER, p.seusers);
    var d := c + Optional(SECTION_USER_EXTRA, p.userExtra);
    PolicyFills(m, p.policy.value);
    OptionalFills(m, a, SECTION_FC, p.fileContexts);
    OptionalFills(m, b, SECTION_SEUSER, p.seusers);
    OptionalFills(m, c, SECTION_USER_EXTRA, p.userExtra);
    OptionalFills(m, d, SECTION_NETFILTER, p.netfilterContexts);
  }

  lemma PolicyFills(m: Loaded, image: Bytes)
    ensures Filled(m, [Section(MOD_MAGIC, image)]) == WithField(m, MOD_MAGIC, image)
  {
    assert [Section(MOD_MAGIC, image)][..0] == [];
  }

  /** The sections so far, whose magic numbers are among `magics`. */
  ghost predicate Among(secs: seq<Section>, magics: set<nat>) {
    && (forall i, j :: 0 <= i < j < |secs| ==> secs[i].magic != secs[j].magic)
    && (forall i :: 0 <= i < |secs| ==> secs[i].magic in magics)
    && |secs| <= |magics|
  }

  lemma AmongMore(secs: seq<Section>, magics: set<nat>, magic: nat, data: Option<Bytes>)
    requires Among(secs, magics) && magic !in magics
    ensures Among(secs + Optional(magic, data), magics + {magic})
  {
  }

  lemma SectionsKnown(p: Package)
    requires p.policy.Some?
    ensures DistinctKnown(Sections(p)) && |Sections(p)| <= 5
  {
    hide Optional, Among;
    var a := [Section(MOD_MAGIC, p.policy.value)];
    var b := a + Optional(SECTION_FC, p.fileContexts);
    var c := b + Optional(SECTION_SEUSER, p.seusers);
    var d := c + Optional(SECTION_USER_EXTRA, p.userExtra);
    OneAmong(p.policy.value);
    AmongMore(a, {MOD_MAGIC}, SECTION_FC, p.fileContexts);
    AmongMore(b, {MOD_MAGIC, SECTION_FC}, SECTION_SEUSER, p.seusers);
    AmongMore(c, {MOD_MAGIC, SECTION_FC, SECTION_SEUSER}, SECTION_USER_EXTRA, p.userExtra);
    AmongMore(d, {MOD_MAGIC, SECTION_FC, SECTION_SEUSER, SECTION_USER_EXTRA}, SECTION_NETFILTER, p.netfilterContexts);
    var all := {MOD_MAGIC, SECTION_FC, SECTION_SEUSER, SECTION_USER_EXTRA, SECTION_NETFILTER};
    assert {MOD_MAGIC, SECTION_FC, SECTION_SEUSER, SECTION_USER_EXTRA} + {SECTION_NETFILTER} == all;
    assert {MOD_MAGIC, SECTION_FC, SECTION_SEUSER} + {SECTION_USER_EXTRA} ==
        {MOD_MAGIC, SECTION_FC, SECTION_SEUSER, SECTION_USER_EXTRA};
    assert {MOD_MAGIC, SECTION_FC} + {SECTION_SEUSER} == {MOD_MAGIC, SECTION_FC, SECTION_SEUSER};
    assert {MOD_MAGIC} + {SECTION_FC} == {MOD_MAGIC, SECTION_FC};
    AllAmong(Sections(p), all);
  }

  lemma OneAmong(image: Bytes)
    ensures Among([Section(MOD_MAGIC, image)], {MOD_MAGIC})
  {
  }

  lemma AllAmong(secs: seq<Section>, magics: set<nat>)
    requires Among(secs, magics)
    requires magics == {MOD_MAGIC, SECTION_FC, SECTION_SEUSER, SECTION_USER_EXTRA, SECTION_NETFILTER}
    ensures DistinctKnown(secs) && |secs| <= 5
  {
  }

  lemma {:induction false} OnePolicy(p: Package)
    requires p.policy.Some?
    ensures forall s <- Sections(p) :: s.magic == MOD_MAGIC ==> s.data == p.policy.value
  {
    SectionsKnown(p);
    assert Sections(p)[0].magic == MOD_MAGIC;
  }

  /** All section offsets fit their 32-bit words. */
  predicate Fits(p: Package)
    requires p.policy.Some?
  {
    Offset(Sections(p), |Sections(p)| - 1) < TWO_32
  }

  /** The words of a written header are read back. */
  lemma HeaderReadsBack(p: Package)
    requires p.policy.Some? && p.version < TWO_32 && Fits(p)
    ensures ReadOffsets(Image(p)) == Some((p.version, AllOffsets(Sections(p))))
    ensures |Image(p)| == Offset(Sections(p), |Sections(p)|)
  {
    hide Concat, Le32, Word32, Words, Sections, Increasing, Offset;
    var secs := Sections(p);
    var ws := [PACKAGE_MAGIC, p.version, |secs|] + Offsets(secs);
    var bytes := Image(p);
    SectionsKnown(p);
    ImageSize(p);
    forall i | 0 <= i < |ws| ensures ws[i] < TWO_32 ==> WordAt(bytes, i) == ws[i] {
      WordsAt(ws, i);
      assert bytes[4 * i..4 * i + 4] == Words(ws)[4 * i..4 * i + 4];
      if ws[i] < TWO_32 {
        WordRoundTrip(ws[i]);
      }
    }
    forall i | 0 <= i < |secs| ensures WordAt(bytes, i + 3) == Offset(secs, i) {
      OffsetsGrow(secs, i, |secs| - 1);
      assert ws[i + 3] == Offset(secs, i);
    }
    assert OffsetsIn(bytes, |secs|) == AllOffsets(secs);
    AllIncreasing(secs, |bytes|);
  }

  lemma ImageSize(p: Package)
    requires p.policy.Some?
    ensures |Image(p)| == Offset(Sections(p), |Sections(p)|)
    ensures |Offsets(Sections(p))| == |Sections(p)|
  {
    assert Sections(p)[..|Sections(p)|] == Sections(p);
  }

  /** Reading a package that was just written gives back every section that is present, for each
    * subset of the optional sections, as long as the offsets fit their 32-bit words. */
  lemma PackageReadsBack(p: Package, parse: Parser)
    requires Writable(p) && p.version < TWO_32 && Fits(p) && Parses(parse, p.policy.value)
    ensures ReadPackage(Image(p), parse) == Some(LoadedOf(p))
  {
    hide Concat, Words, Parses, Increasing, Filled, ReadFrom, ReadOffsets, Offset;
    var secs := Sections(p);
    var header := Words([PACKAGE_MAGIC, p.version, |secs|] + Offsets(secs));
    HeaderReadsBack(p);
    FilledAll(p);
    SectionsKnown(p);
    OnePolicy(p);
    ImageSize(p);
    AllIncreasing(secs, |Image(p)|);
    var m := Loaded(p.version, None, None, None, None, None);
    AllReadBack(header, secs, 0, m, parse);
    NothingFilled(m, secs);
  }

  lemma NothingFilled(m: Loaded, secs: seq<Section>)
    ensures Filled(m, secs[..0]) == m
  {
  }

  // When the offsets do not fit.

  lemma MagicAt(header: Bytes, secs: seq<Section>, i: nat, parse: Parser)
    requires i < |secs| && |header| == 4 * (|secs| + 3) && secs[i].magic < TWO_32
    requires secs[i].magic == MOD_MAGIC ==> Parses(parse, secs[i].data)
    ensures var bytes, off := header + Concat(secs), Offset(secs, i);
            off + 4 <= |bytes| && Word32(bytes[off..off + 4]) == secs[i].magic
  {
    hide Concat, Le32, Word32;
    var s := secs[i];
    var rest := ConcatSplit(secs, i);
    Middle(header, Concat(secs[..i]), s.Image(), rest);
    assert header + Concat(secs) == header + (Concat(secs[..i]) + s.Image() + rest);
    if s.magic == MOD_MAGIC {
      assert s.Image() == s.data;
    } else {
      WordRoundTrip(s.magic);
      Prefix(Le32(s.magic), s.data);
    }
  }

  function Seen(d: Option<Bytes>): nat {
    if d.Some? then 1 else 0
  }

  /** The number of sections that have been seen. */
  function Count(m: Loaded): nat {
    Seen(m.policy) + Seen(m.fileContexts) + Seen(m.seusers) + Seen(m.userExtra) + Seen(m.netfilterContexts)
  }

  lemma SectionSeen(bytes: Bytes, off: nat, end: nat, m: Loaded, parse: Parser)
    requires off <= end <= |bytes| && ReadSection(bytes, off, end, m, parse).Some?
    ensures var n, magic := ReadSection(bytes, off, end, m, parse).value, Word32(bytes[off..off + 4]);
            && end - off >= 4 && FieldOf(m, magic).None? && Count(n) <= Count(m) + 1
            && (magic in KNOWN ==> FieldOf(n, magic).Some?) && (magic !in KNOWN ==> n == m)
            && (magic in KNOWN && magic != MOD_MAGIC ==> FieldOf(n, magic) == Some(bytes[off + 4..end]))
            && forall g: nat :: FieldOf(m, g).Some? ==> FieldOf(n, g) == FieldOf(m, g)
  {
    hide Word32;
  }

  const KNOWN: set<nat> := {MOD_MAGIC, SECTION_FC, SECTION_SEUSER, SECTION_USER_EXTRA, SECTION_NETFILTER}

  /** The sections before `i` that lie where their offset says have been seen. */
  ghost predicate SeenBefore(secs: seq<Section>, i: nat, m: Loaded)
    requires i <= |secs|
  {
    Count(m) <= i && forall j :: 0 <= j < i && Offset(secs, j) < TWO_32 ==> FieldOf(m, secs[j].magic).Some?
  }

  /** The offsets a reader finds, wrapped around. */
  ghost function FoundOffsets(secs: seq<Section>): seq<nat> {
    Offsets(secs) + [Offset(secs, |secs|)]
  }

  lemma SeenNext(header: Bytes, secs: seq<Section>, i: nat, m: Loaded, parse: Parser)
    requires |header| == 4 * (|secs| + 3) && i < |secs| && SeenBefore(secs, i, m) && DistinctKnown(secs)
    requires secs[i].magic == MOD_MAGIC ==> Parses(parse, secs[i].data)
    requires |header + Concat(secs)| == Offset(secs, |secs|) && Increasing(FoundOffsets(secs), |header + Concat(secs)|)
    requires ReadSection(header + Concat(secs), FoundOffsets(secs)[i], FoundOffsets(secs)[i + 1], m, parse).Some?
    ensures SeenBefore(secs, i + 1, ReadSection(header + Concat(secs), FoundOffsets(secs)[i],
                                                FoundOffsets(secs)[i + 1], m, parse).value)
  {
    hide Concat, Offset, Parses, ReadSection, Word32, FieldOf, Count;
    assert secs[i] in secs;
    SectionSeen(header + Concat(secs), FoundOffsets(secs)[i], FoundOffsets(secs)[i + 1], m, parse);
    MagicAt(header, secs, i, parse);
  }

  /** The last section is the one that does not lie where its offset says: whatever the reader
    * takes for it is too long, or has been seen, or is no section. */
  lemma LastIsLost(p: Package, m: Loaded, header: Bytes, parse: Parser)
    requires Writable(p) && !Fits(p) && Parses(parse, p.policy.value)
    requires var secs := Sections(p); var n := |secs| - 1;
             && |header| == 4 * (|secs| + 3) && |header + Concat(secs)| == Offset(secs, |secs|)
             && SeenBefore(secs, n, m) && Offset(secs, n) % TWO_32 <= Offset(secs, |secs|)
    ensures var secs := Sections(p); var n := |secs| - 1;
            ReadSection(header + Concat(secs), Offset(secs, n) % TWO_32, Offset(secs, |secs|), m, parse) !=
              Some(LoadedOf(p))
  {
    hide Concat, Parses, ReadSection, Word32, Sections, Offset;
    var secs := Sections(p);
    var n, bytes := |secs| - 1, header + Concat(secs);
    var off, end := Offset(secs, n) % TWO_32, |bytes|;
    var r := ReadSection(bytes, off, end, m, parse);
    SectionTotal(p);
    if r == Some(LoadedOf(p)) {
      SectionSeen(bytes, off, end, m, parse);
      var magic := Word32(bytes[off..off + 4]);
      assert magic in KNOWN && FieldOf(LoadedOf(p), magic).Some?;
      var j := PresentSection(p, magic);
      assert Offset(secs, j) >= TWO_32;
      FirstFits(p);
      assert secs[j].magic != MOD_MAGIC;
      OffsetNext(secs, j);
      OffsetsGrow(secs, j + 1, |secs|);
      assert false;
    }
  }

  lemma SectionTotal(p: Package)
    requires p.policy.Some?
    ensures Count(LoadedOf(p)) == |Sections(p)| >= 1
  {
    SectionCount(p);
  }

  lemma FirstFits(p: Package)
    requires p.policy.Some?
    ensures Sections(p)[0].magic == MOD_MAGIC && Offset(Sections(p), 0) < TWO_32 && DistinctKnown(Sections(p))
  {
    SectionsKnown(p);
  }

  /** Every field comes from a section. */
  lemma PresentSection(p: Package, magic: nat) returns (j: nat)
    requires p.policy.Some? && FieldOf(LoadedOf(p), magic).Some?
    ensures j < |Sections(p)| && Sections(p)[j] == Section(magic, FieldOf(LoadedOf(p), magic).value)
  {
    assert Section(magic, FieldOf(LoadedOf(p), magic).value) in Sections(p);
    j :| 0 <= j < |Sections(p)| && Sections(p)[j] == Section(magic, FieldOf(LoadedOf(p), magic).value);
  }

  lemma {:induction false} WrappedFrom(p: Package, i: nat, m: Loaded, header: Bytes, parse: Parser)
    requires Writable(p) && !Fits(p) && Parses(parse, p.policy.value)
    requires var secs := Sections(p);
             && i < |secs| && |header| == 4 * (|secs| + 3) && |header + Concat(secs)| == Offset(secs, |secs|)
             && SeenBefore(secs, i, m) && Increasing(FoundOffsets(secs), |header + Concat(secs)|)
    ensures ReadFrom(header + Concat(Sections(p)), FoundOffsets(Sections(p)), i, m, parse) != Some(LoadedOf(p))
    decreases |Sections(p)| - i
  {
    hide Concat, Parses, ReadSection, Sections, Offset, SeenBefore;
    var secs, offs := Sections(p), FoundOffsets(Sections(p));
    FirstFits(p);
    assert offs[i] <= offs[i + 1];
    if i == |secs| - 1 {
      assert offs[i] == Offset(secs, i) % TWO_32 && offs[i + 1] == Offset(secs, |secs|);
      LastIsLost(p, m, header, parse);
      LastRead(header + Concat(secs), offs, i, m, parse);
    } else if ReadSection(header + Concat(secs), offs[i], offs[i + 1], m, parse).Some? {
      OnePolicy(p);
      assert secs[i] in secs;
      SeenNext(header, secs, i, m, parse);
      WrappedFrom(p, i + 1, ReadSection(header + Concat(secs), offs[i], offs[i + 1], m, parse).value, header, parse);
    }
  }

  lemma LastRead(bytes: Bytes, offs: seq<nat>, i: nat, m: Loaded, parse: Parser)
    requires Increasing(offs, |bytes|) && i + 2 == |offs|
    ensures ReadFrom(bytes, offs, i, m, parse) == ReadSection(bytes, offs[i], offs[i + 1], m, parse)
  {
  }

  /** An offset that does not fit is lost: the package is not read back. */
  lemma WrappedIsLost(p: Package, parse: Parser)
    requires Writable(p) && p.version < TWO_32 && !Fits(p) && Parses(parse, p.policy.value)
    ensures ReadPackage(Image(p), parse) != Some(LoadedOf(p))
  {
    hide Concat, Words, Parses, Increasing, ReadFrom, Offset, Sections;
    var secs := Sections(p);
    var header := Words([PACKAGE_MAGIC, p.version, |secs|] + Offsets(secs));
    HeaderFound(p);
    ImageSize(p);
    SectionTotal(p);
    if ReadOffsets(Image(p)).Some? {
      WrappedFrom(p, 0, Loaded(p.version, None, None, None, None, None), header, parse);
    }
  }

  /** What a reader finds in the header. */
  lemma HeaderFound(p: Package)
    requires p.policy.Some? && p.version < TWO_32
    ensures ReadOffsets(Image(p)).Some? ==> ReadOffsets(Image(p)).value == (p.version, FoundOffsets(Sections(p)))
    ensures Increasing(FoundOffsets(Sections(p)), |Image(p)|) ==> ReadOffsets(Image(p)).Some?
  {
    hide Concat, Le32, Word32, Words, Sections, Increasing, Offset;
    var secs := Sections(p);
    var ws := [PACKAGE_MAGIC, p.version, |secs|] + Offsets(secs);
    var bytes := Image(p);
    SectionsKnown(p);
    ImageSize(p);
    forall i | 0 <= i < |ws| ensures WordAt(bytes, i) == ws[i] {
      WordsAt(ws, i);
      assert bytes[4 * i..4 * i + 4] == Words(ws)[4 * i..4 * i + 4];
      WordRoundTrip(ws[i]);
    }
    forall i | 0 <= i < |secs| ensures WordAt(bytes, i + 3) == Offset(secs, i) % TWO_32 {
      assert ws[i + 3] == Offset(secs, i) % TWO_32;
    }
    assert OffsetsIn(bytes, |secs|) == FoundOffsets(secs);
  }

  /** So a written package is read back exactly when its offsets fit. */
  lemma ReadsBackWhenFits(p: Package, parse: Parser)
    requires Writable(p) && p.version < TWO_32 && Parses(parse, p.policy.value)
    ensures ReadPackage(Image(p), parse) == Some(LoadedOf(p)) <==> Fits(p)
  {
    if Fits(p) {
      PackageReadsBack(p, parse);
    } else {
      WrappedIsLost(p, parse);
    }
  }
}
