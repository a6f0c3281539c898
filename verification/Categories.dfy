/** Category lists: cats_ebitmap_len and cats_ebitmap_to_str (libsepol/src/kernel_to_conf.c) print
  * a set of categories as names and ranges into a buffer of computed size, and the category loop
  * of mls_context_to_sid (libsepol/src/mls.c) reads such a list.
  */
module Categories {
  import opened AvTables

  /** Where the run of categories that reaches up to `i` begins. */
  ghost function RunStart(s: set<nat>, i: nat): (r: nat)
    requires i in s
    ensures r <= i && r in s
  {
    if i > 0 && i - 1 in s then RunStart(s, i - 1) else i
  }

  predicate RunEnd(s: set<nat>, i: nat) {
    i in s && i + 1 !in s
  }

  /** Some run ends below `n`. */
  ghost predicate HasRun(s: set<nat>, n: nat) {
    exists i: nat :: i < n && RunEnd(s, i)
  }

  function RunText(names: seq<string>, start: nat, i: nat): string
    requires start <= i < |names|
  {
    if start == i then names[start]
    else names[start] + (if i == start + 1 then "," else ".") + names[i]
  }

  /** The text of the runs that end below `n`. */
  ghost function CatText(names: seq<string>, s: set<nat>, n: nat): string
    requires n <= |names|
  {
    if n == 0 then ""
    else CatText(names, s, n - 1) + NextText(names, s, n - 1)
  }

  /** What bit `i` adds to the text: nothing unless a run ends there. */
  ghost function NextText(names: seq<string>, s: set<nat>, i: nat): string
    requires i < |names|
  {
    if RunEnd(s, i) then (if HasRun(s, i) then "," else "") + RunText(names, RunStart(s, i), i) else ""
  }

  /** The length that cats_ebitmap_len adds up. */
  ghost function CatLen(names: seq<string>, s: set<nat>, n: nat): nat
    requires n <= |names|
  {
    if n == 0 then 0
    else CatLen(names, s, n - 1) + if RunEnd(s, n - 1) then |RunText(names, RunStart(s, n - 1), n - 1)| + 1 else 0
  }

  lemma HasRunNext(s: set<nat>, n: nat)
    ensures HasRun(s, n + 1) <==> HasRun(s, n) || RunEnd(s, n)
  {
  }

  /** The computed length is that of the text and its final NUL. */
  lemma {:induction false} LengthIsExact(names: seq<string>, s: set<nat>, n: nat)
    requires n <= |names|
    ensures CatLen(names, s, n) == if HasRun(s, n) then |CatText(names, s, n)| + 1 else 0
    ensures !HasRun(s, n) ==> CatText(names, s, n) == ""
  {
    hide RunText, HasRun, RunStart, RunEnd;
    if n > 0 {
      LengthIsExact(names, s, n - 1);
      HasRunNext(s, n - 1);
      NextLength(names, s, n - 1);
    } else {
      TextStart(names, s);
    }
  }

  lemma NextLength(names: seq<string>, s: set<nat>, i: nat)
    requires i < |names|
    ensures RunEnd(s, i) ==>
              |NextText(names, s, i)| == |RunText(names, RunStart(s, i), i)| + if HasRun(s, i) then 1 else 0
    ensures !RunEnd(s, i) ==> NextText(names, s, i) == ""
  {
    hide RunText, HasRun;
  }

  lemma {:induction false} LenGrows(names: seq<string>, s: set<nat>, m: nat, n: nat)
    requires m <= n <= |names|
    ensures CatLen(names, s, m) <= CatLen(names, s, n)
    decreases n
  {
    if m < n {
      LenGrows(names, s, m, n - 1);
    }
  }

  /** The loop variables at bit `i`: the length and the start of the run that is open. */
  ghost predicate Open(s: set<nat>, i: nat, range: nat, start: nat) {
    if i > 0 && i - 1 in s && i in s then start == RunStart(s, i - 1) && range == i - start
    else range == 0
  }

  lemma OpenNext(s: set<nat>, i: nat, range: nat, start: nat)
    requires i in s && Open(s, i, range, start)
    ensures var b := if range == 0 then i else start;
            b == RunStart(s, i) && range + 1 == i - b + 1 && Open(s, i + 1, if i + 1 in s then range + 1 else 0, b)
  {
  }

  lemma OpenSkip(s: set<nat>, i: nat, range: nat, start: nat)
    requires i !in s && Open(s, i, range, start)
    ensures range == 0 && Open(s, i + 1, 0, start)
  {
  }

  /** cats_ebitmap_len. */
  method CatsEbitmapLen(cats: set<nat>, names: seq<string>) returns (len: nat)
    requires forall i <- cats :: i < |names|
    ensures len == CatLen(names, cats, |names|)
  {
    hide Open;
    len := 0;
    var range, start := 0, 0;
    OpenStart(cats, start);
    for i := 0 to |names|
      invariant Open(cats, i, range, start) && len == CatLen(names, cats, i)
    {
      if i !in cats {
        OpenSkip(cats, i, range, start);
        continue;
      }
      OpenNext(cats, i, range, start);
      if range == 0 {
        start := i;
      }
      range := range + 1;
      if i + 1 in cats {
        continue;
      }
      len := len + |names[start]| + 1;
      if range > 1 {
        len := len + |names[i]| + 1;
      }
      range := 0;
    }
  }

  lemma OpenStart(s: set<nat>, start: nat)
    ensures Open(s, 0, 0, start)
  {
  }

  /** snprintf at `p` with `remaining` bytes of room: what does not fit is cut off. */
  method Snprintf(buf: array<char>, p: nat, remaining: nat, text: string) returns (len: nat)
    requires p + remaining == buf.Length && remaining > 0
    modifies buf
    ensures len == |text| && buf[..p] == old(buf[..p])
    ensures len < remaining ==> buf[..p + len] == old(buf[..p]) + text
  {
    len := |text|;
    var n := if len < remaining then len else remaining - 1;
    for k := 0 to n
      invariant buf[..p + k] == old(buf[..p]) + text[..k]
    {
      buf[p + k] := text[k];
      assert text[..k + 1] == text[..k] + [text[k]];
      assert buf[..p + (k + 1)] == buf[..p + k] + [text[k]];
    }
    buf[p + n] := '\0';
    assert text[..|text|] == text;
    assert buf[..p] == (old(buf[..p]) + text[..n])[..p];
  }

  /** cats_ebitmap_to_str: nothing for no categories; otherwise the text with its NUL fills the
    * buffer exactly, and the exit for a buffer that is too small is never taken. */
  method CatsEbitmapToStr(cats: set<nat>, names: seq<string>) returns (catsbuf: array?<char>)
    requires forall i <- cats :: i < |names|
    ensures catsbuf == null <==> cats == {}
    ensures catsbuf != null ==> catsbuf[..] == CatText(names, cats, |names|) + ['\0']
  {
    hide Open, RunText, HasRun, CatText, CatLen, RunStart;
    var remaining := CatsEbitmapLen(cats, names);
    LengthIsExact(names, cats, |names|);
    SomeRun(cats, |names|);
    if remaining == 0 {
      return null;
    }
    catsbuf := new char[remaining];
    ghost var total := remaining;
    var p: nat, range: nat, start: nat, first := 0, 0, 0, true;
    OpenStart(cats, start);
    TextStart(names, cats);
    for i := 0 to |names|
      invariant catsbuf.Length == total && p + remaining == total && remaining > 0
      invariant Open(cats, i, range, start) && first == !HasRun(cats, i)
      invariant catsbuf[..p] == CatText(names, cats, i)
    {
      HasRunNext(cats, i);
      TextStep(names, cats, i);
      if i !in cats {
        OpenSkip(cats, i, range, start);
        continue;
      }
      OpenNext(cats, i, range, start);
      if range == 0 {
        start := i;
      }
      range := range + 1;
      if i + 1 in cats {
        continue;
      }
      var len := PrintRun(catsbuf, p, remaining, cats, names, i, range, start, first);
      if len >= remaining {
        return null;
      }
      p, remaining := p + len, remaining - len;
      first, range := false, 0;
    }
    catsbuf[p] := '\0';
    assert catsbuf[..] == catsbuf[..p] + ['\0'];
  }

  /** The two calls of snprintf for the run that ends at `i`. */
  method PrintRun(buf: array<char>, p: nat, remaining: nat, ghost cats: set<nat>, names: seq<string>, i: nat,
                  range: nat, start: nat, first: bool) returns (len: nat)
    requires i < |names| && RunEnd(cats, i) && start == RunStart(cats, i) && range == i - start + 1
    requires first == !HasRun(cats, i) && buf.Length == CatLen(names, cats, |names|)
    requires p + remaining == buf.Length && remaining > 0 && buf[..p] == CatText(names, cats, i)
    modifies buf
    ensures len < remaining && p + len == |CatText(names, cats, i + 1)| && buf[..p + len] == CatText(names, cats, i + 1)
  {
    hide RunText, HasRun, CatText, CatLen, RunStart;
    HasRunNext(cats, i);
    TextStep(names, cats, i);
    LengthIsExact(names, cats, i + 1);
    LenGrows(names, cats, i + 1, |names|);
    len := Snprintf(buf, p, remaining, (if first then "" else ",") + RunTextOf(names, range, start, i));
  }

  /** The format of one run, by its length. */
  function RunTextOf(names: seq<string>, range: nat, start: nat, i: nat): (r: string)
    requires start <= i < |names| && range == i - start + 1
    ensures r == RunText(names, start, i)
  {
    if range > 1 then names[start] + [if range == 2 then ',' else '.'] + names[i] else names[start]
  }

  lemma TextStart(names: seq<string>, s: set<nat>)
    ensures CatText(names, s, 0) == "" && !HasRun(s, 0)
  {
  }

  lemma TextStep(names: seq<string>, s: set<nat>, i: nat)
    requires i < |names|
    ensures CatText(names, s, i + 1) == CatText(names, s, i) + NextText(names, s, i)
    ensures |CatText(names, s, i + 1)| == |CatText(names, s, i)| + |NextText(names, s, i)|
  {
  }

  /** A nonempty set has a run. */
  lemma {:induction false} SomeRun(s: set<nat>, n: nat)
    requires forall i <- s :: i < n
    ensures HasRun(s, n) <==> s != {}
  {
    if s != {} {
      var m := Greatest(s);
      assert RunEnd(s, m);
    }
  }

  ghost function Greatest(s: set<nat>): (m: nat)
    requires s != {}
    ensures m in s && forall x <- s :: x <= m
  {
    var a :| a in s;
    if s == {a} then a
    else
      var m := Greatest(s - {a});
      assert forall x <- s :: x == a || x in s - {a};
      if a > m then a else m
  }

  // Reading a list: the category loop of mls_context_to_sid, on the text up to the first NUL.

  function Find(text: string, cs: set<char>): (i: nat)
    ensures i <= |text| && (forall k :: 0 <= k < i ==> text[k] !in cs) && (i < |text| ==> text[i] in cs)
  {
    if text == "" || text[0] in cs then 0 else 1 + Find(text[1..], cs)
  }

  /** p_cats.table: the values of the categories, counted from 1. */
  type CatTable = map<string, nat>

  function Span(low: nat, high: nat): (r: set<nat>)
    ensures forall x: nat :: x in r <==> low <= x < high
  {
    if low >= high then {} else Span(low, high - 1) + {high - 1}
  }

  /** The bits of an entry, and those of the rest of the list. */
  function Added(bits: set<nat>, more: Option<set<nat>>): Option<set<nat>> {
    match more case None => None case Some(m) => Some(bits + m)
  }

  lemma AddedSome(a: set<nat>, b: set<nat>)
    ensures Added(a, Some(b)) == Some(a + b)
  {
  }

  lemma AddedNone(a: set<nat>)
    ensures forall more :: Added(a, more) == None <==> more == None
  {
  }

  lemma AddedTwice(a: set<nat>, b: set<nat>, more: Option<set<nat>>)
    ensures Added(a, Added(b, more)) == Added(a + b, more) && Added({}, more) == more
  {
    if more.Some? {
      assert a + (b + more.value) == a + b + more.value && {} + more.value == more.value;
    }
  }

  /** One entry of the list: a name, or two names with a dot between them. */
  function Entry(table: CatTable, piece: string): Option<set<nat>> {
    var d := Find(piece, {'.'});
    if piece[..d] !in table || table[piece[..d]] == 0 then None
    else
      var low := table[piece[..d]];
      if d == |piece| then Some({low - 1})
      else if piece[d + 1..] !in table || low >= table[piece[d + 1..]] then None
      else Some(Span(low - 1, table[piece[d + 1..]]))
  }

  /** The set a list stands for; a dash or the end of the text ends it. */
  function ReadList(table: CatTable, text: string): Option<set<nat>>
    decreases |text|
  {
    var e := Find(text, {',', '-'});
    match Entry(table, text[..e])
    case None => None
    case Some(bits) =>
      if e < |text| && text[e] == ',' then
        Added(bits, ReadList(table, text[e + 1..]))
      else Some(bits)
  }

  /** The body of the loop: the bits of one entry. */
  method SetEntry(table: CatTable, piece: string, cat: set<nat>) returns (r: Option<set<nat>>)
    requires forall n <- table :: table[n] > 0
    ensures r == Added(cat, Entry(table, piece))
  {
    var d := Find(piece, {'.'});
    if piece[..d] !in table {
      return None;
    }
    var low := table[piece[..d]];
    var bits := cat + {low - 1};
    if d < |piece| {
      if piece[d + 1..] !in table {
        return None;
      }
      var high := table[piece[d + 1..]];
      if low >= high {
        return None;
      }
      for i := low to high
        invariant bits == cat + Span(low - 1, i)
      {
        bits := bits + {i};
      }
    }
    r := Some(bits);
  }

  /** "Extract category set". */
  method ReadCategories(table: CatTable, text: string) returns (r: Option<set<nat>>)
    requires forall n <- table :: table[n] > 0
    ensures r == ReadList(table, text)
  {
    hide Entry, Find, Added;
    var p := 0;
    var cat: set<nat> := {};
    AddedTwice({}, {}, ReadList(table, text));
    assert text[0..] == text;
    while true
      invariant p <= |text|
      invariant ReadList(table, text) == Added(cat, ReadList(table, text[p..]))
      decreases |text| - p
    {
      var rest := text[p..];
      var e := Find(rest, {',', '-'});
      var next := SetEntry(table, rest[..e], cat);
      AddedNone(cat);
      if next.None? {
        return None;
      }
      ghost var bits := Entry(table, rest[..e]).value;
      if e < |rest| { AddedTwice(cat, bits, ReadList(table, rest[e + 1..])); }
      AddedSome(cat, bits);
      cat := next.value;
      if e == |rest| || rest[e] != ',' {
        return Some(cat);
      }
      assert rest[e + 1..] == text[p + e + 1..];
      p := p + e + 1;
    }
  }

  // The round trip.

  /** Names without separators, which the table leads back to their values. */
  ghost predicate GoodNames(table: CatTable, names: seq<string>) {
    forall i :: 0 <= i < |names| ==>
      && names[i] in table && table[names[i]] == i + 1
      && ',' !in names[i] && '-' !in names[i] && '.' !in names[i]
  }

  lemma {:induction false} FindAppend(a: string, b: string, cs: set<char>)
    requires (forall k :: 0 <= k < |a| ==> a[k] !in cs) && (b == "" || b[0] in cs)
    ensures Find(a + b, cs) == |a|
  {
    if a == "" {
      assert a + b == b;
    } else {
      assert (a + b)[1..] == a[1..] + b && (a + b)[0] == a[0];
      FindAppend(a[1..], b, cs);
    }
  }

  /** A piece without separators at the head of a list. */
  lemma ReadPiece(table: CatTable, piece: string, rest: string)
    requires ',' !in piece && '-' !in piece && (rest == "" || rest[0] == ',')
    ensures ReadList(table, piece + rest) ==
            match Entry(table, piece)
            case None => None
            case Some(bits) =>
              if rest == "" then Some(bits) else Added(bits, ReadList(table, rest[1..]))
  {
    hide Entry, Find;
    FindAppend(piece, rest, {',', '-'});
    assert (piece + rest)[..|piece|] == piece;
    if rest != "" {
      assert (piece + rest)[|piece| + 1..] == rest[1..];
    }
  }

  /** Lists are joined with a comma. */
  lemma {:induction false} ReadJoined(table: CatTable, a: string, b: string)
    requires '-' !in a
    ensures ReadList(table, a + "," + b) ==
            match ReadList(table, a) case None => None case Some(x) => Added(x, ReadList(table, b))
    decreases |a|
  {
    hide Entry, Find;
    var e := Find(a, {',', '-'});
    var piece, rest := a[..e], a[e..];
    assert a == piece + rest;
    assert ',' !in piece && '-' !in piece && (rest == "" || rest[0] == ',');
    ReadPiece(table, piece, rest);
    ReadPiece(table, piece, rest + "," + b);
    assert a + "," + b == piece + (rest + "," + b);
    if rest == "" {
      assert (rest + "," + b)[1..] == b;
    } else {
      assert (rest + "," + b)[1..] == rest[1..] + "," + b;
      ReadJoined(table, rest[1..], b);
      if Entry(table, piece).Some? && ReadList(table, rest[1..]).Some? {
        AddedTwice(Entry(table, piece).value, ReadList(table, rest[1..]).value, ReadList(table, b));
      }
    }
  }

  lemma EntryName(table: CatTable, names: seq<string>, i: nat)
    requires GoodNames(table, names) && i < |names|
    ensures Entry(table, names[i]) == Some({i})
  {
    FindAppend(names[i], "", {'.'});
    assert names[i] + "" == names[i] && names[i][..|names[i]|] == names[i];
  }

  lemma EntryRange(table: CatTable, names: seq<string>, i: nat, j: nat)
    requires GoodNames(table, names) && i < j < |names|
    ensures Entry(table, names[i] + "." + names[j]) == Some(Span(i, j + 1))
  {
    var piece := names[i] + ("." + names[j]);
    FindAppend(names[i], "." + names[j], {'.'});
    assert piece == names[i] + "." + names[j];
    assert piece[..|names[i]|] == names[i] && piece[|names[i]| + 1..] == names[j];
  }

  /** What an entry stands for: a known name for its category; two known names, the first with
    * the smaller value, for all categories from the first to the second. */
  lemma EntryForms(table: CatTable, a: string, b: string)
    requires '.' !in a
    ensures Entry(table, a) == if a in table && table[a] > 0 then Some({table[a] - 1}) else None
    ensures if a in table && b in table && 0 < table[a] < table[b]
            then Entry(table, a + "." + b).Some? &&
                 forall x: nat :: x in Entry(table, a + "." + b).value <==> table[a] <= x + 1 <= table[b]
            else Entry(table, a + "." + b) == None
  {
    FindAppend(a, "", {'.'});
    assert a + "" == a && a[..|a|] == a;
    var piece := a + ("." + b);
    FindAppend(a, "." + b, {'.'});
    assert piece == a + "." + b;
    assert piece[..|a|] == a && piece[|a| + 1..] == b;
  }

  lemma ReadPieceDash(table: CatTable, piece: string, rest: string)
    requires ',' !in piece && '-' !in piece && rest != "" && rest[0] == '-'
    ensures ReadList(table, piece + rest) == Entry(table, piece)
  {
    hide Entry;
    FindAppend(piece, rest, {',', '-'});
    assert (piece + rest)[..|piece|] == piece;
  }

  /** A dash ends the list. */
  lemma {:induction false} DashEnds(table: CatTable, a: string, b: string)
    requires '-' !in a
    ensures ReadList(table, a + "-" + b) == ReadList(table, a)
    decreases |a|
  {
    hide Entry, Find, ReadList;
    var e := Find(a, {',', '-'});
    var piece, rest := a[..e], a[e..];
    assert a == piece + rest;
    assert ',' !in piece && '-' !in piece && (rest == "" || rest[0] == ',');
    ReadPiece(table, piece, rest);
    assert a + "-" + b == piece + (rest + "-" + b);
    if rest == "" {
      assert rest + "-" + b == "-" + b;
      ReadPieceDash(table, piece, "-" + b);
    } else {
      ReadPiece(table, piece, rest + "-" + b);
      assert (rest + "-" + b)[1..] == rest[1..] + "-" + b;
      DashEnds(table, rest[1..], b);
    }
  }

  /** The text of a run reads as the run. */
  lemma ReadRun(table: CatTable, names: seq<string>, start: nat, i: nat)
    requires GoodNames(table, names) && start <= i < |names|
    ensures ReadList(table, RunText(names, start, i)) == Some(Span(start, i + 1))
    ensures '-' !in RunText(names, start, i)
  {
    hide Entry, Find;
    var a, b := names[start], names[i];
    if start == i {
      EntryName(table, names, i);
      ReadPiece(table, a, "");
      assert a + "" == a && Span(i, i + 1) == {i};
    } else if i == start + 1 {
      EntryName(table, names, start);
      EntryName(table, names, i);
      ReadPiece(table, a, "," + b);
      ReadPiece(table, b, "");
      assert ("," + b)[1..] == b && b + "" == b && a + "," + b == a + ("," + b);
      assert Span(start, i + 1) == {start} + {i};
    } else {
      EntryRange(table, names, start, i);
      ReadPiece(table, a + "." + b, "");
      assert a + "." + b + "" == a + "." + b;
    }
  }

  /** The categories of the runs that end below `n`. */
  ghost function Done(s: set<nat>, n: nat): set<nat> {
    if n == 0 then {}
    else if RunEnd(s, n - 1) then Done(s, n - 1) + Span(RunStart(s, n - 1), n) else Done(s, n - 1)
  }

  /** They are all categories below `n` but those of a run that goes on. */
  lemma {:induction false} DoneIsAll(s: set<nat>, n: nat)
    ensures forall x: nat :: x in Done(s, n) <==>
              x in s && x < n && !(n > 0 && n - 1 in s && n in s && RunStart(s, n - 1) <= x)
  {
    if n > 0 {
      DoneIsAll(s, n - 1);
      if n - 1 in s {
        RunIsFull(s, n - 1);
      }
    }
  }

  lemma {:induction false} RunIsFull(s: set<nat>, i: nat)
    requires i in s
    ensures forall x: nat :: RunStart(s, i) <= x <= i ==> x in s
    ensures i > 0 && i - 1 in s ==> RunStart(s, i) == RunStart(s, i - 1)
  {
    if i > 0 && i - 1 in s {
      RunIsFull(s, i - 1);
    }
  }

  lemma {:induction false} ReadsDone(table: CatTable, names: seq<string>, s: set<nat>, n: nat)
    requires GoodNames(table, names) && n <= |names|
    ensures '-' !in CatText(names, s, n)
    ensures HasRun(s, n) ==> ReadList(table, CatText(names, s, n)) == Some(Done(s, n))
    ensures !HasRun(s, n) ==> CatText(names, s, n) == "" && Done(s, n) == {}
  {
    hide ReadList, RunText, HasRun, GoodNames, RunStart;
    TextStart(names, s);
    if n > 0 {
      ReadsDone(table, names, s, n - 1);
      HasRunNext(s, n - 1);
      if RunEnd(s, n - 1) {
        var start := RunStart(s, n - 1);
        ReadRun(table, names, start, n - 1);
        if HasRun(s, n - 1) {
          ReadJoined(table, CatText(names, s, n - 1), RunText(names, start, n - 1));
          assert CatText(names, s, n) == CatText(names, s, n - 1) + "," + RunText(names, start, n - 1);
        } else {
          assert CatText(names, s, n) == RunText(names, start, n - 1);
          assert Done(s, n) == Span(start, n);
        }
      } else {
        assert CatText(names, s, n) == CatText(names, s, n - 1);
      }
    }
  }

  /** A printed category list is read back as the set it was printed for. */
  lemma ReadsBack(table: CatTable, names: seq<string>, s: set<nat>)
    requires GoodNames(table, names) && s != {} && forall i <- s :: i < |names|
    ensures ReadList(table, CatText(names, s, |names|)) == Some(s)
  {
    hide ReadList, GoodNames, Done;
    ReadsDone(table, names, s, |names|);
    SomeRun(s, |names|);
    DoneIsAll(s, |names|);
    assert Done(s, |names|) == s;
  }
}
