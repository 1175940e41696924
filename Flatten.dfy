/**
 * Stage 2: the raw page files become one interim table, a row per track.
 *
 * A page file is its name and its decoded JSON document; the directory is
 * the list glob returns, in no particular order. A row is a Python dict,
 * whose keys keep their insertion order.
 */
module Flatten {
  import opened Wrappers
  import opened Text
  import Fetch
  import Csv

  // ---------------------------------------------------------------- input

  /** An "artist" or "album" object; None is a member the object lacks. */
  datatype Block = Block(text: Option<string>, mbid: Option<string>)

  /** The "date" object: "uts" is the play time as decimal seconds since the Epoch. */
  datatype DateBlock = DateBlock(uts: Option<string>)

  /** One element of recenttracks.track. A track being played now has no "date". */
  datatype Track = Track(
    name: Option<string>, mbid: Option<string>,
    date: Option<DateBlock>, artist: Option<Block>, album: Option<Block>)

  /** A page file's JSON: the track list, or Malformed when it does not decode or lacks recenttracks.track. */
  datatype PageDoc = Malformed | Doc(tracks: seq<Track>)

  datatype PageFile = PageFile(name: string, doc: PageDoc)

  // ----------------------------------------------------------------- rows

  /** A dict value: None, a str, or the int page number. */
  datatype Cell = Null | Str(text: string) | Num(n: int)

  /** The keys track_to_row writes, each standing for its field name. */
  datatype Field =
    PlayedAtUtc | TrackName | ArtistName | AlbumName | TrackMbid | ArtistMbid | AlbumMbid | SourcePage | SourceFile

  function FieldName(f: Field): string {
    match f
    case PlayedAtUtc => "played_at_utc"
    case TrackName => "track_name"
    case ArtistName => "artist_name"
    case AlbumName => "album_name"
    case TrackMbid => "track_mbid"
    case ArtistMbid => "artist_mbid"
    case AlbumMbid => "album_mbid"
    case SourcePage => "source_page"
    case SourceFile => "source_file"
  }

  /** The order of the dict literal in track_to_row. */
  const FieldOrder: seq<Field> :=
    [PlayedAtUtc, TrackName, ArtistName, AlbumName, TrackMbid, ArtistMbid, AlbumMbid, SourcePage, SourceFile]

  function Names(fs: seq<Field>): (r: seq<string>)
    ensures |r| == |fs| && forall k :: 0 <= k < |fs| ==> r[k] == FieldName(fs[k])
  {
    seq(|fs|, k requires 0 <= k < |fs| => FieldName(fs[k]))
  }

  /** Distinct fields have distinct names, so the header and each CSV record have nine columns. */
  lemma FieldNameInjective(f: Field, g: Field)
    requires FieldName(f) == FieldName(g)
    ensures f == g
  {
    var x, y := FieldName(f), FieldName(g);
    assert |x| == |y| && x[0] == y[0] && x[6] == y[6] && x[7] == y[7];
  }

  /** A Python dict: its keys in insertion order and the value of each. */
  datatype Dict = Dict(keys: seq<Field>, entries: map<Field, Cell>)

  ghost predicate ValidDict(d: Dict) {
    (forall i, j :: 0 <= i < j < |d.keys| ==> d.keys[i] != d.keys[j])
    && (forall k :: k in d.entries <==> k in d.keys)
  }

  function OfText(v: Option<string>): Cell {
    match v
    case None => Null
    case Some(s) => Str(s)
  }

  /**
   * The value track_to_row puts under key f. A missing "date", "artist" or
   * "album" object reads as an empty one, so its fields come out None
   * instead of raising.
   */
  function FieldValue(t: Track, f: Field, sourcePage: int, sourceFile: string): Cell {
    var date := t.date.GetOr(DateBlock(None));
    var artist := t.artist.GetOr(Block(None, None));
    var album := t.album.GetOr(Block(None, None));
    match f
    case PlayedAtUtc => OfText(date.uts)
    case TrackName => OfText(t.name)
    case ArtistName => OfText(artist.text)
    case AlbumName => OfText(album.text)
    case TrackMbid => OfText(t.mbid)
    case ArtistMbid => OfText(artist.mbid)
    case AlbumMbid => OfText(album.mbid)
    case SourcePage => Num(sourcePage)
    case SourceFile => Str(sourceFile)
  }

  /** track_to_row: a dict of the nine fields, in a fixed order. */
  function TrackToRow(t: Track, sourcePage: int, sourceFile: string): (row: Dict)
    ensures row.keys == FieldOrder && forall f :: f in row.entries
    ensures ValidDict(row)
    ensures forall f :: row.entries[f] == FieldValue(t, f, sourcePage, sourceFile)
  {
    FieldOrderListsAll();
    Dict(FieldOrder, map f | f in FieldOrder :: FieldValue(t, f, sourcePage, sourceFile))
  }

  /**
   * The lineage fields are the page number and file name passed in; a track
   * without "date", "artist" or "album" gets None in that object's fields.
   */
  lemma TrackToRowFields(t: Track, sourcePage: int, sourceFile: string)
    ensures var row := TrackToRow(t, sourcePage, sourceFile);
      row.entries[SourcePage] == Num(sourcePage) && row.entries[SourceFile] == Str(sourceFile)
      && row.entries[TrackName] == OfText(t.name) && row.entries[TrackMbid] == OfText(t.mbid)
      && (t.date.None? ==> row.entries[PlayedAtUtc] == Null)
      && (t.date.Some? ==> row.entries[PlayedAtUtc] == OfText(t.date.value.uts))
      && (t.artist.None? ==> row.entries[ArtistName] == Null && row.entries[ArtistMbid] == Null)
      && (t.album.None? ==> row.entries[AlbumName] == Null && row.entries[AlbumMbid] == Null)
  {
    var row := TrackToRow(t, sourcePage, sourceFile);
    var f := (g: Field) => FieldValue(t, g, sourcePage, sourceFile);
    assert row.entries[SourcePage] == f(SourcePage) && row.entries[SourceFile] == f(SourceFile);
    assert row.entries[TrackName] == f(TrackName) && row.entries[TrackMbid] == f(TrackMbid);
    assert row.entries[PlayedAtUtc] == f(PlayedAtUtc);
    assert row.entries[ArtistName] == f(ArtistName) && row.entries[ArtistMbid] == f(ArtistMbid);
    assert row.entries[AlbumName] == f(AlbumName) && row.entries[AlbumMbid] == f(AlbumMbid);
  }

  /** Every field appears in FieldOrder, exactly once. */
  lemma FieldOrderListsAll()
    ensures forall f :: f in FieldOrder
    ensures forall i, j :: 0 <= i < j < |FieldOrder| ==> FieldOrder[i] != FieldOrder[j]
  {
    forall f
      ensures f in FieldOrder
    {
      assert FieldOrder[FieldIndex(f)] == f;
    }
  }

  function FieldIndex(f: Field): (i: nat)
    ensures i < |FieldOrder| && FieldOrder[i] == f
  {
    match f
    case PlayedAtUtc => 0
    case TrackName => 1
    case ArtistName => 2
    case AlbumName => 3
    case TrackMbid => 4
    case ArtistMbid => 5
    case AlbumMbid => 6
    case SourcePage => 7
    case SourceFile => 8
  }

  /** The rows of one page, in track order. */
  function PageRows(tracks: seq<Track>, page: int, file: string): (rows: seq<Dict>)
    ensures |rows| == |tracks|
    ensures forall k :: 0 <= k < |rows| ==> rows[k] == TrackToRow(tracks[k], page, file)
  {
    seq(|tracks|, k requires 0 <= k < |tracks| => TrackToRow(tracks[k], page, file))
  }

  // ------------------------------------------------------- names and order

  /** glob("page_*.json"): the star matches any text, the empty text too. */
  predicate MatchesGlob(name: string) {
    |name| >= 10 && name[..5] == "page_" && name[|name| - 5..] == ".json"
  }

  /** Path.stem of a matching name: the name without ".json". */
  function Stem(name: string): string
    requires MatchesGlob(name)
  {
    name[..|name| - 5]
  }

  /** int(path.stem.split("_")[1]): None where int() raises ValueError. */
  function PageNumber(name: string): Option<int>
    requires MatchesGlob(name)
  {
    var stem := Stem(name);
    assert stem == "page" + ['_'] + stem[5..];
    SplitAt("page", '_', stem[5..]);
    ParseInt(Split(stem, '_')[1])
  }

  /** The files of the listing that match page_*.json, in listing order: none lost, none added. */
  function Matching(dir: seq<PageFile>): (r: seq<PageFile>)
    ensures forall k :: 0 <= k < |r| ==> MatchesGlob(r[k].name)
    ensures multiset(r) <= multiset(dir)
    ensures forall f: PageFile :: MatchesGlob(f.name) ==> multiset(r)[f] == multiset(dir)[f]
  {
    if dir == [] then []
    else
      var rest := Matching(dir[1..]);
      assert dir == [dir[0]] + dir[1..];
      if MatchesGlob(dir[0].name) then [dir[0]] + rest else rest
  }

  /** sorted(): non-decreasing by name, Python's str order. */
  predicate SortedByName(s: seq<PageFile>) {
    forall i, j :: 0 <= i < j < |s| ==> !LexLess(s[j].name, s[i].name)
  }

  /** Insert x after the files whose names do not exceed its own. */
  function InsertByName(x: PageFile, s: seq<PageFile>): seq<PageFile> {
    if s == [] || LexLess(x.name, s[0].name) then [x] + s else [s[0]] + InsertByName(x, s[1..])
  }

  /** sorted() of the listing, by name: stable insertion, the last file inserted last. */
  function SortByName(s: seq<PageFile>): seq<PageFile> {
    if s == [] then [] else InsertByName(s[|s| - 1], SortByName(s[..|s| - 1]))
  }

  // ----------------------------------------------------------- the stage

  datatype Failure = BadPageNumber(file: string) | BadPage(file: string) | NoRows

  datatype Interim = Interim(fieldnames: seq<string>, rows: seq<Dict>)

  predicate AllMatch(files: seq<PageFile>) {
    forall k :: 0 <= k < |files| ==> MatchesGlob(files[k].name)
  }

  /** The rows of the files in order, or the first failure: a name int() rejects, or a page without tracks. */
  function Gather(files: seq<PageFile>): Result<seq<Dict>, Failure>
    requires AllMatch(files)
  {
    if files == [] then Ok([])
    else
      var f := files[0];
      match PageNumber(f.name)
      case None => Err(BadPageNumber(f.name))
      case Some(n) =>
        match f.doc
        case Malformed => Err(BadPage(f.name))
        case Doc(tracks) =>
          match Gather(files[1..])
          case Err(e) => Err(e)
          case Ok(rest) => Ok(PageRows(tracks, n, f.name) + rest)
  }

  function Prepend(rows: seq<Dict>, r: Result<seq<Dict>, Failure>): Result<seq<Dict>, Failure> {
    match r
    case Ok(more) => Ok(rows + more)
    case Err(e) => Err(e)
  }

  lemma PrependNothing(r: Result<seq<Dict>, Failure>)
    ensures Prepend([], r) == r
  {
    if r.Ok? {
      assert [] + r.value == r.value;
    }
  }

  /** sorted(raw_dir.glob("page_*.json")): the matching files of the listing, ordered by name. */
  function SortedPages(dir: seq<PageFile>): (files: seq<PageFile>)
    ensures AllMatch(files) && SortedByName(files)
    ensures multiset(files) == multiset(Matching(dir))
  {
    var files := SortByName(Matching(dir));
    SortByNamePermutes(Matching(dir));
    MultisetSubsetMatch(files, Matching(dir));
    files
  }

  /** The stage: the sorted pages' rows, and fieldnames = rows[0].keys(), which fails on no rows. */
  function FlattenAll(dir: seq<PageFile>): Result<Interim, Failure> {
    match Gather(SortedPages(dir))
    case Err(e) => Err(e)
    case Ok(rows) => if rows == [] then Err(NoRows) else Ok(Interim(Names(rows[0].keys), rows))
  }

  /** One page of the loop: its rows join the rows so far, or its failure ends the stage. */
  lemma GatherStep(files: seq<PageFile>, i: nat, rows: seq<Dict>)
    requires AllMatch(files) && i < |files|
    ensures var f := files[i];
      AllMatch(files[i..]) && AllMatch(files[i + 1..])
      && (PageNumber(f.name).None? ==> Prepend(rows, Gather(files[i..])) == Err(BadPageNumber(f.name)))
      && (PageNumber(f.name).Some? && f.doc.Malformed? ==> Prepend(rows, Gather(files[i..])) == Err(BadPage(f.name)))
      && (PageNumber(f.name).Some? && f.doc.Doc? ==>
            Prepend(rows, Gather(files[i..]))
            == Prepend(rows + PageRows(f.doc.tracks, PageNumber(f.name).value, f.name), Gather(files[i + 1..])))
  {
    assert files[i..][0] == files[i] && files[i..][1..] == files[i + 1..];
    GatherFirst(files[i..], rows);
  }

  lemma GatherFirst(fs: seq<PageFile>, rows: seq<Dict>)
    requires AllMatch(fs) && |fs| >= 1
    ensures var f := fs[0];
      AllMatch(fs[1..])
      && (PageNumber(f.name).None? ==> Prepend(rows, Gather(fs)) == Err(BadPageNumber(f.name)))
      && (PageNumber(f.name).Some? && f.doc.Malformed? ==> Prepend(rows, Gather(fs)) == Err(BadPage(f.name)))
      && (PageNumber(f.name).Some? && f.doc.Doc? ==>
            Prepend(rows, Gather(fs))
            == Prepend(rows + PageRows(f.doc.tracks, PageNumber(f.name).value, f.name), Gather(fs[1..])))
  {
    AllMatchTail(fs);
    if PageNumber(fs[0].name).Some? && fs[0].doc.Doc? {
      GatherDoc(fs, rows);
    }
  }

  lemma AllMatchTail(fs: seq<PageFile>)
    requires |fs| >= 1 && AllMatch(fs)
    ensures AllMatch(fs[1..])
  {
    assert forall k :: 0 <= k < |fs| - 1 ==> fs[1..][k] == fs[k + 1];
  }

  lemma GatherDoc(fs: seq<PageFile>, rows: seq<Dict>)
    requires |fs| >= 1 && AllMatch(fs) && AllMatch(fs[1..])
    requires PageNumber(fs[0].name).Some? && fs[0].doc.Doc?
    ensures Prepend(rows, Gather(fs))
      == Prepend(rows + PageRows(fs[0].doc.tracks, PageNumber(fs[0].name).value, fs[0].name), Gather(fs[1..]))
  {
    var f := fs[0];
    var more := PageRows(f.doc.tracks, PageNumber(f.name).value, f.name);
    assert Gather(fs) == Prepend(more, Gather(fs[1..]));
    PrependTwice(rows, more, Gather(fs[1..]));
  }

  lemma PrependTwice(rows: seq<Dict>, more: seq<Dict>, r: Result<seq<Dict>, Failure>)
    ensures Prepend(rows, Prepend(more, r)) == Prepend(rows + more, r)
  {
    if r.Ok? {
      assert rows + (more + r.value) == rows + more + r.value;
    }
  }

  lemma PageRowsSnoc(tracks: seq<Track>, j: nat, page: int, file: string)
    requires j < |tracks|
    ensures PageRows(tracks[..j + 1], page, file) == PageRows(tracks[..j], page, file) + [TrackToRow(tracks[j], page, file)]
  {
    assert tracks[..j + 1][j] == tracks[j];
  }

  /** The main loop of the flatten script: the pages in sorted order, their tracks in list order. */
  /** The inner loop of flatten(): one row per track of a page, appended in the page's order. */
  method AppendPage(rows: seq<Dict>, tracks: seq<Track>, page: int, name: string) returns (out: seq<Dict>)
    ensures out == rows + PageRows(tracks, page, name)
  {
    out := rows;
    var j := 0;
    while j < |tracks|
      invariant 0 <= j <= |tracks|
      invariant out == rows + PageRows(tracks[..j], page, name)
    {
      PageRowsSnoc(tracks, j, page, name);
      out := out + [TrackToRow(tracks[j], page, name)];
      j := j + 1;
    }
    assert tracks[..j] == tracks;
  }

  method Flatten(dir: seq<PageFile>) returns (r: Result<Interim, Failure>)
    ensures r == FlattenAll(dir)
  {
    var files := SortedPages(dir);
    var rows: seq<Dict> := [];
    var i := 0;
    assert files[0..] == files;
    PrependNothing(Gather(files));
    while i < |files|
      invariant 0 <= i <= |files|
      invariant AllMatch(files[i..])
      invariant Gather(files) == Prepend(rows, Gather(files[i..]))
    {
      var f := files[i];
      GatherStep(files, i, rows);
      var page := PageNumber(f.name);
      if page.None? {
        return Err(BadPageNumber(f.name));
      }
      if f.doc.Malformed? {
        return Err(BadPage(f.name));
      }
      rows := AppendPage(rows, f.doc.tracks, page.value, f.name);
      i := i + 1;
    }
    assert files[i..] == [] && rows + [] == rows;
    assert Gather(files) == Ok(rows);
    if rows == [] {
      return Err(NoRows);
    }
    return Ok(Interim(Names(rows[0].keys), rows));
  }

  /** DictWriter then DictReader: None is written as "", the page number as str(n). */
  function CellText(c: Cell): string {
    match c
    case Null => ""
    case Str(s) => s
    case Num(n) => IntToString(n)
  }

  /** The field a column name stands for, if any. */
  function FieldNamed(key: string): (r: Option<Field>)
    ensures r.Some? ==> FieldName(r.value) == key
  {
    Lookup(FieldOrder, key)
  }

  function Lookup(fs: seq<Field>, key: string): (r: Option<Field>)
    ensures r.Some? ==> r.value in fs && FieldName(r.value) == key
    ensures r.None? ==> forall k :: 0 <= k < |fs| ==> FieldName(fs[k]) != key
  {
    if fs == [] then None else if FieldName(fs[0]) == key then Some(fs[0]) else Lookup(fs[1..], key)
  }

  /** The record as DictReader reads the written row back: each field's text under its column name. */
  function ToRecord(d: Dict): Csv.Record {
    map key | key in Names(FieldOrder) && FieldNamed(key).Some? && FieldNamed(key).value in d.entries
      :: CellText(d.entries[FieldNamed(key).value])
  }

  /** The interim CSV as read back: header then records. */
  function WriteInterim(t: Interim): Csv.Table {
    Csv.Table(t.fieldnames, seq(|t.rows|, k requires 0 <= k < |t.rows| => ToRecord(t.rows[k])))
  }

  // ------------------------------------------------------------- sorting

  /** No file of s is named below b. */
  predicate NamedFrom(b: string, s: seq<PageFile>) {
    forall k :: 0 <= k < |s| ==> !LexLess(s[k].name, b)
  }

  lemma SortedCons(a: PageFile, s: seq<PageFile>)
    ensures SortedByName([a] + s) <==> SortedByName(s) && NamedFrom(a.name, s)
  {
    var r := [a] + s;
    assert forall k :: 0 <= k < |s| ==> r[k + 1] == s[k];
    if SortedByName(r) {
      forall i, j | 0 <= i < j < |s|
        ensures !LexLess(s[j].name, s[i].name)
      {
        assert r[j + 1] == s[j] && r[i + 1] == s[i];
      }
      forall k | 0 <= k < |s|
        ensures !LexLess(s[k].name, a.name)
      {
        assert r[k + 1] == s[k] && r[0] == a;
      }
    }
    if SortedByName(s) && NamedFrom(a.name, s) {
      forall i, j | 0 <= i < j < |r|
        ensures !LexLess(r[j].name, r[i].name)
      {
        assert r[j] == s[j - 1];
        if i > 0 {
          assert r[i] == s[i - 1];
        }
      }
    }
  }

  lemma {:induction false} InsertNamedFrom(b: string, x: PageFile, s: seq<PageFile>)
    requires NamedFrom(b, s) && !LexLess(x.name, b)
    ensures NamedFrom(b, InsertByName(x, s))
  {
    if s != [] && !LexLess(x.name, s[0].name) {
      InsertNamedFrom(b, x, s[1..]);
      var rest := InsertByName(x, s[1..]);
      assert forall k :: 0 <= k < |rest| ==> ([s[0]] + rest)[k + 1] == rest[k];
    }
  }

  lemma {:induction false} InsertByNameSorted(x: PageFile, s: seq<PageFile>)
    requires SortedByName(s)
    ensures SortedByName(InsertByName(x, s))
  {
    if s == [] {
    } else if LexLess(x.name, s[0].name) {
      forall k | 0 <= k < |s|
        ensures !LexLess(s[k].name, x.name)
      {
        LexIrreflexive(s[0].name);
        LexLeAfter(x.name, s[0].name, s[k].name);
      }
      SortedCons(x, s);
    } else {
      assert s == [s[0]] + s[1..];
      SortedCons(s[0], s[1..]);
      InsertByNameSorted(x, s[1..]);
      InsertNamedFrom(s[0].name, x, s[1..]);
      SortedCons(s[0], InsertByName(x, s[1..]));
    }
  }

  lemma {:induction false} InsertByNamePermutes(x: PageFile, s: seq<PageFile>)
    ensures multiset(InsertByName(x, s)) == multiset(s) + multiset{x}
  {
    if s != [] && !LexLess(x.name, s[0].name) {
      InsertByNamePermutes(x, s[1..]);
      assert s == [s[0]] + s[1..];
    }
  }

  /** a < b and b <= c give not c < a. */
  lemma LexLeAfter(a: string, b: string, c: string)
    requires LexLess(a, b) && !LexLess(c, b)
    ensures !LexLess(c, a)
  {
    if LexLess(c, a) {
      LexTransitive(c, a, b);
    }
  }

  /** sorted() orders the listing by name and keeps every file: a permutation. */
  lemma {:induction false} SortByNamePermutes(s: seq<PageFile>)
    ensures SortedByName(SortByName(s))
    ensures multiset(SortByName(s)) == multiset(s)
  {
    if s != [] {
      var init := s[..|s| - 1];
      SortByNamePermutes(init);
      InsertByNameSorted(s[|s| - 1], SortByName(init));
      InsertByNamePermutes(s[|s| - 1], SortByName(init));
      assert s == init + [s[|s| - 1]];
    }
  }

  lemma MultisetSubsetMatch(a: seq<PageFile>, b: seq<PageFile>)
    requires multiset(a) <= multiset(b) && AllMatch(b)
    ensures AllMatch(a)
  {
    forall k | 0 <= k < |a|
      ensures MatchesGlob(a[k].name)
    {
      assert a[k] in multiset(b);
      var m :| 0 <= m < |b| && b[m] == a[k];
    }
  }

  // ------------------------------------------------ names from the fetcher

  /**
   * The fetcher's name for page n matches the glob, and int(stem.split("_")[1])
   * reads n back, for every n whose digits int() converts.
   */
  lemma PageNumberOfFileName(n: nat)
    requires |NatToString(n)| <= MaxStrDigits
    ensures MatchesGlob(Fetch.PageFileName(n))
    ensures PageNumber(Fetch.PageFileName(n)) == Some(n)
  {
    var z := ZeroPad(n, 5);
    assert Fetch.PageFileName(n) == "page_" + z + ".json";
    DigitsNumber(z);
    ParseIntZeroPad(n, 5);
  }

  /** A name "page_<digits>.json" matches the glob and int() reads the digits as its page number. */
  lemma DigitsNumber(z: string)
    requires AllDigits(z)
    ensures MatchesGlob("page_" + z + ".json")
    ensures PageNumber("page_" + z + ".json") == ParseInt(z)
  {
    var name := "page_" + z + ".json";
    assert name[..5] == "page_" && name[|name| - 5..] == ".json";
    assert Stem(name) == "page" + ['_'] + z;
    SplitAt("page", '_', z);
    assert forall k :: 0 <= k < |z| ==> IsDigit(z[k]);
    SplitNone(z, '_');
  }

  /** Below 100000 the five-digit padding has width 5 and orders as the numbers do. */
  lemma PaddedOrder(m: nat, n: nat)
    requires m < 100000 && n < 100000
    ensures |ZeroPad(m, 5)| == 5 && |ZeroPad(n, 5)| == 5
    ensures LexLess(ZeroPad(m, 5), ZeroPad(n, 5)) <==> m < n
    ensures ZeroPad(m, 5) == ZeroPad(n, 5) <==> m == n
  {
    assert Pow10(5) == 100000;
    ZeroPadWidth(m, 5);
    ZeroPadWidth(n, 5);
    ZeroPadValue(m, 5);
    ZeroPadValue(n, 5);
    LexDigits(ZeroPad(m, 5), ZeroPad(n, 5));
  }

  /**
   * For page numbers below 100000 the fetcher's names sort as the numbers
   * do: name(m) < name(n) exactly when m < n, and the names are equal only
   * for equal numbers.
   */
  lemma FileNameOrder(m: nat, n: nat)
    requires m < 100000 && n < 100000
    ensures LexLess(Fetch.PageFileName(m), Fetch.PageFileName(n)) <==> m < n
    ensures Fetch.PageFileName(m) == Fetch.PageFileName(n) <==> m == n
  {
    var zm, zn := ZeroPad(m, 5), ZeroPad(n, 5);
    PaddedOrder(m, n);
    SameAffixes(zm, zn);
  }

  /** A shared prefix and suffix around equal-length middles leave the comparison to the middles. */
  lemma SameAffixes(x: string, y: string)
    requires |x| == |y|
    ensures LexLess("page_" + x + ".json", "page_" + y + ".json") <==> LexLess(x, y)
    ensures "page_" + x + ".json" == "page_" + y + ".json" <==> x == y
  {
    assert "page_" + x + ".json" == "page_" + (x + ".json");
    assert "page_" + y + ".json" == "page_" + (y + ".json");
    LexAppend(x, ".json", y, ".json");
    LexIrreflexive(".json");
    LexAppend("page_", x + ".json", "page_", y + ".json");
    if "page_" + (x + ".json") == "page_" + (y + ".json") {
      assert x == ("page_" + (x + ".json"))[5..5 + |x|];
    }
  }

  /** str(n) is str(n // 10) with one more digit on the right. */
  lemma NatToStringStep(n: nat)
    requires n >= 10
    ensures |NatToString(n)| == |NatToString(n / 10)| + 1
    ensures NatToString(n)[0] == NatToString(n / 10)[0]
  {
  }

  /**
   * Past 99999 pages the width-5 padding no longer fixes the length, and the
   * name order stops following the page order: page 100000 sorts before
   * page 20000.
   */
  lemma FileNameOrderPastWidth(big: nat, small: nat)
    requires big == 100000 && small == 20000
    ensures big > small && LexLess(Fetch.PageFileName(big), Fetch.PageFileName(small))
  {
    LeadingDigits(big, small);
    FirstDigitDecides(ZeroPad(big, 5), ZeroPad(small, 5));
  }

  lemma LeadingDigits(big: nat, small: nat)
    requires big == 100000 && small == 20000
    ensures |ZeroPad(big, 5)| >= 1 && ZeroPad(big, 5)[0] == '1'
    ensures |ZeroPad(small, 5)| >= 1 && ZeroPad(small, 5)[0] == '2'
  {
    NatToStringStep(big);
    NatToStringStep(big / 10);
    NatToStringStep(big / 100);
    NatToStringStep(big / 1000);
    NatToStringStep(big / 10000);
    NatToStringStep(small);
    NatToStringStep(small / 10);
    NatToStringStep(small / 100);
    NatToStringStep(small / 1000);
    assert ZeroPad(big, 5) == NatToString(big);
    assert ZeroPad(small, 5) == NatToString(small);
  }

  /** Two fetcher-style names whose numbers start with '1' and '2' compare by that digit. */
  lemma FirstDigitDecides(zb: string, zs: string)
    requires |zb| >= 1 && zb[0] == '1' && |zs| >= 1 && zs[0] == '2'
    ensures LexLess("page_" + zb + ".json", "page_" + zs + ".json")
  {
    assert LexLess(zb + ".json", zs + ".json");
    LexAppend("page_", zb + ".json", "page_", zs + ".json");
    assert "page_" + zb + ".json" == "page_" + (zb + ".json");
    assert "page_" + zs + ".json" == "page_" + (zs + ".json");
  }

  // ------------------------------------------------ what the stage produces

  /** The number of tracks across the page files that parse. */
  function TrackCount(files: seq<PageFile>): nat {
    if files == [] then 0
    else (match files[0].doc case Malformed => 0 case Doc(tracks) => |tracks|) + TrackCount(files[1..])
  }

  /** One row per track: the output has as many rows as the pages have tracks. */
  lemma {:induction false} GatherCount(files: seq<PageFile>)
    requires AllMatch(files) && Gather(files).Ok?
    ensures |Gather(files).value| == TrackCount(files)
  {
    if files != [] {
      GatherCount(files[1..]);
    }
  }

  /** The file a row was read from, as its lineage column records it. */
  function RowFile(d: Dict): string {
    if SourceFile in d.entries && d.entries[SourceFile].Str? then d.entries[SourceFile].text else ""
  }

  /** The page number a row carries in its lineage column. */
  function RowPage(d: Dict): int {
    if SourcePage in d.entries && d.entries[SourcePage].Num? then d.entries[SourcePage].n else 0
  }

  function FileNames(files: seq<PageFile>): set<string> {
    set f | f in files :: f.name
  }

  /**
   * Each row has the nine columns in order, names a file of the listing as
   * its source, and carries the page number read from that file's name.
   */
  ghost predicate RowFrom(d: Dict, files: seq<PageFile>) {
    d.keys == FieldOrder && ValidDict(d)
    && RowFile(d) in FileNames(files) && MatchesGlob(RowFile(d))
    && PageNumber(RowFile(d)).Some? && RowPage(d) == PageNumber(RowFile(d)).value
  }

  lemma {:induction false} GatherLineage(files: seq<PageFile>)
    requires AllMatch(files) && Gather(files).Ok?
    ensures forall k :: 0 <= k < |Gather(files).value| ==> RowFrom(Gather(files).value[k], files)
  {
    if files != [] {
      var f := files[0];
      var head := PageRows(f.doc.tracks, PageNumber(f.name).value, f.name);
      var rest := Gather(files[1..]).value;
      GatherLineage(files[1..]);
      assert f in files;
      PageRowsFrom(f, files);
      forall k | 0 <= k < |rest| ensures RowFrom(rest[k], files) {
        RowFromWider(rest[k], files[1..], files);
      }
      ConcatAll(head, rest, files);
    }
  }

  lemma PageRowsFrom(f: PageFile, files: seq<PageFile>)
    requires f in files && MatchesGlob(f.name) && PageNumber(f.name).Some? && f.doc.Doc?
    ensures forall k :: 0 <= k < |f.doc.tracks| ==>
      RowFrom(PageRows(f.doc.tracks, PageNumber(f.name).value, f.name)[k], files)
  {
    forall k | 0 <= k < |f.doc.tracks|
      ensures RowFrom(PageRows(f.doc.tracks, PageNumber(f.name).value, f.name)[k], files)
    {
      TrackToRowFields(f.doc.tracks[k], PageNumber(f.name).value, f.name);
    }
  }

  lemma RowFromWider(d: Dict, few: seq<PageFile>, files: seq<PageFile>)
    requires RowFrom(d, few) && forall g :: g in few ==> g in files
    ensures RowFrom(d, files)
  {
    var g :| g in few && g.name == RowFile(d);
  }

  lemma ConcatAll(head: seq<Dict>, rest: seq<Dict>, files: seq<PageFile>)
    requires forall k :: 0 <= k < |head| ==> RowFrom(head[k], files)
    requires forall k :: 0 <= k < |rest| ==> RowFrom(rest[k], files)
    ensures forall k :: 0 <= k < |head + rest| ==> RowFrom((head + rest)[k], files)
  {
    forall k | 0 <= k < |head + rest| ensures RowFrom((head + rest)[k], files) {
      if k >= |head| {
        assert (head + rest)[k] == rest[k - |head|];
      }
    }
  }

  /** Rows come in file-name order: a later row never names an earlier-sorting file. */
  predicate RowsByFile(rows: seq<Dict>) {
    forall k, l :: 0 <= k < l < |rows| ==> !LexLess(RowFile(rows[l]), RowFile(rows[k]))
  }

  /** !LexLess is transitive: it is the order "at least". */
  lemma LexAtLeastTransitive(a: string, b: string, c: string)
    requires !LexLess(b, a) && !LexLess(c, b)
    ensures !LexLess(c, a)
  {
    if LexLess(c, a) {
      if a == b {
      } else if LexLess(a, b) {
        LexTransitive(c, a, b);
      } else {
        LexTotal(a, b);
      }
    }
  }

  /** No row of rows names a file sorting before b. */
  predicate RowsFrom(b: string, rows: seq<Dict>) {
    forall k :: 0 <= k < |rows| ==> !LexLess(RowFile(rows[k]), b)
  }

  lemma {:induction false} GatherByFile(files: seq<PageFile>)
    requires AllMatch(files) && SortedByName(files) && Gather(files).Ok?
    ensures RowsByFile(Gather(files).value)
    ensures files != [] ==> RowsFrom(files[0].name, Gather(files).value)
  {
    if files != [] {
      var f := files[0];
      GatherCons(files);
      var head := PageRows(f.doc.tracks, PageNumber(f.name).value, f.name);
      var rest := Gather(files[1..]).value;
      SortedTail(files);
      GatherByFile(files[1..]);
      HeadRowsFile(f.doc.tracks, PageNumber(f.name).value, f.name);
      if files[1..] != [] {
        RowsFromEarlier(f.name, files[1].name, rest);
      }
      ByFileConcat(f.name, head, rest);
    }
  }

  lemma SortedTail(files: seq<PageFile>)
    requires files != [] && SortedByName(files)
    ensures SortedByName(files[1..])
    ensures |files| >= 2 ==> !LexLess(files[1].name, files[0].name)
  {
    SortedCons(files[0], files[1..]);
    assert [files[0]] + files[1..] == files;
  }

  lemma RowsFromEarlier(a: string, b: string, rows: seq<Dict>)
    requires !LexLess(b, a) && RowsFrom(b, rows)
    ensures RowsFrom(a, rows)
  {
    forall k | 0 <= k < |rows| ensures !LexLess(RowFile(rows[k]), a) {
      LexAtLeastTransitive(a, b, RowFile(rows[k]));
    }
  }

  /** A successful run over a non-empty listing: the first file's rows, then the rest's. */
  lemma GatherCons(files: seq<PageFile>)
    requires AllMatch(files) && files != [] && Gather(files).Ok?
    ensures AllMatch(files[1..]) && PageNumber(files[0].name).Some? && files[0].doc.Doc?
    ensures Gather(files[1..]).Ok?
    ensures Gather(files).value
      == PageRows(files[0].doc.tracks, PageNumber(files[0].name).value, files[0].name) + Gather(files[1..]).value
  {
    AllMatchTail(files);
  }

  lemma HeadRowsFile(tracks: seq<Track>, page: int, name: string)
    ensures forall k :: 0 <= k < |PageRows(tracks, page, name)| ==> RowFile(PageRows(tracks, page, name)[k]) == name
  {
    forall k | 0 <= k < |PageRows(tracks, page, name)| ensures RowFile(PageRows(tracks, page, name)[k]) == name {
      TrackToRowFields(tracks[k], page, name);
    }
  }

  lemma ByFileConcat(name: string, head: seq<Dict>, rest: seq<Dict>)
    requires forall k :: 0 <= k < |head| ==> RowFile(head[k]) == name
    requires RowsFrom(name, rest) && RowsByFile(rest)
    ensures RowsFrom(name, head + rest) && RowsByFile(head + rest)
  {
    var rows := head + rest;
    LexIrreflexive(name);
    forall k, l | 0 <= k < l < |rows| ensures !LexLess(RowFile(rows[l]), RowFile(rows[k])) {
      if l < |head| {
        assert rows[k] == head[k] && rows[l] == head[l];
      } else if k < |head| {
        assert rows[k] == head[k] && rows[l] == rest[l - |head|];
      } else {
        assert rows[k] == rest[k - |head|] && rows[l] == rest[l - |head|];
      }
    }
    forall k | 0 <= k < |rows| ensures !LexLess(RowFile(rows[k]), name) {
      if k >= |head| {
        assert rows[k] == rest[k - |head|];
      } else {
        assert rows[k] == head[k];
      }
    }
  }

  /**
   * A successful run writes the nine column names as the header, and
   * every row: has those columns; names a matching file of the directory;
   * carries that file's page number; and comes no earlier in name order
   * than the rows before it. There are as many rows as tracks, and at
   * least one.
   */
  lemma FlattenAllShape(dir: seq<PageFile>)
    requires FlattenAll(dir).Ok?
    ensures FlattenAll(dir).value.fieldnames == Names(FieldOrder)
    ensures |FlattenAll(dir).value.rows| == TrackCount(SortedPages(dir)) >= 1
    ensures RowsByFile(FlattenAll(dir).value.rows)
    ensures forall k :: 0 <= k < |FlattenAll(dir).value.rows| ==> RowFrom(FlattenAll(dir).value.rows[k], Matching(dir))
  {
    var files := SortedPages(dir);
    var rows := FlattenAll(dir).value.rows;
    GatherCount(files);
    GatherLineage(files);
    GatherByFile(files);
    SortedSameFiles(dir);
  }

  /** Sorting keeps the set of file names. */
  lemma SortedSameFiles(dir: seq<PageFile>)
    ensures FileNames(SortedPages(dir)) == FileNames(Matching(dir))
  {
    var files := SortedPages(dir);
    forall g ensures g in files <==> g in Matching(dir) {
      assert g in files <==> g in multiset(files);
      assert g in Matching(dir) <==> g in multiset(Matching(dir));
    }
  }

  /**
   * When every page file was named by the fetcher (page_NNNNN.json below
   * page 100000), name order is page order: the rows' source_page values
   * never decrease.
   */
  lemma FetchedPagesInOrder(dir: seq<PageFile>)
    requires FlattenAll(dir).Ok?
    requires forall f :: f in dir && MatchesGlob(f.name) ==> FetcherNamed(f.name)
    ensures forall k, l :: 0 <= k < l < |FlattenAll(dir).value.rows| ==>
      RowPage(FlattenAll(dir).value.rows[k]) <= RowPage(FlattenAll(dir).value.rows[l])
  {
    var rows := FlattenAll(dir).value.rows;
    FlattenAllShape(dir);
    forall k, l | 0 <= k < l < |rows| ensures RowPage(rows[k]) <= RowPage(rows[l]) {
      var p := FetchedPage(dir, rows[k]);
      var q := FetchedPage(dir, rows[l]);
      FileNameOrder(q, p);
    }
  }

  /** The name the fetcher gives some page below 100000. */
  ghost predicate FetcherNamed(name: string) {
    exists n: nat :: n < 100000 && name == Fetch.PageFileName(n)
  }

  lemma FetchedPage(dir: seq<PageFile>, d: Dict) returns (n: nat)
    requires forall f :: f in dir && MatchesGlob(f.name) ==> FetcherNamed(f.name)
    requires RowFrom(d, Matching(dir))
    ensures n < 100000 && RowFile(d) == Fetch.PageFileName(n) && RowPage(d) == n
  {
    var g :| g in Matching(dir) && g.name == RowFile(d);
    assert g in dir by {
      assert g in multiset(Matching(dir));
    }
    n :| n < 100000 && g.name == Fetch.PageFileName(n);
    ShortDecimal(n);
    PageNumberOfFileName(n);
  }

  /** Without any track to write, the stage fails with "no rows". */
  lemma NoTracksNoRows(dir: seq<PageFile>)
    requires Gather(SortedPages(dir)).Ok?
    ensures FlattenAll(dir) == Err(NoRows) <==> TrackCount(SortedPages(dir)) == 0
  {
    GatherCount(SortedPages(dir));
  }

  /** An empty listing, or one without a matching name, fails with "no rows". */
  lemma NoPagesNoRows(dir: seq<PageFile>)
    requires forall f :: f in dir ==> !MatchesGlob(f.name)
    ensures FlattenAll(dir) == Err(NoRows)
  {
    NoneMatching(dir);
    assert multiset(SortedPages(dir)) == multiset{};
  }

  lemma {:induction false} NoneMatching(dir: seq<PageFile>)
    requires forall f :: f in dir ==> !MatchesGlob(f.name)
    ensures Matching(dir) == []
  {
    if dir != [] {
      assert dir[0] in dir;
      NoneMatching(dir[1..]);
    }
  }

  /** A page file that does not parse stops the stage, whatever follows it. */
  lemma MalformedStops(files: seq<PageFile>)
    requires AllMatch(files) && files != [] && files[0].doc == Malformed
    requires PageNumber(files[0].name).Some?
    ensures Gather(files) == Err(BadPage(files[0].name))
  {
  }

  /** Each field of d is written under its own name, with its cell text. */
  lemma RecordCell(d: Dict, f: Field)
    requires f in d.entries
    ensures FieldName(f) in ToRecord(d)
    ensures ToRecord(d)[FieldName(f)] == CellText(d.entries[f])
  {
    var key := FieldName(f);
    assert Names(FieldOrder)[FieldIndex(f)] == key;
    var found := FieldNamed(key);
    assert found.Some? by {
      assert FieldName(FieldOrder[FieldIndex(f)]) == key;
    }
    FieldNameInjective(found.value, f);
  }

  /**
   * The CSV record for a track has exactly the nine column names as keys,
   * and under each the text of the value track_to_row puts there: None as
   * the empty cell, the page number as str(page).
   */
  lemma WrittenRow(t: Track, page: int, file: string)
    ensures forall key :: key in ToRecord(TrackToRow(t, page, file)) <==> key in Names(FieldOrder)
    ensures forall f ::
      Csv.GetOrEmpty(ToRecord(TrackToRow(t, page, file)), FieldName(f)) == CellText(FieldValue(t, f, page, file))
  {
    RecordKeys(TrackToRow(t, page, file));
    forall f ensures Csv.GetOrEmpty(ToRecord(TrackToRow(t, page, file)), FieldName(f))
      == CellText(FieldValue(t, f, page, file))
    {
      WrittenCell(t, page, file, f);
    }
  }

  /** The written text of one field of a track's row. */
  lemma WrittenCell(t: Track, page: int, file: string, f: Field)
    ensures FieldName(f) in ToRecord(TrackToRow(t, page, file))
    ensures ToRecord(TrackToRow(t, page, file))[FieldName(f)] == CellText(FieldValue(t, f, page, file))
  {
    RecordCell(TrackToRow(t, page, file), f);
  }

  /** A record with every field is keyed by exactly the nine column names. */
  lemma RecordKeys(d: Dict)
    requires forall f :: f in d.entries
    ensures forall key :: key in ToRecord(d) <==> key in Names(FieldOrder)
  {
    forall key ensures key in ToRecord(d) <==> key in Names(FieldOrder) {
      if key in Names(FieldOrder) {
        var i :| 0 <= i < |FieldOrder| && Names(FieldOrder)[i] == key;
        RecordCell(d, FieldOrder[i]);
      }
    }
  }
}
