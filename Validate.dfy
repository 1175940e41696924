/**
 * The validation stage: it reads the interim CSV, insists on the exact
 * nine-column header, counts blanks, non-integer timestamps and duplicate
 * (played_at_utc, track_name, artist_name) keys, and chooses an exit code.
 * Only a missing file (2), a header mismatch (3) and a non-integer
 * timestamp (4) fail; blanks and duplicates are reported and tolerated.
 */
module Validate {
  import opened Wrappers
  import opened Text
  import Csv

  const ExpectedFields: seq<string> := [
    "played_at_utc", "track_name", "artist_name", "album_name",
    "track_mbid", "artist_mbid", "album_mbid", "source_page", "source_file"
  ]

  const ExitMissing := 2
  const ExitHeader := 3
  const ExitBadTimestamp := 4
  const ExitOk := 0

  /** is_blank: the value is absent, or strips to the empty string. */
  function IsBlank(v: Option<string>): (b: bool)
    ensures b <==> v.None? || AllSpace(v.value)
  {
    match v
    case None => true
    case Some(s) => StripEmptyIffAllSpace(s); Strip(s) == ""
  }

  /** (row.get(key) or "").strip(): an absent or empty cell both read as "". */
  function Cleaned(rec: Csv.Record, key: string): string {
    Strip(Csv.GetOrEmpty(rec, key))
  }

  /** The duplicate signal: the three identifying cells, stripped. */
  datatype Key = Key(playedAt: string, track: string, artist: string)

  function DupKey(rec: Csv.Record): Key {
    Key(Cleaned(rec, "played_at_utc"), Cleaned(rec, "track_name"), Cleaned(rec, "artist_name"))
  }

  /** The cell that int() rejects: empty, blank or not an integer. */
  predicate BadPlayedAt(rec: Csv.Record) {
    ParseInt(Cleaned(rec, "played_at_utc")).None?
  }

  // ------------------------------------------------------------ the Counter

  /**
   * collections.Counter over keys: the keys in the order they were first
   * counted and the count of each.
   */
  datatype Counter = Counter(order: seq<Key>, counts: map<Key, nat>)

  ghost predicate ValidCounter(c: Counter) {
    (forall i, j :: 0 <= i < j < |c.order| ==> c.order[i] != c.order[j])
    && (forall k :: k in c.counts <==> k in c.order)
    && (forall k :: k in c.counts ==> c.counts[k] >= 1)
  }

  /** counter[k] += 1: a new key goes to the end with count 1. */
  function Bump(c: Counter, k: Key): (r: Counter)
    ensures ValidCounter(c) ==> ValidCounter(r)
  {
    if k in c.counts then Counter(c.order, c.counts[k := c.counts[k] + 1])
    else Counter(c.order + [k], c.counts[k := 1])
  }

  /** Counting the keys one at a time, as the loop feeds them to the Counter. */
  function Count(ks: seq<Key>): (c: Counter)
    ensures ValidCounter(c)
  {
    if ks == [] then Counter([], map[]) else Bump(Count(ks[..|ks| - 1]), ks[|ks| - 1])
  }

  /** The counter's values, in its iteration order. */
  function Values(c: Counter): (vs: seq<nat>)
    requires ValidCounter(c)
    ensures |vs| == |c.order|
  {
    seq(|c.order|, i requires 0 <= i < |c.order| => c.counts[c.order[i]])
  }

  function Sum(vs: seq<nat>): nat {
    if vs == [] then 0 else Sum(vs[..|vs| - 1]) + vs[|vs| - 1]
  }

  /** sum(1 for c in values if c > 1) */
  function Groups(vs: seq<nat>): nat {
    if vs == [] then 0 else Groups(vs[..|vs| - 1]) + (if vs[|vs| - 1] > 1 then 1 else 0)
  }

  /** sum(c - 1 for c in values if c > 1) */
  function ExtraRows(vs: seq<nat>): nat {
    if vs == [] then 0 else ExtraRows(vs[..|vs| - 1]) + (if vs[|vs| - 1] > 1 then vs[|vs| - 1] - 1 else 0)
  }

  // ------------------------------------------------------- the row counts

  /** The number of rows whose cell under key is blank. */
  function BlankCount(recs: seq<Csv.Record>, key: string): (n: nat)
    ensures n <= |recs|
  {
    if recs == [] then 0
    else BlankCount(recs[..|recs| - 1], key) + (if IsBlank(Csv.Get(recs[|recs| - 1], key)) then 1 else 0)
  }

  /** The number of rows whose played_at_utc int() rejects. */
  function BadCount(recs: seq<Csv.Record>): (n: nat)
    ensures n <= |recs|
  {
    if recs == [] then 0
    else BadCount(recs[..|recs| - 1]) + (if BadPlayedAt(recs[|recs| - 1]) then 1 else 0)
  }

  function DupKeys(recs: seq<Csv.Record>): (ks: seq<Key>)
    ensures |ks| == |recs|
    ensures forall i :: 0 <= i < |recs| ==> ks[i] == DupKey(recs[i])
  {
    seq(|recs|, i requires 0 <= i < |recs| => DupKey(recs[i]))
  }

  /** The duplicate-key counter after the given rows. */
  function Tally(recs: seq<Csv.Record>): (c: Counter)
    ensures ValidCounter(c)
  {
    Count(DupKeys(recs))
  }

  // ------------------------------------------------------------ the stage

  datatype Report = Report(
    rows: nat, blankPlayedAt: nat, blankTrack: nat, blankArtist: nat,
    badPlayedAt: nat, dupGroups: nat, dupRowsOver1: nat)

  datatype Outcome = MissingFile | HeaderMismatch(found: seq<string>) | Checked(report: Report)

  function ExitCode(o: Outcome): (code: int)
    ensures code in {ExitMissing, ExitHeader, ExitBadTimestamp, ExitOk}
  {
    match o
    case MissingFile => ExitMissing
    case HeaderMismatch(_) => ExitHeader
    case Checked(r) => if r.badPlayedAt > 0 then ExitBadTimestamp else ExitOk
  }

  /** The report for the data rows of a file whose header matched. */
  function Summary(recs: seq<Csv.Record>): Report {
    var c := Tally(recs);
    Report(|recs|, BlankCount(recs, "played_at_utc"), BlankCount(recs, "track_name"),
      BlankCount(recs, "artist_name"), BadCount(recs), Groups(Values(c)), ExtraRows(Values(c)))
  }

  /** The header is required to match the expected columns exactly, in order. */
  predicate HeaderOk(header: seq<string>) {
    header == ExpectedFields
  }

  /** What the stage decides for a file, or for no file at all. */
  function Check(input: Option<Csv.Table>): Outcome {
    match input
    case None => MissingFile
    case Some(t) => CheckTable(t)
  }

  /** What the stage decides for a file it could open. */
  function CheckTable(t: Csv.Table): Outcome {
    if !HeaderOk(t.header) then HeaderMismatch(t.header) else Checked(Summary(t.records))
  }

  /** The row loop of main(): each counter ends as its specification function of all the rows. */
  method ScanRows(recs: seq<Csv.Record>)
    returns (rowCount: nat, blankPlayedAt: nat, blankTrack: nat, blankArtist: nat, badPlayedAt: nat, dupKeyCounts: Counter)
    ensures rowCount == |recs| && dupKeyCounts == Tally(recs)
    ensures blankPlayedAt == BlankCount(recs, "played_at_utc")
    ensures blankTrack == BlankCount(recs, "track_name")
    ensures blankArtist == BlankCount(recs, "artist_name")
    ensures badPlayedAt == BadCount(recs)
  {
    rowCount := 0;
    blankPlayedAt, blankTrack, blankArtist := 0, 0, 0;
    badPlayedAt := 0;
    dupKeyCounts := Counter([], map[]);
    while rowCount < |recs|
      invariant 0 <= rowCount <= |recs|
      invariant blankPlayedAt == BlankCount(recs[..rowCount], "played_at_utc")
      invariant blankTrack == BlankCount(recs[..rowCount], "track_name")
      invariant blankArtist == BlankCount(recs[..rowCount], "artist_name")
      invariant badPlayedAt == BadCount(recs[..rowCount])
      invariant dupKeyCounts == Tally(recs[..rowCount])
    {
      var row := recs[rowCount];
      ghost var b0, b1, b2, b3, b4 := blankPlayedAt, blankTrack, blankArtist, badPlayedAt, dupKeyCounts;
      if IsBlank(Csv.Get(row, "played_at_utc")) {
        blankPlayedAt := blankPlayedAt + 1;
      }
      if IsBlank(Csv.Get(row, "track_name")) {
        blankTrack := blankTrack + 1;
      }
      if IsBlank(Csv.Get(row, "artist_name")) {
        blankArtist := blankArtist + 1;
      }
      var val := Cleaned(row, "played_at_utc");
      if ParseInt(val).None? {
        badPlayedAt := badPlayedAt + 1;
      }
      dupKeyCounts := Bump(dupKeyCounts, DupKey(row));
      BlankNext(recs, rowCount, "played_at_utc", b0, blankPlayedAt);
      BlankNext(recs, rowCount, "track_name", b1, blankTrack);
      BlankNext(recs, rowCount, "artist_name", b2, blankArtist);
      BadNext(recs, rowCount, b3, badPlayedAt);
      TallyNext(recs, rowCount, b4, dupKeyCounts);
      rowCount := rowCount + 1;
    }
    assert recs[..rowCount] == recs;
  }

  /** main(): the counters are updated row by row, as the reader yields them. */
  method ValidateInterim(input: Option<Csv.Table>) returns (outcome: Outcome, code: int)
    ensures outcome == Check(input)
    ensures code == ExitCode(outcome)
  {
    if input.None? {
      return MissingFile, ExitMissing;
    }
    outcome, code := ValidateTable(input.value);
  }

  /** main() once the file is open: the header check, then the row loop. */
  method ValidateTable(table: Csv.Table) returns (outcome: Outcome, code: int)
    ensures outcome == CheckTable(table)
    ensures code == ExitCode(outcome)
  {
    if !HeaderOk(table.header) {
      return HeaderMismatch(table.header), ExitHeader;
    }
    var report := Summarize(table.records);
    outcome := Checked(report);
    code := if report.badPlayedAt > 0 then ExitBadTimestamp else ExitOk;
    CheckedExit(report, code);
  }

  lemma CheckedExit(report: Report, code: int)
    requires code == if report.badPlayedAt > 0 then ExitBadTimestamp else ExitOk
    ensures code == ExitCode(Checked(report))
  {
  }

  /** The counters after the row loop, and the duplicate figures drawn from the Counter. */
  method Summarize(recs: seq<Csv.Record>) returns (report: Report)
    ensures report == Summary(recs)
  {
    var rowCount, blankPlayedAt, blankTrack, blankArtist, badPlayedAt, dupKeyCounts := ScanRows(recs);
    var dupGroups, dupRowsOver1 := CountDuplicates(dupKeyCounts);
    report := Report(rowCount, blankPlayedAt, blankTrack, blankArtist, badPlayedAt, dupGroups, dupRowsOver1);
  }

  /** A blank counter after one more row: one up exactly when that row's cell is blank. */
  lemma BlankNext(recs: seq<Csv.Record>, i: nat, key: string, before: nat, after: nat)
    requires i < |recs| && before == BlankCount(recs[..i], key)
    requires after == if IsBlank(Csv.Get(recs[i], key)) then before + 1 else before
    ensures after == BlankCount(recs[..i + 1], key)
  {
    BlankStep(recs, i, key);
  }

  /** The bad-timestamp counter after one more row. */
  lemma BadNext(recs: seq<Csv.Record>, i: nat, before: nat, after: nat)
    requires i < |recs| && before == BadCount(recs[..i])
    requires after == if BadPlayedAt(recs[i]) then before + 1 else before
    ensures after == BadCount(recs[..i + 1])
  {
    BadStep(recs, i);
  }

  /** The Counter after one more row has that row's key bumped. */
  lemma TallyNext(recs: seq<Csv.Record>, i: nat, before: Counter, after: Counter)
    requires i < |recs| && before == Tally(recs[..i])
    requires after == Bump(before, DupKey(recs[i]))
    ensures after == Tally(recs[..i + 1])
  {
    TallyStep(recs, i);
  }

  lemma BlankStep(recs: seq<Csv.Record>, i: nat, key: string)
    requires i < |recs|
    ensures BlankCount(recs[..i + 1], key) ==
      BlankCount(recs[..i], key) + (if IsBlank(Csv.Get(recs[i], key)) then 1 else 0)
  {
    assert recs[..i + 1][..i] == recs[..i];
    assert recs[..i + 1][i] == recs[i];
  }

  lemma BadStep(recs: seq<Csv.Record>, i: nat)
    requires i < |recs|
    ensures BadCount(recs[..i + 1]) == BadCount(recs[..i]) + (if BadPlayedAt(recs[i]) then 1 else 0)
  {
    assert recs[..i + 1][..i] == recs[..i];
    assert recs[..i + 1][i] == recs[i];
  }

  lemma TallyStep(recs: seq<Csv.Record>, i: nat)
    requires i < |recs|
    ensures Tally(recs[..i + 1]) == Bump(Tally(recs[..i]), DupKey(recs[i]))
  {
    var ks := DupKeys(recs[..i + 1]);
    assert ks[..i] == DupKeys(recs[..i]);
    assert ks[i] == DupKey(recs[i]);
  }

  /** The two sums over dup_key_counts.values(), in one pass. */
  method CountDuplicates(c: Counter) returns (groups: nat, extra: nat)
    requires ValidCounter(c)
    ensures groups == Groups(Values(c)) && extra == ExtraRows(Values(c))
  {
    var vs := Values(c);
    groups, extra := 0, 0;
    var i := 0;
    while i < |vs|
      invariant 0 <= i <= |vs|
      invariant groups == Groups(vs[..i]) && extra == ExtraRows(vs[..i])
    {
      assert vs[..i + 1][..i] == vs[..i];
      if vs[i] > 1 {
        groups := groups + 1;
        extra := extra + (vs[i] - 1);
      }
      i := i + 1;
    }
    assert vs[..i] == vs;
  }

  // ------------------------------------------------------------ properties

  /** The exit code: 2 without a file, 3 on any other header, then 4 exactly when some timestamp is bad. */
  lemma ExitCodes(input: Option<Csv.Table>)
    ensures ExitCode(Check(input)) == ExitMissing <==> input.None?
    ensures ExitCode(Check(input)) == ExitHeader <==> input.Some? && input.value.header != ExpectedFields
    ensures ExitCode(Check(input)) == ExitBadTimestamp <==>
      input.Some? && input.value.header == ExpectedFields && BadCount(input.value.records) > 0
    ensures ExitCode(Check(input)) == ExitOk <==>
      input.Some? && input.value.header == ExpectedFields && BadCount(input.value.records) == 0
  {
  }

  /**
   * Blanks and duplicates never change the exit code: two files with the
   * same header and the same bad timestamp count exit alike.
   */
  lemma OnlyTimestampsFail(a: seq<Csv.Record>, b: seq<Csv.Record>)
    requires (BadCount(a) == 0) == (BadCount(b) == 0)
    ensures ExitCode(Check(Some(Csv.Table(ExpectedFields, a)))) == ExitCode(Check(Some(Csv.Table(ExpectedFields, b))))
  {
  }

  /** A blank played_at_utc is also a bad one: int("") fails. */
  lemma {:induction false} BlankIsBad(recs: seq<Csv.Record>)
    ensures BlankCount(recs, "played_at_utc") <= BadCount(recs)
  {
    if recs != [] {
      BlankIsBad(recs[..|recs| - 1]);
      var r := recs[|recs| - 1];
      if IsBlank(Csv.Get(r, "played_at_utc")) {
        StripEmptyIffAllSpace(Csv.GetOrEmpty(r, "played_at_utc"));
        assert Cleaned(r, "played_at_utc") == "";
      }
    }
  }

  /**
   * played_at_utc is bad when the column is missing, and never when int()
   * accepts its raw text. For a cell without the separators U+001C..U+001F
   * it is bad exactly when int() rejects the raw text; a separator at either
   * end is stripped before int() and so does not make the row bad.
   */
  lemma BadTimestamp(r: Csv.Record)
    ensures "played_at_utc" !in r ==> BadPlayedAt(r)
    ensures "played_at_utc" in r && ParseInt(r["played_at_utc"]).Some? ==> !BadPlayedAt(r)
    ensures "played_at_utc" in r && NoSeparators(r["played_at_utc"]) ==>
      (BadPlayedAt(r) <==> ParseInt(r["played_at_utc"]).None?)
  {
    if "played_at_utc" in r {
      PresentTimestamp(r);
    } else {
      MissingTimestamp(r);
    }
  }

  lemma PresentTimestamp(r: Csv.Record)
    requires "played_at_utc" in r
    ensures ParseInt(r["played_at_utc"]).Some? ==> !BadPlayedAt(r)
    ensures NoSeparators(r["played_at_utc"]) ==> (BadPlayedAt(r) <==> ParseInt(r["played_at_utc"]).None?)
  {
    var v := r["played_at_utc"];
    assert Cleaned(r, "played_at_utc") == Strip(v);
    ParseIntStripped(v);
  }

  lemma MissingTimestamp(r: Csv.Record)
    requires "played_at_utc" !in r
    ensures BadPlayedAt(r)
  {
    assert Cleaned(r, "played_at_utc") == Strip("");
    StripEmptyIffAllSpace("");
  }

  /** No bad timestamp counted means no row has a bad one. */
  lemma NoBadTimestamps(recs: seq<Csv.Record>)
    requires BadCount(recs) == 0
    ensures forall k :: 0 <= k < |recs| ==> !BadPlayedAt(recs[k])
  {
    forall k | 0 <= k < |recs| ensures !BadPlayedAt(recs[k]) {
      NoBadAt(recs, k);
    }
  }

  lemma {:induction false} NoBadAt(recs: seq<Csv.Record>, k: nat)
    requires BadCount(recs) == 0 && k < |recs|
    ensures !BadPlayedAt(recs[k])
  {
    var n := |recs| - 1;
    if k == n {
      NoBadLast(recs);
    } else {
      NoBadInit(recs);
      NoBadAt(recs[..n], k);
      assert recs[..n][k] == recs[k];
    }
  }

  lemma NoBadLast(recs: seq<Csv.Record>)
    requires recs != [] && BadCount(recs) == 0
    ensures !BadPlayedAt(recs[|recs| - 1])
  {
  }

  lemma NoBadInit(recs: seq<Csv.Record>)
    requires recs != [] && BadCount(recs) == 0
    ensures BadCount(recs[..|recs| - 1]) == 0
  {
  }

  /** The blank counts never exceed the number of rows. */
  lemma BlanksBounded(recs: seq<Csv.Record>)
    ensures Summary(recs).blankPlayedAt <= Summary(recs).rows
    ensures Summary(recs).blankTrack <= Summary(recs).rows
    ensures Summary(recs).blankArtist <= Summary(recs).rows
    ensures Summary(recs).blankPlayedAt <= Summary(recs).badPlayedAt
  {
    BlankIsBad(recs);
  }

  /** The count the counter keeps for each key is the key's multiplicity. */
  lemma {:induction false} CountMultiplicity(ks: seq<Key>)
    ensures forall k :: k in Count(ks).counts <==> k in multiset(ks)
    ensures forall k :: k in Count(ks).counts ==> Count(ks).counts[k] == multiset(ks)[k]
  {
    if ks != [] {
      var init := ks[..|ks| - 1];
      CountMultiplicity(init);
      assert ks == init + [ks[|ks| - 1]];
    }
  }

  /** The counter's values add up to the number of keys counted. */
  lemma {:induction false} CountTotal(ks: seq<Key>)
    ensures Sum(Values(Count(ks))) == |ks|
  {
    if ks != [] {
      var init := ks[..|ks| - 1];
      var c := Count(init);
      var k := ks[|ks| - 1];
      CountTotal(init);
      if k in c.counts {
        var i :| 0 <= i < |c.order| && c.order[i] == k;
        BumpExisting(c, k, i);
      } else {
        BumpNew(c, k);
      }
    }
  }

  lemma BumpExisting(c: Counter, k: Key, i: nat)
    requires ValidCounter(c) && i < |c.order| && c.order[i] == k
    ensures Sum(Values(Bump(c, k))) == Sum(Values(c)) + 1
  {
    var vs := Values(c);
    var ws := Values(Bump(c, k));
    assert ws == vs[i := vs[i] + 1] by {
      forall j | 0 <= j < |ws| ensures ws[j] == vs[i := vs[i] + 1][j] {
        if j != i {
          assert c.order[j] != k;
        }
      }
    }
    SumIncrement(vs, i);
  }

  lemma BumpNew(c: Counter, k: Key)
    requires ValidCounter(c) && k !in c.counts
    ensures Sum(Values(Bump(c, k))) == Sum(Values(c)) + 1
  {
    var vs := Values(c);
    var ws := Values(Bump(c, k));
    assert ws == vs + [1] by {
      forall j | 0 <= j < |vs| ensures ws[j] == vs[j] {
        assert c.order[j] != k;
      }
    }
    assert ws[..|ws| - 1] == vs;
  }

  lemma SumIncrement(vs: seq<nat>, i: nat)
    requires i < |vs|
    ensures Sum(vs[i := vs[i] + 1]) == Sum(vs) + 1
  {
    if i < |vs| - 1 {
      SumIncrement(vs[..|vs| - 1], i);
      assert vs[i := vs[i] + 1][..|vs| - 1] == vs[..|vs| - 1][i := vs[i] + 1];
    } else {
      assert vs[i := vs[i] + 1][..|vs| - 1] == vs[..|vs| - 1];
    }
  }

  /** With every count at least 1, the extra rows are the total less one per key. */
  lemma {:induction false} ExtraRowsTotal(vs: seq<nat>)
    requires forall i :: 0 <= i < |vs| ==> vs[i] >= 1
    ensures ExtraRows(vs) == Sum(vs) - |vs|
    ensures Groups(vs) <= ExtraRows(vs)
  {
    if vs != [] {
      ExtraRowsTotal(vs[..|vs| - 1]);
    }
  }

  /** Every key the counter holds has been counted at least once. */
  lemma ValuesPositive(c: Counter)
    requires ValidCounter(c)
    ensures forall i :: 0 <= i < |Values(c)| ==> Values(c)[i] >= 1
  {
    forall i | 0 <= i < |Values(c)| ensures Values(c)[i] >= 1 {
      assert c.order[i] in c.counts;
    }
  }

  /** A sequence without repeats has as many distinct elements as entries. */
  lemma {:induction false} DistinctCard(s: seq<Key>)
    requires forall i, j :: 0 <= i < j < |s| ==> s[i] != s[j]
    ensures |set k | k in s| == |s|
  {
    if s != [] {
      var init := s[..|s| - 1];
      DistinctCard(init);
      assert (set k | k in s) == (set k | k in init) + {s[|s| - 1]};
    }
  }

  /** The counter lists each distinct key exactly once. */
  lemma CountOrder(ks: seq<Key>)
    ensures |Count(ks).order| == |set k | k in ks|
  {
    var c := Count(ks);
    CountMultiplicity(ks);
    DistinctCard(c.order);
    assert (set k | k in c.order) == (set k | k in ks);
  }

  /**
   * dup_rows_over_1 is the row count less the number of distinct keys, and
   * dup_groups never exceeds it.
   */
  lemma DuplicateCounts(recs: seq<Csv.Record>)
    ensures Summary(recs).dupRowsOver1 == |recs| - |set k | k in DupKeys(recs)|
    ensures Summary(recs).dupGroups <= Summary(recs).dupRowsOver1
  {
    DuplicateSums(DupKeys(recs));
  }

  /** The same two facts for the counter over any sequence of keys. */
  lemma DuplicateSums(ks: seq<Key>)
    ensures ExtraRows(Values(Count(ks))) == |ks| - |set k | k in ks|
    ensures Groups(Values(Count(ks))) <= ExtraRows(Values(Count(ks)))
  {
    var c := Count(ks);
    CountTotal(ks);
    CountOrder(ks);
    ValuesPositive(c);
    ExtraRowsOf(Values(c), |ks|, |set k | k in ks|);
  }

  lemma ExtraRowsOf(vs: seq<nat>, rows: nat, keys: nat)
    requires Sum(vs) == rows && |vs| == keys
    requires forall i :: 0 <= i < |vs| ==> vs[i] >= 1
    ensures ExtraRows(vs) == rows - keys && Groups(vs) <= ExtraRows(vs)
  {
    ExtraRowsTotal(vs);
  }

  /** Three rows with one key (three copies of a row, say): one duplicate group, two extra rows. */
  lemma ThreeCopies(ks: seq<Key>)
    requires |ks| == 3 && ks[1] == ks[0] && ks[2] == ks[0]
    ensures Groups(Values(Count(ks))) == 1 && ExtraRows(Values(Count(ks))) == 2
  {
    SameKeyCount(ks, ks[0]);
    SingleValue(ks[0], 3);
    assert [3][..0] == [];
  }

  /** n copies of one key: the Counter holds that key alone, counted n times. */
  lemma {:induction false} SameKeyCount(ks: seq<Key>, k: Key)
    requires |ks| > 0 && forall i :: 0 <= i < |ks| ==> ks[i] == k
    ensures Count(ks) == Counter([k], map[k := |ks|])
  {
    var init := ks[..|ks| - 1];
    if init == [] {
      assert Count(init) == Counter([], map[]);
      assert [] + [k] == [k] && map[][k := 1] == map[k := 1];
    } else {
      SameKeyCount(init, k);
      BumpAgain(Count(init), k, |init|);
    }
  }

  lemma SingleValue(k: Key, n: nat)
    requires n >= 1
    ensures Values(Counter([k], map[k := n])) == [n]
  {
  }

  /** Bumping the only key of a counter adds one to its count. */
  lemma BumpAgain(c: Counter, k: Key, n: nat)
    requires c == Counter([k], map[k := n])
    ensures Bump(c, k) == Counter([k], map[k := n + 1])
  {
    assert map[k := n][k := n + 1] == map[k := n + 1];
  }

  /** Cell key of b is cell key of a with whitespace around it, or both rows lack it. */
  predicate PaddedCell(a: Csv.Record, b: Csv.Record, key: string, pre: string, post: string) {
    (key in a <==> key in b) && (key in a ==> b[key] == pre + a[key] + post)
  }

  lemma PaddedCellClean(a: Csv.Record, b: Csv.Record, key: string, pre: string, post: string)
    requires AllSpace(pre) && AllSpace(post) && PaddedCell(a, b, key, pre, post)
    ensures Cleaned(a, key) == Cleaned(b, key)
  {
    if key in a {
      StripPadding(pre, a[key], post);
    }
  }

  /**
   * Rows that differ only in whitespace around their played_at_utc,
   * track_name and artist_name share a duplicate key.
   */
  lemma PaddedRowsShareKey(a: Csv.Record, b: Csv.Record, pre: string, post: string)
    requires AllSpace(pre) && AllSpace(post)
    requires PaddedCell(a, b, "played_at_utc", pre, post)
    requires PaddedCell(a, b, "track_name", pre, post)
    requires PaddedCell(a, b, "artist_name", pre, post)
    ensures DupKey(a) == DupKey(b)
  {
    PaddedCellClean(a, b, "played_at_utc", pre, post);
    PaddedCellClean(a, b, "track_name", pre, post);
    PaddedCellClean(a, b, "artist_name", pre, post);
  }
}
