/**
 * The processing stage: every interim row is carried over with seven
 * derived UTC time fields. played_at_utc is read with int(), converted to
 * a UTC date and time, and written back as canonical text, an ISO 8601
 * timestamp, a date, and the year, month, weekday (Monday = 0) and hour.
 * A row whose played_at_utc is absent, not an integer or outside the years
 * 1..9999 raises, and the run stops at that row.
 */
module Enrich {
  import opened Wrappers
  import opened Text
  import opened Civil
  import Csv

  const InterimFields: seq<string> := [
    "played_at_utc", "track_name", "artist_name", "album_name",
    "track_mbid", "artist_mbid", "album_mbid", "source_page", "source_file"
  ]

  const DerivedFields: seq<string> := [
    "played_at_epoch", "played_at_ts_utc", "date_utc",
    "year_utc", "month_utc", "dow_utc", "hour_utc"
  ]

  /** The output header: the interim columns, then the derived ones. */
  function OutFields(): (fs: seq<string>)
    ensures |fs| == 16 && fs[..9] == InterimFields && fs[9..] == DerivedFields
  {
    InterimFields + DerivedFields
  }

  /**
   * Why a row stops the run. NoTimestamp: row["played_at_utc"] raised
   * KeyError (no such column), or int() raised TypeError on the None that
   * DictReader puts in a short row. NotAnInteger: int() raised ValueError.
   * OutOfRange: fromtimestamp raised.
   */
  datatype RowError = NoTimestamp | NotAnInteger(text: string) | OutOfRange(epoch: int)

  /** epoch = int(row["played_at_utc"]) */
  function Epoch(rec: Csv.Record): (r: Result<int, RowError>)
    ensures r.Ok? <==> "played_at_utc" in rec && ParseInt(rec["played_at_utc"]).Some?
    ensures r.Ok? ==> r.value == ParseInt(rec["played_at_utc"]).value
  {
    if "played_at_utc" !in rec then Err(NoTimestamp)
    else match ParseInt(rec["played_at_utc"])
      case None => Err(NotAnInteger(rec["played_at_utc"]))
      case Some(e) => Ok(e)
  }

  /** {k: row.get(k, "") for k in INTERIM_FIELDS}, in the writer's column order. */
  function Carried(rec: Csv.Record): (cells: seq<string>)
    ensures |cells| == 9
    ensures forall i :: 0 <= i < 9 ==> cells[i] == Csv.GetOrEmpty(rec, InterimFields[i])
  {
    seq(9, i requires 0 <= i < 9 => Csv.GetOrEmpty(rec, InterimFields[i]))
  }

  /** The seven derived fields, in DERIVED_FIELDS order. */
  datatype Stamp = Stamp(
    epoch: string, timestamp: string, date: string,
    year: string, month: string, weekday: string, hour: string)

  /** The derived fields for epoch e, which falls at t. */
  function Derive(e: int, t: UtcDateTime): Stamp
    requires ValidDateTime(t)
  {
    Stamp(IntToString(e), IsoTimestamp(t), IsoDate(t.date), IntToString(t.date.year),
      IntToString(t.date.month), IntToString(Weekday(t.date)), IntToString(t.hour))
  }

  /** An output row: the nine carried cells and the derived fields. */
  datatype Line = Line(carried: seq<string>, derived: Stamp)

  /** The row as the writer lays it out under OutFields(). */
  function Cells(l: Line): (cells: seq<string>)
    ensures |cells| == |l.carried| + 7
    ensures cells[..|l.carried|] == l.carried
  {
    var d := l.derived;
    l.carried + [d.epoch, d.timestamp, d.date, d.year, d.month, d.weekday, d.hour]
  }

  /** The derived fields of epoch e, or None where fromtimestamp raises. */
  function StampOf(e: int): (r: Option<Stamp>)
    ensures r.Some? <==> MinTimestamp <= e <= MaxTimestamp
  {
    match FromTimestamp(e)
    case None => None
    case Some(t) => Some(Derive(e, t))
  }

  /** The output row for one interim row, or the error that row raises. */
  function DeriveRow(rec: Csv.Record): (r: Result<Line, RowError>)
    ensures r.Ok? ==> |Cells(r.value)| == |OutFields()|
  {
    match Epoch(rec)
    case Err(err) => Err(err)
    case Ok(e) =>
      match StampOf(e)
      case None => Err(OutOfRange(e))
      case Some(d) => Ok(Line(Carried(rec), d))
  }

  // ------------------------------------------------------------ the stage

  /** The written CSV: its header, then one line per row written. */
  datatype Outcome =
    | MissingInput
    | Done(header: seq<string>, lines: seq<Line>)
    | Crashed(header: seq<string>, lines: seq<Line>, row: nat, error: RowError)

  function ExitCode(o: Outcome): int {
    match o
    case MissingInput => 2
    case Done(_, _) => 0
    case Crashed(_, _, _, _) => 1
  }

  /** What each row yields, in input order. */
  function Results(recs: seq<Csv.Record>): (rs: seq<Result<Line, RowError>>)
    ensures |rs| == |recs|
  {
    seq(|recs|, k requires 0 <= k < |recs| => DeriveRow(recs[k]))
  }

  /** The index of the first row that raises, or the number of rows when none does. */
  function FirstFailure(rs: seq<Result<Line, RowError>>): (j: nat)
    ensures j <= |rs|
    ensures forall k :: 0 <= k < j ==> rs[k].Ok?
    ensures j < |rs| ==> rs[j].Err?
  {
    if rs == [] then 0
    else if rs[0].Err? then 0
    else 1 + FirstFailure(rs[1..])
  }

  /** The lines of rows that all converted. */
  function Lines(rs: seq<Result<Line, RowError>>): (ls: seq<Line>)
    requires forall k :: 0 <= k < |rs| ==> rs[k].Ok?
    ensures |ls| == |rs|
  {
    seq(|rs|, k requires 0 <= k < |rs| => rs[k].value)
  }

  /** What the stage writes for an interim file, or for none. */
  function Process(input: Option<Csv.Table>): Outcome {
    match input
    case None => MissingInput
    case Some(t) =>
      var rs := Results(t.records);
      var j := FirstFailure(rs);
      if j == |rs| then Done(OutFields(), Lines(rs))
      else Crashed(OutFields(), Lines(rs[..j]), j, rs[j].error)
  }

  /** main(): the header first, then the rows one at a time until one raises. */
  method MakeProcessed(input: Option<Csv.Table>) returns (outcome: Outcome, rowsIn: nat)
    ensures outcome == Process(input)
    ensures outcome.Done? ==> rowsIn == |outcome.lines|
    ensures outcome.Crashed? ==> rowsIn == outcome.row + 1
  {
    if input.None? {
      return MissingInput, 0;
    }
    var recs := input.value.records;
    ghost var rs := Results(recs);
    var header := OutFields();
    var lines: seq<Line> := [];
    rowsIn := 0;
    while rowsIn < |recs|
      invariant 0 <= rowsIn <= |recs|
      invariant forall k :: 0 <= k < rowsIn ==> rs[k].Ok?
      invariant lines == Lines(rs[..rowsIn])
    {
      var row := recs[rowsIn];
      var line := DeriveRow(row);
      assert line == rs[rowsIn];
      if line.Err? {
        FirstFailureIs(rs, rowsIn);
        return Crashed(header, lines, rowsIn, line.error), rowsIn + 1;
      }
      LinesSnoc(rs, rowsIn);
      lines := lines + [line.value];
      rowsIn := rowsIn + 1;
    }
    FirstFailureIs(rs, rowsIn);
    assert rs[..rowsIn] == rs;
    outcome := Done(header, lines);
  }

  lemma LinesSnoc(rs: seq<Result<Line, RowError>>, i: nat)
    requires i < |rs| && forall k :: 0 <= k <= i ==> rs[k].Ok?
    ensures Lines(rs[..i + 1]) == Lines(rs[..i]) + [rs[i].value]
  {
  }

  /** FirstFailure is the first index that raises. */
  lemma {:induction false} FirstFailureIs(rs: seq<Result<Line, RowError>>, j: nat)
    requires j <= |rs| && forall k :: 0 <= k < j ==> rs[k].Ok?
    requires j < |rs| ==> rs[j].Err?
    ensures FirstFailure(rs) == j
  {
    if j > 0 {
      FirstFailureIs(rs[1..], j - 1);
    }
  }

  // ------------------------------------------------------------ properties

  /**
   * A row converts exactly when it has an integer played_at_utc in the
   * years 1..9999; it then keeps the nine interim cells (an absent one as
   * "") and carries the derived fields of that integer.
   */
  lemma DeriveRowSucceeds(rec: Csv.Record)
    ensures DeriveRow(rec).Ok? <==>
      "played_at_utc" in rec && ParseInt(rec["played_at_utc"]).Some?
      && MinTimestamp <= ParseInt(rec["played_at_utc"]).value <= MaxTimestamp
    ensures "played_at_utc" !in rec ==> DeriveRow(rec) == Err(NoTimestamp)
    ensures DeriveRow(rec).Ok? ==>
      DeriveRow(rec).value == Line(Carried(rec), StampOf(ParseInt(rec["played_at_utc"]).value).value)
  {
  }

  /**
   * The derived fields of an epoch in range, with t its UTC time: the
   * epoch as text that reads back as the same integer, a 20-character
   * timestamp whose first 10 characters are the date, a year in 1..9999, a
   * month in 1..12, a weekday in 0..6 and an hour in 0..23, each as text.
   */
  lemma StampMeaning(e: int)
    requires MinTimestamp <= e <= MaxTimestamp
    ensures var d, t := StampOf(e).value, FromTimestamp(e).value;
      && ParseInt(d.epoch) == Some(e)
      && d.timestamp == IsoTimestamp(t) && |d.timestamp| == 20 && d.date == d.timestamp[..10]
      && ParseInt(d.year) == Some(t.date.year) && 1 <= t.date.year <= 9999
      && ParseInt(d.month) == Some(t.date.month) && 1 <= t.date.month <= 12
      && ParseInt(d.weekday) == Some(Weekday(t.date)) && 0 <= Weekday(t.date) <= 6
      && ParseInt(d.hour) == Some(t.hour) && 0 <= t.hour <= 23
  {
    var t := FromTimestamp(e).value;
    assert StampOf(e).value == Derive(e, t);
    IsoTimestampShape(t);
    DerivedNumbers(e, t);
  }

  lemma DerivedNumbers(e: int, t: UtcDateTime)
    requires ValidDateTime(t) && t.date.year <= 9999 && MinTimestamp <= e <= MaxTimestamp
    ensures var d := Derive(e, t);
      && ParseInt(d.epoch) == Some(e)
      && ParseInt(d.year) == Some(t.date.year) && 1 <= t.date.year <= 9999
      && ParseInt(d.month) == Some(t.date.month) && 1 <= t.date.month <= 12
      && ParseInt(d.weekday) == Some(Weekday(t.date)) && 0 <= Weekday(t.date) <= 6
      && ParseInt(d.hour) == Some(t.hour) && 0 <= t.hour <= 23
  {
    ShortRoundTrip(e);
    ShortRoundTrip(t.date.year);
    ShortRoundTrip(t.date.month);
    ShortRoundTrip(Weekday(t.date));
    ShortRoundTrip(t.hour);
  }

  /**
   * played_at_epoch is canonical: it is str() of the integer int() read, so
   * it reads back as that integer, and by CanonicalIsStr every cell that
   * denotes the same integer ("7", "007", "+7", " 7") gives the same text.
   */
  lemma EpochCanonical(rec: Csv.Record)
    requires DeriveRow(rec).Ok?
    ensures var d := DeriveRow(rec).value.derived.epoch;
      CanonicalInt(d) && ParseInt(d) == ParseInt(rec["played_at_utc"])
  {
    var e := Epoch(rec).value;
    assert DeriveRow(rec).value.derived.epoch == IntToString(e);
    IntToStringCanonical(e);
    ShortRoundTrip(e);
  }

  /** For example, "007" is written back as "7". */
  lemma LeadingZerosDropped(rec: Csv.Record, s: string)
    requires s == "007" && "played_at_utc" in rec && rec["played_at_utc"] == s
    ensures DeriveRow(rec).Ok? && DeriveRow(rec).value.derived.epoch == "7"
  {
    assert NatToString(7) == "7";
    assert ZeroPad(7, 3) == s;
    ParseIntZeroPad(7, 3);
    assert Epoch(rec) == Ok(7);
  }

  /** Epoch 0 is 1970-01-01T00:00:00Z, a Thursday (3), in hour 0. */
  lemma EpochZero(e: int)
    requires e == 0
    ensures StampOf(e) == Some(Stamp("0", "1970-01-01T00:00:00Z", "1970-01-01", "1970", "1", "3", "0"))
  {
    var t := UtcDateTime(Date(1970, 1, 1), 0, 0, 0);
    EpochInstant(e, 1970);
    EpochText(t);
    assert IntToString(t.date.year) == "1970";
    assert IntToString(3) == "3" && IntToString(1) == "1" && IntToString(0) == "0";
  }

  /** One day later: the weekday moves on by one (mod 7) and the hour stays. */
  lemma NextDayStamp(e: int)
    requires MinTimestamp <= e && e + SecondsPerDay <= MaxTimestamp
    ensures StampOf(e + SecondsPerDay).value.hour == StampOf(e).value.hour
    ensures var w := Weekday(FromTimestamp(e).value.date);
      ParseInt(StampOf(e).value.weekday) == Some(w)
      && ParseInt(StampOf(e + SecondsPerDay).value.weekday) == Some((w + 1) % 7)
  {
    var t, u := FromTimestamp(e).value, FromTimestamp(e + SecondsPerDay).value;
    StampMeaning(e);
    StampMeaning(e + SecondsPerDay);
    NextDay(e);
  }

  /**
   * A completed run writes the sixteen-column header and one line per
   * input row, in input order; the rows-in count is the number of rows.
   */
  lemma DoneShape(t: Csv.Table)
    requires Process(Some(t)).Done?
    ensures Process(Some(t)).header == InterimFields + DerivedFields
    ensures |Process(Some(t)).lines| == |t.records|
    ensures forall k :: 0 <= k < |t.records| ==>
      DeriveRow(t.records[k]).Ok? && Process(Some(t)).lines[k] == DeriveRow(t.records[k]).value
  {
    var rs := Results(t.records);
    forall k | 0 <= k < |t.records|
      ensures DeriveRow(t.records[k]).Ok? && Process(Some(t)).lines[k] == DeriveRow(t.records[k]).value
    {
      assert rs[k] == DeriveRow(t.records[k]);
    }
  }

  /**
   * A run that raises stops at the first row that does: every earlier row
   * was written, in order, and nothing after it.
   */
  lemma CrashShape(t: Csv.Table)
    requires Process(Some(t)).Crashed?
    ensures var o := Process(Some(t));
      && o.row < |t.records| && DeriveRow(t.records[o.row]) == Err(o.error)
      && |o.lines| == o.row
      && (forall k :: 0 <= k < o.row ==> DeriveRow(t.records[k]).Ok? && o.lines[k] == DeriveRow(t.records[k]).value)
  {
    var rs := Results(t.records);
    var o := Process(Some(t));
    assert rs[o.row] == DeriveRow(t.records[o.row]);
    forall k | 0 <= k < o.row
      ensures DeriveRow(t.records[k]).Ok? && o.lines[k] == DeriveRow(t.records[k]).value
    {
      assert rs[k] == DeriveRow(t.records[k]);
    }
  }

  /** Without an input file nothing is written and the exit code is 2. */
  lemma MissingInputExit(input: Option<Csv.Table>)
    ensures Process(input) == MissingInput <==> input.None?
    ensures ExitCode(Process(input)) == 2 <==> input.None?
  {
  }
}
