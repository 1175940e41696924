/**
 * How the stages fit together: the flattener writes the header the
 * validator demands, and a file the validator accepts converts in the
 * processing stage unless a timestamp falls outside the years 1..9999 or
 * carries a separator character that only the validator strips.
 */
module Pipeline {
  import opened Wrappers
  import opened Text
  import Flatten
  import Validate
  import Enrich
  import Csv

  /** The three stages agree on the nine interim columns. */
  lemma InterimColumnsAgree()
    ensures Flatten.Names(Flatten.FieldOrder) == Validate.ExpectedFields
    ensures Validate.ExpectedFields == Enrich.InterimFields
  {
    assert Flatten.Names(Flatten.FieldOrder) == Validate.ExpectedFields by {
      forall i | 0 <= i < 9 ensures Flatten.Names(Flatten.FieldOrder)[i] == Validate.ExpectedFields[i] {
      }
    }
  }

  /** The interim CSV of a successful flatten passes the validator's header check. */
  lemma FlattenedHeaderAccepted(dir: seq<Flatten.PageFile>)
    requires Flatten.FlattenAll(dir).Ok?
    ensures Validate.Check(Some(Flatten.WriteInterim(Flatten.FlattenAll(dir).value))).Checked?
  {
    Flatten.FlattenAllShape(dir);
    InterimColumnsAgree();
  }

  /**
   * A file the validator passes with exit code 0 has a played_at_utc in
   * every row that int() accepts once stripped. The processing stage reads
   * the raw cell, so it writes every row, or stops at a timestamp outside
   * the years 1..9999, or stops at a cell int() rejects only because of a
   * separator (U+001C..U+001F) that the validator stripped. Without such
   * separators in the column, only the first two can happen.
   */
  lemma ValidatedFileConverts(t: Csv.Table)
    requires Validate.ExitCode(Validate.Check(Some(t))) == Validate.ExitOk
    ensures var o := Enrich.Process(Some(t));
      o.Done? || (o.Crashed? && (o.error.OutOfRange?
        || (o.error.NotAnInteger? && !NoSeparators(o.error.text) && ParseInt(Strip(o.error.text)).Some?)))
    ensures (forall k :: 0 <= k < |t.records| ==> NoSeparators(Csv.GetOrEmpty(t.records[k], "played_at_utc"))) ==>
      Enrich.Process(Some(t)).Done? || (Enrich.Process(Some(t)).Crashed? && Enrich.Process(Some(t)).error.OutOfRange?)
  {
    PassedHasNoBadTimestamps(t);
    Validate.NoBadTimestamps(t.records);
    PassedRowsConvert(t);
  }

  lemma PassedRowsConvert(t: Csv.Table)
    requires forall k :: 0 <= k < |t.records| ==> !Validate.BadPlayedAt(t.records[k])
    ensures var o := Enrich.Process(Some(t));
      o.Done? || (o.Crashed? && (o.error.OutOfRange?
        || (o.error.NotAnInteger? && !NoSeparators(o.error.text) && ParseInt(Strip(o.error.text)).Some?)))
    ensures (forall k :: 0 <= k < |t.records| ==> NoSeparators(Csv.GetOrEmpty(t.records[k], "played_at_utc"))) ==>
      Enrich.Process(Some(t)).Done? || (Enrich.Process(Some(t)).Crashed? && Enrich.Process(Some(t)).error.OutOfRange?)
  {
    var o := Enrich.Process(Some(t));
    if o.Crashed? {
      Enrich.CrashShape(t);
      PassedRowFails(t.records[o.row]);
    }
  }

  /** A row the validator passes that still raises: out of range, or a separator int() does not skip. */
  lemma PassedRowFails(r: Csv.Record)
    requires !Validate.BadPlayedAt(r) && Enrich.DeriveRow(r).Err?
    ensures "played_at_utc" in r
    ensures var err := Enrich.DeriveRow(r).error;
      err.OutOfRange? || (err.NotAnInteger? && err.text == r["played_at_utc"]
        && !NoSeparators(err.text) && ParseInt(Strip(err.text)).Some?)
  {
    Validate.BadTimestamp(r);
    if Enrich.DeriveRow(r).error.NotAnInteger? {
      assert Validate.Cleaned(r, "played_at_utc") == Strip(r["played_at_utc"]);
    }
  }

  /** Exit code 0 from the validator means no played_at_utc was counted as bad. */
  lemma PassedHasNoBadTimestamps(t: Csv.Table)
    requires Validate.ExitCode(Validate.Check(Some(t))) == Validate.ExitOk
    ensures Validate.BadCount(t.records) == 0
  {
  }

  /** When int() accepts every raw played_at_utc cell, the only error a row can raise is OutOfRange. */
  lemma IntegerEpochsConvert(t: Csv.Table)
    requires forall k :: 0 <= k < |t.records| ==>
      "played_at_utc" in t.records[k] && ParseInt(t.records[k]["played_at_utc"]).Some?
    ensures Enrich.Process(Some(t)).Done?
      || (Enrich.Process(Some(t)).Crashed? && Enrich.Process(Some(t)).error.OutOfRange?)
  {
    var rs := Enrich.Results(t.records);
    var j := Enrich.FirstFailure(rs);
    if j < |rs| {
      var r := t.records[j];
      assert rs[j] == Enrich.DeriveRow(r);
      assert Enrich.Epoch(r).Ok?;
    }
  }

  /**
   * The separator case happens: a one-row file whose played_at_utc is a
   * separator and then digits, such as "\x1c1700000000", passes the
   * validator with exit code 0, and the processing stage raises on row 0
   * having written nothing.
   */
  lemma SeparatorCellCrashes(t: Csv.Table, c: char, d: string)
    requires IsSeparator(c) && Convertible(d)
    requires Validate.HeaderOk(t.header) && t.records == [map["played_at_utc" := [c] + d]]
    ensures Validate.ExitCode(Validate.Check(Some(t))) == Validate.ExitOk
    ensures Enrich.Process(Some(t)) == Enrich.Crashed(Enrich.OutFields(), [], 0, Enrich.NotAnInteger([c] + d))
  {
    var r := t.records[0];
    SeparatorNotSkipped(c, d);
    SeparatorRowPasses(r, [c] + d);
    OneGoodRow(t);
    SeparatorRowRaises(t, r, [c] + d);
  }

  lemma SeparatorRowPasses(r: Csv.Record, v: string)
    requires "played_at_utc" in r && r["played_at_utc"] == v && ParseInt(Strip(v)).Some?
    ensures !Validate.BadPlayedAt(r)
  {
    assert Validate.Cleaned(r, "played_at_utc") == Strip(v);
  }

  lemma OneGoodRow(t: Csv.Table)
    requires Validate.HeaderOk(t.header) && |t.records| == 1 && !Validate.BadPlayedAt(t.records[0])
    ensures Validate.ExitCode(Validate.Check(Some(t))) == Validate.ExitOk
  {
    assert t.records[..0] == [];
    assert Validate.BadCount(t.records) == 0;
  }

  lemma SeparatorRowRaises(t: Csv.Table, r: Csv.Record, v: string)
    requires t.records == [r] && "played_at_utc" in r && r["played_at_utc"] == v && ParseInt(v).None?
    ensures Enrich.Process(Some(t)) == Enrich.Crashed(Enrich.OutFields(), [], 0, Enrich.NotAnInteger(v))
  {
    var rs := Enrich.Results(t.records);
    assert rs[0] == Enrich.DeriveRow(r) == Err(Enrich.NotAnInteger(v));
    assert Enrich.FirstFailure(rs) == 0;
    assert rs[..0] == [];
  }
}
