/** The Austin waste and diversion transform: rename the columns through the
    `RENAME_MAPPINGS` dict of the environment, rewrite the report date and the
    load time to ISO form, and keep the `CSV_HEADERS` columns in order. */
module AustinWaste {
  import opened Basics
  import opened Text
  import opened Dates
  import opened Tables
  import opened Frames

  /** The `dt_cols` list of `date_convert`. */
  const DtCols: seq<string> := ["report_date", "load_time"]

  /** `convert_dt_format`: `None` and `""` are returned as they are; a
      ten-character text is read as `%m/%d/%Y` and written `%Y-%m-%d`; any
      other text is read as `%m/%d/%Y %H:%M:%S %p` and written
      `%Y-%m-%d %H:%M:%S`; a text that does not parse raises `ValueError`. */
  function ConvertDtFormat(c: Cell): (r: Result<Cell>)
    ensures c.None? || c == Some("") ==> r == Ok(c)
    ensures c.Some? && |c.value| == 10 ==> (r.Ok? <==> ParseDate(c.value).Some?)
    ensures c.Some? && |c.value| != 0 && |c.value| != 10 ==> (r.Ok? <==> ParseDateTime(c.value).Some?)
    ensures r.Err? ==> r.error == ValueError(c.value)
    ensures r.Ok? && c.Some? && |c.value| == 10 ==> r.value.Some? && |r.value.value| == 10
    ensures r.Ok? && c.Some? && |c.value| != 0 && |c.value| != 10 ==> r.value.Some? && |r.value.value| == 19
  {
    match c
    case None => Ok(c)
    case Some(s) =>
      if |s| == 0 then Ok(c)
      else if |s| == 10 then
        match ParseDate(s)
        case None => Err(ValueError(s))
        case Some(d) => Ok(Some(IsoDate(d)))
      else
        match ParseDateTime(s)
        case None => Err(ValueError(s))
        case Some(dt) => Ok(Some(IsoDateTime(dt)))
  }

  /** The US text of a date converts to the ISO text of the same date. */
  lemma DateRoundTrip(d: Date)
    requires ValidDate(d)
    ensures ConvertDtFormat(Some(UsDate(d))) == Ok(Some(IsoDate(d)))
  {
    ParseUsDate(d);
  }

  /** A date and time with either AM/PM marker converts to the same date and
      time: the hour is kept as written. */
  lemma DateTimeRoundTrip(dt: DateTime, marker: string)
    requires ValidDate(dt.date) && ValidTime(dt.time) && IsMeridiem(marker)
    ensures ConvertDtFormat(Some(UsDateTime(dt) + " " + marker)) == Ok(Some(IsoDateTime(dt)))
  {
    ParseUsDateTime(dt, marker);
  }

  /** The conversion raises only `ValueError`. */
  lemma ConvertRaisesValueError()
    ensures forall c: Cell :: ConvertDtFormat(c).Err? ==> ConvertDtFormat(c).error.ValueError?
  {
    forall c: Cell
      ensures ConvertDtFormat(c).Err? ==> ConvertDtFormat(c).error.ValueError?
    {
    }
  }

  /** The steps of `main`: rename through `m`, convert the two date columns,
      keep the columns `hs`. */
  function Transform(t: Table, m: map<string, string>, hs: seq<string>): (r: Result<Table>)
    ensures r.Ok? ==> |r.value.rows| == |t.rows|
    ensures r.Ok? ==> forall h | h in hs :: h in Rename(t, m).headers
  {
    var run := ApplyEach(Rename(t, m), DtCols, ConvertDtFormat);
    if run.outcome.Fail? then Err(run.outcome.error) else Project(run.table, hs)
  }

  /** Without a `report_date` column after the rename the transform raises
      `KeyError(["report_date"])`; with it but without `load_time`, it raises
      `KeyError(["load_time"])` unless a report date failed to parse first. */
  lemma MissingDateColumnFails(t: Table, m: map<string, string>, hs: seq<string>)
    ensures "report_date" !in Rename(t, m).headers ==> Transform(t, m, hs) == Err(KeyError(["report_date"]))
    ensures "report_date" in Rename(t, m).headers && "load_time" !in Rename(t, m).headers ==>
      Transform(t, m, hs).Err? &&
      (Transform(t, m, hs).error.KeyError? ==> Transform(t, m, hs).error == KeyError(["load_time"]))
  {
    var t1 := Rename(t, m);
    ConvertRaisesValueError();
    if "report_date" !in t1.headers {
      ApplyEachMissing(t1, DtCols, ConvertDtFormat, 0);
    } else if "load_time" !in t1.headers {
      ApplyEachMissing(t1, DtCols, ConvertDtFormat, 1);
    }
  }

  /** On a frame whose labels stay distinct under the rename, a transform that
      succeeds has exactly the columns `hs`, in order, and one row per input
      row; output column `k` is the renamed column `hs[k]`, converted when it
      is a date column and unchanged otherwise. */
  lemma TransformColumns(t: Table, m: map<string, string>, hs: seq<string>)
    requires Distinct(t.headers) && RenamesApart(t, m) && Transform(t, m, hs).Ok?
    ensures Transform(t, m, hs).value.headers == hs
    ensures |Transform(t, m, hs).value.rows| == |t.rows|
    ensures forall k | 0 <= k < |hs| :: hs[k] in Rename(t, m).headers
    ensures forall i, k | 0 <= i < |t.rows| && 0 <= k < |hs| ::
      var cell := t.rows[i][IndexOf(Rename(t, m).headers, hs[k])];
      if hs[k] in DtCols then ConvertDtFormat(cell) == Ok(Transform(t, m, hs).value.rows[i][k])
      else Transform(t, m, hs).value.rows[i][k] == cell
  {
    RenameKeepsDistinct(t, m);
    assert Distinct(DtCols);
    ConvertedProjection(Rename(t, m), DtCols, ConvertDtFormat, hs);
  }

  /** `main` on a read frame: rename in place, convert the dates in place,
      then rebind to the selected columns. */
  method Process(input: Table, m: map<string, string>, hs: seq<string>) returns (out: Result<Table>)
    ensures out == Transform(input, m, hs)
  {
    var df := new Frame(input);
    df.Rename(m);
    var o := df.ApplyEach(DtCols, ConvertDtFormat);
    if o.Fail? {
      return Err(o.error);
    }
    out := Project(df.Value(), hs);
  }
}
