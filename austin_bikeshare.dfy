/** The Austin bikeshare trips transform helpers: a pair-by-pair header
    rename, the check-out date converter, and the value fixer meant to pad a
    one-digit hour with a zero. */
module AustinBikeshare {
  import opened Basics
  import opened Text
  import opened Dates
  import opened Tables
  import opened Frames

  /** The `header_names` dict of `rename_headers`, as `items()` yields it. */
  const HeaderNames: seq<(string, string)> := [
    ("Trip ID", "trip_id"),
    ("Membership Type", "subscriber_type"),
    ("Bicycle ID", "bikeid"),
    ("Checkout Date", "start_time"),
    ("Checkout Kiosk ID", "start_station_id"),
    ("Checkout Kiosk", "start_station_name"),
    ("Return Kiosk ID", "end_station_id"),
    ("Return Kiosk", "end_station_name"),
    ("Trip Duration Minutes", "duration_minutes"),
    ("Checkout Time", "checkout_time"),
    ("Month", "month"),
    ("Year", "year")]

  /** The twelve targets, in order. */
  const Targets: seq<string> := [
    "trip_id", "subscriber_type", "bikeid", "start_time", "start_station_id",
    "start_station_name", "end_station_id", "end_station_name",
    "duration_minutes", "checkout_time", "month", "year"]

  /** The `dt_cols` list of `convert_dt_values`. */
  const DtCols: seq<string> := ["start_time"]

  /** The twelve sources, in order. */
  const Sources: seq<string> := [
    "Trip ID", "Membership Type", "Bicycle ID", "Checkout Date",
    "Checkout Kiosk ID", "Checkout Kiosk", "Return Kiosk ID", "Return Kiosk",
    "Trip Duration Minutes", "Checkout Time", "Month", "Year"]

  /** The pairs are the sources matched with the targets. */
  lemma HeaderNamesZip()
    ensures |Sources| == |HeaderNames| && |Targets| == |HeaderNames|
    ensures forall i | 0 <= i < |HeaderNames| :: HeaderNames[i] == (Sources[i], Targets[i])
  {
  }

  lemma SourcesDistinct()
    ensures Distinct(Sources)
  {
  }

  lemma TargetsDistinct()
    ensures Distinct(Targets)
  {
  }

  /** The twelve pairs have distinct sources and distinct targets, and no
      target is also a source: targets start with a lower-case letter, sources
      with a capital. */
  lemma HeaderNamesChainFree()
    ensures ChainFree(HeaderNames)
    ensures |Targets| == |HeaderNames| && forall i | 0 <= i < |HeaderNames| :: HeaderNames[i].1 == Targets[i]
    ensures Distinct(Targets)
  {
    HeaderNamesZip();
    SourcesDistinct();
    TargetsDistinct();
    assert forall a | 0 <= a < |Targets| :: |Targets[a]| > 0 && 'a' <= Targets[a][0] <= 'z';
    assert forall b | 0 <= b < |Sources| :: |Sources[b]| > 0 && 'A' <= Sources[b][0] <= 'Z';
  }

  /** Renaming pair by pair, as `rename_headers` does, is the same as
      renaming through the whole dict at once. */
  lemma RenameHeadersAtOnce(t: Table)
    ensures RenameEach(t, HeaderNames) == Rename(t, MapOf(HeaderNames))
  {
    HeaderNamesChainFree();
    RenameEachIsRename(t, HeaderNames);
  }

  /** `rename_headers(df)`: `df.rename(old_name, new_name)` for each pair. */
  method RenameHeaders(df: Frame)
    requires df.Valid()
    modifies df
    ensures df.Valid() && df.Value() == Rename(old(df.Value()), MapOf(HeaderNames))
  {
    RenameHeadersAtOnce(df.Value());
    df.RenameEach(HeaderNames);
  }

  /** `convert_dt_format`: `None` and `""` are returned as they are; a
      ten-character text is read as `%m/%d/%Y` and written with time
      `00:00:00`; any other text is read as `%m/%d/%Y %H:%M:%S %p` and written
      `%Y-%m-%d %H:%M:%S`; a text that does not parse raises `ValueError`. */
  function ConvertDtFormat(c: Cell): (r: Result<Cell>)
    ensures c.None? || c == Some("") ==> r == Ok(c)
    ensures c.Some? && |c.value| == 10 ==> (r.Ok? <==> ParseDate(c.value).Some?)
    ensures c.Some? && |c.value| != 0 && |c.value| != 10 ==> (r.Ok? <==> ParseDateTime(c.value).Some?)
    ensures r.Err? ==> r.error == ValueError(c.value)
    ensures r.Ok? && c.Some? && c.value != "" ==> r.value.Some? && |r.value.value| == 19
  {
    match c
    case None => Ok(c)
    case Some(s) =>
      if |s| == 0 then Ok(c)
      else if |s| == 10 then
        match ParseDate(s)
        case None => Err(ValueError(s))
        case Some(d) => Ok(Some(IsoDateTime(DateTime(d, Time(0, 0, 0)))))
      else
        match ParseDateTime(s)
        case None => Err(ValueError(s))
        case Some(dt) => Ok(Some(IsoDateTime(dt)))
  }

  /** A date alone becomes that date at midnight. */
  lemma DateGetsMidnight(d: Date)
    requires ValidDate(d)
    ensures ConvertDtFormat(Some(UsDate(d))) == Ok(Some(IsoDate(d) + " 00:00:00"))
  {
    ParseUsDate(d);
    assert |UsDate(d)| == 10;
    assert DigitChar(0) == '0';
    assert Pad2(0) == "00";
    assert IsoDateTime(DateTime(d, Time(0, 0, 0))) == IsoDate(d) + " 00:00:00";
  }

  /** A date and time with any AM/PM marker becomes the same date and time,
      the hour as written: `%p` does not move it by twelve. */
  lemma DateTimeRoundTrip(dt: DateTime, marker: string)
    requires ValidDate(dt.date) && ValidTime(dt.time) && IsMeridiem(marker)
    ensures ConvertDtFormat(Some(UsDateTime(dt) + " " + marker)) == Ok(Some(IsoDateTime(dt)))
  {
    ParseUsDateTime(dt, marker);
  }

  /** `AM` and `PM` give the same result wherever they are accepted. */
  lemma MeridiemDoesNotShift(body: string)
    ensures ConvertDtFormat(Some(body + "AM")).Ok? <==> ConvertDtFormat(Some(body + "PM")).Ok?
    ensures ConvertDtFormat(Some(body + "AM")).Ok? ==>
      ConvertDtFormat(Some(body + "AM")) == ConvertDtFormat(Some(body + "PM"))
  {
    var am, pm := body + "AM", body + "PM";
    assert |am| == |pm| == |body| + 2;
    if |body| == 8 {
      if ParseDate(am).Some? { DateEndsInDigit(am); }
      if ParseDate(pm).Some? { DateEndsInDigit(pm); }
    } else {
      MeridiemIgnored(body);
      assert ParseDateTime(am) == ParseDateTime(pm);
    }
  }

  /** `convert_dt_values`: only the start time is rewritten. */
  lemma ConvertDtValuesOnlyStartTime(t: Table)
    requires ApplyEach(t, DtCols, ConvertDtFormat).outcome.Pass?
    ensures "start_time" in t.headers
    ensures ApplyEach(t, DtCols, ConvertDtFormat).table.headers == t.headers
    ensures |ApplyEach(t, DtCols, ConvertDtFormat).table.rows| == |t.rows|
    ensures forall i | 0 <= i < |t.rows| ::
      ConvertDtFormat(t.rows[i][IndexOf(t.headers, "start_time")]) ==
      Ok(ApplyEach(t, DtCols, ConvertDtFormat).table.rows[i][IndexOf(t.headers, "start_time")])
    ensures forall i, j | 0 <= i < |t.rows| && 0 <= j < |t.headers| && t.headers[j] != "start_time" ::
      ApplyEach(t, DtCols, ConvertDtFormat).table.rows[i][j] == t.rows[i][j]
  {
    ApplyEachSingle(t, DtCols, "start_time", ConvertDtFormat);
  }

  /** `convert_dt_values(df)`. */
  method ConvertDtValues(df: Frame) returns (o: Outcome)
    requires df.Valid()
    modifies df
    ensures df.Valid() && ApplyEach(old(df.Value()), DtCols, ConvertDtFormat) == Run(df.Value(), o)
  {
    o := df.ApplyEach(DtCols, ConvertDtFormat);
  }

  /** `^\d:\d{2}:\d{2}` matches at the start of `s`: a one-digit hour, then
      minutes and seconds. */
  predicate HourPrefix(s: string) {
    && |s| >= 7 && IsDigit(s[0]) && s[1] == ':' && IsDigit(s[2]) && IsDigit(s[3])
    && s[4] == ':' && IsDigit(s[5]) && IsDigit(s[6])
  }

  /** `val.find("\n") > 0`: there is a newline, and not at the first position. */
  predicate InnerNewline(s: string) {
    0 < FirstIndexOf(s, '\n') < |s|
  }

  /** The replacement template `"0$1:$2"`. Python's `re` writes group
      references `\1`, not `$1`, so it is inserted as these six characters. */
  const Template: string := "0$1:$2"

  /** `replace_value` as written: `None` and `""` are returned as they are; a
      value with an inner newline whose start matches the pattern has the
      seven matched characters replaced by the template; anything else is
      returned unchanged. */
  function ReplaceValue(c: Cell): (r: Cell)
    ensures c.None? || c == Some("") ==> r == c
    ensures c.Some? && !(InnerNewline(c.value) && HourPrefix(c.value)) ==> r == c
    ensures c.Some? && InnerNewline(c.value) && HourPrefix(c.value) ==>
      r.Some? && |r.value| == |c.value| - 1 && r.value[..6] == Template && r.value[6..] == c.value[7..]
  {
    match c
    case None => c
    case Some(s) =>
      if |s| == 0 then c
      else if InnerNewline(s) && HourPrefix(s) then Some(Template + s[7..])
      else c
  }

  /** The value as written loses the hour, minutes and seconds it was meant
      to pad: the result is shorter than the input and is not the input with a
      zero in front. */
  lemma ReplaceValueLosesTime(s: string)
    requires InnerNewline(s) && HourPrefix(s)
    ensures ReplaceValue(Some(s)).value != "0" + s
    ensures ReplaceValue(Some(s)).value[..7] != "0" + s[..6]
  {
    assert ReplaceValue(Some(s)).value[1] == '$';
    assert ("0" + s[..6])[1] == s[0];
  }

  /** `replace_value` as intended, with the template `0\1:\2`: the matched
      start is written back after a `0`, so a one-digit hour gains a leading
      zero and nothing else changes. */
  function ReplaceValueIntended(c: Cell): (r: Cell)
    ensures !(c.Some? && InnerNewline(c.value) && HourPrefix(c.value)) ==> r == c
    ensures c.Some? && InnerNewline(c.value) && HourPrefix(c.value) ==>
      r == Some("0" + c.value)
  {
    match c
    case None => c
    case Some(s) =>
      if |s| == 0 then c
      else if InnerNewline(s) && HourPrefix(s) then
        var padded := "0" + s[0..1] + ":" + s[2..7] + s[7..];
        assert padded == "0" + s by {
          assert |padded| == |s| + 1;
          assert forall k | 0 <= k < |padded| :: padded[k] == ("0" + s)[k];
        }
        Some(padded)
      else c
  }

  /** The intended fix pads once: its result starts with a two-digit hour, so
      a second pass leaves it alone. */
  lemma ReplaceValueIntendedIdempotent(c: Cell)
    ensures ReplaceValueIntended(ReplaceValueIntended(c)) == ReplaceValueIntended(c)
  {
    var r := ReplaceValueIntended(c);
    if r.Some? && r != c {
      assert r.value[1] == c.value[0];
      assert !HourPrefix(r.value);
    }
  }
}
