/** The Iowa liquor sales transform: rename the 24 source columns to
    snake-case labels, rewrite the `date` column from `MM/DD/YYYY` to
    `YYYY-MM-DD`, and keep the 24 columns in a fixed order. */
module IowaLiquor {
  import opened Basics
  import opened Text
  import opened Dates
  import opened Tables
  import opened Frames

  /** The `header_names` dict of `rename_headers`. */
  const HeaderNames: map<string, string> := map[
    "Invoice/Item Number" := "invoice_and_item_number",
    "Date" := "date",
    "Store Number" := "store_number",
    "Store Name" := "store_name",
    "Address" := "address",
    "City" := "city",
    "Zip Code" := "zip_code",
    "Store Location" := "store_location",
    "County Number" := "county_number",
    "County" := "county",
    "Category" := "category",
    "Category Name" := "category_name",
    "Vendor Number" := "vendor_number",
    "Vendor Name" := "vendor_name",
    "Item Number" := "item_number",
    "Item Description" := "item_description",
    "Pack" := "pack",
    "Bottle Volume (ml)" := "bottle_volume_ml",
    "State Bottle Cost" := "state_bottle_cost",
    "State Bottle Retail" := "state_bottle_retail",
    "Bottles Sold" := "bottles_sold",
    "Sale (Dollars)" := "sale_dollars",
    "Volume Sold (Liters)" := "volume_sold_liters",
    "Volume Sold (Gallons)" := "volume_sold_gallons"]

  /** The keys of `HeaderNames`, in the order they are written. */
  const Sources: seq<string> := [
    "Invoice/Item Number", "Date", "Store Number", "Store Name", "Address",
    "City", "Zip Code", "Store Location", "County Number", "County",
    "Category", "Category Name", "Vendor Number", "Vendor Name", "Item Number",
    "Item Description", "Pack", "Bottle Volume (ml)", "State Bottle Cost",
    "State Bottle Retail", "Bottles Sold", "Sale (Dollars)",
    "Volume Sold (Liters)", "Volume Sold (Gallons)"]

  /** The column list of the reorder in `main`. */
  const Order: seq<string> := [
    "invoice_and_item_number", "date", "store_number", "store_name", "address",
    "city", "zip_code", "store_location", "county_number", "county",
    "category", "category_name", "vendor_number", "vendor_name", "item_number",
    "item_description", "pack", "bottle_volume_ml", "state_bottle_cost",
    "state_bottle_retail", "bottles_sold", "sale_dollars",
    "volume_sold_liters", "volume_sold_gallons"]

  /** The `dt_cols` list of `convert_dt_values`. */
  const DtCols: seq<string> := ["date"]

  lemma OrderDistinct()
    ensures |Order| == 24 && Distinct(Order)
  {
    DistinctByEnds(Order);
  }

  lemma SourcesDistinct()
    ensures |Sources| == 24 && Distinct(Sources)
  {
    DistinctByEnds(Sources);
  }

  lemma SourcesRenamed()
    ensures forall i | 0 <= i < |Sources| :: Sources[i] in HeaderNames && HeaderNames[Sources[i]] == Order[i]
  {
    FirstSourcesRenamed();
    MiddleSourcesRenamed();
    LastSourcesRenamed();
  }

  lemma FirstSourcesRenamed()
    ensures forall i | 0 <= i < 8 :: Sources[i] in HeaderNames && HeaderNames[Sources[i]] == Order[i]
  {
  }

  lemma MiddleSourcesRenamed()
    ensures forall i | 8 <= i < 16 :: Sources[i] in HeaderNames && HeaderNames[Sources[i]] == Order[i]
  {
  }

  lemma LastSourcesRenamed()
    ensures forall i | 16 <= i < 24 :: Sources[i] in HeaderNames && HeaderNames[Sources[i]] == Order[i]
  {
  }

  lemma KeysListed()
    ensures forall s | s in HeaderNames :: s in Sources
  {
  }

  /** The reorder lists the 24 rename targets, each once, in the order of the
      dict: the dict maps its 24 distinct keys to 24 distinct targets. */
  lemma OrderIsTargets()
    ensures |Order| == 24 && Distinct(Order) && Distinct(Sources)
    ensures Lists(HeaderNames, Sources, Order)
    ensures Injective(HeaderNames)
  {
    OrderDistinct();
    SourcesDistinct();
    SourcesRenamed();
    KeysListed();
    ListedInjective(HeaderNames, Sources, Order);
  }

  /** `convert_dt_format`: `None` and `""` are returned as they are; a
      ten-character text is read as `%m/%d/%Y` and written `%Y-%m-%d`, raising
      `ValueError` when it is not a date; any other text falls off the end of
      the function and becomes `None`. */
  function ConvertDtFormat(c: Cell): (r: Result<Cell>)
    ensures c.None? || c == Some("") ==> r == Ok(c)
    ensures c.Some? && |c.value| != 0 && |c.value| != 10 ==> r == Ok(None)
    ensures c.Some? && |c.value| == 10 ==> (r.Err? <==> ParseDate(c.value).None?)
    ensures r.Err? ==> r.error == ValueError(c.value)
    ensures r.Ok? && r.value.Some? && c.Some? && |c.value| == 10 ==> |r.value.value| == 10
  {
    match c
    case None => Ok(c)
    case Some(s) =>
      if |s| == 0 then Ok(c)
      else if |s| == 10 then
        match ParseDate(s)
        case None => Err(ValueError(s))
        case Some(d) => Ok(Some(IsoDate(d)))
      else Ok(None)
  }

  /** A zero-padded `MM/DD/YYYY` date keeps its fields, rearranged as
      `YYYY-MM-DD`. */
  lemma ConvertUsDigits(s: string)
    requires |s| == 10 && s[2] == '/' && s[5] == '/'
    requires AllDigits(s[..2]) && AllDigits(s[3..5]) && AllDigits(s[6..])
    requires ParseDate(s).Some?
    ensures ConvertDtFormat(Some(s)) == Ok(Some(s[6..] + "-" + s[..2] + "-" + s[3..5]))
  {
    IsoOfUsDigits(s);
  }

  /** The US text of any date converts to the ISO text of the same date. */
  lemma ConvertRoundTrip(d: Date)
    requires ValidDate(d)
    ensures ConvertDtFormat(Some(UsDate(d))) == Ok(Some(IsoDate(d)))
  {
    ParseUsDate(d);
  }

  /** Ten characters that are no calendar date raise: month 13, or 30 February. */
  lemma NotADateFails(rest: string, y: string)
    requires |rest| == 7 && |y| == 4 && AllDigits(y)
    ensures ConvertDtFormat(Some("13/" + rest)).Err?
    ensures ConvertDtFormat(Some("02/30/" + y)).Err?
  {
    NoMonthThirteen(rest);
    NoFebruaryThirtieth(y);
  }

  /** `convert_dt_values`: the date column is the only one rewritten. */
  lemma ConvertDtValuesOnlyDate(t: Table)
    requires Distinct(t.headers) && ApplyEach(t, DtCols, ConvertDtFormat).outcome.Pass?
    ensures "date" in t.headers
    ensures ApplyEach(t, DtCols, ConvertDtFormat).table.headers == t.headers
    ensures |ApplyEach(t, DtCols, ConvertDtFormat).table.rows| == |t.rows|
    ensures forall i | 0 <= i < |t.rows| ::
      ConvertDtFormat(t.rows[i][IndexOf(t.headers, "date")]) ==
      Ok(ApplyEach(t, DtCols, ConvertDtFormat).table.rows[i][IndexOf(t.headers, "date")])
    ensures forall i, j | 0 <= i < |t.rows| && 0 <= j < |t.headers| && t.headers[j] != "date" ::
      ApplyEach(t, DtCols, ConvertDtFormat).table.rows[i][j] == t.rows[i][j]
  {
    ApplyEachSingle(t, DtCols, "date", ConvertDtFormat);
  }

  /** The steps of `main`: rename, convert the dates, reorder. */
  function Transform(t: Table): (r: Result<Table>)
    ensures r.Ok? ==> |r.value.rows| == |t.rows|
    ensures r.Ok? ==> forall h | h in Order :: h in Rename(t, HeaderNames).headers
  {
    var run := ApplyEach(Rename(t, HeaderNames), DtCols, ConvertDtFormat);
    if run.outcome.Fail? then Err(run.outcome.error) else Project(run.table, Order)
  }

  /** A frame lacking one of the 24 source columns makes the transform
      raise. */
  lemma MissingSourceFails(t: Table, k: nat)
    requires RenamesApart(t, HeaderNames) && k < |Sources| && Sources[k] !in t.headers
    ensures Transform(t).Err?
  {
    OrderIsTargets();
    RenamedAbsent(t, HeaderNames, Sources[k]);
    var run := ApplyEach(Rename(t, HeaderNames), DtCols, ConvertDtFormat);
    if run.outcome.Pass? {
      ApplyEachChangesOnly(Rename(t, HeaderNames), DtCols, ConvertDtFormat);
      assert Order[k] !in run.table.headers;
    }
  }

  /** On a frame whose labels stay distinct under the rename, a transform that
      succeeds has exactly the 24 listed columns, in order; output column `k`
      holds the input column `Sources[k]`, the date column converted. */
  lemma TransformColumns(t: Table)
    requires Distinct(t.headers) && RenamesApart(t, HeaderNames) && Transform(t).Ok?
    ensures Transform(t).value.headers == Order
    ensures |Transform(t).value.rows| == |t.rows|
    ensures forall k | 0 <= k < |Sources| :: Sources[k] in t.headers
    ensures forall i, k | 0 <= i < |t.rows| && 0 <= k < |Order| ::
      var cell := t.rows[i][IndexOf(t.headers, Sources[k])];
      if Order[k] in DtCols then ConvertDtFormat(cell) == Ok(Transform(t).value.rows[i][k])
      else Transform(t).value.rows[i][k] == cell
  {
    OrderIsTargets();
    assert Distinct(DtCols);
    RenamedConvertedProjection(t, HeaderNames, Sources, Order, DtCols, ConvertDtFormat);
  }

  /** `main` on a read frame: rename in place, convert the dates in place,
      then rebind to the reordered frame. */
  method Process(input: Table) returns (out: Result<Table>)
    ensures out == Transform(input)
  {
    var df := new Frame(input);
    df.Rename(HeaderNames);
    var o := df.ApplyEach(DtCols, ConvertDtFormat);
    if o.Fail? {
      return Err(o.error);
    }
    out := Project(df.Value(), Order);
  }
}
