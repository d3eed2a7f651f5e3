/** The Landsat index transform: rename the 18 upper-case columns of the
    scene index to lower case and keep a fixed list of columns, in the order
    the table is loaded in. */
module LandsatIndex {
  import opened Basics
  import opened Tables
  import opened Frames

  /** The `header_names` dict of `rename_headers`. */
  const HeaderNames: map<string, string> := map[
    "SCENE_ID" := "scene_id",
    "SPACECRAFT_ID" := "spacecraft_id",
    "SENSOR_ID" := "sensor_id",
    "DATE_ACQUIRED" := "date_acquired",
    "COLLECTION_NUMBER" := "collection_number",
    "COLLECTION_CATEGORY" := "collection_category",
    "DATA_TYPE" := "data_type",
    "WRS_PATH" := "wrs_path",
    "WRS_ROW" := "wrs_row",
    "CLOUD_COVER" := "cloud_cover",
    "NORTH_LAT" := "north_lat",
    "SOUTH_LAT" := "south_lat",
    "WEST_LON" := "west_lon",
    "EAST_LON" := "east_lon",
    "TOTAL_SIZE" := "total_size",
    "BASE_URL" := "base_url",
    "PRODUCT_ID" := "product_id",
    "SENSING_TIME" := "sensing_time"]

  /** The column list of the reorder in `main`, as written: 17 columns. */
  const Order: seq<string> := [
    "scene_id", "product_id", "spacecraft_id", "sensor_id", "date_acquired",
    "sensing_time", "collection_number", "collection_category", "data_type",
    "wrs_path", "wrs_row", "north_lat", "south_lat", "west_lon", "east_lon",
    "total_size", "base_url"]

  /** The 18 fields of the load schema of the table, in order. */
  const SchemaOrder: seq<string> := [
    "scene_id", "product_id", "spacecraft_id", "sensor_id", "date_acquired",
    "sensing_time", "collection_number", "collection_category", "data_type",
    "wrs_path", "wrs_row", "cloud_cover", "north_lat", "south_lat", "west_lon",
    "east_lon", "total_size", "base_url"]

  /** The keys of `HeaderNames` that give the schema fields, in schema order. */
  const Sources: seq<string> := [
    "SCENE_ID", "PRODUCT_ID", "SPACECRAFT_ID", "SENSOR_ID", "DATE_ACQUIRED",
    "SENSING_TIME", "COLLECTION_NUMBER", "COLLECTION_CATEGORY", "DATA_TYPE",
    "WRS_PATH", "WRS_ROW", "CLOUD_COVER", "NORTH_LAT", "SOUTH_LAT", "WEST_LON",
    "EAST_LON", "TOTAL_SIZE", "BASE_URL"]

  lemma SchemaDistinct()
    ensures |SchemaOrder| == 18 && Distinct(SchemaOrder)
  {
    DistinctByEnds(SchemaOrder);
  }

  lemma SourcesDistinct()
    ensures |Sources| == 18 && Distinct(Sources)
  {
    DistinctByEnds(Sources);
  }

  lemma SourcesRenamed()
    ensures forall i | 0 <= i < |Sources| :: Sources[i] in HeaderNames && HeaderNames[Sources[i]] == SchemaOrder[i]
  {
    FirstSourcesRenamed();
    LastSourcesRenamed();
  }

  lemma FirstSourcesRenamed()
    ensures forall i | 0 <= i < 9 :: Sources[i] in HeaderNames && HeaderNames[Sources[i]] == SchemaOrder[i]
  {
  }

  lemma LastSourcesRenamed()
    ensures forall i | 9 <= i < 18 :: Sources[i] in HeaderNames && HeaderNames[Sources[i]] == SchemaOrder[i]
  {
  }

  lemma KeysListed()
    ensures forall s | s in HeaderNames :: s in Sources
  {
  }

  /** The dict renames its 18 distinct keys to exactly the 18 schema fields. */
  lemma SchemaIsTargets()
    ensures |SchemaOrder| == 18 && Distinct(SchemaOrder) && Distinct(Sources)
    ensures Lists(HeaderNames, Sources, SchemaOrder)
    ensures Injective(HeaderNames)
  {
    SchemaDistinct();
    SourcesDistinct();
    SourcesRenamed();
    KeysListed();
    ListedInjective(HeaderNames, Sources, SchemaOrder);
  }

  /** The reorder as written is the schema without `cloud_cover`: the two
      lists agree up to `wrs_row`, and from there on the reorder runs one
      place ahead. */
  lemma OrderOmitsCloudCover()
    ensures |Order| == 17 && |SchemaOrder| == 18
    ensures "cloud_cover" in HeaderNames.Values && "cloud_cover" !in Order
    ensures Order == SchemaOrder[..11] + SchemaOrder[12..]
    ensures forall k | 11 <= k < |Order| :: Order[k] != SchemaOrder[k]
    ensures forall k | 0 <= k < |Order| :: Order[k] in HeaderNames.Values
  {
    CloudCoverRenamed();
    SourcesRenamed();
    assert Order == SchemaOrder[..11] + SchemaOrder[12..];
    SchemaDistinct();
    forall k | 0 <= k < |Order|
      ensures Order[k] != "cloud_cover"
      ensures 11 <= k ==> Order[k] != SchemaOrder[k]
    {
      if k < 11 {
        assert Order[k] == SchemaOrder[k] == HeaderNames[Sources[k]];
      } else {
        assert Order[k] == SchemaOrder[k + 1] == HeaderNames[Sources[k + 1]];
      }
    }
  }

  /** Position 11 is `north_lat` in the reorder and `cloud_cover` in the schema. */
  lemma TwelfthColumn()
    ensures Order[11] == "north_lat" && SchemaOrder[11] == "cloud_cover"
  {
  }

  /** The steps of `main` as written: rename, then keep the 17 columns. */
  function Transform(t: Table): (r: Result<Table>)
    ensures r.Ok? <==> forall h | h in Order :: h in Rename(t, HeaderNames).headers
    ensures r.Ok? ==> |r.value.rows| == |t.rows|
  {
    Project(Rename(t, HeaderNames), Order)
  }

  /** The transform as written drops the cloud cover of every scene: it reads
      the `CLOUD_COVER` column and renames it, and the output, 17 columns
      wide, has no `cloud_cover`; column 11 of the output, the position of
      `cloud_cover` in the load schema's field list, carries `north_lat`. */
  lemma TransformDropsCloudCover(t: Table)
    requires Distinct(t.headers) && RenamesApart(t, HeaderNames) && Transform(t).Ok?
    requires "CLOUD_COVER" in t.headers
    ensures "cloud_cover" in Rename(t, HeaderNames).headers
    ensures Transform(t).value.headers == Order && "cloud_cover" !in Transform(t).value.headers
    ensures Transform(t).value.headers[11] == "north_lat" && SchemaOrder[11] == "cloud_cover"
  {
    OrderOmitsCloudCover();
    TwelfthColumn();
    CloudCoverRenamed();
    RenameTargets(t, HeaderNames, "CLOUD_COVER");
    TransformCopiesCells(t);
  }

  /** `CLOUD_COVER` is a key of the dict, renamed to `cloud_cover`. */
  lemma CloudCoverRenamed()
    ensures "CLOUD_COVER" in HeaderNames && HeaderNames["CLOUD_COVER"] == "cloud_cover"
  {
    LastSourcesRenamed();
    assert Sources[11] == "CLOUD_COVER" && SchemaOrder[11] == "cloud_cover";
  }

  /** The transform as written keeps every row and copies each listed cell
      from the renamed column of that name. */
  lemma TransformCopiesCells(t: Table)
    requires Distinct(t.headers) && RenamesApart(t, HeaderNames) && Transform(t).Ok?
    ensures Transform(t).value.headers == Order
    ensures |Transform(t).value.rows| == |t.rows|
    ensures forall i, k | 0 <= i < |t.rows| && 0 <= k < |Order| ::
      Transform(t).value.rows[i][k] == t.rows[i][IndexOf(Rename(t, HeaderNames).headers, Order[k])]
  {
    RenameKeepsDistinct(t, HeaderNames);
    ProjectDistinct(Rename(t, HeaderNames), Order);
  }

  /** The transform as intended: rename, then keep the 18 schema fields. */
  function TransformIntended(t: Table): (r: Result<Table>)
    ensures r.Ok? <==> forall h | h in SchemaOrder :: h in Rename(t, HeaderNames).headers
    ensures r.Ok? ==> |r.value.rows| == |t.rows|
  {
    Project(Rename(t, HeaderNames), SchemaOrder)
  }

  /** The intended transform succeeds exactly when the frame has all 18
      source columns, and then writes the schema's fields in the schema's
      order: output column `k` is the input column `Sources[k]`, unchanged. */
  lemma IntendedMatchesSchema(t: Table)
    requires Distinct(t.headers) && RenamesApart(t, HeaderNames)
    ensures TransformIntended(t).Ok? <==> forall k | 0 <= k < |Sources| :: Sources[k] in t.headers
    ensures TransformIntended(t).Ok? ==>
      && TransformIntended(t).value.headers == SchemaOrder
      && |TransformIntended(t).value.rows| == |t.rows|
      && forall i, k | 0 <= i < |t.rows| && 0 <= k < |Sources| ::
           TransformIntended(t).value.rows[i][k] == t.rows[i][IndexOf(t.headers, Sources[k])]
  {
    SchemaIsTargets();
    RenamedProjection(t, HeaderNames, Sources, SchemaOrder);
  }

  /** `main` on a read frame: rename in place, then rebind to the selected
      columns, as written. */
  method Process(input: Table) returns (out: Result<Table>)
    ensures out == Transform(input)
  {
    var df := new Frame(input);
    df.Rename(HeaderNames);
    out := Project(df.Value(), Order);
  }
}
