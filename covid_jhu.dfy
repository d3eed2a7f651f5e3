/** The JHU CSSE COVID-19 transform: build a `POINT(lon lat)` geometry from
    the `Long` and `Lat` columns, rename the columns through the
    `RENAME_MAPPINGS` dict, and keep the `CSV_HEADERS` columns in order. */
module CovidJhu {
  import opened Basics
  import opened Text
  import opened Tables
  import opened Frames

  /** The column the geometry is written to. */
  const Geom := "location_geom"

  /** The geometry text of a point with no coordinates, which is blanked. */
  const EmptyPoint := "POINT( )"

  /** `series.astype(str).replace("nan", "")` on one cell: a missing value
      prints as `nan`, and a value that prints as `nan` becomes empty. */
  function Render(c: Cell): (r: string)
    ensures r == "" <==> c == None || c == Some("") || c == Some("nan")
    ensures c.Some? && c.value != "nan" ==> r == c.value
  {
    match c
    case None => ""
    case Some(s) => if s == "nan" then "" else s
  }

  /** `"POINT(" + lon + " " + lat + ")"` on the rendered coordinates. */
  function Point(lon: Cell, lat: Cell): (r: string)
    ensures |r| == 8 + |Render(lon)| + |Render(lat)|
  {
    "POINT(" + Render(lon) + " " + Render(lat) + ")"
  }

  /** `location_geom.replace("POINT( )", "")` on one value. */
  function Blank(s: string): (r: string)
    ensures r == "" <==> s == EmptyPoint || s == ""
    ensures r != "" ==> r == s
  {
    if s == EmptyPoint then "" else s
  }

  /** The finished geometry cell of a row. */
  function Location(lon: Cell, lat: Cell): (r: Cell)
    ensures r.Some? && (r.value == "" || r.value == Point(lon, lat))
    ensures r.value == "" ==> Render(lon) == "" && Render(lat) == ""
  {
    Some(Blank(Point(lon, lat)))
  }

  /** The geometry is blank exactly when both coordinates render empty. */
  lemma LocationBlankIff(lon: Cell, lat: Cell)
    ensures Location(lon, lat) == Some("") <==> Render(lon) == "" && Render(lat) == ""
  {
    var p := Point(lon, lat);
    if p == EmptyPoint {
      assert |p| == 8;
    }
  }

  /** Every geometry is blank or reads `POINT(`, something, `)`. */
  lemma LocationShape(lon: Cell, lat: Cell)
    ensures Location(lon, lat).Some?
    ensures var s := Location(lon, lat).value;
      s == "" || (|s| >= 8 && s[..6] == "POINT(" && s[|s| - 1] == ')')
  {
    var p := Point(lon, lat);
    assert p[..6] == "POINT(" && p[|p| - 1] == ')';
  }

  /** Reads a geometry text back: `POINT(`, the longitude up to the first
      space, the latitude, and `)`. */
  function ParsePoint(s: string): (r: Option<(string, string)>)
    ensures r.Some? ==> ' ' !in r.value.0 && s == "POINT(" + r.value.0 + " " + r.value.1 + ")"
  {
    if |s| >= 8 && s[..6] == "POINT(" && s[|s| - 1] == ')' then
      var body := s[6..|s| - 1];
      var p := FirstIndexOf(body, ' ');
      if p < |body| then
        PointParts(s, body, p);
        Some((body[..p], body[p + 1..]))
      else None
    else None
  }

  /** A geometry text cut at a space of its body. */
  lemma PointParts(s: string, body: string, p: nat)
    requires |s| >= 8 && s[..6] == "POINT(" && s[|s| - 1] == ')' && body == s[6..|s| - 1]
    requires p < |body| && body[p] == ' '
    ensures s == "POINT(" + body[..p] + " " + body[p + 1..] + ")"
  {
    assert body == body[..p] + " " + body[p + 1..];
    assert s == s[..6] + body + [s[|s| - 1]];
  }

  /** A geometry that is not blanked gives back both rendered coordinates,
      when the longitude has no space in it (a printed number has none). */
  lemma LocationRoundTrip(lon: Cell, lat: Cell)
    requires ' ' !in Render(lon) && (Render(lon) != "" || Render(lat) != "")
    ensures Location(lon, lat).value != ""
    ensures ParsePoint(Location(lon, lat).value) == Some((Render(lon), Render(lat)))
  {
    LocationBlankIff(lon, lat);
    var a, b := Render(lon), Render(lat);
    var s := Point(lon, lat);
    assert s[..6] == "POINT(";
    var body := s[6..|s| - 1];
    assert body == a + " " + b;
    assert body[|a|] == ' ';
    FirstIndexOfIs(body, ' ', |a|);
    assert body[..|a|] == a;
    assert body[|a| + 1..] == b;
  }

  /** One coordinate alone still yields a geometry, with the other left empty. */
  lemma OneCoordinateKept(lon: Cell)
    requires Render(lon) != ""
    ensures Location(lon, None) == Some("POINT(" + Render(lon) + " )")
    ensures Location(None, lon) == Some("POINT( " + Render(lon) + ")")
  {
    LocationBlankIff(lon, None);
    LocationBlankIff(None, lon);
    var a := Render(lon);
    assert Point(lon, None) == "POINT(" + a + " )" by {
      assert "POINT(" + a + " " + "" + ")" == "POINT(" + a + " )";
    }
    assert Point(None, lon) == "POINT( " + a + ")" by {
      assert "POINT(" + "" + " " + a + ")" == "POINT( " + a + ")";
    }
  }

  /** The geometry column of `create_geometry_columns`, before blanking. */
  function Points(t: Table, lon: nat, lat: nat): (col: seq<Cell>)
    requires lon < |t.headers| && lat < |t.headers|
    ensures |col| == |t.rows|
  {
    seq(|t.rows|, i requires 0 <= i < |t.rows| => Some(Point(t.rows[i][lon], t.rows[i][lat])))
  }

  /** The blanking replace applied to every cell of a column. */
  function BlankAll(col: seq<Cell>): (r: seq<Cell>)
    ensures |r| == |col|
  {
    seq(|col|, i requires 0 <= i < |col| => if col[i] == Some(EmptyPoint) then Some("") else col[i])
  }

  /** `create_geometry_columns`: `KeyError` when `Long` or `Lat` is missing;
      otherwise the geometry column is assigned and then blanked. */
  function Geometry(t: Table): (r: Result<Table>)
    ensures "Long" !in t.headers ==> r == Err(KeyError(["Long"]))
    ensures "Long" in t.headers && "Lat" !in t.headers ==> r == Err(KeyError(["Lat"]))
  {
    if "Long" !in t.headers then Err(KeyError(["Long"]))
    else if "Lat" !in t.headers then Err(KeyError(["Lat"]))
    else
      var t1 := Assign(t, Geom, Points(t, IndexOf(t.headers, "Long"), IndexOf(t.headers, "Lat")));
      Ok(Assign(t1, Geom, BlankAll(Column(t1, IndexOf(t1.headers, Geom)))))
  }

  /** The geometry step adds one column (or overwrites `location_geom`), and
      row `i` of it is the location of that row's coordinates; no other cell
      changes. */
  lemma GeometryColumn(t: Table)
    requires "Long" in t.headers && "Lat" in t.headers
    ensures Geometry(t).Ok?
    ensures Geometry(t).value.headers == if Geom in t.headers then t.headers else t.headers + [Geom]
    ensures |Geometry(t).value.rows| == |t.rows|
    ensures forall i | 0 <= i < |t.rows| ::
      Geometry(t).value.rows[i][IndexOf(Geometry(t).value.headers, Geom)] ==
      Location(t.rows[i][IndexOf(t.headers, "Long")], t.rows[i][IndexOf(t.headers, "Lat")])
    ensures forall i, j | 0 <= i < |t.rows| && 0 <= j < |t.headers| && t.headers[j] != Geom ::
      Geometry(t).value.rows[i][j] == t.rows[i][j]
  {
    var lon, lat := IndexOf(t.headers, "Long"), IndexOf(t.headers, "Lat");
    var blanked := BlankAll(Points(t, lon, lat));
    GeometryAssigns(t);
    AssignOthers(t, Geom, blanked);
    forall i | 0 <= i < |t.rows|
      ensures blanked[i] == Location(t.rows[i][lon], t.rows[i][lat])
    {
    }
  }

  /** The assignment and the blanking replace together are one assignment of
      the blanked points. */
  lemma GeometryAssigns(t: Table)
    requires "Long" in t.headers && "Lat" in t.headers
    ensures Geometry(t) == Ok(Assign(t, Geom, BlankAll(Points(t, IndexOf(t.headers, "Long"), IndexOf(t.headers, "Lat")))))
  {
    var points := Points(t, IndexOf(t.headers, "Long"), IndexOf(t.headers, "Lat"));
    var t1 := Assign(t, Geom, points);
    var blanked := BlankAll(Column(t1, IndexOf(t1.headers, Geom)));
    assert blanked == BlankAll(points);
    AssignTwice(t, Geom, points, blanked);
  }

  /** The steps of `main`: geometry, rename through `m`, keep the columns `hs`. */
  function Transform(t: Table, m: map<string, string>, hs: seq<string>): (r: Result<Table>)
    ensures r.Ok? ==> "Long" in t.headers && "Lat" in t.headers && |r.value.rows| == |t.rows|
  {
    var g :- Geometry(t);
    Project(Rename(g, m), hs)
  }

  /** With labels that stay distinct through the geometry step and the
      rename, a transform that succeeds has exactly the columns `hs`; output
      column `k` is the column renamed to `hs[k]`. */
  lemma TransformColumns(t: Table, m: map<string, string>, hs: seq<string>)
    requires Geometry(t).Ok? && Distinct(Geometry(t).value.headers) && RenamesApart(Geometry(t).value, m)
    requires Transform(t, m, hs).Ok?
    ensures Transform(t, m, hs).value.headers == hs
    ensures |Transform(t, m, hs).value.rows| == |t.rows|
    ensures forall i, k | 0 <= i < |t.rows| && 0 <= k < |hs| ::
      hs[k] in Rename(Geometry(t).value, m).headers &&
      Transform(t, m, hs).value.rows[i][k] ==
      Geometry(t).value.rows[i][IndexOf(Rename(Geometry(t).value, m).headers, hs[k])]
  {
    var g := Geometry(t).value;
    RenameKeepsDistinct(g, m);
    ProjectDistinct(Rename(g, m), hs);
    GeometryColumn(t);
  }

  /** `main` on a read frame: the geometry is built in place, the frame is
      renamed in place, then rebound to the selected columns. */
  method Process(input: Table, m: map<string, string>, hs: seq<string>) returns (out: Result<Table>)
    ensures out == Transform(input, m, hs)
  {
    if "Long" !in input.headers {
      return Err(KeyError(["Long"]));
    }
    if "Lat" !in input.headers {
      return Err(KeyError(["Lat"]));
    }
    var df := new Frame(input);
    df.Assign(Geom, Points(df.Value(), IndexOf(df.headers, "Long"), IndexOf(df.headers, "Lat")));
    df.Assign(Geom, BlankAll(Column(df.Value(), IndexOf(df.headers, Geom))));
    df.Rename(m);
    out := Project(df.Value(), hs);
  }
}
