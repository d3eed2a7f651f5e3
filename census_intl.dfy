/** The US Census Bureau international database transform: the source files
    of a pipeline are read and left-joined on `country_code`, the
    `country_area` column is dropped except in the `country_names_area`
    pipeline, the `sex` codes are replaced by words in the
    `midyear_population_age_sex` pipeline, and the `CSV_HEADERS` columns are
    kept in order. */
module CensusIntl {
  import opened Basics
  import opened Tables
  import opened Frames

  /** The merge key. */
  const Key := "country_code"

  /** The pipeline that keeps the area column. */
  const CountryNamesArea := "country_names_area"

  /** The pipeline whose sex codes are replaced. */
  const MidyearAgeSex := "midyear_population_age_sex"

  /** `pd.DataFrame()`: no columns and no rows. */
  const NoFrame: Table := RawTable([], [])

  /** One turn of the loop of `read_files`: the file becomes the frame while
      the frame is empty, and is left-joined onto it afterwards. */
  function Step(df: Table, file: Table): (r: Result<Table>)
    ensures !IsEmpty(df) ==> (r.Ok? <==> Key in df.headers && Key in file.headers)
    ensures !IsEmpty(df) && r.Ok? ==> |r.value.rows| >= |df.rows|
  {
    if IsEmpty(df) then Ok(file) else LeftJoin(df, file, Key)
  }

  /** The frame `read_files` builds from the files in order; the first merge
      that raises ends it. */
  function Merged(files: seq<Table>): (r: Result<Table>)
    ensures r.Ok? ==> forall n | 0 <= n < |files| :: Merged(files[..n]).Ok?
    decreases |files|
  {
    if files == [] then Ok(NoFrame)
    else
      var init := files[..|files| - 1];
      match Merged(init)
      case Err(e) => Err(e)
      case Ok(df) =>
        PrefixesOfInit(files);
        Step(df, files[|files| - 1])
  }

  /** The prefixes of a sequence shorter than it are prefixes of its
      sequence without the last element. */
  lemma PrefixesOfInit<T>(s: seq<T>)
    requires s != []
    ensures forall n | 0 <= n < |s| :: s[..n] == s[..|s| - 1][..n]
  {
  }

  /** Once a prefix of the files fails to merge, reading all of them fails
      with the same error. */
  lemma {:induction false} MergedStopsAtError(files: seq<Table>, n: nat)
    requires n <= |files| && Merged(files[..n]).Err?
    ensures Merged(files) == Merged(files[..n])
    decreases |files| - n
  {
    if n < |files| {
      var m := |files| - 1;
      assert files[..m][..n] == files[..n];
      MergedStopsAtError(files[..m], n);
    } else {
      assert files[..n] == files;
    }
  }

  /** `read_files`: the loop over the files. */
  method ReadFiles(files: seq<Table>) returns (r: Result<Table>)
    ensures r == Merged(files)
  {
    var df := NoFrame;
    var i := 0;
    while i < |files|
      invariant 0 <= i <= |files|
      invariant Merged(files[..i]) == Ok(df)
    {
      assert files[..i + 1][..i] == files[..i];
      if IsEmpty(df) {
        df := files[i];
      } else {
        var joined := LeftJoin(df, files[i], Key);
        if joined.Err? {
          MergedStopsAtError(files, i + 1);
          return Err(joined.error);
        }
        df := joined.value;
      }
      i := i + 1;
    }
    assert files[..i] == files;
    r := Ok(df);
  }

  /** Files that are all empty leave an empty frame. */
  lemma {:induction false} EmptyPrefix(files: seq<Table>, j: nat)
    requires j <= |files| && forall i | 0 <= i < j :: IsEmpty(files[i])
    ensures Merged(files[..j]).Ok? && IsEmpty(Merged(files[..j]).value)
  {
    if j > 0 {
      assert files[..j][..j - 1] == files[..j - 1];
      EmptyPrefix(files, j - 1);
    }
  }

  /** The first file that is not empty becomes the frame, whatever empty files
      came before it. */
  lemma FirstNonEmptyIsBase(files: seq<Table>, k: nat)
    requires k < |files| && !IsEmpty(files[k])
    requires forall i | 0 <= i < k :: IsEmpty(files[i])
    ensures Merged(files[..k + 1]) == Ok(files[k])
  {
    EmptyPrefix(files, k);
    assert files[..k + 1][..k] == files[..k];
  }

  /** When the frame is not empty and the file has unique keys, a turn keeps
      the frame's rows, in order, each extended on the right. */
  lemma JoinStep(df: Table, file: Table)
    requires !IsEmpty(df) && Key in df.headers && Key in file.headers && UniqueKeys(file, Key)
    ensures Step(df, file).Ok? && !IsEmpty(Step(df, file).value)
    ensures Key in Step(df, file).value.headers
    ensures |Step(df, file).value.headers| >= |df.headers|
    ensures |Step(df, file).value.rows| == |df.rows|
    ensures forall i | 0 <= i < |df.rows| :: Step(df, file).value.rows[i][..|df.headers|] == df.rows[i]
  {
    LeftJoinUniqueKeys(df, file, Key);
    LeftJoinKeepsKey(df, file, Key);
  }

  /** The merge of one more file is one more turn on the merge of the prefix. */
  lemma MergedSnoc(files: seq<Table>, n: nat)
    requires 0 < n <= |files| && Merged(files[..n - 1]).Ok?
    ensures Merged(files[..n]) == Step(Merged(files[..n - 1]).value, files[n - 1])
  {
    assert files[..n][..n - 1] == files[..n - 1];
  }

  /** Row prefixes compose: rows that start with rows that start with the
      base rows start with the base rows. */
  lemma PrefixOfPrefix(base: seq<Row>, mid: seq<Row>, out: seq<Row>, wb: nat, wm: nat)
    requires |mid| == |base| && |out| == |base| && wb <= wm
    requires forall i | 0 <= i < |mid| :: |mid[i]| == wm && |mid[i]| >= wb && mid[i][..wb] == base[i]
    requires forall i | 0 <= i < |out| :: |out[i]| >= wm && out[i][..wm] == mid[i]
    ensures forall i | 0 <= i < |out| :: |out[i]| >= wb && out[i][..wb] == base[i]
  {
    forall i | 0 <= i < |out|
      ensures out[i][..wb] == base[i]
    {
      assert out[i][..wb] == out[i][..wm][..wb];
    }
  }

  /** Joining files with unique keys onto a base keeps the base's rows. */
  lemma {:induction false} JoinedKeepsBase(files: seq<Table>, k: nat, n: nat)
    requires k < n <= |files| && Merged(files[..k + 1]) == Ok(files[k])
    requires !IsEmpty(files[k]) && Key in files[k].headers
    requires forall j | k < j < n :: Key in files[j].headers && UniqueKeys(files[j], Key)
    ensures Merged(files[..n]).Ok? && !IsEmpty(Merged(files[..n]).value)
    ensures Key in Merged(files[..n]).value.headers
    ensures |Merged(files[..n]).value.headers| >= |files[k].headers|
    ensures |Merged(files[..n]).value.rows| == |files[k].rows|
    ensures forall i | 0 <= i < |files[k].rows| ::
      Merged(files[..n]).value.rows[i][..|files[k].headers|] == files[k].rows[i]
    decreases n
  {
    if n == k + 1 {
      RowsStartWithThemselves(files[k]);
    } else {
      JoinedKeepsBase(files, k, n - 1);
      MergedSnoc(files, n);
      StepKeepsBase(files[k], Merged(files[..n - 1]).value, files[n - 1]);
    }
  }

  /** Every row of a frame is as wide as its labels. */
  lemma RowsStartWithThemselves(t: Table)
    ensures forall i | 0 <= i < |t.rows| :: t.rows[i][..|t.headers|] == t.rows[i]
  {
    forall i | 0 <= i < |t.rows|
      ensures t.rows[i][..|t.headers|] == t.rows[i]
    {
    }
  }

  /** A turn that joins a file with unique keys onto a frame whose rows start
      with the base rows gives rows that still start with them. */
  lemma StepKeepsBase(base: Table, df: Table, file: Table)
    requires !IsEmpty(df) && Key in df.headers && Key in file.headers && UniqueKeys(file, Key)
    requires |df.headers| >= |base.headers| && |df.rows| == |base.rows|
    requires forall i | 0 <= i < |base.rows| :: df.rows[i][..|base.headers|] == base.rows[i]
    ensures Step(df, file).Ok? && !IsEmpty(Step(df, file).value)
    ensures Key in Step(df, file).value.headers
    ensures |Step(df, file).value.headers| >= |base.headers|
    ensures |Step(df, file).value.rows| == |base.rows|
    ensures forall i | 0 <= i < |base.rows| :: Step(df, file).value.rows[i][..|base.headers|] == base.rows[i]
  {
    JoinStep(df, file);
    var out := Step(df, file).value;
    PrefixOfPrefix(base.rows, df.rows, out.rows, |base.headers|, |df.headers|);
  }

  /** Reading files whose first non-empty file has the key, every later file
      carrying the key once per value in it: the frame has one row per row of
      that first file, which starts with that row unchanged. */
  lemma ReadFilesKeepsBase(files: seq<Table>, k: nat)
    requires k < |files| && !IsEmpty(files[k]) && Key in files[k].headers
    requires forall i | 0 <= i < k :: IsEmpty(files[i])
    requires forall j | k < j < |files| :: Key in files[j].headers && UniqueKeys(files[j], Key)
    ensures Merged(files).Ok? && |Merged(files).value.headers| >= |files[k].headers|
    ensures |Merged(files).value.rows| == |files[k].rows|
    ensures forall i | 0 <= i < |files[k].rows| ::
      Merged(files).value.rows[i][..|files[k].headers|] == files[k].rows[i]
  {
    FirstNonEmptyIsBase(files, k);
    JoinedKeepsBase(files, k, |files|);
    assert files[..|files|] == files;
  }

  /** `{2: "Male", 3: "Female"}.get` on one cell: the codes 2 and 3 become
      words and every other value becomes missing. */
  function SexLabel(c: Cell): (r: Result<Cell>)
    ensures r.Ok?
    ensures r.value == Some("Male") <==> c == Some("2")
    ensures r.value == Some("Female") <==> c == Some("3")
    ensures r.value == None <==> c != Some("2") && c != Some("3")
  {
    if c == Some("2") then Ok(Some("Male"))
    else if c == Some("3") then Ok(Some("Female"))
    else Ok(None)
  }

  /** The area step of `main`. */
  function DropArea(df: Table, pipeline: string): (r: Result<Table>)
    ensures r.Ok? <==> pipeline == CountryNamesArea || "country_area" in df.headers
    ensures r.Ok? ==> |r.value.rows| == |df.rows|
    ensures r.Ok? && pipeline != CountryNamesArea ==> "country_area" !in r.value.headers
  {
    if pipeline == CountryNamesArea then Ok(df) else Drop(df, "country_area")
  }

  /** The sex step of `main`. */
  function ReplaceSex(df: Table, pipeline: string): (r: Result<Table>)
    ensures r.Ok? <==> pipeline != MidyearAgeSex || "sex" in df.headers
    ensures r.Ok? ==> r.value.headers == df.headers && |r.value.rows| == |df.rows|
  {
    if pipeline == MidyearAgeSex then Apply(df, "sex", SexLabel) else Ok(df)
  }

  /** The steps of `main`: read, drop the area, replace the sex codes, keep
      the columns `hs`. */
  function Transform(files: seq<Table>, pipeline: string, hs: seq<string>): (r: Result<Table>)
    ensures r.Ok? ==> Merged(files).Ok? && |r.value.rows| == |Merged(files).value.rows|
    ensures r.Ok? ==> forall h | h in hs :: h in Merged(files).value.headers
  {
    var df :- Merged(files);
    var df1 :- DropArea(df, pipeline);
    var df2 :- ReplaceSex(df1, pipeline);
    Project(df2, hs)
  }

  /** Outside the `country_names_area` pipeline the merged frame must have a
      `country_area` column, and the output never has one. */
  lemma AreaColumn(files: seq<Table>, pipeline: string, hs: seq<string>)
    requires Merged(files).Ok? && pipeline != CountryNamesArea
    ensures "country_area" !in Merged(files).value.headers ==>
      Transform(files, pipeline, hs) == Err(KeyError(["country_area"]))
    ensures Transform(files, pipeline, hs).Ok? ==>
      "country_area" in Merged(files).value.headers && "country_area" !in hs
  {
    var df := Merged(files).value;
    if Transform(files, pipeline, hs).Ok? {
      var df1 := Drop(df, "country_area").value;
      var df2 := ReplaceSex(df1, pipeline).value;
      assert df2.headers == df1.headers;
      assert forall w | w in hs :: w in df2.headers;
    }
  }

  /** The cells the area step keeps are the cells of the merged frame. */
  lemma DropAreaCells(df: Table, pipeline: string)
    requires Distinct(df.headers) && DropArea(df, pipeline).Ok?
    ensures Distinct(DropArea(df, pipeline).value.headers)
    ensures forall i, h | 0 <= i < |df.rows| && h in DropArea(df, pipeline).value.headers ::
      h in df.headers && |DropArea(df, pipeline).value.rows| == |df.rows| &&
      DropArea(df, pipeline).value.rows[i][IndexOf(DropArea(df, pipeline).value.headers, h)] ==
      df.rows[i][IndexOf(df.headers, h)]
  {
    if pipeline != CountryNamesArea {
      DropDistinct(df, "country_area");
    }
  }

  /** The sex step rewrites the `sex` column of its pipeline and no other. */
  lemma ReplaceSexCells(df: Table, pipeline: string)
    requires Distinct(df.headers) && ReplaceSex(df, pipeline).Ok?
    ensures ReplaceSex(df, pipeline).value.headers == df.headers
    ensures |ReplaceSex(df, pipeline).value.rows| == |df.rows|
    ensures forall i, h | 0 <= i < |df.rows| && h in df.headers ::
      var cell := ReplaceSex(df, pipeline).value.rows[i][IndexOf(df.headers, h)];
      if pipeline == MidyearAgeSex && h == "sex" then SexLabel(df.rows[i][IndexOf(df.headers, h)]) == Ok(cell)
      else cell == df.rows[i][IndexOf(df.headers, h)]
  {
    if pipeline == MidyearAgeSex {
      forall h | h in df.headers && h != "sex"
        ensures IndexOf(df.headers, h) != IndexOf(df.headers, "sex")
      {
      }
    }
  }

  /** On a merged frame without repeated labels, a transform that succeeds
      has exactly the columns `hs`, one row per merged row; output column `k`
      is the merged column `hs[k]`, with the sex codes replaced in the
      `midyear_population_age_sex` pipeline. */
  lemma TransformColumns(files: seq<Table>, pipeline: string, hs: seq<string>)
    requires Merged(files).Ok? && Distinct(Merged(files).value.headers)
    requires Transform(files, pipeline, hs).Ok?
    ensures Transform(files, pipeline, hs).value.headers == hs
    ensures |Transform(files, pipeline, hs).value.rows| == |Merged(files).value.rows|
    ensures forall k | 0 <= k < |hs| :: hs[k] in Merged(files).value.headers
    ensures forall i, k | 0 <= i < |Merged(files).value.rows| && 0 <= k < |hs| ::
      var df := Merged(files).value;
      var cell := Transform(files, pipeline, hs).value.rows[i][k];
      if pipeline == MidyearAgeSex && hs[k] == "sex" then SexLabel(df.rows[i][IndexOf(df.headers, hs[k])]) == Ok(cell)
      else cell == df.rows[i][IndexOf(df.headers, hs[k])]
  {
    var df := Merged(files).value;
    var df1 := DropArea(df, pipeline).value;
    DropAreaCells(df, pipeline);
    var df2 := ReplaceSex(df1, pipeline).value;
    ReplaceSexCells(df1, pipeline);
    ProjectDistinct(df2, hs);
  }

  /** `main` on the read source files. */
  method Process(files: seq<Table>, pipeline: string, hs: seq<string>) returns (out: Result<Table>)
    ensures out == Transform(files, pipeline, hs)
  {
    var read := ReadFiles(files);
    if read.Err? {
      return Err(read.error);
    }
    var df := read.value;
    if pipeline != CountryNamesArea {
      var dropped := Drop(df, "country_area");
      if dropped.Err? {
        return Err(dropped.error);
      }
      df := dropped.value;
    }
    if pipeline == MidyearAgeSex {
      var frame := new Frame(df);
      var o := frame.Apply("sex", SexLabel);
      if o.Fail? {
        return Err(o.error);
      }
      df := frame.Value();
    }
    out := Project(df, hs);
  }
}
