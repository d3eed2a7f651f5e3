/** The GHCN-D countries transform: every line of the source file is one
    `code name` field, split into a country code (the first token) and a
    country name (the rest), written out as the two columns `code`, `name`. */
module Ghcn {
  import opened Basics
  import opened Text
  import opened Dates
  import opened Tables
  import opened Frames

  /** `get_column_country_code`: the stripped value up to its first space. */
  function CountryCode(v: string): (code: string)
    ensures |code| <= |Strip(v)| && code == Strip(v)[..|code|]
    ensures ' ' !in code
    ensures |code| == |Strip(v)| || Strip(v)[|code|] == ' '
  {
    var s := Strip(v);
    s[..FirstIndexOf(s, ' ')]
  }

  /** The code is the one prefix of the stripped value that has no space and
      ends at a space or at the end: the first space-delimited token. */
  lemma CountryCodeIsFirstToken(v: string, c: string)
    requires |c| <= |Strip(v)| && c == Strip(v)[..|c|] && ' ' !in c
    requires |c| == |Strip(v)| || Strip(v)[|c|] == ' '
    ensures c == CountryCode(v)
  {
    var s := Strip(v);
    if |c| < |s| {
      assert forall k | 0 <= k < |c| :: s[k] == c[k];
      FirstIndexOfIs(s, ' ', |c|);
    } else {
      assert forall k | 0 <= k < |s| :: s[k] == c[k];
    }
  }

  /** `get_column_country_name` as written: the last `len(stripped) - len(code)`
      characters of the stripped value, taken by reversing, slicing and
      reversing back, then stripped again. */
  function CountryName(v: string): (r: string)
    ensures r == [] || (!IsSpace(r[0]) && !IsSpace(r[|r| - 1]))
    ensures |CountryCode(v)| + |r| <= |Strip(v)|
  {
    var s := Strip(v);
    var lenOut := |s| - |CountryCode(v)|;
    Strip(Reverse(Reverse(s)[..lenOut]))
  }

  /** The reverse–slice–reverse is the stripped value without its code prefix,
      stripped again. */
  lemma CountryNameIsRest(v: string)
    ensures CountryName(v) == Strip(Strip(v)[|CountryCode(v)|..])
  {
    var s := Strip(v);
    var c := |CountryCode(v)|;
    var n := |s| - c;
    ReverseSliceReverse(s, n);
    assert |s| - n == c;
    var rest := Reverse(Reverse(s)[..n]);
    assert CountryName(v) == Strip(rest);
    assert rest == s[c..];
  }

  /** A value without an inner space is all code and no name. */
  lemma NoSpaceNoName(v: string)
    requires ' ' !in Strip(v)
    ensures CountryCode(v) == Strip(v) && CountryName(v) == ""
  {
    CountryNameIsRest(v);
  }

  /** The whitespace between the code and the name. */
  function Gap(v: string): (w: string)
    ensures AllSpaces(w)
  {
    var rest := Strip(v)[|CountryCode(v)|..];
    rest[..LeadingSpaces(rest)]
  }

  /** The stripped value is the code, then whitespace only, then the name;
      the name neither begins nor ends with whitespace. */
  lemma CodeSpacesName(v: string)
    ensures Strip(v) == CountryCode(v) + Gap(v) + CountryName(v)
    ensures CountryName(v) == [] || (!IsSpace(CountryName(v)[0]) && !IsSpace(CountryName(v)[|CountryName(v)| - 1]))
    ensures |CountryCode(v)| + |CountryName(v)| <= |Strip(v)|
  {
    var s := Strip(v);
    var code := CountryCode(v);
    var rest := s[|code|..];
    CountryNameIsRest(v);
    assert rest == [] || !IsSpace(rest[|rest| - 1]) by {
      if rest != [] {
        assert rest[|rest| - 1] == s[|s| - 1];
      }
    }
    StripWithoutTrailing(rest);
    Reassemble(s, |code|, LeadingSpaces(rest));
  }

  lemma Reassemble(s: string, c: nat, n: nat)
    requires c + n <= |s|
    ensures s == s[..c] + s[c..][..n] + s[c..][n..]
  {
    assert s[c..] == s[c..][..n] + s[c..][n..];
  }

  /** `get_column_country_code` applied to a cell: `None` has no `strip`. */
  function CodeCell(c: Cell): (r: Result<Cell>)
    ensures r.Ok? <==> c.Some?
    ensures c.None? ==> r == Err(AttributeError)
  {
    match c
    case None => Err(AttributeError)
    case Some(v) => Ok(Some(CountryCode(v)))
  }

  /** `get_column_country_name` applied to a cell: the unbound `str.strip`
      refuses `None`. */
  function NameCell(c: Cell): (r: Result<Cell>)
    ensures r.Ok? <==> c.Some?
    ensures c.None? ==> r == Err(TypeError)
  {
    match c
    case None => Err(TypeError)
    case Some(v) => Ok(Some(CountryName(v)))
  }

  /** `convert_dt_format(date_str, time_str)`: the `%m/%d/%Y` date written as
      `YYYY-MM-DD`, a space, and the time text unchanged; `ValueError` when the
      date does not parse. */
  function ConvertDtFormat(date: string, time: string): (r: Result<string>)
    ensures r.Ok? <==> ParseDate(date).Some?
    ensures r.Ok? ==> |r.value| == 11 + |time| && r.value[10] == ' ' && r.value[11..] == time
    ensures r.Err? ==> r.error == ValueError(date)
  {
    match ParseDate(date)
    case None => Err(ValueError(date))
    case Some(d) => Ok(IsoDate(d) + " " + time)
  }

  /** On a zero-padded `MM/DD/YYYY` text the date fields are moved, not
      changed: `YYYY-MM-DD`, then a space, then the time. */
  lemma ConvertUsDigits(date: string, time: string)
    requires |date| == 10 && date[2] == '/' && date[5] == '/'
    requires AllDigits(date[..2]) && AllDigits(date[3..5]) && AllDigits(date[6..])
    requires ParseDate(date).Some?
    ensures ConvertDtFormat(date, time) == Ok(date[6..] + "-" + date[..2] + "-" + date[3..5] + " " + time)
  {
    IsoOfUsDigits(date);
  }

  /** Converting the US text of a date gives its ISO text. */
  lemma ConvertRoundTrip(d: Date, time: string)
    requires ValidDate(d)
    ensures ConvertDtFormat(UsDate(d), time) == Ok(IsoDate(d) + " " + time)
  {
    ParseUsDate(d);
  }

  /** The column the source file's one field is read into. */
  const Field := "code name"

  /** The steps of `main`: derive `code`, derive `name`, keep those two.
      The frame is a vaex frame, whose `apply` runs only when the file is
      written; here it runs at once, so a missing cell fails the transform. */
  function Transform(t: Table): (r: Result<Table>)
    ensures r.Ok? ==> Field in t.headers && |r.value.rows| == |t.rows|
  {
    DerivedPair(t, Field, "code", CodeCell, "name", NameCell)
  }

  /** The transform fails exactly when the `code name` field is missing
      from some row. */
  lemma TransformFails(t: Table)
    requires Field in t.headers && Distinct(t.headers)
    ensures Transform(t).Ok? <==> forall i | 0 <= i < |t.rows| :: t.rows[i][IndexOf(t.headers, Field)].Some?
  {
    DerivedPairOk(t, Field, "code", CodeCell, "name", NameCell);
  }

  /** The output has exactly the columns `code`, `name` and one row per input
      row, holding the code and the name of that row's field. */
  lemma TransformColumns(t: Table)
    requires Distinct(t.headers) && Transform(t).Ok?
    ensures Transform(t).value.headers == ["code", "name"]
    ensures |Transform(t).value.rows| == |t.rows|
    ensures forall i | 0 <= i < |t.rows| ::
      t.rows[i][IndexOf(t.headers, Field)].Some? &&
      var v := t.rows[i][IndexOf(t.headers, Field)].value;
      Transform(t).value.rows[i] == [Some(CountryCode(v)), Some(CountryName(v))]
  {
    DerivedPairColumns(t, Field, "code", CodeCell, "name", NameCell);
    var out := Transform(t).value;
    forall i | 0 <= i < |t.rows|
      ensures t.rows[i][IndexOf(t.headers, Field)].Some?
      ensures out.rows[i] == [Some(CountryCode(t.rows[i][IndexOf(t.headers, Field)].value)),
                              Some(CountryName(t.rows[i][IndexOf(t.headers, Field)].value))]
    {
      var c := t.rows[i][IndexOf(t.headers, Field)];
      assert |out.rows[i]| == 2;
      CellsOfRow(c, out.rows[i]);
    }
  }

  lemma CellsOfRow(c: Cell, row: Row)
    requires |row| == 2 && CodeCell(c) == Ok(row[0]) && NameCell(c) == Ok(row[1])
    ensures c.Some? && row == [Some(CountryCode(c.value)), Some(CountryName(c.value))]
  {
  }

  /** `main` on an opened file: the two columns are derived in place and the
      frame is then narrowed to them. */
  method Process(input: Table) returns (out: Result<Table>)
    ensures out == Transform(input)
  {
    var df := new Frame(input);
    var o := df.Derive(Field, "code", CodeCell);
    if o.Fail? {
      return Err(o.error);
    }
    o := df.Derive(Field, "name", NameCell);
    if o.Fail? {
      return Err(o.error);
    }
    out := Project(df.Value(), ["code", "name"]);
  }
}
