/** A data frame that the scripts change in place: `df.rename(..., inplace=True)`,
    `df[c] = ...` and loops that overwrite one column after another. Each
    method is specified by the value-level operation of `Tables` it carries
    out on the frame's contents. */
module Frames {
  import opened Basics
  import opened Tables

  class Frame {
    var headers: seq<string>
    var rows: seq<Row>

    /** Every row has one cell per column. */
    ghost predicate Valid()
      reads this
    {
      Rectangular(RawTable(headers, rows))
    }

    /** The frame's contents as a table value. */
    function Value(): (t: Table)
      reads this
      requires Valid()
      ensures t.headers == headers && t.rows == rows
    {
      RawTable(headers, rows)
    }

    /** A frame holding `t`. */
    constructor (t: Table)
      ensures Valid() && Value() == t
    {
      headers := t.headers;
      rows := t.rows;
    }

    /** `df.rename(columns=m, inplace=True)`. */
    method Rename(m: map<string, string>)
      requires Valid()
      modifies this
      ensures Valid() && Value() == Tables.Rename(old(Value()), m)
    {
      headers := Tables.Rename(Value(), m).headers;
    }

    /** The vaex call `df.rename(name, new_name)`, which renames the frame it
        is called on. */
    method RenameColumn(name: string, newName: string)
      requires Valid()
      modifies this
      ensures Valid() && Value() == RenameOne(old(Value()), name, newName)
    {
      headers := RenameOne(Value(), name, newName).headers;
    }

    /** `for old, new in pairs: df.rename(old, new)`. */
    method RenameEach(pairs: seq<(string, string)>)
      requires Valid()
      modifies this
      ensures Valid() && Value() == Tables.RenameEach(old(Value()), pairs)
    {
      var i := 0;
      while i < |pairs|
        invariant 0 <= i <= |pairs|
        invariant Valid() && Value() == Tables.RenameEach(old(Value()), pairs[..i])
      {
        assert pairs[..i + 1][..i] == pairs[..i];
        RenameColumn(pairs[i].0, pairs[i].1);
        i := i + 1;
      }
      assert pairs[..i] == pairs;
    }

    /** `df[c] = values`. */
    method Assign(c: string, values: seq<Cell>)
      requires Valid() && |values| == |rows|
      modifies this
      ensures Valid() && Value() == Tables.Assign(old(Value()), c, values)
    {
      var t := Tables.Assign(Value(), c, values);
      headers, rows := t.headers, t.rows;
    }

    /** `df[dst] = df[src].apply(f)`; when the call raises, the frame is left
        as it was and the exception is the outcome. */
    method Derive(src: string, dst: string, f: Cell -> Result<Cell>) returns (o: Outcome)
      requires Valid()
      modifies this
      ensures Valid()
      ensures match Tables.Derive(old(Value()), src, dst, f)
        case Ok(t) => o == Pass && Value() == t
        case Err(e) => o == Fail(e) && Value() == old(Value())
    {
      match Tables.Derive(Value(), src, dst, f)
      case Ok(t) =>
        headers, rows := t.headers, t.rows;
        o := Pass;
      case Err(e) =>
        o := Fail(e);
    }

    /** `df[c] = df[c].apply(f)`. */
    method Apply(c: string, f: Cell -> Result<Cell>) returns (o: Outcome)
      requires Valid()
      modifies this
      ensures Valid()
      ensures match Tables.Apply(old(Value()), c, f)
        case Ok(t) => o == Pass && Value() == t
        case Err(e) => o == Fail(e) && Value() == old(Value())
    {
      o := Derive(c, c, f);
    }

    /** `for c in cols: df[c] = df[c].apply(f)`: the columns are converted one
        after another and the first exception ends the loop, leaving the
        columns converted so far. */
    method ApplyEach(cols: seq<string>, f: Cell -> Result<Cell>) returns (o: Outcome)
      requires Valid()
      modifies this
      ensures Valid() && Tables.ApplyEach(old(Value()), cols, f) == Run(Value(), o)
    {
      var i := 0;
      while i < |cols|
        invariant 0 <= i <= |cols|
        invariant Valid()
        invariant Tables.ApplyEach(old(Value()), cols, f) == Tables.ApplyEach(Value(), cols[i..], f)
      {
        assert cols[i..][1..] == cols[i + 1..];
        var r := Apply(cols[i], f);
        if r.Fail? {
          return r;
        }
        i := i + 1;
      }
      o := Pass;
    }
  }
}
