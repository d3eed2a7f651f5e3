/** A data frame as the transforms see it once the CSV has been read: a list
    of column labels and a list of rows, each row one optional string per
    column. The functions below are the frame operations the scripts call:
    `df.rename(columns=...)`, `df[labels]`, `df[c] = ...`, `df[c].apply(f)`,
    `df.drop([c], axis=1)` and `pd.merge(..., how="left", on=[key])`. */
module Tables {
  import opened Basics

  /** A cell: `None` is a missing value. */
  type Cell = Option<string>
  type Row = seq<Cell>

  datatype RawTable = RawTable(headers: seq<string>, rows: seq<Row>)

  /** Every row has one cell per column. */
  predicate Rectangular(t: RawTable) {
    forall i | 0 <= i < |t.rows| :: |t.rows[i]| == |t.headers|
  }

  type Table = t: RawTable | Rectangular(t) witness RawTable([], [])

  predicate Distinct(hs: seq<string>) {
    forall i, j | 0 <= i < j < |hs| :: hs[i] != hs[j]
  }

  /** Labels told apart by their length, first or last character. */
  predicate EndsApart(a: string, b: string) {
    |a| != |b| || (a != [] && b != [] && (a[0] != b[0] || a[|a| - 1] != b[|b| - 1]))
  }

  /** Labels pairwise told apart by their ends are distinct. */
  lemma DistinctByEnds(hs: seq<string>)
    requires forall i, j | 0 <= i < j < |hs| :: EndsApart(hs[i], hs[j])
    ensures Distinct(hs)
  {
  }

  /** The first position of label `h`, or `|hs|` when there is none. */
  function IndexOf(hs: seq<string>, h: string): (p: nat)
    ensures p <= |hs|
    ensures p < |hs| <==> h in hs
    ensures p < |hs| ==> hs[p] == h
    ensures forall k | 0 <= k < p :: hs[k] != h
  {
    if hs == [] then 0 else if hs[0] == h then 0 else 1 + IndexOf(hs[1..], h)
  }

  /** In a list without repeated labels, the one position holding `hs[p]` is `p`. */
  lemma IndexOfDistinct(hs: seq<string>, p: nat)
    requires Distinct(hs) && p < |hs|
    ensures IndexOf(hs, hs[p]) == p
  {
  }

  /** `IndexOf` is pinned down by its contract: the first position holding `h`. */
  lemma {:induction false} IndexOfIs(hs: seq<string>, h: string, p: nat)
    requires p < |hs| && hs[p] == h && forall k | 0 <= k < p :: hs[k] != h
    ensures IndexOf(hs, h) == p
  {
    if p > 0 {
      assert forall k | 0 <= k < p - 1 :: hs[1..][k] == hs[k + 1];
      IndexOfIs(hs[1..], h, p - 1);
    }
  }

  /** Adding a label at the end moves no label already present. */
  lemma IndexOfSnoc(hs: seq<string>, c: string, h: string)
    requires h in hs
    ensures IndexOf(hs + [c], h) == IndexOf(hs, h)
  {
    var p := IndexOf(hs, h);
    assert forall k | 0 <= k <= p :: (hs + [c])[k] == hs[k];
    IndexOfIs(hs + [c], h, p);
  }

  // ---------------------------------------------------------------------
  // Renaming

  function RenameLabel(m: map<string, string>, h: string): string {
    if h in m then m[h] else h
  }

  /** `df.rename(columns=m)`: all labels are looked up in `m` at once; a label
      that is not a key is kept, and no cell changes. */
  function Rename(t: Table, m: map<string, string>): (r: Table)
    ensures r.rows == t.rows && |r.headers| == |t.headers|
    ensures forall j | 0 <= j < |t.headers| :: r.headers[j] == RenameLabel(m, t.headers[j])
  {
    RawTable(seq(|t.headers|, j requires 0 <= j < |t.headers| => RenameLabel(m, t.headers[j])), t.rows)
  }

  /** A map that sends no two keys to the same label. */
  predicate Injective(m: map<string, string>) {
    forall a, b | a in m && b in m && a != b :: m[a] != m[b]
  }

  /** `m` renames every column of `t` to a label no other column ends up with:
      the keys go to distinct targets, and no column outside the keys already
      carries a target label. */
  predicate RenamesApart(t: Table, m: map<string, string>) {
    && Injective(m)
    && forall j | 0 <= j < |t.headers| && t.headers[j] !in m :: t.headers[j] !in m.Values
  }

  /** Such a rename keeps the labels of a frame pairwise distinct. */
  lemma RenameKeepsDistinct(t: Table, m: map<string, string>)
    requires Distinct(t.headers) && RenamesApart(t, m)
    ensures Distinct(Rename(t, m).headers)
  {
    var r := Rename(t, m);
    forall i, j | 0 <= i < j < |r.headers|
      ensures r.headers[i] != r.headers[j]
    {
      var a, b := t.headers[i], t.headers[j];
      if a in m && b !in m {
        assert m[a] in m.Values;
      } else if a !in m && b in m {
        assert m[b] in m.Values;
      }
    }
  }

  /** Renaming by the inverse map undoes a rename that keeps labels apart. */
  lemma RenameRoundTrip(t: Table, m: map<string, string>, inv: map<string, string>)
    requires forall k | k in m :: m[k] in inv && inv[m[k]] == k
    requires forall j | 0 <= j < |t.headers| && t.headers[j] !in m :: t.headers[j] !in inv
    ensures Rename(Rename(t, m), inv) == t
  {
    var r := Rename(Rename(t, m), inv);
    assert r.headers == t.headers;
  }

  /** Renamed labels are exactly the images of the old ones under `m`: every
      key present becomes its target, and a target appears only where a key
      or a column already carrying it was. */
  lemma RenameTargets(t: Table, m: map<string, string>, k: string)
    requires k in m && k in t.headers
    ensures m[k] in Rename(t, m).headers
  {
    var p := IndexOf(t.headers, k);
    assert Rename(t, m).headers[p] == m[k];
  }

  /** `m` is the dict literal whose entries, in order, are `sources[i]: targets[i]`. */
  predicate Lists(m: map<string, string>, sources: seq<string>, targets: seq<string>) {
    && |sources| == |targets|
    && (forall i | 0 <= i < |sources| :: sources[i] in m && m[sources[i]] == targets[i])
    && (forall s | s in m :: s in sources)
  }

  /** A dict literal with distinct targets renames no two keys alike. */
  lemma ListedInjective(m: map<string, string>, sources: seq<string>, targets: seq<string>)
    requires Lists(m, sources, targets) && Distinct(targets)
    ensures Injective(m)
  {
    forall a, b | a in m && b in m && a != b
      ensures m[a] != m[b]
    {
      var i := IndexOf(sources, a);
      var j := IndexOf(sources, b);
      assert m[a] == targets[i] && m[b] == targets[j];
    }
  }

  /** Under a rename that keeps labels apart, the target of a key present is
      found at the key's old position. */
  lemma RenamedPosition(t: Table, m: map<string, string>, k: string)
    requires RenamesApart(t, m) && k in m && k in t.headers
    ensures m[k] in Rename(t, m).headers
    ensures IndexOf(Rename(t, m).headers, m[k]) == IndexOf(t.headers, k)
  {
    var hs := Rename(t, m).headers;
    var p := IndexOf(t.headers, k);
    assert hs[p] == m[k];
    forall q | 0 <= q < p
      ensures hs[q] != m[k]
    {
      var h := t.headers[q];
      if h !in m {
        assert m[k] in m.Values;
      }
    }
  }

  /** Under a rename that keeps labels apart, the target of a key that is not
      a column does not appear. */
  lemma RenamedAbsent(t: Table, m: map<string, string>, k: string)
    requires RenamesApart(t, m) && k in m && k !in t.headers
    ensures m[k] !in Rename(t, m).headers
  {
    var hs := Rename(t, m).headers;
    forall q | 0 <= q < |hs|
      ensures hs[q] != m[k]
    {
      var h := t.headers[q];
      if h !in m {
        assert m[k] in m.Values;
      }
    }
  }

  /** The vaex call `df.rename(name, new_name)`: one label at a time. */
  function RenameOne(t: Table, name: string, newName: string): (r: Table)
    ensures r.rows == t.rows && |r.headers| == |t.headers|
    ensures forall j | 0 <= j < |t.headers| ::
      r.headers[j] == if t.headers[j] == name then newName else t.headers[j]
  {
    Rename(t, map[name := newName])
  }

  /** The renames of `pairs` carried out one after another, in order. */
  function RenameEach(t: Table, pairs: seq<(string, string)>): (r: Table)
    ensures r.rows == t.rows && |r.headers| == |t.headers|
    decreases |pairs|
  {
    if pairs == [] then t
    else
      var last := pairs[|pairs| - 1];
      RenameOne(RenameEach(t, pairs[..|pairs| - 1]), last.0, last.1)
  }

  /** The map a list of pairs denotes (a dict literal). */
  function MapOf(pairs: seq<(string, string)>): (m: map<string, string>)
    ensures m.Keys == set k | 0 <= k < |pairs| :: pairs[k].0
    decreases |pairs|
  {
    if pairs == [] then map[]
    else
      var last := pairs[|pairs| - 1];
      var m0 := MapOf(pairs[..|pairs| - 1]);
      assert m0.Keys + {last.0} == set k | 0 <= k < |pairs| :: pairs[k].0 by {
        var ks := set k | 0 <= k < |pairs| :: pairs[k].0;
        forall x | x in ks ensures x in m0.Keys + {last.0} {
          var k :| 0 <= k < |pairs| && pairs[k].0 == x;
          if k < |pairs| - 1 { assert pairs[..|pairs| - 1][k].0 == x; }
        }
      }
      m0[last.0 := last.1]
  }

  /** No source label is repeated and no target label is also a source, so
      renaming pair by pair never renames a column twice. */
  predicate ChainFree(pairs: seq<(string, string)>) {
    && (forall a, b | 0 <= a < b < |pairs| :: pairs[a].0 != pairs[b].0)
    && (forall a, b | 0 <= a < |pairs| && 0 <= b < |pairs| :: pairs[a].1 != pairs[b].0)
  }

  /** Renaming one pair at a time, in order, is the same as renaming through
      the whole map at once when the pairs are chain free. */
  lemma {:induction false} RenameEachIsRename(t: Table, pairs: seq<(string, string)>)
    requires ChainFree(pairs)
    ensures RenameEach(t, pairs) == Rename(t, MapOf(pairs))
    decreases |pairs|
  {
    if pairs != [] {
      var init := pairs[..|pairs| - 1];
      var last := pairs[|pairs| - 1];
      assert ChainFree(init);
      RenameEachIsRename(t, init);
      var m0 := MapOf(init);
      var m := MapOf(pairs);
      assert last.0 !in m0;
      assert last.0 !in m0.Values by {
        if last.0 in m0.Values {
          var x :| x in m0 && m0[x] == last.0;
          MapOfValue(init, x);
        }
      }
      assert m == m0[last.0 := last.1];
      RenameThenOne(t, m0, last.0, last.1);
    }
  }

  /** Renaming through `m0` and then a label that is neither a key nor a
      target of `m0` is one rename through `m0` extended by that label. */
  lemma RenameThenOne(t: Table, m0: map<string, string>, x: string, y: string)
    requires x !in m0 && x !in m0.Values
    ensures RenameOne(Rename(t, m0), x, y) == Rename(t, m0[x := y])
  {
    var a := RenameOne(Rename(t, m0), x, y);
    var b := Rename(t, m0[x := y]);
    forall j | 0 <= j < |t.headers|
      ensures a.headers[j] == b.headers[j]
    {
      var h := t.headers[j];
      if h in m0 {
        assert m0[h] in m0.Values;
      }
    }
  }

  /** A key of `MapOf(pairs)` is mapped to the target of one of the pairs. */
  lemma {:induction false} MapOfValue(pairs: seq<(string, string)>, x: string)
    requires x in MapOf(pairs)
    ensures exists k | 0 <= k < |pairs| :: pairs[k] == (x, MapOf(pairs)[x])
    decreases |pairs|
  {
    var last := pairs[|pairs| - 1];
    var init := pairs[..|pairs| - 1];
    if x != last.0 {
      MapOfValue(init, x);
      var k :| 0 <= k < |init| && init[k] == (x, MapOf(init)[x]);
      assert pairs[k] == init[k];
    } else {
      assert pairs[|pairs| - 1] == (x, MapOf(pairs)[x]);
    }
  }

  // ---------------------------------------------------------------------
  // Choosing columns

  /** Every position of label `h`, in increasing order. */
  function Positions(hs: seq<string>, h: string): (ps: seq<nat>)
    ensures forall k | 0 <= k < |ps| :: ps[k] < |hs| && hs[ps[k]] == h
    decreases |hs|
  {
    if hs == [] then []
    else
      var ps := Positions(hs[..|hs| - 1], h);
      if hs[|hs| - 1] == h then ps + [|hs| - 1] else ps
  }

  /** Every column labelled `h` is among its positions. */
  lemma {:induction false} PositionsComplete(hs: seq<string>, h: string, j: nat)
    requires j < |hs| && hs[j] == h
    ensures j in Positions(hs, h)
    decreases |hs|
  {
    if j < |hs| - 1 {
      PositionsComplete(hs[..|hs| - 1], h, j);
    }
  }

  /** Without repeated labels, a label present occurs at exactly one position. */
  lemma {:induction false} PositionsDistinct(hs: seq<string>, h: string)
    requires Distinct(hs)
    ensures Positions(hs, h) == if h in hs then [IndexOf(hs, h)] else []
    decreases |hs|
  {
    if hs != [] {
      var init := hs[..|hs| - 1];
      PositionsDistinct(init, h);
      if h in init {
        var p := IndexOf(init, h);
        assert hs[p] == h;
        assert hs[|hs| - 1] != h;
        assert IndexOf(hs, h) == p;
      } else if hs[|hs| - 1] == h {
        assert IndexOf(hs, h) == |hs| - 1;
      } else {
        assert h !in hs;
      }
    }
  }

  /** The positions `df[want]` takes, label by label. */
  function Selection(hs: seq<string>, want: seq<string>): (ix: seq<nat>)
    ensures forall k | 0 <= k < |ix| :: ix[k] < |hs|
    decreases |want|
  {
    if want == [] then [] else Selection(hs, want[..|want| - 1]) + Positions(hs, want[|want| - 1])
  }

  /** With distinct labels that are all present, `df[want]` takes the one
      position of each wanted label, in the order asked for. */
  lemma SelectionDistinct(hs: seq<string>, want: seq<string>)
    requires Distinct(hs) && forall k | 0 <= k < |want| :: want[k] in hs
    ensures |Selection(hs, want)| == |want|
    ensures forall k | 0 <= k < |want| :: Selection(hs, want)[k] == IndexOf(hs, want[k])
  {
    SelectionLength(hs, want);
    forall k | 0 <= k < |want|
      ensures Selection(hs, want)[k] == IndexOf(hs, want[k])
    {
      SelectionAt(hs, want, k);
    }
  }

  lemma {:induction false} SelectionLength(hs: seq<string>, want: seq<string>)
    requires Distinct(hs) && forall k | 0 <= k < |want| :: want[k] in hs
    ensures |Selection(hs, want)| == |want|
    decreases |want|
  {
    if want != [] {
      var init := want[..|want| - 1];
      assert forall k | 0 <= k < |init| :: init[k] == want[k];
      SelectionLength(hs, init);
      PositionsDistinct(hs, want[|want| - 1]);
    }
  }

  lemma {:induction false} SelectionAt(hs: seq<string>, want: seq<string>, k: nat)
    requires Distinct(hs) && forall j | 0 <= j < |want| :: want[j] in hs
    requires k < |want|
    ensures |Selection(hs, want)| == |want| && Selection(hs, want)[k] == IndexOf(hs, want[k])
    decreases |want|
  {
    var init := want[..|want| - 1];
    var last := want[|want| - 1];
    assert forall j | 0 <= j < |init| :: init[j] == want[j];
    SelectionLength(hs, init);
    var s0 := Selection(hs, init);
    assert Selection(hs, want) == s0 + [IndexOf(hs, last)] by {
      PositionsDistinct(hs, last);
    }
    if k < |init| {
      SelectionAt(hs, init, k);
      assert init[k] == want[k];
    }
  }

  /** The wanted labels that are not columns, in the order asked for. */
  function Missing(hs: seq<string>, want: seq<string>): (ms: seq<string>)
    ensures forall k | 0 <= k < |ms| :: ms[k] in want && ms[k] !in hs
    ensures forall w | w in want && w !in hs :: w in ms
    decreases |want|
  {
    if want == [] then []
    else
      var ms := Missing(hs, want[..|want| - 1]);
      var w := want[|want| - 1];
      assert forall v | v in want[..|want| - 1] :: v in want;
      assert forall v | v in want :: v in want[..|want| - 1] || v == w;
      if w in hs then ms else ms + [w]
  }

  /** The cells of `row` at the positions `ix`. */
  function SelectCells(row: Row, ix: seq<nat>): (r: Row)
    requires forall k | 0 <= k < |ix| :: ix[k] < |row|
    ensures |r| == |ix| && forall k | 0 <= k < |ix| :: r[k] == row[ix[k]]
  {
    seq(|ix|, k requires 0 <= k < |ix| => row[ix[k]])
  }

  /** The columns at positions `ix`, in that order, with all rows. */
  function Select(t: Table, ix: seq<nat>): (r: Table)
    requires forall k | 0 <= k < |ix| :: ix[k] < |t.headers|
    ensures |r.headers| == |ix| && |r.rows| == |t.rows|
    ensures forall k | 0 <= k < |ix| :: r.headers[k] == t.headers[ix[k]]
    ensures forall i | 0 <= i < |t.rows| :: r.rows[i] == SelectCells(t.rows[i], ix)
  {
    RawTable(seq(|ix|, k requires 0 <= k < |ix| => t.headers[ix[k]]),
             seq(|t.rows|, i requires 0 <= i < |t.rows| => SelectCells(t.rows[i], ix)))
  }

  /** `df[want]`: the wanted columns in the order asked for (a label that
      several columns carry brings all of them); a `KeyError` naming the
      missing labels if any is absent. */
  function Project(t: Table, want: seq<string>): (r: Result<Table>)
    ensures r.Err? <==> exists w | w in want :: w !in t.headers
    ensures r.Err? ==> r.error == KeyError(Missing(t.headers, want))
    ensures r.Ok? ==> |r.value.rows| == |t.rows|
  {
    var ms := Missing(t.headers, want);
    if ms != [] then
      assert ms[0] in want;
      Err(KeyError(ms))
    else Ok(Select(t, Selection(t.headers, want)))
  }

  /** On a frame without repeated labels `df[want]` has exactly the columns
      `want`, in order, each holding the cells of the column of that name. */
  lemma ProjectDistinct(t: Table, want: seq<string>)
    requires Distinct(t.headers) && Project(t, want).Ok?
    ensures Project(t, want).value.headers == want
    ensures |Project(t, want).value.rows| == |t.rows|
    ensures forall i, k | 0 <= i < |t.rows| && 0 <= k < |want| ::
      Project(t, want).value.rows[i][k] == t.rows[i][IndexOf(t.headers, want[k])]
  {
    SelectionDistinct(t.headers, want);
  }

  /** Through a dict literal that keeps labels apart, each target is a column
      of the renamed frame exactly when its source is a column, and then at
      the source's position. */
  lemma RenamedIndices(t: Table, m: map<string, string>, sources: seq<string>, targets: seq<string>)
    requires RenamesApart(t, m) && Lists(m, sources, targets)
    ensures forall k | 0 <= k < |sources| :: targets[k] in Rename(t, m).headers <==> sources[k] in t.headers
    ensures forall k | 0 <= k < |sources| && sources[k] in t.headers ::
      IndexOf(Rename(t, m).headers, targets[k]) == IndexOf(t.headers, sources[k])
  {
    forall k | 0 <= k < |sources|
      ensures targets[k] in Rename(t, m).headers <==> sources[k] in t.headers
      ensures sources[k] in t.headers ==> IndexOf(Rename(t, m).headers, targets[k]) == IndexOf(t.headers, sources[k])
    {
      if sources[k] in t.headers {
        RenamedPosition(t, m, sources[k]);
      } else {
        RenamedAbsent(t, m, sources[k]);
      }
    }
  }

  /** Renaming through a dict literal and then keeping its targets, in the
      order `targets` lists them: this succeeds exactly when every source
      column is present, and output column `k` is then the input column
      `sources[k]`. */
  lemma RenamedProjection(t: Table, m: map<string, string>, sources: seq<string>, targets: seq<string>)
    requires Distinct(t.headers) && RenamesApart(t, m) && Lists(m, sources, targets)
    ensures Project(Rename(t, m), targets).Ok? <==> forall k | 0 <= k < |sources| :: sources[k] in t.headers
    ensures Project(Rename(t, m), targets).Ok? ==>
      && Project(Rename(t, m), targets).value.headers == targets
      && |Project(Rename(t, m), targets).value.rows| == |t.rows|
      && forall i, k | 0 <= i < |t.rows| && 0 <= k < |sources| ::
           Project(Rename(t, m), targets).value.rows[i][k] == t.rows[i][IndexOf(t.headers, sources[k])]
  {
    var t1 := Rename(t, m);
    RenameKeepsDistinct(t, m);
    RenamedIndices(t, m, sources, targets);
    if Project(t1, targets).Ok? {
      ProjectDistinct(t1, targets);
    } else {
      var w :| w in targets && w !in t1.headers;
      var k :| 0 <= k < |targets| && targets[k] == w;
      assert sources[k] !in t.headers;
    }
  }

  /** The positions of all columns except those labelled `c`. */
  function Others(hs: seq<string>, c: string): (ix: seq<nat>)
    ensures forall k | 0 <= k < |ix| :: ix[k] < |hs| && hs[ix[k]] != c
    ensures forall j | 0 <= j < |hs| && hs[j] != c :: j in ix
    ensures forall a, b | 0 <= a < b < |ix| :: ix[a] < ix[b]
    decreases |hs|
  {
    if hs == [] then []
    else
      var ix := Others(hs[..|hs| - 1], c);
      if hs[|hs| - 1] != c then ix + [|hs| - 1] else ix
  }

  /** `df.drop([c], axis=1)`: every column labelled `c` removed, the others
      kept in order; a `KeyError` if there is none. */
  function Drop(t: Table, c: string): (r: Result<Table>)
    ensures r.Err? <==> c !in t.headers
    ensures r.Err? ==> r.error == KeyError([c])
    ensures r.Ok? ==> c !in r.value.headers && |r.value.rows| == |t.rows|
    ensures r.Ok? ==> forall h :: h in r.value.headers <==> h in t.headers && h != c
  {
    if c !in t.headers then Err(KeyError([c]))
    else
      var ix := Others(t.headers, c);
      var r := Select(t, ix);
      assert forall h :: h in t.headers && h != c ==> h in r.headers by {
        forall h | h in t.headers && h != c ensures h in r.headers {
          var j := IndexOf(t.headers, h);
          var k :| 0 <= k < |ix| && ix[k] == j;
          assert r.headers[k] == h;
        }
      }
      Ok(r)
  }

  /** The columns a drop keeps have distinct labels when the frame had, and
      hold the cells they held before. */
  lemma DropDistinct(t: Table, c: string)
    requires Distinct(t.headers) && Drop(t, c).Ok?
    ensures Distinct(Drop(t, c).value.headers)
    ensures forall i, h | 0 <= i < |t.rows| && h in Drop(t, c).value.headers ::
      h in t.headers &&
      Drop(t, c).value.rows[i][IndexOf(Drop(t, c).value.headers, h)] == t.rows[i][IndexOf(t.headers, h)]
  {
    var ix := Others(t.headers, c);
    var r := Drop(t, c).value;
    assert r == Select(t, ix);
    forall a, b | 0 <= a < b < |r.headers|
      ensures r.headers[a] != r.headers[b]
    {
      assert ix[a] < ix[b];
    }
    forall i, h | 0 <= i < |t.rows| && h in r.headers
      ensures r.rows[i][IndexOf(r.headers, h)] == t.rows[i][IndexOf(t.headers, h)]
    {
      var k := IndexOf(r.headers, h);
      assert r.headers[k] == t.headers[ix[k]];
      IndexOfDistinct(t.headers, ix[k]);
      assert r.rows[i] == SelectCells(t.rows[i], ix);
    }
  }

  // ---------------------------------------------------------------------
  // Writing columns

  /** The cells of column `p`, top to bottom. */
  function Column(t: Table, p: nat): (col: seq<Cell>)
    requires p < |t.headers|
    ensures |col| == |t.rows| && forall i | 0 <= i < |t.rows| :: col[i] == t.rows[i][p]
  {
    seq(|t.rows|, i requires 0 <= i < |t.rows| => t.rows[i][p])
  }

  /** `series.apply(f)`: `f` on every cell, top to bottom; the first cell on
      which `f` raises makes the whole call raise. */
  function MapCells(cells: seq<Cell>, f: Cell -> Result<Cell>): (r: Result<seq<Cell>>)
    ensures r.Ok? <==> forall i | 0 <= i < |cells| :: f(cells[i]).Ok?
    ensures r.Ok? ==> |r.value| == |cells| && forall i | 0 <= i < |cells| :: f(cells[i]) == Ok(r.value[i])
    ensures r.Err? ==> exists i | 0 <= i < |cells| ::
      f(cells[i]) == Err(r.error) && forall k | 0 <= k < i :: f(cells[k]).Ok?
  {
    if cells == [] then Ok([])
    else
      var c :- f(cells[0]);
      var rest :- MapCells(cells[1..], f);
      Ok([c] + rest)
  }

  /** `df[c] = values`: the column labelled `c` is overwritten, or, when there
      is none, a column `c` is added after the last one. */
  function Assign(t: Table, c: string, values: seq<Cell>): (r: Table)
    requires |values| == |t.rows|
    ensures r.headers == if c in t.headers then t.headers else t.headers + [c]
    ensures |r.rows| == |t.rows|
    ensures forall i | 0 <= i < |t.rows| :: r.rows[i][IndexOf(r.headers, c)] == values[i]
    ensures forall i, j | 0 <= i < |t.rows| && 0 <= j < |t.headers| && j != IndexOf(t.headers, c) ::
      r.rows[i][j] == t.rows[i][j]
  {
    var p := IndexOf(t.headers, c);
    if p < |t.headers| then SetColumn(t, p, values)
    else
      assert forall k | 0 <= k < p :: (t.headers + [c])[k] == t.headers[k];
      IndexOfIs(t.headers + [c], c, p);
      AddColumn(t, c, values)
  }

  /** The frame with the cells at position `p` replaced by `values`. */
  function SetColumn(t: Table, p: nat, values: seq<Cell>): (r: Table)
    requires p < |t.headers| && |values| == |t.rows|
    ensures r.headers == t.headers && |r.rows| == |t.rows|
    ensures forall i | 0 <= i < |t.rows| :: r.rows[i] == t.rows[i][p := values[i]]
  {
    var rows := seq(|t.rows|, i requires 0 <= i < |t.rows| => t.rows[i][p := values[i]]);
    assert forall i | 0 <= i < |rows| :: |rows[i]| == |t.rows[i]|;
    RawTable(t.headers, rows)
  }

  /** The frame with the column `c` of `values` added after the last one. */
  function AddColumn(t: Table, c: string, values: seq<Cell>): (r: Table)
    requires |values| == |t.rows|
    ensures r.headers == t.headers + [c] && |r.rows| == |t.rows|
    ensures forall i | 0 <= i < |t.rows| :: r.rows[i] == t.rows[i] + [values[i]]
  {
    var rows := seq(|t.rows|, i requires 0 <= i < |t.rows| => t.rows[i] + [values[i]]);
    assert forall i | 0 <= i < |rows| :: |rows[i]| == |t.rows[i]| + 1;
    RawTable(t.headers + [c], rows)
  }

  /** Assigning a column twice leaves the second values: the first
      assignment adds the column the second one overwrites. */
  lemma AssignTwice(t: Table, c: string, first: seq<Cell>, second: seq<Cell>)
    requires |first| == |t.rows| && |second| == |t.rows|
    ensures Assign(Assign(t, c, first), c, second) == Assign(t, c, second)
  {
    var t1 := Assign(t, c, first);
    var t2 := Assign(t, c, second);
    var r := Assign(t1, c, second);
    var p := IndexOf(t.headers, c);
    assert IndexOf(t1.headers, c) == p by {
      if p == |t.headers| {
        assert forall k | 0 <= k < p :: t1.headers[k] == t.headers[k];
        IndexOfIs(t1.headers, c, p);
      }
    }
    assert r.headers == t2.headers;
    forall i | 0 <= i < |t.rows|
      ensures r.rows[i] == t2.rows[i]
    {
      if p < |t.headers| {
        assert r.rows[i] == t.rows[i][p := first[i]][p := second[i]];
      } else {
        assert r.rows[i] == (t.rows[i] + [first[i]])[p := second[i]];
      }
    }
  }

  /** Assigning a column changes no column with another label. */
  lemma AssignOthers(t: Table, c: string, values: seq<Cell>)
    requires |values| == |t.rows|
    ensures forall i, j | 0 <= i < |t.rows| && 0 <= j < |t.headers| && t.headers[j] != c ::
      Assign(t, c, values).rows[i][j] == t.rows[i][j]
  {
  }

  /** Assigning a column keeps the labels of a frame pairwise distinct. */
  lemma AssignKeepsDistinct(t: Table, c: string, values: seq<Cell>)
    requires |values| == |t.rows| && Distinct(t.headers)
    ensures Distinct(Assign(t, c, values).headers)
  {
  }

  /** `df[dst] = df[src].apply(f)`: `KeyError` if there is no column `src`,
      the first exception of `f` if it raises, and otherwise the frame with
      column `dst` set to the converted cells of `src`. */
  function Derive(t: Table, src: string, dst: string, f: Cell -> Result<Cell>): (r: Result<Table>)
    ensures src !in t.headers ==> r == Err(KeyError([src]))
    ensures src in t.headers ==>
      (r.Ok? <==> forall i | 0 <= i < |t.rows| :: f(t.rows[i][IndexOf(t.headers, src)]).Ok?)
    ensures r.Ok? ==> r.value.headers == if dst in t.headers then t.headers else t.headers + [dst]
    ensures r.Ok? ==> |r.value.rows| == |t.rows|
    ensures r.Ok? ==> forall i | 0 <= i < |t.rows| ::
      f(t.rows[i][IndexOf(t.headers, src)]) == Ok(r.value.rows[i][IndexOf(r.value.headers, dst)])
    ensures r.Ok? ==> forall i, j | 0 <= i < |t.rows| && 0 <= j < |t.headers| && j != IndexOf(t.headers, dst) ::
      r.value.rows[i][j] == t.rows[i][j]
  {
    if src !in t.headers then Err(KeyError([src]))
    else
      var values :- MapCells(Column(t, IndexOf(t.headers, src)), f);
      Ok(Assign(t, dst, values))
  }

  /** On a frame without repeated labels, deriving `dst` from another column
      keeps the labels distinct, converts each `src` cell into the `dst` cell of
      its row, and keeps every other column at its position with its cells. */
  lemma DeriveDistinct(t: Table, src: string, dst: string, f: Cell -> Result<Cell>)
    requires Distinct(t.headers) && Derive(t, src, dst, f).Ok?
    ensures Distinct(Derive(t, src, dst, f).value.headers)
    ensures forall i | 0 <= i < |t.rows| ::
      f(t.rows[i][IndexOf(t.headers, src)]) ==
      Ok(Derive(t, src, dst, f).value.rows[i][IndexOf(Derive(t, src, dst, f).value.headers, dst)])
    ensures forall h | h in t.headers && h != dst ::
      IndexOf(Derive(t, src, dst, f).value.headers, h) == IndexOf(t.headers, h)
    ensures forall h, i | h in t.headers && h != dst && 0 <= i < |t.rows| ::
      Derive(t, src, dst, f).value.rows[i][IndexOf(t.headers, h)] == t.rows[i][IndexOf(t.headers, h)]
  {
    var r := Derive(t, src, dst, f).value;
    forall h | h in t.headers && h != dst
      ensures IndexOf(r.headers, h) == IndexOf(t.headers, h)
    {
      if dst !in t.headers {
        IndexOfSnoc(t.headers, dst, h);
      }
    }
    forall h, i | h in t.headers && h != dst && 0 <= i < |t.rows|
      ensures r.rows[i][IndexOf(t.headers, h)] == t.rows[i][IndexOf(t.headers, h)]
    {
      assert t.headers[IndexOf(t.headers, h)] != dst;
    }
  }

  /** Two columns derived from one, then only those two kept:
      `df[a] = df[src].apply(f); df[b] = df[src].apply(g); df = df[[a, b]]`. */
  function DerivedPair(t: Table, src: string, a: string, f: Cell -> Result<Cell>, b: string, g: Cell -> Result<Cell>): Result<Table>
  {
    var t1 :- Derive(t, src, a, f);
    var t2 :- Derive(t1, src, b, g);
    Project(t2, [a, b])
  }

  /** Deriving `dst` from `src` on a frame without repeated labels leaves a
      frame without repeated labels whose `src` column is where it was, with
      the same cells, and whose `dst` column holds the converted cells. */
  lemma DeriveFromKept(t: Table, src: string, dst: string, f: Cell -> Result<Cell>)
    requires Distinct(t.headers) && src != dst && Derive(t, src, dst, f).Ok?
    ensures var r := Derive(t, src, dst, f).value;
      && Distinct(r.headers) && dst in r.headers && |r.rows| == |t.rows|
      && IndexOf(r.headers, src) == IndexOf(t.headers, src)
      && (forall i | 0 <= i < |t.rows| :: r.rows[i][IndexOf(t.headers, src)] == t.rows[i][IndexOf(t.headers, src)])
      && (forall i | 0 <= i < |t.rows| :: f(t.rows[i][IndexOf(t.headers, src)]) == Ok(r.rows[i][IndexOf(r.headers, dst)]))
  {
    DeriveDistinct(t, src, dst, f);
  }

  /** The pair succeeds exactly when both conversions succeed on every `src`
      cell. */
  lemma DerivedPairOk(t: Table, src: string, a: string, f: Cell -> Result<Cell>, b: string, g: Cell -> Result<Cell>)
    requires Distinct(t.headers) && src in t.headers && src != a && src != b
    ensures DerivedPair(t, src, a, f, b, g).Ok? <==>
      forall i | 0 <= i < |t.rows| :: f(t.rows[i][IndexOf(t.headers, src)]).Ok? && g(t.rows[i][IndexOf(t.headers, src)]).Ok?
  {
    if Derive(t, src, a, f).Ok? {
      DeriveFromKept(t, src, a, f);
      SecondDeriveOk(t, Derive(t, src, a, f).value, src, a, b, g);
    }
  }

  /** After the first derive, the rest of the pair succeeds exactly when `g`
      succeeds on every `src` cell of the original frame. */
  lemma SecondDeriveOk(t: Table, t1: Table, src: string, a: string, b: string, g: Cell -> Result<Cell>)
    requires src in t.headers && src in t1.headers && Distinct(t1.headers) && a in t1.headers && src != b
    requires IndexOf(t1.headers, src) == IndexOf(t.headers, src) && |t1.rows| == |t.rows|
    requires forall i | 0 <= i < |t.rows| :: t1.rows[i][IndexOf(t.headers, src)] == t.rows[i][IndexOf(t.headers, src)]
    ensures (Derive(t1, src, b, g).Ok? && Project(Derive(t1, src, b, g).value, [a, b]).Ok?) <==>
      forall i | 0 <= i < |t.rows| :: g(t.rows[i][IndexOf(t.headers, src)]).Ok?
  {
    if Derive(t1, src, b, g).Ok? {
      var t2 := Derive(t1, src, b, g).value;
      assert a in t2.headers && b in t2.headers;
    }
  }

  /** On a frame without repeated labels a pair that succeeds has the columns
      `a`, `b` and, row by row, the two conversions of that row's `src` cell. */
  lemma DerivedPairColumns(t: Table, src: string, a: string, f: Cell -> Result<Cell>, b: string, g: Cell -> Result<Cell>)
    requires Distinct(t.headers) && src != a && src != b && a != b
    requires DerivedPair(t, src, a, f, b, g).Ok?
    ensures DerivedPair(t, src, a, f, b, g).value.headers == [a, b]
    ensures |DerivedPair(t, src, a, f, b, g).value.rows| == |t.rows|
    ensures forall i | 0 <= i < |t.rows| ::
      && f(t.rows[i][IndexOf(t.headers, src)]) == Ok(DerivedPair(t, src, a, f, b, g).value.rows[i][0])
      && g(t.rows[i][IndexOf(t.headers, src)]) == Ok(DerivedPair(t, src, a, f, b, g).value.rows[i][1])
  {
    var p := IndexOf(t.headers, src);
    var t1 := Derive(t, src, a, f).value;
    DeriveFromKept(t, src, a, f);
    var t2 := Derive(t1, src, b, g).value;
    SecondDerive(t1, src, a, b, g);
    var out := DerivedPair(t, src, a, f, b, g).value;
    assert out == Project(t2, [a, b]).value;
    ProjectDistinct(t2, [a, b]);
    PairCells(t, t1, t2, out, p, src, a, b, f, g);
  }

  /** The cells of the pair, traced back through the two derives and the
      projection. */
  lemma PairCells(t: Table, t1: Table, t2: Table, out: Table, p: nat, src: string, a: string, b: string,
                  f: Cell -> Result<Cell>, g: Cell -> Result<Cell>)
    requires p < |t.headers| && |t1.rows| == |t.rows| && |t2.rows| == |t.rows| && |out.rows| == |t.rows|
    requires a in t1.headers && src in t1.headers && a in t2.headers && b in t2.headers && out.headers == [a, b]
    requires forall i | 0 <= i < |t.rows| :: f(t.rows[i][p]) == Ok(t1.rows[i][IndexOf(t1.headers, a)])
    requires forall i | 0 <= i < |t1.rows| :: t1.rows[i][IndexOf(t1.headers, src)] == t.rows[i][p]
    requires forall i | 0 <= i < |t1.rows| :: t2.rows[i][IndexOf(t2.headers, a)] == t1.rows[i][IndexOf(t1.headers, a)]
    requires forall i | 0 <= i < |t1.rows| :: g(t1.rows[i][IndexOf(t1.headers, src)]) == Ok(t2.rows[i][IndexOf(t2.headers, b)])
    requires forall i, k | 0 <= i < |t2.rows| && 0 <= k < 2 :: out.rows[i][k] == t2.rows[i][IndexOf(t2.headers, [a, b][k])]
    ensures forall i | 0 <= i < |t.rows| :: f(t.rows[i][p]) == Ok(out.rows[i][0]) && g(t.rows[i][p]) == Ok(out.rows[i][1])
  {
    forall i | 0 <= i < |t.rows|
      ensures f(t.rows[i][p]) == Ok(out.rows[i][0]) && g(t.rows[i][p]) == Ok(out.rows[i][1])
    {
      assert out.rows[i][0] == t2.rows[i][IndexOf(t2.headers, [a, b][0])];
      assert out.rows[i][1] == t2.rows[i][IndexOf(t2.headers, [a, b][1])];
    }
  }

  /** Deriving `b` after `a` keeps the `a` column and the `src` column. */
  lemma SecondDerive(t1: Table, src: string, a: string, b: string, g: Cell -> Result<Cell>)
    requires Distinct(t1.headers) && src != b && a != b && a in t1.headers && src in t1.headers
    requires Derive(t1, src, b, g).Ok?
    ensures var t2 := Derive(t1, src, b, g).value;
      && Distinct(t2.headers) && |t2.rows| == |t1.rows|
      && (forall i | 0 <= i < |t1.rows| :: t2.rows[i][IndexOf(t2.headers, a)] == t1.rows[i][IndexOf(t1.headers, a)])
      && (forall i | 0 <= i < |t1.rows| :: g(t1.rows[i][IndexOf(t1.headers, src)]) == Ok(t2.rows[i][IndexOf(t2.headers, b)]))
  {
    DeriveDistinct(t1, src, b, g);
  }

  /** `df[c] = df[c].apply(f)`: only column `c` changes, each of its cells to
      what `f` makes of it; the labels, the row count and every other cell
      stay. */
  function Apply(t: Table, c: string, f: Cell -> Result<Cell>): (r: Result<Table>)
    ensures r.Err? <==> c !in t.headers || exists i | 0 <= i < |t.rows| :: f(t.rows[i][IndexOf(t.headers, c)]).Err?
    ensures c !in t.headers ==> r == Err(KeyError([c]))
    ensures r.Ok? ==> r.value.headers == t.headers && |r.value.rows| == |t.rows|
    ensures r.Ok? ==> forall i, j | 0 <= i < |t.rows| && 0 <= j < |t.headers| ::
      if j == IndexOf(t.headers, c) then f(t.rows[i][j]) == Ok(r.value.rows[i][j])
      else r.value.rows[i][j] == t.rows[i][j]
  {
    Derive(t, c, c, f)
  }

  /** Where a loop of `df[c] = df[c].apply(f)` over several columns stopped:
      the frame it left and whether an exception was raised. */
  datatype Run = Run(table: Table, outcome: Outcome)

  /** `for c in cols: df[c] = df[c].apply(f)`, stopping at the first raise. */
  function ApplyEach(t: Table, cols: seq<string>, f: Cell -> Result<Cell>): (r: Run)
    ensures |r.table.headers| == |t.headers| && |r.table.rows| == |t.rows|
    ensures r.outcome.Pass? ==> forall c | c in cols :: c in t.headers
    decreases |cols|
  {
    if cols == [] then Run(t, Pass)
    else
      match Apply(t, cols[0], f)
      case Err(e) => Run(t, Fail(e))
      case Ok(t1) => ApplyEach(t1, cols[1..], f)
  }

  /** A loop over columns that completes keeps the labels and the row count,
      needs every column it names, and leaves every column it does not name as
      it was. */
  lemma {:induction false} ApplyEachChangesOnly(t: Table, cols: seq<string>, f: Cell -> Result<Cell>)
    requires ApplyEach(t, cols, f).outcome.Pass?
    ensures ApplyEach(t, cols, f).table.headers == t.headers
    ensures |ApplyEach(t, cols, f).table.rows| == |t.rows|
    ensures forall c | c in cols :: c in t.headers
    ensures forall i, j | 0 <= i < |t.rows| && 0 <= j < |t.headers| && t.headers[j] !in cols ::
      ApplyEach(t, cols, f).table.rows[i][j] == t.rows[i][j]
    decreases |cols|
  {
    if cols != [] {
      var t1 := Apply(t, cols[0], f).value;
      ApplyEachChangesOnly(t1, cols[1..], f);
      assert forall c | c in cols :: c == cols[0] || c in cols[1..];
      forall i, j | 0 <= i < |t.rows| && 0 <= j < |t.headers| && t.headers[j] !in cols
        ensures ApplyEach(t, cols, f).table.rows[i][j] == t.rows[i][j]
      {
        assert j != IndexOf(t.headers, cols[0]);
        assert t1.headers[j] !in cols[1..];
      }
    }
  }

  /** A completed loop over the single column `c` converts that column and
      leaves every other column as it was. */
  lemma ApplyEachSingle(t: Table, cols: seq<string>, c: string, f: Cell -> Result<Cell>)
    requires cols == [c] && ApplyEach(t, cols, f).outcome.Pass?
    ensures c in t.headers
    ensures ApplyEach(t, cols, f).table.headers == t.headers
    ensures |ApplyEach(t, cols, f).table.rows| == |t.rows|
    ensures forall i | 0 <= i < |t.rows| ::
      f(t.rows[i][IndexOf(t.headers, c)]) == Ok(ApplyEach(t, cols, f).table.rows[i][IndexOf(t.headers, c)])
    ensures forall i, j | 0 <= i < |t.rows| && 0 <= j < |t.headers| && t.headers[j] != c ::
      ApplyEach(t, cols, f).table.rows[i][j] == t.rows[i][j]
  {
    ApplyEachChangesOnly(t, cols, f);
    ApplyEachConverts(t, cols, f);
  }

  /** A loop over distinct columns that completes has converted each of them
      exactly once: every cell of a named column is what `f` made of it. */
  lemma {:induction false} ApplyEachConverts(t: Table, cols: seq<string>, f: Cell -> Result<Cell>)
    requires ApplyEach(t, cols, f).outcome.Pass? && Distinct(cols)
    ensures ApplyEach(t, cols, f).table.headers == t.headers
    ensures |ApplyEach(t, cols, f).table.rows| == |t.rows|
    ensures forall i, c | 0 <= i < |t.rows| && c in cols ::
      c in t.headers &&
      f(t.rows[i][IndexOf(t.headers, c)]) == Ok(ApplyEach(t, cols, f).table.rows[i][IndexOf(t.headers, c)])
    decreases |cols|
  {
    ApplyEachChangesOnly(t, cols, f);
    if cols != [] {
      var t1 := Apply(t, cols[0], f).value;
      var rest := cols[1..];
      assert Distinct(rest);
      ApplyEachConverts(t1, rest, f);
      ApplyEachChangesOnly(t1, rest, f);
      var r := ApplyEach(t, cols, f).table;
      assert r == ApplyEach(t1, rest, f).table;
      forall i, c | 0 <= i < |t.rows| && c in cols
        ensures f(t.rows[i][IndexOf(t.headers, c)]) == Ok(r.rows[i][IndexOf(t.headers, c)])
      {
        var p := IndexOf(t.headers, c);
        if c == cols[0] {
          assert t1.headers[p] !in rest;
        } else {
          assert c in rest;
          assert p != IndexOf(t.headers, cols[0]);
        }
      }
    }
  }

  /** The conversions of a completed loop followed by `df[want]` on a frame
      without repeated labels: output column `k` is the input column
      `want[k]`, converted by `f` when it is one of the looped columns. */
  lemma ConvertedProjection(t: Table, cols: seq<string>, f: Cell -> Result<Cell>, want: seq<string>)
    requires Distinct(t.headers) && Distinct(cols)
    requires ApplyEach(t, cols, f).outcome.Pass? && Project(ApplyEach(t, cols, f).table, want).Ok?
    ensures Project(ApplyEach(t, cols, f).table, want).value.headers == want
    ensures |Project(ApplyEach(t, cols, f).table, want).value.rows| == |t.rows|
    ensures forall k | 0 <= k < |want| :: want[k] in t.headers
    ensures forall i, k | 0 <= i < |t.rows| && 0 <= k < |want| ::
      var cell := Project(ApplyEach(t, cols, f).table, want).value.rows[i][k];
      if want[k] in cols then f(t.rows[i][IndexOf(t.headers, want[k])]) == Ok(cell)
      else cell == t.rows[i][IndexOf(t.headers, want[k])]
  {
    var r := ApplyEach(t, cols, f).table;
    ApplyEachChangesOnly(t, cols, f);
    ApplyEachConverts(t, cols, f);
    ProjectDistinct(r, want);
  }

  /** The same after a rename through a dict literal that keeps labels apart,
      keeping its targets: output column `k` is the input column `sources[k]`,
      converted when `targets[k]` is one of the converted columns. */
  lemma RenamedConvertedProjection(t: Table, m: map<string, string>, sources: seq<string>, targets: seq<string>,
                                   cols: seq<string>, f: Cell -> Result<Cell>)
    requires Distinct(t.headers) && RenamesApart(t, m) && Lists(m, sources, targets) && Distinct(cols)
    requires ApplyEach(Rename(t, m), cols, f).outcome.Pass?
    requires Project(ApplyEach(Rename(t, m), cols, f).table, targets).Ok?
    ensures Project(ApplyEach(Rename(t, m), cols, f).table, targets).value.headers == targets
    ensures |Project(ApplyEach(Rename(t, m), cols, f).table, targets).value.rows| == |t.rows|
    ensures forall k | 0 <= k < |sources| :: sources[k] in t.headers
    ensures forall i, k | 0 <= i < |t.rows| && 0 <= k < |sources| ::
      var cell := Project(ApplyEach(Rename(t, m), cols, f).table, targets).value.rows[i][k];
      if targets[k] in cols then f(t.rows[i][IndexOf(t.headers, sources[k])]) == Ok(cell)
      else cell == t.rows[i][IndexOf(t.headers, sources[k])]
  {
    RenameKeepsDistinct(t, m);
    ConvertedProjection(Rename(t, m), cols, f, targets);
    RenamedIndices(t, m, sources, targets);
  }

  /** A loop over columns that reaches a column the frame lacks fails: with a
      conversion that never raises `KeyError` itself, either a conversion of
      an earlier column raised, or the loop raises `KeyError` naming the first
      missing column. */
  lemma {:induction false} ApplyEachMissing(t: Table, cols: seq<string>, f: Cell -> Result<Cell>, n: nat)
    requires forall c: Cell :: f(c).Err? ==> !f(c).error.KeyError?
    requires n < |cols| && cols[n] !in t.headers
    requires forall k | 0 <= k < n :: cols[k] in t.headers
    ensures ApplyEach(t, cols, f).outcome.Fail?
    ensures ApplyEach(t, cols, f).outcome.error.KeyError? ==> ApplyEach(t, cols, f).outcome.error == KeyError([cols[n]])
    decreases n
  {
    if n > 0 {
      match Apply(t, cols[0], f)
      case Err(e) =>
      case Ok(t1) =>
        assert forall k | 0 <= k < n - 1 :: cols[1..][k] == cols[k + 1];
        ApplyEachMissing(t1, cols[1..], f, n - 1);
    }
  }

  // ---------------------------------------------------------------------
  // Left join

  function RemoveAt<T>(s: seq<T>, p: nat): (r: seq<T>)
    requires p < |s|
    ensures |r| == |s| - 1
    ensures forall k | 0 <= k < |r| :: r[k] == if k < p then s[k] else s[k + 1]
  {
    s[..p] + s[p + 1..]
  }

  /** `n` missing cells. */
  function Nones(n: nat): (r: Row)
    ensures |r| == n && forall k | 0 <= k < n :: r[k] == None
  {
    seq(n, k => None)
  }

  /** The rows whose cell at `p` equals `key`, in their order. */
  function Matches(rows: seq<Row>, p: nat, key: Cell): (ms: seq<Row>)
    requires forall i | 0 <= i < |rows| :: p < |rows[i]|
    ensures |ms| <= |rows|
    ensures forall k | 0 <= k < |ms| :: ms[k] in rows && ms[k][p] == key
    ensures forall i | 0 <= i < |rows| && rows[i][p] == key :: rows[i] in ms
    ensures ms == [] <==> forall i | 0 <= i < |rows| :: rows[i][p] != key
    decreases |rows|
  {
    if rows == [] then []
    else
      var ms := Matches(rows[1..], p, key);
      assert forall r | r in rows[1..] :: r in rows;
      if rows[0][p] == key then [rows[0]] + ms else ms
  }

  /** No two rows agree on the cell at `p`. */
  predicate UniqueAt(rows: seq<Row>, p: nat)
    requires forall i | 0 <= i < |rows| :: p < |rows[i]|
  {
    forall a, b | 0 <= a < b < |rows| :: rows[a][p] != rows[b][p]
  }

  /** With unique keys a key is matched by at most one row, and by exactly
      the row that carries it. */
  lemma {:induction false} MatchesUnique(rows: seq<Row>, p: nat, key: Cell)
    requires forall i | 0 <= i < |rows| :: p < |rows[i]|
    requires UniqueAt(rows, p)
    ensures |Matches(rows, p, key)| <= 1
    ensures forall i | 0 <= i < |rows| && rows[i][p] == key :: Matches(rows, p, key) == [rows[i]]
    decreases |rows|
  {
    if rows != [] {
      MatchesUnique(rows[1..], p, key);
      if rows[0][p] == key {
        assert forall i | 0 <= i < |rows[1..]| :: rows[1..][i][p] != key by {
          forall i | 0 <= i < |rows[1..]| ensures rows[1..][i][p] != key {
            assert rows[1..][i] == rows[i + 1];
          }
        }
      }
      forall i | 0 <= i < |rows| && rows[i][p] == key
        ensures Matches(rows, p, key) == [rows[i]]
      {
        if i > 0 {
          assert rows[1..][i - 1] == rows[i];
        }
      }
    }
  }

  /** The output rows of one left row: one per matching right row, or the
      left row padded with missing cells when nothing matches. */
  function JoinRow(lrow: Row, lp: nat, rrows: seq<Row>, rp: nat, width: nat): (out: seq<Row>)
    requires lp < |lrow| && rp <= width
    requires forall i | 0 <= i < |rrows| :: |rrows[i]| == width + 1
    ensures |out| >= 1
    ensures forall k | 0 <= k < |out| :: |out[k]| == |lrow| + width && out[k][..|lrow|] == lrow
  {
    var ms := Matches(rrows, rp, lrow[lp]);
    if ms == [] then [lrow + Nones(width)]
    else
      assert forall k | 0 <= k < |ms| :: |ms[k]| == width + 1;
      seq(|ms|, k requires 0 <= k < |ms| => lrow + RemoveAt(ms[k], rp))
  }

  function JoinRows(lrows: seq<Row>, lp: nat, rrows: seq<Row>, rp: nat, lwidth: nat, width: nat): (out: seq<Row>)
    requires lp < lwidth && rp <= width
    requires forall i | 0 <= i < |lrows| :: |lrows[i]| == lwidth
    requires forall i | 0 <= i < |rrows| :: |rrows[i]| == width + 1
    ensures |out| >= |lrows|
    ensures forall k | 0 <= k < |out| :: |out[k]| == lwidth + width
    decreases |lrows|
  {
    if lrows == [] then []
    else JoinRow(lrows[0], lp, rrows, rp, width) + JoinRows(lrows[1..], lp, rrows, rp, lwidth, width)
  }

  /** With unique right keys every left row yields exactly one output row. */
  lemma {:induction false} JoinRowsUnique(lrows: seq<Row>, lp: nat, rrows: seq<Row>, rp: nat, lwidth: nat, width: nat)
    requires lp < lwidth && rp <= width
    requires forall i | 0 <= i < |lrows| :: |lrows[i]| == lwidth
    requires forall i | 0 <= i < |rrows| :: |rrows[i]| == width + 1
    requires UniqueAt(rrows, rp)
    ensures |JoinRows(lrows, lp, rrows, rp, lwidth, width)| == |lrows|
    ensures forall i | 0 <= i < |lrows| ::
      [JoinRows(lrows, lp, rrows, rp, lwidth, width)[i]] == JoinRow(lrows[i], lp, rrows, rp, width)
    decreases |lrows|
  {
    if lrows != [] {
      MatchesUnique(rrows, rp, lrows[0][lp]);
      var head := JoinRow(lrows[0], lp, rrows, rp, width);
      assert |head| == 1;
      JoinRowsUnique(lrows[1..], lp, rrows, rp, lwidth, width);
      var rest := JoinRows(lrows[1..], lp, rrows, rp, lwidth, width);
      var out := JoinRows(lrows, lp, rrows, rp, lwidth, width);
      assert out == head + rest;
      forall i | 0 <= i < |lrows|
        ensures [out[i]] == JoinRow(lrows[i], lp, rrows, rp, width)
      {
        if i == 0 {
          assert out[0] == head[0];
        } else {
          assert out[i] == rest[i - 1];
          assert lrows[1..][i - 1] == lrows[i];
        }
      }
    }
  }

  /** Left label in a merged frame: a label both frames carry (other than the
      key) gets the suffix `_x`. */
  function LeftLabel(h: string, key: string, right: seq<string>): string {
    if h != key && h in right then h + "_x" else h
  }

  /** Right label in a merged frame: a label both frames carry gets `_y`. */
  function RightLabel(h: string, key: string, left: seq<string>): string {
    if h != key && h in left then h + "_y" else h
  }

  /** `pd.merge(l, r, how="left", on=[key])`: the left columns, then the right
      columns without the key; for each left row in order, one row per right
      row with the same key (in right order), or one row with missing right
      cells when there is none. `KeyError` when either frame lacks the key. */
  function LeftJoin(l: Table, r: Table, key: string): (res: Result<Table>)
    ensures res.Err? <==> key !in l.headers || key !in r.headers
    ensures res.Ok? ==> |res.value.headers| == |l.headers| + |r.headers| - 1
    ensures res.Ok? ==> |res.value.rows| >= |l.rows|
  {
    if key !in l.headers || key !in r.headers then Err(KeyError([key]))
    else
      var lp := IndexOf(l.headers, key);
      var rp := IndexOf(r.headers, key);
      var rh := RemoveAt(r.headers, rp);
      var headers := seq(|l.headers|, j requires 0 <= j < |l.headers| => LeftLabel(l.headers[j], key, rh))
                   + seq(|rh|, j requires 0 <= j < |rh| => RightLabel(rh[j], key, l.headers));
      Ok(RawTable(headers, JoinRows(l.rows, lp, r.rows, rp, |l.headers|, |rh|)))
  }

  /** `df.empty`: a frame with no rows or no columns. */
  predicate IsEmpty(t: Table) {
    |t.rows| == 0 || |t.headers| == 0
  }

  /** The key keeps its label and its position in a merged frame. */
  lemma LeftJoinKeepsKey(l: Table, r: Table, key: string)
    requires key in l.headers && key in r.headers
    ensures LeftJoin(l, r, key).Ok?
    ensures |LeftJoin(l, r, key).value.headers| >= |l.headers|
    ensures LeftJoin(l, r, key).value.headers[IndexOf(l.headers, key)] == key
  {
    var lp := IndexOf(l.headers, key);
    assert LeftLabel(l.headers[lp], key, RemoveAt(r.headers, IndexOf(r.headers, key))) == key;
  }

  /** The right frame has no repeated key value. */
  predicate UniqueKeys(r: Table, key: string)
    requires key in r.headers
  {
    UniqueAt(r.rows, IndexOf(r.headers, key))
  }

  /** The rows of a left join are the joined rows of the left rows. */
  lemma LeftJoinRows(l: Table, r: Table, key: string)
    requires key in l.headers && key in r.headers
    ensures LeftJoin(l, r, key).Ok?
    ensures LeftJoin(l, r, key).value.rows ==
      JoinRows(l.rows, IndexOf(l.headers, key), r.rows, IndexOf(r.headers, key), |l.headers|, |r.headers| - 1)
  {
  }

  /** With unique right keys a left join keeps the row count, and every left
      row, in order and unchanged, at the front of its output row. */
  lemma LeftJoinUniqueKeys(l: Table, r: Table, key: string)
    requires key in l.headers && key in r.headers && UniqueKeys(r, key)
    ensures LeftJoin(l, r, key).Ok?
    ensures |LeftJoin(l, r, key).value.rows| == |l.rows|
    ensures forall i | 0 <= i < |l.rows| ::
      LeftJoin(l, r, key).value.rows[i][..|l.headers|] == l.rows[i]
  {
    var lp, rp, w := IndexOf(l.headers, key), IndexOf(r.headers, key), |r.headers| - 1;
    LeftJoinRows(l, r, key);
    UniqueJoinedRows(l.rows, lp, r.rows, rp, |l.headers|, w);
  }

  /** With unique right keys, a left row without a match gets missing cells
      on the right. */
  lemma LeftJoinUnmatched(l: Table, r: Table, key: string, i: nat)
    requires key in l.headers && key in r.headers && UniqueKeys(r, key) && i < |l.rows|
    requires forall m | 0 <= m < |r.rows| :: r.rows[m][IndexOf(r.headers, key)] != l.rows[i][IndexOf(l.headers, key)]
    ensures LeftJoin(l, r, key).Ok? && |LeftJoin(l, r, key).value.rows| == |l.rows|
    ensures LeftJoin(l, r, key).value.rows[i][|l.headers|..] == Nones(|r.headers| - 1)
  {
    var lp, rp, w := IndexOf(l.headers, key), IndexOf(r.headers, key), |r.headers| - 1;
    LeftJoinRows(l, r, key);
    UniqueJoinedRows(l.rows, lp, r.rows, rp, |l.headers|, w);
  }

  /** With unique right keys, a left row whose key matches right row `m` gets
      that row's cells without its key on the right. */
  lemma LeftJoinMatched(l: Table, r: Table, key: string, i: nat, m: nat)
    requires key in l.headers && key in r.headers && UniqueKeys(r, key) && i < |l.rows| && m < |r.rows|
    requires r.rows[m][IndexOf(r.headers, key)] == l.rows[i][IndexOf(l.headers, key)]
    ensures LeftJoin(l, r, key).Ok? && |LeftJoin(l, r, key).value.rows| == |l.rows|
    ensures LeftJoin(l, r, key).value.rows[i][|l.headers|..] == RemoveAt(r.rows[m], IndexOf(r.headers, key))
  {
    var lp, rp, w := IndexOf(l.headers, key), IndexOf(r.headers, key), |r.headers| - 1;
    LeftJoinRows(l, r, key);
    UniqueJoinedRows(l.rows, lp, r.rows, rp, |l.headers|, w);
  }

  /** The joined rows, when the right keys are unique: one per left row, the
      left row followed by its match without the key, or by missing cells. */
  lemma UniqueJoinedRows(lrows: seq<Row>, lp: nat, rrows: seq<Row>, rp: nat, lwidth: nat, w: nat)
    requires lp < lwidth && rp <= w
    requires forall i | 0 <= i < |lrows| :: |lrows[i]| == lwidth
    requires forall i | 0 <= i < |rrows| :: |rrows[i]| == w + 1
    requires UniqueAt(rrows, rp)
    ensures var out := JoinRows(lrows, lp, rrows, rp, lwidth, w);
      && |out| == |lrows|
      && (forall i | 0 <= i < |lrows| :: out[i][..lwidth] == lrows[i])
      && (forall i | 0 <= i < |lrows| ::
            (forall m | 0 <= m < |rrows| :: rrows[m][rp] != lrows[i][lp]) ==> out[i][lwidth..] == Nones(w))
      && (forall i, m | 0 <= i < |lrows| && 0 <= m < |rrows| ::
            rrows[m][rp] == lrows[i][lp] ==> out[i][lwidth..] == RemoveAt(rrows[m], rp))
  {
    var out := JoinRows(lrows, lp, rrows, rp, lwidth, w);
    JoinRowsUnique(lrows, lp, rrows, rp, lwidth, w);
    forall i | 0 <= i < |lrows|
      ensures out[i][..lwidth] == lrows[i]
      ensures (forall m | 0 <= m < |rrows| :: rrows[m][rp] != lrows[i][lp]) ==> out[i][lwidth..] == Nones(w)
      ensures forall m | 0 <= m < |rrows| && rrows[m][rp] == lrows[i][lp] :: out[i][lwidth..] == RemoveAt(rrows[m], rp)
    {
      JoinRowUnique(lrows[i], lp, rrows, rp, w, out[i]);
    }
  }

  /** The one output row of a left row, when the right keys are unique: the
      left row, then the matching right row without its key, or missing
      cells. */
  lemma JoinRowUnique(lrow: Row, lp: nat, rrows: seq<Row>, rp: nat, width: nat, row: Row)
    requires lp < |lrow| && rp <= width
    requires forall i | 0 <= i < |rrows| :: |rrows[i]| == width + 1
    requires UniqueAt(rrows, rp) && [row] == JoinRow(lrow, lp, rrows, rp, width)
    ensures |row| == |lrow| + width && row[..|lrow|] == lrow
    ensures (forall m | 0 <= m < |rrows| :: rrows[m][rp] != lrow[lp]) ==> row[|lrow|..] == Nones(width)
    ensures forall m | 0 <= m < |rrows| && rrows[m][rp] == lrow[lp] :: row[|lrow|..] == RemoveAt(rrows[m], rp)
  {
    var jr := JoinRow(lrow, lp, rrows, rp, width);
    MatchesUnique(rrows, rp, lrow[lp]);
    var ms := Matches(rrows, rp, lrow[lp]);
    if ms == [] {
      assert row == lrow + Nones(width);
    } else {
      assert jr[0] == lrow + RemoveAt(ms[0], rp);
      assert row[|lrow|..] == RemoveAt(ms[0], rp);
    }
  }
}
