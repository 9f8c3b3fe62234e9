/** The row view of a table (pyaxols/atypes/table.py): reading, appending,
    dropping, finding and counting rows.

    A table whose columns all have the same length reads as a list of rows;
    `WithRows` goes the other way, filling a table's columns from rows. */
module RowOps {
  import opened Values
  import opened Dicts
  import opened Column
  import opened Frames

  /** Every column is as long as the first one. */
  predicate Rect(f: Frame)
    requires f.Valid()
  {
    Even(Cols(f), Height(f))
  }

  /** Every column holds `h` elements. */
  predicate Even(cs: seq<Col>, h: nat) {
    forall j :: 0 <= j < |cs| ==> |cs[j].data| == h
  }

  /** Every row has `n` elements. */
  predicate Fits(rows: seq<seq<Value>>, n: nat) {
    forall row :: row in rows ==> |row| == n
  }

  /** A row of the right length keeps a list of rows fitting. */
  lemma FitsSnoc(rows: seq<seq<Value>>, row: seq<Value>, n: nat)
    requires Fits(rows, n) && |row| == n
    ensures Fits(rows + [row], n)
  {
  }

  /** The rows of columns that all hold `h` elements. */
  function RowsOf(cs: seq<Col>, h: nat): (r: seq<seq<Value>>)
    requires Even(cs, h)
    ensures |r| == h && Fits(r, |cs|)
    ensures forall i, j :: 0 <= i < h && 0 <= j < |cs| ==> r[i][j] == cs[j].data[i]
  {
    seq(h, i requires 0 <= i < h => seq(|cs|, j requires 0 <= j < |cs| => cs[j].data[i]))
  }

  /** The rows of a rectangular table, top to bottom. */
  function Rows(f: Frame): (r: seq<seq<Value>>)
    requires f.Valid() && Rect(f)
    ensures |r| == Height(f) && Fits(r, |f.keys|)
  {
    RowsOf(Cols(f), Height(f))
  }

  /** Element `j` of every row. */
  function Project(rows: seq<seq<Value>>, j: nat): (r: seq<Value>)
    requires forall i :: 0 <= i < |rows| ==> j < |rows[i]|
    ensures |r| == |rows| && forall i :: 0 <= i < |rows| ==> r[i] == rows[i][j]
  {
    seq(|rows|, i requires 0 <= i < |rows| => rows[i][j])
  }

  /** The columns `cs`, with their names and dtypes, holding `rows`. */
  function Fill(cs: seq<Col>, rows: seq<seq<Value>>): (r: seq<Col>)
    requires Fits(rows, |cs|)
    ensures |r| == |cs| && Even(r, |rows|)
    ensures forall j :: 0 <= j < |cs| ==> r[j] == Col(cs[j].name, cs[j].dtype, Project(rows, j))
  {
    seq(|cs|, j requires 0 <= j < |cs| => Col(cs[j].name, cs[j].dtype, Project(rows, j)))
  }

  /** The table with the keys, names and dtypes of `f` holding `rows`. */
  function WithRows(f: Frame, rows: seq<seq<Value>>): (r: Frame)
    requires f.Valid() && Fits(rows, |f.keys|)
    ensures r.Valid() && r.keys == f.keys && Cols(r) == Fill(Cols(f), rows)
  {
    TabulateCols(f.keys, Fill(Cols(f), rows));
    Tabulate(f.keys, Fill(Cols(f), rows))
  }

  lemma RowsOfFill(cs: seq<Col>, rows: seq<seq<Value>>)
    requires Fits(rows, |cs|)
    ensures RowsOf(Fill(cs, rows), |rows|) == rows
  {
    var r := RowsOf(Fill(cs, rows), |rows|);
    forall i | 0 <= i < |rows| ensures r[i] == rows[i] {
      assert |r[i]| == |rows[i]|;
    }
  }

  lemma FillRowsOf(cs: seq<Col>, h: nat)
    requires Even(cs, h)
    ensures Fill(cs, RowsOf(cs, h)) == cs
  {
    var r := Fill(cs, RowsOf(cs, h));
    forall j | 0 <= j < |cs| ensures r[j] == cs[j] {
      assert Project(RowsOf(cs, h), j) == cs[j].data;
    }
  }

  /** Filling a table with rows and reading them back gives the same rows,
      as long as there is a column to hold them. */
  lemma WithRowsRows(f: Frame, rows: seq<seq<Value>>)
    requires f.Valid() && Fits(rows, |f.keys|)
    ensures Rect(WithRows(f, rows)) && Dtypes(WithRows(f, rows)) == Dtypes(f)
    ensures f.keys != [] ==> Height(WithRows(f, rows)) == |rows| && Rows(WithRows(f, rows)) == rows
  {
    var t := WithRows(f, rows);
    if f.keys != [] {
      assert Height(t) == |Cols(t)[0].data|;
      RowsOfFill(Cols(f), rows);
    }
  }

  /** A rectangular table is the table of its own rows. */
  lemma RowsWithRows(f: Frame)
    requires f.Valid() && Rect(f)
    ensures WithRows(f, Rows(f)) == f
  {
    FillRowsOf(Cols(f), Height(f));
    SameCols(WithRows(f, Rows(f)), f);
  }

  /** Only the keys, names and dtypes of the template matter. */
  lemma WithRowsTwice(f: Frame, a: seq<seq<Value>>, b: seq<seq<Value>>)
    requires f.Valid() && Fits(a, |f.keys|) && Fits(b, |f.keys|)
    ensures WithRows(WithRows(f, a), b) == WithRows(f, b)
  {
    var t := WithRows(WithRows(f, a), b);
    var u := WithRows(f, b);
    assert Cols(t) == Cols(u);
    SameCols(t, u);
  }

  /** A rectangular table's row `i` is `t.i(i)`, negative indices counting
      from the end. */
  lemma RowOfRect(f: Frame, index: int)
    requires f.Valid() && Rect(f) && f.keys != []
    ensures Row(f, index).Ok? <==> InRange(Height(f), index)
    ensures InRange(Height(f), index) ==> Row(f, index) == Ok(Rows(f)[Normalize(Height(f), index)])
  {
    if InRange(Height(f), index) {
      var r := Row(f, index).value;
      assert r == Rows(f)[Normalize(Height(f), index)];
    } else {
      assert Cols(f)[0] == ColAt(f, 0);
    }
  }

  /** Each element of `row` is None or an instance of its column's dtype:
      what `append_row` checks. */
  predicate RowFits(kinds: seq<Kind>, row: seq<Value>)
    requires |kinds| == |row|
  {
    forall j :: 0 <= j < |row| ==> row[j] == None || IsInstance(kinds[j], row[j])
  }

  // ---------------------------------------------------------------------
  // Appending and dropping

  /** The columns with `row[j]` appended to column `j`. */
  function Push(cs: seq<Col>, row: seq<Value>): (r: seq<Col>)
    requires |row| == |cs|
    ensures |r| == |cs| && forall j :: 0 <= j < |cs| ==> r[j] == Col(cs[j].name, cs[j].dtype, cs[j].data + [row[j]])
  {
    seq(|cs|, j requires 0 <= j < |cs| => Col(cs[j].name, cs[j].dtype, cs[j].data + [row[j]]))
  }

  /** The table with `row[j]` appended to column `j`. */
  function Extend(f: Frame, row: seq<Value>): (r: Frame)
    requires f.Valid() && |row| == |f.keys|
    ensures r.Valid() && r.keys == f.keys && Cols(r) == Push(Cols(f), row)
  {
    TabulateCols(f.keys, Push(Cols(f), row));
    Tabulate(f.keys, Push(Cols(f), row))
  }

  /** `t.append_row(row)`: TypeError for an argument that is not a sequence,
      ValueError for a row whose length is not the number of columns,
      TypeError for an element that is neither None nor an instance of its
      column's dtype; otherwise each element goes to the end of its column. */
  function AppendRow(f: Frame, row: Arg<seq<Value>>): (r: Result<Frame>)
    requires f.Valid()
    ensures !row.Given? ==> r == Err(TypeError)
    ensures row.Given? && |row.value| != |f.keys| ==> r == Err(ValueError)
    ensures row.Given? && |row.value| == |f.keys| ==>
      r == if RowFits(Dtypes(f), row.value) then Ok(Extend(f, row.value)) else Err(TypeError)
  {
    match row {
      case Given(v) =>
        if |v| != |f.keys| then Err(ValueError)
        else if !RowFits(Dtypes(f), v) then Err(TypeError)
        else Ok(Extend(f, v))
      case _ => Err(TypeError)
    }
  }

  /** Appending a row that passes the checks adds it as the last row. */
  lemma AppendRowRows(f: Frame, rows: seq<seq<Value>>, row: seq<Value>)
    requires f.Valid() && Fits(rows, |f.keys|) && |row| == |f.keys| && RowFits(Dtypes(f), row)
    ensures AppendRow(WithRows(f, rows), Given(row)) == Ok(WithRows(f, rows + [row]))
  {
    WithRowsDtypes(f, rows);
    ExtendFill(f, rows, row);
  }

  lemma WithRowsDtypes(f: Frame, rows: seq<seq<Value>>)
    requires f.Valid() && Fits(rows, |f.keys|)
    ensures Dtypes(WithRows(f, rows)) == Dtypes(f)
  {
  }

  lemma ExtendFill(f: Frame, rows: seq<seq<Value>>, row: seq<Value>)
    requires f.Valid() && Fits(rows, |f.keys|) && |row| == |f.keys|
    ensures Extend(WithRows(f, rows), row) == WithRows(f, rows + [row])
  {
    PushFill(Cols(f), rows, row);
    SameCols(Extend(WithRows(f, rows), row), WithRows(f, rows + [row]));
  }

  lemma PushFill(cs: seq<Col>, rows: seq<seq<Value>>, row: seq<Value>)
    requires Fits(rows, |cs|) && |row| == |cs|
    ensures Push(Fill(cs, rows), row) == Fill(cs, rows + [row])
  {
    forall j | 0 <= j < |cs| ensures Push(Fill(cs, rows), row)[j] == Fill(cs, rows + [row])[j] {
      assert Project(rows, j) + [row[j]] == Project(rows + [row], j);
    }
  }

  /** `del s[index]` on one column. */
  function DelCol(c: Col, index: int): (r: Result<Col>)
    ensures r.Ok? <==> InRange(|c.data|, index)
    ensures r.Ok? ==> r.value == Col(c.name, c.dtype, DeleteAt(c.data, index).value)
    ensures r.Err? ==> r.error == IndexError
  {
    match DeleteAt(c.data, index) {
      case Err(e) => Err(e)
      case Ok(d) => Ok(Col(c.name, c.dtype, d))
    }
  }

  /** The step `del s[index]` applied to each column. */
  function Deleter(index: int): Col -> Result<Col> {
    (c: Col) => DelCol(c, index)
  }

  /** `t.drop_row(index)`: `del self._data[col][index]` for each column in
      key order, an IndexError leaving the earlier columns shortened. */
  function DropRow(f: Frame, index: int): (r: (Frame, Outcome))
    requires f.Valid()
    ensures r.0.Valid() && r.0.keys == f.keys
  {
    UpdateEach(f, Deleter(index), 0)
  }

  /** Dropping a row: it succeeds exactly when every column has an element at
      `index`; each column loses that element, or, after an IndexError, only
      the columns before the first short one do. */
  lemma DropRowColumns(f: Frame, index: int)
    requires f.Valid()
    ensures var r := DropRow(f, index); var cs, ds := Cols(f), Cols(r.0);
      (r.1 == Pass <==> forall j :: 0 <= j < |cs| ==> InRange(|cs[j].data|, index)) &&
      (r.1.Fail? ==> r.1.error == IndexError) &&
      (forall j :: 0 <= j < |cs| ==> (ds[j] == cs[j] || DelCol(cs[j], index) == Ok(ds[j]))) &&
      (r.1 == Pass ==> forall j :: 0 <= j < |cs| ==> DelCol(cs[j], index) == Ok(ds[j])) &&
      (r.1.Fail? ==>
        exists k :: 0 <= k < |cs| && !InRange(|cs[k].data|, index) &&
          (forall j :: 0 <= j < k ==> DelCol(cs[j], index) == Ok(ds[j])) &&
          (forall j :: k <= j < |cs| ==> ds[j] == cs[j]))
  {
    UpdateEachColumns(f, Deleter(index));
    UpdateEachStopsAtFirst(f, Deleter(index));
  }

  /** A row dropped without an exception leaves one row fewer. */
  lemma DropOneRow(f: Frame, i: nat)
    requires f.Valid() && i < Height(f) && DropRow(f, i).1 == Pass
    ensures Height(DropRow(f, i).0) == Height(f) - 1
  {
    DropRowColumns(f, i);
    assert DelCol(Cols(f)[0], i) == Ok(Cols(DropRow(f, i).0)[0]);
  }

  /** On a rectangular table with columns, `drop_row` removes one row, or
      raises IndexError and changes nothing. */
  lemma DropRowRows(f: Frame, index: int)
    requires f.Valid() && Rect(f) && f.keys != []
    ensures InRange(Height(f), index) ==>
      DropRow(f, index) == (WithRows(f, DeleteAt(Rows(f), index).value), Pass)
    ensures !InRange(Height(f), index) ==> DropRow(f, index) == (f, Fail(IndexError))
  {
    var r := DropRow(f, index);
    DropRowColumns(f, index);
    var cs := Cols(f);
    assert |cs[0].data| == Height(f);
    if InRange(Height(f), index) {
      DeleteFill(cs, Cols(r.0), Height(f), index);
      SameCols(r.0, WithRows(f, DeleteAt(Rows(f), index).value));
    } else {
      assert Cols(r.0) == cs;
      SameCols(r.0, f);
    }
  }

  /** Deleting element `index` from every column deletes row `index`. */
  lemma DeleteFill(cs: seq<Col>, ds: seq<Col>, h: nat, index: int)
    requires Even(cs, h) && InRange(h, index) && |ds| == |cs|
    requires forall j :: 0 <= j < |cs| ==> DelCol(cs[j], index) == Ok(ds[j])
    ensures Fits(DeleteAt(RowsOf(cs, h), index).value, |cs|)
    ensures ds == Fill(cs, DeleteAt(RowsOf(cs, h), index).value)
  {
    var rows := RowsOf(cs, h);
    var d := DeleteAt(rows, index).value;
    forall j | 0 <= j < |cs| ensures ds[j] == Fill(cs, d)[j] {
      DeleteProject(rows, index, j);
      assert Project(rows, j) == cs[j].data;
    }
  }

  /** Deleting a row deletes that element from every column. */
  lemma DeleteProject(rows: seq<seq<Value>>, index: int, j: nat)
    requires forall i :: 0 <= i < |rows| ==> j < |rows[i]|
    requires InRange(|rows|, index)
    ensures var d := DeleteAt(rows, index).value;
      (forall i :: 0 <= i < |d| ==> j < |d[i]|) && Project(d, j) == DeleteAt(Project(rows, j), index).value
  {
    var d := DeleteAt(rows, index).value;
    var n := Normalize(|rows|, index);
    assert forall i :: 0 <= i < |d| ==> d[i] == rows[if i < n then i else i + 1];
  }

  /** The row has no None: the test `drop_nones` keeps a row by. */
  predicate NoNone(row: seq<Value>) {
    None !in row
  }

  /** `t.drop_nones()` from row `i` on: `while i < shape[1]`, a row holding a
      None is dropped in place and the next row moves up to `i`. */
  function DropNonesFrom(f: Frame, i: nat): (r: (Frame, Outcome))
    requires f.Valid()
    ensures r.0.Valid() && r.0.keys == f.keys
    decreases Height(f) - i
  {
    if i >= Height(f) then (f, Pass)
    else
      match Row(f, i) {
        case Err(e) => (f, Fail(e))
        case Ok(row) =>
          if NoNone(row) then DropNonesFrom(f, i + 1)
          else
            var d := DropRow(f, i);
            if d.1 == Pass then
              DropOneRow(f, i);
              DropNonesFrom(d.0, i)
            else d
      }
  }

  /** `t.drop_nones()`. */
  function DropNones(f: Frame): (r: (Frame, Outcome))
    requires f.Valid()
    ensures r.0.Valid() && r.0.keys == f.keys
  {
    DropNonesFrom(f, 0)
  }

  /** On a rectangular table `drop_nones` keeps exactly the rows without a
      None, in order. */
  lemma DropNonesRows(f: Frame)
    requires f.Valid() && Rect(f)
    ensures DropNones(f) == (WithRows(f, Filter(NoNone, Rows(f))), Pass)
  {
    RowsWithRows(f);
    if f.keys == [] {
      assert Filter(NoNone, Rows(f)) == [];
    } else {
      DropNonesLoop(f, Rows(f), 0);
      assert Rows(f)[..0] + Filter(NoNone, Rows(f)[0..]) == Filter(NoNone, Rows(f));
    }
  }

  /** The rows before `i`, then those from `i` on that hold no None. */
  function KeptFrom(rows: seq<seq<Value>>, i: nat, n: nat): (r: seq<seq<Value>>)
    requires i <= |rows| && Fits(rows, n)
    ensures Fits(r, n)
  {
    rows[..i] + Filter(NoNone, rows[i..])
  }

  lemma {:induction false} DropNonesLoop(t: Frame, rows: seq<seq<Value>>, i: nat)
    requires t.Valid() && t.keys != [] && Fits(rows, |t.keys|) && i <= |rows|
    ensures DropNonesFrom(WithRows(t, rows), i) == (WithRows(t, KeptFrom(rows, i, |t.keys|)), Pass)
    decreases |rows| - i
  {
    if i == |rows| {
      WithRowsRows(t, rows);
      DropNonesDone(WithRows(t, rows), |rows|);
      FilterNothing(rows);
    } else {
      DropNonesTurn(t, rows, i);
      if NoNone(rows[i]) {
        DropNonesLoop(t, rows, i + 1);
        KeptRow(rows, i);
      } else {
        DropNonesLoop(t, rows[..i] + rows[i + 1..], i);
        DroppedRow(rows, i);
      }
    }
  }

  /** One turn of the `drop_nones` loop on a table filled with rows. */
  lemma DropNonesTurn(t: Frame, rows: seq<seq<Value>>, i: nat)
    requires t.Valid() && t.keys != [] && Fits(rows, |t.keys|) && i < |rows|
    ensures NoNone(rows[i]) ==> DropNonesFrom(WithRows(t, rows), i) == DropNonesFrom(WithRows(t, rows), i + 1)
    ensures !NoNone(rows[i]) ==> (Fits(rows[..i] + rows[i + 1..], |t.keys|) &&
      DropNonesFrom(WithRows(t, rows), i) == DropNonesFrom(WithRows(t, rows[..i] + rows[i + 1..]), i))
  {
    WithRowsRows(t, rows);
    DropNonesStep(WithRows(t, rows), i);
    if !NoNone(rows[i]) {
      DropNonesTurnDrop(t, rows, i);
    }
  }

  lemma DropNonesTurnDrop(t: Frame, rows: seq<seq<Value>>, i: nat)
    requires t.Valid() && t.keys != [] && Fits(rows, |t.keys|) && i < |rows|
    ensures Fits(rows[..i] + rows[i + 1..], |t.keys|)
    ensures WithRows(WithRows(t, rows), DeleteAt(rows, i).value) == WithRows(t, rows[..i] + rows[i + 1..])
  {
    DeleteAtIs(rows, i);
    WithRowsTwice(t, rows, rows[..i] + rows[i + 1..]);
  }

  lemma DropNonesDone(f: Frame, i: nat)
    requires f.Valid() && Height(f) <= i
    ensures DropNonesFrom(f, i) == (f, Pass)
  {
  }

  lemma FilterNothing(rows: seq<seq<Value>>)
    ensures rows[..|rows|] + Filter(NoNone, rows[|rows|..]) == rows
  {
  }

  lemma DeleteAtIs<T>(s: seq<T>, i: nat)
    requires i < |s|
    ensures DeleteAt(s, i) == Ok(s[..i] + s[i + 1..])
  {
  }

  lemma KeptRow(rows: seq<seq<Value>>, i: nat)
    requires i < |rows| && NoNone(rows[i])
    ensures rows[..i + 1] + Filter(NoNone, rows[i + 1..]) == rows[..i] + Filter(NoNone, rows[i..])
  {
    FilterKeep(NoNone, rows[i..]);
    assert rows[i..][1..] == rows[i + 1..];
    assert rows[..i + 1] == rows[..i] + [rows[i]];
    Assoc(rows[..i], [rows[i]], Filter(NoNone, rows[i + 1..]));
  }

  lemma DroppedRow(rows: seq<seq<Value>>, i: nat)
    requires i < |rows| && !NoNone(rows[i])
    ensures var d := rows[..i] + rows[i + 1..];
      d[..i] + Filter(NoNone, d[i..]) == rows[..i] + Filter(NoNone, rows[i..])
  {
    var d := rows[..i] + rows[i + 1..];
    assert d[..i] == rows[..i];
    assert d[i..] == rows[i + 1..];
    FilterSkip(NoNone, rows[i..]);
    assert rows[i..][1..] == rows[i + 1..];
  }

  /** `Filter` keeps a first element that satisfies the test... */
  lemma FilterKeep<T>(p: T -> bool, s: seq<T>)
    requires s != [] && p(s[0])
    ensures Filter(p, s) == [s[0]] + Filter(p, s[1..])
  {
  }

  /** ... and skips one that does not. */
  lemma FilterSkip<T>(p: T -> bool, s: seq<T>)
    requires s != [] && !p(s[0])
    ensures Filter(p, s) == Filter(p, s[1..])
  {
  }

  /** One turn of the `drop_nones` loop on a rectangular table. */
  lemma DropNonesStep(f: Frame, i: nat)
    requires f.Valid() && Rect(f) && f.keys != [] && i < Height(f)
    ensures NoNone(Rows(f)[i]) ==> DropNonesFrom(f, i) == DropNonesFrom(f, i + 1)
    ensures !NoNone(Rows(f)[i]) ==> DropNonesFrom(f, i) == DropNonesFrom(WithRows(f, DeleteAt(Rows(f), i).value), i)
  {
    RowOfRect(f, i);
    DropRowRows(f, i);
  }

  // ---------------------------------------------------------------------
  // Finding and counting rows, as `for row in t` does: `len(t)` times

  /** The loop of `contains_row` from row `k` up to row `n`. */
  function FindRow(f: Frame, row: seq<Value>, k: nat, n: nat): (r: Result<bool>)
    requires f.Valid() && k <= n
    ensures r == Ok(true) ==> exists i :: k <= i < n && Row(f, i) == Ok(row)
    ensures r.Err? ==> r.error == IndexError
    decreases n - k
  {
    if k == n then Ok(false)
    else
      match Row(f, k) {
        case Err(e) => Err(e)
        case Ok(r) => if r == row then Ok(true) else FindRow(f, row, k + 1, n)
      }
  }

  /** `t.contains_row(row)` (also `row in t`): ValueError for a row whose length
      is not the number of columns; then the rows `for r in self` yields are
      compared, and that loop runs once per column. */
  function ContainsRow(f: Frame, row: seq<Value>): (r: Result<bool>)
    requires f.Valid()
    ensures |row| != |f.keys| ==> r == Err(ValueError)
    ensures r == Ok(true) ==> exists i :: 0 <= i < |f.keys| && Row(f, i) == Ok(row)
  {
    if |row| != |f.keys| then Err(ValueError) else FindRow(f, row, 0, |f.keys|)
  }

  /** The loop of `row_count` over rows `k` up to `n`. */
  function CountFrom(f: Frame, row: seq<Value>, k: nat, n: nat): (r: Result<nat>)
    requires f.Valid() && k <= n
    ensures r.Ok? ==> r.value <= n - k
    ensures r.Err? ==> r.error == IndexError
    decreases n - k
  {
    if k == n then Ok(0)
    else
      match Row(f, k) {
        case Err(e) => Err(e)
        case Ok(r) =>
          match CountFrom(f, row, k + 1, n) {
            case Err(e) => Err(e)
            case Ok(c) => Ok(if r == row then c + 1 else c)
          }
      }
  }

  /** `t.row_count(row)` as written: ValueError for a row of the wrong length,
      then `for i in range(len(self))`, once per column. */
  function RowCount(f: Frame, row: seq<Value>): (r: Result<nat>)
    requires f.Valid()
    ensures |row| != |f.keys| ==> r == Err(ValueError)
    ensures r.Ok? ==> r.value <= |f.keys|
  {
    if |row| != |f.keys| then Err(ValueError) else CountFrom(f, row, 0, |f.keys|)
  }

  /** `row_count` as its documentation describes it: over every row. */
  function RowCountAll(f: Frame, row: seq<Value>): (r: Result<nat>)
    requires f.Valid()
    ensures |row| != |f.keys| ==> r == Err(ValueError)
    ensures r.Ok? ==> r.value <= Height(f)
  {
    if |row| != |f.keys| then Err(ValueError) else CountFrom(f, row, 0, Height(f))
  }

  /** One turn of the `row_count` loop on a rectangular table. */
  lemma CountStep(f: Frame, row: seq<Value>, k: nat, n: nat)
    requires f.Valid() && Rect(f) && f.keys != [] && k < n
    ensures k >= Height(f) ==> CountFrom(f, row, k, n) == Err(IndexError)
    ensures k < Height(f) ==> (CountFrom(f, row, k, n).Ok? <==> CountFrom(f, row, k + 1, n).Ok?)
    ensures k < Height(f) && CountFrom(f, row, k + 1, n).Ok? ==>
      CountFrom(f, row, k, n).value == CountFrom(f, row, k + 1, n).value + if Rows(f)[k] == row then 1 else 0
  {
    RowOfRect(f, k);
    if k < Height(f) {
      CountTurn(f, row, k, n, Rows(f)[k]);
    }
  }

  /** A turn that reads row `r` at `k` counts it once when it is `row`. */
  lemma CountTurn(f: Frame, row: seq<Value>, k: nat, n: nat, r: seq<Value>)
    requires f.Valid() && k < n && Row(f, k) == Ok(r)
    ensures CountFrom(f, row, k, n).Ok? <==> CountFrom(f, row, k + 1, n).Ok?
    ensures CountFrom(f, row, k + 1, n).Ok? ==>
      CountFrom(f, row, k, n).value == CountFrom(f, row, k + 1, n).value + if r == row then 1 else 0
  {
  }

  /** Occurrences in a slice, counted from its first element. */
  lemma CountSlice(s: seq<seq<Value>>, x: seq<Value>, k: nat, n: nat)
    requires k < n <= |s|
    ensures multiset(s[k..n])[x] == (if s[k] == x then 1 else 0) + multiset(s[k + 1..n])[x]
  {
    assert s[k..n] == [s[k]] + s[k + 1..n];
  }

  /** Counting the rows of a rectangular table from `k` up to `n`. */
  lemma {:induction false} CountFromRows(f: Frame, row: seq<Value>, k: nat, n: nat)
    requires f.Valid() && Rect(f) && f.keys != [] && k <= n
    ensures n <= Height(f) ==> CountFrom(f, row, k, n) == Ok(multiset(Rows(f)[k..n])[row])
    ensures k < n && n > Height(f) ==> CountFrom(f, row, k, n) == Err(IndexError)
    decreases n - k
  {
    if k < n {
      CountStep(f, row, k, n);
      if k < Height(f) {
        CountFromRows(f, row, k + 1, n);
      }
      CountCombine(Rows(f), row, k, n, CountFrom(f, row, k, n), CountFrom(f, row, k + 1, n));
    }
  }

  /** One step of the count, on the rows and the two partial counts alone. */
  lemma CountCombine(s: seq<seq<Value>>, row: seq<Value>, k: nat, n: nat, a: Result<nat>, b: Result<nat>)
    requires k < n
    requires a.Err? ==> a.error == IndexError
    requires k >= |s| ==> a.Err?
    requires k < |s| ==> (a.Ok? <==> b.Ok?)
    requires k < |s| && b.Ok? ==> a.value == b.value + if s[k] == row then 1 else 0
    requires k < |s| && n <= |s| ==> b == Ok(multiset(s[k + 1..n])[row])
    requires k < |s| && k + 1 < n && n > |s| ==> b == Err(IndexError)
    ensures n <= |s| ==> a == Ok(multiset(s[k..n])[row])
    ensures n > |s| ==> a == Err(IndexError)
  {
    if n <= |s| {
      CountSlice(s, row, k, n);
    }
  }

  /** The corrected count is the number of occurrences of the row. */
  lemma RowCountAllCounts(f: Frame, row: seq<Value>)
    requires f.Valid() && Rect(f) && |row| == |f.keys|
    ensures RowCountAll(f, row) == Ok(multiset(Rows(f))[row])
  {
    if f.keys != [] {
      CountFromRows(f, row, 0, Height(f));
      assert Rows(f)[0..Height(f)] == Rows(f);
    }
  }

  /** As written, `row_count` counts among the first `len(t)` rows only, and
      raises IndexError when the table has fewer rows than columns. */
  lemma RowCountFirstRows(f: Frame, row: seq<Value>)
    requires f.Valid() && Rect(f) && |row| == |f.keys| && f.keys != []
    ensures |f.keys| <= Height(f) ==> RowCount(f, row) == Ok(multiset(Rows(f)[..|f.keys|])[row])
    ensures |f.keys| > Height(f) ==> RowCount(f, row) == Err(IndexError)
  {
    CountFromRows(f, row, 0, |f.keys|);
    if |f.keys| <= Height(f) {
      assert Rows(f)[0..|f.keys|] == Rows(f)[..|f.keys|];
    }
  }

  /** The one-column table holding `1` twice. */
  function Twice(): (f: Frame)
    ensures f.Valid() && f.keys == ["a"] && Rect(f) && Height(f) == 2
    ensures Rows(f) == [[Int(1)], [Int(1)]]
  {
    var f := Tabulate(["a"], [Col("a", IntType, [Int(1), Int(1)])]);
    assert Cols(f) == [Col("a", IntType, [Int(1), Int(1)])];
    var r := Rows(f);
    assert r[0][0] == Int(1) && r[1][0] == Int(1);
    assert r[0] == [Int(1)] && r[1] == [Int(1)];
    f
  }

  /** On that table `row_count((1,))` answers 1: only the first row is looked at. */
  lemma RowCountMissesRows()
    ensures RowCount(Twice(), [Int(1)]) == Ok(1)
    ensures RowCountAll(Twice(), [Int(1)]) == Ok(2)
  {
    var f := Twice();
    RowCountFirstRows(f, [Int(1)]);
    RowCountAllCounts(f, [Int(1)]);
    assert Rows(f)[..1] == [[Int(1)]];
  }

  /** One turn of the `contains_row` loop on a rectangular table. */
  lemma FindStep(f: Frame, row: seq<Value>, k: nat, n: nat)
    requires f.Valid() && Rect(f) && f.keys != [] && k < n
    ensures k >= Height(f) ==> FindRow(f, row, k, n) == Err(IndexError)
    ensures k < Height(f) ==> (FindRow(f, row, k, n) ==
      if Rows(f)[k] == row then Ok(true) else FindRow(f, row, k + 1, n))
  {
    RowOfRect(f, k);
  }

  /** Membership in a slice, decided from its first element. */
  lemma InSlice(s: seq<seq<Value>>, x: seq<Value>, k: nat, n: nat)
    requires k < n <= |s|
    ensures x in s[k..n] <==> s[k] == x || x in s[k + 1..n]
  {
    assert s[k..n] == [s[k]] + s[k + 1..n];
  }

  /** Searching the rows of a rectangular table from `k` up to `n`. */
  lemma {:induction false} FindRowRows(f: Frame, row: seq<Value>, k: nat, n: nat)
    requires f.Valid() && Rect(f) && f.keys != [] && k <= n
    ensures FindRow(f, row, k, n) ==
      if row in Rows(f)[Min(k, Height(f))..Min(n, Height(f))] then Ok(true)
      else if k < n && n > Height(f) then Err(IndexError) else Ok(false)
    decreases n - k
  {
    if k < n {
      FindStep(f, row, k, n);
      if k < Height(f) {
        FindRowRows(f, row, k + 1, n);
        InSlice(Rows(f), row, k, Min(n, Height(f)));
      }
    }
  }

  /** `contains_row` finds a row among the first `len(t)` rows; past the last
      row it raises IndexError. */
  lemma ContainsRowRows(f: Frame, row: seq<Value>)
    requires f.Valid() && Rect(f) && |row| == |f.keys|
    ensures ContainsRow(f, row) ==
      if row in Rows(f)[..Min(|f.keys|, Height(f))] then Ok(true)
      else if |f.keys| > Height(f) then Err(IndexError) else Ok(false)
  {
    if f.keys != [] {
      FindRowRows(f, row, 0, |f.keys|);
      assert Rows(f)[Min(0, Height(f))..Min(|f.keys|, Height(f))] == Rows(f)[..Min(|f.keys|, Height(f))];
    }
  }

  /** The search `contains_row` is evidently meant to make: over every row. */
  function ContainsRowAll(f: Frame, row: seq<Value>): (r: Result<bool>)
    requires f.Valid()
    ensures |row| != |f.keys| ==> r == Err(ValueError)
  {
    if |row| != |f.keys| then Err(ValueError) else FindRow(f, row, 0, Height(f))
  }

  /** The corrected search answers whether the row is one of the table's rows. */
  lemma ContainsRowAllFinds(f: Frame, row: seq<Value>)
    requires f.Valid() && Rect(f) && |row| == |f.keys|
    ensures ContainsRowAll(f, row) == Ok(row in Rows(f))
  {
    if f.keys != [] {
      FindRowRows(f, row, 0, Height(f));
      assert Rows(f)[Min(0, Height(f))..Min(Height(f), Height(f))] == Rows(f);
    }
  }

  // ---------------------------------------------------------------------
  // head, tail and union_all on rows

  /** `cs` holds every column of `f` cut to the positions `lo..hi`. */
  ghost predicate Sliced(f: Frame, cs: seq<Col>, lo: nat, hi: nat)
    requires f.Valid() && Rect(f) && lo <= hi <= Height(f)
  {
    |cs| == |f.keys| &&
    forall j :: 0 <= j < |cs| ==> cs[j] == Col(ColAt(f, j).name, ColAt(f, j).dtype, ColAt(f, j).data[lo..hi])
  }

  /** Cutting every column of a rectangular table to the positions `lo..hi`
      and building a table from the pieces gives rows `lo..hi`. */
  lemma SliceRows(ed: Edition, conv: Converter, f: Frame, cs: seq<Col>, lo: nat, hi: nat)
    requires f.Valid() && Rect(f) && lo <= hi <= Height(f)
    requires Sliced(f, cs, lo, hi)
    ensures Init(ed, conv, Tabulate(f.keys, cs)) == WithRows(f, Rows(f)[lo..hi])
  {
    SlicedTable(f, cs, lo, hi);
    InitRect(ed, conv, WithRows(f, Rows(f)[lo..hi]));
  }

  /** The table built from the cut columns is the table of rows `lo..hi`. */
  lemma SlicedTable(f: Frame, cs: seq<Col>, lo: nat, hi: nat)
    requires f.Valid() && Rect(f) && lo <= hi <= Height(f)
    requires Sliced(f, cs, lo, hi)
    ensures Tabulate(f.keys, cs) == WithRows(f, Rows(f)[lo..hi])
  {
    TabulateCols(f.keys, cs);
    SliceCols(f, cs, lo, hi);
    SameCols(Tabulate(f.keys, cs), WithRows(f, Rows(f)[lo..hi]));
  }

  /** Building a rectangular table changes nothing in it. */
  lemma InitRect(ed: Edition, conv: Converter, d: Frame)
    requires d.Valid() && Rect(d)
    ensures Init(ed, conv, d) == d
  {
    SmoothEven(ed, conv, d);
  }

  lemma SliceCols(f: Frame, cs: seq<Col>, lo: nat, hi: nat)
    requires f.Valid() && Rect(f) && lo <= hi <= Height(f)
    requires Sliced(f, cs, lo, hi)
    ensures Cols(WithRows(f, Rows(f)[lo..hi])) == cs
  {
    var w := WithRows(f, Rows(f)[lo..hi]);
    forall j | 0 <= j < |cs| ensures Cols(w)[j] == cs[j] {
      ProjectSlice(Cols(f), Height(f), lo, hi, j);
    }
  }

  lemma ProjectSlice(cs: seq<Col>, h: nat, lo: nat, hi: nat, j: nat)
    requires Even(cs, h) && lo <= hi <= h && j < |cs|
    ensures Project(RowsOf(cs, h)[lo..hi], j) == cs[j].data[lo..hi]
  {
  }

  /** `t.head(n)` of a rectangular table of settled columns holds its rows
      `[:n]`, for every `n`, negative ones included. */
  lemma HeadRows(ed: Edition, conv: Converter, f: Frame, n: int)
    requires f.Valid() && Rect(f)
    requires forall j :: 0 <= j < |f.keys| ==> Settled(ed, conv, ColAt(f, j))
    ensures Frames.Head(ed, conv, f, n) == Ok(WithRows(f, Prefix(Rows(f), n)))
  {
    var b := Bound(n, Height(f));
    PrefixAt(Rows(f), n, b, Height(f));
    HeadSliced(ed, conv, f, n, b, Prefix(Rows(f), n));
  }

  /** `t.head(n)` holds the rows before `Bound(n, H)`. */
  lemma HeadSliced(ed: Edition, conv: Converter, f: Frame, n: int, b: nat, rows: seq<seq<Value>>)
    requires f.Valid() && Rect(f) && b == Bound(n, Height(f))
    requires forall j :: 0 <= j < |f.keys| ==> Settled(ed, conv, ColAt(f, j))
    requires rows == Rows(f)[0..b]
    ensures Fits(rows, |f.keys|) && Frames.Head(ed, conv, f, n) == Ok(WithRows(f, rows))
  {
    var cs := HeadColumns(ed, conv, f, n);
    SliceRows(ed, conv, f, cs, 0, b);
  }

  /** The head of every column of the table. */
  lemma HeadColumns(ed: Edition, conv: Converter, f: Frame, n: int) returns (cs: seq<Col>)
    requires f.Valid() && Rect(f)
    requires forall j :: 0 <= j < |f.keys| ==> Settled(ed, conv, ColAt(f, j))
    ensures Sliced(f, cs, 0, Bound(n, Height(f)))
    ensures Frames.Head(ed, conv, f, n) == Ok(Init(ed, conv, Tabulate(f.keys, cs)))
  {
    var b := Bound(n, Height(f));
    cs := seq(|f.keys|, j requires 0 <= j < |f.keys| => Col(ColAt(f, j).name, ColAt(f, j).dtype, ColAt(f, j).data[0..b]));
    forall j | 0 <= j < |f.keys| ensures Column.Head(ed, conv, ColAt(f, j), n) == Ok(cs[j]) {
      assert ColAt(f, j).data[0..b] == ColAt(f, j).data[..b];
      RebuildSettled(ed, conv, ColAt(f, j), ColAt(f, j).data[..b]);
    }
    HeadOfCols(ed, conv, f, n, cs);
  }

  /** The rows `[:n]` are the rows before `Bound(n, H)`. */
  lemma PrefixAt<T>(s: seq<T>, n: int, b: nat, h: nat)
    requires h == |s| && b == Bound(n, h)
    ensures b <= h && Prefix(s, n) == s[0..b]
  {
  }

  /** `t.tail(n)` of a rectangular table of settled columns holds its rows
      `[-n:]`, for every `n`; so `tail(0)` is the whole table. */
  lemma TailRows(ed: Edition, conv: Converter, f: Frame, n: int)
    requires f.Valid() && Rect(f)
    requires forall j :: 0 <= j < |f.keys| ==> Settled(ed, conv, ColAt(f, j))
    ensures Frames.Tail(ed, conv, f, n) == Ok(WithRows(f, Suffix(Rows(f), -n)))
  {
    var b := Bound(-n, Height(f));
    SuffixAt(Rows(f), -n, b, Height(f));
    TailSliced(ed, conv, f, n, b, Suffix(Rows(f), -n));
  }

  /** `t.tail(n)` holds the rows from `Bound(-n, H)` on. */
  lemma TailSliced(ed: Edition, conv: Converter, f: Frame, n: int, b: nat, rows: seq<seq<Value>>)
    requires f.Valid() && Rect(f) && b == Bound(-n, Height(f))
    requires forall j :: 0 <= j < |f.keys| ==> Settled(ed, conv, ColAt(f, j))
    requires rows == Rows(f)[b..Height(f)]
    ensures Fits(rows, |f.keys|) && Frames.Tail(ed, conv, f, n) == Ok(WithRows(f, rows))
  {
    var cs := TailColumns(ed, conv, f, n);
    SliceRows(ed, conv, f, cs, b, Height(f));
  }

  /** `SuffixSlice` with the bound and the length given. */
  lemma SuffixAt<T>(s: seq<T>, n: int, b: nat, h: nat)
    requires h == |s| && b == Bound(n, h)
    ensures b <= h && Suffix(s, n) == s[b..h]
  {
    SuffixSlice(s, n);
  }

  /** The tail of every column of the table. */
  lemma TailColumns(ed: Edition, conv: Converter, f: Frame, n: int) returns (cs: seq<Col>)
    requires f.Valid() && Rect(f)
    requires forall j :: 0 <= j < |f.keys| ==> Settled(ed, conv, ColAt(f, j))
    ensures Sliced(f, cs, Bound(-n, Height(f)), Height(f))
    ensures Frames.Tail(ed, conv, f, n) == Ok(Init(ed, conv, Tabulate(f.keys, cs)))
  {
    var b := Bound(-n, Height(f));
    cs := seq(|f.keys|, j requires 0 <= j < |f.keys| => Col(ColAt(f, j).name, ColAt(f, j).dtype, ColAt(f, j).data[b..Height(f)]));
    forall j | 0 <= j < |f.keys| ensures Column.Tail(ed, conv, ColAt(f, j), n) == Ok(cs[j]) {
      assert Suffix(ColAt(f, j).data, -n) == ColAt(f, j).data[b..Height(f)];
      RebuildSettled(ed, conv, ColAt(f, j), ColAt(f, j).data[b..Height(f)]);
    }
    TailOfCols(ed, conv, f, n, cs);
  }

  lemma SuffixSlice<T>(s: seq<T>, n: int)
    ensures Suffix(s, n) == s[Bound(n, |s|)..|s|]
  {
  }

  /** For `n >= 0` the head is the first `min(n, H)` rows and the tail the
      last `min(n, H)`, except that `tail(0)` is every row, since `-0` is `0`. */
  lemma HeadTailCounts(rows: seq<seq<Value>>, n: int)
    requires n >= 0
    ensures var m := Min(n, |rows|);
      Prefix(rows, n) == rows[..m] &&
      (n > 0 ==> Suffix(rows, -n) == rows[|rows| - m..]) &&
      (n == 0 ==> Suffix(rows, -n) == rows)
  {
  }

  /** `d` has the names, dtypes and column order of `f`, and its rows are the
      rows of `f` followed by the rows of `g` read in the column order of `f`. */
  ghost predicate Stacked(d: Frame, f: Frame, g: Frame)
    requires d.Valid() && f.Valid() && g.Valid() && Rect(f) && f.entries.Keys == g.entries.Keys
  {
    d.keys == f.keys && Rect(d) && Dtypes(d) == Dtypes(f) &&
    (f.keys != [] ==>
      Even(Picked(g, f.keys), Height(g)) && Height(d) == Height(f) + Height(g) &&
      Rows(d) == Rows(f) + RowsOf(Picked(g, f.keys), Height(g)))
  }

  /** `t.union_all(other)` of two rectangular tables with the same names, the
      same typed dtypes by name and settled columns stacks the other table's
      rows below this table's rows. */
  lemma UnionAllRows(ed: Edition, conv: Converter, f: Frame, g: Frame)
    requires f.Valid() && g.Valid() && Rect(f) && Rect(g) && f.entries.Keys == g.entries.Keys
    requires forall j :: 0 <= j < |f.keys| ==>
      ColAt(f, j).dtype != ObjectType && Settled(ed, conv, ColAt(f, j)) &&
      g.entries[f.keys[j]].dtype == ColAt(f, j).dtype && Settled(ed, conv, g.entries[f.keys[j]])
    ensures UnionAll(ed, conv, f, g).Ok? && Stacked(UnionAll(ed, conv, f, g).value, f, g)
  {
    var cs := UnionColumns(ed, conv, f, g);
    UnionAllOfCols(ed, conv, f, g, cs);
    StackedCols(f, g, cs);
    SmoothEven(ed, conv, Tabulate(f.keys, cs));
  }

  lemma StackedCols(f: Frame, g: Frame, cs: seq<Col>)
    requires f.Valid() && g.Valid() && Rect(f) && f.entries.Keys == g.entries.Keys
    requires Appended(f, g, cs) && Even(Picked(g, f.keys), Height(g))
    ensures var d := Tabulate(f.keys, cs);
      Stacked(d, f, g) && forall j :: 0 <= j < |d.keys| ==> |ColAt(d, j).data| == Height(d)
  {
    StackedShape(f, g, cs);
    if f.keys != [] {
      StackedRows(f, g, cs);
    }
  }

  lemma StackedShape(f: Frame, g: Frame, cs: seq<Col>)
    requires f.Valid() && g.Valid() && Rect(f) && f.entries.Keys == g.entries.Keys
    requires Appended(f, g, cs) && Even(Picked(g, f.keys), Height(g))
    ensures var d := Tabulate(f.keys, cs);
      Rect(d) && Dtypes(d) == Dtypes(f) && (f.keys != [] ==> Height(d) == Height(f) + Height(g)) &&
      forall j :: 0 <= j < |d.keys| ==> |ColAt(d, j).data| == Height(d)
  {
    AppendedEven(f, g, cs);
    TabulateEven(f.keys, cs, Height(f) + Height(g));
    var d := Tabulate(f.keys, cs);
    assert Dtypes(d) == Dtypes(f);
  }

  /** Columns of one length, tabulated, make a rectangular table of that
      height with their dtypes. */
  lemma TabulateEven(names: seq<string>, cs: seq<Col>, h: nat)
    requires Distinct(names) && |names| == |cs| && Even(cs, h)
    ensures var d := Tabulate(names, cs);
      Rect(d) && (names != [] ==> Height(d) == h) &&
      (forall j :: 0 <= j < |d.keys| ==> |ColAt(d, j).data| == Height(d)) &&
      forall j :: 0 <= j < |cs| ==> Dtypes(d)[j] == cs[j].dtype
  {
    TabulateCols(names, cs);
  }

  /** Each appended column keeps its dtype and holds the rows of both tables. */
  lemma AppendedEven(f: Frame, g: Frame, cs: seq<Col>)
    requires f.Valid() && g.Valid() && Rect(f) && f.entries.Keys == g.entries.Keys
    requires Appended(f, g, cs) && Even(Picked(g, f.keys), Height(g))
    ensures Even(cs, Height(f) + Height(g))
    ensures forall j :: 0 <= j < |cs| ==> cs[j].dtype == ColAt(f, j).dtype
  {
    forall j | 0 <= j < |cs| ensures |cs[j].data| == Height(f) + Height(g) {
      assert Cols(f)[j] == ColAt(f, j);
    }
  }

  lemma StackedRows(f: Frame, g: Frame, cs: seq<Col>)
    requires f.Valid() && g.Valid() && Rect(f) && f.entries.Keys == g.entries.Keys && f.keys != []
    requires Appended(f, g, cs) && Even(Picked(g, f.keys), Height(g))
    requires Rect(Tabulate(f.keys, cs)) && Height(Tabulate(f.keys, cs)) == Height(f) + Height(g)
    ensures Rows(Tabulate(f.keys, cs)) == Rows(f) + RowsOf(Picked(g, f.keys), Height(g))
  {
    var picked := Picked(g, f.keys);
    AppendedData(f, g, cs);
    StackTabulated(f.keys, Cols(f), picked, cs, Height(f), Height(g));
  }

  /** Tabulated columns that hold the elements of `a` followed by those of
      `b` hold the rows of `a` followed by the rows of `b`. */
  lemma StackTabulated(names: seq<string>, a: seq<Col>, b: seq<Col>, cs: seq<Col>, ha: nat, hb: nat)
    requires Distinct(names) && names != [] && |names| == |a| == |b| == |cs|
    requires Even(a, ha) && Even(b, hb)
    requires forall j :: 0 <= j < |cs| ==> cs[j].data == a[j].data + b[j].data
    ensures Rect(Tabulate(names, cs)) && Rows(Tabulate(names, cs)) == RowsOf(a, ha) + RowsOf(b, hb)
  {
    StackRows(a, b, cs, ha, hb);
    TabulateRows(names, cs, ha + hb);
  }

  /** The rows of tabulated columns of one length are the rows of those columns. */
  lemma TabulateRows(names: seq<string>, cs: seq<Col>, h: nat)
    requires Distinct(names) && |names| == |cs| && names != [] && Even(cs, h)
    ensures Rect(Tabulate(names, cs)) && Rows(Tabulate(names, cs)) == RowsOf(cs, h)
  {
    TabulateEven(names, cs, h);
    TabulateCols(names, cs);
  }

  /** The columns of `f` with the elements of `g`'s column of the same name
      after their own. */
  ghost predicate Appended(f: Frame, g: Frame, cs: seq<Col>)
    requires f.Valid() && g.Valid() && f.entries.Keys == g.entries.Keys
  {
    |cs| == |f.keys| &&
    forall j :: 0 <= j < |cs| ==>
      cs[j] == Col(ColAt(f, j).name, ColAt(f, j).dtype, ColAt(f, j).data + Picked(g, f.keys)[j].data)
  }

  lemma AppendedData(f: Frame, g: Frame, cs: seq<Col>)
    requires f.Valid() && g.Valid() && f.entries.Keys == g.entries.Keys && Appended(f, g, cs)
    ensures |Picked(g, f.keys)| == |cs| == |Cols(f)|
    ensures forall j :: 0 <= j < |cs| ==> cs[j].data == Cols(f)[j].data + Picked(g, f.keys)[j].data
  {
  }

  /** Columns holding the elements of `a` followed by those of `b` hold the
      rows of `a` followed by the rows of `b`. */
  lemma StackRows(a: seq<Col>, b: seq<Col>, cs: seq<Col>, ha: nat, hb: nat)
    requires Even(a, ha) && Even(b, hb) && |a| == |b| == |cs|
    requires forall j :: 0 <= j < |cs| ==> cs[j].data == a[j].data + b[j].data
    ensures Even(cs, ha + hb) && RowsOf(cs, ha + hb) == RowsOf(a, ha) + RowsOf(b, hb)
  {
    var r := RowsOf(cs, ha + hb);
    var s := RowsOf(a, ha) + RowsOf(b, hb);
    forall i | 0 <= i < ha + hb ensures r[i] == s[i] {
      if i < ha {
        assert forall j :: 0 <= j < |cs| ==> r[i][j] == a[j].data[i];
      } else {
        assert forall j :: 0 <= j < |cs| ==> r[i][j] == b[j].data[i - ha];
      }
    }
  }

  /** The sum of every column with the other table's column of the same name. */
  lemma UnionColumns(ed: Edition, conv: Converter, f: Frame, g: Frame) returns (cs: seq<Col>)
    requires f.Valid() && g.Valid() && Rect(f) && Rect(g) && f.entries.Keys == g.entries.Keys
    requires forall j :: 0 <= j < |f.keys| ==>
      ColAt(f, j).dtype != ObjectType && Settled(ed, conv, ColAt(f, j)) &&
      g.entries[f.keys[j]].dtype == ColAt(f, j).dtype && Settled(ed, conv, g.entries[f.keys[j]])
    ensures |cs| == |f.keys| && Even(Picked(g, f.keys), Height(g))
    ensures forall j :: 0 <= j < |cs| ==>
      Add(ed, conv, ColAt(f, j), SeqOperand(g.entries[f.keys[j]].data)) == Ok(cs[j])
    ensures Appended(f, g, cs)
  {
    cs := seq(|f.keys|, j requires 0 <= j < |f.keys| =>
      Col(ColAt(f, j).name, ColAt(f, j).dtype, ColAt(f, j).data + g.entries[f.keys[j]].data));
    forall j | 0 <= j < |f.keys|
      ensures Add(ed, conv, ColAt(f, j), SeqOperand(g.entries[f.keys[j]].data)) == Ok(cs[j])
    {
      SumSettled(ed, conv, ColAt(f, j), g.entries[f.keys[j]]);
    }
    forall j | 0 <= j < |f.keys| ensures |g.entries[f.keys[j]].data| == Height(g) {
      var p := KeyPos(g, f.keys[j]);
      assert ColAt(g, p) == g.entries[f.keys[j]];
    }
  }

  /** Concatenating two settled typed columns of the same dtype stores both
      lists as they are. */
  lemma SumSettled(ed: Edition, conv: Converter, c: Col, e: Col)
    requires c.dtype != ObjectType && e.dtype == c.dtype && Settled(ed, conv, c) && Settled(ed, conv, e)
    ensures Add(ed, conv, c, SeqOperand(e.data)) == Ok(Col(c.name, c.dtype, c.data + e.data))
  {
    AddDispatch(ed, conv, c, SeqOperand(e.data));
    var d := c.data + e.data;
    forall i | 0 <= i < |d| ensures Coerce(ed, conv, c.dtype, d[i]) == Ok(d[i]) {
      if i >= |c.data| { assert d[i] == e.data[i - |c.data|]; }
    }
    BuildFixed(ed, conv, c.dtype, d);
  }

  /** An object column never takes the concatenation branch of `+`, so a union
      succeeds only when every object column of this table is empty. */
  lemma UnionAllObject(ed: Edition, conv: Converter, f: Frame, g: Frame, j: nat)
    requires f.Valid() && g.Valid() && j < |f.keys| && ColAt(f, j).dtype == ObjectType
    ensures UnionAll(ed, conv, f, g).Ok? ==> ColAt(f, j).data == []
  {
    var c := ColAt(f, j);
    if UnionAll(ed, conv, f, g).Ok? {
      assert Add(ed, conv, c, SeqOperand(g.entries[f.keys[j]].data)).Ok?;
    }
  }
}
