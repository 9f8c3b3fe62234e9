/** Reordering the rows of a table (pyaxols/atypes/table.py): `sorted`,
    `sorted_by_pattern` and `group_by`.

    Each of them permutes every column by one list of indices and rebuilds
    a table with `Table.from_iterable`. */
module Ordering {
  import opened Values
  import opened Dicts
  import opened Ranking
  import opened Column
  import opened Frames
  import opened RowOps
  import opened Queries

  /** Every column is what the constructor of its dtype stores for it. */
  predicate AllSettled(ed: Edition, conv: Converter, f: Frame)
    requires f.Valid()
  {
    forall j :: 0 <= j < |f.keys| ==> Settled(ed, conv, ColAt(f, j))
  }

  /** `tuple(tuple(s[i] for i in p) for s in self._data.values())`: every
      column read at the indices `p`; an index past the end of a column
      raises IndexError. */
  function Permuted(f: Frame, p: seq<nat>): (r: Result<seq<seq<Value>>>)
    requires f.Valid()
    ensures r.Ok? <==> forall j :: 0 <= j < |f.keys| ==> Indices(p, |ColAt(f, j).data|)
    ensures r.Ok? ==> (|r.value| == |f.keys| &&
      forall j :: 0 <= j < |f.keys| ==> r.value[j] == Apply(ColAt(f, j).data, p))
    ensures r.Err? ==> r.error == IndexError
  {
    MapResult((c: Col) => Gather(c.data, p), Cols(f))
  }

  /** The columns named `names`, of dtypes `kinds`, holding `data`. */
  function Columns(names: seq<string>, kinds: seq<Kind>, data: seq<seq<Value>>): (r: seq<Col>)
    requires |names| == |kinds| == |data|
    ensures |r| == |names| && forall j :: 0 <= j < |r| ==> r[j] == Col(names[j], kinds[j], data[j])
  {
    seq(|names|, j requires 0 <= j < |names| => Col(names[j], kinds[j], data[j]))
  }

  /** `Table.from_iterable(data, cols, dtypes)` on lists of one length that
      the constructor stores unchanged: the table whose columns are exactly
      those lists, under the names and dtypes the arguments resolve to. */
  lemma FromIterableFixed(ed: Edition, conv: Converter, data: seq<seq<Value>>, cols: ListArg<string>,
                          dtypes: ListArg<Kind>, names: seq<string>, kinds: seq<Kind>, h: nat)
    requires CreateCols(cols, |data|) == Ok(names) && DtypesArg(dtypes, |data|) == Ok(kinds)
    requires forall j :: 0 <= j < |data| ==> |data[j]| == h && Build(ed, conv, kinds[j], data[j]) == Ok(data[j])
    ensures |names| == |kinds| == |data| && Distinct(names)
    ensures FromIterable(ed, conv, data, cols, dtypes) == Ok(Tabulate(names, Columns(names, kinds, data)))
  {
    BuildColumnsFixed(ed, conv, names, kinds, data, h);
  }

  /** `BuildColumns` on lists of one length that the constructor stores
      unchanged. */
  lemma BuildColumnsFixed(ed: Edition, conv: Converter, names: seq<string>, kinds: seq<Kind>,
                          data: seq<seq<Value>>, h: nat)
    requires Distinct(names) && |names| == |kinds| == |data|
    requires forall j :: 0 <= j < |data| ==> |data[j]| == h && Build(ed, conv, kinds[j], data[j]) == Ok(data[j])
    ensures BuildColumns(ed, conv, names, kinds, data) == Ok(Tabulate(names, Columns(names, kinds, data)))
  {
    var r := BuildColumns(ed, conv, names, kinds, data);
    assert r.Ok?;
    BuildColumnsEven(ed, conv, names, kinds, data, h);
    var t := Tabulate(names, Columns(names, kinds, data));
    TabulateCols(names, Columns(names, kinds, data));
    assert Cols(r.value) == Cols(t);
    SameCols(r.value, t);
  }

  /** Columns that are the projections of the rows `q` make the blank table
      holding `q`. */
  lemma ColumnsOfRows(names: seq<string>, kinds: seq<Kind>, q: seq<seq<Value>>, data: seq<seq<Value>>)
    requires Distinct(names) && |names| == |kinds| == |data| && Fits(q, |names|)
    requires forall j :: 0 <= j < |data| ==> data[j] == Project(q, j)
    ensures Tabulate(names, Columns(names, kinds, data)) == WithRows(Blank(names, kinds), q)
  {
    var t := Blank(names, kinds);
    var a := Tabulate(names, Columns(names, kinds, data));
    var b := WithRows(t, q);
    TabulateCols(names, Columns(names, kinds, data));
    forall j | 0 <= j < |names| ensures Cols(a)[j] == Cols(b)[j] {
      assert ColAt(t, j) == Col(names[j], kinds[j], []);
    }
    SameCols(a, b);
  }

  /** `Table.from_iterable(permuted, self._data.keys(), self.dtypes)`: the
      table rebuilt from its columns permuted by `p`, under its own names
      and dtypes. */
  function Reordered(ed: Edition, conv: Converter, f: Frame, p: seq<nat>): (r: Result<Frame>)
    requires f.Valid()
    ensures r.Ok? ==> r.value.Valid() && r.value.keys == f.keys && Dtypes(r.value) == Dtypes(f)
  {
    match Permuted(f, p) {
      case Err(e) => Err(e)
      case Ok(data) => FromIterable(ed, conv, data, Listed(f.keys), Listed(Dtypes(f)))
    }
  }

  /** On a rectangular table of settled columns, reordering by a list of
      row indices is the template holding the rows in that order. */
  lemma ReorderedRows(ed: Edition, conv: Converter, f: Frame, p: seq<nat>)
    requires f.Valid() && Rect(f) && AllSettled(ed, conv, f) && Indices(p, Height(f))
    ensures Reordered(ed, conv, f, p) == Ok(WithRows(Template(f), Apply(Rows(f), p)))
  {
    var q := Apply(Rows(f), p);
    var data := PermutedRows(f, p);
    forall j | 0 <= j < |data|
      ensures |data[j]| == |p| && Build(ed, conv, Dtypes(f)[j], data[j]) == Ok(data[j])
    {
      SettledApply(ed, conv, ColAt(f, j), p);
    }
    FromIterableFixed(ed, conv, data, Listed(f.keys), Listed(Dtypes(f)), f.keys, Dtypes(f), |p|);
    ColumnsOfRows(f.keys, Dtypes(f), q, data);
    assert Template(f) == Blank(f.keys, Dtypes(f));
  }

  /** The permuted columns of a rectangular table are the columns of its
      permuted rows. */
  lemma PermutedRows(f: Frame, p: seq<nat>) returns (data: seq<seq<Value>>)
    requires f.Valid() && Rect(f) && Indices(p, Height(f))
    ensures Permuted(f, p) == Ok(data) && |data| == |f.keys| && Fits(Apply(Rows(f), p), |f.keys|)
    ensures forall j :: 0 <= j < |data| ==>
      data[j] == Apply(ColAt(f, j).data, p) && data[j] == Project(Apply(Rows(f), p), j)
  {
    assert Permuted(f, p).Ok? by {
      forall j | 0 <= j < |f.keys| ensures Indices(p, |ColAt(f, j).data|) {
        assert Cols(f)[j] == ColAt(f, j);
      }
    }
    data := Permuted(f, p).value;
    var q := Apply(Rows(f), p);
    forall j | 0 <= j < |data| ensures data[j] == Project(q, j) {
      assert Cols(f)[j] == ColAt(f, j);
    }
  }

  /** Rows of `n` elements taken in any order are still rows of `n` elements. */
  lemma ApplyFits(rows: seq<seq<Value>>, p: seq<nat>, n: nat)
    requires Fits(rows, n) && Indices(p, |rows|)
    ensures Fits(Apply(rows, p), n)
  {
    var q := Apply(rows, p);
    forall row | row in q ensures |row| == n {
      var i :| 0 <= i < |q| && q[i] == row;
      assert row == rows[p[i]];
    }
  }

  /** A settled column read at some of its indices is still settled. */
  lemma SettledApply(ed: Edition, conv: Converter, c: Col, p: seq<nat>)
    requires Settled(ed, conv, c) && Indices(p, |c.data|)
    ensures Build(ed, conv, c.dtype, Apply(c.data, p)) == Ok(Apply(c.data, p))
  {
    BuildFixed(ed, conv, c.dtype, Apply(c.data, p));
  }

  // ---------------------------------------------------------------------
  // sorted

  /** `t.sorted(column, desc)` as written: a name that is not a string
      raises TypeError and one that is not a key ValueError; otherwise the
      table has a column, so `argsort` is called, and it is called with a
      keyword `dtype` that it does not take, which raises TypeError. */
  function SortedAsWritten(f: Frame, column: Arg<string>, desc: bool): (r: Result<Frame>)
    requires f.Valid()
    ensures r.Err?
    ensures r.error == (if column.Given? && column.value in f.entries then TypeError
                        else if column.Given? then ValueError else TypeError)
  {
    match column {
      case Given(c) => if c !in f.entries then Err(ValueError) else Err(TypeError)
      case _ => Err(TypeError)
    }
  }

  /** `t.sorted(column, desc)` as it is meant to work: the columns permuted
      by `argsort` of the key column and rebuilt under their names and dtypes. */
  function SortedTable(ed: Edition, conv: Converter, f: Frame, column: Arg<string>,
                       lt: (Value, Value) -> bool, desc: bool): (r: Result<Frame>)
    requires f.Valid()
    ensures !column.Given? ==> r == Err(TypeError)
    ensures column.Given? && column.value !in f.entries ==> r == Err(ValueError)
    ensures r.Ok? ==> r.value.Valid() && r.value.keys == f.keys && Dtypes(r.value) == Dtypes(f)
  {
    match column {
      case Given(c) =>
        if c !in f.entries then Err(ValueError)
        else Reordered(ed, conv, f, Argsort(f.entries[c].data, lt, desc))
      case _ => Err(TypeError)
    }
  }

  /** The order in which `sorted` takes the rows: `argsort` of column `j`. */
  function SortOrder(f: Frame, j: nat, lt: (Value, Value) -> bool, desc: bool): (p: seq<nat>)
    requires f.Valid() && j < |f.keys|
    ensures |p| == |ColAt(f, j).data| && Indices(p, |ColAt(f, j).data|)
  {
    Argsort(ColAt(f, j).data, lt, desc)
  }

  /** Sorting a rectangular table of settled columns by column `j` gives
      its rows in the order `argsort` gives for that column, under the same
      names and dtypes. */
  lemma SortedTableRows(ed: Edition, conv: Converter, f: Frame, j: nat, lt: (Value, Value) -> bool, desc: bool)
    requires f.Valid() && Rect(f) && AllSettled(ed, conv, f) && j < |f.keys|
    ensures Indices(SortOrder(f, j, lt, desc), Height(f))
    ensures SortedTable(ed, conv, f, Given(f.keys[j]), lt, desc) ==
      Ok(WithRows(Template(f), Apply(Rows(f), SortOrder(f, j, lt, desc))))
  {
    assert Cols(f)[j] == ColAt(f, j);
    ReorderedRows(ed, conv, f, SortOrder(f, j, lt, desc));
  }

  /** The rows in the order `sorted` takes them are a permutation of the
      table's rows, ordered by column `j` (ascending, or descending with
      `desc`), and rows with equal keys keep their relative order. */
  lemma SortOrderSorts(f: Frame, j: nat, lt: (Value, Value) -> bool, desc: bool)
    requires f.Valid() && Rect(f) && j < |f.keys| && StrictWeakOrder(lt)
    ensures Indices(SortOrder(f, j, lt, desc), Height(f))
    ensures var p := SortOrder(f, j, lt, desc); var q := Apply(Rows(f), p);
      multiset(q) == multiset(Rows(f)) &&
      forall a, b :: 0 <= a < b < |q| ==>
        (if desc then !lt(q[a][j], q[b][j]) else !lt(q[b][j], q[a][j])) &&
        (p[b] < p[a] ==> if desc then lt(q[b][j], q[a][j]) else lt(q[a][j], q[b][j]))
  {
    var c := ColAt(f, j).data;
    assert Cols(f)[j] == ColAt(f, j);
    var p := SortOrder(f, j, lt, desc);
    var q := Apply(Rows(f), p);
    ArgsortPermutation(c, lt, desc);
    ApplyPermutation(Rows(f), p);
    ArgsortSortedStable(c, lt, desc);
    assert forall a :: 0 <= a < |q| ==> q[a][j] == c[p[a]];
  }

  // ---------------------------------------------------------------------
  // sorted_by_pattern

  /** Python's `<` on the ints of a pattern. */
  function Less(): (int, int) -> bool {
    (a: int, b: int) => a < b
  }

  lemma LessIsStrictWeak()
    ensures StrictWeakOrder(Less())
  {
    forall a: int, b: int, c: int
      ensures Transitive(Less(), a, b, c) && IncomparableTransitive(Less(), a, b, c)
    {
    }
  }

  /** `object` for each of `n` columns: the dtypes of `from_iterable`
      called without any. */
  function Objects(n: nat): (r: seq<Kind>)
    ensures |r| == n && forall j :: 0 <= j < n ==> r[j] == ObjectType
  {
    seq(n, _ => ObjectType)
  }

  /** `t.sorted_by_pattern(pattern)` as written: the pattern must have one
      entry per column (`len(self)`, ValueError otherwise); every column is
      read at `argsort(pattern)` and the lists go to `Table.from_iterable`
      without names or dtypes, which names them `unnamed_i`, makes them
      `object` columns, and raises IndexError when there is no list. This is
      the packaged version; the legacy one, whose names come back as a set,
      is not modelled. */
  function SortedByPatternTable(conv: Converter, f: Frame, pattern: seq<int>): (r: Result<Frame>)
    requires f.Valid()
    ensures |pattern| != |f.keys| ==> r == Err(ValueError)
    ensures f.keys == [] && pattern == [] ==> r == Err(IndexError)
    ensures r.Ok? ==> (r.value.Valid() && r.value.keys == Unnamed(|f.keys|) &&
      Dtypes(r.value) == Objects(|f.keys|))
  {
    if |pattern| != |f.keys| then Err(ValueError)
    else
      match Permuted(f, Argsort(pattern, Less(), false)) {
        case Err(e) => Err(e)
        case Ok(data) => FromIterable(Packaged, conv, data, NoList, NoList)
      }
  }

  /** On a rectangular table with at least as many rows as columns, the
      pattern ranks the first `len(self)` rows: they come out in the order
      `argsort(pattern)` gives, under generated names and `object` dtypes,
      and every later row is dropped. */
  lemma SortedByPatternRows(conv: Converter, f: Frame, pattern: seq<int>)
    requires f.Valid() && Rect(f) && 0 < |pattern| == |f.keys| <= Height(f)
    ensures Indices(Argsort(pattern, Less(), false), Height(f))
    ensures Fits(Apply(Rows(f), Argsort(pattern, Less(), false)), |f.keys|)
    ensures SortedByPatternTable(conv, f, pattern) ==
      Ok(WithRows(Blank(Unnamed(|f.keys|), Objects(|f.keys|)), Apply(Rows(f), Argsort(pattern, Less(), false))))
  {
    var n := |f.keys|;
    var p := Argsort(pattern, Less(), false);
    assert Indices(p, Height(f));
    var q := Apply(Rows(f), p);
    var data := PermutedRows(f, p);
    forall j | 0 <= j < |data|
      ensures |data[j]| == |p| && Build(Packaged, conv, Objects(n)[j], data[j]) == Ok(data[j])
    {
      BuildFixed(Packaged, conv, ObjectType, data[j]);
    }
    FromIterableFixed(Packaged, conv, data, NoList, NoList, Unnamed(n), Objects(n), |p|);
    ColumnsOfRows(Unnamed(n), Objects(n), q, data);
  }

  /** The two-column table of the documentation of `sorted_by_pattern`:
      `a` holds 1, 2, 3 and `b` holds 4, 5, 6, both of dtype `int`. */
  function DocTable(): (f: Frame)
    ensures f.Valid() && f.keys == ["a", "b"]
    ensures f.entries["a"] == Col("a", IntType, [Int(1), Int(2), Int(3)])
    ensures f.entries["b"] == Col("b", IntType, [Int(4), Int(5), Int(6)])
  {
    var names := ["a", "b"];
    assert Apart(names, 0, 1);
    Dict(names, map["a" := Col("a", IntType, [Int(1), Int(2), Int(3)]), "b" := Col("b", IntType, [Int(4), Int(5), Int(6)])])
  }

  /** The documented call `t.sorted_by_pattern([1, 2, 0])` raises ValueError:
      the pattern has one entry per row, and the code compares its length
      with the number of columns. */
  lemma SortedByPatternDocExample(conv: Converter)
    ensures SortedByPatternTable(conv, DocTable(), [1, 2, 0]) == Err(ValueError)
  {
  }

  /** `argsort(pattern)`: the order in which the pattern ranks the rows. */
  function PatternOrder(pattern: seq<int>): (p: seq<nat>)
    ensures |p| == |pattern| && Indices(p, |pattern|)
  {
    Argsort(pattern, Less(), false)
  }

  /** `sorted_by_pattern` as documented: the pattern has one entry per row
      (ValueError otherwise) and the rows come out in the order it ranks
      them, under the table's own names and dtypes. */
  function RowsByPattern(ed: Edition, conv: Converter, f: Frame, pattern: seq<int>): (r: Result<Frame>)
    requires f.Valid()
    ensures |pattern| != Height(f) ==> r == Err(ValueError)
    ensures r.Ok? ==> r.value.Valid() && r.value.keys == f.keys && Dtypes(r.value) == Dtypes(f)
  {
    if |pattern| != Height(f) then Err(ValueError)
    else Reordered(ed, conv, f, PatternOrder(pattern))
  }

  /** On a rectangular table of settled columns, a pattern of one entry per
      row gives the rows in the order the pattern ranks them. */
  lemma RowsByPatternRows(ed: Edition, conv: Converter, f: Frame, pattern: seq<int>)
    requires f.Valid() && Rect(f) && AllSettled(ed, conv, f) && |pattern| == Height(f)
    ensures Indices(PatternOrder(pattern), Height(f))
    ensures Fits(Apply(Rows(f), PatternOrder(pattern)), |f.keys|)
    ensures RowsByPattern(ed, conv, f, pattern) == Ok(WithRows(Template(f), Apply(Rows(f), PatternOrder(pattern))))
  {
    ApplyFits(Rows(f), PatternOrder(pattern), |f.keys|);
    ReorderedRows(ed, conv, f, PatternOrder(pattern));
  }

  /** The rows in pattern order are a permutation of the rows whose pattern
      values never decrease, rows with equal values keeping their order. */
  lemma PatternOrderSorts(rows: seq<seq<Value>>, pattern: seq<int>)
    requires |pattern| == |rows|
    ensures var p := PatternOrder(pattern); var q := Apply(rows, p);
      multiset(q) == multiset(rows) &&
      (forall a, b :: 0 <= a < b < |q| ==> pattern[p[a]] <= pattern[p[b]]) &&
      (forall a, b :: 0 <= a < b < |q| && pattern[p[a]] == pattern[p[b]] ==> p[a] < p[b])
  {
    var p := PatternOrder(pattern);
    LessIsStrictWeak();
    ArgsortPermutation(pattern, Less(), false);
    ApplyPermutation(rows, p);
    ArgsortSortedStable(pattern, Less(), false);
    forall a, b | 0 <= a < b < |p| ensures pattern[p[a]] <= pattern[p[b]] {
      assert !Less()(pattern[p[b]], pattern[p[a]]);
    }
    forall a, b | 0 <= a < b < |p| && pattern[p[a]] == pattern[p[b]] ensures p[a] < p[b] {
      assert p[a] != p[b] by { DistinctAt(p, a, b); }
      assert !Less()(pattern[p[a]], pattern[p[b]]);
    }
  }

  /** The documented example under the documented behaviour: with `int()`
      leaving small ints as they are, the pattern [1, 2, 0] puts the third
      row first, then the first, then the second. */
  lemma RowsByPatternDocExample(ed: Edition, conv: Converter)
    requires forall x :: 1 <= x <= 6 ==> conv(IntType, Int(x)) == Ok(Int(x))
    ensures RowsByPattern(ed, conv, DocTable(), [1, 2, 0]) ==
      Ok(WithRows(Template(DocTable()), DocSorted()))
  {
    DocColumns(ed, conv);
    DocOrder();
    RowsByPatternRows(ed, conv, DocTable(), [1, 2, 0]);
    DocApply();
  }

  /** The documented result: the rows (3, 6), (1, 4), (2, 5). */
  function DocSorted(): (rows: seq<seq<Value>>)
    ensures |rows| == 3 && Fits(rows, 2)
  {
    [[Int(3), Int(6)], [Int(1), Int(4)], [Int(2), Int(5)]]
  }

  /** The rows of the documented table in the order [2, 0, 1]. */
  lemma DocApply()
    ensures Rect(DocTable()) && Height(DocTable()) == 3
    ensures Apply(Rows(DocTable()), [2, 0, 1]) == DocSorted()
  {
    DocRows();
    var rows := Rows(DocTable());
    var q := Apply(rows, [2, 0, 1]);
    assert |q| == 3 && q[0] == rows[2] && q[1] == rows[0] && q[2] == rows[1];
    ThreeRows(q, [Int(3), Int(6)], [Int(1), Int(4)], [Int(2), Int(5)]);
  }

  /** The columns of the documented table are settled. */
  lemma DocColumns(ed: Edition, conv: Converter)
    requires forall x :: 1 <= x <= 6 ==> conv(IntType, Int(x)) == Ok(Int(x))
    ensures Rect(DocTable()) && AllSettled(ed, conv, DocTable()) && Height(DocTable()) == 3
  {
    var f := DocTable();
    DocCols();
    forall j | 0 <= j < 2 ensures Settled(ed, conv, ColAt(f, j)) {
      IntsSettled(ed, conv, ColAt(f, j));
    }
  }

  /** The documented table read row by row. */
  lemma DocRows()
    ensures Rect(DocTable()) && Height(DocTable()) == 3
    ensures Rows(DocTable()) == [[Int(1), Int(4)], [Int(2), Int(5)], [Int(3), Int(6)]]
  {
    DocCols();
    var rows := Rows(DocTable());
    assert rows[0] == [Int(1), Int(4)] && rows[1] == [Int(2), Int(5)] && rows[2] == [Int(3), Int(6)];
    ThreeRows(rows, [Int(1), Int(4)], [Int(2), Int(5)], [Int(3), Int(6)]);
  }

  lemma ThreeRows(q: seq<seq<Value>>, a: seq<Value>, b: seq<Value>, c: seq<Value>)
    requires |q| == 3 && q[0] == a && q[1] == b && q[2] == c
    ensures q == [a, b, c]
  {
  }

  /** A column of ints that `int()` leaves as they are is settled. */
  lemma IntsSettled(ed: Edition, conv: Converter, c: Col)
    requires c.dtype == IntType
    requires forall i :: 0 <= i < |c.data| ==> conv(IntType, c.data[i]) == Ok(c.data[i]) && c.data[i] != None
    ensures Settled(ed, conv, c)
  {
  }

  lemma DocCols()
    ensures Cols(DocTable()) == [Col("a", IntType, [Int(1), Int(2), Int(3)]), Col("b", IntType, [Int(4), Int(5), Int(6)])]
  {
    var f := DocTable();
    assert ColAt(f, 0) == Col("a", IntType, [Int(1), Int(2), Int(3)]);
    assert ColAt(f, 1) == Col("b", IntType, [Int(4), Int(5), Int(6)]);
  }

  /** `argsort([1, 2, 0])` is `[2, 0, 1]`. */
  lemma DocOrder()
    ensures PatternOrder([1, 2, 0]) == [2, 0, 1]
  {
    var pattern := [1, 2, 0];
    var s := Order(Less(), false);
    assert SortIndices(pattern, s, 1) == [0];
    assert SortIndices(pattern, s, 2) == [0, 1] by {
      assert Insert(pattern, s, 1, [0]) == [0] + Insert(pattern, s, 1, []);
    }
    assert SortIndices(pattern, s, 3) == Insert(pattern, s, 2, [0, 1]);
  }

  // ---------------------------------------------------------------------
  // group_by

  /** The lists of `runs`, one after the other. */
  function Flatten<T>(runs: seq<seq<T>>): (r: seq<T>) {
    if runs == [] then [] else runs[0] + Flatten(runs[1..])
  }

  /** The rows of a run all agree with its first row on element `j`. */
  predicate Uniform(run: seq<seq<Value>>, n: nat, j: nat)
    requires Fits(run, n) && j < n
  {
    run != [] && forall i :: 0 <= i < |run| ==> run[i][j] == run[0][j]
  }

  /** Runs `i` and `i + 1` differ on element `j`. */
  predicate Breaks(runs: seq<seq<seq<Value>>>, n: nat, j: nat, i: nat)
    requires i + 1 < |runs| && runs[i] != [] && runs[i + 1] != [] && Fits(runs[i], n) && Fits(runs[i + 1], n) && j < n
  {
    runs[i][0][j] != runs[i + 1][0][j]
  }

  /** `runs` cut rows of `n` elements into maximal runs on element `j`:
      every run is non-empty and agrees on element `j`, and runs next to
      each other differ there. */
  predicate IsRuns(runs: seq<seq<seq<Value>>>, n: nat, j: nat) {
    j < n &&
    (forall t :: 0 <= t < |runs| ==> runs[t] != [] && Fits(runs[t], n)) &&
    (forall t :: 0 <= t < |runs| ==> Uniform(runs[t], n, j)) &&
    (forall i :: 0 <= i < |runs| - 1 ==> Breaks(runs, n, j, i))
  }

  /** The runs of `q` from position `k` on, the first of them continuing
      the run `cur`: a row starts a new run exactly when its element `j`
      differs from the previous row's. */
  function RunsFrom(q: seq<seq<Value>>, n: nat, j: nat, cur: seq<seq<Value>>, k: nat): (r: seq<seq<seq<Value>>>)
    requires Fits(q, n) && Fits(cur, n) && j < n && cur != [] && k <= |q|
    ensures r != [] && forall t :: 0 <= t < |r| ==> r[t] != [] && Fits(r[t], n)
    decreases |q| - k
  {
    if k == |q| then [cur]
    else if q[k][j] != cur[|cur| - 1][j] then [cur] + RunsFrom(q, n, j, [q[k]], k + 1)
    else RunsFrom(q, n, j, cur + [q[k]], k + 1)
  }

  /** The maximal runs of `q` on element `j`. */
  function Runs(q: seq<seq<Value>>, n: nat, j: nat): (r: seq<seq<seq<Value>>>)
    requires Fits(q, n) && j < n
    ensures forall t :: 0 <= t < |r| ==> r[t] != [] && Fits(r[t], n)
  {
    if q == [] then [] else RunsFrom(q, n, j, [q[0]], 1)
  }

  /** The runs put back together are the rows, and they are the maximal runs. */
  lemma RunsSplit(q: seq<seq<Value>>, n: nat, j: nat)
    requires Fits(q, n) && j < n
    ensures Flatten(Runs(q, n, j)) == q && IsRuns(Runs(q, n, j), n, j)
  {
    if q != [] {
      RunsFromSplit(q, n, j, [q[0]], 1);
      assert [q[0]] + q[1..] == q;
    }
  }

  lemma {:induction false} RunsFromSplit(q: seq<seq<Value>>, n: nat, j: nat, cur: seq<seq<Value>>, k: nat)
    requires Fits(q, n) && Fits(cur, n) && j < n && cur != [] && k <= |q| && Uniform(cur, n, j)
    ensures SplitsAs(q, n, j, cur, k)
    decreases |q| - k
  {
    if k == |q| {
      assert Flatten(RunsFrom(q, n, j, cur, k)) == cur + Flatten([]);
    } else if q[k][j] != cur[|cur| - 1][j] {
      RunsFromSplit(q, n, j, [q[k]], k + 1);
      SplitBreak(q, n, j, cur, k);
    } else {
      UniformSnoc(cur, q[k], n, j);
      RunsFromSplit(q, n, j, cur + [q[k]], k + 1);
      SplitExtend(q, n, j, cur, k);
    }
  }

  /** The runs from row `k` on, starting with the run `cur`, put back
      together give `cur` and the rows from `k` on, and are maximal. */
  ghost predicate SplitsAs(q: seq<seq<Value>>, n: nat, j: nat, cur: seq<seq<Value>>, k: nat)
    requires Fits(q, n) && Fits(cur, n) && j < n && cur != [] && k <= |q|
  {
    var r := RunsFrom(q, n, j, cur, k);
    Flatten(r) == cur + q[k..] && r[0][0] == cur[0] && IsRuns(r, n, j)
  }

  /** A row whose element `j` differs from the run's closes the run. */
  lemma SplitBreak(q: seq<seq<Value>>, n: nat, j: nat, cur: seq<seq<Value>>, k: nat)
    requires Fits(q, n) && Fits(cur, n) && j < n && cur != [] && k < |q| && Uniform(cur, n, j)
    requires q[k][j] != cur[|cur| - 1][j] && SplitsAs(q, n, j, [q[k]], k + 1)
    ensures SplitsAs(q, n, j, cur, k)
  {
    var r := RunsFrom(q, n, j, cur, k);
    var rest := RunsFrom(q, n, j, [q[k]], k + 1);
    assert r == [cur] + rest;
    assert r[1..] == rest;
    assert q[k..] == [q[k]] + q[k + 1..];
    RunsCons(cur, rest, n, j);
  }

  /** A row whose element `j` equals the run's joins the run. */
  lemma SplitExtend(q: seq<seq<Value>>, n: nat, j: nat, cur: seq<seq<Value>>, k: nat)
    requires Fits(q, n) && Fits(cur, n) && j < n && cur != [] && k < |q|
    requires q[k][j] == cur[|cur| - 1][j] && SplitsAs(q, n, j, cur + [q[k]], k + 1)
    ensures SplitsAs(q, n, j, cur, k)
  {
    assert q[k..] == [q[k]] + q[k + 1..];
  }

  /** A row equal on element `j` to the last row of a uniform run keeps it uniform. */
  lemma UniformSnoc(cur: seq<seq<Value>>, row: seq<Value>, n: nat, j: nat)
    requires Fits(cur, n) && j < n && |row| == n && Uniform(cur, n, j) && row[j] == cur[|cur| - 1][j]
    ensures Fits(cur + [row], n) && Uniform(cur + [row], n, j)
  {
    var next := cur + [row];
    forall i | 0 <= i < |next| ensures next[i][j] == next[0][j] {
      if i == |cur| {
        assert cur[|cur| - 1][j] == cur[0][j];
      }
    }
  }

  /** A run put in front of runs whose first row differs from it on element `j`. */
  lemma RunsCons(cur: seq<seq<Value>>, rest: seq<seq<seq<Value>>>, n: nat, j: nat)
    requires Fits(cur, n) && j < n && Uniform(cur, n, j) && IsRuns(rest, n, j) && rest != []
    requires cur[|cur| - 1][j] != rest[0][0][j]
    ensures IsRuns([cur] + rest, n, j) && Flatten([cur] + rest) == cur + Flatten(rest)
  {
    var r := [cur] + rest;
    assert r[1..] == rest;
    assert forall t :: 1 <= t < |r| ==> r[t] == rest[t - 1];
    assert Breaks(r, n, j, 0);
    forall i | 1 <= i < |r| - 1 ensures Breaks(r, n, j, i) {
      assert Breaks(rest, n, j, i - 1);
    }
  }

  /** What `res` holds at the end: for each change of key, the group that
      ends and the group that begins. A group is appended to `res` when it
      begins and filled afterwards, so `res` shows every group complete;
      with a single group `res` is empty. */
  function Pairs<T>(gs: seq<T>): (r: seq<T>)
    ensures |r| == if |gs| < 2 then 0 else 2 * (|gs| - 1)
  {
    if |gs| < 2 then [] else [gs[0], gs[1]] + Pairs(gs[1..])
  }

  /** Entries `2 i` and `2 i + 1` of the result are groups `i` and `i + 1`. */
  lemma {:induction false} PairsLayout<T>(gs: seq<T>, i: nat)
    requires i + 1 < |gs|
    ensures Pairs(gs)[2 * i] == gs[i] && Pairs(gs)[2 * i + 1] == gs[i + 1]
  {
    if i > 0 {
      PairsLayout(gs[1..], i - 1);
    }
  }

  /** A group that begins adds the group that ends and itself. */
  lemma {:induction false} PairsSnoc<T>(gs: seq<T>, b: T)
    requires gs != []
    ensures Pairs(gs + [b]) == Pairs(gs) + [gs[|gs| - 1], b]
  {
    if |gs| > 1 {
      assert (gs + [b])[1..] == gs[1..] + [b];
      PairsSnoc(gs[1..], b);
    }
  }

  /** Every entry of `Pairs(gs)` is one of the groups. */
  lemma {:induction false} PairsIn<T>(gs: seq<T>)
    ensures forall x :: x in Pairs(gs) ==> x in gs
  {
    if |gs| >= 2 {
      PairsIn(gs[1..]);
    }
  }

  /** The tables of `t`'s schema holding each run. */
  function Groups(t: Frame, runs: seq<seq<seq<Value>>>): (r: seq<Frame>)
    requires t.Valid() && AllFit(runs, |t.keys|)
    ensures |r| == |runs| && forall i :: 0 <= i < |runs| ==> r[i] == WithRows(t, runs[i])
  {
    seq(|runs|, i requires 0 <= i < |runs| => WithRows(t, runs[i]))
  }

  /** The list `res` holds for the groups of a loop that did not raise. */
  function PairsOf(r: Result<seq<Frame>>): (p: Result<seq<Frame>>)
    ensures p.Ok? <==> r.Ok?
    ensures r.Ok? ==> p.value == Pairs(r.value)
    ensures r.Err? ==> p.error == r.error
  {
    match r {
      case Err(e) => Err(e)
      case Ok(gs) => Ok(Pairs(gs))
    }
  }

  /** The loop of `group_by` from position `k` of the sorted table `s`:
      `vals` is its key column, `prev` the previous key, `cur` the table
      being filled and `closed` the groups already complete. A key that
      differs from the previous one closes `cur` and starts a fresh
      `Table.empty`; then row `k` is appended to the current table. The
      result is the list of groups; `res` lays them out as `Pairs`. */
  function GroupFrom(ed: Edition, conv: Converter, s: Frame, vals: seq<Value>, k: nat, prev: Value,
                     cur: Frame, closed: seq<Frame>): (r: Result<seq<Frame>>)
    requires s.Valid() && cur.Valid()
    ensures r.Ok? ==> |r.value| > |closed|
    decreases |vals| - k
  {
    if k >= |vals| then Ok(closed + [cur])
    else
      var val := vals[k];
      var next := if val != prev then Frames.Empty(ed, conv, s.keys, Dtypes(s)) else cur;
      var done := if val != prev then closed + [cur] else closed;
      match Row(s, k) {
        case Err(e) => Err(e)
        case Ok(row) =>
          match AppendRow(next, Given(row)) {
            case Err(e) => Err(e)
            case Ok(c) => GroupFrom(ed, conv, s, vals, k + 1, val, c, done)
          }
      }
  }

  /** `t.group_by(col)` as written: it raises what `sorted` raises, and
      `sorted` always raises. */
  function GroupByAsWritten(f: Frame, col: Arg<string>): (r: Result<seq<Frame>>)
    requires f.Valid()
    ensures r.Err? && (col.Given? && col.value in f.entries ==> r.error == TypeError)
  {
    Err(SortedAsWritten(f, col, false).error)
  }

  /** Where the loop of `group_by` starts: the table sorted by `col`, its
      key column and the first key `sorted[col][0]`. */
  datatype Start = Start(sorted: Frame, keys: seq<Value>, first: Value)

  /** The steps of `t.group_by(col)` before the loop, with `sorted`
      working: sorting raises what `sorted` raises, and `sorted[col][0]`
      raises IndexError when there is no row. */
  function GroupStart(ed: Edition, conv: Converter, f: Frame, col: Arg<string>, lt: (Value, Value) -> bool)
    : (r: Result<Start>)
    requires f.Valid()
    ensures !col.Given? ==> r == Err(TypeError)
    ensures col.Given? && col.value !in f.entries ==> r == Err(ValueError)
    ensures r.Ok? ==> r.value.sorted.Valid() && r.value.keys != [] && r.value.first == r.value.keys[0]
  {
    match SortedTable(ed, conv, f, col, lt, false) {
      case Err(e) => Err(e)
      case Ok(s) =>
        assert col.value in s.keys;
        var c := s.entries[col.value];
        match GetItem(c, 0) {
          case Err(e) => Err(e)
          case Ok(prev) => Ok(Start(s, c.data, prev))
        }
    }
  }

  /** `t.group_by(col)` with `sorted` working: the loop from the first row
      of the sorted table, with a `Table.empty` of the table's names and
      dtypes as the first group. */
  function GroupBy(ed: Edition, conv: Converter, f: Frame, col: Arg<string>, lt: (Value, Value) -> bool)
    : (r: Result<seq<Frame>>)
    requires f.Valid()
    ensures !col.Given? ==> r == Err(TypeError)
    ensures col.Given? && col.value !in f.entries ==> r == Err(ValueError)
  {
    match GroupStart(ed, conv, f, col, lt) {
      case Err(e) => Err(e)
      case Ok(st) =>
        PairsOf(GroupFrom(ed, conv, st.sorted, st.keys, 0, st.first, Frames.Empty(ed, conv, f.keys, Dtypes(f)), []))
    }
  }

  /** `group_by` raises what sorting or reading the first key raises. */
  lemma GroupByRaise(ed: Edition, conv: Converter, f: Frame, col: Arg<string>, lt: (Value, Value) -> bool, e: Error)
    requires f.Valid() && GroupStart(ed, conv, f, col, lt) == Err(e)
    ensures GroupBy(ed, conv, f, col, lt) == Err(e)
  {
  }

  /** The groups `t.group_by(col)` builds, before `res` lays them out:
      `GroupBy` is their `Pairs`. */
  function GroupList(ed: Edition, conv: Converter, f: Frame, col: Arg<string>, lt: (Value, Value) -> bool)
    : (r: Result<seq<Frame>>)
    requires f.Valid()
    ensures PairsOf(r) == GroupBy(ed, conv, f, col, lt)
    ensures r.Ok? ==> |r.value| >= 1
  {
    match GroupStart(ed, conv, f, col, lt) {
      case Err(e) => Err(e)
      case Ok(st) =>
        GroupFrom(ed, conv, st.sorted, st.keys, 0, st.first, Frames.Empty(ed, conv, f.keys, Dtypes(f)), [])
    }
  }

  /** Past sorting, `group_by` is the loop from the first row. */
  lemma GroupByLoop(ed: Edition, conv: Converter, f: Frame, col: Arg<string>, lt: (Value, Value) -> bool, st: Start)
    requires f.Valid() && GroupStart(ed, conv, f, col, lt) == Ok(st)
    ensures st.sorted.Valid()
    ensures GroupBy(ed, conv, f, col, lt) ==
      PairsOf(GroupFrom(ed, conv, st.sorted, st.keys, 0, st.first, Frames.Empty(ed, conv, f.keys, Dtypes(f)), []))
  {
  }

  /** Grouping a rectangular table of settled, typed columns by column `j`:
      the groups are the maximal runs of equal keys among the rows in sorted
      order, each under the table's names and dtypes, laid out as `Pairs`
      describes. */
  lemma GroupByRuns(ed: Edition, conv: Converter, f: Frame, j: nat, lt: (Value, Value) -> bool)
    requires f.Valid() && Rect(f) && AllSettled(ed, conv, f) && Typed(f) && j < |f.keys| && Height(f) > 0
    ensures Indices(SortOrder(f, j, lt, false), Height(f))
    ensures Fits(Apply(Rows(f), SortOrder(f, j, lt, false)), |f.keys|)
    ensures GroupBy(ed, conv, f, Given(f.keys[j]), lt) ==
      Ok(Pairs(Groups(Template(f), Runs(Apply(Rows(f), SortOrder(f, j, lt, false)), |f.keys|, j))))
  {
    var s := SortedTyped(ed, conv, f, j, lt);
    var c := s.entries[f.keys[j]];
    assert c == ColAt(s, j) && Cols(s)[j] == c;
    assert Rows(s)[0][j] == c.data[0];
    GroupsOfSorted(ed, conv, s, j);
  }

  /** The table `sorted` gives has the rows in sorted order, and is typed. */
  lemma SortedTyped(ed: Edition, conv: Converter, f: Frame, j: nat, lt: (Value, Value) -> bool) returns (s: Frame)
    requires f.Valid() && Rect(f) && AllSettled(ed, conv, f) && Typed(f) && j < |f.keys| && Height(f) > 0
    ensures Indices(SortOrder(f, j, lt, false), Height(f))
    ensures Fits(Apply(Rows(f), SortOrder(f, j, lt, false)), |f.keys|)
    ensures SortedTable(ed, conv, f, Given(f.keys[j]), lt, false) == Ok(s)
    ensures s.Valid() && s.keys == f.keys && Dtypes(s) == Dtypes(f) && Template(s) == Template(f)
    ensures Typed(s) && Height(s) == Height(f) && Rows(s) == Apply(Rows(f), SortOrder(f, j, lt, false))
  {
    var p := SortOrder(f, j, lt, false);
    SortedTableRows(ed, conv, f, j, lt, false);
    var q := Apply(Rows(f), p);
    ApplyFits(Rows(f), p, |f.keys|);
    s := WithRows(Template(f), q);
    WithRowsRows(Template(f), q);
    assert Template(s) == Template(f) by {
      assert Template(s) == Blank(s.keys, Dtypes(s));
    }
    ApplyTyped(f, p);
  }

  /** The rows of a typed table in any order of row indices make a typed table. */
  lemma ApplyTyped(f: Frame, p: seq<nat>)
    requires f.Valid() && Typed(f) && f.keys != [] && Indices(p, Height(f))
    ensures Fits(Apply(Rows(f), p), |f.keys|) && Typed(WithRows(Template(f), Apply(Rows(f), p)))
  {
    var q := Apply(Rows(f), p);
    ApplyFits(Rows(f), p, |f.keys|);
    var s := WithRows(Template(f), q);
    WithRowsRows(Template(f), q);
    forall i | 0 <= i < Height(s) ensures RowFits(Dtypes(s), Rows(s)[i]) {
      assert Rows(s)[i] == Rows(f)[p[i]];
    }
  }

  /** The loop over a sorted table that is typed and has a row. */
  lemma GroupsOfSorted(ed: Edition, conv: Converter, s: Frame, j: nat)
    requires s.Valid() && Typed(s) && j < |s.keys| && Height(s) > 0
    ensures GroupFrom(ed, conv, s, ColAt(s, j).data, 0, Rows(s)[0][j], Frames.Empty(ed, conv, s.keys, Dtypes(s)), []) ==
      Ok(Groups(Template(s), Runs(Rows(s), |s.keys|, j)))
  {
    var q := Rows(s);
    GroupFirst(ed, conv, s, j);
    GroupFromRuns(ed, conv, s, j, 1, [q[0]], []);
    var r := RunsFrom(q, |s.keys|, j, [q[0]], 1);
    assert [] + r == r;
  }

  /** The first turn of the loop opens the first group with the first row. */
  lemma GroupFirst(ed: Edition, conv: Converter, s: Frame, j: nat)
    requires Groupable(s, j) && Height(s) > 0
    ensures Fits(Rows(s), |s.keys|) && GroupState(s, j, 1, [Rows(s)[0]], [])
    ensures GroupFrom(ed, conv, s, ColAt(s, j).data, 0, Rows(s)[0][j], Frames.Empty(ed, conv, s.keys, Dtypes(s)), []) ==
      GroupRest(ed, conv, s, j, 1, [Rows(s)[0]], [])
  {
    var t := Template(s);
    var q := Rows(s);
    RectRows(s, Dtypes(s), Height(s));
    EmptyTemplate(ed, conv, s);
    TemplateNoRows(s);
    assert Cols(s)[j] == ColAt(s, j);
    AppendRowRows(t, [], q[0]);
    assert [] + [q[0]] == [q[0]];
    GroupSame(ed, conv, s, ColAt(s, j).data, 0, q[0][j], t, [], q[0], WithRows(t, [q[0]]));
    assert Groups(t, []) == [];
  }

  /** A turn of the loop on a key equal to the previous one. */
  lemma GroupSame(ed: Edition, conv: Converter, s: Frame, vals: seq<Value>, k: nat, prev: Value,
                  cur: Frame, closed: seq<Frame>, row: seq<Value>, c: Frame)
    requires s.Valid() && cur.Valid() && k < |vals| && vals[k] == prev
    requires Row(s, k) == Ok(row) && AppendRow(cur, Given(row)) == Ok(c)
    ensures GroupFrom(ed, conv, s, vals, k, prev, cur, closed) == GroupFrom(ed, conv, s, vals, k + 1, prev, c, closed)
  {
  }

  /** A turn of the loop whose row cannot be read. */
  lemma GroupRowRaise(ed: Edition, conv: Converter, s: Frame, vals: seq<Value>, k: nat, prev: Value,
                      cur: Frame, closed: seq<Frame>, e: Error)
    requires s.Valid() && cur.Valid() && k < |vals| && Row(s, k) == Err(e)
    ensures GroupFrom(ed, conv, s, vals, k, prev, cur, closed) == Err(e)
  {
  }

  /** A turn of the loop whose row the current table refuses. */
  lemma GroupAppendRaise(ed: Edition, conv: Converter, s: Frame, vals: seq<Value>, k: nat, prev: Value,
                         cur: Frame, closed: seq<Frame>, row: seq<Value>, e: Error)
    requires s.Valid() && cur.Valid() && k < |vals| && Row(s, k) == Ok(row)
    requires AppendRow(if vals[k] != prev then Frames.Empty(ed, conv, s.keys, Dtypes(s)) else cur, Given(row)) == Err(e)
    ensures GroupFrom(ed, conv, s, vals, k, prev, cur, closed) == Err(e)
  {
  }

  /** A turn of the loop on a key different from the previous one. */
  lemma GroupNew(ed: Edition, conv: Converter, s: Frame, vals: seq<Value>, k: nat, prev: Value, val: Value,
                 cur: Frame, closed: seq<Frame>, row: seq<Value>, c: Frame)
    requires s.Valid() && cur.Valid() && k < |vals| && vals[k] == val && val != prev
    requires Row(s, k) == Ok(row) && AppendRow(Frames.Empty(ed, conv, s.keys, Dtypes(s)), Given(row)) == Ok(c)
    ensures GroupFrom(ed, conv, s, vals, k, prev, cur, closed) == GroupFrom(ed, conv, s, vals, k + 1, val, c, closed + [cur])
  {
  }

  /** A state of the loop over the typed table `s` at position `k`: the
      rows `cur` of the current group and the complete groups `closed`. */
  ghost predicate GroupState(s: Frame, j: nat, k: nat, cur: seq<seq<Value>>, closed: seq<seq<seq<Value>>>) {
    Groupable(s, j) && 0 < k <= Height(s) && cur != [] && Fits(cur, |s.keys|) && AllFit(closed, |s.keys|)
  }

  /** The table and column the loop works on. */
  ghost predicate Groupable(s: Frame, j: nat) {
    s.Valid() && Typed(s) && j < |s.keys|
  }

  /** Every group in `closed` has rows of width `n`. */
  ghost predicate AllFit(closed: seq<seq<seq<Value>>>, n: nat) {
    forall i :: 0 <= i < |closed| ==> Fits(closed[i], n)
  }

  /** What the loop returns from that state. */
  function GroupRest(ed: Edition, conv: Converter, s: Frame, j: nat, k: nat,
                     cur: seq<seq<Value>>, closed: seq<seq<seq<Value>>>): Result<seq<Frame>>
    requires GroupState(s, j, k, cur, closed)
  {
    var t := Template(s);
    GroupFrom(ed, conv, s, ColAt(s, j).data, k, cur[|cur| - 1][j], WithRows(t, cur), Groups(t, closed))
  }

  /** The runs found so far followed by the runs from that state on. */
  function RunsRest(s: Frame, j: nat, k: nat, cur: seq<seq<Value>>, closed: seq<seq<seq<Value>>>)
    : (r: seq<seq<seq<Value>>>)
    requires GroupState(s, j, k, cur, closed)
    ensures AllFit(r, |s.keys|)
  {
    var r := RunsFrom(Rows(s), |s.keys|, j, cur, k);
    assert forall i :: 0 <= i < |r| ==> (closed + r)[i + |closed|] == r[i];
    closed + r
  }

  /** The loop from a state gives the groups of the runs so far followed by
      those of the runs from there on. */
  lemma {:induction false} GroupFromRuns(ed: Edition, conv: Converter, s: Frame, j: nat, k: nat,
                                         cur: seq<seq<Value>>, closed: seq<seq<seq<Value>>>)
    requires GroupState(s, j, k, cur, closed)
    ensures GroupRest(ed, conv, s, j, k, cur, closed) == Ok(Groups(Template(s), RunsRest(s, j, k, cur, closed)))
    decreases Height(s) - k
  {
    if k == Height(s) {
      GroupEnd(ed, conv, s, j, k, cur, closed);
    } else {
      var cur', closed' := GroupTurn(ed, conv, s, j, k, cur, closed);
      GroupFromRuns(ed, conv, s, j, k + 1, cur', closed');
    }
  }

  /** The loop past the last row. */
  lemma GroupEnd(ed: Edition, conv: Converter, s: Frame, j: nat, k: nat,
                 cur: seq<seq<Value>>, closed: seq<seq<seq<Value>>>)
    requires GroupState(s, j, k, cur, closed) && k == Height(s)
    ensures GroupRest(ed, conv, s, j, k, cur, closed) == Ok(Groups(Template(s), RunsRest(s, j, k, cur, closed)))
  {
    var t := Template(s);
    assert Cols(s)[j] == ColAt(s, j);
    assert RunsRest(s, j, k, cur, closed) == closed + [cur];
    GroupsSnoc(t, closed, cur);
  }

  /** One turn of the loop: a row with a new key closes the current group
      and starts the next one with that row; any other row joins the
      current group. */
  lemma GroupTurn(ed: Edition, conv: Converter, s: Frame, j: nat, k: nat,
                  cur: seq<seq<Value>>, closed: seq<seq<seq<Value>>>)
    returns (cur': seq<seq<Value>>, closed': seq<seq<seq<Value>>>)
    requires GroupState(s, j, k, cur, closed) && k < Height(s)
    ensures GroupState(s, j, k + 1, cur', closed')
    ensures GroupRest(ed, conv, s, j, k, cur, closed) == GroupRest(ed, conv, s, j, k + 1, cur', closed')
    ensures RunsRest(s, j, k, cur, closed) == RunsRest(s, j, k + 1, cur', closed')
  {
    RectRows(s, Dtypes(s), Height(s));
    var row := Rows(s)[k];
    assert Cols(s)[j] == ColAt(s, j);
    assert ColAt(s, j).data[k] == row[j];
    if row[j] != cur[|cur| - 1][j] {
      cur', closed' := [row], closed + [cur];
      NewState(s, j, k, cur, closed, row);
      NewRest(ed, conv, s, j, k, cur, closed, row, ColAt(s, j).data, cur[|cur| - 1][j]);
      NewRuns(s, j, k, cur, closed, row);
    } else {
      cur', closed' := cur + [row], closed;
      SameState(s, j, k, cur, closed, row);
      SameRest(ed, conv, s, j, k, cur, closed, row, ColAt(s, j).data, cur[|cur| - 1][j]);
      SameRuns(s, j, k, cur, closed, row);
    }
  }

  /** The state after a row with a new key. */
  lemma NewState(s: Frame, j: nat, k: nat, cur: seq<seq<Value>>, closed: seq<seq<seq<Value>>>, row: seq<Value>)
    requires GroupState(s, j, k, cur, closed) && k < Height(s) && |row| == |s.keys|
    ensures GroupState(s, j, k + 1, [row], closed + [cur])
  {
    GroupsSnoc(Template(s), closed, cur);
  }

  /** The loop on a row with a new key. */
  lemma NewRest(ed: Edition, conv: Converter, s: Frame, j: nat, k: nat,
                cur: seq<seq<Value>>, closed: seq<seq<seq<Value>>>, row: seq<Value>, vals: seq<Value>, prev: Value)
    requires GroupState(s, j, k, cur, closed) && k < Height(s)
    requires Row(s, k) == Ok(row) && |row| == |s.keys| && RowFits(Dtypes(s), row)
    requires vals == ColAt(s, j).data && prev == cur[|cur| - 1][j]
    requires k < |vals| && vals[k] == row[j] && row[j] != prev
    requires GroupState(s, j, k + 1, [row], closed + [cur])
    ensures GroupRest(ed, conv, s, j, k, cur, closed) == GroupRest(ed, conv, s, j, k + 1, [row], closed + [cur])
  {
    var t := Template(s);
    FirstRow(ed, conv, s, row);
    GroupNew(ed, conv, s, vals, k, prev, row[j], WithRows(t, cur), Groups(t, closed), row, WithRows(t, [row]));
    GroupsSnoc(t, closed, cur);
  }

  /** A row appended to a fresh table with the columns of `s`. */
  lemma FirstRow(ed: Edition, conv: Converter, s: Frame, row: seq<Value>)
    requires s.Valid() && |row| == |s.keys| && RowFits(Dtypes(s), row)
    ensures AppendRow(Frames.Empty(ed, conv, s.keys, Dtypes(s)), Given(row)) == Ok(WithRows(Template(s), [row]))
  {
    var t := Template(s);
    EmptyTemplate(ed, conv, s);
    TemplateNoRows(s);
    AppendRowRows(t, [], row);
    assert [] + [row] == [row];
  }

  /** The runs on a row with a new key. */
  lemma NewRuns(s: Frame, j: nat, k: nat, cur: seq<seq<Value>>, closed: seq<seq<seq<Value>>>, row: seq<Value>)
    requires GroupState(s, j, k, cur, closed) && k < Height(s)
    requires row == Rows(s)[k] && |row| == |s.keys| && row[j] != cur[|cur| - 1][j]
    ensures GroupState(s, j, k + 1, [row], closed + [cur])
    ensures RunsRest(s, j, k, cur, closed) == RunsRest(s, j, k + 1, [row], closed + [cur])
  {
    NewState(s, j, k, cur, closed, row);
    Assoc(closed, [cur], RunsFrom(Rows(s), |s.keys|, j, [row], k + 1));
  }

  /** The state after a row with the current key. */
  lemma SameState(s: Frame, j: nat, k: nat, cur: seq<seq<Value>>, closed: seq<seq<seq<Value>>>, row: seq<Value>)
    requires GroupState(s, j, k, cur, closed) && k < Height(s) && |row| == |s.keys|
    ensures GroupState(s, j, k + 1, cur + [row], closed)
  {
  }

  /** The loop on a row with the current key. */
  lemma SameRest(ed: Edition, conv: Converter, s: Frame, j: nat, k: nat,
                 cur: seq<seq<Value>>, closed: seq<seq<seq<Value>>>, row: seq<Value>, vals: seq<Value>, prev: Value)
    requires GroupState(s, j, k, cur, closed) && k < Height(s)
    requires Row(s, k) == Ok(row) && |row| == |s.keys| && RowFits(Dtypes(s), row)
    requires vals == ColAt(s, j).data && prev == cur[|cur| - 1][j]
    requires k < |vals| && vals[k] == row[j] && row[j] == prev
    requires GroupState(s, j, k + 1, cur + [row], closed)
    ensures GroupRest(ed, conv, s, j, k, cur, closed) == GroupRest(ed, conv, s, j, k + 1, cur + [row], closed)
  {
    var t := Template(s);
    AppendRowRows(t, cur, row);
    GroupSame(ed, conv, s, vals, k, prev, WithRows(t, cur), Groups(t, closed), row, WithRows(t, cur + [row]));
    assert (cur + [row])[|cur|] == row;
  }

  /** The runs on a row with the current key. */
  lemma SameRuns(s: Frame, j: nat, k: nat, cur: seq<seq<Value>>, closed: seq<seq<seq<Value>>>, row: seq<Value>)
    requires GroupState(s, j, k, cur, closed) && k < Height(s)
    requires row == Rows(s)[k] && |row| == |s.keys| && row[j] == cur[|cur| - 1][j]
    ensures GroupState(s, j, k + 1, cur + [row], closed)
    ensures RunsRest(s, j, k, cur, closed) == RunsRest(s, j, k + 1, cur + [row], closed)
  {
    SameState(s, j, k, cur, closed, row);
  }

  /** One more complete group. */
  lemma GroupsSnoc(t: Frame, closed: seq<seq<seq<Value>>>, cur: seq<seq<Value>>)
    requires t.Valid() && Fits(cur, |t.keys|) && AllFit(closed, |t.keys|)
    ensures AllFit(closed + [cur], |t.keys|)
    ensures Groups(t, closed + [cur]) == Groups(t, closed) + [WithRows(t, cur)]
  {
    var c := closed + [cur];
    assert forall i :: 0 <= i < |closed| ==> c[i] == closed[i];
  }

  /** A table without rows cannot be grouped: `sorted[col][0]` raises
      IndexError. */
  lemma GroupByNoRows(ed: Edition, conv: Converter, f: Frame, j: nat, lt: (Value, Value) -> bool)
    requires f.Valid() && Rect(f) && AllSettled(ed, conv, f) && j < |f.keys| && Height(f) == 0
    ensures GroupBy(ed, conv, f, Given(f.keys[j]), lt) == Err(IndexError)
  {
    var p := SortOrder(f, j, lt, false);
    SortedTableRows(ed, conv, f, j, lt, false);
    var s := WithRows(Template(f), Apply(Rows(f), p));
    WithRowsRows(Template(f), Apply(Rows(f), p));
    assert s.entries[f.keys[j]] == Cols(s)[j];
  }
}
