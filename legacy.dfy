/** The legacy `Table` of atypes/table.py, where it differs from the
    packaged one.

    Its `append_row`, `drop_col`, `_smooth`, `concat`, `union_all`,
    `head`, `tail` and `row_count` are written as in the packaged version
    and are modelled by the same functions with the `Legacy` edition, whose
    `grow` passes the padding through the dtype. What is its own: a
    `contains_row` that compares a tuple with Seq objects, an `__iter__`
    over the names, a single-key `left_join(on, other)` that pads with as
    many Nones as the LEFT table has columns and drops every shared column,
    and a `_create_cols` that returns a set, so `from_iterable` and `sorted`
    pair the names with the data in the set's iteration order. */
module LegacyTables {
  import opened Values
  import opened Dicts
  import opened Column
  import opened Frames
  import opened RowOps
  import opened Queries
  import Joins
  import opened Ordering
  import opened Ranking
  import Tables

  // ---------------------------------------------------------------------
  // Rows and iteration

  /** The Python objects that `in` compares here: a tuple of values, or a
      Seq object (a column). */
  datatype Object = TupleObject(items: seq<Value>) | SeqObject(col: Col)

  /** `self._data.values()`: the Seq objects, in key order. */
  function SeqObjects(f: Frame): (r: seq<Object>)
    requires f.Valid()
    ensures |r| == |f.keys| && forall j :: 0 <= j < |r| ==> r[j].SeqObject?
  {
    seq(|f.keys|, j requires 0 <= j < |f.keys| => SeqObject(ColAt(f, j)))
  }

  /** `t.contains_row(row)`: ValueError for a row whose length is not the
      column count; otherwise `tuple(row) in self._data.values()`, which no
      table ever satisfies, since a tuple never equals a Seq. */
  function ContainsRow(f: Frame, row: seq<Value>): (r: Result<bool>)
    requires f.Valid()
    ensures r.Ok? <==> |row| == |f.keys|
    ensures r.Err? ==> r.error == ValueError
    ensures r.Ok? ==> !r.value
  {
    if |row| != |f.keys| then Err(ValueError)
    else Ok(TupleObject(row) in SeqObjects(f))
  }

  /** On the one-column table holding `1` twice the packaged `contains_row`
      finds the row `(1,)`, the legacy one does not. */
  lemma ContainsRowMisses()
    ensures RowOps.ContainsRow(Twice(), [Int(1)]) == Ok(true)
    ensures ContainsRow(Twice(), [Int(1)]) == Ok(false)
  {
    var f := Twice();
    RowOfRect(f, 0);
    assert Rows(f)[Normalize(Height(f), 0)] == [Int(1)];
  }

  /** `iter(t)`: `iter(self._data)` yields the names of the columns, each
      once, as many as `len(t)`, and no rows. */
  function Iter(f: Frame): (r: seq<string>)
    requires f.Valid()
    ensures |r| == Ncols(f) && Distinct(r)
    ensures forall k :: k in r <==> k in f.entries
  {
    f.keys
  }

  // ---------------------------------------------------------------------
  // Joins

  /** The row the legacy `left_join` appends for the left key `val`:
      `other[on].find(val)`, whose ValueError gives `[None] * self.shape[0]`,
      `width` Nones for the `width` columns of the LEFT table, else
      `other.i(index)`. */
  function MatchRow(width: nat, g: Frame, key: Col, val: Value): Result<seq<Value>>
    requires g.Valid()
  {
    match Find(key, val)
    case Err(_) => Ok(Nones(width))
    case Ok(index) => Row(g, index)
  }

  /** The loop of the legacy `left_join` from the left key at position `k`
      on, each looked-up row appended to `acc`. */
  function JoinFrom(width: nat, g: Frame, key: Col, vals: seq<Value>, acc: Frame, k: nat): (r: Result<Frame>)
    requires g.Valid() && acc.Valid()
    ensures r.Ok? ==> r.value.Valid()
    decreases |vals| - k
  {
    if k >= |vals| then Ok(acc)
    else
      match MatchRow(width, g, key, vals[k]) {
        case Err(e) => Err(e)
        case Ok(row) =>
          match AppendRow(acc, Given(row)) {
            case Err(e) => Err(e)
            case Ok(a) => JoinFrom(width, g, key, vals, a, k + 1)
          }
      }
  }

  /** `self.left_join(on, other)`: KeyError when either table lacks `on`,
      ValueError when the key dtypes differ; then one looked-up row per left
      key appended to `Table.empty(other.cols, other.dtypes)`, every column
      whose name the left table has dropped from it, and the result
      concatenated to the left table. Shared columns are not checked for. */
  function LeftJoinOn(conv: Converter, f: Frame, g: Frame, on: string): (r: Result<Frame>)
    requires f.Valid() && g.Valid()
    ensures on !in f.entries || on !in g.entries ==> r == Err(KeyError)
    ensures on in f.entries && on in g.entries && f.entries[on].dtype != g.entries[on].dtype ==> r == Err(ValueError)
    ensures r.Ok? ==> r.value.Valid()
  {
    if on !in f.entries || on !in g.entries then Err(KeyError)
    else if f.entries[on].dtype != g.entries[on].dtype then Err(ValueError)
    else
      var empt := Frames.Empty(Legacy, conv, g.keys, Dtypes(g));
      match JoinFrom(Ncols(f), g, g.entries[on], f.entries[on].data, empt, 0) {
        case Err(e) => Err(e)
        case Ok(acc) =>
          match Joins.DropShared(acc, f.keys, g.keys) {
            case Err(e) => Err(e)
            case Ok(d) => Ok(Concat(Legacy, conv, f, d))
          }
      }
  }

  /** `self.right_join(on, other)` is `other.left_join(on, self)`. */
  function RightJoinOn(conv: Converter, f: Frame, g: Frame, on: string): (r: Result<Frame>)
    requires f.Valid() && g.Valid()
    ensures r == LeftJoinOn(conv, g, f, on)
  {
    LeftJoinOn(conv, g, f, on)
  }

  /** With a Nones row as wide as the right table the legacy loop is the
      packaged one. */
  lemma {:induction false} JoinFromAgrees(width: nat, g: Frame, key: Col, vals: seq<Value>, acc: Frame, k: nat)
    requires g.Valid() && acc.Valid() && width == |g.keys|
    ensures JoinFrom(width, g, key, vals, acc, k) == Joins.JoinFrom(g, key, vals, acc, k)
    decreases |vals| - k
  {
    if k < |vals| {
      assert MatchRow(width, g, key, vals[k]) == Joins.MatchRow(g, key, vals[k]);
      match MatchRow(width, g, key, vals[k]) {
        case Err(_) =>
        case Ok(row) =>
          match AppendRow(acc, Given(row)) {
            case Err(_) =>
            case Ok(a) => JoinFromAgrees(width, g, key, vals, a, k + 1);
          }
      }
    }
  }

  /** When both tables have as many columns and share no name but the key,
      the legacy `left_join(on, other)` is the packaged
      `left_join(other, on, on)`, whose rows `Joins.LeftJoinRows` gives. */
  lemma LeftJoinAgrees(conv: Converter, f: Frame, g: Frame, on: string)
    requires f.Valid() && g.Valid() && |f.keys| == |g.keys|
    requires |ToSet(f.keys) * ToSet(g.keys)| == 1
    ensures LeftJoinOn(conv, f, g, on) == Joins.LeftJoin(Legacy, conv, f, g, on, on)
  {
    if on in f.entries && on in g.entries && f.entries[on].dtype == g.entries[on].dtype {
      JoinFromAgrees(|f.keys|, g, g.entries[on], f.entries[on].data, Frames.Empty(Legacy, conv, g.keys, Dtypes(g)), 0);
    }
  }

  /** The table the loop appends to keeps the other table's names and dtypes. */
  ghost predicate Shaped(acc: Frame, g: Frame) {
    acc.Valid() && g.Valid() && acc.keys == g.keys && Dtypes(acc) == Dtypes(g)
  }

  /** The row looked up for a key that the key column holds is a row of the
      table, which `append_row` accepts into a table of the same dtypes. */
  lemma MatchedAppends(width: nat, g: Frame, p: nat, v: Value, acc: Frame)
    requires g.Valid() && Typed(g) && p < |g.keys| && v in ColAt(g, p).data && Shaped(acc, g)
    ensures MatchRow(width, g, ColAt(g, p), v).Ok?
    ensures var row := MatchRow(width, g, ColAt(g, p), v).value;
      AppendRow(acc, Given(row)) == Ok(Extend(acc, row)) && Shaped(Extend(acc, row), g)
  {
    var key := ColAt(g, p);
    var i := Find(key, v).value;
    assert Cols(g)[p] == key;
    assert i < Height(g);
    RectRows(g, Dtypes(g), Height(g));
    var row := Rows(g)[i];
    assert MatchRow(width, g, key, v) == Ok(row);
    ExtendDtypes(acc, row);
  }

  /** Appending a row keeps the names and the dtypes. */
  lemma ExtendDtypes(f: Frame, row: seq<Value>)
    requires f.Valid() && |row| == |f.keys|
    ensures Dtypes(Extend(f, row)) == Dtypes(f)
  {
    var e := Extend(f, row);
    forall j | 0 <= j < |f.keys| ensures Dtypes(e)[j] == Dtypes(f)[j] {
      assert Cols(e)[j] == ColAt(e, j) && Cols(f)[j] == ColAt(f, j);
    }
  }

  /** The loop reaches the first key the right table lacks and there raises
      ValueError, when the tables differ in column count. */
  lemma {:induction false} UnmatchedFrom(width: nat, g: Frame, p: nat, vals: seq<Value>, acc: Frame, k: nat, m: nat)
    requires g.Valid() && Typed(g) && p < |g.keys| && Shaped(acc, g) && width != |g.keys|
    requires k <= m < |vals| && vals[m] !in ColAt(g, p).data
    requires forall i :: k <= i < m ==> vals[i] in ColAt(g, p).data
    ensures JoinFrom(width, g, ColAt(g, p), vals, acc, k) == Err(ValueError)
    decreases m - k
  {
    if k < m {
      MatchedAppends(width, g, p, vals[k], acc);
      var row := MatchRow(width, g, ColAt(g, p), vals[k]).value;
      UnmatchedFrom(width, g, p, vals, Extend(acc, row), k + 1, m);
    } else {
      assert Find(ColAt(g, p), vals[k]).Err?;
    }
  }

  /** The first position of `vals` holding a value that `data` lacks. */
  lemma FirstMissing(vals: seq<Value>, data: seq<Value>, i: nat) returns (m: nat)
    requires i < |vals| && vals[i] !in data
    ensures m <= i && vals[m] !in data && forall j :: 0 <= j < m ==> vals[j] in data
  {
    m := 0;
    while vals[m] in data
      invariant m <= i && forall j :: 0 <= j < m ==> vals[j] in data
      decreases i - m
    {
      m := m + 1;
    }
  }

  /** A left key that the right table lacks makes the legacy `left_join`
      raise ValueError whenever the two tables differ in column count: the
      row of Nones has the left table's width. */
  lemma UnmatchedRaises(conv: Converter, f: Frame, g: Frame, on: string, i: nat)
    requires f.Valid() && g.Valid() && Typed(g) && |f.keys| != |g.keys|
    requires on in f.entries && on in g.entries && f.entries[on].dtype == g.entries[on].dtype
    requires i < |f.entries[on].data| && f.entries[on].data[i] !in g.entries[on].data
    ensures LeftJoinOn(conv, f, g, on) == Err(ValueError)
  {
    var vals := f.entries[on].data;
    var p := KeyPos(g, on);
    assert ColAt(g, p) == g.entries[on];
    var m := FirstMissing(vals, g.entries[on].data, i);
    var empt := Frames.Empty(Legacy, conv, g.keys, Dtypes(g));
    EmptyTemplate(Legacy, conv, g);
    UnmatchedFrom(|f.keys|, g, p, vals, empt, 0, m);
  }

  // ---------------------------------------------------------------------
  // Building tables from lists

  /** `Table._create_cols(cols, data)` for `n` lists of data: the checks of
      the packaged version, but the names come back as a set. */
  function CreateColsSet(cols: ListArg<string>, n: nat): (r: Result<set<string>>)
    ensures r.Ok? <==> CreateCols(cols, n).Ok?
    ensures r.Err? ==> r.error == CreateCols(cols, n).error
    ensures r.Ok? ==> |r.value| == n
    ensures r.Ok? && cols.Listed? ==> r.value == ToSet(cols.items)
  {
    match CreateCols(cols, n) {
      case Err(e) => Err(e)
      case Ok(names) =>
        CardDistinct(names);
        Ok(ToSet(names))
    }
  }

  /** The order in which Python iterates over a set of names. It is fixed by
      the names' hashes, which the model does not know: some order of the
      elements that depends on the set alone. */
  ghost function SetOrder(s: set<string>): (r: seq<string>)
    ensures |r| == |s| && Distinct(r) && ToSet(r) == s
    decreases |s|
  {
    if s == {} then []
    else
      var x :| x in s;
      var rest := SetOrder(s - {x});
      DistinctSnoc(rest, x);
      assert ToSet(rest + [x]) == ToSet(rest) + {x};
      rest + [x]
  }

  /** `Table.from_iterable(data, cols, dtypes)`: the names, then the dtypes,
      then `zip(cols, data, dtypes)`, which takes the names in the set's
      order: list `j` of data is stored under the `j`-th name of that order. */
  ghost function FromIterableSet(conv: Converter, data: seq<seq<Value>>, cols: ListArg<string>, dtypes: ListArg<Kind>)
    : (r: Result<Frame>)
    ensures CreateCols(cols, |data|).Err? ==> r == Err(CreateCols(cols, |data|).error)
    ensures CreateCols(cols, |data|).Ok? && DtypesArg(dtypes, |data|).Err? ==> r == Err(DtypesArg(dtypes, |data|).error)
    ensures r.Ok? ==> (r.value.Valid() && r.value.keys == SetOrder(CreateColsSet(cols, |data|).value) &&
      Dtypes(r.value) == DtypesArg(dtypes, |data|).value)
    ensures r.Ok? && cols.Listed? ==> ToSet(r.value.keys) == ToSet(cols.items)
  {
    match CreateColsSet(cols, |data|) {
      case Err(e) => Err(e)
      case Ok(names) =>
        match DtypesArg(dtypes, |data|) {
          case Err(e) => Err(e)
          case Ok(kinds) => BuildColumns(Legacy, conv, SetOrder(names), kinds, data)
        }
    }
  }

  /** Where the set happens to iterate in the order of the given names, the
      legacy `from_iterable` is the packaged one. */
  lemma FromIterableSetInOrder(conv: Converter, data: seq<seq<Value>>, cols: seq<string>, dtypes: ListArg<Kind>)
    requires SetOrder(ToSet(cols)) == cols
    ensures FromIterableSet(conv, data, Listed(cols), dtypes) == Frames.FromIterable(Legacy, conv, data, Listed(cols), dtypes)
  {
  }

  /** `t.sorted(column, desc)`: TypeError for a non-str column, ValueError
      for an unknown one; then every column permuted by the `argsort` of
      `column`'s data, rebuilt by `from_iterable` under `self._data.keys()`
      and the dtypes. Unlike the packaged version the call to `argsort` is
      well formed. */
  ghost function Sorted(conv: Converter, f: Frame, column: Arg<string>, lt: (Value, Value) -> bool, desc: bool)
    : (r: Result<Frame>)
    requires f.Valid()
    ensures !column.Given? ==> r == Err(TypeError)
    ensures column.Given? && column.value !in f.entries ==> r == Err(ValueError)
    ensures r.Ok? ==> r.value.Valid() && ToSet(r.value.keys) == ToSet(f.keys) && Dtypes(r.value) == Dtypes(f)
  {
    match column {
      case Given(c) =>
        if c !in f.entries then Err(ValueError)
        else
          match Permuted(f, Argsort(f.entries[c].data, lt, desc)) {
            case Err(e) => Err(e)
            case Ok(data) => FromIterableSet(conv, data, Listed(f.keys), Listed(Dtypes(f)))
          }
      case _ => Err(TypeError)
    }
  }

  /** `r` holds under the `j`-th name of the set order of `f`'s names the
      `j`-th column of `f` permuted by `p`, through the `j`-th dtype. */
  ghost predicate StoredBySetOrder(conv: Converter, f: Frame, p: seq<nat>, r: Frame)
    requires f.Valid() && r.Valid()
  {
    Permuted(f, p).Ok? && r.keys == SetOrder(ToSet(f.keys)) && |r.keys| == |f.keys| &&
    forall j :: 0 <= j < |f.keys| ==>
      ColAt(r, j).name == r.keys[j] && ColAt(r, j).dtype == ColAt(f, j).dtype &&
      Build(Legacy, conv, ColAt(f, j).dtype, Permuted(f, p).value[j]) == Ok(ColAt(r, j).data)
  }

  /** The legacy `sorted` stores under the `j`-th name of the set order the
      `j`-th column of the table permuted by `argsort`, through the `j`-th
      dtype: a name and its data stay together only where the set iterates
      in key order. */
  lemma SortedPairsBySetOrder(conv: Converter, f: Frame, c: string, lt: (Value, Value) -> bool, desc: bool)
    requires f.Valid() && c in f.entries
    requires Sorted(conv, f, Given(c), lt, desc).Ok?
    ensures StoredBySetOrder(conv, f, Argsort(f.entries[c].data, lt, desc), Sorted(conv, f, Given(c), lt, desc).value)
  {
    var p := Argsort(f.entries[c].data, lt, desc);
    var data := Permuted(f, p).value;
    var names := SetOrder(ToSet(f.keys));
    var kinds := Dtypes(f);
    CardDistinct(f.keys);
    SortedBuilds(conv, f, c, lt, desc, data);
    PermutedLengths(f, p, data);
    var g := BuildColumns(Legacy, conv, names, kinds, data).value;
    assert g == Sorted(conv, f, Given(c), lt, desc).value;
    BuildColumnsEven(Legacy, conv, names, kinds, data, |p|);
    BuiltBySetOrder(conv, f, p, data, g);
  }

  /** A table under the set order of `f`'s names whose `j`-th column is the
      `j`-th list of `data` built through the `j`-th dtype of `f`. */
  lemma BuiltBySetOrder(conv: Converter, f: Frame, p: seq<nat>, data: seq<seq<Value>>, g: Frame)
    requires f.Valid() && g.Valid() && Permuted(f, p) == Ok(data) && |data| == |f.keys|
    requires g.keys == SetOrder(ToSet(f.keys)) && |g.keys| == |f.keys|
    requires forall j :: 0 <= j < |f.keys| ==> Build(Legacy, conv, Dtypes(f)[j], data[j]).Ok?
    requires forall j :: 0 <= j < |f.keys| ==>
      ColAt(g, j) == Col(g.keys[j], Dtypes(f)[j], Build(Legacy, conv, Dtypes(f)[j], data[j]).value)
    ensures StoredBySetOrder(conv, f, p, g)
  {
  }

  /** The legacy `sorted` of a known column builds the permuted lists under
      the set order of the names. */
  lemma SortedBuilds(conv: Converter, f: Frame, c: string, lt: (Value, Value) -> bool, desc: bool, data: seq<seq<Value>>)
    requires f.Valid() && c in f.entries
    requires Permuted(f, Argsort(f.entries[c].data, lt, desc)) == Ok(data)
    requires |SetOrder(ToSet(f.keys))| == |f.keys|
    ensures Sorted(conv, f, Given(c), lt, desc) == BuildColumns(Legacy, conv, SetOrder(ToSet(f.keys)), Dtypes(f), data)
  {
    assert CreateColsSet(Listed(f.keys), |data|) == Ok(ToSet(f.keys));
  }

  /** Every list `Permuted` makes is as long as the permutation. */
  lemma PermutedLengths(f: Frame, p: seq<nat>, data: seq<seq<Value>>)
    requires f.Valid() && Permuted(f, p) == Ok(data)
    ensures forall j :: 0 <= j < |data| ==> |data[j]| == |p|
  {
  }

  // ---------------------------------------------------------------------
  // The table object

  /** The legacy `Table` object around its dict `self._data`. */
  class LegacyTable {
    const conv: Converter
    /** The dict `self._data`. */
    const store: Tables.Store

    ghost predicate Valid()
      reads store
    {
      store.frame.Valid()
    }

    /** The current contents of `self._data`. */
    function View(): Frame
      reads store
    {
      store.frame
    }

    /** `Table(data)`: the dict is smoothed, any exception from smoothing
        swallowed. */
    constructor (conv: Converter, data: Frame)
      requires data.Valid()
      ensures Valid() && fresh(store) && this.conv == conv
      ensures View() == Init(Legacy, conv, data)
    {
      this.conv := conv;
      store := new Tables.Store(Init(Legacy, conv, data));
    }

    /** A second table object around an existing dict. */
    constructor Sharing(conv: Converter, s: Tables.Store)
      ensures store == s && this.conv == conv
    {
      this.conv := conv;
      store := s;
    }

    /** `Table.empty(cols, dtypes)`. */
    static method Empty(conv: Converter, names: seq<string>, kinds: seq<Kind>) returns (t: LegacyTable)
      ensures fresh(t) && fresh(t.store) && t.Valid() && t.conv == conv
      ensures t.View() == Frames.Empty(Legacy, conv, names, kinds)
    {
      var s := new Tables.Store(Frames.Empty(Legacy, conv, names, kinds));
      t := new LegacyTable.Sharing(conv, s);
    }

    /** `t.append_row(row)`: TypeError for a non-sequence, ValueError for a
        row whose length is not the number of keys, TypeError for an element
        that is neither None nor of its column's dtype; then one element
        appended to each column in key order, and `self` returned. */
    method AppendRow(row: Arg<seq<Value>>) returns (r: Result<LegacyTable>)
      requires Valid()
      modifies store
      ensures Valid()
      ensures RowOps.AppendRow(old(View()), row) == if r.Ok? then Ok(View()) else Err(r.error)
      ensures r.Ok? ==> r.value == this
      ensures r.Err? ==> View() == old(View())
    {
      var out := store.AppendRow(row);
      if out.Fail? {
        return Err(out.error);
      }
      return Ok(this);
    }

    /** `t.drop_col(col)`: `del self._data[col]`, KeyError for a missing name. */
    method DropCol(col: string) returns (r: Result<LegacyTable>)
      requires Valid()
      modifies store
      ensures Valid()
      ensures old(View()).Remove(col) == if r.Ok? then Ok(View()) else Err(r.error)
      ensures r.Ok? ==> r.value == this
      ensures r.Err? ==> View() == old(View())
    {
      var out := store.DropCol(col);
      if out.Fail? {
        return Err(out.error);
      }
      return Ok(this);
    }

    /** `t._smooth()`: ValueError from `max` without columns; otherwise each
        column in key order is replaced by `v.grow(max_len - len(v))`, whose
        padding the legacy `grow` passes through the dtype, the first
        exception stopping the loop. */
    method Smooth() returns (out: Outcome)
      requires Valid()
      modifies store
      ensures Valid()
      ensures Frames.Smooth(Legacy, conv, old(View())) == (View(), out)
    {
      out := store.Smooth(Legacy, conv);
    }

    /** `t[key] = value`: TypeError for a non-str key; the column is stored
        under the name and the table smoothed again, an exception from
        smoothing raised. */
    method SetItem(key: Arg<string>, value: Col) returns (out: Outcome)
      requires Valid()
      modifies store
      ensures Valid()
      ensures Frames.SetItem(Legacy, conv, old(View()), key, value) == (View(), out)
    {
      if !key.Given? {
        return Fail(TypeError);
      }
      store.frame := store.frame.Put(key.value, value);
      out := Smooth();
    }

    /** `t.concat(other)`: `Table({**self._data, **other._data})`. */
    method Concat(other: LegacyTable) returns (t: LegacyTable)
      requires Valid() && other.Valid()
      ensures fresh(t) && fresh(t.store) && t.Valid()
      ensures t.View() == Frames.Concat(Legacy, conv, View(), other.View())
    {
      t := new LegacyTable(conv, store.frame.Merge(other.store.frame));
    }

    /** `t.left_join(on, other)`: KeyError when either table lacks `on`,
        ValueError when the key dtypes differ; then for each left key the
        first matching row of `other`, or as many Nones as this table has
        columns, appended to a fresh `Table.empty(other.cols, other.dtypes)`,
        every name of this table dropped from it, and the result
        concatenated to this table. */
    method LeftJoin(on: string, other: LegacyTable) returns (r: Result<LegacyTable>)
      requires Valid() && other.Valid()
      ensures r.Ok? ==> fresh(r.value) && fresh(r.value.store) && r.value.Valid()
      ensures LeftJoinOn(conv, View(), other.View(), on) ==
        if r.Ok? then Ok(r.value.View()) else Err(r.error)
    {
      var f := store.frame;
      var g := other.store.frame;
      if on !in f.entries || on !in g.entries {
        return Err(KeyError);
      }
      if f.entries[on].dtype != g.entries[on].dtype {
        return Err(ValueError);
      }
      var empt := Empty(conv, g.keys, Dtypes(g));
      var a := empt.CollectMatches(Ncols(f), g, g.entries[on], f.entries[on].data);
      if a.Err? {
        return Err(a.error);
      }
      var d := empt.DropShared(f.keys, g.keys);
      if d.Err? {
        return Err(d.error);
      }
      var t := Concat(empt);
      return Ok(t);
    }

    /** `t.right_join(on, other)`: `other.left_join(on, self)`. */
    method RightJoin(on: string, other: LegacyTable) returns (r: Result<LegacyTable>)
      requires Valid() && other.Valid()
      ensures r.Ok? ==> fresh(r.value) && fresh(r.value.store) && r.value.Valid()
      ensures RightJoinOn(other.conv, View(), other.View(), on) ==
        if r.Ok? then Ok(r.value.View()) else Err(r.error)
    {
      r := other.LeftJoin(on, this);
    }

    /** The loop of `left_join`: for each `val` of the left key, the index
        `key.find(val)` (-1 when it raises ValueError) selects the row
        `src.i(index)`, or `width` Nones, appended to this table. */
    method CollectMatches(width: nat, src: Frame, key: Col, vals: seq<Value>) returns (r: Result<LegacyTable>)
      requires Valid() && src.Valid()
      modifies store
      ensures Valid()
      ensures JoinFrom(width, src, key, vals, old(View()), 0) == if r.Ok? then Ok(View()) else Err(r.error)
      ensures r.Ok? ==> r.value == this
    {
      var i := 0;
      ghost var start := store.frame;
      while i < |vals|
        invariant i <= |vals|
        invariant store.frame.Valid()
        invariant JoinFrom(width, src, key, vals, store.frame, i) == JoinFrom(width, src, key, vals, start, 0)
      {
        var index: int := -1;
        match Find(key, vals[i]) {
          case Ok(j) => index := j;
          case Err(_) => index := -1;
        }
        var row;
        if index == -1 {
          row := Nones(width);
        } else {
          match Row(src, index) {
            case Err(e) =>
              return Err(e);
            case Ok(t) =>
              row := t;
          }
        }
        var a := AppendRow(Given(row));
        if a.Err? {
          return Err(a.error);
        }
        i := i + 1;
      }
      return Ok(this);
    }

    /** `for col in self.cols: if col in other.cols: empt.drop_col(col)`. */
    method DropShared(ks: seq<string>, other: seq<string>) returns (r: Result<LegacyTable>)
      requires Valid()
      modifies store
      ensures Valid()
      ensures Joins.DropShared(old(View()), ks, other) == if r.Ok? then Ok(View()) else Err(r.error)
      ensures r.Ok? ==> r.value == this
    {
      var i := 0;
      ghost var start := store.frame;
      while i < |ks|
        invariant i <= |ks|
        invariant store.frame.Valid()
        invariant Joins.DropShared(store.frame, ks[i..], other) == Joins.DropShared(start, ks, other)
      {
        assert ks[i..][0] == ks[i] && ks[i..][1..] == ks[i + 1..];
        if ks[i] in other {
          var d := DropCol(ks[i]);
          if d.Err? {
            return Err(d.error);
          }
        }
        i := i + 1;
      }
      return Ok(this);
    }
  }
}
