/** The `Table` object of pyaxols/atypes/table.py, whose methods change it
    in place.

    A table holds its dict `_data` by reference: `copy(t)` makes a second
    table object around the very same dict, and every method below that
    changes a table changes that dict. The dict is the `Store` object;
    its contents are a `Frame` value, and each method is proved to leave
    it as the matching function of the row and column model says. */
module Tables {
  import opened Values
  import opened Dicts
  import opened Column
  import opened Frames
  import opened RowOps
  import opened Queries
  import opened Joins
  import opened Ordering

  /** The dict `self._data`, shared by a table and its shallow copies. */
  class Store {
    var frame: Frame

    constructor (f: Frame)
      ensures frame == f
    {
      frame := f;
    }

    /** The body of `append_row`, the same in both editions of the table:
        the checks first, then one element appended to each column in key
        order. */
    method AppendRow(row: Arg<seq<Value>>) returns (out: Outcome)
      requires frame.Valid()
      modifies this
      ensures frame.Valid()
      ensures RowOps.AppendRow(old(frame), row) == if out.Pass? then Ok(frame) else Err(out.error)
      ensures out.Fail? ==> frame == old(frame)
    {
      if !row.Given? {
        return Fail(TypeError);
      }
      var v := row.value;
      if |v| != |frame.keys| {
        return Fail(ValueError);
      }
      var fits := CheckRow(frame, v);
      if !fits {
        return Fail(TypeError);
      }
      PushRow(v);
      return Pass;
    }

    /** The dtype check of `append_row`, element by element. */
    static method CheckRow(f: Frame, v: seq<Value>) returns (fits: bool)
      requires f.Valid() && |v| == |f.keys|
      ensures fits == RowFits(Dtypes(f), v)
    {
      var i := 0;
      while i < |v|
        invariant i <= |v|
        invariant forall j :: 0 <= j < i ==> v[j] == None || IsInstance(Dtypes(f)[j], v[j])
      {
        if !IsInstance(ColAt(f, i).dtype, v[i]) && v[i] != None {
          return false;
        }
        i := i + 1;
      }
      return true;
    }

    /** The appending loop of `append_row`: one element to the end of each
        column, in key order. */
    method PushRow(v: seq<Value>)
      requires frame.Valid() && |v| == |frame.keys|
      modifies this
      ensures frame.Valid() && frame == Extend(old(frame), v)
    {
      var f := frame;
      var i := 0;
      while i < |f.keys|
        invariant i <= |f.keys|
        invariant frame.Valid() && frame.keys == f.keys
        invariant Cols(frame) == Push(Cols(f)[..i], v[..i]) + Cols(f)[i..]
      {
        var k := f.keys[i];
        var c := frame.entries[k];
        PushMore(frame, f, v, i);
        frame := frame.Put(k, Col(c.name, c.dtype, c.data + [v[i]]));
        i := i + 1;
      }
      PushAll(frame, f, v);
    }

    /** `del self._data[col]`, KeyError for a missing name. */
    method DropCol(col: string) returns (out: Outcome)
      requires frame.Valid()
      modifies this
      ensures frame.Valid()
      ensures old(frame).Remove(col) == if out.Pass? then Ok(frame) else Err(out.error)
      ensures out.Fail? ==> frame == old(frame)
    {
      match frame.Remove(col) {
        case Err(e) => return Fail(e);
        case Ok(d) =>
          frame := d;
          return Pass;
      }
    }

    /** The column loop of `drop_row` and `_smooth`: each column in key
        order is replaced by what `g` makes of it, the first exception
        stopping the loop with the earlier columns already replaced. */
    method UpdateColumns(g: Col -> Result<Col>) returns (out: Outcome)
      requires frame.Valid()
      modifies this
      ensures frame.Valid()
      ensures UpdateEach(old(frame), g, 0) == (frame, out)
    {
      var f := frame;
      var i := 0;
      while i < |f.keys|
        invariant i <= |f.keys|
        invariant frame.Valid() && frame.keys == f.keys
        invariant UpdateEach(frame, g, i) == UpdateEach(f, g, 0)
      {
        var k := f.keys[i];
        var next := g(frame.entries[k]);
        if next.Err? {
          UpdateStop(frame, g, i, next.error);
          return Fail(next.error);
        }
        UpdateGo(frame, g, i, next.value);
        frame := frame.Put(k, next.value);
        i := i + 1;
      }
      UpdateDone(frame, g);
      return Pass;
    }

    /** `_smooth()` of the edition `ed`: ValueError from `max` without
        columns; otherwise each column in key order is replaced by
        `s.grow(max_len - len(s))`, the first exception stopping the loop. */
    method Smooth(ed: Edition, conv: Converter) returns (out: Outcome)
      requires frame.Valid()
      modifies this
      ensures frame.Valid()
      ensures Frames.Smooth(ed, conv, old(frame)) == (frame, out)
    {
      if frame.keys == [] {
        return Fail(ValueError);
      }
      out := UpdateColumns(Grower(ed, conv, MaxLen(Cols(frame))));
    }
  }

  /** The outcome of a method that raises or returns a value. */
  function OutcomeOf<T>(r: Result<T>): Outcome {
    if r.Ok? then Pass else Fail(r.error)
  }

  /** What `next` gives: a row, StopIteration, or another exception. */
  datatype Step = Yield(row: seq<Value>) | Stop | Raise(error: Error)

  function StepOf(r: Result<seq<Value>>): Step {
    if r.Ok? then Yield(r.value) else Raise(r.error)
  }

  class Table {
    const conv: Converter
    /** The dict `self._data`, which copies of the table share. */
    const store: Store
    /** The cursor `self.it` of `__iter__`/`__next__`. */
    var it: int

    ghost predicate Valid()
      reads store
    {
      store.frame.Valid()
    }

    /** The current contents of `self._data`. */
    function View(): Frame
      reads store
    {
      store.frame
    }

    /** `Table(data)`: the dict is smoothed, any exception from smoothing
        swallowed. */
    constructor (conv: Converter, data: Frame)
      requires data.Valid()
      ensures Valid() && fresh(store) && this.conv == conv
      ensures View() == Init(Packaged, conv, data)
    {
      this.conv := conv;
      store := new Store(Init(Packaged, conv, data));
    }

    /** A second table object around an existing dict. */
    constructor Sharing(conv: Converter, s: Store)
      ensures store == s && this.conv == conv
    {
      this.conv := conv;
      store := s;
    }

    /** `Table.empty(cols, dtypes)`. */
    static method Empty(conv: Converter, names: seq<string>, kinds: seq<Kind>) returns (t: Table)
      ensures fresh(t) && fresh(t.store) && t.Valid() && t.conv == conv
      ensures t.View() == Frames.Empty(Packaged, conv, names, kinds)
    {
      var s := new Store(Frames.Empty(Packaged, conv, names, kinds));
      t := new Table.Sharing(conv, s);
    }

    /** `copy(self)`: a new table object sharing this table's dict. */
    method Copy() returns (t: Table)
      ensures fresh(t) && t.store == store && t.conv == conv
    {
      t := new Table.Sharing(conv, store);
    }

    // -------------------------------------------------------------------
    // Changing the table in place

    /** `t.append_row(row)`: the checks first, then one element appended to
        each column in key order; `self` is returned. */
    method AppendRow(row: Arg<seq<Value>>) returns (r: Result<Table>)
      requires Valid()
      modifies store
      ensures Valid()
      ensures RowOps.AppendRow(old(View()), row) == if r.Ok? then Ok(View()) else Err(r.error)
      ensures r.Ok? ==> r.value == this
      ensures r.Err? ==> View() == old(View())
    {
      var out := store.AppendRow(row);
      if out.Fail? {
        return Err(out.error);
      }
      return Ok(this);
    }

    /** `t.drop_col(col)`: `del self._data[col]`, KeyError for a missing name. */
    method DropCol(col: string) returns (r: Result<Table>)
      requires Valid()
      modifies store
      ensures Valid()
      ensures old(View()).Remove(col) == if r.Ok? then Ok(View()) else Err(r.error)
      ensures r.Ok? ==> r.value == this
      ensures r.Err? ==> View() == old(View())
    {
      var out := store.DropCol(col);
      if out.Fail? {
        return Err(out.error);
      }
      return Ok(this);
    }

    /** `t.drop_row(index)`: `del self._data[col][index]` for each column in
        key order; an IndexError leaves the earlier columns shortened. */
    method DropRow(index: int) returns (r: Result<Table>)
      requires Valid()
      modifies store
      ensures Valid()
      ensures RowOps.DropRow(old(View()), index) == (View(), OutcomeOf(r))
      ensures r.Ok? ==> r.value == this
    {
      var out := store.UpdateColumns(Deleter(index));
      if out.Fail? {
        return Err(out.error);
      }
      return Ok(this);
    }

    /** `t.drop_nones()`: `while i < shape[1]`, a row holding a None is
        dropped and the next row moves up to `i`. */
    method DropNones() returns (r: Result<Table>)
      requires Valid()
      modifies store
      ensures Valid()
      ensures RowOps.DropNones(old(View())) == (View(), OutcomeOf(r))
      ensures r.Ok? ==> r.value == this
    {
      var f := store.frame;
      var i := 0;
      while i < Height(store.frame)
        invariant store.frame.Valid() && store.frame.keys == f.keys
        invariant DropNonesFrom(store.frame, i) == RowOps.DropNones(f)
        decreases Height(store.frame) - i
      {
        var cur := store.frame;
        match Row(cur, i) {
          case Err(e) =>
            return Err(e);
          case Ok(row) =>
            if NoNone(row) {
              i := i + 1;
            } else {
              var d := DropRow(i);
              if d.Err? {
                return Err(d.error);
              }
              DropOneRow(cur, i);
            }
        }
      }
      return Ok(this);
    }

    /** `t[key] = value`: the column is stored under the name and the table
        smoothed again; an exception from smoothing is raised, the columns
        padded so far staying padded. */
    method SetItem(key: Arg<string>, value: Col) returns (out: Outcome)
      requires Valid()
      modifies store
      ensures Valid()
      ensures Frames.SetItem(Packaged, conv, old(View()), key, value) == (View(), out)
    {
      if !key.Given? {
        return Fail(TypeError);
      }
      store.frame := store.frame.Put(key.value, value);
      out := Smooth();
    }

    /** `t._smooth()`: ValueError from `max` without columns; otherwise each
        column in key order is replaced by `s.grow(max_len - len(s))`, the
        first exception stopping the loop. */
    method Smooth() returns (out: Outcome)
      requires Valid()
      modifies store
      ensures Valid()
      ensures Frames.Smooth(Packaged, conv, old(View())) == (View(), out)
    {
      out := store.Smooth(Packaged, conv);
    }

    /** `t.concat(other)`: `Table({**self._data, **other._data})`. */
    method Concat(other: Table) returns (t: Table)
      requires Valid() && other.Valid()
      ensures fresh(t) && fresh(t.store) && t.Valid()
      ensures t.View() == Frames.Concat(Packaged, conv, View(), other.View())
    {
      t := new Table(conv, store.frame.Merge(other.store.frame));
    }

    // -------------------------------------------------------------------
    // Iteration

    /** `iter(t)`: the cursor `self.it` goes back to 0 and `self` is returned. */
    method Iter() returns (self: Table)
      modifies this
      ensures self == this && it == 0
    {
      it := 0;
      return this;
    }

    /** `next(t)`: while `it < len(self)`, which is the number of columns, the
        cursor moves on and the row at its old place is returned, or the
        IndexError that `self.i(...)` raises; after that StopIteration. */
    method Next() returns (r: Step)
      requires Valid()
      modifies this
      ensures old(it) < |View().keys| ==> it == old(it) + 1 && r == StepOf(Row(View(), old(it)))
      ensures old(it) >= |View().keys| ==> it == old(it) && r == Stop
    {
      if it < |store.frame.keys| {
        it := it + 1;
        return StepOf(Row(store.frame, it - 1));
      }
      return Stop;
    }

    /** `t.dropped_col(col)`: `copy(self).drop_col(col)`. The copy shares
        this table's dict, so this table loses the column as well. */
    method DroppedCol(col: string) returns (r: Result<Table>)
      requires Valid()
      modifies store
      ensures Valid()
      ensures old(View()).Remove(col) == if r.Ok? then Ok(View()) else Err(r.error)
      ensures r.Ok? ==> fresh(r.value) && r.value.store == store
    {
      var t := Copy();
      r := t.DropCol(col);
    }

    /** `t.dropped_row(index)`: `copy(self).drop_row(index)`, which drops the
        row from this table as well. */
    method DroppedRow(index: int) returns (r: Result<Table>)
      requires Valid()
      modifies store
      ensures Valid()
      ensures RowOps.DropRow(old(View()), index) == (View(), OutcomeOf(r))
      ensures r.Ok? ==> fresh(r.value) && r.value.store == store
    {
      var t := Copy();
      r := t.DropRow(index);
    }

    /** `t.dropped_nones`: `copy(self).drop_nones()`, which drops the rows
        from this table as well. */
    method DroppedNones() returns (r: Result<Table>)
      requires Valid()
      modifies store
      ensures Valid()
      ensures RowOps.DropNones(old(View())) == (View(), OutcomeOf(r))
      ensures r.Ok? ==> fresh(r.value) && r.value.store == store
    {
      var t := Copy();
      r := t.DropNones();
    }

    /** What `dropped_col` is documented to do: a copy of the table without
        the column, this table left as it is. The copy gets a dict of its own. */
    method DroppedColCopy(col: string) returns (r: Result<Table>)
      requires Valid()
      ensures r.Ok? ==> fresh(r.value) && fresh(r.value.store) && r.value.Valid()
      ensures View().Remove(col) == if r.Ok? then Ok(r.value.View()) else Err(r.error)
    {
      var s := new Store(store.frame);
      var t := new Table.Sharing(conv, s);
      r := t.DropCol(col);
    }

    /** What `dropped_row` is documented to do, this table left as it is. */
    method DroppedRowCopy(index: int) returns (r: Result<Table>)
      requires Valid()
      ensures r.Ok? ==> fresh(r.value) && fresh(r.value.store) && r.value.Valid()
      ensures r.Ok? ==> RowOps.DropRow(View(), index) == (r.value.View(), Pass)
      ensures r.Err? ==> RowOps.DropRow(View(), index).1 == Fail(r.error)
    {
      var s := new Store(store.frame);
      var t := new Table.Sharing(conv, s);
      r := t.DropRow(index);
    }

    /** What `dropped_nones` is documented to do, this table left as it is. */
    method DroppedNonesCopy() returns (r: Result<Table>)
      requires Valid()
      ensures r.Ok? ==> fresh(r.value) && fresh(r.value.store) && r.value.Valid()
      ensures r.Ok? ==> RowOps.DropNones(View()) == (r.value.View(), Pass)
      ensures r.Err? ==> RowOps.DropNones(View()).1 == Fail(r.error)
    {
      var s := new Store(store.frame);
      var t := new Table.Sharing(conv, s);
      r := t.DropNones();
    }

    // -------------------------------------------------------------------
    // Queries: loops that read this table and build a new one

    /** `t.row_count(row)`: `for i in range(len(self))`, counting the rows
        `self.i(i)` equal to `row`; the loop runs once per column. */
    method RowCount(row: seq<Value>) returns (r: Result<nat>)
      requires Valid()
      ensures r == RowOps.RowCount(View(), row)
    {
      var f := store.frame;
      if |row| != |f.keys| {
        return Err(ValueError);
      }
      var res := 0;
      var i := 0;
      while i < |f.keys|
        invariant i <= |f.keys|
        invariant RowOps.RowCount(f, row) == Shifted(res, CountFrom(f, row, i, |f.keys|))
      {
        match Row(f, i) {
          case Err(e) =>
            return Err(e);
          case Ok(t) =>
            if t == row {
              res := res + 1;
            }
        }
        i := i + 1;
      }
      return Ok(res);
    }

    /** `t.contains_row(row)`: `for r in self`, true at the first row equal to
        `row`; the loop runs once per column. */
    method ContainsRow(row: seq<Value>) returns (r: Result<bool>)
      requires Valid()
      ensures r == RowOps.ContainsRow(View(), row)
    {
      var f := store.frame;
      if |row| != |f.keys| {
        return Err(ValueError);
      }
      var i := 0;
      while i < |f.keys|
        invariant i <= |f.keys|
        invariant RowOps.ContainsRow(f, row) == FindRow(f, row, i, |f.keys|)
      {
        match Row(f, i) {
          case Err(e) =>
            return Err(e);
          case Ok(t) =>
            if t == row {
              return Ok(true);
            }
        }
        i := i + 1;
      }
      return Ok(false);
    }

    /** `t.get_nones()`: `for row in self`, the rows holding a None appended
        to a fresh `Table.empty(self.cols, self.dtypes)`. */
    method GetNones() returns (r: Result<Table>)
      requires Valid()
      ensures r.Ok? ==> fresh(r.value) && fresh(r.value.store) && r.value.Valid()
      ensures Queries.GetNones(Packaged, conv, View()) == if r.Ok? then Ok(r.value.View()) else Err(r.error)
    {
      var f := store.frame;
      EmptyTemplate(Packaged, conv, f);
      var empt := Table.Empty(conv, f.keys, Dtypes(f));
      r := empt.CollectNones(f);
    }

    /** `for row in src: if None in row: self.append_row(row)`, over the first
        `len(src)` positions. */
    method CollectNones(src: Frame) returns (r: Result<Table>)
      requires Valid() && src.Valid()
      modifies store
      ensures Valid()
      ensures Collect(src, HasNone, old(View()), 0, |src.keys|) == if r.Ok? then Ok(View()) else Err(r.error)
      ensures r.Ok? ==> r.value == this
    {
      var i := 0;
      ghost var start := store.frame;
      while i < |src.keys|
        invariant i <= |src.keys|
        invariant store.frame.Valid()
        invariant Collect(src, HasNone, store.frame, i, |src.keys|) == Collect(src, HasNone, start, 0, |src.keys|)
      {
        var out := NonesStep(src, i, |src.keys|);
        if out.Fail? {
          return Err(out.error);
        }
        i := i + 1;
      }
      return Ok(this);
    }

    /** One turn of that loop: the row at `i` is appended when it holds a
        None. */
    method NonesStep(src: Frame, i: nat, n: nat) returns (out: Outcome)
      requires Valid() && src.Valid() && i < n
      modifies store
      ensures Valid()
      ensures out.Pass? ==> Collect(src, HasNone, old(View()), i, n) == Collect(src, HasNone, View(), i + 1, n)
      ensures out.Fail? ==> Collect(src, HasNone, old(View()), i, n) == Err(out.error)
    {
      match Row(src, i) {
        case Err(e) =>
          return Fail(e);
        case Ok(row) =>
          if None in row {
            var a := AppendRow(Given(row));
            if a.Err? {
              return Fail(a.error);
            }
          }
      }
      return Pass;
    }

    /** `t.intersect(other)`: ValueError unless both tables have the same
        columns in the same order; then `for row in self`, the rows
        `other.contains_row(row)` finds. */
    method Intersect(other: Table) returns (r: Result<Table>)
      requires Valid() && other.Valid()
      ensures r.Ok? ==> fresh(r.value) && fresh(r.value.store) && r.value.Valid()
      ensures Queries.Intersect(Packaged, conv, View(), other.View()) == if r.Ok? then Ok(r.value.View()) else Err(r.error)
    {
      var f := store.frame;
      if f.keys != other.store.frame.keys {
        return Err(ValueError);
      }
      EmptyTemplate(Packaged, conv, f);
      var empt := Table.Empty(conv, f.keys, Dtypes(f));
      r := empt.CollectFound(f, other);
    }

    /** `for row in src: if other.contains_row(row): self.append_row(row)`,
        over the first `len(src)` positions. */
    method CollectFound(src: Frame, other: Table) returns (r: Result<Table>)
      requires Valid() && src.Valid() && other.Valid() && other.store != store
      modifies store
      ensures Valid()
      ensures Collect(src, InOther(other.View(), false), old(View()), 0, |src.keys|) ==
        if r.Ok? then Ok(View()) else Err(r.error)
      ensures r.Ok? ==> r.value == this
    {
      var i := 0;
      ghost var start := store.frame;
      ghost var test := InOther(other.store.frame, false);
      while i < |src.keys|
        invariant i <= |src.keys|
        invariant store.frame.Valid()
        invariant Collect(src, test, store.frame, i, |src.keys|) == Collect(src, test, start, 0, |src.keys|)
      {
        match Row(src, i) {
          case Err(e) =>
            return Err(e);
          case Ok(row) =>
            var found := other.ContainsRow(row);
            if found.Err? {
              return Err(found.error);
            }
            if found.value {
              var a := AppendRow(Given(row));
              if a.Err? {
                return Err(a.error);
              }
            }
        }
        i := i + 1;
      }
      return Ok(this);
    }

    /** `t.where(col, func)`: TypeError when `func` is not callable, KeyError
        for an unknown column; then `for i, v in enumerate(self[col])`, the
        rows `self.i(i)` whose value passes `func`. */
    method Where(col: string, func: Arg<Value -> bool>) returns (r: Result<Table>)
      requires Valid()
      ensures r.Ok? ==> fresh(r.value) && fresh(r.value.store) && r.value.Valid()
      ensures Queries.Where(Packaged, conv, View(), col, func) == if r.Ok? then Ok(r.value.View()) else Err(r.error)
    {
      var f := store.frame;
      if !func.Given? {
        return Err(TypeError);
      }
      if col !in f.entries {
        return Err(KeyError);
      }
      var empt := Table.Empty(conv, f.keys, Dtypes(f));
      WhereIs(Packaged, conv, f, col, func.value);
      r := empt.CollectWhere(f, f.entries[col].data, func.value);
    }

    /** `for i, v in enumerate(vals): if func(v): self.append_row(src.i(i))`. */
    method CollectWhere(src: Frame, vals: seq<Value>, func: Value -> bool) returns (r: Result<Table>)
      requires Valid() && src.Valid()
      modifies store
      ensures Valid()
      ensures WhereFrom(src, vals, func, old(View()), 0) == if r.Ok? then Ok(View()) else Err(r.error)
      ensures r.Ok? ==> r.value == this
    {
      var i := 0;
      ghost var start := store.frame;
      while i < |vals|
        invariant i <= |vals|
        invariant store.frame.Valid()
        invariant WhereFrom(src, vals, func, store.frame, i) == WhereFrom(src, vals, func, start, 0)
      {
        if func(vals[i]) {
          match Row(src, i) {
            case Err(e) =>
              return Err(e);
            case Ok(row) =>
              var a := AppendRow(Given(row));
              if a.Err? {
                return Err(a.error);
              }
          }
        }
        i := i + 1;
      }
      return Ok(this);
    }

    /** `t.union(other)`: ValueError unless both tables have the same set of
        names; then `for row in other`, and after it `for row in self`, each
        row the result does not yet contain is appended to it. */
    method Union(other: Table) returns (r: Result<Table>)
      requires Valid() && other.Valid()
      ensures r.Ok? ==> fresh(r.value) && fresh(r.value.store) && r.value.Valid()
      ensures Queries.Union(Packaged, conv, View(), other.View()) == if r.Ok? then Ok(r.value.View()) else Err(r.error)
    {
      var f := store.frame;
      var g := other.store.frame;
      if f.entries.Keys != g.entries.Keys {
        return Err(ValueError);
      }
      EmptyTemplate(Packaged, conv, f);
      var empt := Table.Empty(conv, f.keys, Dtypes(f));
      var e := empt.AddMissing(g);
      if e.Err? {
        return Err(e.error);
      }
      e := empt.AddMissing(f);
      if e.Err? {
        return Err(e.error);
      }
      return Ok(empt);
    }

    /** `t.left_join(right, left_on, right_on)`: KeyError for a missing key
        column, ValueError when the key dtypes differ or the tables share a
        column other than the one key name; then for each left key the first
        matching right row, or a row of Nones, appended to a fresh
        `Table.empty(right.cols, right.dtypes)`, the left table's names
        dropped from it, and the result concatenated to this table. */
    method LeftJoin(right: Table, lo: string, ro: string) returns (r: Result<Table>)
      requires Valid() && right.Valid()
      ensures r.Ok? ==> fresh(r.value) && fresh(r.value.store) && r.value.Valid()
      ensures Joins.LeftJoin(Packaged, conv, View(), right.View(), lo, ro) ==
        if r.Ok? then Ok(r.value.View()) else Err(r.error)
    {
      var f := store.frame;
      var g := right.store.frame;
      if lo !in f.entries || ro !in g.entries {
        return Err(KeyError);
      }
      if f.entries[lo].dtype != g.entries[ro].dtype {
        return Err(ValueError);
      }
      var common := if lo == ro then 1 else 0;
      if |ToSet(f.keys) * ToSet(g.keys)| != common {
        return Err(ValueError);
      }
      var m := MatchedRows(g, g.entries[ro], f.entries[lo].data, f.keys);
      if m.Err? {
        return Err(m.error);
      }
      var t := Concat(m.value);
      return Ok(t);
    }

    /** The rows of `left_join` before the concatenation: the matches
        collected into an empty table of `g`'s columns, then the columns
        both tables share dropped from it. */
    method MatchedRows(g: Frame, key: Col, vals: seq<Value>, ks: seq<string>) returns (r: Result<Table>)
      requires g.Valid()
      ensures r.Ok? ==> fresh(r.value) && fresh(r.value.store) && r.value.Valid() && r.value.conv == conv
      ensures Joined(g, key, vals, ks) == if r.Ok? then Ok(r.value.View()) else Err(r.error)
    {
      var empt := Table.Empty(conv, g.keys, Dtypes(g));
      var a := empt.CollectMatches(g, key, vals);
      if a.Err? {
        return Err(a.error);
      }
      var d := empt.DropShared(ks, g.keys);
      if d.Err? {
        return Err(d.error);
      }
      return Ok(empt);
    }

    /** What `MatchedRows` computes, as `Joins.LeftJoin` does it. */
    ghost function Joined(g: Frame, key: Col, vals: seq<Value>, ks: seq<string>): Result<Frame>
      requires g.Valid()
    {
      match JoinFrom(g, key, vals, Frames.Empty(Packaged, conv, g.keys, Dtypes(g)), 0) {
        case Err(e) => Err(e)
        case Ok(acc) => Joins.DropShared(acc, ks, g.keys)
      }
    }

    /** `t.right_join(left, left_on, right_on)`: `left.left_join(self, ...)`. */
    method RightJoin(left: Table, lo: string, ro: string) returns (r: Result<Table>)
      requires Valid() && left.Valid()
      ensures r.Ok? ==> fresh(r.value) && fresh(r.value.store) && r.value.Valid()
      ensures Joins.RightJoin(Packaged, left.conv, View(), left.View(), lo, ro) ==
        if r.Ok? then Ok(r.value.View()) else Err(r.error)
    {
      r := left.LeftJoin(this, lo, ro);
    }

    /** `t.inner_join(other, self_on, other_on)`: the left join, then
        `.dropped_col(other_on).dropped_nones`. */
    method InnerJoin(other: Table, so: string, oo: string) returns (r: Result<Table>)
      requires Valid() && other.Valid()
      ensures r.Ok? ==> r.value.Valid()
      ensures Joins.InnerJoin(Packaged, conv, View(), other.View(), so, oo) ==
        if r.Ok? then Ok(r.value.View()) else Err(r.error)
    {
      var t := LeftJoin(other, so, oo);
      if t.Err? {
        return Err(t.error);
      }
      var u := t.value.DroppedCol(oo);
      if u.Err? {
        return Err(u.error);
      }
      r := u.value.DroppedNones();
    }

    /** The loop of `left_join`: for each `val` of the left key, the index
        `key.find(val)` (-1 when it raises ValueError) selects the row
        `src.i(index)`, or `[None] * src.shape[0]`, appended to this table. */
    method CollectMatches(src: Frame, key: Col, vals: seq<Value>) returns (r: Result<Table>)
      requires Valid() && src.Valid()
      modifies store
      ensures Valid()
      ensures JoinFrom(src, key, vals, old(View()), 0) == if r.Ok? then Ok(View()) else Err(r.error)
      ensures r.Ok? ==> r.value == this
    {
      var i := 0;
      ghost var start := store.frame;
      while i < |vals|
        invariant i <= |vals|
        invariant store.frame.Valid()
        invariant JoinFrom(src, key, vals, store.frame, i) == JoinFrom(src, key, vals, start, 0)
      {
        var index: int := -1;
        match Find(key, vals[i]) {
          case Ok(j) => index := j;
          case Err(_) => index := -1;
        }
        var row;
        if index == -1 {
          row := Nones(Shape(src).0);
        } else {
          match Row(src, index) {
            case Err(e) =>
              return Err(e);
            case Ok(t) =>
              row := t;
          }
        }
        var a := AppendRow(Given(row));
        if a.Err? {
          return Err(a.error);
        }
        i := i + 1;
      }
      return Ok(this);
    }

    /** `for col in ks: if col in other: self.drop_col(col)`. */
    method DropShared(ks: seq<string>, other: seq<string>) returns (r: Result<Table>)
      requires Valid()
      modifies store
      ensures Valid()
      ensures Joins.DropShared(old(View()), ks, other) == if r.Ok? then Ok(View()) else Err(r.error)
      ensures r.Ok? ==> r.value == this
    {
      var i := 0;
      ghost var start := store.frame;
      while i < |ks|
        invariant i <= |ks|
        invariant store.frame.Valid()
        invariant Joins.DropShared(store.frame, ks[i..], other) == Joins.DropShared(start, ks, other)
      {
        assert ks[i..][0] == ks[i] && ks[i..][1..] == ks[i + 1..];
        if ks[i] in other {
          var d := DropCol(ks[i]);
          if d.Err? {
            return Err(d.error);
          }
        }
        i := i + 1;
      }
      return Ok(this);
    }

    /** `t.group_by(col)`, with `sorted` taking the rows in `argsort` order:
        `prev_val = sorted[col][0]` (IndexError without rows), then for each
        row of the sorted table, a key that differs from the previous one
        appends the current table to `res`, starts a fresh `Table.empty` and
        appends that too; the row then goes to the current table. */
    method GroupBy(col: Arg<string>, lt: (Value, Value) -> bool) returns (r: Result<seq<Table>>, ghost gs: seq<Table>)
      requires Valid()
      ensures r.Ok? ==> forall t :: t in r.value ==> t.Valid() && fresh(t.store)
      ensures Ordering.GroupBy(Packaged, conv, View(), col, lt) == if r.Ok? then Ok(Views(r.value)) else Err(r.error)
      ensures r.Ok? ==>
        r.value == Pairs(gs) && SeparateStores(gs) &&
        GroupList(Packaged, conv, View(), col, lt) == Ok(Views(gs))
    {
      var f := store.frame;
      var st := GroupStart(Packaged, conv, f, col, lt);
      if st.Err? {
        GroupByRaise(Packaged, conv, f, col, lt, st.error);
        return Err(st.error), [];
      }
      GroupByLoop(Packaged, conv, f, col, lt, st.value);
      r, gs := GroupRuns(conv, st.value.sorted, st.value.keys, st.value.first, f.keys, Dtypes(f));
    }

    /** `for row in src: if not self.contains_row(row): self.append_row(row)`,
        over the first `len(src)` positions. */
    method AddMissing(src: Frame) returns (r: Result<Table>)
      requires Valid() && src.Valid()
      modifies store
      ensures Valid()
      ensures AddNew(src, false, old(View()), 0, |src.keys|) == if r.Ok? then Ok(View()) else Err(r.error)
      ensures r.Ok? ==> r.value == this
    {
      var i := 0;
      ghost var start := store.frame;
      while i < |src.keys|
        invariant i <= |src.keys|
        invariant store.frame.Valid()
        invariant AddNew(src, false, store.frame, i, |src.keys|) == AddNew(src, false, start, 0, |src.keys|)
      {
        var out := AddStep(src, i, |src.keys|);
        if out.Fail? {
          return Err(out.error);
        }
        i := i + 1;
      }
      return Ok(this);
    }

    /** One turn of that loop: the row at `i` is appended unless
        `contains_row` finds it. */
    method AddStep(src: Frame, i: nat, n: nat) returns (out: Outcome)
      requires Valid() && src.Valid() && i < n
      modifies store
      ensures Valid()
      ensures out.Pass? ==> AddNew(src, false, old(View()), i, n) == AddNew(src, false, View(), i + 1, n)
      ensures out.Fail? ==> AddNew(src, false, old(View()), i, n) == Err(out.error)
    {
      match Row(src, i) {
        case Err(e) =>
          return Fail(e);
        case Ok(row) =>
          var found := ContainsRow(row);
          if found.Err? {
            return Fail(found.error);
          }
          if !found.value {
            var a := AppendRow(Given(row));
            if a.Err? {
              return Fail(a.error);
            }
          }
      }
      return Pass;
    }
  }

  /** The loop of `group_by` over the sorted table `s` with key column `vals`,
      starting with `empt` as the current table. A table appended to `res`
      is filled afterwards, so the result is read once the loop is over.
      The groups `gs` are laid out in `res` as `Pairs` says: each inner
      group is one object appended twice, and different groups hold
      different dicts. */
  method GroupRuns(conv: Converter, s: Frame, vals: seq<Value>, first: Value, names: seq<string>, kinds: seq<Kind>)
    returns (r: Result<seq<Table>>, ghost gs: seq<Table>)
    requires s.Valid()
    ensures r.Ok? ==> forall t :: t in r.value ==> t.Valid() && fresh(t.store)
    ensures PairsOf(GroupFrom(Packaged, conv, s, vals, 0, first, Frames.Empty(Packaged, conv, names, kinds), [])) ==
      if r.Ok? then Ok(Views(r.value)) else Err(r.error)
    ensures r.Ok? ==>
      r.value == Pairs(gs) && SeparateStores(gs) &&
      GroupFrom(Packaged, conv, s, vals, 0, first, Frames.Empty(Packaged, conv, names, kinds), []) == Ok(Views(gs))
  {
    var res: seq<Table> := [];
    var empt := Table.Empty(conv, names, kinds);
    var cur := empt;
    ghost var objs: seq<Table> := [];
    ghost var closed: seq<Frame> := [];
    ghost var start := empt.View();
    var prev := first;
    var i := 0;
    while i < |vals|
      invariant i <= |vals|
      invariant cur.Valid() && cur.conv == conv && fresh(cur.store)
      invariant (forall t :: t in objs ==> t.store != cur.store) && Views(objs) == closed
      invariant SeparateStores(objs)
      invariant AllValid(closed)
      invariant forall t :: t in objs ==> fresh(t.store)
      invariant res == Pairs(objs + [cur])
      invariant GroupFrom(Packaged, conv, s, vals, i, prev, cur.View(), closed) ==
        GroupFrom(Packaged, conv, s, vals, 0, first, start, [])
    {
      var next, out;
      next, out, res, objs, closed := GroupStep(conv, s, vals, i, prev, cur, res, objs, closed);
      if out.Fail? {
        return Err(out.error), objs + [cur];
      }
      cur := next;
      prev := vals[i];
      i := i + 1;
    }
    ViewsPairs(objs + [cur]);
    ViewsSnoc(objs, cur);
    ViewsValid(objs + [cur]);
    PairsIn(objs + [cur]);
    SeparateSnoc(objs, cur);
    return Ok(res), objs + [cur];
  }

  /** One turn of the loop of `group_by`: on a new key the current table
      is closed and a fresh empty table, appended to `res` after it, becomes
      the current one; then the row goes into the current table. */
  method GroupStep(conv: Converter, s: Frame, vals: seq<Value>, i: nat, prev: Value, cur: Table,
                   res: seq<Table>, ghost objs: seq<Table>, ghost closed: seq<Frame>)
    returns (next: Table, out: Outcome, res': seq<Table>, ghost objs': seq<Table>, ghost closed': seq<Frame>)
    requires s.Valid() && cur.Valid() && cur.conv == conv && i < |vals|
    requires (forall t :: t in objs ==> t.store != cur.store) && Views(objs) == closed
    requires SeparateStores(objs)
    requires AllValid(closed) && res == Pairs(objs + [cur])
    modifies cur.store
    ensures next.Valid() && next.conv == conv && (next == cur || fresh(next.store))
    ensures objs' == objs || objs' == objs + [cur]
    ensures (forall t :: t in objs' ==> t.store != next.store) && Views(objs') == closed'
    ensures SeparateStores(objs')
    ensures AllValid(closed') && res' == Pairs(objs' + [next])
    ensures out.Fail? ==> GroupFrom(Packaged, conv, s, vals, i, prev, old(cur.View()), closed) == Err(out.error)
    ensures out.Pass? ==>
      GroupFrom(Packaged, conv, s, vals, i, prev, old(cur.View()), closed) ==
      GroupFrom(Packaged, conv, s, vals, i + 1, vals[i], next.View(), closed')
  {
    ghost var before := cur.View();
    label Step:
    next, out := FillStep(conv, s, vals, i, prev, cur, closed);
    ViewsUnchanged@Step(objs);
    ViewsSnoc(objs, cur);
    if vals[i] != prev {
      PairsSnoc(objs + [cur], next);
      SeparateSnoc(objs, cur);
      res', objs', closed' := res + [cur, next], objs + [cur], closed + [before];
    } else {
      res', objs', closed' := res, objs, closed;
    }
  }

  /** The table work of one turn of the loop of `group_by`: on a new key a
      fresh empty table becomes the current one, and the row goes into the
      current table. */
  method FillStep(conv: Converter, s: Frame, vals: seq<Value>, i: nat, prev: Value, cur: Table,
                  ghost closed: seq<Frame>)
    returns (next: Table, out: Outcome)
    requires s.Valid() && cur.Valid() && cur.conv == conv && i < |vals|
    modifies cur.store
    ensures next.Valid() && next.conv == conv
    ensures vals[i] != prev ==> fresh(next.store) && cur.View() == old(cur.View())
    ensures vals[i] == prev ==> next == cur
    ensures out.Fail? ==> GroupFrom(Packaged, conv, s, vals, i, prev, old(cur.View()), closed) == Err(out.error)
    ensures out.Pass? ==>
      GroupFrom(Packaged, conv, s, vals, i, prev, old(cur.View()), closed) ==
      GroupFrom(Packaged, conv, s, vals, i + 1, vals[i], next.View(),
                if vals[i] != prev then closed + [old(cur.View())] else closed)
  {
    ghost var before := cur.View();
    next := cur;
    if vals[i] != prev {
      next := Table.Empty(conv, s.keys, Dtypes(s));
    }
    var row := Row(s, i);
    if row.Err? {
      GroupRowRaise(Packaged, conv, s, vals, i, prev, before, closed, row.error);
      return next, Fail(row.error);
    }
    var a := next.AppendRow(Given(row.value));
    if a.Err? {
      GroupAppendRaise(Packaged, conv, s, vals, i, prev, before, closed, row.value, a.error);
      return next, Fail(a.error);
    }
    if vals[i] != prev {
      GroupNew(Packaged, conv, s, vals, i, prev, vals[i], before, closed, row.value, next.View());
    } else {
      GroupSame(Packaged, conv, s, vals, i, prev, before, closed, row.value, next.View());
    }
    return next, Pass;
  }

  /** Every frame in `fs` is well formed. */
  ghost predicate AllValid(fs: seq<Frame>) {
    forall j :: 0 <= j < |fs| ==> fs[j].Valid()
  }

  /** Tables whose contents are all well formed are valid. */
  lemma ViewsValid(ts: seq<Table>)
    requires AllValid(Views(ts))
    ensures forall t :: t in ts ==> t.Valid()
  {
    forall t | t in ts
      ensures t.Valid()
    {
      var j :| 0 <= j < |ts| && ts[j] == t;
      ViewsAt(ts, j);
      assert Views(ts)[j].Valid();
    }
  }

  lemma {:induction false} ViewsSnoc(ts: seq<Table>, t: Table)
    ensures Views(ts + [t]) == Views(ts) + [t.View()]
  {
    if ts != [] {
      assert (ts + [t])[1..] == ts[1..] + [t];
      ViewsSnoc(ts[1..], t);
    }
  }

  /** Tables whose dicts did not change hold what they held. */
  twostate lemma {:induction false} ViewsUnchanged(ts: seq<Table>)
    requires forall t :: t in ts ==> unchanged(t.store)
    ensures Views(ts) == old(Views(ts))
  {
    if ts != [] {
      ViewsUnchanged(ts[1..]);
    }
  }

  /** Different tables of `ts` hold different dicts. */
  ghost predicate SeparateStores(ts: seq<Table>) {
    forall a, b :: 0 <= a < b < |ts| ==> ts[a].store != ts[b].store
  }

  /** A table whose dict no table of `ts` holds keeps them separate. */
  lemma SeparateSnoc(ts: seq<Table>, t: Table)
    requires SeparateStores(ts) && forall u :: u in ts ==> u.store != t.store
    ensures SeparateStores(ts + [t])
  {
    forall a, b | 0 <= a < b < |ts| + 1
      ensures (ts + [t])[a].store != (ts + [t])[b].store
    {
      if b == |ts| {
        assert ts[a] in ts;
      }
    }
  }

  /** The contents of each table, in order. */
  function Views(ts: seq<Table>): (r: seq<Frame>)
    reads set t | t in ts :: t.store
    ensures |r| == |ts|
  {
    if ts == [] then [] else [ts[0].View()] + Views(ts[1..])
  }

  /** Entry `j` of `Views(ts)` is the contents of table `j`. */
  lemma {:induction false} ViewsAt(ts: seq<Table>, j: nat)
    requires j < |ts|
    ensures Views(ts)[j] == ts[j].View()
  {
    if j > 0 {
      ViewsAt(ts[1..], j - 1);
    }
  }

  lemma {:induction false} ViewsPairs(ts: seq<Table>)
    ensures Views(Pairs(ts)) == Pairs(Views(ts))
  {
    if |ts| >= 2 {
      ViewsPairs(ts[1..]);
      assert Views(ts)[1..] == Views(ts[1..]);
    }
  }

  /** `res + c` carried through a count that may have raised. */
  function Shifted(res: nat, r: Result<nat>): (s: Result<nat>)
    ensures s.Ok? <==> r.Ok?
    ensures s.Ok? ==> s.value == res + r.value
    ensures s.Err? ==> s.error == r.error
  {
    match r
    case Err(e) => Err(e)
    case Ok(c) => Ok(res + c)
  }

  // ---------------------------------------------------------------------
  // Loop steps

  lemma WhereIs(ed: Edition, conv: Converter, f: Frame, col: string, func: Value -> bool)
    requires f.Valid() && col in f.entries
    ensures Queries.Where(ed, conv, f, col, Given(func)) ==
      WhereFrom(f, f.entries[col].data, func, Frames.Empty(ed, conv, f.keys, Dtypes(f)), 0)
  {
  }

  /** A step that raises ends the column loop there. */
  lemma UpdateStop(f: Frame, g: Col -> Result<Col>, j: nat, e: Error)
    requires f.Valid() && j < |f.keys| && g(ColAt(f, j)) == Err(e)
    ensures UpdateEach(f, g, j) == (f, Fail(e))
  {
  }

  /** A step that succeeds stores its column and goes on with the next. */
  lemma UpdateGo(f: Frame, g: Col -> Result<Col>, j: nat, c: Col)
    requires f.Valid() && j < |f.keys| && g(ColAt(f, j)) == Ok(c)
    ensures UpdateEach(f, g, j) == UpdateEach(f.Put(f.keys[j], c), g, j + 1)
  {
  }

  /** Past the last column the loop is over. */
  lemma UpdateDone(f: Frame, g: Col -> Result<Col>)
    requires f.Valid()
    ensures UpdateEach(f, g, |f.keys|) == (f, Pass)
  {
  }

  /** One more column of `append_row`'s second loop gains its element. */
  lemma PushMore(cur: Frame, f: Frame, v: seq<Value>, i: nat)
    requires f.Valid() && cur.Valid() && cur.keys == f.keys && i < |f.keys| == |v|
    requires Cols(cur) == Push(Cols(f)[..i], v[..i]) + Cols(f)[i..]
    ensures var c := cur.entries[f.keys[i]];
      Cols(cur.Put(f.keys[i], Col(c.name, c.dtype, c.data + [v[i]]))) ==
      Push(Cols(f)[..i + 1], v[..i + 1]) + Cols(f)[i + 1..]
  {
    var c := cur.entries[f.keys[i]];
    PushSlide(Cols(f), v, i);
    assert c == Cols(cur)[i];
    PutCols(cur, i, Col(c.name, c.dtype, c.data + [v[i]]));
  }

  /** Columns `..i` pushed and the rest untouched: pushing column `i` as well
      moves the boundary by one. */
  lemma PushSlide(cs: seq<Col>, v: seq<Value>, i: nat)
    requires i < |cs| == |v|
    ensures var s := Push(cs[..i], v[..i]) + cs[i..];
      s[i] == cs[i] &&
      s[i := Col(cs[i].name, cs[i].dtype, cs[i].data + [v[i]])] == Push(cs[..i + 1], v[..i + 1]) + cs[i + 1..]
  {
    var s := Push(cs[..i], v[..i]) + cs[i..];
    var t := Push(cs[..i + 1], v[..i + 1]) + cs[i + 1..];
    var x := Col(cs[i].name, cs[i].dtype, cs[i].data + [v[i]]);
    forall j | 0 <= j < |cs| ensures s[i := x][j] == t[j] {
      if j < i {
        assert s[j] == Push(cs[..i], v[..i])[j] && t[j] == Push(cs[..i + 1], v[..i + 1])[j];
      } else if j > i {
        assert s[j] == cs[j] && t[j] == cs[j];
      }
    }
  }

  /** After the last column the table is the extended one. */
  lemma PushAll(cur: Frame, f: Frame, v: seq<Value>)
    requires f.Valid() && cur.Valid() && cur.keys == f.keys && |f.keys| == |v|
    requires Cols(cur) == Push(Cols(f)[..|v|], v[..|v|]) + Cols(f)[|v|..]
    ensures cur == Extend(f, v)
  {
    assert Cols(f)[..|v|] == Cols(f) && v[..|v|] == v;
    SameCols(cur, Extend(f, v));
  }
}
