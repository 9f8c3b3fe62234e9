/** Queries of pyaxols/atypes/table.py that build a new table row by row:
    `get_nones`, `intersect`, `union`, `where`, sorting, joins and grouping.

    Each query starts from `Table.empty(self.cols, self.dtypes)` and appends
    rows to it. The loops `for row in t` take the rows at positions
    `0 .. len(t) - 1`, and `len(t)` is the number of columns; the functions
    below model that, and a second function for each query runs over every
    row, as the documentation describes. */
module Queries {
  import opened Values
  import opened Dicts
  import opened Ranking
  import opened Column
  import opened Frames
  import opened RowOps

  /** `Table.empty(t.cols, t.dtypes)`: `t`'s keys and dtypes, no rows. */
  function Template(f: Frame): (r: Frame)
    requires f.Valid()
    ensures r.Valid() && r.keys == f.keys && Dtypes(r) == Dtypes(f) && Height(r) == 0
  {
    var b := Blank(f.keys, Dtypes(f));
    assert Dtypes(b) == Dtypes(f);
    b
  }

  /** The table `Table.empty` builds for a query is the template. */
  lemma EmptyTemplate(ed: Edition, conv: Converter, f: Frame)
    requires f.Valid()
    ensures Frames.Empty(ed, conv, f.keys, Dtypes(f)) == Template(f)
  {
    var k := Dtypes(f);
    assert k[..|f.keys|] == k;
    EmptyIsBlank(ed, conv, f.keys, k);
  }

  /** The template holding no rows is the template. */
  lemma TemplateNoRows(f: Frame)
    requires f.Valid()
    ensures WithRows(Template(f), []) == Template(f)
  {
    var t := Template(f);
    assert Cols(WithRows(t, [])) == Cols(t) by {
      forall j | 0 <= j < |f.keys| ensures Cols(WithRows(t, []))[j] == Cols(t)[j] {
        assert ColAt(t, j) == Col(f.keys[j], Dtypes(f)[j], []);
      }
    }
    SameCols(WithRows(t, []), t);
  }

  /** A rectangular table whose rows `append_row` accepts for the dtypes `kinds`. */
  predicate FitsIn(f: Frame, kinds: seq<Kind>)
    requires f.Valid()
  {
    Rect(f) && |kinds| == |f.keys| && forall i :: 0 <= i < Height(f) ==> RowFits(kinds, Rows(f)[i])
  }

  /** A rectangular table whose rows `append_row` accepts for its own dtypes. */
  predicate Typed(f: Frame)
    requires f.Valid()
  {
    FitsIn(f, Dtypes(f))
  }

  /** With lawful conversions, a rectangular table of settled columns in the
      packaged or legacy version is typed: every non-None element of a typed
      column is a result of the conversion, so an instance of the dtype. */
  lemma SettledTyped(ed: Edition, conv: Converter, f: Frame)
    requires f.Valid() && Rect(f) && Lawful(conv) && ed != Oldest
    requires forall j :: 0 <= j < |f.keys| ==> Settled(ed, conv, ColAt(f, j))
    ensures Typed(f)
  {
    forall i | 0 <= i < Height(f) ensures RowFits(Dtypes(f), Rows(f)[i]) {
      var row := Rows(f)[i];
      forall j | 0 <= j < |row| ensures row[j] == None || IsInstance(Dtypes(f)[j], row[j]) {
        var c := ColAt(f, j);
        assert row[j] == c.data[i];
        assert Coerce(ed, conv, c.dtype, c.data[i]) == Ok(c.data[i]);
      }
    }
  }

  // ---------------------------------------------------------------------
  // Row loops that keep some rows

  /** What a row loop keeps a row by: holding a None (`get_nones`), being a
      row of another table (`intersect`), which `contains_row` searches among
      its first `len(other)` rows, or among all of them when `all`, or having
      in column `j` a value `func` accepts (`where`). */
  datatype Test = HasNone | InOther(other: Frame, all: bool) | Holds(func: Value -> bool, j: nat)

  /** `None in row`, `other.contains_row(row)`, `func(row[j])`. */
  function Keeps(test: Test, row: seq<Value>): (r: Result<bool>)
    requires test.InOther? ==> test.other.Valid()
    ensures test.HasNone? ==> r == Ok(None in row)
    ensures test.Holds? ==> r == Ok(test.j < |row| && test.func(row[test.j]))
  {
    match test
    case HasNone => Ok(None in row)
    case InOther(other, all) => if all then ContainsRowAll(other, row) else ContainsRow(other, row)
    case Holds(func, j) => Ok(j < |row| && func(row[j]))
  }

  /** The loop `for row in src: if test(row): acc.append_row(row)` over the
      positions `k` up to `n`; the first exception ends it. */
  function Collect(src: Frame, test: Test, acc: Frame, k: nat, n: nat): (r: Result<Frame>)
    requires src.Valid() && acc.Valid() && k <= n
    requires test.InOther? ==> test.other.Valid()
    ensures r.Ok? ==> r.value.Valid() && r.value.keys == acc.keys
    decreases n - k
  {
    if k == n then Ok(acc)
    else
      match Row(src, k) {
        case Err(e) => Err(e)
        case Ok(row) =>
          match Keeps(test, row) {
            case Err(e) => Err(e)
            case Ok(keep) =>
              if !keep then Collect(src, test, acc, k + 1, n)
              else
                match AppendRow(acc, Given(row)) {
                  case Err(e) => Err(e)
                  case Ok(a) => Collect(src, test, a, k + 1, n)
                }
          }
      }
  }

  /** A row loop over positions `k` up to `n`, on a table whose rows at
      positions below `h` are `rows` and which has no row at `h`: when every
      row it reaches fits the result, it appends, in order, the rows the test
      keeps, and it raises IndexError when it runs past the last row. */
  lemma {:induction false} CollectFilter(src: Frame, test: Test, t: Frame, pre: seq<seq<Value>>,
                                         rows: seq<seq<Value>>, h: nat, p: seq<Value> -> bool, k: nat, n: nat)
    requires src.Valid() && t.Valid() && (test.InOther? ==> test.other.Valid())
    requires Fits(pre, |t.keys|) && Fits(rows, |t.keys|) && k <= n && k <= h <= |rows|
    requires Scans(src, test, t, rows, p, k, Min(n, h))
    requires n > h ==> Row(src, h) == Err(IndexError)
    ensures n <= h ==> Collect(src, test, WithRows(t, pre), k, n) == Ok(WithRows(t, pre + Filter(p, rows[k..n])))
    ensures n > h ==> Collect(src, test, WithRows(t, pre), k, n) == Err(IndexError)
    decreases n - k
  {
    if k == n {
      FilterNone(p, pre, rows, k);
    } else if k < h {
      var next := ScanTurn(src, test, t, pre, rows, h, p, k, n);
      CollectFilter(src, test, t, next, rows, h, p, k + 1, n);
      if n <= h {
        FilterTurn(p, pre, next, rows, k, n);
      }
    } else {
      CollectPastEnd(src, test, WithRows(t, pre), k, n);
    }
  }

  /** One turn of the scan: the row at `k` is read, tested and appended to
      `pre` exactly when `p` keeps it, and the scan goes on from `k + 1`. */
  lemma ScanTurn(src: Frame, test: Test, t: Frame, pre: seq<seq<Value>>,
                 rows: seq<seq<Value>>, h: nat, p: seq<Value> -> bool, k: nat, n: nat)
      returns (next: seq<seq<Value>>)
    requires src.Valid() && t.Valid() && (test.InOther? ==> test.other.Valid())
    requires Fits(pre, |t.keys|) && k < n && k < h <= |rows|
    requires Scans(src, test, t, rows, p, k, Min(n, h))
    ensures next == if p(rows[k]) then pre + [rows[k]] else pre
    ensures Fits(next, |t.keys|) && Scans(src, test, t, rows, p, k + 1, Min(n, h))
    ensures Collect(src, test, WithRows(t, pre), k, n) == Collect(src, test, WithRows(t, next), k + 1, n)
  {
    ScansFirst(src, test, t, rows, p, k, Min(n, h));
    next := CollectTurn(src, test, t, pre, rows[k], p(rows[k]), k, n);
  }

  /** A row loop that reaches a position with no row raises IndexError. */
  lemma CollectPastEnd(src: Frame, test: Test, acc: Frame, k: nat, n: nat)
    requires src.Valid() && acc.Valid() && (test.InOther? ==> test.other.Valid()) && k < n
    requires Row(src, k) == Err(IndexError)
    ensures Collect(src, test, acc, k, n) == Err(IndexError)
  {
  }

  /** Filtering an empty slice adds nothing. */
  lemma FilterNone<T>(p: T -> bool, pre: seq<T>, s: seq<T>, k: nat)
    requires k <= |s|
    ensures pre + Filter(p, s[k..k]) == pre
  {
    assert s[k..k] == [];
  }

  /** Rows `k` up to `m` of `src` read as `rows`, fit the dtypes of `t`, and
      are kept by the test as `p` says. */
  ghost predicate Scans(src: Frame, test: Test, t: Frame, rows: seq<seq<Value>>, p: seq<Value> -> bool, k: nat, m: nat)
    requires src.Valid() && t.Valid() && (test.InOther? ==> test.other.Valid()) && m <= |rows|
  {
    forall i :: k <= i < m ==>
      Row(src, i) == Ok(rows[i]) && |rows[i]| == |t.keys| && RowFits(Dtypes(t), rows[i]) &&
      Keeps(test, rows[i]) == Ok(p(rows[i]))
  }

  /** The first row scanned, and the scan after it. */
  lemma ScansFirst(src: Frame, test: Test, t: Frame, rows: seq<seq<Value>>, p: seq<Value> -> bool, k: nat, m: nat)
    requires src.Valid() && t.Valid() && (test.InOther? ==> test.other.Valid()) && k < m <= |rows|
    requires Scans(src, test, t, rows, p, k, m)
    ensures Row(src, k) == Ok(rows[k]) && |rows[k]| == |t.keys| && RowFits(Dtypes(t), rows[k])
    ensures Keeps(test, rows[k]) == Ok(p(rows[k]))
    ensures Scans(src, test, t, rows, p, k + 1, m)
  {
  }

  /** A typed table, scanned from the top into its template. */
  lemma TemplateScans(f: Frame, test: Test, p: seq<Value> -> bool, n: nat)
    requires f.Valid() && Typed(f) && f.keys != [] && (test.InOther? ==> test.other.Valid())
    requires Decides(f, test, p, n)
    ensures Scans(f, test, Template(f), Rows(f), p, 0, Min(n, Height(f)))
  {
    RectRows(f, Dtypes(f), n);
  }

  /** The test decides the first `n` rows of `f` as `p` does. */
  ghost predicate Decides(f: Frame, test: Test, p: seq<Value> -> bool, n: nat)
    requires f.Valid() && Rect(f) && (test.InOther? ==> test.other.Valid())
  {
    forall i :: 0 <= i < Min(n, Height(f)) ==> Keeps(test, Rows(f)[i]) == Ok(p(Rows(f)[i]))
  }

  /** A row loop over a typed table `f`, from the template, keeps exactly the
      first `n` rows that pass, or stops at the row past the last. */
  lemma CollectTemplate(f: Frame, test: Test, p: seq<Value> -> bool, n: nat)
    requires f.Valid() && Typed(f) && (test.InOther? ==> test.other.Valid())
    requires Decides(f, test, p, n)
    requires f.keys == [] ==> n == 0
    ensures n <= Height(f) ==>
      Collect(f, test, Template(f), 0, n) == Ok(WithRows(Template(f), Filter(p, Rows(f)[..n])))
    ensures n == Height(f) ==>
      Collect(f, test, Template(f), 0, n) == Ok(WithRows(Template(f), Filter(p, Rows(f))))
    ensures n > Height(f) ==> Collect(f, test, Template(f), 0, n) == Err(IndexError)
  {
    if f.keys == [] {
      CollectNoColumns(f, test, p);
    } else {
      CollectColumns(f, test, p, n);
    }
  }

  /** A table without columns has no rows, and a loop over it none to keep. */
  lemma CollectNoColumns(f: Frame, test: Test, p: seq<Value> -> bool)
    requires f.Valid() && f.keys == [] && (test.InOther? ==> test.other.Valid())
    ensures Height(f) == 0 && Rect(f)
    ensures Collect(f, test, Template(f), 0, 0) == Ok(WithRows(Template(f), Filter(p, Rows(f)[..0])))
    ensures Filter(p, Rows(f)[..0]) == Filter(p, Rows(f))
  {
    TemplateNoRows(f);
    assert Rows(f) == [] && Rows(f)[..0] == [];
  }

  lemma CollectColumns(f: Frame, test: Test, p: seq<Value> -> bool, n: nat)
    requires f.Valid() && Typed(f) && f.keys != [] && (test.InOther? ==> test.other.Valid())
    requires Decides(f, test, p, n)
    ensures n <= Height(f) ==>
      Collect(f, test, Template(f), 0, n) == Ok(WithRows(Template(f), Filter(p, Rows(f)[..n])))
    ensures n == Height(f) ==> Rows(f)[..n] == Rows(f)
    ensures n > Height(f) ==> Collect(f, test, Template(f), 0, n) == Err(IndexError)
  {
    TemplateNoRows(f);
    TemplateScans(f, test, p, n);
    RowPastEnd(f);
    CollectFilter(f, test, Template(f), [], Rows(f), Height(f), p, 0, n);
    if n <= Height(f) {
      FilterFromStart(p, Rows(f), n);
    }
  }

  /** A typed table has no row at its height. */
  lemma RowPastEnd(f: Frame)
    requires f.Valid() && Typed(f) && f.keys != []
    ensures Row(f, Height(f)) == Err(IndexError)
  {
    RectRows(f, Dtypes(f), 0);
  }

  lemma FilterFromStart<T>(p: T -> bool, s: seq<T>, n: nat)
    requires n <= |s|
    ensures [] + Filter(p, s[0..n]) == Filter(p, s[..n])
  {
    assert s[0..n] == s[..n];
  }

  /** One turn of a row loop: the row read at `k` is appended to `pre`
      exactly when the test keeps it. */
  lemma CollectTurn(src: Frame, test: Test, t: Frame, pre: seq<seq<Value>>, row: seq<Value>, keep: bool, k: nat, n: nat)
      returns (next: seq<seq<Value>>)
    requires src.Valid() && t.Valid() && (test.InOther? ==> test.other.Valid())
    requires Fits(pre, |t.keys|) && |row| == |t.keys| && k < n
    requires Row(src, k) == Ok(row) && RowFits(Dtypes(t), row) && Keeps(test, row) == Ok(keep)
    ensures next == if keep then pre + [row] else pre
    ensures Fits(next, |t.keys|)
    ensures Collect(src, test, WithRows(t, pre), k, n) == Collect(src, test, WithRows(t, next), k + 1, n)
  {
    if keep {
      CollectKeep(src, test, t, pre, row, k, n);
      next := pre + [row];
    } else {
      CollectSkip(src, test, WithRows(t, pre), row, k, n);
      next := pre;
    }
  }

  /** A turn of a row loop that keeps its row. */
  lemma CollectKeep(src: Frame, test: Test, t: Frame, pre: seq<seq<Value>>, row: seq<Value>, k: nat, n: nat)
    requires src.Valid() && t.Valid() && (test.InOther? ==> test.other.Valid())
    requires Fits(pre, |t.keys|) && |row| == |t.keys| && k < n
    requires Row(src, k) == Ok(row) && RowFits(Dtypes(t), row) && Keeps(test, row) == Ok(true)
    ensures Collect(src, test, WithRows(t, pre), k, n) == Collect(src, test, WithRows(t, pre + [row]), k + 1, n)
  {
    AppendRowRows(t, pre, row);
  }

  /** A turn of a row loop that skips its row. */
  lemma CollectSkip(src: Frame, test: Test, acc: Frame, row: seq<Value>, k: nat, n: nat)
    requires src.Valid() && acc.Valid() && (test.InOther? ==> test.other.Valid()) && k < n
    requires Row(src, k) == Ok(row) && Keeps(test, row) == Ok(false)
    ensures Collect(src, test, acc, k, n) == Collect(src, test, acc, k + 1, n)
  {
  }

  /** Reading rows `k` up to `n` of `src` gives `rows`, each fitting `kinds`. */
  ghost predicate Reads(src: Frame, rows: seq<seq<Value>>, kinds: seq<Kind>, k: nat, n: nat)
    requires src.Valid() && n <= |rows|
  {
    forall i :: k <= i < n ==> Row(src, i) == Ok(rows[i]) && |rows[i]| == |kinds| && RowFits(kinds, rows[i])
  }

  /** The first row read, and the reads after it. */
  lemma ReadsFirst(src: Frame, rows: seq<seq<Value>>, kinds: seq<Kind>, k: nat, n: nat)
    requires src.Valid() && k < n <= |rows| && Reads(src, rows, kinds, k, n)
    ensures Row(src, k) == Ok(rows[k]) && |rows[k]| == |kinds| && RowFits(kinds, rows[k])
    ensures Reads(src, rows, kinds, k + 1, n)
  {
  }

  /** The rows read have the length of `kinds`. */
  lemma ReadsFit(src: Frame, rows: seq<seq<Value>>, kinds: seq<Kind>, k: nat, n: nat)
    requires src.Valid() && k <= n <= |rows| && Reads(src, rows, kinds, k, n)
    ensures Fits(rows[k..n], |kinds|)
  {
    forall row | row in rows[k..n] ensures |row| == |kinds| {
      var i :| 0 <= i < n - k && rows[k..n][i] == row;
      assert rows[k + i] == row;
    }
  }

  /** Collecting rows of one length into rows of that length keeps it. */
  lemma AddNewRowsFit(acc: seq<seq<Value>>, s: seq<seq<Value>>, n: nat)
    requires Fits(acc, n) && Fits(s, n)
    ensures Fits(AddNewRows(acc, s), n)
  {
  }

  /** Every row of a table whose rows fit `kinds` reads as itself. */
  lemma RectReads(f: Frame, kinds: seq<Kind>)
    requires f.Valid() && FitsIn(f, kinds) && f.keys != []
    ensures Reads(f, Rows(f), kinds, 0, Height(f))
  {
    RectRows(f, kinds, Height(f));
  }

  /** What the loops above need of a rectangular table and its rows. */
  lemma RectRows(f: Frame, kinds: seq<Kind>, n: nat)
    requires f.Valid() && FitsIn(f, kinds) && f.keys != []
    ensures forall i :: 0 <= i < Min(n, Height(f)) ==>
      Row(f, i) == Ok(Rows(f)[i]) && |Rows(f)[i]| == |kinds| && RowFits(kinds, Rows(f)[i])
    ensures Row(f, Height(f)) == Err(IndexError)
  {
    forall i | 0 <= i < Min(n, Height(f))
      ensures Row(f, i) == Ok(Rows(f)[i]) && |Rows(f)[i]| == |kinds| && RowFits(kinds, Rows(f)[i])
    {
      RowOfRect(f, i);
    }
    RowOfRect(f, Height(f));
  }

  /** Filtering the slice from `k`: its first row is kept or skipped, as
      `next` records. */
  lemma FilterTurn<T>(p: T -> bool, pre: seq<T>, next: seq<T>, s: seq<T>, k: nat, n: nat)
    requires k < n <= |s| && next == if p(s[k]) then pre + [s[k]] else pre
    ensures next + Filter(p, s[k + 1..n]) == pre + Filter(p, s[k..n])
  {
    assert s[k..n][1..] == s[k + 1..n];
    if p(s[k]) {
      FilterKeep(p, s[k..n]);
      Assoc(pre, [s[k]], Filter(p, s[k + 1..n]));
    } else {
      FilterSkip(p, s[k..n]);
    }
  }

  /** The row holds a None: what `get_nones` keeps a row by. */
  predicate HoldsNone(row: seq<Value>) {
    None in row
  }

  /** The row is one of `rows`: what `intersect` keeps a row by. */
  function InRows(rows: seq<seq<Value>>): seq<Value> -> bool {
    row => row in rows
  }

  // ---------------------------------------------------------------------
  // get_nones

  /** `t.get_nones()` (pyaxols/atypes/table.py:495-500): `for row in self`,
      the rows holding a None go to a fresh `Table.empty(self.cols, self.dtypes)`. */
  function GetNones(ed: Edition, conv: Converter, f: Frame): (r: Result<Frame>)
    requires f.Valid()
    ensures r.Ok? ==> r.value.Valid() && r.value.keys == f.keys
  {
    EmptyTemplate(ed, conv, f);
    Collect(f, HasNone, Frames.Empty(ed, conv, f.keys, Dtypes(f)), 0, |f.keys|)
  }

  /** `get_nones` as it is evidently meant: over every row. */
  function GetNonesAll(ed: Edition, conv: Converter, f: Frame): (r: Result<Frame>)
    requires f.Valid()
    ensures r.Ok? ==> r.value.Valid() && r.value.keys == f.keys
  {
    EmptyTemplate(ed, conv, f);
    Collect(f, HasNone, Frames.Empty(ed, conv, f.keys, Dtypes(f)), 0, Height(f))
  }

  /** As written, `get_nones` keeps the rows holding a None among the first
      `len(t)` rows only, and raises IndexError when the table has fewer rows
      than columns. */
  lemma GetNonesFirstRows(ed: Edition, conv: Converter, f: Frame)
    requires f.Valid() && Typed(f)
    ensures |f.keys| <= Height(f) ==>
      GetNones(ed, conv, f) == Ok(WithRows(Template(f), Filter(HoldsNone, Rows(f)[..|f.keys|])))
    ensures |f.keys| > Height(f) ==> GetNones(ed, conv, f) == Err(IndexError)
  {
    EmptyTemplate(ed, conv, f);
    NoneDecides(f, |f.keys|);
    CollectTemplate(f, HasNone, HoldsNone, |f.keys|);
  }

  /** `None in row` decides every row as `HoldsNone`. */
  lemma NoneDecides(f: Frame, n: nat)
    requires f.Valid() && Rect(f)
    ensures Decides(f, HasNone, HoldsNone, n)
  {
  }

  /** The corrected `get_nones` returns exactly the rows holding a None, in order. */
  lemma GetNonesAllRows(ed: Edition, conv: Converter, f: Frame)
    requires f.Valid() && Typed(f)
    ensures GetNonesAll(ed, conv, f) == Ok(WithRows(Template(f), Filter(HoldsNone, Rows(f))))
  {
    EmptyTemplate(ed, conv, f);
    NoneDecides(f, Height(f));
    CollectTemplate(f, HasNone, HoldsNone, Height(f));
  }

  // ---------------------------------------------------------------------
  // intersect

  /** `t.intersect(other)` (pyaxols/atypes/table.py:175-182): ValueError unless
      both tables have the same columns in the same order; then `for row in
      self`, the rows `other.contains_row` finds. */
  function Intersect(ed: Edition, conv: Converter, f: Frame, g: Frame): (r: Result<Frame>)
    requires f.Valid() && g.Valid()
    ensures f.keys != g.keys ==> r == Err(ValueError)
    ensures r.Ok? ==> r.value.Valid() && r.value.keys == f.keys
  {
    EmptyTemplate(ed, conv, f);
    if f.keys != g.keys then Err(ValueError)
    else Collect(f, InOther(g, false), Frames.Empty(ed, conv, f.keys, Dtypes(f)), 0, |f.keys|)
  }

  /** `intersect` as it is evidently meant: every row of this table, searched
      for among every row of the other. */
  function IntersectAll(ed: Edition, conv: Converter, f: Frame, g: Frame): (r: Result<Frame>)
    requires f.Valid() && g.Valid()
    ensures f.keys != g.keys ==> r == Err(ValueError)
    ensures r.Ok? ==> r.value.Valid() && r.value.keys == f.keys
  {
    EmptyTemplate(ed, conv, f);
    if f.keys != g.keys then Err(ValueError)
    else Collect(f, InOther(g, true), Frames.Empty(ed, conv, f.keys, Dtypes(f)), 0, Height(f))
  }

  /** As written, when the other table has at least `len(t)` rows, `intersect`
      keeps those of this table's first `len(t)` rows that are among the
      other's first `len(t)` rows; it raises IndexError when this table has
      fewer rows than columns. */
  lemma IntersectFirstRows(ed: Edition, conv: Converter, f: Frame, g: Frame)
    requires f.Valid() && g.Valid() && Typed(f) && Rect(g) && f.keys == g.keys && |g.keys| <= Height(g)
    ensures |f.keys| <= Height(f) ==>
      Intersect(ed, conv, f, g) == Ok(WithRows(Template(f), Filter(InRows(Rows(g)[..|g.keys|]), Rows(f)[..|f.keys|])))
    ensures |f.keys| > Height(f) ==> Intersect(ed, conv, f, g) == Err(IndexError)
  {
    EmptyTemplate(ed, conv, f);
    var p := InRows(Rows(g)[..|g.keys|]);
    FirstRowsDecide(f, g);
    CollectTemplate(f, InOther(g, false), p, |f.keys|);
  }

  /** `other.contains_row` decides the rows it is asked about as membership
      among the other's first `len(other)` rows. */
  lemma FirstRowsDecide(f: Frame, g: Frame)
    requires f.Valid() && g.Valid() && Typed(f) && Rect(g) && f.keys == g.keys && |g.keys| <= Height(g)
    ensures Decides(f, InOther(g, false), InRows(Rows(g)[..|g.keys|]), |f.keys|)
  {
    var p := InRows(Rows(g)[..|g.keys|]);
    forall i | 0 <= i < Min(|f.keys|, Height(f))
      ensures Keeps(InOther(g, false), Rows(f)[i]) == Ok(p(Rows(f)[i]))
    {
      ContainsRowRows(g, Rows(f)[i]);
    }
  }

  /** The corrected `intersect` keeps exactly the rows of this table that are
      rows of the other, in order. */
  lemma IntersectAllRows(ed: Edition, conv: Converter, f: Frame, g: Frame)
    requires f.Valid() && g.Valid() && Typed(f) && Rect(g) && f.keys == g.keys
    ensures IntersectAll(ed, conv, f, g) == Ok(WithRows(Template(f), Filter(InRows(Rows(g)), Rows(f))))
  {
    EmptyTemplate(ed, conv, f);
    AllRowsDecide(f, g);
    CollectTemplate(f, InOther(g, true), InRows(Rows(g)), Height(f));
  }

  /** The corrected search decides every row as membership among the other's rows. */
  lemma AllRowsDecide(f: Frame, g: Frame)
    requires f.Valid() && g.Valid() && Typed(f) && Rect(g) && f.keys == g.keys
    ensures Decides(f, InOther(g, true), InRows(Rows(g)), Height(f))
  {
    var p := InRows(Rows(g));
    forall i | 0 <= i < Height(f)
      ensures Keeps(InOther(g, true), Rows(f)[i]) == Ok(p(Rows(f)[i]))
    {
      ContainsRowAllFinds(g, Rows(f)[i]);
    }
  }

  // ---------------------------------------------------------------------
  // where

  /** The row's value in column `j` is accepted by `func`. */
  function Satisfies(func: Value -> bool, j: nat): seq<Value> -> bool {
    row => j < |row| && func(row[j])
  }

  /** The loop of `where` from position `k` on: `for i, v in enumerate(self[col])`,
      and when `func(v)`, `append_row(self.i(i))`. It runs over the column's
      values, so once per row of that column. */
  function WhereFrom(f: Frame, vals: seq<Value>, func: Value -> bool, acc: Frame, k: nat): (r: Result<Frame>)
    requires f.Valid() && acc.Valid() && k <= |vals|
    ensures r.Ok? ==> r.value.Valid() && r.value.keys == acc.keys
    decreases |vals| - k
  {
    if k == |vals| then Ok(acc)
    else if !func(vals[k]) then WhereFrom(f, vals, func, acc, k + 1)
    else
      match Row(f, k) {
        case Err(e) => Err(e)
        case Ok(row) =>
          match AppendRow(acc, Given(row)) {
            case Err(e) => Err(e)
            case Ok(a) => WhereFrom(f, vals, func, a, k + 1)
          }
      }
  }

  /** `t.where(col, func)` (pyaxols/atypes/table.py:183-190): TypeError when
      `func` is not callable, KeyError for an unknown column, then the rows
      whose value in `col` passes `func`. */
  function Where(ed: Edition, conv: Converter, f: Frame, col: string, func: Arg<Value -> bool>): (r: Result<Frame>)
    requires f.Valid()
    ensures !func.Given? ==> r == Err(TypeError)
    ensures func.Given? && col !in f.entries ==> r == Err(KeyError)
    ensures r.Ok? ==> r.value.Valid() && r.value.keys == f.keys
  {
    EmptyTemplate(ed, conv, f);
    if !func.Given? then Err(TypeError)
    else if col !in f.entries then Err(KeyError)
    else WhereFrom(f, f.entries[col].data, func.value, Frames.Empty(ed, conv, f.keys, Dtypes(f)), 0)
  }

  /** On a rectangular table, the loop over column `j`'s values is the row
      loop that keeps the rows whose value in column `j` passes. */
  lemma {:induction false} WhereIsCollect(f: Frame, func: Value -> bool, j: nat, acc: Frame, k: nat)
    requires f.Valid() && Rect(f) && j < |f.keys| && acc.Valid() && k <= Height(f)
    ensures |ColAt(f, j).data| == Height(f)
    ensures WhereFrom(f, ColAt(f, j).data, func, acc, k) == Collect(f, Holds(func, j), acc, k, Height(f))
    decreases Height(f) - k
  {
    assert Cols(f)[j] == ColAt(f, j);
    if k < Height(f) {
      var next := WhereTurn(f, func, j, acc, k);
      if next.Ok? {
        WhereIsCollect(f, func, j, next.value, k + 1);
      }
    }
  }

  /** One turn of both loops at position `k`: the table it goes on with, or
      the exception that stops both. */
  lemma WhereTurn(f: Frame, func: Value -> bool, j: nat, acc: Frame, k: nat) returns (next: Result<Frame>)
    requires f.Valid() && Rect(f) && j < |f.keys| && acc.Valid() && k < Height(f)
    ensures |ColAt(f, j).data| == Height(f)
    ensures next.Ok? ==> (next.value.Valid() &&
      WhereFrom(f, ColAt(f, j).data, func, acc, k) == WhereFrom(f, ColAt(f, j).data, func, next.value, k + 1) &&
      Collect(f, Holds(func, j), acc, k, Height(f)) == Collect(f, Holds(func, j), next.value, k + 1, Height(f)))
    ensures next.Err? ==>
      WhereFrom(f, ColAt(f, j).data, func, acc, k) == Err(next.error) &&
      Collect(f, Holds(func, j), acc, k, Height(f)) == Err(next.error)
  {
    var row := Rows(f)[k];
    WhereRow(f, j, k);
    if !func(row[j]) {
      WhereSkip(f, func, j, acc, k, row);
      next := Ok(acc);
    } else {
      next := AppendRow(acc, Given(row));
      match next {
        case Ok(a) => WhereKeep(f, func, j, acc, k, row, a);
        case Err(e) => WhereStop(f, func, j, acc, k, row, e);
      }
    }
  }

  /** Row `k` of a rectangular table holds column `j`'s value at `k`. */
  lemma WhereRow(f: Frame, j: nat, k: nat)
    requires f.Valid() && Rect(f) && j < |f.keys| && k < Height(f)
    ensures Row(f, k) == Ok(Rows(f)[k]) && |Rows(f)[k]| == |f.keys|
    ensures Rows(f)[k][j] == ColAt(f, j).data[k] && |ColAt(f, j).data| == Height(f)
    ensures AtRow(f, j, k, Rows(f)[k])
  {
    RowOfRect(f, k);
    assert Cols(f)[j] == ColAt(f, j);
  }

  /** What a turn of the two loops at position `k` sees. */
  predicate AtRow(f: Frame, j: nat, k: nat, row: seq<Value>)
    requires f.Valid()
  {
    j < |f.keys| && k < Height(f) && |ColAt(f, j).data| == Height(f) && Row(f, k) == Ok(row) &&
    j < |row| && row[j] == ColAt(f, j).data[k]
  }

  /** A turn of both loops that skips its row. */
  lemma WhereSkip(f: Frame, func: Value -> bool, j: nat, acc: Frame, k: nat, row: seq<Value>)
    requires f.Valid() && acc.Valid() && AtRow(f, j, k, row) && !func(row[j])
    ensures WhereFrom(f, ColAt(f, j).data, func, acc, k) == WhereFrom(f, ColAt(f, j).data, func, acc, k + 1)
    ensures Collect(f, Holds(func, j), acc, k, Height(f)) == Collect(f, Holds(func, j), acc, k + 1, Height(f))
  {
  }

  /** A turn of both loops that appends its row. */
  lemma WhereKeep(f: Frame, func: Value -> bool, j: nat, acc: Frame, k: nat, row: seq<Value>, a: Frame)
    requires f.Valid() && acc.Valid() && a.Valid() && AtRow(f, j, k, row) && func(row[j])
    requires AppendRow(acc, Given(row)) == Ok(a)
    ensures WhereFrom(f, ColAt(f, j).data, func, acc, k) == WhereFrom(f, ColAt(f, j).data, func, a, k + 1)
    ensures Collect(f, Holds(func, j), acc, k, Height(f)) == Collect(f, Holds(func, j), a, k + 1, Height(f))
  {
    WhereFromKeep(f, ColAt(f, j).data, func, acc, k, row, a);
    CollectKeepHolds(f, func, j, acc, k, row, a);
  }

  lemma WhereFromKeep(f: Frame, vals: seq<Value>, func: Value -> bool, acc: Frame, k: nat, row: seq<Value>, a: Frame)
    requires f.Valid() && acc.Valid() && k < |vals| && func(vals[k]) && Row(f, k) == Ok(row)
    requires AppendRow(acc, Given(row)) == Ok(a)
    ensures WhereFrom(f, vals, func, acc, k) == WhereFrom(f, vals, func, a, k + 1)
  {
  }

  lemma CollectKeepHolds(f: Frame, func: Value -> bool, j: nat, acc: Frame, k: nat, row: seq<Value>, a: Frame)
    requires f.Valid() && acc.Valid() && k < Height(f) && Row(f, k) == Ok(row) && j < |row| && func(row[j])
    requires AppendRow(acc, Given(row)) == Ok(a)
    ensures Collect(f, Holds(func, j), acc, k, Height(f)) == Collect(f, Holds(func, j), a, k + 1, Height(f))
  {
  }

  /** A turn of both loops that stops at the exception `append_row` raises. */
  lemma WhereStop(f: Frame, func: Value -> bool, j: nat, acc: Frame, k: nat, row: seq<Value>, e: Error)
    requires f.Valid() && acc.Valid() && AtRow(f, j, k, row) && func(row[j])
    requires AppendRow(acc, Given(row)) == Err(e)
    ensures WhereFrom(f, ColAt(f, j).data, func, acc, k) == Err(e)
    ensures Collect(f, Holds(func, j), acc, k, Height(f)) == Err(e)
  {
  }

  /** Column `j` of every row decides what `Holds(func, j)` keeps. */
  lemma HoldsDecides(f: Frame, func: Value -> bool, j: nat, n: nat)
    requires f.Valid() && Rect(f)
    ensures Decides(f, Holds(func, j), Satisfies(func, j), n)
  {
  }

  /** On a typed table, `where` returns exactly the rows whose value in the
      column passes `func`, in order. */
  lemma WhereRows(ed: Edition, conv: Converter, f: Frame, col: string, func: Value -> bool, j: nat)
    requires f.Valid() && Typed(f) && j < |f.keys| && f.keys[j] == col
    ensures Where(ed, conv, f, col, Given(func)) == Ok(WithRows(Template(f), Filter(Satisfies(func, j), Rows(f))))
  {
    EmptyTemplate(ed, conv, f);
    WhereIsCollect(f, func, j, Template(f), 0);
    HoldsDecides(f, func, j, Height(f));
    CollectTemplate(f, Holds(func, j), Satisfies(func, j), Height(f));
  }

  // ---------------------------------------------------------------------
  // union

  /** The loop `for row in src: if not acc.contains_row(row): acc.append_row(row)`
      over positions `k` up to `n`; `all` selects the search over every row
      of the accumulator instead of its first `len(acc)` rows. */
  function AddNew(src: Frame, all: bool, acc: Frame, k: nat, n: nat): (r: Result<Frame>)
    requires src.Valid() && acc.Valid() && k <= n
    ensures r.Ok? ==> r.value.Valid() && r.value.keys == acc.keys
    decreases n - k
  {
    if k == n then Ok(acc)
    else
      match Row(src, k) {
        case Err(e) => Err(e)
        case Ok(row) =>
          match if all then ContainsRowAll(acc, row) else ContainsRow(acc, row) {
            case Err(e) => Err(e)
            case Ok(found) =>
              if found then AddNew(src, all, acc, k + 1, n)
              else
                match AppendRow(acc, Given(row)) {
                  case Err(e) => Err(e)
                  case Ok(a) => AddNew(src, all, a, k + 1, n)
                }
          }
      }
  }

  /** `t.union(other)` (pyaxols/atypes/table.py:114-127): ValueError unless
      both tables have the same set of column names, in any order; then the
      rows of `other`, and after them those of `t`, that the result does not
      yet contain. Rows are taken positionally in each table's own order. */
  function Union(ed: Edition, conv: Converter, f: Frame, g: Frame): (r: Result<Frame>)
    requires f.Valid() && g.Valid()
    ensures f.entries.Keys != g.entries.Keys ==> r == Err(ValueError)
    ensures r.Ok? ==> r.value.Valid() && r.value.keys == f.keys
  {
    EmptyTemplate(ed, conv, f);
    if f.entries.Keys != g.entries.Keys then Err(ValueError)
    else
      match AddNew(g, false, Frames.Empty(ed, conv, f.keys, Dtypes(f)), 0, |g.keys|) {
        case Err(e) => Err(e)
        case Ok(a) => AddNew(f, false, a, 0, |f.keys|)
      }
  }

  /** Two dicts with the same keys have as many keys. */
  lemma SameKeyCount(f: Frame, g: Frame)
    requires f.Valid() && g.Valid() && f.entries.Keys == g.entries.Keys
    ensures |f.keys| == |g.keys|
  {
    CardDistinct(f.keys);
    CardDistinct(g.keys);
    assert ToSet(f.keys) == f.entries.Keys;
    assert ToSet(g.keys) == g.entries.Keys;
  }

  /** As written, `union` of two tables with at least one column always raises
      IndexError: the first `contains_row` on the empty result reads its row 0. */
  lemma UnionRaises(ed: Edition, conv: Converter, f: Frame, g: Frame)
    requires f.Valid() && g.Valid() && f.entries.Keys == g.entries.Keys
    ensures Union(ed, conv, f, g) == if f.keys == [] then Ok(Template(f)) else Err(IndexError)
  {
    EmptyTemplate(ed, conv, f);
    SameKeyCount(f, g);
    if f.keys != [] {
      AddNewFirstFails(g, Template(f), |g.keys|);
    }
  }

  /** Adding a table's rows to a result with columns and no rows fails at once:
      reading row 0 of either raises IndexError. */
  lemma AddNewFirstFails(g: Frame, t: Frame, n: nat)
    requires g.Valid() && t.Valid() && t.keys != [] && Height(t) == 0 && |g.keys| == |t.keys| && n > 0
    ensures AddNew(g, false, t, 0, n) == Err(IndexError)
  {
    match Row(g, 0) {
      case Err(e) =>
      case Ok(row) =>
        assert !InRange(|ColAt(t, 0).data|, 0);
        assert Row(t, 0) == Err(IndexError);
        assert ContainsRow(t, row) == Err(IndexError);
    }
  }

  /** The rows of `s` not yet collected, added to `acc` in order: the
      reference for the corrected `union`. */
  function AddNewRows(acc: seq<seq<Value>>, s: seq<seq<Value>>): (r: seq<seq<Value>>)
    ensures forall x :: x in r ==> x in acc || x in s
    decreases |s|
  {
    if s == [] then acc
    else AddNewRows(if s[0] in acc then acc else acc + [s[0]], s[1..])
  }

  /** The rows of `s`, each once, in order of first occurrence. */
  function Dedup(s: seq<seq<Value>>): seq<seq<Value>> {
    AddNewRows([], s)
  }

  /** Adding the rows of `a + b` adds those of `a`, then those of `b`. */
  lemma {:induction false} AddNewRowsAppend(acc: seq<seq<Value>>, a: seq<seq<Value>>, b: seq<seq<Value>>)
    ensures AddNewRows(acc, a + b) == AddNewRows(AddNewRows(acc, a), b)
    decreases |a|
  {
    if a != [] {
      assert (a + b)[0] == a[0] && (a + b)[1..] == a[1..] + b;
      AddNewRowsAppend(if a[0] in acc then acc else acc + [a[0]], a[1..], b);
    } else {
      assert a + b == b;
    }
  }

  /** The collected rows are those of `acc` and of `s`, and each occurs once
      when those of `acc` did. */
  lemma {:induction false} AddNewRowsMembers(acc: seq<seq<Value>>, s: seq<seq<Value>>)
    ensures forall x :: x in AddNewRows(acc, s) <==> x in acc || x in s
    ensures Distinct(acc) ==> Distinct(AddNewRows(acc, s))
    decreases |s|
  {
    if s != [] {
      var acc' := if s[0] in acc then acc else acc + [s[0]];
      DistinctSnoc(acc, s[0]);
      AddNewRowsMembers(acc', s[1..]);
      assert forall x :: x in s <==> x == s[0] || x in s[1..];
    }
  }

  /** `Dedup(s)` holds each row of `s` exactly once. */
  lemma DedupRows(s: seq<seq<Value>>)
    ensures Distinct(Dedup(s))
    ensures forall x :: x in Dedup(s) <==> x in s
  {
    AddNewRowsMembers([], s);
  }

  /** `union` as its documentation describes it: every row of both tables,
      searched for among every row collected so far. */
  function UnionDistinct(ed: Edition, conv: Converter, f: Frame, g: Frame): (r: Result<Frame>)
    requires f.Valid() && g.Valid()
    ensures f.entries.Keys != g.entries.Keys ==> r == Err(ValueError)
    ensures r.Ok? ==> r.value.Valid() && r.value.keys == f.keys
  {
    EmptyTemplate(ed, conv, f);
    if f.entries.Keys != g.entries.Keys then Err(ValueError)
    else
      match AddNew(g, true, Frames.Empty(ed, conv, f.keys, Dtypes(f)), 0, Height(g)) {
        case Err(e) => Err(e)
        case Ok(a) => AddNew(f, true, a, 0, Height(f))
      }
  }

  /** The corrected `union` of a typed table and a table whose rows fit its
      dtypes holds each row of `other`, then of `t`, once, in order of first
      occurrence. */
  lemma UnionDistinctRows(ed: Edition, conv: Converter, f: Frame, g: Frame)
    requires f.Valid() && g.Valid() && Typed(f) && FitsIn(g, Dtypes(f)) && f.entries.Keys == g.entries.Keys
    ensures UnionDistinct(ed, conv, f, g) == Ok(WithRows(Template(f), Dedup(Rows(g) + Rows(f))))
  {
    EmptyTemplate(ed, conv, f);
    SameKeyCount(f, g);
    var t := Template(f);
    TemplateNoRows(f);
    if f.keys == [] {
      assert Rows(g) + Rows(f) == [];
    } else {
      AddNewAll(g, t, []);
      AddNewAll(f, t, Dedup(Rows(g)));
      AddNewRowsAppend([], Rows(g), Rows(f));
    }
  }

  /** The corrected loop over every row of a table whose rows fit the result
      adds, in order, the rows not yet collected. */
  lemma AddNewAll(src: Frame, t: Frame, pre: seq<seq<Value>>)
    requires src.Valid() && t.Valid() && t.keys != [] && FitsIn(src, Dtypes(t)) && Fits(pre, |t.keys|)
    ensures Fits(AddNewRows(pre, Rows(src)), |t.keys|)
    ensures AddNew(src, true, WithRows(t, pre), 0, Height(src)) == Ok(WithRows(t, AddNewRows(pre, Rows(src))))
  {
    RectReads(src, Dtypes(t));
    AddNewFilter(src, t, pre, Rows(src), 0, Height(src));
    SliceAll(Rows(src));
  }

  /** The corrected loop from position `k` up to `n`, given the rows it reads there. */
  lemma {:induction false} AddNewFilter(src: Frame, t: Frame, pre: seq<seq<Value>>, rows: seq<seq<Value>>, k: nat, n: nat)
    requires src.Valid() && t.Valid() && t.keys != [] && Fits(pre, |t.keys|) && k <= n <= |rows|
    requires Reads(src, rows, Dtypes(t), k, n)
    ensures Fits(AddNewRows(pre, rows[k..n]), |t.keys|)
    ensures AddNew(src, true, WithRows(t, pre), k, n) == Ok(WithRows(t, AddNewRows(pre, rows[k..n])))
    decreases n - k
  {
    if k == n {
      AddNewNone(pre, rows, k);
    } else {
      var next := AddNewScan(src, t, pre, rows, k, n);
      AddNewFilter(src, t, next, rows, k + 1, n);
      AddNewRowsStep(pre, rows, k, n);
    }
  }

  /** Adding the rows of an empty slice adds nothing. */
  lemma AddNewNone(pre: seq<seq<Value>>, rows: seq<seq<Value>>, k: nat)
    requires k <= |rows|
    ensures AddNewRows(pre, rows[k..k]) == pre
  {
    assert rows[k..k] == [];
  }

  /** One turn of the corrected loop over the rows it reads: the row at `k`
      is added when it is new, and the reads go on from `k + 1`. */
  lemma AddNewScan(src: Frame, t: Frame, pre: seq<seq<Value>>, rows: seq<seq<Value>>, k: nat, n: nat)
      returns (next: seq<seq<Value>>)
    requires src.Valid() && t.Valid() && t.keys != [] && Fits(pre, |t.keys|) && k < n <= |rows|
    requires Reads(src, rows, Dtypes(t), k, n)
    ensures next == if rows[k] in pre then pre else pre + [rows[k]]
    ensures Fits(next, |t.keys|) && Reads(src, rows, Dtypes(t), k + 1, n)
    ensures AddNew(src, true, WithRows(t, pre), k, n) == AddNew(src, true, WithRows(t, next), k + 1, n)
  {
    ReadsFirst(src, rows, Dtypes(t), k, n);
    AddNewTurn(src, t, pre, rows[k], k, n);
    next := if rows[k] in pre then pre else pre + [rows[k]];
  }

  /** `AddNewRows` takes the rows one at a time. */
  lemma AddNewRowsStep(pre: seq<seq<Value>>, rows: seq<seq<Value>>, k: nat, n: nat)
    requires k < n <= |rows|
    ensures AddNewRows(pre, rows[k..n]) ==
      AddNewRows(if rows[k] in pre then pre else pre + [rows[k]], rows[k + 1..n])
  {
    assert rows[k..n][0] == rows[k] && rows[k..n][1..] == rows[k + 1..n];
  }

  /** One turn of the corrected loop: a row already collected is skipped, a
      new one appended. */
  lemma AddNewTurn(src: Frame, t: Frame, pre: seq<seq<Value>>, row: seq<Value>, k: nat, n: nat)
    requires src.Valid() && t.Valid() && t.keys != [] && Fits(pre, |t.keys|) && k < n
    requires Row(src, k) == Ok(row) && |row| == |t.keys| && RowFits(Dtypes(t), row)
    ensures Fits(if row in pre then pre else pre + [row], |t.keys|)
    ensures AddNew(src, true, WithRows(t, pre), k, n) ==
      AddNew(src, true, WithRows(t, if row in pre then pre else pre + [row]), k + 1, n)
  {
    ContainsRowWithRows(t, pre, row);
    if row in pre {
      AddNewFound(src, true, WithRows(t, pre), row, k, n);
    } else {
      FitsSnoc(pre, row, |t.keys|);
      AddNewAppends(src, t, pre, row, k, n);
    }
  }

  /** A row not yet collected goes to the end of the rows. */
  lemma AddNewAppends(src: Frame, t: Frame, pre: seq<seq<Value>>, row: seq<Value>, k: nat, n: nat)
    requires src.Valid() && t.Valid() && t.keys != [] && Fits(pre, |t.keys|) && k < n
    requires Row(src, k) == Ok(row) && |row| == |t.keys| && RowFits(Dtypes(t), row) && row !in pre
    requires Fits(pre + [row], |t.keys|)
    ensures AddNew(src, true, WithRows(t, pre), k, n) == AddNew(src, true, WithRows(t, pre + [row]), k + 1, n)
  {
    ContainsRowWithRows(t, pre, row);
    AppendRowRows(t, pre, row);
  }

  /** The search over every row of a table of `rows` is membership. */
  lemma ContainsRowWithRows(t: Frame, rows: seq<seq<Value>>, row: seq<Value>)
    requires t.Valid() && t.keys != [] && Fits(rows, |t.keys|) && |row| == |t.keys|
    ensures ContainsRowAll(WithRows(t, rows), row) == Ok(row in rows)
  {
    WithRowsRows(t, rows);
    ContainsRowAllFinds(WithRows(t, rows), row);
  }

  /** A row the accumulator holds is skipped. */
  lemma AddNewFound(src: Frame, all: bool, acc: Frame, row: seq<Value>, k: nat, n: nat)
    requires src.Valid() && acc.Valid() && k < n && Row(src, k) == Ok(row)
    requires (if all then ContainsRowAll(acc, row) else ContainsRow(acc, row)) == Ok(true)
    ensures AddNew(src, all, acc, k, n) == AddNew(src, all, acc, k + 1, n)
  {
  }

}
