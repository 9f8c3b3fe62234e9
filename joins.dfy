/** Joins of the packaged table: `left_join` looks every key of the left
    table up in the right table's key column and attaches the first matching
    row (or Nones), `right_join` swaps the tables, and `inner_join` drops the
    right key and every row holding a None afterwards. */
module Joins {
  import opened Values
  import opened Dicts
  import opened Column
  import opened Frames
  import opened RowOps
  import opened Queries

  // ---------------------------------------------------------------------
  // The model of the source

  /** The row `left_join` appends for the left key `val`:
      `right[right_on].find(val)`, whose ValueError gives
      `[None] * right.shape[0]`, else `right.i(index)`. */
  function MatchRow(g: Frame, key: Col, val: Value): Result<seq<Value>>
    requires g.Valid()
  {
    match Find(key, val)
    case Err(_) => Ok(Nones(Shape(g).0))
    case Ok(index) => Row(g, index)
  }

  /** The loop of `left_join` from the left key at position `k` on, each
      looked-up row appended to `acc`. */
  function JoinFrom(g: Frame, key: Col, vals: seq<Value>, acc: Frame, k: nat): (r: Result<Frame>)
    requires g.Valid() && acc.Valid()
    ensures r.Ok? ==> r.value.Valid()
    decreases |vals| - k
  {
    if k >= |vals| then Ok(acc)
    else
      match MatchRow(g, key, vals[k]) {
        case Err(e) => Err(e)
        case Ok(row) =>
          match AppendRow(acc, Given(row)) {
            case Err(e) => Err(e)
            case Ok(a) => JoinFrom(g, key, vals, a, k + 1)
          }
      }
  }

  /** `for col in self.cols: if col in right.cols: empt.drop_col(col)`. */
  function DropShared(acc: Frame, ks: seq<string>, other: seq<string>): (r: Result<Frame>)
    requires acc.Valid()
    ensures r.Ok? ==> r.value.Valid()
    decreases |ks|
  {
    if ks == [] then Ok(acc)
    else if ks[0] in other then
      match acc.Remove(ks[0]) {
        case Err(e) => Err(e)
        case Ok(a) => DropShared(a, ks[1..], other)
      }
    else DropShared(acc, ks[1..], other)
  }

  /** `self.left_join(right, left_on, right_on)`: KeyError for a missing key
      column, ValueError when the key dtypes differ or when the tables share
      a column other than the one key name (any column at all when the key
      names differ); then one looked-up row per left key, the shared column
      dropped, and the result concatenated to the left table. */
  function LeftJoin(ed: Edition, conv: Converter, f: Frame, g: Frame, lo: string, ro: string): (r: Result<Frame>)
    requires f.Valid() && g.Valid()
    ensures lo !in f.entries || ro !in g.entries ==> r == Err(KeyError)
    ensures lo in f.entries && ro in g.entries && f.entries[lo].dtype != g.entries[ro].dtype ==> r == Err(ValueError)
    ensures (lo in f.entries && ro in g.entries && f.entries[lo].dtype == g.entries[ro].dtype &&
      |ToSet(f.keys) * ToSet(g.keys)| != (if lo == ro then 1 else 0)) ==> r == Err(ValueError)
    ensures r.Ok? ==> r.value.Valid()
  {
    if lo !in f.entries || ro !in g.entries then Err(KeyError)
    else if f.entries[lo].dtype != g.entries[ro].dtype then Err(ValueError)
    else
      var common := if lo == ro then 1 else 0;
      if |ToSet(f.keys) * ToSet(g.keys)| != common then Err(ValueError)
      else
        var empt := Frames.Empty(ed, conv, g.keys, Dtypes(g));
        match JoinFrom(g, g.entries[ro], f.entries[lo].data, empt, 0) {
          case Err(e) => Err(e)
          case Ok(acc) =>
            match DropShared(acc, f.keys, g.keys) {
              case Err(e) => Err(e)
              case Ok(d) => Ok(Concat(ed, conv, f, d))
            }
        }
  }

  /** `self.right_join(left, left_on, right_on)` is `left.left_join(self, ...)`. */
  function RightJoin(ed: Edition, conv: Converter, self: Frame, left: Frame, lo: string, ro: string): (r: Result<Frame>)
    requires self.Valid() && left.Valid()
    ensures r == LeftJoin(ed, conv, left, self, lo, ro)
  {
    LeftJoin(ed, conv, left, self, lo, ro)
  }

  /** `self.inner_join(other, self_on, other_on)`: the left join, then
      `dropped_col(other_on)`, then `dropped_nones`. */
  function InnerJoin(ed: Edition, conv: Converter, f: Frame, g: Frame, so: string, oo: string): (r: Result<Frame>)
    requires f.Valid() && g.Valid()
    ensures LeftJoin(ed, conv, f, g, so, oo).Err? ==> r == Err(LeftJoin(ed, conv, f, g, so, oo).error)
    ensures r.Ok? ==> r.value.Valid()
  {
    match LeftJoin(ed, conv, f, g, so, oo) {
      case Err(e) => Err(e)
      case Ok(t) =>
        match t.Remove(oo) {
          case Err(e) => Err(e)
          case Ok(u) =>
            var d := DropNones(u);
            if d.1.Fail? then Err(d.1.error) else Ok(d.0)
        }
    }
  }

  /** The column check of `left_join` in words: with one key name the
      tables may share that column only, with two key names none at all. */
  lemma LeftJoinSharedRaises(ed: Edition, conv: Converter, f: Frame, g: Frame, lo: string, ro: string, k: string)
    requires f.Valid() && g.Valid() && lo in f.entries && ro in g.entries
    requires f.entries[lo].dtype == g.entries[ro].dtype
    requires k in f.entries && k in g.entries && (lo == ro ==> k != lo)
    ensures LeftJoin(ed, conv, f, g, lo, ro) == Err(ValueError)
  {
    var both := ToSet(f.keys) * ToSet(g.keys);
    assert k in both;
    if lo == ro {
      assert lo in both;
      var rest := both - {lo};
      assert k in rest;
      assert both == rest + {lo};
    }
  }

  // ---------------------------------------------------------------------
  // The rows a join attaches

  /** Row `m` is the first of `rows` whose element `p` is `v`. */
  predicate FirstWith(rows: seq<seq<Value>>, p: nat, v: Value, m: nat)
    requires forall i :: 0 <= i < |rows| ==> p < |rows[i]|
  {
    m < |rows| && rows[m][p] == v && forall i :: 0 <= i < m ==> rows[i][p] != v
  }

  /** The row of `rows` a left key `v` selects, found through the key
      column as a whole. */
  function Matched(rows: seq<seq<Value>>, p: nat, v: Value, n: nat): (r: seq<Value>)
    requires Fits(rows, n) && p < n
    ensures |r| == n
  {
    match IndexOf(Project(rows, p), v) {
      case Ok(m) => rows[m]
      case Err(_) => Nones(n)
    }
  }

  /** The row a left key selects is the first row of `rows` whose element
      `p` is the key, and all Nones when there is none. */
  lemma MatchedFirst(rows: seq<seq<Value>>, p: nat, v: Value, n: nat)
    requires Fits(rows, n) && p < n
    ensures forall m :: 0 <= m < |rows| && FirstWith(rows, p, v, m) ==> Matched(rows, p, v, n) == rows[m]
    ensures (forall i :: 0 <= i < |rows| ==> rows[i][p] != v) ==> Matched(rows, p, v, n) == Nones(n)
  {
    var col := Project(rows, p);
    match IndexOf(col, v) {
      case Ok(m) =>
        forall m' | 0 <= m' < |rows| && FirstWith(rows, p, v, m') ensures m' == m {
          assert col[m'] == v;
        }
      case Err(_) =>
        assert forall i :: 0 <= i < |rows| ==> col[i] in col;
    }
  }

  /** The first `k` rows the left keys `vals` select. */
  function Matches(rows: seq<seq<Value>>, p: nat, vals: seq<Value>, n: nat, k: nat): (r: seq<seq<Value>>)
    requires Fits(rows, n) && p < n && k <= |vals|
    ensures |r| == k && Fits(r, n)
    ensures forall i :: 0 <= i < k ==> r[i] == Matched(rows, p, vals[i], n)
  {
    seq(k, i requires 0 <= i < k => Matched(rows, p, vals[i], n))
  }

  /** `s` without position `p` when `cut` holds, `s` itself otherwise. */
  function Cut<T>(s: seq<T>, p: nat, cut: bool): (r: seq<T>)
    requires p < |s|
    ensures cut ==> |r| == |s| - 1
    ensures !cut ==> r == s
  {
    if cut then s[..p] + s[p + 1..] else s
  }

  lemma CutAt<T>(s: seq<T>, p: nat, i: nat)
    requires p < |s| && i < |s| - 1
    ensures Cut(s, p, true)[i] == if i < p then s[i] else s[i + 1]
  {
  }

  // ---------------------------------------------------------------------
  // What a join computes

  /** A left join whose checks pass: the left columns first, unchanged,
      then the right columns without the shared key; the left table's row
      count; and row `i` is the left row followed by the right row its key
      selects (the first right row with that key, or Nones), without the
      shared key. */
  lemma LeftJoinRows(ed: Edition, conv: Converter, f: Frame, g: Frame, lo: string, ro: string, jl: nat, p: nat)
    requires f.Valid() && g.Valid() && Rect(f) && Typed(g)
    requires jl < |f.keys| && f.keys[jl] == lo && p < |g.keys| && g.keys[p] == ro
    requires ColAt(f, jl).dtype == ColAt(g, p).dtype
    requires |ToSet(f.keys) * ToSet(g.keys)| == (if lo == ro then 1 else 0)
    ensures LeftJoin(ed, conv, f, g, lo, ro).Ok?
    ensures var r := LeftJoin(ed, conv, f, g, lo, ro).value;
      r.keys == f.keys + Cut(g.keys, p, lo == ro) && Rect(r) && Height(r) == Height(f) &&
      Dtypes(r) == Dtypes(f) + Cut(Dtypes(g), p, lo == ro) &&
      (forall j :: 0 <= j < |f.keys| ==> ColAt(r, j) == ColAt(f, j)) &&
      forall i :: 0 <= i < Height(f) ==>
        Rows(r)[i] == Rows(f)[i] + Cut(Matched(Rows(g), p, Rows(f)[i][jl], |g.keys|), p, lo == ro)
    ensures Rows(LeftJoin(ed, conv, f, g, lo, ro).value) == LeftRows(f, g, jl, p, lo == ro)
  {
    var same := lo == ro;
    var vals := ColAt(f, jl).data;
    var n := |g.keys|;
    var m := Matches(Rows(g), p, vals, n, |vals|);
    assert Cols(f)[jl] == ColAt(f, jl);
    assert |vals| == Height(f);
    // the loop
    JoinStart(ed, conv, g, p, vals);
    JoinLoop(g, p, vals, 0);
    var acc := JoinedSoFar(g, p, vals, |vals|);
    // the shared column
    var d := SharedDropped(f, g, lo, ro, jl, p, acc);
    LeftJoinOk(ed, conv, f, g, lo, ro, acc, d);
    // the concatenation
    CutEven(Fill(Cols(Template(g)), m), |vals|, p, same);
    ConcatDisjoint(ed, conv, f, d);
    JoinedShape(f, g, p, jl, same, d, m, Concat(ed, conv, f, d));
  }

  /** The rows of a left join, top to bottom: each left row followed by
      the right row its key selects, without the shared key. */
  function LeftRows(f: Frame, g: Frame, jl: nat, p: nat, same: bool): (r: seq<seq<Value>>)
    requires f.Valid() && g.Valid() && Rect(f) && Rect(g) && jl < |f.keys| && p < |g.keys|
    ensures |r| == Height(f) && Fits(r, |f.keys + Cut(g.keys, p, same)|)
    ensures forall i :: 0 <= i < Height(f) ==>
      r[i] == Rows(f)[i] + Cut(Matched(Rows(g), p, Rows(f)[i][jl], |g.keys|), p, same)
  {
    seq(Height(f), i requires 0 <= i < Height(f) =>
      Rows(f)[i] + Cut(Matched(Rows(g), p, Rows(f)[i][jl], |g.keys|), p, same))
  }

  /** An inner join whose checks pass: the left join without the column
      `other_on` names (the left key itself when both keys have the same
      name) and without every row holding a None, the others in order. */
  lemma InnerJoinRows(ed: Edition, conv: Converter, f: Frame, g: Frame, so: string, oo: string, jl: nat, p: nat)
    requires f.Valid() && g.Valid() && Rect(f) && Typed(g)
    requires jl < |f.keys| && f.keys[jl] == so && p < |g.keys| && g.keys[p] == oo
    requires ColAt(f, jl).dtype == ColAt(g, p).dtype
    requires |ToSet(f.keys) * ToSet(g.keys)| == (if so == oo then 1 else 0)
    ensures LeftJoin(ed, conv, f, g, so, oo).Ok? && InnerJoin(ed, conv, f, g, so, oo).Ok?
    ensures var t := LeftJoin(ed, conv, f, g, so, oo).value;
      var r := InnerJoin(ed, conv, f, g, so, oo).value;
      var q := if so == oo then jl else |f.keys| + p;
      q < |t.keys| && t.keys[q] == oo && r.keys == Cut(t.keys, q, true) && Rect(r) && Rect(t) &&
      (r.keys != [] ==> Rows(r) == Filter(NoNone, CutRows(Rows(t), q, |t.keys|)))
  {
    var t, q, r := InnerJoinParts(ed, conv, f, g, so, oo, jl, p);
  }

  /** `InnerJoinRows` with the left join `t`, the position `q` of the right
      key in it, and the inner join `r` named. */
  lemma InnerJoinParts(ed: Edition, conv: Converter, f: Frame, g: Frame, so: string, oo: string, jl: nat, p: nat)
    returns (t: Frame, q: nat, r: Frame)
    requires f.Valid() && g.Valid() && Rect(f) && Typed(g)
    requires jl < |f.keys| && f.keys[jl] == so && p < |g.keys| && g.keys[p] == oo
    requires ColAt(f, jl).dtype == ColAt(g, p).dtype
    requires |ToSet(f.keys) * ToSet(g.keys)| == (if so == oo then 1 else 0)
    ensures t.Valid() && r.Valid() && LeftJoin(ed, conv, f, g, so, oo) == Ok(t) && InnerJoin(ed, conv, f, g, so, oo) == Ok(r)
    ensures q == (if so == oo then jl else |f.keys| + p) && q < |t.keys| && t.keys[q] == oo
    ensures r.keys == Cut(t.keys, q, true) && Rect(r) && Rect(t)
    ensures r.keys != [] ==> Rows(r) == Filter(NoNone, CutRows(Rows(t), q, |t.keys|))
  {
    t := LeftJoinKeys(ed, conv, f, g, so, oo, jl, p);
    q := if so == oo then jl else |f.keys| + p;
    JoinKeyAt(f.keys, g.keys, t.keys, jl, p, so, oo, q);
    r := InnerAfterLeft(ed, conv, f, g, so, oo, t, q);
  }

  /** The columns of a left join whose checks pass. */
  lemma LeftJoinKeys(ed: Edition, conv: Converter, f: Frame, g: Frame, lo: string, ro: string, jl: nat, p: nat)
    returns (t: Frame)
    requires f.Valid() && g.Valid() && Rect(f) && Typed(g)
    requires jl < |f.keys| && f.keys[jl] == lo && p < |g.keys| && g.keys[p] == ro
    requires ColAt(f, jl).dtype == ColAt(g, p).dtype
    requires |ToSet(f.keys) * ToSet(g.keys)| == (if lo == ro then 1 else 0)
    ensures t.Valid() && LeftJoin(ed, conv, f, g, lo, ro) == Ok(t)
    ensures t.keys == f.keys + Cut(g.keys, p, lo == ro) && Rect(t)
  {
    LeftJoinRows(ed, conv, f, g, lo, ro, jl, p);
    t := LeftJoin(ed, conv, f, g, lo, ro).value;
  }

  /** The inner join after a left join that succeeded. */
  lemma InnerAfterLeft(ed: Edition, conv: Converter, f: Frame, g: Frame, so: string, oo: string, t: Frame, q: nat)
    returns (r: Frame)
    requires f.Valid() && g.Valid() && t.Valid() && Rect(t)
    requires LeftJoin(ed, conv, f, g, so, oo) == Ok(t) && q < |t.keys| && t.keys[q] == oo
    ensures r.Valid() && InnerJoin(ed, conv, f, g, so, oo) == Ok(r)
    ensures r.keys == Cut(t.keys, q, true) && Rect(r)
    ensures r.keys != [] ==> Rows(r) == Filter(NoNone, CutRows(Rows(t), q, |t.keys|))
  {
    var u := DropColRows(t, q, oo);
    NonesDropped(u);
    InnerJoinOk(ed, conv, f, g, so, oo, t, u);
    r := InnerJoin(ed, conv, f, g, so, oo).value;
  }

  /** Where the column `other_on` sits among the left join's columns. */
  lemma JoinKeyAt(fk: seq<string>, gk: seq<string>, tk: seq<string>, jl: nat, p: nat, so: string, oo: string, q: nat)
    requires jl < |fk| && fk[jl] == so && p < |gk| && gk[p] == oo
    requires tk == fk + Cut(gk, p, so == oo) && q == if so == oo then jl else |fk| + p
    ensures q < |tk| && tk[q] == oo
  {
  }

  lemma InnerJoinOk(ed: Edition, conv: Converter, f: Frame, g: Frame, so: string, oo: string, t: Frame, u: Frame)
    requires f.Valid() && g.Valid() && u.Valid()
    requires LeftJoin(ed, conv, f, g, so, oo) == Ok(t) && t.Remove(oo) == Ok(u) && DropNones(u).1 == Pass
    ensures InnerJoin(ed, conv, f, g, so, oo) == Ok(DropNones(u).0)
  {
  }

  /** `drop_nones` on a rectangular table with columns. */
  lemma NonesDropped(u: Frame)
    requires u.Valid() && Rect(u)
    ensures DropNones(u).1 == Pass && DropNones(u).0.keys == u.keys && Rect(DropNones(u).0)
    ensures u.keys != [] ==> Rows(DropNones(u).0) == Filter(NoNone, Rows(u))
  {
    DropNonesRows(u);
    WithRowsRows(u, Filter(NoNone, Rows(u)));
  }

  /** Every row without position `q`. */
  function CutRows(rows: seq<seq<Value>>, q: nat, n: nat): (r: seq<seq<Value>>)
    requires Fits(rows, n) && q < n
    ensures |r| == |rows| && forall i :: 0 <= i < |rows| ==> r[i] == Cut(rows[i], q, true)
  {
    seq(|rows|, i requires 0 <= i < |rows| => Cut(rows[i], q, true))
  }

  /** `t.drop_col(t.cols[q])` on a rectangular table: the column is gone
      and every row loses its element `q`. */
  lemma DropColRows(t: Frame, q: nat, k: string) returns (u: Frame)
    requires t.Valid() && Rect(t) && q < |t.keys| && t.keys[q] == k
    ensures t.Remove(k) == Ok(u)
    ensures u.keys == Cut(t.keys, q, true) && Rect(u)
    ensures u.keys != [] ==> Rows(u) == CutRows(Rows(t), q, |t.keys|)
  {
    RemoveAt(t, q);
    u := t.Remove(t.keys[q]).value;
    CutEven(Cols(t), Height(t), q, true);
    if u.keys != [] {
      CutHeight(t, q, u);
      CutRowsOf(t, q, u);
    }
  }

  /** Dropping a column from a rectangular table keeps its height. */
  lemma CutHeight(t: Frame, q: nat, u: Frame)
    requires t.Valid() && Rect(t) && q < |t.keys| && u.Valid() && u.keys != []
    requires Cols(u) == Cut(Cols(t), q, true) && Even(Cols(u), Height(t))
    ensures Height(u) == Height(t) && Rect(u)
  {
    assert Cols(u)[0] == ColAt(u, 0);
  }

  /** Dropping column `q` drops entry `q` of every row. */
  lemma CutRowsOf(t: Frame, q: nat, u: Frame)
    requires t.Valid() && Rect(t) && q < |t.keys| && u.Valid() && Rect(u)
    requires Cols(u) == Cut(Cols(t), q, true) && Height(u) == Height(t)
    ensures Rows(u) == CutRows(Rows(t), q, |t.keys|)
  {
    forall i | 0 <= i < Height(t) ensures Rows(u)[i] == Cut(Rows(t)[i], q, true) {
      RowsOfCut(Cols(t), Height(t), q, true, i);
    }
  }

  /** A left join whose checks pass and whose loop and drop succeed gives
      the concatenation. */
  lemma LeftJoinOk(ed: Edition, conv: Converter, f: Frame, g: Frame, lo: string, ro: string, acc: Frame, d: Frame)
    requires f.Valid() && g.Valid() && acc.Valid() && lo in f.entries && ro in g.entries
    requires f.entries[lo].dtype == g.entries[ro].dtype
    requires |ToSet(f.keys) * ToSet(g.keys)| == (if lo == ro then 1 else 0)
    requires JoinFrom(g, g.entries[ro], f.entries[lo].data, Frames.Empty(ed, conv, g.keys, Dtypes(g)), 0) == Ok(acc)
    requires DropShared(acc, f.keys, g.keys) == Ok(d)
    ensures LeftJoin(ed, conv, f, g, lo, ro) == Ok(Concat(ed, conv, f, d))
  {
  }

  /** The shape, the dtypes, the columns and the rows of the joined table. */
  lemma JoinedShape(f: Frame, g: Frame, p: nat, jl: nat, same: bool, d: Frame, m: seq<seq<Value>>, r: Frame)
    requires f.Valid() && g.Valid() && d.Valid() && r.Valid() && Rect(f) && f.keys != [] && Typed(g)
    requires jl < |f.keys| && p < |g.keys|
    requires m == Matches(Rows(g), p, ColAt(f, jl).data, |g.keys|, |ColAt(f, jl).data|) && |m| == Height(f)
    requires Cols(d) == Cut(Fill(Cols(Template(g)), m), p, same)
    requires r.keys == f.keys + d.keys && Cols(r) == Cols(f) + Cols(d)
    ensures Rect(r) && Height(r) == Height(f)
    ensures Dtypes(r) == Dtypes(f) + Cut(Dtypes(g), p, same)
    ensures forall j :: 0 <= j < |f.keys| ==> ColAt(r, j) == ColAt(f, j)
    ensures forall i :: 0 <= i < Height(f) ==>
      Rows(r)[i] == Rows(f)[i] + Cut(Matched(Rows(g), p, Rows(f)[i][jl], |g.keys|), p, same)
    ensures Rows(r) == LeftRows(f, g, jl, p, same)
  {
    JoinedRows(f, g, p, jl, same, d, m);
    JoinedHeight(f, d, r);
    DtypesCut(f, g, p, same, d, m, r);
    LeftRowsAre(f, g, jl, p, same, Rows(r));
  }

  lemma LeftRowsAre(f: Frame, g: Frame, jl: nat, p: nat, same: bool, rows: seq<seq<Value>>)
    requires f.Valid() && g.Valid() && Rect(f) && Rect(g) && jl < |f.keys| && p < |g.keys|
    requires |rows| == Height(f)
    requires forall i :: 0 <= i < Height(f) ==>
      rows[i] == Rows(f)[i] + Cut(Matched(Rows(g), p, Rows(f)[i][jl], |g.keys|), p, same)
    ensures rows == LeftRows(f, g, jl, p, same)
  {
  }

  lemma JoinedHeight(f: Frame, d: Frame, r: Frame)
    requires f.Valid() && d.Valid() && r.Valid() && f.keys != [] && Even(Cols(f) + Cols(d), Height(f))
    requires r.keys == f.keys + d.keys && Cols(r) == Cols(f) + Cols(d)
    ensures Rect(r) && Height(r) == Height(f) && Rows(r) == RowsOf(Cols(f) + Cols(d), Height(f))
    ensures forall j :: 0 <= j < |f.keys| ==> ColAt(r, j) == ColAt(f, j)
  {
    assert Cols(r)[0] == Cols(f)[0];
    assert forall j :: 0 <= j < |f.keys| ==> Cols(r)[j] == Cols(f)[j];
  }

  lemma DtypesCut(f: Frame, g: Frame, p: nat, same: bool, d: Frame, m: seq<seq<Value>>, r: Frame)
    requires f.Valid() && g.Valid() && d.Valid() && r.Valid() && p < |g.keys| && Fits(m, |g.keys|)
    requires Cols(d) == Cut(Fill(Cols(Template(g)), m), p, same)
    requires r.keys == f.keys + d.keys && Cols(r) == Cols(f) + Cols(d)
    ensures Dtypes(r) == Dtypes(f) + Cut(Dtypes(g), p, same)
  {
    var t := Template(g);
    DtypesKinds(r);
    DtypesKinds(f);
    DtypesKinds(t);
    KindsAppend(Cols(f), Cols(d));
    KindsCut(Fill(Cols(t), m), p, same);
    KindsFill(Cols(t), m);
  }

  /** The dtypes of columns. */
  function Kinds(cs: seq<Col>): (r: seq<Kind>)
    ensures |r| == |cs| && forall j :: 0 <= j < |cs| ==> r[j] == cs[j].dtype
  {
    seq(|cs|, j requires 0 <= j < |cs| => cs[j].dtype)
  }

  lemma DtypesKinds(f: Frame)
    requires f.Valid()
    ensures Dtypes(f) == Kinds(Cols(f))
  {
  }

  lemma KindsAppend(a: seq<Col>, b: seq<Col>)
    ensures Kinds(a + b) == Kinds(a) + Kinds(b)
  {
  }

  lemma KindsCut(cs: seq<Col>, p: nat, same: bool)
    requires p < |cs|
    ensures Kinds(Cut(cs, p, same)) == Cut(Kinds(cs), p, same)
  {
    if same {
      forall j | 0 <= j < |cs| - 1 ensures Kinds(Cut(cs, p, true))[j] == Cut(Kinds(cs), p, true)[j] {
        CutAt(cs, p, j);
        CutAt(Kinds(cs), p, j);
      }
    }
  }

  lemma KindsFill(cs: seq<Col>, m: seq<seq<Value>>)
    requires Fits(m, |cs|)
    ensures Kinds(Fill(cs, m)) == Kinds(cs)
  {
  }

  /** The table of the first `k` rows selected by the left keys `vals`. */
  function JoinedSoFar(g: Frame, p: nat, vals: seq<Value>, k: nat): (r: Frame)
    requires g.Valid() && Rect(g) && p < |g.keys| && k <= |vals|
    ensures r.Valid()
  {
    WithRows(Template(g), Matches(Rows(g), p, vals, |g.keys|, k))
  }

  /** The loop of `left_join` from the left key at position `k` on. */
  function JoinRest(g: Frame, p: nat, vals: seq<Value>, k: nat): Result<Frame>
    requires g.Valid() && Rect(g) && p < |g.keys| && k <= |vals|
  {
    JoinFrom(g, ColAt(g, p), vals, JoinedSoFar(g, p, vals, k), k)
  }

  /** The loop of `left_join` appends the selected rows, in order. */
  lemma {:induction false} JoinLoop(g: Frame, p: nat, vals: seq<Value>, k: nat)
    requires g.Valid() && Typed(g) && p < |g.keys| && k <= |vals|
    ensures JoinRest(g, p, vals, k) == Ok(JoinedSoFar(g, p, vals, |vals|))
    decreases |vals| - k
  {
    if k < |vals| {
      JoinTurn(g, p, vals, k);
      JoinLoop(g, p, vals, k + 1);
    } else {
      JoinDone(g, p, vals, k);
    }
  }

  /** Past the last left key the loop stops with what it has. */
  lemma JoinDone(g: Frame, p: nat, vals: seq<Value>, k: nat)
    requires g.Valid() && Rect(g) && p < |g.keys| && k == |vals|
    ensures JoinRest(g, p, vals, k) == Ok(JoinedSoFar(g, p, vals, |vals|))
  {
  }

  /** One turn of the loop: the selected row goes to the end. */
  lemma JoinTurn(g: Frame, p: nat, vals: seq<Value>, k: nat)
    requires g.Valid() && Typed(g) && p < |g.keys| && k < |vals|
    ensures JoinRest(g, p, vals, k) == JoinRest(g, p, vals, k + 1)
  {
    var n := |g.keys|;
    var t := Template(g);
    var row := Matched(Rows(g), p, vals[k], n);
    var pre := Matches(Rows(g), p, vals, n, k);
    MatchRowIs(g, p, vals[k]);
    AppendRowRows(t, pre, row);
    MatchesSnoc(Rows(g), p, vals, n, k);
    JoinStep(g, ColAt(g, p), vals, k, WithRows(t, pre), row, WithRows(t, pre + [row]));
  }

  /** One unfolding of the loop. */
  lemma JoinStep(g: Frame, key: Col, vals: seq<Value>, k: nat, acc: Frame, row: seq<Value>, a: Frame)
    requires g.Valid() && acc.Valid() && k < |vals|
    requires MatchRow(g, key, vals[k]) == Ok(row) && AppendRow(acc, Given(row)) == Ok(a)
    ensures JoinFrom(g, key, vals, acc, k) == JoinFrom(g, key, vals, a, k + 1)
  {
  }

  lemma MatchesSnoc(rows: seq<seq<Value>>, p: nat, vals: seq<Value>, n: nat, k: nat)
    requires Fits(rows, n) && p < n && k < |vals|
    ensures Matches(rows, p, vals, n, k + 1) == Matches(rows, p, vals, n, k) + [Matched(rows, p, vals[k], n)]
  {
  }

  /** The loop starts from `Table.empty(right.cols, right.dtypes)`, the
      table of no selected row. */
  lemma JoinStart(ed: Edition, conv: Converter, g: Frame, p: nat, vals: seq<Value>)
    requires g.Valid() && Rect(g) && p < |g.keys|
    ensures Frames.Empty(ed, conv, g.keys, Dtypes(g)) == JoinedSoFar(g, p, vals, 0)
  {
    EmptyTemplate(ed, conv, g);
    assert Matches(Rows(g), p, vals, |g.keys|, 0) == [];
    TemplateNoRows(g);
  }

  /** The lookup of a left key gives the selected row, and `append_row`
      accepts it. */
  lemma MatchRowIs(g: Frame, p: nat, v: Value)
    requires g.Valid() && Typed(g) && p < |g.keys|
    ensures MatchRow(g, ColAt(g, p), v) == Ok(Matched(Rows(g), p, v, |g.keys|))
    ensures RowFits(Dtypes(g), Matched(Rows(g), p, v, |g.keys|))
  {
    var key := ColAt(g, p);
    assert Cols(g)[p] == key;
    assert key.data == Project(Rows(g), p);
    RectRows(g, Dtypes(g), Height(g));
  }

  /** After the checks, the loop over the left keys drops the shared key
      column from the looked-up rows, if there is one. */
  lemma SharedDropped(f: Frame, g: Frame, lo: string, ro: string, jl: nat, p: nat, acc: Frame) returns (d: Frame)
    requires f.Valid() && g.Valid() && acc.Valid() && acc.keys == g.keys
    requires jl < |f.keys| && f.keys[jl] == lo && p < |g.keys| && g.keys[p] == ro
    requires |ToSet(f.keys) * ToSet(g.keys)| == (if lo == ro then 1 else 0)
    ensures DropShared(acc, f.keys, g.keys) == Ok(d)
    ensures d.keys == Cut(g.keys, p, lo == ro) && Cols(d) == Cut(Cols(acc), p, lo == ro)
    ensures forall k :: k in d.entries ==> k !in f.entries
  {
    var both := ToSet(f.keys) * ToSet(g.keys);
    if lo == ro {
      assert lo in both;
      forall k | k in f.keys && k in g.keys ensures k == lo {
        assert k in both;
        SingletonMember(both, lo, k);
      }
      DropSharedOne(acc, f.keys, g.keys, lo);
      d := acc.Remove(lo).value;
      RemoveAt(acc, p);
      forall k | k in d.entries ensures k !in f.entries {
        assert k in g.keys && k != lo;
      }
    } else {
      forall k | k in f.keys ensures k !in g.keys {
        EmptyNoMember(both, k);
      }
      DropSharedNone(acc, f.keys, g.keys);
      d := acc;
    }
  }

  /** A set of one element holds nothing else. */
  lemma SingletonMember<T>(s: set<T>, a: T, b: T)
    requires |s| == 1 && a in s && b in s
    ensures a == b
  {
    var rest := s - {a};
    assert s == rest + {a};
    assert |rest| == 0;
  }

  /** An empty set holds nothing. */
  lemma EmptyNoMember<T>(s: set<T>, a: T)
    requires |s| == 0
    ensures a !in s
  {
  }

  /** No key of `ks` is in `other`: nothing is dropped. */
  lemma {:induction false} DropSharedNone(acc: Frame, ks: seq<string>, other: seq<string>)
    requires acc.Valid() && forall k :: k in ks ==> k !in other
    ensures DropShared(acc, ks, other) == Ok(acc)
    decreases |ks|
  {
    if ks != [] {
      assert ks[0] in ks;
      DropSharedNone(acc, ks[1..], other);
    }
  }

  /** Exactly one key `k0` of the keys `ks`, all different, is in `other`:
      that one is dropped. */
  lemma {:induction false} DropSharedOne(acc: Frame, ks: seq<string>, other: seq<string>, k0: string)
    requires acc.Valid() && Distinct(ks) && k0 in ks && k0 in acc.entries
    requires forall k :: k in ks && k in other ==> k == k0
    requires k0 in other
    ensures DropShared(acc, ks, other) == acc.Remove(k0)
    decreases |ks|
  {
    DistinctSplit(ks);
    if ks[0] == k0 {
      DropSharedNone(acc.Remove(k0).value, ks[1..], other);
    } else {
      DropSharedOne(acc, ks[1..], other, k0);
    }
  }

  /** Dropping the key at position `p`. */
  lemma RemoveAt(t: Frame, p: nat)
    requires t.Valid() && p < |t.keys|
    ensures t.Remove(t.keys[p]).Ok?
    ensures t.Remove(t.keys[p]).value.keys == Cut(t.keys, p, true)
    ensures Cols(t.Remove(t.keys[p]).value) == Cut(Cols(t), p, true)
  {
    var k := t.keys[p];
    var r := t.Remove(k).value;
    WithoutAt(t.keys, p);
    DistinctApart(t.keys);
    var c := Cut(Cols(t), p, true);
    forall i | 0 <= i < |r.keys| ensures Cols(r)[i] == c[i] {
      CutAt(t.keys, p, i);
      CutAt(Cols(t), p, i);
    }
  }

  /** Without the key at position `p` of keys that are all different is
      the keys cut at `p`. */
  lemma {:induction false} WithoutAt(ks: seq<string>, p: nat)
    requires Distinct(ks) && p < |ks|
    ensures Without(ks, ks[p]) == Cut(ks, p, true)
  {
    DistinctSplit(ks);
    if p == 0 {
      assert ks[0] !in ks[1..];
    } else {
      WithoutAt(ks[1..], p - 1);
      assert ks[0] != ks[p] by {
        assert ks[p] == ks[1..][p - 1];
      }
      assert [ks[0]] + Cut(ks[1..], p - 1, true) == Cut(ks, p, true);
    }
  }

  /** Concatenating a table with one of the same height that shares no
      column: the columns of both, in order, and nothing padded. */
  lemma ConcatDisjoint(ed: Edition, conv: Converter, f: Frame, d: Frame)
    requires f.Valid() && d.Valid() && Rect(f) && f.keys != [] && Even(Cols(d), Height(f))
    requires forall k :: k in d.entries ==> k !in f.entries
    ensures Concat(ed, conv, f, d).keys == f.keys + d.keys
    ensures Cols(Concat(ed, conv, f, d)) == Cols(f) + Cols(d)
  {
    var m := f.Merge(d);
    MergeDisjoint(f, d);
    EvenConcat(Cols(f), Cols(d), Height(f));
    EvenHeight(m, Height(f));
    InitRect(ed, conv, m);
  }

  /** Two lists of columns of height `h` together. */
  lemma EvenConcat(a: seq<Col>, b: seq<Col>, h: nat)
    requires Even(a, h) && Even(b, h)
    ensures Even(a + b, h)
  {
  }

  /** A table with columns whose every column has `h` elements has height `h`. */
  lemma EvenHeight(m: Frame, h: nat)
    requires m.Valid() && m.keys != [] && Even(Cols(m), h)
    ensures Height(m) == h && Rect(m)
  {
    assert Cols(m)[0] == ColAt(m, 0);
  }

  /** The rows of the joined table. */
  lemma JoinedRows(f: Frame, g: Frame, p: nat, jl: nat, same: bool, d: Frame, m: seq<seq<Value>>)
    requires f.Valid() && g.Valid() && d.Valid() && Rect(f) && f.keys != [] && Typed(g)
    requires jl < |f.keys| && p < |g.keys|
    requires m == Matches(Rows(g), p, ColAt(f, jl).data, |g.keys|, |ColAt(f, jl).data|) && |m| == Height(f)
    requires Cols(d) == Cut(Fill(Cols(Template(g)), m), p, same)
    ensures var cs := Cols(f) + Cols(d);
      Even(cs, Height(f)) &&
      forall i :: 0 <= i < Height(f) ==>
        RowsOf(cs, Height(f))[i] == Rows(f)[i] + Cut(Matched(Rows(g), p, Rows(f)[i][jl], |g.keys|), p, same)
  {
    var h := Height(f);
    var fill := Fill(Cols(Template(g)), m);
    RowsOfFill(Cols(Template(g)), m);
    CutEven(fill, h, p, same);
    RowsOfEven(Cols(f), Cols(d), h);
    assert Cols(f)[jl] == ColAt(f, jl);
    forall i | 0 <= i < h
      ensures RowsOf(Cols(f) + Cols(d), h)[i] == Rows(f)[i] + Cut(Matched(Rows(g), p, Rows(f)[i][jl], |g.keys|), p, same)
    {
      JoinedRow(Rows(f), ColAt(f, jl).data, Rows(g), fill, Cols(f), Cols(d), m, h, p, jl, |g.keys|, same, i);
    }
  }

  /** One row of the joined table. */
  lemma JoinedRow(q: seq<seq<Value>>, vals: seq<Value>, rows: seq<seq<Value>>, fill: seq<Col>, a: seq<Col>, b: seq<Col>,
                  m: seq<seq<Value>>, h: nat, p: nat, jl: nat, n: nat, same: bool, i: nat)
    requires Fits(rows, n) && p < n && |vals| == h && i < h
    requires m == Matches(rows, p, vals, n, h) && Even(fill, h) && p < |fill| && RowsOf(fill, h) == m
    requires b == Cut(fill, p, same) && Even(a, h) && jl < |a| && a[jl].data == vals && q == RowsOf(a, h)
    ensures Even(a + b, h)
    ensures RowsOf(a + b, h)[i] == q[i] + Cut(Matched(rows, p, q[i][jl], n), p, same)
  {
    RowsOfCut(fill, h, p, same, i);
    RowsOfAppend(a, b, h, i);
  }

  lemma RowsOfEven(a: seq<Col>, b: seq<Col>, h: nat)
    requires Even(a, h) && Even(b, h)
    ensures Even(a + b, h)
  {
    assert forall j :: 0 <= j < |a| + |b| ==> (a + b)[j] == if j < |a| then a[j] else b[j - |a|];
  }

  /** Row `i` of a cut set of columns is row `i` cut. */
  lemma RowsOfCut(cs: seq<Col>, h: nat, p: nat, same: bool, i: nat)
    requires Even(cs, h) && p < |cs| && i < h
    ensures Even(Cut(cs, p, same), h)
    ensures RowsOf(Cut(cs, p, same), h)[i] == Cut(RowsOf(cs, h)[i], p, same)
  {
    if same {
      forall j | 0 <= j < |cs| - 1 ensures Cut(cs, p, true)[j] == if j < p then cs[j] else cs[j + 1] {
        CutAt(cs, p, j);
      }
      forall j | 0 <= j < |cs| - 1 ensures RowsOf(Cut(cs, p, true), h)[i][j] == Cut(RowsOf(cs, h)[i], p, true)[j] {
        CutAt(cs, p, j);
        CutAt(RowsOf(cs, h)[i], p, j);
      }
    }
  }

  lemma CutEven(cs: seq<Col>, h: nat, p: nat, same: bool)
    requires Even(cs, h) && p < |cs|
    ensures Even(Cut(cs, p, same), h)
  {
    if same {
      forall j | 0 <= j < |cs| - 1 ensures Cut(cs, p, true)[j] == if j < p then cs[j] else cs[j + 1] {
        CutAt(cs, p, j);
      }
    }
  }

  /** Row `i` of two sets of columns side by side is the two rows joined. */
  lemma RowsOfAppend(a: seq<Col>, b: seq<Col>, h: nat, i: nat)
    requires Even(a, h) && Even(b, h) && i < h
    ensures Even(a + b, h)
    ensures RowsOf(a + b, h)[i] == RowsOf(a, h)[i] + RowsOf(b, h)[i]
  {
    assert forall j :: 0 <= j < |a| + |b| ==> (a + b)[j] == if j < |a| then a[j] else b[j - |a|];
  }
}
