/** The state of a `Table` (pyaxols/atypes/table.py): an insertion-ordered
    dict from column names to columns, and the operations on it that build,
    reshape and query it column by column.

    A table's dimensions as the source reports them: `len(t)` is the number
    of columns, and `t.shape` is that number paired with the length of the
    first column. */
module Frames {
  import opened Values
  import opened Dicts
  import opened Ranking
  import opened Column

  type Frame = Dict<Col>

  /** A dict whose keys are `names`, in this order, holding `cols`. */
  function Tabulate(names: seq<string>, cols: seq<Col>): (f: Frame)
    requires Distinct(names) && |names| == |cols|
    ensures f.Valid() && f.keys == names
    ensures forall j :: 0 <= j < |names| ==> f.entries[names[j]] == cols[j]
  {
    DistinctApart(names);
    var m := map j | 0 <= j < |names| :: names[j] := cols[j];
    assert forall j :: 0 <= j < |names| ==> names[j] in m && m[names[j]] == cols[j];
    Dict(names, m)
  }

  /** The column at position `j` in key order. */
  function ColAt(f: Frame, j: int): Col
    requires f.Valid() && 0 <= j < |f.keys|
  {
    f.entries[f.keys[j]]
  }

  /** `self._data.values()`. */
  function Cols(f: Frame): (r: seq<Col>)
    requires f.Valid()
    ensures |r| == |f.keys| && forall j :: 0 <= j < |r| ==> r[j] == ColAt(f, j)
  {
    f.Values()
  }

  lemma TabulateCols(names: seq<string>, cols: seq<Col>)
    requires Distinct(names) && |names| == |cols|
    ensures Cols(Tabulate(names, cols)) == cols
  {
  }

  /** A frame is determined by its keys and its columns in key order. */
  lemma ColsTabulate(f: Frame)
    requires f.Valid()
    ensures Tabulate(f.keys, Cols(f)) == f
  {
    var t := Tabulate(f.keys, Cols(f));
    forall k | k in f.entries ensures k in t.entries && t.entries[k] == f.entries[k] {
      var j :| 0 <= j < |f.keys| && f.keys[j] == k;
    }
    assert t.entries == f.entries;
  }

  /** `t.dtypes`. */
  function Dtypes(f: Frame): (r: seq<Kind>)
    requires f.Valid()
    ensures |r| == |f.keys| && forall j :: 0 <= j < |r| ==> r[j] == ColAt(f, j).dtype
  {
    seq(|f.keys|, j requires 0 <= j < |f.keys| => ColAt(f, j).dtype)
  }

  /** `len(t)`: the number of columns. */
  function Ncols(f: Frame): nat {
    |f.keys|
  }

  /** `t.shape[1]`: the length of the first column, 0 without columns. */
  function Height(f: Frame): nat
    requires f.Valid()
  {
    if f.keys == [] then 0 else |ColAt(f, 0).data|
  }

  /** `t.shape`. */
  function Shape(f: Frame): (r: (nat, nat))
    requires f.Valid()
    ensures r.0 == Ncols(f) && r.1 == Height(f)
    ensures Ncols(f) == 0 ==> r == (0, 0)
  {
    if |f.keys| > 0 then (|f.keys|, |ColAt(f, 0).data|) else (0, 0)
  }

  /** `t.i(index)`: the tuple of every column's element at `index`, raising
      IndexError when some column is too short. */
  function Row(f: Frame, index: int): (r: Result<seq<Value>>)
    requires f.Valid()
    ensures r.Ok? <==> forall j :: 0 <= j < |f.keys| ==> InRange(|ColAt(f, j).data|, index)
    ensures r.Ok? ==> (|r.value| == |f.keys| && forall j :: 0 <= j < |f.keys| ==>
      r.value[j] == ColAt(f, j).data[Normalize(|ColAt(f, j).data|, index)])
    ensures r.Err? ==> r.error == IndexError
  {
    if forall j :: 0 <= j < |f.keys| ==> InRange(|ColAt(f, j).data|, index) then
      Ok(seq(|f.keys|, j requires 0 <= j < |f.keys| => ColAt(f, j).data[Normalize(|ColAt(f, j).data|, index)]))
    else Err(IndexError)
  }

  // ---------------------------------------------------------------------
  // Updating every column in key order

  /** Each column of `before` from `j` up to `t0` became `g` of itself in
      `after`; every other column is as it was. */
  ghost predicate Progress(g: Col -> Result<Col>, before: seq<Col>, after: seq<Col>, j: nat, t0: nat)
    requires |before| == |after| && j <= t0 <= |before|
  {
    (forall t :: j <= t < t0 ==> g(before[t]) == Ok(after[t])) &&
    (forall t :: 0 <= t < |before| && (t < j || t0 <= t) ==> after[t] == before[t])
  }

  /** The loop stopped at column `t0`, where `g` raised `e`. */
  ghost predicate FailedAt(g: Col -> Result<Col>, before: seq<Col>, after: seq<Col>, j: nat, t0: nat, e: Error)
    requires |before| == |after| && j <= t0 < |before|
  {
    g(before[t0]) == Err(e) && Progress(g, before, after, j, t0)
  }

  /** `for k in keys: d[k] = g(d[k])` from position `j` on: each column is
      replaced in turn, and the first exception stops the loop with the
      columns before it already replaced. */
  function UpdateEach(f: Frame, g: Col -> Result<Col>, j: nat): (r: (Frame, Outcome))
    requires f.Valid() && j <= |f.keys|
    ensures r.0.Valid() && r.0.keys == f.keys
    decreases |f.keys| - j
  {
    if j == |f.keys| then (f, Pass)
    else
      match g(ColAt(f, j)) {
        case Err(e) => (f, Fail(e))
        case Ok(c) => UpdateEach(f.Put(f.keys[j], c), g, j + 1)
      }
  }

  /** The loop from position `j` replaced each column it passed by `g` of
      itself; it either passed them all, or stopped where `g` raised. */
  ghost predicate Stepped(f: Frame, g: Col -> Result<Col>, j: nat)
    requires f.Valid() && j <= |f.keys|
  {
    var r := UpdateEach(f, g, j);
    (r.1 == Pass ==> Progress(g, Cols(f), Cols(r.0), j, |f.keys|)) &&
    (r.1.Fail? ==> exists t0 :: j <= t0 < |f.keys| && FailedAt(g, Cols(f), Cols(r.0), j, t0, r.1.error))
  }

  lemma {:induction false} UpdateEachSteps(f: Frame, g: Col -> Result<Col>, j: nat)
    requires f.Valid() && j <= |f.keys|
    ensures Stepped(f, g, j)
    decreases |f.keys| - j
  {
    if j == |f.keys| {
      assert Progress(g, Cols(f), Cols(f), j, j);
    } else {
      var first := g(ColAt(f, j));
      if first.Err? {
        RaisedStep(f, g, j, first.error);
      } else {
        UpdateEachSteps(f.Put(f.keys[j], first.value), g, j + 1);
        ReplacedStep(f, g, j, first.value);
      }
    }
  }

  /** A turn whose column `g` refuses stops the loop there. */
  lemma RaisedStep(f: Frame, g: Col -> Result<Col>, j: nat, e: Error)
    requires f.Valid() && j < |f.keys| && g(ColAt(f, j)) == Err(e)
    ensures Stepped(f, g, j)
  {
    assert FailedAt(g, Cols(f), Cols(f), j, j, e);
  }

  /** A turn whose column `g` replaces extends what the rest of the loop does. */
  lemma ReplacedStep(f: Frame, g: Col -> Result<Col>, j: nat, c: Col)
    requires f.Valid() && j < |f.keys| && g(ColAt(f, j)) == Ok(c)
    requires Stepped(f.Put(f.keys[j], c), g, j + 1)
    ensures Stepped(f, g, j)
  {
    var f' := f.Put(f.keys[j], c);
    PutCols(f, j, c);
    var r := UpdateEach(f', g, j + 1);
    assert UpdateEach(f, g, j) == r;
    if r.1 == Pass {
      ProgressStep(g, Cols(f), c, Cols(r.0), j, |f.keys|);
    } else {
      var t0 :| j + 1 <= t0 < |f.keys| && FailedAt(g, Cols(f'), Cols(r.0), j + 1, t0, r.1.error);
      FailedStep(g, Cols(f), c, Cols(r.0), j, t0, r.1.error);
    }
  }

  lemma PutCols(f: Frame, j: nat, c: Col)
    requires f.Valid() && j < |f.keys|
    ensures Cols(f.Put(f.keys[j], c)) == Cols(f)[j := c]
  {
    var f' := f.Put(f.keys[j], c);
    forall t | 0 <= t < |f.keys| ensures Cols(f')[t] == Cols(f)[j := c][t] {
      DistinctAt(f.keys, t, j);
    }
  }

  /** Replacing column `j` by `g` of itself extends the progress made from `j + 1`. */
  lemma ProgressStep(g: Col -> Result<Col>, before: seq<Col>, c: Col, after: seq<Col>, j: nat, t0: nat)
    requires |before| == |after| && j < t0 <= |before| && g(before[j]) == Ok(c)
    requires Progress(g, before[j := c], after, j + 1, t0)
    ensures Progress(g, before, after, j, t0)
  {
    var mid := before[j := c];
    assert forall t :: 0 <= t < |before| && t != j ==> mid[t] == before[t];
  }

  /** Replacing column `j` by `g` of itself keeps a later failure one. */
  lemma FailedStep(g: Col -> Result<Col>, before: seq<Col>, c: Col, after: seq<Col>, j: nat, t0: nat, e: Error)
    requires |before| == |after| && j < t0 < |before| && g(before[j]) == Ok(c)
    requires FailedAt(g, before[j := c], after, j + 1, t0, e)
    ensures FailedAt(g, before, after, j, t0, e)
  {
    ProgressStep(g, before, c, after, j, t0);
    assert before[j := c][t0] == before[t0];
  }

  /** What `UpdateEach` from the first column leaves in each position: the
      column as it was or `g` of it; all of them `g` of themselves exactly
      when no call raised, and otherwise an exception some call raised. */
  lemma UpdateEachColumns(f: Frame, g: Col -> Result<Col>)
    requires f.Valid()
    ensures var r := UpdateEach(f, g, 0); var cs, ds := Cols(f), Cols(r.0);
      |ds| == |cs| &&
      (forall j :: 0 <= j < |cs| ==> (ds[j] == cs[j] || g(cs[j]) == Ok(ds[j]))) &&
      (r.1 == Pass <==> forall j :: 0 <= j < |cs| ==> g(cs[j]).Ok?) &&
      (r.1 == Pass ==> forall j :: 0 <= j < |cs| ==> g(cs[j]) == Ok(ds[j])) &&
      (r.1.Fail? ==> exists j :: 0 <= j < |cs| && g(cs[j]) == Err(r.1.error))
  {
    var r := UpdateEach(f, g, 0);
    UpdateEachSteps(f, g, 0);
    StepsCols(g, Cols(f), Cols(r.0), r.1);
  }

  /** When a step raises, the loop stopped at the first column `g` refused:
      every column before it is replaced, and it and every later one are as
      they were. */
  lemma UpdateEachStopsAtFirst(f: Frame, g: Col -> Result<Col>)
    requires f.Valid()
    ensures var r := UpdateEach(f, g, 0); var cs, ds := Cols(f), Cols(r.0);
      r.1.Fail? ==>
        exists k :: 0 <= k < |cs| && g(cs[k]) == Err(r.1.error) &&
          (forall j :: 0 <= j < k ==> g(cs[j]) == Ok(ds[j])) &&
          (forall j :: k <= j < |cs| ==> ds[j] == cs[j])
  {
    var r := UpdateEach(f, g, 0);
    UpdateEachSteps(f, g, 0);
    if r.1.Fail? {
      var t0 :| 0 <= t0 < |f.keys| && FailedAt(g, Cols(f), Cols(r.0), 0, t0, r.1.error);
      assert forall j :: t0 <= j < |f.keys| ==> Cols(r.0)[j] == Cols(f)[j];
    }
  }

  lemma StepsCols(g: Col -> Result<Col>, cs: seq<Col>, ds: seq<Col>, st: Outcome)
    requires |ds| == |cs|
    requires st == Pass ==> Progress(g, cs, ds, 0, |cs|)
    requires st.Fail? ==> exists t0 :: 0 <= t0 < |cs| && FailedAt(g, cs, ds, 0, t0, st.error)
    ensures forall j :: 0 <= j < |cs| ==> (ds[j] == cs[j] || g(cs[j]) == Ok(ds[j]))
    ensures st == Pass <==> forall j :: 0 <= j < |cs| ==> g(cs[j]).Ok?
    ensures st == Pass ==> forall j :: 0 <= j < |cs| ==> g(cs[j]) == Ok(ds[j])
    ensures st.Fail? ==> exists j :: 0 <= j < |cs| && g(cs[j]) == Err(st.error)
  {
    if st.Fail? {
      var t0 :| 0 <= t0 < |cs| && FailedAt(g, cs, ds, 0, t0, st.error);
      forall j | 0 <= j < |cs| ensures ds[j] == cs[j] || g(cs[j]) == Ok(ds[j]) {
        if j < t0 { assert g(cs[j]) == Ok(ds[j]); }
      }
    }
  }

  // ---------------------------------------------------------------------
  // Smoothing: every column padded to the longest one

  /** The length of the longest column, `max(len(s) for s in cols)`. */
  function MaxLen(cs: seq<Col>): (m: nat)
    ensures forall j :: 0 <= j < |cs| ==> |cs[j].data| <= m
    ensures cs != [] ==> exists j :: 0 <= j < |cs| && |cs[j].data| == m
  {
    if cs == [] then 0
    else
      var t := MaxLen(cs[1..]);
      assert forall j :: 1 <= j < |cs| ==> cs[j] == cs[1..][j - 1];
      if |cs[0].data| >= t then |cs[0].data| else t
  }

  /** `t._smooth()`: `max` over no columns raises ValueError; otherwise each
      column in key order is replaced by `s.grow(max_len - len(s))`. */
  function Smooth(ed: Edition, conv: Converter, f: Frame): (r: (Frame, Outcome))
    requires f.Valid()
    ensures r.0.Valid() && r.0.keys == f.keys
    ensures f.keys == [] ==> r == (f, Fail(ValueError))
  {
    if f.keys == [] then (f, Fail(ValueError))
    else
      UpdateEach(f, Grower(ed, conv, MaxLen(Cols(f))), 0)
  }

  /** `Table(data)`: the dict is smoothed and any exception from smoothing is
      swallowed, leaving the columns replaced so far. */
  function Init(ed: Edition, conv: Converter, f: Frame): (r: Frame)
    requires f.Valid()
    ensures r.Valid() && r.keys == f.keys
  {
    Smooth(ed, conv, f).0
  }

  /** The column `c` of a settled table after its smoothing step pads it to
      `m`: a typed column gains `m - len` Nones; an object column cannot grow
      and is left as it is. */
  function Padded(c: Col, m: nat): Col {
    if c.dtype == ObjectType || |c.data| >= m then c
    else Col(c.name, c.dtype, c.data + Nones(m - |c.data|))
  }

  /** Smoothing in the packaged and oldest versions: it succeeds exactly when
      no object column holding data is shorter than the longest column; on
      success every column is padded, on failure (TypeError) each column is
      padded or untouched. It never shortens a column nor changes its name or
      dtype. */
  lemma SmoothPads(ed: Edition, conv: Converter, f: Frame)
    requires f.Valid() && f.keys != [] && ed != Legacy
    requires forall j :: 0 <= j < |f.keys| ==> Settled(ed, conv, ColAt(f, j))
    ensures var m := MaxLen(Cols(f)); var r := Smooth(ed, conv, f); var cs, ds := Cols(f), Cols(r.0);
      (r.1 == Pass <==> forall j :: (0 <= j < |cs| && cs[j].dtype == ObjectType && cs[j].data != []) ==>
        |cs[j].data| == m) &&
      (r.1 == Pass ==> forall j :: 0 <= j < |cs| ==> ds[j] == Padded(cs[j], m)) &&
      (r.1.Fail? ==> r.1.error == TypeError && forall j :: 0 <= j < |cs| ==>
        ds[j] == cs[j] || ds[j] == Padded(cs[j], m))
  {
    var m := MaxLen(Cols(f));
    PadsCols(ed, conv, Cols(f), m);
    PadsBySteps(ed, conv, f, Grower(ed, conv, m), m);
  }

  /** What one legacy smoothing step, `v.grow(max_len - len(v))`, makes of
      a settled column: a column as long as `m` is kept; an object column
      cannot grow unless it is empty (TypeError); a typed column is padded
      with what `dtype(None)` gives, or raises what it raises. */
  function LegacyPadded(conv: Converter, c: Col, m: nat): Result<Col> {
    if |c.data| >= m then Ok(c)
    else if c.dtype == ObjectType then (if c.data == [] then Ok(c) else Err(TypeError))
    else
      match conv(c.dtype, None) {
        case Err(e) => Err(e)
        case Ok(v) => Ok(Col(c.name, c.dtype, c.data + seq(m - |c.data|, _ => v)))
      }
  }

  lemma LegacyPadStep(conv: Converter, c: Col, m: nat)
    requires Settled(Legacy, conv, c) && |c.data| <= m
    ensures Grower(Legacy, conv, m)(c) == LegacyPadded(conv, c, m)
  {
    if |c.data| < m {
      if c.dtype == ObjectType {
        GrowPads(Legacy, conv, c, m - |c.data|);
      } else {
        LegacyGrowConvertsPadding(conv, c, m - |c.data|);
      }
    }
  }

  /** Smoothing in the legacy version: it succeeds exactly when every
      column's legacy step does; on success every column is what its step
      makes of it, so the padding is `dtype(None)` and not None; on failure
      the exception is that of some column's step, and each column is as
      it was or what its step made of it. */
  lemma SmoothPadsLegacy(conv: Converter, f: Frame)
    requires f.Valid() && f.keys != []
    requires forall j :: 0 <= j < |f.keys| ==> Settled(Legacy, conv, ColAt(f, j))
    ensures var m := MaxLen(Cols(f)); var r := Smooth(Legacy, conv, f); var cs, ds := Cols(f), Cols(r.0);
      |ds| == |cs| &&
      (r.1 == Pass <==> forall j :: 0 <= j < |cs| ==> LegacyPadded(conv, cs[j], m).Ok?) &&
      (r.1 == Pass ==> forall j :: 0 <= j < |cs| ==> LegacyPadded(conv, cs[j], m) == Ok(ds[j])) &&
      (r.1.Fail? ==> (exists j :: 0 <= j < |cs| && LegacyPadded(conv, cs[j], m) == Err(r.1.error))) &&
      (r.1.Fail? ==> forall j :: 0 <= j < |cs| ==> ds[j] == cs[j] || LegacyPadded(conv, cs[j], m) == Ok(ds[j]))
  {
    var m := MaxLen(Cols(f));
    var g := Grower(Legacy, conv, m);
    forall j | 0 <= j < |f.keys| ensures g(Cols(f)[j]) == LegacyPadded(conv, Cols(f)[j], m) {
      assert Cols(f)[j] == ColAt(f, j);
      LegacyPadStep(conv, Cols(f)[j], m);
    }
    var r := UpdateEach(f, g, 0);
    UpdateEachColumns(f, g);
    LegacyFromSteps(conv, Cols(f), Cols(r.0), g, m, r.1);
  }

  /** The same, for the columns and outcome of any per-column pass whose
      step is the legacy one. */
  lemma LegacyFromSteps(conv: Converter, cs: seq<Col>, ds: seq<Col>, g: Col -> Result<Col>, m: nat, st: Outcome)
    requires |ds| == |cs|
    requires forall j :: 0 <= j < |cs| ==> (ds[j] == cs[j] || g(cs[j]) == Ok(ds[j]))
    requires st == Pass <==> forall j :: 0 <= j < |cs| ==> g(cs[j]).Ok?
    requires st == Pass ==> forall j :: 0 <= j < |cs| ==> g(cs[j]) == Ok(ds[j])
    requires st.Fail? ==> exists j :: 0 <= j < |cs| && g(cs[j]) == Err(st.error)
    requires forall j :: 0 <= j < |cs| ==> g(cs[j]) == LegacyPadded(conv, cs[j], m)
    ensures st == Pass <==> forall j :: 0 <= j < |cs| ==> LegacyPadded(conv, cs[j], m).Ok?
    ensures st == Pass ==> forall j :: 0 <= j < |cs| ==> LegacyPadded(conv, cs[j], m) == Ok(ds[j])
    ensures st.Fail? ==> exists j :: 0 <= j < |cs| && LegacyPadded(conv, cs[j], m) == Err(st.error)
    ensures st.Fail? ==> forall j :: 0 <= j < |cs| ==> ds[j] == cs[j] || LegacyPadded(conv, cs[j], m) == Ok(ds[j])
  {
    if st.Fail? {
      var j :| 0 <= j < |cs| && g(cs[j]) == Err(st.error);
    }
  }

  /** Where `dtype(None)` raises for the dtype of a column shorter than the
      longest (`int(None)` raises TypeError), the legacy `_smooth` raises and
      leaves that column short, so `Table(data)`, which swallows the
      exception, keeps a ragged table; the packaged version pads the same
      column with None (`SmoothPads`). */
  lemma LegacyShortColumnStaysShort(conv: Converter, f: Frame, j: nat)
    requires f.Valid() && f.keys != []
    requires forall i :: 0 <= i < |f.keys| ==> Settled(Legacy, conv, ColAt(f, i))
    requires j < |f.keys| && ColAt(f, j).dtype != ObjectType && |ColAt(f, j).data| < MaxLen(Cols(f))
    requires conv(ColAt(f, j).dtype, None).Err?
    ensures Smooth(Legacy, conv, f).1.Fail?
    ensures ColAt(Init(Legacy, conv, f), j) == ColAt(f, j)
  {
    SmoothPadsLegacy(conv, f);
    var r := Smooth(Legacy, conv, f);
    assert Cols(f)[j] == ColAt(f, j) && Cols(r.0)[j] == ColAt(r.0, j);
  }

  /** `UpdateEach` with a step that pads like a smoothing step. */
  lemma PadsBySteps(ed: Edition, conv: Converter, f: Frame, g: Col -> Result<Col>, m: nat)
    requires f.Valid()
    requires forall j :: 0 <= j < |f.keys| ==> |Cols(f)[j].data| <= m && GrowStep(ed, conv, Cols(f)[j], m, g(Cols(f)[j]))
    ensures var r := UpdateEach(f, g, 0); var cs, ds := Cols(f), Cols(r.0);
      (r.1 == Pass <==> forall j :: (0 <= j < |cs| && cs[j].dtype == ObjectType && cs[j].data != []) ==>
        |cs[j].data| == m) &&
      (r.1 == Pass ==> forall j :: 0 <= j < |cs| ==> ds[j] == Padded(cs[j], m)) &&
      (r.1.Fail? ==> r.1.error == TypeError && forall j :: 0 <= j < |cs| ==>
        ds[j] == cs[j] || ds[j] == Padded(cs[j], m))
  {
    var r := UpdateEach(f, g, 0);
    UpdateEachColumns(f, g);
    PadsFromSteps(ed, conv, Cols(f), Cols(r.0), g, m, r.1);
  }

  /** The same, for the columns and outcome of any per-column pass. */
  lemma PadsFromSteps(ed: Edition, conv: Converter, cs: seq<Col>, ds: seq<Col>, g: Col -> Result<Col>, m: nat, st: Outcome)
    requires |ds| == |cs|
    requires forall j :: 0 <= j < |cs| ==> (ds[j] == cs[j] || g(cs[j]) == Ok(ds[j]))
    requires st == Pass <==> forall j :: 0 <= j < |cs| ==> g(cs[j]).Ok?
    requires st == Pass ==> forall j :: 0 <= j < |cs| ==> g(cs[j]) == Ok(ds[j])
    requires st.Fail? ==> exists j :: 0 <= j < |cs| && g(cs[j]) == Err(st.error)
    requires forall j :: 0 <= j < |cs| ==> |cs[j].data| <= m && GrowStep(ed, conv, cs[j], m, g(cs[j]))
    ensures st == Pass <==> forall j :: (0 <= j < |cs| && cs[j].dtype == ObjectType && cs[j].data != []) ==>
      |cs[j].data| == m
    ensures st == Pass ==> forall j :: 0 <= j < |cs| ==> ds[j] == Padded(cs[j], m)
    ensures st.Fail? ==> st.error == TypeError && forall j :: 0 <= j < |cs| ==>
      ds[j] == cs[j] || ds[j] == Padded(cs[j], m)
  {
    if st.Fail? {
      var j :| 0 <= j < |cs| && g(cs[j]) == Err(st.error);
    }
  }

  /** Each smoothing step on settled columns no longer than `m`. */
  lemma PadsCols(ed: Edition, conv: Converter, cs: seq<Col>, m: nat)
    requires ed != Legacy
    requires forall j :: 0 <= j < |cs| ==> Settled(ed, conv, cs[j]) && |cs[j].data| <= m
    ensures forall j :: 0 <= j < |cs| ==> GrowStep(ed, conv, cs[j], m, Grower(ed, conv, m)(cs[j]))
  {
    forall j | 0 <= j < |cs| ensures GrowStep(ed, conv, cs[j], m, Grower(ed, conv, m)(cs[j])) {
      PadStep(ed, conv, cs[j], m);
    }
  }

  /** One smoothing step: `s.grow(max_len - len(s))`. */
  function Grower(ed: Edition, conv: Converter, m: nat): Col -> Result<Col> {
    (c: Col) => Grow(ed, conv, c, m - |c.data|)
  }

  /** What one smoothing step does to a settled column. */
  ghost predicate GrowStep(ed: Edition, conv: Converter, c: Col, m: nat, r: Result<Col>) {
    (r.Ok? ==> r.value == Padded(c, m)) &&
    (r.Err? ==> r.error == TypeError) &&
    (r.Ok? <==> !(c.dtype == ObjectType && c.data != [] && |c.data| < m))
  }

  lemma PadStep(ed: Edition, conv: Converter, c: Col, m: nat)
    requires Settled(ed, conv, c) && ed != Legacy && |c.data| <= m
    ensures GrowStep(ed, conv, c, m, Grow(ed, conv, c, m - |c.data|))
  {
    if |c.data| < m {
      GrowPads(ed, conv, c, m - |c.data|);
    }
  }

  /** Smoothing a table whose columns all have the same length changes
      nothing, in every version. */
  lemma SmoothEven(ed: Edition, conv: Converter, f: Frame)
    requires f.Valid()
    requires forall j :: 0 <= j < |f.keys| ==> |ColAt(f, j).data| == Height(f)
    ensures Init(ed, conv, f) == f
    ensures f.keys != [] ==> Smooth(ed, conv, f) == (f, Pass)
  {
    if f.keys != [] {
      var m := MaxLen(Cols(f));
      var g := Grower(ed, conv, m);
      assert m == Height(f);
      forall j | 0 <= j < |f.keys| ensures g(Cols(f)[j]) == Ok(Cols(f)[j]) {
        assert |Cols(f)[j].data| == m;
      }
      UpdateEachIdentity(f, g);
    }
  }

  /** A step that changes no column leaves the table as it is. */
  lemma UpdateEachIdentity(f: Frame, g: Col -> Result<Col>)
    requires f.Valid() && forall j :: 0 <= j < |f.keys| ==> g(Cols(f)[j]) == Ok(Cols(f)[j])
    ensures UpdateEach(f, g, 0) == (f, Pass)
  {
    UpdateEachColumns(f, g);
    SameCols(UpdateEach(f, g, 0).0, f);
  }

  // ---------------------------------------------------------------------
  // Building tables

  /** `t.concat(other)`: `Table({**self._data, **other._data})`. */
  function Concat(ed: Edition, conv: Converter, f: Frame, g: Frame): (r: Frame)
    requires f.Valid() && g.Valid()
    ensures r.Valid() && r.keys == f.keys + Fresh(g.keys, f.entries)
  {
    Init(ed, conv, f.Merge(g))
  }

  /** Concatenating: this table's columns first, then the other's new ones;
      a shared name takes the other table's column. Smoothing may then pad. */
  lemma ConcatColumns(ed: Edition, conv: Converter, f: Frame, g: Frame)
    requires f.Valid() && g.Valid() && ed != Legacy
    requires forall j :: 0 <= j < |f.keys| ==> Settled(ed, conv, ColAt(f, j))
    requires forall j :: 0 <= j < |g.keys| ==> Settled(ed, conv, ColAt(g, j))
    ensures var r := Concat(ed, conv, f, g); var d := f.Merge(g); var m := MaxLen(Cols(d));
      (forall k :: k in r.entries <==> k in f.entries || k in g.entries) &&
      (forall k :: k in g.entries ==> r.entries[k] in {g.entries[k], Padded(g.entries[k], m)}) &&
      (forall k :: k in f.entries && k !in g.entries ==>
        r.entries[k] in {f.entries[k], Padded(f.entries[k], m)})
  {
    var d := f.Merge(g);
    if d.keys != [] {
      MergeSettled(ed, conv, f, g);
      SmoothPads(ed, conv, d);
      SmoothedEntries(ed, conv, d);
    }
  }

  lemma MergeSettled(ed: Edition, conv: Converter, f: Frame, g: Frame)
    requires f.Valid() && g.Valid()
    requires forall j :: 0 <= j < |f.keys| ==> Settled(ed, conv, ColAt(f, j))
    requires forall j :: 0 <= j < |g.keys| ==> Settled(ed, conv, ColAt(g, j))
    ensures forall j :: 0 <= j < |f.Merge(g).keys| ==> Settled(ed, conv, ColAt(f.Merge(g), j))
  {
    var d := f.Merge(g);
    forall j | 0 <= j < |d.keys| ensures Settled(ed, conv, ColAt(d, j)) {
      var k := d.keys[j];
      if k in g.entries {
        var i :| 0 <= i < |g.keys| && g.keys[i] == k;
        assert ColAt(g, i) == ColAt(d, j);
      } else {
        var i :| 0 <= i < |f.keys| && f.keys[i] == k;
        assert ColAt(f, i) == ColAt(d, j);
      }
    }
  }

  /** `SmoothPads` by key rather than by position. */
  lemma SmoothedEntries(ed: Edition, conv: Converter, d: Frame)
    requires d.Valid() && d.keys != [] && ed != Legacy
    requires forall j :: 0 <= j < |d.keys| ==> Settled(ed, conv, ColAt(d, j))
    ensures var r := Init(ed, conv, d); var m := MaxLen(Cols(d));
      forall k :: k in d.entries ==> r.entries[k] in {d.entries[k], Padded(d.entries[k], m)}
  {
    var r := Init(ed, conv, d);
    var m := MaxLen(Cols(d));
    SmoothPads(ed, conv, d);
    forall k | k in d.entries ensures r.entries[k] in {d.entries[k], Padded(d.entries[k], m)} {
      var j := KeyPos(d, k);
      assert Cols(r)[j] == r.entries[k];
    }
  }

  /** The position of a key. */
  lemma KeyPos(d: Frame, k: string) returns (j: nat)
    requires d.Valid() && k in d.entries
    ensures j < |d.keys| && d.keys[j] == k && Cols(d)[j] == d.entries[k]
  {
    assert k in d.keys;
    j :| 0 <= j < |d.keys| && d.keys[j] == k;
  }

  /** The blank table `Table.empty(names, kinds)` builds from names that
      are all different: every column empty, named after its key. */
  function Blank(names: seq<string>, kinds: seq<Kind>): (r: Frame)
    requires Distinct(names) && |names| == |kinds|
    ensures r.Valid() && r.keys == names && Height(r) == 0
    ensures forall j :: 0 <= j < |names| ==> ColAt(r, j) == Col(names[j], kinds[j], [])
  {
    Tabulate(names, seq(|names|, j requires 0 <= j < |names| => Col(names[j], kinds[j], [])))
  }

  /** `Table.empty(cols, dtypes)`: one `Seq.empty(c, dtype=d)` per pair of
      `zip(cols, dtypes)`, so the longer list is cut short. */
  function Empty(ed: Edition, conv: Converter, names: seq<string>, kinds: seq<Kind>): (r: Frame)
    ensures r.Valid()
  {
    var n := Min(|names|, |kinds|);
    Init(ed, conv, FromPairs(seq(n, i requires 0 <= i < n => (names[i], Col(names[i], kinds[i], [])))))
  }

  /** `Table.empty` with different names is the blank table; the dtypes past
      the last name are ignored. */
  lemma EmptyIsBlank(ed: Edition, conv: Converter, names: seq<string>, kinds: seq<Kind>)
    requires Distinct(names) && |names| <= |kinds|
    ensures Empty(ed, conv, names, kinds) == Blank(names, kinds[..|names|])
  {
    var n := |names|;
    var pairs := seq(n, i requires 0 <= i < n => (names[i], Col(names[i], kinds[i], [])));
    BlankPairs(names, kinds[..n], pairs);
    SmoothEven(ed, conv, Blank(names, kinds[..n]));
  }

  lemma BlankPairs(names: seq<string>, kinds: seq<Kind>, pairs: seq<(string, Col)>)
    requires Distinct(names) && |names| == |kinds| == |pairs|
    requires forall i :: 0 <= i < |pairs| ==> pairs[i] == (names[i], Col(names[i], kinds[i], []))
    ensures FromPairs(pairs) == Blank(names, kinds)
  {
    assert Firsts(pairs) == names;
    FromDistinctPairs(pairs);
    var d := FromPairs(pairs);
    var b := Blank(names, kinds);
    assert Cols(d) == Cols(b);
    SameCols(d, b);
  }

  /** Two frames with the same keys and the same columns are equal. */
  lemma SameCols(d: Frame, b: Frame)
    requires d.Valid() && b.Valid() && d.keys == b.keys && Cols(d) == Cols(b)
    ensures d == b
  {
    ColsTabulate(d);
    ColsTabulate(b);
  }

  /** `Table.from_seqs(seqs)`: ValueError unless the names are all different,
      then the dict from each Seq's name to itself. */
  function FromSeqs(ed: Edition, conv: Converter, seqs: seq<Col>): (r: Result<Frame>)
    ensures r.Ok? <==> Distinct(Names(seqs))
    ensures r.Err? ==> r.error == ValueError
    ensures r.Ok? ==> r.value.Valid() && r.value.keys == Names(seqs) && (forall j :: 0 <= j < |seqs| ==>
      ColAt(r.value, j).name == seqs[j].name && ColAt(r.value, j).dtype == seqs[j].dtype)
  {
    CardDistinct(Names(seqs));
    if |ToSet(Names(seqs))| != |seqs| then Err(ValueError)
    else
      var d := FromPairs(SeqPairs(seqs));
      SeqPairsCols(seqs);
      SmoothKeepsSchema(ed, conv, d);
      Ok(Init(ed, conv, d))
  }

  /** The pairs `(s.name, s)` of `from_seqs`. */
  function SeqPairs(seqs: seq<Col>): (r: seq<(string, Col)>)
    ensures |r| == |seqs| && forall i :: 0 <= i < |seqs| ==> r[i] == (seqs[i].name, seqs[i])
  {
    seq(|seqs|, i requires 0 <= i < |seqs| => (seqs[i].name, seqs[i]))
  }

  lemma SeqPairsCols(seqs: seq<Col>)
    requires Distinct(Names(seqs))
    ensures var d := FromPairs(SeqPairs(seqs)); d.keys == Names(seqs) && Cols(d) == seqs
  {
    var pairs := SeqPairs(seqs);
    assert Firsts(pairs) == Names(seqs);
    FromDistinctPairs(pairs);
    var d := FromPairs(pairs);
    forall j | 0 <= j < |seqs| ensures Cols(d)[j] == seqs[j] {
      assert d.entries[pairs[j].0] == pairs[j].1;
    }
  }

  /** The names of a list of Seqs. */
  function Names(seqs: seq<Col>): (r: seq<string>)
    ensures |r| == |seqs| && forall i :: 0 <= i < |seqs| ==> r[i] == seqs[i].name
  {
    seq(|seqs|, i requires 0 <= i < |seqs| => seqs[i].name)
  }

  /** A smoothing step never changes a column's name or dtype. */
  lemma GrowKeepsSchema(ed: Edition, conv: Converter, c: Col, n: int)
    ensures Grow(ed, conv, c, n).Ok? ==>
      Grow(ed, conv, c, n).value.name == c.name && Grow(ed, conv, c, n).value.dtype == c.dtype
  {
    if n > 0 {
      var o := ListOperand(Nones(n));
      if IsInstanceOfDtype(c.dtype, o) {
        match Elementwise(c.data, o) {
          case Err(_) =>
          case Ok(d) =>
        }
      }
    }
  }

  /** Smoothing, in any version, keeps every column's name and dtype. */
  lemma SmoothKeepsSchema(ed: Edition, conv: Converter, f: Frame)
    requires f.Valid()
    ensures var cs, ds := Cols(f), Cols(Smooth(ed, conv, f).0);
      forall j :: 0 <= j < |cs| ==> ds[j].name == cs[j].name && ds[j].dtype == cs[j].dtype
  {
    if f.keys != [] {
      var m := MaxLen(Cols(f));
      GrowerKeepsSchema(ed, conv, m);
      UpdateEachKeepsSchema(f, Grower(ed, conv, m));
    }
  }

  /** Every smoothing step keeps its column's name and dtype. */
  lemma GrowerKeepsSchema(ed: Edition, conv: Converter, m: nat)
    ensures forall c: Col :: KeepsSchema(c, Grower(ed, conv, m)(c))
  {
    forall c: Col ensures KeepsSchema(c, Grower(ed, conv, m)(c)) {
      GrowKeepsSchema(ed, conv, c, m - |c.data|);
    }
  }

  /** The step's result, if any, has the column's name and dtype. */
  predicate KeepsSchema(c: Col, r: Result<Col>) {
    r.Ok? ==> r.value.name == c.name && r.value.dtype == c.dtype
  }

  lemma UpdateEachKeepsSchema(f: Frame, g: Col -> Result<Col>)
    requires f.Valid() && forall c: Col :: KeepsSchema(c, g(c))
    ensures var cs, ds := Cols(f), Cols(UpdateEach(f, g, 0).0);
      forall j :: 0 <= j < |cs| ==> ds[j].name == cs[j].name && ds[j].dtype == cs[j].dtype
  {
    UpdateEachColumns(f, g);
    StepsKeepSchema(g, Cols(f), Cols(UpdateEach(f, g, 0).0));
  }

  lemma StepsKeepSchema(g: Col -> Result<Col>, cs: seq<Col>, ds: seq<Col>)
    requires |ds| == |cs| && forall c: Col :: KeepsSchema(c, g(c))
    requires forall j :: 0 <= j < |cs| ==> (ds[j] == cs[j] || g(cs[j]) == Ok(ds[j]))
    ensures forall j :: 0 <= j < |cs| ==> ds[j].name == cs[j].name && ds[j].dtype == cs[j].dtype
  {
    forall j | 0 <= j < |cs| ensures ds[j].name == cs[j].name && ds[j].dtype == cs[j].dtype {
      assert KeepsSchema(cs[j], g(cs[j]));
    }
  }

  // ---------------------------------------------------------------------
  // Building tables from lists

  /** The generated column names `unnamed_0`, `unnamed_1`, ... */
  function Unnamed(n: nat): (r: seq<string>)
    ensures |r| == n && Distinct(r)
    ensures forall i :: 0 <= i < n ==> r[i] == "unnamed_" + Digits(i)
  {
    var r := seq(n, i requires 0 <= i < n => "unnamed_" + Digits(i));
    UnnamedDistinct(r, n);
    r
  }

  lemma UnnamedDistinct(r: seq<string>, n: nat)
    requires |r| == n && forall i :: 0 <= i < n ==> r[i] == "unnamed_" + Digits(i)
    ensures Distinct(r)
  {
    forall i, j | 0 <= i < j < n ensures r[i] != r[j] {
      if r[i] == r[j] {
        assert Digits(i) == r[i][8..];
        assert Digits(j) == r[j][8..];
        DigitsInjective(i, j);
      }
    }
  }

  /** A list argument whose items are type-checked after its length:
      `Listed(xs)`, a sequence whose items all have the expected type; `NoList`,
      the argument left out; `NotList`, an object that has no length; and
      `BadItems(len, unique)`, a sequence of `len` items, `unique` of them
      different, some item of a wrong type. */
  datatype ListArg<+T> = Listed(items: seq<T>) | NoList | NotList | BadItems(len: nat, unique: nat)

  /** `Table._create_cols(cols, data)` for `n` lists of data: without names,
      `data[0]` raises IndexError when there is no data, else the names are
      generated; given names must be as many as the lists and all different
      (ValueError), and only then all strings (TypeError); `len` of an object
      without a length raises TypeError. */
  function CreateCols(cols: ListArg<string>, n: nat): (r: Result<seq<string>>)
    ensures r.Ok? ==> |r.value| == n && Distinct(r.value)
    ensures cols.NoList? ==> r == if n == 0 then Err(IndexError) else Ok(Unnamed(n))
    ensures cols.Listed? ==> ((r.Ok? <==> |cols.items| == n && Distinct(cols.items)) &&
      (r.Ok? ==> r.value == cols.items) && (r.Err? ==> r.error == ValueError))
    ensures cols.NotList? ==> r == Err(TypeError)
    ensures cols.BadItems? ==>
      r == if cols.len != n || cols.unique != n then Err(ValueError) else Err(TypeError)
  {
    match cols {
      case NoList => if n == 0 then Err(IndexError) else Ok(Unnamed(n))
      case NotList => Err(TypeError)
      case Listed(cs) =>
        CardDistinct(cs);
        if |cs| != n then Err(ValueError)
        else if |ToSet(cs)| != n then Err(ValueError)
        else Ok(cs)
      case BadItems(len, unique) =>
        if len != n then Err(ValueError)
        else if unique != n then Err(ValueError)
        else Err(TypeError)
    }
  }

  /** The `dtypes` argument of `from_iterable` and `from_dict_of_iterable`
      for `n` columns: left out, every column is `object`; given, it must
      have one dtype per column (ValueError), and only then all types
      (TypeError); `len` of an object without a length raises TypeError. */
  function DtypesArg(dtypes: ListArg<Kind>, n: nat): (r: Result<seq<Kind>>)
    ensures r.Ok? ==> |r.value| == n
    ensures dtypes.NoList? ==> r == Ok(seq(n, _ => ObjectType))
    ensures dtypes.Listed? ==> r == if |dtypes.items| == n then Ok(dtypes.items) else Err(ValueError)
    ensures dtypes.NotList? ==> r == Err(TypeError)
    ensures dtypes.BadItems? ==> r == if dtypes.len == n then Err(TypeError) else Err(ValueError)
  {
    match dtypes {
      case NoList => Ok(seq(n, _ => ObjectType))
      case NotList => Err(TypeError)
      case Listed(ks) => if |ks| != n then Err(ValueError) else Ok(ks)
      case BadItems(len, _) => if len != n then Err(ValueError) else Err(TypeError)
    }
  }

  /** `[Seq(d, n, k) for n, d, k in zip(names, data, kinds)]`: each column
      through the constructor, the first error propagating. */
  function BuildList(ed: Edition, conv: Converter, names: seq<string>, kinds: seq<Kind>, data: seq<seq<Value>>)
    : (r: Result<seq<Col>>)
    requires |names| == |kinds| == |data|
    ensures r.Ok? <==> forall j :: 0 <= j < |data| ==> Build(ed, conv, kinds[j], data[j]).Ok?
    ensures r.Err? ==> exists j :: 0 <= j < |data| && Build(ed, conv, kinds[j], data[j]) == Err(r.error)
    ensures r.Ok? ==> |r.value| == |names| && forall j :: 0 <= j < |names| ==>
      r.value[j] == Col(names[j], kinds[j], Build(ed, conv, kinds[j], data[j]).value)
  {
    var specs := Specs(names, kinds, data);
    var r := MapResult(ColMaker(ed, conv), specs);
    assert forall j :: 0 <= j < |data| ==>
      ColMaker(ed, conv)(specs[j]) == Rebuild(ed, conv, names[j], kinds[j], data[j]);
    r
  }

  /** The `(name, data, kind)` triples of the comprehension. */
  function Specs(names: seq<string>, kinds: seq<Kind>, data: seq<seq<Value>>): (r: seq<(string, Kind, seq<Value>)>)
    requires |names| == |kinds| == |data|
    ensures |r| == |names| && forall j :: 0 <= j < |names| ==> r[j] == (names[j], kinds[j], data[j])
  {
    seq(|names|, j requires 0 <= j < |names| => (names[j], kinds[j], data[j]))
  }

  /** `Seq(d, n, k)` for one triple. */
  function ColMaker(ed: Edition, conv: Converter): ((string, Kind, seq<Value>)) -> Result<Col> {
    (t: (string, Kind, seq<Value>)) => Rebuild(ed, conv, t.0, t.1, t.2)
  }

  /** `Table({n: Seq(d, n, k) ...})` over the columns `BuildList` makes. */
  function BuildColumns(ed: Edition, conv: Converter, names: seq<string>, kinds: seq<Kind>, data: seq<seq<Value>>)
    : (r: Result<Frame>)
    requires Distinct(names) && |names| == |kinds| == |data|
    ensures r.Ok? <==> BuildList(ed, conv, names, kinds, data).Ok?
    ensures r.Err? ==> r.error == BuildList(ed, conv, names, kinds, data).error
    ensures r.Ok? ==> (r.value.Valid() && r.value.keys == names && forall j :: 0 <= j < |names| ==>
      ColAt(r.value, j).name == names[j] && ColAt(r.value, j).dtype == kinds[j])
  {
    match BuildList(ed, conv, names, kinds, data) {
      case Err(e) => Err(e)
      case Ok(cs) =>
        var d := Tabulate(names, cs);
        SmoothKeepsSchema(ed, conv, d);
        Ok(Init(ed, conv, d))
    }
  }

  /** With all lists of the same length, `BuildColumns` needs no padding: each
      column is exactly what the constructor stores. */
  lemma BuildColumnsEven(ed: Edition, conv: Converter, names: seq<string>, kinds: seq<Kind>, data: seq<seq<Value>>, h: nat)
    requires Distinct(names) && |names| == |kinds| == |data|
    requires forall j :: 0 <= j < |data| ==> |data[j]| == h
    requires BuildColumns(ed, conv, names, kinds, data).Ok?
    ensures var f := BuildColumns(ed, conv, names, kinds, data).value;
      forall j :: 0 <= j < |names| ==> ColAt(f, j) == Col(names[j], kinds[j], Build(ed, conv, kinds[j], data[j]).value)
  {
    var cs := BuildList(ed, conv, names, kinds, data).value;
    var d := Tabulate(names, cs);
    SmoothEven(ed, conv, d);
  }

  /** `Table.from_iterable(data, cols, dtypes)`: the names, then the dtypes,
      then one column per list of data. */
  function FromIterable(ed: Edition, conv: Converter, data: seq<seq<Value>>, cols: ListArg<string>, dtypes: ListArg<Kind>)
    : (r: Result<Frame>)
    ensures CreateCols(cols, |data|).Err? ==> r == Err(CreateCols(cols, |data|).error)
    ensures CreateCols(cols, |data|).Ok? && DtypesArg(dtypes, |data|).Err? ==> r == Err(DtypesArg(dtypes, |data|).error)
    ensures r.Ok? ==> (r.value.Valid() && r.value.keys == CreateCols(cols, |data|).value &&
      Dtypes(r.value) == DtypesArg(dtypes, |data|).value)
  {
    match CreateCols(cols, |data|) {
      case Err(e) => Err(e)
      case Ok(names) =>
        match DtypesArg(dtypes, |data|) {
          case Err(e) => Err(e)
          case Ok(kinds) => BuildColumns(ed, conv, names, kinds, data)
        }
    }
  }

  /** `Table.from_dict_of_iterable(d, dtypes)`: one column per key, in key order. */
  function FromDictOfIterable(ed: Edition, conv: Converter, d: Dict<seq<Value>>, dtypes: ListArg<Kind>)
    : (r: Result<Frame>)
    requires d.Valid()
    ensures DtypesArg(dtypes, |d.keys|).Err? ==> r == Err(DtypesArg(dtypes, |d.keys|).error)
    ensures r.Ok? ==> r.value.Valid() && r.value.keys == d.keys && Dtypes(r.value) == DtypesArg(dtypes, |d.keys|).value
  {
    match DtypesArg(dtypes, |d.keys|) {
      case Err(e) => Err(e)
      case Ok(kinds) => BuildColumns(ed, conv, d.keys, kinds, d.Values())
    }
  }

  // ---------------------------------------------------------------------
  // Subscripts

  /** The key of `t[key]`, by its Python type. */
  datatype Key = Name(name: string) | Names(names: seq<string>) | NotAKey

  /** What `t[key]` returns: a column, or a new table. */
  datatype Item = ColumnItem(col: Col) | TableItem(table: Frame)

  /** `Table({k: self._data[k] for k in names})`: KeyError for a missing name. */
  function Select(ed: Edition, conv: Converter, f: Frame, names: seq<string>): (r: Result<Frame>)
    requires f.Valid()
    ensures r.Ok? <==> forall i :: 0 <= i < |names| ==> names[i] in f.entries
    ensures r.Err? ==> r.error == KeyError
    ensures r.Ok? ==> r.value.Valid() && forall k :: k in r.value.entries <==> k in names
  {
    if exists i :: 0 <= i < |names| && names[i] !in f.entries then Err(KeyError)
    else
      var pairs := Picks(f, names);
      var d := FromPairs(pairs);
      assert forall k :: k in d.entries <==> k in names by {
        forall k ensures k in d.entries <==> k in names {
          if k in names {
            var i :| 0 <= i < |names| && names[i] == k;
            assert pairs[i].0 == k;
          }
        }
      }
      Ok(Init(ed, conv, d))
  }

  /** The pairs `(k, self._data[k])` for the names asked for. */
  function Picks(f: Frame, names: seq<string>): (r: seq<(string, Col)>)
    requires f.Valid() && forall i :: 0 <= i < |names| ==> names[i] in f.entries
    ensures |r| == |names| && forall i :: 0 <= i < |names| ==> r[i] == (names[i], f.entries[names[i]])
  {
    seq(|names|, i requires 0 <= i < |names| => (names[i], f.entries[names[i]]))
  }

  /** The columns of the names asked for. */
  function Picked(f: Frame, names: seq<string>): (r: seq<Col>)
    requires f.Valid() && forall i :: 0 <= i < |names| ==> names[i] in f.entries
    ensures |r| == |names| && forall i :: 0 <= i < |names| ==> r[i] == f.entries[names[i]]
  {
    seq(|names|, i requires 0 <= i < |names| => f.entries[names[i]])
  }

  /** Selecting different names of an even table gives exactly those
      columns, in the order asked for. */
  lemma SelectEven(ed: Edition, conv: Converter, f: Frame, names: seq<string>)
    requires f.Valid() && Distinct(names)
    requires forall j :: 0 <= j < |f.keys| ==> |ColAt(f, j).data| == Height(f)
    requires forall i :: 0 <= i < |names| ==> names[i] in f.entries
    ensures Select(ed, conv, f, names) == Ok(Tabulate(names, Picked(f, names)))
  {
    PicksTabulate(f, names);
    EvenEntries(f, names, Picked(f, names));
    SmoothEven(ed, conv, Tabulate(names, Picked(f, names)));
  }

  lemma PicksTabulate(f: Frame, names: seq<string>)
    requires f.Valid() && Distinct(names) && forall i :: 0 <= i < |names| ==> names[i] in f.entries
    ensures FromPairs(Picks(f, names)) == Tabulate(names, Picked(f, names))
  {
    var pairs := Picks(f, names);
    assert Firsts(pairs) == names;
    FromDistinctPairs(pairs);
    var d := FromPairs(pairs);
    var t := Tabulate(names, Picked(f, names));
    assert Cols(d) == Cols(t);
    SameCols(d, t);
  }

  /** Any choice of columns of an even table is even. */
  lemma EvenEntries(f: Frame, names: seq<string>, cs: seq<Col>)
    requires f.Valid() && Distinct(names) && |names| == |cs|
    requires forall j :: 0 <= j < |f.keys| ==> |ColAt(f, j).data| == Height(f)
    requires forall i :: 0 <= i < |names| ==> names[i] in f.entries && cs[i] == f.entries[names[i]]
    ensures var t := Tabulate(names, cs); forall i :: 0 <= i < |names| ==> |ColAt(t, i).data| == Height(t)
  {
    var t := Tabulate(names, cs);
    forall i | 0 <= i < |names| ensures |cs[i].data| == Height(f) {
      assert names[i] in f.keys;
      var j :| 0 <= j < |f.keys| && f.keys[j] == names[i];
      assert cs[i] == ColAt(f, j);
    }
  }

  /** `t[key]`: a string gives its column (KeyError when missing), a sequence
      of names a new table, anything else TypeError. */
  function Subscript(ed: Edition, conv: Converter, f: Frame, key: Key): (r: Result<Item>)
    requires f.Valid()
    ensures key.Name? ==> ((r.Ok? <==> key.name in f.entries) &&
      (r.Ok? ==> r.value == ColumnItem(f.entries[key.name])) && (r.Err? ==> r.error == KeyError))
    ensures key.Names? ==> ((r.Ok? <==> Select(ed, conv, f, key.names).Ok?) &&
      (r.Ok? ==> r.value == TableItem(Select(ed, conv, f, key.names).value)))
    ensures key.NotAKey? ==> r == Err(TypeError)
  {
    match key {
      case Name(k) => if k in f.entries then Ok(ColumnItem(f.entries[k])) else Err(KeyError)
      case Names(ks) =>
        match Select(ed, conv, f, ks) {
          case Err(e) => Err(e)
          case Ok(t) => Ok(TableItem(t))
        }
      case NotAKey => Err(TypeError)
    }
  }

  /** `t[key] = value`: TypeError for a key that is not a string; otherwise
      the column is stored (a new key goes last) and the table smoothed, an
      exception from smoothing propagating with the columns replaced so far. */
  function SetItem(ed: Edition, conv: Converter, f: Frame, key: Arg<string>, value: Col): (r: (Frame, Outcome))
    requires f.Valid()
    ensures r.0.Valid()
    ensures !key.Given? ==> r == (f, Fail(TypeError))
    ensures key.Given? ==> r == Smooth(ed, conv, f.Put(key.value, value))
    ensures key.Given? ==> r.0.keys == if key.value in f.entries then f.keys else f.keys + [key.value]
  {
    match key {
      case Given(k) => Smooth(ed, conv, f.Put(k, value))
      case _ => (f, Fail(TypeError))
    }
  }

  /** Storing a column as long as the others into an even table: nothing
      else changes and smoothing has nothing to pad. */
  lemma SetItemEven(ed: Edition, conv: Converter, f: Frame, k: string, value: Col)
    requires f.Valid() && f.keys != []
    requires forall j :: 0 <= j < |f.keys| ==> |ColAt(f, j).data| == Height(f)
    requires |value.data| == Height(f)
    ensures SetItem(ed, conv, f, Given(k), value) == (f.Put(k, value), Pass)
  {
    var d := f.Put(k, value);
    forall j | 0 <= j < |d.keys| ensures |ColAt(d, j).data| == Height(d) {
      if k in f.entries {
        if f.keys[0] == k { assert ColAt(d, 0) == value; } else { assert ColAt(d, 0) == ColAt(f, 0); }
        if d.keys[j] != k { assert ColAt(d, j) == ColAt(f, j); }
      } else {
        assert ColAt(d, 0) == ColAt(f, 0);
        if j < |f.keys| { assert ColAt(d, j) == ColAt(f, j); }
      }
    }
    SmoothEven(ed, conv, d);
  }

  /** `t.head(n)`: `Table({k: v.head(n) for k, v in self._data.items()})`. */
  function Head(ed: Edition, conv: Converter, f: Frame, n: int): (r: Result<Frame>)
    requires f.Valid()
    ensures r.Ok? ==> r.value.Valid() && r.value.keys == f.keys
  {
    match MapResult((c: Col) => Column.Head(ed, conv, c, n), Cols(f)) {
      case Err(e) => Err(e)
      case Ok(cs) => Ok(Init(ed, conv, Tabulate(f.keys, cs)))
    }
  }

  /** `t.tail(n)`: `Table({k: v.tail(n) for k, v in self._data.items()})`. */
  function Tail(ed: Edition, conv: Converter, f: Frame, n: int): (r: Result<Frame>)
    requires f.Valid()
    ensures r.Ok? ==> r.value.Valid() && r.value.keys == f.keys
  {
    match MapResult((c: Col) => Column.Tail(ed, conv, c, n), Cols(f)) {
      case Err(e) => Err(e)
      case Ok(cs) => Ok(Init(ed, conv, Tabulate(f.keys, cs)))
    }
  }

  /** When every column's head is known, the table's head is built from them. */
  lemma HeadOfCols(ed: Edition, conv: Converter, f: Frame, n: int, cs: seq<Col>)
    requires f.Valid() && |cs| == |f.keys|
    requires forall j :: 0 <= j < |cs| ==> Column.Head(ed, conv, ColAt(f, j), n) == Ok(cs[j])
    ensures Head(ed, conv, f, n) == Ok(Init(ed, conv, Tabulate(f.keys, cs)))
  {
    MapResultOk((c: Col) => Column.Head(ed, conv, c, n), Cols(f), cs);
  }

  /** When every column's tail is known, the table's tail is built from them. */
  lemma TailOfCols(ed: Edition, conv: Converter, f: Frame, n: int, cs: seq<Col>)
    requires f.Valid() && |cs| == |f.keys|
    requires forall j :: 0 <= j < |cs| ==> Column.Tail(ed, conv, ColAt(f, j), n) == Ok(cs[j])
    ensures Tail(ed, conv, f, n) == Ok(Init(ed, conv, Tabulate(f.keys, cs)))
  {
    MapResultOk((c: Col) => Column.Tail(ed, conv, c, n), Cols(f), cs);
  }

  /** `t.union_all(other)`: ValueError unless both tables have the same set of
      names; then `self[k] + other[k]` for each name in this table's order. */
  function UnionAll(ed: Edition, conv: Converter, f: Frame, g: Frame): (r: Result<Frame>)
    requires f.Valid() && g.Valid()
    ensures f.entries.Keys != g.entries.Keys ==> r == Err(ValueError)
    ensures r.Ok? ==> r.value.Valid() && r.value.keys == f.keys
    ensures r.Ok? ==> forall j :: 0 <= j < |f.keys| ==>
      Add(ed, conv, ColAt(f, j), SeqOperand(g.entries[f.keys[j]].data)).Ok?
  {
    if f.entries.Keys != g.entries.Keys then Err(ValueError)
    else
      var add := (k: string) =>
        if k in f.entries && k in g.entries then Add(ed, conv, f.entries[k], SeqOperand(g.entries[k].data))
        else Err(KeyError);
      match MapResult(add, f.keys) {
        case Err(e) => Err(e)
        case Ok(cs) => Ok(Init(ed, conv, Tabulate(f.keys, cs)))
      }
  }

  /** When every column's sum with the other table's column of the same name
      is known, the union is built from them. */
  lemma UnionAllOfCols(ed: Edition, conv: Converter, f: Frame, g: Frame, cs: seq<Col>)
    requires f.Valid() && g.Valid() && f.entries.Keys == g.entries.Keys && |cs| == |f.keys|
    requires forall j :: 0 <= j < |cs| ==>
      Add(ed, conv, ColAt(f, j), SeqOperand(g.entries[f.keys[j]].data)) == Ok(cs[j])
    ensures UnionAll(ed, conv, f, g) == Ok(Init(ed, conv, Tabulate(f.keys, cs)))
  {
    var add := (k: string) =>
      if k in f.entries && k in g.entries then Add(ed, conv, f.entries[k], SeqOperand(g.entries[k].data))
      else Err(KeyError);
    MapResultOk(add, f.keys, cs);
  }
}
