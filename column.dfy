/** `Seq`, a named, typed column of values (pyaxols/atypes/seq.py).

    The repository holds three versions of `Seq` whose methods are written
    alike but whose constructors treat each element differently; every
    operation that goes through the constructor takes the `Edition`. The
    mutating methods live in the class `Seq`, whose objects know their version. */
module Column {
  import opened Values
  import opened Ranking

  /** The packaged `pyaxols/atypes/seq.py`, the legacy `atypes/seq.py` and the
      oldest `seq.py`. */
  datatype Edition = Packaged | Legacy | Oldest

  /** The state of a `Seq`: its name, its dtype and its list of values. */
  datatype Col = Col(name: string, dtype: Kind, data: seq<Value>)

  /** What the constructor stores for one element `x` of a column of dtype `k`:
      the packaged version converts every non-None element of a typed column
      and keeps the rest; the legacy version converts every element of a typed
      column, None included; the oldest version calls `dtype(x)` on every
      non-None element only to check it, and stores `x` itself. */
  function Coerce(ed: Edition, conv: Converter, k: Kind, x: Value): Result<Value> {
    match ed
    case Packaged => if k == ObjectType || x == None then Ok(x) else conv(k, x)
    case Legacy => if k == ObjectType then Ok(x) else conv(k, x)
    case Oldest =>
      if x == None then Ok(x)
      else match Call(conv, k, x) {
        case Err(e) => Err(e)
        case Ok(_) => Ok(x)
      }
  }

  /** The data setter: every element through `Coerce`, the first error propagating. */
  function Build(ed: Edition, conv: Converter, k: Kind, data: seq<Value>): (r: Result<seq<Value>>)
    ensures r.Ok? <==> forall i :: 0 <= i < |data| ==> Coerce(ed, conv, k, data[i]).Ok?
    ensures r.Ok? ==> (|r.value| == |data| &&
      forall i :: 0 <= i < |data| ==> Coerce(ed, conv, k, data[i]) == Ok(r.value[i]))
    ensures r.Err? ==> exists i :: 0 <= i < |data| && Coerce(ed, conv, k, data[i]) == Err(r.error)
  {
    MapResult(x => Coerce(ed, conv, k, x), data)
  }

  /** `Seq(data, name, dtype)` for a name and a dtype that are already checked. */
  function Rebuild(ed: Edition, conv: Converter, name: string, k: Kind, data: seq<Value>): (r: Result<Col>)
    ensures r.Ok? <==> Build(ed, conv, k, data).Ok?
    ensures r.Ok? ==> r.value == Col(name, k, Build(ed, conv, k, data).value)
    ensures r.Err? ==> r.error == Build(ed, conv, k, data).error
  {
    match Build(ed, conv, k, data) {
      case Err(e) => Err(e)
      case Ok(d) => Ok(Col(name, k, d))
    }
  }

  /** `Seq(data, name, dtype)`: the dtype is checked first, then the data, converting
      as it is stored, then the name. A left-out argument takes its default. */
  function Make(ed: Edition, conv: Converter, data: Arg<seq<Value>>, name: Arg<string>, dtype: Arg<Kind>): (r: Result<Col>)
    ensures dtype.Mistyped? ==> r == Err(TypeError)
    ensures !dtype.Mistyped? && data.Mistyped? ==> r == Err(TypeError)
    ensures name.Mistyped? ==> r.Err?
    ensures !dtype.Mistyped? && !data.Mistyped? ==>
      var b := Build(ed, conv, OrDefault(dtype, ObjectType), OrDefault(data, []));
      (b.Err? ==> r == Err(b.error)) && (b.Ok? && name.Mistyped? ==> r == Err(TypeError))
    ensures r.Ok? <==> (!dtype.Mistyped? && !data.Mistyped? && !name.Mistyped? &&
      Build(ed, conv, OrDefault(dtype, ObjectType), OrDefault(data, [])).Ok?)
    ensures r.Ok? ==> (
      r.value.dtype == (OrDefault(dtype, ObjectType)) &&
      r.value.name == OrDefault(name, "unnamed") &&
      Build(ed, conv, r.value.dtype, OrDefault(data, [])) == Ok(r.value.data))
  {
    match dtype {
      case Mistyped => Err(TypeError)
      case _ =>
        var k := OrDefault(dtype, ObjectType);
        match data {
          case Mistyped => Err(TypeError)
          case _ =>
            var d := OrDefault(data, []);
            match Build(ed, conv, k, d) {
              case Err(e) => Err(e)
              case Ok(stored) =>
                match name {
                  case Mistyped => Err(TypeError)
                  case _ => Ok(Col(OrDefault(name, "unnamed"), k, stored))
                }
            }
        }
    }
  }

  /** Storing the column's own data again changes nothing: what every Seq built by
      the constructor satisfies when the conversions are lawful. */
  predicate Settled(ed: Edition, conv: Converter, c: Col) {
    forall i :: 0 <= i < |c.data| ==> Coerce(ed, conv, c.dtype, c.data[i]) == Ok(c.data[i])
  }

  // ---------------------------------------------------------------------
  // The constructor in each version

  /** Packaged: an object column stores the data unchanged; a typed column
      converts each non-None element with `dtype(x)` and keeps each None in place. */
  lemma PackagedConstruction(conv: Converter, k: Kind, data: seq<Value>)
    ensures var r := Build(Packaged, conv, k, data);
      (k == ObjectType ==> r == Ok(data)) &&
      (r.Ok? <==> forall i :: 0 <= i < |data| && data[i] != None && k != ObjectType ==> conv(k, data[i]).Ok?) &&
      (r.Ok? ==> forall i :: 0 <= i < |data| ==>
        (data[i] == None ==> r.value[i] == None) &&
        (data[i] != None && k != ObjectType ==> conv(k, data[i]) == Ok(r.value[i])))
  {
    if k == ObjectType {
      BuildFixed(Packaged, conv, k, data);
    }
  }

  /** Legacy: a typed column passes every element through `dtype`, None included. */
  lemma LegacyConstruction(conv: Converter, k: Kind, data: seq<Value>)
    requires k != ObjectType
    ensures var r := Build(Legacy, conv, k, data);
      (r.Ok? <==> forall i :: 0 <= i < |data| ==> conv(k, data[i]).Ok?) &&
      (r.Ok? ==> forall i :: 0 <= i < |data| ==> conv(k, data[i]) == Ok(r.value[i]))
  {
  }

  /** Oldest: a successful construction stores the data exactly as given, and
      fails exactly when `dtype(x)` raises for some non-None element; with dtype
      `object` that is any non-None element at all. */
  lemma OldestConstruction(conv: Converter, k: Kind, data: seq<Value>)
    ensures var r := Build(Oldest, conv, k, data);
      (r.Ok? ==> r.value == data) &&
      (r.Ok? <==> forall i :: 0 <= i < |data| && data[i] != None ==> Call(conv, k, data[i]).Ok?) &&
      (k == ObjectType ==> (r.Ok? <==> forall i :: 0 <= i < |data| ==> data[i] == None))
  {
    var r := Build(Oldest, conv, k, data);
    if r.Ok? {
      assert forall i :: 0 <= i < |data| ==> r.value[i] == data[i];
    }
  }

  /** Data whose every element is already stored as it would be is stored unchanged. */
  lemma BuildFixed(ed: Edition, conv: Converter, k: Kind, d: seq<Value>)
    requires forall i :: 0 <= i < |d| ==> Coerce(ed, conv, k, d[i]) == Ok(d[i])
    ensures Build(ed, conv, k, d) == Ok(d)
  {
    var r := Build(ed, conv, k, d);
    assert r.Ok?;
    assert forall i :: 0 <= i < |d| ==> r.value[i] == d[i];
    assert r.value == d;
  }

  /** With lawful conversions, every column the constructor builds is settled. */
  lemma BuildSettles(ed: Edition, conv: Converter, name: string, k: Kind, data: seq<Value>)
    requires Lawful(conv) && Build(ed, conv, k, data).Ok?
    ensures Settled(ed, conv, Col(name, k, Build(ed, conv, k, data).value))
  {
    var out := Build(ed, conv, k, data).value;
    forall i | 0 <= i < |out| ensures Coerce(ed, conv, k, out[i]) == Ok(out[i]) {
      assert Coerce(ed, conv, k, data[i]) == Ok(out[i]);
    }
  }

  /** Rebuilding a settled column from elements it holds keeps them as they are. */
  lemma RebuildSettled(ed: Edition, conv: Converter, c: Col, d: seq<Value>)
    requires Settled(ed, conv, c)
    requires forall i :: 0 <= i < |d| ==> d[i] in c.data
    ensures Rebuild(ed, conv, c.name, c.dtype, d) == Ok(Col(c.name, c.dtype, d))
  {
    forall i | 0 <= i < |d| ensures Coerce(ed, conv, c.dtype, d[i]) == Ok(d[i]) {
      var j :| 0 <= j < |c.data| && c.data[j] == d[i];
    }
    BuildFixed(ed, conv, c.dtype, d);
  }

  // ---------------------------------------------------------------------
  // Operations that build a new Seq

  /** `s.head(n)`: `Seq(data[:n], name, dtype)`. */
  function Head(ed: Edition, conv: Converter, c: Col, n: int): Result<Col> {
    Rebuild(ed, conv, c.name, c.dtype, Prefix(c.data, n))
  }

  /** `s.tail(n)`: `Seq(data[-n:], name, dtype)`. */
  function Tail(ed: Edition, conv: Converter, c: Col, n: int): Result<Col> {
    Rebuild(ed, conv, c.name, c.dtype, Suffix(c.data, -n))
  }

  /** For `n >= 0` the head is the first `min(n, len)` elements and the tail the
      last `min(n, len)`, except that `tail(0)` is the whole column, since
      `data[-0:]` is `data[0:]`. */
  lemma HeadTail(ed: Edition, conv: Converter, c: Col, n: int)
    requires Settled(ed, conv, c) && n >= 0
    ensures var m := Min(n, |c.data|);
      Head(ed, conv, c, n) == Ok(Col(c.name, c.dtype, c.data[..m])) &&
      (n > 0 ==> Tail(ed, conv, c, n) == Ok(Col(c.name, c.dtype, c.data[|c.data| - m..]))) &&
      (n == 0 ==> Tail(ed, conv, c, n) == Ok(c))
  {
    var m := Min(n, |c.data|);
    assert Prefix(c.data, n) == c.data[..m];
    RebuildSettled(ed, conv, c, c.data[..m]);
    RebuildSettled(ed, conv, c, Suffix(c.data, -n));
    if n > 0 {
      assert Suffix(c.data, -n) == c.data[|c.data| - m..];
    } else {
      assert Suffix(c.data, -n) == c.data;
    }
  }

  /** `s.find(v)`: the least index holding `v`, ValueError when none does. */
  function Find(c: Col, v: Value): (r: Result<nat>)
    ensures r.Ok? <==> v in c.data
    ensures r.Ok? ==> (r.value < |c.data| && c.data[r.value] == v &&
      forall j :: 0 <= j < r.value ==> c.data[j] != v)
    ensures r.Err? ==> r.error == ValueError
  {
    IndexOf(c.data, v)
  }

  /** `s[i]` in the packaged and legacy versions. */
  function GetItem(c: Col, i: int): (r: Result<Value>)
    ensures r.Ok? <==> InRange(|c.data|, i)
    ensures r.Ok? ==> r.value == c.data[Normalize(|c.data|, i)]
    ensures r.Err? ==> r.error == IndexError
  {
    At(c.data, i)
  }

  /** `s[i]`: the packaged and legacy versions return the stored element; the
      oldest converts it with `dtype(item)` as it is read, while iterating
      over it (`Col.data`) yields the stored elements as they are. */
  function Item(ed: Edition, conv: Converter, c: Col, i: int): (r: Result<Value>)
    ensures !InRange(|c.data|, i) ==> r == Err(IndexError)
    ensures InRange(|c.data|, i) && ed != Oldest ==> r == Ok(c.data[Normalize(|c.data|, i)])
    ensures InRange(|c.data|, i) && ed == Oldest ==> r == Call(conv, c.dtype, c.data[Normalize(|c.data|, i)])
  {
    match GetItem(c, i) {
      case Err(e) => Err(e)
      case Ok(x) => if ed == Oldest then Call(conv, c.dtype, x) else Ok(x)
    }
  }

  /** In the oldest version `s[i]` and `list(s)[i]` can differ: a string
      that `int` accepts is stored in an int column as the string, and read
      back through `s[i]` as the number. */
  lemma OldestReadConverts(conv: Converter)
    requires conv(IntType, Str("1")) == Ok(Int(1))
    ensures var made := Make(Oldest, conv, Given([Str("1")]), Given("a"), Given(IntType));
      made == Ok(Col("a", IntType, [Str("1")])) &&
      made.value.data[0] == Str("1") && Item(Oldest, conv, made.value, 0) == Ok(Int(1))
  {
    OldestConstruction(conv, IntType, [Str("1")]);
  }

  /** In the oldest version nothing can be read from an object column:
      `object(item)` raises TypeError for every element. */
  lemma OldestObjectUnreadable(conv: Converter, c: Col, i: int)
    requires c.dtype == ObjectType
    ensures Item(Oldest, conv, c, i) == if InRange(|c.data|, i) then Err(TypeError) else Err(IndexError)
  {
  }

  /** The right operand of `s + other`, by its Python type. */
  datatype Addend =
    | Scalar(v: Value)                  // a single value
    | SeqOperand(items: seq<Value>)     // another Seq (its data)
    | ListOperand(items: seq<Value>)    // any other Sequence, such as a list
    | OtherObject                       // anything else

  /** `isinstance(other, self.dtype)`: always true for dtype `object`. */
  predicate IsInstanceOfDtype(k: Kind, other: Addend) {
    k == ObjectType || (other.Scalar? && IsInstance(k, other.v))
  }

  /** `[i + other for i in data]`: only a single value can be added to the
      elements the model knows; adding a Seq, a list or another object to
      one raises TypeError. */
  function Elementwise(data: seq<Value>, other: Addend): (r: Result<seq<Value>>)
    ensures other.Scalar? ==> r == MapResult(x => Plus(x, other.v), data)
    ensures !other.Scalar? ==> r == if data == [] then Ok([]) else Err(TypeError)
  {
    if other.Scalar? then MapResult(x => Plus(x, other.v), data)
    else if data == [] then Ok([]) else Err(TypeError)
  }

  /** `s + other`: an instance of the dtype is added to every element; a Seq or
      another Sequence is concatenated; anything else raises TypeError. The
      result goes through the constructor. */
  function Add(ed: Edition, conv: Converter, c: Col, other: Addend): Result<Col> {
    if IsInstanceOfDtype(c.dtype, other) then
      match Elementwise(c.data, other) {
        case Err(e) => Err(e)
        case Ok(d) => Rebuild(ed, conv, c.name, c.dtype, d)
      }
    else
      match other {
        case SeqOperand(d) => Rebuild(ed, conv, c.name, c.dtype, c.data + d)
        case ListOperand(d) => Rebuild(ed, conv, c.name, c.dtype, c.data + d)
        case _ => Err(TypeError)
      }
  }

  /** The dispatch order of `+`: for a typed column a Seq or a list is
      concatenated, a value of another type raises TypeError; for an object
      column every operand takes the elementwise branch, so nothing is ever
      concatenated to a non-empty object column. */
  lemma AddDispatch(ed: Edition, conv: Converter, c: Col, other: Addend)
    requires Settled(ed, conv, c)
    ensures c.dtype != ObjectType && (other.SeqOperand? || other.ListOperand?) ==>
      Add(ed, conv, c, other) == Rebuild(ed, conv, c.name, c.dtype, c.data + other.items)
    ensures c.dtype != ObjectType && other.Scalar? && !IsInstance(c.dtype, other.v) ==>
      Add(ed, conv, c, other) == Err(TypeError)
    ensures c.dtype != ObjectType && other.OtherObject? ==> Add(ed, conv, c, other) == Err(TypeError)
    ensures c.dtype == ObjectType && !other.Scalar? ==>
      Add(ed, conv, c, other) == if c.data == [] then Ok(c) else Err(TypeError)
    ensures c.dtype == ObjectType && other.Scalar? ==>
      (Add(ed, conv, c, other).Ok? ==> |Add(ed, conv, c, other).value.data| == |c.data|)
  {
    if c.dtype == ObjectType && !other.Scalar? && c.data == [] {
      BuildFixed(ed, conv, c.dtype, []);
    }
    if c.dtype == ObjectType && other.Scalar? {
      var e := Elementwise(c.data, other);
      if e.Ok? {
        assert |e.value| == |c.data|;
      }
    }
  }

  /** `s.grow(n)`: ValueError for `n < 0`, the column itself for `n == 0`, and
      `s + [None] * n` otherwise. */
  function Grow(ed: Edition, conv: Converter, c: Col, n: int): (r: Result<Col>)
    ensures n < 0 ==> r == Err(ValueError)
    ensures n == 0 ==> r == Ok(c)
    ensures n > 0 ==> r == Add(ed, conv, c, ListOperand(Nones(n)))
  {
    if n < 0 then Err(ValueError)
    else if n == 0 then Ok(c)
    else Add(ed, conv, c, ListOperand(Nones(n)))
  }

  /** A settled typed column grows by exactly `n` Nones in the packaged and
      oldest versions; an object column with data never grows, and an empty
      one stays empty. */
  lemma GrowPads(ed: Edition, conv: Converter, c: Col, n: int)
    requires Settled(ed, conv, c) && n > 0
    ensures c.dtype != ObjectType && ed != Legacy ==>
      Grow(ed, conv, c, n) == Ok(Col(c.name, c.dtype, c.data + Nones(n)))
    ensures c.dtype == ObjectType ==>
      Grow(ed, conv, c, n) == if c.data == [] then Ok(c) else Err(TypeError)
  {
    AddDispatch(ed, conv, c, ListOperand(Nones(n)));
    if c.dtype != ObjectType && ed != Legacy {
      var d := c.data + Nones(n);
      forall i | 0 <= i < |d| ensures Coerce(ed, conv, c.dtype, d[i]) == Ok(d[i]) {
        if i >= |c.data| {
          assert d[i] == None;
        }
      }
      BuildFixed(ed, conv, c.dtype, d);
    }
  }

  /** In the legacy version the padding goes through the constructor too, so
      each new element is `dtype(None)`, or its error. */
  lemma LegacyGrowConvertsPadding(conv: Converter, c: Col, n: int)
    requires Settled(Legacy, conv, c) && n > 0 && c.dtype != ObjectType
    ensures conv(c.dtype, None).Err? ==> Grow(Legacy, conv, c, n) == Err(conv(c.dtype, None).error)
    ensures conv(c.dtype, None).Ok? ==>
      Grow(Legacy, conv, c, n) == Ok(Col(c.name, c.dtype, c.data + seq(n, _ => conv(c.dtype, None).value)))
  {
    AddDispatch(Legacy, conv, c, ListOperand(Nones(n)));
    var d := c.data + Nones(n);
    var b := Build(Legacy, conv, c.dtype, d);
    if conv(c.dtype, None).Err? {
      assert !b.Ok? by {
        assert Coerce(Legacy, conv, c.dtype, d[|c.data|]).Err?;
      }
      assert b.Err?;
      var j :| 0 <= j < |d| && Coerce(Legacy, conv, c.dtype, d[j]) == Err(b.error);
      assert j >= |c.data|;
      assert d[j] == None;
    } else {
      var w := conv(c.dtype, None).value;
      var e := c.data + seq(n, _ => w);
      assert b.Ok? by {
        forall i | 0 <= i < |d| ensures Coerce(Legacy, conv, c.dtype, d[i]).Ok? {
          if i >= |c.data| { assert d[i] == None; }
        }
      }
      assert b.value == e by {
        forall i | 0 <= i < |d| ensures b.value[i] == e[i] {
          if i >= |c.data| { assert d[i] == None; } else { assert d[i] == c.data[i]; }
        }
      }
    }
  }

  /** `s.reverse()`. */
  function Reverse(ed: Edition, conv: Converter, c: Col): Result<Col> {
    Rebuild(ed, conv, c.name, c.dtype, Reversed(c.data))
  }

  /** `s.sorted(desc)`: `sorted(data, reverse=desc)`, which takes the elements in
      the order `argsort` gives. */
  function SortedCol(ed: Edition, conv: Converter, c: Col, lt: (Value, Value) -> bool, desc: bool): Result<Col> {
    Rebuild(ed, conv, c.name, c.dtype, Apply(c.data, Argsort(c.data, lt, desc)))
  }

  /** `s.filter(f)`. */
  function FilterCol(ed: Edition, conv: Converter, c: Col, f: Value -> bool): Result<Col> {
    Rebuild(ed, conv, c.name, c.dtype, Filter(f, c.data))
  }

  /** `reverse` keeps the name and dtype of a settled column and reverses its data. */
  lemma ReverseKeepsSchema(ed: Edition, conv: Converter, c: Col)
    requires Settled(ed, conv, c)
    ensures Reverse(ed, conv, c) == Ok(Col(c.name, c.dtype, Reversed(c.data)))
  {
    RebuildSettled(ed, conv, c, Reversed(c.data));
  }

  /** `filter` keeps the name and dtype of a settled column, and the elements
      satisfying `f`, in order. */
  lemma FilterKeepsSchema(ed: Edition, conv: Converter, c: Col, f: Value -> bool)
    requires Settled(ed, conv, c)
    ensures FilterCol(ed, conv, c, f) == Ok(Col(c.name, c.dtype, Filter(f, c.data)))
  {
    RebuildSettled(ed, conv, c, Filter(f, c.data));
  }

  /** `sorted` keeps the name and dtype of a settled column and returns an
      ordered permutation of its data. */
  lemma SortedColOrders(ed: Edition, conv: Converter, c: Col, lt: (Value, Value) -> bool, desc: bool)
    requires Settled(ed, conv, c) && StrictWeakOrder(lt)
    ensures var r := SortedCol(ed, conv, c, lt, desc);
      r.Ok? && r.value.name == c.name && r.value.dtype == c.dtype &&
      multiset(r.value.data) == multiset(c.data) &&
      forall i, j :: 0 <= i < j < |c.data| ==>
        if desc then !lt(r.value.data[i], r.value.data[j]) else !lt(r.value.data[j], r.value.data[i])
  {
    var p := Argsort(c.data, lt, desc);
    var d := Apply(c.data, p);
    assert forall i :: 0 <= i < |d| ==> d[i] in c.data;
    RebuildSettled(ed, conv, c, d);
    ArgsortPermutation(c.data, lt, desc);
    ApplyPermutation(c.data, p);
    ArgsortSortedStable(c.data, lt, desc);
  }

  /** `s.map(f)`: the mapped values go through the constructor, so element `i`
      is what the constructor stores for `f(data[i])`. */
  function MapCol(ed: Edition, conv: Converter, c: Col, f: Value -> Value): (r: Result<Col>)
    ensures r.Ok? <==> forall i :: 0 <= i < |c.data| ==> Coerce(ed, conv, c.dtype, f(c.data[i])).Ok?
    ensures r.Ok? ==> (r.value.name == c.name && r.value.dtype == c.dtype && |r.value.data| == |c.data| &&
      forall i :: 0 <= i < |c.data| ==> Coerce(ed, conv, c.dtype, f(c.data[i])) == Ok(r.value.data[i]))
  {
    var d := seq(|c.data|, i requires 0 <= i < |c.data| => f(c.data[i]));
    assert forall i :: 0 <= i < |c.data| ==> d[i] == f(c.data[i]);
    Rebuild(ed, conv, c.name, c.dtype, d)
  }

  /** `s.as_type(dtype)`: the same data and name through the constructor with
      the new dtype. The dtype has no default, so leaving it out is a TypeError. */
  function AsType(ed: Edition, conv: Converter, c: Col, dtype: Arg<Kind>): (r: Result<Col>)
    ensures !dtype.Given? ==> r == Err(TypeError)
    ensures dtype.Given? ==> (r.Ok? <==> Build(ed, conv, dtype.value, c.data).Ok?)
    ensures r.Ok? ==> (dtype.Given? && r.value.name == c.name &&
      r.value.dtype == dtype.value &&
      |r.value.data| == |c.data| &&
      forall i :: 0 <= i < |c.data| ==> Coerce(ed, conv, r.value.dtype, c.data[i]) == Ok(r.value.data[i]))
  {
    if !dtype.Given? then Err(TypeError)
    else Make(ed, conv, Given(c.data), Given(c.name), dtype)
  }

  /** `Seq.empty(name, dtype)`. */
  function EmptyCol(ed: Edition, conv: Converter, name: Arg<string>, dtype: Arg<Kind>): (r: Result<Col>)
    ensures r.Ok? <==> !name.Mistyped? && !dtype.Mistyped?
    ensures r.Err? ==> r.error == TypeError
    ensures r.Ok? ==> (r.value.data == [] &&
      r.value.name == OrDefault(name, "unnamed") &&
      r.value.dtype == (OrDefault(dtype, ObjectType)))
  {
    Make(ed, conv, Given([]), name, dtype)
  }

  // ---------------------------------------------------------------------
  // The Seq object

  /** A `Seq` object of any of the three versions. */
  class Seq {
    const ed: Edition
    var name: string
    var dtype: Kind
    var data: seq<Value>

    function View(): Col
      reads this
    {
      Col(name, dtype, data)
    }

    /** A Seq object holding an already constructed column. */
    constructor (ed: Edition, c: Col)
      ensures this.ed == ed && View() == c
    {
      this.ed := ed;
      name, dtype, data := c.name, c.dtype, c.data;
    }

    /** `Seq(data, name, dtype)`. */
    static method New(ed: Edition, conv: Converter, data: Arg<seq<Value>>, name: Arg<string>, dtype: Arg<Kind>)
      returns (r: Result<Seq>)
      ensures r.Ok? ==> fresh(r.value) && r.value.ed == ed && Make(ed, conv, data, name, dtype) == Ok(r.value.View())
      ensures r.Err? ==> Make(ed, conv, data, name, dtype) == Err(r.error)
    {
      match Make(ed, conv, data, name, dtype) {
        case Err(e) => return Err(e);
        case Ok(c) =>
          var s := new Seq(ed, c);
          return Ok(s);
      }
    }

    /** `s.append(v)`, the same in every version: no type check, one more
        element, and `self` returned. */
    method Append(v: Value) returns (self: Seq)
      modifies this
      ensures self == this
      ensures data == old(data) + [v] && |data| == |old(data)| + 1
      ensures name == old(name) && dtype == old(dtype)
    {
      data := data + [v];
      return this;
    }

    /** `s.rename(name)`. The name has no default, so leaving it out is a
        TypeError in every version. Packaged: TypeError for a non-str name,
        else only the name changes. Legacy and oldest: `self.name = name`
        assigns a property without a setter (the setter was bound to `_name`),
        which raises AttributeError whatever the argument. */
    method Rename(newName: Arg<string>) returns (r: Result<Seq>)
      modifies this
      ensures newName.Omitted? ==> r == Err(TypeError) && name == old(name)
      ensures ed != Packaged && !newName.Omitted? ==> r == Err(AttributeError) && name == old(name)
      ensures ed == Packaged && newName.Given? ==> r == Ok(this) && name == newName.value
      ensures ed == Packaged && !newName.Given? ==> r == Err(TypeError) && name == old(name)
      ensures dtype == old(dtype) && data == old(data)
    {
      if newName.Omitted? {
        return Err(TypeError);
      }
      if ed != Packaged {
        return Err(AttributeError);
      }
      if !newName.Given? {
        return Err(TypeError);
      }
      name := newName.value;
      return Ok(this);
    }

    /** `del s[i]`: only the packaged version defines `__delitem__`; in the
        others the statement raises TypeError. */
    method DelItem(i: int) returns (out: Outcome)
      modifies this
      ensures out == Pass <==> ed == Packaged && InRange(|old(data)|, i)
      ensures out == Pass ==> DeleteAt(old(data), i) == Ok(data)
      ensures out != Pass ==> out == Fail(if ed == Packaged then IndexError else TypeError) && data == old(data)
      ensures name == old(name) && dtype == old(dtype)
    {
      if ed != Packaged {
        return Fail(TypeError);
      }
      match DeleteAt(data, i) {
        case Err(e) => return Fail(e);
        case Ok(d) =>
          data := d;
          return Pass;
      }
    }

    /** `s.grow(n)`: at `n == 0` the very same object comes back. */
    method GrowSeq(conv: Converter, n: int) returns (r: Result<Seq>)
      ensures n == 0 ==> r == Ok(this)
      ensures n != 0 && r.Ok? ==> fresh(r.value) && r.value.ed == ed && Grow(ed, conv, View(), n) == Ok(r.value.View())
      ensures r.Err? ==> Grow(ed, conv, View(), n) == Err(r.error)
    {
      if n == 0 {
        return Ok(this);
      }
      match Grow(ed, conv, View(), n) {
        case Err(e) => return Err(e);
        case Ok(c) =>
          var s := new Seq(ed, c);
          return Ok(s);
      }
    }
  }
}
