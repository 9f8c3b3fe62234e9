/** Python-level vocabulary shared by every part of the table library:
    dtypes, values, exceptions, run-time checked arguments, and the
    slicing and indexing rules of Python lists. */
module Values {

  /** The `dtype` of a column: the Python type object it was created with. */
  datatype Kind = ObjectType | IntType | StrType | BoolType

  /** A Python value held in a column. `Opaque` stands for every other
      object (floats, lists, user objects), identified only by `id`. */
  datatype Value = None | Int(i: int) | Str(s: string) | Bool(b: bool) | Opaque(id: nat)

  /** The exception classes the library raises or lets through. */
  datatype Error = TypeError | ValueError | KeyError | IndexError | AttributeError

  datatype Result<+T> = Ok(value: T) | Err(error: Error)

  /** The value of a checked argument, or the default when it was left out. */
  function OrDefault<T>(a: Arg<T>, default: T): T {
    match a
    case Given(v) => v
    case _ => default
  }

  /** The outcome of a statement that returns nothing but may raise. */
  datatype Outcome = Pass | Fail(error: Error)

  /** An argument whose Python type is only known at run time: a value of the
      expected type, the argument left out (so that its default applies), or
      an object of another type. */
  datatype Arg<+T> = Given(value: T) | Omitted | Mistyped

  /** `isinstance(v, k)`; `bool` is a subclass of `int`, and everything is an `object`. */
  predicate IsInstance(k: Kind, v: Value) {
    match k
    case ObjectType => true
    case IntType => v.Int? || v.Bool?
    case StrType => v.Str?
    case BoolType => v.Bool?
  }

  /** The effect of calling a typed dtype on a value, `int(x)`, `str(x)`, `bool(x)`.
      The model does not fix Python's conversion rules: every member that converts
      takes the converter as a parameter. */
  type Converter = (Kind, Value) -> Result<Value>

  /** `dtype(x)` for any dtype: `object(x)` always raises TypeError,
      because `object()` accepts no argument. */
  function Call(conv: Converter, k: Kind, v: Value): (r: Result<Value>)
    ensures k == ObjectType ==> r == Err(TypeError)
    ensures k != ObjectType ==> r == conv(k, v)
  {
    if k == ObjectType then Err(TypeError) else conv(k, v)
  }

  /** What the built-in converters guarantee: a successful conversion yields an
      instance of the dtype, and converting that instance again changes nothing. */
  ghost predicate Lawful(conv: Converter) {
    forall k: Kind, v: Value :: k != ObjectType && conv(k, v).Ok? ==>
      IsInstance(k, conv(k, v).value) && conv(k, conv(k, v).value) == conv(k, v)
  }

  /** The numeric value of an `int` or a `bool`. */
  function Number(v: Value): int
    requires v.Int? || v.Bool?
  {
    if v.Int? then v.i else if v.b then 1 else 0
  }

  /** Python's `a + b` on the values the model knows: numbers (bools count as
      0 and 1) add, strings concatenate; every other pair raises TypeError. */
  function Plus(a: Value, b: Value): (r: Result<Value>)
    ensures r.Ok? ==> (r.value.Int? <==> !a.Str?) && (r.value.Str? <==> a.Str?)
    ensures a == None || b == None ==> r == Err(TypeError)
  {
    if (a.Int? || a.Bool?) && (b.Int? || b.Bool?) then Ok(Int(Number(a) + Number(b)))
    else if a.Str? && b.Str? then Ok(Str(a.s + b.s))
    else Err(TypeError)
  }

  // ---------------------------------------------------------------------
  // Python list slicing and indexing

  /** Where a slice bound `n` lands in a list of length `len`: negative bounds
      count from the end, and both are clamped into `0..len`. */
  function Bound(n: int, len: nat): (r: nat)
    ensures r <= len
    ensures 0 <= n <= len ==> r == n
    ensures n > len ==> r == len
    ensures n < 0 ==> r == if n + len < 0 then 0 else n + len
  {
    if n < 0 then (if n + len < 0 then 0 else n + len) else if n > len then len else n
  }

  /** `s[:n]`. */
  function Prefix<T>(s: seq<T>, n: int): seq<T> {
    s[..Bound(n, |s|)]
  }

  /** `s[n:]`. */
  function Suffix<T>(s: seq<T>, n: int): seq<T> {
    s[Bound(n, |s|)..]
  }

  /** `s[i]` does not raise IndexError. */
  predicate InRange(len: nat, i: int) {
    -(len as int) <= i < len
  }

  function Normalize(len: nat, i: int): (j: nat)
    requires InRange(len, i)
    ensures j < len
    ensures (i >= 0 ==> j == i) && (i < 0 ==> j == len + i)
  {
    if i < 0 then len + i else i
  }

  /** `s[i]`, raising IndexError outside `-len(s) .. len(s)-1`. */
  function At<T>(s: seq<T>, i: int): (r: Result<T>)
    ensures r.Ok? <==> InRange(|s|, i)
    ensures r.Ok? ==> r.value == s[Normalize(|s|, i)]
    ensures r.Err? ==> r.error == IndexError
  {
    if InRange(|s|, i) then Ok(s[Normalize(|s|, i)]) else Err(IndexError)
  }

  /** `del s[i]`. */
  function DeleteAt<T>(s: seq<T>, i: int): (r: Result<seq<T>>)
    ensures r.Ok? <==> InRange(|s|, i)
    ensures r.Ok? ==> |r.value| == |s| - 1
    ensures r.Ok? ==> var j := Normalize(|s|, i);
      (forall m :: 0 <= m < j ==> r.value[m] == s[m]) &&
      (forall m :: j <= m < |s| - 1 ==> r.value[m] == s[m + 1])
    ensures r.Err? ==> r.error == IndexError
  {
    if InRange(|s|, i) then
      var j := Normalize(|s|, i);
      Ok(s[..j] + s[j + 1..])
    else Err(IndexError)
  }

  /** `[None] * n`. */
  function Nones(n: nat): (r: seq<Value>)
    ensures |r| == n && forall j :: 0 <= j < n ==> r[j] == None
  {
    seq(n, _ => None)
  }

  /** `s[::-1]`. */
  function Reversed<T>(s: seq<T>): (r: seq<T>)
    ensures |r| == |s| && forall j :: 0 <= j < |s| ==> r[j] == s[|s| - 1 - j]
  {
    seq(|s|, j requires 0 <= j < |s| => s[|s| - 1 - j])
  }

  /** `list(filter(f, s))`: the elements satisfying `f`, in their order
      (`FilterAppend`). */
  function Filter<T>(f: T -> bool, s: seq<T>): (r: seq<T>)
    ensures |r| <= |s|
    ensures forall x :: x in r ==> x in s && f(x)
    ensures forall i :: 0 <= i < |s| && f(s[i]) ==> s[i] in r
    ensures multiset(r) <= multiset(s)
  {
    if s == [] then []
    else
      assert s == [s[0]] + s[1..];
      (if f(s[0]) then [s[0]] else []) + Filter(f, s[1..])
  }

  /** Filtering keeps the order: filtering two pieces one after the other
      gives the filtered whole. */
  lemma {:induction false} FilterAppend<T>(f: T -> bool, a: seq<T>, b: seq<T>)
    ensures Filter(f, a + b) == Filter(f, a) + Filter(f, b)
    decreases |a|
  {
    if a == [] {
      assert a + b == b;
    } else {
      assert (a + b)[1..] == a[1..] + b;
      FilterAppend(f, a[1..], b);
    }
  }

  /** `[f(x) for x in s]` where `f` may raise: the first exception, in order,
      propagates. */
  /** When `f` succeeds on every element, the mapped list is the list of the
      results. */
  lemma MapResultOk<T, U>(f: T -> Result<U>, s: seq<T>, r: seq<U>)
    requires |r| == |s| && forall i :: 0 <= i < |s| ==> f(s[i]) == Ok(r[i])
    ensures MapResult(f, s) == Ok(r)
  {
    var m := MapResult(f, s);
    assert m.Ok?;
    assert forall i :: 0 <= i < |s| ==> m.value[i] == r[i];
    assert m.value == r;
  }

  function MapResult<T, U>(f: T -> Result<U>, s: seq<T>): (r: Result<seq<U>>)
    ensures r.Ok? <==> forall i :: 0 <= i < |s| ==> f(s[i]).Ok?
    ensures r.Ok? ==> |r.value| == |s| && forall i :: 0 <= i < |s| ==> f(s[i]) == Ok(r.value[i])
    ensures r.Err? ==> exists i :: 0 <= i < |s| && f(s[i]) == Err(r.error) && OkBefore(f, s, i)
  {
    if s == [] then Ok([])
    else match f(s[0]) {
      case Err(e) => Err(e)
      case Ok(v) =>
        match MapResult(f, s[1..]) {
          case Err(e) =>
            var i :| 0 <= i < |s| - 1 && f(s[1..][i]) == Err(e) && OkBefore(f, s[1..], i);
            assert f(s[i + 1]) == Err(e);
            assert OkBefore(f, s, i + 1) by {
              forall j | 0 <= j < i + 1 ensures f(s[j]).Ok? {
                if j > 0 { assert s[j] == s[1..][j - 1]; }
              }
            }
            Err(e)
          case Ok(vs) =>
            assert forall i :: 0 <= i < |s| ==> f(s[i]) == Ok(([v] + vs)[i]) by {
              forall i | 0 <= i < |s| ensures f(s[i]) == Ok(([v] + vs)[i]) {
                if i > 0 { assert s[i] == s[1..][i - 1]; }
              }
            }
            Ok([v] + vs)
        }
    }
  }

  /** Every element before position `i` converts without raising. */
  predicate OkBefore<T, U>(f: T -> Result<U>, s: seq<T>, i: nat)
    requires i <= |s|
  {
    forall j :: 0 <= j < i ==> f(s[j]).Ok?
  }

  /** `s.index(v)`: the first position holding `v`, ValueError when there is none. */
  function IndexOf<T(==)>(s: seq<T>, v: T): (r: Result<nat>)
    ensures r.Ok? <==> v in s
    ensures r.Ok? ==> r.value < |s| && s[r.value] == v && forall j :: 0 <= j < r.value ==> s[j] != v
    ensures r.Err? ==> r.error == ValueError
  {
    if s == [] then Err(ValueError)
    else if s[0] == v then Ok(0)
    else
      match IndexOf(s[1..], v) {
        case Err(e) => Err(e)
        case Ok(i) =>
          assert forall j :: 1 <= j <= i ==> s[j] == s[1..][j - 1];
          Ok(i + 1)
      }
  }

  /** No element of `s` occurs twice. */
  predicate Distinct<T(==)>(s: seq<T>) {
    forall i, j :: 0 <= i < j < |s| ==> Apart(s, i, j)
  }

  /** Positions `i` and `j` of `s` hold different elements; a separate
      predicate, so that a sequence without repeats is only taken apart at the
      positions a proof names. */
  predicate Apart<T(==)>(s: seq<T>, i: int, j: int)
    requires 0 <= i < |s| && 0 <= j < |s|
  {
    s[i] != s[j]
  }

  /** In a sequence without repeats, equal elements sit at equal positions. */
  lemma DistinctAt<T>(s: seq<T>, i: int, j: int)
    requires Distinct(s) && 0 <= i < |s| && 0 <= j < |s|
    ensures s[i] == s[j] ==> i == j
  {
    if i < j {
      assert Apart(s, i, j);
    } else if j < i {
      assert Apart(s, j, i);
    }
  }

  /** Every two positions of a sequence without repeats hold different elements. */
  lemma DistinctApart<T>(s: seq<T>)
    requires Distinct(s)
    ensures forall i, j :: 0 <= i < |s| && 0 <= j < |s| && i != j ==> s[i] != s[j]
  {
    forall i, j | 0 <= i < |s| && 0 <= j < |s| && i != j ensures s[i] != s[j] {
      DistinctAt(s, i, j);
    }
  }

  /** A sequence has no repeats exactly when its first element does not
      recur and the rest has none. */
  lemma DistinctSplit<T>(s: seq<T>)
    requires s != []
    ensures Distinct(s) <==> s[0] !in s[1..] && Distinct(s[1..])
  {
    var t := s[1..];
    if Distinct(s) {
      forall k | 0 <= k < |t| ensures t[k] != s[0] {
        assert Apart(s, 0, k + 1);
      }
      forall i, j | 0 <= i < j < |t| ensures Apart(t, i, j) {
        assert Apart(s, i + 1, j + 1);
      }
    }
    if s[0] !in t && Distinct(t) {
      forall i, j | 0 <= i < j < |s| ensures Apart(s, i, j) {
        if i == 0 {
          assert s[j] == t[j - 1];
        } else {
          assert Apart(t, i - 1, j - 1);
        }
      }
    }
  }

  /** A sequence with an element added at the end has no repeats exactly when
      the sequence has none and does not hold that element. */
  lemma DistinctSnoc<T>(a: seq<T>, x: T)
    ensures Distinct(a + [x]) <==> Distinct(a) && x !in a
  {
    var s := a + [x];
    if Distinct(s) {
      forall i, j | 0 <= i < j < |a| ensures Apart(a, i, j) {
        assert Apart(s, i, j);
      }
      forall i | 0 <= i < |a| ensures a[i] != x {
        assert Apart(s, i, |a|);
      }
    }
    if Distinct(a) && x !in a {
      forall i, j | 0 <= i < j < |s| ensures Apart(s, i, j) {
        if j < |a| {
          assert Apart(a, i, j);
        } else {
          assert s[i] == a[i];
        }
      }
    }
  }

  lemma Assoc<T>(a: seq<T>, b: seq<T>, c: seq<T>)
    ensures (a + b) + c == a + (b + c)
  {
  }

  /** The slice over the whole of a sequence is the sequence. */
  lemma SliceAll<T>(s: seq<T>)
    ensures s[0..|s|] == s && s[..|s|] == s
  {
  }

  function Min(a: int, b: int): int {
    if a <= b then a else b
  }

  /** `set(s)`. */
  function ToSet<T>(s: seq<T>): set<T> {
    set x | x in s
  }

  /** `len(set(s)) == len(s)` exactly when `s` has no repeated element. */
  lemma {:induction false} CardDistinct<T>(s: seq<T>)
    ensures |ToSet(s)| <= |s|
    ensures |ToSet(s)| == |s| <==> Distinct(s)
  {
    if s != [] {
      var t := s[1..];
      CardDistinct(t);
      assert ToSet(s) == {s[0]} + ToSet(t);
      DistinctSplit(s);
      if s[0] in t {
        assert ToSet(s) == ToSet(t);
      } else {
        assert s[0] !in ToSet(t);
      }
    }
  }

  /** The decimal digits of `n`, as `str(n)` writes them. */
  function Digits(n: nat): (r: string)
    ensures |r| >= 1 && (n >= 10 <==> |r| >= 2)
    decreases n
  {
    var d := ['0', '1', '2', '3', '4', '5', '6', '7', '8', '9'][n % 10];
    if n < 10 then [d] else Digits(n / 10) + [d]
  }

  /** Different numbers have different decimal representations. */
  lemma {:induction false} DigitsInjective(a: nat, b: nat)
    requires Digits(a) == Digits(b)
    ensures a == b
    decreases a
  {
    var da, db := Digits(a), Digits(b);
    assert da[|da| - 1] == db[|db| - 1];
    assert a % 10 == b % 10;
    if a >= 10 && b >= 10 {
      assert Digits(a / 10) == da[..|da| - 1];
      assert Digits(b / 10) == db[..|db| - 1];
      DigitsInjective(a / 10, b / 10);
    }
  }
}
