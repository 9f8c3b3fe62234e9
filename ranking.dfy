/** The ranking helpers of pyaxols/utils.py: `argsort`, the index permutation
    that stably sorts a sequence, and `sorted_by_pattern`.

    Python's `sorted` compares with `<` only. The model keeps that comparison
    abstract (`lt`), and the ordering lemmas assume that it is a strict weak
    order, which is what a stable sort needs to be meaningful. */
module Ranking {
  import opened Values

  /** `a < b` is irreflexive, transitive, and incomparability is transitive.
      The two transitivity laws are stated through named predicates, so a
      proof uses them only at the elements it names. */
  ghost predicate StrictWeakOrder<T(!new)>(lt: (T, T) -> bool) {
    (forall a :: !lt(a, a)) &&
    (forall a, b, c :: Transitive(lt, a, b, c)) &&
    (forall a, b, c :: IncomparableTransitive(lt, a, b, c))
  }

  ghost predicate Transitive<T>(lt: (T, T) -> bool, a: T, b: T, c: T) {
    lt(a, b) && lt(b, c) ==> lt(a, c)
  }

  ghost predicate IncomparableTransitive<T>(lt: (T, T) -> bool, a: T, b: T, c: T) {
    !lt(a, b) && !lt(b, c) ==> !lt(a, c)
  }

  /** The comparison `sorted(..., reverse=desc)` sorts by: with `reverse=True`
      Python sorts by the flipped comparison and keeps equal elements in
      their original order. */
  function Order<T>(lt: (T, T) -> bool, desc: bool): (T, T) -> bool {
    if desc then (a, b) => lt(b, a) else lt
  }

  lemma OrderIsStrictWeak<T(!new)>(lt: (T, T) -> bool, desc: bool)
    requires StrictWeakOrder(lt)
    ensures StrictWeakOrder(Order(lt, desc))
  {
    var o := Order(lt, desc);
    forall a, b, c ensures Transitive(o, a, b, c) && IncomparableTransitive(o, a, b, c) {
      assert Transitive(lt, c, b, a) && IncomparableTransitive(lt, c, b, a);
      assert Transitive(lt, a, b, c) && IncomparableTransitive(lt, a, b, c);
    }
  }

  /** `list(range(n))`. */
  function Range(n: nat): (r: seq<nat>)
    ensures |r| == n && forall i :: 0 <= i < n ==> r[i] == i
  {
    seq(n, i => i)
  }

  /** Every entry of `r` indexes into a sequence of length `n`. */
  predicate Indices(r: seq<nat>, n: nat) {
    forall i :: 0 <= i < |r| ==> r[i] < n
  }

  /** `[s[i] for i in p]`. */
  function Apply<T>(s: seq<T>, p: seq<nat>): (r: seq<T>)
    requires Indices(p, |s|)
  {
    seq(|p|, j requires 0 <= j < |p| => s[p[j]])
  }

  /** `tuple(s[i] for i in p)`, raising IndexError at the first index past the end. */
  function Gather<T>(s: seq<T>, p: seq<nat>): (r: Result<seq<T>>)
    ensures r.Ok? <==> Indices(p, |s|)
    ensures r.Ok? ==> |r.value| == |p| && forall j :: 0 <= j < |p| ==> r.value[j] == s[p[j]]
    ensures r.Err? ==> r.error == IndexError
  {
    if Indices(p, |s|) then Ok(Apply(s, p)) else Err(IndexError)
  }

  /** Keys taken through `r` never decrease. */
  ghost predicate SortedBy<T>(s: seq<T>, lt: (T, T) -> bool, r: seq<nat>)
    requires Indices(r, |s|)
  {
    forall i, j {:trigger lt(s[r[j]], s[r[i]])} :: 0 <= i < j < |r| ==> !lt(s[r[j]], s[r[i]])
  }

  /** Two indices appear out of their original order only when their keys are
      strictly ordered, so equal keys keep their original order. */
  ghost predicate StableBy<T>(s: seq<T>, lt: (T, T) -> bool, r: seq<nat>)
    requires Indices(r, |s|)
  {
    forall i, j {:trigger lt(s[r[i]], s[r[j]])} :: 0 <= i < j < |r| && r[j] < r[i] ==> lt(s[r[i]], s[r[j]])
  }

  /** Stable insertion of index `m` into the sorted index list `r`: before the
      first index whose key is greater than `s[m]`. */
  function Insert<T>(s: seq<T>, lt: (T, T) -> bool, m: nat, r: seq<nat>): (out: seq<nat>)
    requires m < |s| && Indices(r, |s|)
    ensures |out| == |r| + 1 && Indices(out, |s|)
  {
    if r == [] then [m]
    else if lt(s[m], s[r[0]]) then
      assert r == [r[0]] + r[1..];
      [m] + r
    else
      assert r == [r[0]] + r[1..];
      [r[0]] + Insert(s, lt, m, r[1..])
  }

  /** Insertion sort of the first `n` indices: the reference definition of
      `sorted(range(n), key=s.__getitem__)`. */
  function SortIndices<T>(s: seq<T>, lt: (T, T) -> bool, n: nat): (r: seq<nat>)
    requires n <= |s|
    ensures |r| == n && Indices(r, n) && Indices(r, |s|)
  {
    if n == 0 then []
    else
      var p := SortIndices(s, lt, n - 1);
      InsertIndices(s, lt, n - 1, p, n);
      Insert(s, lt, n - 1, p)
  }

  /** Inserting an index below `n` among indices below `n` keeps them all below `n`. */
  lemma {:induction false} InsertIndices<T>(s: seq<T>, lt: (T, T) -> bool, m: nat, r: seq<nat>, n: nat)
    requires m < |s| && Indices(r, |s|) && Indices(r, n) && m < n
    ensures Indices(Insert(s, lt, m, r), n)
  {
    if r != [] && !lt(s[m], s[r[0]]) {
      InsertIndices(s, lt, m, r[1..], n);
    }
  }

  /** The insertion adds `m` and keeps every other entry. */
  lemma {:induction false} InsertElements<T>(s: seq<T>, lt: (T, T) -> bool, m: nat, r: seq<nat>)
    requires m < |s| && Indices(r, |s|)
    ensures multiset(Insert(s, lt, m, r)) == multiset(r) + multiset{m}
    ensures forall i :: 0 <= i < |r| + 1 ==> Insert(s, lt, m, r)[i] == m || Insert(s, lt, m, r)[i] in r
  {
    if r != [] {
      assert r == [r[0]] + r[1..];
      if !lt(s[m], s[r[0]]) {
        InsertElements(s, lt, m, r[1..]);
      }
    }
  }

  /** The insertion sort yields a permutation of `range(n)`. */
  lemma {:induction false} SortIndicesPermutation<T>(s: seq<T>, lt: (T, T) -> bool, n: nat)
    requires n <= |s|
    ensures multiset(SortIndices(s, lt, n)) == multiset(Range(n))
  {
    if n > 0 {
      SortIndicesPermutation(s, lt, n - 1);
      SortIndicesStep(s, lt, n);
      InsertElements(s, lt, n - 1, SortIndices(s, lt, n - 1));
      RangeMultisetSnoc(n);
    }
  }

  /** One step of the insertion sort. */
  lemma SortIndicesStep<T>(s: seq<T>, lt: (T, T) -> bool, n: nat)
    requires 0 < n <= |s|
    ensures SortIndices(s, lt, n) == Insert(s, lt, n - 1, SortIndices(s, lt, n - 1))
  {
  }

  /** `argsort(seq, desc)` (pyaxols/utils.py:1-3). */
  function Argsort<T>(s: seq<T>, lt: (T, T) -> bool, desc: bool): (r: seq<nat>)
    ensures |r| == |s| && Indices(r, |s|)
  {
    SortIndices(s, Order(lt, desc), |s|)
  }

  // ---------------------------------------------------------------------
  // Argsort returns a permutation

  lemma ArgsortPermutation<T>(s: seq<T>, lt: (T, T) -> bool, desc: bool)
    ensures multiset(Argsort(s, lt, desc)) == multiset(Range(|s|))
    ensures forall i :: 0 <= i < |s| ==> i in Argsort(s, lt, desc)
    ensures Distinct(Argsort(s, lt, desc))
  {
    var r := Argsort(s, lt, desc);
    SortIndicesPermutation(s, Order(lt, desc), |s|);
    forall i | 0 <= i < |s| ensures i in r {
      assert Range(|s|)[i] == i;
      assert i in multiset(Range(|s|));
    }
    forall i, j | 0 <= i < j < |r| ensures r[i] != r[j] {
      MultisetTwice(r, i, j);
      RangeOnce(|s|, r[i]);
    }
  }

  lemma MultisetTwice(r: seq<nat>, i: nat, j: nat)
    requires i < j < |r|
    ensures r[i] == r[j] ==> multiset(r)[r[i]] >= 2
  {
    assert r == r[..i] + [r[i]] + r[i + 1..j] + [r[j]] + r[j + 1..];
  }

  lemma {:induction false} RangeOnce(n: nat, x: nat)
    requires x < n
    ensures multiset(Range(n))[x] == 1
  {
    assert Range(n) == Range(n - 1) + [n - 1];
    if x < n - 1 {
      RangeOnce(n - 1, x);
    } else {
      var r := Range(n - 1);
      assert forall k :: 0 <= k < |r| ==> r[k] != x;
      assert x !in multiset(r);
    }
  }

  // ---------------------------------------------------------------------
  // Argsort sorts

  /** Once `s[m]` is smaller than the first key of a sorted list, it is
      smaller than all of them. */
  lemma SmallerThanAll<T(!new)>(s: seq<T>, lt: (T, T) -> bool, m: nat, r: seq<nat>)
    requires StrictWeakOrder(lt) && m < |s| && Indices(r, |s|) && SortedBy(s, lt, r)
    requires r != [] && lt(s[m], s[r[0]])
    ensures forall k :: 0 <= k < |r| ==> lt(s[m], s[r[k]])
  {
    forall k | 0 <= k < |r| ensures lt(s[m], s[r[k]]) {
      if k > 0 {
        assert !lt(s[r[k]], s[r[0]]);
        assert IncomparableTransitive(lt, s[m], s[r[k]], s[r[0]]);
      }
    }
  }

  lemma {:induction false} InsertSorted<T(!new)>(s: seq<T>, lt: (T, T) -> bool, m: nat, r: seq<nat>)
    requires StrictWeakOrder(lt) && m < |s| && Indices(r, |s|) && SortedBy(s, lt, r)
    ensures SortedBy(s, lt, Insert(s, lt, m, r))
  {
    if r != [] {
      var out := Insert(s, lt, m, r);
      if lt(s[m], s[r[0]]) {
        SmallerThanAll(s, lt, m, r);
        forall i, j | 0 <= i < j < |out| ensures !lt(s[out[j]], s[out[i]]) {
          if i == 0 {
            assert out[j] == r[j - 1];
            assert Transitive(lt, s[m], s[out[j]], s[m]);
          } else {
            assert out[i] == r[i - 1] && out[j] == r[j - 1];
          }
        }
      } else {
        var rest := Insert(s, lt, m, r[1..]);
        InsertSorted(s, lt, m, r[1..]);
        InsertElements(s, lt, m, r[1..]);
        forall i, j | 0 <= i < j < |out| ensures !lt(s[out[j]], s[out[i]]) {
          if i == 0 {
            assert out[j] == rest[j - 1];
            if rest[j - 1] != m {
              var k :| 0 <= k < |r[1..]| && r[1..][k] == rest[j - 1];
              assert r[k + 1] == out[j];
            }
          } else {
            assert out[i] == rest[i - 1] && out[j] == rest[j - 1];
          }
        }
      }
    }
  }

  lemma {:induction false} InsertStable<T(!new)>(s: seq<T>, lt: (T, T) -> bool, m: nat, r: seq<nat>)
    requires StrictWeakOrder(lt) && m < |s| && Indices(r, |s|) && Indices(r, m)
    requires SortedBy(s, lt, r) && StableBy(s, lt, r)
    ensures StableBy(s, lt, Insert(s, lt, m, r))
  {
    if r != [] {
      var out := Insert(s, lt, m, r);
      if lt(s[m], s[r[0]]) {
        SmallerThanAll(s, lt, m, r);
        forall i, j | 0 <= i < j < |out| && out[j] < out[i] ensures lt(s[out[i]], s[out[j]]) {
          if i == 0 {
            assert out[j] == r[j - 1];
          } else {
            assert out[i] == r[i - 1] && out[j] == r[j - 1];
          }
        }
      } else {
        var rest := Insert(s, lt, m, r[1..]);
        InsertStable(s, lt, m, r[1..]);
        InsertElements(s, lt, m, r[1..]);
        forall i, j | 0 <= i < j < |out| && out[j] < out[i] ensures lt(s[out[i]], s[out[j]]) {
          if i == 0 {
            assert out[j] == rest[j - 1];
            if rest[j - 1] != m {
              var k :| 0 <= k < |r[1..]| && r[1..][k] == rest[j - 1];
              assert r[k + 1] == out[j];
            }
          } else {
            assert out[i] == rest[i - 1] && out[j] == rest[j - 1];
          }
        }
      }
    }
  }

  lemma {:induction false} SortIndicesSortedStable<T(!new)>(s: seq<T>, lt: (T, T) -> bool, n: nat)
    requires StrictWeakOrder(lt) && n <= |s|
    ensures SortedStable(s, lt, SortIndices(s, lt, n))
  {
    if n > 0 {
      var r := SortIndices(s, lt, n - 1);
      SortIndicesSortedStable(s, lt, n - 1);
      InsertSortedStable(s, lt, n - 1, r);
      SortIndicesStep(s, lt, n);
    }
  }

  ghost predicate SortedStable<T>(s: seq<T>, lt: (T, T) -> bool, r: seq<nat>) {
    Indices(r, |s|) && SortedBy(s, lt, r) && StableBy(s, lt, r)
  }

  lemma InsertSortedStable<T(!new)>(s: seq<T>, lt: (T, T) -> bool, m: nat, r: seq<nat>)
    requires StrictWeakOrder(lt) && m < |s| && Indices(r, |s|) && Indices(r, m)
    requires SortedStable(s, lt, r)
    ensures SortedStable(s, lt, Insert(s, lt, m, r))
  {
    InsertSorted(s, lt, m, r);
    InsertStable(s, lt, m, r);
  }

  /** `seq[argsort(seq)[j]]` never decreases in `j` (never increases with
      `desc`), and equal keys keep their original order in both directions. */
  lemma ArgsortSortedStable<T(!new)>(s: seq<T>, lt: (T, T) -> bool, desc: bool)
    requires StrictWeakOrder(lt)
    ensures var r := Argsort(s, lt, desc);
      forall i, j :: 0 <= i < j < |r| ==>
        (if desc then !lt(s[r[i]], s[r[j]]) else !lt(s[r[j]], s[r[i]])) &&
        (r[j] < r[i] ==> if desc then lt(s[r[j]], s[r[i]]) else lt(s[r[i]], s[r[j]]))
  {
    var o, r := Order(lt, desc), Argsort(s, lt, desc);
    OrderIsStrictWeak(lt, desc);
    SortIndicesSortedStable(s, o, |s|);
    forall i, j | 0 <= i < j < |r|
      ensures (if desc then !lt(s[r[i]], s[r[j]]) else !lt(s[r[j]], s[r[i]])) &&
        (r[j] < r[i] ==> if desc then lt(s[r[j]], s[r[i]]) else lt(s[r[i]], s[r[j]]))
    {
      assert !o(s[r[j]], s[r[i]]);
      if r[j] < r[i] {
        assert o(s[r[i]], s[r[j]]);
      }
    }
  }

  /** On an already ascending sequence `argsort` is the identity. */
  lemma {:induction false} SortedInputIdentity<T>(s: seq<T>, lt: (T, T) -> bool, n: nat)
    requires n <= |s|
    requires forall i, j :: 0 <= i < j < |s| ==> !lt(s[j], s[i])
    ensures SortIndices(s, lt, n) == Range(n)
  {
    if n > 0 {
      SortedInputIdentity(s, lt, n - 1);
      SortIndicesStep(s, lt, n);
      InsertLast(s, lt, n - 1, Range(n - 1));
      RangeSnoc(n);
    }
  }

  lemma RangeSnoc(n: nat)
    requires n > 0
    ensures Range(n) == Range(n - 1) + [n - 1]
  {
  }

  lemma RangeMultisetSnoc(n: nat)
    requires n > 0
    ensures multiset(Range(n)) == multiset(Range(n - 1)) + multiset{(n - 1) as nat}
  {
    RangeSnoc(n);
  }

  lemma {:induction false} InsertLast<T>(s: seq<T>, lt: (T, T) -> bool, m: nat, r: seq<nat>)
    requires m < |s| && Indices(r, m)
    requires forall i, j :: 0 <= i < j < |s| ==> !lt(s[j], s[i])
    ensures Insert(s, lt, m, r) == r + [m]
  {
    if r != [] {
      assert !lt(s[m], s[r[0]]);
      InsertLast(s, lt, m, r[1..]);
      assert r == [r[0]] + r[1..];
    }
  }

  lemma ArgsortOfAscending<T>(s: seq<T>, lt: (T, T) -> bool)
    requires forall i, j :: 0 <= i < j < |s| ==> !lt(s[j], s[i])
    ensures Argsort(s, lt, false) == Range(|s|)
  {
    SortedInputIdentity(s, lt, |s|);
  }

  // ---------------------------------------------------------------------
  // sorted_by_pattern

  /** `sorted_by_pattern(seq, pattern)` (pyaxols/utils.py:6-8): `zip` stops at
      the shorter list, then the pairs are stably sorted by their pattern value. */
  function SortedByPattern<T, K>(xs: seq<T>, pattern: seq<K>, lt: (K, K) -> bool): (r: seq<T>)
    ensures |r| == Min(|xs|, |pattern|)
  {
    var m := Min(|xs|, |pattern|);
    Apply(xs[..m], Argsort(pattern[..m], lt, false))
  }

  /** `p` is a stable sorting permutation of `keys` under `lt`. */
  ghost predicate StablySorts<T>(keys: seq<T>, lt: (T, T) -> bool, p: seq<nat>) {
    |p| == |keys| && Indices(p, |keys|) && multiset(p) == multiset(Range(|keys|)) &&
    SortedBy(keys, lt, p) && StableBy(keys, lt, p)
  }

  lemma ArgsortStablySorts<T(!new)>(s: seq<T>, lt: (T, T) -> bool)
    requires StrictWeakOrder(lt)
    ensures StablySorts(s, lt, Argsort(s, lt, false))
  {
    ArgsortPermutation(s, lt, false);
    SortIndicesSortedStable(s, lt, |s|);
  }

  /** The result is `seq`'s first `min(len(seq), len(pattern))` elements, taken
      in an order that stably sorts their pattern values. */
  lemma SortedByPatternOrdered<T, K(!new)>(xs: seq<T>, pattern: seq<K>, lt: (K, K) -> bool)
    requires StrictWeakOrder(lt)
    ensures var m := Min(|xs|, |pattern|);
      exists p: seq<nat> :: StablySorts(pattern[..m], lt, p) &&
        forall j :: 0 <= j < m ==> SortedByPattern(xs, pattern, lt)[j] == xs[p[j]]
  {
    var m := Min(|xs|, |pattern|);
    var p := Argsort(pattern[..m], lt, false);
    ArgsortStablySorts(pattern[..m], lt);
    assert forall j :: 0 <= j < m ==> SortedByPattern(xs, pattern, lt)[j] == xs[p[j]];
  }

  /** The result is a rearrangement of the first `min(len(seq), len(pattern))`
      elements of `seq`. */
  lemma SortedByPatternPermutes<T, K>(xs: seq<T>, pattern: seq<K>, lt: (K, K) -> bool)
    ensures multiset(SortedByPattern(xs, pattern, lt)) == multiset(xs[..Min(|xs|, |pattern|)])
  {
    var m := Min(|xs|, |pattern|);
    var p := Argsort(pattern[..m], lt, false);
    ArgsortPermutation(pattern[..m], lt, false);
    ApplyPermutation(xs[..m], p);
  }

  /** Taking a sequence through a permutation of its indices keeps its multiset. */
  lemma ApplyPermutation<T>(s: seq<T>, p: seq<nat>)
    requires Indices(p, |s|) && multiset(p) == multiset(Range(|s|))
    ensures multiset(Apply(s, p)) == multiset(s)
  {
    ApplyMultiset(s, p);
    RangeApply(s);
  }

  lemma {:induction false} ApplyMultiset<T>(s: seq<T>, p: seq<nat>)
    requires Indices(p, |s|)
    ensures forall q: seq<nat> :: Indices(q, |s|) && multiset(q) == multiset(p) ==>
      multiset(Apply(s, q)) == multiset(Apply(s, p))
  {
    forall q: seq<nat> | Indices(q, |s|) && multiset(q) == multiset(p)
      ensures multiset(Apply(s, q)) == multiset(Apply(s, p))
    {
      SameMultisetApply(s, q, p);
    }
  }

  lemma {:induction false} SameMultisetApply<T>(s: seq<T>, q: seq<nat>, p: seq<nat>)
    requires Indices(q, |s|) && Indices(p, |s|) && multiset(q) == multiset(p)
    ensures multiset(Apply(s, q)) == multiset(Apply(s, p))
    decreases |p|
  {
    if p != [] {
      var x := p[0];
      assert p == [x] + p[1..];
      assert x in multiset(q);
      var k :| 0 <= k < |q| && q[k] == x;
      var q' := q[..k] + q[k + 1..];
      RemoveOne(s, q, k);
      HeadMultiset(p);
      assert multiset(q') == multiset(p[1..]);
      SameMultisetApply(s, q', p[1..]);
      ApplyCons(s, p);
    }
  }

  /** Dropping entry `k` of `q` drops one `q[k]` from its multiset and one
      `s[q[k]]` from the multiset of what it selects. */
  lemma RemoveOne<T>(s: seq<T>, q: seq<nat>, k: nat)
    requires Indices(q, |s|) && k < |q|
    ensures Indices(q[..k] + q[k + 1..], |s|)
    ensures multiset(q[..k] + q[k + 1..]) == multiset(q) - multiset{q[k]}
    ensures multiset(Apply(s, q)) == multiset(Apply(s, q[..k] + q[k + 1..])) + multiset{s[q[k]]}
  {
    var a, b := q[..k], q[k + 1..];
    assert q == a + [q[k]] + b;
    ApplyAppend(s, a + [q[k]], b);
    ApplyAppend(s, a, [q[k]]);
    ApplyAppend(s, a, b);
    assert Apply(s, [q[k]]) == [s[q[k]]];
  }

  lemma ApplyAppend<T>(s: seq<T>, a: seq<nat>, b: seq<nat>)
    requires Indices(a, |s|) && Indices(b, |s|)
    ensures Indices(a + b, |s|) && Apply(s, a + b) == Apply(s, a) + Apply(s, b)
  {
  }

  lemma HeadMultiset(p: seq<nat>)
    requires p != []
    ensures multiset(p[1..]) == multiset(p) - multiset{p[0]}
  {
    assert p == [p[0]] + p[1..];
  }

  lemma ApplyCons<T>(s: seq<T>, p: seq<nat>)
    requires p != [] && Indices(p, |s|)
    ensures multiset(Apply(s, p)) == multiset(Apply(s, p[1..])) + multiset{s[p[0]]}
  {
    assert Apply(s, p) == [s[p[0]]] + Apply(s, p[1..]);
  }

  lemma RangeApply<T>(s: seq<T>)
    ensures Apply(s, Range(|s|)) == s
  {
  }
}
