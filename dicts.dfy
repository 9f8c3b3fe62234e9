/** Python's insertion-ordered `dict` with string keys: the order in which
    keys were first inserted, and the current value of each key. */
module Dicts {
  import opened Values

  datatype Dict<V> = Dict(keys: seq<string>, entries: map<string, V>) {

    ghost predicate Valid() {
      Distinct(keys) && forall k :: k in entries <==> k in keys
    }

    /** `d[k] = v`: a new key goes to the end, an existing key keeps its place. */
    function Put(k: string, v: V): (r: Dict<V>)
      requires Valid()
      ensures r.Valid()
      ensures r.entries == entries[k := v]
      ensures k in entries ==> r.keys == keys
      ensures k !in entries ==> r.keys == keys + [k]
    {
      DistinctSnoc(keys, k);
      if k in entries then Dict(keys, entries[k := v]) else Dict(keys + [k], entries[k := v])
    }

    /** `del d[k]`, raising KeyError for a missing key. */
    function Remove(k: string): (r: Result<Dict<V>>)
      requires Valid()
      ensures r.Ok? <==> k in entries
      ensures r.Err? ==> r.error == KeyError
      ensures r.Ok? ==> r.value.Valid() && r.value.entries == entries - {k}
      ensures r.Ok? ==> r.value.keys == Without(keys, k) && |r.value.keys| == |keys| - 1
    {
      if k in entries then
        WithoutDistinct(keys, k);
        Ok(Dict(Without(keys, k), entries - {k}))
      else Err(KeyError)
    }

    /** `{**this, **other}`: this dict's keys first, then the other's new keys;
        on a shared key the other dict's value wins. */
    function Merge(other: Dict<V>): (r: Dict<V>)
      requires Valid() && other.Valid()
      ensures r.Valid()
      ensures forall k :: k in r.entries <==> k in entries || k in other.entries
      ensures forall k :: k in other.entries ==> r.entries[k] == other.entries[k]
      ensures forall k :: k in entries && k !in other.entries ==> r.entries[k] == entries[k]
      ensures r.keys == keys + Fresh(other.keys, entries)
    {
      PutAllKeys(this, other.keys, other.entries);
      PutAll(other.keys, other.entries)
    }

    function PutAll(ks: seq<string>, m: map<string, V>): (r: Dict<V>)
      requires Valid() && Distinct(ks) && forall k :: k in ks ==> k in m
      ensures r.Valid()
      ensures forall k :: k in r.entries <==> k in entries || k in ks
      ensures forall k :: k in ks ==> r.entries[k] == m[k]
      ensures forall k :: k in entries && k !in ks ==> r.entries[k] == entries[k]
      decreases |ks|
    {
      if ks == [] then this
      else
        DistinctSplit(ks);
        Put(ks[0], m[ks[0]]).PutAll(ks[1..], m)
    }

    /** The values in key order (`d.values()`). */
    function Values(): (r: seq<V>)
      requires Valid()
      ensures |r| == |keys| && forall i :: 0 <= i < |keys| ==> r[i] == entries[keys[i]]
    {
      seq(|keys|, i requires 0 <= i < |keys| => entries[keys[i]])
    }
  }

  /** The empty dict `{}`. */
  function Empty<V>(): (r: Dict<V>)
    ensures r.Valid() && r.keys == []
  {
    Dict([], map[])
  }

  /** A dict comprehension `{k: v for k, v in pairs}`: later pairs overwrite
      earlier ones with the same key, which keeps its first position. */
  function FromPairs<V>(pairs: seq<(string, V)>): (r: Dict<V>)
    ensures r.Valid()
    ensures forall k :: k in r.entries <==> exists i :: 0 <= i < |pairs| && pairs[i].0 == k
    ensures |r.keys| <= |pairs|
    decreases |pairs|
  {
    if pairs == [] then Empty()
    else
      var r := FromPairs(pairs[..|pairs| - 1]).Put(pairs[|pairs| - 1].0, pairs[|pairs| - 1].1);
      assert forall k :: k in r.entries <==> exists i :: 0 <= i < |pairs| && pairs[i].0 == k by {
        forall k ensures k in r.entries <==> exists i :: 0 <= i < |pairs| && pairs[i].0 == k {
          if k in r.entries && k != pairs[|pairs| - 1].0 {
            var i :| 0 <= i < |pairs| - 1 && pairs[..|pairs| - 1][i].0 == k;
            assert pairs[i].0 == k;
          }
          if exists i :: 0 <= i < |pairs| && pairs[i].0 == k {
            var i :| 0 <= i < |pairs| && pairs[i].0 == k;
            if i < |pairs| - 1 { assert pairs[..|pairs| - 1][i].0 == k; }
          }
        }
      }
      r
  }

  /** The keys of a sequence of pairs. */
  function Firsts<V>(pairs: seq<(string, V)>): (r: seq<string>)
    ensures |r| == |pairs| && forall i :: 0 <= i < |pairs| ==> r[i] == pairs[i].0
  {
    if pairs == [] then [] else Firsts(pairs[..|pairs| - 1]) + [pairs[|pairs| - 1].0]
  }

  lemma {:induction false} PutAllKeys<V>(d: Dict<V>, ks: seq<string>, m: map<string, V>)
    requires d.Valid() && Distinct(ks) && forall k :: k in ks ==> k in m
    ensures d.PutAll(ks, m).keys == d.keys + Fresh(ks, d.entries)
    decreases |ks|
  {
    if ks != [] {
      DistinctSplit(ks);
      var d' := d.Put(ks[0], m[ks[0]]);
      PutAllKeys(d', ks[1..], m);
      PutKeys(d, ks, m[ks[0]]);
    }
  }

  /** One step of `PutAllKeys`: putting the first key moves it from the
      fresh keys to the dict's keys. */
  lemma PutKeys<V>(d: Dict<V>, ks: seq<string>, v: V)
    requires d.Valid() && ks != [] && ks[0] !in ks[1..]
    ensures d.Put(ks[0], v).keys + Fresh(ks[1..], d.Put(ks[0], v).entries) == d.keys + Fresh(ks, d.entries)
  {
    var k0, rest := ks[0], ks[1..];
    FreshSkip(rest, d.entries, k0, v);
    FreshCons(ks, d.entries);
    if k0 !in d.entries {
      Assoc(d.keys, [k0], Fresh(rest, d.entries));
    }
  }

  lemma FreshCons<V>(ks: seq<string>, m: map<string, V>)
    requires ks != []
    ensures Fresh(ks, m) == (if ks[0] in m then [] else [ks[0]]) + Fresh(ks[1..], m)
  {
  }

  /** With distinct keys, the comprehension keeps the pairs in order. */
  lemma {:induction false} FromDistinctPairs<V>(pairs: seq<(string, V)>)
    requires Distinct(Firsts(pairs))
    ensures FromPairs(pairs).keys == Firsts(pairs)
    ensures forall i :: 0 <= i < |pairs| ==> FromPairs(pairs).entries[pairs[i].0] == pairs[i].1
    decreases |pairs|
  {
    if pairs != [] {
      var n := |pairs| - 1;
      var k := pairs[n].0;
      FirstsSnoc(pairs);
      DistinctSnoc(Firsts(pairs[..n]), k);
      FromDistinctPairs(pairs[..n]);
      FirstsNotIn(pairs[..n], k);
      PutLast(pairs, pairs[..n], FromPairs(pairs[..n]));
    }
  }

  lemma FirstsSnoc<V>(pairs: seq<(string, V)>)
    requires pairs != []
    ensures Firsts(pairs) == Firsts(pairs[..|pairs| - 1]) + [pairs[|pairs| - 1].0]
    ensures FromPairs(pairs) == FromPairs(pairs[..|pairs| - 1]).Put(pairs[|pairs| - 1].0, pairs[|pairs| - 1].1)
  {
  }

  /** Putting the last pair after all the others, whose keys differ from it. */
  lemma PutLast<V>(pairs: seq<(string, V)>, init: seq<(string, V)>, d: Dict<V>)
    requires pairs != [] && init == pairs[..|pairs| - 1] && d.Valid()
    requires forall i :: 0 <= i < |init| ==> init[i].0 != pairs[|pairs| - 1].0
    requires forall i :: 0 <= i < |init| ==> init[i].0 in d.entries && d.entries[init[i].0] == init[i].1
    ensures var e := d.Put(pairs[|pairs| - 1].0, pairs[|pairs| - 1].1);
      forall i :: 0 <= i < |pairs| ==> pairs[i].0 in e.entries && e.entries[pairs[i].0] == pairs[i].1
  {
    var n := |pairs| - 1;
    var e := d.Put(pairs[n].0, pairs[n].1);
    forall i | 0 <= i < |pairs| ensures pairs[i].0 in e.entries && e.entries[pairs[i].0] == pairs[i].1 {
      if i < n {
        assert init[i] == pairs[i];
      }
    }
  }

  lemma FirstsNotIn<V>(pairs: seq<(string, V)>, k: string)
    requires k !in Firsts(pairs)
    ensures forall i :: 0 <= i < |pairs| ==> pairs[i].0 != k
  {
    forall i | 0 <= i < |pairs| ensures pairs[i].0 != k {
      assert Firsts(pairs)[i] == pairs[i].0;
    }
  }

  /** `ks` without `k`. */
  function Without(ks: seq<string>, k: string): (r: seq<string>)
    ensures forall x :: x in r <==> x in ks && x != k
    ensures k in ks && Distinct(ks) ==> |r| == |ks| - 1
    ensures k !in ks ==> r == ks
  {
    if ks == [] then []
    else
      DistinctSplit(ks);
      if ks[0] == k then Without(ks[1..], k) else [ks[0]] + Without(ks[1..], k)
  }

  lemma {:induction false} WithoutDistinct(ks: seq<string>, k: string)
    requires Distinct(ks)
    ensures Distinct(Without(ks, k))
  {
    if ks != [] {
      DistinctSplit(ks);
      WithoutDistinct(ks[1..], k);
      if ks[0] != k {
        DistinctSplit([ks[0]] + Without(ks[1..], k));
        assert ([ks[0]] + Without(ks[1..], k))[1..] == Without(ks[1..], k);
      }
    }
  }

  /** The keys of `ks` that are not yet in `m`, in order. */
  function Fresh<V>(ks: seq<string>, m: map<string, V>): seq<string> {
    if ks == [] then []
    else (if ks[0] in m then [] else [ks[0]]) + Fresh(ks[1..], m)
  }

  lemma {:induction false} FreshSkip<V>(ks: seq<string>, m: map<string, V>, k: string, v: V)
    requires k !in ks
    ensures Fresh(ks, m[k := v]) == Fresh(ks, m)
  {
    if ks != [] {
      FreshSkip(ks[1..], m, k, v);
    }
  }

  /** Merging dicts that share no key: the keys of both and the values of
      both, in order. */
  lemma MergeDisjoint<V>(a: Dict<V>, b: Dict<V>)
    requires a.Valid() && b.Valid()
    requires forall k :: k in b.entries ==> k !in a.entries
    ensures a.Merge(b).keys == a.keys + b.keys
    ensures a.Merge(b).Values() == a.Values() + b.Values()
  {
    var m := a.Merge(b);
    FreshNone(b.keys, a.entries);
    ValuesSplit(m, a, b);
  }

  /** A dict whose keys are those of `a` followed by those of `b`, and which
      agrees with both, holds their values in that order. */
  lemma ValuesSplit<V>(m: Dict<V>, a: Dict<V>, b: Dict<V>)
    requires m.Valid() && a.Valid() && b.Valid() && m.keys == a.keys + b.keys
    requires forall k :: k in a.entries ==> k in m.entries && m.entries[k] == a.entries[k]
    requires forall k :: k in b.entries ==> k in m.entries && m.entries[k] == b.entries[k]
    ensures m.Values() == a.Values() + b.Values()
  {
    var vs := a.Values() + b.Values();
    forall j | 0 <= j < |m.keys| ensures m.Values()[j] == vs[j] {
      if j < |a.keys| {
        assert m.keys[j] == a.keys[j] && a.keys[j] in a.entries;
      } else {
        assert m.keys[j] == b.keys[j - |a.keys|] && b.keys[j - |a.keys|] in b.entries;
      }
    }
  }

  /** Keys none of which is in `m` are all fresh. */
  lemma {:induction false} FreshNone<V>(ks: seq<string>, m: map<string, V>)
    requires forall k :: k in ks ==> k !in m
    ensures Fresh(ks, m) == ks
  {
    if ks != [] {
      assert ks[0] in ks;
      FreshNone(ks[1..], m);
    }
  }
}
