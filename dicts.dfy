/** Python dictionaries as lists of items in insertion order, and the two
    dictionary helpers of `rucio.common.utils`: `invert_dict` and
    `make_valid_did`. */
module Dicts {
  import opened Wrappers

  /** No key occurs twice: the items of a real dictionary. */
  predicate DistinctKeys<K(==), V>(items: seq<(K, V)>)
  {
    forall i, j :: 0 <= i < j < |items| ==> items[i].0 != items[j].0
  }

  /** `d.get(k)`. */
  function Lookup<K(==), V>(items: seq<(K, V)>, k: K): (r: Option<V>)
  {
    if items == [] then None
    else if items[0].0 == k then Some(items[0].1)
    else Lookup(items[1..], k)
  }

  /** `d.get(k)` is `None` exactly when no item has the key `k`. */
  lemma {:induction false} LookupNone<K, V>(items: seq<(K, V)>, k: K)
    ensures Lookup(items, k).None? <==> forall i :: 0 <= i < |items| ==> items[i].0 != k
  {
    if items != [] {
      LookupNone(items[1..], k);
      assert forall i :: 0 < i < |items| ==> items[i] == items[1..][i - 1];
    }
  }

  /** The dictionary as a map; when a key repeats, the last item wins. */
  function ToMap<K(==), V>(items: seq<(K, V)>): map<K, V>
  {
    if items == [] then map[]
    else ToMap(items[..|items| - 1])[items[|items| - 1].0 := items[|items| - 1].1]
  }

  /** The keys of the map are the keys of the items. */
  lemma {:induction false} ToMapKeys<K, V>(items: seq<(K, V)>)
    ensures ToMap(items).Keys == set i | 0 <= i < |items| :: items[i].0
  {
    if items != [] {
      var init := items[..|items| - 1];
      ToMapKeys(init);
      assert forall i :: 0 <= i < |init| ==> init[i] == items[i];
    }
  }

  lemma {:induction false} ToMapSize<K, V>(items: seq<(K, V)>)
    requires DistinctKeys(items)
    ensures |ToMap(items).Keys| == |items|
  {
    if items != [] {
      var init := items[..|items| - 1];
      ToMapSize(init);
      ToMapKeys(init);
      assert items[|items| - 1].0 !in ToMap(init).Keys;
    }
  }

  lemma {:induction false} ToMapAppend<K, V>(a: seq<(K, V)>, b: seq<(K, V)>)
    ensures ToMap(a + b) == ToMap(a) + ToMap(b)
    decreases |b|
  {
    if b == [] {
      assert a + b == a;
    } else {
      var b' := b[..|b| - 1];
      ToMapAppend(a, b');
      assert (a + b)[..|a + b| - 1] == a + b';
    }
  }

  /** The map of a real dictionary is the one `Lookup` describes. */
  lemma {:induction false} ToMapLookup<K, V>(items: seq<(K, V)>, k: K)
    requires DistinctKeys(items)
    ensures k in ToMap(items) <==> Lookup(items, k).Some?
    ensures k in ToMap(items) ==> ToMap(items)[k] == Lookup(items, k).value
  {
    ToMapKeys(items);
    if items != [] {
      ToMapAppend([items[0]], items[1..]);
      assert items == [items[0]] + items[1..];
      assert ToMap([items[0]]) == map[items[0].0 := items[0].1];
      ToMapLookup(items[1..], k);
      ToMapKeys(items[1..]);
      if items[0].0 == k {
        assert k !in ToMap(items[1..]);
      }
    }
  }

  /** `d[k] = v`: an existing key keeps its place, a new key goes last. */
  function Assign<K(==), V>(items: seq<(K, V)>, k: K, v: V): (r: seq<(K, V)>)
  {
    if items == [] then [(k, v)]
    else if items[0].0 == k then [(k, v)] + items[1..]
    else [items[0]] + Assign(items[1..], k, v)
  }

  /** `d[k] = v` either keeps the length or appends `(k, v)`, and every
      existing key keeps its place. */
  lemma {:induction false} AssignKeys<K, V>(items: seq<(K, V)>, k: K, v: V)
    ensures |Assign(items, k, v)| == |items| || Assign(items, k, v) == items + [(k, v)]
    ensures forall i :: 0 <= i < |items| ==> Assign(items, k, v)[i].0 == items[i].0
  {
    if items != [] && items[0].0 != k {
      AssignKeys(items[1..], k, v);
      var r := Assign(items, k, v);
      assert r == [items[0]] + Assign(items[1..], k, v);
      forall i | 0 < i < |items|
        ensures r[i].0 == items[i].0
      {
        assert r[i] == Assign(items[1..], k, v)[i - 1];
        assert items[i] == items[1..][i - 1];
      }
    }
  }

  /** After `d[k] = v`, `d[k]` is `v` and every other key reads as before. */
  lemma {:induction false} AssignLookup<K, V>(items: seq<(K, V)>, k: K, v: V, j: K)
    ensures Lookup(Assign(items, k, v), j) == if j == k then Some(v) else Lookup(items, j)
  {
    if items != [] && items[0].0 != k {
      AssignLookup(items[1..], k, v, j);
    }
  }

  /** Assignment keeps the keys distinct, and appends exactly when the key
      is new. */
  lemma {:induction false} AssignShape<K, V>(items: seq<(K, V)>, k: K, v: V)
    ensures Lookup(items, k).None? ==> Assign(items, k, v) == items + [(k, v)]
    ensures Lookup(items, k).Some? ==> |Assign(items, k, v)| == |items|
    ensures DistinctKeys(items) ==> DistinctKeys(Assign(items, k, v))
  {
    if items != [] && items[0].0 != k {
      AssignShape(items[1..], k, v);
      var r := Assign(items, k, v);
      if DistinctKeys(items) {
        assert DistinctKeys(items[1..]);
        forall a, b | 0 <= a < b < |r|
          ensures r[a].0 != r[b].0
        {
          if a == 0 && b < |items| {
            AssignKeys(items, k, v);
            assert r[b].0 == items[b].0;
          } else if a == 0 {
            assert r[b] == (k, v);
          }
        }
      }
    }
  }

  /** `del d[k]`; the remaining items keep their order. */
  function Remove<K(==), V>(items: seq<(K, V)>, k: K): (r: seq<(K, V)>)
    ensures |r| <= |items|
  {
    if items == [] then []
    else if items[0].0 == k then items[1..]
    else [items[0]] + Remove(items[1..], k)
  }

  /** After `del d[k]`, a dictionary has no `k` and every other key reads
      as before. */
  lemma {:induction false} RemoveLookup<K, V>(items: seq<(K, V)>, k: K, j: K)
    requires DistinctKeys(items)
    ensures Lookup(Remove(items, k), j) == if j == k then None else Lookup(items, j)
    ensures DistinctKeys(Remove(items, k))
  {
    if items != [] {
      assert DistinctKeys(items[1..]);
      RemoveLookup(items[1..], k, j);
      LookupNone(items[1..], k);
      if items[0].0 == k && j == k {
        assert forall i :: 0 <= i < |items[1..]| ==> items[1..][i].0 != k by {
          forall i | 0 <= i < |items[1..]|
            ensures items[1..][i].0 != k
          {
            assert items[1..][i] == items[i + 1];
          }
        }
      }
      if items[0].0 != k {
        var r := Remove(items, k);
        forall a, b | 0 <= a < b < |r|
          ensures r[a].0 != r[b].0
        {
          if a == 0 {
            RemoveLookup(items[1..], k, r[b].0);
            LookupNone(Remove(items[1..], k), r[b].0);
            LookupNone(items[1..], r[b].0);
            assert Lookup(items[1..], r[b].0).Some?;
          }
        }
      }
    }
  }

  /** `{k: v for k, v in pairs}`: the dictionary built by assigning each
      pair in turn. */
  function FromPairs<K(==), V>(pairs: seq<(K, V)>): (r: seq<(K, V)>)
    ensures DistinctKeys(r)
    decreases |pairs|
  {
    if pairs == [] then []
    else
      var last := pairs[|pairs| - 1];
      AssignShape(FromPairs(pairs[..|pairs| - 1]), last.0, last.1);
      Assign(FromPairs(pairs[..|pairs| - 1]), last.0, last.1)
  }

  /** Building a dictionary from pairs whose keys are already distinct
      keeps the pairs as they are. */
  lemma {:induction false} FromDistinctPairs<K, V>(pairs: seq<(K, V)>)
    requires DistinctKeys(pairs)
    ensures FromPairs(pairs) == pairs
    decreases |pairs|
  {
    if pairs != [] {
      var init := pairs[..|pairs| - 1];
      FromDistinctPairs(init);
      var last := pairs[|pairs| - 1];
      assert Lookup(init, last.0).None? by {
        LookupNone(init, last.0);
        forall i | 0 <= i < |init|
          ensures init[i].0 != last.0
        {
          assert init[i] == pairs[i];
        }
      }
      AssignShape(init, last.0, last.1);
      assert init + [last] == pairs;
    }
  }

  /** With pairs as keys and values, the value ending up under `k` is the
      one of the last pair for `k`. */
  lemma {:induction false} FromPairsLastWins<K, V>(pairs: seq<(K, V)>, i: nat)
    requires i < |pairs|
    requires forall j :: i < j < |pairs| ==> pairs[j].0 != pairs[i].0
    ensures Lookup(FromPairs(pairs), pairs[i].0) == Some(pairs[i].1)
    decreases |pairs|
  {
    var init := pairs[..|pairs| - 1];
    var last := pairs[|pairs| - 1];
    AssignLookup(FromPairs(init), last.0, last.1, pairs[i].0);
    if i < |pairs| - 1 {
      FromPairsLastWins(init, i);
    }
  }

  /** Every key of the built dictionary comes from some pair. */
  lemma {:induction false} FromPairsKeys<K, V>(pairs: seq<(K, V)>, k: K)
    ensures Lookup(FromPairs(pairs), k).Some? <==> k in Keys(pairs)
    decreases |pairs|
  {
    if pairs != [] {
      var init := pairs[..|pairs| - 1];
      var last := pairs[|pairs| - 1];
      FromPairsKeys(init, k);
      AssignLookup(FromPairs(init), last.0, last.1, k);
      assert pairs == init + [last];
    }
  }

  /** The keys of a list of pairs, in order. */
  function Keys<K, V>(pairs: seq<(K, V)>): (ks: seq<K>)
    ensures |ks| == |pairs| && forall i :: 0 <= i < |pairs| ==> ks[i] == pairs[i].0
  {
    if pairs == [] then [] else Keys(pairs[..|pairs| - 1]) + [pairs[|pairs| - 1].0]
  }

  function Swapped<K, V>(items: seq<(K, V)>): (r: seq<(V, K)>)
    ensures |r| == |items| && forall i :: 0 <= i < |items| ==> r[i] == (items[i].1, items[i].0)
  {
    seq(|items|, i requires 0 <= i < |items| => (items[i].1, items[i].0))
  }

  /** `invert_dict(d)`: `{value: key for key, value in d.items()}`. */
  function InvertDict<K(==), V(==)>(items: seq<(K, V)>): (r: seq<(V, K)>)
    ensures DistinctKeys(r)
  {
    FromPairs(Swapped(items))
  }

  /** The keys of the inverse are exactly the values of the dictionary. */
  lemma InvertKeys<K, V>(items: seq<(K, V)>, v: V)
    ensures Lookup(InvertDict(items), v).Some? <==> exists i :: 0 <= i < |items| && items[i].1 == v
  {
    var sw := Swapped(items);
    FromPairsKeys(sw, v);
    if v in Keys(sw) {
      var i :| 0 <= i < |sw| && Keys(sw)[i] == v;
      assert items[i].1 == v;
    }
    if exists i :: 0 <= i < |items| && items[i].1 == v {
      var i :| 0 <= i < |items| && items[i].1 == v;
      assert Keys(sw)[i] == v;
    }
  }

  /** When a value repeats, the inverse maps it to the key of its last
      occurrence: the non-determinism the docstring warns about is
      iteration order. */
  lemma InvertLastWins<K, V>(items: seq<(K, V)>, i: nat)
    requires i < |items|
    requires forall j :: i < j < |items| ==> items[j].1 != items[i].1
    ensures Lookup(InvertDict(items), items[i].1) == Some(items[i].0)
  {
    FromPairsLastWins(Swapped(items), i);
  }

  predicate DistinctValues<K, V(==)>(items: seq<(K, V)>)
  {
    forall i, j :: 0 <= i < j < |items| ==> items[i].1 != items[j].1
  }

  /** For a one-to-one dictionary, inverting twice gives the dictionary
      back, items and order alike. */
  lemma InvertInvolution<K, V>(items: seq<(K, V)>)
    requires DistinctKeys(items) && DistinctValues(items)
    ensures InvertDict(InvertDict(items)) == items
  {
    var sw := Swapped(items);
    FromDistinctPairs(sw);
    var back := Swapped(sw);
    assert back == items;
    FromDistinctPairs(items);
  }

  /** `make_valid_did(lfn_dict)`: without a `filename` key the dictionary
      itself; otherwise a copy where `name` defaults to the file name and
      `filename` is dropped. */
  function MakeValidDid<V>(lfn: seq<(string, V)>): (r: seq<(string, V)>)
    ensures Lookup(lfn, "filename").None? ==> r == lfn
  {
    match Lookup(lfn, "filename")
    case None => lfn
    case Some(file) =>
      var name := match Lookup(lfn, "name") case Some(n) => n case None => file;
      Remove(Assign(lfn, "name", name), "filename")
  }

  /** The result has no `filename`; its `name` is the old name if there was
      one and the file name otherwise; every other key reads as before. */
  lemma MakeValidDidLookup<V>(lfn: seq<(string, V)>, k: string)
    requires DistinctKeys(lfn) && Lookup(lfn, "filename").Some?
    ensures DistinctKeys(MakeValidDid(lfn))
    ensures Lookup(MakeValidDid(lfn), k) ==
      if k == "filename" then None
      else if k == "name" && Lookup(lfn, "name").None? then Lookup(lfn, "filename")
      else Lookup(lfn, k)
  {
    var file := Lookup(lfn, "filename").value;
    var name := match Lookup(lfn, "name") case Some(n) => n case None => file;
    var named := Assign(lfn, "name", name);
    AssignShape(lfn, "name", name);
    AssignLookup(lfn, "name", name, k);
    RemoveLookup(named, "filename", k);
  }

  /** Making a DID valid twice changes nothing more. */
  lemma MakeValidDidIdempotent<V>(lfn: seq<(string, V)>)
    requires DistinctKeys(lfn)
    ensures MakeValidDid(MakeValidDid(lfn)) == MakeValidDid(lfn)
  {
    if Lookup(lfn, "filename").Some? {
      MakeValidDidLookup(lfn, "filename");
    }
  }
}
