/** `group_by` of the pyright tooling: the elements of a sequence grouped
    into a dictionary of lists under their keys.  The dictionary is a list
    of items in insertion order, as in `Dicts`. */
module PyrightUtils {
  import opened Wrappers
  import opened Dicts
  import opened Sequences

  /** The key of every element. */
  function KeyList<T, K>(xs: seq<T>, key: T -> K): (ks: seq<K>)
    ensures |ks| == |xs| && forall i :: 0 <= i < |xs| ==> ks[i] == key(xs[i])
  {
    if xs == [] then [] else KeyList(xs[..|xs| - 1], key) + [key(xs[|xs| - 1])]
  }

  /** The distinct elements in order of first appearance. */
  function Dedup<K(==)>(ks: seq<K>): (r: seq<K>)
  {
    if ks == [] then []
    else
      var init := Dedup(ks[..|ks| - 1]);
      if ks[|ks| - 1] in ks[..|ks| - 1] then init else init + [ks[|ks| - 1]]
  }

  predicate Distinct<K(==)>(ks: seq<K>)
  {
    forall i, j :: 0 <= i < j < |ks| ==> ks[i] != ks[j]
  }

  /** `Dedup` keeps each element once, and no other. */
  lemma {:induction false} DedupElements<K>(ks: seq<K>)
    ensures Distinct(Dedup(ks))
    ensures forall k :: k in Dedup(ks) <==> k in ks
  {
    if ks != [] {
      var init := ks[..|ks| - 1];
      DedupElements(init);
      assert ks == init + [ks[|ks| - 1]];
    }
  }

  /** The elements whose key is `k`, in their original order. */
  function Select<T, K(==)>(xs: seq<T>, key: T -> K, k: K): (g: seq<T>)
    ensures |g| <= |xs|
  {
    if xs == [] then []
    else
      var e := xs[|xs| - 1];
      Select(xs[..|xs| - 1], key, k) + (if key(e) == k then [e] else [])
  }

  /** Selection distributes over concatenation: the relative order of the
      elements of a group is their order in the input. */
  lemma {:induction false} SelectAppend<T, K>(xs: seq<T>, ys: seq<T>, key: T -> K, k: K)
    ensures Select(xs + ys, key, k) == Select(xs, key, k) + Select(ys, key, k)
    decreases |ys|
  {
    if ys == [] {
      ConcatEmpty(xs);
      ConcatEmpty(Select(xs, key, k));
    } else {
      var ys' := ys[..|ys| - 1];
      SelectAppend(xs, ys', key, k);
      DropLastOfConcat(xs, ys);
    }
  }

  /** Every element of a group has the group's key, and every element with
      that key is in the group. */
  lemma {:induction false} SelectMembers<T, K>(xs: seq<T>, key: T -> K, k: K)
    ensures forall e :: e in Select(xs, key, k) ==> e in xs && key(e) == k
    ensures forall i :: 0 <= i < |xs| && key(xs[i]) == k ==> xs[i] in Select(xs, key, k)
  {
    if xs != [] {
      var init := xs[..|xs| - 1];
      SelectMembers(init, key, k);
      assert forall i :: 0 <= i < |init| ==> xs[i] == init[i];
    }
  }

  /** `result.get(k, [])`. */
  function GroupOf<K(==), T>(groups: seq<(K, seq<T>)>, k: K): seq<T>
  {
    match Lookup(groups, k)
    case None => []
    case Some(g) => g
  }

  /** The dictionary `group_by` builds: each element in turn appended to
      the list under its key. */
  function Grouped<T, K(==)>(xs: seq<T>, key: T -> K): seq<(K, seq<T>)>
  {
    if xs == [] then []
    else
      var groups := Grouped(xs[..|xs| - 1], key);
      var e := xs[|xs| - 1];
      Assign(groups, key(e), GroupOf(groups, key(e)) + [e])
  }

  /** `group_by(iterable, key)`. */
  method GroupBy<T, K(==)>(xs: seq<T>, key: T -> K) returns (result: seq<(K, seq<T>)>)
    ensures result == Grouped(xs, key)
  {
    result := [];
    for i := 0 to |xs|
      invariant result == Grouped(xs[..i], key)
    {
      var k := key(xs[i]);
      var g := GroupOf(result, k);
      result := Assign(result, k, g + [xs[i]]);
      assert xs[..i + 1][..i] == xs[..i];
    }
    assert xs[..|xs|] == xs;
  }

  /** Each key's list holds exactly the elements with that key, in input
      order; a key no element has is absent. */
  lemma {:induction false} GroupedLookup<T, K>(xs: seq<T>, key: T -> K, k: K)
    ensures Lookup(Grouped(xs, key), k) == if k in KeyList(xs, key) then Some(Select(xs, key, k)) else None
  {
    if xs != [] {
      var init := xs[..|xs| - 1];
      var e := xs[|xs| - 1];
      var groups := Grouped(init, key);
      var g := GroupOf(groups, key(e)) + [e];
      assert Grouped(xs, key) == Assign(groups, key(e), g);
      AssignLookup(groups, key(e), g, k);
      assert KeyList(xs, key) == KeyList(init, key) + [key(e)];
      GroupedLookup(init, key, k);
      if k == key(e) {
        assert Select(xs, key, k) == Select(init, key, k) + [e];
        assert k in KeyList(xs, key);
        if k !in KeyList(init, key) {
          SelectAbsent(init, key, k);
          assert GroupOf(groups, k) == [];
        } else {
          assert GroupOf(groups, k) == Select(init, key, k);
        }
      } else {
        assert Select(xs, key, k) == Select(init, key, k);
        assert k in KeyList(xs, key) <==> k in KeyList(init, key);
      }
    }
  }

  lemma SelectAbsent<T, K>(xs: seq<T>, key: T -> K, k: K)
    requires k !in KeyList(xs, key)
    ensures Select(xs, key, k) == []
  {
    SelectMembers(xs, key, k);
  }

  /** The keys are the distinct keys of the elements, in order of first
      appearance. */
  lemma {:induction false} GroupedKeys<T, K>(xs: seq<T>, key: T -> K)
    ensures DistinctKeys(Grouped(xs, key))
    ensures Keys(Grouped(xs, key)) == Dedup(KeyList(xs, key))
  {
    if xs != [] {
      var init := xs[..|xs| - 1];
      var e := xs[|xs| - 1];
      var groups := Grouped(init, key);
      var g := GroupOf(groups, key(e)) + [e];
      GroupedKeys(init, key);
      GroupedLookup(init, key, key(e));
      AssignShape(groups, key(e), g);
      AssignedKeys(groups, key(e), g);
      var ks := KeyList(xs, key);
      assert ks[..|ks| - 1] == KeyList(init, key);
    }
  }

  /** The keys after `d[k] = v`. */
  lemma AssignedKeys<K, V>(items: seq<(K, V)>, k: K, v: V)
    ensures Keys(Assign(items, k, v)) == if Lookup(items, k).Some? then Keys(items) else Keys(items) + [k]
  {
    AssignShape(items, k, v);
    if Lookup(items, k).Some? {
      AssignKeys(items, k, v);
      SameKeys(items, Assign(items, k, v));
    } else {
      KeysSnoc(items, (k, v));
    }
  }

  lemma SameKeys<K, V>(items: seq<(K, V)>, r: seq<(K, V)>)
    requires |r| == |items| && forall i :: 0 <= i < |items| ==> r[i].0 == items[i].0
    ensures Keys(r) == Keys(items)
  {
  }

  lemma KeysSnoc<K, V>(items: seq<(K, V)>, kv: (K, V))
    ensures Keys(items + [kv]) == Keys(items) + [kv.0]
  {
  }

  /** No list is empty, and every element sits in the list of its own key. */
  lemma GroupsCoverInput<T, K>(xs: seq<T>, key: T -> K)
    ensures forall i :: 0 <= i < |Grouped(xs, key)| ==> |Grouped(xs, key)[i].1| > 0
    ensures forall i :: 0 <= i < |xs| ==> xs[i] in GroupOf(Grouped(xs, key), key(xs[i]))
  {
    var groups := Grouped(xs, key);
    GroupedKeys(xs, key);
    DedupElements(KeyList(xs, key));
    forall i | 0 <= i < |groups|
      ensures |groups[i].1| > 0
    {
      GroupNonEmpty(xs, key, i);
    }
    forall i | 0 <= i < |xs|
      ensures xs[i] in GroupOf(groups, key(xs[i]))
    {
      GroupedLookup(xs, key, key(xs[i]));
      SelectMembers(xs, key, key(xs[i]));
    }
  }

  lemma GroupNonEmpty<T, K>(xs: seq<T>, key: T -> K, i: nat)
    requires DistinctKeys(Grouped(xs, key)) && i < |Grouped(xs, key)|
    requires forall k :: k in Keys(Grouped(xs, key)) <==> k in KeyList(xs, key)
    ensures |Grouped(xs, key)[i].1| > 0
  {
    var groups := Grouped(xs, key);
    var k := groups[i].0;
    LookupAt(groups, i);
    assert Keys(groups)[i] == k;
    assert k in Keys(groups);
    var j :| 0 <= j < |xs| && KeyList(xs, key)[j] == k;
    GroupedLookup(xs, key, k);
    SelectMembers(xs, key, k);
  }

  /** In a dictionary with distinct keys, looking up the key of an item
      finds that item's value. */
  lemma {:induction false} LookupAt<K, V>(items: seq<(K, V)>, i: nat)
    requires DistinctKeys(items) && i < |items|
    ensures Lookup(items, items[i].0) == Some(items[i].1)
  {
    if i > 0 {
      assert DistinctKeys(items[1..]);
      LookupAt(items[1..], i - 1);
    }
  }

  /** The lists together hold as many elements as the input. */
  function TotalSize<K, T>(groups: seq<(K, seq<T>)>): nat
  {
    if groups == [] then 0 else |groups[0].1| + TotalSize(groups[1..])
  }

  lemma {:induction false} GroupedSize<T, K>(xs: seq<T>, key: T -> K)
    ensures TotalSize(Grouped(xs, key)) == |xs|
  {
    if xs != [] {
      var init := xs[..|xs| - 1];
      var e := xs[|xs| - 1];
      var groups := Grouped(init, key);
      GroupedSize(init, key);
      var g := GroupOf(groups, key(e)) + [e];
      AssignSize(groups, key(e), g);
    }
  }

  /** Appending to one list (or adding a one-element list) adds one to the
      total size. */
  lemma {:induction false} AssignSize<K, T>(items: seq<(K, seq<T>)>, k: K, g: seq<T>)
    requires |g| == |GroupOf(items, k)| + 1
    ensures TotalSize(Assign(items, k, g)) == TotalSize(items) + 1
  {
    if items == [] {
      assert TotalSize([(k, g)]) == |g| + TotalSize([(k, g)][1..]);
    } else if items[0].0 == k {
      var r := [(k, g)] + items[1..];
      assert r[1..] == items[1..];
    } else {
      assert GroupOf(items, k) == GroupOf(items[1..], k);
      AssignSize(items[1..], k, g);
      var r := [items[0]] + Assign(items[1..], k, g);
      assert r[1..] == Assign(items[1..], k, g);
    }
  }
}
