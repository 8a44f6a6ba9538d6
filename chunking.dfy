/** `rucio.common.utils.chunks` (the list branch) and `dict_chunks`: split
    a list, or a dictionary in insertion order, into successive groups of
    `n` elements. */
module Chunking {
  import opened Wrappers
  import opened Dicts
  import opened Sequences

  datatype ChunkError =
    | ZeroStep      // `range(0, len, n)` raises `ValueError` for a zero step
    | NegativeStop  // `itertools.islice(it, n)` raises `ValueError` for a negative stop

  /** The chunks of `xs` for a positive `n`: slices of length `n`, the last
      one possibly shorter. */
  function ChunksOf<T>(xs: seq<T>, n: nat): seq<seq<T>>
    requires n >= 1
    decreases |xs|
  {
    if xs == [] then []
    else if |xs| <= n then [xs]
    else [xs[..n]] + ChunksOf(xs[n..], n)
  }

  function Flatten<T>(xss: seq<seq<T>>): seq<T>
  {
    if xss == [] then [] else xss[0] + Flatten(xss[1..])
  }

  /** The part of `xs` from index `i` on (`xs[i:]`, empty past the end). */
  function Drop<T>(xs: seq<T>, i: nat): (r: seq<T>)
    ensures |r| == if i < |xs| then |xs| - i else 0
  {
    if i < |xs| then xs[i..] else []
  }

  /** Concatenating the chunks gives back the list. */
  lemma {:induction false} ChunksFlatten<T>(xs: seq<T>, n: nat)
    requires n >= 1
    ensures Flatten(ChunksOf(xs, n)) == xs
    decreases |xs|
  {
    if xs != [] && |xs| > n {
      ChunksFlatten(xs[n..], n);
      assert ([xs[..n]] + ChunksOf(xs[n..], n))[1..] == ChunksOf(xs[n..], n);
      assert xs == xs[..n] + xs[n..];
    } else if xs != [] {
      assert [xs][1..] == [];
    }
  }

  /** There are ceil(|xs| / n) chunks: just enough to hold `|xs|`
      elements, and one fewer would not. */
  lemma {:induction false} ChunkCount<T>(xs: seq<T>, n: nat)
    requires n >= 1
    ensures |xs| <= |ChunksOf(xs, n)| * n
    ensures |ChunksOf(xs, n)| == 0 || (|ChunksOf(xs, n)| - 1) * n < |xs|
    decreases |xs|
  {
    if xs != [] && |xs| > n {
      ChunkCount(xs[n..], n);
      var c := |ChunksOf(xs[n..], n)|;
      assert |ChunksOf(xs, n)| == c + 1;
      assert (c + 1) * n == c * n + n;
    }
  }

  /** Every chunk but the last has exactly `n` elements; the last one has
      between 1 and `n`. */
  lemma {:induction false} ChunkSizes<T>(xs: seq<T>, n: nat)
    requires n >= 1
    ensures forall k :: 0 <= k < |ChunksOf(xs, n)| - 1 ==> |ChunksOf(xs, n)[k]| == n
    ensures |ChunksOf(xs, n)| > 0 ==> 1 <= |ChunksOf(xs, n)[|ChunksOf(xs, n)| - 1]| <= n
    decreases |xs|
  {
    if xs != [] && |xs| > n {
      ChunkSizes(xs[n..], n);
      var rest := ChunksOf(xs[n..], n);
      var all := ChunksOf(xs, n);
      assert all == [xs[..n]] + rest;
      assert rest != [];
      forall k | 0 <= k < |all| - 1
        ensures |all[k]| == n
      {
        if k > 0 {
          assert all[k] == rest[k - 1];
        }
      }
    }
  }

  lemma ChunksStep<T>(xs: seq<T>, n: nat, i: nat)
    requires n >= 1 && i < |xs|
    ensures ChunksOf(Drop(xs, i), n)
         == [xs[i..if i + n <= |xs| then i + n else |xs|]] + ChunksOf(Drop(xs, i + n), n)
  {
    var rest := xs[i..];
    if i + n < |xs| {
      assert |rest| > n;
      assert rest[n..] == xs[i + n..];
      assert rest[..n] == xs[i..i + n];
      assert ChunksOf(rest, n) == [rest[..n]] + ChunksOf(rest[n..], n);
    } else {
      assert |rest| <= n && rest != [];
      assert ChunksOf(rest, n) == [rest];
      assert xs[i..|xs|] == rest;
    }
  }

  /** One chunk taken: the chunks produced so far and the chunks of the
      rest still make up all the chunks. */
  lemma ChunkLoopStep<T>(xs: seq<T>, n: nat, i: nat, out: seq<seq<T>>)
    requires n >= 1 && i < |xs|
    requires out + ChunksOf(Drop(xs, i), n) == ChunksOf(xs, n)
    ensures (out + [xs[i..if i + n <= |xs| then i + n else |xs|]]) + ChunksOf(Drop(xs, i + n), n)
         == ChunksOf(xs, n)
    ensures Drop(xs, i + n) == Drop(xs, if i + n <= |xs| then i + n else |xs|)
  {
    ChunksStep(xs, n, i);
    ConcatAssoc(out, [xs[i..if i + n <= |xs| then i + n else |xs|]], ChunksOf(Drop(xs, i + n), n));
  }

  /** Past the end, the chunks produced are all the chunks. */
  lemma ChunkLoopEnd<T>(xs: seq<T>, n: nat, i: nat, out: seq<seq<T>>)
    requires n >= 1 && i >= |xs|
    requires out + ChunksOf(Drop(xs, i), n) == ChunksOf(xs, n)
    ensures out == ChunksOf(xs, n)
  {
    assert Drop(xs, i) == [];
    ConcatEmpty(out);
  }

  /** `list(chunks(xs, n))`: the generator loop of the list branch. */
  method Chunks<T>(xs: seq<T>, n: int) returns (r: Result<seq<seq<T>>, ChunkError>)
    ensures n == 0 ==> r == Err(ZeroStep)
    ensures n < 0 ==> r == Ok([])
    ensures n > 0 ==> r == Ok(ChunksOf(xs, n))
  {
    if n == 0 {
      return Err(ZeroStep);
    } else if n < 0 {
      // `range(0, len, n)` with a negative step is empty.
      return Ok([]);
    }
    var out: seq<seq<T>> := [];
    var i: nat := 0;
    while i < |xs|
      invariant out + ChunksOf(Drop(xs, i), n) == ChunksOf(xs, n)
      decreases |xs| - i
    {
      var end := if i + n <= |xs| then i + n else |xs|;
      ChunkLoopStep(xs, n, i, out);
      out := out + [xs[i..end]];
      i := i + n;
    }
    ChunkLoopEnd(xs, n, i, out);
    return Ok(out);
  }

  /** `list(chunks(it, n))` for an iterable that is not a list: slices of
      up to `n` elements taken from one iterator until one comes back
      empty.  Unlike the list branch, a zero `n` yields nothing and a
      negative `n` is an error. */
  method ChunksIterable<T>(xs: seq<T>, n: int) returns (r: Result<seq<seq<T>>, ChunkError>)
    ensures n < 0 ==> r == Err(NegativeStop)
    ensures n == 0 ==> r == Ok([])
    ensures n > 0 ==> r == Ok(ChunksOf(xs, n))
  {
    if n < 0 {
      return Err(NegativeStop);
    }
    if n == 0 {
      // `islice(it, 0)` is empty at once.
      return Ok([]);
    }
    var out: seq<seq<T>> := [];
    var i: nat := 0;
    while true
      invariant i <= |xs|
      invariant out + ChunksOf(Drop(xs, i), n) == ChunksOf(xs, n)
      decreases |xs| - i
    {
      var end := if i + n <= |xs| then i + n else |xs|;
      var chunk := xs[i..end];
      if chunk == [] {
        ChunkLoopEnd(xs, n, i, out);
        return Ok(out);
      }
      ChunkLoopStep(xs, n, i, out);
      out := out + [chunk];
      i := end;
    }
  }

  /** The union of the dictionaries held by item lists, later ones winning. */
  function Union<K(==), V>(dicts: seq<seq<(K, V)>>): map<K, V>
  {
    if dicts == [] then map[] else ToMap(dicts[0]) + Union(dicts[1..])
  }

  /** `list(dict_chunks(d, n))`: successive dictionaries of `n` items, each
      an item list holding its keys in the iteration order of `d`. */
  method DictChunks<K(==), V>(items: seq<(K, V)>, n: int) returns (r: Result<seq<seq<(K, V)>>, ChunkError>)
    ensures n == 0 ==> r == Err(ZeroStep)
    ensures n < 0 ==> r == Ok([])
    ensures n > 0 ==> r == Ok(ChunksOf(items, n))
    ensures n > 0 && DistinctKeys(items) ==> forall k :: 0 <= k < |r.value| ==> DistinctKeys(r.value[k])
  {
    var groups := Chunks(items, n);
    if groups.Err? {
      return Err(groups.error);
    }
    if n > 0 && DistinctKeys(items) {
      forall k | 0 <= k < |groups.value|
        ensures DistinctKeys(groups.value[k])
      {
        ChunkIsSlice(items, n, k);
        SliceDistinct(items, k * n, if (k + 1) * n <= |items| then (k + 1) * n else |items|);
      }
    }
    return groups;
  }

  /** The chunk dictionaries together hold exactly the dictionary. */
  lemma {:induction false} DictChunksCover<K, V>(items: seq<(K, V)>, n: nat)
    requires n >= 1
    ensures Union(ChunksOf(items, n)) == ToMap(items)
    decreases |items|
  {
    var cs := ChunksOf(items, n);
    if items != [] && |items| > n {
      DictChunksCover(items[n..], n);
      assert cs[1..] == ChunksOf(items[n..], n);
      ToMapAppend(items[..n], items[n..]);
      assert items == items[..n] + items[n..];
    } else if items != [] {
      assert cs[1..] == [];
      assert ToMap(cs[0]) + map[] == ToMap(cs[0]);
    }
  }

  /** With distinct keys, every chunk but the last holds exactly `n` keys. */
  lemma DictChunkSizes<K, V>(items: seq<(K, V)>, n: nat, k: nat)
    requires n >= 1 && DistinctKeys(items)
    requires k + 1 < |ChunksOf(items, n)|
    ensures |ToMap(ChunksOf(items, n)[k]).Keys| == n
  {
    ChunkSizes(items, n);
    ChunkIsSlice(items, n, k);
    SliceDistinct(items, k * n, (k + 1) * n);
    ToMapSize(ChunksOf(items, n)[k]);
  }

  /** Every chunk is a contiguous slice of the list, starting at `k * n`. */
  lemma {:induction false} ChunkIsSlice<T>(xs: seq<T>, n: nat, k: nat)
    requires n >= 1 && k < |ChunksOf(xs, n)|
    ensures k * n < |xs|
    ensures ChunksOf(xs, n)[k] == xs[k * n .. if (k + 1) * n <= |xs| then (k + 1) * n else |xs|]
    decreases |xs|
  {
    var all := ChunksOf(xs, n);
    if |xs| <= n {
      assert all == [xs];
      assert k == 0;
    } else if k == 0 {
      assert all == [xs[..n]] + ChunksOf(xs[n..], n);
    } else {
      var rest := xs[n..];
      assert all == [xs[..n]] + ChunksOf(rest, n);
      assert all[k] == ChunksOf(rest, n)[k - 1];
      ChunkIsSlice(rest, n, k - 1);
      var lo := (k - 1) * n;
      assert lo + n == k * n;
      assert k * n + n == (k + 1) * n;
      var hi := if k * n <= |rest| then k * n else |rest|;
      assert ChunksOf(rest, n)[k - 1] == rest[lo..hi];
      assert rest[lo..hi] == xs[lo + n..hi + n];
    }
  }

  /** Distinctness survives taking a slice, so every chunk of a dictionary
      has distinct keys. */
  lemma SliceDistinct<K, V>(items: seq<(K, V)>, lo: nat, hi: nat)
    requires lo <= hi <= |items| && DistinctKeys(items)
    ensures DistinctKeys(items[lo..hi])
  {
    forall i, j | 0 <= i < j < hi - lo
      ensures items[lo..hi][i].0 != items[lo..hi][j].0
    {
      assert items[lo..hi][i] == items[lo + i] && items[lo..hi][j] == items[lo + j];
    }
  }
}
