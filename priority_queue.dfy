/** The heap-based priority queue of `rucio.common.utils.PriorityQueue`.

    The queue keeps a binary min-heap of keys in a list (`heap`) and a
    dictionary (`container`) from each key to its slot: the key's index in
    `heap` and its priority.  Python's list and dictionary become a `seq`
    and a `map` field that the methods reassign; a `ContainerSlot` object
    becomes the value `Slot`, because no slot is ever shared outside the
    queue. */
module PriorityQueues {
  import opened Wrappers

  /** `ContainerSlot`: the position of a key in `heap` and its priority. */
  datatype Slot = Slot(pos: int, prio: int)

  /** The priority of every key held in a container. */
  ghost function Priorities<K>(c: map<K, Slot>): (p: map<K, int>)
    ensures p.Keys == c.Keys
  {
    map k | k in c :: c[k].prio
  }

  /** Every entry of the heap has a priority. */
  ghost predicate Stored<K>(h: seq<K>, p: map<K, int>)
  {
    forall i :: 0 <= i < |h| ==> h[i] in p
  }

  /** The entry at `i` has no lower priority than its parent. */
  ghost predicate ParentNoGreater<K>(h: seq<K>, p: map<K, int>, i: int)
    requires Stored(h, p) && 0 < i < |h|
  {
    p[h[(i - 1) / 2]] <= p[h[i]]
  }

  /** Min-heap order: no entry has a lower priority than its parent. */
  ghost predicate HeapOrder<K>(h: seq<K>, p: map<K, int>)
    requires Stored(h, p)
  {
    forall i :: 0 < i < |h| ==> ParentNoGreater(h, p, i)
  }

  /** Heap order while an entry at `pos` rises: only the edge from `pos` to
      its parent may be out of order, and the parent of `pos` is no greater
      than the children of `pos`. */
  ghost predicate OrderedExceptAt<K>(h: seq<K>, p: map<K, int>, pos: nat)
    requires Stored(h, p)
  {
    && (forall i :: 0 < i < |h| && i != pos ==> ParentNoGreater(h, p, i))
    && (0 < pos < |h| ==>
          forall i :: 0 < i < |h| && (i - 1) / 2 == pos ==> p[h[(pos - 1) / 2]] <= p[h[i]])
  }

  /** Heap order while an entry at `pos` sinks: only the edges from `pos` to
      its children may be out of order, and the parent of `pos` is no
      greater than the children of `pos`. */
  ghost predicate OrderedBelow<K>(h: seq<K>, p: map<K, int>, pos: nat)
    requires Stored(h, p)
  {
    && (forall i :: 0 < i < |h| && (i - 1) / 2 != pos ==> ParentNoGreater(h, p, i))
    && (0 < pos < |h| ==>
          forall i :: 0 < i < |h| && (i - 1) / 2 == pos ==> p[h[(pos - 1) / 2]] <= p[h[i]])
  }

  /** `container[k].pos` is the index of `k` in `heap`, and both hold the same keys. */
  ghost predicate Indexed<K>(h: seq<K>, c: map<K, Slot>)
  {
    && (forall i :: 0 <= i < |h| ==> h[i] in c && c[h[i]].pos == i)
    && (forall k :: k in c ==> 0 <= c[k].pos < |h| && h[c[k].pos] == k)
  }

  /** As `Indexed`, except that `x` sits at `at` in the heap while its slot
      still records an older position: the state inside the sift-down loop,
      which updates the sinking key's slot only once it has stopped. */
  ghost predicate IndexedAway<K>(h: seq<K>, c: map<K, Slot>, x: K, at: int)
  {
    && 0 <= at < |h| && h[at] == x && x in c
    && (forall i :: 0 <= i < |h| && i != at ==> h[i] in c && h[i] != x && c[h[i]].pos == i)
    && (forall k :: k in c && k != x ==> 0 <= c[k].pos < |h| && h[c[k].pos] == k)
  }

  function Swap<K>(h: seq<K>, i: nat, j: nat): (r: seq<K>)
    requires i < |h| && j < |h|
    ensures |r| == |h| && r[i] == h[j] && r[j] == h[i]
    ensures forall k :: 0 <= k < |h| && k != i && k != j ==> r[k] == h[k]
  {
    h[i := h[j]][j := h[i]]
  }

  /** The first entry of an ordered heap has the least priority. */
  lemma {:induction false} RootIsMin<K>(h: seq<K>, p: map<K, int>, i: nat)
    requires Stored(h, p) && HeapOrder(h, p) && i < |h|
    ensures p[h[0]] <= p[h[i]]
  {
    if i > 0 {
      assert ParentNoGreater(h, p, i);
      RootIsMin(h, p, (i - 1) / 2);
    }
  }

  /** An indexed heap holds each key once. */
  lemma IndexedUnique<K>(h: seq<K>, c: map<K, Slot>, i: nat, j: nat)
    requires Indexed(h, c) && i < |h| && j < |h| && h[i] == h[j]
    ensures i == j
  {
    assert c[h[i]].pos == i && c[h[j]].pos == j;
  }

  /** One step of `_priority_decreased`: swapping a too-small entry with its
      parent moves the only possible violation one level up. */
  lemma SiftUpStep<K>(h: seq<K>, p: map<K, int>, pos: nat)
    requires Stored(h, p) && 0 < pos < |h|
    requires OrderedExceptAt(h, p, pos)
    requires p[h[pos]] < p[h[(pos - 1) / 2]]
    ensures Stored(Swap(h, pos, (pos - 1) / 2), p)
    ensures OrderedExceptAt(Swap(h, pos, (pos - 1) / 2), p, (pos - 1) / 2)
  {
    var par := (pos - 1) / 2;
    var h' := Swap(h, pos, par);
    forall i | 0 < i < |h'| && i != par
      ensures ParentNoGreater(h', p, i)
    {
      var q := (i - 1) / 2;
      if i == pos {
      } else if q == pos {
        assert p[h[par]] <= p[h[i]];
      } else if q == par {
        assert ParentNoGreater(h, p, i);
      } else {
        assert ParentNoGreater(h, p, i);
        assert h'[q] == h[q] && h'[i] == h[i];
      }
    }
    if par > 0 {
      var gp := (par - 1) / 2;
      assert ParentNoGreater(h, p, par);
      forall i | 0 < i < |h'| && (i - 1) / 2 == par
        ensures p[h'[gp]] <= p[h'[i]]
      {
        if i != pos {
          assert ParentNoGreater(h, p, i);
        }
      }
    }
  }

  /** One step of `_priority_increased`: swapping a too-large entry with its
      smaller child moves the only possible violation one level down. */
  lemma SiftDownStep<K>(h: seq<K>, p: map<K, int>, pos: nat, m: nat)
    requires Stored(h, p) && pos < |h| && m < |h|
    requires OrderedBelow(h, p, pos)
    requires m == 2 * pos + 1 || m == 2 * pos + 2
    requires p[h[m]] < p[h[pos]]
    requires 2 * pos + 1 < |h| ==> p[h[m]] <= p[h[2 * pos + 1]]
    requires 2 * pos + 2 < |h| ==> p[h[m]] <= p[h[2 * pos + 2]]
    ensures Stored(Swap(h, pos, m), p)
    ensures OrderedBelow(Swap(h, pos, m), p, m)
  {
    var h' := Swap(h, pos, m);
    forall i | 0 < i < |h'| && (i - 1) / 2 != m
      ensures ParentNoGreater(h', p, i)
    {
      var q := (i - 1) / 2;
      if i == m {
      } else if q == pos {
        assert h'[i] == h[i];
      } else if i == pos {
        assert p[h[(pos - 1) / 2]] <= p[h[m]];
      } else {
        assert ParentNoGreater(h, p, i);
        assert h'[q] == h[q] && h'[i] == h[i];
      }
    }
    forall i | 0 < i < |h'| && (i - 1) / 2 == m
      ensures p[h'[pos]] <= p[h'[i]]
    {
      assert h'[i] == h[i];
      assert ParentNoGreater(h, p, i);
    }
  }

  /** When sifting up stops, the heap is fully ordered. */
  lemma SiftUpDone<K>(h: seq<K>, p: map<K, int>, pos: nat)
    requires Stored(h, p) && pos < |h| && OrderedExceptAt(h, p, pos)
    requires pos == 0 || p[h[(pos - 1) / 2]] <= p[h[pos]]
    ensures HeapOrder(h, p)
  {
  }

  /** When sifting down stops, the heap is fully ordered. */
  lemma SiftDownDone<K>(h: seq<K>, p: map<K, int>, pos: nat)
    requires Stored(h, p) && pos < |h| && OrderedBelow(h, p, pos)
    requires 2 * pos + 1 < |h| ==> p[h[pos]] <= p[h[2 * pos + 1]]
    requires 2 * pos + 2 < |h| ==> p[h[pos]] <= p[h[2 * pos + 2]]
    ensures HeapOrder(h, p)
  {
    forall i | 0 < i < |h| ensures ParentNoGreater(h, p, i) {
      if (i - 1) / 2 == pos {
        assert i == 2 * pos + 1 || i == 2 * pos + 2;
      }
    }
  }

  /** Lowering the priority of the entry at `pos` leaves a heap that only
      needs sifting up from `pos`. */
  lemma DecreasedKey<K>(h: seq<K>, p: map<K, int>, pos: nat, value: int)
    requires Stored(h, p) && HeapOrder(h, p) && pos < |h| && value <= p[h[pos]]
    requires forall i :: 0 <= i < |h| && h[i] == h[pos] ==> i == pos
    ensures Stored(h, p[h[pos] := value])
    ensures OrderedExceptAt(h, p[h[pos] := value], pos)
  {
    var p' := p[h[pos] := value];
    forall i | 0 < i < |h| && i != pos
      ensures ParentNoGreater(h, p', i)
    {
      assert ParentNoGreater(h, p, i);
      assert h[i] != h[pos];
    }
    if pos > 0 {
      forall i | 0 < i < |h| && (i - 1) / 2 == pos
        ensures p'[h[(pos - 1) / 2]] <= p'[h[i]]
      {
        assert ParentNoGreater(h, p, i) && ParentNoGreater(h, p, pos);
        assert h[i] != h[pos] && h[(pos - 1) / 2] != h[pos];
      }
    }
  }

  /** Raising the priority of the entry at `pos` leaves a heap that only
      needs sifting down from `pos`. */
  lemma IncreasedKey<K>(h: seq<K>, p: map<K, int>, pos: nat, value: int)
    requires Stored(h, p) && HeapOrder(h, p) && pos < |h| && p[h[pos]] <= value
    requires forall i :: 0 <= i < |h| && h[i] == h[pos] ==> i == pos
    ensures Stored(h, p[h[pos] := value])
    ensures OrderedBelow(h, p[h[pos] := value], pos)
  {
    var p' := p[h[pos] := value];
    forall i | 0 < i < |h| && (i - 1) / 2 != pos
      ensures ParentNoGreater(h, p', i)
    {
      assert ParentNoGreater(h, p, i);
      assert h[(i - 1) / 2] != h[pos];
    }
    if pos > 0 {
      forall i | 0 < i < |h| && (i - 1) / 2 == pos
        ensures p'[h[(pos - 1) / 2]] <= p'[h[i]]
      {
        assert ParentNoGreater(h, p, i) && ParentNoGreater(h, p, pos);
        assert h[i] != h[pos] && h[(pos - 1) / 2] != h[pos];
      }
    }
  }

  /** Appending a new key leaves a heap that only needs sifting up from
      the end. */
  lemma AppendedKey<K>(h: seq<K>, p: map<K, int>, key: K, value: int)
    requires Stored(h, p) && HeapOrder(h, p) && key !in p
    ensures Stored(h + [key], p[key := value])
    ensures OrderedExceptAt(h + [key], p[key := value], |h|)
  {
    var h', p' := h + [key], p[key := value];
    forall i | 0 < i < |h'| && i != |h|
      ensures ParentNoGreater(h', p', i)
    {
      assert ParentNoGreater(h, p, i);
      assert h'[i] == h[i] && h'[(i - 1) / 2] == h[(i - 1) / 2];
    }
  }

  /** The swap of one sift-up step, applied to the positions as well. */
  lemma SwapIndexed<K>(h: seq<K>, c: map<K, Slot>, i: nat, j: nat, h': seq<K>, c': map<K, Slot>)
    requires Indexed(h, c) && i < |h| && j < |h| && i != j
    requires h' == Swap(h, i, j)
    requires c' == c[h[j] := Slot(i, c[h[j]].prio)][h[i] := Slot(j, c[h[i]].prio)]
    ensures Indexed(h', c') && c'.Keys == c.Keys && Priorities(c') == Priorities(c)
  {
    forall k | k in c' ensures 0 <= c'[k].pos < |h'| && h'[c'[k].pos] == k {
      assert k in c;
    }
  }

  /** The swap of one sift-down step: only the rising entry's slot moves. */
  lemma SinkIndexed<K>(h: seq<K>, c: map<K, Slot>, x: K, pos: nat, m: nat, h': seq<K>, c': map<K, Slot>)
    requires IndexedAway(h, c, x, pos) && m < |h| && m != pos
    requires h' == Swap(h, pos, m)
    requires c' == c[h[m] := Slot(pos, c[h[m]].prio)]
    ensures IndexedAway(h', c', x, m) && c'.Keys == c.Keys && Priorities(c') == Priorities(c)
  {
    forall k | k in c' && k != x ensures 0 <= c'[k].pos < |h'| && h'[c'[k].pos] == k {
      assert k in c;
    }
  }

  /** The state inside the sift-down loop: `x` sits at `pos`, away from
      the position its slot records, and only the edges below it may be out
      of order. */
  ghost predicate Sinking<K>(h: seq<K>, c: map<K, Slot>, p: map<K, int>, keys: set<K>, x: K, pos: nat)
  {
    && IndexedAway(h, c, x, pos) && c.Keys == keys
    && Priorities(c) == p && Stored(h, p) && OrderedBelow(h, p, pos)
  }

  /** The index among `pos` and its children whose key has the least
      priority, preferring `pos`, then the first child. */
  function SmallestOfFamily<K>(h: seq<K>, c: map<K, Slot>, pos: nat): (m: nat)
    requires pos < |h| && forall i :: 0 <= i < |h| ==> h[i] in c
    ensures m == pos || m == 2 * pos + 1 || m == 2 * pos + 2
    ensures m < |h|
    ensures m != pos ==> c[h[m]].prio < c[h[pos]].prio
    ensures c[h[m]].prio <= c[h[pos]].prio
    ensures 2 * pos + 1 < |h| ==> c[h[m]].prio <= c[h[2 * pos + 1]].prio
    ensures 2 * pos + 2 < |h| ==> c[h[m]].prio <= c[h[2 * pos + 2]].prio
  {
    var child1, child2 := 2 * pos + 1, 2 * pos + 2;
    var m1 := if child1 < |h| && c[h[child1]].prio < c[h[pos]].prio then child1 else pos;
    if child2 < |h| && c[h[child2]].prio < c[h[m1]].prio then child2 else m1
  }

  /** One step of the sift-down loop: the heap and the rising entry's slot
      are updated, the sinking key is one level further down. */
  lemma SinkStep<K>(h: seq<K>, c: map<K, Slot>, p: map<K, int>, keys: set<K>, x: K, pos: nat, m: nat)
    requires Sinking(h, c, p, keys, x, pos) && m < |h|
    requires m == 2 * pos + 1 || m == 2 * pos + 2
    requires p[h[m]] < p[h[pos]]
    requires 2 * pos + 1 < |h| ==> p[h[m]] <= p[h[2 * pos + 1]]
    requires 2 * pos + 2 < |h| ==> p[h[m]] <= p[h[2 * pos + 2]]
    ensures Sinking(Swap(h, pos, m), c[h[m] := Slot(pos, c[h[m]].prio)], p, keys, x, m)
  {
    SiftDownStep(h, p, pos, m);
    SinkIndexed(h, c, x, pos, m, Swap(h, pos, m), c[h[m] := Slot(pos, c[h[m]].prio)]);
  }

  /** When the sift-down loop stops, recording the sinking key's final
      position restores the index, and the heap is ordered. */
  lemma SinkDone<K>(h: seq<K>, c: map<K, Slot>, p: map<K, int>, keys: set<K>, x: K, pos: nat)
    requires Sinking(h, c, p, keys, x, pos) && |keys| == |h|
    requires SmallestOfFamily(h, c, pos) == pos
    ensures var c' := c[h[pos] := Slot(pos, c[h[pos]].prio)];
      && Indexed(h, c') && |c'| == |h| && Priorities(c') == p
      && Stored(h, p) && HeapOrder(h, p) && x in c' && c'[x].pos == pos
  {
    SiftDownDone(h, p, pos);
    AwayIsIndexed(h, c, x, pos, c[h[pos] := Slot(pos, c[h[pos]].prio)]);
  }

  lemma IndexedIsAway<K>(h: seq<K>, c: map<K, Slot>, at: nat)
    requires Indexed(h, c) && at < |h|
    ensures IndexedAway(h, c, h[at], at)
  {
  }

  lemma AwayIsIndexed<K>(h: seq<K>, c: map<K, Slot>, x: K, at: nat, c': map<K, Slot>)
    requires IndexedAway(h, c, x, at)
    requires c' == c[x := Slot(at, c[x].prio)]
    ensures Indexed(h, c') && c'.Keys == c.Keys && Priorities(c') == Priorities(c)
  {
  }

  /** `pop` moves the last entry to the root: the rest of the heap is still
      ordered and indexed, with the root needing a sift down. */
  lemma LastToRoot<K>(h: seq<K>, c: map<K, Slot>, h': seq<K>, c': map<K, Slot>)
    requires Indexed(h, c) && |c| == |h| && |h| > 1
    requires Stored(h, Priorities(c)) && HeapOrder(h, Priorities(c))
    requires h' == h[..|h| - 1][0 := h[|h| - 1]]
    requires c' == (c - {h[0]})[h[|h| - 1] := Slot(0, c[h[|h| - 1]].prio)]
    ensures Indexed(h', c') && |c'| == |h'|
    ensures Priorities(c') == Priorities(c) - {h[0]}
    ensures Stored(h', Priorities(c')) && OrderedBelow(h', Priorities(c'), 0)
  {
    var n := |h|;
    var last := h[n - 1];
    forall i | 0 <= i < |h'|
      ensures h'[i] in c' && c'[h'[i]].pos == i
    {
      if i > 0 {
        assert h'[i] == h[i];
      }
    }
    assert (c - {h[0]}).Keys == c.Keys - {h[0]};
    assert c'.Keys == c.Keys - {h[0]};
    var p, p' := Priorities(c), Priorities(c');
    assert p' == p - {h[0]};
    forall i | 0 < i < |h'| && (i - 1) / 2 != 0
      ensures ParentNoGreater(h', p', i)
    {
      assert ParentNoGreater(h, p, i);
      assert h'[i] == h[i] && h'[(i - 1) / 2] == h[(i - 1) / 2];
    }
  }

  /** A new priority for a stored key, before any sifting: the key stays
      where it is, and only the direction of the change says which way it
      has to move. */
  lemma Reprioritised<K>(h: seq<K>, c: map<K, Slot>, key: K, value: int)
    requires Indexed(h, c) && |c| == |h| && key in c
    requires Stored(h, Priorities(c)) && HeapOrder(h, Priorities(c))
    ensures var c' := c[key := Slot(c[key].pos, value)];
      && Indexed(h, c') && |c'| == |h| && Priorities(c') == Priorities(c)[key := value]
      && Stored(h, Priorities(c'))
      && (value < c[key].prio ==> OrderedExceptAt(h, Priorities(c'), c[key].pos))
      && (c[key].prio < value ==> OrderedBelow(h, Priorities(c'), c[key].pos))
      && (value == c[key].prio ==> HeapOrder(h, Priorities(c')))
  {
    var pos := c[key].pos;
    var p := Priorities(c);
    var c' := c[key := Slot(pos, value)];
    forall i | 0 <= i < |h| && h[i] == h[pos] ensures i == pos {
      IndexedUnique(h, c, i, pos);
    }
    assert Priorities(c') == p[key := value];
    assert c'.Keys == c.Keys;
    if value < c[key].prio {
      DecreasedKey(h, p, pos, value);
    } else if c[key].prio < value {
      IncreasedKey(h, p, pos, value);
    } else {
      assert Priorities(c') == p;
    }
  }

  /** A new key appended at the end of the heap, before any sifting. */
  lemma Appended<K>(h: seq<K>, c: map<K, Slot>, key: K, value: int)
    requires Indexed(h, c) && |c| == |h| && key !in c
    requires Stored(h, Priorities(c)) && HeapOrder(h, Priorities(c))
    ensures var h', c' := h + [key], c[key := Slot(|h|, value)];
      && Indexed(h', c') && |c'| == |h'| && Priorities(c') == Priorities(c)[key := value]
      && Stored(h', Priorities(c')) && OrderedExceptAt(h', Priorities(c'), |h|)
  {
    var p := Priorities(c);
    var c' := c[key := Slot(|h|, value)];
    AppendedKey(h, p, key, value);
    assert Priorities(c') == p[key := value];
  }

  /** The heap-backed priority queue.  `Contents()` is its abstract value:
      the priority of each stored key. */
  class PriorityQueue<K(==)> {
    var heap: seq<K>
    var container: map<K, Slot>

    ghost predicate Valid()
      reads this
    {
      && Indexed(heap, container)
      && |container| == |heap|
      && Stored(heap, Priorities(container))
      && HeapOrder(heap, Priorities(container))
    }

    ghost function Contents(): map<K, int>
      reads this
    {
      Priorities(container)
    }

    constructor ()
      ensures Valid() && Contents() == map[] && heap == []
    {
      heap := [];
      container := map[];
    }

    /** `__len__`: the number of stored keys. */
    function Len(): (n: nat)
      reads this
      requires Valid()
      ensures n == |Contents()|
    {
      |heap|
    }

    /** `__getitem__`: the priority of `item`; `None` stands for the
        `KeyError` raised on a missing key. */
    function Get(item: K): (r: Option<int>)
      reads this
      requires Valid()
      ensures r.Some? <==> item in Contents()
      ensures r.Some? ==> r.value == Contents()[item]
    {
      if item in container then Some(container[item].prio) else None
    }

    /** `__contains__`. */
    function Contains(item: K): (r: bool)
      reads this
      requires Valid()
      ensures r <==> item in Contents()
    {
      item in container
    }

    /** `top`: a key of least priority; `None` stands for the `IndexError`
        raised on an empty queue. */
    function Top(): (r: Option<K>)
      reads this
      requires Valid()
      ensures r.None? <==> Contents() == map[]
      ensures r.Some? ==> r.value in Contents()
      ensures r.Some? ==> forall k :: k in Contents() ==> Contents()[r.value] <= Contents()[k]
    {
      if |heap| == 0 then
        assert Contents().Keys == {};
        None
      else
        var p := Contents();
        assert forall k :: k in p ==> p[heap[0]] <= p[k] by {
          forall k | k in p ensures p[heap[0]] <= p[k] {
            RootIsMin(heap, p, container[k].pos);
          }
        }
        Some(heap[0])
    }

    /** `__setitem__`: sets the priority of `key`, inserting it if absent,
        and restores the heap by sifting it up or down. */
    method Set(key: K, value: int)
      requires Valid()
      modifies this
      ensures Valid()
      ensures Contents() == old(Contents())[key := value]
      ensures |heap| == if key in old(Contents()) then old(|heap|) else old(|heap|) + 1
    {
      if key in container {
        var existing := container[key].prio;
        var pos := container[key].pos;
        Reprioritised(heap, container, key, value);
        container := container[key := Slot(pos, value)];
        if value < existing {
          var _ := SiftUp(key);
        } else if existing < value {
          var _ := SiftDown(key);
        }
      } else {
        Appended(heap, container, key, value);
        heap := heap + [key];
        container := container[key := Slot(|heap| - 1, value)];
        var _ := SiftUp(key);
      }
    }

    /** `pop`: removes and returns a key of least priority; `None` stands for
        the `IndexError` raised on an empty queue. */
    method Pop() returns (r: Option<K>)
      requires Valid()
      modifies this
      ensures Valid()
      ensures old(|heap|) == 0 ==> r.None? && heap == old(heap) && container == old(container)
      ensures old(|heap|) > 0 ==> r.Some? && r.value in old(Contents())
      ensures r.Some? ==> forall k :: k in old(Contents()) ==> old(Contents())[r.value] <= old(Contents())[k]
      ensures r.Some? ==> Contents() == old(Contents()) - {r.value} && |heap| == old(|heap|) - 1
    {
      if |heap| == 0 {
        return None;
      }
      var item := heap[0];
      ghost var p := Priorities(container);
      forall k | k in p ensures p[item] <= p[k] {
        RootIsMin(heap, p, container[k].pos);
      }
      var n := |heap|;
      if n == 1 {
        container := container - {item};
        heap := [];
        assert container.Keys == {};
      } else {
        var last := heap[n - 1];
        LastToRoot(heap, container, heap[..n - 1][0 := last],
                   (container - {item})[last := Slot(0, container[last].prio)]);
        container := container - {item};
        heap := heap[..n - 1];
        heap := heap[0 := last];
        container := container[last := Slot(0, container[last].prio)];
        var _ := SiftDown(last);
      }
      r := Some(item);
    }

    /** `_priority_decreased`: moves `item` up while it has a lower priority
        than its parent; reports whether anything moved.  As in `SiftDown`,
        the loop works on local copies of the two fields. */
    method SiftUp(item: K) returns (changed: bool)
      requires item in container
      requires Indexed(heap, container) && |container| == |heap|
      requires Stored(heap, Priorities(container))
      requires OrderedExceptAt(heap, Priorities(container), container[item].pos)
      modifies this
      ensures Indexed(heap, container) && |container| == |heap| && |heap| == old(|heap|)
      ensures Priorities(container) == old(Priorities(container))
      ensures Stored(heap, Priorities(container)) && HeapOrder(heap, Priorities(container))
      ensures item in container
      ensures changed <==> container[item].pos < old(container[item].pos)
    {
      ghost var p := Priorities(container);
      ghost var start := container[item].pos;
      ghost var keys := container.Keys;
      changed := false;
      var h, c := heap, container;
      var pos := c[item].pos;
      var parent := (pos - 1) / 2;
      while pos > 0 && c[h[pos]].prio < c[h[parent]].prio
        invariant 0 <= pos < |h| == old(|heap|) && parent == (pos - 1) / 2
        invariant Indexed(h, c) && c.Keys == keys
        invariant Priorities(c) == p && Stored(h, p)
        invariant h[pos] == item
        invariant OrderedExceptAt(h, p, pos)
        invariant changed <==> pos < start
        invariant pos <= start
        decreases pos
      {
        SiftUpStep(h, p, pos);
        var moved, rising := h[parent], h[pos];
        ghost var h', c' := h, c;
        h := Swap(h, pos, parent);
        var movedPos, risingPos := c[rising].pos, c[moved].pos;
        c := c[moved := Slot(movedPos, c[moved].prio)];
        c := c[rising := Slot(risingPos, c[rising].prio)];
        SwapIndexed(h', c', pos, parent, h, c);
        pos := parent;
        parent := (pos - 1) / 2;
        changed := true;
      }
      SiftUpDone(h, p, pos);
      heap, container := h, c;
    }

    /** `_priority_increased`: moves `item` down while a child has a lower
        priority, preferring the smaller child; reports whether anything
        moved.  The loop works on local copies of `heap` and `container`
        that are written back when it stops; nothing else can observe the
        fields in between. */
    method SiftDown(item: K) returns (changed: bool)
      requires item in container
      requires Indexed(heap, container) && |container| == |heap|
      requires Stored(heap, Priorities(container))
      requires OrderedBelow(heap, Priorities(container), container[item].pos)
      modifies this
      ensures Indexed(heap, container) && |container| == |heap| && |heap| == old(|heap|)
      ensures Priorities(container) == old(Priorities(container))
      ensures Stored(heap, Priorities(container)) && HeapOrder(heap, Priorities(container))
      ensures item in container
      ensures changed <==> container[item].pos > old(container[item].pos)
    {
      ghost var p := Priorities(container);
      ghost var start := container[item].pos;
      ghost var keys := container.Keys;
      changed := false;
      var heapLen := |heap|;
      var h, c := heap, container;
      var pos := c[item].pos;
      var child1 := 2 * pos + 1;
      var child2 := 2 * pos + 2;
      var restored := false;
      IndexedIsAway(h, c, pos);
      assert Sinking(h, c, p, keys, item, pos);
      assert |keys| == heapLen;
      while !restored
        invariant 0 <= pos < |h| == heapLen && child1 == 2 * pos + 1 && child2 == 2 * pos + 2
        invariant Sinking(h, c, p, keys, item, pos) && |keys| == heapLen
        invariant restored ==> SmallestOfFamily(h, c, pos) == pos
        invariant changed <==> pos > start
        invariant pos >= start
        decreases heapLen - pos, if restored then 0 else 1
      {
        var posMin := SmallestOfFamily(h, c, pos);
        if posMin != pos {
          SinkStep(h, c, p, keys, item, pos, posMin);
          var rising := h[posMin];
          h := Swap(h, pos, posMin);
          c := c[rising := Slot(pos, c[rising].prio)];
          pos := posMin;
          child1 := 2 * pos + 1;
          child2 := 2 * pos + 2;
          changed := true;
        } else {
          restored := true;
        }
      }
      SinkDone(h, c, p, keys, item, pos);
      heap := h;
      container := c[h[pos] := Slot(pos, c[h[pos]].prio)];
    }
  }
}
