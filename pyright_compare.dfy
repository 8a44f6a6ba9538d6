/** Comparison of two pyright reports: the diagnostics (already stripped of
    their line range) whose number grew between an old and a new report,
    the exit code built from them, and the text helpers used to print them.
    A `Counter` is a dictionary from diagnostic to count, kept as a list of
    items in insertion order as in `Dicts`. */
module PyrightCompare {
  import opened Wrappers
  import opened Sequences
  import opened Dicts
  import opened Text
  import PyrightUtils

  /** Pyright's severities. */
  datatype Severity = Error | Warning | Information

  /** How often `d` occurs in `xs`. */
  function Count<D(==)>(xs: seq<D>, d: D): nat
  {
    multiset(xs)[d]
  }

  /** `counter[d]`: a missing key reads as 0. */
  function Get<D(==)>(counter: seq<(D, int)>, d: D): int
  {
    match Lookup(counter, d)
    case None => 0
    case Some(c) => c
  }

  // ---------------------------------------------------------------------
  // Counter(xs)
  // ---------------------------------------------------------------------

  /** `Counter(xs)`: each element in turn adds one to its count. */
  function Counted<D(==)>(xs: seq<D>): seq<(D, int)>
  {
    if xs == [] then []
    else
      var counter := Counted(xs[..|xs| - 1]);
      var d := xs[|xs| - 1];
      Assign(counter, d, Get(counter, d) + 1)
  }

  method CountAll<D(==)>(xs: seq<D>) returns (counter: seq<(D, int)>)
    ensures counter == Counted(xs)
  {
    counter := [];
    for i := 0 to |xs|
      invariant counter == Counted(xs[..i])
    {
      counter := Assign(counter, xs[i], Get(counter, xs[i]) + 1);
      assert xs[..i + 1][..i] == xs[..i];
    }
    assert xs[..|xs|] == xs;
  }

  /** A counter holds each element of its input once, with the number of
      times it occurs. */
  lemma {:induction false} CountedLookup<D>(xs: seq<D>, d: D)
    ensures Lookup(Counted(xs), d) == if d in xs then Some(Count(xs, d) as int) else None
  {
    if xs != [] {
      var init := xs[..|xs| - 1];
      var e := xs[|xs| - 1];
      var counter := Counted(init);
      CountedLookup(init, d);
      CountedLookup(init, e);
      AssignLookup(counter, e, Get(counter, e) + 1, d);
      CountSnoc(xs, d);
    }
  }

  lemma CountSnoc<D>(xs: seq<D>, d: D)
    requires xs != []
    ensures Count(xs, d) == Count(xs[..|xs| - 1], d) + (if d == xs[|xs| - 1] then 1 else 0)
    ensures d in xs <==> d in xs[..|xs| - 1] || d == xs[|xs| - 1]
  {
    assert xs == xs[..|xs| - 1] + [xs[|xs| - 1]];
  }

  /** A counter has each key once. */
  lemma {:induction false} CountedDistinct<D>(xs: seq<D>)
    ensures DistinctKeys(Counted(xs))
  {
    if xs != [] {
      var counter := Counted(xs[..|xs| - 1]);
      var e := xs[|xs| - 1];
      CountedDistinct(xs[..|xs| - 1]);
      AssignShape(counter, e, Get(counter, e) + 1);
    }
  }

  // ---------------------------------------------------------------------
  // counter.subtract(other)
  // ---------------------------------------------------------------------

  /** `counter.subtract(other)` for a counter `other`: each of its items in
      turn lowers the count of its key by its own count, a key that was
      missing starting from 0. */
  function Subtracted<D(==)>(counter: seq<(D, int)>, other: seq<(D, int)>): seq<(D, int)>
  {
    if other == [] then counter
    else
      var c := Subtracted(counter, other[..|other| - 1]);
      var item := other[|other| - 1];
      Assign(c, item.0, Get(c, item.0) - item.1)
  }

  method Subtract<D(==)>(counter: seq<(D, int)>, other: seq<(D, int)>) returns (r: seq<(D, int)>)
    ensures r == Subtracted(counter, other)
  {
    r := counter;
    for i := 0 to |other|
      invariant r == Subtracted(counter, other[..i])
    {
      var (d, n) := other[i];
      r := Assign(r, d, Get(r, d) - n);
      assert other[..i + 1][..i] == other[..i];
    }
    assert other[..|other|] == other;
  }

  /** After subtracting, each count is the difference of the two counts,
      and the keys are those of either counter. */
  lemma {:induction false} SubtractedLookup<D>(counter: seq<(D, int)>, other: seq<(D, int)>, d: D)
    requires DistinctKeys(other)
    ensures Get(Subtracted(counter, other), d) == Get(counter, d) - Get(other, d)
    ensures Lookup(Subtracted(counter, other), d).Some? <==> Lookup(counter, d).Some? || Lookup(other, d).Some?
  {
    if other != [] {
      var init := other[..|other| - 1];
      var item := other[|other| - 1];
      var c := Subtracted(counter, init);
      assert DistinctKeys(init) by {
        assert forall i :: 0 <= i < |init| ==> init[i] == other[i];
      }
      SubtractedLookup(counter, init, d);
      assert Subtracted(counter, other) == Assign(c, item.0, Get(c, item.0) - item.1);
      AssignLookup(c, item.0, Get(c, item.0) - item.1, d);
      LookupLast(other, d);
      if d == item.0 {
        assert Lookup(init, d).None? by {
          LookupNone(init, d);
          assert forall i :: 0 <= i < |init| ==> init[i] == other[i];
        }
        assert Get(other, d) == item.1;
      } else {
        assert Get(other, d) == Get(init, d);
      }
    }
  }

  /** Looking up in a dictionary whose last item has a key of its own. */
  lemma LookupLast<K, V>(items: seq<(K, V)>, j: K)
    requires DistinctKeys(items) && items != []
    ensures Lookup(items, j) ==
      if j == items[|items| - 1].0 then Some(items[|items| - 1].1) else Lookup(items[..|items| - 1], j)
  {
    var init := items[..|items| - 1];
    var last := items[|items| - 1];
    assert Lookup(init, last.0).None? by {
      LookupNone(init, last.0);
      assert forall i :: 0 <= i < |init| ==> init[i] == items[i];
    }
    AssignShape(init, last.0, last.1);
    AssignLookup(init, last.0, last.1, j);
    assert items == init + [last];
  }

  /** Subtracting keeps the keys distinct. */
  lemma {:induction false} SubtractedDistinct<D>(counter: seq<(D, int)>, other: seq<(D, int)>)
    requires DistinctKeys(counter)
    ensures DistinctKeys(Subtracted(counter, other))
  {
    if other != [] {
      var init := other[..|other| - 1];
      var c := Subtracted(counter, init);
      var item := other[|other| - 1];
      var v := Get(c, item.0) - item.1;
      SubtractedDistinct(counter, init);
      SubtractedSnoc(counter, other);
      assert DistinctKeys(Assign(c, item.0, v)) by {
        AssignShape(c, item.0, v);
      }
    }
  }

  /** The last item of `other` is subtracted last. */
  lemma SubtractedSnoc<D>(counter: seq<(D, int)>, other: seq<(D, int)>)
    requires other != []
    ensures var c := Subtracted(counter, other[..|other| - 1]);
      var item := other[|other| - 1];
      Subtracted(counter, other) == Assign(c, item.0, Get(c, item.0) - item.1)
  {
  }

  // ---------------------------------------------------------------------
  // counter.most_common()
  // ---------------------------------------------------------------------

  /** The items whose count is `c`, in order. */
  function WithCount<D>(items: seq<(D, int)>, c: int): seq<(D, int)>
  {
    if items == [] then []
    else
      var last := items[|items| - 1];
      WithCount(items[..|items| - 1], c) + (if last.1 == c then [last] else [])
  }

  lemma {:induction false} WithCountAppend<D>(a: seq<(D, int)>, b: seq<(D, int)>, c: int)
    ensures WithCount(a + b, c) == WithCount(a, c) + WithCount(b, c)
    decreases |b|
  {
    if b == [] {
      assert a + b == a;
    } else {
      WithCountAppend(a, b[..|b| - 1], c);
      assert (a + b)[..|a + b| - 1] == a + b[..|b| - 1];
    }
  }

  /** Every count in `items` is below `v`. */
  predicate AllBelow<D>(items: seq<(D, int)>, v: int)
  {
    forall k :: 0 <= k < |items| ==> items[k].1 < v
  }

  /** Items whose counts are all below `c` contribute nothing to `c`. */
  lemma {:induction false} WithCountBelow<D>(items: seq<(D, int)>, c: int)
    requires AllBelow(items, c)
    ensures WithCount(items, c) == []
  {
    if items != [] {
      WithCountBelow(items[..|items| - 1], c);
    }
  }

  /** Counts never grow along the sequence. */
  predicate NonIncreasing<D>(items: seq<(D, int)>)
  {
    forall i, j :: 0 <= i < j < |items| ==> items[i].1 >= items[j].1
  }

  /** `counter.most_common()`: the items by decreasing count, items of equal
      count in their order in the counter (the sort is stable). */
  method MostCommon<D(==)>(counter: seq<(D, int)>) returns (r: seq<(D, int)>)
    ensures NonIncreasing(r)
    ensures forall c :: WithCount(r, c) == WithCount(counter, c)
    ensures multiset(r) == multiset(counter)
  {
    r := [];
    for j := 0 to |counter|
      invariant NonIncreasing(r)
      invariant forall c :: WithCount(r, c) == WithCount(counter[..j], c)
      invariant multiset(r) == multiset(counter[..j])
    {
      var x := counter[j];
      var p := 0;
      while p < |r| && r[p].1 >= x.1
        invariant 0 <= p <= |r|
        invariant forall k :: 0 <= k < p ==> r[k].1 >= x.1
      {
        p := p + 1;
      }
      InsertStep(counter, j, r, p);
      r := r[..p] + [x] + r[p..];
    }
    assert counter[..|counter|] == counter;
  }

  /** Inserting the next item of the counter at its place keeps the
      invariants of `MostCommon`. */
  lemma InsertStep<D>(counter: seq<(D, int)>, j: nat, r: seq<(D, int)>, p: nat)
    requires j < |counter| && p <= |r|
    requires NonIncreasing(r)
    requires forall c :: WithCount(r, c) == WithCount(counter[..j], c)
    requires multiset(r) == multiset(counter[..j])
    requires forall k :: 0 <= k < p ==> r[k].1 >= counter[j].1
    requires p < |r| ==> r[p].1 < counter[j].1
    ensures NonIncreasing(r[..p] + [counter[j]] + r[p..])
    ensures forall c :: WithCount(r[..p] + [counter[j]] + r[p..], c) == WithCount(counter[..j + 1], c)
    ensures multiset(r[..p] + [counter[j]] + r[p..]) == multiset(counter[..j + 1])
  {
    var x := counter[j];
    AfterPlace(r, x, p);
    PlaceKeepsOrder(r, x, p);
    InsertGroups(counter, j, r, p);
    InsertMultiset(counter, j, r, p);
  }

  lemma InsertMultiset<D>(counter: seq<(D, int)>, j: nat, r: seq<(D, int)>, p: nat)
    requires j < |counter| && p <= |r|
    requires multiset(r) == multiset(counter[..j])
    ensures multiset(r[..p] + [counter[j]] + r[p..]) == multiset(counter[..j + 1])
  {
    assert r == r[..p] + r[p..];
    assert counter[..j + 1] == counter[..j] + [counter[j]];
  }

  lemma InsertGroups<D>(counter: seq<(D, int)>, j: nat, r: seq<(D, int)>, p: nat)
    requires j < |counter| && p <= |r|
    requires forall c :: WithCount(r, c) == WithCount(counter[..j], c)
    requires AllBelow(r[p..], counter[j].1)
    ensures forall c :: WithCount(r[..p] + [counter[j]] + r[p..], c) == WithCount(counter[..j + 1], c)
  {
    forall c
      ensures WithCount(r[..p] + [counter[j]] + r[p..], c) == WithCount(counter[..j + 1], c)
    {
      InsertGroupAt(counter, j, r, p, c);
    }
  }

  lemma InsertGroupAt<D>(counter: seq<(D, int)>, j: nat, r: seq<(D, int)>, p: nat, c: int)
    requires j < |counter| && p <= |r|
    requires WithCount(r, c) == WithCount(counter[..j], c)
    requires AllBelow(r[p..], counter[j].1)
    ensures WithCount(r[..p] + [counter[j]] + r[p..], c) == WithCount(counter[..j + 1], c)
  {
    var a := r[..p];
    var b := r[p..];
    var x := counter[j];
    PlaceGroup(a, b, x, c);
    assert a + b == r;
    WithCountAppend(counter[..j], [x], c);
    assert counter[..j] + [x] == counter[..j + 1];
  }

  /** In a non-increasing sequence, everything from the first count below
      `x`'s on is below it. */
  lemma AfterPlace<D>(r: seq<(D, int)>, x: (D, int), p: nat)
    requires NonIncreasing(r) && p <= |r| && (p < |r| ==> r[p].1 < x.1)
    ensures AllBelow(r[p..], x.1)
  {
    forall k | 0 <= k < |r[p..]|
      ensures r[p..][k].1 < x.1
    {
      assert r[p..][k] == r[p + k];
    }
  }

  /** Placing `x` after the counts not below it and before those below it
      keeps the counts non-increasing. */
  lemma PlaceKeepsOrder<D>(r: seq<(D, int)>, x: (D, int), p: nat)
    requires NonIncreasing(r) && p <= |r|
    requires forall k :: 0 <= k < p ==> r[k].1 >= x.1
    requires AllBelow(r[p..], x.1)
    ensures NonIncreasing(r[..p] + [x] + r[p..])
  {
    var s := r[..p] + [x] + r[p..];
    forall i, j | 0 <= i < j < |s|
      ensures s[i].1 >= s[j].1
    {
      if j < p {
        assert s[i] == r[i] && s[j] == r[j];
      } else if j == p {
        assert s[i] == r[i] && s[j] == x;
      } else if i < p {
        assert s[i] == r[i] && s[j] == r[j - 1];
      } else if i == p {
        assert s[i] == x && s[j] == r[p..][j - 1 - p];
      } else {
        assert s[i] == r[i - 1] && s[j] == r[j - 1];
      }
    }
  }

  lemma PlaceGroup<D>(a: seq<(D, int)>, b: seq<(D, int)>, x: (D, int), c: int)
    requires AllBelow(b, x.1)
    ensures WithCount(a + [x] + b, c) == WithCount(a + b, c) + WithCount([x], c)
  {
    var ax := a + [x];
    WithCountAppend(ax, b, c);
    WithCountAppend(a, [x], c);
    WithCountAppend(a, b, c);
    if c == x.1 {
      WithCountBelow(b, c);
    } else {
      WithCountSingle(x, c);
    }
  }

  lemma WithCountSingle<D>(x: (D, int), c: int)
    ensures WithCount([x], c) == if x.1 == c then [x] else []
  {
    assert [x][..0] == [];
  }

  // ---------------------------------------------------------------------
  // _compare_reports
  // ---------------------------------------------------------------------

  /** The items with a positive count, in order. */
  function Positive<D>(items: seq<(D, int)>): (r: seq<(D, int)>)
    ensures forall i :: 0 <= i < |r| ==> r[i] in items && r[i].1 > 0
    ensures forall i :: 0 <= i < |items| && items[i].1 > 0 ==> items[i] in r
  {
    if items == [] then []
    else
      var last := items[|items| - 1];
      Positive(items[..|items| - 1]) + (if last.1 > 0 then [last] else [])
  }

  /** Filtering keeps the counts non-increasing. */
  lemma {:induction false} PositiveNonIncreasing<D>(items: seq<(D, int)>)
    requires NonIncreasing(items)
    ensures NonIncreasing(Positive(items))
  {
    if items != [] {
      var init := items[..|items| - 1];
      var last := items[|items| - 1];
      assert NonIncreasing(init);
      PositiveNonIncreasing(init);
      if last.1 > 0 {
        var q := Positive(init);
        assert AllAtLeast(init, last.1);
        PositiveAtLeast(init, last.1);
        assert Positive(items) == q + [last];
        SnocNonIncreasing(q, last);
      }
    }
  }

  /** Every count in `items` is at least `v`. */
  predicate AllAtLeast<D>(items: seq<(D, int)>, v: int)
  {
    forall k :: 0 <= k < |items| ==> items[k].1 >= v
  }

  /** Filtering keeps a lower bound on the counts. */
  lemma {:induction false} PositiveAtLeast<D>(items: seq<(D, int)>, v: int)
    requires AllAtLeast(items, v)
    ensures AllAtLeast(Positive(items), v)
  {
    if items != [] {
      var init := items[..|items| - 1];
      assert AllAtLeast(init, v);
      PositiveAtLeast(init, v);
    }
  }

  lemma SnocNonIncreasing<D>(q: seq<(D, int)>, last: (D, int))
    requires NonIncreasing(q) && AllAtLeast(q, last.1)
    ensures NonIncreasing(q + [last])
  {
  }

  /** Filtering keeps the keys distinct. */
  lemma {:induction false} PositiveDistinct<D>(items: seq<(D, int)>)
    requires DistinctKeys(items)
    ensures DistinctKeys(Positive(items))
  {
    if items != [] {
      var init := items[..|items| - 1];
      var last := items[|items| - 1];
      assert DistinctKeys(init);
      PositiveDistinct(init);
      if last.1 > 0 {
        var q := Positive(init);
        forall i | 0 <= i < |q|
          ensures q[i].0 != last.0
        {
          var k :| 0 <= k < |init| && init[k] == q[i];
          assert items[k] == q[i];
        }
        assert Positive(items) == q + [last];
      }
    }
  }

  /** A rearrangement of items with distinct keys has distinct keys. */
  lemma DistinctKeysPermuted<D>(a: seq<(D, int)>, b: seq<(D, int)>)
    requires DistinctKeys(a) && multiset(a) == multiset(b)
    ensures DistinctKeys(b)
  {
    forall i, j | 0 <= i < j < |b|
      ensures b[i].0 != b[j].0
    {
      assert b[i] in multiset(a) && b[j] in multiset(a);
      if b[i] == b[j] {
        TwiceCounted(b, i, j);
        AtMostOnce(a, b[i]);
      } else {
        var p :| 0 <= p < |a| && a[p] == b[i];
        var q :| 0 <= q < |a| && a[q] == b[j];
        assert p != q;
      }
    }
  }

  /** An element at two positions occurs at least twice. */
  lemma TwiceCounted<T>(s: seq<T>, i: nat, j: nat)
    requires i < j < |s| && s[i] == s[j]
    ensures multiset(s)[s[i]] >= 2
  {
    assert s == s[..i] + [s[i]] + s[i + 1..j] + [s[j]] + s[j + 1..];
  }

  /** With distinct keys, no item occurs twice. */
  lemma {:induction false} AtMostOnce<D>(a: seq<(D, int)>, x: (D, int))
    requires DistinctKeys(a)
    ensures multiset(a)[x] <= 1
  {
    if a != [] {
      var init := a[..|a| - 1];
      assert DistinctKeys(init);
      AtMostOnce(init, x);
      assert a == init + [a[|a| - 1]];
    }
  }

  /** An item of a dictionary holds the value found under its key. */
  lemma ItemIsLookup<D>(items: seq<(D, int)>, x: (D, int))
    requires DistinctKeys(items) && x in items
    ensures Lookup(items, x.0) == Some(x.1)
  {
    var i :| 0 <= i < |items| && items[i] == x;
    PyrightUtils.LookupAt(items, i);
  }

  /** The value found under a key is an item of the dictionary. */
  lemma {:induction false} LookupIsItem<D>(items: seq<(D, int)>, k: D)
    requires Lookup(items, k).Some?
    ensures (k, Lookup(items, k).value) in items
  {
    if items[0].0 != k {
      LookupIsItem(items[1..], k);
    }
  }

  /** `_compare_reports(new, old)`: every diagnostic that occurs more often
      in the new report than in the old, with the size of the increase, by
      decreasing increase. */
  method CompareReports<D(==)>(newDiagnostics: seq<D>, oldDiagnostics: seq<D>) returns (r: seq<(D, int)>)
    ensures DistinctKeys(r)
    ensures NonIncreasing(r)
    ensures forall i :: 0 <= i < |r| ==> r[i].1 > 0
    ensures forall i :: 0 <= i < |r| ==> r[i].1 == Count(newDiagnostics, r[i].0) - Count(oldDiagnostics, r[i].0)
    ensures forall d :: d in Keys(r) <==> Count(newDiagnostics, d) > Count(oldDiagnostics, d)
  {
    var oldCount := CountAll(oldDiagnostics);
    var newCount := CountAll(newDiagnostics);
    var diff := Subtract(newCount, oldCount);
    var ordered := MostCommon(diff);
    r := Positive(ordered);
    CountedDistinct(oldDiagnostics);
    CountedDistinct(newDiagnostics);
    SubtractedDistinct(newCount, oldCount);
    DistinctKeysPermuted(diff, ordered);
    PositiveNonIncreasing(ordered);
    PositiveDistinct(ordered);
    forall d
      ensures Get(diff, d) == Count(newDiagnostics, d) - Count(oldDiagnostics, d)
      ensures Lookup(diff, d).Some? ==> (d, Get(diff, d)) in diff
    {
      CountedLookup(oldDiagnostics, d);
      CountedLookup(newDiagnostics, d);
      SubtractedLookup(newCount, oldCount, d);
      if Lookup(diff, d).Some? {
        LookupIsItem(diff, d);
      }
    }
    forall i | 0 <= i < |r|
      ensures r[i].1 == Count(newDiagnostics, r[i].0) - Count(oldDiagnostics, r[i].0)
    {
      assert r[i] in multiset(diff);
      ItemIsLookup(diff, r[i]);
    }
    forall d | Count(newDiagnostics, d) > Count(oldDiagnostics, d)
      ensures d in Keys(r)
    {
      CountedLookup(newDiagnostics, d);
      SubtractedLookup(newCount, oldCount, d);
      assert (d, Get(diff, d)) in multiset(ordered);
      PositiveKey(ordered, d, Get(diff, d));
    }
  }

  /** An item with a positive count keeps its key in the filtered list. */
  lemma PositiveKey<D>(items: seq<(D, int)>, d: D, c: int)
    requires (d, c) in items && c > 0
    ensures d in Keys(Positive(items))
  {
    var r := Positive(items);
    var i :| 0 <= i < |r| && r[i] == (d, c);
    assert Keys(r)[i] == d;
  }

  // ---------------------------------------------------------------------
  // compare: the exit code
  // ---------------------------------------------------------------------

  /** The sum of the counts of the entries of one severity. */
  function Total<D>(entries: seq<(D, int)>, severity: D -> Severity, s: Severity): int
  {
    if entries == [] then 0
    else (if severity(entries[0].0) == s then entries[0].1 else 0) + Total(entries[1..], severity, s)
  }

  /** The exit code of `compare`: 2 when the new errors (with `--Werror`,
      the new errors and warnings) add up to anything but 0, else 0. */
  function CompareExitCode<D>(entries: seq<(D, int)>, severity: D -> Severity, werror: bool): (code: int)
    ensures code == 0 || code == 2
    ensures !werror && Total(entries, severity, Error) == 0 ==> code == 0
  {
    var errors := Total(entries, severity, Error);
    var warnings := Total(entries, severity, Warning);
    var n := if werror then errors + warnings else errors;
    if n != 0 then 2 else 0
  }

  /** With positive counts, a severity's total is positive exactly when
      an entry has that severity. */
  lemma {:induction false} TotalPositive<D>(entries: seq<(D, int)>, severity: D -> Severity, s: Severity)
    requires forall i :: 0 <= i < |entries| ==> entries[i].1 > 0
    ensures Total(entries, severity, s) >= 0
    ensures Total(entries, severity, s) > 0 <==> exists i :: 0 <= i < |entries| && severity(entries[i].0) == s
  {
    if entries != [] {
      TotalPositive(entries[1..], severity, s);
      if exists i :: 0 <= i < |entries[1..]| && severity(entries[1..][i].0) == s {
        var i :| 0 <= i < |entries[1..]| && severity(entries[1..][i].0) == s;
        assert entries[i + 1] == entries[1..][i];
      }
      if exists i :: 0 <= i < |entries| && severity(entries[i].0) == s {
        var i :| 0 <= i < |entries| && severity(entries[i].0) == s;
        if i > 0 {
          assert entries[1..][i - 1] == entries[i];
        }
      }
    }
  }

  /** On the output of `CompareReports`, `compare` fails exactly when there
      is a new error, or, with `--Werror`, a new error or warning. */
  lemma CompareExitCodeIff<D>(entries: seq<(D, int)>, severity: D -> Severity, werror: bool)
    requires forall i :: 0 <= i < |entries| ==> entries[i].1 > 0
    ensures CompareExitCode(entries, severity, werror) == 2 <==>
      (exists i :: 0 <= i < |entries| && severity(entries[i].0) == Error) ||
      (werror && exists i :: 0 <= i < |entries| && severity(entries[i].0) == Warning)
  {
    TotalPositive(entries, severity, Error);
    TotalPositive(entries, severity, Warning);
  }

  // ---------------------------------------------------------------------
  // _indent
  // ---------------------------------------------------------------------

  /** The line boundaries of `str.splitlines`. */
  predicate IsLineBreak(c: char)
  {
    c as int in {0x0A, 0x0B, 0x0C, 0x0D, 0x1C, 0x1D, 0x1E, 0x85, 0x2028, 0x2029}
  }

  /** The length of the first line of `t`, its line break included; a
      carriage return followed by a line feed is one break. */
  function LineLength(t: string): (k: nat)
    requires t != []
    ensures 0 < k <= |t|
  {
    if IsLineBreak(t[0]) then
      (if t[0] == '\r' && |t| > 1 && t[1] == '\n' then 2 else 1)
    else if |t| == 1 then 1
    else 1 + LineLength(t[1..])
  }

  /** `t.splitlines(keepends=True)`. */
  function SplitLines(t: string): (lines: seq<string>)
    ensures forall i :: 0 <= i < |lines| ==> lines[i] != []
    decreases |t|
  {
    if t == [] then []
    else
      var k := LineLength(t);
      [t[..k]] + SplitLines(t[k..])
  }

  function Concat(parts: seq<string>): string
  {
    if parts == [] then "" else parts[0] + Concat(parts[1..])
  }

  /** `prefix + line` for every line. */
  function PrefixEach(lines: seq<string>, prefix: string): (r: seq<string>)
    ensures |r| == |lines| && forall i :: 0 <= i < |lines| ==> r[i] == prefix + lines[i]
  {
    if lines == [] then [] else [prefix + lines[0]] + PrefixEach(lines[1..], prefix)
  }

  /** The pieces the generator inside `_indent` yields: the first line as
      it is, every later line behind `prefix`. */
  function Shown(lines: seq<string>, prefix: string): (r: seq<string>)
    ensures |r| == |lines|
    ensures |lines| > 0 ==> r[0] == lines[0]
    ensures forall i :: 0 < i < |lines| ==> r[i] == prefix + lines[i]
  {
    if lines == [] then [] else [lines[0]] + PrefixEach(lines[1..], prefix)
  }

  lemma {:induction false} ConcatSnoc(parts: seq<string>, s: string)
    ensures Concat(parts + [s]) == Concat(parts) + s
  {
    if parts != [] {
      ConcatSnoc(parts[1..], s);
      assert (parts + [s])[1..] == parts[1..] + [s];
    }
  }

  /** Showing one more line appends it, prefixed unless it is the first. */
  lemma ShownSnoc(lines: seq<string>, prefix: string, i: nat)
    requires i < |lines|
    ensures Shown(lines[..i + 1], prefix)
         == Shown(lines[..i], prefix) + [if i == 0 then lines[i] else prefix + lines[i]]
  {
    if i == 0 {
      assert lines[..1] == [lines[0]] && lines[..0] == [];
    } else {
      var init := lines[1..i];
      assert lines[..i + 1][1..] == init + [lines[i]];
      assert lines[..i][1..] == init;
      PrefixEachSnoc(init, lines[i], prefix);
    }
  }

  lemma PrefixEachSnoc(lines: seq<string>, line: string, prefix: string)
    ensures PrefixEach(lines + [line], prefix) == PrefixEach(lines, prefix) + [prefix + line]
  {
    var a := PrefixEach(lines + [line], prefix);
    var b := PrefixEach(lines, prefix) + [prefix + line];
    assert forall k :: 0 <= k < |lines| ==> (lines + [line])[k] == lines[k];
    assert forall k :: 0 <= k < |a| ==> a[k] == b[k];
  }

  /** `_indent(text, prefix)`: every line but the first gets the prefix. */
  method Indent(text: string, prefix: string) returns (out: string)
    ensures out == Concat(Shown(SplitLines(text), prefix))
  {
    var lines := SplitLines(text);
    out := "";
    var first := true;
    for i := 0 to |lines|
      invariant first <==> i == 0
      invariant out == Concat(Shown(lines[..i], prefix))
    {
      var piece := if first then lines[i] else prefix + lines[i];
      ShownSnoc(lines, prefix, i);
      ConcatSnoc(Shown(lines[..i], prefix), piece);
      out := out + piece;
      first := false;
    }
    assert lines[..|lines|] == lines;
  }

  /** The lines put back together give the text. */
  lemma {:induction false} ConcatSplitLines(t: string)
    ensures Concat(SplitLines(t)) == t
    decreases |t|
  {
    if t != [] {
      var k := LineLength(t);
      ConcatSplitLines(t[k..]);
      assert SplitLines(t)[1..] == SplitLines(t[k..]);
      assert t == t[..k] + t[k..];
    }
  }

  lemma EmptyPrefixShown(lines: seq<string>)
    ensures Shown(lines, "") == lines
  {
    var r := Shown(lines, "");
    forall i | 0 < i < |lines|
      ensures r[i] == lines[i]
    {
      assert "" + lines[i] == lines[i];
    }
  }

  /** With an empty prefix, `_indent` gives its text back. */
  lemma IndentEmptyPrefix(t: string)
    ensures Concat(Shown(SplitLines(t), "")) == t
  {
    var lines := SplitLines(t);
    EmptyPrefixShown(lines);
    ConcatSplitLines(t);
  }

  /** Text without line breaks in front of a line does not end it early. */
  lemma {:induction false} LineLengthShift(p: string, u: string)
    requires u != [] && forall i :: 0 <= i < |p| ==> !IsLineBreak(p[i])
    ensures LineLength(p + u) == |p| + LineLength(u)
  {
    if p == [] {
      assert p + u == u;
    } else {
      assert !IsLineBreak(p[0]) && |p + u| > 1;
      assert forall i :: 0 <= i < |p[1..]| ==> p[1..][i] == p[i + 1];
      LineLengthShift(p[1..], u);
      assert (p + u)[1..] == p[1..] + u;
    }
  }

  /** The first line of `t` stays the first line when what follows it is
      replaced by text that does not start with a line break. */
  lemma {:induction false} LineLengthStable(t: string, y: string)
    requires t != []
    requires y != [] ==> LineLength(t) < |t| && !IsLineBreak(y[0])
    ensures LineLength(t[..LineLength(t)] + y) == LineLength(t)
  {
    var k := LineLength(t);
    var u := t[..k] + y;
    if !IsLineBreak(t[0]) && |t| > 1 {
      var t' := t[1..];
      LineLengthStable(t', y);
      assert u[1..] == t'[..LineLength(t')] + y;
    } else if !IsLineBreak(t[0]) {
      assert u == t;
    }
  }

  /** Text starting with a line is split into that line and the rest. */
  lemma SplitLinesCons(line: string, y: string)
    requires line != [] && LineLength(line + y) == |line|
    ensures SplitLines(line + y) == [line] + SplitLines(y)
  {
    var u := line + y;
    assert u[..|line|] == line && u[|line|..] == y;
  }

  /** The lines of the prefixed later lines are exactly those lines, each
      behind `prefix`. */
  lemma {:induction false} PrefixedLines(r: string, prefix: string)
    requires prefix != [] && forall i :: 0 <= i < |prefix| ==> !IsLineBreak(prefix[i])
    ensures SplitLines(Concat(PrefixEach(SplitLines(r), prefix))) == PrefixEach(SplitLines(r), prefix)
    decreases |r|
  {
    if r != [] {
      var k := LineLength(r);
      var rest := r[k..];
      var ps := PrefixEach(SplitLines(rest), prefix);
      var y := Concat(ps);
      var line := prefix + r[..k];
      PrefixedLines(rest, prefix);
      assert PrefixEach(SplitLines(r), prefix) == [line] + ps by {
        assert SplitLines(r) == [r[..k]] + SplitLines(rest);
      }
      assert LineLength(line + y) == |line| by {
        if y != [] {
          assert ps != [] && ps[0] == prefix + SplitLines(rest)[0];
          assert y == ps[0] + Concat(ps[1..]);
          assert y[0] == prefix[0];
        }
        LineLengthStable(r, y);
        LineLengthShift(prefix, r[..k] + y);
        ConcatAssoc(prefix, r[..k], y);
      }
      PrefixedStep(line, ps);
    }
  }

  /** A line in front of text that splits into `ps` adds that one line. */
  lemma PrefixedStep(line: string, ps: seq<string>)
    requires line != [] && SplitLines(Concat(ps)) == ps
    requires LineLength(line + Concat(ps)) == |line|
    ensures SplitLines(Concat([line] + ps)) == [line] + ps
  {
    assert ([line] + ps)[1..] == ps;
    SplitLinesCons(line, Concat(ps));
  }

  /** When `prefix` holds no line break, the output of `_indent` has as many
      lines as its text: the first unchanged, each later one behind
      `prefix`. */
  lemma IndentLines(t: string, prefix: string)
    requires forall i :: 0 <= i < |prefix| ==> !IsLineBreak(prefix[i])
    ensures SplitLines(Concat(Shown(SplitLines(t), prefix))) == Shown(SplitLines(t), prefix)
  {
    if prefix == [] {
      IndentEmptyPrefix(t);
      EmptyPrefixShown(SplitLines(t));
    } else if t != [] {
      var k := LineLength(t);
      var rest := t[k..];
      var y := Concat(PrefixEach(SplitLines(rest), prefix));
      assert SplitLines(t)[1..] == SplitLines(rest);
      assert Shown(SplitLines(t), prefix) == [t[..k]] + PrefixEach(SplitLines(rest), prefix);
      if y != [] {
        assert SplitLines(rest) != [];
        assert y[0] == prefix[0];
      }
      LineLengthStable(t, y);
      SplitLinesCons(t[..k], y);
      PrefixedLines(rest, prefix);
    }
  }

  // ---------------------------------------------------------------------
  // print_regressions: the candidate line numbers
  // ---------------------------------------------------------------------

  /** How one candidate's range is printed: its one-based line, or its
      first and last one-based lines joined by a dash. */
  function CandidateText(start: nat, end: nat): string
  {
    if start == end then NatToString(start + 1)
    else NatToString(start + 1) + "-" + NatToString(end + 1)
  }

  /** Reading a printed candidate back: one or two dash-separated
      positive line numbers, turned back into zero-based lines. */
  function ReadCandidate(t: string): Option<(nat, nat)>
  {
    var parts := Split(t, "-");
    if |parts| == 1 && parts[0] != [] && AllDigits(parts[0]) && DecimalValue(parts[0]) > 0 then
      Some((DecimalValue(parts[0]) - 1, DecimalValue(parts[0]) - 1))
    else if |parts| == 2 && parts[0] != [] && parts[1] != [] && AllDigits(parts[0]) && AllDigits(parts[1])
      && DecimalValue(parts[0]) > 0 && DecimalValue(parts[1]) > 0 then
      Some((DecimalValue(parts[0]) - 1, DecimalValue(parts[1]) - 1))
    else None
  }

  /** A digit string holds no dash. */
  lemma NoDash(s: string)
    requires AllDigits(s)
    ensures !Contains(s, "-")
  {
    forall j | 0 <= j <= |s| - 1
      ensures !OccursAt(s, "-", j)
    {
      assert IsDigit(s[j]);
    }
  }

  /** The printed form of a candidate determines its range: reading it back
      gives the start and end lines. */
  lemma CandidateRoundTrip(start: nat, end: nat)
    ensures ReadCandidate(CandidateText(start, end)) == Some((start, end))
  {
    if start == end {
      ReadSingle(start);
    } else {
      ReadRange(start, end);
    }
  }

  lemma ReadSingle(n: nat)
    ensures ReadCandidate(NatToString(n + 1)) == Some((n, n))
  {
    var a := NatToString(n + 1);
    NoDash(a);
    SplitWithoutSeparator(a, "-");
    ReadOne(a);
  }

  lemma ReadRange(start: nat, end: nat)
    ensures ReadCandidate(NatToString(start + 1) + "-" + NatToString(end + 1)) == Some((start, end))
  {
    var a := NatToString(start + 1);
    var b := NatToString(end + 1);
    assert Split(a + "-" + b, "-") == [a, b] by {
      NoDash(a);
      NoDash(b);
      SplitJoin([a, b], '-');
      assert Join([a, b], "-") == a + "-" + b;
    }
    ReadTwo(a, b);
  }

  lemma ReadOne(a: string)
    requires a != [] && AllDigits(a) && DecimalValue(a) > 0 && Split(a, "-") == [a]
    ensures ReadCandidate(a) == Some((DecimalValue(a) - 1, DecimalValue(a) - 1))
  {
  }

  lemma ReadTwo(a: string, b: string)
    requires a != [] && AllDigits(a) && DecimalValue(a) > 0
    requires b != [] && AllDigits(b) && DecimalValue(b) > 0
    requires Split(a + "-" + b, "-") == [a, b]
    ensures ReadCandidate(a + "-" + b) == Some((DecimalValue(a) - 1, DecimalValue(b) - 1))
  {
  }

  /** The candidate list of one diagnostic: one entry per occurrence of it
      in the new report, in report order. */
  method CandidateLines(candidates: seq<(nat, nat)>) returns (lines: seq<string>)
    ensures |lines| == |candidates|
    ensures forall i :: 0 <= i < |candidates| ==> lines[i] == CandidateText(candidates[i].0, candidates[i].1)
    ensures forall i :: 0 <= i < |candidates| ==> ReadCandidate(lines[i]) == Some(candidates[i])
  {
    lines := [];
    for i := 0 to |candidates|
      invariant |lines| == i
      invariant forall k :: 0 <= k < i ==> lines[k] == CandidateText(candidates[k].0, candidates[k].1)
      invariant forall k :: 0 <= k < i ==> ReadCandidate(lines[k]) == Some(candidates[k])
    {
      var (start, end) := candidates[i];
      var text: string;
      if start == end {
        text := NatToString(start + 1);
      } else {
        text := NatToString(start + 1) + "-" + NatToString(end + 1);
      }
      CandidateStep(candidates, lines, text);
      lines := lines + [text];
    }
  }

  /** One more printed candidate keeps every printed line readable. */
  lemma CandidateStep(candidates: seq<(nat, nat)>, lines: seq<string>, text: string)
    requires |lines| < |candidates|
    requires forall k :: 0 <= k < |lines| ==> ReadCandidate(lines[k]) == Some(candidates[k])
    requires forall k :: 0 <= k < |lines| ==> lines[k] == CandidateText(candidates[k].0, candidates[k].1)
    requires text == CandidateText(candidates[|lines|].0, candidates[|lines|].1)
    ensures forall k :: 0 <= k <= |lines| ==> (lines + [text])[k] == CandidateText(candidates[k].0, candidates[k].1)
    ensures forall k :: 0 <= k <= |lines| ==> ReadCandidate((lines + [text])[k]) == Some(candidates[k])
  {
    var i := |lines|;
    CandidateRoundTrip(candidates[i].0, candidates[i].1);
    var next := lines + [text];
    forall k | 0 <= k <= i
      ensures next[k] == CandidateText(candidates[k].0, candidates[k].1)
      ensures ReadCandidate(next[k]) == Some(candidates[k])
    {
      if k < i {
        assert next[k] == lines[k];
      }
    }
  }
}
