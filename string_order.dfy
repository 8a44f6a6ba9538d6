/** Python's ordering of `str` values (code point by code point, a proper
    prefix first) and `list.sort` on a list of strings. */
module StringOrder {
  /** `a <= b` on Python strings. */
  predicate LexLe(a: string, b: string)
  {
    a == [] || (b != [] && (a[0] < b[0] || (a[0] == b[0] && LexLe(a[1..], b[1..]))))
  }

  lemma {:induction false} LexTotal(a: string, b: string)
    ensures LexLe(a, b) || LexLe(b, a)
  {
    if a != [] && b != [] && a[0] == b[0] {
      LexTotal(a[1..], b[1..]);
    }
  }

  lemma {:induction false} LexTrans(a: string, b: string, c: string)
    requires LexLe(a, b) && LexLe(b, c)
    ensures LexLe(a, c)
  {
    if a != [] && b != [] && c != [] && a[0] == b[0] && b[0] == c[0] {
      LexTrans(a[1..], b[1..], c[1..]);
    }
  }

  lemma {:induction false} LexAntisymmetric(a: string, b: string)
    requires LexLe(a, b) && LexLe(b, a)
    ensures a == b
  {
    if a != [] && b != [] {
      LexAntisymmetric(a[1..], b[1..]);
      assert a == [a[0]] + a[1..] && b == [b[0]] + b[1..];
    }
  }

  predicate Sorted(s: seq<string>)
  {
    forall i, j :: 0 <= i < j < |s| ==> LexLe(s[i], s[j])
  }

  /** Insert `x` into a sorted sequence after the elements not greater than
      it. */
  method Insert(s: seq<string>, x: string) returns (r: seq<string>)
    requires Sorted(s)
    ensures Sorted(r)
    ensures multiset(r) == multiset(s) + multiset{x}
  {
    var i := 0;
    while i < |s| && LexLe(s[i], x)
      invariant 0 <= i <= |s|
      invariant forall k :: 0 <= k < i ==> LexLe(s[k], x)
    {
      i := i + 1;
    }
    if i < |s| {
      LexTotal(s[i], x);
      AboveFirstGreater(s, x, i);
    }
    r := s[..i] + [x] + s[i..];
    InsertSorted(s, x, i);
    assert s == s[..i] + s[i..];
  }

  /** Everything from the first element greater than `x` on is at least `x`. */
  lemma AboveFirstGreater(s: seq<string>, x: string, i: nat)
    requires Sorted(s) && i < |s| && LexLe(x, s[i])
    ensures forall k :: i <= k < |s| ==> LexLe(x, s[k])
  {
    forall k | i < k < |s|
      ensures LexLe(x, s[k])
    {
      LexTrans(x, s[i], s[k]);
    }
  }

  /** `x` placed between the elements below it and those above it keeps the
      sequence sorted. */
  lemma InsertSorted(s: seq<string>, x: string, i: nat)
    requires Sorted(s) && i <= |s|
    requires forall k :: 0 <= k < i ==> LexLe(s[k], x)
    requires forall k :: i <= k < |s| ==> LexLe(x, s[k])
    ensures Sorted(s[..i] + [x] + s[i..])
  {
    var r := s[..i] + [x] + s[i..];
    forall p, q | 0 <= p < q < |r|
      ensures LexLe(r[p], r[q])
    {
      if q < i {
        assert r[p] == s[p] && r[q] == s[q];
      } else if q == i {
        assert r[p] == s[p] && r[q] == x;
      } else if p < i {
        assert r[p] == s[p] && r[q] == s[q - 1];
      } else if p == i {
        assert r[p] == x && r[q] == s[q - 1];
      } else {
        assert r[p] == s[p - 1] && r[q] == s[q - 1];
      }
    }
  }

  /** `lst.sort()` for a list of strings: the sorted rearrangement. */
  method Sort(s: seq<string>) returns (r: seq<string>)
    ensures Sorted(r)
    ensures multiset(r) == multiset(s)
  {
    r := [];
    var j := 0;
    while j < |s|
      invariant 0 <= j <= |s|
      invariant Sorted(r)
      invariant multiset(r) == multiset(s[..j])
    {
      r := Insert(r, s[j]);
      assert s[..j + 1] == s[..j] + [s[j]];
      j := j + 1;
    }
    assert s[..j] == s;
  }

  /** A sorted rearrangement is unique: sorting has one possible result. */
  lemma {:induction false} SortedUnique(a: seq<string>, b: seq<string>)
    requires Sorted(a) && Sorted(b) && multiset(a) == multiset(b)
    ensures a == b
  {
    if a != [] {
      assert |b| > 0 by {
        assert a[0] in multiset(a);
      }
      SameMinimum(a, b);
      TailMultiset(a);
      TailMultiset(b);
      SortedUnique(a[1..], b[1..]);
      assert a == [a[0]] + a[1..] && b == [b[0]] + b[1..];
    }
  }

  /** Two sorted rearrangements of each other start with the same element. */
  lemma SameMinimum(a: seq<string>, b: seq<string>)
    requires Sorted(a) && Sorted(b) && multiset(a) == multiset(b) && |a| > 0 && |b| > 0
    ensures a[0] == b[0]
  {
    assert a[0] in multiset(b);
    assert b[0] in multiset(a);
    var i :| 0 <= i < |b| && b[i] == a[0];
    var k :| 0 <= k < |a| && a[k] == b[0];
    if k > 0 && i > 0 {
      LexAntisymmetric(a[0], b[0]);
    }
  }

  lemma TailMultiset(a: seq<string>)
    requires |a| > 0
    ensures multiset(a[1..]) == multiset(a) - multiset{a[0]}
  {
    assert a == [a[0]] + a[1..];
  }
}
