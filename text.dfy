/** The parts of Python's `str` that the modelled code uses: `find`, `in`,
    `split` with a separator, `join`, `startswith`/`endswith`, `rstrip`,
    ASCII `lower`/`upper`, and decimal conversion of integers (`str(n)`,
    `int(s)`). */
module Text {
  import opened Wrappers

  /** `sub` occurs in `s` starting at index `i`. */
  predicate OccursAt(s: string, sub: string, i: int)
  {
    0 <= i && i + |sub| <= |s| && s[i..i + |sub|] == sub
  }

  /** The first index at or after `from` where `sub` occurs. */
  function FindFrom(s: string, sub: string, from: nat): (r: Option<nat>)
    ensures r.Some? ==> from <= r.value && OccursAt(s, sub, r.value)
    ensures forall j :: from <= j && (r.None? || j < r.value) ==> !OccursAt(s, sub, j)
    decreases |s| - from
  {
    if from + |sub| > |s| then None
    else if s[from..from + |sub|] == sub then Some(from)
    else FindFrom(s, sub, from + 1)
  }

  /** `s.find(sub)`, with `None` for Python's -1. */
  function Find(s: string, sub: string): (r: Option<nat>)
    ensures r.Some? ==> OccursAt(s, sub, r.value)
    ensures forall j :: 0 <= j && (r.None? || j < r.value) ==> !OccursAt(s, sub, j)
  {
    FindFrom(s, sub, 0)
  }

  /** `sub in s`. */
  predicate Contains(s: string, sub: string)
  {
    Find(s, sub).Some?
  }

  lemma ContainsAt(s: string, sub: string, i: int)
    requires OccursAt(s, sub, i)
    ensures Contains(s, sub)
  {
  }

  /** An occurrence inside a prefix is an occurrence in the whole string. */
  lemma OccursInPrefix(s: string, sub: string, n: nat, j: int)
    requires n <= |s| && OccursAt(s[..n], sub, j)
    ensures OccursAt(s, sub, j)
  {
    assert s[..n][j..j + |sub|] == s[j..j + |sub|];
  }

  /** An occurrence inside an occurrence is an occurrence in the whole
      string. */
  lemma OccursWithin(s: string, f: string, i: int, sub: string, j: int)
    requires OccursAt(s, f, i) && OccursAt(f, sub, j)
    ensures OccursAt(s, sub, i + j) && Contains(s, sub)
  {
    forall k | 0 <= k < |sub|
      ensures s[i + j + k] == sub[k]
    {
      assert f[j + k] == sub[k];
      assert s[i + j + k] == f[j + k];
    }
    assert s[i + j..i + j + |sub|] == sub;
    ContainsAt(s, sub, i + j);
  }

  /** A prefix of `s` that ends before the first occurrence of `sub` does
      not contain `sub`. */
  lemma PrefixBeforeFirst(s: string, sub: string, n: nat)
    requires n <= |s|
    requires forall j :: 0 <= j && j + |sub| <= n ==> !OccursAt(s, sub, j)
    ensures !Contains(s[..n], sub)
  {
    if Contains(s[..n], sub) {
      var j := Find(s[..n], sub).value;
      OccursInPrefix(s, sub, n, j);
    }
  }

  /** `sep.join(parts)`. */
  function Join(parts: seq<string>, sep: string): string
  {
    if |parts| == 0 then ""
    else if |parts| == 1 then parts[0]
    else parts[0] + sep + Join(parts[1..], sep)
  }

  /** `s.split(sep)` for a non-empty separator: the pieces between the
      leftmost non-overlapping occurrences of `sep`.  Joining them back with
      `sep` gives `s`, and no piece contains `sep`. */
  function Split(s: string, sep: string): (parts: seq<string>)
    requires |sep| > 0
    ensures |parts| >= 1
    ensures Join(parts, sep) == s
    ensures forall k :: 0 <= k < |parts| ==> !Contains(parts[k], sep)
    decreases |s|
  {
    match Find(s, sep)
    case None => [s]
    case Some(i) =>
      var rest := Split(s[i + |sep|..], sep);
      assert s == s[..i] + sep + s[i + |sep|..];
      assert ([s[..i]] + rest)[1..] == rest;
      PrefixBeforeFirst(s, sep, i);
      [s[..i]] + rest
  }

  /** `s.startswith(p)`. */
  predicate StartsWith(s: string, p: string)
  {
    |p| <= |s| && s[..|p|] == p
  }

  /** `s.endswith(q)`. */
  predicate EndsWith(s: string, q: string)
  {
    |q| <= |s| && s[|s| - |q|..] == q
  }

  /** `s.rstrip(c)` for a single character. */
  function RStrip(s: string, c: char): (r: string)
    ensures StartsWith(s, r)
    ensures |r| == 0 || r[|r| - 1] != c
    ensures forall i :: |r| <= i < |s| ==> s[i] == c
  {
    if |s| > 0 && s[|s| - 1] == c then RStrip(s[..|s| - 1], c) else s
  }

  /** `s.replace(c, '')` for a single character. */
  function RemoveChar(s: string, c: char): (r: string)
    ensures c !in r
    ensures |r| <= |s|
  {
    if s == [] then []
    else (if s[0] == c then [] else [s[0]]) + RemoveChar(s[1..], c)
  }

  lemma {:induction false} RemoveCharAbsent(s: string, c: char)
    requires c !in s
    ensures RemoveChar(s, c) == s
  {
    if s != [] {
      RemoveCharAbsent(s[1..], c);
      assert s == [s[0]] + s[1..];
    }
  }

  lemma {:induction false} RemoveCharOnly(s: string, c: char)
    requires forall i :: 0 <= i < |s| ==> s[i] == c
    ensures RemoveChar(s, c) == []
  {
    if s != [] {
      RemoveCharOnly(s[1..], c);
    }
  }

  lemma NothingInEmpty(sub: string)
    requires |sub| >= 1
    ensures !Contains("", sub)
  {
  }

  /** `re.sub(lit, '', s)` for a pattern that matches only the literal
      text `lit`: every leftmost non-overlapping occurrence is deleted. */
  function RemoveAll(s: string, lit: string): (r: string)
    requires |lit| > 0
  {
    Join(Split(s, lit), "")
  }

  lemma RemoveAllAbsent(s: string, lit: string)
    requires |lit| > 0 && !Contains(s, lit)
    ensures RemoveAll(s, lit) == s
  {
  }

  function LowerChar(c: char): char
  {
    if 'A' <= c <= 'Z' then (c as int + 32) as char else c
  }

  function UpperChar(c: char): char
  {
    if 'a' <= c <= 'z' then (c as int - 32) as char else c
  }

  /** `s.lower()` on ASCII letters. */
  function Lower(s: string): (r: string)
    ensures |r| == |s| && forall i :: 0 <= i < |s| ==> r[i] == LowerChar(s[i])
  {
    seq(|s|, i requires 0 <= i < |s| => LowerChar(s[i]))
  }

  /** `s.upper()` on ASCII letters. */
  function Upper(s: string): (r: string)
    ensures |r| == |s| && forall i :: 0 <= i < |s| ==> r[i] == UpperChar(s[i])
  {
    seq(|s|, i requires 0 <= i < |s| => UpperChar(s[i]))
  }

  predicate IsDigit(c: char)
  {
    '0' <= c <= '9'
  }

  predicate IsLetter(c: char)
  {
    'a' <= c <= 'z' || 'A' <= c <= 'Z'
  }

  predicate AllDigits(s: string)
  {
    forall i :: 0 <= i < |s| ==> IsDigit(s[i])
  }

  /** The length of the run of ASCII digits at the start of `s`. */
  function LeadingDigits(s: string): (k: nat)
    ensures k <= |s| && AllDigits(s[..k])
    ensures k < |s| ==> !IsDigit(s[k])
  {
    if s == [] || !IsDigit(s[0]) then 0
    else
      var k := 1 + LeadingDigits(s[1..]);
      assert s[..k] == [s[0]] + s[1..][..k - 1];
      k
  }

  lemma {:induction false} LeadingDigitsOf(digits: string, rest: string)
    requires AllDigits(digits) && (rest != [] ==> !IsDigit(rest[0]))
    ensures LeadingDigits(digits + rest) == |digits|
  {
    if digits != [] {
      assert (digits + rest)[1..] == digits[1..] + rest;
      LeadingDigitsOf(digits[1..], rest);
    } else {
      assert digits + rest == rest;
    }
  }

  function DigitChar(d: nat): (c: char)
    requires d < 10
    ensures IsDigit(c) && c as int - '0' as int == d
  {
    ('0' as int + d) as char
  }

  /** The value of a string of decimal digits (`int(s)` on such a string). */
  function DecimalValue(s: string): nat
    requires AllDigits(s)
  {
    if s == [] then 0
    else DecimalValue(s[..|s| - 1]) * 10 + (s[|s| - 1] as int - '0' as int)
  }

  /** `str(n)` for a natural number: digits without leading zeros that
      read back as `n`. */
  function NatToString(n: nat): (s: string)
    ensures |s| >= 1 && AllDigits(s)
    ensures s[0] == '0' ==> n == 0 && s == "0"
    ensures DecimalValue(s) == n
  {
    if n < 10 then [DigitChar(n)]
    else
      var s := NatToString(n / 10) + [DigitChar(n % 10)];
      assert s[..|s| - 1] == NatToString(n / 10);
      s
  }

  /** `str(i)` for any integer. */
  function IntToString(i: int): (s: string)
    ensures |s| >= 1
    ensures i >= 0 ==> s == NatToString(i)
    ensures i < 0 ==> s == "-" + NatToString(-i)
  {
    if i < 0 then "-" + NatToString(-i) else NatToString(i)
  }

  /** Appending one digit to a digit string. */
  lemma DecimalValueSnoc(s: string, c: char)
    requires AllDigits(s) && IsDigit(c)
    ensures AllDigits(s + [c]) && DecimalValue(s + [c]) == DecimalValue(s) * 10 + (c as int - '0' as int)
  {
    assert (s + [c])[..|s + [c]| - 1] == s;
  }

  /** The other direction of the round trip: a digit string without a
      leading zero is the decimal form of its value. */
  lemma {:induction false} CanonicalDigits(s: string)
    requires |s| >= 1 && AllDigits(s) && (s[0] == '0' ==> |s| == 1)
    ensures NatToString(DecimalValue(s)) == s
  {
    var n := DecimalValue(s);
    if |s| == 1 {
    } else {
      var init := s[..|s| - 1];
      CanonicalDigits(init);
      assert init[0] == s[0];
      var d := s[|s| - 1] as int - '0' as int;
      assert n / 10 == DecimalValue(init) && n % 10 == d;
      assert DecimalValue(init) > 0;
      assert s == init + [s[|s| - 1]];
    }
  }
  /** With a one-character separator, the first separator after a piece
      that does not contain it is the one right after that piece. */
  lemma FindAfterPiece(a: string, c: char, b: string)
    requires !Contains(a, [c])
    ensures Find(a + [c] + b, [c]) == Some(|a|)
  {
    var s := a + [c] + b;
    assert s[|a|..|a| + 1] == [c];
    var r := Find(s, [c]);
    assert OccursAt(s, [c], |a|);
    if r.Some? && r.value < |a| {
      assert s[r.value] == c && a[r.value] == c;
      assert a[r.value..r.value + 1] == [c];
      ContainsAt(a, [c], r.value);
    }
  }

  /** `sep.join` followed by `split(sep)` gives the pieces back when the
      separator is one character that no piece contains. */
  lemma {:induction false} SplitJoin(parts: seq<string>, c: char)
    requires |parts| >= 1
    requires forall k :: 0 <= k < |parts| ==> !Contains(parts[k], [c])
    ensures Split(Join(parts, [c]), [c]) == parts
  {
    if |parts| == 1 {
      SplitWithoutSeparator(parts[0], [c]);
    } else {
      var rest := Join(parts[1..], [c]);
      assert forall k :: 0 <= k < |parts| - 1 ==> parts[1..][k] == parts[k + 1];
      SplitJoin(parts[1..], c);
      FindAfterPiece(parts[0], c, rest);
      var s := parts[0] + [c] + rest;
      assert Join(parts, [c]) == s;
      assert s[..|parts[0]|] == parts[0];
      assert s[|parts[0]| + 1..] == rest;
      assert Split(s, [c]) == [parts[0]] + Split(rest, [c]);
      assert parts == [parts[0]] + parts[1..];
    }
  }
  lemma JoinCons(a: string, parts: seq<string>, sep: string)
    requires |parts| >= 1
    ensures Join([a] + parts, sep) == a + sep + Join(parts, sep)
  {
    assert ([a] + parts)[1..] == parts;
  }

  /** Prefixing the first piece prefixes the joined string. */
  lemma JoinPrefixHead(p: string, parts: seq<string>, sep: string)
    requires |parts| >= 1
    ensures Join([p + parts[0]] + parts[1..], sep) == p + Join(parts, sep)
  {
    if |parts| > 1 {
      JoinCons(p + parts[0], parts[1..], sep);
      JoinCons(parts[0], parts[1..], sep);
      assert parts == [parts[0]] + parts[1..];
    }
  }
  /** Joining the first `m` pieces gives a prefix of joining all of them. */
  lemma {:induction false} JoinPrefix(parts: seq<string>, sep: string, m: nat)
    requires 1 <= m <= |parts|
    ensures StartsWith(Join(parts, sep), Join(parts[..m], sep))
  {
    if m == |parts| {
      assert parts[..m] == parts;
      assert Join(parts, sep)[..|Join(parts, sep)|] == Join(parts, sep);
    } else {
      if m == 1 {
        assert parts[..1] == [parts[0]];
        var tail := Join(parts[1..], sep);
        assert Join(parts, sep) == parts[0] + sep + tail;
        assert (parts[0] + sep + tail)[..|parts[0]|] == parts[0];
      } else {
        JoinPrefix(parts[1..], sep, m - 1);
        assert parts[..m][1..] == parts[1..][..m - 1];
        var tail := Join(parts[1..], sep);
        var head := Join(parts[1..][..m - 1], sep);
        assert tail[..|head|] == head;
        assert Join(parts, sep) == parts[0] + sep + tail;
        assert Join(parts[..m], sep) == parts[0] + sep + head;
        assert (parts[0] + sep + tail)[..|parts[0] + sep + head|] == parts[0] + sep + head;
      }
    }
  }
  /** Splitting at a one-character separator peels off a first piece that
      does not contain it. */
  lemma SplitCons(a: string, c: char, b: string)
    requires !Contains(a, [c])
    ensures Split(a + [c] + b, [c]) == [a] + Split(b, [c])
  {
    var s := a + [c] + b;
    FindAfterPiece(a, c, b);
    assert s[..|a|] == a;
    assert s[|a| + 1..] == b;
  }
  lemma SplitWithoutSeparator(s: string, sep: string)
    requires |sep| > 0 && !Contains(s, sep)
    ensures Split(s, sep) == [s]
  {
  }

  /** The last piece ends the joined string. */
  lemma {:induction false} JoinEndsWithLast(parts: seq<string>, sep: string)
    requires |parts| >= 1
    ensures EndsWith(Join(parts, sep), parts[|parts| - 1])
  {
    if |parts| > 1 {
      JoinEndsWithLast(parts[1..], sep);
      var tail := Join(parts[1..], sep);
      var s := parts[0] + sep + tail;
      assert s[|s| - |tail|..] == tail;
      assert parts[1..][|parts| - 2] == parts[|parts| - 1];
    }
  }

  /** Every piece occurs in the joined string; `i` is where. */
  lemma {:induction false} PieceOccurs(parts: seq<string>, sep: string, k: nat) returns (i: nat)
    requires k < |parts|
    ensures OccursAt(Join(parts, sep), parts[k], i)
  {
    if k == 0 {
      i := 0;
      if |parts| > 1 {
        var s := parts[0] + sep + Join(parts[1..], sep);
        assert s[..|parts[0]|] == parts[0];
      }
    } else {
      var j := PieceOccurs(parts[1..], sep, k - 1);
      var tail := Join(parts[1..], sep);
      var s := parts[0] + sep + tail;
      i := |parts[0] + sep| + j;
      assert parts[1..][k - 1] == parts[k];
      assert s[i..i + |parts[k]|] == tail[j..j + |parts[k]|];
    }
  }

  /** Two strings without the character `c` concatenate to one without it. */
  lemma ConcatAbsent(a: string, b: string, c: char)
    requires !Contains(a, [c]) && !Contains(b, [c])
    ensures !Contains(a + b, [c])
  {
    var s := a + b;
    if Contains(s, [c]) {
      var j := Find(s, [c]).value;
      if j < |a| {
        assert a[j..j + 1] == s[j..j + 1];
        ContainsAt(a, [c], j);
      } else {
        assert b[j - |a|..j - |a| + 1] == s[j..j + 1];
        ContainsAt(b, [c], j - |a|);
      }
    }
  }

  /** Pieces and a separator without the character `c` join to a string
      without it. */
  lemma {:induction false} JoinAbsent(parts: seq<string>, sep: string, c: char)
    requires !Contains(sep, [c])
    requires forall k :: 0 <= k < |parts| ==> !Contains(parts[k], [c])
    ensures !Contains(Join(parts, sep), [c])
    decreases |parts|
  {
    if |parts| == 0 {
      NothingInEmpty([c]);
    } else if |parts| > 1 {
      JoinAbsent(parts[1..], sep, c);
      ConcatAbsent(parts[0], sep, c);
      ConcatAbsent(parts[0] + sep, Join(parts[1..], sep), c);
    }
  }

  /** A one-character string holds no other character. */
  lemma OtherCharAbsent(a: char, c: char)
    requires a != c
    ensures !Contains([a], [c])
  {
    forall j | 0 <= j
      ensures !OccursAt([a], [c], j)
    {
      if j == 0 {
        assert [a][0..1] == [a];
      }
    }
  }
}
