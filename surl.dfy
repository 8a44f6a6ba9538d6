/** The relative storage URLs of replicas on non-deterministic storage
    (`construct_surl_DQ2`, `construct_surl_T0`, `construct_surl_BelleII`,
    with `__strip_dsn` and `__strip_tag`) and `clean_surls`. */
module Surls {
  import opened Wrappers
  import opened Text
  import opened StringOrder
  import opened Sequences

  /** No newline in `t` except possibly as its last character: the text
      `.*$` can consume (`.` stops at a newline, `$` also matches just
      before a final newline). */
  predicate ToLineEnd(t: string)
  {
    forall j :: 0 <= j < |t| - 1 ==> t[j] != '\n'
  }

  /** `re.search(lit + '.*$', s)` for a literal `lit`: the first index,
      at or after `from`, where `lit` occurs with only the final line after
      it. */
  function FirstMatch(s: string, lit: string, from: nat): (r: Option<nat>)
    ensures r.Some? ==> from <= r.value && OccursAt(s, lit, r.value) && ToLineEnd(s[r.value + |lit|..])
    ensures forall j :: from <= j && (r.None? || j < r.value) ==> !(OccursAt(s, lit, j) && ToLineEnd(s[j + |lit|..]))
    decreases |s| - from
  {
    if from + |lit| > |s| then None
    else if OccursAt(s, lit, from) && ToLineEnd(s[from + |lit|..]) then Some(from)
    else FirstMatch(s, lit, from + 1)
  }

  /** `re.sub(lit + '.*$', '', s)`: from the first match on, everything up
      to the end of the string (or up to a final newline) is deleted. */
  function SubToEnd(s: string, lit: string): (r: string)
    ensures !Contains(s, lit) ==> r == s
    ensures |r| <= |s|
  {
    match FirstMatch(s, lit, 0)
    case None => s
    case Some(i) =>
      ContainsAt(s, lit, i);
      s[..i] + (if |s| > 0 && s[|s| - 1] == '\n' && i + |lit| < |s| then "\n" else "")
  }

  /** The substitution never introduces a character other than a newline. */
  lemma SubToEndAbsent(s: string, lit: string, c: char)
    requires c != '\n' && !Contains(s, [c])
    ensures !Contains(SubToEnd(s, lit), [c])
  {
    match FirstMatch(s, lit, 0)
    case None =>
    case Some(i) =>
      PrefixKeepsAbsent(s, [c], i);
      OtherCharAbsent('\n', c);
      ConcatAbsent(s[..i], "\n", c);
      assert !Contains(s[..i] + "", [c]) by {
        assert s[..i] + "" == s[..i];
      }
  }

  predicate NoNewline(s: string)
  {
    forall j :: 0 <= j < |s| ==> s[j] != '\n'
  }

  /** On a single line, the substitution truncates at the first occurrence
      of `lit`, and the result no longer contains `lit`. */
  lemma SubToEndTruncates(s: string, lit: string)
    requires NoNewline(s) && |lit| > 0
    ensures SubToEnd(s, lit) == if Contains(s, lit) then s[..Find(s, lit).value] else s
    ensures !Contains(SubToEnd(s, lit), lit)
  {
    var f := FirstMatch(s, lit, 0);
    if Contains(s, lit) {
      var i := Find(s, lit).value;
      assert ToLineEnd(s[i + |lit|..]);
      assert f.Some? && f.value == i;
      PrefixBeforeFirst(s, lit, i);
    } else {
      if f.Some? {
        ContainsAt(s, lit, f.value);
      }
    }
  }

  /** A prefix of a string without `lit` does not contain `lit`. */
  lemma PrefixKeepsAbsent(s: string, lit: string, n: nat)
    requires n <= |s| && !Contains(s, lit)
    ensures !Contains(s[..n], lit)
  {
    if Contains(s[..n], lit) {
      var j := Find(s[..n], lit).value;
      OccursInPrefix(s, lit, n, j);
      ContainsAt(s, lit, j);
    }
  }

  /** The suffixes `__strip_dsn` drops from the last field of a dataset name. */
  const DsnSuffixes: seq<string> := ["_dis", "_sub", "_frag"]
  /** The suffixes `__strip_tag` drops from a tag. */
  const TagSuffixes: seq<string> := ["_dis", "_sub", "_tid"]

  /** The loop over the suffixes: each one truncates what the previous
      ones left. */
  function SubAll(s: string, suffixes: seq<string>): (r: string)
    ensures (forall k :: 0 <= k < |suffixes| ==> !Contains(s, suffixes[k])) ==> r == s
    ensures |r| <= |s|
    decreases |suffixes|
  {
    if suffixes == [] then s
    else
      assert forall k :: 0 <= k < |suffixes| - 1 ==> suffixes[1..][k] == suffixes[k + 1];
      SubAll(SubToEnd(s, suffixes[0]), suffixes[1..])
  }

  /** Truncating at the suffixes never introduces a character other than a
      newline. */
  lemma {:induction false} SubAllAbsentChar(s: string, suffixes: seq<string>, c: char)
    requires c != '\n' && !Contains(s, [c])
    ensures !Contains(SubAll(s, suffixes), [c])
    decreases |suffixes|
  {
    if suffixes != [] {
      SubToEndAbsent(s, suffixes[0], c);
      SubAllAbsentChar(SubToEnd(s, suffixes[0]), suffixes[1..], c);
    }
  }

  /** On a single line, the result is a prefix of the input that contains
      none of the suffixes. */
  lemma {:induction false} SubAllPrefix(s: string, suffixes: seq<string>)
    requires NoNewline(s)
    requires forall k :: 0 <= k < |suffixes| ==> |suffixes[k]| > 0
    ensures StartsWith(s, SubAll(s, suffixes))
    ensures forall k :: 0 <= k < |suffixes| ==> !Contains(SubAll(s, suffixes), suffixes[k])
  {
    if suffixes != [] {
      var t := SubToEnd(s, suffixes[0]);
      var tail := suffixes[1..];
      assert forall k :: 0 <= k < |tail| ==> tail[k] == suffixes[k + 1];
      SubToEndTruncates(s, suffixes[0]);
      assert NoNewline(t);
      SubAllPrefix(t, tail);
      var r := SubAll(t, tail);
      assert SubAll(s, suffixes) == r;
      assert StartsWith(s, r) by {
        assert s[..|r|] == t[..|r|];
      }
      PrefixKeepsAbsent(t, suffixes[0], |r|);
      assert r == t[..|r|];
      forall k | 0 <= k < |suffixes|
        ensures !Contains(r, suffixes[k])
      {
        if k > 0 {
          assert suffixes[k] == tail[k - 1];
        }
      }
    }
  }

  /** `__strip_dsn(dsn)`: truncate the last dot-separated field at the
      first `_dis`, `_sub` or `_frag`. */
  function StripDsn(dsn: string): string
  {
    var fields := Split(dsn, ".");
    var last := fields[|fields| - 1];
    Join(fields[..|fields| - 1] + [SubAll(last, DsnSuffixes)], ".")
  }

  /** A name whose last field holds none of the suffixes is kept. */
  lemma StripDsnKeepsPlain(dsn: string)
    ensures var fields := Split(dsn, ".");
      (forall k :: 0 <= k < |DsnSuffixes| ==> !Contains(fields[|fields| - 1], DsnSuffixes[k])) ==>
        StripDsn(dsn) == dsn
  {
    var fields := Split(dsn, ".");
    SnocLast(fields);
  }

  /** `__strip_tag(tag)`. */
  function StripTag(tag: string): (r: string)
    ensures (forall k :: 0 <= k < |TagSuffixes| ==> !Contains(tag, TagSuffixes[k])) ==> r == tag
    ensures |r| <= |tag|
  {
    SubAll(tag, TagSuffixes)
  }

  /** Stripping a name without slashes leaves no slash. */
  lemma StripDsnNoSlash(dsn: string)
    requires !Contains(dsn, "/")
    ensures !Contains(StripDsn(dsn), "/")
  {
    var fields := Split(dsn, ".");
    var n := |fields| - 1;
    var parts := fields[..n] + [SubAll(fields[n], DsnSuffixes)];
    forall k | 0 <= k < |parts|
      ensures !Contains(parts[k], "/")
    {
      FieldOfPathless(dsn, fields, k);
      if k == n {
        SubAllAbsentChar(fields[n], DsnSuffixes, '/');
      } else {
        assert parts[k] == fields[k];
      }
    }
    OtherCharAbsent('.', '/');
    JoinAbsent(parts, ".", '/');
  }

  lemma SuffixesNonEmpty()
    ensures forall k :: 0 <= k < |DsnSuffixes| ==> |DsnSuffixes[k]| > 0
    ensures forall k :: 0 <= k < |TagSuffixes| ==> |TagSuffixes[k]| > 0
  {
  }

  /** A single-line tag loses its first suffix and everything after it, and
      stripping it again changes nothing. */
  lemma StripTagIdempotent(tag: string)
    requires NoNewline(tag)
    ensures StartsWith(tag, StripTag(tag))
    ensures forall k :: 0 <= k < |TagSuffixes| ==> !Contains(StripTag(tag), TagSuffixes[k])
    ensures StripTag(StripTag(tag)) == StripTag(tag)
  {
    SuffixesNonEmpty();
    SubAllPrefix(tag, TagSuffixes);
    SubAllIdempotent(tag, TagSuffixes);
  }

  /** Only the last field of a single-line dataset name changes: the result
      is a prefix of the name, and stripping twice is stripping once. */
  lemma StripDsnIdempotent(dsn: string)
    requires NoNewline(dsn)
    ensures StartsWith(dsn, StripDsn(dsn))
    ensures StripDsn(StripDsn(dsn)) == StripDsn(dsn)
  {
    var fields := Split(dsn, ".");
    var n := |fields| - 1;
    LastFieldOfLine(dsn, fields);
    var short := ShortLastField(fields[n]);
    var stripped := Join(fields[..n] + [short], ".");
    assert StripDsn(dsn) == stripped;
    assert Join(fields, ".") == dsn;
    StripDsnPrefix(fields, short);
    StripDsnOfParts(fields, short);
  }

  /** The stripped name replaces the last field with a prefix of it. */
  lemma StripDsnPrefix(fields: seq<string>, short: string)
    requires |fields| >= 1 && StartsWith(fields[|fields| - 1], short)
    ensures StartsWith(Join(fields, "."), Join(fields[..|fields| - 1] + [short], "."))
  {
    ReplaceLastPiece(fields, short);
  }

  /** The stripped name, split back, is left alone by a second strip. */
  lemma StripDsnOfParts(fields: seq<string>, short: string)
    requires |fields| >= 1 && forall k :: 0 <= k < |fields| ==> !Contains(fields[k], ".")
    requires !Contains(short, ".") && SubAll(short, DsnSuffixes) == short
    ensures var stripped := Join(fields[..|fields| - 1] + [short], ".");
      StripDsn(stripped) == stripped
  {
    var parts := fields[..|fields| - 1] + [short];
    PartsSplitBack(fields, short);
    assert parts[|parts| - 1] == short;
    StrippedPieces(parts);
  }

  /** Pieces that split back into themselves, the last one free of the
      suffixes, are left alone by `StripDsn`. */
  lemma StrippedPieces(parts: seq<string>)
    requires |parts| >= 1 && Split(Join(parts, "."), ".") == parts
    requires SubAll(parts[|parts| - 1], DsnSuffixes) == parts[|parts| - 1]
    ensures StripDsn(Join(parts, ".")) == Join(parts, ".")
  {
    var n := |parts| - 1;
    assert parts[..n] + [parts[n]] == parts by {
      SnocLast(parts);
    }
  }


  /** The stripped last field of a single-line name: a prefix of that
      field, without a dot, that stripping leaves alone. */
  lemma ShortLastField(last: string) returns (short: string)
    requires NoNewline(last) && !Contains(last, ".")
    ensures short == SubAll(last, DsnSuffixes)
    ensures StartsWith(last, short) && SubAll(short, DsnSuffixes) == short
    ensures !Contains(short, ".")
  {
    short := SubAll(last, DsnSuffixes);
    SuffixesNonEmpty();
    SubAllIdempotent(last, DsnSuffixes);
    PrefixKeepsAbsent(last, ".", |short|);
  }

  /** On a single line, truncating at the suffixes gives a prefix that a
      second truncation leaves alone. */
  lemma SubAllIdempotent(s: string, suffixes: seq<string>)
    requires NoNewline(s)
    requires forall k :: 0 <= k < |suffixes| ==> |suffixes[k]| > 0
    ensures StartsWith(s, SubAll(s, suffixes))
    ensures SubAll(SubAll(s, suffixes), suffixes) == SubAll(s, suffixes)
  {
    SubAllPrefix(s, suffixes);
  }

  /** The fields with the last one replaced by a dotless string split back
      into themselves. */
  lemma PartsSplitBack(fields: seq<string>, short: string)
    requires |fields| >= 1 && forall k :: 0 <= k < |fields| ==> !Contains(fields[k], ".")
    requires !Contains(short, ".")
    ensures Split(Join(fields[..|fields| - 1] + [short], "."), ".") == fields[..|fields| - 1] + [short]
  {
    var n := |fields| - 1;
    var parts := fields[..n] + [short];
    forall k | 0 <= k < |parts|
      ensures !Contains(parts[k], ".")
    {
      if k < n {
        assert parts[k] == fields[k];
      }
    }
    SplitJoin(parts, '.');
  }

  /** The last field of a single line is a single line. */
  lemma LastFieldOfLine(dsn: string, fields: seq<string>)
    requires NoNewline(dsn) && |fields| >= 1 && Join(fields, ".") == dsn
    ensures NoNewline(fields[|fields| - 1])
  {
    JoinEndsWithLast(fields, ".");
    var last := fields[|fields| - 1];
    forall j | 0 <= j < |last|
      ensures last[j] != '\n'
    {
      assert last[j] == dsn[|dsn| - |last| + j];
    }
  }

  /** Replacing the last piece with a prefix of it gives a prefix of the
      joined string. */
  lemma {:induction false} ReplaceLastPiece(fields: seq<string>, short: string)
    requires |fields| >= 1 && StartsWith(fields[|fields| - 1], short)
    ensures StartsWith(Join(fields, "."), Join(fields[..|fields| - 1] + [short], "."))
    decreases |fields|
  {
    var parts := fields[..|fields| - 1] + [short];
    if |fields| == 1 {
      assert parts == [short];
    } else {
      var tail := fields[1..];
      ReplaceLastPiece(tail, short);
      assert parts[0] == fields[0];
      assert parts[1..] == tail[..|tail| - 1] + [short];
      var a := Join(tail, ".");
      var b := Join(parts[1..], ".");
      assert Join(fields, ".") == fields[0] + "." + a;
      assert Join(parts, ".") == fields[0] + "." + b;
      assert (fields[0] + "." + a)[..|fields[0] + "." + b|] == fields[0] + "." + b;
    }
  }

  /** A path made of components. */
  function Path(components: seq<string>): string
  {
    "/" + Join(components, "/")
  }

  /** `re.match('user*|group*', field)` as written: `r*` and `p*` allow zero
      repetitions, so any field starting with "use" or "grou" matches. */
  predicate UserOrGroupAsWritten(field: string)
  {
    StartsWith(field, "use") || StartsWith(field, "grou")
  }

  /** What the pattern evidently means: a field starting with "user" or
      "group". */
  predicate UserOrGroup(field: string)
  {
    StartsWith(field, "user") || StartsWith(field, "group")
  }

  /** The path components of `construct_surl_DQ2` (the `nfields == 0`
      branch is unreachable, `split` never returns an empty list). */
  function Dq2Components(dsn: string, filename: string, isUser: string -> bool): (c: seq<string>)
    ensures |c| >= 3 && c[|c| - 1] == filename && c[|c| - 2] == StripDsn(dsn)
  {
    var fields := Split(dsn, ".");
    var n := |fields|;
    if n == 1 then ["other", StripDsn(dsn), filename]
    else if n == 2 then [fields[0], StripDsn(dsn), filename]
    else if n < 5 || isUser(fields[0]) then [fields[0], fields[1], fields[2], StripDsn(dsn), filename]
    else [fields[0], fields[4], if n == 5 then "other" else StripTag(fields[n - 1]), StripDsn(dsn), filename]
  }

  /** `construct_surl_DQ2(dsn, scope, filename)` as written. */
  function ConstructSurlDq2AsWritten(dsn: string, filename: string): (path: string)
    ensures EndsWith(path, "/" + filename)
  {
    var c := Dq2Components(dsn, filename, UserOrGroupAsWritten);
    PathEndsWithLast(c);
    Path(c)
  }

  /** `construct_surl_DQ2` with the user/group test as evidently intended. */
  function ConstructSurlDq2(dsn: string, filename: string): (path: string)
    ensures EndsWith(path, "/" + filename)
  {
    var c := Dq2Components(dsn, filename, UserOrGroup);
    PathEndsWithLast(c);
    Path(c)
  }

  /** The DQ2 layout, read back from the path: `other` or the project, then
      the second and third fields (short and user names) or the dataset
      type and the stripped tag of the last field (`other` with five
      fields), then the stripped name and the file. */
  predicate Dq2Layout(dsn: string, filename: string, isUser: string -> bool, c: seq<string>)
  {
    var f := Split(dsn, ".");
    var n := |f|;
    (n == 1 ==> c == ["", "other", StripDsn(dsn), filename]) &&
    (n == 2 ==> c == ["", f[0], StripDsn(dsn), filename]) &&
    (n >= 3 && (n < 5 || isUser(f[0])) ==> c == ["", f[0], f[1], f[2], StripDsn(dsn), filename]) &&
    (n == 5 && !isUser(f[0]) ==> c == ["", f[0], f[4], "other", StripDsn(dsn), filename]) &&
    (n >= 6 && !isUser(f[0]) ==> c == ["", f[0], f[4], StripTag(f[n - 1]), StripDsn(dsn), filename])
  }

  /** `construct_surl_DQ2` as written lays out every name without slashes
      as above, with `re.match('user*|group*')` as the user test. */
  lemma ConstructSurlDq2AsWrittenLayout(dsn: string, filename: string)
    requires !Contains(dsn, "/") && !Contains(filename, "/")
    ensures Dq2Layout(dsn, filename, UserOrGroupAsWritten, Split(ConstructSurlDq2AsWritten(dsn, filename), "/"))
  {
    Dq2Splits(dsn, filename, UserOrGroupAsWritten);
  }

  /** The corrected `construct_surl_DQ2` lays out every name without slashes
      as above, with a `user` or `group` prefix as the user test. */
  lemma ConstructSurlDq2Layout(dsn: string, filename: string)
    requires !Contains(dsn, "/") && !Contains(filename, "/")
    ensures Dq2Layout(dsn, filename, UserOrGroup, Split(ConstructSurlDq2(dsn, filename), "/"))
  {
    Dq2Splits(dsn, filename, UserOrGroup);
  }

  /** The DQ2 path splits back into its components. */
  lemma Dq2Splits(dsn: string, filename: string, isUser: string -> bool)
    requires !Contains(dsn, "/") && !Contains(filename, "/")
    ensures var c := Dq2Components(dsn, filename, isUser);
      Dq2Layout(dsn, filename, isUser, Split(Path(c), "/"))
  {
    var c := Dq2Components(dsn, filename, isUser);
    Dq2ComponentsNoSlash(dsn, filename, isUser);
    PathSplits(c);
    LayoutOfComponents(dsn, filename, isUser, [""] + c);
  }

  /** The components with a leading empty piece are the DQ2 layout. */
  lemma LayoutOfComponents(dsn: string, filename: string, isUser: string -> bool, sp: seq<string>)
    requires sp == [""] + Dq2Components(dsn, filename, isUser)
    ensures Dq2Layout(dsn, filename, isUser, sp)
  {
    var c := Dq2Components(dsn, filename, isUser);
    var f := Split(dsn, ".");
    var n := |f|;
    var sd := StripDsn(dsn);
    if n == 1 {
      assert c == ["other", sd, filename];
      Prepend3("", c);
    } else if n == 2 {
      assert c == [f[0], sd, filename];
      Prepend3("", c);
    } else if n < 5 || isUser(f[0]) {
      assert c == [f[0], f[1], f[2], sd, filename];
      Prepend5("", c);
    } else if n == 5 {
      assert c == [f[0], f[4], "other", sd, filename];
      Prepend5("", c);
    } else {
      assert c == [f[0], f[4], StripTag(f[n - 1]), sd, filename];
      Prepend5("", c);
    }
  }

  lemma Prepend3(x: string, c: seq<string>)
    requires |c| == 3
    ensures [x] + c == [x, c[0], c[1], c[2]]
  {
  }

  lemma Prepend5(x: string, c: seq<string>)
    requires |c| == 5
    ensures [x] + c == [x, c[0], c[1], c[2], c[3], c[4]]
  {
  }

  predicate NoSlashes(c: seq<string>)
  {
    forall k :: 0 <= k < |c| ==> !Contains(c[k], "/")
  }

  lemma NoSlashes3(a: string, b: string, d: string)
    requires !Contains(a, "/") && !Contains(b, "/") && !Contains(d, "/")
    ensures NoSlashes([a, b, d])
  {
  }

  lemma NoSlashes5(a: string, b: string, d: string, e: string, g: string)
    requires !Contains(a, "/") && !Contains(b, "/") && !Contains(d, "/")
    requires !Contains(e, "/") && !Contains(g, "/")
    ensures NoSlashes([a, b, d, e, g])
  {
  }

  /** No DQ2 path component of a name without slashes holds a slash. */
  lemma Dq2ComponentsNoSlash(dsn: string, filename: string, isUser: string -> bool)
    requires !Contains(dsn, "/") && !Contains(filename, "/")
    ensures NoSlashes(Dq2Components(dsn, filename, isUser))
  {
    var c := Dq2Components(dsn, filename, isUser);
    var f := Split(dsn, ".");
    var n := |f|;
    var sd := StripDsn(dsn);
    NoSlashInOther();
    StripDsnNoSlash(dsn);
    FieldOfPathless(dsn, f, 0);
    if n == 1 {
      NoSlashes3("other", sd, filename);
    } else if n == 2 {
      NoSlashes3(f[0], sd, filename);
    } else if n < 5 || isUser(f[0]) {
      FieldOfPathless(dsn, f, 1);
      FieldOfPathless(dsn, f, 2);
      NoSlashes5(f[0], f[1], f[2], sd, filename);
    } else if n == 5 {
      FieldOfPathless(dsn, f, 4);
      NoSlashes5(f[0], f[4], "other", sd, filename);
    } else {
      FieldOfPathless(dsn, f, 4);
      FieldOfPathless(dsn, f, n - 1);
      SubAllAbsentChar(f[n - 1], TagSuffixes, '/');
      NoSlashes5(f[0], f[4], StripTag(f[n - 1]), sd, filename);
    }
  }

  /** The path splits back into its components when none of them contains
      a slash. */
  lemma PathSplits(components: seq<string>)
    requires |components| >= 1
    requires forall k :: 0 <= k < |components| ==> !Contains(components[k], "/")
    ensures Split(Path(components), "/") == [""] + components
  {
    assert !Contains("", "/") by {
      assert !OccursAt("", "/", 0);
    }
    SplitCons("", '/', Join(components, "/"));
    assert Path(components) == "" + "/" + Join(components, "/");
    SplitJoin(components, '/');
  }

  /** A dataset with at least six fields whose project starts with "use"
      but not "user", e.g. "used.a.b.c.d.e", is laid out as a user
      dataset as written, and by its dataset type and tag as intended. */
  lemma UsePrefixTakenForUser(fields: seq<string>, filename: string)
    requires |fields| >= 6
    requires forall k :: 0 <= k < |fields| ==> !Contains(fields[k], ".")
    requires UserOrGroupAsWritten(fields[0]) && !UserOrGroup(fields[0])
    ensures var dsn := Join(fields, ".");
      Dq2Components(dsn, filename, UserOrGroupAsWritten)[1] == fields[1] &&
      Dq2Components(dsn, filename, UserOrGroup)[1] == fields[4]
  {
    SplitJoin(fields, '.');
    Dq2Second(Join(fields, "."), filename, UserOrGroupAsWritten);
    Dq2Second(Join(fields, "."), filename, UserOrGroup);
  }

  /** The second path element: the second field of a short or user name,
      the fifth field otherwise. */
  lemma Dq2Second(dsn: string, filename: string, isUser: string -> bool)
    requires |Split(dsn, ".")| >= 5
    ensures var fields := Split(dsn, ".");
      Dq2Components(dsn, filename, isUser)[1] == if isUser(fields[0]) then fields[1] else fields[4]
  {
  }

  /** The example name "used.a.b.c.d.e" meets the conditions above. */
  lemma UsedIsNotUser()
    ensures UserOrGroupAsWritten("used") && !UserOrGroup("used")
  {
    assert "used"[..3] == "use";
    assert "used"[..4] != "user" by {
      assert "used"[3] != "user"[3];
    }
  }

  datatype SurlError = IndexError

  /** `construct_surl_T0(dsn, scope, filename)` as written: with exactly two
      fields it reads `fields[2]`, which raises `IndexError`. */
  function ConstructSurlT0AsWritten(dsn: string, filename: string): (r: Result<string, SurlError>)
    ensures r.Err? <==> |Split(dsn, ".")| == 2
    ensures r.Ok? ==> r.value == ConstructSurlT0(dsn, filename)
  {
    var fields := Split(dsn, ".");
    if |fields| >= 3 then Ok(Path([fields[0], fields[2], fields[1], dsn, filename]))
    else if |fields| == 1 then Ok(Path([fields[0], "other", "other", dsn, filename]))
    else Err(IndexError)
  }

  /** A two-field name such as "data18.physics" raises as written. */
  lemma T0TwoFieldsRaises(project: string, stream: string, filename: string)
    requires !Contains(project, ".") && !Contains(stream, ".")
    ensures ConstructSurlT0AsWritten(project + "." + stream, filename).Err?
  {
    SplitCons(project, '.', stream);
    SplitWithoutSeparator(stream, ".");
  }

  /** `construct_surl_T0` with the two-field case reading the field that
      exists, `fields[1]`, where the other branches put the second path
      element. */
  function ConstructSurlT0(dsn: string, filename: string): (path: string)
    ensures EndsWith(path, "/" + filename)
  {
    var fields := Split(dsn, ".");
    var c :=
      if |fields| >= 3 then [fields[0], fields[2], fields[1], dsn, filename]
      else if |fields| == 1 then [fields[0], "other", "other", dsn, filename]
      else [fields[0], fields[1], "other", dsn, filename];
    PathEndsWithLast(c);
    Path(c)
  }

  /** The T0 layout, read back from the path: the project, then the third
      and second fields (the second and `other` for two fields, `other`
      twice for one), then the whole name and the file. */
  lemma T0Layout(dsn: string, filename: string)
    requires !Contains(dsn, "/") && !Contains(filename, "/")
    ensures var f := Split(dsn, ".");
      var c := Split(ConstructSurlT0(dsn, filename), "/");
      |c| == 6 && c[0] == "" && c[1] == f[0] && c[4] == dsn && c[5] == filename &&
      (|f| >= 3 ==> c[2] == f[2] && c[3] == f[1]) &&
      (|f| == 2 ==> c[2] == f[1] && c[3] == "other") &&
      (|f| == 1 ==> c[2] == "other" && c[3] == "other")
  {
    var comps := T0Components(dsn, filename);
    PathSplits(comps);
  }

  /** The five path components of `ConstructSurlT0`, none with a slash. */
  lemma T0Components(dsn: string, filename: string) returns (comps: seq<string>)
    requires !Contains(dsn, "/") && !Contains(filename, "/")
    ensures ConstructSurlT0(dsn, filename) == Path(comps)
    ensures |comps| == 5 && comps[0] == Split(dsn, ".")[0] && comps[3] == dsn && comps[4] == filename
    ensures var f := Split(dsn, ".");
      comps[1] == (if |f| >= 3 then f[2] else if |f| == 2 then f[1] else "other") &&
      comps[2] == (if |f| >= 3 then f[1] else "other")
    ensures forall k :: 0 <= k < |comps| ==> !Contains(comps[k], "/")
  {
    var fields := Split(dsn, ".");
    var second := if |fields| >= 3 then fields[2] else if |fields| == 2 then fields[1] else "other";
    var third := if |fields| >= 3 then fields[1] else "other";
    comps := [fields[0], second, third, dsn, filename];
    assert ConstructSurlT0(dsn, filename) == Path(comps);
    NoSlashInOther();
    FieldOfPathless(dsn, fields, 0);
    if |fields| >= 2 {
      FieldOfPathless(dsn, fields, 1);
    }
    if |fields| >= 3 {
      FieldOfPathless(dsn, fields, 2);
    }
    assert !Contains(second, "/") && !Contains(third, "/");
    forall k | 0 <= k < 5
      ensures !Contains(comps[k], "/")
    {
      if k == 1 {
        assert comps[k] == second;
      } else if k == 2 {
        assert comps[k] == third;
      }
    }
  }

  lemma NoSlashInOther()
    ensures !Contains("other", "/")
  {
    forall j | 0 <= j < 5
      ensures !OccursAt("other", "/", j)
    {
      assert "other"[j] != '/';
      assert "other"[j..j + 1] != "/" by {
        assert "other"[j..j + 1][0] == "other"[j];
      }
    }
  }

  /** A field of a name without slashes has no slash. */
  lemma FieldOfPathless(dsn: string, fields: seq<string>, k: nat)
    requires !Contains(dsn, "/") && fields == Split(dsn, ".") && k < |fields|
    ensures !Contains(fields[k], "/")
  {
    var i := PieceOccurs(fields, ".", k);
    var f := fields[k];
    if Contains(f, "/") {
      var j := Find(f, "/").value;
      OccursWithin(dsn, f, i, "/", j);
    }
  }

  /** `construct_surl_BelleII(dsn, scope, filename)`: the name is already a
      path (the `nfields == 0` branch is unreachable). */
  function ConstructSurlBelleII(dsn: string, filename: string): (path: string)
    ensures EndsWith(path, "/" + filename) && StartsWith(path, dsn)
  {
    assert (dsn + "/" + filename)[|dsn| + 1..] == filename;
    dsn + "/" + filename
  }

  /** `construct_surl(dsn, scope, filename, naming_convention)` as written,
      over the built-in conventions `T0`, `DQ2` and `BelleII`: a missing or
      unregistered convention falls back to `DQ2`.  It raises only for a
      two-field name under `T0`, and it differs from the corrected dispatcher
      only there and on names whose project starts with "use" or "grou"
      but not "user" or "group". */
  function ConstructSurlAsWritten(dsn: string, filename: string, convention: Option<string>): (r: Result<string, SurlError>)
    ensures r.Err? <==> convention == Some("T0") && |Split(dsn, ".")| == 2
    ensures r.Ok? ==> EndsWith(r.value, "/" + filename)
    ensures var project := Split(dsn, ".")[0];
      r.Ok? && (convention in {Some("T0"), Some("BelleII")} || UserOrGroupAsWritten(project) == UserOrGroup(project)) ==>
        r.value == ConstructSurl(dsn, filename, convention)
  {
    if convention == Some("T0") then ConstructSurlT0AsWritten(dsn, filename)
    else if convention == Some("BelleII") then Ok(ConstructSurlBelleII(dsn, filename))
    else
      Dq2SameTest(dsn, filename);
      Ok(ConstructSurlDq2AsWritten(dsn, filename))
  }

  /** Both user tests give the same DQ2 path when they agree on the
      project. */
  lemma Dq2SameTest(dsn: string, filename: string)
    ensures var project := Split(dsn, ".")[0];
      UserOrGroupAsWritten(project) == UserOrGroup(project) ==>
        ConstructSurlDq2AsWritten(dsn, filename) == ConstructSurlDq2(dsn, filename)
  {
    var project := Split(dsn, ".")[0];
    if UserOrGroupAsWritten(project) == UserOrGroup(project) {
      assert Dq2Components(dsn, filename, UserOrGroupAsWritten) == Dq2Components(dsn, filename, UserOrGroup);
    }
  }

  /** `construct_surl` with the corrected `T0` and `DQ2` conventions: it
      always returns a path, and whatever the convention the file name is
      the last path component. */
  function ConstructSurl(dsn: string, filename: string, convention: Option<string>): (path: string)
    ensures EndsWith(path, "/" + filename)
  {
    if convention == Some("T0") then ConstructSurlT0(dsn, filename)
    else if convention == Some("BelleII") then ConstructSurlBelleII(dsn, filename)
    else ConstructSurlDq2(dsn, filename)
  }

  /** Which convention `construct_surl` applies: `T0` and `BelleII` by
      name, and `DQ2` for a missing or any other convention name, both as
      written and corrected. */
  lemma ConstructSurlDispatch(dsn: string, filename: string, convention: Option<string>)
    ensures convention == Some("T0") ==>
      ConstructSurlAsWritten(dsn, filename, convention) == ConstructSurlT0AsWritten(dsn, filename) &&
      ConstructSurl(dsn, filename, convention) == ConstructSurlT0(dsn, filename)
    ensures convention == Some("BelleII") ==>
      ConstructSurlAsWritten(dsn, filename, convention) == Ok(ConstructSurlBelleII(dsn, filename)) &&
      ConstructSurl(dsn, filename, convention) == ConstructSurlBelleII(dsn, filename)
    ensures convention !in {Some("T0"), Some("BelleII")} ==>
      ConstructSurlAsWritten(dsn, filename, convention) == ConstructSurlAsWritten(dsn, filename, None) &&
      ConstructSurlAsWritten(dsn, filename, convention) == Ok(ConstructSurlDq2AsWritten(dsn, filename)) &&
      ConstructSurl(dsn, filename, convention) == ConstructSurlDq2(dsn, filename)
  {
  }

  /** A path of at least two components ends with a slash and the last one. */
  lemma {:induction false} PathEndsWithLast(c: seq<string>)
    requires |c| >= 2
    ensures EndsWith(Path(c), "/" + c[|c| - 1])
  {
    var last := "/" + c[|c| - 1];
    assert EndsWith(Join(c, "/"), last) by {
      JoinTailEnds(c);
    }
    var j := Join(c, "/");
    assert ("/" + j)[|"/" + j| - |last|..] == j[|j| - |last|..];
  }

  lemma {:induction false} JoinTailEnds(c: seq<string>)
    requires |c| >= 2
    ensures EndsWith(Join(c, "/"), "/" + c[|c| - 1])
    decreases |c|
  {
    var last := "/" + c[|c| - 1];
    var tail := Join(c[1..], "/");
    var s := c[0] + "/" + tail;
    assert Join(c, "/") == s;
    if |c| == 2 {
      assert tail == c[1];
      assert s[|s| - |last|..] == last;
    } else {
      JoinTailEnds(c[1..]);
      assert c[1..][|c| - 2] == c[|c| - 1];
      assert s[|s| - |last|..] == tail[|tail| - |last|..];
    }
  }

  /** A port `:<digits>/` starts `s`; the result is the index of its `/`. */
  function PortAt(s: string): (end: Option<nat>)
    ensures end.Some? ==>
      2 <= end.value < |s| && s[0] == ':' && s[end.value] == '/' && AllDigits(s[1..end.value])
  {
    if s == [] || s[0] != ':' then None
    else
      var k := LeadingDigits(s[1..]);
      if k >= 1 && 1 + k < |s| && s[1 + k] == '/' then
        assert s[1..1 + k] == s[1..][..k];
        Some(1 + k)
      else None
  }

  /** `re.sub(':[0-9]+/', '/', s)`: every port, scanning from the left, is
      replaced by a slash. */
  function SubPort(s: string): (r: string)
    ensures ':' !in s ==> r == s
    ensures |r| <= |s|
    decreases |s|
  {
    if s == [] then []
    else match PortAt(s)
      case Some(end) => "/" + SubPort(s[end + 1..])
      case None => [s[0]] + SubPort(s[1..])
  }

  /** Text without a colon passes through unchanged. */
  lemma {:induction false} SubPortSkips(a: string, t: string)
    requires ':' !in a
    ensures SubPort(a + t) == a + SubPort(t)
  {
    if a != [] {
      var s := a + t;
      assert s[0] == a[0] && s[1..] == a[1..] + t;
      assert PortAt(s).None?;
      assert SubPort(s) == [a[0]] + SubPort(a[1..] + t);
      SubPortSkips(a[1..], t);
      assert a == [a[0]] + a[1..];
    } else {
      assert a + t == t;
    }
  }

  /** A colon not followed by digits and a slash, as in `srm://`, is kept. */
  lemma SubPortKeepsColon(t: string)
    requires t == [] || !IsDigit(t[0])
    ensures SubPort(":" + t) == ":" + SubPort(t)
  {
    assert (":" + t)[1..] == t;
  }

  /** `:8443/` and the like become a single slash. */
  lemma SubPortRemovesPort(digits: string, b: string)
    requires |digits| >= 1 && AllDigits(digits)
    ensures SubPort(":" + digits + "/" + b) == "/" + SubPort(b)
  {
    var s := ":" + digits + "/" + b;
    assert s[1..] == digits + ("/" + b);
    LeadingDigitsOf(digits, "/" + b);
    assert s[1 + |digits|] == '/';
    assert s[|digits| + 2..] == b;
  }

  /** The host and port of an SRM URL lose the port. */
  lemma SrmPortRemoved(host: string, port: string, path: string)
    requires ':' !in host && ':' !in path && |port| >= 1 && AllDigits(port)
    ensures SubPort("srm://" + host + ":" + port + "/" + path) == "srm://" + host + "/" + path
  {
    var x := ":" + port + "/" + path;
    var h := "//" + host;
    SubPortRemovesPort(port, path);
    SubPortSkips(path, []);
    assert path + [] == path;
    SubPortSkips(h, x);
    SubPortKeepsColon(h + x);
    SubPortSkips("srm", ":" + (h + x));
    SrmRegrouped(host, port, path);
  }

  lemma SrmRegrouped(host: string, port: string, path: string)
    ensures "srm://" + host + ":" + port + "/" + path == "srm" + (":" + (("//" + host) + (":" + port + "/" + path)))
    ensures "srm" + (":" + (("//" + host) + ("/" + path))) == "srm://" + host + "/" + path
  {
  }

  /** The SRM endpoint prefixes `clean_surls` deletes. */
  const SrmEndpoints: seq<string> :=
    ["/srm/managerv1?SFN=", "/srm/v2/server?SFN=", "/srm/managerv2?SFN="]

  /** `s.split(marker)[0]` when `marker in s`. */
  function CutAt(s: string, marker: string): (r: string)
    requires |marker| > 0
    ensures StartsWith(s, r) && !Contains(r, marker)
    ensures !Contains(s, marker) ==> r == s
  {
    if Contains(s, marker) then
      var parts := Split(s, marker);
      JoinPrefix(parts, marker, 1);
      assert parts[..1] == [parts[0]];
      parts[0]
    else s
  }

  /** The cleaning of one SURL in `clean_surls`. */
  function CleanSurl(surl: string): (r: string)
    ensures !Contains(r, "?GoogleAccessId") && !Contains(r, "?X-Amz")
  {
    var s := if StartsWith(surl, "srm") then
      RemoveAll(RemoveAll(RemoveAll(SubPort(surl), SrmEndpoints[0]), SrmEndpoints[1]), SrmEndpoints[2])
    else surl;
    var g := CutAt(s, "?GoogleAccessId");
    var r := CutAt(g, "?X-Amz");
    PrefixKeepsAbsent(g, "?GoogleAccessId", |r|);
    r
  }

  /** A URL of another protocol without signature parameters is kept. */
  lemma PlainSurlKept(surl: string)
    requires !StartsWith(surl, "srm")
    requires !Contains(surl, "?GoogleAccessId") && !Contains(surl, "?X-Amz")
    ensures CleanSurl(surl) == surl
  {
  }

  /** A signed URL loses its query string from the signature parameter on. */
  lemma SignedSurlCut(base: string, query: string)
    requires '?' !in base && '?' !in query
    requires |base| >= 3 && base[..3] != "srm"
    ensures CleanSurl(base + "?X-Amz" + query) == base
  {
    var s := base + "?X-Amz" + query;
    assert !StartsWith(s, "srm") by {
      assert s[..3] == base[..3];
    }
    OnlyQuestionMark(base, query);
    NoGoogleMarker(base, query);
    AmzMarkerAt(base, query);
    assert s[..|base|] == base;
  }

  lemma NoGoogleMarker(base: string, query: string)
    requires var s := base + "?X-Amz" + query;
      forall j :: 0 <= j < |s| && s[j] == '?' ==> j == |base|
    ensures !Contains(base + "?X-Amz" + query, "?GoogleAccessId")
  {
    var s := base + "?X-Amz" + query;
    forall j | 0 <= j && j + 15 <= |s|
      ensures !OccursAt(s, "?GoogleAccessId", j)
    {
      if s[j] == '?' {
        assert s[j + 1] == 'X' && s[j..j + 15][1] == s[j + 1];
      } else {
        assert s[j..j + 15][0] == s[j];
      }
    }
  }

  lemma AmzMarkerAt(base: string, query: string)
    requires var s := base + "?X-Amz" + query;
      forall j :: 0 <= j < |s| && s[j] == '?' ==> j == |base|
    ensures Find(base + "?X-Amz" + query, "?X-Amz") == Some(|base|)
  {
    var s := base + "?X-Amz" + query;
    assert OccursAt(s, "?X-Amz", |base|) by {
      assert s[|base|..|base| + 6] == "?X-Amz";
    }
    var i := Find(s, "?X-Amz").value;
    assert s[i..i + 6] == "?X-Amz";
    assert s[i] == '?';
  }

  /** The only question mark is the one that starts the signature. */
  lemma OnlyQuestionMark(base: string, query: string)
    requires '?' !in base && '?' !in query
    ensures var s := base + "?X-Amz" + query;
      forall j :: 0 <= j < |s| && s[j] == '?' ==> j == |base|
  {
    var s := base + "?X-Amz" + query;
    forall j | 0 <= j < |s| && s[j] == '?'
      ensures j == |base|
    {
      if |base| <= j < |base| + 6 {
        assert s[j] == "?X-Amz"[j - |base|];
      }
    }
  }

  /** Every SURL cleaned, in the input order. */
  function CleanedAll(surls: seq<string>): seq<string>
  {
    if surls == [] then [] else CleanedAll(surls[..|surls| - 1]) + [CleanSurl(surls[|surls| - 1])]
  }

  /** `clean_surls(surls)`: every SURL cleaned, then sorted. */
  method CleanSurls(surls: seq<string>) returns (res: seq<string>)
    ensures Sorted(res) && multiset(res) == multiset(CleanedAll(surls))
  {
    var cleaned := [];
    var i := 0;
    while i < |surls|
      invariant 0 <= i <= |surls|
      invariant cleaned == CleanedAll(surls[..i])
    {
      assert surls[..i + 1][..i] == surls[..i];
      cleaned := cleaned + [CleanSurl(surls[i])];
      i := i + 1;
    }
    assert surls[..i] == surls;
    res := Sort(cleaned);
  }

  /** The result is fully determined: any sorted arrangement of the cleaned
      SURLs is the one `clean_surls` returns. */
  lemma CleanSurlsDetermined(surls: seq<string>, res: seq<string>, other: seq<string>)
    requires Sorted(res) && multiset(res) == multiset(CleanedAll(surls))
    requires Sorted(other) && multiset(other) == multiset(CleanedAll(surls))
    ensures res == other
  {
    SortedUnique(res, other);
  }
}
