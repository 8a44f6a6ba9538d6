/** The scope-extraction algorithms of `rucio.common.utils`: split a data
    identifier into its scope and name under the ATLAS and the DIRAC
    conventions.  The `scopes` argument both take is unused by them and is
    left out. */
module Scopes {
  import opened Wrappers
  import opened Text
  import opened Sequences

  datatype ScopeError =
    | TooManyColons   // RucioException('Too many colons. ...')
    | NoSecondElement // IndexError on `elem[1]`

  /** `name[:-1]` when the name ends with a slash. */
  function DropTrailingSlash(name: string): (r: string)
    ensures r == name || (EndsWith(name, "/") && r + "/" == name)
  {
    if EndsWith(name, "/") then name[..|name| - 1] else name
  }

  predicate IsUserOrGroup(did: string)
  {
    StartsWith(did, "user") || StartsWith(did, "group")
  }

  /** `extract_scope_atlas(did, scopes)`. */
  function ExtractScopeAtlas(did: string): (r: Result<(string, string), ScopeError>)
    ensures r.Err? <==> |Split(did, ":")| > 2
    ensures r.Ok? && Contains(did, ":") ==>
      r.value == (Split(did, ":")[0], DropTrailingSlash(Split(did, ":")[1])) &&
      (did == r.value.0 + ":" + r.value.1 || did == r.value.0 + ":" + r.value.1 + "/")
    ensures r.Ok? && !Contains(did, ":") ==>
      StartsWith(did, r.value.0) && r.value.1 == DropTrailingSlash(did)
    ensures r.Ok? && !Contains(did, ":") && !IsUserOrGroup(did) ==> r.value.0 == Split(did, ".")[0]
    ensures var fields := Split(did, ".");
      r.Ok? && !Contains(did, ":") && IsUserOrGroup(did) ==>
        r.value.0 == Join(fields[..if |fields| >= 2 then 2 else 1], ".")
  {
    if Contains(did, ":") then
      var parts := Split(did, ":");
      if |parts| > 2 then Err(TooManyColons)
      else if |parts| == 1 then
        // `find` found a colon, so `split` cannot return a single piece.
        assert false; Err(TooManyColons)
      else
        assert did == parts[0] + ":" + parts[1] by {
          assert parts[1..] == [parts[1]];
        }
        Ok((parts[0], DropTrailingSlash(parts[1])))
    else
      var parts := Split(did, ".");
      var scope := if IsUserOrGroup(did) then Join(parts[..if |parts| >= 2 then 2 else 1], ".") else parts[0];
      JoinPrefix(parts, ".", if IsUserOrGroup(did) && |parts| >= 2 then 2 else 1);
      assert parts[..1] == [parts[0]];
      Ok((scope, DropTrailingSlash(did)))
  }

  /** `scope:name` splits back into the scope and the name. */
  lemma AtlasScopeOfQualifiedName(scope: string, name: string)
    requires !Contains(scope, ":") && !Contains(name, ":") && !EndsWith(name, "/")
    ensures ExtractScopeAtlas(scope + ":" + name) == Ok((scope, name))
  {
    SplitJoin([scope, name], ':');
    var did := scope + ":" + name;
    assert Join([scope, name], ":") == did by {
      assert [scope, name][1..] == [name];
    }
    assert OccursAt(did, ":", |scope|) by {
      assert did[|scope|..|scope| + 1] == ":";
    }
    ContainsAt(did, ":", |scope|);
  }

  /** More than one colon is an error. */
  lemma AtlasRejectsTwoColons(a: string, b: string, c: string)
    requires !Contains(a, ":") && !Contains(b, ":")
    ensures ExtractScopeAtlas(a + ":" + b + ":" + c).Err?
  {
    var did := a + ":" + b + ":" + c;
    SplitCons(a, ':', b + ":" + c);
    SplitCons(b, ':', c);
    ConcatAssoc(a + ":" + b, ":", c);
    ConcatAssoc(a + ":", b, ":" + c);
    ConcatAssoc(b, ":", c);
    assert OccursAt(did, ":", |a|) by {
      assert did[|a|..|a| + 1] == ":";
    }
    ContainsAt(did, ":", |a|);
  }

  /** Without a colon, a `user.` or `group.` identifier's scope is its first
      two dot-separated fields. */
  lemma AtlasUserScope(account: string, name: string, rest: string)
    requires StartsWith(account, "user") || StartsWith(account, "group")
    requires !Contains(account, ".") && !Contains(name, ".")
    requires !Contains(account + "." + name + "." + rest, ":")
    ensures ExtractScopeAtlas(account + "." + name + "." + rest).Ok?
    ensures ExtractScopeAtlas(account + "." + name + "." + rest).value.0 == account + "." + name
  {
    var did := account + "." + name + "." + rest;
    FirstTwoFields(account, name, rest);
    assert IsUserOrGroup(did) by {
      if StartsWith(account, "user") {
        assert did[..4] == account[..4];
      } else {
        assert did[..5] == account[..5];
      }
    }
  }

  lemma FirstTwoFields(account: string, name: string, rest: string)
    requires !Contains(account, ".") && !Contains(name, ".")
    ensures var parts := Split(account + "." + name + "." + rest, ".");
      |parts| >= 2 && Join(parts[..2], ".") == account + "." + name
  {
    SplitCons(account, '.', name + "." + rest);
    SplitCons(name, '.', rest);
    ConcatAssoc(account + "." + name, ".", rest);
    ConcatAssoc(account + ".", name, "." + rest);
    ConcatAssoc(name, ".", rest);
    var parts := Split(account + "." + name + "." + rest, ".");
    assert parts[..2] == [account, name];
    assert [account, name][1..] == [name];
  }

  /** `extract_scope_dirac(did, scopes)`: the third `/`-separated element
      of the path without trailing slashes, or the second when there are
      only two; a path without any slash has no second element. */
  function ExtractScopeDirac(did: string): (r: Result<(string, string), ScopeError>)
    ensures r.Ok? ==> r.value.1 == did && !Contains(r.value.0, "/")
    ensures r.Err? <==> |Split(RStrip(did, '/'), "/")| < 2
  {
    var elem := Split(RStrip(did, '/'), "/");
    if |elem| > 2 then Ok((elem[2], did))
    else if |elem| == 2 then Ok((elem[1], did))
    else Err(NoSecondElement)
  }

  /** An absolute path `/vo/scope...`, with any number of trailing slashes,
      has the scope `scope`. */
  lemma DiracScopeOfPath(vo: string, scope: string, tail: string, slashes: string)
    requires !Contains(vo, "/") && !Contains(scope, "/")
    requires tail == "" || StartsWith(tail, "/")
    requires var path := "/" + vo + "/" + scope + tail; path[|path| - 1] != '/'
    requires forall i :: 0 <= i < |slashes| ==> slashes[i] == '/'
    ensures var did := "/" + vo + "/" + scope + tail + slashes;
      ExtractScopeDirac(did) == Ok((scope, did))
  {
    var path := "/" + vo + "/" + scope + tail;
    RStripTrailing(path, slashes, '/');
    ThirdField(vo, scope, tail);
  }

  /** A path `/vo`, with any number of trailing slashes, has only the VO
      name as its second element, and that name is the scope. */
  lemma DiracScopeOfVo(vo: string, slashes: string)
    requires vo != "" && !Contains(vo, "/")
    requires forall i :: 0 <= i < |slashes| ==> slashes[i] == '/'
    ensures var did := "/" + vo + slashes;
      ExtractScopeDirac(did) == Ok((vo, did))
  {
    var path := "/" + vo;
    assert path[|path| - 1] != '/' by {
      if vo[|vo| - 1] == '/' {
        assert OccursAt(vo, "/", |vo| - 1);
        ContainsAt(vo, "/", |vo| - 1);
      }
    }
    RStripTrailing(path, slashes, '/');
    assert !Contains("", "/") by {
      assert !OccursAt("", "/", 0);
    }
    SplitCons("", '/', vo);
    EmptyConcat("/");
    SplitWithoutSeparator(vo, "/");
  }

  /** Stripping `c` from the right removes exactly a trailing run of `c`
      after a text that does not end with `c`. */
  lemma {:induction false} RStripTrailing(s: string, t: string, c: char)
    requires |s| > 0 && s[|s| - 1] != c
    requires forall i :: 0 <= i < |t| ==> t[i] == c
    ensures RStrip(s + t, c) == s
    decreases |t|
  {
    if t == [] {
      assert s + t == s;
    } else {
      var u := s + t;
      assert u[..|u| - 1] == s + t[..|t| - 1];
      RStripTrailing(s, t[..|t| - 1], c);
    }
  }

  lemma ThirdField(vo: string, scope: string, tail: string)
    requires !Contains(vo, "/") && !Contains(scope, "/")
    requires tail == "" || StartsWith(tail, "/")
    ensures var elem := Split("/" + vo + "/" + scope + tail, "/");
      |elem| > 2 && elem[2] == scope
  {
    var x := scope + tail;
    FirstField(scope, tail);
    assert !Contains("", "/") by {
      assert !OccursAt("", "/", 0);
    }
    SplitCons("", '/', vo + "/" + x);
    SplitCons(vo, '/', x);
    ConcatAssoc("/" + vo + "/", scope, tail);
    ConcatAssoc("/" + vo, "/", x);
    ConcatAssoc("/", vo, "/" + x);
    ConcatAssoc(vo, "/", x);
    EmptyConcat("/");
  }

  lemma FirstField(scope: string, tail: string)
    requires !Contains(scope, "/")
    requires tail == "" || StartsWith(tail, "/")
    ensures Split(scope + tail, "/")[0] == scope
  {
    if tail == "" {
      assert scope + tail == scope;
      SplitWithoutSeparator(scope, "/");
    } else {
      var rest := tail[1..];
      assert tail[0] == '/' by {
        assert tail[..1] == "/";
      }
      ConsFirst(tail);
      ConcatAssoc(scope, "/", rest);
      SplitCons(scope, '/', rest);
    }
  }
}
