/** `rucio.common.utils.my_key_generator`: the older dogpile key generator,
    which keeps only the truthy positional arguments and ignores keyword
    arguments altogether. */
module KeyGenerators {
  import opened Wrappers
  import opened Text
  import opened PyValues

  /** The key for a call of `fname` with positional arguments `args`;
      `None` when the namespace is `None`, where `namespace + "_"` raises
      a `TypeError`. */
  function MyKey(namespace: Option<string>, fname: string, args: seq<PyValue>): (key: Option<string>)
    ensures key.Some? <==> namespace.Some?
    ensures key.Some? ==> StartsWith(key.value, namespace.value + "_" + fname)
  {
    match namespace
    case None => None
    case Some(ns) => Some(ns + "_" + fname + Join(Strs(Truthies(args)), "_"))
  }

  /** A falsy argument (`None`, `False`, `0`, `''`) never affects the key,
      wherever it appears. */
  lemma FalsyArgumentIgnored(namespace: Option<string>, fname: string,
                             before: seq<PyValue>, v: PyValue, after: seq<PyValue>)
    requires !Truthy(v)
    ensures MyKey(namespace, fname, before + [v] + after) == MyKey(namespace, fname, before + after)
  {
    TruthiesAppend(before + [v], after);
    TruthiesAppend(before, [v]);
    TruthiesAppend(before, after);
    assert Truthies([v]) == [];
    assert Truthies(before + [v] + after) == Truthies(before + after);
  }

  /** The key of a call with the truthy arguments `args`, none of which
      contains `_`, splits back at `_` into the function name run together
      with the first argument, followed by the other arguments. */
  lemma KeySplitsIntoArguments(ns: string, fname: string, args: seq<PyValue>)
    requires |args| >= 1
    requires forall k :: 0 <= k < |args| ==> Truthy(args[k]) && !Contains(Str(args[k]), "_")
    requires !Contains(ns, "_") && !Contains(fname, "_")
    ensures Split(MyKey(Some(ns), fname, args).value, "_")
         == [ns, fname + Str(args[0])] + Strs(args[1..])
  {
    KeyAsJoin(ns, fname, args);
    PartsWithoutSeparator(ns, fname, args);
    SplitJoin([ns, fname + Str(args[0])] + Strs(args[1..]), '_');
  }

  /** With every argument truthy, the key joins the namespace, the function
      name run together with the first argument, and the other arguments. */
  lemma KeyAsJoin(ns: string, fname: string, args: seq<PyValue>)
    requires |args| >= 1
    requires forall k :: 0 <= k < |args| ==> Truthy(args[k])
    ensures MyKey(Some(ns), fname, args).value
         == Join([ns, fname + Str(args[0])] + Strs(args[1..]), "_")
  {
    AllTruthy(args);
    var strs := Strs(args);
    assert strs[1..] == Strs(args[1..]);
    var tail := [fname + strs[0]] + strs[1..];
    JoinPrefixHead(fname, strs, "_");
    JoinCons(ns, tail, "_");
    assert [ns] + tail == [ns, fname + Str(args[0])] + Strs(args[1..]);
  }

  lemma PartsWithoutSeparator(ns: string, fname: string, args: seq<PyValue>)
    requires |args| >= 1
    requires forall k :: 0 <= k < |args| ==> !Contains(Str(args[k]), "_")
    requires !Contains(ns, "_") && !Contains(fname, "_")
    ensures var parts := [ns, fname + Str(args[0])] + Strs(args[1..]);
      forall k :: 0 <= k < |parts| ==> !Contains(parts[k], ['_'])
  {
    var parts := [ns, fname + Str(args[0])] + Strs(args[1..]);
    forall k | 0 <= k < |parts|
      ensures !Contains(parts[k], ['_'])
    {
      if k == 1 {
        NoSeparatorInConcat(fname, Str(args[0]), '_');
      } else if k > 1 {
        assert parts[k] == Str(args[k - 1]);
      }
    }
  }

  lemma {:induction false} AllTruthy(args: seq<PyValue>)
    requires forall k :: 0 <= k < |args| ==> Truthy(args[k])
    ensures Truthies(args) == args
  {
    if args != [] {
      AllTruthy(args[1..]);
    }
  }

  /** Two strings without the character `c` do not contain it joined. */
  lemma NoSeparatorInConcat(a: string, b: string, c: char)
    requires !Contains(a, [c]) && !Contains(b, [c])
    ensures !Contains(a + b, [c])
  {
    if Contains(a + b, [c]) {
      var j := Find(a + b, [c]).value;
      if j < |a| {
        assert a[j..j + 1] == [c];
        ContainsAt(a, [c], j);
      } else {
        assert b[j - |a|..j - |a| + 1] == [c];
        ContainsAt(b, [c], j - |a|);
      }
    }
  }

  /** Because no `_` separates the function name from the first argument,
      `f1()` and `f("1")` share a key, and so do `f(0)` and `f()`. */
  lemma NameRunsIntoArguments()
    ensures MyKey(Some("rucio"), "f1", []) == MyKey(Some("rucio"), "f", [PyStr("1")])
    ensures MyKey(Some("rucio"), "f", [PyInt(0)]) == MyKey(Some("rucio"), "f", [])
  {
    assert Strs(Truthies([PyStr("1")])) == ["1"];
    assert MyKey(Some("rucio"), "f", [PyStr("1")]).value == "rucio_f1";
    assert MyKey(Some("rucio"), "f1", []).value == "rucio_f1";
    assert Truthies([PyInt(0)]) == [];
  }
}
