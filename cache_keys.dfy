/** `rucio.common.cache.ignore_arguments_key_generator`: the cache key of a
    call of the function `fname` cached with `namespace`, built
    from the positional arguments and the values of those keyword
    arguments whose names are not in `ignore`. */
module CacheKeys {
  import opened Wrappers
  import opened Text
  import opened PyValues
  import opened Sequences

  /** A keyword argument of the call, in call order. */
  datatype Kwarg = Kwarg(name: string, value: PyValue)

  /** `[kwargs[k] for k in kwargs if k not in ignore_arguments]`. */
  function KeptValues(kwargs: seq<Kwarg>, ignore: seq<string>): (r: seq<PyValue>)
    ensures |r| <= |kwargs|
    ensures forall k :: 0 <= k < |kwargs| && kwargs[k].name !in ignore ==> kwargs[k].value in r
  {
    if kwargs == [] then []
    else (if kwargs[0].name in ignore then [] else [kwargs[0].value]) + KeptValues(kwargs[1..], ignore)
  }

  lemma {:induction false} KeptValuesAppend(a: seq<Kwarg>, b: seq<Kwarg>, ignore: seq<string>)
    ensures KeptValues(a + b, ignore) == KeptValues(a, ignore) + KeptValues(b, ignore)
  {
    if a == [] {
      assert a + b == b;
    } else {
      assert (a + b)[1..] == a[1..] + b;
      KeptValuesAppend(a[1..], b, ignore);
    }
  }

  /** The `namespace` argument given to `cache_on_arguments` when the
      function was cached, `None` when none was given. */
  predicate NamespaceTruthy(namespace: Option<string>)
  {
    namespace.Some? && namespace.value != ""
  }

  /** The argument part of the key: `"_".join(str(s) for s in chain(args, values_to_use))`. */
  function ArgumentText(ignore: seq<string>, args: seq<PyValue>, kwargs: seq<Kwarg>): string
  {
    Join(Strs(args + KeptValues(kwargs, ignore)), "_")
  }

  /** `generate_key` as written: the conditional expression binds looser
      than `+`, so a truthy namespace yields `namespace + "_"` alone. */
  function GenerateKeyAsWritten(namespace: Option<string>, ignore: seq<string>, fname: string,
                                args: seq<PyValue>, kwargs: seq<Kwarg>): (key: string)
    ensures NamespaceTruthy(namespace) ==> key == namespace.value + "_"
    ensures !NamespaceTruthy(namespace) ==> key == GenerateKey(namespace, ignore, fname, args, kwargs)
  {
    if NamespaceTruthy(namespace) then namespace.value + "_"
    else "" + fname + "_" + ArgumentText(ignore, args, kwargs)
  }

  /** As written, every call of every function cached with the same
      namespace shares one cache key. */
  lemma AsWrittenIgnoresCall(namespace: Option<string>, ignore: seq<string>,
                             fname1: string, args1: seq<PyValue>, kwargs1: seq<Kwarg>,
                             fname2: string, args2: seq<PyValue>, kwargs2: seq<Kwarg>)
    requires NamespaceTruthy(namespace)
    ensures GenerateKeyAsWritten(namespace, ignore, fname1, args1, kwargs1)
         == GenerateKeyAsWritten(namespace, ignore, fname2, args2, kwargs2)
  {
  }

  /** A concrete collision: `f("a")` and `g("b")`, both cached with the
      namespace "rucio", get the
      same key as written, and different keys once the namespace is a
      prefix of the key. */
  lemma NamespaceSwallowsKey()
    ensures GenerateKeyAsWritten(Some("rucio"), [], "f", [PyStr("a")], [])
         == GenerateKeyAsWritten(Some("rucio"), [], "g", [PyStr("b")], [])
    ensures GenerateKey(Some("rucio"), [], "f", [PyStr("a")], [])
         != GenerateKey(Some("rucio"), [], "g", [PyStr("b")], [])
  {
    assert GenerateKey(Some("rucio"), [], "f", [PyStr("a")], []) == "rucio_f_a";
    assert GenerateKey(Some("rucio"), [], "g", [PyStr("b")], [])[6] == 'g';
  }

  /** What the key prefix evidently should be: the namespace and `_` when
      there is a namespace, nothing otherwise. */
  function Prefix(namespace: Option<string>): (p: string)
    ensures NamespaceTruthy(namespace) <==> p != ""
  {
    if NamespaceTruthy(namespace) then namespace.value + "_" else ""
  }

  /** `generate_key` with the conditional parenthesised as intended. */
  function GenerateKey(namespace: Option<string>, ignore: seq<string>, fname: string,
                       args: seq<PyValue>, kwargs: seq<Kwarg>): (key: string)
    ensures StartsWith(key, Prefix(namespace) + fname + "_")
  {
    Prefix(namespace) + fname + "_" + ArgumentText(ignore, args, kwargs)
  }

  /** A keyword argument named in `ignore` never affects the key, wherever
      it appears among the keyword arguments and whatever its value. */
  lemma IgnoredKwargIrrelevant(namespace: Option<string>, ignore: seq<string>, fname: string,
                               args: seq<PyValue>, before: seq<Kwarg>, kw: Kwarg, after: seq<Kwarg>)
    requires kw.name in ignore
    ensures GenerateKey(namespace, ignore, fname, args, before + [kw] + after)
         == GenerateKey(namespace, ignore, fname, args, before + after)
    ensures GenerateKeyAsWritten(namespace, ignore, fname, args, before + [kw] + after)
         == GenerateKeyAsWritten(namespace, ignore, fname, args, before + after)
  {
    DropIgnored(ignore, before, kw, after);
  }

  lemma DropIgnored(ignore: seq<string>, before: seq<Kwarg>, kw: Kwarg, after: seq<Kwarg>)
    requires kw.name in ignore
    ensures KeptValues(before + [kw] + after, ignore) == KeptValues(before + after, ignore)
  {
    KeptValuesAppend(before + [kw], after, ignore);
    KeptValuesAppend(before, [kw], ignore);
    KeptValuesAppend(before, after, ignore);
    assert KeptValues([kw], ignore) == [];
    ConcatEmpty(KeptValues(before, ignore));
  }

  /** Keyword names never enter the key: two calls whose keyword arguments
      keep the same values in the same order get the same key. */
  lemma {:induction false} OnlyKeptValuesMatter(ignore: seq<string>, kwargs1: seq<Kwarg>, kwargs2: seq<Kwarg>)
    requires |kwargs1| == |kwargs2|
    requires forall k :: 0 <= k < |kwargs1| ==>
      (kwargs1[k].name in ignore <==> kwargs2[k].name in ignore) &&
      (kwargs1[k].name !in ignore ==> kwargs1[k].value == kwargs2[k].value)
    ensures KeptValues(kwargs1, ignore) == KeptValues(kwargs2, ignore)
  {
    if kwargs1 != [] {
      OnlyKeptValuesMatter(ignore, kwargs1[1..], kwargs2[1..]);
    }
  }

  /** Without a namespace, the key splits at `_` into the function name and
      `str` of each positional argument followed by each kept keyword
      value, provided none of them contains `_`. */
  lemma KeySplitsIntoArguments(namespace: Option<string>, ignore: seq<string>, fname: string,
                               args: seq<PyValue>, kwargs: seq<Kwarg>)
    requires !NamespaceTruthy(namespace)
    requires !Contains(fname, "_")
    requires |args + KeptValues(kwargs, ignore)| >= 1
    requires forall v :: v in args + KeptValues(kwargs, ignore) ==> !Contains(Str(v), "_")
    ensures Split(GenerateKey(namespace, ignore, fname, args, kwargs), "_")
         == [fname] + Strs(args + KeptValues(kwargs, ignore))
  {
    var vs := args + KeptValues(kwargs, ignore);
    forall k | 0 <= k < |Strs(vs)|
      ensures !Contains(Strs(vs)[k], "_")
    {
      assert vs[k] in vs;
    }
    SplitAfterName(fname, Strs(vs));
    KeyWithoutNamespace(namespace, ignore, fname, args, kwargs);
  }

  lemma KeyWithoutNamespace(namespace: Option<string>, ignore: seq<string>, fname: string,
                            args: seq<PyValue>, kwargs: seq<Kwarg>)
    requires !NamespaceTruthy(namespace)
    ensures GenerateKey(namespace, ignore, fname, args, kwargs)
         == fname + "_" + Join(Strs(args + KeptValues(kwargs, ignore)), "_")
  {
  }

  lemma SplitAfterName(fname: string, strs: seq<string>)
    requires !Contains(fname, "_") && |strs| >= 1
    requires forall k :: 0 <= k < |strs| ==> !Contains(strs[k], "_")
    ensures Split(fname + "_" + Join(strs, "_"), "_") == [fname] + strs
  {
    var parts := [fname] + strs;
    assert parts[1..] == strs;
    forall k | 0 <= k < |parts|
      ensures !Contains(parts[k], ['_'])
    {
      if k > 0 {
        assert parts[k] == strs[k - 1];
      }
    }
    SplitJoin(parts, '_');
  }
}
