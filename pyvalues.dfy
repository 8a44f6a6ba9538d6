/** The Python values that reach the cache-key generators: `None`,
    booleans, integers and strings, with `str()` and truthiness. */
module PyValues {
  import opened Text

  datatype PyValue = PyNone | PyBool(b: bool) | PyInt(i: int) | PyStr(s: string)

  /** `str(v)`. */
  function Str(v: PyValue): (r: string)
    ensures v.PyStr? ==> r == v.s
    ensures v.PyInt? ==> r == IntToString(v.i)
  {
    match v
    case PyNone => "None"
    case PyBool(b) => if b then "True" else "False"
    case PyInt(i) => IntToString(i)
    case PyStr(s) => s
  }

  /** `bool(v)`: `None`, `False`, `0` and `''` are false. */
  predicate Truthy(v: PyValue)
  {
    match v
    case PyNone => false
    case PyBool(b) => b
    case PyInt(i) => i != 0
    case PyStr(s) => s != ""
  }

  /** `[str(v) for v in vs]`. */
  function Strs(vs: seq<PyValue>): (r: seq<string>)
    ensures |r| == |vs| && forall k :: 0 <= k < |vs| ==> r[k] == Str(vs[k])
  {
    if vs == [] then [] else [Str(vs[0])] + Strs(vs[1..])
  }

  lemma StrsAppend(a: seq<PyValue>, b: seq<PyValue>)
    ensures Strs(a + b) == Strs(a) + Strs(b)
  {
  }

  /** `list(filter(None, vs))`: the truthy values, in order. */
  function Truthies(vs: seq<PyValue>): (r: seq<PyValue>)
    ensures |r| <= |vs|
    ensures forall k :: 0 <= k < |r| ==> Truthy(r[k])
  {
    if vs == [] then []
    else (if Truthy(vs[0]) then [vs[0]] else []) + Truthies(vs[1..])
  }

  lemma {:induction false} TruthiesAppend(a: seq<PyValue>, b: seq<PyValue>)
    ensures Truthies(a + b) == Truthies(a) + Truthies(b)
  {
    if a != [] {
      assert (a + b)[1..] == a[1..] + b;
      TruthiesAppend(a[1..], b);
    } else {
      assert a + b == b;
    }
  }
}
