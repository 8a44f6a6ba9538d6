/** `rucio.common.utils.Availability`: the read/write/delete availability
    of a storage element, stored in the database as the three low bits of
    an integer (read = 4, write = 2, delete = 1).  A `None` field means
    "not given" and counts as available when converted to an integer. */
module Availabilities {
  import opened Wrappers

  datatype Availability = Availability(read: Option<bool>, write: Option<bool>, delete: Option<bool>)

  /** Bit `k` of `n` as Python computes it: `(n >> k) % 2 == 1`.  For a
      positive divisor Dafny's `/` and `%` agree with Python's floor
      division and modulo, also on negative `n`. */
  function Bit(n: int, k: nat): bool
  {
    (n / Pow2(k)) % 2 == 1
  }

  function Pow2(k: nat): (r: nat)
    ensures r >= 1
  {
    if k == 0 then 1 else 2 * Pow2(k - 1)
  }

  /** `Availability.from_integer(n)`; `None` for `n` is Python's `None`. */
  function FromInteger(n: Option<int>): (a: Availability)
    ensures n.None? ==> a == Availability(None, None, None)
    ensures n.Some? ==> a.read.Some? && a.write.Some? && a.delete.Some?
  {
    match n
    case None => Availability(None, None, None)
    case Some(v) => Availability(Some(Bit(v, 2)), Some(Bit(v, 1)), Some(Bit(v, 0)))
  }

  /** A field as a bit: `None` counts as `True`. */
  function Flag(b: Option<bool>): nat
  {
    if b == Some(false) then 0 else 1
  }

  /** The `integer` property. */
  function Integer(a: Availability): (n: nat)
    ensures n < 8
  {
    Flag(a.read) * 4 + Flag(a.write) * 2 + Flag(a.delete)
  }

  /** Every integer in [0, 8) survives `from_integer` followed by `integer`;
      more generally the round trip keeps the three low bits. */
  lemma IntegerOfFromInteger(n: int)
    ensures Integer(FromInteger(Some(n))) == n % 8
  {
    var r := n % 8;
    assert n == 8 * (n / 8) + r;
    assert n / 4 == 2 * (n / 8) + r / 4;
    assert n / 2 == 4 * (n / 8) + r / 2;
    assert (n / 4) % 2 == (r / 4) % 2;
    assert (n / 2) % 2 == (r / 2) % 2;
    assert n % 2 == r % 2;
  }

  lemma IntegerOfFromIntegerSmall(n: int)
    requires 0 <= n < 8
    ensures Integer(FromInteger(Some(n))) == n
  {
    IntegerOfFromInteger(n);
  }

  /** A fully specified availability survives `integer` followed by
      `from_integer`. */
  lemma FromIntegerOfInteger(a: Availability)
    requires a.read.Some? && a.write.Some? && a.delete.Some?
    ensures FromInteger(Some(Integer(a))) == a
  {
    var n := Integer(a);
    var r, w, d := Flag(a.read), Flag(a.write), Flag(a.delete);
    assert n / 4 == r && n / 2 == 2 * r + w && n % 2 == d;
    assert Pow2(2) == 4 && Pow2(1) == 2 && Pow2(0) == 1;
    assert Bit(n, 2) == (r == 1) == a.read.value;
    assert Bit(n, 1) == (w == 1) == a.write.value;
    assert Bit(n, 0) == (d == 1) == a.delete.value;
  }

  /** `None` fields count as available: `Availability().integer == 7`, and
      `from_integer(None)` leaves every field unset. */
  lemma NoneMeansAvailable()
    ensures Integer(Availability(None, None, None)) == 7
    ensures FromInteger(None) == Availability(None, None, None)
  {
  }

  /** The integer, which `__eq__` and `__hash__` use, reads an unset
      field as `True`. */
  lemma IntegerIgnoresUnset(a: Availability)
    ensures Integer(a) == Integer(Availability(
      if a.read.None? then Some(true) else a.read,
      if a.write.None? then Some(true) else a.write,
      if a.delete.None? then Some(true) else a.delete))
  {
  }
}
