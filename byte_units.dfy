/** `rucio.common.utils.get_bytes_value_from_string`: a storage size such
    as "10GB" in bytes, using decimal units; `None` stands for the `False`
    the function returns when the string is not a number followed by a
    known unit. */
module ByteUnits {
  import opened Wrappers
  import opened Text

  predicate AllLetters(s: string)
  {
    forall i :: 0 <= i < |s| ==> IsLetter(s[i])
  }

  /** The bytes per unit, for a unit already in lower case. */
  function Multiplier(unit: string): (m: Option<nat>)
    ensures m.Some? ==> m.value >= 1
  {
    if unit == "b" then Some(1)
    else if unit == "kb" then Some(1000)
    else if unit == "mb" then Some(1000000)
    else if unit == "gb" then Some(1000000000)
    else if unit == "tb" then Some(1000000000000)
    else if unit == "pb" then Some(1000000000000000)
    else None
  }

  /** The text `^...$` is matched against: Python's `$` also matches just
      before a newline that ends the string. */
  function Anchored(s: string): (body: string)
    ensures s == body || s == body + "\n"
  {
    if |s| > 0 && s[|s| - 1] == '\n' then s[..|s| - 1] else s
  }

  /** `s` is `digits` followed by `unit`, the shape `^([0-9]+)([A-Za-z]+)$`
      accepts. */
  predicate Matches(s: string, digits: string, unit: string)
  {
    |digits| >= 1 && AllDigits(digits) && |unit| >= 1 && AllLetters(unit) &&
    (s == digits + unit || s == digits + unit + "\n")
  }

  function GetBytesValue(s: string): (r: Option<nat>)
    ensures r.Some? ==>
      var body := Anchored(s);
      var k := LeadingDigits(body);
      Matches(s, body[..k], body[k..]) &&
      Multiplier(Lower(body[k..])).Some? &&
      r.value == DecimalValue(body[..k]) * Multiplier(Lower(body[k..])).value
  {
    var body := Anchored(s);
    var k := LeadingDigits(body);
    if k == 0 || k == |body| || !AllLetters(body[k..]) then None
    else
      assert body == body[..k] + body[k..];
      match Multiplier(Lower(body[k..]))
      case None => None
      case Some(m) => Some(Scale(DecimalValue(body[..k]), m))
  }

  /** A number of units in bytes. */
  function Scale(n: nat, m: nat): nat
  {
    n * m
  }

  /** Every number followed by a known unit, in any mix of cases and with
      an optional final newline, gives the number times the unit's size. */
  lemma ValueOfWellFormed(s: string, digits: string, unit: string)
    requires Matches(s, digits, unit)
    requires Multiplier(Lower(unit)).Some?
    ensures GetBytesValue(s) == Some(DecimalValue(digits) * Multiplier(Lower(unit)).value)
  {
    var body := digits + unit;
    assert Anchored(s) == body by {
      if s == body + "\n" {
        assert s[..|s| - 1] == body;
      } else {
        assert IsLetter(unit[|unit| - 1]);
      }
    }
    LeadingDigitsOf(digits, unit);
    assert body[..|digits|] == digits && body[|digits|..] == unit;
  }

  /** A string that is not a number followed by a known unit gives `None`. */
  lemma NoneOtherwise(s: string)
    requires forall digits, unit :: Matches(s, digits, unit) ==> Multiplier(Lower(unit)).None?
    ensures GetBytesValue(s).None?
  {
  }

  /** The units are case-insensitive. */
  lemma UnitCaseInsensitive(digits: string)
    requires |digits| >= 1 && AllDigits(digits)
    ensures GetBytesValue(digits + "GB") == Some(DecimalValue(digits) * 1000000000)
    ensures GetBytesValue(digits + "gb") == Some(DecimalValue(digits) * 1000000000)
  {
    GigabyteUnit(digits, "GB");
    GigabyteUnit(digits, "gb");
  }

  lemma GigabyteUnit(digits: string, unit: string)
    requires |digits| >= 1 && AllDigits(digits)
    requires unit == "GB" || unit == "gb"
    ensures GetBytesValue(digits + unit) == Some(DecimalValue(digits) * 1000000000)
  {
    GigabyteLetters(unit);
    GigabyteMultiplier();
    ValueOfWellFormed(digits + unit, digits, unit);
  }

  lemma GigabyteLetters(unit: string)
    requires unit == "GB" || unit == "gb"
    ensures Lower(unit) == "gb" && AllLetters(unit)
  {
    assert Lower(unit) == [LowerChar(unit[0])] + Lower(unit[1..]);
    assert IsLetter(unit[0]) && IsLetter(unit[1]);
  }

  lemma GigabyteMultiplier()
    ensures Multiplier("gb") == Some(1000000000)
  {
    assert "gb" != "b" && "gb" != "kb" && "gb" != "mb";
  }

  /** Bytes need the unit `b`: a bare number is not accepted. */
  lemma BareNumberRejected(digits: string)
    requires AllDigits(digits)
    ensures GetBytesValue(digits).None?
  {
    var body := Anchored(digits);
    LeadingDigitsOf(digits, []);
    assert digits + [] == digits;
  }
}
