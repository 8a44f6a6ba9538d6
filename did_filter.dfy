/** `rucio.common.utils.parse_did_filter_from_string`: a comma-separated
    list of `key<op>value` options, such as "length<3,type=all", becomes a
    dictionary of filters and a DID type.  `datetime.strptime` is a
    parameter: `dateOk(v)` says whether `v` parses with the format
    `%Y-%m-%dT%H:%M:%S.%fZ`. */
module DidFilters {
  import opened Wrappers
  import opened Text

  /** A dictionary key: a string, or `None` for an option without an
      operator. */
  datatype FilterKey = NoKey | Key(name: string)

  datatype FilterValue =
    | NoValue            // None
    | Str(s: string)
    | Int(i: int)
    | Date(text: string) // the datetime parsed from `text`

  datatype FilterError =
    | Unpack             // ValueError from `key, value = option.split(op)`
    | BadDate(text: string)
    | InvalidType(value: string)
    | LengthNotInteger

  const ValidTypes: seq<string> := ["ALL", "COLLECTION", "CONTAINER", "DATASET", "FILE"]
  const LengthKeys: seq<string> := ["length.gt", "length.lt", "length.gte", "length.lte", "length"]

  /** The comparison operators, in the order they are tried. */
  const Operators: seq<string> := [">=", ">", "<=", "<", "="]
  /** The key `length` becomes with each operator; `=` keeps it. */
  const LengthNames: seq<string> := ["length.gte", "length.gt", "length.lte", "length.lt", "length"]

  /** The first operator, in the order above, that occurs in the option. */
  function OperatorOf(option: string): (k: Option<nat>)
    ensures k.Some? ==> k.value < |Operators| && Contains(option, Operators[k.value])
    ensures k.Some? ==> forall j :: 0 <= j < k.value ==> !Contains(option, Operators[j])
    ensures k.None? ==> forall j :: 0 <= j < |Operators| ==> !Contains(option, Operators[j])
  {
    if Contains(option, ">=") then Some(0)
    else if Contains(option, ">") then Some(1)
    else if Contains(option, "<=") then Some(2)
    else if Contains(option, "<") then Some(3)
    else if Contains(option, "=") then Some(4)
    else None
  }

  /** The key and value of one option, before they are interpreted: an
      option without an operator gives `None` for both; otherwise the two
      pieces of `option.split(op)`, with `length` renamed after the
      operator and the value of a date key under `=` parsed as a date.
      `Unpack` is the split giving other than two pieces, `BadDate` a date
      that does not parse. */
  function KeyValue(option: string, dateOk: string -> bool): (r: Result<(FilterKey, FilterValue), FilterError>)
    ensures OperatorOf(option).None? ==> r == Ok((NoKey, NoValue))
    ensures OperatorOf(option).Some? ==>
      var k := OperatorOf(option).value;
      var parts := Split(option, Operators[k]);
      (r == Err(Unpack) <==> |parts| != 2) &&
      (|parts| == 2 ==>
        var key := if parts[0] == "length" then LengthNames[k] else parts[0];
        var isDate := Operators[k] == "=" && (key == "created_after" || key == "created_before");
        (r == Err(BadDate(parts[1])) <==> isDate && !dateOk(parts[1])) &&
        (r.Ok? ==> r.value.0 == Key(key) && r.value.1 == if isDate then Date(parts[1]) else Str(parts[1])))
    ensures r.Ok? && r.value.0 == NoKey ==> r.value.1 == NoValue && OperatorOf(option).None?
    ensures r.Ok? && r.value.1.Date? ==> r.value.0 in {Key("created_after"), Key("created_before")}
    ensures r.Ok? && Converted(r.value.0) ==> r.value.1.Str?
  {
    match OperatorOf(option)
    case None => Ok((NoKey, NoValue))
    case Some(k) =>
      var parts := Split(option, Operators[k]);
      if |parts| != 2 then Err(Unpack)
      else
        var key := if parts[0] == "length" then LengthNames[k] else parts[0];
        var value := parts[1];
        if k == 4 && (key == "created_after" || key == "created_before") then
          DateKeysKept();
          if dateOk(value) then Ok((Key(key), Date(value))) else Err(BadDate(value))
        else Ok((Key(key), Str(value)))
  }

  /** The date keys are neither `type` nor a length key. */
  lemma DateKeysKept()
    ensures !Converted(Key("created_after")) && !Converted(Key("created_before"))
  {
    assert |"created_after"| == 13 && |"created_before"| == 14;
    assert forall j :: 0 <= j < |LengthKeys| ==> |LengthKeys[j]| <= 10;
  }

  /** `int(s)`: an optional sign followed by decimal digits. */
  function ParseInt(s: string): (r: Option<int>)
  {
    if |s| >= 2 && s[0] == '-' && AllDigits(s[1..]) then Some(0 - DecimalValue(s[1..]))
    else if |s| >= 2 && s[0] == '+' && AllDigits(s[1..]) then Some(DecimalValue(s[1..]))
    else if |s| >= 1 && AllDigits(s) then Some(DecimalValue(s))
    else None
  }

  /** `int(str(n)) == n`. */
  lemma ParseIntOfString(n: int)
    ensures ParseInt(IntToString(n)) == Some(n)
  {
    if n < 0 {
      assert ("-" + NatToString(-n))[1..] == NatToString(-n);
    }
  }

  /** What one option does: set the DID type, or store a filter. */
  datatype Effect = SetType(t: string) | Put(key: FilterKey, value: FilterValue)

  /** `'true'` and `'false'`, in any case, become `'1'` and `'0'`. */
  function NormalizeBool(v: string): (r: string)
    ensures Lower(v) == "true" ==> r == "1"
    ensures Lower(v) == "false" ==> r == "0"
    ensures Lower(r) != "true" && Lower(r) != "false"
    ensures Lower(v) != "true" && Lower(v) != "false" ==> r == v
  {
    if Lower(v) == "true" then "1"
    else if Lower(v) == "false" then "0"
    else v
  }

  /** Keys whose value the source converts: `type` and the length keys. */
  predicate Converted(key: FilterKey)
  {
    key == Key("type") || (key.Key? && key.name in LengthKeys)
  }

  /** What the option's key and value do to `type_` and `filters`; the
      values of `type` and length keys are strings, as `KeyValue` gives
      them. */
  function Interpret(key: FilterKey, value: FilterValue): (r: Result<Effect, FilterError>)
    requires Converted(key) ==> value.Str?
    ensures r.Ok? && r.value.SetType? ==> key == Key("type") && Upper(r.value.t) in ValidTypes
    ensures key == Key("type") && r.Ok? ==> r.value == SetType(Lower(value.s))
    ensures r.Ok? && r.value.Put? ==> r.value.key == key && r.value.key != Key("type")
    ensures r.Ok? && r.value.Put? && Converted(key) ==> r.value.value.Int?
    ensures key != Key("type") && Converted(key) && ParseInt(value.s).Some? ==>
      r == Ok(Put(key, Int(ParseInt(value.s).value)))
    ensures !Converted(key) ==> r == Ok(Put(key, if value.Str? then Str(NormalizeBool(value.s)) else value))
    ensures r.Ok? && r.value.Put? && r.value.value.Str? ==>
      Lower(r.value.value.s) != "true" && Lower(r.value.value.s) != "false"
    ensures r.Err? <==>
      Converted(key) && (if key == Key("type") then Upper(value.s) !in ValidTypes else ParseInt(value.s).None?)
  {
    if key == Key("type") then
      if Upper(value.s) in ValidTypes then
        UpperOfLower(value.s);
        Ok(SetType(Lower(value.s)))
      else Err(InvalidType(value.s))
    else if Converted(key) then
      match ParseInt(value.s)
      case Some(n) => Ok(Put(key, Int(n)))
      case None => Err(LengthNotInteger)
    else if value.Str? then Ok(Put(key, Str(NormalizeBool(value.s))))
    else Ok(Put(key, value))
  }

  lemma UpperOfLower(v: string)
    ensures Upper(Lower(v)) == Upper(v)
  {
  }

  /** The option sets the DID type: its key is `type`. */
  predicate SetsType(option: string, dateOk: string -> bool)
  {
    var kv := KeyValue(option, dateOk);
    kv.Ok? && kv.value.0 == Key("type")
  }

  /** What `type` and `filters` are after the options, given what they were
      before. */
  function Fold(options: seq<string>, dateOk: string -> bool, filters: map<FilterKey, FilterValue>, t: string):
    (r: Result<(map<FilterKey, FilterValue>, string), FilterError>)
  {
    if options == [] then Ok((filters, t))
    else match KeyValue(options[0], dateOk)
      case Err(e) => Err(e)
      case Ok(kv) =>
        match Interpret(kv.0, kv.1)
        case Err(e) => Err(e)
        case Ok(SetType(t')) => Fold(options[1..], dateOk, filters, t')
        case Ok(Put(k, v)) => Fold(options[1..], dateOk, filters[k := v], t)
  }

  /** Every option keeps the invariants. */
  lemma {:induction false} FoldWellFormed(options: seq<string>, dateOk: string -> bool,
                                          filters: map<FilterKey, FilterValue>, t: string)
    requires WellFormed(filters, t)
    ensures var r := Fold(options, dateOk, filters, t); r.Ok? ==> WellFormed(r.value.0, r.value.1)
  {
    if options != [] {
      var kv := KeyValue(options[0], dateOk);
      if kv.Ok? {
        var e := Interpret(kv.value.0, kv.value.1);
        if e.Ok? {
          match e.value
          case SetType(t') =>
            FoldWellFormed(options[1..], dateOk, filters, t');
          case Put(k, v) =>
            FoldWellFormed(options[1..], dateOk, filters[k := v], t);
        }
      }
    }
  }

  /** The type changes only through an option whose key is `type`. */
  lemma {:induction false} FoldKeepsType(options: seq<string>, dateOk: string -> bool,
                                         filters: map<FilterKey, FilterValue>, t: string)
    ensures var r := Fold(options, dateOk, filters, t);
      r.Ok? && (forall i :: 0 <= i < |options| ==> !SetsType(options[i], dateOk)) ==> r.value.1 == t
  {
    if options != [] && forall i :: 0 <= i < |options| ==> !SetsType(options[i], dateOk) {
      var kv := KeyValue(options[0], dateOk);
      if kv.Ok? {
        var e := Interpret(kv.value.0, kv.value.1);
        if e.Ok? {
          assert kv.value.0 != Key("type") by {
            assert !SetsType(options[0], dateOk);
          }
          assert e.value.Put?;
          NoTypeInTail(options, dateOk);
          FoldKeepsType(options[1..], dateOk, filters[e.value.key := e.value.value], t);
        }
      }
    }
  }

  lemma NoTypeInTail(options: seq<string>, dateOk: string -> bool)
    requires options != [] && forall i :: 0 <= i < |options| ==> !SetsType(options[i], dateOk)
    ensures forall i :: 0 <= i < |options| - 1 ==> !SetsType(options[1..][i], dateOk)
  {
    assert forall i :: 0 <= i < |options| - 1 ==> options[1..][i] == options[i + 1];
  }

  /** The options of a non-empty input. */
  function Options(input: string): seq<string>
  {
    Split(RemoveChar(input, ' '), ",")
  }

  /** The result `parse_did_filter_from_string(input)` returns or raises:
      a successful parse gives one of the valid types and well-formed
      filters, and the type stays `collection` unless an option sets it. */
  function Parse(input: string, dateOk: string -> bool): (r: Result<(map<FilterKey, FilterValue>, string), FilterError>)
    ensures r.Ok? ==> WellFormed(r.value.0, r.value.1)
    ensures r.Ok? && (forall o :: o in Options(input) ==> !SetsType(o, dateOk)) ==> r.value.1 == "collection"
  {
    assert Upper("collection") == "COLLECTION";
    if input == "" then Ok((map[], "collection"))
    else
      FoldWellFormed(Options(input), dateOk, map[], "collection");
      FoldKeepsType(Options(input), dateOk, map[], "collection");
      Fold(Options(input), dateOk, map[], "collection")
  }

  /** `parse_did_filter_from_string(input)`. */
  method ParseDidFilter(input: string, dateOk: string -> bool)
    returns (r: Result<(map<FilterKey, FilterValue>, string), FilterError>)
    ensures r == Parse(input, dateOk)
  {
    var filters: map<FilterKey, FilterValue> := map[];
    var t := "collection";
    if input != "" {
      var options := Options(input);
      var i := 0;
      while i < |options|
        invariant 0 <= i <= |options|
        invariant Fold(options[i..], dateOk, filters, t) == Parse(input, dateOk)
      {
        var kv := KeyValue(options[i], dateOk);
        if kv.Err? {
          return Err(kv.error);
        }
        var effect := Interpret(kv.value.0, kv.value.1);
        if effect.Err? {
          return Err(effect.error);
        }
        match effect.value {
          case SetType(t') =>
            t := t';
          case Put(k, v) =>
            filters := filters[k := v];
        }
        i := i + 1;
      }
    }
    return Ok((filters, t));
  }

  /** The invariants every result keeps: the type is a valid one, `type`
      is never a filter, length filters are integers and no string filter
      is still a boolean word. */
  predicate WellFormed(filters: map<FilterKey, FilterValue>, t: string)
  {
    Upper(t) in ValidTypes &&
    Key("type") !in filters &&
    (forall k :: k in filters && k.Key? && k.name in LengthKeys ==> filters[k].Int?) &&
    (forall k :: k in filters && filters[k].Str? ==>
      Lower(filters[k].s) != "true" && Lower(filters[k].s) != "false")
  }

  /** A non-empty input made only of spaces is not falsy: it becomes one
      empty option, which stores `None` under the key `None`. */
  lemma BlankInputStoresNone(input: string, dateOk: string -> bool)
    requires input != [] && forall i :: 0 <= i < |input| ==> input[i] == ' '
    ensures Parse(input, dateOk) == Ok((map[NoKey := NoValue], "collection"))
  {
    RemoveCharOnly(input, ' ');
    NothingInEmpty(",");
    SplitWithoutSeparator("", ",");
    forall j | 0 <= j < |Operators|
      ensures !Contains("", Operators[j])
    {
      NothingInEmpty(Operators[j]);
    }
    assert Options(input) == [""];
    assert KeyValue("", dateOk) == Ok((NoKey, NoValue));
    assert Interpret(NoKey, NoValue) == Ok(Put(NoKey, NoValue));
    assert [""][1..] == [];
  }

  /** A length bound is stored as an integer under the key its operator
      names. */
  lemma LengthBound(k: nat, n: nat, dateOk: string -> bool)
    requires k < 4
    ensures Parse("length" + Operators[k] + NatToString(n), dateOk) ==
      Ok((map[Key(LengthNames[k]) := Int(n)], "collection"))
  {
    var digits := NatToString(n);
    var option := "length" + Operators[k] + digits;
    LengthOptionKeyValue(k, digits, dateOk);
    SingleOption(option);
    InterpretLength(k, n);
    OnlyOption(option, dateOk, Key(LengthNames[k]), Str(digits));
  }

  /** A length key with a decimal value stores the number. */
  lemma InterpretLength(k: nat, n: nat)
    requires k < 4
    ensures var key := Key(LengthNames[k]);
      Interpret(key, Str(NatToString(n))) == Ok(Put(key, Int(n)))
  {
    assert ParseInt(NatToString(n)) == Some(n);
    assert LengthNames[k] in LengthKeys && LengthNames[k] != "type";
  }

  /** An input that is a single option does what that option does. */
  lemma OnlyOption(option: string, dateOk: string -> bool, key: FilterKey, raw: FilterValue)
    requires option != "" && Options(option) == [option]
    requires KeyValue(option, dateOk) == Ok((key, raw))
    ensures Parse(option, dateOk) ==
      match Interpret(key, raw)
      case Err(e) => Err(e)
      case Ok(SetType(t)) => Ok((map[], t))
      case Ok(Put(k, v)) => Ok((map[k := v], "collection"))
  {
    var options := [option];
    assert options[0] == option && options[1..] == [];
    var empty: map<FilterKey, FilterValue> := map[];
    match Interpret(key, raw)
    case Err(e) =>
    case Ok(SetType(t)) =>
      assert Fold(options, dateOk, empty, "collection") == Fold([], dateOk, empty, t);
    case Ok(Put(k, v)) =>
      assert Fold(options, dateOk, empty, "collection") == Fold([], dateOk, empty[k := v], "collection");
      assert empty[k := v] == map[k := v];
  }

  lemma LengthOptionKeyValue(k: nat, digits: string, dateOk: string -> bool)
    requires k < 4 && AllDigits(digits)
    ensures var option := "length" + Operators[k] + digits;
      ',' !in option && ' ' !in option &&
      KeyValue(option, dateOk) == Ok((Key(LengthNames[k]), Str(digits)))
  {
    LengthOption(k, digits);
    LengthOptionChars(k, digits);
  }

  /** A length option holds no comma and no space. */
  lemma LengthOptionChars(k: nat, digits: string)
    requires k < 4 && AllDigits(digits)
    ensures var option := "length" + Operators[k] + digits;
      ',' !in option && ' ' !in option
  {
    assert ',' !in digits && ' ' !in digits by {
      forall i | 0 <= i < |digits|
        ensures digits[i] != ',' && digits[i] != ' '
      {
        assert IsDigit(digits[i]);
      }
    }
    assert ',' !in Operators[k] && ' ' !in Operators[k];
  }

  /** How `length<op><digits>` splits. */
  lemma LengthOption(k: nat, digits: string)
    requires k < 4 && AllDigits(digits)
    ensures OperatorOf("length" + Operators[k] + digits) == Some(k)
    ensures Split("length" + Operators[k] + digits, Operators[k]) == ["length", digits]
  {
    assert NoOperatorChars("length");
    assert NoOperatorChars(digits) by {
      forall i | 0 <= i < |digits|
        ensures digits[i] !in "<>="
      {
        assert IsDigit(digits[i]);
      }
    }
    OptionParts("length", k, digits);
  }

  /** An option `key<op>value` whose key and value hold no operator
      characters is split at that operator. */
  lemma OptionParts(key: string, k: nat, value: string)
    requires k < |Operators| && NoOperatorChars(key) && NoOperatorChars(value)
    ensures OperatorOf(key + Operators[k] + value) == Some(k)
    ensures Split(key + Operators[k] + value, Operators[k]) == [key, value]
  {
    var op := Operators[k];
    SplitAtOperator(key, op, value);
    var s := key + op + value;
    assert OccursAt(s, op, |key|);
    forall j | 0 <= j < k
      ensures !Contains(s, Operators[j])
    {
      var sub := Operators[j];
      OperatorShape(j);
      forall i | 0 <= i && i + |sub| <= |s|
        ensures !OccursAt(s, sub, i)
      {
        if OccursAt(s, sub, i) {
          OperatorOccurrence(key, op, value, sub, i);
          OperatorsNotNested(j, k, i - |key|);
        }
      }
    }
  }

  /** Every operator is made of operator characters only. */
  lemma OperatorShape(j: nat)
    requires j < |Operators|
    ensures OperatorChars(Operators[j]) && |Operators[j]| >= 1
  {
  }

  /** No operator occurs inside one tried after it. */
  lemma OperatorsNotNested(j: nat, k: nat, m: int)
    requires j < k < |Operators|
    ensures !OccursAt(Operators[k], Operators[j], m)
  {
    var op := Operators[k];
    var sub := Operators[j];
    if 0 <= m && m + |sub| <= |op| {
      assert op[m..m + |sub|][0] == op[m];
    }
  }

  predicate NoOperatorChars(s: string)
  {
    forall i :: 0 <= i < |s| ==> s[i] !in "<>="
  }

  predicate OperatorChars(s: string)
  {
    forall i :: 0 <= i < |s| ==> s[i] in "<>="
  }

  /** Between operands without operator characters, an operator
      character belongs to the operator. */
  lemma OperatorCharAt(a: string, op: string, b: string, j: int)
    requires NoOperatorChars(a) && NoOperatorChars(b)
    requires 0 <= j < |a + op + b| && (a + op + b)[j] in "<>="
    ensures |a| <= j < |a| + |op| && (a + op + b)[j] == op[j - |a|]
  {
  }

  /** Between operands without operator characters, an operator can only
      occur inside the operator itself. */
  lemma OperatorOccurrence(a: string, op: string, b: string, sub: string, i: int)
    requires NoOperatorChars(a) && NoOperatorChars(b) && OperatorChars(sub) && |sub| >= 1
    requires OccursAt(a + op + b, sub, i)
    ensures |a| <= i && OccursAt(op, sub, i - |a|)
  {
    var s := a + op + b;
    forall m | 0 <= m < |sub|
      ensures |a| <= i + m < |a| + |op| && s[i + m] == op[i + m - |a|] == sub[m]
    {
      assert s[i + m] == s[i..i + |sub|][m];
      OperatorCharAt(a, op, b, i + m);
    }
    OperatorCharAt(a, op, b, i);
    OperatorCharAt(a, op, b, i + |sub| - 1);
    assert s[i + |sub| - 1] == s[i..i + |sub|][|sub| - 1];
    assert op[i - |a|..i - |a| + |sub|] == sub by {
      forall m | 0 <= m < |sub|
        ensures op[i - |a|..i - |a| + |sub|][m] == sub[m]
      {
        assert s[i + m] == s[i..i + |sub|][m];
      }
    }
  }

  /** `(a + op + b).split(op) == [a, b]` for operands without operator
      characters. */
  lemma SplitAtOperator(a: string, op: string, b: string)
    requires NoOperatorChars(a) && NoOperatorChars(b) && OperatorChars(op) && |op| >= 1
    ensures Split(a + op + b, op) == [a, b]
  {
    var s := a + op + b;
    assert OccursAt(s, op, |a|) by {
      assert s[|a|..|a| + |op|] == op;
    }
    var x := Find(s, op).value;
    OperatorOccurrence(a, op, b, op, x);
    assert s[..|a|] == a && s[|a| + |op|..] == b;
    forall j | 0 <= j && j + |op| <= |b|
      ensures !OccursAt(b, op, j)
    {
      assert b[j..j + |op|][0] == b[j];
    }
    SplitWithoutSeparator(b, op);
  }

  /** A single option without commas or spaces is the only option. */
  lemma SingleOption(option: string)
    requires ',' !in option && ' ' !in option
    ensures Options(option) == [option]
  {
    RemoveCharAbsent(option, ' ');
    forall j | 0 <= j && j + 1 <= |option|
      ensures !OccursAt(option, ",", j)
    {
      assert option[j..j + 1][0] == option[j];
    }
    SplitWithoutSeparator(option, ",");
  }

  /** `type=<value>` selects the type, in lower case, when its upper case
      is one of the valid types, and raises `InvalidType` otherwise. */
  lemma TypeOption(v: string, dateOk: string -> bool)
    requires NoOperatorChars(v) && ',' !in v && ' ' !in v
    ensures Upper(v) in ValidTypes ==> Parse("type=" + v, dateOk) == Ok((map[], Lower(v)))
    ensures Upper(v) !in ValidTypes ==> Parse("type=" + v, dateOk) == Err(InvalidType(v))
  {
    var option := "type=" + v;
    TypeOptionKeyValue(v, dateOk);
    SingleOption(option);
    OnlyOption(option, dateOk, Key("type"), Str(v));
  }

  lemma TypeOptionKeyValue(v: string, dateOk: string -> bool)
    requires NoOperatorChars(v) && ',' !in v && ' ' !in v
    ensures var option := "type=" + v;
      ',' !in option && ' ' !in option && KeyValue(option, dateOk) == Ok((Key("type"), Str(v)))
  {
    assert NoOperatorChars("type");
    OptionParts("type", 4, v);
    assert "type=" + v == "type" + Operators[4] + v;
    assert ',' !in "type=" && ' ' !in "type=";
  }

  /** The options are applied from left to right: parsing a longer list
      continues from the result of its first part. */
  lemma {:induction false} FoldAppend(xs: seq<string>, ys: seq<string>, dateOk: string -> bool,
                                      filters: map<FilterKey, FilterValue>, t: string)
    ensures Fold(xs + ys, dateOk, filters, t) ==
      match Fold(xs, dateOk, filters, t)
      case Err(e) => Err(e)
      case Ok((f, t')) => Fold(ys, dateOk, f, t')
  {
    if xs == [] {
      assert xs + ys == ys;
    } else {
      assert (xs + ys)[0] == xs[0] && (xs + ys)[1..] == xs[1..] + ys;
      var kv := KeyValue(xs[0], dateOk);
      if kv.Ok? {
        var e := Interpret(kv.value.0, kv.value.1);
        if e.Ok? {
          match e.value
          case SetType(t'') =>
            FoldAppend(xs[1..], ys, dateOk, filters, t'');
          case Put(k, v) =>
            FoldAppend(xs[1..], ys, dateOk, filters[k := v], t);
        }
      }
    }
  }
}
