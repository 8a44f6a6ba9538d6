/** The report post-processing of the pyright tooling: stripping position
    details from every diagnostic of a JSON report, and the exit code of
    `generate`.  A JSON object is a list of fields in insertion order, as
    in `Dicts`. */
module PyrightGenerate {
  import opened Wrappers
  import opened Sequences
  import opened Dicts

  datatype Json =
    | JNull
    | JBool(b: bool)
    | JNum(n: int)
    | JStr(s: string)
    | JArray(elems: seq<Json>)
    | JObject(fields: seq<(string, Json)>)

  /** What `_strip_dict` raises: `KeyError` for a missing key, and
      `TypeError` or `AttributeError` when a value is not a dictionary (or,
      for the diagnostics, not iterable). */
  datatype StripError = MissingKey(key: string) | WrongShape

  /** `d[key]`. */
  function Field(j: Json, key: string): (r: Result<Json, StripError>)
    ensures r.Ok? <==> j.JObject? && Lookup(j.fields, key).Some?
    ensures r.Ok? ==> r.value == Lookup(j.fields, key).value
    ensures r.Err? && j.JObject? ==> r == Err(MissingKey(key))
  {
    match j
    case JObject(fields) =>
      (match Lookup(fields, key)
       case None => Err(MissingKey(key))
       case Some(v) => Ok(v))
    case _ => Err(WrongShape)
  }

  /** `d.pop(key)`, keeping the dictionary and dropping the value. */
  function Pop(j: Json, key: string): (r: Result<Json, StripError>)
    ensures r.Ok? <==> j.JObject? && Lookup(j.fields, key).Some?
    ensures r.Ok? ==> r.value == JObject(Remove(j.fields, key))
  {
    match j
    case JObject(fields) =>
      if Lookup(fields, key).None? then Err(MissingKey(key)) else Ok(JObject(Remove(fields, key)))
    case _ => Err(WrongShape)
  }

  /** Writes a changed nested value back under its key of an object. */
  function Put(j: Json, key: string, v: Json): Json
    requires j.JObject?
  {
    JObject(Assign(j.fields, key, v))
  }

  /** `diagnostic['range']['start'].pop(key)` followed by
      `diagnostic['range']['end'].pop(key)`. */
  function PopFromRange(diagnostic: Json, key: string): Result<Json, StripError>
  {
    match Field(diagnostic, "range")
    case Err(e) => Err(e)
    case Ok(range) =>
      match Field(range, "start")
      case Err(e) => Err(e)
      case Ok(start) =>
        match Pop(start, key)
        case Err(e) => Err(e)
        case Ok(start') =>
          var range' := Put(range, "start", start');
          match Field(range', "end")
          case Err(e) => Err(e)
          case Ok(end) =>
            match Pop(end, key)
            case Err(e) => Err(e)
            case Ok(end') => Ok(Put(diagnostic, "range", Put(range', "end", end')))
  }

  /** The body of the loop of `_strip_dict` for one diagnostic; a mode it
      does not know leaves the diagnostic as it is. */
  function StripOne(diagnostic: Json, mode: string): Result<Json, StripError>
  {
    if mode == "range" then Pop(diagnostic, "range")
    else if mode == "line" then PopFromRange(diagnostic, "line")
    else if mode == "character" then PopFromRange(diagnostic, "character")
    else Ok(diagnostic)
  }

  predicate KnownMode(mode: string)
  {
    mode == "range" || mode == "line" || mode == "character"
  }

  /** The loop over a list of diagnostics: the first failure ends it. */
  function StripAll(diagnostics: seq<Json>, mode: string): Result<seq<Json>, StripError>
  {
    if diagnostics == [] then Ok([])
    else
      match StripAll(diagnostics[..|diagnostics| - 1], mode)
      case Err(e) => Err(e)
      case Ok(done) =>
        match StripOne(diagnostics[|diagnostics| - 1], mode)
        case Err(e) => Err(e)
        case Ok(d) => Ok(done + [d])
  }

  /** `_strip_dict(data, mode)`.  Iterating over a dictionary or a string
      yields strings, on which every known mode fails; iterating over
      anything but a list, a dictionary or a string fails. */
  function Stripped(data: Json, mode: string): Result<Json, StripError>
  {
    match Field(data, "generalDiagnostics")
    case Err(e) => Err(e)
    case Ok(JArray(diagnostics)) =>
      (match StripAll(diagnostics, mode)
       case Err(e) => Err(e)
       case Ok(done) => Ok(Put(data, "generalDiagnostics", JArray(done))))
    case Ok(JObject(fields)) =>
      if KnownMode(mode) && fields != [] then Err(WrongShape) else Ok(data)
    case Ok(JStr(s)) =>
      if KnownMode(mode) && s != [] then Err(WrongShape) else Ok(data)
    case Ok(_) => Err(WrongShape)
  }

  /** One more diagnostic either fails the whole list or adds its result. */
  lemma StripAllStep(diagnostics: seq<Json>, mode: string, i: nat, done: seq<Json>)
    requires i < |diagnostics| && StripAll(diagnostics[..i], mode) == Ok(done)
    ensures StripAll(diagnostics[..i + 1], mode) ==
      match StripOne(diagnostics[i], mode)
      case Err(e) => Err(e)
      case Ok(d) => Ok(done + [d])
  {
    TakeNext(diagnostics, i);
  }

  /** Once the loop has failed, it stays failed. */
  lemma {:induction false} FailureStays(diagnostics: seq<Json>, mode: string, i: nat)
    requires i <= |diagnostics| && StripAll(diagnostics[..i], mode).Err?
    ensures StripAll(diagnostics, mode) == StripAll(diagnostics[..i], mode)
    decreases |diagnostics| - i
  {
    if i < |diagnostics| {
      TakeNext(diagnostics, i);
      FailureStays(diagnostics, mode, i + 1);
    } else {
      TakeAll(diagnostics);
    }
  }

  /** `_strip_dict(data, strip_mode)`: the loop strips a copy of the
      diagnostics one by one; the input, a value, is never changed. */
  method StripDict(data: Json, mode: string) returns (r: Result<Json, StripError>)
    ensures r == Stripped(data, mode)
  {
    var field := Field(data, "generalDiagnostics");
    if field.Err? {
      return Err(field.error);
    }
    match field.value {
      case JArray(diagnostics) =>
        var done: seq<Json> := [];
        for i := 0 to |diagnostics|
          invariant StripAll(diagnostics[..i], mode) == Ok(done)
        {
          var one := StripOne(diagnostics[i], mode);
          StripAllStep(diagnostics, mode, i, done);
          if one.Err? {
            FailureStays(diagnostics, mode, i + 1);
            return Err(one.error);
          }
          done := done + [one.value];
        }
        TakeAll(diagnostics);
        r := Ok(Put(data, "generalDiagnostics", JArray(done)));
      case JObject(fields) =>
        r := if KnownMode(mode) && fields != [] then Err(WrongShape) else Ok(data);
      case JStr(s) =>
        r := if KnownMode(mode) && s != [] then Err(WrongShape) else Ok(data);
      case _ =>
        r := Err(WrongShape);
    }
  }

  // ---------------------------------------------------------------------
  // What the loop does to the list of diagnostics
  // ---------------------------------------------------------------------

  /** The loop succeeds exactly when every diagnostic can be stripped, and
      then yields one stripped diagnostic per diagnostic, in order. */
  lemma StripAllEach(diagnostics: seq<Json>, mode: string)
    ensures StripAll(diagnostics, mode).Ok? <==> forall i :: 0 <= i < |diagnostics| ==> StripOne(diagnostics[i], mode).Ok?
    ensures StripAll(diagnostics, mode).Ok? ==>
      |StripAll(diagnostics, mode).value| == |diagnostics| &&
      forall i :: 0 <= i < |diagnostics| ==> StripAll(diagnostics, mode).value[i] == StripOne(diagnostics[i], mode).value
  {
    StripAllOk(diagnostics, mode);
    if StripAll(diagnostics, mode).Ok? {
      StripAllValues(diagnostics, mode);
    }
  }

  lemma {:induction false} StripAllOk(diagnostics: seq<Json>, mode: string)
    ensures StripAll(diagnostics, mode).Ok? <==> forall i :: 0 <= i < |diagnostics| ==> StripOne(diagnostics[i], mode).Ok?
  {
    if diagnostics != [] {
      var n := |diagnostics|;
      var init := diagnostics[..n - 1];
      StripAllOk(init, mode);
      assert forall i :: 0 <= i < |init| ==> init[i] == diagnostics[i];
      if StripAll(init, mode).Err? {
        var i :| 0 <= i < |init| && StripOne(init[i], mode).Err?;
        assert StripOne(diagnostics[i], mode).Err?;
      }
    }
  }

  lemma {:induction false} StripAllValues(diagnostics: seq<Json>, mode: string)
    requires StripAll(diagnostics, mode).Ok?
    ensures |StripAll(diagnostics, mode).value| == |diagnostics|
    ensures forall i :: 0 <= i < |diagnostics| ==> StripOne(diagnostics[i], mode) == Ok(StripAll(diagnostics, mode).value[i])
  {
    if diagnostics != [] {
      var n := |diagnostics|;
      var init := diagnostics[..n - 1];
      StripAllValues(init, mode);
      var done := StripAll(init, mode).value;
      var d := StripOne(diagnostics[n - 1], mode).value;
      assert StripAll(diagnostics, mode).value == done + [d];
      assert forall i :: 0 <= i < |init| ==> init[i] == diagnostics[i];
    }
  }

  /** Writing back the value a key already has changes nothing. */
  lemma {:induction false} PutSame(fields: seq<(string, Json)>, key: string)
    requires Lookup(fields, key).Some?
    ensures Assign(fields, key, Lookup(fields, key).value) == fields
  {
    if fields[0].0 != key {
      PutSame(fields[1..], key);
    }
  }

  /** A mode `_strip_dict` does not know gives an equal copy, whenever the
      diagnostics can be iterated over. */
  lemma UnknownModeCopies(data: Json, mode: string)
    requires !KnownMode(mode)
    requires Field(data, "generalDiagnostics").Ok?
    requires var d := Field(data, "generalDiagnostics").value; d.JArray? || d.JObject? || d.JStr?
    ensures Stripped(data, mode) == Ok(data)
  {
    var d := Field(data, "generalDiagnostics").value;
    if d.JArray? {
      StripAllEach(d.elems, mode);
      assert StripAll(d.elems, mode).value == d.elems;
      PutSame(data.fields, "generalDiagnostics");
    }
  }

  /** Anything but a list, a dictionary or a string under
      `generalDiagnostics` is not iterable, whatever the mode. */
  lemma NotIterable(data: Json, mode: string)
    requires Field(data, "generalDiagnostics").Ok?
    requires var d := Field(data, "generalDiagnostics").value; !(d.JArray? || d.JObject? || d.JStr?)
    ensures Stripped(data, mode) == Err(WrongShape)
  {
  }

  /** A stripped report keeps every other top-level field, and holds the
      stripped diagnostics, as many as before and in the same order. */
  lemma StrippedReport(data: Json, mode: string)
    requires Stripped(data, mode).Ok?
    requires Field(data, "generalDiagnostics").Ok? && Field(data, "generalDiagnostics").value.JArray?
    ensures var diagnostics := Field(data, "generalDiagnostics").value.elems;
      var out := Stripped(data, mode).value;
      out.JObject? && Field(out, "generalDiagnostics").Ok? &&
      Field(out, "generalDiagnostics").value.JArray? &&
      |Field(out, "generalDiagnostics").value.elems| == |diagnostics| &&
      (forall i :: 0 <= i < |diagnostics| ==>
        StripOne(diagnostics[i], mode) == Ok(Field(out, "generalDiagnostics").value.elems[i])) &&
      (forall k :: k != "generalDiagnostics" ==> Lookup(out.fields, k) == Lookup(data.fields, k))
  {
    var diagnostics := Field(data, "generalDiagnostics").value.elems;
    StripAllEach(diagnostics, mode);
    var done := StripAll(diagnostics, mode).value;
    forall k
      ensures Lookup(Assign(data.fields, "generalDiagnostics", JArray(done)), k) ==
        if k == "generalDiagnostics" then Some(JArray(done)) else Lookup(data.fields, k)
    {
      AssignLookup(data.fields, "generalDiagnostics", JArray(done), k);
    }
  }

  // ---------------------------------------------------------------------
  // What happens to one diagnostic
  // ---------------------------------------------------------------------

  /** Mode `range` removes the `range` key and keeps every other key; it
      fails exactly when the diagnostic is not a dictionary with a range. */
  lemma RangeMode(diagnostic: Json, k: string)
    requires diagnostic.JObject? ==> DistinctKeys(diagnostic.fields)
    ensures StripOne(diagnostic, "range").Ok? <==> diagnostic.JObject? && Lookup(diagnostic.fields, "range").Some?
    ensures StripOne(diagnostic, "range").Ok? ==>
      var out := StripOne(diagnostic, "range").value;
      out.JObject? && Lookup(out.fields, k) == if k == "range" then None else Lookup(diagnostic.fields, k)
  {
    if diagnostic.JObject? {
      RemoveLookup(diagnostic.fields, "range", k);
    }
  }

  /** A dictionary with distinct keys, all the way down. */
  predicate WellFormedRange(diagnostic: Json, key: string)
  {
    diagnostic.JObject? && DistinctKeys(diagnostic.fields) &&
    Field(diagnostic, "range").Ok? &&
    var range := Field(diagnostic, "range").value;
    range.JObject? && DistinctKeys(range.fields) &&
    Field(range, "start").Ok? && Field(range, "end").Ok? &&
    var start := Field(range, "start").value;
    var end := Field(range, "end").value;
    start.JObject? && end.JObject? && DistinctKeys(start.fields) && DistinctKeys(end.fields) &&
    Lookup(start.fields, key).Some? && Lookup(end.fields, key).Some?
  }

  /** Modes `line` and `character` succeed on a diagnostic whose range has
      a start and an end holding that field; they remove the field from
      both and keep the sibling fields, the other keys of the range and
      of the diagnostic. */
  lemma RangeFieldMode(diagnostic: Json, key: string, k: string)
    requires key == "line" || key == "character"
    requires WellFormedRange(diagnostic, key)
    ensures StripOne(diagnostic, key).Ok?
    ensures var out := StripOne(diagnostic, key).value;
      var range := Field(diagnostic, "range").value;
      var start := Field(range, "start").value;
      var end := Field(range, "end").value;
      Field(out, "range").Ok? &&
      var range' := Field(out, "range").value;
      Field(range', "start") == Ok(JObject(Remove(start.fields, key))) &&
      Field(range', "end") == Ok(JObject(Remove(end.fields, key))) &&
      Lookup(Remove(start.fields, key), k) == (if k == key then None else Lookup(start.fields, k)) &&
      Lookup(Remove(end.fields, key), k) == (if k == key then None else Lookup(end.fields, k)) &&
      (k != "start" && k != "end" ==> Lookup(range'.fields, k) == Lookup(range.fields, k)) &&
      (k != "range" ==> Lookup(out.fields, k) == Lookup(diagnostic.fields, k))
  {
    var range := Field(diagnostic, "range").value;
    var start := Field(range, "start").value;
    var end := Field(range, "end").value;
    var start' := JObject(Remove(start.fields, key));
    var range1 := Put(range, "start", start');
    AssignLookup(range.fields, "start", start', "start");
    AssignLookup(range.fields, "start", start', "end");
    AssignLookup(range.fields, "start", start', k);
    var end' := JObject(Remove(end.fields, key));
    var range2 := Put(range1, "end", end');
    AssignLookup(range1.fields, "end", end', "start");
    AssignLookup(range1.fields, "end", end', "end");
    AssignLookup(range1.fields, "end", end', k);
    assert StripOne(diagnostic, key) == Ok(Put(diagnostic, "range", range2));
    AssignLookup(diagnostic.fields, "range", range2, "range");
    AssignLookup(diagnostic.fields, "range", range2, k);
    RemoveLookup(start.fields, key, k);
    RemoveLookup(end.fields, key, k);
  }

  /** A diagnostic without a range, or whose range lacks the field, makes
      modes `line` and `character` fail with a missing key. */
  lemma RangeFieldMissing(diagnostic: Json, key: string)
    requires key == "line" || key == "character"
    requires diagnostic.JObject?
    requires Lookup(diagnostic.fields, "range").None? ||
      (var range := Lookup(diagnostic.fields, "range").value;
       range.JObject? && Lookup(range.fields, "start").Some? &&
       Lookup(range.fields, "start").value.JObject? &&
       Lookup(Lookup(range.fields, "start").value.fields, key).None?)
    ensures StripOne(diagnostic, key).Err? && StripOne(diagnostic, key).error.MissingKey?
  {
  }

  // ---------------------------------------------------------------------
  // generate: the exit code
  // ---------------------------------------------------------------------

  /** The exit code of `generate`: 1 when the errors (with `--Werror`, the
      errors and warnings) of the report summary are positive, else 0; with
      counts that are never negative, exactly when there is an error, or,
      with `--Werror`, an error or a warning. */
  function GenerateExitCode(numErrors: int, numWarnings: int, werror: bool): (code: int)
    ensures code == 0 || code == 1
    ensures numErrors >= 0 && numWarnings >= 0 ==>
      (code == 1 <==> numErrors > 0 || (werror && numWarnings > 0))
  {
    var n := if werror then numErrors + numWarnings else numErrors;
    if n > 0 then 1 else 0
  }
}
