/**
 * The earlier version of the template (src/template.js). Keys are flat: each
 * row is coerced and stored under its name in `finalParameters`, and the
 * pushed object is `merge(eventData, finalParameters)`. A failed `assertThat`
 * throws and stops the template; that outcome is an `Err`.
 */
module LegacyTemplate {
  import opened Wrappers
  import opened Strings
  import opened Numbers
  import opened Values
  import Coercion

  // ---------------------------------------------------------------------------
  // merge
  // ---------------------------------------------------------------------------

  /** `merge(a, b, ...)`: the union of the maps, a later map winning on a shared key. */
  function MergeAll(objects: seq<map<string, Node>>): map<string, Node>
    decreases |objects|
  {
    if objects == [] then map[] else MergeAll(objects[..|objects| - 1]) + objects[|objects| - 1]
  }

  /** `merge`: copies the keys of each argument in turn into a fresh result. */
  method Merge(objects: seq<map<string, Node>>) returns (result: map<string, Node>)
    ensures result == MergeAll(objects)
  {
    result := map[];
    var i := 0;
    while i < |objects|
      invariant 0 <= i <= |objects|
      invariant result == MergeAll(objects[..i])
    {
      var obj := objects[i];
      var remaining := obj.Keys;
      while remaining != {}
        invariant remaining <= obj.Keys
        invariant result == MergeAll(objects[..i]) + CopiedPart(obj, remaining)
        decreases remaining
      {
        var key :| key in remaining;
        CopyOne(MergeAll(objects[..i]), obj, remaining, key);
        result := result[key := obj[key]];
        remaining := remaining - {key};
      }
      assert CopiedPart(obj, {}) == obj;
      assert objects[..i + 1][..i] == objects[..i];
      i := i + 1;
    }
    assert objects[..i] == objects;
  }

  /** The entries of `obj` copied so far: those whose keys are no longer remaining. */
  ghost function CopiedPart(obj: map<string, Node>, remaining: set<string>): map<string, Node> {
    map k | k in obj.Keys - remaining :: obj[k]
  }

  lemma CopyOne(before: map<string, Node>, obj: map<string, Node>, remaining: set<string>, key: string)
    requires key in remaining && remaining <= obj.Keys
    ensures (before + CopiedPart(obj, remaining))[key := obj[key]] == before + CopiedPart(obj, remaining - {key})
  {
  }

  /** The keys of a merge are exactly the keys of its arguments. */
  lemma {:induction false} MergeKeys(objects: seq<map<string, Node>>, k: string)
    ensures k in MergeAll(objects) <==> exists j :: 0 <= j < |objects| && k in objects[j]
    decreases |objects|
  {
    if objects != [] {
      var init := objects[..|objects| - 1];
      MergeKeys(init, k);
      if exists j :: 0 <= j < |init| && k in init[j] {
        var j :| 0 <= j < |init| && k in init[j];
        assert objects[j] == init[j];
      }
      if exists j :: 0 <= j < |objects| && k in objects[j] {
        var j :| 0 <= j < |objects| && k in objects[j];
        if j < |init| {
          assert init[j] == objects[j];
        }
      }
    }
  }

  /** On a shared key the value comes from the last argument that has it. */
  lemma {:induction false} MergeLastWins(objects: seq<map<string, Node>>, j: nat, k: string)
    requires j < |objects| && k in objects[j]
    requires forall l :: j < l < |objects| ==> k !in objects[l]
    ensures k in MergeAll(objects) && MergeAll(objects)[k] == objects[j][k]
    decreases |objects|
  {
    if j < |objects| - 1 {
      var init := objects[..|objects| - 1];
      assert init[j] == objects[j];
      forall l | j < l < |init|
        ensures k !in init[l]
      {
        assert init[l] == objects[l];
      }
      MergeLastWins(init, j, k);
      assert k !in objects[|objects| - 1];
    }
  }

  // ---------------------------------------------------------------------------
  // The per-row coercion
  // ---------------------------------------------------------------------------

  /** `row.varType || 'inherit'`. */
  function DesiredType(varType: string): (r: string)
    ensures r != ""
    ensures varType != "" ==> r == varType
  {
    if varType == "" then "inherit" else varType
  }

  /** `'' + rawValue`. */
  function StringForm(rawValue: Node): string {
    ToJsString(rawValue)
  }

  /** `makeNumber(stringValue.replace(',', '.'))`: only the first comma becomes a point. */
  function NumberForm(stringValue: string): (r: Node)
    ensures r.Num? || r.NaN?
    ensures r.NaN? <==> ParseNumber(ReplaceFirst(stringValue, ',', '.')).None?
  {
    MakeNumber(ReplaceFirst(stringValue, ',', '.'))
  }

  /** `assertThat(v).isNumber()` as GTM's assertion library decides it: the
      subject's type is 'number', which NaN's is too. */
  predicate IsNumberType(v: Node) {
    v.Num? || v.NaN?
  }

  /** The coercion switch as written: the number check accepts NaN. */
  function TypedValueAsWritten(row: Row): (r: Result<Node>)
    ensures DesiredType(row.varType) == "number" ==> r == Ok(NumberForm(StringForm(row.varValue)))
  {
    var desiredType := DesiredType(row.varType);
    if desiredType == "inherit" then Ok(row.varValue)
    else
      var stringValue := StringForm(row.varValue);
      if desiredType == "number" then
        var numValue := NumberForm(stringValue);
        if IsNumberType(numValue) then Ok(numValue) else Err("is not a valid number")
      else BooleanOrString(row.varValue, desiredType, stringValue)
  }

  /** The coercion switch with the number check the message describes: a
      value that is not a valid number fails the row. */
  function TypedValue(row: Row): (r: Result<Node>)
    // an unset type is `inherit`: the raw value passes through
    ensures row.varType == "" || row.varType == "inherit" ==> r == Ok(row.varValue)
    // so does any type the switch does not know
    ensures row.varType !in {"", "inherit", "number", "boolean", "string"} ==> r == Ok(row.varValue)
    // the string form, untrimmed
    ensures row.varType == "string" ==> r == Ok(Str(StringForm(row.varValue)))
    // a number, or a failure exactly when the text after the first comma's replacement is no number
    ensures row.varType == "number" ==> (r.Err? <==> ParseNumber(ReplaceFirst(StringForm(row.varValue), ',', '.')).None?)
    ensures row.varType == "number" && r.Ok? ==> r.value.Num? && r.value == NumberForm(StringForm(row.varValue))
    // only "true" and "false", in any case, are booleans
    ensures row.varType == "boolean" ==> (r.Ok? <==> ToLower(StringForm(row.varValue)) in {"true", "false"})
    ensures row.varType == "boolean" && r.Ok? ==> r.value == Bool(ToLower(StringForm(row.varValue)) == "true")
  {
    var desiredType := DesiredType(row.varType);
    if desiredType == "inherit" then Ok(row.varValue)
    else
      var stringValue := StringForm(row.varValue);
      if desiredType == "number" then
        var numValue := NumberForm(stringValue);
        if numValue.Num? then Ok(numValue) else Err("is not a valid number")
      else BooleanOrString(row.varValue, desiredType, stringValue)
  }

  /** The rest of the switch, shared by both versions of the number check. */
  function BooleanOrString(rawValue: Node, desiredType: string, stringValue: string): (r: Result<Node>)
    requires desiredType != "number"
    ensures desiredType == "boolean" ==> (r.Ok? <==> ToLower(stringValue) in {"true", "false"})
    ensures desiredType == "boolean" && r.Ok? ==> r.value == Bool(ToLower(stringValue) == "true")
    ensures desiredType == "string" ==> r == Ok(Str(stringValue))
    ensures desiredType != "boolean" && desiredType != "string" ==> r == Ok(rawValue)
  {
    if desiredType == "boolean" then
      var lowerCaseValue := ToLower(stringValue);
      if lowerCaseValue == "true" || lowerCaseValue == "false" then Ok(Bool(lowerCaseValue == "true"))
      else Err("Value for boolean type must be \"true\" or \"false\".")
    else if desiredType == "string" then Ok(Str(stringValue))
    else Ok(rawValue)
  }

  /** The number check as written never fails: text that is no number gets through as NaN. */
  lemma NaNAccepted(name: string, rawValue: Node)
    requires ParseNumber(ReplaceFirst(StringForm(rawValue), ',', '.')).None?
    ensures TypedValueAsWritten(Row(name, rawValue, "number")) == Ok(NaN)
    ensures TypedValue(Row(name, rawValue, "number")).Err?
  {
  }

  /** A concrete row that shows it: the text "x" as a number. */
  lemma NaNAcceptedWitness(name: string)
    ensures TypedValueAsWritten(Row(name, Str("x"), "number")) == Ok(NaN)
    ensures TypedValue(Row(name, Str("x"), "number")).Err?
  {
    assert ReplaceFirst("x", ',', '.') == "x";
    LetterIsNoNumber('x');
    StringOfStr("x");
    NaNAccepted(name, Str("x"));
  }

  /** The two switches differ only in the number check: every other row gets
      the same result from both. */
  lemma AsWrittenAgrees(row: Row)
    requires DesiredType(row.varType) != "number"
    ensures TypedValueAsWritten(row) == TypedValue(row)
  {
  }

  /** The number check as written accepts every row, so a number row never
      fails; the corrected one only lets numbers through. */
  lemma AsWrittenNeverFails(row: Row)
    requires DesiredType(row.varType) == "number"
    ensures TypedValueAsWritten(row).Ok?
  {
  }

  /** "12,5" and the like: a decimal comma is read as the decimal point. */
  lemma DecimalComma(name: string, whole: string, fraction: string)
    requires |whole| >= 1 && AllDigits(whole) && |fraction| >= 1 && AllDigits(fraction)
    ensures TypedValue(Row(name, Str(whole + "," + fraction), "number"))
         == Ok(Num(Canonicalize(DigitsValue(whole + fraction), |fraction|)))
  {
    StringOfStr(whole + "," + fraction);
    CommaReplaced(whole, fraction);
    Coercion.NumberOfPoint(whole, fraction);
    NumberRow(name, Str(whole + "," + fraction));
  }

  /** The first comma of `whole,fraction` becomes the point. */
  lemma CommaReplaced(whole: string, fraction: string)
    requires AllDigits(whole)
    ensures ReplaceFirst(whole + "," + fraction, ',', '.') == whole + "." + fraction
  {
    var s := whole + "," + fraction;
    assert ',' !in whole by {
      DigitsHaveNoSeparator(whole);
    }
    assert s[..|whole|] == whole && s[|whole|] == ',';
    assert IndexOf(s, ',') == |whole| by {
      IndexOfFirst(whole, ',', fraction);
    }
    assert s[|whole| + 1..] == fraction;
  }

  /** A number row whose text is a number yields that number. */
  lemma NumberRow(name: string, rawValue: Node)
    requires NumberForm(StringForm(rawValue)).Num?
    ensures TypedValue(Row(name, rawValue, "number")) == Ok(NumberForm(StringForm(rawValue)))
  {
  }

  lemma {:induction false} IndexOfFirst(a: string, c: char, b: string)
    requires c !in a
    ensures IndexOf(a + [c] + b, c) == |a|
  {
    if a != [] {
      assert (a + [c] + b)[1..] == a[1..] + [c] + b;
      IndexOfFirst(a[1..], c, b);
    }
  }

  // ---------------------------------------------------------------------------
  // The row loop and the pushed object
  // ---------------------------------------------------------------------------

  /** Which number check the switch makes: the one src/template.js has, which
      lets NaN through, or the corrected one, which fails the row. */
  datatype Check = AsWritten | Corrected

  /** The coercion switch with the chosen number check. */
  function Switch(check: Check): Row -> Result<Node> {
    match check
    case AsWritten => TypedValueAsWritten
    case Corrected => TypedValue
  }

  /** `finalParameters` after the rows in table order, or the first failure. */
  function Parameters(coerce: Row -> Result<Node>, rows: seq<Row>): (r: Result<map<string, Node>>)
    decreases |rows|
  {
    if rows == [] then Ok(map[])
    else
      match Parameters(coerce, rows[..|rows| - 1])
      case Err(e) => Err(e)
      case Ok(finalParameters) =>
        var last := rows[|rows| - 1];
        match coerce(last)
        case Err(e) => Err(e)
        case Ok(finalValue) => Ok(finalParameters[last.varName := finalValue])
  }

  /** `{event: eventName}`, merged with the parameters when event data is enabled. */
  function EventData(coerce: Row -> Result<Node>, eventName: string, addEventData: bool, rows: seq<Row>): Result<map<string, Node>> {
    var eventData := map["event" := Str(eventName)];
    if !addEventData then Ok(eventData)
    else
      match Parameters(coerce, rows)
      case Err(e) => Err(e)
      case Ok(finalParameters) => Ok(MergeAll([eventData, finalParameters]))
  }

  /** The main flow of the earlier template up to the object it pushes; with
      `AsWritten` it is src/template.js as it stands. */
  method BuildEventData(check: Check, eventName: string, addEventData: bool, rows: seq<Row>)
    returns (r: Result<map<string, Node>>)
    ensures r == EventData(Switch(check), eventName, addEventData, rows)
  {
    var eventData := map["event" := Str(eventName)];
    if !addEventData {
      return Ok(eventData);
    }
    var coerce := Switch(check);
    var finalParameters: map<string, Node> := map[];
    var i := 0;
    while i < |rows|
      invariant 0 <= i <= |rows|
      invariant Parameters(coerce, rows[..i]) == Ok(finalParameters)
    {
      var row := rows[i];
      var typed := coerce(row);
      ParametersNext(coerce, rows, i, finalParameters);
      if typed.Err? {
        return Err(typed.message);
      }
      finalParameters := finalParameters[row.varName := typed.value];
      i := i + 1;
    }
    ParametersDone(coerce, eventName, rows, finalParameters);
    var merged := Merge([eventData, finalParameters]);
    r := Ok(merged);
  }

  /** One more row: it either adds its entry or fails the whole table. */
  lemma ParametersNext(coerce: Row -> Result<Node>, rows: seq<Row>, i: nat, finalParameters: map<string, Node>)
    requires i < |rows| && Parameters(coerce, rows[..i]) == Ok(finalParameters)
    ensures coerce(rows[i]).Err? ==> Parameters(coerce, rows) == Err(coerce(rows[i]).message)
    ensures coerce(rows[i]).Ok?
            ==> Parameters(coerce, rows[..i + 1]) == Ok(finalParameters[rows[i].varName := coerce(rows[i]).value])
  {
    assert rows[..i + 1][..i] == rows[..i];
    if coerce(rows[i]).Err? {
      FailureStays(coerce, rows, i + 1);
    }
  }

  lemma ParametersDone(coerce: Row -> Result<Node>, eventName: string, rows: seq<Row>, finalParameters: map<string, Node>)
    requires Parameters(coerce, rows[..|rows|]) == Ok(finalParameters)
    ensures EventData(coerce, eventName, true, rows) == Ok(MergeAll([map["event" := Str(eventName)], finalParameters]))
  {
    assert rows[..|rows|] == rows;
  }

  /** Once a row fails, the whole table fails with the same message. */
  lemma {:induction false} FailureStays(coerce: Row -> Result<Node>, rows: seq<Row>, n: nat)
    requires n <= |rows| && Parameters(coerce, rows[..n]).Err?
    ensures Parameters(coerce, rows) == Parameters(coerce, rows[..n])
    decreases |rows| - n
  {
    if n < |rows| {
      FailedPrefix(coerce, rows, n);
      FailureStays(coerce, rows, n + 1);
    } else {
      assert rows[..n] == rows;
    }
  }

  lemma FailedPrefix(coerce: Row -> Result<Node>, rows: seq<Row>, n: nat)
    requires n < |rows| && Parameters(coerce, rows[..n]).Err?
    ensures Parameters(coerce, rows[..n + 1]) == Parameters(coerce, rows[..n])
  {
    assert rows[..n + 1][..n] == rows[..n];
  }

  /** A table that succeeds succeeds on every prefix, and its last row adds its entry. */
  lemma ParametersSnoc(coerce: Row -> Result<Node>, rows: seq<Row>)
    requires rows != [] && Parameters(coerce, rows).Ok?
    ensures Parameters(coerce, rows[..|rows| - 1]).Ok? && coerce(rows[|rows| - 1]).Ok?
    ensures Parameters(coerce, rows).value
         == Parameters(coerce, rows[..|rows| - 1]).value[rows[|rows| - 1].varName := coerce(rows[|rows| - 1]).value]
  {
  }

  /** A later row with the same name overwrites an earlier one: the value
      stored for a name is the coercion of the last row carrying it. */
  lemma {:induction false} LastRowWins(coerce: Row -> Result<Node>, rows: seq<Row>, j: nat)
    requires j < |rows| && Parameters(coerce, rows).Ok?
    requires forall l :: j < l < |rows| ==> rows[l].varName != rows[j].varName
    ensures coerce(rows[j]).Ok?
    ensures rows[j].varName in Parameters(coerce, rows).value
    ensures Parameters(coerce, rows).value[rows[j].varName] == coerce(rows[j]).value
    decreases |rows|
  {
    var init := rows[..|rows| - 1];
    ParametersSnoc(coerce, rows);
    if j < |rows| - 1 {
      assert init[j] == rows[j];
      forall l | j < l < |init|
        ensures init[l].varName != init[j].varName
      {
        assert init[l] == rows[l];
      }
      LastRowWins(coerce, init, j);
    }
  }

  /** The keys of `finalParameters` are the names of the rows. */
  lemma ParameterKeys(coerce: Row -> Result<Node>, rows: seq<Row>, k: string)
    requires Parameters(coerce, rows).Ok?
    ensures k in Parameters(coerce, rows).value <==> exists j :: 0 <= j < |rows| && rows[j].varName == k
  {
    if k in Parameters(coerce, rows).value {
      var j := ParameterKeyNamed(coerce, rows, k);
    }
    if exists j :: 0 <= j < |rows| && rows[j].varName == k {
      var j :| 0 <= j < |rows| && rows[j].varName == k;
      ParameterKeyPresent(coerce, rows, j);
    }
  }

  /** Every key of `finalParameters` is the name of some row. */
  lemma {:induction false} ParameterKeyNamed(coerce: Row -> Result<Node>, rows: seq<Row>, k: string) returns (j: nat)
    requires Parameters(coerce, rows).Ok? && k in Parameters(coerce, rows).value
    ensures j < |rows| && rows[j].varName == k
    decreases |rows|
  {
    var init := rows[..|rows| - 1];
    ParametersSnoc(coerce, rows);
    if rows[|rows| - 1].varName == k {
      j := |rows| - 1;
    } else {
      j := ParameterKeyNamed(coerce, init, k);
      assert init[j] == rows[j];
    }
  }

  /** Every row's name is a key of `finalParameters`. */
  lemma {:induction false} ParameterKeyPresent(coerce: Row -> Result<Node>, rows: seq<Row>, j: nat)
    requires Parameters(coerce, rows).Ok? && j < |rows|
    ensures rows[j].varName in Parameters(coerce, rows).value
    decreases |rows|
  {
    var init := rows[..|rows| - 1];
    ParametersSnoc(coerce, rows);
    if j < |rows| - 1 {
      ParameterKeyPresent(coerce, init, j);
      assert init[j] == rows[j];
    }
  }

  /** As written, a table fails only on a boolean row: a number row never does. */
  lemma {:induction false} AsWrittenFailsOnBoolean(rows: seq<Row>)
    requires Parameters(TypedValueAsWritten, rows).Err?
    ensures exists j :: 0 <= j < |rows| && DesiredType(rows[j].varType) == "boolean"
    decreases |rows|
  {
    var init := rows[..|rows| - 1];
    var last := rows[|rows| - 1];
    if Parameters(TypedValueAsWritten, init).Err? {
      AsWrittenFailsOnBoolean(init);
      var j :| 0 <= j < |init| && DesiredType(init[j].varType) == "boolean";
      assert rows[j] == init[j];
    } else {
      assert TypedValueAsWritten(last).Err?;
      assert DesiredType(last.varType) == "boolean";
    }
  }

  /** The finding at the level of the pushed object: as written, the row
      `name`/`x`/number pushes NaN under `name`; corrected, the template stops. */
  lemma NaNPushed(eventName: string, name: string)
    ensures EventData(TypedValueAsWritten, eventName, true, [Row(name, Str("x"), "number")])
         == Ok(map["event" := Str(eventName)][name := NaN])
    ensures EventData(TypedValue, eventName, true, [Row(name, Str("x"), "number")]).Err?
  {
    var row := Row(name, Str("x"), "number");
    NaNAcceptedWitness(name);
    PushedOne(TypedValueAsWritten, eventName, row);
    PushedOne(TypedValue, eventName, row);
  }

  /** A table of one row. */
  lemma PushedOne(coerce: Row -> Result<Node>, eventName: string, row: Row)
    ensures coerce(row).Err? ==> EventData(coerce, eventName, true, [row]).Err?
    ensures coerce(row).Ok?
            ==> EventData(coerce, eventName, true, [row]) == Ok(map["event" := Str(eventName)][row.varName := coerce(row).value])
  {
    assert [row][..0] == [];
    if coerce(row).Ok? {
      var e := map["event" := Str(eventName)];
      var p := map[row.varName := coerce(row).value];
      assert Parameters(coerce, [row]) == Ok(map[][row.varName := coerce(row).value]);
      assert map[][row.varName := coerce(row).value] == p;
      MergeTwo(e, p);
      assert e + p == e[row.varName := coerce(row).value];
    }
  }

  /** Unlike the current template, the string type keeps surrounding whitespace. */
  lemma StringRowUntrimmed(name: string, s: string)
    ensures TypedValue(Row(name, Str(s), "string")) == Ok(Str(s))
    ensures TypedValueAsWritten(Row(name, Str(s), "string")) == Ok(Str(s))
  {
    StringOfStr(s);
  }

  /** A row named `event` overrides the event name, since the parameters are
      the later argument of the merge; any other name leaves it alone. */
  lemma EventRowOverrides(coerce: Row -> Result<Node>, eventName: string, rows: seq<Row>)
    requires EventData(coerce, eventName, true, rows).Ok?
    ensures var pushed := EventData(coerce, eventName, true, rows).value;
            "event" in pushed
            && ("event" in Parameters(coerce, rows).value ==> pushed["event"] == Parameters(coerce, rows).value["event"])
            && ("event" !in Parameters(coerce, rows).value ==> pushed["event"] == Str(eventName))
  {
    MergeTwo(map["event" := Str(eventName)], Parameters(coerce, rows).value);
  }

  /** `merge(a, b)` is `b` laid over `a`. */
  lemma MergeTwo(a: map<string, Node>, b: map<string, Node>)
    ensures MergeAll([a, b]) == a + b
  {
    assert [a, b][..1] == [a];
    assert [a][..0] == [];
    assert MergeAll([a]) == map[] + a;
    assert map[] + a == a;
  }
}
