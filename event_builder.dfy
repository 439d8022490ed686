/**
 * The main flow of template.js around the data it pushes: the event object
 * starts as `{event: eventName}` and, when event data is enabled, every row of
 * the parameters table is coerced to its type and, unless the coercion says
 * "skip", written at its dot path.
 */
module EventBuilder {
  import opened Strings
  import opened Values
  import opened Coercion
  import opened PathSpec
  import opened PathEngine

  /** `{ "event": eventName }`. */
  function InitialEventData(eventName: string): (r: Node)
    ensures r.Obj? && r.fields.Keys == {"event"} && Get(r, Field("event")) == Str(eventName)
  {
    Obj(map["event" := Str(eventName)])
  }

  /** The value a row contributes, or `Undefined` for a row that is skipped. */
  function TypedValue(row: Row): Node {
    GetTypedValue(row.varValue, row.varType)
  }

  /** One pass of the row loop. */
  function ApplyRow(eventData: Node, row: Row): (r: Node)
    requires eventData.Obj?
    ensures r.Obj?
    ensures TypedValue(row) == Undefined ==> r == eventData
    ensures TypedValue(row) != Undefined ==> r == Assign(eventData, row.varName, TypedValue(row))
  {
    var typedValue := TypedValue(row);
    if typedValue != Undefined then Assign(eventData, row.varName, typedValue) else eventData
  }

  /** The rows applied in table order. */
  function ApplyRows(eventData: Node, rows: seq<Row>): (r: Node)
    requires eventData.Obj?
    ensures r.Obj?
    decreases |rows|
  {
    if rows == [] then eventData
    else ApplyRow(ApplyRows(eventData, rows[..|rows| - 1]), rows[|rows| - 1])
  }

  /** The object pushed to the data layer. */
  function EventData(eventName: string, addEventData: bool, eventParameters: seq<Row>): (r: Node)
    ensures r.Obj?
    ensures !addEventData ==> r == InitialEventData(eventName)
  {
    if addEventData then ApplyRows(InitialEventData(eventName), eventParameters) else InitialEventData(eventName)
  }

  /** The main flow's construction of `eventData`. */
  method BuildEventData(eventName: string, addEventData: bool, eventParameters: seq<Row>) returns (eventData: Node)
    ensures eventData == EventData(eventName, addEventData, eventParameters)
  {
    eventData := Obj(map["event" := Str(eventName)]);
    if addEventData {
      var i := 0;
      while i < |eventParameters|
        invariant 0 <= i <= |eventParameters|
        invariant eventData == ApplyRows(InitialEventData(eventName), eventParameters[..i])
      {
        RowStep(InitialEventData(eventName), eventParameters, i);
        eventData := AddRow(eventData, eventParameters[i]);
        i := i + 1;
      }
      assert eventParameters[..i] == eventParameters;
    }
  }

  /** The body of the row loop: coerce the row's value and, unless it is skipped, write it. */
  method AddRow(eventData: Node, row: Row) returns (r: Node)
    requires eventData.Obj?
    ensures r == ApplyRow(eventData, row)
  {
    var typedValue := GetTypedValue(row.varValue, row.varType);
    r := eventData;
    if typedValue != Undefined {
      r := SetNestedValue(eventData, row.varName, typedValue);
    }
  }

  lemma RowStep(eventData: Node, rows: seq<Row>, i: nat)
    requires eventData.Obj? && i < |rows|
    ensures ApplyRows(eventData, rows[..i + 1]) == ApplyRow(ApplyRows(eventData, rows[..i]), rows[i])
  {
    assert rows[..i + 1] == rows[..i] + [rows[i]];
    ApplyRowsSnoc(eventData, rows[..i], rows[i]);
  }

  // ---------------------------------------------------------------------------
  // Properties of the row loop
  // ---------------------------------------------------------------------------

  /** Applying two tables one after the other is applying their concatenation. */
  lemma {:induction false} ApplyRowsConcat(eventData: Node, a: seq<Row>, b: seq<Row>)
    requires eventData.Obj?
    ensures ApplyRows(eventData, a + b) == ApplyRows(ApplyRows(eventData, a), b)
    decreases |b|
  {
    if b == [] {
      assert a + b == a;
    } else {
      var front := b[..|b| - 1];
      var last := b[|b| - 1];
      assert b == front + [last];
      assert a + b == (a + front) + [last];
      ApplyRowsSnoc(eventData, a + front, last);
      ApplyRowsConcat(eventData, a, front);
      ApplyRowsSnoc(ApplyRows(eventData, a), front, last);
    }
  }

  lemma ApplyRowsSnoc(eventData: Node, rows: seq<Row>, row: Row)
    requires eventData.Obj?
    ensures ApplyRows(eventData, rows + [row]) == ApplyRow(ApplyRows(eventData, rows), row)
  {
    assert (rows + [row])[..|rows|] == rows;
  }

  /** A row that coerces to "skip" can be removed from the table without effect. */
  lemma SkippedRow(eventData: Node, before: seq<Row>, row: Row, after: seq<Row>)
    requires eventData.Obj? && TypedValue(row) == Undefined
    ensures ApplyRows(eventData, before + [row] + after) == ApplyRows(eventData, before + after)
  {
    ApplyRowsConcat(eventData, before + [row], after);
    ApplyRowsConcat(eventData, before, after);
    assert (before + [row])[..|before + [row]| - 1] == before;
  }

  /** The first segment of a row's path: the only top-level key the row can touch. */
  function TopKey(row: Row): string {
    Split(row.varName, '.')[0]
  }

  /** Only the top-level keys the rows name can change or appear. */
  lemma {:induction false} UntouchedKeys(eventData: Node, rows: seq<Row>, k: string)
    requires eventData.Obj?
    requires forall j :: 0 <= j < |rows| ==> TopKey(rows[j]) != k
    ensures Get(ApplyRows(eventData, rows), Field(k)) == Get(eventData, Field(k))
    ensures k !in eventData.fields ==> k !in ApplyRows(eventData, rows).fields
    decreases |rows|
  {
    if rows != [] {
      var init := rows[..|rows| - 1];
      forall j | 0 <= j < |init|
        ensures TopKey(init[j]) != k
      {
        assert init[j] == rows[j];
      }
      UntouchedKeys(eventData, init, k);
      assert TopKey(rows[|rows| - 1]) != k;
    }
  }

  /** Unless some row's path starts with `event`, the pushed object keeps the event name. */
  lemma EventNameKept(eventName: string, addEventData: bool, eventParameters: seq<Row>)
    requires forall j :: 0 <= j < |eventParameters| ==> TopKey(eventParameters[j]) != "event"
    ensures Get(EventData(eventName, addEventData, eventParameters), Field("event")) == Str(eventName)
  {
    if addEventData {
      UntouchedKeys(InitialEventData(eventName), eventParameters, "event");
    }
  }

  /** The last row, when it is not skipped and its path is a chain of plain
      keys, can be read back from the pushed object. */
  lemma LastRowReadable(eventName: string, eventParameters: seq<Row>, row: Row)
    requires TypedValue(row) != Undefined && row.varName != "" && PlainPath(Split(row.varName, '.'))
    ensures Lookup(EventData(eventName, true, eventParameters + [row]), Split(row.varName, '.')) == TypedValue(row)
  {
    var rows := eventParameters + [row];
    assert rows[..|rows| - 1] == eventParameters && rows[|rows| - 1] == row;
    GetAfterSet(ApplyRows(InitialEventData(eventName), eventParameters), row.varName, TypedValue(row));
  }
}
