/**
 * The values the templates build and read. A `Node` is one JavaScript value
 * as GTM's `getType` classifies it: a scalar, an object (a map of named
 * children) or an array (an ordered list of children). The event payload is a
 * tree of nodes whose root is an object.
 */
module Values {
  import opened Wrappers
  import opened Strings
  import opened Numbers

  datatype Node =
    | Undefined                          // `undefined`; also what reading a missing key or an array hole gives
    | Null
    | Bool(b: bool)
    | Num(n: Decimal)                    // a finite number
    | NaN
    | Str(s: string)
    | Obj(fields: map<string, Node>)     // getType(v) == 'object'
    | Arr(items: seq<Node>)              // getType(v) == 'array'

  /** One row of the template's parameters table: a name (a dot path in the
      current template, a flat key in the earlier one), a raw value and the
      chosen type, the empty string standing for an unset type. */
  datatype Row = Row(varName: string, varValue: Node, varType: string)

  predicate IsContainer(v: Node) {
    v.Obj? || v.Arr?
  }

  /** JavaScript truthiness (`!v` is false). */
  predicate Truthy(v: Node) {
    match v
    case Undefined => false
    case Null => false
    case NaN => false
    case Bool(b) => b
    case Num(n) => n.mantissa != 0
    case Str(s) => s != ""
    case Obj(_) => true
    case Arr(_) => true
  }

  /** `makeString(v)`, the same as `'' + v` for these values. */
  function ToJsString(v: Node): string
    decreases v, 1
  {
    match v
    case Undefined => "undefined"
    case Null => "null"
    case Bool(b) => if b then "true" else "false"
    case Num(n) => DecimalToString(n)
    case NaN => "NaN"
    case Str(s) => s
    case Obj(_) => "[object Object]"
    case Arr(items) => ElementsToString(items)
  }

  /** A string's string form is the string itself. */
  lemma StringOfStr(s: string)
    ensures ToJsString(Str(s)) == s
  {
  }

  /** `items.join(',')`: `null` and `undefined` elements print as nothing. */
  function ElementsToString(items: seq<Node>): string
    decreases items, 0
  {
    if items == [] then ""
    else
      var first := if items[0].Undefined? || items[0].Null? then "" else ToJsString(items[0]);
      if |items| == 1 then first else first + "," + ElementsToString(items[1..])
  }

  /** How `join` prints one element: `null` and `undefined` as nothing. */
  function ElementForm(v: Node): string {
    if v.Undefined? || v.Null? then "" else ToJsString(v)
  }

  function ElementForms(items: seq<Node>): (r: seq<string>)
    ensures |r| == |items| && forall i :: 0 <= i < |items| ==> r[i] == ElementForm(items[i])
  {
    seq(|items|, i requires 0 <= i < |items| => ElementForm(items[i]))
  }

  /** The string form of a list is its elements' forms joined with commas. */
  lemma {:induction false} ElementsJoin(items: seq<Node>)
    ensures ElementsToString(items) == Join(ElementForms(items), ",")
  {
    if |items| > 1 {
      ElementsJoin(items[1..]);
      assert ElementForms(items) == [ElementForm(items[0])] + ElementForms(items[1..]);
      JoinCons(ElementForm(items[0]), ElementForms(items[1..]), ",");
    }
  }

  /** The falsy values are JavaScript's six: undefined, null, NaN, false, 0 and "". */
  lemma FalsyValues(v: Node)
    ensures !Truthy(v) <==> v in {Undefined, Null, NaN, Bool(false), Str("")} || (v.Num? && v.n.mantissa == 0)
  {
  }

  /** `makeNumber(s)` for a string. */
  function MakeNumber(s: string): (r: Node)
    ensures r.Num? || r.NaN?
    ensures r.NaN? <==> ParseNumber(s).None?
  {
    match ParseNumber(s)
    case None => NaN
    case Some(d) => Num(d)
  }

  // ---------------------------------------------------------------------------
  // Array indices
  // ---------------------------------------------------------------------------

  /** Arrays hold at most 2^32 - 1 elements, so indices are below that. */
  const MaxArrayLength: nat := 4294967295

  /** The element position a property key names on an array: the key must be
      the canonical decimal form of an index. Any other key ("01", "-0", "x")
      names an ordinary property of the array object, not an element. */
  function ArrayIndex(key: string): (r: Option<nat>)
    ensures r.Some? ==> r.value < MaxArrayLength && key == NatToDigits(r.value)
  {
    if |key| >= 1 && AllDigits(key) && (key[0] != '0' || key == "0") && DigitsValue(key) < MaxArrayLength
    then
      DigitsCanonical(key);
      Some(DigitsValue(key))
    else None
  }

  /** Every index below the maximum length is named by its decimal form, and by no other key. */
  lemma ArrayIndexOfDigits(n: nat)
    requires n < MaxArrayLength
    ensures ArrayIndex(NatToDigits(n)) == Some(n)
  {
    DigitsRoundTrip(n);
  }
}
