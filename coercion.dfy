/**
 * `getTypedValue` (template.js): the conversion of a row's raw value to the
 * type chosen in the row. `Undefined` is the "skip this row" answer.
 */
module Coercion {
  import opened Wrappers
  import opened Strings
  import opened Numbers
  import opened Values
  import opened NumberFormat

  /** Lower-cased words read as `true`. */
  const TrueWords: set<string> := {"true", "1", "yes", "granted", "on", "accepted", "enabled"}

  /** Lower-cased words read as `false`. */
  const FalseWords: set<string> := {"false", "0", "no", "denied", "off", "rejected", "disabled"}

  /** `makeString(rawValue).trim()`. */
  function StringValue(rawValue: Node): string {
    Trim(ToJsString(rawValue))
  }

  /** The number a string denotes once its separators are normalised, or NaN. */
  function NumberValue(stringValue: string): Node {
    MakeNumber(NormalizeNumberString(stringValue))
  }

  /** A normalised string is a number exactly when it parses; otherwise it is NaN. */
  lemma NumberValueParses(stringValue: string)
    ensures NumberValue(stringValue).Num? || NumberValue(stringValue).NaN?
    ensures NumberValue(stringValue).NaN? <==> ParseNumber(NormalizeNumberString(stringValue)).None?
  {
  }

  /** The boolean a trimmed string denotes: one of the listed words, in any case, or skip. */
  function BooleanValue(stringValue: string): (r: Node)
    ensures r == Bool(true) <==> ToLower(stringValue) in TrueWords
    ensures r == Bool(false) <==> ToLower(stringValue) in FalseWords
    ensures r == Undefined || r.Bool?
  {
    var lowerCaseValue := ToLower(stringValue);
    BooleanWordsDisjoint(lowerCaseValue);
    if lowerCaseValue in TrueWords then Bool(true)
    else if lowerCaseValue in FalseWords then Bool(false)
    else Undefined
  }

  /** The types a row can ask for; `Other` is any name the conversion does not know. */
  datatype DesiredType = Inherit | NumberType | BooleanType | StringType | Other

  /** The type a row's type name selects; the empty name stands for an unset one. */
  function TypeOf(desiredType: string): (t: DesiredType)
    ensures t == Inherit <==> desiredType == "inherit" || desiredType == ""
    ensures t == NumberType <==> desiredType == "number"
    ensures t == BooleanType <==> desiredType == "boolean"
    ensures t == StringType <==> desiredType == "string"
  {
    if desiredType == "inherit" || desiredType == "" then Inherit
    else if desiredType == "number" then NumberType
    else if desiredType == "boolean" then BooleanType
    else if desiredType == "string" then StringType
    else Other
  }

  /** The conversion of one raw value to a selected type. */
  function Convert(rawValue: Node, t: DesiredType): (r: Node)
    ensures t == Inherit || t == Other ==> r == rawValue
    ensures t == StringType ==> r == Str(StringValue(rawValue))
  {
    match t
    case Inherit => rawValue
    case NumberType =>
      var numValue := NumberValue(StringValue(rawValue));
      if numValue.NaN? then Undefined else numValue
    case BooleanType => BooleanValue(StringValue(rawValue))
    case StringType => Str(StringValue(rawValue))
    case Other => rawValue
  }

  /** `getTypedValue(rawValue, desiredType)`. */
  function GetTypedValue(rawValue: Node, desiredType: string): (r: Node)
    // inherit, unset and unknown types pass the raw value through
    ensures desiredType == "inherit" || desiredType == "" ==> r == rawValue
    ensures desiredType != "number" && desiredType != "boolean" && desiredType != "string" ==> r == rawValue
    // the string conversion is the trimmed string form; NumberCoercion and
    // BooleanCoercion state the other two conversions
    ensures desiredType == "string" ==> r == Str(StringValue(rawValue))
  {
    Convert(rawValue, TypeOf(desiredType))
  }

  /** The three conversion type names select their conversions. */
  lemma TypeNames()
    ensures TypeOf("number") == NumberType && TypeOf("boolean") == BooleanType && TypeOf("string") == StringType
  {
  }

  /** No word is read both ways. */
  lemma BooleanWordsDisjoint(w: string)
    ensures !(w in TrueWords && w in FalseWords)
  {
  }

  /** Converting to a string twice is the same as converting once. */
  lemma StringIdempotent(rawValue: Node)
    ensures GetTypedValue(GetTypedValue(rawValue, "string"), "string") == GetTypedValue(rawValue, "string")
  {
    var t := StringValue(rawValue);
    var once := GetTypedValue(rawValue, "string");
    assert once == Str(t) by { StringCoercion(rawValue); }
    assert GetTypedValue(once, "string") == Str(StringValue(once)) by { StringCoercion(once); }
    assert StringValue(once) == t by { StringOfTrimmed(ToJsString(rawValue)); }
  }

  /** An already trimmed string is its own string form. */
  lemma StringOfTrimmed(s: string)
    ensures StringValue(Str(Trim(s))) == Trim(s)
  {
    StringOfStr(Trim(s));
    TrimIdempotent(s);
  }

  lemma StringCoercion(rawValue: Node)
    ensures GetTypedValue(rawValue, "string") == Str(StringValue(rawValue))
  {
    TypeNames();
  }

  /** The number conversion: the normalised trimmed string form, skipped when it is not a number. */
  lemma NumberCoercion(rawValue: Node)
    ensures GetTypedValue(rawValue, "number") == Undefined <==> NumberValue(StringValue(rawValue)).NaN?
    ensures GetTypedValue(rawValue, "number") != Undefined ==>
      GetTypedValue(rawValue, "number") == NumberValue(StringValue(rawValue)) && Canonical(GetTypedValue(rawValue, "number").n)
  {
    TypeNames();
  }

  /** The boolean conversion: the word the trimmed string form spells. */
  lemma BooleanCoercion(rawValue: Node)
    ensures GetTypedValue(rawValue, "boolean") == BooleanValue(StringValue(rawValue))
  {
    TypeNames();
  }

  /** Boolean conversion ignores the case of the text. */
  lemma BooleanIgnoresCase(s: string)
    ensures GetTypedValue(Str(ToLower(s)), "boolean") == GetTypedValue(Str(s), "boolean")
  {
    TypeNames();
    calc {
      GetTypedValue(Str(ToLower(s)), "boolean");
      { BooleanOfString(ToLower(s)); }
      BooleanValue(Trim(ToLower(s)));
      { TrimLower(s); }
      BooleanValue(ToLower(Trim(s)));
      { BooleanOfLower(Trim(s)); }
      BooleanValue(Trim(s));
      { BooleanOfString(s); }
      GetTypedValue(Str(s), "boolean");
    }
  }

  lemma BooleanOfString(s: string)
    ensures GetTypedValue(Str(s), "boolean") == BooleanValue(Trim(s))
  {
    BooleanCoercion(Str(s));
    StringValueOfStr(s);
  }

  /** The string form of a string is the string itself. */
  lemma StringValueOfStr(s: string)
    ensures StringValue(Str(s)) == Trim(s)
  {
    StringOfStr(s);
  }

  /** Lower-casing before the word lookup changes nothing. */
  lemma BooleanOfLower(s: string)
    ensures BooleanValue(ToLower(s)) == BooleanValue(s)
  {
    ToLowerIdempotent(s);
  }

  /** A boolean converted to a boolean is itself. */
  lemma BooleanRoundTrip(b: bool)
    ensures GetTypedValue(Bool(b), "boolean") == Bool(b)
  {
    TypeNames();
    if b {
      TrueRoundTrip();
    } else {
      FalseRoundTrip();
    }
  }

  lemma TrueRoundTrip()
    ensures GetTypedValue(Bool(true), "boolean") == Bool(true)
  {
    TypeNames();
    BooleanCoercion(Bool(true));
    TrueText();
    assert "true" in TrueWords;
  }

  /** The text of `true`, trimmed and lower-cased, is "true". */
  lemma TrueText()
    ensures StringValue(Bool(true)) == "true" && ToLower("true") == "true"
  {
    LettersUntrimmed('t', 'e');
    LettersUnchanged4('t', 'r', 'u', 'e');
  }

  lemma FalseRoundTrip()
    ensures GetTypedValue(Bool(false), "boolean") == Bool(false)
  {
    TypeNames();
    BooleanCoercion(Bool(false));
    FalseText();
    assert "false" in FalseWords;
  }

  /** The text of `false`, trimmed and lower-cased, is "false". */
  lemma FalseText()
    ensures StringValue(Bool(false)) == "false" && ToLower("false") == "false"
  {
    LettersUntrimmed('f', 'e');
    LettersUnchanged5('f', 'a', 'l', 's', 'e');
  }

  /** Letters are not whitespace, so a word of letters is its own trimmed form. */
  lemma LettersUntrimmed(first: char, last: char)
    requires 'a' <= first <= 'z' && 'a' <= last <= 'z'
    ensures !IsWhitespace(first) && !IsWhitespace(last)
  {
  }

  /** Lower-casing leaves a word of lower-case letters as it is. */
  lemma LettersUnchanged4(c0: char, c1: char, c2: char, c3: char)
    requires 'a' <= c0 <= 'z' && 'a' <= c1 <= 'z' && 'a' <= c2 <= 'z' && 'a' <= c3 <= 'z'
    ensures ToLower([c0, c1, c2, c3]) == [c0, c1, c2, c3]
  {
    var w := [c0, c1, c2, c3];
    assert LowerChar(w[0]) == w[0] && LowerChar(w[1]) == w[1] && LowerChar(w[2]) == w[2] && LowerChar(w[3]) == w[3];
  }

  lemma LettersUnchanged5(c0: char, c1: char, c2: char, c3: char, c4: char)
    requires 'a' <= c0 <= 'z' && 'a' <= c1 <= 'z' && 'a' <= c2 <= 'z' && 'a' <= c3 <= 'z' && 'a' <= c4 <= 'z'
    ensures ToLower([c0, c1, c2, c3, c4]) == [c0, c1, c2, c3, c4]
  {
    var w := [c0, c1, c2, c3, c4];
    assert LowerChar(w[0]) == w[0] && LowerChar(w[1]) == w[1] && LowerChar(w[2]) == w[2] && LowerChar(w[3]) == w[3];
    assert LowerChar(w[4]) == w[4];
  }

  /** A number converted to a number is the same number, in canonical form. */
  lemma NumberRoundTrip(d: Decimal)
    ensures GetTypedValue(Num(d), "number") == Num(Canonicalize(d.mantissa, d.scale))
  {
    NumberCoercion(Num(d));
    StringValueOfNum(d);
    NumberValueOfDecimal(d);
  }

  /** A number's string form needs no trimming. */
  lemma StringValueOfNum(d: Decimal)
    ensures StringValue(Num(d)) == DecimalToString(d)
  {
  }

  /** A number's string form converts back to the number, in canonical form. */
  lemma NumberValueOfDecimal(d: Decimal)
    ensures NumberValue(DecimalToString(d)) == Num(Canonicalize(d.mantissa, d.scale))
  {
    var s := DecimalToString(d);
    CountCharZero(s, ',');
    assert NormalizeNumberString(s) == s;
    DecimalRoundTrip(d);
  }

  /** Converting to a number twice is the same as converting once. The lemma is
      about values the conversion keeps; for a skipped value the second
      conversion reads the text `undefined`, which this lemma does not cover. */
  lemma NumberIdempotent(rawValue: Node)
    requires GetTypedValue(rawValue, "number") != Undefined
    ensures GetTypedValue(GetTypedValue(rawValue, "number"), "number") == GetTypedValue(rawValue, "number")
  {
    TypeNames();
    var r := GetTypedValue(rawValue, "number");
    NumberRoundTrip(r.n);
  }

  /** Whatever the type, converting a value the conversion keeps a second time
      changes nothing: an already typed value passes through its own type. */
  lemma TypedValueIdempotent(rawValue: Node, desiredType: string)
    requires GetTypedValue(rawValue, desiredType) != Undefined
    ensures GetTypedValue(GetTypedValue(rawValue, desiredType), desiredType) == GetTypedValue(rawValue, desiredType)
  {
    if desiredType == "number" {
      NumberIdempotent(rawValue);
    } else if desiredType == "boolean" {
      BooleanCoercion(rawValue);
      BooleanRoundTrip(GetTypedValue(rawValue, desiredType).b);
    } else if desiredType == "string" {
      StringIdempotent(rawValue);
    }
  }

  /** A string that starts and ends with a digit is its own trimmed form. */
  lemma StringValueOfDigits(s: string)
    requires |s| >= 1 && IsDigit(s[0]) && IsDigit(s[|s| - 1])
    ensures StringValue(Str(s)) == s
  {
    TrimmedBetweenDigits(s);
  }

  /** A digit string converts to its value. */
  lemma NumberOfDigits(s: string)
    requires |s| >= 1 && AllDigits(s)
    ensures GetTypedValue(Str(s), "number") == Num(Canonicalize(DigitsValue(s), 0))
  {
    TypeNames();
    DigitsNumberValue(s);
    StringValueOfDigits(s);
  }

  lemma DigitsNumberValue(s: string)
    requires |s| >= 1 && AllDigits(s)
    ensures NumberValue(s) == Num(Canonicalize(DigitsValue(s), 0))
  {
    DigitsHaveNoSeparator(s);
    CountCharZero(s, '.');
    CountCharZero(s, ',');
    assert NormalizeNumberString(s) == s;
    DigitsNumber(s);
  }

  /** The pieces of a grouped number: digits, with at least one before the first
      separator and after the last. */
  predicate GroupedDigits(whole: string, group: string, fraction: string) {
    |whole| >= 1 && AllDigits(whole) && AllDigits(group) && |fraction| >= 1 && AllDigits(fraction)
  }

  /** A grouped number that starts and ends with a digit is its own trimmed form. */
  lemma GroupedStringValue(whole: string, first: string, group: string, second: string, fraction: string)
    requires GroupedDigits(whole, group, fraction)
    ensures StringValue(Str(whole + first + group + second + fraction)) == whole + first + group + second + fraction
  {
    var s := whole + first + group + second + fraction;
    assert IsDigit(whole[0]) && IsDigit(fraction[|fraction| - 1]);
    assert s[0] == whole[0] && s[|s| - 1] == fraction[|fraction| - 1];
    StringValueOfDigits(s);
  }

  /** "1.234,56" and the like: a European-grouped digit string converts to its value. */
  lemma NumberEuropean(whole: string, group: string, fraction: string)
    requires GroupedDigits(whole, group, fraction)
    ensures GetTypedValue(Str(whole + "." + group + "," + fraction), "number")
         == Num(Canonicalize(DigitsValue(whole + group + fraction), |fraction|))
  {
    TypeNames();
    NumberEuropeanValue(whole, group, fraction);
    GroupedStringValue(whole, ".", group, ",", fraction);
  }

  lemma NumberEuropeanValue(whole: string, group: string, fraction: string)
    requires GroupedDigits(whole, group, fraction)
    ensures NumberValue(whole + "." + group + "," + fraction)
         == Num(Canonicalize(DigitsValue(whole + group + fraction), |fraction|))
  {
    DigitsHaveNoSeparator(whole);
    DigitsHaveNoSeparator(group);
    DigitsHaveNoSeparator(fraction);
    NormalizeEuropean(whole, group, fraction);
    NumberOfPoint(whole + group, fraction);
  }

  /** "1,234.56" and the like: a US-grouped digit string converts to its value. */
  lemma NumberUs(whole: string, group: string, fraction: string)
    requires GroupedDigits(whole, group, fraction)
    ensures GetTypedValue(Str(whole + "," + group + "." + fraction), "number")
         == Num(Canonicalize(DigitsValue(whole + group + fraction), |fraction|))
  {
    TypeNames();
    NumberUsValue(whole, group, fraction);
    GroupedStringValue(whole, ",", group, ".", fraction);
  }

  lemma NumberUsValue(whole: string, group: string, fraction: string)
    requires GroupedDigits(whole, group, fraction)
    ensures NumberValue(whole + "," + group + "." + fraction)
         == Num(Canonicalize(DigitsValue(whole + group + fraction), |fraction|))
  {
    DigitsHaveNoSeparator(whole);
    DigitsHaveNoSeparator(group);
    DigitsHaveNoSeparator(fraction);
    NormalizeUs(whole, group, fraction);
    NumberOfPoint(whole + group, fraction);
  }

  /** The normalised text `whole.fraction` parses to the decimal it spells. */
  lemma NumberOfPoint(whole: string, fraction: string)
    requires |whole| >= 1 && AllDigits(whole) && |fraction| >= 1 && AllDigits(fraction)
    ensures MakeNumber(whole + "." + fraction) == Num(Canonicalize(DigitsValue(whole + fraction), |fraction|))
  {
    var t := whole + "." + fraction;
    assert [whole, fraction] == [whole] + [fraction];
    JoinCons(whole, [fraction], ".");
    assert Join([whole, fraction], ".") == t;
    assert t[0] == whole[0] && t[|t| - 1] == fraction[|fraction| - 1];
    TrimmedBetweenDigits(t);
    assert t[0] == whole[0] && IsDigit(t[0]);
    ParseOfPoint(whole, fraction);
  }
}
