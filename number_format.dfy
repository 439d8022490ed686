/**
 * `normalizeNumberString` (template.js): decides whether `.` and `,` in a
 * numeric string are thousands separators or the decimal mark, removes the
 * thousands separators and turns the decimal mark into `.`. It never fails.
 */
module NumberFormat {
  import opened Strings

  /** `normalizeNumberString(numberString)`, written with the same split/join
      steps as the source; the contract restates each case with the reference
      counting and replacing functions. */
  function NormalizeNumberString(numberString: string): (r: string)
    ensures ',' !in r
    // both separators: whichever occurs last is the decimal mark
    ensures '.' in numberString && ',' in numberString
            && LastIndexOf(numberString, ',') > LastIndexOf(numberString, '.')
            ==> r == ReplaceAll(ReplaceAll(numberString, '.', ""), ',', ".")
    ensures '.' in numberString && ',' in numberString
            && LastIndexOf(numberString, ',') < LastIndexOf(numberString, '.')
            ==> r == ReplaceAll(numberString, ',', "")
    // only commas: several are thousands separators, a single one is the decimal mark
    ensures '.' !in numberString && CountChar(numberString, ',') > 1 ==> r == ReplaceAll(numberString, ',', "")
    ensures '.' !in numberString && CountChar(numberString, ',') == 1 ==> r == ReplaceAll(numberString, ',', ".")
    // only dots: several are thousands separators, a single one stays
    ensures ',' !in numberString && CountChar(numberString, '.') > 1 ==> r == ReplaceAll(numberString, '.', "")
    ensures ',' !in numberString && CountChar(numberString, '.') <= 1 ==> r == numberString
  {
    var hasDots := IndexOf(numberString, '.') != -1;
    var hasCommas := IndexOf(numberString, ',') != -1;
    CountCharZero(numberString, ',');
    CountCharZero(numberString, '.');
    if hasDots && hasCommas then
      var lastDotPosition := LastIndexOf(numberString, '.');
      var lastCommaPosition := LastIndexOf(numberString, ',');
      if lastCommaPosition > lastDotPosition then
        // the last comma is the decimal mark: dots group, the comma becomes a point
        var noDots := Join(Split(numberString, '.'), "");
        JoinSplitReplaces(numberString, '.', "");
        JoinSplitReplaces(noDots, ',', ".");
        ReplaceAllRemoves(noDots, ',', ".");
        Join(Split(noDots, ','), ".")
      else
        // the last dot is the decimal mark: commas group and are dropped
        JoinSplitReplaces(numberString, ',', "");
        ReplaceAllRemoves(numberString, ',', "");
        Join(Split(numberString, ','), "")
    else if hasCommas then
      var commaCount := |Split(numberString, ',')| - 1;
      SplitCounts(numberString, ',');
      if commaCount > 1 then
        JoinSplitReplaces(numberString, ',', "");
        ReplaceAllRemoves(numberString, ',', "");
        Join(Split(numberString, ','), "")
      else
        JoinSplitReplaces(numberString, ',', ".");
        ReplaceAllRemoves(numberString, ',', ".");
        Join(Split(numberString, ','), ".")
    else if hasDots then
      var dotsCount := |Split(numberString, '.')| - 1;
      SplitCounts(numberString, '.');
      if dotsCount > 1 then
        JoinSplitReplaces(numberString, '.', "");
        ReplaceAllAbsent(numberString, ',', "");
        ReplaceAllChars2(numberString, '.', "", ',');
        Join(Split(numberString, '.'), "")
      else numberString
    else numberString
  }

  lemma ReplaceAllChars2(s: string, c: char, repl: string, x: char)
    requires x !in s && x !in repl
    ensures x !in ReplaceAll(s, c, repl)
  {
    if x in ReplaceAll(s, c, repl) {
      ReplaceAllChars(s, c, repl, x);
    }
  }

  /** A string without `.` and `,`. */
  function Unseparated(s: string): (r: string)
    ensures '.' !in r && ',' !in r
  {
    if s == [] then [] else (if s[0] == '.' || s[0] == ',' then [] else [s[0]]) + Unseparated(s[1..])
  }

  lemma {:induction false} UnseparatedAppend(a: string, b: string)
    ensures Unseparated(a + b) == Unseparated(a) + Unseparated(b)
  {
    if a != [] {
      assert (a + b)[0] == a[0] && (a + b)[1..] == a[1..] + b;
      UnseparatedAppend(a[1..], b);
    } else {
      assert a + b == b;
    }
  }

  /** Replacing a separator by separators leaves every other character where it was. */
  lemma {:induction false} ReplaceKeepsDigits(s: string, c: char, repl: string)
    requires c == '.' || c == ','
    requires repl == "" || repl == "."
    ensures Unseparated(ReplaceAll(s, c, repl)) == Unseparated(s)
  {
    if s != [] {
      var head := if s[0] == c then repl else [s[0]];
      ReplaceKeepsDigits(s[1..], c, repl);
      UnseparatedAppend(head, ReplaceAll(s[1..], c, repl));
      assert Unseparated(repl) == [] by {
        if repl == "." {
          assert repl[1..] == [];
        }
      }
      assert Unseparated([s[0]]) == (if s[0] == '.' || s[0] == ',' then [] else [s[0]]) by {
        assert [s[0]][1..] == [];
      }
    }
  }

  /** Normalising only removes or rewrites separators: the other characters
      (the digits, a sign, anything else) stay, in their order. */
  lemma NormalizeKeepsDigits(s: string)
    ensures Unseparated(NormalizeNumberString(s)) == Unseparated(s)
  {
    var r := NormalizeNumberString(s);
    CountCharZero(s, ',');
    CountCharZero(s, '.');
    var lastDot := LastIndexOf(s, '.');
    var lastComma := LastIndexOf(s, ',');
    if '.' in s && ',' in s {
      if lastComma > lastDot {
        ReplaceKeepsDigits(s, '.', "");
        ReplaceKeepsDigits(ReplaceAll(s, '.', ""), ',', ".");
      } else {
        assert lastComma != lastDot by {
          assert s[lastComma] == ',' && s[lastDot] == '.';
        }
        ReplaceKeepsDigits(s, ',', "");
      }
    } else if ',' in s {
      ReplaceKeepsDigits(s, ',', "");
      ReplaceKeepsDigits(s, ',', ".");
    } else if '.' in s {
      ReplaceKeepsDigits(s, '.', "");
    }
  }

  /** Replacing the one occurrence of `c` between two pieces without it. */
  lemma ReplaceSingle(a: string, b: string, c: char, repl: string)
    requires c !in a && c !in b
    ensures ReplaceAll(a + [c] + b, c, repl) == a + repl + b
  {
    ReplaceAllConcat(a + [c], b, c, repl);
    ReplaceAllConcat(a, [c], c, repl);
    ReplaceAllOne(c, c, repl);
    ReplaceAllAbsent(a, c, repl);
    ReplaceAllAbsent(b, c, repl);
  }

  /** Concatenation regrouped so that the part after `a + b` is one piece
      (used to locate the separators of `whole <first> group <second> fraction`). */
  lemma Regroup(a: string, b: string, c: string, d: string, e: string)
    ensures a + b + c + d + e == a + b + (c + d + e)
  {
  }

  lemma GroupedPositions(whole: string, first: char, group: string, second: char, fraction: string)
    requires first != second
    requires first !in group && first !in fraction
    requires second !in fraction
    ensures LastIndexOf(whole + [first] + group + [second] + fraction, first) == |whole|
    ensures LastIndexOf(whole + [first] + group + [second] + fraction, second) == |whole| + 1 + |group|
  {
    var head := whole + [first] + group;
    var tail := group + [second] + fraction;
    Regroup(whole, [first], group, [second], fraction);
    assert first !in tail;
    LastIndexOfBefore(head, second, fraction);
    LastIndexOfBefore(whole, first, tail);
  }

  /** A grouped number in European style, "1.234,56": the dots are removed
      and the comma becomes the decimal point. */
  lemma NormalizeEuropean(whole: string, group: string, fraction: string)
    requires '.' !in whole && ',' !in whole
    requires '.' !in group && ',' !in group
    requires '.' !in fraction && ',' !in fraction
    ensures NormalizeNumberString(whole + "." + group + "," + fraction) == whole + group + "." + fraction
  {
    var s := whole + "." + group + "," + fraction;
    GroupedPositions(whole, '.', group, ',', fraction);
    var tail := group + "," + fraction;
    assert s == whole + ['.'] + tail;
    assert '.' !in tail;
    ReplaceSingle(whole, tail, '.', "");
    Reassociate(whole, group, ",", fraction);
    ReplaceSingle(whole + group, fraction, ',', ".");
    EuropeanCase(s);
  }

  /** A grouped number in US style, "1,234.56": the commas are removed. */
  lemma NormalizeUs(whole: string, group: string, fraction: string)
    requires '.' !in whole && ',' !in whole
    requires '.' !in group && ',' !in group
    requires '.' !in fraction && ',' !in fraction
    ensures NormalizeNumberString(whole + "," + group + "." + fraction) == whole + group + "." + fraction
  {
    var s := whole + "," + group + "." + fraction;
    GroupedPositions(whole, ',', group, '.', fraction);
    var tail := group + "." + fraction;
    assert s == whole + [','] + tail;
    assert ',' !in tail;
    ReplaceSingle(whole, tail, ',', "");
    UsCase(s);
    Reassociate(whole, group, ".", fraction);
  }

  /** Concatenation regrouped, with the empty replacement of a removed separator dropped. */
  lemma Reassociate(a: string, b: string, c: string, d: string)
    ensures a + "" + (b + c + d) == a + b + c + d
  {
  }

  /** The US case of the normaliser, in a context of its own. */
  lemma UsCase(s: string)
    requires LastIndexOf(s, ',') >= 0 && LastIndexOf(s, ',') < LastIndexOf(s, '.')
    ensures NormalizeNumberString(s) == ReplaceAll(s, ',', "")
  {
  }

  /** The European case of the normaliser, in a context of its own. */
  lemma EuropeanCase(s: string)
    requires LastIndexOf(s, '.') >= 0 && LastIndexOf(s, ',') > LastIndexOf(s, '.')
    ensures NormalizeNumberString(s) == ReplaceAll(ReplaceAll(s, '.', ""), ',', ".")
  {
  }

  /** Counting the one `c` between two pieces without it. */
  lemma CountSingle(a: string, b: string, c: char)
    requires c !in a && c !in b
    ensures CountChar(a + [c] + b, c) == 1
  {
    CountCharConcat(a + [c], b, c);
    CountCharConcat(a, [c], c);
    CountCharZero(a, c);
    CountCharZero(b, c);
    assert [c][1..] == [];
  }

  /** Two occurrences of `c` after pieces without it: at least two are counted,
      and removing them all joins the pieces. */
  lemma TwoSeparators(whole: string, group: string, rest: string, c: char)
    requires c !in whole && c !in group
    ensures CountChar(whole + [c] + group + [c] + rest, c) >= 2
    ensures ReplaceAll(whole + [c] + group + [c] + rest, c, "") == whole + group + ReplaceAll(rest, c, "")
  {
    var tail := group + [c] + rest;
    Regroup(whole, [c], group, [c], rest);
    CountCharConcat(whole + [c], tail, c);
    CountCharConcat(group + [c], rest, c);
    CountSingle(whole, [], c);
    CountSingle(group, [], c);
    assert whole + [c] + [] == whole + [c] && group + [c] + [] == group + [c];
    assert whole + "" + [] == whole && group + "" + [] == group;
    ReplaceAllConcat(whole + [c], tail, c, "");
    ReplaceAllConcat(group + [c], rest, c, "");
    ReplaceSingle(whole, [], c, "");
    ReplaceSingle(group, [], c, "");
  }

  /** Dots alone, two or more of them, "1.234.567": they are all thousands separators. */
  lemma NormalizeThousandDots(whole: string, group: string, rest: string)
    requires '.' !in whole && ',' !in whole
    requires '.' !in group && ',' !in group
    requires ',' !in rest
    ensures NormalizeNumberString(whole + "." + group + "." + rest) == whole + group + ReplaceAll(rest, '.', "")
  {
    TwoSeparators(whole, group, rest, '.');
    assert ',' !in whole + "." + group + "." + rest;
  }

  /** A single dot alone is already the decimal point: nothing changes. */
  lemma NormalizeDecimalDot(whole: string, fraction: string)
    requires '.' !in whole && ',' !in whole
    requires '.' !in fraction && ',' !in fraction
    ensures NormalizeNumberString(whole + "." + fraction) == whole + "." + fraction
  {
    CountSingle(whole, fraction, '.');
  }

  /** Commas alone, two or more of them, "1,234,567": they are all thousands separators. */
  lemma NormalizeThousandCommas(whole: string, group: string, rest: string)
    requires '.' !in whole && ',' !in whole
    requires '.' !in group && ',' !in group
    requires '.' !in rest
    ensures NormalizeNumberString(whole + "," + group + "," + rest) == whole + group + ReplaceAll(rest, ',', "")
  {
    TwoSeparators(whole, group, rest, ',');
    assert '.' !in whole + "," + group + "," + rest;
  }

  /** A single comma alone is the decimal mark, "3,5": it becomes a point. */
  lemma NormalizeDecimalComma(whole: string, fraction: string)
    requires '.' !in whole && ',' !in whole
    requires '.' !in fraction && ',' !in fraction
    ensures NormalizeNumberString(whole + "," + fraction) == whole + "." + fraction
  {
    CountSingle(whole, fraction, ',');
    ReplaceSingle(whole, fraction, ',', ".");
  }
}
