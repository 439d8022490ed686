/**
 * The JavaScript string primitives the templates rely on: `split` and `join`
 * on a one-character separator, `indexOf`/`lastIndexOf`, `trim`,
 * `toLowerCase` and the single-occurrence `replace`. Each one is written the
 * way the host computes it, and lemmas connect `split`/`join` to simple
 * reference definitions (counting, removing and replacing a character).
 */
module Strings {

  // ---------------------------------------------------------------------------
  // Whitespace and trimming
  // ---------------------------------------------------------------------------

  /** The characters `String.prototype.trim` removes: WhiteSpace and LineTerminator. */
  predicate IsWhitespace(c: char) {
    c == '\t' || c == '\n' || c == '\U{B}' || c == '\U{C}' || c == '\r' || c == ' '
    || c == '\U{A0}' || c == '\U{1680}' || ('\U{2000}' <= c <= '\U{200A}')
    || c == '\U{2028}' || c == '\U{2029}' || c == '\U{202F}' || c == '\U{205F}'
    || c == '\U{3000}' || c == '\U{FEFF}'
  }

  function TrimStart(s: string): (r: string)
    ensures |r| <= |s| && r == s[|s| - |r|..]
    ensures r == [] || !IsWhitespace(r[0])
    ensures forall i :: 0 <= i < |s| - |r| ==> IsWhitespace(s[i])
  {
    if s != [] && IsWhitespace(s[0]) then TrimStart(s[1..]) else s
  }

  function TrimEnd(s: string): (r: string)
    ensures |r| <= |s| && r == s[..|r|]
    ensures r == [] || !IsWhitespace(r[|r| - 1])
    ensures forall i :: |r| <= i < |s| ==> IsWhitespace(s[i])
  {
    if s != [] && IsWhitespace(s[|s| - 1]) then TrimEnd(s[..|s| - 1]) else s
  }

  /** `s.trim()`: `s` without its leading and trailing whitespace. */
  function Trim(s: string): (r: string)
    ensures |r| <= |s|
    ensures r == [] || (!IsWhitespace(r[0]) && !IsWhitespace(r[|r| - 1]))
    ensures (s == [] || (!IsWhitespace(s[0]) && !IsWhitespace(s[|s| - 1]))) ==> r == s
    // only whitespace is removed, and only at the two ends
    ensures TrimmedFrom(s, |s| - |TrimStart(s)|, r)
  {
    PrefixOfSuffix(s, TrimStart(s), TrimEnd(TrimStart(s)));
    TrimEnd(TrimStart(s))
  }

  /** `s` is `r` with whitespace before it (the first `k` characters) and after it. */
  predicate TrimmedFrom(s: string, k: nat, r: string) {
    k + |r| <= |s| && r == s[k..k + |r|]
    && (forall i :: 0 <= i < k ==> IsWhitespace(s[i]))
    && (forall i :: k + |r| <= i < |s| ==> IsWhitespace(s[i]))
  }

  /** `r`, a prefix of the suffix `t` of `s`, with whitespace around it. */
  lemma PrefixOfSuffix(s: string, t: string, r: string)
    requires |t| <= |s| && t == s[|s| - |t|..]
    requires forall i :: 0 <= i < |s| - |t| ==> IsWhitespace(s[i])
    requires |r| <= |t| && r == t[..|r|]
    requires forall i :: |r| <= i < |t| ==> IsWhitespace(t[i])
    ensures TrimmedFrom(s, |s| - |t|, r)
  {
    var k := |s| - |t|;
    forall i | k + |r| <= i < |s|
      ensures IsWhitespace(s[i])
    {
      assert s[i] == t[i - k];
    }
  }

  /** Trimming an already trimmed string changes nothing. */
  lemma TrimIdempotent(s: string)
    ensures Trim(Trim(s)) == Trim(s)
  {
  }

  // ---------------------------------------------------------------------------
  // Case conversion
  // ---------------------------------------------------------------------------

  function LowerChar(c: char): (r: char)
    ensures 'A' <= c <= 'Z' ==> r as int == c as int + 32
    ensures !('A' <= c <= 'Z') ==> r == c
  {
    if 'A' <= c <= 'Z' then (c as int + 32) as char else c
  }

  /** `s.toLowerCase()` restricted to the ASCII letters. */
  function ToLower(s: string): (r: string)
    ensures |r| == |s|
    ensures forall i :: 0 <= i < |s| ==> r[i] == LowerChar(s[i])
  {
    if s == [] then [] else [LowerChar(s[0])] + ToLower(s[1..])
  }

  /** Lower-casing is idempotent. */
  lemma ToLowerIdempotent(s: string)
    ensures ToLower(ToLower(s)) == ToLower(s)
  {
  }

  /** Lower-casing neither creates nor removes whitespace. */
  lemma LowerKeepsWhitespace(c: char)
    ensures IsWhitespace(LowerChar(c)) == IsWhitespace(c)
  {
  }

  lemma {:induction false} TrimStartLower(s: string)
    ensures TrimStart(ToLower(s)) == ToLower(TrimStart(s))
  {
    if s != [] {
      LowerKeepsWhitespace(s[0]);
      assert ToLower(s)[1..] == ToLower(s[1..]);
      TrimStartLower(s[1..]);
    }
  }

  lemma {:induction false} TrimEndLower(s: string)
    ensures TrimEnd(ToLower(s)) == ToLower(TrimEnd(s))
  {
    if s != [] {
      var init := s[..|s| - 1];
      LowerKeepsWhitespace(s[|s| - 1]);
      assert ToLower(s)[..|s| - 1] == ToLower(init);
      TrimEndLower(init);
    }
  }

  /** Trimming and lower-casing commute. */
  lemma TrimLower(s: string)
    ensures Trim(ToLower(s)) == ToLower(Trim(s))
  {
    TrimStartLower(s);
    TrimEndLower(TrimStart(s));
  }

  // ---------------------------------------------------------------------------
  // Searching
  // ---------------------------------------------------------------------------

  /** `s.lastIndexOf(c)`: the last position holding `c`, or -1 when there is none. */
  function LastIndexOf(s: string, c: char): (r: int)
    ensures -1 <= r < |s|
    ensures r == -1 <==> c !in s
    ensures r >= 0 ==> s[r] == c && forall j :: r < j < |s| ==> s[j] != c
  {
    if s == [] then -1
    else if s[|s| - 1] == c then |s| - 1
    else
      var r := LastIndexOf(s[..|s| - 1], c);
      assert forall j :: 0 <= j < |s| - 1 ==> s[..|s| - 1][j] == s[j];
      r
  }

  /** The number of occurrences of `c` in `s`. */
  function CountChar(s: string, c: char): nat {
    if s == [] then 0 else (if s[0] == c then 1 else 0) + CountChar(s[1..], c)
  }

  /** Every occurrence of `c` in `s` replaced by the string `repl` (which may be empty). */
  function ReplaceAll(s: string, c: char, repl: string): string {
    if s == [] then [] else (if s[0] == c then repl else [s[0]]) + ReplaceAll(s[1..], c, repl)
  }

  /** `s.indexOf(c)`: the first position holding `c`, or -1 when there is none. */
  function IndexOf(s: string, c: char): (r: int)
    ensures -1 <= r < |s|
    ensures r == -1 <==> c !in s
    ensures r >= 0 ==> s[r] == c && c !in s[..r]
  {
    if s == [] then -1
    else if s[0] == c then 0
    else
      var r := IndexOf(s[1..], c);
      assert r >= 0 ==> s[..r + 1] == [s[0]] + s[1..][..r];
      if r == -1 then -1 else r + 1
  }

  /** `s.replace(c, d)` with a one-character string pattern: only the first occurrence is replaced. */
  function ReplaceFirst(s: string, c: char, d: char): (r: string)
    ensures |r| == |s|
    ensures c !in s ==> r == s
    ensures c in s ==> r == s[..IndexOf(s, c)] + [d] + s[IndexOf(s, c) + 1..]
  {
    var i := IndexOf(s, c);
    if i == -1 then s else s[..i] + [d] + s[i + 1..]
  }

  // ---------------------------------------------------------------------------
  // split and join
  // ---------------------------------------------------------------------------

  /** `s.split(sep)` for a one-character separator. As in JavaScript, the empty
      string splits into one empty part and adjacent separators give empty parts. */
  function Split(s: string, sep: char): (parts: seq<string>)
    ensures |parts| >= 1
    ensures forall i :: 0 <= i < |parts| ==> sep !in parts[i]
  {
    if s == [] then [""]
    else
      var rest := Split(s[1..], sep);
      if s[0] == sep then [""] + rest
      else [[s[0]] + rest[0]] + rest[1..]
  }

  /** `parts.join(sep)`. */
  function Join(parts: seq<string>, sep: string): string {
    if |parts| == 0 then ""
    else if |parts| == 1 then parts[0]
    else parts[0] + sep + Join(parts[1..], sep)
  }

  lemma JoinCons(a: string, tail: seq<string>, sep: string)
    requires |tail| >= 1
    ensures Join([a] + tail, sep) == a + sep + Join(tail, sep)
  {
    assert ([a] + tail)[1..] == tail;
  }

  /** Prepending a non-separator character only extends the first part. */
  lemma SplitNonSep(s: string, sep: char)
    requires s != [] && s[0] != sep
    ensures Split(s, sep) == [[s[0]] + Split(s[1..], sep)[0]] + Split(s[1..], sep)[1..]
  {
  }

  /** Joining the parts of a split gives back the original string. */
  lemma {:induction false} JoinSplit(s: string, sep: char)
    ensures Join(Split(s, sep), [sep]) == s
  {
    JoinSplitReplaces(s, sep, [sep]);
    ReplaceAllIdentity(s, sep);
  }

  lemma {:induction false} ReplaceAllIdentity(s: string, c: char)
    ensures ReplaceAll(s, c, [c]) == s
  {
    if s != [] {
      ReplaceAllIdentity(s[1..], c);
    }
  }

  /** `s.split(c).join(repl)` replaces every `c` by `repl`. */
  lemma {:induction false} JoinSplitReplaces(s: string, c: char, repl: string)
    ensures Join(Split(s, c), repl) == ReplaceAll(s, c, repl)
  {
    if s != [] {
      var rest := Split(s[1..], c);
      JoinSplitReplaces(s[1..], c, repl);
      assert Join(rest, repl) == ReplaceAll(s[1..], c, repl);
      assert ReplaceAll(s, c, repl) == (if s[0] == c then repl else [s[0]]) + ReplaceAll(s[1..], c, repl);
      if s[0] == c {
        assert Split(s, c) == [""] + rest;
        JoinCons("", rest, repl);
      } else {
        SplitNonSep(s, c);
        assert Split(s, c) == [[s[0]] + rest[0]] + rest[1..];
        if |rest| == 1 {
          assert Split(s, c) == [[s[0]] + rest[0]];
          assert Join(rest, repl) == rest[0];
        } else {
          JoinCons([s[0]] + rest[0], rest[1..], repl);
          assert [rest[0]] + rest[1..] == rest;
          JoinCons(rest[0], rest[1..], repl);
        }
      }
    }
  }

  /** `s.split(c).length - 1` counts the occurrences of `c`. */
  lemma {:induction false} SplitCounts(s: string, c: char)
    ensures |Split(s, c)| - 1 == CountChar(s, c)
  {
    if s != [] {
      SplitCounts(s[1..], c);
    }
  }

  /** A string without `c` splits into itself alone. */
  lemma {:induction false} SplitWithout(s: string, c: char)
    requires c !in s
    ensures Split(s, c) == [s]
  {
    if s != [] {
      SplitWithout(s[1..], c);
      SplitNonSep(s, c);
      assert [s[0]] + s[1..] == s;
    }
  }

  /** A prefix free of the separator glues onto the first part. */
  lemma {:induction false} SplitPrefix(a: string, t: string, sep: char)
    requires sep !in a
    ensures Split(a + t, sep) == [a + Split(t, sep)[0]] + Split(t, sep)[1..]
  {
    if a != [] {
      var at := a + t;
      assert at[0] == a[0] && at[1..] == a[1..] + t;
      SplitPrefix(a[1..], t, sep);
      SplitNonSep(at, sep);
      var inner := Split(a[1..] + t, sep);
      assert inner == [a[1..] + Split(t, sep)[0]] + Split(t, sep)[1..];
      assert inner[0] == a[1..] + Split(t, sep)[0];
      assert inner[1..] == Split(t, sep)[1..];
      assert [a[0]] + (a[1..] + Split(t, sep)[0]) == a + Split(t, sep)[0];
    } else {
      assert a + t == t;
      assert a + Split(t, sep)[0] == Split(t, sep)[0];
      assert Split(t, sep) == [Split(t, sep)[0]] + Split(t, sep)[1..];
    }
  }

  /** Splitting a join of separator-free parts gives the parts back. */
  lemma {:induction false} SplitJoin(parts: seq<string>, sep: char)
    requires |parts| >= 1
    requires forall i :: 0 <= i < |parts| ==> sep !in parts[i]
    ensures Split(Join(parts, [sep]), sep) == parts
  {
    if |parts| == 1 {
      SplitWithout(parts[0], sep);
    } else {
      var tail := parts[1..];
      SplitJoin(tail, sep);
      var j := Join(tail, [sep]);
      assert Join(parts, [sep]) == parts[0] + ([sep] + j);
      SplitPrefix(parts[0], [sep] + j, sep);
      assert ([sep] + j)[1..] == j;
      assert Split([sep] + j, sep) == [""] + tail;
      assert Split([sep] + j, sep)[0] == "" && Split([sep] + j, sep)[1..] == tail;
      assert parts[0] + "" == parts[0];
      assert parts == [parts[0]] + tail;
    }
  }

  /** A join of at least two parts contains the separator, so it is empty only
      when it joins one empty part. */
  lemma JoinEmpty(parts: seq<string>, sep: char)
    requires |parts| >= 1
    ensures Join(parts, [sep]) == "" <==> parts == [""]
  {
    if |parts| >= 2 {
      assert Join(parts, [sep]) == parts[0] + [sep] + Join(parts[1..], [sep]);
    }
  }

  /** Every proper suffix of the parts joins to a strictly shorter string. */
  lemma {:induction false} JoinSuffixShorter(parts: seq<string>, k: nat, sep: string)
    requires 1 <= k < |parts|
    requires |sep| == 1
    ensures |Join(parts[k..], sep)| < |Join(parts, sep)|
  {
    assert Join(parts, sep) == parts[0] + sep + Join(parts[1..], sep);
    if k > 1 {
      JoinSuffixShorter(parts[1..], k - 1, sep);
      assert parts[1..][k - 1..] == parts[k..];
    }
  }

  // ---------------------------------------------------------------------------
  // Reference facts about ReplaceAll and CountChar
  // ---------------------------------------------------------------------------

  /** Replacing `c` by a string free of `c` removes every `c`. */
  lemma {:induction false} ReplaceAllRemoves(s: string, c: char, repl: string)
    requires c !in repl
    ensures c !in ReplaceAll(s, c, repl)
  {
    if s != [] {
      ReplaceAllRemoves(s[1..], c, repl);
    }
  }

  /** Replacing a character that does not occur changes nothing. */
  lemma {:induction false} ReplaceAllAbsent(s: string, c: char, repl: string)
    requires c !in s
    ensures ReplaceAll(s, c, repl) == s
  {
    if s != [] {
      ReplaceAllAbsent(s[1..], c, repl);
    }
  }

  /** Replacing `c` never introduces a character that was neither in `s` nor in `repl`. */
  lemma {:induction false} ReplaceAllChars(s: string, c: char, repl: string, x: char)
    requires x in ReplaceAll(s, c, repl)
    ensures (x in s && x != c) || x in repl
  {
    if s != [] {
      var head := if s[0] == c then repl else [s[0]];
      if x !in head {
        ReplaceAllChars(s[1..], c, repl, x);
      }
    }
  }

  /** Replacing works piecewise. */
  lemma {:induction false} ReplaceAllConcat(a: string, b: string, c: char, repl: string)
    ensures ReplaceAll(a + b, c, repl) == ReplaceAll(a, c, repl) + ReplaceAll(b, c, repl)
  {
    if a != [] {
      assert (a + b)[0] == a[0] && (a + b)[1..] == a[1..] + b;
      ReplaceAllConcat(a[1..], b, c, repl);
    } else {
      assert a + b == b;
    }
  }

  /** Counting works piecewise. */
  lemma {:induction false} CountCharConcat(a: string, b: string, c: char)
    ensures CountChar(a + b, c) == CountChar(a, c) + CountChar(b, c)
  {
    if a != [] {
      assert (a + b)[0] == a[0] && (a + b)[1..] == a[1..] + b;
      CountCharConcat(a[1..], b, c);
    } else {
      assert a + b == b;
    }
  }

  /** The last occurrence is the one with no occurrence after it. */
  lemma LastIndexOfAt(s: string, c: char, i: nat)
    requires i < |s| && s[i] == c
    requires forall j :: i < j < |s| ==> s[j] != c
    ensures LastIndexOf(s, c) == i
  {
  }

  lemma AbsentAfter(a: string, c: char, b: string)
    requires c !in b
    ensures forall j :: |a| < j < |a + [c] + b| ==> (a + [c] + b)[j] != c
  {
    var s := a + [c] + b;
    forall j | |a| < j < |s| ensures s[j] != c {
      assert s[j] == b[j - |a| - 1];
    }
  }

  /** The last `c` is the one followed only by characters other than `c`. */
  lemma LastIndexOfBefore(a: string, c: char, b: string)
    requires c !in b
    ensures LastIndexOf(a + [c] + b, c) == |a|
  {
    AbsentAfter(a, c, b);
    LastIndexOfAt(a + [c] + b, c, |a|);
  }

  lemma ReplaceAllOne(x: char, c: char, repl: string)
    ensures ReplaceAll([x], c, repl) == if x == c then repl else [x]
  {
    assert [x][1..] == [];
  }

  lemma {:induction false} CountCharZero(s: string, c: char)
    ensures CountChar(s, c) == 0 <==> c !in s
  {
    if s != [] {
      CountCharZero(s[1..], c);
    }
  }
}
