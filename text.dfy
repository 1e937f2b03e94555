/**
 * The Python `str` built-ins that the calendar and the note checker rely on:
 * whitespace, `strip`, `split`, `partition`, `find`, `lower`, `str(int)` and `int(str)`.
 * Strings are sequences of Unicode scalar values, as Python's are.
 */
module Text {
  import opened Wrappers

  /** Python's `str.isspace()` on a single character. */
  predicate IsSpace(c: char) {
    || c == ' '
    || '\U{9}' <= c <= '\U{d}'
    || '\U{1c}' <= c <= '\U{1f}'
    || c == '\U{85}' || c == '\U{a0}' || c == '\U{1680}'
    || '\U{2000}' <= c <= '\U{200a}'
    || c == '\U{2028}' || c == '\U{2029}' || c == '\U{202f}' || c == '\U{205f}' || c == '\U{3000}'
  }

  /** A string that `strip()` empties: it holds whitespace only. */
  predicate IsBlank(s: string) {
    forall i | 0 <= i < |s| :: IsSpace(s[i])
  }

  predicate NoSpace(s: string) {
    forall i | 0 <= i < |s| :: !IsSpace(s[i])
  }

  /** The first index at or after `i` that is not whitespace, or |s|. */
  function SkipSpaces(s: string, i: nat): (j: nat)
    requires i <= |s|
    ensures i <= j <= |s|
    ensures forall k | i <= k < j :: IsSpace(s[k])
    ensures j < |s| ==> !IsSpace(s[j])
    decreases |s| - i
  {
    if i == |s| || !IsSpace(s[i]) then i else SkipSpaces(s, i + 1)
  }

  /** The first index at or after `i` that is whitespace, or |s|. */
  function SkipWord(s: string, i: nat): (j: nat)
    requires i <= |s|
    ensures i <= j <= |s|
    ensures forall k | i <= k < j :: !IsSpace(s[k])
    ensures j < |s| ==> IsSpace(s[j])
    decreases |s| - i
  {
    if i == |s| || IsSpace(s[i]) then i else SkipWord(s, i + 1)
  }

  /** The end of s[..j] once its trailing whitespace is dropped. */
  function TrimEnd(s: string, j: nat): (k: nat)
    requires j <= |s|
    ensures k <= j
    ensures forall m | k <= m < j :: IsSpace(s[m])
    ensures k > 0 ==> !IsSpace(s[k - 1])
    decreases j
  {
    if j == 0 || !IsSpace(s[j - 1]) then j else TrimEnd(s, j - 1)
  }

  /** Python's `s.strip()`: `s` without its leading and trailing whitespace. */
  function Strip(s: string): (r: string)
    ensures r == [] <==> IsBlank(s)
    ensures r != [] ==> !IsSpace(r[0]) && !IsSpace(r[|r| - 1])
    ensures NoSpace(s) ==> r == s
  {
    var a := SkipSpaces(s, 0);
    if a == |s| then [] else s[a..TrimEnd(s, |s|)]
  }

  /** Whitespace around a string that has none at its ends is exactly what `strip()` removes. */
  lemma StripPadded(pre: string, v: string, post: string)
    requires IsBlank(pre) && IsBlank(post)
    requires v == [] || (!IsSpace(v[0]) && !IsSpace(v[|v| - 1]))
    ensures Strip(pre + v + post) == v
  {
    var s := pre + v + post;
    var a := SkipSpaces(s, 0);
    if v == [] {
      assert IsBlank(s) by {
        forall i | 0 <= i < |s| ensures IsSpace(s[i]) {
          if i < |pre| { assert s[i] == pre[i]; } else { assert s[i] == post[i - |pre|]; }
        }
      }
    } else {
      assert s[|pre|] == v[0];
      assert a == |pre| by {
        forall k | 0 <= k < |pre| ensures IsSpace(s[k]) { assert s[k] == pre[k]; }
      }
      var b := TrimEnd(s, |s|);
      assert s[|pre| + |v| - 1] == v[|v| - 1];
      assert b == |pre| + |v| by {
        forall m | |pre| + |v| <= m < |s| ensures IsSpace(s[m]) { assert s[m] == post[m - |pre| - |v|]; }
      }
      assert s[a..b] == v;
    }
  }

  /** Python's `s.split()` with no argument: the maximal runs of non-whitespace, in order. */
  function Words(s: string): (ws: seq<string>)
    ensures forall k | 0 <= k < |ws| :: ws[k] != [] && NoSpace(ws[k])
    ensures ws == [] <==> IsBlank(s)
    decreases |s|
  {
    var a := SkipSpaces(s, 0);
    if a == |s| then []
    else
      var b := SkipWord(s, a);
      [s[a..b]] + Words(s[b..])
  }

  /** A word followed by nothing but whitespace splits into that word alone. */
  lemma WordsOfWord(x: string, post: string)
    requires x != [] && NoSpace(x) && IsBlank(post)
    ensures Words(x + post) == [x]
  {
    var s := x + post;
    assert s[0] == x[0];
    assert SkipSpaces(s, 0) == 0;
    var b := SkipWord(s, 0);
    assert b == |x| by {
      forall k | 0 <= k < |x| ensures !IsSpace(s[k]) { assert s[k] == x[k]; }
      if |x| < |s| { assert s[|x|] == post[0]; }
    }
    assert s[..b] == x && s[b..] == post;
    assert Words(post) == [];
  }

  /** A word followed by whitespace is the first word. */
  lemma WordsAfterWord(x: string, rest: string)
    requires x != [] && NoSpace(x) && rest != [] && IsSpace(rest[0])
    ensures Words(x + rest) == [x] + Words(rest)
  {
    var s := x + rest;
    assert s[0] == x[0];
    assert SkipSpaces(s, 0) == 0;
    var b := SkipWord(s, 0);
    assert b == |x| by {
      forall k | 0 <= k < |x| ensures !IsSpace(s[k]) { assert s[k] == x[k]; }
      assert s[|x|] == rest[0];
    }
    assert s[..b] == x && s[b..] == rest;
  }

  /** A space then a word is that word. */
  lemma WordsOfSpaced(y: string)
    requires y != [] && NoSpace(y)
    ensures Words(" " + y) == [y]
  {
    var t := " " + y;
    assert SkipSpaces(t, 0) == 1 by { assert t[1] == y[0]; }
    var e := SkipWord(t, 1);
    assert e == |t| by {
      forall k | 1 <= k < |t| ensures !IsSpace(t[k]) { assert t[k] == y[k - 1]; }
    }
    assert t[1..e] == y && t[e..] == [];
  }

  /** Two words joined by one space split back into the two words. */
  lemma WordsOfTwo(x: string, y: string)
    requires x != [] && NoSpace(x) && y != [] && NoSpace(y)
    ensures Words(x + " " + y) == [x, y]
  {
    assert x + " " + y == x + (" " + y);
    WordsAfterWord(x, " " + y);
    WordsOfSpaced(y);
  }

  /** Python's `s.find(c)`: the first index of `c` in `s`, or -1. */
  function IndexOf(s: string, c: char): (i: int)
    ensures -1 <= i < |s|
    ensures i == -1 <==> c !in s
    ensures i >= 0 ==> s[i] == c && c !in s[..i]
  {
    if |s| == 0 then -1
    else if s[0] == c then 0
    else
      var j := IndexOf(s[1..], c);
      assert s[1..][..if j < 0 then 0 else j] == s[1..if j < 0 then 1 else j + 1];
      if j == -1 then -1 else j + 1
  }

  /** `parts` joined with `sep` between consecutive parts. */
  function JoinWith(parts: seq<string>, sep: char): string
    requires |parts| >= 1
  {
    if |parts| == 1 then parts[0] else parts[0] + [sep] + JoinWith(parts[1..], sep)
  }

  /** Python's `s.split(sep)` for a one-character separator. */
  function SplitOn(s: string, sep: char): (parts: seq<string>)
    ensures |parts| >= 1
    ensures forall k | 0 <= k < |parts| :: sep !in parts[k]
    ensures JoinWith(parts, sep) == s
    decreases |s|
  {
    var i := IndexOf(s, sep);
    if i < 0 then [s]
    else
      var rest := SplitOn(s[i + 1..], sep);
      var parts := [s[..i]] + rest;
      assert parts[1..] == rest;
      assert JoinWith(parts, sep) == s[..i] + [sep] + s[i + 1..];
      assert s == s[..i] + [sep] + s[i + 1..];
      assert forall k | 1 <= k < |parts| :: parts[k] == rest[k - 1];
      parts
  }

  /** The first separator of `a + [sep] + rest`, when `a` has none, is the one after `a`. */
  lemma {:induction false} IndexOfAfter(a: string, rest: string, sep: char)
    requires sep !in a
    ensures IndexOf(a + [sep] + rest, sep) == |a|
  {
    var s := a + [sep] + rest;
    if a != [] {
      assert s[1..] == a[1..] + [sep] + rest;
      IndexOfAfter(a[1..], rest, sep);
    }
  }

  /** A separator-free field followed by `sep` is split off as the first part. */
  lemma SplitFirst(a: string, rest: string, sep: char)
    requires sep !in a
    ensures SplitOn(a + [sep] + rest, sep) == [a] + SplitOn(rest, sep)
  {
    var s := a + [sep] + rest;
    IndexOfAfter(a, rest, sep);
    assert s[..|a|] == a && s[|a| + 1..] == rest;
  }

  /** A separator-free text is one part. */
  lemma SplitNone(c: string, sep: char)
    requires sep !in c
    ensures SplitOn(c, sep) == [c]
  {
    assert IndexOf(c, sep) == -1;
  }

  /** Two separator-free fields joined by `sep` split back into those two fields. */
  lemma SplitTwo(b: string, c: string, sep: char)
    requires sep !in b && sep !in c
    ensures SplitOn(b + [sep] + c, sep) == [b, c]
  {
    SplitFirst(b, c, sep);
    SplitNone(c, sep);
  }

  /** Three separator-free fields joined by `sep` split back into those three fields. */
  lemma SplitThree(a: string, b: string, c: string, sep: char)
    requires sep !in a && sep !in b && sep !in c
    ensures SplitOn(a + [sep] + b + [sep] + c, sep) == [a, b, c]
  {
    JoinedThree(a, b, c, sep);
    SplitFirst(a, b + [sep] + c, sep);
    SplitTwo(b, c, sep);
  }

  /** Regrouping the joined text after the first separator. */
  lemma JoinedThree(a: string, b: string, c: string, sep: char)
    ensures a + [sep] + b + [sep] + c == a + [sep] + (b + [sep] + c)
  {
  }

  /** Python's `s.partition(sep)` for a one-character separator. */
  function Partition(s: string, sep: char): (r: (string, bool, string))
    ensures r.1 <==> sep in s
    ensures r.1 ==> s == r.0 + [sep] + r.2 && sep !in r.0
    ensures !r.1 ==> r.0 == s && r.2 == []
  {
    var i := IndexOf(s, sep);
    if i < 0 then (s, false, [])
    else
      assert s == s[..i] + [sep] + s[i + 1..];
      (s[..i], true, s[i + 1..])
  }

  /** The partition point of `a + [sep] + b`, when `a` has no separator, is right after `a`. */
  lemma PartitionAt(a: string, b: string, sep: char)
    requires sep !in a
    ensures Partition(a + [sep] + b, sep) == (a, true, b)
  {
    var s := a + [sep] + b;
    IndexOfAfter(a, b, sep);
    assert s[..|a|] == a && s[|a| + 1..] == b;
  }

  function LowerChar(c: char): char {
    if 'A' <= c <= 'Z' then (c as int + 32) as char else c
  }

  /**
   * `s.lower()` restricted to ASCII letters. For the one comparison the checker makes,
   * against "characteristics", this agrees with Python's Unicode lower-casing.
   */
  function Lower(s: string): (r: string)
    ensures |r| == |s|
    ensures forall i | 0 <= i < |s| :: r[i] == LowerChar(s[i])
  {
    seq(|s|, i requires 0 <= i < |s| => LowerChar(s[i]))
  }

  predicate IsDigit(c: char) {
    '0' <= c <= '9'
  }

  function DigitValue(c: char): nat
    requires IsDigit(c)
  {
    c as int - '0' as int
  }

  function DigitChar(d: nat): (c: char)
    requires d < 10
    ensures IsDigit(c)
  {
    (d + '0' as int) as char
  }

  /** Python's `str(n)` for a non-negative integer: its decimal digits, without leading zeros. */
  function NatToString(n: nat): (s: string)
    ensures s != [] && forall i | 0 <= i < |s| :: IsDigit(s[i])
  {
    if n < 10 then [DigitChar(n)] else NatToString(n / 10) + [DigitChar(n % 10)]
  }

  /** Python's `str(n)` for any integer. */
  function IntToString(n: int): string {
    if n < 0 then "-" + NatToString(-n) else NatToString(n)
  }

  /** The body that Python's `int()` accepts after an optional sign: ASCII digits, with single
      underscores allowed between two digits. */
  predicate IsDigitRun(s: string) {
    && |s| > 0 && IsDigit(s[0]) && IsDigit(s[|s| - 1])
    && forall i | 0 <= i < |s| :: IsDigit(s[i]) || (s[i] == '_' && i + 1 < |s| && IsDigit(s[i + 1]))
  }

  /** The value of a run of digits and underscores, underscores ignored. */
  function DigitRunValue(s: string): nat
    requires forall i | 0 <= i < |s| :: IsDigit(s[i]) || s[i] == '_'
  {
    if s == [] then 0
    else if s[|s| - 1] == '_' then DigitRunValue(s[..|s| - 1])
    else 10 * DigitRunValue(s[..|s| - 1]) + DigitValue(s[|s| - 1])
  }

  /** Python's `int(s)` on a string in base 10; None where Python raises ValueError. */
  function ParseInt(s: string): Option<int> {
    var t := Strip(s);
    if t != [] && (t[0] == '-' || t[0] == '+') then
      if IsDigitRun(t[1..]) then
        var v := DigitRunValue(t[1..]);
        Some(if t[0] == '-' then -(v as int) else v)
      else None
    else if IsDigitRun(t) then Some(DigitRunValue(t))
    else None
  }

  lemma {:induction false} DigitRunValueOfNat(n: nat)
    ensures DigitRunValue(NatToString(n)) == n
  {
    if n >= 10 {
      var s := NatToString(n);
      assert s[..|s| - 1] == NatToString(n / 10);
      DigitRunValueOfNat(n / 10);
    }
  }

  lemma ParseIntOfNat(n: nat)
    ensures ParseInt(NatToString(n)) == Some(n)
  {
    var digits := NatToString(n);
    DigitRunValueOfNat(n);
    assert NoSpace(digits);
    assert IsDigitRun(digits);
  }

  /** `int(str(n)) == n`: reading back a rendered integer gives the integer. */
  lemma ParseIntOfString(n: int)
    ensures ParseInt(IntToString(n)) == Some(n)
  {
    if n >= 0 {
      ParseIntOfNat(n);
    } else {
      var digits := NatToString(-n);
      DigitRunValueOfNat(-n);
      var s := "-" + digits;
      assert NoSpace(s) by {
        forall i | 0 <= i < |s| ensures !IsSpace(s[i]) {
          if i > 0 { assert s[i] == digits[i - 1]; }
        }
      }
      assert Strip(s) == s;
      assert s[1..] == digits;
      assert IsDigitRun(digits);
    }
  }

  /** `str` is injective on the integers. */
  lemma IntToStringInjective(m: int, n: int)
    requires IntToString(m) == IntToString(n)
    ensures m == n
  {
    ParseIntOfString(m);
    ParseIntOfString(n);
  }
}
