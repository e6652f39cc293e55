/**
 * The pieces of JavaScript's string semantics that the parsers and the path
 * handling rely on: ASCII decimal digits, the decimal text of a number,
 * the white space `parseInt` skips, `indexOf` and `split` with a
 * one-character separator.
 */
module JsText {

  /** `\d` in a JavaScript regular expression (without the `u` flag): ASCII digits only. */
  predicate IsDigit(c: char) {
    '0' <= c <= '9'
  }

  predicate AllDigits(s: string) {
    forall i :: 0 <= i < |s| ==> IsDigit(s[i])
  }

  predicate NoDigits(s: string) {
    forall i :: 0 <= i < |s| ==> !IsDigit(s[i])
  }

  function DigitValue(c: char): (d: nat)
    requires IsDigit(c)
    ensures d < 10
  {
    c as int - '0' as int
  }

  function DigitChar(d: nat): (c: char)
    requires d < 10
    ensures IsDigit(c) && DigitValue(c) == d
  {
    ('0' as int + d) as char
  }

  /** The value of a string of decimal digits, most significant digit first. */
  function DigitsValue(s: string): nat
    requires AllDigits(s)
    decreases |s|
  {
    if s == [] then 0 else 10 * DigitsValue(s[..|s| - 1]) + DigitValue(s[|s| - 1])
  }

  /**
   * The text JavaScript produces for a non-negative integer number in a
   * template literal: its decimal digits, with no leading zero.
   */
  function NatToString(n: nat): (s: string)
    ensures |s| > 0 && AllDigits(s)
    ensures n == 0 <==> s == "0"
    ensures s[0] == '0' ==> n == 0
    decreases n
  {
    if n < 10 then [DigitChar(n)] else NatToString(n / 10) + [DigitChar(n % 10)]
  }

  /** The decimal text of an integer number, with a leading `-` when negative. */
  function IntToString(i: int): (s: string)
    ensures |s| > 0
    ensures i < 0 <==> s[0] == '-'
    ensures i >= 0 ==> AllDigits(s)
  {
    if i < 0 then "-" + NatToString(-i) else NatToString(i)
  }

  lemma {:induction false} NatToStringValue(n: nat)
    ensures DigitsValue(NatToString(n)) == n
    decreases n
  {
    if n >= 10 {
      var prefix := NatToString(n / 10);
      var s := NatToString(n);
      assert s == prefix + [DigitChar(n % 10)];
      assert s[..|s| - 1] == prefix;
      NatToStringValue(n / 10);
    }
  }

  /**
   * The characters `parseInt` skips before the number: ECMAScript's
   * WhiteSpace (tab, vertical tab, form feed, space, no-break space, byte
   * order mark and the other space separators) and LineTerminator.
   */
  predicate IsWhiteSpace(c: char) {
    || c == '\t' || c == '\n' || c == '\U{B}' || c == '\U{C}' || c == '\r' || c == ' '
    || c == '\U{A0}' || c == '\U{1680}' || ('\U{2000}' <= c <= '\U{200A}')
    || c == '\U{2028}' || c == '\U{2029}' || c == '\U{202F}' || c == '\U{205F}'
    || c == '\U{3000}' || c == '\U{FEFF}'
  }

  predicate AllWhiteSpace(s: string) {
    forall i :: 0 <= i < |s| ==> IsWhiteSpace(s[i])
  }

  /** The first position at or after `from` where `c` occurs in `s`, or -1. */
  function IndexFrom(s: string, c: char, from: nat): (i: int)
    requires from <= |s|
    ensures i == -1 || from <= i < |s|
    ensures 0 <= i ==> s[i] == c
    decreases |s| - from
  {
    if from == |s| then -1
    else if s[from] == c then from
    else IndexFrom(s, c, from + 1)
  }

  /** IndexFrom finds the first occurrence: there is none between `from` and the result. */
  lemma {:induction false} IndexFromIsFirst(s: string, c: char, from: nat)
    requires from <= |s|
    ensures var i := IndexFrom(s, c, from);
            forall k :: from <= k < |s| && (i < 0 || k < i) ==> s[k] != c
    decreases |s| - from
  {
    if from < |s| && s[from] != c {
      IndexFromIsFirst(s, c, from + 1);
    }
  }

  /** `s.indexOf(c)`: the first position of `c` in `s`, or -1. */
  function IndexOf(s: string, c: char): (i: int)
    ensures -1 <= i < |s|
    ensures 0 <= i ==> s[i] == c
  {
    IndexFrom(s, c, 0)
  }

  /** No `c` comes before the position IndexOf returns; with -1, there is no `c` at all. */
  lemma IndexOfIsFirst(s: string, c: char)
    ensures var i := IndexOf(s, c);
            && (i < 0 <==> c !in s)
            && forall k :: 0 <= k < |s| && (i < 0 || k < i) ==> s[k] != c
  {
    IndexFromIsFirst(s, c, 0);
  }

  /** How often `c` occurs in `s`. */
  function Count(s: string, c: char): nat {
    multiset(s)[c]
  }

  /**
   * `s.split(sep)` for a one-character separator: the pieces between the
   * occurrences of `sep`. The empty string splits into one empty piece.
   */
  function Split(s: string, sep: char): (parts: seq<string>)
    ensures |parts| >= 1
    decreases |s|
  {
    var i := IndexOf(s, sep);
    if i < 0 then [s] else [s[..i]] + Split(s[i + 1..], sep)
  }

  /** One piece more than there are separators. */
  lemma {:induction false} SplitCount(s: string, sep: char)
    ensures |Split(s, sep)| == Count(s, sep) + 1
    decreases |s|
  {
    var i := IndexOf(s, sep);
    IndexOfIsFirst(s, sep);
    if i < 0 {
      assert sep !in multiset(s);
    } else {
      assert s == s[..i] + [s[i]] + s[i + 1..];
      assert sep !in multiset(s[..i]);
      assert multiset(s) == multiset(s[..i]) + multiset{s[i]} + multiset(s[i + 1..]);
      SplitCount(s[i + 1..], sep);
    }
  }

  /** A string with exactly one separator splits into the text before it and the text after it. */
  lemma SplitOnce(a: string, b: string, sep: char)
    requires sep !in a && sep !in b
    ensures Split(a + [sep] + b, sep) == [a, b]
  {
    var s := a + [sep] + b;
    IndexOfIsFirst(s, sep);
    IndexOfIsFirst(b, sep);
    assert s[..|a|] == a;
    assert s[|a|] == sep;
    assert s[|a| + 1..] == b;
    assert IndexOf(b, sep) == -1;
  }

  /** The last element of a non-empty sequence of strings. */
  function Last(parts: seq<string>): string
    requires |parts| >= 1
  {
    parts[|parts| - 1]
  }

  /** The text after the last `sep`, reached the way `split` walks: from one separator to the next. */
  function AfterLast(s: string, sep: char): string
    decreases |s|
  {
    var i := IndexOf(s, sep);
    if i < 0 then s else AfterLast(s[i + 1..], sep)
  }

  lemma SplitStep(s: string, sep: char)
    requires IndexOf(s, sep) >= 0
    ensures Split(s, sep) == [s[..IndexOf(s, sep)]] + Split(s[IndexOf(s, sep) + 1..], sep)
  {
  }

  lemma LastOfCons(a: string, parts: seq<string>)
    requires |parts| >= 1
    ensures Last([a] + parts) == Last(parts)
  {
  }

  /** The last piece of the split is the text after the last separator. */
  lemma {:induction false} LastOfSplit(s: string, sep: char)
    ensures Last(Split(s, sep)) == AfterLast(s, sep)
    decreases |s|
  {
    var i := IndexOf(s, sep);
    if i >= 0 {
      SplitStep(s, sep);
      LastOfCons(s[..i], Split(s[i + 1..], sep));
      LastOfSplit(s[i + 1..], sep);
    }
  }

  /** A suffix of `s[i + 1..]` that follows a separator there, or is all of it, follows one in `s`. */
  lemma SuffixAfter(s: string, i: nat, sep: char, last: string)
    requires i < |s| && s[i] == sep
    requires var t := s[i + 1..];
             && |last| <= |t| && t[|t| - |last|..] == last
             && (|last| < |t| ==> t[|t| - |last| - 1] == sep)
    ensures |last| <= |s| && s[|s| - |last|..] == last
    ensures |last| < |s| ==> s[|s| - |last| - 1] == sep
  {
    var t := s[i + 1..];
    assert s[|s| - |last|..] == t[|t| - |last|..];
    if |last| < |t| {
      assert s[|s| - |last| - 1] == t[|t| - |last| - 1];
    }
  }

  /**
   * The text after the last separator is a suffix of `s` without `sep`,
   * preceded by `sep` unless it is the whole of `s`.
   */
  lemma {:induction false} AfterLastIsLast(s: string, sep: char)
    ensures var last := AfterLast(s, sep);
            && sep !in last && |last| <= |s| && s[|s| - |last|..] == last
            && (|last| < |s| ==> s[|s| - |last| - 1] == sep)
    decreases |s|
  {
    var i := IndexOf(s, sep);
    if i < 0 {
      IndexOfIsFirst(s, sep);
    } else {
      AfterLastIsLast(s[i + 1..], sep);
      SuffixAfter(s, i, sep, AfterLast(s, sep));
    }
  }
}
