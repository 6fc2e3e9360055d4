/**
 * The few JavaScript string built-ins the bumper relies on, restricted to the
 * inputs it gives them: `split` on a one-character separator, the second
 * element of `split` on a longer separator that the string starts with,
 * `trim`, `parseInt(s, 10)` of an all-digit string and the decimal rendering
 * of a non-negative integer (what `join` does with a number).
 */
module Strings {
  import opened Wrappers

  /** JavaScript truthiness of a value that is a string or undefined: "" is falsy too. */
  predicate Truthy(v: Option<string>) {
    v.Some? && v.value != ""
  }

  // ---------------------------------------------------------------- prefixes

  predicate StartsWith(s: string, prefix: string) {
    |prefix| <= |s| && s[..|prefix|] == prefix
  }

  // ------------------------------------------------------------ decimal text

  predicate IsDigit(c: char) {
    '0' <= c <= '9'
  }

  predicate IsDigits(s: string) {
    forall i :: 0 <= i < |s| ==> IsDigit(s[i])
  }

  function DigitValue(c: char): (d: nat)
    requires IsDigit(c)
    ensures d < 10
  {
    (c as int) - ('0' as int)
  }

  function DigitChar(d: nat): (c: char)
    requires d < 10
    ensures IsDigit(c) && DigitValue(c) == d
  {
    (('0' as int) + d) as char
  }

  function Pow10(n: nat): (p: nat)
    ensures p >= 1
  {
    if n == 0 then 1 else 10 * Pow10(n - 1)
  }

  lemma {:induction false} Pow10Add(a: nat, b: nat)
    ensures Pow10(a + b) == Pow10(a) * Pow10(b)
  {
    if b > 0 {
      Pow10Add(a, b - 1);
      calc {
        Pow10(a + b);
        10 * Pow10(a + b - 1);
        10 * (Pow10(a) * Pow10(b - 1));
        Pow10(a) * (10 * Pow10(b - 1));
      }
    }
  }

  /**
   * The base-10 reading of an all-digit string, as `parseInt(s, 10)` gives it
   * (with unbounded precision); the empty string reads as 0 here, which is
   * only used for the padded components, never for a whole `parseInt` input.
   * A string of n digits reads below 10^n.
   */
  function Value(s: string): (v: nat)
    requires IsDigits(s)
    ensures v < Pow10(|s|)
    decreases |s|
  {
    if s == [] then 0 else Value(s[..|s| - 1]) * 10 + DigitValue(s[|s| - 1])
  }

  lemma DigitsConcat(s: string, t: string)
    requires IsDigits(s) && IsDigits(t)
    ensures IsDigits(s + t)
  {
    forall i | 0 <= i < |s + t| ensures IsDigit((s + t)[i]) {
      if i < |s| { assert (s + t)[i] == s[i]; } else { assert (s + t)[i] == t[i - |s|]; }
    }
  }

  lemma ValueSnoc(x: string, c: char)
    requires IsDigits(x) && IsDigit(c)
    ensures IsDigits(x + [c])
    ensures Value(x + [c]) == Value(x) * 10 + DigitValue(c)
  {
    DigitsConcat(x, [c]);
    assert (x + [c])[..|x|] == x;
  }

  lemma {:induction false} ValueAppend(s: string, t: string)
    requires IsDigits(s) && IsDigits(t)
    ensures IsDigits(s + t)
    ensures Value(s + t) == Value(s) * Pow10(|t|) + Value(t)
    decreases |t|
  {
    DigitsConcat(s, t);
    if t == [] {
      assert s + t == s;
    } else {
      var t', c := t[..|t| - 1], t[|t| - 1];
      assert t == t' + [c];
      assert s + t == (s + t') + [c];
      ValueAppend(s, t');
      ValueSnoc(s + t', c);
      ValueSnoc(t', c);
      Regroup(Value(s), Pow10(|t'|), Value(t'), DigitValue(c));
    }
  }

  lemma Regroup(a: int, p: int, b: int, d: int)
    ensures (a * p + b) * 10 + d == a * (10 * p) + (b * 10 + d)
  {
  }

  /** The decimal rendering of n without leading zeros, as JavaScript prints a number. */
  function NatToString(n: nat): (r: string)
    ensures |r| >= 1 && IsDigits(r) && Value(r) == n
    ensures r[0] == '0' ==> n == 0 && r == "0"
  {
    if n < 10 then [DigitChar(n)]
    else
      var prefix := NatToString(n / 10);
      var r := prefix + [DigitChar(n % 10)];
      assert r[..|r| - 1] == prefix;
      r
  }

  // ------------------------------------------------- split on one character

  /**
   * `s.split(c)` for a one-character separator: the maximal runs of s that
   * do not contain c, including the empty ones before, between and after
   * separators.
   */
  function Split(s: string, c: char): (parts: seq<string>)
    ensures |parts| >= 1
    ensures forall i :: 0 <= i < |parts| ==> c !in parts[i]
    decreases |s|
  {
    if s == [] then [""]
    else
      var rest := Split(s[1..], c);
      if s[0] == c then [""] + rest
      else [[s[0]] + rest[0]] + rest[1..]
  }

  /** `parts.join(c)`. */
  function Join(parts: seq<string>, c: char): string
  {
    if |parts| == 0 then ""
    else if |parts| == 1 then parts[0]
    else parts[0] + [c] + Join(parts[1..], c)
  }

  lemma {:induction false} SplitWithoutSeparator(p: string, c: char)
    requires c !in p
    ensures Split(p, c) == [p]
  {
    if p != [] {
      SplitWithoutSeparator(p[1..], c);
      assert [p[0]] + p[1..] == p;
    }
  }

  lemma {:induction false} SplitAfterSeparator(p: string, r: string, c: char)
    requires c !in p
    ensures Split(p + [c] + r, c) == [p] + Split(r, c)
  {
    var s := p + [c] + r;
    if p == [] {
      assert s[0] == c && s[1..] == r;
    } else {
      assert s[0] == p[0];
      assert s[1..] == p[1..] + [c] + r;
      SplitAfterSeparator(p[1..], r, c);
      assert [p[0]] + p[1..] == p;
    }
  }

  /** Splitting a join gives the parts back, when no part holds the separator. */
  lemma {:induction false} SplitJoin(parts: seq<string>, c: char)
    requires |parts| >= 1
    requires forall i :: 0 <= i < |parts| ==> c !in parts[i]
    ensures Split(Join(parts, c), c) == parts
  {
    if |parts| == 1 {
      SplitWithoutSeparator(parts[0], c);
    } else {
      SplitJoin(parts[1..], c);
      SplitAfterSeparator(parts[0], Join(parts[1..], c), c);
      assert [parts[0]] + parts[1..] == parts;
    }
  }

  /** Joining the parts of a split gives the string back. */
  lemma {:induction false} JoinSplit(s: string, c: char)
    ensures Join(Split(s, c), c) == s
    decreases |s|
  {
    if s != [] {
      var rest := Split(s[1..], c);
      JoinSplit(s[1..], c);
      if s[0] == c {
        assert ([""] + rest)[1..] == rest;
      } else if |rest| == 1 {
        assert [s[0]] + s[1..] == s;
      } else {
        var parts := [[s[0]] + rest[0]] + rest[1..];
        assert parts[1..] == rest[1..];
        assert Join(rest, c) == rest[0] + [c] + Join(rest[1..], c);
        assert [s[0]] + s[1..] == s;
      }
    }
  }

  // ------------------------------- split on a longer separator, element [1]

  /**
   * The longest prefix of s at none of whose positions sep begins: the text
   * up to the first occurrence of sep, or all of s.
   */
  function TakeUntil(s: string, sep: string): (r: string)
    requires |sep| > 0
    ensures |r| <= |s| && s[..|r|] == r
    ensures forall k :: 0 <= k < |r| ==> !StartsWith(s[k..], sep)
    ensures |r| == |s| || StartsWith(s[|r|..], sep)
    decreases |s|
  {
    if s == [] || StartsWith(s, sep) then ""
    else
      var tail := TakeUntil(s[1..], sep);
      assert forall k :: 1 <= k <= |s| ==> s[k..] == s[1..][k - 1..];
      [s[0]] + tail
  }

  /**
   * `s.split(sep)[1]` when s starts with sep: the first element is the empty
   * text before that occurrence, the second runs from there to the next
   * occurrence of sep (searched from the end of the first), or to the end.
   */
  function AfterPrefix(s: string, sep: string): (r: string)
    requires |sep| > 0 && StartsWith(s, sep)
    ensures |sep| + |r| <= |s| && s[..|sep| + |r|] == sep + r
    ensures forall k :: |sep| <= k < |sep| + |r| ==> !StartsWith(s[k..], sep)
    ensures |sep| + |r| == |s| || StartsWith(s[|sep| + |r|..], sep)
  {
    var rest := s[|sep|..];
    var r := TakeUntil(rest, sep);
    assert s[..|sep| + |r|] == s[..|sep|] + rest[..|r|];
    forall k | |sep| <= k < |sep| + |r| ensures !StartsWith(s[k..], sep) {
      assert rest[k - |sep|..] == s[k..];
    }
    assert rest[|r|..] == s[|sep| + |r|..];
    r
  }

  // -------------------------------------------------------------------- trim

  /** The whitespace that `trim` removes, restricted to ASCII. */
  predicate IsSpace(c: char) {
    c == ' ' || c == '\t' || c == '\n' || c == '\r' || c as int == 11 || c as int == 12
  }

  function TrimStart(s: string): (r: string)
    ensures |r| <= |s| && r == s[|s| - |r|..]
    ensures forall i :: 0 <= i < |s| - |r| ==> IsSpace(s[i])
    ensures r == [] || !IsSpace(r[0])
    decreases |s|
  {
    if s != [] && IsSpace(s[0]) then TrimStart(s[1..]) else s
  }

  function TrimEnd(s: string): (r: string)
    ensures |r| <= |s| && r == s[..|r|]
    ensures forall i :: |r| <= i < |s| ==> IsSpace(s[i])
    ensures r == [] || !IsSpace(r[|r| - 1])
    decreases |s|
  {
    if s != [] && IsSpace(s[|s| - 1]) then TrimEnd(s[..|s| - 1]) else s
  }

  /** `s.trim()`: s without its leading and trailing whitespace. */
  function Trim(s: string): string
  {
    TrimEnd(TrimStart(s))
  }

  /** Trim keeps a slice of s that neither starts nor ends with whitespace and drops only whitespace around it. */
  lemma TrimStrips(s: string)
    ensures |Trim(s)| <= |s|
    ensures exists a :: 0 <= a <= |s| && StartsWith(s[a..], Trim(s))
              && (forall i :: 0 <= i < a ==> IsSpace(s[i]))
              && (forall i :: a + |Trim(s)| <= i < |s| ==> IsSpace(s[i]))
    ensures Trim(s) == [] || (!IsSpace(Trim(s)[0]) && !IsSpace(Trim(s)[|Trim(s)| - 1]))
  {
    var front := TrimStart(s);
    var r := TrimEnd(front);
    var a := |s| - |front|;
    assert front == s[a..];
    assert StartsWith(s[a..], r);
    assert forall i :: 0 <= i < a ==> IsSpace(s[i]);
    assert forall i :: a + |r| <= i < |s| ==> IsSpace(s[i]) by {
      forall i | a + |r| <= i < |s| ensures IsSpace(s[i]) {
        assert s[i] == front[i - a];
      }
    }
  }
}
