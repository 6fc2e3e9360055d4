/**
 * semverToNumber: a "MAJOR.MINOR.PATCH" string becomes one integer. The
 * major component is prefixed with the marker digit '1', the minor and patch
 * components are right-padded with '0' to at least three characters (the
 * marked major to at least two) and the concatenation is read in base 10.
 * This is not the precedence rule of section 11 of Semantic Versioning 2.0.0:
 * appending zeros makes "1" and "10" the same minor, and "10" sorts below "2".
 */
module VersionEncoder {
  import opened Strings

  /** The first three dot-separated components exist and are digit-only. */
  predicate Encodable(ver: string) {
    var t := Split(ver, '.');
    |t| >= 3 && IsDigits(t[0]) && IsDigits(t[1]) && IsDigits(t[2])
  }

  function Zeros(n: nat): (z: string)
    ensures |z| == n && IsDigits(z)
  {
    seq(n, _ => '0')
  }

  /** s followed by as many '0' characters as bring it to `width`. */
  function PadRight(s: string, width: nat): (r: string)
    ensures |r| == if |s| < width then width else |s|
    ensures r[..|s|] == s
    ensures forall i :: |s| <= i < |r| ==> r[i] == '0'
  {
    if |s| < width then s + Zeros(width - |s|) else s
  }

  lemma PadRightDigits(s: string, width: nat)
    requires IsDigits(s)
    ensures IsDigits(PadRight(s, width))
  {
    var r := PadRight(s, width);
    forall i | 0 <= i < |r| ensures IsDigit(r[i]) {
      if i < |s| { assert r[i] == r[..|s|][i]; }
    }
  }

  /** The digit string whose decimal reading is the encoding. */
  function EncodedDigits(major: string, minor: string, patch: string): (d: string)
    requires IsDigits(major) && IsDigits(minor) && IsDigits(patch)
    ensures IsDigits(d) && |d| >= 8 && d[0] == '1'
  {
    var m := "1" + major;
    assert IsDigits(m) by { ValueAppend("1", major); }
    PadRightDigits(m, 2);
    PadRightDigits(minor, 3);
    PadRightDigits(patch, 3);
    var d := PadRight(m, 2) + PadRight(minor, 3) + PadRight(patch, 3);
    ValueAppend(PadRight(m, 2), PadRight(minor, 3));
    ValueAppend(PadRight(m, 2) + PadRight(minor, 3), PadRight(patch, 3));
    assert d[0] == PadRight(m, 2)[..|m|][0];
    d
  }

  function EncodeParts(major: string, minor: string, patch: string): nat
    requires IsDigits(major) && IsDigits(minor) && IsDigits(patch)
  {
    Value(EncodedDigits(major, minor, patch))
  }

  /** semverToNumber(ver): only the first three components take part. */
  function Encode(ver: string): nat
    requires Encodable(ver)
  {
    var t := Split(ver, '.');
    EncodeParts(t[0], t[1], t[2])
  }

  /**
   * semverToNumber as the source writes it: the loop over i = 0, 1, 2 appends
   * a '0' to the marked major when it is shorter than i and to minor and
   * patch when they are no longer than i.
   */
  method SemverToNumber(ver: string) returns (n: nat)
    requires Encodable(ver)
    ensures n == Encode(ver)
  {
    var t := Split(ver, '.');
    var major := "1" + t[0];
    var minor := t[1];
    var patch := t[2];
    ghost var major0 := major;
    for i := 0 to 3
      invariant major == PadRight(major0, if i == 0 then 0 else i - 1)
      invariant minor == PadRight(t[1], i)
      invariant patch == PadRight(t[2], i)
    {
      if |major| < i { major := major + "0"; }
      if |minor| <= i { minor := minor + "0"; }
      if |patch| <= i { patch := patch + "0"; }
    }
    var total := major + minor + patch;
    n := Value(total);
  }

  // ----------------------------------------------------------------- padding

  /** Appending zeros below the pad width changes nothing: "1", "10", "100" pad alike. */
  lemma {:induction false} TrailingZerosInvisible(s: string, k: nat, width: nat)
    requires |s| + k <= width
    ensures PadRight(s + Zeros(k), width) == PadRight(s, width)
  {
    var a, b := PadRight(s + Zeros(k), width), PadRight(s, width);
    assert |a| == |b| == width;
    forall i | 0 <= i < width ensures a[i] == b[i] {
      if i < |s| {
        assert a[i] == a[..|s| + k][i] == (s + Zeros(k))[i] == s[i];
        assert b[i] == b[..|s|][i];
      } else if i < |s| + k {
        assert a[i] == a[..|s| + k][i] == (s + Zeros(k))[i] == Zeros(k)[i - |s|];
      }
    }
  }

  lemma {:induction false} PadRightValue(s: string, width: nat)
    requires IsDigits(s)
    ensures IsDigits(PadRight(s, width))
    ensures Value(PadRight(s, width)) == Value(s) * Pow10(|PadRight(s, width)| - |s|)
  {
    PadRightDigits(s, width);
    if |s| < width {
      ValueAppend(s, Zeros(width - |s|));
      ZerosValue(width - |s|);
    }
  }

  lemma {:induction false} ZerosValue(n: nat)
    ensures Value(Zeros(n)) == 0
  {
    if n > 0 {
      ZerosValue(n - 1);
      assert Zeros(n)[..n - 1] == Zeros(n - 1);
    }
  }

  /** The marked major reads as 10^|major| + major, or as 10 when major is empty. */
  lemma MarkedMajorValue(major: string)
    requires IsDigits(major)
    ensures IsDigits("1" + major)
    ensures Value(PadRight("1" + major, 2)) == if major == "" then 10 else Pow10(|major|) + Value(major)
  {
    assert Value("1") == 1 by { assert "1"[..0] == ""; }
    ValueAppend("1", major);
    if major == "" {
      assert "1" + major == "1";
      PadRightValue("1", 2);
    } else {
      assert PadRight("1" + major, 2) == "1" + major;
    }
  }

  lemma ShiftAdd(x: int, y: int, z: int, p: int, q: int)
    ensures (x * p + y) * q + z == x * (p * q) + y * q + z
  {
  }

  /** The encoding as arithmetic: marked major, then minor, then patch in their padded widths. */
  lemma EncodePartsArithmetic(major: string, minor: string, patch: string)
    requires IsDigits(major) && IsDigits(minor) && IsDigits(patch)
    ensures IsDigits(PadRight("1" + major, 2)) && IsDigits(PadRight(minor, 3)) && IsDigits(PadRight(patch, 3))
    ensures EncodeParts(major, minor, patch)
         == Value(PadRight("1" + major, 2)) * Pow10(|PadRight(minor, 3)| + |PadRight(patch, 3)|)
          + Value(PadRight(minor, 3)) * Pow10(|PadRight(patch, 3)|)
          + Value(PadRight(patch, 3))
  {
    var m := "1" + major;
    assert IsDigits(m) by { ValueAppend("1", major); }
    PadRightDigits(m, 2);
    PadRightDigits(minor, 3);
    PadRightDigits(patch, 3);
    var x, y, z := PadRight(m, 2), PadRight(minor, 3), PadRight(patch, 3);
    ValueAppend(x, y);
    ValueAppend(x + y, z);
    Pow10Add(|y|, |z|);
    assert EncodedDigits(major, minor, patch) == x + y + z;
    ShiftAdd(Value(x), Value(y), Value(z), Pow10(|y|), Pow10(|z|));
  }

  // ---------------------------------------------------- what the number says

  /** The leading digit of the encoding is the marker 1. */
  lemma EncodeLeadingMarker(ver: string)
    requires Encodable(ver)
    ensures var t := Split(ver, '.'); var d := EncodedDigits(t[0], t[1], t[2]);
      Pow10(|d| - 1) <= Encode(ver) < 2 * Pow10(|d| - 1)
  {
    var t := Split(ver, '.');
    var d := EncodedDigits(t[0], t[1], t[2]);
    var rest := d[1..];
    assert d == "1" + rest;
    assert Value("1") == 1 by { assert "1"[..0] == ""; }
    ValueAppend("1", rest);
  }

  /** Components after the third play no part: the encoding of a join reads only parts 0, 1 and 2. */
  lemma EncodeFirstThree(parts: seq<string>)
    requires |parts| >= 3
    requires forall i :: 0 <= i < |parts| ==> '.' !in parts[i]
    requires IsDigits(parts[0]) && IsDigits(parts[1]) && IsDigits(parts[2])
    ensures Encodable(Join(parts, '.'))
    ensures Encode(Join(parts, '.')) == EncodeParts(parts[0], parts[1], parts[2])
  {
    SplitJoin(parts, '.');
  }

  /** The numeric (major, minor, patch) of a version, as parseInt reads each component. */
  function Numbers(ver: string): (nat, nat, nat)
    requires Encodable(ver)
  {
    var t := Split(ver, '.');
    (Value(t[0]), Value(t[1]), Value(t[2]))
  }

  /** Lexicographic order on (major, minor, patch). */
  predicate TupleBelow(a: (nat, nat, nat), b: (nat, nat, nat)) {
    a.0 < b.0 || (a.0 == b.0 && (a.1 < b.1 || (a.1 == b.1 && a.2 < b.2)))
  }

  /** The first three components of a and b have the same digit widths, pairwise. */
  predicate SameWidths(a: string, b: string) {
    var s, t := Split(a, '.'), Split(b, '.');
    |s| >= 3 && |t| >= 3 && |s[0]| == |t[0]| && |s[1]| == |t[1]| && |s[2]| == |t[2]|
  }

  lemma MulMono(a: nat, b: nat, c: nat)
    requires a <= b
    ensures a * c <= b * c
  {
  }

  lemma MixedRadix(x1: nat, y1: nat, x2: nat, y2: nat, base: nat)
    requires y1 < base && y2 < base
    ensures x1 * base + y1 < x2 * base + y2 <==> x1 < x2 || (x1 == x2 && y1 < y2)
    ensures x1 * base + y1 == x2 * base + y2 <==> x1 == x2 && y1 == y2
  {
    if x1 < x2 {
      MulMono(x1 + 1, x2, base);
    } else if x2 < x1 {
      MulMono(x2 + 1, x1, base);
    }
  }

  lemma Scale(x: nat, y: nat, f: nat)
    requires f >= 1
    ensures x * f < y * f <==> x < y
    ensures x * f == y * f <==> x == y
  {
    if x < y { MulMono(x + 1, y, f); } else if y < x { MulMono(y + 1, x, f); }
  }

  /** Digit strings compare block by block when their trailing blocks have equal width. */
  lemma BlocksOrder(x: string, y: string, x': string, y': string)
    requires IsDigits(x) && IsDigits(y) && IsDigits(x') && IsDigits(y') && |y| == |y'|
    ensures IsDigits(x + y) && IsDigits(x' + y')
    ensures Value(x + y) < Value(x' + y') <==> Value(x) < Value(x') || (Value(x) == Value(x') && Value(y) < Value(y'))
    ensures Value(x + y) == Value(x' + y') <==> Value(x) == Value(x') && Value(y) == Value(y')
  {
    ValueAppend(x, y);
    ValueAppend(x', y');
    MixedRadix(Value(x), Value(y), Value(x'), Value(y'), Pow10(|y|));
  }

  /** A padded component of a given width compares as the component does. */
  lemma PaddedOrder(x: string, y: string, width: nat)
    requires IsDigits(x) && IsDigits(y) && |x| == |y|
    ensures IsDigits(PadRight(x, width)) && IsDigits(PadRight(y, width))
    ensures |PadRight(x, width)| == |PadRight(y, width)|
    ensures Value(PadRight(x, width)) < Value(PadRight(y, width)) <==> Value(x) < Value(y)
    ensures Value(PadRight(x, width)) == Value(PadRight(y, width)) <==> Value(x) == Value(y)
  {
    PadRightValue(x, width);
    PadRightValue(y, width);
    Scale(Value(x), Value(y), Pow10(|PadRight(x, width)| - |x|));
  }

  /** The marked major of a given width compares as the major does. */
  lemma MarkedMajorOrder(x: string, y: string)
    requires IsDigits(x) && IsDigits(y) && |x| == |y|
    ensures IsDigits(PadRight("1" + x, 2)) && IsDigits(PadRight("1" + y, 2))
    ensures Value(PadRight("1" + x, 2)) < Value(PadRight("1" + y, 2)) <==> Value(x) < Value(y)
    ensures Value(PadRight("1" + x, 2)) == Value(PadRight("1" + y, 2)) <==> Value(x) == Value(y)
  {
    MarkedMajorValue(x);
    MarkedMajorValue(y);
    PadRightDigits("1" + x, 2);
    PadRightDigits("1" + y, 2);
  }

  /**
   * With equal component widths the encoding orders versions exactly as
   * (major, minor, patch) in lexicographic order, and identifies only equal
   * triples.
   */
  lemma EncodeOrdersLikeTuples(a: string, b: string)
    requires Encodable(a) && Encodable(b) && SameWidths(a, b)
    ensures Encode(a) < Encode(b) <==> TupleBelow(Numbers(a), Numbers(b))
    ensures Encode(a) == Encode(b) <==> Numbers(a) == Numbers(b)
  {
    var s, t := Split(a, '.'), Split(b, '.');
    MarkedMajorOrder(s[0], t[0]);
    PaddedOrder(s[1], t[1], 3);
    PaddedOrder(s[2], t[2], 3);
    var x0, x1, x2 := PadRight("1" + s[0], 2), PadRight(s[1], 3), PadRight(s[2], 3);
    var y0, y1, y2 := PadRight("1" + t[0], 2), PadRight(t[1], 3), PadRight(t[2], 3);
    assert EncodedDigits(s[0], s[1], s[2]) == x0 + x1 + x2;
    assert EncodedDigits(t[0], t[1], t[2]) == y0 + y1 + y2;
    BlocksOrder(x0, x1, y0, y1);
    BlocksOrder(x0 + x1, x2, y0 + y1, y2);
  }

  // ------------------------------------------- where the encoding diverges

  lemma JoinThree(major: string, minor: string, patch: string)
    ensures Join([major, minor, patch], '.') == major + "." + minor + "." + patch
  {
    var parts := [major, minor, patch];
    assert parts[1..] == [minor, patch] && parts[1..][1..] == [patch];
    assert Join([minor, patch], '.') == minor + "." + patch;
    assert major + "." + (minor + "." + patch) == major + "." + minor + "." + patch;
  }

  lemma EncodePartsShortComponents(major: string, minor: string, patch: string)
    requires IsDigits(major) && IsDigits(minor) && IsDigits(patch)
    requires |minor| <= 3 && |patch| <= 3
    ensures IsDigits(PadRight("1" + major, 2)) && IsDigits(PadRight(minor, 3)) && IsDigits(PadRight(patch, 3))
    ensures EncodeParts(major, minor, patch)
         == Value(PadRight("1" + major, 2)) * 1000000
          + Value(PadRight(minor, 3)) * 1000
          + Value(PadRight(patch, 3))
  {
    EncodePartsArithmetic(major, minor, patch);
    assert Pow10(3) == 1000;
    assert Pow10(6) == 1000000 by { Pow10Add(3, 3); }
  }

  lemma EncodeDotted(ver: string, major: string, minor: string, patch: string)
    requires IsDigits(major) && IsDigits(minor) && IsDigits(patch)
    requires '.' !in major && '.' !in minor && '.' !in patch
    requires ver == major + "." + minor + "." + patch
    ensures Encodable(ver) && Split(ver, '.') == [major, minor, patch]
    ensures Encode(ver) == EncodeParts(major, minor, patch)
  {
    JoinThree(major, minor, patch);
    SplitJoin([major, minor, patch], '.');
    EncodeFirstThree([major, minor, patch]);
  }

  /** The reading of "major.minor.patch" with a non-empty major and minor and patch of at most three digits. */
  lemma EncodeOfComponents(major: string, minor: string, patch: string)
    requires IsDigits(major) && IsDigits(minor) && IsDigits(patch)
    requires major != "" && |minor| <= 3 && |patch| <= 3
    ensures EncodeParts(major, minor, patch)
         == (Pow10(|major|) + Value(major)) * 1000000
          + Value(minor) * Pow10(3 - |minor|) * 1000
          + Value(patch) * Pow10(3 - |patch|)
  {
    EncodePartsShortComponents(major, minor, patch);
    MarkedMajorValue(major);
    PadRightValue(minor, 3);
    PadRightValue(patch, 3);
    var x, y, z := Value(PadRight("1" + major, 2)), Value(PadRight(minor, 3)), Value(PadRight(patch, 3));
    assert x == Pow10(|major|) + Value(major);
    assert y == Value(minor) * Pow10(3 - |minor|);
    assert z == Value(patch) * Pow10(3 - |patch|);
    assert EncodeParts(major, minor, patch) == x * 1000000 + y * 1000 + z;
  }

  /** EncodeDotted and EncodeOfComponents together, for a version written out. */
  lemma EncodeOfVersion(ver: string, major: string, minor: string, patch: string)
    requires IsDigits(major) && IsDigits(minor) && IsDigits(patch)
    requires '.' !in major && '.' !in minor && '.' !in patch
    requires major != "" && |minor| <= 3 && |patch| <= 3
    requires ver == major + "." + minor + "." + patch
    ensures Encodable(ver) && Numbers(ver) == (Value(major), Value(minor), Value(patch))
    ensures Encode(ver)
         == (Pow10(|major|) + Value(major)) * 1000000
          + Value(minor) * Pow10(3 - |minor|) * 1000
          + Value(patch) * Pow10(3 - |patch|)
  {
    EncodeDotted(ver, major, minor, patch);
    EncodeOfComponents(major, minor, patch);
  }

  lemma OneDigit(c: char)
    requires IsDigit(c)
    ensures IsDigits([c]) && Value([c]) == DigitValue(c)
  {
    assert [c][..0] == [];
  }

  lemma TwoDigits(c: char, d: char)
    requires IsDigit(c) && IsDigit(d)
    ensures IsDigits([c, d]) && Value([c, d]) == DigitValue(c) * 10 + DigitValue(d)
  {
    OneDigit(c);
    assert [c, d][..1] == [c];
  }

  /** A one-digit minor and its ten-fold two-digit form encode alike: 1.1.0 and 1.10.0. */
  lemma MinorPaddingCollides()
    ensures Encodable("1.1.0") && Encodable("1.10.0")
    ensures Encode("1.1.0") == Encode("1.10.0") == 11100000
  {
    OneDigit('1');
    OneDigit('0');
    TwoDigits('1', '0');
    assert Pow10(1) == 10 && Pow10(2) == 100;
    EncodeOfVersion("1.1.0", "1", "1", "0");
    EncodeOfVersion("1.10.0", "1", "10", "0");
  }

  /** A wider minor can encode lower: 1.10.0 below 1.2.0, though 10 > 2. */
  lemma WiderMinorEncodesLower()
    ensures Encodable("1.10.0") && Encodable("1.2.0")
    ensures Encode("1.10.0") < Encode("1.2.0")
    ensures Numbers("1.10.0").1 > Numbers("1.2.0").1
  {
    OneDigit('1');
    OneDigit('2');
    OneDigit('0');
    TwoDigits('1', '0');
    assert Pow10(1) == 10 && Pow10(2) == 100;
    EncodeOfVersion("1.10.0", "1", "10", "0");
    EncodeOfVersion("1.2.0", "1", "2", "0");
  }
}
