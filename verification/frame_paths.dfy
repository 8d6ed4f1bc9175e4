/**
  Asset naming of the image sequence: frame i lives at
  `assets/Image` + the decimal form of i left-padded with '0' to five
  characters + `.png` (JavaScript's `String(i).padStart(5, '0')`).
 */
module FramePaths {

  const Prefix: string := "assets/Image"
  const Suffix: string := ".png"
  const PadWidth: nat := 5

  /** The character of a decimal digit. */
  function DigitChar(d: nat): (c: char)
    requires d < 10
    ensures '0' <= c <= '9' && DigitValue(c) == d
  {
    ('0' as int + d) as char
  }

  /** The numeric value of a character read as a decimal digit. */
  function DigitValue(c: char): int
  {
    c as int - '0' as int
  }

  /** `String(n)` for a non-negative integer: its decimal digits, most significant first. */
  function Digits(n: nat): (s: string)
    ensures |s| >= 1
    ensures forall k :: 0 <= k < |s| ==> '0' <= s[k] <= '9'
  {
    if n < 10 then [DigitChar(n)] else Digits(n / 10) + [DigitChar(n % 10)]
  }

  /** The decimal value of a string of digits, read most significant first. */
  function Value(s: string): int
  {
    if s == [] then 0 else Value(s[..|s| - 1]) * 10 + DigitValue(s[|s| - 1])
  }

  /** `count` copies of the fill character. */
  function Fill(c: char, count: nat): (r: string)
    ensures |r| == count
    ensures forall k :: 0 <= k < count ==> r[k] == c
  {
    if count == 0 then [] else [c] + Fill(c, count - 1)
  }

  /** JavaScript's `s.padStart(width, fill)` for a one-character fill string. */
  function PadStart(s: string, width: nat, fill: char): (r: string)
    ensures |s| >= width ==> r == s
    ensures |s| < width ==> |r| == width && r[width - |s|..] == s
    ensures forall k :: 0 <= k < |r| - |s| ==> r[k] == fill
  {
    if |s| >= width then s else Fill(fill, width - |s|) + s
  }

  /** The zero-padded frame number used in asset names. */
  function FrameNumber(i: nat): string
  {
    PadStart(Digits(i), PadWidth, '0')
  }

  /** The path of frame i, as requested by the preloader and set by displayFrame. */
  function FramePath(i: nat): (p: string)
    ensures |p| == |Prefix| + |FrameNumber(i)| + |Suffix|
    ensures p[..|Prefix|] == Prefix
    ensures p[|p| - |Suffix|..] == Suffix
    ensures p[|Prefix|..|p| - |Suffix|] == FrameNumber(i)
  {
    Prefix + FrameNumber(i) + Suffix
  }

  function Pow10(k: nat): (r: nat)
    ensures r >= 1
  {
    if k == 0 then 1 else 10 * Pow10(k - 1)
  }

  /** Reading back the decimal form of n gives n. */
  lemma {:induction false} DigitsValue(n: nat)
    ensures Value(Digits(n)) == n
  {
    if n >= 10 {
      DigitsValue(n / 10);
      var s := Digits(n / 10) + [DigitChar(n % 10)];
      assert s[..|s| - 1] == Digits(n / 10);
      assert Value(s) == Value(Digits(n / 10)) * 10 + n % 10;
    }
  }

  /** Leading zeros do not change the value of a digit string. */
  lemma {:induction false} LeadingZerosValue(k: nat, s: string)
    ensures Value(Fill('0', k) + s) == Value(s)
    decreases |s|
  {
    var z := Fill('0', k);
    if s == [] {
      assert z + s == z;
      ZerosValue(k);
    } else {
      var t := z + s;
      assert t[..|t| - 1] == z + s[..|s| - 1];
      LeadingZerosValue(k, s[..|s| - 1]);
    }
  }

  /** A string of zeros has value 0. */
  lemma {:induction false} ZerosValue(k: nat)
    ensures Value(Fill('0', k)) == 0
  {
    if k > 0 {
      var z := Fill('0', k);
      assert z[..k - 1] == Fill('0', k - 1);
      ZerosValue(k - 1);
    }
  }

  /** The padded frame number still reads back as the frame index. */
  lemma FrameNumberValue(i: nat)
    ensures Value(FrameNumber(i)) == i
  {
    var d := Digits(i);
    DigitsValue(i);
    if |d| < PadWidth {
      LeadingZerosValue(PadWidth - |d|, d);
    }
  }

  /** A number below 10^k has at most k decimal digits. */
  lemma {:induction false} DigitsLength(n: nat, k: nat)
    requires 1 <= k
    requires n < Pow10(k)
    ensures |Digits(n)| <= k
  {
    if n >= 10 {
      assert k >= 2;
      DigitsLength(n / 10, k - 1);
    }
  }

  /** Frames 1 .. 99999 all get exactly five characters of frame number. */
  lemma FrameNumberLength(i: nat)
    requires i < Pow10(PadWidth)
    ensures |FrameNumber(i)| == PadWidth
    ensures |FramePath(i)| == |Prefix| + PadWidth + |Suffix|
  {
    DigitsLength(i, PadWidth);
  }

  /** Different frames never share a path. */
  lemma FramePathInjective(i: nat, j: nat)
    ensures FramePath(i) == FramePath(j) <==> i == j
  {
    if FramePath(i) == FramePath(j) {
      FrameNumberValue(i);
      FrameNumberValue(j);
    }
  }

  /** The paths of frames 1 .. n (n below 10^5) are pairwise distinct and of equal length. */
  lemma FramePathsDistinctAndAligned(n: nat)
    requires n < Pow10(PadWidth)
    ensures forall i, j :: 1 <= i <= n && 1 <= j <= n && i != j ==> FramePath(i) != FramePath(j)
    ensures forall i :: 1 <= i <= n ==> |FramePath(i)| == 21
  {
    forall i, j | 1 <= i <= n && 1 <= j <= n && i != j
      ensures FramePath(i) != FramePath(j)
    {
      FramePathInjective(i, j);
    }
    forall i | 1 <= i <= n
      ensures |FramePath(i)| == 21
    {
      FrameNumberLength(i);
    }
  }

  /** Frame 7 is `assets/Image00007.png`. */
  lemma FramePathSeven()
    ensures FramePath(7) == "assets/Image00007.png"
  {
    assert FrameNumber(7) == "00007";
  }
}
