// Parsers for unsigned numbers that stop at the first character that is not a
// digit and report numbers that do not fit.
module Numbers {
  import opened Basics
  import opened Words

  // The value of a digit, or 255.
  function DigitOf(c: char): (d: nat)
    ensures d < 16 || d == 255
  {
    if '0' <= c <= '9' then c as nat - '0' as nat
    else if 'a' <= c <= 'f' then c as nat - 'a' as nat + 10
    else if 'A' <= c <= 'F' then c as nat - 'A' as nat + 10
    else 255
  }

  // The number of leading digits among the first `len` characters.
  function RunLength(radix: nat, s: string, len: nat): (n: nat)
    requires radix <= 16
    ensures n <= len
    ensures forall k :: 0 <= k < n ==> DigitOf(At(s, k)) < radix
    ensures n == len || DigitOf(At(s, n)) >= radix
  {
    RunFrom(radix, s, len, 0)
  }

  function RunFrom(radix: nat, s: string, len: nat, i: nat): (n: nat)
    requires radix <= 16 && i <= len
    ensures i <= n <= len
    ensures forall k :: i <= k < n ==> DigitOf(At(s, k)) < radix
    ensures n == len || DigitOf(At(s, n)) >= radix
    decreases len - i
  {
    if i == len || DigitOf(At(s, i)) >= radix then i else RunFrom(radix, s, len, i + 1)
  }

  // The number that the first n characters denote.
  function ValueOf(radix: nat, s: string, n: nat): nat {
    if n == 0 then 0 else radix * ValueOf(radix, s, n - 1) + DigitOf(At(s, n - 1))
  }

  lemma {:induction false} ValueGrows(radix: nat, s: string, m: nat, n: nat)
    requires radix >= 1 && m <= n
    ensures ValueOf(radix, s, m) <= ValueOf(radix, s, n)
  {
    if m < n {
      ValueGrows(radix, s, m, n - 1);
      MulAtLeast(radix, ValueOf(radix, s, n - 1));
    }
  }

  // The conversion of a length to `int`.
  function ToInt(n: nat): int {
    var r := n % 0x1_0000_0000;
    if r >= 0x8000_0000 then r - 0x1_0000_0000 else r
  }

  // What both parsers report: the length of the run and its value when that
  // fits; otherwise -1 and the value of the longest prefix that fits.
  ghost predicate Parses(radix: nat, max: nat, s: string, len: nat, r: int, out: nat)
    requires 1 <= radix <= 16
  {
    var n := RunLength(radix, s, len);
    if ValueOf(radix, s, n) <= max then
      r == ToInt(n) && out == ValueOf(radix, s, n)
    else
      r == -1 && exists m :: 0 <= m < n && out == ValueOf(radix, s, m) <= max < ValueOf(radix, s, m + 1)
  }

  method ParseDec(max: nat, s: string, len: nat) returns (r: int, out: nat)
    requires max >= 10
    ensures Parses(10, max, s, len, r, out)
  {
    var i, result := 0, 0;
    ghost var n := RunLength(10, s, len);
    while i < len && DigitOf(At(s, i)) < 10 && result <= max / 10 && result * 10 <= max - DigitOf(At(s, i))
      invariant 0 <= i <= n && result == ValueOf(10, s, i) <= max
    {
      result := result * 10 + DigitOf(At(s, i));
      i := i + 1;
    }
    out := result;
    if i >= len || DigitOf(At(s, i)) >= 10 {
      r := ToInt(i);
    } else {
      ValueGrows(10, s, i + 1, n);
      r := -1;
    }
  }

  method ParseHex(max: nat, s: string, len: nat) returns (r: int, out: nat)
    requires max % 16 == 15
    ensures Parses(16, max, s, len, r, out)
  {
    var i, result := 0, 0;
    ghost var n := RunLength(16, s, len);
    while i < len && DigitOf(At(s, i)) < 16 && result <= max / 16
      invariant 0 <= i <= n && result == ValueOf(16, s, i) <= max
    {
      result := result * 16 + DigitOf(At(s, i));
      i := i + 1;
    }
    out := result;
    if i >= len || DigitOf(At(s, i)) >= 16 {
      r := ToInt(i);
    } else {
      ValueGrows(16, s, i + 1, n);
      r := -1;
    }
  }

  // For runs shorter than 2^31 characters, the result is -1 exactly when the
  // number does not fit, and otherwise the length of the run.  Longer runs
  // (of zeros) lose the length: 2^32 - 1 zeros are reported like an overflow.
  lemma ResultMeaning(radix: nat, max: nat, s: string, len: nat, r: int, out: nat)
    requires 1 <= radix <= 16 && Parses(radix, max, s, len, r, out)
    ensures var n := RunLength(radix, s, len);
            && (n < 0x8000_0000 ==> (r == -1 <==> ValueOf(radix, s, n) > max))
            && (ValueOf(radix, s, n) <= max ==> (r == n <==> n < 0x8000_0000))
  {
  }

  lemma LongRunLooksLikeOverflow(zeros: string)
    requires |zeros| == 0xffff_ffff && forall i :: 0 <= i < |zeros| ==> zeros[i] == '0'
    ensures RunLength(16, zeros, |zeros|) == |zeros| && ValueOf(16, zeros, |zeros|) == 0
    ensures Parses(16, 0xffff_ffff, zeros, |zeros|, -1, 0)
  {
    AllZeros(zeros, |zeros|);
  }

  lemma {:induction false} AllZeros(zeros: string, n: nat)
    requires n <= |zeros| && forall i :: 0 <= i < |zeros| ==> zeros[i] == '0'
    ensures ValueOf(16, zeros, n) == 0
  {
    if n > 0 {
      AllZeros(zeros, n - 1);
    }
  }

  // ------------------------------------------------------------------------
  // Printing in hexadecimal, as the printf conversions %0Nx and %0NX do

  function HexDigit(d: nat, upper: bool): (c: char)
    requires d < 16
    ensures DigitOf(c) == d
  {
    if d < 10 then ('0' as nat + d) as char
    else if upper then ('A' as nat + d - 10) as char
    else ('a' as nat + d - 10) as char
  }

  predicate AreHexDigits(s: string) {
    forall i :: 0 <= i < |s| ==> DigitOf(s[i]) < 16
  }

  // At least `width` digits, more if the number needs them.
  function PrintHex(v: nat, width: nat, upper: bool): (s: string)
    ensures AreHexDigits(s) && |s| >= width
    decreases v + width
  {
    if v == 0 && width == 0 then ""
    else
      PrintHex(v / 16, if width == 0 then 0 else width - 1, upper) + [HexDigit(v % 16, upper)]
  }

  // The letters among the digits are of one case.
  lemma {:induction false} PrintedCase(v: nat, width: nat, upper: bool)
    ensures forall i :: 0 <= i < |PrintHex(v, width, upper)| ==>
              var c := PrintHex(v, width, upper)[i];
              '0' <= c <= '9' || (if upper then 'A' <= c <= 'F' else 'a' <= c <= 'f')
    decreases v + width
  {
    if v != 0 || width != 0 {
      PrintedCase(v / 16, if width == 0 then 0 else width - 1, upper);
    }
  }

  lemma {:induction false} PrintedValue(v: nat, width: nat, upper: bool)
    ensures ValueOf(16, PrintHex(v, width, upper), |PrintHex(v, width, upper)|) == v
    decreases v + width
  {
    if v != 0 || width != 0 {
      var width' := if width == 0 then 0 else width - 1;
      var s := PrintHex(v / 16, width', upper);
      var t := s + [HexDigit(v % 16, upper)];
      PrintedValue(v / 16, width', upper);
      ValueOfPrefix(s, t, |s|);
      assert At(t, |s|) == HexDigit(v % 16, upper);
    }
  }

  lemma {:induction false} ValueOfPrefix(s: string, t: string, n: nat)
    requires n <= |s| && s <= t
    ensures ValueOf(16, s, n) == ValueOf(16, t, n)
  {
    if n > 0 {
      ValueOfPrefix(s, t, n - 1);
    }
  }

  // A number below 16^k prints in at most k digits, or the width if larger.
  lemma {:induction false} PrintedLength(v: nat, width: nat, upper: bool, k: nat)
    requires v < Pow2(4 * k)
    ensures |PrintHex(v, width, upper)| <= if width < k then k else width
    decreases v + width
  {
    if v != 0 || width != 0 {
      if k == 0 {
        PrintedLength(0, width - 1, upper, 0);
      } else {
        assert Pow2(4 * k) == 16 * Pow2(4 * (k - 1)) by {
          Pow2Split(4 * (k - 1), 4 * k);
          assert Pow2(4) == 16;
        }
        PrintedLength(v / 16, if width == 0 then 0 else width - 1, upper, k - 1);
      }
    }
  }
}
