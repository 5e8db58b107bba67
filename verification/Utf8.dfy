// UTF-8: the encoder, the validator and the decoder, related to each other.
// The reference is section 4 of RFC 3629 and Table 3-7 of the Unicode
// Standard.
module Utf8 {
  import opened Basics
  import opened Words

  type byte = x: int | 0 <= x < 256

  predicate IsSurrogate(cp: int) { 0xd800 <= cp <= 0xdfff }

  // A Unicode scalar value.
  predicate IsScalar(cp: int) { 0 <= cp <= 0x10ffff && !IsSurrogate(cp) }

  predicate IsTail(b: int) { 0x80 <= b <= 0xbf }

  // ------------------------------------------------------------------------
  // Reference definitions

  // The encoding of a scalar value.
  function Encode(cp: int): (s: seq<byte>)
    requires IsScalar(cp)
    ensures 1 <= |s| <= 4
  {
    if cp <= 0x7f then [cp]
    else if cp <= 0x7ff then [0xc0 + cp / 64, 0x80 + cp % 64]
    else if cp <= 0xffff then [0xe0 + cp / 4096, 0x80 + cp / 64 % 64, 0x80 + cp % 64]
    else [0xf0 + cp / 262144, 0x80 + cp / 4096 % 64, 0x80 + cp / 64 % 64, 0x80 + cp % 64]
  }

  predicate AreScalars(cps: seq<int>) {
    forall i :: 0 <= i < |cps| ==> IsScalar(cps[i])
  }

  function EncodeAll(cps: seq<int>): seq<byte>
    requires AreScalars(cps)
  {
    if cps == [] then [] else Encode(cps[0]) + EncodeAll(cps[1..])
  }

  // A string is well formed when it encodes some scalar values.
  ghost predicate IsWellFormed(s: seq<byte>) {
    exists cps :: AreScalars(cps) && EncodeAll(cps) == s
  }

  // The second byte that Table 3-7 allows after a lead byte.
  predicate SecondAllowed(lead: int, second: int) {
    if lead == 0xe0 then 0xa0 <= second <= 0xbf
    else if lead == 0xed then 0x80 <= second <= 0x9f
    else if lead == 0xf0 then 0x90 <= second <= 0xbf
    else if lead == 0xf4 then 0x80 <= second <= 0x8f
    else IsTail(second)
  }

  // The length of a sequence that starts with a lead byte, or 0.
  function LeadLength(lead: byte): (n: nat)
    ensures n <= 4
  {
    if lead <= 0x7f then 1
    else if 0xc2 <= lead <= 0xdf then 2
    else if 0xe0 <= lead <= 0xef then 3
    else if 0xf0 <= lead <= 0xf4 then 4
    else 0
  }

  // A row of Table 3-7 matches the start of the string.
  predicate StartsWellFormed(s: seq<byte>) {
    && s != [] && LeadLength(s[0]) > 0 && LeadLength(s[0]) <= |s|
    && (LeadLength(s[0]) > 1 ==> SecondAllowed(s[0], s[1]))
    && forall k :: 2 <= k < LeadLength(s[0]) ==> IsTail(s[k])
  }

  // The string is a run of such rows.
  predicate IsValid(s: seq<byte>)
    decreases |s|
  {
    s == [] || (StartsWellFormed(s) && IsValid(s[LeadLength(s[0])..]))
  }

  // The value that a sequence of a known length carries.
  function Payload(s: seq<byte>): (cp: nat)
    requires s != [] && 1 <= LeadLength(s[0]) <= |s|
  {
    match LeadLength(s[0])
    case 1 => s[0]
    case 2 => Low(s[0], 32) * 64 + Low(s[1], 64)
    case 3 => Low(s[0], 16) * 4096 + Low(s[1], 64) * 64 + Low(s[2], 64)
    case _ => Low(s[0], 8) * 262144 + Low(s[1], 64) * 4096 + Low(s[2], 64) * 64 + Low(s[3], 64)
  }

  // The low bits of a byte.
  function Low(b: int, size: int): int
    requires size > 0
  {
    b % size
  }

  // ------------------------------------------------------------------------
  // One sequence

  lemma EncodeStartsWellFormed(cp: int, rest: seq<byte>)
    requires IsScalar(cp)
    ensures StartsWellFormed(Encode(cp) + rest)
    ensures LeadLength((Encode(cp) + rest)[0]) == |Encode(cp)|
    ensures Payload(Encode(cp) + rest) == cp
  {
    var s := Encode(cp) + rest;
    var e := Encode(cp);
    assert forall k :: 0 <= k < |e| ==> s[k] == e[k];
    if 0x80 <= cp <= 0x7ff {
      Encode2(cp);
    } else if 0x800 <= cp <= 0xffff {
      Encode3(cp);
    } else if 0x10000 <= cp {
      Encode4(cp);
    }
  }

  lemma Encode2(cp: int)
    requires 0x80 <= cp <= 0x7ff
    ensures 0xc2 <= 0xc0 + cp / 64 <= 0xdf && IsTail(0x80 + cp % 64)
    ensures Low(0xc0 + cp / 64, 32) * 64 + Low(0x80 + cp % 64, 64) == cp
  {
  }

  lemma Encode3(cp: int)
    requires 0x800 <= cp <= 0xffff && !IsSurrogate(cp)
    ensures 0xe0 <= 0xe0 + cp / 4096 <= 0xef
    ensures SecondAllowed(0xe0 + cp / 4096, 0x80 + cp / 64 % 64) && IsTail(0x80 + cp % 64)
    ensures Low(0xe0 + cp / 4096, 16) * 4096 + Low(0x80 + cp / 64 % 64, 64) * 64 + Low(0x80 + cp % 64, 64) == cp
  {
    var a, b, c := cp / 4096, cp / 64 % 64, cp % 64;
    assert cp == a * 4096 + b * 64 + c;
    assert Low(0xe0 + a, 16) == a && Low(0x80 + b, 64) == b && Low(0x80 + c, 64) == c;
  }

  lemma Encode4(cp: int)
    requires 0x10000 <= cp <= 0x10ffff
    ensures 0xf0 <= 0xf0 + cp / 262144 <= 0xf4
    ensures SecondAllowed(0xf0 + cp / 262144, 0x80 + cp / 4096 % 64)
    ensures IsTail(0x80 + cp / 64 % 64) && IsTail(0x80 + cp % 64)
    ensures Low(0xf0 + cp / 262144, 8) * 262144 + Low(0x80 + cp / 4096 % 64, 64) * 4096
            + Low(0x80 + cp / 64 % 64, 64) * 64 + Low(0x80 + cp % 64, 64) == cp
  {
    var a, b, c, d := cp / 262144, cp / 4096 % 64, cp / 64 % 64, cp % 64;
    SplitIn64(cp);
    assert 0 <= a <= 4;
    LowBits(a, b, c, d);
  }

  lemma SplitIn64(cp: nat)
    ensures cp == cp / 262144 * 262144 + cp / 4096 % 64 * 4096 + cp / 64 % 64 * 64 + cp % 64
  {
    assert cp / 4096 == (cp / 64) / 64 && cp / 262144 == (cp / 4096) / 64;
  }

  lemma LowBits(a: int, b: int, c: int, d: int)
    requires 0 <= a < 8 && 0 <= b < 64 && 0 <= c < 64 && 0 <= d < 64
    ensures Low(0xf0 + a, 8) == a && Low(0x80 + b, 64) == b && Low(0x80 + c, 64) == c && Low(0x80 + d, 64) == d
  {
  }

  lemma PayloadIsScalar(s: seq<byte>)
    requires StartsWellFormed(s)
    ensures IsScalar(Payload(s))
    ensures Encode(Payload(s)) == s[..LeadLength(s[0])]
  {
    match LeadLength(s[0])
    case 1 =>
    case 2 => Payload2(s[0], s[1]);
    case 3 => Payload3(s[0], s[1], s[2]);
    case _ => Payload4(s[0], s[1], s[2], s[3]);
  }

  lemma Payload2(a: byte, b: byte)
    requires 0xc2 <= a <= 0xdf && IsTail(b)
    ensures var cp := Low(a, 32) * 64 + Low(b, 64);
            IsScalar(cp) && 0x80 <= cp <= 0x7ff && Encode(cp) == [a, b]
  {
    var x: int, y: int := a - 0xc0, b - 0x80;
    assert Low(a, 32) == x && Low(b, 64) == y;
    Digits64(0, 0, x, y);
  }

  lemma Payload3(a: byte, b: byte, c: byte)
    requires 0xe0 <= a <= 0xef && SecondAllowed(a, b) && IsTail(c)
    ensures var cp := Low(a, 16) * 4096 + Low(b, 64) * 64 + Low(c, 64);
            IsScalar(cp) && 0x800 <= cp <= 0xffff && Encode(cp) == [a, b, c]
  {
    var x: int, y: int, z: int := a - 0xe0, b - 0x80, c - 0x80;
    assert Low(a, 16) == x && Low(b, 64) == y && Low(c, 64) == z;
    Range3(x, y, z);
    EncodeDigits3(x, y, z);
  }

  lemma Range3(x: int, y: int, z: int)
    requires 0 <= x < 16 && 0 <= y < 64 && 0 <= z < 64 && (x == 0 ==> y >= 32) && (x == 13 ==> y < 32)
    ensures var cp := x * 4096 + y * 64 + z;
            0x800 <= cp <= 0xffff && IsScalar(cp)
  {
  }

  lemma EncodeDigits3(x: nat, y: nat, z: nat)
    requires x < 16 && y < 64 && z < 64
    requires var cp := x * 4096 + y * 64 + z;
             0x800 <= cp <= 0xffff && IsScalar(cp)
    ensures Encode(x * 4096 + y * 64 + z) == [0xe0 + x, 0x80 + y, 0x80 + z]
  {
    Digits64(0, x, y, z);
    assert (x * 4096 + y * 64 + z) / 4096 == x;
  }

  lemma Payload4(a: byte, b: byte, c: byte, d: byte)
    requires 0xf0 <= a <= 0xf4 && SecondAllowed(a, b) && IsTail(c) && IsTail(d)
    ensures var cp := Low(a, 8) * 262144 + Low(b, 64) * 4096 + Low(c, 64) * 64 + Low(d, 64);
            IsScalar(cp) && 0x10000 <= cp && Encode(cp) == [a, b, c, d]
  {
    var w: int, x: int, y: int, z: int := a - 0xf0, b - 0x80, c - 0x80, d - 0x80;
    LowBits(w, x, y, z);
    Digits64(w, x, y, z);
    var cp := w * 262144 + x * 4096 + y * 64 + z;
    assert 0x10000 <= cp <= 0x10ffff;
  }

  lemma Digits64(w: nat, x: nat, y: nat, z: nat)
    requires x < 64 && y < 64 && z < 64
    ensures var cp := w * 262144 + x * 4096 + y * 64 + z;
            && cp % 64 == z && cp / 64 % 64 == y && cp / 4096 % 64 == x && cp / 262144 == w
  {
    var cp := w * 262144 + x * 4096 + y * 64 + z;
    assert cp / 64 == w * 4096 + x * 64 + y;
    assert cp / 4096 == w * 64 + x;
  }

  // ------------------------------------------------------------------------
  // Whole strings

  lemma {:induction false} EncodedIsValid(cps: seq<int>)
    requires AreScalars(cps)
    ensures IsValid(EncodeAll(cps))
  {
    if cps != [] {
      EncodeStartsWellFormed(cps[0], EncodeAll(cps[1..]));
      EncodedIsValid(cps[1..]);
      assert EncodeAll(cps)[|Encode(cps[0])|..] == EncodeAll(cps[1..]);
    }
  }

  // The scalar values of a valid string.
  ghost function Decoded(s: seq<byte>): seq<int>
    requires IsValid(s)
    decreases |s|
  {
    if s == [] then [] else [Payload(s)] + Decoded(s[LeadLength(s[0])..])
  }

  lemma {:induction false} DecodedEncodes(s: seq<byte>)
    requires IsValid(s)
    ensures AreScalars(Decoded(s)) && EncodeAll(Decoded(s)) == s
    decreases |s|
  {
    if s != [] {
      var n := LeadLength(s[0]);
      PayloadIsScalar(s);
      DecodedEncodes(s[n..]);
      EncodeFirst(Payload(s), Decoded(s[n..]), s, n);
    }
  }

  lemma EncodeFirst(cp: int, rest: seq<int>, s: seq<byte>, n: nat)
    requires IsScalar(cp) && AreScalars(rest) && n <= |s| && Encode(cp) == s[..n] && EncodeAll(rest) == s[n..]
    ensures AreScalars([cp] + rest) && EncodeAll([cp] + rest) == s
  {
    assert ([cp] + rest)[1..] == rest;
    assert s == s[..n] + s[n..];
  }

  // The table-driven definition accepts exactly the encodings.
  lemma ValidIsWellFormed(s: seq<byte>)
    ensures IsValid(s) <==> IsWellFormed(s)
  {
    if IsValid(s) {
      DecodedEncodes(s);
    }
    if IsWellFormed(s) {
      var cps :| AreScalars(cps) && EncodeAll(cps) == s;
      EncodedIsValid(cps);
    }
  }

  // An encoding has only one reading.
  lemma {:induction false} EncodingUnique(a: seq<int>, b: seq<int>)
    requires AreScalars(a) && AreScalars(b) && EncodeAll(a) == EncodeAll(b)
    ensures a == b
  {
    if a != [] && b != [] {
      EncodeStartsWellFormed(a[0], EncodeAll(a[1..]));
      EncodeStartsWellFormed(b[0], EncodeAll(b[1..]));
      assert EncodeAll(a)[|Encode(a[0])|..] == EncodeAll(a[1..]);
      assert EncodeAll(b)[|Encode(b[0])|..] == EncodeAll(b[1..]);
      EncodingUnique(a[1..], b[1..]);
      assert a == [a[0]] + a[1..] && b == [b[0]] + b[1..];
    }
  }

  // ------------------------------------------------------------------------
  // The encoder

  // `head | ((cp >> shift) & 0x3f)`, computed in a type of `w` bits.
  function EncodedByte(w: nat, head: nat, cp: nat, shift: nat): nat {
    BitOr(w, head, BitAnd(w, ShiftRight(cp, shift), 0x3f))
  }

  lemma EncodedByteValue(w: nat, head: nat, cp: nat, shift: nat, k: nat)
    requires w >= 32 && k <= 6 && cp < 0x1_0000_0000 && head < 256 && head % Pow2(k) == 0
    requires ShiftRight(cp, shift) % 64 < Pow2(k)
    ensures EncodedByte(w, head, cp, shift) == head + ShiftRight(cp, shift) % 64
  {
    SmallPowers();
    Pow2Increasing(32, w);
    var v := ShiftRight(cp, shift);
    MaskIsResidue(w, v, 6);
    OrIsSum(w, k, head, v % 64);
  }

  method Utf32ToUtf8(w: nat, unichar: nat, buffer: array<byte>) returns (n: nat)
    requires w >= 32 && unichar < 0x1_0000_0000 && buffer.Length >= 5
    modifies buffer
    ensures IsScalar(unichar) ==>
              && n == |Encode(unichar)| + 1
              && buffer[..n] == Encode(unichar) + [0]
              && buffer[n..] == old(buffer[n..])
    ensures !IsScalar(unichar) ==> n == 0 && buffer[0] == 0 && buffer[1..] == old(buffer[1..])
  {
    var length, head;
    if unichar <= 0x7f {
      buffer[0] := unichar;
      buffer[1] := 0;
      return 2;
    } else if unichar <= 0x7ff {
      length, head := 2, 0xc0;
    } else if IsSurrogate(unichar) {
      buffer[0] := 0;
      return 0;
    } else if unichar <= 0xffff {
      length, head := 3, 0xe0;
    } else if unichar <= 0x10ffff {
      length, head := 4, 0xf0;
    } else {
      buffer[0] := 0;
      return 0;
    }
    FillSequence(w, unichar, length, head, buffer);
    n := length + 1;
  }

  predicate HeadFor(cp: int, length: nat, head: nat) {
    || (length == 2 && head == 0xc0 && 0x80 <= cp <= 0x7ff)
    || (length == 3 && head == 0xe0 && 0x800 <= cp <= 0xffff)
    || (length == 4 && head == 0xf0 && 0x10000 <= cp)
  }

  // Write a sequence of several bytes, last byte first, and terminate it.
  method FillSequence(w: nat, unichar: nat, length: nat, head: nat, buffer: array<byte>)
    requires w >= 32 && IsScalar(unichar) && HeadFor(unichar, length, head) && buffer.Length >= 5
    modifies buffer
    ensures |Encode(unichar)| == length
    ensures buffer[..length + 1] == Encode(unichar) + [0]
    ensures buffer[length + 1..] == old(buffer[length + 1..])
  {
    var shift: nat, count := 0, length - 1;
    while count > 0
      invariant 0 <= count < length && shift == 6 * (length - 1 - count)
      invariant forall c :: count < c < length ==> buffer[c] == TailByte(unichar, length, c)
      invariant forall c :: length <= c < buffer.Length ==> buffer[c] == old(buffer[c])
    {
      buffer[count] := ComputeTail(w, unichar, shift);
      count, shift := count - 1, shift + 6;
    }
    buffer[0] := ComputeHead(w, unichar, length, head, shift);
    buffer[length] := 0;
    EncodedBytes(unichar, length, head, buffer[..length]);
    assert buffer[..length + 1] == buffer[..length] + [0];
  }

  method ComputeTail(w: nat, cp: nat, shift: nat) returns (b: byte)
    requires w >= 32 && cp < 0x1_0000_0000
    ensures b == 0x80 + ShiftRight(cp, shift) % 64
  {
    TailByteValue(w, cp, shift);
    b := EncodedByte(w, 0x80, cp, shift);
  }

  method ComputeHead(w: nat, cp: nat, length: nat, head: nat, shift: nat) returns (b: byte)
    requires w >= 32 && IsScalar(cp) && HeadFor(cp, length, head) && shift == 6 * (length - 1)
    ensures b == head + ShiftRight(cp, shift)
  {
    HeadByte(w, cp, length, head, shift);
    b := EncodedByte(w, head, cp, shift);
  }

  // Byte number c of a sequence, after the first.
  function TailByte(cp: nat, length: nat, c: nat): (b: byte)
    requires c < length
  {
    0x80 + ShiftRight(cp, 6 * (length - 1 - c)) % 64
  }

  lemma TailByteValue(w: nat, cp: nat, shift: nat)
    requires w >= 32 && cp < 0x1_0000_0000
    ensures EncodedByte(w, 0x80, cp, shift) == 0x80 + ShiftRight(cp, shift) % 64
  {
    SmallPowers();
    EncodedByteValue(w, 0x80, cp, shift, 6);
  }

  lemma Shifts(cp: nat)
    ensures ShiftRight(cp, 0) == cp && ShiftRight(cp, 6) == cp / 64
    ensures ShiftRight(cp, 12) == cp / 4096 && ShiftRight(cp, 18) == cp / 262144
  {
    SmallPowers();
  }

  lemma HeadByte(w: nat, cp: nat, length: nat, head: nat, shift: nat)
    requires w >= 32 && IsScalar(cp) && HeadFor(cp, length, head) && shift == 6 * (length - 1)
    ensures EncodedByte(w, head, cp, shift) == head + ShiftRight(cp, shift) < 256
  {
    match length
    case 2 => HeadByte2(w, cp);
    case 3 => HeadByte3(w, cp);
    case 4 => HeadByte4(w, cp);
  }

  lemma HeadByte2(w: nat, cp: nat)
    requires w >= 32 && 0x80 <= cp <= 0x7ff
    ensures EncodedByte(w, 0xc0, cp, 6) == 0xc0 + ShiftRight(cp, 6) < 256
  {
    Shifts(cp);
    assert Pow2(6) == 64 by { SmallPowers(); }
    assert ShiftRight(cp, 6) < 32;
    EncodedByteValue(w, 0xc0, cp, 6, 6);
  }

  lemma HeadByte3(w: nat, cp: nat)
    requires w >= 32 && 0x800 <= cp <= 0xffff
    ensures EncodedByte(w, 0xe0, cp, 12) == 0xe0 + ShiftRight(cp, 12) < 256
  {
    Shifts(cp);
    assert Pow2(5) == 32 by { SmallPowers(); }
    assert ShiftRight(cp, 12) < 16;
    EncodedByteValue(w, 0xe0, cp, 12, 5);
  }

  lemma HeadByte4(w: nat, cp: nat)
    requires w >= 32 && 0x10000 <= cp <= 0x10ffff
    ensures EncodedByte(w, 0xf0, cp, 18) == 0xf0 + ShiftRight(cp, 18) < 256
  {
    Shifts(cp);
    assert Pow2(4) == 16 by { SmallPowers(); }
    assert ShiftRight(cp, 18) < 5;
    EncodedByteValue(w, 0xf0, cp, 18, 4);
  }

  lemma EncodedBytes(cp: nat, length: nat, head: nat, s: seq<byte>)
    requires IsScalar(cp) && HeadFor(cp, length, head) && |s| == length
    requires s[0] == head + ShiftRight(cp, 6 * (length - 1))
    requires forall c :: 0 < c < length ==> s[c] == TailByte(cp, length, c)
    ensures s == Encode(cp)
  {
    Shifts(cp);
    assert s[1] == TailByte(cp, length, 1);
    if length >= 3 {
      assert s[2] == TailByte(cp, length, 2);
    }
    if length == 4 {
      assert s[3] == TailByte(cp, length, 3);
    }
  }

  // ------------------------------------------------------------------------
  // The validator

  method IsValidUtf8(s: seq<byte>) returns (ok: bool)
    ensures ok <==> IsWellFormed(s)
  {
    ValidIsWellFormed(s);
    var i, len := 0, |s|;
    assert s[0..] == s;
    while i < len
      invariant 0 <= i <= len
      invariant IsValid(s) == IsValid(s[i..])
    {
      var tailBytes;
      ghost var start := i;
      ghost var rest := s[start..];
      if s[i] <= 0x7f {
        tailBytes := 0;
      } else if s[i] >= 0xc2 && s[i] <= 0xdf {
        tailBytes := 1;
      } else if s[i] == 0xe0 {
        i := i + 1;
        if i >= len || !(s[i] >= 0xa0 && s[i] <= 0xbf) {
          return false;
        }
        tailBytes := 1;
      } else if s[i] >= 0xe1 && s[i] <= 0xec {
        tailBytes := 2;
      } else if s[i] == 0xed {
        i := i + 1;
        if i >= len || !(s[i] >= 0x80 && s[i] <= 0x9f) {
          return false;
        }
        tailBytes := 1;
      } else if s[i] >= 0xee && s[i] <= 0xef {
        tailBytes := 2;
      } else if s[i] == 0xf0 {
        i := i + 1;
        if i >= len || !(s[i] >= 0x90 && s[i] <= 0xbf) {
          return false;
        }
        tailBytes := 2;
      } else if s[i] >= 0xf1 && s[i] <= 0xf3 {
        tailBytes := 3;
      } else if s[i] == 0xf4 {
        i := i + 1;
        if i >= len || !(s[i] >= 0x80 && s[i] <= 0x8f) {
          return false;
        }
        tailBytes := 2;
      } else {
        return false;
      }
      i := i + 1;
      ghost var after := i;
      ghost var expected := tailBytes;
      i, tailBytes := SkipTail(s, i, tailBytes);
      RowMatches(rest, after - start, expected, i - after);
      if tailBytes != 0 {
        return false;
      }
      assert rest[LeadLength(rest[0])..] == s[i..];
    }
    return true;
  }

  // Skip up to a number of continuation bytes.
  method SkipTail(s: seq<byte>, from: nat, wanted: nat) returns (i: nat, tailBytes: nat)
    requires from <= |s|
    ensures from <= i <= |s| && i - from + tailBytes == wanted
    ensures forall k :: from <= k < i ==> IsTail(s[k])
    ensures tailBytes == 0 || i == |s| || !IsTail(s[i])
  {
    i, tailBytes := from, wanted;
    while i < |s| && tailBytes > 0 && s[i] >= 0x80 && s[i] <= 0xbf
      invariant from <= i <= |s| && i - from + tailBytes == wanted
      invariant forall k :: from <= k < i ==> IsTail(s[k])
    {
      i, tailBytes := i + 1, tailBytes - 1;
    }
  }

  // The bytes read before the tail, the expected tail and the tail found
  // decide whether a row of the table matches.
  lemma RowMatches(rest: seq<byte>, lead: nat, expected: nat, found: nat)
    requires rest != [] && LeadLength(rest[0]) == lead + expected && 1 <= lead <= 2 && lead + found <= |rest|
    requires lead == 2 ==> SecondAllowed(rest[0], rest[1]) && expected >= 1
    requires lead == 1 ==> forall b :: SecondAllowed(rest[0], b) <==> IsTail(b)
    requires found <= expected
    requires forall k :: lead <= k < lead + found ==> IsTail(rest[k])
    requires found == expected || lead + found == |rest| || !IsTail(rest[lead + found])
    ensures StartsWellFormed(rest) <==> found == expected
  {
  }

  // ------------------------------------------------------------------------
  // The decoder

  // What a call reads: a value and how many bytes it took, or nothing.
  function Next(s: seq<byte>, maxSize: nat): Option<(nat, nat)>
    requires 1 <= |s| && maxSize <= |s|
  {
    var n := LeadLength(s[0]);
    if n == 0 || n > maxSize then None
    else if exists k :: 1 <= k < n && !IsTail(s[k]) then None
    else if IsSurrogate(Payload(s)) then None
    else Some((Payload(s), n))
  }

  // The value accumulated from the first k bytes.
  function Accumulated(s: seq<byte>, k: nat): nat
    requires s != [] && 1 <= k <= LeadLength(s[0]) <= |s| && LeadLength(s[0]) >= 2
  {
    if k == 1 then Low(s[0], if LeadLength(s[0]) == 2 then 32 else if LeadLength(s[0]) == 3 then 16 else 8)
    else Accumulated(s, k - 1) * 64 + Low(s[k - 1], 64)
  }

  lemma AccumulatedIsPayload(s: seq<byte>)
    requires s != [] && 2 <= LeadLength(s[0]) <= |s|
    ensures Accumulated(s, LeadLength(s[0])) == Payload(s)
  {
    if LeadLength(s[0]) == 3 {
      assert Accumulated(s, 2) == Accumulated(s, 1) * 64 + Low(s[1], 64);
    } else if LeadLength(s[0]) == 4 {
      assert Accumulated(s, 2) == Accumulated(s, 1) * 64 + Low(s[1], 64);
      assert Accumulated(s, 3) == Accumulated(s, 2) * 64 + Low(s[2], 64);
    }
  }

  lemma AccumulatedBound(s: seq<byte>, k: nat)
    requires s != [] && 1 <= k < LeadLength(s[0]) <= |s|
    ensures Accumulated(s, k) * 64 < 0x1_0000_0000
  {
    assert Accumulated(s, 1) < 32;
    if k >= 2 {
      assert Accumulated(s, 2) < 32 * 64;
    }
    if k == 3 {
      assert Accumulated(s, 3) < 32 * 64 * 64;
    }
  }

  // The payload bits of a lead byte.
  method ComputeLead(w: nat, s: seq<byte>, len: nat) returns (cp: nat)
    requires w >= 32 && s != [] && 2 <= len == LeadLength(s[0]) <= |s|
    ensures cp == Accumulated(s, 1)
  {
    SmallPowers();
    Pow2Increasing(32, w);
    if len == 2 {
      MaskIsResidue(w, s[0], 5);
      cp := BitAnd(w, s[0], 0x1f);
    } else if len == 3 {
      MaskIsResidue(w, s[0], 4);
      cp := BitAnd(w, s[0], 0x0f);
    } else {
      MaskIsResidue(w, s[0], 3);
      cp := BitAnd(w, s[0], 0x07);
    }
  }

  lemma AndEven(w: nat, x: nat, y: nat)
    requires w > 0
    ensures BitAnd(w, x, 2 * y) == 2 * BitAnd(w - 1, x / 2, y)
  {
    BitAndStep(w, x, 2 * y);
  }

  // The two top bits of a byte.
  lemma TopBits(w: nat, b: byte)
    requires w >= 32
    ensures BitAnd(w, b, 0xc0) == 64 * (b / 64)
  {
    AndEight(w, b, 0x18);
    AndEight(w - 3, b / 8, 0x03);
    assert b / 8 / 8 == b / 64;
    LowTwo(w - 6, b / 64);
  }

  lemma AndEight(w: nat, x: nat, y: nat)
    requires w >= 3
    ensures BitAnd(w, x, 8 * y) == 8 * BitAnd(w - 3, x / 8, y)
  {
    AndEven(w, x, 4 * y);
    AndEven(w - 1, x / 2, 2 * y);
    AndEven(w - 2, x / 2 / 2, y);
    assert x / 2 / 2 / 2 == x / 8;
  }

  lemma LowTwo(w: nat, x: nat)
    requires w >= 2 && x < 4
    ensures BitAnd(w, x, 3) == x
  {
    assert Pow2(2) == 4;
    Pow2Increasing(2, w);
    MaskIsResidue(w, x, 2);
  }

  method ComputeIsTail(w: nat, b: byte) returns (tail: bool)
    requires w >= 32
    ensures tail == IsTail(b)
  {
    TopBits(w, b);
    tail := BitAnd(w, b, 0xc0) == 0x80;
  }

  // Shift six more bits in.
  method AccumulateTail(w: nat, s: seq<byte>, k: nat, cp: nat) returns (cp': nat)
    requires w >= 32 && s != [] && 1 <= k < LeadLength(s[0]) <= |s| && cp == Accumulated(s, k)
    ensures cp' == Accumulated(s, k + 1)
  {
    AccumulatedBound(s, k);
    SixMoreBits(w, cp, s[k]);
    cp' := BitOr(w, cp * 64, BitAnd(w, s[k], 0x3f));
  }

  lemma SixMoreBits(w: nat, cp: nat, b: byte)
    requires w >= 32 && cp * 64 < 0x1_0000_0000
    ensures BitOr(w, cp * 64, BitAnd(w, b, 0x3f)) == cp * 64 + Low(b, 64)
  {
    assert Pow2(6) == 64 && Pow2(32) == 0x1_0000_0000 by { SmallPowers(); }
    Pow2Increasing(32, w);
    MaskIsResidue(w, b, 6);
    OrIsSum(w, 6, cp * 64, Low(b, 64));
  }

  const INVALID_CODE_POINT: nat := 0xffff_ffff

  method NextCodePoint(w: nat, s: seq<byte>, maxSize: nat) returns (cp: nat, size: nat)
    requires w >= 32 && 1 <= |s| && maxSize <= |s|
    ensures match Next(s, maxSize)
            case None => cp == INVALID_CODE_POINT && size == 0
            case Some(r) => cp == r.0 < INVALID_CODE_POINT && size == r.1
  {
    cp, size := 0, 0;
    var len := LeadLength(s[0]);
    if maxSize == 0 || len > maxSize {
      return INVALID_CODE_POINT, 0;
    }
    if len == 1 {
      return s[0], 1;
    } else if len == 0 {
      return INVALID_CODE_POINT, 0;
    }
    cp := ComputeLead(w, s, len);
    for k := 1 to len
      invariant cp == Accumulated(s, k)
      invariant forall j :: 1 <= j < k ==> IsTail(s[j])
    {
      var tail := ComputeIsTail(w, s[k]);
      if !tail {
        return INVALID_CODE_POINT, 0;
      }
      cp := AccumulateTail(w, s, k, cp);
    }
    AccumulatedIsPayload(s);
    if IsSurrogate(cp) {
      return INVALID_CODE_POINT, 0;
    }
    size := len;
  }

  // ------------------------------------------------------------------------
  // The decoder on encoded text

  // Decoding undoes encoding, whatever follows.
  lemma NextOfEncoded(cp: int, rest: seq<byte>, maxSize: nat)
    requires IsScalar(cp) && |Encode(cp)| <= maxSize <= |Encode(cp) + rest|
    ensures Next(Encode(cp) + rest, maxSize) == Some((cp as nat, |Encode(cp)|))
  {
    EncodeStartsWellFormed(cp, rest);
  }

  // Reading a string one code point after the other.
  function ReadAll(s: seq<byte>): Option<seq<nat>>
    decreases |s|
  {
    if s == [] then Some([])
    else
      match Next(s, |s|)
      case None => None
      case Some(r) =>
        match ReadAll(s[r.1..])
        case None => None
        case Some(rest) => Some([r.0] + rest)
  }

  // On every string that the validator accepts, reading never fails, consumes
  // all bytes, and encoding what was read gives the string back.
  lemma {:induction false} ReadAllOfEncoded(cps: seq<int>)
    requires AreScalars(cps)
    ensures ReadAll(EncodeAll(cps)) == Some(cps)
  {
    if cps != [] {
      var s := EncodeAll(cps);
      NextOfEncoded(cps[0], EncodeAll(cps[1..]), |s|);
      assert s[|Encode(cps[0])|..] == EncodeAll(cps[1..]);
      ReadAllOfEncoded(cps[1..]);
      assert cps == [cps[0]] + cps[1..];
    }
  }

  lemma ReadAllOfValid(s: seq<byte>)
    requires IsWellFormed(s)
    ensures ReadAll(s).Some? && AreScalars(ReadAll(s).value) && EncodeAll(ReadAll(s).value) == s
  {
    var cps :| AreScalars(cps) && EncodeAll(cps) == s;
    ReadAllOfEncoded(cps);
  }

  // The decoder alone is laxer than the validator: it also reads overlong
  // forms and values above the last code point.
  predicate IsLaxStart(s: seq<byte>) {
    |s| >= 2 && ((s[0] == 0xe0 && s[1] < 0xa0) || (s[0] == 0xf0 && s[1] < 0x90) || (s[0] == 0xf4 && s[1] > 0x8f))
  }

  // What it reads is the encoding of a scalar value exactly when the string
  // does not start in one of these ways.
  lemma DecoderLaxity(s: seq<byte>, maxSize: nat)
    requires 1 <= |s| && maxSize <= |s| && Next(s, maxSize).Some?
    ensures var r := Next(s, maxSize).value;
            (IsScalar(r.0) && Encode(r.0) == s[..r.1]) <==> !IsLaxStart(s)
  {
    var r := Next(s, maxSize).value;
    if IsLaxStart(s) {
      if IsScalar(r.0) && Encode(r.0) == s[..r.1] {
        assert s == Encode(r.0) + s[r.1..];
        EncodeStartsWellFormed(r.0, s[r.1..]);
      }
    } else {
      NotLaxIsStrict(s, maxSize);
      PayloadIsScalar(s);
    }
  }

  lemma NotLaxIsStrict(s: seq<byte>, maxSize: nat)
    requires 1 <= |s| && maxSize <= |s| && Next(s, maxSize).Some? && !IsLaxStart(s)
    ensures StartsWellFormed(s)
  {
    var n := LeadLength(s[0]);
    if n == 3 && s[0] == 0xed && s[1] > 0x9f {
      SurrogatePayload(s[1], s[2]);
    }
  }

  lemma SurrogatePayload(b: byte, c: byte)
    requires 0xa0 <= b <= 0xbf && IsTail(c)
    ensures IsSurrogate(Low(0xed, 16) * 4096 + Low(b, 64) * 64 + Low(c, 64))
  {
  }

  lemma DecoderReadsOverlong()
    ensures Next([0xe0, 0x80, 0x80], 3) == Some((0, 3))
    ensures Next([0xf4, 0x90, 0x80, 0x80], 4) == Some((0x110000, 4))
  {
  }
}
