// Machine words of an arbitrary width: powers of two, residues and bitwise
// operators, over unbounded integers.
module Words {

  function Pow2(n: nat): (r: int)
    ensures r >= 1
  {
    if n == 0 then 1 else 2 * Pow2(n - 1)
  }

  lemma MulAtLeast(d: int, m: int)
    requires d >= 1 && m >= 0
    ensures d * m >= m
  {
    assert (d - 1) * m >= 0;
  }

  // The residue of a number modulo `m` is the only remainder that a quotient
  // can leave.
  lemma ResidueUnique(a: int, m: int, q: int, r: int)
    requires 0 <= r < m
    requires a == q * m + r
    ensures a % m == r
    ensures a / m == q
  {
    var d := q - a / m;
    assert d * m == a % m - r by {
      assert a == m * (a / m) + a % m;
    }
    if d >= 1 {
      MulAtLeast(d, m);
    } else if d <= -1 {
      MulAtLeast(-d, m);
    }
  }

  lemma Pow2Split(m: nat, n: nat)
    requires m <= n
    ensures Pow2(n) == Pow2(m) * Pow2(n - m)
    decreases n - m
  {
    if m < n {
      Pow2Split(m, n - 1);
      DoubleFactor(Pow2(m), Pow2(n - 1 - m));
    }
  }

  lemma DoubleFactor(a: int, b: int)
    ensures a * (2 * b) == 2 * (a * b)
  {
  }

  lemma Pow2Increasing(m: nat, n: nat)
    requires m <= n
    ensures Pow2(m) <= Pow2(n)
    ensures m < n ==> 2 * Pow2(m) <= Pow2(n)
    decreases n - m
  {
    if m < n {
      Pow2Increasing(m, n - 1);
    }
  }

  lemma ResidueOfMultiple(a: int, small: int, k: int)
    requires small > 0 && k > 0 && small * k > 0
    ensures (a % (small * k)) % small == a % small
  {
    var q, r := a / (small * k), a % (small * k);
    calc {
      a;
      (small * k) * q + r;
      (small * k) * q + (small * (r / small) + r % small);
      (k * q + r / small) * small + r % small;
    }
    ResidueUnique(a, small, k * q + r / small, r % small);
  }

  // Reducing modulo a larger power of two first changes nothing.
  lemma ResidueOfResidue(a: int, m: nat, n: nat)
    requires m <= n
    ensures (a % Pow2(n)) % Pow2(m) == a % Pow2(m)
  {
    Pow2Split(m, n);
    ResidueOfMultiple(a, Pow2(m), Pow2(n - m));
  }

  // A boolean operator applied to each of the low `w` bits of two words.
  function Bitwise(w: nat, op: (bool, bool) -> bool, x: nat, y: nat): (r: nat)
    ensures r < Pow2(w)
  {
    if w == 0 then 0
    else 2 * Bitwise(w - 1, op, x / 2, y / 2) + (if op(x % 2 == 1, y % 2 == 1) then 1 else 0)
  }

  // The most significant bit of a `w`-bit word: its sign when read as a
  // two's-complement number.
  predicate SignBit(w: nat, x: nat)
    requires w > 0
  {
    x >= Pow2(w - 1)
  }

  lemma {:induction false} SignBitOfBitwise(w: nat, op: (bool, bool) -> bool, x: nat, y: nat)
    requires w > 0
    requires x < Pow2(w) && y < Pow2(w)
    ensures SignBit(w, Bitwise(w, op, x, y)) == op(SignBit(w, x), SignBit(w, y))
  {
    if w == 1 {
      assert Pow2(1) == 2 && Pow2(0) == 1;
      assert Bitwise(0, op, x / 2, y / 2) == 0;
    } else {
      SignBitOfBitwise(w - 1, op, x / 2, y / 2);
    }
  }

  // Flipping the sign bit adds half the modulus, modulo the modulus.
  lemma {:induction false} FlipSignBit(w: nat, x: nat)
    requires w > 0
    requires x < Pow2(w)
    ensures Bitwise(w, (a: bool, b: bool) => a != b, x, Pow2(w - 1))
         == if SignBit(w, x) then x - Pow2(w - 1) else x + Pow2(w - 1)
  {
    var xor := (a: bool, b: bool) => a != b;
    if w == 1 {
      assert Bitwise(0, xor, x / 2, Pow2(0) / 2) == 0;
    } else {
      FlipSignBit(w - 1, x / 2);
      assert Pow2(w - 1) / 2 == Pow2(w - 2);
      assert Pow2(w - 1) % 2 == 0;
    }
  }

  function BitAnd(w: nat, x: nat, y: nat): nat { Bitwise(w, (a: bool, b: bool) => a && b, x, y) }

  lemma BitAndStep(w: nat, x: nat, y: nat)
    requires w > 0
    ensures BitAnd(w, x, y) == 2 * BitAnd(w - 1, x / 2, y / 2) + (if x % 2 == 1 && y % 2 == 1 then 1 else 0)
  {
  }

  // Masking with a block size less one is the residue modulo the block size.
  lemma {:induction false} MaskIsResidue(w: nat, x: nat, k: nat)
    requires x < Pow2(w) && k <= w
    ensures BitAnd(w, x, Pow2(k) - 1) == x % Pow2(k)
  {
    if k == 0 {
      MaskWithZero(w, x);
    } else {
      MaskIsResidue(w - 1, x / 2, k - 1);
      MaskStep(w, x, Pow2(k - 1));
    }
  }

  lemma MaskStep(w: nat, x: nat, p: int)
    requires w > 0 && p >= 1 && BitAnd(w - 1, x / 2, p - 1) == (x / 2) % p
    ensures BitAnd(w, x, 2 * p - 1) == x % (2 * p)
  {
    BitAndStep(w, x, 2 * p - 1);
    HalfMask(p);
    HalfResidue(x, p);
  }

  lemma HalfMask(p: int)
    requires p >= 1
    ensures (2 * p - 1) / 2 == p - 1 && (2 * p - 1) % 2 == 1
  {
  }

  lemma HalfResidue(x: nat, p: int)
    requires p > 0
    ensures x % (2 * p) == 2 * ((x / 2) % p) + x % 2
  {
    var q, r := (x / 2) / p, (x / 2) % p;
    assert x / 2 == q * p + r;
    assert q * (2 * p) == 2 * (q * p);
    ResidueUnique(x, 2 * p, q, 2 * r + x % 2);
  }

  lemma {:induction false} MaskWithZero(w: nat, x: nat)
    ensures BitAnd(w, x, 0) == 0
  {
    if w > 0 {
      MaskWithZero(w - 1, x / 2);
    }
  }

  function BitOr(w: nat, x: nat, y: nat): (r: nat)
    ensures r < Pow2(w)
  {
    Bitwise(w, (a: bool, b: bool) => a || b, x, y)
  }

  lemma BitOrStep(w: nat, x: nat, y: nat)
    requires w > 0
    ensures BitOr(w, x, y) == 2 * BitOr(w - 1, x / 2, y / 2) + (if x % 2 == 1 || y % 2 == 1 then 1 else 0)
  {
  }

  // Combining a number with a smaller one that only has bits below the low
  // bits of the first adds them.
  lemma {:induction false} OrIsSum(w: nat, k: nat, x: nat, y: nat)
    requires k <= w && x < Pow2(w) && y < Pow2(k) && x % Pow2(k) == 0
    ensures BitOr(w, x, y) == x + y
  {
    if w > 0 {
      BitOrStep(w, x, y);
      if k == 0 {
        OrIsSum(w - 1, 0, x / 2, 0);
      } else {
        HalfResidue(x, Pow2(k - 1));
        OrIsSum(w - 1, k - 1, x / 2, y / 2);
      }
    }
  }

  // Bit number i of a word.
  predicate Bit(x: nat, i: nat) {
    if i == 0 then x % 2 == 1 else Bit(x / 2, i - 1)
  }

  lemma {:induction false} BitOfOr(w: nat, x: nat, y: nat, i: nat)
    requires i < w
    ensures Bit(BitOr(w, x, y), i) <==> Bit(x, i) || Bit(y, i)
  {
    BitOrStep(w, x, y);
    if i > 0 {
      BitOfOr(w - 1, x / 2, y / 2, i - 1);
    }
  }

  lemma {:induction false} BitOfZero(i: nat)
    ensures !Bit(0, i)
  {
    if i > 0 {
      BitOfZero(i - 1);
    }
  }

  lemma {:induction false} BitOfPower(k: nat, i: nat)
    ensures Bit(Pow2(k), i) <==> i == k
  {
    if k == 0 && i > 0 {
      BitOfZero(i - 1);
    } else if k > 0 && i > 0 {
      BitOfPower(k - 1, i - 1);
    }
  }

  // A word with a bit in it is not zero, whatever else is.
  lemma {:induction false} OrPositive(w: nat, x: nat, y: nat)
    requires 0 < x < Pow2(w)
    ensures BitOr(w, x, y) > 0
  {
    BitOrStep(w, x, y);
    if x % 2 == 0 {
      OrPositive(w - 1, x / 2, y / 2);
    }
  }

  lemma DivideBelow(x: nat, d: int)
    requires d >= 1
    ensures 0 <= x / d <= x
  {
  }

  // `x >> k`
  function ShiftRight(x: nat, k: nat): (r: nat)
    ensures r <= x
  {
    DivideBelow(x, Pow2(k));
    x / Pow2(k)
  }

  lemma SmallPowers()
    ensures Pow2(0) == 1 && Pow2(3) == 8 && Pow2(4) == 16 && Pow2(5) == 32 && Pow2(6) == 64
    ensures Pow2(12) == 4096 && Pow2(18) == 262144 && Pow2(32) == 0x1_0000_0000
  {
    assert Pow2(6) == 64;
    Pow2Split(6, 12);
    Pow2Split(6, 18);
    assert Pow2(8) == 256;
    Pow2Split(8, 16);
    Pow2Split(16, 32);
  }
}
