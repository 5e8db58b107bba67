// Checked integer arithmetic without compiler support: the sign-bit and
// division tests that decide whether the exact sum, difference or product of
// two integers fits the type of the result.
//
// The operands arrive converted to the widest unsigned type, whose width `w`
// is a parameter.  The specification is arithmetic on unbounded integers, as
// section 7.20 of ISO/IEC 9899:2024 (C23) prescribes.
module CheckedArithmetic {
  import opened Words

  datatype CType = CType(signed: bool, width: nat)

  datatype Outcome = Outcome(value: int, overflow: bool)

  predicate IsType(t: CType, w: nat) {
    1 <= t.width <= w
  }

  predicate FitsIn(t: CType, v: int)
    requires t.width > 0
  {
    if t.signed then -Pow2(t.width - 1) <= v < Pow2(t.width - 1)
    else 0 <= v < Pow2(t.width)
  }

  // The conversion `(T) v`, reducing modulo two to the width of the type.
  function Convert(t: CType, v: int): (r: int)
    requires t.width > 0
    ensures FitsIn(t, r)
  {
    var residue := v % Pow2(t.width);
    if t.signed && SignBit(t.width, residue) then residue - Pow2(t.width) else residue
  }

  function WidestUnsigned(w: nat): CType { CType(false, w) }

  // The number that a word of the widest type denotes, read with a sign or
  // without.
  function Denotes(w: nat, signed: bool, x: nat): int
    requires w > 0
  {
    if signed && SignBit(w, x) then x - Pow2(w) else x
  }

  // Operators of the widest unsigned type.
  function WrapAdd(w: nat, x: nat, y: nat): (z: nat) ensures z < Pow2(w) { (x + y) % Pow2(w) }
  function WrapSub(w: nat, x: nat, y: nat): (z: nat) ensures z < Pow2(w) { (x - y) % Pow2(w) }
  function WrapMul(w: nat, x: nat, y: nat): (z: nat) ensures z < Pow2(w) { (x * y) % Pow2(w) }
  function BitXor(w: nat, x: nat, y: nat): nat { Bitwise(w, (a: bool, b: bool) => a != b, x, y) }
  function BitNot(w: nat, x: nat): nat { Bitwise(w, (a: bool, b: bool) => !a, x, x) }

  // Signed division in C truncates toward zero.
  function SignedDivide(a: int, b: int): int
    requires b != 0
  {
    if a >= 0 then a / b else -((-a) / b)
  }

  // ------------------------------------------------------------------------
  // The three operations, one branch for each signedness of result and
  // operands.

  predicate Truncated(w: nat, t: CType, z: nat)
    requires IsType(t, w)
  {
    t.width < w && z != Convert(WidestUnsigned(w), Convert(t, z))
  }

  predicate AddOverflows(w: nat, resultSigned: bool, aSigned: bool, bSigned: bool, x: nat, y: nat)
    requires w > 0
  {
    var z := WrapAdd(w, x, y);
    var sign := Pow2(w - 1);
    match (resultSigned, aSigned, bSigned)
    case (false, false, false) =>
      z < x
    case (false, false, true) =>
      var y' := BitXor(w, y, sign);
      SignBit(w, BitAnd(w, BitXor(w, z, x), BitXor(w, z, y')))
    case (false, true, false) =>
      var x' := BitXor(w, x, sign);
      SignBit(w, BitAnd(w, BitXor(w, z, x'), BitXor(w, z, y)))
    case (false, true, true) =>
      SignBit(w, BitOr(w, BitAnd(w, BitOr(w, z, x), y),
                          BitAnd(w, BitAnd(w, z, x), BitNot(w, y))))
    case (true, false, false) =>
      z < x || SignBit(w, z)
    case (true, false, true) =>
      var y' := BitXor(w, y, sign);
      WrapAdd(w, x, y') < y'
    case (true, true, false) =>
      var x' := BitXor(w, x, sign);
      WrapAdd(w, x', y) < x'
    case (true, true, true) =>
      SignBit(w, BitAnd(w, BitXor(w, z, x), BitXor(w, z, y)))
  }

  function CheckedAdd(w: nat, t: CType, x: nat, y: nat, aSigned: bool, bSigned: bool): Outcome
    requires IsType(t, w)
  {
    var z := WrapAdd(w, x, y);
    Outcome(Convert(t, z), Truncated(w, t, z) || AddOverflows(w, t.signed, aSigned, bSigned, x, y))
  }

  predicate SubOverflows(w: nat, resultSigned: bool, aSigned: bool, bSigned: bool, x: nat, y: nat)
    requires w > 0
  {
    var z := WrapSub(w, x, y);
    var sign := Pow2(w - 1);
    match (resultSigned, aSigned, bSigned)
    case (false, false, false) =>
      x < y
    case (false, false, true) =>
      var y' := BitXor(w, y, sign);
      SignBit(w, BitAnd(w, BitXor(w, x, y'), BitXor(w, z, x)))
    case (false, true, false) =>
      y > x || SignBit(w, x)
    case (false, true, true) =>
      SignBit(w, BitOr(w, BitAnd(w, BitAnd(w, z, x), y),
                          BitAnd(w, BitOr(w, z, x), BitNot(w, y))))
    case (true, false, false) =>
      (x < y) != SignBit(w, z)
    case (true, false, true) =>
      x >= BitXor(w, y, sign)
    case (true, true, false) =>
      BitXor(w, x, sign) < y
    case (true, true, true) =>
      SignBit(w, BitAnd(w, BitXor(w, x, y), BitXor(w, z, x)))
  }

  function CheckedSub(w: nat, t: CType, x: nat, y: nat, aSigned: bool, bSigned: bool): Outcome
    requires IsType(t, w)
  {
    var z := WrapSub(w, x, y);
    Outcome(Convert(t, z), Truncated(w, t, z) || SubOverflows(w, t.signed, aSigned, bSigned, x, y))
  }

  // The stored word and the overflow test of a product.
  datatype Product = Product(word: nat, overflow: bool)

  predicate DivisionDisagrees(z: nat, x: nat, y: nat) {
    x != 0 && z / x != y
  }

  function Negate(w: nat, x: nat): nat { WrapSub(w, 0, x) }

  // The branches for a signed result with exactly one signed operand, `s`.
  function MulMixed(w: nat, u: nat, s: nat): Product
    requires w > 0
  {
    var negated := Negate(w, s);
    var t := if SignBit(w, negated) then s else negated;
    var p := WrapMul(w, t, u);
    var n := SignBit(w, s);
    var z := if n then Negate(w, p) else p;
    Product(z, DivisionDisagrees(p, t, u) || p > Pow2(w - 1) - 1 + (if n then 1 else 0))
  }

  // The branch for a signed result of two signed operands.  The division is
  // guarded: its quotient always fits (SignedQuotientFits).
  function MulSigned(w: nat, x: nat, y: nat): Product
    requires w > 0 && x < Pow2(w) && y < Pow2(w)
  {
    var z := WrapMul(w, x, y);
    Product(z,
            (SignBit(w, y) && x == Pow2(w - 1)) ||
            (y != 0 && SignedDivide(Denotes(w, true, z), Denotes(w, true, y)) != Denotes(w, true, x)))
  }

  function MulWord(w: nat, resultSigned: bool, aSigned: bool, bSigned: bool, x: nat, y: nat): Product
    requires w > 0 && x < Pow2(w) && y < Pow2(w)
  {
    var z := WrapMul(w, x, y);
    match (resultSigned, aSigned, bSigned)
    case (false, false, false) =>
      Product(z, DivisionDisagrees(z, x, y))
    case (false, false, true) =>
      Product(z, DivisionDisagrees(z, x, y) || (SignBit(w, y) && x != 0))
    case (false, true, false) =>
      Product(z, DivisionDisagrees(z, x, y) || (SignBit(w, x) && y != 0))
    case (false, true, true) =>
      if SignBit(w, BitAnd(w, x, y)) then
        var x', y' := Negate(w, x), Negate(w, y);
        var z' := WrapMul(w, x', y');
        Product(z', DivisionDisagrees(z', x', y'))
      else
        var o := SignBit(w, BitXor(w, x, y)) && x != 0 && y != 0;
        Product(z, o || DivisionDisagrees(z, x, y))
    case (true, false, false) =>
      Product(z, DivisionDisagrees(z, x, y) || SignBit(w, z))
    case (true, false, true) =>
      MulMixed(w, x, y)
    case (true, true, false) =>
      MulMixed(w, y, x)
    case (true, true, true) =>
      MulSigned(w, x, y)
  }

  function CheckedMul(w: nat, t: CType, x: nat, y: nat, aSigned: bool, bSigned: bool): Outcome
    requires IsType(t, w) && x < Pow2(w) && y < Pow2(w)
  {
    var p := MulWord(w, t.signed, aSigned, bSigned, x, y);
    Outcome(Convert(t, p.word), p.overflow || Truncated(w, t, p.word))
  }

  // ------------------------------------------------------------------------
  // Conversions

  // Half the modulus is where the sign bit lives.
  lemma Halves(w: nat)
    requires w > 0
    ensures Pow2(w) == 2 * Pow2(w - 1)
  {
  }

  // Residues of numbers less than one modulus away from the range.
  lemma NearResidue(v: int, m: int)
    requires m > 0
    ensures 0 <= v < m ==> v % m == v
    ensures m <= v < 2 * m ==> v % m == v - m
    ensures -m <= v < 0 ==> v % m == v + m
  {
    if 0 <= v < m {
      ResidueUnique(v, m, 0, v);
    } else if m <= v < 2 * m {
      ResidueUnique(v, m, 1, v - m);
    } else if -m <= v < 0 {
      ResidueUnique(v, m, -1, v + m);
    }
  }

  // A conversion keeps every value that fits.
  lemma ConvertFits(t: CType, v: int)
    requires t.width > 0
    ensures FitsIn(t, v) <==> Convert(t, v) == v
  {
    if FitsIn(t, v) {
      NearResidue(v, Pow2(t.width));
    }
  }

  // A conversion yields the only value of the type that is congruent to its
  // argument.
  lemma ConvertCongruent(t: CType, v: int, r: int)
    requires t.width > 0
    ensures (FitsIn(t, r) && r % Pow2(t.width) == v % Pow2(t.width)) <==> r == Convert(t, v)
  {
    var m := Pow2(t.width);
    var residue := v % m;
    NearResidue(residue, m);
    NearResidue(residue - m, m);
    if FitsIn(t, r) {
      NearResidue(r, m);
    }
  }

  // Converting by way of a wider word changes nothing.
  lemma ConvertThroughWord(w: nat, t: CType, v: int)
    requires IsType(t, w)
    ensures Convert(t, v % Pow2(w)) == Convert(t, v)
  {
    ResidueOfResidue(v, t.width, w);
  }

  // An operand converted to the widest unsigned type still denotes its value.
  lemma OperandDenotes(w: nat, t: CType, a: int)
    requires IsType(t, w)
    requires FitsIn(t, a)
    ensures var x := Convert(WidestUnsigned(w), a);
            0 <= x < Pow2(w) && Denotes(w, t.signed, x) == a
  {
    Pow2Increasing(t.width, w);
    Pow2Increasing(t.width - 1, w - 1);
    NearResidue(a, Pow2(w));
  }

  // A result fits a narrow type exactly when it fits the widest type of the
  // same signedness and the word that holds it survives a round trip through
  // the narrow type.
  lemma TruncationExact(w: nat, t: CType, v: int)
    requires IsType(t, w)
    ensures FitsIn(t, v) <==> FitsIn(CType(t.signed, w), v) && !Truncated(w, t, v % Pow2(w))
  {
    ConvertThroughWord(w, t, v);
    var c := Convert(t, v);
    ConvertFits(t, v);
    NarrowFitsWide(w, t, c);
    if Convert(WidestUnsigned(w), c) == v % Pow2(w) && FitsIn(CType(t.signed, w), v) {
      SameWord(w, t.signed, c, v);
    }
  }

  lemma NarrowFitsWide(w: nat, t: CType, v: int)
    requires IsType(t, w)
    requires FitsIn(t, v)
    ensures FitsIn(CType(t.signed, w), v)
  {
    Pow2Increasing(t.width, w);
    Pow2Increasing(t.width - 1, w - 1);
  }

  // Two values of one type that share a word are equal.
  lemma SameWord(w: nat, signed: bool, u: int, v: int)
    requires w > 0
    requires FitsIn(CType(signed, w), u) && FitsIn(CType(signed, w), v)
    requires u % Pow2(w) == v % Pow2(w)
    ensures u == v
  {
    NearResidue(u, Pow2(w));
    NearResidue(v, Pow2(w));
  }

  // ------------------------------------------------------------------------
  // Addition and subtraction

  lemma SignsAnd(w: nat, x: nat, y: nat)
    requires w > 0 && x < Pow2(w) && y < Pow2(w)
    ensures SignBit(w, BitAnd(w, x, y)) == (SignBit(w, x) && SignBit(w, y))
  {
    SignBitOfBitwise(w, (a: bool, b: bool) => a && b, x, y);
  }

  lemma SignsOr(w: nat, x: nat, y: nat)
    requires w > 0 && x < Pow2(w) && y < Pow2(w)
    ensures SignBit(w, BitOr(w, x, y)) == (SignBit(w, x) || SignBit(w, y))
  {
    SignBitOfBitwise(w, (a: bool, b: bool) => a || b, x, y);
  }

  lemma SignsXor(w: nat, x: nat, y: nat)
    requires w > 0 && x < Pow2(w) && y < Pow2(w)
    ensures SignBit(w, BitXor(w, x, y)) == (SignBit(w, x) != SignBit(w, y))
  {
    SignBitOfBitwise(w, (a: bool, b: bool) => a != b, x, y);
  }

  lemma SignsNot(w: nat, x: nat)
    requires w > 0 && x < Pow2(w)
    ensures SignBit(w, BitNot(w, x)) == !SignBit(w, x)
  {
    SignBitOfBitwise(w, (a: bool, b: bool) => !a, x, x);
  }

  // The tests that combine the signs of three words with two exclusive ors.
  lemma SignsXorAnd(w: nat, a: nat, b: nat, c: nat, d: nat)
    requires w > 0 && a < Pow2(w) && b < Pow2(w) && c < Pow2(w) && d < Pow2(w)
    ensures SignBit(w, BitAnd(w, BitXor(w, a, b), BitXor(w, c, d)))
         == (SignBit(w, a) != SignBit(w, b) && SignBit(w, c) != SignBit(w, d))
  {
    SignsXor(w, a, b);
    SignsXor(w, c, d);
    SignsAnd(w, BitXor(w, a, b), BitXor(w, c, d));
  }

  // The tests on an unsigned sum.
  lemma AddUnsignedExact(w: nat, aSigned: bool, bSigned: bool, x: nat, y: nat)
    requires w > 0 && x < Pow2(w) && y < Pow2(w)
    ensures AddOverflows(w, false, aSigned, bSigned, x, y)
        <==> !(0 <= Denotes(w, aSigned, x) + Denotes(w, bSigned, y) < Pow2(w))
  {
    Halves(w);
    NearResidue(x + y, Pow2(w));
    var z, h := WrapAdd(w, x, y), Pow2(w - 1);
    match (aSigned, bSigned)
    case (false, false) =>
    case (false, true) =>
      FlipSignBit(w, y);
      SignsXorAnd(w, z, x, z, BitXor(w, y, h));
    case (true, false) =>
      FlipSignBit(w, x);
      SignsXorAnd(w, z, BitXor(w, x, h), z, y);
    case (true, true) =>
      SignsAddUnsigned(w, x, y, z);
  }

  // The tests on a signed sum.
  lemma AddSignedExact(w: nat, aSigned: bool, bSigned: bool, x: nat, y: nat)
    requires w > 0 && x < Pow2(w) && y < Pow2(w)
    ensures AddOverflows(w, true, aSigned, bSigned, x, y)
        <==> !(-Pow2(w - 1) <= Denotes(w, aSigned, x) + Denotes(w, bSigned, y) < Pow2(w - 1))
  {
    Halves(w);
    NearResidue(x + y, Pow2(w));
    match (aSigned, bSigned)
    case (false, false) =>
    case (false, true) => AddMixedSigned(w, x, y);
    case (true, false) => AddMixedSigned(w, y, x);
    case (true, true) => SignsXorAnd(w, WrapAdd(w, x, y), x, WrapAdd(w, x, y), y);
  }

  // An unsigned and a signed operand, in either order.
  lemma AddMixedSigned(w: nat, x: nat, y: nat)
    requires w > 0 && x < Pow2(w) && y < Pow2(w)
    ensures (WrapAdd(w, x, BitXor(w, y, Pow2(w - 1))) < BitXor(w, y, Pow2(w - 1)))
        <==> !(-Pow2(w - 1) <= x + Denotes(w, true, y) < Pow2(w - 1))
  {
    Halves(w);
    FlipSignBit(w, y);
    NearResidue(x + BitXor(w, y, Pow2(w - 1)), Pow2(w));
  }

  lemma SignsAddUnsigned(w: nat, x: nat, y: nat, z: nat)
    requires w > 0 && x < Pow2(w) && y < Pow2(w) && z < Pow2(w)
    ensures SignBit(w, BitOr(w, BitAnd(w, BitOr(w, z, x), y), BitAnd(w, BitAnd(w, z, x), BitNot(w, y))))
         == (((SignBit(w, z) || SignBit(w, x)) && SignBit(w, y)) ||
             (SignBit(w, z) && SignBit(w, x) && !SignBit(w, y)))
  {
    SignsOr(w, z, x);
    SignsAnd(w, BitOr(w, z, x), y);
    SignsAnd(w, z, x);
    SignsNot(w, y);
    SignsAnd(w, BitAnd(w, z, x), BitNot(w, y));
    SignsOr(w, BitAnd(w, BitOr(w, z, x), y), BitAnd(w, BitAnd(w, z, x), BitNot(w, y)));
  }

  // The tests on an unsigned difference.
  lemma SubUnsignedExact(w: nat, aSigned: bool, bSigned: bool, x: nat, y: nat)
    requires w > 0 && x < Pow2(w) && y < Pow2(w)
    ensures SubOverflows(w, false, aSigned, bSigned, x, y)
        <==> !(0 <= Denotes(w, aSigned, x) - Denotes(w, bSigned, y) < Pow2(w))
  {
    Halves(w);
    match (aSigned, bSigned)
    case (false, false) =>
    case (false, true) => SubMixedUnsigned(w, x, y);
    case (true, false) =>
    case (true, true) => SubSignedUnsigned(w, x, y);
  }

  lemma SubMixedUnsigned(w: nat, x: nat, y: nat)
    requires w > 0 && x < Pow2(w) && y < Pow2(w)
    ensures SubOverflows(w, false, false, true, x, y) <==> !(0 <= x - Denotes(w, true, y) < Pow2(w))
  {
    Halves(w);
    NearResidue(x - y, Pow2(w));
    FlipSignBit(w, y);
    SignsXorAnd(w, x, BitXor(w, y, Pow2(w - 1)), WrapSub(w, x, y), x);
  }

  lemma SubSignedUnsigned(w: nat, x: nat, y: nat)
    requires w > 0 && x < Pow2(w) && y < Pow2(w)
    ensures SubOverflows(w, false, true, true, x, y) <==> !(0 <= Denotes(w, true, x) - Denotes(w, true, y) < Pow2(w))
  {
    Halves(w);
    NearResidue(x - y, Pow2(w));
    SignsSubUnsigned(w, x, y, WrapSub(w, x, y));
  }

  // The tests on a signed difference.
  lemma SubSignedExact(w: nat, aSigned: bool, bSigned: bool, x: nat, y: nat)
    requires w > 0 && x < Pow2(w) && y < Pow2(w)
    ensures SubOverflows(w, true, aSigned, bSigned, x, y)
        <==> !(-Pow2(w - 1) <= Denotes(w, aSigned, x) - Denotes(w, bSigned, y) < Pow2(w - 1))
  {
    Halves(w);
    NearResidue(x - y, Pow2(w));
    var z := WrapSub(w, x, y);
    match (aSigned, bSigned)
    case (false, false) =>
    case (false, true) =>
      FlipSignBit(w, y);
    case (true, false) =>
      FlipSignBit(w, x);
    case (true, true) =>
      SignsXorAnd(w, x, y, z, x);
  }

  lemma SignsSubUnsigned(w: nat, x: nat, y: nat, z: nat)
    requires w > 0 && x < Pow2(w) && y < Pow2(w) && z < Pow2(w)
    ensures SignBit(w, BitOr(w, BitAnd(w, BitAnd(w, z, x), y), BitAnd(w, BitOr(w, z, x), BitNot(w, y))))
         == ((SignBit(w, z) && SignBit(w, x) && SignBit(w, y)) ||
             ((SignBit(w, z) || SignBit(w, x)) && !SignBit(w, y)))
  {
    SignsAnd(w, z, x);
    SignsAnd(w, BitAnd(w, z, x), y);
    SignsOr(w, z, x);
    SignsNot(w, y);
    SignsAnd(w, BitOr(w, z, x), BitNot(w, y));
    SignsOr(w, BitAnd(w, BitAnd(w, z, x), y), BitAnd(w, BitOr(w, z, x), BitNot(w, y)));
  }

  // ------------------------------------------------------------------------
  // Multiplication

  // Moving both factors by multiples of the modulus keeps the residue.
  lemma ResidueOfProduct(a: int, b: int, i: int, j: int, m: int)
    requires m > 0
    ensures ((a - i * m) * (b - j * m)) % m == (a * b) % m
  {
    var k := i * b + j * a - i * j * m;
    assert (a - i * m) * (b - j * m) == a * b - k * m;
    var q, r := (a * b) / m, (a * b) % m;
    assert a * b - k * m == (q - k) * m + r;
    ResidueUnique(a * b - k * m, m, q - k, r);
  }

  // The word of the exact product is the product of the words.
  lemma ProductWord(w: nat, aSigned: bool, bSigned: bool, x: nat, y: nat)
    requires w > 0
    ensures (Denotes(w, aSigned, x) * Denotes(w, bSigned, y)) % Pow2(w) == WrapMul(w, x, y)
  {
    var i := if aSigned && SignBit(w, x) then 1 else 0;
    var j := if bSigned && SignBit(w, y) then 1 else 0;
    assert Denotes(w, aSigned, x) == x - i * Pow2(w);
    assert Denotes(w, bSigned, y) == y - j * Pow2(w);
    ResidueOfProduct(x, y, i, j, Pow2(w));
  }

  // Dividing the wrapped product by one factor recovers the other exactly
  // when nothing wrapped.
  lemma DivisionTest(x: nat, y: nat, m: int)
    requires x < m && y < m
    ensures DivisionDisagrees((x * y) % m, x, y) <==> x * y >= m
  {
    var z := (x * y) % m;
    if x * y < m {
      assert 0 <= x * y;
      NearResidue(x * y, m);
      if x != 0 {
        ResidueUnique(x * y, x, y, 0);
      }
    } else {
      assert x != 0;
      assert z == x * (z / x) + z % x;
    }
  }

  lemma NegateWord(w: nat, x: nat)
    requires w > 0 && x < Pow2(w)
    ensures Negate(w, x) == if x == 0 then 0 else Pow2(w) - x
  {
    NearResidue(0 - x, Pow2(w));
  }

  // What each branch of the multiplication has to establish.
  ghost predicate MulCorrect(w: nat, resultSigned: bool, a: int, b: int, p: Product)
    requires w > 0
  {
    && p.word == (a * b) % Pow2(w)
    && (p.overflow <==> !FitsIn(CType(resultSigned, w), a * b))
  }

  lemma MulUnsignedOperands(w: nat, resultSigned: bool, x: nat, y: nat)
    requires w > 0 && x < Pow2(w) && y < Pow2(w)
    ensures MulCorrect(w, resultSigned, x, y, MulWord(w, resultSigned, false, false, x, y))
  {
    DivisionTest(x, y, Pow2(w));
    Halves(w);
    assert x * y >= 0;
    NearResidue(x * y, Pow2(w));
  }

  // The sign of a product.
  lemma SignOfProduct(a: int, b: int)
    ensures a == 0 || b == 0 ==> a * b == 0
    ensures (a > 0 && b > 0) || (a < 0 && b < 0) ==> a * b > 0
    ensures (a > 0 && b < 0) || (a < 0 && b > 0) ==> a * b < 0
  {
  }

  // An unsigned result of an unsigned and a signed operand: the flag, from
  // the product of the words and the exact product.
  lemma MixedFlag(w: nat, u: nat, s: nat)
    requires w > 0 && u < Pow2(w) && s < Pow2(w)
    ensures (u * s >= Pow2(w) || (SignBit(w, s) && u != 0)) <==> !(0 <= u * Denotes(w, true, s) < Pow2(w))
  {
    SignOfProduct(u, Denotes(w, true, s));
    SignOfProduct(u, s);
  }

  lemma MulUnsignedMixedLeft(w: nat, u: nat, s: nat)
    requires w > 0 && u < Pow2(w) && s < Pow2(w)
    ensures MulCorrect(w, false, u, Denotes(w, true, s), MulWord(w, false, false, true, u, s))
  {
    ProductWord(w, false, true, u, s);
    DivisionTest(u, s, Pow2(w));
    MixedFlag(w, u, s);
  }

  lemma MulUnsignedMixedRight(w: nat, u: nat, s: nat)
    requires w > 0 && u < Pow2(w) && s < Pow2(w)
    ensures MulCorrect(w, false, Denotes(w, true, s), u, MulWord(w, false, true, false, s, u))
  {
    ProductWord(w, true, false, s, u);
    DivisionTest(s, u, Pow2(w));
    MixedFlag(w, u, s);
    Commute(u, s);
    Commute(u, Denotes(w, true, s));
  }

  lemma Commute(a: int, b: int)
    ensures a * b == b * a
  {
  }

  // An unsigned result of two signed operands.
  lemma MulUnsignedSigned(w: nat, x: nat, y: nat)
    requires w > 0 && x < Pow2(w) && y < Pow2(w)
    ensures MulCorrect(w, false, Denotes(w, true, x), Denotes(w, true, y), MulWord(w, false, true, true, x, y))
  {
    SignsAnd(w, x, y);
    SignsXor(w, x, y);
    if SignBit(w, x) && SignBit(w, y) {
      MulBothNegative(w, x, y);
    } else {
      ProductWord(w, true, true, x, y);
      DivisionTest(x, y, Pow2(w));
      NotBothNegativeFlag(w, x, y);
    }
  }

  lemma MulBothNegative(w: nat, x: nat, y: nat)
    requires w > 0 && x < Pow2(w) && y < Pow2(w)
    requires SignBit(w, x) && SignBit(w, y)
    ensures var x', y' := Negate(w, x), Negate(w, y);
            var z' := WrapMul(w, x', y');
            MulCorrect(w, false, Denotes(w, true, x), Denotes(w, true, y), Product(z', DivisionDisagrees(z', x', y')))
  {
    var a, b := Pow2(w) - x, Pow2(w) - y;
    NegateWord(w, x);
    NegateWord(w, y);
    DivisionTest(a, b, Pow2(w));
    NegatedFactors(a, b);
    SignOfProduct(a, b);
  }

  lemma NegatedFactors(a: int, b: int)
    ensures a * b == (-a) * (-b)
  {
  }

  lemma NotBothNegativeFlag(w: nat, x: nat, y: nat)
    requires w > 0 && x < Pow2(w) && y < Pow2(w)
    requires !(SignBit(w, x) && SignBit(w, y))
    ensures (((SignBit(w, x) != SignBit(w, y)) && x != 0 && y != 0) || x * y >= Pow2(w))
        <==> !(0 <= Denotes(w, true, x) * Denotes(w, true, y) < Pow2(w))
  {
    SignOfProduct(Denotes(w, true, x), Denotes(w, true, y));
    SignOfProduct(x, y);
  }

  // The absolute value of a signed operand, as the mixed branches take it.
  lemma AbsoluteWord(w: nat, s: nat)
    requires w > 0 && s < Pow2(w)
    ensures var negated := Negate(w, s);
            var t := if SignBit(w, negated) then s else negated;
            var v := Denotes(w, true, s);
            t == (if v < 0 then -v else v) && t <= Pow2(w - 1)
  {
    Halves(w);
    NegateWord(w, s);
  }

  // A signed result of an unsigned and a signed operand.
  lemma MulSignedMixed(w: nat, u: nat, s: nat)
    requires w > 0 && u < Pow2(w) && s < Pow2(w)
    ensures MulCorrect(w, true, u, Denotes(w, true, s), MulMixed(w, u, s))
  {
    AbsoluteWord(w, s);
    if SignBit(w, s) {
      Halves(w);
      var t := Pow2(w) - s;
      AbsoluteProduct(w, t, u);
      NegatedProductWord(w, t, u);
    } else {
      AbsoluteProduct(w, s, u);
      Commute(u, s);
    }
  }

  lemma NegatedProductWord(w: nat, t: nat, u: nat)
    requires w > 0
    ensures Negate(w, WrapMul(w, t, u)) == (u * (0 - t)) % Pow2(w)
    ensures u * (0 - t) == -(t * u)
  {
    NegateWord(w, WrapMul(w, t, u));
    NegateResidue(t * u, Pow2(w));
  }

  // The tests of the mixed branches on the product of an absolute value and
  // an unsigned number.
  lemma AbsoluteProduct(w: nat, t: nat, u: nat)
    requires w > 0 && t <= Pow2(w - 1) && u < Pow2(w)
    ensures var p := WrapMul(w, t, u);
            && ((DivisionDisagrees(p, t, u) || p > Pow2(w - 1) - 1) <==> t * u >= Pow2(w - 1))
            && ((DivisionDisagrees(p, t, u) || p > Pow2(w - 1)) <==> t * u > Pow2(w - 1))
            && t * u >= 0
  {
    Halves(w);
    DivisionTest(t, u, Pow2(w));
    SignOfProduct(t, u);
    NearResidue(t * u, Pow2(w));
  }

  lemma NegateResidue(a: int, m: int)
    requires m > 0
    ensures (-a) % m == if a % m == 0 then 0 else m - a % m
  {
    var q, r := a / m, a % m;
    if r == 0 {
      assert -a == (-q) * m;
      ResidueUnique(-a, m, -q, 0);
    } else {
      assert -a == (-q - 1) * m + (m - r);
      ResidueUnique(-a, m, -q - 1, m - r);
    }
  }

  lemma SignedDivideExact(a: int, b: int)
    requires b != 0
    ensures SignedDivide(a * b, b) == a
  {
    if a * b >= 0 {
      DivideProduct(a, b);
    } else {
      assert -(a * b) == (-a) * b;
      DivideProduct(-a, b);
    }
  }

  lemma DivideProduct(a: int, b: int)
    requires b != 0
    ensures (a * b) / b == a
  {
    if b > 0 {
      ResidueUnique(a * b, b, a, 0);
    } else {
      assert a * b == (-a) * (-b);
      ResidueUnique(a * b, -b, -a, 0);
      assert (a * b) / b == -((a * b) / (-b));
    }
  }

  // Truncated division leaves a remainder smaller than the divisor.
  lemma SignedDivideRemainder(a: int, b: int)
    requires b != 0
    ensures var r := a - SignedDivide(a, b) * b;
            -(if b < 0 then -b else b) < r < (if b < 0 then -b else b)
  {
    var n := if a >= 0 then a else -a;
    assert n == b * (n / b) + n % b;
  }

  // The product and the signed reading of its word differ by a multiple of
  // the modulus.
  lemma SignedWordOfProduct(w: nat, p: int) returns (k: int)
    requires w > 0
    ensures Denotes(w, true, p % Pow2(w)) == p - k * Pow2(w)
    ensures k == 0 <==> FitsIn(CType(true, w), p)
  {
    Halves(w);
    var m := Pow2(w);
    var q := p / m;
    k := q + (if SignBit(w, p % m) then 1 else 0);
    BalancedResidue(p, q, p % m, k, Pow2(w - 1));
  }

  lemma BalancedResidue(p: int, q: int, r: int, k: int, h: int)
    requires h >= 1 && 0 <= r < 2 * h && p == q * (2 * h) + r && k == (if r >= h then q + 1 else q)
    ensures p - k * (2 * h) == if r >= h then r - 2 * h else r
    ensures k == 0 <==> -h <= p < h
  {
    var m := 2 * h;
    Distributed(q, 1, m);
    if k >= 1 {
      MulAtLeast(k, m);
    } else if k <= -1 {
      MulAtLeast(-k, m);
    }
  }

  // A truncated quotient of a product that is off by a multiple of the
  // modulus is not the other factor.
  lemma WrongQuotient(a: int, b: int, k: int, m: int)
    requires b != 0 && k != 0
    requires -m < b < m
    ensures SignedDivide(a * b - k * m, b) != a
  {
    SignedDivideRemainder(a * b - k * m, b);
    MulAtLeast(if k < 0 then -k else k, m);
  }

  lemma MinimumTimesNegative(h: int, b: int)
    requires h >= 1 && b < 0
    ensures (-h) * b >= h
  {
    MulAtLeast(-b, h);
  }

  // A signed result of two signed operands.
  lemma MulSignedSigned(w: nat, x: nat, y: nat)
    requires w > 0 && x < Pow2(w) && y < Pow2(w)
    ensures MulCorrect(w, true, Denotes(w, true, x), Denotes(w, true, y), MulSigned(w, x, y))
  {
    ProductWord(w, true, true, x, y);
    var k := SignedWordOfProduct(w, Denotes(w, true, x) * Denotes(w, true, y));
    SignedFlag(w, x, y, Denotes(w, true, WrapMul(w, x, y)), k);
  }

  lemma SignedFlag(w: nat, x: nat, y: nat, c: int, k: int)
    requires w > 0 && x < Pow2(w) && y < Pow2(w)
    requires var p := Denotes(w, true, x) * Denotes(w, true, y);
             c == p - k * Pow2(w) && (k == 0 <==> FitsIn(CType(true, w), p))
    ensures ((SignBit(w, y) && x == Pow2(w - 1)) ||
             (y != 0 && SignedDivide(c, Denotes(w, true, y)) != Denotes(w, true, x)))
        <==> k != 0
  {
    Halves(w);
    var a, b := Denotes(w, true, x), Denotes(w, true, y);
    if b == 0 {
      SignOfProduct(a, b);
    } else if SignBit(w, y) && x == Pow2(w - 1) {
      MinimumTimesNegative(Pow2(w - 1), b);
    } else if k == 0 {
      SignedDivideExact(a, b);
    } else {
      WrongQuotient(a, b, k, Pow2(w));
    }
  }

  // The division in the signed branch is only reached when its quotient is a
  // value of the signed type.
  lemma SignedQuotientFits(w: nat, x: nat, y: nat)
    requires w > 0 && x < Pow2(w) && y < Pow2(w)
    requires y != 0 && !(SignBit(w, y) && x == Pow2(w - 1))
    ensures FitsIn(CType(true, w),
                   SignedDivide(Denotes(w, true, WrapMul(w, x, y)), Denotes(w, true, y)))
  {
    Halves(w);
    var b, c := Denotes(w, true, y), Denotes(w, true, WrapMul(w, x, y));
    SignedDivideSmaller(c, b);
    if b == -1 {
      MulByMinusOne(w, x, y);
    }
  }

  lemma MulByMinusOne(w: nat, x: nat, y: nat)
    requires w > 0 && x < Pow2(w)
    requires y == Pow2(w) - 1 && x != Pow2(w - 1)
    ensures WrapMul(w, x, y) != Pow2(w - 1)
  {
    Halves(w);
    ResidueOfProduct(x, y, 0, 1, Pow2(w));
    assert (x - 0 * Pow2(w)) * (y - 1 * Pow2(w)) == 0 - x;
    NearResidue(0 - x, Pow2(w));
  }

  lemma DivideBounds(n: int, b: int)
    requires n >= 0 && b != 0
    ensures b > 0 ==> 0 <= n / b <= n
    ensures b < 0 ==> -n <= n / b <= 0
    ensures b < -1 && n > 0 ==> -n < n / b
  {
    if b > 0 {
      PositiveDivideBounds(n, b);
    } else {
      PositiveDivideBounds(n, -b);
      assert n / b == -(n / (-b));
    }
  }

  lemma PositiveDivideBounds(n: int, b: int)
    requires n >= 0 && b > 0
    ensures 0 <= n / b <= n
    ensures b > 1 && n > 0 ==> n / b < n
  {
    var q := n / b;
    SignOfProduct(q, b);
    if q > 0 {
      MulAtLeast(b, q);
    }
    if b > 1 && q > 0 {
      MulAtLeast(b - 1, q);
    }
  }

  lemma SignedDivideSmaller(c: int, b: int)
    requires b != 0
    ensures var q := SignedDivide(c, b);
            var n := if c < 0 then -c else c;
            -n <= q <= n && (b != -1 && c < 0 ==> q < n)
  {
    DivideBounds(if c < 0 then -c else c, b);
  }

  // ------------------------------------------------------------------------
  // The contract of the three functions

  // The operands as the caller sees them: each a value of its own type.
  predicate Operands(w: nat, t: CType, ta: CType, a: int, tb: CType, b: int) {
    IsType(t, w) && IsType(ta, w) && IsType(tb, w) && FitsIn(ta, a) && FitsIn(tb, b)
  }

  function Word(w: nat, a: int): (x: nat)
    requires w > 0
    ensures x < Pow2(w)
  {
    Convert(WidestUnsigned(w), a)
  }

  // Sums and differences of words are the words of sums and differences.
  lemma WordSum(w: nat, a: int, b: int)
    requires w > 0
    ensures WrapAdd(w, Word(w, a), Word(w, b)) == (a + b) % Pow2(w)
    ensures WrapSub(w, Word(w, a), Word(w, b)) == (a - b) % Pow2(w)
  {
    var m := Pow2(w);
    NearResidue(a % m, m);
    NearResidue(b % m, m);
    SameResidues(a, a % m, b, b % m, m);
  }

  lemma SameResidues(a: int, x: int, b: int, y: int, m: int)
    requires m > 0 && a % m == x % m && b % m == y % m
    ensures (a + b) % m == (x + y) % m && (a - b) % m == (x - y) % m
  {
    var k := ResidueDistance(a, x, m);
    var l := ResidueDistance(b, y, m);
    ShiftedPair(a, x, b, y, k, l, m);
  }

  lemma ShiftedPair(a: int, x: int, b: int, y: int, k: int, l: int, m: int)
    requires m > 0 && a == x - k * m && b == y - l * m
    ensures (a + b) % m == (x + y) % m && (a - b) % m == (x - y) % m
  {
    ResidueShift(x + b, k, m);
    ResidueShift(x + y, l, m);
    ResidueShift(x - b, k, m);
    ResidueShift(x - b, l, m);
  }

  // Numbers with one residue differ by a multiple of the modulus.
  lemma ResidueDistance(a: int, x: int, m: int) returns (k: int)
    requires m > 0 && a % m == x % m
    ensures a == x - k * m
  {
    k := x / m - a / m;
    Distributed(x / m, a / m, m);
    assert a == (a / m) * m + a % m && x == (x / m) * m + x % m;
  }

  lemma Distributed(k: int, l: int, m: int)
    ensures (k + l) * m == k * m + l * m && (k - l) * m == k * m - l * m
  {
  }

  lemma ResidueShift(a: int, k: int, m: int)
    requires m > 0
    ensures (a - k * m) % m == a % m
  {
    assert a - k * m == (a / m - k) * m + a % m;
    ResidueUnique(a - k * m, m, a / m - k, a % m);
  }

  lemma AddExact(w: nat, t: CType, ta: CType, a: int, tb: CType, b: int)
    requires Operands(w, t, ta, a, tb, b)
    ensures CheckedAdd(w, t, Word(w, a), Word(w, b), ta.signed, tb.signed)
         == Outcome(Convert(t, a + b), !FitsIn(t, a + b))
  {
    var x, y := Word(w, a), Word(w, b);
    OperandDenotes(w, ta, a);
    OperandDenotes(w, tb, b);
    WordSum(w, a, b);
    ConvertThroughWord(w, t, a + b);
    TruncationExact(w, t, a + b);
    if t.signed {
      AddSignedExact(w, ta.signed, tb.signed, x, y);
    } else {
      AddUnsignedExact(w, ta.signed, tb.signed, x, y);
    }
  }

  lemma SubExact(w: nat, t: CType, ta: CType, a: int, tb: CType, b: int)
    requires Operands(w, t, ta, a, tb, b)
    ensures CheckedSub(w, t, Word(w, a), Word(w, b), ta.signed, tb.signed)
         == Outcome(Convert(t, a - b), !FitsIn(t, a - b))
  {
    var x, y := Word(w, a), Word(w, b);
    OperandDenotes(w, ta, a);
    OperandDenotes(w, tb, b);
    WordSum(w, a, b);
    ConvertThroughWord(w, t, a - b);
    TruncationExact(w, t, a - b);
    if t.signed {
      SubSignedExact(w, ta.signed, tb.signed, x, y);
    } else {
      SubUnsignedExact(w, ta.signed, tb.signed, x, y);
    }
  }

  lemma MulExact(w: nat, t: CType, ta: CType, a: int, tb: CType, b: int)
    requires Operands(w, t, ta, a, tb, b)
    ensures CheckedMul(w, t, Word(w, a), Word(w, b), ta.signed, tb.signed)
         == Outcome(Convert(t, a * b), !FitsIn(t, a * b))
  {
    var x, y := Word(w, a), Word(w, b);
    OperandDenotes(w, ta, a);
    OperandDenotes(w, tb, b);
    MulWordCorrect(w, t.signed, ta.signed, tb.signed, x, y);
    ConvertThroughWord(w, t, a * b);
    TruncationExact(w, t, a * b);
  }

  lemma MulWordCorrect(w: nat, resultSigned: bool, aSigned: bool, bSigned: bool, x: nat, y: nat)
    requires w > 0 && x < Pow2(w) && y < Pow2(w)
    ensures MulCorrect(w, resultSigned, Denotes(w, aSigned, x), Denotes(w, bSigned, y),
                       MulWord(w, resultSigned, aSigned, bSigned, x, y))
  {
    match (resultSigned, aSigned, bSigned)
    case (false, false, false) => MulUnsignedOperands(w, false, x, y);
    case (true, false, false) => MulUnsignedOperands(w, true, x, y);
    case (false, false, true) => MulUnsignedMixedLeft(w, x, y);
    case (false, true, false) => MulUnsignedMixedRight(w, y, x);
    case (false, true, true) => MulUnsignedSigned(w, x, y);
    case (true, false, true) => MulSignedMixed(w, x, y);
    case (true, true, false) =>
      MulSignedMixed(w, y, x);
      Commute(Denotes(w, true, x), y);
    case (true, true, true) => MulSignedSigned(w, x, y);
  }
}
