/**
The compact encoding of a 256-bit target: a byte count above a 23-bit mantissa
and a sign bit, standing for mantissa * 256^(count - 3).
*/
module Compact {
  import opened Powers
  import opened Limbs
  import opened LimbLoops
  import opened LimbShifts
  import opened LimbBits
  import opened ArithUint

  const SIGN: nat := 0x80_0000
  const EXPONENT: nat := 0x100_0000

  // ----- the number a code stands for -----

  /** mantissa * 256^(size - 3), rounded down, with no limit on its width. */
  function Magnitude(size: nat, mantissa: nat): nat {
    if size <= 3 then Over(mantissa, Pow2(8 * (3 - size))) else mantissa * Pow2(8 * (size - 3))
  }

  function Decoded(code: nat): nat {
    Magnitude(code / EXPONENT, code % SIGN)
  }

  // ----- the code of a number -----

  function BitLength(x: nat): nat {
    if x == 0 then 0 else 1 + BitLength(x / 2)
  }

  lemma {:induction false} BitLengthBounds(x: nat)
    requires x > 0
    ensures BitLength(x) > 0 && Pow2(BitLength(x) - 1) <= x < Pow2(BitLength(x))
  {
    if x > 1 {
      BitLengthBounds(x / 2);
    } else {
      assert BitLength(1) == 1 + BitLength(0);
    }
  }

  lemma BitLengthIs(x: nat, n: nat)
    requires n > 0 && Pow2(n - 1) <= x < Pow2(n)
    ensures BitLength(x) == n
  {
    hide BitLength, Pow2;
    var b := BitLength(x);
    BitLengthBounds(x);
    if b < n {
      Pow2Mono(b, n - 1);
    } else if n < b {
      Pow2Mono(n, b - 1);
    }
  }

  lemma Pow2Below(c: nat, b: nat)
    requires c < b
    ensures Pow2(c) <= Pow2(b - 1)
  {
    Pow2Mono(c, b - 1);
  }

  lemma BitLengthMono(x: nat, y: nat)
    requires x <= y
    ensures BitLength(x) <= BitLength(y)
  {
    if x > 0 {
      BitLengthBounds(x);
      BitLengthBounds(y);
      var b, c := BitLength(x), BitLength(y);
      if c < b {
        Pow2Below(c, b);
      }
    }
  }

  /** The byte count of the code: one byte more than the number has when its top bit would be the sign. */
  function Size(x: nat): nat {
    if x == 0 then 0 else BitLength(x) / 8 + 1
  }

  function Mantissa(x: nat): nat {
    if Size(x) <= 3 then x * Pow2(8 * (3 - Size(x))) else Over(x, Pow2(8 * (Size(x) - 3)))
  }

  function Coded(x: nat, negative: bool): nat {
    Size(x) * EXPONENT + (if negative && x != 0 then SIGN else 0) + Mantissa(x)
  }

  /** The low bytes the code has no room for. */
  function Dropped(x: nat): nat {
    x % Pow2(if Size(x) <= 3 then 0 else 8 * (Size(x) - 3))
  }

  // ----- bounds -----

  lemma ScaledUp(x: nat, b: nat, e: nat)
    requires b > 0 && Pow2(b - 1) <= x < Pow2(b)
    ensures Pow2(b - 1 + e) <= x * Pow2(e) < Pow2(b + e)
  {
    hide Pow2;
    Pow2Add(b - 1, e);
    Pow2Add(b, e);
    MulMono(Pow2(b - 1), x, Pow2(e), Pow2(e));
    MulMono(x + 1, Pow2(b), Pow2(e), Pow2(e));
    assert (x + 1) * Pow2(e) == x * Pow2(e) + Pow2(e);
  }

  lemma ScaledDown(x: nat, b: nat, e: nat)
    requires b > e && Pow2(b - 1) <= x < Pow2(b)
    ensures Pow2(b - 1 - e) <= Over(x, Pow2(e)) < Pow2(b - e)
  {
    hide Pow2;
    Pow2Add(b - 1 - e, e);
    Pow2Add(b - e, e);
    DivBelow(x, Pow2(e), Pow2(b - e));
    DivAtLeast(x, Pow2(e), Pow2(b - 1 - e));
  }

  lemma DivAtLeast(x: nat, q: nat, p: nat)
    requires q > 0 && x >= p * q
    ensures x / q >= p
  {
    if x / q < p {
      MulMono(x / q + 1, p, q, q);
    }
  }

  /** The mantissa of a positive number leaves the sign bit free and fills the byte below it. */
  lemma MantissaBounds(x: nat)
    requires x > 0
    ensures Pow2(15) <= Mantissa(x) < Pow2(23)
  {
    hide Pow2, BitLength, Over;
    BitLengthBounds(x);
    var b, s := BitLength(x), Size(x);
    if s <= 3 {
      var e := 8 * (3 - s);
      ScaledUp(x, b, e);
      Pow2Mono(15, b - 1 + e);
      Pow2Mono(b + e, 23);
    } else {
      var e := 8 * (s - 3);
      ScaledDown(x, b, e);
      Pow2Mono(15, b - 1 - e);
      Pow2Mono(b - e, 23);
    }
  }

  lemma SignIsPower()
    ensures Pow2(23) == SIGN && Pow2(24) == EXPONENT && Pow2(15) > 0 && Pow2(16) == 0x1_0000 && Pow2(8) == 256
  {
    assert Pow2(8) == 256;
    assert Pow2(7) == 128;
    Pow2Add(8, 8);
    Pow2Add(16, 7);
    Pow2Add(16, 8);
  }

  lemma MantissaFits(x: nat)
    ensures Mantissa(x) < SIGN && (Mantissa(x) == 0 <==> x == 0)
  {
    hide Pow2;
    SignIsPower();
    if x > 0 {
      MantissaBounds(x);
    } else {
      assert 0 * Pow2(24) == 0;
    }
  }

  // ----- round trip, fixed point, order -----

  lemma CodedParts(x: nat, negative: bool)
    ensures Coded(x, negative) / EXPONENT == Size(x) && Coded(x, negative) % SIGN == Mantissa(x)
    ensures Coded(x, negative) / SIGN % 2 == if negative && x != 0 then 1 else 0
  {
    hide Size, Mantissa;
    MantissaFits(x);
    var code, bit := Coded(x, negative), if negative && x != 0 then 1 else 0;
    Fields(code, Size(x), bit, Mantissa(x));
  }

  lemma Fields(code: nat, size: nat, bit: nat, m: nat)
    requires code == size * EXPONENT + bit * SIGN + m && bit <= 1 && m < SIGN
    ensures code / EXPONENT == size && code % SIGN == m && code / SIGN % 2 == bit
  {
    DivIs(size, bit * SIGN + m, EXPONENT, code);
    DivIs(2 * size + bit, m, SIGN, code);
    ModIs(m, 2 * size + bit, SIGN, code);
  }

  lemma MagnitudeOf(x: nat)
    ensures Magnitude(Size(x), Mantissa(x)) == x - Dropped(x) <= x
  {
    hide Pow2, Size;
    if Size(x) <= 3 {
      BackDown(x, Pow2(8 * (3 - Size(x))));
      Pow2OfZero();
    } else {
      BackUp(x, Pow2(8 * (Size(x) - 3)));
    }
  }

  lemma BackDown(x: nat, p: nat)
    requires p > 0
    ensures Over(x * p, p) == x && x % 1 == 0
  {
    MultipleOf(p, x);
  }

  lemma BackUp(x: nat, p: nat)
    requires p > 0
    ensures Over(x, p) * p == x - x % p
  {
  }

  /** Decoding the code of a number gives the number with its low bytes cleared, and no overflow. */
  lemma CompactRoundTrip(x: nat, negative: bool)
    ensures Decoded(Coded(x, negative)) == x - Dropped(x) <= x
    ensures Coded(x, negative) / SIGN % 2 == 1 <==> negative && x != 0
  {
    hide Size, Mantissa, Magnitude, Dropped, Coded;
    CodedParts(x, negative);
    MagnitudeOf(x);
  }

  /** Clearing the low bytes keeps the leading bits. */
  lemma SameLength(x: nat)
    requires x > 0
    ensures x - Dropped(x) > 0 && BitLength(x - Dropped(x)) == BitLength(x)
  {
    hide Pow2, BitLength;
    BitLengthBounds(x);
    var b, s := BitLength(x), Size(x);
    var e := if s <= 3 then 0 else 8 * (s - 3);
    Pow2Add(b - 1 - e, e);
    assert b - 1 - e + e == b - 1;
    ClearedAbove(x, Pow2(e), Pow2(b - 1 - e), Pow2(b - 1));
    BitLengthIs(x - Dropped(x), b);
  }

  /** Clearing below p does not go below a multiple of p. */
  lemma ClearedAbove(x: nat, p: nat, k: nat, m: nat)
    requires p > 0 && m == k * p && m <= x
    ensures m <= x - x % p <= x
  {
    DivAtLeast(x, p, k);
    MulMono(k, x / p, p, p);
  }

  lemma ClearedTwice(x: nat, p: nat)
    requires p > 0
    ensures (x - x % p) / p == x / p && (x - x % p) % p == 0
  {
    MultipleOf(p, x / p);
    assert x - x % p == p * (x / p);
  }

  /** Coding what a code stands for, with the same sign, gives the code back. */
  lemma CompactFixpoint(x: nat, negative: bool)
    ensures Coded(Decoded(Coded(x, negative)), negative) == Coded(x, negative)
  {
    hide Pow2, BitLength, Decoded;
    CompactRoundTrip(x, negative);
    if x > 0 {
      SameLength(x);
      var y := x - Dropped(x);
      assert Size(y) == Size(x);
      if Size(x) <= 3 {
        Pow2OfZero();
        assert y == x;
      } else {
        ClearedTwice(x, Pow2(8 * (Size(x) - 3)));
        assert Mantissa(y) == Mantissa(x);
      }
    }
  }

  lemma DivMono(x: nat, y: nat, p: nat)
    requires x <= y && p > 0
    ensures x / p <= y / p
  {
    if x / p > y / p {
      MulMono(y / p + 1, x / p, p, p);
    }
  }

  /** Codes of unsigned numbers are ordered as the numbers are. */
  lemma CompactOrder(x: nat, y: nat)
    requires x <= y
    ensures Coded(x, false) <= Coded(y, false)
  {
    hide Pow2, BitLength;
    BitLengthMono(x, y);
    MantissaFits(x);
    MantissaFits(y);
    if Size(x) < Size(y) {
      assert Size(x) * EXPONENT + EXPONENT <= Size(y) * EXPONENT;
    } else if x > 0 {
      var s := Size(x);
      if s <= 3 {
        MulMono(x, y, Pow2(8 * (3 - s)), Pow2(8 * (3 - s)));
      } else {
        DivMono(x, y, Pow2(8 * (s - 3)));
      }
    }
  }

  /** Quantising two targets never swaps them. */
  lemma DecodedOrder(x: nat, y: nat)
    requires x <= y
    ensures x - Dropped(x) <= y - Dropped(y)
  {
    hide Pow2, BitLength;
    BitLengthMono(x, y);
    if x > 0 {
      if Size(x) == Size(y) {
        ClearedMono(x, y, Pow2(if Size(x) <= 3 then 0 else 8 * (Size(x) - 3)));
      } else {
        SameLength(y);
        BitLengthBounds(x);
        BitLengthBounds(y - Dropped(y));
        Pow2Mono(BitLength(x), BitLength(y) - 1);
      }
    }
  }

  lemma ClearedMono(x: nat, y: nat, p: nat)
    requires x <= y && p > 0
    ensures x - x % p <= y - y % p
  {
    DivMono(x, y, p);
    MulMono(x / p, y / p, p, p);
  }

  // ----- SetCompact -----

  /** The size test of the decoder is exact. */
  lemma OverflowExact(size: nat, mantissa: nat)
    requires size > 3 && 0 < mantissa < SIGN
    ensures Magnitude(size, mantissa) >= Pow2(256)
       <==> (size > 34 || (mantissa > 0xff && size > 33) || (mantissa > 0xffff && size > 32))
  {
    hide Pow2;
    SignIsPower();
    var e := 8 * (size - 3);
    if size > 34 {
      Pow2Mono(256, e);
      MulMono(1, mantissa, Pow2(e), Pow2(e));
    } else if size == 34 {
      Pow2Add(8, 248);
      Threshold(mantissa, 256, Pow2(248));
    } else if size == 33 {
      Pow2Add(16, 240);
      Threshold(mantissa, 0x1_0000, Pow2(240));
    } else {
      Pow2Add(23, 233);
      Pow2Mono(e, 233);
      Threshold(mantissa, SIGN, Pow2(233));
      MulMono(mantissa, mantissa, Pow2(e), Pow2(233));
    }
  }

  lemma Threshold(m: nat, t: nat, p: nat)
    requires p > 0
    ensures m * p >= t * p <==> m >= t
  {
    if m >= t {
      MulMono(t, m, p, p);
    } else {
      StrictMul(p, m, t);
    }
  }

  lemma Bits256()
    ensures Modulus(8) == Pow2(256)
  {
    hide Pow, Pow2;
    Pow2Limbs(8);
  }

  method SetCompact(bn: BaseUint, code: nat) returns (negative: bool, overflow: bool)
    requires bn.Valid() && bn.pn.Length == 8 && code < B
    modifies bn.pn
    ensures bn.Valid() && bn.Value() == Decoded(code) % Pow2(256)
    ensures negative == (Decoded(code) != 0 && code / SIGN % 2 == 1)
    ensures overflow == (Decoded(code) >= Pow2(256))
  {
    hide Pow, Pow2, Val, Modulus, Over;
    Bits256();
    var size, word := code / EXPONENT, code % SIGN;
    if size <= 3 {
      SmallCode(word, 8 * (3 - size));
      word := Over(word, Pow2(8 * (3 - size)));
      bn.AssignU64(word);
    } else {
      bn.AssignU64(word);
      bn.ShiftLeftAssign(8 * (size - 3));
      if word > 0 {
        OverflowExact(size, word);
        MulMono(1, word, 1, Pow2(8 * (size - 3)));
      } else {
        assert word * Pow2(8 * (size - 3)) == 0;
      }
    }
    negative := word != 0 && code / SIGN % 2 == 1;
    overflow := word != 0 && (size > 34 || (word > 0xff && size > 33) || (word > 0xffff && size > 32));
  }

  lemma SmallCode(word: nat, e: nat)
    requires word < SIGN
    ensures Over(word, Pow2(e)) <= word && Over(word, Pow2(e)) % Pow2(256) == Over(word, Pow2(e)) < Pow2(256)
  {
    hide Pow2;
    SignIsPower();
    Pow2Mono(23, 256);
    DivSmaller(word, Pow2(e));
    SmallMod(Over(word, Pow2(e)), Pow2(256));
  }

  lemma DivSmaller(x: nat, p: nat)
    requires p > 0
    ensures x / p <= x
  {
    MulMono(x / p, x / p, 1, p);
  }

  // ----- GetCompact -----

  /** The leading bytes before the sign bit is freed. */
  function Leading(x: nat, size: nat): nat {
    if size <= 3 then x * Pow2(8 * (3 - size)) else Over(x, Pow2(8 * (size - 3)))
  }

  lemma LeadingBytes(x: nat)
    ensures var size := (BitLength(x) + 7) / 8; var word := Leading(x, size);
      && word < EXPONENT
      && (word < SIGN ==> size == Size(x) && word == Mantissa(x))
      && (word >= SIGN ==> size + 1 == Size(x) && Over(word, 256) == Mantissa(x))
  {
    hide Pow2, BitLength, Over;
    SignIsPower();
    if x == 0 {
      ZeroLength();
      assert 0 * Pow2(24) == 0;
    } else {
      BitLengthBounds(x);
      var b := BitLength(x);
      var s := (b + 7) / 8;
      MantissaBounds(x);
      if b % 8 == 0 {
        assert s == b / 8;
        if s <= 3 {
          ScaledUp(x, b, 8 * (3 - s));
          assert b - 1 + 8 * (3 - s) == 23 && b + 8 * (3 - s) == 24;
        } else {
          ScaledDown(x, b, 8 * (s - 3));
          assert b - 1 - 8 * (s - 3) == 23 && b - 8 * (s - 3) == 24;
        }
        Freed(x, s);
      }
    }
  }

  lemma ZeroLength()
    ensures BitLength(0) == 0
  {
  }

  /** Dividing the leading bytes by 256 is leading with one byte less. */
  lemma Freed(x: nat, s: nat)
    ensures Over(Leading(x, s), 256) == Leading(x, s + 1)
  {
    hide Pow2;
    SignIsPower();
    if s < 3 {
      var e := 8 * (2 - s);
      Pow2Add(e, 8);
      assert x * (Pow2(e) * 256) == 256 * (x * Pow2(e));
      MultipleOf(256, x * Pow2(e));
    } else if s == 3 {
      Pow2OfZero();
    } else {
      var e := 8 * (s - 3);
      Pow2Add(8, e);
      DivDiv(x, Pow2(e), 256, Pow2(e + 8));
    }
  }

  method GetCompact(bn: BaseUint, negative: bool) returns (code: nat)
    requires bn.Valid() && bn.pn.Length == 8
    ensures code == Coded(bn.Value(), negative) < B
  {
    hide Pow, Pow2, Val, Modulus, Over, BitLength, HasBit, Size, Mantissa;
    ghost var x := bn.Value();
    var bits := bn.Bits();
    if bits > 0 { BitLengthIs(x, bits); } else { ZeroLength(); }
    LeadingBytes(x);
    var size := (bits + 7) / 8;
    if size <= 3 {
      code := bn.GetLow64();
      LowEnough(x, size);
      code := code * Pow2(8 * (3 - size)) % TWO64 % B;
    } else {
      var t := new BaseUint.Copy(bn);
      t.ShiftRightAssign(8 * (size - 3));
      code := t.GetLow64();
      LowEnough(x, size);
      code := code % B;
    }
    assert code == Leading(x, size);
    SignIsPower();
    HighBit(code, 23);
    if HasBit(code, 23) {
      code := Over(code, 256);
      size := size + 1;
    }
    MantissaFits(x);
    assert code < SIGN;
    assert size < 256;
    code := Packed(code, size, negative);
  }

  /** The three fields of a code do not overlap. */
  method Packed(word: nat, size: nat, negative: bool) returns (code: nat)
    requires word < SIGN && size < 256
    ensures code == size * EXPONENT + (if negative && word != 0 then SIGN else 0) + word < B
  {
    hide Or, Pow2;
    SignIsPower();
    MultipleOf(EXPONENT, size);
    OrDisjoint(size * EXPONENT, word, 24);
    code := Or(word, size * EXPONENT);
    var sign := if negative && code % SIGN != 0 then SIGN else 0;
    OrSign(size, word, sign);
    code := Or(code, sign);
  }

  lemma OrSign(size: nat, word: nat, sign: nat)
    requires word < SIGN && (sign == 0 || sign == SIGN)
    ensures Or(size * EXPONENT + word, sign) == size * EXPONENT + sign + word
    ensures (size * EXPONENT + word) % SIGN == word
  {
    hide Or, Pow2;
    SignIsPower();
    var x := size * EXPONENT + word;
    if sign == 0 {
      OrZero(x);
    } else {
      DivIs(2 * size, word, SIGN, x);
      OrBit(x, 23);
    }
    ModIs(word, 2 * size, SIGN, x);
  }

  /** The low 64 bits hold all the leading bytes, and the shifts on them lose nothing. */
  lemma LowEnough(x: nat, size: nat)
    requires Leading(x, size) < EXPONENT
    ensures if size <= 3 then x % TWO64 * Pow2(8 * (3 - size)) % TWO64 % B == Leading(x, size)
            else x / Pow2(8 * (size - 3)) % TWO64 % B == Leading(x, size)
  {
    hide Pow2;
    if size <= 3 {
      MulMono(x, x, 1, Pow2(8 * (3 - size)));
      SmallMod(x, TWO64);
    }
    SmallMod(Leading(x, size), TWO64);
    SmallMod(Leading(x, size), B);
  }
}
