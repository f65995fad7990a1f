/**
Scaling a target by a power of two with a 16-bit fraction, and the two rules built
on it: the retarget after each block and the easing of an overdue one.
*/
module Retarget {
  import opened Basics
  import opened Powers
  import opened Limbs
  import opened LimbLoops
  import opened LimbShifts
  import opened LimbBits
  import opened ArithUint
  import opened Compact

  const Q16: nat := 65536
  const TARGET_SPACING := 90
  const TIME_CONSTANT := 990
  const SPACING_CAP := 2500
  const EASING_THRESHOLD := 300
  const EASING_DOUBLING := 256
  const EASING_MAX_DOUBLINGS := 64

  // ----- division as the machine does it -----

  function FloorDiv(num: int, den: int): (q: int)
    requires den > 0
    ensures q == num / den
  {
    var q := TruncDiv(num, den);
    assert (-num) / den * den + (-num) % den == -num;
    assert num / den * den + num % den == num;
    FloorIs(num, den, q);
    if num - q * den != 0 && num < 0 then q - 1 else q
  }

  lemma FloorIs(num: int, den: int, q: int)
    requires den > 0 && q == TruncDiv(num, den)
    ensures if num - q * den != 0 && num < 0 then num / den == q - 1 else num / den == q
  {
    if num < 0 {
      var p, r := (-num) / den, (-num) % den;
      assert num == q * den - r;
      if r != 0 {
        assert num == (q - 1) * den + (den - r);
        Unique(num, den, q - 1, den - r);
      } else {
        Unique(num, den, q, 0);
      }
    }
  }

  lemma Unique(x: int, d: int, q: int, r: int)
    requires 0 <= r < d && x == q * d + r
    ensures x / d == q && x % d == r
  {
    var a, b := x / d, x % d;
    assert (a - q) * d == r - b;
    SmallMultiple(a - q, d);
  }

  // ----- the factor of the fraction -----

  function Times(a: nat, b: nat): nat {
    a * b
  }

  /** f squared and cubed, by differences. */
  function Square(f: nat): nat {
    if f == 0 then 0 else Square(f - 1) + 2 * f - 1
  }

  function Cube(f: nat): nat {
    if f == 0 then 0 else Cube(f - 1) + 3 * Square(f - 1) + 3 * f - 2
  }

  lemma {:induction false} SquareIs(f: nat)
    ensures Square(f) == f * f
  {
    if f > 0 {
      SquareIs(f - 1);
      assert f * f == (f - 1) * (f - 1) + 2 * f - 1;
    }
  }

  lemma {:induction false} CubeIs(f: nat)
    ensures Cube(f) == f * (f * f)
  {
    if f > 0 {
      CubeIs(f - 1);
      SquareIs(f - 1);
      CubeStep(f - 1);
    }
  }

  lemma CubeStep(g: nat)
    ensures (g + 1) * ((g + 1) * (g + 1)) == g * (g * g) + 3 * (g * g) + 3 * g + 1
  {
    assert (g + 1) * (g + 1) == g * g + 2 * g + 1;
    assert (g + 1) * (g * g + 2 * g + 1) == g * (g * g + 2 * g + 1) + (g * g + 2 * g + 1);
    assert g * (g * g + 2 * g + 1) == g * (g * g) + 2 * (g * g) + g;
  }

  /** The weighted sum of the fraction, its square and its cube. */
  function Cubic(f: nat): nat {
    195766423245049 * f + 971821376 * Square(f) + 5127 * Cube(f) + 0x8000_0000_0000
  }

  /** 2^(f / 65536), times 65536, by a cubic. */
  function Factor(f: nat): nat {
    65536 + Cubic(f) / 0x1_0000_0000_0000
  }

  function Weighted(t: nat, f: nat): nat {
    Times(t, Factor(f))
  }

  lemma {:induction false} CubicMono(f: nat, g: nat)
    requires f <= g
    ensures Square(f) <= Square(g) && Cube(f) <= Cube(g) && Cubic(f) <= Cubic(g)
    decreases g
  {
    if f < g {
      CubicMono(f, g - 1);
    }
  }

  lemma TimesMono(a: nat, b: nat, c: nat, d: nat)
    requires a <= b && c <= d
    ensures Times(a, c) <= Times(b, d)
  {
    MulMono(a, b, c, d);
  }

  /** The sum never leaves 64 bits, and the factor stays between one and two. */
  lemma FactorBounds(f: nat)
    requires f < Q16
    ensures Cubic(f) < TWO64 && Q16 <= Factor(f) < 2 * Q16
  {
    hide Square, Cube;
    SquareIs(65535);
    CubeIs(65535);
    CubicMono(f, 65535);
  }

  lemma FactorMono(f: nat, g: nat)
    requires f <= g
    ensures Factor(f) <= Factor(g)
  {
    hide Cubic, Square, Cube;
    CubicMono(f, g);
  }

  // ----- scaling -----

  /** x times 2^k, rounded down. */
  ghost function Scale(x: nat, k: int): nat {
    if k >= 0 then x * Pow2(k) else Over(x, Pow2(-k))
  }

  lemma ScaleMono(x: nat, y: nat, k: int)
    requires x <= y
    ensures Scale(x, k) <= Scale(y, k)
  {
    hide Pow2;
    if k >= 0 {
      MulMono(x, y, Pow2(k), Pow2(k));
    } else {
      DivMono(x, y, Pow2(-k));
    }
  }

  /** One more doubling outside is one inside. */
  lemma ScaleDouble(x: nat, k: int)
    ensures Scale(2 * x, k) == Scale(x, k + 1)
  {
    hide Pow2;
    if k >= 0 {
      Doubles(k);
      assert 2 * x * Pow2(k) == x * (2 * Pow2(k));
    } else {
      Doubles(-k - 1);
      Pow2OfZero();
      HalfOf(x, Pow2(-k - 1));
    }
  }

  lemma HalfOf(x: nat, p: nat)
    requires p > 0
    ensures 2 * x / (2 * p) == x / p && x * 1 == x
  {
    DivDiv(2 * x, 2, p, 2 * p);
  }

  lemma {:induction false} ScaleGrows(x: nat, k: int, l: int)
    requires k <= l
    ensures Scale(x, k) <= Scale(x, l)
    decreases l - k
  {
    if k < l {
      ScaleMono(x, 2 * x, k);
      ScaleDouble(x, k);
      ScaleGrows(x, k + 1, l);
    }
  }

  function Min(a: int, b: int): int {
    if a > b then b else a
  }

  function Clamp(x: nat, limit: nat): nat {
    if x == 0 then 1 else if x > limit then limit else x
  }

  /** What ScaleTargetExp2 is to return. */
  ghost function Scaled(target: nat, exponent: int, limit: nat): nat {
    var t := if target > limit then limit else target;
    if exponent / Q16 >= 272 then limit else Clamp(Scale(Weighted(t, exponent % Q16), exponent / Q16 - 16), limit)
  }

  /** Where a target is positive the cut at 256 places changes nothing: the result is the clamped product. */
  lemma CutIsExact(target: nat, exponent: int, limit: nat)
    requires target > 0 && 0 < limit < Pow2(256)
    ensures Scaled(target, exponent, limit)
         == Clamp(Scale(Weighted(if target > limit then limit else target, exponent % Q16), exponent / Q16 - 16), limit)
  {
    hide Pow2, Factor;
    var k := exponent / Q16 - 16;
    if k >= 256 {
      var t := if target > limit then limit else target;
      var f := Factor(exponent % Q16);
      FactorBounds(exponent % Q16);
      MulMono(1, t, 1, f);
      Pow2Mono(256, k);
      MulMono(1, t * f, Pow2(256), Pow2(k));
    }
  }

  /** The result is between one and the limit. */
  lemma ScaledBounds(target: nat, exponent: int, limit: nat)
    requires limit > 0
    ensures 1 <= Scaled(target, exponent, limit) <= limit
  {
    hide Scale, Weighted;
  }

  lemma ClampMono(x: nat, y: nat, limit: nat)
    requires x <= y && limit > 0
    ensures Clamp(x, limit) <= Clamp(y, limit) <= limit
  {
  }

  /** A larger target scales to a target at least as large. */
  lemma ScaledMonoTarget(target: nat, more: nat, exponent: int, limit: nat)
    requires target <= more && limit > 0
    ensures Scaled(target, exponent, limit) <= Scaled(more, exponent, limit)
  {
    hide Scale, Weighted, Clamp;
    var t, u := if target > limit then limit else target, if more > limit then limit else more;
    var f, k := exponent % Q16, exponent / Q16 - 16;
    WeightedMono(t, u, f, f);
    ScaleMono(Weighted(t, f), Weighted(u, f), k);
    ClampMono(Scale(Weighted(t, f), k), Scale(Weighted(u, f), k), limit);
  }

  lemma WeightedMono(t: nat, u: nat, f: nat, g: nat)
    requires t <= u && f <= g
    ensures Weighted(t, f) <= Weighted(u, g)
  {
    hide Factor, Times;
    FactorMono(f, g);
    TimesMono(t, u, Factor(f), Factor(g));
  }

  /** Any fraction weighs less than the next doubling. */
  lemma WeightedDouble(t: nat, f: nat, g: nat)
    requires f < Q16 && g < Q16
    ensures Weighted(t, f) <= 2 * Weighted(t, g)
  {
    hide Factor;
    FactorBounds(f);
    FactorBounds(g);
    var x, y := Factor(f), Factor(g);
    MulMono(t, t, x, 2 * y);
    assert t * (2 * y) == 2 * (t * y);
  }

  /** A larger exponent scales to a target at least as large, also where the fraction starts over. */
  lemma ScaledMonoExponent(target: nat, d: int, e: int, limit: nat)
    requires d <= e && limit > 0
    ensures Scaled(target, d, limit) <= Scaled(target, e, limit)
  {
    hide Scale, Weighted, Clamp;
    var t := if target > limit then limit else target;
    var f, g := d % Q16, e % Q16;
    var k, l := d / Q16 - 16, e / Q16 - 16;
    assert k <= l;
    if l < 256 {
      ProductGrows(t, f, g, k, l);
      ClampMono(Scale(Weighted(t, f), k), Scale(Weighted(t, g), l), limit);
    } else {
      ScaledBounds(target, d, limit);
    }
  }

  lemma ProductGrows(t: nat, f: nat, g: nat, k: int, l: int)
    requires f < Q16 && g < Q16 && (k < l || (k == l && f <= g))
    ensures Scale(Weighted(t, f), k) <= Scale(Weighted(t, g), l)
  {
    hide Scale, Weighted;
    if k == l {
      WeightedMono(t, t, f, g);
      ScaleMono(Weighted(t, f), Weighted(t, g), k);
    } else {
      WeightedDouble(t, f, g);
      ScaleMono(Weighted(t, f), 2 * Weighted(t, g), k);
      ScaleDouble(Weighted(t, g), k);
      ScaleGrows(Weighted(t, g), k + 1, l);
    }
  }

  /** A whole number of doublings is exact. */
  lemma WholeDoublings(target: nat, n: int, limit: nat)
    requires 0 < target <= limit < Pow2(256)
    ensures Scaled(target, n * Q16, limit) == Clamp(Scale(target, n), limit)
  {
    hide Pow2, Scale, Clamp;
    Unique(n * Q16, Q16, n, 0);
    CutIsExact(target, n * Q16, limit);
    assert Factor(0) == Q16;
    SignIsPower();
    Sixteen(target, n, 0);
  }

  lemma {:induction false} Sixteen(x: nat, n: int, i: nat)
    requires i <= 16
    ensures Scale(Times(x, Pow2(16 - i)), n - 16 + i) == Scale(x, n)
    decreases 16 - i
  {
    hide Scale, Pow2;
    if i == 16 {
      Pow2OfZero();
    } else {
      Sixteen(x, n, i + 1);
      Doubles(15 - i);
      TimesDouble(x, Pow2(15 - i));
      hide Times;
      ScaleDouble(Times(x, Pow2(15 - i)), n - 16 + i);
    }
  }

  lemma TimesDouble(x: nat, p: nat)
    ensures Times(x, 2 * p) == 2 * Times(x, p)
  {
  }

  // ----- the code -----

  lemma ScaleDown(x: nat, k: int)
    requires k <= 0
    ensures Scale(x, k) == x / Pow2(-k)
    ensures x < Pow2(256) && k <= -256 ==> Scale(x, k) == 0
  {
    hide Pow2;
    Pow2OfZero();
    if x < Pow2(256) && k <= -256 {
      Pow2Mono(256, -k);
      DivIs(0, x, Pow2(-k), x);
    }
  }

  /** Shifting up and back gives the number again exactly when nothing was shifted out. */
  lemma ShiftBack(x: nat, k: nat)
    requires 0 < k < 256
    ensures (x * Pow2(k)) % Pow2(256) / Pow2(k) == x <==> x * Pow2(k) < Pow2(256)
  {
    hide Pow2;
    Pow2Add(256 - k, k);
    var m, p := Pow2(256), Pow2(k);
    if x * p < m {
      SmallMod(x * p, m);
      MultipleOf(p, x);
    } else {
      DivBelow((x * p) % m, p, Pow2(256 - k));
      Threshold(x, Pow2(256 - k), p);
    }
  }

  lemma WeightedFits(t: nat, f: nat)
    requires t < Pow2(236) && f < Q16
    ensures Weighted(t, f) % Pow2(256) == Weighted(t, f) < Pow2(256)
  {
    hide Pow2, Factor;
    FactorBounds(f);
    SignIsPower();
    Pow2Add(236, 20);
    Pow2Add(16, 4);
    Pow2Mono(0, 3);
    Pow2OfZero();
    Doubles(3); Doubles(2); Doubles(1); Doubles(0);
    MulMono(t, Pow2(236), Factor(f), 2 * Q16);
    StrictMul(Pow2(236), 2 * Q16, 16 * Q16);
    SmallMod(Weighted(t, f), Pow2(256));
  }

  /** What ScaleTargetExp2 returns for any limit: the product is taken modulo 2^256 before it is shifted. */
  ghost function Wrapped(target: nat, exponent: int, limit: nat): nat {
    var t := if target > limit then limit else target;
    if exponent / Q16 >= 272 then Clamp(limit, limit)
    else Clamp(Scale(Weighted(t, exponent % Q16) % Pow2(256), exponent / Q16 - 16), limit)
  }

  /** The product of a target under a limit and the factor of the fraction, before it is cut to 256 bits. */
  function Product(target: nat, exponent: int, limit: nat): nat {
    Weighted(if target > limit then limit else target, exponent % Q16)
  }

  /** Cutting a number of more than 256 bits shows in every shift that does not move the cut part away. */
  lemma CutShows(w: nat, k: int)
    requires w >= Pow2(256) && -256 < k < 256
    ensures Scale(w % Pow2(256), k) < Scale(w, k)
  {
    hide Pow2;
    if k >= 0 {
      CutUp(w, Pow2(256), Pow2(k));
    } else {
      Pow2Add(256 + k, -k);
      CutDown(w, Pow2(256), Pow2(256 + k), Pow2(-k));
    }
  }

  lemma CutUp(w: nat, m: nat, p: nat)
    requires 0 < m <= w && p > 0
    ensures (w % m) * p < w * p
  {
    CutOff(w, m);
    StrictMul(p, w % m, w);
  }

  lemma CutDown(w: nat, m: nat, q: nat, p: nat)
    requires 0 < m <= w && p > 0 && q > 0 && m == q * p
    ensures (w % m) / p < w / p
  {
    CutOff(w, m);
    AddMultiple(w % m, q, p);
    DivMono(w % m + m, w, p);
  }

  lemma CutOff(w: nat, m: nat)
    requires 0 < m <= w
    ensures w % m + m <= w && w % m < m
  {
    MulMono(1, w / m, m, m);
  }

  lemma AddMultiple(u: nat, q: nat, p: nat)
    requires p > 0 && q > 0
    ensures (u + q * p) / p == u / p + q > u / p
  {
    DivIs(u / p + q, u % p, p, u + q * p);
  }

  /** A limit of one leaves no product that does not fit. */
  lemma SmallLimitFits(target: nat, exponent: int, limit: nat)
    requires limit <= 1
    ensures Product(target, exponent, limit) < Pow2(256)
  {
    hide Pow2, Factor;
    Pow2OfZero();
    Pow2Mono(1, 236);
    Pow2OfOne();
    WeightedFits(if target > limit then limit else target, exponent % Q16);
  }

  /**
  The code returns what it is to return exactly when the shift is at least 256 places up, or the product fits in 256
  bits, or what is left of it still reaches the limit, or the true result is down to one. A product that does not fit
  gives the limit exactly in the first and the third of these cases.
  */
  lemma WrappedIsScaled(target: nat, exponent: int, limit: nat)
    requires 0 < limit < Pow2(256)
    ensures var w, k := Product(target, exponent, limit), exponent / Q16 - 16;
      && (Wrapped(target, exponent, limit) == Scaled(target, exponent, limit) <==>
            k >= 256 || w < Pow2(256) || Scale(w % Pow2(256), k) >= limit || Scale(w, k) <= 1)
      && (w >= Pow2(256) ==>
            (Wrapped(target, exponent, limit) == limit <==> k >= 256 || Scale(w % Pow2(256), k) >= limit))
  {
    hide Pow2, Weighted, Scale;
    var w, k := Product(target, exponent, limit), exponent / Q16 - 16;
    var u := w % Pow2(256);
    if w < Pow2(256) {
      SmallMod(w, Pow2(256));
    } else if k < 256 {
      if limit == 1 { SmallLimitFits(target, exponent, limit); }
      CutOff(w, Pow2(256));
      ScaleMono(u, w, k);
      if k > -256 {
        CutShows(w, k);
      } else {
        ScaleDown(u, k);
      }
      ClampsDiffer(Scale(u, k), Scale(w, k), limit);
    }
  }

  lemma ClampsDiffer(a: nat, b: nat, limit: nat)
    requires limit > 1 && a <= b && (a < b || a == 0)
    ensures Clamp(a, limit) == Clamp(b, limit) <==> a >= limit || b <= 1
    ensures Clamp(a, limit) == limit <==> a >= limit
  {
  }

  /** A product that does not fit is not caught: a target of 2^255 under a limit of 2^255, scaled by one, becomes 1. */
  lemma ProductWraps()
    ensures Scaled(Pow2(255), 0, Pow2(255)) == Pow2(255) > 1
    ensures Wrapped(Pow2(255), 0, Pow2(255)) == 1
  {
    hide Pow2, Scale;
    var t := Pow2(255);
    FactorOfZero();
    Pow2Add(255, 16);
    Pow2Add(256, 15);
    SignIsPower();
    MultipleOf(Pow2(256), Pow2(15));
    assert Weighted(t, 0) == t * Pow2(16) == Pow2(271) == Pow2(256) * Pow2(15);
    ScaleDown(Weighted(t, 0), -16);
    ScaleDown(0, -16);
    MultipleOf(Pow2(16), t);
    Pow2Mono(1, 255);
    Pow2OfOne();
  }

  lemma Pow2OfOne()
    ensures Pow2(1) == 2
  {
  }

  lemma FactorOfZero()
    ensures Factor(0) == Q16
  {
  }

  method ScaleTargetExp2(targetIn: BaseUint, exponent: int, limit: BaseUint) returns (next: BaseUint)
    requires targetIn.Valid() && limit.Valid() && targetIn.pn.Length == limit.pn.Length == 8
    ensures next.Valid() && fresh(next) && fresh(next.pn) && next.pn.Length == 8
    ensures next.Value() == Wrapped(targetIn.Value(), exponent, limit.Value())
    ensures 0 < limit.Value() < Pow2(236) ==> next.Value() == Scaled(targetIn.Value(), exponent, limit.Value())
  {
    hide Pow, Pow2, Val, Modulus, Weighted, Factor, Scale, Scaled, Clamp;
    Bits256();
    ValBound(limit.pn[..]);
    var c := targetIn.CompareTo(limit);
    var target := new BaseUint.Copy(if c > 0 then limit else targetIn);
    var shifts := FloorDiv(exponent, 65536);
    var frac := exponent - shifts * 65536;
    assert frac == exponent % Q16;
    FactorBounds(frac);
    var factor := new BaseUint.FromU64(8, Factor(frac));
    next := new BaseUint.Copy(target);
    WeightedIs(target.Value(), frac);
    next.MulAssign(factor);
    if limit.Value() == 0 { NothingWeighted(frac); }
    shifts := shifts - 16;
    next := Shifted(next, shifts, limit);
    if 0 < limit.Value() < Pow2(236) {
      WeightedFits(target.Value(), frac);
      WrappedIsScaled(targetIn.Value(), exponent, limit.Value());
    }
    next := Clamped(next, limit);
  }

  /** At least one and at most the limit. */
  method Clamped(x: BaseUint, limit: BaseUint) returns (next: BaseUint)
    requires x.Valid() && limit.Valid() && x.pn.Length == limit.pn.Length == 8
    ensures next.Valid() && fresh(next) && fresh(next.pn) && next.pn.Length == 8
    ensures next.Value() == Clamp(x.Value(), limit.Value())
  {
    hide Pow, Val, Modulus;
    var zero := x.EqualTo(0);
    if zero {
      next := new BaseUint.FromU64(8, 1);
      return;
    }
    var c := x.CompareTo(limit);
    next := new BaseUint.Copy(if c > 0 then limit else x);
  }

  lemma NothingWeighted(f: nat)
    ensures Weighted(0, f) == 0 && 0 % Pow2(256) == 0
  {
  }

  lemma WeightedIs(t: nat, f: nat)
    ensures Weighted(t, f) == t * Factor(f)
  {
  }

  /** The shift of the product, with the limit standing in for what does not fit. */
  method Shifted(x: BaseUint, shifts: int, limit: BaseUint) returns (next: BaseUint)
    requires x.Valid() && limit.Valid() && x.pn.Length == limit.pn.Length == 8
    requires limit.Value() > 0 || x.Value() == 0
    ensures next.Valid() && fresh(next) && fresh(next.pn) && next.pn.Length == 8
    ensures shifts >= 256 ==> next.Value() == limit.Value()
    ensures shifts < 256 ==> Clamp(next.Value(), limit.Value()) == Clamp(Scale(x.Value(), shifts), limit.Value())
  {
    hide Pow, Pow2, Val, Modulus;
    Bits256();
    ValBound(x.pn[..]);
    next := new BaseUint.Copy(x);
    if shifts <= 0 {
      ScaleDown(x.Value(), shifts);
      if -shifts >= 256 {
        next.AssignU64(0);
      } else {
        next.ShiftRightAssign(-shifts);
      }
    } else if shifts >= 256 {
      next := new BaseUint.Copy(limit);
    } else {
      next := ShiftedUp(x, shifts, limit);
    }
  }

  method ShiftedUp(x: BaseUint, shifts: nat, limit: BaseUint) returns (next: BaseUint)
    requires x.Valid() && limit.Valid() && x.pn.Length == limit.pn.Length == 8
    requires (limit.Value() > 0 || x.Value() == 0) && 0 < shifts < 256
    ensures next.Valid() && fresh(next) && fresh(next.pn) && next.pn.Length == 8
    ensures Clamp(next.Value(), limit.Value()) == Clamp(Scale(x.Value(), shifts), limit.Value())
  {
    hide Pow, Pow2, Val, Modulus, Scale, Clamp;
    Bits256();
    ValBound(limit.pn[..]);
    UpOrOut(x.Value(), shifts, limit.Value());
    var shifted := new BaseUint.Copy(x);
    shifted.ShiftLeftAssign(shifts);
    var back := new BaseUint.Copy(shifted);
    back.ShiftRightAssign(shifts);
    var c := back.CompareTo(x);
    next := new BaseUint.Copy(if c == 0 then shifted else limit);
  }

  lemma UpOrOut(x: nat, k: nat, limit: nat)
    requires 0 < k < 256 && limit < Pow2(256) && (limit > 0 || x == 0)
    ensures var up := (x * Pow2(k)) % Pow2(256);
      Clamp(if up / Pow2(k) == x then up else limit, limit) == Clamp(Scale(x, k), limit)
  {
    hide Pow2;
    ShiftBack(x, k);
    if x * Pow2(k) < Pow2(256) {
      SmallMod(x * Pow2(k), Pow2(256));
    }
  }

  // ----- the two rules -----

  /** The easiest target: all ones, moved down by twenty. */
  ghost function StakeLimit(): nat {
    Pow2(236) - 1
  }

  function Clip(x: int, lo: int, hi: int): int {
    if x < lo then lo else if hi < x then hi else x
  }

  function RetargetExponent(spacing: int): int {
    FloorDiv((Clip(spacing, -SPACING_CAP, SPACING_CAP) - TARGET_SPACING) * 2 * 65536 * 1000000, TIME_CONSTANT * 693147)
  }

  /** The exponent is the greatest whole number of 65536ths not above 2 (t - 90) / (990 * 0.693147), t within 2500. */
  lemma RetargetExponentIs(spacing: int)
    ensures var e := RetargetExponent(spacing);
      var t := if spacing < -2500 then -2500 else if spacing > 2500 then 2500 else spacing;
      e * (990 * 693147) <= (t - 90) * 131072000000 < (e + 1) * (990 * 693147)
  {
  }

  ghost function Retargeted(parent: nat, spacing: int): nat {
    Scaled(parent, RetargetExponent(spacing), StakeLimit())
  }

  ghost function Eased(base: nat, elapsed: int): nat {
    if elapsed <= EASING_THRESHOLD then (if base > StakeLimit() then StakeLimit() else base)
    else
      var most := EASING_THRESHOLD + EASING_DOUBLING * EASING_MAX_DOUBLINGS;
      Scaled(base, (Min(elapsed, most) - EASING_THRESHOLD) * (65536 / EASING_DOUBLING), StakeLimit())
  }

  method ProofOfStakeLimit() returns (limit: BaseUint)
    ensures limit.Valid() && fresh(limit) && fresh(limit.pn) && limit.pn.Length == 8 && limit.Value() == StakeLimit()
    ensures 0 < StakeLimit() < Pow2(236)
  {
    hide Pow, Pow2, Val, Modulus;
    Bits256();
    var zero := new BaseUint.Zero(8);
    limit := zero.Complement();
    limit.ShiftRightAssign(20);
    LimitIs();
  }

  lemma LimitIs()
    ensures Pow2(256) - 1 >= 0 && (Pow2(256) - 1) / Pow2(20) == StakeLimit() && 0 < StakeLimit() < Pow2(236)
  {
    hide Pow2;
    Pow2Add(236, 20);
    var m, p := Pow2(236), Pow2(20);
    Pow2Mono(1, 236);
    Doubles(0);
    Pow2OfZero();
    assert m * p - 1 == (p - 1) + p * (m - 1);
    DivIs(m - 1, p - 1, p, m * p - 1);
  }

  method RetargetLogLinear(parent: BaseUint, spacing: int) returns (next: BaseUint)
    requires parent.Valid() && parent.pn.Length == 8
    ensures next.Valid() && next.pn.Length == 8 && next.Value() == Retargeted(parent.Value(), spacing)
  {
    hide Pow2, Val, Scaled;
    var limit := ProofOfStakeLimit();
    next := ScaleTargetExp2(parent, RetargetExponent(spacing), limit);
  }

  method EaseTarget(base: BaseUint, elapsed: int) returns (eased: BaseUint)
    requires base.Valid() && base.pn.Length == 8
    ensures eased.Valid() && eased.pn.Length == 8 && eased.Value() == Eased(base.Value(), elapsed)
  {
    hide Pow2, Val, Scaled;
    var limit := ProofOfStakeLimit();
    if elapsed <= EASING_THRESHOLD {
      var c := base.CompareTo(limit);
      eased := new BaseUint.Copy(if c > 0 then limit else base);
      return;
    }
    var e := Min(elapsed, EASING_THRESHOLD + EASING_DOUBLING * EASING_MAX_DOUBLINGS);
    eased := ScaleTargetExp2(base, (e - EASING_THRESHOLD) * (65536 / EASING_DOUBLING), limit);
  }

  /** On time, nothing changes. */
  lemma RetargetIdentity(parent: nat)
    requires 0 < parent <= StakeLimit()
    ensures Retargeted(parent, TARGET_SPACING) == parent
  {
    hide Scaled, Pow2, Scale;
    LimitIs();
    Pow2Mono(236, 256);
    WholeDoublings(parent, 0, StakeLimit());
    ScaleNone(parent);
  }

  lemma ScaleNone(x: nat)
    ensures Scale(x, 0) == x
  {
    Pow2OfZero();
    assert x * 1 == x;
  }

  /** Slower blocks never make the next target harder, and the target stays between one and the limit. */
  lemma RetargetMonotone(parent: nat, s: int, t: int)
    requires s <= t
    ensures 1 <= Retargeted(parent, s) <= Retargeted(parent, t) <= StakeLimit()
  {
    hide Scaled, Pow2, FloorDiv;
    LimitIs();
    FloorDivMono((Clip(s, -SPACING_CAP, SPACING_CAP) - TARGET_SPACING) * 2 * 65536 * 1000000,
                 (Clip(t, -SPACING_CAP, SPACING_CAP) - TARGET_SPACING) * 2 * 65536 * 1000000, TIME_CONSTANT * 693147);
    ScaledMonoExponent(parent, RetargetExponent(s), RetargetExponent(t), StakeLimit());
    ScaledBounds(parent, RetargetExponent(s), StakeLimit());
    ScaledBounds(parent, RetargetExponent(t), StakeLimit());
  }

  lemma FloorDivMono(a: int, b: int, d: int)
    requires a <= b && d > 0
    ensures FloorDiv(a, d) <= FloorDiv(b, d)
  {
    QuotientMono(a / d, a % d, b / d, b % d, d);
  }

  lemma QuotientMono(p: int, m: nat, q: int, n: nat, d: nat)
    requires m < d && n < d && p * d + m <= q * d + n
    ensures p <= q
  {
    if p > q {
      AtLeast(p - q, d);
    }
  }

  /** The same holds of the codes that go into block headers. */
  lemma RetargetCodesMonotone(parent: nat, s: int, t: int)
    requires s <= t
    ensures Coded(Retargeted(parent, s), false) <= Coded(Retargeted(parent, t), false) <= Coded(StakeLimit(), false)
  {
    hide Retargeted, Coded, StakeLimit;
    RetargetMonotone(parent, s, t);
    CompactOrder(Retargeted(parent, s), Retargeted(parent, t));
    CompactOrder(Retargeted(parent, t), StakeLimit());
  }

  /** Waiting longer never makes the target harder, and easing never goes below the base target or above the limit. */
  lemma EasingMonotone(base: nat, d: int, e: int)
    requires d <= e
    ensures Eased(base, d) <= Eased(base, e) <= StakeLimit()
    ensures (if base > StakeLimit() then StakeLimit() else base) <= Eased(base, e)
  {
    hide Scaled, Pow2;
    LimitIs();
    EasedFrom(base, e);
    EasedFrom(base, d);
    if EASING_THRESHOLD < d {
      var top := EASING_THRESHOLD + EASING_DOUBLING * EASING_MAX_DOUBLINGS;
      ScaledMonoExponent(base, (Min(d, top) - EASING_THRESHOLD) * 256, (Min(e, top) - EASING_THRESHOLD) * 256,
        StakeLimit());
    }
  }

  lemma EasedFrom(base: nat, e: int)
    ensures (if base > StakeLimit() then StakeLimit() else base) <= Eased(base, e) <= StakeLimit()
  {
    hide Scaled, Pow2, Scale;
    LimitIs();
    Pow2Mono(236, 256);
    if e > EASING_THRESHOLD {
      var top := EASING_THRESHOLD + EASING_DOUBLING * EASING_MAX_DOUBLINGS;
      var x := (Min(e, top) - EASING_THRESHOLD) * 256;
      ScaledBounds(base, x, StakeLimit());
      if base > 0 {
        var t := if base > StakeLimit() then StakeLimit() else base;
        WholeDoublings(t, 0, StakeLimit());
        ScaleNone(t);
        ScaledMonoExponent(t, 0, x, StakeLimit());
        ScaledMonoTarget(t, base, x, StakeLimit());
      }
    }
  }

  /** Easing ends in the limit exactly for the base targets within 64 doublings of it. */
  lemma EasingReachesLimit(base: nat, e: int)
    requires 0 < base <= StakeLimit() && e >= EASING_THRESHOLD + EASING_DOUBLING * EASING_MAX_DOUBLINGS
    ensures Eased(base, e) == StakeLimit() <==> base * Pow2(64) >= StakeLimit()
  {
    hide Scaled, Pow2;
    LimitIs();
    Pow2Mono(236, 256);
    WholeDoublings(base, 64, StakeLimit());
    assert EASING_DOUBLING * EASING_MAX_DOUBLINGS * 256 == 64 * Q16;
    MulMono(1, base, 1, Pow2(64));
  }
}
