/** Comparison, bit length and the bits of a quotient, over limbs. */
module LimbBits {
  import opened Powers
  import opened Limbs
  import opened LimbLoops
  import opened LimbShifts

  /** The highest limb in which two numbers differ decides. */
  lemma TopDiffers(a: seq<nat>, b: seq<nat>, i: nat)
    requires i < |a| == |b| && AreLimbs(a) && AreLimbs(b)
    requires a[i + 1..] == b[i + 1..] && a[i] < b[i]
    ensures Val(a) < Val(b)
  {
    hide Val, Pow, Modulus;
    ValCut(a, i + 1);
    ValCut(b, i + 1);
    ValTake(a, i);
    ValTake(b, i);
    ValBound(a[..i]);
    ModulusIsPower(i);
    MulMono(Pow(B, i), Pow(B, i), a[i] + 1, b[i]);
    MulSucc(Pow(B, i), a[i]);
  }

  predicate HasBit(x: nat, n: nat) {
    Over(x, Pow2(n)) % 2 == 1
  }

  lemma HighBit(x: nat, n: nat)
    requires x < Pow2(n + 1)
    ensures HasBit(x, n) <==> x >= Pow2(n)
  {
    var p := Pow2(n);
    if x >= p {
      DivIs(1, x - p, p, x);
    } else {
      DivIs(0, x, p, x);
    }
  }

  /** Or-ing in a bit that is not set adds it. */
  lemma {:induction false} OrBit(x: nat, n: nat)
    requires !HasBit(x, n)
    ensures Or(x, Pow2(n)) == x + Pow2(n)
  {
    if n == 0 {
      OrZero(x / 2);
    } else {
      DivDiv(x, 2, Pow2(n - 1), Pow2(n));
      OrBit(x / 2, n - 1);
    }
  }

  /** The bit length of the top limb gives the bit length of the number. */
  lemma TopLimb(d: seq<nat>, pos: nat, n: nat)
    requires pos < |d| && AreLimbs(d) && (forall p :: pos < p < |d| ==> d[p] == 0)
    requires Pow2(n) <= d[pos] < Pow2(n + 1)
    ensures Pow2(32 * pos + n) <= Val(d) < Pow2(32 * pos + n + 1)
  {
    hide Val, Pow, Pow2, Modulus;
    ValCut(d, pos + 1);
    ValZero(d[pos + 1..]);
    ValTake(d, pos);
    ValBound(d[..pos]);
    ModulusIsPower(pos);
    Pow2Shift(pos, n);
    Pow2Shift(pos, n + 1);
    assert 32 * pos + (n + 1) == 32 * pos + n + 1;
    TopTerms(Pow(B, pos), Val(d[..pos]), d[pos], Pow2(n), Pow2(n + 1));
  }

  lemma TopTerms(p: nat, v: nat, x: nat, lo: nat, hi: nat)
    requires v < p && lo <= x < hi
    ensures lo * p <= v + p * x < hi * p
  {
    MulMono(lo, x, p, p);
    MulMono(x + 1, hi, p, p);
    MulSucc(p, x);
  }

  // ----- the bits of a quotient -----

  /** No bit of q at or below the place is set. */
  ghost predicate Clear(q: seq<nat>, place: int)
    requires -1 <= place < 32 * |q|
  {
    place >= 0 ==>
      && (forall p :: 0 <= p < place / 32 ==> q[p] == 0)
      && q[place / 32] % Pow2(place % 32 + 1) == 0
  }

  lemma ClearZero(q: seq<nat>, place: int)
    requires -1 <= place < 32 * |q| && forall p :: 0 <= p < |q| ==> q[p] == 0
    ensures Clear(q, place)
  {
    hide Pow2;
    if place >= 0 {
      MultipleOf(Pow2(place % 32 + 1), 0);
    }
  }

  lemma HalfClear(x: nat, b: nat)
    requires x % Pow2(b + 1) == 0
    ensures x % Pow2(b) == 0 && (x + Pow2(b)) % Pow2(b) == 0
  {
    var p := Pow2(b);
    var k := x / Pow2(b + 1);
    assert x == p * (2 * k);
    MultipleOf(p, 2 * k);
    assert x + p == p * (2 * k + 1);
    MultipleOf(p, 2 * k + 1);
  }

  lemma ClearBelow(q: seq<nat>, place: int, limb: nat)
    requires 0 <= place < 32 * |q| && Clear(q, place)
    requires limb == q[place / 32] || limb == q[place / 32] + Pow2(place % 32)
    ensures Clear(q[place / 32 := limb], place - 1)
  {
    hide Pow2;
    var p, b := place / 32, place % 32;
    if b == 0 {
      assert place > 0 ==> (place - 1) / 32 == p - 1 && (place - 1) % 32 == 31;
    } else {
      assert (place - 1) / 32 == p && (place - 1) % 32 == b - 1;
      HalfClear(q[p], b);
    }
  }

  /** Or-ing a bit into a clear place adds the power of two. */
  lemma SetBit(q: seq<nat>, p: nat, b: nat)
    requires p < |q| && b < 32 && AreLimbs(q) && q[p] % Pow2(b + 1) == 0
    ensures Or(q[p], Pow2(b)) == q[p] + Pow2(b) < B
    ensures Val(q[p := q[p] + Pow2(b)]) == Val(q) + Pow2(32 * p + b)
  {
    hide Val, Pow, Pow2, Or;
    var t := Pow2(b);
    Doubles(b);
    OrDisjoint(q[p], t, b + 1);
    BitFits(q[p], b);
    AddAt(q, p, t);
    Pow2Shift(p, b);
  }

  lemma AddAt(q: seq<nat>, p: nat, x: nat)
    requires p < |q|
    ensures Val(q[p := q[p] + x]) == Val(q) + x * Pow(B, p)
  {
    hide Val, Pow;
    var next := q[p := q[p] + x];
    assert next[..p] == q[..p] && next[p + 1..] == q[p + 1..];
    ValCut(q, p + 1);
    ValCut(next, p + 1);
    ValTake(q, p);
    ValTake(next, p);
    AddTerms(Pow(B, p), q[p], x);
  }

  lemma AddTerms(p: nat, a: nat, x: nat)
    ensures p * (a + x) == p * a + x * p
  {
  }

  lemma BitFits(x: nat, b: nat)
    requires b < 32 && x < B && x % Pow2(b + 1) == 0
    ensures x + Pow2(b) < B
  {
    hide Pow2;
    Pow2Rest(b + 1);
    var p, q := Pow2(b + 1), Pow2(32 - (b + 1));
    var k := x / p;
    DivBelow(x, p, q);
    MulMono(p, p, k + 1, q);
    MulSucc(p, k);
    assert Pow2(b) < p by { Doubles(b); }
  }

  lemma Doubles(b: nat)
    ensures Pow2(b + 1) == 2 * Pow2(b)
  {
  }

  // ----- long division -----

  /**
  The state of the division when the quotient's bits above the place are decided:
  what is left of the dividend, the quotient so far, and the divisor moved up to the place.
  */
  ghost predicate Dividing(a: nat, b: nat, num: nat, q: nat, place: int) {
    && place >= -1 && b > 0 && num + q * b == a && num < b * Pow2(place + 1)
  }

  lemma DividingStart(a: nat, b: nat, m: nat, n: nat)
    requires n <= m && a < Pow2(m) && n > 0 && Pow2(n - 1) <= b < Pow2(n)
    ensures Dividing(a, b, a, 0, m - n) && b * Pow2(m - n) < Pow2(m)
  {
    hide Pow2;
    Pow2Add(n - 1, m - n + 1);
    assert n - 1 + (m - n + 1) == m;
    MulMono(Pow2(n - 1), b, Pow2(m - n + 1), Pow2(m - n + 1));
    Pow2Add(n, m - n);
    assert n + (m - n) == m;
    MulMono(b + 1, Pow2(n), Pow2(m - n), Pow2(m - n));
    assert (b + 1) * Pow2(m - n) == b * Pow2(m - n) + Pow2(m - n);
  }

  /** One bit: subtract and set it if the moved divisor fits. */
  lemma DividingStep(a: nat, b: nat, num: nat, q: nat, place: nat)
    requires Dividing(a, b, num, q, place)
    ensures num >= b * Pow2(place) ==> Dividing(a, b, num - b * Pow2(place), q + Pow2(place), place - 1)
    ensures num < b * Pow2(place) ==> Dividing(a, b, num, q, place - 1)
  {
    hide Pow2;
    Doubles(place);
    var d := Pow2(place);
    assert b * (2 * d) == 2 * (b * d);
    assert (q + d) * b == q * b + b * d;
  }

  lemma DividingEnd(a: nat, b: nat, num: nat, q: nat)
    requires Dividing(a, b, num, q, -1)
    ensures q == a / b && num == a % b
  {
    assert Pow2(0) == 1;
    assert b * 1 == b;
    assert a == num + b * q;
    DivIs(q, num, b, a);
  }

  /** Moving the divisor down by one place is exact. */
  lemma HalfDivisor(b: nat, place: nat)
    requires place > 0
    ensures b * Pow2(place) / Pow2(1) == b * Pow2(place - 1)
  {
    Doubles(place - 1);
    assert b * Pow2(place) == 2 * (b * Pow2(place - 1));
  }
}
