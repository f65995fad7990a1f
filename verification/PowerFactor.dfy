/**
How near the factor of a target's fraction is to the power of two it stands for. Powers with a fraction
are compared by their 65536th powers, that is squared sixteen times.
*/
module PowerFactor {
  import opened Powers
  import opened Retarget
  import LimbShifts

  /** A number squared k times, its 2^k-th power. */
  ghost function Squared(x: real, k: nat): real {
    if k == 0 then x else Squared(x, k - 1) * Squared(x, k - 1)
  }

  /** The factor of a fraction, as a number between one and two. */
  ghost function Near(f: nat): real {
    Factor(f) as real / 65536.0
  }

  // ----- the cubic with short coefficients -----

  ghost function Second(x: real): real {
    x * x
  }

  ghost function Third(x: real): real {
    x * x * x
  }

  ghost function Short(x: real): real {
    1.0 + 0.6955 * x + 0.22627 * Second(x) + 0.07823 * Third(x)
  }

  lemma RealPowers(f: nat, x: real)
    requires x == f as real / 65536.0
    ensures Square(f) as real == 4294967296.0 * Second(x)
    ensures Cube(f) as real == 281474976710656.0 * Third(x)
  {
    hide Square, Cube;
    SquareIs(f);
    CubeIs(f);
    var r := f as real;
    RealProduct(f, f);
    RealProduct(f, f * f);
    Rescale(x, r);
  }

  lemma RealProduct(a: nat, b: nat)
    ensures (a * b) as real == a as real * b as real
  {
  }

  lemma Rescale(x: real, r: real)
    requires r == 65536.0 * x
    ensures r * r == 4294967296.0 * (x * x) && r * (r * r) == 281474976710656.0 * (x * x * x)
  {
    assert r * r == 65536.0 * (x * r);
    assert x * r == 65536.0 * (x * x);
    assert r * (r * r) == r * (4294967296.0 * (x * x)) == 4294967296.0 * (r * (x * x));
    assert r * (x * x) == 65536.0 * (x * (x * x));
  }

  /** A product with a number from nothing to one. */
  lemma Shrinks(x: real, c: real)
    requires 0.0 <= x <= 1.0 && 0.0 <= c
    ensures 0.0 <= x * c <= c
  {
  }

  lemma UnitPowers(x: real)
    requires 0.0 <= x <= 1.0
    ensures 0.0 <= Third(x) <= Second(x) <= x
  {
    Shrinks(x, x);
    Shrinks(x, x * x);
    assert x * x * x == x * (x * x);
  }

  /** Rounding to a whole number and to short coefficients, as the sum of four terms. */
  lemma Rounded(q: nat, n: nat, x: real, x2: real, x3: real)
    requires 0.0 <= x3 <= x2 <= x <= 1.0
    requires q * 0x1_0000_0000_0000 <= n < (q + 1) * 0x1_0000_0000_0000
    requires n as real == 195766423245049.0 * 65536.0 * x + 971821376.0 * 4294967296.0 * x2
                          + 5127.0 * 281474976710656.0 * x3 + 140737488355328.0
    ensures var near, short := (65536 + q) as real / 65536.0, 1.0 + 0.6955 * x + 0.22627 * x2 + 0.07823 * x3;
      short - 0.00002 <= near <= short + 0.00002
  {
  }

  /** The factor is within two parts in a hundred thousand of the cubic with short coefficients. */
  lemma NearShort(f: nat)
    requires f <= 65536
    ensures var x := f as real / 65536.0;
      Short(x) - 0.00002 <= Near(f) <= Short(x) + 0.00002
  {
    hide Square, Cube, Second, Third;
    var n := Cubic(f);
    var q := n / 0x1_0000_0000_0000;
    var x := f as real / 65536.0;
    RealPowers(f, x);
    UnitPowers(x);
    RealSum(f, Square(f), Cube(f), n);
    Rounded(q, n, x, Second(x), Third(x));
  }

  lemma RealSum(f: nat, square: nat, cube: nat, n: nat)
    requires n == 195766423245049 * f + 971821376 * square + 5127 * cube + 0x8000_0000_0000
    ensures n as real == 195766423245049.0 * f as real + 971821376.0 * square as real + 5127.0 * cube as real
                         + 140737488355328.0
  {
  }

  // ----- squaring the cubic doubles its argument, nearly -----

  /** The powers of a number up to the sixth. */
  ghost predicate PowersOf(x: real, x2: real, x3: real, x4: real, x5: real, x6: real) {
    && x2 == x * x && x3 == x * x2 && x4 == x * x3 && x4 == x2 * x2 && x5 == x2 * x3 && x6 == x3 * x3
    && x5 == x * x4 && x6 == x * x5
  }

  lemma AllPowers(x: real, x2: real, x3: real)
    requires x2 == x * x && x3 == x * x2
    ensures PowersOf(x, x2, x3, x2 * x2, x2 * x3, x3 * x3)
  {
    assert x * x3 == x * (x * x2) == x * x * x2;
    assert x * (x2 * x2) == (x * x2) * x2;
    assert x * (x2 * x3) == (x * x2) * x3;
  }

  lemma PowersShrink(x: real, x2: real, x3: real, x4: real, x5: real, x6: real)
    requires PowersOf(x, x2, x3, x4, x5, x6) && 0.0 <= x <= 1.0
    ensures 0.0 <= x6 <= x5 <= x4 <= x3 <= x2 <= x
  {
    Shrinks(x, x);
    Shrinks(x, x2);
    Shrinks(x, x3);
    Shrinks(x2, x3);
    Shrinks(x3, x3);
    Ordered(x2, x, x3);
    Ordered(x3, x2, x3);
  }

  lemma Ordered(a: real, b: real, c: real)
    requires a <= b && 0.0 <= c
    ensures a * c <= b * c
  {
  }

  lemma ShortSquared(x: real, x2: real, x3: real, x4: real, x5: real, x6: real)
    requires PowersOf(x, x2, x3, x4, x5, x6)
    ensures var s := 1.0 + 0.6955 * x + 0.22627 * x2 + 0.07823 * x3;
      Second(s) == 1.0 + 1.391 * x + 0.93626025 * x2 + 0.47120157 * x3 + 0.1600160429 * x4 + 0.0354022042 * x5
               + 0.0061199329 * x6
  {
    var s := 1.0 + 0.6955 * x + 0.22627 * x2 + 0.07823 * x3;
    assert s * s == s + 0.6955 * (x * s) + 0.22627 * (x2 * s) + 0.07823 * (x3 * s);
    assert x * s == x + 0.6955 * x2 + 0.22627 * x3 + 0.07823 * x4;
    assert x2 * s == x2 + 0.6955 * (x2 * x) + 0.22627 * x4 + 0.07823 * x5;
    assert x3 * s == x3 + 0.6955 * (x3 * x) + 0.22627 * (x3 * x2) + 0.07823 * x6;
  }

  /** The same for the cubic halfway between a number and one. */
  lemma HalfwaySquared(x: real, x2: real, x3: real, x4: real, x5: real, x6: real)
    requires PowersOf(x, x2, x3, x4, x5, x6)
    ensures var s := 1.41409625 + 0.49022125 * x + 0.08590375 * x2 + 0.00977875 * x3;
      Second(s) == 1.9996682042640625 + 1.386440062590625 * x + 0.4832692154234375 * x2 + 0.11187987481875 * x3
               + 0.0169669563609375 * x4 + 0.001680062590625 * x5 + 0.0000956239515625 * x6
  {
    var s := 1.41409625 + 0.49022125 * x + 0.08590375 * x2 + 0.00977875 * x3;
    assert s * s == 1.41409625 * s + 0.49022125 * (x * s) + 0.08590375 * (x2 * s) + 0.00977875 * (x3 * s);
    assert x * s == 1.41409625 * x + 0.49022125 * x2 + 0.08590375 * x3 + 0.00977875 * x4;
    assert x2 * s == 1.41409625 * x2 + 0.49022125 * (x2 * x) + 0.08590375 * x4 + 0.00977875 * x5;
    assert x3 * s == 1.41409625 * x3 + 0.49022125 * (x3 * x) + 0.08590375 * (x3 * x2) + 0.00977875 * x6;
  }

  lemma Halfway(x: real, x2: real, x3: real, x4: real, x5: real, x6: real, y: real)
    requires PowersOf(x, x2, x3, x4, x5, x6) && y == (1.0 + x) / 2.0
    ensures Short(y) == 1.41409625 + 0.49022125 * x + 0.08590375 * x2 + 0.00977875 * x3
  {
    assert y * y == 0.25 + 0.5 * x + 0.25 * x2;
    assert y * (y * y) == 0.125 + 0.375 * x + 0.375 * x2 + 0.125 * x3 by {
      assert x * (y * y) == 0.25 * x + 0.5 * x2 + 0.25 * x3;
    }
    assert y * y * y == y * (y * y);
  }

  lemma ShortTwice(x: real, x2: real, x3: real, x4: real, x5: real, x6: real)
    requires PowersOf(x, x2, x3, x4, x5, x6)
    ensures Short(2.0 * x) == 1.0 + 1.391 * x + 0.90508 * x2 + 0.62584 * x3
    ensures Short(x) == 1.0 + 0.6955 * x + 0.22627 * x2 + 0.07823 * x3
  {
    var y := 2.0 * x;
    assert y * y == 4.0 * x2;
    assert y * y * y == 8.0 * x3;
    assert x * x * x == x3;
  }

  /** A square times a number that is not negative is not negative. */
  lemma Dip(x: real, x2: real, x3: real, t: real)
    requires x2 == x * x && x3 == x * x2 && 0.0 <= x
    ensures x3 >= 2.0 * t * x2 - t * t * x
  {
    var u := x - t;
    assert u * u >= 0.0;
    assert x * (u * u) >= 0.0;
    assert u * u == x2 - 2.0 * t * x + t * t;
    assert x * (u * u) == x * x2 - 2.0 * t * (x * x) + t * t * x;
  }

  lemma Dips(x: real, x2: real, x3: real, x4: real, x5: real, x6: real, t: real, u: real)
    requires PowersOf(x, x2, x3, x4, x5, x6) && 0.0 <= x
    ensures x3 >= 2.0 * t * x2 - t * t * x && x4 >= 2.0 * u * x3 - u * u * x2
  {
    Dip(x, x2, x3, t);
    Dip2(x, x2, x3, x4, u);
  }

  lemma PowersHalve(x: real, x2: real, x3: real, x4: real, x5: real, x6: real)
    requires PowersOf(x, x2, x3, x4, x5, x6) && 0.0 <= x <= 0.5 && 0.0 <= x6 <= x5 <= x4 <= x3 <= x2 <= x
    ensures x2 <= 0.5 * x && x3 <= 0.5 * x2 && x4 <= 0.5 * x3 && x5 <= 0.5 * x4 && x6 <= 0.5 * x5
  {
    HalfOf(x, x, x2);
    HalfOf(x, x2, x3);
    HalfOf(x, x3, x4);
    HalfOf(x, x4, x5);
    HalfOf(x, x5, x6);
  }

  lemma HalfOf(x: real, c: real, p: real)
    requires 0.0 <= x <= 0.5 && 0.0 <= c && p == x * c
    ensures p <= 0.5 * c
  {
    Ordered(x, 0.5, c);
  }

  lemma FirstHalfSum(x: real, x2: real, x3: real, x4: real, x5: real, x6: real)
    requires 0.0 <= x <= 0.5 && 0.0 <= x2 <= 0.5 * x && 0.0 <= x3 <= 0.5 * x2 && 0.0 <= x4 <= 0.5 * x3
    requires 0.0 <= x5 <= 0.5 * x4 && 0.0 <= x6 <= 0.5 * x5
    requires x3 >= 0.48 * x2 - 0.0576 * x && x4 >= 0.96 * x3 - 0.2304 * x2
    ensures var d := 0.03118025 * x2 - 0.15463843 * x3 + 0.1600160429 * x4 + 0.0354022042 * x5 + 0.0061199329 * x6;
      -0.0018 <= d <= 0.00189 + 0.00278 * x
  {
  }

  lemma Dip2(x: real, x2: real, x3: real, x4: real, t: real)
    requires x2 == x * x && x3 == x * x2 && x4 == x * x3 && 0.0 <= x
    ensures x4 >= 2.0 * t * x3 - t * t * x2
  {
    Dip(x, x2, x3, t);
    var low := 2.0 * t * x2 - t * t * x;
    Ordered(low, x3, x);
    assert low * x == 2.0 * t * (x2 * x) - t * t * (x * x);
  }

  lemma SecondHalfSum(x: real, x2: real, x3: real, x4: real, x5: real, x6: real)
    requires 0.0 <= x6 <= x5 <= x4 <= x3 <= x2 <= x <= 1.0
    requires x3 >= 1.2 * x2 - 0.36 * x && x4 >= 2.0 * x3 - x2
    ensures var d := -0.0003317957359375 - 0.004559937409375 * x + 0.0307292154234375 * x2 - 0.04458012518125 * x3
                     + 0.0169669563609375 * x4 + 0.001680062590625 * x5 + 0.0000956239515625 * x6;
      -0.00387 - 0.00276 * x <= d <= 0.00387 + 0.00276 * x
  {
  }

  // ----- the same, with the powers as functions of their base -----

  ghost function Power(x: real, n: nat): real {
    if n == 0 then 1.0 else x * Power(x, n - 1)
  }

  lemma PowerStep(x: real, n: nat)
    ensures Power(x, n + 1) == x * Power(x, n) && Power(x, 1) == x
  {
  }

  lemma PowersForm(x: real)
    ensures PowersOf(x, Power(x, 2), Power(x, 3), Power(x, 4), Power(x, 5), Power(x, 6))
  {
    hide Power;
    PowerStep(x, 1);
    PowerStep(x, 2);
    PowerStep(x, 3);
    PowerStep(x, 4);
    PowerStep(x, 5);
    PowersAre(x, Power(x, 2), Power(x, 3), Power(x, 4), Power(x, 5), Power(x, 6));
  }

  lemma PowersAre(x: real, x2: real, x3: real, x4: real, x5: real, x6: real)
    requires x2 == x * x && x3 == x * x2 && x4 == x * x3 && x5 == x * x4 && x6 == x * x5
    ensures PowersOf(x, x2, x3, x4, x5, x6)
  {
    AllPowers(x, x2, x3);
  }

  lemma FirstDips(x: real)
    requires 0.0 <= x <= 0.5
    ensures 0.0 <= Power(x, 2) <= 0.5 * x && 0.0 <= Power(x, 3) <= 0.5 * Power(x, 2)
    ensures 0.0 <= Power(x, 4) <= 0.5 * Power(x, 3) && 0.0 <= Power(x, 5) <= 0.5 * Power(x, 4)
    ensures 0.0 <= Power(x, 6) <= 0.5 * Power(x, 5)
    ensures Power(x, 3) >= 0.48 * Power(x, 2) - 0.0576 * x
    ensures Power(x, 4) >= 0.96 * Power(x, 3) - 0.2304 * Power(x, 2)
  {
    hide Power, PowersOf;
    PowersForm(x);
    PowersShrink(x, Power(x, 2), Power(x, 3), Power(x, 4), Power(x, 5), Power(x, 6));
    PowersHalve(x, Power(x, 2), Power(x, 3), Power(x, 4), Power(x, 5), Power(x, 6));
    Dips(x, Power(x, 2), Power(x, 3), Power(x, 4), Power(x, 5), Power(x, 6), 0.24, 0.48);
  }

  lemma SecondDips(x: real)
    requires 0.0 <= x <= 1.0
    ensures 0.0 <= Power(x, 6) <= Power(x, 5) <= Power(x, 4) <= Power(x, 3) <= Power(x, 2) <= x
    ensures Power(x, 3) >= 1.2 * Power(x, 2) - 0.36 * x && Power(x, 4) >= 2.0 * Power(x, 3) - Power(x, 2)
  {
    hide Power, PowersOf;
    PowersForm(x);
    PowersShrink(x, Power(x, 2), Power(x, 3), Power(x, 4), Power(x, 5), Power(x, 6));
    Dips(x, Power(x, 2), Power(x, 3), Power(x, 4), Power(x, 5), Power(x, 6), 0.6, 1.0);
  }

  lemma ShortPowers(x: real, twice: real, half: real)
    requires twice == 2.0 * x && half == (1.0 + x) / 2.0
    ensures Short(x) == 1.0 + 0.6955 * x + 0.22627 * Power(x, 2) + 0.07823 * Power(x, 3)
    ensures Short(twice) == 1.0 + 1.391 * x + 0.90508 * Power(x, 2) + 0.62584 * Power(x, 3)
    ensures Short(half) == 1.41409625 + 0.49022125 * x + 0.08590375 * Power(x, 2) + 0.00977875 * Power(x, 3)
  {
    hide Power, Short, PowersOf;
    PowersForm(x);
    ShortTwice(x, Power(x, 2), Power(x, 3), Power(x, 4), Power(x, 5), Power(x, 6));
    Halfway(x, Power(x, 2), Power(x, 3), Power(x, 4), Power(x, 5), Power(x, 6), half);
  }

  // ----- the factor squared -----

  /** Where squaring leads: twice the fraction, less a whole number that makes one more doubling. */
  function Twice(f: nat): (nat, nat) {
    if 2 * f < 65536 then (2 * f, 0) else (2 * f - 65536, 1)
  }

  lemma SquareNear(g: real, s: real)
    requires 1.0 <= s <= 2.0001 && s - 0.00002 <= g <= s + 0.00002
    ensures Second(s) - 0.0000801 <= Second(g) <= Second(s) + 0.0000801
  {
    var e := g - s;
    assert g * g == s * s + 2.0 * (e * s) + e * e;
    assert -0.00002 * s <= e * s <= 0.00002 * s;
    assert 0.0 <= e * e <= 0.0000000004;
  }

  lemma ShortGrows(x: real)
    requires 0.0 <= x <= 1.0
    ensures 1.0 + 0.6955 * x <= Short(x) <= 2.0001
  {
    hide Second, Third;
    UnitPowers(x);
  }

  lemma DoublingLow(f: nat)
    requires 2 * f < 65536
    ensures 0.998 * (1.0 * Near(2 * f)) <= Second(Near(f)) <= 1.002 * (1.0 * Near(2 * f))
  {
    hide Near, Short, Second, Power, PowersOf;
    var x, y := f as real / 65536.0, (2 * f) as real / 65536.0;
    NearShort(f);
    NearShort(2 * f);
    ShortGrows(x);
    ShortGrows(y);
    SquareNear(Near(f), Short(x));
    PowersForm(x);
    ShortPowers(x, y, (1.0 + x) / 2.0);
    ShortSquared(x, Power(x, 2), Power(x, 3), Power(x, 4), Power(x, 5), Power(x, 6));
    FirstDips(x);
    FirstHalfSum(x, Power(x, 2), Power(x, 3), Power(x, 4), Power(x, 5), Power(x, 6));
    NearOnce(x, Second(Short(x)), Second(Near(f)), Short(y), Near(2 * f));
  }

  lemma DoublingHigh(f: nat, h: nat)
    requires 65536 <= 2 * f == 65536 + h && h < 65536
    ensures 0.998 * (2.0 * Near(h)) <= Second(Near(f)) <= 1.002 * (2.0 * Near(h))
  {
    hide Near, Short, Second, Power, PowersOf;
    var x, y := f as real / 65536.0, h as real / 65536.0;
    NearShort(f);
    NearShort(h);
    ShortGrows(x);
    ShortGrows(y);
    SquareNear(Near(f), Short(x));
    PowersForm(y);
    ShortPowers(y, 2.0 * y, x);
    HalfwaySquared(y, Power(y, 2), Power(y, 3), Power(y, 4), Power(y, 5), Power(y, 6));
    SecondDips(y);
    SecondHalfSum(y, Power(y, 2), Power(y, 3), Power(y, 4), Power(y, 5), Power(y, 6));
    NearTwice(y, Second(Short(x)), Second(Near(f)), Short(y), Near(h));
  }

  /** The factor squared is the factor of twice the fraction, but for at most one part in five hundred. */
  lemma Doubling(f: nat)
    requires f < 65536
    ensures var (h, b) := Twice(f); var to := (if b == 0 then 1.0 else 2.0) * Near(h);
      0.998 * to <= Second(Near(f)) <= 1.002 * to
  {
    hide Near, Second;
    if 2 * f < 65536 { DoublingLow(f); } else { DoublingHigh(f, 2 * f - 65536); }
  }

  lemma NearOnce(x: real, ss: real, gg: real, s: real, h: real)
    requires ss - 0.0000801 <= gg <= ss + 0.0000801 && s - 0.00002 <= h <= s + 0.00002
    requires 0.0 <= x && 1.0 + 1.391 * x <= s && -0.0018 <= ss - s <= 0.00189 + 0.00278 * x
    ensures 0.998 * (1.0 * h) <= gg <= 1.002 * (1.0 * h)
  {
  }

  lemma NearTwice(x: real, ss: real, gg: real, s: real, h: real)
    requires ss - 0.0000801 <= gg <= ss + 0.0000801 && s - 0.00002 <= h <= s + 0.00002
    requires 0.0 <= x && 1.0 + 0.6955 * x <= s && -0.00387 - 0.00276 * x <= ss - 2.0 * s <= 0.00387 + 0.00276 * x
    ensures 0.998 * (2.0 * h) <= gg <= 1.002 * (2.0 * h)
  {
  }

  // ----- sixteen squarings -----

  ghost function TwoTo(n: nat): real {
    Pow2(n) as real
  }

  /** The fraction after k doublings, and the whole part it has gathered. */
  function Doubled(f: nat, k: nat): (r: (nat, nat))
    requires f < 65536
    ensures r.0 < 65536 && r.0 + 65536 * r.1 == f * Pow2(k)
  {
    if k == 0 then (f, 0) else
    var (h, c) := Doubled(f, k - 1);
    var (h', b) := Twice(h);
    (h', 2 * c + b)
  }

  /** A bound for the error of k squarings, each with the error e: its power with exponent 2^k - 1. */
  ghost function Drift(e: real, k: nat): real {
    if k == 0 then 1.0 else Drift(e, k - 1) * Drift(e, k - 1) * e
  }

  lemma {:induction false} DriftIs(e: real, k: nat)
    requires e > 0.0
    ensures Drift(e, k) > 0.0 && Drift(e, k) * e == Squared(e, k)
  {
    if k > 0 {
      DriftIs(e, k - 1);
      var d := Drift(e, k - 1);
      assert Squared(e, k) == (d * e) * (d * e) == d * d * e * e;
    }
  }

  lemma TwoToDoubles(c: nat, b: nat)
    requires b <= 1
    ensures TwoTo(c) * TwoTo(c) * (if b == 0 then 1.0 else 2.0) == TwoTo(2 * c + b) && TwoTo(c) > 0.0
  {
    LimbShifts.Pow2Add(c, c);
    RealProduct(Pow2(c), Pow2(c));
  }

  lemma NearPositive(f: nat)
    ensures Near(f) >= 1.0
  {
  }

  ghost function Product(m: real, p: real, g: real): real {
    m * p * g
  }

  /** One squaring of an upper bound. */
  lemma SquareAbove(z: real, m: real, p: real, g: real, b: real, h: real, m': real, p': real)
    requires 0.0 <= z <= Product(m, p, g) && m > 0.0 && p > 0.0 && Second(g) <= 1.002 * (b * h)
    requires m' == m * m * 1.002 && p' == p * p * b
    ensures Second(z) <= Product(m', p', h)
  {
    var t := m * p * g;
    assert z * z <= t * t by { Ordered(z, t, z); Ordered(z, t, t); }
    Reorder(m, p, g, 1.002 * (b * h));
    Ordered(g * g, 1.002 * (b * h), (m * m) * (p * p));
    Factors(m * m, p * p, 1.002, b, h);
  }

  lemma SquareBelow(z: real, m: real, p: real, g: real, b: real, h: real, m': real, p': real)
    requires 0.0 <= Product(m, p, g) <= z && m > 0.0 && p > 0.0 && 0.998 * (b * h) <= Second(g)
    requires m' == m * m * 0.998 && p' == p * p * b
    ensures Product(m', p', h) <= Second(z)
  {
    var t := m * p * g;
    assert t * t <= z * z by { Ordered(t, z, t); Ordered(t, z, z); }
    Reorder(m, p, g, 0.998 * (b * h));
    Ordered(0.998 * (b * h), g * g, (m * m) * (p * p));
    Factors(m * m, p * p, 0.998, b, h);
  }

  lemma Reorder(m: real, p: real, g: real, u: real)
    ensures (m * p * g) * (m * p * g) == (g * g) * ((m * m) * (p * p))
    ensures 0.0 <= (m * m) * (p * p)
  {
    assert (m * p * g) * (m * p * g) == (m * p) * (m * p) * (g * g);
    assert (m * p) * (m * p) == (m * m) * (p * p);
  }

  lemma Factors(m: real, p: real, e: real, b: real, h: real)
    ensures (e * (b * h)) * (m * p) == (m * e) * (p * b) * h
  {
    assert (e * (b * h)) * (m * p) == (e * m) * (b * h * p);
    assert b * h * p == p * b * h;
  }

  /** The factor squared k times is a power of two times the factor of what is left, but for the drift. */
  ghost predicate Within(f: nat, k: nat)
    requires f < 65536
  {
    var (h, c) := Doubled(f, k);
    && Product(Drift(0.998, k), TwoTo(c), Near(h)) <= Squared(Near(f), k)
    && Squared(Near(f), k) <= Product(Drift(1.002, k), TwoTo(c), Near(h))
  }

  lemma {:induction false} SquaredNear(f: nat, k: nat)
    requires f < 65536
    ensures Within(f, k)
  {
    hide Within;
    if k == 0 {
      NotSquared(f);
    } else {
      SquaredNear(f, k - 1);
      SquaredOnce(f, k - 1);
    }
  }

  lemma NotSquared(f: nat)
    requires f < 65536
    ensures Within(f, 0)
  {
    hide Near, TwoTo;
    OneIsTwoToNone();
  }

  lemma SquaredStep(x: real, k: nat)
    ensures Squared(x, k + 1) == Second(Squared(x, k))
  {
  }

  lemma DriftStep(e: real, k: nat)
    ensures Drift(e, k + 1) == Drift(e, k) * Drift(e, k) * e
  {
  }

  lemma SquaredOnce(f: nat, k: nat)
    requires f < 65536 && Within(f, k)
    ensures Within(f, k + 1)
  {
    hide Near, Doubled, TwoTo, Squared, Drift, Product, Second;
    var (h, c) := Doubled(f, k);
    var (h', b) := Twice(h);
    var lo, hi, p, g, to := Drift(0.998, k), Drift(1.002, k), TwoTo(c), Near(h), if b == 0 then 1.0 else 2.0;
    DoubledStep(f, k + 1);
    SquaredStep(Near(f), k);
    DriftStep(0.998, k);
    DriftStep(1.002, k);
    Doubling(h);
    DriftPositive(0.998, k);
    DriftPositive(1.002, k);
    TwoToDoubles(c, b);
    NearPositive(h);
    Positive3(lo, p, g);
    SquareAbove(Squared(Near(f), k), hi, p, g, to, Near(h'), Drift(1.002, k + 1), TwoTo(2 * c + b));
    SquareBelow(Squared(Near(f), k), lo, p, g, to, Near(h'), Drift(0.998, k + 1), TwoTo(2 * c + b));
  }

  lemma DriftPositive(e: real, k: nat)
    requires e > 0.0
    ensures Drift(e, k) > 0.0
  {
    DriftIs(e, k);
  }

  lemma Positive3(a: real, b: real, c: real)
    requires a > 0.0 && b > 0.0 && c > 0.0
    ensures Product(a, b, c) > 0.0
  {
    assert a * b > 0.0;
  }

  lemma DoubledStep(f: nat, k: nat)
    requires f < 65536
    ensures k == 0 ==> Doubled(f, k) == (f, 0)
    ensures k > 0 ==> var (h, c) := Doubled(f, k - 1); var (h', b) := Twice(h); Doubled(f, k) == (h', 2 * c + b)
  {
  }

  lemma OneIsTwoToNone()
    ensures TwoTo(0) == 1.0
  {
  }

  lemma SixteenDoublings(f: nat)
    requires f < 65536
    ensures Doubled(f, 16) == (0, f) && Near(0) == 1.0
  {
    hide Doubled;
    assert Pow2(4) == 16;
    LimbShifts.Pow2Add(4, 4);
    LimbShifts.Pow2Add(8, 8);
  }

  /**
  The factor is within a fifth of a percent of two to the power of the fraction: with x = f / 65536, the
  65536th power of the factor is that of 2^x, which is 2^f, but for the 65536th powers of 0.998 and 1.002.
  */
  lemma FactorNearPower(f: nat)
    requires f < 65536
    ensures Squared(0.998, 16) * TwoTo(f) <= Squared(Near(f), 16) <= Squared(1.002, 16) * TwoTo(f)
  {
    hide Near, Doubled, TwoTo, Squared, Drift, Product;
    SquaredNear(f, 16);
    SixteenDoublings(f);
    DriftBounds(16);
    TwoToDoubles(f, 0);
    Widen(Squared(0.998, 16), Drift(0.998, 16), Drift(1.002, 16), Squared(1.002, 16), TwoTo(f), Near(0));
  }

  lemma DriftBounds(k: nat)
    ensures Squared(0.998, k) <= Drift(0.998, k) && Drift(1.002, k) <= Squared(1.002, k)
  {
    hide Squared, Drift;
    DriftIs(0.998, k);
    DriftIs(1.002, k);
  }

  lemma Widen(a: real, lo: real, hi: real, b: real, p: real, one: real)
    requires a <= lo && hi <= b && p >= 0.0 && one == 1.0
    ensures a * p <= Product(lo, p, one) && Product(hi, p, one) <= b * p
  {
    Ordered(a, lo, p);
    Ordered(hi, b, p);
  }

  lemma {:induction false} SquaredProduct(x: real, y: real, k: nat)
    ensures Squared(x * y, k) == Squared(x, k) * Squared(y, k)
  {
    if k > 0 {
      SquaredProduct(x, y, k - 1);
      Exchange(Squared(x, k - 1), Squared(y, k - 1));
    }
  }

  lemma Exchange(a: real, b: real)
    ensures (a * b) * (a * b) == (a * a) * (b * b)
  {
    assert (a * b) * (a * b) == a * (b * (a * b)) == a * (a * (b * b));
  }

  lemma {:induction false} SquaredStrict(x: real, y: real, k: nat)
    requires 0.0 <= x < y
    ensures 0.0 <= Squared(x, k) < Squared(y, k)
  {
    if k > 0 {
      SquaredStrict(x, y, k - 1);
      SquareStrict(Squared(x, k - 1), Squared(y, k - 1));
    }
  }

  lemma SquareStrict(a: real, b: real)
    requires 0.0 <= a < b
    ensures 0.0 <= a * a < b * b
  {
    var u := b - a;
    PositiveProduct(u, u + 2.0 * a);
    assert u * (u + 2.0 * a) == u * u + 2.0 * (u * a);
    assert b * b == (a + u) * (a + u) == a * a + 2.0 * (u * a) + u * u;
  }

  lemma PositiveProduct(u: real, v: real)
    requires u > 0.0 && v > 0.0
    ensures u * v > 0.0
  {
  }

  lemma RootAtMost(a: real, b: real, k: nat)
    requires 0.0 <= a && 0.0 <= b && Squared(a, k) <= Squared(b, k)
    ensures a <= b
  {
    hide Squared;
    if b < a { SquaredStrict(b, a, k); }
  }

  /**
  With r the number whose 65536th power is 2^f, which is 2^(f / 65536), the factor is r within a fifth of
  a percent.
  */
  lemma FactorNearRoot(f: nat, r: real)
    requires f < 65536 && r > 0.0 && Squared(r, 16) == TwoTo(f)
    ensures 0.998 * r <= Factor(f) as real / 65536.0 <= 1.002 * r
  {
    hide Near, TwoTo, Squared;
    FactorNearPower(f);
    SquaredProduct(0.998, r, 16);
    SquaredProduct(1.002, r, 16);
    NearPositive(f);
    NearIs(f);
    RootAtMost(0.998 * r, Near(f), 16);
    RootAtMost(Near(f), 1.002 * r, 16);
  }

  lemma NearIs(f: nat)
    ensures Near(f) == Factor(f) as real / 65536.0
  {
  }
}
