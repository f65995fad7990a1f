/** Numbers as sequences of 32-bit limbs, least significant first, and the arithmetic their loops rest on. */
module Limbs {
  import opened Powers

  const B: nat := 0x1_0000_0000

  predicate AreLimbs(d: seq<nat>) {
    forall i :: 0 <= i < |d| ==> d[i] < B
  }

  function Val(d: seq<nat>): nat {
    if d == [] then 0 else Val(d[..|d| - 1]) + Pow(B, |d| - 1) * d[|d| - 1]
  }

  /** The modulus of w limbs. */
  function Modulus(w: nat): (m: nat)
    ensures m > 0
  {
    PowPositive(B, w);
    Pow(B, w)
  }

  lemma ValSnoc(d: seq<nat>, x: nat)
    ensures Val(d + [x]) == Val(d) + Pow(B, |d|) * x
  {
    assert (d + [x])[..|d|] == d;
  }

  /** The value up to a place, one limb more. */
  lemma ValTake(d: seq<nat>, i: nat)
    requires i < |d|
    ensures Val(d[..i + 1]) == Val(d[..i]) + Pow(B, i) * d[i]
  {
    assert d[..i + 1] == d[..i] + [d[i]];
    ValSnoc(d[..i], d[i]);
  }

  lemma {:induction false} ValAppend(d: seq<nat>, e: seq<nat>)
    ensures Val(d + e) == Val(d) + Pow(B, |d|) * Val(e)
  {
    if e == [] {
      assert d + e == d;
    } else {
      var n := |e| - 1;
      ValAppend(d, e[..n]);
      assert (d + e)[..|d + e| - 1] == d + e[..n];
      PowAdd(B, |d|, n);
      Distribute(Pow(B, |d|), Val(e[..n]), Pow(B, n), e[n]);
    }
  }

  lemma ValCut(d: seq<nat>, i: nat)
    requires i <= |d|
    ensures Val(d) == Val(d[..i]) + Pow(B, i) * Val(d[i..])
  {
    assert d == d[..i] + d[i..];
    ValAppend(d[..i], d[i..]);
  }

  lemma Distribute(p: nat, a: nat, q: nat, x: nat)
    ensures p * (a + q * x) == p * a + (p * q) * x
  {
    assert p * (q * x) == (p * q) * x;
  }

  lemma {:induction false} ValBound(d: seq<nat>)
    requires AreLimbs(d)
    ensures Val(d) < Modulus(|d|)
  {
    if d != [] {
      var n := |d| - 1;
      ValBound(d[..n]);
      MulMono(Pow(B, n), Pow(B, n), d[n] + 1, B);
      assert Pow(B, n) * (d[n] + 1) == Pow(B, n) * d[n] + Pow(B, n);
    }
  }

  lemma {:induction false} ValZero(d: seq<nat>)
    requires forall i :: 0 <= i < |d| ==> d[i] == 0
    ensures Val(d) == 0
  {
    if d != [] {
      ValZero(d[..|d| - 1]);
    }
  }

  lemma {:induction false} ZeroVal(d: seq<nat>)
    requires Val(d) == 0
    ensures forall i :: 0 <= i < |d| ==> d[i] == 0
  {
    if d != [] {
      var n := |d| - 1;
      PowPositive(B, n);
      if d[n] > 0 { MulMono(1, Pow(B, n), 1, d[n]); }
      ZeroVal(d[..n]);
      assert forall i :: 0 <= i < n ==> d[i] == d[..n][i];
    }
  }

  lemma AtLeast(k: int, m: int)
    requires k >= 1 && m > 0
    ensures k * m >= m
  {
  }

  lemma SmallMultiple(k: int, m: int)
    requires m > 0 && 0 - m < k * m < m
    ensures k == 0
  {
    if k > 0 {
      AtLeast(k, m);
    } else if k < 0 {
      AtLeast(-k, m);
    }
  }

  /** A number below the modulus that agrees with another up to multiples of it is the remainder. */
  lemma ModIs(v: nat, over: int, m: nat, t: int)
    requires v < m && v + over * m == t
    ensures t % m == v
  {
    var q, r := t / m, t % m;
    assert t == q * m + r;
    assert (over - q) * m == r - v;
    SmallMultiple(over - q, m);
  }

  // ----- bits -----

  /** Bitwise or. */
  function Or(x: nat, y: nat): nat
    decreases x + y
  {
    if x == 0 && y == 0 then 0 else
    2 * Or(x / 2, y / 2) + (if x % 2 == 1 || y % 2 == 1 then 1 else 0)
  }

  /** Or of numbers without common bits is their sum. */
  lemma {:induction false} OrDisjoint(x: nat, y: nat, r: nat)
    requires x % Pow2(r) == 0 && y < Pow2(r)
    ensures Or(x, y) == x + y && Or(y, x) == x + y
  {
    if x == 0 && y == 0 {
    } else if r == 0 {
      OrZero(x);
    } else {
      HalfMultiple(x, Pow2(r - 1));
      OrDisjoint(x / 2, y / 2, r - 1);
    }
  }

  lemma {:induction false} OrZero(x: nat)
    ensures Or(x, 0) == x && Or(0, x) == x
  {
    if x > 0 {
      OrZero(x / 2);
    }
  }

  lemma HalfMultiple(x: nat, p: nat)
    requires p > 0 && x % (2 * p) == 0
    ensures x % 2 == 0 && (x / 2) % p == 0
  {
    var q := x / (2 * p);
    assert x == (2 * p) * q;
    assert x == 2 * (p * q);
    MultipleOf(p, q);
  }

  lemma MultipleOf(p: nat, q: nat)
    requires p > 0
    ensures (p * q) % p == 0 && (p * q) / p == q
  {
    var d, r := (p * q) / p, (p * q) % p;
    assert p * q == p * d + r;
    assert p * (q - d) == r;
    SmallMultiple(q - d, p);
  }
}
