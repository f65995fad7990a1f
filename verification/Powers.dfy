/** Powers of naturals and the comparisons between them that sizes rest on. */
module Powers {

  function Pow2(n: nat): (r: nat)
    ensures r > 0
  {
    if n == 0 then 1 else 2 * Pow2(n - 1)
  }

  function Pow(b: nat, e: nat): nat {
    if e == 0 then 1 else b * Pow(b, e - 1)
  }

  lemma MulMono(a: nat, b: nat, c: nat, d: nat)
    requires a <= b && c <= d
    ensures a * c <= b * d
  {
    assert a * c <= b * c <= b * d;
  }

  lemma {:induction false} PowPositive(b: nat, e: nat)
    requires b > 0
    ensures Pow(b, e) > 0
  {
    if e > 0 {
      PowPositive(b, e - 1);
    }
  }

  lemma Regroup(a: nat, b: nat, c: nat)
    ensures a * (b * c) == (a * b) * c
  {
  }

  lemma {:induction false} PowAdd(b: nat, d: nat, e: nat)
    ensures Pow(b, d + e) == Pow(b, d) * Pow(b, e)
  {
    if d > 0 {
      PowAdd(b, d - 1, e);
      Regroup(b, Pow(b, d - 1), Pow(b, e));
    }
  }

  lemma {:induction false} PowPow(b: nat, d: nat, e: nat)
    ensures Pow(Pow(b, d), e) == Pow(b, d * e)
  {
    if e == 0 {
      assert d * e == 0;
    } else {
      PowPow(b, d, e - 1);
      PowAdd(b, d, d * (e - 1));
      assert d + d * (e - 1) == d * e;
    }
  }

  lemma {:induction false} PowMonoExponent(b: nat, d: nat, e: nat)
    requires b > 0 && d <= e
    ensures Pow(b, d) <= Pow(b, e)
  {
    PowAdd(b, d, e - d);
    PowPositive(b, e - d);
    PowPositive(b, d);
    MulMono(Pow(b, d), Pow(b, d), 1, Pow(b, e - d));
  }

  lemma {:induction false} PowMonoBase(a: nat, b: nat, e: nat)
    requires a <= b
    ensures Pow(a, e) <= Pow(b, e)
  {
    if e > 0 {
      PowMonoBase(a, b, e - 1);
      MulMono(a, b, Pow(a, e - 1), Pow(b, e - 1));
    }
  }

  lemma {:induction false} PowStrictBase(a: nat, b: nat, e: nat)
    requires a < b && e > 0
    ensures Pow(a, e) < Pow(b, e)
  {
    PowMonoBase(a, b, e - 1);
    PowPositive(b, e - 1);
    MulMono(a, a, Pow(a, e - 1), Pow(b, e - 1));
    assert a * Pow(b, e - 1) < b * Pow(b, e - 1);
  }

  /** Comparing powers with the same exponent compares their bases. */
  lemma PowRoot(a: nat, b: nat, e: nat)
    requires Pow(a, e) < Pow(b, e)
    ensures a < b
  {
    if b <= a {
      PowMonoBase(b, a, e);
    }
  }

  lemma {:induction false} Pow2IsPow(n: nat)
    ensures Pow2(n) == Pow(2, n)
  {
    if n > 0 {
      Pow2IsPow(n - 1);
    }
  }
}
