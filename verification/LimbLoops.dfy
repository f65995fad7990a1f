/**
What the carrying loops over 32-bit limbs keep: addition, scaling, the rows of a
product, complement and counting. Intermediate results are shown to fit in 64 bits.
*/
module LimbLoops {
  import opened Powers
  import opened Limbs

  const TWO64: nat := 0x1_0000_0000_0000_0000

  // ----- one limb of a result and its carry -----

  lemma Fold(p: nat, n: nat)
    ensures p * (n % B) + n / B * (B * p) == p * n
  {
    var q, r := n / B, n % B;
    assert n == q * B + r;
    assert p * (q * B + r) == p * r + q * (B * p);
  }

  /** Storing the low limb of n at place i and carrying the rest adds n there. */
  lemma StoreLimb(now: seq<nat>, i: nat, n: nat)
    requires i < |now| && AreLimbs(now)
    ensures AreLimbs(now[i := n % B])
    ensures Val(now[i := n % B][..i + 1]) + n / B * Pow(B, i + 1) == Val(now[..i]) + Pow(B, i) * n
  {
    var next := now[i := n % B];
    assert next[..i] == now[..i];
    ValTake(next, i);
    Fold(Pow(B, i), n);
  }

  lemma ModulusIsPower(w: nat)
    ensures Modulus(w) == Pow(B, w)
  {
  }

  // ----- adding -----

  ghost predicate Adding(was: seq<nat>, bs: seq<nat>, now: seq<nat>, i: nat, carry: nat) {
    && i <= |now| == |was| == |bs| && AreLimbs(now) && AreLimbs(was) && AreLimbs(bs)
    && now[i..] == was[i..] && carry <= 1
    && Val(now[..i]) + carry * Pow(B, i) == Val(was[..i]) + Val(bs[..i])
  }

  lemma AddingStart(was: seq<nat>, bs: seq<nat>)
    requires |was| == |bs| && AreLimbs(was) && AreLimbs(bs)
    ensures Adding(was, bs, was, 0, 0)
  {
    ValZero(was[..0]);
    ValZero(bs[..0]);
  }

  lemma AddingStep(was: seq<nat>, bs: seq<nat>, now: seq<nat>, i: nat, carry: nat)
    requires Adding(was, bs, now, i, carry) && i < |now|
    ensures var n := carry + now[i] + bs[i];
      n < TWO64 && Adding(was, bs, now[i := n % B], i + 1, n / B)
  {
    hide Val, Pow;
    assert now[i] == now[i..][0] == was[i..][0] == was[i];
    var n := carry + now[i] + bs[i];
    StoreLimb(now, i, n);
    ValTake(was, i);
    ValTake(bs, i);
    Terms3(Pow(B, i), carry, was[i], bs[i]);
    assert now[i := n % B][i + 1..] == now[i..][1..];
  }

  lemma Terms3(p: nat, a: nat, b: nat, c: nat)
    ensures p * (a + b + c) == a * p + p * b + p * c
  {
  }

  lemma AddingEnd(was: seq<nat>, bs: seq<nat>, now: seq<nat>, carry: nat)
    requires Adding(was, bs, now, |now|, carry)
    ensures Val(now) == (Val(was) + Val(bs)) % Modulus(|now|)
  {
    hide Val, Pow, Modulus;
    ModulusIsPower(|now|);
    assert now[..|now|] == now && was[..|now|] == was && bs[..|now|] == bs;
    ValBound(now);
    ModIs(Val(now), carry, Modulus(|now|), Val(was) + Val(bs));
  }

  // ----- multiplying -----

  ghost predicate Scaling(x: nat, was: seq<nat>, now: seq<nat>, i: nat, carry: nat) {
    && i <= |now| == |was| && AreLimbs(now) && AreLimbs(was) && x < B && carry < B
    && now[i..] == was[i..]
    && Val(now[..i]) + carry * Pow(B, i) == x * Val(was[..i])
  }

  lemma ScalingStart(x: nat, was: seq<nat>)
    requires AreLimbs(was) && x < B
    ensures Scaling(x, was, was, 0, 0)
  {
    ValZero(was[..0]);
    assert x * 0 == 0;
  }

  lemma Quotient64(n: nat)
    requires n < TWO64
    ensures n / B < B
  {
  }

  lemma ProductFits(x: nat, y: nat, c: nat, d: nat)
    requires x < B && y < B && c < B && d < B
    ensures c + d + x * y < TWO64
  {
    MulMono(x, B - 1, y, B - 1);
  }

  lemma ScalingStep(x: nat, was: seq<nat>, now: seq<nat>, i: nat, carry: nat)
    requires Scaling(x, was, now, i, carry) && i < |now|
    ensures var n := carry + x * now[i];
      n < TWO64 && Scaling(x, was, now[i := n % B], i + 1, n / B)
  {
    hide Val, Pow;
    assert now[i] == now[i..][0] == was[i..][0] == was[i];
    var n := carry + x * now[i];
    ProductFits(x, now[i], carry, 0);
    Quotient64(n);
    StoreLimb(now, i, n);
    ValTake(was, i);
    ScalingTerms(Pow(B, i), x, carry, was[i], Val(was[..i]));
    assert now[i := n % B][i + 1..] == now[i..][1..];
  }

  lemma ScalingTerms(p: nat, x: nat, c: nat, w: nat, v: nat)
    ensures p * (c + x * w) == c * p + x * (p * w)
    ensures x * (v + p * w) == x * v + x * (p * w)
  {
    assert p * (x * w) == x * (p * w);
  }

  lemma ScalingEnd(x: nat, was: seq<nat>, now: seq<nat>, carry: nat)
    requires Scaling(x, was, now, |now|, carry)
    ensures Val(now) == (Val(was) * x) % Modulus(|now|)
  {
    hide Val, Pow, Modulus;
    ModulusIsPower(|now|);
    assert now[..|now|] == now && was[..|now|] == was;
    ValBound(now);
    ModIs(Val(now), carry, Modulus(|now|), Val(was) * x);
  }

  /** Adding x times bs at limb j to was, i limbs done. */
  ghost predicate Accumulating(x: nat, bs: seq<nat>, j: nat, was: seq<nat>, now: seq<nat>, i: nat, carry: nat) {
    && j + i <= |now| == |was| == |bs| && AreLimbs(now) && AreLimbs(was) && AreLimbs(bs) && x < B && carry < B
    && now[j + i..] == was[j + i..]
    && Val(now[..j + i]) + carry * Pow(B, j + i) == Val(was[..j + i]) + Pow(B, j) * (x * Val(bs[..i]))
  }

  lemma AccumulatingStart(x: nat, bs: seq<nat>, j: nat, was: seq<nat>)
    requires j <= |was| == |bs| && AreLimbs(was) && AreLimbs(bs) && x < B
    ensures Accumulating(x, bs, j, was, was, 0, 0)
  {
    assert bs[..0] == [];
    assert Val(bs[..0]) == 0;
    assert x * Val(bs[..0]) == 0 && Pow(B, j) * 0 == 0;
  }

  lemma AccumulatingStep(x: nat, bs: seq<nat>, j: nat, was: seq<nat>, now: seq<nat>, i: nat, carry: nat)
    requires Accumulating(x, bs, j, was, now, i, carry) && j + i < |now|
    ensures var n := carry + now[j + i] + x * bs[i];
      n < TWO64 && Accumulating(x, bs, j, was, now[j + i := n % B], i + 1, n / B)
  {
    hide Val, Pow;
    var k := j + i;
    assert now[k] == now[k..][0] == was[k..][0] == was[k];
    var n := carry + now[k] + x * bs[i];
    ProductFits(x, bs[i], carry, now[k]);
    Quotient64(n);
    StoreLimb(now, k, n);
    ValTake(was, k);
    ValTake(bs, i);
    PowAdd(B, j, i);
    AccumulatingTerms(Pow(B, j), Pow(B, i), x, carry, was[k], bs[i], Val(bs[..i]));
    assert now[k := n % B][k + 1..] == now[k..][1..];
  }

  lemma AccumulatingTerms(pj: nat, pi: nat, x: nat, c: nat, w: nat, b: nat, v: nat)
    ensures (pj * pi) * (c + w + x * b) == c * (pj * pi) + (pj * pi) * w + (pj * pi) * (x * b)
    ensures pj * (x * (v + pi * b)) == pj * (x * v) + (pj * pi) * (x * b)
  {
    Terms3(pj * pi, c, w, x * b);
    assert x * (v + pi * b) == x * v + x * (pi * b);
    assert pj * (x * (pi * b)) == (pj * pi) * (x * b) by {
      assert x * (pi * b) == pi * (x * b);
    }
  }

  /** A row done: the sum, up to multiples of the modulus. */
  lemma AccumulatingEnd(x: nat, bs: seq<nat>, j: nat, i: nat, was: seq<nat>, now: seq<nat>, carry: nat)
    requires j + i == |was| && Accumulating(x, bs, j, was, now, i, carry)
    ensures Val(now) + (carry + x * Val(bs[i..])) * Pow(B, j + i) == Val(was) + Pow(B, j) * (x * Val(bs))
  {
    hide Val, Pow;
    assert now[..j + i] == now && was[..j + i] == was;
    RowEnd(x, bs, j, i, Val(was), Val(now), carry);
  }

  lemma RowEnd(x: nat, bs: seq<nat>, j: nat, i: nat, was: nat, now: nat, carry: nat)
    requires i <= |bs| && now + carry * Pow(B, j + i) == was + Pow(B, j) * (x * Val(bs[..i]))
    ensures now + (carry + x * Val(bs[i..])) * Pow(B, j + i) == was + Pow(B, j) * (x * Val(bs))
  {
    hide Val, Pow;
    ValCut(bs, i);
    PowAdd(B, j, i);
    RowSum(now, was, Pow(B, j), Pow(B, i), Pow(B, j + i), x, carry, Val(bs[..i]), Val(bs[i..]), Val(bs));
  }

  lemma RowSum(now: nat, was: nat, pj: nat, pi: nat, m: nat, x: nat, c: nat, lo: nat, hi: nat, b: nat)
    requires m == pj * pi && b == lo + pi * hi && now + c * m == was + pj * (x * lo)
    ensures now + (c + x * hi) * m == was + pj * (x * b)
  {
    RowTerms(pj, pi, x, c, lo, hi);
  }

  lemma RowTerms(pj: nat, pi: nat, x: nat, c: nat, lo: nat, hi: nat)
    ensures pj * (x * (lo + pi * hi)) == pj * (x * lo) + (x * hi) * (pj * pi)
    ensures (c + x * hi) * (pj * pi) == c * (pj * pi) + (x * hi) * (pj * pi)
  {
    assert x * (lo + pi * hi) == x * lo + x * (pi * hi);
    assert pj * (x * (pi * hi)) == (x * hi) * (pj * pi) by {
      assert x * (pi * hi) == pi * (x * hi);
    }
  }

  /** The rows below j are in: the product so far, up to multiples of the modulus. */
  ghost predicate Product(xs: seq<nat>, bs: seq<nat>, j: nat, a: seq<nat>, over: nat) {
    && j <= |xs| == |bs| == |a| && AreLimbs(a) && AreLimbs(xs) && AreLimbs(bs)
    && Val(a) + over * Pow(B, |a|) == Val(xs[..j]) * Val(bs)
  }

  lemma ProductStart(xs: seq<nat>, bs: seq<nat>, a: seq<nat>)
    requires |xs| == |bs| == |a| && AreLimbs(xs) && AreLimbs(bs) && forall i :: 0 <= i < |a| ==> a[i] == 0
    ensures Product(xs, bs, 0, a, 0)
  {
    ValZero(a);
    assert xs[..0] == [];
    assert Val(xs[..0]) == 0;
  }

  lemma ProductStep(xs: seq<nat>, bs: seq<nat>, j: nat, a: seq<nat>, over: nat, now: seq<nat>, carry: nat)
    returns (over': nat)
    requires Product(xs, bs, j, a, over) && j < |a|
    requires Accumulating(xs[j], bs, j, a, now, |a| - j, carry)
    ensures Product(xs, bs, j + 1, now, over')
  {
    hide Val, Pow;
    over' := over + carry + xs[j] * Val(bs[|a| - j..]);
    var i := |a| - j;
    AccumulatingEnd(xs[j], bs, j, i, a, now, carry);
    ValTake(xs, j);
    assert j + i == |a|;
    RowAdded(Val(now), Val(a), carry + xs[j] * Val(bs[i..]), over, Pow(B, j + i), Val(xs[..j]), Pow(B, j), xs[j],
      Val(bs));
  }

  lemma RowAdded(now: nat, was: nat, more: nat, over: nat, m: nat, done: nat, p: nat, x: nat, b: nat)
    requires now + more * m == was + p * (x * b) && was + over * m == done * b
    ensures now + (over + more) * m == (done + p * x) * b
  {
    assert (over + more) * m == over * m + more * m;
    assert (done + p * x) * b == done * b + p * (x * b);
  }

  lemma ProductEnd(xs: seq<nat>, bs: seq<nat>, a: seq<nat>, over: nat)
    requires Product(xs, bs, |a|, a, over)
    ensures Val(a) == (Val(xs) * Val(bs)) % Modulus(|a|)
  {
    hide Val, Pow, Modulus;
    ModulusIsPower(|a|);
    assert xs[..|a|] == xs;
    ValBound(a);
    ModIs(Val(a), over, Modulus(|a|), Val(xs) * Val(bs));
  }

  // ----- complement and counting -----

  lemma {:induction false} ComplementVal(d: seq<nat>, e: seq<nat>)
    requires |d| == |e| && forall i :: 0 <= i < |d| ==> e[i] == B - 1 - d[i]
    ensures Val(e) == Pow(B, |d|) - 1 - Val(d)
  {
    if d != [] {
      var n := |d| - 1;
      ComplementVal(d[..n], e[..n]);
      assert Pow(B, n) * (B - 1 - d[n]) == Pow(B, n) * B - Pow(B, n) - Pow(B, n) * d[n];
    }
  }

  /** Counting up: the limbs below i were at their maximum and are zero now. */
  ghost predicate Counting(was: seq<nat>, now: seq<nat>, i: nat) {
    && i <= |was| == |now| && AreLimbs(was) && AreLimbs(now) && now[i..] == was[i..]
    && (forall k :: 0 <= k < i ==> was[k] == B - 1 && now[k] == 0)
  }

  lemma {:induction false} AllOnes(d: seq<nat>)
    requires forall k :: 0 <= k < |d| ==> d[k] == B - 1
    ensures Val(d) == Pow(B, |d|) - 1
  {
    var zeroes := seq(|d|, k => 0);
    ValZero(zeroes);
    ComplementVal(zeroes, d);
  }

  lemma CountingEnd(was: seq<nat>, now: seq<nat>, i: nat)
    requires Counting(was, now, i)
    ensures i == |was| ==> Val(now) == (Val(was) + 1) % Modulus(|was|)
    ensures i < |was| && was[i] + 1 < B ==> Val(now[i := was[i] + 1]) == (Val(was) + 1) % Modulus(|was|)
  {
    hide Val, Pow;
    AllOnes(was[..i]);
    ValZero(now[..i]);
    PowPositive(B, i);
    if i == |was| {
      assert was[..i] == was && now[..i] == now;
      ModIs(0, 1, Modulus(|was|), Val(was) + 1);
    } else if was[i] + 1 < B {
      var next := now[i := was[i] + 1];
      assert next[..i] == now[..i] && next[i + 1..] == now[i..][1..] == was[i..][1..] == was[i + 1..];
      ValCut(next, i + 1);
      ValCut(was, i + 1);
      ValTake(next, i);
      ValTake(was, i);
      ValBound(next);
      OneMore(Pow(B, i), was[i]);
      assert Val(next) == Val(was) + 1;
      ModIs(Val(next), 0, Modulus(|was|), Val(was) + 1);
    }
  }

  lemma OneMore(p: nat, x: nat)
    ensures p * (x + 1) == p * x + p
  {
  }
}
