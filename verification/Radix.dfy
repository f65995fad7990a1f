/** Numbers written in a base, most significant digit first, and converting them in place. */
module Radix {
  import opened Powers

  predicate AreDigits(base: nat, d: seq<nat>) {
    forall i :: 0 <= i < |d| ==> d[i] < base
  }

  function Value(base: nat, d: seq<nat>): nat {
    if d == [] then 0 else Value(base, d[..|d| - 1]) * base + d[|d| - 1]
  }

  /** No leading zeroes. */
  predicate Canonical(d: seq<nat>) {
    d == [] || d[0] != 0
  }

  /** The digits of a number, without leading zeroes. */
  function Digits(base: nat, v: nat): (d: seq<nat>)
    requires base >= 2
    ensures AreDigits(base, d) && Canonical(d)
    ensures d == [] <==> v == 0
  {
    if v == 0 then [] else
    assert v / base < v by { QuotientLess(base, v); }
    assert v < base ==> v / base == 0;
    Digits(base, v / base) + [v % base]
  }

  lemma QuotientLess(base: nat, v: nat)
    requires base >= 2 && v > 0
    ensures v / base < v
  {
    var q := v / base;
    assert q * base <= v;
    if q > 0 {
      MulMono(q, q, 2, base);
    }
  }

  lemma {:induction false} ValueOfDigits(base: nat, v: nat)
    requires base >= 2
    ensures Value(base, Digits(base, v)) == v
  {
    if v > 0 {
      QuotientLess(base, v);
      ValueOfDigits(base, v / base);
      ValueSnoc(base, Digits(base, v / base), v % base);
      Fundamental(base, v);
    }
  }

  lemma ValueSnoc(base: nat, d: seq<nat>, x: nat)
    ensures Value(base, d + [x]) == Value(base, d) * base + x
  {
    assert (d + [x])[..|d|] == d;
  }

  lemma Fundamental(base: nat, v: nat)
    requires base > 0
    ensures v / base * base + v % base == v
  {
  }

  lemma DivModOf(base: nat, q: nat, r: nat)
    requires r < base
    ensures (q * base + r) / base == q && (q * base + r) % base == r
  {
    var v := q * base + r;
    var q', r' := v / base, v % base;
    assert q' * base + r' == v;
    if q' < q {
      MulMono(q' + 1, q, base, base);
    } else if q < q' {
      MulMono(q + 1, q', base, base);
    }
  }

  /** A number has one representation without leading zeroes. */
  lemma {:induction false} DigitsOfValue(base: nat, d: seq<nat>)
    requires base >= 2 && AreDigits(base, d) && Canonical(d)
    ensures Digits(base, Value(base, d)) == d
  {
    if d != [] {
      var n := |d| - 1;
      DigitsOfValue(base, d[..n]);
      var q := Value(base, d[..n]);
      DivModOf(base, q, d[n]);
      assert d == d[..n] + [d[n]];
      if n > 0 {
        assert d[..n][0] == d[0];
        assert q != 0;
        MulMono(1, q, 2, base);
      }
    }
  }

  lemma Regroup(a: nat, p: nat, b: nat, base: nat)
    ensures (a * p + b) * base == a * (base * p) + b * base
  {
    assert (a * p) * base == a * (base * p);
  }

  lemma {:induction false} ValueAppend(base: nat, d: seq<nat>, e: seq<nat>)
    ensures Value(base, d + e) == Value(base, d) * Pow(base, |e|) + Value(base, e)
  {
    if e == [] {
      assert d + e == d;
    } else {
      var n := |e| - 1;
      ValueAppend(base, d, e[..n]);
      assert (d + e)[..|d + e| - 1] == d + e[..n];
      Regroup(Value(base, d), Pow(base, n), Value(base, e[..n]), base);
    }
  }

  lemma {:induction false} ValueBound(base: nat, d: seq<nat>)
    requires base > 0 && AreDigits(base, d)
    ensures Value(base, d) < Pow(base, |d|)
  {
    if d != [] {
      var n := |d| - 1;
      ValueBound(base, d[..n]);
      MulMono(Value(base, d[..n]) + 1, Pow(base, n), base, base);
      assert base * Pow(base, n) == Pow(base, n) * base;
    }
  }

  lemma {:induction false} ValueOfZeroes(base: nat, d: seq<nat>)
    requires forall i :: 0 <= i < |d| ==> d[i] == 0
    ensures Value(base, d) == 0
  {
    if d != [] {
      ValueOfZeroes(base, d[..|d| - 1]);
    }
  }

  /** Leading zeroes do not count. */
  lemma ValueSkipsZeroes(base: nat, d: seq<nat>, k: nat)
    requires k <= |d| && forall i :: 0 <= i < k ==> d[i] == 0
    ensures Value(base, d) == Value(base, d[k..])
  {
    ValueAppend(base, d[..k], d[k..]);
    ValueOfZeroes(base, d[..k]);
    assert d == d[..k] + d[k..];
  }

  // ----- multiplying and adding in place -----

  /** A buffer that holds a number in its last length digits, the first of them not zero. */
  ghost predicate Holds(base: nat, d: seq<nat>, length: nat) {
    && length <= |d| && AreDigits(base, d)
    && (forall i :: 0 <= i < |d| - length ==> d[i] == 0)
    && (length > 0 ==> d[|d| - length] != 0)
  }

  lemma HoldsCanonically(base: nat, d: seq<nat>, length: nat)
    requires base >= 2 && Holds(base, d, length)
    ensures d[|d| - length..] == Digits(base, Value(base, d))
  {
    ValueSkipsZeroes(base, d, |d| - length);
    DigitsOfValue(base, d[|d| - length..]);
  }

  /** One digit of the in-place product, in terms of the values on both sides of it. */
  lemma StepValue(base: nat, mul: nat, a: nat, digit: nat, carry: nat, p: nat, done: nat)
    requires base > 0
    ensures var n := carry + mul * digit;
      (a * base + digit) * mul * p + carry * p + done ==
        a * mul * (base * p) + (n / base) * (base * p) + ((n % base) * p + done)
  {
    var n := carry + mul * digit;
    var q, r := n / base, n % base;
    assert n == q * base + r;
    calc {
      (a * base + digit) * mul * p + carry * p + done;
      (a * base * mul + digit * mul) * p + carry * p + done;
      (a * base * mul) * p + (digit * mul) * p + carry * p + done;
      { assert (digit * mul) * p + carry * p == n * p; }
      (a * base * mul) * p + n * p + done;
      { assert n * p == q * base * p + r * p; }
      (a * base * mul) * p + q * base * p + r * p + done;
      { assert (a * base * mul) * p == a * mul * (base * p) && q * base * p == q * (base * p); }
      a * mul * (base * p) + q * (base * p) + (r * p + done);
    }
  }

  /** The product so far: what is left of the old number, the carry, and the digits done. */
  ghost function SoFar(base: nat, mul: nat, left: seq<nat>, carry: nat, done: seq<nat>): nat {
    Value(base, left) * mul * Pow(base, |done|) + carry * Pow(base, |done|) + Value(base, done)
  }

  lemma SoFarStep(base: nat, mul: nat, left: seq<nat>, carry: nat, done: seq<nat>)
    requires base >= 2 && left != []
    ensures var n := carry + mul * left[|left| - 1];
      SoFar(base, mul, left, carry, done) == SoFar(base, mul, left[..|left| - 1], n / base, [n % base] + done)
  {
    var k := |left| - 1;
    var n := carry + mul * left[k];
    StepValue(base, mul, Value(base, left[..k]), left[k], carry, Pow(base, |done|), Value(base, done));
    ValueAppend(base, [n % base], done);
    assert Value(base, [n % base]) == n % base;
  }

  /** Once nothing is left of the old number but zeroes, and no carry, the digits done are the product. */
  lemma SoFarDone(base: nat, mul: nat, left: seq<nat>, done: seq<nat>)
    requires forall i :: 0 <= i < |left| ==> left[i] == 0
    ensures SoFar(base, mul, left, 0, done) == Value(base, left + done)
  {
    ValueOfZeroes(base, left);
    ValueAppend(base, left, done);
  }

  lemma CarryVanishes(base: nat, mul: nat, carry: nat, done: seq<nat>)
    requires base >= 2 && SoFar(base, mul, [], carry, done) < Pow(base, |done|)
    ensures carry == 0
  {
    PowPositive(base, |done|);
    if carry > 0 {
      MulMono(1, carry, Pow(base, |done|), Pow(base, |done|));
    }
  }

  /** The state of the in-place product after i digits: the rest of the buffer is as it was. */
  ghost predicate Progress(base: nat, mul: nat, digit: nat, was: seq<nat>, length: nat, now: seq<nat>, i: nat,
                           carry: nat) {
    && |now| == |was| && i <= |was| && AreDigits(base, now)
    && now[..|was| - i] == was[..|was| - i]
    && SoFar(base, mul, was[..|was| - i], carry, now[|was| - i..]) == Value(base, was) * mul + digit
    && (i > 0 && i >= length && carry == 0 ==> now[|was| - i] != 0)
  }

  lemma ProgressStart(base: nat, mul: nat, digit: nat, was: seq<nat>, length: nat)
    requires AreDigits(base, was)
    ensures Progress(base, mul, digit, was, length, was, 0, digit)
  {
    assert was[..|was|] == was && was[|was|..] == [];
  }

  /** A digit times the multiplier, with the carry. */
  function Sum(carry: nat, mul: nat, digit: nat): nat {
    carry + mul * digit
  }

  lemma ProgressStep(base: nat, mul: nat, digit: nat, was: seq<nat>, length: nat, now: seq<nat>, i: nat, carry: nat,
                     next: seq<nat>, rest: nat)
    requires base >= 2 && mul >= 1 && i < |was| == |now| && (carry != 0 || i < length)
    requires var it := |was| - 1 - i; var n := Sum(carry, mul, now[it]);
      next == now[it := n % base] && rest == n / base
    requires Holds(base, was, length) && Progress(base, mul, digit, was, length, now, i, carry)
    ensures Progress(base, mul, digit, was, length, next, i + 1, rest)
  {
    hide Value, Pow, SoFar;
    var it := |was| - 1 - i;
    var n := carry + mul * now[it];
    var left, done := was[..it + 1], now[it + 1..];
    assert now[it] == now[..it + 1][it] == left[it];
    SoFarStep(base, mul, left, carry, done);
    NonZeroStep(base, mul, carry, now[it]);
    assert left[..it] == was[..it] && next[it..] == [n % base] + done && next[..it] == now[..it + 1][..it];
  }

  lemma ProgressEnd(base: nat, mul: nat, digit: nat, was: seq<nat>, length: nat, now: seq<nat>, i: nat, carry: nat)
    requires base >= 2 && Holds(base, was, length) && Value(base, was) * mul + digit < Pow(base, |was|)
    requires Progress(base, mul, digit, was, length, now, i, carry)
    requires i == |was| || (carry == 0 && i >= length)
    ensures carry == 0
    ensures i >= length ==> Holds(base, now, i) && Value(base, now) == Value(base, was) * mul + digit
  {
    hide Value, Pow, SoFar;
    var rest := |was| - i;
    if i == |was| {
      assert was[..0] == [] && now[0..] == now;
      CarryVanishes(base, mul, carry, now);
    }
    assert now == now[..rest] + now[rest..];
    if i >= length {
      SoFarDone(base, mul, was[..rest], now[rest..]);
      forall k | 0 <= k < rest
        ensures now[k] == 0
      {
        assert now[k] == now[..rest][k] == was[..rest][k];
      }
    }
  }

  /** Multiply the number in a buffer and add a digit, in place; a buffer of enough digits takes the whole result. */
  method Absorb(buf: array<nat>, length: nat, mul: nat, base: nat, digit: nat) returns (i: nat)
    requires base >= 2 && mul >= 1 && Holds(base, buf[..], length)
    requires Value(base, buf[..]) * mul + digit < Pow(base, buf.Length)
    modifies buf
    ensures Holds(base, buf[..], i)
    ensures Value(base, buf[..]) == old(Value(base, buf[..])) * mul + digit
  {
    hide Value, Pow, Progress, Sum;
    ghost var was := buf[..];
    var carry: nat := digit;
    i := 0;
    ProgressStart(base, mul, digit, was, length);
    while (carry != 0 || i < length) && i < buf.Length
      invariant i <= buf.Length && Progress(base, mul, digit, was, length, buf[..], i, carry)
      decreases buf.Length - i
    {
      ghost var now: seq<nat>, before := buf[..], carry;
      var it := buf.Length - 1 - i;
      carry := Sum(carry, mul, buf[it]);
      buf[it] := carry % base;
      carry := carry / base;
      ghost var next: seq<nat> := buf[..];
      assert next == now[it := next[it]];
      ProgressStep(base, mul, digit, was, length, now, i, before, next, carry);
      i := i + 1;
    }
    ProgressEnd(base, mul, digit, was, length, buf[..], i, carry);
    assert carry == 0;
  }

  /** A digit position with something in it or carried to it leaves something. */
  lemma NonZeroStep(base: nat, mul: nat, carry: nat, digit: nat)
    requires base >= 2 && mul >= 1
    ensures var n := carry + mul * digit;
      n % base < base && (n / base == 0 && (carry > 0 || digit > 0) ==> n % base != 0)
  {
    if digit > 0 { MulMono(1, mul, 1, digit); }
  }
}
