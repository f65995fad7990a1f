/** Work per block, the stake kernel test, and how targets move with block times. */
module Targets {
  import opened Powers
  import opened Limbs
  import opened LimbLoops
  import opened LimbShifts
  import opened LimbBits
  import opened ArithUint
  import opened Compact

  // ----- the work a block stands for -----

  /** A target that a code can name is never all ones, so adding one does not wrap. */
  lemma NotAllOnes(code: nat)
    requires Decoded(code) < Pow2(256)
    ensures Decoded(code) + 1 < Pow2(256)
  {
    hide Pow2;
    SignIsPower();
    var size, m := code / EXPONENT, code % SIGN;
    Pow2Mono(24, 256);
    if size <= 3 {
      SmallCode(m, 8 * (3 - size));
    } else {
      var e := 8 * (size - 3);
      Doubles(e - 1);
      Doubles(255);
      assert m * Pow2(e) == 2 * (m * Pow2(e - 1));
    }
  }

  lemma TrustFormula(t: nat, m: nat)
    requires 0 < t && t + 1 < m
    ensures (m - 1 - t) / (t + 1) + 1 == m / (t + 1) < m
  {
    var d := t + 1;
    var q, r := (m - d) / d, (m - d) % d;
    assert m == r + d * (q + 1);
    DivIs(q + 1, r, d, m);
    MulMono(2, d, q + 1, q + 1);
  }

  /** The expected number of hashes behind a block: 2^256 / (target + 1), or nothing for a target no block may have. */
  ghost function Trust(code: nat): nat {
    if Decoded(code) == 0 || Decoded(code) >= Pow2(256) || code / SIGN % 2 == 1 then 0
        else Pow2(256) / (Decoded(code) + 1)
  }

  method GetBlockTrust(code: nat) returns (trust: BaseUint)
    requires code < B
    ensures trust.Valid() && trust.pn.Length == 8 && trust.Value() == Trust(code)
  {
    hide Pow, Pow2, Val, Modulus, Decoded;
    Bits256();
    var target := new BaseUint.Zero(8);
    var negative, overflow := SetCompact(target, code);
    var none := target.EqualTo(0);
    ghost var t := Decoded(code);
    if !overflow { SmallMod(t, Pow2(256)); }
    if negative || overflow || none {
      trust := new BaseUint.Zero(8);
      return;
    }
    NotAllOnes(code);
    TrustFormula(t, Pow2(256));
    SmallMod(t + 1, Pow2(256));
    SmallMod(Pow2(256) / (t + 1), Pow2(256));
    trust := target.Complement();
    var one := new BaseUint.FromU64(8, 1);
    target.AddAssign(one);
    var divided := trust.DivAssign(target);
    assert divided;
    trust.AddAssign(one);
  }

  /** An easier target never stands for more work, and every usable target stands for some. */
  lemma TrustAntitone(a: nat, b: nat)
    requires Trust(a) > 0 && Trust(b) > 0 && Decoded(a) <= Decoded(b)
    ensures Trust(a) >= Trust(b)
  {
    hide Pow2, Decoded;
    DivAnti(Pow2(256), Decoded(a) + 1, Decoded(b) + 1);
  }

  lemma TrustPositive(code: nat)
    ensures Trust(code) > 0 <==> 0 < Decoded(code) < Pow2(256) && code / SIGN % 2 == 0
  {
    hide Pow2, Decoded;
    if 0 < Decoded(code) < Pow2(256) {
      DivAtLeast(Pow2(256), Decoded(code) + 1, 1);
    }
  }

  lemma DivAnti(m: nat, d: nat, e: nat)
    requires 0 < d <= e
    ensures m / d >= m / e
  {
    MulMono(m / e, m / e, d, e);
    DivAtLeast(m, d, m / e);
  }

  // ----- the stake kernel -----

  /** A 256-bit number in 320 bits. */
  method Widen(b: BaseUint) returns (w: BaseUint)
    requires b.Valid() && b.pn.Length == 8
    ensures w.Valid() && fresh(w) && fresh(w.pn) && w.pn.Length == 10 && w.Value() == b.Value()
  {
    w := new BaseUint.Zero(10);
    for i := 0 to 8
      invariant w.Valid() && w.pn[..i] == b.pn[..i] && w.pn[8] == 0 && w.pn[9] == 0
      modifies w.pn
    {
      w.pn[i] := b.pn[i];
    }
    ValCut(w.pn[..], 8);
    assert w.pn[..][..8] == b.pn[..];
    ValZero(w.pn[..][8..]);
  }

  /** A kernel is met exactly when its hash is at most the target times the coin weight: 320 bits never wrap. */
  method KernelMet(hash: BaseUint, target: BaseUint, weight: nat) returns (met: bool)
    requires hash.Valid() && target.Valid() && hash.pn.Length == target.pn.Length == 8 && weight < TWO64
    ensures met == (hash.Value() <= target.Value() * weight)
  {
    hide Pow, Val, Modulus;
    ValBound(target.pn[..]);
    var scaled := Widen(target);
    var w := new BaseUint.FromU64(10, weight);
    scaled.MulAssign(w);
    Product320(target.Value(), weight);
    var h := Widen(hash);
    var c := h.CompareTo(scaled);
    met := c <= 0;
  }

  lemma Product320(t: nat, weight: nat)
    requires t < Modulus(8) && weight < TWO64
    ensures (t * weight) % Modulus(10) == t * weight
  {
    PowAdd(B, 8, 2);
    assert Pow(B, 2) == TWO64;
    hide Pow;
    MulMono(t, Pow(B, 8), weight, TWO64);
    Product320Strict(t, Pow(B, 8), weight, TWO64);
    SmallMod(t * weight, Modulus(10));
  }

  lemma Product320Strict(t: nat, m: nat, w: nat, n: nat)
    requires t < m && w < n
    ensures t * w < m * n
  {
    MulMono(t, m, w, w);
    StrictMul(m, w, n);
  }
}
