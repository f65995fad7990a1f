/** What the shifting loops compute, limb by limb, and that it is a product or a quotient by a power of two. */
module LimbShifts {
  import opened Powers
  import opened Limbs
  import opened LimbLoops

  // ----- powers of two and limbs -----

  lemma {:induction false} Pow2Add(d: nat, e: nat)
    ensures Pow2(d + e) == Pow2(d) * Pow2(e)
  {
    if d > 0 {
      Pow2Add(d - 1, e);
      Regroup(2, Pow2(d - 1), Pow2(e));
    }
  }

  lemma Pow2Word()
    ensures Pow2(32) == B
  {
    assert Pow2(8) == 256;
    Pow2Add(8, 8);
    Pow2Add(16, 16);
  }

  /** A word splits at any bit. */
  lemma Pow2Rest(r: nat)
    requires r <= 32
    ensures Pow2(r) * Pow2(32 - r) == B
  {
    Pow2Add(r, 32 - r);
    Pow2Word();
  }

  lemma {:induction false} Pow2Limbs(k: nat)
    ensures Pow2(32 * k) == Pow(B, k)
  {
    if k > 0 {
      Pow2Limbs(k - 1);
      Pow2Add(32, 32 * (k - 1));
      Pow2Word();
    }
  }

  /** A shift is a move by whole limbs and a shift within them. */
  lemma Pow2Shift(k: nat, r: nat)
    ensures Pow2(32 * k + r) == Pow2(r) * Pow(B, k)
  {
    Pow2Limbs(k);
    Pow2Add(r, 32 * k);
  }

  lemma {:induction false} Pow2Mono(d: nat, e: nat)
    requires d <= e
    ensures Pow2(d) <= Pow2(e)
  {
    if d < e {
      Pow2Mono(d, e - 1);
    }
  }

  /** What stays in a word of x shifted up by r bits, and what leaves it. */
  function Kept(x: nat, r: nat): nat {
    (x * Pow2(r)) % B
  }

  function Lost(x: nat, r: nat): nat
    requires r <= 32
  {
    Over(x, Pow2(32 - r))
  }

  function Over(x: nat, q: nat): nat
    requires q > 0
  {
    x / q
  }

  lemma Leaving(x: nat, r: nat)
    requires r <= 32
    ensures Kept(x, r) + Lost(x, r) * B == x * Pow2(r)
    ensures Kept(x, r) == Pow2(r) * (x % Pow2(32 - r)) < B
  {
    hide Pow2;
    Pow2Rest(r);
    var p, q := Pow2(r), Pow2(32 - r);
    LeavingParts(x, p, q, x / q, x % q);
  }

  lemma LeavingParts(x: nat, p: nat, q: nat, d: nat, m: nat)
    requires p > 0 && q > 0 && p * q == B && x == d * q + m && m < q
    ensures (x * p) % B == p * m && p * m + d * B == x * p
  {
    assert (d * q + m) * p == d * (q * p) + p * m;
    StrictMul(p, m, q);
    ModIs(p * m, d, B, x * p);
  }

  lemma StrictMul(p: nat, m: nat, q: nat)
    requires p > 0 && m < q
    ensures p * m < p * q
  {
  }

  // ----- left -----

  /** The word a left shift by k limbs and r bits leaves at place p when the first i limbs have been moved. */
  ghost function LeftWord(was: seq<nat>, k: nat, r: nat, i: nat, p: nat): nat
    requires i <= |was| && r < 32
  {
    (if k <= p < k + i then Kept(was[p - k], r) else 0)
    + (if k + 1 <= p < k + 1 + i then Lost(was[p - k - 1], r) else 0)
  }

  /** The two parts of a word have no bit in common, so that or-ing them in adds. */
  lemma LeftOr(lo: nat, hi: nat, r: nat)
    requires r <= 32 && hi < B
    ensures Or(Lost(hi, r), Kept(lo, r)) == Or(Kept(lo, r), Lost(hi, r)) == Kept(lo, r) + Lost(hi, r) < B
  {
    hide Pow2, Kept;
    var p, q := Pow2(r), Pow2(32 - r);
    Pow2Rest(r);
    Leaving(lo, r);
    var m := lo % q;
    MultipleOf(p, m);
    DivBelow(hi, q, p);
    OrDisjoint(p * m, Lost(hi, r), r);
    MulMono(p, p, m + 1, q);
    MulSucc(p, m);
  }

  lemma LostZero(r: nat)
    requires r <= 32
    ensures Lost(0, r) == 0
  {
  }

  /** Moving one limb up: what is or-ed in at its two places. */
  lemma LeftStep(was: seq<nat>, k: nat, r: nat, i: nat, before: seq<nat>, after: seq<nat>)
    requires i < |was| == |before| == |after| && r < 32 && AreLimbs(was)
    requires forall p :: 0 <= p < |was| ==> before[p] == LeftWord(was, k, r, i, p)
    requires forall p :: 0 <= p < |was| && p != i + k && p != i + k + 1 ==> after[p] == before[p]
    requires i + k + 1 < |was| ==> after[i + k + 1] == if r != 0 then Or(before[i + k + 1], Lost(was[i], r))
        else before[i + k + 1]
    requires i + k < |was| ==> after[i + k] == Or(before[i + k], Kept(was[i], r))
    ensures forall p :: 0 <= p < |was| ==> after[p] == LeftWord(was, k, r, i + 1, p)
    ensures forall p :: 0 <= p < |was| && before[p] < B ==> after[p] < B
  {
    hide Pow2, Kept, Lost, Or;
    LeftOr(was[i], if i == 0 then 0 else was[i - 1], r);
    LostZero(r);
    LostAll(was[i], r);
    OrZero(Lost(was[i], r));
  }

  /** Nothing leaves a word that is not shifted, and what leaves fits. */
  lemma LostAll(x: nat, r: nat)
    requires r < 32 && x < B
    ensures Lost(x, r) < B && (r == 0 ==> Lost(x, r) == 0)
  {
    hide Pow2;
    Pow2Rest(r);
    Pow2Word();
    DivBelow(x, Pow2(32 - r), Pow2(r));
    MulMono(Pow2(r), Pow2(r), 1, Pow2(32 - r));
    Pow2OfZero();
  }

  lemma Pow2OfZero()
    ensures Pow2(0) == 1
  {
  }

  lemma MulSucc(p: nat, m: nat)
    ensures p * (m + 1) == p * m + p
  {
  }

  lemma DivBelow(x: nat, q: nat, p: nat)
    requires q > 0 && x < p * q
    ensures x / q < p
  {
    if x / q >= p {
      MulMono(p, x / q, q, q);
    }
  }

  lemma {:induction false} LeftValue(was: seq<nat>, now: seq<nat>, k: nat, r: nat, m: nat)
    requires |was| == |now| && r < 32 && k + m <= |was| && AreLimbs(was)
    requires forall p :: 0 <= p < |now| ==> now[p] == LeftWord(was, k, r, |was|, p)
    ensures Val(now[..k + m]) + (if m == 0 then 0 else Lost(was[m - 1], r)) * Pow(B, k + m)
         == Pow(B, k) * (Pow2(r) * Val(was[..m]))
  {
    hide Val, Pow, Pow2, Kept, Lost;
    if m == 0 {
      ValZero(now[..k]);
      assert was[..0] == [];
      ValZero(was[..0]);
      assert now[..k + m] == now[..k];
    } else {
      LeftValue(was, now, k, r, m - 1);
      ValTake(now, k + m - 1);
      ValTake(was, m - 1);
      PowAdd(B, k, m - 1);
      var carry := if m == 1 then 0 else Lost(was[m - 2], r);
      var x := was[m - 1];
      assert now[k + m - 1] == Kept(x, r) + carry;
      Leaving(x, r);
      assert Pow(B, k + m) == B * Pow(B, k + m - 1) by { PowUp(k + m - 1); }
      LeftTerms(Pow(B, k), Pow(B, m - 1), Pow(B, k + m - 1), Pow2(r), x, Kept(x, r), Lost(x, r), carry,
                Val(was[..m - 1]), Val(now[..k + m - 1]));
      assert k + (m - 1) == k + m - 1;
    }
  }

  lemma PowUp(e: nat)
    ensures Pow(B, e + 1) == B * Pow(B, e)
  {
  }

  lemma LeftTerms(pk: nat, pm: nat, pkm: nat, t: nat, x: nat, lo: nat, hi: nat, carry: nat, v: nat, done: nat)
    requires pkm == pk * pm && lo + hi * B == x * t && done + carry * pkm == pk * (t * v)
    ensures done + pkm * (lo + carry) + hi * (B * pkm) == pk * (t * (v + pm * x))
  {
    assert pkm * (lo + carry) == pkm * lo + carry * pkm;
    assert pkm * lo + hi * (B * pkm) == pkm * (x * t) by {
      assert hi * (B * pkm) == pkm * (hi * B);
    }
    assert t * (v + pm * x) == t * v + t * (pm * x);
    assert pk * (t * (pm * x)) == (pk * pm) * (x * t) by {
      assert t * (pm * x) == pm * (x * t);
    }
  }

  lemma LeftIsProduct(was: seq<nat>, now: seq<nat>, s: nat, k: nat, r: nat)
    requires |was| == |now| && AreLimbs(was) && AreLimbs(now) && s == 32 * k + r && r < 32
    requires forall p :: 0 <= p < |now| ==> now[p] == LeftWord(was, k, r, |was|, p)
    ensures Val(now) == (Val(was) * Pow2(s)) % Modulus(|was|)
  {
    hide Val, Pow, Pow2, Modulus, Kept, Lost;
    var w := |was|;
    Pow2Shift(k, r);
    ModulusIsPower(w);
    ValBound(now);
    if k >= w {
      assert forall p :: 0 <= p < w ==> now[p] == 0;
      ValZero(now);
      FarShift(Val(was), Pow2(s), k, r, w);
    } else {
      LeftValue(was, now, k, r, w - k);
      assert now[..k + (w - k)] == now;
      ValCut(was, w - k);
      NearShift(Val(now), Val(was), Pow2(s), Lost(was[w - k - 1], r), k, w - k, r, Val(was[..w - k]),
        Val(was[w - k..]));
    }
  }

  lemma FarShift(v: nat, t: nat, k: nat, r: nat, w: nat)
    requires w <= k && t == Pow2(r) * Pow(B, k)
    ensures (v * t) % Modulus(w) == 0
  {
    hide Pow, Pow2;
    ModulusIsPower(w);
    PowAdd(B, w, k - w);
    AllOut(v, Pow2(r), Pow(B, w), Pow(B, k - w));
    ModIs(0, v * (Pow2(r) * Pow(B, k - w)), Modulus(w), v * t);
  }

  lemma NearShift(now: nat, v: nat, t: nat, carry: nat, k: nat, m: nat, r: nat, lo: nat, hi: nat)
    requires v == lo + Pow(B, m) * hi && t == Pow2(r) * Pow(B, k)
    requires now + carry * Pow(B, k + m) == Pow(B, k) * (Pow2(r) * lo) && now < Modulus(k + m)
    ensures now == (v * t) % Modulus(k + m)
  {
    hide Pow, Pow2;
    ModulusIsPower(k + m);
    PowAdd(B, k, m);
    LeftOut(now, carry, Pow(B, k), Pow(B, m), Pow2(r), lo, hi);
    ModIs(now, carry + Pow2(r) * hi, Modulus(k + m), v * t);
  }

  lemma AllOut(v: nat, t: nat, m: nat, rest: nat)
    ensures 0 + v * (t * rest) * m == v * (t * (m * rest))
  {
    assert (t * rest) * m == t * (m * rest);
    assert v * (t * rest) * m == v * ((t * rest) * m);
  }

  lemma LeftOut(now: nat, carry: nat, pk: nat, pm: nat, t: nat, lo: nat, hi: nat)
    requires now + carry * (pk * pm) == pk * (t * lo)
    ensures now + (carry + t * hi) * (pk * pm) == (lo + pm * hi) * (t * pk)
  {
    assert (carry + t * hi) * (pk * pm) == carry * (pk * pm) + (t * hi) * (pk * pm);
    assert (lo + pm * hi) * (t * pk) == lo * (t * pk) + (pm * hi) * (t * pk);
    assert lo * (t * pk) == pk * (t * lo);
    assert (pm * hi) * (t * pk) == (t * hi) * (pk * pm) by {
      assert (pm * hi) * (t * pk) == pm * (hi * (t * pk));
      assert hi * (t * pk) == (t * hi) * pk;
    }
  }

  // ----- right -----

  function At(d: seq<nat>, p: nat): nat {
    if p < |d| then d[p] else 0
  }

  /** The word a right shift by k limbs and r bits leaves at place p when the first i limbs have been moved. */
  ghost function RightWord(was: seq<nat>, k: nat, r: nat, i: nat, p: nat): nat
    requires r < 32
  {
    (if p + k < i then Over(At(was, p + k), Pow2(r)) else 0)
    + (if p + k + 1 < i then Kept(At(was, p + k + 1), 32 - r) else 0)
  }

  lemma RightOr(lo: nat, hi: nat, r: nat)
    requires r < 32 && lo < B
    ensures Or(Over(lo, Pow2(r)), Kept(hi, 32 - r)) == Over(lo, Pow2(r)) + Kept(hi, 32 - r) < B
    ensures Or(0, Over(lo, Pow2(r))) == Over(lo, Pow2(r)) < B
    ensures r == 0 ==> Kept(hi, 32 - r) == 0
  {
    hide Pow2, Kept, Or, Over;
    LeftOr(hi, lo, 32 - r);
    assert Lost(lo, 32 - r) == Over(lo, Pow2(r));
    OrZero(Over(lo, Pow2(r)));
    if r == 0 { KeptNothing(hi); }
  }

  lemma KeptNothing(x: nat)
    ensures Kept(x, 32) == 0
  {
    hide Pow2;
    Pow2Word();
    MultipleOf(B, x);
  }

  /** Moving one limb down: what is or-ed in at its two places. */
  lemma RightStep(was: seq<nat>, k: nat, r: nat, i: nat, before: seq<nat>, after: seq<nat>)
    requires i < |was| == |before| == |after| && r < 32 && AreLimbs(was)
    requires forall p :: 0 <= p < |was| ==> before[p] == RightWord(was, k, r, i, p)
    requires forall p :: 0 <= p < |was| && p + k != i && p + k + 1 != i ==> after[p] == before[p]
    requires i >= k + 1 ==> after[i - k - 1] == if r != 0 then Or(before[i - k - 1], Kept(was[i], 32 - r))
        else before[i - k - 1]
    requires i >= k ==> after[i - k] == Or(before[i - k], Over(was[i], Pow2(r)))
    ensures forall p :: 0 <= p < |was| ==> after[p] == RightWord(was, k, r, i + 1, p)
    ensures forall p :: 0 <= p < |was| && before[p] < B ==> after[p] < B
  {
    hide Pow2, Kept, Over, Or;
    RightOr(if i == 0 then 0 else was[i - 1], was[i], r);
    RightOr(was[i], 0, r);
  }

  /** r bits of the low limb of a stretch are cut off, the rest is a quotient. */
  lemma {:induction false} RightValue(c: seq<nat>, now: seq<nat>, r: nat, j: nat)
    requires j < |c| && j <= |now| && r < 32
    requires forall p :: 0 <= p < j ==> now[p] == Over(c[p], Pow2(r)) + Kept(c[p + 1], 32 - r)
    ensures Pow2(r) * Val(now[..j]) + c[0] % Pow2(r) == Val(c[..j]) + Pow(B, j) * (c[j] % Pow2(r))
  {
    hide Val, Pow, Pow2, Kept, Over;
    if j == 0 {
      ValZero(c[..0]);
      ValZero(now[..0]);
      PowZero();
    } else {
      RightValue(c, now, r, j - 1);
      ValTake(now, j - 1);
      ValTake(c, j - 1);
      PowUp(j - 1);
      RightLimb(c[j - 1], c[j], c[0] % Pow2(r), r, Pow(B, j - 1), Val(now[..j - 1]), Val(c[..j - 1]));
    }
  }

  lemma RightLimb(x: nat, y: nat, cut: nat, r: nat, p: nat, now: nat, v: nat)
    requires r < 32 && Pow2(r) * now + cut == v + p * (x % Pow2(r))
    ensures Pow2(r) * (now + p * (Over(x, Pow2(r)) + Kept(y, 32 - r))) + cut == v + p * x + (B * p) * (y % Pow2(r))
  {
    hide Pow2, Kept;
    Leaving(y, 32 - r);
    Pow2Rest(r);
    RightTerms(Pow2(r), Pow2(32 - r), p, now, v, cut, x / Pow2(r), x % Pow2(r), y % Pow2(r), x);
  }

  lemma PowZero()
    ensures Pow(B, 0) == 1
  {
  }

  lemma RightTerms(t: nat, u: nat, p: nat, now: nat, v: nat, cut: nat, d: nat, m: nat, next: nat, x: nat)
    requires t * u == B && x == t * d + m && t * now + cut == v + p * m
    ensures t * (now + p * (d + u * next)) + cut == v + p * x + (B * p) * next
  {
    assert t * (now + p * (d + u * next)) == t * now + t * (p * (d + u * next));
    assert t * (p * (d + u * next)) == p * (t * d) + p * (t * (u * next)) by {
      assert t * (p * (d + u * next)) == p * (t * (d + u * next));
      assert t * (d + u * next) == t * d + t * (u * next);
    }
    assert t * (u * next) == B * next;
    assert p * (t * d + m) == p * (t * d) + p * m;
  }

  ghost function Down(was: seq<nat>, k: nat): (c: seq<nat>)
    ensures |c| == |was| + 1 && forall p :: 0 <= p < |c| ==> c[p] == At(was, p + k)
  {
    seq<nat>(|was| + 1, p requires 0 <= p => At(was, p + k))
  }

  lemma RightWordWhole(was: seq<nat>, k: nat, r: nat, p: nat)
    requires r < 32 && p < |was|
    ensures RightWord(was, k, r, |was|, p) == Over(Down(was, k)[p], Pow2(r)) + Kept(Down(was, k)[p + 1], 32 - r)
  {
    assert Over(0, Pow2(r)) == 0 && Kept(0, 32 - r) == 0;
  }

  lemma RightIsQuotient(was: seq<nat>, now: seq<nat>, s: nat, k: nat, r: nat)
    requires |was| == |now| && AreLimbs(was) && s == 32 * k + r && r < 32
    requires forall p :: 0 <= p < |now| ==> now[p] == RightWord(was, k, r, |was|, p)
    ensures Val(now) == Val(was) / Pow2(s)
  {
    hide Val, Pow, Pow2, Kept, Over, RightWord, Down, At;
    var w, c := |was|, Down(was, k);
    Pow2Shift(k, r);
    forall p | 0 <= p < w ensures now[p] == Over(c[p], Pow2(r)) + Kept(c[p + 1], 32 - r) {
      RightWordWhole(was, k, r, p);
    }
    DownEnd(was, k);
    RightSum(c, now, r);
    Moved(was, k, c[..w]);
    DivDiv(Val(was), Pow(B, k), Pow2(r), Pow2(s));
  }

  lemma RightSum(c: seq<nat>, now: seq<nat>, r: nat)
    requires |c| == |now| + 1 && r < 32 && c[|now|] == 0
    requires forall p :: 0 <= p < |now| ==> now[p] == Over(c[p], Pow2(r)) + Kept(c[p + 1], 32 - r)
    ensures Val(now) == Val(c[..|now|]) / Pow2(r)
  {
    hide Val, Pow, Pow2, Kept, Over;
    var w := |now|;
    RightValue(c, now, r, w);
    assert now[..w] == now;
    assert Pow(B, w) * (0 % Pow2(r)) == 0;
    DivIs(Val(now), c[0] % Pow2(r), Pow2(r), Val(c[..w]));
  }

  lemma DownEnd(was: seq<nat>, k: nat)
    ensures Down(was, k)[|was|] == 0
  {
  }

  /** Moving down by whole limbs divides by a power of the base. */
  lemma Moved(was: seq<nat>, k: nat, c: seq<nat>)
    requires |c| == |was| && AreLimbs(was) && forall p :: 0 <= p < |c| ==> c[p] == At(was, p + k)
    ensures Pow(B, k) > 0 && Val(c) == Val(was) / Pow(B, k)
  {
    hide Val, Pow, Modulus;
    PowPositive(B, k);
    var w := |was|;
    if k >= w {
      ValZero(c);
      ValBound(was);
      ModulusIsPower(w);
      PowMonoExponent(B, w, k);
      DivIs(0, Val(was), Pow(B, k), Val(was));
    } else {
      ValCut(was, k);
      Padded(c, w - k);
      assert c[..w - k] == was[k..];
      ValBound(was[..k]);
      ModulusIsPower(k);
      DivIs(Val(was[k..]), Val(was[..k]), Pow(B, k), Val(was));
    }
  }

  lemma Padded(c: seq<nat>, n: nat)
    requires n <= |c| && forall p :: n <= p < |c| ==> c[p] == 0
    ensures Val(c) == Val(c[..n])
  {
    hide Val, Pow;
    ValCut(c, n);
    ValZero(c[n..]);
    assert Pow(B, n) * 0 == 0;
  }

  lemma DivIs(q: nat, r: nat, d: nat, x: nat)
    requires r < d && x == r + d * q
    ensures x / d == q
  {
    assert (x / d - q) * d == r - x % d;
    SmallMultiple(x / d - q, d);
  }

  lemma DivDiv(v: nat, p: nat, q: nat, d: nat)
    requires p > 0 && q > 0 && d == q * p > 0
    ensures v / p / q == v / d
  {
    DivDivParts(v, p, q, v / p, v % p, v / p / q, v / p % q);
    DivIs(v / p / q, p * (v / p % q) + v % p, d, v);
  }

  lemma DivDivParts(v: nat, p: nat, q: nat, c: nat, m: nat, e: nat, n: nat)
    requires v == p * c + m && c == q * e + n && m < p && n < q
    ensures v == p * n + m + (q * p) * e && p * n + m < q * p
  {
    assert p * (q * e + n) == (q * p) * e + p * n;
    MulMono(p, p, n + 1, q);
    MulSucc(p, n);
  }
}
