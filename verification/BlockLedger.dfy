/** Transactions offered for a block, their fee rates, and the running totals of the block under construction. */
module BlockLedger {
  import opened Basics
  import opened Powers

  type Hash = nat
  type Cpid = nat

  const MAX_BLOCK_SIGOPS := 20000
  const RESERVED_SIGOPS := 100

  /** A manual reward claim: who asks, for how much, at which fee. */
  datatype Mrc = Mrc(cpid: Option<Cpid>, subsidy: int, fee: int)

  datatype Contract = MrcRequest(mrc: Mrc) | SideStakeUpdate | Claim | Note | Else

  datatype Outpoint = Outpoint(hash: Hash, n: nat)

  datatype Tx = Tx(hash: Hash, time: int, generated: bool, vin: seq<Outpoint>, outs: seq<int>, contracts: seq<Contract>,
                   size: nat, sigOps: nat)

  // ----- fee rates -----

  /** A fee over a size in bytes. */
  datatype FeeRate = FeeRate(fee: int, size: nat)

  /** Whole units per byte, rounded down, and the remainder. */
  function SplitRate(r: FeeRate): (int, int)
    requires r.size > 0
  {
    var whole := TruncDiv(r.fee, r.size);
    var remainder := r.fee - whole * r.size;
    if remainder < 0 then (whole - 1, remainder + r.size) else (whole, remainder)
  }

  predicate LowerRate(a: FeeRate, b: FeeRate)
    requires a.size > 0 && b.size > 0
  {
    var (w, m) := SplitRate(a);
    var (v, n) := SplitRate(b);
    if w != v then w < v else m * b.size < n * a.size
  }

  lemma SplitRateIs(r: FeeRate)
    requires r.size > 0
    ensures var (w, m) := SplitRate(r); 0 <= m < r.size && r.fee == w * r.size + m
  {
    var q := -r.fee / r.size;
    var rest := -r.fee % r.size;
    if r.fee < 0 {
      assert -r.fee == q * r.size + rest;
      Negated(q, r.size);
    } else {
      assert r.fee == r.fee / r.size * r.size + r.fee % r.size;
    }
  }

  lemma Negated(q: int, s: int)
    ensures (-q) * s == -(q * s) && (-q - 1) * s == -(q * s) - s
  {
  }

  /** The comparison orders rates exactly as the ratios, and its products fit in 64 bits for 32-bit sizes. */
  lemma LowerRateIsExact(a: FeeRate, b: FeeRate)
    requires a.size > 0 && b.size > 0
    ensures LowerRate(a, b) <==> a.fee * b.size < b.fee * a.size
    ensures var m := SplitRate(a).1; 0 <= m && m * b.size <= a.size * b.size
  {
    SplitRateIs(a);
    SplitRateIs(b);
    var (w, m) := SplitRate(a);
    var (v, n) := SplitRate(b);
    RatioParts(w, m, a.size, v, n, b.size);
  }

  lemma RatioParts(w: int, m: nat, s: nat, v: int, n: nat, t: nat)
    requires m < s && n < t
    ensures (w * s + m) * t < (v * t + n) * s <==> (if w != v then w < v else m * t < n * s)
    ensures m * t <= s * t
  {
    Spread(w, s, m, t);
    Spread(v, t, n, s);
    MulMono(m + 1, s, t, t);
    MulMono(n + 1, t, s, s);
    Places(w, m * t, v, n * s, s * t);
  }

  lemma Spread(w: int, s: nat, m: nat, t: nat)
    ensures (w * s + m) * t == w * (s * t) + m * t && t * s == s * t
    ensures (m + 1) * t == m * t + t
  {
    assert w * s * t == w * (s * t);
  }

  lemma Places(w: int, x: nat, v: int, y: nat, p: nat)
    requires x < p && y < p
    ensures w * p + x < v * p + y <==> (if w != v then w < v else x < y)
  {
    if w < v {
      Gap(w, v, p);
    } else if v < w {
      Gap(v, w, p);
    }
  }

  lemma Gap(w: int, v: int, p: nat)
    requires w < v
    ensures w * p + p <= v * p
  {
    assert v * p == w * p + (v - w) * p;
    MulMono(1, v - w, p, p);
  }

  // ----- candidates -----

  datatype Candidate = Candidate(rate: FeeRate, tx: Tx)

  /** The order of the heap: by rate, and between equal rates the lower hash is the greater. */
  predicate Lower(a: Candidate, b: Candidate)
    requires a.rate.size > 0 && b.rate.size > 0
  {
    if LowerRate(a.rate, b.rate) then true
    else if LowerRate(b.rate, a.rate) then false
    else b.tx.hash < a.tx.hash
  }

  /** Candidates with different hashes are never tied, so what comes first does not depend on how they are stored. */
  lemma LowerIsTotal(a: Candidate, b: Candidate)
    requires a.rate.size > 0 && b.rate.size > 0
    ensures !(Lower(a, b) && Lower(b, a))
    ensures a.tx.hash != b.tx.hash ==> Lower(a, b) || Lower(b, a)
  {
    hide LowerRate;
    LowerRateIsExact(a.rate, b.rate);
    LowerRateIsExact(b.rate, a.rate);
  }

  lemma LowerIsTransitive(a: Candidate, b: Candidate, c: Candidate)
    requires a.rate.size > 0 && b.rate.size > 0 && c.rate.size > 0 && Lower(a, b) && Lower(b, c)
    ensures Lower(a, c)
  {
    hide LowerRate;
    LowerRateIsExact(a.rate, b.rate);
    LowerRateIsExact(b.rate, a.rate);
    LowerRateIsExact(b.rate, c.rate);
    LowerRateIsExact(c.rate, b.rate);
    LowerRateIsExact(a.rate, c.rate);
    LowerRateIsExact(c.rate, a.rate);
    Chain(a.rate.fee, a.rate.size, b.rate.fee, b.rate.size, c.rate.fee, c.rate.size);
  }

  /** Ratios compare transitively. */
  lemma Chain(x: int, s: nat, y: int, t: nat, z: int, u: nat)
    requires s > 0 && t > 0 && u > 0 && x * t <= y * s && y * u <= z * t
    ensures x * u <= z * s && (x * t < y * s || y * u < z * t ==> x * u < z * s)
  {
    Scale(x * t, y * s, u);
    Scale(y * u, z * t, s);
    assert x * t * u == (x * u) * t && y * s * u == (y * u) * s && z * t * s == (z * s) * t;
    Unscale(x * u, z * s, t);
  }

  lemma Scale(a: int, b: int, k: nat)
    requires k > 0 && a <= b
    ensures a * k <= b * k && (a < b ==> a * k < b * k)
  {
    assert b * k == a * k + (b - a) * k;
    if a < b { MulMono(1, b - a, k, k); }
  }

  lemma Unscale(a: int, b: int, k: nat)
    requires k > 0
    ensures a * k <= b * k ==> a <= b
    ensures a * k < b * k ==> a < b
  {
    if a > b {
      Scale(b, a, k);
    }
  }
}
