/**
Which pooled transactions a block may take, and what the running totals of the block say about the ones it has
taken.
*/
module BlockSelection {
  import opened Basics
  import opened BlockLedger

  /**
  What the assembler asks of the rest of the node: confirmed outputs, the checks that depend on the
  chain and on what the block already holds, and its own settings.
  */
  datatype View = View(
    disk: map<Hash, seq<int>>, final: Tx -> bool, contractsValid: Tx -> bool, v14: bool, v15: bool, notes: bool,
    fetches: (Tx, seq<Tx>) -> bool, connects: (Tx, seq<Tx>) -> bool, unlocked: Tx -> bool,
    minFee: (Tx, nat) -> int, p2sh: Tx -> nat, mrcValid: Mrc -> bool,
    staker: Option<Cpid>, mrcLimit: nat, outputSize: nat, maxSize: nat, minTxFee: int, blockTime: int, num: nat,
      den: nat)

  // ----- what is offered -----

  predicate Screened(v: View, tx: Tx) {
    && !tx.generated && v.final(tx)
    && (tx.contracts == [] || v.contractsValid(tx))
    && !(v.v15 && Claim in tx.contracts)
    && !(!v.notes && Note in tx.contracts)
  }

  predicate OnDisk(v: View, o: Outpoint) {
    o.hash in v.disk && o.n < |v.disk[o.hash]|
  }

  /** The pooled transactions a transaction waits for. */
  function Parents(v: View, pool: map<Hash, Tx>, tx: Tx): set<Hash> {
    set i | 0 <= i < |tx.vin| && !OnDisk(v, tx.vin[i]) && tx.vin[i].hash in pool :: tx.vin[i].hash
  }

  predicate Connected(v: View, pool: map<Hash, Tx>, tx: Tx) {
    forall i :: 0 <= i < |tx.vin| ==> OnDisk(v, tx.vin[i]) || tx.vin[i].hash in pool
  }

  predicate Offered(v: View, pool: map<Hash, Tx>, tx: Tx) {
    Screened(v, tx) && Connected(v, pool, tx)
  }

  function At(s: seq<int>, n: nat): int {
    if n < |s| then s[n] else 0
  }

  function Spent(v: View, pool: map<Hash, Tx>, o: Outpoint): int {
    if OnDisk(v, o) then v.disk[o.hash][o.n] else if o.hash in pool then At(pool[o.hash].outs, o.n) else 0
  }

  function ValueIn(v: View, pool: map<Hash, Tx>, vin: seq<Outpoint>): int {
    if vin == [] then 0 else ValueIn(v, pool, vin[..|vin| - 1]) + Spent(v, pool, vin[|vin| - 1])
  }

  function ValueOut(outs: seq<int>): int {
    if outs == [] then 0 else ValueOut(outs[..|outs| - 1]) + outs[|outs| - 1]
  }

  function Fee(v: View, pool: map<Hash, Tx>, tx: Tx): int {
    ValueIn(v, pool, tx.vin) - ValueOut(tx.outs)
  }

  predicate IsMrc(tx: Tx) {
    tx.contracts != [] && tx.contracts[0].MrcRequest?
  }

  predicate IsSideStake(tx: Tx) {
    tx.contracts != [] && tx.contracts[0].SideStakeUpdate?
  }

  /** The rate a transaction is ranked by: its fee, and for a claim the staker's part of the claim's fee. */
  function RateOf(v: View, pool: map<Hash, Tx>, tx: Tx): FeeRate
    requires v.den > 0
  {
    var extra := if IsMrc(tx) then var fee := tx.contracts[0].mrc.fee; fee - TruncDiv(fee * v.num, v.den) else 0;
    FeeRate(Fee(v, pool, tx) + extra, tx.size)
  }

  // ----- what the block holds -----

  datatype Ledger = Ledger(vtx: seq<Tx>, size: nat, sigOps: nat, fees: int, mrcs: map<Cpid, (Hash, Mrc)>, bound: bool)

  function Opened(size: nat): Ledger {
    Ledger([], size, RESERVED_SIGOPS, 0, map[], false)
  }

  /** A claim is bound when there is room for it, its owner is not the staker and has none yet, and it is valid. */
  predicate Binds(v: View, l: Ledger, mrc: Mrc) {
    && |l.mrcs| < v.mrcLimit && mrc.cpid.Some? && v.staker != mrc.cpid
    && v.mrcValid(mrc) && mrc.cpid.value !in l.mrcs
  }

  predicate Fits(v: View, pool: map<Hash, Tx>, l: Ledger, c: Candidate)
    requires c.rate.size > 0
  {
    var tx := c.tx;
    && l.size + tx.size < v.maxSize
    && !LowerRate(c.rate, FeeRate(v.minTxFee, 1000))
    && l.sigOps + tx.sigOps < MAX_BLOCK_SIGOPS
    && tx.time <= v.blockTime
    && v.fetches(tx, l.vtx)
    && Fee(v, pool, tx) >= v.minFee(tx, l.size)
    && l.sigOps + tx.sigOps + v.p2sh(tx) < MAX_BLOCK_SIGOPS
    && v.connects(tx, l.vtx)
    && (v.v14 ==> v.unlocked(tx))
    && (IsMrc(tx) ==> Binds(v, l, tx.contracts[0].mrc))
    && (IsSideStake(tx) ==> !l.bound)
  }

  function Included(v: View, pool: map<Hash, Tx>, l: Ledger, tx: Tx): Ledger {
    Ledger(l.vtx + [tx],
           l.size + tx.size + (if IsMrc(tx) then v.outputSize else 0),
           l.sigOps + tx.sigOps + v.p2sh(tx),
           l.fees + Fee(v, pool, tx),
           if IsMrc(tx) && tx.contracts[0].mrc.cpid.Some?
               then l.mrcs[tx.contracts[0].mrc.cpid.value := (tx.hash, tx.contracts[0].mrc)] else l.mrcs,
           l.bound || IsSideStake(tx))
  }

  // ----- what the totals say -----

  function SizeOf(txs: seq<Tx>): nat {
    if txs == [] then 0 else SizeOf(txs[..|txs| - 1]) + txs[|txs| - 1].size
  }

  function SigOpsOf(v: View, txs: seq<Tx>): nat {
    if txs == [] then 0 else SigOpsOf(v, txs[..|txs| - 1]) + txs[|txs| - 1].sigOps + v.p2sh(txs[|txs| - 1])
  }

  function FeesOf(v: View, pool: map<Hash, Tx>, txs: seq<Tx>): int {
    if txs == [] then 0 else FeesOf(v, pool, txs[..|txs| - 1]) + Fee(v, pool, txs[|txs| - 1])
  }

  /** The totals are those of the transactions taken, and within the limits. */
  ghost predicate Summed(v: View, pool: map<Hash, Tx>, start: nat, l: Ledger) {
    && l.size == start + SizeOf(l.vtx) + v.outputSize * |l.mrcs|
    && l.sigOps == RESERVED_SIGOPS + SigOpsOf(v, l.vtx) < MAX_BLOCK_SIGOPS
    && l.fees == FeesOf(v, pool, l.vtx)
    && (l.vtx != [] ==> l.size < v.maxSize + v.outputSize)
    && (l.mrcs == map[] && l.vtx != [] ==> l.size < v.maxSize)
  }

  /** The claims recorded are exactly those of the transactions taken, one for an owner, none of the staker's. */
  ghost predicate ClaimsBound(v: View, l: Ledger) {
    |l.mrcs| <= v.mrcLimit && Recorded(v, l.vtx, l.mrcs) && Listed(l.vtx, l.mrcs)
  }

  ghost predicate Recorded(v: View, vtx: seq<Tx>, mrcs: map<Cpid, (Hash, Mrc)>) {
    forall k :: k in mrcs ==> OwnClaim(v, k, mrcs[k]) && exists i :: 0 <= i < |vtx| && Claims(vtx[i], mrcs[k])
  }

  ghost predicate OwnClaim(v: View, k: Cpid, entry: (Hash, Mrc)) {
    v.staker != Some(k) && entry.1.cpid == Some(k) && v.mrcValid(entry.1)
  }

  ghost predicate Listed(vtx: seq<Tx>, mrcs: map<Cpid, (Hash, Mrc)>) {
    forall i :: 0 <= i < |vtx| && IsMrc(vtx[i]) ==> InMap(vtx[i], mrcs)
  }

  ghost predicate InMap(tx: Tx, mrcs: map<Cpid, (Hash, Mrc)>)
    requires IsMrc(tx)
  {
    var mrc := tx.contracts[0].mrc;
    mrc.cpid.Some? && mrc.cpid.value in mrcs && mrcs[mrc.cpid.value] == (tx.hash, mrc)
  }

  ghost predicate Claims(tx: Tx, entry: (Hash, Mrc)) {
    IsMrc(tx) && tx.hash == entry.0 && tx.contracts[0].mrc == entry.1
  }

  /** At most one sidestake update is taken. */
  ghost predicate OneSideStake(l: Ledger) {
    && (forall i, j :: 0 <= i < j < |l.vtx| ==> !(IsSideStake(l.vtx[i]) && IsSideStake(l.vtx[j])))
    && (l.bound <==> exists i :: 0 <= i < |l.vtx| && IsSideStake(l.vtx[i]))
  }

  lemma OpenedKeeps(v: View, pool: map<Hash, Tx>, start: nat)
    ensures Summed(v, pool, start, Opened(start)) && ClaimsBound(v, Opened(start)) && OneSideStake(Opened(start))
  {
    assert v.outputSize * 0 == 0;
  }

  lemma IncludedSums(v: View, pool: map<Hash, Tx>, start: nat, l: Ledger, c: Candidate)
    requires Summed(v, pool, start, l) && c.rate.size > 0 && Fits(v, pool, l, c)
    ensures Summed(v, pool, start, Included(v, pool, l, c.tx))
  {
    hide LowerRate, Fee;
    var n := Included(v, pool, l, c.tx);
    assert n.vtx[..|n.vtx| - 1] == l.vtx;
    if IsMrc(c.tx) {
      assert |n.mrcs| == |l.mrcs| + 1;
      OneMoreOutput(v.outputSize, |l.mrcs|);
    }
  }

  lemma OneMoreOutput(s: nat, n: nat)
    ensures s * (n + 1) == s * n + s
  {
  }

  lemma IncludedClaims(v: View, pool: map<Hash, Tx>, l: Ledger, c: Candidate)
    requires ClaimsBound(v, l) && c.rate.size > 0 && Fits(v, pool, l, c)
    ensures ClaimsBound(v, Included(v, pool, l, c.tx))
  {
    hide LowerRate, Fee, Recorded, Listed;
    if IsMrc(c.tx) {
      RecordedMore(v, l.vtx, l.mrcs, c.tx);
      ListedMore(l.vtx, l.mrcs, c.tx);
    } else {
      OtherMore(v, l.vtx, l.mrcs, c.tx);
    }
  }

  lemma RecordedMore(v: View, vtx: seq<Tx>, mrcs: map<Cpid, (Hash, Mrc)>, tx: Tx)
    requires Recorded(v, vtx, mrcs) && IsMrc(tx) && tx.contracts[0].mrc.cpid.Some?
    requires v.staker != tx.contracts[0].mrc.cpid && v.mrcValid(tx.contracts[0].mrc)
    ensures Recorded(v, vtx + [tx], mrcs[tx.contracts[0].mrc.cpid.value := (tx.hash, tx.contracts[0].mrc)])
  {
    var mrc := tx.contracts[0].mrc;
    var next := mrcs[mrc.cpid.value := (tx.hash, mrc)];
    forall k | k in next ensures exists i :: 0 <= i < |vtx + [tx]| && Claims((vtx + [tx])[i], next[k]) {
      if k == mrc.cpid.value {
        assert Claims((vtx + [tx])[|vtx|], next[k]);
      } else {
        var i :| 0 <= i < |vtx| && Claims(vtx[i], mrcs[k]);
        assert Claims((vtx + [tx])[i], next[k]);
      }
    }
  }

  lemma ListedMore(vtx: seq<Tx>, mrcs: map<Cpid, (Hash, Mrc)>, tx: Tx)
    requires Listed(vtx, mrcs) && IsMrc(tx) && tx.contracts[0].mrc.cpid.Some? && tx.contracts[0].mrc.cpid.value !in mrcs
    ensures Listed(vtx + [tx], mrcs[tx.contracts[0].mrc.cpid.value := (tx.hash, tx.contracts[0].mrc)])
  {
  }

  lemma OtherMore(v: View, vtx: seq<Tx>, mrcs: map<Cpid, (Hash, Mrc)>, tx: Tx)
    requires Recorded(v, vtx, mrcs) && Listed(vtx, mrcs) && !IsMrc(tx)
    ensures Recorded(v, vtx + [tx], mrcs) && Listed(vtx + [tx], mrcs)
  {
    forall k | k in mrcs ensures exists i :: 0 <= i < |vtx + [tx]| && Claims((vtx + [tx])[i], mrcs[k]) {
      var i :| 0 <= i < |vtx| && Claims(vtx[i], mrcs[k]);
      assert Claims((vtx + [tx])[i], mrcs[k]);
    }
  }

  lemma IncludedSideStake(v: View, pool: map<Hash, Tx>, l: Ledger, c: Candidate)
    requires OneSideStake(l) && c.rate.size > 0 && Fits(v, pool, l, c)
    ensures OneSideStake(Included(v, pool, l, c.tx))
  {
    hide LowerRate, Fee;
    var n := Included(v, pool, l, c.tx);
    assert n.vtx[|l.vtx|] == c.tx;
    if l.bound {
      var i :| 0 <= i < |l.vtx| && IsSideStake(l.vtx[i]);
      assert IsSideStake(n.vtx[i]);
    }
  }
}
