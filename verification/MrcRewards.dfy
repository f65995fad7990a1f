/** Paying the claims bound into a block out of the coinstake. */
module MrcRewards {
  import opened Basics
  import opened Sidestakes
  import opened StakeSplitter
  import BlockLedger

  type Mrc = BlockLedger.Mrc

  /** A bound claim, in the order of its owner, and where its owner's active beacon is paid, if there is one. */
  datatype Entry = Entry(cpid: nat, hash: nat, mrc: Mrc, beacon: Option<Dest>)

  /** The foundation's part of a fee. */
  function FoundationFee(fee: int, num: nat, den: nat): int
    requires den > 0
  {
    if num == 0 then 0 else TruncDiv(fee * num, den)
  }

  lemma FeeDivides(fee: int, num: nat, den: nat)
    requires den > 0 && num <= den && fee >= 0
    ensures 0 <= FoundationFee(fee, num, den) <= fee
  {
    if num > 0 {
      Product(fee, num, den);
      var q := fee * num / den;
      if q > fee {
        BlockLedger.Gap(fee, q, den);
      }
    }
  }

  lemma Product(fee: nat, num: nat, den: nat)
    requires num <= den
    ensures 0 <= fee * num <= fee * den
  {
    assert fee * den == fee * num + fee * (den - num);
  }

  /** The payments so far and the fees they leave to the staker and to the foundation. */
  datatype Payments = Payments(outs: seq<Output>, staker: int, foundation: int, recorded: map<nat, nat>)

  predicate Pays(e: Entry, p: Payments, limit: nat) {
    e.beacon.Some? && |p.outs| <= limit
  }

  function After(p: Payments, e: Entry, num: nat, den: nat): Payments
    requires den > 0 && e.beacon.Some?
  {
    var net := e.mrc.subsidy - e.mrc.fee;
    var f := FoundationFee(e.mrc.fee, num, den);
    Payments(if net != 0 then p.outs + [Output(net, Pay(e.beacon.value, false))] else p.outs,
             p.staker + (e.mrc.fee - f), p.foundation + f, p.recorded[e.cpid := e.hash])
  }

  function Paid(entries: seq<Entry>, limit: nat, num: nat, den: nat): Payments
    requires den > 0
  {
    if entries == [] then Payments([], 0, 0, map[]) else
    var p := Paid(entries[..|entries| - 1], limit, num, den);
    var e := entries[|entries| - 1];
    if Pays(e, p, limit) then After(p, e, num, den) else p
  }

  /** The subsidies of the claims that are paid. */
  function Subsidies(entries: seq<Entry>, limit: nat, num: nat, den: nat): int
    requires den > 0
  {
    if entries == [] then 0 else
    var p := Paid(entries[..|entries| - 1], limit, num, den);
    var e := entries[|entries| - 1];
    Subsidies(entries[..|entries| - 1], limit, num, den) + (if Pays(e, p, limit) then e.mrc.subsidy else 0)
  }

  /** Each subsidy goes exactly to its owner, the staker and the foundation. */
  lemma {:induction false} SubsidiesDivide(entries: seq<Entry>, limit: nat, num: nat, den: nat)
    requires den > 0
    ensures var p := Paid(entries, limit, num, den);
      && Total(p.outs) + p.staker + p.foundation == Subsidies(entries, limit, num, den)
      && |p.outs| <= |entries| && |p.outs| <= limit + 1
  {
    hide FoundationFee;
    if entries != [] {
      var n := |entries| - 1;
      SubsidiesDivide(entries[..n], limit, num, den);
      var p, q := Paid(entries[..n], limit, num, den), Paid(entries, limit, num, den);
      if |q.outs| > |p.outs| {
        assert q.outs[..|q.outs| - 1] == p.outs;
      }
    }
  }

  /** The foundation's part is the fee times its fraction with the remainder dropped, for negative fees too. */
  lemma FoundationQuotient(fee: int, num: nat, den: nat)
    requires den > 0
    ensures var f := FoundationFee(fee, num, den);
      && (fee >= 0 ==> f * den <= fee * num < (f + 1) * den)
      && (fee <= 0 ==> (f - 1) * den < fee * num <= f * den)
  {
    SignOf(fee, num);
    if num > 0 { Truncated(fee * num, den); }
  }

  lemma SignOf(fee: int, num: nat)
    ensures fee >= 0 ==> fee * num >= 0
    ensures fee <= 0 ==> fee * num <= 0
    ensures num == 0 ==> fee * num == 0
  {
  }

  lemma Truncated(a: int, den: nat)
    requires den > 0
    ensures var q := TruncDiv(a, den);
      && (a >= 0 ==> q * den <= a < (q + 1) * den) && (a <= 0 ==> (q - 1) * den < a <= q * den)
  {
    if a >= 0 { Quotient(a, den); } else { Quotient(-a, den); }
  }

  lemma Quotient(a: nat, den: nat)
    requires den > 0
    ensures a / den * den <= a < (a / den + 1) * den
  {
  }

  /** How many claims are paid an amount that is not zero. */
  function Payees(claims: seq<Entry>): nat {
    if claims == [] then 0 else
    var e := claims[|claims| - 1];
    Payees(claims[..|claims| - 1]) + if e.mrc.subsidy == e.mrc.fee then 0 else 1
  }

  /** The claims that are paid: those of owners with a beacon, until more than the limit have been paid something. */
  function Settled(entries: seq<Entry>, limit: nat): (claims: seq<Entry>)
    ensures forall i :: 0 <= i < |claims| ==> claims[i].beacon.Some?
  {
    if entries == [] then [] else
    var claims := Settled(entries[..|entries| - 1], limit);
    var e := entries[|entries| - 1];
    if e.beacon.None? || Payees(claims) > limit then claims else claims + [e]
  }

  function Fees(claims: seq<Entry>): int {
    if claims == [] then 0 else Fees(claims[..|claims| - 1]) + claims[|claims| - 1].mrc.fee
  }

  function FoundationFees(claims: seq<Entry>, num: nat, den: nat): int
    requires den > 0
  {
    if claims == [] then 0 else
    FoundationFees(claims[..|claims| - 1], num, den) + FoundationFee(claims[|claims| - 1].mrc.fee, num, den)
  }

  /** What the owners get: each subsidy less the fee, to the owner's beacon, where that is not zero. */
  function Nets(claims: seq<Entry>): seq<Output>
    requires forall i :: 0 <= i < |claims| ==> claims[i].beacon.Some?
  {
    if claims == [] then [] else
    var e := claims[|claims| - 1];
    Nets(claims[..|claims| - 1])
    + if e.mrc.subsidy == e.mrc.fee then [] else [Output(e.mrc.subsidy - e.mrc.fee, Pay(e.beacon.value, false))]
  }

  /** The owners get their subsidies less fees, the foundation its parts of the fees, the staker the rest. */
  lemma {:induction false} PaidOut(entries: seq<Entry>, limit: nat, num: nat, den: nat)
    requires den > 0
    ensures var p, claims := Paid(entries, limit, num, den), Settled(entries, limit);
      && p.outs == Nets(claims) && |p.outs| == Payees(claims)
      && p.foundation == FoundationFees(claims, num, den)
      && p.staker == Fees(claims) - FoundationFees(claims, num, den)
  {
    hide FoundationFee;
    if entries != [] {
      var n := |entries| - 1;
      PaidOut(entries[..n], limit, num, den);
      var claims, e := Settled(entries[..n], limit), entries[n];
      assert (claims + [e])[..|claims|] == claims;
    }
  }

  /**
  The foundation's part of all fees is its fraction of them but for less than one unit a claim, and never
  more than that fraction.
  */
  lemma {:induction false} FoundationGets(claims: seq<Entry>, num: nat, den: nat)
    requires den > 0 && forall i :: 0 <= i < |claims| ==> claims[i].mrc.fee >= 0
    ensures var f := FoundationFees(claims, num, den);
      f * den <= Fees(claims) * num <= f * den + |claims| * (den - 1)
  {
    if claims != [] {
      var n := |claims| - 1;
      FoundationGets(claims[..n], num, den);
      FoundationQuotient(claims[n].mrc.fee, num, den);
      AddShare(FoundationFees(claims[..n], num, den), FoundationFee(claims[n].mrc.fee, num, den),
               Fees(claims[..n]), claims[n].mrc.fee, num, den, n);
    }
  }

  lemma AddShare(f: int, g: int, fees: int, fee: int, num: nat, den: nat, n: nat)
    requires den > 0 && f * den <= fees * num <= f * den + n * (den - 1)
    requires g * den <= fee * num < (g + 1) * den
    ensures (f + g) * den <= (fees + fee) * num <= (f + g) * den + (n + 1) * (den - 1)
  {
    assert (f + g) * den == f * den + g * den;
    assert (fees + fee) * num == fees * num + fee * num;
    assert (g + 1) * den == g * den + den;
    assert (n + 1) * (den - 1) == n * (den - 1) + (den - 1);
  }

  /** With as many claims as there are slots at most, a claim is paid exactly when its owner has an active beacon. */
  lemma {:induction false} PaidWithinLimit(entries: seq<Entry>, limit: nat, num: nat, den: nat)
    requires den > 0 && |entries| <= limit
    ensures forall k :: k in Paid(entries, limit, num, den).recorded <==>
              exists i :: 0 <= i < |entries| && entries[i].cpid == k && entries[i].beacon.Some?
  {
    hide FoundationFee;
    if entries != [] {
      var n := |entries| - 1;
      PaidWithinLimit(entries[..n], limit, num, den);
      SubsidiesDivide(entries[..n], limit, num, den);
      var p, q := Paid(entries[..n], limit, num, den), Paid(entries, limit, num, den);
      forall k ensures k in q.recorded <==>
          exists i :: 0 <= i < |entries| && entries[i].cpid == k && entries[i].beacon.Some? {
        if k in p.recorded {
          var i :| 0 <= i < n && entries[..n][i].cpid == k && entries[..n][i].beacon.Some?;
          assert entries[i].cpid == k;
        }
        if exists i :: 0 <= i < |entries| && entries[i].cpid == k && entries[i].beacon.Some? {
          var i :| 0 <= i < |entries| && entries[i].cpid == k && entries[i].beacon.Some?;
          if i < n { assert entries[..n][i].cpid == k; }
        }
      }
    }
  }

  /** With fees from nothing up to the subsidy, no payment is negative. */
  lemma {:induction false} PaymentsNotNegative(entries: seq<Entry>, limit: nat, num: nat, den: nat)
    requires den > 0 && num <= den && forall i :: 0 <= i < |entries| ==>
        0 <= entries[i].mrc.fee <= entries[i].mrc.subsidy
    ensures var p := Paid(entries, limit, num, den);
      NoneNegative(p.outs) && p.staker >= 0 && p.foundation >= 0
  {
    hide FoundationFee;
    if entries != [] {
      var n := |entries| - 1;
      PaymentsNotNegative(entries[..n], limit, num, den);
      FeeDivides(entries[n].mrc.fee, num, den);
    }
  }

  /** All claims paid, of which there are none where there is no slot for them. */
  function PaidAll(entries: seq<Entry>, limit: nat, num: nat, den: nat): Payments
    requires den > 0
  {
    if limit > 0 then Paid(entries, limit, num, den) else Payments([], 0, 0, map[])
  }

  /**
  The coinstake with its payments: the staker's fees on the stake output, less what is taken off it, then the
  others.
  */
  function Rewarded(before: seq<Output>, p: Payments, foundation: Script, taken: int): seq<Output>
    requires |before| == 2
  {
    [before[0], Output(before[1].value + p.staker - taken, before[1].script)]
    + (if p.foundation > 0 then [Output(p.foundation, foundation)] else []) + p.outs
  }

  /**
  The claims are paid on the coinstake: the staker's part of the fees on the stake output, the
  foundation's part and the owners after it. A research reward that cannot be signed for is taken
  off the stake output again, but not off the reward.
  */
  method CreateMRCRewards(tx: MutableTransaction, entries: seq<Entry>, limit: nat, num: nat, den: nat,
                          foundation: Script, rewardBefore: int, subsidy: int, signable: bool)
    returns (reward: int, recorded: map<nat, nat>)
    requires |tx.vout| == 2 && den > 0
    modifies tx
    ensures var p := PaidAll(entries, limit, num, den);
      && tx.vout == Rewarded(old(tx.vout), p, foundation, if signable then 0 else subsidy)
      && reward == rewardBefore + p.staker && recorded == p.recorded
  {
    recorded := map[];
    reward := rewardBefore;
    var was := tx.vout;
    var extra: seq<Output> := [];
    var value := was[1].value;
    if limit > 0 {
      var outs: seq<Output>, staker, fees := [], 0, 0;
      for i := 0 to |entries|
        invariant Payments(outs, staker, fees, recorded) == Paid(entries[..i], limit, num, den)
      {
        var e := entries[i];
        assert entries[..i + 1][..i] == entries[..i];
        if e.beacon.Some? && |outs| <= limit {
          var net := e.mrc.subsidy - e.mrc.fee;
          if net != 0 {
            outs := outs + [Output(net, Pay(e.beacon.value, false))];
          }
          var f := FoundationFee(e.mrc.fee, num, den);
          fees := fees + f;
          staker := staker + (e.mrc.fee - f);
          recorded := recorded[e.cpid := e.hash];
        }
      }
      assert entries[..|entries|] == entries;
      value := value + staker;
      reward := reward + staker;
      if fees > 0 {
        extra := [Output(fees, foundation)];
      }
      extra := extra + outs;
    }
    if !signable {
      value := value - subsidy;
    }
    tx.vout := [was[0], Output(value, was[1].script)] + extra;
  }

  /**
  Value is conserved: the coinstake grows by the subsidies paid, less a research reward that could not be
  signed for.
  */
  lemma RewardsConserve(
      before: seq<Output>, entries: seq<Entry>, limit: nat, num: nat, den: nat, foundation: Script, taken: int)
    requires |before| == 2 && den > 0
    ensures var p := Paid(entries, limit, num, den);
      Total(Rewarded(before, p, foundation, taken)) == Total(before) + Subsidies(entries, limit, num, den) - taken <==>
        p.foundation >= 0
  {
    hide Paid, Subsidies, Total;
    var p := Paid(entries, limit, num, den);
    var stake := Output(before[1].value + p.staker - taken, before[1].script);
    var mid := if p.foundation > 0 then [Output(p.foundation, foundation)] else [];
    SubsidiesDivide(entries, limit, num, den);
    TotalAppend([before[0], stake] + mid, p.outs);
    TotalAppend([before[0], stake], mid);
    TotalOne(Output(p.foundation, foundation));
    TotalTwo(before[0], stake);
    TotalTwo(before[0], before[1]);
    assert before == [before[0], before[1]];
    TotalNone();
  }

  lemma TotalNone()
    ensures Total([]) == 0
  {
  }

  lemma TotalTwo(a: Output, b: Output)
    ensures Total([a, b]) == a.value + b.value
  {
    assert [a, b][..1] == [a];
    TotalOne(a);
  }
}
