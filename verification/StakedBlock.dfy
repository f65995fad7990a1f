/**
A coinstake from the reward to the validator: the claims are paid on it, what is left is split, and the
validator checks the result against its own account of the stake and of the claims.
*/
module StakedBlock {
  import opened Basics
  import opened Powers
  import opened Sidestakes
  import opened Coinstake
  import opened StakeSplitter
  import opened SplitSettings
  import opened SidestakeRules
  import opened MrcRewards
  import BlockLedger
  import opened ClaimChecks

  /**
  A coinstake with the stake and the reward on it: the input, the reward with the research subsidy in it, and
  whether the subsidy can be signed for; the claims to pay, how many at most, and the foundation's part of their fees.
  */
  datatype Stake = Stake(vout: seq<Output>, input: int, reward: int, subsidy: nat, signable: bool,
                         entries: seq<Entry>, limit: nat, num: nat, den: nat, foundation: Dest)

  predicate WellFormed(k: Stake) {
    |k.vout| == 2 && k.den > 0 && k.vout[1].value == k.input + k.reward
  }

  /** A research subsidy that cannot be signed for is taken off the stake output, but not off the reward. */
  function Taken(k: Stake): nat {
    if k.signable then 0 else k.subsidy
  }

  function Payees(k: Stake): seq<Entry> {
    if k.limit > 0 then k.entries else []
  }

  function Fees(k: Stake): Payments
    requires k.den > 0
  {
    MrcRewards.Paid(Payees(k), k.limit, k.num, k.den)
  }

  lemma FeesArePaid(k: Stake)
    requires k.den > 0
    ensures Fees(k) == PaidAll(k.entries, k.limit, k.num, k.den)
  {
  }

  /** The claims that go into the block's record. */
  function Record(k: Stake): (claims: seq<Entry>)
    requires k.den > 0
    ensures AllActive(claims)
  {
    Claimed(Payees(k), k.limit, k.num, k.den)
  }

  /** The coinstake after the claims are paid. */
  function Funded(k: Stake): seq<Output>
    requires WellFormed(k)
  {
    Rewarded(k.vout, Fees(k), Pay(k.foundation, false), Taken(k))
  }

  /** The plan of the split is for the reward with the staker's fees, and honest about the sidestakes. */
  ghost predicate Ready(k: Stake, p: Plan, active: seq<SideStake>, coin: Dest) {
    WellFormed(k) && p.reward == k.reward + Fees(k).staker && Honest(p, Funded(k), active, coin)
  }

  function Mined(k: Stake, p: Plan): seq<Output>
    requires WellFormed(k) && Sound(p)
  {
    Split(p, Funded(k))
  }

  // ----- what the staker gets -----

  /**
  From the reward to the split: the staker gets back at least what was staked exactly when the research subsidy
  could be signed for, or there was none, or the sidestakes draw no more than the reward without it. No output
  is negative exactly when they draw no more than stake and reward without it.
  */
  lemma StakeComesBack(k: Stake, p: Plan, active: seq<SideStake>, coin: Dest)
    requires Ready(k, p, active, coin)
    ensures var s, script := Mined(k, p), k.vout[1].script; var n := |s| - |Funded(k)[2..]|;
      && 0 <= n <= |s|
      && (TotalOf(s[..n], script) >= k.input <==>
            k.signable || k.subsidy == 0 || Drawn(p, script) <= p.reward - k.subsidy)
      && (NoneNegative(s[..n]) <==> Drawn(p, script) <= k.input + p.reward - Taken(k))
  {
    hide Split, Drawn, RoundDown, Registry, Eligible, TotalOf;
    SpecFacts(p, Funded(k), active, coin);
    InputComesBack(p, Funded(k), k.input, Taken(k));
  }

  /**
  The staker can lose part of the stake: of 100 CENT of reward 90 CENT cannot be signed for, and the whole
  reward is sidestaked. Of 1000 CENT staked, 910 CENT come back.
  */
  lemma {:induction false} StakeIsDrawn()
    ensures var script := Pay(0, true);
      var k := Stake([Output(0, Empty), Output(1100 * CENT, script)], 1000 * CENT, 100 * CENT, 90 * CENT, false,
                     [], 0, 0, 1, 0);
      var p := Plan(100 * CENT, false, true, 10, 4, [], [SideStake(5, true, 1.0)], 1);
      && Ready(k, p, [], 0) && |Funded(k)| == 2
      && TotalOf(Mined(k, p), script) == 910 * CENT < k.input
  {
    var script := Pay(0, true);
    var k := Stake([Output(0, Empty), Output(1100 * CENT, script)], 1000 * CENT, 100 * CENT, 90 * CENT, false,
                   [], 0, 0, 1, 0);
    var p := Plan(100 * CENT, false, true, 10, 4, [], [SideStake(5, true, 1.0)], 1);
    WholeDrawn(p, script);
    assert Funded(k) == [Output(0, Empty), Output(1010 * CENT, script)];
    StakerGets(p, Funded(k));
    var s := Mined(k, p);
    assert s[..|s|] == s;
  }

  lemma {:induction false} WholeDrawn(p: Plan, script: Script)
    requires p == Plan(100 * CENT, false, true, 10, 4, [], [SideStake(5, true, 1.0)], 1) && script == Pay(0, true)
    ensures Sound(p) && Drawn(p, script) == 100 * CENT
  {
    var t := Start(Output(p.reward, script));
    assert Mandated(p, Output(p.reward, script)) == t;
    var u := Sidestakes.Paid(t, 5, 1.0, Share(1.0, p.reward), 0);
    assert 1.0 * p.reward as real >= CENT as real;
    assert p.local[1..] == [];
    assert Voluntary([], 7, u, 0, p.reward, Some(0)) == u;
    assert Voluntary(p.local, 8, t, 0, p.reward, Some(0)) == u;
    assert u.outs == [Output(100 * CENT, Pay(5, false))];
    TotalOne(u.outs[0]);
  }

  // ----- what the validator makes of it -----

  /** The coinstake in front of the outputs of the claims: the split, and the foundation's part if there is one. */
  function BeforeClaims(k: Stake, p: Plan): (front: seq<Output>)
    requires WellFormed(k) && Sound(p)
    ensures Mined(k, p) == front + Fees(k).outs
  {
    var s, outs := Mined(k, p), Fees(k).outs;
    MinedEndsIn(k, p);
    s[..|s| - |outs|]
  }

  lemma MinedEndsIn(k: Stake, p: Plan)
    requires WellFormed(k) && Sound(p)
    ensures var s, outs := Mined(k, p), Fees(k).outs;
      |outs| <= |s| && s == s[..|s| - |outs|] + outs
  {
    hide Sides, Stakes, Reversed, MrcRewards.Paid;
    var f, outs := Funded(k), Fees(k).outs;
    var head := f[..|f| - |outs|];
    assert f == head + outs;
    if p.stakeSplit || p.sideStaking {
      EndsIn(Reversed(Sides(p, f[1]).outs + Stakes(p, f[1]) + [Output(0, Empty)]), head, outs);
    } else {
      EndsIn([], head, outs);
    }
  }

  lemma EndsIn(a: seq<Output>, head: seq<Output>, outs: seq<Output>)
    ensures head + outs == (head + outs)[..|head|] + outs
    ensures |head| >= 2 ==> var s := a + (head + outs)[2..]; s == s[..|s| - |outs|] + outs
  {
    if |head| >= 2 {
      assert a + (head + outs)[2..] == (a + head[2..]) + outs;
    }
  }

  /** The validator's account of the claims, which it finds in the order of the block. */
  function AccountOf(k: Stake, p: Plan, claims: seq<Entry>): Account
    requires WellFormed(k) && Sound(p)
  {
    AllClaims(claims, Window(Mined(k, p), |claims|), k.num, k.den)
  }

  /**
  The validator finds the miner's claims: it counts the outputs as written exactly when they are countable,
  and then every claim has what it is worth. Where payments are worth something, the claims hold only then. The
  fees it adds up are the miner's in any case.
  */
  lemma ClaimsAreFound(k: Stake, p: Plan, claims: seq<Entry>)
    requires WellFormed(k) && Sound(p) && multiset(claims) == multiset(Record(k))
    ensures var a, fees := AccountOf(k, p, claims), Fees(k); var countable := Countable(Record(k), BeforeClaims(k, p));
      && |claims| == |Record(k)| == a.claims
      && a.staker == fees.staker && a.fees - a.staker == fees.foundation && a.rewards == Total(fees.outs)
      && (a.nonZero == |fees.outs| <==> countable)
      && (countable ==> ClaimsHold(claims, Window(Mined(k, p), |claims|)))
      && (PaysSomething(BeforeClaims(k, p)) && (forall i :: 0 <= i < |Record(k)| ==> Net(Record(k)[i]) >= 0) ==>
            (ClaimsHold(claims, Window(Mined(k, p), |claims|)) <==> countable))
  {
    hide Countable, Mined, BeforeClaims, AllClaims, Window, Claimed, MrcRewards.Paid, ClaimsHold, PaysSomething, Net,
         Total;
    var record, front := Record(k), BeforeClaims(k, p);
    assert |claims| == |multiset(claims)| == |multiset(record)| == |record|;
    var window := Window(Mined(k, p), |claims|);
    ClaimsAnyOrder(claims, record, window, k.num, k.den);
    PaidIsClaimed(Payees(k), k.limit, k.num, k.den, window);
    FoundIsNonZero(record, window, k.num, k.den);
    CountedExactly(record, front);
    if Countable(record, front) {
      CountableHolds(record, front);
      HoldAnyOrder(record, claims, window);
    }
    if PaysSomething(front) && (forall i :: 0 <= i < |record| ==> Net(record[i]) >= 0) {
      HoldsIsCountable(record, front);
      if ClaimsHold(claims, window) {
        HoldAnyOrder(claims, record, window);
      }
    }
  }

  /** The miner and the validator agree on where the outputs that are not the staker's start. */
  predicate SameStart(k: Stake)
    requires k.den > 0
  {
    Record(k) == [] || k.num == 0 || Fees(k).foundation > 0
  }

  /** The account of a validator that counts the outputs of the claims as written. */
  function Books(k: Stake): Account
    requires k.den > 0
  {
    var fees := Fees(k);
    Account(|Record(k)|, |fees.outs|, Total(fees.outs), fees.staker, fees.staker + fees.foundation)
  }

  /** The validator accepts the coinstake, given that it counts the outputs of the claims as written. */
  predicate Judged(k: Stake, p: Plan, active: seq<SideStake>)
    requires WellFormed(k) && Sound(p) && p.sideStaking
  {
    var s := Mined(k, p);
    SplitKeeps(p, Funded(k));
    Accepted(s, k.input, Total(s) - k.input, k.reward - Taken(k), Books(k), FoundationExpected(|Record(k)|, k.num),
             k.foundation, p.mandatoryLimit, active)
  }

  /** The test on the total claimed refuses the miner's coinstake exactly for negative fees to the foundation. */
  lemma ClaimedIsOwed(k: Stake, p: Plan)
    requires WellFormed(k) && Sound(p) && p.sideStaking
    ensures var a := Books(k);
      Total(Mined(k, p)) - k.input <= k.reward - Taken(k) + a.fees + a.rewards <==> Fees(k).foundation >= 0
  {
    hide Split, Total, MrcRewards.Paid, Claimed;
    var f, fees := Funded(k), Fees(k);
    SplitKeeps(p, f);
    var mid := if fees.foundation > 0 then [Output(fees.foundation, Pay(k.foundation, false))] else [];
    assert f[1..] == [f[1]] + (mid + fees.outs);
    TotalAppend([f[1]], mid + fees.outs);
    TotalAppend(mid, fees.outs);
    TotalOne(f[1]);
    TotalNone();
    TotalOne(Output(fees.foundation, Pay(k.foundation, false)));
  }

  lemma SameStartFees(k: Stake)
    requires k.den > 0 && SameStart(k)
    ensures Fees(k).foundation >= 0
  {
    NoFees(Payees(k), k.limit, k.num, k.den);
  }

  /**
  Where the validator starts at the right output, it accepts exactly if the sidestakes eligible for what it takes
  to be the reward, which is the reward less what was taken off, are served as often as required.
  */
  lemma JudgedRight(k: Stake, p: Plan, active: seq<SideStake>, coin: Dest)
    requires Ready(k, p, active, coin) && SameStart(k)
    ensures var e := Eligible(active, coin, p.reward - Taken(k));
      Judged(k, p, active) <==> Least(p.mandatoryLimit, |e|) <= ServedCount(p, coin, e) <= p.mandatoryLimit
  {
    hide Split, Validates, Eligible, ServedCount, Registry, MrcRewards.Paid, Claimed, Total;
    var f, s, fees := Funded(k), Mined(k, p), Fees(k);
    var start := |s| - |f[2..]|;
    SplitKeeps(p, f);
    StartsAgree(Payees(k), k.limit, k.num, k.den, s);
    FrontTotal(p, f, k.input, Taken(k));
    AcceptsServed(p, f, active, coin, k.input, Taken(k));
    ClaimedIsOwed(k, p);
    SameStartFees(k);
    assert StartIndex(s, |fees.outs|, FoundationExpected(|Record(k)|, k.num)) == start;
    assert s[1].script == f[1].script == k.vout[1].script;
    if FoundationExpected(|Record(k)|, k.num) {
      assert s[start..][0] == f[2..][0] == Output(fees.foundation, Pay(k.foundation, false));
    }
  }

  /** With the research subsidy signed for, the condition is the one on the settings alone. */
  lemma JudgedSigned(k: Stake, p: Plan, active: seq<SideStake>, coin: Dest)
    requires Ready(k, p, active, coin) && SameStart(k) && Taken(k) == 0
    ensures Judged(k, p, active) <==> forall j :: DrawnCount(p) <= j < |p.specs| ==> !PaidFor(p, coin, p.specs[j])
  {
    hide Split, Validates, Eligible, ServedCount, Registry, MrcRewards.Paid, Claimed, PaidFor, Judged;
    JudgedRight(k, p, active, coin);
    AcceptsExactly(p, Funded(k), active, coin, k.input);
    AcceptsServed(p, Funded(k), active, coin, k.input, 0);
  }

  lemma {:induction false} EligibleWorth(active: seq<SideStake>, coin: Dest, total: int)
    ensures forall i :: 0 <= i < |Eligible(active, coin, total)| ==> Eligible(active, coin, total)[i].required >= CENT
  {
    hide Share;
    if active != [] {
      EligibleWorth(active[..|active| - 1], coin, total);
    }
  }

  lemma {:induction false} VoluntaryWorth(
      local: seq<SideStake>, room: nat, t: Tally, input: int, reward: int, coin: Option<Dest>)
    requires Fair(t, input, reward) && forall i :: 0 <= i < |local| ==> local[i].alloc >= 0.0
    ensures var u := Voluntary(local, room, t, input, reward, coin);
      t.outs <= u.outs && (|u.outs| > |t.outs| ==> u.outs[|t.outs|].value >= CENT)
  {
    hide Share, Fair;
    VoluntaryFollows(local, room, t, input, reward, coin);
    if local != [] && room > 0 {
      var s := local[0];
      if Skipped(s, reward) {
        VoluntaryWorth(local[1..], room, t, input, reward, coin);
      } else if t.sum + s.alloc > 1.0 {
      } else if coin == Some(s.dest) {
        VoluntaryWorth(local[1..], room, t, input, reward, coin);
      } else {
        FairReward(t, input, reward);
        ShareRoundsDown(s.alloc, reward);
        WorthSomething(s.alloc, reward);
        PaidFair(t, s.dest, s.alloc, Share(s.alloc, reward), input, reward);
        var v := Sidestakes.Paid(t, s.dest, s.alloc, Share(s.alloc, reward), input);
        VoluntaryFollows(local[1..], room - 1, v, input, reward, coin);
      }
    }
  }

  lemma FairReward(t: Tally, input: int, reward: int)
    requires Fair(t, input, reward)
    ensures reward >= 0
  {
  }

  /** The first sidestake of a split is worth an output. */
  lemma FirstSideWorth(p: Plan, vout: seq<Output>, active: seq<SideStake>, coin: Dest)
    requires Honest(p, vout, active, coin) && Sides(p, vout[1]).outs != []
    ensures Sides(p, vout[1]).outs[0].value >= CENT
  {
    hide Registry, Share, Fair, Eligible, Voluntary, Mandatory, RoundDown;
    var stake := vout[1];
    var input := stake.value - p.reward;
    SpecFacts(p, vout, active, coin);
    StartIsFair(stake, p.reward);
    MandatoryPays(p.specs, p.mandatoryLimit, Start(stake), input, p.reward);
    MandatoryFair(p.specs, p.mandatoryLimit, Start(stake), input, p.reward);
    SidesFit(p, stake);
    var m := Mandated(p, stake);
    if m.outs != [] {
      EligibleWorth(active, coin, p.reward);
      assert p.specs[0] in multiset(p.specs);
      assert p.specs[0] in multiset(Eligible(active, coin, p.reward));
      assert Sides(p, stake).outs[0] == m.outs[0] == m.outs[0 + 0];
    } else {
      VoluntaryWorth(p.local, p.maxOutputs - 2, m, input, p.reward, Destination(stake.script));
    }
  }

  /** The first of some equal parts is worth nothing exactly if the value is less than one unit for each. */
  lemma PieceIsNothing(value: int, n: nat, script: Script)
    requires n > 0
    ensures Pieces(value, n, script)[0].value == 0 <==> if n == 1 then value == 0 else value < n && -value < n
  {
    PartIsNothing(value, n);
  }

  lemma PartIsNothing(value: int, n: nat)
    requires n > 0
    ensures TruncDiv(value, n) == 0 <==> value < n && -value < n
  {
    if value >= 0 {
      QuotientIsNothing(value, n);
    } else {
      QuotientIsNothing(-value, n);
    }
  }

  lemma QuotientIsNothing(a: nat, n: nat)
    requires n > 0
    ensures a / n == 0 <==> a < n
  {
    if a / n >= 1 {
      MulMono(1, a / n, n, n);
    }
  }

  /** The last output of the split in front of the claims. */
  lemma LastOfSplit(p: Plan, vout: seq<Output>)
    requires Sound(p) && |vout| >= 2 && (p.stakeSplit || p.sideStaking)
    ensures var s := Split(p, vout); var n := |s| - |vout[2..]|;
      && 2 <= n <= |s|
      && s[n - 1] == if Sides(p, vout[1]).outs != [] then Sides(p, vout[1]).outs[0] else Stakes(p, vout[1])[0]
  {
    hide Sides, Pieces, Count;
    var sides, stakes := Sides(p, vout[1]).outs, Stakes(p, vout[1]);
    var front := sides + stakes + [Output(0, Empty)];
    assert Split(p, vout)[|front| - 1] == front[0];
  }

  lemma {:induction false} NothingMet(specs: seq<Spec>, outs: seq<Output>, coin: Dest)
    requires forall i :: 0 <= i < |outs| ==> Destination(outs[i].script) == Some(coin)
    requires forall i :: 0 <= i < |specs| ==> specs[i].dest != coin
    ensures MetCount(specs, outs) == 0
  {
    if specs != [] {
      NothingMet(specs[..|specs| - 1], outs, coin);
    }
  }

  /** Without a sidestake drawn the validator requires none, whatever was taken off. */
  lemma NoneRequired(p: Plan, vout: seq<Output>, active: seq<SideStake>, coin: Dest, total: int)
    requires Honest(p, vout, active, coin) && Sides(p, vout[1]).outs == [] && total <= p.reward
    ensures Least(p.mandatoryLimit, |Eligible(active, coin, total)|) == 0
  {
    hide Share, Fair, Eligible, Voluntary, Mandatory, RoundDown;
    var stake := vout[1];
    SpecFacts(p, vout, active, coin);
    StartIsFair(stake, p.reward);
    MandatoryPays(p.specs, p.mandatoryLimit, Start(stake), stake.value - p.reward, p.reward);
    SidesFit(p, stake);
    assert Least(p.mandatoryLimit, |p.specs|) == 0;
    FewerEligible(active, coin, total, p.reward);
    AnyOrder(p.specs, Eligible(active, coin, p.reward));
  }

  /** Without sidestakes everything between the empty output and the claims goes to the staker. */
  lemma OnlyStakes(p: Plan, vout: seq<Output>)
    requires Sound(p) && |vout| >= 2 && (p.stakeSplit || p.sideStaking) && Sides(p, vout[1]).outs == []
    ensures var s := Split(p, vout); var n := |s| - |vout[2..]|;
      2 <= n <= |s| && forall i :: 1 <= i < n ==> s[i].script == vout[1].script
  {
    hide Sides, Stakes, Split, Reversed;
    SplitKeeps(p, vout);
    FrontTurned(p, vout);
    StakeScripts(p, vout[1]);
    var s, stakes := Split(p, vout), Stakes(p, vout[1]);
    assert [] + stakes == stakes;
    SameScripts(s, |s| - |vout[2..]|, stakes, vout[1].script);
  }

  lemma SameScripts(s: seq<Output>, n: nat, outs: seq<Output>, script: Script)
    requires 1 <= n <= |s| && s[1..n] == Reversed(outs) && forall i :: 0 <= i < |outs| ==> outs[i].script == script
    ensures forall i :: 1 <= i < n ==> s[i].script == script
  {
    hide Reversed;
    forall i | 1 <= i < n ensures s[i].script == script {
      assert s[i] == s[1..n][i - 1] == outs[|outs| - i];
    }
  }

  /** Stake outputs alone pass where no mandatory sidestake is required. */
  lemma StakesValidate(p: Plan, vout: seq<Output>, active: seq<SideStake>, coin: Dest, total: int)
    requires Honest(p, vout, active, coin) && Sides(p, vout[1]).outs == [] && total <= p.reward
    ensures var s := Split(p, vout); var n := |s| - |vout[2..]|;
      2 <= n <= |s| && Validates(s[1..n - 1], Eligible(active, coin, total), p.mandatoryLimit)
  {
    hide Eligible, Sides, Split, MetCount;
    OnlyStakes(p, vout);
    NoneRequired(p, vout, active, coin, total);
    EligibleFacts(active, coin, total);
    var s := Split(p, vout);
    var n := |s| - |vout[2..]|;
    var outs := s[1..n - 1];
    forall i | 0 <= i < |outs| ensures Destination(outs[i].script) == Some(coin) {
      assert outs[i] == s[i + 1];
    }
    NothingMet(Eligible(active, coin, total), outs, coin);
  }

  /** The split in front of its last output, in total. */
  lemma TotalButLast(s: seq<Output>, n: nat)
    requires 0 < n <= |s|
    ensures Total(s[..n]) == Total(s[..n - 1]) + s[n - 1].value
  {
    assert s[..n][..n - 1] == s[..n - 1];
  }

  /**
  Where the validator starts one output early, it takes the last output of the split for the foundation's. It
  accepts only if that is the staker's own, the staker is the foundation, the foundation's part is nothing, no
  sidestake was drawn and the stake output is too small to give each of its parts a unit.
  */
  lemma JudgedWrong(k: Stake, p: Plan, active: seq<SideStake>, coin: Dest)
    requires Ready(k, p, active, coin) && !SameStart(k)
    ensures 1 < p.maxOutputs
    ensures var value, n := k.input + p.reward - Taken(k), Count(p, 1);
      Judged(k, p, active) <==>
        && Sides(p, Funded(k)[1]).outs == [] && Fees(k).foundation == 0 && coin == k.foundation
        && (if n == 1 then value == 0 else value < n && -value < n)
  {
    hide Split, Validates, Eligible, Registry, MrcRewards.Paid, Claimed, Total, Sides, Pieces, Count;
    var f, s, fees := Funded(k), Mined(k, p), Fees(k);
    SplitKeeps(p, f);
    StartsAgree(Payees(k), k.limit, k.num, k.den, s);
    FundedLength(k);
    var end := |s| - |f[2..]|;
    assert StartIndex(s, |fees.outs|, FoundationExpected(|Record(k)|, k.num)) == end - 1;
    LastOfSplit(p, f);
    FrontTotal(p, f, k.input, Taken(k));
    TotalButLast(s, end);
    ClaimedIsOwed(k, p);
    SidesFit(p, f[1]);
    if Sides(p, f[1]).outs != [] {
      FirstSideWorth(p, f, active, coin);
    } else {
      TotalNone();
      StakeScripts(p, f[1]);
      PieceIsNothing(f[1].value, Count(p, 1), f[1].script);
      StakesValidate(p, f, active, coin, p.reward - Taken(k));
    }
  }

  /**
  A claim can leave the foundation nothing: of a fee of one unit four fifths are rounded down to none. The miner then
  writes no output for the foundation, the validator looks for one, and refuses the coinstake.
  */
  lemma {:induction false} MissingFoundation()
    ensures var k := Stake([Output(0, Empty), Output(1100 * CENT, Pay(0, true))], 1000 * CENT, 100 * CENT, 0, true,
                           [Entry(1, 7, BlockLedger.Mrc(Some(1), 10 * CENT, 1), Some(9))], 1, 4, 5, 8);
      var p := Plan(100 * CENT + 1, false, true, 10, 4, [], [], 1);
      && Ready(k, p, [], 0) && |Record(k)| == 1 && Fees(k).foundation == 0 && !SameStart(k)
      && !Judged(k, p, [])
  {
    hide Judged;
    var e := Entry(1, 7, BlockLedger.Mrc(Some(1), 10 * CENT, 1), Some(9));
    var k := Stake([Output(0, Empty), Output(1100 * CENT, Pay(0, true))], 1000 * CENT, 100 * CENT, 0, true,
                   [e], 1, 4, 5, 8);
    var p := Plan(100 * CENT + 1, false, true, 10, 4, [], [], 1);
    OneUnitFee(k, e);
    JudgedWrong(k, p, [], 0);
  }

  lemma {:induction false} OneUnitFee(k: Stake, e: Entry)
    requires k.entries == [e] && k.limit == 1 && k.num == 4 && k.den == 5 && e.mrc.fee == 1 && e.beacon.Some?
    ensures |Record(k)| == 1 && Fees(k).foundation == 0 && Fees(k).staker == 1
  {
    assert k.entries[..0] == [];
    assert FoundationFee(1, 4, 5) == 0;
  }

  // ----- the whole way -----

  /** Where the validator starts, by its own count. */
  function StartOf(k: Stake, p: Plan, claims: seq<Entry>): int
    requires WellFormed(k) && Sound(p)
  {
    StartIndex(Mined(k, p), AccountOf(k, p, claims).nonZero, FoundationExpected(|claims|, k.num))
  }

  /** Outputs that are countable, or worth something where claims hold, keep the start within the coinstake. */
  lemma StartInRange(k: Stake, p: Plan, claims: seq<Entry>)
    requires WellFormed(k) && Sound(p) && p.sideStaking && multiset(claims) == multiset(Record(k))
    requires
      || Countable(Record(k), BeforeClaims(k, p))
      || (&& PaysSomething(BeforeClaims(k, p)) && (forall i :: 0 <= i < |Record(k)| ==> Net(Record(k)[i]) >= 0)
          && ClaimsHold(claims, Window(Mined(k, p), |claims|)))
    ensures 1 <= StartOf(k, p, claims)
  {
    hide Split, MrcRewards.Paid, Claimed, Countable, AllClaims, ClaimsHold, Total, PaysSomething;
    ClaimsAreFound(k, p, claims);
    SplitKeeps(p, Funded(k));
    StartsAgree(Payees(k), k.limit, k.num, k.den, Mined(k, p));
    FundedLength(k);
  }

  /**
  The miner pays the claims and splits the rest, and the validator checks the claims and then the division, with its
  own count of the outputs of the claims.
  */
  method MineAndCheck(k: Stake, p: Plan, active: seq<SideStake>, coin: Dest, claims: seq<Entry>)
    returns (vout: seq<Output>, ok: bool)
    requires Ready(k, p, active, coin) && multiset(claims) == multiset(Record(k))
    requires ClaimsHold(claims, Window(Mined(k, p), |claims|)) ==> 1 <= StartOf(k, p, claims)
    ensures vout == Mined(k, p) && |vout| >= 2
    ensures ok <==>
      && |claims| <= k.limit && ClaimsHold(claims, Window(vout, |claims|))
      && Accepted(vout, k.input, Total(vout) - k.input, k.reward - Taken(k), AccountOf(k, p, claims),
                  FoundationExpected(|claims|, k.num), k.foundation, p.mandatoryLimit, active)
    ensures Countable(Record(k), BeforeClaims(k, p)) ==> (ok <==> |claims| <= k.limit && Judged(k, p, active))
    ensures ok && PaysSomething(BeforeClaims(k, p)) && (forall i :: 0 <= i < |Record(k)| ==> Net(Record(k)[i]) >= 0)
        ==> Countable(Record(k), BeforeClaims(k, p))
  {
    hide Split, Validates, Eligible, MrcRewards.Paid, Claimed, Total, Countable, AllClaims, Accepted, ClaimsHold,
         Rewarded, PaysSomething;
    var tx := new MutableTransaction(k.vout);
    var reward, recorded :=
      CreateMRCRewards(tx, k.entries, k.limit, k.num, k.den, Pay(k.foundation, false), k.reward, k.subsidy, k.signable);
    FeesArePaid(k);
    assert tx.vout == Funded(k) && reward == p.reward;
    SplitCoinStakeOutput(tx, p);
    vout := tx.vout;
    ClaimsAreFound(k, p, claims);
    SplitKeeps(p, Funded(k));
    RecordEmpty(k, claims);
    var account;
    ok, account := CheckMRCRewards(vout, claims, |claims|, k.limit, k.num, k.den);
    if ok {
      var claimed := TotalClaimed(vout, k.input);
      ok := CheckReward(vout, k.input, claimed, k.reward - Taken(k), account, |claims|, k.num, k.foundation,
                        p.mandatoryLimit, active);
    }
  }

  lemma RecordEmpty(k: Stake, claims: seq<Entry>)
    requires k.den > 0 && multiset(claims) == multiset(Record(k))
    ensures |claims| == |Record(k)|
  {
    assert |claims| == |multiset(claims)| == |multiset(Record(k))| == |Record(k)|;
  }

  lemma FundedLength(k: Stake)
    requires WellFormed(k)
    ensures |Funded(k)[2..]| == |Fees(k).outs| + if Fees(k).foundation > 0 then 1 else 0
  {
  }
}
