/** The validator's count of mandatory sidestakes, and exactly which splits of the miner it accepts. */
module SidestakeRules {
  import opened Basics
  import opened Sidestakes
  import opened Coinstake
  import opened SplitSettings
  import opened StakeSplitter

  function MetCount(specs: seq<Spec>, outs: seq<Output>): (n: nat)
    ensures n <= |specs|
  {
    if specs == [] then 0 else
    MetCount(specs[..|specs| - 1], outs) + (if Met(specs[|specs| - 1], outs) then 1 else 0)
  }

  predicate DistinctDests(specs: seq<Spec>) {
    forall i, j :: 0 <= i < j < |specs| ==> specs[i].dest != specs[j].dest
  }

  /**
  Outputs pass when each has a destination and the number of sidestakes met is what is required, and within the
  limit.
  */
  predicate Validates(outs: seq<Output>, eligible: seq<Spec>, limit: nat) {
    && (forall i :: 0 <= i < |outs| ==> Destination(outs[i].script).Some?)
    && Least(limit, |eligible|) <= MetCount(eligible, outs) <= limit
  }

  // ----- eligible sidestakes -----

  lemma {:induction false} EligibleFacts(active: seq<SideStake>, coin: Dest, total: int)
    requires forall i, j :: 0 <= i < j < |active| ==> active[i].dest != active[j].dest
    ensures var e := Eligible(active, coin, total);
      && DistinctDests(e)
      && (forall i :: 0 <= i < |e| ==> e[i].dest != coin && e[i].required == Share(e[i].alloc, total))
      && (forall i :: 0 <= i < |e| ==>
            exists k :: 0 <= k < |active| && active[k].dest == e[i].dest && active[k].alloc == e[i].alloc)
  {
    if active != [] {
      var n := |active| - 1;
      EligibleFacts(active[..n], coin, total);
      var e, d := Eligible(active, coin, total), Eligible(active[..n], coin, total);
      forall i | 0 <= i < |e|
        ensures exists k :: 0 <= k < |active| && active[k].dest == e[i].dest && active[k].alloc == e[i].alloc
      {
        if i < |d| {
          var k :| 0 <= k < n && active[..n][k].dest == d[i].dest && active[..n][k].alloc == d[i].alloc;
          assert active[k] == active[..n][k];
        }
      }
      if |e| > |d| {
        forall i | 0 <= i < |d| ensures d[i].dest != active[n].dest {
          var k :| 0 <= k < n && active[..n][k].dest == d[i].dest && active[..n][k].alloc == d[i].alloc;
          assert active[k] == active[..n][k];
        }
      }
    }
  }

  function AllocSum(specs: seq<Spec>): real {
    if specs == [] then 0.0 else AllocSum(specs[..|specs| - 1]) + specs[|specs| - 1].alloc
  }

  lemma {:induction false} EligibleAlloc(active: seq<SideStake>, coin: Dest, total: int)
    requires forall i :: 0 <= i < |active| ==> active[i].alloc >= 0.0
    ensures AllocSum(Eligible(active, coin, total)) <= AllocTotal(active)
  {
    hide Suppressed, Share;
    if active != [] {
      var n := |active| - 1;
      EligibleAlloc(active[..n], coin, total);
      var d := Eligible(active[..n], coin, total);
      var s := active[n];
      if !Suppressed(s, coin, total) {
        var e := Eligible(active, coin, total);
        assert e[..|e| - 1] == d;
      } else {
        assert d + [] == d;
      }
    }
  }

  // ----- sums do not depend on the order drawn -----

  lemma {:induction false} AllocSumSplit(a: seq<Spec>, b: seq<Spec>)
    ensures AllocSum(a + b) == AllocSum(a) + AllocSum(b)
  {
    if b == [] {
      assert a + b == a;
    } else {
      assert (a + b)[..|a + b| - 1] == a + b[..|b| - 1];
      AllocSumSplit(a, b[..|b| - 1]);
    }
  }

  lemma {:induction false} AnyOrder(a: seq<Spec>, b: seq<Spec>)
    requires multiset(a) == multiset(b)
    ensures AllocSum(a) == AllocSum(b) && |a| == |b|
    decreases |a|
  {
    assert |a| == |multiset(a)| == |multiset(b)| == |b|;
    if a != [] {
      var n := |a| - 1;
      var i := TakenOut(a, b);
      AnyOrder(a[..n], b[..i] + b[i + 1..]);
      assert b == b[..i] + ([b[i]] + b[i + 1..]);
      One(b[i]);
      AllocSumSplit(b[..i], b[i + 1..]);
      AllocSumSplit([b[i]], b[i + 1..]);
      AllocSumSplit(b[..i], [b[i]] + b[i + 1..]);
    }
  }

  lemma One(s: Spec)
    ensures AllocSum([s]) == s.alloc
  {
    assert [s][..0] == [];
  }

  // ----- what the miner pays -----

  /** The outputs from a place on pay the first k sidestakes, each at least what it must get. */
  ghost predicate PaysEach(outs: seq<Output>, from: nat, specs: seq<Spec>, k: nat) {
    && k <= |specs| && from + k <= |outs|
    && forall i :: 0 <= i < k ==>
         outs[from + i].script == Pay(specs[i].dest, false) && outs[from + i].value >= specs[i].required
  }

  /** With room in the whole, each of the first sidestakes gets at least what it must get. */
  lemma {:induction false} MandatoryPays(specs: seq<Spec>, limit: nat, t: Tally, input: int, reward: int)
    requires Fair(t, input, reward) && RoundDown(specs, reward) && t.sum + AllocSum(specs) <= 1.0
    ensures var u := Mandatory(specs, limit, t, input); var k := Least(limit, |specs|);
      |u.outs| == |t.outs| + k && t.outs <= u.outs && PaysEach(u.outs, |t.outs|, specs, k)
  {
    hide Fair, PaysEach, RoundDown, AllocSum;
    var k := Least(limit, |specs|);
    if specs != [] && limit > 0 {
      var s := specs[0];
      FirstAlloc(specs, reward);
      assert RoundsDown(s, reward) by { FirstRounds(specs, reward); }
      PaidFair(t, s.dest, s.alloc, s.required, input, reward);
      var p := Paid(t, s.dest, s.alloc, s.required, input);
      MandatoryPays(specs[1..], limit - 1, p, input, reward);
      var u := Mandatory(specs, limit, t, input);
      assert u.outs[|t.outs|] == p.outs[|t.outs|];
      PaysOneMore(u.outs, |t.outs|, specs, k);
    } else {
      PaysNone(t.outs, specs);
    }
  }

  lemma PaysNone(outs: seq<Output>, specs: seq<Spec>)
    ensures PaysEach(outs, |outs|, specs, 0)
  {
  }

  lemma PaysOneMore(outs: seq<Output>, from: nat, specs: seq<Spec>, k: nat)
    requires specs != [] && k > 0 && PaysEach(outs, from + 1, specs[1..], k - 1)
    requires from < |outs| && outs[from].script == Pay(specs[0].dest, false) && outs[from].value >= specs[0].required
    ensures PaysEach(outs, from, specs, k)
  {
    forall i | 0 <= i < k
      ensures outs[from + i].script == Pay(specs[i].dest, false) && outs[from + i].value >= specs[i].required
    {
      if i > 0 {
        assert specs[i] == specs[1..][i - 1];
        assert outs[from + 1 + (i - 1)] == outs[from + i];
      }
    }
  }

  lemma {:induction false} AllocSumPositive(specs: seq<Spec>, reward: int)
    requires RoundDown(specs, reward)
    ensures AllocSum(specs) >= 0.0
  {
    if specs != [] {
      AllocSumPositive(specs[..|specs| - 1], reward);
    }
  }

  // ----- the validator -----

  function Marks(matched: seq<bool>): (n: nat)
    ensures n <= |matched|
  {
    if matched == [] then 0 else Marks(matched[..|matched| - 1]) + (if matched[|matched| - 1] then 1 else 0)
  }

  lemma {:induction false} MarkOne(matched: seq<bool>, j: nat)
    requires j < |matched| && !matched[j]
    ensures Marks(matched[j := true]) == Marks(matched) + 1
  {
    var n := |matched| - 1;
    if j < n {
      MarkOne(matched[..n], j);
      assert matched[j := true][..n] == matched[..n][j := true];
    } else {
      assert matched[j := true][..n] == matched[..n];
    }
  }

  lemma {:induction false} MarksAreMet(matched: seq<bool>, specs: seq<Spec>, outs: seq<Output>)
    requires |matched| == |specs| && forall j :: 0 <= j < |specs| ==> matched[j] == Met(specs[j], outs)
    ensures Marks(matched) == MetCount(specs, outs)
  {
    if specs != [] {
      var n := |specs| - 1;
      MarksAreMet(matched[..n], specs[..n], outs);
    }
  }

  /** The sidestakes met by outputs, one output more. */
  lemma MetMore(spec: Spec, outs: seq<Output>, i: nat)
    requires i < |outs|
    ensures Met(spec, outs[..i + 1]) <==> Met(spec, outs[..i]) || Meets(outs[i], spec)
  {
    if Met(spec, outs[..i]) {
      var k :| 0 <= k < i && Meets(outs[..i][k], spec);
      assert outs[..i + 1][k] == outs[..i][k];
    }
    if Meets(outs[i], spec) {
      assert outs[..i + 1][i] == outs[i];
    }
    if Met(spec, outs[..i + 1]) {
      var k :| 0 <= k < i + 1 && Meets(outs[..i + 1][k], spec);
      if k < i { assert outs[..i][k] == outs[..i + 1][k]; }
    }
  }

  /** The first sidestake not yet matched that an output meets, or none. */
  method Match(matched: seq<bool>, eligible: seq<Spec>, o: Output, dest: Dest) returns (j: nat)
    requires |matched| == |eligible| && Destination(o.script) == Some(dest)
    ensures j <= |eligible|
    ensures j < |eligible| ==> !matched[j] && Meets(o, eligible[j])
    ensures j == |eligible| ==> forall k :: 0 <= k < |eligible| ==> matched[k] || !Meets(o, eligible[k])
  {
    j := 0;
    while j < |eligible|
      invariant 0 <= j <= |eligible|
      invariant forall k :: 0 <= k < j ==> matched[k] || !Meets(o, eligible[k])
    {
      if !matched[j] && eligible[j].dest == dest && o.value >= eligible[j].required {
        return;
      }
      j := j + 1;
    }
  }

  /** The marks are on the sidestakes that some outputs meet. */
  ghost predicate Tracks(matched: seq<bool>, specs: seq<Spec>, outs: seq<Output>) {
    |matched| == |specs| && forall j :: 0 <= j < |specs| ==> matched[j] == Met(specs[j], outs)
  }

  /** One output more marks at most one sidestake, the first one that is not marked and that it meets. */
  lemma TracksMore(matched: seq<bool>, specs: seq<Spec>, outs: seq<Output>, i: nat, j: nat)
    requires i < |outs| && Tracks(matched, specs, outs[..i]) && DistinctDests(specs) && j <= |specs|
    requires j < |specs| ==> !matched[j] && Meets(outs[i], specs[j])
    requires j == |specs| ==> forall k :: 0 <= k < |specs| ==> matched[k] || !Meets(outs[i], specs[k])
    ensures Tracks(if j < |specs| then matched[j := true] else matched, specs, outs[..i + 1])
  {
    hide Met;
    forall k | 0 <= k < |specs| ensures Met(specs[k], outs[..i + 1]) <==>
        Met(specs[k], outs[..i]) || Meets(outs[i], specs[k]) {
      MetMore(specs[k], outs, i);
    }
  }

  lemma MarksCount(matched: seq<bool>, specs: seq<Spec>, outs: seq<Output>)
    requires Tracks(matched, specs, outs)
    ensures Marks(matched) == MetCount(specs, outs)
  {
    MarksAreMet(matched, specs, outs);
  }

  lemma TracksNone(specs: seq<Spec>)
    ensures Tracks(seq(|specs|, j => false), specs, []) && Marks(seq(|specs|, j => false)) == 0
  {
    NoneMet(specs);
    NoMarks(|specs|);
  }

  method ValidateMandatorySidestakeOutputs(vout: seq<Output>, coin: Dest, total: int, mrcStart: nat, limit: nat,
                                           active: seq<SideStake>) returns (ok: bool)
    requires 1 <= mrcStart <= |vout| && forall i, j :: 0 <= i < j < |active| ==> active[i].dest != active[j].dest
    ensures ok == Validates(vout[1..mrcStart], Eligible(active, coin, total), limit)
  {
    hide Met, Eligible, Share, Tracks, MetCount, Marks;
    var eligible := ComputeEligible(active, coin, total);
    EligibleFacts(active, coin, total);
    var expected := Least(limit, |eligible|);
    ghost var outs := vout[1..mrcStart];
    var matched := seq(|eligible|, j => false);
    var validated := 0;
    TracksNone(eligible);
    assert outs[..0] == [];
    var i := 1;
    while i < mrcStart
      invariant 1 <= i <= mrcStart && |matched| == |eligible| && validated == Marks(matched) <= limit
      invariant forall k :: 0 <= k < i - 1 ==> Destination(outs[k].script).Some?
      invariant Tracks(matched, eligible, outs[..i - 1])
    {
      var o := vout[i];
      assert o == outs[i - 1];
      var dest := Destination(o.script);
      if dest.None? {
        return false;
      }
      if dest.value == coin {
        TracksMore(matched, eligible, outs, i - 1, |eligible|);
      } else {
        var j := Match(matched, eligible, o, dest.value);
        TracksMore(matched, eligible, outs, i - 1, j);
        if j < |eligible| {
          MarkOne(matched, j);
          matched := matched[j := true];
          validated := validated + 1;
        }
      }
      if validated > limit {
        MarksCount(matched, eligible, outs[..i]);
        MetCountGrows(eligible, outs, i);
        return false;
      }
      i := i + 1;
    }
    assert outs[..mrcStart - 1] == outs;
    MarksCount(matched, eligible, outs);
    return validated >= expected;
  }

  lemma NoneMet(specs: seq<Spec>)
    ensures forall j :: 0 <= j < |specs| ==> !Met(specs[j], [])
  {
  }

  lemma {:induction false} NoMarks(n: nat)
    ensures Marks(seq(n, j => false)) == 0
  {
    if n > 0 {
      NoMarks(n - 1);
      assert seq(n, j => false)[..n - 1] == seq(n - 1, j => false);
    }
  }

  lemma {:induction false} MetCountGrows(specs: seq<Spec>, outs: seq<Output>, i: nat)
    requires i <= |outs|
    ensures MetCount(specs, outs[..i]) <= MetCount(specs, outs)
  {
    if specs != [] {
      var n := |specs| - 1;
      MetCountGrows(specs[..n], outs, i);
      if Met(specs[n], outs[..i]) {
        var k :| 0 <= k < i && Meets(outs[..i][k], specs[n]);
        assert Meets(outs[k], specs[n]);
      }
    }
  }

  // ----- the miner's split before the validator -----

  /** The sidestakes are those of the registry, in any order. */
  ghost predicate Honest(p: Plan, vout: seq<Output>, active: seq<SideStake>, coin: Dest) {
    && Sound(p) && p.sideStaking && |vout| >= 2 && Destination(vout[1].script) == Some(coin)
    && Registry(active) && multiset(p.specs) == multiset(Eligible(active, coin, p.reward))
    && 0 <= p.reward
    && (forall i :: 0 <= i < |p.local| ==> p.local[i].alloc >= 0.0)
  }

  /** How many mandatory sidestakes are drawn. */
  function DrawnCount(p: Plan): nat {
    Least(p.mandatoryLimit, |p.specs|)
  }

  function RequiredSum(specs: seq<Spec>): int {
    if specs == [] then 0 else RequiredSum(specs[..|specs| - 1]) + specs[|specs| - 1].required
  }

  /** The settings lead to a voluntary sidestake that pays what a mandatory one must get. */
  ghost predicate PaidFor(p: Plan, coin: Dest, spec: Spec)
    requires Sound(p)
  {
    var n := DrawnCount(p);
    PaysFor(p.local, p.maxOutputs - 2 - n, AllocSum(p.specs[..n]), p.reward - RequiredSum(p.specs[..n]),
            p.reward, Some(coin), spec)
  }

  /** A mandatory sidestake is served when it is one of those drawn, or a voluntary one pays for it. */
  ghost predicate Served(p: Plan, coin: Dest, spec: Spec)
    requires Sound(p)
  {
    IsDrawn(p, spec.dest) || PaidFor(p, coin, spec)
  }

  predicate IsDrawn(p: Plan, dest: Dest) {
    exists j :: 0 <= j < DrawnCount(p) && p.specs[j].dest == dest
  }

  ghost function ServedCount(p: Plan, coin: Dest, specs: seq<Spec>): nat
    requires Sound(p)
  {
    if specs == [] then 0 else
    ServedCount(p, coin, specs[..|specs| - 1]) + (if Served(p, coin, specs[|specs| - 1]) then 1 else 0)
  }

  /** The outputs of the voluntary sidestakes. */
  ghost function Extras(p: Plan, stake: Output): seq<Output>
    requires Sound(p)
  {
    SidesFit(p, stake);
    Sides(p, stake).outs[|Mandated(p, stake).outs|..]
  }

  lemma SpecFacts(p: Plan, vout: seq<Output>, active: seq<SideStake>, coin: Dest)
    requires Honest(p, vout, active, coin)
    ensures RoundDown(p.specs, p.reward) && AllocSum(p.specs) <= 1.0 && DistinctDests(p.specs)
    ensures forall i :: 0 <= i < |p.specs| ==> p.specs[i].dest != coin
  {
    hide Share, Eligible, Fair;
    var e := Eligible(active, coin, p.reward);
    EligibleFacts(active, coin, p.reward);
    EligibleAlloc(active, coin, p.reward);
    AnyOrder(p.specs, e);
    forall i | 0 <= i < |p.specs|
      ensures p.specs[i].dest != coin && p.specs[i].alloc >= 0.0
      ensures 0 <= p.specs[i].required && p.specs[i].required as real <= p.specs[i].alloc * p.reward as real
    {
      SpecFact(p.specs, e, active, coin, p.reward, i);
    }
    forall i, j | 0 <= i < j < |p.specs| ensures p.specs[i].dest != p.specs[j].dest {
      TwiceIn(p.specs, e, i, j);
    }
  }

  lemma SpecFact(specs: seq<Spec>, e: seq<Spec>, active: seq<SideStake>, coin: Dest, reward: int, i: nat)
    requires i < |specs| && multiset(specs) == multiset(e) && reward >= 0
    requires forall k :: 0 <= k < |e| ==> e[k].dest != coin && e[k].required == Share(e[k].alloc, reward)
    requires forall k :: 0 <= k < |e| ==>
        exists a :: 0 <= a < |active| && active[a].dest == e[k].dest && active[a].alloc == e[k].alloc
    requires forall a :: 0 <= a < |active| ==> active[a].alloc >= 0.0
    ensures specs[i].dest != coin && specs[i].alloc >= 0.0
    ensures 0 <= specs[i].required && specs[i].required as real <= specs[i].alloc * reward as real
  {
    hide Share;
    assert specs[i] in multiset(specs);
    assert specs[i] in multiset(e);
    var k :| 0 <= k < |e| && e[k] == specs[i];
    ShareRoundsDown(specs[i].alloc, reward);
  }

  /** Two places of a reordering hold the elements of two places of the original. */
  lemma TwiceIn(a: seq<Spec>, e: seq<Spec>, i: nat, j: nat)
    requires i < j < |a| && multiset(a) == multiset(e) && DistinctDests(e)
    ensures a[i].dest != a[j].dest
  {
    if a[i].dest == a[j].dest {
      assert a[i] in multiset(e) && a[j] in multiset(e);
      var k :| 0 <= k < |e| && e[k] == a[i];
      var l :| 0 <= l < |e| && e[l] == a[j];
      assert k == l;
      Twice(a, i, j);
      Once(e, k);
    }
  }

  lemma Twice(a: seq<Spec>, i: nat, j: nat)
    requires i < j < |a| && a[i] == a[j]
    ensures multiset(a)[a[i]] >= 2
  {
    assert a == a[..i] + [a[i]] + a[i + 1..j] + [a[j]] + a[j + 1..];
  }

  lemma {:induction false} Once(e: seq<Spec>, k: nat)
    requires k < |e| && DistinctDests(e)
    ensures multiset(e)[e[k]] == 1
  {
    assert e == e[..k] + [e[k]] + e[k + 1..];
    assert e[k] !in e[..k] && e[k] !in e[k + 1..];
  }

  /** The outputs in front of the research claims are the sidestakes and the stake outputs, turned round. */
  lemma FrontOutputs(p: Plan, vout: seq<Output>, spec: Spec)
    requires Sound(p) && |vout| >= 2 && (p.stakeSplit || p.sideStaking) &&
        Destination(vout[1].script) != Some(spec.dest)
    ensures var s := Split(p, vout); var k := |s| - |vout[2..]|;
      1 <= k <= |s| && (Met(spec, s[1..k]) <==> Met(spec, Sides(p, vout[1]).outs))
  {
    hide Sides, Stakes, Met;
    var sides, stakes := Sides(p, vout[1]).outs, Stakes(p, vout[1]);
    StakeScripts(p, vout[1]);
    FrontTurned(p, vout);
    MetTurned(spec, sides, stakes, vout[1].script);
  }

  lemma FrontTurned(p: Plan, vout: seq<Output>)
    requires Sound(p) && |vout| >= 2 && (p.stakeSplit || p.sideStaking)
    ensures var s := Split(p, vout); var k := |s| - |vout[2..]|;
      1 <= k <= |s| && s[1..k] == Reversed(Sides(p, vout[1]).outs + Stakes(p, vout[1]))
  {
    hide Sides, Stakes;
    var sides, stakes := Sides(p, vout[1]).outs, Stakes(p, vout[1]);
    assert (sides + stakes + [Output(0, Empty)])[..|sides + stakes|] == sides + stakes;
  }

  lemma MetTurned(spec: Spec, sides: seq<Output>, stakes: seq<Output>, script: Script)
    requires Destination(script) != Some(spec.dest) && forall i :: 0 <= i < |stakes| ==> stakes[i].script == script
    ensures Met(spec, Reversed(sides + stakes)) <==> Met(spec, sides)
  {
    var both := sides + stakes;
    var r, n := Reversed(both), |both|;
    if Met(spec, sides) {
      var i :| 0 <= i < |sides| && Meets(sides[i], spec);
      assert r[n - 1 - i] == both[i] == sides[i];
    }
    if Met(spec, r) {
      var i :| 0 <= i < n && Meets(r[i], spec);
      var q := n - 1 - i;
      assert r[i] == both[q];
      assert Meets(sides[q], spec);
    }
  }

  lemma StakeScripts(p: Plan, stake: Output)
    requires Sound(p)
    ensures forall i :: 0 <= i < |Stakes(p, stake)| ==> Stakes(p, stake)[i].script == stake.script
  {
    SidesFit(p, stake);
    var s := Sides(p, stake);
    PiecesTotal(s.remaining, Count(p, |s.outs| + 1), stake.script);
  }

  predicate AllPay(outs: seq<Output>) {
    forall i :: 0 <= i < |outs| ==> outs[i].script.Pay?
  }

  lemma {:induction false} MandatoryAllPay(specs: seq<Spec>, limit: nat, t: Tally, input: int)
    requires AllPay(t.outs)
    ensures AllPay(Mandatory(specs, limit, t, input).outs)
  {
    if !(specs == [] || limit == 0 || t.sum + specs[0].alloc > 1.0) {
      MandatoryAllPay(specs[1..], limit - 1, Paid(t, specs[0].dest, specs[0].alloc, specs[0].required, input), input);
    }
  }

  lemma {:induction false} VoluntaryAllPay(local: seq<SideStake>, room: nat, t: Tally, input: int, reward: int,
                                           coin: Option<Dest>)
    requires AllPay(t.outs)
    ensures AllPay(Voluntary(local, room, t, input, reward, coin).outs)
  {
    hide Share;
    if local != [] && room > 0 {
      var s := local[0];
      VoluntaryAllPay(local[1..], room, t, input, reward, coin);
      VoluntaryAllPay(local[1..], room - 1, Paid(t, s.dest, s.alloc, Share(s.alloc, reward), input), input, reward,
        coin);
    }
  }

  /** Every output in front of the research claims but the first has a destination. */
  lemma FrontPays(p: Plan, vout: seq<Output>)
    requires Sound(p) && |vout| >= 2 && (p.stakeSplit || p.sideStaking) && vout[1].script.Pay?
    ensures var s := Split(p, vout); var k := |s| - |vout[2..]|;
      1 <= k <= |s| && AllPay(s[1..k])
  {
    var stake := vout[1];
    var m := Mandated(p, stake);
    MandatoryAllPay(p.specs, p.mandatoryLimit, Start(stake), stake.value - p.reward);
    SidesFit(p, stake);
    if p.sideStaking {
      VoluntaryAllPay(p.local, p.maxOutputs - 2 - |m.outs|, m, stake.value - p.reward, p.reward,
        Destination(stake.script));
    }
    AllPayFront(p, vout);
  }

  lemma AllPayFront(p: Plan, vout: seq<Output>)
    requires Sound(p) && |vout| >= 2 && (p.stakeSplit || p.sideStaking) && vout[1].script.Pay?
    requires AllPay(Sides(p, vout[1]).outs)
    ensures var s := Split(p, vout); var k := |s| - |vout[2..]|;
      1 <= k <= |s| && AllPay(s[1..k])
  {
    hide Sides, Stakes, Split;
    StakeScripts(p, vout[1]);
    FrontTurned(p, vout);
  }

  // ----- who is met -----

  lemma {:induction false} RequiredSumSplit(a: seq<Spec>, b: seq<Spec>)
    ensures RequiredSum(a + b) == RequiredSum(a) + RequiredSum(b)
  {
    if b == [] {
      assert a + b == a;
    } else {
      assert (a + b)[..|a + b| - 1] == a + b[..|b| - 1];
      RequiredSumSplit(a, b[..|b| - 1]);
    }
  }

  lemma FirstOf(specs: seq<Spec>, k: nat)
    requires 0 < k <= |specs|
    ensures AllocSum(specs[..k]) == specs[0].alloc + AllocSum(specs[1..][..k - 1])
    ensures RequiredSum(specs[..k]) == specs[0].required + RequiredSum(specs[1..][..k - 1])
  {
    var first := [specs[0]];
    assert specs[..k] == first + specs[1..][..k - 1];
    AllocSumSplit(first, specs[1..][..k - 1]);
    RequiredSumSplit(first, specs[1..][..k - 1]);
    assert first[..0] == [];
  }

  /**
  What the mandatory sidestakes leave: their allocations and, short of the whole, their required amounts are
  gone.
  */
  lemma {:induction false} MandatoryTally(specs: seq<Spec>, limit: nat, t: Tally, input: int, reward: int)
    requires RoundDown(specs, reward) && t.sum + AllocSum(specs) <= 1.0
    ensures var u := Mandatory(specs, limit, t, input); var k := Least(limit, |specs|);
      && u.sum == t.sum + AllocSum(specs[..k]) && u.sum >= t.sum
      && (u.sum < 1.0 ==> u.remaining == t.remaining - RequiredSum(specs[..k]))
  {
    hide RoundDown, AllocSum, RequiredSum;
    var k := Least(limit, |specs|);
    if specs != [] && limit > 0 {
      var s := specs[0];
      FirstAlloc(specs, reward);
      MandatoryTally(specs[1..], limit - 1, Paid(t, s.dest, s.alloc, s.required, input), input, reward);
      FirstOf(specs, k);
    } else {
      assert specs[..k] == [];
      assert AllocSum([]) == 0.0 && RequiredSum([]) == 0 by { NoSums(); }
    }
  }

  lemma NoSums()
    ensures AllocSum([]) == 0.0 && RequiredSum([]) == 0
  {
  }

  lemma FirstAlloc(specs: seq<Spec>, reward: int)
    requires specs != [] && RoundDown(specs, reward)
    ensures RoundDown(specs[1..], reward) && specs[0].alloc >= 0.0
    ensures AllocSum(specs) == specs[0].alloc + AllocSum(specs[1..]) && AllocSum(specs[1..]) >= 0.0
  {
    RoundDownRest(specs, reward);
    hide RoundDown, RoundsDown;
    assert specs == [specs[0]] + specs[1..];
    AllocSumSplit([specs[0]], specs[1..]);
    One(specs[0]);
    AllocSumPositive(specs[1..], reward);
  }

  lemma FirstRounds(specs: seq<Spec>, reward: int)
    requires specs != [] && RoundDown(specs, reward)
    ensures RoundsDown(specs[0], reward)
  {
  }

  lemma RoundDownRest(specs: seq<Spec>, reward: int)
    requires specs != [] && RoundDown(specs, reward)
    ensures RoundDown(specs[1..], reward) && specs[0].alloc >= 0.0
  {
    assert RoundsDown(specs[0], reward);
  }

  /** The voluntary outputs meet exactly what the settings say they pay for. */
  lemma ExtrasMeet(p: Plan, vout: seq<Output>, active: seq<SideStake>, coin: Dest, spec: Spec)
    requires Honest(p, vout, active, coin)
    ensures Met(spec, Extras(p, vout[1])) <==> PaidFor(p, coin, spec)
  {
    hide Met, PaysFor, Eligible, Registry, Share, Fair;
    var stake, n := vout[1], DrawnCount(p);
    var input := stake.value - p.reward;
    SpecFacts(p, vout, active, coin);
    StartIsFair(stake, p.reward);
    MandatoryPays(p.specs, p.mandatoryLimit, Start(stake), input, p.reward);
    MandatoryTally(p.specs, p.mandatoryLimit, Start(stake), input, p.reward);
    var m := Mandated(p, stake);
    var room, left := p.maxOutputs - 2 - n, p.reward - RequiredSum(p.specs[..n]);
    VoluntaryMeets(p.local, room, m, input, p.reward, Some(coin), spec);
    if m.sum >= 1.0 {
      NothingAfterWhole(p.local, room, m.sum, m.remaining - input, p.reward, Some(coin), spec);
      NothingAfterWhole(p.local, room, m.sum, left, p.reward, Some(coin), spec);
    }
  }

  lemma StartIsFair(stake: Output, reward: int)
    requires reward >= 0
    ensures Fair(Start(stake), stake.value - reward, reward)
  {
    assert (1.0 - 0.0) * reward as real == reward as real;
  }

  lemma NothingAfterWhole(
      local: seq<SideStake>, room: nat, sum: real, left: int, reward: int, coin: Option<Dest>, spec: Spec)
    requires reward >= 0 && sum >= 1.0
    ensures !PaysFor(local, room, sum, left, reward, coin, spec)
  {
    WholeReached(local, room, sum, reward, coin);
  }

  /** A sidestake the validator may look for: not to the staker, and if drawn then at no more than it was drawn at. */
  predicate Comparable(p: Plan, coin: Dest, spec: Spec) {
    && spec.dest != coin
    && forall j :: 0 <= j < DrawnCount(p) && p.specs[j].dest == spec.dest ==> p.specs[j].required >= spec.required
  }

  /** The outputs in front of the research claims meet exactly the sidestakes that are served. */
  lemma MetIsServed(p: Plan, vout: seq<Output>, active: seq<SideStake>, coin: Dest, spec: Spec)
    requires Honest(p, vout, active, coin) && Comparable(p, coin, spec)
    ensures var s := Split(p, vout); var k := |s| - |vout[2..]|;
      1 <= k <= |s| && (Met(spec, s[1..k]) <==> Served(p, coin, spec))
  {
    hide Met, PaidFor, Split, Eligible, Registry, Share, Fair, RoundDown, PaysEach;
    var stake, n := vout[1], DrawnCount(p);
    SpecFacts(p, vout, active, coin);
    SidesFit(p, stake);
    StartIsFair(stake, p.reward);
    MandatoryPays(p.specs, p.mandatoryLimit, Start(stake), stake.value - p.reward, p.reward);
    MetInParts(p.specs, Mandated(p, stake).outs, Sides(p, stake).outs, n, spec);
    ExtrasMeet(p, vout, active, coin, spec);
    FrontOutputs(p, vout, spec);
  }

  lemma MetInParts(specs: seq<Spec>, m: seq<Output>, all: seq<Output>, n: nat, spec: Spec)
    requires |m| == n <= |specs| && m <= all && PaysEach(m, 0, specs, n)
    requires forall j :: 0 <= j < n && specs[j].dest == spec.dest ==> specs[j].required >= spec.required
    ensures Met(spec, all) <==> (exists j :: 0 <= j < n && specs[j].dest == spec.dest) || Met(spec, all[|m|..])
  {
    forall i | 0 <= i < n ensures Meets(all[i], spec) <==> specs[i].dest == spec.dest {
      assert all[i] == m[0 + i];
    }
    if Met(spec, all) {
      var i :| 0 <= i < |all| && Meets(all[i], spec);
      if i >= n { assert all[|m|..][i - n] == all[i]; }
    }
    if j :| 0 <= j < n && specs[j].dest == spec.dest {
      assert Meets(all[j], spec);
    }
    if Met(spec, all[|m|..]) {
      var i :| 0 <= i < |all[|m|..]| && Meets(all[|m|..][i], spec);
      assert Meets(all[n + i], spec);
    }
  }

  // ----- what the validator looks for -----

  lemma ShareMono(alloc: real, a: int, b: int)
    requires alloc >= 0.0 && a <= b
    ensures Share(alloc, a) <= Share(alloc, b)
  {
    Nonnegative(alloc, (b - a) as real);
    assert alloc * b as real == alloc * a as real + alloc * (b - a) as real;
  }

  /** Whatever is eligible for a total up to the reward can be compared with what was drawn. */
  lemma EligibleComparable(p: Plan, vout: seq<Output>, active: seq<SideStake>, coin: Dest, total: int, i: nat)
    requires Honest(p, vout, active, coin) && total <= p.reward && i < |Eligible(active, coin, total)|
    ensures Comparable(p, coin, Eligible(active, coin, total)[i])
  {
    hide Share, Eligible;
    var spec := Eligible(active, coin, total)[i];
    EligibleFacts(active, coin, total);
    EligibleFacts(active, coin, p.reward);
    forall j | 0 <= j < DrawnCount(p) && p.specs[j].dest == spec.dest ensures p.specs[j].required >= spec.required {
      var e := Eligible(active, coin, p.reward);
      assert p.specs[j] in multiset(p.specs);
      assert p.specs[j] in multiset(e);
      var q :| 0 <= q < |e| && e[q] == p.specs[j];
      var a :| 0 <= a < |active| && active[a].dest == spec.dest && active[a].alloc == spec.alloc;
      var b :| 0 <= b < |active| && active[b].dest == e[q].dest && active[b].alloc == e[q].alloc;
      assert a == b;
      ShareMono(spec.alloc, total, p.reward);
    }
  }

  lemma {:induction false} MetCountIsServed(p: Plan, coin: Dest, specs: seq<Spec>, outs: seq<Output>)
    requires Sound(p) && forall i :: 0 <= i < |specs| ==> (Met(specs[i], outs) <==> Served(p, coin, specs[i]))
    ensures MetCount(specs, outs) == ServedCount(p, coin, specs)
  {
    hide Met, Served;
    if specs != [] {
      MetCountIsServed(p, coin, specs[..|specs| - 1], outs);
    }
  }

  /** Of the sidestakes in the order drawn, those drawn are served, and of the others those paid for. */
  lemma {:induction false} ServedInOrder(p: Plan, coin: Dest, i: nat)
    requires Sound(p) && DistinctDests(p.specs) && i <= |p.specs|
    ensures var c, n := ServedCount(p, coin, p.specs[..i]), DrawnCount(p);
      if i <= n then c == i else
      c >= n && (c == n <==> forall j :: n <= j < i ==> !PaidFor(p, coin, p.specs[j]))
  {
    hide PaidFor;
    if i > 0 {
      ServedInOrder(p, coin, i - 1);
      assert p.specs[..i][..i - 1] == p.specs[..i - 1];
      assert IsDrawn(p, p.specs[i - 1].dest) <==> i - 1 < DrawnCount(p) by {
        if i - 1 < DrawnCount(p) {
          assert p.specs[i - 1].dest == p.specs[i - 1].dest;
        }
      }
    }
  }

  /** The outputs of a split in front of the research claims, in total, less the reward they hold. */
  lemma FrontTotal(p: Plan, vout: seq<Output>, stakeIn: int, taken: int)
    requires Sound(p) && |vout| >= 2 && (p.stakeSplit || p.sideStaking)
    requires vout[1].value == stakeIn + p.reward - taken
    ensures var s := Split(p, vout); var k := |s| - |vout[2..]|;
      0 <= k <= |s| && Total(s[..k]) - stakeIn == p.reward - taken
  {
    SplitKeeps(p, vout);
  }

  /**
  The validator's total, from its own account of what was staked, is the miner's reward exactly when
  nothing was taken off the stake output after the reward was put on it.
  */
  lemma SameTotal(p: Plan, vout: seq<Output>, stakeIn: int, taken: int)
    requires Sound(p) && |vout| >= 2 && (p.stakeSplit || p.sideStaking)
    requires vout[1].value == stakeIn + p.reward - taken
    ensures var s := Split(p, vout); var k := |s| - |vout[2..]|;
      0 <= k <= |s| && (Total(s[..k]) - stakeIn == p.reward <==> taken == 0)
  {
    FrontTotal(p, vout, stakeIn, taken);
  }

  /**
  The validator, with its own account of what was staked, accepts the miner's split exactly when as many
  of the sidestakes eligible for its total are served as are required, and no more than the limit.
  */
  lemma AcceptsServed(p: Plan, vout: seq<Output>, active: seq<SideStake>, coin: Dest, stakeIn: int, taken: nat)
    requires Honest(p, vout, active, coin) && vout[1].value == stakeIn + p.reward - taken
    ensures var s := Split(p, vout); var k := |s| - |vout[2..]|; var limit := p.mandatoryLimit;
      && 1 <= k <= |s|
      && var e := Eligible(active, coin, Total(s[..k]) - stakeIn);
         && e == Eligible(active, coin, p.reward - taken)
         && (Validates(s[1..k], e, limit) <==> Least(limit, |e|) <= ServedCount(p, coin, e) <= limit)
  {
    hide Eligible, Met, Served, Split, Registry, Comparable, ServedCount, MetCount;
    FrontTotal(p, vout, stakeIn, taken);
    FrontPays(p, vout);
    var s, e := Split(p, vout), Eligible(active, coin, p.reward - taken);
    var outs := s[1..|s| - |vout[2..]|];
    forall i | 0 <= i < |e| ensures Met(e[i], outs) <==> Served(p, coin, e[i]) {
      EligibleComparable(p, vout, active, coin, p.reward - taken, i);
      MetIsServed(p, vout, active, coin, e[i]);
    }
    MetCountIsServed(p, coin, e, outs);
  }

  /**
  With nothing taken off, the validator accepts the miner's split exactly when the settings do not lead to
  a voluntary sidestake that pays for a mandatory one that was eligible but not drawn.
  */
  lemma AcceptsExactly(p: Plan, vout: seq<Output>, active: seq<SideStake>, coin: Dest, stakeIn: int)
    requires Honest(p, vout, active, coin) && vout[1].value == stakeIn + p.reward
    ensures var s := Split(p, vout); var k := |s| - |vout[2..]|;
      && 1 <= k <= |s|
      && (Validates(s[1..k], Eligible(active, coin, Total(s[..k]) - stakeIn), p.mandatoryLimit)
          <==> forall j :: DrawnCount(p) <= j < |p.specs| ==> !PaidFor(p, coin, p.specs[j]))
  {
    hide Eligible, Validates, Split, Registry, PaidFor, ServedCount;
    AcceptsServed(p, vout, active, coin, stakeIn, 0);
    ServedEligible(p, vout, active, coin);
    SpecFacts(p, vout, active, coin);
    ServedInOrder(p, coin, |p.specs|);
    assert p.specs[..|p.specs|] == p.specs;
  }

  /** How many are served does not depend on the order drawn. */
  lemma ServedEligible(p: Plan, vout: seq<Output>, active: seq<SideStake>, coin: Dest)
    requires Honest(p, vout, active, coin)
    ensures var e := Eligible(active, coin, p.reward);
      ServedCount(p, coin, e) == ServedCount(p, coin, p.specs) && |e| == |p.specs|
  {
    hide Eligible, Registry, Served;
    ServedAnyOrder(p, coin, p.specs, Eligible(active, coin, p.reward));
  }

  lemma {:induction false} ServedAnyOrder(p: Plan, coin: Dest, a: seq<Spec>, b: seq<Spec>)
    requires Sound(p) && multiset(a) == multiset(b)
    ensures ServedCount(p, coin, a) == ServedCount(p, coin, b) && |a| == |b|
    decreases |a|
  {
    hide Served;
    assert |a| == |multiset(a)| == |multiset(b)| == |b|;
    if a != [] {
      var i := TakenOut(a, b);
      ServedAnyOrder(p, coin, a[..|a| - 1], b[..i] + b[i + 1..]);
      assert b == b[..i] + ([b[i]] + b[i + 1..]);
      ServedSplit(p, coin, b[..i], b[i + 1..]);
      ServedSplit(p, coin, [b[i]], b[i + 1..]);
      ServedSplit(p, coin, b[..i], [b[i]] + b[i + 1..]);
      assert [b[i]][..0] == [];
    }
  }

  lemma {:induction false} ServedSplit(p: Plan, coin: Dest, a: seq<Spec>, b: seq<Spec>)
    requires Sound(p)
    ensures ServedCount(p, coin, a + b) == ServedCount(p, coin, a) + ServedCount(p, coin, b)
  {
    hide Served;
    if b == [] {
      assert a + b == a;
    } else {
      assert (a + b)[..|a + b| - 1] == a + b[..|b| - 1];
      ServedSplit(p, coin, a, b[..|b| - 1]);
    }
  }

  /** Where all eligible sidestakes are drawn, every split is accepted, even after something was taken off. */
  lemma AcceptsWithinLimit(p: Plan, vout: seq<Output>, active: seq<SideStake>, coin: Dest, stakeIn: int, taken: nat)
    requires Honest(p, vout, active, coin) && vout[1].value == stakeIn + p.reward - taken
    requires |p.specs| <= p.mandatoryLimit
    ensures var s := Split(p, vout); var k := |s| - |vout[2..]|;
      && 1 <= k <= |s|
      && Validates(s[1..k], Eligible(active, coin, Total(s[..k]) - stakeIn), p.mandatoryLimit)
  {
    hide Eligible, Validates, Split, Registry, ServedCount, Honest;
    AcceptsServed(p, vout, active, coin, stakeIn, taken);
    StillDrawn(p, vout, active, coin, p.reward - taken);
  }

  /** Whatever is eligible for a smaller total was eligible for the reward. */
  lemma StillDrawn(p: Plan, vout: seq<Output>, active: seq<SideStake>, coin: Dest, total: int)
    requires Honest(p, vout, active, coin) && total <= p.reward && |p.specs| <= p.mandatoryLimit
    ensures var e := Eligible(active, coin, total); ServedCount(p, coin, e) == |e| <= p.mandatoryLimit
  {
    hide PaidFor;
    var e, f := Eligible(active, coin, total), Eligible(active, coin, p.reward);
    FewerEligible(active, coin, total, p.reward);
    assert |p.specs| == |multiset(p.specs)| == |multiset(f)| == |f|;
    forall i | 0 <= i < |e| ensures Served(p, coin, e[i]) {
      var q :| 0 <= q < |f| && f[q].dest == e[i].dest;
      assert f[q] in multiset(f);
      assert f[q] in multiset(p.specs);
      var j :| 0 <= j < |p.specs| && p.specs[j] == f[q];
      assert IsDrawn(p, e[i].dest);
    }
    AllServed(p, coin, e);
  }

  predicate Names(specs: seq<Spec>, dest: Dest) {
    exists q :: 0 <= q < |specs| && specs[q].dest == dest
  }

  lemma {:induction false} FewerEligible(active: seq<SideStake>, coin: Dest, a: int, b: int)
    requires a <= b && forall i :: 0 <= i < |active| ==> active[i].alloc >= 0.0
    ensures var e, f := Eligible(active, coin, a), Eligible(active, coin, b);
      && |e| <= |f|
      && forall i :: 0 <= i < |e| ==> Names(f, e[i].dest)
  {
    hide Share;
    if active != [] {
      var n := |active| - 1;
      FewerEligible(active[..n], coin, a, b);
      ShareMono(active[n].alloc, a, b);
      var e, f := Eligible(active, coin, a), Eligible(active, coin, b);
      var e', f' := Eligible(active[..n], coin, a), Eligible(active[..n], coin, b);
      forall i | 0 <= i < |e| ensures Names(f, e[i].dest) {
        if i < |e'| {
          assert e[i] == e'[i];
          var q :| 0 <= q < |f'| && f'[q].dest == e'[i].dest;
          assert f[q] == f'[q];
        } else {
          assert f[|f'|].dest == active[n].dest == e[i].dest;
        }
      }
    }
  }

  lemma {:induction false} AllServed(p: Plan, coin: Dest, specs: seq<Spec>)
    requires Sound(p) && forall i :: 0 <= i < |specs| ==> Served(p, coin, specs[i])
    ensures ServedCount(p, coin, specs) == |specs|
  {
    hide Served;
    if specs != [] {
      AllServed(p, coin, specs[..|specs| - 1]);
    }
  }

  /** With nothing taken off, settings that name no eligible sidestake that was not drawn are always accepted. */
  lemma AcceptsOtherDestinations(p: Plan, vout: seq<Output>, active: seq<SideStake>, coin: Dest, stakeIn: int)
    requires Honest(p, vout, active, coin) && vout[1].value == stakeIn + p.reward
    requires forall i, j :: 0 <= i < |p.local| && DrawnCount(p) <= j < |p.specs| ==> p.local[i].dest != p.specs[j].dest
    ensures var s := Split(p, vout); var k := |s| - |vout[2..]|;
      && 1 <= k <= |s|
      && Validates(s[1..k], Eligible(active, coin, Total(s[..k]) - stakeIn), p.mandatoryLimit)
  {
    hide Eligible, Validates, Split, Registry, Reached, Amount;
    AcceptsExactly(p, vout, active, coin, stakeIn);
  }

  // ----- a split that is refused -----

  /**
  Not every split is accepted: with five eligible sidestakes and a limit of four, a voluntary
  sidestake to the fifth makes the validator count five.
  */
  lemma RefusedSplit()
    ensures var reward := 100 * CENT;
      var active := [SideStake(1, true, 0.05), SideStake(2, true, 0.05), SideStake(3, true, 0.05),
                     SideStake(4, true, 0.05), SideStake(5, true, 0.05)];
      var specs := [Spec(1, 0.05, 5 * CENT), Spec(2, 0.05, 5 * CENT), Spec(3, 0.05, 5 * CENT),
                    Spec(4, 0.05, 5 * CENT), Spec(5, 0.05, 5 * CENT)];
      var vout := [Output(0, Empty), Output(2 * reward, Pay(0, true))];
      var p := Plan(reward, false, true, 10, 4, specs, [SideStake(5, true, 0.1)], 1);
      && Honest(p, vout, active, 0)
      && var s := Split(p, vout);
         1 <= |s| && !Validates(s[1..], Eligible(active, 0, Total(s) - reward), 4)
  {
    hide Eligible, Validates, Split, Honest;
    var reward := 100 * CENT;
    var active := [SideStake(1, true, 0.05), SideStake(2, true, 0.05), SideStake(3, true, 0.05),
                   SideStake(4, true, 0.05), SideStake(5, true, 0.05)];
    var specs := [Spec(1, 0.05, 5 * CENT), Spec(2, 0.05, 5 * CENT), Spec(3, 0.05, 5 * CENT),
                  Spec(4, 0.05, 5 * CENT), Spec(5, 0.05, 5 * CENT)];
    FiveRefused(active, specs, [Output(0, Empty), Output(2 * reward, Pay(0, true))],
                Plan(reward, false, true, 10, 4, specs, [SideStake(5, true, 0.1)], 1));
  }

  lemma {:induction false} FiveRefused(active: seq<SideStake>, specs: seq<Spec>, vout: seq<Output>, p: Plan)
    requires |active| == |specs| == 5
    requires forall i :: 0 <= i < 5 ==>
        active[i] == SideStake(i + 1, true, 0.05) && specs[i] == Spec(i + 1, 0.05, 5 * CENT)
    requires |vout| == 2 && vout[1] == Output(200 * CENT, Pay(0, true))
    requires p == Plan(100 * CENT, false, true, 10, 4, specs, [SideStake(5, true, 0.1)], 1)
    ensures Honest(p, vout, active, 0)
    ensures var s := Split(p, vout);
      1 <= |s| && !Validates(s[1..], Eligible(active, 0, Total(s) - 100 * CENT), 4)
  {
    hide Eligible, Validates, Split;
    EligibleFive(active, specs, 100 * CENT);
    assert Honest(p, vout, active, 0);
    FifthPaidFor(p);
    AcceptsExactly(p, vout, active, 0, 100 * CENT);
    var s := Split(p, vout);
    assert |vout[2..]| == 0 && s[..|s|] == s && s[1..|s|] == s[1..];
  }

  lemma FifthPaidFor(p: Plan)
    requires Sound(p) && p.mandatoryLimit == 4 && p.maxOutputs == 10 && p.reward == 100 * CENT && |p.specs| == 5
    requires forall i :: 0 <= i < 5 ==> p.specs[i] == Spec(i + 1, 0.05, 5 * CENT)
    requires p.local == [SideStake(5, true, 0.1)]
    ensures PaidFor(p, 0, p.specs[4])
  {
    SomeDrawn(p.specs, 4);
    assert 0.1 * p.reward as real == (10 * CENT) as real;
    assert Share(0.1, p.reward) == 10 * CENT;
    FirstWith(p.local, 0.2, p.reward, Some(0));
    assert PaysForAt(p.local, 0, 4, 0.2, p.reward - 20 * CENT, p.reward, Some(0), p.specs[4]);
  }

  lemma {:induction false} SomeDrawn(specs: seq<Spec>, n: nat)
    requires |specs| == 5 && n <= 5 && forall i :: 0 <= i < 5 ==> specs[i] == Spec(i + 1, 0.05, 5 * CENT)
    ensures AllocSum(specs[..n]) == 0.05 * n as real && RequiredSum(specs[..n]) == 5 * CENT * n
  {
    if n > 0 {
      SomeDrawn(specs, n - 1);
      assert specs[..n][..n - 1] == specs[..n - 1];
    }
  }

  lemma EligibleFive(active: seq<SideStake>, specs: seq<Spec>, reward: int)
    requires |active| == |specs| == 5 && reward == 100 * CENT
    requires forall i :: 0 <= i < 5 ==>
        active[i] == SideStake(i + 1, true, 0.05) && specs[i] == Spec(i + 1, 0.05, 5 * CENT)
    ensures Eligible(active, 0, reward) == specs && AllocTotal(active) == 0.25
  {
    forall n: nat | n <= 5 ensures Eligible(active[..n], 0, reward) == specs[..n] &&
        AllocTotal(active[..n]) == 0.05 * n as real {
      EligibleSome(active, specs, reward, n);
    }
    assert active[..5] == active && specs[..5] == specs;
  }

  lemma {:induction false} EligibleSome(active: seq<SideStake>, specs: seq<Spec>, reward: int, n: nat)
    requires |active| == |specs| == 5 && reward == 100 * CENT && n <= 5
    requires forall i :: 0 <= i < 5 ==>
        active[i] == SideStake(i + 1, true, 0.05) && specs[i] == Spec(i + 1, 0.05, 5 * CENT)
    ensures Eligible(active[..n], 0, reward) == specs[..n] && AllocTotal(active[..n]) == 0.05 * n as real
  {
    if n > 0 {
      EligibleSome(active, specs, reward, n - 1);
      assert active[..n][..n - 1] == active[..n - 1];
      assert specs[..n] == specs[..n - 1] + [specs[n - 1]];
      assert 0.05 * reward as real == (5 * CENT) as real;
      assert Share(0.05, reward) == 5 * CENT;
    }
  }
}
