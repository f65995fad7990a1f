/**
What a split pays out, read off the settings alone: which voluntary sidestakes are reached and how
much they get, and when the staker gets the input back.
*/
module SplitSettings {
  import opened Basics
  import opened Sidestakes
  import opened Coinstake

  // ----- the input does not matter -----

  function Moved(t: Tally, delta: int): Tally {
    t.(remaining := t.remaining + delta)
  }

  lemma {:induction false} MandatoryMoved(specs: seq<Spec>, limit: nat, t: Tally, input: int, delta: int)
    ensures Mandatory(specs, limit, Moved(t, delta), input + delta) == Moved(Mandatory(specs, limit, t, input), delta)
  {
    if !(specs == [] || limit == 0 || t.sum + specs[0].alloc > 1.0) {
      var u := Paid(t, specs[0].dest, specs[0].alloc, specs[0].required, input);
      MandatoryMoved(specs[1..], limit - 1, u, input, delta);
    }
  }

  lemma {:induction false} VoluntaryMoved(
      local: seq<SideStake>, room: nat, t: Tally, input: int, reward: int, coin: Option<Dest>, delta: int)
    ensures Voluntary(local, room, Moved(t, delta), input + delta, reward, coin) ==
              Moved(Voluntary(local, room, t, input, reward, coin), delta)
  {
    hide Share;
    if local != [] && room > 0 {
      var s := local[0];
      VoluntaryMoved(local[1..], room, t, input, reward, coin, delta);
      VoluntaryMoved(local[1..], room - 1, Paid(t, s.dest, s.alloc, Share(s.alloc, reward), input), input, reward, coin,
        delta);
    }
  }

  /** What the sidestakes take of the reward, worked out as if nothing had been staked. */
  function Drawn(p: Plan, script: Script): int
    requires Sound(p)
  {
    Total(Sides(p, Output(p.reward, script)).outs)
  }

  /** The sidestakes of a stake output of any value are those of the bare reward. */
  lemma SidesMoved(p: Plan, stake: Output)
    requires Sound(p)
    ensures Sides(p, stake) == Moved(Sides(p, Output(p.reward, stake.script)), stake.value - p.reward)
  {
    hide Mandatory, Voluntary;
    var bare, delta := Output(p.reward, stake.script), stake.value - p.reward;
    assert Start(stake) == Moved(Start(bare), delta);
    MandatoryMoved(p.specs, p.mandatoryLimit, Start(bare), 0, delta);
    var m := Mandated(p, bare);
    assert Mandated(p, stake) == Moved(m, delta);
    if p.sideStaking && |m.outs| + 2 <= p.maxOutputs {
      VoluntaryMoved(p.local, p.maxOutputs - 2 - |m.outs|, m, 0, p.reward, Destination(stake.script), delta);
    }
  }

  // ----- what the staker gets -----

  /** No sidestake goes to the destination that stakes. */
  predicate Apart(p: Plan, script: Script) {
    forall i :: 0 <= i < |p.specs| ==> Destination(script) != Some(p.specs[i].dest)
  }

  predicate NoneTo(outs: seq<Output>, script: Script) {
    forall i :: 0 <= i < |outs| ==> outs[i].script != script
  }

  lemma {:induction false} MandatoryNone(specs: seq<Spec>, limit: nat, t: Tally, input: int, script: Script)
    requires NoneTo(t.outs, script)
    requires forall i :: 0 <= i < |specs| ==> Destination(script) != Some(specs[i].dest)
    ensures NoneTo(Mandatory(specs, limit, t, input).outs, script)
  {
    if !(specs == [] || limit == 0 || t.sum + specs[0].alloc > 1.0) {
      var u := Paid(t, specs[0].dest, specs[0].alloc, specs[0].required, input);
      MandatoryNone(specs[1..], limit - 1, u, input, script);
    }
  }

  lemma {:induction false} VoluntaryNone(
      local: seq<SideStake>, room: nat, t: Tally, input: int, reward: int, script: Script)
    requires NoneTo(t.outs, script)
    ensures NoneTo(Voluntary(local, room, t, input, reward, Destination(script)).outs, script)
  {
    hide Share;
    if local != [] && room > 0 {
      var s := local[0];
      VoluntaryNone(local[1..], room, t, input, reward, script);
      if Destination(script) != Some(s.dest) {
        VoluntaryNone(local[1..], room - 1, Paid(t, s.dest, s.alloc, Share(s.alloc, reward), input), input, reward,
          script);
      }
    }
  }

  lemma SidesNone(p: Plan, stake: Output)
    requires Sound(p) && Apart(p, stake.script)
    ensures NoneTo(Sides(p, stake).outs, stake.script)
  {
    hide Mandatory, Voluntary;
    var m, input := Mandated(p, stake), stake.value - p.reward;
    MandatoryNone(p.specs, p.mandatoryLimit, Start(stake), input, stake.script);
    if p.sideStaking && |m.outs| + 2 <= p.maxOutputs {
      VoluntaryNone(p.local, p.maxOutputs - 2 - |m.outs|, m, input, p.reward, stake.script);
    }
  }

  lemma {:induction false} TotalOfNone(outs: seq<Output>, script: Script)
    requires NoneTo(outs, script)
    ensures TotalOf(outs, script) == 0
  {
    if outs != [] {
      TotalOfNone(outs[..|outs| - 1], script);
    }
  }

  lemma {:induction false} NegativeTotal(outs: seq<Output>)
    ensures NoneNegative(outs) ==> Total(outs) >= 0
  {
    if outs != [] {
      NegativeTotal(outs[..|outs| - 1]);
    }
  }

  /** The staker gets exactly what the sidestakes leave. */
  lemma StakerGets(p: Plan, vout: seq<Output>)
    requires Sound(p) && |vout| >= 2 && (p.stakeSplit || p.sideStaking) && Apart(p, vout[1].script)
    ensures var s := Split(p, vout); var k := |s| - |vout[2..]|;
      0 <= k <= |s| && TotalOf(s[..k], vout[1].script) == vout[1].value - Drawn(p, vout[1].script)
  {
    hide Sides, Pieces, Count, TotalOf, Total, Reversed;
    var stake := vout[1];
    SidesFit(p, stake);
    SidesMoved(p, stake);
    SidesNone(p, stake);
    var sides, stakes := Sides(p, stake), Stakes(p, stake);
    PiecesTotal(sides.remaining, Count(p, |sides.outs| + 1), stake.script);
    var front := sides.outs + stakes + [Output(0, Empty)];
    assert Split(p, vout)[..|front|] == Reversed(front);
    TotalOfReversed(front, stake.script);
    TotalOfAppend(sides.outs + stakes, [Output(0, Empty)], stake.script);
    TotalOfAppend(sides.outs, stakes, stake.script);
    TotalOfNone(sides.outs, stake.script);
    TotalOfBounds(stakes, stake.script);
    NothingLast(stake.script);
  }

  lemma NothingLast(script: Script)
    ensures TotalOf([Output(0, Empty)], script) == 0
  {
    assert [Output(0, Empty)][..0] == [];
  }

  /** Sidestakes that round down never take more than the reward. */
  lemma DrawnWithinReward(p: Plan, script: Script)
    requires Sound(p) && p.reward >= 0 && RoundDown(p.specs, p.reward)
    requires forall i :: 0 <= i < |p.local| ==> p.local[i].alloc >= 0.0
    ensures 0 <= Drawn(p, script) <= p.reward
  {
    hide Sides, Fair, RoundDown;
    var bare := Output(p.reward, script);
    SidesFairly(p, bare);
    SidesFit(p, bare);
    FairLeaves(Sides(p, bare), 0, p.reward);
    FairOutputs(Sides(p, bare), 0, p.reward);
    NegativeTotal(Sides(p, bare).outs);
  }

  /**
  The staker gets the input back exactly when nothing was taken off the stake output after the reward
  was put on it, or the sidestakes draw no more than what was left of the reward. No output is negative
  exactly when the sidestakes draw no more than the whole stake output.
  */
  lemma InputComesBack(p: Plan, vout: seq<Output>, stakeIn: int, taken: nat)
    requires Sound(p) && |vout| >= 2 && (p.stakeSplit || p.sideStaking) && Apart(p, vout[1].script)
    requires vout[1].value == stakeIn + p.reward - taken
    requires p.reward >= 0 && RoundDown(p.specs, p.reward)
    requires forall i :: 0 <= i < |p.local| ==> p.local[i].alloc >= 0.0
    ensures var s := Split(p, vout); var k := |s| - |vout[2..]|; var drawn := Drawn(p, vout[1].script);
      && 0 <= k <= |s|
      && (TotalOf(s[..k], vout[1].script) >= stakeIn <==> taken == 0 || drawn <= p.reward - taken)
      && (NoneNegative(s[..k]) <==> drawn <= vout[1].value)
  {
    hide Split, Drawn, TotalOf, RoundDown;
    StakerGets(p, vout);
    DrawnWithinReward(p, vout[1].script);
    NegativeExactly(p, vout);
  }

  lemma NegativeExactly(p: Plan, vout: seq<Output>)
    requires Sound(p) && |vout| >= 2 && (p.stakeSplit || p.sideStaking)
    requires p.reward >= 0 && RoundDown(p.specs, p.reward)
    requires forall i :: 0 <= i < |p.local| ==> p.local[i].alloc >= 0.0
    ensures var s := Split(p, vout); var k := |s| - |vout[2..]|;
      0 <= k <= |s| && (NoneNegative(s[..k]) <==> Drawn(p, vout[1].script) <= vout[1].value)
  {
    hide Sides, Pieces, Count, Total, RoundDown, Fair, NoneNegative;
    var stake := vout[1];
    SidesFit(p, stake);
    SidesMoved(p, stake);
    SidesFairly(p, stake);
    var sides, stakes := Sides(p, stake), Stakes(p, stake);
    FairOutputs(sides, stake.value - p.reward, p.reward);
    PiecesTotal(sides.remaining, Count(p, |sides.outs| + 1), stake.script);
    NegativeTotal(stakes);
    var front := sides.outs + stakes + [Output(0, Empty)];
    assert Split(p, vout)[..|front|] == Reversed(front);
    FrontNegative(sides.outs, stakes);
  }

  lemma FrontNegative(sides: seq<Output>, stakes: seq<Output>)
    requires NoneNegative(sides)
    ensures NoneNegative(Reversed(sides + stakes + [Output(0, Empty)])) <==> NoneNegative(stakes)
  {
    var front := sides + stakes + [Output(0, Empty)];
    var r, n := Reversed(front), |front|;
    if NoneNegative(r) {
      forall i | 0 <= i < |stakes| ensures stakes[i].value >= 0 {
        assert r[n - 1 - (|sides| + i)] == front[|sides| + i] == stakes[i];
      }
    }
  }

  // ----- which voluntary sidestakes are paid, and how much -----

  /** A voluntary sidestake that is paid if it is reached. */
  predicate Usable(s: SideStake, reward: int, coin: Option<Dest>) {
    !Skipped(s, reward) && coin != Some(s.dest)
  }

  function UsableCount(local: seq<SideStake>, reward: int, coin: Option<Dest>): nat {
    if local == [] then 0 else
    (if Usable(local[0], reward, coin) then 1 else 0) + UsableCount(local[1..], reward, coin)
  }

  function UsableAlloc(local: seq<SideStake>, reward: int, coin: Option<Dest>): real {
    if local == [] then 0.0 else
    (if Usable(local[0], reward, coin) then local[0].alloc else 0.0) + UsableAlloc(local[1..], reward, coin)
  }

  function UsableShares(local: seq<SideStake>, reward: int, coin: Option<Dest>): int {
    if local == [] then 0 else
    (if Usable(local[0], reward, coin) then Share(local[0].alloc, reward) else 0)
    + UsableShares(local[1..], reward, coin)
  }

  /** The allocation spoken for with an entry: a given part, the usable entries before it, and the entry. */
  function With(local: seq<SideStake>, k: nat, sum: real, reward: int, coin: Option<Dest>): real
    requires k < |local|
  {
    sum + UsableAlloc(local[..k], reward, coin) + local[k].alloc
  }

  /**
  An entry is reached and paid when it is usable, fewer usable ones than there is room for come before
  it, and up to it no entry worth an output would pass the whole.
  */
  predicate Reached(local: seq<SideStake>, i: nat, room: nat, sum: real, reward: int, coin: Option<Dest>)
    requires i < |local|
  {
    && Usable(local[i], reward, coin)
    && UsableCount(local[..i], reward, coin) < room
    && forall k :: 0 <= k <= i && !Skipped(local[k], reward) ==> With(local, k, sum, reward, coin) <= 1.0
  }

  /** An entry gets its share; one that completes the whole gets what the shares before it have left. */
  function Amount(local: seq<SideStake>, i: nat, sum: real, left: int, reward: int, coin: Option<Dest>): int
    requires i < |local|
  {
    if With(local, i, sum, reward, coin) < 1.0 then Share(local[i].alloc, reward)
    else left - UsableShares(local[..i], reward, coin)
  }

  /** Some voluntary sidestake that is reached pays what a mandatory one must get. */
  ghost predicate PaysFor(
      local: seq<SideStake>, room: nat, sum: real, left: int, reward: int, coin: Option<Dest>, spec: Spec)
  {
    exists i :: 0 <= i < |local| && PaysForAt(local, i, room, sum, left, reward, coin, spec)
  }

  predicate PaysForAt(
      local: seq<SideStake>, i: nat, room: nat, sum: real, left: int, reward: int, coin: Option<Dest>, spec: Spec)
    requires i < |local|
  {
    && Reached(local, i, room, sum, reward, coin)
    && local[i].dest == spec.dest && Amount(local, i, sum, left, reward, coin) >= spec.required
  }

  /** Sums over a list that starts with an entry. */
  lemma Front(local: seq<SideStake>, i: nat, reward: int, coin: Option<Dest>)
    requires i < |local|
    ensures var usable := Usable(local[0], reward, coin);
      && UsableCount(local[..i + 1], reward, coin) ==
         UsableCount(local[1..][..i], reward, coin) + (if usable then 1 else 0)
      && UsableAlloc(local[..i + 1], reward, coin) ==
           UsableAlloc(local[1..][..i], reward, coin) + (if usable then local[0].alloc else 0.0)
      && UsableShares(local[..i + 1], reward, coin) ==
           UsableShares(local[1..][..i], reward, coin) + (if usable then Share(local[0].alloc, reward) else 0)
  {
    hide Usable, Share;
    assert local[..i + 1][0] == local[0] && local[..i + 1][1..] == local[1..][..i];
  }

  /** What the list after its first entry has left of allocation, room and reward. */
  lemma FrontWith(local: seq<SideStake>, i: nat, sum: real, reward: int, coin: Option<Dest>)
    requires i + 1 < |local|
    ensures With(local, i + 1, sum, reward, coin) ==
              With(local[1..], i, sum + (if Usable(local[0], reward, coin) then local[0].alloc else 0.0), reward, coin)
  {
    hide Usable, UsableAlloc;
    Front(local, i, reward, coin);
    assert local[1..][i] == local[i + 1];
  }

  /** The first entry keeps the later ones from being reached only by passing the whole, or by taking the last room. */
  lemma ReachedAfter(local: seq<SideStake>, i: nat, room: nat, sum: real, reward: int, coin: Option<Dest>)
    requires i + 1 < |local| && (!Skipped(local[0], reward) ==> sum + local[0].alloc <= 1.0)
    requires Usable(local[0], reward, coin) ==> room > 0
    ensures var usable := Usable(local[0], reward, coin);
      Reached(local, i + 1, room, sum, reward, coin) <==>
        Reached(local[1..], i, if usable then room - 1 else room,
                sum + (if usable then local[0].alloc else 0.0), reward, coin)
  {
    hide Usable, UsableAlloc, UsableCount, With, Skipped;
    var rest, usable := local[1..], Usable(local[0], reward, coin);
    var sum' := sum + (if usable then local[0].alloc else 0.0);
    Front(local, i, reward, coin);
    assert rest[i] == local[i + 1];
    FirstWith(local, sum, reward, coin);
    forall k | 0 <= k <= i
      ensures rest[k] == local[k + 1] && With(local, k + 1, sum, reward, coin) == With(rest, k, sum', reward, coin)
    {
      FrontWith(local, k, sum, reward, coin);
    }
    if Reached(rest, i, if usable then room - 1 else room, sum', reward, coin) {
      forall k | 0 <= k <= i + 1 && !Skipped(local[k], reward) ensures With(local, k, sum, reward, coin) <= 1.0 {
        if k > 0 {
          assert rest[k - 1] == local[k];
        }
      }
    }
  }

  lemma FirstWith(local: seq<SideStake>, sum: real, reward: int, coin: Option<Dest>)
    requires local != []
    ensures With(local, 0, sum, reward, coin) == sum + local[0].alloc
    ensures UsableCount(local[..0], reward, coin) == 0 && UsableShares(local[..0], reward, coin) == 0
  {
    assert local[..0] == [];
  }

  lemma AmountAfter(local: seq<SideStake>, i: nat, sum: real, left: int, reward: int, coin: Option<Dest>)
    requires i + 1 < |local|
    ensures var usable := Usable(local[0], reward, coin);
      Amount(local, i + 1, sum, left, reward, coin) ==
        Amount(local[1..], i, sum + (if usable then local[0].alloc else 0.0),
               left - (if usable then Share(local[0].alloc, reward) else 0), reward, coin)
  {
    hide Usable, UsableAlloc, UsableCount, UsableShares, With, Skipped, Share;
    Front(local, i, reward, coin);
    FrontWith(local, i, sum, reward, coin);
    assert local[1..][i] == local[i + 1];
  }

  /** An entry that is not paid and does not end the list leaves it to the others. */
  lemma PassOver(local: seq<SideStake>, room: nat, sum: real, left: int, reward: int, coin: Option<Dest>, spec: Spec)
    requires local != [] && !Usable(local[0], reward, coin)
    requires !Skipped(local[0], reward) ==> sum + local[0].alloc <= 1.0
    ensures PaysFor(local, room, sum, left, reward, coin, spec) <==>
              PaysFor(local[1..], room, sum, left, reward, coin, spec)
  {
    hide Usable, Reached, Amount, Skipped;
    var rest := local[1..];
    forall i | 0 <= i < |rest|
      ensures PaysForAt(rest, i, room, sum, left, reward, coin, spec) <==>
                PaysForAt(local, i + 1, room, sum, left, reward, coin, spec)
    {
      ReachedAfter(local, i, room, sum, reward, coin);
      AmountAfter(local, i, sum, left, reward, coin);
      assert rest[i] == local[i + 1];
    }
    assert !PaysForAt(local, 0, room, sum, left, reward, coin, spec) by {
      NotReached(local, room, sum, reward, coin);
    }
    if PaysFor(local, room, sum, left, reward, coin, spec) {
      var i :| 0 <= i < |local| && PaysForAt(local, i, room, sum, left, reward, coin, spec);
      assert PaysForAt(rest, i - 1, room, sum, left, reward, coin, spec);
    }
    if PaysFor(rest, room, sum, left, reward, coin, spec) {
      var i :| 0 <= i < |rest| && PaysForAt(rest, i, room, sum, left, reward, coin, spec);
      assert PaysForAt(local, i + 1, room, sum, left, reward, coin, spec);
    }
  }

  lemma NotReached(local: seq<SideStake>, room: nat, sum: real, reward: int, coin: Option<Dest>)
    requires local != [] && !Usable(local[0], reward, coin)
    ensures !Reached(local, 0, room, sum, reward, coin)
  {
  }

  /** Nothing is reached from an entry on that is worth an output and would pass the whole, or without room. */
  lemma NoneReached(local: seq<SideStake>, room: nat, sum: real, reward: int, coin: Option<Dest>)
    requires local != [] && (room == 0 || (!Skipped(local[0], reward) && sum + local[0].alloc > 1.0))
    ensures forall i :: 0 <= i < |local| ==> !Reached(local, i, room, sum, reward, coin)
  {
    hide Usable, Skipped;
    FirstWith(local, sum, reward, coin);
  }

  /** Once the whole is allocated nothing more is reached. */
  lemma WholeReached(local: seq<SideStake>, room: nat, sum: real, reward: int, coin: Option<Dest>)
    requires reward >= 0 && sum >= 1.0
    ensures forall i :: 0 <= i < |local| ==> !Reached(local, i, room, sum, reward, coin)
  {
    forall i | 0 <= i < |local| ensures !Reached(local, i, room, sum, reward, coin) {
      if Reached(local, i, room, sum, reward, coin) {
        WorthSomething(local[i].alloc, reward);
        AllocPositive(local[..i], reward, coin);
        assert false;
      }
    }
  }

  lemma WorthSomething(alloc: real, reward: int)
    requires reward >= 0 && alloc * reward as real >= CENT as real
    ensures alloc > 0.0 && Share(alloc, reward) >= CENT
  {
  }

  lemma {:induction false} AllocPositive(local: seq<SideStake>, reward: int, coin: Option<Dest>)
    requires reward >= 0
    ensures UsableAlloc(local, reward, coin) >= 0.0
  {
    if local != [] {
      AllocPositive(local[1..], reward, coin);
      if Usable(local[0], reward, coin) {
        WorthSomething(local[0].alloc, reward);
      }
    }
  }

  /** The first entry is paid, and the others make do with what it leaves. */
  lemma TakeFirst(local: seq<SideStake>, room: nat, sum: real, left: int, reward: int, coin: Option<Dest>, spec: Spec)
    requires reward >= 0 && local != [] && room > 0 && Usable(local[0], reward, coin) && sum + local[0].alloc <= 1.0
    ensures var s := local[0]; var a := if sum + s.alloc < 1.0 then Share(s.alloc, reward) else left;
      PaysFor(local, room, sum, left, reward, coin, spec) <==>
        || (s.dest == spec.dest && a >= spec.required)
        || PaysFor(local[1..], room - 1, sum + s.alloc, left - a, reward, coin, spec)
  {
    hide Usable, Reached, Amount, Skipped, Share;
    var rest, s := local[1..], local[0];
    var sum' := sum + s.alloc;
    var a := if sum' < 1.0 then Share(s.alloc, reward) else left;
    var room', left' := room - 1, left - a;
    TakenFirst(local, room, sum, left, reward, coin);
    if sum' >= 1.0 {
      WholeReached(rest, room', sum', reward, coin);
    }
    forall i | 0 <= i < |rest|
      ensures PaysForAt(rest, i, room', sum', left', reward, coin, spec) <==>
                PaysForAt(local, i + 1, room, sum, left, reward, coin, spec)
    {
      ReachedAfter(local, i, room, sum, reward, coin);
      AmountAfter(local, i, sum, left, reward, coin);
      assert rest[i] == local[i + 1];
    }
    if PaysFor(local, room, sum, left, reward, coin, spec) {
      var i :| 0 <= i < |local| && PaysForAt(local, i, room, sum, left, reward, coin, spec);
      if i > 0 {
        assert PaysForAt(rest, i - 1, room', sum', left', reward, coin, spec);
      }
    }
    if PaysFor(rest, room', sum', left', reward, coin, spec) {
      var i :| 0 <= i < |rest| && PaysForAt(rest, i, room', sum', left', reward, coin, spec);
      assert PaysForAt(local, i + 1, room, sum, left, reward, coin, spec);
    }
    if s.dest == spec.dest && a >= spec.required {
      assert PaysForAt(local, 0, room, sum, left, reward, coin, spec);
    }
  }

  lemma TakenFirst(local: seq<SideStake>, room: nat, sum: real, left: int, reward: int, coin: Option<Dest>)
    requires local != [] && room > 0 && Usable(local[0], reward, coin) && sum + local[0].alloc <= 1.0
    ensures Reached(local, 0, room, sum, reward, coin)
    ensures Amount(local, 0, sum, left, reward, coin) ==
              if sum + local[0].alloc < 1.0 then Share(local[0].alloc, reward) else left
  {
    hide Usable, Skipped, Share;
    FirstWith(local, sum, reward, coin);
  }

  lemma MetOneMore(spec: Spec, o: Output, outs: seq<Output>)
    ensures Met(spec, [o] + outs) <==> Meets(o, spec) || Met(spec, outs)
  {
    hide Meets;
    var all := [o] + outs;
    if Met(spec, all) {
      var i :| 0 <= i < |all| && Meets(all[i], spec);
      if i > 0 { assert all[i] == outs[i - 1]; }
    }
    if Meets(o, spec) { assert Meets(all[0], spec); }
    if Met(spec, outs) {
      var i :| 0 <= i < |outs| && Meets(outs[i], spec);
      assert Meets(all[i + 1], spec);
    }
  }

  /** The loop over the voluntary sidestakes pays exactly those that the settings say are reached. */
  lemma {:induction false} VoluntaryMeets(
      local: seq<SideStake>, room: nat, t: Tally, input: int, reward: int, coin: Option<Dest>, spec: Spec)
    requires reward >= 0
    ensures var u := Voluntary(local, room, t, input, reward, coin);
      && t.outs <= u.outs
      && (Met(spec, u.outs[|t.outs|..]) <==> PaysFor(local, room, t.sum, t.remaining - input, reward, coin, spec))
  {
    hide Share, Met, PaysFor, Skipped;
    var left := t.remaining - input;
    if local == [] || room == 0 {
      NothingPaid(local, room, t, left, reward, coin, spec);
    } else {
      var s := local[0];
      if Skipped(s, reward) {
        VoluntaryMeets(local[1..], room, t, input, reward, coin, spec);
        PassOver(local, room, t.sum, left, reward, coin, spec);
      } else if t.sum + s.alloc > 1.0 {
        NothingPaid(local, room, t, left, reward, coin, spec);
      } else if coin == Some(s.dest) {
        VoluntaryMeets(local[1..], room, t, input, reward, coin, spec);
        PassOver(local, room, t.sum, left, reward, coin, spec);
      } else {
        var v := Paid(t, s.dest, s.alloc, Share(s.alloc, reward), input);
        VoluntaryMeets(local[1..], room - 1, v, input, reward, coin, spec);
        TakeFirst(local, room, t.sum, left, reward, coin, spec);
        var u := Voluntary(local, room, t, input, reward, coin);
        var o := v.outs[|t.outs|];
        assert u.outs[|t.outs|] == o;
        assert u.outs[|t.outs|..] == [o] + u.outs[|v.outs|..];
        MetOneMore(spec, o, u.outs[|v.outs|..]);
      }
    }
  }

  lemma NothingPaid(local: seq<SideStake>, room: nat, t: Tally, left: int, reward: int, coin: Option<Dest>, spec: Spec)
    requires local == [] || room == 0 || (!Skipped(local[0], reward) && t.sum + local[0].alloc > 1.0)
    ensures !Met(spec, t.outs[|t.outs|..]) && !PaysFor(local, room, t.sum, left, reward, coin, spec)
  {
    if local != [] {
      NoneReached(local, room, t.sum, reward, coin);
    }
  }
}
