/**
How a staking reward is divided: mandatory and voluntary sidestakes out of the reward,
the rest back to the staker. Allocations are exact fractions, amounts are whole units.
*/
module Sidestakes {
  import opened Basics

  const CENT := 1000000

  type Dest = nat

  /** An output script: the empty one, a payment to a destination by key hash or by key, or anything else. */
  datatype Script = Empty | Pay(dest: Dest, byKey: bool) | Other(id: nat)

  function Destination(s: Script): Option<Dest> {
    if s.Pay? then Some(s.dest) else None
  }

  datatype Output = Output(value: int, script: Script)

  /** An entry of the sidestake registry. */
  datatype SideStake = SideStake(dest: Dest, valid: bool, alloc: real)

  /** A mandatory sidestake with the amount it must get. */
  datatype Spec = Spec(dest: Dest, alloc: real, required: int)

  predicate Meets(o: Output, spec: Spec) {
    Destination(o.script) == Some(spec.dest) && o.value >= spec.required
  }

  predicate Met(spec: Spec, outs: seq<Output>) {
    exists i :: 0 <= i < |outs| && Meets(outs[i], spec)
  }

  // ----- amounts -----

  /** The whole part of a fraction, toward zero. */
  function Truncate(x: real): int {
    if x >= 0.0 then x.Floor else -(-x).Floor
  }

  function Share(alloc: real, reward: int): int {
    Truncate(alloc * reward as real)
  }

  lemma ShareRoundsDown(alloc: real, reward: int)
    requires alloc >= 0.0 && reward >= 0
    ensures 0 <= Share(alloc, reward) && Share(alloc, reward) as real <= alloc * reward as real
    ensures alloc * reward as real < Share(alloc, reward) as real + 1.0
  {
    assert alloc * reward as real >= 0.0;
  }

  function Total(outs: seq<Output>): int {
    if outs == [] then 0 else Total(outs[..|outs| - 1]) + outs[|outs| - 1].value
  }

  lemma {:induction false} TotalAppend(a: seq<Output>, b: seq<Output>)
    ensures Total(a + b) == Total(a) + Total(b)
  {
    if b == [] {
      assert a + b == a;
    } else {
      var n := |b| - 1;
      assert (a + b)[..|a + b| - 1] == a + b[..n];
      TotalAppend(a, b[..n]);
    }
  }

  lemma TotalOne(o: Output)
    ensures Total([o]) == o.value
  {
    assert [o][..0] == [];
  }

  // ----- the mandatory sidestakes of a block -----

  predicate Suppressed(s: SideStake, coin: Dest, total: int) {
    Share(s.alloc, total) < CENT || s.dest == coin
  }

  /** The mandatory sidestakes that must be paid: not dust, and not to the staker. */
  function Eligible(active: seq<SideStake>, coin: Dest, total: int): seq<Spec> {
    if active == [] then [] else
    var s := active[|active| - 1];
    Eligible(active[..|active| - 1], coin, total)
    + (if Suppressed(s, coin, total) then [] else [Spec(s.dest, s.alloc, Share(s.alloc, total))])
  }

  /**
  The registry keeps one entry for a destination, with a nonnegative allocation, and all together at most the
  whole.
  */
  predicate Registry(active: seq<SideStake>) {
    && (forall i, j :: 0 <= i < j < |active| ==> active[i].dest != active[j].dest)
    && (forall i :: 0 <= i < |active| ==> active[i].alloc >= 0.0)
    && AllocTotal(active) <= 1.0
  }

  function AllocTotal(active: seq<SideStake>): real {
    if active == [] then 0.0 else AllocTotal(active[..|active| - 1]) + active[|active| - 1].alloc
  }

  // ----- paying sidestakes out of the reward -----

  /** The outputs so far, the allocation they stand for, and what is left for the stake outputs. */
  datatype Tally = Tally(outs: seq<Output>, sum: real, remaining: int)

  /** One sidestake. The one that completes the whole gets what is left above the input. */
  function Paid(t: Tally, dest: Dest, alloc: real, amount: int, input: int): Tally {
    var a := if t.sum + alloc < 1.0 then amount else t.remaining - input;
    Tally(t.outs + [Output(a, Pay(dest, false))], t.sum + alloc, t.remaining - a)
  }

  function Mandatory(specs: seq<Spec>, limit: nat, t: Tally, input: int): Tally {
    if specs == [] || limit == 0 || t.sum + specs[0].alloc > 1.0 then t else
    Mandatory(specs[1..], limit - 1, Paid(t, specs[0].dest, specs[0].alloc, specs[0].required, input), input)
  }

  predicate Skipped(s: SideStake, reward: int) {
    !s.valid || s.alloc * reward as real < CENT as real
  }

  function Voluntary(local: seq<SideStake>, room: nat, t: Tally, input: int, reward: int, coin: Option<Dest>): Tally {
    if local == [] || room == 0 then t else
    var s := local[0];
    if Skipped(s, reward) then Voluntary(local[1..], room, t, input, reward, coin)
    else if t.sum + s.alloc > 1.0 then t
    else if coin == Some(s.dest) then Voluntary(local[1..], room, t, input, reward, coin)
    else Voluntary(local[1..], room - 1, Paid(t, s.dest, s.alloc, Share(s.alloc, reward), input), input, reward, coin)
  }

  // ----- what paying keeps -----

  /** Every unit is either in an output or left. */
  lemma PaidConserves(t: Tally, dest: Dest, alloc: real, amount: int, input: int)
    ensures var u := Paid(t, dest, alloc, amount, input);
      u.remaining + Total(u.outs) == t.remaining + Total(t.outs) && t.outs <= u.outs && |u.outs| == |t.outs| + 1
  {
    var u := Paid(t, dest, alloc, amount, input);
    assert u.outs[..|u.outs| - 1] == t.outs;
  }

  /** Outputs stay, value is conserved, and no more are added than allowed. */
  ghost predicate Follows(t: Tally, u: Tally, most: nat) {
    t.outs <= u.outs && |u.outs| <= |t.outs| + most && u.remaining + Total(u.outs) == t.remaining + Total(t.outs)
  }

  lemma {:induction false} MandatoryFollows(specs: seq<Spec>, limit: nat, t: Tally, input: int)
    ensures Follows(t, Mandatory(specs, limit, t, input), limit)
  {
    if !(specs == [] || limit == 0 || t.sum + specs[0].alloc > 1.0) {
      PaidConserves(t, specs[0].dest, specs[0].alloc, specs[0].required, input);
      MandatoryFollows(specs[1..], limit - 1, Paid(t, specs[0].dest, specs[0].alloc, specs[0].required, input), input);
    }
  }

  lemma {:induction false} VoluntaryFollows(local: seq<SideStake>, room: nat, t: Tally, input: int, reward: int,
                                            coin: Option<Dest>)
    ensures Follows(t, Voluntary(local, room, t, input, reward, coin), room)
  {
    if local != [] && room > 0 {
      var s := local[0];
      if Skipped(s, reward) {
        VoluntaryFollows(local[1..], room, t, input, reward, coin);
      } else if t.sum + s.alloc > 1.0 {
      } else if coin == Some(s.dest) {
        VoluntaryFollows(local[1..], room, t, input, reward, coin);
      } else {
        PaidConserves(t, s.dest, s.alloc, Share(s.alloc, reward), input);
        VoluntaryFollows(local[1..], room - 1, Paid(t, s.dest, s.alloc, Share(s.alloc, reward), input), input, reward,
          coin);
      }
    }
  }

  /** An output to a valid entry of at least a cent's worth that is not the staker's own. */
  ghost predicate Earmarked(o: Output, local: seq<SideStake>, reward: int, coin: Option<Dest>) {
    exists i :: 0 <= i < |local| && local[i].valid && local[i].alloc * reward as real >= 1000000.0
                && coin != Some(local[i].dest) && o.script == Pay(local[i].dest, false)
  }

  /** Voluntary sidestakes are paid only to entries that are valid, worth a cent and not the staker's own. */
  lemma {:induction false} VoluntaryEarmarked(local: seq<SideStake>, room: nat, t: Tally, input: int, reward: int,
                                              coin: Option<Dest>, k: nat)
    requires |t.outs| <= k < |Voluntary(local, room, t, input, reward, coin).outs|
    ensures Earmarked(Voluntary(local, room, t, input, reward, coin).outs[k], local, reward, coin)
  {
    hide Share;
    var s := local[0];
    var o := Voluntary(local, room, t, input, reward, coin).outs[k];
    if Skipped(s, reward) || coin == Some(s.dest) {
      VoluntaryEarmarked(local[1..], room, t, input, reward, coin, k);
      EarmarkedLater(o, local, reward, coin);
    } else {
      var u := Paid(t, s.dest, s.alloc, Share(s.alloc, reward), input);
      if k == |t.outs| {
        VoluntaryFollows(local[1..], room - 1, u, input, reward, coin);
        assert o == u.outs[k];
      } else {
        VoluntaryEarmarked(local[1..], room - 1, u, input, reward, coin, k);
        EarmarkedLater(o, local, reward, coin);
      }
    }
  }

  lemma EarmarkedLater(o: Output, local: seq<SideStake>, reward: int, coin: Option<Dest>)
    requires local != [] && Earmarked(o, local[1..], reward, coin)
    ensures Earmarked(o, local, reward, coin)
  {
    var rest := local[1..];
    var i :| 0 <= i < |rest| && rest[i].valid && rest[i].alloc * reward as real >= 1000000.0
             && coin != Some(rest[i].dest) && o.script == Pay(rest[i].dest, false);
    assert local[i + 1] == rest[i];
  }

  // ----- fairness -----

  predicate NoneNegative(outs: seq<Output>) {
    forall i :: 0 <= i < |outs| ==> outs[i].value >= 0
  }

  /** What is left above the input still covers the part of the reward not yet allocated. */
  ghost predicate Fair(t: Tally, input: int, reward: int) {
    && reward >= 0 && t.sum <= 1.0 && NoneNegative(t.outs)
    && (t.remaining - input) as real >= (1.0 - t.sum) * reward as real
  }

  lemma FairLeaves(t: Tally, input: int, reward: int)
    requires Fair(t, input, reward)
    ensures t.remaining >= input
  {
    Nonnegative(1.0 - t.sum, reward as real);
  }

  lemma Nonnegative(x: real, y: real)
    requires x >= 0.0 && y >= 0.0
    ensures x * y >= 0.0
  {
  }

  lemma Splits(sum: real, alloc: real, r: real)
    ensures (1.0 - sum) * r == (1.0 - (sum + alloc)) * r + alloc * r
  {
  }

  /** A sidestake that rounds down keeps the tally fair and gets at least its amount. */
  lemma PaidFair(t: Tally, dest: Dest, alloc: real, amount: int, input: int, reward: int)
    requires Fair(t, input, reward) && alloc >= 0.0 && t.sum + alloc <= 1.0
    requires 0 <= amount && amount as real <= alloc * reward as real
    ensures Fair(Paid(t, dest, alloc, amount, input), input, reward)
    ensures Paid(t, dest, alloc, amount, input).outs[|t.outs|].value >= amount
  {
    Splits(t.sum, alloc, reward as real);
    Nonnegative(1.0 - (t.sum + alloc), reward as real);
    var u := Paid(t, dest, alloc, amount, input);
    assert forall i :: 0 <= i < |t.outs| ==> u.outs[i] == t.outs[i];
  }

  predicate RoundsDown(spec: Spec, reward: int) {
    spec.alloc >= 0.0 && 0 <= spec.required && spec.required as real <= spec.alloc * reward as real
  }

  predicate RoundDown(specs: seq<Spec>, reward: int) {
    forall i :: 0 <= i < |specs| ==> RoundsDown(specs[i], reward)
  }

  lemma {:induction false} MandatoryFair(specs: seq<Spec>, limit: nat, t: Tally, input: int, reward: int)
    requires Fair(t, input, reward) && RoundDown(specs, reward)
    ensures Fair(Mandatory(specs, limit, t, input), input, reward)
  {
    if !(specs == [] || limit == 0 || t.sum + specs[0].alloc > 1.0) {
      PaidFair(t, specs[0].dest, specs[0].alloc, specs[0].required, input, reward);
      MandatoryFair(specs[1..], limit - 1, Paid(t, specs[0].dest, specs[0].alloc, specs[0].required, input), input,
        reward);
    }
  }

  lemma {:induction false} VoluntaryFair(local: seq<SideStake>, room: nat, t: Tally, input: int, reward: int,
                                         coin: Option<Dest>)
    requires Fair(t, input, reward) && forall i :: 0 <= i < |local| ==> local[i].alloc >= 0.0
    ensures Fair(Voluntary(local, room, t, input, reward, coin), input, reward)
  {
    if local != [] && room > 0 {
      var s := local[0];
      if Skipped(s, reward) {
        VoluntaryFair(local[1..], room, t, input, reward, coin);
      } else if t.sum + s.alloc > 1.0 {
      } else if coin == Some(s.dest) {
        VoluntaryFair(local[1..], room, t, input, reward, coin);
      } else {
        ShareRoundsDown(s.alloc, reward);
        PaidFair(t, s.dest, s.alloc, Share(s.alloc, reward), input, reward);
        VoluntaryFair(local[1..], room - 1, Paid(t, s.dest, s.alloc, Share(s.alloc, reward), input), input, reward,
          coin);
      }
    }
  }
}
