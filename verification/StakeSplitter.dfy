/** The split as the miner performs it, on the transaction under construction. */
module StakeSplitter {
  import opened Basics
  import opened Sidestakes
  import opened Coinstake

  class MutableTransaction {
    var vout: seq<Output>

    constructor (vout: seq<Output>)
      ensures this.vout == vout
    {
      this.vout := vout;
    }
  }

  /** The mandatory sidestakes that the miner must pay and the validator looks for. */
  method ComputeEligible(active: seq<SideStake>, coin: Dest, total: int) returns (specs: seq<Spec>)
    ensures specs == Eligible(active, coin, total)
  {
    specs := [];
    for i := 0 to |active|
      invariant specs == Eligible(active[..i], coin, total)
    {
      var s := active[i];
      var required := Share(s.alloc, total);
      assert active[..i + 1][..i] == active[..i];
      if !(required < CENT || s.dest == coin) {
        specs := specs + [Spec(s.dest, s.alloc, required)];
      }
    }
    assert active[..|active|] == active;
  }

  method PayMandatory(tx: MutableTransaction, specs: seq<Spec>, limit: nat, sumBefore: real, remainingBefore: int,
                      input: int)
    returns (sum: real, remaining: int)
    modifies tx
    ensures Tally(tx.vout, sum, remaining) ==
        Mandatory(specs, limit, Tally(old(tx.vout), sumBefore, remainingBefore), input)
  {
    sum, remaining := sumBefore, remainingBefore;
    var count, i := 0, 0;
    ghost var goal := Mandatory(specs, limit, Tally(tx.vout, sum, remaining), input);
    assert specs[0..] == specs;
    while i < |specs|
      invariant 0 <= i <= |specs| && 0 <= count <= limit
      invariant goal == Mandatory(specs[i..], limit - count, Tally(tx.vout, sum, remaining), input)
    {
      if count >= limit {
        break;
      }
      var spec := specs[i];
      assert specs[i..][0] == spec && specs[i..][1..] == specs[i + 1..];
      if sum + spec.alloc > 1.0 {
        break;
      }
      var sideStake := 0;
      if sum + spec.alloc < 1.0 {
        sideStake := spec.required;
      } else if sum + spec.alloc == 1.0 {
        sideStake := remaining - input;
      }
      tx.vout := tx.vout + [Output(sideStake, Pay(spec.dest, false))];
      sum := sum + spec.alloc;
      remaining := remaining - sideStake;
      count := count + 1;
      i := i + 1;
    }
  }

  method AllocateSidestakes(tx: MutableTransaction, local: seq<SideStake>, room: nat, sumBefore: real,
                            remainingBefore: int, input: int, reward: int, coin: Option<Dest>)
    returns (sum: real, remaining: int)
    modifies tx
    ensures Tally(tx.vout, sum, remaining)
         == Voluntary(local, room, Tally(old(tx.vout), sumBefore, remainingBefore), input, reward, coin)
  {
    hide Voluntary, Paid;
    sum, remaining := sumBefore, remainingBefore;
    var used, i := 0, 0;
    ghost var goal := Voluntary(local, room, Tally(tx.vout, sum, remaining), input, reward, coin);
    assert local[0..] == local;
    while i < |local| && used < room
      invariant 0 <= i <= |local| && 0 <= used <= room
      invariant goal == Voluntary(local[i..], room - used, Tally(tx.vout, sum, remaining), input, reward, coin)
    {
      var s := local[i];
      ghost var t := Tally(tx.vout, sum, remaining);
      VoluntaryStep(local, i, room - used, t, input, reward, coin);
      i := i + 1;
      if !s.valid {
        continue;
      }
      if s.alloc * reward as real < CENT as real {
        continue;
      }
      if sum + s.alloc > 1.0 {
        return;
      }
      if coin == Some(s.dest) {
        continue;
      }
      var sideStake := 0;
      if sum + s.alloc < 1.0 {
        sideStake := Share(s.alloc, reward);
      } else if sum + s.alloc == 1.0 {
        sideStake := remaining - input;
      }
      tx.vout := tx.vout + [Output(sideStake, Pay(s.dest, false))];
      sum := sum + s.alloc;
      remaining := remaining - sideStake;
      used := used + 1;
      PaidIs(t, s.dest, s.alloc, Share(s.alloc, reward), input, Tally(tx.vout, sum, remaining));
    }
    VoluntaryEnd(local[i..], room - used, Tally(tx.vout, sum, remaining), input, reward, coin);
  }

  lemma VoluntaryStep(local: seq<SideStake>, i: nat, room: nat, t: Tally, input: int, reward: int, coin: Option<Dest>)
    requires i < |local| && room > 0
    ensures var s := local[i];
      Voluntary(local[i..], room, t, input, reward, coin)
      == if Skipped(s, reward) then Voluntary(local[i + 1..], room, t, input, reward, coin)
         else if t.sum + s.alloc > 1.0 then t
         else if coin == Some(s.dest) then Voluntary(local[i + 1..], room, t, input, reward, coin)
         else Voluntary(local[i + 1..], room - 1, Paid(t, s.dest, s.alloc, Share(s.alloc, reward), input), input,
           reward, coin)
  {
    assert local[i..][0] == local[i] && local[i..][1..] == local[i + 1..];
  }

  lemma VoluntaryEnd(local: seq<SideStake>, room: nat, t: Tally, input: int, reward: int, coin: Option<Dest>)
    requires local == [] || room == 0
    ensures Voluntary(local, room, t, input, reward, coin) == t
  {
  }

  lemma PaidIs(t: Tally, dest: Dest, alloc: real, amount: int, input: int, u: Tally)
    requires t.sum + alloc <= 1.0 && u.sum == t.sum + alloc
    requires var a := if t.sum + alloc < 1.0 then amount else t.remaining - input;
      u.outs == t.outs + [Output(a, Pay(dest, false))] && u.remaining == t.remaining - a
    ensures u == Paid(t, dest, alloc, amount, input)
  {
  }

  method PushStakes(tx: MutableTransaction, remaining: int, n: nat, script: Script)
    requires n > 0
    modifies tx
    ensures tx.vout == old(tx.vout) + Pieces(remaining, n, script)
  {
    var part := TruncDiv(remaining, n);
    var sum, i := 0, 1;
    while i < n
      invariant 1 <= i <= n && sum == (i - 1) * part
      invariant tx.vout == old(tx.vout) + Equal(i - 1, part, script)
    {
      tx.vout := tx.vout + [Output(part, script)];
      assert Equal(i, part, script) == Equal(i - 1, part, script) + [Output(part, script)];
      NextMultiple(i, part);
      sum := sum + part;
      i := i + 1;
    }
    tx.vout := tx.vout + [Output(remaining - sum, script)];
  }

  lemma NextMultiple(i: int, part: int)
    ensures i * part == (i - 1) * part + part
  {
  }

  method SplitCoinStakeOutput(tx: MutableTransaction, p: Plan)
    requires Sound(p) && |tx.vout| >= 2
    modifies tx
    ensures tx.vout == Split(p, old(tx.vout))
  {
    hide Mandatory, Voluntary, Pieces, Reversed;
    if !p.stakeSplit && !p.sideStaking {
      return;
    }
    ghost var stake := tx.vout[1];
    SidesFit(p, stake);
    var script := tx.vout[1].script;
    var remaining := tx.vout[1].value;
    var input := remaining - p.reward;
    var orig := tx.vout;
    tx.vout := [];
    var sum := 0.0;
    if p.sideStaking {
      sum, remaining := PayMandatory(tx, p.specs, p.mandatoryLimit, sum, remaining, input);
      sum, remaining := AllocateSidestakes(tx, p.local, p.maxOutputs - 2 - |tx.vout|, sum, remaining, input, p.reward,
        Destination(script));
    }
    assert Tally(tx.vout, sum, remaining) == Sides(p, stake);
    var used := 1 + |tx.vout|;
    if p.stakeSplit {
      var n := if p.maxOutputs - used < p.pieces then p.maxOutputs - used else p.pieces;
      PushStakes(tx, remaining, n, script);
    } else {
      PushStakes(tx, remaining, 1, script);
    }
    tx.vout := Reversed(tx.vout + [Output(0, Empty)]);
    PutBack(tx, orig);
  }

  /** The outputs of the research claims go back behind the split. */
  method PutBack(tx: MutableTransaction, orig: seq<Output>)
    requires |orig| >= 2
    modifies tx
    ensures tx.vout == old(tx.vout) + orig[2..]
  {
    for i := 2 to |orig|
      invariant tx.vout == old(tx.vout) + orig[2..i]
    {
      assert orig[2..i + 1] == orig[2..i] + [orig[i]];
      tx.vout := tx.vout + [orig[i]];
    }
    assert orig[2..|orig|] == orig[2..];
  }
}
