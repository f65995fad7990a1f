/** Splitting a coinstake into sidestakes and stake outputs, and what the block validator makes of it. */
module Coinstake {
  import opened Basics
  import opened Sidestakes

  /** Everything the split depends on besides the coinstake: settings, limits and the sidestakes in the order drawn. */
  datatype Plan = Plan(reward: int, stakeSplit: bool, sideStaking: bool, maxOutputs: nat, mandatoryLimit: nat,
                       specs: seq<Spec>, local: seq<SideStake>, pieces: nat)

  predicate Sound(p: Plan) {
    p.mandatoryLimit + 2 <= p.maxOutputs && p.pieces >= 1
  }

  // ----- the split as a function -----

  function Start(stake: Output): Tally {
    Tally([], 0.0, stake.value)
  }

  function Mandated(p: Plan, stake: Output): Tally {
    if p.sideStaking then Mandatory(p.specs, p.mandatoryLimit, Start(stake), stake.value - p.reward) else Start(stake)
  }

  function Sides(p: Plan, stake: Output): Tally
    requires Sound(p)
  {
    var m := Mandated(p, stake);
    if !p.sideStaking || |m.outs| + 2 > p.maxOutputs then m else
    Voluntary(p.local, p.maxOutputs - 2 - |m.outs|, m, stake.value - p.reward, p.reward, Destination(stake.script))
  }

  function Equal(n: nat, value: int, script: Script): (outs: seq<Output>)
    ensures |outs| == n && forall i :: 0 <= i < n ==> outs[i] == Output(value, script)
  {
    seq(n, i => Output(value, script))
  }

  /** A value in n parts, the last of which takes what the division lost. */
  function Pieces(value: int, n: nat, script: Script): (outs: seq<Output>)
    requires n > 0
    ensures |outs| == n
  {
    var part := TruncDiv(value, n);
    Equal(n - 1, part, script) + [Output(value - (n - 1) * part, script)]
  }

  function Count(p: Plan, used: nat): (n: nat)
    requires p.pieces >= 1 && used < p.maxOutputs
    ensures n >= 1 && used + n <= p.maxOutputs
  {
    if !p.stakeSplit then 1 else if p.maxOutputs - used < p.pieces then p.maxOutputs - used else p.pieces
  }

  function Reversed(s: seq<Output>): (r: seq<Output>)
    ensures |r| == |s| && forall i :: 0 <= i < |s| ==> r[i] == s[|s| - 1 - i]
  {
    if s == [] then [] else [s[|s| - 1]] + Reversed(s[..|s| - 1])
  }

  lemma {:induction false} TotalReversed(s: seq<Output>)
    ensures Total(Reversed(s)) == Total(s)
  {
    if s != [] {
      var n := |s| - 1;
      TotalReversed(s[..n]);
      TotalAppend([s[n]], Reversed(s[..n]));
      TotalOne(s[n]);
    }
  }

  lemma SidesFit(p: Plan, stake: Output)
    requires Sound(p)
    ensures |Mandated(p, stake).outs| <= p.mandatoryLimit && |Sides(p, stake).outs| + 2 <= p.maxOutputs
    ensures Sides(p, stake).remaining + Total(Sides(p, stake).outs) == stake.value
    ensures Mandated(p, stake).outs <= Sides(p, stake).outs
  {
    var m := Mandated(p, stake);
    MandatoryFollows(p.specs, p.mandatoryLimit, Start(stake), stake.value - p.reward);
    if p.sideStaking {
      VoluntaryFollows(p.local, p.maxOutputs - 2 - |m.outs|, m, stake.value - p.reward, p.reward,
        Destination(stake.script));
    }
  }

  /** The stake outputs: what the sidestakes leave, in as many parts as there is room for. */
  function Stakes(p: Plan, stake: Output): (outs: seq<Output>)
    requires Sound(p)
    ensures |outs| >= 1 && |Sides(p, stake).outs| + |outs| + 1 <= p.maxOutputs
  {
    SidesFit(p, stake);
    var s := Sides(p, stake);
    Pieces(s.remaining, Count(p, |s.outs| + 1), stake.script)
  }

  /** The whole coinstake after the split. */
  function Split(p: Plan, vout: seq<Output>): seq<Output>
    requires Sound(p) && |vout| >= 2
  {
    if !p.stakeSplit && !p.sideStaking then vout else
    Reversed(Sides(p, vout[1]).outs + Stakes(p, vout[1]) + [Output(0, Empty)]) + vout[2..]
  }

  // ----- what the split keeps -----

  lemma {:induction false} TotalEqual(n: nat, value: int, script: Script)
    ensures Total(Equal(n, value, script)) == n * value
  {
    if n > 0 {
      TotalEqual(n - 1, value, script);
      assert Equal(n, value, script)[..n - 1] == Equal(n - 1, value, script);
    }
  }

  lemma PartsFit(value: int, n: nat)
    requires n > 0 && value >= 0
    ensures 0 <= TruncDiv(value, n) && 0 <= value - (n - 1) * TruncDiv(value, n)
  {
    var part := value / n;
    assert n * part <= value;
    assert (n - 1) * part == n * part - part;
  }

  /** The parts but the last are equal, and the last is at most less than one unit a part greater. */
  lemma PiecesEven(value: int, n: nat, script: Script)
    requires n > 0 && value >= 0
    ensures var outs := Pieces(value, n, script);
      && (forall i, j :: 0 <= i < n - 1 && 0 <= j < n - 1 ==> outs[i].value == outs[j].value)
      && (forall i :: 0 <= i < n - 1 ==> 0 <= outs[n - 1].value - outs[i].value < n)
  {
    var part := value / n;
    assert n * part <= value < n * part + n;
    assert (n - 1) * part == n * part - part;
  }

  lemma PiecesTotal(value: int, n: nat, script: Script)
    requires n > 0
    ensures Total(Pieces(value, n, script)) == value
    ensures forall i :: 0 <= i < n ==> Pieces(value, n, script)[i].script == script
    ensures value >= 0 ==> NoneNegative(Pieces(value, n, script))
  {
    hide TruncDiv;
    var part := TruncDiv(value, n);
    TotalEqual(n - 1, part, script);
    TotalOne(Output(value - (n - 1) * part, script));
    TotalAppend(Equal(n - 1, part, script), [Output(value - (n - 1) * part, script)]);
    if value >= 0 { PartsFit(value, n); }
  }

  lemma SplitTotals(p: Plan, vout: seq<Output>)
    requires Sound(p) && |vout| >= 2 && (p.stakeSplit || p.sideStaking)
    ensures var k := |Sides(p, vout[1]).outs| + |Stakes(p, vout[1])| + 1;
      var s := Split(p, vout);
      2 <= k <= |s| && Total(s[..k]) == vout[1].value && s[k..] == vout[2..]
  {
    var sides, stakes := Sides(p, vout[1]), Stakes(p, vout[1]);
    var front := sides.outs + stakes + [Output(0, Empty)];
    SidesFit(p, vout[1]);
    PiecesTotal(sides.remaining, Count(p, |sides.outs| + 1), vout[1].script);
    TotalAppend(sides.outs, stakes);
    TotalAppend(sides.outs + stakes, [Output(0, Empty)]);
    TotalOne(Output(0, Empty));
    TotalReversed(front);
    var s := Split(p, vout);
    assert s[..|front|] == Reversed(front);
  }

  /**
  The split neither makes nor loses value, keeps the empty output first and a stake output
  second, stays within the output limit, and leaves the outputs of the research claims alone.
  */
  lemma SplitKeeps(p: Plan, vout: seq<Output>)
    requires Sound(p) && |vout| >= 2 && (p.stakeSplit || p.sideStaking)
    ensures var s := Split(p, vout); var k := |s| - |vout[2..]|;
      && 2 <= k <= p.maxOutputs && s[0] == Output(0, Empty) && s[1].script == vout[1].script
      && s[k..] == vout[2..] && Total(s[..k]) == vout[1].value && Total(s) == Total(vout[1..])
  {
    var sides, stakes := Sides(p, vout[1]), Stakes(p, vout[1]);
    var front := sides.outs + stakes + [Output(0, Empty)];
    SplitTotals(p, vout);
    PiecesTotal(sides.remaining, Count(p, |sides.outs| + 1), vout[1].script);
    var s, k := Split(p, vout), |front|;
    assert s[1] == front[k - 2] == stakes[|stakes| - 1];
    TotalAppend(s[..k], s[k..]);
    assert s == s[..k] + s[k..];
    TotalAppend([vout[1]], vout[2..]);
    TotalOne(vout[1]);
    assert vout[1..] == [vout[1]] + vout[2..];
  }

  function TotalOf(outs: seq<Output>, script: Script): int {
    if outs == [] then 0 else
    TotalOf(outs[..|outs| - 1], script) + (if outs[|outs| - 1].script == script then outs[|outs| - 1].value else 0)
  }

  lemma {:induction false} TotalOfAppend(a: seq<Output>, b: seq<Output>, script: Script)
    ensures TotalOf(a + b, script) == TotalOf(a, script) + TotalOf(b, script)
  {
    if b == [] {
      assert a + b == a;
    } else {
      var n := |b| - 1;
      assert (a + b)[..|a + b| - 1] == a + b[..n];
      TotalOfAppend(a, b[..n], script);
    }
  }

  lemma {:induction false} TotalOfReversed(s: seq<Output>, script: Script)
    ensures TotalOf(Reversed(s), script) == TotalOf(s, script)
  {
    if s != [] {
      var n := |s| - 1;
      TotalOfReversed(s[..n], script);
      TotalOfAppend([s[n]], Reversed(s[..n]), script);
      assert [s[n]][..0] == [];
    }
  }

  lemma {:induction false} TotalOfBounds(s: seq<Output>, script: Script)
    ensures NoneNegative(s) ==> TotalOf(s, script) >= 0
    ensures (forall i :: 0 <= i < |s| ==> s[i].script == script) ==> TotalOf(s, script) == Total(s)
  {
    if s != [] {
      TotalOfBounds(s[..|s| - 1], script);
    }
  }

  /**
  With a reward that is part of the stake output and amounts that round down, nothing is negative and the
  staker keeps at least the part that is not reward.
  */
  lemma SplitFair(p: Plan, vout: seq<Output>)
    requires Sound(p) && |vout| >= 2 && (p.stakeSplit || p.sideStaking)
    requires p.reward >= 0 && vout[1].value >= p.reward && RoundDown(p.specs, p.reward)
    requires forall i :: 0 <= i < |p.local| ==> p.local[i].alloc >= 0.0
    ensures var s := Split(p, vout); var k := |s| - |vout[2..]|;
      && 0 <= k <= |s| && NoneNegative(s[..k])
      && TotalOf(s[..k], vout[1].script) >= vout[1].value - p.reward
  {
    hide Sides, Pieces, Count, TotalOf, Total, Reversed, RoundDown, Fair;
    var stake, input := vout[1], vout[1].value - p.reward;
    SidesFairly(p, stake);
    var sides, stakes := Sides(p, stake), Stakes(p, stake);
    FairLeaves(sides, input, p.reward);
    FairOutputs(sides, input, p.reward);
    SidesFit(p, stake);
    PiecesTotal(sides.remaining, Count(p, |sides.outs| + 1), stake.script);
    var front := sides.outs + stakes + [Output(0, Empty)];
    assert Split(p, vout)[..|front|] == Reversed(front);
    FrontFair(sides.outs, stakes, stake.script);
  }

  lemma FairOutputs(t: Tally, input: int, reward: int)
    requires Fair(t, input, reward)
    ensures NoneNegative(t.outs)
  {
  }

  lemma FrontFair(sides: seq<Output>, stakes: seq<Output>, script: Script)
    requires NoneNegative(sides) && NoneNegative(stakes) && forall i :: 0 <= i < |stakes| ==> stakes[i].script == script
    ensures var r := Reversed(sides + stakes + [Output(0, Empty)]);
      NoneNegative(r) && TotalOf(r, script) >= Total(stakes)
  {
    hide TotalOf, Total;
    var front := sides + stakes + [Output(0, Empty)];
    TotalOfReversed(front, script);
    TotalOfAppend(sides + stakes, [Output(0, Empty)], script);
    TotalOfAppend(sides, stakes, script);
    TotalOfBounds(sides, script);
    TotalOfBounds(stakes, script);
    TotalOfBounds([Output(0, Empty)], script);
  }

  lemma SidesFairly(p: Plan, stake: Output)
    requires Sound(p) && p.reward >= 0 && RoundDown(p.specs, p.reward)
    requires forall i :: 0 <= i < |p.local| ==> p.local[i].alloc >= 0.0
    ensures Fair(Mandated(p, stake), stake.value - p.reward, p.reward)
    ensures Fair(Sides(p, stake), stake.value - p.reward, p.reward)
  {
    var input := stake.value - p.reward;
    assert (1.0 - 0.0) * p.reward as real == p.reward as real;
    assert Fair(Start(stake), input, p.reward);
    MandatoryFair(p.specs, p.mandatoryLimit, Start(stake), input, p.reward);
    SidesFit(p, stake);
    var m := Mandated(p, stake);
    if p.sideStaking {
      VoluntaryFair(p.local, p.maxOutputs - 2 - |m.outs|, m, input, p.reward, Destination(stake.script));
    }
  }
}
