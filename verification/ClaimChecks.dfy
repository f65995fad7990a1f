/**
The block validator's own account of a coinstake: it counts the outputs of the research claims, works out
where they start and what the staker is owed, and checks the division of the reward against that.
*/
module ClaimChecks {
  import opened Basics
  import opened Sidestakes
  import opened Coinstake
  import opened StakeSplitter
  import opened SplitSettings
  import opened SidestakeRules
  import opened MrcRewards

  // ----- counting the outputs of claims -----

  function Net(e: Entry): int {
    e.mrc.subsidy - e.mrc.fee
  }

  function CountTo(outs: seq<Output>, script: Script): nat {
    if outs == [] then 0 else
    CountTo(outs[..|outs| - 1], script) + (if outs[|outs| - 1].script == script then 1 else 0)
  }

  /** The last outputs, as many as there are claims; none at all if there are not that many, since the index wraps. */
  function Window(vout: seq<Output>, claimed: nat): seq<Output> {
    if claimed <= |vout| then vout[|vout| - claimed..] else []
  }

  /** What the validator adds up over the claims. */
  datatype Account = Account(claims: nat, nonZero: nat, rewards: int, staker: int, fees: int)

  const NOTHING := Account(0, 0, 0, 0, 0)

  function Add(a: Account, b: Account): Account {
    Account(a.claims + b.claims, a.nonZero + b.nonZero, a.rewards + b.rewards, a.staker + b.staker, a.fees + b.fees)
  }

  /** A claim whose owner has an active beacon; the others do not count. */
  function OneClaim(e: Entry, window: seq<Output>, num: nat, den: nat): Account
    requires den > 0
  {
    if e.beacon.None? then NOTHING else
    Account(1, if Net(e) != 0 then CountTo(window, Pay(e.beacon.value, false)) else 0, Net(e),
            e.mrc.fee - FoundationFee(e.mrc.fee, num, den), e.mrc.fee)
  }

  function AllClaims(claims: seq<Entry>, window: seq<Output>, num: nat, den: nat): Account
    requires den > 0
  {
    if claims == [] then NOTHING else
    Add(AllClaims(claims[..|claims| - 1], window, num, den), OneClaim(claims[|claims| - 1], window, num, den))
  }

  /** The outputs to a claim's owner are together what the claim is worth. */
  predicate Holds(e: Entry, window: seq<Output>) {
    e.beacon.Some? && Net(e) != 0 ==> TotalOf(window, Pay(e.beacon.value, false)) == Net(e)
  }

  predicate ClaimsHold(claims: seq<Entry>, window: seq<Output>) {
    forall i :: 0 <= i < |claims| ==> Holds(claims[i], window)
  }

  /** The claims of a block are checked against its coinstake. */
  method CheckMRCRewards(vout: seq<Output>, claims: seq<Entry>, claimed: nat, limit: nat, num: nat, den: nat)
    returns (ok: bool, account: Account)
    requires den > 0 && (claimed == 0 ==> claims == [])
    ensures var window := Window(vout, claimed); var all := AllClaims(claims, window, num, den);
      ok <==> claimed <= limit && ClaimsHold(claims, window) && all.claims >= claimed
    ensures ok ==> account == AllClaims(claims, Window(vout, claimed), num, den)
  {
    hide AllClaims, TotalOf, CountTo, FoundationFee;
    account := NOTHING;
    ghost var window := Window(vout, claimed);
    ghost var all := AllClaims(claims, window, num, den);
    if claimed > limit {
      return false, account;
    }
    NoClaims(window, num, den);
    if limit > 0 {
      for i := 0 to |claims|
        invariant account == AllClaims(claims[..i], window, num, den)
        invariant ClaimsHold(claims[..i], window)
      {
        var e := claims[i];
        OneMore(claims, i, window, num, den);
        if e.beacon.Some? {
          var paid, found := 0, 0;
          if Net(e) != 0 {
            paid, found := PaidToOwner(vout, claimed, Pay(e.beacon.value, false));
          }
          if paid != Net(e) {
            assert !Holds(claims[i], window);
            return false, account;
          }
          account := Account(account.claims + 1, account.nonZero + found, account.rewards + Net(e),
                             account.staker + (e.mrc.fee - FoundationFee(e.mrc.fee, num, den)),
                               account.fees + e.mrc.fee);
        }
        HoldsMore(claims, i, window);
      }
    }
    assert claims[..|claims|] == claims;
    ok := account.claims >= claimed;
  }

  lemma NoClaims(window: seq<Output>, num: nat, den: nat)
    requires den > 0
    ensures AllClaims([], window, num, den) == NOTHING
  {
  }

  lemma OneMore(claims: seq<Entry>, i: nat, window: seq<Output>, num: nat, den: nat)
    requires i < |claims| && den > 0
    ensures AllClaims(claims[..i + 1], window, num, den) ==
              Add(AllClaims(claims[..i], window, num, den), OneClaim(claims[i], window, num, den))
  {
    assert claims[..i + 1][..i] == claims[..i];
  }

  lemma HoldsMore(claims: seq<Entry>, i: nat, window: seq<Output>)
    requires i < |claims| && ClaimsHold(claims[..i], window) && Holds(claims[i], window)
    ensures ClaimsHold(claims[..i + 1], window)
  {
    var more := claims[..i + 1];
    forall j | 0 <= j < |more| ensures Holds(more[j], window) {
      if j < i { assert more[j] == claims[..i][j]; }
    }
  }

  /** The search of the last outputs for those to one owner. */
  method PaidToOwner(vout: seq<Output>, claimed: nat, script: Script) returns (paid: int, found: nat)
    ensures paid == TotalOf(Window(vout, claimed), script) && found == CountTo(Window(vout, claimed), script)
  {
    paid, found := 0, 0;
    if claimed > |vout| {
      return;
    }
    ghost var window := Window(vout, claimed);
    var start := |vout| - claimed;
    assert window[..0] == [];
    for i := start to |vout|
      invariant paid == TotalOf(window[..i - start], script) && found == CountTo(window[..i - start], script)
    {
      assert window[..i - start + 1][..i - start] == window[..i - start];
      assert vout[i] == window[i - start];
      if vout[i].script == script {
        paid := paid + vout[i].value;
        found := found + 1;
      }
    }
    assert window[..claimed] == window;
  }

  // ----- the claims the miner pays -----

  /** The claims that are paid, in order. */
  function Claimed(entries: seq<Entry>, limit: nat, num: nat, den: nat): (r: seq<Entry>)
    requires den > 0
    ensures |r| <= |entries| && forall i :: 0 <= i < |r| ==> r[i].beacon.Some?
  {
    if entries == [] then [] else
    var n := |entries| - 1;
    Claimed(entries[..n], limit, num, den)
    + (if Pays(entries[n], MrcRewards.Paid(entries[..n], limit, num, den), limit) then [entries[n]] else [])
  }

  predicate AllActive(claims: seq<Entry>) {
    forall i :: 0 <= i < |claims| ==> claims[i].beacon.Some?
  }

  function ToOwner(e: Entry): Script
    requires e.beacon.Some?
  {
    Pay(e.beacon.value, false)
  }

  /** The outputs of claims: one for each that is worth something. */
  function OutsOf(claims: seq<Entry>): (outs: seq<Output>)
    requires AllActive(claims)
    ensures |outs| <= |claims|
  {
    if claims == [] then [] else
    var n := |claims| - 1;
    OutsOf(claims[..n]) + (if Net(claims[n]) != 0 then [Output(Net(claims[n]), ToOwner(claims[n]))] else [])
  }

  /** One claim more at the end. */
  lemma ClaimsSnoc(d: seq<Entry>, e: Entry, window: seq<Output>, num: nat, den: nat)
    requires den > 0 && AllActive(d) && e.beacon.Some?
    ensures AllActive(d + [e])
    ensures AllClaims(d + [e], window, num, den) == Add(AllClaims(d, window, num, den), OneClaim(e, window, num, den))
    ensures OutsOf(d + [e]) == OutsOf(d) + (if Net(e) != 0 then [Output(Net(e), ToOwner(e))] else [])
    ensures Total(OutsOf(d + [e])) == Total(OutsOf(d)) + Net(e)
  {
    hide OneClaim, Add, Net, ToOwner, Total;
    assert (d + [e])[..|d|] == d && (d + [e])[|d|] == e;
    if Net(e) != 0 {
      TotalAppend(OutsOf(d), [Output(Net(e), ToOwner(e))]);
      TotalOne(Output(Net(e), ToOwner(e)));
    } else {
      assert OutsOf(d) + [] == OutsOf(d);
    }
  }

  lemma PaidSnoc(entries: seq<Entry>, limit: nat, num: nat, den: nat)
    requires den > 0 && entries != []
    ensures var n := |entries| - 1;
      var p, d := MrcRewards.Paid(entries[..n], limit, num, den), Claimed(entries[..n], limit, num, den);
      if Pays(entries[n], p, limit)
      then MrcRewards.Paid(entries, limit, num, den) == After(p, entries[n], num, den)
           && Claimed(entries, limit, num, den) == d + [entries[n]]
      else MrcRewards.Paid(entries, limit, num, den) == p && Claimed(entries, limit, num, den) == d
  {
    hide After, Pays;
  }

  /** What the miner pays and keeps is what the validator adds up over the same claims. */
  lemma {:induction false} PaidIsClaimed(entries: seq<Entry>, limit: nat, num: nat, den: nat, window: seq<Output>)
    requires den > 0
    ensures var p, c := MrcRewards.Paid(entries, limit, num, den), Claimed(entries, limit, num, den);
      var a := AllClaims(c, window, num, den);
      && p.outs == OutsOf(c) && Total(p.outs) == a.rewards && a.claims == |c|
      && p.staker == a.staker && p.foundation == a.fees - a.staker
  {
    hide FoundationFee, CountTo, MrcRewards.Paid, Claimed, AllClaims, OutsOf, Total;
    if entries == [] {
      NoneClaimed(limit, num, den, window);
      TotalNone();
    } else {
      var n := |entries| - 1;
      PaidIsClaimed(entries[..n], limit, num, den, window);
      PaidSnoc(entries, limit, num, den);
      var p, d := MrcRewards.Paid(entries[..n], limit, num, den), Claimed(entries[..n], limit, num, den);
      if Pays(entries[n], p, limit) {
        ClaimsSnoc(d, entries[n], window, num, den);
      }
    }
  }

  lemma NoneClaimed(limit: nat, num: nat, den: nat, window: seq<Output>)
    requires den > 0
    ensures MrcRewards.Paid([], limit, num, den) == Payments([], 0, 0, map[])
    ensures Claimed([], limit, num, den) == [] && OutsOf([]) == [] && AllClaims([], window, num, den) == NOTHING
  {
  }

  // ----- the sums do not depend on the order of the claims -----

  lemma AddAssociates(a: Account, b: Account, c: Account)
    ensures Add(Add(a, b), c) == Add(a, Add(b, c)) && Add(a, NOTHING) == a == Add(NOTHING, a)
  {
  }

  lemma {:induction false} ClaimsSplit(a: seq<Entry>, b: seq<Entry>, window: seq<Output>, num: nat, den: nat)
    requires den > 0
    ensures AllClaims(a + b, window, num, den) == Add(AllClaims(a, window, num, den), AllClaims(b, window, num, den))
  {
    hide OneClaim, Add;
    if b == [] {
      assert a + b == a;
      AddAssociates(AllClaims(a, window, num, den), NOTHING, NOTHING);
    } else {
      var n := |b| - 1;
      assert (a + b)[..|a + b| - 1] == a + b[..n] && (a + b)[|a + b| - 1] == b[n];
      ClaimsSplit(a, b[..n], window, num, den);
      AddAssociates(AllClaims(a, window, num, den), AllClaims(b[..n], window, num, den),
        OneClaim(b[n], window, num, den));
    }
  }

  lemma ClaimsOne(e: Entry, window: seq<Output>, num: nat, den: nat)
    requires den > 0
    ensures AllClaims([e], window, num, den) == OneClaim(e, window, num, den)
  {
    hide OneClaim;
    assert [e][..0] == [];
  }

  lemma {:induction false} ClaimsAnyOrder(a: seq<Entry>, b: seq<Entry>, window: seq<Output>, num: nat, den: nat)
    requires den > 0 && multiset(a) == multiset(b)
    ensures AllClaims(a, window, num, den) == AllClaims(b, window, num, den)
    decreases |a|
  {
    hide OneClaim, Add;
    if a == [] {
      assert |b| == |multiset(b)| == |multiset(a)| == 0;
    } else {
      var n := |a| - 1;
      var i := TakenOut(a, b);
      ClaimsAnyOrder(a[..n], b[..i] + b[i + 1..], window, num, den);
      assert b == b[..i] + ([b[i]] + b[i + 1..]);
      ClaimsOne(b[i], window, num, den);
      ClaimsSplit(b[..i], b[i + 1..], window, num, den);
      ClaimsSplit([b[i]], b[i + 1..], window, num, den);
      ClaimsSplit(b[..i], [b[i]] + b[i + 1..], window, num, den);
      Exchange(AllClaims(b[..i], window, num, den), OneClaim(b[i], window, num, den),
               AllClaims(b[i + 1..], window, num, den));
    }
  }

  lemma Exchange(a: Account, b: Account, c: Account)
    ensures Add(a, Add(b, c)) == Add(Add(a, c), b)
  {
  }

  lemma HoldAnyOrder(a: seq<Entry>, b: seq<Entry>, window: seq<Output>)
    requires multiset(a) == multiset(b) && ClaimsHold(a, window)
    ensures ClaimsHold(b, window)
  {
    forall i | 0 <= i < |b| ensures Holds(b[i], window) {
      assert b[i] in multiset(b);
      assert b[i] in multiset(a);
      var j :| 0 <= j < |a| && a[j] == b[i];
    }
  }

  // ----- how many outputs the validator finds -----

  lemma {:induction false} CountToAppend(a: seq<Output>, b: seq<Output>, script: Script)
    ensures CountTo(a + b, script) == CountTo(a, script) + CountTo(b, script)
  {
    if b == [] {
      assert a + b == a;
    } else {
      assert (a + b)[..|a + b| - 1] == a + b[..|b| - 1];
      CountToAppend(a, b[..|b| - 1], script);
    }
  }

  /** How many outputs are found over all claims, each claim searching all outputs. */
  function Found(claims: seq<Entry>, outs: seq<Output>): nat
    requires AllActive(claims)
  {
    if claims == [] then 0 else
    var n := |claims| - 1;
    Found(claims[..n], outs) + (if Net(claims[n]) != 0 then CountTo(outs, ToOwner(claims[n])) else 0)
  }

  lemma {:induction false} FoundIsNonZero(claims: seq<Entry>, outs: seq<Output>, num: nat, den: nat)
    requires den > 0 && AllActive(claims)
    ensures AllClaims(claims, outs, num, den).nonZero == Found(claims, outs)
  {
    hide FoundationFee, CountTo;
    if claims != [] {
      FoundIsNonZero(claims[..|claims| - 1], outs, num, den);
    }
  }

  lemma {:induction false} FoundAppend(claims: seq<Entry>, a: seq<Output>, b: seq<Output>)
    requires AllActive(claims)
    ensures Found(claims, a + b) == Found(claims, a) + Found(claims, b)
  {
    hide CountTo;
    if claims != [] {
      var n := |claims| - 1;
      FoundAppend(claims[..n], a, b);
      CountToAppend(a, b, ToOwner(claims[n]));
    }
  }

  /** No two claims that are worth something have the same owner's address. */
  predicate DistinctOwners(claims: seq<Entry>)
    requires AllActive(claims)
  {
    forall i, j :: 0 <= i < j < |claims| && Net(claims[i]) != 0 && Net(claims[j]) != 0 ==>
      claims[i].beacon != claims[j].beacon
  }

  /** No output goes to the owner of a claim that is worth something. */
  predicate NoOwners(claims: seq<Entry>, outs: seq<Output>)
    requires AllActive(claims)
  {
    forall i, k :: 0 <= i < |claims| && Net(claims[i]) != 0 && 0 <= k < |outs| ==> outs[k].script != ToOwner(claims[i])
  }

  lemma {:induction false} CountsNone(outs: seq<Output>, script: Script)
    ensures CountTo(outs, script) == 0 <==> NoneTo(outs, script)
    ensures NoneTo(outs, script) ==> TotalOf(outs, script) == 0
  {
    if outs != [] {
      CountsNone(outs[..|outs| - 1], script);
    }
  }

  lemma {:induction false} FindsNone(claims: seq<Entry>, outs: seq<Output>)
    requires AllActive(claims)
    ensures Found(claims, outs) == 0 <==> NoOwners(claims, outs)
  {
    hide CountTo;
    if claims != [] {
      var n := |claims| - 1;
      FindsNone(claims[..n], outs);
      CountsNone(outs, ToOwner(claims[n]));
    }
  }

  lemma NoneOf(script: Script)
    ensures TotalOf([], script) == 0 && CountTo([], script) == 0
  {
  }

  lemma OneOf(o: Output, script: Script)
    ensures CountTo([o], script) == (if o.script == script then 1 else 0)
    ensures TotalOf([o], script) == (if o.script == script then o.value else 0)
  {
    assert [o][..0] == [];
  }

  /** One output is found by as many claims as the claims have outputs to its script. */
  lemma {:induction false} FoundOne(claims: seq<Entry>, o: Output)
    requires AllActive(claims)
    ensures Found(claims, [o]) == CountTo(OutsOf(claims), o.script)
  {
    hide CountTo;
    if claims == [] {
      NoneOf(o.script);
    } else {
      var n := |claims| - 1;
      FoundOne(claims[..n], o);
      OneOf(o, ToOwner(claims[n]));
      if Net(claims[n]) != 0 {
        var own := Output(Net(claims[n]), ToOwner(claims[n]));
        OneOf(own, o.script);
        CountToAppend(OutsOf(claims[..n]), [own], o.script);
      } else {
        assert OutsOf(claims) == OutsOf(claims[..n]);
      }
    }
  }

  lemma {:induction false} OwnersInOuts(claims: seq<Entry>, script: Script)
    requires AllActive(claims)
    ensures CountTo(OutsOf(claims), script) == 0 <==>
              forall i :: 0 <= i < |claims| && Net(claims[i]) != 0 ==> ToOwner(claims[i]) != script
  {
    hide CountTo, Net, ToOwner;
    if claims == [] {
      NoneOf(script);
    } else {
      var n := |claims| - 1;
      var rest := claims[..n];
      OwnersInOuts(rest, script);
      assert forall i :: 0 <= i < n ==> rest[i] == claims[i];
      if Net(claims[n]) != 0 {
        var own := Output(Net(claims[n]), ToOwner(claims[n]));
        OneOf(own, script);
        CountToAppend(OutsOf(rest), [own], script);
      } else {
        assert OutsOf(claims) == OutsOf(rest);
      }
    }
  }

  /** Over their own outputs, claims find at least all of them, and no more exactly when their owners differ. */
  lemma {:induction false} FindsOwn(claims: seq<Entry>)
    requires AllActive(claims)
    ensures Found(claims, OutsOf(claims)) >= |OutsOf(claims)|
    ensures Found(claims, OutsOf(claims)) == |OutsOf(claims)| <==> DistinctOwners(claims)
  {
    hide CountTo, Net, ToOwner, DistinctOwners;
    if claims == [] {
      NoOwnersAtAll();
    } else {
      var n := |claims| - 1;
      var rest, e := claims[..n], claims[n];
      FindsOwn(rest);
      DistinctMore(claims);
      if Net(e) != 0 {
        var o := Output(Net(e), ToOwner(e));
        FoundAppend(rest, OutsOf(rest), [o]);
        FoundOne(rest, o);
        CountToAppend(OutsOf(rest), [o], ToOwner(e));
        OneOf(o, ToOwner(e));
        OwnersInOuts(rest, ToOwner(e));
        assert OutsOf(claims) == OutsOf(rest) + [o];
      } else {
        assert OutsOf(claims) == OutsOf(rest);
      }
    }
  }

  lemma NoOwnersAtAll()
    ensures DistinctOwners([])
  {
  }

  lemma DistinctMore(claims: seq<Entry>)
    requires AllActive(claims) && claims != []
    ensures var n := |claims| - 1;
      DistinctOwners(claims) <==>
        && DistinctOwners(claims[..n])
        && (Net(claims[n]) != 0 ==>
              forall i :: 0 <= i < n && Net(claims[..n][i]) != 0 ==> ToOwner(claims[..n][i]) != ToOwner(claims[n]))
  {
    var n := |claims| - 1;
    var rest := claims[..n];
    assert forall i :: 0 <= i < n ==> rest[i] == claims[i];
  }

  // ----- the validator finds the miner's claims -----

  /**
  The validator counts the outputs of the claims as the miner wrote them: there are enough outputs to
  look at, the owners differ, and none of the outputs before them it looks at goes to an owner.
  */
  predicate Countable(claims: seq<Entry>, front: seq<Output>)
    requires AllActive(claims)
  {
    var outs := OutsOf(claims);
    && (outs == [] || |claims| - |outs| <= |front|)
    && DistinctOwners(claims)
    && (|claims| - |outs| <= |front| ==> NoOwners(claims, front[|front| - (|claims| - |outs|)..]))
  }

  lemma WindowParts(front: seq<Output>, outs: seq<Output>, claimed: nat)
    requires |outs| <= claimed
    ensures Window(front + outs, claimed) ==
              if claimed - |outs| <= |front| then front[|front| - (claimed - |outs|)..] + outs else []
  {
  }

  lemma {:induction false} NothingFound(claims: seq<Entry>)
    requires AllActive(claims)
    ensures Found(claims, []) == 0
    ensures OutsOf(claims) == [] <==> forall i :: 0 <= i < |claims| ==> Net(claims[i]) == 0
  {
    if claims != [] {
      NothingFound(claims[..|claims| - 1]);
    }
  }

  lemma CountedExactly(claims: seq<Entry>, front: seq<Output>)
    requires AllActive(claims)
    ensures var outs := OutsOf(claims);
      Found(claims, Window(front + outs, |claims|)) == |outs| <==> Countable(claims, front)
  {
    hide Found, OutsOf, DistinctOwners, NoOwners;
    var outs := OutsOf(claims);
    WindowParts(front, outs, |claims|);
    NothingFound(claims);
    if |claims| - |outs| <= |front| {
      var before := front[|front| - (|claims| - |outs|)..];
      FoundAppend(claims, before, outs);
      FindsNone(claims, before);
      FindsOwn(claims);
    } else if outs == [] {
      NoneDiffer(claims);
    }
  }

  lemma NoneDiffer(claims: seq<Entry>)
    requires AllActive(claims) && OutsOf(claims) == []
    ensures DistinctOwners(claims)
  {
    NothingFound(claims);
  }

  /** Outputs that are countable also pay each claim what it is worth. */
  lemma CountableHolds(claims: seq<Entry>, front: seq<Output>)
    requires AllActive(claims) && Countable(claims, front)
    ensures ClaimsHold(claims, Window(front + OutsOf(claims), |claims|))
  {
    hide OutsOf, DistinctOwners, TotalOf;
    var outs := OutsOf(claims);
    var window := Window(front + outs, |claims|);
    WindowParts(front, outs, |claims|);
    NothingFound(claims);
    forall i | 0 <= i < |claims| ensures Holds(claims[i], window) {
      if Net(claims[i]) != 0 {
        var before := front[|front| - (|claims| - |outs|)..];
        CountsNone(before, ToOwner(claims[i]));
        TotalOfAppend(before, outs, ToOwner(claims[i]));
        PaysOwn(claims, i);
      }
    }
  }

  lemma {:induction false} PaysOwn(claims: seq<Entry>, i: nat)
    requires AllActive(claims) && DistinctOwners(claims) && i < |claims| && Net(claims[i]) != 0
    ensures TotalOf(OutsOf(claims), ToOwner(claims[i])) == Net(claims[i])
  {
    hide CountTo, TotalOf;
    var n := |claims| - 1;
    var rest := claims[..n];
    assert forall j :: 0 <= j < n ==> rest[j] == claims[j];
    var script := ToOwner(claims[i]);
    var more := if Net(claims[n]) != 0 then [Output(Net(claims[n]), ToOwner(claims[n]))] else [];
    TotalOfAppend(OutsOf(rest), more, script);
    if i < n {
      PaysOwn(rest, i);
      assert NoneTo(more, script);
      CountsNone(more, script);
    } else {
      OwnersInOuts(rest, script);
      CountsNone(OutsOf(rest), script);
      OneOf(more[0], script);
    }
  }

  /** Every payment is worth something. */
  predicate PaysSomething(outs: seq<Output>) {
    forall i :: 0 <= i < |outs| && outs[i].script.Pay? ==> outs[i].value > 0
  }

  lemma {:induction false} TotalOfPayments(outs: seq<Output>, script: Script)
    requires script.Pay? && PaysSomething(outs)
    ensures TotalOf(outs, script) >= 0 && (TotalOf(outs, script) == 0 <==> NoneTo(outs, script))
  {
    if outs != [] {
      TotalOfPayments(outs[..|outs| - 1], script);
    }
  }

  /** If all claims of an owner are worth the same, their outputs are worth that many times it. */
  lemma {:induction false} OwnTotal(claims: seq<Entry>, script: Script, worth: int)
    requires AllActive(claims)
    requires forall i :: 0 <= i < |claims| && Net(claims[i]) != 0 && ToOwner(claims[i]) == script ==>
        Net(claims[i]) == worth
    ensures TotalOf(OutsOf(claims), script) == worth * CountTo(OutsOf(claims), script)
  {
    hide CountTo, TotalOf, Net, ToOwner;
    if claims == [] {
      NoneOf(script);
    } else {
      var n := |claims| - 1;
      var rest := claims[..n];
      OwnTotal(rest, script, worth);
      if Net(claims[n]) != 0 {
        var own := Output(Net(claims[n]), ToOwner(claims[n]));
        OneOf(own, script);
        CountToAppend(OutsOf(rest), [own], script);
        TotalOfAppend(OutsOf(rest), [own], script);
        OneMoreTime(worth, CountTo(OutsOf(rest), script));
      } else {
        assert OutsOf(claims) == OutsOf(rest);
      }
    }
  }

  lemma OneMoreTime(worth: int, n: nat)
    ensures worth * (n + 1) == worth * n + worth
  {
  }

  /** A claim that is worth something has an output. */
  lemma {:induction false} OwnCount(claims: seq<Entry>, i: nat)
    requires AllActive(claims) && i < |claims| && Net(claims[i]) != 0
    ensures CountTo(OutsOf(claims), ToOwner(claims[i])) >= 1
  {
    OwnersInOuts(claims, ToOwner(claims[i]));
  }

  /** If each of some claims has exactly one of the outputs, they find as many as they have. */
  lemma {:induction false} FindsOneEach(claims: seq<Entry>, outs: seq<Output>)
    requires AllActive(claims)
    requires forall i :: 0 <= i < |claims| && Net(claims[i]) != 0 ==> CountTo(outs, ToOwner(claims[i])) == 1
    ensures Found(claims, outs) == |OutsOf(claims)|
  {
    hide CountTo, Net, ToOwner;
    if claims != [] {
      FindsOneEach(claims[..|claims| - 1], outs);
    }
  }

  /** What a claim that holds says: nothing before goes to its owner, and it has its one output. */
  lemma HeldOnce(claims: seq<Entry>, before: seq<Output>, i: nat)
    requires AllActive(claims) && PaysSomething(before) && i < |claims| && Net(claims[i]) > 0
    requires ClaimsHold(claims, before + OutsOf(claims))
    ensures CountTo(OutsOf(claims), ToOwner(claims[i])) == 1 && NoneTo(before, ToOwner(claims[i]))
  {
    hide CountTo, TotalOf, OutsOf;
    var outs, script, worth := OutsOf(claims), ToOwner(claims[i]), Net(claims[i]);
    TotalOfAppend(before, outs, script);
    forall j | 0 <= j < |claims| && Net(claims[j]) != 0 &&
        ToOwner(claims[j]) == script ensures Net(claims[j]) == worth {
      assert Holds(claims[j], before + outs) && Holds(claims[i], before + outs);
    }
    assert Holds(claims[i], before + outs);
    OwnTotal(claims, script, worth);
    OwnCount(claims, i);
    TotalOfPayments(before, script);
    JustOne(worth, CountTo(outs, script), TotalOf(before, script));
  }

  lemma JustOne(worth: int, n: nat, rest: int)
    requires worth > 0 && n >= 1 && rest >= 0 && worth == rest + worth * n
    ensures n == 1 && rest == 0
  {
    assert worth * n == worth + worth * (n - 1);
    assert worth * (n - 1) == (worth - 1) * (n - 1) + (n - 1);
  }

  /**
  Where payments are worth something and no claim is worth less than nothing, the claims hold exactly when
  their outputs are countable: the validator never goes on with a wrong count.
  */
  lemma HoldsIsCountable(claims: seq<Entry>, front: seq<Output>)
    requires AllActive(claims) && PaysSomething(front) && forall i :: 0 <= i < |claims| ==> Net(claims[i]) >= 0
    ensures ClaimsHold(claims, Window(front + OutsOf(claims), |claims|)) <==> Countable(claims, front)
  {
    hide OutsOf, Net, ClaimsHold, Window, DistinctOwners, NoOwners, PaysSomething;
    var outs := OutsOf(claims);
    WindowParts(front, outs, |claims|);
    if Countable(claims, front) {
      CountableHolds(claims, front);
    }
    if ClaimsHold(claims, Window(front + outs, |claims|)) {
      if |claims| - |outs| <= |front| {
        var before := front[|front| - (|claims| - |outs|)..];
        EndPays(front, |front| - (|claims| - |outs|));
        HeldApart(claims, before);
      } else {
        HeldByNothing(claims);
        NoneDiffer(claims);
      }
    }
  }

  lemma EndPays(outs: seq<Output>, k: nat)
    requires k <= |outs| && PaysSomething(outs)
    ensures PaysSomething(outs[k..])
  {
  }

  /** Claims that hold over their own outputs and some before have different owners, none of whom is paid before. */
  lemma HeldApart(claims: seq<Entry>, before: seq<Output>)
    requires AllActive(claims) && PaysSomething(before) && forall i :: 0 <= i < |claims| ==> Net(claims[i]) >= 0
    requires ClaimsHold(claims, before + OutsOf(claims))
    ensures DistinctOwners(claims) && NoOwners(claims, before)
  {
    hide OutsOf, CountTo, Net, ToOwner, DistinctOwners, ClaimsHold, PaysSomething;
    forall i | 0 <= i < |claims| && Net(claims[i]) != 0
      ensures CountTo(OutsOf(claims), ToOwner(claims[i])) == 1 && NoneTo(before, ToOwner(claims[i]))
    {
      HeldOnce(claims, before, i);
    }
    FindsOneEach(claims, OutsOf(claims));
    FindsOwn(claims);
  }

  /** Without any outputs to search only claims that are worth nothing hold. */
  lemma HeldByNothing(claims: seq<Entry>)
    requires AllActive(claims) && ClaimsHold(claims, [])
    ensures OutsOf(claims) == []
  {
    hide OutsOf, Net;
    NothingFound(claims);
    forall i | 0 <= i < |claims| ensures Net(claims[i]) == 0 {
      HeldByNone(claims[i]);
    }
  }

  lemma HeldByNone(e: Entry)
    requires e.beacon.Some? && Holds(e, [])
    ensures Net(e) == 0
  {
  }

  // ----- the whole check -----

  /** Whether the validator takes the output before the claims for the foundation's. */
  predicate FoundationExpected(claimed: nat, num: nat) {
    claimed > 0 && num > 0
  }

  /** Where the validator takes the outputs that are not the staker's to start. */
  function StartIndex(vout: seq<Output>, nonZero: nat, expected: bool): int {
    |vout| - nonZero - (if expected then 1 else 0)
  }

  /**
  A coinstake passes: what it claims in all is no more than what is owed with the fees and worth of the claims, what
  it gives the staker beyond the stake is no more than what is owed to the staker, the mandatory sidestakes are
  there, and the foundation has exactly its fees if it is expected to have any.
  */
  predicate Accepted(vout: seq<Output>, stakeIn: int, claimed: int, owed: int, account: Account, expected: bool,
                     foundation: Dest, limit: nat, active: seq<SideStake>)
    requires |vout| >= 2 && 1 <= StartIndex(vout, account.nonZero, expected)
  {
    var start := StartIndex(vout, account.nonZero, expected);
    var total := Total(vout[..start]) - stakeIn;
    && claimed <= owed + account.fees + account.rewards
    && total <= owed + account.staker
    && vout[1].script.Pay?
    && Validates(vout[1..start], Eligible(active, vout[1].script.dest, total), limit)
    && (expected ==>
          vout[start].value == account.fees - account.staker && Destination(vout[start].script) == Some(foundation))
  }

  method CheckReward(vout: seq<Output>, stakeIn: int, claimed: int, owed: int, account: Account, recorded: nat,
                     num: nat, foundation: Dest, limit: nat, active: seq<SideStake>) returns (ok: bool)
    requires |vout| >= 2 && 1 <= StartIndex(vout, account.nonZero, FoundationExpected(recorded, num))
    requires forall i, j :: 0 <= i < j < |active| ==> active[i].dest != active[j].dest
    ensures ok == Accepted(vout, stakeIn, claimed, owed, account, FoundationExpected(recorded, num), foundation, limit,
                           active)
  {
    hide Validates, Eligible;
    if claimed > owed + account.fees + account.rewards {
      return false;
    }
    var expected := recorded > 0 && num > 0;
    var start := |vout| - account.nonZero - (if expected then 1 else 0);
    var total := -stakeIn;
    assert vout[..0] == [];
    for i := 0 to start
      invariant total == Total(vout[..i]) - stakeIn
    {
      assert vout[..i + 1][..i] == vout[..i];
      total := total + vout[i].value;
    }
    if total > owed + account.staker {
      return false;
    }
    var dest := Destination(vout[1].script);
    if dest.None? {
      return false;
    }
    var met := ValidateMandatorySidestakeOutputs(vout, dest.value, total, start, limit, active);
    if !met {
      return false;
    }
    if expected {
      if vout[start].value != account.fees - account.staker {
        return false;
      }
      var payee := Destination(vout[start].script);
      if payee.None? || payee.value != foundation {
        return false;
      }
    }
    return true;
  }

  /** What the coinstake claims: its outputs less its input. */
  method TotalClaimed(vout: seq<Output>, stakeIn: int) returns (claimed: int)
    ensures claimed == Total(vout) - stakeIn
  {
    claimed := 0;
    assert vout[..0] == [];
    for i := 0 to |vout|
      invariant claimed == Total(vout[..i])
    {
      assert vout[..i + 1][..i] == vout[..i];
      claimed := claimed + vout[i].value;
    }
    assert vout[..|vout|] == vout;
    claimed := claimed - stakeIn;
  }

  /**
  The validator takes the claims to start where the miner put them exactly when there is no claim, or the
  foundation has no part in the fees, or its part is something; else it starts one output early.
  */
  lemma StartsAgree(entries: seq<Entry>, limit: nat, num: nat, den: nat, vout: seq<Output>)
    requires den > 0
    ensures var p, claimed := MrcRewards.Paid(entries, limit, num, den), |Claimed(entries, limit, num, den)|;
      var start := StartIndex(vout, |p.outs|, FoundationExpected(claimed, num));
      var mrcs := |vout| - |p.outs| - (if p.foundation > 0 then 1 else 0);
      && (start == mrcs <==> claimed == 0 || num == 0 || p.foundation > 0)
      && mrcs - 1 <= start <= mrcs
  {
    NoFees(entries, limit, num, den);
  }

  lemma {:induction false} NoFees(entries: seq<Entry>, limit: nat, num: nat, den: nat)
    requires den > 0
    ensures num == 0 || Claimed(entries, limit, num, den) == [] ==>
        MrcRewards.Paid(entries, limit, num, den).foundation == 0
  {
    if entries != [] {
      NoFees(entries[..|entries| - 1], limit, num, den);
    }
  }
}
