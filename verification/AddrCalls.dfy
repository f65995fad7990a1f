/**
What a call of Good_ or Add_ does for its caller, stated over the tables before
and after the call.
*/
module AddrCalls {
  import opened Basics
  import opened Powers
  import opened AddrState
  import opened AddrInvariant
  import opened AddrOps
  import opened AddrEffects

  // ----- a successful connection -----

  /** An unknown address, or a known one on another port, changes nothing. */
  lemma GoodIgnores(s: State, a: Service, time: int, draw: nat)
    requires Inv(s)
    requires a.net in s.addr && s.addr[a.net] in s.info ==> s.info[s.addr[a.net]].service != a
    ensures Good(s, a, time, draw) == s
  {
    hide Partial;
  }

  /** What is recorded of an entry that was reached. */
  ghost predicate Reached(i: AddrInfo, j: AddrInfo, time: int) {
    && j.lastSuccess == time && j.lastTry == time && j.attempts == 0
    && j.service == i.service && j.services == i.services && j.time == i.time && j.source == i.source
  }

  /** An entry that is already tried stays where it is. */
  lemma GoodAgain(s: State, id: int, time: int, draw: nat)
    requires Inv(s) && id in s.info && s.info[id].tried && Find(s, s.info[id].service.net) == Some(id)
    ensures var t := Good(s, s.info[id].service, time, draw);
      && t == s.(info := t.info) && t.info.Keys == s.info.Keys && Spared(s.info, t.info, id, id)
      && Reached(s.info[id], t.info[id], time)
      && t.info[id].tried && t.info[id].refCount == s.info[id].refCount
  {
    hide Partial;
  }

  /**
  An untried entry moves to its own tried slot and out of every new slot. An entry it finds there goes
  back to its own new slot. All other entries are as before, except one displaced by that.
  */
  lemma GoodMoves(s: State, id: int, time: int, draw: nat)
    requires Inv(s) && id in s.info && !s.info[id].tried && Find(s, s.info[id].service.net) == Some(id)
    ensures var t := Good(s, s.info[id].service, time, draw); var home := TriedSlot(s.place, s.info[id].service);
      && id in t.info && Reached(s.info[id], t.info[id], time)
      && t.info[id].tried && t.info[id].refCount == 0
      && t.triedSlots == s.triedSlots[home := id]
      && (forall sl :: sl in t.newSlots ==> t.newSlots[sl] != id)
      && (home !in s.triedSlots ==>
            && Without(s.newSlots, t.newSlots, id, NEW_BUCKET_COUNT)
            && Spared(s.info, t.info, id, id) && t.info.Keys == s.info.Keys && t.addr == s.addr)
      && (home in s.triedSlots ==>
            && Returned(s, t, id, s.triedSlots[home])
            && t.addr == Relinked(s, id, BackSlot(s.place, s.info[s.triedSlots[home]])))
  {
    hide Partial, Without, Returned, MakeTried, FindBucket, Relinked;
    var a := s.info[id].service;
    PraisedKeeps(s, a, time);
    var u := Praised(s, a, time).0;
    GoodAlwaysFinds(u, id, draw % NEW_BUCKET_COUNT);
    MakeTriedMoves(u, id);
    MakeTriedUnlinks(u, id);
    GoodKeeps(s, a, time, draw);
    var t := Good(s, a, time, draw);
    assert t == MakeTried(u, id);
    var home := TriedSlot(s.place, a);
    TriedHoldsNoNew(t, id);
    if home in s.triedSlots {
      MakeTriedReturns(u, id);
      ReturnedAlive(u, t, id, s.triedSlots[home]);
      RelinkedOver(s, u, id, BackSlot(s.place, s.info[s.triedSlots[home]]));
      ReturnedOver(s, u, t, id, s.triedSlots[home]);
    } else {
      SparedOver(s.info, u.info, t.info, id);
    }
  }

  lemma TriedHoldsNoNew(s: State, id: int)
    requires Inv(s) && id in s.info && s.info[id].tried
    ensures forall sl :: sl in s.newSlots ==> s.newSlots[sl] != id
  {
  }

  lemma ReturnedOver(s: State, u: State, t: State, id: int, ev: int)
    requires id in s.info && id in u.info && u == s.(info := s.info[id := u.info[id]])
    requires Returned(u, t, id, ev)
    ensures Returned(s, t, id, ev)
  {
    forall x | x in s.info && x != id && Survives(u.info, t.info, x)
      ensures Survives(s.info, t.info, x)
    {
      assert u.info[x] == s.info[x];
    }
  }

  lemma ReturnedAlive(s: State, t: State, id: int, ev: int)
    requires Returned(s, t, id, ev)
    ensures ev in s.info && ev != id
  {
  }

  lemma RelinkedOver(s: State, u: State, id: int, sl: Slot)
    requires id in s.info && id in u.info && u == s.(info := s.info[id := u.info[id]])
    ensures Relinked(u, id, sl) == Relinked(s, id, sl)
  {
  }

  lemma SparedOver(info: Entries, info': Entries, info'': Entries, id: int)
    requires id in info && id in info' && info' == info[id := info'[id]] && Spared(info', info'', id, id)
    ensures Spared(info, info'', id, id)
  {
    forall x | x in info && x != id
      ensures Survives(info, info'', x)
    {
      assert Survives(info', info'', x);
    }
  }

  // ----- hearing of an address -----

  /** Only an unknown routable address is reported as new; one that is not routable changes nothing. */
  lemma AddReports(s: State, a: Address, routable: bool, src: NetAddr, penalty: int, now: int, draw: nat)
    requires Inv(s)
    ensures Add(s, a, routable, src, penalty, now, draw).1 <==>
              routable && (a.service.net in s.addr ==> s.addr[a.service.net] !in s.info)
    ensures !routable ==> Add(s, a, routable, src, penalty, now, draw).0 == s
  {
    hide Partial;
  }

  /** A slot an entry without any slot can have: it is free, or its holder is terrible or has another one. */
  predicate Open(s: State, sl: Slot, now: int) {
    sl in s.newSlots && s.newSlots[sl] in s.info ==>
      IsTerrible(s.info[s.newSlots[sl]], now) || s.info[s.newSlots[sl]].refCount > 1
  }

  /** The entry an unknown address gets. */
  ghost predicate Entered(i: AddrInfo, a: Address, src: NetAddr, penalty: int) {
    && i.service == a.service && i.services == a.services && i.source == src
    && (a.time >= penalty ==> i.time == (a.time - penalty) % UINT32) && (a.time <= penalty ==> i.time == 0)
    && i.lastTry == 0 && i.lastSuccess == 0 && i.attempts == 0 && !i.tried && i.refCount == 1
  }

  /** One entry was added, in one slot, whose holder has lost it; all else is as before. */
  ghost predicate OneMore(s: State, t: State, id: int, sl: Slot) {
    && id !in s.info && id in t.info
    && sl in t.newSlots && t.newSlots[sl] == id && OnlyAt(s.newSlots, t.newSlots, sl)
    && t.triedSlots == s.triedSlots
    && (sl in s.newSlots ==> Displaced(s.info, t.info, s.newSlots[sl]))
    && Spared(s.info, t.info, id, if sl in s.newSlots then s.newSlots[sl] else id)
    && (forall x :: x in t.info ==> x in s.info || x == id)
  }

  /** An unknown address gets an entry of its own in the slot its source leads to, if that slot is open. */
  lemma AddEnters(s: State, a: Address, src: NetAddr, penalty: int, now: int, draw: nat)
    requires Inv(s) && Find(s, a.service.net).None? && Open(s, NewSlot(s.place, a.service, src), now)
    ensures var t := Add(s, a, true, src, penalty, now, draw).0;
      && OneMore(s, t, s.idCount, NewSlot(s.place, a.service, src))
      && Entered(t.info[s.idCount], a, src, penalty)
  {
    hide Partial, IsTerrible, NewSlot, SlotIn, Admit, OneMore, Taken;
    NewcomerAdmissible(s, a, src, penalty);
    NewcomerForm(s, a, src, penalty);
    var n, sl := Newcomer(s, a, src, penalty), NewSlot(s.place, a.service, src);
    HolderAlive(s, sl);
    AdmitTakes(n, s.idCount, sl, src, now);
    TakenByNewcomer(s, n, Add(s, a, true, src, penalty, now, draw).0, s.idCount, sl);
  }

  lemma TakenByNewcomer(s: State, n: State, t: State, id: int, sl: Slot)
    requires id !in s.info && id in n.info && n.info == s.info[id := n.info[id]] && n.info[id].refCount == 0
    requires n.newSlots == s.newSlots && n.triedSlots == s.triedSlots
    requires (sl in s.newSlots ==> s.newSlots[sl] in s.info) && Taken(n, t, id, sl)
    ensures OneMore(s, t, id, sl) && Alike(n.info[id].(refCount := 1), t.info[id])
    ensures t.addr == if sl in s.newSlots then Unlinked(n.addr, s.info[s.newSlots[sl]]) else n.addr
  {
    var other := if sl in s.newSlots then s.newSlots[sl] else id;
    forall x | x in s.info && x != id && x != other
      ensures Survives(s.info, t.info, x)
    {
      assert Survives(n.info, t.info, x);
    }
  }

  /**
  The new entry is then found under its address, except when the entry it displaced from its last slot
  was an unlinked duplicate of that very address.
  */
  lemma AddLinks(s: State, a: Address, src: NetAddr, penalty: int, now: int, draw: nat)
    requires Inv(s) && Find(s, a.service.net).None? && Open(s, NewSlot(s.place, a.service, src), now)
    ensures var t := Add(s, a, true, src, penalty, now, draw).0; var sl := NewSlot(s.place, a.service, src);
      && (sl in s.newSlots ==> s.newSlots[sl] in s.info)
      && (Find(t, a.service.net) == Some(s.idCount) <==>
            !(sl in s.newSlots && s.info[s.newSlots[sl]].refCount == 1
              && s.info[s.newSlots[sl]].service.net == a.service.net))
      && (Unique(s.addr, s.info) ==> Find(t, a.service.net) == Some(s.idCount))
  {
    hide Partial, IsTerrible, NewSlot, SlotIn, Admit, OneMore, Taken;
    NewcomerAdmissible(s, a, src, penalty);
    NewcomerForm(s, a, src, penalty);
    var n, sl := Newcomer(s, a, src, penalty), NewSlot(s.place, a.service, src);
    HolderAlive(s, sl);
    AdmitTakes(n, s.idCount, sl, src, now);
    var t := Add(s, a, true, src, penalty, now, draw).0;
    TakenByNewcomer(s, n, t, s.idCount, sl);
    EntryIsThere(s, t, s.idCount, sl);
    FindSound(s, a.service.net);
  }

  lemma EntryIsThere(s: State, t: State, id: int, sl: Slot)
    requires OneMore(s, t, id, sl)
    ensures id in t.info
  {
  }

  /** Tables with one entry, which no address leads to, in one slot. */
  function Stray(p: Place, a: Service, src: NetAddr): State {
    State(p, 1, map[0 := Fresh(Address(a, {}, 0), src, 0).(refCount := 1)], map[], [0], map[NewSlot(p, a, src) := 0],
          map[], 1, 0)
  }

  /** Such a duplicate makes the new entry unknown under its address as soon as it is made. */
  lemma DuplicateHidesNewcomer(p: Place, a: Address, src: NetAddr, draw: nat)
    ensures var s := Stray(p, a.service, src);
      && Inv(s) && Find(s, a.service.net).None?
      && var t := Add(s, a, true, src, 0, 1, draw).0;
         1 in t.info && t.info[1].service == a.service && Find(t, a.service.net).None?
  {
    var s, sl := Stray(p, a.service, src), NewSlot(p, a.service, src);
    assert Inv(s) by {
      assert Holders(s.newSlots, 0) == {sl};
      assert NewIds(s.info) == {0};
      assert TriedIds(s.info) == {};
    }
    hide Partial, NewSlot, SlotIn, Admit, Add;
    assert Open(s, sl, 1);
    AddEnters(s, a, src, 0, 1, draw);
    AddLinks(s, a, src, 0, 1, draw);
    AddKeeps(s, a, true, src, 0, 1, draw);
    FindSound(Add(s, a, true, src, 0, 1, draw).0, a.service.net);
  }

  /** Otherwise the unknown address stays unknown and no slot and no entry changes. */
  lemma AddForgets(s: State, a: Address, src: NetAddr, penalty: int, now: int, draw: nat)
    requires Inv(s) && Find(s, a.service.net).None? && !Open(s, NewSlot(s.place, a.service, src), now)
    ensures var t := Add(s, a, true, src, penalty, now, draw).0;
      && Find(t, a.service.net).None?
      && t.newSlots == s.newSlots && t.triedSlots == s.triedSlots && t.addr == s.addr
      && t.info.Keys == s.info.Keys && Spared(s.info, t.info, s.idCount, s.idCount)
  {
    hide Partial, IsTerrible, NewSlot, SlotIn, Admit;
    NewcomerAdmissible(s, a, src, penalty);
    NewcomerForm(s, a, src, penalty);
    var n, sl := Newcomer(s, a, src, penalty), NewSlot(s.place, a.service, src);
    HolderAlive(s, sl);
    AdmitYields(n, s.idCount, sl, src, now);
    FindSound(s, a.service.net);
    SparedByNewcomer(s.info, n.info, Add(s, a, true, src, penalty, now, draw).0.info, s.idCount);
  }

  lemma SparedByNewcomer(info: Entries, info': Entries, info'': Entries, id: int)
    requires id !in info && id in info' && info' == info[id := info'[id]] && Spared(info', info'', id, id)
    ensures Spared(info, info'', id, id)
  {
    forall x | x in info && x != id
      ensures Survives(info, info'', x)
    {
      assert Survives(info', info'', x);
    }
  }

  lemma HolderAlive(s: State, sl: Slot)
    requires Inv(s)
    ensures sl in s.newSlots ==> s.newSlots[sl] in s.info
    ensures s.idCount !in s.info
  {
  }

  /** The entry made for an unknown address, before it has a slot. */
  lemma NewcomerForm(s: State, a: Address, src: NetAddr, penalty: int)
    requires Inv(s)
    ensures var n := Newcomer(s, a, src, penalty);
      && s.idCount !in s.info && s.idCount in n.info && n.info == s.info[s.idCount := n.info[s.idCount]]
      && Entered(n.info[s.idCount].(refCount := 1), a, src, penalty) && n.info[s.idCount].refCount == 0
      && n.newSlots == s.newSlots && n.triedSlots == s.triedSlots && n.place == s.place
      && n.addr == s.addr[a.service.net := s.idCount]
  {
    hide Partial;
    HolderAlive(s, NewSlot(s.place, a.service, src));
  }

  // ----- hearing of a known address again -----

  /** What is recorded of an entry that is heard of again. */
  ghost predicate Noted(i: AddrInfo, j: AddrInfo, a: Address, penalty: int, now: int) {
    var gap := if now - a.time < 86400 then 3600 else 86400;
    var stale := a.time != 0 && (i.time == 0 || i.time + gap + penalty < a.time);
    && j.services == i.services + a.services
    && (!stale ==> j.time == i.time)
    && (stale && a.time >= penalty ==> j.time == (a.time - penalty) % UINT32)
    && (stale && a.time <= penalty ==> j.time == 0)
    && j.service == i.service && j.source == i.source && j.tried == i.tried
    && j.lastTry == i.lastTry && j.lastSuccess == i.lastSuccess && j.attempts == i.attempts
  }

  /** Whether an entry, once its time is up to date, is to be looked for in one more bucket. */
  ghost predicate WantsSlot(i: AddrInfo, time: nat, a: Address, draw: nat) {
    && !i.tried && 1 <= i.refCount < NEW_BUCKETS_PER_ADDRESS && draw % Pow2(i.refCount) == 0
    && a.time != 0 && (time == 0 || time < a.time)
  }

  /** A slot an entry that has slots can have too: it is free, or its holder is another, terrible entry. */
  ghost predicate Spare(s: State, id: int, sl: Slot, now: int) {
    sl in s.newSlots ==>
      s.newSlots[sl] != id && s.newSlots[sl] in s.info && IsTerrible(s.info[s.newSlots[sl]], now)
  }

  /** One entry has one more slot, whose holder has lost it; all other entries are as before. */
  ghost predicate OneSlotMore(s: State, t: State, id: int, sl: Slot) {
    && id in s.info && id in t.info && t.info[id].refCount == s.info[id].refCount + 1
    && sl in t.newSlots && t.newSlots[sl] == id && OnlyAt(s.newSlots, t.newSlots, sl)
    && t.triedSlots == s.triedSlots && t.addr == Relinked(s, id, sl)
    && (sl in s.newSlots ==> Displaced(s.info, t.info, s.newSlots[sl]))
    && Spared(s.info, t.info, id, if sl in s.newSlots then s.newSlots[sl] else id)
    && (forall x :: x in t.info ==> x in s.info)
  }

  /**
  A known address gets its services added and its time moved on if that is stale. It gets one more slot
  exactly if the news is newer than its time, the entry is untried with fewer than eight slots, the draw
  is in its favour and the slot is to be had. Nothing else changes.
  */
  lemma AddHears(s: State, id: int, a: Address, src: NetAddr, penalty: int, now: int, draw: nat)
    requires Inv(s) && id in s.info && Find(s, a.service.net) == Some(id)
    ensures var t := Add(s, a, true, src, penalty, now, draw).0; var sl := NewSlot(s.place, s.info[id].service, src);
      && id in t.info && Noted(s.info[id], t.info[id], a, penalty, now)
      && (if WantsSlot(s.info[id], t.info[id].time, a, draw) && Spare(s, id, sl, now) then OneSlotMore(s, t, id, sl)
          else t == s.(info := s.info[id := t.info[id]]) && t.info[id].refCount == s.info[id].refCount)
  {
    hide Partial, IsTerrible, NewSlot, SlotIn, Admit, Noted, WantsSlot, OneSlotMore, Declined, Kept,
      Spare, Heard;
    var i, sl := Heard(s.info[id], a, penalty, now), NewSlot(s.place, s.info[id].service, src);
    HeardIsNoted(s.info[id], a, penalty, now);
    StatsKeep(s, id, i, {}, 0);
    var n := s.(info := s.info[id := i]);
    var t := Add(s, a, true, src, penalty, now, draw).0;
    HolderAlive(s, sl);
    Referenced(s, id);
    WantsExactly(s.info[id], i, a, draw);
    if !Declined(i, a, draw) {
      LimboGrows(n, {}, {id}, 0);
      KeptExactly(s, n, id, sl, now);
      AdmitStays(n, id, src, now);
      if Kept(n, id, sl, now) {
        AdmitYields(n, id, sl, src, now);
      } else if Spare(s, id, sl, now) {
        AdmitTakes(n, id, sl, src, now);
        TakenByKnown(s, n, t, id, sl);
        NotedAlike(s.info[id], i, s.info[id].refCount + 1, t.info[id], a, penalty, now);
      }
    }
  }

  lemma HeardIsNoted(i: AddrInfo, a: Address, penalty: int, now: int)
    ensures var j := Heard(i, a, penalty, now);
      Noted(i, j, a, penalty, now) && StatsOnly(i, j)
  {
  }

  lemma NotedAlike(i: AddrInfo, j: AddrInfo, refs: int, k: AddrInfo, a: Address, penalty: int, now: int)
    requires Noted(i, j, a, penalty, now) && Alike(j.(refCount := refs), k)
    ensures Noted(i, k, a, penalty, now) && k.time == j.time
  {
  }

  lemma Referenced(s: State, id: int)
    requires Inv(s) && id in s.info
    ensures s.info[id].tried || 1 <= s.info[id].refCount <= NEW_BUCKETS_PER_ADDRESS
  {
  }

  lemma WantsExactly(i: AddrInfo, j: AddrInfo, a: Address, draw: nat)
    requires i.tried || 1 <= i.refCount <= NEW_BUCKETS_PER_ADDRESS
    requires j.tried == i.tried && j.refCount == i.refCount
    ensures WantsSlot(i, j.time, a, draw) <==> !Declined(j, a, draw)
    ensures !Declined(j, a, draw) ==> !j.tried && 1 <= j.refCount < NEW_BUCKETS_PER_ADDRESS
  {
  }

  lemma KeptExactly(s: State, n: State, id: int, sl: Slot, now: int)
    requires id in s.info && id in n.info && n == s.(info := s.info[id := n.info[id]]) && n.info[id].refCount >= 1
    requires sl in s.newSlots ==> s.newSlots[sl] in s.info
    ensures Kept(n, id, sl, now) || (sl in s.newSlots && s.newSlots[sl] == id) <==> !Spare(s, id, sl, now)
    ensures Spare(s, id, sl, now) ==> !(sl in s.newSlots && s.newSlots[sl] == id)
  {
    hide IsTerrible;
  }

  lemma TakenByKnown(s: State, n: State, t: State, id: int, sl: Slot)
    requires id in s.info && id in n.info && n == s.(info := s.info[id := n.info[id]])
    requires n.info[id].refCount == s.info[id].refCount && Taken(n, t, id, sl)
    requires !(sl in s.newSlots && s.newSlots[sl] == id)
    ensures OneSlotMore(s, t, id, sl) && Alike(n.info[id].(refCount := s.info[id].refCount + 1), t.info[id])
  {
    var other := if sl in s.newSlots then s.newSlots[sl] else id;
    forall x | x in s.info && x != id && x != other
      ensures Survives(s.info, t.info, x)
    {
      assert Survives(n.info, t.info, x);
    }
  }

  // ----- sharing addresses -----

  /** Every entry in the first n places is shared or terrible. */
  ghost predicate Covered(s: State, n: nat, shared: seq<int>, now: int) {
    forall k :: 0 <= k < n && k < |s.random| && s.random[k] in s.info ==>
      s.random[k] in shared || IsTerrible(s.info[s.random[k]], now)
  }

  /** The same entries, but for their places. */
  ghost predicate Reordered(info: Entries, info': Entries) {
    info'.Keys == info.Keys && forall id :: id in info ==> Survives(info, info', id)
  }

  lemma SwapReorders(s: State, pos1: int, pos2: int)
    requires Indexes(s, pos1) && Indexes(s, pos2)
    ensures Reordered(s.info, SwapRandom(s, pos1, pos2).info)
  {
  }

  lemma ReorderedTwice(info: Entries, info': Entries, info'': Entries)
    requires Reordered(info, info') && Reordered(info', info'')
    ensures Reordered(info, info'')
  {
    forall id | id in info
      ensures Survives(info, info'', id)
    {
      assert Survives(info, info', id) && Survives(info', info'', id);
    }
  }

  lemma CoveredStep(s: State, n: nat, pos: int, shared: seq<int>, now: int)
    requires Inv(s) && n <= pos < |s.random| && Covered(s, n, shared, now) && Indexes(s, n) && Indexes(s, pos)
    ensures var t := SwapRandom(s, n, pos);
      && t.random[n] in t.info
      && Covered(t, n + 1, if IsTerrible(t.info[t.random[n]], now) then shared else shared + [t.random[n]], now)
  {
    hide IsTerrible, A2, A3, TriedPlaced, Counted, Linked;
    var t := SwapRandom(s, n, pos);
    forall k | 0 <= k < n
      ensures t.random[k] == s.random[k] && t.random[k] in s.info && t.info[t.random[k]] == s.info[s.random[k]]
    {
      assert s.random[k] in s.info && s.info[s.random[k]].randomPos == k;
    }
  }

  lemma {:induction false} GetAddrFromCovers(s: State, n: nat, shared: seq<int>, limit: nat, now: int,
                                             draws: nat -> nat)
    requires Inv(s) && n <= |s.random| && Covered(s, n, shared, now)
    ensures var (t, out) := GetAddrFrom(s, n, shared, limit, now, draws);
      && (|out| >= limit || Covered(t, |t.random|, out, now)) && Reordered(s.info, t.info)
    decreases |s.random| - n
  {
    hide Partial, Covered, Reordered, IsTerrible, Pick;
    if n < |s.random| && |shared| < limit {
      var pos := Pick(draws(n), n, |s.random|);
      SwapKeeps(s, n, pos, {}, 0);
      var t := SwapRandom(s, n, pos);
      CoveredStep(s, n, pos, shared, now);
      SwapReorders(s, n, pos);
      var id := t.random[n];
      var more := if IsTerrible(t.info[id], now) then shared else shared + [id];
      GetAddrFromCovers(t, n + 1, more, limit, now, draws);
      ReorderedTwice(s.info, t.info, GetAddrFrom(t, n + 1, more, limit, now, draws).0.info);
    } else {
      SameIsReordered(s.info);
    }
  }

  lemma SameIsReordered(info: Entries)
    ensures Reordered(info, info)
  {
  }

  /**
  A peer is given every address that is not terrible, unless that many would be more than 2500 or more
  than 23 percent of all. The entries stay as they are.
  */
  lemma GetAddrShares(s: State, now: int, draws: nat -> nat)
    requires Inv(s)
    ensures var (t, out) := GetAddr(s, now, draws);
      && Reordered(s.info, t.info)
      && (|out| == 2500 || 100 * (|out| + 1) > 23 * |s.random|
          || forall id :: id in s.info && !IsTerrible(s.info[id], now) ==> id in out)
  {
    hide Partial, IsTerrible;
    GetAddrFromCovers(s, 0, [], ShareLimit(s), now, draws);
    GetAddrFromKeeps(s, 0, [], ShareLimit(s), now, draws);
    var (t, out) := GetAddr(s, now, draws);
    if |out| < ShareLimit(s) {
      forall id | id in s.info && !IsTerrible(s.info[id], now)
        ensures id in out
      {
        assert Survives(s.info, t.info, id);
        AlikeTerrible(s.info[id], t.info[id], now);
        OwnPlace(t, id);
      }
    }
  }

  lemma AlikeTerrible(i: AddrInfo, j: AddrInfo, now: int)
    requires Alike(i, j)
    ensures IsTerrible(i, now) == IsTerrible(j, now)
  {
  }

  lemma OwnPlace(s: State, id: int)
    requires Inv(s) && id in s.info
    ensures 0 <= s.info[id].randomPos < |s.random| && s.random[s.info[id].randomPos] == id
  {
  }

  // ----- how far one group of addresses is spread -----

  /** The values of a function at the numbers below n are at most n. */
  lemma {:induction false} ValuesBelow(f: nat -> int, n: nat, values: set<int>)
    requires forall v :: v in values ==> exists k: nat :: k < n && f(k) == v
    ensures |values| <= n
  {
    if n == 0 {
      assert forall v :: v in values ==> exists k: nat :: k < n && f(k) == v;
    } else {
      var last := f(n - 1);
      ValuesBelow(f, n - 1, values - {last});
    }
  }

  /** The addresses heard of from one group of sources reach at most 64 buckets of the new table. */
  lemma SourceGroupSpread(p: Place, group: Bytes, buckets: set<int>)
    requires forall b :: b in buckets ==>
        exists a: Service, src: NetAddr :: p.h.group(src) == group && NewBucket(p, a, src) == b
    ensures |buckets| <= 64
  {
    var f := (k: nat) =>
      p.h.cheap([KeyField(p.key), BytesField(group), NumField(k)]) % NEW_BUCKET_COUNT;
    forall b | b in buckets
      ensures exists k: nat :: k < 64 && f(k) == b
    {
      var a: Service, src: NetAddr :| p.h.group(src) == group && NewBucket(p, a, src) == b;
      var hash1 := p.h.cheap([KeyField(p.key), BytesField(p.h.group(a.net)), BytesField(group)]);
      assert f(hash1 % NEW_BUCKETS_PER_SOURCE_GROUP) == b;
    }
    ValuesBelow(f, 64, buckets);
  }

  /** The addresses of one group reach at most 8 buckets of the tried table. */
  lemma GroupSpread(p: Place, group: Bytes, buckets: set<int>)
    requires forall b :: b in buckets ==> exists a: Service :: p.h.group(a.net) == group && TriedBucket(p, a) == b
    ensures |buckets| <= 8
  {
    var f := (k: nat) =>
      p.h.cheap([KeyField(p.key), BytesField(group), NumField(k)]) % TRIED_BUCKET_COUNT;
    forall b | b in buckets
      ensures exists k: nat :: k < 8 && f(k) == b
    {
      var a: Service :| p.h.group(a.net) == group && TriedBucket(p, a) == b;
      var hash1 := p.h.cheap([KeyField(p.key), BytesField(ServiceKey(p.h, a))]);
      assert f(hash1 % TRIED_BUCKETS_PER_GROUP) == b;
    }
    ValuesBelow(f, 8, buckets);
  }
}
