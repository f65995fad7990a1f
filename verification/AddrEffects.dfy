/**
What moving an address to the tried table and adding an address do to the
tables, entry by entry and slot by slot.
*/
module AddrEffects {
  import opened Basics
  import opened AddrState
  import opened AddrInvariant
  import opened AddrOps

  /** The slots of one table are those of another, without the ones an id held in the first n buckets. */
  ghost predicate Without(slots: Table, slots': Table, id: int, n: nat) {
    && (forall sl :: sl in slots' <==> sl in slots && !(slots[sl] == id && sl.bucket < n))
    && (forall sl :: sl in slots' ==> slots'[sl] == slots[sl])
  }

  /** Dropping references takes one entry out of its buckets and changes nothing else. */
  lemma {:induction false} DropRefsFrame(s: State, id: int, n: nat)
    requires id in s.info
    ensures var t := DropRefs(s, id, n);
      && t == s.(info := t.info, newSlots := t.newSlots)
      && t.info == s.info[id := s.info[id].(refCount := t.info[id].refCount)]
  {
    if n > 0 {
      DropRefsFrame(s, id, n - 1);
    }
  }

  lemma {:induction false} DropRefsForm(s: State, id: int, n: nat)
    requires A3(s.place, s.newSlots, s.info) && id in s.info && n <= NEW_BUCKET_COUNT
    ensures Without(s.newSlots, DropRefs(s, id, n).newSlots, id, n)
  {
    hide A3, Without, SlotIn;
    OwnSlotsOnly(s.place, s.newSlots, s.info, id);
    if n == 0 {
      WithoutNone(s.newSlots, id);
    } else {
      DropRefsForm(s, id, n - 1);
      var t := DropRefs(s, id, n - 1);
      WithoutOneMore(s.newSlots, t.newSlots, id, n, SlotIn(t.place, t.info[id].service, n - 1));
    }
  }

  lemma WithoutNone(slots: Table, id: int)
    requires forall sl :: sl in slots && slots[sl] == id ==> 0 <= sl.bucket
    ensures Without(slots, slots, id, 0)
  {
  }

  lemma OwnSlotsOnly(p: Place, slots: Table, info: Entries, id: int)
    requires A3(p, slots, info) && id in info
    ensures forall sl :: sl in slots && slots[sl] == id ==>
        0 <= sl.bucket && sl == SlotIn(p, info[id].service, sl.bucket)
  {
  }

  lemma WithoutOneMore(slots: Table, slots': Table, id: int, n: nat, sl: Slot)
    requires n > 0 && Without(slots, slots', id, n - 1) && sl.bucket == n - 1
    requires forall x :: x in slots && slots[x] == id && x.bucket == n - 1 ==> x == sl
    ensures Without(slots, if sl in slots' && slots'[sl] == id then slots' - {sl} else slots', id, n)
  {
  }

  /** What a cleared slot's holder becomes: gone if this was its last slot, one slot poorer otherwise. */
  ghost predicate Displaced(info: Entries, info': Entries, id: int) {
    && id in info
    && if info[id].refCount == 1 then id !in info'
       else id in info' && Alike(info[id].(refCount := info[id].refCount - 1), info'[id])
  }

  /** The address map after an entry has lost a slot: its address goes if this was its last slot. */
  function Unlinked(addr: map<NetAddr, int>, i: AddrInfo): map<NetAddr, int> {
    if i.refCount == 1 then addr - {i.service.net} else addr
  }

  /** The address map once the holder of a slot, if it is not the given entry, has lost that slot. */
  function Relinked(s: State, id: int, sl: Slot): map<NetAddr, int> {
    if sl in s.newSlots && s.newSlots[sl] != id && s.newSlots[sl] in s.info
    then Unlinked(s.addr, s.info[s.newSlots[sl]]) else s.addr
  }

  lemma ClearNewUnlinks(s: State, sl: Slot)
    requires sl in s.newSlots ==> Indexed(s, s.newSlots[sl])
    ensures ClearNew(s, sl).addr == if sl in s.newSlots then Unlinked(s.addr, s.info[s.newSlots[sl]]) else s.addr
  {
  }

  lemma ClearNewDisplaces(s: State, sl: Slot)
    requires sl in s.newSlots && Indexed(s, s.newSlots[sl])
    ensures Displaced(s.info, ClearNew(s, sl).info, s.newSlots[sl])
  {
    var id := s.newSlots[sl];
    var t := DropSlot(s, sl);
    if t.info[id].refCount == 0 {
      DeleteSpares(t, id);
    }
  }

  lemma ClearNewCreatesNothing(s: State, sl: Slot, x: int)
    requires sl in s.newSlots ==> Indexed(s, s.newSlots[sl])
    requires x in ClearNew(s, sl).info
    ensures x in s.info
  {
    if sl in s.newSlots {
      var t := DropSlot(s, sl);
      if t.info[s.newSlots[sl]].refCount == 0 {
        DeleteSpares(t, s.newSlots[sl]);
      }
    }
  }

  /** The slot of the new table an entry goes back to. */
  function BackSlot(p: Place, i: AddrInfo): Slot {
    NewSlot(p, i.service, i.source)
  }

  /** An entry is back in the new table with one slot; only the entry it displaces is affected. */
  ghost predicate Evicted(slots: Table, info: Entries, slots': Table, info': Entries, id: int, back: Slot) {
    && id in info && id in info' && Alike(info[id].(tried := false, refCount := 1), info'[id])
    && back in slots' && slots'[back] == id
    && (forall sl :: sl != back ==> (sl in slots' <==> sl in slots))
    && (forall sl :: sl != back && sl in slots' ==> slots'[sl] == slots[sl])
    && (back in slots ==> Displaced(info, info', slots[back]))
    && (forall x :: x in info && x != id && !(back in slots && slots[back] == x) ==> Survives(info, info', x))
    && (forall x :: x in info' ==> x in info)
  }

  lemma EvictMoves(s: State, home: Slot, mover: int)
    requires Partial(s, {mover}, 1) && Adrift(s, mover) && home in s.triedSlots
    ensures s.triedSlots[home] in s.info && s.triedSlots[home] != mover
    ensures var t := Evict(s, home, mover); var id := s.triedSlots[home];
      Evicted(s.newSlots, s.info, t.newSlots, t.info, id, BackSlot(s.place, s.info[id]))
  {
    hide Partial;
    DemoteSets(s, home, mover);
    var id := s.triedSlots[home];
    var t := Demote(s, home);
    var back := NewSlot(t.place, t.info[id].service, t.info[id].source);
    ClearNewKeeps(t, back, {mover, id}, 2);
    ClearNewSparesAdrift(t, back, id, {mover, id}, 2);
    AdriftHoldsNothing(t, id, {mover, id}, 2);
    var u := ClearNew(t, back);
    if back in s.newSlots { ClearNewDisplaces(t, back); }
    forall x | x in s.info && x != id && !(back in s.newSlots && s.newSlots[back] == x)
      ensures Survives(s.info, u.info, x)
    {
      ClearNewSpares(t, back, x);
    }
    forall x | x in u.info
      ensures x in s.info
    {
      ClearNewCreatesNothing(t, back, x);
    }
  }

  lemma AdriftHoldsNothing(s: State, id: int, limbo: set<int>, uncounted: int)
    requires Partial(s, limbo, uncounted) && Adrift(s, id)
    ensures forall sl :: sl in s.newSlots ==> s.newSlots[sl] != id
  {
    NoHolders(s.newSlots, s.info, id, limbo);
  }

  /** The state just before the tried slot is emptied: one entry out of all its slots. */
  ghost predicate Lifted(s: State, u: State, id: int) {
    && id in s.info
    && u.place == s.place && u.triedSlots == s.triedSlots
    && u.info == s.info[id := s.info[id].(refCount := 0)]
    && Without(s.newSlots, u.newSlots, id, NEW_BUCKET_COUNT)
    && Partial(u, {id}, 1) && Adrift(u, id)
  }

  function Lift(s: State, id: int): State
    requires id in s.info
  {
    var t := DropRefs(s, id, NEW_BUCKET_COUNT);
    t.(nNew := t.nNew - 1)
  }

  lemma LiftLifts(s: State, id: int)
    requires Inv(s) && id in s.info && !s.info[id].tried
    ensures Lifted(s, Lift(s, id), id)
    ensures MakeTried(s, id) == var home := TriedSlot(s.place, s.info[id].service);
              assert Survives(Lift(s, id).info, Evict(Lift(s, id), home, id).info, id) by {
                EvictKeeps(Lift(s, id), home, id);
              }
              Promote(Evict(Lift(s, id), home, id), id, home)
  {
    hide Without;
    InvA3(s);
    DropRefsForm(s, id, NEW_BUCKET_COUNT);
    DropRefsFrame(s, id, NEW_BUCKET_COUNT);
    DropRefsKeeps(s, id, NEW_BUCKET_COUNT);
    DropRefsEmpties(s, id);
    hide Partial;
    CountedUp(DropRefs(s, id, NEW_BUCKET_COUNT), {id}, 0, -1);
    EvictKeeps(Lift(s, id), TriedSlot(s.place, s.info[id].service), id);
  }

  /**
  Moving an entry to the tried table: it takes its own tried slot and leaves every new slot. With the
  tried slot vacant nothing else changes.
  */
  lemma MakeTriedMoves(s: State, id: int)
    requires Inv(s) && id in s.info && !s.info[id].tried
    ensures var t := MakeTried(s, id); var home := TriedSlot(s.place, s.info[id].service);
      && id in t.info && Alike(s.info[id].(tried := true, refCount := 0), t.info[id])
      && t.triedSlots == (s.triedSlots - {home})[home := id]
      && (home !in s.triedSlots ==> Without(s.newSlots, t.newSlots, id, NEW_BUCKET_COUNT))
      && (home !in s.triedSlots ==> Spared(s.info, t.info, id, id) && t.info.Keys == s.info.Keys)
  {
    hide Partial, Without;
    LiftLifts(s, id);
    EvictKeeps(Lift(s, id), TriedSlot(s.place, s.info[id].service), id);
  }

  /**
  With the tried slot occupied, its occupant goes back to its own new slot with a count of one. Only
  the entry found there loses a slot, and is deleted if it had no other. All others are as before.
  */
  lemma MakeTriedReturns(s: State, id: int)
    requires Inv(s) && id in s.info && !s.info[id].tried
    requires TriedSlot(s.place, s.info[id].service) in s.triedSlots
    ensures Returned(s, MakeTried(s, id), id, s.triedSlots[TriedSlot(s.place, s.info[id].service)])
  {
    hide Partial, Evicted, Without;
    LiftLifts(s, id);
    InvA3(s);
    var u, home := Lift(s, id), TriedSlot(s.place, s.info[id].service);
    EvictMoves(u, home, id);
    EvictKeeps(u, home, id);
    var ev := s.triedSlots[home];
    assert u.info[ev] == s.info[ev];
    ReturnedVia(s, u.newSlots, Evict(u, home, id), id, ev, home);
  }

  lemma EvictUnlinks(s: State, home: Slot, mover: int)
    requires Partial(s, {mover}, 1) && Adrift(s, mover) && home in s.triedSlots && s.triedSlots[home] in s.info
    ensures var t := Evict(s, home, mover); var back := BackSlot(s.place, s.info[s.triedSlots[home]]);
      && (back in s.newSlots ==> s.newSlots[back] in s.info && s.newSlots[back] != s.triedSlots[home])
      && t.addr == (if back in s.newSlots then Unlinked(s.addr, s.info[s.newSlots[back]]) else s.addr)
  {
    hide Partial;
    DemoteSets(s, home, mover);
    var id := s.triedSlots[home];
    var t := Demote(s, home);
    var back := NewSlot(t.place, t.info[id].service, t.info[id].source);
    ClearNewKeeps(t, back, {mover, id}, 2);
    AdriftHoldsNothing(t, id, {mover, id}, 2);
    ClearNewUnlinks(t, back);
  }

  /** The address map after a move: only an entry displaced from its last slot loses its address. */
  lemma MakeTriedUnlinks(s: State, id: int)
    requires Inv(s) && id in s.info && !s.info[id].tried
    ensures var t := MakeTried(s, id); var home := TriedSlot(s.place, s.info[id].service);
      && (home !in s.triedSlots ==> t.addr == s.addr)
      && (home in s.triedSlots && s.triedSlots[home] in s.info ==>
            t.addr == Relinked(s, id, BackSlot(s.place, s.info[s.triedSlots[home]])))
  {
    hide Partial, Without, Evict;
    LiftLifts(s, id);
    DropRefsFrame(s, id, NEW_BUCKET_COUNT);
    InvA3(s);
    var u, home := Lift(s, id), TriedSlot(s.place, s.info[id].service);
    if home in s.triedSlots {
      EvictMoves(u, home, id);
      EvictUnlinks(u, home, id);
      LiftedSlot(s, u, id, BackSlot(s.place, s.info[s.triedSlots[home]]));
    } else {
      EvictVacant(u, home, id);
    }
  }

  lemma EvictVacant(s: State, home: Slot, mover: int)
    requires Partial(s, {mover}, 1) && Adrift(s, mover) && home !in s.triedSlots
    ensures Evict(s, home, mover) == s
  {
  }

  lemma LiftedSlot(s: State, u: State, id: int, sl: Slot)
    requires Lifted(s, u, id) && A3(s.place, s.newSlots, s.info)
    ensures sl in u.newSlots <==> sl in s.newSlots && s.newSlots[sl] != id
    ensures sl in u.newSlots ==> u.newSlots[sl] == s.newSlots[sl]
    ensures sl in s.newSlots ==> s.newSlots[sl] in s.info
  {
    hide Partial;
  }

  /** The entry that made room is back in the new table, and at most one entry was displaced by that. */
  ghost predicate Returned(s: State, t: State, moved: int, id: int) {
    && id in s.info && id in t.info && id != moved
    && Alike(s.info[id].(tried := false, refCount := 1), t.info[id])
    && var back := BackSlot(s.place, s.info[id]);
       var held := back in s.newSlots && s.newSlots[back] != moved;
       && back in t.newSlots && t.newSlots[back] == id
       && (forall sl :: sl != back ==> (sl in t.newSlots <==> sl in s.newSlots && s.newSlots[sl] != moved))
       && (forall sl :: sl != back && sl in t.newSlots ==> t.newSlots[sl] == s.newSlots[sl])
       && (held ==> Displaced(s.info, t.info, s.newSlots[back]))
       && (forall x :: x in s.info && x != id && x != moved && !(held && s.newSlots[back] == x) ==>
             Survives(s.info, t.info, x))
       && (forall x :: x in t.info ==> x in s.info)
  }

  lemma ReturnedVia(s: State, slots: Table, v: State, id: int, ev: int, home: Slot)
    requires id in s.info && id in v.info && ev in s.info && ev != id
    requires forall sl :: sl in s.newSlots ==> sl.bucket < NEW_BUCKET_COUNT
    requires Without(s.newSlots, slots, id, NEW_BUCKET_COUNT)
    requires Evicted(slots, s.info[id := s.info[id].(refCount := 0)], v.newSlots, v.info, ev,
        BackSlot(s.place, s.info[ev]))
    ensures Returned(s, Promote(v, id, home), id, ev)
  {
    var lifted, t := s.info[id := s.info[id].(refCount := 0)], Promote(v, id, home);
    var back := BackSlot(s.place, s.info[ev]);
    forall x | x in s.info && x != ev && x != id && !(back in slots && slots[back] == x)
      ensures Survives(s.info, t.info, x)
    {
      assert x in lifted && lifted[x] == s.info[x];
      assert Survives(lifted, v.info, x);
    }
  }

  lemma InvA3(s: State)
    requires Inv(s)
    ensures A3(s.place, s.newSlots, s.info)
    ensures forall sl :: sl in s.newSlots ==> sl.bucket < NEW_BUCKET_COUNT
  {
  }

  /** Whether the slot an entry wants is kept by another entry. */
  predicate Kept(s: State, id: int, sl: Slot, now: int) {
    && sl in s.newSlots && s.newSlots[sl] != id
    && s.newSlots[sl] in s.info && id in s.info && !GivesWay(s.info[s.newSlots[sl]], s.info[id].refCount, now)
  }

  /** One slot differs between two tables. */
  ghost predicate OnlyAt(slots: Table, slots': Table, sl: Slot) {
    && (forall x :: x != sl ==> (x in slots' <==> x in slots))
    && (forall x :: x != sl && x in slots' ==> slots'[x] == slots[x])
  }

  /** All entries but two are as before. */
  ghost predicate Spared(info: Entries, info': Entries, id: int, other: int) {
    forall x :: x in info && x != id && x != other ==> Survives(info, info', x)
  }

  /** An entry has a slot of the new table, whose previous holder has lost it; all else is as before. */
  ghost predicate Taken(s: State, t: State, id: int, sl: Slot) {
    && id in s.info && id in t.info
    && (var gained := if sl in s.newSlots && s.newSlots[sl] == id then 0 else 1;
        Alike(s.info[id].(refCount := s.info[id].refCount + gained), t.info[id]))
    && sl in t.newSlots && t.newSlots[sl] == id && OnlyAt(s.newSlots, t.newSlots, sl)
    && t.triedSlots == s.triedSlots && t.nTried == s.nTried
    && (forall x :: x in t.info ==> x in s.info)
    && (sl in s.newSlots && s.newSlots[sl] != id ==> Displaced(s.info, t.info, s.newSlots[sl]))
    && t.addr == Relinked(s, id, sl)
    && Spared(s.info, t.info, id, if sl in s.newSlots then s.newSlots[sl] else id)
  }

  lemma AdmitStays(s: State, id: int, src: NetAddr, now: int)
    requires Admissible(s, id)
    ensures var sl := NewSlot(s.place, s.info[id].service, src);
      sl in s.newSlots && s.newSlots[sl] == id ==> Admit(s, id, src, now) == s
  {
    hide Partial, IsTerrible, NewSlot, SlotIn, ClearNew, PlaceNew, Delete;
  }

  lemma AdmitOpens(s: State, id: int, sl: Slot, src: NetAddr, now: int)
    requires Admissible(s, id) && sl == NewSlot(s.place, s.info[id].service, src) && !Kept(s, id, sl, now)
    requires !(sl in s.newSlots && s.newSlots[sl] == id)
    requires sl in s.newSlots ==> s.newSlots[sl] in s.info && Indexed(s, s.newSlots[sl])
    requires Survives(s.info, ClearNew(s, sl).info, id)
    ensures Admit(s, id, src, now) == PlaceNew(ClearNew(s, sl), id, sl, s.info[id].refCount + 1)
  {
    hide Partial, IsTerrible, NewSlot, SlotIn, ClearNew, PlaceNew, Delete, Indexed;
  }

  lemma AdmitCloses(s: State, id: int, sl: Slot, src: NetAddr, now: int)
    requires Admissible(s, id) && sl == NewSlot(s.place, s.info[id].service, src) && Kept(s, id, sl, now)
    requires s.info[id].refCount == 0 ==> Indexed(s, id)
    ensures Admit(s, id, src, now) == if s.info[id].refCount == 0 then Delete(s, id) else s
  {
    hide Partial, IsTerrible, NewSlot, SlotIn, ClearNew, PlaceNew, Delete, Indexed;
  }

  /** An entry takes the slot its source gives it unless another entry keeps that slot. */
  lemma AdmitTakes(s: State, id: int, sl: Slot, src: NetAddr, now: int)
    requires Admissible(s, id) && sl == NewSlot(s.place, s.info[id].service, src) && !Kept(s, id, sl, now)
    ensures Taken(s, Admit(s, id, src, now), id, sl)
  {
    hide Partial, IsTerrible, Taken, SlotIn, NewSlot, Admit, ClearNew, PlaceNew;
    if sl in s.newSlots && s.newSlots[sl] == id {
      NothingTaken(s, id, sl);
      AdmitStays(s, id, src, now);
    } else {
      AdmitWellFormed(s, id, sl);
      ClearNewKeeps(s, sl, {id}, 0);
      AdmitOpens(s, id, sl, src, now);
      ClearThenPlace(s, id, sl, s.info[id].refCount + 1);
    }
  }

  lemma NothingTaken(s: State, id: int, sl: Slot)
    requires id in s.info && sl in s.newSlots && s.newSlots[sl] == id
    ensures Taken(s, s, id, sl)
  {
  }

  lemma ClearThenPlace(s: State, id: int, sl: Slot, refs: int)
    requires id in s.info && !(sl in s.newSlots && s.newSlots[sl] == id) && refs == s.info[id].refCount + 1
    requires sl in s.newSlots ==> Indexed(s, s.newSlots[sl])
    requires Survives(s.info, ClearNew(s, sl).info, id) && ClearNew(s, sl).newSlots == s.newSlots - {sl}
    requires ClearNew(s, sl).triedSlots == s.triedSlots && ClearNew(s, sl).nTried == s.nTried
    ensures Taken(s, PlaceNew(ClearNew(s, sl), id, sl, refs), id, sl)
  {
    var t := ClearNew(s, sl);
    ClearNewUnlinks(s, sl);
    if sl in s.newSlots { ClearNewDisplaces(s, sl); }
    forall x | x in s.info && x != id && !(sl in s.newSlots && s.newSlots[sl] == x)
      ensures Survives(s.info, t.info, x)
    {
      ClearNewSpares(s, sl, x);
    }
    forall x | x in t.info
      ensures x in s.info
    {
      ClearNewCreatesNothing(s, sl, x);
    }
  }

  lemma DeleteExactly(s: State, id: int)
    requires Indexed(s, id)
    ensures var t := Delete(s, id);
      && t.newSlots == s.newSlots && t.triedSlots == s.triedSlots && t.nTried == s.nTried
      && t.info.Keys == s.info.Keys - {id} && t.addr == s.addr - {s.info[id].service.net}
      && Spared(s.info, t.info, id, id)
  {
  }

  /** If the slot is kept no slot changes and no other entry; an entry without any slot is forgotten. */
  lemma AdmitYields(s: State, id: int, sl: Slot, src: NetAddr, now: int)
    requires Admissible(s, id) && sl == NewSlot(s.place, s.info[id].service, src) && Kept(s, id, sl, now)
    ensures var t := Admit(s, id, src, now);
      && t.newSlots == s.newSlots && t.triedSlots == s.triedSlots && t.nTried == s.nTried
      && (s.info[id].refCount > 0 ==> t == s)
      && (s.info[id].refCount == 0 ==>
            t.info.Keys == s.info.Keys - {id} && t.addr == s.addr - {s.info[id].service.net})
      && Spared(s.info, t.info, id, id)
  {
    hide Partial, IsTerrible, NewSlot, SlotIn, Admit, Delete, Indexed;
    AdmitWellFormed(s, id, sl);
    AdmitCloses(s, id, sl, src, now);
    if s.info[id].refCount == 0 { DeleteExactly(s, id); }
  }
}
