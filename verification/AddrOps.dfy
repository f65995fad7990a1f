/**
The operations of the address manager, built from the primitive steps, and the
proof that each of them keeps the invariants of the tables.
*/
module AddrOps {
  import opened Basics
  import opened AddrState
  import opened AddrInvariant
  import opened Powers

  /** Two records of an entry that differ at most in its place in random. */
  predicate Alike(i: AddrInfo, j: AddrInfo) {
    i.(randomPos := 0) == j.(randomPos := 0)
  }

  /** An entry survives from one state to another, but for its place in random. */
  predicate Survives(info: Entries, info': Entries, id: int) {
    id in info && id in info' && Alike(info[id], info'[id])
  }

  // ----- clearing a slot -----

  lemma DeleteSpares(s: State, id: int)
    requires Indexed(s, id)
    ensures forall x :: x in s.info && x != id ==> Survives(s.info, Delete(s, id).info, x)
    ensures forall x :: x in Delete(s, id).info ==> x in s.info && x != id
  {
  }

  /** Clearing a slot keeps the invariants and touches only the entry that held it. */
  lemma ClearNewKeeps(s: State, sl: Slot, limbo: set<int>, uncounted: int)
    requires Partial(s, limbo, uncounted)
    ensures sl in s.newSlots ==> Indexed(s, s.newSlots[sl])
    ensures var t := ClearNew(s, sl);
      && Partial(t, limbo, uncounted)
      && t.newSlots == s.newSlots - {sl} && t.triedSlots == s.triedSlots && t.place == s.place
      && t.nTried == s.nTried && t.idCount == s.idCount
      && (Unique(s.addr, s.info) ==> Unique(t.addr, t.info))
  {
    hide Partial;
    if sl in s.newSlots {
      var id := s.newSlots[sl];
      SlotHolder(s, sl, limbo, uncounted);
      DropSlotKeeps(s, sl, limbo, uncounted);
      var t := DropSlot(s, sl);
      if t.info[id].refCount == 0 {
        DeleteKeeps(t, id, limbo + {id}, uncounted);
        LimboGrows(Delete(t, id), (limbo + {id}) - {id}, limbo, uncounted);
      }
    }
  }

  lemma SlotHolder(s: State, sl: Slot, limbo: set<int>, uncounted: int)
    requires Partial(s, limbo, uncounted) && sl in s.newSlots
    ensures Indexed(s, s.newSlots[sl]) && !s.info[s.newSlots[sl]].tried
    ensures s.info[s.newSlots[sl]].refCount > 0
  {
    var id := s.newSlots[sl];
    assert id in s.info && sl in Holders(s.newSlots, id);
    var pos := s.info[id].randomPos;
    assert s.random[pos] == id;
  }

  lemma LimboGrows(s: State, limbo: set<int>, limbo': set<int>, uncounted: int)
    requires Partial(s, limbo, uncounted) && limbo <= limbo'
    ensures Partial(s, limbo', uncounted)
  {
  }

  lemma ClearNewSpares(s: State, sl: Slot, x: int)
    requires sl in s.newSlots ==> Indexed(s, s.newSlots[sl]) && x != s.newSlots[sl]
    requires x in s.info
    ensures Survives(s.info, ClearNew(s, sl).info, x)
  {
    if sl in s.newSlots {
      var id := s.newSlots[sl];
      var t := DropSlot(s, sl);
      assert t.info[x] == s.info[x];
      if t.info[id].refCount == 0 {
        DeleteSpares(t, id);
      }
    }
  }

  // ----- moving an entry to the tried table -----

  lemma {:induction false} DropRefsKeeps(s: State, id: int, n: nat)
    requires Inv(s) && id in s.info && !s.info[id].tried && n <= NEW_BUCKET_COUNT
    ensures var t := DropRefs(s, id, n);
      && Partial(t, {id}, 0)
      && !t.info[id].tried
      && (Unique(s.addr, s.info) ==> Unique(t.addr, t.info))
      && t.triedSlots == s.triedSlots && t.addr == s.addr
  {
    hide Partial, SlotIn;
    if n == 0 {
      LimboGrows(s, {}, {id}, 0);
    } else {
      DropRefsKeeps(s, id, n - 1);
      var t := DropRefs(s, id, n - 1);
      var sl := SlotIn(t.place, t.info[id].service, n - 1);
      if sl in t.newSlots && t.newSlots[sl] == id {
        DropSlotKeeps(t, sl, {id}, 0);
        assert {id} + {id} == {id};
      }
    }
  }

  lemma {:induction false} DropRefsClears(s: State, id: int, n: nat)
    requires Inv(s) && id in s.info && !s.info[id].tried && n <= NEW_BUCKET_COUNT
    ensures var t := DropRefs(s, id, n);
      forall sl :: sl in t.newSlots && t.newSlots[sl] == id ==> n <= sl.bucket
  {
    hide Partial;
    if n == 0 {
      BucketsFrom0(s, {}, 0);
    } else {
      DropRefsClears(s, id, n - 1);
      DropRefsKeeps(s, id, n - 1);
      var t := DropRefs(s, id, n - 1);
      OneSlotPerBucket(t, id, {id}, 0);
      OneSlotLess(t.newSlots, id, t.place, t.info[id].service, n);
    }
  }

  lemma OneSlotLess(slots: Table, id: int, place: Place, a: Service, n: nat)
    requires n > 0 && forall sl :: sl in slots && slots[sl] == id ==>
        n - 1 <= sl.bucket && sl == SlotIn(place, a, sl.bucket)
    ensures var sl := SlotIn(place, a, n - 1);
      forall x :: x in slots && slots[x] == id && x != sl ==> n <= x.bucket
  {
    hide SlotIn;
  }

  lemma BucketsFrom0(s: State, limbo: set<int>, uncounted: int)
    requires Partial(s, limbo, uncounted)
    ensures forall sl :: sl in s.newSlots ==> 0 <= sl.bucket < NEW_BUCKET_COUNT
  {
  }

  lemma OneSlotPerBucket(s: State, id: int, limbo: set<int>, uncounted: int)
    requires Partial(s, limbo, uncounted) && id in s.info
    ensures forall sl :: sl in s.newSlots && s.newSlots[sl] == id ==>
        sl == SlotIn(s.place, s.info[id].service, sl.bucket)
  {
  }

  /** An untried entry that no slot holds, on its way to a table. */
  ghost predicate Adrift(s: State, id: int) {
    id in s.info && !s.info[id].tried && s.info[id].refCount == 0
  }

  lemma DropRefsEmpties(s: State, id: int)
    requires Inv(s) && id in s.info && !s.info[id].tried
    ensures Adrift(DropRefs(s, id, NEW_BUCKET_COUNT), id)
  {
    DropRefsKeeps(s, id, NEW_BUCKET_COUNT);
    DropRefsClears(s, id, NEW_BUCKET_COUNT);
    var t := DropRefs(s, id, NEW_BUCKET_COUNT);
    BucketsFrom0(t, {id}, 0);
    assert forall sl :: sl !in Holders(t.newSlots, id);
    assert Holders(t.newSlots, id) == {};
  }

  /** Taking the occupant of a tried slot out leaves it adrift beside the entry that is moving in. */
  lemma DemoteSets(s: State, sl: Slot, mover: int)
    requires Partial(s, {mover}, 1) && Adrift(s, mover) && sl in s.triedSlots
    ensures var id := s.triedSlots[sl];
      && id in s.info && s.info[id].tried && s.info[id].refCount == 0 && id != mover
      && Partial(Demote(s, sl), {mover, id}, 2)
      && Adrift(Demote(s, sl), id) && Adrift(Demote(s, sl), mover)
      && Demote(s, sl).info[mover] == s.info[mover]
      && Demote(s, sl).info[id] == s.info[id].(tried := false)
      && (Unique(s.addr, s.info) ==> Unique(s.addr, Demote(s, sl).info))
  {
    var id := s.triedSlots[sl];
    assert id in s.info;
    DemoteKeeps(s, sl, {mover}, 1);
    assert {mover} + {id} == {mover, id};
  }

  /** Clearing a slot spares every entry that is adrift. */
  lemma ClearNewSparesAdrift(s: State, sl: Slot, id: int, limbo: set<int>, uncounted: int)
    requires Partial(s, limbo, uncounted) && Adrift(s, id)
    requires sl in s.newSlots ==> Indexed(s, s.newSlots[sl])
    ensures Survives(s.info, ClearNew(s, sl).info, id)
  {
    NoHolders(s.newSlots, s.info, id, limbo);
    ClearNewSpares(s, sl, id);
  }

  /** The occupant of a tried slot goes back to the new table, displacing what is in its slot there. */
  function Evict(s: State, sl: Slot, ghost mover: int): State
    requires Partial(s, {mover}, 1) && Adrift(s, mover)
  {
    if sl !in s.triedSlots then s else
    DemoteSets(s, sl, mover);
    var id := s.triedSlots[sl];
    var t := Demote(s, sl);
    var nsl := NewSlot(t.place, t.info[id].service, t.info[id].source);
    ClearNewKeeps(t, nsl, {mover, id}, 2);
    ClearNewSparesAdrift(t, nsl, id, {mover, id}, 2);
    var u := ClearNew(t, nsl);
    PlaceNew(u, id, nsl, 1).(nNew := u.nNew + 1)
  }

  lemma CountedUp(s: State, limbo: set<int>, uncounted: int, delta: int)
    requires Partial(s, limbo, uncounted)
    ensures Partial(s.(nNew := s.nNew + delta), limbo, uncounted - delta)
  {
  }

  lemma EvictKeeps(s: State, sl: Slot, mover: int)
    requires Partial(s, {mover}, 1) && Adrift(s, mover)
    ensures var t := Evict(s, sl, mover);
      && Partial(t, {mover}, 1)
      && Survives(s.info, t.info, mover) && t.place == s.place
      && t.triedSlots == s.triedSlots - {sl}
      && (Unique(s.addr, s.info) ==> Unique(t.addr, t.info))
  {
    hide Partial;
    if sl in s.triedSlots {
      DemoteSets(s, sl, mover);
      var id := s.triedSlots[sl];
      var t := Demote(s, sl);
      var nsl := NewSlot(t.place, t.info[id].service, t.info[id].source);
      ClearNewKeeps(t, nsl, {mover, id}, 2);
      ClearNewSparesAdrift(t, nsl, id, {mover, id}, 2);
      ClearNewSparesAdrift(t, nsl, mover, {mover, id}, 2);
      var u := ClearNew(t, nsl);
      PlaceKeeps(u, id, nsl, 1, {mover, id}, 2);
      assert {mover, id} - {id} == {mover};
      CountedUp(PlaceNew(u, id, nsl, 1), {mover}, 2, 1);
    }
  }

  /** Move an untried entry to the tried table. */
  function MakeTried(s: State, id: int): State
    requires Inv(s) && id in s.info && !s.info[id].tried
  {
    DropRefsKeeps(s, id, NEW_BUCKET_COUNT);
    DropRefsEmpties(s, id);
    var dropped := DropRefs(s, id, NEW_BUCKET_COUNT);
    CountedUp(dropped, {id}, 0, -1);
    var uncounted := dropped.(nNew := dropped.nNew - 1);
    var sl := TriedSlot(s.place, s.info[id].service);
    EvictKeeps(uncounted, sl, id);
    Promote(Evict(uncounted, sl, id), id, sl)
  }

  lemma MakeTriedKeeps(s: State, id: int)
    requires Inv(s) && id in s.info && !s.info[id].tried
    ensures Inv(MakeTried(s, id))
    ensures Unique(s.addr, s.info) ==> Unique(MakeTried(s, id).addr, MakeTried(s, id).info)
  {
    hide Partial;
    DropRefsKeeps(s, id, NEW_BUCKET_COUNT);
    DropRefsEmpties(s, id);
    var dropped := DropRefs(s, id, NEW_BUCKET_COUNT);
    CountedUp(dropped, {id}, 0, -1);
    var uncounted := dropped.(nNew := dropped.nNew - 1);
    var sl := TriedSlot(s.place, s.info[id].service);
    EvictKeeps(uncounted, sl, id);
    PromoteKeeps(Evict(uncounted, sl, id), id, {id}, 1);
    assert {id} - {id} == {};
  }

  /** Changing only statistics of one entry keeps everything. */
  predicate StatsOnly(i: AddrInfo, j: AddrInfo) {
    j.service == i.service && j.refCount == i.refCount && j.tried == i.tried && j.randomPos == i.randomPos
  }

  lemma StatsKeep(s: State, id: int, i: AddrInfo, limbo: set<int>, uncounted: int)
    requires Partial(s, limbo, uncounted) && id in s.info && StatsOnly(s.info[id], i)
    ensures Partial(s.(info := s.info[id := i]), limbo, uncounted)
    ensures Unique(s.addr, s.info) ==> Unique(s.addr, s.info[id := i])
  {
    FrameAll(s, s.info[id := i], limbo, uncounted);
  }

  lemma FindSound(s: State, a: NetAddr)
    requires Inv(s)
    ensures Find(s, a).Some? <==> a in s.addr
    ensures Find(s, a).Some? ==> s.info[Find(s, a).value].service.net == a
  {
  }

  /** The statistics of an entry known under exactly this address and port, updated by f. */
  function Update(s: State, a: Service, f: AddrInfo -> AddrInfo): State {
    match Find(s, a.net)
    case None => s
    case Some(id) => if s.info[id].service != a then s else s.(info := s.info[id := f(s.info[id])])
  }

  lemma UpdateKeeps(s: State, a: Service, f: AddrInfo -> AddrInfo)
    requires Inv(s) && forall i :: StatsOnly(i, f(i))
    ensures Inv(Update(s, a, f))
    ensures Unique(s.addr, s.info) ==> Unique(Update(s, a, f).addr, Update(s, a, f).info)
  {
    hide Partial;
    match Find(s, a.net)
    case None =>
    case Some(id) => StatsKeep(s, id, f(s.info[id]), {}, 0);
  }

  function Tick(i: AddrInfo, time: int): AddrInfo {
    i.(lastTry := time, attempts := i.attempts + 1)
  }

  function Attempt(s: State, a: Service, time: int): State {
    Update(s, a, i => Tick(i, time))
  }

  function Seen(i: AddrInfo, time: int): AddrInfo {
    if time - i.time > 20 * 60 then i.(time := time % UINT32) else i
  }

  function Connected(s: State, a: Service, time: int): State {
    Update(s, a, i => Seen(i, time))
  }

  function SetServices(s: State, a: Service, services: Flags): State {
    Update(s, a, (i: AddrInfo) => i.(services := services))
  }

  // ----- marking an entry good -----

  /** The first new bucket, going round from start, that holds the id at the given address. */
  function FindBucket(s: State, id: int, a: Service, start: nat, n: nat): (r: Option<int>)
    requires n <= NEW_BUCKET_COUNT
    ensures r.Some? ==> 0 <= r.value < NEW_BUCKET_COUNT
    ensures r.Some? ==> SlotIn(s.place, a, r.value) in s.newSlots && s.newSlots[SlotIn(s.place, a, r.value)] == id
    decreases NEW_BUCKET_COUNT - n
  {
    if n == NEW_BUCKET_COUNT then None else
    var b := (n + start) % NEW_BUCKET_COUNT;
    var sl := SlotIn(s.place, a, b);
    if sl in s.newSlots && s.newSlots[sl] == id then Some(b) else FindBucket(s, id, a, start, n + 1)
  }

  /** Going all the way round misses no bucket. */
  lemma {:induction false} FindBucketFinds(s: State, id: int, a: Service, start: nat, n: nat, b: int)
    requires n <= NEW_BUCKET_COUNT && 0 <= b < NEW_BUCKET_COUNT
    requires n <= (b - start) % NEW_BUCKET_COUNT
    requires SlotIn(s.place, a, b) in s.newSlots && s.newSlots[SlotIn(s.place, a, b)] == id
    ensures FindBucket(s, id, a, start, n).Some?
    decreases NEW_BUCKET_COUNT - n
  {
    var sl := SlotIn(s.place, a, (n + start) % NEW_BUCKET_COUNT);
    if n == (b - start) % NEW_BUCKET_COUNT {
      assert (n + start) % NEW_BUCKET_COUNT == b;
    } else if !(sl in s.newSlots && s.newSlots[sl] == id) {
      FindBucketFinds(s, id, a, start, n + 1, b);
    }
  }

  function Succeeded(i: AddrInfo, time: int): AddrInfo {
    i.(lastSuccess := time, lastTry := time, attempts := 0)
  }

  /** What Good_ has done by the time it looks for a bucket, and the entry it is about to move. */
  function Praised(s: State, a: Service, time: int): (r: (State, Option<int>))
    ensures r.1.Some? ==> r.1.value in r.0.info && !r.0.info[r.1.value].tried
  {
    match Find(s, a.net)
    case None => (s, None)
    case Some(id) =>
      if s.info[id].service != a then (s, None) else
      var t := s.(info := s.info[id := Succeeded(s.info[id], time)]);
      (t, if s.info[id].tried then None else Some(id))
  }

  lemma PraisedKeeps(s: State, a: Service, time: int)
    requires Inv(s)
    ensures Inv(Praised(s, a, time).0)
    ensures Unique(s.addr, s.info) ==> Unique(Praised(s, a, time).0.addr, Praised(s, a, time).0.info)
  {
    hide Partial;
    match Find(s, a.net)
    case None =>
    case Some(id) => StatsKeep(s, id, Succeeded(s.info[id], time), {}, 0);
  }

  function Good(s: State, a: Service, time: int, draw: nat): State
    requires Inv(s)
  {
    PraisedKeeps(s, a, time);
    var (t, moving) := Praised(s, a, time);
    if moving.None? then t else
    var id := moving.value;
    if FindBucket(t, id, t.info[id].service, draw % NEW_BUCKET_COUNT, 0).None? then t else MakeTried(t, id)
  }

  /** The exit of Good_ for an untried entry found in no bucket is never taken. */
  lemma GoodAlwaysFinds(s: State, id: int, start: nat)
    requires Inv(s) && id in s.info && !s.info[id].tried
    ensures FindBucket(s, id, s.info[id].service, start, 0).Some?
  {
    var held := Holders(s.newSlots, id);
    assert |held| >= 1;
    var sl :| sl in held;
    assert sl == SlotIn(s.place, s.info[id].service, sl.bucket);
    FindBucketFinds(s, id, s.info[id].service, start, 0, sl.bucket);
  }

  lemma GoodKeeps(s: State, a: Service, time: int, draw: nat)
    requires Inv(s)
    ensures Inv(Good(s, a, time, draw))
    ensures Unique(s.addr, s.info) ==> Unique(Good(s, a, time, draw).addr, Good(s, a, time, draw).info)
  {
    hide Partial;
    PraisedKeeps(s, a, time);
    var (t, moving) := Praised(s, a, time);
    if moving.Some? {
      MakeTriedKeeps(t, moving.value);
    }
  }

  // ----- adding an address -----

  function Max(a: int, b: int): int {
    if a < b then b else a
  }

  /** What hearing of a known address does to its entry before anything is decided. */
  function Heard(i: AddrInfo, a: Address, penalty: int, now: int): AddrInfo {
    var interval := if now - a.time < 24 * 60 * 60 then 60 * 60 else 24 * 60 * 60;
    var j := if a.time != 0 && (i.time == 0 || i.time < a.time - interval - penalty)
             then i.(time := Max(0, a.time - penalty) % UINT32) else i;
    j.(services := j.services + a.services)
  }

  /** Whether a known address gets no further slot: nothing new, tried, full, or unlucky. */
  predicate Declined(i: AddrInfo, a: Address, draw: nat) {
    || a.time == 0
    || (i.time != 0 && a.time <= i.time)
    || i.tried
    || i.refCount == NEW_BUCKETS_PER_ADDRESS
    || (i.refCount > 0 && draw % Pow2(i.refCount) != 0)
  }

  /** Whether the occupant of a slot gives way to an entry with the given count. */
  predicate GivesWay(existing: AddrInfo, refCount: int, now: int) {
    IsTerrible(existing, now) || (existing.refCount > 1 && refCount == 0)
  }

  /** An entry that may take one more slot of the new table. */
  ghost predicate Admissible(s: State, id: int) {
    Partial(s, {id}, 0) && id in s.info && !s.info[id].tried && s.info[id].refCount < NEW_BUCKETS_PER_ADDRESS
  }

  lemma AdmitWellFormed(s: State, id: int, sl: Slot)
    requires Admissible(s, id) && !(sl in s.newSlots && s.newSlots[sl] == id)
    ensures sl in s.newSlots ==> s.newSlots[sl] in s.info && Indexed(s, s.newSlots[sl])
    ensures Survives(s.info, ClearNew(s, sl).info, id)
    ensures s.info[id].refCount == 0 ==> Indexed(s, id)
  {
    ClearNewKeeps(s, sl, {id}, 0);
    ClearNewSpares(s, sl, id);
    if s.info[id].refCount == 0 {
      DeleteKeeps(s, id, {id}, 0);
    }
  }

  /** Put an entry in the slot of the new table that its source gives it, if the occupant gives way. */
  function Admit(s: State, id: int, src: NetAddr, now: int): State
    requires Admissible(s, id)
  {
    var i := s.info[id];
    var sl := NewSlot(s.place, i.service, src);
    if sl in s.newSlots && s.newSlots[sl] == id then s else
    AdmitWellFormed(s, id, sl);
    if sl !in s.newSlots || GivesWay(s.info[s.newSlots[sl]], i.refCount, now) then
      var t := ClearNew(s, sl);
      PlaceNew(t, id, sl, t.info[id].refCount + 1)
    else if i.refCount == 0 then Delete(s, id)
    else s
  }

  lemma AdmitKeeps(s: State, id: int, src: NetAddr, now: int)
    requires Admissible(s, id)
    ensures Inv(Admit(s, id, src, now))
    ensures Unique(s.addr, s.info) ==> Unique(Admit(s, id, src, now).addr, Admit(s, id, src, now).info)
  {
    hide Partial;
    var i := s.info[id];
    var sl := NewSlot(s.place, i.service, src);
    if sl in s.newSlots && s.newSlots[sl] == id {
      SlotHolder(s, sl, {id}, 0);
      OutOfLimbo(s, id);
    } else {
      AdmitWellFormed(s, id, sl);
      if sl !in s.newSlots || GivesWay(s.info[s.newSlots[sl]], i.refCount, now) {
        ClearNewKeeps(s, sl, {id}, 0);
        var t := ClearNew(s, sl);
        PlaceKeeps(t, id, sl, t.info[id].refCount + 1, {id}, 0);
        assert {id} - {id} == {};
      } else if i.refCount == 0 {
        DeleteKeeps(s, id, {id}, 0);
        assert {id} - {id} == {};
      } else {
        OutOfLimbo(s, id);
      }
    }
  }

  lemma OutOfLimbo(s: State, id: int)
    requires Partial(s, {id}, 0) && id in s.info && s.info[id].refCount != 0
    ensures Inv(s)
  {
  }

  lemma RefsBounded(s: State, id: int)
    requires Inv(s) && id in s.info && !s.info[id].tried
    ensures 1 <= s.info[id].refCount <= NEW_BUCKETS_PER_ADDRESS
  {
  }

  /** A known address that passes the tests gets another slot. */
  function AddKnown(s: State, id: int, a: Address, src: NetAddr, penalty: int, now: int, draw: nat): State
    requires Inv(s) && id in s.info
  {
    var i := Heard(s.info[id], a, penalty, now);
    StatsKeep(s, id, i, {}, 0);
    var t := s.(info := s.info[id := i]);
    if Declined(i, a, draw) then t else
    RefsBounded(s, id);
    LimboGrows(t, {}, {id}, 0);
    Admit(t, id, src, now)
  }

  lemma AddKnownKeeps(s: State, id: int, a: Address, src: NetAddr, penalty: int, now: int, draw: nat)
    requires Inv(s) && id in s.info
    ensures var t := AddKnown(s, id, a, src, penalty, now, draw);
      Inv(t) && (Unique(s.addr, s.info) ==> Unique(t.addr, t.info))
  {
    hide Partial;
    var i := Heard(s.info[id], a, penalty, now);
    StatsKeep(s, id, i, {}, 0);
    var t := s.(info := s.info[id := i]);
    if !Declined(i, a, draw) {
      RefsBounded(s, id);
      LimboGrows(t, {}, {id}, 0);
      AdmitKeeps(t, id, src, now);
    }
  }

  /** The entry made for an unknown address, before it has a slot. */
  function Newcomer(s: State, a: Address, src: NetAddr, penalty: int): State {
    var t := Create(s, a, src);
    var i := t.info[s.idCount];
    t.(info := t.info[s.idCount := i.(time := Max(0, i.time - penalty) % UINT32)], nNew := t.nNew + 1)
  }

  lemma NewcomerAdmissible(s: State, a: Address, src: NetAddr, penalty: int)
    requires Inv(s)
    ensures Admissible(Newcomer(s, a, src, penalty), s.idCount)
    ensures Unique(s.addr, s.info) && a.service.net !in s.addr ==>
              Unique(Newcomer(s, a, src, penalty).addr, Newcomer(s, a, src, penalty).info)
  {
    hide Partial;
    CreateKeeps(s, a, src, {}, 0);
    assert {} + {s.idCount} == {s.idCount};
    var t := Create(s, a, src);
    var id := s.idCount;
    var j := t.info[id].(time := Max(0, t.info[id].time - penalty) % UINT32);
    StatsKeep(t, id, j, {id}, 1);
    CountedUp(t.(info := t.info[id := j]), {id}, 1, 1);
  }

  /** Add_: the new state, and whether the address was new. */
  function Add(s: State, a: Address, routable: bool, src: NetAddr, penalty: int, now: int, draw: nat): (State, bool)
    requires Inv(s)
  {
    if !routable then (s, false) else
    match Find(s, a.service.net)
    case Some(id) => (AddKnown(s, id, a, src, penalty, now, draw), false)
    case None =>
      NewcomerAdmissible(s, a, src, penalty);
      (Admit(Newcomer(s, a, src, penalty), s.idCount, src, now), true)
  }

  lemma AddKeeps(s: State, a: Address, routable: bool, src: NetAddr, penalty: int, now: int, draw: nat)
    requires Inv(s)
    ensures var t := Add(s, a, routable, src, penalty, now, draw).0;
      Inv(t) && (Unique(s.addr, s.info) ==> Unique(t.addr, t.info))
  {
    hide Partial;
    if routable {
      match Find(s, a.service.net)
      case Some(id) => AddKnownKeeps(s, id, a, src, penalty, now, draw);
      case None =>
        FindSound(s, a.service.net);
        NewcomerAdmissible(s, a, src, penalty);
        AdmitKeeps(Newcomer(s, a, src, penalty), s.idCount, src, now);
    }
  }

  // ----- drawing addresses to share -----

  /** How many addresses a peer is given at most. */
  function ShareLimit(s: State): nat {
    var n := GETADDR_MAX_PCT * |s.random| / 100;
    if n > GETADDR_MAX then GETADDR_MAX else n
  }

  /** A draw below size - n, counted from n. */
  function Pick(draw: nat, n: nat, size: nat): (pos: nat)
    requires n < size
    ensures n <= pos < size
  {
    draw % (size - n) + n
  }

  /** GetAddr_ from position n on: shuffle an entry into place n and share it unless it is terrible. */
  function GetAddrFrom(s: State, n: nat, shared: seq<int>, limit: nat, now: int, draws: nat -> nat): (State, seq<int>)
    requires Inv(s) && n <= |s.random|
    decreases |s.random| - n
  {
    if n == |s.random| || |shared| >= limit then (s, shared) else
    var pos := Pick(draws(n), n, |s.random|);
    SwapKeeps(s, n, pos, {}, 0);
    var t := SwapRandom(s, n, pos);
    var id := t.random[n];
    assert id in t.info;
    GetAddrFrom(t, n + 1, if IsTerrible(t.info[id], now) then shared else shared + [id], limit, now, draws)
  }

  function GetAddr(s: State, now: int, draws: nat -> nat): (State, seq<int>)
    requires Inv(s)
  {
    GetAddrFrom(s, 0, [], ShareLimit(s), now, draws)
  }

  /** The entries shared so far: alive, not terrible, and settled below place n in the order shared. */
  ghost predicate Shared(s: State, n: nat, shared: seq<int>, now: int) {
    && (forall k :: 0 <= k < |shared| ==>
          shared[k] in s.info && s.info[shared[k]].randomPos < n && !IsTerrible(s.info[shared[k]], now))
    && (forall j, k :: 0 <= j < k < |shared| ==> s.info[shared[j]].randomPos < s.info[shared[k]].randomPos)
  }

  lemma SharedStep(s: State, n: nat, pos: int, shared: seq<int>, now: int)
    requires Inv(s) && n <= pos < |s.random| && Shared(s, n, shared, now)
    ensures Indexes(s, n) && Indexes(s, pos)
    ensures var t := SwapRandom(s, n, pos);
      && t.random[n] in t.info
      && Shared(t, n + 1, if IsTerrible(t.info[t.random[n]], now) then shared else shared + [t.random[n]], now)
  {
    hide IsTerrible, A2, A3, TriedPlaced, Counted, Linked;
    var id1, id2 := s.random[n], s.random[pos];
    assert id1 in s.info && id2 in s.info;
    var t := SwapRandom(s, n, pos);
    assert t.random[n] == id2 && t.info[id2].randomPos == n;
    forall k | 0 <= k < |shared|
      ensures shared[k] in t.info && t.info[shared[k]] == s.info[shared[k]]
    {
      var id := shared[k];
      assert id in s.info && id != id1 && id != id2;
    }
    SharedOneMore(t, n, shared, now, id2);
  }

  lemma SharedOneMore(t: State, n: nat, shared: seq<int>, now: int, id: int)
    requires Shared(t, n, shared, now) && id in t.info && t.info[id].randomPos == n
    ensures Shared(t, n + 1, if IsTerrible(t.info[id], now) then shared else shared + [id], now)
  {
    hide IsTerrible;
  }

  /** Sharing keeps the tables; what is shared is alive, not terrible, without repetition and within the limit. */
  lemma {:induction false} GetAddrFromKeeps(s: State, n: nat, shared: seq<int>, limit: nat, now: int, draws: nat -> nat)
    requires Inv(s) && n <= |s.random| && |shared| <= limit && Shared(s, n, shared, now)
    ensures var (t, out) := GetAddrFrom(s, n, shared, limit, now, draws);
      && Inv(t)
      && (Unique(s.addr, s.info) ==> Unique(t.addr, t.info))
      && |out| <= limit
      && Shared(t, |t.random|, out, now)
      && t.newSlots == s.newSlots && t.triedSlots == s.triedSlots && |t.random| == |s.random|
    decreases |s.random| - n
  {
    hide Partial, Shared, Unique, IsTerrible, Pick;
    if n < |s.random| && |shared| < limit {
      var pos := Pick(draws(n), n, |s.random|);
      SharedStep(s, n, pos, shared, now);
      SwapKeeps(s, n, pos, {}, 0);
      var t := SwapRandom(s, n, pos);
      var id := t.random[n];
      var more := if IsTerrible(t.info[id], now) then shared else shared + [id];
      GetAddrFromKeeps(t, n + 1, more, limit, now, draws);
    } else {
      SharedGrows(s, n, |s.random|, shared, now);
    }
  }

  lemma SharedGrows(s: State, n: nat, m: nat, shared: seq<int>, now: int)
    requires n <= m && Shared(s, n, shared, now)
    ensures Shared(s, m, shared, now)
  {
  }

  lemma GetAddrKeeps(s: State, now: int, draws: nat -> nat)
    requires Inv(s)
    ensures var (t, out) := GetAddr(s, now, draws);
      && Inv(t)
      && (Unique(s.addr, s.info) ==> Unique(t.addr, t.info))
      && |out| <= GETADDR_MAX && 100 * |out| <= GETADDR_MAX_PCT * |s.random|
      && (forall k :: 0 <= k < |out| ==> out[k] in t.info && !IsTerrible(t.info[out[k]], now))
      && (forall j, k :: 0 <= j < k < |out| ==> out[j] != out[k])
  {
    GetAddrFromKeeps(s, 0, [], ShareLimit(s), now, draws);
  }
}
