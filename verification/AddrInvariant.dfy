/**
The invariants of the address tables, and what each primitive step does to them.

Between steps of one operation an entry may be in limbo: known, untried and in no
slot. A run of an operation is followed by the set of ids that may be in limbo
and by the number of untried entries that the counter nNew leaves out.
*/
module AddrInvariant {
  import opened AddrState

  // ----- the invariants -----

  /** A1: random lists the ids, and each entry knows its place there. */
  ghost predicate A1(random: seq<int>, info: Entries) {
    && (forall i :: 0 <= i < |random| ==> random[i] in info && info[random[i]].randomPos == i)
    && (forall id :: id in info ==> 0 <= info[id].randomPos < |random| && random[info[id].randomPos] == id)
  }

  function Holders(m: Table, id: int): set<Slot> {
    set sl | sl in m && m[sl] == id
  }

  /** A2 for untried entries: the count is the number of slots held, 1 to 8 outside limbo. A tried entry counts 0. */
  ghost predicate A2(slots: Table, info: Entries, limbo: set<int>) {
    forall id :: id in info ==>
      && info[id].refCount == (if info[id].tried then 0 else |Holders(slots, id)|)
      && info[id].refCount <= NEW_BUCKETS_PER_ADDRESS
      && (info[id].refCount == 0 && !info[id].tried ==> id in limbo)
  }

  /** A3: a slot of the new table holds an untried entry, at the entry's own position. */
  ghost predicate A3(p: Place, slots: Table, info: Entries) {
    forall sl :: sl in slots ==>
      && 0 <= sl.bucket < NEW_BUCKET_COUNT
      && slots[sl] in info
      && !info[slots[sl]].tried
      && sl == SlotIn(p, info[slots[sl]].service, sl.bucket)
  }

  /** A2 for tried entries: each sits in its own slot, and a slot holds nothing else. */
  ghost predicate TriedPlaced(p: Place, slots: Table, info: Entries) {
    && (forall sl :: sl in slots ==>
          slots[sl] in info && info[slots[sl]].tried && sl == TriedSlot(p, info[slots[sl]].service))
    && (forall id :: id in info && info[id].tried ==>
          TriedSlot(p, info[id].service) in slots && slots[TriedSlot(p, info[id].service)] == id)
  }

  function NewIds(info: Entries): set<int> {
    set id | id in info && !info[id].tried
  }

  function TriedIds(info: Entries): set<int> {
    set id | id in info && info[id].tried
  }

  ghost predicate Counted(info: Entries, nNew: int, nTried: int, uncounted: int) {
    && nNew == |NewIds(info)| - uncounted
    && nTried == |TriedIds(info)|
  }

  /** An address leads to a live entry with that address, and ids were handed out. */
  ghost predicate Linked(addr: map<NetAddr, int>, info: Entries, idCount: int) {
    && (forall a :: a in addr ==> addr[a] in info && info[addr[a]].service.net == a)
    && (forall id :: id in info ==> 0 <= id < idCount)
    && 0 <= idCount
  }

  ghost predicate Partial(s: State, limbo: set<int>, uncounted: int) {
    && A1(s.random, s.info)
    && A2(s.newSlots, s.info, limbo)
    && A3(s.place, s.newSlots, s.info)
    && TriedPlaced(s.place, s.triedSlots, s.info)
    && Counted(s.info, s.nNew, s.nTried, uncounted)
    && Linked(s.addr, s.info, s.idCount)
  }

  /** What holds between operations. */
  ghost predicate Inv(s: State) {
    Partial(s, {}, 0)
  }

  /** The other direction of the address link: no two entries share an address. */
  ghost predicate Unique(addr: map<NetAddr, int>, info: Entries) {
    forall id :: id in info ==> info[id].service.net in addr && addr[info[id].service.net] == id
  }

  // ----- what each invariant depends on -----

  /** The same ids at the same addresses. */
  ghost predicate SameIds(info: Entries, info': Entries) {
    && (forall id :: id in info' <==> id in info)
    && (forall id :: id in info ==> info'[id].service == info[id].service)
  }

  ghost predicate SameRandom(info: Entries, info': Entries) {
    SameIds(info, info') && forall id :: id in info ==> info'[id].randomPos == info[id].randomPos
  }

  ghost predicate SameRefs(info: Entries, info': Entries) {
    SameIds(info, info') && forall id :: id in info ==> info'[id].refCount == info[id].refCount
  }

  ghost predicate SameTried(info: Entries, info': Entries) {
    SameIds(info, info') && forall id :: id in info ==> info'[id].tried == info[id].tried
  }

  lemma FrameA1(random: seq<int>, info: Entries, info': Entries)
    requires A1(random, info) && SameRandom(info, info')
    ensures A1(random, info')
  {
    forall i | 0 <= i < |random|
      ensures random[i] in info' && info'[random[i]].randomPos == i
    {
      var id := random[i];
      assert id in info;
    }
  }

  lemma FrameA2(slots: Table, info: Entries, info': Entries, limbo: set<int>)
    requires A2(slots, info, limbo) && SameRefs(info, info') && SameTried(info, info')
    ensures A2(slots, info', limbo)
  {
  }

  lemma FrameA3(p: Place, slots: Table, info: Entries, info': Entries)
    requires A3(p, slots, info) && SameTried(info, info')
    ensures A3(p, slots, info')
  {
    forall sl | sl in slots
      ensures slots[sl] in info' && info'[slots[sl]].tried == info[slots[sl]].tried
      ensures info'[slots[sl]].service == info[slots[sl]].service
    {
      var id := slots[sl];
      assert id in info;
    }
  }

  lemma FrameTried(p: Place, slots: Table, info: Entries, info': Entries)
    requires TriedPlaced(p, slots, info) && SameTried(info, info')
    ensures TriedPlaced(p, slots, info')
  {
    forall sl | sl in slots
      ensures slots[sl] in info' && info'[slots[sl]].tried == info[slots[sl]].tried
      ensures info'[slots[sl]].service == info[slots[sl]].service
    {
      var id := slots[sl];
      assert id in info;
    }
  }

  lemma FrameCounted(info: Entries, info': Entries)
    requires SameTried(info, info')
    ensures NewIds(info') == NewIds(info) && TriedIds(info') == TriedIds(info)
  {
    assert forall id :: id in NewIds(info') <==> id in NewIds(info);
    assert forall id :: id in TriedIds(info') <==> id in TriedIds(info);
  }

  lemma FrameLinked(addr: map<NetAddr, int>, info: Entries, info': Entries, idCount: int)
    requires Linked(addr, info, idCount) && SameIds(info, info')
    ensures Linked(addr, info', idCount)
    ensures Unique(addr, info) ==> Unique(addr, info')
  {
    forall a | a in addr
      ensures addr[a] in info' && info'[addr[a]].service == info[addr[a]].service
    {
      var id := addr[a];
      assert id in info;
    }
  }

  /** Changing entries in ways the invariants do not speak of keeps them. */
  lemma FrameAll(s: State, info': Entries, limbo: set<int>, uncounted: int)
    requires Partial(s, limbo, uncounted)
    requires SameRandom(s.info, info') && SameRefs(s.info, info') && SameTried(s.info, info')
    ensures Partial(s.(info := info'), limbo, uncounted)
    ensures Unique(s.addr, s.info) ==> Unique(s.addr, info')
  {
    FrameA1(s.random, s.info, info');
    FrameA2(s.newSlots, s.info, info', limbo);
    FrameA3(s.place, s.newSlots, s.info, info');
    FrameTried(s.place, s.triedSlots, s.info, info');
    FrameCounted(s.info, info');
    FrameLinked(s.addr, s.info, info', s.idCount);
  }

  // ----- counting slots -----

  lemma HoldersWithout(m: Table, sl: Slot, id: int)
    requires sl in m
    ensures |Holders(m - {sl}, id)| == |Holders(m, id)| - (if m[sl] == id then 1 else 0)
  {
    assert m[sl] == id ==> sl in Holders(m, id);
    assert forall x :: x in Holders(m - {sl}, id) <==> x in Holders(m, id) - {sl};
    assert Holders(m - {sl}, id) == Holders(m, id) - {sl};
  }

  lemma HoldersWith(m: Table, sl: Slot, to: int, id: int)
    requires sl !in m
    ensures |Holders(m[sl := to], id)| == |Holders(m, id)| + (if to == id then 1 else 0)
  {
    var more := if to == id then {sl} else {};
    assert forall x :: x in Holders(m[sl := to], id) <==> x in Holders(m, id) + more;
    assert Holders(m[sl := to], id) == Holders(m, id) + more;
  }

  lemma NoHolders(slots: Table, info: Entries, id: int, limbo: set<int>)
    requires A2(slots, info, limbo) && id in info && !info[id].tried && info[id].refCount == 0
    ensures forall sl :: sl in slots ==> slots[sl] != id
  {
    forall sl | sl in slots
      ensures slots[sl] != id
    {
      assert sl !in Holders(slots, id);
    }
  }

  // ----- creating an entry -----

  /** A fresh entry is in limbo, and nNew does not count it yet. */
  lemma CreateKeeps(s: State, a: Address, src: NetAddr, limbo: set<int>, uncounted: int)
    requires Partial(s, limbo, uncounted)
    ensures Partial(Create(s, a, src), limbo + {s.idCount}, uncounted + 1)
    ensures Unique(s.addr, s.info) && a.service.net !in s.addr ==>
              Unique(Create(s, a, src).addr, Create(s, a, src).info)
  {
    var i := Fresh(a, src, |s.random|);
    CreateA1(s.random, s.info, s.idCount, i);
    CreateA2(s, s.idCount, i, limbo);
    CreateSlots(s, s.idCount, i);
    CreateCounts(s.info, s.idCount, i);
    CreateLinks(s.addr, s.info, s.idCount, i);
  }

  lemma CreateA1(random: seq<int>, info: Entries, id: int, i: AddrInfo)
    requires A1(random, info) && id !in info && i.randomPos == |random|
    ensures A1(random + [id], info[id := i])
  {
  }

  lemma CreateA2(s: State, id: int, i: AddrInfo, limbo: set<int>)
    requires A2(s.newSlots, s.info, limbo) && A3(s.place, s.newSlots, s.info)
    requires id !in s.info && !i.tried && i.refCount == 0
    ensures A2(s.newSlots, s.info[id := i], limbo + {id})
  {
    assert forall sl :: sl !in Holders(s.newSlots, id);
    assert Holders(s.newSlots, id) == {};
  }

  lemma CreateSlots(s: State, id: int, i: AddrInfo)
    requires A3(s.place, s.newSlots, s.info) && TriedPlaced(s.place, s.triedSlots, s.info)
    requires id !in s.info && !i.tried
    ensures A3(s.place, s.newSlots, s.info[id := i])
    ensures TriedPlaced(s.place, s.triedSlots, s.info[id := i])
  {
  }

  lemma CreateCounts(info: Entries, id: int, i: AddrInfo)
    requires id !in info && !i.tried
    ensures |NewIds(info[id := i])| == |NewIds(info)| + 1
    ensures TriedIds(info[id := i]) == TriedIds(info)
  {
    assert forall x :: x in NewIds(info[id := i]) <==> x in NewIds(info) + {id};
    assert NewIds(info[id := i]) == NewIds(info) + {id};
    assert forall x :: x in TriedIds(info[id := i]) <==> x in TriedIds(info);
  }

  lemma CreateLinks(addr: map<NetAddr, int>, info: Entries, id: int, i: AddrInfo)
    requires Linked(addr, info, id)
    ensures id !in info
    ensures Linked(addr[i.service.net := id], info[id := i], id + 1)
    ensures Unique(addr, info) && i.service.net !in addr ==> Unique(addr[i.service.net := id], info[id := i])
  {
  }

  // ----- deleting an entry -----

  lemma SwapKeeps(s: State, pos1: int, pos2: int, limbo: set<int>, uncounted: int)
    requires Partial(s, limbo, uncounted)
    requires 0 <= pos1 < |s.random| && 0 <= pos2 < |s.random|
    ensures Indexes(s, pos1) && Indexes(s, pos2)
    ensures var t := SwapRandom(s, pos1, pos2);
      && Partial(t, limbo, uncounted)
      && SameIds(s.info, t.info)
      && SameTried(s.info, t.info)
      && SameRefs(s.info, t.info)
      && |t.random| == |s.random| && t.random[pos2] == s.random[pos1]
      && (Unique(s.addr, s.info) ==> Unique(t.addr, t.info))
  {
    var id1, id2 := s.random[pos1], s.random[pos2];
    if pos1 != pos2 {
      var info' := Repositioned(s.info, id1, pos1, id2, pos2);
      assert SameTried(s.info, info') && SameRefs(s.info, info') by { RepositionedSame(s.info, id1, pos1, id2, pos2); }
      SwapA1(s.random, s.info, pos1, pos2);
      FrameA2(s.newSlots, s.info, info', limbo);
      FrameA3(s.place, s.newSlots, s.info, info');
      FrameTried(s.place, s.triedSlots, s.info, info');
      FrameCounted(s.info, info');
      FrameLinked(s.addr, s.info, info', s.idCount);
    }
  }

  lemma RepositionedSame(info: Entries, id1: int, pos1: int, id2: int, pos2: int)
    requires id1 in info && id2 in info
    ensures SameTried(info, Repositioned(info, id1, pos1, id2, pos2))
    ensures SameRefs(info, Repositioned(info, id1, pos1, id2, pos2))
  {
  }

  lemma SwapA1(random: seq<int>, info: Entries, pos1: int, pos2: int)
    requires A1(random, info)
    requires 0 <= pos1 < |random| && 0 <= pos2 < |random| && pos1 != pos2
    ensures A1(random[pos1 := random[pos2]][pos2 := random[pos1]],
               Repositioned(info, random[pos1], pos1, random[pos2], pos2))
  {
    assert random[pos1] != random[pos2];
  }

  /** Deleting an entry that no slot holds keeps the invariants. */
  lemma DeleteKeeps(s: State, id: int, limbo: set<int>, uncounted: int)
    requires Partial(s, limbo, uncounted) && id in s.info
    requires !s.info[id].tried && s.info[id].refCount == 0
    ensures Indexed(s, id)
    ensures Partial(Delete(s, id), limbo - {id}, uncounted)
    ensures Unique(s.addr, s.info) ==> Unique(Delete(s, id).addr, Delete(s, id).info)
  {
    hide Partial, Unique;
    EntryIndexed(s, id, limbo, uncounted);
    var pos, last := s.info[id].randomPos, |s.random| - 1;
    SwapKeeps(s, pos, last, limbo, uncounted);
    DropLastKeeps(SwapRandom(s, pos, last), id, limbo, uncounted);
  }

  lemma EntryIndexed(s: State, id: int, limbo: set<int>, uncounted: int)
    requires Partial(s, limbo, uncounted) && id in s.info
    ensures Indexed(s, id) && s.random[s.info[id].randomPos] == id
  {
    var pos := s.info[id].randomPos;
    assert s.random[pos] == id;
  }

  lemma DropLastKeeps(s: State, id: int, limbo: set<int>, uncounted: int)
    requires Partial(s, limbo, uncounted) && id in s.info
    requires !s.info[id].tried && s.info[id].refCount == 0
    requires |s.random| > 0 && s.random[|s.random| - 1] == id
    ensures Partial(DropLast(s, id), limbo - {id}, uncounted)
    ensures Unique(s.addr, s.info) ==> Unique(DropLast(s, id).addr, DropLast(s, id).info)
  {
    NoHolders(s.newSlots, s.info, id, limbo);
    DropLastA1(s.random, s.info, id);
    DropLastNew(s.place, s.newSlots, s.info, id, limbo);
    DropLastTried(s.place, s.triedSlots, s.info, id);
    DropLastCounts(s.info, id);
    DropLastLinks(s.addr, s.info, s.idCount, id);
  }

  lemma DropLastA1(random: seq<int>, info: Entries, id: int)
    requires A1(random, info) && id in info && |random| > 0 && random[|random| - 1] == id
    ensures A1(random[..|random| - 1], info - {id})
  {
  }

  lemma DropLastNew(p: Place, slots: Table, info: Entries, id: int, limbo: set<int>)
    requires A2(slots, info, limbo) && A3(p, slots, info)
    requires id in info && forall sl :: sl in slots ==> slots[sl] != id
    ensures A2(slots, info - {id}, limbo - {id}) && A3(p, slots, info - {id})
  {
    hide SlotIn;
  }

  lemma DropLastTried(p: Place, slots: Table, info: Entries, id: int)
    requires TriedPlaced(p, slots, info) && id in info && !info[id].tried
    ensures TriedPlaced(p, slots, info - {id})
  {
    hide TriedSlot;
  }

  lemma DropLastCounts(info: Entries, id: int)
    requires id in info && !info[id].tried
    ensures |NewIds(info - {id})| == |NewIds(info)| - 1
    ensures TriedIds(info - {id}) == TriedIds(info)
  {
    assert forall x :: x in NewIds(info - {id}) <==> x in NewIds(info) - {id};
    assert NewIds(info - {id}) == NewIds(info) - {id};
    assert forall x :: x in TriedIds(info - {id}) <==> x in TriedIds(info);
  }

  lemma DropLastLinks(addr: map<NetAddr, int>, info: Entries, idCount: int, id: int)
    requires Linked(addr, info, idCount) && id in info
    ensures Linked(addr - {info[id].service.net}, info - {id}, idCount)
    ensures Unique(addr, info) ==> Unique(addr - {info[id].service.net}, info - {id})
  {
  }

  // ----- slots of the new table -----

  lemma RefsFrame(info: Entries, id: int, refs: int)
    requires id in info
    ensures SameRandom(info, WithRefs(info, id, refs)) && SameTried(info, WithRefs(info, id, refs))
  {
  }

  /** Emptying a slot may leave its entry in limbo. */
  lemma DropSlotKeeps(s: State, sl: Slot, limbo: set<int>, uncounted: int)
    requires Partial(s, limbo, uncounted) && sl in s.newSlots
    ensures s.newSlots[sl] in s.info
    ensures Partial(DropSlot(s, sl), limbo + {s.newSlots[sl]}, uncounted)
    ensures DropSlot(s, sl).info[s.newSlots[sl]].refCount != 0 ==> Partial(DropSlot(s, sl), limbo, uncounted)
    ensures SameTried(s.info, DropSlot(s, sl).info)
    ensures Unique(s.addr, s.info) ==> Unique(s.addr, DropSlot(s, sl).info)
  {
    var id := s.newSlots[sl];
    assert id in s.info;
    var info' := WithRefs(s.info, id, s.info[id].refCount - 1);
    RefsFrame(s.info, id, s.info[id].refCount - 1);
    FrameA1(s.random, s.info, info');
    DropSlotA2(s.newSlots, s.info, sl, limbo);
    DropSlotA3(s.place, s.newSlots, s.info, info', sl);
    FrameTried(s.place, s.triedSlots, s.info, info');
    FrameCounted(s.info, info');
    FrameLinked(s.addr, s.info, info', s.idCount);
  }

  lemma DropSlotA2(slots: Table, info: Entries, sl: Slot, limbo: set<int>)
    requires A2(slots, info, limbo) && sl in slots && slots[sl] in info && !info[slots[sl]].tried
    ensures var info' := WithRefs(info, slots[sl], info[slots[sl]].refCount - 1);
      && A2(slots - {sl}, info', limbo + {slots[sl]})
      && (info'[slots[sl]].refCount != 0 ==> A2(slots - {sl}, info', limbo))
  {
    var id := slots[sl];
    forall x | x in info
      ensures |Holders(slots - {sl}, x)| == |Holders(slots, x)| - (if x == id then 1 else 0)
    {
      HoldersWithout(slots, sl, x);
    }
  }

  lemma DropSlotA3(p: Place, slots: Table, info: Entries, info': Entries, sl: Slot)
    requires A3(p, slots, info) && SameTried(info, info')
    ensures A3(p, slots - {sl}, info')
  {
    FrameA3(p, slots, info, info');
  }

  /** Filling an empty slot with an entry at its own position takes the entry out of limbo. */
  lemma PlaceKeeps(s: State, id: int, sl: Slot, refs: int, limbo: set<int>, uncounted: int)
    requires Partial(s, limbo, uncounted) && id in s.info && !s.info[id].tried
    requires sl !in s.newSlots && 0 <= sl.bucket < NEW_BUCKET_COUNT
    requires sl == SlotIn(s.place, s.info[id].service, sl.bucket)
    requires refs == s.info[id].refCount + 1 <= NEW_BUCKETS_PER_ADDRESS
    ensures Partial(PlaceNew(s, id, sl, refs), limbo - {id}, uncounted)
    ensures Unique(s.addr, s.info) ==> Unique(s.addr, PlaceNew(s, id, sl, refs).info)
  {
    var info' := WithRefs(s.info, id, refs);
    RefsFrame(s.info, id, refs);
    FrameA1(s.random, s.info, info');
    PlaceA2(s.newSlots, s.info, id, sl, limbo);
    FrameA3(s.place, s.newSlots, s.info, info');
    PlaceA3(s.place, s.newSlots, info', id, sl);
    FrameTried(s.place, s.triedSlots, s.info, info');
    FrameCounted(s.info, info');
    FrameLinked(s.addr, s.info, info', s.idCount);
  }

  lemma PlaceA2(slots: Table, info: Entries, id: int, sl: Slot, limbo: set<int>)
    requires A2(slots, info, limbo) && sl !in slots && id in info && !info[id].tried
    requires info[id].refCount < NEW_BUCKETS_PER_ADDRESS
    ensures A2(slots[sl := id], WithRefs(info, id, info[id].refCount + 1), limbo - {id})
  {
    forall x | x in info
      ensures |Holders(slots[sl := id], x)| == |Holders(slots, x)| + (if x == id then 1 else 0)
    {
      HoldersWith(slots, sl, id, x);
    }
  }

  lemma PlaceA3(p: Place, slots: Table, info: Entries, id: int, sl: Slot)
    requires A3(p, slots, info) && id in info && !info[id].tried
    requires 0 <= sl.bucket < NEW_BUCKET_COUNT && sl == SlotIn(p, info[id].service, sl.bucket)
    ensures A3(p, slots[sl := id], info)
  {
  }

  // ----- slots of the tried table -----

  lemma TriedFrame(info: Entries, id: int, tried: bool)
    requires id in info
    ensures SameRandom(info, WithTried(info, id, tried)) && SameRefs(info, WithTried(info, id, tried))
  {
  }

  /** A demoted entry is in limbo, and nNew does not count it. */
  lemma DemoteKeeps(s: State, sl: Slot, limbo: set<int>, uncounted: int)
    requires Partial(s, limbo, uncounted) && sl in s.triedSlots
    ensures s.triedSlots[sl] in s.info
    ensures Partial(Demote(s, sl), limbo + {s.triedSlots[sl]}, uncounted + 1)
    ensures Unique(s.addr, s.info) ==> Unique(s.addr, Demote(s, sl).info)
  {
    var id := s.triedSlots[sl];
    assert id in s.info;
    var info' := WithTried(s.info, id, false);
    TriedFrame(s.info, id, false);
    FrameA1(s.random, s.info, info');
    FrameLinked(s.addr, s.info, info', s.idCount);
    DemoteA2(s.place, s.newSlots, s.info, id, limbo);
    DemoteTried(s.place, s.triedSlots, s.info, sl);
    DemoteCounts(s.info, id);
  }

  lemma DemoteA2(p: Place, slots: Table, info: Entries, id: int, limbo: set<int>)
    requires A2(slots, info, limbo) && A3(p, slots, info) && id in info && info[id].tried
    ensures A2(slots, WithTried(info, id, false), limbo + {id})
    ensures A3(p, slots, WithTried(info, id, false))
  {
    assert forall sl :: sl !in Holders(slots, id);
    assert Holders(slots, id) == {};
  }

  lemma DemoteTried(p: Place, slots: Table, info: Entries, sl: Slot)
    requires TriedPlaced(p, slots, info) && sl in slots && slots[sl] in info
    ensures TriedPlaced(p, slots - {sl}, WithTried(info, slots[sl], false))
  {
    var id := slots[sl];
    var info' := WithTried(info, id, false);
    forall x | x in slots - {sl}
      ensures slots[x] in info' && info'[slots[x]].tried && x == TriedSlot(p, info'[slots[x]].service)
    {
      var other := slots[x];
      assert other in info && x == TriedSlot(p, info[other].service) && other != id;
    }
  }

  lemma DemoteCounts(info: Entries, id: int)
    requires id in info && info[id].tried
    ensures |NewIds(WithTried(info, id, false))| == |NewIds(info)| + 1
    ensures |TriedIds(WithTried(info, id, false))| == |TriedIds(info)| - 1
  {
    var info' := WithTried(info, id, false);
    assert forall x :: x in NewIds(info') <==> x in NewIds(info) + {id};
    assert NewIds(info') == NewIds(info) + {id};
    assert forall x :: x in TriedIds(info') <==> x in TriedIds(info) - {id};
    assert TriedIds(info') == TriedIds(info) - {id};
  }

  /** Promoting an uncounted entry in limbo into its empty tried slot settles it. */
  lemma PromoteKeeps(s: State, id: int, limbo: set<int>, uncounted: int)
    requires Partial(s, limbo, uncounted) && id in s.info && !s.info[id].tried && s.info[id].refCount == 0
    requires TriedSlot(s.place, s.info[id].service) !in s.triedSlots
    ensures Partial(Promote(s, id, TriedSlot(s.place, s.info[id].service)), limbo - {id}, uncounted - 1)
    ensures Unique(s.addr, s.info) ==>
              Unique(s.addr, Promote(s, id, TriedSlot(s.place, s.info[id].service)).info)
  {
    var info' := WithTried(s.info, id, true);
    TriedFrame(s.info, id, true);
    NoHolders(s.newSlots, s.info, id, limbo);
    FrameA1(s.random, s.info, info');
    FrameLinked(s.addr, s.info, info', s.idCount);
    PromoteNew(s.place, s.newSlots, s.info, id, limbo);
    PromoteTried(s.place, s.triedSlots, s.info, id);
    PromoteCounts(s.info, id);
  }

  lemma PromoteNew(p: Place, slots: Table, info: Entries, id: int, limbo: set<int>)
    requires A2(slots, info, limbo) && A3(p, slots, info) && id in info && !info[id].tried && info[id].refCount == 0
    requires forall sl :: sl in slots ==> slots[sl] != id
    ensures A2(slots, WithTried(info, id, true), limbo - {id}) && A3(p, slots, WithTried(info, id, true))
  {
  }

  lemma PromoteTried(p: Place, slots: Table, info: Entries, id: int)
    requires TriedPlaced(p, slots, info) && id in info && !info[id].tried
    requires TriedSlot(p, info[id].service) !in slots
    ensures TriedPlaced(p, slots[TriedSlot(p, info[id].service) := id], WithTried(info, id, true))
  {
    var mine := TriedSlot(p, info[id].service);
    var info', slots' := WithTried(info, id, true), slots[mine := id];
    forall x | x in slots'
      ensures slots'[x] in info' && info'[slots'[x]].tried && x == TriedSlot(p, info'[slots'[x]].service)
    {
      if x != mine {
        var other := slots[x];
        assert other in info && x == TriedSlot(p, info[other].service) && other != id;
      }
    }
  }

  lemma PromoteCounts(info: Entries, id: int)
    requires id in info && !info[id].tried
    ensures |NewIds(WithTried(info, id, true))| == |NewIds(info)| - 1
    ensures |TriedIds(WithTried(info, id, true))| == |TriedIds(info)| + 1
  {
    var info' := WithTried(info, id, true);
    assert forall x :: x in NewIds(info') <==> x in NewIds(info) - {id};
    assert NewIds(info') == NewIds(info) - {id};
    assert forall x :: x in TriedIds(info') <==> x in TriedIds(info) + {id};
    assert TriedIds(info') == TriedIds(info) + {id};
  }
}
