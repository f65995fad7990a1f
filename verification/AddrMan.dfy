/**
The address manager itself: the object whose fields and tables the operations
update in place, each proved to do what the corresponding function on the tables
says. The assertions of the code are assertions here.
*/
module AddrMan {
  import opened Basics
  import opened AddrState
  import opened AddrInvariant
  import opened AddrOps
  import opened AddrCounts
  import opened AddrDisk
  import opened AddrRoundTrip
  import opened Powers
  import S = AddrState
  import O = AddrOps
  import D = AddrDisk

  /** The occupied slots of a table. */
  ghost function Slots(a: array2<int>): Table
    reads a
  {
    map b, p | 0 <= b < a.Length0 && 0 <= p < a.Length1 && a[b, p] != -1 :: Slot(b, p) := a[b, p]
  }

  ghost predicate InTable(a: array2<int>, sl: Slot) {
    0 <= sl.bucket < a.Length0 && 0 <= sl.pos < a.Length1
  }

  method Put(a: array2<int>, sl: Slot, id: int)
    requires InTable(a, sl)
    modifies a
    ensures Slots(a) == if id == -1 then old(Slots(a)) - {sl} else old(Slots(a))[sl := id]
  {
    a[sl.bucket, sl.pos] := id;
    ghost var was := old(Slots(a));
    assert forall x :: x in Slots(a) <==> x in (if id == -1 then was - {sl} else was[sl := id]);
  }

  function At(a: array2<int>, sl: Slot): (id: int)
    requires InTable(a, sl)
    reads a
    ensures id == -1 <==> sl !in Slots(a)
    ensures id != -1 ==> Slots(a)[sl] == id
  {
    a[sl.bucket, sl.pos]
  }

  class AddrManImpl {
    const h: Hasher
    const vvNew: array2<int>
    const vvTried: array2<int>
    var nKey: nat
    var nIdCount: int
    var mapInfo: map<int, AddrInfo>
    var mapAddr: map<NetAddr, int>
    var vRandom: seq<int>
    var nNew: int
    var nTried: int

    ghost predicate Shaped() {
      && vvNew.Length0 == NEW_BUCKET_COUNT && vvNew.Length1 == BUCKET_SIZE
      && vvTried.Length0 == TRIED_BUCKET_COUNT && vvTried.Length1 == BUCKET_SIZE
      && vvNew != vvTried
    }

    /** The tables as a value. */
    ghost function View(): State
      reads this, vvNew, vvTried
    {
      State(Place(h, nKey), nIdCount, mapInfo, mapAddr, vRandom, Slots(vvNew), Slots(vvTried), nNew, nTried)
    }

    function Placing(): Place
      reads this
    {
      Place(h, nKey)
    }

    method SwapRandom(nRndPos1: int, nRndPos2: int)
      requires Shaped() && Indexes(View(), nRndPos1) && Indexes(View(), nRndPos2)
      modifies this
      ensures View() == S.SwapRandom(old(View()), nRndPos1, nRndPos2)
    {
      if nRndPos1 == nRndPos2 {
        return;
      }
      assert nRndPos1 < |vRandom| && nRndPos2 < |vRandom|;
      var nId1 := vRandom[nRndPos1];
      var nId2 := vRandom[nRndPos2];
      assert nId1 in mapInfo;
      assert nId2 in mapInfo;
      mapInfo := mapInfo[nId1 := mapInfo[nId1].(randomPos := nRndPos2)];
      mapInfo := mapInfo[nId2 := mapInfo[nId2].(randomPos := nRndPos1)];
      vRandom := vRandom[nRndPos1 := nId2];
      vRandom := vRandom[nRndPos2 := nId1];
    }

    method Delete(nId: int)
      requires Shaped() && Indexed(View(), nId)
      requires !mapInfo[nId].tried && mapInfo[nId].refCount == 0
      modifies this
      ensures View() == S.Delete(old(View()), nId)
    {
      assert nId in mapInfo;
      assert !mapInfo[nId].tried;
      assert mapInfo[nId].refCount == 0;
      SwapRandom(mapInfo[nId].randomPos, |vRandom| - 1);
      vRandom := vRandom[..|vRandom| - 1];
      mapAddr := mapAddr - {mapInfo[nId].service.net};
      mapInfo := mapInfo - {nId};
      nNew := nNew - 1;
    }

    method ClearNew(sl: Slot, ghost limbo: set<int>, ghost uncounted: int)
      requires Shaped() && InTable(vvNew, sl) && Partial(View(), limbo, uncounted)
      modifies this, vvNew
      ensures sl in old(View()).newSlots ==> Indexed(old(View()), old(View()).newSlots[sl])
      ensures View() == S.ClearNew(old(View()), sl)
    {
      hide Partial;
      ghost var s := View();
      if At(vvNew, sl) != -1 {
        var nIdDelete := At(vvNew, sl);
        SlotHolder(s, sl, limbo, uncounted);
        assert mapInfo[nIdDelete].refCount > 0;
        mapInfo := mapInfo[nIdDelete := mapInfo[nIdDelete].(refCount := mapInfo[nIdDelete].refCount - 1)];
        Put(vvNew, sl, -1);
        assert View() == DropSlot(s, sl);
        if mapInfo[nIdDelete].refCount == 0 {
          Delete(nIdDelete);
        }
      }
    }

    /** The loop of MakeTried that takes an entry out of all its new buckets. */
    method DropFromNew(nId: int)
      requires Shaped() && nId in mapInfo && 0 <= nId
      modifies this, vvNew
      ensures View() == DropRefs(old(View()), nId, NEW_BUCKET_COUNT)
    {
      hide SlotIn, Slots, At;
      ghost var s := View();
      for bucket := 0 to NEW_BUCKET_COUNT
        invariant nId in mapInfo && View() == DropRefs(s, nId, bucket)
      {
        var sl := SlotIn(Placing(), mapInfo[nId].service, bucket);
        if At(vvNew, sl) == nId {
          Put(vvNew, sl, -1);
          mapInfo := mapInfo[nId := mapInfo[nId].(refCount := mapInfo[nId].refCount - 1)];
        }
      }
    }

    /** Write an entry into an empty slot of the new table, with its new count. */
    method Reference(nId: int, sl: Slot, nRefCount: int)
      requires Shaped() && InTable(vvNew, sl) && nId in mapInfo && 0 <= nId
      modifies this, vvNew
      ensures View() == PlaceNew(old(View()), nId, sl, nRefCount)
    {
      mapInfo := mapInfo[nId := mapInfo[nId].(refCount := nRefCount)];
      Put(vvNew, sl, nId);
    }

    /** Take the occupant of a tried slot out of the tried table. */
    method Untry(home: Slot)
      requires Shaped() && InTable(vvTried, home) && home in View().triedSlots && View().triedSlots[home] in mapInfo
      modifies this, vvTried
      ensures View() == Demote(old(View()), home)
    {
      var nId := At(vvTried, home);
      mapInfo := mapInfo[nId := mapInfo[nId].(tried := false)];
      Put(vvTried, home, -1);
      nTried := nTried - 1;
    }

    /** Write an entry into a tried slot. */
    method Try(nId: int, home: Slot)
      requires Shaped() && InTable(vvTried, home) && nId in mapInfo && 0 <= nId
      modifies this, vvTried
      ensures View() == Promote(old(View()), nId, home)
    {
      Put(vvTried, home, nId);
      nTried := nTried + 1;
      mapInfo := mapInfo[nId := mapInfo[nId].(tried := true)];
    }

    /** The part of MakeTried that makes room in a tried slot. */
    method EvictFrom(home: Slot, ghost mover: int)
      requires Shaped() && InTable(vvTried, home) && Partial(View(), {mover}, 1) && Adrift(View(), mover)
      modifies this, vvNew, vvTried
      ensures View() == Evict(old(View()), home, mover)
    {
      hide Partial, Slots;
      ghost var s := View();
      if At(vvTried, home) != -1 {
        var nIdEvict := At(vvTried, home);
        DemoteSets(s, home, mover);
        assert nIdEvict in mapInfo;
        Untry(home);
        ghost var t := Demote(s, home);
        var sl := NewSlot(Placing(), mapInfo[nIdEvict].service, mapInfo[nIdEvict].source);
        ClearNew(sl, {mover, nIdEvict}, 2);
        ClearNewKeeps(t, sl, {mover, nIdEvict}, 2);
        ClearNewSparesAdrift(t, sl, nIdEvict, {mover, nIdEvict}, 2);
        assert At(vvNew, sl) == -1;
        IdNotMinusOne(t, nIdEvict, {mover, nIdEvict}, 2);
        Reference(nIdEvict, sl, 1);
        nNew := nNew + 1;
      }
    }

    method MakeTried(nId: int)
      requires Shaped() && Inv(View()) && nId in mapInfo && !mapInfo[nId].tried
      modifies this, vvNew, vvTried
      ensures View() == O.MakeTried(old(View()), nId)
    {
      hide Partial, Slots, DropRefs, Evict;
      ghost var s := View();
      IdNotMinusOne(s, nId, {}, 0);
      DropRefsKeeps(s, nId, NEW_BUCKET_COUNT);
      DropRefsEmpties(s, nId);
      DropFromNew(nId);
      CountedUp(View(), {nId}, 0, -1);
      nNew := nNew - 1;
      assert mapInfo[nId].refCount == 0;
      var home := TriedSlot(Placing(), mapInfo[nId].service);
      EvictKeeps(View(), home, nId);
      EvictFrom(home, nId);
      assert At(vvTried, home) == -1;
      Try(nId, home);
    }

    /** The id under which an address is known. */
    function Find(a: NetAddr): Option<int>
      reads this
    {
      if a in mapAddr && mapAddr[a] in mapInfo then Some(mapAddr[a]) else None
    }

    method Good(addr: Service, nTime: int, draw: nat)
      requires Shaped() && Inv(View())
      modifies this, vvNew, vvTried
      ensures View() == O.Good(old(View()), addr, nTime, draw)
    {
      hide Partial, Slots, FindBucket;
      ghost var s := View();
      PraisedKeeps(s, addr, nTime);
      var found := Find(addr.net);
      if found.None? || mapInfo[found.value].service != addr {
        return;
      }
      var nId := found.value;
      mapInfo := mapInfo[nId := mapInfo[nId].(lastSuccess := nTime, lastTry := nTime, attempts := 0)];
      if mapInfo[nId].tried {
        return;
      }
      GoodAlwaysFinds(View(), nId, draw % NEW_BUCKET_COUNT);
      IdNotMinusOne(s, nId, {}, 0);
      var nUBucket := SearchBucket(nId, draw % NEW_BUCKET_COUNT);
      assert nUBucket != -1;
      MakeTried(nId);
    }

    /** The search of Good_ for a bucket that holds an entry. */
    method SearchBucket(nId: int, nRnd: nat) returns (nUBucket: int)
      requires Shaped() && nId in mapInfo && 0 <= nId
      ensures var r := FindBucket(View(), nId, mapInfo[nId].service, nRnd, 0);
        nUBucket == if r.Some? then r.value else -1
    {
      hide SlotIn;
      nUBucket := -1;
      var n := 0;
      while n < NEW_BUCKET_COUNT && nUBucket == -1
        invariant 0 <= n <= NEW_BUCKET_COUNT
        invariant var r := FindBucket(View(), nId, mapInfo[nId].service, nRnd, 0);
          if nUBucket == -1 then r == FindBucket(View(), nId, mapInfo[nId].service, nRnd, n)
          else r == Some(nUBucket)
        decreases NEW_BUCKET_COUNT - n, nUBucket == -1
      {
        var nB := (n + nRnd) % NEW_BUCKET_COUNT;
        if At(vvNew, SlotIn(Placing(), mapInfo[nId].service, nB)) == nId {
          nUBucket := nB;
        } else {
          n := n + 1;
        }
      }
    }

    method Create(addr: Address, source: NetAddr) returns (nId: int)
      requires Shaped()
      modifies this
      ensures nId == old(nIdCount) && View() == S.Create(old(View()), addr, source)
    {
      nId := nIdCount;
      nIdCount := nIdCount + 1;
      mapInfo := mapInfo[nId := Fresh(addr, source, 0)];
      mapAddr := mapAddr[addr.service.net := nId];
      mapInfo := mapInfo[nId := mapInfo[nId].(randomPos := |vRandom|)];
      vRandom := vRandom + [nId];
    }

    /** The end of Add_: give an entry the slot its source leads to, if that can be had. */
    method Admit(nId: int, source: NetAddr, now: int)
      requires Shaped() && Admissible(View(), nId)
      modifies this, vvNew
      ensures View() == O.Admit(old(View()), nId, source, now)
    {
      hide Partial, Slots, IsTerrible, NewSlot, SlotIn;
      ghost var s := View();
      IdNotMinusOne(s, nId, {nId}, 0);
      var sl := NewSlot(Placing(), mapInfo[nId].service, source);
      if At(vvNew, sl) != nId {
        AdmitWellFormed(s, nId, sl);
        var fInsert := At(vvNew, sl) == -1;
        if !fInsert {
          var existing := mapInfo[At(vvNew, sl)];
          if IsTerrible(existing, now) || (existing.refCount > 1 && mapInfo[nId].refCount == 0) {
            fInsert := true;
          }
        }
        if fInsert {
          ClearNew(sl, {nId}, 0);
          Reference(nId, sl, mapInfo[nId].refCount + 1);
        } else if mapInfo[nId].refCount == 0 {
          Delete(nId);
        }
      }
    }

    method Add(addr: Address, routable: bool, source: NetAddr, nTimePenalty: int, now: int, draw: nat)
      returns (fNew: bool)
      requires Shaped() && Inv(View())
      modifies this, vvNew
      ensures (View(), fNew) == O.Add(old(View()), addr, routable, source, nTimePenalty, now, draw)
    {
      hide Partial, Slots, O.Admit;
      ghost var s := View();
      fNew := false;
      if !routable {
        return;
      }
      var nId;
      var found := Find(addr.service.net);
      if found.Some? {
        nId := found.value;
        var declined := Hear(nId, addr, nTimePenalty, now, draw);
        if declined {
          return;
        }
        KnownAdmissible(s, nId, addr, nTimePenalty, now, draw);
      } else {
        NewcomerAdmissible(s, addr, source, nTimePenalty);
        nId := Create(addr, source);
        mapInfo := mapInfo[nId := mapInfo[nId].(time := Max(0, mapInfo[nId].time - nTimePenalty) % UINT32)];
        nNew := nNew + 1;
        fNew := true;
      }
      Admit(nId, source, now);
    }

    method Attempt(addr: Service, nTime: int)
      requires Shaped()
      modifies this
      ensures View() == O.Attempt(old(View()), addr, nTime)
    {
      var found := Find(addr.net);
      if found.None? || mapInfo[found.value].service != addr {
        return;
      }
      var info := mapInfo[found.value];
      mapInfo := mapInfo[found.value := info.(lastTry := nTime, attempts := info.attempts + 1)];
    }

    method Connected(addr: Service, nTime: int)
      requires Shaped()
      modifies this
      ensures View() == O.Connected(old(View()), addr, nTime)
    {
      var found := Find(addr.net);
      if found.None? || mapInfo[found.value].service != addr {
        return;
      }
      var info := mapInfo[found.value];
      var nUpdateInterval := 20 * 60;
      if nTime - info.time > nUpdateInterval {
        mapInfo := mapInfo[found.value := info.(time := nTime % UINT32)];
      } else {
        assert mapInfo[found.value := info] == mapInfo;
      }
    }

    method SetServices(addr: Service, nServices: Flags)
      requires Shaped()
      modifies this
      ensures View() == O.SetServices(old(View()), addr, nServices)
    {
      var found := Find(addr.net);
      if found.None? || mapInfo[found.value].service != addr {
        return;
      }
      mapInfo := mapInfo[found.value := mapInfo[found.value].(services := nServices)];
    }

    method GetAddr(now: int, draws: nat -> nat) returns (vAddr: seq<int>)
      requires Shaped() && Inv(View())
      modifies this
      ensures (View(), vAddr) == O.GetAddr(old(View()), now, draws)
    {
      hide Partial, Slots, IsTerrible, Pick;
      ghost var s := View();
      var nNodes := GETADDR_MAX_PCT * |vRandom| / 100;
      if nNodes > GETADDR_MAX {
        nNodes := GETADDR_MAX;
      }
      vAddr := [];
      var n := 0;
      while n < |vRandom| && |vAddr| < nNodes
        invariant 0 <= n <= |vRandom| && Inv(View())
        invariant GetAddrFrom(View(), n, vAddr, nNodes, now, draws) == GetAddrFrom(s, 0, [], nNodes, now, draws)
      {
        ghost var t := View();
        var nRndPos := Pick(draws(n), n, |vRandom|);
        SwapKeeps(t, n, nRndPos, {}, 0);
        SwapRandom(n, nRndPos);
        var nId := vRandom[n];
        LiveAt(View(), n);
        assert nId in mapInfo;
        if !IsTerrible(mapInfo[nId], now) {
          vAddr := vAddr + [nId];
        }
        n := n + 1;
      }
    }

    method Clear(key: nat)
      requires Shaped()
      modifies this, vvNew, vvTried
      ensures View() == Empty(Place(h, key))
    {
      vRandom := [];
      mapInfo := map[];
      mapAddr := map[];
      nKey := key;
      ClearTable(vvNew);
      ClearTable(vvTried);
      nIdCount := 0;
      nTried := 0;
      nNew := 0;
    }

    constructor (hasher: Hasher, key: nat)
      ensures Shaped() && fresh(vvNew) && fresh(vvTried)
      ensures View() == Empty(Place(hasher, key))
    {
      h := hasher;
      vvNew := new int[NEW_BUCKET_COUNT, BUCKET_SIZE];
      vvTried := new int[TRIED_BUCKET_COUNT, BUCKET_SIZE];
      nKey, nIdCount, mapInfo, mapAddr, vRandom, nNew, nTried := key, 0, map[], map[], [], 0, 0;
      new;
      Clear(key);
    }

    /** One pass of the writer over the entries; no entry is written beyond the announced count. */
    method WriteRecords(ids: seq<int>, tried: bool, count: int) returns (out: Stream, mapUnkIds: map<int, int>)
      requires Known(mapInfo, ids) && Sorted(ids) && |Written(mapInfo, ids, tried)| == count
      ensures Known(mapInfo, Written(mapInfo, ids, tried)) && out == Records(mapInfo, Written(mapInfo, ids, tried))
      ensures forall j :: 0 <= j < count ==>
                Written(mapInfo, ids, tried)[j] in mapUnkIds && mapUnkIds[Written(mapInfo, ids, tried)[j]] == j
    {
      hide Written, Records;
      WrittenKnown(mapInfo, ids, tried);
      ghost var q := Written(mapInfo, ids, tried);
      out, mapUnkIds := [], map[];
      var nIds := 0;
      assert ids[0..] == ids && q[0..] == q;
      for k := 0 to |ids|
        invariant Known(mapInfo, ids[k..])
        invariant nIds == |out| <= count && q[nIds..] == Written(mapInfo, ids[k..], tried)
        invariant forall j :: 0 <= j < nIds ==> out[j] == Rec(ToRecord(mapInfo[q[j]]))
        invariant forall j :: 0 <= j < nIds ==> q[j] in mapUnkIds && mapUnkIds[q[j]] == j
        invariant forall j, m :: 0 <= j < nIds && k <= m < |ids| ==> q[j] < ids[m]
      {
        var id := ids[k];
        WrittenStep(mapInfo, ids, k, tried);
        mapUnkIds := mapUnkIds[id := nIds];
        if Picked(mapInfo[id], tried) {
          assert nIds != count;
          assert q[nIds] == id && q[nIds + 1..] == q[nIds..][1..];
          out := out + [Rec(ToRecord(mapInfo[id]))];
          nIds := nIds + 1;
        }
      }
      WrittenNothing(mapInfo, ids[|ids|..], tried);
    }

    /** The writer's map gives every held entry its place among the new records. */
    ghost predicate Numbered(mapUnkIds: map<int, int>, q: seq<int>)
      reads vvNew
    {
      forall sl :: sl in Slots(vvNew) ==>
        Slots(vvNew)[sl] in mapUnkIds && mapUnkIds[Slots(vvNew)[sl]] == IndexIn(q, Slots(vvNew)[sl])
    }

    /** How many slots of a bucket are occupied. */
    method BucketLoad(bucket: int, ghost q: seq<int>) returns (nSize: nat)
      requires Shaped() && 0 <= bucket < NEW_BUCKET_COUNT
      ensures nSize == |BucketIndices(Slots(vvNew), q, bucket, 0)|
    {
      hide Slots, IndexIn;
      nSize := 0;
      for i := 0 to BUCKET_SIZE
        invariant nSize + |BucketIndices(Slots(vvNew), q, bucket, i)| == |BucketIndices(Slots(vvNew), q, bucket, 0)|
      {
        if At(vvNew, Slot(bucket, i)) != -1 {
          nSize := nSize + 1;
        }
      }
    }

    /** The indices of the entries in a bucket. */
    method WriteIndices(bucket: int, mapUnkIds: map<int, int>, ghost q: seq<int>) returns (out: Stream)
      requires Shaped() && 0 <= bucket < NEW_BUCKET_COUNT && Numbered(mapUnkIds, q)
      ensures out == BucketIndices(Slots(vvNew), q, bucket, 0)
    {
      hide Slots, IndexIn, BucketIndices;
      out := [];
      for i := 0 to BUCKET_SIZE
        invariant out + BucketIndices(Slots(vvNew), q, bucket, i) == BucketIndices(Slots(vvNew), q, bucket, 0)
      {
        BucketIndicesStep(Slots(vvNew), q, bucket, i);
        ghost var rest := BucketIndices(Slots(vvNew), q, bucket, i + 1);
        if At(vvNew, Slot(bucket, i)) != -1 {
          var nIndex := mapUnkIds[At(vvNew, Slot(bucket, i))];
          assert out + ([I32(nIndex)] + rest) == (out + [I32(nIndex)]) + rest;
          out := out + [I32(nIndex)];
        }
      }
      BucketIndicesEnd(Slots(vvNew), q, bucket);
    }

    method WriteBuckets(mapUnkIds: map<int, int>, ghost q: seq<int>) returns (out: Stream)
      requires Shaped() && Numbered(mapUnkIds, q)
      ensures out == Buckets(Slots(vvNew), q, 0)
    {
      hide Slots, IndexIn, BucketIndices, Numbered, Buckets;
      out := [];
      for bucket := 0 to NEW_BUCKET_COUNT
        invariant out + Buckets(Slots(vvNew), q, bucket) == Buckets(Slots(vvNew), q, 0)
      {
        var nSize := BucketLoad(bucket, q);
        var indices := WriteIndices(bucket, mapUnkIds, q);
        BucketsStep(Slots(vvNew), q, bucket);
        ghost var rest := Buckets(Slots(vvNew), q, bucket + 1);
        assert out + ([I32(nSize)] + indices + rest) == (out + [I32(nSize)] + indices) + rest;
        out := out + [I32(nSize)] + indices;
      }
      BucketsEnd(Slots(vvNew), q);
    }

    method Serialize() returns (out: Stream)
      requires Shaped() && Inv(View())
      ensures out == D.Serialize(View())
    {
      hide Partial, Slots, Written, Ascending, Records, Buckets;
      ghost var s := View();
      PassForm(s, false);
      PassForm(s, true);
      var ids := Ascending(mapInfo.Keys);
      var newRecords, mapUnkIds := WriteRecords(ids, false, nNew);
      var triedRecords, _ := WriteRecords(ids, true, nTried);
      HeldAreNumbered(s, mapUnkIds);
      var buckets := WriteBuckets(mapUnkIds, Written(mapInfo, ids, false));
      out := [U8(1), U8(32), Key(nKey), I32(nNew), I32(nTried), I32(FlipBit30(NEW_BUCKET_COUNT))];
      out := out + newRecords + triedRecords + buckets;
    }

    /** The tables with other counters: while records are being read the fields hold what the header announced. */
    ghost function Counting(ids: int, news: int, trieds: int): State
      reads this, vvNew, vvTried
    {
      View().(idCount := ids, nNew := news, nTried := trieds)
    }

    /** A record becomes an entry that is in no table yet. */
    method AppendRecord(n: nat, r: Record)
      requires Shaped()
      modifies this
      ensures nNew == old(nNew) && nTried == old(nTried) && nIdCount == old(nIdCount)
      ensures Counting(n + 1, n + 1, 0) == Revive(old(Counting(n, n, 0)), r).(nNew := n + 1)
    {
      hide Slots;
      mapInfo := mapInfo[n := Revived(r, -1)];
      mapAddr := mapAddr[r.service.net := n];
      mapInfo := mapInfo[n := mapInfo[n].(randomPos := |vRandom|)];
      vRandom := vRandom + [n];
    }

    method ReadNewRecord(n: nat, r: Record, rebuild: bool)
      requires Shaped()
      modifies this, vvNew
      ensures nNew == old(nNew) && nTried == old(nTried) && nIdCount == old(nIdCount)
      ensures Counting(n + 1, n + 1, 0) == LoadNewRecord(old(Counting(n, n, 0)), r, rebuild)
    {
      hide Slots, NewSlot, SlotIn, At;
      AppendRecord(n, r);
      if rebuild {
        var sl := NewSlot(Placing(), r.service, r.source);
        if At(vvNew, sl) == -1 {
          Reference(n, sl, mapInfo[n].refCount + 1);
        }
      }
    }

    method ReadNewRecords(count: nat, rebuild: bool, stream: Stream) returns (ok: bool, rest: Stream)
      requires Shaped()
      modifies this, vvNew
      ensures nNew == old(nNew) && nTried == old(nTried) && nIdCount == old(nIdCount)
      ensures var o := LoadNew(old(Counting(0, 0, 0)), count, rebuild, stream);
        ok == o.Done? && (ok ==> o.value == (Counting(count, count, 0), rest))
    {
      hide View, LoadNewRecord;
      rest := stream;
      for n := 0 to count
        invariant nNew == old(nNew) && nTried == old(nTried) && nIdCount == old(nIdCount)
        invariant LoadNew(Counting(n, n, 0), count - n, rebuild, rest)
               == LoadNew(old(Counting(0, 0, 0)), count, rebuild, stream)
      {
        if rest == [] || !rest[0].Rec? {
          return false, rest;
        }
        ReadNewRecord(n, rest[0].rec, rebuild);
        rest := rest[1..];
      }
      ok := true;
    }

    method ReadTriedRecord(r: Record, ghost trieds: int) returns (lost: bool)
      requires Shaped() && 0 <= nIdCount
      modifies this, vvTried
      ensures nNew == old(nNew) && nTried == old(nTried) && 0 <= nIdCount
      ensures Counting(nIdCount, nNew, if lost then trieds else trieds + 1)
           == LoadTriedRecord(old(Counting(nIdCount, nNew, trieds)), r)
    {
      hide Slots, TriedSlot;
      var sl := TriedSlot(Placing(), r.service);
      lost := At(vvTried, sl) != -1;
      if !lost {
        var info := Revived(r, -1).(randomPos := |vRandom|, tried := true);
        vRandom := vRandom + [nIdCount];
        mapInfo := mapInfo[nIdCount := info];
        mapAddr := mapAddr[r.service.net := nIdCount];
        Put(vvTried, sl, nIdCount);
        nIdCount := nIdCount + 1;
      }
    }

    method ReadTriedRecords(count: nat, stream: Stream) returns (ok: bool, rest: Stream, nLost: int)
      requires Shaped() && 0 <= nIdCount
      modifies this, vvTried
      ensures nNew == old(nNew) && nTried == old(nTried)
      ensures var o := LoadTried(old(Counting(nIdCount, nNew, 0)), count, stream);
        ok == o.Done? && (ok ==> o.value == (Counting(nIdCount, nNew, count - nLost), rest))
    {
      hide View, LoadTriedRecord;
      rest := stream;
      nLost := 0;
      for n := 0 to count
        invariant nNew == old(nNew) && nTried == old(nTried) && 0 <= nIdCount
        invariant LoadTried(Counting(nIdCount, nNew, n - nLost), count - n, rest)
               == LoadTried(old(Counting(nIdCount, nNew, 0)), count, stream)
      {
        if rest == [] || !rest[0].Rec? {
          return false, rest, nLost;
        }
        var lost := ReadTriedRecord(rest[0].rec, n - nLost);
        if lost {
          nLost := nLost + 1;
        }
        rest := rest[1..];
      }
      ok := true;
    }

    method ReadIndex(bucket: int, nIndex: int, usable: bool)
      requires Shaped() && (usable ==> 0 <= bucket < NEW_BUCKET_COUNT)
      requires forall id :: 0 <= id < nNew ==> id in mapInfo
      modifies this, vvNew
      ensures View() == LoadIndex(old(View()), bucket, nIndex, usable)
    {
      hide Slots;
      if 0 <= nIndex < nNew {
        assert nIndex in mapInfo;
        var sl := SlotIn(Placing(), mapInfo[nIndex].service, bucket);
        if usable && At(vvNew, sl) == -1 && mapInfo[nIndex].refCount < NEW_BUCKETS_PER_ADDRESS {
          Reference(nIndex, sl, mapInfo[nIndex].refCount + 1);
        }
      }
    }

    method ReadIndices(bucket: int, nSize: int, usable: bool, stream: Stream) returns (ok: bool, rest: Stream)
      requires Shaped() && (usable ==> 0 <= bucket < NEW_BUCKET_COUNT) && Loading(View())
      modifies this, vvNew
      ensures var o := LoadIndices(old(View()), bucket, nSize, usable, stream);
        ok == o.Done? && (ok ==> o.value == (View(), rest) && Loading(View()))
    {
      hide Partial, LoadIndex, Slots;
      rest := stream;
      var n := 0;
      while n < nSize
        invariant 0 <= n && (n <= nSize || n == 0) && Loading(View())
        invariant LoadIndices(View(), bucket, nSize - n, usable, rest)
               == LoadIndices(old(View()), bucket, nSize, usable, stream)
      {
        if rest == [] || !rest[0].I32? {
          return false, rest;
        }
        LoadIndexKeeps(View(), bucket, rest[0].num, usable);
        ReadIndex(bucket, rest[0].num, usable);
        rest := rest[1..];
        n := n + 1;
      }
      ok := true;
    }

    method ReadBuckets(nUBuckets: int, usable: bool, stream: Stream) returns (ok: bool)
      requires Shaped() && (usable ==> nUBuckets == NEW_BUCKET_COUNT) && Loading(View())
      modifies this, vvNew
      ensures var o := LoadBuckets(old(View()), 0, nUBuckets, usable, stream);
        ok == o.Done? && (ok ==> o.value == View() && Loading(View()))
    {
      hide Partial, LoadIndices, Slots;
      var rest := stream;
      var bucket := 0;
      while bucket < nUBuckets
        invariant 0 <= bucket && Loading(View())
        invariant LoadBuckets(View(), bucket, nUBuckets, usable, rest)
               == LoadBuckets(old(View()), 0, nUBuckets, usable, stream)
      {
        if rest == [] || !rest[0].I32? {
          return false;
        }
        var nSize := rest[0].num;
        ok, rest := ReadIndices(bucket, nSize, usable, rest[1..]);
        if !ok {
          return;
        }
        bucket := bucket + 1;
      }
      ok := true;
    }

    /** Delete the new entries that ended up in no slot. */
    method PruneUnreferenced()
      requires Shaped() && Loading(View())
      modifies this
      ensures View() == Prune(old(View()), Ascending(old(View()).info.Keys), old(View()).info.Keys)
    {
      hide Partial, Slots, Ascending;
      var ids := Ascending(mapInfo.Keys);
      ghost var limbo := mapInfo.Keys;
      for k := 0 to |ids|
        invariant Partial(View(), limbo, 0)
        invariant Prune(View(), ids[k..], limbo) == Prune(old(View()), ids, old(View()).info.Keys)
      {
        ghost var later := ids[k..];
        assert later[0] == ids[k] && later[1..] == ids[k + 1..];
        var nId := ids[k];
        if nId in mapInfo && !mapInfo[nId].tried && mapInfo[nId].refCount == 0 {
          DeleteKeeps(View(), nId, limbo, 0);
          Delete(nId);
          limbo := limbo - {nId};
        }
      }
    }

    /** Read the tables from a stream; false stands for an exception, after which the caller clears the tables. */
    method Unserialize(stream: Stream, key: nat) returns (ok: bool)
      requires Shaped()
      modifies this, vvNew, vvTried
      ensures var o := D.Unserialize(h, stream); ok == o.Done? && (ok ==> View() == o.value)
    {
      hide Partial, Slots, ReadStart, LoadNew, LoadTried, LoadBuckets, Prune, Ascending;
      Clear(key);
      var r := ReadStart(stream);
      if r.Throws? {
        return false;
      }
      var start := r.value;
      nKey, nNew, nTried := start.key, start.nNew, start.nTried;
      var usable := Usable(start);
      ghost var s := Empty(Place(h, start.key));
      EmptyIsLoading(s.place);
      LoadNewKeeps(s, start.nNew, !usable, stream[6..]);
      var rest;
      ok, rest := ReadNewRecords(nNew, !usable, stream[6..]);
      if !ok {
        return;
      }
      nIdCount := nNew;
      LoadTriedKeeps(Counting(nNew, nNew, 0), start.nTried, rest);
      var nLost;
      ok, rest, nLost := ReadTriedRecords(nTried, rest);
      if !ok {
        return;
      }
      nTried := nTried - nLost;
      ok := ReadBuckets(start.buckets, usable, rest);
      if !ok {
        return;
      }
      PruneUnreferenced();
    }

    /** What Add_ does with a known address before it looks for a slot, and whether it stops there. */
    method Hear(nId: int, addr: Address, nTimePenalty: int, now: int, draw: nat) returns (declined: bool)
      requires Shaped() && Inv(View()) && nId in mapInfo
      modifies this
      ensures var i := Heard(old(View()).info[nId], addr, nTimePenalty, now);
        View() == old(View()).(info := old(View()).info[nId := i]) && declined == Declined(i, addr, draw)
    {
      hide Partial, Slots, Declined, Heard;
      var info := Refresh(mapInfo[nId], addr, nTimePenalty, now);
      mapInfo := mapInfo[nId := info];
      if !info.tried {
        RefsBounded(old(View()), nId);
      }
      declined := Decline(info, addr, draw);
    }
  }

  /** The update of a known entry by Add_: its time, now and then, and its services. */
  method Refresh(info: AddrInfo, addr: Address, nTimePenalty: int, now: int) returns (i: AddrInfo)
    ensures i == Heard(info, addr, nTimePenalty, now) && StatsOnly(info, i)
  {
    i := info;
    var fCurrentlyOnline := now - addr.time < 24 * 60 * 60;
    var nUpdateInterval := if fCurrentlyOnline then 60 * 60 else 24 * 60 * 60;
    if addr.time != 0 && (i.time == 0 || i.time < addr.time - nUpdateInterval - nTimePenalty) {
      i := i.(time := Max(0, addr.time - nTimePenalty) % UINT32);
    }
    i := i.(services := i.services + addr.services);
  }

  /** The tests of Add_ on a known entry. */
  method Decline(info: AddrInfo, addr: Address, draw: nat) returns (declined: bool)
    requires !info.tried ==> info.refCount >= 0
    ensures declined == Declined(info, addr, draw)
  {
    if addr.time == 0 || (info.time != 0 && addr.time <= info.time) {
      return true;
    }
    if info.tried {
      return true;
    }
    if info.refCount == NEW_BUCKETS_PER_ADDRESS {
      return true;
    }
    var nFactor := 1;
    for n := 0 to info.refCount
      invariant nFactor == Pow2(n)
    {
      nFactor := nFactor * 2;
    }
    PowGrows(info.refCount);
    return nFactor > 1 && draw % nFactor != 0;
  }

  method ClearTable(a: array2<int>)
    modifies a
    ensures Slots(a) == map[]
  {
    for bucket := 0 to a.Length0
      invariant forall b, p :: 0 <= b < bucket && 0 <= p < a.Length1 ==> a[b, p] == -1
    {
      for entry := 0 to a.Length1
        invariant forall b, p :: 0 <= b < bucket && 0 <= p < a.Length1 ==> a[b, p] == -1
        invariant forall p :: 0 <= p < entry ==> a[bucket, p] == -1
      {
        a[bucket, entry] := -1;
      }
    }
    assert forall sl :: sl !in Slots(a);
  }

  lemma WrittenStep(info: Entries, ids: seq<int>, k: nat, tried: bool)
    requires k < |ids| && Known(info, ids[k..])
    ensures Known(info, ids[k + 1..]) && ids[k] in info
    ensures Written(info, ids[k..], tried) ==
              (if Picked(info[ids[k]], tried) then [ids[k]] else []) + Written(info, ids[k + 1..], tried)
  {
    var q := ids[k..];
    assert q[0] == ids[k] && q[1..] == ids[k + 1..];
    assert forall j :: 0 <= j < |q| - 1 ==> q[1..][j] == q[j + 1];
  }

  lemma BucketIndicesStep(slots: Table, q: seq<int>, bucket: int, p: nat)
    requires p < BUCKET_SIZE
    ensures var sl, rest := Slot(bucket, p), BucketIndices(slots, q, bucket, p + 1);
      BucketIndices(slots, q, bucket, p) == if sl in slots then [I32(IndexIn(q, slots[sl]))] + rest else rest
  {
    hide IndexIn;
  }

  lemma BucketsStep(slots: Table, q: seq<int>, b: nat)
    requires b < NEW_BUCKET_COUNT
    ensures var indices := BucketIndices(slots, q, b, 0);
      Buckets(slots, q, b) == [I32(|indices|)] + indices + Buckets(slots, q, b + 1)
  {
    hide BucketIndices;
  }

  lemma BucketsEnd(slots: Table, q: seq<int>)
    ensures Buckets(slots, q, NEW_BUCKET_COUNT) == []
  {
  }

  lemma BucketIndicesEnd(slots: Table, q: seq<int>, bucket: int)
    ensures BucketIndices(slots, q, bucket, BUCKET_SIZE) == []
  {
  }

  lemma WrittenNothing(info: Entries, ids: seq<int>, tried: bool)
    requires ids == []
    ensures Written(info, ids, tried) == []
  {
  }

  /** The numbers given to the new records are their places in order. */
  lemma HeldAreNumbered(s: State, places: map<int, int>)
    requires Inv(s)
    requires forall j :: 0 <= j < |Pass(s, false)| ==> Pass(s, false)[j] in places && places[Pass(s, false)[j]] == j
    ensures forall sl :: sl in s.newSlots ==>
              s.newSlots[sl] in places && places[s.newSlots[sl]] == IndexIn(Pass(s, false), s.newSlots[sl])
  {
    hide Partial, Written, Ascending;
    InvSlots(s);
    PassForm(s, false);
    forall sl | sl in s.newSlots
      ensures s.newSlots[sl] in places && places[s.newSlots[sl]] == IndexIn(Pass(s, false), s.newSlots[sl])
    {
      var id := s.newSlots[sl];
      assert id in s.info && !s.info[id].tried && id in Pass(s, false);
      var j := IndexIn(Pass(s, false), id);
      assert Pass(s, false)[j] == id;
    }
  }

  lemma LiveAt(s: State, n: nat)
    requires Inv(s) && n < |s.random|
    ensures s.random[n] in s.info
  {
  }

  lemma PowGrows(n: nat)
    ensures Pow2(n) > 1 <==> n > 0
  {
  }

  lemma KnownAdmissible(s: State, id: int, a: Address, penalty: int, now: int, draw: nat)
    requires Inv(s) && id in s.info
    ensures var i := Heard(s.info[id], a, penalty, now);
      !Declined(i, a, draw) ==> Admissible(s.(info := s.info[id := i]), id)
  {
    hide Partial;
    var i := Heard(s.info[id], a, penalty, now);
    StatsKeep(s, id, i, {}, 0);
    if !Declined(i, a, draw) {
      RefsBounded(s, id);
      LimboGrows(s.(info := s.info[id := i]), {}, {id}, 0);
    }
  }

  lemma IdNotMinusOne(s: State, id: int, limbo: set<int>, uncounted: int)
    requires Partial(s, limbo, uncounted) && id in s.info
    ensures 0 <= id
  {
  }
}
