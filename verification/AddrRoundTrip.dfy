/**
Writing the tables and reading them back: nothing is lost, and the tables are
the same up to the numbering of entries and their order in random.
*/
module AddrRoundTrip {
  import opened Basics
  import opened AddrState
  import opened AddrInvariant
  import opened AddrOps
  import opened AddrCounts
  import opened AddrDisk

  /** The ids written in one pass; once read back, the place of a new entry here is its id. */
  function Pass(s: State, tried: bool): seq<int> {
    Written(s.info, Ascending(s.info.Keys), tried)
  }

  predicate Sorted(q: seq<int>) {
    forall i, j :: 0 <= i < j < |q| ==> q[i] < q[j]
  }

  // ----- what is written -----

  lemma ConsSorted(x: int, q: seq<int>)
    requires Sorted(q) && forall k :: 0 <= k < |q| ==> x < q[k]
    ensures Sorted([x] + q)
  {
  }

  lemma {:induction false} WrittenForm(info: Entries, q: seq<int>, tried: bool)
    requires Known(info, q) && Sorted(q)
    ensures Sorted(Written(info, q, tried))
    ensures forall id :: id in Written(info, q, tried) <==> id in q && Picked(info[id], tried)
  {
    if q != [] {
      var rest := Written(info, q[1..], tried);
      WrittenForm(info, q[1..], tried);
      assert forall id :: id in q <==> id == q[0] || id in q[1..];
      forall k | 0 <= k < |rest|
        ensures q[0] < rest[k]
      {
        var id := rest[k];
        assert id in q[1..];
      }
      ConsSorted(q[0], rest);
    }
  }

  lemma CountOf(q: seq<int>, ids: set<int>)
    requires Sorted(q) && forall id :: id in q <==> id in ids
    ensures |q| == |ids|
  {
    DistinctCount(q);
    assert forall id :: id in Elements(q) <==> id in ids;
    assert Elements(q) == ids;
  }

  lemma RefsMeanNew(s: State)
    requires Inv(s)
    ensures forall id :: id in s.info ==> (s.info[id].refCount != 0 <==> !s.info[id].tried)
    ensures s.nNew == |NewIds(s.info)| && s.nTried == |TriedIds(s.info)|
  {
  }

  /** A pass writes every entry of its kind once, in order, and as many as the header says. */
  lemma PassForm(s: State, tried: bool)
    requires Inv(s)
    ensures Known(s.info, Pass(s, tried)) && Sorted(Pass(s, tried))
    ensures forall id :: id in Pass(s, tried) <==> id in s.info && s.info[id].tried == tried
    ensures |Pass(s, tried)| == if tried then s.nTried else s.nNew
  {
    var ids := Ascending(s.info.Keys);
    WrittenKnown(s.info, ids, tried);
    WrittenForm(s.info, ids, tried);
    RefsMeanNew(s);
    CountOf(Pass(s, tried), if tried then TriedIds(s.info) else NewIds(s.info));
  }

  /** All ids in the order in which their records are written. */
  function All(s: State): seq<int> {
    Pass(s, false) + Pass(s, true)
  }

  lemma AllForm(s: State)
    requires Inv(s)
    ensures |All(s)| == s.nNew + s.nTried && s.nNew == |Pass(s, false)|
    ensures forall k :: 0 <= k < |All(s)| ==> All(s)[k] in s.info && (s.info[All(s)[k]].tried <==> k >= s.nNew)
    ensures forall j, k :: 0 <= j < k < |All(s)| ==> All(s)[j] != All(s)[k]
    ensures forall id :: id in s.info ==> id in All(s)
  {
    hide Partial, Written, Ascending;
    PassForm(s, false);
    PassForm(s, true);
    PassesForm(s.info, Pass(s, false), Pass(s, true));
  }

  /** Two ascending passes, one over the untried entries and one over the tried ones. */
  lemma PassesForm(info: map<int, AddrInfo>, q: seq<int>, r: seq<int>)
    requires Sorted(q) && Sorted(r)
    requires forall id :: id in q <==> id in info && !info[id].tried
    requires forall id :: id in r <==> id in info && info[id].tried
    ensures forall k :: 0 <= k < |q + r| ==> (q + r)[k] in info && (info[(q + r)[k]].tried <==> k >= |q|)
    ensures forall j, k :: 0 <= j < k < |q + r| ==> (q + r)[j] != (q + r)[k]
    ensures forall id :: id in info ==> id in q + r
  {
    forall k | 0 <= k < |q + r|
      ensures (q + r)[k] in info && (info[(q + r)[k]].tried <==> k >= |q|)
    {
      var id := (q + r)[k];
      assert if k < |q| then id in q else id in r;
    }
    forall j, k | 0 <= j < k < |q + r|
      ensures (q + r)[j] != (q + r)[k]
    {
      if k < |q| {
        assert q[j] < q[k];
      } else if |q| <= j {
        assert r[j - |q|] < r[k - |q|];
      }
    }
  }

  // ----- reading the records -----

  /** The first m records are back: entry k is what was written of the k-th id, but for its count. */
  ghost predicate Copied(s: State, all: seq<int>, info: Entries, m: nat) {
    && m <= |all|
    && (forall k :: k in info <==> 0 <= k < m)
    && (forall k :: 0 <= k < m ==>
          && all[k] in s.info
          && info[k].(refCount := 0) == Revived(ToRecord(s.info[all[k]]), k).(tried := s.info[all[k]].tried))
  }

  /** The state of reading after m records and no slots. */
  ghost predicate Recorded(s: State, all: seq<int>, t: State, m: nat) {
    && Loading(t) && Unique(t.addr, t.info) && t.place == s.place
    && t.idCount == m && |t.random| == m && t.newSlots == map[]
    && Copied(s, all, t.info, m)
    && (forall k :: 0 <= k < m ==> t.info[k].refCount == 0)
  }

  /** What is known of the source of the records. */
  ghost predicate Source(s: State, all: seq<int>) {
    && (forall k :: 0 <= k < |all| ==> all[k] in s.info)
    && (forall j, k :: 0 <= j < k < |all| ==> all[j] != all[k])
    && Unique(s.addr, s.info)
    && TriedPlaced(s.place, s.triedSlots, s.info)
  }

  /** The next address to be read is not among those read so far. */
  lemma NextIsNew(s: State, all: seq<int>, t: State, m: nat)
    requires Source(s, all) && Recorded(s, all, t, m) && m < |all|
    ensures s.info[all[m]].service.net !in t.addr
  {
    forall a | a in t.addr
      ensures a != s.info[all[m]].service.net
    {
      var k := t.addr[a];
      assert k in t.info && t.info[k].service.net == a;
      var id, next := all[k], all[m];
      assert t.info[k].service == s.info[id].service && id != next;
    }
  }

  /** The tried slot of the next entry is not taken by those read so far. */
  lemma NextHasRoom(s: State, all: seq<int>, t: State, m: nat)
    requires Source(s, all) && Recorded(s, all, t, m) && m < |all| && s.info[all[m]].tried
    ensures TriedSlot(t.place, s.info[all[m]].service) !in t.triedSlots
  {
    forall sl | sl in t.triedSlots
      ensures sl != TriedSlot(t.place, s.info[all[m]].service)
    {
      var k := t.triedSlots[sl];
      assert k in t.info && t.info[k].tried && sl == TriedSlot(t.place, t.info[k].service);
      var id, next := all[k], all[m];
      assert t.info[k].service == s.info[id].service && s.info[id].tried && id != next;
      assert s.triedSlots[TriedSlot(s.place, s.info[id].service)] == id;
    }
  }

  lemma CopiedMore(s: State, all: seq<int>, info: Entries, m: nat, i: AddrInfo)
    requires Copied(s, all, info, m) && m < |all| && all[m] in s.info
    requires i == Revived(ToRecord(s.info[all[m]]), m).(tried := s.info[all[m]].tried)
    ensures Copied(s, all, info[m := i], m + 1)
  {
  }

  lemma UniqueMore(addr: map<NetAddr, int>, info: Entries, id: int, i: AddrInfo)
    requires Unique(addr, info) && i.service.net !in addr
    ensures Unique(addr[i.service.net := id], info[id := i])
  {
  }

  lemma ReadNewRecord(s: State, all: seq<int>, t: State, m: nat)
    requires Source(s, all) && Recorded(s, all, t, m) && m < |all| && !s.info[all[m]].tried && t.nNew == m
    ensures var u := LoadNewRecord(t, ToRecord(s.info[all[m]]), false);
      Recorded(s, all, u, m + 1) && u.nNew == m + 1 && u.nTried == t.nTried
  {
    hide Loading, Unique, Copied, TriedPlaced;
    var r := ToRecord(s.info[all[m]]);
    NextIsNew(s, all, t, m);
    LoadNewRecordKeeps(t, r, false);
    CopiedMore(s, all, t.info, m, Revived(r, m));
    UniqueMore(t.addr, t.info, m, Revived(r, m));
    assert Copied(s, all, LoadNewRecord(t, r, false).info, m + 1);
  }

  lemma ReadTriedRecord(s: State, all: seq<int>, t: State, m: nat)
    requires Source(s, all) && Recorded(s, all, t, m) && m < |all| && s.info[all[m]].tried
    ensures var u := LoadTriedRecord(t, ToRecord(s.info[all[m]]));
      Recorded(s, all, u, m + 1) && u.nNew == t.nNew && u.nTried == t.nTried + 1
  {
    hide Loading, Unique, Copied, TriedPlaced;
    var r := ToRecord(s.info[all[m]]);
    NextIsNew(s, all, t, m);
    NextHasRoom(s, all, t, m);
    LoadTriedRecordKeeps(t, r);
    var i := Revived(r, m).(tried := true);
    CopiedMore(s, all, t.info, m, i);
    UniqueMore(t.addr, t.info, m, i);
    assert LoadTriedRecord(t, r).info == t.info[m := i];
  }

  lemma LoadNewStep(t: State, count: nat, rebuild: bool, stream: Stream)
    ensures LoadNew(t, count, rebuild, stream) ==
      if count == 0 then Done((t, stream))
      else if stream == [] || !stream[0].Rec? then Throws
      else LoadNew(LoadNewRecord(t, stream[0].rec, rebuild), count - 1, rebuild, stream[1..])
  {
    hide LoadNewRecord;
  }

  lemma LoadTriedStep(t: State, count: nat, stream: Stream)
    ensures LoadTried(t, count, stream) ==
      if count == 0 then Done((t, stream))
      else if stream == [] || !stream[0].Rec? then Throws
      else LoadTried(LoadTriedRecord(t, stream[0].rec), count - 1, stream[1..])
  {
    hide LoadTriedRecord;
  }

  lemma {:induction false} ReadNewRecords(s: State, all: seq<int>, q: seq<int>, t: State, m: nat, rest: Stream)
    requires Source(s, all) && Recorded(s, all, t, m) && t.nNew == m <= |q| <= |all|
    requires Known(s.info, q) && (forall k :: 0 <= k < |q| ==> q[k] == all[k] && !s.info[all[k]].tried)
    ensures var r := LoadNew(t, |q| - m, false, Records(s.info, q)[m..] + rest);
      && r.Done? && r.value.1 == rest
      && Recorded(s, all, r.value.0, |q|) && r.value.0.nNew == |q| && r.value.0.nTried == t.nTried
    decreases |q| - m
  {
    hide Source, Recorded, LoadNewRecord, LoadNew, Records;
    var stream := Records(s.info, q)[m..] + rest;
    LoadNewStep(t, |q| - m, false, stream);
    if m < |q| {
      assert stream[0] == Rec(ToRecord(s.info[q[m]]));
      assert stream[1..] == Records(s.info, q)[m + 1..] + rest;
      ReadNewRecord(s, all, t, m);
      ReadNewRecords(s, all, q, LoadNewRecord(t, ToRecord(s.info[q[m]]), false), m + 1, rest);
    } else {
      assert stream == rest;
    }
  }

  lemma {:induction false} ReadTriedRecords(s: State, all: seq<int>, r: seq<int>, t: State, m: nat, rest: Stream)
    requires m <= |r| <= |all| && Source(s, all) && Recorded(s, all, t, |all| - |r| + m)
    requires Known(s.info, r)
    requires forall k :: 0 <= k < |r| ==> r[k] == all[|all| - |r| + k] && s.info[r[k]].tried
    ensures var o := LoadTried(t, |r| - m, Records(s.info, r)[m..] + rest);
      && o.Done? && o.value.1 == rest
      && Recorded(s, all, o.value.0, |all|) && o.value.0.nNew == t.nNew && o.value.0.nTried == t.nTried + |r| - m
    decreases |r| - m
  {
    hide Source, Recorded, LoadTriedRecord, LoadTried, Records;
    var stream := Records(s.info, r)[m..] + rest;
    LoadTriedStep(t, |r| - m, stream);
    if m < |r| {
      assert stream[0] == Rec(ToRecord(s.info[r[m]]));
      assert stream[1..] == Records(s.info, r)[m + 1..] + rest;
      ReadTriedRecord(s, all, t, |all| - |r| + m);
      ReadTriedRecords(s, all, r, LoadTriedRecord(t, ToRecord(s.info[r[m]])), m + 1, rest);
    } else {
      assert stream == rest;
    }
  }

  // ----- reading the slots -----

  predicate Before(sl: Slot, b: int, p: int) {
    sl.bucket < b || (sl.bucket == b && sl.pos < p)
  }

  /** The slots before position p of bucket b are back, each with the place of its id in q. */
  ghost predicate Slotted(slots: Table, q: seq<int>, slots': Table, b: int, p: int) {
    && (forall sl :: sl in slots' <==> sl in slots && Before(sl, b, p))
    && (forall sl :: sl in slots' ==> slots'[sl] == IndexIn(q, slots[sl]))
  }

  /** The state of reading with all records and some slots back. */
  ghost predicate Slotting(s: State, all: seq<int>, q: seq<int>, t: State, b: int, p: int) {
    && Loading(t) && Unique(t.addr, t.info) && t.place == s.place && t.nNew == |q| && t.nTried == |all| - |q|
    && Copied(s, all, t.info, |all|)
    && Slotted(s.newSlots, q, t.newSlots, b, p)
  }

  /** What is known of the slots that were written. */
  ghost predicate SlotSource(s: State, all: seq<int>, q: seq<int>) {
    && q <= all
    && A2(s.newSlots, s.info, {}) && A3(s.place, s.newSlots, s.info)
    && (forall id :: id in s.info && !s.info[id].tried ==> id in q)
  }

  /** An entry still short of a slot has room for it. */
  lemma RoomForRef(s: State, all: seq<int>, q: seq<int>, t: State, sl: Slot)
    requires SlotSource(s, all, q) && Slotting(s, all, q, t, sl.bucket, sl.pos) && sl in s.newSlots
    ensures s.newSlots[sl] in s.info && s.newSlots[sl] in q
    ensures var k := IndexIn(q, s.newSlots[sl]);
      k in t.info && !t.info[k].tried && t.info[k].refCount < NEW_BUCKETS_PER_ADDRESS
  {
    var id := s.newSlots[sl];
    assert id in s.info && !s.info[id].tried;
    var k := IndexIn(q, id);
    assert all[k] == id && k in t.info;
    var held, ours := Holders(s.newSlots, id), Holders(t.newSlots, k);
    assert sl in held && sl !in ours;
    forall x | x in ours
      ensures x in held - {sl}
    {
      assert x in s.newSlots;
      var other := s.newSlots[x];
      assert other in s.info && !s.info[other].tried && other in q;
    }
    SubsetCount(ours, held - {sl});
  }

  lemma CopiedRefs(s: State, all: seq<int>, info: Entries, m: nat, k: int, refs: int)
    requires Copied(s, all, info, m) && k in info
    ensures Copied(s, all, WithRefs(info, k, refs), m)
  {
  }

  lemma UniqueRefs(addr: map<NetAddr, int>, info: Entries, k: int, refs: int)
    requires Unique(addr, info) && k in info
    ensures Unique(addr, WithRefs(info, k, refs))
  {
  }

  lemma SlottedMore(slots: Table, q: seq<int>, slots': Table, b: int, p: int)
    requires Slotted(slots, q, slots', b, p)
    ensures var sl := Slot(b, p);
      if sl in slots then Slotted(slots, q, slots'[sl := IndexIn(q, slots[sl])], b, p + 1)
      else Slotted(slots, q, slots', b, p + 1)
  {
    forall sl: Slot
      ensures Before(sl, b, p + 1) <==> Before(sl, b, p) || sl == Slot(b, p)
    {
      assert sl == Slot(sl.bucket, sl.pos);
    }
  }

  lemma SlottedRow(slots: Table, q: seq<int>, slots': Table, b: int)
    requires Slotted(slots, q, slots', b, BUCKET_SIZE)
    requires forall sl :: sl in slots ==> 0 <= sl.pos < BUCKET_SIZE
    ensures Slotted(slots, q, slots', b + 1, 0)
  {
    assert forall sl :: sl in slots ==> (Before(sl, b, BUCKET_SIZE) <==> Before(sl, b + 1, 0));
  }

  /** Reading an index puts the entry back in the slot it had. */
  lemma ReadIndex(s: State, all: seq<int>, q: seq<int>, t: State, sl: Slot)
    requires SlotSource(s, all, q) && Slotting(s, all, q, t, sl.bucket, sl.pos) && sl in s.newSlots
    ensures Loading(t)
    ensures Slotting(s, all, q, LoadIndex(t, sl.bucket, IndexIn(q, s.newSlots[sl]), true), sl.bucket, sl.pos + 1)
  {
    hide SlotSource, Loading, Unique, Copied, Slotted, Partial, SlotIn, IndexIn;
    RoomForRef(s, all, q, t, sl);
    OwnSlot(s, all, q, t, sl);
    var k := IndexIn(q, s.newSlots[sl]);
    LoadIndexKeeps(t, sl.bucket, k, true);
    CopiedRefs(s, all, t.info, |all|, k, t.info[k].refCount + 1);
    UniqueRefs(t.addr, t.info, k, t.info[k].refCount + 1);
    SlottedMore(s.newSlots, q, t.newSlots, sl.bucket, sl.pos);
    assert sl == Slot(sl.bucket, sl.pos);
  }

  lemma OwnSlot(s: State, all: seq<int>, q: seq<int>, t: State, sl: Slot)
    requires SlotSource(s, all, q) && Slotting(s, all, q, t, sl.bucket, sl.pos) && sl in s.newSlots
    ensures var k := IndexIn(q, s.newSlots[sl]);
      && 0 <= k < t.nNew && k in t.info && 0 <= sl.bucket < NEW_BUCKET_COUNT
      && SlotIn(t.place, t.info[k].service, sl.bucket) == sl
    ensures sl !in t.newSlots
    ensures forall id :: 0 <= id < t.nNew ==> id in t.info
  {
    var id := s.newSlots[sl];
    assert id in s.info && !s.info[id].tried;
    var k := IndexIn(q, id);
    assert all[k] == id && k in t.info;
  }

  lemma SlottingLoads(s: State, all: seq<int>, q: seq<int>, t: State, b: int, p: nat)
    requires Slotting(s, all, q, t, b, p)
    ensures Loading(t)
  {
  }

  /** A slot that held nothing is passed over. */
  lemma SlottingSkips(s: State, all: seq<int>, q: seq<int>, t: State, b: int, p: nat)
    requires Slotting(s, all, q, t, b, p) && Slot(b, p) !in s.newSlots
    ensures Slotting(s, all, q, t, b, p + 1)
  {
    hide SlotSource, Slotted, Copied, Unique, Partial, IndexIn;
    SlottedMore(s.newSlots, q, t.newSlots, b, p);
  }

  lemma {:induction false} ReadIndices(s: State, all: seq<int>, q: seq<int>, t: State, b: int, p: nat, rest: Stream)
    requires SlotSource(s, all, q) && p <= BUCKET_SIZE && Slotting(s, all, q, t, b, p)
    ensures Loading(t)
    ensures var indices := BucketIndices(s.newSlots, q, b, p);
      var o := LoadIndices(t, b, |indices|, true, indices + rest);
      o.Done? && o.value.1 == rest && Slotting(s, all, q, o.value.0, b, BUCKET_SIZE)
    decreases BUCKET_SIZE - p
  {
    hide SlotSource, Slotting, IndexIn, LoadIndex, Loading;
    SlottingLoads(s, all, q, t, b, p);
    var indices := BucketIndices(s.newSlots, q, b, p);
    if p == BUCKET_SIZE {
      assert indices + rest == rest;
    } else {
      var sl := Slot(b, p);
      if sl in s.newSlots {
        var k := IndexIn(q, s.newSlots[sl]);
        var more := BucketIndices(s.newSlots, q, b, p + 1);
        ReadIndex(s, all, q, t, sl);
        ReadIndices(s, all, q, LoadIndex(t, b, k, true), b, p + 1, rest);
        assert indices == [I32(k)] + more;
        assert (indices + rest)[0] == I32(k) && (indices + rest)[1..] == more + rest;
      } else {
        SlottingSkips(s, all, q, t, b, p);
        ReadIndices(s, all, q, t, b, p + 1, rest);
        assert indices == BucketIndices(s.newSlots, q, b, p + 1);
      }
    }
  }

  lemma {:induction false} ReadBuckets(s: State, all: seq<int>, q: seq<int>, t: State, b: nat)
    requires SlotSource(s, all, q) && b <= NEW_BUCKET_COUNT && Slotting(s, all, q, t, b, 0)
    ensures Loading(t)
    ensures var o := LoadBuckets(t, b, NEW_BUCKET_COUNT, true, Buckets(s.newSlots, q, b));
      o.Done? && Slotting(s, all, q, o.value, NEW_BUCKET_COUNT, 0)
    decreases NEW_BUCKET_COUNT - b
  {
    hide SlotSource, Slotted, Copied, Unique, Partial, BucketIndices;
    if b < NEW_BUCKET_COUNT {
      var indices, rest := BucketIndices(s.newSlots, q, b, 0), Buckets(s.newSlots, q, b + 1);
      BucketsSplit(s.newSlots, q, b);
      PosInRange(s, all, q);
      ReadIndices(s, all, q, t, b, 0, rest);
      var u := LoadIndices(t, b, |indices|, true, indices + rest).value.0;
      SlottedRow(s.newSlots, q, u.newSlots, b);
      ReadBuckets(s, all, q, u, b + 1);
    }
  }

  lemma BucketsSplit(slots: Table, q: seq<int>, b: nat)
    requires b < NEW_BUCKET_COUNT
    ensures var indices := BucketIndices(slots, q, b, 0);
      var stream := Buckets(slots, q, b);
      |stream| > 0 && stream[0] == I32(|indices|) && stream[1..] == indices + Buckets(slots, q, b + 1)
  {
    hide BucketIndices;
  }

  lemma PosInRange(s: State, all: seq<int>, q: seq<int>)
    requires SlotSource(s, all, q)
    ensures forall sl :: sl in s.newSlots ==> 0 <= sl.bucket < NEW_BUCKET_COUNT && 0 <= sl.pos < BUCKET_SIZE
  {
  }

  // ----- the whole stream -----

  lemma StartOfWritten(s: State, rest: Stream)
    requires Inv(s)
    ensures ReadStart(Header(s) + rest) == Done(Start(1, s.place.key, s.nNew, s.nTried, NEW_BUCKET_COUNT))
    ensures (Header(s) + rest)[6..] == rest
  {
    NewFits(s);
    TriedFits(s);
  }

  lemma SourceOfWritten(s: State)
    requires Inv(s) && Unique(s.addr, s.info)
    ensures Source(s, All(s)) && SlotSource(s, All(s), Pass(s, false))
  {
    AllForm(s);
    PassForm(s, false);
  }

  lemma NothingRecorded(s: State, all: seq<int>)
    ensures Recorded(s, all, Empty(s.place), 0)
  {
    EmptyIsLoading(s.place);
  }

  /** What is written after the header: the new records, then the tried records and the slots. */
  function Tail(s: State): Stream
    requires Known(s.info, Pass(s, true))
  {
    Records(s.info, Pass(s, true)) + Buckets(s.newSlots, Pass(s, false), 0)
  }

  lemma SerializeForm(s: State)
    requires Known(s.info, Pass(s, false)) && Known(s.info, Pass(s, true))
    ensures Serialize(s) == Header(s) + (Records(s.info, Pass(s, false)) + Tail(s))
  {
    hide Written, Ascending, Records, Buckets, Header;
  }

  /** Reading the new records, then the tried ones. */
  lemma ReadRecords(s: State)
    requires Inv(s) && Unique(s.addr, s.info)
    ensures Known(s.info, Pass(s, false)) && Known(s.info, Pass(s, true))
    ensures var o := LoadNew(Empty(s.place), s.nNew, false, Records(s.info, Pass(s, false)) + Tail(s));
      && o.Done? && o.value.1 == Tail(s)
      && var o' := LoadTried(o.value.0, s.nTried, Tail(s));
         o'.Done? && o'.value.1 == Buckets(s.newSlots, Pass(s, false), 0) &&
         Slotting(s, All(s), Pass(s, false), o'.value.0, 0, 0)
  {
    hide Partial, Recorded, Slotting, Source, SlotSource, Unique, Written, Ascending, Records, Buckets, LoadNew,
         LoadTried, Inv, Pass;
    var all, q, r := All(s), Pass(s, false), Pass(s, true);
    PassForm(s, false);
    PassForm(s, true);
    SourceOfWritten(s);
    ReadFirst(s);
    assert Records(s.info, r)[0..] == Records(s.info, r);
    PassKinds(s);
    var t := LoadNew(Empty(s.place), |q|, false, Records(s.info, q) + Tail(s)).value.0;
    ReadTriedRecords(s, all, r, t, 0, Buckets(s.newSlots, q, 0));
    RecordedThenSlotting(s, all, q, LoadTried(t, |r|, Tail(s)).value.0);
  }

  lemma ReadFirst(s: State)
    requires Inv(s) && Unique(s.addr, s.info)
    ensures Known(s.info, Pass(s, false)) && Known(s.info, Pass(s, true)) && s.nNew == |Pass(s, false)|
    ensures var o := LoadNew(Empty(s.place), s.nNew, false, Records(s.info, Pass(s, false)) + Tail(s));
      && o.Done? && o.value.1 == Tail(s) && Recorded(s, All(s), o.value.0, s.nNew)
      && o.value.0.nNew == s.nNew && o.value.0.nTried == 0
  {
    hide Partial, Recorded, Source, Unique, Written, Ascending, Records, Buckets, LoadNew, Inv, Pass;
    var all, q := All(s), Pass(s, false);
    PassForm(s, false);
    PassForm(s, true);
    PassKinds(s);
    SourceOfWritten(s);
    NothingRecorded(s, all);
    ReadNewRecords(s, all, q, Empty(s.place), 0, Tail(s));
    assert Records(s.info, q)[0..] == Records(s.info, q);
  }

  /** Nothing that was written is dropped: every record and every slot is read back. */
  lemma TablesOfWritten(s: State)
    requires Inv(s) && Unique(s.addr, s.info)
    ensures Tables(s.place.h, Serialize(s)).Done?
    ensures Slotting(s, All(s), Pass(s, false), Tables(s.place.h, Serialize(s)).value, NEW_BUCKET_COUNT, 0)
  {
    hide Partial, Slotting, SlotSource, Unique, ReadStart, Header, Records, Buckets, LoadNew, LoadTried, LoadBuckets,
      Written, Ascending, Loading, Serialize, Tail, FlipBit30;
    ReadRecords(s);
    SerializeForm(s);
    StartOfWritten(s, Records(s.info, Pass(s, false)) + Tail(s));
    SourceOfWritten(s);
    var t := LoadNew(Empty(s.place), s.nNew, false, Records(s.info, Pass(s, false)) + Tail(s)).value.0;
    ReadBuckets(s, All(s), Pass(s, false), LoadTried(t, s.nTried, Tail(s)).value.0, 0);
    assert s.place == Place(s.place.h, s.place.key);
  }

  lemma PassKinds(s: State)
    requires Inv(s)
    ensures var q, r, all := Pass(s, false), Pass(s, true), All(s);
      && (forall k :: 0 <= k < |q| ==> q[k] == all[k] && q[k] in s.info && !s.info[q[k]].tried)
      && (forall k :: 0 <= k < |r| ==> r[k] == all[|all| - |r| + k] && r[k] in s.info && s.info[r[k]].tried)
  {
    hide Partial, Written, Ascending;
    PassForm(s, false);
    PassForm(s, true);
    var q, r := Pass(s, false), Pass(s, true);
    forall k | 0 <= k < |q|
      ensures q[k] in s.info && !s.info[q[k]].tried
    {
      var id := q[k];
      assert id in q;
    }
    forall k | 0 <= k < |r|
      ensures r[k] in s.info && s.info[r[k]].tried
    {
      var id := r[k];
      assert id in r;
    }
  }

  lemma RecordedThenSlotting(s: State, all: seq<int>, q: seq<int>, t: State)
    requires Recorded(s, all, t, |all|) && t.nNew == |q| && t.nTried == |all| - |q| && SlotSource(s, all, q)
    ensures Slotting(s, all, q, t, 0, 0)
  {
    PosInRange(s, all, q);
  }

  // ----- the same tables -----

  /** The id an entry has once it is read back. */
  function Renaming(s: State): map<int, int> {
    map id | id in s.info :: IndexIn(All(s), id)
  }

  ghost predicate SameSlots(slots: Table, slots': Table, f: map<int, int>) {
    && (forall sl :: sl in slots' <==> sl in slots)
    && (forall sl :: sl in slots ==> slots[sl] in f && slots'[sl] == f[slots[sl]])
  }

  ghost predicate SameAddresses(addr: map<NetAddr, int>, addr': map<NetAddr, int>, f: map<int, int>) {
    && (forall a :: a in addr' <==> a in addr)
    && (forall a :: a in addr ==> addr[a] in f && addr'[a] == f[addr[a]])
  }

  /** The entries are back one to one, and each is what was written, its last attempt forgotten. */
  ghost predicate EntriesBack(s: State, t: State, f: map<int, int>) {
    && (forall id :: id in f <==> id in s.info)
    && (forall id :: id in f ==> f[id] in t.info && Alike(t.info[f[id]], s.info[id].(lastTry := 0)))
    && (forall id, id' :: id in f && id' in f && id != id' ==> f[id] != f[id'])
    && (forall k :: k in t.info ==> exists id :: id in f && f[id] == k)
  }

  /** One state is another with its ids renamed, entries' last attempts forgotten and random reordered. */
  ghost predicate SameTables(s: State, t: State, f: map<int, int>) {
    && t.place == s.place && t.nNew == s.nNew && t.nTried == s.nTried
    && EntriesBack(s, t, f)
    && SameSlots(s.newSlots, t.newSlots, f)
    && SameSlots(s.triedSlots, t.triedSlots, f)
    && SameAddresses(s.addr, t.addr, f)
  }

  /** What the read-back state is known to satisfy. */
  ghost predicate ReadBack(s: State, t: State) {
    Slotting(s, All(s), Pass(s, false), t, NEW_BUCKET_COUNT, 0)
  }

  lemma RenamingForm(s: State)
    requires Inv(s)
    ensures var f, all := Renaming(s), All(s);
      && (forall id :: id in f <==> id in s.info)
      && (forall id :: id in f ==> 0 <= f[id] < |all| && all[f[id]] == id)
      && (forall k :: 0 <= k < |all| ==> all[k] in f && f[all[k]] == k)
  {
    hide Partial, Written, Ascending;
    AllForm(s);
    var f, all := Renaming(s), All(s);
    forall k | 0 <= k < |all|
      ensures all[k] in f && f[all[k]] == k
    {
      var id := all[k];
      assert id in s.info && id in all;
      var j := IndexIn(all, id);
      assert all[j] == all[k];
    }
  }

  /** A new entry's id once read back is its place among the new records. */
  lemma NewNames(s: State, id: int)
    requires Inv(s) && id in Pass(s, false)
    ensures id in Renaming(s) && Renaming(s)[id] == IndexIn(Pass(s, false), id)
  {
    hide Partial, Written, Ascending;
    RenamingForm(s);
    var k := IndexIn(Pass(s, false), id);
    assert All(s)[k] == id;
  }

  lemma SlotsRenamed(slots: Table, q: seq<int>, slots': Table, f: map<int, int>)
    requires Slotted(slots, q, slots', NEW_BUCKET_COUNT, 0)
    requires forall sl :: sl in slots ==> Before(sl, NEW_BUCKET_COUNT, 0)
    requires forall sl :: sl in slots ==> slots[sl] in f && f[slots[sl]] == IndexIn(q, slots[sl])
    ensures SameSlots(slots, slots', f)
  {
  }

  /** In the new table every slot is back with its own entry. */
  lemma NewSlotsBack(s: State, t: State)
    requires Inv(s) && ReadBack(s, t)
    ensures SameSlots(s.newSlots, t.newSlots, Renaming(s))
  {
    hide Partial, Written, Ascending, Loading, Copied, Slotted, Pass, Renaming, IndexIn;
    InvSlots(s);
    PassForm(s, false);
    forall sl | sl in s.newSlots
      ensures s.newSlots[sl] in Renaming(s) && Renaming(s)[s.newSlots[sl]] == IndexIn(Pass(s, false), s.newSlots[sl])
    {
      var id := s.newSlots[sl];
      assert id in s.info && !s.info[id].tried;
      NewNames(s, id);
    }
    SlotsRenamed(s.newSlots, Pass(s, false), t.newSlots, Renaming(s));
  }

  lemma InvSlots(s: State)
    requires Inv(s)
    ensures forall sl :: sl in s.newSlots ==> s.newSlots[sl] in s.info && !s.info[s.newSlots[sl]].tried
    ensures forall sl :: sl in s.newSlots ==> Before(sl, NEW_BUCKET_COUNT, 0)
  {
  }

  lemma CountsHolders(s: State, id: int, limbo: set<int>)
    requires Partial(s, limbo, 0) && id in s.info
    ensures s.info[id].refCount == if s.info[id].tried then 0 else |Holders(s.newSlots, id)|
  {
  }

  /** Each entry is back as it was written, and holds as many slots as it did. */
  lemma EntryBack(s: State, t: State, id: int)
    requires Inv(s) && ReadBack(s, t) && id in s.info
    ensures id in Renaming(s) && Renaming(s)[id] in t.info
    ensures Alike(t.info[Renaming(s)[id]], s.info[id].(lastTry := 0))
  {
    hide Partial, Written, Ascending, Renaming, SameSlots, Slotted, Unique, Holders;
    RenamingForm(s);
    NewSlotsBack(s, t);
    var k := Renaming(s)[id];
    assert k in t.info && All(s)[k] == id;
    assert t.info[k].tried == s.info[id].tried;
    CountsHolders(s, id, {});
    CountsHolders(t, k, t.info.Keys);
    SameHolders(s, t, id);
    assert Holders(t.newSlots, k) == Holders(s.newSlots, id);
  }

  lemma SameHolders(s: State, t: State, id: int)
    requires Inv(s) && id in s.info && SameSlots(s.newSlots, t.newSlots, Renaming(s))
    ensures forall sl :: sl in Holders(t.newSlots, Renaming(s)[id]) <==> sl in Holders(s.newSlots, id)
  {
    RenamingForm(s);
    hide Partial, Written, Ascending;
    var f := Renaming(s);
    forall sl | sl in s.newSlots
      ensures f[s.newSlots[sl]] == f[id] <==> s.newSlots[sl] == id
    {
      var other := s.newSlots[sl];
      assert other in f && All(s)[f[other]] == other && All(s)[f[id]] == id;
    }
  }

  lemma AllEntriesBack(s: State, t: State)
    requires Inv(s) && ReadBack(s, t)
    ensures EntriesBack(s, t, Renaming(s))
  {
    hide Partial, Written, Ascending, Renaming, SameSlots, Slotted, Unique, Holders, Alike;
    RenamingForm(s);
    var f, all := Renaming(s), All(s);
    forall id | id in f
      ensures f[id] in t.info && Alike(t.info[f[id]], s.info[id].(lastTry := 0))
    {
      EntryBack(s, t, id);
    }
    forall k | k in t.info
      ensures exists id :: id in f && f[id] == k
    {
      var id := all[k];
      assert id in f && f[id] == k;
    }
    forall id, id' | id in f && id' in f && id != id'
      ensures f[id] != f[id']
    {
      assert all[f[id]] == id && all[f[id']] == id';
    }
  }

  lemma TriedSlotsBack(p: Place, slots: Table, slots': Table, s: State, t: State, f: map<int, int>)
    requires TriedPlaced(p, slots, s.info) && TriedPlaced(p, slots', t.info) && EntriesBack(s, t, f)
    ensures SameSlots(slots, slots', f)
  {
    hide TriedSlot;
    forall sl | sl in slots
      ensures sl in slots' && slots[sl] in f && slots'[sl] == f[slots[sl]]
    {
      var id := slots[sl];
      assert id in s.info && id in f;
      var k := f[id];
      assert k in t.info && t.info[k].tried && t.info[k].service == s.info[id].service;
      assert slots'[TriedSlot(p, t.info[k].service)] == k;
    }
    forall sl | sl in slots'
      ensures sl in slots
    {
      var k := slots'[sl];
      assert k in t.info;
      var id :| id in f && f[id] == k;
      assert id in s.info && s.info[id].tried && t.info[k].service == s.info[id].service;
      assert TriedSlot(p, s.info[id].service) in slots;
    }
  }

  lemma AddressesBack(s: State, t: State, f: map<int, int>)
    requires EntriesBack(s, t, f)
    requires Linked(s.addr, s.info, s.idCount) && Unique(s.addr, s.info)
    requires Linked(t.addr, t.info, t.idCount) && Unique(t.addr, t.info)
    ensures SameAddresses(s.addr, t.addr, f)
  {
    forall a | a in s.addr
      ensures a in t.addr && s.addr[a] in f && t.addr[a] == f[s.addr[a]]
    {
      var id := s.addr[a];
      assert id in s.info && id in f;
      var k := f[id];
      assert k in t.info && t.info[k].service == s.info[id].service;
    }
    forall a | a in t.addr
      ensures a in s.addr
    {
      var k := t.addr[a];
      assert k in t.info;
      var id :| id in f && f[id] == k;
      assert id in s.info && t.info[k].service == s.info[id].service;
    }
  }

  /** With every new entry in some slot, nothing is pruned. */
  lemma {:induction false} NothingPruned(t: State, ids: seq<int>, limbo: set<int>)
    requires Partial(t, limbo, 0)
    requires forall k :: k in t.info && !t.info[k].tried ==> t.info[k].refCount != 0
    ensures Prune(t, ids, limbo) == t
    decreases |ids|
  {
    hide Partial;
    if ids != [] {
      NothingPruned(t, ids[1..], limbo);
    }
  }

  lemma NoLimbo(s: State, t: State, f: map<int, int>)
    requires Inv(s) && EntriesBack(s, t, f)
    ensures forall k :: k in t.info && !t.info[k].tried ==> t.info[k].refCount != 0
  {
    RefsMeanNew(s);
    hide Partial;
    forall k | k in t.info && !t.info[k].tried
      ensures t.info[k].refCount != 0
    {
      var id :| id in f && f[id] == k;
      assert id in s.info;
    }
  }

  lemma TablesBack(s: State, t: State)
    requires Inv(s) && Unique(s.addr, s.info) && ReadBack(s, t)
    ensures SameTables(s, t, Renaming(s))
  {
    hide A1, A2, A3, TriedPlaced, Counted, Linked, Unique, Written, Ascending, Renaming, Slotted, Copied, Alike,
         SameSlots, EntriesBack, SameAddresses;
    AllForm(s);
    AllEntriesBack(s, t);
    NewSlotsBack(s, t);
    var f := Renaming(s);
    TriedSlotsBack(s.place, s.triedSlots, t.triedSlots, s, t, f);
    AddressesBack(s, t, f);
  }

  /**
  Writing consistent tables with unique addresses and reading the stream back gives consistent tables
  again: the same entries, slots, counts and addresses under renamed ids.
  */
  lemma RoundTrip(s: State)
    requires Inv(s) && Unique(s.addr, s.info)
    ensures var o := Unserialize(s.place.h, Serialize(s));
      o.Done? && Inv(o.value) && Unique(o.value.addr, o.value.info) && SameTables(s, o.value, Renaming(s))
  {
    hide Partial, Written, Ascending, Renaming, SameTables, Tables, Slotted, Copied, Unique, Serialize;
    TablesOfWritten(s);
    var t := Tables(s.place.h, Serialize(s)).value;
    TablesBack(s, t);
    AllEntriesBack(s, t);
    NoLimbo(s, t, Renaming(s));
    TablesAreLoading(s.place.h, Serialize(s));
    NothingPruned(t, Ascending(t.info.Keys), t.info.Keys);
    UnserializeIsSafe(s.place.h, Serialize(s));
  }

  // ----- files without duplicates -----

  /** No two records of a stream share an address, and none shares one with those already read. */
  ghost predicate Distinct(addr: map<NetAddr, int>, stream: Stream) {
    && (forall i :: 0 <= i < |stream| && stream[i].Rec? ==> stream[i].rec.service.net !in addr)
    && (forall i, j :: 0 <= i < j < |stream| && stream[i].Rec? && stream[j].Rec? ==>
          stream[i].rec.service.net != stream[j].rec.service.net)
  }

  lemma DistinctTail(addr: map<NetAddr, int>, stream: Stream, id: int)
    requires Distinct(addr, stream) && stream != [] && stream[0].Rec?
    ensures Distinct(addr[stream[0].rec.service.net := id], stream[1..])
    ensures Distinct(addr, stream[1..])
  {
  }

  lemma {:induction false} LoadNewUnique(s: State, count: nat, rebuild: bool, stream: Stream)
    requires Unique(s.addr, s.info) && Distinct(s.addr, stream)
    ensures var o := LoadNew(s, count, rebuild, stream);
      o.Done? ==> Unique(o.value.0.addr, o.value.0.info) && Distinct(o.value.0.addr, o.value.1)
    decreases count
  {
    hide Unique, NewSlot, SlotIn;
    if count > 0 && stream != [] && stream[0].Rec? {
      var r := stream[0].rec;
      assert r.service.net !in s.addr;
      hide Distinct;
      UniqueMore(s.addr, s.info, s.idCount, Revived(r, |s.random|));
      DistinctTail(s.addr, stream, s.idCount);
      var t := Revive(s, r).(nNew := s.nNew + 1);
      UniqueRefs(t.addr, t.info, s.idCount, 1);
      LoadNewUnique(LoadNewRecord(s, r, rebuild), count - 1, rebuild, stream[1..]);
    }
  }

  lemma {:induction false} LoadTriedUnique(s: State, count: nat, stream: Stream)
    requires Unique(s.addr, s.info) && Distinct(s.addr, stream)
    ensures var o := LoadTried(s, count, stream);
      o.Done? ==> Unique(o.value.0.addr, o.value.0.info)
    decreases count
  {
    hide Unique, TriedSlot;
    if count > 0 && stream != [] && stream[0].Rec? {
      var r := stream[0].rec;
      assert r.service.net !in s.addr;
      hide Distinct;
      var i := Revived(r, |s.random|).(tried := true);
      UniqueMore(s.addr, s.info, s.idCount, i);
      DistinctTail(s.addr, stream, s.idCount);
      var t := LoadTriedRecord(s, r);
      assert TriedSlot(s.place, r.service) !in s.triedSlots ==> t.info == s.info[s.idCount := i];
      LoadTriedUnique(t, count - 1, stream[1..]);
    }
  }

  lemma {:induction false} LoadIndicesUnique(s: State, bucket: int, count: int, usable: bool, stream: Stream)
    requires Unique(s.addr, s.info) && forall id :: 0 <= id < s.nNew ==> id in s.info
    ensures var o := LoadIndices(s, bucket, count, usable, stream);
      o.Done? ==> Unique(o.value.0.addr, o.value.0.info)
    decreases |stream|
  {
    hide Unique, SlotIn;
    if count > 0 && stream != [] && stream[0].I32? {
      var index := stream[0].num;
      if 0 <= index < s.nNew {
        UniqueRefs(s.addr, s.info, index, s.info[index].refCount + 1);
      }
      LoadIndicesUnique(LoadIndex(s, bucket, index, usable), bucket, count - 1, usable, stream[1..]);
    }
  }

  lemma {:induction false} LoadBucketsUnique(s: State, bucket: int, buckets: int, usable: bool, stream: Stream)
    requires Unique(s.addr, s.info) && forall id :: 0 <= id < s.nNew ==> id in s.info
    ensures var o := LoadBuckets(s, bucket, buckets, usable, stream);
      o.Done? ==> Unique(o.value.addr, o.value.info)
    decreases |stream|
  {
    hide Unique, LoadIndices;
    if bucket < buckets && stream != [] && stream[0].I32? {
      LoadIndicesUnique(s, bucket, stream[0].num, usable, stream[1..]);
      match LoadIndices(s, bucket, stream[0].num, usable, stream[1..])
      case Throws =>
      case Done((t, rest)) => LoadBucketsUnique(t, bucket + 1, buckets, usable, rest);
    }
  }

  lemma {:induction false} PruneUnique(s: State, ids: seq<int>, limbo: set<int>)
    requires Partial(s, limbo, 0) && Unique(s.addr, s.info)
    ensures Unique(Prune(s, ids, limbo).addr, Prune(s, ids, limbo).info)
    decreases |ids|
  {
    hide Partial, Unique;
    if ids != [] {
      if ids[0] in s.info && !s.info[ids[0]].tried && s.info[ids[0]].refCount == 0 {
        DeleteKeeps(s, ids[0], limbo, 0);
        PruneUnique(Delete(s, ids[0]), ids[1..], limbo - {ids[0]});
      } else {
        PruneUnique(s, ids[1..], limbo);
      }
    }
  }

  lemma TablesUnique(h: Hasher, stream: Stream)
    requires Distinct(map[], stream)
    ensures var o := Tables(h, stream); o.Done? ==> Unique(o.value.addr, o.value.info)
  {
    hide Partial, LoadNew, LoadTried, LoadBuckets;
    match ReadStart(stream)
    case Throws =>
    case Done(start) =>
      var s := Empty(Place(h, start.key));
      EmptyIsLoading(s.place);
      LoadNewKeeps(s, start.nNew, !Usable(start), stream[6..]);
      assert Distinct(map[], stream[6..]);
      hide Distinct;
      LoadNewUnique(s, start.nNew, !Usable(start), stream[6..]);
      match LoadNew(s, start.nNew, !Usable(start), stream[6..])
      case Throws =>
      case Done((t, rest)) =>
        LoadTriedKeeps(t, start.nTried, rest);
        LoadTriedUnique(t, start.nTried, rest);
        match LoadTried(t, start.nTried, rest)
        case Throws =>
        case Done((u, indices)) => LoadBucketsUnique(u, 0, start.buckets, Usable(start), indices);
  }

  /** A file in which no address occurs twice gives tables in which none does. */
  lemma UnserializeUnique(h: Hasher, stream: Stream)
    requires Distinct(map[], stream)
    ensures var o := Unserialize(h, stream); o.Done? ==> Unique(o.value.addr, o.value.info)
  {
    hide Partial, Tables, Ascending, Distinct, Unique;
    TablesAreLoading(h, stream);
    TablesUnique(h, stream);
    if Tables(h, stream).Done? {
      var s := Tables(h, stream).value;
      PruneUnique(s, Ascending(s.info.Keys), s.info.Keys);
    }
  }

  /** A file of the old version that holds one record twice. */
  function Doubled(r: Record): Stream {
    [U8(0), U8(32), Key(0), I32(2), I32(0), I32(0), Rec(r), Rec(r)]
  }

  /**
  With duplicates the link can fail. Both copies want the same slot, so the second is pruned, and
  that erases the address of the first: an entry is left that Find does not reach.
  */
  lemma DuplicatesBreakTheLink(h: Hasher, r: Record)
    ensures var o := Unserialize(h, Doubled(r));
      o.Done? && 0 in o.value.info && Find(o.value, r.service.net).None? && !Unique(o.value.addr, o.value.info)
  {
    hide Partial, NewSlot, SlotIn, Tables, Ascending, LoadNewRecord;
    DoubledTables(h, r);
    DoubledRead(Place(h, 0), r);
    TablesAreLoading(h, Doubled(r));
    var s := Twins(Place(h, 0), r);
    PruneTwins(s, r);
    AscendingTwo(s.info.Keys);
  }

  /** The tables with both copies read and one slot between them. */
  function Twins(p: Place, r: Record): State {
    State(p, 2, map[0 := Revived(r, 0).(refCount := 1), 1 := Revived(r, 1)], map[r.service.net := 1], [0, 1],
          map[NewSlot(p, r.service, r.source) := 0], map[], 2, 0)
  }

  lemma DoubledRead(p: Place, r: Record)
    ensures LoadNewRecord(LoadNewRecord(Empty(p), r, true), r, true) == Twins(p, r)
  {
    hide NewSlot;
    var s1 := LoadNewRecord(Empty(p), r, true);
    assert s1.info == map[0 := Revived(r, 0).(refCount := 1)] && s1.random == [0];
    var s2 := LoadNewRecord(s1, r, true);
    assert s2.info == Twins(p, r).info && s2.random == [0, 1];
  }

  lemma PruneTwins(s: State, r: Record)
    requires s == Twins(s.place, r) && Partial(s, s.info.Keys, 0)
    ensures var t := Prune(s, [0, 1], s.info.Keys);
      t.info == map[0 := Revived(r, 0).(refCount := 1)] && t.addr == map[]
  {
    hide Partial, NewSlot;
    assert [0, 1][1..] == [1] && [1][1..] == [];
    DeleteKeeps(s, 1, s.info.Keys, 0);
    var t := Delete(s, 1);
    assert t.info == map[0 := Revived(r, 0).(refCount := 1)] && t.addr == map[];
    assert Prune(s, [0, 1], s.info.Keys) == Prune(s, [1], s.info.Keys);
    assert Prune(t, [], s.info.Keys - {1}) == t;
  }

  lemma AscendingTwo(ids: set<int>)
    requires ids == {0, 1}
    ensures Ascending(ids) == [0, 1]
  {
    var q := Ascending(ids);
    assert 0 in q && 1 in q && |q| == 2;
    assert q[0] in ids && q[1] in ids;
  }

  lemma DoubledTables(h: Hasher, r: Record)
    ensures Tables(h, Doubled(r)) ==
              Done(LoadNewRecord(LoadNewRecord(Empty(Place(h, 0)), r, true), r, true))
  {
    hide LoadNewRecord;
    var stream := Doubled(r)[6..];
    assert stream == [Rec(r), Rec(r)] && stream[1..] == [Rec(r)] && stream[1..][1..] == [];
  }
}
