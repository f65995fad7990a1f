/**
The on-disk form of the address tables: what is written, and what reading any
stream at all does.

A stream is a sequence of typed values. A read that meets another kind of value
or the end of the stream throws.
*/
module AddrDisk {
  import opened AddrState
  import opened AddrInvariant
  import opened AddrOps
  import opened AddrCounts

  /** The part of an entry that goes to disk. */
  datatype Record = Record(
    service: Service,
    services: Flags,
    time: nat,
    source: NetAddr,
    lastSuccess: int,
    attempts: int)

  datatype Token = U8(byte: int) | Key(key: nat) | I32(num: int) | Rec(rec: Record)

  type Stream = seq<Token>

  const BIT30 := 0x4000_0000

  /** Exclusive or with 2^30 on a two's complement number. */
  function FlipBit30(n: int): int {
    if (n / BIT30) % 2 == 0 then n + BIT30 else n - BIT30
  }

  function ToRecord(i: AddrInfo): Record {
    Record(i.service, i.services, i.time, i.source, i.lastSuccess, i.attempts)
  }

  // ----- writing -----

  /** The smallest id of a set. */
  function Smallest(ids: set<int>): (m: int)
    requires ids != {}
    ensures m in ids && forall x :: x in ids ==> m <= x
  {
    SmallestExists(ids);
    var m :| m in ids && forall x :: x in ids ==> m <= x;
    m
  }

  lemma {:induction false} SmallestExists(ids: set<int>)
    requires ids != {}
    ensures exists m :: m in ids && forall x :: x in ids ==> m <= x
    decreases |ids|
  {
    var y := SomeOf(ids);
    var rest := ids - {y};
    if rest == {} {
      assert forall x :: x in ids ==> x == y || x in rest;
    } else {
      SmallestExists(rest);
      var m :| m in rest && forall x :: x in rest ==> m <= x;
      var least := if y < m then y else m;
      assert forall x :: x in ids ==> x == y || x in rest;
      assert least in ids && forall x :: x in ids ==> least <= x;
    }
  }

  /** The ids of a set in ascending order, the order in which a map is walked. */
  function Ascending(ids: set<int>): (q: seq<int>)
    ensures forall x :: x in q <==> x in ids
    ensures forall i, j :: 0 <= i < j < |q| ==> q[i] < q[j]
    ensures |q| == |ids|
  {
    if ids == {} then [] else
    var m := Smallest(ids);
    [m] + Ascending(ids - {m})
  }

  predicate Known(info: Entries, q: seq<int>) {
    forall k :: 0 <= k < |q| ==> q[k] in info
  }

  /** Which pass of the writer an entry is written in: the one for referenced entries or the one for tried ones. */
  predicate Picked(i: AddrInfo, tried: bool) {
    if tried then i.tried else i.refCount != 0
  }

  /** The ids written in one pass over the entries. */
  function Written(info: Entries, q: seq<int>, tried: bool): seq<int>
    requires Known(info, q)
  {
    if q == [] then [] else
    (if Picked(info[q[0]], tried) then [q[0]] else []) + Written(info, q[1..], tried)
  }

  function Records(info: Entries, q: seq<int>): (r: Stream)
    requires Known(info, q)
    ensures |r| == |q| && forall k :: 0 <= k < |q| ==> r[k] == Rec(ToRecord(info[q[k]]))
  {
    seq(|q|, k requires 0 <= k < |q| => Rec(ToRecord(info[q[k]])))
  }

  /** The place of an id in a list, 0 if it is not there. */
  function IndexIn(q: seq<int>, id: int): (k: nat)
    ensures id in q ==> k < |q| && q[k] == id
  {
    if q == [] || q[0] == id then 0 else
    var k := IndexIn(q[1..], id);
    if id in q then k + 1 else 0
  }

  /** The indices of the entries in the positions of a bucket from p on. */
  function BucketIndices(slots: Table, q: seq<int>, bucket: int, p: nat): Stream
    requires p <= BUCKET_SIZE
    decreases BUCKET_SIZE - p
  {
    if p == BUCKET_SIZE then [] else
    var sl := Slot(bucket, p);
    (if sl in slots then [I32(IndexIn(q, slots[sl]))] else []) + BucketIndices(slots, q, bucket, p + 1)
  }

  /** The buckets from b on: a count and that many indices for each. */
  function Buckets(slots: Table, q: seq<int>, b: nat): Stream
    requires b <= NEW_BUCKET_COUNT
    decreases NEW_BUCKET_COUNT - b
  {
    if b == NEW_BUCKET_COUNT then [] else
    var indices := BucketIndices(slots, q, b, 0);
    [I32(|indices|)] + indices + Buckets(slots, q, b + 1)
  }

  function Header(s: State): Stream {
    [U8(1), U8(32), Key(s.place.key), I32(s.nNew), I32(s.nTried), I32(FlipBit30(NEW_BUCKET_COUNT))]
  }

  function Serialize(s: State): Stream {
    var ids := Ascending(s.info.Keys);
    WrittenKnown(s.info, ids, false);
    WrittenKnown(s.info, ids, true);
    var q := Written(s.info, ids, false);
    Header(s) + Records(s.info, q) + Records(s.info, Written(s.info, ids, true)) + Buckets(s.newSlots, q, 0)
  }

  lemma {:induction false} WrittenKnown(info: Entries, q: seq<int>, tried: bool)
    requires Known(info, q)
    ensures Known(info, Written(info, q, tried))
  {
    if q != [] {
      WrittenKnown(info, q[1..], tried);
    }
  }

  // ----- reading -----

  /** A result, or an exception. */
  datatype Outcome<T> = Done(value: T) | Throws

  function Revived(r: Record, randomPos: int): AddrInfo {
    AddrInfo(r.service, r.services, r.time, 0, r.source, r.lastSuccess, r.attempts, 0, false, randomPos)
  }

  /** A record read back as an entry that is in no table yet. */
  function Revive(s: State, r: Record): State {
    s.(idCount := s.idCount + 1,
       info := s.info[s.idCount := Revived(r, |s.random|)],
       addr := s.addr[r.service.net := s.idCount],
       random := s.random + [s.idCount])
  }

  /** A new record; without usable slot data it gets a slot of its own at once if that is free. */
  function LoadNewRecord(s: State, r: Record, rebuild: bool): State {
    var t := Revive(s, r).(nNew := s.nNew + 1);
    var sl := NewSlot(s.place, r.service, r.source);
    if rebuild && sl !in t.newSlots then PlaceNew(t, s.idCount, sl, 1) else t
  }

  function LoadNew(s: State, count: nat, rebuild: bool, stream: Stream): Outcome<(State, Stream)>
    decreases count
  {
    if count == 0 then Done((s, stream))
    else if stream == [] || !stream[0].Rec? then Throws
    else LoadNew(LoadNewRecord(s, stream[0].rec, rebuild), count - 1, rebuild, stream[1..])
  }

  /** A tried record, lost if its slot is taken. */
  function LoadTriedRecord(s: State, r: Record): State {
    var sl := TriedSlot(s.place, r.service);
    if sl in s.triedSlots then s else Promote(Revive(s, r), s.idCount, sl)
  }

  function LoadTried(s: State, count: nat, stream: Stream): Outcome<(State, Stream)>
    decreases count
  {
    if count == 0 then Done((s, stream))
    else if stream == [] || !stream[0].Rec? then Throws
    else LoadTried(LoadTriedRecord(s, stream[0].rec), count - 1, stream[1..])
  }

  /** One stored slot of the new table; an index outside the new records is skipped. */
  function LoadIndex(s: State, bucket: int, index: int, usable: bool): State
    requires forall id :: 0 <= id < s.nNew ==> id in s.info
  {
    if !(0 <= index < s.nNew) then s else
    var sl := SlotIn(s.place, s.info[index].service, bucket);
    if usable && sl !in s.newSlots && s.info[index].refCount < NEW_BUCKETS_PER_ADDRESS
    then PlaceNew(s, index, sl, s.info[index].refCount + 1)
    else s
  }

  function LoadIndices(s: State, bucket: int, count: int, usable: bool, stream: Stream): (r: Outcome<(State, Stream)>)
    requires forall id :: 0 <= id < s.nNew ==> id in s.info
    ensures r.Done? ==> r.value.0.nNew == s.nNew && forall id :: 0 <= id < s.nNew ==> id in r.value.0.info
    ensures r.Done? ==> |r.value.1| <= |stream|
    decreases |stream|
  {
    if count <= 0 then Done((s, stream))
    else if stream == [] || !stream[0].I32? then Throws
    else LoadIndices(LoadIndex(s, bucket, stream[0].num, usable), bucket, count - 1, usable, stream[1..])
  }

  function LoadBuckets(s: State, bucket: int, buckets: int, usable: bool, stream: Stream): (r: Outcome<State>)
    requires forall id :: 0 <= id < s.nNew ==> id in s.info
    decreases |stream|
  {
    if bucket >= buckets then Done(s)
    else if stream == [] || !stream[0].I32? then Throws
    else match LoadIndices(s, bucket, stream[0].num, usable, stream[1..])
      case Throws => Throws
      case Done((t, rest)) => LoadBuckets(t, bucket + 1, buckets, usable, rest)
  }

  /** Delete the new entries among the listed ids that got no slot. */
  function Prune(s: State, ids: seq<int>, ghost limbo: set<int>): State
    requires Partial(s, limbo, 0)
    decreases |ids|
  {
    if ids == [] then s
    else if ids[0] in s.info && !s.info[ids[0]].tried && s.info[ids[0]].refCount == 0 then
      DeleteKeeps(s, ids[0], limbo, 0);
      Prune(Delete(s, ids[0]), ids[1..], limbo - {ids[0]})
    else Prune(s, ids[1..], limbo)
  }

  // ----- what reading keeps -----

  lemma ReviveKeeps(s: State, r: Record, limbo: set<int>, uncounted: int)
    requires Partial(s, limbo, uncounted)
    ensures Partial(Revive(s, r), limbo + {s.idCount}, uncounted + 1)
    ensures s.idCount !in s.info
  {
    var a := Address(r.service, r.services, r.time);
    CreateKeeps(s, a, r.source, limbo, uncounted);
    var t, i := Create(s, a, r.source), Revived(r, |s.random|);
    StatsKeep(t, s.idCount, i, limbo + {s.idCount}, uncounted + 1);
    assert t.info[s.idCount := i] == s.info[s.idCount := i];
  }

  /** Consistent but for new entries without a slot; the new records have the first ids. */
  ghost predicate Loading(s: State) {
    && Partial(s, s.info.Keys, 0)
    && (forall id :: 0 <= id < s.nNew ==> id in s.info && !s.info[id].tried)
    && s.nNew <= s.idCount
  }

  lemma LoadNewRecordKeeps(s: State, r: Record, rebuild: bool)
    requires Loading(s) && s.idCount == s.nNew
    ensures var t := LoadNewRecord(s, r, rebuild);
      Loading(t) && t.idCount == t.nNew == s.nNew + 1 && t.place == s.place
  {
    hide Partial;
    var id, limbo := s.idCount, s.info.Keys + {s.idCount};
    ReviveKeeps(s, r, s.info.Keys, 0);
    var revived := Revive(s, r);
    CountedUp(revived, limbo, 1, 1);
    var t := revived.(nNew := s.nNew + 1);
    assert t.info.Keys == limbo;
    var sl := NewSlot(s.place, r.service, r.source);
    if rebuild && sl !in t.newSlots {
      PlaceKeeps(t, id, sl, 1, limbo, 0);
      var u := PlaceNew(t, id, sl, 1);
      assert u.info.Keys == limbo;
      LimboGrows(u, limbo - {id}, limbo, 0);
    }
  }

  lemma {:induction false} LoadNewKeeps(s: State, count: nat, rebuild: bool, stream: Stream)
    requires Loading(s) && s.idCount == s.nNew
    ensures LoadNew(s, count, rebuild, stream).Done? ==>
              var t := LoadNew(s, count, rebuild, stream).value.0;
              Loading(t) && t.nNew == s.nNew + count && t.place == s.place
    decreases count
  {
    hide Loading;
    if count > 0 && stream != [] && stream[0].Rec? {
      LoadNewRecordKeeps(s, stream[0].rec, rebuild);
      LoadNewKeeps(LoadNewRecord(s, stream[0].rec, rebuild), count - 1, rebuild, stream[1..]);
    }
  }

  lemma LoadTriedRecordKeeps(s: State, r: Record)
    requires Loading(s)
    ensures Loading(LoadTriedRecord(s, r))
    ensures LoadTriedRecord(s, r).nNew == s.nNew && LoadTriedRecord(s, r).place == s.place
  {
    hide Partial;
    var sl := TriedSlot(s.place, r.service);
    if sl !in s.triedSlots {
      var id, limbo := s.idCount, s.info.Keys + {s.idCount};
      ReviveKeeps(s, r, s.info.Keys, 0);
      PromoteKeeps(Revive(s, r), id, limbo, 1);
      var t := Promote(Revive(s, r), id, sl);
      assert t.info.Keys == limbo;
      LimboGrows(t, limbo - {id}, limbo, 0);
    }
  }

  lemma {:induction false} LoadTriedKeeps(s: State, count: nat, stream: Stream)
    requires Loading(s)
    ensures LoadTried(s, count, stream).Done? ==>
              var t := LoadTried(s, count, stream).value.0;
              Loading(t) && t.nNew == s.nNew && t.place == s.place
    decreases count
  {
    hide Loading;
    if count > 0 && stream != [] && stream[0].Rec? {
      LoadTriedRecordKeeps(s, stream[0].rec);
      LoadTriedKeeps(LoadTriedRecord(s, stream[0].rec), count - 1, stream[1..]);
    }
  }

  lemma LoadIndexKeeps(s: State, bucket: int, index: int, usable: bool)
    requires Loading(s) && (usable ==> 0 <= bucket < NEW_BUCKET_COUNT)
    ensures Loading(LoadIndex(s, bucket, index, usable))
    ensures LoadIndex(s, bucket, index, usable).place == s.place
  {
    hide Partial;
    if 0 <= index < s.nNew {
      var sl := SlotIn(s.place, s.info[index].service, bucket);
      if usable && sl !in s.newSlots && s.info[index].refCount < NEW_BUCKETS_PER_ADDRESS {
        PlaceKeeps(s, index, sl, s.info[index].refCount + 1, s.info.Keys, 0);
        var t := PlaceNew(s, index, sl, s.info[index].refCount + 1);
        assert t.info.Keys == s.info.Keys;
        LimboGrows(t, s.info.Keys - {index}, s.info.Keys, 0);
      }
    }
  }

  lemma {:induction false} LoadIndicesKeeps(s: State, bucket: int, count: int, usable: bool, stream: Stream)
    requires Loading(s) && (usable ==> 0 <= bucket < NEW_BUCKET_COUNT)
    ensures LoadIndices(s, bucket, count, usable, stream).Done? ==>
              Loading(LoadIndices(s, bucket, count, usable, stream).value.0)
    decreases |stream|
  {
    hide Partial;
    if count > 0 && stream != [] && stream[0].I32? {
      LoadIndexKeeps(s, bucket, stream[0].num, usable);
      LoadIndicesKeeps(LoadIndex(s, bucket, stream[0].num, usable), bucket, count - 1, usable, stream[1..]);
    }
  }

  lemma {:induction false} LoadBucketsKeeps(s: State, bucket: int, buckets: int, usable: bool, stream: Stream)
    requires Loading(s) && 0 <= bucket && (usable ==> buckets == NEW_BUCKET_COUNT)
    ensures LoadBuckets(s, bucket, buckets, usable, stream).Done? ==>
              Loading(LoadBuckets(s, bucket, buckets, usable, stream).value)
    decreases |stream|
  {
    hide Partial;
    if bucket < buckets && stream != [] && stream[0].I32? {
      LoadIndicesKeeps(s, bucket, stream[0].num, usable, stream[1..]);
      match LoadIndices(s, bucket, stream[0].num, usable, stream[1..])
      case Throws =>
      case Done((t, rest)) => LoadBucketsKeeps(t, bucket + 1, buckets, usable, rest);
    }
  }

  /** Once every id that may be in limbo has been looked at, nothing is in limbo. */
  lemma {:induction false} PruneKeeps(s: State, ids: seq<int>, limbo: set<int>)
    requires Partial(s, limbo, 0) && forall id :: id in limbo ==> id in ids
    ensures Inv(Prune(s, ids, limbo))
    ensures Prune(s, ids, limbo).place == s.place
    decreases |ids|
  {
    hide Partial;
    if ids == [] {
      assert forall id :: id !in limbo;
      assert limbo == {};
    } else if ids[0] in s.info && !s.info[ids[0]].tried && s.info[ids[0]].refCount == 0 {
      DeleteKeeps(s, ids[0], limbo, 0);
      PruneKeeps(Delete(s, ids[0]), ids[1..], limbo - {ids[0]});
    } else {
      Settled(s, ids[0], limbo);
      PruneIgnoresLimbo(s, ids[1..], limbo, limbo - {ids[0]});
      PruneKeeps(s, ids[1..], limbo - {ids[0]});
    }
  }

  lemma Settled(s: State, id: int, limbo: set<int>)
    requires Partial(s, limbo, 0) && !(id in s.info && !s.info[id].tried && s.info[id].refCount == 0)
    ensures Partial(s, limbo - {id}, 0)
  {
  }

  lemma {:induction false} PruneIgnoresLimbo(s: State, ids: seq<int>, limbo: set<int>, limbo': set<int>)
    requires Partial(s, limbo, 0) && Partial(s, limbo', 0)
    ensures Prune(s, ids, limbo) == Prune(s, ids, limbo')
    decreases |ids|
  {
    hide Partial;
    if ids != [] {
      if ids[0] in s.info && !s.info[ids[0]].tried && s.info[ids[0]].refCount == 0 {
        DeleteKeeps(s, ids[0], limbo, 0);
        DeleteKeeps(s, ids[0], limbo', 0);
        PruneIgnoresLimbo(Delete(s, ids[0]), ids[1..], limbo - {ids[0]}, limbo' - {ids[0]});
      } else {
        PruneIgnoresLimbo(s, ids[1..], limbo, limbo');
      }
    }
  }

  lemma EmptyIsLoading(p: Place)
    ensures Loading(Empty(p))
  {
    assert forall id :: id !in NewIds(map[]) && id !in TriedIds(map[]);
    assert NewIds(map[]) == {} && TriedIds(map[]) == {};
  }

  /** The fixed fields at the start of a stream, already checked. */
  datatype Start = Start(version: int, key: nat, nNew: nat, nTried: nat, buckets: int)

  function ReadStart(stream: Stream): (r: Outcome<Start>)
    ensures r.Done? ==> |stream| >= 6
    ensures r.Done? ==>
        r.value.nNew <= NEW_BUCKET_COUNT * BUCKET_SIZE && r.value.nTried <= TRIED_BUCKET_COUNT * BUCKET_SIZE
  {
    if |stream| < 6 then Throws
    else if !(stream[0].U8? && stream[1].U8? && stream[2].Key?) then Throws
    else if !(stream[3].I32? && stream[4].I32? && stream[5].I32?) then Throws
    else if stream[1].byte != 32 then Throws
    else if !(0 <= stream[3].num <= NEW_BUCKET_COUNT * BUCKET_SIZE) then Throws
    else if !(0 <= stream[4].num <= TRIED_BUCKET_COUNT * BUCKET_SIZE) then Throws
    else Done(Start(stream[0].byte, stream[2].key, stream[3].num, stream[4].num,
                    if stream[0].byte != 0 then FlipBit30(stream[5].num) else stream[5].num))
  }

  /** The slot data can be used only in the current version and with the current bucket count. */
  predicate Usable(start: Start) {
    start.version == 1 && start.buckets == NEW_BUCKET_COUNT
  }

  /** The tables as read, before entries without a slot are pruned. */
  function Tables(h: Hasher, stream: Stream): Outcome<State> {
    match ReadStart(stream)
    case Throws => Throws
    case Done(start) =>
      var s := Empty(Place(h, start.key));
      EmptyIsLoading(s.place);
      LoadNewKeeps(s, start.nNew, !Usable(start), stream[6..]);
      match LoadNew(s, start.nNew, !Usable(start), stream[6..])
      case Throws => Throws
      case Done((t, rest)) =>
        LoadTriedKeeps(t, start.nTried, rest);
        match LoadTried(t, start.nTried, rest)
        case Throws => Throws
        case Done((u, indices)) => LoadBuckets(u, 0, start.buckets, Usable(start), indices)
  }

  lemma TablesAreLoading(h: Hasher, stream: Stream)
    ensures Tables(h, stream).Done? ==> Loading(Tables(h, stream).value)
  {
    hide Partial;
    match ReadStart(stream)
    case Throws =>
    case Done(start) =>
      var s := Empty(Place(h, start.key));
      EmptyIsLoading(s.place);
      LoadNewKeeps(s, start.nNew, !Usable(start), stream[6..]);
      match LoadNew(s, start.nNew, !Usable(start), stream[6..])
      case Throws =>
      case Done((t, rest)) =>
        LoadTriedKeeps(t, start.nTried, rest);
        match LoadTried(t, start.nTried, rest)
        case Throws =>
        case Done((u, indices)) => LoadBucketsKeeps(u, 0, start.buckets, Usable(start), indices);
  }

  function Unserialize(h: Hasher, stream: Stream): Outcome<State> {
    match Tables(h, stream)
    case Throws => Throws
    case Done(s) =>
      TablesAreLoading(h, stream);
      Done(Prune(s, Ascending(s.info.Keys), s.info.Keys))
  }

  /** Whatever a stream holds, reading it throws or gives consistent tables. */
  lemma UnserializeIsSafe(h: Hasher, stream: Stream)
    ensures Unserialize(h, stream).Done? ==> Inv(Unserialize(h, stream).value)
  {
    hide Partial;
    TablesAreLoading(h, stream);
    if Tables(h, stream).Done? {
      var s := Tables(h, stream).value;
      PruneKeeps(s, Ascending(s.info.Keys), s.info.Keys);
    }
  }
}
