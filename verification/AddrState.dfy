/**
The tables of the stochastic address manager as one value, and what each
operation on them computes.

Bucket placement rests on one hash and on the grouping of addresses; both are
unknown total functions carried in the state.
*/
module AddrState {
  import opened Basics

  const TRIED_BUCKET_COUNT := 256
  const NEW_BUCKET_COUNT := 1024
  const BUCKET_SIZE := 64
  const TRIED_BUCKETS_PER_GROUP := 8
  const NEW_BUCKETS_PER_SOURCE_GROUP := 64
  const NEW_BUCKETS_PER_ADDRESS := 8
  const HORIZON_DAYS := 30
  const RETRIES := 3
  const MAX_FAILURES := 10
  const MIN_FAIL_DAYS := 7
  const GETADDR_MAX_PCT := 23
  const GETADDR_MAX := 2500
  const UINT32 := 0x1_0000_0000

  type Bytes = seq<bv8>

  /** Service flags, as the set of bits that are on. */
  type Flags = set<nat>

  datatype NetAddr = NetAddr(ip: Bytes)
  datatype Service = Service(net: NetAddr, port: nat)

  /** What a CAddress carries: an address, the services and the time it was seen. */
  datatype Address = Address(service: Service, services: Flags, time: nat)

  /** A table entry; the last three fields live only in memory. */
  datatype AddrInfo = AddrInfo(
    service: Service,
    services: Flags,
    time: nat,
    lastTry: int,
    source: NetAddr,
    lastSuccess: int,
    attempts: int,
    refCount: int,
    tried: bool,
    randomPos: int)

  /** A piece of hash input. */
  datatype Field = KeyField(key: nat) | BytesField(bytes: Bytes) | NumField(num: int) | TagField(tag: char)

  datatype Hasher = Hasher(cheap: seq<Field> -> nat, group: NetAddr -> Bytes, portBytes: nat -> Bytes)

  /** What bucket placement depends on: the hash and the secret key. */
  datatype Place = Place(h: Hasher, key: nat)

  datatype Slot = Slot(bucket: int, pos: int)

  type Table = map<Slot, int>
  type Entries = map<int, AddrInfo>

  /** The maps newSlots and triedSlots hold exactly the occupied table slots. */
  datatype State = State(
    place: Place,
    idCount: int,
    info: Entries,
    addr: map<NetAddr, int>,
    random: seq<int>,
    newSlots: Table,
    triedSlots: Table,
    nNew: int,
    nTried: int)

  // ----- where an entry belongs -----

  function ServiceKey(h: Hasher, a: Service): Bytes {
    a.net.ip + h.portBytes(a.port)
  }

  function TriedBucket(p: Place, a: Service): (b: int)
    ensures 0 <= b < TRIED_BUCKET_COUNT
  {
    var hash1 := p.h.cheap([KeyField(p.key), BytesField(ServiceKey(p.h, a))]);
    var hash2 := p.h.cheap([KeyField(p.key), BytesField(p.h.group(a.net)), NumField(hash1 % TRIED_BUCKETS_PER_GROUP)]);
    hash2 % TRIED_BUCKET_COUNT
  }

  function NewBucket(p: Place, a: Service, src: NetAddr): (b: int)
    ensures 0 <= b < NEW_BUCKET_COUNT
  {
    var hash1 := p.h.cheap([KeyField(p.key), BytesField(p.h.group(a.net)), BytesField(p.h.group(src))]);
    var hash2 := p.h.cheap([KeyField(p.key), BytesField(p.h.group(src)),
        NumField(hash1 % NEW_BUCKETS_PER_SOURCE_GROUP)]);
    hash2 % NEW_BUCKET_COUNT
  }

  function BucketPosition(p: Place, a: Service, isNew: bool, bucket: int): (pos: int)
    ensures 0 <= pos < BUCKET_SIZE
  {
    p.h.cheap([KeyField(p.key), TagField(if isNew then 'N' else 'K'), NumField(bucket), BytesField(ServiceKey(p.h, a))])
      % BUCKET_SIZE
  }

  /** The one slot of the tried table an address may occupy. */
  function TriedSlot(p: Place, a: Service): (sl: Slot)
    ensures 0 <= sl.bucket < TRIED_BUCKET_COUNT && 0 <= sl.pos < BUCKET_SIZE
  {
    var b := TriedBucket(p, a);
    Slot(b, BucketPosition(p, a, false, b))
  }

  /** The one slot of a new bucket an address may occupy. */
  function SlotIn(p: Place, a: Service, bucket: int): (sl: Slot)
    ensures sl.bucket == bucket && 0 <= sl.pos < BUCKET_SIZE
  {
    Slot(bucket, BucketPosition(p, a, true, bucket))
  }

  /** The slot of the new table an address heard of from src belongs in. */
  function NewSlot(p: Place, a: Service, src: NetAddr): (sl: Slot)
    ensures 0 <= sl.bucket < NEW_BUCKET_COUNT && sl == SlotIn(p, a, sl.bucket)
  {
    SlotIn(p, a, NewBucket(p, a, src))
  }

  predicate IsTerrible(i: AddrInfo, now: int) {
    if i.lastTry != 0 && i.lastTry >= now - 60 then false
    else if i.time > now + 10 * 60 then true
    else if i.time == 0 || now - i.time > HORIZON_DAYS * 86400 then true
    else if i.lastSuccess == 0 && i.attempts >= RETRIES then true
    else now - i.lastSuccess > MIN_FAIL_DAYS * 86400 && i.attempts >= MAX_FAILURES
  }

  // ----- the operations -----

  function Empty(p: Place): State {
    State(p, 0, map[], map[], [], map[], map[], 0, 0)
  }

  /** The id under which an address is known. */
  function Find(s: State, a: NetAddr): Option<int> {
    if a in s.addr && s.addr[a] in s.info then Some(s.addr[a]) else None
  }

  /** A fresh entry, in no table yet. */
  function Fresh(a: Address, src: NetAddr, randomPos: int): AddrInfo {
    AddrInfo(a.service, a.services, a.time, 0, src, 0, 0, 0, false, randomPos)
  }

  function Create(s: State, a: Address, src: NetAddr): State {
    s.(idCount := s.idCount + 1,
       info := s.info[s.idCount := Fresh(a, src, |s.random|)],
       addr := s.addr[a.service.net := s.idCount],
       random := s.random + [s.idCount])
  }

  predicate Indexes(s: State, pos: int) {
    0 <= pos < |s.random| && s.random[pos] in s.info
  }

  /** Swapping two elements of random: the entries, then the list. */
  function Repositioned(info: Entries, id1: int, pos1: int, id2: int, pos2: int): Entries
    requires id1 in info && id2 in info
  {
    var info1 := info[id1 := info[id1].(randomPos := pos2)];
    info1[id2 := info1[id2].(randomPos := pos1)]
  }

  function SwapRandom(s: State, pos1: int, pos2: int): State
    requires Indexes(s, pos1) && Indexes(s, pos2)
  {
    if pos1 == pos2 then s else
    var id1, id2 := s.random[pos1], s.random[pos2];
    s.(info := Repositioned(s.info, id1, pos1, id2, pos2), random := s.random[pos1 := id2][pos2 := id1])
  }

  /** An entry's place in random is as it says, and random is not empty. */
  predicate Indexed(s: State, id: int) {
    && id in s.info
    && Indexes(s, s.info[id].randomPos)
    && Indexes(s, |s.random| - 1)
  }

  /** Remove the entry that is last in random. */
  function DropLast(s: State, id: int): State
    requires id in s.info && |s.random| > 0
  {
    s.(random := s.random[..|s.random| - 1],
       addr := s.addr - {s.info[id].service.net},
       info := s.info - {id},
       nNew := s.nNew - 1)
  }

  function Delete(s: State, id: int): State
    requires Indexed(s, id)
  {
    DropLast(SwapRandom(s, s.info[id].randomPos, |s.random| - 1), id)
  }

  function WithRefs(info: Entries, id: int, refs: int): Entries
    requires id in info
  {
    info[id := info[id].(refCount := refs)]
  }

  function WithTried(info: Entries, id: int, tried: bool): Entries
    requires id in info
  {
    info[id := info[id].(tried := tried)]
  }

  /** Empty an occupied slot of the new table. */
  function DropSlot(s: State, sl: Slot): State
    requires sl in s.newSlots && s.newSlots[sl] in s.info
  {
    var id := s.newSlots[sl];
    s.(info := WithRefs(s.info, id, s.info[id].refCount - 1), newSlots := s.newSlots - {sl})
  }

  /** Empty a slot of the new table; an entry that loses its last slot goes. */
  function ClearNew(s: State, sl: Slot): State
    requires sl in s.newSlots ==> Indexed(s, s.newSlots[sl])
  {
    if sl !in s.newSlots then s else
    var id := s.newSlots[sl];
    var t := DropSlot(s, sl);
    if t.info[id].refCount == 0 then Delete(t, id) else t
  }

  /** Put an entry in a slot of the new table. */
  function PlaceNew(s: State, id: int, sl: Slot, refs: int): State
    requires id in s.info
  {
    s.(info := WithRefs(s.info, id, refs), newSlots := s.newSlots[sl := id])
  }

  /** Take an entry out of its slots in the first n new buckets. */
  function DropRefs(s: State, id: int, n: nat): (t: State)
    requires id in s.info
    ensures id in t.info && t.info[id].service == s.info[id].service && t.place == s.place
  {
    if n == 0 then s else
    var t := DropRefs(s, id, n - 1);
    var sl := SlotIn(t.place, t.info[id].service, n - 1);
    if sl in t.newSlots && t.newSlots[sl] == id then DropSlot(t, sl) else t
  }

  /** Take the entry in a tried slot out of the tried table. */
  function Demote(s: State, sl: Slot): State
    requires sl in s.triedSlots && s.triedSlots[sl] in s.info
  {
    s.(info := WithTried(s.info, s.triedSlots[sl], false), triedSlots := s.triedSlots - {sl}, nTried := s.nTried - 1)
  }

  function Promote(s: State, id: int, sl: Slot): State
    requires id in s.info
  {
    s.(info := WithTried(s.info, id, true), triedSlots := s.triedSlots[sl := id], nTried := s.nTried + 1)
  }
}
