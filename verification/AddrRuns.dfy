/**
Runs of the address manager: whatever is called, in whatever order and with
whatever random draws, clock readings and files, the tables stay consistent.
*/
module AddrRuns {
  import opened AddrState
  import opened AddrInvariant
  import opened AddrOps
  import opened AddrCounts
  import opened AddrDisk
  import opened AddrLinks
  import opened AddrRoundTrip

  /** A call, with the address tests, random draws and clock readings it meets. */
  datatype Op =
    | AddOp(a: Address, routable: bool, src: NetAddr, penalty: int, now: int, draw: nat)
    | GoodOp(service: Service, time: int, draw: nat)
    | AttemptOp(service: Service, time: int)
    | ConnectedOp(service: Service, time: int)
    | SetServicesOp(service: Service, services: Flags)
    | GetAddrOp(now: int, draws: nat -> nat)
    | ClearOp(key: nat)
    | LoadOp(stream: Stream, key: nat)

  /** A load that throws is followed by Clear. */
  function Load(s: State, stream: Stream, key: nat): State {
    match Unserialize(s.place.h, stream)
    case Done(t) => t
    case Throws => Empty(s.place.(key := key))
  }

  function Step(s: State, op: Op): State
    requires Inv(s)
  {
    match op
    case AddOp(a, routable, src, penalty, now, draw) => Add(s, a, routable, src, penalty, now, draw).0
    case GoodOp(a, time, draw) => Good(s, a, time, draw)
    case AttemptOp(a, time) => Attempt(s, a, time)
    case ConnectedOp(a, time) => Connected(s, a, time)
    case SetServicesOp(a, services) => SetServices(s, a, services)
    case GetAddrOp(now, draws) => GetAddr(s, now, draws).0
    case ClearOp(key) => Empty(s.place.(key := key))
    case LoadOp(stream, key) => Load(s, stream, key)
  }

  lemma EmptyIsConsistent(p: Place)
    ensures Inv(Empty(p)) && Unique(Empty(p).addr, Empty(p).info)
  {
    assert forall id :: id !in NewIds(map[]) && id !in TriedIds(map[]);
    assert NewIds(map[]) == {} && TriedIds(map[]) == {};
  }

  /** A call that keeps addresses unique: anything but loading a file whose duplicates survive pruning. */
  ghost predicate Clean(h: Hasher, op: Op) {
    op.LoadOp? && Unserialize(h, op.stream).Done? ==> TwinsDoomed(Tables(h, op.stream).value.info)
  }

  /** A file in which no address occurs twice is clean. */
  lemma DistinctIsClean(h: Hasher, op: Op)
    requires op.LoadOp? ==> Distinct(map[], op.stream)
    ensures Clean(h, op)
  {
    hide Unserialize, Tables, TwinsDoomed, Distinct;
    if op.LoadOp? && Unserialize(h, op.stream).Done? {
      UnserializeUnique(h, op.stream);
      LinkSurvives(h, op.stream);
    }
  }

  /**
  Every call keeps the invariants. Clean calls keep addresses unique where they are, and after a load
  addresses are unique exactly if it was clean.
  */
  lemma StepKeeps(s: State, op: Op)
    requires Inv(s)
    ensures Inv(Step(s, op))
    ensures Clean(s.place.h, op) && Unique(s.addr, s.info) ==> Unique(Step(s, op).addr, Step(s, op).info)
    ensures op.LoadOp? ==> (Unique(Step(s, op).addr, Step(s, op).info) <==> Clean(s.place.h, op))
  {
    hide Partial, Unique, Unserialize, Load, Clean;
    if !op.LoadOp? { OthersClean(s.place.h, op); }
    match op
    case AddOp(a, routable, src, penalty, now, draw) => AddKeeps(s, a, routable, src, penalty, now, draw);
    case GoodOp(a, time, draw) => GoodKeeps(s, a, time, draw);
    case AttemptOp(a, time) => UpdateKeeps(s, a, i => Tick(i, time));
    case ConnectedOp(a, time) => UpdateKeeps(s, a, i => Seen(i, time));
    case SetServicesOp(a, services) => UpdateKeeps(s, a, (i: AddrInfo) => i.(services := services));
    case GetAddrOp(now, draws) => GetAddrKeeps(s, now, draws);
    case ClearOp(key) => EmptyIsConsistent(s.place.(key := key));
    case LoadOp(stream, key) => LoadKeeps(s, op);
  }

  lemma OthersClean(h: Hasher, op: Op)
    requires !op.LoadOp?
    ensures Clean(h, op)
  {
  }

  /** A load gives consistent tables, with unique addresses exactly if it was clean. */
  lemma LoadKeeps(s: State, op: Op)
    requires op.LoadOp?
    ensures var t := Load(s, op.stream, op.key);
      Inv(t) && (Unique(t.addr, t.info) <==> Clean(s.place.h, op))
  {
    hide Partial, Unique, Unserialize, Tables, TwinsDoomed;
    UnserializeIsSafe(s.place.h, op.stream);
    if Unserialize(s.place.h, op.stream).Done? {
      LinkSurvives(s.place.h, op.stream);
    } else {
      EmptyIsConsistent(s.place.(key := op.key));
    }
  }

  /** The state after a sequence of calls; every state on the way is consistent. */
  function Run(s: State, ops: seq<Op>): (t: State)
    requires Inv(s)
    ensures Inv(t)
  {
    if ops == [] then s else
    var t := Run(s, ops[..|ops| - 1]);
    StepKeeps(t, ops[|ops| - 1]);
    Step(t, ops[|ops| - 1])
  }

  /** Each call of a run is clean where it is made. */
  ghost predicate AllClean(s: State, ops: seq<Op>)
    requires Inv(s)
  {
    ops == [] || (AllClean(s, ops[..|ops| - 1]) && Clean(Run(s, ops[..|ops| - 1]).place.h, ops[|ops| - 1]))
  }

  /** Without files whose duplicates survive, addresses stay unique. */
  lemma {:induction false} RunKeepsUnique(s: State, ops: seq<Op>)
    requires Inv(s) && Unique(s.addr, s.info) && AllClean(s, ops)
    ensures Unique(Run(s, ops).addr, Run(s, ops).info)
  {
    hide Partial, Unique, Step, Clean;
    if ops != [] {
      var n := |ops| - 1;
      RunKeepsUnique(s, ops[..n]);
      StepKeeps(Run(s, ops[..n]), ops[n]);
    }
  }

  /**
  Every state reachable from the empty tables is consistent, holds no more than the tables can, and
  gives Good_ and Select_ what they look for. If no loaded file held duplicates that were not pruned, it
  also survives a write and a read.
  */
  lemma Reachable(p: Place, ops: seq<Op>, start: nat, newOnly: bool, coin: bool)
    ensures Inv(Empty(p))
    ensures var s := Run(Empty(p), ops);
      && 0 <= s.nNew <= NEW_BUCKET_COUNT * BUCKET_SIZE && 0 <= s.nTried <= TRIED_BUCKET_COUNT * BUCKET_SIZE
      && |s.random| == s.nNew + s.nTried
      && (forall id :: id in s.info && !s.info[id].tried ==>
            1 <= s.info[id].refCount <= NEW_BUCKETS_PER_ADDRESS &&
            FindBucket(s, id, s.info[id].service, start, 0).Some?)
      && (SelectFrom(s, newOnly, coin).SearchTried? ==> s.triedSlots != map[])
      && (SelectFrom(s, newOnly, coin).SearchNew? ==> s.newSlots != map[])
      && (AllClean(Empty(p), ops) ==>
            var o := Unserialize(s.place.h, Serialize(s)); o.Done? && SameTables(s, o.value, Renaming(s)))
  {
    EmptyIsConsistent(p);
    hide Partial, Unique, SameTables, Unserialize, Serialize, FindBucket, SelectFrom, Run, AllClean;
    var s := Run(Empty(p), ops);
    NewFits(s);
    TriedFits(s);
    SizeIsCount(s);
    SelectFinds(s, newOnly, coin);
    forall id | id in s.info && !s.info[id].tried
      ensures 1 <= s.info[id].refCount <= NEW_BUCKETS_PER_ADDRESS
      ensures FindBucket(s, id, s.info[id].service, start, 0).Some?
    {
      RefsBounded(s, id);
      GoodAlwaysFinds(s, id, start);
    }
    if AllClean(Empty(p), ops) {
      RunKeepsUnique(Empty(p), ops);
      RoundTrip(s);
    }
  }
}
