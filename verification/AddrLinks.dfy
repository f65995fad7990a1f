/**
When the link from addresses to entries survives reading a file: exactly when the entries that share an
address with another are all among those that are pruned for having no slot.
*/
module AddrLinks {
  import opened AddrState
  import opened AddrInvariant
  import opened AddrOps
  import opened AddrDisk

  /** The guard of the pruning loop. */
  predicate Doomed(i: AddrInfo) {
    !i.tried && i.refCount == 0
  }

  /** Any two entries with the same address are both to be pruned. */
  ghost predicate TwinsDoomed(info: Entries) {
    forall x, y :: x in info && y in info && x != y && info[x].service.net == info[y].service.net ==>
      Doomed(info[x]) && Doomed(info[y])
  }

  /** Every address of an entry leads somewhere. */
  ghost predicate Known(addr: map<NetAddr, int>, info: Entries) {
    forall id :: id in info ==> info[id].service.net in addr
  }

  // ----- pruning -----

  /** An entry that stays is found under its address and shares it with no other. */
  ghost predicate Sole(addr: map<NetAddr, int>, info: Entries, id: int)
    requires id in info
  {
    var a := info[id].service.net;
    a in addr && addr[a] == id && forall y :: y in info && y != id ==> info[y].service.net != a
  }

  ghost predicate AllSole(addr: map<NetAddr, int>, info: Entries) {
    forall id :: id in info && !Doomed(info[id]) ==> Sole(addr, info, id)
  }

  /** What deleting an entry does to addresses and entries. */
  ghost predicate Without(addr: map<NetAddr, int>, info: Entries, d: int, addr': map<NetAddr, int>, info': Entries)
    requires d in info
  {
    && (forall id :: id in info' <==> id in info && id != d)
    && (forall id :: id in info' ==> info'[id].service == info[id].service && Doomed(info'[id]) == Doomed(info[id]))
    && (forall a :: a in addr' <==> a in addr && a != info[d].service.net)
    && (forall a :: a in addr' ==> addr'[a] == addr[a])
  }

  lemma DeleteIsWithout(s: State, d: int)
    requires Indexed(s, d)
    ensures Without(s.addr, s.info, d, Delete(s, d).addr, Delete(s, d).info)
  {
    var t := SwapRandom(s, s.info[d].randomPos, |s.random| - 1);
    assert t.addr == s.addr;
    assert forall id :: id in t.info <==> id in s.info;
    assert forall id :: id in s.info ==>
        t.info[id].service == s.info[id].service && Doomed(t.info[id]) == Doomed(s.info[id]);
  }

  /** Deleting an entry without a slot neither makes nor breaks the link of those that stay. */
  lemma WithoutKeepsSole(addr: map<NetAddr, int>, info: Entries, d: int, addr': map<NetAddr, int>, info': Entries)
    requires d in info && Doomed(info[d]) && Without(addr, info, d, addr', info')
    ensures AllSole(addr, info) <==> AllSole(addr', info')
  {
    if AllSole(addr, info) {
      forall id | id in info' && !Doomed(info'[id]) ensures Sole(addr', info', id) {
        assert Sole(addr, info, id);
      }
    }
    if AllSole(addr', info') {
      forall id | id in info && !Doomed(info[id]) ensures Sole(addr, info, id) {
        assert Sole(addr', info', id);
        var a := info[id].service.net;
        assert a in addr' && a != info[d].service.net;
        forall y | y in info && y != id ensures info[y].service.net != a {
          if y != d { assert y in info'; }
        }
      }
    }
  }

  lemma SoleIsUnique(addr: map<NetAddr, int>, info: Entries)
    requires forall id :: id in info ==> !Doomed(info[id])
    ensures AllSole(addr, info) <==> Unique(addr, info)
  {
  }

  lemma {:induction false} PruneKeepsSole(s: State, ids: seq<int>, limbo: set<int>)
    requires Partial(s, limbo, 0) && forall id :: id in s.info && Doomed(s.info[id]) ==> id in ids
    ensures var t := Prune(s, ids, limbo); AllSole(s.addr, s.info) <==> Unique(t.addr, t.info)
    decreases |ids|
  {
    hide Partial, Unique, AllSole;
    if ids == [] {
      SoleIsUnique(s.addr, s.info);
    } else if ids[0] in s.info && Doomed(s.info[ids[0]]) {
      var d := ids[0];
      DeleteKeeps(s, d, limbo, 0);
      DeleteIsWithout(s, d);
      var t := Delete(s, d);
      WithoutKeepsSole(s.addr, s.info, d, t.addr, t.info);
      PruneKeepsSole(t, ids[1..], limbo - {d});
    } else {
      PruneKeepsSole(s, ids[1..], limbo);
    }
  }

  lemma SoleIsTwinless(s: State, limbo: set<int>)
    requires Partial(s, limbo, 0) && Known(s.addr, s.info)
    ensures AllSole(s.addr, s.info) <==> TwinsDoomed(s.info)
  {
    assert Linked(s.addr, s.info, s.idCount);
    hide Partial;
    if TwinsDoomed(s.info) {
      forall id | id in s.info && !Doomed(s.info[id]) ensures Sole(s.addr, s.info, id) {
        var a := s.info[id].service.net;
        assert a in s.addr && s.addr[a] in s.info && s.info[s.addr[a]].service.net == a;
      }
    }
  }

  // ----- reading -----

  lemma KnownMore(addr: map<NetAddr, int>, info: Entries, id: int, i: AddrInfo)
    requires Known(addr, info)
    ensures Known(addr[i.service.net := id], info[id := i])
  {
  }

  lemma KnownChange(addr: map<NetAddr, int>, info: Entries, id: int, i: AddrInfo)
    requires Known(addr, info) && id in info && i.service == info[id].service
    ensures Known(addr, info[id := i])
  {
  }

  lemma {:induction false} LoadNewKnown(s: State, count: nat, rebuild: bool, stream: Stream)
    requires Known(s.addr, s.info)
    ensures var o := LoadNew(s, count, rebuild, stream); o.Done? ==> Known(o.value.0.addr, o.value.0.info)
    decreases count
  {
    hide Known, NewSlot, SlotIn;
    if count > 0 && stream != [] && stream[0].Rec? {
      var r := stream[0].rec;
      var i := Revived(r, |s.random|);
      KnownMore(s.addr, s.info, s.idCount, i);
      var t := Revive(s, r);
      KnownChange(t.addr, t.info, s.idCount, i.(refCount := 1));
      LoadNewKnown(LoadNewRecord(s, r, rebuild), count - 1, rebuild, stream[1..]);
    }
  }

  lemma {:induction false} LoadTriedKnown(s: State, count: nat, stream: Stream)
    requires Known(s.addr, s.info)
    ensures var o := LoadTried(s, count, stream); o.Done? ==> Known(o.value.0.addr, o.value.0.info)
    decreases count
  {
    hide Known, TriedSlot;
    if count > 0 && stream != [] && stream[0].Rec? {
      var r := stream[0].rec;
      var i := Revived(r, |s.random|);
      KnownMore(s.addr, s.info, s.idCount, i);
      var t := Revive(s, r);
      KnownChange(t.addr, t.info, s.idCount, i.(tried := true));
      LoadTriedKnown(LoadTriedRecord(s, r), count - 1, stream[1..]);
    }
  }

  lemma {:induction false} LoadIndicesKnown(s: State, bucket: int, count: int, usable: bool, stream: Stream)
    requires Known(s.addr, s.info) && forall id :: 0 <= id < s.nNew ==> id in s.info
    ensures var o := LoadIndices(s, bucket, count, usable, stream); o.Done? ==> Known(o.value.0.addr, o.value.0.info)
    decreases |stream|
  {
    hide Known, SlotIn;
    if count > 0 && stream != [] && stream[0].I32? {
      var index := stream[0].num;
      if 0 <= index < s.nNew {
        KnownChange(s.addr, s.info, index, s.info[index].(refCount := s.info[index].refCount + 1));
      }
      LoadIndicesKnown(LoadIndex(s, bucket, index, usable), bucket, count - 1, usable, stream[1..]);
    }
  }

  lemma {:induction false} LoadBucketsKnown(s: State, bucket: int, buckets: int, usable: bool, stream: Stream)
    requires Known(s.addr, s.info) && forall id :: 0 <= id < s.nNew ==> id in s.info
    ensures var o := LoadBuckets(s, bucket, buckets, usable, stream); o.Done? ==> Known(o.value.addr, o.value.info)
    decreases |stream|
  {
    hide Known, LoadIndices;
    if bucket < buckets && stream != [] && stream[0].I32? {
      LoadIndicesKnown(s, bucket, stream[0].num, usable, stream[1..]);
      match LoadIndices(s, bucket, stream[0].num, usable, stream[1..])
      case Throws =>
      case Done((t, rest)) => LoadBucketsKnown(t, bucket + 1, buckets, usable, rest);
    }
  }

  lemma TablesKnown(h: Hasher, stream: Stream)
    ensures var o := Tables(h, stream); o.Done? ==> Known(o.value.addr, o.value.info)
  {
    hide Partial, LoadNew, LoadTried, LoadBuckets;
    match ReadStart(stream)
    case Throws =>
    case Done(start) =>
      var s := Empty(Place(h, start.key));
      assert Known(s.addr, s.info);
      hide Known;
      EmptyIsLoading(s.place);
      LoadNewKeeps(s, start.nNew, !Usable(start), stream[6..]);
      LoadNewKnown(s, start.nNew, !Usable(start), stream[6..]);
      match LoadNew(s, start.nNew, !Usable(start), stream[6..])
      case Throws =>
      case Done((t, rest)) =>
        LoadTriedKeeps(t, start.nTried, rest);
        LoadTriedKnown(t, start.nTried, rest);
        match LoadTried(t, start.nTried, rest)
        case Throws =>
        case Done((u, indices)) => LoadBucketsKnown(u, 0, start.buckets, Usable(start), indices);
  }

  /**
  The link from addresses to entries is whole after reading a file exactly when, in the tables as read, any
  two entries with the same address are both without a slot and so about to be pruned.
  */
  lemma LinkSurvives(h: Hasher, stream: Stream)
    requires Unserialize(h, stream).Done?
    ensures var s, t := Tables(h, stream).value, Unserialize(h, stream).value;
      Unique(t.addr, t.info) <==> TwinsDoomed(s.info)
  {
    hide Partial, Tables, Ascending, Unique, AllSole, TwinsDoomed, Known;
    TablesAreLoading(h, stream);
    TablesKnown(h, stream);
    var s := Tables(h, stream).value;
    SoleIsTwinless(s, s.info.Keys);
    PruneKeepsSole(s, Ascending(s.info.Keys), s.info.Keys);
  }
}
