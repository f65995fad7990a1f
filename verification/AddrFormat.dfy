/**
Which streams are read, what a written stream looks like, and which of the
records of a stream are in the tables once it has been read.
*/
module AddrFormat {
  import opened Basics
  import opened AddrState
  import opened AddrInvariant
  import opened AddrOps
  import opened AddrEffects
  import opened AddrCounts
  import opened AddrDisk
  import L = AddrLinks
  import opened AddrRoundTrip

  // ----- which streams are read -----

  function NotNegative(n: int): nat {
    if n < 0 then 0 else n
  }

  ghost predicate AllRecords(stream: Stream, n: nat) {
    n <= |stream| && forall k :: 0 <= k < n ==> stream[k].Rec?
  }

  ghost predicate AllNumbers(stream: Stream, n: nat) {
    n <= |stream| && forall k :: 0 <= k < n ==> stream[k].I32?
  }

  /** A stream starts with n groups, each a count and that many numbers. */
  ghost predicate Grouped(stream: Stream, n: int)
    decreases |stream|
  {
    n > 0 ==>
      && stream != [] && stream[0].I32?
      && AllNumbers(stream[1..], NotNegative(stream[0].num))
      && Grouped(stream[1..][NotNegative(stream[0].num)..], n - 1)
  }

  /** The documented form: the fixed fields within their bounds, the records, then the buckets. */
  ghost predicate Readable(stream: Stream) {
    && |stream| >= 6
    && stream[0].U8? && stream[1] == U8(32) && stream[2].Key?
    && stream[3].I32? && 0 <= stream[3].num <= 65536
    && stream[4].I32? && 0 <= stream[4].num <= 16384
    && stream[5].I32?
    && AllRecords(stream[6..], stream[3].num + stream[4].num)
    && Grouped(stream[6..][stream[3].num + stream[4].num..],
               if stream[0].byte == 0 then stream[5].num else FlipBit30(stream[5].num))
  }

  lemma {:induction false} LoadNewReads(s: State, count: nat, rebuild: bool, stream: Stream)
    ensures var o := LoadNew(s, count, rebuild, stream);
      (o.Done? <==> AllRecords(stream, count)) && (o.Done? ==> o.value.1 == stream[count..])
    decreases count
  {
    if count > 0 && stream != [] && stream[0].Rec? {
      LoadNewReads(LoadNewRecord(s, stream[0].rec, rebuild), count - 1, rebuild, stream[1..]);
      FirstThenRest(stream, count);
    }
  }

  lemma FirstThenRest(stream: Stream, count: nat)
    requires count > 0 && stream != [] && stream[0].Rec?
    ensures AllRecords(stream, count) <==> AllRecords(stream[1..], count - 1)
    ensures AllRecords(stream, count) ==> stream[count..] == stream[1..][count - 1..]
  {
    if AllRecords(stream[1..], count - 1) {
      assert forall k :: 0 < k < count ==> stream[k] == stream[1..][k - 1];
    }
  }

  lemma {:induction false} LoadTriedReads(s: State, count: nat, stream: Stream)
    ensures var o := LoadTried(s, count, stream);
      (o.Done? <==> AllRecords(stream, count)) && (o.Done? ==> o.value.1 == stream[count..])
    decreases count
  {
    if count > 0 && stream != [] && stream[0].Rec? {
      LoadTriedReads(LoadTriedRecord(s, stream[0].rec), count - 1, stream[1..]);
      FirstThenRest(stream, count);
    }
  }

  lemma {:induction false} LoadIndicesReads(s: State, bucket: int, count: int, usable: bool, stream: Stream)
    requires forall id :: 0 <= id < s.nNew ==> id in s.info
    ensures var o := LoadIndices(s, bucket, count, usable, stream);
      && (o.Done? <==> AllNumbers(stream, NotNegative(count)))
      && (o.Done? ==> o.value.1 == stream[NotNegative(count)..])
    decreases |stream|
  {
    if count > 0 && stream != [] && stream[0].I32? {
      LoadIndicesReads(LoadIndex(s, bucket, stream[0].num, usable), bucket, count - 1, usable, stream[1..]);
      if AllNumbers(stream[1..], count - 1) {
        assert forall k :: 0 < k < count ==> stream[k] == stream[1..][k - 1];
      }
    }
  }

  lemma {:induction false} LoadBucketsReads(s: State, bucket: int, buckets: int, usable: bool, stream: Stream)
    requires forall id :: 0 <= id < s.nNew ==> id in s.info
    ensures LoadBuckets(s, bucket, buckets, usable, stream).Done? <==> Grouped(stream, buckets - bucket)
    decreases |stream|
  {
    hide LoadIndices;
    if bucket < buckets && stream != [] && stream[0].I32? {
      LoadIndicesReads(s, bucket, stream[0].num, usable, stream[1..]);
      match LoadIndices(s, bucket, stream[0].num, usable, stream[1..])
      case Throws =>
      case Done((t, rest)) => LoadBucketsReads(t, bucket + 1, buckets, usable, rest);
    }
  }

  /** Reading throws on exactly the streams that are not of the documented form, whatever else they hold. */
  lemma UnserializeReads(h: Hasher, stream: Stream)
    ensures Unserialize(h, stream).Done? <==> Readable(stream)
  {
    hide Partial, LoadNew, LoadTried, LoadBuckets, Prune, Grouped;
    if ReadStart(stream).Done? {
      var start := ReadStart(stream).value;
      var s := Empty(Place(h, start.key));
      EmptyIsLoading(s.place);
      LoadNewKeeps(s, start.nNew, !Usable(start), stream[6..]);
      LoadNewReads(s, start.nNew, !Usable(start), stream[6..]);
      RecordsSplit(stream[6..], start.nNew, start.nTried);
      match LoadNew(s, start.nNew, !Usable(start), stream[6..])
      case Throws =>
      case Done((t, rest)) =>
        LoadTriedKeeps(t, start.nTried, rest);
        LoadTriedReads(t, start.nTried, rest);
        match LoadTried(t, start.nTried, rest)
        case Throws =>
        case Done((u, indices)) => LoadBucketsReads(u, 0, start.buckets, Usable(start), indices);
    }
  }

  lemma RecordsSplit(stream: Stream, m: nat, n: nat)
    ensures AllRecords(stream, m + n) <==> AllRecords(stream, m) && AllRecords(stream[m..], n)
    ensures AllRecords(stream, m + n) ==> stream[m + n..] == stream[m..][n..]
  {
    if AllRecords(stream, m) && AllRecords(stream[m..], n) {
      assert forall k :: m <= k < m + n ==> stream[k] == stream[m..][k - m];
    }
  }

  // ----- what a written stream looks like -----

  /** The records of the listed entries stand in a stream from one place on. */
  ghost predicate StandsAt(w: Stream, start: nat, info: Entries, q: seq<int>) {
    && start + |q| <= |w|
    && forall k :: 0 <= k < |q| ==> q[k] in info && w[start + k] == Rec(ToRecord(info[q[k]]))
  }

  /** The documented form of a written file: the fixed fields, the new entries, the tried entries, the buckets. */
  lemma SerializeLayout(s: State)
    requires Inv(s)
    ensures var w := Serialize(s); var q, r := Pass(s, false), Pass(s, true);
      && |w| >= 6
      && w[..6] == [U8(1), U8(0x20), Key(s.place.key), I32(s.nNew), I32(s.nTried), I32(0x400 + 0x4000_0000)]
      && (forall id :: id in q <==> id in s.info && !s.info[id].tried) && |q| == s.nNew && StandsAt(w, 6, s.info, q)
      && (forall id :: id in r <==> id in s.info && s.info[id].tried) && |r| == s.nTried
      && StandsAt(w, 6 + s.nNew, s.info, r)
  {
    hide Partial, Written, Ascending, Buckets, Header, FlipBit30, Serialize, Records;
    PassForm(s, false);
    PassForm(s, true);
    HeaderForm(s);
    SerializeParts(s);
    WrittenParts(Header(s), Records(s.info, Pass(s, false)), Records(s.info, Pass(s, true)),
                 Buckets(s.newSlots, Pass(s, false), 0), Serialize(s));
  }

  lemma SerializeParts(s: State)
    requires Known(s.info, Pass(s, false)) && Known(s.info, Pass(s, true))
    ensures Serialize(s) == Header(s) + Records(s.info, Pass(s, false)) + Records(s.info, Pass(s, true))
                            + Buckets(s.newSlots, Pass(s, false), 0)
  {
    hide Written, Ascending, Buckets, Header, Records;
  }

  /** Every consistent state is written as a file that can be read. */
  lemma SerializeReadable(s: State)
    requires Inv(s)
    ensures Readable(Serialize(s))
  {
    hide Partial, Written, Ascending, Buckets, Header, FlipBit30, Serialize, Records, Grouped, Readable;
    PassForm(s, false);
    PassForm(s, true);
    NewFits(s);
    TriedFits(s);
    HeaderForm(s);
    SerializeParts(s);
    BucketsGrouped(s.newSlots, Pass(s, false), 0);
    ReadableParts(Header(s), Records(s.info, Pass(s, false)), Records(s.info, Pass(s, true)),
                  Buckets(s.newSlots, Pass(s, false), 0), Serialize(s));
  }

  lemma ReadableParts(a: Stream, b: Stream, c: Stream, d: Stream, w: Stream)
    requires w == a + b + c + d && |a| == 6
    requires a[0] == U8(1) && a[1] == U8(32) && a[2].Key? && a[3] == I32(|b|) && a[4] == I32(|c|)
    requires a[5] == I32(0x400 + 0x4000_0000)
    requires |b| <= 65536 && |c| <= 16384 && AllRecords(b, |b|) && AllRecords(c, |c|) && Grouped(d, NEW_BUCKET_COUNT)
    ensures Readable(w)
  {
    hide Grouped;
    assert w[6..] == b + c + d;
    assert (b + c + d)[|b| + |c|..] == d;
  }

  lemma HeaderForm(s: State)
    ensures Header(s) ==
              [U8(1), U8(0x20), Key(s.place.key), I32(s.nNew), I32(s.nTried), I32(0x400 + 0x4000_0000)]
    ensures FlipBit30(0x400 + 0x4000_0000) == NEW_BUCKET_COUNT
  {
  }

  lemma {:induction false} IndicesAreNumbers(slots: Table, q: seq<int>, bucket: int, p: nat)
    requires p <= BUCKET_SIZE
    ensures var w := BucketIndices(slots, q, bucket, p); AllNumbers(w, |w|)
    decreases BUCKET_SIZE - p
  {
    if p < BUCKET_SIZE {
      IndicesAreNumbers(slots, q, bucket, p + 1);
    }
  }

  lemma {:induction false} BucketsGrouped(slots: Table, q: seq<int>, b: nat)
    requires b <= NEW_BUCKET_COUNT
    ensures Grouped(Buckets(slots, q, b), NEW_BUCKET_COUNT - b)
    decreases NEW_BUCKET_COUNT - b
  {
    hide BucketIndices;
    if b < NEW_BUCKET_COUNT {
      IndicesAreNumbers(slots, q, b, 0);
      BucketsGrouped(slots, q, b + 1);
      GroupedOneMore(BucketIndices(slots, q, b, 0), Buckets(slots, q, b + 1), NEW_BUCKET_COUNT - b - 1);
    }
  }

  lemma GroupedOneMore(group: Stream, rest: Stream, n: nat)
    requires AllNumbers(group, |group|) && Grouped(rest, n)
    ensures Grouped([I32(|group|)] + group + rest, n + 1)
  {
    var w := [I32(|group|)] + group + rest;
    assert w[1..] == group + rest;
    assert w[1..][|group|..] == rest;
  }

  lemma WrittenParts(a: Stream, b: Stream, c: Stream, d: Stream, w: Stream)
    requires w == a + b + c + d
    ensures |w| == |a| + |b| + |c| + |d| && w[..|a|] == a
    ensures forall k :: 0 <= k < |b| ==> w[|a| + k] == b[k]
    ensures forall k :: 0 <= k < |c| ==> w[|a| + |b| + k] == c[k]
  {
  }

  // ----- which records are in the tables -----

  /** The slot of the new table a record's own source leads to. */
  function OwnSlot(p: Place, r: Record): Slot {
    NewSlot(p, r.service, r.source)
  }

  /** A place of a list is the first with its value. */
  ghost predicate First(slots: seq<Slot>, k: int) {
    0 <= k < |slots| && forall j :: 0 <= j < k ==> slots[j] != slots[k]
  }

  /** A table in which each listed slot went to the first place that lists it. */
  ghost predicate FirstCome(slots: seq<Slot>, table: Table) {
    && (forall sl :: sl in table ==> First(slots, table[sl]) && slots[table[sl]] == sl)
    && (forall k :: 0 <= k < |slots| ==> slots[k] in table)
  }

  lemma FirstComeOneMore(slots: seq<Slot>, table: Table, sl: Slot)
    requires FirstCome(slots, table)
    ensures FirstCome(slots + [sl], if sl in table then table else table[sl := |slots|])
  {
    var more, t := slots + [sl], if sl in table then table else table[sl := |slots|];
    forall x | x in t
      ensures First(more, t[x]) && more[t[x]] == x
    {
      if x in table { assert First(slots, table[x]) && slots[table[x]] == x; }
    }
  }

  /** The records read as new entries so far are entries under their own numbers. */
  ghost predicate NewRead(s: State, recs: seq<Record>) {
    && s.idCount == s.nNew == |recs| && s.triedSlots == map[]
    && (forall id :: id in s.info <==> 0 <= id < |recs|)
    && (forall k :: 0 <= k < |recs| ==> ToRecord(s.info[k]) == recs[k] && !s.info[k].tried)
  }

  function OwnSlots(p: Place, recs: seq<Record>): (q: seq<Slot>)
    ensures |q| == |recs| && forall k :: 0 <= k < |recs| ==> q[k] == OwnSlot(p, recs[k])
  {
    seq(|recs|, k requires 0 <= k < |recs| => OwnSlot(p, recs[k]))
  }

  lemma NewReadStep(s: State, recs: seq<Record>, r: Record, rebuild: bool)
    requires NewRead(s, recs)
    requires if rebuild then FirstCome(OwnSlots(s.place, recs), s.newSlots) else s.newSlots == map[]
    ensures var t := LoadNewRecord(s, r, rebuild);
      && NewRead(t, recs + [r]) && t.place == s.place
      && (if rebuild then FirstCome(OwnSlots(s.place, recs + [r]), t.newSlots) else t.newSlots == map[])
  {
    hide NewSlot, FirstCome;
    if rebuild {
      FirstComeOneMore(OwnSlots(s.place, recs), s.newSlots, OwnSlot(s.place, r));
      assert OwnSlots(s.place, recs + [r]) == OwnSlots(s.place, recs) + [OwnSlot(s.place, r)];
    }
  }

  /** The records at the start of a stream. */
  function Leading(stream: Stream, n: nat): (recs: seq<Record>)
    requires AllRecords(stream, n)
    ensures |recs| == n && forall k :: 0 <= k < n ==> recs[k] == stream[k].rec
  {
    seq(n, k requires 0 <= k < n => stream[k].rec)
  }

  lemma {:induction false} LoadNewPlaces(s: State, recs: seq<Record>, count: nat, rebuild: bool, stream: Stream)
    requires AllRecords(stream, count) && NewRead(s, recs)
    requires if rebuild then FirstCome(OwnSlots(s.place, recs), s.newSlots) else s.newSlots == map[]
    ensures LoadNew(s, count, rebuild, stream).Done?
    ensures var t, all := LoadNew(s, count, rebuild, stream).value.0, recs + Leading(stream, count);
      && NewRead(t, all) && t.place == s.place
      && (if rebuild then FirstCome(OwnSlots(s.place, all), t.newSlots) else t.newSlots == map[])
    decreases count
  {
    hide NewRead, FirstCome, LoadNewRecord;
    if count > 0 {
      var r := stream[0].rec;
      NewReadStep(s, recs, r, rebuild);
      FirstThenRest(stream, count);
      LoadNewPlaces(LoadNewRecord(s, r, rebuild), recs + [r], count - 1, rebuild, stream[1..]);
      assert recs + [r] + Leading(stream[1..], count - 1) == recs + Leading(stream, count);
    } else {
      assert recs + Leading(stream, count) == recs;
    }
  }

  function TriedSlots(p: Place, recs: seq<Record>): (q: seq<Slot>)
    ensures |q| == |recs| && forall k :: 0 <= k < |recs| ==> q[k] == TriedSlot(p, recs[k].service)
  {
    seq(|recs|, k requires 0 <= k < |recs| => TriedSlot(p, recs[k].service))
  }

  /** An entry is what the first record of its tried slot says. */
  ghost predicate FirstOf(i: AddrInfo, slots: seq<Slot>, recs: seq<Record>, sl: Slot) {
    && |slots| == |recs| && i.tried
    && exists k :: First(slots, k) && slots[k] == sl && ToRecord(i) == recs[k]
  }

  /** Each tried slot a record leads to holds the first such record; no other slot is held. */
  ghost predicate TriedRead(info: Entries, table: Table, slots: seq<Slot>, recs: seq<Record>) {
    && (forall sl :: sl in table ==> table[sl] in info && FirstOf(info[table[sl]], slots, recs, sl))
    && (forall k :: 0 <= k < |slots| ==> slots[k] in table)
  }

  lemma FirstOfMore(i: AddrInfo, slots: seq<Slot>, recs: seq<Record>, sl: Slot, slot: Slot, r: Record)
    requires FirstOf(i, slots, recs, sl)
    ensures FirstOf(i, slots + [slot], recs + [r], sl)
  {
    var k :| First(slots, k) && slots[k] == sl && ToRecord(i) == recs[k];
    assert First(slots + [slot], k) && (slots + [slot])[k] == sl && (recs + [r])[k] == recs[k];
  }

  lemma FirstOfItself(i: AddrInfo, slots: seq<Slot>, recs: seq<Record>, sl: Slot, r: Record)
    requires |slots| == |recs| && i.tried && ToRecord(i) == r && forall k :: 0 <= k < |slots| ==> slots[k] != sl
    ensures FirstOf(i, slots + [sl], recs + [r], sl)
  {
    assert First(slots + [sl], |slots|) && (slots + [sl])[|slots|] == sl && (recs + [r])[|slots|] == r;
  }

  lemma TriedReadStep(s: State, recs: seq<Record>, r: Record)
    requires s.idCount !in s.info && TriedRead(s.info, s.triedSlots, TriedSlots(s.place, recs), recs)
    ensures var t := LoadTriedRecord(s, r);
      && TriedRead(t.info, t.triedSlots, TriedSlots(s.place, recs + [r]), recs + [r])
      && t.place == s.place && t.newSlots == s.newSlots && t.nNew == s.nNew && t.idCount >= s.idCount
      && (forall id :: id in s.info ==> id in t.info && t.info[id] == s.info[id])
      && (forall id :: id in t.info && id !in s.info ==> t.info[id].tried)
  {
    hide TriedSlot, FirstOf;
    var slots, sl := TriedSlots(s.place, recs), TriedSlot(s.place, r.service);
    assert TriedSlots(s.place, recs + [r]) == slots + [sl];
    var t := LoadTriedRecord(s, r);
    forall x | x in t.triedSlots
      ensures t.triedSlots[x] in t.info && FirstOf(t.info[t.triedSlots[x]], slots + [sl], recs + [r], x)
    {
      if x in s.triedSlots {
        FirstOfMore(s.info[s.triedSlots[x]], slots, recs, x, sl, r);
      } else {
        FirstOfItself(t.info[s.idCount], slots, recs, sl, r);
      }
    }
  }

  lemma {:induction false} LoadTriedPlaces(s: State, recs: seq<Record>, count: nat, stream: Stream)
    requires AllRecords(stream, count) && Loading(s)
    requires TriedRead(s.info, s.triedSlots, TriedSlots(s.place, recs), recs)
    ensures LoadTried(s, count, stream).Done?
    ensures var t, all := LoadTried(s, count, stream).value.0, recs + Leading(stream, count);
      && TriedRead(t.info, t.triedSlots, TriedSlots(s.place, all), all)
      && t.place == s.place && t.newSlots == s.newSlots
      && (forall id :: id in s.info ==> id in t.info && t.info[id] == s.info[id])
      && (forall id :: id in t.info && id !in s.info ==> t.info[id].tried)
    decreases count
  {
    hide TriedRead, LoadTriedRecord, Loading;
    if count > 0 {
      var r := stream[0].rec;
      NextIsFree(s);
      TriedReadStep(s, recs, r);
      FirstThenRest(stream, count);
      LoadTriedRecordKeeps(s, r);
      LoadTriedPlaces(LoadTriedRecord(s, r), recs + [r], count - 1, stream[1..]);
      assert recs + [r] + Leading(stream[1..], count - 1) == recs + Leading(stream, count);
    } else {
      assert recs + Leading(stream, count) == recs;
    }
  }

  lemma NextIsFree(s: State)
    requires Loading(s)
    ensures s.idCount !in s.info
  {
  }

  // ----- the stored slots -----

  /** Entries keep their records and only gain slots. */
  ghost predicate Grows(s: State, t: State) {
    && t.place == s.place && t.nNew == s.nNew && t.triedSlots == s.triedSlots
    && t.info.Keys == s.info.Keys
    && (forall id :: id in s.info ==>
          && ToRecord(t.info[id]) == ToRecord(s.info[id]) && t.info[id].tried == s.info[id].tried
          && t.info[id].refCount >= s.info[id].refCount)
    && (forall sl :: sl in s.newSlots ==> sl in t.newSlots && t.newSlots[sl] == s.newSlots[sl])
  }

  lemma GrowsTwice(s: State, t: State, u: State)
    requires Grows(s, t) && Grows(t, u)
    ensures Grows(s, u)
  {
  }

  /** A stored index has been served: its slot is held, or its entry has as many slots as it may have. */
  ghost predicate Served(s: State, bucket: int, index: int) {
    index in s.info && !s.info[index].tried ==>
      || SlotIn(s.place, s.info[index].service, bucket) in s.newSlots
      || s.info[index].refCount >= 8
  }

  lemma GrowsServed(s: State, t: State, bucket: int, index: int)
    requires Grows(s, t) && Served(s, bucket, index)
    ensures Served(t, bucket, index)
  {
    hide SlotIn;
    if index in s.info { assert t.info[index].service == ToRecord(t.info[index]).service; }
  }

  /** The new entries have the first ids. */
  ghost predicate Numbered(s: State) {
    && (forall id :: 0 <= id < s.nNew ==> id in s.info)
    && (forall id :: id in s.info && !s.info[id].tried ==> 0 <= id < s.nNew)
  }

  lemma GrowsNumbered(s: State, t: State)
    requires Grows(s, t) && Numbered(s)
    ensures Numbered(t)
  {
  }

  lemma LoadIndexGrows(s: State, bucket: int, index: int)
    requires Numbered(s)
    ensures var t := LoadIndex(s, bucket, index, true);
      && Grows(s, t) && Served(t, bucket, index)
      && (forall sl :: sl in t.newSlots && sl !in s.newSlots ==> sl.bucket == bucket && t.newSlots[sl] == index)
  {
    hide BucketPosition;
  }

  /** The slots gained between two states are in one bucket, and their holders are listed. */
  ghost predicate GainedFrom(s: State, t: State, bucket: int, listed: Stream) {
    forall sl :: sl in t.newSlots && sl !in s.newSlots ==> sl.bucket == bucket && I32(t.newSlots[sl]) in listed
  }

  ghost predicate AllServed(s: State, bucket: int, listed: Stream) {
    forall index :: I32(index) in listed ==> Served(s, bucket, index)
  }

  lemma {:induction false} LoadIndicesGrows(s: State, bucket: int, count: nat, stream: Stream)
    requires Numbered(s) && AllNumbers(stream, count)
    ensures LoadIndices(s, bucket, count, true, stream).Done?
    ensures var t := LoadIndices(s, bucket, count, true, stream).value.0;
      Grows(s, t) && GainedFrom(s, t, bucket, stream[..count]) && AllServed(t, bucket, stream[..count])
    decreases |stream|
  {
    hide Served, LoadIndex, Grows;
    if count == 0 {
      GrowsItself(s);
    } else {
      var u := LoadIndex(s, bucket, stream[0].num, true);
      LoadIndexGrows(s, bucket, stream[0].num);
      GrowsNumbered(s, u);
      LoadIndicesGrows(u, bucket, count - 1, stream[1..]);
      var t := LoadIndices(s, bucket, count, true, stream).value.0;
      GrowsTwice(s, u, t);
      GrowsServed(u, t, bucket, stream[0].num);
      assert stream[..count] == [stream[0]] + stream[1..][..count - 1];
      GainedTwice(s, u, t, bucket, stream[0].num, stream[1..][..count - 1]);
    }
  }

  lemma GrowsItself(s: State)
    ensures Grows(s, s)
  {
  }

  lemma GainedTwice(s: State, u: State, t: State, bucket: int, index: int, listed: Stream)
    requires Grows(u, t) && GainedFrom(u, t, bucket, listed)
    requires forall sl :: sl in u.newSlots && sl !in s.newSlots ==> sl.bucket == bucket && u.newSlots[sl] == index
    ensures GainedFrom(s, t, bucket, [I32(index)] + listed)
  {
  }

  /** The numbers of one group of a stream. */
  ghost function Group(stream: Stream, n: int, j: nat): Stream
    requires Grouped(stream, n) && j < n
    decreases |stream|
  {
    var count := NotNegative(stream[0].num);
    if j == 0 then stream[1..][..count] else Group(stream[1..][count..], n - 1, j - 1)
  }

  /** The slots gained are those listed in the group of their bucket. */
  ghost predicate GainedByGroup(s: State, t: State, bucket: int, n: int, stream: Stream)
    requires Grouped(stream, n)
  {
    forall sl :: sl in t.newSlots && sl !in s.newSlots ==>
      0 <= sl.bucket - bucket < n && I32(t.newSlots[sl]) in Group(stream, n, sl.bucket - bucket)
  }

  ghost predicate GroupsServed(t: State, bucket: int, n: int, stream: Stream)
    requires Grouped(stream, n)
  {
    forall j: nat :: j < n ==> AllServed(t, bucket + j, Group(stream, n, j))
  }

  lemma {:induction false} LoadBucketsGrows(s: State, bucket: int, buckets: int, stream: Stream)
    requires Numbered(s) && Grouped(stream, buckets - bucket)
    ensures LoadBuckets(s, bucket, buckets, true, stream).Done?
    ensures var t := LoadBuckets(s, bucket, buckets, true, stream).value;
      && Grows(s, t) && GainedByGroup(s, t, bucket, buckets - bucket, stream)
      && GroupsServed(t, bucket, buckets - bucket, stream)
    decreases |stream|
  {
    hide LoadIndices, Grows, GainedFrom, AllServed;
    if buckets <= bucket {
      GrowsItself(s);
    } else {
      var count := NotNegative(stream[0].num);
      var group, rest := stream[1..][..count], stream[1..][count..];
      LoadIndicesReads(s, bucket, stream[0].num, true, stream[1..]);
      LoadIndicesGrows(s, bucket, count, stream[1..]);
      CountFromZero(s, bucket, stream[0].num, stream[1..]);
      var u := LoadIndices(s, bucket, count, true, stream[1..]).value.0;
      GrowsNumbered(s, u);
      LoadBucketsGrows(u, bucket + 1, buckets, rest);
      var t := LoadBuckets(s, bucket, buckets, true, stream).value;
      assert t == LoadBuckets(u, bucket + 1, buckets, true, rest).value;
      GrowsTwice(s, u, t);
      GainedInGroups(s, u, t, bucket, buckets - bucket, stream);
      ServedInGroups(u, t, bucket, buckets - bucket, stream);
    }
  }

  /** A count that is not positive reads nothing. */
  lemma CountFromZero(s: State, bucket: int, count: int, stream: Stream)
    requires forall id :: 0 <= id < s.nNew ==> id in s.info
    ensures LoadIndices(s, bucket, count, true, stream) ==
            LoadIndices(s, bucket, NotNegative(count), true, stream)
  {
  }

  lemma GainedInGroups(s: State, u: State, t: State, bucket: int, n: int, stream: Stream)
    requires n > 0 && Grouped(stream, n) && Grows(u, t)
    requires GainedFrom(s, u, bucket, stream[1..][..NotNegative(stream[0].num)])
    requires GainedByGroup(u, t, bucket + 1, n - 1, stream[1..][NotNegative(stream[0].num)..])
    ensures GainedByGroup(s, t, bucket, n, stream)
  {
    forall sl | sl in t.newSlots && sl !in s.newSlots
      ensures 0 <= sl.bucket - bucket < n && I32(t.newSlots[sl]) in Group(stream, n, sl.bucket - bucket)
    {
      if sl !in u.newSlots {
        var j := sl.bucket - bucket;
        assert Group(stream, n, j) == Group(stream[1..][NotNegative(stream[0].num)..], n - 1, j - 1);
      }
    }
  }

  lemma ServedInGroups(u: State, t: State, bucket: int, n: int, stream: Stream)
    requires n > 0 && Grouped(stream, n) && Grows(u, t)
    requires AllServed(u, bucket, stream[1..][..NotNegative(stream[0].num)])
    requires GroupsServed(t, bucket + 1, n - 1, stream[1..][NotNegative(stream[0].num)..])
    ensures GroupsServed(t, bucket, n, stream)
  {
    hide Served, Grows;
    forall j: nat | j < n
      ensures AllServed(t, bucket + j, Group(stream, n, j))
    {
      if j == 0 {
        forall index | I32(index) in Group(stream, n, 0)
          ensures Served(t, bucket, index)
        {
          GrowsServed(u, t, bucket, index);
        }
      } else {
        assert AllServed(t, bucket + 1 + (j - 1), Group(stream[1..][NotNegative(stream[0].num)..], n - 1, j - 1));
      }
    }
  }

  /** Slot data that cannot be used is read and dropped. */
  lemma {:induction false} LoadIndicesDrops(s: State, bucket: int, count: int, stream: Stream)
    requires forall id :: 0 <= id < s.nNew ==> id in s.info
    ensures var o := LoadIndices(s, bucket, count, false, stream); o.Done? ==> o.value.0 == s
    decreases |stream|
  {
    if count > 0 && stream != [] && stream[0].I32? {
      LoadIndicesDrops(s, bucket, count - 1, stream[1..]);
    }
  }

  lemma {:induction false} LoadBucketsDrops(s: State, bucket: int, buckets: int, stream: Stream)
    requires forall id :: 0 <= id < s.nNew ==> id in s.info
    ensures var o := LoadBuckets(s, bucket, buckets, false, stream); o.Done? ==> o.value == s
    decreases |stream|
  {
    if bucket < buckets && stream != [] && stream[0].I32? {
      LoadIndicesDrops(s, bucket, stream[0].num, stream[1..]);
      match LoadIndices(s, bucket, stream[0].num, false, stream[1..])
      case Throws =>
      case Done((t, rest)) => LoadBucketsDrops(t, bucket + 1, buckets, rest);
    }
  }

  // ----- pruning, and the whole -----

  /** Pruning deletes exactly the listed new entries without a slot, and changes nothing else. */
  lemma {:induction false} PruneExactly(s: State, ids: seq<int>, limbo: set<int>)
    requires Partial(s, limbo, 0)
    ensures var t := Prune(s, ids, limbo);
      && t.newSlots == s.newSlots && t.triedSlots == s.triedSlots && t.place == s.place
      && (forall id :: id in t.info <==> id in s.info && !(L.Doomed(s.info[id]) && id in ids))
      && (forall id :: id in t.info ==> Survives(s.info, t.info, id))
    decreases |ids|
  {
    hide Partial, Alike;
    if ids == [] {
      forall id | id in s.info ensures Survives(s.info, s.info, id) { AlikeItself(s.info[id]); }
    } else if ids[0] in s.info && L.Doomed(s.info[ids[0]]) {
      var d := ids[0];
      DeleteKeeps(s, d, limbo, 0);
      DeleteExactly(s, d);
      var u := Delete(s, d);
      PruneExactly(u, ids[1..], limbo - {d});
      PrunedTwice(s.info, u.info, Prune(u, ids[1..], limbo - {d}).info, d, ids);
    } else {
      PruneExactly(s, ids[1..], limbo);
      assert forall id :: id in ids <==> id == ids[0] || id in ids[1..];
    }
  }

  lemma AlikeItself(i: AddrInfo)
    ensures Alike(i, i)
  {
  }

  lemma PrunedTwice(info: Entries, info': Entries, info'': Entries, d: int, ids: seq<int>)
    requires ids != [] && ids[0] == d && d in info && L.Doomed(info[d])
    requires info'.Keys == info.Keys - {d} && Spared(info, info', d, d)
    requires forall id :: id in info'' <==> id in info' && !(L.Doomed(info'[id]) && id in ids[1..])
    requires forall id :: id in info'' ==> Survives(info', info'', id)
    ensures forall id :: id in info'' <==> id in info && !(L.Doomed(info[id]) && id in ids)
    ensures forall id :: id in info'' ==> Survives(info, info'', id)
  {
    assert forall id :: id in ids <==> id == d || id in ids[1..];
    assert forall id :: id in info' <==> id in info && id != d;
    forall id | id in info'
      ensures Survives(info, info', id)
    {
      assert id in info && id != d;
    }
  }

  /** The new and the tried records of a stream that can be read. */
  ghost function NewRecords(stream: Stream): seq<Record>
    requires Readable(stream)
  {
    Leading(stream[6..], stream[3].num)
  }

  ghost function TriedRecords(stream: Stream): seq<Record>
    requires Readable(stream)
  {
    RecordsSplit(stream[6..], stream[3].num, stream[4].num);
    Leading(stream[6..][stream[3].num..], stream[4].num)
  }

  /** Where the bucket data of a stream starts, and how many buckets it is for. */
  ghost function Stored(stream: Stream): Stream
    requires Readable(stream)
  {
    stream[6..][stream[3].num + stream[4].num..]
  }

  ghost predicate SlotsUsable(stream: Stream)
    requires Readable(stream)
  {
    stream[0] == U8(1) && stream[5] == I32(0x400 + 0x4000_0000)
  }

  lemma UsableExactly(stream: Stream)
    requires Readable(stream)
    ensures ReadStart(stream).Done? && (Usable(ReadStart(stream).value) <==> SlotsUsable(stream))
    ensures SlotsUsable(stream) ==> Grouped(Stored(stream), NEW_BUCKET_COUNT)
  {
    hide Grouped;
  }

  /** The tables hold the records that were read. */
  ghost predicate AsRead(t: State, stream: Stream)
    requires Readable(stream)
  {
    var untried, tried := NewRecords(stream), TriedRecords(stream);
    && t.place.key == stream[2].key
    && (forall id :: id in t.info && !t.info[id].tried ==> 0 <= id < |untried| && ToRecord(t.info[id]) == untried[id])
    && (forall k :: 0 <= k < |untried| && k in t.info ==> !t.info[k].tried)
    && TriedRead(t.info, t.triedSlots, TriedSlots(t.place, tried), tried)
  }

  /** Without usable slot data each new slot goes to the first record whose source leads to it. */
  ghost predicate Rebuilt(t: State, stream: Stream)
    requires Readable(stream)
  {
    FirstCome(OwnSlots(t.place, NewRecords(stream)), t.newSlots)
  }

  /** With usable slot data slots are held as stored, and no stored slot is left out that could be held. */
  ghost predicate Refilled(t: State, stream: Stream)
    requires Readable(stream) && SlotsUsable(stream)
  {
    UsableExactly(stream);
    && (forall sl :: sl in t.newSlots ==>
          && 0 <= sl.bucket < NEW_BUCKET_COUNT
          && I32(t.newSlots[sl]) in Group(Stored(stream), NEW_BUCKET_COUNT, sl.bucket))
    && GroupsServed(t, 0, NEW_BUCKET_COUNT, Stored(stream))
  }

  /** The records are read into empty tables. */
  lemma RecordsRead(h: Hasher, stream: Stream)
    requires Readable(stream)
    ensures ReadStart(stream).Done?
    ensures var start := ReadStart(stream).value; var s := Empty(Place(h, start.key));
      && LoadNew(s, start.nNew, !Usable(start), stream[6..]).Done?
      && var (t, rest) := LoadNew(s, start.nNew, !Usable(start), stream[6..]).value;
         && Loading(t) && LoadTried(t, start.nTried, rest).Done?
         && var (u, indices) := LoadTried(t, start.nTried, rest).value;
            && Loading(u) && Numbered(u) && AsRead(u, stream) && indices == Stored(stream) && u.place == s.place
            && u.nNew == start.nNew
            && (if Usable(start) then u.newSlots == map[] else Rebuilt(u, stream))
  {
    hide Grouped, LoadNew, LoadTried, FirstCome, NewRead, TriedRead, Loading;
    var start := ReadStart(stream).value;
    var s := Empty(Place(h, start.key));
    var n, m := start.nNew, start.nTried;
    RecordsSplit(stream[6..], n, m);
    EmptyIsLoading(s.place);
    NothingRead(s.place);
    LoadNewPlaces(s, [], n, !Usable(start), stream[6..]);
    LoadNewReads(s, n, !Usable(start), stream[6..]);
    LoadNewKeeps(s, n, !Usable(start), stream[6..]);
    assert [] + Leading(stream[6..], n) == NewRecords(stream);
    var (t, rest) := LoadNew(s, n, !Usable(start), stream[6..]).value;
    NoTriedYet(t, NewRecords(stream));
    LoadTriedPlaces(t, [], m, rest);
    LoadTriedReads(t, m, rest);
    LoadTriedKeeps(t, m, rest);
    assert [] + Leading(rest, m) == TriedRecords(stream);
  }

  lemma NothingRead(p: Place)
    ensures NewRead(Empty(p), []) && FirstCome(OwnSlots(p, []), Empty(p).newSlots)
  {
  }

  lemma NoTriedYet(t: State, recs: seq<Record>)
    requires NewRead(t, recs)
    ensures TriedRead(t.info, t.triedSlots, TriedSlots(t.place, []), []) && t.nNew == |recs|
    ensures forall k :: 0 <= k < |recs| ==> k in t.info && ToRecord(t.info[k]) == recs[k] && !t.info[k].tried
    ensures forall id :: id in t.info ==> 0 <= id < |recs|
  {
  }

  /** The tables are what reading the buckets makes of the state after the records. */
  lemma TablesForm(h: Hasher, stream: Stream)
    requires Readable(stream)
    ensures ReadStart(stream).Done? && ReadStart(stream).value.key == stream[2].key
    ensures var start := ReadStart(stream).value; var u := AfterRecords(h, stream);
      && u.place == Place(h, start.key) && Loading(u) && Numbered(u) && AsRead(u, stream)
      && (if Usable(start) then u.newSlots == map[] else Rebuilt(u, stream))
      && Tables(h, stream) == LoadBuckets(u, 0, start.buckets, Usable(start), Stored(stream))
  {
    hide Grouped, LoadNew, LoadTried, LoadBuckets, Loading, AsRead, Rebuilt, Numbered;
    RecordsRead(h, stream);
    NumberedIds(AfterRecords(h, stream));
  }

  lemma NumberedIds(u: State)
    requires Numbered(u)
    ensures forall id :: 0 <= id < u.nNew ==> id in u.info
  {
  }

  /** The state once all records have been read. */
  ghost function AfterRecords(h: Hasher, stream: Stream): State
    requires Readable(stream)
  {
    RecordsRead(h, stream);
    var start := ReadStart(stream).value;
    var (t, rest) := LoadNew(Empty(Place(h, start.key)), start.nNew, !Usable(start), stream[6..]).value;
    LoadTried(t, start.nTried, rest).value.0
  }

  lemma TablesRead(h: Hasher, stream: Stream)
    requires Readable(stream)
    ensures Tables(h, stream).Done?
    ensures var t := Tables(h, stream).value;
      && Loading(t) && t.place == Place(h, stream[2].key) && AsRead(t, stream)
      && (if SlotsUsable(stream) then Refilled(t, stream) else Rebuilt(t, stream))
  {
    hide Grouped, LoadBuckets, Loading, AsRead, Rebuilt, Readable, Grows, Tables, AfterRecords, ReadStart, Refilled,
      GainedByGroup, GroupsServed, Stored, Numbered;
    UsableExactly(stream);
    TablesForm(h, stream);
    TablesAreLoading(h, stream);
    var u, start := AfterRecords(h, stream), ReadStart(stream).value;
    NumberedIds(u);
    if SlotsUsable(stream) {
      LoadBucketsGrows(u, 0, NEW_BUCKET_COUNT, Stored(stream));
      GrowsAsRead(u, Tables(h, stream).value, stream);
      GainedIsRefilled(u, Tables(h, stream).value, stream);
    } else {
      UnserializeReads(h, stream);
      LoadBucketsDrops(u, 0, start.buckets, Stored(stream));
    }
  }

  lemma GainedIsRefilled(s: State, t: State, stream: Stream)
    requires Readable(stream) && SlotsUsable(stream) && s.newSlots == map[]
    requires Grouped(Stored(stream), NEW_BUCKET_COUNT)
    requires GainedByGroup(s, t, 0, NEW_BUCKET_COUNT, Stored(stream))
    requires GroupsServed(t, 0, NEW_BUCKET_COUNT, Stored(stream))
    ensures Refilled(t, stream)
  {
    hide Readable, Grouped, Group, GroupsServed, Stored;
  }

  lemma GrowsAsRead(s: State, t: State, stream: Stream)
    requires Readable(stream) && AsRead(s, stream) && Grows(s, t)
    ensures AsRead(t, stream) && t.place == s.place
  {
    hide FirstOf, Readable;
    var tried := TriedRecords(stream);
    forall sl | sl in t.triedSlots
      ensures t.triedSlots[sl] in t.info
      ensures FirstOf(t.info[t.triedSlots[sl]], TriedSlots(t.place, tried), tried, sl)
    {
      var id := s.triedSlots[sl];
      FirstOfSame(s.info[id], t.info[id], TriedSlots(t.place, tried), tried, sl);
    }
  }

  lemma FirstOfSame(i: AddrInfo, j: AddrInfo, slots: seq<Slot>, recs: seq<Record>, sl: Slot)
    requires FirstOf(i, slots, recs, sl) && ToRecord(j) == ToRecord(i) && j.tried == i.tried
    ensures FirstOf(j, slots, recs, sl)
  {
  }

  /** What pruning does, entry by entry. */
  ghost predicate Pruned(s: State, t: State) {
    && t.newSlots == s.newSlots && t.triedSlots == s.triedSlots && t.place == s.place
    && (forall id :: id in t.info <==> id in s.info && !L.Doomed(s.info[id]))
    && (forall id :: id in t.info ==> Survives(s.info, t.info, id))
  }

  lemma PrunedAsRead(s: State, t: State, stream: Stream)
    requires Readable(stream) && AsRead(s, stream) && Pruned(s, t)
    ensures AsRead(t, stream)
  {
    hide FirstOf, Readable;
    var tried := TriedRecords(stream);
    forall sl | sl in t.triedSlots
      ensures t.triedSlots[sl] in t.info
      ensures FirstOf(t.info[t.triedSlots[sl]], TriedSlots(t.place, tried), tried, sl)
    {
      var id := s.triedSlots[sl];
      FirstOfTried(s.info[id], TriedSlots(t.place, tried), tried, sl);
      assert id in t.info && Survives(s.info, t.info, id);
      FirstOfSame(s.info[id], t.info[id], TriedSlots(t.place, tried), tried, sl);
    }
  }

  lemma FirstOfTried(i: AddrInfo, slots: seq<Slot>, recs: seq<Record>, sl: Slot)
    requires FirstOf(i, slots, recs, sl)
    ensures i.tried
  {
  }

  /** After pruning an untried entry is there exactly if it has a slot. */
  lemma PrunedHolders(s: State, t: State, n: nat)
    requires Loading(s) && Pruned(s, t) && forall k :: 0 <= k < n && k in s.info ==> !s.info[k].tried
    ensures forall k :: 0 <= k < n ==> (k in t.info <==> exists sl :: sl in t.newSlots && t.newSlots[sl] == k)
  {
    forall k | 0 <= k < n
      ensures k in t.info <==> exists sl :: sl in t.newSlots && t.newSlots[sl] == k
    {
      if k in t.info {
        var held := Holders(s.newSlots, k);
        assert |held| > 0;
        var sl :| sl in held;
        assert t.newSlots[sl] == k;
      }
      if sl :| sl in t.newSlots && t.newSlots[sl] == k {
        assert sl in Holders(s.newSlots, k);
      }
    }
  }

  lemma PrunedServed(s: State, t: State, bucket: int, n: int, stream: Stream)
    requires Grouped(stream, n) && Pruned(s, t) && GroupsServed(s, bucket, n, stream)
    ensures GroupsServed(t, bucket, n, stream)
  {
    hide SlotIn, Grouped, Group;
    forall j: nat, index | j < n && I32(index) in Group(stream, n, j)
      ensures Served(t, bucket + j, index)
    {
      assert AllServed(s, bucket + j, Group(stream, n, j));
      assert Served(s, bucket + j, index);
    }
  }

  lemma TablesPruned(h: Hasher, stream: Stream)
    requires Tables(h, stream).Done?
    ensures Unserialize(h, stream).Done? && Pruned(Tables(h, stream).value, Unserialize(h, stream).value)
  {
    hide Partial, Tables, Prune, Ascending, Pruned, Unserialize;
    TablesAreLoading(h, stream);
    var s := Tables(h, stream).value;
    UnserializeForm(h, stream);
    PruneAll(s);
  }

  lemma UnserializeForm(h: Hasher, stream: Stream)
    requires Tables(h, stream).Done? && Loading(Tables(h, stream).value)
    ensures var s := Tables(h, stream).value;
      Unserialize(h, stream) == Done(Prune(s, Ascending(s.info.Keys), s.info.Keys))
  {
    hide Partial, Tables, Prune, Ascending;
  }

  lemma PruneAll(s: State)
    requires Partial(s, s.info.Keys, 0)
    ensures Pruned(s, Prune(s, Ascending(s.info.Keys), s.info.Keys))
  {
    hide Partial, Prune, Ascending, Survives, L.Doomed;
    PruneExactly(s, Ascending(s.info.Keys), s.info.Keys);
  }

  /**
  What reading any stream of the documented form leaves in the tables. The tried records that came first
  at their slot are there. A new record is there exactly if it has a slot. The slots are those stored, or
  without usable slot data those the records' own sources lead to.
  */
  lemma UnserializeRestores(h: Hasher, stream: Stream)
    requires Readable(stream)
    ensures Unserialize(h, stream).Done?
    ensures var t := Unserialize(h, stream).value;
      && t.place == Place(h, stream[2].key) && AsRead(t, stream)
      && (forall k :: 0 <= k < |NewRecords(stream)| && k in t.info ==> !t.info[k].tried)
      && (forall k :: 0 <= k < |NewRecords(stream)| ==>
            (k in t.info <==> exists sl :: sl in t.newSlots && t.newSlots[sl] == k))
      && (if SlotsUsable(stream) then Refilled(t, stream) else Rebuilt(t, stream))
  {
    hide Partial, Readable, AsRead, Rebuilt, Loading, Unserialize, Tables, Pruned, GroupsServed, Grouped;
    TablesRead(h, stream);
    TablesPruned(h, stream);
    var s, t := Tables(h, stream).value, Unserialize(h, stream).value;
    PrunedAsRead(s, t, stream);
    AsReadUntried(s, stream);
    AsReadUntried(t, stream);
    PrunedHolders(s, t, |NewRecords(stream)|);
    PrunedSlots(s, t);
    if SlotsUsable(stream) {
      UsableExactly(stream);
      PrunedServed(s, t, 0, NEW_BUCKET_COUNT, Stored(stream));
    } else {
      RebuiltBySlots(s, t, stream);
    }
  }

  lemma AsReadUntried(t: State, stream: Stream)
    requires Readable(stream) && AsRead(t, stream)
    ensures forall k :: 0 <= k < |NewRecords(stream)| && k in t.info ==> !t.info[k].tried
  {
  }

  lemma PrunedSlots(s: State, t: State)
    requires Pruned(s, t)
    ensures t.newSlots == s.newSlots && t.place == s.place
  {
  }

  lemma RebuiltBySlots(s: State, t: State, stream: Stream)
    requires Readable(stream) && Rebuilt(s, stream) && t.newSlots == s.newSlots && t.place == s.place
    ensures Rebuilt(t, stream)
  {
  }
}
