/** The receiving and sending ends of a peer connection. */
module Net {
  import opened Basics
  import opened Framing

  /** A message buffer is grown at most this far ahead of the bytes received. */
  const AHEAD := 256 * 1024

  /** A message as it comes in. */
  class NetMessage {
    var inData: bool
    var hdrbuf: seq<Byte>
    var hdrPos: nat
    var messageSize: nat
    var recv: seq<Byte>
    var dataPos: nat

    ghost predicate Valid()
      reads this
    {
      && |hdrbuf| == HEADER_SIZE
      && (if inData then
            && hdrPos == HEADER_SIZE && messageSize == SizeOf(hdrbuf) <= MAX_SIZE
            && dataPos <= |recv| <= messageSize && |recv| <= dataPos + AHEAD
          else
            hdrPos < HEADER_SIZE && dataPos == 0 && recv == [])
    }

    /** The bytes taken in so far. */
    ghost function Bytes(): seq<Byte>
      reads this
      requires Valid()
    {
      hdrbuf[..hdrPos] + recv[..dataPos]
    }

    predicate Complete()
      reads this
    {
      inData && messageSize == dataPos
    }

    function AsWire(): Wire
      reads this
    {
      Wire(hdrbuf, recv)
    }

    constructor ()
      ensures Valid() && Bytes() == [] && !inData
    {
      inData := false;
      hdrbuf := seq(HEADER_SIZE, i => 0);
      hdrPos := 0;
      messageSize := TWO32 - 1;
      recv := [];
      dataPos := 0;
    }

    /** What a complete message stands for, and what an incomplete one may still become. */
    lemma Meaning()
      requires Valid()
      ensures Complete() ==> Exact(Bytes()) && First(Bytes()) == AsWire()
      ensures !Complete() ==> !Whole(Bytes()) && !Oversized(Bytes())
    {
      if inData {
        var b := Bytes();
        assert b[..HEADER_SIZE] == hdrbuf;
        SameHeader(hdrbuf, recv[..dataPos]);
        assert b[HEADER_SIZE..] == recv[..dataPos];
        if Complete() {
          assert recv[..dataPos] == recv;
          assert b[HEADER_SIZE..HEADER_SIZE + SizeOf(b)] == recv;
        }
      }
    }

    method ReadHeader(pch: seq<Byte>) returns (handled: int)
      requires Valid() && !inData && pch != []
      modifies this
      ensures var n := Least(HEADER_SIZE - old(hdrPos), |pch|); var c := old(Bytes()) + pch[..n];
        && (if Oversized(c) then handled == -1 else handled == n)
        && (handled >= 0 ==> Valid() && Bytes() == c && inData == (|c| == HEADER_SIZE))
    {
      var remaining := HEADER_SIZE - hdrPos;
      var copy := Least(remaining, |pch|);
      ghost var c := Bytes() + pch[..copy];
      hdrbuf := hdrbuf[..hdrPos] + pch[..copy] + hdrbuf[hdrPos + copy..];
      hdrPos := hdrPos + copy;
      assert hdrbuf[..hdrPos] == c;
      if hdrPos < HEADER_SIZE {
        return copy;
      }
      assert hdrbuf == c;
      messageSize := SizeOf(hdrbuf);
      if messageSize > MAX_SIZE {
        return -1;
      }
      inData := true;
      return copy;
    }

    method ReadData(pch: seq<Byte>) returns (handled: nat)
      requires Valid() && inData && !Complete() && pch != []
      modifies this
      ensures handled == Least(old(messageSize - dataPos), |pch|) > 0
      ensures Valid() && inData && Bytes() == old(Bytes()) + pch[..handled]
    {
      var remaining := messageSize - dataPos;
      var copy := Least(remaining, |pch|);
      ghost var c := Bytes() + pch[..copy];
      if |recv| < dataPos + copy {
        var size := Least(messageSize, dataPos + copy + AHEAD);
        recv := recv + seq(size - |recv|, i => 0);
      }
      recv := recv[..dataPos] + pch[..copy] + recv[dataPos + copy..];
      dataPos := dataPos + copy;
      assert hdrbuf[..hdrPos] + recv[..dataPos] == c;
      return copy;
    }

    /** Take in header or payload bytes, whichever are next. */
    method Fill(pch: seq<Byte>) returns (handled: int)
      requires Valid() && !Complete() && pch != []
      modifies this
      ensures handled >= 0 ==> 0 < handled <= |pch| && Valid() && Bytes() == old(Bytes()) + pch[..handled]
      ensures handled < 0 ==> exists n :: 0 <= n <= |pch| && Oversized(old(Bytes()) + pch[..n])
    {
      hide Oversized, SizeOf;
      if !inData {
        handled := ReadHeader(pch);
      } else {
        handled := ReadData(pch);
      }
    }
  }

  lemma ExactIsWhole(c: seq<Byte>)
    requires Exact(c)
    ensures Whole(c)
  {
  }

  /** The receiving end: messages in the order they came, all but the last complete. */
  class Receiver {
    var recvMsg: seq<NetMessage>
    ghost var Repr: set<object>

    ghost predicate Valid()
      reads this, Repr
    {
      && this in Repr && (forall i :: 0 <= i < |recvMsg| ==> recvMsg[i] in Repr)
      && (forall i, j :: 0 <= i < j < |recvMsg| ==> recvMsg[i] != recvMsg[j])
      && (forall i :: 0 <= i < |recvMsg| ==> recvMsg[i].Valid())
      && (forall i :: 0 <= i < |recvMsg| - 1 ==> recvMsg[i].Complete())
    }

    /** How many messages are complete. */
    function Count(): nat
      reads this, Repr
      requires Valid()
    {
      if recvMsg != [] && !recvMsg[|recvMsg| - 1].Complete() then |recvMsg| - 1 else |recvMsg|
    }

    ghost function Done(): seq<Wire>
      reads this, Repr
      requires Valid()
    {
      Wires(recvMsg[..Count()])
    }

    /** The bytes of the message still coming in. */
    ghost function Partial(): seq<Byte>
      reads this, Repr
      requires Valid()
    {
      if Count() < |recvMsg| then recvMsg[|recvMsg| - 1].Bytes() else []
    }

    constructor ()
      ensures Valid() && fresh(Repr) && Done() == [] && Partial() == []
    {
      recvMsg := [];
      Repr := {this};
    }

    /** The message being received, a new one if the last is complete. */
    method Current() returns (msg: NetMessage)
      requires Valid()
      modifies this
      ensures Valid() && recvMsg != [] && msg == recvMsg[|recvMsg| - 1] && !msg.Complete()
      ensures Count() == |recvMsg| - 1 && Done() == old(Done()) && Partial() == old(Partial()) == msg.Bytes()
      ensures fresh(Repr - old(Repr))
    {
      hide SizeOf, NetMessage.Valid, NetMessage.AsWire;
      if recvMsg == [] || recvMsg[|recvMsg| - 1].Complete() {
        var m := new NetMessage();
        ghost var before := recvMsg;
        recvMsg := recvMsg + [m];
        Repr := Repr + {m};
        assert recvMsg[..Count()] == before;
        assert before[..|before|] == before;
      }
      msg := recvMsg[|recvMsg| - 1];
    }

    /** One step of the receive loop: at most to the end of the current message. */
    method Absorb(pch: seq<Byte>) returns (handled: int)
      requires Valid() && pch != []
      modifies Repr
      ensures fresh(Repr - old(Repr))
      ensures handled >= 0 ==>
        && 0 < handled <= |pch| && Valid()
        && var c := old(Partial()) + pch[..handled];
           if Exact(c) then Done() == old(Done()) + [First(c)] && Partial() == []
           else Done() == old(Done()) && Partial() == c
      ensures handled < 0 ==>
        && recvMsg != [] && Wires(recvMsg[..|recvMsg| - 1]) == old(Done())
        && exists n :: 0 <= n <= |pch| && Oversized(old(Partial()) + pch[..n])
    {
      hide Exact, Whole, Oversized, First, SizeOf, NetMessage.Valid, NetMessage.Complete, NetMessage.Bytes,
           NetMessage.AsWire;
      var msg := Current();
      ghost var front, done, partial := recvMsg[..|recvMsg| - 1], Done(), Partial();
      assert Wires(front) == done && recvMsg == front + [msg];
      assert forall i :: 0 <= i < |front| ==> front[i] == recvMsg[i] != msg;
      handled := msg.Fill(pch);
      assert Wires(front) == done;
      if handled >= 0 {
        assert forall i :: 0 <= i < |front| ==> front[i].Valid() && front[i].Complete();
        Now();
      }
    }

    /** What the queue holds, by its last message. */
    lemma Now()
      requires Valid() && recvMsg != []
      ensures var n := |recvMsg| - 1; var c := recvMsg[n].Bytes();
        if Exact(c) then Done() == Wires(recvMsg[..n]) + [First(c)] && Partial() == []
        else Done() == Wires(recvMsg[..n]) && Partial() == c
    {
      hide Whole, Oversized, First, SizeOf;
      var n := |recvMsg| - 1;
      recvMsg[n].Meaning();
      if recvMsg[n].Complete() {
        assert recvMsg[..Count()] == recvMsg[..n] + [recvMsg[n]];
      }
    }

    method ReceiveMsgBytes(pch: seq<Byte>) returns (ok: bool)
      requires Valid()
      modifies Repr
      ensures fresh(Repr - old(Repr))
      ensures var p := Parse(old(Partial()) + pch);
        && ok == p.ok
        && (ok ==> Valid() && Done() == old(Done()) + p.done && Partial() == p.rest)
        && (!ok ==> recvMsg != [] && Wires(recvMsg[..|recvMsg| - 1]) == old(Done()) + p.done)
    {
      hide Parse, Exact, Oversized, First, SizeOf, After, Wires, Done, Partial, Count, Valid;
      var i := 0;
      ghost var p := Parse(Partial() + pch);
      ghost var before, found: seq<Wire> := Done(), [];
      assert pch[0..] == pch;
      AfterNothing(p);
      while i < |pch|
        invariant 0 <= i <= |pch| && Valid() && fresh(Repr - old(Repr))
        invariant Done() == before + found && p == After(found, Parse(Partial() + pch[i..]))
      {
        ghost var c := Partial();
        var rest := pch[i..];
        var handled := Absorb(rest);
        if handled < 0 {
          ghost var n :| 0 <= n <= |rest| && Oversized(c + rest[..n]);
          RefusedAt(found, c, rest, n);
          return false;
        }
        Advance(found, c, rest, handled);
        if Exact(c + rest[..handled]) {
          ExactIsWhole(c + rest[..handled]);
          found := found + [First(c + rest[..handled])];
        }
        assert rest[handled..] == pch[i + handled..];
        i := i + handled;
      }
      assert Partial() + pch[|pch|..] == Partial();
      PartialParse();
      AfterRest(found, Partial());
      return true;
    }

    /** The handler takes some of the messages that are complete, up to a number. */
    method TakeUpTo(most: nat) returns (handed: seq<Wire>, left: seq<Wire>)
      requires Valid()
      modifies this
      ensures Valid() && Repr == old(Repr) && Partial() == old(Partial())
      ensures handed + left == old(Done()) && left == Done()
    {
      hide Partial, Valid, Done, Count;
      var n := Least(most, Count());
      FrontOfDone(this, n);
      ghost var done := Done();
      assert done[..n] + done[n..] == done;
      handed := Wires(recvMsg[..n]);
      left := Wires(recvMsg[n..Count()]);
      Take(n);
    }

    /** Bytes come in, and the handler takes messages. */
    method ReceiveAndTake(pch: seq<Byte>, most: nat) returns (ok: bool, handed: seq<Wire>, left: seq<Wire>)
      requires Valid()
      modifies Repr
      ensures fresh(Repr - old(Repr))
      ensures var p := Parse(old(Partial()) + pch);
        && ok == p.ok && handed + left == old(Done()) + p.done
        && (ok ==> Valid() && left == Done() && Partial() == p.rest)
    {
      assert this in Repr;
      hide Parse, Partial, Valid, Done, Count;
      handed, left := [], [];
      ok := ReceiveMsgBytes(pch);
      if ok {
        assert this in Repr by { InRepr(); }
        handed, left := TakeUpTo(most);
      } else {
        left := Wires(recvMsg[..|recvMsg| - 1]);
      }
    }

    lemma InRepr()
      requires Valid()
      ensures this in Repr
    {
    }

    lemma PartialParse()
      requires Valid()
      ensures Parse(Partial()) == Parsed([], Partial(), true)
    {
      if Count() < |recvMsg| {
        recvMsg[|recvMsg| - 1].Meaning();
      }
    }

    /** The handler takes complete messages off the front. */
    method Take(n: nat)
      requires Valid() && n <= Count()
      modifies this
      ensures Valid() && Done() == old(Done())[n..] && Partial() == old(Partial()) && recvMsg == old(recvMsg)[n..]
      ensures Repr == old(Repr)
    {
      hide NetMessage.Valid, NetMessage.Complete, NetMessage.Bytes, NetMessage.AsWire;
      ghost var front := recvMsg[..Count()];
      recvMsg := recvMsg[n..];
      assert recvMsg[..Count()] == front[n..];
    }
  }

  lemma AfterNothing(p: Parsed)
    ensures p == After([], p)
  {
  }

  lemma AfterRest(found: seq<Wire>, rest: seq<Byte>)
    ensures After(found, Parsed([], rest, true)) == Parsed(found, rest, true)
  {
    assert found + [] == found;
  }

  /** A header that announces too much ends the stream with the messages found before it. */
  lemma RefusedAt(found: seq<Wire>, c: seq<Byte>, rest: seq<Byte>, n: nat)
    requires n <= |rest| && Oversized(c + rest[..n])
    ensures !After(found, Parse(c + rest)).ok && After(found, Parse(c + rest)).done == found
  {
    var a := c + rest[..n];
    assert c + rest == a + rest[n..];
    ParseMore(a, rest[n..]);
  }

  /** Taking in bytes up to the end of a message at most. */
  lemma Advance(found: seq<Wire>, c: seq<Byte>, rest: seq<Byte>, n: nat)
    requires n <= |rest|
    ensures var x := c + rest[..n];
      && (Exact(x) ==> After(found, Parse(c + rest)) == After(found + [First(x)], Parse([] + rest[n..])))
      && c + rest == x + rest[n..]
  {
    hide Parse, First, SizeOf;
    var x := c + rest[..n];
    assert c + rest == x + rest[n..];
    if Exact(x) {
      ExactParse(x);
      ParseMore(x, rest[n..]);
    }
  }

  function Wires(ms: seq<NetMessage>): (ws: seq<Wire>)
    reads ms
    ensures |ws| == |ms| && forall i :: 0 <= i < |ms| ==> ws[i] == ms[i].AsWire()
  {
    if ms == [] then [] else Wires(ms[..|ms| - 1]) + [ms[|ms| - 1].AsWire()]
  }

  // ----- sending -----

  /** What a call of the socket's Send comes back with. At most the bytes offered are taken. */
  datatype Reply = Took(n: nat) | Blocked | Broken

  /** The sending end: whole messages wait in a queue, the front one perhaps sent in part. */
  class Sender {
    const start: seq<Byte>
    const sum: seq<Byte> -> seq<Byte>
    var sendMsg: seq<seq<Byte>>
    var sendOffset: nat
    var sendSize: nat
    var ssSend: seq<Byte>
    var open: bool
    /** The bytes the socket has taken and the messages queued, since the connection began. */
    ghost var wire: seq<Byte>
    ghost var queued: seq<Message>

    ghost predicate Queue()
      reads this
    {
      && |start| == START_SIZE && Sendable(queued, sum)
      && Waiting(sendMsg, sendOffset, sendSize, wire, Concat(Frames(queued, start, sum)))
    }

    ghost predicate Valid()
      reads this
    {
      Queue() && ssSend == []
    }

    constructor (start: seq<Byte>, sum: seq<Byte> -> seq<Byte>)
      requires |start| == START_SIZE
      ensures Valid() && this.start == start && this.sum == sum && open && wire == [] && queued == []
    {
      this.start, this.sum := start, sum;
      sendMsg, sendOffset, sendSize, ssSend, open := [], 0, 0, [], true;
      wire, queued := [], [];
    }

    method BeginMessage(command: seq<Byte>)
      requires Valid() && |command| <= COMMAND_SIZE
      modifies this`ssSend
      ensures Queue() && Building(command, [])
    {
      ssSend := start + Padded(command) + ToLE32(0) + [0, 0, 0, 0];
    }

    /** A header with empty size and checksum, and the payload so far. */
    ghost predicate Building(command: seq<Byte>, payload: seq<Byte>)
      reads this
    {
      && |command| <= COMMAND_SIZE && |start| == START_SIZE
      && ssSend == start + Padded(command) + ToLE32(0) + [0, 0, 0, 0] + payload
    }

    method PushField(field: seq<Byte>, ghost command: seq<Byte>, ghost payload: seq<Byte>)
      requires Queue() && Building(command, payload)
      modifies this`ssSend
      ensures Queue() && Building(command, payload + field)
    {
      ssSend := ssSend + field;
    }

    method AbortMessage()
      requires Queue()
      modifies this`ssSend
      ensures Valid()
    {
      ssSend := [];
    }

    /** Fill in size and checksum and queue the message; send at once if nothing was waiting. */
    method EndMessage(replies: seq<Reply>, ghost command: seq<Byte>, ghost payload: seq<Byte>)
      requires Queue() && Building(command, payload) && |sum(payload)| >= 4
      modifies this
      ensures Valid() && queued == old(queued) + [Message(command, payload)] && old(wire) <= wire
    {
      hide Waiting, Concat, Frames, Padded, ToLE32;
      var size := (|ssSend| - HEADER_SIZE) % TWO32;
      ssSend := ssSend[..SIZE_OFFSET] + ToLE32(size) + ssSend[CHECKSUM_OFFSET..];
      assert ssSend[HEADER_SIZE..] == payload;
      var checksum := sum(ssSend[HEADER_SIZE..])[..4];
      ssSend := ssSend[..CHECKSUM_OFFSET] + checksum + ssSend[HEADER_SIZE..];
      ghost var m := Message(command, payload);
      assert ssSend == Frame(m, start, sum);
      Queued(sendMsg, sendOffset, sendSize, wire, queued, start, sum, m);
      var wasEmpty := sendMsg == [];
      sendMsg := sendMsg + [ssSend];
      sendSize := sendSize + |ssSend|;
      ssSend := [];
      queued := queued + [m];
      if wasEmpty {
        SocketSendData(replies);
      }
    }

    /** A message made of some fields. If writing one of them throws, nothing is queued. */
    method PushMessage(command: seq<Byte>, fields: seq<seq<Byte>>, throwsAt: nat, replies: seq<Reply>)
      returns (threw: bool)
      requires Valid() && |command| <= COMMAND_SIZE && |sum(Concat(fields))| >= 4
      modifies this
      ensures Valid() && threw == (throwsAt < |fields|) && old(wire) <= wire
      ensures queued == if threw then old(queued) else old(queued) + [Message(command, Concat(fields))]
    {
      hide Waiting, Frames, Padded, ToLE32, Building;
      BeginMessage(command);
      for i := 0 to |fields|
        invariant Queue() && Building(command, Concat(fields[..i])) && i <= throwsAt
        invariant queued == old(queued) && wire == old(wire)
        modifies this`ssSend
      {
        if i == throwsAt {
          AbortMessage();
          return true;
        }
        assert fields[..i + 1][..i] == fields[..i];
        PushField(fields[i], command, Concat(fields[..i]));
      }
      assert fields[..|fields|] == fields;
      EndMessage(replies, command, Concat(fields));
      return false;
    }

    /** Offer the queue to the socket, message by message, until it takes less than a message. */
    method SocketSendData(replies: seq<Reply>)
      requires Queue()
      modifies this
      ensures Queue() && queued == old(queued) && ssSend == old(ssSend) && old(wire) <= wire
      ensures !old(open) ==> wire == old(wire) && !open
    {
      hide Waiting, Concat, Frames;
      if !open {
        return;
      }
      var it, calls := 0, 0;
      ghost var all := Concat(Frames(queued, start, sum));
      assert sendMsg[0..] == sendMsg;
      while it < |sendMsg|
        invariant 0 <= it <= |sendMsg| && sendMsg == old(sendMsg)
        invariant queued == old(queued) && ssSend == old(ssSend) && old(wire) <= wire
        invariant Waiting(sendMsg[it..], sendOffset, sendSize, wire, all)
        decreases |sendMsg| - it
      {
        var data := sendMsg[it];
        Front(sendMsg, it, sendOffset, sendSize, wire, all);
        assert |data| > sendOffset;
        var reply := if calls < |replies| then replies[calls] else Blocked;
        calls := calls + 1;
        if reply.Took? && reply.n > 0 {
          var bytes := Least(reply.n, |data| - sendOffset);
          Sent(sendMsg, it, sendOffset, sendSize, wire, all, bytes);
          wire := wire + data[sendOffset..sendOffset + bytes];
          sendOffset := sendOffset + bytes;
          if sendOffset == |data| {
            sendOffset := 0;
            sendSize := sendSize - |data|;
            it := it + 1;
          } else {
            break;
          }
        } else {
          if reply.Broken? {
            open := false;
          }
          break;
        }
      }
      if it == |sendMsg| {
        AllSent(sendMsg[it..], sendOffset, sendSize, wire, all);
        assert sendOffset == 0;
        assert sendSize == 0;
      }
      sendMsg := sendMsg[it..];
    }
  }

  /** The state of a queue against all that was ever queued. */
  ghost predicate Waiting(msgs: seq<seq<Byte>>, offset: nat, size: nat, wire: seq<Byte>, all: seq<Byte>) {
    && size == |Concat(msgs)|
    && (forall i :: 0 <= i < |msgs| ==> |msgs[i]| > 0)
    && (if msgs == [] then offset == 0 else offset < |msgs[0]|)
    && offset <= |Concat(msgs)|
    && wire + Concat(msgs)[offset..] == all
  }

  /** An empty queue: everything is on the wire, and the counters say so. */
  lemma AllSent(msgs: seq<seq<Byte>>, offset: nat, size: nat, wire: seq<Byte>, all: seq<Byte>)
    requires msgs == [] && Waiting(msgs, offset, size, wire, all)
    ensures offset == 0 && size == 0 && wire == all
  {
  }

  lemma Front(msgs: seq<seq<Byte>>, it: nat, offset: nat, size: nat, wire: seq<Byte>, all: seq<Byte>)
    requires it < |msgs| && Waiting(msgs[it..], offset, size, wire, all)
    ensures offset < |msgs[it]| <= size
  {
    assert msgs[it..] == [msgs[it]] + msgs[it + 1..];
    ConcatCons(msgs[it], msgs[it + 1..]);
  }

  /** Bytes taken from the front message move from the queue to the wire. */
  lemma Sent(msgs: seq<seq<Byte>>, it: nat, offset: nat, size: nat, wire: seq<Byte>, all: seq<Byte>, bytes: nat)
    requires it < |msgs| && Waiting(msgs[it..], offset, size, wire, all) && 0 < bytes &&
        offset + bytes <= |msgs[it]| <= size
    ensures var onWire := wire + msgs[it][offset..offset + bytes];
      if offset + bytes == |msgs[it]| then Waiting(msgs[it + 1..], 0, size - |msgs[it]|, onWire, all)
      else Waiting(msgs[it..], offset + bytes, size, onWire, all)
  {
    var data, tail := msgs[it], msgs[it + 1..];
    assert msgs[it..] == [data] + tail;
    ConcatCons(data, tail);
    var c := data + Concat(tail);
    assert c[offset..] == data[offset..offset + bytes] + c[offset + bytes..];
    assert wire + c[offset..] == (wire + data[offset..offset + bytes]) + c[offset + bytes..];
    if offset + bytes == |data| {
      assert c[offset + bytes..] == Concat(tail);
      assert forall i :: 0 <= i < |tail| ==> tail[i] == msgs[it..][i + 1];
    }
  }

  lemma FramesSnoc(ms: seq<Message>, m: Message, start: seq<Byte>, sum: seq<Byte> -> seq<Byte>)
    requires |start| == START_SIZE && Sendable(ms, sum) && |m.command| <= COMMAND_SIZE && |sum(m.payload)| >= 4
    ensures Sendable(ms + [m], sum) && Frames(ms + [m], start, sum) == Frames(ms, start, sum) + [Frame(m, start, sum)]
  {
  }

  /** Queueing a message adds its bytes at the end. */
  lemma Queued(msgs: seq<seq<Byte>>, offset: nat, size: nat, wire: seq<Byte>, ms: seq<Message>, start: seq<Byte>,
               sum: seq<Byte> -> seq<Byte>, m: Message)
    requires |start| == START_SIZE && Sendable(ms, sum) && |m.command| <= COMMAND_SIZE && |sum(m.payload)| >= 4
    requires Waiting(msgs, offset, size, wire, Concat(Frames(ms, start, sum)))
    ensures Sendable(ms + [m], sum)
    ensures var f := Frame(m, start, sum);
      Waiting(msgs + [f], offset, size + |f|, wire, Concat(Frames(ms + [m], start, sum)))
  {
    hide Frame, Frames;
    var f := Frame(m, start, sum);
    FramesSnoc(ms, m, start, sum);
    var a, b := Concat(Frames(ms, start, sum)), Concat(msgs);
    ConcatAppend(Frames(ms, start, sum), [f]);
    ConcatAppend(msgs, [f]);
    ConcatOne(f);
    assert (b + f)[offset..] == b[offset..] + f;
    assert wire + (b[offset..] + f) == a + f;
    assert msgs != [] ==> (msgs + [f])[0] == msgs[0];
  }

  lemma ConcatOne(f: seq<Byte>)
    ensures Concat([f]) == f
  {
    assert [f][..0] == [];
  }

  /**
  From one end to the other: whatever short counts the socket took, and however the bytes on the
  wire are cut, the receiver does not fail and hands over the first so many of the messages queued;
  all of them once the queue is empty and every byte has arrived.
  */
  lemma SentIsReceived(s: Sender, pieces: seq<seq<Byte>>)
    requires s.Valid() && Concat(pieces) <= s.wire
    requires forall i :: 0 <= i < |s.queued| ==> Printable(s.queued[i].command) && |s.queued[i].payload| <= MAX_SIZE
    ensures var r := Receive(pieces);
      && r.ok && |r.done| <= |s.queued|
      && (forall i :: 0 <= i < |r.done| ==>
            |r.done[i].header| == HEADER_SIZE && |s.sum(r.done[i].payload)| >= 4
            && Checked(r.done[i], s.start, s.sum) == Some(s.queued[i]))
      && (s.sendMsg == [] && Concat(pieces) == s.wire ==> |r.done| == |s.queued| && r.rest == [])
  {
    hide Receive, Frames, Checked;
    EndToEnd(s.queued, s.start, s.sum, pieces);
    if s.sendMsg == [] {
      AllSent(s.sendMsg, s.sendOffset, s.sendSize, s.wire, Concat(Frames(s.queued, s.start, s.sum)));
    }
  }

  // ----- a receiver at work -----

  lemma {:induction false} ReceiveStops(pieces: seq<seq<Byte>>, i: nat)
    requires i <= |pieces| && !Receive(pieces[..i]).ok
    ensures Receive(pieces) == Receive(pieces[..i])
    decreases |pieces| - i
  {
    if i == |pieces| {
      assert pieces[..i] == pieces;
    } else {
      assert pieces[..i + 1][..i] == pieces[..i];
      ReceiveStops(pieces, i + 1);
    }
  }

  lemma ReceiveNext(pieces: seq<seq<Byte>>, i: nat)
    requires i < |pieces| && Receive(pieces[..i]).ok
    ensures var before := Receive(pieces[..i]); var p := Parse(before.rest + pieces[i]);
      Receive(pieces[..i + 1]) == Parsed(before.done + p.done, p.rest, p.ok)
  {
    assert pieces[..i + 1][..i] == pieces[..i];
  }

  /**
  A connection from its start: pieces come in one after the other, and after each of them the handler takes
  some of the messages that are complete, as many as it likes. What it was handed and what still waits are
  together exactly the messages received, in order; a header that announces too much ends the connection.
  */
  method Deliver(pieces: seq<seq<Byte>>, takes: seq<nat>) returns (handed: seq<Wire>, left: seq<Wire>, ok: bool)
    requires |takes| == |pieces|
    ensures ok == Receive(pieces).ok && handed + left == Receive(pieces).done
  {
    hide Receive, Parse, Receiver.Valid, Receiver.Done, Receiver.Partial;
    var receiver := new Receiver();
    handed, left, ok := [], [], true;
    NothingReceived(pieces);
    for i := 0 to |pieces|
      invariant receiver.Valid() && fresh(receiver.Repr) && left == receiver.Done() && ok
      invariant Receive(pieces[..i]) == Parsed(handed + left, receiver.Partial(), true)
    {
      ReceiveNext(pieces, i);
      var front;
      ghost var was := left;
      ok, front, left := receiver.ReceiveAndTake(pieces[i], takes[i]);
      assert (handed + front) + left == handed + (front + left);
      ghost var found := Parse(Receive(pieces[..i]).rest + pieces[i]).done;
      assert handed + (was + found) == (handed + was) + found;
      handed := handed + front;
      if !ok {
        ReceiveStops(pieces, i + 1);
        return;
      }
    }
    assert pieces[..|pieces|] == pieces;
  }

  lemma NothingReceived(pieces: seq<seq<Byte>>)
    ensures Receive(pieces[..0]) == Parsed([], [], true)
  {
  }

  lemma FrontOfDone(r: Receiver, n: nat)
    requires r.Valid() && n <= r.Count()
    ensures |r.Done()| == r.Count() <= |r.recvMsg|
    ensures Wires(r.recvMsg[..n]) == r.Done()[..n] && Wires(r.recvMsg[n..r.Count()]) == r.Done()[n..]
  {
  }

  /**
  From one end to the other with both objects at work: what the handler is handed, and after it what still waits, are
  the first of the messages queued, in order.
  */
  method SendAndDeliver(s: Sender, pieces: seq<seq<Byte>>, takes: seq<nat>)
    returns (handed: seq<Wire>, left: seq<Wire>, ok: bool)
    requires s.Valid() && Concat(pieces) <= s.wire && |takes| == |pieces|
    requires forall i :: 0 <= i < |s.queued| ==> Printable(s.queued[i].command) && |s.queued[i].payload| <= MAX_SIZE
    ensures ok && |handed + left| <= |s.queued|
    ensures forall i :: 0 <= i < |handed + left| ==>
      var w := (handed + left)[i];
      |w.header| == HEADER_SIZE && |s.sum(w.payload)| >= 4 && Checked(w, s.start, s.sum) == Some(s.queued[i])
    ensures s.sendMsg == [] && Concat(pieces) == s.wire ==> |handed + left| == |s.queued|
  {
    hide Receive, Frames, Checked;
    SentIsReceived(s, pieces);
    handed, left, ok := Deliver(pieces, takes);
  }
}
