/**
The wire format of peer messages: a 24-byte header (start string, command, payload
size, checksum) and the payload. How a byte stream is cut back into messages does
not depend on the pieces it arrives in, and gives back what was sent.
*/
module Framing {
  import opened Basics
  import opened Powers

  type Byte = b: int | 0 <= b < 256

  const START_SIZE := 4
  const COMMAND_SIZE := 12
  const SIZE_OFFSET := 16
  const CHECKSUM_OFFSET := 20
  const HEADER_SIZE := 24
  const MAX_SIZE := 0x0200_0000
  const TWO32 := 0x1_0000_0000

  // ----- the size field -----

  function ToLE32(n: nat): (s: seq<Byte>)
    requires n < TWO32
    ensures |s| == 4
  {
    [n % 256, n / 256 % 256, n / 65536 % 256, n / 16777216]
  }

  /** A number's digit of 256^i. */
  function Digit256(n: nat, i: nat): nat {
    n / Pow2(8 * i) % 256
  }

  lemma LE32Digits(n: nat, i: nat)
    requires n < TWO32 && i < 4
    ensures ToLE32(n)[i] as int == Digit256(n, i)
  {
    ByteWeights();
  }

  lemma ByteWeights()
    ensures Pow2(0) == 1 && Pow2(8) == 256 && Pow2(16) == 65536 && Pow2(24) == 16777216
  {
    assert Pow2(4) == 16;
    assert Pow2(12) == 4096;
    assert Pow2(20) == 0x10_0000;
  }

  function FromLE32(s: seq<Byte>): (n: nat)
    requires |s| == 4
    ensures n < TWO32
  {
    var a: int, b: int, c: int, d: int := s[0], s[1], s[2], s[3];
    a + 256 * b + 65536 * c + 16777216 * d
  }

  lemma LE32RoundTrip(n: nat)
    requires n < TWO32
    ensures FromLE32(ToLE32(n)) == n
  {
    assert n / 65536 == n / 256 / 256 && n / 16777216 == n / 256 / 256 / 256;
  }

  // ----- cutting a stream into messages -----

  datatype Wire = Wire(header: seq<Byte>, payload: seq<Byte>)

  /** The payload size a header announces. */
  function SizeOf(s: seq<Byte>): (n: nat)
    requires |s| >= HEADER_SIZE
    ensures n < TWO32
  {
    FromLE32(s[SIZE_OFFSET..CHECKSUM_OFFSET])
  }

  /** The messages at the front of a stream, what is left, and whether no header announced too much. */
  datatype Parsed = Parsed(done: seq<Wire>, rest: seq<Byte>, ok: bool)

  predicate Whole(s: seq<Byte>) {
    |s| >= HEADER_SIZE && SizeOf(s) <= MAX_SIZE && |s| >= HEADER_SIZE + SizeOf(s)
  }

  predicate Oversized(s: seq<Byte>) {
    |s| >= HEADER_SIZE && SizeOf(s) > MAX_SIZE
  }

  function First(s: seq<Byte>): Wire
    requires Whole(s)
  {
    Wire(s[..HEADER_SIZE], s[HEADER_SIZE..HEADER_SIZE + SizeOf(s)])
  }

  function Parse(s: seq<Byte>): Parsed
    decreases |s|
  {
    if !Whole(s) then Parsed([], s, !Oversized(s)) else
    var p := Parse(s[HEADER_SIZE + SizeOf(s)..]);
    Parsed([First(s)] + p.done, p.rest, p.ok)
  }

  lemma SameHeader(a: seq<Byte>, b: seq<Byte>)
    requires |a| >= HEADER_SIZE
    ensures SizeOf(a + b) == SizeOf(a)
  {
    assert (a + b)[SIZE_OFFSET..CHECKSUM_OFFSET] == a[SIZE_OFFSET..CHECKSUM_OFFSET];
  }

  /** More bytes do not change the message at the front. */
  lemma SameFirst(a: seq<Byte>, b: seq<Byte>)
    requires Whole(a)
    ensures Whole(a + b) && First(a + b) == First(a)
    ensures SizeOf(a + b) == SizeOf(a) && (a + b)[HEADER_SIZE + SizeOf(a)..] == a[HEADER_SIZE + SizeOf(a)..] + b
  {
    hide SizeOf;
    SameHeader(a, b);
    var n := HEADER_SIZE + SizeOf(a);
    assert (a + b)[..HEADER_SIZE] == a[..HEADER_SIZE] && (a + b)[HEADER_SIZE..n] == a[HEADER_SIZE..n];
  }

  /** Messages already found, followed by what comes of the rest. */
  function After(done: seq<Wire>, p: Parsed): Parsed {
    Parsed(done + p.done, p.rest, p.ok)
  }

  /** What has been cut off stays cut off: more bytes only continue from the rest. */
  lemma {:induction false} ParseMore(a: seq<Byte>, b: seq<Byte>)
    ensures Parse(a).ok ==> Parse(a + b) == After(Parse(a).done, Parse(Parse(a).rest + b))
    ensures !Parse(a).ok ==> !Parse(a + b).ok && Parse(a + b).done == Parse(a).done
    decreases |a|
  {
    hide SizeOf, First, Parse, Whole, Oversized;
    ParseStep(a);
    if Whole(a) {
      ParseStep(a + b);
      var n := HEADER_SIZE + SizeOf(a);
      SameFirst(a, b);
      ParseMore(a[n..], b);
      var p := Parse(a[n..]);
      var r := Parse(p.rest + b);
      assert [First(a)] + (p.done + r.done) == ([First(a)] + p.done) + r.done;
    } else if Oversized(a) {
      StillOversized(a, b);
      ParseStep(a + b);
    } else {
      assert [] + Parse(a + b).done == Parse(a + b).done;
    }
  }

  lemma ParseStep(s: seq<Byte>)
    ensures Whole(s) ==> |s| >= HEADER_SIZE + SizeOf(s)
    ensures Parse(s) == if !Whole(s) then Parsed([], s, !Oversized(s))
                        else After([First(s)], Parse(s[HEADER_SIZE + SizeOf(s)..]))
  {
  }

  lemma StillOversized(a: seq<Byte>, b: seq<Byte>)
    requires Oversized(a)
    ensures Oversized(a + b) && !Whole(a + b)
  {
    SameHeader(a, b);
  }

  /** The rest is never a whole message. */
  lemma {:induction false} RestIsPartial(s: seq<Byte>)
    ensures !Whole(Parse(s).rest) && (Parse(s).ok <==> !Oversized(Parse(s).rest))
    decreases |s|
  {
    if Whole(s) {
      RestIsPartial(s[HEADER_SIZE + SizeOf(s)..]);
    }
  }

  // ----- receiving in pieces -----

  function Concat(pieces: seq<seq<Byte>>): seq<Byte> {
    if pieces == [] then [] else Concat(pieces[..|pieces| - 1]) + pieces[|pieces| - 1]
  }

  lemma {:induction false} ConcatAppend(a: seq<seq<Byte>>, b: seq<seq<Byte>>)
    ensures Concat(a + b) == Concat(a) + Concat(b)
  {
    if b == [] {
      assert a + b == a;
    } else {
      var n := |b| - 1;
      assert (a + b)[..|a + b| - 1] == a + b[..n];
      ConcatAppend(a, b[..n]);
    }
  }

  lemma ConcatCons(x: seq<Byte>, b: seq<seq<Byte>>)
    ensures Concat([x] + b) == x + Concat(b)
  {
    ConcatAppend([x], b);
    assert [x][..0] == [];
    assert Concat([x]) == x;
  }

  /**
  The messages a receiver ends with when it starts empty and takes the pieces one by one, stopping at an
  oversized header.
  */
  function Receive(pieces: seq<seq<Byte>>): Parsed {
    if pieces == [] then Parsed([], [], true) else
    var before := Receive(pieces[..|pieces| - 1]);
    if !before.ok then before else
    var p := Parse(before.rest + pieces[|pieces| - 1]);
    Parsed(before.done + p.done, p.rest, p.ok)
  }

  /** Receiving in pieces finds the messages of the whole stream, and fails exactly when the whole stream does. */
  lemma {:induction false} ReceiveIsParse(pieces: seq<seq<Byte>>)
    ensures Receive(pieces).done == Parse(Concat(pieces)).done && Receive(pieces).ok == Parse(Concat(pieces)).ok
    ensures Receive(pieces).ok ==> Receive(pieces).rest == Parse(Concat(pieces)).rest
  {
    if pieces != [] {
      var n := |pieces| - 1;
      ReceiveIsParse(pieces[..n]);
      ParseMore(Concat(pieces[..n]), pieces[n]);
    }
  }

  /** Two ways to cut the same stream give the same messages. */
  lemma ChunkingIrrelevant(a: seq<seq<Byte>>, b: seq<seq<Byte>>)
    requires Concat(a) == Concat(b)
    ensures Receive(a).done == Receive(b).done && Receive(a).ok == Receive(b).ok
  {
    ReceiveIsParse(a);
    ReceiveIsParse(b);
  }

  // ----- what is sent -----

  datatype Message = Message(command: seq<Byte>, payload: seq<Byte>)

  predicate Printable(command: seq<Byte>) {
    |command| <= COMMAND_SIZE && forall i :: 0 <= i < |command| ==> 0x20 <= command[i] <= 0x7E
  }

  function Padded(command: seq<Byte>): (s: seq<Byte>)
    requires |command| <= COMMAND_SIZE
    ensures |s| == COMMAND_SIZE
  {
    command + seq(COMMAND_SIZE - |command|, i => 0)
  }

  /** The bytes of a message. The size field holds the payload size modulo 2^32. */
  function Frame(m: Message, start: seq<Byte>, sum: seq<Byte> -> seq<Byte>): (s: seq<Byte>)
    requires |m.command| <= COMMAND_SIZE && |start| == START_SIZE && |sum(m.payload)| >= 4
    ensures |s| == HEADER_SIZE + |m.payload|
  {
    start + Padded(m.command) + ToLE32(|m.payload| % TWO32) + sum(m.payload)[..4] + m.payload
  }

  lemma FrameParts(m: Message, start: seq<Byte>, sum: seq<Byte> -> seq<Byte>)
    requires |m.command| <= COMMAND_SIZE && |start| == START_SIZE && |sum(m.payload)| >= 4
    ensures var s := Frame(m, start, sum);
      && SizeOf(s) == |m.payload| % TWO32 && s[..START_SIZE] == start && s[START_SIZE..SIZE_OFFSET] == Padded(m.command)
      && s[CHECKSUM_OFFSET..HEADER_SIZE] == sum(m.payload)[..4] && s[HEADER_SIZE..] == m.payload
  {
    var s := Frame(m, start, sum);
    assert s[SIZE_OFFSET..CHECKSUM_OFFSET] == ToLE32(|m.payload| % TWO32);
    LE32RoundTrip(|m.payload| % TWO32);
    assert s[START_SIZE..SIZE_OFFSET] == Padded(m.command);
    assert s[CHECKSUM_OFFSET..HEADER_SIZE] == sum(m.payload)[..4];
  }

  /**
  The documented layout: four bytes of start string, twelve of command filled up with zeroes, four of
  payload size with the low byte first, four of checksum, and the payload.
  */
  lemma FrameLayout(m: Message, start: seq<Byte>, sum: seq<Byte> -> seq<Byte>)
    requires |m.command| <= COMMAND_SIZE && |start| == START_SIZE && |sum(m.payload)| >= 4
    ensures var s := Frame(m, start, sum);
      && |s| == 24 + |m.payload|
      && (forall i :: 0 <= i < 4 ==> s[i] == start[i])
      && (forall i :: 0 <= i < 12 ==> s[4 + i] == if i < |m.command| then m.command[i] else 0)
      && (forall i :: 0 <= i < 4 ==> s[16 + i] as int == Digit256(|m.payload| % 0x1_0000_0000, i))
      && (forall i :: 0 <= i < 4 ==> s[20 + i] == sum(m.payload)[i])
      && s[24..] == m.payload
  {
    hide ToLE32, Digit256;
    forall i | 0 <= i < 4
      ensures ToLE32(|m.payload| % TWO32)[i] as int == Digit256(|m.payload| % TWO32, i)
    {
      LE32Digits(|m.payload| % TWO32, i);
    }
  }

  function Frames(ms: seq<Message>, start: seq<Byte>, sum: seq<Byte> -> seq<Byte>): (f: seq<seq<Byte>>)
    requires |start| == START_SIZE && Sendable(ms, sum)
    ensures |f| == |ms|
  {
    seq(|ms|, i requires 0 <= i < |ms| => Frame(ms[i], start, sum))
  }

  predicate Sendable(ms: seq<Message>, sum: seq<Byte> -> seq<Byte>) {
    forall i :: 0 <= i < |ms| ==> |ms[i].command| <= COMMAND_SIZE && |sum(ms[i].payload)| >= 4
  }

  // ----- the receiver's checks -----

  /** The header check: printable characters, and nothing but zeroes after the first zero. */
  predicate ValidCommand(c: seq<Byte>) {
    forall i :: 0 <= i < |c| ==>
      if c[i] == 0 then forall j :: i <= j < |c| ==> c[j] == 0 else 0x20 <= c[i] <= 0x7E
  }

  function UpToZero(c: seq<Byte>): seq<Byte> {
    if c == [] || c[0] == 0 then [] else [c[0]] + UpToZero(c[1..])
  }

  /** What the message handler takes out of a complete message, if it passes the checks. */
  function Checked(w: Wire, start: seq<Byte>, sum: seq<Byte> -> seq<Byte>): Option<Message>
    requires |w.header| == HEADER_SIZE && |sum(w.payload)| >= 4
  {
    var command := w.header[START_SIZE..SIZE_OFFSET];
    if w.header[..START_SIZE] != start || !ValidCommand(command) || w.header[CHECKSUM_OFFSET..] != sum(w.payload)[..4]
        then None
    else Some(Message(UpToZero(command), w.payload))
  }

  lemma {:induction false} UnpadCommand(c: seq<Byte>, zeroes: seq<Byte>)
    requires forall i :: 0 <= i < |c| ==> c[i] != 0
    requires forall i :: 0 <= i < |zeroes| ==> zeroes[i] == 0
    ensures UpToZero(c + zeroes) == c
  {
    if c != [] {
      assert (c + zeroes)[1..] == c[1..] + zeroes;
      UnpadCommand(c[1..], zeroes);
    } else {
      assert c + zeroes == zeroes;
    }
  }

  /** A frame passes the checks and gives the message back. */
  lemma FrameChecks(m: Message, start: seq<Byte>, sum: seq<Byte> -> seq<Byte>)
    requires Printable(m.command) && |start| == START_SIZE && |sum(m.payload)| >= 4 && |m.payload| <= MAX_SIZE
    ensures Whole(Frame(m, start, sum)) && First(Frame(m, start, sum)).payload == m.payload
    ensures Checked(First(Frame(m, start, sum)), start, sum) == Some(m)
  {
    var s := Frame(m, start, sum);
    FrameParts(m, start, sum);
    var h := s[..HEADER_SIZE];
    assert h[..START_SIZE] == s[..START_SIZE] && h[START_SIZE..SIZE_OFFSET] == s[START_SIZE..SIZE_OFFSET];
    assert h[CHECKSUM_OFFSET..] == s[CHECKSUM_OFFSET..HEADER_SIZE];
    assert s[HEADER_SIZE..HEADER_SIZE + SizeOf(s)] == s[HEADER_SIZE..];
    UnpadCommand(m.command, seq(COMMAND_SIZE - |m.command|, i => 0));
  }

  // ----- end to end -----

  predicate Exact(f: seq<Byte>) {
    Whole(f) && |f| == HEADER_SIZE + SizeOf(f)
  }

  lemma ExactParse(f: seq<Byte>)
    requires Exact(f)
    ensures Parse(f) == Parsed([First(f)], [], true)
  {
    assert f[|f|..] == [];
  }

  /** Part of a frame is no message, and nothing wrong with it shows. */
  lemma PartOfFrame(f: seq<Byte>, k: nat)
    requires Exact(f) && k < |f|
    ensures Parse(f[..k]) == Parsed([], f[..k], true)
  {
    if k >= HEADER_SIZE {
      assert f[..k][SIZE_OFFSET..CHECKSUM_OFFSET] == f[SIZE_OFFSET..CHECKSUM_OFFSET];
    }
  }

  /** The frames of some messages, cut off anywhere, parse into the frames that are whole and a part of the next. */
  lemma {:induction false} ParseFrames(frames: seq<seq<Byte>>, k: nat)
    requires forall i :: 0 <= i < |frames| ==> Exact(frames[i])
    requires k <= |Concat(frames)|
    ensures var p := Parse(Concat(frames)[..k]);
      && p.ok && |p.done| <= |frames|
      && (forall i :: 0 <= i < |p.done| ==> Exact(frames[i]) && p.done[i] == First(frames[i]))
      && (k == |Concat(frames)| ==> |p.done| == |frames| && p.rest == [])
    decreases |frames|
  {
    hide SizeOf, First, Parse;
    if frames == [] {
      NothingParses();
    } else {
      var f, tail := frames[0], frames[1..];
      assert frames == [f] + tail;
      ConcatCons(f, tail);
      var s := Concat(frames)[..k];
      if k < |f| {
        assert s == f[..k];
        PartOfFrame(f, k);
      } else {
        var t := Concat(tail)[..k - |f|];
        ParseFrames(tail, k - |f|);
        assert s == f + t;
        ParseMore(f, t);
        ExactParse(f);
        assert [] + t == t;
      }
    }
  }

  lemma NothingParses()
    ensures Parse([]) == Parsed([], [], true)
  {
  }

  /**
  A receiver fed any prefix of the bytes of some messages, in any pieces, never fails and
  hands over exactly the first so many of the messages; fed all of it, exactly those messages.
  */
  lemma EndToEnd(ms: seq<Message>, start: seq<Byte>, sum: seq<Byte> -> seq<Byte>, pieces: seq<seq<Byte>>)
    requires |start| == START_SIZE && Sendable(ms, sum)
    requires forall i :: 0 <= i < |ms| ==> Printable(ms[i].command) && |ms[i].payload| <= MAX_SIZE
    requires Concat(pieces) <= Concat(Frames(ms, start, sum))
    ensures var r := Receive(pieces);
      && r.ok && |r.done| <= |ms|
      && (forall i :: 0 <= i < |r.done| ==>
            |r.done[i].header| == HEADER_SIZE && |sum(r.done[i].payload)| >= 4 &&
              Checked(r.done[i], start, sum) == Some(ms[i]))
      && (Concat(pieces) == Concat(Frames(ms, start, sum)) ==> |r.done| == |ms| && r.rest == [])
  {
    var frames := Frames(ms, start, sum);
    forall i | 0 <= i < |ms|
      ensures Exact(frames[i]) && First(frames[i]).payload == ms[i].payload
      ensures Checked(First(frames[i]), start, sum) == Some(ms[i])
    {
      FrameParts(ms[i], start, sum);
      FrameChecks(ms[i], start, sum);
    }
    var k := |Concat(pieces)|;
    assert Concat(pieces) == Concat(frames)[..k];
    ParseFrames(frames, k);
    ReceiveIsParse(pieces);
  }

  /**
  What the other side makes of any frame. The size field holds the payload size modulo 2^32, and the sender does
  not check it: beyond the limit it is refused, else that much of the payload is the message, and what is left
  of a payload of 2^32 bytes or more is read as if messages followed.
  */
  lemma AnyFrameParses(m: Message, start: seq<Byte>, sum: seq<Byte> -> seq<Byte>)
    requires |m.command| <= COMMAND_SIZE && |start| == START_SIZE && |sum(m.payload)| >= 4
    ensures var f, size := Frame(m, start, sum), |m.payload| % TWO32;
      Parse(f) == if size > MAX_SIZE then Parsed([], f, false)
                  else After([Wire(f[..HEADER_SIZE], m.payload[..size])], Parse(m.payload[size..]))
  {
    FrameParts(m, start, sum);
    var f, size := Frame(m, start, sum), |m.payload| % TWO32;
    hide SizeOf;
    if size <= MAX_SIZE {
      assert f[HEADER_SIZE..HEADER_SIZE + size] == f[HEADER_SIZE..][..size];
      assert f[HEADER_SIZE + size..] == f[HEADER_SIZE..][size..];
    }
  }

  /**
  A message is refused exactly when its size field is beyond the limit or what the size field leaves of the payload
  is refused; for payloads the field can hold, exactly when they are beyond the limit.
  */
  lemma RefusedExactly(m: Message, start: seq<Byte>, sum: seq<Byte> -> seq<Byte>)
    requires |m.command| <= COMMAND_SIZE && |start| == START_SIZE && |sum(m.payload)| >= 4
    ensures var size := |m.payload| % TWO32;
      Parse(Frame(m, start, sum)).ok <==> size <= MAX_SIZE && Parse(m.payload[size..]).ok
    ensures |m.payload| < TWO32 ==> (Parse(Frame(m, start, sum)).ok <==> |m.payload| <= MAX_SIZE)
  {
    hide Parse, Frame;
    AnyFrameParses(m, start, sum);
    if |m.payload| < TWO32 {
      assert m.payload[|m.payload|..] == [];
      NothingParses();
    }
  }
}
