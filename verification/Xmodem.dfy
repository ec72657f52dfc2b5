/**
 The XMODEM-CRC receiver of firmware/src/at_cmd_engine/at_cmds/at_cmd_xmodem.c as a machine over the
 bytes it takes from the UART, and what every run of it delivers and replies.
 */
module Xmodem {
  import opened Crc

  const SOH: octet := 0x01
  const EOT: octet := 0x04
  const ACK: octet := 0x06
  const NAK: octet := 0x15
  const BLOCK_SIZE := 128
  /** Block number, its complement, the data and the CRC: what follows SOH. */
  const FRAME_SIZE := 132

  datatype Block = Block(number: octet, data: seq<octet>)

  /** What leaves the receiver: blocks and the end to the handler, bytes to the sender. */
  datatype Event = Deliver(block: Block) | Finished(number: octet) | Reply(byte: octet) | Poll

  datatype State = State(started: bool, expected: octet, frameType: octet, received: seq<octet>, fileLength: nat)

  datatype Result = Result(state: State, events: seq<Event>)

  const INITIAL := State(true, 1, 0, [], 0)

  // ----- One frame -----

  datatype Header = HeaderOk | OldBlock | InvalidHeader

  function DecodeHeader(expected: octet, number: octet, complement: octet): Header {
    if number < expected then OldBlock
    else if number > expected || complement != 255 - number then InvalidHeader
    else HeaderOk
  }

  /** Between frames. */
  predicate Idle(s: State) {
    s.started && s.frameType == 0 && s.received == []
  }

  function Decode(s: State, frame: seq<octet>): (r: Result)
    requires |frame| == FRAME_SIZE
    ensures s.started ==> Idle(r.state)
  {
    var idle := s.(frameType := 0, received := []);
    match DecodeHeader(s.expected, frame[0], frame[1])
    case OldBlock => Result(idle, [])
    case InvalidHeader => Result(idle, [Reply(NAK)])
    case HeaderOk =>
      if Accepts(frame[2..]) then
        Result(idle.(expected := s.expected + 1, fileLength := s.fileLength + BLOCK_SIZE),
               [Deliver(Block(s.expected, frame[2..2 + BLOCK_SIZE])), Reply(ACK)])
      else
        Result(idle, [Reply(NAK)])
  }

  // ----- One byte -----

  /** The receiver takes bytes only between frames and inside one that it knows. */
  predicate Wants(s: State) {
    s.started && (s.frameType == 0 || s.frameType == SOH)
  }

  predicate Proper(s: State) {
    |s.received| < FRAME_SIZE && (s.frameType != SOH ==> s.received == [])
  }

  function Step(s: State, b: octet): (r: Result)
    requires Wants(s) && Proper(s)
    ensures Proper(r.state)
  {
    if s.frameType == 0 then
      if b == EOT then Result(s.(started := false), [Reply(ACK), Finished(s.expected)])
      else Result(s.(frameType := b), [])
    else if |s.received| + 1 < FRAME_SIZE then
      Result(s.(received := s.received + [b]), [])
    else
      Decode(s, s.received + [b])
  }

  // ----- A run -----

  /** All the bytes are taken: the receiver wants each of them when its turn comes. */
  predicate Takes(s: State, bytes: seq<octet>)
    requires Proper(s)
    decreases |bytes|
  {
    bytes == [] || (Wants(s) && Takes(Step(s, bytes[0]).state, bytes[1..]))
  }

  function Run(s: State, bytes: seq<octet>): (r: Result)
    requires Proper(s) && Takes(s, bytes)
    ensures Proper(r.state)
    decreases |bytes|
  {
    if bytes == [] then Result(s, [])
    else
      var first := Step(s, bytes[0]);
      var rest := Run(first.state, bytes[1..]);
      Result(rest.state, first.events + rest.events)
  }

  lemma {:induction false} TakesConcat(s: State, a: seq<octet>, b: seq<octet>)
    requires Proper(s) && Takes(s, a)
    ensures Takes(s, a + b) <==> Takes(Run(s, a).state, b)
    decreases |a|
  {
    hide Step;
    if a == [] {
      assert a + b == b;
    } else {
      assert (a + b)[1..] == a[1..] + b;
      TakesConcat(Step(s, a[0]).state, a[1..], b);
    }
  }

  function Then(first: Result, rest: Result): Result {
    Result(rest.state, first.events + rest.events)
  }

  lemma {:induction false} RunConcat(s: State, a: seq<octet>, b: seq<octet>)
    requires Proper(s) && Takes(s, a) && Takes(Run(s, a).state, b)
    ensures Takes(s, a + b) && Run(s, a + b) == Then(Run(s, a), Run(Run(s, a).state, b))
    decreases |a|
  {
    hide Step, Wants, Proper;
    TakesConcat(s, a, b);
    if a == [] {
      assert a + b == b;
      assert [] + Run(s, b).events == Run(s, b).events;
    } else {
      assert (a + b)[0] == a[0] && (a + b)[1..] == a[1..] + b;
      RunConcat(Step(s, a[0]).state, a[1..], b);
      Regrouped(Step(s, a[0]), Run(Step(s, a[0]).state, a[1..]), Run(Run(s, a).state, b));
    }
  }

  lemma Regrouped(p: Result, q: Result, r: Result)
    ensures Then(p, Then(q, r)) == Then(Then(p, q), r)
  {
  }

  /** How much of a stream is ever taken, whoever offers it and in whatever portions. */
  function Intake(s: State, stream: seq<octet>): (n: nat)
    requires Proper(s)
    ensures n <= |stream| && Takes(s, stream[..n])
    ensures n < |stream| ==> !Wants(Run(s, stream[..n]).state)
    decreases |stream|
  {
    if stream == [] || !Wants(s) then 0
    else
      var n := 1 + Intake(Step(s, stream[0]).state, stream[1..]);
      assert stream[..n][1..] == stream[1..][..n - 1];
      n
  }

  /** A receiver that has stopped taking, by choice or for want of bytes, has taken exactly the intake. */
  lemma {:induction false} DrainedTakesIntake(s: State, stream: seq<octet>, n: nat)
    requires Proper(s) && n <= |stream| && Takes(s, stream[..n])
    requires n == |stream| || !Wants(Run(s, stream[..n]).state)
    ensures n == Intake(s, stream)
    decreases |stream|
  {
    if n > 0 {
      assert stream[..n][1..] == stream[1..][..n - 1];
      DrainedTakesIntake(Step(s, stream[0]).state, stream[1..], n - 1);
    }
  }

  // ----- The bytes of a frame -----

  /** A whole frame behind its SOH is decoded at its last byte. */
  lemma FrameRuns(s: State, frame: seq<octet>)
    requires Idle(s) && |frame| == FRAME_SIZE
    ensures Takes(s, [SOH] + frame) && Run(s, [SOH] + frame) == Decode(s, frame)
  {
    hide Decode;
    var t, part, last := s.(frameType := SOH), frame[..FRAME_SIZE - 1], [frame[FRAME_SIZE - 1]];
    PartRuns(t, part);
    assert part + last == frame && t.received + part == part;
    var full := t.(received := part);
    SameDecode(s, full, frame);
    LastByteRuns(full, frame);
    RunConcat(t, part, last);
    assert [] + Decode(s, frame).events == Decode(s, frame).events;
    assert Run(t, frame) == Decode(s, frame);
    HeadRuns(s, frame);
  }

  lemma HeadRuns(s: State, frame: seq<octet>)
    requires Idle(s)
    requires Takes(s.(frameType := SOH), frame)
    ensures Takes(s, [SOH] + frame) && Run(s, [SOH] + frame) == Run(s.(frameType := SOH), frame)
  {
    hide Decode;
    assert ([SOH] + frame)[1..] == frame;
    assert Step(s, SOH) == Result(s.(frameType := SOH), []);
  }

  lemma LastByteRuns(full: State, frame: seq<octet>)
    requires full.started && full.frameType == SOH && |frame| == FRAME_SIZE
    requires full.received == frame[..FRAME_SIZE - 1]
    ensures Takes(full, [frame[FRAME_SIZE - 1]])
    ensures Run(full, [frame[FRAME_SIZE - 1]]) == Decode(full, frame)
  {
    hide Decode;
    var last := [frame[FRAME_SIZE - 1]];
    assert frame[..FRAME_SIZE - 1] + last == frame;
    assert last[1..] == [];
  }

  lemma SameDecode(s: State, t: State, frame: seq<octet>)
    requires |frame| == FRAME_SIZE && t == s.(frameType := t.frameType, received := t.received)
    ensures Decode(s, frame) == Decode(t, frame)
  {
    hide Accepts, DecodeHeader;
    assert s.(frameType := 0, received := []) == t.(frameType := 0, received := []);
  }

  lemma {:induction false} PartRuns(s: State, part: seq<octet>)
    requires s.started && s.frameType == SOH && |s.received| + |part| < FRAME_SIZE
    ensures Takes(s, part) && Run(s, part) == Result(s.(received := s.received + part), [])
    decreases |part|
  {
    hide Step, Wants;
    if part == [] {
      assert s.received + part == s.received;
    } else {
      var t := s.(received := s.received + [part[0]]);
      PartStep(s, part[0]);
      PartRuns(t, part[1..]);
      assert t.received + part[1..] == s.received + part;
    }
  }

  /** A byte of a frame that is not its last. */
  lemma PartStep(s: State, b: octet)
    requires s.started && s.frameType == SOH && |s.received| + 1 < FRAME_SIZE
    ensures Wants(s) && Proper(s) && Step(s, b) == Result(s.(received := s.received + [b]), [])
  {
    hide Decode;
  }

  // ----- The receiver read frame by frame -----

  /** What the sender's stream means: NUL bytes between frames are skipped, an unknown frame type ends the hearing. */
  function Frames(s: State, stream: seq<octet>): Result
    requires Idle(s)
    decreases |stream|
  {
    if stream == [] then Result(s, [])
    else if stream[0] == EOT then Result(s.(started := false), [Reply(ACK), Finished(s.expected)])
    else if stream[0] == 0 then Frames(s, stream[1..])
    else if stream[0] != SOH then Result(s.(frameType := stream[0]), [])
    else if |stream| <= FRAME_SIZE then Result(s.(frameType := SOH, received := stream[1..]), [])
    else
      var frame := Decode(s, stream[1..1 + FRAME_SIZE]);
      Then(frame, Frames(frame.state, stream[1 + FRAME_SIZE..]))
  }

  /** All of the stream is taken, or the receiver wants no more of it. */
  predicate Drained(s: State, stream: seq<octet>, n: nat)
    requires Proper(s)
  {
    n <= |stream| && Takes(s, stream[..n]) && (n == |stream| || !Wants(Run(s, stream[..n]).state))
  }

  /** However the UART splits the stream over calls, once drained the outcome is that of its frames. */
  lemma {:induction false} PortionsDoNotMatter(s: State, stream: seq<octet>, n: nat)
    requires Idle(s) && Drained(s, stream, n)
    ensures Run(s, stream[..n]) == Frames(s, stream)
    decreases |stream|
  {
    hide Decode;
    if stream == [] {
      assert stream[..n] == [];
    } else {
      FirstIsTaken(s, stream, n);
      if stream[0] == 0 {
        NulIsSkipped(s, stream, n);
        PortionsDoNotMatter(s, stream[1..], n - 1);
      } else if stream[0] != SOH {
        NothingAfter(s, stream, n);
      } else if |stream| <= FRAME_SIZE {
        PartIsTaken(s, stream, n);
      } else {
        FrameIsTaken(s, stream, n);
        var frame := stream[1..1 + FRAME_SIZE];
        PortionsDoNotMatter(Decode(s, frame).state, stream[1 + FRAME_SIZE..], n - 1 - FRAME_SIZE);
      }
    }
  }

  lemma FirstIsTaken(s: State, stream: seq<octet>, n: nat)
    requires Idle(s) && Drained(s, stream, n) && stream != []
    ensures n > 0
  {
    assert stream[..0] == [];
  }

  lemma NulIsSkipped(s: State, stream: seq<octet>, n: nat)
    requires Idle(s) && Drained(s, stream, n) && n > 0 && stream[0] == 0
    ensures Drained(s, stream[1..], n - 1)
    ensures Run(s, stream[..n]) == Run(s, stream[1..][..n - 1])
  {
    hide Decode;
    assert stream[..n][1..] == stream[1..][..n - 1];
    assert Step(s, stream[0]) == Result(s, []);
  }

  lemma NothingAfter(s: State, stream: seq<octet>, n: nat)
    requires Idle(s) && Drained(s, stream, n) && n > 0 && stream[0] != 0 && stream[0] != SOH
    ensures Run(s, stream[..n]) == Frames(s, stream)
  {
    hide Decode;
    var rest := stream[..n][1..];
    var first := Step(s, stream[0]);
    assert Takes(first.state, rest) && !Wants(first.state);
    assert first.events + [] == first.events;
  }

  lemma PartIsTaken(s: State, stream: seq<octet>, n: nat)
    requires Idle(s) && Drained(s, stream, n) && n > 0 && stream[0] == SOH
    ensures n <= FRAME_SIZE ==> n == |stream|
    ensures n == |stream| <= FRAME_SIZE ==> Run(s, stream[..n]) == Frames(s, stream)
  {
    hide Decode;
    if n <= FRAME_SIZE {
      var rest := stream[1..n];
      assert stream[..n] == [SOH] + rest;
      var t := s.(frameType := SOH);
      PartRuns(t, rest);
      assert t.received + rest == rest;
      HeadRuns(s, rest);
      if n == |stream| {
        assert rest == stream[1..];
      }
    }
  }

  lemma FrameIsTaken(s: State, stream: seq<octet>, n: nat)
    requires Idle(s) && Drained(s, stream, n) && n > 0 && stream[0] == SOH && |stream| > FRAME_SIZE
    ensures n > FRAME_SIZE
    ensures var d := Decode(s, stream[1..1 + FRAME_SIZE]);
            Drained(d.state, stream[1 + FRAME_SIZE..], n - 1 - FRAME_SIZE)
            && Run(s, stream[..n]) == Then(d, Run(d.state, stream[1 + FRAME_SIZE..][..n - 1 - FRAME_SIZE]))
  {
    hide Decode;
    PartIsTaken(s, stream, n);
    var frame, rest := stream[1..1 + FRAME_SIZE], stream[1 + FRAME_SIZE..][..n - 1 - FRAME_SIZE];
    assert stream[..n] == [SOH] + frame + rest;
    FrameRuns(s, frame);
    TakesConcat(s, [SOH] + frame, rest);
    RunConcat(s, [SOH] + frame, rest);
  }

  // ----- What every run delivers and replies -----

  function DeliveredBy(e: Event): seq<Block> {
    if e.Deliver? then [e.block] else []
  }

  function Delivered(events: seq<Event>): seq<Block> {
    if events == [] then [] else DeliveredBy(events[0]) + Delivered(events[1..])
  }

  function RepliedBy(e: Event): seq<octet> {
    if e.Reply? then [e.byte] else []
  }

  function Replies(events: seq<Event>): seq<octet> {
    if events == [] then [] else RepliedBy(events[0]) + Replies(events[1..])
  }

  function Count(replies: seq<octet>, b: octet): nat {
    if replies == [] then 0 else (if replies[0] == b then 1 else 0) + Count(replies[1..], b)
  }

  lemma {:induction false} DeliveredConcat(a: seq<Event>, b: seq<Event>)
    ensures Delivered(a + b) == Delivered(a) + Delivered(b)
  {
    hide DeliveredBy;
    if a == [] {
      assert a + b == b;
    } else {
      assert (a + b)[1..] == a[1..] + b;
      DeliveredConcat(a[1..], b);
    }
  }

  lemma {:induction false} RepliesConcat(a: seq<Event>, b: seq<Event>)
    ensures Replies(a + b) == Replies(a) + Replies(b)
  {
    hide RepliedBy;
    if a == [] {
      assert a + b == b;
    } else {
      assert (a + b)[1..] == a[1..] + b;
      RepliesConcat(a[1..], b);
    }
  }

  lemma OfOne(e: Event)
    ensures Delivered([e]) == DeliveredBy(e) && Replies([e]) == RepliedBy(e)
  {
    assert [e][1..] == [];
  }

  lemma OfTwo(e: Event, f: Event)
    ensures Delivered([e, f]) == DeliveredBy(e) + DeliveredBy(f)
    ensures Replies([e, f]) == RepliedBy(e) + RepliedBy(f)
  {
    hide DeliveredBy, RepliedBy;
    assert [e, f][1..] == [f];
    OfOne(f);
  }

  lemma CountOne(b: octet, x: octet)
    ensures Count([b], x) == if b == x then 1 else 0
  {
    assert [b][1..] == [];
  }

  lemma {:induction false} CountConcat(a: seq<octet>, b: seq<octet>, x: octet)
    ensures Count(a + b, x) == Count(a, x) + Count(b, x)
  {
    if a == [] {
      assert a + b == b;
    } else {
      assert (a + b)[1..] == a[1..] + b;
      CountConcat(a[1..], b, x);
    }
  }

  /** The k-th number from e on, modulo 256. */
  function Number(e: octet, k: nat): int {
    (e as int + k) % 256
  }

  /** The blocks carry consecutive numbers: no gap, no repeat. */
  ghost predicate Numbered(blocks: seq<Block>, e: octet) {
    forall k | 0 <= k < |blocks| :: blocks[k].number as int == Number(e, k)
  }

  /** A frame as the sender lays it out, its number followed by the complement and its CRC correct. */
  predicate Carries(frame: seq<octet>, block: Block) {
    && |frame| == 1 + FRAME_SIZE
    && frame[0] == SOH
    && frame[1] == block.number
    && frame[2] == 255 - block.number
    && frame[3..3 + BLOCK_SIZE] == block.data
    && Accepts(frame[3..])
  }

  predicate CarriedAt(stream: seq<octet>, p: nat, block: Block) {
    p + 1 + FRAME_SIZE <= |stream| && Carries(stream[p..p + 1 + FRAME_SIZE], block)
  }

  /** The blocks stand in the stream one behind the other, each in a correct frame of its own. */
  ghost predicate Stand(stream: seq<octet>, blocks: seq<Block>, at: seq<nat>) {
    && |at| == |blocks|
    && (forall k | 0 <= k < |at| :: CarriedAt(stream, at[k], blocks[k]))
    && (forall k | 0 <= k < |at| - 1 :: at[k] + 1 + FRAME_SIZE <= at[k + 1])
  }

  function Moved(at: seq<nat>, d: nat): seq<nat> {
    seq(|at|, i requires 0 <= i < |at| => at[i] + d)
  }

  lemma StandMoved(stream: seq<octet>, d: nat, blocks: seq<Block>, at: seq<nat>)
    requires d <= |stream| && Stand(stream[d..], blocks, at)
    ensures Stand(stream, blocks, Moved(at, d))
  {
    hide Carries;
    forall k | 0 <= k < |at|
      ensures CarriedAt(stream, at[k] + d, blocks[k])
    {
      assert CarriedAt(stream[d..], at[k], blocks[k]);
      assert stream[d..][at[k]..at[k] + 1 + FRAME_SIZE] == stream[at[k] + d..at[k] + d + 1 + FRAME_SIZE];
    }
  }

  lemma StandBehind(stream: seq<octet>, block: Block, blocks: seq<Block>, at: seq<nat>)
    requires |stream| > FRAME_SIZE && Carries(stream[..1 + FRAME_SIZE], block)
    requires Stand(stream[1 + FRAME_SIZE..], blocks, at)
    ensures Stand(stream, [block] + blocks, [0] + Moved(at, 1 + FRAME_SIZE))
  {
    hide Carries;
    StandMoved(stream, 1 + FRAME_SIZE, blocks, at);
    assert CarriedAt(stream, 0, block) by {
      assert stream[0..0 + 1 + FRAME_SIZE] == stream[..1 + FRAME_SIZE];
    }
  }

  /** Where the frames of the delivered blocks begin. */
  function Places(s: State, stream: seq<octet>): seq<nat>
    requires Idle(s)
    decreases |stream|
  {
    if stream == [] then []
    else if stream[0] == 0 then Moved(Places(s, stream[1..]), 1)
    else if stream[0] != SOH || |stream| <= FRAME_SIZE then []
    else
      var frame := Decode(s, stream[1..1 + FRAME_SIZE]);
      var rest := Moved(Places(frame.state, stream[1 + FRAME_SIZE..]), 1 + FRAME_SIZE);
      if Delivered(frame.events) == [] then rest else [0] + rest
  }

  /** The bookkeeping of a run from s to r.state. */
  ghost predicate Accounts(s: State, r: Result) {
    var blocks := Delivered(r.events);
    && Numbered(blocks, s.expected)
    && r.state.expected as int == Number(s.expected, |blocks|)
    && r.state.fileLength == s.fileLength + BLOCK_SIZE * |blocks|
    && Count(Replies(r.events), ACK) == |blocks| + (if r.state.started then 0 else 1)
  }

  /** Every stream: numbers in order, ACKs for delivered blocks and the end, and the length. */
  lemma {:induction false} EveryRunAccounts(s: State, stream: seq<octet>)
    requires Idle(s)
    ensures Accounts(s, Frames(s, stream))
    decreases |stream|
  {
    hide Decode, Accounts;
    var r := Frames(s, stream);
    if stream == [] || (stream[0] != 0 && stream[0] != SOH && stream[0] != EOT)
       || (stream[0] == SOH && |stream| <= FRAME_SIZE) {
      SilentAccounts(s, r);
    } else if stream[0] == EOT {
      EndAccounts(s);
    } else if stream[0] == 0 {
      EveryRunAccounts(s, stream[1..]);
    } else {
      var frame, rest := stream[1..1 + FRAME_SIZE], stream[1 + FRAME_SIZE..];
      var d := Decode(s, frame);
      EveryRunAccounts(d.state, rest);
      DecodeAccounts(s, frame);
      ThenAccounts(s, d, Frames(d.state, rest));
    }
  }

  lemma SilentAccounts(s: State, r: Result)
    requires r.events == [] && r.state.started && r.state.expected == s.expected && r.state.fileLength == s.fileLength
    ensures Accounts(s, r)
  {
  }

  lemma EndAccounts(s: State)
    ensures Accounts(s, Result(s.(started := false), [Reply(ACK), Finished(s.expected)]))
  {
    hide Number, Delivered, Replies, Count;
    OfTwo(Reply(ACK), Finished(s.expected));
    assert [ACK] + [] == [ACK];
    CountOne(ACK, ACK);
    NumberZero(s.expected);
  }

  lemma NextNumber(e: octet)
    ensures (e + 1) as int == Number(e, 1)
  {
  }

  lemma DecodeAccounts(s: State, frame: seq<octet>)
    requires Idle(s) && |frame| == FRAME_SIZE
    ensures Accounts(s, Decode(s, frame)) && Decode(s, frame).state.started
  {
    hide Accepts, Number, Delivered, Replies, Count;
    var d := Decode(s, frame);
    NextNumber(s.expected);
    NumberZero(s.expected);
    CountOne(ACK, ACK);
    CountOne(NAK, ACK);
    if |d.events| == 2 {
      OfTwo(d.events[0], d.events[1]);
      assert Delivered(d.events) == [d.events[0].block];
      assert Replies(d.events) == [ACK];
    } else if |d.events| == 1 {
      OfOne(d.events[0]);
    } else {
      OfNone();
      CountNone(ACK);
    }
  }

  lemma CountNone(x: octet)
    ensures Count([], x) == 0
  {
  }

  lemma NumberZero(e: octet)
    ensures Number(e, 0) == e as int
  {
  }

  lemma OfNone()
    ensures Delivered([]) == [] && Replies([]) == []
  {
  }

  lemma ThenAccounts(s: State, first: Result, rest: Result)
    requires first.state.started && Accounts(s, first) && Accounts(first.state, rest)
    ensures Accounts(s, Then(first, rest))
  {
    hide Delivered, Replies, Count, Number;
    DeliveredConcat(first.events, rest.events);
    RepliesConcat(first.events, rest.events);
    CountConcat(Replies(first.events), Replies(rest.events), ACK);
    var a, b := Delivered(first.events), Delivered(rest.events);
    NumbersRunOn(s.expected, a, first.state.expected, b);
    hide Numbered;
    assert Delivered(Then(first, rest).events) == a + b;
    assert Count(Replies(Then(first, rest).events), ACK) == |a| + |b| + (if rest.state.started then 0 else 1);
  }

  lemma NumbersRunOn(e: octet, a: seq<Block>, f: octet, b: seq<Block>)
    requires f as int == Number(e, |a|) && Numbered(a, e) && Numbered(b, f)
    ensures Numbered(a + b, e) && Number(f, |b|) == Number(e, |a| + |b|)
  {
    hide Number;
    forall k | 0 <= k <= |b|
      ensures Number(f, k) == Number(e, |a| + k)
    {
      NumberSum(e, |a|, f, k);
    }
  }

  lemma NumberSum(e: octet, m: nat, f: octet, k: nat)
    requires f as int == Number(e, m)
    ensures Number(f, k) == Number(e, m + k)
  {
  }

  /** Every stream: each delivered block stands in it in a correct frame, one behind the other. */
  lemma {:induction false} DeliveredStand(s: State, stream: seq<octet>)
    requires Idle(s)
    ensures Stand(stream, Delivered(Frames(s, stream).events), Places(s, stream))
    decreases |stream|
  {
    hide Decode, Stand, Delivered, Replies;
    OfNone();
    if stream == [] {
      NoneStand(stream);
    } else if stream[0] == EOT {
      OfTwo(Reply(ACK), Finished(s.expected));
      NoneStand(stream);
    } else if stream[0] == 0 {
      DeliveredStand(s, stream[1..]);
      StandMoved(stream, 1, Delivered(Frames(s, stream[1..]).events), Places(s, stream[1..]));
    } else if stream[0] != SOH || |stream| <= FRAME_SIZE {
      NoneStand(stream);
    } else {
      var frame, rest := stream[1..1 + FRAME_SIZE], stream[1 + FRAME_SIZE..];
      var d := Decode(s, frame);
      var r := Frames(d.state, rest);
      DeliveredStand(d.state, rest);
      DeliveredConcat(d.events, r.events);
      if Delivered(d.events) == [] {
        StandMoved(stream, 1 + FRAME_SIZE, Delivered(r.events), Places(d.state, rest));
        assert [] + Delivered(r.events) == Delivered(r.events);
      } else {
        DecodeCarries(s, frame);
        assert stream[..1 + FRAME_SIZE] == [SOH] + frame;
        StandBehind(stream, Delivered(d.events)[0], Delivered(r.events), Places(d.state, rest));
        assert Delivered(d.events) == [Delivered(d.events)[0]];
      }
    }
  }

  lemma NoneStand(stream: seq<octet>)
    ensures Stand(stream, [], [])
  {
  }

  lemma DecodeCarries(s: State, frame: seq<octet>)
    requires Idle(s) && |frame| == FRAME_SIZE && Delivered(Decode(s, frame).events) != []
    ensures |Delivered(Decode(s, frame).events)| == 1
    ensures Carries([SOH] + frame, Delivered(Decode(s, frame).events)[0])
  {
    hide Accepts, Delivered, Replies;
    var d := Decode(s, frame);
    if |d.events| == 2 {
      OfTwo(d.events[0], d.events[1]);
      assert ([SOH] + frame)[3..] == frame[2..];
      assert ([SOH] + frame)[3..3 + BLOCK_SIZE] == frame[2..2 + BLOCK_SIZE];
    } else if |d.events| == 1 {
      OfOne(d.events[0]);
    } else {
      OfNone();
    }
  }

  /** A session from its start: what is delivered does not depend on the portions, and is numbered 1, 2, 3, ... modulo 256. */
  lemma Session(stream: seq<octet>, n: nat)
    requires Drained(INITIAL, stream, n)
    ensures n == Intake(INITIAL, stream) && Run(INITIAL, stream[..n]) == Frames(INITIAL, stream)
    ensures var r := Frames(INITIAL, stream);
            var blocks := Delivered(r.events);
            && (forall k | 0 <= k < |blocks| :: blocks[k].number as int == (1 + k) % 256)
            && r.state.fileLength == BLOCK_SIZE * |blocks|
            && Count(Replies(r.events), ACK) == |blocks| + (if r.state.started then 0 else 1)
            && Stand(stream, blocks, Places(INITIAL, stream))
  {
    hide Frames, Run, Takes, Delivered, Replies, Count, Places, Stand, Intake;
    DrainedTakesIntake(INITIAL, stream, n);
    PortionsDoNotMatter(INITIAL, stream, n);
    EveryRunAccounts(INITIAL, stream);
    DeliveredStand(INITIAL, stream);
  }

  // ----- A sender on a noisy line -----

  /** The data with its CRC, high byte first. */
  function Body(data: seq<octet>): seq<octet> {
    data + [(Crc16(data) >> 8) as octet, (Crc16(data) & 0xFF) as octet]
  }

  function Framed(number: octet, body: seq<octet>): seq<octet> {
    [SOH] + ([number, 255 - number] + body)
  }

  lemma WordOfHalves(c: bv16)
    ensures Word((c >> 8) as octet, (c & 0xFF) as octet) == c
  {
  }

  lemma BodyAccepted(data: seq<octet>)
    ensures Accepts(Body(data))
  {
    hide Crc16, Word;
    WordOfHalves(Crc16(data));
    assert Body(data)[..|data|] == data;
  }

  /** A copy in which the line changed a burst of at most 16 bits, or an odd number of bits. */
  ghost predicate Garbled(body: seq<octet>, copy: seq<octet>) {
    && |copy| == |body| && copy != body
    && (Odd(Plus(BitsOf(body), BitsOf(copy))) || exists i: nat :: AgreeOutside(BitsOf(body), BitsOf(copy), i))
  }

  /** A copy of a whole frame behind its SOH that the line has spoiled: the number or its complement in any way,
      with them whatever else, or only the body as above. */
  ghost predicate Spoiled(number: octet, data: seq<octet>, copy: seq<octet>) {
    |copy| == FRAME_SIZE && (copy[0] == number && copy[1] == 255 - number ==> Garbled(Body(data), copy[2..]))
  }

  ghost predicate AllSpoiled(number: octet, data: seq<octet>, copies: seq<seq<octet>>) {
    forall k | 0 <= k < |copies| :: Spoiled(number, data, copies[k])
  }

  lemma GarbledRejected(data: seq<octet>, copy: seq<octet>)
    requires Garbled(Body(data), copy)
    ensures |copy| >= 2 && !Accepts(copy)
  {
    hide Accepts, Odd, AgreeOutside, Plus, BitsOf;
    var body := Body(data);
    BodyAccepted(data);
    OddErrorsAreDetected(body, copy);
    if !Odd(Plus(BitsOf(body), BitsOf(copy))) {
      var i: nat :| AgreeOutside(BitsOf(body), BitsOf(copy), i);
      BurstsAreDetected(body, copy, i);
    }
  }

  /** The sender's side: every block is sent, spoiled, as often as the line spoils it, then once correctly. */
  function Transmission(number: octet, blocks: seq<seq<octet>>, noise: seq<seq<seq<octet>>>): seq<octet>
    requires |noise| == |blocks|
    decreases |blocks|
  {
    if blocks == [] then [EOT]
    else Copies(noise[0], Framed(number, Body(blocks[0])) + Transmission(number + 1, blocks[1..], noise[1..]))
  }

  function Copies(copies: seq<seq<octet>>, rest: seq<octet>): seq<octet> {
    if copies == [] then rest else [SOH] + copies[0] + Copies(copies[1..], rest)
  }

  /** The receiver's side: an answer for every spoiled copy, one ACK for every block, one for the end. */
  function Reception(number: octet, blocks: seq<seq<octet>>, noise: seq<seq<seq<octet>>>): seq<Event>
    requires |noise| == |blocks|
    decreases |blocks|
  {
    if blocks == [] then [Reply(ACK), Finished(number)]
    else Answers(number, noise[0], [Deliver(Block(number, blocks[0])), Reply(ACK)] + Reception(number + 1, blocks[1..], noise[1..]))
  }

  /** A spoiled copy is answered with one NAK, but for those that read as an older block: they get no answer. */
  function Answer(number: octet, copy: seq<octet>): seq<Event> {
    if copy != [] && IsOlder(copy[0], number) then [] else [Reply(0x15)]
  }

  function Answers(number: octet, copies: seq<seq<octet>>, rest: seq<Event>): seq<Event> {
    if copies == [] then rest else Answer(number, copies[0]) + Answers(number, copies[1..], rest)
  }

  /** The file in blocks, and numbered from `number` on what the line makes of their copies. */
  ghost predicate Transmittable(number: octet, blocks: seq<seq<octet>>, noise: seq<seq<seq<octet>>>)
    decreases |blocks|
  {
    && |noise| == |blocks|
    && (blocks != [] ==>
          && |blocks[0]| == BLOCK_SIZE && AllSpoiled(number, blocks[0], noise[0])
          && Transmittable(number + 1, blocks[1..], noise[1..]))
  }

  /** The whole file arrives, each block exactly once and in order, whatever the line did to the copies. */
  lemma {:induction false} FileArrives(s: State, blocks: seq<seq<octet>>, noise: seq<seq<seq<octet>>>)
    requires Idle(s) && Transmittable(s.expected, blocks, noise)
    ensures Frames(s, Transmission(s.expected, blocks, noise)).events == Reception(s.expected, blocks, noise)
    ensures !Frames(s, Transmission(s.expected, blocks, noise)).state.started
    ensures Frames(s, Transmission(s.expected, blocks, noise)).state.fileLength == s.fileLength + BLOCK_SIZE * |blocks|
    decreases |blocks|
  {
    hide Body, Frames, Framed, AllSpoiled, Copies, Answers;
    if blocks == [] {
      EndArrives(s);
    } else {
      FileArrives(Following(s), blocks[1..], noise[1..]);
      BlockArrives(s, blocks[0], noise[0], Transmission(s.expected + 1, blocks[1..], noise[1..]));
    }
  }

  lemma BlockArrives(s: State, data: seq<octet>, copies: seq<seq<octet>>, later: seq<octet>)
    requires Idle(s) && |data| == BLOCK_SIZE && AllSpoiled(s.expected, data, copies)
    ensures var r := Frames(Following(s), later);
            var all := Frames(s, Copies(copies, Framed(s.expected, Body(data)) + later));
            && all.state == r.state
            && all.events == Answers(s.expected, copies, [Deliver(Block(s.expected, data)), Reply(ACK)] + r.events)
  {
    hide Body, Frames, Framed, AllSpoiled, Copies, Answers;
    GoodFrameArrives(s, data, later);
    CopiesRefused(s, data, copies, Framed(s.expected, Body(data)) + later);
  }

  lemma EndArrives(s: State)
    requires Idle(s)
    ensures Frames(s, [EOT]) == Result(s.(started := false), [Reply(ACK), Finished(s.expected)])
  {
  }

  // ----- The answer to any frame -----

  predicate IsOlder(a: octet, b: octet) { a as int < b as int }

  predicate Complementary(a: octet, b: octet) { a as int + b as int == 255 }

  /** Number, complement and CRC are right. */
  predicate Right(expected: octet, frame: seq<octet>)
    requires |frame| == FRAME_SIZE
  {
    frame[0] == expected && Complementary(frame[0], frame[1]) && Accepts(frame[2..])
  }

  /** Any frame of 132 bytes behind its SOH: it is delivered and answered by ACK if and only if its number is the expected one,
      its complement fits and its CRC matches; it gets no answer if and only if its number is smaller; and exactly one NAK
      otherwise, with the session as it was. */
  lemma FrameIsAnswered(s: State, frame: seq<octet>, rest: seq<octet>)
    requires Idle(s) && |frame| == 132
    ensures var right, older := Right(s.expected, frame), IsOlder(frame[0], s.expected);
            var answer := if right then [Deliver(Block(s.expected, frame[2..130])), Reply(0x06)] else if older then [] else [Reply(0x15)];
            var next := if right then Following(s) else s;
            && !(right && older)
            && Frames(s, [SOH] + frame + rest) == Then(Result(next, answer), Frames(next, rest))
  {
    hide Accepts, Decode, Frames, IsOlder, Complementary;
    DecodeAnswers(s, frame);
    FrameThenRest(s, frame, rest);
  }

  lemma DecodeAnswers(s: State, frame: seq<octet>)
    requires Idle(s) && |frame| == 132
    ensures Right(s.expected, frame) ==>
              Decode(s, frame) == Result(Following(s), [Deliver(Block(s.expected, frame[2..130])), Reply(0x06)])
              && !IsOlder(frame[0], s.expected)
    ensures !Right(s.expected, frame) ==>
              Decode(s, frame) == Result(s, if IsOlder(frame[0], s.expected) then [] else [Reply(0x15)])
  {
    hide Accepts, IsOlder, Complementary;
    Complements(frame[0], frame[1]);
    Older(frame[0], s.expected);
  }

  /** Between frames an EOT ends the file, a NUL is skipped, and any other byte than SOH ends the hearing without a word. */
  lemma OtherFrameTypes(s: State, b: octet, rest: seq<octet>)
    requires Idle(s) && b as int != 1
    ensures Frames(s, [b] + rest) ==
      if b as int == 4 then Result(s.(started := false), [Reply(0x06), Finished(s.expected)])
      else if b as int == 0 then Frames(s, rest)
      else Result(s.(frameType := b), [])
  {
    assert ([b] + rest)[1..] == rest;
  }

  lemma Complements(number: octet, complement: octet)
    ensures complement == 255 - number <==> Complementary(number, complement)
  {
  }

  lemma Older(a: octet, b: octet)
    ensures a < b <==> IsOlder(a, b)
  {
  }

  /** The state that expects the next block. */
  function Following(s: State): State {
    s.(expected := s.expected + 1, fileLength := s.fileLength + BLOCK_SIZE)
  }

  lemma GoodFrameArrives(s: State, data: seq<octet>, rest: seq<octet>)
    requires Idle(s) && |data| == BLOCK_SIZE
    ensures Frames(s, Framed(s.expected, Body(data)) + rest)
         == Then(Result(Following(s), [Deliver(Block(s.expected, data)), Reply(ACK)]), Frames(Following(s), rest))
  {
    hide Accepts;
    var frame := [s.expected, 255 - s.expected] + Body(data);
    BodyAccepted(data);
    assert frame[2..] == Body(data);
    assert frame[2..2 + BLOCK_SIZE] == data;
    FrameThenRest(s, frame, rest);
  }

  lemma FrameThenRest(s: State, frame: seq<octet>, rest: seq<octet>)
    requires Idle(s) && |frame| == FRAME_SIZE
    ensures Frames(s, [SOH] + frame + rest) == Then(Decode(s, frame), Frames(Decode(s, frame).state, rest))
  {
    hide Decode;
    var stream := [SOH] + frame + rest;
    assert stream[1..1 + FRAME_SIZE] == frame;
    assert stream[1 + FRAME_SIZE..] == rest;
  }

  lemma {:induction false} CopiesRefused(s: State, data: seq<octet>, copies: seq<seq<octet>>, rest: seq<octet>)
    requires Idle(s) && |data| == BLOCK_SIZE && AllSpoiled(s.expected, data, copies)
    ensures Frames(s, Copies(copies, rest)).state == Frames(s, rest).state
    ensures Frames(s, Copies(copies, rest)).events == Answers(s.expected, copies, Frames(s, rest).events)
    decreases |copies|
  {
    hide Frames, Spoiled, Answer;
    if copies != [] {
      assert Spoiled(s.expected, data, copies[0]);
      CopiesRefused(s, data, copies[1..], rest);
      CopyRefused(s, data, copies[0], Copies(copies[1..], rest));
    }
  }

  lemma CopyRefused(s: State, data: seq<octet>, copy: seq<octet>, rest: seq<octet>)
    requires Idle(s) && |data| == BLOCK_SIZE && Spoiled(s.expected, data, copy)
    ensures Frames(s, [SOH] + copy + rest) == Then(Result(s, Answer(s.expected, copy)), Frames(s, rest))
  {
    hide Accepts, Body, Garbled, Frames;
    if Right(s.expected, copy) {
      Complements(copy[0], copy[1]);
      GarbledRejected(data, copy[2..]);
    }
    FrameIsAnswered(s, copy, rest);
  }

  /** What the receiver makes of a transmission is the file. */
  lemma {:induction false} ReceptionIsTheFile(number: octet, blocks: seq<seq<octet>>, noise: seq<seq<seq<octet>>>)
    requires |noise| == |blocks|
    ensures |Delivered(Reception(number, blocks, noise))| == |blocks|
    ensures forall k | 0 <= k < |blocks| :: Delivered(Reception(number, blocks, noise))[k].data == blocks[k]
    decreases |blocks|
  {
    hide Delivered, Answers;
    if blocks == [] {
      OfTwo(Reply(ACK), Finished(number));
    } else {
      var later := Reception(number + 1, blocks[1..], noise[1..]);
      var good := Deliver(Block(number, blocks[0]));
      ReceptionIsTheFile(number + 1, blocks[1..], noise[1..]);
      AnswersDeliverNothing(number, noise[0], [good, Reply(ACK)] + later);
      DeliveredConcat([good, Reply(ACK)], later);
      OfTwo(good, Reply(ACK));
      assert Delivered(Reception(number, blocks, noise)) == [good.block] + Delivered(later);
    }
  }

  lemma {:induction false} AnswersDeliverNothing(number: octet, copies: seq<seq<octet>>, rest: seq<Event>)
    ensures Delivered(Answers(number, copies, rest)) == Delivered(rest)
  {
    hide Delivered;
    if copies != [] {
      AnswersDeliverNothing(number, copies[1..], rest);
      DeliveredConcat(Answer(number, copies[0]), Answers(number, copies[1..], rest));
      OfOne(Reply(0x15));
      OfNone();
      assert [] + Delivered(rest) == Delivered(rest);
    }
  }

  /** A block out of turn is never delivered: an older one is dropped without a reply, a newer one is refused. */
  lemma OutOfTurn(s: State, number: octet, body: seq<octet>, rest: seq<octet>)
    requires Idle(s) && |body| == BLOCK_SIZE + 2 && number != s.expected
    ensures Frames(s, Framed(number, body) + rest)
         == if number < s.expected then Frames(s, rest) else Then(Result(s, [Reply(NAK)]), Frames(s, rest))
  {
    hide Accepts;
    var frame := [number, 255 - number] + body;
    FrameThenRest(s, frame, rest);
    assert [] + Frames(s, rest).events == Frames(s, rest).events;
  }
}
