/**
 The receiver object of firmware/src/at_cmd_engine/at_cmds/at_cmd_xmodem.c: static fields, a receive
 buffer, and a UART that hands over any portion of what has arrived.
 */
module XmodemReceiver {
  import opened Crc
  import opened Xmodem

  /** The time between two invitations, in milliseconds. */
  const POLL_PERIOD := 3000
  const TICKS := 0x1_0000_0000

  /** The receive side of the UART: the bytes that ever arrive, and how many have been taken. */
  class Uart {
    const stream: seq<octet>
    var taken: nat

    constructor (stream: seq<octet>)
      ensures this.stream == stream && taken == 0
    {
      this.stream := stream;
      taken := 0;
    }

    ghost predicate Valid()
      reads this`taken
    {
      taken <= |stream|
    }

    /** Any number of the bytes still to come may be there. */
    method ReadGetCount() returns (count: nat)
      requires Valid()
      ensures count <= |stream| - taken
    {
      count :| 0 <= count <= |stream| - taken;
    }

    method ReadGetByte() returns (b: octet)
      requires Valid() && taken < |stream|
      modifies this`taken
      ensures Valid() && taken == old(taken) + 1 && b == stream[old(taken)]
    {
      b := stream[taken];
      taken := taken + 1;
    }

    /** Moves some of what has arrived, at most `wanted` bytes and possibly none, into the buffer. */
    method ReadGetBuffer(buffer: array<octet>, at: nat, wanted: nat) returns (count: nat)
      requires Valid() && at + wanted <= buffer.Length
      modifies this`taken, buffer
      ensures Valid() && count <= wanted && taken == old(taken) + count
      ensures buffer[..at] == old(buffer[..at])
      ensures buffer[at..at + count] == stream[old(taken)..taken]
    {
      count :| 0 <= count <= |stream| - taken && count <= wanted;
      for i := 0 to count
        invariant taken == old(taken) && buffer[..at] == old(buffer[..at])
        invariant buffer[at..at + i] == stream[taken..taken + i]
      {
        buffer[at + i] := stream[taken + i];
      }
      taken := taken + count;
    }
  }

  /** The events but for the invitations. */
  function WithoutPolls(events: seq<Event>): seq<Event> {
    if events == [] then []
    else (if events[0] == Poll then [] else [events[0]]) + WithoutPolls(events[1..])
  }

  lemma {:induction false} PollsConcat(a: seq<Event>, b: seq<Event>)
    ensures WithoutPolls(a + b) == WithoutPolls(a) + WithoutPolls(b)
  {
    if a == [] {
      assert a + b == b;
    } else {
      assert (a + b)[1..] == a[1..] + b;
      PollsConcat(a[1..], b);
    }
  }

  lemma FewPollsNot(events: seq<Event>)
    requires |events| <= 2 && Poll !in events
    ensures WithoutPolls(events) == events
  {
    if |events| > 0 {
      assert |events| == 2 ==> events[1..] == [events[1]];
      assert events[1..] != [] ==> events[1..][1..] == [];
    }
  }

  lemma StepPollsNot(s: State, b: octet)
    requires Wants(s) && Proper(s)
    ensures WithoutPolls(Step(s, b).events) == Step(s, b).events
  {
    hide Accepts, DecodeHeader, WithoutPolls;
    FewPollsNot(Step(s, b).events);
  }

  /** The machine itself never invites. */
  lemma {:induction false} RunPollsNot(s: State, bytes: seq<octet>)
    requires Proper(s) && Takes(s, bytes)
    ensures WithoutPolls(Run(s, bytes).events) == Run(s, bytes).events
    decreases |bytes|
  {
    hide Step, WithoutPolls;
    if bytes == [] {
      PollsNone();
    } else {
      StepPollsNot(s, bytes[0]);
      RunPollsNot(Step(s, bytes[0]).state, bytes[1..]);
      PollsConcat(Step(s, bytes[0]).events, Run(Step(s, bytes[0]).state, bytes[1..]).events);
    }
  }

  lemma PollsNone()
    ensures WithoutPolls([]) == []
  {
  }

  class Receiver {
    const uart: Uart
    const receiveBuffer: array<octet>
    var isStarted: bool
    var expectedBN: octet
    var lastStartTimeMs: nat
    var currentFrameType: octet
    var receiveBufferLength: nat
    var receiveFileLength: nat
    var sendInitialSeq: bool
    /** What has gone to the UART and to the data handler. */
    var log: seq<Event>
    /** Where in the stream and in the log the session began. */
    ghost var from: nat
    ghost var entry: nat

    constructor (uart: Uart)
      requires uart.Valid()
      ensures Valid() && !isStarted && log == [] && this.uart == uart && fresh(receiveBuffer)
    {
      this.uart := uart;
      receiveBuffer := new octet[FRAME_SIZE];
      isStarted := false;
      expectedBN := 0;
      lastStartTimeMs := 0;
      currentFrameType := 0;
      receiveBufferLength := 0;
      receiveFileLength := 0;
      sendInitialSeq := false;
      log := [];
      from, entry := 0, 0;
    }

    ghost predicate Valid()
      reads this, uart`taken
    {
      && uart.Valid()
      && receiveBuffer.Length == FRAME_SIZE
      && receiveBufferLength <= FRAME_SIZE
      && (currentFrameType == SOH ==> receiveBufferLength < FRAME_SIZE)
      && (sendInitialSeq ==> currentFrameType == 0)
    }

    /** The state of the machine that these fields stand for. */
    ghost function Abstract(): (s: State)
      requires Valid()
      reads this, uart`taken, receiveBuffer
      ensures Proper(s)
    {
      var received := if currentFrameType == SOH then receiveBuffer[..receiveBufferLength] else [];
      State(isStarted, expectedBN, currentFrameType, received, receiveFileLength)
    }

    /** What every call keeps, however many there have been and whatever each of them took: the state is that of the run of all
        bytes taken in this session, and so are the events, but for the invitations between them. */
    ghost predicate InSession()
      reads this, uart`taken, receiveBuffer
    {
      && Valid() && from <= uart.taken && entry <= |log|
      && var bytes := uart.stream[from..uart.taken];
      && Takes(INITIAL, bytes) && Abstract() == Run(INITIAL, bytes).state
      && WithoutPolls(log[entry..]) == Run(INITIAL, bytes).events
    }

    method Start(now: nat)
      requires Valid()
      modifies this
      ensures Valid() && log == old(log)
      ensures old(isStarted) ==> old(InSession()) ==> InSession()
      ensures !old(isStarted) ==> InSession() && from == uart.taken && entry == |log|
      ensures old(isStarted) ==> Abstract() == old(Abstract()) && sendInitialSeq == old(sendInitialSeq)
      ensures !old(isStarted) ==> Abstract() == INITIAL && sendInitialSeq
    {
      if isStarted {
        return;
      }
      expectedBN := 1;
      currentFrameType := 0;
      receiveFileLength := 0;
      sendInitialSeq := true;
      lastStartTimeMs := (now + TICKS - POLL_PERIOD) % TICKS;
      isStarted := true;
      from, entry := uart.taken, |log|;
      assert uart.stream[from..from] == [] && log[entry..] == [];
    }

    method Stop()
      requires Valid()
      modifies this`isStarted, this`log
      ensures Valid() && Abstract() == old(Abstract()).(started := false)
      ensures log == old(log) + [Finished(expectedBN)]
    {
      log := log + [Finished(expectedBN)];
      isStarted := false;
    }

    /** What one call consumes and emits: bytes the machine wants, the events of their run, or an invitation. */
    ghost predicate Advanced(before: State, bytes: seq<octet>, entry: seq<Event>, polled: bool)
      requires Valid() && Proper(before)
      reads this, uart`taken, receiveBuffer
    {
      && Takes(before, bytes)
      && Abstract() == Run(before, bytes).state
      && log == entry + if polled then [Poll] else Run(before, bytes).events
    }

    method DecodePacketHdr() returns (status: Header)
      requires receiveBuffer.Length == FRAME_SIZE
      ensures status == DecodeHeader(expectedBN, receiveBuffer[0], receiveBuffer[1])
    {
      var pn := receiveBuffer[0];
      if pn < expectedBN {
        return OldBlock;
      }
      if pn > expectedBN || receiveBuffer[1] != 255 - pn {
        return InvalidHeader;
      }
      return HeaderOk;
    }

    /** A full receive buffer is judged, answered and done with. */
    method DecodeFrame(ghost s: State)
      requires uart.Valid() && receiveBuffer.Length == receiveBufferLength == FRAME_SIZE
      requires s == State(true, expectedBN, SOH, s.received, receiveFileLength) && isStarted && !sendInitialSeq
      modifies this`currentFrameType, this`expectedBN, this`receiveFileLength, this`log
      ensures Valid() && Abstract() == Decode(s, receiveBuffer[..]).state
      ensures log == old(log) + Decode(s, receiveBuffer[..]).events
    {
      hide Accepts, Decode, DecodeHeader;
      ghost var frame, entry := receiveBuffer[..], log;
      DecodeCases(s, frame);
      var status := DecodePacketHdr();
      if status == HeaderOk {
        var blockOK := DecodePacketCRC(receiveBuffer, BLOCK_SIZE);
        assert frame[2..] == receiveBuffer[2..BLOCK_SIZE + 4];
        if blockOK {
          assert frame[2..2 + BLOCK_SIZE] == receiveBuffer[2..2 + BLOCK_SIZE];
          log := log + [Deliver(Block(expectedBN, receiveBuffer[2..2 + BLOCK_SIZE]))];
          log := log + [Reply(ACK)];
          assert log == entry + [Deliver(Block(s.expected, frame[2..2 + BLOCK_SIZE])), Reply(ACK)];
          expectedBN := expectedBN + 1;
          receiveFileLength := receiveFileLength + BLOCK_SIZE;
        } else {
          log := log + [Reply(NAK)];
        }
      } else if status == InvalidHeader {
        log := log + [Reply(NAK)];
      } else {
        assert log == entry + [];
      }
      currentFrameType := 0;
    }

    /** Reads on in a frame that has begun, to its end if the bytes are there. */
    method ReceiveFrame()
      requires Valid() && isStarted && currentFrameType == SOH
      modifies this`currentFrameType, this`receiveBufferLength, this`expectedBN, this`receiveFileLength, this`log
      modifies uart`taken, receiveBuffer
      ensures Valid() && old(uart.taken) <= uart.taken
      ensures Advanced(old(Abstract()), uart.stream[old(uart.taken)..uart.taken], old(log), false)
    {
      hide Decode, Run, Takes, Step;
      ghost var s, from := Abstract(), uart.taken;
      while receiveBufferLength < FRAME_SIZE
        invariant uart.Valid() && from <= uart.taken
        invariant receiveBufferLength == |s.received| + (uart.taken - from) <= FRAME_SIZE
        invariant receiveBuffer[..receiveBufferLength] == s.received + uart.stream[from..uart.taken]
        modifies this`receiveBufferLength, uart`taken, receiveBuffer
      {
        ghost var length, taken := receiveBufferLength, uart.taken;
        var numBytes := uart.ReadGetBuffer(receiveBuffer, receiveBufferLength, FRAME_SIZE - receiveBufferLength);
        if numBytes == 0 {
          assert receiveBuffer[..length] == s.received + uart.stream[from..taken];
          break;
        }
        receiveBufferLength := receiveBufferLength + numBytes;
        Appended(receiveBuffer[..receiveBufferLength], length, s.received, uart.stream, from, taken, uart.taken);
      }
      ghost var bytes := uart.stream[from..uart.taken];
      if receiveBufferLength == FRAME_SIZE {
        assert receiveBuffer[..] == s.received + bytes;
        CompleteRuns(s, bytes);
        DecodeFrame(s);
      } else {
        PartRuns(s, bytes);
        assert log == log + [];
      }
    }

    /** The invitation `C`, repeated until the sender's first byte. */
    method Invite(now: nat) returns (polled: bool)
      requires Valid()
      modifies this`log, this`lastStartTimeMs
      ensures Valid() && Abstract() == old(Abstract())
      ensures polled <==> sendInitialSeq && (now - old(lastStartTimeMs)) % TICKS > POLL_PERIOD
      ensures lastStartTimeMs == if polled then now else old(lastStartTimeMs)
      ensures log == old(log) + if polled then [Poll] else []
    {
      polled := sendInitialSeq && (now - lastStartTimeMs) % TICKS > POLL_PERIOD;
      if polled {
        log := log + [Poll];
        lastStartTimeMs := now;
      } else {
        assert log == log + [];
      }
    }

    /** The frame type of the next frame, or the end of the text. */
    method TakeFrameType()
      requires Valid() && isStarted && currentFrameType == 0 && uart.taken < |uart.stream|
      modifies this`isStarted, this`expectedBN, this`lastStartTimeMs, this`currentFrameType, this`receiveBufferLength,
        this`receiveFileLength, this`sendInitialSeq, this`log, uart`taken
      ensures Valid() && uart.taken == old(uart.taken) + 1 && !sendInitialSeq
      ensures Advanced(old(Abstract()), uart.stream[old(uart.taken)..uart.taken], old(log), false)
      ensures currentFrameType == SOH ==> isStarted
    {
      hide Decode, Run, Takes, Step;
      ghost var s, from := Abstract(), uart.taken;
      currentFrameType := uart.ReadGetByte();
      receiveBufferLength := 0;
      sendInitialSeq := false;
      FirstByte(s, currentFrameType);
      assert uart.stream[from..uart.taken] == [currentFrameType];
      if currentFrameType == EOT {
        log := log + [Reply(ACK)];
        Stop();
        currentFrameType := 0;
      } else {
        assert log == log + [];
      }
    }

    /** What is read in one call: the frame type, if one is awaited, and the bytes of a frame. */
    method Take(now: nat) returns (polled: bool)
      requires Valid() && isStarted
      modifies this`isStarted, this`expectedBN, this`lastStartTimeMs, this`currentFrameType, this`receiveBufferLength,
        this`receiveFileLength, this`sendInitialSeq, this`log, uart`taken, receiveBuffer
      ensures Valid() && old(uart.taken) <= uart.taken
      ensures Advanced(old(Abstract()), uart.stream[old(uart.taken)..uart.taken], old(log), polled)
      ensures polled ==> old(sendInitialSeq) && sendInitialSeq && uart.taken == old(uart.taken)
      ensures sendInitialSeq ==> old(sendInitialSeq)
      ensures uart.taken > old(uart.taken) ==> !sendInitialSeq
    {
      hide Decode, Run, Takes, Step;
      ghost var s, before, start := Abstract(), log, uart.taken;
      NothingTaken(s);
      assert uart.stream[start..start] == [];
      polled := false;
      var numBytes := uart.ReadGetCount();
      if currentFrameType == 0 && numBytes > 0 {
        TakeFrameType();
      } else {
        polled := Invite(now);
      }
      if currentFrameType == SOH {
        ghost var middle, t := uart.taken, Abstract();
        assert !polled && Advanced(s, uart.stream[start..middle], before, false);
        ReceiveFrame();
        JoinRuns(s, uart.stream, start, middle, uart.taken);
        assert log == before + (Run(s, uart.stream[start..middle]).events + Run(t, uart.stream[middle..uart.taken]).events);
      }
    }

    /** One call: at most one frame's bytes. A session goes on as one. */
    method Process(now: nat) returns (polled: bool)
      requires Valid()
      modifies this`isStarted, this`expectedBN, this`lastStartTimeMs, this`currentFrameType, this`receiveBufferLength,
        this`receiveFileLength, this`sendInitialSeq, this`log, uart`taken, receiveBuffer
      ensures Valid() && old(uart.taken) <= uart.taken
      ensures Advanced(old(Abstract()), uart.stream[old(uart.taken)..uart.taken], old(log), polled)
      ensures polled ==> old(sendInitialSeq) && sendInitialSeq && uart.taken == old(uart.taken)
      ensures sendInitialSeq ==> old(sendInitialSeq)
      ensures uart.taken > old(uart.taken) ==> !sendInitialSeq
      ensures old(InSession()) ==> InSession()
    {
      hide Decode, Run, Takes, Step, InSession, WithoutPolls;
      ghost var s, before, start, inSession := Abstract(), log, uart.taken, InSession();
      if !isStarted {
        NothingTaken(s);
        assert uart.stream[start..start] == [];
        assert log == before + [];
        return false;
      }
      if inSession {
        SessionMeans();
      }
      polled := Take(now);
      if inSession {
        Continued(s, start, before, polled);
      }
    }

    lemma SessionMeans()
      requires InSession()
      ensures Valid() && from <= uart.taken && entry <= |log| && Takes(INITIAL, uart.stream[from..uart.taken])
      ensures var r := Run(INITIAL, uart.stream[from..uart.taken]);
              Abstract() == r.state && WithoutPolls(log[entry..]) == r.events
    {
    }

    /** A call that advances a session leaves a session. */
    lemma Continued(s: State, start: nat, before: seq<Event>, polled: bool)
      requires Valid() && Proper(s) && from <= start <= uart.taken && entry <= |before|
      requires Takes(INITIAL, uart.stream[from..start]) && s == Run(INITIAL, uart.stream[from..start]).state
      requires WithoutPolls(before[entry..]) == Run(INITIAL, uart.stream[from..start]).events
      requires Advanced(s, uart.stream[start..uart.taken], before, polled) && (polled ==> uart.taken == start)
      ensures InSession()
    {
      hide Decode, Run, Takes, Step;
      var bytes := uart.stream[start..uart.taken];
      JoinRuns(INITIAL, uart.stream, from, start, uart.taken);
      var more := if polled then [Poll] else Run(s, bytes).events;
      assert log[entry..] == before[entry..] + more;
      PollsConcat(before[entry..], more);
      RunPollsNot(s, bytes);
      if polled {
        assert bytes == [];
        NothingTaken(s);
        assert [Poll][1..] == [];
      }
    }

    /** Once drained, over any number of calls, the session is what the frames of the stream say: what leaves it does not depend
        on the calls, and the blocks that do are numbered 1, 2, 3, ... modulo 256, one behind the other in the stream. */
    lemma SessionIsItsFrames()
      requires InSession() && (uart.taken == |uart.stream| || !Wants(Abstract()))
      ensures var r := Frames(INITIAL, uart.stream[from..]);
              var blocks := Delivered(r.events);
              && Abstract() == r.state && WithoutPolls(log[entry..]) == r.events
              && (forall k | 0 <= k < |blocks| :: blocks[k].number as int == (1 + k) % 256)
              && r.state.fileLength == BLOCK_SIZE * |blocks|
              && Stand(uart.stream[from..], blocks, Places(INITIAL, uart.stream[from..]))
    {
      hide Decode, Run, Takes, Step, Frames, Delivered, Stand, WithoutPolls;
      var stream, n := uart.stream[from..], uart.taken - from;
      assert stream[..n] == uart.stream[from..uart.taken];
      Session(stream, n);
    }
  }

  lemma JoinRuns(s: State, stream: seq<octet>, from: nat, middle: nat, now: nat)
    requires from <= middle <= now <= |stream|
    requires Proper(s) && Takes(s, stream[from..middle])
    requires Takes(Run(s, stream[from..middle]).state, stream[middle..now])
    ensures Takes(s, stream[from..now])
    ensures Run(s, stream[from..now])
         == Then(Run(s, stream[from..middle]), Run(Run(s, stream[from..middle]).state, stream[middle..now]))
  {
    hide Run, Takes;
    assert stream[from..now] == stream[from..middle] + stream[middle..now];
    RunConcat(s, stream[from..middle], stream[middle..now]);
  }

  lemma DecodeCases(s: State, frame: seq<octet>)
    requires |frame| == FRAME_SIZE
    ensures DecodeHeader(s.expected, frame[0], frame[1]) == OldBlock ==>
              Decode(s, frame) == Result(s.(frameType := 0, received := []), [])
    ensures DecodeHeader(s.expected, frame[0], frame[1]) == InvalidHeader ==>
              Decode(s, frame) == Result(s.(frameType := 0, received := []), [Reply(NAK)])
    ensures DecodeHeader(s.expected, frame[0], frame[1]) == HeaderOk && !Accepts(frame[2..]) ==>
              Decode(s, frame) == Result(s.(frameType := 0, received := []), [Reply(NAK)])
    ensures DecodeHeader(s.expected, frame[0], frame[1]) == HeaderOk && Accepts(frame[2..]) ==>
              Decode(s, frame)
              == Result(State(s.started, s.expected + 1, 0, [], s.fileLength + BLOCK_SIZE),
                        [Deliver(Block(s.expected, frame[2..2 + BLOCK_SIZE])), Reply(ACK)])
  {
    hide Accepts, DecodeHeader;
  }

  lemma NothingTaken(s: State)
    requires Proper(s)
    ensures Takes(s, []) && Run(s, []) == Result(s, [])
  {
  }

  /** The first byte of a frame: the end, or a frame type. */
  lemma FirstByte(s: State, b: octet)
    requires Idle(s)
    ensures Takes(s, [b])
    ensures b == EOT ==> Run(s, [b]) == Result(s.(started := false), [Reply(ACK), Finished(s.expected)])
    ensures b != EOT ==> Run(s, [b]) == Result(s.(frameType := b), [])
  {
    hide Decode;
    assert [b][1..] == [];
    var first := Step(s, b);
    assert first.events + [] == first.events;
  }

  /** The bytes that complete a frame. */
  lemma CompleteRuns(s: State, bytes: seq<octet>)
    requires s.started && s.frameType == SOH && |s.received| < FRAME_SIZE
    requires |s.received| + |bytes| == FRAME_SIZE
    ensures Takes(s, bytes) && Run(s, bytes) == Decode(s, s.received + bytes)
  {
    hide Decode, Run, Takes, Step;
    var part, frame := bytes[..|bytes| - 1], s.received + bytes;
    PartRuns(s, part);
    var full := s.(received := s.received + part);
    assert s.received + part == frame[..FRAME_SIZE - 1];
    var last := [frame[FRAME_SIZE - 1]];
    LastByteRuns(full, frame);
    assert part + last == bytes;
    RunConcat(s, part, last);
    SameDecode(s, full, frame);
    assert [] + Decode(s, frame).events == Decode(s, frame).events;
  }

  lemma Appended(buffer: seq<octet>, length: nat, received: seq<octet>, stream: seq<octet>, from: nat, taken: nat, now: nat)
    requires from <= taken <= now <= |stream| && length + (now - taken) == |buffer|
    requires buffer[..length] == received + stream[from..taken]
    requires buffer[length..] == stream[taken..now]
    ensures buffer == received + stream[from..now]
  {
    assert buffer == buffer[..length] + buffer[length..];
    assert stream[from..now] == stream[from..taken] + stream[taken..now];
  }
}
