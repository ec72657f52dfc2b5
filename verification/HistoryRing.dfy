/**
 The ring of firmware/src/at_cmd_engine/terminal/terminal.c that keeps the history:
 8 descriptors and 2048 bytes, both used cyclically.
 */
module HistoryRing {
  import opened Bytes
  import opened History

  /** TP_LINE_BUF; `start` is where `pCmdStart` points in the byte ring. */
  datatype LineBuf = LineBuf(start: nat, cmdLength1: nat, cmdLength2: nat)

  const FREE: LineBuf := LineBuf(0, 0, 0)

  /** The ring slot of the `x`-th byte ever stored. */
  function Slot(x: nat): (s: nat)
    ensures s < BYTES
  {
    x % BYTES
  }

  /** The bytes of all lines, oldest first. */
  function Stream(lines: seq<Line>): (s: seq<byte>)
    ensures |s| == Total(lines)
  {
    if lines == [] then [] else lines[0] + Stream(lines[1..])
  }

  lemma {:induction false} StreamAppend(lines: seq<Line>, line: Line)
    ensures Stream(lines + [line]) == Stream(lines) + line
  {
    if lines == [] {
      assert ([line])[1..] == [];
    } else {
      assert (lines + [line])[1..] == lines[1..] + [line];
      StreamAppend(lines[1..], line);
    }
  }

  /** Where the bytes of line `k` begin in the stream. */
  function Offset(lines: seq<Line>, k: nat): (o: nat)
    requires k <= |lines|
  {
    Total(lines[..k])
  }

  lemma {:induction false} LineInStream(lines: seq<Line>, k: nat)
    requires k < |lines|
    ensures Offset(lines, k) + |lines[k]| <= Total(lines)
    ensures Stream(lines)[Offset(lines, k)..Offset(lines, k) + |lines[k]|] == lines[k]
    ensures Offset(lines, k + 1) == Offset(lines, k) + |lines[k]|
  {
    assert lines == lines[..k] + ([lines[k]] + lines[k + 1..]);
    TotalAppend(lines[..k], [lines[k]] + lines[k + 1..]);
    assert lines[..k + 1] == lines[..k] + [lines[k]];
    TotalAppend(lines[..k], [lines[k]]);
    TotalOne(lines[k]);
    if k > 0 {
      LineInStream(lines[1..], k - 1);
      assert lines[1..][..k - 1] == lines[..k][1..];
    }
  }

  lemma OffsetAfterFirst(lines: seq<Line>, k: nat)
    requires k < |lines|
    ensures Offset(lines, k + 1) == |lines[0]| + Offset(lines[1..], k)
    ensures Offset(lines, 0) == 0
  {
    assert lines[..k + 1][1..] == lines[1..][..k];
  }

  /** Two stored bytes less than 2048 apart are in different slots. */
  lemma SlotsApart(x: nat, y: nat)
    requires x < y < x + BYTES
    ensures Slot(x) != Slot(y)
  {
  }

  lemma SlotPlus(x: nat, j: nat)
    requires j <= BYTES
    ensures Slot(x + j) == if Slot(x) + j < BYTES then Slot(x) + j else Slot(x) + j - BYTES
  {
  }

  /** The descriptor `k` places after `first`, going round. */
  function Cell(first: int, k: int): int {
    if first + k < SLOTS then first + k else first + k - SLOTS
  }

  /** The descriptor of line `k`, when `tail` bytes were stored before the first line. */
  function Descriptor(lines: seq<Line>, tail: nat, k: nat): LineBuf
    requires k < |lines|
  {
    var start := Slot(tail + Offset(lines, k));
    var length1 := if start + |lines[k]| <= BYTES then |lines[k]| else BYTES - start;
    LineBuf(start, length1, |lines[k]| - length1)
  }

  /** Descriptor `first` and those after it describe the lines. */
  ghost predicate Described(index: seq<LineBuf>, first: int, lines: seq<Line>, tail: nat) {
    && |index| == SLOTS && |lines| <= SLOTS
    && (lines != [] ==> 0 <= first < SLOTS)
    && forall k :: 0 <= k < |lines| ==> lines[k] != [] && index[Cell(first, k)] == Descriptor(lines, tail, k)
  }

  /** Every byte of the stream is in its slot. */
  ghost predicate Stored(buf: seq<byte>, lines: seq<Line>, tail: nat) {
    && |buf| == BYTES
    && forall x :: tail <= x < tail + Total(lines) ==> buf[Slot(x)] == Stream(lines)[x - tail]
  }

  /** The two pieces a descriptor names, one behind the other, are the line. */
  lemma TwoPieces(buf: seq<byte>, lines: seq<Line>, tail: nat, k: nat, copy: seq<byte>)
    requires k < |lines| && Fits(lines) && Stored(buf, lines, tail) && |copy| == |lines[k]| <= BYTES
    requires var d := Descriptor(lines, tail, k);
             forall i | 0 <= i < |copy| ::
               copy[i] == if i < d.cmdLength1 then buf[d.start + i] else buf[i - d.cmdLength1]
    ensures copy == lines[k]
  {
    hide Slot, Total, Stream, Offset;
    LineInStream(lines, k);
    var x := tail + Offset(lines, k);
    forall i | 0 <= i < |copy|
      ensures copy[i] == lines[k][i]
    {
      SlotPlus(x, i);
      assert buf[Slot(x + i)] == Stream(lines)[Offset(lines, k) + i];
      assert lines[k][i] == Stream(lines)[Offset(lines, k)..Offset(lines, k) + |lines[k]|][i];
    }
  }

  lemma DescribedRest(index: seq<LineBuf>, first: int, lines: seq<Line>, tail: nat)
    requires Described(index, first, lines, tail) && lines != []
    ensures |lines| > 1 ==> Described(index[first := FREE], Cell(first, 1), lines[1..], tail + |lines[0]|)
    ensures |lines| == 1 ==> Described(index[first := FREE], -1, lines[1..], tail + |lines[0]|)
    ensures index[first] == Descriptor(lines, tail, 0)
    ensures index[first].cmdLength1 + index[first].cmdLength2 == |lines[0]|
  {
    hide Slot, Total;
    assert Cell(first, 0) == first;
    var rest := lines[1..];
    forall k | 0 <= k < |rest|
      ensures index[first := FREE][Cell(Cell(first, 1), k)] == Descriptor(rest, tail + |lines[0]|, k)
    {
      OffsetAfterFirst(lines, k);
      assert rest[k] == lines[k + 1];
      assert Cell(Cell(first, 1), k) == Cell(first, k + 1) != first;
    }
  }

  lemma DescribedMore(index: seq<LineBuf>, first: int, lines: seq<Line>, tail: nat, line: Line, at: int, d: LineBuf)
    requires Described(index, first, lines, tail) && |lines| < SLOTS && line != [] && 0 <= at < SLOTS
    requires lines != [] ==> at == Cell(first, |lines|)
    requires d == Descriptor(lines + [line], tail, |lines|)
    ensures Described(index[at := d], if lines == [] then at else first, lines + [line], tail)
  {
    hide Slot, Total;
    var more := lines + [line];
    forall k | 0 <= k < |lines|
      ensures index[at := d][Cell(first, k)] == Descriptor(more, tail, k)
    {
      assert more[..k] == lines[..k];
      assert Cell(first, k) != at;
    }
  }

  lemma StoredRest(buf: seq<byte>, lines: seq<Line>, tail: nat)
    requires Stored(buf, lines, tail) && lines != []
    ensures Stored(buf, lines[1..], tail + |lines[0]|)
  {
    hide Slot;
    forall x | tail + |lines[0]| <= x < tail + |lines[0]| + Total(lines[1..])
      ensures buf[Slot(x)] == Stream(lines[1..])[x - (tail + |lines[0]|)]
    {
      assert buf[Slot(x)] == Stream(lines)[x - tail];
    }
  }

  lemma StoredMore(buf: seq<byte>, buf': seq<byte>, lines: seq<Line>, tail: nat, line: Line)
    requires Stored(buf, lines, tail) && Total(lines) + |line| <= BYTES && |buf'| == BYTES
    requires forall j :: 0 <= j < |line| ==> line[j] == buf'[Slot(tail + Total(lines) + j)]
    requires forall x: nat :: tail + Total(lines) + |line| - BYTES <= x < tail + Total(lines) ==> buf'[Slot(x)] == buf[Slot(x)]
    ensures Stored(buf', lines + [line], tail)
  {
    hide Slot, Total, Stream;
    var head := tail + Total(lines);
    StreamAppend(lines, line);
    TotalAppend(lines, [line]);
    TotalOne(line);
    forall x | tail <= x < head + |line|
      ensures buf'[Slot(x)] == (Stream(lines) + line)[x - tail]
    {
      if x >= head {
        assert line[x - head] == buf'[Slot(head + (x - head))];
      }
    }
  }

  class LineHistory {
    var firstLineIdx: int
    var lastLineIdx: int
    var readLineIdx: int
    const index: array<LineBuf>
    var lineBufInOffset: int
    var lineBufRemain: int
    const lineBuf: array<byte>

    /** The lines held, oldest first. */
    ghost var lines: seq<Line>
    /** Which line the read index is at, or -1. */
    ghost var read: int
    /** How many bytes had been stored before the oldest line held. */
    ghost var tail: nat

    constructor ()
      ensures Settled() && lines == [] && read == -1
      ensures fresh(index) && fresh(lineBuf)
    {
      index := new LineBuf[SLOTS](_ => FREE);
      lineBuf := new byte[BYTES];
      lineBufInOffset, lineBufRemain := 0, BYTES;
      firstLineIdx, lastLineIdx, readLineIdx := -1, -1, -1;
      lines, read, tail := [], -1, 0;
    }

    ghost predicate Valid()
      reads this, index, lineBuf
    {
      && index.Length == SLOTS && lineBuf.Length == BYTES
      && Fits(lines)
      && lineBufRemain == BYTES - Total(lines)
      && lineBufInOffset == Slot(tail + Total(lines))
      && -1 <= lastLineIdx < SLOTS
      && (lines == [] ==> firstLineIdx == -1)
      && (lines != [] ==> 0 <= firstLineIdx < SLOTS && lastLineIdx == Cell(firstLineIdx, |lines| - 1))
      && Described(index[..], firstLineIdx, lines, tail)
      && Stored(lineBuf[..], lines, tail)
    }

    /** Valid, with the read index unset or at a line held: the state between calls. */
    ghost predicate Settled()
      reads this, index, lineBuf
    {
      && Valid()
      && (lines == [] ==> lastLineIdx == -1)
      && -1 <= read < |lines|
      && readLineIdx == if read == -1 then -1 else Cell(firstLineIdx, read)
    }

    /** One turn of the eviction loop: frees the oldest line. */
    method EvictFirst()
      requires Valid() && lines != []
      modifies this, index
      ensures Valid() && lines == old(lines[1..]) && tail == old(tail) + |old(lines[0])|
      ensures lastLineIdx == old(lastLineIdx)
    {
      hide Slot, Stored, Described;
      DescribedRest(index[..], firstLineIdx, lines, tail);
      StoredRest(lineBuf[..], lines, tail);
      lineBufRemain := lineBufRemain + index[firstLineIdx].cmdLength1;
      lineBufRemain := lineBufRemain + index[firstLineIdx].cmdLength2;
      index[firstLineIdx] := FREE;
      assert index[..] == old(index[..])[firstLineIdx := FREE];
      if firstLineIdx != lastLineIdx {
        firstLineIdx := firstLineIdx + 1;
        if firstLineIdx == SLOTS {
          firstLineIdx := 0;
        }
      } else {
        firstLineIdx := -1;
      }
      lines, tail := lines[1..], tail + |lines[0]|;
    }

    /** `memcpy` into the byte ring. */
    method CopyBytes(at: nat, source: array<byte>, from: nat, n: nat)
      requires at + n <= lineBuf.Length && from + n <= source.Length && source != lineBuf
      modifies lineBuf
      ensures forall i :: at <= i < at + n ==> lineBuf[i] == source[from + (i - at)]
      ensures forall i :: 0 <= i < at || at + n <= i < lineBuf.Length ==> lineBuf[i] == old(lineBuf[i])
    {
      forall i | at <= i < at + n {
        lineBuf[i] := source[from + (i - at)];
      }
    }

    /** Copies the command into the ring at the insertion point, in two pieces when it wraps. */
    method CopyIn(source: array<byte>, length: nat, ghost head: nat) returns (length1: nat, length2: nat)
      requires lineBuf.Length == BYTES && source != lineBuf && length <= source.Length && length <= BYTES
      requires lineBufInOffset == Slot(head)
      modifies lineBuf
      ensures length1 + length2 == length
      ensures length1 == if Slot(head) + length <= BYTES then length else BYTES - Slot(head)
      ensures forall j :: 0 <= j < length ==> source[j] == lineBuf[Slot(head + j)]
      ensures forall x: nat :: head + length - BYTES <= x < head ==> lineBuf[Slot(x)] == old(lineBuf[Slot(x)])
    {
      hide Slot;
      var firstCopyLen := BYTES - lineBufInOffset;
      if firstCopyLen >= length {
        CopyBytes(lineBufInOffset, source, 0, length);
        length1, length2 := length, 0;
      } else {
        CopyBytes(lineBufInOffset, source, 0, firstCopyLen);
        CopyBytes(0, source, firstCopyLen, length - firstCopyLen);
        length1, length2 := firstCopyLen, length - firstCopyLen;
      }
      forall j | 0 <= j < length
        ensures source[j] == lineBuf[Slot(head + j)]
      {
        SlotPlus(head, j);
      }
      forall x: nat | head + length - BYTES <= x < head
        ensures lineBuf[Slot(x)] == old(lineBuf[Slot(x)])
      {
        SlotBefore(x, head, length);
      }
    }

    /** Stores a command line, evicting the oldest lines to make room. */
    method Store(command: array<byte>, length: nat)
      requires Settled() && command != lineBuf && 0 < length <= command.Length && length <= BYTES
      modifies this, index, lineBuf
      ensures Settled() && lines == Remember(old(lines), command[..length]) && read == -1
    {
      hide Slot, Total, Stored, Described;
      var newCmdIdx := lastLineIdx + 1;
      if newCmdIdx == SLOTS {
        newCmdIdx := 0;
      }
      while length > lineBufRemain || newCmdIdx == firstLineIdx
        invariant Valid() && lastLineIdx == old(lastLineIdx)
        invariant Evict(lines, length) == Evict(old(lines), length)
        decreases |lines|
      {
        EmptyTotal(lines);
        EvictFirst();
      }
      ghost var before := lineBuf[..];
      var start := lineBufInOffset;
      var length1, length2 := CopyIn(command, length, tail + Total(lines));
      Link(newCmdIdx, LineBuf(start, length1, length2), command[..length], before);
    }

    /** The bookkeeping after the copy: the new line becomes the last. */
    method Link(newCmdIdx: int, descriptor: LineBuf, line: Line, ghost before: seq<byte>)
      requires index.Length == SLOTS && lineBuf.Length == BYTES
      requires |lines| < SLOTS && 0 <= newCmdIdx < SLOTS && line != [] && Total(lines) + |line| <= BYTES
      requires lines == [] ==> firstLineIdx == -1
      requires lines != [] ==> 0 <= firstLineIdx < SLOTS && newCmdIdx == Cell(firstLineIdx, |lines|)
      requires lineBufRemain == BYTES - Total(lines) && lineBufInOffset == Slot(tail + Total(lines))
      requires Described(index[..], firstLineIdx, lines, tail) && Stored(before, lines, tail)
      requires var head := tail + Total(lines);
               && descriptor.start == Slot(head) && descriptor.cmdLength1 + descriptor.cmdLength2 == |line|
               && (descriptor.cmdLength1 == if Slot(head) + |line| <= BYTES then |line| else BYTES - Slot(head))
               && (forall j :: 0 <= j < |line| ==> line[j] == lineBuf[Slot(head + j)])
               && (forall x: nat :: head + |line| - BYTES <= x < head ==> lineBuf[Slot(x)] == before[Slot(x)])
      modifies this, index
      ensures Settled() && lines == old(lines) + [line] && read == -1
    {
      hide Slot, Total, Stored, Described;
      StoredMore(before, lineBuf[..], lines, tail, line);
      DescribedMore(index[..], firstLineIdx, lines, tail, line, newCmdIdx, descriptor);
      MoreFits(lines, line);
      SlotPlus(tail + Total(lines), |line|);
      index[newCmdIdx] := descriptor;
      assert index[..] == old(index[..])[newCmdIdx := descriptor];
      lineBufInOffset := lineBufInOffset + |line|;
      if lineBufInOffset >= BYTES {
        lineBufInOffset := lineBufInOffset - BYTES;
      }
      lineBufRemain := lineBufRemain - |line|;
      lastLineIdx := newCmdIdx;
      readLineIdx := -1;
      if -1 == firstLineIdx {
        firstLineIdx := newCmdIdx;
      }
      lines, read := lines + [line], -1;
    }

    /** `_ReplaceCommandLine`: copies a stored line, both of its pieces, over the command. */
    method ReplaceCommandLine(histIdx: int, command: array<byte>, ghost k: nat) returns (length: nat)
      requires Valid() && command != lineBuf && k < |lines| && histIdx == Cell(firstLineIdx, k)
      requires |lines[k]| <= command.Length
      modifies command
      ensures length == |lines[k]| && command[..length] == lines[k]
      ensures forall i :: length <= i < command.Length ==> command[i] == old(command[i])
    {
      hide Slot, Total, Stream, Offset;
      LineInStream(lines, k);
      var d := index[histIdx];
      assert d == Descriptor(lines, tail, k);
      forall i | 0 <= i < d.cmdLength1 {
        command[i] := lineBuf[d.start + i];
      }
      length := d.cmdLength1;
      if d.cmdLength2 > 0 {
        forall i | 0 <= i < d.cmdLength2 {
          command[d.cmdLength1 + i] := lineBuf[i];
        }
        length := length + d.cmdLength2;
      }
      TwoPieces(lineBuf[..], lines, tail, k, command[..length]);
    }

    /** The up key: recalls the last line, then the one before it, down to the oldest. */
    method KeyUp(command: array<byte>) returns (recalled: bool, length: nat)
      requires Settled() && command != lineBuf && forall k :: 0 <= k < |lines| ==> |lines[k]| <= command.Length
      modifies this`readLineIdx, this`read, command
      ensures Settled()
      ensures read == if old(read) < 0 then |lines| - 1 else if old(read) > 0 then old(read) - 1 else 0
      ensures recalled <==> lines != []
      ensures recalled ==> 0 <= read < |lines| && length == |lines[read]| <= command.Length && command[..length] == lines[read]
      ensures !recalled ==> length == 0
      ensures forall i :: length <= i < command.Length ==> command[i] == old(command[i])
    {
      hide Slot, Total, Stored, Described;
      length := 0;
      if readLineIdx < 0 {
        readLineIdx := lastLineIdx;
        read := |lines| - 1;
      } else if readLineIdx != firstLineIdx {
        readLineIdx := readLineIdx - 1;
        if readLineIdx < 0 {
          readLineIdx := readLineIdx + SLOTS;
        }
        read := read - 1;
      }
      recalled := readLineIdx >= 0;
      if recalled {
        length := ReplaceCommandLine(readLineIdx, command, read);
      }
    }

    /** The down key: after an up key, the next younger line, up to the last. */
    method KeyDown(command: array<byte>) returns (recalled: bool, length: nat)
      requires Settled() && command != lineBuf && forall k :: 0 <= k < |lines| ==> |lines[k]| <= command.Length
      modifies this`readLineIdx, this`read, command
      ensures Settled()
      ensures recalled <==> old(read) >= 0
      ensures read == if old(read) >= 0 && old(read) < |lines| - 1 then old(read) + 1 else old(read)
      ensures recalled ==> 0 <= read < |lines| && length == |lines[read]| <= command.Length && command[..length] == lines[read]
      ensures !recalled ==> length == 0
      ensures forall i :: length <= i < command.Length ==> command[i] == old(command[i])
    {
      hide Slot, Total, Stored, Described;
      length := 0;
      recalled := readLineIdx >= 0;
      if recalled {
        if readLineIdx != lastLineIdx {
          readLineIdx := readLineIdx + 1;
          if readLineIdx >= SLOTS {
            readLineIdx := readLineIdx - SLOTS;
          }
          read := read + 1;
        }
        length := ReplaceCommandLine(readLineIdx, command, read);
      }
    }

    /** A new line unsets the read index. */
    method ResetRead()
      requires Settled()
      modifies this`readLineIdx, this`read
      ensures Settled() && read == -1
    {
      readLineIdx, read := -1, -1;
    }
  }

  lemma EmptyTotal(lines: seq<Line>)
    ensures lines == [] ==> Total(lines) == 0
  {
  }

  lemma MoreFits(lines: seq<Line>, line: Line)
    ensures Total(lines + [line]) == Total(lines) + |line|
    ensures Offset(lines + [line], |lines|) == Total(lines)
  {
    TotalAppend(lines, [line]);
    TotalOne(line);
    assert (lines + [line])[..|lines|] == lines;
  }

  lemma SlotBefore(x: nat, head: nat, length: nat)
    requires head + length - BYTES <= x < head && length <= BYTES
    ensures Slot(head) + length <= BYTES ==> !(Slot(head) <= Slot(x) < Slot(head) + length)
    ensures Slot(head) + length > BYTES ==> Slot(head) + length - BYTES <= Slot(x) < Slot(head)
  {
    SlotPlus(x, head - x);
  }
}
