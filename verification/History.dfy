/**
 The command history of firmware/src/at_cmd_engine/terminal/terminal.c: lines of any length
 kept in a ring of bytes with a ring of descriptors, the oldest evicted to make room.
 */
module History {
  import opened Bytes

  /** TP_HISTORY_NUM_INDEXS */
  const SLOTS: int := 8
  /** TP_HISTORY_BUFFER_SIZE: 512 * (8 / 2) */
  const BYTES: int := 2048

  type Line = seq<byte>

  // ----- What the history is meant to hold -----

  function Total(lines: seq<Line>): nat {
    if lines == [] then 0 else |lines[0]| + Total(lines[1..])
  }

  /** Drops the oldest lines until there is a descriptor and `need` bytes to spare. */
  function Evict(lines: seq<Line>, need: nat): seq<Line> {
    if lines != [] && (Total(lines) + need > BYTES || |lines| == SLOTS) then Evict(lines[1..], need) else lines
  }

  function Remember(lines: seq<Line>, line: Line): seq<Line> {
    Evict(lines, |line|) + [line]
  }

  /** The history after a run of entered lines; empty ones are not stored. */
  function HistoryOf(entered: seq<Line>): seq<Line> {
    if entered == [] then []
    else
      var before, line := HistoryOf(entered[..|entered| - 1]), entered[|entered| - 1];
      if line == [] then before else Remember(before, line)
  }

  function NonEmpty(entered: seq<Line>): seq<Line> {
    if entered == [] then []
    else
      var before, line := NonEmpty(entered[..|entered| - 1]), entered[|entered| - 1];
      if line == [] then before else before + [line]
  }

  /** At most 8 lines, and 2048 bytes. */
  predicate Fits(lines: seq<Line>) { |lines| <= 8 && Total(lines) <= 2048 }

  /** The last `k` lines. */
  function Last(lines: seq<Line>, k: nat): seq<Line>
    requires k <= |lines|
  {
    lines[|lines| - k..]
  }

  /** `kept` is the longest suffix of `all` that fits. */
  ghost predicate IsLongestFit(kept: seq<Line>, all: seq<Line>) {
    && |kept| <= |all| && kept == Last(all, |kept|) && Fits(kept)
    && forall k :: |kept| < k <= |all| ==> !Fits(Last(all, k))
  }

  lemma {:induction false} TotalAppend(lines: seq<Line>, more: seq<Line>)
    ensures Total(lines + more) == Total(lines) + Total(more)
  {
    if lines == [] {
      assert lines + more == more;
    } else {
      assert (lines + more)[1..] == lines[1..] + more;
      TotalAppend(lines[1..], more);
    }
  }

  lemma TotalOne(line: Line)
    ensures Total([line]) == |line|
  {
    assert Total([line][1..]) == 0;
  }

  /** A suffix of lines that fit fits. */
  lemma SuffixFits(lines: seq<Line>, k: nat)
    requires k <= |lines|
    ensures Total(lines[k..]) <= Total(lines)
    ensures Fits(lines) ==> Fits(lines[k..])
  {
    assert lines == lines[..k] + lines[k..];
    TotalAppend(lines[..k], lines[k..]);
  }

  /** What eviction leaves: a suffix, with room, and nothing more than needed is dropped. */
  lemma {:induction false} EvictLeaves(lines: seq<Line>, need: nat)
    requires Fits(lines) && need <= BYTES
    ensures var e := Evict(lines, need);
            && |e| <= |lines| && e == Last(lines, |e|)
            && |e| < SLOTS && Total(e) + need <= BYTES
            && forall k :: |e| < k <= |lines| ==> k == SLOTS || Total(Last(lines, k)) + need > BYTES
  {
    assert Last(lines, |lines|) == lines;
    if lines != [] && (Total(lines) + need > BYTES || |lines| == SLOTS) {
      var rest, e := lines[1..], Evict(lines, need);
      SuffixFits(lines, 1);
      EvictLeaves(rest, need);
      hide Total, Evict;
      assert Last(rest, |e|) == Last(lines, |e|);
      forall k | |e| < k <= |lines|
        ensures k == SLOTS || Total(Last(lines, k)) + need > BYTES
      {
        if k < |lines| {
          assert Last(rest, k) == Last(lines, k);
        }
      }
    }
  }

  lemma LastAppend(lines: seq<Line>, line: Line, k: nat)
    requires k <= |lines|
    ensures Last(lines + [line], k + 1) == Last(lines, k) + [line]
    ensures Total(Last(lines + [line], k + 1)) == Total(Last(lines, k)) + |line|
  {
    TotalAppend(Last(lines, k), [line]);
    TotalOne(line);
  }

  lemma RememberKeepsLongest(kept: seq<Line>, all: seq<Line>, line: Line)
    requires IsLongestFit(kept, all) && |line| <= BYTES
    ensures IsLongestFit(Remember(kept, line), all + [line])
  {
    hide Evict, Total;
    var e := Evict(kept, |line|);
    EvictLeaves(kept, |line|);
    LastOfLast(all, |kept|, |e|);
    LastAppend(all, line, |e|);
    forall k | |e| + 1 < k <= |all| + 1
      ensures !Fits(Last(all + [line], k))
    {
      LastAppend(all, line, k - 1);
      if k - 1 <= |kept| {
        LastOfLast(all, |kept|, k - 1);
      } else {
        assert !Fits(Last(all, k - 1));
      }
    }
  }

  lemma LastOfLast(lines: seq<Line>, k: nat, j: nat)
    requires j <= k <= |lines|
    ensures Last(Last(lines, k), j) == Last(lines, j)
  {
  }

  /** After any run of entered lines the history is the longest suffix of the non-empty ones
      that has at most 8 lines and 2048 bytes. */
  lemma {:induction false} HistoryIsLongestSuffix(entered: seq<Line>)
    requires forall i :: 0 <= i < |entered| ==> |entered[i]| <= BYTES
    ensures IsLongestFit(HistoryOf(entered), NonEmpty(entered))
  {
    if entered != [] {
      HistoryIsLongestSuffix(entered[..|entered| - 1]);
      var line := entered[|entered| - 1];
      if line != [] {
        RememberKeepsLongest(HistoryOf(entered[..|entered| - 1]), NonEmpty(entered[..|entered| - 1]), line);
      }
    }
  }
}
