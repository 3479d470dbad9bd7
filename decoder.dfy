/**
 * What one acquisition attempt of the DHT22 decoder computes from the line,
 * stated as functions: the transition loop (at most 85 transitions, stopping
 * at the first one whose poll count reaches 255), the bits it records (one
 * for every even transition from 4 on, 1 iff the count exceeds 16), and the
 * verdict on the packed frame.
 */
module Decoder {
  import opened Frame
  import opened Pulse

  /** Transitions the attempt waits for at most (`MAXTIMINGS`). */
  const MaxTimings := 85

  /** A poll count above this is a 1 bit, at or below it a 0 bit. */
  const Threshold := 16

  /** Transitions 0..3 carry no data; from 4 on, every even one does. */
  predicate IsDataSlot(i: nat)
  {
    i >= 4 && i % 2 == 0
  }

  /** How many of transitions 0 .. n-1 are data slots. */
  function DataSlots(n: nat): nat
  {
    if n <= 4 then 0 else (n - 3) / 2
  }

  datatype Scan = ScanFault | Scanned(counts: seq<nat>)

  /** The transition loop from transition |counts| on, with the counts of
      the transitions before it already measured. */
  function ScanFrom(line: Line, pos: nat, laststate: Byte, counts: seq<nat>): (s: Scan)
    requires |counts| <= MaxTimings
    ensures s.Scanned? ==> |counts| <= |s.counts| <= MaxTimings
    ensures s.Scanned? && |counts| < MaxTimings ==> |counts| < |s.counts|
    decreases MaxTimings - |counts|
  {
    if |counts| == MaxTimings then Scanned(counts)
    else
      match Transition(line, pos, laststate)
      case LineFault => ScanFault
      case Measured(c, l, p) =>
        if c == Cap then Scanned(counts + [c])
        else ScanFrom(line, p, l, counts + [c])
  }

  /** The poll counts of the transitions one attempt measures, starting on
      a HIGH level at the first read. */
  function ScanLine(line: Line): (s: Scan)
    ensures s.Scanned? ==> 0 < |s.counts| <= MaxTimings
  {
    ScanFrom(line, 0, High, [])
  }

  /** The last count reached the cap: the loop was cut short by it. */
  predicate Stalled(counts: seq<nat>)
  {
    |counts| > 0 && counts[|counts| - 1] == Cap
  }

  /** The shape of every scan: at most 85 counts, none above 255, only the
      last one equal to 255, and fewer than 85 only if the last one is. */
  predicate WellScanned(counts: seq<nat>)
  {
    |counts| <= MaxTimings
    && (forall k :: 0 <= k < |counts| ==> counts[k] <= Cap)
    && (forall k :: 0 <= k < |counts| - 1 ==> counts[k] < Cap)
    && (|counts| < MaxTimings ==> Stalled(counts))
  }

  /** Transitions that delivered a count below the cap. */
  function Delivered(counts: seq<nat>): nat
  {
    if Stalled(counts) then |counts| - 1 else |counts|
  }

  /** The bits the transition loop shifts into the buffer, in order. */
  function Bits(counts: seq<nat>): (bits: seq<bool>)
    ensures |bits| <= |counts|
  {
    if counts == [] then []
    else
      var i := |counts| - 1;
      Bits(counts[..i])
        + (if IsDataSlot(i) && counts[i] != Cap then [counts[i] > Threshold] else [])
  }

  /** Outcome of one attempt: a faulty read (process exit), the store of a
      41st bit past the end of the five-byte buffer, a rejected frame, or an
      accepted reading. */
  datatype Attempt = Fatal | Overrun | Rejected | Accepted(reading: Reading)

  /** The outcome of `read_dht22_dat` on a line. */
  function AttemptOf(line: Line): (a: Attempt)
    ensures a.Fatal? <==> ScanLine(line).ScanFault?
    ensures a.Accepted? || a.Rejected? ==> ScanLine(line).Scanned? && |Bits(ScanLine(line).counts)| <= FrameBits
  {
    match ScanLine(line)
    case ScanFault => Fatal
    case Scanned(counts) =>
      var bits := Bits(counts);
      if |bits| > FrameBits then Overrun
      else
        var d := Pack(bits);
        if Accepts(d, |bits|) then Accepted(Decode(d)) else Rejected
  }

  lemma TransitionCountAtMostCap(line: Line, pos: nat, laststate: Byte)
    ensures Transition(line, pos, laststate).Measured? ==> Transition(line, pos, laststate).count <= Cap
  {
    PollStopsAtChangeOrCap(line, pos, laststate, 0);
  }

  lemma {:induction false} ScanFromWellScanned(line: Line, pos: nat, laststate: Byte, i: nat, counts: seq<nat>)
    requires i <= MaxTimings && |counts| == i
    requires forall k :: 0 <= k < i ==> counts[k] < Cap
    ensures var s := ScanFrom(line, pos, laststate, counts);
      s.Scanned? ==> WellScanned(s.counts) && |s.counts| >= i && s.counts[..i] == counts
    decreases MaxTimings - i
  {
    if i < MaxTimings {
      TransitionCountAtMostCap(line, pos, laststate);
      match Transition(line, pos, laststate)
      case LineFault =>
      case Measured(c, l, p) =>
        var next := counts + [c];
        assert next[..i] == counts;
        if c != Cap {
          ScanFromWellScanned(line, p, l, i + 1, next);
          var s := ScanFrom(line, p, l, next);
          if s.Scanned? {
            assert s.counts[..i] == s.counts[..i + 1][..i];
          }
        }
    }
  }

  /** A transition exits the process exactly when an out-of-range read
      comes in its polling loop before a change of level and the cap, or
      at the re-read of the pin after the loop. */
  lemma TransitionFaultsOnBadRead(line: Line, pos: nat, laststate: Byte)
    ensures Transition(line, pos, laststate).LineFault?
      <==> (exists k :: pos <= k < pos + Cap && Holds(line, pos, k, laststate) && !(0 <= line(k) <= 255))
           || (Poll(line, pos, laststate, 0).Measured? && !(0 <= line(Poll(line, pos, laststate, 0).next) <= 255))
  {
    PollFaultsOnBadRead(line, pos, laststate, 0);
  }

  /** A transition that faults ends the attempt with a process exit. */
  lemma FaultStep(line: Line, pos: nat, laststate: Byte, i: nat, counts: seq<nat>)
    requires i < MaxTimings && |counts| == i && ScanLine(line) == ScanFrom(line, pos, laststate, counts)
    requires Transition(line, pos, laststate).LineFault?
    ensures ScanLine(line) == ScanFault
  {
  }

  /** A transition whose count reaches the cap ends the scan and records no
      bit. */
  lemma StallStep(line: Line, pos: nat, laststate: Byte, i: nat, counts: seq<nat>)
    requires i < MaxTimings && |counts| == i && ScanLine(line) == ScanFrom(line, pos, laststate, counts)
    requires Transition(line, pos, laststate).Measured? && Transition(line, pos, laststate).count == Cap
    ensures ScanLine(line) == Scanned(counts + [Cap])
    ensures Bits(counts + [Cap]) == Bits(counts)
  {
    assert (counts + [Cap])[..|counts|] == counts;
  }

  /** A count below the cap appended to the counts adds a bit exactly when
      its transition is a data slot. */
  lemma BitsSnoc(counts: seq<nat>, c: nat)
    requires c < Cap
    ensures Bits(counts + [c]) == Bits(counts) + (if IsDataSlot(|counts|) then [c > Threshold] else [])
  {
    var cs := counts + [c];
    var i := |counts|;
    assert cs[..i] == counts;
    assert cs[i] == c && |cs| - 1 == i;
  }

  /** A transition below the cap moves the scan on, and records a bit when
      it is a data slot. */
  lemma ContinueStep(line: Line, pos: nat, laststate: Byte, i: nat, counts: seq<nat>, m: Measure)
    requires i < MaxTimings && |counts| == i
    requires ScanLine(line) == ScanFrom(line, pos, laststate, counts)
    requires m == Transition(line, pos, laststate) && m.Measured? && m.count < Cap
    ensures ScanLine(line) == ScanFrom(line, m.next, m.level, counts + [m.count])
    ensures IsDataSlot(i) ==> Bits(counts + [m.count]) == Bits(counts) + [m.count > Threshold]
    ensures !IsDataSlot(i) ==> Bits(counts + [m.count]) == Bits(counts)
  {
    BitsSnoc(counts, m.count);
  }

  /** The data slot with 40 data slots before it is transition 84. */
  lemma LastDataSlot(i: nat)
    requires IsDataSlot(i) && DataSlots(i) == FrameBits
    ensures i == MaxTimings - 1
  {
  }

  /** A 41st data bit, which only transition 84 can deliver, is a store past
      the end of the buffer. */
  lemma OverrunStep(line: Line, pos: nat, laststate: Byte, i: nat, counts: seq<nat>, m: Measure)
    requires i < MaxTimings && |counts| == i && IsDataSlot(i)
    requires forall k :: 0 <= k < i ==> counts[k] < Cap
    requires ScanLine(line) == ScanFrom(line, pos, laststate, counts)
    requires m == Transition(line, pos, laststate) && m.Measured? && m.count < Cap
    requires |Bits(counts)| == FrameBits
    ensures i == MaxTimings - 1 && ScanLine(line) == Scanned(counts + [m.count])
    ensures |Bits(counts + [m.count])| == FrameBits + 1
  {
    BitsCount(counts);
    LastDataSlot(i);
    var next := counts + [m.count];
    ContinueStep(line, pos, laststate, i, counts, m);
    assert |next| == MaxTimings;
    assert ScanFrom(line, m.next, m.level, next) == Scanned(next);
  }

  /** The verdict on a completed scan of at most 40 bits. */
  lemma VerdictStep(line: Line, counts: seq<nat>)
    requires ScanLine(line) == Scanned(counts) && |Bits(counts)| <= FrameBits
    ensures var bits := Bits(counts);
      AttemptOf(line)
      == if Accepts(Pack(bits), |bits|) then Accepted(Decode(Pack(bits))) else Rejected
  {
  }

  /** Every per-transition count is at most 255, the loop stops at the first
      count of 255, and it runs at most 85 transitions. */
  lemma ScanIsWellScanned(line: Line)
    ensures ScanLine(line).Scanned? ==> WellScanned(ScanLine(line).counts)
  {
    ScanFromWellScanned(line, 0, High, 0, []);
  }

  /** A count of 255 records no bit. */
  lemma BitsDropStall(counts: seq<nat>)
    requires Stalled(counts)
    ensures Bits(counts) == Bits(counts[..|counts| - 1])
  {
  }

  /** Without a stall, n transitions record one bit per data slot. */
  lemma {:induction false} BitsCount(counts: seq<nat>)
    requires forall k :: 0 <= k < |counts| ==> counts[k] < Cap
    ensures |Bits(counts)| == DataSlots(|counts|)
  {
    if counts != [] {
      BitsCount(counts[..|counts| - 1]);
    }
  }

  /** Bit m comes from transition 4 + 2m, and is 1 iff its count exceeds 16. */
  lemma {:induction false} BitsFromEvenTransitions(counts: seq<nat>, m: nat)
    requires forall k :: 0 <= k < |counts| ==> counts[k] < Cap
    requires m < |Bits(counts)|
    ensures 4 + 2 * m < |counts| && Bits(counts)[m] == (counts[4 + 2 * m] > Threshold)
  {
    var i := |counts| - 1;
    var pre := counts[..i];
    BitsCount(pre);
    if m < |Bits(pre)| {
      BitsFromEvenTransitions(pre, m);
    } else {
      assert IsDataSlot(i) && m == DataSlots(i);
    }
  }

  /** The number of bits a scan records: one per data slot among the
      transitions that delivered a count, so never more than 41. */
  lemma BitsCollected(counts: seq<nat>)
    requires WellScanned(counts)
    ensures |Bits(counts)| == DataSlots(Delivered(counts)) <= FrameBits + 1
  {
    if Stalled(counts) {
      BitsCount(counts[..|counts| - 1]);
    } else {
      BitsCount(counts);
    }
  }

  /** The attempt stores past the end of the buffer exactly when all 85
      transitions deliver a count below 255: the 41st bit, from transition
      84, goes to byte 40 / 8 == 5. */
  lemma OverrunExactlyWithoutStall(line: Line)
    ensures AttemptOf(line) == Overrun
        <==> ScanLine(line).Scanned? && |ScanLine(line).counts| == MaxTimings
             && ScanLine(line).counts[MaxTimings - 1] < Cap
  {
    ScanIsWellScanned(line);
    if ScanLine(line).Scanned? {
      BitsCollected(ScanLine(line).counts);
    }
  }

  /** A frame is accepted only when the line stalled at transition 83 or 84,
      after exactly 40 bits. */
  lemma AcceptedOnlyAfterFortyBits(line: Line)
    requires AttemptOf(line).Accepted?
    ensures ScanLine(line).Scanned? && Stalled(ScanLine(line).counts)
    ensures |ScanLine(line).counts| in {84, 85}
    ensures |Bits(ScanLine(line).counts)| == FrameBits
  {
    ScanIsWellScanned(line);
    BitsCollected(ScanLine(line).counts);
  }

  /** A line that stalls before 40 bits were collected is rejected: a
      partially filled buffer never becomes a reading. */
  lemma EarlyStallRejected(line: Line)
    requires ScanLine(line).Scanned? && Stalled(ScanLine(line).counts)
    requires |ScanLine(line).counts| <= 83
    ensures AttemptOf(line) == Rejected
  {
    ScanIsWellScanned(line);
    BitsCollected(ScanLine(line).counts);
  }

  /** An accepted reading is the decoding of the frame whose 40 bits are the
      classified counts of transitions 4, 6, .., 82, and whose checksum
      holds. */
  lemma AcceptedReadingFromPulses(line: Line)
    requires AttemptOf(line).Accepted?
    ensures ScanLine(line).Scanned? && |ScanLine(line).counts| >= 83
    ensures var c := ScanLine(line).counts;
      exists d :: IsFrame(d) && d[4] == Checksum(d) && AttemptOf(line).reading == Decode(d)
        && forall m :: 0 <= m < FrameBits ==> Unpack(d)[m] == (c[4 + 2 * m] > Threshold)
  {
    AcceptedOnlyAfterFortyBits(line);
    var c := ScanLine(line).counts;
    var pre := c[..|c| - 1];
    BitsDropStall(c);
    ScanIsWellScanned(line);
    var bits := Bits(pre);
    var d := Pack(bits);
    UnpackPack(bits);
    forall m | 0 <= m < FrameBits
      ensures Unpack(d)[m] == (c[4 + 2 * m] > Threshold)
    {
      BitsFromEvenTransitions(pre, m);
    }
  }
}
