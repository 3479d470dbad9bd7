/**
 * The state `dht22.c` keeps between calls, and the two routines that update
 * it in place: `read_dht22_dat`, one acquisition attempt that zeroes and
 * fills the five-byte buffer and, on a valid frame, sets the humidity and
 * temperature; and `readDHT22`, which takes the lock file, collects ten
 * successful attempts and releases the lock.
 *
 * Humidity and temperature are kept in tenths (the source divides by ten
 * in floating point). The lock file is the `lockHeld` flag, and `trace`
 * records the lock operations, attempts and sleeps in the order they
 * happen.
 */
module Dht22 {
  import opened Frame
  import opened Pulse
  import opened Decoder
  import opened Schedule

  /** How the transition loop of an attempt ended: a faulty read, a store
      past the end of the buffer, or its last transition with j bits
      received. */
  datatype LoopEnd = Faulted | Overran | Finished(j: nat)

  class Sensor {
    /** `dht22_dat`: the bytes of the frame being received. */
    var dat: array<int>
    /** `h` and `t`, in tenths. */
    var h: int
    var t: int
    /** The lock file is open and locked by this process. */
    var lockHeld: bool
    /** Lock operations, attempts and sleeps so far, oldest first. */
    ghost var trace: seq<Event>

    ghost predicate Valid()
      reads this
    {
      dat.Length == FrameBytes
    }

    constructor ()
      ensures Valid() && fresh(dat) && dat[..] == [0, 0, 0, 0, 0]
      ensures h == 0 && t == 0 && !lockHeld && trace == []
    {
      dat := new int[FrameBytes](_ => 0);
      h, t := 0, 0;
      lockHeld := false;
      trace := [];
    }

    /** One acquisition attempt (`read_dht22_dat`) on the given line. The
        outcome is the one AttemptOf describes; h and t change only when the
        frame is accepted, and then hold its reading. */
    method ReadDht22Dat(line: Line) returns (result: Attempt)
      requires Valid()
      modifies dat, this`h, this`t
      ensures Valid()
      ensures result == AttemptOf(line)
      ensures result.Accepted? ==> h == result.reading.humidity && t == result.reading.temperature
      ensures !result.Accepted? ==> h == old(h) && t == old(t)
      ensures result.Accepted? || result.Rejected? ==>
                ScanLine(line).Scanned? && dat[..] == Pack(Bits(ScanLine(line).counts))
    {
      dat[0] := 0;
      dat[1] := 0;
      dat[2] := 0;
      dat[3] := 0;
      dat[4] := 0;
      PackEmpty();
      var e := ReceiveBits(line);
      match e
      case Faulted =>
        return Fatal;
      case Overran =>
        return Overrun;
      case Finished(j) =>
        VerdictStep(line, ScanLine(line).counts);
        result := CheckAndAssemble(j);
    }

    /** The transition loop of `read_dht22_dat`, on a zeroed buffer: it ends
        at a faulty read, at the store of a 41st bit past the end of the
        buffer, or after its last transition with the bits of the scan
        packed into the buffer. */
    method ReceiveBits(line: Line) returns (e: LoopEnd)
      requires Valid() && dat[..] == Pack([])
      modifies dat
      ensures Valid()
      ensures e.Faulted? ==> ScanLine(line) == ScanFault
      ensures e.Overran? ==> ScanLine(line).Scanned? && |Bits(ScanLine(line).counts)| == FrameBits + 1
      ensures e.Finished? ==>
                ScanLine(line).Scanned? && e.j == |Bits(ScanLine(line).counts)| <= FrameBits
                && dat[..] == Pack(Bits(ScanLine(line).counts))
    {
      var laststate := High;
      var pos := 0;
      var j := 0;
      var i := 0;
      ghost var counts: seq<nat> := [];
      ghost var bits: seq<bool> := [];
      while i < MaxTimings
        invariant 0 <= i <= MaxTimings && |counts| == i
        invariant forall k :: 0 <= k < i ==> counts[k] < Cap
        invariant ScanLine(line) == ScanFrom(line, pos, laststate, counts)
        invariant bits == Bits(counts)
        invariant j == |bits| <= FrameBits && dat[..] == Pack(bits)
      {
        var m := MeasurePulse(line, pos, laststate);
        if m.LineFault? {
          FaultStep(line, pos, laststate, i, counts);
          return Faulted;
        }
        TransitionCountAtMostCap(line, pos, laststate);
        var counter := m.count;
        if counter == Cap {
          StallStep(line, pos, laststate, i, counts);
          counts := counts + [counter];
          break;
        }
        ContinueStep(line, pos, laststate, i, counts, m);
        if i >= 4 && i % 2 == 0 {
          if j / 8 >= FrameBytes {
            // the store would go to dht22_dat[5], past the end of the buffer
            OverrunStep(line, pos, laststate, i, counts, m);
            return Overran;
          }
          ShiftIn(j, bits, counter);
          bits := bits + [counter > Threshold];
          j := j + 1;
        }
        laststate, pos := m.level, m.next;
        counts := counts + [counter];
        i := i + 1;
      }
      assert ScanLine(line) == Scanned(counts);
      e := Finished(j);
    }

    /** Shift the next bit into the buffer, which holds the bits so far: a 1
        iff the poll count exceeds the threshold. */
    method ShiftIn(j: nat, ghost bits: seq<bool>, counter: nat)
      requires Valid() && j == |bits| < FrameBits && dat[..] == Pack(bits)
      modifies dat
      ensures Valid() && dat[..] == Pack(bits + [counter > Threshold])
    {
      PackSnoc(bits, counter > Threshold);
      ShiftByte(j / 8, counter);
    }

    /** `dht22_dat[k] <<= 1`, then `dht22_dat[k] |= 1` when the poll count
        exceeds the threshold. */
    method ShiftByte(k: nat, counter: nat)
      requires Valid() && k < FrameBytes
      modifies dat
      ensures Valid()
      ensures dat[..] == old(dat[..])[k := 2 * old(dat[..])[k] + Bit(counter > Threshold)]
    {
      var byte := dat[k] * 2;
      if counter > Threshold {
        // the shifted byte is even, so `|= 1` adds one
        byte := byte + 1;
      }
      dat[k] := byte;
    }

    /** The end of an attempt: accept the buffer iff j bits (at least 40)
        were collected and the checksum holds, and then set h and t from it. */
    method CheckAndAssemble(j: nat) returns (result: Attempt)
      requires Valid() && IsFrame(dat[..])
      modifies this`h, this`t
      ensures result == if Accepts(dat[..], j) then Accepted(Decode(dat[..])) else Rejected
      ensures result.Accepted? ==> h == result.reading.humidity && t == result.reading.temperature
      ensures !result.Accepted? ==> h == old(h) && t == old(t)
    {
      ghost var d := dat[..];
      if j >= FrameBits && dat[4] == LowByte(dat[0] + dat[1] + dat[2] + dat[3]) {
        h := dat[0] * 256 + dat[1];
        t := LowSeven(dat[2]) * 256 + dat[3];
        if SignSet(dat[2]) {
          t := -t;
        }
        assert h == Humidity(d) && t == Temperature(d);
        return Accepted(Reading(h, t));
      }
      return Rejected;
    }

    /** Attempt k of a session: `read_dht22_dat` on the k-th line, whose
        outcome `outcomes` names. */
    method TryAttempt(lines: nat -> Line, ghost outcomes: nat -> Attempt, k: nat) returns (result: Attempt)
      requires Valid()
      requires forall n {:trigger AttemptOf(lines(n))} :: outcomes(n) == AttemptOf(lines(n))
      modifies dat, this`h, this`t
      ensures Valid() && result == outcomes(k)
      ensures result.Accepted? ==> h == result.reading.humidity && t == result.reading.temperature
      ensures !result.Accepted? ==> h == old(h) && t == old(t)
    {
      result := ReadDht22Dat(lines(k));
    }

    /** The inner loop of `readDHT22`: repeat attempts from attempt `next`,
        sleeping after each rejected one, until one is accepted; `left` more
        attempts are followed. With `remaining` readings still to collect,
        the events it returns begin the retry loops from there: they are
        followed by the loops for one reading less after an accepted attempt,
        and are all of them otherwise. */
    method ReadUntilAccepted(lines: nat -> Line, ghost outcomes: nat -> Attempt, next: nat, left: nat, ghost remaining: nat)
      returns (accepted: bool, end: End, next': nat, left': nat, ghost events: seq<Event>)
      requires Valid() && remaining > 0
      requires forall n {:trigger AttemptOf(lines(n))} :: outcomes(n) == AttemptOf(lines(n))
      modifies dat, this`h, this`t
      ensures Valid()
      ensures accepted ==>
                Retries(outcomes, next, remaining, left) == Prepend(events, Retries(outcomes, next', remaining - 1, left'))
                && |events| > 0 && events[|events| - 1] == Tried(Accepted(Reading(h, t)))
      ensures !accepted ==> end != Completed && Retries(outcomes, next, remaining, left) == Run(events, end)
    {
      ghost var whole := Retries(outcomes, next, remaining, left);
      events := [];
      next', left' := next, left;
      while true
        invariant Valid()
        invariant whole == Prepend(events, Retries(outcomes, next', remaining, left'))
        decreases left'
      {
        if left' == 0 {
          // the model follows no more attempts
          return false, OutOfFuel, next', left', events;
        }
        var result := TryAttempt(lines, outcomes, next');
        RetriesStep(outcomes, next', remaining, left');
        if result.Fatal? || result.Overrun? {
          events := events + [Tried(result)];
          end := if result.Fatal? then Exited else Undefined;
          return false, end, next' + 1, left' - 1, events;
        }
        if result.Accepted? {
          PrependTwice(events, [Tried(result)], Retries(outcomes, next' + 1, remaining - 1, left' - 1));
          events := events + [Tried(result)];
          return true, Completed, next' + 1, left' - 1, events;
        }
        // delay(1000)
        PrependTwice(events, [Tried(result), Slept(Backoff)], Retries(outcomes, next' + 1, remaining, left' - 1));
        events := events + [Tried(result), Slept(Backoff)];
        next', left' := next' + 1, left' - 1;
      }
    }

    /** The loops of `readDHT22`: ten times, repeat attempts until one is
        accepted. Attempt k reads lines(k), and `outcomes` names what each
        attempt gives; `fuel` bounds the number of attempts followed. The
        events of the loops are returned in `done`. */
    method CollectReadings(lines: nat -> Line, ghost outcomes: nat -> Attempt, fuel: nat)
      returns (end: End, ghost done: seq<Event>)
      requires Valid()
      requires forall n {:trigger AttemptOf(lines(n))} :: outcomes(n) == AttemptOf(lines(n))
      modifies dat, this`h, this`t
      ensures Valid()
      ensures Retries(outcomes, 0, Readings, fuel) == Run(done, end)
      ensures end == Completed ==> |done| > 0 && done[|done| - 1] == Tried(Accepted(Reading(h, t)))
    {
      ghost var whole := Retries(outcomes, 0, Readings, fuel);
      done := [];
      var attempt, left := 0, fuel;
      var i := 0;
      while i < Readings
        invariant 0 <= i <= Readings && Valid()
        invariant whole == Prepend(done, Retries(outcomes, attempt, Readings - i, left))
        invariant i > 0 ==> |done| > 0 && done[|done| - 1] == Tried(Accepted(Reading(h, t)))
        decreases Readings - i
      {
        var accepted;
        ghost var events;
        accepted, end, attempt, left, events := ReadUntilAccepted(lines, outcomes, attempt, left, Readings - i);
        if !accepted {
          done := done + events;
          return;
        }
        PrependTwice(done, events, Retries(outcomes, attempt, Readings - i - 1, left));
        done := done + events;
        i := i + 1;
      }
      end := Completed;
    }

    /** `readDHT22`: take the lock, collect ten accepted attempts, then
        release the lock. The lock's lifetime is `lockHeld`, and the events
        of the session are appended to `trace`. */
    method ReadDht22(acquire: Acquire, release: Release, lines: nat -> Line, ghost outcomes: nat -> Attempt, fuel: nat)
      returns (end: End)
      requires Valid() && !lockHeld
      requires forall n {:trigger AttemptOf(lines(n))} :: outcomes(n) == AttemptOf(lines(n))
      modifies dat, this`h, this`t, this`lockHeld, this`trace
      ensures Valid()
      ensures end == Session(acquire, release, outcomes, fuel).end
      ensures trace == old(trace) + Session(acquire, release, outcomes, fuel).events
      ensures lockHeld <==> LockOpened in Session(acquire, release, outcomes, fuel).events
                            && Unlocked !in Session(acquire, release, outcomes, fuel).events
      ensures end == Completed ==> |trace| >= 3 && trace[|trace| - 3] == Tried(Accepted(Reading(h, t)))
    {
      ghost var before := trace;
      // open_lockfile: any failure ends the process
      if acquire != Acquired {
        return Exited;
      }
      lockHeld := true;
      ghost var done;
      end, done := CollectReadings(lines, outcomes, fuel);
      RetriesOnlyAttempts(outcomes, 0, Readings, fuel);
      assert LockOpened !in done && Unlocked !in done;
      if end != Completed {
        trace := before + ([LockOpened] + done);
        return;
      }
      // close_lockfile: any failure ends the process
      if release == UnlockFailed {
        trace := before + ([LockOpened] + done);
        return Exited;
      }
      lockHeld := false;
      if release == CloseFailed {
        trace := before + ([LockOpened] + done + [Unlocked]);
        return Exited;
      }
      trace := before + ([LockOpened] + done + [Unlocked, LockClosed]);
    }
  }
}
