/**
 * The pulse timer of the DHT22 decoder: `sizecvt`, the polling loop that
 * counts how long the pin keeps its last level (capped at 255 polls), and
 * the re-read of the pin that gives the level the next transition waits on.
 *
 * The pin is abstracted as a `Line`: the value the k-th call of
 * `digitalRead` returns during one attempt. Delays between polls take no
 * part in the decoding and are not modelled.
 */
module Pulse {
  import opened Frame

  /** Poll count at which the polling loop gives up on a level. */
  const Cap := 255

  /** wiringPi's HIGH: the level the first transition waits on. */
  const High: Byte := 1

  /** The values successive `digitalRead` calls of one attempt return. */
  type Line = nat -> int

  /** Outcome of `sizecvt`: the read as a byte, or the process exit. */
  datatype Converted = Exit | Value(v: Byte)

  /** `sizecvt`: a read in 0..255 passes through, anything else exits. */
  function SizeCvt(read: int): (r: Converted)
    ensures r.Value? <==> 0 <= read <= 255
    ensures r.Value? ==> r.v == read
  {
    if read > 255 || read < 0 then Exit else Value(read)
  }

  /** One measured transition: the poll count, the level read after the
      polling loop, and the position of the next read on the line. */
  datatype Measure = LineFault | Measured(count: nat, level: Byte, next: nat)

  /** The polling loop, from read position pos with `counter` polls already
      counted: each read equal to `level` counts one more poll, and the loop
      stops at the first other read or when the count reaches the cap. */
  function Poll(line: Line, pos: nat, level: Byte, counter: nat): (m: Measure)
    requires counter < Cap
    ensures m.Measured? ==> counter <= m.count <= Cap && m.level == level && m.next > pos
    decreases Cap - counter
  {
    match SizeCvt(line(pos))
    case Exit => LineFault
    case Value(v) =>
      if v != level then Measured(counter, level, pos + 1)
      else if counter + 1 == Cap then Measured(Cap, level, pos + 1)
      else Poll(line, pos + 1, level, counter + 1)
  }

  /** One transition: the polling loop, then one more read of the pin, which
      becomes the level the next transition waits on. */
  function Transition(line: Line, pos: nat, laststate: Byte): (m: Measure)
    ensures m.Measured? ==> m.count <= Cap && m.next >= pos + 2
  {
    match Poll(line, pos, laststate, 0)
    case LineFault => LineFault
    case Measured(c, _, p) =>
      match SizeCvt(line(p))
      case Exit => LineFault
      case Value(v) => Measured(c, v, p + 1)
  }

  /** The line reads `level` at every position in [from, to). */
  ghost predicate Holds(line: Line, from: nat, to: nat, level: int)
  {
    forall k :: from <= k < to ==> line(k) == level
  }

  /** The polling loop ends exactly at the first read that differs from
      `level` or when the count reaches 255, whichever comes first. */
  lemma {:induction false} PollStopsAtChangeOrCap(line: Line, pos: nat, level: Byte, counter: nat)
    requires counter < Cap
    ensures var m := Poll(line, pos, level, counter);
      m.Measured? ==>
        counter <= m.count <= Cap && m.level == level
        && Holds(line, pos, pos + (m.count - counter), level)
        && (m.count == Cap ==> m.next == pos + (Cap - counter))
        && (m.count < Cap ==>
              m.next == pos + (m.count - counter) + 1
              && 0 <= line(m.next - 1) <= 255 && line(m.next - 1) != level)
    decreases Cap - counter
  {
    var r := line(pos);
    if 0 <= r <= 255 && r == level && counter + 1 < Cap {
      PollStopsAtChangeOrCap(line, pos + 1, level, counter + 1);
      var m := Poll(line, pos + 1, level, counter + 1);
      assert Poll(line, pos, level, counter) == m;
      if m.Measured? {
        assert Holds(line, pos + 1, pos + 1 + (m.count - counter - 1), level);
      }
    }
  }

  /** The polling loop faults exactly when an out-of-range read comes before
      both a change of level and the cap. */
  lemma {:induction false} PollFaultsOnBadRead(line: Line, pos: nat, level: Byte, counter: nat)
    requires counter < Cap
    ensures Poll(line, pos, level, counter).LineFault?
      <==> exists k :: pos <= k < pos + (Cap - counter) && Holds(line, pos, k, level)
                       && !(0 <= line(k) <= 255)
    decreases Cap - counter
  {
    var r := line(pos);
    if 0 <= r <= 255 && r == level && counter + 1 < Cap {
      PollFaultsOnBadRead(line, pos + 1, level, counter + 1);
      assert Poll(line, pos, level, counter) == Poll(line, pos + 1, level, counter + 1);
      if Poll(line, pos + 1, level, counter + 1).LineFault? {
        var k :| pos + 1 <= k < pos + 1 + (Cap - counter - 1) && Holds(line, pos + 1, k, level)
                 && !(0 <= line(k) <= 255);
        assert Holds(line, pos, k, level);
      } else {
        forall k | pos <= k < pos + (Cap - counter) && Holds(line, pos, k, level)
          ensures 0 <= line(k) <= 255
        {
          if k > pos {
            assert Holds(line, pos + 1, k, level);
          }
        }
      }
    } else if !(0 <= r <= 255) {
      assert Holds(line, pos, pos, level);
    } else {
      forall k | pos <= k < pos + (Cap - counter) && Holds(line, pos, k, level)
        ensures 0 <= line(k) <= 255
      {
      }
    }
  }

  /** The pulse timer: counts the polls while the pin still reads
      `laststate`, then re-reads the pin. */
  method MeasurePulse(line: Line, pos: nat, laststate: Byte) returns (m: Measure)
    ensures m == Transition(line, pos, laststate)
  {
    var counter := 0;
    var p := pos;
    while true
      invariant counter < Cap
      invariant Poll(line, pos, laststate, 0) == Poll(line, p, laststate, counter)
      decreases Cap - counter
    {
      var read := SizeCvt(line(p));
      p := p + 1;
      if read.Exit? {
        return LineFault;
      }
      if read.v != laststate {
        break;
      }
      counter := counter + 1;
      if counter == Cap {
        break;
      }
    }
    assert Poll(line, pos, laststate, 0) == Measured(counter, laststate, p);
    var read := SizeCvt(line(p));
    if read.Exit? {
      return LineFault;
    }
    m := Measured(counter, read.v, p + 1);
  }
}
