# DHT22 decoder of the Raspberry Pi weather station

This project models `lol_dht22/dht22.c`, the program that reads a DHT22
(AM2302) humidity and temperature sensor on a Raspberry Pi, and proves
properties of the model in Dafny. It covers three parts of that file:

- `sizecvt` checks that a pin read is in 0..255.
- `read_dht22_dat` makes one acquisition attempt:
  - It zeroes the five-byte buffer `dht22_dat`.
  - It times up to 85 level transitions of the data pin, polling at most
    255 times per transition.
  - Every even transition from 4 on gives one bit: 1 when its poll count
    exceeds 16. The bit is shifted into byte `j / 8`.
  - The frame is accepted when at least 40 bits arrived and byte 4 is the
    low byte of the sum of bytes 0..3. The humidity and temperature are
    then computed.
- `readDHT22` takes a lock file, then collects ten accepted attempts. It
  sleeps 1000 ms after every rejected attempt, and finally releases the
  lock.

The files:

- `frame.dfy` (module `Frame`) covers the bit-to-byte packing, the C
  bitwise operators the decoder uses (`& 0xFF`, `& 0x7F`, `& 0x80`), the
  checksum and the decoding of a frame.
- `pulse.dfy` (module `Pulse`) covers `sizecvt` and the pulse timer of one
  transition.
- `decoder.dfy` (module `Decoder`) covers what one attempt computes, as
  functions of the line (`ScanLine`, `Bits`, `AttemptOf`), and the
  properties of those functions.
- `schedule.dfy` (module `Schedule`) covers the session of `readDHT22` as a
  sequence of events: lock, attempts, sleeps, unlock and close.
- `dht22.dfy` (module `Dht22`) is the imperative code. It has a `Sensor`
  class with the buffer as an `array<int>`, the fields `h` and `t`, and the
  lock. Its methods are proved against the functions above.

The pin is a parameter: a `Line` gives the value of the k-th
`digitalRead` of one attempt. Attempt k of a session reads `lines(k)`.

The code's behaviour differs from its own comments in two places, and the
model follows the code:

- The comment at line 86 says the first 3 transitions are ignored. The code
  ignores transitions 0 to 3, so the first data bit comes from transition 4
  (`IsDataSlot`, `BitsFromEvenTransitions`).
- The comment at line 133 says the loop stops if no value is found in
  10 seconds. The inner loop has no bound on rejected attempts
  (`NeverAcceptedNeverFinishes`).

The code also has an unguarded case. When all 85 transitions end below
255 polls, transition 84 is a 41st data bit, stored into `dht22_dat[5]`,
past the end of the buffer. The model makes that store the outcome
`Overrun`, and a session ends there as `Undefined`
(`OverrunExactlyWithoutStall`).

## Model

| member | source | states |
|---|---|---|
| Pulse.SizeCvt | lol_dht22/dht22.c:39-52 | a read passes through unchanged exactly when it is in 0..255; any other read exits the process |
| Pulse.Poll | lol_dht22/dht22.c:74-81 | reference definition of the polling loop: reads equal to the level count one poll each, a different read or the 255th poll ends it, an out-of-range read exits; a measured count lies between the starting count and 255, keeps the level, and consumes at least one read |
| Pulse.Transition | lol_dht22/dht22.c:74-82 | reference definition of one transition: the polling loop, then one more read that becomes the next level; a measured count is at most 255 and the transition consumes at least two reads |
| Pulse.PollStopsAtChangeOrCap | lol_dht22/dht22.c:74-81 | the polling loop counts reads equal to the last level and stops at the first different read or at 255 polls; the count, the reads it consumed and the stopping read are pinned down |
| Pulse.PollFaultsOnBadRead | lol_dht22/dht22.c:75 | the polling loop exits the process exactly when an out-of-range read comes before both a change of level and the cap |
| Pulse.MeasurePulse | lol_dht22/dht22.c:74-82 | the loop that counts polls, and the re-read that gives the next level, compute the transition the specification function `Transition` describes |
| Decoder.TransitionFaultsOnBadRead | lol_dht22/dht22.c:75-82 | a transition exits the process exactly when an out-of-range read comes in its polling loop before a change of level and the cap, or at the re-read of the pin after the loop |
| Decoder.ScanFrom | lol_dht22/dht22.c:73-94 | reference definition of the transition loop from a given transition on: a fault exits, a count of 255 ends the loop, and the loop stops after 85 transitions; a completed scan never has fewer counts than it started with, nor more than 85 |
| Decoder.ScanLine | lol_dht22/dht22.c:56-94 | the transition loop of one attempt, starting on HIGH at the first read; a completed scan has between 1 and 85 counts |
| Decoder.Bits | lol_dht22/dht22.c:84-92 | reference definition of the bits the loop shifts in: one per even transition from 4 on that ended below 255 polls, 1 iff its count exceeds 16; never more bits than transitions |
| Decoder.AttemptOf | lol_dht22/dht22.c:54-115 | reference definition of one attempt: it exits exactly when the scan faults, stores past the buffer on a 41st bit, and otherwise accepts or rejects a scan of at most 40 bits by the packed buffer |
| Decoder.ScanIsWellScanned | lol_dht22/dht22.c:73-84 | the transition loop measures at most 85 transitions, no count is above 255, only the last count may be 255, and fewer than 85 transitions means the last one hit the cap |
| Decoder.BitsCount | lol_dht22/dht22.c:86-93 | without a capped transition, n transitions give one bit per even transition from 4 on |
| Decoder.BitsFromEvenTransitions | lol_dht22/dht22.c:86-92 | bit m comes from transition 4 + 2m, and it is 1 exactly when that poll count exceeds 16 |
| Decoder.BitsCollected | lol_dht22/dht22.c:73-94 | a scan records one bit per data transition that delivered a count, so at most 41 bits |
| Decoder.OverrunExactlyWithoutStall | lol_dht22/dht22.c:87-92 | an attempt stores past the end of the buffer exactly when all 85 transitions end below 255 polls |
| Decoder.AcceptedOnlyAfterFortyBits | lol_dht22/dht22.c:98 | an accepted frame comes from a scan that stopped at the cap at transition 83 or 84, after exactly 40 bits |
| Decoder.EarlyStallRejected | lol_dht22/dht22.c:98 | a line that hits the cap by transition 82 is rejected |
| Decoder.AcceptedReadingFromPulses | lol_dht22/dht22.c:73-105 | an accepted reading is the decoding of a frame whose checksum holds and whose 40 bits are the classified counts of transitions 4, 6, .., 82 |
| Decoder.OverrunStep | lol_dht22/dht22.c:87-91 | a data bit after 40 bits can only come from transition 84, and it ends the scan with 41 bits |
| Frame.ByteOfSnoc | lol_dht22/dht22.c:89-91 | a new bit changes only byte `j / 8` of the buffer |
| Frame.Pack | lol_dht22/dht22.c:89-91 | reference definition of the buffer after the bits were shifted into the zeroed `dht22_dat`: bit m goes into byte m / 8, most significant first; every byte is in 0..255 |
| Frame.PackSnoc | lol_dht22/dht22.c:89-91 | shifting bit j into byte j / 8 of a buffer holding the earlier bits gives the buffer holding all of them |
| Frame.PackEmpty | lol_dht22/dht22.c:60 | the zeroed buffer holds no bits |
| Frame.PackHoldsChunks | lol_dht22/dht22.c:89-92 | after 40 bits, byte k holds bits 8k .. 8k+7, most significant first |
| Frame.UnpackPack | lol_dht22/dht22.c:89-92 | 40 packed bits can be read back unchanged |
| Frame.PackUnpack | lol_dht22/dht22.c:89-92 | every five-byte frame is the packing of its own 40 bits |
| Frame.ToBitsValue | lol_dht22/dht22.c:89-91 | the 8 low bits of a byte, shifted in one by one, give the byte back |
| Frame.BitsValueToBits | lol_dht22/dht22.c:89-91 | a bit string is the binary expansion of the value its shifts build |
| Frame.AndLowMask | lol_dht22/dht22.c:99 | masking with 2^n - 1 keeps the remainder modulo 2^n |
| Frame.AndSingleBit | lol_dht22/dht22.c:105 | masking with 2^n is non-zero exactly when bit n is set |
| Frame.And | lol_dht22/dht22.c:99-105 | reference definition of C's `&` on non-negative integers, bit by bit; the result is at most either operand |
| Frame.LowByte | lol_dht22/dht22.c:99 | `sum & 0xFF` is the sum modulo 256 |
| Frame.LowSeven | lol_dht22/dht22.c:103 | `b & 0x7F` is b modulo 128 |
| Frame.SignSet | lol_dht22/dht22.c:105 | `(b & 0x80) != 0` holds exactly for b >= 128 |
| Frame.Checksum | lol_dht22/dht22.c:99 | the value byte 4 must carry: it differs from the sum of bytes 0..3 by a multiple of 256 |
| Frame.Accepts | lol_dht22/dht22.c:98-99 | the acceptance test holds exactly when at least 40 bits arrived and byte 4 agrees with the sum of bytes 0..3 modulo 256 |
| Frame.Decode | lol_dht22/dht22.c:101-105 | reference definition of the reading of a frame, humidity then temperature; every decoded reading is representable (humidity in 0..65535, temperature strictly between -32768 and 32768) |
| Frame.Humidity | lol_dht22/dht22.c:101 | humidity is bytes 0 and 1 read big-endian, in 0..65535 tenths |
| Frame.Temperature | lol_dht22/dht22.c:103-105 | the magnitude is 15 bits from bytes 2 and 3, and the value is negative only when bit 7 of byte 2 is set |
| Frame.Encode | lol_dht22/dht22.c:98-105 | the frame a sensor sends for a reading is a valid five-byte frame whose checksum holds |
| Frame.DecodeEncode | lol_dht22/dht22.c:101-105 | decoding the frame sent for any representable reading gives that reading back |
| Frame.EncodeDecode | lol_dht22/dht22.c:98-105 | every frame that passes the checksum is the encoding of its decoding, except the "negative zero" frame 0x80 0x00 |
| Frame.SingleByteChangeDetected | lol_dht22/dht22.c:98-99 | changing any single byte of a frame that passes the checksum makes the checksum fail |
| Schedule.Retries | lol_dht22/dht22.c:132-138 | reference definition of the retry loops: an exit ends the session, an accepted attempt moves to the next reading, a rejected one sleeps 1000 ms and retries; at most two events per unit of fuel |
| Schedule.Session | lol_dht22/dht22.c:117-143 | reference definition of `readDHT22`: lock, retry loops, unlock and close, each failure ending the process; it has events exactly when the lock was taken, and then the first one is taking the lock |
| Schedule.RetriesOnlyAttempts | lol_dht22/dht22.c:133-138 | the retry loops produce only attempts and sleeps |
| Schedule.RetriesWithinFuel | lol_dht22/dht22.c:133-138 | a property of the attempt bound, not of the source: the modelled loops make at most `fuel` attempts, the bound that stands in for the unbounded `while` |
| Schedule.RetriesCompleteAfterSuccesses | lol_dht22/dht22.c:133-138 | the retry loops end normally only after the required number of accepted attempts |
| Schedule.RetriesCompleteOnAcceptance | lol_dht22/dht22.c:134 | a normal end of the retry loops follows directly after an accepted attempt |
| Schedule.BacksOffPrepend | lol_dht22/dht22.c:134-137 | one more round of the loop keeps every rejection followed by its sleep |
| Schedule.BackoffAfterEveryRejection | lol_dht22/dht22.c:134-137 | every rejected attempt is followed at once by a 1000 ms sleep, and every sleep follows a rejected attempt |
| Schedule.NeverAcceptedNeverFinishes | lol_dht22/dht22.c:133-137 | when every attempt is rejected, the loops spend all attempts as reject-and-sleep rounds and never finish |
| Schedule.LockBracketsAttempts | lol_dht22/dht22.c:117-143 | the lock is taken before the first attempt, and no unlock or close comes before an attempt |
| Schedule.CompletedSessionReleasesLock | lol_dht22/dht22.c:133-142 | a normal end needs the lock, ten accepted attempts, then a successful unlock and close |
| Dht22.Sensor.constructor | lol_dht22/dht22.c:21-23 | the buffer starts zeroed, with no reading and no lock |
| Dht22.Sensor.ReadDht22Dat | lol_dht22/dht22.c:54-115 | one attempt returns the outcome `AttemptOf` gives for the line; h and t change only on an accepted frame, and then hold its reading |
| Dht22.Sensor.ReceiveBits | lol_dht22/dht22.c:73-94 | the transition loop ends at a faulty read, at a store past the buffer, or with the buffer holding the packed bits of the scan |
| Dht22.Sensor.ShiftIn | lol_dht22/dht22.c:89-92 | shifting the next bit leaves the buffer holding the packing of one bit more |
| Dht22.Sensor.ShiftByte | lol_dht22/dht22.c:89-91 | shifting left and then setting the low bit turns byte k into twice its value plus the bit, and changes no other byte |
| Dht22.Sensor.CheckAndAssemble | lol_dht22/dht22.c:96-114 | the buffer is accepted exactly when 40 bits arrived and the checksum holds; then h and t are its decoded humidity and temperature |
| Dht22.Sensor.TryAttempt | lol_dht22/dht22.c:134 | attempt k of a session has the outcome of the k-th line |
| Dht22.Sensor.ReadUntilAccepted | lol_dht22/dht22.c:134-137 | the inner loop produces the events of the retry loops up to the first accepted attempt, or all of them when the session ends first |
| Dht22.Sensor.CollectReadings | lol_dht22/dht22.c:132-138 | the outer loop produces exactly the events of the retry loops, and a normal end leaves h and t holding the last accepted reading |
| Dht22.Sensor.ReadDht22 | lol_dht22/dht22.c:117-143 | the session's end and the events appended to the trace are those of `Session`; the lock is held afterwards exactly when it was taken and not unlocked |

## Left out

- wiringPi's setup, `pinMode`, `digitalWrite` and the delays of the start
  signal (lines 62-70) are left out. They only drive the pin. The pin's
  reads are the `Line` parameter.
- `delayMicroseconds(1)` between polls is left out. Time is not modelled.
  Only the number of polls counts.
- `wiringPiSetup` failing and `setuid` failing (lines 123-130) are left out.
  Both exit the process after the lock was taken, and the model does not
  include them among the session's ends.
- Floating point is left out. `h` and `t` are kept as integers in tenths.
  The source divides by 10 in `float`, and negating a zero temperature
  gives -0.0 there but 0 here.
- The `DEBUG` logging (`mydebug`) is left out because it is output only.
- `weather-station.c` is not part of this model.
- The internals of `open_lockfile` and `close_lockfile` in
  `lol_dht22/locking.c` are left out. Their results are the `Acquire` and
  `Release` parameters, which name each way they can fail.
- Dht22.Sensor.ReadDht22: the retry loops are followed for at most `fuel`
  attempts. Running out is the `OutOfFuel` end, which the program itself
  never reaches.
- Dht22.Sensor.ReadDht22: each attempt's outcome is also given as a ghost
  function `outcomes`, equal to `AttemptOf` of that attempt's line. This
  keeps the proof small and adds no assumption.
- Dht22.Sensor.ReadDht22: `trace` is a ghost record of events, not state
  of the program.
- The store into `dht22_dat[5]` is undefined behaviour in C. The model
  does not guess its effect: the attempt ends as `Overrun` and the session
  as `Undefined`.
- `read_dht22_dat(1)` passes an argument that the function ignores. The
  model's attempt takes no argument.
