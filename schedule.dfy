/**
 * The session `readDHT22` runs, as a sequence of observable events: take
 * the lock file, then ten times retry an attempt, sleeping 1000 ms after
 * every rejected one, until it is accepted; finally release the lock.
 *
 * The retry loop of the source has no bound on failed attempts; here a
 * `fuel` count bounds the attempts the model follows, and running out of
 * it is the `OutOfFuel` end, which the program itself never reaches.
 */
module Schedule {
  import opened Frame
  import opened Pulse
  import opened Decoder

  /** Successful attempts a session waits for (the outer `for` loop). */
  const Readings := 10

  /** Milliseconds slept after a rejected attempt. */
  const Backoff := 1000

  /** What opening and locking the lock file did: success, a failed
      `open`, a lock held by another process, or another `flock` failure. */
  datatype Acquire = Acquired | OpenFailed | InUse | FlockFailed

  /** What releasing the lock did: success, a failed unlock, or a failed
      `close` after a successful unlock. */
  datatype Release = Released | UnlockFailed | CloseFailed

  datatype Event = LockOpened | Tried(outcome: Attempt) | Slept(ms: nat) | Unlocked | LockClosed

  /** How a session ends: normally, by a process exit, at a store past the
      end of the buffer (undefined behaviour), or where the fuel ran out. */
  datatype End = Completed | Exited | Undefined | OutOfFuel

  datatype Run = Run(events: seq<Event>, end: End)

  function Prepend(events: seq<Event>, r: Run): Run
  {
    Run(events + r.events, r.end)
  }

  /** The retry loops from attempt `next` on, with `remaining` successes
      still to collect and `fuel` attempts left; attempt k has the outcome
      outcomes(k). */
  function Retries(outcomes: nat -> Attempt, next: nat, remaining: nat, fuel: nat): (r: Run)
    ensures |r.events| <= 2 * fuel
    decreases fuel
  {
    if remaining == 0 then Run([], Completed)
    else if fuel == 0 then Run([], OutOfFuel)
    else
      var o := outcomes(next);
      match o
      case Fatal => Run([Tried(o)], Exited)
      case Overrun => Run([Tried(o)], Undefined)
      case Accepted(_) => Prepend([Tried(o)], Retries(outcomes, next + 1, remaining - 1, fuel - 1))
      case Rejected => Prepend([Tried(o), Slept(Backoff)], Retries(outcomes, next + 1, remaining, fuel - 1))
  }

  /** The whole of `readDHT22`: lock, retry loops, unlock and close, where
      attempt k has the outcome outcomes(k). */
  function Session(acquire: Acquire, release: Release, outcomes: nat -> Attempt, fuel: nat): (s: Run)
    ensures s.events == [] <==> acquire != Acquired
    ensures s.events != [] ==> s.events[0] == LockOpened
  {
    if acquire != Acquired then Run([], Exited)
    else
      var r := Retries(outcomes, 0, Readings, fuel);
      if r.end != Completed then Prepend([LockOpened], r)
      else if release == UnlockFailed then Run([LockOpened] + r.events, Exited)
      else if release == CloseFailed then Run([LockOpened] + r.events + [Unlocked], Exited)
      else Run([LockOpened] + r.events + [Unlocked, LockClosed], Completed)
  }

  lemma PrependTwice(a: seq<Event>, b: seq<Event>, r: Run)
    ensures Prepend(a, Prepend(b, r)) == Prepend(a + b, r)
  {
    assert a + (b + r.events) == (a + b) + r.events;
  }

  /** One attempt of the retry loops. */
  lemma RetriesStep(outcomes: nat -> Attempt, next: nat, remaining: nat, fuel: nat)
    requires remaining > 0 && fuel > 0
    ensures var o := outcomes(next);
      Retries(outcomes, next, remaining, fuel)
      == if o.Fatal? then Run([Tried(o)], Exited)
         else if o.Overrun? then Run([Tried(o)], Undefined)
         else if o.Accepted? then Prepend([Tried(o)], Retries(outcomes, next + 1, remaining - 1, fuel - 1))
         else Prepend([Tried(o), Slept(Backoff)], Retries(outcomes, next + 1, remaining, fuel - 1))
  {
  }

  predicate IsAttemptEvent(e: Event)
  {
    e.Tried? || e.Slept?
  }

  /** Number of accepted attempts among the events. */
  function Successes(events: seq<Event>): nat
  {
    if events == [] then 0
    else Successes(events[..|events| - 1])
         + (if events[|events| - 1].Tried? && events[|events| - 1].outcome.Accepted? then 1 else 0)
  }

  /** Number of attempts among the events. */
  function Attempts(events: seq<Event>): nat
  {
    if events == [] then 0
    else Attempts(events[..|events| - 1]) + (if events[|events| - 1].Tried? then 1 else 0)
  }

  lemma {:induction false} CountsOfConcat(a: seq<Event>, b: seq<Event>)
    ensures Successes(a + b) == Successes(a) + Successes(b)
    ensures Attempts(a + b) == Attempts(a) + Attempts(b)
    decreases |b|
  {
    if b != [] {
      var b' := b[..|b| - 1];
      assert (a + b)[..|a + b| - 1] == a + b';
      CountsOfConcat(a, b');
    } else {
      assert a + b == a;
    }
  }

  /** Counts of the events one attempt of the retry loops adds. */
  lemma CountsOfRound(o: Attempt)
    ensures Attempts([Tried(o)]) == 1 && Attempts([Tried(o), Slept(Backoff)]) == 1
    ensures Successes([Tried(o)]) == Successes([Tried(o), Slept(Backoff)]) == (if o.Accepted? then 1 else 0)
  {
    assert [Tried(o), Slept(Backoff)][..1] == [Tried(o)];
    assert [Tried(o)][..0] == [];
  }

  /** Events made of one round's events followed by attempts and sleeps
      only hold attempts and sleeps only. */
  lemma AttemptEventsConcat(first: seq<Event>, rest: seq<Event>)
    requires forall k :: 0 <= k < |first| ==> IsAttemptEvent(first[k])
    requires forall k :: 0 <= k < |rest| ==> IsAttemptEvent(rest[k])
    ensures forall k :: 0 <= k < |first + rest| ==> IsAttemptEvent((first + rest)[k])
  {
    forall k | 0 <= k < |first + rest|
      ensures IsAttemptEvent((first + rest)[k])
    {
      if k >= |first| {
        assert (first + rest)[k] == rest[k - |first|];
      }
    }
  }

  /** The retry loops produce attempts and sleeps only. */
  lemma {:induction false} RetriesOnlyAttempts(outcomes: nat -> Attempt, next: nat, remaining: nat, fuel: nat)
    ensures var ev := Retries(outcomes, next, remaining, fuel).events;
      forall k :: 0 <= k < |ev| ==> IsAttemptEvent(ev[k])
    decreases fuel
  {
    if remaining > 0 && fuel > 0 {
      var o := outcomes(next);
      RetriesStep(outcomes, next, remaining, fuel);
      if o.Accepted? {
        var rest := Retries(outcomes, next + 1, remaining - 1, fuel - 1);
        RetriesOnlyAttempts(outcomes, next + 1, remaining - 1, fuel - 1);
        AttemptEventsConcat([Tried(o)], rest.events);
      } else if o.Rejected? {
        var rest := Retries(outcomes, next + 1, remaining, fuel - 1);
        RetriesOnlyAttempts(outcomes, next + 1, remaining, fuel - 1);
        AttemptEventsConcat([Tried(o), Slept(Backoff)], rest.events);
      }
    }
  }

  /** The retry loops make at most `fuel` attempts. */
  lemma {:induction false} RetriesWithinFuel(outcomes: nat -> Attempt, next: nat, remaining: nat, fuel: nat)
    ensures Attempts(Retries(outcomes, next, remaining, fuel).events) <= fuel
    decreases fuel
  {
    var r := Retries(outcomes, next, remaining, fuel);
    if remaining > 0 && fuel > 0 {
      var o := outcomes(next);
      RetriesStep(outcomes, next, remaining, fuel);
      CountsOfRound(o);
      if o.Accepted? {
        var rest := Retries(outcomes, next + 1, remaining - 1, fuel - 1);
        RetriesWithinFuel(outcomes, next + 1, remaining - 1, fuel - 1);
        assert r.events == [Tried(o)] + rest.events;
        CountsOfConcat([Tried(o)], rest.events);
      } else if o.Rejected? {
        var rest := Retries(outcomes, next + 1, remaining, fuel - 1);
        RetriesWithinFuel(outcomes, next + 1, remaining, fuel - 1);
        assert r.events == [Tried(o), Slept(Backoff)] + rest.events;
        CountsOfConcat([Tried(o), Slept(Backoff)], rest.events);
      } else {
        assert r.events == [Tried(o)];
      }
    }
  }


  /** The retry loops end normally only after `remaining` accepted attempts. */
  lemma {:induction false} RetriesCompleteAfterSuccesses(outcomes: nat -> Attempt, next: nat, remaining: nat, fuel: nat)
    ensures var r := Retries(outcomes, next, remaining, fuel);
      r.end == Completed ==> Successes(r.events) == remaining
    decreases fuel
  {
    var r := Retries(outcomes, next, remaining, fuel);
    if r.end == Completed && remaining > 0 {
      var o := outcomes(next);
      RetriesStep(outcomes, next, remaining, fuel);
      CountsOfRound(o);
      if o.Accepted? {
        var rest := Retries(outcomes, next + 1, remaining - 1, fuel - 1);
        RetriesCompleteAfterSuccesses(outcomes, next + 1, remaining - 1, fuel - 1);
        assert r.events == [Tried(o)] + rest.events;
        CountsOfConcat([Tried(o)], rest.events);
      } else {
        var rest := Retries(outcomes, next + 1, remaining, fuel - 1);
        RetriesCompleteAfterSuccesses(outcomes, next + 1, remaining, fuel - 1);
        assert r.events == [Tried(o), Slept(Backoff)] + rest.events;
        CountsOfConcat([Tried(o), Slept(Backoff)], rest.events);
      }
    }
  }


  /** A normal end of the retry loops comes right after an accepted attempt. */
  lemma {:induction false} RetriesCompleteOnAcceptance(outcomes: nat -> Attempt, next: nat, remaining: nat, fuel: nat)
    requires remaining > 0
    ensures var r := Retries(outcomes, next, remaining, fuel);
      r.end == Completed ==>
        r.events != [] && r.events[|r.events| - 1].Tried? && r.events[|r.events| - 1].outcome.Accepted?
    decreases fuel
  {
    if fuel > 0 {
      var o := outcomes(next);
      RetriesStep(outcomes, next, remaining, fuel);
      if o.Accepted? && remaining > 1 {
        RetriesCompleteOnAcceptance(outcomes, next + 1, remaining - 1, fuel - 1);
      } else if o.Rejected? {
        RetriesCompleteOnAcceptance(outcomes, next + 1, remaining, fuel - 1);
      }
    }
  }

  /** Every rejected attempt is followed at once by a 1000 ms sleep, and
      every sleep directly follows a rejected attempt. */
  predicate BacksOff(ev: seq<Event>)
  {
    (forall k :: 0 <= k < |ev| && ev[k] == Tried(Rejected) ==> k + 1 < |ev| && ev[k + 1] == Slept(Backoff))
    && (forall k :: 0 < k < |ev| && ev[k].Slept? ==> ev[k - 1] == Tried(Rejected) && ev[k].ms == Backoff)
    && (|ev| > 0 ==> !ev[0].Slept?)
  }

  lemma BacksOffPrepend(first: seq<Event>, rest: seq<Event>)
    requires BacksOff(rest)
    requires first == [Tried(Rejected), Slept(Backoff)]
          || (|first| == 1 && first[0].Tried? && first[0] != Tried(Rejected))
    ensures BacksOff(first + rest)
  {
    var ev := first + rest;
    var n := |first|;
    forall k | 0 <= k < |ev| && ev[k] == Tried(Rejected)
      ensures k + 1 < |ev| && ev[k + 1] == Slept(Backoff)
    {
      if k >= n {
        assert rest[k - n] == Tried(Rejected);
      }
    }
    forall k | 0 < k < |ev| && ev[k].Slept?
      ensures ev[k - 1] == Tried(Rejected) && ev[k].ms == Backoff
    {
      if k > n {
        assert rest[k - n].Slept?;
      }
    }
  }

  lemma {:induction false} BackoffAfterEveryRejection(outcomes: nat -> Attempt, next: nat, remaining: nat, fuel: nat)
    ensures BacksOff(Retries(outcomes, next, remaining, fuel).events)
    decreases fuel
  {
    if remaining > 0 && fuel > 0 {
      var o := outcomes(next);
      match o
      case Fatal =>
      case Overrun =>
      case Accepted(_) =>
        BackoffAfterEveryRejection(outcomes, next + 1, remaining - 1, fuel - 1);
        var rest := Retries(outcomes, next + 1, remaining - 1, fuel - 1).events;
        BacksOffPrepend([Tried(o)], rest);
      case Rejected =>
        BackoffAfterEveryRejection(outcomes, next + 1, remaining, fuel - 1);
        var rest := Retries(outcomes, next + 1, remaining, fuel - 1).events;
        BacksOffPrepend([Tried(o), Slept(Backoff)], rest);
    }
  }

  /** n rounds of a rejected attempt followed by its back-off sleep. */
  function RejectedRounds(n: nat): (ev: seq<Event>)
    ensures |ev| == 2 * n
  {
    if n == 0 then [] else [Tried(Rejected), Slept(Backoff)] + RejectedRounds(n - 1)
  }

  /** When every attempt is rejected, the loops spend all their fuel on
      attempts, each followed by its sleep, and never finish: the loop has
      no limit of its own on failed attempts. */
  lemma {:induction false} NeverAcceptedNeverFinishes(outcomes: nat -> Attempt, next: nat, remaining: nat, fuel: nat)
    requires remaining > 0
    requires forall k :: next <= k ==> outcomes(k) == Rejected
    ensures Retries(outcomes, next, remaining, fuel) == Run(RejectedRounds(fuel), OutOfFuel)
    decreases fuel
  {
    if fuel > 0 {
      assert outcomes(next) == Rejected;
      NeverAcceptedNeverFinishes(outcomes, next + 1, remaining, fuel - 1);
    }
  }

  /** A lock that cannot be taken (in use, or an I/O failure) ends the
      session at once: no attempt, no sleep. */
  lemma LockFailureExitsAtOnce(acquire: Acquire, release: Release, outcomes: nat -> Attempt, fuel: nat)
    requires acquire != Acquired
    ensures Session(acquire, release, outcomes, fuel) == Run([], Exited)
  {
  }

  /** The events of a session that took the lock: the lock, the retry
      loops, then whatever of the unlock and the close succeeded. */
  lemma SessionEvents(release: Release, outcomes: nat -> Attempt, fuel: nat)
    ensures var r := Retries(outcomes, 0, Readings, fuel);
      Session(Acquired, release, outcomes, fuel).events
      == [LockOpened] + r.events
         + (if r.end != Completed || release == UnlockFailed then []
            else if release == CloseFailed then [Unlocked]
            else [Unlocked, LockClosed])
  {
  }

  /** The lock is taken before the first attempt, and released only after
      the last one. */
  lemma LockBracketsAttempts(acquire: Acquire, release: Release, outcomes: nat -> Attempt, fuel: nat)
    requires acquire == Acquired
    ensures var ev := Session(acquire, release, outcomes, fuel).events;
      |ev| > 0 && ev[0] == LockOpened
      && (forall k :: 0 <= k < |ev| && IsAttemptEvent(ev[k]) ==> 0 < k)
      && (forall k, u :: 0 <= k < |ev| && 0 <= u < |ev| && IsAttemptEvent(ev[k]) && !IsAttemptEvent(ev[u]) && u > 0 ==> k < u)
  {
    var r := Retries(outcomes, 0, Readings, fuel);
    RetriesOnlyAttempts(outcomes, 0, Readings, fuel);
    SessionEvents(release, outcomes, fuel);
  }

  /** A session ends normally only after ten accepted attempts, a
      successful unlock and a successful close, in that order. */
  lemma CompletedSessionReleasesLock(acquire: Acquire, release: Release, outcomes: nat -> Attempt, fuel: nat)
    ensures var s := Session(acquire, release, outcomes, fuel);
      s.end == Completed ==>
        acquire == Acquired && release == Released && Successes(s.events) == Readings
        && s.events[|s.events| - 2..] == [Unlocked, LockClosed]
  {
    var s := Session(acquire, release, outcomes, fuel);
    if s.end == Completed {
      var r := Retries(outcomes, 0, Readings, fuel);
      RetriesCompleteAfterSuccesses(outcomes, 0, Readings, fuel);
      SessionEvents(release, outcomes, fuel);
      CountsOfConcat([LockOpened], r.events);
      CountsOfConcat([LockOpened] + r.events, [Unlocked, LockClosed]);
      assert Successes([Unlocked, LockClosed]) == 0 by {
        assert [Unlocked, LockClosed][..1] == [Unlocked];
        assert [Unlocked][..0] == [];
      }
      assert Successes([LockOpened]) == 0 by {
        assert [LockOpened][..0] == [];
      }
    }
  }
}
