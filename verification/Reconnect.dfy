/** The reconnect loop runNRI of internal/nri/plugin.go: exponential backoff, and giving up after two minutes. Times
    are in milliseconds. */
module Reconnect {
  import opened Options

  const BACKOFF_MIN: nat := 100
  const BACKOFF_MAX: nat := 2000
  const GIVE_UP: nat := 120_000
  const FIRST_SWEEP: nat := 300_000

  /**
   One round's circumstances: how late the timer before it fired, how long
   stub.Run then lasted, whether the runtime synchronised meanwhile, and whether
   the context is cancelled when Run returns or during the wait after it.
   */
  datatype Attempt = Attempt(lag: nat, duration: nat, synced: bool, cancelled: bool, cancelledWaiting: bool)

  /** The loop's variables; `waits` lists the waits since the last ready connection. */
  datatype Loop = Loop(now: nat, backoff: nat, failingSince: Option<nat>, waits: seq<nat>)

  datatype Outcome = Running(loop: Loop) | Stopped | GaveUp(at: nat, failingSince: nat)

  function Start(now: nat): Loop {
    Loop(now, BACKOFF_MIN, None, [])
  }

  function Min(a: nat, b: nat): nat {
    if a < b then a else b
  }

  /** One round: run, and on a failure reset, give up, or wait. */
  function Round(s: Loop, a: Attempt): Outcome {
    var failed := s.now + a.lag + a.duration;
    if a.cancelled then Stopped
    else
      var reset := a.synced || s.failingSince == None;
      var since := if reset then failed else s.failingSince.value;
      var backoff := if reset then BACKOFF_MIN else s.backoff;
      if failed - since > GIVE_UP then GaveUp(failed, since)
      else if a.cancelledWaiting then Stopped
      else Running(Loop(failed + backoff, Min(backoff * 2, BACKOFF_MAX), Some(since),
        (if reset then [] else s.waits) + [backoff]))
  }

  function Rounds(s: Loop, attempts: seq<Attempt>): Outcome
    decreases |attempts|
  {
    if attempts == [] then Running(s)
    else match Round(s, attempts[0])
      case Running(next) => Rounds(next, attempts[1..])
      case Stopped => Stopped
      case GaveUp(at, since) => GaveUp(at, since)
  }

  /** runNRI, through the given attempts. */
  method RunNRI(start: nat, attempts: seq<Attempt>) returns (outcome: Outcome)
    ensures outcome == Rounds(Start(start), attempts)
  {
    var now: nat, backoff: nat := start, BACKOFF_MIN;
    var failingSince: Option<nat> := None;
    var waits: seq<nat> := [];
    for k := 0 to |attempts|
      invariant Rounds(Loop(now, backoff, failingSince, waits), attempts[k..]) == Rounds(Start(start), attempts)
    {
      var a := attempts[k];
      assert attempts[k..][0] == a && attempts[k..][1..] == attempts[k + 1..];
      now := now + a.lag + a.duration;
      if a.cancelled {
        return Stopped;
      }
      if a.synced || failingSince.None? {
        failingSince, backoff, waits := Some(now), BACKOFF_MIN, [];
      }
      if now - failingSince.value > GIVE_UP {
        return GaveUp(now, failingSince.value);
      }
      if a.cancelledWaiting {
        return Stopped;
      }
      waits := waits + [backoff];
      now := now + backoff;
      backoff := Min(backoff * 2, BACKOFF_MAX);
    }
    assert attempts[|attempts|..] == [];
    outcome := Running(Loop(now, backoff, failingSince, waits));
  }

  // ----- the schedule of waits

  function Pow2(k: nat): nat {
    if k == 0 then 1 else 2 * Pow2(k - 1)
  }

  /** The k-th wait since the last ready connection, counted from 0. */
  function Wait(k: nat): nat {
    Min(BACKOFF_MIN * Pow2(k), BACKOFF_MAX)
  }

  function TotalWait(n: nat): nat {
    if n == 0 then 0 else TotalWait(n - 1) + Wait(n - 1)
  }

  lemma {:induction false} WaitValues(k: nat)
    ensures Pow2(k) >= 1
    ensures k >= 5 ==> Pow2(k) >= 32 && Wait(k) == BACKOFF_MAX
    ensures Wait(k + 1) == Min(Wait(k) * 2, BACKOFF_MAX)
  {
    if k > 0 {
      WaitValues(k - 1);
    }
    assert Pow2(k + 1) == 2 * Pow2(k);
  }

  lemma {:induction false} TotalWaitValues(n: nat)
    requires n >= 5
    ensures TotalWait(n) == 3100 + (n - 5) * BACKOFF_MAX
  {
    if n == 5 {
      assert Pow2(4) == 16;
      assert Wait(4) == 1600 && Wait(3) == 800 && Wait(2) == 400 && Wait(1) == 200 && Wait(0) == 100;
      assert TotalWait(2) == 300;
      assert TotalWait(4) == TotalWait(2) + 1200;
    } else {
      TotalWaitValues(n - 1);
      WaitValues(n - 1);
    }
  }

  /** After 64 waits two minutes are over; after 63 they need not be. */
  lemma WaitsAgainstGiveUp(n: nat)
    ensures n >= 64 ==> TotalWait(n) > GIVE_UP
    ensures n <= 63 ==> TotalWait(n) <= GIVE_UP
  {
    if n >= 5 {
      TotalWaitValues(n);
    } else {
      TotalWaitMonotone(n, 5);
      TotalWaitValues(5);
    }
  }

  /** What the loop's variables say: the waits follow the schedule, and time since the first failure covers them. */
  ghost predicate OnSchedule(s: Loop) {
    && s.backoff == Wait(|s.waits|)
    && (forall k :: 0 <= k < |s.waits| ==> s.waits[k] == Wait(k))
    && (s.failingSince.None? ==> s.waits == [])
    && |s.waits| <= 64
    && (s.failingSince.Some? ==>
          && s.waits != []
          && s.failingSince.value + TotalWait(|s.waits|) <= s.now <= s.failingSince.value + GIVE_UP + BACKOFF_MAX)
  }

  lemma RoundOnSchedule(s: Loop, a: Attempt)
    requires OnSchedule(s) && Round(s, a).Running?
    ensures OnSchedule(Round(s, a).loop)
  {
    var t := Round(s, a).loop;
    WaitValues(|t.waits| - 1);
    assert Wait(0) == 100;
    WaitsAgainstGiveUp(|s.waits|);
    assert TotalWait(|t.waits|) == TotalWait(|t.waits| - 1) + Wait(|t.waits| - 1);
  }

  lemma StartOnSchedule(now: nat)
    ensures OnSchedule(Start(now))
  {
    assert Wait(0) == 100;
  }

  // ----- giving up

  /** Attempts that neither synchronise nor are cancelled. */
  ghost predicate Failures(attempts: seq<Attempt>) {
    forall k :: 0 <= k < |attempts| ==> !attempts[k].synced && !attempts[k].cancelled && !attempts[k].cancelledWaiting
  }

  // ----- a run, told from its attempts alone

  /** The attempt whose end began the outage that attempt k is in: the last one that synchronised, or the first of
      all. */
  function OutageStart(attempts: seq<Attempt>, k: nat): (j: nat)
    requires k < |attempts|
    ensures j <= k && forall i :: j < i <= k ==> !attempts[i].synced
    ensures j == 0 || attempts[j].synced
  {
    if k == 0 || attempts[k].synced then k else OutageStart(attempts, k - 1)
  }

  /** The wait after attempt k: by the number of attempts that have failed since the outage began. */
  function WaitAfter(attempts: seq<Attempt>, k: nat): nat
    requires k < |attempts|
  {
    Wait(k - OutageStart(attempts, k))
  }

  /** When attempt k ends. */
  function EndOf(start: nat, attempts: seq<Attempt>, k: nat): nat
    requires k < |attempts|
  {
    (if k == 0 then start else EndOf(start, attempts, k - 1) + WaitAfter(attempts, k - 1))
      + attempts[k].lag + attempts[k].duration
  }

  /** At the end of attempt k the outage has lasted more than two minutes. */
  predicate TooLong(start: nat, attempts: seq<Attempt>, k: nat)
    requires k < |attempts|
  {
    EndOf(start, attempts, k) > EndOf(start, attempts, OutageStart(attempts, k)) + GIVE_UP
  }

  predicate GoesOn(start: nat, attempts: seq<Attempt>, k: nat)
    requires k < |attempts|
  {
    !attempts[k].cancelled && !attempts[k].cancelledWaiting && !TooLong(start, attempts, k)
  }

  /** The loop gives up at the end of attempt k. */
  predicate GivesUpAt(start: nat, attempts: seq<Attempt>, k: nat)
    requires k < |attempts|
  {
    (forall i :: 0 <= i < k ==> GoesOn(start, attempts, i)) && !attempts[k].cancelled && TooLong(start, attempts, k)
  }

  /** The waits of an outage so far: one for each attempt that has failed in it. */
  function Waits(n: nat): seq<nat> {
    seq(n, i requires i >= 0 => Wait(i))
  }

  /** The loop's variables after the first n attempts. */
  function LoopAfter(start: nat, attempts: seq<Attempt>, n: nat): Loop
    requires n <= |attempts|
  {
    if n == 0 then Start(start)
    else
      var j := OutageStart(attempts, n - 1);
      Loop(EndOf(start, attempts, n - 1) + WaitAfter(attempts, n - 1), Wait(n - j), Some(EndOf(start, attempts, j)),
        Waits(n - j))
  }

  lemma WaitsGrow(n: nat)
    ensures Waits(n + 1) == Waits(n) + [Wait(n)] && Waits(1) == [Wait(0)] && Wait(0) == BACKOFF_MIN
    ensures Wait(n + 1) == Min(Wait(n) * 2, BACKOFF_MAX)
  {
    WaitValues(n);
  }

  lemma RoundOf(start: nat, attempts: seq<Attempt>, k: nat)
    requires k < |attempts|
    ensures Round(LoopAfter(start, attempts, k), attempts[k])
         == if attempts[k].cancelled then Stopped
            else if TooLong(start, attempts, k) then
              GaveUp(EndOf(start, attempts, k), EndOf(start, attempts, OutageStart(attempts, k)))
            else if attempts[k].cancelledWaiting then Stopped
            else Running(LoopAfter(start, attempts, k + 1))
  {
    hide Wait, Waits, Min;
    var j := OutageStart(attempts, k);
    WaitsGrow(k - j);
    assert [] + [Wait(0)] == [Wait(0)];
  }

  /** Attempt k is the first after which the loop does not go on. */
  predicate EndsAt(start: nat, attempts: seq<Attempt>, k: nat)
    requires k < |attempts|
  {
    (forall i :: 0 <= i < k ==> GoesOn(start, attempts, i)) && !GoesOn(start, attempts, k)
  }

  function EndOutcome(start: nat, attempts: seq<Attempt>, k: nat): Outcome
    requires k < |attempts|
  {
    if attempts[k].cancelled || !TooLong(start, attempts, k) then Stopped
    else GaveUp(EndOf(start, attempts, k), EndOf(start, attempts, OutageStart(attempts, k)))
  }

  /** How a run ends that has come as far as attempt n. */
  lemma {:induction false} RoundsFrom(start: nat, attempts: seq<Attempt>, n: nat)
    requires n <= |attempts| && forall i :: 0 <= i < n ==> GoesOn(start, attempts, i)
    ensures var o := Rounds(LoopAfter(start, attempts, n), attempts[n..]);
            if o.Running? then
              && o.loop == LoopAfter(start, attempts, |attempts|)
              && forall i :: 0 <= i < |attempts| ==> GoesOn(start, attempts, i)
            else
              exists k :: 0 <= k < |attempts| && EndsAt(start, attempts, k) && o == EndOutcome(start, attempts, k)
    decreases |attempts| - n
  {
    hide TooLong, LoopAfter, Round, EndOf;
    if n < |attempts| {
      RoundOf(start, attempts, n);
      assert attempts[n..][0] == attempts[n] && attempts[n..][1..] == attempts[n + 1..];
      if GoesOn(start, attempts, n) {
        RoundsFrom(start, attempts, n + 1);
      } else {
        assert EndsAt(start, attempts, n);
      }
    }
  }

  lemma RunOf(start: nat, attempts: seq<Attempt>)
    ensures LoopAfter(start, attempts, 0) == Start(start) && attempts[0..] == attempts
  {
  }

  /**
   While the loop runs on, the waits since the last ready connection are one for
   each failure since, the k-th being min(100 ms * 2^k, 2 s) with k from 0; and
   the next attempt begins when the last of them is over.
   */
  lemma WaitsFollowSchedule(start: nat, attempts: seq<Attempt>)
    requires attempts != [] && Rounds(Start(start), attempts).Running?
    ensures var s := Rounds(Start(start), attempts).loop;
            var n := |attempts|;
            var j := OutageStart(attempts, n - 1);
            && |s.waits| == n - j && (forall k :: 0 <= k < n - j ==> s.waits[k] == Min(100 * Pow2(k), 2000))
            && s.now == EndOf(start, attempts, n - 1) + s.waits[n - 1 - j]
  {
    RunOf(start, attempts);
    RoundsFrom(start, attempts, 0);
  }

  /** A run ends at one attempt at most. */
  lemma OneEnd(start: nat, attempts: seq<Attempt>, j: nat, k: nat)
    requires j < |attempts| && k < |attempts| && EndsAt(start, attempts, j) && EndsAt(start, attempts, k)
    ensures j == k
  {
    hide GoesOn;
  }

  /**
   Giving up, exactly: the loop gives up at the end of an attempt if and only if
   it comes that far, is not cancelled by then, and more than two minutes have
   gone by since the end of the last attempt that synchronised, or of the first
   attempt if none did.
   */
  lemma GivesUpExactly(start: nat, attempts: seq<Attempt>)
    ensures Rounds(Start(start), attempts).GaveUp?
            <==> exists k :: 0 <= k < |attempts| && GivesUpAt(start, attempts, k)
    ensures forall k :: 0 <= k < |attempts| && GivesUpAt(start, attempts, k) ==>
              Rounds(Start(start), attempts) == GaveUp(EndOf(start, attempts, k),
                                                       EndOf(start, attempts, OutageStart(attempts, k)))
  {
    hide TooLong, EndOf, Rounds;
    RunOf(start, attempts);
    RoundsFrom(start, attempts, 0);
    var o := Rounds(Start(start), attempts);
    if o.GaveUp? {
      var k :| 0 <= k < |attempts| && EndsAt(start, attempts, k) && o == EndOutcome(start, attempts, k);
      assert GivesUpAt(start, attempts, k);
    }
    forall k | 0 <= k < |attempts| ensures GivesUpAt(start, attempts, k) ==> EndsAt(start, attempts, k) {}
    forall j, k | 0 <= j < |attempts| && 0 <= k < |attempts| && EndsAt(start, attempts, j) && EndsAt(start, attempts, k)
      ensures j == k
    {
      OneEnd(start, attempts, j, k);
    }
  }

  /** The loop never gives up within two minutes of the end of an attempt that synchronised, or of the first failure. */
  lemma NeverGivesUpEarly(start: nat, attempts: seq<Attempt>) returns (k: nat)
    requires Rounds(Start(start), attempts).GaveUp?
    ensures k < |attempts| && Rounds(Start(start), attempts).at == EndOf(start, attempts, k)
    ensures forall j :: 0 <= j <= k && (j == 0 || attempts[j].synced) ==>
              EndOf(start, attempts, k) > EndOf(start, attempts, j) + GIVE_UP
  {
    hide EndOf, Rounds;
    RunOf(start, attempts);
    RoundsFrom(start, attempts, 0);
    k :| 0 <= k < |attempts| && EndsAt(start, attempts, k)
      && Rounds(Start(start), attempts) == EndOutcome(start, attempts, k);
    var o := OutageStart(attempts, k);
    forall j | 0 <= j <= k && (j == 0 || attempts[j].synced)
      ensures EndOf(start, attempts, k) > EndOf(start, attempts, j) + GIVE_UP {
      EndsInOrder(start, attempts, j, o);
    }
  }

  lemma {:induction false} EndsInOrder(start: nat, attempts: seq<Attempt>, i: nat, j: nat)
    requires i <= j < |attempts|
    ensures EndOf(start, attempts, i) <= EndOf(start, attempts, j)
    decreases j
  {
    if i < j {
      EndsInOrder(start, attempts, i, j - 1);
    }
  }

  /**
   After a ready connection is lost, from any state of the loop: the waits start
   over, one per failure; two minutes are left; and 64 more failures in a row are
   enough to give up.
   */
  lemma AfterReadyConnection(s: Loop, a: Attempt, fails: seq<Attempt>)
    requires OnSchedule(s) && a.synced && !a.cancelled && !a.cancelledWaiting && Failures(fails)
    ensures var end := s.now + a.lag + a.duration;
            match Rounds(s, [a] + fails)
            case Running(t) => t.waits == Waits(1 + |fails|) && |fails| < 64
            case GaveUp(at, since) => since == end && at > end + GIVE_UP
            case Stopped => false
  {
    assert ([a] + fails)[1..] == fails;
    RoundOnSchedule(s, a);
    var t := Round(s, a).loop;
    assert Wait(0) == 100 && t.waits == Waits(1);
    FailuresAfter(t, fails);
  }

  lemma {:induction false} FailuresAfter(t: Loop, fails: seq<Attempt>)
    requires OnSchedule(t) && t.failingSince.Some? && t.waits == Waits(|t.waits|) && Failures(fails)
    ensures match Rounds(t, fails)
            case Running(u) => u.waits == Waits(|t.waits| + |fails|) && |u.waits| <= 64
            case GaveUp(at, since) => since == t.failingSince.value && at > since + GIVE_UP
            case Stopped => false
    decreases |fails|
  {
    if fails != [] {
      var a := fails[0];
      assert !a.synced && !a.cancelled && !a.cancelledWaiting;
      if Round(t, a).Running? {
        RoundOnSchedule(t, a);
        assert Waits(|t.waits| + 1) == Waits(|t.waits|) + [Wait(|t.waits|)];
        forall k | 0 <= k < |fails| - 1 ensures fails[1..][k] == fails[k + 1] {}
        FailuresAfter(Round(t, a).loop, fails[1..]);
      }
    }
  }

  /** The loop always gives up by the 65th consecutive failure: with n waits behind it, after at most 65 - n more. */
  lemma {:induction false} GivesUpBy65th(s: Loop, attempts: seq<Attempt>)
    requires OnSchedule(s) && Failures(attempts) && |s.waits| + |attempts| >= 65
    ensures Rounds(s, attempts).GaveUp?
    decreases |attempts|
  {
    var a := attempts[0];
    assert !a.synced && !a.cancelled && !a.cancelledWaiting;
    if Round(s, a).Running? {
      RoundOnSchedule(s, a);
      forall k | 0 <= k < |attempts| - 1 ensures attempts[1..][k] == attempts[k + 1] {}
      GivesUpBy65th(Round(s, a).loop, attempts[1..]);
    }
  }

  const INSTANT := Attempt(0, 0, false, false, false)

  /** And no earlier when every attempt fails at once: 64 such failures are survived. */
  lemma {:induction false} Survives64(s: Loop, n: nat)
    requires OnSchedule(s) && |s.waits| + n <= 64
    requires s.failingSince.Some? ==> s.now == s.failingSince.value + TotalWait(|s.waits|)
    ensures Rounds(s, seq(n, _ => INSTANT)).Running?
    decreases n
  {
    if n > 0 {
      var attempts := seq(n, _ => INSTANT);
      WaitsAgainstGiveUp(|s.waits|);
      assert Round(s, INSTANT).Running?;
      RoundOnSchedule(s, INSTANT);
      var t := Round(s, INSTANT).loop;
      assert Wait(0) == 100;
      assert TotalWait(|t.waits|) == TotalWait(|t.waits| - 1) + Wait(|t.waits| - 1);
      assert attempts[0] == INSTANT && attempts[1..] == seq(n - 1, _ => INSTANT);
      Survives64(t, n - 1);
    }
  }

  lemma {:induction false} TotalWaitMonotone(m: nat, n: nat)
    requires m <= n
    ensures TotalWait(m) <= TotalWait(n)
  {
    if m < n {
      TotalWaitMonotone(m, n - 1);
    }
  }

  /** Every timer and Run together take at most d. */
  ghost predicate Within(attempts: seq<Attempt>, d: nat) {
    forall k :: 0 <= k < |attempts| ==> attempts[k].lag + attempts[k].duration <= d
  }

  lemma {:induction false} GivesUpInTime(s: Loop, attempts: seq<Attempt>, d: nat)
    requires OnSchedule(s) && Failures(attempts) && Within(attempts, d) && Rounds(s, attempts).GaveUp?
    ensures var since := if s.failingSince.Some? then s.failingSince.value else s.now + d;
            Rounds(s, attempts).at <= since + GIVE_UP + BACKOFF_MAX + d
    decreases |attempts|
  {
    var a := attempts[0];
    assert !a.synced && !a.cancelled && !a.cancelledWaiting && a.lag + a.duration <= d;
    if Round(s, a).Running? {
      RoundOnSchedule(s, a);
      forall k | 0 <= k < |attempts| - 1 ensures attempts[1..][k] == attempts[k + 1] {}
      GivesUpInTime(Round(s, a).loop, attempts[1..], d);
    }
  }

  /**
   A process whose attempts all fail within 89 seconds exits before the orphan
   cleaner's first sweep, five minutes after its start: what the safety of the
   sweep asks of a process that never synchronises.
   */
  lemma ExitsBeforeFirstSweep(start: nat, attempts: seq<Attempt>, d: nat)
    requires Failures(attempts) && |attempts| >= 65 && Within(attempts, d) && d < 89_000
    ensures var o := Rounds(Start(start), attempts); o.GaveUp? && o.at < start + FIRST_SWEEP
  {
    StartOnSchedule(start);
    GivesUpBy65th(Start(start), attempts);
    GivesUpInTime(Start(start), attempts, d);
  }

  /**
   While it has not synchronised, a process whose attempts each synchronise or
   fail within 89 seconds is, whenever it begins another attempt, so early that
   this one too is decided before the first sweep.
   */
  lemma UnreadyIsShort(start: nat, attempts: seq<Attempt>, d: nat)
    requires Within(attempts, d) && d < 89_000 && forall k :: 0 <= k < |attempts| ==> !attempts[k].synced
    requires Rounds(Start(start), attempts).Running?
    ensures Rounds(Start(start), attempts).loop.now + d < start + FIRST_SWEEP
  {
    RunOf(start, attempts);
    RoundsFrom(start, attempts, 0);
    if attempts != [] {
      var k := |attempts| - 1;
      assert GoesOn(start, attempts, k) && OutageStart(attempts, k) == 0;
      assert EndOf(start, attempts, 0) <= start + d;
    }
  }

  /** From the start of a process: the 65th failure at the latest, and with instant failures not before. */
  lemma GivesUpAtThe65th(start: nat, attempts: seq<Attempt>)
    requires Failures(attempts) && |attempts| == 65
    ensures Rounds(Start(start), attempts).GaveUp?
    ensures Rounds(Start(start), seq(64, _ => INSTANT)).Running?
  {
    StartOnSchedule(start);
    GivesUpBy65th(Start(start), attempts);
    Survives64(Start(start), 64);
  }
}
