/**
 The namespace label lookup of internal/nri/namespace.go: retries inside a time
 budget, and a cache of labels. Times are in milliseconds.
 */
module NsLookup {
  import opened Options

  type Labels = map<string, string>

  const BUDGET: nat := 1200
  const ATTEMPT_TIMEOUT: nat := 300
  const RETRY_DELAY: nat := 100
  const TTL: nat := 60_000
  const MAX_ATTEMPTS: nat := 10

  datatype LookupError = Unauthorized | Failure | ContextDone

  datatype Answer<+T> = Got(value: T) | Error(error: LookupError)

  /** How an attempt would end if nothing cut it short, and how late the timer of the wait after it fires. */
  datatype Try = Try(duration: nat, answer: Answer<Labels>, lag: nat)

  /** When an attempt begun at `now` is cut off: by its own timeout or by the caller's deadline. */
  function CutOff(now: nat, caller: Option<nat>): nat {
    Earlier(now + ATTEMPT_TIMEOUT, caller)
  }

  function Earlier(t: nat, limit: Option<nat>): nat {
    if limit.Some? && limit.value < t then limit.value else t
  }

  /** fetchLabels under its attempt context; one begun after the caller's deadline fails at once. */
  function Attempted(now: nat, caller: Option<nat>, t: Try): (nat, Answer<Labels>) {
    if caller.Some? && caller.value < now then (now, Error(Failure))
    else if now + t.duration <= CutOff(now, caller) then (now + t.duration, t.answer)
    else (CutOff(now, caller), Error(Failure))
  }

  /** A finished lookup: when it returned, after how many attempts, and with what. */
  datatype Done = Done(at: nat, attempts: nat, answer: Answer<Labels>)

  /** The loop of fetchLabelsWithRetry from its n-th attempt on; it has no bound on attempts, only the deadline. */
  function Fetch(now: nat, n: nat, deadline: nat, caller: Option<nat>, tries: nat -> Try): Done
    decreases deadline as int - now
  {
    var (end, answer) := Attempted(now, caller, tries(n));
    if answer.Got? || answer.error.Unauthorized? then Done(end, n, answer)
    else if end + RETRY_DELAY + ATTEMPT_TIMEOUT > deadline then Done(end, n, answer)
    else
      var timer := end + RETRY_DELAY + tries(n).lag;
      if caller.Some? && caller.value < timer then Done(caller.value, n, Error(ContextDone))
      else Fetch(timer, n + 1, deadline, caller, tries)
  }

  function Lookup(start: nat, caller: Option<nat>, tries: nat -> Try): Done {
    Fetch(start, 1, Earlier(start + BUDGET, caller), caller, tries)
  }

  // ----- what a lookup answers, told from the attempts alone

  /** When attempt i begins, if it is made: 100 ms and the timer's lag after the one before it is over. */
  function BeginOf(start: nat, caller: Option<nat>, tries: nat -> Try, i: nat): nat
    decreases i, 0
  {
    if i <= 1 then start else OverAt(start, caller, tries, i - 1) + 100 + tries(i - 1).lag
  }

  /** Attempt i is answered: within 300 ms, and before the caller's deadline. */
  predicate InTime(start: nat, caller: Option<nat>, tries: nat -> Try, i: nat)
    decreases i, 1
  {
    && tries(i).duration <= 300
    && (caller.Some? ==> BeginOf(start, caller, tries, i) + tries(i).duration <= caller.value)
  }

  /** When attempt i is over: with its answer, or when it is given up. */
  function OverAt(start: nat, caller: Option<nat>, tries: nat -> Try, i: nat): nat
    decreases i, 2
  {
    var begin := BeginOf(start, caller, tries, i);
    if InTime(start, caller, tries, i) then begin + tries(i).duration
    else if caller.None? || begin + 300 <= caller.value then begin + 300
    else if begin <= caller.value then caller.value
    else begin
  }

  predicate Answers(start: nat, caller: Option<nat>, tries: nat -> Try, i: nat) {
    InTime(start, caller, tries, i) && tries(i).answer.Got?
  }

  /** Attempt i is refused with a 401. */
  predicate Denied(start: nat, caller: Option<nat>, tries: nat -> Try, i: nat) {
    InTime(start, caller, tries, i) && tries(i).answer == Error(Unauthorized)
  }

  /** After attempt i a whole further attempt fits the budget and the caller's deadline. */
  predicate HasRoom(start: nat, caller: Option<nat>, tries: nat -> Try, i: nat) {
    var next := OverAt(start, caller, tries, i) + 100;
    next + 300 <= start + 1200 && (caller.Some? ==> next + 300 <= caller.value)
  }

  /** The wait after attempt i ends before the caller's deadline. */
  predicate WaitEnds(start: nat, caller: Option<nat>, tries: nat -> Try, i: nat) {
    caller.Some? ==> OverAt(start, caller, tries, i) + 100 + tries(i).lag <= caller.value
  }

  predicate Retried(start: nat, caller: Option<nat>, tries: nat -> Try, i: nat) {
    && !Answers(start, caller, tries, i) && !Denied(start, caller, tries, i)
    && HasRoom(start, caller, tries, i) && WaitEnds(start, caller, tries, i)
  }

  /** Attempt i is made: none before it brings labels, is refused, or leaves no room for another. */
  ghost predicate Made(start: nat, caller: Option<nat>, tries: nat -> Try, i: nat) {
    i >= 1 && forall j :: 1 <= j < i ==> Retried(start, caller, tries, j)
  }

  /** How a lookup ends whose last attempt is the n-th. */
  function EndsWith(start: nat, caller: Option<nat>, tries: nat -> Try, n: nat): Done {
    var over := OverAt(start, caller, tries, n);
    if Answers(start, caller, tries, n) || Denied(start, caller, tries, n) then Done(over, n, tries(n).answer)
    else if !HasRoom(start, caller, tries, n) then
      Done(over, n, if InTime(start, caller, tries, n) then tries(n).answer else Error(Failure))
    else Done(if caller.Some? then caller.value else over, n, Error(ContextDone))
  }

  lemma AttemptEnds(start: nat, caller: Option<nat>, tries: nat -> Try, n: nat)
    ensures var now := BeginOf(start, caller, tries, n);
            Attempted(now, caller, tries(n))
              == (OverAt(start, caller, tries, n),
                  if InTime(start, caller, tries, n) then tries(n).answer else Error(Failure))
  {
    hide BeginOf;
  }

  lemma FetchStep(start: nat, caller: Option<nat>, tries: nat -> Try, n: nat)
    requires n >= 1
    ensures var deadline := Earlier(start + BUDGET, caller);
            Fetch(BeginOf(start, caller, tries, n), n, deadline, caller, tries)
              == if Retried(start, caller, tries, n)
                 then Fetch(BeginOf(start, caller, tries, n + 1), n + 1, deadline, caller, tries)
                 else EndsWith(start, caller, tries, n)
  {
    hide Attempted, InTime, OverAt;
    AttemptEnds(start, caller, tries, n);
  }

  lemma {:induction false} FetchEnds(start: nat, caller: Option<nat>, tries: nat -> Try, n: nat)
    requires Made(start, caller, tries, n)
    ensures var done := Fetch(BeginOf(start, caller, tries, n), n, Earlier(start + BUDGET, caller), caller, tries);
            && Made(start, caller, tries, done.attempts) && !Retried(start, caller, tries, done.attempts)
            && done == EndsWith(start, caller, tries, done.attempts)
    decreases Earlier(start + BUDGET, caller) as int - BeginOf(start, caller, tries, n)
  {
    hide Fetch, InTime, Retried, Earlier, OverAt, BeginOf;
    FetchStep(start, caller, tries, n);
    if Retried(start, caller, tries, n) {
      Advances(start, caller, tries, n);
      FetchEnds(start, caller, tries, n + 1);
    }
  }

  lemma Advances(start: nat, caller: Option<nat>, tries: nat -> Try, n: nat)
    requires n >= 1 && Retried(start, caller, tries, n)
    ensures BeginOf(start, caller, tries, n) <= Earlier(start + BUDGET, caller)
    ensures BeginOf(start, caller, tries, n) < BeginOf(start, caller, tries, n + 1)
  {
  }

  /** A lookup has one last attempt. */
  lemma OneLast(start: nat, caller: Option<nat>, tries: nat -> Try, m: nat, n: nat)
    requires Made(start, caller, tries, m) && Made(start, caller, tries, n)
    requires !Retried(start, caller, tries, n)
    ensures m <= n
  {
    hide Retried;
  }

  /**
   What a lookup answers: labels exactly if some attempt that is made brings
   them, and then those; a 401 exactly if some attempt made is refused so; and
   otherwise the last attempt's error, or the context's if the caller's deadline
   comes during the wait.
   */
  lemma LookupAnswers(start: nat, caller: Option<nat>, tries: nat -> Try)
    ensures var done := Lookup(start, caller, tries);
            && Made(start, caller, tries, done.attempts) && !Retried(start, caller, tries, done.attempts)
            && done == EndsWith(start, caller, tries, done.attempts)
    ensures forall labels ::
              Lookup(start, caller, tries).answer == Got(labels)
              <==> exists i :: Made(start, caller, tries, i) && Answers(start, caller, tries, i)
                               && tries(i).answer == Got(labels)
    ensures Lookup(start, caller, tries).answer == Error(Unauthorized)
            <==> exists i :: Made(start, caller, tries, i) && Denied(start, caller, tries, i)
  {
    hide Fetch, HasRoom, WaitEnds, InTime, OverAt;
    FetchEnds(start, caller, tries, 1);
    var done := Lookup(start, caller, tries);
    forall i | Made(start, caller, tries, i) && (Answers(start, caller, tries, i) || Denied(start, caller, tries, i))
      ensures i == done.attempts
    {
      OneLast(start, caller, tries, i, done.attempts);
      OneLast(start, caller, tries, done.attempts, i);
    }
  }

  /**
   The budget: a lookup returns by the caller's deadline and within 1200 ms, the
   lag of one timer aside, and makes at most ten attempts, however they fail.
   */
  lemma LookupWithinBudget(start: nat, caller: Option<nat>, tries: nat -> Try, maxLag: nat)
    requires caller.Some? ==> start <= caller.value
    requires forall n :: tries(n).lag <= maxLag
    ensures var done := Lookup(start, caller, tries);
            && start <= done.at <= Earlier(start + BUDGET + maxLag, caller)
            && 1 <= done.attempts <= MAX_ATTEMPTS
  {
    FetchWithinBudget(start, start, 1, caller, tries, maxLag);
  }

  lemma {:induction false} FetchWithinBudget(start: nat, now: nat, n: nat, caller: Option<nat>, tries: nat -> Try,
      maxLag: nat)
    requires caller.Some? ==> now <= caller.value
    requires forall k :: tries(k).lag <= maxLag
    requires n >= 1 && start + (n - 1) * RETRY_DELAY <= now
    requires n == 1 ==> now == start
    requires n > 1 ==> now + ATTEMPT_TIMEOUT <= Earlier(start + BUDGET, caller) + maxLag && n <= MAX_ATTEMPTS
    ensures var done := Fetch(now, n, Earlier(start + BUDGET, caller), caller, tries);
            now <= done.at <= Earlier(start + BUDGET + maxLag, caller) && n <= done.attempts <= MAX_ATTEMPTS
    decreases Earlier(start + BUDGET, caller) as int - now
  {
    var deadline := Earlier(start + BUDGET, caller);
    var (end, answer) := Attempted(now, caller, tries(n));
    var timer := end + RETRY_DELAY + tries(n).lag;
    if answer.Error? && !answer.error.Unauthorized? && end + RETRY_DELAY + ATTEMPT_TIMEOUT <= deadline
       && !(caller.Some? && caller.value < timer) {
      FetchWithinBudget(start, timer, n + 1, caller, tries, maxLag);
    }
  }

  const INSTANT := Try(0, Error(Failure), 0)

  /** Ten attempts are made when each fails at once. */
  lemma {:induction false} TenAttemptsAreMade(start: nat, n: nat)
    requires 1 <= n <= MAX_ATTEMPTS
    ensures Fetch(start + (n - 1) * RETRY_DELAY, n, start + BUDGET, None, _ => INSTANT)
         == Done(start + 900, MAX_ATTEMPTS, Error(Failure))
    decreases MAX_ATTEMPTS - n
  {
    if n < MAX_ATTEMPTS {
      TenAttemptsAreMade(start, n + 1);
    }
  }

  datatype Entry = Entry(labels: Labels, fetched: nat)

  /** getCachedLabels on a cache's entries: an entry older than the TTL is no hit. */
  function Cached(entries: map<string, Entry>, ns: string, now: nat): Option<Labels> {
    if ns in entries && now <= entries[ns].fetched + TTL then Some(entries[ns].labels) else None
  }

  class NsLabelCache {
    var entries: map<string, Entry>
    const enabled: bool  // a client exists

    constructor (enabled: bool)
      ensures entries == map[] && this.enabled == enabled
    {
      entries := map[];
      this.enabled := enabled;
    }

    method GetCachedLabels(ns: string, now: nat) returns (labels: Option<Labels>)
      ensures labels == Cached(entries, ns, now)
      ensures labels.Some? <==> ns in entries && now <= entries[ns].fetched + 60_000
      ensures labels.Some? ==> labels.value == entries[ns].labels
    {
      if ns !in entries || now - entries[ns].fetched > TTL {
        return None;
      }
      labels := Some(entries[ns].labels);
    }

    /** fetchLabelsWithRetry */
    method FetchLabelsWithRetry(start: nat, caller: Option<nat>, tries: nat -> Try) returns (done: Done)
      ensures done == Lookup(start, caller, tries)
    {
      var deadline := start + BUDGET;
      if caller.Some? && caller.value < deadline {
        deadline := caller.value;
      }
      var attempt, now := 1, start;
      while true
        invariant attempt >= 1
        invariant Fetch(now, attempt, deadline, caller, tries) == Lookup(start, caller, tries)
        decreases deadline as int - now
      {
        var (end, answer) := Attempted(now, caller, tries(attempt));
        if answer.Got? {
          return Done(end, attempt, answer);
        }
        if answer.error.Unauthorized? {
          return Done(end, attempt, answer);
        }
        if end + RETRY_DELAY + ATTEMPT_TIMEOUT > deadline {
          return Done(end, attempt, answer);
        }
        var timer := end + RETRY_DELAY + tries(attempt).lag;
        if caller.Some? && caller.value < timer {
          return Done(caller.value, attempt, Error(ContextDone));
        }
        attempt, now := attempt + 1, timer;
      }
    }

    /**
     getLabel: label present, label absent (or lookups disabled), or an error,
     which is never an absence. Only a successful lookup changes the cache.
     */
    method GetLabel(ns: string, key: string, now: nat, caller: Option<nat>, tries: nat -> Try)
      returns (r: Answer<Option<string>>, at: nat)
      modifies this
      ensures !enabled ==> r == Got(None) && at == now && entries == old(entries)
      ensures enabled && ns in old(entries) && now <= old(entries)[ns].fetched + 60_000 ==>
                var labels := old(entries)[ns].labels;
                && at == now && entries == old(entries)
                && (key in labels ==> r == Got(Some(labels[key]))) && (key !in labels ==> r == Got(None))
      ensures enabled && !(ns in old(entries) && now <= old(entries)[ns].fetched + 60_000) ==>
                var done := Lookup(now, caller, tries);
                && at == done.at
                && (done.answer.Error? ==> r == Error(done.answer.error) && entries == old(entries))
                && (done.answer.Got? ==>
                      var labels := done.answer.value;
                      && (key in labels ==> r == Got(Some(labels[key]))) && (key !in labels ==> r == Got(None))
                      && entries == old(entries)[ns := Entry(labels, done.at)])
    {
      if !enabled {
        return Got(None), now;
      }
      var labels := GetCachedLabels(ns, now);
      if labels.Some? {
        return Got(ValueOf(labels.value, key)), now;
      }
      var done := FetchLabelsWithRetry(now, caller, tries);
      if done.answer.Error? {
        return Error(done.answer.error), done.at;
      }
      entries := entries[ns := Entry(done.answer.value, done.at)];
      r, at := Got(ValueOf(done.answer.value, key)), done.at;
    }
  }

  function ValueOf(labels: Labels, key: string): Option<string> {
    if key in labels then Some(labels[key]) else None
  }
}
