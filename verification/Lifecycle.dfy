/**
 The plugin, the orphan cleaner and the runtime as one step machine: every run,
 with process restarts and in-process reconnects, is a sequence of these events.
 */
module Lifecycle {
  import opened Options
  import opened Handlers

  /**
   `proc` is the plugin process, `up` while it runs, since `started`. `staging` are the CreateContainer calls between
   staging and tracking, with the time of staging; `scans` the missed-container
   scans in progress, each with the containers it was given.
   `abandoned` are creations whose handler the process's exit cut off after staging; their
   containers may still come up without the hook. The last four fields only
   record history: the live containers that were injected, the keys ever used,
   the tracked keys that the last reconciliation did not count, and when each
   container's removal event came.
   */
  datatype State = State(
    now: nat, up: bool, started: nat, proc: Proc, connected: bool, synced: bool,
    staging: map<Key, nat>, scans: seq<set<Key>>, dirs: map<Key, nat>, lastSweep: nat,
    live: set<Key>, abandoned: set<Key>, injected: set<Key>, used: set<Key>, uncounted: set<Key>,
    removed: map<Key, nat>)

  const INIT := State(0, true, 0, FRESH_PROC, false, false, map[], [], map[], 0, {}, {}, {}, {}, {}, map[])

  /** How a creation ends whose CA file was staged: the container may come up without the hook, or not at all. */
  datatype Creation = Injected | Plain | NotCreated

  datatype Event =
    | Tick(d: nat)
    | Stage(key: Key)
    | StageFails(key: Key)
    | Track(key: Key, creation: Creation)
    | CreatePlain(key: Key)
    | Remove(key: Key, kept: bool)
    | Vanish(key: Key)
    | Disconnect
    | Synchronize(reported: seq<Key>)
    | ScanCommit(scan: nat, keys: seq<Key>)
    | ScanAbort(scan: nat)
    | Sweep(failed: set<Key>)
    | Touch(key: Key)
    | Exit
    | Start

  predicate DistinctKeys(keys: seq<Key>) {
    forall i, j :: 0 <= i < j < |keys| ==> keys[i] != keys[j]
  }

  /** The runtime reports exactly its containers, and their keys are distinct. */
  ghost predicate Reports(keys: seq<Key>, live: set<Key>) {
    DistinctKeys(keys) && Elements(keys) == live
  }

  /** What can happen: events reach a connected plugin only, created keys are fresh, removals are of live containers. */
  ghost predicate Enabled(s: State, e: Event) {
    match e
    case Tick(_) => true
    case Stage(k) => s.connected && k !in s.used
    case StageFails(k) => s.connected && k !in s.used
    case Track(k, creation) => k in s.staging && (creation.Injected? ==> s.connected)
    case CreatePlain(k) => k !in s.used || k in s.abandoned
    case Remove(k, _) => s.connected && k in s.live
    case Vanish(k) => !s.connected && k in s.live
    case Disconnect => s.connected
    case Synchronize(reported) => s.up && !s.connected && Reports(reported, s.live)
    case ScanCommit(i, keys) => i < |s.scans| && DistinctKeys(keys) && Elements(keys) <= s.scans[i]
    case ScanAbort(i) => i < |s.scans|
    case Sweep(_) => s.up
    case Touch(k) => k in s.dirs && (k in s.live || k in s.staging)
    case Exit => s.up
    case Start => !s.up
  }

  function Somes(keys: seq<Key>): seq<Option<Key>> {
    seq(|keys|, i requires 0 <= i < |keys| => Some(keys[i]))
  }

  function Without<T>(s: seq<T>, i: nat): seq<T>
    requires i < |s|
  {
    s[..i] + s[i + 1..]
  }

  function DoStage(s: State, k: Key): State {
    s.(used := s.used + {k}, staging := s.staging[k := s.now], dirs := s.dirs[k := s.now])
  }

  function DoTrack(s: State, k: Key, creation: Creation): State {
    s.(staging := s.staging - {k}, proc := AfterTrack(s.proc, k),
       live := if creation.NotCreated? then s.live else s.live + {k},
       injected := if creation.Injected? then s.injected + {k} else s.injected)
  }

  function DoRemove(s: State, k: Key, kept: bool): State {
    s.(live := s.live - {k}, injected := s.injected - {k}, proc := AfterRemove(s.proc, k),
       dirs := if kept then s.dirs else s.dirs - {k}, removed := s.removed[k := s.now])
  }

  function DoSynchronize(s: State, reported: seq<Key>): State {
    var proc := AfterAdopt(s.proc, Somes(reported), s.dirs.Keys);
    s.(connected := true, synced := true, proc := proc, scans := s.scans + [s.live],
       uncounted := proc.tracked - (s.live * s.dirs.Keys))
  }

  function DoSweep(s: State, failed: set<Key>): State {
    s.(dirs := Swept(s.dirs, s.proc.tracked, s.now, failed), lastSweep := s.now)
  }

  function DoExit(s: State): State {
    s.(up := false, proc := FRESH_PROC, connected := false, synced := false, staging := map[],
       scans := [], uncounted := {}, abandoned := s.abandoned + s.staging.Keys)
  }

  function Next(s: State, e: Event): State
    requires Enabled(s, e)
  {
    match e
    case Tick(d) => s.(now := s.now + d)
    case Stage(k) => DoStage(s, k)
    case StageFails(k) => s.(used := s.used + {k}, dirs := s.dirs - {k})
    case Track(k, creation) => DoTrack(s, k, creation)
    case CreatePlain(k) => s.(used := s.used + {k}, live := s.live + {k}, abandoned := s.abandoned - {k})
    case Remove(k, kept) => DoRemove(s, k, kept)
    case Vanish(k) => s.(live := s.live - {k}, injected := s.injected - {k})
    case Disconnect => s.(connected := false, proc := s.proc.(ready := false))
    case Synchronize(reported) => DoSynchronize(s, reported)
    case ScanCommit(i, keys) => s.(proc := AfterCommit(s.proc, keys), scans := Without(s.scans, i))
    case ScanAbort(i) => s.(scans := Without(s.scans, i))
    case Sweep(failed) => DoSweep(s, failed)
    case Touch(k) => s.(dirs := s.dirs[k := s.now])
    case Exit => DoExit(s)
    case Start => s.(up := true, started := s.now)
  }

  // ----- hypotheses on a run

  /** Staging is followed by tracking within ten minutes. */
  ghost predicate Timely(s: State, e: Event) {
    e.Tick? ==> forall k :: k in s.staging ==> s.now + e.d < s.staging[k] + GRACE
  }

  /** A process synchronises before its first sweep. */
  ghost predicate SyncsBeforeSweep(s: State, e: Event) {
    e.Sweep? ==> s.synced
  }

  function Later(a: nat, b: nat): nat {
    if a < b then b else a
  }

  /** A process sweeps every five minutes from its start on, and removes what it means to. */
  ghost predicate SweepsOnTime(s: State, e: Event) {
    && (e.Tick? && s.up ==> s.now + e.d <= Later(s.started, s.lastSweep) + SWEEP_INTERVAL)
    && (e.Sweep? ==> e.failed == {})
  }

  /** What a run is given: no more than what can happen, timely tracking and synchronisation, or punctual sweeps as
      well. */
  datatype Given = Anything | TimelyHandlers | TimelySweeps

  ghost predicate Allowed(s: State, e: Event, given: Given) {
    && Enabled(s, e)
    && (!given.Anything? ==> Timely(s, e) && SyncsBeforeSweep(s, e))
    && (given.TimelySweeps? ==> SweepsOnTime(s, e))
  }

  ghost predicate Run(s: State, es: seq<Event>, given: Given)
    decreases |es|
  {
    es == [] || (Allowed(s, es[0], given) && Run(Next(s, es[0]), es[1..], given))
  }

  function End(s: State, es: seq<Event>, given: Given): State
    requires Run(s, es, given)
    decreases |es|
  {
    if es == [] then s else End(Next(s, es[0]), es[1..], given)
  }

  // ----- the invariant

  /** What a key can be at the same time, and how its times are ordered, whatever the handlers' and sweeps' timing. */
  ghost predicate KeyHistory(s: State, k: Key) {
    && (k in s.live || k in s.staging || k in s.proc.tracked || k in s.removed || k in s.abandoned || k in s.dirs ==>
         k in s.used)
    && (k in s.staging ==> k !in s.live && k !in s.proc.tracked && k !in s.removed && k !in s.abandoned)
    && (k in s.removed ==> k !in s.live && k !in s.proc.tracked && k !in s.abandoned)
    && (k in s.abandoned ==> k !in s.live && k !in s.proc.tracked)
    && (k in s.injected ==> k in s.live)
    && (k in s.dirs ==> s.dirs[k] <= s.now)
    && (k in s.removed ==> s.removed[k] <= s.now && (k in s.dirs ==> s.dirs[k] <= s.removed[k]))
  }

  /** One key in its place: what is injected, being created or tracked has its directory. */
  ghost predicate KeyInPlace(s: State, k: Key) {
    && KeyHistory(s, k)
    && (k in s.injected || k in s.staging || k in s.proc.tracked ==> k in s.dirs)
    && (if s.synced then k in s.injected ==> k in s.proc.tracked else k !in s.proc.tracked && k !in s.staging)
    && (k in s.staging ==> s.staging[k] <= s.dirs[k] && s.now < s.staging[k] + GRACE)
  }

  ghost predicate KeysInPlace(s: State) {
    (s.connected ==> s.synced) && s.lastSweep <= s.now && s.started <= s.now && forall k :: KeyInPlace(s, k)
  }

  /** The gauges: the active one counts the tracked keys but for those the last reconciliation left out. */
  ghost predicate GaugesAgree(s: State) {
    && s.proc.active == |s.proc.tracked - s.uncounted|
    && s.proc.missedGauge == |s.proc.missed|
    && forall k :: k in s.uncounted ==> k in s.proc.tracked && k !in s.live
  }

  /** After a removal event the directory survives only until the first sweep ten minutes later. */
  ghost predicate LeaksBounded(s: State) {
    && (s.up ==> s.now <= Later(s.started, s.lastSweep) + SWEEP_INTERVAL)
    && forall k :: k in s.removed && k in s.dirs ==> s.lastSweep < s.removed[k] + GRACE
  }

  ghost predicate Inv(s: State, given: Given) {
    KeysInPlace(s) && GaugesAgree(s) && (given.TimelySweeps? ==> LeaksBounded(s))
  }

  // ----- lemmas on the handlers

  lemma ElementsCons(k: Key, keys: seq<Key>)
    ensures Elements([k] + keys) == {k} + Elements(keys)
  {
  }

  lemma FirstIsNew(keys: seq<Key>)
    requires keys != [] && DistinctKeys(keys)
    ensures keys[0] !in Elements(keys[1..]) && DistinctKeys(keys[1..]) && keys == [keys[0]] + keys[1..]
  {
  }

  lemma {:induction false} StagedElements(reported: seq<Key>, dirs: set<Key>)
    requires DistinctKeys(reported)
    ensures Elements(Staged(Somes(reported), dirs)) == Elements(reported) * dirs
    ensures |Staged(Somes(reported), dirs)| == |Elements(reported) * dirs|
  {
    hide DistinctKeys, Elements;
    NoElements();
    if reported != [] {
      var k, rest := reported[0], reported[1..];
      FirstIsNew(reported);
      ElementsCons(k, rest);
      assert Somes(reported)[1..] == Somes(rest);
      StagedElements(rest, dirs);
      ElementsCons(k, Staged(Somes(rest), dirs));
      if k in dirs {
        assert Elements(reported) * dirs == {k} + (Elements(rest) * dirs);
      } else {
        assert Elements(reported) * dirs == Elements(rest) * dirs;
      }
    }
  }

  lemma NoElements()
    ensures Elements([]) == {}
  {
  }

  lemma {:induction false} DistinctSize(keys: seq<Key>)
    requires DistinctKeys(keys)
    ensures |Elements(keys)| == |keys|
  {
    if keys != [] {
      DistinctSize(keys[1..]);
      assert keys == [keys[0]] + keys[1..];
      assert Elements(keys) == {keys[0]} + Elements(keys[1..]);
    }
  }

  // ----- every step keeps the invariant

  lemma TickKeeps(s: State, d: nat, given: Given)
    requires Inv(s, given) && Timely(s, Tick(d)) && (given.TimelySweeps? ==> SweepsOnTime(s, Tick(d)))
    ensures Inv(s.(now := s.now + d), given)
  {
    var t := s.(now := s.now + d);
    forall k ensures KeyInPlace(t, k) { assert KeyInPlace(s, k); }
  }

  lemma StageKeeps(s: State, k: Key, given: Given)
    requires Inv(s, given) && s.connected && k !in s.used
    ensures Inv(DoStage(s, k), given)
  {
    assert KeyInPlace(s, k);
    forall j ensures KeyInPlace(DoStage(s, k), j) { assert KeyInPlace(s, j); }
  }

  lemma StageFailsKeeps(s: State, k: Key, given: Given)
    requires Inv(s, given) && k !in s.used
    ensures Inv(s.(used := s.used + {k}, dirs := s.dirs - {k}), given)
  {
    var t := s.(used := s.used + {k}, dirs := s.dirs - {k});
    assert KeyInPlace(s, k);
    assert s.dirs - {k} == s.dirs;
    forall j ensures KeyInPlace(t, j) { assert KeyInPlace(s, j); }
  }

  lemma TrackGauges(s: State, k: Key, creation: Creation)
    requires GaugesAgree(s) && KeyInPlace(s, k) && k in s.staging
    ensures GaugesAgree(DoTrack(s, k, creation))
  {
    hide KeyInPlace;
    KeyStaged(s, k);
    OneMore(s.proc.tracked, s.uncounted, k);
  }

  lemma OneMore(tracked: set<Key>, uncounted: set<Key>, k: Key)
    requires k !in tracked && uncounted <= tracked
    ensures |(tracked + {k}) - uncounted| == |tracked - uncounted| + 1
  {
    assert (tracked + {k}) - uncounted == (tracked - uncounted) + {k};
  }

  lemma KeyStaged(s: State, k: Key)
    requires KeyInPlace(s, k) && k in s.staging
    ensures k !in s.proc.tracked
  {
  }

  lemma TrackKeeps(s: State, k: Key, creation: Creation, given: Given)
    requires Inv(s, given) && k in s.staging && (creation.Injected? ==> s.connected)
    ensures Inv(DoTrack(s, k, creation), given)
  {
    hide GaugesAgree;
    assert KeyInPlace(s, k);
    TrackGauges(s, k, creation);
    forall j ensures KeyInPlace(DoTrack(s, k, creation), j) { assert KeyInPlace(s, j); }
  }

  lemma CreatePlainKeeps(s: State, k: Key, given: Given)
    requires Inv(s, given) && (k !in s.used || k in s.abandoned)
    ensures Inv(s.(used := s.used + {k}, live := s.live + {k}, abandoned := s.abandoned - {k}), given)
  {
    var t := s.(used := s.used + {k}, live := s.live + {k}, abandoned := s.abandoned - {k});
    assert KeyInPlace(s, k);
    forall j ensures KeyInPlace(t, j) { assert KeyInPlace(s, j); }
  }

  lemma LessOne(counted: set<Key>, k: Key)
    ensures |counted - {k}| == if k in counted then |counted| - 1 else |counted|
  {
    if k !in counted {
      assert counted - {k} == counted;
    }
  }

  lemma RemoveGauges(s: State, k: Key, kept: bool)
    requires GaugesAgree(s) && k in s.live
    ensures GaugesAgree(DoRemove(s, k, kept))
  {
    assert k !in s.uncounted;
    var t := DoRemove(s, k, kept);
    assert t.proc.tracked - t.uncounted == (s.proc.tracked - s.uncounted) - {k};
    LessOne(s.proc.tracked - s.uncounted, k);
    LessOne(s.proc.missed, k);
  }

  lemma RemoveInPlace(s: State, k: Key, kept: bool, j: Key)
    requires KeyInPlace(s, k) && KeyInPlace(s, j) && k in s.live
    ensures KeyInPlace(DoRemove(s, k, kept), j)
  {
  }

  lemma RemoveKeeps(s: State, k: Key, kept: bool, given: Given)
    requires Inv(s, given) && s.connected && k in s.live
    ensures Inv(DoRemove(s, k, kept), given)
  {
    hide GaugesAgree, KeyInPlace;
    RemoveGauges(s, k, kept);
    forall j ensures KeyInPlace(DoRemove(s, k, kept), j) {
      assert KeyInPlace(s, j) && KeyInPlace(s, k);
      RemoveInPlace(s, k, kept, j);
    }
  }

  lemma VanishKeeps(s: State, k: Key, given: Given)
    requires Inv(s, given) && k in s.live
    ensures Inv(s.(live := s.live - {k}, injected := s.injected - {k}), given)
  {
    var t := s.(live := s.live - {k}, injected := s.injected - {k});
    forall j ensures KeyInPlace(t, j) { assert KeyInPlace(s, j); }
  }

  lemma DisconnectKeeps(s: State, given: Given)
    requires Inv(s, given)
    ensures Inv(s.(connected := false, proc := s.proc.(ready := false)), given)
  {
    var t := s.(connected := false, proc := s.proc.(ready := false));
    forall j ensures KeyInPlace(t, j) { assert KeyInPlace(s, j); }
  }

  function Synchronized(s: State, staged: set<Key>): State {
    s.(connected := true, synced := true, scans := s.scans + [s.live], uncounted := s.proc.tracked - staged,
       proc := s.proc.(tracked := s.proc.tracked + staged, active := |staged|, ready := true))
  }

  /** For distinct keys, reconciliation tracks and counts the reported containers that have a directory. */
  lemma SynchronizeCounts(s: State, reported: seq<Key>)
    requires Reports(reported, s.live)
    ensures DoSynchronize(s, reported) == Synchronized(s, s.live * s.dirs.Keys)
  {
    hide Staged, Elements;
    StagedElements(reported, s.dirs.Keys);
    var staged := s.live * s.dirs.Keys;
    assert (s.proc.tracked + staged) - staged == s.proc.tracked - staged;
  }

  lemma SynchronizedInPlace(s: State, k: Key)
    requires KeysInPlace(s)
    ensures KeyInPlace(Synchronized(s, s.live * s.dirs.Keys), k)
  {
    hide KeysInPlace;
    assert KeyInPlace(s, k) by { KeyOf(s, k); }
  }

  lemma KeyOf(s: State, k: Key)
    requires KeysInPlace(s)
    ensures KeyInPlace(s, k)
  {
  }

  lemma SynchronizedGauges(s: State)
    requires KeysInPlace(s) && GaugesAgree(s)
    ensures GaugesAgree(Synchronized(s, s.live * s.dirs.Keys))
  {
    var staged := s.live * s.dirs.Keys;
    assert (s.proc.tracked + staged) - (s.proc.tracked - staged) == staged;
    forall k | k in s.proc.tracked - staged ensures k !in s.live { KeyOf(s, k); }
  }

  lemma SynchronizeKeeps(s: State, reported: seq<Key>, given: Given)
    requires Inv(s, given) && Reports(reported, s.live)
    ensures Inv(DoSynchronize(s, reported), given)
  {
    hide DoSynchronize, Reports, GaugesAgree, KeyInPlace;
    SynchronizeCounts(s, reported);
    SynchronizedGauges(s);
    forall k ensures KeyInPlace(Synchronized(s, s.live * s.dirs.Keys), k) { SynchronizedInPlace(s, k); }
  }

  lemma ScanKeeps(s: State, proc: Proc, scans: seq<set<Key>>, given: Given)
    requires Inv(s, given) && proc.missedGauge == |proc.missed| && proc.tracked == s.proc.tracked
        && proc.active == s.proc.active
    ensures Inv(s.(proc := proc, scans := scans), given)
  {
    var t := s.(proc := proc, scans := scans);
    forall j ensures KeyInPlace(t, j) { assert KeyInPlace(s, j); }
  }

  /** The step all safety rests on: a sweep spares what is tracked or being created. */
  lemma SweepSparesKept(s: State, failed: set<Key>, k: Key)
    requires KeyInPlace(s, k) && (k in s.staging || k in s.proc.tracked)
    ensures k in Swept(s.dirs, s.proc.tracked, s.now, failed)
  {
  }

  lemma SweepKeeps(s: State, failed: set<Key>, given: Given)
    requires Inv(s, given) && s.synced && (given.TimelySweeps? ==> failed == {})
    ensures Inv(DoSweep(s, failed), given)
  {
    var t := DoSweep(s, failed);
    forall k ensures KeyInPlace(t, k) {
      assert KeyInPlace(s, k);
      if k in s.staging || k in s.proc.tracked {
        SweepSparesKept(s, failed, k);
      }
    }
    if given.TimelySweeps? {
      forall k | k in t.removed && k in t.dirs ensures t.lastSweep < t.removed[k] + GRACE {
        assert KeyInPlace(s, k) && !IsOrphan(s.dirs, s.proc.tracked, s.now, failed, k);
      }
    }
  }

  lemma TouchKeeps(s: State, k: Key, given: Given)
    requires Inv(s, given) && k in s.dirs && (k in s.live || k in s.staging)
    ensures Inv(s.(dirs := s.dirs[k := s.now]), given)
  {
    var t := s.(dirs := s.dirs[k := s.now]);
    assert KeyInPlace(s, k);
    forall j ensures KeyInPlace(t, j) { assert KeyInPlace(s, j); }
  }

  lemma ExitKeeps(s: State, given: Given)
    requires Inv(s, given)
    ensures Inv(DoExit(s), given)
  {
    forall j ensures KeyInPlace(DoExit(s), j) { assert KeyInPlace(s, j); }
  }

  lemma StartKeeps(s: State, given: Given)
    requires Inv(s, given)
    ensures Inv(s.(up := true, started := s.now), given)
  {
    forall j ensures KeyInPlace(s.(up := true, started := s.now), j) { assert KeyInPlace(s, j); }
  }

  /** Every step of a run keeps the invariant. */
  lemma StepKeepsInv(s: State, e: Event, given: Given)
    requires Inv(s, given) && Allowed(s, e, given) && given != Anything
    ensures Inv(Next(s, e), given)
  {
    hide DoStage, DoTrack, DoRemove, DoSynchronize, DoSweep, DoExit, KeysInPlace, LeaksBounded, Reports, Elements;
    match e
    case Tick(d) => TickKeeps(s, d, given);
    case Stage(k) => StageKeeps(s, k, given);
    case StageFails(k) => StageFailsKeeps(s, k, given);
    case Track(k, creation) => TrackKeeps(s, k, creation, given);
    case CreatePlain(k) => CreatePlainKeeps(s, k, given);
    case Remove(k, kept) => RemoveKeeps(s, k, kept, given);
    case Vanish(k) => VanishKeeps(s, k, given);
    case Disconnect => DisconnectKeeps(s, given);
    case Synchronize(reported) => SynchronizeKeeps(s, reported, given);
    case ScanCommit(i, keys) =>
      DistinctSize(keys);
      ScanKeeps(s, AfterCommit(s.proc, keys), Without(s.scans, i), given);
    case ScanAbort(i) => ScanKeeps(s, s.proc, Without(s.scans, i), given);
    case Sweep(failed) => SweepKeeps(s, failed, given);
    case Touch(k) => TouchKeeps(s, k, given);
    case Exit => ExitKeeps(s, given);
    case Start => StartKeeps(s, given);
  }

  /** Inv holds at the end of every run from a state where it holds. */
  lemma {:induction false} RunKeepsInv(s: State, es: seq<Event>, given: Given)
    requires Inv(s, given) && Run(s, es, given) && given != Anything
    ensures Inv(End(s, es, given), given)
    decreases |es|
  {
    hide Inv, Next, Enabled, Timely, SyncsBeforeSweep, SweepsOnTime;
    if es != [] {
      StepKeepsInv(s, es[0], given);
      RunKeepsInv(Next(s, es[0]), es[1..], given);
    }
  }

  // ----- the main theorems

  lemma ReachedInv(es: seq<Event>, given: Given) returns (s: State)
    requires Run(INIT, es, given) && given != Anything
    ensures s == End(INIT, es, given) && Inv(s, given)
  {
    assert forall k :: KeyInPlace(INIT, k);
    RunKeepsInv(INIT, es, given);
    s := End(INIT, es, given);
  }

  /**
   Safety: whatever the run, with restarts and reconnects, every live injected
   container and every one being created has its staged directory, and the next
   sweep of a synchronised process leaves it there.
   */
  lemma NoSweepRemovesLive(es: seq<Event>, failed: set<Key>, k: Key)
    requires Run(INIT, es, TimelyHandlers)
    ensures var s := End(INIT, es, TimelyHandlers);
            k in s.injected || k in s.staging ==> k in s.dirs && (s.synced ==> k in DoSweep(s, failed).dirs)
  {
    hide End;
    var s := ReachedInv(es, TimelyHandlers);
    assert KeyInPlace(s, k);
    if s.synced && (k in s.injected || k in s.staging) {
      SweepSparesKept(s, failed, k);
    }
  }

  /**
   The exact condition on a sweep: reached by such a run, a state lets a sweep
   remove a live injected container's directory if and only if the process has
   not synchronised yet and the directory is ten minutes old.
   */
  lemma SweepRemovesLiveExactly(es: seq<Event>, k: Key)
    requires Run(INIT, es, TimelyHandlers) && k in End(INIT, es, TimelyHandlers).injected
    ensures var s := End(INIT, es, TimelyHandlers);
            && k in s.dirs
            && (k !in DoSweep(s, {}).dirs <==> !s.synced && s.now - s.dirs[k] >= GRACE)
  {
    hide End;
    var s := ReachedInv(es, TimelyHandlers);
    assert KeyInPlace(s, k);
  }

  /**
   Gauges: at every point of every run the active gauge is the number of tracked
   keys less those the last reconciliation did not count, hence never negative;
   none of those is a live container. The missed gauge is the size of its set,
   also when containers are removed between a scan's start and its commit.
   */
  lemma GaugesCount(es: seq<Event>)
    requires Run(INIT, es, TimelyHandlers)
    ensures var s := End(INIT, es, TimelyHandlers);
            && s.uncounted <= s.proc.tracked && s.uncounted !! s.live
            && s.proc.active == |s.proc.tracked| - |s.uncounted| && s.proc.active >= 0
            && s.proc.missedGauge == |s.proc.missed|
  {
    hide End;
    var s := ReachedInv(es, TimelyHandlers);
    assert s.proc.tracked == (s.proc.tracked - s.uncounted) + s.uncounted;
  }

  // ----- directories left behind

  lemma CreationKeepsHistory(s: State, e: Event, k: Key)
    requires e.Stage? || e.StageFails? || e.Track? || e.CreatePlain?
    requires Enabled(s, e) && KeyHistory(s, k)
    ensures KeyHistory(Next(s, e), k)
  {
    hide DoSynchronize, DoSweep, DoRemove, DoExit, Reports, Elements, Without, Somes;
  }

  lemma RemovalKeepsHistory(s: State, e: Event, k: Key)
    requires e.Remove? || e.Vanish? || e.Exit?
    requires Enabled(s, e) && KeyHistory(s, k)
    ensures KeyHistory(Next(s, e), k)
  {
    hide DoSynchronize, DoSweep, DoStage, DoTrack, Reports, Elements, Without, Somes;
  }

  /** No step disturbs a key's history. */
  lemma HistoryKeeps(s: State, e: Event, k: Key)
    requires Enabled(s, e) && KeyHistory(s, k)
    ensures KeyHistory(Next(s, e), k)
  {
    if e.Stage? || e.StageFails? || e.Track? || e.CreatePlain? {
      CreationKeepsHistory(s, e, k);
    } else if e.Remove? || e.Vanish? || e.Exit? {
      RemovalKeepsHistory(s, e, k);
    } else {
      hide DoStage, DoTrack, DoRemove, DoExit, DoSynchronize, Reports, Swept, Elements, Without, Somes;
      match e
      case Synchronize(reported) => SynchronizeCounts(s, reported);
      case Sweep(failed) => SweptShrinks(s.dirs, s.proc.tracked, s.now, failed);
      case _ =>
    }
  }

  lemma {:induction false} HistoryHolds(s: State, es: seq<Event>, given: Given, k: Key)
    requires Run(s, es, given) && KeyHistory(s, k)
    ensures KeyHistory(End(s, es, given), k)
    decreases |es|
  {
    hide Next, KeyHistory, Enabled, Timely, SyncsBeforeSweep, SweepsOnTime;
    if es != [] {
      HistoryKeeps(s, es[0], k);
      HistoryHolds(Next(s, es[0]), es[1..], given, k);
    }
  }

  /**
   Clean-up: whatever the timing of handlers and sweeps, any sweep that comes ten
   minutes after a container's removal event, and can remove its directory, gets
   rid of it, even when the handler had left it because the opt-in was withdrawn.
   */
  lemma SweepClearsRemoved(es: seq<Event>, failed: set<Key>, k: Key)
    requires Run(INIT, es, Anything) && k in End(INIT, es, Anything).removed && k !in failed
    ensures var s := End(INIT, es, Anything); s.now >= s.removed[k] + GRACE ==> k !in DoSweep(s, failed).dirs
  {
    hide End, Run;
    HistoryHolds(INIT, es, Anything, k);
  }

  /** Once gone it does not come back. */
  lemma {:induction false} GoneStaysGone(s: State, es: seq<Event>, given: Given, k: Key)
    requires Run(s, es, given) && KeyHistory(s, k) && k in s.removed && k !in s.dirs
    ensures k in End(s, es, given).removed && k !in End(s, es, given).dirs
    decreases |es|
  {
    if es != [] {
      HistoryKeeps(s, es[0], k);
      GoneStaysGone(Next(s, es[0]), es[1..], given, k);
    }
  }

  /** A removal event takes the container out of both sets, and the gauges follow. */
  lemma RemovalClearsSets(s: State, given: Given, k: Key, kept: bool)
    requires Inv(s, given) && Enabled(s, Remove(k, kept))
    ensures var p, q := s.proc, Next(s, Remove(k, kept)).proc;
            && q.tracked == p.tracked - {k} && q.missed == p.missed - {k} && q.missedGauge == |q.missed|
            && q.active == (if k in p.tracked then p.active - 1 else p.active)
  {
    hide Inv;
    MissedCounted(s, given);
  }

  lemma MissedCounted(s: State, given: Given)
    requires Inv(s, given)
    ensures s.proc.missedGauge == |s.proc.missed|
  {
  }

  /**
   An ordinary removal event needs no sweep: it takes its own container's directory
   at once and for good, and no other.
   */
  lemma RemovalTakesDirectory(s: State, es: seq<Event>, given: Given, k: Key)
    requires Run(s, [Remove(k, false)] + es, given) && KeyHistory(s, k)
    ensures var t := Next(s, Remove(k, false));
            && t.dirs.Keys == s.dirs.Keys - {k} && forall j :: j in t.dirs ==> t.dirs[j] == s.dirs[j]
    ensures k !in End(s, [Remove(k, false)] + es, given).dirs
  {
    var all := [Remove(k, false)] + es;
    assert all[0] == Remove(k, false) && all[1..] == es;
    HistoryKeeps(s, all[0], k);
    GoneStaysGone(Next(s, all[0]), es, given, k);
  }

  /**
   Bounded leak: with punctual sweeps, no directory outlives its container's
   removal event by fifteen minutes while the process has been up since less than
   ten minutes after that event; and after a later start it goes within five
   minutes of that start.
   */
  lemma RemovedIsGoneInTime(es: seq<Event>, k: Key)
    requires Run(INIT, es, TimelySweeps) && k in End(INIT, es, TimelySweeps).removed
    ensures var s := End(INIT, es, TimelySweeps);
            && (s.up && s.started < s.removed[k] + GRACE && s.now >= s.removed[k] + GRACE + SWEEP_INTERVAL ==>
                 k !in s.dirs)
            && (s.up && s.now > Later(s.removed[k] + GRACE, s.started) + SWEEP_INTERVAL ==> k !in s.dirs)
  {
    hide End;
    var s := ReachedInv(es, TimelySweeps);
  }

  /**
   Both bounds are met, with sweeps on the tick. While the process has been up
   from before, the directory can last to the last moment of the fifteen minutes.
   */
  lemma FifteenMinutesAreMet()
    ensures var es := Leaking([Tick(SWEEP_INTERVAL)]);
            && Run(INIT, es, TimelySweeps)
            && var s := End(INIT, es, TimelySweeps);
               && s.up && s.started == 0 && "a" in s.removed && "a" in s.dirs
               && s.now + 1 == s.removed["a"] + GRACE + SWEEP_INTERVAL
  {
    hide Run, End, Leaking;
    var end := TwiceSwept().(now := GRACE + SWEEP_INTERVAL);
    RunsNothing(end, TimelySweeps);
    RunsFirst(TwiceSwept(), Tick(SWEEP_INTERVAL), [], [Tick(SWEEP_INTERVAL)], TimelySweeps);
    LeakingRuns([Tick(SWEEP_INTERVAL)]);
  }

  /**
   And for every restart from ten minutes after the removal on, while the sweep
   due then is still ahead, it can last five minutes more.
   */
  lemma RestartProlongsLeak(restart: nat, more: nat)
    requires GRACE <= restart < GRACE + SWEEP_INTERVAL - 1 && more <= SWEEP_INTERVAL
    ensures var es := Leaking([Tick(restart + 1 - GRACE), Exit, Start, Tick(more)]);
            && Run(INIT, es, TimelySweeps)
            && var s := End(INIT, es, TimelySweeps);
               && s.up && "a" in s.removed && "a" in s.dirs
               && s.started == s.removed["a"] + restart && s.now == s.started + more
  {
    hide Run, End, Leaking;
    var s := TwiceSwept();
    var s1 := s.(now := 1 + restart);
    var s2 := s1.(up := false, proc := FRESH_PROC, connected := false, synced := false, scans := []);
    var s3 := s2.(up := true, started := 1 + restart);
    var s4 := s3.(now := 1 + restart + more);
    RunsNothing(s4, TimelySweeps);
    RunsFirst(s3, Tick(more), [], [Tick(more)], TimelySweeps);
    RunsFirst(s2, Start, [Tick(more)], [Start, Tick(more)], TimelySweeps);
    assert Next(s1, Exit) == s2;
    RunsFirst(s1, Exit, [Start, Tick(more)], [Exit, Start, Tick(more)], TimelySweeps);
    RunsFirst(s, Tick(restart + 1 - GRACE), [Exit, Start, Tick(more)],
              [Tick(restart + 1 - GRACE), Exit, Start, Tick(more)], TimelySweeps);
    LeakingRuns([Tick(restart + 1 - GRACE), Exit, Start, Tick(more)]);
  }

  /** A container removed a millisecond after the process's start, and the sweeps at five and ten minutes. */
  function Leaking(rest: seq<Event>): seq<Event> {
    [Tick(1), Synchronize([]), Stage("a"), Track("a", Injected), Remove("a", true)] + Sweeping(rest)
  }

  function Sweeping(rest: seq<Event>): seq<Event> {
    [Tick(SWEEP_INTERVAL - 1), Sweep({}), Tick(SWEEP_INTERVAL), Sweep({})] + rest
  }

  const READY_PROC := Proc({}, {}, 0, 0, true)

  /** The state with the removed container's directory left behind. */
  function Left(now: nat, lastSweep: nat): State {
    State(now, true, 0, READY_PROC, true, true, map[], [{}], map["a" := 1], lastSweep,
          {}, {}, {}, {"a"}, {}, map["a" := 1])
  }

  function TwiceSwept(): State {
    Left(GRACE, GRACE)
  }

  lemma RunsFirst(s: State, e: Event, es: seq<Event>, all: seq<Event>, given: Given)
    requires Allowed(s, e, given) && Run(Next(s, e), es, given) && all == [e] + es
    ensures Run(s, all, given) && End(s, all, given) == End(Next(s, e), es, given)
  {
    hide Allowed, Next;
    assert all[0] == e && all[1..] == es;
  }

  lemma RunsNothing(s: State, given: Given)
    ensures Run(s, [], given) && End(s, [], given) == s
  {
  }

  lemma EarlySweep(now: nat, lastSweep: nat)
    requires now <= GRACE
    ensures Next(Left(now, lastSweep), Sweep({})) == Left(now, now)
  {
    assert Swept(map["a" := 1], {}, now, {}) == map["a" := 1];
  }

  lemma SweepingRuns(rest: seq<Event>)
    requires Run(TwiceSwept(), rest, TimelySweeps)
    ensures Run(Left(1, 0), Sweeping(rest), TimelySweeps)
    ensures End(Left(1, 0), Sweeping(rest), TimelySweeps) == End(TwiceSwept(), rest, TimelySweeps)
  {
    hide Run, End, Swept;
    var five := SWEEP_INTERVAL;
    EarlySweep(five, 0);
    EarlySweep(GRACE, five);
    RunsFirst(Left(GRACE, five), Sweep({}), rest, [Sweep({})] + rest, TimelySweeps);
    RunsFirst(Left(five, five), Tick(five), [Sweep({})] + rest, [Tick(five), Sweep({})] + rest, TimelySweeps);
    RunsFirst(Left(five, 0), Sweep({}), [Tick(five), Sweep({})] + rest, [Sweep({}), Tick(five), Sweep({})] + rest,
              TimelySweeps);
    RunsFirst(Left(1, 0), Tick(five - 1), [Sweep({}), Tick(five), Sweep({})] + rest, Sweeping(rest), TimelySweeps);
  }

  /** A process's first injection, at the given time. */
  function Connected(now: nat): State {
    State(now, true, 0, READY_PROC, true, true, map[], [{}], map[], 0, {}, {}, {}, {}, {}, map[])
  }

  function CaStaged(now: nat): State {
    Connected(now).(staging := map["a" := now], dirs := map["a" := now], used := {"a"})
  }

  function HasInjected(now: nat): State {
    Connected(now).(proc := Proc({"a"}, {}, 1, 0, true), dirs := map["a" := now],
                    live := {"a"}, injected := {"a"}, used := {"a"})
  }

  lemma FirstInjection(now: nat)
    ensures Enabled(INIT.(now := now), Synchronize([])) && Next(INIT.(now := now), Synchronize([])) == Connected(now)
    ensures Next(Connected(now), Stage("a")) == CaStaged(now)
    ensures Next(CaStaged(now), Track("a", Injected)) == HasInjected(now)
  {
    assert Somes([]) == [] && Elements([]) == {};
    assert Next(INIT.(now := now), Synchronize([])).proc == READY_PROC;
    assert map["a" := now] - {"a"} == map[];
  }

  /** What follows a first injection. */
  lemma InjectionRuns(now: nat, rest: seq<Event>, given: Given)
    requires Run(HasInjected(now), rest, given)
    ensures var es := [Synchronize([]), Stage("a"), Track("a", Injected)] + rest;
            Run(INIT.(now := now), es, given) && End(INIT.(now := now), es, given) == End(HasInjected(now), rest, given)
  {
    hide Run, End;
    FirstInjection(now);
    RunsFirst(CaStaged(now), Track("a", Injected), rest, [Track("a", Injected)] + rest, given);
    RunsFirst(Connected(now), Stage("a"), [Track("a", Injected)] + rest,
              [Stage("a"), Track("a", Injected)] + rest, given);
    RunsFirst(INIT.(now := now), Synchronize([]), [Stage("a"), Track("a", Injected)] + rest,
              [Synchronize([]), Stage("a"), Track("a", Injected)] + rest, given);
  }

  lemma LeakingRuns(rest: seq<Event>)
    requires Run(TwiceSwept(), rest, TimelySweeps)
    ensures Run(INIT, Leaking(rest), TimelySweeps)
    ensures End(INIT, Leaking(rest), TimelySweeps) == End(TwiceSwept(), rest, TimelySweeps)
  {
    hide Run, End, Sweeping;
    SweepingRuns(rest);
    assert Next(HasInjected(1), Remove("a", true)) == Left(1, 0);
    RunsFirst(HasInjected(1), Remove("a", true), Sweeping(rest), [Remove("a", true)] + Sweeping(rest), TimelySweeps);
    InjectionRuns(1, [Remove("a", true)] + Sweeping(rest), TimelySweeps);
    RunsFirst(INIT, Tick(1),
              [Synchronize([]), Stage("a"), Track("a", Injected)] + ([Remove("a", true)] + Sweeping(rest)),
              Leaking(rest), TimelySweeps);
  }

  // ----- what stays behind without a removal event

  ghost predicate NoExit(es: seq<Event>) {
    forall i :: 0 <= i < |es| ==> !es[i].Exit?
  }

  /** A key that is neither live nor tracked nor being created stays so. */
  lemma {:induction false} StaysUntracked(s: State, es: seq<Event>, given: Given, k: Key)
    requires Run(s, es, given) && KeyHistory(s, k) && Past(s, k)
    ensures var t := End(s, es, given);
            k !in t.live && k !in t.proc.tracked && (k in t.dirs ==> k in s.dirs && t.dirs[k] == s.dirs[k])
    decreases |es|
  {
    hide KeyHistory, Timely, SyncsBeforeSweep, SweepsOnTime, Next, Enabled;
    if es != [] {
      HistoryKeeps(s, es[0], k);
      UntrackedStep(s, es[0], k);
      StaysUntracked(Next(s, es[0]), es[1..], given, k);
    }
  }

  /** A key of the past: neither live nor tracked, nor being created. */
  predicate Past(s: State, k: Key) {
    k in s.used && k !in s.abandoned && k !in s.live && k !in s.proc.tracked && k !in s.staging
  }

  lemma UntrackedStep(s: State, e: Event, k: Key)
    requires Enabled(s, e) && Past(s, k)
    ensures var t := Next(s, e); Past(t, k) && (k in t.dirs ==> k in s.dirs && t.dirs[k] == s.dirs[k])
  {
    if e.Stage? || e.StageFails? || e.Track? || e.CreatePlain? || e.Remove? || e.Vanish? || e.Exit? {
      UntrackedByHandlers(s, e, k);
    } else {
      hide DoStage, DoTrack, DoRemove, DoExit, DoSynchronize, Reports, Swept, Elements, Without, Somes;
      match e
      case Synchronize(reported) => SynchronizeCounts(s, reported);
      case Sweep(failed) => SweptShrinks(s.dirs, s.proc.tracked, s.now, failed);
      case _ =>
    }
  }

  lemma UntrackedByHandlers(s: State, e: Event, k: Key)
    requires e.Stage? || e.StageFails? || e.Track? || e.CreatePlain? || e.Remove? || e.Vanish? || e.Exit?
    requires Enabled(s, e) && Past(s, k)
    ensures var t := Next(s, e); Past(t, k) && (k in t.dirs ==> k in s.dirs && t.dirs[k] == s.dirs[k])
  {
    hide DoSynchronize, DoSweep, Reports, Elements, Without, Somes;
  }

  lemma SweptShrinks(dirs: map<Key, nat>, tracked: set<Key>, now: nat, failed: set<Key>)
    ensures var left := Swept(dirs, tracked, now, failed); forall k :: k in left ==> k in dirs && left[k] == dirs[k]
  {
  }

  /**
   And it goes then: once the process has exited, whatever restarts and
   synchronisations follow, any sweep ten minutes after the directory's last
   change that can remove it does.
   */
  lemma VanishedGoesAfterExit(s: State, es: seq<Event>, given: Given, failed: set<Key>, k: Key)
    requires Run(s, [Exit] + es, given) && KeyHistory(s, k)
    requires k in s.proc.tracked && k !in s.live && k in s.dirs && k !in failed
    ensures var t := End(s, [Exit] + es, given); t.now >= s.dirs[k] + GRACE ==> k !in DoSweep(t, failed).dirs
  {
    assert ([Exit] + es)[0] == Exit && ([Exit] + es)[1..] == es;
    HistoryKeeps(s, Exit, k);
    StaysUntracked(Next(s, Exit), es, given, k);
  }

  ghost predicate NoCommit(es: seq<Event>) {
    forall i :: 0 <= i < |es| ==> !es[i].ScanCommit?
  }

  /** A tracked key without a container keeps its directory through every step until the process exits. */
  lemma StrayStep(s: State, e: Event, k: Key)
    requires Enabled(s, e) && !e.Exit? && KeyHistory(s, k) && k in s.proc.tracked && k !in s.live && k in s.dirs
    ensures var t := Next(s, e); k in t.proc.tracked && k !in t.live && k in t.dirs
  {
    hide DoSynchronize, Reports;
    match e
    case Synchronize(reported) => SynchronizeCounts(s, reported);
    case _ =>
  }

  /**
   A container that vanishes while the process is disconnected brings no removal
   event: its key stays tracked, and its directory there through every sweep,
   until the process exits.
   */
  lemma {:induction false} VanishedKeepsDirectory(s: State, es: seq<Event>, given: Given, k: Key)
    requires Run(s, es, given) && NoExit(es) && KeyHistory(s, k)
    requires k in s.proc.tracked && k !in s.live && k in s.dirs
    ensures var t := End(s, es, given); k in t.proc.tracked && k !in t.live && k in t.dirs
    decreases |es|
  {
    hide Next, KeyHistory, Enabled, Timely, SyncsBeforeSweep, SweepsOnTime;
    if es != [] {
      assert !es[0].Exit?;
      HistoryKeeps(s, es[0], k);
      StrayStep(s, es[0], k);
      forall i | 0 <= i < |es| - 1 ensures es[1..][i] == es[i + 1] {}
      VanishedKeepsDirectory(Next(s, es[0]), es[1..], given, k);
    }
  }

  /** From the start: an injected container of a synchronised process, vanished during a disconnect. */
  lemma VanishingLeaks(es: seq<Event>, more: seq<Event>, given: Given, k: Key)
    requires Run(INIT, es, TimelyHandlers) && NoExit(more)
    requires var s := End(INIT, es, TimelyHandlers);
             s.synced && k in s.injected && Enabled(s, Vanish(k)) && Run(Next(s, Vanish(k)), more, given)
    ensures k in End(Next(End(INIT, es, TimelyHandlers), Vanish(k)), more, given).dirs
  {
    hide End, Run;
    var s := ReachedInv(es, TimelyHandlers);
    assert KeyInPlace(s, k);
    HistoryKeeps(s, Vanish(k), k);
    VanishedKeepsDirectory(Next(s, Vanish(k)), more, given, k);
  }

  // ----- commits of scans

  /** The event that began the i-th of the scans in progress at the end of a run, or -1 if it was there before. */
  function Began(s: State, es: seq<Event>, given: Given, i: nat): (n: int)
    requires Run(s, es, given) && i < |End(s, es, given).scans|
    ensures -1 <= n < |es|
    decreases |es|
  {
    if es == [] then -1
    else
      var n := Began(Next(s, es[0]), es[1..], given, i);
      if n >= 0 then n + 1
      else if es[0].Synchronize? && Place(Next(s, es[0]), es[1..], given, i) == |s.scans| then 0
      else -1
  }

  /** Where that scan stood at the start of the run, if it was there. */
  function Place(s: State, es: seq<Event>, given: Given, i: nat): nat
    requires Run(s, es, given) && i < |End(s, es, given).scans|
    decreases |es|
  {
    if es == [] then i
    else
      var p := Place(Next(s, es[0]), es[1..], given, i);
      match es[0]
      case ScanCommit(j, _) => if p < j then p else p + 1
      case ScanAbort(j) => if p < j then p else p + 1
      case _ => p
  }

  /** A removal event of the key after the n-th event. */
  ghost predicate RemovedAfter(es: seq<Event>, n: int, k: Key) {
    exists m :: 0 <= m < |es| && n < m && es[m].Remove? && es[m].key == k
  }

  lemma RemovedAfterFirst(e: Event, es: seq<Event>, n: int, k: Key)
    requires n >= -1
    ensures RemovedAfter([e] + es, n + 1, k) <==> RemovedAfter(es, n, k)
    ensures RemovedAfter([e] + es, -1, k) <==> RemovedAfter(es, -1, k) || (e.Remove? && e.key == k)
  {
    var all := [e] + es;
    forall m | 0 <= m < |es| ensures all[m + 1] == es[m] {}
    if RemovedAfter(es, n, k) {
      var m :| 0 <= m < |es| && n < m && es[m].Remove? && es[m].key == k;
      assert all[m + 1] == es[m];
    }
    if RemovedAfter(es, -1, k) {
      var m :| 0 <= m < |es| && es[m].Remove? && es[m].key == k;
      assert all[m + 1] == es[m];
    }
    if e.Remove? && e.key == k {
      assert all[0] == e;
    }
    if RemovedAfter(all, n + 1, k) {
      var m :| 0 <= m < |all| && n + 1 < m && all[m].Remove? && all[m].key == k;
      assert es[m - 1] == all[m];
    }
    if RemovedAfter(all, -1, k) {
      var m :| 0 <= m < |all| && all[m].Remove? && all[m].key == k;
      assert m > 0 ==> es[m - 1] == all[m];
    }
  }

  /** A key is recorded as removed at the end of a run exactly when it was before, or its removal event came. */
  lemma {:induction false} RemovedInRun(s: State, es: seq<Event>, given: Given, k: Key)
    requires Run(s, es, given)
    ensures k in End(s, es, given).removed <==> k in s.removed || RemovedAfter(es, -1, k)
    decreases |es|
  {
    hide Next, Enabled, Timely, SyncsBeforeSweep, SweepsOnTime, RemovedAfter;
    if es == [] {
      assert !RemovedAfter([], -1, k) by { NothingRemoved(k); }
    } else {
      RemovedStep(s, es[0]);
      RemovedInRun(Next(s, es[0]), es[1..], given, k);
      assert es == [es[0]] + es[1..];
      RemovedAfterFirst(es[0], es[1..], -1, k);
    }
  }

  lemma NothingRemoved(k: Key)
    ensures !RemovedAfter([], -1, k)
  {
  }

  lemma RemovedStep(s: State, e: Event)
    requires Enabled(s, e)
    ensures Next(s, e).removed.Keys == s.removed.Keys + if e.Remove? then {e.key} else {}
  {
    hide Reports;
  }

  lemma WithoutAt<T>(s: seq<T>, j: nat, p: nat)
    requires j < |s| && p < |s| - 1
    ensures |Without(s, j)| == |s| - 1 && Without(s, j)[p] == s[if p < j then p else p + 1]
  {
  }

  /**
   A scan's containers were those live when it began: none of them had been
   removed by then, so each has been removed since exactly if its removal event
   lies after the event that began the scan.
   */
  lemma {:induction false} ScanOf(s: State, es: seq<Event>, given: Given, i: nat, k: Key)
    requires Run(s, es, given) && i < |End(s, es, given).scans| && KeyHistory(s, k)
    ensures var n := Began(s, es, given, i);
            var scan := End(s, es, given).scans[i];
            if n < 0 then Place(s, es, given, i) < |s.scans| && scan == s.scans[Place(s, es, given, i)]
            else es[n].Synchronize? && (k in scan ==> (k in End(s, es, given).removed <==> RemovedAfter(es, n, k)))
    decreases |es|
  {
    hide KeyHistory, Enabled, RemovedAfter, Next, Run, End, Began, Place, Without;
    if es == [] {
      BeganNowhere(s, given, i);
    } else {
      BeganStep(s, es, given, i);
      var next, rest := Next(s, es[0]), es[1..];
      HistoryKeeps(s, es[0], k);
      ScanOf(next, rest, given, i, k);
      RemovedAfterFirst(es[0], rest, Began(next, rest, given, i), k);
      ScansStep(s, es[0]);
      var p := Place(next, rest, given, i);
      if (es[0].ScanCommit? || es[0].ScanAbort?) && Began(next, rest, given, i) < 0 {
        WithoutAt(s.scans, es[0].scan, p);
      }
      if Began(s, es, given, i) == 0 && k in s.live {
        LiveIsNotRemoved(s, k);
        RemovedInRun(next, rest, given, k);
        RemovedAfterFirst(es[0], rest, -1, k);
      }
    }
  }

  lemma BeganNowhere(s: State, given: Given, i: nat)
    requires Run(s, [], given) && i < |End(s, [], given).scans|
    ensures End(s, [], given) == s && Began(s, [], given, i) == -1 && Place(s, [], given, i) == i
  {
  }

  lemma BeganStep(s: State, es: seq<Event>, given: Given, i: nat)
    requires es != [] && Run(s, es, given) && i < |End(s, es, given).scans|
    ensures es == [es[0]] + es[1..] && Enabled(s, es[0])
    ensures var next := Next(s, es[0]);
            && Run(next, es[1..], given) && End(next, es[1..], given) == End(s, es, given)
            && var n, p := Began(next, es[1..], given, i), Place(next, es[1..], given, i);
               && Began(s, es, given, i)
                  == (if n >= 0 then n + 1 else if es[0].Synchronize? && p == |s.scans| then 0 else -1)
               && Place(s, es, given, i)
                  == if (es[0].ScanCommit? || es[0].ScanAbort?) && p >= es[0].scan then p + 1 else p
  {
    hide Enabled, Next;
  }

  lemma LiveIsNotRemoved(s: State, k: Key)
    requires KeyHistory(s, k) && k in s.live
    ensures k !in s.removed
  {
  }

  /** What a step does to the scans in progress. */
  lemma ScansStep(s: State, e: Event)
    requires Enabled(s, e)
    ensures var t := Next(s, e);
            match e
            case Synchronize(_) => t.scans == s.scans + [s.live] && t.removed == s.removed
            case ScanCommit(j, _) => j < |s.scans| && t.scans == Without(s.scans, j) && |t.scans| == |s.scans| - 1
            case ScanAbort(j) => j < |s.scans| && t.scans == Without(s.scans, j) && |t.scans| == |s.scans| - 1
            case Exit => t.scans == []
            case _ => t.scans == s.scans
  {
    hide Reports;
  }

  /**
   Which commits leave the missed gauge too high: after a commit, a missed key is
   one of a removed container if and only if the scan collected it and its
   removal event lies between the synchronisation that began the scan and the
   commit. No later removal event can take it out of the set.
   */
  lemma StaleCommitExactly(es: seq<Event>, i: nat, keys: seq<Key>, k: Key)
    requires Run(INIT, es, Anything) && Enabled(End(INIT, es, Anything), ScanCommit(i, keys))
    ensures var n := Began(INIT, es, Anything, i);
            var t := Next(End(INIT, es, Anything), ScanCommit(i, keys));
            && 0 <= n && es[n].Synchronize? && t.proc.missedGauge == |t.proc.missed|
            && (k in t.proc.missed && k in t.removed <==> k in keys && RemovedAfter(es, n, k))
  {
    hide End, Run, RemovedAfter, Began, Place;
    DistinctSize(keys);
    ScanOf(INIT, es, Anything, i, k);
    assert k in keys ==> k in Elements(keys);
  }

  /** Such a commit: a container that came up during a disconnect, is found by the scan, and goes before the commit. */
  lemma StaleCommitOccurs()
    ensures var es := [Synchronize([]), Disconnect, CreatePlain("a"), Synchronize(["a"]), Remove("a", true)];
            && Run(INIT, es, TimelySweeps) && Enabled(End(INIT, es, TimelySweeps), ScanCommit(1, ["a"]))
            && var t := Next(End(INIT, es, TimelySweeps), ScanCommit(1, ["a"]));
               t.live == {} && t.proc.missed == {"a"} && t.proc.missedGauge == 1
  {
    hide Run, End;
    var es := [Synchronize([]), Disconnect, CreatePlain("a"), Synchronize(["a"]), Remove("a", true)];
    FirstInjection(0);
    assert INIT.(now := 0) == INIT;
    var s1 := Connected(0);
    var s2 := s1.(connected := false, proc := FRESH_PROC);
    var s3 := s2.(used := {"a"}, live := {"a"});
    var s4 := s3.(connected := true, proc := READY_PROC, scans := [{}, {"a"}]);
    var s5 := s4.(live := {}, removed := map["a" := 0]);
    StaleSteps(s1, s2, s3, s4, s5);
    RunsNothing(s5, TimelySweeps);
    RunsFirst(s4, Remove("a", true), [], [Remove("a", true)], TimelySweeps);
    RunsFirst(s3, Synchronize(["a"]), [Remove("a", true)], [Synchronize(["a"]), Remove("a", true)], TimelySweeps);
    RunsFirst(s2, CreatePlain("a"), [Synchronize(["a"]), Remove("a", true)],
              [CreatePlain("a"), Synchronize(["a"]), Remove("a", true)], TimelySweeps);
    RunsFirst(s1, Disconnect, [CreatePlain("a"), Synchronize(["a"]), Remove("a", true)],
              [Disconnect, CreatePlain("a"), Synchronize(["a"]), Remove("a", true)], TimelySweeps);
    RunsFirst(INIT, Synchronize([]), [Disconnect, CreatePlain("a"), Synchronize(["a"]), Remove("a", true)], es,
      TimelySweeps);
  }

  lemma StaleSteps(s1: State, s2: State, s3: State, s4: State, s5: State)
    requires s1 == Connected(0) && s2 == s1.(connected := false, proc := FRESH_PROC)
    requires s3 == s2.(used := {"a"}, live := {"a"})
    requires s4 == s3.(connected := true, proc := READY_PROC, scans := [{}, {"a"}])
    requires s5 == s4.(live := {}, removed := map["a" := 0])
    ensures Enabled(s1, Disconnect) && Next(s1, Disconnect) == s2
    ensures Enabled(s2, CreatePlain("a")) && Next(s2, CreatePlain("a")) == s3
    ensures Enabled(s3, Synchronize(["a"])) && Next(s3, Synchronize(["a"])) == s4
    ensures Enabled(s4, Remove("a", true)) && Next(s4, Remove("a", true)) == s5
    ensures Enabled(s5, ScanCommit(1, ["a"])) && Next(s5, ScanCommit(1, ["a"])).proc.missed == {"a"}
  {
    hide Reports, DoSynchronize, Elements;
    assert s2.used + {"a"} == {"a"} && s2.live + {"a"} == {"a"} && s2.abandoned - {"a"} == {};
    StaleSync(s3, s4);
    StaleEnd(s4, s5);
  }

  lemma StaleSync(s3: State, s4: State)
    requires s3 == Connected(0).(connected := false, proc := FRESH_PROC, used := {"a"}, live := {"a"})
    requires s4 == s3.(connected := true, proc := READY_PROC, scans := [{}, {"a"}])
    ensures Enabled(s3, Synchronize(["a"])) && Next(s3, Synchronize(["a"])) == s4
  {
    assert Elements(["a"]) == {"a"};
    SynchronizeCounts(s3, ["a"]);
    assert s3.live * s3.dirs.Keys == {} && s3.scans + [s3.live] == [{}, {"a"}];
  }

  lemma StaleEnd(s4: State, s5: State)
    requires s4.connected && s4.live == {"a"} && s4.injected == {} && s4.proc == READY_PROC && s4.removed == map[]
    requires s4.now == 0 && s4.scans == [{}, {"a"}] && s5 == s4.(live := {}, removed := map["a" := 0])
    ensures Enabled(s4, Remove("a", true)) && Next(s4, Remove("a", true)) == s5
    ensures Enabled(s5, ScanCommit(1, ["a"])) && Next(s5, ScanCommit(1, ["a"])).proc.missed == {"a"}
  {
    assert Elements(["a"]) == {"a"};
    assert s4.live - {"a"} == {} && s4.injected - {"a"} == {} && READY_PROC.tracked - {"a"} == {}
      && READY_PROC.missed - {"a"} == {};
  }

  lemma StaleStep(s: State, e: Event, k: Key)
    requires Enabled(s, e) && !e.Exit? && !e.ScanCommit? && KeyHistory(s, k)
    requires k in s.removed && k in s.proc.missed && s.proc.missedGauge == |s.proc.missed|
    ensures var t := Next(s, e); k in t.removed && k in t.proc.missed && t.proc.missedGauge == |t.proc.missed|
  {
    hide DoSynchronize, Reports;
    match e
    case Synchronize(reported) => SynchronizeCounts(s, reported);
    case Remove(j, _) => LessOne(s.proc.missed, j);
    case _ =>
  }

  /** A removed container's key in the missed set is counted until the next commit or the process's exit. */
  lemma {:induction false} StaleMissedStays(s: State, es: seq<Event>, given: Given, k: Key)
    requires Run(s, es, given) && NoExit(es) && NoCommit(es) && KeyHistory(s, k)
    requires k in s.removed && k in s.proc.missed && s.proc.missedGauge == |s.proc.missed|
    ensures var t := End(s, es, given); k in t.proc.missed && t.proc.missedGauge >= 1
    decreases |es|
  {
    hide Next, KeyHistory, Enabled, Timely, SyncsBeforeSweep, SweepsOnTime;
    if es != [] {
      assert !es[0].Exit? && !es[0].ScanCommit?;
      HistoryKeeps(s, es[0], k);
      StaleStep(s, es[0], k);
      forall i | 0 <= i < |es| - 1 ensures es[1..][i] == es[i + 1] {}
      StaleMissedStays(Next(s, es[0]), es[1..], given, k);
    }
  }

  // ----- a sweep before the first synchronisation

  function Down(): State {
    HasInjected(0).(up := false, proc := FRESH_PROC, connected := false, synced := false, scans := [])
  }

  lemma UnsynchronisedEnds()
    ensures Run(HasInjected(0), [Exit, Start, Tick(GRACE)], TimelyHandlers)
    ensures End(HasInjected(0), [Exit, Start, Tick(GRACE)], TimelyHandlers) == Down().(up := true, now := GRACE)
  {
    hide Run, End;
    var s1 := Down().(up := true);
    var s2 := s1.(now := GRACE);
    assert Next(HasInjected(0), Exit) == Down();
    RunsNothing(s2, TimelyHandlers);
    RunsFirst(s1, Tick(GRACE), [], [Tick(GRACE)], TimelyHandlers);
    RunsFirst(Down(), Start, [Tick(GRACE)], [Start, Tick(GRACE)], TimelyHandlers);
    RunsFirst(HasInjected(0), Exit, [Start, Tick(GRACE)], [Exit, Start, Tick(GRACE)], TimelyHandlers);
  }

  /** The condition does occur: a container injected before a restart, and a sweep before the new process
      synchronises. */
  lemma UnsynchronisedSweepRemovesLive()
    ensures var es := [Synchronize([]), Stage("a"), Track("a", Injected), Exit, Start, Tick(GRACE)];
            && Run(INIT, es, TimelyHandlers)
            && "a" in End(INIT, es, TimelyHandlers).injected && "a" !in DoSweep(End(INIT, es, TimelyHandlers), {}).dirs
  {
    hide Run, End;
    UnsynchronisedEnds();
    InjectionRuns(0, [Exit, Start, Tick(GRACE)], TimelyHandlers);
    assert INIT.(now := 0) == INIT;
    assert [Synchronize([]), Stage("a"), Track("a", Injected)] + [Exit, Start, Tick(GRACE)]
        == [Synchronize([]), Stage("a"), Track("a", Injected), Exit, Start, Tick(GRACE)];
  }
}
