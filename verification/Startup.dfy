/**
 The connect loop and the sweep's ticker of one process together: that a process
 synchronises before its first sweep is no hypothesis then, but follows.
 */
module Startup {
  import opened Handlers
  import opened Lifecycle
  import R = Reconnect

  /**
   At time t a process started at `start` may be up without having synchronised:
   some attempts of its connect loop have failed, and t lies before the end of
   the next, each attempt synchronising or failing within d.
   */
  ghost predicate Unready(start: nat, t: nat, d: nat) {
    exists attempts: seq<R.Attempt> {:trigger R.Within(attempts, d)} ::
      && R.Within(attempts, d) && (forall k :: 0 <= k < |attempts| ==> !attempts[k].synced)
      && R.Rounds(R.Start(start), attempts).Running?
      && t <= R.Rounds(R.Start(start), attempts).loop.now + d
  }

  lemma UnreadyBeforeFirstSweep(start: nat, t: nat, d: nat)
    requires Unready(start, t, d) && d < 89_000
    ensures t < start + SWEEP_INTERVAL
  {
    var attempts: seq<R.Attempt> :| R.Within(attempts, d) && (forall k :: 0 <= k < |attempts| ==> !attempts[k].synced)
      && R.Rounds(R.Start(start), attempts).Running? && t <= R.Rounds(R.Start(start), attempts).loop.now + d;
    R.UnreadyIsShort(start, attempts, d);
  }

  /** A step of a process whose first sweep comes with the ticker, and which is up unsynchronised only as its connect
      loop allows. */
  ghost predicate JointStep(s: State, e: Event, d: nat) {
    && Enabled(s, e) && Timely(s, e)
    && (e.Sweep? ==> s.now >= s.started + SWEEP_INTERVAL)
    && (s.up && !s.synced ==> Unready(s.started, s.now, d))
  }

  ghost predicate JointRun(s: State, es: seq<Event>, d: nat)
    decreases |es|
  {
    es == [] || (JointStep(s, es[0], d) && JointRun(Next(s, es[0]), es[1..], d))
  }

  /** The connect loop is decided before the ticker's first tick. */
  lemma SyncsFirst(s: State, e: Event, d: nat)
    requires JointStep(s, e, d) && d < 89_000
    ensures Allowed(s, e, TimelyHandlers)
  {
    if e.Sweep? && !s.synced {
      UnreadyBeforeFirstSweep(s.started, s.now, d);
    }
  }

  lemma {:induction false} JointRunIsRun(s: State, es: seq<Event>, d: nat)
    requires JointRun(s, es, d) && d < 89_000
    ensures Run(s, es, TimelyHandlers)
    decreases |es|
  {
    hide JointStep, Allowed, Next;
    if es != [] {
      assert JointStep(s, es[0], d);
      SyncsFirst(s, es[0], d);
      JointRunIsRun(Next(s, es[0]), es[1..], d);
    }
  }

  /**
   Safety without a hypothesis on synchronisation: if every attempt of the connect
   loop synchronises or fails within 89 seconds, no sweep of any process, in any
   run, removes the directory of a live injected container or of one being
   created.
   */
  lemma NoSweepRemovesLiveFromStart(es: seq<Event>, failed: set<Key>, d: nat, k: Key)
    requires JointRun(INIT, es, d) && d < 89_000
    ensures Run(INIT, es, TimelyHandlers)
    ensures var s := End(INIT, es, TimelyHandlers);
            k in s.injected || k in s.staging ==>
              k in s.dirs && (JointStep(s, Sweep(failed), d) ==> k in Next(s, Sweep(failed)).dirs)
  {
    hide Run, End, JointRun, Allowed, DoSweep, Swept;
    JointRunIsRun(INIT, es, d);
    NoSweepRemovesLive(es, failed, k);
    var s := End(INIT, es, TimelyHandlers);
    if JointStep(s, Sweep(failed), d) {
      SyncsFirst(s, Sweep(failed), d);
      SweepNeedsSync(s, failed);
    }
  }

  lemma SweepNeedsSync(s: State, failed: set<Key>)
    requires Allowed(s, Sweep(failed), TimelyHandlers)
    ensures s.synced && Next(s, Sweep(failed)) == DoSweep(s, failed)
  {
  }
}
