/**
 The handlers and the sweep, driven event by event, do what the step machine says:
 its theorems on sets, gauges and directories hold of them.
 */
module Steps {
  import opened Handlers
  import opened Lifecycle

  /** The plugin and the directories are as the machine has them. */
  ghost predicate Agrees(p: Plugin, s: State)
    reads p, p.root
  {
    p.State() == s.proc && p.root.dirs == s.dirs
  }

  /**
   One event: the code that runs on it, if any. A directory that is kept is so
   because the opt-in was withdrawn or because it cannot be removed; after an exit
   the next process starts with a plugin of its own.
   */
  method Perform(p: Plugin, cleaner: OrphanCleaner, now: nat, e: Event, withdrawn: bool, ghost s: State)
      returns (q: Plugin, c: OrphanCleaner)
    requires Agrees(p, s) && cleaner.plugin == p && now == s.now && Enabled(s, e)
    modifies p, p.root
    ensures Agrees(q, Next(s, e)) && c.plugin == q && q.root == p.root && (q == p || fresh(q))
  {
    q, c := p, cleaner;
    match e {
      case Stage(k) => p.StageFile(k, true, now);
      case StageFails(k) => p.StageFile(k, false, now);
      case Track(k, _) => p.Track(k);
      case Remove(k, kept) => p.RemoveContainer(k, kept && withdrawn, kept && !withdrawn);
      case Disconnect => p.Disconnect();
      case Synchronize(reported) => p.Synchronize(Somes(reported));
      case ScanCommit(_, keys) => p.CommitMissed(keys);
      case Sweep(failed) => var _ := cleaner.Sweep(now, failed);
      case Touch(k) => p.root.dirs := p.root.dirs[k := now];
      case Exit =>
        q := new Plugin(p.root);
        c := new OrphanCleaner(q);
      case _ =>
    }
  }

  /** A whole run of events. */
  method PerformAll(p: Plugin, start: nat, es: seq<Event>, withdrawn: nat -> bool, given: Given, ghost s: State)
      returns (q: Plugin)
    requires Agrees(p, s) && start == s.now && Run(s, es, given)
    modifies p, p.root
    ensures Agrees(q, End(s, es, given)) && q.root == p.root
  {
    q := p;
    var c := new OrphanCleaner(p);
    ghost var t := s;
    var now := start;
    for i := 0 to |es|
      invariant Agrees(q, t) && now == t.now && c.plugin == q && q.root == p.root && (q == p || fresh(q))
      invariant Run(t, es[i..], given) && End(t, es[i..], given) == End(s, es, given)
    {
      assert es[i..][0] == es[i] && es[i..][1..] == es[i + 1..];
      q, c := Perform(q, c, now, es[i], withdrawn(i), t);
      t := Next(t, es[i]);
      if es[i].Tick? {
        now := now + es[i].d;
      }
    }
  }
}
