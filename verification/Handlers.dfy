/**
 The plugin's bookkeeping in internal/nri/plugin.go and the orphan sweep of
 internal/nri/cleanup.go: handlers that update the tracked and missed sets, the
 two gauges and the staged directories, each proved against the function the
 step machine of module Lifecycle is made of.
 */
module Handlers {
  import opened Options

  /** A container's sanitized id, which names its staged directory. */
  type Key = string

  /** Times are in milliseconds. */
  const GRACE: nat := 600_000
  const SWEEP_INTERVAL: nat := 300_000

  datatype Proc = Proc(tracked: set<Key>, missed: set<Key>, active: int, missedGauge: int, ready: bool)

  const FRESH_PROC := Proc({}, {}, 0, 0, false)

  function AfterTrack(p: Proc, key: Key): Proc {
    p.(tracked := p.tracked + {key}, active := p.active + 1)
  }

  function AfterRemove(p: Proc, key: Key): Proc {
    p.(tracked := p.tracked - {key}, active := if key in p.tracked then p.active - 1 else p.active,
       missed := p.missed - {key}, missedGauge := if key in p.missed then p.missedGauge - 1 else p.missedGauge)
  }

  /** The reported containers with a staged directory; a container without a usable id has no key. */
  function Staged(reported: seq<Option<Key>>, dirs: set<Key>): seq<Key> {
    if reported == [] then []
    else if reported[0].Some? && reported[0].value in dirs then [reported[0].value] + Staged(reported[1..], dirs)
    else Staged(reported[1..], dirs)
  }

  function Elements(keys: seq<Key>): set<Key> {
    set k | k in keys
  }

  function AfterAdopt(p: Proc, reported: seq<Option<Key>>, dirs: set<Key>): Proc {
    p.(tracked := p.tracked + Elements(Staged(reported, dirs)), active := |Staged(reported, dirs)|, ready := true)
  }

  function AfterCommit(p: Proc, keys: seq<Key>): Proc {
    p.(missed := Elements(keys), missedGauge := |keys|)
  }

  /** The directories a sweep leaves: tracked ones, those younger than ten minutes, and those it fails to remove. */
  function Swept(dirs: map<Key, nat>, tracked: set<Key>, now: nat, failed: set<Key>): map<Key, nat> {
    map k | k in dirs && !IsOrphan(dirs, tracked, now, failed, k) :: dirs[k]
  }

  predicate IsOrphan(dirs: map<Key, nat>, tracked: set<Key>, now: nat, failed: set<Key>, k: Key)
    requires k in dirs
  {
    k !in tracked && now - dirs[k] >= GRACE && k !in failed
  }

  /** The directory tree under the dynamic CA root: staged directories with their modification times. */
  class CaRoot {
    var dirs: map<Key, nat>

    constructor (dirs: map<Key, nat>)
      ensures this.dirs == dirs
    {
      this.dirs := dirs;
    }
  }

  class Plugin {
    var tracked: set<Key>
    var missed: set<Key>
    var active: int
    var missedGauge: int
    var ready: bool
    const root: CaRoot

    ghost function State(): Proc
      reads this
    {
      Proc(tracked, missed, active, missedGauge, ready)
    }

    constructor (root: CaRoot)
      ensures State() == FRESH_PROC && this.root == root
    {
      tracked, missed, active, missedGauge, ready := {}, {}, 0, 0, false;
      this.root := root;
    }

    /** The staging half of CreateContainer: on an error the directory is removed again. */
    method StageFile(key: Key, ok: bool, now: nat)
      modifies root
      ensures root.dirs == if ok then old(root.dirs)[key := now] else old(root.dirs) - {key}
    {
      root.dirs := root.dirs[key := now];
      if !ok {
        root.dirs := root.dirs - {key};
        assert root.dirs == old(root.dirs) - {key};
      }
    }

    /** The tracking half of CreateContainer. */
    method Track(key: Key)
      modifies this
      ensures State() == AfterTrack(old(State()), key)
    {
      tracked := tracked + {key};
      active := active + 1;
    }

    /** RemoveContainer; `keep` when the opt-in was withdrawn, `fails` when the directory cannot be removed. */
    method RemoveContainer(key: Key, keep: bool, fails: bool)
      modifies this, root
      ensures State() == AfterRemove(old(State()), key)
      ensures root.dirs == if keep || fails then old(root.dirs) else old(root.dirs) - {key}
    {
      if key in tracked {
        tracked := tracked - {key};
        active := active - 1;
      }
      if key in missed {
        missed := missed - {key};
        missedGauge := missedGauge - 1;
      }
      if keep {
        return;
      }
      if !fails {
        root.dirs := root.dirs - {key};
      }
    }

    /** The connection is lost: runNRI takes the ready flag away. */
    method Disconnect()
      modifies this
      ensures State() == old(State()).(ready := false)
    {
      ready := false;
    }

    /** Synchronize with adoptStagedContainers. */
    method Synchronize(reported: seq<Option<Key>>)
      modifies this
      ensures State() == AfterAdopt(old(State()), reported, root.dirs.Keys)
    {
      ready := true;
      var staged := 0;
      ghost var all := Staged(reported, root.dirs.Keys);
      ghost var done: seq<Key> := [];
      for i := 0 to |reported|
        modifies this`tracked
        invariant staged == |done| && done + Staged(reported[i..], root.dirs.Keys) == all
        invariant tracked == old(tracked) + Elements(done)
      {
        assert reported[i..][1..] == reported[i + 1..];
        if reported[i].Some? && reported[i].value in root.dirs {
          tracked := tracked + {reported[i].value};
          staged := staged + 1;
          assert done + ([reported[i].value] + Staged(reported[i + 1..], root.dirs.Keys))
              == done + [reported[i].value] + Staged(reported[i + 1..], root.dirs.Keys);
          done := done + [reported[i].value];
        }
      }
      assert done == all;
      active := staged;
    }

    /** The end of reportMissedContainers: the collected keys replace the set and the gauge. */
    method CommitMissed(keys: seq<Key>)
      modifies this
      ensures State() == AfterCommit(old(State()), keys)
    {
      missed := {};
      for i := 0 to |keys|
        modifies this`missed
        invariant missed == Elements(keys[..i])
      {
        assert keys[..i + 1] == keys[..i] + [keys[i]];
        missed := missed + {keys[i]};
      }
      assert keys[..|keys|] == keys;
      missedGauge := |keys|;
    }
  }

  class OrphanCleaner {
    const plugin: Plugin

    constructor (plugin: Plugin)
      ensures this.plugin == plugin
    {
      this.plugin := plugin;
    }

    /** sweep, in any order of the entries; `failed` are the directories RemoveAll cannot remove. */
    method Sweep(now: nat, failed: set<Key>) returns (cleaned: nat)
      modifies plugin.root
      ensures plugin.root.dirs == Swept(old(plugin.root.dirs), plugin.tracked, now, failed)
      ensures cleaned == |old(plugin.root.dirs)| - |plugin.root.dirs|
    {
      ghost var before := plugin.root.dirs;
      var root, tracked := plugin.root, plugin.tracked;
      var entries := root.dirs.Keys;
      cleaned := 0;
      while entries != {}
        invariant entries <= root.dirs.Keys <= before.Keys
        invariant forall k :: k in root.dirs ==> root.dirs[k] == before[k]
        invariant forall k :: k in before && k !in entries ==>
            (k in root.dirs <==> !IsOrphan(before, tracked, now, failed, k))
        invariant cleaned == |before| - |root.dirs|
        decreases |entries|
      {
        var name :| name in entries;
        entries := entries - {name};
        if name !in tracked {
          if now - root.dirs[name] >= GRACE {
            if name !in failed {
              ghost var kept := root.dirs.Keys - {name};
              root.dirs := root.dirs - {name};
              assert root.dirs.Keys == kept;
              cleaned := cleaned + 1;
            }
          }
        }
      }
      assert root.dirs == Swept(before, tracked, now, failed);
    }
  }
}
