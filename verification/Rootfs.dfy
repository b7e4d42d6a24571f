/**
 The container rootfs as the hook sees it: the methods of
 internal/util/containerfs/containerfs.go over a tree they change in place, and
 the atomic write of pkg/fsx/atomicwrite.go below them.
 */
module Rootfs {
  import opened Bytes
  import opened Options
  import opened Seqs
  import opened Paths
  import opened FileTree
  import opened Resolver
  import opened FileWrites

  /** PathInRootfs on components: filepath.Join cleans the joined path, so ".." could climb out of the rootfs. */
  function PathInRootfs(rootfs: Path, containerPath: string): Path {
    var trimmed := if containerPath != "" && containerPath[0] == '/' then containerPath[1..] else containerPath;
    CleanOnto(rootfs, Split(trimmed, '/'))
  }

  /** A clean container path never does: its host path is the rootfs followed by its own names. */
  lemma CleanPathStaysInRootfs(rootfs: Path, p: Path)
    requires Names(p)
    ensures PathInRootfs(rootfs, Render(p)) == rootfs + p
  {
    assert Render(p)[1..] == Join(p, '/');
    if p == [] {
      assert CleanOnto(rootfs, [""]) == rootfs by { assert [""][1..] == []; }
    } else {
      SplitJoin(p, '/');
      CleanOntoKeepsNames(rootfs, p);
    }
  }

  /** Whatever a query, a link target or a tree looks like, a resolved path lies inside the rootfs. */
  lemma ResolvedStaysInRootfs(t: Tree, query: string, rootfs: Path)
    requires WellFormed(t) && Resolve(t, query).Resolved?
    ensures rootfs <= PathInRootfs(rootfs, Render(Resolve(t, query).path))
  {
    ResolveContained(t, query);
    CleanPathStaysInRootfs(rootfs, Resolve(t, query).path);
  }

  /** Which system calls of a write succeed, and the random name os.CreateTemp picks. */
  datatype WriteEnv = WriteEnv(
    mkdirs: Option<nat>,  // the path component at which a mkdir would fail
    suffix: string,       // what CreateTemp puts after ".cainjekt-" in the last name it tries
    create: bool, written: Option<nat>, chmod: bool, chown: bool, sync: bool, close: bool, rename: bool)

  const TEMP_PREFIX := ".cainjekt-"

  function TempPath(p: Path, env: WriteEnv): Path {
    Parent(p) + [TEMP_PREFIX + env.suffix]
  }

  /** The steps from the temporary file's creation to the rename all succeed. */
  predicate StepsWork(env: WriteEnv) {
    && env.create && '/' !in env.suffix
    && env.written.None? && env.chmod && env.chown && env.sync && env.close && env.rename
  }

  /** MkdirAll is not asked to make the directory it would fail at. */
  predicate DirsWork(t: Tree, dir: Path, fails: Option<nat>) {
    fails.Some? && fails.value < |dir| ==> dir[..fails.value + 1] in t
  }

  /** A file can be put at the path: below an existing directory, in place of no directory or link, by way of an
      unused name. */
  predicate Writable(t: Tree, p: Path, env: WriteEnv) {
    Replaceable(t, p) && Parent(p) in t && t[Parent(p)].Dir? && TempPath(p, env) !in t && StepsWork(env)
  }

  /** A write to the query succeeds. */
  ghost predicate WriteWorks(t: Tree, query: string, env: WriteEnv)
    requires WellFormed(t)
  {
    var r := Resolve(t, query);
    && r.Resolved? && Replaceable(t, r.path) && TempPath(r.path, env) !in t
    && DirsWork(t, Parent(r.path), env.mkdirs) && StepsWork(env)
  }

  /**
   When a write succeeds, condition by condition: the query leads to a place that
   is no directory and no link, the temporary name beside it is unused, no
   directory has to be made where making one fails, and every system call works.
   */
  lemma WriteWorksExactly(t: Tree, query: string, env: WriteEnv)
    requires WellFormed(t)
    ensures WriteWorks(t, query, env) <==>
              && Resolve(t, query).Resolved?
              && var p := Resolve(t, query).path;
                 && p != [] && (p !in t || t[p].File? || t[p].Other?)
                 && p[..|p| - 1] + [".cainjekt-" + env.suffix] !in t && '/' !in env.suffix
                 && (forall k :: 0 <= k < |p| - 1 && p[..k + 1] !in t ==> env.mkdirs != Some(k))
                 && env.create && env.written == None && env.chmod && env.chown && env.sync && env.close && env.rename
  {
    hide WellFormed, Resolve;
    if Resolve(t, query).Resolved? && Resolve(t, query).path != [] {
      var p := Resolve(t, query).path;
      forall k {:trigger p[..k + 1]} | 0 <= k < |p| - 1 ensures Parent(p)[..k + 1] == p[..k + 1] {}
    }
  }

  /** The tree a successful write leaves; the clean-up takes the target away again when it bears the temporary name. */
  function AfterWrite(t: Tree, p: Path, data: bytes, env: WriteEnv): Tree {
    if TempPath(p, env) == p then MkDirs(t, Parent(p)) else Written(t, p, data)
  }

  /** A path the kernel looks up inside the rootfs: it is joined to no other host path, and no link is met above its
      last name. */
  ghost predicate Inside(t: Tree, p: Path) {
    LinkFreeAbove(t, p) && forall root :: PathInRootfs(root, Render(p)) == root + p
  }

  class Rootfs {
    var nodes: Tree

    ghost predicate Valid()
      reads this
    {
      WellFormed(nodes)
    }

    constructor (t: Tree)
      requires WellFormed(t)
      ensures Valid() && nodes == t
    {
      nodes := t;
    }

    /**
     ResolveSymlinks. `probes` lists every path given to lstat or readlink: none
     has a link above its last name, so the kernel never follows one itself.
     */
    method ResolveSymlinks(containerPath: string) returns (r: Result<string>, ghost probes: seq<Path>)
      requires Valid()
      ensures var res := Resolve(nodes, containerPath);
              r == if res.Resolved? then Ok(Render(res.path)) else Err(ResolveError(res))
      ensures forall q :: q in probes ==> Inside(nodes, q)
    {
      hide LinkFreeAbove, Inside, PathInRootfs, Blocked, ResolveFrom, LinkRestart;
      var remaining := SplitContainerPath(containerPath);
      var resolved: Path := [];
      var hops := 0;
      probes := [];
      SplitContainerPathIsCleaning(containerPath);
      RootStands(nodes);
      while remaining != []
        invariant Standing(nodes, resolved) && hops <= MAX_SYMLINK_HOPS && Names(remaining)
        invariant ResolveFrom(nodes, resolved, remaining, hops) == Resolve(nodes, containerPath)
        invariant forall q :: q in probes ==> Inside(nodes, q)
        decreases MAX_SYMLINK_HOPS - hops, |remaining|
      {
        var part, rest := remaining[0], remaining[1..];
        var candidate := resolved + [part];
        ProbeInside(nodes, resolved, part);
        LoopStep(nodes, resolved, remaining, hops);
        probes := probes + [candidate];
        match Lstat(nodes, candidate) {
          case Missing =>
            assert resolved + [part] + rest == resolved + remaining;
            assert Resolve(nodes, containerPath) == Resolved(resolved + remaining);
            return Ok(Render(resolved + [part] + rest)), probes;
          case NotDir =>
            return Err(NotADirectory), probes;
          case Found(node) =>
            if !node.Link? {
              resolved, remaining := candidate, rest;
            } else {
              if hops + 1 > MAX_SYMLINK_HOPS {
                return Err(SymlinkLoop), probes;
              }
              hops := hops + 1;
              var targetContainer := LinkContainerPath(resolved, node.target);
              SplitContainerPathIsCleaning(targetContainer);
              LinkRestartIsSplit(resolved, node.target);
              remaining := SplitContainerPath(targetContainer) + rest;
              resolved := [];
            }
        }
      }
      LoopEnd(nodes, resolved, hops);
      r := Ok(Render(resolved));
    }

    /** RegularFile. */
    method RegularFile(containerPath: string) returns (resolved: string, ok: bool)
      requires Valid()
      ensures var res := Resolve(nodes, containerPath);
              && (res.Resolved? ==> resolved == Render(res.path))
              && (ok <==> res.Resolved? && res.path in nodes && nodes[res.path].File?)
    {
      var r, _ := ResolveSymlinks(containerPath);
      if r.Err? {
        return "", false;
      }
      ResolveContained(nodes, containerPath);
      ghost var p := Resolve(nodes, containerPath).path;
      var stat := LstatText(r.value, p);
      return r.value, stat.Found? && stat.node.File?;
    }

    /** lstat of a resolved container path. */
    method LstatText(containerPath: string, ghost p: Path) returns (stat: Stat)
      requires Valid() && Names(p) && LinkFree(nodes, p) && containerPath == Render(p)
      ensures LinkFreeAbove(nodes, p) && stat == Lstat(nodes, p)
    {
      CleanPathStaysInRootfs([], p);
      assert [] + p == p;
      stat := Lstat(nodes, PathInRootfs([], containerPath));
    }

    /** ReadFile with ReadRegularFile: bounded regular files only, never truncated. */
    method ReadFile(containerPath: string) returns (r: Result<(bytes, string)>)
      requires Valid()
      ensures r == ReadAt(nodes, containerPath)
    {
      var resolved, _ := ResolveSymlinks(containerPath);
      if resolved.Err? {
        return Err(resolved.error);
      }
      ResolveContained(nodes, containerPath);
      var stat := LstatText(resolved.value, Resolve(nodes, containerPath).path);
      match stat
      case Missing => r := Err(NotFound);
      case NotDir => r := Err(NotADirectory);
      case Found(node) =>
        if !node.File? {
          r := Err(NotRegular);
        } else if |node.data| > MAX_READ_SIZE {
          r := Err(TooLarge);
        } else {
          r := Ok((node.data, resolved.value));
        }
    }

    /** os.MkdirAll: creates the missing directories from the root down; a failure leaves those made so far. */
    method MkdirAll(dir: Path, fails: Option<nat>) returns (ok: bool)
      requires Valid() && Names(dir) && DirsAbove(nodes, dir) && (dir in nodes ==> nodes[dir].Dir?)
      modifies this
      ensures Valid()
      ensures ok <==> DirsWork(old(nodes), dir, fails)
      ensures ok ==> nodes == MkDirs(old(nodes), dir)
      ensures !ok ==> exists k :: 0 <= k <= |dir| && nodes == MkDirs(old(nodes), dir[..k])
    {
      var k := 0;
      assert MkDirs(nodes, dir[..0]) == nodes;
      while k < |dir|
        invariant 0 <= k <= |dir| && nodes == MkDirs(old(nodes), dir[..k])
        invariant fails.Some? && fails.value < k ==> dir[..fails.value + 1] in old(nodes)
      {
        MkDirsGrowsTo(old(nodes), dir, k);
        MkDirsStep(old(nodes), dir, k);
        var next := dir[..k + 1];
        if next !in nodes {
          if fails == Some(k) {
            return false;
          }
          nodes := nodes[next := Dir];
        }
        k := k + 1;
      }
      assert dir[..k] == dir;
      MkDirsGrowsTo(old(nodes), dir, k);
      ok := true;
    }

    /**
     The temporary file of an atomic write, from its creation to the sync of its
     data; a failing step leaves whatever had been written.
     */
    method FillTemp(tmp: Path, data: bytes, env: WriteEnv) returns (ok: bool, ghost history: seq<Tree>)
      modifies this
      ensures exists d, synced :: nodes == old(nodes)[tmp := File(d, synced)]
      ensures ok ==> nodes == old(nodes)[tmp := File(data, true)]
      ensures ok <==> env.written.None? && env.chmod && env.chown && env.sync
      ensures |history| >= 1 && history[0] == old(nodes)[tmp := File([], false)] && history[|history| - 1] == nodes
      ensures forall i :: 0 <= i < |history| ==> exists d, synced :: history[i] == old(nodes)[tmp := File(d, synced)]
    {
      ghost var before := nodes;
      nodes := nodes[tmp := File([], false)];
      history := [nodes];
      var part := if env.written.Some? && env.written.value <= |data| then data[..env.written.value] else data;
      nodes := nodes[tmp := File(part, false)];
      history := history + [nodes];
      assert nodes == before[tmp := File(part, false)];
      ok := env.written.None? && env.chmod && env.chown && env.sync;
      if ok {
        nodes := nodes[tmp := File(data, true)];
        history := history + [nodes];
        assert nodes == before[tmp := File(data, true)];
      }
    }

    /**
     AtomicWrite with RefuseSymlink: temporary file, write, chmod, chown, sync,
     close, rename, and the deferred removal of the temporary name. A crash after
     any of the steps leaves the old or the new content whole.
     */
    method AtomicWrite(p: Path, data: bytes, env: WriteEnv) returns (r: Result<()>, ghost history: seq<Tree>)
      requires Valid() && Names(p) && LinkFreeAbove(nodes, p)
      modifies this
      ensures Valid()
      ensures r.Ok? <==> Writable(old(nodes), p, env)
      ensures r.Ok? ==> nodes == if TempPath(p, env) == p then old(nodes) else old(nodes)[p := File(data, true)]
      ensures r.Err? ==> nodes == old(nodes)
      ensures TempPath(p, env) != p ==> CrashAtomic(old(nodes), history, p, data)
      ensures r.Ok? ==> (CrashAtomic(old(nodes), history, p, data) <==> TempPath(p, env) != p)
      ensures r.Ok? ==> history != [] && history[|history| - 1] == nodes && TempPath(p, env) !in old(nodes)
    {
      hide WellFormed, LinkFreeAbove;
      r, history := WriteSteps(p, data, env);
      SnapshotsAreCrashAtomic(old(nodes), history, p, TempPath(p, env), data);
      if r.Ok? {
        CrashAtomicExactly(old(nodes), history, p, TempPath(p, env), data);
      }
    }

    /** The steps of AtomicWrite; `history` lists every state of the tree on the way. */
    method WriteSteps(p: Path, data: bytes, env: WriteEnv) returns (r: Result<()>, ghost history: seq<Tree>)
      requires Valid() && Names(p) && LinkFreeAbove(nodes, p)
      modifies this
      ensures Valid()
      ensures r.Ok? <==> Writable(old(nodes), p, env)
      ensures r.Ok? ==> nodes == if TempPath(p, env) == p then old(nodes) else old(nodes)[p := File(data, true)]
      ensures r.Err? ==> nodes == old(nodes)
      ensures forall i :: 0 <= i < |history| ==> Snapshot(old(nodes), p, TempPath(p, env), data, history[i])
      ensures r.Ok? ==> history != [] && history[|history| - 1] == nodes && TempPath(p, env) !in old(nodes)
      ensures r.Ok? ==> old(nodes)[TempPath(p, env) := File([], false)] in history
    {
      hide WellFormed, LinkFreeAbove;
      ghost var before := nodes;
      history := [nodes];
      if p in nodes && nodes[p].Link? {
        return Err(Refused), history;
      }
      if p == [] {
        // The temporary file would lie beside the mount point; no file can be renamed onto the mount itself.
        return Err(Failed), history;
      }
      var dir, tmp := Parent(p), TempPath(p, env);
      // CreateTemp opens with O_EXCL, and gives up when the names it draws are all in use.
      if dir !in nodes || !nodes[dir].Dir? || !env.create || '/' in env.suffix || tmp in nodes {
        return Err(Failed), history;
      }
      var filled, fills := FillTemp(tmp, data, env);
      history := history + fills;
      assert fills[0] in history;
      r := Err(Failed);
      if filled && env.close && env.rename && !(p in nodes && nodes[p].Dir?) {
        r := Ok(());
        if tmp != p {
          nodes := (nodes - {tmp})[p := nodes[tmp]];
          assert nodes == before[p := File(data, true)];
          history := history + [nodes];
        }
      }
      // the deferred os.Remove of the temporary name
      if tmp in nodes {
        nodes := nodes - {tmp};
        assert nodes == before;
        history := history + [nodes];
      }
      if nodes != before {
        ReplacedIsWellFormed(before, p, File(data, true));
      }
    }

    /**
     WriteFile: resolve, create the missing directories, write atomically. It
     succeeds exactly when the query resolves to a path where a file can be put,
     the temporary name is free, and no system call fails. A nil return means
     the new content is in place, except when the temporary name is the target's
     own: then the deferred removal takes the target away again.
     */
    method WriteFile(containerPath: string, data: bytes, env: WriteEnv) returns (r: Result<string>)
      requires Valid()
      modifies this
      ensures Valid()
      ensures var res := Resolve(old(nodes), containerPath);
              && (r.Ok? <==> WriteWorks(old(nodes), containerPath, env))
              && (r.Ok? ==> r.value == Render(res.path) && nodes == AfterWrite(old(nodes), res.path, data, env))
              && (r.Ok? && TempPath(res.path, env) == res.path ==> res.path !in nodes)
              && (!res.Resolved? ==> r == Err(ResolveError(res)) && nodes == old(nodes))
      ensures var res := Resolve(old(nodes), containerPath);
              && (r.Err? && res.Resolved? && res.path in old(nodes) ==> nodes == old(nodes))
      ensures r.Err? ==> forall q :: q in old(nodes) ==> q in nodes && nodes[q] == old(nodes)[q]
      ensures r.Err? ==> forall q :: q in nodes && q !in old(nodes) ==> nodes[q].Dir?
    {
      hide WellFormed, LinkFreeAbove, LinkFree, DirsAbove, Names, CleanRooted, PathInRootfs, Resolve, MkDirs,
           Writable, DirsWork, StepsWork;
      var resolved, _ := ResolveSymlinks(containerPath);
      if resolved.Err? {
        return Err(resolved.error);
      }
      ghost var t, p := nodes, Resolve(nodes, containerPath).path;
      ResolveContained(t, containerPath);
      CleanPathStaysInRootfs([], p);
      assert [] + p == p;
      var host := PathInRootfs([], resolved.value);
      var dir := Parent(host);
      DirsAboveParent(t, p);
      var made := MkdirAll(dir, env.mkdirs);
      if !made {
        ghost var k :| 0 <= k <= |dir| && nodes == MkDirs(t, dir[..k]);
        MkDirsGrowsTo(t, dir, k);
        MkDirsMakesDirs(t, dir, k);
        MkDirsOfExisting(t, p, k);
        return Err(Failed);
      }
      assert dir[..|dir|] == dir;
      MkDirsGrowsTo(t, dir, |dir|);
      MkDirsMakesDirs(t, dir, |dir|);
      MkDirsLeavesBelow(t, p);
      MkDirsOfExisting(t, p, |dir|);
      WritableAfterMkDirs(t, p, env);
      var written, _ := AtomicWrite(host, data, env);
      r := if written.Ok? then Ok(resolved.value) else Err(written.error);
    }
  }

  /** Making the parent directories decides nothing about the write but that there are some. */
  lemma WritableAfterMkDirs(t: Tree, p: Path, env: WriteEnv)
    requires WellFormed(t) && Names(p) && LinkFree(t, p) && DirsAbove(t, p)
    ensures Writable(MkDirs(t, Parent(p)), p, env) <==> Replaceable(t, p) && TempPath(p, env) !in t && StepsWork(env)
  {
    hide WellFormed, MkDirs, StepsWork, LinkFree, DirsAbove, LinkFreeAbove, Names;
    var dir := Parent(p);
    DirsAboveParent(t, p);
    MkDirsGrows(t, dir);
    MkDirsLeavesBelow(t, p);
    var tmp := TempPath(p, env);
    assert |tmp| > |dir|;
  }

  /** Above what exists there is no directory to make. */
  lemma MkDirsOfExisting(t: Tree, p: Path, k: nat)
    requires WellFormed(t) && k <= |Parent(p)|
    ensures p in t ==> MkDirs(t, Parent(p)[..k]) == t
  {
    if p in t {
      NamesInTree(t, p);
      assert Parent(p)[..k] == p[..k];
    }
  }

  lemma DirsAboveParent(t: Tree, p: Path)
    requires WellFormed(t) && Names(p) && LinkFree(t, p) && DirsAbove(t, p)
    ensures Names(Parent(p)) && DirsAbove(t, Parent(p)) && (Parent(p) in t ==> t[Parent(p)].Dir?)
  {
    var dir := Parent(p);
    if p != [] {
      forall i | 0 <= i <= |dir| ensures dir[..i] == p[..i] {}
      assert dir == p[..|dir|];
    }
  }

  lemma MkDirsMakesDirs(t: Tree, dir: Path, k: nat)
    requires WellFormed(t) && Names(dir) && DirsAbove(t, dir) && (dir in t ==> t[dir].Dir?) && k <= |dir|
    ensures forall q :: q in MkDirs(t, dir[..k]) && q !in t ==> MkDirs(t, dir[..k])[q].Dir?
  {
    var d := dir[..k];
    assert dir[..|dir|] == dir;
    forall i | 0 <= i <= k ensures d[..i] == dir[..i] {}
    assert d[..k] == d;
    MkDirsGrows(t, d);
  }

  /** Making the parent directories leaves the target as it was, and puts no link above it. */
  lemma MkDirsLeavesBelow(t: Tree, p: Path)
    requires WellFormed(t) && Names(p) && LinkFree(t, p) && DirsAbove(t, p)
    ensures var t' := MkDirs(t, Parent(p));
            && (p in t' <==> p in t) && (p in t' ==> t'[p] == t[p])
            && LinkFreeAbove(t', p)
  {
    DirsAboveParent(t, p);
    MkDirsGrows(t, Parent(p));
    var t' := MkDirs(t, Parent(p));
    forall i | 0 <= i < |p| && p[..i] in t' ensures !t'[p[..i]].Link? {
      if p[..i] in t {
        assert t'[p[..i]] == t[p[..i]];
      }
    }
  }

  lemma MkDirsStep(t: Tree, dir: Path, k: nat)
    requires WellFormed(t) && Names(dir) && DirsAbove(t, dir) && (dir in t ==> t[dir].Dir?) && k < |dir|
    ensures var made, next := MkDirs(t, dir[..k]), dir[..k + 1];
            && MkDirs(t, next) == (if next in made then made else made[next := Dir])
            && (next in made ==> made[next].Dir?)
  {
    var next := dir[..k + 1];
    assert Parent(next) == dir[..k];
    assert dir[..|dir|] == dir;
    MkDirsGrowsTo(t, dir, k);
  }

  lemma MkDirsGrowsTo(t: Tree, dir: Path, k: nat)
    requires WellFormed(t) && Names(dir) && DirsAbove(t, dir) && (dir in t ==> t[dir].Dir?) && k <= |dir|
    ensures WellFormed(MkDirs(t, dir[..k]))
    ensures forall q :: q in t ==> q in MkDirs(t, dir[..k]) && MkDirs(t, dir[..k])[q] == t[q]
    ensures forall q :: q in MkDirs(t, dir[..k]) && q !in t ==> q <= dir[..k]
  {
    var d := dir[..k];
    assert dir[..|dir|] == dir;
    forall i | 0 <= i <= k ensures d[..i] == dir[..i] {}
    assert d[..k] == d;
    MkDirsGrows(t, d);
  }

  lemma ProbeInside(t: Tree, resolved: Path, part: string)
    requires WellFormed(t) && Standing(t, resolved) && IsName(part)
    ensures LinkFreeAbove(t, resolved + [part]) && Inside(t, resolved + [part])
  {
    NamesInTree(t, resolved);
    StandingStep(t, resolved, part);
    forall root ensures PathInRootfs(root, Render(resolved + [part])) == root + (resolved + [part]) {
      CleanPathStaysInRootfs(root, resolved + [part]);
    }
  }

  lemma RootStands(t: Tree)
    requires WellFormed(t)
    ensures Standing(t, [])
  {
  }

  /** One round of the resolution loop. */
  lemma LoopStep(t: Tree, resolved: Path, remaining: Path, hops: nat)
    requires WellFormed(t) && Standing(t, resolved) && hops <= MAX_SYMLINK_HOPS && remaining != []
    requires LinkFreeAbove(t, resolved + [remaining[0]])
    ensures var next := resolved + [remaining[0]];
            var end := ResolveFrom(t, resolved, remaining, hops);
            match Lstat(t, next)
            case Missing => end == Resolved(resolved + remaining)
            case NotDir => end == NotDirectory(next)
            case Found(Link(target)) =>
              end == if hops == MAX_SYMLINK_HOPS then TooManyHops
                     else (RootStands(t); ResolveFrom(t, [], LinkRestart(resolved, target) + remaining[1..], hops + 1))
            case Found(_) => Standing(t, next) && end == ResolveFrom(t, next, remaining[1..], hops)
  {
    hide LinkRestart;
  }

  lemma LoopEnd(t: Tree, resolved: Path, hops: nat)
    requires WellFormed(t) && Standing(t, resolved) && hops <= MAX_SYMLINK_HOPS
    ensures ResolveFrom(t, resolved, [], hops) == Resolved(resolved)
  {
  }

  lemma LinkRestartIsSplit(resolved: Path, target: string)
    ensures LinkRestart(resolved, target) == SplitContainerPath(LinkContainerPath(resolved, target))
  {
  }
}
