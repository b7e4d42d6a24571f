/**
 What a write does to the tree, and what a crash during one can leave: the pure
 side of WriteFile in internal/util/containerfs/containerfs.go and of
 AtomicWrite in pkg/fsx/atomicwrite.go.
 */
module FileWrites {
  import opened Bytes
  import opened Options
  import opened Seqs
  import opened Paths
  import opened FileTree
  import opened Resolver

  const MAX_READ_SIZE: nat := 0x100_0000

  datatype FsError = SymlinkLoop | NotADirectory | NotFound | NotRegular | TooLarge | Refused | Failed
  datatype Result<+T> = Ok(value: T) | Err(error: FsError)

  // ----- reading

  /** ReadRegularFile. */
  function ReadRegular(t: Tree, p: Path): Result<bytes>
    requires LinkFreeAbove(t, p)
  {
    match Lstat(t, p)
    case Missing => Err(NotFound)
    case NotDir => Err(NotADirectory)
    case Found(File(data, _)) => if |data| > MAX_READ_SIZE then Err(TooLarge) else Ok(data)
    case Found(_) => Err(NotRegular)
  }

  function ResolveError(r: Resolution): FsError {
    if r.TooManyHops? then SymlinkLoop else NotADirectory
  }

  /** ReadFile: the data and the resolved container path. */
  function ReadAt(t: Tree, query: string): Result<(bytes, string)>
    requires WellFormed(t)
  {
    var r := Resolve(t, query);
    if !r.Resolved? then Err(ResolveError(r))
    else
      ResolveContained(t, query);
      match ReadRegular(t, r.path)
      case Ok(data) => Ok((data, Render(r.path)))
      case Err(e) => Err(e)
  }

  /**
   What a read finds, by the tree alone: each outcome exactly when the query
   leads to a node, or to none, of the kind it names.
   */
  lemma ReadOutcomes(t: Tree, query: string)
    requires WellFormed(t)
    ensures var r, o := Resolve(t, query), ReadAt(t, query);
            && (o == Err(SymlinkLoop) <==> r.TooManyHops?)
            && (o == Err(NotADirectory) <==> r.NotDirectory?)
            && (o == Err(NotFound) <==> r.Resolved? && r.path !in t)
            && (o == Err(NotRegular) <==> r.Resolved? && r.path in t && !t[r.path].File?)
            && (o == Err(TooLarge) <==> r.Resolved? && r.path in t && t[r.path].File? && |t[r.path].data| > 0x100_0000)
            && (o.Ok? <==> r.Resolved? && r.path in t && t[r.path].File? && |t[r.path].data| <= 0x100_0000)
            && (o.Ok? ==> o.value == (t[r.path].data, Render(r.path)))
            && (r.Resolved? ==> DirsAbove(t, r.path))
  {
    hide Resolve, Blocked, DirsAbove;
    AlwaysEnds(t, query);
    if Resolve(t, query).Resolved? {
      ResolveContained(t, query);
      NotBlockedBelowDirs(t, Resolve(t, query).path);
    }
  }

  lemma AlwaysEnds(t: Tree, query: string)
    requires WellFormed(t)
    ensures !Resolve(t, query).NoEntry?
  {
    NeverNoEntry(t, [], SplitContainerPath(query), 0);
  }

  lemma {:induction false} NotBlockedBelowDirs(t: Tree, p: Path)
    requires DirsAbove(t, p)
    ensures !Blocked(t, p)
    decreases |p|
  {
    if p != [] {
      assert p[..|p| - 1] == Parent(p);
      forall i | 0 <= i < |Parent(p)| ensures Parent(p)[..i] == p[..i] {}
      NotBlockedBelowDirs(t, Parent(p));
    }
  }

  // ----- writing

  /** The tree after MkdirAll. */
  function MkDirs(t: Tree, p: Path): Tree
    decreases |p|
  {
    if p in t then t else if p == [] then t[p := Dir] else MkDirs(t, Parent(p))[p := Dir]
  }

  /** The tree after a successful WriteFile to the resolved path. */
  function Written(t: Tree, p: Path, data: bytes): Tree {
    MkDirs(t, Parent(p))[p := File(data, true)]
  }

  /** A resolved path a regular file can be put at. */
  predicate Replaceable(t: Tree, p: Path) {
    p != [] && (p in t ==> !t[p].Dir? && !t[p].Link?)
  }

  lemma {:induction false} MkDirsGrows(t: Tree, p: Path)
    requires WellFormed(t) && Names(p) && DirsAbove(t, p) && (p in t ==> t[p].Dir?)
    ensures WellFormed(MkDirs(t, p)) && p in MkDirs(t, p) && MkDirs(t, p)[p].Dir?
    ensures forall q :: q in t ==> q in MkDirs(t, p) && MkDirs(t, p)[q] == t[q]
    ensures forall q :: q in MkDirs(t, p) && q !in t ==> q <= p && MkDirs(t, p)[q].Dir?
    decreases |p|
  {
    if p !in t {
      var dir := Parent(p);
      assert p[|p| - 1] in p && dir == p[..|p| - 1];
      forall i | 0 <= i < |dir| ensures dir[..i] == p[..i] {}
      MkDirsGrows(t, dir);
      assert dir <= p;
      var t0, t1 := MkDirs(t, dir), MkDirs(t, p);
      forall q {:trigger Parent(q)} | q in t1 && q != []
        ensures Parent(q) in t1 && t1[Parent(q)].Dir? && IsName(q[|q| - 1]) {
        if q == p {
          assert Parent(q) == dir;
        } else {
          assert q in t0 && Parent(q) in t0 && t0[Parent(q)].Dir?;
        }
      }
      assert [] in t1 && t1[[]].Dir?;
      assert WellFormed(t1);
    }
  }

  /** `after` is `before` with new nodes, and perhaps another file at `p`; nothing in the way of `p` is a link. */
  ghost predicate GrownAt(before: Tree, after: Tree, p: Path) {
    && WellFormed(before) && WellFormed(after)
    && (forall q :: q in before ==> q in after && (q != p ==> after[q] == before[q]))
    && (p in before ==> !before[p].Link?)
    && p in after && !after[p].Link?
  }

  /** Putting a file where none of the tree's directories is keeps the tree well-formed. */
  lemma ReplacedIsWellFormed(t: Tree, p: Path, node: Node)
    requires WellFormed(t) && Names(p) && Replaceable(t, p) && Parent(p) in t && t[Parent(p)].Dir?
    ensures WellFormed(t[p := node])
  {
    var t' := t[p := node];
    assert p[|p| - 1] in p && IsName(p[|p| - 1]);
    assert Parent(p) != p && Parent(p) in t';
    forall q {:trigger Parent(q)} | q in t' && q != []
      ensures Parent(q) in t' && t'[Parent(q)].Dir? && IsName(q[|q| - 1]) {
      if q == p {
        assert Parent(q) in t && t[Parent(q)].Dir?;
      } else {
        assert q in t && Parent(q) in t && t[Parent(q)].Dir?;
      }
    }
    assert [] in t' && t'[[]].Dir?;
    assert WellFormed(t');
  }

  lemma WrittenGrows(t: Tree, p: Path, data: bytes)
    requires WellFormed(t) && Names(p) && DirsAbove(t, p) && Replaceable(t, p)
    ensures GrownAt(t, Written(t, p, data), p)
  {
    hide WellFormed, MkDirs;
    var dir := Parent(p);
    assert dir == p[..|p| - 1];
    forall i | 0 <= i < |dir| ensures dir[..i] == p[..i] {}
    MkDirsGrows(t, dir);
    ReplacedIsWellFormed(MkDirs(t, dir), p, File(data, true));
  }

  /** A resolution that ends at `p`, or at something that existed, ends there in the grown tree too. */
  lemma {:induction false} SameRun(before: Tree, after: Tree, p: Path, resolved: Path, remaining: Path, hops: nat)
    requires GrownAt(before, after, p) && Standing(before, resolved) && hops <= MAX_SYMLINK_HOPS
    requires var r := ResolveFrom(before, resolved, remaining, hops);
             r.Resolved? && (r.path == p || r.path in before)
    ensures Standing(after, resolved)
    ensures ResolveFrom(after, resolved, remaining, hops) == ResolveFrom(before, resolved, remaining, hops)
    decreases MAX_SYMLINK_HOPS - hops, |remaining|
  {
    hide LinkRestart, Blocked;
    if remaining != [] {
      var candidate := resolved + [remaining[0]];
      StandingStep(before, resolved, remaining[0]);
      StandingStep(after, resolved, remaining[0]);
      match Lstat(before, candidate)
      case Missing =>
        MissingBelow(before, resolved, remaining);
        assert (resolved + remaining)[..|resolved + remaining|] == resolved + remaining;
        StandingIsLinkFree(after, p);
        LinkFreeResolvesToItself(after, resolved, remaining);
        MoreHopsLeft(after, resolved, remaining, hops, MAX_SYMLINK_HOPS);
      case NotDir =>
      case Found(Link(target)) =>
        SameRun(before, after, p, [], LinkRestart(resolved, target) + remaining[1..], hops + 1);
      case Found(_) =>
        SameRun(before, after, p, candidate, remaining[1..], hops);
    }
  }

  lemma SameEnd(before: Tree, after: Tree, p: Path, query: string)
    requires GrownAt(before, after, p)
    requires Resolve(before, query).Resolved?
    requires Resolve(before, query).path == p || Resolve(before, query).path in before
    ensures Resolve(after, query) == Resolve(before, query)
  {
    SameRun(before, after, p, [], SplitContainerPath(query), 0);
  }

  lemma ReadIsPresent(t: Tree, query: string)
    requires WellFormed(t) && ReadAt(t, query).Ok?
    ensures Resolve(t, query).Resolved? && Resolve(t, query).path in t
        && ReadAt(t, query).value.1 == Render(Resolve(t, query).path)
  {
    hide WellFormed, Resolve;
  }

  /** The same file at the end of the same path reads the same. */
  lemma SameRead(before: Tree, after: Tree, query: string)
    requires WellFormed(before) && WellFormed(after) && Resolve(after, query) == Resolve(before, query)
    requires ReadAt(before, query).Ok?
    requires var p := Resolve(before, query).path; p in before ==> p in after && after[p] == before[p]
    ensures ReadAt(after, query) == ReadAt(before, query)
  {
    hide WellFormed, Resolve;
  }

  lemma StandingIsLinkFree(t: Tree, p: Path)
    requires WellFormed(t) && Standing(t, p)
    ensures LinkFree(t, p) && DirsAbove(t, p) && LinkFreeAbove(t, p)
  {
    NamesInTree(t, p);
    assert p[..|p|] == p;
  }

  /** Read-back: a written file is read at the same resolved path, and its own path reads it too unless trimming
      changes it. */
  lemma ReadBack(t: Tree, query: string, data: bytes)
    requires WellFormed(t) && Resolve(t, query).Resolved? && Replaceable(t, Resolve(t, query).path)
    requires |data| <= MAX_READ_SIZE
    ensures var p := Resolve(t, query).path;
            var t' := Written(t, p, data);
            && WellFormed(t') && Resolve(t', query) == Resolved(p)
            && ReadAt(t', query) == Ok((data, Render(p)))
            && (StableLast(p) ==> ReadAt(t', Render(p)) == Ok((data, Render(p))))
  {
    var p := Resolve(t, query).path;
    var t' := Written(t, p, data);
    ResolveContained(t, query);
    WrittenGrows(t, p, data);
    SameRun(t, t', p, [], SplitContainerPath(query), 0);
    ResolveContained(t', query);
  }

  /** Frame: every other file reads as before, under every query, and every link is left alone. */
  lemma ReadFrame(t: Tree, query: string, data: bytes, other: string)
    requires WellFormed(t) && Resolve(t, query).Resolved? && Replaceable(t, Resolve(t, query).path)
    ensures var p := Resolve(t, query).path;
            var t' := Written(t, p, data);
            && WellFormed(t')
            && (forall q :: q in t && t[q].Link? ==> q in t' && t'[q] == t[q])
            && (ReadAt(t, other).Ok? && ReadAt(t, other).value.1 != Render(p) ==> ReadAt(t', other) == ReadAt(t, other))
  {
    hide WellFormed, Resolve, Written, ReadRegular;
    var p := Resolve(t, query).path;
    var t' := Written(t, p, data);
    ResolveContained(t, query);
    WrittenGrows(t, p, data);
    if ReadAt(t, other).Ok? && ReadAt(t, other).value.1 != Render(p) {
      ReadIsPresent(t, other);
      SameEnd(t, t', p, other);
      SameRead(t, t', other);
    }
  }

  // ----- crashes during an atomic write

  /** A state the write can be seen in: untouched, a temporary file beside it, or the new file in place. */
  ghost predicate Snapshot(t: Tree, p: Path, tmp: Path, data: bytes, s: Tree) {
    || s == t
    || (exists d, synced :: s == t[tmp := File(d, synced)])
    || s == t[p := File(data, true)]
  }

  /** What the disk may hold at `p`: synced data is whole, other data can be anything. */
  ghost predicate MayHold(t: Tree, p: Path, content: Option<bytes>) {
    if p !in t then content == None
    else if t[p].File? then content.Some? && (t[p].synced ==> content.value == t[p].data)
    else content == None
  }

  /** Directory updates reach the disk in order, so a crash leaves some state the write went through. */
  ghost predicate AfterCrash(history: seq<Tree>, p: Path, content: Option<bytes>) {
    exists i :: 0 <= i < |history| && MayHold(history[i], p, content)
  }

  /** Whatever a crash leaves at `p` is what could be there before, or the whole new data. */
  ghost predicate CrashAtomic(t: Tree, history: seq<Tree>, p: Path, data: bytes) {
    forall content :: AfterCrash(history, p, content) ==> MayHold(t, p, content) || content == Some(data)
  }

  lemma SnapshotsAreCrashAtomic(t: Tree, history: seq<Tree>, p: Path, tmp: Path, data: bytes)
    requires forall i :: 0 <= i < |history| ==> Snapshot(t, p, tmp, data, history[i])
    ensures tmp != p ==> CrashAtomic(t, history, p, data)
  {
  }

  /**
   Crash atomicity, exactly: given that the write got as far as its temporary
   file, a crash after any step leaves the whole old or the whole new content if
   and only if the temporary name differs from the target's.
   */
  lemma CrashAtomicExactly(t: Tree, history: seq<Tree>, p: Path, tmp: Path, data: bytes)
    requires forall i :: 0 <= i < |history| ==> Snapshot(t, p, tmp, data, history[i])
    requires tmp !in t && t[tmp := File([], false)] in history
    ensures CrashAtomic(t, history, p, data) <==> tmp != p
  {
    if tmp == p {
      var i :| 0 <= i < |history| && history[i] == t[tmp := File([], false)];
      var other: bytes := data + [0];
      assert |other| != |data|;
      assert MayHold(history[i], p, Some(other));
      assert AfterCrash(history, p, Some(other)) && !MayHold(t, p, Some(other));
    }
  }
}
