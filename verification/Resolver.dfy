/** Path resolution inside a container rootfs: ResolveSymlinks of internal/util/containerfs/containerfs.go. */
module Resolver {
  import opened Seqs
  import opened Paths
  import opened FileTree

  const MAX_SYMLINK_HOPS := 40

  /** `NoEntry` is never an outcome of the loop; the component-wise walk it is compared with can end so. */
  datatype Resolution = Resolved(path: Path) | NotDirectory(at: Path) | TooManyHops | NoEntry

  /** The components that replace a link: its target's container path, split again. */
  function LinkRestart(base: Path, target: string): Path {
    SplitContainerPath(LinkContainerPath(base, target))
  }

  /**
   The loop from an arbitrary state. Its precondition is an obligation at every
   recursive call: the names taken so far exist and none of them is a link.
   */
  function ResolveFrom(t: Tree, resolved: Path, remaining: Path, hops: nat): Resolution
    requires WellFormed(t) && Standing(t, resolved) && hops <= MAX_SYMLINK_HOPS
    decreases MAX_SYMLINK_HOPS - hops, |remaining|
  {
    if remaining == [] then Resolved(resolved)
    else
      var candidate := resolved + [remaining[0]];
      StandingStep(t, resolved, remaining[0]);
      match Lstat(t, candidate)
      case Missing => Resolved(resolved + remaining)
      case NotDir => NotDirectory(candidate)
      case Found(Link(target)) =>
        if hops == MAX_SYMLINK_HOPS then TooManyHops
        else ResolveFrom(t, [], LinkRestart(resolved, target) + remaining[1..], hops + 1)
      case Found(_) => ResolveFrom(t, candidate, remaining[1..], hops)
  }

  /** ResolveSymlinks on components. */
  function Resolve(t: Tree, query: string): Resolution
    requires WellFormed(t)
  {
    ResolveFrom(t, [], SplitContainerPath(query), 0)
  }

  /** The loop keeps missing names as they are: on no tree does it end for want of one. */
  lemma {:induction false} NeverNoEntry(t: Tree, resolved: Path, remaining: Path, hops: nat)
    requires WellFormed(t) && Standing(t, resolved) && hops <= MAX_SYMLINK_HOPS
    ensures !ResolveFrom(t, resolved, remaining, hops).NoEntry?
    decreases MAX_SYMLINK_HOPS - hops, |remaining|
  {
    hide LinkRestart;
    if remaining != [] {
      StandingStep(t, resolved, remaining[0]);
      match Lstat(t, resolved + [remaining[0]])
      case Found(Link(target)) =>
        if hops < MAX_SYMLINK_HOPS {
          NeverNoEntry(t, [], LinkRestart(resolved, target) + remaining[1..], hops + 1);
        }
      case Found(_) => NeverNoEntry(t, resolved + [remaining[0]], remaining[1..], hops);
      case _ =>
    }
  }

  lemma LinkRestartNames(base: Path, target: string)
    ensures Names(LinkRestart(base, target))
  {
    SplitContainerPathIsCleaning(LinkContainerPath(base, target));
  }

  /** A resolved path is a list of names, passes through directories only, and meets no link at any prefix. */
  lemma {:induction false} ResolvedIsLinkFree(t: Tree, resolved: Path, remaining: Path, hops: nat)
    requires WellFormed(t) && Standing(t, resolved) && hops <= MAX_SYMLINK_HOPS && Names(remaining)
    ensures var r := ResolveFrom(t, resolved, remaining, hops);
            r.Resolved? ==> Names(r.path) && LinkFree(t, r.path) && DirsAbove(t, r.path)
    decreases MAX_SYMLINK_HOPS - hops, |remaining|
  {
    hide LinkRestart;
    assert resolved[..|resolved|] == resolved;
    NamesInTree(t, resolved);
    if remaining != [] {
      var candidate := resolved + [remaining[0]];
      StandingStep(t, resolved, remaining[0]);
      match Lstat(t, candidate)
      case Missing =>
        MissingIsLinkFree(t, resolved, remaining);
      case NotDir =>
      case Found(Link(target)) =>
        if hops < MAX_SYMLINK_HOPS {
          LinkRestartNames(resolved, target);
          ResolvedIsLinkFree(t, [], LinkRestart(resolved, target) + remaining[1..], hops + 1);
        }
      case Found(_) =>
        ResolvedIsLinkFree(t, candidate, remaining[1..], hops);
    }
  }

  /** Below a missing name nothing exists, and the names above it are directories. */
  lemma MissingBelow(t: Tree, resolved: Path, remaining: Path)
    requires WellFormed(t) && Standing(t, resolved) && remaining != []
    requires LinkFreeAbove(t, resolved + [remaining[0]]) && Lstat(t, resolved + [remaining[0]]).Missing?
    ensures resolved in t && t[resolved].Dir?
    ensures forall i :: |resolved| < i <= |resolved + remaining| ==> (resolved + remaining)[..i] !in t
    ensures forall i :: 0 <= i <= |resolved| ==> (resolved + remaining)[..i] == resolved[..i]
  {
    var candidate := resolved + [remaining[0]];
    assert resolved == resolved[..|resolved|];
    assert Parent(candidate) == resolved;
    var whole := resolved + remaining;
    forall i | |resolved| < i <= |whole| ensures whole[..i] !in t {
      assert whole[..i][..|candidate|] == candidate;
      if whole[..i] in t {
        NamesInTree(t, whole[..i]);
      }
    }
  }

  lemma MissingIsLinkFree(t: Tree, resolved: Path, remaining: Path)
    requires WellFormed(t) && Standing(t, resolved) && remaining != []
    requires LinkFreeAbove(t, resolved + [remaining[0]]) && Lstat(t, resolved + [remaining[0]]).Missing?
    ensures LinkFree(t, resolved + remaining) && DirsAbove(t, resolved + remaining)
  {
    MissingBelow(t, resolved, remaining);
    NamesInTree(t, resolved);
    var whole := resolved + remaining;
    assert resolved[..|resolved|] == resolved;
    forall i | 0 <= i <= |whole| && whole[..i] in t ensures t[whole[..i]].Dir? {
      assert whole[..i] == resolved[..i];
    }
  }

  lemma {:induction false} NotBlocked(t: Tree, p: Path)
    requires DirsAbove(t, p)
    ensures !Blocked(t, p)
    decreases |p|
  {
    if p != [] {
      var q := Parent(p);
      forall i | 0 <= i < |q| ensures q[..i] == p[..i] {}
      NotBlocked(t, q);
    }
  }

  /** A path with no link at any prefix and only directories above it is left as it is, with no hop to spend. */
  lemma {:induction false} LinkFreeResolvesToItself(t: Tree, done: Path, rest: Path)
    requires WellFormed(t) && Standing(t, done) && LinkFree(t, done + rest) && DirsAbove(t, done + rest)
    ensures ResolveFrom(t, done, rest, MAX_SYMLINK_HOPS) == Resolved(done + rest)
    decreases |rest|
  {
    hide LinkRestart;
    if rest == [] {
      assert done + rest == done;
    } else {
      var next := done + [rest[0]];
      assert next + rest[1..] == done + rest;
      StandingStep(t, done, rest[0]);
      assert (done + rest)[..|next|] == next;
      forall i | 0 <= i < |next| ensures next[..i] == (done + rest)[..i] {}
      NotBlocked(t, next);
      if next in t {
        LinkFreeResolvesToItself(t, next, rest[1..]);
      }
    }
  }

  /**
   Containment: a successful resolution is a clean absolute path with no link at
   any prefix and nothing but directories above it; and, when its last name does
   not end in white space, resolving its text again gives it back without a hop.
   */
  lemma ResolveContained(t: Tree, query: string)
    requires WellFormed(t) && Resolve(t, query).Resolved?
    ensures var p := Resolve(t, query).path;
            && Names(p) && LinkFree(t, p) && DirsAbove(t, p)
            && CleanRooted(Render(p)) == Render(p)
            && (SplitContainerPath(Render(p)) == p <==> StableLast(p))
            && ResolveFrom(t, [], p, MAX_SYMLINK_HOPS) == Resolved(p)
            && (StableLast(p) ==> Resolve(t, Render(p)) == Resolved(p))
  {
    SplitContainerPathIsCleaning(query);
    ResolvedIsLinkFree(t, [], SplitContainerPath(query), 0);
    var p := Resolve(t, query).path;
    assert [] + p == p;
    LinkFreeResolvesToItself(t, [], p);
    SplitOfRender(p);
    RenderCleans(p);
    MoreHopsLeft(t, [], p, 0, MAX_SYMLINK_HOPS);
  }

  lemma RenderCleans(p: Path)
    requires Names(p)
    ensures CleanRooted(Render(p)) == Render(p)
  {
    var parts := if p == [] then [""] else p;
    SplitRender(p);
    CleanOntoConcat([], [""], parts);
    CleanOntoKeepsNames([], p);
    assert [] + p == p;
    assert CleanOnto([], [""]) == [] by { assert [""][1..] == []; }
  }

  /** What is resolved with fewer hops left is resolved alike with more. */
  lemma {:induction false} MoreHopsLeft(t: Tree, resolved: Path, remaining: Path, fewer: nat, hops: nat)
    requires WellFormed(t) && Standing(t, resolved) && fewer <= hops <= MAX_SYMLINK_HOPS
    requires ResolveFrom(t, resolved, remaining, hops) != TooManyHops
    ensures ResolveFrom(t, resolved, remaining, fewer) == ResolveFrom(t, resolved, remaining, hops)
    decreases MAX_SYMLINK_HOPS - hops, |remaining|
  {
    hide LinkRestart, WellFormed, Blocked, LinkFreeAbove;
    StandingPrefix(t, resolved, 0);
    assert resolved[..0] == [];
    if remaining != [] {
      var candidate := resolved + [remaining[0]];
      StandingStep(t, resolved, remaining[0]);
      match Lstat(t, candidate)
      case Missing =>
      case NotDir =>
      case Found(Link(target)) =>
        MoreHopsLeft(t, [], LinkRestart(resolved, target) + remaining[1..], fewer + 1, hops + 1);
      case Found(_) =>
        MoreHopsLeft(t, candidate, remaining[1..], fewer, hops);
    }
  }
}
