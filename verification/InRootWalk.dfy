/**
 The reference resolver: one component at a time below the rootfs, ".." going to
 the parent and staying at the root, as openat2 does with RESOLVE_IN_ROOT. The
 lexical restart-from-root loop is proved to compute the same outcome wherever
 ".." stands before every name in the query and in link targets.
 */
module InRootWalk {
  import opened Seqs
  import opened Paths
  import opened FileTree
  import opened Resolver

  /** Walks `todo` from directory `cur`, following at most `links` more links. */
  function Walk(t: Tree, cur: Path, todo: seq<string>, links: nat): Resolution
    requires WellFormed(t) && Standing(t, cur)
    decreases links, |todo|
  {
    if todo == [] then Resolved(cur)
    else if todo[0] == ".." then
      StandingPrefix(t, cur, |Parent(cur)|);
      if t[cur].Dir? then Walk(t, Parent(cur), todo[1..], links) else NotDirectory(cur + [".."])
    else
      var next := cur + [todo[0]];
      StandingStep(t, cur, todo[0]);
      match Lstat(t, next)
      case Missing => if ".." in todo[1..] then NoEntry else Resolved(cur + todo)
      case NotDir => NotDirectory(next)
      case Found(Link(target)) =>
        if links == 0 then TooManyHops
        else Walk(t, LinkBase(cur, target), TargetComponents(target) + todo[1..], links - 1)
      case Found(_) => Walk(t, next, todo[1..], links)
  }

  function TargetComponents(target: string): seq<string> {
    Components(Split(target, '/'))
  }

  /** A link target both resolvers read alike: ".." before every name, and no name ending in white space. */
  ghost predicate PlainTarget(target: string) {
    UpsFirst(TargetComponents(target)) && NoSpaceEnds(TargetComponents(target))
  }

  ghost predicate PlainLinks(t: Tree) {
    forall p :: p in t && t[p].Link? ==> PlainTarget(t[p].target)
  }

  lemma {:induction false} Rewalk(t: Tree, done: Path, mid: Path, rest: Path, hops: nat)
    requires WellFormed(t) && Standing(t, done + mid) && hops <= MAX_SYMLINK_HOPS
    ensures Standing(t, done)
    ensures ResolveFrom(t, done, mid + rest, hops) == ResolveFrom(t, done + mid, rest, hops)
    decreases |mid|
  {
    hide LinkRestart;
    StandingPrefix(t, done + mid, |done|);
    assert (done + mid)[..|done|] == done;
    if mid == [] {
      assert mid + rest == rest && done + mid == done;
    } else {
      var next := done + [mid[0]];
      assert next + mid[1..] == done + mid;
      StandingPrefix(t, done + mid, |next|);
      assert (done + mid)[..|next|] == next == next[..|next|];
      assert (mid + rest)[1..] == mid[1..] + rest;
      Rewalk(t, next, mid[1..], rest, hops);
    }
  }

  lemma RootIsDir(t: Tree)
    requires WellFormed(t)
    ensures [] in t && t[[]].Dir?
  {
  }

  lemma WalkUpOne(t: Tree, cur: Path, rest: seq<string>, links: nat)
    requires WellFormed(t) && cur in t && t[cur].Dir?
    ensures Standing(t, Parent(cur))
    ensures Walk(t, cur, [".."] + rest, links) == Walk(t, Parent(cur), rest, links)
  {
    StandingPrefix(t, cur, |Parent(cur)|);
    assert ([".."] + rest)[1..] == rest;
  }

  /** Walking a target whose ".." come first climbs to a prefix of the directory, as cleaning does. */
  lemma {:induction false} WalkUps(t: Tree, cur: Path, comps: seq<string>, rest: Path, links: nat)
    returns (m: nat, names: Path)
    requires WellFormed(t) && cur in t && t[cur].Dir?
    requires UpsFirst(comps) && (forall n :: n in comps ==> n == ".." || IsName(n))
    ensures m <= |cur| && Names(names) && Standing(t, cur) && Standing(t, cur[..m])
    ensures CleanOnto(cur, comps) == cur[..m] + names
    ensures Walk(t, cur, comps + rest, links) == Walk(t, cur[..m], names + rest, links)
    decreases |comps|
  {
    hide Walk, WellFormed;
    assert cur[..|cur|] == cur;
    if comps != [] && comps[0] == ".." && UpsFirst(comps[1..]) {
      WalkUpOne(t, cur, comps[1..] + rest, links);
      StandingPrefix(t, cur, |Parent(cur)|);
      RootIsDir(t);
      assert Parent(cur) == [] || Parent(cur) == cur[..|cur| - 1];
      m, names := WalkUps(t, Parent(cur), comps[1..], rest, links);
      assert comps + rest == [".."] + (comps[1..] + rest);
      assert Parent(cur)[..m] == cur[..m];
    } else {
      CleanOntoKeepsNames(cur, comps);
      m, names := |cur|, comps;
    }
  }

  /** From any reachable state of the loop with only names left, the two resolvers agree. */
  lemma {:induction false} LoopIsWalk(t: Tree, resolved: Path, remaining: Path, hops: nat)
    requires WellFormed(t) && PlainLinks(t) && Standing(t, resolved) && hops <= MAX_SYMLINK_HOPS
    requires Names(resolved) && Names(remaining) && NoSpaceEnds(resolved) && NoSpaceEnds(remaining)
    ensures ResolveFrom(t, resolved, remaining, hops) == Walk(t, resolved, remaining, MAX_SYMLINK_HOPS - hops)
    decreases 2 * (MAX_SYMLINK_HOPS - hops), |remaining|
  {
    hide LinkRestart, TargetComponents, UpsFirst;
    if remaining != [] {
      var candidate := resolved + [remaining[0]];
      var rest := remaining[1..];
      StandingStep(t, resolved, remaining[0]);
      assert IsName(remaining[0]);
      match Lstat(t, candidate)
      case Missing =>
        assert forall n :: n in rest ==> n in remaining;
        assert ".." !in rest;
      case NotDir =>
      case Found(Link(target)) =>
        if hops < MAX_SYMLINK_HOPS {
          LinkStep(t, resolved, target, rest, hops + 1);
        }
      case Found(_) =>
        LoopIsWalk(t, candidate, rest, hops);
    }
  }

  lemma TargetComponentsAreNames(target: string)
    ensures forall n :: n in TargetComponents(target) ==> n == ".." || IsName(n)
  {
    SplitIsPlain(target, '/');
    ComponentsAreNames(Split(target, '/'));
  }

  /** Following a link: the restart from the root reaches the state the walk continues in. */
  lemma {:induction false} LinkStep(t: Tree, dir: Path, target: string, rest: Path, hops: nat)
    requires WellFormed(t) && PlainLinks(t) && PlainTarget(target) && hops <= MAX_SYMLINK_HOPS
    requires dir in t && t[dir].Dir? && Names(rest) && NoSpaceEnds(dir) && NoSpaceEnds(rest)
    ensures Standing(t, LinkBase(dir, target))
    ensures ResolveFrom(t, [], LinkRestart(dir, target) + rest, hops)
         == Walk(t, LinkBase(dir, target), TargetComponents(target) + rest, MAX_SYMLINK_HOPS - hops)
    decreases 2 * (MAX_SYMLINK_HOPS - hops) + 1, 0
  {
    hide LinkRestart, UpsFirst, ResolveFrom, Walk, CleanOnto;
    var base, comps := LinkBase(dir, target), TargetComponents(target);
    NamesInTree(t, dir);
    TargetComponentsAreNames(target);
    var m, names := WalkUps(t, base, comps, rest, MAX_SYMLINK_HOPS - hops);
    RestartIsCleaning(dir, target);
    assert [] + base[..m] == base[..m];
    Rewalk(t, [], base[..m], names + rest, hops);
    assert LinkRestart(dir, target) + rest == base[..m] + (names + rest);
    assert NoSpaceEnds(base[..m] + names);
    assert forall n :: n in names ==> n in base[..m] + names;
    LoopIsWalk(t, base[..m], names + rest, hops);
  }

  /** Without white space at the end of names, the text-level restart is component-level cleaning. */
  lemma RestartIsCleaning(dir: Path, target: string)
    requires Names(dir) && NoSpaceEnds(dir) && NoSpaceEnds(TargetComponents(target))
    ensures LinkRestart(dir, target) == CleanOnto(LinkBase(dir, target), TargetComponents(target))
    ensures NoSpaceEnds(LinkRestart(dir, target))
  {
    var base := LinkBase(dir, target);
    var c := CleanOnto(base, Split(target, '/'));
    LinkContainerPathIsCleaning(dir, target);
    CleanOntoComponents(base, Split(target, '/'));
    CleanOntoNoSpaceEnds(base, TargetComponents(target));
    SplitOfRender(c);
  }

  /**
   The refinement theorem: on every tree, cyclic ones included, the loop ends as
   the component-wise walk does when ".." stands before every name and no name
   ends in white space. Both give the same path, the same ENOTDIR, and the hop
   error for the same inputs.
   */
  lemma ResolveIsInRootWalk(t: Tree, query: string)
    requires WellFormed(t) && PlainLinks(t)
    requires PlainTarget(query) && TrimSpace(query) == query
    ensures Resolve(t, query) == Walk(t, [], TargetComponents(query), 40)
  {
    hide UpsFirst, LinkRestart;
    var comps := TargetComponents(query);
    TargetComponentsAreNames(query);
    SplitContainerPathIsCleaning(query);
    CleanOntoComponents([], Split(query, '/'));
    CleanOntoNoSpaceEnds([], comps);
    var m, names := WalkUps(t, [], comps, [], MAX_SYMLINK_HOPS);
    assert comps + [] == comps && names + [] == names && m == 0;
    assert [] + names == names;
    LoopIsWalk(t, [], names, 0);
  }

  /** A walk that ends without running out of links ends the same way under every larger limit. */
  lemma {:induction false} WalkLimit(t: Tree, cur: Path, todo: seq<string>, links: nat, more: nat)
    requires WellFormed(t) && Standing(t, cur) && links <= more
    requires Walk(t, cur, todo, links) != TooManyHops
    ensures Walk(t, cur, todo, more) == Walk(t, cur, todo, links)
    decreases links, |todo|
  {
    hide TargetComponents;
    if todo == [] {
    } else if todo[0] == ".." {
      StandingPrefix(t, cur, |Parent(cur)|);
      if t[cur].Dir? {
        WalkLimit(t, Parent(cur), todo[1..], links, more);
      }
    } else {
      StandingStep(t, cur, todo[0]);
      match Lstat(t, cur + [todo[0]])
      case Missing =>
      case NotDir =>
      case Found(Link(target)) =>
        WalkLimit(t, LinkBase(cur, target), TargetComponents(target) + todo[1..], links - 1, more - 1);
      case Found(_) =>
        WalkLimit(t, cur + [todo[0]], todo[1..], links, more);
    }
  }
}
