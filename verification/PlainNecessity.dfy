/**
 The exact condition on a link target for lexical resolution to follow it as the
 component-wise walk does: ".." before every name, and no name ending in white
 space. For a target that fails either there is a tree on which the two part.
 */
module PlainNecessity {
  import opened Seqs
  import opened Paths
  import opened FileTree
  import opened Resolver
  import opened InRootWalk

  /** All directories from the root down to `p`. */
  function DirChain(p: Path): Tree
    decreases |p|
  {
    if p == [] then map[[] := Dir] else DirChain(Parent(p))[p := Dir]
  }

  lemma {:induction false} DirChainKeys(p: Path)
    ensures forall q :: q in DirChain(p) <==> q <= p
    ensures forall q :: q in DirChain(p) ==> DirChain(p)[q] == Dir
    decreases |p|
  {
    if p != [] {
      DirChainKeys(Parent(p));
      forall q: Path ensures q in DirChain(p) <==> q <= p {
        if q <= p && q != p {
          assert q == p[..|q|] == Parent(p)[..|q|];
        }
        if q <= Parent(p) {
          assert q == p[..|q|];
        }
      }
    }
  }

  function TotalLength(comps: seq<string>): nat {
    if comps == [] then 0 else |comps[0]| + TotalLength(comps[1..])
  }

  lemma {:induction false} NoLongerThanTotal(comps: seq<string>)
    ensures forall n :: n in comps ==> |n| <= TotalLength(comps)
  {
    if comps != [] {
      NoLongerThanTotal(comps[1..]);
    }
  }

  /** A name that is none of the given components. */
  function FreshName(comps: seq<string>): (n: string)
    ensures IsName(n) && !EndsInSpace(n)
  {
    var n: string := seq(TotalLength(comps) + 3, _ => 'z');
    assert n[0] == 'z';
    n
  }

  lemma ParentOfPrefix(p: Path, whole: Path)
    requires p != [] && p <= whole && Names(whole)
    ensures Parent(p) <= whole && IsName(p[|p| - 1])
  {
    assert p[|p| - 1] == whole[|p| - 1];
  }

  lemma {:induction false} WalkAlong(t: Tree, done: Path, mid: Path, rest: seq<string>, links: nat)
    requires WellFormed(t) && Standing(t, done + mid) && Standing(t, done) && Names(mid)
    ensures Walk(t, done, mid + rest, links) == Walk(t, done + mid, rest, links)
    decreases |mid|
  {
    if mid == [] {
      assert mid + rest == rest && done + mid == done;
    } else {
      var next := done + [mid[0]];
      StandingStep(t, done, mid[0]);
      assert IsName(mid[0]);
      assert next + mid[1..] == done + mid && (done + mid)[..|next|] == next;
      StandingPrefix(t, done + mid, |next|);
      assert (mid + rest)[1..] == mid[1..] + rest;
      WalkAlong(t, next, mid[1..], rest, links);
    }
  }

  /** A name that does not exist in an existing directory is reported missing. */
  lemma NotBelowStanding(t: Tree, dir: Path, n: string)
    requires WellFormed(t) && dir in t && t[dir].Dir? && dir + [n] !in t
    ensures LinkFreeAbove(t, dir + [n]) && Lstat(t, dir + [n]) == Missing
  {
    var p := dir + [n];
    StandingStep(t, dir, n);
    NamesInTree(t, dir);
    forall i | 0 <= i < |p| ensures p[..i] in t && t[p[..i]].Dir? {
      assert p[..i] == dir[..i];
      assert dir[..|dir|] == dir;
    }
    NotBlocked(t, p);
  }

  lemma ResolveFirstLink(t: Tree, target: string, link: string)
    requires WellFormed(t) && IsName(link) && [link] in t && t[[link]] == Link(target)
    ensures ResolveFrom(t, [], [link], 0) == ResolveFrom(t, [], LinkRestart([], target), 1)
  {
    hide LinkRestart;
    StandingStep(t, [], link);
    assert [] + [link] == [link] && [link][1..] == [];
    assert LinkRestart([], target) + [] == LinkRestart([], target);
  }

  lemma WalkFirstLink(t: Tree, target: string, link: string)
    requires WellFormed(t) && IsName(link) && [link] in t && t[[link]] == Link(target)
    ensures Walk(t, [], [link], MAX_SYMLINK_HOPS) == Walk(t, [], TargetComponents(target), MAX_SYMLINK_HOPS - 1)
  {
    hide TargetComponents;
    StandingStep(t, [], link);
    assert [] + [link] == [link] && [link][1..] == [] && LinkBase([], target) == [];
    assert TargetComponents(target) + [] == TargetComponents(target);
  }

  lemma NamesTarget(p: Path)
    requires Names(p) && NoSpaceEnds(p) && p != []
    ensures TargetComponents(Render(p)) == p && PlainTarget(Render(p))
  {
    SplitRender(p);
    ComponentsKeepNames(p);
    assert ([""] + p)[1..] == p;
  }

  lemma {:induction false} ComponentsKeepNames(p: Path)
    requires Names(p)
    ensures Components(p) == p
    ensures forall i :: 0 <= i < |p| ==> p[i] != ".."
  {
    if p != [] {
      assert IsName(p[0]);
      ComponentsKeepNames(p[1..]);
      forall i | 0 <= i < |p| ensures p[i] != ".." { assert p[i] in p; }
    }
  }

  /** Every link is plain, but for links with the given target. */
  ghost predicate PlainLinksBut(t: Tree, target: string) {
    forall p :: p in t && t[p].Link? ==> t[p].target == target || PlainTarget(t[p].target)
  }

  // ----- a name followed by ".."

  /** A rootfs with a link and nothing else. */
  function OneLink(target: string, link: string): Tree {
    map[[] := Dir, [link] := Link(target)]
  }

  lemma OneLinkNodes(target: string, link: string)
    requires IsName(link)
    ensures var t := OneLink(target, link); WellFormed(t) && forall q :: q in t <==> q == [] || q == [link]
  {
    assert [link][..0] == [];
  }

  /** The walk finds no entry where a name is missing and ".." follows. */
  lemma {:induction false} WalkFindsNone(target: string, link: string, todo: seq<string>, links: nat)
    requires IsName(link) && link !in todo && !UpsFirst(todo)
    ensures WellFormed(OneLink(target, link)) && Standing(OneLink(target, link), [])
    ensures Walk(OneLink(target, link), [], todo, links) == NoEntry
    decreases |todo|
  {
    hide TargetComponents, UpsFirst, WellFormed, OneLink;
    var t := OneLink(target, link);
    OneLinkNodes(target, link);
    RootIsDir(t);
    UpAfterName(todo);
    if todo[0] == ".." {
      WalkFindsNone(target, link, todo[1..], links);
    } else {
      assert [] + [todo[0]] == [todo[0]] && [todo[0]][0] != [link][0];
      NotBelowStanding(t, [], todo[0]);
    }
  }

  lemma UpAfterName(todo: seq<string>)
    requires !UpsFirst(todo)
    ensures todo != [] && if todo[0] == ".." then !UpsFirst(todo[1..]) else ".." in todo[1..]
  {
    if todo[0] != ".." {
      var i :| 0 <= i < |todo| && todo[i] == "..";
      assert todo[1..][i - 1] == "..";
    }
  }

  // ----- a last name that ends in white space

  lemma NothingThere(target: string, link: string, p: Path)
    requires IsName(link) && link !in p && Names(p)
    ensures WellFormed(OneLink(target, link)) && Standing(OneLink(target, link), [])
    ensures forall hops: nat :: hops <= MAX_SYMLINK_HOPS ==>
        ResolveFrom(OneLink(target, link), [], p, hops) == Resolved(p)
    ensures forall links: nat :: Walk(OneLink(target, link), [], p, links) == Resolved(p)
  {
    hide TargetComponents, LinkRestart;
    var t := OneLink(target, link);
    OneLinkNodes(target, link);
    if p != [] {
      assert IsName(p[0]);
      assert [] + [p[0]] == [p[0]] && [p[0]][0] != [link][0] && [] + p == p;
      NotBelowStanding(t, [], p[0]);
      assert forall n :: n in p[1..] ==> n in p && IsName(n);
      assert ".." !in p[1..];
    }
  }

  // ----- an inner name that ends in white space

  /** Directories down to one whose name ends in white space, a link to it inside it, and a link to the target. */
  function SpaceTree(target: string, link: string, dir: Path, n: string): Tree {
    DirChain(dir)[[link] := Link(target)][dir + [n] := Link(".")]
  }

  ghost predicate IsSpaceTree(t: Tree, target: string, link: string, dir: Path, n: string) {
    && WellFormed(t) && dir != [] && Names(dir) && IsName(n) && IsName(link) && link !in dir && link != n
    && EndsInSpace(dir[|dir| - 1])
    && (forall q :: q in t <==> q <= dir || q == [link] || q == dir + [n])
    && (forall q :: q <= dir ==> t[q] == Dir)
    && t[[link]] == Link(target) && t[dir + [n]] == Link(".")
  }

  lemma SpaceTreeIs(target: string, link: string, dir: Path, n: string)
    requires dir != [] && Names(dir) && IsName(n) && IsName(link) && link !in dir && link != n
        && EndsInSpace(dir[|dir| - 1])
    ensures IsSpaceTree(SpaceTree(target, link, dir, n), target, link, dir, n)
  {
    hide IsName, EndsInSpace;
    var t := SpaceTree(target, link, dir, n);
    DirChainKeys(dir);
    assert [link][0] == link && (dir + [n])[0] == dir[0] && dir[0] in dir;
    assert !([link] <= dir) && !(dir + [n] <= dir) && [] <= dir;
    forall p {:trigger Parent(p)} | p in t && p != []
      ensures Parent(p) in t && t[Parent(p)].Dir? && IsName(p[|p| - 1]) {
      if p <= dir {
        ParentOfPrefix(p, dir);
      } else if p == [link] {
        assert Parent(p) == [];
      } else {
        assert Parent(p) == dir;
      }
    }
  }

  /** From above that directory, names that do not end in white space never lead into it. */
  lemma {:induction false} LoopAvoids(t: Tree, target: string, link: string, dir: Path, n: string, cur: Path,
      todo: Path)
    requires IsSpaceTree(t, target, link, dir, n) && cur < dir && Names(todo) && NoSpaceEnds(todo) && link !in todo
    ensures Standing(t, cur)
    ensures var r := ResolveFrom(t, cur, todo, 2); r.Resolved? && !(dir <= r.path)
    decreases |todo|
  {
    hide LinkRestart;
    if todo != [] {
      var next := cur + [todo[0]];
      StandingStep(t, cur, todo[0]);
      assert next[|cur|] == todo[0] && !EndsInSpace(todo[0]);
      assert forall m :: m in todo[1..] ==> m in todo;
      if next in t {
        assert next != [link] by { assert next[0] == if cur == [] then todo[0] else dir[0]; }
        assert next <= dir && next != dir;
        LoopAvoids(t, target, link, dir, n, next, todo[1..]);
      } else {
        NotBelowStanding(t, cur, todo[0]);
        assert (cur + todo)[..|next|] == next;
        NotInto(dir, cur + todo, next);
      }
    }
  }

  lemma NotInto(dir: Path, whole: Path, next: Path)
    requires next <= whole && |next| <= |dir| && !(next <= dir)
    ensures !(dir <= whole)
  {
    if dir <= whole {
      PrefixesNest(dir, whole, next);
    }
  }

  lemma PrefixesNest(dir: Path, whole: Path, next: Path)
    requires next <= whole && dir <= whole && |next| <= |dir|
    ensures next <= dir
  {
    assert dir[..|next|] == whole[..|next|];
  }

  /** The walk stays in that directory. */
  lemma {:induction false} WalkStays(t: Tree, target: string, link: string, dir: Path, n: string, todo: Path,
      links: nat)
    requires IsSpaceTree(t, target, link, dir, n) && Names(todo)
    ensures Standing(t, dir)
    ensures var r := Walk(t, dir, todo, links); r.TooManyHops? || (r.Resolved? && dir <= r.path)
    decreases |todo|
  {
    hide TargetComponents, IsSpaceTree, WellFormed;
    InSpaceDir(t, target, link, dir, n);
    if todo != [] {
      assert IsName(todo[0]);
      StandingStep(t, dir, todo[0]);
      assert forall m :: m in todo[1..] ==> m in todo && IsName(m);
      if todo[0] == n {
        DotNamesNothing();
        if links > 0 {
          assert LinkBase(dir, ".") == dir && [] + todo[1..] == todo[1..];
          WalkStays(t, target, link, dir, n, todo[1..], links - 1);
        }
      } else {
        NotBelowStanding(t, dir, todo[0]);
        assert ".." !in todo[1..];
      }
    }
  }

  /** What lies in that directory: the link to it, and nothing else. */
  lemma InSpaceDir(t: Tree, target: string, link: string, dir: Path, n: string)
    requires IsSpaceTree(t, target, link, dir, n)
    ensures WellFormed(t) && dir in t && t[dir].Dir? && dir + [n] in t && t[dir + [n]] == Link(".")
    ensures forall m :: m != n ==> dir + [m] !in t
  {
    hide WellFormed;
    assert dir <= dir;
    forall m | m != n ensures dir + [m] !in t {
      assert (dir + [m])[|dir|] == m && (dir + [n])[|dir|] == n && |dir + [m]| > |dir| >= 1;
    }
  }

  lemma DotNamesNothing()
    ensures TargetComponents(".") == [] && PlainTarget(".")
  {
    SplitOnePart(".", '/');
  }

  /** Trimming the text of a path whose last name ends in white space: another last name, or none, or a step up. */
  lemma TrimmedPath(dir: Path) returns (m: string)
    requires Names(dir) && dir != [] && EndsInSpace(dir[|dir| - 1])
    ensures var q := SplitContainerPath(Render(dir));
            q == Parent(dir) || q == Parent(Parent(dir)) || (q == Parent(dir) + [m] && m != dir[|dir| - 1] && IsName(m))
  {
    hide IsSpace;
    var front, n := Parent(dir), dir[|dir| - 1];
    SplitContainerPathIsCleaning(Render(dir));
    assert dir == front + [n] && IsName(n);
    RenderSnoc(front, n);
    m := TrimAfterSlash(DirText(front), n);
    CleanBelow(front, m);
    SplitOnePart(m, '/');
    assert CleanOnto(front, [m]) == if m == "" || m == "." then front else if m == ".." then Parent(front)
      else front + [m];
  }

  // ----- the tree on which the two part

  /** The components left of a target, where links to it lie in the root: what the lexical loop restarts with. */
  lemma RestartAtRoot(target: string)
    ensures var p := CleanOnto([], TargetComponents(target));
            && Names(p) && (forall n :: n in p ==> n in TargetComponents(target))
            && LinkRestart([], target) == SplitContainerPath(Render(p))
            && (LinkRestart([], target) == p <==> StableLast(p))
  {
    hide SplitContainerPath, Render;
    var p := CleanOnto([], TargetComponents(target));
    LinkContainerPathIsCleaning([], target);
    CleanOntoComponents([], Split(target, '/'));
    TargetComponentsAreNames(target);
    CleanOntoAddsNothing([], TargetComponents(target));
    SplitOfRender(p);
  }

  /** Loop and walk agree on the names where ".." stand first: cleaning leaves just those names. */
  lemma NamesOnly(t: Tree, target: string, links: nat) returns (names: Path)
    requires WellFormed(t) && UpsFirst(TargetComponents(target))
    ensures Names(names) && CleanOnto([], TargetComponents(target)) == names
    ensures [] in t && t[[]].Dir? && Standing(t, [])
    ensures Walk(t, [], TargetComponents(target), links) == Walk(t, [], names, links)
  {
    hide TargetComponents, UpsFirst, Walk, CleanOnto, WellFormed;
    var comps := TargetComponents(target);
    TargetComponentsAreNames(target);
    RootIsDir(t);
    var m, ns := WalkUps(t, [], comps, [], links);
    assert m == 0 && comps + [] == comps && ns + [] == ns && [] + ns == ns;
    names := ns;
  }

  /** The two resolvers part on the link, in a tree whose other links are plain. */
  ghost predicate Parts(t: Tree, link: string, target: string) {
    && WellFormed(t) && IsName(link) && !EndsInSpace(link) && !IsSpace(link[0])
    && PlainLinksBut(t, target)
    && ResolveFrom(t, [], [link], 0) != Walk(t, [], [link], MAX_SYMLINK_HOPS)
  }

  lemma UpsPart(target: string) returns (t: Tree, link: string)
    requires !UpsFirst(TargetComponents(target))
    ensures Parts(t, link, target)
  {
    hide TargetComponents, UpsFirst, Walk, ResolveFrom, WellFormed, OneLink, LinkRestart;
    var comps := TargetComponents(target);
    link := FreshName(comps);
    NoLongerThanTotal(comps);
    t := OneLink(target, link);
    OneLinkIs(target, link);
    ResolveFirstLink(t, target, link);
    WalkFirstLink(t, target, link);
    NeverNoEntry(t, [], LinkRestart([], target), 1);
    WalkFindsNone(target, link, comps, MAX_SYMLINK_HOPS - 1);
  }

  lemma OneLinkIs(target: string, link: string)
    requires IsName(link)
    ensures var t := OneLink(target, link);
            && WellFormed(t) && [link] in t && t[[link]] == Link(target) && PlainLinksBut(t, target) && Standing(t, [])
  {
    OneLinkNodes(target, link);
  }

  lemma LastSpacePart(target: string) returns (t: Tree, link: string)
    requires UpsFirst(TargetComponents(target)) && !StableLast(CleanOnto([], TargetComponents(target)))
    ensures Parts(t, link, target)
  {
    hide TargetComponents, UpsFirst, Walk, ResolveFrom, WellFormed, OneLink, LinkRestart, CleanOnto, StableLast;
    RestartAtRoot(target);
    var p, q := CleanOnto([], TargetComponents(target)), LinkRestart([], target);
    link := FreshName(p + q);
    NoLongerThanTotal(p + q);
    assert forall n :: n in p ==> n in p + q;
    assert forall n :: n in q ==> n in p + q;
    t := OneLink(target, link);
    OneLinkIs(target, link);
    ResolveFirstLink(t, target, link);
    WalkFirstLink(t, target, link);
    var names := NamesOnly(t, target, MAX_SYMLINK_HOPS - 1);
    LinkRestartNames([], target);
    NothingThere(target, link, p);
    NothingThere(target, link, q);
  }

  /** The last name that ends in white space. */
  lemma {:induction false} LastSpace(p: Path) returns (i: nat)
    requires !NoSpaceEnds(p)
    ensures i < |p| && EndsInSpace(p[i]) && NoSpaceEnds(p[i + 1..])
  {
    if EndsInSpace(p[|p| - 1]) {
      i := |p| - 1;
    } else {
      var init := p[..|p| - 1];
      assert p == init + [p[|p| - 1]];
      i := LastSpace(init);
      assert p[i + 1..] == init[i + 1..] + [p[|p| - 1]];
    }
  }

  lemma InnerSpacePart(target: string) returns (t: Tree, link: string)
    requires UpsFirst(TargetComponents(target))
    requires var p := CleanOnto([], TargetComponents(target)); StableLast(p) && !NoSpaceEnds(p)
    ensures Parts(t, link, target)
  {
    hide TargetComponents, UpsFirst, Walk, ResolveFrom, WellFormed, LinkRestart, CleanOnto, StableLast, NoSpaceEnds,
         SpaceTree, IsSpaceTree, PlainLinksBut, SplitContainerPath, Render, EndsInSpace, IsSpace, Names, IsName;
    RestartAtRoot(target);
    var p := CleanOnto([], TargetComponents(target));
    var dir, n, rest := SplitAtSpace(p);
    link := FreshLink(p, SplitContainerPath(Render(dir)));
    t := SpaceTree(target, link, dir, n);
    SpaceTreeIs(target, link, dir, n);
    SpaceTreeLinks(t, target, link, dir, n);
    ResolveFirstLink(t, target, link);
    WalkFirstLink(t, target, link);
    var names := NamesOnly(t, target, MAX_SYMLINK_HOPS - 1);
    SpaceLexical(t, target, link, dir, n, rest);
    SpaceWalk(t, target, link, dir, n, rest);
  }

  lemma FreshLink(p: Path, q: Path) returns (link: string)
    ensures IsName(link) && !EndsInSpace(link) && !IsSpace(link[0]) && link !in p && link !in q
  {
    link := FreshName(p + q);
    NoLongerThanTotal(p + q);
    assert forall m :: m in p ==> m in p + q;
    assert forall m :: m in q ==> m in p + q;
  }

  /** A path cut behind its last name that ends in white space. */
  lemma SplitAtSpace(p: Path) returns (dir: Path, n: string, rest: Path)
    requires Names(p) && StableLast(p) && !NoSpaceEnds(p)
    ensures p == dir + ([n] + rest) && dir != [] && EndsInSpace(dir[|dir| - 1]) && NoSpaceEnds([n] + rest)
    ensures Names(dir) && IsName(n) && Names(rest)
    ensures (forall m :: m in dir ==> m in p) && n in p && forall m :: m in rest ==> m in p
  {
    var i := LastSpace(p);
    dir, n, rest := p[..i + 1], p[i + 1], p[i + 2..];
    assert p == dir + ([n] + rest) && [n] + rest == p[i + 1..];
    assert n in p;
  }

  lemma SpaceTreeLinks(t: Tree, target: string, link: string, dir: Path, n: string)
    requires IsSpaceTree(t, target, link, dir, n)
    ensures WellFormed(t) && [link] in t && t[[link]] == Link(target)
    ensures PlainLinksBut(t, target) && Standing(t, dir) && Standing(t, [])
  {
    DotNamesNothing();
    assert dir <= dir && [] <= dir;
  }

  lemma SpaceWalk(t: Tree, target: string, link: string, dir: Path, n: string, rest: Path)
    requires IsSpaceTree(t, target, link, dir, n) && Names(rest)
    ensures Standing(t, [])
    ensures var r := Walk(t, [], dir + ([n] + rest), MAX_SYMLINK_HOPS - 1);
        r.TooManyHops? || (r.Resolved? && dir <= r.path)
  {
    hide Walk, WellFormed;
    SpaceTreeLinks(t, target, link, dir, n);
    assert [] + dir == dir;
    WalkAlong(t, [], dir, [n] + rest, MAX_SYMLINK_HOPS - 1);
    WalkStays(t, target, link, dir, n, [n] + rest, MAX_SYMLINK_HOPS - 1);
  }

  /** The lexical loop restarts from the trimmed text of the directory, and never comes back into it. */
  lemma SpaceLexical(t: Tree, target: string, link: string, dir: Path, n: string, rest: Path)
    requires IsSpaceTree(t, target, link, dir, n) && Names(rest) && NoSpaceEnds([n] + rest) && link !in rest
    requires link !in SplitContainerPath(Render(dir))
    ensures Standing(t, [])
    ensures var r := ResolveFrom(t, [], dir + ([n] + rest), 1); r.Resolved? && !(dir <= r.path)
  {
    hide WellFormed, ResolveFrom, SplitContainerPath, Render, LinkRestart;
    SpaceTreeLinks(t, target, link, dir, n);
    assert [] + dir == dir;
    Rewalk(t, [], dir, [n] + rest, 1);
    DotStep(t, target, link, dir, n, rest);
    var q := SplitContainerPath(Render(dir));
    var front := Parent(dir);
    var m := TrimmedPath(dir);
    assert forall x :: x in rest ==> x in [n] + rest;
    if q == front + [m] && m != dir[|dir| - 1] && IsName(m) {
      OffTheTree(t, target, link, dir, n, m, rest);
    } else {
      assert q < dir;
      StandingPrefix(t, dir, |q|);
      assert dir[..|q|] == q && [] + q == q;
      Rewalk(t, [], q, rest, 2);
      LoopAvoids(t, target, link, dir, n, q, rest);
    }
  }

  lemma DotStep(t: Tree, target: string, link: string, dir: Path, n: string, rest: Path)
    requires IsSpaceTree(t, target, link, dir, n)
    ensures Standing(t, dir) && Standing(t, [])
    ensures ResolveFrom(t, dir, [n] + rest, 1) == ResolveFrom(t, [], SplitContainerPath(Render(dir)) + rest, 2)
  {
    hide WellFormed, SplitContainerPath;
    SpaceTreeLinks(t, target, link, dir, n);
    StandingStep(t, dir, n);
    assert ([n] + rest)[1..] == rest;
    LinkContainerPathIsCleaning(dir, ".");
    SplitOnePart(".", '/');
    assert CleanOnto(dir, ["."]) == dir;
  }

  lemma OffTheTree(t: Tree, target: string, link: string, dir: Path, n: string, m: string, rest: Path)
    requires IsSpaceTree(t, target, link, dir, n) && m != dir[|dir| - 1] && m != link && IsName(m)
    ensures Standing(t, [])
    ensures var r := ResolveFrom(t, [], Parent(dir) + [m] + rest, 2); r.Resolved? && !(dir <= r.path)
  {
    hide WellFormed, LinkRestart, ResolveFrom, IsSpaceTree;
    var front := Parent(dir);
    FrontOf(t, target, link, dir, n, m);
    SpaceTreeLinks(t, target, link, dir, n);
    assert [] + front == front && front + [m] + rest == front + ([m] + rest);
    Rewalk(t, [], front, [m] + rest, 2);
    var next := front + [m];
    LoopStops(t, front, m, rest, 2);
    assert next <= next + rest && front + ([m] + rest) == next + rest;
    NotInto(dir, next + rest, next);
  }

  /** The directory above, and another name in it. */
  lemma FrontOf(t: Tree, target: string, link: string, dir: Path, n: string, m: string)
    requires IsSpaceTree(t, target, link, dir, n) && m != dir[|dir| - 1] && m != link
    ensures dir != [] && WellFormed(t)
    ensures var front := Parent(dir);
            Standing(t, front) && t[front].Dir? && front + [m] !in t && !(front + [m] <= dir) && |front + [m]| == |dir|
  {
    hide WellFormed;
    var front := Parent(dir);
    assert front <= dir;
    var next := front + [m];
    assert next[|front|] == m && dir[|front|] != m && |next| < |dir + [n]|;
    assert next != [link] by { assert front == [] ==> next[0] == m; }
  }

  lemma LoopStops(t: Tree, dir: Path, m: string, rest: Path, hops: nat)
    requires WellFormed(t) && Standing(t, dir) && t[dir].Dir? && dir + [m] !in t && hops <= MAX_SYMLINK_HOPS
    ensures ResolveFrom(t, dir, [m] + rest, hops) == Resolved(dir + ([m] + rest))
  {
    hide WellFormed, LinkRestart;
    NotBelowStanding(t, dir, m);
    assert ([m] + rest)[0] == m;
  }

  /** The two resolvers part somewhere, for every target that is not plain. */
  lemma PlainNeeded(target: string) returns (t: Tree, link: string)
    requires !PlainTarget(target)
    ensures Parts(t, link, target)
  {
    hide TargetComponents, UpsFirst, StableLast, NoSpaceEnds, Parts;
    var comps := TargetComponents(target);
    if !UpsFirst(comps) {
      t, link := UpsPart(target);
    } else if !StableLast(CleanOnto([], comps)) {
      t, link := LastSpacePart(target);
    } else {
      NamesKeepSpaces(target);
      t, link := InnerSpacePart(target);
    }
  }

  /** Where ".." stand first, cleaning drops no name. */
  lemma NamesKeepSpaces(target: string)
    requires UpsFirst(TargetComponents(target)) && !NoSpaceEnds(TargetComponents(target))
    ensures !NoSpaceEnds(CleanOnto([], TargetComponents(target)))
  {
    hide TargetComponents;
    TargetComponentsAreNames(target);
    NoNameDropped(TargetComponents(target));
  }

  lemma {:induction false} NoNameDropped(comps: seq<string>)
    requires UpsFirst(comps) && forall n :: n in comps ==> n == ".." || IsName(n)
    ensures forall n :: n in comps && n != ".." ==> n in CleanOnto([], comps)
  {
    if comps != [] {
      if comps[0] == ".." && UpsFirst(comps[1..]) {
        NoNameDropped(comps[1..]);
      } else {
        CleanOntoKeepsNames([], comps);
        assert [] + comps == comps;
      }
    }
  }

  ghost predicate PlainQuery(query: string) {
    PlainTarget(query) && TrimSpace(query) == query
  }

  /** Links with this target, in any tree whose other links are plain, are followed as the walk follows them. */
  ghost predicate FollowedAlike(target: string) {
    forall t: Tree, query: string {:trigger Resolve(t, query)} ::
      WellFormed(t) && PlainLinksBut(t, target) && PlainQuery(query)
      ==> Resolve(t, query) == Walk(t, [], TargetComponents(query), MAX_SYMLINK_HOPS)
  }

  /**
   The exact condition on a link target, which its text alone decides: the
   lexical loop follows it as the component-wise walk does, in every tree and for
   every query, if and only if ".." stands before every name in it and no name in
   it ends in white space.
   */
  lemma FollowedAlikeExactly(target: string)
    ensures FollowedAlike(target) <==> PlainTarget(target)
  {
    hide TargetComponents, PlainTarget;
    if PlainTarget(target) {
      forall t: Tree, query | WellFormed(t) && PlainLinksBut(t, target) && PlainQuery(query)
        ensures Resolve(t, query) == Walk(t, [], TargetComponents(query), MAX_SYMLINK_HOPS)
      {
        AllPlain(t, target);
        ResolveIsInRootWalk(t, query);
      }
    } else {
      var t, link := PlainNeeded(target);
      LinkQuery(link);
      assert Resolve(t, Render([link])) != Walk(t, [], TargetComponents(Render([link])), MAX_SYMLINK_HOPS);
    }
  }

  lemma AllPlain(t: Tree, target: string)
    requires PlainLinksBut(t, target) && PlainTarget(target)
    ensures PlainLinks(t)
  {
  }

  lemma LinkQuery(link: string)
    requires IsName(link) && !EndsInSpace(link) && !IsSpace(link[0])
    ensures PlainQuery(Render([link])) && TargetComponents(Render([link])) == [link]
        && SplitContainerPath(Render([link])) == [link]
  {
    hide IsSpace;
    var query := Render([link]);
    NamesTarget([link]);
    SplitOfRender([link]);
    TrimKeeps(query, IsSpace);
    assert query[|query| - 1] == link[|link| - 1];
    assert query[0] == '/';
    SlashIsNoSpace();
  }

  lemma SlashIsNoSpace()
    ensures !IsSpace('/')
  {
  }

  /** White space does make them part: a link to a name and a blank leads to that name without it. */
  lemma BlankIsTrimmed()
    ensures var t := OneLink("a ", "l");
            && WellFormed(t) && UpsFirst(TargetComponents("a ")) && TargetComponents("/l") == ["l"]
            && Resolve(t, "/l") == Resolved(["a"])
            && Walk(t, [], TargetComponents("/l"), MAX_SYMLINK_HOPS) == Resolved(["a "])
  {
    hide Resolve, Walk, WellFormed, OneLink, LinkRestart, SplitContainerPath, TargetComponents;
    var t := OneLink("a ", "l");
    assert Render(["l"]) == "/l";
    LinkQuery("l");
    OneLinkIs("a ", "l");
    BlankComponents();
    BlankRestart();
    ResolveFirstLink(t, "a ", "l");
    WalkFirstLink(t, "a ", "l");
    NothingThere("a ", "l", ["a"]);
    NothingThere("a ", "l", ["a "]);
    QueryIsLink(t, "l");
  }

  lemma QueryIsLink(t: Tree, link: string)
    requires WellFormed(t) && SplitContainerPath(Render([link])) == [link]
    ensures Resolve(t, Render([link])) == ResolveFrom(t, [], [link], 0)
  {
    hide ResolveFrom;
  }

  lemma BlankComponents()
    ensures TargetComponents("a ") == ["a "] && UpsFirst(["a "])
  {
    SplitOnePart("a ", '/');
  }

  lemma BlankRestart()
    ensures LinkRestart([], "a ") == ["a"]
  {
    hide SplitContainerPath, CleanOnto;
    BlankComponents();
    CleanOntoKeepsNames([], ["a "]);
    RestartAtRoot("a ");
    var m := TrimmedPath(["a "]);
    assert Render(["a "]) == "/a ";
    SplitContainerPathIsCleaning("/a ");
    assert TrimRight("/a ", IsSpace) == "/a" by { assert "/a "[..2] == "/a"; }
    assert TrimSpace("/a ") == "/a";
    SplitSlashed("a");
    SplitOnePart("a", '/');
    CleanOntoConcat([], [""], ["a"]);
    CleanOntoKeepsNames([], ["a"]);
    EmptyCleans();
  }

  lemma EmptyCleans()
    ensures CleanOnto([], [""]) == []
  {
    assert [""][1..] == [];
  }

  /** And so does ".." after a name: behind a link, both lead to a directory, but not to the same one. */
  function Crossing(): Tree {
    map[[] := Dir, ["l"] := Link("a/.."), ["a"] := Link("/d/e"), ["d"] := Dir, ["d", "e"] := Dir]
  }

  lemma DroppedNameGoesElsewhere()
    ensures var t := Crossing();
            && WellFormed(t) && NoSpaceEnds(TargetComponents("a/.."))
            && Resolve(t, "/l") == Resolved([])
            && Walk(t, [], TargetComponents("/l"), MAX_SYMLINK_HOPS) == Resolved(["d"])
  {
    hide Resolve, Walk, WellFormed, LinkRestart, SplitContainerPath, TargetComponents, ResolveFrom, Crossing;
    var t := Crossing();
    CrossingNodes();
    assert Render(["l"]) == "/l";
    LinkQuery("l");
    QueryIsLink(t, "l");
    ResolveFirstLink(t, "a/..", "l");
    WalkFirstLink(t, "a/..", "l");
    CrossingNames();
    RestartAtRoot("a/..");
    NothingLeft(t);
    CrossingWalk();
  }

  lemma NothingLeft(t: Tree)
    requires WellFormed(t)
    ensures Standing(t, []) && ResolveFrom(t, [], [], 1) == Resolved([])
  {
  }

  lemma CrossingNodes()
    ensures var t := Crossing();
            && WellFormed(t) && ["l"] in t && t[["l"]] == Link("a/..") && ["a"] in t && t[["a"]] == Link("/d/e")
            && Standing(t, []) && ["d", "e"] in t && t[["d", "e"]].Dir?
  {
    var t := Crossing();
    assert Parent(["d", "e"]) == ["d"] && Parent(["d"]) == Parent(["a"]) == Parent(["l"]) == [];
    assert t.Keys == {[], ["l"], ["a"], ["d"], ["d", "e"]};
  }

  lemma CrossingNames()
    ensures TargetComponents("a/..") == ["a", ".."] && CleanOnto([], ["a", ".."]) == []
    ensures TargetComponents("/d/e") == ["d", "e"]
  {
    hide TargetComponents, CleanOnto, Render;
    UpComponents();
    UpCleans();
    assert Render(["d", "e"]) == "/d/e" by { TwoNames(); }
    NamesTarget(["d", "e"]);
  }

  lemma TwoNames()
    ensures Render(["d", "e"]) == "/d/e"
  {
    RenderSnoc(["d"], "e");
    assert ["d"] + ["e"] == ["d", "e"];
  }

  lemma UpComponents()
    ensures TargetComponents("a/..") == ["a", ".."]
  {
    SplitJoin(["a", ".."], '/');
    assert Join(["a", ".."], '/') == "a/..";
  }

  lemma UpCleans()
    ensures CleanOnto([], ["a", ".."]) == []
  {
    assert ["a", ".."][1..] == [".."] && [".."][1..] == [] && CleanOnto(["a"], [".."]) == Parent(["a"]) == [];
    assert [] + ["a"] == ["a"];
  }

  lemma CrossingWalk()
    ensures WellFormed(Crossing()) && Standing(Crossing(), [])
    ensures Walk(Crossing(), [], ["a", ".."], MAX_SYMLINK_HOPS - 1) == Resolved(["d"])
  {
    hide WellFormed, TargetComponents, Crossing, Walk;
    var t := Crossing();
    CrossingNodes();
    CrossingNames();
    assert [] + ["a"] == ["a"] && ["a", ".."] == ["a"] + [".."] && [] + ["d", "e"] == ["d", "e"];
    WalkThroughLink(t, [], "a", "/d/e", [".."], MAX_SYMLINK_HOPS - 1);
    WalkAlong(t, [], ["d", "e"], [".."], MAX_SYMLINK_HOPS - 2);
    WalkUpOne(t, ["d", "e"], [], MAX_SYMLINK_HOPS - 2);
    assert [".."] + [] == [".."] && Parent(["d", "e"]) == ["d"];
    WalkEnds(t, ["d"], MAX_SYMLINK_HOPS - 2);
  }

  lemma WalkEnds(t: Tree, cur: Path, links: nat)
    requires WellFormed(t) && Standing(t, cur)
    ensures Walk(t, cur, [], links) == Resolved(cur)
  {
  }

  lemma WalkThroughLink(t: Tree, dir: Path, n: string, target: string, rest: seq<string>, links: nat)
    requires WellFormed(t) && Standing(t, dir) && IsName(n) && links >= 1
    requires dir + [n] in t && t[dir + [n]] == Link(target) && IsAbsolute(target)
    ensures Standing(t, [])
    ensures Walk(t, dir, [n] + rest, links) == Walk(t, [], TargetComponents(target) + rest, links - 1)
  {
    hide TargetComponents, WellFormed;
    RootIsDir(t);
    StandingStep(t, dir, n);
    assert ([n] + rest)[1..] == rest;
  }
}
