/**
 A container root file system: a finite tree of directories, regular files,
 symbolic links and other nodes (FIFOs, devices, sockets), keyed by path.
 */
module FileTree {
  import opened Bytes
  import opened Paths

  /** `synced` records whether a regular file's data has reached the disk. */
  datatype Node = Dir | File(data: bytes, synced: bool) | Other | Link(target: string)
  type Tree = map<Path, Node>

  /** What lstat reports; NotDir is ENOTDIR, Missing is ENOENT. */
  datatype Stat = Found(node: Node) | Missing | NotDir

  ghost predicate WellFormed(t: Tree) {
    && [] in t && t[[]].Dir?
    && forall p {:trigger Parent(p)} :: p in t && p != [] ==> Parent(p) in t && t[Parent(p)].Dir? && IsName(p[|p| - 1])
  }

  /** Every proper prefix of the path is free of links, so the kernel walks it inside the tree, name by name. */
  ghost predicate LinkFreeAbove(t: Tree, p: Path) {
    forall i :: 0 <= i < |p| && p[..i] in t ==> !t[p[..i]].Link?
  }

  /** No prefix of the path, the path included, is a link. */
  ghost predicate LinkFree(t: Tree, p: Path) {
    forall i :: 0 <= i <= |p| && p[..i] in t ==> !t[p[..i]].Link?
  }

  /** Whatever exists above the path is a directory. */
  ghost predicate DirsAbove(t: Tree, p: Path) {
    forall i :: 0 <= i < |p| && p[..i] in t ==> t[p[..i]].Dir?
  }

  /** The path names an existing node other than a link. */
  predicate Standing(t: Tree, p: Path) {
    p in t && !t[p].Link?
  }

  /** Whether the walk meets an existing non-directory before the last name. */
  predicate Blocked(t: Tree, p: Path) {
    p != [] && ((Parent(p) in t && !t[Parent(p)].Dir?) || Blocked(t, Parent(p)))
  }

  /** lstat of a path whose proper prefixes are no links: the only way the model looks at the tree. */
  function Lstat(t: Tree, p: Path): Stat
    requires LinkFreeAbove(t, p)
  {
    if p in t then Found(t[p]) else if Blocked(t, p) then NotDir else Missing
  }

  lemma {:induction false} NamesInTree(t: Tree, p: Path)
    requires WellFormed(t) && p in t
    ensures Names(p)
    ensures forall i :: 0 <= i < |p| ==> p[..i] in t && t[p[..i]].Dir?
    ensures p[..|p|] in t
    decreases |p|
  {
    assert p[..|p|] == p;
    if p != [] {
      var q := Parent(p);
      NamesInTree(t, q);
      assert p == q + [p[|p| - 1]];
      forall i | 0 <= i < |p| ensures p[..i] in t && t[p[..i]].Dir? {
        if i < |q| {
          assert p[..i] == q[..i];
        } else {
          assert p[..i] == q;
        }
      }
    }
  }

  /** Below a standing path, lstat meets no link on its way. */
  lemma StandingStep(t: Tree, p: Path, n: string)
    requires WellFormed(t) && Standing(t, p)
    ensures LinkFreeAbove(t, p + [n]) && Parent(p + [n]) == p
  {
    NamesInTree(t, p);
    forall i | 0 <= i <= |p| ensures (p + [n])[..i] == p[..i] {}
    assert p[..|p|] == p;
  }

  lemma StandingPrefix(t: Tree, p: Path, k: nat)
    requires WellFormed(t) && Standing(t, p) && k <= |p|
    ensures Standing(t, p[..k])
    ensures k < |p| ==> t[p[..k]].Dir?
  {
    NamesInTree(t, p);
    assert p[..|p|] == p;
  }
}
