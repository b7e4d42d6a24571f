/**
 Container paths as text and as component lists: the cleaning, splitting and
 joining that internal/util/containerfs/containerfs.go takes from Go's path and
 strings packages.
 */
module Paths {
  import opened Seqs

  type Path = seq<string>

  /** The components of a clean path. */
  predicate IsName(n: string) {
    n != "" && n != "." && n != ".." && '/' !in n
  }

  ghost predicate Names(p: Path) {
    forall n :: n in p ==> IsName(n)
  }

  /** unicode.IsSpace. */
  predicate IsSpace(c: char) {
    || '\t' <= c <= '\r' || c == ' '
    || c == '\U{0085}' || c == '\U{00A0}' || c == '\U{1680}' || '\U{2000}' <= c <= '\U{200A}'
    || c == '\U{2028}' || c == '\U{2029}' || c == '\U{202F}' || c == '\U{205F}' || c == '\U{3000}'
  }

  /** White space by its code points, as Unicode's White_Space property lists it. */
  lemma SpacesExactly(c: char)
    ensures IsSpace(c) <==>
              c as int in {9, 10, 11, 12, 13, 32, 133, 160, 5760, 8192, 8193, 8194, 8195, 8196, 8197, 8198, 8199, 8200,
                           8201, 8202, 8232, 8233, 8239, 8287, 12288}
  {
  }

  function TrimSpace(s: string): string {
    Trim(s, IsSpace)
  }

  predicate EndsInSpace(n: string) {
    n != "" && IsSpace(n[|n| - 1])
  }

  predicate StableLast(p: Path) {
    p == [] || !EndsInSpace(p[|p| - 1])
  }

  /** A component list as an absolute path. */
  function Render(p: Path): string {
    "/" + Join(p, '/')
  }

  function Parent(p: Path): Path {
    if p == [] then [] else p[..|p| - 1]
  }

  /** Lexical cleaning below a stack of names: empty and "." components vanish, ".." drops the last name. */
  function CleanOnto(stack: Path, comps: seq<string>): Path
    decreases |comps|
  {
    if comps == [] then stack
    else if comps[0] == "" || comps[0] == "." then CleanOnto(stack, comps[1..])
    else if comps[0] == ".." then CleanOnto(Parent(stack), comps[1..])
    else CleanOnto(stack + [comps[0]], comps[1..])
  }

  /** path.Clean of a rooted path. */
  function CleanRooted(s: string): string {
    Render(CleanOnto([], Split(s, '/')))
  }

  /** splitContainerPath. */
  function SplitContainerPath(p: string): Path {
    var clean := CleanRooted("/" + TrimSpace(p));
    if clean == "/" then [] else Split(clean[1..], '/')
  }

  /** The container path a link in directory `base` points to. */
  function LinkContainerPath(base: Path, target: string): string {
    if target != "" && target[0] == '/' then CleanRooted(target) else CleanRooted(Render(base) + "/" + target)
  }

  // ----- cleaning on components

  lemma {:induction false} CleanOntoNames(stack: Path, comps: seq<string>)
    requires Names(stack) && Plain(comps, '/')
    ensures Names(CleanOnto(stack, comps))
    decreases |comps|
  {
    if comps != [] {
      var next := if comps[0] == "" || comps[0] == "." then stack
                  else if comps[0] == ".." then Parent(stack) else stack + [comps[0]];
      assert Names(next);
      CleanOntoNames(next, comps[1..]);
    }
  }

  lemma {:induction false} CleanOntoAddsNothing(stack: Path, comps: seq<string>)
    ensures forall n :: n in CleanOnto(stack, comps) ==> n in stack || n in comps
    decreases |comps|
  {
    if comps != [] {
      var next := if comps[0] == "" || comps[0] == "." then stack
                  else if comps[0] == ".." then Parent(stack) else stack + [comps[0]];
      CleanOntoAddsNothing(next, comps[1..]);
    }
  }

  lemma {:induction false} CleanOntoConcat(stack: Path, a: seq<string>, b: seq<string>)
    ensures CleanOnto(stack, a + b) == CleanOnto(CleanOnto(stack, a), b)
    decreases |a|
  {
    if a == [] {
      assert a + b == b;
    } else {
      assert (a + b)[1..] == a[1..] + b;
      var next := if a[0] == "" || a[0] == "." then stack
                  else if a[0] == ".." then Parent(stack) else stack + [a[0]];
      CleanOntoConcat(next, a[1..], b);
    }
  }

  lemma {:induction false} CleanOntoKeepsNames(stack: Path, names: Path)
    requires Names(names)
    ensures CleanOnto(stack, names) == stack + names
    decreases |names|
  {
    if names != [] {
      assert IsName(names[0]);
      CleanOntoKeepsNames(stack + [names[0]], names[1..]);
    }
  }

  // ----- text and components

  lemma {:induction false} SplitSlashed(s: string)
    ensures Split("/" + s, '/') == [""] + Split(s, '/')
  {
    assert ("/" + s)[1..] == s;
  }

  lemma SplitRender(p: Path)
    requires Names(p)
    ensures Split(Render(p), '/') == [""] + if p == [] then [""] else p
  {
    SplitSlashed(Join(p, '/'));
    if p != [] {
      SplitJoin(p, '/');
    }
  }

  lemma RenderIsRoot(p: Path)
    requires Names(p)
    ensures Render(p) == "/" <==> p == []
  {
    if p != [] {
      assert IsName(p[0]);
    }
  }

  lemma RenderInjective(p: Path, q: Path)
    requires Names(p) && Names(q) && Render(p) == Render(q)
    ensures p == q
  {
    SplitRender(p);
    SplitRender(q);
    RenderIsRoot(p);
    RenderIsRoot(q);
    assert ([""] + p)[1..] == p && ([""] + q)[1..] == q;
  }

  /** splitContainerPath is component cleaning of the trimmed text. */
  lemma SplitContainerPathIsCleaning(p: string)
    ensures SplitContainerPath(p) == CleanOnto([], Split(TrimSpace(p), '/'))
    ensures Names(SplitContainerPath(p))
  {
    var s := TrimSpace(p);
    var c := CleanOnto([], Split(s, '/'));
    SplitSlashed(s);
    assert CleanOnto([], Split("/" + s, '/')) == c by {
      assert ([""] + Split(s, '/'))[1..] == Split(s, '/');
    }
    SplitIsPlain(s, '/');
    CleanOntoNames([], Split(s, '/'));
    RenderIsRoot(c);
    if c != [] {
      SplitJoin(c, '/');
    }
  }

  lemma {:induction false} RenderLastChar(p: Path)
    requires Names(p)
    ensures p == [] ==> Render(p) == "/"
    ensures p != [] ==> p[|p| - 1] != "" && Render(p)[|Render(p)| - 1] == p[|p| - 1][|p[|p| - 1]| - 1]
  {
    if |p| == 1 {
      assert IsName(p[0]);
    } else if p != [] {
      RenderLastChar(p[1..]);
      assert Join(p, '/') == p[0] + Render(p[1..]);
    }
  }

  /** A clean path splits back into its own components exactly when its last name does not end in white space. */
  lemma SplitOfRender(p: Path)
    requires Names(p)
    ensures SplitContainerPath(Render(p)) == p <==> StableLast(p)
  {
    var s := Render(p);
    SplitContainerPathIsCleaning(s);
    RenderLastChar(p);
    TrimKeeps(s, IsSpace);
    if StableLast(p) {
      assert p != [] ==> IsName(p[|p| - 1]);
      SplitRender(p);
      CleanOntoConcat([], [""], if p == [] then [""] else p);
      CleanOntoKeepsNames([], p);
    } else {
      var t := TrimSpace(s);
      TrimLeftShrinks(s, IsSpace);
      TrimRightShrinks(TrimLeft(s, IsSpace), IsSpace);
      assert TrimLeft(s, IsSpace) == s;
      TrimmedDiffers(p);
    }
  }

  /** The text before the last name of a rendered path. */
  function DirText(dir: Path): string {
    if dir == [] then "/" else Render(dir) + "/"
  }

  lemma RenderSnoc(dir: Path, n: string)
    ensures Render(dir + [n]) == DirText(dir) + n
  {
    if dir != [] {
      JoinConcat(dir, [n], '/');
    } else {
      assert dir + [n] == [n];
    }
  }

  /** Cleaning text appended below a directory is cleaning its components on that directory. */
  lemma CleanBelow(dir: Path, t: string)
    requires Names(dir)
    ensures CleanOnto([], Split(Render(dir) + "/" + t, '/')) == CleanOnto(dir, Split(t, '/'))
    ensures CleanOnto([], Split(DirText(dir) + t, '/')) == CleanOnto(dir, Split(t, '/'))
  {
    var parts := Split(t, '/');
    SplitConcat(Render(dir), t, '/');
    SplitRender(dir);
    if dir == [] {
      SplitSlashed(t);
      assert CleanOnto([], [""] + parts) == CleanOnto([], parts) by { CleanOntoConcat([], [""], parts); }
      assert CleanOnto([], ["", ""] + parts) == CleanOnto([], parts) by { CleanOntoConcat([], ["", ""], parts); }
    } else {
      CleanOntoConcat([], [""] + dir, parts);
      CleanOntoConcat([], [""], dir);
      CleanOntoKeepsNames([], dir);
      assert [] + dir == dir;
    }
  }

  lemma TrimAfterSlash(a: string, n: string) returns (m: string)
    requires a != "" && a[0] == '/' && a[|a| - 1] == '/' && EndsInSpace(n)
    ensures TrimSpace(a + n) == a + m && m < n
  {
    var s := a + n;
    TrimLeftShrinks(s, IsSpace);
    TrimRightShrinks(s, IsSpace);
    var t := TrimRight(s, IsSpace);
    assert s[|a| - 1] == '/' && s[|s| - 1] == n[|n| - 1];
    m := n[..|t| - |a|];
    assert t == s[..|t|] == a + m;
  }

  /** Trimming a path that ends in white space changes the components it cleans to. */
  lemma TrimmedDiffers(p: Path)
    requires Names(p) && !StableLast(p)
    ensures CleanOnto([], Split(TrimSpace(Render(p)), '/')) != p
  {
    var dir, n := Parent(p), p[|p| - 1];
    assert p == dir + [n] && IsName(n);
    RenderSnoc(dir, n);
    var m := TrimAfterSlash(DirText(dir), n);
    CleanBelow(dir, m);
    SplitOnePart(m, '/');
    if CleanOnto(dir, [m]) == dir + [m] {
      assert (dir + [m])[|dir|] == m;
    }
  }

  // ----- link targets

  predicate IsAbsolute(target: string) {
    target != "" && target[0] == '/'
  }

  /** The directory a link's target is read from. */
  function LinkBase(base: Path, target: string): Path {
    if IsAbsolute(target) then [] else base
  }

  /** A link target, joined and cleaned as text, is its components cleaned onto the directory it is read from. */
  lemma LinkContainerPathIsCleaning(base: Path, target: string)
    requires Names(base)
    ensures LinkContainerPath(base, target) == Render(CleanOnto(LinkBase(base, target), Split(target, '/')))
    ensures Names(CleanOnto(LinkBase(base, target), Split(target, '/')))
  {
    CleanBelow(base, target);
    SplitIsPlain(target, '/');
    CleanOntoNames(LinkBase(base, target), Split(target, '/'));
  }

  /** The components that name something: neither empty nor ".". */
  function Components(parts: seq<string>): seq<string> {
    if parts == [] then []
    else (if parts[0] == "" || parts[0] == "." then [] else [parts[0]]) + Components(parts[1..])
  }

  /** Every ".." stands before every name. */
  predicate UpsFirst(comps: seq<string>) {
    comps == [] || (comps[0] == ".." && UpsFirst(comps[1..])) || forall i :: 0 <= i < |comps| ==> comps[i] != ".."
  }

  /** No component ends in white space. */
  ghost predicate NoSpaceEnds(comps: seq<string>) {
    forall n :: n in comps ==> !EndsInSpace(n)
  }

  lemma {:induction false} CleanOntoComponents(stack: Path, parts: seq<string>)
    ensures CleanOnto(stack, parts) == CleanOnto(stack, Components(parts))
    decreases |parts|
  {
    if parts != [] {
      var next := if parts[0] == "" || parts[0] == "." then stack
                  else if parts[0] == ".." then Parent(stack) else stack + [parts[0]];
      CleanOntoComponents(next, parts[1..]);
      if parts[0] == "" || parts[0] == "." {
        assert Components(parts) == Components(parts[1..]);
      } else {
        assert Components(parts)[1..] == Components(parts[1..]);
      }
    }
  }

  lemma {:induction false} ComponentsAreNames(parts: seq<string>)
    requires Plain(parts, '/')
    ensures forall n :: n in Components(parts) ==> n == ".." || IsName(n)
    ensures forall n :: n in Components(parts) ==> n in parts
  {
    if parts != [] {
      ComponentsAreNames(parts[1..]);
    }
  }

  lemma {:induction false} CleanOntoNoSpaceEnds(stack: Path, comps: seq<string>)
    requires NoSpaceEnds(stack) && NoSpaceEnds(comps)
    ensures NoSpaceEnds(CleanOnto(stack, comps))
    decreases |comps|
  {
    if comps != [] {
      var next := if comps[0] == "" || comps[0] == "." then stack
                  else if comps[0] == ".." then Parent(stack) else stack + [comps[0]];
      CleanOntoNoSpaceEnds(next, comps[1..]);
    }
  }
}
