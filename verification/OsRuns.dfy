/** Two runs of the Debian processor: on an empty rootfs, and with its anchor file linked to the store. */
module OsRuns {
  import opened Bytes
  import opened Options
  import opened Seqs
  import opened Paths
  import opened FileTree
  import opened Resolver
  import opened InRootWalk
  import opened FileWrites
  import opened CertSets
  import opened Pem
  import opened Bundle
  import opened OsStore
  import Fs = Rootfs

  const STORE: Path := ["etc", "ssl", "certs", "ca-certificates.crt"]
  const ANCHOR_DIR: Path := ["usr", "local", "share", "ca-certificates"]
  const ANCHOR: Path := ["usr", "local", "share", "ca-certificates", "cainjekt.crt"]
  const EMPTY: Tree := map[[] := Dir]

  lemma RenderNext(dir: Path, n: string, p: Path, text: string, whole: string)
    requires dir != [] && p == dir + [n] && Render(dir) == text && whole == text + "/" + n
    ensures Render(p) == whole
  {
    RenderSnoc(dir, n);
  }

  lemma RenderFirst(n: string)
    ensures Render([n]) == "/" + n
  {
  }

  lemma CertsDirName()
    ensures Render(["etc", "ssl", "certs"]) == "/etc/ssl/certs"
  {
    hide Render;
    RenderFirst("etc");
    RenderNext(["etc"], "ssl", ["etc", "ssl"], "/etc", "/etc/ssl");
    RenderNext(["etc", "ssl"], "certs", ["etc", "ssl", "certs"], "/etc/ssl", "/etc/ssl/certs");
  }

  lemma StoreName()
    ensures Render(STORE) == "/etc/ssl/certs/ca-certificates.crt"
  {
    hide Render;
    CertsDirName();
    RenderNext(["etc", "ssl", "certs"], "ca-certificates.crt", STORE, "/etc/ssl/certs",
      "/etc/ssl/certs/ca-certificates.crt");
  }

  lemma AnchorName()
    ensures Render(ANCHOR) == "/usr/local/share/ca-certificates" + "/cainjekt.crt"
  {
    hide Render;
    AnchorDirName();
    var dir := "/usr/local/share/ca-certificates";
    assert dir + "/" + "cainjekt.crt" == dir + "/cainjekt.crt";
    RenderNext(ANCHOR_DIR, "cainjekt.crt", ANCHOR, dir, dir + "/cainjekt.crt");
  }

  lemma ShareDirName()
    ensures Render(["usr", "local", "share"]) == "/usr/local/share"
  {
    hide Render;
    RenderFirst("usr");
    RenderNext(["usr"], "local", ["usr", "local"], "/usr", "/usr/local");
    RenderNext(["usr", "local"], "share", ["usr", "local", "share"], "/usr/local", "/usr/local/share");
  }

  lemma AnchorDirName()
    ensures Render(ANCHOR_DIR) == "/usr/local/share/ca-certificates"
  {
    hide Render;
    ShareDirName();
    RenderNext(["usr", "local", "share"], "ca-certificates", ANCHOR_DIR, "/usr/local/share",
      "/usr/local/share/ca-certificates");
  }

  /** The Debian processor writes its one candidate, no second file, and the anchor file. */
  lemma DebianPlan()
    ensures PlanOf(DEBIAN) == Plan([Render(STORE)], "", Render(ANCHOR))
  {
    hide Render, CleanRooted;
    StoreName();
    AnchorName();
    PlainNames();
    RenderCleans(ANCHOR);
  }

  lemma PlainNames()
    ensures Names(STORE) && Names(ANCHOR) && Names(ANCHOR_DIR) && StableLast(STORE) && StableLast(ANCHOR)
    ensures !TempLike(STORE) && Parent(ANCHOR) == ANCHOR_DIR
  {
    assert Fs.TEMP_PREFIX[0] == '.';
  }

  /** A stable path with no link at any prefix and only directories above it is where its text leads. */
  lemma LinkFreeQuery(t: Tree, p: Path)
    requires WellFormed(t) && Names(p) && StableLast(p) && LinkFree(t, p) && DirsAbove(t, p)
    ensures Resolve(t, Render(p)) == Resolved(p)
  {
    hide SplitContainerPath, Render, ResolveFrom, LinkFree, DirsAbove;
    SplitOfRender(p);
    Fs.RootStands(t);
    assert [] + p == p;
    LinkFreeResolvesToItself(t, [], p);
    MoreHopsLeft(t, [], p, 0, MAX_SYMLINK_HOPS);
  }

  lemma FirstNameInTree(t: Tree, p: Path, i: nat)
    requires WellFormed(t) && 0 < i <= |p| && p[..i] in t
    ensures [p[0]] in t
  {
    NamesInTree(t, p[..i]);
    assert p[..i][..1] == [p[0]];
    assert i == 1 ==> p[..i] == [p[0]];
  }

  /** Nothing exists of a path whose first name does not. */
  lemma NothingOf(t: Tree, p: Path)
    requires WellFormed(t) && p != [] && [p[0]] !in t
    ensures LinkFree(t, p) && DirsAbove(t, p) && p !in t
  {
    forall i | 0 < i <= |p| ensures p[..i] !in t {
      if p[..i] in t {
        FirstNameInTree(t, p, i);
      }
    }
    assert p[..|p|] == p && p[..0] == [];
  }

  lemma EmptyIsWellFormed()
    ensures WellFormed(EMPTY)
  {
  }

  /** A file put where nothing was: its tree is well-formed, and other first names are as before. */
  lemma FirstFile(t: Tree, p: Path, data: bytes, n: string)
    requires WellFormed(t) && Names(p) && p != [] && [p[0]] !in t && n != p[0]
    ensures LinkFree(t, p) && DirsAbove(t, p)
    ensures WellFormed(Written(t, p, data)) && Written(t, p, data)[p] == File(data, true)
    ensures [n] in Written(t, p, data) <==> [n] in t
  {
    hide WellFormed;
    NothingOf(t, p);
    WrittenGrows(t, p, data);
    Fs.DirsAboveParent(t, p);
    MkDirsGrows(t, Parent(p));
    assert [n][0] == n;
    assert forall q :: q <= Parent(p) && q != [] ==> q[0] == p[0];
  }

  /**
   The hypotheses of the theorems on runs can be met: on an empty rootfs the
   Debian processor creates the store, and the anchor file beside it.
   */
  lemma RunOnEmptyRootfs(org: bytes, env: Env) returns (t1: Tree, t3: Tree, target: string)
    requires CertBlocks(org, env.base64) != [] && MergePem([], org, env).Merged?
    ensures WellFormed(EMPTY) && Ran(EMPTY, t1, t1, t3, PlanOf(DEBIAN), org, target, env) && OneStore(PlanOf(DEBIAN))
    ensures NamesItself(EMPTY, target) && !TempLike(Resolve(EMPTY, target).path)
        && !AnchorIsStore(EMPTY, PlanOf(DEBIAN), target)
  {
    hide WellFormed, MergePem, CertBlocks, Render, Resolve, Written, Names, StableLast, TempLike;
    DebianPlan();
    PlainNames();
    EmptyIsWellFormed();
    EmptyTextLacksAll(org, env);
    target := Render(STORE);
    var text := MergePem([], org, env).text;
    t1 := Written(EMPTY, STORE, text);
    t3 := Written(t1, ANCHOR, org);
    assert ["etc"] !in EMPTY && ["usr"] !in EMPTY && STORE !in EMPTY;
    FirstFile(EMPTY, STORE, text, "usr");
    FirstFile(t1, ANCHOR, org, "etc");
    NothingOf(EMPTY, ANCHOR);
    NothingOf(t1, ANCHOR);
    LinkFreeQuery(EMPTY, STORE);
    LinkFreeQuery(EMPTY, ANCHOR);
    LinkFreeQuery(t1, ANCHOR);
    MissingStore(EMPTY, STORE);
    Detects(EMPTY, target);
  }

  lemma MissingStore(t: Tree, p: Path)
    requires WellFormed(t) && Resolve(t, Render(p)) == Resolved(p) && p !in t && LinkFree(t, p) && DirsAbove(t, p)
    ensures StoreText(t, Render(p)) == Some([])
  {
    hide WellFormed, Resolve;
    NotBlocked(t, p);
  }

  lemma Detects(t: Tree, target: string)
    requires WellFormed(t) && Resolve(t, target).Resolved? && Render(Resolve(t, target).path) == target
    ensures Detected(t, [target]) == Ok(target)
  {
    hide WellFormed, Resolve;
    FirstRegularIsFirst(t, [target], 0);
  }

  // ----- the anchor file is a link to the store

  /** A rootfs with the store, and the anchor file's name a link to it. */
  function Linked(earlier: bytes): Tree {
    Written(MkDirs(EMPTY, ANCHOR_DIR)[ANCHOR := Link(Render(STORE))], STORE, earlier)
  }

  lemma LinkedTree(earlier: bytes)
    ensures var t := Linked(earlier);
            && WellFormed(t) && STORE in t && t[STORE] == File(earlier, true) && LinkFree(t, STORE)
            && DirsAbove(t, STORE)
            && Standing(t, ANCHOR_DIR) && ANCHOR in t && t[ANCHOR] == Link(Render(STORE))
  {
    hide WellFormed, Render, MkDirs, Names, IsName;
    PlainNames();
    EmptyIsWellFormed();
    assert ["etc"] !in EMPTY && ["usr"] !in EMPTY && ANCHOR !in EMPTY;
    NothingOf(EMPTY, ANCHOR);
    Fs.DirsAboveParent(EMPTY, ANCHOR);
    MkDirsGrows(EMPTY, ANCHOR_DIR);
    var dirs := MkDirs(EMPTY, ANCHOR_DIR);
    assert |ANCHOR| > |ANCHOR_DIR|;
    assert ANCHOR !in dirs;
    ReplacedIsWellFormed(dirs, ANCHOR, Link(Render(STORE)));
    var linked := dirs[ANCHOR := Link(Render(STORE))];
    assert ["etc"][0] != ANCHOR_DIR[0] && |["etc"]| != |ANCHOR|;
    assert ["etc"] !in linked;
    FirstFile(linked, STORE, earlier, "usr");
    KeptByWrite(linked, STORE, earlier);
    PresentIsLinkFree(Linked(earlier), STORE);
  }

  lemma KeptByWrite(t: Tree, p: Path, data: bytes)
    requires WellFormed(t) && Names(p) && p != [] && [p[0]] !in t
    ensures forall q :: q in t ==> q in Written(t, p, data) && Written(t, p, data)[q] == t[q]
  {
    hide WellFormed;
    NothingOf(t, p);
    Fs.DirsAboveParent(t, p);
    MkDirsGrows(t, Parent(p));
  }

  lemma PresentIsLinkFree(t: Tree, p: Path)
    requires WellFormed(t) && p in t && !t[p].Link?
    ensures LinkFree(t, p) && DirsAbove(t, p)
  {
    StandingIsLinkFree(t, p);
  }

  /** In it the anchor's name leads to the store. */
  lemma AnchorLeadsToStore(earlier: bytes)
    ensures WellFormed(Linked(earlier))
    ensures Resolve(Linked(earlier), Render(STORE)) == Resolved(STORE)
    ensures Resolve(Linked(earlier), Render(ANCHOR)) == Resolved(STORE)
  {
    hide WellFormed, Render, Linked, SplitContainerPath, Names, StableLast, ResolveFrom, LinkFree, DirsAbove;
    var t := Linked(earlier);
    PlainNames();
    LinkedTree(earlier);
    LinkFreeQuery(t, STORE);
    SplitOfRender(ANCHOR);
    Fs.RootStands(t);
    assert [] + ANCHOR_DIR == ANCHOR_DIR && ANCHOR == ANCHOR_DIR + ["cainjekt.crt"];
    Rewalk(t, [], ANCHOR_DIR, ["cainjekt.crt"], 0);
    FollowLink(t, ANCHOR_DIR, "cainjekt.crt", STORE);
  }

  lemma FollowLink(t: Tree, dir: Path, n: string, to: Path)
    requires WellFormed(t) && Standing(t, dir) && dir + [n] in t && t[dir + [n]] == Link(Render(to))
    requires Names(to) && StableLast(to) && LinkFree(t, to) && DirsAbove(t, to)
    ensures ResolveFrom(t, dir, [n], 0) == Resolved(to)
  {
    hide SplitContainerPath, CleanRooted, LinkFree, DirsAbove, WellFormed;
    StandingStep(t, dir, n);
    RenderCleans(to);
    SplitOfRender(to);
    assert LinkRestart(dir, Render(to)) == to;
    assert [n][1..] == [] && to + [] == to && [] + to == to;
    Fs.RootStands(t);
    LinkFreeResolvesToItself(t, [], to);
    MoreHopsLeft(t, [], to, 1, MAX_SYMLINK_HOPS);
  }

  /**
   The loss does occur: the Debian processor's run on such a rootfs leaves the
   organisation's bundle alone in the store, and any other certificate that was
   in it is gone.
   */
  lemma LinkedAnchorLosesCertificates(earlier: bytes, org: bytes, env: Env) returns (t1: Tree, t3: Tree)
    requires CertBlocks(org, env.base64) != [] && Faithful(env.base64) && MergePem(earlier, org, env).Merged?
    requires |earlier| <= MAX_READ_SIZE && !(Hashes(earlier, env) <= Hashes(org, env))
    ensures var t := Linked(earlier);
            && WellFormed(t) && Ran(t, t1, t1, t3, PlanOf(DEBIAN), org, Render(STORE), env)
            && AnchorIsStore(t, PlanOf(DEBIAN), Render(STORE))
            && STORE in t3 && t3[STORE].File? && t3[STORE].data == org
            && !(Hashes(earlier, env) <= Hashes(t3[STORE].data, env))
  {
    hide WellFormed, MergePem, CertBlocks, Render, Resolve, Written, Names, StableLast, TempLike, Linked, Hashes,
      Faithful;
    var t := Linked(earlier);
    DebianPlan();
    PlainNames();
    LinkedTree(earlier);
    AnchorLeadsToStore(earlier);
    StoreOf(t, earlier);
    Detects(t, Render(STORE));
    var m := MergePem(earlier, org, env);
    t1 := if m.added == 0 then t else Written(t, STORE, m.text);
    if m.added != 0 {
      StoreWritten(t, Render(STORE), m.text);
      OthersAfterWrite(t, Render(STORE), m.text, t1, Render(ANCHOR));
      WroteGrows(t, Render(STORE), m.text, t1);
    }
    t3 := Written(t1, STORE, org);
    StoreWritten(t1, Render(ANCHOR), org);
    OldSurviveExactly(t, t1, t1, t3, PlanOf(DEBIAN), org, Render(STORE), env);
  }

  lemma StoreOf(t: Tree, earlier: bytes)
    requires WellFormed(t) && Resolve(t, Render(STORE)) == Resolved(STORE) && STORE in t
        && t[STORE] == File(earlier, true)
    requires |earlier| <= MAX_READ_SIZE
    ensures StoreText(t, Render(STORE)) == Some(earlier)
  {
    hide WellFormed, Resolve;
  }

  lemma StoreWritten(t: Tree, query: string, data: bytes)
    requires WellFormed(t) && Resolve(t, query) == Resolved(STORE) && STORE in t && t[STORE].File?
    ensures Wrote(t, query, data, Written(t, STORE, data))
  {
    hide WellFormed, Resolve;
    ResolveContained(t, query);
    WrittenGrows(t, STORE, data);
  }
}
