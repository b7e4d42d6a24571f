/** The OS trust store step: Apply of internal/engine/processors/osstore/osstore.go over the container rootfs. */
module OsStore {
  import opened Bytes
  import opened Options
  import opened Seqs
  import opened Paths
  import opened FileTree
  import opened Resolver
  import opened FileWrites
  import opened CertSets
  import opened Bundle
  import opened Pem
  import Fs = Rootfs

  datatype Processor = Processor(distro: string, candidates: seq<string>, anchorDir: string)

  const DEBIAN := Processor("debian", ["/etc/ssl/certs/ca-certificates.crt"], "/usr/local/share/ca-certificates")
  const RHEL := Processor("rhel", ["/etc/pki/tls/certs/ca-bundle.crt"], "/etc/pki/ca-trust/source/anchors")
  const OPENSUSE := Processor("opensuse", ["/etc/ssl/ca-bundle.pem"], "/etc/pki/trust/anchors")
  const ALPINE := Processor("alpine", ["/etc/ssl/certs/ca-certificates.crt"], "/usr/local/share/ca-certificates")
  const ARCH := Processor("arch", ["/etc/ssl/certs/ca-certificates.crt"], "/etc/ca-certificates/trust-source/anchors")
  const FALLBACK := Processor("fallback",
    ["/etc/ssl/certs/ca-certificates.crt", "/etc/pki/tls/certs/ca-bundle.crt", "/etc/ssl/ca-bundle.pem",
      "/etc/ssl/cert.pem"], "")

  const ALPINE_CERT := "/etc/ssl/cert.pem"

  /** The file writeIndividualCA writes below a non-empty anchor directory. */
  function AnchorPath(anchorDir: string): (p: string)
    ensures p != ""
  {
    CleanRooted(anchorDir + "/cainjekt.crt")
  }

  /** What a run writes on a writable rootfs: the store, found among candidates, and up to two more files; "" for
      none. */
  datatype Plan = Plan(candidates: seq<string>, second: string, anchor: string)

  function PlanOf(proc: Processor): Plan {
    Plan(proc.candidates, if proc.distro == "alpine" then ALPINE_CERT else "",
         if proc.anchorDir == "" then "" else AnchorPath(proc.anchorDir))
  }

  // ----- which store

  ghost predicate Regular(t: Tree, candidate: string)
    requires WellFormed(t)
  {
    var r := Resolve(t, candidate);
    r.Resolved? && r.path in t && t[r.path].File?
  }

  /** The number of the first candidate from the k-th on that is a regular file, or of candidates. */
  ghost function FirstRegular(t: Tree, candidates: seq<string>, k: nat): (i: nat)
    requires WellFormed(t) && k <= |candidates|
    ensures k <= i <= |candidates|
    decreases |candidates| - k
  {
    if k == |candidates| || Regular(t, candidates[k]) then k else FirstRegular(t, candidates, k + 1)
  }

  lemma {:induction false} FirstRegularIsFirst(t: Tree, candidates: seq<string>, k: nat)
    requires WellFormed(t) && k <= |candidates|
    ensures var i := FirstRegular(t, candidates, k);
            && (i < |candidates| ==> Regular(t, candidates[i]))
            && forall j :: k <= j < i ==> !Regular(t, candidates[j])
    decreases |candidates| - k
  {
    hide Regular, WellFormed;
    if k < |candidates| && !Regular(t, candidates[k]) {
      FirstRegularIsFirst(t, candidates, k + 1);
    }
  }

  /** detectTrustStorePath */
  ghost function Detected(t: Tree, candidates: seq<string>): Result<string>
    requires WellFormed(t)
  {
    var i := FirstRegular(t, candidates, 0);
    if candidates == [] then Err(NotFound)
    else
      var r := Resolve(t, candidates[if i < |candidates| then i else 0]);
      if r.Resolved? then Ok(Render(r.path)) else Err(ResolveError(r))
  }

  method DetectTrustStorePath(fs: Fs.Rootfs, candidates: seq<string>) returns (r: Result<string>)
    requires fs.Valid()
    ensures r == Detected(fs.nodes, candidates)
  {
    hide Resolve, WellFormed;
    for i := 0 to |candidates|
      invariant FirstRegular(fs.nodes, candidates, i) == FirstRegular(fs.nodes, candidates, 0)
    {
      var resolved, ok := fs.RegularFile(candidates[i]);
      if ok {
        return Ok(resolved);
      }
    }
    if |candidates| > 0 {
      var resolved, _ := fs.ResolveSymlinks(candidates[0]);
      return resolved;
    }
    r := Err(NotFound);
  }

  // ----- writes, as relations between trees

  /** A nil return of WriteFile: the file is in place, unless its own name is a temporary one. */
  ghost predicate Wrote(t: Tree, query: string, data: bytes, t': Tree) {
    && WellFormed(t) && WellFormed(t') && Resolve(t, query).Resolved?
    && var p := Resolve(t, query).path;
       && Replaceable(t, p)
       && (|| t' == Written(t, p, data)
           || (TempLike(p) && p !in t && t' == MkDirs(t, Parent(p))))
  }

  predicate TempLike(p: Path) {
    p != [] && Fs.TEMP_PREFIX <= p[|p| - 1]
  }

  /** `after` is `before` with nodes that are no links added, and perhaps another file at `p`. */
  ghost predicate Grown(before: Tree, after: Tree, p: Path) {
    && WellFormed(before) && WellFormed(after)
    && (forall q :: q in before ==> q in after && (q != p ==> after[q] == before[q]))
    && (p in before ==> !before[p].Link? && (before[p].Dir? <==> after[p].Dir?))
    && (forall q :: q in after && (q == p || q !in before) ==> !after[q].Link?)
  }

  lemma WroteGrows(t: Tree, query: string, data: bytes, t': Tree)
    requires Wrote(t, query, data, t')
    ensures Grown(t, t', Resolve(t, query).path)
    ensures !TempLike(Resolve(t, query).path) ==> var p := Resolve(t, query).path; p in t' && t'[p] == File(data, true)
    ensures forall q :: q in t && t[q].Link? ==> q in t' && t'[q] == t[q]
  {
    hide WellFormed, MkDirs, Resolve;
    var p := Resolve(t, query).path;
    ResolveContained(t, query);
    DirsGrow(t, p);
    if t' == Written(t, p, data) {
      FileGrows(t, MkDirs(t, Parent(p)), p, data);
    }
  }

  lemma FileGrows(t: Tree, made: Tree, p: Path, data: bytes)
    requires Grown(t, made, p) && WellFormed(made[p := File(data, true)]) && Replaceable(t, p)
    ensures Grown(t, made[p := File(data, true)], p)
  {
    hide WellFormed;
  }

  lemma DirsGrow(t: Tree, p: Path)
    requires WellFormed(t) && Names(p) && LinkFree(t, p) && DirsAbove(t, p)
    ensures var t' := MkDirs(t, Parent(p));
            && WellFormed(t') && (forall q :: q in t ==> q in t' && t'[q] == t[q])
            && (forall q :: q in t' && q !in t ==> t'[q].Dir?)
  {
    hide WellFormed, MkDirs;
    Fs.DirsAboveParent(t, p);
    MkDirsGrows(t, Parent(p));
  }

  /** What resolves to something present resolves to it still. */
  lemma PresentStays(before: Tree, after: Tree, p: Path, query: string)
    requires Grown(before, after, p) && Resolve(before, query).Resolved?
    requires Resolve(before, query).path in before || (p in after && Resolve(before, query).path == p)
    ensures Resolve(after, query) == Resolve(before, query)
  {
    SameRun(before, after, if p in after then p else [], [], SplitContainerPath(query), 0);
  }

  /** Growth leads no path elsewhere: it resolves as before, or now meets a file where a directory is needed. */
  lemma {:induction false} GrowthKeepsPath(before: Tree, after: Tree, p: Path, resolved: Path, remaining: Path,
      hops: nat)
    requires Grown(before, after, p) && Standing(before, resolved) && hops <= MAX_SYMLINK_HOPS
    ensures Standing(after, resolved)
    ensures var r := ResolveFrom(after, resolved, remaining, hops);
            r == ResolveFrom(before, resolved, remaining, hops) || r.NotDirectory?
    decreases MAX_SYMLINK_HOPS - hops, |remaining|
  {
    hide LinkRestart, Blocked;
    if remaining != [] {
      var candidate := resolved + [remaining[0]];
      StandingStep(before, resolved, remaining[0]);
      StandingStep(after, resolved, remaining[0]);
      match Lstat(before, candidate)
      case Missing =>
        MissingBelow(before, resolved, remaining);
        NewNodesOnly(before, after, p, resolved, remaining, hops);
      case NotDir =>
        NotDirStays(before, after, p, resolved, remaining[0]);
      case Found(Link(target)) =>
        if hops < MAX_SYMLINK_HOPS {
          GrowthKeepsPath(before, after, p, [], LinkRestart(resolved, target) + remaining[1..], hops + 1);
        }
      case Found(_) =>
        GrowthKeepsPath(before, after, p, candidate, remaining[1..], hops);
    }
  }

  lemma NotDirStays(before: Tree, after: Tree, p: Path, resolved: Path, n: string)
    requires Grown(before, after, p) && Standing(before, resolved)
    requires LinkFreeAbove(before, resolved + [n]) && Lstat(before, resolved + [n]).NotDir?
    ensures Standing(after, resolved)
    ensures LinkFreeAbove(after, resolved + [n]) && Lstat(after, resolved + [n]).NotDir?
  {
    StandingStep(before, resolved, n);
    StandingStep(after, resolved, n);
    NamesInTree(before, resolved);
    var next := resolved + [n];
    forall i | 0 <= i <= |resolved| ensures next[..i] == resolved[..i] {}
    if before[resolved].Dir? {
      NotBlocked(before, resolved + [n]);
    }
  }

  /** Among new nodes there is no link, so the loop only walks on. */
  lemma {:induction false} NewNodesOnly(before: Tree, after: Tree, p: Path, resolved: Path, remaining: Path, hops: nat)
    requires Grown(before, after, p) && Standing(after, resolved) && hops <= MAX_SYMLINK_HOPS
    requires forall i :: |resolved| < i <= |resolved + remaining| ==> (resolved + remaining)[..i] !in before
    ensures var r := ResolveFrom(after, resolved, remaining, hops);
        r == Resolved(resolved + remaining) || r.NotDirectory?
    decreases |remaining|
  {
    hide LinkRestart, Blocked;
    if remaining == [] {
      assert resolved + remaining == resolved;
    } else {
      var next := resolved + [remaining[0]];
      StandingStep(after, resolved, remaining[0]);
      assert next + remaining[1..] == resolved + remaining && (resolved + remaining)[..|next|] == next;
      if next in after {
        NewNodesOnly(before, after, p, next, remaining[1..], hops);
      }
    }
  }

  /** One write, seen from another path. */
  lemma OthersAfterWrite(t: Tree, query: string, data: bytes, t': Tree, other: string)
    requires Wrote(t, query, data, t')
    ensures Resolve(t', other) == Resolve(t, other) || Resolve(t', other).NotDirectory?
    ensures Resolve(t, other).Resolved? && Resolve(t, other).path in t ==>
              && Resolve(t', other) == Resolve(t, other) && Resolve(t, other).path in t'
              && (Resolve(t, other) != Resolve(t, query) ==> t'[Resolve(t, other).path] == t[Resolve(t, other).path])
  {
    hide WellFormed;
    var p := Resolve(t, query).path;
    WroteGrows(t, query, data, t');
    Fs.RootStands(t);
    GrowthKeepsPath(t, t', p, [], SplitContainerPath(other), 0);
    if Resolve(t, other).Resolved? && Resolve(t, other).path in t {
      PresentStays(t, t', p, other);
    }
  }

  // ----- a successful run on a writable rootfs

  /** What the merge starts from: an absent store is an empty one. */
  ghost function StoreText(t: Tree, target: string): Option<bytes>
    requires WellFormed(t)
  {
    match ReadAt(t, target)
    case Ok((data, _)) => Some(data)
    case Err(e) => if e == NotFound then Some([]) else None
  }

  /** The store can be read: it is absent, or a regular file of at most 16 MiB. */
  ghost predicate StoreReadable(t: Tree, target: string)
    requires WellFormed(t)
  {
    var r := Resolve(t, target);
    r.Resolved? && (r.path in t ==> t[r.path].File? && |t[r.path].data| <= 0x100_0000)
  }

  /** A merge has something to start from exactly then: the file's content, or nothing. */
  lemma StoreTextExactly(t: Tree, target: string)
    requires WellFormed(t)
    ensures StoreText(t, target).Some? <==> StoreReadable(t, target)
    ensures StoreReadable(t, target) ==>
              var p := Resolve(t, target).path; StoreText(t, target).value == if p in t then t[p].data else []
  {
    hide WellFormed, Resolve, ReadAt;
    ReadOutcomes(t, target);
  }

  /**
   Apply as a relation between trees: t1 after the store, t2 after the second
   file, t3 after the anchor file.
   */
  ghost predicate Ran(t0: Tree, t1: Tree, t2: Tree, t3: Tree, plan: Plan, org: bytes, target: string, env: Env) {
    && WellFormed(t0) && Detected(t0, plan.candidates) == Ok(target)
    && StoreText(t0, target).Some?
    && var m := MergePem(StoreText(t0, target).value, org, env);
       m.Merged? && AllWritten(t0, t1, t2, t3, plan, org, target, m)
  }

  ghost predicate AllWritten(t0: Tree, t1: Tree, t2: Tree, t3: Tree, plan: Plan, org: bytes, target: string,
      m: MergeResult)
    requires m.Merged?
  {
    && (if m.added == 0 then t1 == t0 else Wrote(t0, target, m.text, t1))
    && (if m.added == 0 || plan.second == "" then t2 == t1 else Wrote(t1, plan.second, m.text, t2))
    && (if plan.anchor == "" then t3 == t2 else Wrote(t2, plan.anchor, org, t3))
  }

  /** The anchor file is the store itself. */
  ghost predicate AnchorIsStore(t: Tree, plan: Plan, target: string)
    requires WellFormed(t)
  {
    plan.anchor != "" && Resolve(t, target).Resolved? && Resolve(t, plan.anchor) == Resolve(t, target)
  }

  predicate HoldsFile(t: Tree, p: Path, data: bytes) {
    p in t && t[p].File? && t[p].data == data
  }

  /** After the first write, or without one: the store is there with the merged text. */
  lemma StoreInPlace(t0: Tree, t1: Tree, target: string, query: string, org: bytes, env: Env)
    requires WellFormed(t0) && StoreText(t0, target).Some? && CertBlocks(org, env.base64) != []
    requires var m := MergePem(StoreText(t0, target).value, org, env);
             m.Merged? && if m.added == 0 then t1 == t0 else Wrote(t0, target, m.text, t1)
    requires Resolve(t0, target).Resolved? ==> !TempLike(Resolve(t0, target).path)
    requires Resolve(t0, query) == Resolve(t0, target)
    ensures Resolve(t0, target).Resolved? && WellFormed(t1) && Resolve(t1, query) == Resolve(t0, target)
    ensures HoldsFile(t1, Resolve(t0, target).path, MergePem(StoreText(t0, target).value, org, env).text)
  {
    hide WellFormed, CertBlocks, AppendBlocks, Resolve;
    var cur := StoreText(t0, target).value;
    var m := MergePem(cur, org, env);
    if m.added == 0 {
      assert cur != [] by {
        EmptyTextLacksAll(org, env);
      }
    } else {
      var p := Resolve(t0, target).path;
      WroteGrows(t0, target, m.text, t1);
      PresentStays(t0, t1, p, query);
    }
  }

  /** A merge into nothing adds something. */
  lemma EmptyTextLacksAll(org: bytes, env: Env)
    requires CertBlocks(org, env.base64) != [] && MergePem([], org, env).Merged?
    ensures MergePem([], org, env).added > 0
  {
    var certs := CertBlocks(org, env.base64);
    EmptyLineIsQuiet(env.base64);
    assert Lines([]) == [[]];
    assert CertBlocks([], env.base64) == [];
    assert Hashes([], env) == {};
    assert MissingCerts(certs, {}, env.sha) != [];
  }

  /**
   The store after a run: the merged text, unless the anchor file is the store,
   which then holds the organisation's bundle alone. Whatever query led to the
   store leads there still.
   */
  lemma StoreAfterRun(t0: Tree, t1: Tree, t2: Tree, t3: Tree, plan: Plan, org: bytes, target: string, query: string,
      env: Env)
    requires Ran(t0, t1, t2, t3, plan, org, target, env) && CertBlocks(org, env.base64) != []
    requires Resolve(t0, target).Resolved? ==> !TempLike(Resolve(t0, target).path)
    requires Resolve(t0, query) == Resolve(t0, target)
    ensures Resolve(t0, target).Resolved? && WellFormed(t3) && Resolve(t3, query) == Resolve(t0, target)
    ensures HoldsFile(t3, Resolve(t0, target).path,
              if AnchorIsStore(t0, plan, target) then org else MergePem(StoreText(t0, target).value, org, env).text)
  {
    hide WellFormed, CertBlocks, Resolve, StoreText, Written, Detected, MergePem;
    StoreInPlace(t0, t1, target, query, org, env);
    var m := MergePem(StoreText(t0, target).value, org, env);
    var p := Resolve(t0, target).path;
    var anchor := plan.anchor;
    if m.added != 0 {
      OthersAfterWrite(t0, target, m.text, t1, anchor);
    }
    if t2 != t1 {
      WroteGrows(t1, plan.second, m.text, t2);
      OthersAfterWrite(t1, plan.second, m.text, t2, query);
      OthersAfterWrite(t1, plan.second, m.text, t2, anchor);
    }
    if plan.anchor != "" {
      WroteGrows(t2, anchor, org, t3);
      OthersAfterWrite(t2, anchor, org, t3, query);
    }
  }

  /**
   After a successful Apply on a writable rootfs, with an organisation bundle of
   at least one certificate and an anchor file elsewhere than the store, the file
   named by the merged-path fact holds every certificate it held before and every
   certificate of the organisation, and merging the bundle again adds nothing.
   */
  lemma StoreHoldsBundle(t0: Tree, t1: Tree, t2: Tree, t3: Tree, plan: Plan, org: bytes, target: string, env: Env)
    requires Ran(t0, t1, t2, t3, plan, org, target, env) && CertBlocks(org, env.base64) != [] && Faithful(env.base64)
    requires Resolve(t0, target).Resolved? ==> !TempLike(Resolve(t0, target).path)
    requires !AnchorIsStore(t0, plan, target)
    ensures WellFormed(t3) && Resolve(t3, target).Resolved? && Resolve(t3, target) == Resolve(t0, target)
    ensures var p := Resolve(t3, target).path;
            var earlier := StoreText(t0, target).value;
            var missing := MissingCerts(CertBlocks(org, env.base64), Hashes(earlier, env), env.sha);
            && p in t3 && t3[p].File?
            && CertBlocks(t3[p].data, env.base64)
                 == CertBlocks(earlier, env.base64) + (if missing == [] then [] else Unfinished(earlier, env.base64))
                   + missing
            && (if missing == [] then t3[p].data == earlier
                else
                  && ExtendedBy(earlier, t3[p].data, missing, env.base64)
                  && TextBlocks(earlier, env.base64) <= TextBlocks(t3[p].data, env.base64))
            && Hashes(earlier, env) <= Hashes(t3[p].data, env) && HoldsAll(t3[p].data, org, env)
            && MergePem(t3[p].data, org, env) == Merged(t3[p].data, 0)
  {
    hide WellFormed, CertBlocks, TextBlocks, Resolve, StoreText, Wrote, Detected, MergePem, Hashes, HoldsAll, Faithful,
      MissingCerts, Unfinished, Undone, ExtendedBy, AsBlocks;
    StoreAfterRun(t0, t1, t2, t3, plan, org, target, target, env);
    MergeAppendsMissing(StoreText(t0, target).value, org, env);
    MergeKeepsText(StoreText(t0, target).value, org, env);
  }

  /** On Alpine the file curl and OpenSSL look for holds the merged bundle too, unless the anchor file took its
      place. */
  lemma SecondFileHoldsBundle(t0: Tree, t1: Tree, t2: Tree, t3: Tree, plan: Plan, org: bytes, target: string, env: Env)
    requires Ran(t0, t1, t2, t3, plan, org, target, env) && plan.second != ""
    requires MergePem(StoreText(t0, target).value, org, env).added > 0
    requires Resolve(t0, plan.second).Resolved? && !TempLike(Resolve(t0, plan.second).path)
    requires !AnchorIsStore(t0, plan, plan.second)
    ensures WellFormed(t3) && Resolve(t3, plan.second) == Resolve(t0, plan.second)
    ensures HoldsFile(t3, Resolve(t0, plan.second).path, MergePem(StoreText(t0, target).value, org, env).text)
  {
    hide WellFormed, Resolve, StoreText, Detected, MergePem, Written;
    var m := MergePem(StoreText(t0, target).value, org, env);
    OthersAfterWrite(t0, target, m.text, t1, plan.second);
    OthersAfterWrite(t0, target, m.text, t1, plan.anchor);
    var p := Resolve(t1, plan.second).path;
    WroteGrows(t1, plan.second, m.text, t2);
    PresentStays(t1, t2, p, plan.second);
    OthersAfterWrite(t1, plan.second, m.text, t2, plan.anchor);
    if plan.anchor != "" {
      WroteGrows(t2, plan.anchor, org, t3);
      OthersAfterWrite(t2, plan.anchor, org, t3, plan.second);
    }
  }

  /** The second file is Alpine's alone. */
  lemma SecondFileExactly(proc: Processor)
    ensures PlanOf(proc).second == if proc.distro == "alpine" then "/etc/ssl/cert.pem" else ""
    ensures PlanOf(proc).anchor == ""
            <==> proc.anchorDir == ""
  {
  }

  /**
   When the certificates of old survive a run: exactly when the anchor file is
   not the store, or the organisation's bundle has them all.
   */
  lemma OldSurviveExactly(t0: Tree, t1: Tree, t2: Tree, t3: Tree, plan: Plan, org: bytes, target: string, env: Env)
    requires Ran(t0, t1, t2, t3, plan, org, target, env) && CertBlocks(org, env.base64) != [] && Faithful(env.base64)
    requires Resolve(t0, target).Resolved? ==> !TempLike(Resolve(t0, target).path)
    ensures WellFormed(t3) && Resolve(t3, target).Resolved? && Resolve(t3, target) == Resolve(t0, target)
    ensures var p := Resolve(t3, target).path;
            var earlier := Hashes(StoreText(t0, target).value, env);
            && p in t3 && t3[p].File?
            && (earlier <= Hashes(t3[p].data, env) <==> !AnchorIsStore(t0, plan, target) || earlier <= Hashes(org, env))
            && (AnchorIsStore(t0, plan, target) ==> t3[p].data == org)
  {
    hide WellFormed, CertBlocks, Resolve, StoreText, Wrote, Detected, MergePem, Hashes, HoldsAll, Faithful,
      MissingCerts, Unfinished;
    StoreAfterRun(t0, t1, t2, t3, plan, org, target, target, env);
    MergeAppendsMissing(StoreText(t0, target).value, org, env);
  }

  // ----- a second run

  /** The same names stand for the same kinds of node. */
  ghost predicate SameShape(before: Tree, after: Tree) {
    && WellFormed(before) && WellFormed(after) && before.Keys == after.Keys
    && forall q :: q in before ==> before[q] == after[q] || (before[q].File? && after[q].File?)
  }

  lemma SameShapeStands(before: Tree, after: Tree, p: Path)
    requires SameShape(before, after)
    ensures Standing(before, p) <==> Standing(after, p)
  {
    hide WellFormed;
  }

  lemma SameShapeLstat(before: Tree, after: Tree, p: Path)
    requires SameShape(before, after) && LinkFreeAbove(before, p) && LinkFreeAbove(after, p)
    ensures Lstat(after, p) == Lstat(before, p)
         || (Lstat(before, p).Found? && Lstat(before, p).node.File?
             && Lstat(after, p).Found? && Lstat(after, p).node.File?)
    ensures Lstat(before, p).Found? && !Lstat(before, p).node.Link? ==> Standing(before, p)
  {
    hide WellFormed, LinkFreeAbove;
    SameShapeBlocks(before, after, p);
  }

  lemma {:induction false} SameShapeResolves(before: Tree, after: Tree, resolved: Path, remaining: Path, hops: nat)
    requires SameShape(before, after) && Standing(before, resolved) && hops <= MAX_SYMLINK_HOPS
    ensures Standing(after, resolved)
    ensures ResolveFrom(after, resolved, remaining, hops) == ResolveFrom(before, resolved, remaining, hops)
    decreases MAX_SYMLINK_HOPS - hops, |remaining|
  {
    hide LinkRestart, WellFormed, Standing, LinkFreeAbove, Lstat, Blocked;
    SameShapeStands(before, after, resolved);
    if remaining != [] {
      var candidate := resolved + [remaining[0]];
      StandingStep(before, resolved, remaining[0]);
      StandingStep(after, resolved, remaining[0]);
      SameShapeLstat(before, after, candidate);
      match Lstat(before, candidate)
      case Missing =>
      case NotDir =>
      case Found(Link(target)) =>
        if hops < MAX_SYMLINK_HOPS {
          Fs.RootStands(before);
          SameShapeResolves(before, after, [], LinkRestart(resolved, target) + remaining[1..], hops + 1);
        }
      case Found(_) =>
        SameShapeResolves(before, after, candidate, remaining[1..], hops);
    }
  }

  lemma {:induction false} SameShapeBlocks(before: Tree, after: Tree, p: Path)
    requires SameShape(before, after)
    ensures Blocked(after, p) <==> Blocked(before, p)
    decreases |p|
  {
    if p != [] {
      SameShapeBlocks(before, after, Parent(p));
    }
  }

  lemma {:induction false} SameShapeDetects(before: Tree, after: Tree, candidates: seq<string>, k: nat)
    requires SameShape(before, after) && k <= |candidates|
    ensures FirstRegular(after, candidates, k) == FirstRegular(before, candidates, k)
    decreases |candidates| - k
  {
    hide WellFormed;
    if k < |candidates| {
      Fs.RootStands(before);
      SameShapeResolves(before, after, [], SplitContainerPath(candidates[k]), 0);
      SameShapeDetects(before, after, candidates, k + 1);
    }
  }

  /** The store's text leads to the file it names. It does unless white space at its end is trimmed away. */
  ghost predicate NamesItself(t: Tree, target: string)
    requires WellFormed(t)
  {
    Resolve(t, target).Resolved? && Render(Resolve(t, target).path) == target
  }

  /** A run that chooses among several candidates writes the store and nothing else. */
  predicate OneStore(plan: Plan) {
    |plan.candidates| == 1 || (plan.anchor == "" && plan.second == "")
  }

  lemma KnownProcessorsHaveOneStore(proc: Processor)
    requires proc in {DEBIAN, RHEL, OPENSUSE, ALPINE, ARCH, FALLBACK}
    ensures OneStore(PlanOf(proc))
  {
  }

  /** Writing over the regular file found first leaves every other candidate as it was. */
  lemma OverwriteKeepsShape(t0: Tree, t1: Tree, target: string, data: bytes)
    requires Wrote(t0, target, data, t1) && Resolve(t0, target).path in t0 && t0[Resolve(t0, target).path].File?
    ensures SameShape(t0, t1)
  {
    hide Resolve;
    var p := Resolve(t0, target).path;
    NamesInTree(t0, p);
    assert p[..|p| - 1] == Parent(p);
  }

  lemma DetectsAtFirst(t: Tree, candidates: seq<string>, p: Path)
    requires WellFormed(t) && candidates != [] && Resolve(t, candidates[0]) == Resolved(p) && p in t && t[p].File?
    ensures Detected(t, candidates) == Ok(Render(p))
  {
    hide WellFormed, Resolve;
  }

  lemma DetectsAlike(before: Tree, after: Tree, candidates: seq<string>)
    requires SameShape(before, after)
    ensures Detected(after, candidates) == Detected(before, candidates)
  {
    hide WellFormed;
    SameShapeDetects(before, after, candidates, 0);
    if candidates != [] {
      var i := FirstRegular(before, candidates, 0);
      Fs.RootStands(before);
      SameShapeResolves(before, after, [], SplitContainerPath(candidates[if i < |candidates| then i else 0]), 0);
    }
  }

  /** The candidate that was chosen leads to the store. */
  lemma ChosenCandidate(t: Tree, candidates: seq<string>, target: string)
    requires WellFormed(t) && Detected(t, candidates) == Ok(target) && NamesItself(t, target)
    ensures candidates != []
    ensures var i := FirstRegular(t, candidates, 0);
            && Resolve(t, candidates[if i < |candidates| then i else 0]) == Resolve(t, target)
            && (i < |candidates| ==> Regular(t, target))
  {
    hide WellFormed, Resolve;
    FirstRegularIsFirst(t, candidates, 0);
    var i := FirstRegular(t, candidates, 0);
    var chosen := candidates[if i < |candidates| then i else 0];
    ResolveContained(t, target);
    ResolveContained(t, chosen);
    RenderInjective(Resolve(t, target).path, Resolve(t, chosen).path);
  }

  lemma DetectsAgain(t0: Tree, t1: Tree, t2: Tree, t3: Tree, plan: Plan, org: bytes, target: string, env: Env)
    requires Ran(t0, t1, t2, t3, plan, org, target, env) && CertBlocks(org, env.base64) != [] && OneStore(plan)
    requires NamesItself(t0, target) && !TempLike(Resolve(t0, target).path)
    requires WellFormed(t3)
    ensures Detected(t3, plan.candidates) == Ok(target)
  {
    hide WellFormed, CertBlocks, Resolve, StoreText, Wrote, MergePem, Detected, Written;
    var i := FirstRegular(t0, plan.candidates, 0);
    ChosenCandidate(t0, plan.candidates, target);
    if 0 < i < |plan.candidates| {
      if t1 != t0 {
        OverwriteKeepsShape(t0, t1, target, MergePem(StoreText(t0, target).value, org, env).text);
        DetectsAlike(t0, t1, plan.candidates);
      }
    } else {
      StoreAfterRun(t0, t1, t2, t3, plan, org, target, plan.candidates[0], env);
      DetectsAtFirst(t3, plan.candidates, Resolve(t0, target).path);
    }
  }

  lemma AnchorStaysApart(t0: Tree, t1: Tree, t2: Tree, t3: Tree, plan: Plan, org: bytes, target: string, env: Env)
    requires Ran(t0, t1, t2, t3, plan, org, target, env) && CertBlocks(org, env.base64) != []
    requires Resolve(t0, target).Resolved? && !TempLike(Resolve(t0, target).path)
    requires !AnchorIsStore(t0, plan, target) && WellFormed(t3)
    ensures !AnchorIsStore(t3, plan, target)
  {
    hide WellFormed, CertBlocks, Resolve, StoreText, Wrote, MergePem, Detected, Written;
    StoreAfterRun(t0, t1, t2, t3, plan, org, target, target, env);
    var m := MergePem(StoreText(t0, target).value, org, env);
    var anchor := plan.anchor;
    if m.added != 0 {
      OthersAfterWrite(t0, target, m.text, t1, anchor);
    }
    if m.added != 0 && plan.second != "" {
      OthersAfterWrite(t1, plan.second, m.text, t2, anchor);
    }
    if plan.anchor != "" {
      OthersAfterWrite(t2, anchor, org, t3, anchor);
    }
  }

  /**
   A second successful Apply with fresh facts finds the same store, leaves it
   byte for byte, and writes nothing but the anchor file.
   */
  lemma SecondRunKeepsStore(t0: Tree, t1: Tree, t2: Tree, t3: Tree, u1: Tree, u2: Tree, u3: Tree,
                            plan: Plan, org: bytes, target: string, target': string, env: Env)
    requires Ran(t0, t1, t2, t3, plan, org, target, env) && Ran(t3, u1, u2, u3, plan, org, target', env)
    requires CertBlocks(org, env.base64) != [] && Faithful(env.base64) && OneStore(plan)
    requires NamesItself(t0, target) && !TempLike(Resolve(t0, target).path)
    requires !AnchorIsStore(t0, plan, target)
    ensures target' == target && u1 == t3 && u2 == t3 && WellFormed(u3)
    ensures Resolve(u3, target) == Resolve(t3, target) == Resolve(t0, target)
    ensures var p := Resolve(t0, target).path; p in t3 && t3[p].File? && p in u3 && u3[p] == t3[p]
  {
    hide WellFormed, CertBlocks, Resolve, StoreText, Wrote, MergePem, Detected, Faithful, AnchorIsStore;
    var p := Resolve(t0, target).path;
    var text := MergePem(StoreText(t0, target).value, org, env).text;
    StoreAfterRun(t0, t1, t2, t3, plan, org, target, target, env);
    DetectsAgain(t0, t1, t2, t3, plan, org, target, env);
    MergeTwice(StoreText(t0, target).value, org, env);
    StoredText(t3, target, text);
    AnchorStaysApart(t0, t1, t2, t3, plan, org, target, env);
    if plan.anchor != "" {
      AnchorWriteKeepsStore(t3, u3, plan, org, target);
    }
  }

  lemma MergeTwice(existing: bytes, org: bytes, env: Env)
    requires Faithful(env.base64) && MergePem(existing, org, env).Merged?
    ensures var text := MergePem(existing, org, env).text; MergePem(text, org, env) == Merged(text, 0)
  {
    hide MergePem, Faithful;
    MergeAppendsMissing(existing, org, env);
  }

  lemma StoredText(t: Tree, target: string, text: bytes)
    requires WellFormed(t) && Resolve(t, target).Resolved? && HoldsFile(t, Resolve(t, target).path, text)
    requires StoreText(t, target).Some?
    ensures StoreText(t, target).value == text
  {
    hide WellFormed, Resolve;
  }

  lemma AnchorWriteKeepsStore(t: Tree, t': Tree, plan: Plan, org: bytes, target: string)
    requires plan.anchor != "" && Wrote(t, plan.anchor, org, t')
    requires Resolve(t, target).Resolved? && Resolve(t, target).path in t && !AnchorIsStore(t, plan, target)
    ensures WellFormed(t')
    ensures var p := Resolve(t, target).path; Resolve(t', target) == Resolve(t, target) && p in t' && t'[p] == t[p]
  {
    hide WellFormed, Resolve, Written, MkDirs;
    OthersAfterWrite(t, plan.anchor, org, t', target);
  }

  // ----- a run that fails

  /** Nothing there before is lost: each node is as it was, but for files that now hold the given text. */
  ghost predicate KeptBut(t: Tree, t': Tree, text: Option<bytes>) {
    WellFormed(t') && forall q :: q in t ==>
      q in t' && (t'[q] == t[q] || (text.Some? && t'[q] == File(text.value, true)))
  }

  /** The text a run writes over stores, if it gets so far. */
  ghost function TextWritten(t: Tree, plan: Plan, org: bytes, env: Env): Option<bytes>
    requires WellFormed(t)
  {
    if Detected(t, plan.candidates).Ok? && StoreText(t, Detected(t, plan.candidates).value).Some? then
      var m := MergePem(StoreText(t, Detected(t, plan.candidates).value).value, org, env);
      if m.Merged? && m.added > 0 then Some(m.text) else None
    else None
  }

  /** What a run on a writable rootfs leaves, however it ends. */
  ghost predicate LeftBy(t: Tree, t': Tree, plan: Plan, org: bytes, env: Env) {
    && WellFormed(t)
    && ((exists t1, t2, target :: Ran(t, t1, t2, t', plan, org, target, env))
        || KeptBut(t, t', TextWritten(t, plan, org, env)))
  }

  lemma WroteKeepsBut(t: Tree, query: string, data: bytes, t': Tree)
    requires Wrote(t, query, data, t')
    ensures KeptBut(t, t', Some(data))
  {
    hide WellFormed, MkDirs, Resolve;
    WroteGrows(t, query, data, t');
  }

  lemma KeptButTwice(t: Tree, t1: Tree, t2: Tree, text: Option<bytes>)
    requires KeptBut(t, t1, text) && KeptBut(t1, t2, text)
    ensures KeptBut(t, t2, text)
  {
    hide WellFormed;
  }

  /**
   A second Apply with fresh facts, whether it succeeds or fails on the way, finds
   the store of the first where it was, byte for byte as the first left it.
   */
  lemma AnySecondRunKeepsStore(t0: Tree, t1: Tree, t2: Tree, t3: Tree, u: Tree,
                               plan: Plan, org: bytes, target: string, env: Env)
    requires Ran(t0, t1, t2, t3, plan, org, target, env) && LeftBy(t3, u, plan, org, env)
    requires CertBlocks(org, env.base64) != [] && Faithful(env.base64) && OneStore(plan)
    requires NamesItself(t0, target) && !TempLike(Resolve(t0, target).path)
    requires !AnchorIsStore(t0, plan, target)
    ensures WellFormed(u) && Resolve(u, target) == Resolve(t3, target) == Resolve(t0, target)
    ensures var p := Resolve(t0, target).path; p in t3 && t3[p].File? && p in u && u[p] == t3[p]
  {
    hide WellFormed, CertBlocks, Resolve, StoreText, MergePem, Detected, Faithful, AnchorIsStore, Ran, KeptBut,
      TextWritten;
    if u1, u2, target' :| Ran(t3, u1, u2, u, plan, org, target', env) {
      SecondRunKeepsStore(t0, t1, t2, t3, u1, u2, u, plan, org, target, target', env);
    } else {
      SecondWritesNothing(t0, t1, t2, t3, plan, org, target, env);
      KeptFile(t3, u, target);
    }
  }

  /** A second run has no text to write over the store, even when the store has become too large to read. */
  lemma SecondWritesNothing(t0: Tree, t1: Tree, t2: Tree, t3: Tree, plan: Plan, org: bytes, target: string, env: Env)
    requires Ran(t0, t1, t2, t3, plan, org, target, env)
    requires CertBlocks(org, env.base64) != [] && Faithful(env.base64) && OneStore(plan)
    requires NamesItself(t0, target) && !TempLike(Resolve(t0, target).path)
    requires !AnchorIsStore(t0, plan, target)
    ensures WellFormed(t3) && Resolve(t3, target).Resolved? && Resolve(t3, target) == Resolve(t0, target)
    ensures var p := Resolve(t3, target).path; p in t3 && t3[p].File?
    ensures TextWritten(t3, plan, org, env) == None
  {
    hide WellFormed, CertBlocks, Resolve, StoreText, Wrote, MergePem, Detected, Faithful, AnchorIsStore;
    var text := MergePem(StoreText(t0, target).value, org, env).text;
    StoreAfterRun(t0, t1, t2, t3, plan, org, target, target, env);
    DetectsAgain(t0, t1, t2, t3, plan, org, target, env);
    MergeTwice(StoreText(t0, target).value, org, env);
    if StoreText(t3, target).Some? {
      StoredText(t3, target, text);
    }
  }

  /** A file that is there is found at the same place when nothing is lost. */
  lemma KeptFile(t: Tree, t': Tree, query: string)
    requires WellFormed(t) && KeptBut(t, t', None) && Resolve(t, query).Resolved? && Resolve(t, query).path in t
    ensures WellFormed(t') && Resolve(t', query) == Resolve(t, query)
    ensures var p := Resolve(t, query).path; p in t' && t'[p] == t[p]
  {
    SameRun(t, t', [], [], SplitContainerPath(query), 0);
  }
}
