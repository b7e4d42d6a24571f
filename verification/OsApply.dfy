/** Apply of internal/engine/processors/osstore/osstore.go as a method: the run, its errors, and the facts it leaves. */
module OsApply {
  import opened Bytes
  import opened Options
  import opened Seqs
  import opened Paths
  import opened FileTree
  import opened Resolver
  import opened FileWrites
  import opened Bundle
  import opened CertSets
  import opened Pem
  import opened OsStore
  import Fs = Rootfs

  datatype FactKey = TrustStorePath | TrustStoreKind | Distro | IndividualCAPath | MergedCAPath | RootfsReadOnly
  type Facts = map<FactKey, string>

  /** trustStoreConfigured */
  predicate TrustStoreConfigured(facts: Facts) {
    TrustStorePath in facts && TrimSpace(facts[TrustStorePath]) != ""
  }

  /** What the hook context offers: the organisation's bundle, and a staging directory on the host. */
  datatype Host = Host(
    orgCA: Option<bytes>,    // ReadCABundle
    caFile: string,          // the bundle's own path
    staged: Option<string>)  // where StageFile puts a file, unless it fails

  /** A run's own system calls. */
  datatype WriteEnvs = WriteEnvs(store: Fs.WriteEnv, alpine: Fs.WriteEnv, anchor: Fs.WriteEnv)

  /** A run on a writable rootfs succeeds: the store can be read and merged, and each write works in the tree it
      finds. */
  ghost predicate RunWorks(t: Tree, plan: Plan, org: bytes, env: Env, envs: WriteEnvs)
    requires WellFormed(t)
  {
    && Detected(t, plan.candidates).Ok?
    && var target := Detected(t, plan.candidates).value;
       && StoreText(t, target).Some? && MergePem(StoreText(t, target).value, org, env).Merged?
       && WritesWork(t, plan, org, target, MergePem(StoreText(t, target).value, org, env), envs)
  }

  ghost predicate WritesWork(t: Tree, plan: Plan, org: bytes, target: string, m: MergeResult, envs: WriteEnvs)
    requires WellFormed(t) && m.Merged?
  {
    if m.added == 0 then AnchorWorks(t, plan, envs)
    else
      && Fs.WriteWorks(t, target, envs.store)
      && var t1 := After(t, target, m.text, envs.store);
         if plan.second == "" then AnchorWorks(t1, plan, envs)
         else
           && Fs.WriteWorks(t1, plan.second, envs.alpine)
           && AnchorWorks(After(t1, plan.second, m.text, envs.alpine), plan, envs)
  }

  ghost predicate AnchorWorks(t: Tree, plan: Plan, envs: WriteEnvs)
    requires WellFormed(t)
  {
    plan.anchor != "" ==> Fs.WriteWorks(t, plan.anchor, envs.anchor)
  }

  /** A run on a read-only rootfs succeeds: with a bundle of its own to go beside, the merge can be staged or has no
      store to start from. */
  ghost predicate StageWorks(t: Tree, plan: Plan, org: bytes, env: Env, host: Host)
    requires WellFormed(t)
  {
    Detected(t, plan.candidates).Ok? && StagingWorks(t, Detected(t, plan.candidates).value, org, env, host)
  }

  ghost predicate StagingWorks(t: Tree, target: string, org: bytes, env: Env, host: Host)
    requires WellFormed(t)
  {
    host.caFile != "" ==>
      match ReadAt(t, target)
      case Err(e) => e == NotFound
      case Ok((data, _)) => MergePem(data, org, env).Merged? && TrimSpace(host.caFile) != "" && host.staged.Some?
  }

  /** Links are never replaced. */
  ghost predicate LinksKept(t: Tree, t': Tree) {
    forall q :: q in t && t[q].Link? ==> q in t' && t'[q] == t[q]
  }

  /** The tree after a write that works. */
  ghost function After(t: Tree, query: string, data: bytes, env: Fs.WriteEnv): (t': Tree)
    requires WellFormed(t) && Fs.WriteWorks(t, query, env)
    ensures WellFormed(t') && Wrote(t, query, data, t')
  {
    WriteRelates(t, query, data, env);
    Fs.AfterWrite(t, Resolve(t, query).path, data, env)
  }

  lemma WriteRelates(t: Tree, query: string, data: bytes, env: Fs.WriteEnv)
    requires WellFormed(t) && Fs.WriteWorks(t, query, env)
    ensures Wrote(t, query, data, Fs.AfterWrite(t, Resolve(t, query).path, data, env))
  {
    hide WellFormed, MkDirs, Resolve;
    var p := Resolve(t, query).path;
    ResolveContained(t, query);
    DirsGrow(t, p);
    WrittenGrows(t, p, data);
    if Fs.TempPath(p, env) == p {
      assert p[|p| - 1] == Fs.TEMP_PREFIX + env.suffix;
    }
  }

  method WriteStep(fs: Fs.Rootfs, query: string, data: bytes, env: Fs.WriteEnv) returns (r: Result<string>)
    requires fs.Valid()
    modifies fs
    ensures fs.Valid() && LinksKept(old(fs.nodes), fs.nodes)
    ensures r.Ok? <==> Fs.WriteWorks(old(fs.nodes), query, env)
    ensures r.Ok? ==> Resolve(old(fs.nodes), query).Resolved? && r.value == Render(Resolve(old(fs.nodes), query).path)
    ensures r.Ok? ==> fs.nodes == After(old(fs.nodes), query, data, env)
    ensures r.Err? ==> KeptBut(old(fs.nodes), fs.nodes, None)
  {
    hide WellFormed, Resolve, MkDirs, Wrote, Fs.AfterWrite;
    r := fs.WriteFile(query, data, env);
    if r.Ok? {
      WriteRelates(old(fs.nodes), query, data, env);
      WroteGrows(old(fs.nodes), query, data, fs.nodes);
    }
  }

  /** The merged bundle's writes: the store, and on Alpine a second file. Nothing is written when nothing was added. */
  method WriteStores(fs: Fs.Rootfs, distro: string, target: string, m: MergeResult, envs: WriteEnvs)
      returns (r: Result<()>, ghost t1: Tree, ghost t2: Tree)
    requires fs.Valid() && m.Merged?
    modifies fs
    ensures fs.Valid() && LinksKept(old(fs.nodes), fs.nodes)
    ensures m.added == 0 ==> r.Ok? && t1 == t2 == old(fs.nodes)
    ensures m.added > 0 ==>
              (r.Ok? <==> && Fs.WriteWorks(old(fs.nodes), target, envs.store)
                          && (distro == "alpine" ==>
                                Fs.WriteWorks(After(old(fs.nodes), target, m.text, envs.store),
                                              ALPINE_CERT, envs.alpine)))
    ensures r.Ok? && m.added > 0 ==>
              && t1 == After(old(fs.nodes), target, m.text, envs.store)
              && t2 == if distro == "alpine" then After(t1, ALPINE_CERT, m.text, envs.alpine) else t1
    ensures r.Ok? ==> fs.nodes == t2
    ensures KeptBut(old(fs.nodes), fs.nodes, if m.added > 0 then Some(m.text) else None)
  {
    hide WellFormed, Fs.WriteWorks, After, Wrote, KeptBut;
    ghost var t := fs.nodes;
    t1, t2 := t, t;
    KeptItself(t, if m.added > 0 then Some(m.text) else None);
    if m.added > 0 {
      var written := WriteStep(fs, target, m.text, envs.store);
      KeptWeaker(t, fs.nodes, m.text);
      if written.Err? {
        return Err(written.error), t1, t2;
      }
      WroteKeepsBut(t, target, m.text, fs.nodes);
      t1, t2 := fs.nodes, fs.nodes;
      if distro == "alpine" {
        written := WriteStep(fs, ALPINE_CERT, m.text, envs.alpine);
        KeptWeaker(t1, fs.nodes, m.text);
        if written.Ok? {
          WroteKeepsBut(t1, ALPINE_CERT, m.text, fs.nodes);
        }
        KeptButTwice(t, t1, fs.nodes, Some(m.text));
        if written.Err? {
          return Err(written.error), t1, t2;
        }
        t2 := fs.nodes;
      }
    }
    r := Ok(());
  }

  lemma KeptItself(t: Tree, text: Option<bytes>)
    requires WellFormed(t)
    ensures KeptBut(t, t, text)
  {
  }

  lemma KeptWeaker(t: Tree, t': Tree, text: bytes)
    ensures KeptBut(t, t', None) ==> KeptBut(t, t', Some(text))
  {
    hide WellFormed;
  }

  /** writeIndividualCA: nothing to write without an anchor directory. */
  method WriteIndividualCA(fs: Fs.Rootfs, anchorDir: string, content: bytes, env: Fs.WriteEnv)
      returns (r: Result<string>)
    requires fs.Valid()
    modifies fs
    ensures fs.Valid() && LinksKept(old(fs.nodes), fs.nodes)
    ensures r.Ok? <==> anchorDir == "" || Fs.WriteWorks(old(fs.nodes), AnchorPath(anchorDir), env)
    ensures r.Ok? ==>
              if anchorDir == "" then r.value == "" && fs.nodes == old(fs.nodes)
              else
                && Resolve(old(fs.nodes), AnchorPath(anchorDir)).Resolved?
                && r.value == Render(Resolve(old(fs.nodes), AnchorPath(anchorDir)).path)
                && fs.nodes == After(old(fs.nodes), AnchorPath(anchorDir), content, env)
    ensures r.Err? ==> KeptBut(old(fs.nodes), fs.nodes, None)
  {
    hide WellFormed, Fs.WriteWorks, After, AnchorPath, Resolve, KeptBut;
    if anchorDir == "" {
      return Ok("");
    }
    r := WriteStep(fs, AnchorPath(anchorDir), content, env);
  }

  /** All writes of a run; the result is where the anchor file went, "" if nowhere. */
  method WriteAll(fs: Fs.Rootfs, proc: Processor, target: string, m: MergeResult, org: bytes, envs: WriteEnvs)
      returns (r: Result<string>, ghost t1: Tree, ghost t2: Tree)
    requires fs.Valid() && m.Merged?
    modifies fs
    ensures fs.Valid() && LinksKept(old(fs.nodes), fs.nodes)
    ensures r.Ok? <==> WritesWork(old(fs.nodes), PlanOf(proc), org, target, m, envs)
    ensures r.Ok? ==> AllWritten(old(fs.nodes), t1, t2, fs.nodes, PlanOf(proc), org, target, m) && WellFormed(t2)
    ensures r.Ok? ==> if PlanOf(proc).anchor == "" then r.value == ""
                      else && Resolve(t2, PlanOf(proc).anchor).Resolved?
                           && r.value == Render(Resolve(t2, PlanOf(proc).anchor).path)
    ensures r.Err? ==> KeptBut(old(fs.nodes), fs.nodes, if m.added > 0 then Some(m.text) else None)
  {
    hide WellFormed, Resolve, Wrote, Fs.WriteWorks, AnchorPath, Render, KeptBut;
    var stored;
    stored, t1, t2 := WriteStores(fs, proc.distro, target, m, envs);
    if stored.Err? {
      return Err(stored.error), t1, t2;
    }
    r := WriteIndividualCA(fs, proc.anchorDir, org, envs.anchor);
    if r.Err? {
      KeptWeaker(t2, fs.nodes, m.text);
      KeptButTwice(old(fs.nodes), t2, fs.nodes, if m.added > 0 then Some(m.text) else None);
    }
  }

  /** A run that goes no further leaves everything as it was. */
  lemma LeavesAsItWas(t: Tree, plan: Plan, env: Env)
    requires WellFormed(t)
    ensures forall org :: LeftBy(t, t, plan, org, env)
  {
    hide WellFormed, TextWritten, Ran, KeptBut;
    forall org ensures LeftBy(t, t, plan, org, env) {
      KeptItself(t, TextWritten(t, plan, org, env));
    }
  }

  /** A path that is all white space counts as none. */
  lemma ConfiguredExactly(facts: Facts)
    ensures TrustStoreConfigured(facts)
            <==> TrustStorePath in facts && exists c :: c in facts[TrustStorePath] && !IsSpace(c)
  {
    if TrustStorePath in facts {
      TrimmedAway(facts[TrustStorePath]);
    }
  }

  lemma {:induction false} TrimmedAway(s: string)
    ensures TrimSpace(s) != "" <==> exists c :: c in s && !IsSpace(c)
  {
    if s != "" && IsSpace(s[0]) {
      TrimmedAway(s[1..]);
      assert s == [s[0]] + s[1..];
    } else if s != "" {
      TrimRightShrinks(s, IsSpace);
      assert !IsSpace(s[0]);
    }
  }

  // ----- the facts of a run

  /** The facts of a read-only run, and the bundle it stages. */
  ghost predicate StagedFacts(t: Tree, distro: string, target: string, env: Env, host: Host,
                              before: Facts, after: Facts, stagedBefore: Option<bytes>, stagedAfter: Option<bytes>)
    requires WellFormed(t) && host.orgCA.Some?
  {
    var own := before[RootfsReadOnly := "true"][TrustStorePath := target][Distro := distro];
    if host.caFile == "" then after == own && stagedAfter == stagedBefore
    else
      var individual := own[IndividualCAPath := host.caFile];
      match ReadAt(t, target)
      case Err(e) => e == NotFound && after == individual && stagedAfter == stagedBefore
      case Ok((data, _)) =>
        var m := MergePem(data, host.orgCA.value, env);
        && m.Merged? && stagedAfter == Some(m.text) && host.staged.Some?
        && after == if host.staged.value != "" then individual[MergedCAPath := host.staged.value] else individual
  }

  /** The facts of a writable run: the store doubles as the merged bundle. */
  ghost function RanFacts(facts: Facts, t2: Tree, proc: Processor, target: string): Facts
    requires WellFormed(t2) && (PlanOf(proc).anchor != "" ==> Resolve(t2, PlanOf(proc).anchor).Resolved?)
  {
    var own := facts[TrustStorePath := target][TrustStoreKind := "bundle"]
      [Distro := proc.distro][MergedCAPath := target];
    if PlanOf(proc).anchor == "" then own else own[IndividualCAPath := Render(Resolve(t2, PlanOf(proc).anchor).path)]
  }

  // ----- what the facts say

  /**
   The merged-path fact of a run from t0 to t3 on a writable rootfs leads to a file
   that holds every certificate of the organisation, and every one the store held,
   unless the anchor file took the store's place; all other text is there too then.
   */
  ghost predicate MergedFact(t0: Tree, t3: Tree, facts: Facts, plan: Plan, org: bytes, env: Env)
    requires WellFormed(t0) && Detected(t0, plan.candidates).Ok?
  {
    var target := Detected(t0, plan.candidates).value;
    && WellFormed(t3) && Resolve(t0, target).Resolved? && MergedCAPath in facts
    && var before, after := Resolve(t0, target), Resolve(t3, facts[MergedCAPath]);
       && after.Resolved? && after.path in t3 && t3[after.path].File?
       && var earlier, text := if before.path in t0 && t0[before.path].File? then t0[before.path].data else [],
                               t3[after.path].data;
          && HoldsAll(text, org, env)
          && (Hashes(earlier, env) <= Hashes(text, env)
              <==> !AnchorIsStore(t0, plan, target) || Hashes(earlier, env) <= Hashes(org, env))
          && (!AnchorIsStore(t0, plan, target) ==> TextBlocks(earlier, env.base64) <= TextBlocks(text, env.base64))
  }

  /** The individual-path fact leads to the organisation's bundle. */
  ghost predicate AnchorFact(t3: Tree, facts: Facts, org: bytes) {
    && WellFormed(t3) && IndividualCAPath in facts
    && var r := Resolve(t3, facts[IndividualCAPath]);
       r.Resolved? && HoldsFile(t3, r.path, org)
  }

  /** The other facts of a run on a writable rootfs. A later Apply takes the first of them as a sign to do nothing. */
  predicate OtherFacts(before: Facts, after: Facts, proc: Processor) {
    && TrustStoreConfigured(after) && MergedCAPath in after && after[TrustStorePath] == after[MergedCAPath]
    && TrustStoreKind in after && after[TrustStoreKind] == "bundle" && Distro in after && after[Distro] == proc.distro
    && (RootfsReadOnly in after <==> RootfsReadOnly in before)
    && (RootfsReadOnly in after ==> after[RootfsReadOnly] == before[RootfsReadOnly])
    && (proc.anchorDir == "" ==>
          && (IndividualCAPath in after <==> IndividualCAPath in before)
          && (IndividualCAPath in after ==> after[IndividualCAPath] == before[IndividualCAPath]))
  }

  /**
   After a run on a read-only rootfs: the bundle staged on the host holds every
   certificate of the organisation and every one of the store, with all its text,
   and the merged-path fact is where it was staged; without a store nothing is
   staged, and the organisation's own file is all there is.
   */
  ghost predicate StagedFact(t: Tree, target: string, before: Facts, after: Facts, distro: string, host: Host,
                             stagedBefore: Option<bytes>, staged: Option<bytes>, env: Env)
    requires WellFormed(t) && host.orgCA.Some?
  {
    var store := Resolve(t, target);
    && RootfsReadOnly in after && after[RootfsReadOnly] == "true" && Distro in after && after[Distro] == distro
    && TrustStorePath in after && after[TrustStorePath] == target
    && (if host.caFile == "" || (store.Resolved? && store.path !in t) then
          && staged == stagedBefore && (MergedCAPath in after <==> MergedCAPath in before)
          && (MergedCAPath in after ==> after[MergedCAPath] == before[MergedCAPath])
        else
          && store.Resolved? && t[store.path].File? && staged.Some? && host.staged.Some?
          && HoldsAll(staged.value, host.orgCA.value, env)
          && Hashes(t[store.path].data, env) <= Hashes(staged.value, env)
          && TextBlocks(t[store.path].data, env.base64) <= TextBlocks(staged.value, env.base64)
          && (host.staged.value != "" ==> MergedCAPath in after && after[MergedCAPath] == host.staged.value))
    && (host.caFile != "" ==> IndividualCAPath in after && after[IndividualCAPath] == host.caFile)
  }

  /** When a run on a read-only rootfs succeeds, condition by condition. */
  lemma StagingWorksExactly(t: Tree, target: string, org: bytes, env: Env, host: Host)
    requires WellFormed(t) && Faithful(env.base64)
    ensures StagingWorks(t, target, org, env, host) <==>
              || host.caFile == ""
              || (StoreReadable(t, target)
                  && (Resolve(t, target).path in t ==>
                        && (forall d :: d in CertBlocks(org, env.base64) ==> env.parses(d))
                        && (exists c :: c in host.caFile && !IsSpace(c)) && host.staged.Some?))
  {
    hide WellFormed, CertBlocks, Resolve, MergePem, Hashes, HoldsAll, Faithful, ReadAt, MissingCerts, Unfinished,
      TrimSpace;
    ReadOutcomes(t, target);
    TrimmedAway(host.caFile);
    if StoreReadable(t, target) && Resolve(t, target).path in t {
      MergeAppendsMissing(t[Resolve(t, target).path].data, org, env);
    }
  }

  lemma StagedFactHolds(t: Tree, target: string, before: Facts, after: Facts, distro: string, host: Host,
                        stagedBefore: Option<bytes>, staged: Option<bytes>, env: Env)
    requires WellFormed(t) && host.orgCA.Some? && Faithful(env.base64)
    requires StagedFacts(t, distro, target, env, host, before, after, stagedBefore, staged)
    ensures StagedFact(t, target, before, after, distro, host, stagedBefore, staged, env)
  {
    hide WellFormed, CertBlocks, TextBlocks, Resolve, MergePem, Hashes, HoldsAll, Faithful, ReadAt, MissingCerts,
      Unfinished, ExtendedBy, Undone;
    ReadOutcomes(t, target);
    match ReadAt(t, target)
    case Err(_) =>
    case Ok((data, _)) =>
      if host.caFile != "" {
        MergeAppendsMissing(data, host.orgCA.value, env);
        MergeKeepsText(data, host.orgCA.value, env);
      }
  }

  /** The name a path leads to is not a temporary one. */
  ghost predicate NotTemporary(t: Tree, query: string)
    requires WellFormed(t)
  {
    Resolve(t, query).Resolved? ==> !TempLike(Resolve(t, query).path)
  }

  /** Nor does it end in white space. */
  ghost predicate LastsAt(t: Tree, query: string)
    requires WellFormed(t)
  {
    NotTemporary(t, query) && (Resolve(t, query).Resolved? ==> StableLast(Resolve(t, query).path))
  }

  lemma MergedFactHolds(t0: Tree, t1: Tree, t2: Tree, t3: Tree, plan: Plan, org: bytes, target: string, facts: Facts,
      env: Env)
    requires Ran(t0, t1, t2, t3, plan, org, target, env) && CertBlocks(org, env.base64) != [] && Faithful(env.base64)
    requires NotTemporary(t0, target)
    requires MergedCAPath in facts && facts[MergedCAPath] == target
    ensures MergedFact(t0, t3, facts, plan, org, env)
  {
    hide WellFormed, CertBlocks, TextBlocks, Resolve, StoreText, Wrote, Detected, MergePem, Hashes, HoldsAll, Faithful,
      MissingCerts, Unfinished, ExtendedBy, AllWritten, Undone;
    OldSurviveExactly(t0, t1, t2, t3, plan, org, target, env);
    StoreTextExactly(t0, target);
    if AnchorIsStore(t0, plan, target) {
      MergeAppendsMissing(StoreText(t0, target).value, org, env);
      HoldsItself(org, env);
    } else {
      StoreHoldsBundle(t0, t1, t2, t3, plan, org, target, env);
    }
  }

  lemma HoldsItself(org: bytes, env: Env)
    requires AllParse(CertBlocks(org, env.base64), env)
    ensures HoldsAll(org, org, env)
  {
    hide CertBlocks;
    AllParseable(CertBlocks(org, env.base64), env);
  }

  /** The anchor path leads nowhere else by the time it is written. */
  lemma AnchorFactHolds(t0: Tree, t1: Tree, t2: Tree, t3: Tree, plan: Plan, org: bytes, target: string, facts: Facts,
      env: Env)
    requires Ran(t0, t1, t2, t3, plan, org, target, env) && plan.anchor != "" && LastsAt(t0, plan.anchor)
    requires WellFormed(t2) && Resolve(t2, plan.anchor).Resolved? && IndividualCAPath in facts
    requires facts[IndividualCAPath] == Render(Resolve(t2, plan.anchor).path)
    ensures AnchorFact(t3, facts, org)
  {
    hide WellFormed, Resolve, StoreText, Detected, MergePem, Written, Render;
    var m := MergePem(StoreText(t0, target).value, org, env);
    var anchor := plan.anchor;
    if m.added != 0 {
      OthersAfterWrite(t0, target, m.text, t1, anchor);
    }
    if m.added != 0 && plan.second != "" {
      OthersAfterWrite(t1, plan.second, m.text, t2, anchor);
    }
    var p := Resolve(t2, anchor).path;
    assert StableLast(p) && !TempLike(p);
    WroteGrows(t2, anchor, org, t3);
    PresentStays(t2, t3, p, anchor);
    ResolveContained(t3, anchor);
  }

  /** The three together, of the facts as Apply sets them. */
  lemma RanFactsHold(t0: Tree, t1: Tree, t2: Tree, t3: Tree, proc: Processor, org: bytes, target: string,
                     before: Facts, env: Env)
    requires Ran(t0, t1, t2, t3, PlanOf(proc), org, target, env)
    requires WellFormed(t2) && (PlanOf(proc).anchor != "" ==> Resolve(t2, PlanOf(proc).anchor).Resolved?)
    ensures var facts := RanFacts(before, t2, proc, target);
            && OtherFacts(before, facts, proc)
            && (Faithful(env.base64) && CertBlocks(org, env.base64) != [] && NotTemporary(t0, target) ==>
                  MergedFact(t0, t3, facts, PlanOf(proc), org, env))
            && (proc.anchorDir != "" && LastsAt(t0, AnchorPath(proc.anchorDir)) ==> AnchorFact(t3, facts, org))
  {
    hide MergedFact, AnchorFact, LastsAt, NotTemporary, Faithful, CertBlocks, AnchorPath, Resolve, WellFormed, Render,
      AllWritten, StoreText, MergePem, Detected, TrimSpace;
    var facts := RanFacts(before, t2, proc, target);
    DetectedIsPath(t0, proc.candidates);
    if Faithful(env.base64) && CertBlocks(org, env.base64) != [] && NotTemporary(t0, target) {
      MergedFactHolds(t0, t1, t2, t3, PlanOf(proc), org, target, facts, env);
    }
    if proc.anchorDir != "" && LastsAt(t0, AnchorPath(proc.anchorDir)) {
      AnchorFactHolds(t0, t1, t2, t3, PlanOf(proc), org, target, facts, env);
    }
  }

  lemma DetectedIsPath(t: Tree, candidates: seq<string>)
    requires WellFormed(t) && Detected(t, candidates).Ok?
    ensures TrimSpace(Detected(t, candidates).value) != ""
  {
    hide WellFormed, Resolve, TrimSpace, Render;
    var i := FirstRegular(t, candidates, 0);
    PathsAreNotBlank(Resolve(t, candidates[if i < |candidates| then i else 0]).path);
  }

  lemma PathsAreNotBlank(p: Path)
    ensures TrimSpace(Render(p)) != ""
  {
    var s := Render(p);
    assert s[0] == '/' && TrimLeft(s, IsSpace) == s;
    TrimRightShrinks(s, IsSpace);
    assert !IsSpace(s[0]);
  }

  class Context {
    var facts: Facts
    var bundleStaged: Option<bytes>  // the merged bundle beside the organisation's own, on the host
    const host: Host

    constructor (host: Host)
      ensures facts == map[] && bundleStaged == None && this.host == host
    {
      facts := map[];
      bundleStaged := None;
      this.host := host;
    }

    /** stageMergedCA: None when the rootfs has no store to merge with. */
    method StageMergedCA(fs: Fs.Rootfs, store: string, org: bytes, env: Env) returns (r: Result<Option<string>>)
      requires fs.Valid()
      modifies this`bundleStaged
      ensures match ReadAt(fs.nodes, store)
              case Ok((data, _)) =>
                var m := MergePem(data, org, env);
                if m.Merged? && TrimSpace(host.caFile) != "" && host.staged.Some?
                then r == Ok(host.staged) && bundleStaged == Some(m.text)
                else r.Err? && bundleStaged == old(bundleStaged)
              case Err(e) =>
                bundleStaged == old(bundleStaged) && r == if e == NotFound then Ok(None) else Err(e)
    {
      hide ReadAt, MergePem;
      var current := fs.ReadFile(store);
      if current.Err? {
        return if current.error == NotFound then Ok(None) else Err(current.error);
      }
      var m := MergePEM(current.value.0, org, env);
      if m.BadCertificate? || TrimSpace(host.caFile) == "" || host.staged.None? {
        return Err(Failed);
      }
      bundleStaged := Some(m.text);
      r := Ok(host.staged);
    }

    /** Apply on a read-only rootfs: the facts, and the merged bundle staged on the host. */
    method ApplyReadOnly(distro: string, fs: Fs.Rootfs, target: string, org: bytes, env: Env) returns (r: Result<()>)
      requires fs.Valid() && host.orgCA == Some(org)
      modifies this
      ensures r.Ok? <==> StagingWorks(fs.nodes, target, org, env, host)
      ensures r.Ok? ==>
                StagedFacts(fs.nodes, distro, target, env, host, old(facts), facts, old(bundleStaged), bundleStaged)
      ensures host.caFile != "" && !StoreReadable(fs.nodes, target) ==> r.Err?
    {
      hide ReadAt, MergePem, WellFormed, TrimSpace, StoreReadable;
      StoreTextExactly(fs.nodes, target);
      facts := facts[RootfsReadOnly := "true"][TrustStorePath := target][Distro := distro];
      if host.caFile != "" {
        facts := facts[IndividualCAPath := host.caFile];
        var merged := StageMergedCA(fs, target, org, env);
        if merged.Err? {
          return Err(merged.error);
        }
        if merged.value.Some? && merged.value.value != "" {
          facts := facts[MergedCAPath := merged.value.value];
        }
      }
      r := Ok(());
    }

    /** Apply on a writable rootfs: merge the store in place, write the other files, and record the facts. */
    method ApplyWritable(proc: Processor, fs: Fs.Rootfs, target: string, org: bytes, env: Env, envs: WriteEnvs)
        returns (r: Result<()>, ghost t1: Tree, ghost t2: Tree)
      requires fs.Valid() && Detected(fs.nodes, proc.candidates) == Ok(target)
      modifies this`facts, fs
      ensures fs.Valid() && LinksKept(old(fs.nodes), fs.nodes)
      ensures r.Ok? <==> RunWorks(old(fs.nodes), PlanOf(proc), org, env, envs)
      ensures r.Ok? ==> Ran(old(fs.nodes), t1, t2, fs.nodes, PlanOf(proc), org, target, env)
      ensures r.Ok? ==> WellFormed(t2) && (PlanOf(proc).anchor != "" ==> Resolve(t2, PlanOf(proc).anchor).Resolved?)
      ensures r.Ok? ==> facts == RanFacts(old(facts), t2, proc, target)
      ensures r.Err? ==> facts == old(facts)
      ensures r.Err? ==> KeptBut(old(fs.nodes), fs.nodes, TextWritten(old(fs.nodes), PlanOf(proc), org, env))
      ensures !StoreReadable(old(fs.nodes), target) ==> r.Err? && fs.nodes == old(fs.nodes)
    {
      hide ReadAt, MergePem, Detected, WellFormed, Resolve, AllWritten, WritesWork, AnchorPath, KeptBut, StoreReadable;
      StoreTextExactly(fs.nodes, target);
      t1, t2 := fs.nodes, fs.nodes;
      KeptItself(t1, None);
      var current := fs.ReadFile(target);
      if current.Err? && current.error != NotFound {
        return Err(current.error), t1, t2;
      }
      var m := MergePEM(if current.Ok? then current.value.0 else [], org, env);
      if m.BadCertificate? {
        return Err(Failed), t1, t2;
      }
      var individual;
      individual, t1, t2 := WriteAll(fs, proc, target, m, org, envs);
      if individual.Err? {
        return Err(individual.error), t1, t2;
      }
      facts := facts[TrustStorePath := target][TrustStoreKind := "bundle"]
        [Distro := proc.distro][MergedCAPath := target];
      if individual.value != "" {
        facts := facts[IndividualCAPath := individual.value];
      }
      r := Ok(());
    }

    /**
     Apply: `t1` and `t2` are the trees after the store and after Alpine's second
     file. It succeeds exactly when there is nothing to do or each of its steps
     works, and then does them all; the facts it leaves lead to files with the
     certificates they stand for. A store that is there but no regular file, or
     too large, is an error, and nothing is written.
     */
    method Apply(proc: Processor, fs: Fs.Rootfs, writable: bool, env: Env, envs: WriteEnvs)
        returns (r: Result<()>, ghost t1: Tree, ghost t2: Tree)
      requires fs.Valid()
      modifies this, fs
      ensures fs.Valid() && LinksKept(old(fs.nodes), fs.nodes)
      ensures TrustStoreConfigured(old(facts)) || (r.Err? && writable) ==> facts == old(facts)
      ensures r.Ok? <==>
                || TrustStoreConfigured(old(facts))
                || (host.orgCA.Some?
                    && if writable then RunWorks(old(fs.nodes), PlanOf(proc), host.orgCA.value, env, envs)
                       else StageWorks(old(fs.nodes), PlanOf(proc), host.orgCA.value, env, host))
      ensures TrustStoreConfigured(old(facts)) || !writable ==> fs.nodes == old(fs.nodes)
      ensures TrustStoreConfigured(old(facts)) || writable ==> bundleStaged == old(bundleStaged)
      ensures !TrustStoreConfigured(old(facts)) && writable && host.orgCA.Some? ==>
                LeftBy(old(fs.nodes), fs.nodes, PlanOf(proc), host.orgCA.value, env)
      ensures TrustStoreConfigured(old(facts)) || host.orgCA.None? ==> fs.nodes == old(fs.nodes)
      ensures (&& !TrustStoreConfigured(old(facts)) && Detected(old(fs.nodes), proc.candidates).Ok?
               && !StoreReadable(old(fs.nodes), Detected(old(fs.nodes), proc.candidates).value)
               && (writable || host.caFile != ""))
              ==> r.Err? && fs.nodes == old(fs.nodes)
      ensures r.Ok? && !TrustStoreConfigured(old(facts)) && writable ==>
                && host.orgCA.Some? && Detected(old(fs.nodes), proc.candidates).Ok?
                && OtherFacts(old(facts), facts, proc)
                && (Faithful(env.base64) && CertBlocks(host.orgCA.value, env.base64) != []
                    && NotTemporary(old(fs.nodes), Detected(old(fs.nodes), proc.candidates).value) ==>
                      MergedFact(old(fs.nodes), fs.nodes, facts, PlanOf(proc), host.orgCA.value, env))
                && (proc.anchorDir != "" && LastsAt(old(fs.nodes), AnchorPath(proc.anchorDir)) ==>
                      AnchorFact(fs.nodes, facts, host.orgCA.value))
      ensures r.Ok? && !TrustStoreConfigured(old(facts)) && !writable && Faithful(env.base64) ==>
                && host.orgCA.Some? && Detected(old(fs.nodes), proc.candidates).Ok?
                && StagedFact(old(fs.nodes), Detected(old(fs.nodes), proc.candidates).value, old(facts), facts,
                              proc.distro, host, old(bundleStaged), bundleStaged, env)
      ensures r.Ok? && !TrustStoreConfigured(old(facts)) ==>
                && host.orgCA.Some? && Detected(old(fs.nodes), proc.candidates).Ok?
                && var target := Detected(old(fs.nodes), proc.candidates).value;
                   if writable then
                     && Ran(old(fs.nodes), t1, t2, fs.nodes, PlanOf(proc), host.orgCA.value, target, env)
                     && facts == RanFacts(old(facts), t2, proc, target)
                   else
                     StagedFacts(old(fs.nodes), proc.distro, target, env, host, old(facts), facts, old(bundleStaged),
                       bundleStaged)
    {
      hide ReadAt, Detected, WellFormed, Resolve, TrimSpace, WritesWork, Ran, RanFacts, StagedFacts, StagingWorks,
           StoreText, KeptBut, TextWritten, MergePem, StoreReadable, MergedFact, AnchorFact, OtherFacts, StagedFact,
           NotTemporary, LastsAt, Faithful, CertBlocks, AnchorPath;
      ghost var t, before, staged := fs.nodes, facts, bundleStaged;
      t1, t2 := fs.nodes, fs.nodes;
      LeavesAsItWas(fs.nodes, PlanOf(proc), env);
      if TrustStoreConfigured(facts) {
        return Ok(()), t1, t2;
      }
      if host.orgCA.None? {
        return Err(Failed), t1, t2;
      }
      var detected := DetectTrustStorePath(fs, proc.candidates);
      if detected.Err? {
        return Err(detected.error), t1, t2;
      }
      if !writable {
        r := ApplyReadOnly(proc.distro, fs, detected.value, host.orgCA.value, env);
        if r.Ok? && Faithful(env.base64) {
          StagedFactHolds(t, detected.value, before, facts, proc.distro, host, staged, bundleStaged, env);
        }
      } else {
        r, t1, t2 := ApplyWritable(proc, fs, detected.value, host.orgCA.value, env, envs);
        if r.Ok? {
          RanFactsHold(t, t1, t2, fs.nodes, proc, host.orgCA.value, detected.value, before, env);
        }
      }
    }
  }
}
