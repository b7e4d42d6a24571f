/**
 The Java processor: discoverTrustStores of
 internal/engine/processors/java/discover.go and Apply of
 internal/engine/processors/java/java.go over the container rootfs.
 */
module JavaStores {
  import opened Bytes
  import opened Options
  import opened Paths
  import opened FileTree
  import opened Resolver
  import Files = FileWrites
  import Fs = Rootfs
  import opened Keystore
  import opened StoreMerge
  import Jks = JksFormat

  // ----- discovery

  ghost predicate IsRegular(t: Tree, containerPath: string)
    requires WellFormed(t)
  {
    var r := Resolve(t, containerPath);
    r.Resolved? && r.path in t && t[r.path].File?
  }

  /** Where a candidate resolves to, if that is a regular file. */
  ghost function RegularText(t: Tree, containerPath: string): Option<string>
    requires WellFormed(t)
  {
    if IsRegular(t, containerPath) then Some(Render(Resolve(t, containerPath).path)) else None
  }

  /** One of the first k candidates resolves to this regular file. */
  ghost predicate FoundAmong(t: Tree, candidates: seq<string>, k: nat, s: string)
    requires WellFormed(t) && k <= |candidates|
  {
    exists i :: 0 <= i < k && RegularText(t, candidates[i]) == Some(s)
  }

  /** Some candidate resolves to `s` before any resolves to `later`. */
  ghost predicate FoundBefore(t: Tree, candidates: seq<string>, s: string, later: string)
    requires WellFormed(t)
  {
    exists k :: 0 <= k <= |candidates| && FoundAmong(t, candidates, k, s) && !FoundAmong(t, candidates, k, later)
  }

  lemma FoundBeforeAt(t: Tree, candidates: seq<string>, k: nat, s: string, later: string)
    requires WellFormed(t) && k <= |candidates|
    requires FoundAmong(t, candidates, k, s) && !FoundAmong(t, candidates, k, later)
    ensures FoundBefore(t, candidates, s, later)
  {
    hide FoundAmong;
  }

  lemma FoundOneMore(t: Tree, candidates: seq<string>, k: nat)
    requires WellFormed(t) && k < |candidates|
    ensures forall s :: FoundAmong(t, candidates, k + 1, s)
                   <==> FoundAmong(t, candidates, k, s) || RegularText(t, candidates[k]) == Some(s)
  {
    hide RegularText;
  }

  lemma FoundNone(t: Tree, candidates: seq<string>)
    requires WellFormed(t)
    ensures forall s :: !FoundAmong(t, candidates, 0, s)
  {
  }

  /** discoverTrustStores, from the candidate paths on: resolved regular files, each once, in order of first
      discovery. */
  method DiscoverTrustStores(fs: Fs.Rootfs, candidates: seq<string>) returns (out: seq<string>)
    requires fs.Valid()
    ensures forall s :: s in out <==> FoundAmong(fs.nodes, candidates, |candidates|, s)
    ensures forall i, j :: 0 <= i < j < |out| ==> out[i] != out[j]
    ensures forall i, j :: 0 <= i < j < |out| ==> FoundBefore(fs.nodes, candidates, out[i], out[j])
  {
    hide FoundAmong, WellFormed, Resolve, FoundBefore;
    var seen: set<string> := {};
    out := [];
    FoundNone(fs.nodes, candidates);
    for k := 0 to |candidates|
      invariant forall s :: s in out <==> s in seen
      invariant forall s :: s in out <==> FoundAmong(fs.nodes, candidates, k, s)
      invariant forall i, j :: 0 <= i < j < |out| ==> out[i] != out[j]
      invariant forall i, j :: 0 <= i < j < |out| ==> FoundBefore(fs.nodes, candidates, out[i], out[j])
    {
      var resolved, ok := fs.RegularFile(candidates[k]);
      FoundOneMore(fs.nodes, candidates, k);
      if ok && resolved !in seen {
        forall i | 0 <= i < |out| ensures FoundBefore(fs.nodes, candidates, out[i], resolved) {
          FoundBeforeAt(fs.nodes, candidates, k, out[i], resolved);
        }
        seen := seen + {resolved};
        out := out + [resolved];
      }
    }
  }

  /** Stores as Apply is given them: regular files, no two the same. */
  ghost predicate DistinctStores(t: Tree, stores: seq<string>)
    requires WellFormed(t)
  {
    && (forall i :: 0 <= i < |stores| ==> IsRegular(t, stores[i]))
    && forall i, j :: 0 <= i < j < |stores| ==> Resolve(t, stores[i]).path != Resolve(t, stores[j]).path
  }

  /** Discovered stores are such, unless a name ending in white space makes a path resolve elsewhere the second time. */
  lemma DiscoveredAreDistinct(t: Tree, candidates: seq<string>, out: seq<string>)
    requires WellFormed(t)
    requires forall s :: s in out ==> FoundAmong(t, candidates, |candidates|, s)
    requires forall i, j :: 0 <= i < j < |out| ==> out[i] != out[j]
    requires forall i :: 0 <= i < |candidates| && IsRegular(t, candidates[i]) ==>
        StableLast(Resolve(t, candidates[i]).path)
    ensures DistinctStores(t, out)
    ensures forall i :: 0 <= i < |out| ==>
        Render(Resolve(t, out[i]).path) == out[i] && LinkFree(t, Resolve(t, out[i]).path)
  {
    forall k | 0 <= k < |out|
      ensures IsRegular(t, out[k]) && Render(Resolve(t, out[k]).path) == out[k] && LinkFree(t, Resolve(t, out[k]).path)
    {
      assert out[k] in out;
      var i :| 0 <= i < |candidates| && RegularText(t, candidates[i]) == Some(out[k]);
      ResolveContained(t, candidates[i]);
    }
  }

  // ----- Apply

  /** What mergeStore makes of the store at a path. */
  ghost function MergeAt(t: Tree, store: string, org: seq<bytes>, clock: Clock, c: Crypto): Merge
    requires WellFormed(t)
  {
    match Files.ReadAt(t, store)
    case Err(_) => Failed(Jks.UnknownFormat)
    case Ok((data, _)) => MergeData(data, org, clock, c)
  }

  ghost function DataAt(t: Tree, store: string): bytes
    requires WellFormed(t) && IsRegular(t, store)
  {
    t[Resolve(t, store).path].data
  }

  /** What a run is given besides the rootfs: for each store a clock and what its write's system calls do. */
  datatype Job = Job(org: seq<bytes>, clocks: nat -> Clock, envs: nat -> Fs.WriteEnv, crypto: Crypto)

  datatype Attempt = Trusted | WrittenBack(data: bytes) | NotMerged | NotWritten(data: bytes, format: Format)

  /** How one round of Apply's loop ends, for the i-th store. */
  ghost function AttemptAt(t: Tree, store: string, job: Job, i: nat): Attempt
    requires WellFormed(t) && IsRegular(t, store)
  {
    match MergeAt(t, store, job.org, job.clocks(i), job.crypto)
    case Failed(_) => NotMerged
    case Unchanged => Trusted
    case Rewritten(data) =>
      if Fs.WriteWorks(t, store, job.envs(i)) then WrittenBack(data)
      else NotWritten(data, DetectFormat(DataAt(t, store)))
  }

  /** The store's node once its own round is over. */
  ghost function FinalNode(t: Tree, store: string, job: Job, i: nat): Node
    requires WellFormed(t) && IsRegular(t, store)
  {
    match AttemptAt(t, store, job, i)
    case WrittenBack(data) => File(data, true)
    case _ => t[Resolve(t, store).path]
  }

  /**
   After the first k rounds: nothing but these stores' files may differ, each is
   as its own round left it, and every store is found where it was.
   */
  ghost predicate Rounds(before: Tree, after: Tree, stores: seq<string>, job: Job, k: nat)
    requires WellFormed(before) && DistinctStores(before, stores)
  {
    && WellFormed(after) && after.Keys == before.Keys
    && (forall q :: q in before && after[q] != before[q] ==>
          exists i :: 0 <= i < k <= |stores| && Resolve(before, stores[i]).path == q)
    && (forall i {:trigger stores[i]} :: 0 <= i < |stores| ==>
          && IsRegular(after, stores[i]) && Resolve(after, stores[i]) == Resolve(before, stores[i])
          && after[Resolve(before, stores[i]).path]
               == if i < k then FinalNode(before, stores[i], job, i) else before[Resolve(before, stores[i]).path])
  }

  lemma ReadAtRegular(t: Tree, s: string)
    requires WellFormed(t) && IsRegular(t, s)
    ensures Files.ReadAt(t, s) == if |DataAt(t, s)| > Files.MAX_READ_SIZE then Files.Err(Files.TooLarge)
                                  else Files.Ok((DataAt(t, s), Render(Resolve(t, s).path)))
  {
    ResolveContained(t, s);
  }

  /** Overwriting an existing file adds no node, and every path that led to a regular file still leads there. */
  lemma OverwriteKeeps(t: Tree, p: Path, data: bytes, s: string)
    requires WellFormed(t) && p in t && t[p].File? && IsRegular(t, s)
    ensures Files.Written(t, p, data) == t[p := File(data, true)] && WellFormed(t[p := File(data, true)])
    ensures Resolve(t[p := File(data, true)], s) == Resolve(t, s) && IsRegular(t[p := File(data, true)], s)
  {
    NamesInTree(t, p);
    if p != [] {
      assert Parent(p) == p[..|p| - 1];
    }
    Files.WrittenGrows(t, p, data);
    Files.SameRun(t, Files.Written(t, p, data), p, [], SplitContainerPath(s), 0);
  }

  lemma NoRounds(t: Tree, stores: seq<string>, job: Job)
    requires WellFormed(t) && DistinctStores(t, stores)
    ensures Rounds(t, t, stores, job, 0)
  {
  }

  /** Rounds before it do not change how a store's own round ends. */
  lemma RoundsApart(before: Tree, cur: Tree, stores: seq<string>, job: Job, k: nat)
    requires WellFormed(before) && DistinctStores(before, stores) && k < |stores|
    requires Rounds(before, cur, stores, job, k)
    ensures IsRegular(before, stores[k]) && IsRegular(cur, stores[k])
    ensures AttemptAt(cur, stores[k], job, k) == AttemptAt(before, stores[k], job, k)
  {
    hide MergeData, DetectFormat, WellFormed;
    ReadAtRegular(before, stores[k]);
    ReadAtRegular(cur, stores[k]);
    assert DataAt(cur, stores[k]) == DataAt(before, stores[k]);
    SameWrite(before, cur, stores[k], job.envs(k));
  }

  /** A write succeeds alike in trees with the same names and the same node at its end. */
  lemma SameWrite(before: Tree, cur: Tree, store: string, env: Fs.WriteEnv)
    requires WellFormed(before) && WellFormed(cur) && before.Keys == cur.Keys
    requires Resolve(cur, store) == Resolve(before, store)
    requires Resolve(before, store).Resolved? && Resolve(before, store).path in before
    requires cur[Resolve(before, store).path] == before[Resolve(before, store).path]
    ensures Fs.WriteWorks(cur, store, env) <==> Fs.WriteWorks(before, store, env)
  {
    hide WellFormed, Resolve, Fs.StepsWork;
  }

  /** One more round. */
  lemma RoundStep(before: Tree, cur: Tree, next: Tree, stores: seq<string>, job: Job, k: nat)
    requires WellFormed(before) && DistinctStores(before, stores) && k < |stores|
    requires Rounds(before, cur, stores, job, k)
    requires var p := Resolve(before, stores[k]).path;
             next == match AttemptAt(before, stores[k], job, k)
                     case WrittenBack(data) => cur[p := File(data, true)]
                     case _ => cur
    ensures Rounds(before, next, stores, job, k + 1)
  {
    hide AttemptAt, WellFormed, IsRegular, Resolve, DistinctStores;
    IsFile(before, cur, stores, job, k);
    var p := Resolve(before, stores[k]).path;
    if AttemptAt(before, stores[k], job, k).WrittenBack? {
      var data := AttemptAt(before, stores[k], job, k).data;
      StoreOverwritten(before, cur, stores, job, k, data, k);
      forall j {:trigger stores[j]} | 0 <= j < |stores|
        ensures IsRegular(next, stores[j]) && Resolve(before, stores[j]).Resolved?
            && Resolve(before, stores[j]).path in next
        ensures Resolve(next, stores[j]) == Resolve(before, stores[j])
        ensures next[Resolve(before, stores[j]).path]
             == if j == k then File(data, true) else cur[Resolve(before, stores[j]).path]
      {
        StoreOverwritten(before, cur, stores, job, k, data, j);
      }
    } else {
      forall j {:trigger stores[j]} | 0 <= j < |stores|
        ensures Resolve(before, stores[j]).Resolved? && Resolve(before, stores[j]).path in next
      {
        IsFile(before, cur, stores, job, j);
      }
    }
    RoundsAdvance(before, cur, next, stores, job, k);
  }

  /** What a round has to leave behind. */
  lemma RoundsAdvance(before: Tree, cur: Tree, next: Tree, stores: seq<string>, job: Job, k: nat)
    requires WellFormed(before) && DistinctStores(before, stores) && k < |stores|
    requires Rounds(before, cur, stores, job, k) && WellFormed(next) && next.Keys == cur.Keys
    requires Resolve(before, stores[k]).Resolved? && IsRegular(before, stores[k])
    requires forall q :: q in next && q != Resolve(before, stores[k]).path ==> next[q] == cur[q]
    requires forall j {:trigger stores[j]} :: 0 <= j < |stores| ==>
               && IsRegular(next, stores[j]) && Resolve(before, stores[j]).Resolved?
               && Resolve(before, stores[j]).path in next
               && Resolve(next, stores[j]) == Resolve(before, stores[j])
               && next[Resolve(before, stores[j]).path]
                    == if j == k then FinalNode(before, stores[k], job, k) else cur[Resolve(before, stores[j]).path]
    ensures Rounds(before, next, stores, job, k + 1)
  {
    hide AttemptAt, WellFormed, IsRegular, Resolve, DistinctStores, FinalNode;
  }

  lemma StoreOverwritten(before: Tree, cur: Tree, stores: seq<string>, job: Job, k: nat, data: bytes, j: nat)
    requires WellFormed(before) && DistinctStores(before, stores) && k < |stores| && j < |stores|
    requires Rounds(before, cur, stores, job, k) && Resolve(before, stores[k]).Resolved?
    ensures var next := cur[Resolve(before, stores[k]).path := File(data, true)];
            && WellFormed(next) && next.Keys == cur.Keys
            && IsRegular(next, stores[j]) && Resolve(next, stores[j]) == Resolve(before, stores[j])
            && Resolve(before, stores[j]).Resolved? && Resolve(before, stores[j]).path in cur
            && (j != k ==> Resolve(before, stores[j]).path != Resolve(before, stores[k]).path)
  {
    hide AttemptAt, WellFormed, Resolve;
    IsFile(before, cur, stores, job, k);
    IsFile(before, cur, stores, job, j);
    OverwriteKeeps(cur, Resolve(before, stores[k]).path, data, stores[j]);
  }

  lemma IsFile(before: Tree, cur: Tree, stores: seq<string>, job: Job, i: nat)
    requires WellFormed(before) && DistinctStores(before, stores) && i < |stores|
    requires exists k :: Rounds(before, cur, stores, job, k)
    ensures IsRegular(before, stores[i]) && IsRegular(cur, stores[i])
    ensures Resolve(before, stores[i]).Resolved?
    ensures var p := Resolve(before, stores[i]).path; p in before && p in cur && before[p].File? && cur[p].File?
  {
    hide WellFormed, Resolve;
  }

  /** One round of Apply's loop. */
  method PatchStore(fs: Fs.Rootfs, store: string, job: Job, i: nat) returns (a: Attempt)
    requires fs.Valid() && IsRegular(fs.nodes, store)
    modifies fs
    ensures fs.Valid() && a == AttemptAt(old(fs.nodes), store, job, i)
    ensures fs.nodes == match a
                        case WrittenBack(data) => old(fs.nodes)[Resolve(old(fs.nodes), store).path := File(data, true)]
                        case _ => old(fs.nodes)
  {
    hide WellFormed, MergeData, DetectFormat, Fs.WriteWorks, Resolve;
    ghost var t := fs.nodes;
    ReadAtRegular(t, store);
    var read := fs.ReadFile(store);
    if read.Err? {
      return NotMerged;
    }
    var merge := MergeBytes(read.value.0, job.org, job.clocks(i), job.crypto);
    match merge {
      case Failed(_) => a := NotMerged;
      case Unchanged => a := Trusted;
      case Rewritten(data) =>
        var written := fs.WriteFile(store, data, job.envs(i));
        a := if written.Ok? then WrittenBack(data) else NotWritten(data, DetectFormat(read.value.0));
        if written.Ok? {
          WrittenOver(t, store, data, job.envs(i));
        }
    }
  }

  lemma WrittenOver(t: Tree, store: string, data: bytes, env: Fs.WriteEnv)
    requires WellFormed(t) && IsRegular(t, store) && Fs.WriteWorks(t, store, env)
    ensures var p := Resolve(t, store).path; Fs.AfterWrite(t, p, data, env) == t[p := File(data, true)]
  {
    hide WellFormed, Resolve;
    OverwriteKeeps(t, Resolve(t, store).path, data, store);
  }

  /** `Stage` is the store to be staged outside the rootfs because none inside could be patched. */
  datatype Applied = NothingToDo | Patched | Stage(data: bytes, format: Format) | ApplyFailed

  /** Some of the first k stores trusts the organisation now. */
  ghost predicate SomePatched(t: Tree, stores: seq<string>, job: Job, k: nat)
    requires WellFormed(t) && DistinctStores(t, stores) && k <= |stores|
  {
    exists i :: 0 <= i < k && PatchedAt(t, stores, job, i)
  }

  ghost predicate PatchedAt(t: Tree, stores: seq<string>, job: Job, i: nat)
    requires WellFormed(t) && DistinctStores(t, stores) && i < |stores|
  {
    var a := AttemptAt(t, stores[i], job, i); a.Trusted? || a.WrittenBack?
  }

  /** The i-th store is the first whose merge could not be written. */
  ghost predicate FirstNotWritten(t: Tree, stores: seq<string>, job: Job, i: nat)
    requires WellFormed(t) && DistinctStores(t, stores) && i < |stores|
  {
    && AttemptAt(t, stores[i], job, i).NotWritten?
    && forall j :: 0 <= j < i ==> !AttemptAt(t, stores[j], job, j).NotWritten?
  }

  ghost predicate NoneUnwritten(t: Tree, stores: seq<string>, job: Job, k: nat)
    requires WellFormed(t) && DistinctStores(t, stores) && k <= |stores|
  {
    forall j :: 0 <= j < k ==> !AttemptAt(t, stores[j], job, j).NotWritten?
  }

  /**
   Apply, on the stores discovered and the organisation's certificates. A store
   is patched exactly when it trusts them already, or merges and its write
   succeeds, whatever happens to the others. With none patched the tree is as it
   was; then the first merge that could not be written is staged, or none could
   be merged at all.
   */
  method Apply(fs: Fs.Rootfs, stores: seq<string>, job: Job) returns (r: Applied, ghost staged: nat)
    requires fs.Valid() && DistinctStores(fs.nodes, stores)
    modifies fs
    ensures fs.Valid()
    ensures r == NothingToDo <==> job.org == [] || stores == []
    ensures r == NothingToDo ==> fs.nodes == old(fs.nodes)
    ensures r != NothingToDo ==> Rounds(old(fs.nodes), fs.nodes, stores, job, |stores|)
    ensures r == Patched <==> r != NothingToDo && SomePatched(old(fs.nodes), stores, job, |stores|)
    ensures r != Patched ==> fs.nodes == old(fs.nodes)
    ensures r.Stage? ==> staged < |stores| && FirstNotWritten(fs.nodes, stores, job, staged)
                         && AttemptAt(fs.nodes, stores[staged], job, staged) == NotWritten(r.data, r.format)
    ensures r == ApplyFailed ==> forall i :: 0 <= i < |stores| ==> AttemptAt(fs.nodes, stores[i], job, i) == NotMerged
  {
    hide WellFormed, Rounds, DistinctStores, AttemptAt, IsRegular, Resolve;
    ghost var before := fs.nodes;
    staged := 0;
    if job.org == [] || stores == [] {
      return NothingToDo, staged;
    }
    NoRounds(before, stores, job);
    StoresAreRegular(before, stores);
    var patched := 0;
    var pending: Option<(bytes, Format)> := None;
    for i := 0 to |stores|
      invariant fs.Valid() && Rounds(before, fs.nodes, stores, job, i)
      invariant patched > 0 <==> SomePatched(before, stores, job, i)
      invariant patched == 0 ==> fs.nodes == before
      invariant pending == None ==> NoneUnwritten(before, stores, job, i)
      invariant pending.Some? ==>
                  && staged < i && FirstNotWritten(before, stores, job, staged)
                  && AttemptAt(before, stores[staged], job, staged) == NotWritten(pending.value.0, pending.value.1)
    {
      ghost var cur := fs.nodes;
      RoundsApart(before, cur, stores, job, i);
      IsFile(before, cur, stores, job, i);
      SameEnd(before, cur, stores, job, i);
      var attempt := PatchStore(fs, stores[i], job, i);
      RoundStep(before, cur, fs.nodes, stores, job, i);
      SomePatchedStep(before, stores, job, i);
      match attempt {
        case Trusted => patched := patched + 1;
        case WrittenBack(_) => patched := patched + 1;
        case NotMerged =>
        case NotWritten(data, format) =>
          if pending == None {
            pending, staged := Some((data, format)), i;
          }
      }
    }
    if patched > 0 {
      return Patched, staged;
    }
    if pending == None {
      NothingMerged(before, stores, job);
      return ApplyFailed, staged;
    }
    r := Stage(pending.value.0, pending.value.1);
  }

  lemma NothingMerged(t: Tree, stores: seq<string>, job: Job)
    requires WellFormed(t) && DistinctStores(t, stores)
    requires !SomePatched(t, stores, job, |stores|) && NoneUnwritten(t, stores, job, |stores|)
    ensures forall i :: 0 <= i < |stores| ==> AttemptAt(t, stores[i], job, i) == NotMerged
  {
    hide WellFormed, AttemptAt;
    forall i | 0 <= i < |stores| ensures AttemptAt(t, stores[i], job, i) == NotMerged {
      assert !PatchedAt(t, stores, job, i);
    }
  }

  lemma StoresAreRegular(t: Tree, stores: seq<string>)
    requires WellFormed(t) && DistinctStores(t, stores)
    ensures forall i :: 0 <= i < |stores| ==> IsRegular(t, stores[i])
  {
  }

  lemma SameEnd(before: Tree, cur: Tree, stores: seq<string>, job: Job, k: nat)
    requires WellFormed(before) && DistinctStores(before, stores) && k < |stores| && Rounds(before, cur, stores, job, k)
    ensures WellFormed(cur) && Resolve(cur, stores[k]) == Resolve(before, stores[k])
  {
    hide Resolve;
  }

  lemma SomePatchedStep(t: Tree, stores: seq<string>, job: Job, k: nat)
    requires WellFormed(t) && DistinctStores(t, stores) && k < |stores|
    ensures SomePatched(t, stores, job, k + 1) <==> SomePatched(t, stores, job, k) || PatchedAt(t, stores, job, k)
  {
    hide PatchedAt, WellFormed, DistinctStores;
  }

  /**
   A run, store by store and told from the store's own bytes: it is patched exactly
   when it can be read and either trusts the organisation already or merges and
   can be written, and then holds what the merge gives; any other store's file is
   as it was.
   */
  lemma RoundsExactly(before: Tree, after: Tree, stores: seq<string>, job: Job, i: nat)
    requires WellFormed(before) && DistinctStores(before, stores) && i < |stores|
    requires Rounds(before, after, stores, job, |stores|)
    ensures IsRegular(before, stores[i])
    ensures var p, d := Resolve(before, stores[i]).path, DataAt(before, stores[i]);
            var m := MergeData(d, job.org, job.clocks(i), job.crypto);
            var written := |d| <= 0x100_0000 && m.Rewritten? && Fs.WriteWorks(before, stores[i], job.envs(i));
            && p in after && after[p] == (if written then File(m.data, true) else before[p])
            && (PatchedAt(before, stores, job, i)
                <==> written || (|d| <= 0x100_0000 && Trusts(d, job.org, job.crypto)))
            && (AttemptAt(before, stores[i], job, i).NotWritten? <==> |d| <= 0x100_0000 && m.Rewritten? && !written)
            && (AttemptAt(before, stores[i], job, i).NotWritten? ==>
                  AttemptAt(before, stores[i], job, i) == NotWritten(m.data, DetectFormat(d)))
  {
    hide MergeData, DetectFormat, WellFormed, Resolve, Trusts;
    StoresAreRegular(before, stores);
    ReadAtRegular(before, stores[i]);
    UnchangedMeansTrusts(DataAt(before, stores[i]), job.org, job.clocks(i), job.crypto);
  }

  /** Within the codec's limits a patched JKS store trusts every organisation certificate, and so does a staged one. */
  lemma PatchedTrusts(before: Tree, after: Tree, stores: seq<string>, job: Job, i: nat)
    requires WellFormed(before) && DistinctStores(before, stores) && i < |stores|
    requires Rounds(before, after, stores, job, |stores|)
    requires DetectFormat(DataAt(before, stores[i])) == FormatJKS
    requires ParseAny(DataAt(before, stores[i]), job.crypto).Ok? ==>
               var all := MergedEntries(ParseAny(DataAt(before, stores[i]), job.crypto).value, job.org, job.crypto);
               FitsLengthFields(all) && WithinLimits(all, job.crypto.parses)
    ensures IsRegular(after, stores[i])
    ensures match AttemptAt(before, stores[i], job, i)
            case NotMerged => true
            case NotWritten(data, _) => Trusts(data, job.org, job.crypto)
            case _ => Trusts(DataAt(after, stores[i]), job.org, job.crypto)
  {
    hide DetectFormat, MergedEntries, FitsLengthFields, WithinLimits, Trusts, WellFormed, Resolve, MergeData,
      DistinctStores, ParseAny;
    IsFile(before, after, stores, job, i);
    AttemptIsMerge(before, stores[i], job, i);
    MergedTrusts(DataAt(before, stores[i]), job.org, job.clocks(i), job.crypto);
  }

  /** A round ends as the store's merge says, if the store is small enough to be read. */
  lemma AttemptIsMerge(t: Tree, store: string, job: Job, i: nat)
    requires WellFormed(t) && IsRegular(t, store)
    ensures AttemptAt(t, store, job, i) == NotMerged
            || match MergeData(DataAt(t, store), job.org, job.clocks(i), job.crypto)
               case Failed(_) => false
               case Unchanged => AttemptAt(t, store, job, i) == Trusted
               case Rewritten(data) =>
                 AttemptAt(t, store, job, i) in {WrittenBack(data), NotWritten(data, DetectFormat(DataAt(t, store)))}
  {
    hide DetectFormat, WellFormed, Resolve, MergeData;
    ReadAtRegular(t, store);
  }

  lemma MergedTrusts(data: bytes, org: seq<bytes>, clock: Clock, c: Crypto)
    requires DetectFormat(data) == FormatJKS
    requires ParseAny(data, c).Ok? ==>
               var all := MergedEntries(ParseAny(data, c).value, org, c);
               FitsLengthFields(all) && WithinLimits(all, c.parses)
    ensures match MergeData(data, org, clock, c)
            case Failed(_) => true
            case Unchanged => Trusts(data, org, c)
            case Rewritten(merged) => Trusts(merged, org, c)
  {
    UnchangedMeansTrusts(data, org, clock, c);
    if MergeData(data, org, clock, c).Rewritten? {
      MergeConserves(data, org, clock, clock, c);
    }
  }
}
