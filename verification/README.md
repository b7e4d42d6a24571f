# cainjekt: file access, trust stores and lifecycle, verified

cainjekt is a node plugin that puts an organisation's CA bundle into containers
as they start. A hook edits trust stores inside the container's root file system,
which the container's image controls; a long-running plugin stages files on the
host, follows the container runtime across restarts, and asks the API server
which pods opted in. This project models the five parts of it where mistakes are
easy and costly, and proves what they promise.

1. **Paths and files in a rootfs.** A rootfs is a finite tree of directories,
   regular files, other nodes and symbolic links. `ResolveSymlinks` is the
   source's loop, which restarts from the root at each link and joins link
   targets as text. It is related to an independent resolver that walks one
   component at a time and stops `..` at the root, as `openat2` does with
   `RESOLVE_IN_ROOT`. The two agree on every tree, cyclic ones included, when
   `..` stands before every name and no name ends in white space; for link targets
   this is shown to be the exact condition. On top of resolution come reading,
   each outcome of a read, writing and when it succeeds, read-back, what a write leaves alone, and what a
   crash during one can leave on disk.
   (Seqs, Paths, FileTree, Resolver, InRootWalk, PlainNecessity, FileWrites, Rootfs)
2. **Java keystores.** The JKS reader and printer, both directions of their round
   trip with exact conditions, the format by its byte positions and every reading
   error by them, the digest, alias de-duplication with its pigeonhole bound,
   the merge of an organisation's certificates into a store, and the processor
   that does so for every store in a rootfs.
   (Bytes, Dedupe, JksFormat, JksLayout, Keystore, JksCodec, CertSets, StoreMerge, JavaStores)
3. **The plugin's lifecycle.** The handlers and the orphan sweep as methods on the
   tracked and missed sets, the gauges and the staged directories; and a step
   machine over them with process exits and starts, reconnects, abandoned
   creations and the missed-container scan. Safety of the sweep, the gauges'
   meaning and the bounds on leaked directories, across restarts too, hold over
   every run, and the handlers, driven by any run, do what the machine says.
   (CaKeys, Handlers, Lifecycle, Steps)
4. **Timed loops and the label cache.** The reconnect loop's waits and give-up
   point, told exactly from its attempts alone; the connect loop and the sweep's
   ticker together, where that a process synchronises before its first sweep is
   proved and not assumed; what a label lookup answers and its time budget, and
   agreement of the cache with the server over all interleavings of concurrent
   lookups.
   (Reconnect, Startup, NsLookup, LabelCache)
5. **PEM bundles and the OS trust store step.** PEM text line by line as Go's
   `encoding/pem` reads it (sections 3 and 5 of RFC 7468), the bundle merge, and
   `Apply` over a rootfs: the store ends up with every old and every new
   certificate, and a second run leaves it byte for byte, also when that run fails
   half-way. No text of a bundle is lost in a merge but newlines at its end, and
   the facts a run leaves lead to the files they promise.
   (Pem, Bundle, OrderlyBundle, OsStore, OsApply, OsRuns)

Loops and stateful operations are methods, on classes with the state the source
keeps where it has an object (`Rootfs`, `Reader`, `Writer`, `Plugin`, `OrphanCleaner`, `NsLabelCache`,
`Context`). Each is proved against a pure function or relation, and the theorems
are about that function.

Where the code and its documentation differ, the model follows the code:

- A sweep's comment speaks of directories older than ten minutes; the code also
  removes those exactly ten minutes old (`internal/nri/cleanup.go:63-70`).
- `AtomicWrite` removes its temporary name on return. If that name is the
  target's own (a target called `.cainjekt-<digits>` that does not exist yet), a
  nil return leaves no file, and a crash can leave torn data under the target's
  name (`pkg/fsx/atomicwrite.go:31-39`). The condition is stated exactly.
- Before the first synchronisation of a new process, a sweep does remove a live
  container's directory once it is ten minutes old. What keeps this from
  happening is that a process which never synchronises exits first
  (`internal/nri/plugin.go:392-424`); both facts are proved, and joined.
- When the anchor file is a link to the trust store, the merged store is
  overwritten with the organisation's bundle alone
  (`internal/engine/processors/osstore/osstore.go:186-201`); which certificates
  survive is stated exactly, with a run in which some are lost.
- A carriage return at the very end of a bundle, with no newline after it, keeps
  the decoder from seeing the last certificate; the merge supplies the newline,
  and the certificate comes back (`pkg/certs/merge.go:48-55`). So the merged
  blocks are the old and the missing ones exactly when the text does not end so.
- A removed container's directory can outlive fifteen minutes when the process is
  restarted later than ten minutes after the removal, because each process
  starts a new ticker (`internal/nri/cleanup.go:31-42`).
- A container that vanishes during a disconnect stays tracked, so its directory
  stays until the process exits (`internal/nri/plugin.go:476-482`). A scan's
  commit puts a container back into the missed set whose removal event came
  between the scan's start and the commit, where it stays until the next commit
  (`internal/nri/plugin.go:544-550`); which containers these are is stated
  exactly, with a run in which it happens.

## Model

| member | source | states |
|---|---|---|
| InRootWalk.ResolveIsInRootWalk | internal/util/containerfs/containerfs.go:87-145 | On every well-formed tree, cyclic ones included, the restart-from-root lexical loop and the component-wise walk confined to the root end alike (same path, same ENOTDIR, hop error for the same inputs) when `..` precedes every name and no name ends in white space |
| InRootWalk.LoopIsWalk | internal/util/containerfs/containerfs.go:93-136 | The agreement from every state the loop can reach, with the hops spent so far taken from the walk's limit |
| InRootWalk.WalkUps | internal/util/containerfs/containerfs.go:123-127 | Physically walking a target whose `..` come first reaches the directory that lexical cleaning gives |
| InRootWalk.WalkLimit | internal/util/containerfs/containerfs.go:90-117 | The hop error means more links than the limit: a walk that ends otherwise ends the same under every larger limit |
| PlainNecessity.FollowedAlikeExactly | internal/util/containerfs/containerfs.go:123-145 | For every link target: the lexical loop follows it as the walk does, in all trees whose other links are plain and for all plain queries, if and only if `..` precedes every name in it and no name in it ends in white space |
| PlainNecessity.PlainNeeded | internal/util/containerfs/containerfs.go:123-145 | For each target that fails the condition, in the last name, in an inner name or by a `..` after a name, there is a concrete tree on which the two resolvers part |
| PlainNecessity.BlankIsTrimmed | internal/util/containerfs/containerfs.go:139-145 | A link to a name and a blank leads the loop to that name without the blank, and the walk to the name itself |
| PlainNecessity.DroppedNameGoesElsewhere | internal/util/containerfs/containerfs.go:123-127 | A tree in which a target with `..` after a name leads both resolvers to directories, but to different ones |
| Paths.SplitContainerPathIsCleaning | internal/util/containerfs/containerfs.go:139-145 | Trimming, cleaning and splitting a path's text yields plain names, the lexical cleaning of its components |
| Paths.SplitOfRender | internal/util/containerfs/containerfs.go:139-145 | A path's own text splits back into it if and only if its last name does not end in white space |
| Paths.LinkContainerPathIsCleaning | internal/util/containerfs/containerfs.go:123-127 | Joining a link target to its directory is component-wise cleaning onto that directory, or onto the root for an absolute target |
| Resolver.ResolvedIsLinkFree | internal/util/containerfs/containerfs.go:93-136 | A resolved path consists of names, has no link at any prefix and only directories above it |
| Resolver.ResolveContained | internal/util/containerfs/containerfs.go:85-136 | A successful result is absolute and clean, link-free at every prefix, and its text resolves to itself in zero hops when its last name does not end in white space |
| Resolver.LinkFreeResolvesToItself | internal/util/containerfs/containerfs.go:93-110 | A path without links, below directories, is left as it is with no hop to spend |
| Rootfs.CleanPathStaysInRootfs | internal/util/containerfs/containerfs.go:66-72 | The host path of a clean container path is the rootfs followed by exactly its names |
| Rootfs.ResolvedStaysInRootfs | internal/util/containerfs/containerfs.go:66-136 | Whatever the query, the links and the tree, the host path of a resolved path lies inside the rootfs |
| Rootfs.Rootfs.ResolveSymlinks | internal/util/containerfs/containerfs.go:87-136 | The loop terminates on every tree and returns what the recursive resolver does; every path given to lstat or readlink lies inside the rootfs and has no link above its last name |
| Rootfs.Rootfs.RegularFile | internal/util/containerfs/containerfs.go:155-162 | True exactly for queries that resolve to an existing regular file, with its resolved path |
| Rootfs.Rootfs.ReadFile | internal/util/containerfs/containerfs.go:167-174 | The method returns what reading the resolved path gives, whose outcomes FileWrites.ReadOutcomes tells apart: whole data and resolved path of a regular file within 16 MiB, and which error otherwise |
| Rootfs.Rootfs.MkdirAll | internal/util/containerfs/containerfs.go:185-187 | Succeeds exactly when no directory it has to make is the one that fails; then all missing directories are made and nothing else, otherwise a prefix of them |
| Rootfs.Rootfs.AtomicWrite | pkg/fsx/atomicwrite.go:20-76 | Succeeds exactly when the directory exists, the target is neither directory nor link, the temporary name is unused and every step works; then the whole new file is in place, otherwise the tree is as it was; every state on the way is crash-atomic if and only if the temporary name is not the target's |
| Rootfs.Rootfs.WriteSteps | pkg/fsx/atomicwrite.go:24-75 | The same success condition, and each state between the steps is the old tree, the old tree with a temporary file, or the tree with the new file |
| Rootfs.Rootfs.FillTemp | pkg/fsx/atomicwrite.go:51-67 | Until the sync only the temporary name differs; after it the temporary file holds all the data, durably |
| Rootfs.Rootfs.WriteFile | internal/util/containerfs/containerfs.go:179-196 | Succeeds exactly when the query resolves to a place for a file, the temporary name is unused and no system call fails; the new tree then, also when the temporary name is the target's; on failure nothing existing changes and only directories are added; a link is never replaced |
| Rootfs.WriteWorksExactly | internal/util/containerfs/containerfs.go:179-196 | A write succeeds if and only if the query leads to a place that is no directory and no link, the temporary name beside it is unused, no directory is missing where making one fails, and creation, write, chmod, chown, sync, close and rename all work |
| FileWrites.ReadBack | internal/util/containerfs/containerfs.go:167-196 | After a write of at most 16 MiB the same query reads the data at the same resolved path, and so does the resolved path's own text when its last name does not end in white space |
| FileWrites.ReadOutcomes | internal/util/containerfs/containerfs.go:31-62 | Each outcome by the tree alone, both ways: not found exactly when the query leads to no node, not regular exactly when it leads to a directory, device, FIFO or socket, too large exactly beyond 16 MiB, the hop and ENOTDIR errors exactly when resolution ends so, and the data otherwise |
| FileWrites.ReadFrame | internal/util/containerfs/containerfs.go:167-196 | After a write every link is as before, and every other readable file reads as before under every query |
| FileWrites.SameRun | internal/util/containerfs/containerfs.go:93-131 | Adding nodes that are no links in the way changes no resolution that ended at something present or at the new file |
| FileWrites.WrittenGrows | internal/util/containerfs/containerfs.go:184-194 | A write keeps the tree well-formed and every other node as it was |
| FileWrites.CrashAtomicExactly | pkg/fsx/atomicwrite.go:30-75 | A crash after any step leaves the whole old or the whole new content if and only if the temporary name differs from the target's |
| Dedupe.FirstFree | pkg/javakeystore/javakeystore.go:231-237 | The search stops within as many candidates as aliases are taken, plus one, at the first free one |
| Dedupe.TakenRunIsShort | pkg/javakeystore/javakeystore.go:231-237 | Pigeonhole: a run of taken candidates is no longer than the set of taken aliases |
| Dedupe.CandidateInjective | pkg/javakeystore/javakeystore.go:231-237 | No alias is tried twice for a base, because decimal suffixes are injective |
| Dedupe.SearchAlias | pkg/javakeystore/javakeystore.go:227-237 | The unbounded inner loop terminates, in at most one try more than there are taken aliases, with the first free candidate |
| Dedupe.DedupeAliases | pkg/javakeystore/javakeystore.go:222-242 | The loop over entries computes the specified aliases in order |
| Dedupe.DedupedIsDistinct | pkg/javakeystore/javakeystore.go:220-242 | The aliases are non-empty and pairwise distinct |
| Dedupe.DedupedExactly | pkg/javakeystore/javakeystore.go:222-242 | Each alias becomes itself ("cert" if empty) when no earlier output is that, and otherwise itself, a dash and the least number from 2 on that is free |
| Dedupe.TwoAlike | pkg/javakeystore/javakeystore.go:231-237 | Of two equal aliases the second gets "-2" |
| Dedupe.FreeAliasIsKept | pkg/javakeystore/javakeystore.go:231-239 | An alias that no earlier output has taken is kept |
| Dedupe.DedupedIsSame | pkg/javakeystore/javakeystore.go:222-242 | Nothing changes if and only if the aliases are distinct, non-empty and free |
| Dedupe.DedupedTwice | pkg/javakeystore/javakeystore.go:222-242 | A second application changes nothing |
| Dedupe.DedupedPrefix | pkg/javakeystore/javakeystore.go:226-240 | What earlier aliases become does not depend on later ones |
| JksFormat.ReadPrintedStore | pkg/javakeystore/javakeystore.go:101-174 | Every store whose fields fit the format is read back from its bytes exactly, digest and trailing bytes included |
| JksFormat.PrintReadStore | pkg/javakeystore/javakeystore.go:101-148 | Every accepted byte string is the print of what was read from it, so nothing in it is lost but what the reader drops by name |
| JksFormat.ReadPrintedRecord | pkg/javakeystore/javakeystore.go:121-146 | One entry followed by any bytes is read back, with the rest untouched |
| JksFormat.PrintReadRecord | pkg/javakeystore/javakeystore.go:121-146 | One entry read from any bytes prints as the bytes consumed |
| JksLayout.RecordLayout | pkg/javakeystore/javakeystore.go:161-166 | Where each field of a printed entry stands, byte by byte: tag 2, alias, milliseconds in two's complement, type and certificate, most significant byte first, each text and the certificate after its length |
| JksLayout.StreamLayout | pkg/javakeystore/javakeystore.go:150-160 | The head of an encoding: FE ED FE ED, version 2, the number of entries, then the entries; the type written is "X.509" |
| JksLayout.RecordOutcomes | pkg/javakeystore/javakeystore.go:121-146 | How one entry is read, each error by the byte positions, both ways: a private key or an unknown tag is told once tag, alias and time are there, a certificate over the limit before it is missed, and truncation otherwise |
| JksLayout.RecordsFail | pkg/javakeystore/javakeystore.go:120-147 | The entries fail with an error if and only if the first that cannot be read fails with it |
| JksLayout.StoreOutcomes | pkg/javakeystore/javakeystore.go:101-148 | Too short, bad version and too many entries exactly by the bytes of the head; otherwise the entries decide |
| JksCodec.Reader.Take | pkg/javakeystore/javakeystore.go:266-277 | Advances by exactly n bytes, or sets the first error and reads nothing; a set error is kept |
| JksCodec.Reader.Word | pkg/javakeystore/javakeystore.go:281-295 | The big-endian number at the front, or the sticky error and zero |
| JksCodec.Reader.Utf | pkg/javakeystore/javakeystore.go:299-305 | A length-prefixed string as the format defines it, or the sticky error |
| JksCodec.Reader.Blob | pkg/javakeystore/javakeystore.go:307-317 | A certificate's bytes; the size limit is reported before truncation |
| JksCodec.ReadEntry | pkg/javakeystore/javakeystore.go:122-145 | One entry or the same error in the same order of checks as the format function |
| JksCodec.ReadEntries | pkg/javakeystore/javakeystore.go:120-147 | The loop reads the declared number of entries or stops at the first error |
| JksCodec.Parse | pkg/javakeystore/javakeystore.go:101-148 | The imperative parser computes the format function on every input |
| JksCodec.Writer.Utf | pkg/javakeystore/javakeystore.go:342-351 | A string over 65535 bytes sets the error, and nothing is written then or later |
| JksCodec.WriteEntry | pkg/javakeystore/javakeystore.go:161-166 | One entry's bytes appended, or the error exactly when the alias is too long |
| JksCodec.WriteEntries | pkg/javakeystore/javakeystore.go:157-167 | Stops at an entry without certificate; otherwise writes all records, or none of what follows a too long alias |
| JksCodec.Encode | pkg/javakeystore/javakeystore.go:150-174 | The imperative encoder computes the specified bytes or error; what these bytes are is stated by JksLayout and Keystore.EncodedDigest |
| Keystore.EncodesWithShortAliases | pkg/javakeystore/javakeystore.go:150-170 | Entries with certificates encode whenever no alias comes within a numeric suffix's length of 65535 bytes; with distinct non-empty aliases, if and only if each is within 65535 bytes; a missing certificate is reported before a long alias |
| Keystore.EncodedDigest | pkg/javakeystore/javakeystore.go:171-185 | An encoding's last 20 bytes are the SHA-1 of "changeit" in UTF-16, "Mighty Aphrodite" and all bytes before them |
| Keystore.FormatExactly | pkg/javakeystore/javakeystore.go:75-90 | A store is JKS if and only if it begins with FE ED FE ED, and PKCS#12 if and only if it does not but begins with a DER sequence's tag |
| Keystore.RoundTrip | pkg/javakeystore/javakeystore.go:101-174 | Every list that encodes: parsing its encoding gives the entries with their unique aliases, milliseconds, DER and order, zero times replaced by the time of encoding; it parses at all if and only if it is within the reader's limits |
| Keystore.RoundTripFields | pkg/javakeystore/javakeystore.go:101-174 | Field by field: the alias, the time to the millisecond or the time of encoding, and the certificate read back for each entry |
| Keystore.StreamsAreUnique | pkg/javakeystore/javakeystore.go:150-174 | Entry lists with the same entry stream are written as the same records |
| Keystore.ReencodesExactly | pkg/javakeystore/javakeystore.go:101-174 | An accepted file is re-encoded byte for byte if and only if it has version 2, type X.509 throughout, distinct non-empty aliases, no zero-time stamp other than the encoding time, nothing after the last entry and the right digest |
| CertSets.MissingCertsAreExact | internal/engine/processors/java/java.go:160-170 | Exactly one certificate of the input is added for each of its fingerprints not present, and nothing else |
| CertSets.MissingCertsInOrder | internal/engine/processors/java/java.go:160-170 | The certificates added are the first of their fingerprints, in the order they stand in |
| CertSets.NothingMissing | internal/engine/processors/java/java.go:171-173 | Nothing is added if and only if every fingerprint is present |
| StoreMerge.MergeConserves | internal/engine/processors/java/java.go:145-180 | The rewritten store reads back with every earlier entry in order (aliases too, if they were distinct and non-empty) and one entry per missing fingerprint, stamped with the time of encoding and named "cainjekt-" and the fingerprint's first 16 characters, unless an earlier entry has that name; a store that lacks a certificate is rewritten if and only if the longer list encodes, and merging again reports nothing to do if and only if the result is within the codec's limits |
| StoreMerge.Pkcs12Conserves | internal/engine/processors/java/java.go:145-180 | With any PKCS#12 codec that keeps the certificates in order: rewritten if and only if the longer list encodes, every earlier and every missing certificate is there in order, and merging again reports nothing to do |
| StoreMerge.MergeFailsExactly | internal/engine/processors/java/java.go:150-179 | A merge fails exactly with the unknown format, the parser's error, or the encoder's error when something is missing |
| StoreMerge.UnchangedMeansTrusts | internal/engine/processors/java/java.go:155-173 | A merge reports nothing to do if and only if the store parses and holds every fingerprint |
| StoreMerge.RewriteConserves | internal/engine/processors/java/java.go:168-179 | Encoding the longer list keeps certificates, order, milliseconds and distinct aliases of all earlier entries |
| StoreMerge.MergedWithinLimits | internal/engine/processors/java/java.go:160-179 | Certificates within the size limit, and a total within 65536 entries, put the merged store within the limits |
| StoreMerge.CollectPresent | internal/engine/processors/java/java.go:155-158 | The set of all fingerprints in the store |
| StoreMerge.AddMissing | internal/engine/processors/java/java.go:160-170 | Appends one entry for each missing certificate, in order, and counts them |
| StoreMerge.MergeBytes | internal/engine/processors/java/java.go:150-179 | The method's outcome on a store's bytes, error cases included, is the specified merge |
| JavaStores.DiscoverTrustStores | internal/engine/processors/java/discover.go:74-87 | Each regular file some candidate resolves to appears exactly once, in order of first discovery, and nothing else appears |
| JavaStores.DiscoveredAreDistinct | internal/engine/processors/java/discover.go:59-88 | Discovered stores are link-free regular files at pairwise different places when no resolved name ends in white space |
| JavaStores.PatchStore | internal/engine/processors/java/java.go:80-99 | One round ends as the store's merge and the success of its write decide, and changes this store's file only if it is written |
| JavaStores.Apply | internal/engine/processors/java/java.go:65-116 | Each store ends with its own merge exactly when it lacks a certificate, merges and its write succeeds, whatever happens to the others, and no other node changes; the run counts as patched exactly when some store trusts the organisation; otherwise the first merge that could not be written is staged, or none could be merged |
| JavaStores.PatchedTrusts | internal/engine/processors/java/java.go:86-104 | After the rounds, a JKS store within the codec's limits that was patched trusts every organisation certificate when read back, and so does the data staged for one that could not be written |
| JavaStores.RoundsExactly | internal/engine/processors/java/java.go:80-104 | After a run each store's file is the merge of its own earlier bytes if they could be read, lacked a certificate, merged and could be written, and is as it was otherwise; it counts as patched if and only if it was written or trusted the organisation already |
| JavaStores.RoundsApart | internal/engine/processors/java/java.go:80-99 | How a store's round ends does not depend on the rounds before it |
| CaKeys.KeysAreCleanNames | internal/nri/dynamic_ca.go:62-85 | A key is a single clean name for every container id, and an id is its own key if and only if it is clean |
| CaKeys.OwnKeysExactly | internal/nri/dynamic_ca.go:62-85 | By literal characters: an id is its own key if and only if it is made of letters, digits, dots, underscores and dashes and begins and ends in a letter or digit; hexadecimal ids are |
| CaKeys.KeysCanCollide | internal/nri/dynamic_ca.go:78-85 | Distinct ids that are not clean can share a directory |
| Handlers.Plugin.StageFile | internal/nri/plugin.go:277-284 | A failed staging leaves no directory for the key |
| Handlers.Plugin.Track | internal/nri/plugin.go:286-291 | The key is tracked and the active gauge goes up |
| Handlers.Plugin.RemoveContainer | internal/nri/plugin.go:348-385 | Both sets lose the key, each gauge drops only if its set held it, and the directory goes unless the opt-in was withdrawn or removal fails |
| Handlers.Plugin.Synchronize | internal/nri/plugin.go:464-487 | Reported containers with a staged directory join the tracked set, which is never cleared; the gauge is their number in the report |
| Handlers.Plugin.CommitMissed | internal/nri/plugin.go:544-550 | The collected keys replace the missed set and its gauge |
| Handlers.OrphanCleaner.Sweep | internal/nri/cleanup.go:45-80 | Whatever the order of entries, exactly the untracked directories of age ten minutes or more that can be removed are gone, and the count is their number |
| Lifecycle.NoSweepRemovesLive | internal/nri/cleanup.go:54-75 | Over all runs with restarts and reconnects, every live injected container and every one being created has its directory, and the next sweep of a synchronised process leaves it |
| Lifecycle.SweepRemovesLiveExactly | internal/nri/cleanup.go:54-75 | In any reached state a sweep would remove a live injected container's directory if and only if the process has not synchronised and the directory is ten minutes old |
| Lifecycle.UnsynchronisedSweepRemovesLive | internal/nri/plugin.go:443-453 | A run in which that happens: a restart, ten minutes, a sweep before synchronisation |
| Lifecycle.GaugesCount | internal/nri/plugin.go:476-550 | At every point of every run the active gauge is the number of tracked keys less those the last reconciliation did not count, none of which is live, hence never negative; the missed gauge is the size of the missed set, also with removals between a scan's start and commit |
| Lifecycle.SweepClearsRemoved | internal/nri/cleanup.go:54-79 | With no hypothesis on timing or synchronisation: a sweep ten minutes or more after a container's removal event gets rid of its directory if it can be removed, opt-in withdrawn or not |
| Lifecycle.GoneStaysGone | internal/nri/plugin.go:348-385 | Such a directory never comes back |
| Lifecycle.RemovalTakesDirectory | internal/nri/plugin.go:372-385 | An ordinary removal event takes its container's directory at once and for good, and no other |
| Lifecycle.RemovalClearsSets | internal/nri/plugin.go:348-371 | A removal event takes the container out of the tracked and the missed set, and both gauges follow |
| Lifecycle.RemovedIsGoneInTime | internal/nri/cleanup.go:31-80 | With five-minute sweeps from each process's start: no directory outlives the removal event by fifteen minutes under a process started less than ten minutes after the event, and under a later one it is gone five minutes after the start |
| Lifecycle.FifteenMinutesAreMet | internal/nri/cleanup.go:31-42 | The fifteen-minute bound is met: a run with sweeps on the tick that still has the directory a millisecond before it |
| Lifecycle.RestartProlongsLeak | internal/nri/cleanup.go:31-42 | The other bound too: for every restart from ten minutes after the removal up to the sweep due then, a run keeps the directory for the five minutes after the restart |
| Lifecycle.VanishedKeepsDirectory | internal/nri/plugin.go:464-482 | A tracked key without a container keeps its directory through every sweep until the process exits |
| Lifecycle.VanishedGoesAfterExit | internal/nri/cleanup.go:54-79 | Once that process has exited, whatever restarts and synchronisations follow, any sweep ten minutes after the directory's last change that can remove it does |
| Lifecycle.VanishingLeaks | internal/nri/plugin.go:464-482 | This is what becomes of an injected container that vanishes during an in-process disconnect |
| Lifecycle.StaleCommitExactly | internal/nri/plugin.go:535-550 | Over every run: after a scan's commit a missed key is one of a removed container if and only if the scan collected it and its removal event lies between the synchronisation that began the scan and the commit |
| Lifecycle.ScanOf | internal/nri/plugin.go:535-550 | A scan's containers are those live at the synchronisation that began it: each has been removed since if and only if its removal event comes after that |
| Lifecycle.StaleCommitOccurs | internal/nri/plugin.go:535-550 | A run with such a commit: no container is left, and the missed gauge reads one |
| Lifecycle.StaleMissedStays | internal/nri/plugin.go:359-371 | Such a key stays in the set, and the gauge above zero, until the next commit or exit |
| Lifecycle.StepKeepsInv | internal/nri/plugin.go:206-555 | Every event of the plugin, the runtime, the sweep, the clock and process exits and starts keeps the invariant on keys, gauges and leaks |
| Steps.Perform | internal/nri/plugin.go:206-555 | The handler that runs on an event, or the sweep, leaves sets, gauges and directories as the step machine says |
| Steps.PerformAll | internal/nri/plugin.go:206-555 | So do the handlers over any run, process exits included: the theorems on runs hold of the code |
| Lifecycle.RunKeepsInv | internal/nri/plugin.go:206-555 | The invariant at the end of every run |
| Lifecycle.SynchronizeCounts | internal/nri/plugin.go:464-482 | For distinct reported keys reconciliation tracks and counts exactly the live containers that have a directory |
| Lifecycle.SynchronizeKeeps | internal/nri/plugin.go:464-482 | Reconciliation keeps the invariant although tracked keys of containers gone during a disconnect stay tracked |
| Lifecycle.SweepKeeps | internal/nri/cleanup.go:45-80 | A sweep of a synchronised process keeps the invariant |
| Lifecycle.RemoveKeeps | internal/nri/plugin.go:348-385 | A removal event keeps the invariant whether or not the directory is kept |
| Reconnect.RunNRI | internal/nri/plugin.go:399-424 | The loop's outcome for every sequence of attempts is the round-by-round specification |
| Reconnect.WaitsFollowSchedule | internal/nri/plugin.go:399-424 | For every sequence of attempts the loop survives: the waits kept are one per attempt since the last that synchronised (or since the first), the k-th, k from 0, being the smaller of 100 ms times 2 to the k and 2 s, and the next attempt begins when the last of them is over |
| Reconnect.GivesUpExactly | internal/nri/plugin.go:399-424 | The loop gives up at the end of an attempt if and only if it comes that far uncancelled and more than two minutes have gone by since the end of the last attempt that synchronised, or of the first if none did; and it reports that moment |
| Reconnect.NeverGivesUpEarly | internal/nri/plugin.go:399-424 | It gives up at the end of an attempt that lies more than two minutes after the end of the first attempt and of every attempt that synchronised |
| Reconnect.AfterReadyConnection | internal/nri/plugin.go:399-424 | From any state on schedule, an attempt that synchronised and any failures after it: the waits are one per failure from 100 ms on, giving up comes more than two minutes after the end of that attempt, and 64 failures more are not survived |
| Reconnect.GivesUpBy65th | internal/nri/plugin.go:399-424 | With n waits behind it, the loop gives up within 65 - n more failures |
| Reconnect.Survives64 | internal/nri/plugin.go:399-424 | Failures that come at once are survived as long as there are at most 64 |
| Reconnect.GivesUpAtThe65th | internal/nri/plugin.go:399-424 | From the start: always by the 65th consecutive failure, and not before it when failures come at once |
| Reconnect.ExitsBeforeFirstSweep | internal/nri/plugin.go:392-424 | A process whose attempts all fail within 89 s exits before the first sweep, five minutes in |
| Reconnect.UnreadyIsShort | internal/nri/plugin.go:392-424 | A process whose attempts end within d below 89 s, none of them synchronised, and which has not given up has run less than five minutes even when one more attempt is under way |
| Startup.JointRunIsRun | internal/nri/plugin.go:392-424 | In such a run every process has synchronised before its first sweep, so all theorems on runs with timely handlers apply to it |
| Startup.NoSweepRemovesLiveFromStart | internal/nri/cleanup.go:31-75 | Connect loop and ticker joined: if every attempt synchronises or fails within 89 s, no sweep of any process in any run removes the directory of a live injected container or of one being created; no hypothesis on synchronisation is left |
| NsLookup.LookupWithinBudget | internal/nri/namespace.go:186-216 | However attempts fail, a lookup returns by the caller's deadline and within 1200 ms plus one timer's lag, after at most ten attempts |
| NsLookup.LookupAnswers | internal/nri/namespace.go:186-216 | Told from the attempts alone: labels are answered if and only if some attempt that is made brings them within 300 ms and the caller's deadline, and then those; a 401 if and only if some attempt made is refused so; an attempt is made if and only if each before it failed otherwise and left room for it; and else the answer is the last attempt's error, or the context's |
| NsLookup.TenAttemptsAreMade | internal/nri/namespace.go:186-216 | The bound of ten attempts is reached |
| NsLookup.NsLabelCache.FetchLabelsWithRetry | internal/nri/namespace.go:186-216 | The loop without an attempt bound terminates and computes the specified lookup |
| NsLookup.NsLabelCache.GetCachedLabels | internal/nri/namespace.go:218-226 | A hit exactly for an entry no older than the TTL |
| NsLookup.NsLabelCache.GetLabel | internal/nri/namespace.go:156-181 | The label's value if the key is among the labels cached for at most a minute or else looked up, none if it is not, and an error if the lookup fails; only a successful lookup changes the cache |
| LabelCache.RepliesAgreeWithServer | internal/nri/namespace.go:156-226 | In every interleaving an answer returned without error was the server's for that namespace at a moment no older than the TTL plus the attempt timeout plus the delay of the store; so was every cached entry when stored |
| LabelCache.StoredAnswers | internal/nri/namespace.go:156-226 | Labels stored at some time answer every question for the namespace until a minute later, whatever other lookups do, fail or retry in between, and none after it |
| LabelCache.StalestReply | internal/nri/namespace.go:156-226 | The bound is met by a concrete run |
| LabelCache.StepKeepsInv | internal/nri/namespace.go:156-226 | Every step of every concurrent lookup keeps the agreement |
| LabelCache.StepEffects | internal/nri/namespace.go:156-226 | Only a successful lookup stores, and only hits and stores answer |
| Pem.TryBlockExtends | pkg/certs/merge.go:73-87 | Lines added after a bundle's lines neither complete nor disturb a block begun in them, unterminated BEGIN lines included |
| Pem.BeginTagExactly | pkg/certs/merge.go:73-87 | A line begins a block of a type if and only if it is the BEGIN text, the type and five dashes, with blanks behind at most |
| Pem.EndsBlockExactly | pkg/certs/merge.go:73-87 | And ends one if and only if it is the END text, the type and five dashes, with blanks behind at most |
| Pem.TryBlockExactly | pkg/certs/merge.go:73-87 | What a block is, line by line: leading lines with a colon are its headers, the first line after them that starts like an END line must end it, directly only without headers, and the lines between must decode |
| Pem.BlocksConcat | pkg/certs/merge.go:73-87 | The blocks of lines followed by such lines are their own blocks and then those of the others |
| Pem.LastCRUndoes | pkg/certs/merge.go:73-87 | A carriage return at the end of a text, with no newline after it, undoes exactly the block, of whatever type, whose END line it follows |
| Pem.BlockLinesRead | pkg/certs/merge.go:40 | An encoded certificate is read back as exactly one block with its data |
| Bundle.AppendBlockAdds | pkg/certs/merge.go:49-55 | Appending an encoded certificate adds exactly that block to the blocks, of every type, the text has once a newline ends it |
| Bundle.TrailingNewlines | pkg/certs/merge.go:48-52 | Trimming the newlines of a text and supplying one gives the blocks it had, of every type, and the one a final carriage return had undone |
| Bundle.NewlineFinishes | pkg/certs/merge.go:50-52 | A newline at the end of a text adds no block but that one |
| Bundle.MergeAppendsMissing | pkg/certs/merge.go:19-57 | The merge fails if and only if a block of the addition is no certificate; otherwise the merged text's blocks are the old ones, the one a final carriage return had undone, and one per missing fingerprint; it holds all old and all new certificates; merging again returns it unchanged |
| Bundle.MergeKeepsText | pkg/certs/merge.go:43-57 | A merge that adds something leaves the text as it was, byte for byte, up to the newlines at its end, then puts one newline and the encoded certificates with an empty line between any two; so the blocks of every type are the old ones in order, the one a final carriage return had undone, and the added certificates; one that adds nothing leaves the text alone |
| Bundle.HashesExactly | pkg/certs/merge.go:20-27 | A fingerprint is in a text if and only if some certificate block of it parses and has it |
| Bundle.MergeIsOldAndMissingExactly | pkg/certs/merge.go:19-57 | The merged blocks are the old and the missing ones if and only if nothing is missing or the text does not end in a carriage return behind the END line of a certificate |
| Bundle.LoneCarriageReturn | pkg/certs/merge.go:48-55 | One encoded certificate and a carriage return: no block before the merge of another certificate, both after it |
| Bundle.ParseCertPEMBlocks | pkg/certs/merge.go:73-87 | The decoding loop finds the certificate blocks of the text, in order |
| Bundle.CollectHashes | pkg/certs/merge.go:20-27 | The fingerprints of the blocks that are certificates |
| Bundle.CollectAdditions | pkg/certs/merge.go:29-41 | The certificates to add, or failure exactly when some block of the addition is no certificate |
| Bundle.MergePEM | pkg/certs/merge.go:19-57 | The method computes the specified merge on every pair of texts |
| OrderlyBundle.MergedIsOrderly | pkg/certs/merge.go:19-57 | Text in which BEGIN and END marks stand only at the start of whole lines stays so under a merge |
| OrderlyBundle.MergesForAnyDecoder | pkg/certs/merge.go:19-57 | For every decoder that reads such text as the model does, whatever it makes of other text: on such bundles the merge is the model's, the decoder finds the old blocks and one per missing fingerprint in the result, and merging with it again changes nothing |
| OsStore.FirstRegularIsFirst | internal/engine/processors/osstore/osstore.go:224-229 | The candidate chosen is a regular file and none before it is |
| OsStore.DetectTrustStorePath | internal/engine/processors/osstore/osstore.go:224-234 | The resolved path of the first regular candidate, else of the first candidate, else an error |
| OsStore.GrowthKeepsPath | internal/util/containerfs/containerfs.go:93-131 | Writing files and making directories leads no query elsewhere: it resolves as before or meets a file where a directory is needed |
| OsStore.StoreTextExactly | internal/engine/processors/osstore/osstore.go:176-179 | A merge has something to start from if and only if the store is absent or a regular file of at most 16 MiB: nothing, or its content |
| OsStore.WroteGrows | internal/util/containerfs/containerfs.go:179-196 | A successful write adds no link, keeps every other node, and puts the file in place unless its name is a temporary one |
| OsStore.StoreAfterRun | internal/engine/processors/osstore/osstore.go:176-201 | After a successful run the store holds the merged text, or the organisation's bundle alone if the anchor file is the store itself; every query that led to the store still does |
| OsStore.StoreHoldsBundle | internal/engine/processors/osstore/osstore.go:176-211 | With a bundle of at least one certificate and the anchor file elsewhere, the store holds all old blocks, the one a final carriage return had undone, one per missing fingerprint, and all organisation certificates, and apart from newlines at its end all its old text |
| OsStore.SecondFileHoldsBundle | internal/engine/processors/osstore/osstore.go:186-197 | After a run that added something, Alpine's second file holds the merged text too, unless the anchor file took its place |
| OsStore.OldSurviveExactly | internal/engine/processors/osstore/osstore.go:176-201 | Every fingerprint the store held is still held after a run if and only if the anchor file is not the store or the organisation's bundle has them all |
| OsRuns.RunOnEmptyRootfs | internal/engine/processors/osstore/osstore.go:36-46 | The Debian processor on an empty rootfs creates store and anchor file, so the hypotheses of the theorems on runs can be met |
| OsRuns.LinkedAnchorLosesCertificates | internal/engine/processors/osstore/osstore.go:186-201 | The Debian processor's run on a rootfs whose anchor file is a link to the store: the store ends as the organisation's bundle, and any other certificate is gone |
| OsStore.SameShapeResolves | internal/util/containerfs/containerfs.go:93-131 | Replacing the contents of regular files changes no resolution |
| OsStore.DetectsAgain | internal/engine/processors/osstore/osstore.go:224-234 | A second detection chooses the same store |
| OsStore.SecondRunKeepsStore | internal/engine/processors/osstore/osstore.go:140-212 | A second run with fresh facts that succeeds finds the same store, leaves it byte for byte, and writes nothing but the anchor file |
| OsStore.AnySecondRunKeepsStore | internal/engine/processors/osstore/osstore.go:140-212 | Whatever becomes of a second run, also when it cannot read the store or a write fails: the store is where it was, byte for byte as the first run left it |
| OsStore.KnownProcessorsHaveOneStore | internal/engine/processors/osstore/osstore.go:36-110 | All six processors meet the hypothesis of the second-run theorem on candidates and extra files |
| OsApply.MergedFactHolds | internal/engine/processors/osstore/osstore.go:204-207 | After a successful run on a writable rootfs the path in the merged-path fact leads to a file with every organisation certificate, and with every fingerprint the store held if and only if the anchor file is not the store or the bundle has them all; elsewhere all blocks of every type are kept |
| OsApply.AnchorFactHolds | internal/engine/processors/osstore/osstore.go:200-211 | The path in the individual-path fact leads to a file that is the organisation's bundle |
| OsApply.StagedFactHolds | internal/engine/processors/osstore/osstore.go:158-173 | After one on a read-only rootfs the merged-path fact is where the bundle was staged, and that bundle has every certificate of the organisation and of the store and all its blocks; without a store nothing is staged |
| OsApply.StagingWorksExactly | internal/engine/processors/osstore/osstore.go:156-174 | A run on a read-only rootfs with a store detected succeeds if and only if there is no bundle file of its own, or the store is absent, or it is a regular file of at most 16 MiB, every certificate of the organisation parses, the file's path is not blank and staging works |
| OsApply.ConfiguredExactly | internal/engine/processors/osstore/osstore.go:215-221 | A trust store counts as configured if and only if its fact has a character that is no white space |
| OsApply.Context.StageMergedCA | internal/engine/processors/osstore/osstore.go:299-312 | The merged bundle is staged on the host, nothing is staged without a store, and the errors are those of reading, merging and staging |
| OsApply.WriteAll | internal/engine/processors/osstore/osstore.go:186-201 | The writes of a run succeed exactly when each works in the tree it finds, and leave the trees the run relation describes; when one fails every node is still as it was, but for files that hold the merged text by then |
| OsApply.Context.Apply | internal/engine/processors/osstore/osstore.go:140-212 | Succeeds exactly when already configured, or the bundle is readable, a store detected, and either the merge can be staged or the store can be read, merged and all files written; the facts then lead to files as stated above, and a later Apply does nothing; nothing happens when configured; a store that is there but no regular file, or too large, is an error with nothing written; a read-only rootfs is never written; links are never replaced; on a writable rootfs an error leaves the facts alone and every node but for files that hold the merged text by then, and no file at all changes if the merge adds nothing |

## Left out

- X.509 parsing is a predicate on DER bytes, SHA-1 and SHA-256 are arbitrary functions to digests, and base64 is any codec whose decoding undoes its encoding and rejects dashes, and whose encoded lines hold no line break, colon or dash; claims about de-duplication are about fingerprints.
- PKCS#12 encoding and decoding are done by a library; they are parameters, so the round trips are stated for JKS only, and conservation for PKCS#12 under the hypothesis that the codec keeps the certificates in order.
- Paths are sequences of characters: bytes that are not UTF-8, NUL, names too long, permission and I/O errors of lstat and readlink, and file modes, owners and devices are not modelled.
- Rootfs.Rootfs.AtomicWrite: models the options its callers in the hook use (RefuseSymlink and PreserveOwner); the mode and owner of the new file are not part of the tree.
- Rootfs.Rootfs.WriteSteps: the deferred removal of the temporary name always succeeds; where it fails a temporary file stays behind a failed write.
- Rootfs.Rootfs.WriteFile: a write to the root itself fails, as in the code, but the temporary file beside the mount point is not represented; nothing else writes to the tree during an operation.
- InRootWalk.ResolveIsInRootWalk: the reference resolver, like the lexical one, ignores "." components and trailing slashes, so the kernel's demand that such a path be a directory is not compared.
- FileWrites.CrashAtomicExactly: directory updates reach the disk in order and rename is atomic; file systems without these properties are not covered.
- Keystore.RoundTrip: for lists and certificates whose sizes fit the 32-bit length fields; beyond them the encoder writes truncated lengths.
- Keystore.EncodeJks times are 64-bit milliseconds, and the clock is one reading per entry position.
- The error check after the header in the JKS parser can never fire, since the minimum length covers the header; the model asserts so instead of branching.
- Candidate paths of the Java discovery (globs, java homes, environment) and the parsed organisation certificates are inputs.
- JavaStores.Apply: discovered stores are regular files at different places when the run starts; staging a pending store on the host is the return value; the facts it sets and the wrapper's JVM flags are not modelled.
- JavaStores.DiscoveredAreDistinct: needs resolved names that do not end in white space, since the discovered text is resolved again when the store is read.
- Handlers and the scan's commit are single steps; races finer than a handler on the missed set and its gauge are not modelled, nor is a sweep's interleaving with a handler. A scan's choice of keys is any subset of the containers it was given.
- Lifecycle.NoSweepRemovesLive: assumes that the runtime reports exactly the live containers, with distinct keys, that staging is followed by tracking within ten minutes, and that a process synchronises before its first sweep (which Startup proves for connection attempts that end within 89 s each); creations cut off by the process's exit may still come up, without the hook.
- Lifecycle.GaugesCount: assumes the same, fresh keys for created containers, and removal events only for live containers; containers without a usable id have no key and are not followed.
- The opt-in decision is a nondeterministic input of the lifecycle; hook verification, exclusion lists and suspicious keys are left out as easy members.
- StageFile internals (validation, directory creation) appear in the lifecycle only as success or failure with the directory removed again.
- Reconnect.RunNRI: each attempt's duration, timer lag, synchronisation and cancellation are inputs; the stub itself is not modelled.
- NsLookup.LookupWithinBudget: the lag with which the wait's timer fires adds to the bound, and cancellation by the caller other than by its deadline is not modelled.
- LabelCache.RepliesAgreeWithServer: the time between an answer's arrival and its storage adds to the age bound, because the code stamps an entry when it stores it; the service account token is not modelled.
- Pem.Blocks: header lines are recognised by their colon and their contents are ignored, and base64 decides on whole lines. How releases of the decoder go on after text that is malformed in other ways, such as BEGIN text in the middle of a header line, differs, and the model follows the plain reading: the first END line after the headers decides. What holds for every release, given that they agree on text whose marks stand in order, is in OrderlyBundle.
- OsStore.StoreHoldsBundle: assumes that the store's name does not begin as a temporary one (`.cainjekt-`); the clean-up of the temporary name could remove it otherwise.
- OsStore.SecondRunKeepsStore: like OsStore.AnySecondRunKeepsStore, assumes the store's text names itself (its last name does not end in white space) and that its name does not begin as a temporary one; the first run is a successful one.
- OsApply.Context.Apply: the facts' paths are followed in the final tree under the conditions that the names they end in are not temporary ones and, for the anchor file, do not end in white space; whether the rootfs is writable, the organisation's bundle and the staging directory are inputs; the probe file leaves no trace. Processor detection by os-release is left out.
- HTTP, TLS, token files, JSON, flags, logging, metrics registration, NRI library types, Helm charts and the other language processors are left out.
