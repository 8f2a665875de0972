# Clew verification

A Dafny model of six stateful parts of Clew, with proofs of what they promise. `dafny verify dfyconfig.toml`
checks the whole project. SHA-256, JSON, ZIP, image rendering, clocks and sockets appear as parameters.

- **TCP forward service** (`Forward*.dfy`). A host keeps a table of forwarded connections that concurrent `Open`,
  `Exchange` and `Close` requests share. Each request is a task with a program counter; whatever the code does between
  two points where another task may run is one event. `Forward.Step` gives the meaning of an event, and the methods of
  the class `HostTcpForwardService` carry each event out on the object's own fields. The object records the run it has
  made, so the theorems hold of it. They are about every interleaving: permits are conserved, the service refines a
  table in which each request takes effect at one moment while it is under way, sockets are bounded, every reply has
  its one reason, nothing is done without the grant, no request is stuck, and each stream gets the payloads of its
  writers in lock order. A request that loses the insert race holds its permit for one more event: the code drops the
  unused entry only after its reply is made.
- **Site Kit archives** (`Tar*.dfy`, `SiteKitStem.dfy`, following the "ustar Interchange Format" of the `pax` utility
  in IEEE Std 1003.1-2017) and **icon containers** (`Icons.dfy`). Headers are built in place in a 512-byte array, and
  readers that walk the result recover exactly what was written. The exact condition for a tar round trip rules out
  one case besides NUL bytes: a path of exactly 101 bytes whose only slash is its first byte loses that slash. Site
  Kits never come near it: the stem that is made from a site label is not empty and has neither a slash nor a NUL, so
  every kit reads back.
- **ClientFlavor artifact store** (`Release*.dfy`, `Artifact*.dfy`). A cache of immutable release entries with
  staging, verification, publication by rename and one active pointer per flavor. Every filesystem call may fail,
  reads included, and the process may stop after any of them: the class keeps what was published at each moment, in
  order; all of it is proved sound, and no entry ever changes. The call `list` fails as soon as a staging directory is
  left among the entries; that happens after one failing copy already, and never when nothing fails. The laws say
  exactly when it succeeds.
- **Device names** (`Device.dfy`, `Tags.dfy`, `Naming*.dfy`, `Selection.dfy`). The hostname collision policy works in
  place on an array of records; it is proved equal to a function whose stability, independence of order, and
  distinctness of tagged names are theorems, down to the selector that finds a device by its qualified name.
- **Acceptance state** (`Acceptance*.dfy`). The Windows launcher's migration of a legacy state directory: copy,
  verify, swap, roll back. Every call may fail, and so may every reading of a state. The filesystem object records the
  disk after every call, and also torn states in the middle of calls that are not atomic; safety holds in all of them,
  and a later launch converges.
- **Controller catalog** (`Catalog.dfy`, `ControllerCatalog.dfy`) and **Linux service identity**
  (`ServiceCredential.dfy`, `ServiceAllocation.dfy`). The catalog is a state machine over its operations, with laws
  over all runs. Registering an identical device again clears its revocation, as the code does; the laws say exactly
  when that happens. The sysusers credential's printer and parser are a bijection, and the allocator returns the
  greatest free id.

What decides is said twice: once as the code decides, check by check, and once as conditions that do not name those
checks, with the lemma that the two agree; the conditions stand in `ForwardAnswers.dfy`, `ForwardProgress.dfy`,
`ReleaseLaws.dfy`, `ArtifactLaws.dfy`, `NamingNames.dfy` and beside the functions of the other files.

`Text.dfy` holds the parts of the string interface of Rust that the code relies on; `Wrappers.dfy` holds failure values,
and `Ordered.dfy` the order in which ordered maps and sets are gone through.

## Model

| member | source | states |
|---|---|---|
| ForwardRuns.RefinesAtomicTable | crates/clew-host/src/forward.rs:103-292 | Every interleaving refines an atomic table: applying the commits of the run so far, one request at a time, gives exactly the table of the service. |
| ForwardRuns.OneCommitPerRequest | crates/clew-host/src/forward.rs:103-292 | Each request commits at most once, and an answered request committed exactly once, with the answer it reports. |
| ForwardRuns.CommitsWhileUnderWay | crates/clew-host/src/forward.rs:71-292 | Each commit happens at an event of its own request, not before the request arrived and before it is answered or dropped. |
| ForwardRuns.CommitsInRealTime | crates/clew-host/src/forward.rs:71-292 | A request that was answered or dropped before another arrived commits before it: the refinement respects real time. |
| ForwardRuns.OpenedHadItsBinding | crates/clew-host/src/forward.rs:110-132 | An `Opened` reply always has a moment at which the id was bound to exactly the forward and destination asked for. |
| ForwardRuns.FailedOpenNeverTouchedTable | crates/clew-host/src/forward.rs:110-196 | An Open that in the end does not report `Opened`, on whatever exit, never changed the table at any of its steps. |
| ForwardRuns.BindingStable | crates/clew-host/src/forward.rs:174-196 | As long as an id stays in the table, its forward, destination and io object stay the same. |
| ForwardRuns.OnlyCloseUnbinds | crates/clew-host/src/forward.rs:273-291 | Between a moment when an id is bound and one when it is not, a Close of that id removed it. |
| ForwardRuns.CapacityConserved | crates/clew-host/src/forward.rs:25-44 | In every reachable state, free permits, Opens that hold one and table entries add up to the capacity; so the table never exceeds it. |
| ForwardRuns.SocketsBounded | crates/clew-host/src/forward.rs:143-292 | Sockets in use, of the table, of Exchanges in flight and of Opens with a permit, are at most the capacity plus the Exchanges whose connection was closed under them. |
| ForwardRuns.GoneStaysGone | crates/clew-host/src/forward.rs:174-292 | A stream that neither the table nor a request holds is never held again. |
| ForwardRuns.CapacityReplyMeansFull | crates/clew-host/src/forward.rs:133-141 | The capacity error is given only when entries and connecting Opens use the whole capacity. |
| ForwardRuns.StreamOnlyGrows | crates/clew-host/src/forward.rs:223-247 | What a stream was given only grows, and once its write side is closed nothing is added and no shutdown follows. |
| ForwardRuns.StreamsCarryWholePayloads | crates/clew-host/src/forward.rs:224-247 | A stream carries the payloads of its Exchanges concatenated in lock order, each whole unless its write broke off; no Exchange writes twice, and a stream is shut down at most once. |
| ForwardRuns.ExchangedWasDelivered | crates/clew-host/src/forward.rs:232-271 | An Exchange that reports success delivered its whole payload. |
| ForwardRuns.ReadFitsReply | crates/clew-host/src/forward.rs:248-271 | The bound on a reply is unreachable: whatever is read is returned as read, with the end flag exactly for no bytes. |
| ForwardAnswers.GrantDecides | crates/clew-host/src/forward.rs:71-87 | A request that is out of bounds, or arrives without the grant, is answered `InvalidRequest` or `Denied` at once and for ever, and does nothing; any other is never told `Denied`. |
| ForwardAnswers.DeniedHadNoGrant | crates/clew-host/src/forward.rs:82-87 | Who is told `Denied` arrived without the grant, within its bounds. |
| ForwardAnswers.OnlyGrantedAct | crates/clew-host/src/forward.rs:71-102 | Every event of a run but an arrival is of a request within its bounds that arrived with the grant. |
| ForwardAnswers.EntryWasGranted | crates/clew-host/src/forward.rs:71-196 | Every entry of the table was asked for by an Open that had the grant, with that forward and that destination: a port that is not 0 and a host of 1 to 255 printable characters. |
| ForwardAnswers.AnswersExactly | crates/clew-host/src/forward.rs:71-292 | A step gives a request a reply exactly when it is the one reason for that reply: a table from replies to what must have happened, with the outcome of the network, the state of the table, the permits and the stream. |
| ForwardAnswers.ReplyHasItsReason | crates/clew-host/src/forward.rs:71-292 | Every reply of a run has its reason, a step of its own request. |
| ForwardAnswers.ReasonHasItsReply | crates/clew-host/src/forward.rs:71-292 | Every reason has its reply, whatever comes after. |
| ForwardProgress.ShutdownWasAsked | crates/clew-host/src/forward.rs:239-247 | The write side of a stream is closed only by an Exchange that was asked to close it. |
| ForwardProgress.ExchangedUsedItsConnection | crates/clew-host/src/forward.rs:205-271 | A successful Exchange read from the io object that its id named when it looked it up, after closing the write side if it was asked to. |
| ForwardProgress.PossibleExactly | crates/clew-host/src/forward.rs:71-292 | In every reachable state exactly these events can happen: the code goes on where it stands, and the network may answer in any way. |
| ForwardProgress.NobodyIsStuck | crates/clew-host/src/forward.rs:143-292 | No deadlock: a request that has not ended can go on by itself, or waits for an io lock whose holder can. |
| ForwardProgress.FewEvents | crates/clew-host/src/forward.rs:71-292 | A request takes at most six events and one for each byte of its payload; so every request comes to an end. |
| ForwardInvariant.StepKeepsInv | crates/clew-host/src/forward.rs:71-293 | Every event keeps the invariant: permits, exclusive io locks, streams known to one entry, histories of the streams. |
| ForwardInvariant.PermitsKept | crates/clew-host/src/forward.rs:133-196 | Every event keeps the sum of free permits, permit holders and entries. |
| ForwardInvariant.StructureKept | crates/clew-host/src/forward.rs:103-292 | Every event keeps the structure of table, io objects and tasks. |
| ForwardRuns.ReachableInv | crates/clew-host/src/forward.rs:71-293 | The invariant holds in every reachable state. |
| ForwardService.HostTcpForwardService.Arrive | crates/clew-host/src/forward.rs:71-101 | A request is checked and admitted as the first event says; like every method of the class it adds just this event to the run that the object has made. |
| ForwardService.HostTcpForwardService.OpenCheck | crates/clew-host/src/forward.rs:110-132 | The first look at the table, on the fields of the object, is the Check event. |
| ForwardService.HostTcpForwardService.OpenAcquire | crates/clew-host/src/forward.rs:133-141 | Taking a permit is the Acquire event. |
| ForwardService.HostTcpForwardService.OpenConnect | crates/clew-host/src/forward.rs:143-173 | Connecting, or failing to, is the Connect event; a failure gives the permit back. |
| ForwardService.HostTcpForwardService.OpenInsert | crates/clew-host/src/forward.rs:174-196 | The second look and the insertion are the Insert event. |
| ForwardService.HostTcpForwardService.OpenYield | crates/clew-host/src/forward.rs:183-194 | An Open that lost the race gives its permit back: the Yield event. |
| ForwardService.HostTcpForwardService.ExchangeLookUp | crates/clew-host/src/forward.rs:205-222 | Finding the io object is the LookUp event. |
| ForwardService.HostTcpForwardService.ExchangeLock | crates/clew-host/src/forward.rs:223-231 | Taking the io lock is the Lock event. |
| ForwardService.HostTcpForwardService.ExchangeWrite | crates/clew-host/src/forward.rs:232-237 | Each accepted part of a payload is a Write event, and so is a failing write. |
| ForwardService.HostTcpForwardService.ExchangeHalfClose | crates/clew-host/src/forward.rs:239-247 | The shutdown of the write side is the HalfClose event. |
| ForwardService.HostTcpForwardService.ExchangeRead | crates/clew-host/src/forward.rs:248-271 | The bounded read and the reply are the Read event. |
| ForwardService.HostTcpForwardService.CloseRemove | crates/clew-host/src/forward.rs:273-291 | Removing the entry is the Remove event; it gives the permit back. |
| ForwardService.HostTcpForwardService.Cancel | crates/clew-host/src/forward.rs:143-273 | A request dropped while it waits gives back its permit or its io lock. |
| Tar.OctalWidth | xtask/src/main.rs:3425-3428 | The octal text of a number fits w digits exactly when the number is below 8^w. |
| Tar.OctalRoundTrip | xtask/src/main.rs:3425-3432 | A zero-padded octal field reads back as its number. |
| Tar.SplitExact | xtask/src/main.rs:3399-3411 | A path splits exactly when it is short enough or some slash gives fitting parts; prefix, slash and name make up the path. |
| Tar.ChecksumFits | xtask/src/main.rs:3384-3388 | The checksum of any header has at most six octal digits: the overflow error is unreachable. |
| Tar.PathSurvives | xtask/src/main.rs:3369-3383 | A path is recovered from its header exactly when it has no NUL and is not a slash followed by a hundred bytes without another. |
| Tar.HeaderReads | xtask/src/main.rs:3369-3389 | Every header is a valid, non-zero ustar header from which path, size and mode read back. |
| Tar.ReadsEntry | xtask/src/main.rs:3363-3397 | A block-by-block reader that meets an entry yields that entry and goes on behind its padding. |
| Tar.ReadsArchive | xtask/src/main.rs:3342-3358 | The reader recovers every entry of a stream, in order, and stops at the end mark. |
| Tar.RoundTripExact | xtask/src/main.rs:3334-3397 | Reading a written stream gives back the same paths, bytes and modes exactly when every path is NUL-free and none is a slash followed by a hundred bytes without another. |
| Tar.LeadingSlashIsLost | xtask/src/main.rs:3399-3411 | A slash and a hundred equal letters are written without an error and read back without the slash. |
| Tar.ArchiveShape | xtask/src/main.rs:3357 | The stream is a whole number of blocks and ends in two zero blocks. |
| Tar.SafePathExactly | xtask/src/main.rs:2654-2667 | A path is safe exactly when it is relative, has no backslash and no NUL, and nothing that stands between two slashes is empty or made of one or two dots only. |
| Tar.HeaderIsPlain | xtask/src/main.rs:3371-3382 | Owner, group and time read as zero, the entry is a regular file of magic "ustar" and version "00", and every byte that no field claims is NUL. |
| TarWriter.CopyTarField | xtask/src/main.rs:3413-3419 | Copying a value into a field fails exactly when it is too long, and changes those bytes only. |
| TarWriter.WriteTarOctal | xtask/src/main.rs:3421-3434 | Writing a number into a field of width n fails exactly when n is below 2 or the number is not below 8^(n-1), and otherwise leaves the padded octal text. |
| TarWriter.SplitUstarPath | xtask/src/main.rs:3399-3411 | The search from the last slash backwards computes the specified split. |
| TarWriter.BuildHeader | xtask/src/main.rs:3369-3389 | The 512 bytes, filled in place, are the specified header; it fails exactly for a mode or size that is too wide. |
| TarWriter.WriteTarEntry | xtask/src/main.rs:3363-3397 | Appends exactly the bytes of the entry, or nothing; it fails exactly when the path or a number does not fit. |
| TarWriter.WriteSiteKitTar | xtask/src/main.rs:3334-3361 | Succeeds exactly when every path is safe and everything fits; what is then in the stream reads back, below a plain stem, as each file with its path, bytes and mode, in order, and then the manifest with mode 0644. |
| TarWriter.KitWritableExactly | xtask/src/main.rs:3334-3356 | A kit can be written exactly when every path is safe and splits below the stem, every mode is below 2,097,152 and every size below 8 GiB. |
| TarWriter.SiteKitReadsBack | xtask/src/main.rs:3551-3584 | Every Site Kit that is written under a stem that is not empty and has no NUL reads back with each path below the stem, each file's own bytes and own mode, in order, and then the manifest. |
| SiteKitStem.StemIsPlain | xtask/src/main.rs:480-505 | The stem that an accepted label gives is not empty and has no separator and no NUL. |
| SiteKitStem.LabelledKitReadsBack | xtask/src/main.rs:411-414 | Every Site Kit that is written for a site label reads back so: each file with its path, bytes and mode, and then `site-kit-manifest.json` with mode 0644. |
| SiteKitStem.LabelExactly | xtask/src/main.rs:480-498 | A label is accepted exactly when it has 1 to 160 bytes, trimmed, and some usable character that is no blank, dot or hyphen; what is made of it has no unfit character and neither begins nor ends with such a mark. |
| Icons.IcoRoundTrip | build.rs:79-104 | Walking the directory of an ICO recovers the exact image list. |
| Icons.IcoRegionsContiguous | build.rs:80-100 | In the written file, each directory entry declares the length of its image and an offset at which the file holds that image; the declared regions follow each other without gap or overlap from the end of the directory to the end of the file. |
| Icons.BuildIco | build.rs:72-105 | Succeeds exactly when the file length fits 32 bits, and its result reads back as the seven images of 16 to 256 pixels. |
| Icons.IcoIsPlain | build.rs:79-92 | The file is of type 1, counts its images, and each entry has its size twice, 256 as 0, no palette, one plane and 32 bits a pixel. |
| Icons.IcnsRoundTrip | xtask/src/main.rs:2719-2727 | Walking the chunks of an ICNS recovers the exact chunk list and fills the declared length. |
| Icons.BuildIcns | xtask/src/main.rs:2699-2729 | Succeeds exactly when the total length fits 32 bits, and its result reads back as the seven chunks "icp4" to "ic10". |
| Release.CacheKeyBinds | crates/clew-distribution/src/lib.rs:195-244 | Equal cache keys mean equal identities, signer included, and for dirty builds equal payloads, unless digests collide. |
| Release.CacheKeyIsCacheKey | crates/clew-distribution/src/lib.rs:218-244 | Every cache key that is made has the form that is checked: the check after it cannot fail. |
| Release.DirtyKeyIsNotLegacy | crates/clew-distribution/src/lib.rs:222-244 | A dirty build never has a key of the legacy form, unless digests collide. |
| Release.ValidateFileList | crates/clew-distribution/src/lib.rs:476-486 | The loop with its previous path computes the specified verdict on the file list. |
| Release.ValidFilesAreSorted | crates/clew-distribution/src/lib.rs:476-486 | A file list is accepted exactly when every path and digest is good and the paths strictly increase. |
| Release.ShapeTells | crates/clew-distribution/src/lib.rs:364-489 | What an accepted shape guarantees: the dirty policy, readiness by platform, signing exactly when not unsigned and only with the evidence of its platform, a sorted list, a semantic key. |
| ReleaseLaws.RelativePathExactly | crates/clew-distribution/src/lib.rs:1032-1045 | A path is accepted exactly when it is relative, has no backslash and no NUL, and nothing between two slashes is empty or made of one or two dots only. |
| ReleaseLaws.ShapeExactly | crates/clew-distribution/src/lib.rs:364-489 | The shape of a release is accepted exactly when every condition holds, each written out: texts, flavor, dirty policy, launcher, key, signing with the evidence of its platform, readiness, and the file list. |
| ReleaseLaws.ErrorNamesFault | crates/clew-distribution/src/lib.rs:364-489 | A refused shape has the fault that its error names. |
| Release.StrictImpliesLenient | crates/clew-distribution/src/lib.rs:385-391 | Whatever the strict policy accepts the local acceptance policy accepts too, and it is not dirty. |
| ReleaseArchive.WriteReleaseArchive | crates/clew-distribution/src/lib.rs:1124-1158 | The archive that grows file by file is the specified one, or fails with the same error. |
| ReleaseArchive.WritesExactly | crates/clew-distribution/src/lib.rs:1124-1158 | An archive is written exactly when the directory matches the list, every path is listed once and none is the manifest name; then it holds exactly those files and the manifest. |
| ReleaseArchive.WrittenAsListed | crates/clew-distribution/src/lib.rs:1124-1158 | Each file of a written archive has its name below the stem, the bytes of the directory and the mode that is listed; the manifest comes last, with mode 0644. |
| ReleaseArchive.VerifyReleaseZip | crates/clew-distribution/src/lib.rs:491-533 | The verification loops compute the specified verdict. |
| ReleaseArchive.WrittenArchivePasses | crates/clew-distribution/src/lib.rs:491-568 | What is written passes verification exactly when files and manifest are within their size bounds. |
| ReleaseArchive.MatchingDirectoryPasses | crates/clew-distribution/src/lib.rs:476-568 | The archive of a matching directory with a strictly sorted list within the bounds, not claiming the manifest name, passes verification. |
| ReleaseArchive.PassedArchiveIsExact | crates/clew-distribution/src/lib.rs:491-533 | An archive that passes holds exactly the listed names and the manifest, each file with its size and digest. |
| ReleaseArchive.PassedArchiveHoldsListedBytes | crates/clew-distribution/src/lib.rs:518-524 | Unless digests collide, an archive that passes holds byte for byte what any matching directory holds. |
| ArtifactCache.CopyIsValid | crates/clew-distribution/src/lib.rs:839-871 | A faithful copy of an entry that passed the strict policy passes either policy, as the same entry and release. |
| ArtifactCache.ActiveNeverFails | crates/clew-distribution/src/lib.rs:817-831 | In a sound store the active entry of a flavor is found whenever there is a pointer, is of that flavor, and may be distributed. |
| ArtifactCache.SoundEntryTells | crates/clew-distribution/src/lib.rs:303-362 | Every entry validates under its own name and may be distributed; a dirty one is there only under the local acceptance policy, unsigned, 0.x and not release ready. |
| ArtifactCache.SoundEntryHoldsItsFiles | crates/clew-distribution/src/lib.rs:346-353 | The archive of every entry holds exactly the files of its manifest. |
| ArtifactLaws.ValidExactly | crates/clew-distribution/src/lib.rs:303-362 | A directory is valid, as an entry, exactly when its three files are there, within their bounds, with the sizes and digests they claim for each other, and say an acceptable release. |
| ArtifactLaws.PublishedIsAcceptable | crates/clew-distribution/src/lib.rs:303-489 | Every published entry of a sound store is such an entry: signed with the evidence of its platform and ready, or unsigned and ready or of a 0.x version. |
| ArtifactLaws.ActiveExactly | crates/clew-distribution/src/lib.rs:817-831 | In any store the active entry of a flavor is found exactly when its pointer reads as the key of a valid entry of that flavor. |
| ArtifactLaws.ImportedIsActive | crates/clew-distribution/src/lib.rs:641-666 | A cache entry that is imported is published from its three files and is the active one of its flavor; no other key and no other flavor is touched. |
| ArtifactLaws.ImportedReleaseIsActive | crates/clew-distribution/src/lib.rs:668-791 | The same for a release directory, whose manifest is the one that is published. |
| ArtifactLaws.FreshReleaseIsImportedExactly | crates/clew-distribution/src/lib.rs:668-791 | A release directory with a new key is imported exactly when its manifest is that of an acceptable unsigned release and it holds the files as listed, within the bounds: the staged entry never fails for a reason of its own. |
| ArtifactLaws.SourceKindDecides | crates/clew-distribution/src/lib.rs:627-639 | A source with a cache entry is imported as one, otherwise one with a release manifest as a release, and anything else is refused. |
| ArtifactCache.WithinIsSound | crates/clew-distribution/src/lib.rs:641-791 | At every moment of an import, the store is sound: the key as it was or complete, the pointer old, absent or new. |
| ArtifactImports.CacheReimportChangesNothing | crates/clew-distribution/src/lib.rs:641-666 | Importing the same cache entry again gives the same result and changes nothing. |
| ArtifactImports.ReleaseReimportChangesNothing | crates/clew-distribution/src/lib.rs:711-718 | Importing the same release directory again gives the same result and changes nothing. |
| ArtifactImports.ConflictIsRefused | crates/clew-distribution/src/lib.rs:652-656 | A source whose manifest or archive differs from what is published under its key is refused and the store unchanged, unless digests collide. |
| ArtifactImports.OtherPayloadIsRefused | crates/clew-distribution/src/lib.rs:711-716 | A release whose key is published with another payload is refused as a conflict and the store unchanged. |
| ArtifactImports.ReleaseImportPolicy | crates/clew-distribution/src/lib.rs:678-690 | A signed release directory is refused, and so is a dirty one outside a local acceptance store. |
| ArtifactImports.StagedIsValidExactly | crates/clew-distribution/src/lib.rs:727-781 | A staged release fails its verification only for the listed reasons: shape, file names, size bounds, architecture. |
| ArtifactImports.RequestedIsEligible | crates/clew-distribution/src/lib.rs:700-709 | What is published for a release request may be distributed and is of the request's flavor. |
| ArtifactStore.ClientFlavorArtifactStore.WriteActivePointer | crates/clew-distribution/src/lib.rs:876-897 | A reader sees the old pointer, none, or the new one; success means the new one. |
| ArtifactStore.ClientFlavorArtifactStore.StageCopy | crates/clew-distribution/src/lib.rs:839-871 | A staged copy is handed on only when it validates as the same entry and release. |
| ArtifactStore.ClientFlavorArtifactStore.PublishAndActivate | crates/clew-distribution/src/lib.rs:641-666 | Publication and activation stay within one change at every moment, sound throughout. |
| ArtifactStore.ClientFlavorArtifactStore.ImportCacheEntry | crates/clew-distribution/src/lib.rs:641-666 | Whatever fails, reads included, every moment is sound and within one change, and no other staging directory is touched; without a fault the result and the store are those of the specification and no staging directory is left; after a failing copy the error is reported and one is left. |
| ArtifactStore.ClientFlavorArtifactStore.StageRelease | crates/clew-distribution/src/lib.rs:727-788 | The staged release is handed on only when it validates with the payload of the request. |
| ArtifactStore.ClientFlavorArtifactStore.ImportReleaseDirectory | crates/clew-distribution/src/lib.rs:668-791 | The same for a release directory, except for the failing copy. |
| ArtifactStore.ClientFlavorArtifactStore.ImportRuntimeSource | crates/clew-distribution/src/lib.rs:627-639 | The same for either kind of source. |
| ArtifactStore.ClientFlavorArtifactStore.Active | crates/clew-distribution/src/lib.rs:817-831 | Finding the active entry of a flavor never fails without a fault. |
| ArtifactStore.RunImports | crates/clew-distribution/src/lib.rs:620-791 | Any sequence of imports, with any faults, from any moment at which an earlier run stopped: every moment is sound, and from any moment to any later one, inside imports too, no published entry changes; without a fault no staging directory is left. |
| ArtifactStore.ClientFlavorArtifactStore.List | crates/clew-distribution/src/lib.rs:793-815 | Unless a call fails, `list` succeeds exactly when no staging directory is left and there are at most 256 entries; then it gives every entry once, in ascending order, with whether it is active. |
| ArtifactStore.ImportThenList | crates/clew-distribution/src/lib.rs:620-815 | After any run of imports in which nothing fails, `list` succeeds exactly when there are at most 256 entries. |
| ArtifactStore.ListAfterFailedCopy | crates/clew-distribution/src/lib.rs:793-871 | After one import whose first file is not copied, every later `list` fails, whatever is imported in between. |
| Tags.DeriveTag | crates/clew-core/src/naming.rs:19-33 | The shifting loop computes the specified tag. |
| Tags.TagsAreNumbers | crates/clew-core/src/naming.rs:26-32 | A tag is the base-32 text of the upper 25 of the first 32 digest bits, and tag texts correspond one to one to such numbers. |
| Tags.DigestInputExactly | crates/clew-core/src/naming.rs:20-24 | What is hashed is the domain with its NUL, the sixteen bytes of the device and the generation, high byte first. |
| Tags.DigestInputIsInjective | crates/clew-core/src/naming.rs:20-24 | No two devices or generations hash the same text. |
| Tags.TagCharsExactly | crates/clew-core/src/naming.rs:10 | The alphabet is the digits and the capital letters but I, L, O and U. |
| Device.IdTextExactly | crates/clew-core/src/id.rs:17-60 | The text of an id, by which groups are ordered, is its sixteen bytes in lowercase hexadecimal, in order, with hyphens behind the fourth, sixth, eighth and tenth. |
| Tags.ParseTag | crates/clew-core/src/naming.rs:50-62 | Accepts exactly the five-character texts over the alphabet, unchanged; the error names the length, or the byte that begins the first invalid character. |
| Tags.ProbeExact | crates/clew-core/src/naming.rs:90-111 | Probing returns the least free generation within 1024 attempts, or reports overflow or exhaustion exactly when all generations it could reach are taken. |
| Tags.AllocateDeviceTag | crates/clew-core/src/naming.rs:90-111 | The probing loop computes the specified allocation. |
| NamingPolicy.ApplyHostnameCollisionPolicy | crates/clew-host/src/naming.rs:31-92 | The in-place algorithm gives exactly the records and error of the specification, and a settled result. |
| NamingPolicy.BuildGroups | crates/clew-host/src/naming.rs:34-42 | The groups are the members of each lowercased hostname, in list order. |
| NamingPolicy.NameGroup | crates/clew-host/src/naming.rs:44-90 | One group is named in place as specified; records outside it stay. |
| NamingTheorems.PolicyExact | crates/clew-host/src/naming.rs:44-91 | The result is determined group by group, renamed records stay, and the policy succeeds exactly when every group does. |
| NamingTheorems.PolicySettles | crates/clew-host/src/naming.rs:57-89 | After success every group of two or more, or with a tag, is tagged with distinct tags of its own ids and generations. |
| NamingTheorems.Stability | crates/clew-host/src/naming.rs:44-91 | After one success, running the policy on any part of the result, in any order, succeeds and changes nothing. |
| NamingTheorems.OrderIndependence | crates/clew-host/src/naming.rs:34-91 | With distinct ids, success and the resulting records do not depend on the order of the input. |
| NamingNames.PolicyNamesExactly | crates/clew-host/src/naming.rs:34-91 | After success each record is untouched, or is contested and named by hostname, hyphen and tag: its own tag if that is free after the competitors of lower ids, otherwise the least generation from its own on, within 1,024, whose tag is free. |
| NamingTheorems.TaggedNamesDistinct | crates/clew-host/src/naming.rs:57-89 | After success all tagged names are pairwise distinct, across all groups. |
| Selection.SelectedIsReady | crates/clew-core/src/selection.rs:5-51 | Whatever selector is given, a selected device is online and executable. |
| Selection.NoSelectorExactly | crates/clew-core/src/selection.rs:9-22 | Without a selector, or with a blank one, the only ready device is selected; if there are none or more, the answer says so and describes all of them in order. |
| Selection.IdSelectsExactly | crates/clew-core/src/selection.rs:24-36 | An id selects the first device that has it, if that is executable and online, and otherwise says what is missing. |
| Selection.QualifiedExactly | crates/clew-core/src/selection.rs:38-44 | Site, slash and name select the only ready device of that site and name, or tell that there is none, or all that there are. |
| Selection.BareNameExactly | crates/clew-core/src/selection.rs:46-50 | Any other text selects the only ready device of that name, or tells that there is none, or all that there are. |
| Selection.QualifiedSelects | crates/clew-core/src/selection.rs:38-44 | Site and name select exactly the one ready device that has them. |
| Selection.TaggedNameSelects | crates/clew-core/src/selection.rs:38-64 | After a policy run, site and tagged name select exactly that device when it is ready and no untagged record has its name. |
| Acceptance.CopySaysTheSame | src/bin/clew-role-launcher.rs:279-324 | A copy says exactly what its original says: none of the files a summary depends on is skipped. |
| Acceptance.CopySkipsExactly | src/bin/clew-role-launcher.rs:279-289 | Exactly the lock, the secret and the socket of the controller, and everything at or below the two derived folders, are skipped. |
| Acceptance.CopyHoldsExactly | src/bin/clew-role-launcher.rs:279-324 | A copy holds exactly the files and folders of the original that are none of those five names below `v1` and in none of them. |
| Acceptance.InspectExactly | src/bin/clew-role-launcher.rs:204-226 | A state says something exactly when identity file and a control slot are there and can be read, and then whose it is, how many devices it has, and its generation; it is an error exactly when one of them cannot be read. |
| AcceptanceMigration.CopyTree | src/bin/clew-role-launcher.rs:291-324 | When copying succeeds, the staging tree has gained exactly what should be copied; without a fault it fails exactly at a symbolic link; nothing else is ever touched. |
| AcceptanceMigration.CopyNode | src/bin/clew-role-launcher.rs:299-321 | The same for one entry: skipped, refused, ignored, copied, or created and entered. |
| AcceptanceMigration.CopyVisited | src/bin/clew-role-launcher.rs:291-324 | The entries of one folder, in any order: exact gain and exact failure condition. |
| AcceptanceLauncher.BestLegacy | src/bin/clew-role-launcher.rs:229-263 | The running best is a candidate; unless a reading fails it has the largest device count of all listed candidates and, among those of that count, the largest generation, and there is none exactly when no candidate is listed. |
| AcceptanceLauncher.Stage | src/bin/clew-role-launcher.rs:344-352 | Only the staging tree is touched, and success means a verified copy. |
| AcceptanceLauncher.Swap | src/bin/clew-role-launcher.rs:354-369 | At every step of the swap and its rollback the state is safe. |
| AcceptanceLauncher.Migrate | src/bin/clew-role-launcher.rs:338-375 | At every step, failed or stopped, the legacy tree is untouched, the old stable tree stands whole under one name, and the stable path is old, absent or a verified copy; success and failure are exact when nothing faults. |
| AcceptanceLauncher.Prepare | src/bin/clew-role-launcher.rs:377-398 | An enrolled stable state is used unchanged, a busy state is never renamed, and otherwise the best legacy state is migrated safely. |
| AcceptanceLauncher.CandidatesSurvive | src/bin/clew-role-launcher.rs:229-263 | The legacy candidates and what they say are the same in every safe state. |
| AcceptanceLauncher.RelaunchAfterStop | src/bin/clew-role-launcher.rs:338-398 | Convergence: after any stop, if the best candidates can be copied, an idle launch ends with a stable state whose device count no candidate exceeds, nor its generation at that count, and a further launch changes nothing. |
| Catalog.RunsStayValid | crates/clew-core/src/control.rs:121-206 | Along every run from empty, map keys equal record ids and `validate` passes: every device's site exists. |
| Catalog.SiteNamesNeverChange | crates/clew-core/src/control.rs:134-143 | A site, once there, stays, under its name. |
| Catalog.IdentityLastsUntilRemoval | crates/clew-core/src/control.rs:145-190 | A device that is not removed stays, and only its display name and name origin may change. |
| Catalog.RevocationLasts | crates/clew-core/src/control.rs:145-206 | A revoked device stays revoked unless it is registered again. |
| Catalog.RevocationIsClearedExactly | crates/clew-core/src/control.rs:149-160 | An operation clears a revocation exactly when it registers the identical device. |
| Catalog.SiteRevocationIsClearedExactly | crates/clew-core/src/control.rs:134-143 | An operation clears a site's revocation exactly when it upserts the site, valid, under its name, unrevoked. |
| Catalog.RevokeSiteRevokesExactly | crates/clew-core/src/control.rs:192-206 | Revoking a site revokes and returns exactly its devices, in ascending order, and changes nothing else. |
| Catalog.RevokeDeviceRevokesExactly | crates/clew-core/src/control.rs:179-186 | Revoking a device of the catalog revokes it and changes nothing else; an unknown one is reported. |
| Catalog.RemoveDeviceRemovesExactly | crates/clew-core/src/control.rs:188-190 | Removing a device returns what was there, after which it is gone and all else as it was. |
| Catalog.RegisterDeviceRegistersExactly | crates/clew-core/src/control.rs:145-162 | Registering succeeds exactly when the site is there and the id free or held by the identical record; then the device is there, unrevoked, with that record, and all else as it was. |
| Catalog.RenameDeviceRenamesExactly | crates/clew-core/src/control.rs:164-177 | Renaming gives the trimmed name and marks it as given by hand; revocation, identity and all else stay. |
| Catalog.UpsertSiteUpsertsExactly | crates/clew-core/src/control.rs:134-143 | Upserting succeeds exactly for a good name and policy that renames no site; then the site is there as given and all else as it was. |
| Catalog.ReadPolicyExactly | crates/clew-core/src/control.rs:64-87 | A read policy is good exactly with all of the filesystem or at most sixteen roots of 1 to 2,048 bytes, 1 to 49,152 result bytes and 1 to 30,000 ms; the first fault is reported. |
| Catalog.ThereByHistory | crates/clew-core/src/control.rs:121-206 | After any run a device is there exactly when some operation registered it and none removed it since. |
| Catalog.RevokedByHistory | crates/clew-core/src/control.rs:121-206 | After any run a device is revoked exactly when it or its site was revoked after it was registered last. |
| Catalog.RegisterAfterRename | crates/clew-core/src/control.rs:145-177 | After a rename, registering succeeds exactly with the renamed record; the original record is refused as a conflict. |
| Catalog.FailuresChangeNothing | crates/clew-core/src/control.rs:134-206 | An operation that fails leaves the catalog as it was. |
| ControllerCatalog.ControllerCatalog.Validate | crates/clew-core/src/control.rs:122-132 | Passes exactly on the catalogs that the laws call valid, and otherwise gives the error of the first fault: the least faulty site, or else the least device without its site. |
| ControllerCatalog.ControllerCatalog.UpsertSite | crates/clew-core/src/control.rs:134-143 | Updates the maps as the upsert step of the state machine. |
| ControllerCatalog.ControllerCatalog.RegisterDevice | crates/clew-core/src/control.rs:145-162 | Updates the maps as the register step. |
| ControllerCatalog.ControllerCatalog.RenameDevice | crates/clew-core/src/control.rs:164-177 | Updates the record as the rename step and returns it. |
| ControllerCatalog.ControllerCatalog.RevokeDevice | crates/clew-core/src/control.rs:179-186 | Updates the record as the revoke step. |
| ControllerCatalog.ControllerCatalog.RemoveDevice | crates/clew-core/src/control.rs:188-190 | Removes and returns the record as the remove step. |
| ControllerCatalog.ControllerCatalog.RevokeSite | crates/clew-core/src/control.rs:192-206 | The loop over the devices in order is the revoke-site step, with its list. |
| ServiceCredential.ParseIsInverse | src/service/linux_system.rs:434-470 | A text is accepted as an identity exactly when the identity is valid and the text is its rendering. |
| ServiceCredential.RenderIsInjective | src/service/linux_system.rs:427-432 | Two valid identities with one rendering are the same. |
| ServiceCredential.LinesOfRendering | src/service/linux_system.rs:434-455 | A rendering has exactly the three lines that the parser looks for. |
| ServiceCredential.UserLineReadsBack | src/service/linux_system.rs:446-466 | The user line of a valid identity reads back as it. |
| ServiceCredential.RenderingSays | src/service/linux_system.rs:427-432 | A rendering is these three lines, word for word, with the group id in the second and both ids in the third. |
| ServiceAllocation.OptionsAre | src/service/linux_system.rs:564-594 | The four options that count, and the range 1 to 999 when none is set. |
| ServiceAllocation.SystemIdRange | src/service/linux_system.rs:564-603 | The four options, updated line by line, give the specified range. |
| ServiceAllocation.LastAssignmentWins | src/service/linux_system.rs:569-590 | Each option has the value of its last assignment, and reading fails exactly when some assignment is no number. |
| ServiceAllocation.AssignmentReads | src/service/linux_system.rs:569-590 | A definition as it is written sets its option to its value, whatever comment follows. |
| ServiceAllocation.CommentSetsNothing | src/service/linux_system.rs:570-573 | A line that starts a comment sets no option, whatever it says. |
| ServiceAllocation.RangeIsIntersection | src/service/linux_system.rs:591-602 | The range is the non-zero intersection of both ranges; it is refused exactly when that is empty or has more than 65,536 ids. |
| ServiceAllocation.AccountReads | src/service/linux_system.rs:615-623 | The third and fourth fields of an account line are the uid and primary gid that are reserved. |
| ServiceAllocation.GroupReads | src/service/linux_system.rs:625-631 | The third field of a group line is the gid that is reserved. |
| ServiceAllocation.AllocateServiceIdentity | src/service/linux_system.rs:605-638 | The loops compute the specified allocation. |
| ServiceAllocation.AllocatedIsGreatestFree | src/service/linux_system.rs:605-638 | The identity is the greatest id in range that is no account's uid or primary gid and no group's gid. |
| ServiceAllocation.AllocationFailsExactly | src/service/linux_system.rs:605-638 | No free id is reported exactly when the tables are well formed and every id in range is taken; any other failure means a malformed table. |
| ServiceAllocation.AllocateSystemIdentity | src/service/linux_system.rs:551-562 | Reading the range and allocating from it give the specified identity or error; a missing login.defs reads as empty. |
| ServiceAllocation.SystemIdentityIsGreatestAllowed | src/service/linux_system.rs:551-638 | A range that was accepted is never refused by the allocator; the identity is the greatest untaken id that both the uid and the gid range allow, and no free id is reported only when every such id is taken. |

## Left out

- Sockets, timeouts and cancellation are outcomes of an event; mutex poisoning, `set_nodelay` and the text of error
  replies are not modelled. A Base64 payload is its decoded bytes, or none when it does not decode.
- Error kinds are kept where the code distinguishes them by a variant; an operating system error is one value, and the
  exact error for a file name that the operating system refuses is not modelled.
- SHA-256, JSON, ZIP and gzip are functions with the laws stated in `Release.Lawful`; the collision of two digests is
  named where a claim depends on it. Compression and timestamps are left out, and so are the limits of ZIP itself on
  names and counts; file modes inside a ZIP are not verified by the code.
- Release summaries (`ClientFlavorArtifactSummary`) are projections of the artifact that the imports return.
- Things among the entries of a store that no import puts there: files and links, which make `list` fail.
- Two processes that import into one store, or migrate one state, at the same time.
- Symbolic links and special files in a source directory of the store count as absent files.
- Changes to the legacy tree while it is copied. Loading a control state is taken to read only.
- A site id of the catalog is a number that stands for a UUID in its order.
- Path comparison on file systems that ignore case, and the Windows separator inside names.
- UTF-8 decoding of the credential and the tables: they are modelled as text, and bytes that are not UTF-8 are refused
  before.
- Activity events and the default read policy of the catalog.
- Installation, removal and verification of the machine service: foreign programs without a meaning in these files.
- Rendering of icon images: the PNG bytes are inputs.
- `normalize_hostname` and the generation of identifiers. The parser of a device id is a parameter of the selector
  that accepts no text with a slash in it; a qualified selector is claimed for site names without slashes and leading
  blanks.
