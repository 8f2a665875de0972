/** Cache entries of the ClientFlavor store: when one is valid, what an import makes of the store, and
    what holds of a store that was filled by imports. */
module ArtifactCache {
  import opened Wrappers
  import opened Text
  import opened Release
  import opened ReleaseArchive

  const CACHE_ENTRY := "cache-entry.json"

  datatype Artifact = Artifact(entry: CacheEntry, release: ArtifactManifest, platform: ReleasePlatform, arch: string)

  /** The published part of a store: entries by key, and active pointers by flavor. */
  datatype Contents = Contents(entries: map<string, Dir>, active: map<string, Bytes>)

  const EMPTY_STORE := Contents(map[], map[])

  // ---------------------------------------------------------------- validation of an entry directory

  function ReadEntry(codec: Codec, name: string, files: Dir, ready: bool): Result<CacheEntry, DistributionError> {
    var _ :- Need(CACHE_ENTRY in files, Io);
    var bytes := files[CACHE_ENTRY];
    var _ :- Need(|bytes| <= MAX_CLIENT_FLAVOR_CACHE_ENTRY_BYTES, FileTooLarge);
    var _ :- Need(codec.entryOf(bytes).Some?, Json);
    var entry := codec.entryOf(bytes).value;
    var _ :- Need(entry.schemaVersion == CLIENT_FLAVOR_CACHE_SCHEMA_VERSION, UnsupportedCacheSchema);
    var _ :- Need(IsCacheKey(entry.cacheKey), InvalidCacheKey);
    var _ :- Need(name == entry.cacheKey, CacheDirectoryKeyMismatch);
    var _ :- Need(ready ==> entry.releaseReady, NotReleaseReady);
    var _ :- Need(IsBasename(entry.artifactFile) && IsBasename(entry.manifestFile), UnsafeFileName);
    Ok(entry)
  }

  function ReadRelease(codec: Codec, files: Dir, entry: CacheEntry): Result<ArtifactManifest, DistributionError> {
    var _ :- Need(entry.manifestFile in files, Io);
    var manifest := files[entry.manifestFile];
    var _ :- Need(|manifest| <= MAX_RELEASE_MANIFEST_BYTES, FileTooLarge);
    var _ :- Need(codec.sha256(manifest) == entry.manifestSha256, ManifestHashMismatch);
    var _ :- Need(codec.releaseOf(manifest).Some?, Json);
    var release := codec.releaseOf(manifest).value;
    var _ :- Need(entry.artifactFile in files, Io);
    var artifact := files[entry.artifactFile];
    var _ :- Need(&& |artifact| <= MAX_RELEASE_ARTIFACT_BYTES && |artifact| == release.artifact.size
            && release.artifact.file == entry.artifactFile && release.artifact.sha256 == entry.artifactSha256
            && codec.sha256(artifact) == entry.artifactSha256, ArtifactMismatch);
    Ok(release)
  }

  /** `validate_cache_entry_dir_with_policy`. */
  function Validate(codec: Codec, name: string, files: Dir, ready: bool, allowDirty: bool)
    : Result<Artifact, DistributionError>
  {
    var entry :- ReadEntry(codec, name, files, ready);
    var release :- ReadRelease(codec, files, entry);
    var _ :- ReleaseShape(codec, entry, release.payload, allowDirty);
    assert entry.artifactFile in files;
    var _ :- ZipVerdict(codec, files[entry.artifactFile], release.payload);
    var platform :- PlatformOf(entry.target);
    var arch :- ArchOf(entry.target);
    Ok(Artifact(entry, release, platform, arch))
  }

  /** `site_kit_distribution_eligible`. */
  predicate Eligible(artifact: Artifact) {
    || artifact.entry.releaseReady
    || (artifact.release.payload.unsigned && artifact.release.payload.signing.None?
        && IsZeroMajor(artifact.entry.version))
  }

  /** What a valid entry tells of itself. */
  lemma ValidTells(codec: Codec, name: string, files: Dir, ready: bool, allowDirty: bool)
    requires Validate(codec, name, files, ready, allowDirty).Ok?
    ensures var v := Validate(codec, name, files, ready, allowDirty).value;
      && v.entry.cacheKey == name && IsCacheKey(name) && IsFlavorId(v.entry.clientFlavor.id)
      && v.release.payload.clientFlavor == Some(v.entry.clientFlavor)
      && v.release.payload.version == v.entry.version && (ready ==> v.entry.releaseReady)
      && CACHE_ENTRY in files && v.entry.manifestFile in files && v.entry.artifactFile in files
      && (v.release.payload.dirty ==>
            && allowDirty && v.release.payload.unsigned && v.release.payload.signing.None?
            && IsZeroMajor(v.entry.version) && !v.entry.releaseReady)
  {
    hide ReleaseShape, ZipVerdict, IsCacheKey, IsFlavorId, IsBasename, IsZeroMajor, PlatformOf, ArchOf;
    var v := Validate(codec, name, files, ready, allowDirty).value;
    ShapeTells(codec, v.entry, v.release.payload, allowDirty);
  }

  /** The files that an import copies. */
  function CopiedFiles(files: Dir, entry: CacheEntry): Dir
    requires CACHE_ENTRY in files && entry.manifestFile in files && entry.artifactFile in files
  {
    map[CACHE_ENTRY := files[CACHE_ENTRY]][entry.manifestFile := files[entry.manifestFile]]
       [entry.artifactFile := files[entry.artifactFile]]
  }

  /** A faithful copy of an entry that passed the strict policy is valid under either, and is the same
      entry and release. */
  lemma CopyIsValid(codec: Codec, name: string, files: Dir, ready: bool, allowDirty: bool)
    requires Validate(codec, name, files, ready, false).Ok?
    ensures var v := Validate(codec, name, files, ready, false).value;
      && CACHE_ENTRY in files && v.entry.manifestFile in files && v.entry.artifactFile in files
      && Validate(codec, v.entry.cacheKey, CopiedFiles(files, v.entry), false, allowDirty) == Ok(v)
  {
    hide ReleaseShape, ZipVerdict, IsCacheKey, IsBasename, PlatformOf, ArchOf;
    var v := Validate(codec, name, files, ready, false).value;
    var copy := CopiedFiles(files, v.entry);
    StrictImpliesLenient(codec, v.entry, v.release.payload, allowDirty);
    assert ReadEntry(codec, v.entry.cacheKey, copy, false) == Ok(v.entry);
    assert ReadRelease(codec, copy, v.entry) == Ok(v.release);
  }

  // ---------------------------------------------------------------- what an import does when nothing fails

  function Activated(codec: Codec, c: Contents, flavor: string, key: string): Contents {
    c.(active := c.active[flavor := codec.pointerText(key)])
  }

  /** What `import_cache_entry` finds out before it looks at the store. */
  function CheckedSource(codec: Codec, name: string, files: Dir, ready: bool): Result<Artifact, DistributionError> {
    var v :- Validate(codec, name, files, ready, false);
    var _ :- Need(ready || Eligible(v), RuntimeNotDistributionEligible);
    Ok(v)
  }

  /** `import_cache_entry`: the directory `files`, named `name`, into the store `c`. */
  function CacheImport(codec: Codec, allowDirty: bool, c: Contents, name: string, files: Dir, ready: bool)
    : (Result<Artifact, DistributionError>, Contents)
  {
    var checked := CheckedSource(codec, name, files, ready);
    if checked.Err? then (checked, c)
    else
      var v := checked.value;
      ValidTells(codec, name, files, ready, false);
      if name in c.entries then
        var existing := Validate(codec, name, c.entries[name], false, allowDirty);
        if existing.Err? then (existing, c)
        else if existing.value.entry != v.entry || existing.value.release != v.release
        then (Err(ImmutableCacheConflict), c)
        else (checked, Activated(codec, c, v.entry.clientFlavor.id, name))
      else
        var published := c.(entries := c.entries[name := CopiedFiles(files, v.entry)]);
        (checked, Activated(codec, published, v.entry.clientFlavor.id, name))
  }

  /** What `import_release_directory` knows before it looks at the store. */
  datatype Request = Request(payload: PayloadManifest, payloadBytes: Bytes, flavor: ClientFlavorInfo, key: string,
                             ready: bool)

  function ReadRequest(codec: Codec, allowDirty: bool, files: Dir): Result<Request, DistributionError> {
    var _ :- Need(RELEASE_MANIFEST in files, Io);
    var bytes := files[RELEASE_MANIFEST];
    var _ :- Need(|bytes| <= MAX_RELEASE_MANIFEST_BYTES, FileTooLarge);
    var _ :- Need(codec.payloadOf(bytes).Some?, Json);
    var payload := codec.payloadOf(bytes).value;
    var _ :- Need(DirtyIsAllowed(payload, allowDirty), ReleaseMetadataMismatch);
    var _ :- Need(payload.unsigned, SignedReleaseDirectoryRequiresNativeVerification);
    var _ :- Need(payload.clientFlavor.Some?, ReleaseClientFlavorMissing);
    var flavor := payload.clientFlavor.value;
    var key := CacheKey(codec, flavor, payload);
    var _ :- Need(IsCacheKey(key), InvalidCacheKey);
    var _ :- Need(IsFlavorId(flavor.id), InvalidClientFlavorId);
    var platform :- PlatformOf(payload.target);
    var ready := ExpectedReady(platform, payload);
    var _ :- Need(ready || (payload.signing.None? && IsZeroMajor(payload.version)), RuntimeNotDistributionEligible);
    Ok(Request(payload, bytes, flavor, key, ready))
  }

  function ArtifactFile(payload: PayloadManifest): string {
    Stem(payload) + ".zip"
  }

  function ManifestFile(payload: PayloadManifest): string {
    Stem(payload) + ".release.json"
  }

  function ReleaseOf(codec: Codec, request: Request, zip: Bytes): ArtifactManifest {
    ArtifactManifest(request.payload, ArtifactInfo(ArtifactFile(request.payload), |zip|, codec.sha256(zip)))
  }

  function EntryOf(codec: Codec, request: Request, zip: Bytes): CacheEntry {
    var payload := request.payload;
    CacheEntry(CLIENT_FLAVOR_CACHE_SCHEMA_VERSION, request.key, request.flavor, payload.version, payload.target,
               payload.profile, payload.sourceCommit, request.ready, payload.signing,
               ArtifactFile(payload), codec.sha256(zip), ManifestFile(payload),
               codec.sha256(codec.releaseText(ReleaseOf(codec, request, zip))))
  }

  /** The entry directory that is staged for a release. */
  function StagedFiles(codec: Codec, request: Request, zip: Bytes): Dir {
    map[ArtifactFile(request.payload) := zip]
       [ManifestFile(request.payload) := codec.releaseText(ReleaseOf(codec, request, zip))]
       [CACHE_ENTRY := codec.entryText(EntryOf(codec, request, zip))]
  }

  /** The archive of the request, or why there is none. */
  function StagedArchive(codec: Codec, files: Dir, request: Request): Result<Bytes, DistributionError> {
    var _ :- Need('/' !in ArtifactFile(request.payload), Io);
    var entries :- WrittenEntries(codec, files, Stem(request.payload), request.payload.files, request.payloadBytes);
    var zip := codec.zipText(entries);
    var _ :- Need(|zip| <= MAX_RELEASE_ARTIFACT_BYTES, FileTooLarge);
    Ok(zip)
  }

  /** A staged directory is published only if it validates as what it was meant to be. */
  function CheckStaged(codec: Codec, allowDirty: bool, request: Request, zip: Bytes, staged: Dir)
    : Result<Artifact, DistributionError>
  {
    var v :- Validate(codec, request.key, staged, false, allowDirty);
    var _ :- Need(v.entry == EntryOf(codec, request, zip) && v.release == ReleaseOf(codec, request, zip),
            CopyVerificationFailed);
    Ok(v)
  }

  /** `import_release_directory`. */
  function ReleaseImport(codec: Codec, allowDirty: bool, c: Contents, files: Dir)
    : (Result<Artifact, DistributionError>, Contents)
  {
    var read := ReadRequest(codec, allowDirty, files);
    if read.Err? then (Err(read.error), c)
    else
      var request := read.value;
      if request.key in c.entries then
        var existing := Validate(codec, request.key, c.entries[request.key], false, allowDirty);
        if existing.Err? then (existing, c)
        else if existing.value.release.payload != request.payload then (Err(ImmutableCacheConflict), c)
        else (existing, Activated(codec, c, request.flavor.id, request.key))
      else
        var zip := StagedArchive(codec, files, request);
        if zip.Err? then (Err(zip.error), c)
        else
          var staged := StagedFiles(codec, request, zip.value);
          var checked := CheckStaged(codec, allowDirty, request, zip.value, staged);
          if checked.Err? then (checked, c)
          else
            var published := c.(entries := c.entries[request.key := staged]);
            (checked, Activated(codec, published, request.flavor.id, request.key))
  }

  /** `import_runtime_source`. */
  function RuntimeImport(codec: Codec, allowDirty: bool, c: Contents, name: string, files: Dir)
    : (Result<Artifact, DistributionError>, Contents)
  {
    if CACHE_ENTRY in files then CacheImport(codec, allowDirty, c, name, files, false)
    else if RELEASE_MANIFEST in files then ReleaseImport(codec, allowDirty, c, files)
    else (Err(UnsupportedRuntimeSource), c)
  }

  // ---------------------------------------------------------------- sound stores

  /** An entry validates under its own name and may be distributed. */
  ghost predicate EntryIsSound(codec: Codec, allowDirty: bool, key: string, files: Dir) {
    var v := Validate(codec, key, files, false, allowDirty);
    v.Ok? && Eligible(v.value)
  }

  ghost predicate BelongsTo(codec: Codec, allowDirty: bool, key: string, files: Dir, flavor: string) {
    var v := Validate(codec, key, files, false, allowDirty);
    v.Ok? && v.value.entry.clientFlavor.id == flavor
  }

  /** A pointer names a present entry of its own flavor. */
  ghost predicate PointerIsSound(codec: Codec, allowDirty: bool, c: Contents, flavor: string, bytes: Bytes) {
    && |bytes| <= MAX_ACTIVE_POINTER_BYTES && codec.pointerOf(bytes).Some?
    && var key := codec.pointerOf(bytes).value;
       IsCacheKey(key) && key in c.entries && BelongsTo(codec, allowDirty, key, c.entries[key], flavor)
  }

  ghost predicate Sound(codec: Codec, allowDirty: bool, c: Contents) {
    && (forall key | key in c.entries :: EntryIsSound(codec, allowDirty, key, c.entries[key]))
    && (forall flavor | flavor in c.active :: PointerIsSound(codec, allowDirty, c, flavor, c.active[flavor]))
  }

  /** `read_active_key`. */
  function ReadActiveKey(codec: Codec, c: Contents, flavor: string): Result<Option<string>, DistributionError> {
    var _ :- Need(IsFlavorId(flavor), InvalidClientFlavorId);
    if flavor !in c.active then Ok(None)
    else
      var bytes := c.active[flavor];
      var _ :- Need(|bytes| <= MAX_ACTIVE_POINTER_BYTES, FileTooLarge);
      var _ :- Need(codec.pointerOf(bytes).Some?, Json);
      var key := codec.pointerOf(bytes).value;
      var _ :- Need(IsCacheKey(key), InvalidCacheKey);
      Ok(Some(key))
  }

  /** `active_for_flavor`. */
  function ActiveForFlavor(codec: Codec, allowDirty: bool, c: Contents, flavor: string)
    : Result<Option<Artifact>, DistributionError>
  {
    var found :- ReadActiveKey(codec, c, flavor);
    if found.None? then Ok(None)
    else
      var key := found.value;
      var _ :- Need(key in c.entries, Io);
      var artifact :- Validate(codec, key, c.entries[key], false, allowDirty);
      var _ :- Need(artifact.entry.clientFlavor.id == flavor, ActivePointerFlavorMismatch);
      Ok(Some(artifact))
  }

  /** In a sound store `active_for_flavor` never fails: it finds nothing exactly when there is no
      pointer, and otherwise a valid, distributable entry of that flavor. */
  lemma ActiveNeverFails(codec: Codec, allowDirty: bool, c: Contents, flavor: string)
    requires Sound(codec, allowDirty, c) && IsFlavorId(flavor)
    ensures ActiveForFlavor(codec, allowDirty, c, flavor).Ok?
    ensures var found := ActiveForFlavor(codec, allowDirty, c, flavor).value;
      && (found.None? <==> flavor !in c.active)
      && (found.Some? ==> found.value.entry.clientFlavor.id == flavor && Eligible(found.value)
                          && found.value.entry.cacheKey in c.entries)
  {
    hide Validate, Eligible, IsCacheKey, IsFlavorId;
    if flavor in c.active {
      assert PointerIsSound(codec, allowDirty, c, flavor, c.active[flavor]);
      var key := codec.pointerOf(c.active[flavor]).value;
      assert EntryIsSound(codec, allowDirty, key, c.entries[key]);
      ValidTells(codec, key, c.entries[key], false, allowDirty);
    }
  }

  /** In a sound store the active key of a flavor is what its pointer says. */
  lemma SoundActiveKey(codec: Codec, allowDirty: bool, c: Contents, flavor: string)
    requires Sound(codec, allowDirty, c) && IsFlavorId(flavor)
    ensures ReadActiveKey(codec, c, flavor) ==
      Ok(if flavor in c.active then codec.pointerOf(c.active[flavor]) else None)
  {
    hide Validate, Eligible, IsCacheKey, IsFlavorId, EntryIsSound, BelongsTo;
    if flavor in c.active {
      assert PointerIsSound(codec, allowDirty, c, flavor, c.active[flavor]);
    }
  }

  /** Every entry of a sound store is the one its name says, and a dirty one is there only under the
      local acceptance policy: unsigned, of a 0.x version, and not release ready. */
  lemma SoundEntryTells(codec: Codec, allowDirty: bool, c: Contents, key: string)
    requires Sound(codec, allowDirty, c) && key in c.entries
    ensures var v := Validate(codec, key, c.entries[key], false, allowDirty);
      && v.Ok? && v.value.entry.cacheKey == key && Eligible(v.value)
      && (v.value.release.payload.dirty ==>
            && allowDirty && v.value.release.payload.unsigned && v.value.release.payload.signing.None?
            && IsZeroMajor(v.value.entry.version) && !v.value.entry.releaseReady)
  {
    hide Validate, Eligible, IsZeroMajor;
    assert EntryIsSound(codec, allowDirty, key, c.entries[key]);
    ValidTells(codec, key, c.entries[key], false, allowDirty);
  }

  /** The archive of every entry of a sound store holds exactly the files that its manifest lists, each
      with its size and digest, and that manifest. */
  lemma SoundEntryHoldsItsFiles(codec: Codec, allowDirty: bool, c: Contents, key: string)
    requires Lawful(codec) && Sound(codec, allowDirty, c) && key in c.entries
    ensures var v := Validate(codec, key, c.entries[key], false, allowDirty).value;
      && v.entry.artifactFile in c.entries[key]
      && codec.zipOf(c.entries[key][v.entry.artifactFile]).Some?
      && HoldsExactly(codec, codec.zipOf(c.entries[key][v.entry.artifactFile]).value, v.release.payload)
  {
    hide ReadEntry, ReadRelease, ReleaseShape, EntriesVerdict, PlatformOf, ArchOf, Eligible, IsCacheKey, IsSha256;
    assert EntryIsSound(codec, allowDirty, key, c.entries[key]);
    ValidTells(codec, key, c.entries[key], false, allowDirty);
    var v := Validate(codec, key, c.entries[key], false, allowDirty).value;
    var zip := codec.zipOf(c.entries[key][v.entry.artifactFile]);
    assert zip.Some? && DistinctNames(zip.value);
    PassedArchiveIsExact(codec, zip.value, v.release.payload);
  }

  // ---------------------------------------------------------------- one import, step by step

  /** What an import may publish: the entry `files` under `key`, and then the pointer of `flavor`. */
  datatype Change = Change(key: string, files: Dir, flavor: string)

  /** The entry of the change is there already, or may be published; it is of the change's flavor. */
  ghost predicate IsGoodChange(codec: Codec, allowDirty: bool, c0: Contents, change: Change) {
    && IsCacheKey(change.key)
    && BelongsTo(codec, allowDirty, change.key,
                 if change.key in c0.entries then c0.entries[change.key] else change.files, change.flavor)
    && (change.key !in c0.entries ==> EntryIsSound(codec, allowDirty, change.key, change.files))
  }

  /** Every moment of an import: the key is as it was, or complete where it was absent; the pointer is
      as it was, or absent, or new, and is touched only when its entry is there; nothing else changes. */
  ghost predicate Within(codec: Codec, c0: Contents, c: Contents, change: Option<Change>) {
    || c == c0
    || (&& change.Some?
        && var ch := change.value;
           && (|| c.entries == c0.entries
               || (ch.key !in c0.entries && c.entries == c0.entries[ch.key := ch.files]))
           && (|| c.active == c0.active
               || (ch.key in c.entries && c.active == c0.active - {ch.flavor})
               || (ch.key in c.entries && c.active == c0.active[ch.flavor := codec.pointerText(ch.key)])))
  }

  /** A sound store is sound at every moment of a good change. */
  lemma WithinIsSound(codec: Codec, allowDirty: bool, c0: Contents, c: Contents, change: Option<Change>)
    requires Lawful(codec) && Sound(codec, allowDirty, c0) && Within(codec, c0, c, change)
    requires change.Some? ==> IsGoodChange(codec, allowDirty, c0, change.value)
    ensures Sound(codec, allowDirty, c)
  {
    hide Validate, Eligible, IsCacheKey, IsSha256, EntryIsSound, BelongsTo;
    forall flavor | flavor in c.active
      ensures PointerIsSound(codec, allowDirty, c, flavor, c.active[flavor])
    {
      if flavor in c0.active && c.active[flavor] == c0.active[flavor] {
        assert PointerIsSound(codec, allowDirty, c0, flavor, c0.active[flavor]);
      } else {
        assert flavor == change.value.flavor && c.active[flavor] == codec.pointerText(change.value.key);
      }
    }
  }

  /** The contents when the change is done. */
  ghost function Done(codec: Codec, c0: Contents, change: Change): Contents {
    var c1 := if change.key in c0.entries then c0 else c0.(entries := c0.entries[change.key := change.files]);
    Activated(codec, c1, change.flavor, change.key)
  }

  /** The contents are as they were, without the pointer of the flavor, or with the new one. */
  ghost predicate PointerMoved(codec: Codec, c0: Contents, c: Contents, flavor: string, key: string) {
    c == c0 || c == c0.(active := c0.active - {flavor}) || c == Activated(codec, c0, flavor, key)
  }

  lemma ActivatedAnyway(codec: Codec, c0: Contents, c: Contents, flavor: string, key: string)
    requires c == c0 || c == c0.(active := c0.active - {flavor})
    ensures Activated(codec, c, flavor, key) == Activated(codec, c0, flavor, key)
  {
    assert (c0.active - {flavor})[flavor := codec.pointerText(key)] == c0.active[flavor := codec.pointerText(key)];
  }

  /** The states that an import goes through after publishing, and its end. */
  lemma DoneIsWithin(codec: Codec, c0: Contents, c1: Contents, change: Change)
    requires c1 == if change.key in c0.entries then c0 else c0.(entries := c0.entries[change.key := change.files])
    ensures forall c | PointerMoved(codec, c1, c, change.flavor, change.key) :: Within(codec, c0, c, Some(change))
    ensures Activated(codec, c1, change.flavor, change.key) == Done(codec, c0, change)
  {
  }

  lemma GoodKey(codec: Codec, allowDirty: bool, c0: Contents, change: Change)
    requires IsGoodChange(codec, allowDirty, c0, change)
    ensures IsCacheKey(change.key)
  {
  }
}
