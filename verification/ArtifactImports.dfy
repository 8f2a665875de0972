/** What imports do to a sound store when no filesystem call fails. */
module ArtifactImports {
  import opened Wrappers
  import opened Text
  import opened Release
  import opened ReleaseArchive
  import opened ArtifactCache

  // ---------------------------------------------------------------- cache entries

  lemma ReadyIsStricter(codec: Codec, name: string, files: Dir, ready: bool, allowDirty: bool)
    requires Validate(codec, name, files, ready, allowDirty).Ok?
    ensures Validate(codec, name, files, false, allowDirty) == Validate(codec, name, files, ready, allowDirty)
  {
    hide ReadRelease, ReleaseShape, ZipVerdict, IsCacheKey, IsBasename, PlatformOf, ArchOf;
  }

  lemma ReadyIsEligible(codec: Codec, name: string, files: Dir, ready: bool)
    requires Validate(codec, name, files, ready, false).Ok? && ready
    ensures Eligible(Validate(codec, name, files, ready, false).value)
  {
    ValidTells(codec, name, files, ready, false);
  }

  lemma CheckedTells(codec: Codec, name: string, files: Dir, ready: bool)
    requires CheckedSource(codec, name, files, ready).Ok?
    ensures var v := CheckedSource(codec, name, files, ready).value;
      && v.entry.cacheKey == name && IsFlavorId(v.entry.clientFlavor.id) && Eligible(v)
      && Validate(codec, name, files, false, false) == Ok(v)
  {
    hide Validate, Eligible, IsFlavorId;
    ValidTells(codec, name, files, ready, false);
    ReadyIsStricter(codec, name, files, ready, false);
    if ready {
      ReadyIsEligible(codec, name, files, ready);
    }
  }

  /** What a cache import is to make of the store, said as a change that is done. */
  lemma DoneIsImport(codec: Codec, allowDirty: bool, c: Contents, name: string, files: Dir, ready: bool, change: Change)
    requires CheckedSource(codec, name, files, ready).Ok?
    requires var v := CheckedSource(codec, name, files, ready).value;
      && change.key == name && change.flavor == v.entry.clientFlavor.id
      && (if name in c.entries then
            var existing := Validate(codec, name, c.entries[name], false, allowDirty);
            existing.Ok? && existing.value.entry == v.entry && existing.value.release == v.release
          else
            CACHE_ENTRY in files && v.entry.manifestFile in files && v.entry.artifactFile in files
            && change.files == CopiedFiles(files, v.entry))
    ensures CacheImport(codec, allowDirty, c, name, files, ready)
         == (CheckedSource(codec, name, files, ready), Done(codec, c, change))
  {
    hide Validate, CheckedSource, CopiedFiles;
  }

  lemma WithinItself(codec: Codec, c: Contents)
    ensures Within(codec, c, c, None)
  {
  }

  /** What holds the entry and release of an eligible artifact is a good change of a store. */
  lemma CacheChangeIsGood(codec: Codec, allowDirty: bool, c: Contents, v: Artifact, change: Change)
    requires Eligible(v) && change.key == v.entry.cacheKey && change.flavor == v.entry.clientFlavor.id
    requires change.key in c.entries ==> c.entries[change.key] == change.files
    requires var held := Validate(codec, change.key, change.files, false, allowDirty);
             held.Ok? && held.value.entry == v.entry && held.value.release == v.release
    ensures IsGoodChange(codec, allowDirty, c, change)
  {
    hide Validate, IsCacheKey, IsZeroMajor;
    ValidTells(codec, change.key, change.files, false, allowDirty);
  }

  /** Importing the same cache entry again succeeds with the same artifact and changes nothing. */
  lemma CacheReimportChangesNothing(codec: Codec, allowDirty: bool, c: Contents, name: string, files: Dir, ready: bool)
    requires CacheImport(codec, allowDirty, c, name, files, ready).0.Ok?
    ensures var (result, after) := CacheImport(codec, allowDirty, c, name, files, ready);
            CacheImport(codec, allowDirty, after, name, files, ready) == (result, after)
  {
    hide Validate, Eligible;
    var (result, after) := CacheImport(codec, allowDirty, c, name, files, ready);
    CopyIsValid(codec, name, files, ready, allowDirty);
    ValidTells(codec, name, files, ready, false);
    assert Activated(codec, after, result.value.entry.clientFlavor.id, name) == after;
  }

  /** A source whose manifest or archive differs from what is published under its key is refused, and
      the store stays as it is; unless digests collide. */
  lemma ConflictIsRefused(codec: Codec, allowDirty: bool, c: Contents, name: string, files: Dir, ready: bool)
    requires Sound(codec, allowDirty, c) && name in c.entries
    ensures var (result, after) := CacheImport(codec, allowDirty, c, name, files, ready);
      && after.entries == c.entries && (result.Err? ==> after == c)
      && (result.Ok? ==>
            var entry := result.value.entry;
            && entry.manifestFile in files && entry.manifestFile in c.entries[name]
            && entry.artifactFile in files && entry.artifactFile in c.entries[name]
            && SameOrCollide(codec, files[entry.manifestFile], c.entries[name][entry.manifestFile])
            && SameOrCollide(codec, files[entry.artifactFile], c.entries[name][entry.artifactFile]))
  {
    hide ReleaseShape, ZipVerdict, IsCacheKey, IsBasename, PlatformOf, ArchOf, Eligible, Sound;
    var (result, after) := CacheImport(codec, allowDirty, c, name, files, ready);
    if result.Ok? {
      ValidTells(codec, name, files, ready, false);
      ValidTells(codec, name, c.entries[name], false, allowDirty);
      ValidDigests(codec, name, files, ready, false);
      ValidDigests(codec, name, c.entries[name], false, allowDirty);
    }
  }

  /** What a loop over the names to copy has staged. */
  ghost function CopiedSoFar(files: Dir, names: seq<string>): Dir
    requires forall n | n in names :: n in files
  {
    if names == [] then map[]
    else CopiedSoFar(files, names[..|names| - 1])[names[|names| - 1] := files[names[|names| - 1]]]
  }

  lemma AllCopied(files: Dir, entry: CacheEntry)
    requires CACHE_ENTRY in files && entry.manifestFile in files && entry.artifactFile in files
    ensures var names := [CACHE_ENTRY, entry.manifestFile, entry.artifactFile];
            CopiedSoFar(files, names[..3]) == CopiedFiles(files, entry)
  {
    var names := [CACHE_ENTRY, entry.manifestFile, entry.artifactFile];
    assert names[..3][..2] == names[..2] && names[..2][..1] == names[..1] && names[..1][..0] == [];
    assert CopiedSoFar(files, names[..1]) == map[CACHE_ENTRY := files[CACHE_ENTRY]];
    assert CopiedSoFar(files, names[..2])
        == CopiedSoFar(files, names[..1])[entry.manifestFile := files[entry.manifestFile]];
  }

  /** The file names of a valid entry have no separator in them. */
  lemma ValidNames(codec: Codec, name: string, files: Dir, ready: bool, allowDirty: bool)
    requires Validate(codec, name, files, ready, allowDirty).Ok?
    ensures var entry := Validate(codec, name, files, ready, allowDirty).value.entry;
            '/' !in entry.manifestFile && '/' !in entry.artifactFile && '/' !in CACHE_ENTRY
  {
    hide ReadRelease, ReleaseShape, ZipVerdict, IsCacheKey, PlatformOf, ArchOf;
  }

  ghost predicate SameOrCollide(codec: Codec, a: Bytes, b: Bytes) {
    a == b || Collide(codec, a, b)
  }

  lemma ValidDigests(codec: Codec, name: string, files: Dir, ready: bool, allowDirty: bool)
    requires Validate(codec, name, files, ready, allowDirty).Ok?
    ensures var entry := Validate(codec, name, files, ready, allowDirty).value.entry;
      && entry.manifestFile in files && codec.sha256(files[entry.manifestFile]) == entry.manifestSha256
      && entry.artifactFile in files && codec.sha256(files[entry.artifactFile]) == entry.artifactSha256
  {
    hide ReleaseShape, ZipVerdict, IsCacheKey, IsBasename, PlatformOf, ArchOf;
  }

  // ---------------------------------------------------------------- release directories

  /** A valid entry under the key of a request, with the payload of the request, may be distributed and
      is of the request's flavor. */
  lemma RequestedIsEligible(codec: Codec, allowDirty: bool, files: Dir, dir: Dir)
    requires ReadRequest(codec, allowDirty, files).Ok?
    requires var request := ReadRequest(codec, allowDirty, files).value;
      && Validate(codec, request.key, dir, false, allowDirty).Ok?
      && Validate(codec, request.key, dir, false, allowDirty).value.release.payload == request.payload
    ensures var request := ReadRequest(codec, allowDirty, files).value;
      && EntryIsSound(codec, allowDirty, request.key, dir)
      && BelongsTo(codec, allowDirty, request.key, dir, request.flavor.id)
  {
    hide ReadEntry, ReadRelease, ZipVerdict, ArchOf, IsZeroMajor, IsFlavorId, IsCacheKey, CacheKey, ReleaseShape,
         PlatformOf, DirtyIsAllowed;
    var request := ReadRequest(codec, allowDirty, files).value;
    var v := Validate(codec, request.key, dir, false, allowDirty).value;
    ShapeTells(codec, v.entry, v.release.payload, allowDirty);
    assert v.entry.target == request.payload.target;
  }

  /** The staged directory fails verification only for one of these reasons: the shape of the release,
      a name that is no file name, a size over its bound, or a target without an architecture. */
  lemma StagedIsValidExactly(codec: Codec, allowDirty: bool, files: Dir)
    requires Lawful(codec) && ReadRequest(codec, allowDirty, files).Ok?
    requires StagedArchive(codec, files, ReadRequest(codec, allowDirty, files).value).Ok?
    ensures var request := ReadRequest(codec, allowDirty, files).value;
      var payload := request.payload;
      var zip := StagedArchive(codec, files, request).value;
      CheckStaged(codec, allowDirty, request, zip, StagedFiles(codec, request, zip)).Ok? <==>
        && ReleaseShape(codec, EntryOf(codec, request, zip), payload, allowDirty).Ok?
        && IsBasename(ArtifactFile(payload)) && IsBasename(ManifestFile(payload))
        && |codec.entryText(EntryOf(codec, request, zip))| <= MAX_CLIENT_FLAVOR_CACHE_ENTRY_BYTES
        && |codec.releaseText(ReleaseOf(codec, request, zip))| <= MAX_RELEASE_MANIFEST_BYTES
        && (forall i | 0 <= i < |payload.files| :: payload.files[i].size <= MAX_RELEASE_ARTIFACT_BYTES)
        && ArchOf(payload.target).Ok?
  {
    hide ReleaseShape, ZipVerdict, WrittenEntries, IsCacheKey, IsBasename, IsSha256, Stem, PlatformOf, ArchOf, CacheKey,
         IsFlavorId, IsZeroMajor, DirtyIsAllowed;
    var request := ReadRequest(codec, allowDirty, files).value;
    var zip := StagedArchive(codec, files, request).value;
    var staged, entry := StagedFiles(codec, request, zip), EntryOf(codec, request, zip);
    FileNamesDiffer(request.payload);
    assert staged[entry.artifactFile] == zip;
    assert staged[entry.manifestFile] == codec.releaseText(ReleaseOf(codec, request, zip));
    assert codec.entryOf(staged[CACHE_ENTRY]) == Some(entry);
    assert codec.releaseOf(staged[entry.manifestFile]) == Some(ReleaseOf(codec, request, zip));
    WrittenArchivePasses(codec, files, request.payload, request.payloadBytes);
  }

  lemma RequestTells(codec: Codec, allowDirty: bool, files: Dir)
    requires ReadRequest(codec, allowDirty, files).Ok?
    ensures var request := ReadRequest(codec, allowDirty, files).value;
            IsCacheKey(request.key) && IsFlavorId(request.flavor.id)
  {
    hide CacheKey, IsZeroMajor, PlatformOf, DirtyIsAllowed;
  }

  lemma RequestedIsGood(codec: Codec, allowDirty: bool, c: Contents, change: Change)
    requires IsCacheKey(change.key) && EntryIsSound(codec, allowDirty, change.key, change.files)
    requires BelongsTo(codec, allowDirty, change.key, change.files, change.flavor)
    requires change.key in c.entries ==> c.entries[change.key] == change.files
    ensures IsGoodChange(codec, allowDirty, c, change)
  {
    hide Validate, Eligible, IsCacheKey;
  }

  lemma NamesAreAlike(payload: PayloadManifest)
    ensures '/' in ArtifactFile(payload) <==> '/' in ManifestFile(payload)
    ensures '/' !in CACHE_ENTRY
  {
    hide Stem;
    assert '/' !in ".zip" && '/' !in ".release.json";
  }

  lemma FileNamesDiffer(payload: PayloadManifest)
    ensures ArtifactFile(payload) != ManifestFile(payload)
    ensures ArtifactFile(payload) != CACHE_ENTRY && ManifestFile(payload) != CACHE_ENTRY
  {
    hide Stem;
    var artifact, manifest := ArtifactFile(payload), ManifestFile(payload);
    assert artifact[|artifact| - 1] == 'p' && manifest[|manifest| - 1] == 'n';
    assert CACHE_ENTRY[1] == 'a';
    StemStarts(payload);
  }

  lemma StemStarts(payload: PayloadManifest)
    ensures |ArtifactFile(payload)| > 1 && ArtifactFile(payload)[1] == 'l'
    ensures |ManifestFile(payload)| > 1 && ManifestFile(payload)[1] == 'l'
  {
  }

  /** A release directory is imported only if its manifest says unsigned; a signed one is refused, and
      so is, outside a local acceptance store, a dirty one; the store stays as it is. */
  lemma ReleaseImportPolicy(codec: Codec, allowDirty: bool, c: Contents, files: Dir, payload: PayloadManifest)
    requires RELEASE_MANIFEST in files && |files[RELEASE_MANIFEST]| <= MAX_RELEASE_MANIFEST_BYTES
    requires codec.payloadOf(files[RELEASE_MANIFEST]) == Some(payload)
    ensures payload.dirty && !allowDirty ==>
      ReleaseImport(codec, allowDirty, c, files) == (Err(ReleaseMetadataMismatch), c)
    ensures !payload.dirty && !payload.unsigned ==>
      ReleaseImport(codec, allowDirty, c, files) == (Err(SignedReleaseDirectoryRequiresNativeVerification), c)
    ensures ReleaseImport(codec, allowDirty, c, files).0.Ok? ==>
      && payload.unsigned
      && ReleaseImport(codec, allowDirty, c, files).0.value.release.payload == payload
  {
    hide Validate, StagedArchive, StagedFiles, EntryOf, CacheKey, IsCacheKey, IsFlavorId, PlatformOf, IsZeroMajor;
  }

  /** Importing the same release again succeeds with the same artifact and changes nothing. */
  lemma ReleaseReimportChangesNothing(codec: Codec, allowDirty: bool, c: Contents, files: Dir)
    requires ReleaseImport(codec, allowDirty, c, files).0.Ok?
    ensures var (result, after) := ReleaseImport(codec, allowDirty, c, files);
            ReleaseImport(codec, allowDirty, after, files) == (result, after)
  {
    hide Validate, ReadRequest, StagedArchive, StagedFiles, EntryOf;
    var (result, after) := ReleaseImport(codec, allowDirty, c, files);
    var request := ReadRequest(codec, allowDirty, files).value;
    assert Activated(codec, after, request.flavor.id, request.key) == after;
  }

  /** A published key keeps its payload: another release with that key is refused, without a change. */
  lemma OtherPayloadIsRefused(codec: Codec, allowDirty: bool, c: Contents, files: Dir)
    requires ReadRequest(codec, allowDirty, files).Ok? && ReadRequest(codec, allowDirty, files).value.key in c.entries
    requires Sound(codec, allowDirty, c)
    ensures var request := ReadRequest(codec, allowDirty, files).value;
      var (result, after) := ReleaseImport(codec, allowDirty, c, files);
      var published := Validate(codec, request.key, c.entries[request.key], false, allowDirty).value;
      && after.entries == c.entries
      && (result.Ok? <==> published.release.payload == request.payload)
      && (result.Err? ==> result == Err(ImmutableCacheConflict) && after == c)
  {
    hide Validate, Eligible, ReadRequest;
    var request := ReadRequest(codec, allowDirty, files).value;
    assert EntryIsSound(codec, allowDirty, request.key, c.entries[request.key]);
  }
}
