/** What a published entry is, condition by condition, and what an import that succeeds has done. */
module ArtifactLaws {
  import opened Wrappers
  import opened Text
  import opened Release
  import opened ReleaseLaws
  import opened ReleaseArchive
  import opened ArtifactCache
  import opened ArtifactImports

  /** The part of a target before its first hyphen. */
  ghost predicate IsArch(arch: string, target: string) {
    arch != "" && '-' !in arch && (target == arch || exists rest :: target == arch + "-" + rest)
  }

  lemma ArchExactly(target: string, arch: string)
    ensures ArchOf(target) == Ok(arch) <==> IsArch(arch, target)
  {
    hide Split;
    var i := IndexOf(target, '-');
    FirstPiece(target);
    if i < |target| {
      assert target == target[..i] + "-" + target[i + 1..];
    } else {
      assert target[..i] == target;
    }
    if IsArch(arch, target) {
      if target != arch {
        var rest :| target == arch + "-" + rest;
        assert target[..|arch|] == arch && target[|arch|] == '-';
        IndexOfIsFirst(target, '-', |arch|);
      } else {
        assert i == |target|;
      }
    }
  }

  lemma FirstPiece(s: string)
    ensures Split(s, '-')[0] == s[..IndexOf(s, '-')]
  {
    if IndexOf(s, '-') == |s| {
      assert s[..|s|] == s;
    }
  }

  /** The directory is the entry `v`: its three files are there, within their bounds, of the digests and
      sizes that they claim for each other, and say an acceptable release. */
  ghost predicate IsEntry(codec: Codec, name: string, files: Dir, allowDirty: bool, v: Artifact) {
    var entry, p := v.entry, v.release.payload;
    && CACHE_ENTRY in files && entry.manifestFile in files && entry.artifactFile in files
    && |files[CACHE_ENTRY]| <= 64 * 1024 && codec.entryOf(files[CACHE_ENTRY]) == Some(entry)
    && entry.schemaVersion == 1 && entry.cacheKey == name && IsCacheKey(name)
    && IsBasename(entry.manifestFile) && IsBasename(entry.artifactFile)
    && var manifest, artifact := files[entry.manifestFile], files[entry.artifactFile];
       && |manifest| <= 1024 * 1024 && codec.sha256(manifest) == entry.manifestSha256
       && codec.releaseOf(manifest) == Some(v.release)
       && v.release.artifact == ArtifactInfo(entry.artifactFile, |artifact|, codec.sha256(artifact))
       && |artifact| <= 0x8000_0000 && codec.sha256(artifact) == entry.artifactSha256
       && AcceptableRelease(codec, entry, p, allowDirty)
       && ZipVerdict(codec, artifact, p).Ok?
       && IsArch(v.arch, entry.target)
       && v.platform == (if Contains(entry.target, "windows") then Windows
                         else if Contains(entry.target, "apple-darwin") then Macos else Linux)
  }

  /** A directory is valid, as the entry `v`, exactly when it is that entry, and ready if it is to be. */
  lemma ValidExactly(codec: Codec, name: string, files: Dir, ready: bool, allowDirty: bool, v: Artifact)
    ensures Validate(codec, name, files, ready, allowDirty) == Ok(v) <==>
      IsEntry(codec, name, files, allowDirty, v) && (ready ==> v.entry.releaseReady)
  {
    hide ReleaseShape, ZipVerdict, IsCacheKey, IsBasename, PlatformOf, ArchOf, AcceptableRelease, IsArch, Contains;
    ShapeExactly(codec, v.entry, v.release.payload, allowDirty);
    ArchExactly(v.entry.target, v.arch);
    PlatformIs(codec, v.entry, v.release.payload, allowDirty);
  }

  lemma PlatformIs(codec: Codec, entry: CacheEntry, p: PayloadManifest, allowDirty: bool)
    ensures AcceptableRelease(codec, entry, p, allowDirty) ==>
      PlatformOf(entry.target) == Ok(if Contains(entry.target, "windows") then Windows
                                     else if Contains(entry.target, "apple-darwin") then Macos else Linux)
  {
    hide Contains, AcceptableTexts, AcceptableFlavor, AcceptableLauncher, AcceptableFiles, CacheKey, LegacyCacheKey;
  }

  /** Every published entry of a sound store is an entry, under its own key, with an acceptable release:
      signed as its platform demands and ready, or unsigned and ready or of a 0.x version. */
  lemma PublishedIsAcceptable(codec: Codec, allowDirty: bool, c: Contents, key: string) returns (v: Artifact)
    requires Sound(codec, allowDirty, c) && key in c.entries
    ensures IsEntry(codec, key, c.entries[key], allowDirty, v)
    ensures AcceptableSigning(v.entry.target, v.release.payload, v.entry.releaseReady)
    ensures v.entry.releaseReady
            || (v.release.payload.unsigned && v.release.payload.signing.None? && Split(v.entry.version, '.')[0] == "0")
  {
    hide Validate, IsEntry, AcceptableSigning, Split;
    assert EntryIsSound(codec, allowDirty, key, c.entries[key]);
    v := Validate(codec, key, c.entries[key], false, allowDirty).value;
    ValidExactly(codec, key, c.entries[key], false, allowDirty, v);
    EntryIsSigned(codec, key, c.entries[key], allowDirty, v);
  }

  lemma EntryIsSigned(codec: Codec, name: string, files: Dir, allowDirty: bool, v: Artifact)
    requires IsEntry(codec, name, files, allowDirty, v)
    ensures AcceptableSigning(v.entry.target, v.release.payload, v.entry.releaseReady)
  {
    hide AcceptableSigning, ZipVerdict;
  }

  // ---------------------------------------------------------------- what an import has done

  /** The entry is published under its key, as it was or with these files; it is the active one of its
      flavor; and no other key and no other flavor is touched. */
  ghost predicate IsPublished(codec: Codec, before: Contents, after: Contents, v: Artifact, files: Dir) {
    var key, flavor := v.entry.cacheKey, v.entry.clientFlavor.id;
    && after.entries.Keys == before.entries.Keys + {key} && after.active.Keys == before.active.Keys + {flavor}
    && (forall other | other in before.entries :: after.entries[other] == before.entries[other])
    && (key !in before.entries ==> after.entries[key] == files)
    && after.active[flavor] == codec.pointerText(key)
    && (forall other | other in before.active && other != flavor :: after.active[other] == before.active[other])
  }

  lemma PublishedIsActive(codec: Codec, allowDirty: bool, before: Contents, after: Contents, v: Artifact, files: Dir)
    requires Lawful(codec) && IsPublished(codec, before, after, v, files)
    requires IsFlavorId(v.entry.clientFlavor.id) && IsCacheKey(v.entry.cacheKey)
    requires v.entry.cacheKey in after.entries
    requires var held := Validate(codec, v.entry.cacheKey, after.entries[v.entry.cacheKey], false, allowDirty);
             held.Ok? && held.value.entry.clientFlavor == v.entry.clientFlavor
    ensures ActiveForFlavor(codec, allowDirty, after, v.entry.clientFlavor.id)
         == Ok(Some(Validate(codec, v.entry.cacheKey, after.entries[v.entry.cacheKey], false, allowDirty).value))
  {
    hide Validate, IsFlavorId, IsCacheKey, IsSha256;
    assert codec.pointerOf(codec.pointerText(v.entry.cacheKey)) == Some(v.entry.cacheKey);
  }

  /** A cache entry that is imported is published, from its three files, and active: whoever asks for the
      active entry of its flavor gets this entry and this release. */
  lemma ImportedIsActive(codec: Codec, allowDirty: bool, c: Contents, name: string, files: Dir, ready: bool)
    requires Lawful(codec) && CacheImport(codec, allowDirty, c, name, files, ready).0.Ok?
    ensures var (result, after) := CacheImport(codec, allowDirty, c, name, files, ready);
      var v := result.value;
      && IsEntry(codec, name, files, false, v) && (ready ==> v.entry.releaseReady)
      && IsPublished(codec, c, after, v, map[CACHE_ENTRY := files[CACHE_ENTRY],
                                             v.entry.manifestFile := files[v.entry.manifestFile],
                                             v.entry.artifactFile := files[v.entry.artifactFile]])
      && var active := ActiveForFlavor(codec, allowDirty, after, v.entry.clientFlavor.id);
         && active.Ok? && active.value.Some?
         && active.value.value.entry == v.entry && active.value.value.release == v.release
  {
    hide Validate, Eligible, IsEntry, IsCacheKey, IsFlavorId, CopiedFiles, IsPublished, ActiveForFlavor, IsSha256;
    var (result, after) := CacheImport(codec, allowDirty, c, name, files, ready);
    var v := result.value;
    ValidExactly(codec, name, files, ready, false, v);
    ValidTells(codec, name, files, ready, false);
    CopyIsValid(codec, name, files, ready, allowDirty);
    CopiesThree(files, v.entry);
    var base := if name in c.entries then c else c.(entries := c.entries[name := CopiedFiles(files, v.entry)]);
    ActivatedIsPublished(codec, c, base, v, CopiedFiles(files, v.entry));
    PublishedIsActive(codec, allowDirty, c, after, v, CopiedFiles(files, v.entry));
  }

  lemma CopiesThree(files: Dir, entry: CacheEntry)
    requires CACHE_ENTRY in files && entry.manifestFile in files && entry.artifactFile in files
    ensures CopiedFiles(files, entry) == map[CACHE_ENTRY := files[CACHE_ENTRY],
                                             entry.manifestFile := files[entry.manifestFile],
                                             entry.artifactFile := files[entry.artifactFile]]
  {
  }

  lemma ActivatedIsPublished(codec: Codec, before: Contents, base: Contents, v: Artifact, files: Dir)
    requires var key := v.entry.cacheKey;
      base == if key in before.entries then before else before.(entries := before.entries[key := files])
    ensures IsPublished(codec, before, Activated(codec, base, v.entry.clientFlavor.id, v.entry.cacheKey), v, files)
  {
  }

  /** A release directory that is imported is published and active, with just the manifest that the
      directory holds. */
  lemma ImportedReleaseIsActive(codec: Codec, allowDirty: bool, c: Contents, files: Dir)
    requires Lawful(codec) && ReleaseImport(codec, allowDirty, c, files).0.Ok?
    ensures var (result, after) := ReleaseImport(codec, allowDirty, c, files);
      var v := result.value;
      && RELEASE_MANIFEST in files && codec.payloadOf(files[RELEASE_MANIFEST]) == Some(v.release.payload)
      && v.entry.cacheKey in after.entries
      && IsEntry(codec, v.entry.cacheKey, after.entries[v.entry.cacheKey], allowDirty, v)
      && IsPublished(codec, c, after, v, after.entries[v.entry.cacheKey])
      && ActiveForFlavor(codec, allowDirty, after, v.entry.clientFlavor.id) == Ok(Some(v))
  {
    hide Validate, IsEntry, IsCacheKey, IsFlavorId, IsPublished, ActiveForFlavor, IsSha256, ReadRequest, ReleaseImport,
         Activated;
    ReleaseImportDone(codec, allowDirty, c, files);
    var (result, after) := ReleaseImport(codec, allowDirty, c, files);
    var v, request := result.value, ReadRequest(codec, allowDirty, files).value;
    var key := request.key;
    var held := after.entries[key];
    ValidExactly(codec, key, held, false, allowDirty, v);
    ValidTells(codec, key, held, false, allowDirty);
    ActivatedIsPublished(codec, c, if key in c.entries then c else c.(entries := c.entries[key := held]), v, held);
    PublishedIsActive(codec, allowDirty, c, after, v, held);
  }

  lemma ReleaseImportDone(codec: Codec, allowDirty: bool, c: Contents, files: Dir)
    requires ReleaseImport(codec, allowDirty, c, files).0.Ok?
    ensures ReadRequest(codec, allowDirty, files).Ok?
    ensures var (result, after) := ReleaseImport(codec, allowDirty, c, files);
      var request := ReadRequest(codec, allowDirty, files).value;
      && RELEASE_MANIFEST in files && codec.payloadOf(files[RELEASE_MANIFEST]) == Some(request.payload)
      && result.value.release.payload == request.payload && request.payload.clientFlavor == Some(request.flavor)
      && request.key in after.entries
      && Validate(codec, request.key, after.entries[request.key], false, allowDirty) == result
      && after == Activated(codec, if request.key in c.entries then c
                                   else c.(entries := c.entries[request.key := after.entries[request.key]]),
                            request.flavor.id, request.key)
  {
    hide Validate, IsCacheKey, IsFlavorId, StagedArchive, StagedFiles, EntryOf, CacheKey, PlatformOf, IsZeroMajor,
         DirtyIsAllowed;
  }

  /** The sizes of what is staged for a release are within their bounds. */
  ghost predicate FitsBounds(codec: Codec, request: Request, zip: Bytes) {
    && |zip| <= 0x8000_0000 && |codec.entryText(EntryOf(codec, request, zip))| <= 64 * 1024
    && |codec.releaseText(ReleaseOf(codec, request, zip))| <= 1024 * 1024
  }

  /** An unsigned release is ready if it is clean and for Linux. */
  ghost predicate IsReadyUnsigned(p: PayloadManifest) {
    !p.dirty && !Contains(p.target, "windows") && !Contains(p.target, "apple-darwin")
  }

  /** The directory holds an unsigned, acceptable release that may be distributed, and all its files as
      listed, and everything fits. */
  ghost predicate IsImportable(codec: Codec, allowDirty: bool, files: Dir, bytes: Bytes, p: PayloadManifest) {
    && p.unsigned && AcceptablePayload(p, IsReadyUnsigned(p), allowDirty)
    && (IsReadyUnsigned(p) || Split(p.version, '.')[0] == "0")
    && AllMatch(codec, files, p.files)
    && (forall i | 0 <= i < |p.files| :: p.files[i].path != "release-manifest.json" && p.files[i].size <= 0x8000_0000)
    && IsBasename(Stem(p) + ".zip") && IsBasename(Stem(p) + ".release.json") && (exists arch :: IsArch(arch, p.target))
    && var written := WrittenEntries(codec, files, Stem(p), p.files, bytes);
       written.Ok? && FitsBounds(codec, RequestFor(codec, p, bytes), codec.zipText(written.value))
  }

  ghost function RequestFor(codec: Codec, p: PayloadManifest, bytes: Bytes): Request
    requires p.clientFlavor.Some?
  {
    Request(p, bytes, p.clientFlavor.value, CacheKey(codec, p.clientFlavor.value, p), IsReadyUnsigned(p))
  }

  lemma PlatformKnown(p: PayloadManifest)
    requires p.unsigned && PlatformOf(p.target).Ok?
    ensures ExpectedReady(PlatformOf(p.target).value, p) == IsReadyUnsigned(p)
  {
    hide Contains;
  }

  lemma AcceptableHasPlatform(p: PayloadManifest, ready: bool, allowDirty: bool)
    requires AcceptablePayload(p, ready, allowDirty)
    ensures PlatformOf(p.target).Ok? && IsFlavorId(p.clientFlavor.value.id)
    ensures p.unsigned <==> p.signing.None?
  {
    hide Contains, AcceptableTexts, AcceptableLauncher, AcceptableFiles, IsFlavorId;
  }

  /** A request is made of a manifest exactly when it is unsigned, names its flavor, may be distributed, and
      is dirty only where that is allowed. */
  lemma RequestExactly(codec: Codec, allowDirty: bool, files: Dir, p: PayloadManifest)
    requires Lawful(codec) && RELEASE_MANIFEST in files && |files[RELEASE_MANIFEST]| <= 1024 * 1024
    requires codec.payloadOf(files[RELEASE_MANIFEST]) == Some(p)
    ensures ReadRequest(codec, allowDirty, files).Ok? <==>
      && DirtyIsAllowed(p, allowDirty) && p.unsigned && p.clientFlavor.Some? && IsFlavorId(p.clientFlavor.value.id)
      && PlatformOf(p.target).Ok? && (IsReadyUnsigned(p) || (p.signing.None? && IsZeroMajor(p.version)))
    ensures ReadRequest(codec, allowDirty, files).Ok? ==>
      ReadRequest(codec, allowDirty, files).value == RequestFor(codec, p, files[RELEASE_MANIFEST])
  {
    hide DirtyIsAllowed, IsFlavorId, PlatformOf, IsZeroMajor, IsReadyUnsigned, CacheKey, IsCacheKey, ExpectedReady,
         IsSha256;
    if p.clientFlavor.Some? {
      CacheKeyIsCacheKey(codec, p.clientFlavor.value, p);
    }
    if p.unsigned && PlatformOf(p.target).Ok? {
      PlatformKnown(p);
    }
  }

  /** The entry that is staged says the same as its manifest: it is acceptable exactly when that is. */
  lemma StagedIsAcceptable(codec: Codec, allowDirty: bool, p: PayloadManifest, bytes: Bytes, zip: Bytes)
    requires p.clientFlavor.Some?
    ensures AcceptableRelease(codec, EntryOf(codec, RequestFor(codec, p, bytes), zip), p, allowDirty) <==>
      AcceptablePayload(p, IsReadyUnsigned(p), allowDirty)
  {
    hide AcceptablePayload, IsReadyUnsigned, CacheKey, LegacyCacheKey;
  }

  /** The archive that is staged is the one that is written, if that is not too large. */
  lemma ArchiveIsWritten(codec: Codec, files: Dir, request: Request)
    requires '/' !in ArtifactFile(request.payload)
    ensures
      var p := request.payload;
      var written := WrittenEntries(codec, files, Stem(p), p.files, request.payloadBytes);
      && (StagedArchive(codec, files, request).Ok? <==> written.Ok? && |codec.zipText(written.value)| <= 0x8000_0000)
      && (StagedArchive(codec, files, request).Ok? ==>
            StagedArchive(codec, files, request).value == codec.zipText(written.value))
  {
    hide WrittenEntries, ArtifactFile;
  }

  lemma ImportsByStaging(codec: Codec, allowDirty: bool, c: Contents, files: Dir)
    requires ReadRequest(codec, allowDirty, files).Ok? ==> ReadRequest(codec, allowDirty, files).value.key !in c.entries
    ensures ReleaseImport(codec, allowDirty, c, files).0.Ok? <==>
      && ReadRequest(codec, allowDirty, files).Ok?
      && var request := ReadRequest(codec, allowDirty, files).value;
         && StagedArchive(codec, files, request).Ok?
         && var zip := StagedArchive(codec, files, request).value;
            CheckStaged(codec, allowDirty, request, zip, StagedFiles(codec, request, zip)).Ok?
  {
    hide ReadRequest, StagedArchive, CheckStaged, StagedFiles;
  }

  /** A release directory whose key is not yet published is imported exactly when its manifest is that of an
      acceptable unsigned release and it holds the files as listed: the staged entry never fails for a
      reason of its own. */
  lemma FreshReleaseIsImportedExactly(codec: Codec, allowDirty: bool, c: Contents, files: Dir, p: PayloadManifest)
    requires Lawful(codec) && RELEASE_MANIFEST in files && |files[RELEASE_MANIFEST]| <= 1024 * 1024
    requires codec.payloadOf(files[RELEASE_MANIFEST]) == Some(p)
    requires p.clientFlavor.Some? ==> CacheKey(codec, p.clientFlavor.value, p) !in c.entries
    ensures ReleaseImport(codec, allowDirty, c, files).0.Ok? <==>
      IsImportable(codec, allowDirty, files, files[RELEASE_MANIFEST], p)
  {
    hide ReadRequest, ReleaseImport, StagedArchive, CheckStaged, StagedFiles, WrittenEntries, AcceptablePayload,
         CacheKey, IsBasename, Stem, PlatformOf, ArchOf, EntryOf, ReleaseOf, IsReadyUnsigned, ReleaseShape, IsArch,
         AllMatch, AcceptableRelease, IsFlavorId, IsZeroMajor, DirtyIsAllowed, Split, FitsBounds, IsSha256;
    var bytes := files[RELEASE_MANIFEST];
    RequestExactly(codec, allowDirty, files, p);
    ImportsByStaging(codec, allowDirty, c, files);
    if AcceptablePayload(p, IsReadyUnsigned(p), allowDirty) {
      AcceptableIsRequested(p, allowDirty);
    }
    if ReadRequest(codec, allowDirty, files).Ok? {
      StagedExactly(codec, allowDirty, files, p);
    }
  }

  lemma AcceptableIsRequested(p: PayloadManifest, allowDirty: bool)
    requires AcceptablePayload(p, IsReadyUnsigned(p), allowDirty)
    ensures p.clientFlavor.Some? && IsFlavorId(p.clientFlavor.value.id) && PlatformOf(p.target).Ok?
    ensures p.unsigned ==> p.signing.None? && DirtyIsAllowed(p, allowDirty)
    ensures IsZeroMajor(p.version) <==> Split(p.version, '.')[0] == "0"
  {
    hide IsFlavorId, PlatformOf, IsReadyUnsigned, AcceptableTexts, AcceptableLauncher, AcceptableFiles, Split;
    AcceptableHasPlatform(p, IsReadyUnsigned(p), allowDirty);
  }

  lemma StagedExactly(codec: Codec, allowDirty: bool, files: Dir, p: PayloadManifest)
    requires Lawful(codec) && RELEASE_MANIFEST in files && |files[RELEASE_MANIFEST]| <= 1024 * 1024
    requires codec.payloadOf(files[RELEASE_MANIFEST]) == Some(p) && ReadRequest(codec, allowDirty, files).Ok?
    ensures var request := ReadRequest(codec, allowDirty, files).value;
      (&& StagedArchive(codec, files, request).Ok?
       && var zip := StagedArchive(codec, files, request).value;
          CheckStaged(codec, allowDirty, request, zip, StagedFiles(codec, request, zip)).Ok?)
      <==> IsImportable(codec, allowDirty, files, files[RELEASE_MANIFEST], p)
  {
    hide ReadRequest, StagedArchive, CheckStaged, StagedFiles, WrittenEntries, AcceptablePayload, CacheKey,
         Stem, PlatformOf, ArchOf, EntryOf, ReleaseOf, IsReadyUnsigned, ReleaseShape, IsArch, AllMatch,
         AcceptableRelease, IsFlavorId, IsZeroMajor, DirtyIsAllowed, Split, IsSha256, ZipVerdict;
    var bytes := files[RELEASE_MANIFEST];
    RequestExactly(codec, allowDirty, files, p);
    var request := RequestFor(codec, p, bytes);
    if '/' in ArtifactFile(p) {
      NoSlash(codec, files, request);
    } else {
      ArchiveIsWritten(codec, files, request);
      WritesExactly(codec, files, Stem(p), p.files, bytes);
      var written := WrittenEntries(codec, files, Stem(p), p.files, bytes);
      if StagedArchive(codec, files, request).Ok? {
        var zip := codec.zipText(written.value);
        StagedIsValidExactly(codec, allowDirty, files);
        StagedIsAcceptable(codec, allowDirty, p, bytes, zip);
        ShapeExactly(codec, EntryOf(codec, request, zip), p, allowDirty);
        SomeArch(p.target);
      }
    }
    if AcceptablePayload(p, IsReadyUnsigned(p), allowDirty) {
      AcceptableIsRequested(p, allowDirty);
    }
  }

  lemma SomeArch(target: string)
    ensures ArchOf(target).Ok? <==> exists arch :: IsArch(arch, target)
  {
    hide ArchOf, IsArch;
    forall arch
      ensures ArchOf(target) == Ok(arch) <==> IsArch(arch, target)
    {
      ArchExactly(target, arch);
    }
  }

  lemma NoSlash(codec: Codec, files: Dir, request: Request)
    requires '/' in ArtifactFile(request.payload)
    ensures StagedArchive(codec, files, request).Err? && !IsBasename(Stem(request.payload) + ".zip")
  {
    hide WrittenEntries, Stem;
  }

  // ---------------------------------------------------------------- which source, and which entry is active

  /** A source that holds a cache entry is imported as one, whatever else it holds; otherwise one that holds a
      release manifest is imported as a release; and anything else is refused. */
  lemma SourceKindDecides(codec: Codec, allowDirty: bool, c: Contents, name: string, files: Dir)
    ensures var imported := RuntimeImport(codec, allowDirty, c, name, files);
      && ("cache-entry.json" in files ==> imported == CacheImport(codec, allowDirty, c, name, files, false))
      && ("cache-entry.json" !in files && "release-manifest.json" in files ==>
            imported == ReleaseImport(codec, allowDirty, c, files))
      && ("cache-entry.json" !in files && "release-manifest.json" !in files ==>
            imported == (Err(UnsupportedRuntimeSource), c))
  {
    hide CacheImport, ReleaseImport;
  }

  /** In any store, sound or not, the active entry of a flavor is found exactly when its pointer reads as the
      key of an entry that is there, under that key, and of that flavor. */
  lemma ActiveExactly(codec: Codec, allowDirty: bool, c: Contents, flavor: string, v: Artifact)
    ensures ActiveForFlavor(codec, allowDirty, c, flavor) == Ok(Some(v)) <==>
      && IsFlavorId(flavor) && flavor in c.active && |c.active[flavor]| <= 4096
      && codec.pointerOf(c.active[flavor]) == Some(v.entry.cacheKey)
      && v.entry.cacheKey in c.entries && v.entry.clientFlavor.id == flavor
      && IsEntry(codec, v.entry.cacheKey, c.entries[v.entry.cacheKey], allowDirty, v)
    ensures ActiveForFlavor(codec, allowDirty, c, flavor) == Ok(None) <==> IsFlavorId(flavor) && flavor !in c.active
  {
    hide Validate, IsEntry, IsCacheKey, IsFlavorId;
    if flavor in c.active && codec.pointerOf(c.active[flavor]).Some? {
      var key := codec.pointerOf(c.active[flavor]).value;
      if key in c.entries {
        ValidExactly(codec, key, c.entries[key], false, allowDirty, v);
        EntryHasItsKey(codec, key, c.entries[key], allowDirty, v);
      }
    }
  }

  lemma EntryHasItsKey(codec: Codec, name: string, files: Dir, allowDirty: bool, v: Artifact)
    ensures IsEntry(codec, name, files, allowDirty, v) ==> v.entry.cacheKey == name && IsCacheKey(name)
  {
    hide ZipVerdict, AcceptableRelease;
  }
}
