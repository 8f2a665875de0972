/** The ClientFlavor artifact store on a filesystem whose every call may fail, or stop the process.
    `moments` collects what was published at any moment of the life of the store. */
module ArtifactStore {
  import opened Wrappers
  import opened Text
  import opened Release
  import opened ReleaseArchive
  import opened ArtifactCache
  import opened ArtifactImports
  import opened ArtifactListing
  import opened Ordered

  /** How a filesystem call ends.  A failing write leaves `torn` behind; a garbling one reports success
      although the file holds `torn`, as when the source changes while it is copied. */
  datatype Ending = Works | Fails(torn: Bytes) | Garbles(torn: Bytes)

  datatype Source = Source(name: string, files: Dir)

  /** No published entry changes from one moment to a later one. */
  ghost predicate EntriesKept(history: seq<Contents>) {
    forall i, j, key | 0 <= i <= j < |history| && key in history[i].entries ::
      key in history[j].entries && history[j].entries[key] == history[i].entries[key]
  }

  lemma NothingToKeep(c: Contents)
    ensures EntriesKept([c])
  {
  }

  lemma KeptByGrowth(history: seq<Contents>, next: Contents)
    requires history != [] && EntriesKept(history)
    requires forall key | key in history[|history| - 1].entries ::
      key in next.entries && next.entries[key] == history[|history| - 1].entries[key]
    ensures EntriesKept(history + [next])
  {
    var last := |history| - 1;
    forall i, key | 0 <= i <= last && key in history[i].entries
      ensures key in next.entries && next.entries[key] == history[i].entries[key]
    {
      assert history[last].entries[key] == history[i].entries[key];
    }
  }

  class ClientFlavorArtifactStore {
    const codec: Codec
    const allowDirty: bool
    const script: nat -> Ending
    var clock: nat
    var contents: Contents
    var staging: map<nat, Staging>
    var temps: map<(string, nat), Bytes>
    ghost var history: seq<Contents>
    ghost var faulty: bool

    /** The history ends with what is published now, and entries were only ever added. */
    ghost predicate Traced()
      reads this
    {
      history != [] && history[|history| - 1] == contents && EntriesKept(history)
    }

    /** At every moment so far the published part was sound. */
    ghost predicate Valid()
      reads this
    {
      Lawful(codec) && Traced() && forall c | c in history :: Sound(codec, allowDirty, c)
    }

    /** Opens a store on what is there: nothing at first, and later whatever a run left behind. */
    constructor (codec: Codec, allowDirty: bool, contents: Contents, staging: map<nat, Staging>, script: nat -> Ending)
      requires Lawful(codec) && Sound(codec, allowDirty, contents)
      ensures Valid() && this.contents == contents && history == [contents] && !faulty && this.staging == staging
      ensures this.codec == codec && this.allowDirty == allowDirty && this.script == script && clock == 0
    {
      this.codec, this.allowDirty, this.script, this.clock := codec, allowDirty, script, 0;
      this.contents, this.staging, this.temps := contents, staging, map[];
      this.history, this.faulty := [contents], false;
      NothingToKeep(contents);
    }

    // -------------------------------------------------------------- filesystem calls

    /** The next call of the script.  As it stands, one that touches nothing of the model: creating the
        roots, opening, reading, syncing, asking whether something exists. */
    method Call() returns (e: Ending)
      modifies this`clock, this`faulty
      ensures e == script(old(clock)) && clock == old(clock) + 1 && faulty == (old(faulty) || e != Works)
    {
      e := script(clock);
      clock := clock + 1;
      faulty := faulty || e != Works;
    }

    method CreateStaging(nonce: nat) returns (ok: bool)
      modifies this`clock, this`faulty, this`staging
      ensures clock == old(clock) + 1 && faulty == (old(faulty) || script(old(clock)) != Works)
      ensures ok == (!script(old(clock)).Fails? && nonce !in old(staging))
      ensures staging == if ok then old(staging)[nonce := Empty] else old(staging)
      ensures Others(staging, nonce) == old(Others(staging, nonce))
    {
      var e := Call();
      ok := !e.Fails? && nonce !in staging;
      if ok {
        staging := staging[nonce := Empty];
      }
    }

    method RemoveStaging(nonce: nat) returns (ok: bool)
      modifies this`clock, this`faulty, this`staging
      ensures clock == old(clock) + 1 && faulty == (old(faulty) || script(old(clock)) != Works)
      ensures ok == !script(old(clock)).Fails?
      ensures staging == if ok then old(staging) - {nonce} else old(staging)
      ensures Others(staging, nonce) == old(Others(staging, nonce))
    {
      var e := Call();
      ok := !e.Fails?;
      if ok {
        staging := staging - {nonce};
      }
    }

    method CreateStagedEntry(nonce: nat, key: string) returns (ok: bool)
      modifies this`clock, this`faulty, this`staging
      ensures clock == old(clock) + 1 && faulty == (old(faulty) || script(old(clock)) != Works)
      ensures ok == !script(old(clock)).Fails?
      ensures staging == if ok then old(staging)[nonce := Holds(key, map[])] else old(staging)
      ensures Others(staging, nonce) == old(Others(staging, nonce))
    {
      var e := Call();
      ok := !e.Fails?;
      if ok {
        staging := staging[nonce := Holds(key, map[])];
      }
    }

    /** Writes one file of the staged entry; a name with a separator in it has no directory to go to. */
    method PutStaged(nonce: nat, name: string, bytes: Bytes) returns (ok: bool, ghost left: Bytes)
      requires nonce in staging && staging[nonce].Holds?
      modifies this`clock, this`faulty, this`staging
      ensures clock == old(clock) + 1 && faulty == (old(faulty) || script(old(clock)) != Works)
      ensures ok == (!script(old(clock)).Fails? && '/' !in name)
      ensures nonce in staging && staging[nonce].Holds? && staging[nonce].key == old(staging[nonce].key)
      ensures Others(staging, nonce) == old(Others(staging, nonce))
      ensures ok ==> staging[nonce].files == old(staging[nonce].files)[name := left] && (!faulty ==> left == bytes)
    {
      var e := Call();
      ok := !e.Fails? && '/' !in name;
      var written := if e.Works? then bytes else e.torn;
      left := written;
      if ok || e.Fails? {
        staging := staging[nonce := Holds(staging[nonce].key, staging[nonce].files[name := written])];
      }
    }

    /** `rename` of the staged entry to its place among the entries: atomic, and refused when an entry
        is there. */
    method Publish(nonce: nat) returns (ok: bool)
      requires nonce in staging && staging[nonce].Holds?
      modifies this`clock, this`faulty, this`staging, this`contents, this`history
      ensures old(faulty) ==> faulty
      ensures var staged := old(staging[nonce]);
        contents == if ok then old(contents).(entries := old(contents).entries[staged.key := staged.files])
                    else old(contents)
      ensures ok ==> old(staging[nonce]).key !in old(contents).entries
      ensures history == old(history) + [contents]
      ensures Others(staging, nonce) == old(Others(staging, nonce))
      ensures !faulty ==> ok == (old(staging[nonce]).key !in old(contents).entries)
    {
      var e := Call();
      var staged := staging[nonce];
      ok := !e.Fails? && staged.key !in contents.entries;
      if ok {
        staging := staging[nonce := Empty];
        contents := contents.(entries := contents.entries[staged.key := staged.files]);
      }
      history := history + [contents];
    }

    method RemovePointer(flavor: string) returns (ok: bool)
      modifies this`clock, this`faulty, this`contents, this`history
      ensures old(faulty) ==> faulty
      ensures contents == if ok then old(contents).(active := old(contents).active - {flavor}) else old(contents)
      ensures history == old(history) + [contents]
      ensures !faulty ==> ok
    {
      var e := Call();
      ok := !e.Fails?;
      if ok {
        contents := contents.(active := contents.active - {flavor});
      }
      history := history + [contents];
    }

    /** `rename` of the finished temporary file to the pointer's place: atomic. */
    method PublishPointer(flavor: string, nonce: nat) returns (ok: bool)
      requires (flavor, nonce) in temps
      modifies this`clock, this`faulty, this`contents, this`history, this`temps
      ensures old(faulty) ==> faulty
      ensures var pointer := old(temps)[(flavor, nonce)];
        contents == if ok then old(contents).(active := old(contents).active[flavor := pointer]) else old(contents)
      ensures history == old(history) + [contents]
      ensures !faulty ==> ok
    {
      var e := Call();
      ok := !e.Fails?;
      if ok {
        contents := contents.(active := contents.active[flavor := temps[(flavor, nonce)]]);
        temps := temps - {(flavor, nonce)};
      }
      history := history + [contents];
    }

    // -------------------------------------------------------------- the active pointer

    /** The temporary file of a new pointer is written and synced. */
    method WriteTemp(flavor: string, key: string, nonce: nat) returns (ok: bool)
      modifies this`clock, this`faulty, this`temps
      ensures old(faulty) ==> faulty
      ensures ok ==> (flavor, nonce) in temps && temps[(flavor, nonce)] == codec.pointerText(key)
      ensures !faulty ==> ok
    {
      var written := Call();
      if written.Fails? {
        temps := temps[(flavor, nonce) := written.torn];
        return false;
      }
      temps := temps[(flavor, nonce) := codec.pointerText(key)];
      var synced := Call();
      ok := !synced.Fails?;
    }

    /** Since the old state, the published part was always one of three: as it was, without the pointer
        of the flavor, or with the new pointer. */
    twostate predicate OnlyPointerMoved(flavor: string, key: string)
      reads this
    {
      && PointerMoved(codec, old(contents), contents, flavor, key) && old(history) <= history
      && forall i | |old(history)| <= i < |history| :: PointerMoved(codec, old(contents), history[i], flavor, key)
    }

    /** `write_active_pointer`: a temporary file is written and synced, the old pointer removed, and the
        new one renamed into place.  A reader sees the old pointer, none, or the new one. */
    method WriteActivePointer(flavor: string, key: string, nonce: nat) returns (r: Result<(), DistributionError>)
      requires Traced()
      modifies this`clock, this`faulty, this`contents, this`history, this`temps
      ensures Traced() && (old(faulty) ==> faulty)
      ensures OnlyPointerMoved(flavor, key)
      ensures r.Ok? ==> contents == Activated(codec, old(contents), flavor, key)
      ensures r.Ok? ==> IsFlavorId(flavor) && IsCacheKey(key)
      ensures !faulty && IsFlavorId(flavor) && IsCacheKey(key) ==> r.Ok?
    {
      hide EntriesKept, IsFlavorId, IsCacheKey;
      if !IsFlavorId(flavor) {
        return Err(InvalidClientFlavorId);
      }
      if !IsCacheKey(key) {
        return Err(InvalidCacheKey);
      }
      var written := WriteTemp(flavor, key, nonce);
      if !written {
        return Err(Io);
      }
      var probe := Call();
      if !probe.Fails? && flavor in contents.active {
        ghost var before := history;
        var removed := RemovePointer(flavor);
        KeptByGrowth(before, contents);
        if !removed {
          return Err(Io);
        }
      }
      ghost var between, dropped := history, contents;
      var published := PublishPointer(flavor, nonce);
      KeptByGrowth(between, contents);
      ActivatedAnyway(codec, old(contents), dropped, flavor, key);
      r := if published then Ok(()) else Err(PublishActivePointer);
    }

    // -------------------------------------------------------------- publishing

    /** What an import did: every new moment is within its change, and on success the change is done. */
    twostate predicate Imported(new change: Option<Change>, ok: bool)
      reads this
    {
      && old(history) <= history
      && (forall i | |old(history)| <= i < |history| :: Within(codec, old(contents), history[i], change))
      && Within(codec, old(contents), contents, change)
      && (ok ==> change.Some? && contents == Done(codec, old(contents), change.value))
    }

    /** Publishes the staged entry, if it is taken for new, and then sets the pointer.  When an entry is
        there although it was taken for new, nothing happens. */
    method PublishAndActivate(key: string, flavor: string, isNew: bool, nonce: nat, pointerNonce: nat,
                              ghost change: Change)
      returns (r: Result<(), DistributionError>)
      requires Valid() && IsFlavorId(flavor) && change.key == key && change.flavor == flavor
      requires isNew || key in contents.entries
      requires (isNew && key in contents.entries) || IsGoodChange(codec, allowDirty, contents, change)
      requires isNew ==> nonce in staging && staging[nonce] == Holds(key, change.files)
      modifies this
      ensures Valid() && (old(faulty) ==> faulty)
      ensures Imported(Some(change), r.Ok?)
      ensures Others(staging, nonce) == old(Others(staging, nonce))
      ensures !faulty && !(isNew && key in old(contents).entries) ==>
        r.Ok? && (nonce in staging ==> !isNew && nonce in old(staging))
    {
      hide Sound, Lawful, IsCacheKey, IsFlavorId, IsGoodChange, EntriesKept;
      ghost var c0, h0 := contents, history;
      if isNew {
        var published := Publish(nonce);
        KeptByGrowth(h0, contents);
        assert forall c | c in history :: c in h0 || c == contents;
        if !published {
          return Err(PublishCacheEntry);
        }
        var cleaned := RemoveStaging(nonce);
      }
      GoodKey(codec, allowDirty, c0, change);
      ghost var c1, h1 := contents, history;
      DoneIsWithin(codec, c0, c1, change);
      r := WriteActivePointer(flavor, key, pointerNonce);
      forall i | |h0| <= i < |history|
        ensures Within(codec, c0, history[i], Some(change)) && Sound(codec, allowDirty, history[i])
      {
        assert i < |h1| ==> history[i] == h1[i];
        WithinIsSound(codec, allowDirty, c0, history[i], Some(change));
      }
      assert forall i | 0 <= i < |h0| :: history[i] == h0[i];
    }

    // -------------------------------------------------------------- importing a cache entry

    /** Copies the three files of a validated entry to a new staging directory.  When it succeeds, what
        is staged has passed verification; without a fault it is a faithful copy.  When it fails, the
        staging directory stays where it is, unless the copy turned out to be of something else. */
    method StageCopy(v: Artifact, files: Dir, nonce: nat) returns (r: Result<(), DistributionError>)
      requires Validate(codec, v.entry.cacheKey, files, false, false) == Ok(v)
      modifies this`clock, this`faulty, this`staging
      ensures old(faulty) ==> faulty
      ensures Others(staging, nonce) == old(Others(staging, nonce))
      ensures r.Ok? ==>
        && nonce in staging && staging[nonce].Holds? && staging[nonce].key == v.entry.cacheKey
        && var copied := Validate(codec, v.entry.cacheKey, staging[nonce].files, false, allowDirty);
           copied.Ok? && copied.value.entry == v.entry && copied.value.release == v.release
      ensures !faulty ==>
        && r.Ok? && CACHE_ENTRY in files && v.entry.manifestFile in files && v.entry.artifactFile in files
        && staging[nonce].files == CopiedFiles(files, v.entry)
      ensures FirstCopyFails(old(clock)) && nonce !in old(staging) ==> r == Err(Io) && nonce in staging
    {
      hide Validate, Eligible, IsBasename, Others, FirstCopyFails, CopiedFiles;
      ghost var key := v.entry.cacheKey;
      ValidTells(codec, key, files, false, false);
      ValidNames(codec, key, files, false, false);
      CopyIsValid(codec, key, files, false, allowDirty);
      var made := MakeStaging(v.entry.cacheKey, nonce);
      if !made { return Err(Io); }
      r := CopyFiles(v, files, nonce);
      if r.Err? { return; }
      var read := Call();
      if read.Fails? { return Err(Io); }
      var copied := Validate(codec, v.entry.cacheKey, staging[nonce].files, false, allowDirty);
      if copied.Err? {
        return Err(copied.error);
      }
      if copied.value.entry != v.entry || copied.value.release != v.release {
        var removed := RemoveStaging(nonce);
        return Err(CopyVerificationFailed);
      }
    }

    /** A new staging directory with an empty entry directory in it; one of that name goes first. */
    method MakeStaging(key: string, nonce: nat) returns (ok: bool)
      modifies this`clock, this`faulty, this`staging
      ensures old(faulty) ==> faulty
      ensures Others(staging, nonce) == old(Others(staging, nonce))
      ensures ok ==> nonce in staging && staging[nonce] == Holds(key, map[])
      ensures !faulty ==> ok
      ensures FirstCopyFails(old(clock)) && nonce !in old(staging) ==> ok && script(clock).Fails?
    {
      hide Others;
      var probe := Call();
      if !probe.Fails? && nonce in staging {
        var removed := RemoveStaging(nonce);
        if !removed { return false; }
      }
      ok := CreateStaging(nonce);
      if !ok { return; }
      ok := CreateStagedEntry(nonce, key);
    }

    /** The calls from `k` on make the staging directories, and then the copy of the first file fails. */
    ghost predicate FirstCopyFails(k: nat) {
      script(k) == Works && script(k + 1) == Works && script(k + 2) == Works && script(k + 3).Fails?
    }

    method CopyFiles(v: Artifact, files: Dir, nonce: nat) returns (r: Result<(), DistributionError>)
      requires CACHE_ENTRY in files && v.entry.manifestFile in files && v.entry.artifactFile in files
      requires '/' !in v.entry.manifestFile && '/' !in v.entry.artifactFile && '/' !in CACHE_ENTRY
      requires nonce in staging && staging[nonce] == Holds(v.entry.cacheKey, map[])
      modifies this`clock, this`faulty, this`staging
      ensures old(faulty) ==> faulty
      ensures Others(staging, nonce) == old(Others(staging, nonce))
      ensures nonce in staging && staging[nonce].Holds? && staging[nonce].key == v.entry.cacheKey
      ensures !faulty ==> r.Ok? && staging[nonce].files == CopiedFiles(files, v.entry)
      ensures script(old(clock)).Fails? ==> r == Err(Io)
    {
      hide Others, CopiedFiles;
      var names := [CACHE_ENTRY, v.entry.manifestFile, v.entry.artifactFile];
      ghost var left;
      for i := 0 to 3
        invariant nonce in staging && staging[nonce].Holds? && staging[nonce].key == v.entry.cacheKey
        invariant Others(staging, nonce) == old(Others(staging, nonce))
        invariant old(faulty) ==> faulty
        invariant i == 0 ==> clock == old(clock)
        invariant i > 0 ==> !script(old(clock)).Fails?
        invariant !faulty ==> staging[nonce].files == CopiedSoFar(files, names[..i])
      {
        assert names[..i + 1][..i] == names[..i];
        var put;
        put, left := PutStaged(nonce, names[i], files[names[i]]);
        if !put { return Err(Io); }
        var synced := Call();
        if synced.Fails? { return Err(Io); }
      }
      AllCopied(files, v.entry);
      r := Ok(());
    }

    /** Reads and validates the source. */
    method CheckSource(source: Source, ready: bool) returns (r: Result<Artifact, DistributionError>)
      modifies this`clock, this`faulty
      ensures old(faulty) ==> faulty
      ensures r.Ok? ==> r == CheckedSource(codec, source.name, source.files, ready)
      ensures !faulty ==> r == CheckedSource(codec, source.name, source.files, ready)
      ensures script(old(clock)) == Works && script(old(clock) + 1) == Works ==>
        r == CheckedSource(codec, source.name, source.files, ready) && clock == old(clock) + 2
    {
      hide Validate, Eligible;
      var roots := Call();
      if roots.Fails? {
        return Err(Io);
      }
      var read := Call();
      if read.Fails? {
        return Err(Io);
      }
      r := CheckedSource(codec, source.name, source.files, ready);
    }

    /** Compares the source with the published entry of its key. */
    method MatchEntry(v: Artifact) returns (r: Result<(), DistributionError>)
      requires v.entry.cacheKey in contents.entries
      modifies this`clock, this`faulty
      ensures old(faulty) ==> faulty
      ensures r.Ok? ==>
        var existing := Validate(codec, v.entry.cacheKey, contents.entries[v.entry.cacheKey], false, allowDirty);
        existing.Ok? && existing.value.entry == v.entry && existing.value.release == v.release
      ensures !faulty && r.Err? ==>
        var existing := Validate(codec, v.entry.cacheKey, contents.entries[v.entry.cacheKey], false, allowDirty);
        if existing.Err? then r.error == existing.error
        else r.error == ImmutableCacheConflict
             && (existing.value.entry != v.entry || existing.value.release != v.release)
    {
      hide Validate;
      var read := Call();
      if read.Fails? {
        return Err(Io);
      }
      var existing := Validate(codec, v.entry.cacheKey, contents.entries[v.entry.cacheKey], false, allowDirty);
      if existing.Err? {
        return Err(existing.error);
      }
      if existing.value.entry != v.entry || existing.value.release != v.release {
        return Err(ImmutableCacheConflict);
      }
      r := Ok(());
    }

    /** Nothing stands in the way of a cache import until its first copy fails. */
    ghost predicate ImportFailsToCopy(k: nat, source: Source, ready: bool) {
      && script(k) == Works && script(k + 1) == Works && script(k + 2) == Works && FirstCopyFails(k + 3)
      && CheckedSource(codec, source.name, source.files, ready).Ok?
    }

    /** `import_cache_entry`.  At every moment the published part is within one good change of what it
        was; without a fault the result and the new contents are those of `CacheImport`, and no staging
        directory is left.  A failing copy leaves one. */
    method ImportCacheEntry(source: Source, ready: bool, nonce: nat, pointerNonce: nat)
      returns (r: Result<Artifact, DistributionError>, ghost change: Option<Change>)
      requires Valid()
      modifies this
      ensures Valid() && (old(faulty) ==> faulty)
      ensures Imported(change, r.Ok?)
      ensures Others(staging, nonce) == old(Others(staging, nonce))
      ensures !faulty ==>
        (r, contents) == CacheImport(codec, allowDirty, old(contents), source.name, source.files, ready)
      ensures !faulty && nonce !in old(staging) ==> nonce !in staging
      ensures (ImportFailsToCopy(old(clock), source, ready) && source.name !in old(contents).entries
               && nonce !in old(staging)) ==> r == Err(Io) && nonce in staging && contents == old(contents)
    {
      hide Validate, Eligible, Sound, Lawful, IsCacheKey, IsFlavorId, IsGoodChange, CopiedFiles, EntriesKept, Others,
           FirstCopyFails, CheckedSource, Within, Done;
      change := None;
      WithinItself(codec, contents);
      r := CheckSource(source, ready);
      if r.Err? {
        return r, change;
      }
      var v := r.value;
      CheckedTells(codec, source.name, source.files, ready);
      var key, flavor := v.entry.cacheKey, v.entry.clientFlavor.id;
      var probe := Call();
      var isNew := probe.Fails? || key !in contents.entries;
      if isNew {
        var staged := StageCopy(v, source.files, nonce);
        if staged.Err? {
          return Err(staged.error), change;
        }
        change := Some(Change(key, staging[nonce].files, flavor));
      } else {
        var matched := MatchEntry(v);
        if matched.Err? {
          return Err(matched.error), change;
        }
        change := Some(Change(key, contents.entries[key], flavor));
      }
      if !(isNew && key in contents.entries) {
        CacheChangeIsGood(codec, allowDirty, contents, v, change.value);
      }
      var published := PublishAndActivate(key, flavor, isNew, nonce, pointerNonce, change.value);
      r := if published.Ok? then Ok(v) else Err(published.error);
      if !faulty {
        DoneIsImport(codec, allowDirty, old(contents), source.name, source.files, ready, change.value);
      }
    }

    // -------------------------------------------------------------- importing a release directory

    /** Writes the archive, the sidecar and the entry of a request to a new staging directory, and
        verifies what is there.  Without a fault it stages exactly what `StagedFiles` says. */
    method StageRelease(files: Dir, request: Request, nonce: nat) returns (r: Result<Artifact, DistributionError>)
      modifies this`clock, this`faulty, this`staging
      ensures old(faulty) ==> faulty
      ensures Others(staging, nonce) == old(Others(staging, nonce))
      ensures r.Ok? ==>
        && nonce in staging && staging[nonce].Holds? && staging[nonce].key == request.key
        && Validate(codec, request.key, staging[nonce].files, false, allowDirty) == r
        && r.value.release.payload == request.payload
      ensures !faulty && nonce !in old(staging) ==>
        var zip := StagedArchive(codec, files, request);
        if zip.Err? then r == Err(zip.error) && nonce !in staging
        else
          && r == CheckStaged(codec, allowDirty, request, zip.value, StagedFiles(codec, request, zip.value))
          && (if r.Ok? then staging[nonce].files == StagedFiles(codec, request, zip.value) else nonce !in staging)
    {
      hide Validate, Eligible, WrittenEntries, Stem, Others;
      var created := CreateStaging(nonce);
      if !created { return Err(Io); }
      created := CreateStagedEntry(nonce, request.key);
      if !created { return Err(Io); }
      r := FillStaging(files, request, nonce);
      if r.Err? {
        var removed := RemoveStaging(nonce);
      }
    }

    /** Writes the archive, and reads back what was written. */
    method StageArchive(files: Dir, request: Request, nonce: nat) returns (r: Result<Bytes, DistributionError>)
      requires nonce in staging && staging[nonce] == Holds(request.key, map[])
      modifies this`clock, this`faulty, this`staging
      ensures old(faulty) ==> faulty
      ensures Others(staging, nonce) == old(Others(staging, nonce))
      ensures nonce in staging && staging[nonce].Holds? && staging[nonce].key == request.key
      ensures r.Ok? ==> '/' !in ArtifactFile(request.payload)
      ensures !faulty ==> r == StagedArchive(codec, files, request)
      ensures !faulty && r.Ok? ==> staging[nonce].files == map[ArtifactFile(request.payload) := r.value]
    {
      hide WrittenEntries, Stem, Others, ArtifactFile;
      var payload := request.payload;
      var artifactFile := ArtifactFile(payload);
      var begun := Call();
      if begun.Fails? || '/' in artifactFile { return Err(Io); }
      var read := Call();
      if read.Fails? { return Err(Io); }
      var archive := WriteReleaseArchive(codec, files, Stem(payload), payload.files, request.payloadBytes);
      if archive.Err? { return Err(archive.error); }
      ghost var left;
      var put;
      put, left := PutStaged(nonce, artifactFile, codec.zipText(archive.value));
      if !put { return Err(Io); }
      read := Call();
      if read.Fails? { return Err(Io); }
      var zip := staging[nonce].files[artifactFile];
      if |zip| > MAX_RELEASE_ARTIFACT_BYTES { return Err(FileTooLarge); }
      r := Ok(zip);
    }

    method FillStaging(files: Dir, request: Request, nonce: nat) returns (r: Result<Artifact, DistributionError>)
      requires nonce in staging && staging[nonce] == Holds(request.key, map[])
      modifies this`clock, this`faulty, this`staging
      ensures old(faulty) ==> faulty
      ensures nonce in staging && Others(staging, nonce) == old(Others(staging, nonce))
      ensures r.Ok? ==>
        && staging[nonce].Holds? && staging[nonce].key == request.key
        && Validate(codec, request.key, staging[nonce].files, false, allowDirty) == r
        && r.value.release.payload == request.payload
      ensures !faulty ==>
        var zip := StagedArchive(codec, files, request);
        if zip.Err? then r == Err(zip.error)
        else
          && r == CheckStaged(codec, allowDirty, request, zip.value, StagedFiles(codec, request, zip.value))
          && (r.Ok? ==> staging[nonce].files == StagedFiles(codec, request, zip.value))
    {
      hide Validate, Eligible, WrittenEntries, Stem, Others;
      var payload := request.payload;
      NamesAreAlike(payload);
      var archived := StageArchive(files, request, nonce);
      if archived.Err? { return Err(archived.error); }
      var zip := archived.value;
      ghost var left;
      var put;
      put, left := PutStaged(nonce, ManifestFile(payload), codec.releaseText(ReleaseOf(codec, request, zip)));
      if !put { return Err(Io); }
      put, left := PutStaged(nonce, CACHE_ENTRY, codec.entryText(EntryOf(codec, request, zip)));
      if !put { return Err(Io); }
      var read := Call();
      if read.Fails? { return Err(Io); }
      r := CheckStaged(codec, allowDirty, request, zip, staging[nonce].files);
      assert !faulty ==> staging[nonce].files == StagedFiles(codec, request, zip);
    }

    /** `import_release_directory`, with the contract of `ImportCacheEntry`. */
    method ImportReleaseDirectory(source: Source, nonce: nat, pointerNonce: nat)
      returns (r: Result<Artifact, DistributionError>, ghost change: Option<Change>)
      requires Valid()
      modifies this
      ensures Valid() && (old(faulty) ==> faulty)
      ensures Imported(change, r.Ok?)
      ensures Others(staging, nonce) == old(Others(staging, nonce))
      ensures !faulty && nonce !in old(staging) ==>
        && (r, contents) == ReleaseImport(codec, allowDirty, old(contents), source.files)
        && nonce !in staging
    {
      hide Validate, Eligible, Sound, Lawful, IsCacheKey, IsFlavorId, IsGoodChange, ReadRequest, StagedArchive,
           StagedFiles, CheckStaged, EntriesKept, Others, Within;
      change := None;
      WithinItself(codec, contents);
      var opening := Call();
      if opening.Fails? {
        return Err(Io), change;
      }
      var read := ReadRequest(codec, allowDirty, source.files);
      if read.Err? {
        return Err(read.error), change;
      }
      var request := read.value;
      RequestTells(codec, allowDirty, source.files);
      var probe := Call();
      var isNew := probe.Fails? || request.key !in contents.entries;
      if isNew {
        r := StageRelease(source.files, request, nonce);
        if r.Err? {
          return r, change;
        }
        change := Some(Change(request.key, staging[nonce].files, request.flavor.id));
      } else {
        opening := Call();
        if opening.Fails? {
          return Err(Io), change;
        }
        r := Validate(codec, request.key, contents.entries[request.key], false, allowDirty);
        if r.Err? {
          return r, change;
        }
        if r.value.release.payload != request.payload {
          return Err(ImmutableCacheConflict), change;
        }
        change := Some(Change(request.key, contents.entries[request.key], request.flavor.id));
      }
      RequestedIsEligible(codec, allowDirty, source.files, change.value.files);
      if !(isNew && request.key in contents.entries) {
        RequestedIsGood(codec, allowDirty, contents, change.value);
      }
      var published := PublishAndActivate(request.key, request.flavor.id, isNew, nonce, pointerNonce, change.value);
      if published.Err? {
        r := Err(published.error);
      }
    }

    // -------------------------------------------------------------- the store's interface

    /** `import_runtime_source`: a cache entry if there is one, else an extracted release. */
    method ImportRuntimeSource(source: Source, nonce: nat, pointerNonce: nat)
      returns (r: Result<Artifact, DistributionError>, ghost change: Option<Change>)
      requires Valid()
      modifies this
      ensures Valid() && (old(faulty) ==> faulty)
      ensures Imported(change, r.Ok?)
      ensures Others(staging, nonce) == old(Others(staging, nonce))
      ensures !faulty && nonce !in old(staging) ==>
        && (r, contents) == RuntimeImport(codec, allowDirty, old(contents), source.name, source.files)
        && nonce !in staging
    {
      hide CacheImport, ReleaseImport, Sound, Lawful, EntriesKept, ImportFailsToCopy, Others, Within;
      WithinItself(codec, contents);
      var roots := Call();
      if roots.Fails? {
        return Err(Io), None;
      }
      var probe := Call();
      if !probe.Fails? && CACHE_ENTRY in source.files {
        r, change := ImportCacheEntry(source, false, nonce, pointerNonce);
        return;
      }
      probe := Call();
      if !probe.Fails? && RELEASE_MANIFEST in source.files {
        r, change := ImportReleaseDirectory(source, nonce, pointerNonce);
        return;
      }
      return Err(UnsupportedRuntimeSource), None;
    }

    /** `active_for_flavor`. */
    method Active(flavor: string) returns (r: Result<Option<Artifact>, DistributionError>)
      requires Valid()
      modifies this`clock, this`faulty
      ensures Valid() && (old(faulty) ==> faulty)
      ensures !faulty ==> r == ActiveForFlavor(codec, allowDirty, contents, flavor)
      ensures !faulty && IsFlavorId(flavor) ==> r.Ok? && (r.value.None? <==> flavor !in contents.active)
    {
      hide ActiveForFlavor, Sound, IsFlavorId, EntriesKept;
      var roots := Call();
      if roots.Fails? {
        return Err(Io);
      }
      var read := Call();
      if read.Fails? {
        return Err(Io);
      }
      r := ActiveForFlavor(codec, allowDirty, contents, flavor);
      if IsFlavorId(flavor) {
        ActiveNeverFails(codec, allowDirty, contents, flavor);
      }
    }

    /** A call failed, or garbled its data, at one of these times. */
    ghost predicate SomeFailed(from: nat, to: nat) {
      exists k: nat | from <= k < to :: script(k) != Works
    }

    /** The entries directory is there, and is read. */
    method OpenEntries() returns (ok: bool)
      modifies this`clock, this`faulty
      ensures old(clock) <= clock && (old(faulty) ==> faulty)
      ensures SomeFailed(old(clock), clock) ==> faulty
      ensures !ok ==> SomeFailed(old(clock), clock)
    {
      var roots := Call();
      if roots.Fails? {
        assert script(old(clock)) != Works;
        return false;
      }
      var reading := Call();
      assert reading.Fails? ==> script(old(clock) + 1) != Works;
      ok := !reading.Fails?;
    }

    /** What `list` does with one of the things that stand among the entries. */
    method ListOne(name: string) returns (r: Result<Listed, DistributionError>)
      requires Valid()
      modifies this`clock, this`faulty
      ensures old(clock) <= clock && (old(faulty) ==> faulty)
      ensures SomeFailed(old(clock), clock) ==> faulty
      ensures r.Ok? ==> IsListed(codec, allowDirty, contents, name, r.value)
      ensures r.Err? ==> name !in contents.entries || SomeFailed(old(clock), clock)
    {
      hide Sound, EntriesKept, Lawful, Validate, IsFlavorId, IsCacheKey, Eligible, ReadActiveKey;
      var typed := Call();
      if typed.Fails? {
        return Err(Io);
      }
      var read := Call();
      if read.Fails? {
        return Err(Io);
      }
      if name !in contents.entries {
        return Err(Io);
      }
      assert Sound(codec, allowDirty, contents);
      SoundEntryTells(codec, allowDirty, contents, name);
      var artifact := Validate(codec, name, contents.entries[name], false, allowDirty).value;
      ValidTells(codec, name, contents.entries[name], false, allowDirty);
      read := Call();
      if read.Fails? {
        return Err(Io);
      }
      SoundActiveKey(codec, allowDirty, contents, artifact.entry.clientFlavor.id);
      var active := ReadActiveKey(codec, contents, artifact.entry.clientFlavor.id);
      r := Ok(Listed(artifact, active.value == Some(artifact.entry.cacheKey)));
    }

    /** `list`: everything that stands among the entries is gone through in the order of its name.
        Unless a call fails, it succeeds exactly when no staging directory is left and there are at most
        256 entries; and then it lists them all. */
    method List() returns (r: Result<seq<Listed>, DistributionError>)
      requires Valid()
      modifies this`clock, this`faulty
      ensures Valid() && (old(faulty) ==> faulty) && old(clock) <= clock
      ensures SomeFailed(old(clock), clock) ==> faulty
      ensures r.Ok? ==>
        && staging == map[] && |contents.entries| <= MAX_STORED_CLIENT_FLAVORS
        && IsListing(codec, allowDirty, contents, r.value)
      ensures r.Err? ==>
        staging != map[] || |contents.entries| > MAX_STORED_CLIENT_FLAVORS || SomeFailed(old(clock), clock)
    {
      hide Sound, EntriesKept, Lawful, IsListing, IsListed, ListedSoFar, EntryNames, IsStrictOrder, Validate,
           SomeFailed;
      var begun := OpenEntries();
      if !begun {
        return Err(Io);
      }
      var names := EntryNames(contents, staging);
      NothingStaged(contents, staging);
      if |names| > MAX_STORED_CLIENT_FLAVORS {
        return Err(TooManyStoredClientFlavors);
      }
      NamesAreOrdered();
      var left := names;
      var output: seq<Listed> := [];
      NothingListed(codec, allowDirty, contents, names);
      while left != {}
        invariant left <= names && old(clock) <= clock && (old(faulty) ==> faulty)
        invariant SomeFailed(old(clock), clock) ==> faulty
        invariant ListedSoFar(codec, allowDirty, contents, names, left, output)
      {
        LeastExists(BY_NAME, left);
        var name :| IsLeast(BY_NAME, left, name);
        ghost var c0 := clock;
        var item := ListOne(name);
        Spread(old(clock), c0, clock);
        if item.Err? {
          return Err(item.error);
        }
        OneMoreListed(codec, allowDirty, contents, names, left, output, name, item.value);
        output := output + [item.value];
        left := left - {name};
      }
      assert Sound(codec, allowDirty, contents);
      AllListed(codec, allowDirty, contents, staging, names, output);
      r := Ok(output);
    }

    lemma Spread(from: nat, mid: nat, to: nat)
      requires from <= mid <= to
      ensures SomeFailed(from, to) <==> SomeFailed(from, mid) || SomeFailed(mid, to)
    {
    }
  }

  datatype ImportRequest = ReleaseReady(source: Source) | Runtime(source: Source)

  /** One import of either kind. */
  method ImportOne(store: ClientFlavorArtifactStore, request: ImportRequest, nonce: nat, pointerNonce: nat)
    returns (r: Result<Artifact, DistributionError>, ghost change: Option<Change>)
    requires store.Valid()
    modifies store
    ensures store.Valid() && (old(store.faulty) ==> store.faulty)
    ensures store.Imported(change, r.Ok?)
    ensures Others(store.staging, nonce) == old(Others(store.staging, nonce))
    ensures !store.faulty && nonce !in old(store.staging) ==> nonce !in store.staging
  {
    hide Sound, Lawful, Within, EntriesKept, CacheImport, RuntimeImport, Others, Done;
    match request {
      case ReleaseReady(source) =>
        r, change := store.ImportCacheEntry(source, true, nonce, pointerNonce);
      case Runtime(source) =>
        r, change := store.ImportRuntimeSource(source, nonce, pointerNonce);
    }
  }

  /** An empty store is sound, so runs may start from one. */
  lemma EmptyStoreIsSound(codec: Codec, allowDirty: bool)
    ensures Sound(codec, allowDirty, EMPTY_STORE)
  {
  }

  /** Any sequence of imports, under any policy and with any faults, from an empty store or from any
      moment at which an earlier run was stopped: at every moment the store is sound (so the run may
      stop there and another go on), and from one moment to any later one no published entry changes.
      Without a fault the imports leave no staging directory. */
  method RunImports(codec: Codec, allowDirty: bool, start: Contents, left: map<nat, Staging>, script: nat -> Ending,
                    imports: seq<ImportRequest>, nonce: nat)
    returns (store: ClientFlavorArtifactStore)
    requires Lawful(codec) && Sound(codec, allowDirty, start)
    requires forall n | n in left :: n < nonce
    ensures fresh(store) && store.codec == codec && store.allowDirty == allowDirty && store.script == script
    ensures store.Valid() && store.history[0] == start
    ensures (forall c | c in store.history :: Sound(codec, allowDirty, c)) && EntriesKept(store.history)
    ensures !store.faulty ==> store.staging == left
  {
    hide Sound, Lawful, Within, EntriesKept, CacheImport, RuntimeImport, Others;
    store := new ClientFlavorArtifactStore(codec, allowDirty, start, left, script);
    for i := 0 to |imports|
      invariant fresh(store) && store.codec == codec && store.allowDirty == allowDirty && store.script == script
      invariant store.Valid() && store.history[0] == start
      invariant !store.faulty ==> store.staging == left
    {
      ghost var before, staged := store.history, store.staging;
      var r;
      ghost var change;
      r, change := ImportOne(store, imports[i], nonce + i, i);
      assert before <= store.history;
      if !store.faulty {
        OthersAreAll(staged, store.staging, nonce + i);
      }
    }
  }

  /** After any run of imports from an empty store in which nothing fails, `list` succeeds exactly when
      there are at most 256 entries, and then lists them all. */
  method ImportThenList(codec: Codec, allowDirty: bool, script: nat -> Ending, imports: seq<ImportRequest>)
    returns (store: ClientFlavorArtifactStore, r: Result<seq<Listed>, DistributionError>)
    requires Lawful(codec)
    ensures !store.faulty ==> (r.Ok? <==> |store.contents.entries| <= MAX_STORED_CLIENT_FLAVORS)
    ensures r.Ok? ==> IsListing(codec, allowDirty, store.contents, r.value)
  {
    hide Sound, Lawful, EntriesKept, IsListing;
    EmptyStoreIsSound(codec, allowDirty);
    store := RunImports(codec, allowDirty, EMPTY_STORE, map[], script, imports, 0);
    r := store.List();
  }

  /** One failing copy is enough to make every later `list` fail, although no import was stopped: the
      import reports its error, its staging directory stays among the entries, and no later import of
      anything removes it. */
  method ListAfterFailedCopy(codec: Codec, allowDirty: bool, source: Source, ready: bool, nonce: nat,
                             imports: seq<ImportRequest>)
    returns (failed: Result<Artifact, DistributionError>, listed: Result<seq<Listed>, DistributionError>)
    requires Lawful(codec) && CheckedSource(codec, source.name, source.files, ready).Ok?
    ensures failed == Err(Io) && listed.Err?
  {
    hide CheckedSource, Lawful, Sound, EntriesKept, CacheImport, RuntimeImport, Within, Done, Others, IsListing;
    EmptyStoreIsSound(codec, allowDirty);
    var script := (n: nat) => if n == 6 then Fails([]) else Works;
    var store := new ClientFlavorArtifactStore(codec, allowDirty, EMPTY_STORE, map[], script);
    ghost var change;
    failed, change := store.ImportCacheEntry(source, ready, nonce, 0);
    for i := 0 to |imports|
      invariant fresh(store) && store.Valid() && nonce in store.staging
    {
      ghost var staged := store.staging;
      var r;
      r, change := ImportOne(store, imports[i], nonce + 1 + i, i);
      OthersStay(staged, store.staging, nonce + 1 + i, nonce);
    }
    listed := store.List();
  }
}
