/** The archive of a release: how it is written from a directory, and how it is verified. */
module ReleaseArchive {
  import opened Wrappers
  import opened Text
  import opened Release

  /** The regular files below a directory, by relative path. */
  type Dir = map<string, Bytes>

  const RELEASE_MANIFEST := "release-manifest.json"

  function Stem(payload: PayloadManifest): string {
    "clew-v" + payload.version + "-" + payload.target + (if payload.unsigned then "" else "-signed")
  }

  function EntryName(stem: string, path: string): string {
    stem + "/" + path
  }

  lemma EntryNameInjective(stem: string, a: string, b: string)
    requires EntryName(stem, a) == EntryName(stem, b)
    ensures a == b
  {
    assert EntryName(stem, a)[|stem| + 1..] == a;
    assert EntryName(stem, b)[|stem| + 1..] == b;
  }

  // ---------------------------------------------------------------- reading

  /** `ZipArchive::by_name`. */
  function ByName(entries: seq<ZipEntry>, name: string): Option<ZipEntry> {
    if entries == [] then None
    else if entries[0].name == name then Some(entries[0])
    else ByName(entries[1..], name)
  }

  predicate IsDirName(name: string) {
    name != "" && (name[|name| - 1] == '/' || name[|name| - 1] == '\\')
  }

  function ReadBounded(entries: seq<ZipEntry>, name: string, max: nat): Result<Bytes, DistributionError> {
    var _ :- Need(max <= MAX_RELEASE_ARTIFACT_BYTES, FileTooLarge);
    var _ :- Need(ByName(entries, name).Some?, Zip);
    var entry := ByName(entries, name).value;
    var _ :- Need(!IsDirName(entry.name) && entry.declared <= max && |entry.data| <= max, ArchiveEntrySizeMismatch);
    Ok(entry.data)
  }

  /** The records so far are in the archive, with the right size and digest. */
  function CheckRecords(codec: Codec, entries: seq<ZipEntry>, stem: string, files: seq<PayloadFile>)
    : Result<(), DistributionError>
  {
    if files == [] then Ok(())
    else
      var record := files[|files| - 1];
      var _ :- CheckRecords(codec, entries, stem, files[..|files| - 1]);
      var bytes :- ReadBounded(entries, EntryName(stem, record.path), record.size);
      var _ :- Need(|bytes| == record.size, ArchiveEntrySizeMismatch);
      var _ :- Need(codec.sha256(bytes) == record.sha256, PayloadHashMismatch);
      Ok(())
  }

  function Names(entries: seq<ZipEntry>): multiset<string> {
    if entries == [] then multiset{} else Names(entries[..|entries| - 1]) + multiset{entries[|entries| - 1].name}
  }

  function PathNames(stem: string, files: seq<PayloadFile>): multiset<string> {
    if files == [] then multiset{}
    else PathNames(stem, files[..|files| - 1]) + multiset{EntryName(stem, files[|files| - 1].path)}
  }

  function ExpectedNames(stem: string, files: seq<PayloadFile>): multiset<string> {
    PathNames(stem, files) + multiset{EntryName(stem, RELEASE_MANIFEST)}
  }

  /** `verify_release_zip` on the bytes of the artifact. */
  function ZipVerdict(codec: Codec, artifact: Bytes, payload: PayloadManifest): Result<(), DistributionError> {
    var _ :- Need(codec.zipOf(artifact).Some?, Zip);
    EntriesVerdict(codec, codec.zipOf(artifact).value, payload)
  }

  function EntriesVerdict(codec: Codec, entries: seq<ZipEntry>, payload: PayloadManifest)
    : Result<(), DistributionError>
  {
    var stem := Stem(payload);
    var _ :- Need(Names(entries) == ExpectedNames(stem, payload.files), UnexpectedArchiveEntries);
    var _ :- CheckRecords(codec, entries, stem, payload.files);
    var embedded :- ReadBounded(entries, EntryName(stem, RELEASE_MANIFEST), MAX_RELEASE_MANIFEST_BYTES);
    var _ :- Need(codec.payloadOf(embedded).Some?, Json);
    var _ :- Need(codec.payloadOf(embedded).value == payload, EmbeddedManifestMismatch);
    Ok(())
  }

  /** The names that the archive should have. */
  method CollectExpected(stem: string, files: seq<PayloadFile>) returns (names: multiset<string>)
    ensures names == ExpectedNames(stem, files)
  {
    hide EntryName;
    names := multiset{};
    for i := 0 to |files|
      invariant names == PathNames(stem, files[..i])
    {
      assert files[..i + 1][..i] == files[..i];
      names := names + multiset{EntryName(stem, files[i].path)};
    }
    assert files[..|files|] == files;
    names := names + multiset{EntryName(stem, RELEASE_MANIFEST)};
  }

  /** The names that it has. */
  method CollectActual(archive: seq<ZipEntry>) returns (names: multiset<string>)
    ensures names == Names(archive)
  {
    names := multiset{};
    for i := 0 to |archive|
      invariant names == Names(archive[..i])
    {
      assert archive[..i + 1][..i] == archive[..i];
      names := names + multiset{archive[i].name};
    }
    assert archive[..|archive|] == archive;
  }

  /** Every record is read and hashed. */
  method ReadRecords(codec: Codec, archive: seq<ZipEntry>, stem: string, files: seq<PayloadFile>)
    returns (r: Result<(), DistributionError>)
    ensures r == CheckRecords(codec, archive, stem, files)
  {
    hide ReadBounded, EntryName;
    for i := 0 to |files|
      invariant CheckRecords(codec, archive, stem, files[..i]) == Ok(())
    {
      assert files[..i + 1][..i] == files[..i];
      var record := files[i];
      ChecksFailEarly(codec, archive, stem, files, i + 1);
      var bytes := ReadBounded(archive, EntryName(stem, record.path), record.size);
      if bytes.Err? {
        return Err(bytes.error);
      }
      if |bytes.value| != record.size {
        return Err(ArchiveEntrySizeMismatch);
      }
      if codec.sha256(bytes.value) != record.sha256 {
        return Err(PayloadHashMismatch);
      }
    }
    assert files[..|files|] == files;
    r := Ok(());
  }

  /** `verify_release_zip`: the two name lists are collected and compared in
      order, so as multisets; then every record is read and hashed; the manifest comes last. */
  method VerifyReleaseZip(codec: Codec, artifact: Bytes, payload: PayloadManifest)
    returns (r: Result<(), DistributionError>)
    ensures r == ZipVerdict(codec, artifact, payload)
  {
    hide ReadBounded, EntryName, Stem, ExpectedNames, Names, CheckRecords;
    var zip := codec.zipOf(artifact);
    if zip.None? {
      return Err(Zip);
    }
    var stem := Stem(payload);
    var expected := CollectExpected(stem, payload.files);
    var actual := CollectActual(zip.value);
    if actual != expected {
      return Err(UnexpectedArchiveEntries);
    }
    var checked := ReadRecords(codec, zip.value, stem, payload.files);
    if checked.Err? {
      return checked;
    }
    var embedded := ReadBounded(zip.value, EntryName(stem, RELEASE_MANIFEST), MAX_RELEASE_MANIFEST_BYTES);
    if embedded.Err? {
      return Err(embedded.error);
    }
    var parsed := codec.payloadOf(embedded.value);
    if parsed.None? {
      return Err(Json);
    }
    r := if parsed.value != payload then Err(EmbeddedManifestMismatch) else Ok(());
  }

  lemma {:induction false} ChecksFailEarly(codec: Codec, entries: seq<ZipEntry>, stem: string,
                                           files: seq<PayloadFile>, n: nat)
    requires n <= |files|
    ensures CheckRecords(codec, entries, stem, files[..n]).Err? ==>
      CheckRecords(codec, entries, stem, files) == CheckRecords(codec, entries, stem, files[..n])
    decreases |files| - n
  {
    hide ReadBounded;
    if n == |files| {
      assert files[..n] == files;
    } else {
      ChecksFailEarly(codec, entries, stem, files, n + 1);
      assert files[..n + 1][..n] == files[..n];
    }
  }

  // ---------------------------------------------------------------- writing

  const MANIFEST_MODE: u32 := 420   // 0o644

  /** The directory holds the file of a record, as the record says. */
  predicate Matches(codec: Codec, source: Dir, record: PayloadFile) {
    && IsRelativePath(record.path) && record.path in source
    && |source[record.path]| == record.size && codec.sha256(source[record.path]) == record.sha256
    && ParseU32(record.mode, 8).Some?
  }

  function FileEntry(source: Dir, stem: string, record: PayloadFile): ZipEntry
    requires record.path in source && ParseU32(record.mode, 8).Some?
  {
    var data := source[record.path];
    ZipEntry(EntryName(stem, record.path), |data|, ParseU32(record.mode, 8).value, data)
  }

  /** `start_file` refuses a name that the archive already has. */
  function Append(entries: seq<ZipEntry>, entry: ZipEntry): Result<seq<ZipEntry>, DistributionError> {
    if ByName(entries, entry.name).Some? then Err(Zip) else Ok(entries + [entry])
  }

  function WrittenFiles(codec: Codec, source: Dir, stem: string, files: seq<PayloadFile>)
    : Result<seq<ZipEntry>, DistributionError>
  {
    if files == [] then Ok([])
    else
      var record := files[|files| - 1];
      var before :- WrittenFiles(codec, source, stem, files[..|files| - 1]);
      var _ :- Need(IsRelativePath(record.path), UnsafeArchivePath);
      var _ :- Need(record.path in source, Io);
      var _ :- Need(|source[record.path]| <= record.size, FileTooLarge);
      var _ :- Need(|source[record.path]| == record.size && codec.sha256(source[record.path]) == record.sha256,
              PayloadHashMismatch);
      var _ :- Need(ParseU32(record.mode, 8).Some?, InvalidPayloadFileSet);
      Append(before, FileEntry(source, stem, record))
  }

  function ManifestEntry(stem: string, payloadBytes: Bytes): ZipEntry {
    ZipEntry(EntryName(stem, RELEASE_MANIFEST), |payloadBytes|, MANIFEST_MODE, payloadBytes)
  }

  /** The entries of the archive that `write_release_archive_from_directory` writes. */
  function WrittenEntries(codec: Codec, source: Dir, stem: string, files: seq<PayloadFile>, payloadBytes: Bytes)
    : Result<seq<ZipEntry>, DistributionError>
  {
    var entries :- WrittenFiles(codec, source, stem, files);
    Append(entries, ManifestEntry(stem, payloadBytes))
  }

  /** The archive grows one file at a time. */
  method WriteReleaseArchive(codec: Codec, source: Dir, stem: string, files: seq<PayloadFile>, payloadBytes: Bytes)
    returns (r: Result<seq<ZipEntry>, DistributionError>)
    ensures r == WrittenEntries(codec, source, stem, files, payloadBytes)
  {
    var archive: seq<ZipEntry> := [];
    for i := 0 to |files|
      invariant WrittenFiles(codec, source, stem, files[..i]) == Ok(archive)
    {
      var record := files[i];
      assert files[..i + 1][..i] == files[..i];
      WritesFailEarly(codec, source, stem, files, i + 1);
      if !IsRelativePath(record.path) {
        return Err(UnsafeArchivePath);
      }
      if record.path !in source {
        return Err(Io);
      }
      var bytes := source[record.path];
      if |bytes| > record.size {
        return Err(FileTooLarge);
      }
      if |bytes| != record.size || codec.sha256(bytes) != record.sha256 {
        return Err(PayloadHashMismatch);
      }
      var mode := ParseU32(record.mode, 8);
      if mode.None? {
        return Err(InvalidPayloadFileSet);
      }
      var name := EntryName(stem, record.path);
      if ByName(archive, name).Some? {
        return Err(Zip);
      }
      archive := archive + [ZipEntry(name, |bytes|, mode.value, bytes)];
    }
    assert files[..|files|] == files;
    var name := EntryName(stem, RELEASE_MANIFEST);
    if ByName(archive, name).Some? {
      return Err(Zip);
    }
    r := Ok(archive + [ZipEntry(name, |payloadBytes|, MANIFEST_MODE, payloadBytes)]);
  }

  lemma {:induction false} WritesFailEarly(codec: Codec, source: Dir, stem: string, files: seq<PayloadFile>, n: nat)
    requires n <= |files|
    ensures WrittenFiles(codec, source, stem, files[..n]).Err? ==>
      WrittenFiles(codec, source, stem, files) == WrittenFiles(codec, source, stem, files[..n])
    decreases |files| - n
  {
    hide IsRelativePath, ParseU32;
    if n == |files| {
      assert files[..n] == files;
    } else {
      WritesFailEarly(codec, source, stem, files, n + 1);
      assert files[..n + 1][..n] == files[..n];
    }
  }

  // ---------------------------------------------------------------- theorems

  ghost predicate HasName(entries: seq<ZipEntry>, name: string) {
    exists i | 0 <= i < |entries| :: entries[i].name == name
  }

  lemma {:induction false} ByNameFinds(entries: seq<ZipEntry>, name: string)
    ensures ByName(entries, name).Some? <==> HasName(entries, name)
    ensures ByName(entries, name).Some? ==> ByName(entries, name).value in entries
    ensures ByName(entries, name).Some? ==> ByName(entries, name).value.name == name
    ensures ByName(entries, name).Some? && DistinctNames(entries) ==>
      forall i | 0 <= i < |entries| && entries[i].name == name :: entries[i] == ByName(entries, name).value
  {
    if entries != [] {
      var rest := entries[1..];
      ByNameFinds(rest, name);
      if entries[0].name != name {
        assert forall i | 0 < i < |entries| :: entries[i] == rest[i - 1];
        if HasName(entries, name) {
          var i :| 0 <= i < |entries| && entries[i].name == name;
          assert rest[i - 1].name == name;
        }
        if HasName(rest, name) {
          var i :| 0 <= i < |rest| && rest[i].name == name;
          assert entries[i + 1].name == name;
        }
      }
    }
  }

  ghost predicate AllMatch(codec: Codec, source: Dir, files: seq<PayloadFile>) {
    forall i | 0 <= i < |files| :: Matches(codec, source, files[i])
  }

  ghost predicate DistinctPaths(files: seq<PayloadFile>) {
    forall i, j | 0 <= i < j < |files| :: files[i].path != files[j].path
  }

  /** The entries are those of the files, in order. */
  ghost predicate AreEntriesOf(codec: Codec, entries: seq<ZipEntry>, source: Dir, stem: string,
                               files: seq<PayloadFile>)
  {
    && |entries| == |files|
    && (forall i | 0 <= i < |files| ::
          Matches(codec, source, files[i]) && entries[i] == FileEntry(source, stem, files[i]))
  }

  lemma NameIsTaken(codec: Codec, entries: seq<ZipEntry>, source: Dir, stem: string, files: seq<PayloadFile>,
                    path: string)
    requires AreEntriesOf(codec, entries, source, stem, files)
    ensures ByName(entries, EntryName(stem, path)).Some? <==> exists i | 0 <= i < |files| :: files[i].path == path
  {
    hide IsRelativePath, ParseU32, ByName, EntryName;
    ByNameFinds(entries, EntryName(stem, path));
    if HasName(entries, EntryName(stem, path)) {
      var i :| 0 <= i < |files| && entries[i].name == EntryName(stem, path);
      EntryNameInjective(stem, files[i].path, path);
    }
    if i :| 0 <= i < |files| && files[i].path == path {
      assert entries[i].name == EntryName(stem, path);
    }
  }

  /** The files are written exactly when the directory matches and no path is listed twice; then the
      archive holds them, in order, each under its own name. */
  lemma {:induction false} FilesAreWritten(codec: Codec, source: Dir, stem: string, files: seq<PayloadFile>)
    ensures WrittenFiles(codec, source, stem, files).Ok? <==> AllMatch(codec, source, files) && DistinctPaths(files)
    ensures WrittenFiles(codec, source, stem, files).Ok? ==>
      AreEntriesOf(codec, WrittenFiles(codec, source, stem, files).value, source, stem, files)
  {
    hide IsRelativePath, ParseU32, ByName, EntryName, AreEntriesOf;
    if files == [] {
      assert AreEntriesOf(codec, [], source, stem, []) by { NoEntries(codec, source, stem); }
    } else {
      var n := |files| - 1;
      var init, record := files[..n], files[n];
      FilesAreWritten(codec, source, stem, init);
      assert forall i | 0 <= i < n :: init[i] == files[i];
      if WrittenFiles(codec, source, stem, init).Ok? {
        var before := WrittenFiles(codec, source, stem, init).value;
        NameIsTaken(codec, before, source, stem, init, record.path);
        if Matches(codec, source, record) {
          OneMoreEntry(codec, before, source, stem, files);
        }
      }
    }
  }

  lemma NoEntries(codec: Codec, source: Dir, stem: string)
    ensures AreEntriesOf(codec, [], source, stem, [])
  {
  }

  lemma OneMoreEntry(codec: Codec, before: seq<ZipEntry>, source: Dir, stem: string, files: seq<PayloadFile>)
    requires files != [] && AreEntriesOf(codec, before, source, stem, files[..|files| - 1])
    requires Matches(codec, source, files[|files| - 1])
    ensures AreEntriesOf(codec, before + [FileEntry(source, stem, files[|files| - 1])], source, stem, files)
  {
    hide IsRelativePath, ParseU32, EntryName;
    var init := files[..|files| - 1];
    assert forall i | 0 <= i < |init| :: init[i] == files[i] && Matches(codec, source, init[i]);
  }

  /** The exact condition for writing: the directory matches, every path is listed once, and none is
      the manifest's. */
  lemma WritesExactly(codec: Codec, source: Dir, stem: string, files: seq<PayloadFile>, payloadBytes: Bytes)
    ensures WrittenEntries(codec, source, stem, files, payloadBytes).Ok? <==>
      && AllMatch(codec, source, files) && DistinctPaths(files)
      && forall i | 0 <= i < |files| :: files[i].path != RELEASE_MANIFEST
    ensures WrittenEntries(codec, source, stem, files, payloadBytes).Ok? ==>
      var entries := WrittenEntries(codec, source, stem, files, payloadBytes).value;
      && |entries| == |files| + 1 && DistinctNames(entries) && WellDeclared(entries)
      && entries[|files|] == ManifestEntry(stem, payloadBytes)
      && (forall i | 0 <= i < |files| ::
            Matches(codec, source, files[i]) && entries[i] == FileEntry(source, stem, files[i]))
  {
    hide Matches;
    FilesAreWritten(codec, source, stem, files);
    var written := WrittenFiles(codec, source, stem, files);
    if written.Ok? {
      var name := EntryName(stem, RELEASE_MANIFEST);
      ByNameFinds(written.value, name);
      if HasName(written.value, name) {
        var i :| 0 <= i < |files| && written.value[i].name == name;
        EntryNameInjective(stem, files[i].path, RELEASE_MANIFEST);
      } else {
        forall i | 0 <= i < |files|
          ensures files[i].path != RELEASE_MANIFEST
        {
          assert written.value[i].name == EntryName(stem, files[i].path);
        }
        WrittenNamesDistinct(codec, source, stem, files, payloadBytes);
      }
    }
  }

  /** Each file of a written archive has its name below the stem, the bytes that the directory holds and
      the mode that is listed; the manifest comes last, and everybody may read it. */
  lemma WrittenAsListed(codec: Codec, source: Dir, stem: string, files: seq<PayloadFile>, payloadBytes: Bytes)
    requires WrittenEntries(codec, source, stem, files, payloadBytes).Ok?
    ensures var entries := WrittenEntries(codec, source, stem, files, payloadBytes).value;
      && |entries| == |files| + 1
      && (forall i | 0 <= i < |files| ::
            && files[i].path in source && entries[i].name == stem + "/" + files[i].path
            && entries[i].data == source[files[i].path] && Some(entries[i].mode) == ParseU32(files[i].mode, 8))
      && entries[|files|].name == stem + "/" + "release-manifest.json" && entries[|files|].data == payloadBytes
      && entries[|files|].mode == 0x1A4
  {
    hide WrittenEntries, ParseU32, IsRelativePath;
    WritesExactly(codec, source, stem, files, payloadBytes);
  }

  lemma WrittenNamesDistinct(codec: Codec, source: Dir, stem: string, files: seq<PayloadFile>, payloadBytes: Bytes)
    requires WrittenFiles(codec, source, stem, files).Ok?
    requires !HasName(WrittenFiles(codec, source, stem, files).value, EntryName(stem, RELEASE_MANIFEST))
    ensures DistinctNames(WrittenFiles(codec, source, stem, files).value + [ManifestEntry(stem, payloadBytes)])
  {
    hide Matches;
    FilesAreWritten(codec, source, stem, files);
    var written := WrittenFiles(codec, source, stem, files).value;
    forall i, j | 0 <= i < j < |files|
      ensures written[i].name != written[j].name
    {
      if written[i].name == written[j].name {
        EntryNameInjective(stem, files[i].path, files[j].path);
      }
    }
  }

  // ---------------------------------------------------------------- written archives are accepted

  lemma {:induction false} NamesOfWritten(entries: seq<ZipEntry>, stem: string, files: seq<PayloadFile>)
    requires |entries| == |files|
    requires forall i | 0 <= i < |files| :: entries[i].name == EntryName(stem, files[i].path)
    ensures Names(entries) == PathNames(stem, files)
  {
    hide EntryName;
    if files != [] {
      NamesOfWritten(entries[..|files| - 1], stem, files[..|files| - 1]);
    }
  }

  /** Every listed file is found in the archive, under its name. */
  ghost predicate Holds(codec: Codec, entries: seq<ZipEntry>, stem: string, record: PayloadFile) {
    var found := ByName(entries, EntryName(stem, record.path));
    && found.Some? && found.value.declared == |found.value.data| == record.size
    && codec.sha256(found.value.data) == record.sha256
  }

  lemma {:induction false} HeldRecordsPass(codec: Codec, entries: seq<ZipEntry>, stem: string, files: seq<PayloadFile>)
    requires forall i | 0 <= i < |files| :: Holds(codec, entries, stem, files[i])
    requires forall i | 0 <= i < |files| :: !IsDirName(EntryName(stem, files[i].path))
    ensures CheckRecords(codec, entries, stem, files).Ok? <==>
      forall i | 0 <= i < |files| :: files[i].size <= MAX_RELEASE_ARTIFACT_BYTES
  {
    hide EntryName, IsDirName;
    if files != [] {
      var n := |files| - 1;
      var init := files[..n];
      assert forall i | 0 <= i < n :: init[i] == files[i];
      HeldRecordsPass(codec, entries, stem, init);
      assert Holds(codec, entries, stem, files[n]);
      ByNameFinds(entries, EntryName(stem, files[n].path));
      assert init == files[..|files| - 1];
      if CheckRecords(codec, entries, stem, init).Ok? && files[n].size <= MAX_RELEASE_ARTIFACT_BYTES {
        assert ReadBounded(entries, EntryName(stem, files[n].path), files[n].size).Ok?;
      }
    }
  }

  lemma SplitLast(s: string, c: char)
    requires s != "" && s[|s| - 1] == c
    ensures [] in Split(s, c)
    decreases |s|
  {
    var i := IndexOf(s, c);
    assert c in s;
    if i < |s| - 1 {
      SplitLast(s[i + 1..], c);
    } else {
      assert s[i + 1..] == [];
      assert Split(s[i + 1..], c) == [[]];
    }
  }

  lemma PathIsNoDirName(stem: string, path: string)
    requires IsRelativePath(path)
    ensures !IsDirName(EntryName(stem, path))
  {
    var name := EntryName(stem, path);
    assert name[|name| - 1] == path[|path| - 1];
    if path[|path| - 1] == '/' {
      SplitLast(path, '/');
    }
  }

  lemma WrittenFileIsHeld(codec: Codec, source: Dir, payload: PayloadManifest, payloadBytes: Bytes, i: nat)
    requires i < |payload.files|
    requires WrittenEntries(codec, source, Stem(payload), payload.files, payloadBytes).Ok?
    ensures Holds(codec, WrittenEntries(codec, source, Stem(payload), payload.files, payloadBytes).value,
                  Stem(payload), payload.files[i])
  {
    hide EntryName, Stem, WrittenFiles, IsRelativePath, ParseU32;
    var stem, files := Stem(payload), payload.files;
    var entries := WrittenEntries(codec, source, stem, files, payloadBytes).value;
    WritesExactly(codec, source, stem, files, payloadBytes);
    ByNameFinds(entries, EntryName(stem, files[i].path));
    assert entries[i] == FileEntry(source, stem, files[i]) && Matches(codec, source, files[i]);
  }

  /** What is written is accepted, exactly when nothing is over its size bound. */
  lemma WrittenArchivePasses(codec: Codec, source: Dir, payload: PayloadManifest, payloadBytes: Bytes)
    requires Lawful(codec) && codec.payloadOf(payloadBytes) == Some(payload)
    requires WrittenEntries(codec, source, Stem(payload), payload.files, payloadBytes).Ok?
    ensures var written := WrittenEntries(codec, source, Stem(payload), payload.files, payloadBytes).value;
      ZipVerdict(codec, codec.zipText(written), payload).Ok? <==>
           && (forall i | 0 <= i < |payload.files| :: payload.files[i].size <= MAX_RELEASE_ARTIFACT_BYTES)
           && |payloadBytes| <= MAX_RELEASE_MANIFEST_BYTES
  {
    hide EntryName, Stem, WrittenEntries, Matches, CheckRecords, Names, PathNames, ByName, IsSha256, IsCacheKey,
         IsDirName, IsRelativePath, Holds;
    var stem, files := Stem(payload), payload.files;
    var entries := WrittenEntries(codec, source, stem, files, payloadBytes).value;
    WritesExactly(codec, source, stem, files, payloadBytes);
    assert codec.zipOf(codec.zipText(entries)) == Some(entries);
    NamesAreExpected(codec, source, stem, files, payloadBytes);
    forall i | 0 <= i < |files|
      ensures Holds(codec, entries, stem, files[i]) && !IsDirName(EntryName(stem, files[i].path))
    {
      WrittenFileIsHeld(codec, source, payload, payloadBytes, i);
      MatchedPathIsNoDirName(codec, source, stem, files[i]);
    }
    HeldRecordsPass(codec, entries, stem, files);
    ByNameFinds(entries, EntryName(stem, RELEASE_MANIFEST));
    assert entries[|files|].name == EntryName(stem, RELEASE_MANIFEST);
    ManifestIsNoDirName(stem);
  }

  lemma MatchedPathIsNoDirName(codec: Codec, source: Dir, stem: string, record: PayloadFile)
    requires Matches(codec, source, record)
    ensures !IsDirName(EntryName(stem, record.path))
  {
    PathIsNoDirName(stem, record.path);
  }

  lemma ManifestIsNoDirName(stem: string)
    ensures !IsDirName(EntryName(stem, RELEASE_MANIFEST))
  {
    var name := EntryName(stem, RELEASE_MANIFEST);
    assert name[|name| - 1] == RELEASE_MANIFEST[|RELEASE_MANIFEST| - 1];
  }

  lemma NamesAreExpected(codec: Codec, source: Dir, stem: string, files: seq<PayloadFile>, payloadBytes: Bytes)
    requires WrittenEntries(codec, source, stem, files, payloadBytes).Ok?
    ensures Names(WrittenEntries(codec, source, stem, files, payloadBytes).value) == ExpectedNames(stem, files)
  {
    hide EntryName, ParseU32, WrittenFiles, IsRelativePath, PathNames;
    var entries := WrittenEntries(codec, source, stem, files, payloadBytes).value;
    WritesExactly(codec, source, stem, files, payloadBytes);
    var n := |files|;
    forall i | 0 <= i < n
      ensures entries[..n][i].name == EntryName(stem, files[i].path)
    {
      assert Matches(codec, source, files[i]) && entries[i] == FileEntry(source, stem, files[i]);
    }
    NamesOfWritten(entries[..n], stem, files);
    assert entries[..|entries| - 1] == entries[..n];
  }

  /** The archive of a matching directory is accepted: its list strictly increases, does not claim the
      manifest's name, and is within the bounds. */
  lemma MatchingDirectoryPasses(codec: Codec, source: Dir, payload: PayloadManifest, payloadBytes: Bytes)
    requires Lawful(codec) && codec.payloadOf(payloadBytes) == Some(payload)
    requires StrictlySorted(payload.files) && AllMatch(codec, source, payload.files)
    requires forall i | 0 <= i < |payload.files| :: payload.files[i].path != RELEASE_MANIFEST
    requires forall i | 0 <= i < |payload.files| :: payload.files[i].size <= MAX_RELEASE_ARTIFACT_BYTES
    requires |payloadBytes| <= MAX_RELEASE_MANIFEST_BYTES
    ensures var written := WrittenEntries(codec, source, Stem(payload), payload.files, payloadBytes);
            written.Ok? && ZipVerdict(codec, codec.zipText(written.value), payload).Ok?
  {
    hide Matches, WrittenEntries, ZipVerdict, Stem, Lawful;
    SortedIsDistinct(payload.files);
    WritesExactly(codec, source, Stem(payload), payload.files, payloadBytes);
    WrittenArchivePasses(codec, source, payload, payloadBytes);
  }

  // ---------------------------------------------------------------- accepted archives hold what is listed

  lemma {:induction false} NamesAre(entries: seq<ZipEntry>)
    ensures |Names(entries)| == |entries|
    ensures forall n :: n in Names(entries) <==> HasName(entries, n)
  {
    if entries != [] {
      var init, last := entries[..|entries| - 1], entries[|entries| - 1];
      NamesAre(init);
      forall n
        ensures n in Names(entries) <==> HasName(entries, n)
      {
        if HasName(entries, n) && n != last.name {
          var i :| 0 <= i < |entries| && entries[i].name == n;
          assert init[i].name == n;
        }
        if HasName(init, n) {
          var i :| 0 <= i < |init| && init[i].name == n;
          assert entries[i].name == n;
        }
        assert entries[|entries| - 1].name == last.name;
      }
    }
  }

  ghost predicate HasPath(stem: string, files: seq<PayloadFile>, name: string) {
    exists i | 0 <= i < |files| :: EntryName(stem, files[i].path) == name
  }

  lemma {:induction false} PathNamesAre(stem: string, files: seq<PayloadFile>)
    ensures |PathNames(stem, files)| == |files|
    ensures forall n :: n in PathNames(stem, files) <==> HasPath(stem, files, n)
  {
    hide EntryName;
    if files != [] {
      var init, last := files[..|files| - 1], EntryName(stem, files[|files| - 1].path);
      PathNamesAre(stem, init);
      forall n
        ensures n in PathNames(stem, files) <==> HasPath(stem, files, n)
      {
        if HasPath(stem, files, n) && n != last {
          var i :| 0 <= i < |files| && EntryName(stem, files[i].path) == n;
          assert EntryName(stem, init[i].path) == n;
        }
        if HasPath(stem, init, n) {
          var i :| 0 <= i < |init| && EntryName(stem, init[i].path) == n;
          assert EntryName(stem, files[i].path) == n;
        }
      }
    }
  }

  lemma {:induction false} DistinctNamesCount(entries: seq<ZipEntry>, name: string)
    requires DistinctNames(entries)
    ensures Names(entries)[name] <= 1
  {
    if entries != [] {
      var init, last := entries[..|entries| - 1], entries[|entries| - 1];
      DistinctNamesCount(init, name);
      NamesAre(init);
      assert !HasName(init, last.name);
    }
  }

  lemma {:induction false} PassedRecordsAreHeld(codec: Codec, entries: seq<ZipEntry>, stem: string,
                                                files: seq<PayloadFile>, i: nat)
    requires CheckRecords(codec, entries, stem, files).Ok? && i < |files|
    ensures var found := ByName(entries, EntryName(stem, files[i].path));
            found.Some? && |found.value.data| == files[i].size && codec.sha256(found.value.data) == files[i].sha256
  {
    hide EntryName, ByName;
    if i < |files| - 1 {
      PassedRecordsAreHeld(codec, entries, stem, files[..|files| - 1], i);
    }
  }

  /** The archive holds the listed names and the manifest's, and nothing twice: each listed file with
      its size and digest, and a manifest that reads back as the payload. */
  ghost predicate HoldsExactly(codec: Codec, entries: seq<ZipEntry>, payload: PayloadManifest) {
    var stem, files := Stem(payload), payload.files;
    && |entries| == |files| + 1
    && (forall n :: HasName(entries, n) <==> HasPath(stem, files, n) || n == EntryName(stem, RELEASE_MANIFEST))
    && !HasPath(stem, files, EntryName(stem, RELEASE_MANIFEST))
    && (forall i | 0 <= i < |files| ::
          var found := ByName(entries, EntryName(stem, files[i].path));
          && found.Some? && |found.value.data| == files[i].size
          && codec.sha256(found.value.data) == files[i].sha256)
    && var found := ByName(entries, EntryName(stem, RELEASE_MANIFEST));
       found.Some? && codec.payloadOf(found.value.data) == Some(payload)
  }

  /** Where the archive of a release has the file of a path. */
  ghost function ReleasedName(payload: PayloadManifest, path: string): string {
    if payload.unsigned then "clew-v" + payload.version + "-" + payload.target + "/" + path
    else "clew-v" + payload.version + "-" + payload.target + "-signed/" + path
  }

  lemma ReleasedNameIs(payload: PayloadManifest, path: string)
    ensures ReleasedName(payload, path) == EntryName(Stem(payload), path)
  {
    var front := "clew-v" + payload.version + "-" + payload.target;
    assert front + "-signed/" + path == front + "-signed" + "/" + path;
    assert front + "" == front;
  }

  /** Some entry has this name, and the size and digest of the record. */
  ghost predicate HasFile(codec: Codec, entries: seq<ZipEntry>, name: string, record: PayloadFile) {
    exists j | 0 <= j < |entries| ::
      entries[j].name == name && |entries[j].data| == record.size && codec.sha256(entries[j].data) == record.sha256
  }

  lemma FoundIsThere(codec: Codec, entries: seq<ZipEntry>, payload: PayloadManifest, record: PayloadFile)
    requires var found := ByName(entries, EntryName(Stem(payload), record.path));
      found.Some? && |found.value.data| == record.size && codec.sha256(found.value.data) == record.sha256
    ensures HasFile(codec, entries, ReleasedName(payload, record.path), record)
  {
    hide ByName;
    var name := EntryName(Stem(payload), record.path);
    ByNameFinds(entries, name);
    ReleasedNameIs(payload, record.path);
    var j :| 0 <= j < |entries| && entries[j] == ByName(entries, name).value;
    assert entries[j].name == name;
  }

  /** An archive that is accepted holds exactly what is listed. */
  lemma PassedArchiveIsExact(codec: Codec, entries: seq<ZipEntry>, payload: PayloadManifest)
    requires DistinctNames(entries) && EntriesVerdict(codec, entries, payload).Ok?
    ensures HoldsExactly(codec, entries, payload)
    ensures forall i | 0 <= i < |payload.files| ::
      HasFile(codec, entries, ReleasedName(payload, payload.files[i].path), payload.files[i])
  {
    hide EntryName, Stem, CheckRecords, Names, PathNames, ByName, HasName, HasPath, ReleasedName, HasFile;
    var stem, files := Stem(payload), payload.files;
    NamesAre(entries);
    PathNamesAre(stem, files);
    DistinctNamesCount(entries, EntryName(stem, RELEASE_MANIFEST));
    forall i | 0 <= i < |files|
      ensures var found := ByName(entries, EntryName(stem, files[i].path));
              found.Some? && |found.value.data| == files[i].size && codec.sha256(found.value.data) == files[i].sha256
      ensures HasFile(codec, entries, ReleasedName(payload, files[i].path), files[i])
    {
      PassedRecordsAreHeld(codec, entries, stem, files, i);
      FoundIsThere(codec, entries, payload, files[i]);
    }
  }

  /** Unless digests collide, an accepted archive holds byte for byte what any matching directory holds. */
  lemma PassedArchiveHoldsListedBytes(codec: Codec, entries: seq<ZipEntry>, payload: PayloadManifest, source: Dir,
                                      i: nat)
    requires DistinctNames(entries) && EntriesVerdict(codec, entries, payload).Ok? && i < |payload.files|
    requires Matches(codec, source, payload.files[i])
    ensures var path := payload.files[i].path;
            var found := ByName(entries, EntryName(Stem(payload), path));
            found.Some? && (Collide(codec, found.value.data, source[path]) || found.value.data == source[path])
  {
    hide EntryName, Stem, EntriesVerdict, ByName, HasName, HasPath, IsRelativePath, ParseU32;
    PassedArchiveIsExact(codec, entries, payload);
  }
}
