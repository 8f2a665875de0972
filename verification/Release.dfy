/** What a ClientFlavor release says of itself, and what makes its metadata acceptable.
    SHA-256, JSON and ZIP are the functions of a `Codec`. */
module Release {
  import opened Wrappers
  import opened Text

  type Bytes = seq<byte>

  const RELEASE_SCHEMA_VERSION := 2
  const SIGNED_RELEASE_SCHEMA_VERSION := 3
  const CLIENT_FLAVOR_CACHE_SCHEMA_VERSION := 1
  const LEGACY_SITE_KIT_LAUNCHER_SCHEMA_VERSION := 1
  const SITE_KIT_LAUNCHER_SCHEMA_VERSION := 2
  const MAX_CLIENT_FLAVOR_CACHE_ENTRY_BYTES := 64 * 1024
  const MAX_RELEASE_MANIFEST_BYTES := 1024 * 1024
  const MAX_RELEASE_ARTIFACT_BYTES := 2 * 1024 * 1024 * 1024
  const MAX_RELEASE_PAYLOAD_FILES := 128
  const MAX_ACTIVE_POINTER_BYTES := 4096
  const MAX_STORED_CLIENT_FLAVORS := 256

  datatype DistributionError =
    | Io | Json | Zip | UnsupportedTarget | InvalidBoundedText | InvalidTarget | RuntimeNotDistributionEligible
    | SignedReleaseDirectoryRequiresNativeVerification | UnsupportedRuntimeSource | ReleaseClientFlavorMissing
    | UnsupportedCacheSchema | UnsupportedLauncherSchema | InvalidCacheKey | InvalidClientFlavorId | InvalidSha256
    | UnsafeFileName | UnsafeArchivePath | FileTooLarge | CacheDirectoryKeyMismatch | NotReleaseReady
    | ManifestHashMismatch | ArtifactMismatch | ReleaseMetadataMismatch | SemanticCacheKeyMismatch
    | LauncherMissingFromPayload | LauncherBundleMismatch | InvalidPlatformSigningEvidence | InvalidSigningState
    | InvalidReleaseReadyState | InvalidPayloadFileSet | UnexpectedArchiveEntries | ArchiveEntrySizeMismatch
    | PayloadHashMismatch | EmbeddedManifestMismatch | ImmutableCacheConflict | CopyVerificationFailed
    | PublishCacheEntry | PublishActivePointer | ActivePointerFlavorMismatch
    | TooManyStoredClientFlavors

  datatype ReleasePlatform = Windows | Macos | Linux

  datatype PayloadFile = PayloadFile(path: string, size: u64, sha256: string, mode: string)

  datatype ToolchainInfo = ToolchainInfo(release: string, commitHash: string, host: string, llvmVersion: string)

  datatype SigningInfo = SigningInfo(mechanism: string, identity: string, timestamped: bool, notarized: bool,
                                     stapled: bool, notarySubmissionId: Option<string>)

  datatype ClientFlavorInfo = ClientFlavorInfo(id: string, outfitId: string, outfitRevision: u32, buildCacheKey: string,
                                               appDisplayName: string, publisherLabel: Option<string>,
                                               iconFormat: string, iconAssetId: Option<string>)

  datatype LauncherInfo = LauncherInfo(schemaVersion: u32, executablePath: string, bundleRoot: Option<string>)

  datatype PayloadManifest = PayloadManifest(
    schemaVersion: u32, product: string, version: string, target: string, profile: string, archiveFormat: string,
    layout: string, appId: string, entrypoint: string, cliBinary: string, sourceCommit: string,
    sourceDateEpoch: u64, rustc: ToolchainInfo, cargoLockSha256: string, dirty: bool, unsigned: bool,
    signing: Option<SigningInfo>, clientFlavor: Option<ClientFlavorInfo>, siteKitLauncher: Option<LauncherInfo>,
    files: seq<PayloadFile>)

  datatype ArtifactInfo = ArtifactInfo(file: string, size: nat, sha256: string)

  datatype ArtifactManifest = ArtifactManifest(payload: PayloadManifest, artifact: ArtifactInfo)

  datatype CacheEntry = CacheEntry(
    schemaVersion: u32, cacheKey: string, clientFlavor: ClientFlavorInfo, version: string, target: string,
    profile: string, sourceCommit: string, releaseReady: bool, signing: Option<SigningInfo>,
    artifactFile: string, artifactSha256: string, manifestFile: string, manifestSha256: string)

  datatype KeyMaterial = KeyMaterial(
    clientFlavorId: string, buildCacheKey: string, version: string, target: string, profile: string,
    sourceCommit: string, signingMechanism: string, signingIdentity: string, dirtyPayloadSha256: Option<string>)

  /** One file of an archive, with the size that its header declares. */
  datatype ZipEntry = ZipEntry(name: string, declared: nat, mode: u32, data: Bytes)

  // ---------------------------------------------------------------- the codecs

  datatype Codec = Codec(
    entryOf: Bytes -> Option<CacheEntry>, entryText: CacheEntry -> Bytes,
    releaseOf: Bytes -> Option<ArtifactManifest>, releaseText: ArtifactManifest -> Bytes,
    payloadOf: Bytes -> Option<PayloadManifest>, payloadText: PayloadManifest -> Bytes,
    pointerOf: Bytes -> Option<string>, pointerText: string -> Bytes,
    keyText: KeyMaterial -> Bytes, keyOf: Bytes -> Option<KeyMaterial>,
    zipOf: Bytes -> Option<seq<ZipEntry>>, zipText: seq<ZipEntry> -> Bytes,
    sha256: Bytes -> string)

  ghost predicate DistinctNames(entries: seq<ZipEntry>) {
    forall i, j | 0 <= i < j < |entries| :: entries[i].name != entries[j].name
  }

  /** Every entry declares the size that it has. */
  ghost predicate WellDeclared(entries: seq<ZipEntry>) {
    forall i | 0 <= i < |entries| :: entries[i].declared == |entries[i].data|
  }

  /** What is assumed of the codecs: printed values read back, archives keep their entries and never
      show two of one name, and a digest is 64 hexadecimal digits. */
  ghost predicate Lawful(codec: Codec) {
    && (forall e :: codec.entryOf(codec.entryText(e)) == Some(e))
    && (forall r :: codec.releaseOf(codec.releaseText(r)) == Some(r))
    && (forall p :: codec.payloadOf(codec.payloadText(p)) == Some(p))
    && (forall k :: codec.pointerOf(codec.pointerText(k)) == Some(k))
    && (forall k | IsCacheKey(k) :: |codec.pointerText(k)| <= MAX_ACTIVE_POINTER_BYTES)
    && (forall m :: codec.keyOf(codec.keyText(m)) == Some(m))
    && (forall b :: IsSha256(codec.sha256(b)))
    && (forall es | DistinctNames(es) && WellDeclared(es) :: codec.zipOf(codec.zipText(es)) == Some(es))
    && (forall b | codec.zipOf(b).Some? :: DistinctNames(codec.zipOf(b).value))
  }

  /** Two different byte strings with one digest. */
  ghost predicate Collide(codec: Codec, a: Bytes, b: Bytes) {
    a != b && codec.sha256(a) == codec.sha256(b)
  }

  // ---------------------------------------------------------------- single fields

  predicate IsHex(s: string) {
    forall c | c in s :: IsAsciiHexDigit(c)
  }

  predicate IsSha256(s: string) {
    |s| == 64 && IsHex(s)
  }

  const CACHE_KEY_PREFIX := "client-flavor-v1-"

  predicate IsCacheKey(s: string) {
    CACHE_KEY_PREFIX <= s && IsSha256(s[|CACHE_KEY_PREFIX|..])
  }

  predicate IsNameText(s: string) {
    forall c | c in s :: IsAsciiAlphanumeric(c) || c == '-' || c == '_'
  }

  predicate IsFlavorId(s: string) {
    s != "" && Utf8Length(s) <= 128 && IsNameText(s)
  }

  predicate IsBoundedText(s: string, max: nat) {
    s != "" && Utf8Length(s) <= max && Trim(s) == s && forall c | c in s :: !IsControl(c)
  }

  predicate IsBasename(s: string) {
    && s != "" && Utf8Length(s) <= 255 && s != "." && s != ".."
    && '/' !in s && '\\' !in s && forall c | c in s :: !IsControl(c)
  }

  predicate IsRelativePath(s: string) {
    && s != "" && s[0] != '/' && '\\' !in s && '\0' !in s
    && forall segment | segment in Split(s, '/') :: segment != "" && segment != "." && segment != ".."
  }

  function PlatformOf(target: string): Result<ReleasePlatform, DistributionError> {
    if Contains(target, "windows") then Ok(Windows)
    else if Contains(target, "apple-darwin") then Ok(Macos)
    else if Contains(target, "linux") then Ok(Linux)
    else Err(UnsupportedTarget)
  }

  function ArchOf(target: string): Result<string, DistributionError> {
    var first := Split(target, '-')[0];
    if first == "" then Err(InvalidTarget) else Ok(first)
  }

  /** The version's first part is 0. */
  predicate IsZeroMajor(version: string) {
    Split(version, '.')[0] == "0"
  }

  // ---------------------------------------------------------------- the cache key

  function KeyWithDigest(codec: Codec, flavor: ClientFlavorInfo, payload: PayloadManifest,
                         digest: Option<string>): string {
    var (mechanism, identity) :=
      if payload.signing.Some? then (payload.signing.value.mechanism, payload.signing.value.identity)
      else ("unsigned", "unsigned");
    CACHE_KEY_PREFIX + codec.sha256(codec.keyText(
      KeyMaterial(flavor.id, flavor.buildCacheKey, payload.version, payload.target, payload.profile,
                  payload.sourceCommit, mechanism, identity, digest)))
  }

  function LegacyCacheKey(codec: Codec, flavor: ClientFlavorInfo, payload: PayloadManifest): string {
    KeyWithDigest(codec, flavor, payload, None)
  }

  /** `client_flavor_cache_key`: the identity of a dirty build binds its exact payload. */
  function CacheKey(codec: Codec, flavor: ClientFlavorInfo, payload: PayloadManifest): string {
    KeyWithDigest(codec, flavor, payload,
                  if payload.dirty then Some(codec.sha256(codec.payloadText(payload))) else None)
  }

  lemma CacheKeyIsCacheKey(codec: Codec, flavor: ClientFlavorInfo, payload: PayloadManifest)
    requires Lawful(codec)
    ensures IsCacheKey(CacheKey(codec, flavor, payload))
  {
    hide IsSha256;
    var key := CacheKey(codec, flavor, payload);
    var digest := key[|CACHE_KEY_PREFIX|..];
    assert exists b :: digest == codec.sha256(b);
  }

  ghost function DigestOf(codec: Codec, p: PayloadManifest): Option<string> {
    if p.dirty then Some(codec.sha256(codec.payloadText(p))) else None
  }

  ghost function MaterialOf(f: ClientFlavorInfo, p: PayloadManifest, digest: Option<string>): KeyMaterial {
    KeyMaterial(f.id, f.buildCacheKey, p.version, p.target, p.profile, p.sourceCommit,
                if p.signing.Some? then p.signing.value.mechanism else "unsigned",
                if p.signing.Some? then p.signing.value.identity else "unsigned", digest)
  }

  /** Unless digests collide, equal keys mean equal identities, and of dirty builds equal payloads. */
  lemma CacheKeyBinds(codec: Codec, f: ClientFlavorInfo, p: PayloadManifest, f': ClientFlavorInfo, p': PayloadManifest)
    requires Lawful(codec) && CacheKey(codec, f, p) == CacheKey(codec, f', p')
    requires !Collide(codec, codec.payloadText(p), codec.payloadText(p'))
    requires !Collide(codec, codec.keyText(MaterialOf(f, p, DigestOf(codec, p))),
                      codec.keyText(MaterialOf(f', p', DigestOf(codec, p'))))
    ensures f.id == f'.id && f.buildCacheKey == f'.buildCacheKey
    ensures p.version == p'.version && p.target == p'.target && p.profile == p'.profile
    ensures p.sourceCommit == p'.sourceCommit
    ensures p.signing.Some? && p'.signing.Some? ==>
      && p.signing.value.mechanism == p'.signing.value.mechanism
      && p.signing.value.identity == p'.signing.value.identity
    ensures p.dirty == p'.dirty && (p.dirty ==> p == p')
  {
    hide IsSha256, IsCacheKey;
    SameKey(codec, f, p, DigestOf(codec, p), f', p', DigestOf(codec, p'));
    if p.dirty {
      assert codec.payloadOf(codec.payloadText(p)) == Some(p);
      assert codec.payloadOf(codec.payloadText(p')) == Some(p');
    }
  }

  /** Unless digests collide, a dirty build never has a key of the legacy form. */
  lemma DirtyKeyIsNotLegacy(codec: Codec, f: ClientFlavorInfo, p: PayloadManifest,
                            f': ClientFlavorInfo, p': PayloadManifest)
    requires Lawful(codec) && p.dirty
    requires !Collide(codec, codec.keyText(MaterialOf(f, p, DigestOf(codec, p))),
                      codec.keyText(MaterialOf(f', p', None)))
    ensures CacheKey(codec, f, p) != LegacyCacheKey(codec, f', p')
  {
    hide IsSha256, IsCacheKey;
    if CacheKey(codec, f, p) == LegacyCacheKey(codec, f', p') {
      SameKey(codec, f, p, DigestOf(codec, p), f', p', None);
    }
  }

  lemma SameKey(codec: Codec, f: ClientFlavorInfo, p: PayloadManifest, digest: Option<string>,
                f': ClientFlavorInfo, p': PayloadManifest, digest': Option<string>)
    requires Lawful(codec) && KeyWithDigest(codec, f, p, digest) == KeyWithDigest(codec, f', p', digest')
    requires !Collide(codec, codec.keyText(MaterialOf(f, p, digest)), codec.keyText(MaterialOf(f', p', digest')))
    ensures MaterialOf(f, p, digest) == MaterialOf(f', p', digest')
  {
    hide IsSha256, IsCacheKey;
    var m := MaterialOf(f, p, digest);
    var m' := MaterialOf(f', p', digest');
    var a, b := codec.sha256(codec.keyText(m)), codec.sha256(codec.keyText(m'));
    assert (CACHE_KEY_PREFIX + a)[|CACHE_KEY_PREFIX|..] == a;
    assert (CACHE_KEY_PREFIX + b)[|CACHE_KEY_PREFIX|..] == b;
    assert codec.keyOf(codec.keyText(m)) == Some(m);
    assert codec.keyOf(codec.keyText(m')) == Some(m');
  }

  // ---------------------------------------------------------------- the shape of a release

  predicate FlavorTextsAreGood(flavor: ClientFlavorInfo) {
    && IsBoundedText(flavor.outfitId, 128) && flavor.outfitRevision != 0
    && "outfit-v1-" <= flavor.buildCacheKey
  }

  function ValidateClientFlavor(flavor: ClientFlavorInfo): Result<(), DistributionError> {
    var _ :- Need(IsFlavorId(flavor.id), InvalidClientFlavorId);
    var _ :- Need(FlavorTextsAreGood(flavor), InvalidBoundedText);
    var _ :- Need(IsSha256(flavor.buildCacheKey[|"outfit-v1-"|..]), InvalidSha256);
    var _ :- Need(IsBoundedText(flavor.appDisplayName, 256), InvalidBoundedText);
    var _ :- Need(flavor.publisherLabel.Some? ==> IsBoundedText(flavor.publisherLabel.value, 256), InvalidBoundedText);
    var _ :- Need(flavor.iconFormat == "png" || flavor.iconFormat == "svg", InvalidBoundedText);
    var _ :- Need(flavor.iconAssetId.Some? ==> "sha256-" <= flavor.iconAssetId.value, InvalidBoundedText);
    var _ :- Need(flavor.iconAssetId.Some? ==> IsSha256(flavor.iconAssetId.value[|"sha256-"|..]), InvalidSha256);
    Ok(())
  }

  predicate SigningTextsAreGood(signing: Option<SigningInfo>) {
    signing.Some? ==>
      && IsBoundedText(signing.value.mechanism, 64) && IsBoundedText(signing.value.identity, 256)
      && (signing.value.notarySubmissionId.Some? ==> IsBoundedText(signing.value.notarySubmissionId.value, 128))
  }

  function ValidateTexts(entry: CacheEntry, payload: PayloadManifest): Result<(), DistributionError> {
    var _ :- Need(IsBoundedText(payload.product, 32) && IsBoundedText(payload.version, 64), InvalidBoundedText);
    var _ :- Need(IsBoundedText(payload.target, 128), InvalidBoundedText);
    var _ :- Need(IsNameText(payload.target), InvalidTarget);
    var _ :- Need(IsBoundedText(payload.profile, 64) && IsNameText(payload.profile), InvalidBoundedText);
    var _ :- Need(IsBoundedText(payload.layout, 64) && IsBoundedText(payload.appId, 128), InvalidBoundedText);
    var _ :- Need(|payload.sourceCommit| == 40 && IsHex(payload.sourceCommit), InvalidBoundedText);
    var _ :- Need(IsSha256(payload.cargoLockSha256), InvalidSha256);
    var _ :- ValidateClientFlavor(entry.clientFlavor);
    var _ :- Need(SigningTextsAreGood(payload.signing), InvalidBoundedText);
    Ok(())
  }

  /** A dirty build is for a local acceptance store only, and then unsigned and of a 0.x version. */
  predicate DirtyIsAllowed(payload: PayloadManifest, allowDirty: bool) {
    payload.dirty ==> allowDirty && payload.unsigned && payload.signing.None? && IsZeroMajor(payload.version)
  }

  predicate SaysTheSame(entry: CacheEntry, payload: PayloadManifest) {
    && payload.product == "clew" && payload.archiveFormat == "zip" && payload.version == entry.version
    && payload.target == entry.target && payload.profile == entry.profile
    && payload.sourceCommit == entry.sourceCommit && payload.signing == entry.signing
    && payload.clientFlavor == Some(entry.clientFlavor) && payload.siteKitLauncher.Some?
  }

  function ValidateLauncher(launcher: LauncherInfo, files: seq<PayloadFile>): Result<(), DistributionError> {
    var _ :- Need(launcher.schemaVersion == LEGACY_SITE_KIT_LAUNCHER_SCHEMA_VERSION
            || launcher.schemaVersion == SITE_KIT_LAUNCHER_SCHEMA_VERSION, UnsupportedLauncherSchema);
    var _ :- Need(IsRelativePath(launcher.executablePath), UnsafeArchivePath);
    var _ :- Need(exists i | 0 <= i < |files| :: files[i].path == launcher.executablePath, LauncherMissingFromPayload);
    var _ :- Need(launcher.bundleRoot.Some? ==> IsRelativePath(launcher.bundleRoot.value), UnsafeArchivePath);
    var _ :- Need(launcher.bundleRoot.Some? ==> launcher.bundleRoot.value + "/" <= launcher.executablePath,
            LauncherBundleMismatch);
    Ok(())
  }

  predicate KeyIsSemantic(codec: Codec, entry: CacheEntry, payload: PayloadManifest) {
    || entry.cacheKey == CacheKey(codec, entry.clientFlavor, payload)
    || (payload.dirty && entry.cacheKey == LegacyCacheKey(codec, entry.clientFlavor, payload))
  }

  predicate SigningStateIsGood(payload: PayloadManifest) {
    || (payload.schemaVersion == RELEASE_SCHEMA_VERSION && payload.unsigned && payload.signing.None?)
    || (payload.schemaVersion == SIGNED_RELEASE_SCHEMA_VERSION && !payload.unsigned && payload.signing.Some?)
  }

  /** Linux releases are ready unsigned, the others signed; a dirty build never is. */
  predicate ExpectedReady(platform: ReleasePlatform, payload: PayloadManifest) {
    !payload.dirty && (if platform == Linux then payload.unsigned else !payload.unsigned)
  }

  predicate SigningEvidenceIsGood(platform: ReleasePlatform, payload: PayloadManifest) {
    match (platform, payload.signing)
    case (Windows, Some(signing)) =>
      signing.mechanism == "windows-authenticode" && signing.timestamped && !signing.notarized && !signing.stapled
    case (Macos, Some(signing)) =>
      signing.mechanism == "macos-developer-id-notarized"
      && signing.timestamped && signing.notarized && signing.stapled
    case (Linux, Some(_)) => false
    case (Linux, None) => true
    case (_, None) => payload.unsigned
  }

  /** The files of the list so far are good, and in strictly increasing order. */
  function ValidateFiles(files: seq<PayloadFile>): Result<(), DistributionError> {
    if files == [] then Ok(())
    else
      var n := |files| - 1;
      var _ :- ValidateFiles(files[..n]);
      var _ :- Need(IsRelativePath(files[n].path), UnsafeArchivePath);
      var _ :- Need(IsSha256(files[n].sha256), InvalidSha256);
      var _ :- Need(n > 0 ==> Below(files[n - 1].path, files[n].path), InvalidPayloadFileSet);
      Ok(())
  }

  /** `validate_release_shape`. */
  function ReleaseShape(codec: Codec, entry: CacheEntry, payload: PayloadManifest, allowDirty: bool)
    : Result<(), DistributionError>
  {
    var _ :- ValidateTexts(entry, payload);
    var _ :- Need(DirtyIsAllowed(payload, allowDirty), ReleaseMetadataMismatch);
    var _ :- Need(SaysTheSame(entry, payload), ReleaseMetadataMismatch);
    var _ :- ValidateLauncher(payload.siteKitLauncher.value, payload.files);
    var _ :- Need(KeyIsSemantic(codec, entry, payload), SemanticCacheKeyMismatch);
    var platform :- PlatformOf(entry.target);
    var _ :- Need(SigningStateIsGood(payload), InvalidSigningState);
    var _ :- Need(entry.releaseReady == ExpectedReady(platform, payload), InvalidReleaseReadyState);
    var _ :- Need(SigningEvidenceIsGood(platform, payload), InvalidPlatformSigningEvidence);
    var _ :- Need(0 < |payload.files| <= MAX_RELEASE_PAYLOAD_FILES, InvalidPayloadFileSet);
    var _ :- ValidateFiles(payload.files);
    Ok(())
  }

  /** Goes through the file list once, remembering the previous path. */
  method ValidateFileList(files: seq<PayloadFile>) returns (r: Result<(), DistributionError>)
    ensures r == ValidateFiles(files)
  {
    var previous: Option<string> := None;
    for i := 0 to |files|
      invariant ValidateFiles(files[..i]) == Ok(())
      invariant previous == if i == 0 then None else Some(files[i - 1].path)
    {
      var file := files[i];
      assert files[..i + 1][..i] == files[..i];
      FailsEarly(files, i + 1);
      if !IsRelativePath(file.path) {
        return Err(UnsafeArchivePath);
      }
      if !IsSha256(file.sha256) {
        return Err(InvalidSha256);
      }
      if previous.Some? && !Below(previous.value, file.path) {
        return Err(InvalidPayloadFileSet);
      }
      previous := Some(file.path);
    }
    assert files[..|files|] == files;
    r := Ok(());
  }

  lemma {:induction false} FailsEarly(files: seq<PayloadFile>, n: nat)
    requires n <= |files|
    ensures ValidateFiles(files[..n]).Err? ==> ValidateFiles(files) == ValidateFiles(files[..n])
    decreases |files| - n
  {
    hide IsRelativePath, IsSha256, Below;
    if n == |files| {
      assert files[..n] == files;
    } else {
      FailsEarly(files, n + 1);
      assert files[..n + 1][..n] == files[..n];
    }
  }

  ghost predicate StrictlySorted(files: seq<PayloadFile>) {
    forall i, j | 0 <= i < j < |files| :: Below(files[i].path, files[j].path)
  }

  /** A list is accepted exactly when every path and digest is good and the paths strictly increase. */
  lemma {:induction false} ValidFilesAreSorted(files: seq<PayloadFile>)
    ensures ValidateFiles(files).Ok? <==>
      StrictlySorted(files) && forall i | 0 <= i < |files| :: IsRelativePath(files[i].path) && IsSha256(files[i].sha256)
  {
    hide IsRelativePath, IsSha256;
    if files != [] {
      var n := |files| - 1;
      var init := files[..n];
      ValidFilesAreSorted(init);
      if ValidateFiles(files).Ok? {
        forall i, j | 0 <= i < j < |files|
          ensures Below(files[i].path, files[j].path)
        {
          if j < n {
            assert Below(init[i].path, init[j].path);
          } else if i < n - 1 {
            assert Below(init[i].path, init[n - 1].path);
            BelowTransitive(files[i].path, files[n - 1].path, files[n].path);
          }
        }
        forall i | 0 <= i < |files|
          ensures IsRelativePath(files[i].path) && IsSha256(files[i].sha256)
        {
          if i < n {
            assert init[i] == files[i];
          }
        }
      } else if StrictlySorted(files) {
        assert forall i | 0 <= i < n :: init[i] == files[i];
      }
    }
  }

  lemma SortedIsDistinct(files: seq<PayloadFile>)
    requires StrictlySorted(files)
    ensures forall i, j | 0 <= i < j < |files| :: files[i].path != files[j].path
  {
    hide Below;
    forall i, j | 0 <= i < j < |files|
      ensures files[i].path != files[j].path
    {
      BelowIrreflexive(files[i].path);
      assert Below(files[i].path, files[j].path);
    }
  }

  /** What an accepted shape tells. */
  lemma ShapeTells(codec: Codec, entry: CacheEntry, payload: PayloadManifest, allowDirty: bool)
    requires ReleaseShape(codec, entry, payload, allowDirty).Ok?
    ensures IsFlavorId(entry.clientFlavor.id) && payload.clientFlavor == Some(entry.clientFlavor)
    ensures payload.version == entry.version && payload.target == entry.target && payload.signing == entry.signing
    ensures payload.dirty ==>
      allowDirty && payload.unsigned && payload.signing.None? && IsZeroMajor(payload.version) && !entry.releaseReady
    ensures PlatformOf(entry.target).Ok? && entry.releaseReady == ExpectedReady(PlatformOf(entry.target).value, payload)
    ensures payload.unsigned <==> payload.signing.None?
    ensures payload.signing.Some? && Contains(entry.target, "windows") ==>
      var signing := payload.signing.value;
      signing.mechanism == "windows-authenticode" && signing.timestamped && !signing.notarized && !signing.stapled
    ensures payload.signing.Some? && !Contains(entry.target, "windows") ==>
      var signing := payload.signing.value;
      && Contains(entry.target, "apple-darwin") && signing.mechanism == "macos-developer-id-notarized"
      && signing.timestamped && signing.notarized && signing.stapled
    ensures StrictlySorted(payload.files) && KeyIsSemantic(codec, entry, payload)
    ensures forall i | 0 <= i < |payload.files| :: IsRelativePath(payload.files[i].path)
  {
    hide IsBoundedText, IsNameText, IsHex, IsSha256, IsFlavorId, IsRelativePath, IsZeroMajor, FlavorTextsAreGood,
         SigningTextsAreGood, KeyIsSemantic, SigningEvidenceIsGood, PlatformOf, StrictlySorted, ValidateFiles;
    ValidFilesAreSorted(payload.files);
    EvidenceTells(entry.target, payload);
  }

  /** Linux releases are never signed; those for Windows and macOS only in the way of their platform. */
  lemma EvidenceTells(target: string, payload: PayloadManifest)
    requires PlatformOf(target).Ok? && SigningEvidenceIsGood(PlatformOf(target).value, payload)
    ensures payload.signing.Some? ==>
      var signing := payload.signing.value;
      && signing.timestamped
      && (if Contains(target, "windows") then
            signing.mechanism == "windows-authenticode" && !signing.notarized && !signing.stapled
          else
            && Contains(target, "apple-darwin") && signing.mechanism == "macos-developer-id-notarized"
            && signing.notarized && signing.stapled)
  {
    hide Contains;
  }

  /** The strict policy accepts no dirty build, and all that it accepts the other policy accepts too. */
  lemma StrictImpliesLenient(codec: Codec, entry: CacheEntry, payload: PayloadManifest, allowDirty: bool)
    ensures ReleaseShape(codec, entry, payload, false).Ok? ==>
      ReleaseShape(codec, entry, payload, allowDirty).Ok? && !payload.dirty
    ensures !payload.dirty ==>
      ReleaseShape(codec, entry, payload, allowDirty) == ReleaseShape(codec, entry, payload, false)
  {
    hide ValidateTexts, SaysTheSame, ValidateLauncher, KeyIsSemantic, PlatformOf, SigningStateIsGood,
         SigningEvidenceIsGood, ValidateFiles;
  }
}
