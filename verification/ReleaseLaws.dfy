/** What an acceptable release says of itself, condition by condition and whatever the order of the checks. */
module ReleaseLaws {
  import opened Wrappers
  import opened Text
  import opened Release

  // ---------------------------------------------------------------- single texts

  /** A path is accepted exactly when it is relative, has no backslash and no NUL, and nothing that stands
      between two slashes is empty, one dot or two dots. */
  lemma RelativePathExactly(s: string)
    ensures IsRelativePath(s) <==>
      && 0 < |s| && s[0] != '/' && '\\' !in s && '\0' !in s
      && forall i: nat, j: nat | IsPiece(s, '/', i, j) :: s[i..j] != "" && s[i..j] != "." && s[i..j] != ".."
  {
    hide Split;
    forall piece
      ensures piece in Split(s, '/') <==> exists i: nat, j: nat :: IsPiece(s, '/', i, j) && piece == s[i..j]
    {
      SplitGivesPieces(s, '/', piece);
    }
    if IsRelativePath(s) {
      forall i: nat, j: nat | IsPiece(s, '/', i, j)
        ensures s[i..j] != "" && s[i..j] != "." && s[i..j] != ".."
      {
        assert s[i..j] in Split(s, '/');
      }
    } else if s != "" && s[0] != '/' && '\\' !in s && '\0' !in s {
      var piece :| piece in Split(s, '/') && (piece == "" || piece == "." || piece == "..");
      var i: nat, j: nat :| IsPiece(s, '/', i, j) && piece == s[i..j];
    }
  }

  /** A fixed prefix and a digest. */
  ghost predicate IsDigestAfter(s: string, prefix: string) {
    exists digest :: s == prefix + digest && IsSha256(digest)
  }

  lemma DigestAfter(s: string, prefix: string)
    ensures IsDigestAfter(s, prefix) <==> prefix <= s && IsSha256(s[|prefix|..])
  {
    if prefix <= s && IsSha256(s[|prefix|..]) {
      assert s == prefix + s[|prefix|..];
    }
    if digest :| s == prefix + digest && IsSha256(digest) {
      assert s[|prefix|..] == digest;
    }
  }

  ghost predicate AcceptableFlavor(f: ClientFlavorInfo) {
    && IsFlavorId(f.id) && IsBoundedText(f.outfitId, 128) && 1 <= f.outfitRevision
    && IsDigestAfter(f.buildCacheKey, "outfit-v1-") && IsBoundedText(f.appDisplayName, 256)
    && (f.publisherLabel.Some? ==> IsBoundedText(f.publisherLabel.value, 256))
    && f.iconFormat in {"png", "svg"}
    && (f.iconAssetId.Some? ==> IsDigestAfter(f.iconAssetId.value, "sha256-"))
  }

  lemma FlavorExactly(f: ClientFlavorInfo)
    ensures ValidateClientFlavor(f).Ok? <==> AcceptableFlavor(f)
  {
    hide IsFlavorId, IsBoundedText, IsSha256;
    DigestAfter(f.buildCacheKey, "outfit-v1-");
    if f.iconAssetId.Some? {
      DigestAfter(f.iconAssetId.value, "sha256-");
    }
  }

  ghost predicate AcceptableTexts(p: PayloadManifest) {
    && IsBoundedText(p.version, 64) && IsBoundedText(p.target, 128) && IsNameText(p.target)
    && IsBoundedText(p.profile, 64) && IsNameText(p.profile)
    && IsBoundedText(p.layout, 64) && IsBoundedText(p.appId, 128)
    && |p.sourceCommit| == 40 && IsHex(p.sourceCommit) && IsSha256(p.cargoLockSha256)
  }

  // ---------------------------------------------------------------- the parts of a release

  ghost predicate AcceptableLauncher(launcher: LauncherInfo, files: seq<PayloadFile>) {
    && (launcher.schemaVersion == 1 || launcher.schemaVersion == 2)
    && IsRelativePath(launcher.executablePath)
    && (exists i :: 0 <= i < |files| && files[i].path == launcher.executablePath)
    && (launcher.bundleRoot.Some? ==>
          && IsRelativePath(launcher.bundleRoot.value)
          && exists inner :: launcher.executablePath == launcher.bundleRoot.value + "/" + inner)
  }

  lemma LauncherExactly(launcher: LauncherInfo, files: seq<PayloadFile>)
    ensures ValidateLauncher(launcher, files).Ok? <==> AcceptableLauncher(launcher, files)
  {
    hide IsRelativePath;
    if launcher.bundleRoot.Some? {
      var root, path := launcher.bundleRoot.value, launcher.executablePath;
      if root + "/" <= path {
        assert path == root + "/" + path[|root| + 1..];
      }
    }
  }

  /** Signed as its platform demands.  Without a signature a release is ready for Linux only, and then if
      it is clean; with one it is for Windows or macOS, and ready. */
  ghost predicate AcceptableSigning(target: string, p: PayloadManifest, ready: bool) {
    var windows, macos, linux :=
      Contains(target, "windows"), Contains(target, "apple-darwin"), Contains(target, "linux");
    && (windows || macos || linux)
    && match p.signing
       case None => p.schemaVersion == 2 && p.unsigned && (ready <==> !p.dirty && !windows && !macos)
       case Some(s) =>
         && p.schemaVersion == 3 && !p.unsigned && ready && s.timestamped
         && (|| (windows && s.mechanism == "windows-authenticode" && !s.notarized && !s.stapled)
             || (!windows && macos && s.mechanism == "macos-developer-id-notarized" && s.notarized && s.stapled))
         && IsBoundedText(s.identity, 256)
         && (s.notarySubmissionId.Some? ==> IsBoundedText(s.notarySubmissionId.value, 128))
  }

  ghost predicate AcceptableFiles(files: seq<PayloadFile>) {
    && 1 <= |files| <= 128 && StrictlySorted(files)
    && forall i | 0 <= i < |files| :: IsRelativePath(files[i].path) && IsSha256(files[i].sha256)
  }

  /** The manifest alone. */
  ghost predicate AcceptablePayload(p: PayloadManifest, ready: bool, allowDirty: bool) {
    && p.product == "clew" && p.archiveFormat == "zip" && AcceptableTexts(p)
    && p.clientFlavor.Some? && AcceptableFlavor(p.clientFlavor.value)
    && (p.dirty ==> allowDirty && p.signing.None? && Split(p.version, '.')[0] == "0")
    && p.siteKitLauncher.Some? && AcceptableLauncher(p.siteKitLauncher.value, p.files)
    && AcceptableSigning(p.target, p, ready) && AcceptableFiles(p.files)
  }

  /** The manifest, and an entry that says the same and has the key of the manifest. */
  ghost predicate AcceptableRelease(codec: Codec, entry: CacheEntry, p: PayloadManifest, allowDirty: bool) {
    && AcceptablePayload(p, entry.releaseReady, allowDirty)
    && p.clientFlavor == Some(entry.clientFlavor) && p.version == entry.version && p.target == entry.target
    && p.profile == entry.profile && p.sourceCommit == entry.sourceCommit && p.signing == entry.signing
    && (|| entry.cacheKey == CacheKey(codec, entry.clientFlavor, p)
        || (p.dirty && entry.cacheKey == LegacyCacheKey(codec, entry.clientFlavor, p)))
  }

  lemma SigningExactly(entry: CacheEntry, p: PayloadManifest)
    requires p.target == entry.target && SigningTextsAreGood(p.signing)
    requires p.dirty ==> p.unsigned && p.signing.None?
    ensures (&& PlatformOf(entry.target).Ok? && SigningStateIsGood(p)
             && entry.releaseReady == ExpectedReady(PlatformOf(entry.target).value, p)
             && SigningEvidenceIsGood(PlatformOf(entry.target).value, p))
        <==> AcceptableSigning(p.target, p, entry.releaseReady)
  {
    hide Contains, IsBoundedText;
  }

  lemma SigningTexts(p: PayloadManifest, ready: bool)
    requires AcceptableSigning(p.target, p, ready)
    ensures SigningTextsAreGood(p.signing)
  {
    hide Contains, IsBoundedText;
    Mechanisms();
  }

  lemma PlainIsBounded(s: string, max: nat)
    requires 0 < |s| <= max && forall i | 0 <= i < |s| :: '!' <= s[i] <= '~'
    ensures IsBoundedText(s, max)
  {
    hide Trim, Utf8Length;
    AsciiUtf8Length(s);
    assert !IsWhitespace(s[0]) && !IsWhitespace(s[|s| - 1]);
    TrimUnchanged(s);
  }

  lemma Mechanisms()
    ensures IsBoundedText("windows-authenticode", 64) && IsBoundedText("macos-developer-id-notarized", 64)
    ensures IsBoundedText("clew", 32)
  {
    hide IsBoundedText;
    PlainIsBounded("windows-authenticode", 64);
    PlainIsBounded("macos-developer-id-notarized", 64);
    PlainIsBounded("clew", 32);
  }

  lemma TextsExactly(entry: CacheEntry, p: PayloadManifest)
    requires p.product == "clew" && p.clientFlavor == Some(entry.clientFlavor)
    ensures ValidateTexts(entry, p).Ok? <==>
      AcceptableTexts(p) && AcceptableFlavor(entry.clientFlavor) && SigningTextsAreGood(p.signing)
  {
    hide IsBoundedText, IsNameText, IsHex, IsSha256, ValidateClientFlavor, AcceptableFlavor, SigningTextsAreGood;
    FlavorExactly(entry.clientFlavor);
    Mechanisms();
  }

  /** The shape of a release is accepted exactly when the entry and its manifest are acceptable: no check
      is missing, and none is too much. */
  lemma ShapeExactly(codec: Codec, entry: CacheEntry, p: PayloadManifest, allowDirty: bool)
    ensures ReleaseShape(codec, entry, p, allowDirty).Ok? <==> AcceptableRelease(codec, entry, p, allowDirty)
  {
    hide ValidateTexts, AcceptableTexts, AcceptableFlavor, AcceptableLauncher, ValidateLauncher, AcceptableSigning,
         ValidateFiles, SigningStateIsGood, SigningEvidenceIsGood, ExpectedReady, SigningTextsAreGood,
         PlatformOf, CacheKey, LegacyCacheKey, StrictlySorted, IsRelativePath, IsSha256, Split;
    ValidFilesAreSorted(p.files);
    if p.product == "clew" && p.clientFlavor == Some(entry.clientFlavor) {
      TextsExactly(entry, p);
      if p.siteKitLauncher.Some? {
        LauncherExactly(p.siteKitLauncher.value, p.files);
      }
      if AcceptableRelease(codec, entry, p, allowDirty) {
        SigningTexts(p, entry.releaseReady);
        SigningStates(p, entry.releaseReady);
      }
      if p.target == entry.target && SigningTextsAreGood(p.signing) && DirtyIsAllowed(p, allowDirty) {
        SigningExactly(entry, p);
      }
    }
  }

  lemma SigningStates(p: PayloadManifest, ready: bool)
    requires AcceptableSigning(p.target, p, ready)
    ensures p.unsigned <==> p.signing.None?
  {
    hide Contains;
  }

  // ---------------------------------------------------------------- which error

  /** Something is wrong that this error names. */
  ghost predicate IsFaultOf(error: DistributionError, codec: Codec, entry: CacheEntry, p: PayloadManifest,
                            allowDirty: bool)
  {
    var windows, macos, linux :=
      Contains(p.target, "windows"), Contains(p.target, "apple-darwin"), Contains(p.target, "linux");
    match error
    case InvalidBoundedText =>
      || !IsBoundedText(p.product, 32) || !AcceptableTexts(p) || !AcceptableFlavor(entry.clientFlavor)
      || !SigningTextsAreGood(p.signing)
    case InvalidTarget => !IsNameText(p.target)
    case InvalidClientFlavorId => !IsFlavorId(entry.clientFlavor.id)
    case InvalidSha256 =>
      || !IsSha256(p.cargoLockSha256) || !IsDigestAfter(entry.clientFlavor.buildCacheKey, "outfit-v1-")
      || (entry.clientFlavor.iconAssetId.Some? && !IsDigestAfter(entry.clientFlavor.iconAssetId.value, "sha256-"))
      || exists i :: 0 <= i < |p.files| && !IsSha256(p.files[i].sha256)
    case ReleaseMetadataMismatch =>
      || (p.dirty && !(allowDirty && p.unsigned && p.signing.None? && Split(p.version, '.')[0] == "0"))
      || p.product != "clew" || p.archiveFormat != "zip" || p.version != entry.version || p.target != entry.target
      || p.profile != entry.profile || p.sourceCommit != entry.sourceCommit || p.signing != entry.signing
      || p.clientFlavor != Some(entry.clientFlavor) || p.siteKitLauncher.None?
    case UnsupportedLauncherSchema =>
      && p.siteKitLauncher.Some?
      && p.siteKitLauncher.value.schemaVersion != 1 && p.siteKitLauncher.value.schemaVersion != 2
    case UnsafeArchivePath =>
      || (p.siteKitLauncher.Some?
          && var launcher := p.siteKitLauncher.value;
             || !IsRelativePath(launcher.executablePath)
             || (launcher.bundleRoot.Some? && !IsRelativePath(launcher.bundleRoot.value)))
      || exists i :: 0 <= i < |p.files| && !IsRelativePath(p.files[i].path)
    case LauncherMissingFromPayload =>
      p.siteKitLauncher.Some?
      && forall i | 0 <= i < |p.files| :: p.files[i].path != p.siteKitLauncher.value.executablePath
    case LauncherBundleMismatch =>
      p.siteKitLauncher.Some?
      && var launcher := p.siteKitLauncher.value;
         launcher.bundleRoot.Some?
         && forall inner :: launcher.executablePath != launcher.bundleRoot.value + "/" + inner
    case SemanticCacheKeyMismatch =>
      && entry.cacheKey != CacheKey(codec, entry.clientFlavor, p)
      && (p.dirty ==> entry.cacheKey != LegacyCacheKey(codec, entry.clientFlavor, p))
    case UnsupportedTarget => !windows && !macos && !linux
    case InvalidSigningState =>
      && !(p.schemaVersion == 2 && p.unsigned && p.signing.None?)
      && !(p.schemaVersion == 3 && !p.unsigned && p.signing.Some?)
    case InvalidReleaseReadyState =>
      entry.releaseReady != (!p.dirty && (p.unsigned <==> !windows && !macos))
    case InvalidPlatformSigningEvidence =>
      && p.signing.Some?
      && var s := p.signing.value;
         && !(windows && s.mechanism == "windows-authenticode" && s.timestamped && !s.notarized && !s.stapled)
         && !(!windows && macos && s.mechanism == "macos-developer-id-notarized" && s.timestamped && s.notarized
              && s.stapled)
    case InvalidPayloadFileSet => |p.files| == 0 || |p.files| > 128 || !StrictlySorted(p.files)
    case _ => false
  }

  lemma FlavorFault(f: ClientFlavorInfo, error: DistributionError)
    requires ValidateClientFlavor(f) == Err(error)
    ensures match error
      case InvalidClientFlavorId => !IsFlavorId(f.id)
      case InvalidBoundedText => !AcceptableFlavor(f)
      case InvalidSha256 =>
        || !IsDigestAfter(f.buildCacheKey, "outfit-v1-")
        || (f.iconAssetId.Some? && !IsDigestAfter(f.iconAssetId.value, "sha256-"))
      case _ => false
  {
    hide IsFlavorId, IsBoundedText, IsSha256, AcceptableFlavor;
    FlavorExactly(f);
    DigestAfter(f.buildCacheKey, "outfit-v1-");
    if f.iconAssetId.Some? {
      DigestAfter(f.iconAssetId.value, "sha256-");
    }
  }

  lemma {:induction false} FilesFault(files: seq<PayloadFile>, error: DistributionError)
    requires ValidateFiles(files) == Err(error)
    ensures match error
      case UnsafeArchivePath => exists i :: 0 <= i < |files| && !IsRelativePath(files[i].path)
      case InvalidSha256 => exists i :: 0 <= i < |files| && !IsSha256(files[i].sha256)
      case InvalidPayloadFileSet => !StrictlySorted(files)
      case _ => false
  {
    hide IsRelativePath, IsSha256, Below;
    var n := |files| - 1;
    if ValidateFiles(files[..n]).Err? {
      FilesFault(files[..n], error);
      if StrictlySorted(files) {
        assert StrictlySorted(files[..n]);
      }
    }
  }

  lemma LauncherFault(launcher: LauncherInfo, files: seq<PayloadFile>, error: DistributionError)
    requires ValidateLauncher(launcher, files) == Err(error)
    ensures match error
      case UnsupportedLauncherSchema => launcher.schemaVersion != 1 && launcher.schemaVersion != 2
      case UnsafeArchivePath =>
        || !IsRelativePath(launcher.executablePath)
        || (launcher.bundleRoot.Some? && !IsRelativePath(launcher.bundleRoot.value))
      case LauncherMissingFromPayload => forall i | 0 <= i < |files| :: files[i].path != launcher.executablePath
      case LauncherBundleMismatch =>
        launcher.bundleRoot.Some? && !(launcher.bundleRoot.value + "/" <= launcher.executablePath)
      case _ => false
  {
    hide IsRelativePath;
  }

  lemma NotBelow(path: string, root: string)
    requires !(root + "/" <= path)
    ensures forall inner :: path != root + "/" + inner
  {
    forall inner
      ensures path != root + "/" + inner
    {
      assert root + "/" <= root + "/" + inner;
    }
  }

  lemma LauncherIsFaulty(codec: Codec, entry: CacheEntry, p: PayloadManifest, allowDirty: bool)
    requires p.siteKitLauncher.Some? && ValidateLauncher(p.siteKitLauncher.value, p.files).Err?
    ensures IsFaultOf(ValidateLauncher(p.siteKitLauncher.value, p.files).error, codec, entry, p, allowDirty)
  {
    hide IsRelativePath, IsSha256, IsBoundedText, AcceptableTexts, AcceptableFlavor, SigningTextsAreGood, Contains,
         CacheKey, LegacyCacheKey, Split, IsNameText, IsFlavorId, IsDigestAfter, StrictlySorted, ValidateLauncher;
    var launcher := p.siteKitLauncher.value;
    var error := ValidateLauncher(launcher, p.files).error;
    LauncherFault(launcher, p.files, error);
    if error == LauncherBundleMismatch {
      NotBelow(launcher.executablePath, launcher.bundleRoot.value);
    }
  }

  lemma TextsFault(entry: CacheEntry, p: PayloadManifest, error: DistributionError)
    requires ValidateTexts(entry, p) == Err(error)
    ensures match error
      case InvalidBoundedText =>
        || !IsBoundedText(p.product, 32) || !AcceptableTexts(p) || !AcceptableFlavor(entry.clientFlavor)
        || !SigningTextsAreGood(p.signing)
      case InvalidTarget => !IsNameText(p.target)
      case InvalidClientFlavorId => !IsFlavorId(entry.clientFlavor.id)
      case InvalidSha256 =>
        || !IsSha256(p.cargoLockSha256) || !IsDigestAfter(entry.clientFlavor.buildCacheKey, "outfit-v1-")
        || (entry.clientFlavor.iconAssetId.Some? && !IsDigestAfter(entry.clientFlavor.iconAssetId.value, "sha256-"))
      case _ => false
  {
    hide IsSha256, IsHex, IsBoundedText, AcceptableFlavor, SigningTextsAreGood, IsNameText, IsFlavorId, IsDigestAfter,
         ValidateClientFlavor;
    if ValidateClientFlavor(entry.clientFlavor).Err? {
      FlavorFault(entry.clientFlavor, ValidateClientFlavor(entry.clientFlavor).error);
    }
  }

  lemma TextsAreFaulty(codec: Codec, entry: CacheEntry, p: PayloadManifest, allowDirty: bool)
    requires ValidateTexts(entry, p).Err?
    ensures IsFaultOf(ValidateTexts(entry, p).error, codec, entry, p, allowDirty)
  {
    hide ValidateTexts, IsRelativePath, IsSha256, IsHex, IsBoundedText, AcceptableTexts, AcceptableFlavor,
         SigningTextsAreGood, Contains, CacheKey, LegacyCacheKey, Split, IsNameText, IsFlavorId, IsDigestAfter,
         StrictlySorted;
    TextsFault(entry, p, ValidateTexts(entry, p).error);
  }

  lemma SigningFault(entry: CacheEntry, p: PayloadManifest, codec: Codec, allowDirty: bool)
    requires p.target == entry.target
    ensures PlatformOf(entry.target).Err? ==> PlatformOf(entry.target) == Err(UnsupportedTarget)
    ensures PlatformOf(entry.target).Err? ==> IsFaultOf(UnsupportedTarget, codec, entry, p, allowDirty)
    ensures PlatformOf(entry.target).Ok? ==>
      var platform := PlatformOf(entry.target).value;
      && (!SigningStateIsGood(p) ==> IsFaultOf(InvalidSigningState, codec, entry, p, allowDirty))
      && (entry.releaseReady != ExpectedReady(platform, p) ==>
            IsFaultOf(InvalidReleaseReadyState, codec, entry, p, allowDirty))
      && (SigningStateIsGood(p) && !SigningEvidenceIsGood(platform, p) ==>
            IsFaultOf(InvalidPlatformSigningEvidence, codec, entry, p, allowDirty))
  {
    hide Contains, IsBoundedText, AcceptableTexts, AcceptableFlavor, SigningTextsAreGood, Split, CacheKey,
         LegacyCacheKey;
  }

  /** A shape that is refused is refused for what its error names. */
  lemma ErrorNamesFault(codec: Codec, entry: CacheEntry, p: PayloadManifest, allowDirty: bool)
    ensures ReleaseShape(codec, entry, p, allowDirty).Err? ==>
      IsFaultOf(ReleaseShape(codec, entry, p, allowDirty).error, codec, entry, p, allowDirty)
  {
    hide ValidateTexts, ValidateLauncher, ValidateFiles, SigningStateIsGood, SigningEvidenceIsGood, ExpectedReady,
         PlatformOf, CacheKey, LegacyCacheKey, StrictlySorted, IsRelativePath, IsSha256, Split, IsFaultOf, Contains;
    var r := ReleaseShape(codec, entry, p, allowDirty);
    if ValidateTexts(entry, p).Err? {
      TextsAreFaulty(codec, entry, p, allowDirty);
    } else if !DirtyIsAllowed(p, allowDirty) || !SaysTheSame(entry, p) {
      MetadataFault(codec, entry, p, allowDirty);
    } else if ValidateLauncher(p.siteKitLauncher.value, p.files).Err? {
      LauncherIsFaulty(codec, entry, p, allowDirty);
    } else if !KeyIsSemantic(codec, entry, p) {
      KeyFault(codec, entry, p, allowDirty);
    } else {
      SigningFault(entry, p, codec, allowDirty);
      FileSetFault(codec, entry, p, allowDirty);
    }
  }

  lemma MetadataFault(codec: Codec, entry: CacheEntry, p: PayloadManifest, allowDirty: bool)
    requires !DirtyIsAllowed(p, allowDirty) || !SaysTheSame(entry, p)
    ensures IsFaultOf(ReleaseMetadataMismatch, codec, entry, p, allowDirty)
  {
    hide Contains, Split;
  }

  lemma KeyFault(codec: Codec, entry: CacheEntry, p: PayloadManifest, allowDirty: bool)
    requires !KeyIsSemantic(codec, entry, p)
    ensures IsFaultOf(SemanticCacheKeyMismatch, codec, entry, p, allowDirty)
  {
    hide Contains, CacheKey, LegacyCacheKey;
  }

  lemma FileSetFault(codec: Codec, entry: CacheEntry, p: PayloadManifest, allowDirty: bool)
    ensures !(0 < |p.files| <= MAX_RELEASE_PAYLOAD_FILES) ==>
      IsFaultOf(InvalidPayloadFileSet, codec, entry, p, allowDirty)
    ensures ValidateFiles(p.files).Err? ==>
      IsFaultOf(ValidateFiles(p.files).error, codec, entry, p, allowDirty)
  {
    hide Contains, IsSha256, IsRelativePath, StrictlySorted, ValidateFiles, IsBoundedText, IsDigestAfter,
         AcceptableTexts, AcceptableFlavor, SigningTextsAreGood;
    if ValidateFiles(p.files).Err? {
      FilesFault(p.files, ValidateFiles(p.files).error);
    }
  }
}
