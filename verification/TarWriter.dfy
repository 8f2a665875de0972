/** The code that writes the archive: headers are filled field by field in one 512-byte buffer. */
module TarWriter {
  import opened Wrappers
  import opened Text
  import opened Tar

  datatype Outcome = Done | Failed(error: TarError)

  /** The stream that the archive is written to. */
  class Sink {
    var written: Bytes

    constructor ()
      ensures written == []
    {
      written := [];
    }

    method WriteAll(bytes: Bytes)
      modifies this
      ensures written == old(written) + bytes
    {
      written := written + bytes;
    }
  }

  function Splice(s: Bytes, at: nat, field: Bytes): (r: Bytes)
    requires at + |field| <= |s|
    ensures |r| == |s|
  {
    s[..at] + field + s[at + |field|..]
  }

  /** `target[at..at + |field|].copy_from_slice(field)`. */
  method CopySlice(target: array<byte>, at: nat, field: Bytes)
    requires at + |field| <= target.Length
    modifies target
    ensures target[..] == Splice(old(target[..]), at, field)
  {
    forall i | 0 <= i < |field| {
      target[at + i] := field[i];
    }
  }

  method CopyTarField(target: array<byte>, at: nat, width: nat, value: Bytes) returns (r: Outcome)
    requires at + width <= target.Length
    modifies target
    ensures r == if |value| <= width then Done else Failed(FieldTooWide)
    ensures target[..] == if |value| <= width then Splice(old(target[..]), at, value) else old(target[..])
  {
    if |value| > width {
      return Failed(FieldTooWide);
    }
    CopySlice(target, at, value);
    return Done;
  }

  /** Accepts exactly the values below 8 to the `width - 1`, and writes them as a padded field. */
  method WriteTarOctal(target: array<byte>, at: nat, width: nat, value: nat) returns (r: Outcome)
    requires at + width <= target.Length
    modifies target
    ensures r == if width < 2 then Failed(OctalTooShort)
                 else if value < Pow8(width - 1) then Done else Failed(OctalTooWide)
    ensures target[..] == if r.Done? then Splice(old(target[..]), at, OctalField(width, value)) else old(target[..])
  {
    if width < 2 {
      return Failed(OctalTooShort);
    }
    hide Splice, Pow8, OctalDigits, PaddedOctal, OctalField;
    var digits := OctalDigits(value);
    OctalWidth(value, width - 1);
    if |digits| + 1 > width {
      return Failed(OctalTooWide);
    }
    FillOctal(target, at, width, value, digits);
    return Done;
  }

  /** Leading zeros, the digits and a NUL. */
  method FillOctal(target: array<byte>, at: nat, width: nat, ghost value: nat, digits: Bytes)
    requires at + width <= target.Length && digits == OctalDigits(value) && |digits| + 1 <= width
    modifies target
    ensures target[..] == Splice(old(target[..]), at, OctalField(width, value))
  {
    hide Splice, OctalDigits, OctalField, Fill;
    var start := width - |digits| - 1;
    CopySlice(target, at, Fill(start, DIGIT_ZERO));
    CopySlice(target, at + start, digits);
    CopySlice(target, at + width - 1, [0]);
    OctalSplices(old(target[..]), at, width, value);
  }

  /** The three, written one after the other, are the field. */
  lemma OctalSplices(s: Bytes, at: nat, width: nat, value: nat)
    requires at + width <= |s| && |OctalDigits(value)| + 1 <= width
    ensures var digits := OctalDigits(value);
      var start := width - |digits| - 1;
      var filled := Splice(s, at, Fill(start, DIGIT_ZERO));
      Splice(Splice(filled, at + start, digits), at + width - 1, [0]) == Splice(s, at, OctalField(width, value))
  {
    hide Splice, OctalDigits, PaddedOctal;
    var digits := OctalDigits(value);
    var zeros := Fill(width - |digits| - 1, DIGIT_ZERO);
    OctalPadding(value, width - 1);
    SpliceJoin(s, at, zeros, digits);
    SpliceJoin(s, at, zeros + digits, [0]);
  }

  lemma SpliceJoin(s: Bytes, at: nat, a: Bytes, b: Bytes)
    requires at + |a| + |b| <= |s|
    ensures Splice(Splice(s, at, a), at + |a|, b) == Splice(s, at, a + b)
  {
  }

  lemma SpliceNext(done: Bytes, room: nat, field: Bytes)
    requires |field| <= room
    ensures Splice(done + Zeros(room), |done|, field) == done + field + Zeros(room - |field|)
  {
  }

  /** The header is written front to back: `done` is what stands, and the rest is still zero. */
  ghost predicate Stands(header: array<byte>, done: Bytes)
    reads header
  {
    header.Length == BLOCK && |done| <= BLOCK && header[..] == done + Zeros(BLOCK - |done|)
  }

  /** A text field whose unused bytes stay zero. */
  method PutText(header: array<byte>, ghost done: Bytes, at: nat, width: nat, value: Bytes)
    requires Stands(header, done) && at == |done| && at + width <= BLOCK && |value| <= width
    modifies header
    ensures Stands(header, done + Padded(value, width))
  {
    var r := CopyTarField(header, at, width, value);
    SpliceNext(done, BLOCK - at, value);
    assert value + Zeros(BLOCK - at - |value|) == Padded(value, width) + Zeros(BLOCK - at - width);
  }

  method PutBytes(header: array<byte>, ghost done: Bytes, at: nat, value: Bytes)
    requires Stands(header, done) && at == |done| && at + |value| <= BLOCK
    modifies header
    ensures Stands(header, done + value)
  {
    CopySlice(header, at, value);
    SpliceNext(done, BLOCK - at, value);
  }

  method PutOctal(header: array<byte>, ghost done: Bytes, at: nat, width: nat, value: nat) returns (r: Outcome)
    requires Stands(header, done) && at == |done| && at + width <= BLOCK && width >= 2
    modifies header
    ensures r == if value < Pow8(width - 1) then Done else Failed(OctalTooWide)
    ensures r.Done? ==> Stands(header, done + OctalField(width, value))
  {
    r := WriteTarOctal(header, at, width, value);
    if r.Done? {
      SpliceNext(done, BLOCK - at, OctalField(width, value));
    }
  }

  lemma StandsZeros(header: array<byte>, done: Bytes, n: nat)
    requires Stands(header, done) && |done| + n <= BLOCK
    ensures Stands(header, done + Zeros(n))
  {
    assert Zeros(BLOCK - |done|) == Zeros(n) + Zeros(BLOCK - |done| - n);
  }

  /** The fields in front of the checksum. */
  method FillFront(header: array<byte>, name: Bytes, size: nat, mode: nat) returns (r: Outcome)
    requires Stands(header, []) && |name| <= NAME_WIDTH
    modifies header
    ensures r == if mode < Pow8(7) && size < Pow8(11) then Done else Failed(OctalTooWide)
    ensures r.Done? ==> Stands(header, HeaderFront(name, size, mode))
  {
    hide Stands, Padded, PaddedOctal, Pow8;
    ghost var done: Bytes := [];
    PutText(header, done, 0, NAME_WIDTH, name);
    done := done + Padded(name, NAME_WIDTH);
    r := PutOctal(header, done, 100, 8, mode);
    if r.Failed? { return; }
    done := done + OctalField(8, mode);
    r := PutOctal(header, done, 108, 8, 0);
    done := done + OctalField(8, 0);
    r := PutOctal(header, done, 116, 8, 0);
    done := done + OctalField(8, 0);
    r := PutOctal(header, done, 124, 12, size);
    if r.Failed? { return; }
    done := done + OctalField(12, size);
    r := PutOctal(header, done, 136, 12, 0);
    done := done + OctalField(12, 0);
    assert done == HeaderFront(name, size, mode);
  }

  /** The blank checksum, the type flag, the magic and the version. */
  method FillMiddle(header: array<byte>, ghost front: Bytes)
    requires Stands(header, front) && |front| == 148
    modifies header
    ensures Stands(header, front + Fill(8, BLANK) + ([DIGIT_ZERO] + Zeros(100) + MAGIC + VERSION + Zeros(80)))
  {
    hide Stands;
    ghost var done := front;
    PutBytes(header, done, 148, Fill(8, BLANK));
    done := done + Fill(8, BLANK);
    PutBytes(header, done, 156, [DIGIT_ZERO]);
    done := done + [DIGIT_ZERO];
    StandsZeros(header, done, 100);
    done := done + Zeros(100);
    PutBytes(header, done, 257, MAGIC);
    done := done + MAGIC;
    PutBytes(header, done, 263, VERSION);
    done := done + VERSION;
    StandsZeros(header, done, 80);
    done := done + Zeros(80);
    assert done == front + Fill(8, BLANK) + ([DIGIT_ZERO] + Zeros(100) + MAGIC + VERSION + Zeros(80));
  }

  /** The prefix, when there is one. */
  method FillPrefix(header: array<byte>, ghost done: Bytes, prefix: Bytes)
    requires Stands(header, done) && |done| == 345 && |prefix| <= PREFIX_WIDTH
    modifies header
    ensures header.Length == BLOCK && header[..] == done + (Padded(prefix, PREFIX_WIDTH) + Zeros(12))
  {
    if prefix != [] {
      PutText(header, done, 345, PREFIX_WIDTH, prefix);
    } else {
      StandsZeros(header, done, PREFIX_WIDTH);
      PaddedNothing();
    }
    StandsZeros(header, done + Padded(prefix, PREFIX_WIDTH), 12);
    StandsWhole(header, done + Padded(prefix, PREFIX_WIDTH) + Zeros(12));
  }

  lemma PaddedNothing()
    ensures Padded([], PREFIX_WIDTH) == Zeros(PREFIX_WIDTH)
  {
  }

  lemma StandsWhole(header: array<byte>, done: Bytes)
    requires Stands(header, done) && |done| == BLOCK
    ensures header.Length == BLOCK && header[..] == done
  {
    assert done + Zeros(0) == done;
  }

  /** The sum over the header bytes. */
  method SumOf(header: array<byte>) returns (total: nat)
    ensures total == Sum(header[..])
  {
    total := 0;
    for i := 0 to header.Length
      invariant total == Sum(header[..i])
    {
      assert header[..i + 1][..i] == header[..i];
      total := total + header[i];
    }
    assert header[..header.Length] == header[..];
  }

  /** The split of a path, searched from its last slash. */
  method SplitUstarPath(path: Bytes) returns (r: Option<(Bytes, Bytes)>)
    ensures r == SplitPath(path)
  {
    if |path| <= NAME_WIDTH {
      return Some(([], path));
    }
    var index := |path|;
    while index > 0
      invariant 0 <= index <= |path|
      invariant LastFit(path, |path|) == LastFit(path, index)
    {
      index := index - 1;
      if path[index] == SLASH {
        var prefix, name := path[..index], path[index + 1..];
        if |prefix| <= PREFIX_WIDTH && |name| <= NAME_WIDTH {
          return Some((prefix, name));
        }
      }
    }
    return None;
  }

  /** The checksum text: at least six digits, a NUL and a blank. */
  function ChecksumText(checksum: nat): Bytes {
    var digits := OctalDigits(checksum);
    Fill(if |digits| < 6 then 6 - |digits| else 0, DIGIT_ZERO) + digits + [0, BLANK]
  }

  lemma ChecksumTextFits(front: Bytes, back: Bytes)
    requires |front| == 148 && |back| == 356
    ensures ChecksumText(Checksum(front, back)) == PaddedOctal(6, Checksum(front, back)) + [0, BLANK]
  {
    ChecksumFits(front, back);
    OctalPadding(Checksum(front, back), 6);
  }

  lemma BackParts(base: Bytes, prefix: Bytes)
    requires |prefix| <= PREFIX_WIDTH
    ensures base + ([DIGIT_ZERO] + Zeros(100) + MAGIC + VERSION + Zeros(80))
            + (Padded(prefix, PREFIX_WIDTH) + Zeros(12))
         == base + HeaderBack(prefix)
  {
  }

  /** Builds the header block; it fails exactly when the mode or the size is too wide, never for
      the checksum. */
  method BuildHeader(prefix: Bytes, name: Bytes, size: nat, mode: nat) returns (header: array<byte>, r: Outcome)
    requires |prefix| <= PREFIX_WIDTH && |name| <= NAME_WIDTH
    ensures fresh(header)
    ensures r == if mode < Pow8(7) && size < Pow8(11) then Done else Failed(OctalTooWide)
    ensures r.Done? ==> header[..] == Header(prefix, name, size, mode)
  {
    hide HeaderFront, HeaderBack, PaddedOctal, Pow8, OctalDigits, Padded, ChecksumText;
    header := new byte[BLOCK](_ => 0);
    assert Stands(header, []) by { assert header[..] == [] + Zeros(BLOCK); }
    r := FillFront(header, name, size, mode);
    if r.Failed? { return; }
    ghost var front, back := HeaderFront(name, size, mode), HeaderBack(prefix);
    FillMiddle(header, front);
    FillPrefix(header, front + Fill(8, BLANK) + ([DIGIT_ZERO] + Zeros(100) + MAGIC + VERSION + Zeros(80)), prefix);
    BackParts(front + Fill(8, BLANK), prefix);
    r := FillChecksum(header, front, back);
    assert r.Done? ==> header[..] == Header(prefix, name, size, mode);
  }

  /** Sums the header and writes the checksum over the blanks; eight characters are always enough. */
  method FillChecksum(header: array<byte>, ghost front: Bytes, ghost back: Bytes) returns (r: Outcome)
    requires |front| == 148 && |back| == BLOCK - 156 && header.Length == BLOCK
    requires header[..] == front + Fill(8, BLANK) + back
    modifies header
    ensures r == Done
    ensures header[..] == front + PaddedOctal(6, Checksum(front, back)) + [0, BLANK] + back
  {
    hide PaddedOctal, Pow8, OctalDigits, ChecksumText;
    var checksum := SumOf(header);
    var text := ChecksumText(checksum);
    ChecksumTextFits(front, back);
    if |text| != 8 {
      return Failed(ChecksumOverflow);
    }
    CopySlice(header, 148, text);
    assert header[..] == front + text + back;
    assert front + text + back == front + PaddedOctal(6, Checksum(front, back)) + [0, BLANK] + back;
    r := Done;
  }

  /** Writes one entry, or nothing.  It fails exactly when the path cannot be split or a number is
      too wide; the field-width and the checksum errors of the code are unreachable. */
  method WriteTarEntry(sink: Sink, path: Bytes, bytes: Bytes, mode: u32) returns (r: Outcome)
    modifies sink
    ensures r == if SplitPath(path).None? then Failed(PathTooLong)
                 else if EntryFits(Entry(path, bytes, mode)) then Done else Failed(OctalTooWide)
    ensures sink.written == old(sink.written) + if r.Done? then EntryBytes(Entry(path, bytes, mode)) else []
  {
    hide SplitPath, Header, Pow8;
    var split := SplitUstarPath(path);
    if split.None? {
      return Failed(PathTooLong);
    }
    var (prefix, name) := split.value;
    var header;
    header, r := BuildHeader(prefix, name, |bytes|, mode);
    if r.Failed? { return; }
    sink.WriteAll(header[..]);
    sink.WriteAll(bytes);
    var padding := (BLOCK - |bytes| % BLOCK) % BLOCK;
    if padding != 0 {
      sink.WriteAll(Zeros(padding));
    }
    assert sink.written == old(sink.written) + (header[..] + bytes + Zeros(padding));
  }

  // ---------------------------------------------------------------- the whole Site Kit

  datatype ArchiveFile = ArchiveFile(path: Bytes, bytes: Bytes, mode: u32)

  const MANIFEST_NAME: Bytes :=
    [115, 105, 116, 101, 45, 107, 105, 116, 45, 109, 97, 110, 105, 102, 101, 115, 116, 46, 106, 115, 111, 110]
  const MANIFEST_MODE: u32 := 0x1A4

  function InStem(stem: Bytes, path: Bytes): Bytes {
    stem + [SLASH] + path
  }

  function KitEntry(stem: Bytes, file: ArchiveFile): Entry {
    Entry(InStem(stem, file.path), file.bytes, file.mode)
  }

  function KitEntries(stem: Bytes, files: seq<ArchiveFile>, manifest: Bytes): (es: seq<Entry>)
    ensures |es| == |files| + 1
  {
    seq(|files|, i requires 0 <= i < |files| => KitEntry(stem, files[i]))
    + [Entry(InStem(stem, MANIFEST_NAME), manifest, MANIFEST_MODE)]
  }

  predicate FileWritable(stem: Bytes, file: ArchiveFile) {
    SafeRelativePath(file.path) && EntryFits(KitEntry(stem, file))
  }

  predicate KitWritable(stem: Bytes, files: seq<ArchiveFile>, manifest: Bytes) {
    && (forall file | file in files :: FileWritable(stem, file))
    && EntryFits(Entry(InStem(stem, MANIFEST_NAME), manifest, MANIFEST_MODE))
  }

  lemma WritableFits(stem: Bytes, files: seq<ArchiveFile>, manifest: Bytes)
    requires KitWritable(stem, files, manifest)
    ensures forall e | e in KitEntries(stem, files, manifest) :: EntryFits(e)
  {
    hide EntryFits;
    forall e | e in KitEntries(stem, files, manifest)
      ensures EntryFits(e)
    {
      var i :| 0 <= i < |files| + 1 && KitEntries(stem, files, manifest)[i] == e;
      assert i < |files| ==> FileWritable(stem, files[i]);
    }
  }

  lemma {:induction false} EntriesBytesAppend(es: seq<Entry>, e: Entry)
    requires EntryFits(e) && forall x | x in es :: EntryFits(x)
    ensures EntriesBytes(es + [e]) == EntriesBytes(es) + EntryBytes(e)
  {
    hide EntryFits, EntryBytes;
    if es == [] {
      assert es + [e] == [e] && [e][1..] == [];
    } else {
      EntriesBytesAppend(es[1..], e);
      assert (es + [e])[1..] == es[1..] + [e];
    }
  }

  /** The entries are the files, in order, each below the stem with its own bytes and its own mode; and
      then the manifest, which everybody may read and its owner may write. */
  ghost predicate IsKitOf(es: seq<Entry>, stem: Bytes, files: seq<ArchiveFile>, manifest: Bytes) {
    && |es| == |files| + 1
    && (forall i | 0 <= i < |files| ::
          es[i].path == stem + [47] + files[i].path && es[i].bytes == files[i].bytes && es[i].mode == files[i].mode)
    && es[|files|].path == stem + [47] + MANIFEST_NAME && es[|files|].bytes == manifest && es[|files|].mode == 420
  }

  /** A kit can be written exactly when the path of every file is safe, every path below the stem can be
      split, and every number fits its field. */
  lemma KitWritableExactly(stem: Bytes, files: seq<ArchiveFile>, manifest: Bytes)
    ensures KitWritable(stem, files, manifest) <==>
      && (forall i | 0 <= i < |files| ::
            && SafeRelativePath(files[i].path) && SplitPath(stem + [47] + files[i].path).Some?
            && files[i].mode < 0x20_0000 && |files[i].bytes| < 0x2_0000_0000)
      && SplitPath(stem + [47] + MANIFEST_NAME).Some? && |manifest| < 0x2_0000_0000
  {
    hide SplitPath, SafeRelativePath;
    EightToThe();
    if KitWritable(stem, files, manifest) {
      assert forall i | 0 <= i < |files| :: FileWritable(stem, files[i]);
    } else if forall i | 0 <= i < |files| :: FileWritable(stem, files[i]) {
      assert forall file | file in files :: FileWritable(stem, file);
    }
  }

  lemma EightToThe()
    ensures Pow8(7) == 0x20_0000 && Pow8(11) == 0x2_0000_0000
  {
    assert Pow8(3) == 512 by { assert Pow8(1) == 8 && Pow8(2) == 64; }
    assert Pow8(7) == 0x20_0000 by { assert Pow8(5) == 64 * Pow8(3) && Pow8(6) == 8 * Pow8(5); }
    assert Pow8(9) == 64 * Pow8(7) && Pow8(10) == 8 * Pow8(9);
  }

  lemma ArchiveIs(es: seq<Entry>)
    requires forall e | e in es :: EntryFits(e)
    ensures Archive(es) == EntriesBytes(es) + Zeros(1024)
  {
  }

  /** No path of a kit is one of those that the format loses. */
  lemma KitPathIsSafe(stem: Bytes, path: Bytes)
    requires stem != [] && 0 !in stem && 0 !in path
    ensures PathSafe(InStem(stem, path))
  {
    assert InStem(stem, path)[1..][|stem| - 1] == SLASH;
  }

  /** Reading a written Site Kit gives back the files in order, with their paths under the stem,
      their bytes and their modes, and then the manifest. */
  lemma SiteKitReadsBack(stem: Bytes, files: seq<ArchiveFile>, manifest: Bytes)
    requires KitWritable(stem, files, manifest)
    requires stem != [] && 0 !in stem
    ensures (forall e | e in KitEntries(stem, files, manifest) :: EntryFits(e))
    ensures ReadArchive(Archive(KitEntries(stem, files, manifest))).Some?
    ensures IsKitOf(ReadArchive(Archive(KitEntries(stem, files, manifest))).value, stem, files, manifest)
  {
    hide EntryFits, ReadArchive, Archive, SafeRelativePath, PathSafe, InStem;
    var es := KitEntries(stem, files, manifest);
    WritableFits(stem, files, manifest);
    forall e | e in es
      ensures PathSafe(e.path)
    {
      var i :| 0 <= i < |es| && es[i] == e;
      if i < |files| {
        assert FileWritable(stem, files[i]);
        SafeHasNoNul(files[i].path);
        KitPathIsSafe(stem, files[i].path);
      } else {
        KitPathIsSafe(stem, MANIFEST_NAME);
      }
    }
    RoundTripExact(es);
    KitIsKit(stem, files, manifest);
  }

  lemma SafeHasNoNul(path: Bytes)
    requires SafeRelativePath(path)
    ensures 0 !in path
  {
  }

  lemma KitIsKit(stem: Bytes, files: seq<ArchiveFile>, manifest: Bytes)
    ensures IsKitOf(KitEntries(stem, files, manifest), stem, files, manifest)
  {
  }

  /** Writes the archive of a Site Kit.  It succeeds exactly when every file has a safe path and
      fits its header; then the stream is the archive of the files, in order, and the manifest, and
      below a stem that is not empty and has no NUL it reads back as just that. */
  method WriteSiteKitTar(sink: Sink, stem: Bytes, files: seq<ArchiveFile>, manifest: Bytes) returns (r: Outcome)
    requires sink.written == []
    modifies sink
    ensures r.Done? <==> KitWritable(stem, files, manifest)
    ensures KitWritable(stem, files, manifest) ==>
      (forall e | e in KitEntries(stem, files, manifest) :: EntryFits(e))
      && sink.written == Archive(KitEntries(stem, files, manifest))
    ensures r.Done? && stem != [] && 0 !in stem ==>
      ReadArchive(sink.written).Some? && IsKitOf(ReadArchive(sink.written).value, stem, files, manifest)
  {
    hide ReadArchive, IsKitOf, Archive, EntryFits, SafeRelativePath, EntryBytes, SplitPath;
    ghost var es: seq<Entry> := [];
    for i := 0 to |files|
      invariant |es| == i && forall j | 0 <= j < i :: es[j] == KitEntry(stem, files[j])
      invariant forall j | 0 <= j < i :: FileWritable(stem, files[j])
      invariant forall e | e in es :: EntryFits(e)
      invariant sink.written == EntriesBytes(es)
    {
      var file := files[i];
      if !SafeRelativePath(file.path) {
        assert !FileWritable(stem, files[i]);
        return Failed(UnsafePath);
      }
      r := WriteTarEntry(sink, InStem(stem, file.path), file.bytes, file.mode);
      FitsSplits(KitEntry(stem, file));
      if r.Failed? {
        assert !FileWritable(stem, files[i]);
        return;
      }
      EntriesBytesAppend(es, KitEntry(stem, file));
      es := es + [KitEntry(stem, file)];
    }
    var last := Entry(InStem(stem, MANIFEST_NAME), manifest, MANIFEST_MODE);
    r := WriteTarEntry(sink, last.path, manifest, MANIFEST_MODE);
    FitsSplits(last);
    if r.Failed? { return; }
    EntriesBytesAppend(es, last);
    assert es + [last] == KitEntries(stem, files, manifest);
    WritableFits(stem, files, manifest);
    sink.WriteAll(Zeros(1024));
    assert sink.written == Archive(KitEntries(stem, files, manifest)) by { ArchiveIs(es + [last]); }
    if stem != [] && 0 !in stem {
      SiteKitReadsBack(stem, files, manifest);
    }
  }

  lemma FitsSplits(e: Entry)
    ensures EntryFits(e) ==> SplitPath(e.path).Some?
  {
  }
}
