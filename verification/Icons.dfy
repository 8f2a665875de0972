/** The icon containers: the Windows ICO directory that the build script writes and the macOS ICNS
    chunks that the release tool writes.  The rendered PNG images are inputs. */
module Icons {
  import opened Wrappers
  import opened Text

  type Bytes = seq<byte>

  const LIMIT := 0x1_0000_0000

  datatype Image = Image(size: u32, png: Bytes)

  datatype Chunk = Chunk(kind: Bytes, png: Bytes)

  const ICO_SIZES: seq<u32> := [16, 24, 32, 48, 64, 128, 256]

  // "icp4" to "icp6" and "ic07" to "ic10"
  const ICNS_KINDS: seq<Bytes> :=
    [[105, 99, 112, 52], [105, 99, 112, 53], [105, 99, 112, 54], [105, 99, 48, 55],
     [105, 99, 48, 56], [105, 99, 48, 57], [105, 99, 49, 48]]

  const ICNS_MAGIC: Bytes := [105, 99, 110, 115]

  // ---------------------------------------------------------------- fixed-width integers

  function Le16(n: u16): (b: Bytes)
    ensures |b| == 2
  {
    [n % 256, n / 256]
  }

  function Le32(n: u32): (b: Bytes)
    ensures |b| == 4
  {
    [n % 256, n / 256 % 256, n / 0x1_0000 % 256, n / 0x100_0000]
  }

  function Be32(n: u32): (b: Bytes)
    ensures |b| == 4
  {
    [n / 0x100_0000, n / 0x1_0000 % 256, n / 256 % 256, n % 256]
  }

  function FromLe(b: Bytes): nat {
    if b == [] then 0 else b[0] + 256 * FromLe(b[1..])
  }

  function FromBe(b: Bytes): nat {
    if b == [] then 0 else 256 * FromBe(b[..|b| - 1]) + b[|b| - 1]
  }

  lemma LeReads(b: Bytes)
    requires |b| == 4
    ensures FromLe(b) == b[0] as int + 256 * (b[1] as int) + 0x1_0000 * (b[2] as int) + 0x100_0000 * (b[3] as int)
    ensures FromLe(b[..2]) == b[0] as int + 256 * (b[1] as int)
  {
    assert b[3..][1..] == [] && FromLe(b[3..]) == b[3] as int;
    assert b[2..][1..] == b[3..] && FromLe(b[2..]) == b[2] as int + 256 * FromLe(b[3..]);
    assert b[1..][1..] == b[2..] && FromLe(b[1..]) == b[1] as int + 256 * FromLe(b[2..]);
    assert b[..2][1..] == [b[1]] && [b[1]][1..] == [] && FromLe([b[1]]) == b[1] as int;
  }

  lemma Le32Reads(n: u32)
    ensures FromLe(Le32(n)) == n
  {
    hide FromLe;
    LeReads(Le32(n));
  }

  lemma Le16Reads(n: u16)
    ensures FromLe(Le16(n)) == n
  {
    LeReads(Le16(n) + [0, 0]);
    assert (Le16(n) + [0, 0])[..2] == Le16(n);
  }

  lemma BeReads(b: Bytes)
    requires |b| == 4
    ensures FromBe(b) == b[3] as int + 256 * (b[2] as int) + 0x1_0000 * (b[1] as int) + 0x100_0000 * (b[0] as int)
  {
    assert b[..1][..0] == [] && FromBe(b[..1]) == b[0] as int;
    assert b[..2][..1] == b[..1] && FromBe(b[..2]) == 256 * FromBe(b[..1]) + b[1] as int;
    assert b[..3][..2] == b[..2] && FromBe(b[..3]) == 256 * FromBe(b[..2]) + b[2] as int;
  }

  lemma Be32Reads(n: u32)
    ensures FromBe(Be32(n)) == n
  {
    hide FromBe;
    BeReads(Be32(n));
  }

  // ---------------------------------------------------------------- ICO

  /** All image bytes, one image after the other. */
  function Pixels(images: seq<Image>): Bytes {
    if images == [] then [] else images[0].png + Pixels(images[1..])
  }

  /** 256 and more is written as 0. */
  function SizeByte(size: u32): byte {
    if size >= 256 then 0 else size
  }

  function DirectoryEntry(image: Image, offset: u32): (b: Bytes)
    requires |image.png| < LIMIT
    ensures |b| == 16
  {
    [SizeByte(image.size), SizeByte(image.size), 0, 0] + Le16(1) + Le16(32) + Le32(|image.png|) + Le32(offset)
  }

  /** The directory entries of images whose bytes follow each other from `offset` on. */
  function Directory(images: seq<Image>, offset: nat): (b: Bytes)
    requires offset + |Pixels(images)| < LIMIT
    ensures |b| == 16 * |images|
  {
    if images == [] then []
    else DirectoryEntry(images[0], offset) + Directory(images[1..], offset + |images[0].png|)
  }

  function IcoHeader(count: u16): (b: Bytes)
    ensures |b| == 6
  {
    Le16(0) + Le16(1) + Le16(count)
  }

  function IcoLength(images: seq<Image>): nat {
    6 + 16 * |images| + |Pixels(images)|
  }

  function Ico(images: seq<Image>): (b: Bytes)
    requires |images| < 0x1_0000 && IcoLength(images) < LIMIT
    ensures |b| == IcoLength(images)
  {
    IcoHeader(|images|) + Directory(images, 6 + 16 * |images|) + Pixels(images)
  }

  /** Follows the directory of an ICO file from entry `i` on. */
  function ReadDirectory(file: Bytes, i: nat, count: nat): Option<seq<Image>>
    requires i <= count && 6 + 16 * count <= |file|
    decreases count - i
  {
    if i == count then Some([])
    else
      var e := file[6 + 16 * i..6 + 16 * (i + 1)];
      var length, offset := FromLe(e[8..12]), FromLe(e[12..16]);
      if offset + length > |file| then None
      else match ReadDirectory(file, i + 1, count)
        case None => None
        case Some(rest) =>
          Some([Image(if e[0] == 0 then 256 else e[0], file[offset..offset + length])] + rest)
  }

  function ReadIco(file: Bytes): Option<seq<Image>> {
    if |file| < 6 || file[..4] != Le16(0) + Le16(1) then None
    else
      var count := FromLe(file[4..6]);
      if 6 + 16 * count > |file| then None else ReadDirectory(file, 0, count)
  }

  lemma EntryReads(image: Image, offset: u32)
    requires |image.png| < LIMIT
    ensures var e := DirectoryEntry(image, offset);
            e[0] == SizeByte(image.size) && FromLe(e[8..12]) == |image.png| && FromLe(e[12..16]) == offset
  {
    var e := DirectoryEntry(image, offset);
    assert e[8..12] == Le32(|image.png|) && e[12..16] == Le32(offset);
    Le32Reads(|image.png|);
    Le32Reads(offset);
  }

  /** Where the bytes of image `i` start. */
  function OffsetOf(images: seq<Image>, i: nat): nat
    requires i <= |images|
  {
    6 + 16 * |images| + |Pixels(images[..i])|
  }

  lemma {:induction false} PixelsSplit(images: seq<Image>, i: nat)
    requires i <= |images|
    ensures Pixels(images) == Pixels(images[..i]) + Pixels(images[i..])
  {
    if i > 0 {
      PixelsSplit(images[1..], i - 1);
      assert images[..i][1..] == images[1..][..i - 1];
    } else {
      assert images[0..] == images && images[..0] == [];
    }
  }

  lemma OffsetNext(images: seq<Image>, i: nat)
    requires i < |images|
    ensures OffsetOf(images, i + 1) == OffsetOf(images, i) + |images[i].png|
    ensures Pixels(images[i..]) == images[i].png + Pixels(images[i + 1..])
  {
    PixelsSplit(images, i);
    PixelsSplit(images, i + 1);
    assert images[i..][1..] == images[i + 1..];
  }

  lemma {:induction false} DirectoryAt(images: seq<Image>, offset: nat, i: nat)
    requires offset + |Pixels(images)| < LIMIT && i < |images|
    ensures |Pixels(images[..i])| + |images[i].png| <= |Pixels(images)|
    ensures Directory(images, offset)[16 * i..16 * (i + 1)]
         == DirectoryEntry(images[i], offset + |Pixels(images[..i])|)
  {
    hide DirectoryEntry, Directory, Pixels, Le16, Le32;
    PixelsSplit(images, i);
    OffsetNext(images, i);
    var first, next := images[0], offset + |images[0].png|;
    DirectoryNext(images, offset);
    if i == 0 {
      NoPixels(images);
    } else {
      PixelsNext(images, i);
      DirectoryAt(images[1..], next, i - 1);
      Shifted(DirectoryEntry(first, offset), Directory(images[1..], next), 16 * (i - 1), 16 * i);
    }
  }

  lemma DirectoryNext(images: seq<Image>, offset: nat)
    requires images != [] && offset + |Pixels(images)| < LIMIT
    ensures offset + |images[0].png| + |Pixels(images[1..])| < LIMIT
    ensures Directory(images, offset)
         == DirectoryEntry(images[0], offset) + Directory(images[1..], offset + |images[0].png|)
  {
  }

  lemma NoPixels(images: seq<Image>)
    ensures Pixels(images[..0]) == []
  {
  }

  lemma PixelsNext(images: seq<Image>, i: nat)
    requires 0 < i <= |images|
    ensures |Pixels(images)| == |images[0].png| + |Pixels(images[1..])|
    ensures |Pixels(images[..i])| == |images[0].png| + |Pixels(images[1..][..i - 1])|
  {
    assert images[..i][1..] == images[1..][..i - 1];
  }

  lemma Shifted(a: Bytes, b: Bytes, from: nat, to: nat)
    requires from <= to <= |b|
    ensures (a + b)[|a| + from..|a| + to] == b[from..to]
  {
  }

  predicate Plain(image: Image) {
    0 < image.size <= 256
  }

  /** Where entry `i` of the directory of a written file is. */
  lemma EntryAt(images: seq<Image>, i: nat)
    requires |images| < 0x1_0000 && IcoLength(images) < LIMIT && i < |images|
    ensures OffsetOf(images, i) + |images[i].png| < LIMIT
    ensures 6 + 16 * (i + 1) <= |Ico(images)|
    ensures Ico(images)[6 + 16 * i..6 + 16 * (i + 1)] == DirectoryEntry(images[i], OffsetOf(images, i))
  {
    hide DirectoryEntry, Directory, Pixels;
    var base := 6 + 16 * |images|;
    DirectoryAt(images, base, i);
    assert Ico(images)[6 + 16 * i..6 + 16 * (i + 1)] == Directory(images, base)[16 * i..16 * (i + 1)];
  }

  lemma Within(file: Bytes, from: nat, to: nat, i: nat, j: nat)
    requires from <= to <= |file| && i <= j <= to - from
    ensures file[from..to][i..j] == file[from + i..from + j]
  {
    forall k | 0 <= k < j - i
      ensures file[from..to][i..j][k] == file[from + i..from + j][k]
    {
    }
  }

  lemma {:induction false} DirectoryReads(images: seq<Image>, i: nat)
    requires |images| < 0x1_0000 && IcoLength(images) < LIMIT && i <= |images|
    requires forall image | image in images :: Plain(image)
    ensures ReadDirectory(Ico(images), i, |images|) == Some(images[i..])
    decreases |images| - i
  {
    hide FromLe, DirectoryEntry, Directory, Pixels;
    if i < |images| {
      DirectoryReads(images, i + 1);
      EntryAt(images, i);
      var e := Ico(images)[6 + 16 * i..6 + 16 * (i + 1)];
      EntryReads(images[i], OffsetOf(images, i));
      assert e[0] == SizeByte(images[i].size) && FromLe(e[8..12]) == |images[i].png|;
      RegionHolds(images, i);
      assert Plain(images[i]);
      assert images[i..] == [images[i]] + images[i + 1..];
    }
  }

  /** The region of image `i` holds its bytes. */
  lemma RegionHolds(images: seq<Image>, i: nat)
    requires |images| < 0x1_0000 && IcoLength(images) < LIMIT && i < |images|
    ensures OffsetOf(images, i) + |images[i].png| <= IcoLength(images)
    ensures Ico(images)[OffsetOf(images, i)..OffsetOf(images, i) + |images[i].png|] == images[i].png
  {
    hide DirectoryEntry, Directory, Pixels;
    PixelsSplit(images, i);
    OffsetNext(images, i);
    var file, base, from := Ico(images), 6 + 16 * |images|, |Pixels(images[..i])|;
    assert file[base..] == Pixels(images);
    assert file[base + from..base + from + |images[i].png|] == Pixels(images)[from..from + |images[i].png|];
  }

  lemma Nothing()
    ensures Pixels([]) == []
    ensures forall offset: nat | offset < LIMIT :: Directory([], offset) == []
  {
  }

  lemma HeaderReads(images: seq<Image>)
    requires |images| < 0x1_0000 && IcoLength(images) < LIMIT
    ensures Ico(images)[..4] == [0, 0, 1, 0] && FromLe(Ico(images)[4..6]) == |images|
  {
    hide FromLe, Directory, Pixels;
    Le16Reads(|images|);
    assert Ico(images)[..4] == Le16(0) + Le16(1) && Ico(images)[4..6] == Le16(|images|);
  }

  /** Walking the directory of a written ICO gives back the very images. */
  lemma IcoRoundTrip(images: seq<Image>)
    requires |images| < 0x1_0000 && IcoLength(images) < LIMIT
    requires forall image | image in images :: Plain(image)
    ensures ReadIco(Ico(images)) == Some(images)
  {
    HeaderReads(images);
    DirectoryReads(images, 0);
    assert images[0..] == images;
  }

  /** The length and the offset that entry `i` of the directory of a file declares. */
  function DeclaredLength(file: Bytes, i: nat): nat
    requires 6 + 16 * (i + 1) <= |file|
  {
    FromLe(file[6 + 16 * i + 8..6 + 16 * i + 12])
  }

  function DeclaredOffset(file: Bytes, i: nat): nat
    requires 6 + 16 * (i + 1) <= |file|
  {
    FromLe(file[6 + 16 * i + 12..6 + 16 * i + 16])
  }

  /** Entry `i` declares the length of image `i` and where the file holds it. */
  ghost predicate Declares(images: seq<Image>, i: nat)
    requires |images| < 0x1_0000 && IcoLength(images) < LIMIT && i < |images|
  {
    var file, from, length := Ico(images), OffsetOf(images, i), |images[i].png|;
    && 6 + 16 * (i + 1) <= |file| && DeclaredLength(file, i) == length && DeclaredOffset(file, i) == from
    && from + length <= |file| && file[from..from + length] == images[i].png
  }

  lemma EntryDeclares(images: seq<Image>, i: nat)
    requires |images| < 0x1_0000 && IcoLength(images) < LIMIT && i < |images|
    ensures Declares(images, i)
  {
    hide FromLe, DirectoryEntry, Ico, Pixels;
    var file, at := Ico(images), 6 + 16 * i;
    EntryAt(images, i);
    EntryReads(images[i], OffsetOf(images, i));
    Within(file, at, at + 16, 8, 12);
    Within(file, at, at + 16, 12, 16);
    RegionHolds(images, i);
  }

  /** In a written ICO every directory entry declares the length of its image and an offset at which
      the file holds that image; the declared regions start behind the directory, follow each other
      without gap or overlap, and end with the file. */
  lemma IcoRegionsContiguous(images: seq<Image>)
    requires |images| < 0x1_0000 && IcoLength(images) < LIMIT
    ensures var file, n := Ico(images), |images|;
      && 6 + 16 * n <= |file|
      && (forall i | 0 <= i < n ::
            var from, length := DeclaredOffset(file, i), DeclaredLength(file, i);
            length == |images[i].png| && from + length <= |file| && file[from..from + length] == images[i].png)
      && (if n == 0 then |file| == 6
          else DeclaredOffset(file, 0) == 6 + 16 * n
               && DeclaredOffset(file, n - 1) + DeclaredLength(file, n - 1) == |file|)
      && (forall i | 0 <= i < n - 1 :: DeclaredOffset(file, i) + DeclaredLength(file, i) == DeclaredOffset(file, i + 1))
  {
    hide DeclaredLength, DeclaredOffset, Ico, Pixels;
    var file, n := Ico(images), |images|;
    forall i | 0 <= i < n
      ensures Declares(images, i)
      ensures i + 1 < n ==> DeclaredOffset(file, i) + DeclaredLength(file, i) == DeclaredOffset(file, i + 1)
    {
      EntryDeclares(images, i);
      if i + 1 < n {
        EntryDeclares(images, i + 1);
        OffsetNext(images, i);
      }
    }
    NoPixels(images);
    assert images[..n] == images;
    if n > 0 {
      assert Declares(images, 0) && Declares(images, n - 1);
      OffsetNext(images, n - 1);
    }
    forall i | 0 <= i < n
      ensures var from, length := DeclaredOffset(file, i), DeclaredLength(file, i);
        length == |images[i].png| && from + length <= |file| && file[from..from + length] == images[i].png
    {
      assert Declares(images, i);
    }
  }

  lemma EntryIsPlain(image: Image, offset: u32)
    requires |image.png| < LIMIT && Plain(image)
    ensures var e := DirectoryEntry(image, offset);
            e[0] == e[1] == image.size % 256 && e[2..8] == [0, 0, 1, 0, 32, 0]
  {
  }

  /** The fields that a reader of the images does not look at: the file is of type 1, counts its images,
      and each entry has its size twice, 256 as 0, no palette, one plane and 32 bits a pixel. */
  lemma IcoIsPlain(images: seq<Image>, i: nat)
    requires |images| < 0x1_0000 && IcoLength(images) < LIMIT && i < |images|
    requires forall image | image in images :: Plain(image)
    ensures var file := Ico(images);
      && 6 + 16 * (i + 1) <= |file| && file[..4] == [0, 0, 1, 0] && FromLe(file[4..6]) == |images|
      && file[6 + 16 * i] == file[6 + 16 * i + 1] == images[i].size % 256
      && file[6 + 16 * i + 2..6 + 16 * i + 8] == [0, 0, 1, 0, 32, 0]
  {
    hide DirectoryEntry, Ico, Pixels, FromLe;
    var file, at := Ico(images), 6 + 16 * i;
    HeaderReads(images);
    EntryAt(images, i);
    assert Plain(images[i]);
    EntryIsPlain(images[i], OffsetOf(images, i));
    Within(file, at, at + 16, 2, 8);
    assert file[at..at + 16][0] == file[at] && file[at..at + 16][1] == file[at + 1];
  }

  function IcoImages(pngs: seq<Bytes>): (images: seq<Image>)
    requires |pngs| == |ICO_SIZES|
    ensures |images| == |pngs|
    ensures forall image | image in images :: Plain(image)
  {
    seq(|pngs|, i requires 0 <= i < |pngs| => Image(ICO_SIZES[i], pngs[i]))
  }

  /** The seven images, from 16 to 256 pixels. */
  ghost predicate AreIcoImages(images: seq<Image>, pngs: seq<Bytes>) {
    && |images| == |pngs| == 7
    && images == [Image(16, pngs[0]), Image(24, pngs[1]), Image(32, pngs[2]), Image(48, pngs[3]), Image(64, pngs[4]),
                  Image(128, pngs[5]), Image(256, pngs[6])]
  }

  lemma ImagesAre(pngs: seq<Bytes>)
    requires |pngs| == |ICO_SIZES|
    ensures AreIcoImages(IcoImages(pngs), pngs)
  {
  }

  /** Builds the ICO file; fails exactly when its length does not fit 32 bits. */
  method BuildIco(pngs: seq<Bytes>) returns (r: Option<Bytes>)
    requires |pngs| == |ICO_SIZES|
    ensures r.Some? <==> IcoLength(IcoImages(pngs)) < LIMIT
    ensures r.Some? ==> r.value == Ico(IcoImages(pngs))
    ensures r.Some? ==> ReadIco(r.value).Some? && AreIcoImages(ReadIco(r.value).value, pngs)
  {
    hide DirectoryEntry, Directory, Pixels, ReadIco, IcoImages, IcoHeader, AreIcoImages;
    Nothing();
    ImagesAre(pngs);
    var images := IcoImages(pngs);
    var base := 6 + |images| * 16;
    var offset: nat := base;
    var ico: Bytes := IcoHeader(|images|);
    PixelsSplit(images, 0);
    assert images[0..] == images;
    for i := 0 to |images|
      invariant offset < LIMIT
      invariant IcoLength(images) == offset + |Pixels(images[i..])|
      invariant IcoLength(images) < LIMIT ==>
        ico + Directory(images[i..], offset) == IcoHeader(|images|) + Directory(images, base)
    {
      var png := images[i].png;
      OffsetNext(images, i);
      assert images[i..][0] == images[i] && images[i..][1..] == images[i + 1..];
      if |png| >= LIMIT {
        return None;
      }
      ghost var before := ico;
      ico := ico + DirectoryEntry(images[i], offset);
      if offset + |png| >= LIMIT {
        return None;
      }
      if IcoLength(images) < LIMIT {
        DirectoryNext(images[i..], offset);
        assert before + Directory(images[i..], offset)
            == ico + Directory(images[i + 1..], offset + |png|);
      }
      offset := offset + |png|;
    }
    assert images[|images|..] == [];
    for i := 0 to |images|
      invariant ico + Pixels(images[i..]) == Ico(images)
    {
      OffsetNext(images, i);
      ico := ico + images[i].png;
    }
    assert images[|images|..] == [];
    IcoRoundTrip(images);
    return Some(ico);
  }

  // ---------------------------------------------------------------- ICNS

  function ChunksLength(chunks: seq<Chunk>): nat {
    if chunks == [] then 0 else 8 + |chunks[0].png| + ChunksLength(chunks[1..])
  }

  function ChunkBytes(chunk: Chunk): (b: Bytes)
    requires |chunk.kind| == 4 && 8 + |chunk.png| < LIMIT
    ensures |b| == 8 + |chunk.png|
  {
    chunk.kind + Be32(8 + |chunk.png|) + chunk.png
  }

  function ChunksBytes(chunks: seq<Chunk>): (b: Bytes)
    requires forall chunk | chunk in chunks :: |chunk.kind| == 4
    requires ChunksLength(chunks) < LIMIT
    ensures |b| == ChunksLength(chunks)
  {
    if chunks == [] then [] else ChunkBytes(chunks[0]) + ChunksBytes(chunks[1..])
  }

  function Icns(chunks: seq<Chunk>): (b: Bytes)
    requires forall chunk | chunk in chunks :: |chunk.kind| == 4
    requires 8 + ChunksLength(chunks) < LIMIT
    ensures |b| == 8 + ChunksLength(chunks)
  {
    ICNS_MAGIC + Be32(8 + ChunksLength(chunks)) + ChunksBytes(chunks)
  }

  /** Walks chunk by chunk; a chunk names its own length, header included. */
  function ReadChunks(s: Bytes): Option<seq<Chunk>>
    decreases |s|
  {
    if s == [] then Some([])
    else if |s| < 8 then None
    else
      var length := FromBe(s[4..8]);
      if length < 8 || length > |s| then None
      else match ReadChunks(s[length..])
        case None => None
        case Some(rest) => Some([Chunk(s[..4], s[8..length])] + rest)
  }

  function ReadIcns(file: Bytes): Option<seq<Chunk>> {
    if |file| < 8 || file[..4] != ICNS_MAGIC || FromBe(file[4..8]) != |file| then None
    else ReadChunks(file[8..])
  }

  lemma {:induction false} ChunksRead(chunks: seq<Chunk>)
    requires forall chunk | chunk in chunks :: |chunk.kind| == 4
    requires ChunksLength(chunks) < LIMIT
    ensures ReadChunks(ChunksBytes(chunks)) == Some(chunks)
  {
    hide Be32, FromBe;
    if chunks != [] {
      ChunksRead(chunks[1..]);
      var s, first := ChunksBytes(chunks), chunks[0];
      var length := 8 + |first.png|;
      Be32Reads(length);
      assert s == ChunkBytes(first) + ChunksBytes(chunks[1..]);
      assert first == Chunk(s[..4], s[8..length]) && chunks == [first] + chunks[1..];
      assert s[..4] == first.kind && s[4..8] == Be32(length) && s[8..length] == first.png;
      assert s[length..] == ChunksBytes(chunks[1..]);
    }
  }

  /** Walking a written ICNS gives back its chunks, and its declared length is its length. */
  lemma IcnsRoundTrip(chunks: seq<Chunk>)
    requires forall chunk | chunk in chunks :: |chunk.kind| == 4
    requires 8 + ChunksLength(chunks) < LIMIT
    ensures ReadIcns(Icns(chunks)) == Some(chunks)
  {
    var file := Icns(chunks);
    Be32Reads(|file|);
    assert file[..4] == ICNS_MAGIC && file[4..8] == Be32(|file|) && file[8..] == ChunksBytes(chunks);
    ChunksRead(chunks);
  }

  function IcnsChunks(pngs: seq<Bytes>): (chunks: seq<Chunk>)
    requires |pngs| == |ICNS_KINDS|
    ensures |chunks| == |pngs|
    ensures forall chunk | chunk in chunks :: |chunk.kind| == 4
  {
    seq(|pngs|, i requires 0 <= i < |pngs| => Chunk(ICNS_KINDS[i], pngs[i]))
  }

  /** The seven chunks, "icp4", "icp5", "icp6", "ic07", "ic08", "ic09" and "ic10". */
  ghost predicate AreIcnsChunks(chunks: seq<Chunk>, pngs: seq<Bytes>) {
    && |chunks| == |pngs| == 7
    && chunks == [Chunk([105, 99, 112, 52], pngs[0]), Chunk([105, 99, 112, 53], pngs[1]),
                  Chunk([105, 99, 112, 54], pngs[2]), Chunk([105, 99, 48, 55], pngs[3]),
                  Chunk([105, 99, 48, 56], pngs[4]), Chunk([105, 99, 48, 57], pngs[5]),
                  Chunk([105, 99, 49, 48], pngs[6])]
  }

  lemma ChunksAre(pngs: seq<Bytes>)
    requires |pngs| == |ICNS_KINDS|
    ensures AreIcnsChunks(IcnsChunks(pngs), pngs)
  {
  }

  lemma {:induction false} LengthSplit(chunks: seq<Chunk>, i: nat)
    requires i < |chunks|
    ensures ChunksLength(chunks[..i + 1]) == ChunksLength(chunks[..i]) + 8 + |chunks[i].png|
  {
    if i > 0 {
      LengthSplit(chunks[1..], i - 1);
      assert chunks[..i + 1][1..] == chunks[1..][..i] && chunks[..i][1..] == chunks[1..][..i - 1];
    } else {
      assert chunks[..1][1..] == [] && chunks[..0] == [];
    }
  }

  lemma ChunksNext(chunks: seq<Chunk>, i: nat)
    requires i < |chunks| && ChunksLength(chunks[i..]) < LIMIT
    requires forall chunk | chunk in chunks :: |chunk.kind| == 4
    ensures ChunksLength(chunks[i..]) == 8 + |chunks[i].png| + ChunksLength(chunks[i + 1..])
    ensures ChunksBytes(chunks[i..]) == ChunkBytes(chunks[i]) + ChunksBytes(chunks[i + 1..])
  {
    hide ChunkBytes;
    assert chunks[i..][1..] == chunks[i + 1..];
  }

  lemma NoChunks()
    ensures ChunksLength([]) == 0 && ChunksBytes([]) == []
  {
  }

  /** Builds the ICNS file; fails exactly when its length does not fit 32 bits. */
  method BuildIcns(pngs: seq<Bytes>) returns (r: Option<Bytes>)
    requires |pngs| == |ICNS_KINDS|
    ensures r.Some? <==> 8 + ChunksLength(IcnsChunks(pngs)) < LIMIT
    ensures r.Some? ==> r.value == Icns(IcnsChunks(pngs))
    ensures r.Some? ==> ReadIcns(r.value).Some? && AreIcnsChunks(ReadIcns(r.value).value, pngs)
  {
    hide ChunkBytes, ChunksBytes, ReadIcns, IcnsChunks, Be32, AreIcnsChunks;
    ChunksAre(pngs);
    var chunks := IcnsChunks(pngs);
    var total := 8;
    for i := 0 to |chunks|
      invariant total == 8 + ChunksLength(chunks[..i])
    {
      LengthSplit(chunks, i);
      total := total + 8 + |chunks[i].png|;
    }
    assert chunks[..|chunks|] == chunks;
    if total >= LIMIT {
      return None;
    }
    var output := ICNS_MAGIC + Be32(total);
    assert chunks[0..] == chunks;
    for i := 0 to |chunks|
      invariant 8 + ChunksLength(chunks[i..]) <= total
      invariant output + ChunksBytes(chunks[i..]) == Icns(chunks)
    {
      ChunksNext(chunks, i);
      output := output + ChunkBytes(chunks[i]);
    }
    assert chunks[|chunks|..] == [];
    NoChunks();
    IcnsRoundTrip(chunks);
    return Some(output);
  }
}
