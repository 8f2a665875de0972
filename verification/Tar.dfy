/** The ustar container of a Linux Site Kit: what the bytes are, and how they are read back.
    The layout is the "ustar Interchange Format" of the pax utility in IEEE Std 1003.1-2017. */
module Tar {
  import opened Wrappers
  import opened Text

  type Bytes = seq<byte>

  const SLASH: byte := 47
  const BACKSLASH: byte := 92
  const DOT: byte := 46
  const BLANK: byte := 32
  const DIGIT_ZERO: byte := 48
  const BLOCK := 512
  const NAME_WIDTH := 100
  const PREFIX_WIDTH := 155
  const MAGIC: Bytes := [117, 115, 116, 97, 114, 0]
  const VERSION: Bytes := [48, 48]

  datatype TarError = UnsafePath | PathTooLong | FieldTooWide | OctalTooShort | OctalTooWide | ChecksumOverflow

  function Zeros(n: nat): (z: Bytes)
    ensures |z| == n && forall i | 0 <= i < n :: z[i] == 0
  {
    seq(n, _ => 0)
  }

  // ---------------------------------------------------------------- octal numbers

  function Pow8(n: nat): (p: nat)
    ensures p >= 1
  {
    if n == 0 then 1 else 8 * Pow8(n - 1)
  }

  /** `format!("{:o}")`. */
  function OctalDigits(n: nat): (d: Bytes)
    ensures d != []
  {
    if n < 8 then [DIGIT_ZERO + n] else OctalDigits(n / 8) + [DIGIT_ZERO + n % 8]
  }

  /** Exactly `w` digits: the low ones of `n`, with leading zeros. */
  function PaddedOctal(w: nat, n: nat): (d: Bytes)
    ensures |d| == w
    ensures forall i | 0 <= i < w :: DIGIT_ZERO <= d[i] < DIGIT_ZERO + 8
  {
    if w == 0 then [] else PaddedOctal(w - 1, n / 8) + [DIGIT_ZERO + n % 8]
  }

  function OctalValue(d: Bytes): int {
    if d == [] then 0 else 8 * OctalValue(d[..|d| - 1]) + (d[|d| - 1] - DIGIT_ZERO)
  }

  function Fill(n: nat, b: byte): (s: Bytes)
    ensures |s| == n && forall i | 0 <= i < n :: s[i] == b
  {
    seq(n, _ => b)
  }

  /** A number has at most `w` octal digits exactly when it is below 8 to the `w`. */
  lemma {:induction false} OctalWidth(n: nat, w: nat)
    requires w >= 1
    ensures |OctalDigits(n)| <= w <==> n < Pow8(w)
  {
    if w == 1 {
      assert Pow8(1) == 8 * Pow8(0);
    } else if n >= 8 {
      OctalWidth(n / 8, w - 1);
    } else {
      OctalWidth(n, w - 1);
    }
  }

  lemma {:induction false} OctalPadding(n: nat, w: nat)
    requires |OctalDigits(n)| <= w
    ensures Fill(w - |OctalDigits(n)|, DIGIT_ZERO) + OctalDigits(n) == PaddedOctal(w, n)
  {
    if n < 8 {
      PaddedZero(w - 1);
      assert n / 8 == 0 && n % 8 == n;
    } else {
      OctalPadding(n / 8, w - 1);
      assert Fill(w - |OctalDigits(n)|, DIGIT_ZERO) + OctalDigits(n)
          == Fill(w - 1 - |OctalDigits(n / 8)|, DIGIT_ZERO) + OctalDigits(n / 8) + [DIGIT_ZERO + n % 8];
    }
  }

  lemma {:induction false} PaddedZero(w: nat)
    ensures PaddedOctal(w, 0) == Fill(w, DIGIT_ZERO)
  {
    if w > 0 {
      PaddedZero(w - 1);
      assert PaddedOctal(w, 0) == Fill(w - 1, DIGIT_ZERO) + [DIGIT_ZERO];
    }
  }

  /** A fixed-width octal field reads back as the number that was written. */
  lemma {:induction false} OctalRoundTrip(w: nat, n: nat)
    requires n < Pow8(w)
    ensures OctalValue(PaddedOctal(w, n)) == n
  {
    if w > 0 {
      OctalRoundTrip(w - 1, n / 8);
      var d := PaddedOctal(w, n);
      assert d[..w - 1] == PaddedOctal(w - 1, n / 8);
    }
  }

  // ---------------------------------------------------------------- paths

  /** The slash at which a long path is split: the last one, before `n`, that fits both fields. */
  function LastFit(path: Bytes, n: nat): (r: Option<nat>)
    requires n <= |path|
    ensures r.Some? ==> r.value < n && FitsAt(path, r.value) && forall j | r.value < j < n :: !FitsAt(path, j)
    ensures r.None? ==> forall j | 0 <= j < n :: !FitsAt(path, j)
  {
    if n == 0 then None
    else if FitsAt(path, n - 1) then Some(n - 1)
    else LastFit(path, n - 1)
  }

  predicate FitsAt(path: Bytes, i: nat)
    requires i < |path|
  {
    path[i] == SLASH && i <= PREFIX_WIDTH && |path| - i - 1 <= NAME_WIDTH
  }

  /** The prefix and the name fields of a path. */
  function SplitPath(path: Bytes): (r: Option<(Bytes, Bytes)>)
    ensures r.Some? ==> |r.value.0| <= PREFIX_WIDTH && |r.value.1| <= NAME_WIDTH
  {
    if |path| <= NAME_WIDTH then Some(([], path))
    else match LastFit(path, |path|)
      case None => None
      case Some(i) => Some((path[..i], path[i + 1..]))
  }

  /** The split succeeds exactly when none is needed, or some slash leaves at most 155 bytes before it and
      at most 100 behind it; it is made at the last such slash, and loses only that. */
  lemma SplitExact(path: Bytes)
    ensures SplitPath(path).Some? <==>
      |path| <= 100 || exists i :: 0 <= i < |path| && path[i] == 47 && i <= 155 && |path| - i - 1 <= 100
    ensures SplitPath(path).Some? && |path| > 100 ==>
      var (prefix, name) := SplitPath(path).value;
      && |prefix| <= 155 && |name| <= 100 && |prefix| + 1 + |name| == |path|
      && forall i | |prefix| < i < |path| && path[i] == 47 :: i > 155
    ensures SplitPath(path).Some? && |path| <= NAME_WIDTH ==> SplitPath(path).value == ([], path)
    ensures SplitPath(path).Some? && |path| > NAME_WIDTH ==>
      SplitPath(path).value.0 + [SLASH] + SplitPath(path).value.1 == path
  {
    if |path| > NAME_WIDTH {
      var r := LastFit(path, |path|);
      forall i | 0 <= i < |path|
        ensures FitsAt(path, i) <==> path[i] == 47 && i <= 155 && |path| - i - 1 <= 100
      {
      }
      if r.Some? {
        assert path == path[..r.value] + [path[r.value]] + path[r.value + 1..];
        forall i | r.value < i < |path| && path[i] == 47
          ensures i > 155
        {
          assert !FitsAt(path, i);
        }
      } else {
        forall i | 0 <= i < |path|
          ensures !(path[i] == 47 && i <= 155 && |path| - i - 1 <= 100)
        {
          assert !FitsAt(path, i);
        }
      }
    }
  }

  predicate SafeSegment(segment: Bytes) {
    segment != [] && segment != [DOT] && segment != [DOT, DOT]
  }

  predicate SafeRelativePath(path: Bytes) {
    && path != [] && path[0] != SLASH && path[0] != BACKSLASH
    && BACKSLASH !in path && 0 !in path
    && forall segment | segment in Split(path, SLASH) :: SafeSegment(segment)
  }

  /** A path is safe exactly when it is relative, has no backslash and no NUL, and nothing that stands
      between two slashes is empty, one dot or two dots. */
  lemma SafePathExactly(path: Bytes)
    ensures SafeRelativePath(path) <==>
      && 0 < |path| && path[0] != 47 && 92 !in path && 0 !in path
      && forall i: nat, j: nat | IsPiece(path, 47, i, j) ::
           path[i..j] != [] && path[i..j] != [46] && path[i..j] != [46, 46]
  {
    hide Split;
    forall piece
      ensures piece in Split(path, SLASH) <==>
        exists i: nat, j: nat :: IsPiece(path, SLASH, i, j) && piece == path[i..j]
    {
      SplitGivesPieces(path, SLASH, piece);
    }
    if SafeRelativePath(path) {
      forall i: nat, j: nat | IsPiece(path, 47, i, j)
        ensures path[i..j] != [] && path[i..j] != [46] && path[i..j] != [46, 46]
      {
        assert SafeSegment(path[i..j]);
      }
    } else if path != [] && path[0] != 47 && 92 !in path && 0 !in path {
      var piece :| piece in Split(path, SLASH) && !SafeSegment(piece);
      var i: nat, j: nat :| IsPiece(path, SLASH, i, j) && piece == path[i..j];
    }
  }

  // ---------------------------------------------------------------- the written form

  datatype Entry = Entry(path: Bytes, bytes: Bytes, mode: u32)

  function Padded(text: Bytes, width: nat): (f: Bytes)
    requires |text| <= width
    ensures |f| == width
  {
    text + Zeros(width - |text|)
  }

  function OctalField(width: nat, n: nat): (f: Bytes)
    requires width >= 1
    ensures |f| == width
  {
    PaddedOctal(width - 1, n) + [0]
  }

  function Sum(s: Bytes): (t: nat)
    ensures t <= 255 * |s|
  {
    if s == [] then 0 else Sum(s[..|s| - 1]) + s[|s| - 1]
  }

  /** The fields before and after the checksum. */
  function HeaderFront(name: Bytes, size: nat, mode: nat): (f: Bytes)
    requires |name| <= NAME_WIDTH
    ensures |f| == 148
  {
    Padded(name, NAME_WIDTH) + OctalField(8, mode) + OctalField(8, 0) + OctalField(8, 0)
    + OctalField(12, size) + OctalField(12, 0)
  }

  function HeaderBack(prefix: Bytes): (b: Bytes)
    requires |prefix| <= PREFIX_WIDTH
    ensures |b| == 356
  {
    [DIGIT_ZERO] + Zeros(100) + MAGIC + VERSION + Zeros(80) + Padded(prefix, PREFIX_WIDTH) + Zeros(12)
  }

  /** The checksum counts its own field as eight blanks. */
  function Checksum(front: Bytes, back: Bytes): nat {
    Sum(front + Fill(8, BLANK) + back)
  }

  function Header(prefix: Bytes, name: Bytes, size: nat, mode: nat): (h: Bytes)
    requires |prefix| <= PREFIX_WIDTH && |name| <= NAME_WIDTH
    ensures |h| == BLOCK
  {
    var front, back := HeaderFront(name, size, mode), HeaderBack(prefix);
    front + PaddedOctal(6, Checksum(front, back)) + [0, BLANK] + back
  }

  predicate EntryFits(e: Entry) {
    SplitPath(e.path).Some? && e.mode < Pow8(7) && |e.bytes| < Pow8(11)
  }

  lemma BlocksDivide(q: nat)
    ensures (BLOCK * q) % BLOCK == 0
  {
  }

  lemma PaddingFits(n: nat)
    ensures (n + (BLOCK - n % BLOCK) % BLOCK) % BLOCK == 0
  {
    var q, r := n / BLOCK, n % BLOCK;
    if r == 0 {
      BlocksDivide(q);
    } else {
      assert n + (BLOCK - r) == BLOCK * (q + 1);
      BlocksDivide(q + 1);
    }
  }

  function Padding(n: nat): (p: nat)
    ensures p < BLOCK && (n + p) % BLOCK == 0
  {
    PaddingFits(n);
    (BLOCK - n % BLOCK) % BLOCK
  }

  function EntryBytes(e: Entry): (b: Bytes)
    requires EntryFits(e)
    ensures |b| == BLOCK + |e.bytes| + Padding(|e.bytes|)
  {
    var split := SplitPath(e.path).value;
    Header(split.0, split.1, |e.bytes|, e.mode) + e.bytes + Zeros(Padding(|e.bytes|))
  }

  function EntriesBytes(es: seq<Entry>): Bytes
    requires forall e | e in es :: EntryFits(e)
  {
    if es == [] then [] else EntryBytes(es[0]) + EntriesBytes(es[1..])
  }

  /** A whole archive: the entries and two zero blocks. */
  function Archive(es: seq<Entry>): Bytes
    requires forall e | e in es :: EntryFits(e)
  {
    EntriesBytes(es) + Zeros(1024)
  }

  // ---------------------------------------------------------------- reading back

  /** A text field ends at its first NUL or at its width. */
  function FieldText(field: Bytes): Bytes {
    field[..IndexOf(field, 0)]
  }

  function TrimBytes(s: Bytes, blank: set<byte>): (r: Bytes)
    decreases |s|
  {
    if s == [] then s
    else if s[0] in blank then TrimBytes(s[1..], blank)
    else if s[|s| - 1] in blank then TrimBytes(s[..|s| - 1], blank)
    else s
  }

  /** A number field: NULs and blanks around it do not count; text that is no octal number reads as 0. */
  function FieldNumber(field: Bytes): int {
    var text := TrimBytes(TrimBytes(field, {0}), {9, 10, 11, 12, 13, BLANK});
    if text != [] && forall i | 0 <= i < |text| :: DIGIT_ZERO <= text[i] < DIGIT_ZERO + 8 then OctalValue(text) else 0
  }

  function HeaderPath(h: Bytes): Bytes
    requires |h| == BLOCK
  {
    var prefix, name := FieldText(h[345..500]), FieldText(h[..100]);
    if prefix == [] then name else prefix + [SLASH] + name
  }

  /** A conforming reader insists on the magic, the version and the checksum. */
  predicate HeaderValid(h: Bytes)
    requires |h| == BLOCK
  {
    && h[257..263] == MAGIC && h[263..265] == VERSION
    && FieldNumber(FieldText(h[148..156])) == Sum(h[..148] + Fill(8, BLANK) + h[156..])
  }

  predicate AllZero(s: Bytes) {
    forall i | 0 <= i < |s| :: s[i] == 0
  }

  /** Block by block: headers and their data up to two zero blocks; `None` for a stream that is
      truncated, misses its end mark or has a broken header. */
  function ReadArchive(s: Bytes): Option<seq<Entry>>
    decreases |s|
  {
    if |s| < BLOCK then None
    else
      var h := s[..BLOCK];
      if AllZero(h) then
        if |s| >= 2 * BLOCK && AllZero(s[BLOCK..2 * BLOCK]) then Some([]) else None
      else if !HeaderValid(h) then None
      else
        var size, mode := FieldNumber(h[124..136]), FieldNumber(h[100..108]);
        if size < 0 || !(0 <= mode < 0x1_0000_0000) then None
        else
          var total := BLOCK + size + Padding(size);
          if total > |s| then None
          else match ReadArchive(s[total..])
            case None => None
            case Some(rest) => Some([Entry(HeaderPath(h), s[BLOCK..BLOCK + size], mode)] + rest)
  }

  // ---------------------------------------------------------------- what reading gives back

  lemma SumAppend(a: Bytes, b: Bytes)
    ensures Sum(a + b) == Sum(a) + Sum(b)
  {
    if b == [] {
      assert a + b == a;
    } else {
      var c := a + b;
      assert c[..|c| - 1] == a + b[..|b| - 1];
      SumAppend(a, b[..|b| - 1]);
    }
  }

  /** The checksum always fits its six digits, so the overflow error can not occur. */
  lemma ChecksumFits(front: Bytes, back: Bytes)
    requires |front| == 148 && |back| == 356
    ensures Checksum(front, back) < Pow8(6)
    ensures |OctalDigits(Checksum(front, back))| <= 6
  {
    assert |front + Fill(8, BLANK) + back| == BLOCK;
    assert Pow8(6) == 262144 by {
      assert Pow8(1) == 8 && Pow8(2) == 64 && Pow8(3) == 512 && Pow8(4) == 4096 && Pow8(5) == 32768;
    }
    OctalWidth(Checksum(front, back), 6);
  }

  lemma TrimNothing(s: Bytes, blank: set<byte>)
    requires s == [] || (s[0] !in blank && s[|s| - 1] !in blank)
    ensures TrimBytes(s, blank) == s
  {
  }

  lemma TrimLast(s: Bytes, blank: set<byte>, b: byte)
    requires b in blank && s != [] && s[0] !in blank
    ensures TrimBytes(s + [b], blank) == TrimBytes(s, blank)
  {
    assert (s + [b])[..|s|] == s;
  }

  /** An octal field reads back as its number, and so does the checksum field. */
  lemma FieldNumberReads(w: nat, n: nat)
    requires w >= 1 && n < Pow8(w)
    ensures FieldNumber(OctalField(w + 1, n)) == n
    ensures FieldNumber(FieldText(PaddedOctal(w, n) + [0, BLANK])) == n
  {
    hide OctalValue, PaddedOctal, Pow8, TrimBytes;
    var digits := PaddedOctal(w, n);
    OctalRoundTrip(w, n);
    TrimNothing(digits, {0});
    TrimLast(digits, {0}, 0);
    TrimNothing(digits, {9, 10, 11, 12, 13, BLANK});
    var field := digits + [0, BLANK];
    assert field[..w] == digits;
    IndexOfIsFirst(field, 0, w);
  }

  lemma PaddedText(text: Bytes, width: nat)
    requires |text| <= width
    ensures FieldText(Padded(text, width)) == FieldText(text)
  {
    var field := Padded(text, width);
    var i := IndexOf(text, 0);
    assert field[..i] == text[..i];
    if i < |field| {
      IndexOfIsFirst(field, 0, i);
    }
  }

  /** The path that a reader sees for an entry: each of its two fields ends at a NUL. */
  function SeenPath(path: Bytes): Bytes
    requires SplitPath(path).Some?
  {
    var (prefix, name) := SplitPath(path).value;
    var seenPrefix, seenName := FieldText(prefix), FieldText(name);
    if seenPrefix == [] then seenName else seenPrefix + [SLASH] + seenName
  }

  lemma FieldTextWhole(field: Bytes)
    ensures |FieldText(field)| <= |field|
    ensures 0 !in field ==> FieldText(field) == field
    ensures 0 in field ==> |FieldText(field)| < |field|
  {
    var i := IndexOf(field, 0);
    assert i == |field| ==> field[..i] == field;
  }

  lemma JoinedPath(prefix: Bytes, name: Bytes)
    ensures var path := prefix + [SLASH] + name;
            && |path| == |prefix| + 1 + |name|
            && (0 in path <==> 0 in prefix || 0 in name)
  {
  }

  /** The one path that splits at a leading slash: a slash and a hundred bytes without another. */
  predicate LosesItsSlash(path: Bytes) {
    |path| == NAME_WIDTH + 1 && path[0] == SLASH && SLASH !in path[1..]
  }

  lemma OnlyFrontFits(path: Bytes)
    requires LosesItsSlash(path)
    ensures FitsAt(path, 0) && forall i | 0 < i < |path| :: !FitsAt(path, i)
  {
    assert forall i | 0 < i < |path| :: path[i] == path[1..][i - 1];
  }

  lemma SplitsAtFront(path: Bytes)
    requires |path| > NAME_WIDTH && SplitPath(path).Some?
    ensures LastFit(path, |path|) == Some(0) <==> LosesItsSlash(path)
  {
    var fit := LastFit(path, |path|);
    if LosesItsSlash(path) {
      OnlyFrontFits(path);
    } else if fit == Some(0) {
      assert |path| == NAME_WIDTH + 1 && path[0] == SLASH;
      var k :| 0 <= k < |path[1..]| && path[1..][k] == SLASH;
      assert FitsAt(path, k + 1);
    }
  }

  /** A path survives the header exactly when it has no NUL and is not the one that loses its slash. */
  lemma PathSurvives(path: Bytes)
    requires SplitPath(path).Some?
    ensures SeenPath(path) == path <==> 0 !in path && !LosesItsSlash(path)
  {
    hide LastFit, FieldText, FitsAt, LosesItsSlash;
    SplitExact(path);
    var (prefix, name) := SplitPath(path).value;
    FieldTextWhole(prefix);
    FieldTextWhole(name);
    if |path| > NAME_WIDTH {
      SplitsAtFront(path);
      JoinedPath(prefix, name);
      assert path == prefix + [SLASH] + name;
      var i := LastFit(path, |path|).value;
      assert |prefix| == i;
      assert |SeenPath(path)| <= |FieldText(prefix)| + 1 + |FieldText(name)|;
    } else {
      ShortKeepsItsSlash(path);
    }
  }

  lemma ShortKeepsItsSlash(path: Bytes)
    requires |path| <= NAME_WIDTH
    ensures !LosesItsSlash(path)
  {
  }

  lemma FrontFields(name: Bytes, size: nat, mode: nat)
    requires |name| <= NAME_WIDTH
    ensures var f := HeaderFront(name, size, mode);
            && f[..100] == Padded(name, NAME_WIDTH)
            && f[100..108] == OctalField(8, mode)
            && f[124..136] == OctalField(12, size)
  {
  }

  lemma BackFields(prefix: Bytes)
    requires |prefix| <= PREFIX_WIDTH
    ensures var b := HeaderBack(prefix);
            && b[0] == DIGIT_ZERO && b[101..107] == MAGIC && b[107..109] == VERSION
            && b[189..344] == Padded(prefix, PREFIX_WIDTH)
  {
  }

  /** Every field of a written header is where a reader looks for it. */
  lemma HeaderFields(prefix: Bytes, name: Bytes, size: nat, mode: nat)
    requires |prefix| <= PREFIX_WIDTH && |name| <= NAME_WIDTH
    ensures var h, front, back := Header(prefix, name, size, mode), HeaderFront(name, size, mode), HeaderBack(prefix);
            && h[..148] == front && h[156..] == back
            && h[148..156] == PaddedOctal(6, Checksum(front, back)) + [0, BLANK]
            && h[..100] == Padded(name, NAME_WIDTH)
            && h[100..108] == OctalField(8, mode)
            && h[124..136] == OctalField(12, size)
            && h[257..263] == MAGIC && h[263..265] == VERSION
            && h[345..500] == Padded(prefix, PREFIX_WIDTH)
            && h[156] == DIGIT_ZERO
  {
    hide HeaderFront, HeaderBack, Padded, PaddedOctal, Checksum, OctalField;
    var h, front, back := Header(prefix, name, size, mode), HeaderFront(name, size, mode), HeaderBack(prefix);
    FrontFields(name, size, mode);
    BackFields(prefix);
    assert h[..148] == front;
    assert h[156..] == back;
    assert h[..100] == front[..100] && h[100..108] == front[100..108] && h[124..136] == front[124..136];
    assert h[257..263] == back[101..107] && h[263..265] == back[107..109] && h[345..500] == back[189..344];
  }

  /** A written header is accepted, is no end mark, and gives back path, size and mode. */
  lemma HeaderReads(path: Bytes, size: nat, mode: nat)
    requires SplitPath(path).Some? && size < Pow8(11) && mode < Pow8(7)
    ensures var (prefix, name) := SplitPath(path).value;
            var h := Header(prefix, name, size, mode);
            && !AllZero(h) && HeaderValid(h)
            && HeaderPath(h) == SeenPath(path)
            && FieldNumber(h[124..136]) == size && FieldNumber(h[100..108]) == mode
  {
    hide Header, HeaderFront, HeaderBack, Padded, PaddedOctal, Checksum, FieldNumber, FieldText, OctalField, Pow8,
         LastFit;
    var (prefix, name) := SplitPath(path).value;
    var front, back := HeaderFront(name, size, mode), HeaderBack(prefix);
    HeaderFields(prefix, name, size, mode);
    ChecksumFits(front, back);
    FieldNumberReads(6, Checksum(front, back));
    FieldNumberReads(11, size);
    FieldNumberReads(7, mode);
    PaddedText(name, NAME_WIDTH);
    PaddedText(prefix, PREFIX_WIDTH);
    assert Checksum(front, back) == Sum(front + Fill(8, BLANK) + back) by { ChecksumMeans(front, back); }
  }

  lemma FrontIsPlain(name: Bytes, size: nat, mode: nat)
    requires |name| <= NAME_WIDTH
    ensures var f := HeaderFront(name, size, mode);
            f[108..116] == OctalField(8, 0) && f[116..124] == OctalField(8, 0) && f[136..148] == OctalField(12, 0)
  {
    hide Padded, PaddedOctal;
  }

  lemma BackIsPlain(prefix: Bytes)
    requires |prefix| <= PREFIX_WIDTH
    ensures var b := HeaderBack(prefix);
            && b[0] == 48 && b[1..101] == Zeros(100) && b[101..109] == [117, 115, 116, 97, 114, 0, 48, 48]
            && b[109..189] == Zeros(80) && b[344..356] == Zeros(12)
  {
    hide Padded;
  }

  /** The fields that say nothing of the entry: owner, group and time are zero, the entry is a regular
      file, the magic is "ustar" and the version "00", and all other bytes are NULs. */
  lemma HeaderIsPlain(prefix: Bytes, name: Bytes, size: nat, mode: nat)
    requires |prefix| <= PREFIX_WIDTH && |name| <= NAME_WIDTH
    ensures var h := Header(prefix, name, size, mode);
      && FieldNumber(h[108..116]) == 0 && FieldNumber(h[116..124]) == 0 && FieldNumber(h[136..148]) == 0
      && h[156] == 48 && h[157..257] == Zeros(100) && h[257..265] == [117, 115, 116, 97, 114, 0, 48, 48]
      && h[265..345] == Zeros(80) && h[500..512] == Zeros(12)
  {
    hide HeaderFront, HeaderBack, Checksum, PaddedOctal, FieldNumber, Padded, OctalField, Zeros, Pow8;
    var h, front, back := Header(prefix, name, size, mode), HeaderFront(name, size, mode), HeaderBack(prefix);
    HeaderFields(prefix, name, size, mode);
    FrontIsPlain(name, size, mode);
    BackIsPlain(prefix);
    FieldNumberReads(7, 0);
    FieldNumberReads(11, 0);
    assert h[108..116] == front[108..116] && h[116..124] == front[116..124] && h[136..148] == front[136..148];
    assert h[157..257] == back[1..101] && h[257..265] == back[101..109];
    assert h[265..345] == back[109..189] && h[500..512] == back[344..356];
  }

  lemma ChecksumMeans(front: Bytes, back: Bytes)
    ensures Checksum(front, back) == Sum(front + Fill(8, BLANK) + back)
  {
  }

  function Seen(e: Entry): Entry
    requires EntryFits(e)
  {
    e.(path := SeenPath(e.path))
  }

  /** A reader takes one written entry off the front of a stream and goes on with the rest. */
  lemma ReadsEntry(e: Entry, rest: Bytes)
    requires EntryFits(e)
    ensures ReadArchive(EntryBytes(e) + rest)
         == match ReadArchive(rest) case None => None case Some(es) => Some([Seen(e)] + es)
  {
    hide Header, SplitPath, HeaderValid, FieldNumber, Padding, SeenPath, Pow8, AllZero, HeaderPath;
    var (prefix, name) := SplitPath(e.path).value;
    var h := Header(prefix, name, |e.bytes|, e.mode);
    var s := EntryBytes(e) + rest;
    HeaderReads(e.path, |e.bytes|, e.mode);
    var total := BLOCK + |e.bytes| + Padding(|e.bytes|);
    assert s[..BLOCK] == h;
    assert s[BLOCK..BLOCK + |e.bytes|] == e.bytes;
    assert s[total..] == rest;
  }

  lemma EndMark()
    ensures ReadArchive(Zeros(1024)) == Some([])
  {
    assert AllZero(Zeros(1024)[..BLOCK]) && AllZero(Zeros(1024)[BLOCK..2 * BLOCK]);
  }

  function SeenAll(es: seq<Entry>): (seen: seq<Entry>)
    requires forall e | e in es :: EntryFits(e)
    ensures |seen| == |es| && forall i | 0 <= i < |es| :: seen[i] == Seen(es[i])
  {
    seq(|es|, i requires 0 <= i < |es| => Seen(es[i]))
  }

  /** Whatever is written is read back, entry by entry, in order, with all bytes and modes. */
  lemma {:induction false} ReadsArchive(es: seq<Entry>)
    requires forall e | e in es :: EntryFits(e)
    ensures ReadArchive(Archive(es)) == Some(SeenAll(es))
  {
    hide EntryFits, ReadArchive, EntryBytes, Seen;
    if es == [] {
      EndMark();
      assert Archive(es) == Zeros(1024);
    } else {
      ReadsArchive(es[1..]);
      ReadsEntry(es[0], Archive(es[1..]));
      assert Archive(es) == EntryBytes(es[0]) + Archive(es[1..]);
      assert SeenAll(es) == [Seen(es[0])] + SeenAll(es[1..]);
    }
  }

  predicate PathSafe(path: Bytes) {
    0 !in path && !LosesItsSlash(path)
  }

  /** The archive reads back as exactly what was written if and only if no path has a NUL or is a
      slash and a hundred bytes without another. */
  lemma RoundTripExact(es: seq<Entry>)
    requires forall e | e in es :: EntryFits(e)
    ensures ReadArchive(Archive(es)) == Some(es) <==> forall e | e in es :: PathSafe(e.path)
  {
    hide EntryFits, SeenPath, PathSafe, ReadArchive, Archive, SplitPath;
    ReadsArchive(es);
    var seen := SeenAll(es);
    forall e | e in es
      ensures Seen(e) == e <==> PathSafe(e.path)
    {
      SeenIsSafe(e);
    }
    if seen == es {
      forall e | e in es
        ensures PathSafe(e.path)
      {
        var i :| 0 <= i < |es| && es[i] == e;
        assert seen[i] == e;
      }
    } else {
      var i :| 0 <= i < |es| && seen[i] != es[i];
      assert !PathSafe(es[i].path);
    }
  }

  lemma SeenIsSafe(e: Entry)
    requires EntryFits(e)
    ensures Seen(e) == e <==> PathSafe(e.path)
  {
    PathSurvives(e.path);
  }

  lemma ModSum(a: nat, b: nat)
    requires a % BLOCK == 0 && b % BLOCK == 0
    ensures (a + b) % BLOCK == 0
  {
  }

  /** The stream is a whole number of blocks and ends in two zero blocks. */
  lemma {:induction false} ArchiveShape(es: seq<Entry>)
    requires forall e | e in es :: EntryFits(e)
    ensures |Archive(es)| % BLOCK == 0 && |Archive(es)| >= 1024
    ensures Archive(es)[|Archive(es)| - 1024..] == Zeros(1024)
  {
    hide EntryBytes, EntryFits, Padding, Zeros;
    if es != [] {
      ArchiveShape(es[1..]);
      assert Archive(es) == EntryBytes(es[0]) + Archive(es[1..]);
      ModSum(BLOCK, |es[0].bytes| + Padding(|es[0].bytes|));
      ModSum(|EntryBytes(es[0])|, |Archive(es[1..])|);
    }
  }

  /** Such a path is written, and its entry reads back without the slash. */
  lemma LeadingSlashIsLost(letter: byte, bytes: Bytes, mode: u32)
    requires letter != 0 && letter != SLASH && |bytes| < Pow8(11) && mode < Pow8(7)
    ensures var name := Fill(NAME_WIDTH, letter);
            var e := Entry([SLASH] + name, bytes, mode);
      && EntryFits(e) && ReadArchive(Archive([e])) == Some([Entry(name, bytes, mode)])
  {
    hide ReadArchive, Archive, FieldText, Pow8;
    var name := Fill(NAME_WIDTH, letter);
    var path := [SLASH] + name;
    var e := Entry(path, bytes, mode);
    assert FitsAt(path, 0);
    SplitsAtFront(path);
    assert path[1..] == name && LosesItsSlash(path);
    assert path[..0] == [];
    FieldTextWhole(name);
    FieldTextWhole([]);
    ReadsArchive([e]);
    assert SeenAll([e]) == [Seen(e)];
  }
}
