/** Device tags: five Crockford base-32 characters derived from a device and a generation. */
module Tags {
  import opened Wrappers
  import opened Text
  import opened Device

  /** "clew/device-tag/v1" and a NUL. */
  const DOMAIN: seq<byte> :=
    [99, 108, 101, 119, 47, 100, 101, 118, 105, 99, 101, 45, 116, 97, 103, 47, 118, 49, 0]
  const ALPHABET: string := "0123456789ABCDEFGHJKMNPQRSTVWXYZ"
  const TAG_LENGTH := 5
  const MAX_ATTEMPTS := 1024
  const GENERATION_LIMIT := 0x1_0000_0000

  /** SHA-256, as far as a tag depends on it: the first four digest bytes as a big-endian number. */
  type Digest = seq<byte> -> u32

  predicate IsTagChar(c: char) {
    c in ALPHABET
  }

  /** The character of one base-32 digit. */
  function TagChar(digit: nat): (c: char)
    requires digit < 32
    ensures IsTagChar(c)
  {
    ALPHABET[digit]
  }

  predicate InAlphabet(s: string) {
    forall i | 0 <= i < |s| :: IsTagChar(s[i])
  }

  predicate IsTagText(s: string) {
    |s| == TAG_LENGTH && InAlphabet(s)
  }

  type DeviceTag = s: string | IsTagText(s) witness "00000"

  /** The `n` low base-32 digits of a number, most significant first. */
  function Base32(value: nat, n: nat): (s: string)
    ensures |s| == n && InAlphabet(s)
  {
    if n == 0 then "" else Base32(value / 32, n - 1) + [TagChar(value % 32)]
  }

  function DigestInput(id: DeviceId, generation: u32): seq<byte> {
    DOMAIN + id
    + [generation / 0x100_0000, generation / 0x1_0000 % 256, generation / 256 % 256, generation % 256]
  }

  /** The tag of a device in a generation: 25 bits of the digest. */
  function Derive(digest: Digest, id: DeviceId, generation: u32): DeviceTag {
    Base32(digest(DigestInput(id, generation)) / 128, TAG_LENGTH)
  }

  /** `DeviceTag::derive`: fills the characters from the last to the first. */
  method DeriveTag(digest: Digest, id: DeviceId, generation: u32) returns (tag: DeviceTag)
    ensures tag == Derive(digest, id, generation)
  {
    hide IsTagChar, TagChar;
    var value: nat := digest(DigestInput(id, generation)) / 128;
    var encoded := new char[TAG_LENGTH](_ => '0');
    ghost var start := value;
    var index := TAG_LENGTH;
    while index > 0
      invariant 0 <= index <= TAG_LENGTH
      invariant Base32(start, TAG_LENGTH) == Base32(value, index) + encoded[index..]
    {
      index := index - 1;
      ghost var after := encoded[index + 1..];
      encoded[index] := TagChar(value % 32);
      assert encoded[index..] == [TagChar(value % 32)] + after;
      value := value / 32;
    }
    assert encoded[..] == Base32(start, TAG_LENGTH);
    tag := encoded[..];
  }

  datatype ParseError = InvalidLength(length: nat) | InvalidCharacter(byte: byte)

  /** The first byte of a character in UTF-8. */
  function LeadingByte(c: char): byte {
    var n := c as int;
    if n < 0x80 then n
    else if n < 0x800 then 0xC0 + n / 0x40
    else if n < 0x1_0000 then 0xE0 + n / 0x1000
    else 0xF0 + n / 0x4_0000
  }

  /** The first byte of a text that is not in the alphabet begins its first character that is not. */
  ghost predicate IsFirstInvalid(text: string, byte: byte) {
    exists i :: 0 <= i < |text| && InAlphabet(text[..i]) && !IsTagChar(text[i]) && byte == LeadingByte(text[i])
  }

  /** `FromStr`: a text of five bytes, all of them in the alphabet, is a tag, and no other text is. */
  method ParseTag(text: string) returns (r: Result<DeviceTag, ParseError>)
    ensures Utf8Length(text) != TAG_LENGTH ==> r == Err(InvalidLength(Utf8Length(text)))
    ensures Utf8Length(text) == TAG_LENGTH && InAlphabet(text) ==> r == Ok(text)
    ensures Utf8Length(text) == TAG_LENGTH && !InAlphabet(text) ==>
      r.Err? && r.error.InvalidCharacter? && IsFirstInvalid(text, r.error.byte)
    ensures r.Ok? <==> IsTagText(text)
  {
    hide IsTagChar;
    if InAlphabet(text) {
      AsciiLength(text);
    }
    if Utf8Length(text) != TAG_LENGTH {
      return Err(InvalidLength(Utf8Length(text)));
    }
    ShortText(text);
    var encoded := new char[TAG_LENGTH](_ => '0');
    for index := 0 to |text|
      invariant encoded[..index] == text[..index]
      invariant forall i | 0 <= i < index :: IsTagChar(text[i])
    {
      if !IsTagChar(text[index]) {
        assert InAlphabet(text[..index]);
        return Err(InvalidCharacter(LeadingByte(text[index])));
      }
      encoded[index] := text[index];
    }
    AsciiLength(text);
    assert encoded[..] == text;
    return Ok(encoded[..]);
  }

  lemma {:induction false} ShortText(s: string)
    ensures |s| <= Utf8Length(s)
  {
    if s != "" {
      ShortText(s[1..]);
    }
  }

  lemma {:induction false} AsciiLength(s: string)
    requires InAlphabet(s)
    ensures Utf8Length(s) == |s|
  {
    hide IsTagChar;
    if s != "" {
      TagCharIsPlain(s[0]);
      AsciiLength(s[1..]);
    }
  }

  lemma TagCharIsPlain(c: char)
    requires IsTagChar(c)
    ensures c as int < 0x80 && c != ' ' && !IsWhitespace(c) && c != '/'
  {
    hide IsTagChar;
    TagCharsExactly(c);
  }

  // ---------------------------------------------------------------- tags and 25-bit numbers

  function Pow32(n: nat): (p: nat)
    ensures p >= 1
  {
    if n == 0 then 1 else 32 * Pow32(n - 1)
  }

  function TagDigit(c: char): (digit: nat)
    requires IsTagChar(c)
    ensures digit < 32 && TagChar(digit) == c
  {
    IndexOf(ALPHABET, c)
  }

  function TagValue(s: string): nat
    requires InAlphabet(s)
  {
    if s == "" then 0 else 32 * TagValue(s[..|s| - 1]) + TagDigit(s[|s| - 1])
  }

  function TagCode(digit: nat): int {
    if digit < 10 then 48 + digit else if digit < 18 then 55 + digit else if digit < 20 then 56 + digit
    else if digit < 22 then 57 + digit else if digit < 27 then 58 + digit else 59 + digit
  }

  lemma TagCharCode(digit: nat)
    requires digit < 32
    ensures TagChar(digit) as int == TagCode(digit)
  {
  }

  lemma TagCharsDiffer(i: nat, j: nat)
    requires i < 32 && j < 32 && TagChar(i) == TagChar(j)
    ensures i == j
  {
    hide TagChar;
    TagCharCode(i);
    TagCharCode(j);
  }

  lemma Base32Ends(value: nat, n: nat)
    requires n > 0
    ensures Base32(value, n)[..n - 1] == Base32(value / 32, n - 1) && Base32(value, n)[n - 1] == TagChar(value % 32)
  {
    hide TagChar, IsTagChar;
  }

  lemma NoDigits(value: nat)
    ensures Base32(value, 0) == ""
  {
  }

  lemma {:induction false} Base32Reads(value: nat, n: nat)
    requires value < Pow32(n)
    ensures TagValue(Base32(value, n)) == value
  {
    hide IsTagChar, TagChar, TagDigit, Base32;
    if n > 0 {
      assert value / 32 < Pow32(n - 1);
      Base32Reads(value / 32, n - 1);
      TagCharsDiffer(value % 32, TagDigit(TagChar(value % 32)));
      Base32Ends(value, n);
    } else {
      NoDigits(value);
    }
  }

  lemma {:induction false} TagValueWrites(s: string)
    requires InAlphabet(s)
    ensures TagValue(s) < Pow32(|s|) && Base32(TagValue(s), |s|) == s
  {
    hide IsTagChar, TagChar, TagDigit;
    if s != "" {
      var init := s[..|s| - 1];
      TagValueWrites(init);
      assert TagValue(s) / 32 == TagValue(init) && TagValue(s) % 32 == TagDigit(s[|s| - 1]);
      assert s == init + [s[|s| - 1]];
    }
  }

  /** What is hashed is the domain, the sixteen bytes of the device and the generation, high byte first; so
      no two devices or generations hash the same text. */
  lemma DigestInputExactly(id: DeviceId, generation: u32)
    ensures var d, domain := DigestInput(id, generation), "clew/device-tag/v1";
      && |d| == 39 && (forall i | 0 <= i < 18 :: d[i] == domain[i] as int) && d[18] == 0 && d[19..35] == id
      && 0x100_0000 * (d[35] as int) + 0x1_0000 * (d[36] as int) + 0x100 * (d[37] as int) + d[38] as int == generation
  {
    var d := DigestInput(id, generation);
    assert d[..19] == DOMAIN;
    DomainIs();
    assert d[35..] == [generation / 0x100_0000, generation / 0x1_0000 % 256, generation / 256 % 256, generation % 256];
    FourBytes(generation);
  }

  lemma DomainIs()
    ensures DOMAIN[18] == 0 && forall i | 0 <= i < 18 :: DOMAIN[i] == "clew/device-tag/v1"[i] as int
  {
  }

  lemma FourBytes(n: u32)
    ensures 0x100_0000 * (n / 0x100_0000) + 0x1_0000 * (n / 0x1_0000 % 256) + 0x100 * (n / 256 % 256) + n % 256 == n
  {
    assert n / 0x1_0000 == (n / 256) / 256 && n / 0x100_0000 == (n / 0x1_0000) / 256;
  }

  lemma DigestInputIsInjective(id: DeviceId, generation: u32, id': DeviceId, generation': u32)
    requires DigestInput(id, generation) == DigestInput(id', generation')
    ensures id == id' && generation == generation'
  {
    hide DigestInput;
    DigestInputExactly(id, generation);
    DigestInputExactly(id', generation');
  }

  /** The codes of the digits and of the capital letters but I, L, O and U. */
  predicate IsPlainCode(n: int) {
    48 <= n <= 57 || (65 <= n <= 90 && n != 73 && n != 76 && n != 79 && n != 85)
  }

  lemma CodesArePlain(digit: nat)
    requires digit < 32
    ensures IsPlainCode(TagCode(digit))
  {
  }

  lemma PlainIsCode(n: int) returns (digit: nat)
    requires IsPlainCode(n)
    ensures digit < 32 && TagCode(digit) == n
  {
    digit := if n < 58 then n - 48 else if n < 73 then n - 55 else if n < 76 then n - 56 else if n < 79 then n - 57
             else if n < 85 then n - 58 else n - 59;
  }

  /** The alphabet is the digits and the capital letters but I, L, O and U. */
  lemma TagCharsExactly(c: char)
    ensures IsTagChar(c) <==> IsPlainCode(c as int)
  {
    hide IsTagChar, TagChar, TagCode, IsPlainCode;
    if IsTagChar(c) {
      TagCharCode(TagDigit(c));
      CodesArePlain(TagDigit(c));
    }
    if IsPlainCode(c as int) {
      var digit := PlainIsCode(c as int);
      TagCharCode(digit);
      assert TagChar(digit) == c;
    }
  }

  /** Tags are exactly the 25-bit numbers: a derived tag tells the digest bits it came from, and
      every text that parses is the tag of one such number. */
  lemma TagsAreNumbers(digest: Digest, id: DeviceId, generation: u32, text: string)
    ensures TagValue(Derive(digest, id, generation)) == digest(DigestInput(id, generation)) / 128
    ensures IsTagText(text) ==> TagValue(text) < 0x200_0000 && Base32(TagValue(text), TAG_LENGTH) == text
  {
    assert Pow32(5) == 0x200_0000 by { assert Pow32(1) == 32 && Pow32(2) == 1024 && Pow32(3) == 32768; }
    Base32Reads(digest(DigestInput(id, generation)) / 128, TAG_LENGTH);
    if IsTagText(text) {
      TagValueWrites(text);
    }
  }

  // ---------------------------------------------------------------- allocation

  datatype Allocation = Allocation(tag: DeviceTag, generation: u32)

  datatype TagError = GenerationOverflow | Exhausted(startGeneration: u32, attempts: nat)

  predicate Taken(digest: Digest, id: DeviceId, occupied: set<DeviceTag>, generation: u32) {
    Derive(digest, id, generation) in occupied
  }

  /** Probing from `start + offset` on. */
  function Probe(digest: Digest, id: DeviceId, start: u32, occupied: set<DeviceTag>, offset: nat)
    : Result<Allocation, TagError>
    requires offset <= MAX_ATTEMPTS
    decreases MAX_ATTEMPTS - offset
  {
    if offset == MAX_ATTEMPTS then Err(Exhausted(start, MAX_ATTEMPTS))
    else if start + offset >= GENERATION_LIMIT then Err(GenerationOverflow)
    else if Taken(digest, id, occupied, start + offset) then Probe(digest, id, start, occupied, offset + 1)
    else Ok(Allocation(Derive(digest, id, start + offset), start + offset))
  }

  /** What a probe from `start + offset` on tells when it ends with `r`. */
  ghost predicate ProbeTells(digest: Digest, id: DeviceId, start: u32, occupied: set<DeviceTag>, offset: nat,
                             r: Result<Allocation, TagError>)
  {
    match r
    case Ok(a) =>
      && start + offset <= a.generation < start + 1024
      && a.tag == Derive(digest, id, a.generation) && !Taken(digest, id, occupied, a.generation)
      && forall g: u32 | start + offset <= g < a.generation :: Taken(digest, id, occupied, g)
    case Err(GenerationOverflow) =>
      && start + 1024 > GENERATION_LIMIT
      && forall g: u32 | start + offset <= g :: Taken(digest, id, occupied, g)
    case Err(Exhausted(from, attempts)) =>
      && from == start && attempts == 1024 && (offset < 1024 ==> start + 1024 <= GENERATION_LIMIT)
      && forall g: u32 | start + offset <= g < start + 1024 :: Taken(digest, id, occupied, g)
  }

  lemma ProbeStops(digest: Digest, id: DeviceId, start: u32, occupied: set<DeviceTag>, offset: nat)
    requires offset <= MAX_ATTEMPTS
    requires offset == MAX_ATTEMPTS || start + offset >= GENERATION_LIMIT
             || !Taken(digest, id, occupied, start + offset)
    ensures ProbeTells(digest, id, start, occupied, offset, Probe(digest, id, start, occupied, offset))
  {
    hide Probe, Taken, Derive, IsTagText, InAlphabet, IsTagChar;
    ProbeEnds(digest, id, start, occupied, offset);
  }

  lemma ProbeEnds(digest: Digest, id: DeviceId, start: u32, occupied: set<DeviceTag>, offset: nat)
    requires offset <= MAX_ATTEMPTS
    requires offset == MAX_ATTEMPTS || start + offset >= GENERATION_LIMIT
             || !Taken(digest, id, occupied, start + offset)
    ensures Probe(digest, id, start, occupied, offset) ==
      if offset == MAX_ATTEMPTS then Err(Exhausted(start, MAX_ATTEMPTS))
      else if start + offset >= GENERATION_LIMIT then Err(GenerationOverflow)
      else Ok(Allocation(Derive(digest, id, start + offset), start + offset))
  {
    hide Derive, Taken;
  }

  lemma ProbeGoesOn(digest: Digest, id: DeviceId, start: u32, occupied: set<DeviceTag>, offset: nat,
                    r: Result<Allocation, TagError>)
    requires offset < MAX_ATTEMPTS && start + offset < GENERATION_LIMIT && Taken(digest, id, occupied, start + offset)
    requires ProbeTells(digest, id, start, occupied, offset + 1, r)
    ensures ProbeTells(digest, id, start, occupied, offset, r)
    ensures Probe(digest, id, start, occupied, offset) == Probe(digest, id, start, occupied, offset + 1)
  {
    hide Derive, Taken;
  }

  /** What a probe finds: the least generation whose tag is free; it overflows exactly when the
      generations run out before the attempts do, and is exhausted exactly when the attempts do. */
  lemma {:induction false} ProbeExact(digest: Digest, id: DeviceId, start: u32, occupied: set<DeviceTag>, offset: nat)
    requires offset <= MAX_ATTEMPTS
    ensures ProbeTells(digest, id, start, occupied, offset, Probe(digest, id, start, occupied, offset))
    decreases MAX_ATTEMPTS - offset
  {
    hide Probe, ProbeTells, Taken, Derive;
    if offset == MAX_ATTEMPTS || start + offset >= GENERATION_LIMIT || !Taken(digest, id, occupied, start + offset) {
      ProbeStops(digest, id, start, occupied, offset);
    } else {
      ProbeExact(digest, id, start, occupied, offset + 1);
      ProbeGoesOn(digest, id, start, occupied, offset, Probe(digest, id, start, occupied, offset + 1));
    }
  }

  /** `allocate_device_tag`: the least free generation within the attempts, or the reason why there
      is none. */
  method AllocateDeviceTag(digest: Digest, id: DeviceId, start: u32, occupied: set<DeviceTag>)
    returns (r: Result<Allocation, TagError>)
    ensures r == Probe(digest, id, start, occupied, 0)
  {
    hide Derive;
    for offset := 0 to MAX_ATTEMPTS
      invariant Probe(digest, id, start, occupied, 0) == Probe(digest, id, start, occupied, offset)
    {
      if start + offset >= GENERATION_LIMIT {
        return Err(GenerationOverflow);
      }
      var generation: u32 := start + offset;
      var tag := DeriveTag(digest, id, generation);
      if tag !in occupied {
        return Ok(Allocation(tag, generation));
      }
    }
    return Err(Exhausted(start, MAX_ATTEMPTS));
  }
}
