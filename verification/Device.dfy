/** Identifiers and device records. */
module Device {
  import opened Wrappers
  import opened Text

  /** The sixteen bytes of a UUID. */
  type DeviceId = b: seq<byte> | |b| == 16 witness seq(16, _ => 1)
  type SiteId = nat
  type InviteId = nat

  datatype NameOrigin = Automatic(baseHostname: string, tagged: bool, tagGeneration: u32) | Renamed

  datatype DeviceRecord = DeviceRecord(
    deviceId: DeviceId, siteId: SiteId, displayName: string, hostnameObserved: string,
    execute: bool, connector: bool, enrolledVia: InviteId, nameOrigin: NameOrigin)

  datatype DeviceSummary = DeviceSummary(
    deviceId: DeviceId, siteId: SiteId, enrolledVia: InviteId, siteName: string, displayName: string,
    hostnameObserved: string, online: bool, executable: bool, connector: bool)

  function SummaryOf(record: DeviceRecord, siteName: string, online: bool): DeviceSummary {
    DeviceSummary(record.deviceId, record.siteId, record.enrolledVia, siteName, record.displayName,
                  record.hostnameObserved, online, record.execute, record.connector)
  }

  const HEX: string := "0123456789abcdef"

  function HexText(bytes: seq<byte>): (s: string)
    ensures |s| == 2 * |bytes|
  {
    if bytes == [] then "" else [HEX[bytes[0] / 16], HEX[bytes[0] % 16]] + HexText(bytes[1..])
  }

  /** The hyphenated lowercase form of a UUID. */
  function IdText(id: DeviceId): (s: string)
    ensures |s| == 36
  {
    HexText(id[0..4]) + "-" + HexText(id[4..6]) + "-" + HexText(id[6..8])
    + "-" + HexText(id[8..10]) + "-" + HexText(id[10..16])
  }

  lemma HexDigitsDiffer(i: nat, j: nat)
    requires i < 16 && j < 16 && HEX[i] == HEX[j]
    ensures i == j
  {
  }

  lemma {:induction false} HexTextInjective(a: seq<byte>, b: seq<byte>)
    requires |a| == |b| && HexText(a) == HexText(b)
    ensures a == b
  {
    if a != [] {
      assert HexText(a)[0] == HexText(b)[0] && HexText(a)[1] == HexText(b)[1];
      HexDigitsDiffer(a[0] / 16, b[0] / 16);
      HexDigitsDiffer(a[0] % 16, b[0] % 16);
      assert HexText(a)[2..] == HexText(a[1..]) && HexText(b)[2..] == HexText(b[1..]);
      HexTextInjective(a[1..], b[1..]);
    }
  }

  lemma IdTextParts(id: DeviceId)
    ensures var s := IdText(id);
            && s[0..8] == HexText(id[0..4]) && s[9..13] == HexText(id[4..6]) && s[14..18] == HexText(id[6..8])
            && s[19..23] == HexText(id[8..10]) && s[24..36] == HexText(id[10..16])
  {
  }

  predicate IsLowerHex(c: char) {
    '0' <= c <= '9' || 'a' <= c <= 'f'
  }

  function HexValue(c: char): int {
    if c <= '9' then c as int - '0' as int else c as int - 'a' as int + 10
  }

  /** A byte stands as two digits, high half first. */
  ghost predicate IsHexOf(s: string, b: byte) {
    |s| == 2 && IsLowerHex(s[0]) && IsLowerHex(s[1]) && 16 * HexValue(s[0]) + HexValue(s[1]) == b
  }

  lemma HexDigitReads(i: nat)
    requires i < 16
    ensures IsLowerHex(HEX[i]) && HexValue(HEX[i]) == i
  {
  }

  lemma {:induction false} HexTextReads(bytes: seq<byte>, i: nat)
    requires i < |bytes|
    ensures IsHexOf(HexText(bytes)[2 * i..2 * i + 2], bytes[i])
  {
    hide IsLowerHex, HexValue, HexText;
    var first, rest := [HEX[bytes[0] / 16], HEX[bytes[0] % 16]], HexText(bytes[1..]);
    HexTextStarts(bytes);
    if i == 0 {
      HexDigitReads(bytes[0] / 16);
      HexDigitReads(bytes[0] % 16);
      assert (first + rest)[0..2] == first;
    } else {
      HexTextReads(bytes[1..], i - 1);
      assert (first + rest)[2 * i..2 * i + 2] == rest[2 * (i - 1)..2 * (i - 1) + 2];
    }
  }

  lemma HexTextStarts(bytes: seq<byte>)
    requires bytes != []
    ensures HexText(bytes) == [HEX[bytes[0] / 16], HEX[bytes[0] % 16]] + HexText(bytes[1..])
  {
  }

  /** The text form of a device id is its sixteen bytes in hexadecimal, in order, with hyphens behind the
      fourth, sixth, eighth and tenth byte. */
  lemma IdTextExactly(id: DeviceId, i: nat)
    requires i < 16
    ensures var s := IdText(id);
      var at := 2 * i + (if i < 4 then 0 else if i < 6 then 1 else if i < 8 then 2 else if i < 10 then 3 else 4);
      && |s| == 36 && s[8] == s[13] == s[18] == s[23] == '-' && IsHexOf(s[at..at + 2], id[i])
  {
    hide IsHexOf, HexText;
    var from := if i < 4 then 0 else if i < 6 then 4 else if i < 8 then 6 else if i < 10 then 8 else 10;
    var to := if i < 4 then 4 else if i < 6 then 6 else if i < 8 then 8 else if i < 10 then 10 else 16;
    HexTextReads(id[from..to], i - from);
    IdTextParts(id);
    PartOf(IdText(id), if i < 4 then 0 else if i < 6 then 9 else if i < 8 then 14 else if i < 10 then 19 else 24,
           HexText(id[from..to]), 2 * (i - from));
  }

  lemma PartOf(s: string, at: nat, part: string, i: nat)
    requires at + |part| <= |s| && s[at..at + |part|] == part && i + 2 <= |part|
    ensures s[at + i..at + i + 2] == part[i..i + 2]
  {
    forall k | i <= k < i + 2
      ensures s[at + k] == part[k]
    {
      assert s[at..at + |part|][k] == s[at + k];
    }
  }

  /** Two devices with the same text form are the same device. */
  lemma IdTextInjective(a: DeviceId, b: DeviceId)
    requires IdText(a) == IdText(b)
    ensures a == b
  {
    IdTextParts(a);
    IdTextParts(b);
    HexTextInjective(a[0..4], b[0..4]);
    HexTextInjective(a[4..6], b[4..6]);
    HexTextInjective(a[6..8], b[6..8]);
    HexTextInjective(a[8..10], b[8..10]);
    HexTextInjective(a[10..16], b[10..16]);
    assert a == a[0..4] + a[4..6] + a[6..8] + a[8..10] + a[10..16];
    assert b == b[0..4] + b[4..6] + b[6..8] + b[8..10] + b[10..16];
  }

  // ---------------------------------------------------------------- the order of identifiers

  /** Identifiers are ordered byte by byte. */
  predicate BytesBelow(a: seq<byte>, b: seq<byte>)
    requires |a| == |b|
  {
    a != [] && (a[0] < b[0] || (a[0] == b[0] && BytesBelow(a[1..], b[1..])))
  }

  lemma {:induction false} BytesBelowTotal(a: seq<byte>, b: seq<byte>)
    requires |a| == |b|
    ensures a == b || BytesBelow(a, b) || BytesBelow(b, a)
  {
    if a != [] && a[0] == b[0] {
      BytesBelowTotal(a[1..], b[1..]);
      assert a[1..] == b[1..] ==> a == [a[0]] + b[1..];
    }
  }

  lemma {:induction false} BytesBelowTransitive(a: seq<byte>, b: seq<byte>, c: seq<byte>)
    requires |a| == |b| == |c| && BytesBelow(a, b) && BytesBelow(b, c)
    ensures BytesBelow(a, c)
  {
    if a[0] == b[0] == c[0] {
      BytesBelowTransitive(a[1..], b[1..], c[1..]);
    }
  }

  lemma {:induction false} BytesBelowIrreflexive(a: seq<byte>)
    ensures !BytesBelow(a, a)
  {
    if a != [] {
      BytesBelowIrreflexive(a[1..]);
    }
  }
}
