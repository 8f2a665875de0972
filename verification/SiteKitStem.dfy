/** The directory that a Linux Site Kit unpacks to, made from the site's label; and what that means
    for reading the kit back. */
module SiteKitStem {
  import opened Wrappers
  import opened Text
  import opened Tar
  import opened TarWriter

  const MAX_LABEL_BYTES := 160
  const LINUX_SUFFIX := "-Clew-Linux"

  predicate IsUnusable(c: char) {
    IsControl(c) || c in {'/', '\\', ':', '*', '?', '\"', '<', '>', '|'}
  }

  function WithoutUnusable(s: string): (r: string)
    ensures |r| == |s| && forall i | 0 <= i < |s| :: r[i] == if IsUnusable(s[i]) then '-' else s[i]
  {
    seq(|s|, i requires 0 <= i < |s| => if IsUnusable(s[i]) then '-' else s[i])
  }

  /** `str::trim_matches` on blanks, dots and hyphens. */
  function TrimMarks(s: string): (r: string)
    ensures forall c | c in r :: c in s
    decreases |s|
  {
    if s == "" then s
    else if s[0] in {' ', '.', '-'} then TrimMarks(s[1..])
    else if s[|s| - 1] in {' ', '.', '-'} then TrimMarks(s[..|s| - 1])
    else s
  }

  /** `sanitize_site_label`. */
  function SanitizeSiteLabel(siteLabel: string): Option<string> {
    var trimmed := Trim(siteLabel);
    var cleaned := TrimMarks(WithoutUnusable(trimmed));
    if trimmed == "" || Utf8Length(trimmed) > MAX_LABEL_BYTES || cleaned == "" then None else Some(cleaned)
  }

  /** The archive's name without its extension. */
  function LinuxStem(cleaned: string): string {
    Dashed(Trim(cleaned)) + LINUX_SUFFIX
  }

  function Dashed(s: string): (r: string)
    ensures |r| == |s| && forall i | 0 <= i < |s| :: r[i] == if s[i] == '/' || s[i] == '\\' then '-' else s[i]
  {
    seq(|s|, i requires 0 <= i < |s| => if s[i] == '/' || s[i] == '\\' then '-' else s[i])
  }

  lemma TrimKeeps(s: string)
    ensures forall c | c in Trim(s) :: c in s
  {
    assert forall c | c in TrimStart(s) :: c in s;
  }

  /** A label that is accepted gives a stem without separators and control characters. */
  lemma StemIsPlain(siteLabel: string)
    requires SanitizeSiteLabel(siteLabel).Some?
    ensures var stem := LinuxStem(SanitizeSiteLabel(siteLabel).value);
            stem != "" && '/' !in stem && '\\' !in stem && '\0' !in stem
  {
    hide Trim, TrimMarks;
    var cleaned := SanitizeSiteLabel(siteLabel).value;
    TrimKeeps(cleaned);
    assert !IsUnusable('-');
    assert '\0' !in cleaned;
    var dashed := Dashed(Trim(cleaned));
    forall i | 0 <= i < |dashed|
      ensures dashed[i] != '/' && dashed[i] != '\\' && dashed[i] != '\0'
    {
      assert Trim(cleaned)[i] in cleaned;
    }
    SuffixIsPlain();
  }

  lemma {:induction false} MarksTrimmed(s: string)
    ensures var t := TrimMarks(s);
            t != "" ==> t[0] !in {' ', '.', '-'} && t[|t| - 1] !in {' ', '.', '-'}
    ensures TrimMarks(s) == "" <==> forall i | 0 <= i < |s| :: s[i] in {' ', '.', '-'}
    decreases |s|
  {
    if s != "" {
      if s[0] in {' ', '.', '-'} {
        MarksTrimmed(s[1..]);
        assert forall i | 0 < i < |s| :: s[i] == s[1..][i - 1];
      } else if s[|s| - 1] in {' ', '.', '-'} {
        MarksTrimmed(s[..|s| - 1]);
        assert s[..|s| - 1][0] == s[0];
      }
    }
  }

  /** A label is accepted exactly when, trimmed, it has 1 to 160 bytes, and some character of it is fit for
      a file name and is no mark; what is made of it has no unfit character, begins and ends with no mark,
      and gives the name of the directory. */
  lemma LabelExactly(siteLabel: string)
    ensures var trimmed, r := Trim(siteLabel), SanitizeSiteLabel(siteLabel);
      && (r.Some? <==> 1 <= Utf8Length(trimmed) <= 160
                       && exists i :: 0 <= i < |trimmed| && !IsUnusable(trimmed[i]) && trimmed[i] !in {' ', '.', '-'})
      && (r.Some? ==>
            && r.value != "" && r.value[0] !in {' ', '.', '-'} && r.value[|r.value| - 1] !in {' ', '.', '-'}
            && (forall c | c in r.value :: !IsControl(c) && c !in {'/', '\\', ':', '*', '?', '\"', '<', '>', '|'})
            && LinuxStem(r.value) == Trim(r.value) + "-Clew-Linux")
  {
    hide Trim, TrimMarks, Utf8Length;
    var trimmed := Trim(siteLabel);
    var clean := WithoutUnusable(trimmed);
    MarksTrimmed(clean);
    OnlyEmptyIsNothing(trimmed);
    if TrimMarks(clean) != "" {
      assert forall c | c in TrimMarks(clean) :: c in clean;
      TrimKeeps(TrimMarks(clean));
      var stem := Trim(TrimMarks(clean));
      assert forall c | c in stem :: c in clean;
      forall i | 0 <= i < |stem|
        ensures Dashed(stem)[i] == stem[i]
      {
        assert stem[i] in clean;
        CleanHasNoSeparator(trimmed, stem[i]);
      }
      assert Dashed(stem) == stem;
    }
  }

  lemma CleanHasNoSeparator(s: string, c: char)
    requires c in WithoutUnusable(s)
    ensures !IsUnusable(c) && c != '/' && c != '\\'
  {
    assert !IsUnusable('-');
  }

  lemma OnlyEmptyIsNothing(s: string)
    ensures Utf8Length(s) >= 1 <==> s != ""
  {
  }

  lemma SuffixIsPlain()
    ensures '/' !in LINUX_SUFFIX && '\\' !in LINUX_SUFFIX && '\0' !in LINUX_SUFFIX && LINUX_SUFFIX != ""
  {
  }

  // ---------------------------------------------------------------- UTF-8

  function Utf8Char(c: char): (b: Bytes)
    ensures b != []
    ensures 0 in b ==> c == '\0'
  {
    var n := c as int;
    if n < 0x80 then [n]
    else if n < 0x800 then [0xC0 + n / 0x40, 0x80 + n % 0x40]
    else if n < 0x1_0000 then [0xE0 + n / 0x1000, 0x80 + n / 0x40 % 0x40, 0x80 + n % 0x40]
    else [0xF0 + n / 0x4_0000, 0x80 + n / 0x1000 % 0x40, 0x80 + n / 0x40 % 0x40, 0x80 + n % 0x40]
  }

  function Utf8(s: string): Bytes {
    if s == "" then [] else Utf8Char(s[0]) + Utf8(s[1..])
  }

  lemma {:induction false} PlainUtf8(s: string)
    requires '\0' !in s
    ensures 0 !in Utf8(s) && (s != "" ==> Utf8(s) != [])
  {
    hide Utf8Char;
    if s != "" {
      PlainUtf8(s[1..]);
    }
  }

  lemma {:induction false} AsciiBytes(s: string)
    requires IsAscii(s)
    ensures |Utf8(s)| == |s| && forall i | 0 <= i < |s| :: Utf8(s)[i] == s[i] as int
  {
    if s != "" {
      assert s[0] as int < 0x80;
      assert forall i | 0 <= i < |s| - 1 :: s[1..][i] == s[i + 1];
      AsciiBytes(s[1..]);
    }
  }

  lemma ManifestName()
    ensures MANIFEST_NAME == Utf8("site-kit-manifest.json")
  {
    hide Utf8;
    AsciiBytes("site-kit-manifest.json");
  }

  /** Every kit that is written for a label reads back exactly: no path in it is one of those that
      the format loses. */
  lemma LabelledKitReadsBack(siteLabel: string, files: seq<ArchiveFile>, manifest: Bytes)
    requires SanitizeSiteLabel(siteLabel).Some?
    requires KitWritable(Utf8(LinuxStem(SanitizeSiteLabel(siteLabel).value)), files, manifest)
    ensures var stem := Utf8(LinuxStem(SanitizeSiteLabel(siteLabel).value));
      && (forall e | e in KitEntries(stem, files, manifest) :: EntryFits(e))
      && ReadArchive(Archive(KitEntries(stem, files, manifest))).Some?
      && IsKitOf(ReadArchive(Archive(KitEntries(stem, files, manifest))).value, stem, files, manifest)
    ensures MANIFEST_NAME == Utf8("site-kit-manifest.json")
  {
    hide SanitizeSiteLabel, LinuxStem, KitWritable, ReadArchive, Archive;
    StemIsPlain(siteLabel);
    PlainUtf8(LinuxStem(SanitizeSiteLabel(siteLabel).value));
    SiteKitReadsBack(Utf8(LinuxStem(SanitizeSiteLabel(siteLabel).value)), files, manifest);
    ManifestName();
  }
}
