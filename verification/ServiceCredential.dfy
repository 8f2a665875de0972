/** The sysusers credential of the Linux machine service: how it is rendered and how it is read. */
module ServiceCredential {
  import opened Wrappers
  import opened Text

  const HEADER_LINE := "# Managed by Clew V7c"
  const GROUP_PREFIX := "g clew-service "
  const USER_PREFIX := "u clew-service "
  const ACCOUNT_TITLE := "\"Clew Connector Service\""
  const MACHINE_ROOT := "/var/lib/clew-service"
  const USER_METADATA := ACCOUNT_TITLE + " " + MACHINE_ROOT

  datatype CredentialError =
    | NoFinalNewline | UnexpectedShape | InvalidGroupLine | NotANumber | InvalidUserLine | IncompleteUserLine
    | InvalidUserMetadata | InvalidUidGid | NotDedicated | Inconsistent

  datatype ServiceIdentity = ServiceIdentity(uid: u32, gid: u32) {
    predicate Valid() {
      uid != 0 && gid != 0 && uid == gid
    }
  }

  function GroupLine(identity: ServiceIdentity): string {
    GROUP_PREFIX + Decimal(identity.gid)
  }

  function Ids(identity: ServiceIdentity): string {
    Decimal(identity.uid) + ":" + Decimal(identity.gid)
  }

  function UserLine(identity: ServiceIdentity): string {
    USER_PREFIX + (Ids(identity) + " " + USER_METADATA)
  }

  /** `render_sysusers`. */
  function Render(identity: ServiceIdentity): string {
    HEADER_LINE + "\n" + (GroupLine(identity) + "\n" + (UserLine(identity) + "\n" + ""))
  }

  function ReadUser(line: string): Result<ServiceIdentity, CredentialError> {
    var _ :- Need(StripPrefix(line, USER_PREFIX).Some?, InvalidUserLine);
    var user := SplitOnce(StripPrefix(line, USER_PREFIX).value, ' ');
    var _ :- Need(user.Some?, IncompleteUserLine);
    var (ids, suffix) := user.value;
    var _ :- Need(suffix == USER_METADATA, InvalidUserMetadata);
    var parts := SplitOnce(ids, ':');
    var _ :- Need(parts.Some?, InvalidUidGid);
    var (uid, gid) := parts.value;
    var _ :- Need(ParseDecimal(uid).Some? && ParseDecimal(gid).Some?, NotANumber);
    var identity := ServiceIdentity(ParseDecimal(uid).value, ParseDecimal(gid).value);
    var _ :- Need(identity.Valid(), NotDedicated);
    Ok(identity)
  }

  /** `parse_managed_sysusers` on decoded text. */
  function Parse(text: string): Result<ServiceIdentity, CredentialError> {
    var _ :- Need(text != "" && text[|text| - 1] == '\n', NoFinalNewline);
    var lines := Lines(text);
    var _ :- Need(|lines| == 3 && lines[0] == HEADER_LINE, UnexpectedShape);
    var _ :- Need(StripPrefix(lines[1], GROUP_PREFIX).Some?, InvalidGroupLine);
    var gid := ParseDecimal(StripPrefix(lines[1], GROUP_PREFIX).value);
    var _ :- Need(gid.Some?, NotANumber);
    var identity :- ReadUser(lines[2]);
    var _ :- Need(identity.gid == gid.value && Render(identity) == text, Inconsistent);
    Ok(identity)
  }

  // ---------------------------------------------------------------- printer and parser are inverse

  lemma DigitsAreNot(s: string, c: char)
    requires IsDigits(s, 10) && !IsAsciiDigit(c)
    ensures c !in s
  {
  }

  lemma SplitsOnce(head: string, c: char, tail: string)
    requires c !in head
    ensures SplitOnce(head + [c] + tail, c) == Some((head, tail))
  {
    var s := head + [c] + tail;
    assert s[..|head|] == head && s[|head| + 1..] == tail;
    IndexOfIsFirst(s, c, |head|);
  }

  lemma StripsPrefix(prefix: string, rest: string)
    ensures StripPrefix(prefix + rest, prefix) == Some(rest)
  {
    assert (prefix + rest)[|prefix|..] == rest;
  }

  lemma UserLineReadsBack(identity: ServiceIdentity)
    requires identity.Valid()
    ensures ReadUser(UserLine(identity)) == Ok(identity)
  {
    hide Decimal, SplitOnce, StripPrefix, ParseDecimal;
    var uid, gid := Decimal(identity.uid), Decimal(identity.gid);
    StripsPrefix(USER_PREFIX, Ids(identity) + " " + USER_METADATA);
    DigitsAreNot(uid, ' ');
    DigitsAreNot(gid, ' ');
    DigitsAreNot(uid, ':');
    SplitsOnce(Ids(identity), ' ', USER_METADATA);
    SplitsOnce(uid, ':', gid);
    DecimalParses(identity.uid);
    DecimalParses(identity.gid);
  }

  lemma EndsPlainly(line: string)
    requires line != "" && line[|line| - 1] != '\r'
    ensures WithoutReturn(line) == line
  {
  }

  lemma HeaderHasNoLineFeed()
    ensures '\n' !in HEADER_LINE
  {
  }

  lemma PrefixesHaveNoLineFeed()
    ensures '\n' !in USER_PREFIX && '\n' !in GROUP_PREFIX
  {
  }

  lemma MetadataHasNoLineFeed()
    ensures '\n' !in USER_METADATA
  {
    assert '\n' !in ACCOUNT_TITLE && '\n' !in MACHINE_ROOT;
  }

  lemma NoLineFeeds(identity: ServiceIdentity)
    ensures '\n' !in HEADER_LINE && '\n' !in GroupLine(identity) && '\n' !in UserLine(identity)
  {
    hide Decimal;
    DigitsAreNot(Decimal(identity.uid), '\n');
    DigitsAreNot(Decimal(identity.gid), '\n');
    HeaderHasNoLineFeed();
    PrefixesHaveNoLineFeed();
    MetadataHasNoLineFeed();
  }

  lemma LinesOfRendering(identity: ServiceIdentity)
    ensures Lines(Render(identity)) == [HEADER_LINE, GroupLine(identity), UserLine(identity)]
  {
    hide Lines, Decimal, WithoutReturn;
    NoLineFeeds(identity);
    var group, user := GroupLine(identity), UserLine(identity);
    EndsPlainly(HEADER_LINE);
    assert user[|user| - 1] == USER_METADATA[|USER_METADATA| - 1];
    EndsPlainly(user);
    var gid := Decimal(identity.gid);
    assert group[|group| - 1] == gid[|gid| - 1] && gid[|gid| - 1] in gid;
    EndsPlainly(group);
    LinesOfLine(user, "");
    LinesOfLine(group, user + "\n" + "");
    LinesOfLine(HEADER_LINE, group + "\n" + (user + "\n" + ""));
    assert Lines("") == [] by { NoLines(); }
  }

  /** A rendering is exactly these three lines, of which the second names the group and the third the
      user, with both ids. */
  lemma RenderingSays(identity: ServiceIdentity)
    ensures Lines(Render(identity)) ==
      ["# Managed by Clew V7c",
       "g clew-service " + Decimal(identity.gid),
       "u clew-service " + Decimal(identity.uid) + ":" + Decimal(identity.gid)
       + " " + "\"Clew Connector Service\"" + " " + "/var/lib/clew-service"]
  {
    hide Lines, Decimal, Render;
    LinesOfRendering(identity);
    Regrouped("u clew-service ", Decimal(identity.uid), Decimal(identity.gid), "\"Clew Connector Service\"",
              "/var/lib/clew-service");
  }

  lemma Regrouped(prefix: string, uid: string, gid: string, title: string, root: string)
    ensures prefix + (uid + ":" + gid + " " + (title + " " + root))
         == prefix + uid + ":" + gid + " " + title + " " + root
  {
  }

  lemma NoLines()
    ensures Lines("") == []
  {
  }

  lemma RenderingEnds(identity: ServiceIdentity)
    ensures var text := Render(identity); text != "" && text[|text| - 1] == '\n'
  {
    hide GroupLine, UserLine;
    var front := HEADER_LINE + "\n" + (GroupLine(identity) + "\n" + UserLine(identity));
    assert Render(identity) == front + "\n";
  }

  lemma RenderingParses(identity: ServiceIdentity)
    requires identity.Valid()
    ensures Parse(Render(identity)) == Ok(identity)
  {
    hide Render, UserLine, ReadUser, Decimal, Lines, StripPrefix, ParseDecimal;
    RenderingEnds(identity);
    LinesOfRendering(identity);
    UserLineReadsBack(identity);
    StripsPrefix(GROUP_PREFIX, Decimal(identity.gid));
    DecimalParses(identity.gid);
  }

  lemma ReadUserIsValid(line: string)
    ensures ReadUser(line).Ok? ==> ReadUser(line).value.Valid()
  {
    hide SplitOnce, StripPrefix, ParseDecimal;
  }

  /** The printer and the parser are a bijection: a text is accepted, as an identity, exactly when the
      identity is valid and the text is its rendering. */
  lemma ParseIsInverse(text: string, identity: ServiceIdentity)
    ensures Parse(text) == Ok(identity) <==> identity.Valid() && text == Render(identity)
  {
    hide Render, ReadUser, Lines, StripPrefix, ParseDecimal;
    if identity.Valid() {
      RenderingParses(identity);
    }
    forall line
      ensures ReadUser(line).Ok? ==> ReadUser(line).value.Valid()
    {
      ReadUserIsValid(line);
    }
  }

  /** Two valid identities with one rendering are the same. */
  lemma RenderIsInjective(a: ServiceIdentity, b: ServiceIdentity)
    requires a.Valid() && b.Valid() && Render(a) == Render(b)
    ensures a == b
  {
    hide Render, Parse;
    ParseIsInverse(Render(a), a);
    ParseIsInverse(Render(b), b);
  }
}
