/** Which system id the Linux machine service gets: the range from login.defs, and the greatest id of
    it that no account and no group has. */
module ServiceAllocation {
  import opened Wrappers
  import opened Text
  import opened ServiceCredential

  const DEFAULT_SYSTEM_ID_MIN: u32 := 1
  const DEFAULT_SYSTEM_ID_MAX: u32 := 999
  const MAX_SYSTEM_ID_SCAN := 65_536

  datatype AllocationError = InvalidRange | MalformedAccount | MalformedGroup | InvalidNumber | NoFreeId

  // ---------------------------------------------------------------- the range

  datatype LoginOption = UidMin | UidMax | GidMin | GidMax

  function OptionOf(key: string): Option<LoginOption> {
    if key == "SYS_UID_MIN" then Some(UidMin)
    else if key == "SYS_UID_MAX" then Some(UidMax)
    else if key == "SYS_GID_MIN" then Some(GidMin)
    else if key == "SYS_GID_MAX" then Some(GidMax)
    else None
  }

  /** The option that a line of login.defs sets, and the text it sets it to. */
  function Assignment(line: string): Option<(LoginOption, string)> {
    var fields := Fields(Trim(Split(line, '#')[0]));
    if |fields| < 2 || OptionOf(fields[0]).None? then None else Some((OptionOf(fields[0]).value, fields[1]))
  }

  type Definitions = map<LoginOption, u32>

  /** The lines so far: a later line overrides an earlier one. */
  function Define(lines: seq<string>): Result<Definitions, AllocationError> {
    if lines == [] then Ok(map[])
    else
      var before :- Define(lines[..|lines| - 1]);
      var assignment := Assignment(lines[|lines| - 1]);
      if assignment.None? then Ok(before)
      else
        var _ :- Need(ParseDecimal(assignment.value.1).Some?, InvalidNumber);
        Ok(before[assignment.value.0 := ParseDecimal(assignment.value.1).value])
  }

  function Or(value: Option<u32>, default: u32): u32 {
    if value.Some? then value.value else default
  }

  function Defined(definitions: Definitions, option: LoginOption): Option<u32> {
    if option in definitions then Some(definitions[option]) else None
  }

  function Max(a: nat, b: nat): nat {
    if a < b then b else a
  }

  function Min(a: nat, b: nat): nat {
    if a < b then a else b
  }

  /** The non-zero intersection of the two ranges, unless it is empty or too large. */
  function RangeOf(uidMin: Option<u32>, uidMax: Option<u32>, gidMin: Option<u32>, gidMax: Option<u32>)
    : Result<(u32, u32), AllocationError>
  {
    var min := Max(Max(Or(uidMin, DEFAULT_SYSTEM_ID_MIN), Or(gidMin, DEFAULT_SYSTEM_ID_MIN)), 1);
    var max := Min(Or(uidMax, DEFAULT_SYSTEM_ID_MAX), Or(gidMax, DEFAULT_SYSTEM_ID_MAX));
    if min > max || max - min >= MAX_SYSTEM_ID_SCAN then Err(InvalidRange) else Ok((min, max))
  }

  function DefinedRange(lines: seq<string>): Result<(u32, u32), AllocationError> {
    var definitions :- Define(lines);
    RangeOf(Defined(definitions, UidMin), Defined(definitions, UidMax),
            Defined(definitions, GidMin), Defined(definitions, GidMax))
  }

  /** `system_id_range`: four options, updated line by line. */
  method SystemIdRange(loginDefs: string) returns (r: Result<(u32, u32), AllocationError>)
    ensures r == DefinedRange(Lines(loginDefs))
  {
    hide Assignment, Lines, ParseDecimal, RangeOf;
    var lines := Lines(loginDefs);
    var uidMin, uidMax, gidMin, gidMax: Option<u32> := None, None, None, None;
    for i := 0 to |lines|
      invariant Define(lines[..i]).Ok?
      invariant var d := Define(lines[..i]).value;
        && uidMin == Defined(d, UidMin) && uidMax == Defined(d, UidMax)
        && gidMin == Defined(d, GidMin) && gidMax == Defined(d, GidMax)
    {
      assert lines[..i + 1][..i] == lines[..i];
      DefineFailsEarly(lines, i + 1);
      var assignment := Assignment(lines[i]);
      if assignment.None? {
        continue;
      }
      var parsed := ParseDecimal(assignment.value.1);
      if parsed.None? {
        return Err(InvalidNumber);
      }
      match assignment.value.0 {
        case UidMin => uidMin := parsed;
        case UidMax => uidMax := parsed;
        case GidMin => gidMin := parsed;
        case GidMax => gidMax := parsed;
      }
    }
    assert lines[..|lines|] == lines;
    r := RangeOf(uidMin, uidMax, gidMin, gidMax);
  }

  lemma {:induction false} DefineFailsEarly(lines: seq<string>, n: nat)
    requires n <= |lines|
    ensures Define(lines[..n]).Err? ==> Define(lines) == Define(lines[..n])
    decreases |lines| - n
  {
    hide Assignment, ParseDecimal;
    if n == |lines| {
      assert lines[..n] == lines;
    } else {
      DefineFailsEarly(lines, n + 1);
      assert lines[..n + 1][..n] == lines[..n];
    }
  }

  /** Line `i` is the last that sets `option`, and sets it to `value`. */
  ghost predicate LastSets(lines: seq<string>, option: LoginOption, i: nat, value: u32) {
    && i < |lines| && Assignment(lines[i]).Some? && Assignment(lines[i]).value.0 == option
    && ParseDecimal(Assignment(lines[i]).value.1) == Some(value)
    && forall j | i < j < |lines| && Assignment(lines[j]).Some? :: Assignment(lines[j]).value.0 != option
  }

  /** The last assignment wins; and reading fails exactly when some assignment is no number. */
  lemma {:induction false} LastAssignmentWins(lines: seq<string>, option: LoginOption)
    ensures Define(lines).Ok? <==>
      forall i | 0 <= i < |lines| && Assignment(lines[i]).Some? :: ParseDecimal(Assignment(lines[i]).value.1).Some?
    ensures Define(lines).Ok? && option in Define(lines).value ==>
      exists i :: LastSets(lines, option, i, Define(lines).value[option])
    ensures Define(lines).Ok? && option !in Define(lines).value ==>
      forall i | 0 <= i < |lines| && Assignment(lines[i]).Some? :: Assignment(lines[i]).value.0 != option
  {
    hide Assignment, ParseDecimal;
    if lines != [] {
      var n := |lines| - 1;
      var init := lines[..n];
      LastAssignmentWins(init, option);
      assert forall i | 0 <= i < n :: init[i] == lines[i];
      if Define(lines).Ok? && option in Define(lines).value {
        var value := Define(lines).value[option];
        if Assignment(lines[n]).Some? && Assignment(lines[n]).value.0 == option {
          assert LastSets(lines, option, n, value);
        } else {
          var i :| LastSets(init, option, i, value);
          assert LastSets(lines, option, i, value);
        }
      }
    }
  }

  function KeyOf(option: LoginOption): string {
    match option
    case UidMin => "SYS_UID_MIN"
    case UidMax => "SYS_UID_MAX"
    case GidMin => "SYS_GID_MIN"
    case GidMax => "SYS_GID_MAX"
  }

  /** The four options that count, and what an option is that is not set: system ids are 1 to 999. */
  lemma OptionsAre()
    ensures OptionOf("SYS_UID_MIN") == Some(UidMin) && OptionOf("SYS_UID_MAX") == Some(UidMax)
    ensures OptionOf("SYS_GID_MIN") == Some(GidMin) && OptionOf("SYS_GID_MAX") == Some(GidMax)
    ensures forall key :: OptionOf(key).Some? ==>
      key == "SYS_UID_MIN" || key == "SYS_UID_MAX" || key == "SYS_GID_MIN" || key == "SYS_GID_MAX"
    ensures RangeOf(None, None, None, None) == Ok((1, 999))
  {
  }

  /** A definition as it is written sets its option to its value, whatever comment follows. */
  lemma AssignmentReads(option: LoginOption, value: string, comment: string)
    requires value != "" && forall c | c in value :: !IsWhitespace(c) && c != '#'
    ensures Assignment(KeyOf(option) + " " + value + " #" + comment) == Some((option, value))
  {
    hide Split, Fields, Trim, IsWhitespace;
    var key := KeyOf(option);
    KeysArePlain(option);
    var text := key + " " + value + " ";
    assert key + " " + value + " #" + comment == text + ['#'] + comment;
    SplitAt(text, '#', comment);
    TwoFields(key, value);
  }

  lemma KeysArePlain(option: LoginOption)
    ensures var key := KeyOf(option);
            key != "" && OptionOf(key) == Some(option) && forall c | c in key :: !IsWhitespace(c) && c != '#'
  {
  }

  /** A comment sets nothing. */
  lemma CommentSetsNothing(comment: string)
    ensures Assignment("#" + comment) == None
  {
    hide Split;
    assert "#" + comment == "" + ['#'] + comment;
    SplitAt("", '#', comment);
  }

  predicate InRange(id: nat, min: Option<u32>, max: Option<u32>) {
    Or(min, DEFAULT_SYSTEM_ID_MIN) <= id <= Or(max, DEFAULT_SYSTEM_ID_MAX)
  }

  predicate Between(id: nat, low: nat, high: nat) {
    low <= id <= high
  }

  /** The ids from `low` to `high` are the non-zero intersection of the uid range and the gid range. */
  ghost predicate IsIntersection(low: nat, high: nat, uidMin: Option<u32>, uidMax: Option<u32>,
                                 gidMin: Option<u32>, gidMax: Option<u32>) {
    && low <= high
    && forall id: nat :: Between(id, low, high) <==>
         id != 0 && InRange(id, uidMin, uidMax) && InRange(id, gidMin, gidMax)
  }

  /** The range is the non-zero intersection of the uid range and the gid range; it is refused exactly
      when that intersection is empty or has more than 65,536 ids. */
  lemma RangeIsIntersection(uidMin: Option<u32>, uidMax: Option<u32>, gidMin: Option<u32>, gidMax: Option<u32>,
                            low: nat, high: nat)
    ensures RangeOf(uidMin, uidMax, gidMin, gidMax) == Ok((low, high)) <==>
      IsIntersection(low, high, uidMin, uidMax, gidMin, gidMax) && high - low + 1 <= 65_536
  {
    var min := Max(Max(Or(uidMin, DEFAULT_SYSTEM_ID_MIN), Or(gidMin, DEFAULT_SYSTEM_ID_MIN)), 1);
    var max := Min(Or(uidMax, DEFAULT_SYSTEM_ID_MAX), Or(gidMax, DEFAULT_SYSTEM_ID_MAX));
    hide Or, InRange, Min, Max, Between;
    IntersectionIs(min, max, uidMin, uidMax, gidMin, gidMax);
    if IsIntersection(low, high, uidMin, uidMax, gidMin, gidMax) {
      SameInterval(low, high, min, max);
    }
  }

  lemma IntersectionIs(min: nat, max: nat, uidMin: Option<u32>, uidMax: Option<u32>,
                       gidMin: Option<u32>, gidMax: Option<u32>)
    requires min == Max(Max(Or(uidMin, DEFAULT_SYSTEM_ID_MIN), Or(gidMin, DEFAULT_SYSTEM_ID_MIN)), 1)
    requires max == Min(Or(uidMax, DEFAULT_SYSTEM_ID_MAX), Or(gidMax, DEFAULT_SYSTEM_ID_MAX))
    ensures forall id: nat :: Between(id, min, max) <==>
      id != 0 && InRange(id, uidMin, uidMax) && InRange(id, gidMin, gidMax)
  {
  }

  lemma SameInterval(low: nat, high: nat, min: nat, max: nat)
    requires low <= high && forall id: nat :: Between(id, low, high) <==> Between(id, min, max)
    ensures low == min && high == max
  {
    assert Between(low, low, high) && Between(high, low, high);
    assert Between(low, min, max) && Between(high, min, max);
    assert Between(min, min, max) && Between(max, min, max);
  }

  // ---------------------------------------------------------------- the tables

  predicate IsBlank(line: string) {
    Trim(line) == ""
  }

  /** The uid and primary gid of an account line. */
  function AccountOf(line: string): Result<(u32, u32), AllocationError> {
    var fields := Split(line, ':');
    var _ :- Need(|fields| >= 4 && fields[0] != "", MalformedAccount);
    var _ :- Need(ParseDecimal(fields[2]).Some? && ParseDecimal(fields[3]).Some?, InvalidNumber);
    Ok((ParseDecimal(fields[2]).value, ParseDecimal(fields[3]).value))
  }

  /** The gid of a group line. */
  function GroupOf(line: string): Result<u32, AllocationError> {
    var fields := Split(line, ':');
    var _ :- Need(|fields| >= 3 && fields[0] != "", MalformedGroup);
    var _ :- Need(ParseDecimal(fields[2]).Some?, InvalidNumber);
    Ok(ParseDecimal(fields[2]).value)
  }

  /** The third and fourth fields of an account line are its uid and its primary gid. */
  lemma AccountReads(name: string, password: string, uid: u32, gid: u32, rest: string)
    requires name != "" && ':' !in name && ':' !in password
    ensures AccountOf(name + ":" + password + ":" + Decimal(uid) + ":" + Decimal(gid) + ":" + rest) == Ok((uid, gid))
  {
    hide Split, Decimal, ParseDecimal;
    DigitsAreNot(Decimal(uid), ':');
    DigitsAreNot(Decimal(gid), ':');
    DecimalParses(uid);
    DecimalParses(gid);
    FourFields(name, password, Decimal(uid), Decimal(gid), rest);
  }

  lemma FourFields(a: string, b: string, c: string, d: string, rest: string)
    requires ':' !in a && ':' !in b && ':' !in c && ':' !in d
    ensures Split(a + ":" + b + ":" + c + ":" + d + ":" + rest, ':') == [a, b, c, d] + Split(rest, ':')
  {
    hide Split;
    SplitAt(d, ':', rest);
    var s3 := d + [':'] + rest;
    SplitAt(c, ':', s3);
    var s2 := c + [':'] + s3;
    SplitAt(b, ':', s2);
    var s1 := b + [':'] + s2;
    SplitAt(a, ':', s1);
    assert a + ":" + b + ":" + c + ":" + d + ":" + rest == a + [':'] + s1;
  }

  /** The third field of a group line is its gid. */
  lemma GroupReads(name: string, password: string, gid: u32, rest: string)
    requires name != "" && ':' !in name && ':' !in password
    ensures GroupOf(name + ":" + password + ":" + Decimal(gid) + ":" + rest) == Ok(gid)
  {
    hide Split, Decimal, ParseDecimal;
    DigitsAreNot(Decimal(gid), ':');
    DecimalParses(gid);
    var s2 := Decimal(gid) + [':'] + rest;
    SplitAt(Decimal(gid), ':', rest);
    var s1 := password + [':'] + s2;
    SplitAt(password, ':', s2);
    SplitAt(name, ':', s1);
    assert name + ":" + password + ":" + Decimal(gid) + ":" + rest == name + [':'] + s1;
  }

  function AccountIds(lines: seq<string>): Result<set<u32>, AllocationError> {
    if lines == [] then Ok({})
    else
      var before :- AccountIds(lines[..|lines| - 1]);
      if IsBlank(lines[|lines| - 1]) then Ok(before)
      else
        var account :- AccountOf(lines[|lines| - 1]);
        Ok(before + {account.0, account.1})
  }

  function GroupIds(lines: seq<string>): Result<set<u32>, AllocationError> {
    if lines == [] then Ok({})
    else
      var before :- GroupIds(lines[..|lines| - 1]);
      if IsBlank(lines[|lines| - 1]) then Ok(before)
      else
        var gid :- GroupOf(lines[|lines| - 1]);
        Ok(before + {gid})
  }

  /** The greatest id of the range that is not occupied. */
  function GreatestFree(occupied: set<u32>, min: nat, max: int): Option<nat>
    decreases max
  {
    if max < min then None else if max in occupied then GreatestFree(occupied, min, max - 1) else Some(max)
  }

  function Allocated(passwd: string, group: string, min: u32, max: u32): Result<ServiceIdentity, AllocationError> {
    var _ :- Need(0 < min <= max && max - min < MAX_SYSTEM_ID_SCAN, InvalidRange);
    var accounts :- AccountIds(Lines(passwd));
    var groups :- GroupIds(Lines(group));
    var free := GreatestFree(accounts + groups, min, max);
    var _ :- Need(free.Some?, NoFreeId);
    GreatestFreeIsExact(accounts + groups, min, max);
    Ok(ServiceIdentity(free.value, free.value))
  }

  /** `allocate_service_identity_from`: the tables fill a set, and the range is scanned downwards. */
  method AllocateServiceIdentity(passwd: string, group: string, min: u32, max: u32)
    returns (r: Result<ServiceIdentity, AllocationError>)
    ensures r == Allocated(passwd, group, min, max)
  {
    hide Lines, IsBlank, AccountOf, GroupOf;
    if min == 0 || min > max || max - min >= MAX_SYSTEM_ID_SCAN {
      return Err(InvalidRange);
    }
    var accountIds := ReadAccounts(Lines(passwd));
    if accountIds.Err? {
      return Err(accountIds.error);
    }
    var groupIds := ReadGroups(Lines(group));
    if groupIds.Err? {
      return Err(groupIds.error);
    }
    var occupied := accountIds.value + groupIds.value;
    var id: int := max;
    while id >= min
      invariant min - 1 <= id <= max
      invariant GreatestFree(occupied, min, id) == GreatestFree(occupied, min, max)
    {
      if id !in occupied {
        var identity := ServiceIdentity(id, id);
        return Ok(identity);
      }
      id := id - 1;
    }
    r := Err(NoFreeId);
  }

  method ReadAccounts(lines: seq<string>) returns (r: Result<set<u32>, AllocationError>)
    ensures r == AccountIds(lines)
  {
    hide IsBlank, AccountOf;
    var occupied: set<u32> := {};
    for i := 0 to |lines|
      invariant AccountIds(lines[..i]) == Ok(occupied)
    {
      assert lines[..i + 1][..i] == lines[..i];
      AccountsFailEarly(lines, i + 1);
      if !IsBlank(lines[i]) {
        var account := AccountOf(lines[i]);
        if account.Err? {
          return Err(account.error);
        }
        occupied := occupied + {account.value.0, account.value.1};
      }
    }
    assert lines[..|lines|] == lines;
    r := Ok(occupied);
  }

  method ReadGroups(lines: seq<string>) returns (r: Result<set<u32>, AllocationError>)
    ensures r == GroupIds(lines)
  {
    hide IsBlank, GroupOf;
    var occupied: set<u32> := {};
    for i := 0 to |lines|
      invariant GroupIds(lines[..i]) == Ok(occupied)
    {
      assert lines[..i + 1][..i] == lines[..i];
      GroupsFailEarly(lines, i + 1);
      if !IsBlank(lines[i]) {
        var gid := GroupOf(lines[i]);
        if gid.Err? {
          return Err(gid.error);
        }
        occupied := occupied + {gid.value};
      }
    }
    assert lines[..|lines|] == lines;
    r := Ok(occupied);
  }

  lemma {:induction false} AccountsFailEarly(lines: seq<string>, n: nat)
    requires n <= |lines|
    ensures AccountIds(lines[..n]).Err? ==> AccountIds(lines) == AccountIds(lines[..n])
    decreases |lines| - n
  {
    hide IsBlank, AccountOf;
    if n == |lines| {
      assert lines[..n] == lines;
    } else {
      AccountsFailEarly(lines, n + 1);
      assert lines[..n + 1][..n] == lines[..n];
    }
  }

  lemma {:induction false} GroupsFailEarly(lines: seq<string>, n: nat)
    requires n <= |lines|
    ensures GroupIds(lines[..n]).Err? ==> GroupIds(lines) == GroupIds(lines[..n])
    decreases |lines| - n
  {
    hide IsBlank, GroupOf;
    if n == |lines| {
      assert lines[..n] == lines;
    } else {
      GroupsFailEarly(lines, n + 1);
      assert lines[..n + 1][..n] == lines[..n];
    }
  }

  // ---------------------------------------------------------------- what is allocated

  ghost predicate AccountHas(lines: seq<string>, id: nat) {
    exists i | 0 <= i < |lines| ::
      && !IsBlank(lines[i]) && AccountOf(lines[i]).Ok?
      && (AccountOf(lines[i]).value.0 == id || AccountOf(lines[i]).value.1 == id)
  }

  ghost predicate GroupHas(lines: seq<string>, id: nat) {
    exists i | 0 <= i < |lines| :: !IsBlank(lines[i]) && GroupOf(lines[i]) == Ok(id)
  }

  ghost predicate AccountsAreGood(lines: seq<string>) {
    forall i | 0 <= i < |lines| && !IsBlank(lines[i]) :: AccountOf(lines[i]).Ok?
  }

  ghost predicate GroupsAreGood(lines: seq<string>) {
    forall i | 0 <= i < |lines| && !IsBlank(lines[i]) :: GroupOf(lines[i]).Ok?
  }

  lemma {:induction false} AccountIdsAre(lines: seq<string>, id: u32)
    ensures AccountIds(lines).Ok? <==> AccountsAreGood(lines)
    ensures AccountIds(lines).Ok? ==> (id in AccountIds(lines).value <==> AccountHas(lines, id))
  {
    hide IsBlank, AccountOf;
    if lines != [] {
      var n := |lines| - 1;
      var init := lines[..n];
      AccountIdsAre(init, id);
      assert forall i | 0 <= i < n :: init[i] == lines[i];
      assert AccountHas(init, id) ==> AccountHas(lines, id);
    }
  }

  lemma {:induction false} GroupIdsAre(lines: seq<string>, id: u32)
    ensures GroupIds(lines).Ok? <==> GroupsAreGood(lines)
    ensures GroupIds(lines).Ok? ==> (id in GroupIds(lines).value <==> GroupHas(lines, id))
  {
    hide IsBlank, GroupOf;
    if lines != [] {
      var n := |lines| - 1;
      var init := lines[..n];
      GroupIdsAre(init, id);
      assert forall i | 0 <= i < n :: init[i] == lines[i];
      assert GroupHas(init, id) ==> GroupHas(lines, id);
    }
  }

  lemma {:induction false} GreatestFreeIsExact(occupied: set<u32>, min: nat, max: int)
    ensures var free := GreatestFree(occupied, min, max);
      if free.Some? then
        min <= free.value <= max && free.value !in occupied && forall id | free.value < id <= max :: id in occupied
      else forall id | min <= id <= max :: id in occupied
    decreases max
  {
    if min <= max && max in occupied {
      GreatestFreeIsExact(occupied, min, max - 1);
    }
  }

  ghost predicate Taken(passwd: string, group: string, id: nat) {
    AccountHas(Lines(passwd), id) || GroupHas(Lines(group), id)
  }

  ghost predicate TablesAreGood(passwd: string, group: string) {
    AccountsAreGood(Lines(passwd)) && GroupsAreGood(Lines(group))
  }

  /** The allocated identity is the greatest id of the range that is no account's uid, no account's
      primary gid and no group's gid; it is a valid service identity. */
  lemma AllocatedIsGreatestFree(passwd: string, group: string, min: u32, max: u32)
    requires Allocated(passwd, group, min, max).Ok?
    ensures var identity := Allocated(passwd, group, min, max).value;
      && identity.Valid() && min <= identity.uid <= max && !Taken(passwd, group, identity.uid)
      && TablesAreGood(passwd, group)
      && forall id: u32 | identity.uid < id <= max :: Taken(passwd, group, id)
  {
    hide Lines, AccountIds, GroupIds, AccountHas, GroupHas, AccountsAreGood, GroupsAreGood, GreatestFree;
    var accounts, groups := AccountIds(Lines(passwd)).value, GroupIds(Lines(group)).value;
    GreatestFreeIsExact(accounts + groups, min, max);
    forall id: u32
      ensures id in accounts + groups <==> Taken(passwd, group, id)
      ensures TablesAreGood(passwd, group)
    {
      AccountIdsAre(Lines(passwd), id);
      GroupIdsAre(Lines(group), id);
    }
    AccountIdsAre(Lines(passwd), min);
    GroupIdsAre(Lines(group), min);
  }

  /** Given an acceptable range, allocation finds no free id exactly when the tables are well formed and
      every id of the range is taken, and fails otherwise exactly when a table is malformed. */
  lemma AllocationFailsExactly(passwd: string, group: string, min: u32, max: u32)
    requires 0 < min <= max && max - min < MAX_SYSTEM_ID_SCAN
    ensures Allocated(passwd, group, min, max) == Err(NoFreeId) <==>
      TablesAreGood(passwd, group) && forall id: u32 | min <= id <= max :: Taken(passwd, group, id)
    ensures Allocated(passwd, group, min, max).Err? && TablesAreGood(passwd, group) ==>
      Allocated(passwd, group, min, max) == Err(NoFreeId)
    ensures !TablesAreGood(passwd, group) ==> Allocated(passwd, group, min, max).Err?
  {
    hide Lines, AccountIds, GroupIds, AccountHas, GroupHas, AccountsAreGood, GroupsAreGood, GreatestFree;
    AccountErrors(Lines(passwd));
    GroupErrors(Lines(group));
    AccountIdsAre(Lines(passwd), min);
    GroupIdsAre(Lines(group), min);
    if TablesAreGood(passwd, group) {
      var accounts, groups := AccountIds(Lines(passwd)).value, GroupIds(Lines(group)).value;
      GreatestFreeIsExact(accounts + groups, min, max);
      forall id: u32
        ensures id in accounts + groups <==> Taken(passwd, group, id)
      {
        AccountIdsAre(Lines(passwd), id);
        GroupIdsAre(Lines(group), id);
      }
    }
  }

  lemma {:induction false} AccountErrors(lines: seq<string>)
    ensures AccountIds(lines) != Err(NoFreeId) && AccountIds(lines) != Err(InvalidRange)
  {
    hide IsBlank, ParseDecimal;
    if lines != [] {
      AccountErrors(lines[..|lines| - 1]);
    }
  }

  lemma {:induction false} GroupErrors(lines: seq<string>)
    ensures GroupIds(lines) != Err(NoFreeId) && GroupIds(lines) != Err(InvalidRange)
  {
    hide IsBlank, ParseDecimal;
    if lines != [] {
      GroupErrors(lines[..|lines| - 1]);
    }
  }

  // ---------------------------------------------------------------- range and tables together

  /** What `allocate_service_identity` makes of the tables and of login.defs. */
  function SystemIdentity(passwd: string, group: string, loginDefs: string): Result<ServiceIdentity, AllocationError> {
    var range :- DefinedRange(Lines(loginDefs));
    Allocated(passwd, group, range.0, range.1)
  }

  /** `allocate_service_identity`; a login.defs that is missing reads as an empty one. */
  method AllocateSystemIdentity(passwd: string, group: string, loginDefs: Option<string>)
    returns (r: Result<ServiceIdentity, AllocationError>)
    ensures r == SystemIdentity(passwd, group, if loginDefs.Some? then loginDefs.value else "")
  {
    hide DefinedRange, Allocated, Lines;
    var text := if loginDefs.Some? then loginDefs.value else "";
    var range := SystemIdRange(text);
    if range.Err? {
      return Err(range.error);
    }
    r := AllocateServiceIdentity(passwd, group, range.value.0, range.value.1);
  }

  /** The id is allowed for a service by both ranges of login.defs. */
  ghost predicate IsAllowed(definitions: Definitions, id: nat) {
    && id != 0
    && InRange(id, Defined(definitions, UidMin), Defined(definitions, UidMax))
    && InRange(id, Defined(definitions, GidMin), Defined(definitions, GidMax))
  }

  /** A range that was accepted is never refused by the allocator; the identity is the greatest id that
      both ranges allow and nobody has; no free id is reported only when every allowed id is taken. */
  lemma SystemIdentityIsGreatestAllowed(passwd: string, group: string, loginDefs: string)
    requires DefinedRange(Lines(loginDefs)).Ok?
    ensures var definitions, r := Define(Lines(loginDefs)).value, SystemIdentity(passwd, group, loginDefs);
      && r != Err(InvalidRange)
      && (r.Ok? ==>
            && r.value.Valid() && IsAllowed(definitions, r.value.uid) && IsAllowed(definitions, r.value.gid)
            && !Taken(passwd, group, r.value.uid)
            && forall id: u32 | id > r.value.uid && IsAllowed(definitions, id) :: Taken(passwd, group, id))
      && (r == Err(NoFreeId) ==> forall id: u32 | IsAllowed(definitions, id) :: Taken(passwd, group, id))
  {
    hide Lines, Define, RangeOf, Allocated, Taken, InRange;
    var definitions := Define(Lines(loginDefs)).value;
    var uidMin, uidMax := Defined(definitions, UidMin), Defined(definitions, UidMax);
    var gidMin, gidMax := Defined(definitions, GidMin), Defined(definitions, GidMax);
    var (min, max) := DefinedRange(Lines(loginDefs)).value;
    RangeIsIntersection(uidMin, uidMax, gidMin, gidMax, min, max);
    AllowedIsBetween(definitions, min, max);
    RangeStartsAtOne(uidMin, uidMax, gidMin, gidMax);
    AllocationFailsExactly(passwd, group, min, max);
    NeverInvalidRange(passwd, group, min, max);
    if Allocated(passwd, group, min, max).Ok? {
      AllocatedIsGreatestFree(passwd, group, min, max);
    }
  }

  lemma AllowedIsBetween(definitions: Definitions, min: nat, max: nat)
    requires IsIntersection(min, max, Defined(definitions, UidMin), Defined(definitions, UidMax),
                            Defined(definitions, GidMin), Defined(definitions, GidMax))
    ensures forall id: nat :: IsAllowed(definitions, id) <==> min <= id <= max
  {
    hide InRange;
    assert forall id: nat :: Between(id, min, max) <==> IsAllowed(definitions, id);
  }

  lemma RangeStartsAtOne(uidMin: Option<u32>, uidMax: Option<u32>, gidMin: Option<u32>, gidMax: Option<u32>)
    ensures RangeOf(uidMin, uidMax, gidMin, gidMax).Ok? ==>
      RangeOf(uidMin, uidMax, gidMin, gidMax).value.0 >= 1
  {
  }

  lemma NeverInvalidRange(passwd: string, group: string, min: u32, max: u32)
    requires 0 < min <= max && max - min < MAX_SYSTEM_ID_SCAN
    ensures Allocated(passwd, group, min, max) != Err(InvalidRange)
  {
    hide Lines, GreatestFree;
    AccountErrors(Lines(passwd));
    GroupErrors(Lines(group));
  }
}
