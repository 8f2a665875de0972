/** The controller's catalog of sites and devices, as a state machine over its operations. */
module Catalog {
  import opened Wrappers
  import opened Text
  import opened Device
  import opened Ordered

  const HARD_MAX_READ_RESULT_BYTES := 48 * 1024
  const HARD_MAX_READ_TIMEOUT_MS := 30_000
  const HARD_MAX_READ_ROOTS := 16
  const HARD_MAX_READ_ROOT_BYTES := 2048
  const MAX_NAME_BYTES := 128

  datatype ControlModelError =
    | AmbiguousFilesystemScope | TooManyReadRoots(count: nat) | InvalidReadRoot | InvalidReadResultLimit(bytes: u32)
    | InvalidReadTimeout(ms: u32) | InvalidName | UnknownSite(site: SiteId) | UnknownDevice(device: DeviceId)
    | SiteConflict(site: SiteId) | DeviceConflict(device: DeviceId)

  datatype ReadPolicy = ReadPolicy(allFilesystem: bool, roots: seq<string>, maxResultBytes: u32, timeoutMs: u32) {
    function Validate(): Result<(), ControlModelError> {
      var _ :- Need(!(allFilesystem && roots != []), AmbiguousFilesystemScope);
      var _ :- Need(|roots| <= HARD_MAX_READ_ROOTS, TooManyReadRoots(|roots|));
      var _ :- Need(forall root | root in roots :: 0 < Utf8Length(Trim(root)) <= HARD_MAX_READ_ROOT_BYTES,
                    InvalidReadRoot);
      var _ :- Need(0 < maxResultBytes <= HARD_MAX_READ_RESULT_BYTES, InvalidReadResultLimit(maxResultBytes));
      var _ :- Need(0 < timeoutMs <= HARD_MAX_READ_TIMEOUT_MS, InvalidReadTimeout(timeoutMs));
      Ok(())
    }
  }

  function ValidateName(name: string): Result<string, ControlModelError> {
    var trimmed := Trim(name);
    if 0 < Utf8Length(trimmed) <= MAX_NAME_BYTES then Ok(trimmed) else Err(InvalidName)
  }

  datatype SiteRecord = SiteRecord(siteId: SiteId, siteName: string, readPolicy: ReadPolicy, revoked: bool) {
    function Validate(): Result<(), ControlModelError> {
      var _ :- ValidateName(siteName);
      readPolicy.Validate()
    }
  }

  datatype DeviceEntry = DeviceEntry(device: DeviceRecord, revoked: bool)

  datatype State = State(sites: map<SiteId, SiteRecord>, devices: map<DeviceId, DeviceEntry>)

  const EMPTY := State(map[], map[])

  // ---------------------------------------------------------------- identifiers in order

  /** The order in which a map keyed by device is gone through. */
  const BY_ID: (DeviceId, DeviceId) -> bool := (a: DeviceId, b: DeviceId) => BytesBelow(a, b)
  const BY_SITE: (SiteId, SiteId) -> bool := (a: SiteId, b: SiteId) => a < b

  lemma SitesAreOrdered()
    ensures IsStrictOrder(BY_SITE)
  {
  }

  lemma IdsAreOrdered()
    ensures IsStrictOrder(BY_ID)
  {
    forall a: DeviceId, b: DeviceId
      ensures !BY_ID(a, a) && (a == b || BY_ID(a, b) || BY_ID(b, a))
    {
      BytesBelowIrreflexive(a);
      BytesBelowTotal(a, b);
    }
    forall a: DeviceId, b: DeviceId, c: DeviceId | BY_ID(a, b) && BY_ID(b, c)
      ensures BY_ID(a, c)
    {
      BytesBelowTransitive(a, b, c);
    }
  }

  // ---------------------------------------------------------------- operations

  datatype Operation =
    | UpsertSite(site: SiteRecord) | RegisterDevice(device: DeviceRecord) | RenameDevice(id: DeviceId, name: string)
    | RevokeDevice(id: DeviceId) | RemoveDevice(id: DeviceId) | RevokeSite(siteId: SiteId)

  datatype Reply =
    | Done | Renamed(device: DeviceRecord) | Removed(entry: Option<DeviceEntry>) | Revoked(devices: seq<DeviceId>)

  ghost function DevicesOf(s: State, site: SiteId): set<DeviceId> {
    set id | id in s.devices && s.devices[id].device.siteId == site
  }

  ghost function IdsInOrder(ids: set<DeviceId>): (r: seq<DeviceId>)
    ensures forall id :: id in r <==> id in ids
  {
    IdsAreOrdered();
    InOrder(BY_ID, ids)
  }

  ghost function RevokedSite(s: State, site: SiteId): State
    requires site in s.sites
  {
    State(s.sites[site := s.sites[site].(revoked := true)],
          map id | id in s.devices ::
            if s.devices[id].device.siteId == site then s.devices[id].(revoked := true) else s.devices[id])
  }

  ghost function Step(s: State, op: Operation): (Result<Reply, ControlModelError>, State) {
    match op
    case UpsertSite(site) =>
      if site.Validate().Err? then (Err(site.Validate().error), s)
      else if site.siteId in s.sites && s.sites[site.siteId].siteName != site.siteName
      then (Err(SiteConflict(site.siteId)), s)
      else (Ok(Done), s.(sites := s.sites[site.siteId := site]))
    case RegisterDevice(device) =>
      var id := device.deviceId;
      if device.siteId !in s.sites then (Err(UnknownSite(device.siteId)), s)
      else if id in s.devices && s.devices[id].device != device then (Err(DeviceConflict(id)), s)
      else (Ok(Done), s.(devices := s.devices[id := DeviceEntry(device, false)]))
    case RenameDevice(id, name) =>
      if ValidateName(name).Err? then (Err(ValidateName(name).error), s)
      else if id !in s.devices then (Err(UnknownDevice(id)), s)
      else
        var device := s.devices[id].device.(displayName := ValidateName(name).value, nameOrigin := NameOrigin.Renamed);
        (Ok(Reply.Renamed(device)), s.(devices := s.devices[id := s.devices[id].(device := device)]))
    case RevokeDevice(id) =>
      if id !in s.devices then (Err(UnknownDevice(id)), s)
      else (Ok(Done), s.(devices := s.devices[id := s.devices[id].(revoked := true)]))
    case RemoveDevice(id) =>
      (Ok(Removed(if id in s.devices then Some(s.devices[id]) else None)), s.(devices := s.devices - {id}))
    case RevokeSite(site) =>
      if site !in s.sites then (Err(UnknownSite(site)), s)
      else (Ok(Revoked(IdsInOrder(DevicesOf(s, site)))), RevokedSite(s, site))
  }

  ghost function Run(s: State, ops: seq<Operation>): State {
    if ops == [] then s else Step(Run(s, ops[..|ops| - 1]), ops[|ops| - 1]).1
  }

  /** `ControllerCatalog::validate` finds nothing wrong. */
  ghost predicate Validates(s: State) {
    && (forall id | id in s.sites :: s.sites[id].Validate().Ok?)
    && (forall id | id in s.devices :: s.devices[id].device.siteId in s.sites)
  }

  /** What it finds first: the first bad site in order, or, when all are good, the first device in order
      that is of none of them. */
  ghost predicate IsFirstFault(s: State, error: ControlModelError) {
    || (exists id :: IsFirstBadSite(s, id) && s.sites[id].Validate() == Err(error))
    || ((forall id | id in s.sites :: s.sites[id].Validate().Ok?)
        && exists id :: IsFirstStray(s, id) && error == UnknownSite(s.devices[id].device.siteId))
  }

  ghost predicate IsFirstBadSite(s: State, id: SiteId) {
    && id in s.sites && s.sites[id].Validate().Err?
    && forall other | other in s.sites && BY_SITE(other, id) :: s.sites[other].Validate().Ok?
  }

  ghost predicate IsFirstStray(s: State, id: DeviceId) {
    && id in s.devices && s.devices[id].device.siteId !in s.sites
    && forall other | other in s.devices && BY_ID(other, id) :: s.devices[other].device.siteId in s.sites
  }

  ghost predicate KeysAreIds(s: State) {
    && (forall id | id in s.sites :: s.sites[id].siteId == id)
    && (forall id | id in s.devices :: s.devices[id].device.deviceId == id)
  }

  // ---------------------------------------------------------------- what every run keeps

  /** From the empty catalog, every run keeps the keys equal to the record ids and the catalog valid:
      in particular every device's site exists. */
  lemma {:induction false} RunsStayValid(ops: seq<Operation>)
    ensures Validates(Run(EMPTY, ops)) && KeysAreIds(Run(EMPTY, ops))
  {
    if ops != [] {
      RunsStayValid(ops[..|ops| - 1]);
      StepStaysValid(Run(EMPTY, ops[..|ops| - 1]), ops[|ops| - 1]);
    }
  }

  lemma StepStaysValid(s: State, op: Operation)
    requires Validates(s) && KeysAreIds(s)
    ensures Validates(Step(s, op).1) && KeysAreIds(Step(s, op).1)
  {
    hide ValidateName, ReadPolicy.Validate, IdsInOrder;
  }

  /** A site, once there, stays, under its name. */
  lemma {:induction false} SiteNamesNeverChange(s: State, ops: seq<Operation>, site: SiteId)
    requires site in s.sites
    ensures site in Run(s, ops).sites && Run(s, ops).sites[site].siteName == s.sites[site].siteName
  {
    hide ValidateName, ReadPolicy.Validate, IdsInOrder;
    if ops != [] {
      SiteNamesNeverChange(s, ops[..|ops| - 1], site);
    }
  }

  /** Everything about a device but its display name and where that comes from. */
  ghost predicate SameIdentity(a: DeviceRecord, b: DeviceRecord) {
    a == b.(displayName := a.displayName, nameOrigin := a.nameOrigin)
  }

  /** A device that is not removed stays, with its identity. */
  lemma {:induction false} IdentityLastsUntilRemoval(s: State, ops: seq<Operation>, id: DeviceId)
    requires id in s.devices && RemoveDevice(id) !in ops
    ensures id in Run(s, ops).devices && SameIdentity(Run(s, ops).devices[id].device, s.devices[id].device)
  {
    hide ValidateName, ReadPolicy.Validate, IdsInOrder, SiteRecord.Validate;
    if ops != [] {
      assert ops == ops[..|ops| - 1] + [ops[|ops| - 1]];
      IdentityLastsUntilRemoval(s, ops[..|ops| - 1], id);
    }
  }

  ghost predicate RevokedOrAbsent(s: State, id: DeviceId) {
    id in s.devices ==> s.devices[id].revoked
  }

  /** A revoked device stays revoked unless it is registered again, even if it is removed. */
  lemma {:induction false} RevocationLasts(s: State, ops: seq<Operation>, id: DeviceId)
    requires RevokedOrAbsent(s, id)
    requires forall op | op in ops :: !(op.RegisterDevice? && op.device.deviceId == id)
    ensures RevokedOrAbsent(Run(s, ops), id)
  {
    hide ValidateName, ReadPolicy.Validate, IdsInOrder, SiteRecord.Validate;
    if ops != [] {
      RevocationLasts(s, ops[..|ops| - 1], id);
    }
  }

  /** A step clears a revocation exactly when it registers the identical device again. */
  lemma RevocationIsClearedExactly(s: State, op: Operation, id: DeviceId)
    requires Validates(s) && KeysAreIds(s) && id in s.devices && s.devices[id].revoked
    ensures id in Step(s, op).1.devices && !Step(s, op).1.devices[id].revoked <==>
      op == RegisterDevice(s.devices[id].device)
  {
    hide ValidateName, ReadPolicy.Validate, IdsInOrder, SiteRecord.Validate;
  }

  /** A step clears the revocation of a site exactly when it upserts the site, under its name, unrevoked. */
  lemma SiteRevocationIsClearedExactly(s: State, op: Operation, site: SiteId)
    requires site in s.sites && s.sites[site].revoked
    ensures !Step(s, op).1.sites[site].revoked <==>
      && op.UpsertSite? && op.site.siteId == site && op.site.Validate().Ok?
      && op.site.siteName == s.sites[site].siteName && !op.site.revoked
  {
    hide ValidateName, ReadPolicy.Validate, IdsInOrder;
  }

  /** Revoking a site returns exactly its devices, in strictly ascending order; afterwards they and the
      site are revoked, and everything else is as it was. */
  lemma RevokeSiteRevokesExactly(s: State, site: SiteId)
    ensures var (reply, after) := Step(s, RevokeSite(site));
      if site !in s.sites then reply == Err(UnknownSite(site)) && after == s
      else
        && reply.Ok? && reply.value.Revoked? && Ascending(BY_ID, reply.value.devices)
        && (forall id :: id in reply.value.devices <==> id in s.devices && s.devices[id].device.siteId == site)
        && after.sites.Keys == s.sites.Keys && after.devices.Keys == s.devices.Keys
        && (forall other | other in s.sites && other != site :: after.sites[other] == s.sites[other])
        && after.sites[site] == s.sites[site].(revoked := true)
        && (forall id | id in s.devices :: after.devices[id].device == s.devices[id].device
              && (after.devices[id].revoked <==> s.devices[id].revoked || id in reply.value.devices))
  {
    if site in s.sites {
      IdsAreOrdered();
      InOrderAscends(BY_ID, DevicesOf(s, site));
    }
  }

  /** Revoking a device revokes it, and that is all. */
  lemma RevokeDeviceRevokesExactly(s: State, id: DeviceId)
    ensures var (reply, after) := Step(s, RevokeDevice(id));
      if id !in s.devices then reply == Err(UnknownDevice(id)) && after == s
      else
        && reply == Ok(Done) && after.sites == s.sites && after.devices.Keys == s.devices.Keys
        && after.devices[id].revoked && after.devices[id].device == s.devices[id].device
        && forall other | other in s.devices && other != id :: after.devices[other] == s.devices[other]
  {
  }

  /** Removing a device returns what was there, after which it is gone, and nothing else changes. */
  lemma RemoveDeviceRemovesExactly(s: State, id: DeviceId)
    ensures var (reply, after) := Step(s, RemoveDevice(id));
      && reply.Ok? && reply.value.Removed? && after.sites == s.sites
      && (reply.value.entry.None? <==> id !in s.devices)
      && (reply.value.entry.Some? ==> reply.value.entry.value == s.devices[id])
      && (forall other :: other in after.devices <==> other in s.devices && other != id)
      && forall other | other in after.devices :: after.devices[other] == s.devices[other]
  {
  }

  /** Registering a device succeeds exactly when its site is there and no other record has its id; then it
      is there, unrevoked, with just that record, and nothing else has changed. */
  lemma RegisterDeviceRegistersExactly(s: State, device: DeviceRecord)
    ensures var (reply, after) := Step(s, RegisterDevice(device));
      var id := device.deviceId;
      && (reply.Ok? <==> device.siteId in s.sites && (id in s.devices ==> s.devices[id].device == device))
      && (device.siteId !in s.sites ==> reply == Err(UnknownSite(device.siteId)))
      && (device.siteId in s.sites && reply.Err? ==> reply == Err(DeviceConflict(id)))
      && (reply.Ok? ==>
            && reply == Ok(Done) && after.sites == s.sites && after.devices.Keys == s.devices.Keys + {id}
            && after.devices[id].device == device && !after.devices[id].revoked
            && forall other | other in s.devices && other != id :: after.devices[other] == s.devices[other])
  {
  }

  /** Renaming a device gives it the trimmed name and marks that as given by hand; its revocation, all else
      that is recorded of it, and everything else stay. */
  lemma RenameDeviceRenamesExactly(s: State, id: DeviceId, name: string)
    ensures var (reply, after) := Step(s, RenameDevice(id, name));
      var good := 1 <= Utf8Length(Trim(name)) <= 128;
      && (reply.Ok? <==> good && id in s.devices)
      && (!good ==> reply == Err(InvalidName)) && (good && id !in s.devices ==> reply == Err(UnknownDevice(id)))
      && (reply.Ok? ==>
            && reply.value.Renamed? && after.sites == s.sites && after.devices.Keys == s.devices.Keys
            && after.devices[id].device == reply.value.device && after.devices[id].revoked == s.devices[id].revoked
            && reply.value.device.displayName == Trim(name) && reply.value.device.nameOrigin == NameOrigin.Renamed
            && SameIdentity(reply.value.device, s.devices[id].device)
            && forall other | other in s.devices && other != id :: after.devices[other] == s.devices[other])
  {
    hide Trim, Utf8Length;
  }

  /** A read policy is good exactly when it names all of the filesystem or at most sixteen roots, none of
      them blank or over 2,048 bytes, and its limits are positive and at most 48 KiB and 30 seconds; what
      is wrong is reported in this order. */
  lemma ReadPolicyExactly(policy: ReadPolicy)
    ensures var r := policy.Validate();
      var scope := policy.allFilesystem ==> |policy.roots| == 0;
      var roots := forall i | 0 <= i < |policy.roots| :: 1 <= Utf8Length(Trim(policy.roots[i])) <= 2048;
      var bytes, ms := policy.maxResultBytes, policy.timeoutMs;
      && (r.Ok? <==> scope && |policy.roots| <= 16 && roots && 1 <= bytes <= 49_152 && 1 <= ms <= 30_000)
      && (r.Err? ==> match r.error
            case AmbiguousFilesystemScope => !scope
            case TooManyReadRoots(n) => scope && n == |policy.roots| > 16
            case InvalidReadRoot => scope && |policy.roots| <= 16 && !roots
            case InvalidReadResultLimit(n) =>
              scope && |policy.roots| <= 16 && roots && n == bytes && !(1 <= bytes <= 49_152)
            case InvalidReadTimeout(n) =>
              && scope && |policy.roots| <= 16 && roots && 1 <= bytes <= 49_152
              && n == ms && !(1 <= ms <= 30_000)
            case _ => false)
  {
    hide Trim, Utf8Length;
    assert (forall root | root in policy.roots :: 0 < Utf8Length(Trim(root)) <= 2048)
      <==> forall i | 0 <= i < |policy.roots| :: 1 <= Utf8Length(Trim(policy.roots[i])) <= 2048;
  }

  /** Upserting a site succeeds exactly when its name and policy are good and it does not rename a site; then
      it is there as given, and nothing else has changed. */
  lemma UpsertSiteUpsertsExactly(s: State, site: SiteRecord)
    ensures var (reply, after) := Step(s, UpsertSite(site));
      var named, id := 1 <= Utf8Length(Trim(site.siteName)) <= 128, site.siteId;
      && (reply.Ok? <==> && named && site.readPolicy.Validate().Ok?
                         && (id in s.sites ==> s.sites[id].siteName == site.siteName))
      && (!named ==> reply == Err(InvalidName))
      && (named && site.readPolicy.Validate().Err? ==> reply == Err(site.readPolicy.Validate().error))
      && (named && site.readPolicy.Validate().Ok? && reply.Err? ==> reply == Err(SiteConflict(id)))
      && (reply.Ok? ==>
            && reply == Ok(Done) && after.devices == s.devices && after.sites.Keys == s.sites.Keys + {id}
            && after.sites[id] == site
            && forall other | other in s.sites && other != id :: after.sites[other] == s.sites[other])
  {
    hide Trim, Utf8Length, ReadPolicy.Validate;
  }

  /** After a rename, registering a device under its id succeeds exactly with the renamed record; so
      enrolling the original record again is refused, unless the rename had changed nothing. */
  lemma RegisterAfterRename(s: State, id: DeviceId, name: string, device: DeviceRecord)
    requires Validates(s) && KeysAreIds(s) && id in s.devices && ValidateName(name).Ok?
    requires device.deviceId == id && device.siteId in s.sites
    ensures var renamed := Step(s, RenameDevice(id, name)).1;
            var reply := Step(renamed, RegisterDevice(device)).0;
      && (reply.Ok? <==> device == s.devices[id].device.(displayName := Trim(name), nameOrigin := NameOrigin.Renamed))
      && (reply.Err? ==> reply == Err(DeviceConflict(id)))
  {
    hide Trim, Utf8Length, IdsInOrder;
  }

  // ---------------------------------------------------------------- what the history says of a device

  ghost function Before(ops: seq<Operation>, i: nat): State
    requires i <= |ops|
  {
    Run(EMPTY, ops[..i])
  }

  /** Operation `i` registers the device, successfully. */
  ghost predicate Registers(ops: seq<Operation>, i: nat, id: DeviceId) {
    && i < |ops| && ops[i].RegisterDevice? && ops[i].device.deviceId == id
    && Step(Before(ops, i), ops[i]).0.Ok?
  }

  /** The device is there, and it or its site is revoked. */
  ghost predicate IsRevocation(s: State, op: Operation, id: DeviceId) {
    id in s.devices && (op == RevokeDevice(id) || op == RevokeSite(s.devices[id].device.siteId))
  }

  /** Operation `i` does that. */
  ghost predicate Revokes(ops: seq<Operation>, i: nat, id: DeviceId) {
    i < |ops| && IsRevocation(Before(ops, i), ops[i], id)
  }

  lemma BeforeInit(ops: seq<Operation>, i: nat)
    requires ops != [] && i < |ops|
    ensures Before(ops[..|ops| - 1], i) == Before(ops, i)
  {
    assert ops[..|ops| - 1][..i] == ops[..i];
  }

  lemma SameHistory(ops: seq<Operation>, i: nat, id: DeviceId)
    requires i < |ops| - 1
    ensures Registers(ops[..|ops| - 1], i, id) <==> Registers(ops, i, id)
    ensures Revokes(ops[..|ops| - 1], i, id) <==> Revokes(ops, i, id)
  {
    hide Step, Run;
    BeforeInit(ops, i);
  }

  lemma StepTells(s: State, op: Operation, id: DeviceId)
    requires Validates(s) && KeysAreIds(s)
    ensures var after := Step(s, op).1;
      var registers := op.RegisterDevice? && op.device.deviceId == id && Step(s, op).0.Ok?;
      && (id in after.devices <==> registers || (id in s.devices && op != RemoveDevice(id)))
      && (id in after.devices && registers ==> !after.devices[id].revoked)
      && (id in after.devices && !registers ==>
            (after.devices[id].revoked <==> IsRevocation(s, op, id) || s.devices[id].revoked))
  {
    hide ValidateName, ReadPolicy.Validate, IdsInOrder, SiteRecord.Validate;
    match op {
      case UpsertSite(_) =>
      case RegisterDevice(_) =>
      case RenameDevice(_, _) =>
      case RevokeDevice(_) =>
      case RemoveDevice(_) =>
      case RevokeSite(_) =>
    }
  }

  /** The last operation of a run, as to one device: whether it is there, and revoked. */
  lemma LastTells(ops: seq<Operation>, id: DeviceId)
    requires ops != []
    ensures var n := |ops| - 1;
      var before, after := Before(ops, n), Run(EMPTY, ops);
      && (id in after.devices <==> Registers(ops, n, id) || (id in before.devices && ops[n] != RemoveDevice(id)))
      && (id in after.devices ==>
            (after.devices[id].revoked <==>
               && !Registers(ops, n, id)
               && (Revokes(ops, n, id) || before.devices[id].revoked)))
  {
    hide Step, Validates, KeysAreIds, IsRevocation;
    var n := |ops| - 1;
    RunsStayValid(ops[..n]);
    StepTells(Before(ops, n), ops[n], id);
    assert Run(EMPTY, ops) == Step(Before(ops, n), ops[n]).1;
  }

  /** A device is there exactly when it was registered and not removed since. */
  lemma {:induction false} ThereByHistory(ops: seq<Operation>, id: DeviceId)
    ensures id in Run(EMPTY, ops).devices <==>
      exists i :: 0 <= i < |ops| && Registers(ops, i, id) && forall j | i < j < |ops| :: ops[j] != RemoveDevice(id)
  {
    hide Registers, Step;
    if ops != [] {
      var n := |ops| - 1;
      var init := ops[..n];
      ThereByHistory(init, id);
      LastTells(ops, id);
      forall i | 0 <= i < n
        ensures Registers(init, i, id) <==> Registers(ops, i, id)
      {
        SameHistory(ops, i, id);
      }
      if i :| 0 <= i < n && Registers(init, i, id) && forall j | i < j < n :: init[j] != RemoveDevice(id) {
        if ops[n] != RemoveDevice(id) {
          assert Registers(ops, i, id) && forall j | i < j < |ops| :: ops[j] != RemoveDevice(id);
        }
      }
      if i :| 0 <= i < |ops| && Registers(ops, i, id) && forall j | i < j < |ops| :: ops[j] != RemoveDevice(id) {
        if i < n {
          assert Registers(init, i, id) && forall j | i < j < n :: init[j] != RemoveDevice(id);
        }
      }
    }
  }

  /** A device is revoked exactly when it, or its site, was revoked after it was registered last. */
  lemma {:induction false} RevokedByHistory(ops: seq<Operation>, id: DeviceId)
    requires id in Run(EMPTY, ops).devices
    ensures Run(EMPTY, ops).devices[id].revoked <==>
      exists i :: 0 <= i < |ops| && Revokes(ops, i, id) && forall j | i < j < |ops| :: !Registers(ops, j, id)
  {
    hide Registers, Revokes, Step;
    if ops != [] {
      var n := |ops| - 1;
      var init := ops[..n];
      LastTells(ops, id);
      forall i | 0 <= i < n
        ensures Registers(init, i, id) <==> Registers(ops, i, id)
        ensures Revokes(init, i, id) <==> Revokes(ops, i, id)
      {
        SameHistory(ops, i, id);
      }
      if !Registers(ops, n, id) {
        RevokedByHistory(init, id);
        if i :| 0 <= i < n && Revokes(init, i, id) && forall j | i < j < n :: !Registers(init, j, id) {
          assert Revokes(ops, i, id) && forall j | i < j < |ops| :: !Registers(ops, j, id);
        }
        if i :| 0 <= i < |ops| && Revokes(ops, i, id) && forall j | i < j < |ops| :: !Registers(ops, j, id) {
          if i < n {
            assert Revokes(init, i, id) && forall j | i < j < n :: !Registers(init, j, id);
          }
        }
      } else {
        RegistersIsNoRevocation(ops, n, id);
      }
    }
  }

  lemma RegistersIsNoRevocation(ops: seq<Operation>, i: nat, id: DeviceId)
    requires Registers(ops, i, id)
    ensures !Revokes(ops, i, id)
  {
    hide Step;
  }

  /** A failed operation changes nothing. */
  lemma FailuresChangeNothing(s: State, op: Operation)
    ensures Step(s, op).0.Err? ==> Step(s, op).1 == s
  {
    hide ValidateName, ReadPolicy.Validate, IdsInOrder, SiteRecord.Validate;
  }
}
