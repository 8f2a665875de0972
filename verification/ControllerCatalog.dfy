/** The catalog object itself: its two maps, updated in place. */
module ControllerCatalog {
  import opened Wrappers
  import opened Text
  import opened Device
  import opened Catalog
  import opened Ordered

  /** The devices that are not left are revoked, if they are of the site. */
  ghost predicate RevokedSoFar(before: State, site: SiteId, devices: map<DeviceId, DeviceEntry>, left: set<DeviceId>) {
    && site in before.sites && devices.Keys == before.devices.Keys
    && forall id | id in devices ::
         devices[id] == if id in left then before.devices[id] else RevokedSite(before, site).devices[id]
  }

  /** They are listed in order, and are all below those left. */
  ghost predicate ListedSoFar(before: State, site: SiteId, left: set<DeviceId>, revoked: seq<DeviceId>) {
    && Ascending(BY_ID, revoked)
    && (forall id :: id in revoked <==> id in DevicesOf(before, site) && id !in left)
    && (forall a, b | a in revoked && b in left :: BY_ID(a, b))
  }

  lemma NothingRevoked(before: State, site: SiteId)
    requires site in before.sites
    ensures RevokedSoFar(before, site, before.devices, before.devices.Keys)
    ensures ListedSoFar(before, site, before.devices.Keys, [])
  {
  }

  lemma OneMoreDevice(before: State, site: SiteId, devices: map<DeviceId, DeviceEntry>, left: set<DeviceId>,
                      revoked: seq<DeviceId>, id: DeviceId)
    requires RevokedSoFar(before, site, devices, left) && ListedSoFar(before, site, left, revoked)
    requires left <= devices.Keys && IsLeast(BY_ID, left, id)
    ensures id in devices
    ensures var isOfSite := devices[id].device.siteId == site;
      && RevokedSoFar(before, site,
                      if isOfSite then devices[id := devices[id].(revoked := true)] else devices, left - {id})
      && ListedSoFar(before, site, left - {id}, if isOfSite then revoked + [id] else revoked)
  {
    hide BytesBelow;
  }

  lemma AllRevoked(before: State, site: SiteId, devices: map<DeviceId, DeviceEntry>, revoked: seq<DeviceId>)
    requires RevokedSoFar(before, site, devices, {}) && ListedSoFar(before, site, {}, revoked)
    ensures devices == RevokedSite(before, site).devices
    ensures revoked == IdsInOrder(DevicesOf(before, site))
    ensures RevokedSite(before, site).sites == before.sites[site := before.sites[site].(revoked := true)]
  {
    hide BytesBelow, InOrder, IsStrictOrder;
    IdsAreOrdered();
    InOrderAscends(BY_ID, DevicesOf(before, site));
    AscendingIsUnique(BY_ID, revoked, IdsInOrder(DevicesOf(before, site)));
  }

  class ControllerCatalog {
    var sites: map<SiteId, SiteRecord>
    var devices: map<DeviceId, DeviceEntry>

    ghost function View(): State
      reads this
    {
      State(sites, devices)
    }

    constructor ()
      ensures View() == EMPTY
    {
      sites, devices := map[], map[];
    }

    /** `validate`: the sites in order, then the devices in order. */
    method Validate() returns (r: Result<(), ControlModelError>)
      ensures r.Ok? <==> Validates(View())
      ensures r.Err? ==> IsFirstFault(View(), r.error)
    {
      hide SiteRecord.Validate, BytesBelow, IsStrictOrder;
      SitesAreOrdered();
      var left := sites.Keys;
      while left != {}
        invariant left <= sites.Keys
        invariant forall id | id in sites && id !in left :: sites[id].Validate().Ok?
      {
        LeastExists(BY_SITE, left);
        var id :| IsLeast(BY_SITE, left, id);
        var checked := sites[id].Validate();
        if checked.Err? {
          LeastIsFirst(BY_SITE, left, id);
          assert IsFirstBadSite(View(), id);
          return checked;
        }
        left := left - {id};
      }
      IdsAreOrdered();
      var rest := devices.Keys;
      while rest != {}
        invariant rest <= devices.Keys
        invariant forall id | id in devices && id !in rest :: devices[id].device.siteId in sites
      {
        LeastExists(BY_ID, rest);
        var id: DeviceId :| IsLeast(BY_ID, rest, id);
        if devices[id].device.siteId !in sites {
          LeastIsFirst(BY_ID, rest, id);
          assert IsFirstStray(View(), id);
          return Err(UnknownSite(devices[id].device.siteId));
        }
        rest := rest - {id};
      }
      r := Ok(());
    }

    method UpsertSite(site: SiteRecord) returns (r: Result<(), ControlModelError>)
      modifies this
      ensures var (reply, after) := Step(old(View()), Operation.UpsertSite(site));
              View() == after && r == if reply.Ok? then Ok(()) else Err(reply.error)
    {
      var checked := site.Validate();
      if checked.Err? {
        return checked;
      }
      if site.siteId in sites && sites[site.siteId].siteName != site.siteName {
        return Err(SiteConflict(site.siteId));
      }
      sites := sites[site.siteId := site];
      r := Ok(());
    }

    method RegisterDevice(device: DeviceRecord) returns (r: Result<(), ControlModelError>)
      modifies this
      ensures var (reply, after) := Step(old(View()), Operation.RegisterDevice(device));
              View() == after && r == if reply.Ok? then Ok(()) else Err(reply.error)
    {
      if device.siteId !in sites {
        return Err(UnknownSite(device.siteId));
      }
      if device.deviceId in devices && devices[device.deviceId].device != device {
        return Err(DeviceConflict(device.deviceId));
      }
      devices := devices[device.deviceId := DeviceEntry(device, false)];
      r := Ok(());
    }

    method RenameDevice(id: DeviceId, name: string) returns (r: Result<DeviceRecord, ControlModelError>)
      modifies this
      ensures var (reply, after) := Step(old(View()), Operation.RenameDevice(id, name));
              View() == after && r == if reply.Ok? then Ok(reply.value.device) else Err(reply.error)
    {
      var checked := ValidateName(name);
      if checked.Err? {
        return Err(checked.error);
      }
      if id !in devices {
        return Err(UnknownDevice(id));
      }
      var entry := devices[id];
      entry := entry.(device := entry.device.(displayName := checked.value));
      entry := entry.(device := entry.device.(nameOrigin := NameOrigin.Renamed));
      devices := devices[id := entry];
      r := Ok(entry.device);
    }

    method RevokeDevice(id: DeviceId) returns (r: Result<(), ControlModelError>)
      modifies this
      ensures var (reply, after) := Step(old(View()), Operation.RevokeDevice(id));
              View() == after && r == if reply.Ok? then Ok(()) else Err(reply.error)
    {
      if id !in devices {
        return Err(UnknownDevice(id));
      }
      devices := devices[id := devices[id].(revoked := true)];
      r := Ok(());
    }

    method RemoveDevice(id: DeviceId) returns (r: Option<DeviceEntry>)
      modifies this
      ensures Step(old(View()), Operation.RemoveDevice(id)) == (Ok(Removed(r)), View())
    {
      r := if id in devices then Some(devices[id]) else None;
      devices := devices - {id};
    }

    /** The devices are gone through in ascending order of their ids. */
    method RevokeSite(site: SiteId) returns (r: Result<seq<DeviceId>, ControlModelError>)
      modifies this
      ensures var (reply, after) := Step(old(View()), Operation.RevokeSite(site));
              View() == after && r == if reply.Ok? then Ok(reply.value.devices) else Err(reply.error)
    {
      if site !in sites {
        return Err(UnknownSite(site));
      }
      hide RevokedSoFar, ListedSoFar, IdsInOrder, BytesBelow, RevokedSite, IsStrictOrder;
      IdsAreOrdered();
      ghost var before := View();
      sites := sites[site := sites[site].(revoked := true)];
      var revoked: seq<DeviceId> := [];
      var left := devices.Keys;
      NothingRevoked(before, site);
      while left != {}
        invariant left <= devices.Keys && sites == before.sites[site := before.sites[site].(revoked := true)]
        invariant RevokedSoFar(before, site, devices, left)
        invariant ListedSoFar(before, site, left, revoked)
      {
        LeastExists(BY_ID, left);
        var id: DeviceId :| IsLeast(BY_ID, left, id);
        OneMoreDevice(before, site, devices, left, revoked, id);
        if devices[id].device.siteId == site {
          devices := devices[id := devices[id].(revoked := true)];
          revoked := revoked + [id];
        }
        left := left - {id};
      }
      AllRevoked(before, site, devices, revoked);
      r := Ok(revoked);
    }
  }
}
