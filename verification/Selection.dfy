/** How a caller names the device that is to execute: nothing, an id, `Site/Name`, or a bare name. */
module Selection {
  import opened Wrappers
  import opened Text
  import opened Device
  import opened Tags
  import opened Naming
  import opened NamingTheorems

  datatype SelectionError =
    | NoOnlineExecutableDevice
    | Ambiguous(candidates: seq<string>)
    | NotFound(selector: string)
    | NotExecutable(id: DeviceId)
    | Offline(id: DeviceId)

  /** The UUID parser of the id type. */
  type IdParser = string -> Option<DeviceId>

  predicate OnlineExecutable(d: DeviceSummary) {
    d.online && d.executable
  }

  function Filter(devices: seq<DeviceSummary>, keep: DeviceSummary -> bool): (r: seq<DeviceSummary>)
    ensures forall d :: d in r <==> d in devices && keep(d)
  {
    if devices == [] then []
    else (if keep(devices[0]) then [devices[0]] else []) + Filter(devices[1..], keep)
  }

  function Candidate(d: DeviceSummary): string {
    d.siteName + "/" + d.displayName + " [" + IdText(d.deviceId) + "]"
  }

  function Candidates(devices: seq<DeviceSummary>): seq<string> {
    seq(|devices|, i requires 0 <= i < |devices| => Candidate(devices[i]))
  }

  function UniqueMatch(selector: string, matches: seq<DeviceSummary>): Result<DeviceId, SelectionError> {
    if |matches| == 1 then Ok(matches[0].deviceId)
    else if matches == [] then Err(NotFound(selector))
    else Err(Ambiguous(Candidates(matches)))
  }

  function FindById(devices: seq<DeviceSummary>, id: DeviceId): (r: Option<DeviceSummary>)
    ensures r.Some? ==> r.value in devices && r.value.deviceId == id
    ensures r.None? ==> forall d | d in devices :: d.deviceId != id
  {
    if devices == [] then None
    else if devices[0].deviceId == id then Some(devices[0])
    else FindById(devices[1..], id)
  }

  function HasSiteAndName(site: string, name: string): DeviceSummary -> bool {
    (d: DeviceSummary) => d.siteName == site && d.displayName == name
  }

  function HasName(name: string): DeviceSummary -> bool {
    (d: DeviceSummary) => d.displayName == name
  }

  function SelectExecutableDevice(parse: IdParser, devices: seq<DeviceSummary>, selector: Option<string>)
    : Result<DeviceId, SelectionError>
  {
    var ready := Filter(devices, OnlineExecutable);
    var text := if selector.Some? then Trim(selector.value) else "";
    if text == "" then
      if |ready| == 1 then Ok(ready[0].deviceId)
      else if ready == [] then Err(NoOnlineExecutableDevice)
      else Err(Ambiguous(Candidates(ready)))
    else match parse(text)
      case Some(id) =>
        (match FindById(devices, id)
         case None => Err(NotFound(text))
         case Some(d) =>
           if !d.executable then Err(NotExecutable(id)) else if !d.online then Err(Offline(id)) else Ok(id))
      case None =>
        match SplitOnce(text, '/')
        case Some((site, name)) => UniqueMatch(text, Filter(ready, HasSiteAndName(site, name)))
        case None => UniqueMatch(text, Filter(ready, HasName(text)))
  }

  lemma {:induction false} FilterTwice(devices: seq<DeviceSummary>, a: DeviceSummary -> bool, b: DeviceSummary -> bool,
                                       both: DeviceSummary -> bool)
    requires forall d :: both(d) <==> a(d) && b(d)
    ensures Filter(Filter(devices, a), b) == Filter(devices, both)
  {
    if devices != [] {
      FilterTwice(devices[1..], a, b, both);
      var rest := Filter(devices[1..], a);
      if a(devices[0]) {
        assert ([devices[0]] + rest)[1..] == rest;
      } else {
        assert Filter(devices, a) == rest;
      }
    }
  }

  // ---------------------------------------------------------------- what each selector means

  /** Device `i` is the only one of its kind. */
  ghost predicate IsOnly(devices: seq<DeviceSummary>, kind: DeviceSummary -> bool, i: nat) {
    i < |devices| && kind(devices[i]) && forall j | 0 <= j < |devices| && j != i :: !kind(devices[j])
  }

  /** The places are in order, and are those of all devices of the kind. */
  ghost predicate ArePlaces(devices: seq<DeviceSummary>, kind: DeviceSummary -> bool, places: seq<nat>) {
    && (forall k | 0 <= k < |places| :: places[k] < |devices| && kind(devices[places[k]]))
    && (forall k, l | 0 <= k < l < |places| :: places[k] < places[l])
    && (forall i: nat | i < |devices| && kind(devices[i]) :: i in places)
  }

  /** Each is the site, the name and the id of the device at that place. */
  ghost predicate Describe(candidates: seq<string>, devices: seq<DeviceSummary>, places: seq<nat>) {
    && |candidates| == |places|
    && forall k | 0 <= k < |places| && places[k] < |devices| ::
         var d := devices[places[k]];
         candidates[k] == d.siteName + "/" + d.displayName + " [" + IdText(d.deviceId) + "]"
  }

  /** The answer is the only device of a kind; or that there is none; or, in order, all that there are. */
  ghost predicate IsChoiceOf(devices: seq<DeviceSummary>, kind: DeviceSummary -> bool, none: SelectionError,
                             r: Result<DeviceId, SelectionError>)
  {
    match r
    case Ok(id) => exists i: nat :: IsOnly(devices, kind, i) && devices[i].deviceId == id
    case Err(Ambiguous(candidates)) =>
      |candidates| >= 2 && exists places :: ArePlaces(devices, kind, places) && Describe(candidates, devices, places)
    case Err(error) => error == none && forall i | 0 <= i < |devices| :: !kind(devices[i])
  }

  /** Filtering keeps the devices at those places. */
  lemma {:induction false} FilterPlaces(devices: seq<DeviceSummary>, kind: DeviceSummary -> bool)
    returns (places: seq<nat>)
    ensures ArePlaces(devices, kind, places) && |places| == |Filter(devices, kind)|
    ensures forall k | 0 <= k < |places| :: Filter(devices, kind)[k] == devices[places[k]]
  {
    hide Filter, ArePlaces;
    if devices == [] {
      places := [];
      NothingFiltered(kind);
    } else {
      var n := |devices| - 1;
      var before := FilterPlaces(devices[..n], kind);
      FilterLast(devices, kind);
      places := before + if kind(devices[n]) then [n] else [];
      MorePlaces(devices, kind, before);
      PlacesInRange(devices[..n], kind, before);
    }
  }

  lemma NothingFiltered(kind: DeviceSummary -> bool)
    ensures ArePlaces([], kind, []) && Filter([], kind) == []
  {
  }

  lemma PlacesInRange(devices: seq<DeviceSummary>, kind: DeviceSummary -> bool, places: seq<nat>)
    requires ArePlaces(devices, kind, places)
    ensures forall k | 0 <= k < |places| :: places[k] < |devices|
  {
  }

  lemma MorePlaces(devices: seq<DeviceSummary>, kind: DeviceSummary -> bool, before: seq<nat>)
    requires devices != [] && ArePlaces(devices[..|devices| - 1], kind, before)
    ensures var n := |devices| - 1;
            ArePlaces(devices, kind, before + if kind(devices[n]) then [n] else [])
  {
    var n := |devices| - 1;
    var places := before + if kind(devices[n]) then [n] else [];
    forall i: nat | i < |devices| && kind(devices[i])
      ensures i in places
    {
      if i < n {
        assert devices[..n][i] == devices[i];
        assert i in before;
      } else {
        assert places[|before|] == n;
      }
    }
  }

  lemma {:induction false} FilterLast(devices: seq<DeviceSummary>, kind: DeviceSummary -> bool)
    requires devices != []
    ensures var n := |devices| - 1;
            Filter(devices, kind) == Filter(devices[..n], kind) + if kind(devices[n]) then [devices[n]] else []
  {
    hide Filter;
    var n := |devices| - 1;
    FilterFirst(devices, kind);
    if n > 0 {
      FilterLast(devices[1..], kind);
      FilterFirst(devices[..n], kind);
      assert devices[1..][..n - 1] == devices[..n][1..];
    } else {
      NothingFiltered(kind);
      assert devices[1..] == [] && devices[..n] == [];
    }
  }

  lemma FilterFirst(devices: seq<DeviceSummary>, kind: DeviceSummary -> bool)
    requires devices != []
    ensures Filter(devices, kind) == (if kind(devices[0]) then [devices[0]] else []) + Filter(devices[1..], kind)
  {
  }

  /** What is made of the devices that a filter keeps. */
  lemma FilteredChoice(devices: seq<DeviceSummary>, kind: DeviceSummary -> bool, none: SelectionError,
                       r: Result<DeviceId, SelectionError>)
    requires !none.Ambiguous?
    requires var kept := Filter(devices, kind);
      r == if |kept| == 1 then Ok(kept[0].deviceId)
           else if kept == [] then Err(none) else Err(Ambiguous(Candidates(kept)))
    ensures IsChoiceOf(devices, kind, none, r)
  {
    hide Filter;
    var kept := Filter(devices, kind);
    var places := FilterPlaces(devices, kind);
    if |kept| == 1 {
      forall j | 0 <= j < |devices| && j != places[0]
        ensures !kind(devices[j])
      {
        assert j !in places;
      }
      assert IsOnly(devices, kind, places[0]);
    } else if kept == [] {
      assert forall i: nat :: i !in places;
    } else {
      assert Describe(Candidates(kept), devices, places);
    }
  }

  function SelectorText(selector: Option<string>): string {
    if selector.Some? then Trim(selector.value) else ""
  }

  /** Without a selector, or with a blank one, the choice is among all that are online and executable. */
  lemma NoSelectorExactly(parse: IdParser, devices: seq<DeviceSummary>, selector: Option<string>)
    requires SelectorText(selector) == ""
    ensures IsChoiceOf(devices, (d: DeviceSummary) => d.online && d.executable, NoOnlineExecutableDevice,
                       SelectExecutableDevice(parse, devices, selector))
  {
    hide Filter, Trim, Candidates, IsChoiceOf;
    var ready := (d: DeviceSummary) => d.online && d.executable;
    SameFilter(devices, OnlineExecutable, ready);
    FilteredChoice(devices, ready, NoOnlineExecutableDevice, SelectExecutableDevice(parse, devices, selector));
  }

  lemma {:induction false} SameFilter(devices: seq<DeviceSummary>, a: DeviceSummary -> bool, b: DeviceSummary -> bool)
    requires forall d :: a(d) <==> b(d)
    ensures Filter(devices, a) == Filter(devices, b)
  {
    if devices != [] {
      SameFilter(devices[1..], a, b);
    }
  }

  ghost predicate IsFirstWithId(devices: seq<DeviceSummary>, id: DeviceId, i: nat) {
    i < |devices| && devices[i].deviceId == id && forall j | 0 <= j < i :: devices[j].deviceId != id
  }

  /** An id selects the first device that has it, if that is executable and online, and otherwise says what
      is missing. */
  lemma IdSelectsExactly(parse: IdParser, devices: seq<DeviceSummary>, selector: Option<string>, id: DeviceId)
    requires SelectorText(selector) != "" && parse(SelectorText(selector)) == Some(id)
    ensures var r := SelectExecutableDevice(parse, devices, selector);
      && (forall i: nat | IsFirstWithId(devices, id, i) ::
            r == (if !devices[i].executable then Err(NotExecutable(id))
                  else if !devices[i].online then Err(Offline(id)) else Ok(id)))
      && ((forall j | 0 <= j < |devices| :: devices[j].deviceId != id) ==> r == Err(NotFound(SelectorText(selector))))
  {
    hide Trim, Filter;
    var found := FindsFirst(devices, id);
    forall i: nat | IsFirstWithId(devices, id, i)
      ensures found == Some(i)
    {
      if found.Some? {
        OnlyOneFirst(devices, id, i, found.value);
      }
    }
  }

  lemma OnlyOneFirst(devices: seq<DeviceSummary>, id: DeviceId, i: nat, j: nat)
    requires IsFirstWithId(devices, id, i) && IsFirstWithId(devices, id, j)
    ensures i == j
  {
  }

  lemma {:induction false} FindsFirst(devices: seq<DeviceSummary>, id: DeviceId) returns (at: Option<nat>)
    ensures at.Some? <==> FindById(devices, id).Some?
    ensures at.Some? ==>
      IsFirstWithId(devices, id, at.value) && FindById(devices, id) == Some(devices[at.value])
    ensures at.None? ==> forall j | 0 <= j < |devices| :: devices[j].deviceId != id
  {
    if devices == [] {
      at := None;
    } else if devices[0].deviceId == id {
      at := Some(0);
    } else {
      at := FindsFirst(devices[1..], id);
      if at.Some? {
        at := Some(at.value + 1);
      }
    }
  }

  /** A site, a slash and a name choose among the devices of that site and name that are online and
      executable. */
  lemma QualifiedExactly(parse: IdParser, devices: seq<DeviceSummary>, selector: Option<string>,
                         site: string, name: string)
    requires SelectorText(selector) == site + "/" + name && '/' !in site && parse(site + "/" + name).None?
    ensures IsChoiceOf(devices, (d: DeviceSummary) => d.online && d.executable && d.siteName == site
                                                      && d.displayName == name,
                       NotFound(site + "/" + name), SelectExecutableDevice(parse, devices, selector))
  {
    hide Filter, Trim, Candidates, IsChoiceOf;
    var text := site + "/" + name;
    assert text[..|site|] == site && text[|site| + 1..] == name && text[|site|] == '/';
    IndexOfIsFirst(text, '/', |site|);
    var kind := (d: DeviceSummary) => d.online && d.executable && d.siteName == site && d.displayName == name;
    FilterTwice(devices, OnlineExecutable, HasSiteAndName(site, name), kind);
    FilteredChoice(devices, kind, NotFound(text), SelectExecutableDevice(parse, devices, selector));
  }

  /** Any other text chooses among the devices of that name that are online and executable. */
  lemma BareNameExactly(parse: IdParser, devices: seq<DeviceSummary>, selector: Option<string>)
    requires var text := SelectorText(selector); text != "" && '/' !in text && parse(text).None?
    ensures var text := SelectorText(selector);
      IsChoiceOf(devices, (d: DeviceSummary) => d.online && d.executable && d.displayName == text,
                 NotFound(text), SelectExecutableDevice(parse, devices, selector))
  {
    hide Filter, Trim, Candidates, IsChoiceOf;
    var text := SelectorText(selector);
    assert IndexOf(text, '/') == |text|;
    var kind := (d: DeviceSummary) => d.online && d.executable && d.displayName == text;
    FilterTwice(devices, OnlineExecutable, HasName(text), kind);
    FilteredChoice(devices, kind, NotFound(text), SelectExecutableDevice(parse, devices, selector));
  }

  /** Whatever the selector, a selected device is one of the list and is online and executable. */
  lemma SelectedIsReady(parse: IdParser, devices: seq<DeviceSummary>, selector: Option<string>)
    requires SelectExecutableDevice(parse, devices, selector).Ok?
    ensures exists d :: d in devices && OnlineExecutable(d)
                        && d.deviceId == SelectExecutableDevice(parse, devices, selector).value
  {
    hide Trim, Candidates;
    var ready := Filter(devices, OnlineExecutable);
    var text := if selector.Some? then Trim(selector.value) else "";
    if text == "" {
      assert ready[0] in ready;
    } else if parse(text).Some? {
      var d := FindById(devices, parse(text).value).value;
      assert OnlineExecutable(d);
    } else {
      var split := SplitOnce(text, '/');
      var matches :=
        if split.Some? then Filter(ready, HasSiteAndName(split.value.0, split.value.1))
        else Filter(ready, HasName(text));
      assert UniqueMatch(text, matches) == SelectExecutableDevice(parse, devices, selector);
      assert matches[0] in matches && matches[0] in ready;
    }
  }

  lemma {:induction false} FilterUnique(devices: seq<DeviceSummary>, keep: DeviceSummary -> bool, i: nat)
    requires i < |devices| && keep(devices[i])
    requires forall j | 0 <= j < |devices| && j != i :: !keep(devices[j])
    ensures Filter(devices, keep) == [devices[i]]
  {
    if i == 0 {
      FilterNone(devices[1..], keep);
    } else {
      FilterUnique(devices[1..], keep, i - 1);
    }
  }

  lemma {:induction false} FilterNone(devices: seq<DeviceSummary>, keep: DeviceSummary -> bool)
    requires forall j | 0 <= j < |devices| :: !keep(devices[j])
    ensures Filter(devices, keep) == []
  {
    if devices != [] {
      FilterNone(devices[1..], keep);
    }
  }

  predicate CleanSite(site: string) {
    '/' !in site && (site == "" || !IsWhitespace(site[0]))
  }

  lemma QualifiedText(site: string, name: string)
    requires CleanSite(site) && name != "" && !IsWhitespace(name[|name| - 1])
    ensures Trim(site + "/" + name) == site + "/" + name
    ensures SplitOnce(site + "/" + name, '/') == Some((site, name))
  {
    var text := site + "/" + name;
    assert !IsWhitespace('/');
    TrimUnchanged(text);
    assert text[..|site|] == site && text[|site| + 1..] == name;
    IndexOfIsFirst(text, '/', |site|);
  }

  /** `Site/Name` selects a device exactly when it is the only ready one with that site and name. */
  lemma QualifiedSelects(parse: IdParser, devices: seq<DeviceSummary>, site: string, name: string, i: nat)
    requires parse(site + "/" + name).None?
    requires CleanSite(site) && name != "" && !IsWhitespace(name[|name| - 1])
    requires i < |devices| && OnlineExecutable(devices[i])
    requires devices[i].siteName == site && devices[i].displayName == name
    requires forall j | 0 <= j < |devices| && j != i ::
               !(OnlineExecutable(devices[j]) && devices[j].siteName == site && devices[j].displayName == name)
    ensures SelectExecutableDevice(parse, devices, Some(site + "/" + name)) == Ok(devices[i].deviceId)
  {
    hide Trim, SplitOnce, Filter;
    QualifiedText(site, name);
    var both := (d: DeviceSummary) => OnlineExecutable(d) && d.siteName == site && d.displayName == name;
    FilterTwice(devices, OnlineExecutable, HasSiteAndName(site, name), both);
    FilterUnique(devices, both, i);
  }

  function Summaries(rs: Records, site: string, online: seq<bool>): (ds: seq<DeviceSummary>)
    requires |online| == |rs|
    ensures |ds| == |rs| && forall i | 0 <= i < |rs| :: ds[i] == SummaryOf(rs[i], site, online[i])
  {
    seq(|rs|, i requires 0 <= i < |rs| => SummaryOf(rs[i], site, online[i]))
  }

  /** After a successful run of the collision policy, `Site/Name` selects exactly the tagged device
      of that name, if it is online and executable and no renamed or untagged record shares its
      name. */
  lemma TaggedNameSelects(digest: Digest, parse: IdParser, rs: Records, site: string, online: seq<bool>, i: nat)
    requires Policy(digest, rs).error.None? && |online| == |rs| && i < |rs| && CleanSite(site)
    requires forall s | '/' in s :: parse(s).None?
    requires var out := Policy(digest, rs).records;
             && IsTagged(out[i]) && out[i].execute && online[i]
             && forall j | 0 <= j < |out| && !IsTagged(out[j]) :: out[j].displayName != out[i].displayName
    ensures var out := Policy(digest, rs).records;
            SelectExecutableDevice(parse, Summaries(out, site, online), Some(site + "/" + out[i].displayName))
            == Ok(out[i].deviceId)
  {
    hide Policy, SelectExecutableDevice, Base32, IsTagChar;
    var out := Policy(digest, rs).records;
    var name := out[i].displayName;
    PolicySettles(digest, rs);
    assert OneSettled(digest, out[i]);
    var tag := CurrentTag(digest, out[i]);
    assert name[|name| - 1] == tag[4];
    TagCharIsPlain(tag[4]);
    assert '/' in site + "/" + name by { assert (site + "/" + name)[|site|] == '/'; }
    forall j | 0 <= j < |out| && j != i
      ensures out[j].displayName != name
    {
      if IsTagged(out[j]) {
        TaggedNamesDistinct(digest, rs, i, j);
      }
    }
    QualifiedSelects(parse, Summaries(out, site, online), site, name, i);
  }
}
