/** What the collision policy promises: it is stable, it does not depend on the order of the
    records, and the names it gives out are distinct. */
module NamingTheorems {
  import opened Wrappers
  import opened Text
  import opened Device
  import opened Tags
  import opened Naming

  // ---------------------------------------------------------------- one group, settled

  /** The state that a pass over one group leaves: at most one member, or all tagged, with distinct
      tags, and every tagged name made of its base and its tag. */
  ghost predicate GroupSettled(digest: Digest, g: Records)
    requires AllAutomatic(g)
  {
    && (forall i, j | 0 <= i < j < |g| :: PairSettled(digest, g[i], g[j]))
    && (forall i | 0 <= i < |g| :: OneSettled(digest, g[i]))
  }

  ghost predicate PairSettled(digest: Digest, a: DeviceRecord, b: DeviceRecord)
    requires a.nameOrigin.Automatic? && b.nameOrigin.Automatic?
  {
    IsTagged(a) && IsTagged(b) && CurrentTag(digest, a) != CurrentTag(digest, b)
  }

  ghost predicate OneSettled(digest: Digest, r: DeviceRecord)
    requires r.nameOrigin.Automatic?
  {
    IsTagged(r) ==> NamedByTag(digest, r)
  }

  predicate NamedByTag(digest: Digest, r: DeviceRecord)
    requires r.nameOrigin.Automatic?
  {
    r.displayName == TaggedName(r.nameOrigin.baseHostname, CurrentTag(digest, r))
  }

  /** A record keeps its device and its hostname. */
  predicate SameDevice(a: DeviceRecord, b: DeviceRecord) {
    a.deviceId == b.deviceId && KeyOf(a) == KeyOf(b)
  }

  predicate SameDevices(a: Records, b: Records) {
    |a| == |b| && forall i | 0 <= i < |a| :: SameDevice(a[i], b[i])
  }

  lemma AssignOneTag(digest: Digest, r: DeviceRecord, occupied: set<DeviceTag>)
    requires r.nameOrigin.Automatic? && AssignOne(digest, r, occupied).Ok?
    ensures var a := AssignOne(digest, r, occupied).value;
            && a.tag !in occupied && a.tag == Derive(digest, r.deviceId, a.generation)
            && IsTagged(WithTag(r, a)) && CurrentTag(digest, WithTag(r, a)) == a.tag
            && NamedByTag(digest, WithTag(r, a)) && SameDevice(WithTag(r, a), r)
  {
    hide Probe, Derive;
    if !(r.nameOrigin.tagged && CurrentTag(digest, r) !in occupied) {
      ProbeExact(digest, r.deviceId,
                 if r.nameOrigin.tagged then SaturatingNext(r.nameOrigin.tagGeneration) else r.nameOrigin.tagGeneration,
                 occupied, 0);
    }
  }

  lemma AssignAllHead(digest: Digest, rs: Records, occupied: set<DeviceTag>)
    requires AllAutomatic(rs) && rs != [] && AssignOne(digest, rs[0], occupied).Ok?
    ensures var a := AssignOne(digest, rs[0], occupied).value;
            && AllAutomatic(rs[1..])
            && var p, rest := AssignAll(digest, rs, occupied), AssignAll(digest, rs[1..], occupied + {a.tag});
               && p.records[0] == WithTag(rs[0], a) && p.records[1..] == rest.records && p.error == rest.error
  {
    hide AssignOne;
  }

  lemma {:induction false} AssignAllDevices(digest: Digest, rs: Records, occupied: set<DeviceTag>)
    requires AllAutomatic(rs)
    ensures SameDevices(AssignAll(digest, rs, occupied).records, rs)
    ensures AllAutomatic(AssignAll(digest, rs, occupied).records)
  {
    hide AssignOne;
    if rs != [] && AssignOne(digest, rs[0], occupied).Ok? {
      var a := AssignOne(digest, rs[0], occupied).value;
      AssignAllDevices(digest, rs[1..], occupied + {a.tag});
      AssignOneTag(digest, rs[0], occupied);
    }
  }

  ghost predicate TagsAvoid(digest: Digest, rs: Records, occupied: set<DeviceTag>)
    requires AllAutomatic(rs)
  {
    forall i | 0 <= i < |rs| :: IsTagged(rs[i]) && NamedByTag(digest, rs[i]) && CurrentTag(digest, rs[i]) !in occupied
  }

  lemma TagsAvoidCons(digest: Digest, rs: Records, occupied: set<DeviceTag>, tag: DeviceTag)
    requires rs != [] && AllAutomatic(rs) && AllAutomatic(rs[1..])
    requires IsTagged(rs[0]) && NamedByTag(digest, rs[0]) && CurrentTag(digest, rs[0]) == tag && tag !in occupied
    requires TagsAvoid(digest, rs[1..], occupied + {tag}) && GroupSettled(digest, rs[1..])
    ensures TagsAvoid(digest, rs, occupied) && GroupSettled(digest, rs)
  {
    hide Base32, IsTagChar;
    forall i | 0 <= i < |rs|
      ensures IsTagged(rs[i]) && NamedByTag(digest, rs[i]) && CurrentTag(digest, rs[i]) !in occupied
      ensures i > 0 ==> CurrentTag(digest, rs[i]) != tag
    {
      if i > 0 {
        assert rs[1..][i - 1] == rs[i];
      }
    }
    forall i, j | 0 <= i < j < |rs|
      ensures PairSettled(digest, rs[i], rs[j])
    {
      assert rs[1..][j - 1] == rs[j];
      if i > 0 {
        assert rs[1..][i - 1] == rs[i];
      }
    }
  }

  /** A pass gives every record a tag that no record in front of it has. */
  lemma {:induction false} AssignAllSettles(digest: Digest, rs: Records, occupied: set<DeviceTag>)
    requires AllAutomatic(rs) && AssignAll(digest, rs, occupied).error.None?
    ensures var out := AssignAll(digest, rs, occupied).records;
            AllAutomatic(out) && TagsAvoid(digest, out, occupied) && GroupSettled(digest, out)
  {
    hide AssignOne, AssignAll, TagsAvoid, GroupSettled, NamedByTag;
    AssignAllDevices(digest, rs, occupied);
    if rs == [] {
      assert TagsAvoid(digest, [], occupied) && GroupSettled(digest, []) by { NothingSettled(digest, occupied); }
    } else {
      AssignAllOk(digest, rs, occupied);
      AssignAllHead(digest, rs, occupied);
      var a := AssignOne(digest, rs[0], occupied).value;
      AssignAllDevices(digest, rs[1..], occupied + {a.tag});
      AssignAllSettles(digest, rs[1..], occupied + {a.tag});
      AssignOneTag(digest, rs[0], occupied);
      TagsAvoidCons(digest, AssignAll(digest, rs, occupied).records, occupied, a.tag);
    }
  }

  lemma NothingSettled(digest: Digest, occupied: set<DeviceTag>)
    ensures TagsAvoid(digest, [], occupied) && GroupSettled(digest, [])
  {
  }

  lemma AssignAllOk(digest: Digest, rs: Records, occupied: set<DeviceTag>)
    requires AllAutomatic(rs) && rs != [] && AssignAll(digest, rs, occupied).error.None?
    ensures AssignOne(digest, rs[0], occupied).Ok?
  {
    hide AssignOne;
  }

  /** A settled group whose tags are free is left as it is. */
  lemma {:induction false} AssignAllKeeps(digest: Digest, rs: Records, occupied: set<DeviceTag>)
    requires AllAutomatic(rs) && GroupSettled(digest, rs)
    requires forall i | 0 <= i < |rs| :: IsTagged(rs[i]) && CurrentTag(digest, rs[i]) !in occupied
    ensures AssignAll(digest, rs, occupied) == Pass(rs, None)
  {
    hide Probe, Derive, CurrentTag;
    if rs != [] {
      var current := CurrentTag(digest, rs[0]);
      forall i | 0 <= i < |rs[1..]|
        ensures CurrentTag(digest, rs[1..][i]) !in occupied + {current} && IsTagged(rs[1..][i])
      {
        assert rs[1..][i] == rs[i + 1];
      }
      assert GroupSettled(digest, rs[1..]) by {
        assert forall i | 0 <= i < |rs[1..]| :: rs[1..][i] == rs[i + 1];
      }
      AssignAllKeeps(digest, rs[1..], occupied + {current});
      assert WithTag(rs[0], Allocation(current, rs[0].nameOrigin.tagGeneration)) == rs[0];
    }
  }

  /** A group that is not touched has at most one member, and no tagged one. */
  lemma QuietSettled(digest: Digest, g: Records)
    requires AllAutomatic(g) && !Active(g)
    ensures GroupSettled(digest, g) && SameDevices(g, g)
  {
  }

  lemma GroupPassSettles(digest: Digest, g: Records)
    requires AllAutomatic(g)
    ensures var p := GroupPass(digest, g);
            && SameDevices(p.records, g) && AllAutomatic(p.records)
            && (p.error.None? ==> GroupSettled(digest, p.records))
  {
    hide AssignAll, GroupSettled;
    AssignAllDevices(digest, g, {});
    if Active(g) {
      if AssignAll(digest, g, {}).error.None? {
        AssignAllSettles(digest, g, {});
      }
    } else {
      QuietSettled(digest, g);
    }
  }

  lemma GroupPassKeeps(digest: Digest, g: Records)
    requires AllAutomatic(g) && GroupSettled(digest, g)
    ensures GroupPass(digest, g) == Pass(g, None)
  {
    hide AssignAll, CurrentTag;
    if Active(g) {
      if |g| >= 2 {
        AllTagged(digest, g);
      }
      AssignAllKeeps(digest, g, {});
    }
  }

  lemma AllTagged(digest: Digest, g: Records)
    requires AllAutomatic(g) && GroupSettled(digest, g) && |g| >= 2
    ensures forall i | 0 <= i < |g| :: IsTagged(g[i])
  {
    hide CurrentTag;
    forall i | 0 <= i < |g|
      ensures IsTagged(g[i])
    {
      var j := if i == 0 then 1 else 0;
      if i < j {
        assert PairSettled(digest, g[i], g[j]);
      } else {
        assert PairSettled(digest, g[j], g[i]);
      }
    }
  }

  // ---------------------------------------------------------------- one group inside a list

  lemma {:induction false} SameMembers(a: Records, b: Records, key: string, n: nat)
    requires SameDevices(a, b) && n <= |a|
    ensures Members(a, key, n) == Members(b, key, n)
  {
    if n > 0 {
      SameMembers(a, b, key, n - 1);
      assert SameDevice(a[n - 1], b[n - 1]);
    }
  }

  lemma {:induction false} SameInsert(a: Records, b: Records, sorted: seq<nat>, x: nat)
    requires SameDevices(a, b) && x < |a| && InRange(sorted, |a|)
    ensures InsertById(a, sorted, x) == InsertById(b, sorted, x)
  {
    if sorted != [] {
      assert SameDevice(a[x], b[x]);
      assert SameDevice(a[sorted[|sorted| - 1]], b[sorted[|sorted| - 1]]);
      SameInsert(a, b, sorted[..|sorted| - 1], x);
    }
  }

  lemma {:induction false} SameSort(a: Records, b: Records, m: seq<nat>)
    requires SameDevices(a, b) && InRange(m, |a|)
    ensures SortById(a, m) == SortById(b, m)
  {
    hide InsertById;
    if m != [] {
      SameSort(a, b, m[..|m| - 1]);
      SameInsert(a, b, SortById(a, m[..|m| - 1]), m[|m| - 1]);
    }
  }

  lemma SameOrder(a: Records, b: Records, key: string)
    requires SameDevices(a, b)
    ensures Order(a, key) == Order(b, key)
  {
    hide SortById, Members;
    SameMembers(a, b, key, |a|);
    SameSort(a, b, Members(a, key, |a|));
  }

  /** A group step rewrites its own group by the group pass and nothing else. */
  lemma GroupStepLocal(digest: Digest, rs: Records, key: string, other: string)
    ensures var after := GroupStep(digest, rs, key).records;
            && SameDevices(after, rs)
            && Group(after, other)
               == (if other == key then GroupPass(digest, Group(rs, key)).records else Group(rs, other))
            && forall i: nat | i < |rs| && KeyOf(rs[i]) != Some(key) :: after[i] == rs[i]
  {
    hide GroupPass, SortById, Members, Order, Scatter;
    var s, values := Order(rs, key), GroupPass(digest, Group(rs, key)).records;
    var after := GroupStep(digest, rs, key).records;
    OrderMembers(rs, key);
    OrderMembers(rs, other);
    ScatterAt(rs, s, values);
    GroupPassSettles(digest, Group(rs, key));
    assert SameDevices(after, rs) by {
      forall i: nat | i < |rs|
        ensures SameDevice(after[i], rs[i])
      {
        if i in s {
          var j :| 0 <= j < |s| && s[j] == i;
          assert SameDevice(values[j], Group(rs, key)[j]);
        }
      }
    }
    SameOrder(after, rs, other);
    OrderMembers(after, other);
    if other == key {
      assert Group(after, key) == values;
    } else {
      forall j | 0 <= j < |Order(rs, other)|
        ensures Group(after, other)[j] == Group(rs, other)[j]
      {
        assert Order(rs, other)[j] !in s;
      }
    }
  }

  // ---------------------------------------------------------------- all groups

  predicate DistinctKeys(keys: seq<string>) {
    forall i, j | 0 <= i < j < |keys| :: keys[i] != keys[j]
  }

  /** The groups are processed independently: the run succeeds exactly when each group does, and
      then each group is what its own pass makes of it. */
  lemma {:induction false} PolicyByGroup(digest: Digest, rs: Records, keys: seq<string>)
    requires DistinctKeys(keys)
    ensures var p := PolicyOver(digest, rs, keys);
            && SameDevices(p.records, rs)
            && (p.error.None? <==> forall k | k in keys :: GroupPass(digest, Group(rs, k)).error.None?)
            && (p.error.None? ==> forall k ::
                  Group(p.records, k) == if k in keys then GroupPass(digest, Group(rs, k)).records else Group(rs, k))
            && (p.error.None? ==> forall i: nat | i < |rs| && !(KeyOf(rs[i]).Some? && KeyOf(rs[i]).value in keys) ::
                  p.records[i] == rs[i])
  {
    hide GroupPass, Group, GroupStep;
    if keys != [] {
      var init, last := keys[..|keys| - 1], keys[|keys| - 1];
      assert keys == init + [last];
      PolicyByGroup(digest, rs, init);
      var before := PolicyOver(digest, rs, init);
      if before.error.None? {
        assert last !in init;
        assert Group(before.records, last) == Group(rs, last);
        GroupStepError(digest, before.records, last);
        var after := GroupStep(digest, before.records, last).records;
        forall k
          ensures Group(after, k) ==
            if k == last then GroupPass(digest, Group(before.records, last)).records else Group(before.records, k)
        {
          GroupStepLocal(digest, before.records, last, k);
        }
        GroupStepLocal(digest, before.records, last, last);
        forall i: nat | i < |rs|
          ensures SameDevice(after[i], rs[i])
        {
          assert SameDevice(after[i], before.records[i]) && SameDevice(before.records[i], rs[i]);
        }
      }
    }
  }

  lemma GroupStepError(digest: Digest, rs: Records, key: string)
    ensures GroupStep(digest, rs, key).error == GroupPass(digest, Group(rs, key)).error
  {
  }

  predicate StrictlyBelow(keys: seq<string>) {
    forall i, j | 0 <= i < j < |keys| :: Below(keys[i], keys[j])
  }

  lemma {:induction false} InsertKeySorted(keys: seq<string>, key: string)
    requires StrictlyBelow(keys)
    ensures StrictlyBelow(InsertKey(keys, key))
  {
    hide Below;
    if keys != [] && keys[0] != key {
      if Below(key, keys[0]) {
        forall i | 0 <= i < |keys|
          ensures Below(key, keys[i])
        {
          if i > 0 {
            BelowTransitive(key, keys[0], keys[i]);
          }
        }
      } else {
        BelowTotal(key, keys[0]);
        InsertKeySorted(keys[1..], key);
        var rest := InsertKey(keys[1..], key);
        forall i | 0 <= i < |rest|
          ensures Below(keys[0], rest[i])
        {
          assert rest[i] in keys[1..] || rest[i] == key;
          if rest[i] != key {
            var j :| 0 <= j < |keys[1..]| && keys[1..][j] == rest[i];
            assert keys[j + 1] == rest[i];
          }
        }
      }
    }
  }

  lemma {:induction false} KeysSorted(rs: Records, n: nat)
    requires n <= |rs|
    ensures StrictlyBelow(Keys(rs, n)) && DistinctKeys(Keys(rs, n))
  {
    hide InsertKey;
    if n > 0 {
      KeysSorted(rs, n - 1);
      if KeyOf(rs[n - 1]).Some? {
        InsertKeySorted(Keys(rs, n - 1), KeyOf(rs[n - 1]).value);
      }
    }
    forall i, j | 0 <= i < j < |Keys(rs, n)|
      ensures Keys(rs, n)[i] != Keys(rs, n)[j]
    {
      assert Below(Keys(rs, n)[i], Keys(rs, n)[j]);
      BelowIrreflexive(Keys(rs, n)[i]);
    }
  }

  lemma NoMembers(digest: Digest, rs: Records, key: string)
    requires key !in Keys(rs, |rs|)
    ensures Group(rs, key) == [] && GroupPass(digest, []) == Pass([], None)
  {
    hide Order, AssignAll;
    NoneInOrder(rs, key);
  }

  lemma NoneInOrder(rs: Records, key: string)
    requires key !in Keys(rs, |rs|)
    ensures Order(rs, key) == []
  {
    hide Order, KeyOf;
    OrderMembers(rs, key);
    assert forall i | 0 <= i < |rs| :: KeyOf(rs[i]) != Some(key);
  }

  /** The policy, group by group. */
  lemma PolicyExact(digest: Digest, rs: Records)
    ensures var p := Policy(digest, rs);
            && SameDevices(p.records, rs)
            && (p.error.None? <==> forall k :: GroupPass(digest, Group(rs, k)).error.None?)
            && (p.error.None? ==> forall k :: Group(p.records, k) == GroupPass(digest, Group(rs, k)).records)
            && (p.error.None? ==> forall i: nat | i < |rs| && rs[i].nameOrigin.Renamed? :: p.records[i] == rs[i])
  {
    hide GroupPass, Group, PolicyOver, Keys;
    var keys := Keys(rs, |rs|);
    KeysSorted(rs, |rs|);
    PolicyByGroup(digest, rs, keys);
    forall k | k !in keys
      ensures GroupPass(digest, Group(rs, k)) == Pass(Group(rs, k), None)
    {
      NoMembers(digest, rs, k);
    }
  }

  // ---------------------------------------------------------------- stability

  /** The whole list, settled: automatic records that share a hostname are all tagged with distinct
      tags, and every tagged name is made of its base and its tag. */
  ghost predicate Settled(digest: Digest, rs: Records) {
    && (forall i, j | 0 <= i < |rs| && 0 <= j < |rs| && i != j && KeyOf(rs[i]).Some? && KeyOf(rs[i]) == KeyOf(rs[j]) ::
          PairSettled(digest, rs[i], rs[j]))
    && (forall i | 0 <= i < |rs| && rs[i].nameOrigin.Automatic? :: OneSettled(digest, rs[i]))
  }

  lemma SelectSettled(digest: Digest, rs: Records, s: seq<nat>, key: string)
    requires Settled(digest, rs) && InRange(s, |rs|) && Distinct(s)
    requires forall j | 0 <= j < |s| :: KeyOf(rs[s[j]]) == Some(key)
    ensures AllAutomatic(Select(rs, s)) && GroupSettled(digest, Select(rs, s))
  {
    var g := Select(rs, s);
    forall i, j | 0 <= i < j < |g|
      ensures PairSettled(digest, g[i], g[j])
    {
      assert s[i] != s[j] && KeyOf(rs[s[i]]) == KeyOf(rs[s[j]]) == Some(key);
    }
    forall i | 0 <= i < |g|
      ensures OneSettled(digest, g[i])
    {
      assert OneSettled(digest, rs[s[i]]);
    }
  }

  lemma SettledGroup(digest: Digest, rs: Records, key: string)
    requires Settled(digest, rs)
    ensures GroupSettled(digest, Group(rs, key))
  {
    hide Settled, GroupSettled;
    OrderMembers(rs, key);
    SelectSettled(digest, rs, Order(rs, key), key);
  }

  /** Every record of a group sits at some place of its group. */
  lemma PlaceInGroup(rs: Records, i: nat) returns (j: nat)
    requires i < |rs| && KeyOf(rs[i]).Some?
    ensures j < |Group(rs, KeyOf(rs[i]).value)| && j < |Order(rs, KeyOf(rs[i]).value)|
    ensures Order(rs, KeyOf(rs[i]).value)[j] == i
    ensures Group(rs, KeyOf(rs[i]).value)[j] == rs[i]
  {
    hide Order;
    var key := KeyOf(rs[i]).value;
    OrderMembers(rs, key);
    assert i in Order(rs, key);
    j :| 0 <= j < |Order(rs, key)| && Order(rs, key)[j] == i;
  }

  lemma GroupsSettled(digest: Digest, rs: Records)
    requires forall key :: GroupSettled(digest, Group(rs, key))
    ensures Settled(digest, rs)
  {
    hide Order, Group;
    forall i, j | 0 <= i < |rs| && 0 <= j < |rs| && i != j && KeyOf(rs[i]).Some? && KeyOf(rs[i]) == KeyOf(rs[j])
      ensures PairSettled(digest, rs[i], rs[j])
    {
      var key := KeyOf(rs[i]).value;
      var g := Group(rs, key);
      assert GroupSettled(digest, g);
      var a := PlaceInGroup(rs, i);
      var b := PlaceInGroup(rs, j);
      if a < b {
        assert PairSettled(digest, g[a], g[b]);
      } else {
        assert PairSettled(digest, g[b], g[a]);
      }
    }
    forall i | 0 <= i < |rs| && rs[i].nameOrigin.Automatic?
      ensures OneSettled(digest, rs[i])
    {
      var g := Group(rs, KeyOf(rs[i]).value);
      assert GroupSettled(digest, g);
      var a := PlaceInGroup(rs, i);
      assert OneSettled(digest, g[a]);
    }
  }

  /** A successful run leaves a settled list. */
  lemma PolicySettles(digest: Digest, rs: Records)
    requires Policy(digest, rs).error.None?
    ensures Settled(digest, Policy(digest, rs).records)
  {
    hide Policy, Group, GroupPass, GroupSettled, Settled;
    var p := Policy(digest, rs);
    PolicyExact(digest, rs);
    forall key
      ensures GroupSettled(digest, Group(p.records, key))
    {
      GroupPassSettles(digest, Group(rs, key));
    }
    GroupsSettled(digest, p.records);
  }

  lemma StepKeepsSettled(digest: Digest, rs: Records, key: string)
    requires Settled(digest, rs)
    ensures GroupStep(digest, rs, key) == Pass(rs, None)
  {
    hide Order, Settled, GroupPass;
    SettledGroup(digest, rs, key);
    GroupPassKeeps(digest, Group(rs, key));
    OrderMembers(rs, key);
    ScatterAt(rs, Order(rs, key), Group(rs, key));
    var after := Scatter(rs, Order(rs, key), Group(rs, key));
    forall i: nat | i < |rs|
      ensures after[i] == rs[i]
    {
      if i in Order(rs, key) {
        var j :| 0 <= j < |Order(rs, key)| && Order(rs, key)[j] == i;
        assert after[Order(rs, key)[j]] == Group(rs, key)[j];
      }
    }
  }

  lemma {:induction false} PolicyKeepsSettled(digest: Digest, rs: Records, keys: seq<string>)
    requires Settled(digest, rs)
    ensures PolicyOver(digest, rs, keys) == Pass(rs, None)
  {
    hide Settled, GroupStep;
    if keys != [] {
      PolicyKeepsSettled(digest, rs, keys[..|keys| - 1]);
      StepKeepsSettled(digest, rs, keys[|keys| - 1]);
    }
  }

  lemma SettledPick(digest: Digest, rs: Records, pick: seq<nat>)
    requires Settled(digest, rs) && InRange(pick, |rs|) && Distinct(pick)
    ensures Settled(digest, Select(rs, pick))
  {
    var part := Select(rs, pick);
    forall i, j | 0 <= i < |part| && 0 <= j < |part| && i != j
                  && KeyOf(part[i]).Some? && KeyOf(part[i]) == KeyOf(part[j])
      ensures PairSettled(digest, part[i], part[j])
    {
      assert PairSettled(digest, rs[pick[i]], rs[pick[j]]);
    }
    forall i | 0 <= i < |part| && part[i].nameOrigin.Automatic?
      ensures OneSettled(digest, part[i])
    {
      assert OneSettled(digest, rs[pick[i]]);
    }
  }

  /** Stability: after one success, the policy run on any part of the resulting records, in any
      order, succeeds and changes nothing. */
  lemma Stability(digest: Digest, rs: Records, pick: seq<nat>)
    requires Policy(digest, rs).error.None?
    requires InRange(pick, |rs|) && Distinct(pick)
    ensures var rest := Select(Policy(digest, rs).records, pick);
            Policy(digest, rest) == Pass(rest, None)
  {
    hide Settled, PolicyOver, Keys;
    PolicySettles(digest, rs);
    var rest := Select(Policy(digest, rs).records, pick);
    SettledPick(digest, Policy(digest, rs).records, pick);
    PolicyKeepsSettled(digest, rest, Keys(rest, |rest|));
  }

  // ---------------------------------------------------------------- order independence

  predicate DistinctIds(rs: Records) {
    forall i, j | 0 <= i < j < |rs| :: rs[i].deviceId != rs[j].deviceId
  }

  predicate AscendingIds(rs: Records) {
    forall i, j | 0 <= i < j < |rs| :: IdBelow(rs[i], rs[j])
  }

  /** `s` is in order, so inserting puts `x` in its place. */
  lemma InsertNext(rs: Records, sorted: seq<nat>, x: nat)
    requires x < |rs| && InRange(sorted, |rs|)
    ensures InsertById(rs, sorted, x) ==
      if sorted != [] && IdBelow(rs[x], rs[sorted[|sorted| - 1]])
      then InsertById(rs, sorted[..|sorted| - 1], x) + [sorted[|sorted| - 1]]
      else sorted + [x]
  {
    hide IdBelow;
  }

  lemma InsertMembers(rs: Records, sorted: seq<nat>, x: nat)
    requires InRange(sorted, |rs|) && x < |rs|
    ensures forall y :: y in InsertById(rs, sorted, x) <==> y in sorted || y == x
  {
    hide InsertById;
    InsertKeepsElements(rs, sorted, x);
    forall y
      ensures y in InsertById(rs, sorted, x) <==> y in sorted || y == x
    {
      assert y in InsertById(rs, sorted, x) <==> y in multiset(InsertById(rs, sorted, x));
    }
  }

  lemma AscendsBehind(rs: Records, front: seq<nat>, last: nat)
    requires InRange(front, |rs|) && last < |rs| && AscendingIds(Select(rs, front))
    requires forall y | y in front :: IdBelow(rs[y], rs[last])
    ensures AscendingIds(Select(rs, front + [last]))
  {
    hide IdBelow, Select;
    var before, all := Select(rs, front), Select(rs, front + [last]);
    assert forall i | 0 <= i < |front| :: all[i] == before[i] && front[i] in front;
  }

  lemma BelowLast(rs: Records, sorted: seq<nat>, y: nat)
    requires InRange(sorted, |rs|) && sorted != [] && AscendingIds(Select(rs, sorted)) && y in sorted[..|sorted| - 1]
    ensures IdBelow(rs[y], rs[sorted[|sorted| - 1]])
  {
    hide IdBelow, Select;
    var k :| 0 <= k < |sorted| - 1 && sorted[k] == y;
    assert IdBelow(Select(rs, sorted)[k], Select(rs, sorted)[|sorted| - 1]);
  }

  lemma {:induction false} InsertAscends(rs: Records, sorted: seq<nat>, x: nat)
    requires DistinctIds(rs) && InRange(sorted, |rs|) && x < |rs| && x !in sorted
    requires AscendingIds(Select(rs, sorted))
    ensures AscendingIds(Select(rs, InsertById(rs, sorted, x)))
  {
    hide IdBelow, InsertById, Select, AscendingIds;
    InsertNext(rs, sorted, x);
    if sorted == [] {
      OneAscends(rs, x);
    } else {
      var init, last := sorted[..|sorted| - 1], sorted[|sorted| - 1];
      IdsComparable(rs[last], rs[x]);
      if IdBelow(rs[x], rs[last]) {
        InitAscends(rs, sorted);
        InsertAscends(rs, init, x);
        InsertMembers(rs, init, x);
        var front := InsertById(rs, init, x);
        forall y | y in front
          ensures IdBelow(rs[y], rs[last])
        {
          if y != x {
            BelowLast(rs, sorted, y);
          }
        }
        AscendsBehind(rs, front, last);
      } else {
        forall y | y in sorted
          ensures IdBelow(rs[y], rs[x])
        {
          if y != last {
            BelowLast(rs, sorted, y);
            IdBelowTransitive(rs[y], rs[last], rs[x]);
          }
        }
        AscendsBehind(rs, sorted, x);
      }
    }
  }

  lemma OneAscends(rs: Records, x: nat)
    requires x < |rs|
    ensures AscendingIds(Select(rs, [] + [x]))
  {
  }

  lemma InitAscends(rs: Records, sorted: seq<nat>)
    requires InRange(sorted, |rs|) && sorted != [] && AscendingIds(Select(rs, sorted))
    ensures AscendingIds(Select(rs, sorted[..|sorted| - 1]))
  {
    hide IdBelow, Select;
    var init := Select(rs, sorted[..|sorted| - 1]);
    assert forall i | 0 <= i < |init| :: init[i] == Select(rs, sorted)[i];
  }

  lemma IdsComparable(a: DeviceRecord, b: DeviceRecord)
    requires a.deviceId != b.deviceId
    ensures IdBelow(a, b) || IdBelow(b, a)
  {
    hide IdText, Below;
    if IdText(a.deviceId) == IdText(b.deviceId) {
      IdTextInjective(a.deviceId, b.deviceId);
    }
    BelowTotal(IdText(a.deviceId), IdText(b.deviceId));
  }

  lemma IdBelowTransitive(a: DeviceRecord, b: DeviceRecord, c: DeviceRecord)
    requires IdBelow(a, b) && IdBelow(b, c)
    ensures IdBelow(a, c)
  {
    hide IdText, Below;
    BelowTransitive(IdText(a.deviceId), IdText(b.deviceId), IdText(c.deviceId));
  }

  lemma {:induction false} SortAscends(rs: Records, m: seq<nat>)
    requires DistinctIds(rs) && InRange(m, |rs|) && Distinct(m)
    ensures AscendingIds(Select(rs, SortById(rs, m)))
    ensures forall y :: y in SortById(rs, m) <==> y in m
  {
    hide InsertById, IdBelow;
    if m != [] {
      var init := m[..|m| - 1];
      assert m == init + [m[|m| - 1]];
      SortAscends(rs, init);
      InsertAscends(rs, SortById(rs, init), m[|m| - 1]);
      InsertMembers(rs, SortById(rs, init), m[|m| - 1]);
    }
  }

  ghost predicate SameElements(a: Records, b: Records) {
    forall r :: r in a <==> r in b
  }

  lemma SomeElement(b: Records) returns (r: DeviceRecord)
    ensures b != [] ==> r in b
  {
    if b != [] {
      r := b[0];
    } else {
      r :| true;
    }
  }

  /** A strictly ascending list is determined by its elements. */
  lemma {:induction false} AscendingUnique(a: Records, b: Records)
    requires AscendingIds(a) && AscendingIds(b) && SameElements(a, b)
    ensures a == b
  {
    hide IdBelow;
    var some := SomeElement(b);
    if a != [] {
      assert a[0] in b && b != [];
      assert b[0] in a;
      var i :| 0 <= i < |b| && b[i] == a[0];
      var j :| 0 <= j < |a| && a[j] == b[0];
      if i > 0 && j > 0 {
        assert IdBelow(b[0], b[i]) && IdBelow(a[0], a[j]);
        IdBelowAsymmetric(a[0], b[0]);
      }
      assert a[0] == b[0];
      TailElements(a, b);
      assert AscendingIds(a[1..]) && AscendingIds(b[1..]);
      AscendingUnique(a[1..], b[1..]);
    }
  }

  lemma IdBelowAsymmetric(a: DeviceRecord, b: DeviceRecord)
    ensures !(IdBelow(a, b) && IdBelow(b, a))
  {
    hide IdText, Below;
    if IdBelow(a, b) && IdBelow(b, a) {
      BelowTransitive(IdText(a.deviceId), IdText(b.deviceId), IdText(a.deviceId));
      BelowIrreflexive(IdText(a.deviceId));
    }
  }

  lemma TailElements(a: Records, b: Records)
    requires AscendingIds(a) && AscendingIds(b) && SameElements(a, b)
    requires a != [] && b != [] && a[0] == b[0]
    ensures SameElements(a[1..], b[1..])
  {
    hide IdBelow;
    HeadOnce(a);
    HeadOnce(b);
    forall r
      ensures r in a[1..] <==> r in b[1..]
    {
      assert r in a <==> r == a[0] || r in a[1..];
      assert r in b <==> r == b[0] || r in b[1..];
    }
  }

  lemma HeadOnce(a: Records)
    requires AscendingIds(a) && a != []
    ensures a[0] !in a[1..]
  {
    hide IdBelow;
    forall i | 0 <= i < |a[1..]|
      ensures a[1..][i] != a[0]
    {
      assert IdBelow(a[0], a[i + 1]);
      IdBelowAsymmetric(a[0], a[i + 1]);
    }
  }

  lemma GroupAscends(rs: Records, key: string)
    requires DistinctIds(rs)
    ensures AscendingIds(Group(rs, key))
    ensures forall r :: r in Group(rs, key) <==> r in rs && KeyOf(r) == Some(key)
  {
    hide SortById, Members, IdBelow;
    SortAscends(rs, Members(rs, key, |rs|));
    OrderMembers(rs, key);
    forall r
      ensures r in Group(rs, key) <==> r in rs && KeyOf(r) == Some(key)
    {
      if r in rs && KeyOf(r) == Some(key) {
        var i :| 0 <= i < |rs| && rs[i] == r;
        var j := PlaceInGroup(rs, i);
      }
    }
  }

  /** Order independence: with distinct ids, two lists of the same records succeed together, and
      then every device has the same record in both results. */
  lemma OrderIndependence(digest: Digest, rs: Records, rs': Records)
    requires DistinctIds(rs) && DistinctIds(rs') && SameElements(rs, rs')
    ensures Policy(digest, rs).error.None? <==> Policy(digest, rs').error.None?
    ensures Policy(digest, rs).error.None? ==>
      forall i, j | 0 <= i < |rs| && 0 <= j < |rs'| && rs[i].deviceId == rs'[j].deviceId ::
        Policy(digest, rs).records[i] == Policy(digest, rs').records[j]
  {
    hide Policy, Group, GroupPass, IdBelow;
    PolicyExact(digest, rs);
    PolicyExact(digest, rs');
    forall key
      ensures Group(rs, key) == Group(rs', key)
    {
      GroupAscends(rs, key);
      GroupAscends(rs', key);
      AscendingUnique(Group(rs, key), Group(rs', key));
    }
    if Policy(digest, rs).error.None? {
      forall i, j | 0 <= i < |rs| && 0 <= j < |rs'| && rs[i].deviceId == rs'[j].deviceId
        ensures Policy(digest, rs).records[i] == Policy(digest, rs').records[j]
      {
        SameRecordTwice(digest, rs, rs', i, j);
      }
    }
  }

  lemma SameRecordTwice(digest: Digest, rs: Records, rs': Records, i: nat, j: nat)
    requires DistinctIds(rs) && DistinctIds(rs') && SameElements(rs, rs')
    requires Policy(digest, rs).error.None? && Policy(digest, rs').error.None?
    requires forall key :: Group(rs, key) == Group(rs', key)
    requires i < |rs| && j < |rs'| && rs[i].deviceId == rs'[j].deviceId
    ensures Policy(digest, rs).records[i] == Policy(digest, rs').records[j]
  {
    hide Policy, Group, GroupPass, Order, IdBelow;
    var out, out' := Policy(digest, rs).records, Policy(digest, rs').records;
    PolicyExact(digest, rs);
    PolicyExact(digest, rs');
    assert rs[i] == rs'[j] by {
      assert rs[i] in rs';
      var m :| 0 <= m < |rs'| && rs'[m] == rs[i];
    }
    match KeyOf(rs[i])
    case None =>
    case Some(key) =>
      var a := PlaceInGroup(rs, i);
      var b := PlaceInGroup(rs', j);
      GroupAscends(rs, key);
      if a != b {
        assert IdBelow(Group(rs, key)[if a < b then a else b], Group(rs, key)[if a < b then b else a]);
        IdBelowAsymmetric(rs[i], rs[i]);
      }
      SamePlace(rs, out, i, a);
      SamePlace(rs', out', j, b);
      assert Group(out, key) == Group(out', key);
  }

  /** A record keeps its place in its group through a run. */
  lemma SamePlace(rs: Records, out: Records, i: nat, a: nat)
    requires SameDevices(out, rs) && i < |rs| && KeyOf(rs[i]).Some?
    requires a < |Order(rs, KeyOf(rs[i]).value)| && Order(rs, KeyOf(rs[i]).value)[a] == i
    ensures a < |Group(out, KeyOf(rs[i]).value)| && Group(out, KeyOf(rs[i]).value)[a] == out[i]
  {
    hide Order;
    SameOrder(out, rs, KeyOf(rs[i]).value);
    OrderMembers(out, KeyOf(rs[i]).value);
  }

  // ---------------------------------------------------------------- distinct names

  /** Two tagged names are equal only when base and tag are. */
  lemma TaggedNameParts(base: string, tag: DeviceTag, base': string, tag': DeviceTag)
    ensures TaggedName(base, tag) == TaggedName(base', tag') ==> base == base' && tag == tag'
  {
    hide IsTagChar;
    var a, b := TaggedName(base, tag), TaggedName(base', tag');
    assert a[|base| + 1..] == tag && b[|base'| + 1..] == tag';
    assert a[..|base|] == base && b[..|base'|] == base';
    assert |a| == |base| + 6 && |b| == |base'| + 6;
  }

  /** After a successful run all tagged names are pairwise distinct, across all groups. */
  lemma TaggedNamesDistinct(digest: Digest, rs: Records, i: nat, j: nat)
    requires Policy(digest, rs).error.None? && i < |rs| && j < |rs| && i != j
    requires IsTagged(Policy(digest, rs).records[i]) && IsTagged(Policy(digest, rs).records[j])
    ensures Policy(digest, rs).records[i].displayName != Policy(digest, rs).records[j].displayName
  {
    hide Policy, Base32, IsTagChar;
    var out := Policy(digest, rs).records;
    PolicySettles(digest, rs);
    assert OneSettled(digest, out[i]) && OneSettled(digest, out[j]);
    assert KeyOf(out[i]) == KeyOf(out[j]) ==> PairSettled(digest, out[i], out[j]);
    TaggedNameParts(out[i].nameOrigin.baseHostname, CurrentTag(digest, out[i]),
                    out[j].nameOrigin.baseHostname, CurrentTag(digest, out[j]));
  }
}
