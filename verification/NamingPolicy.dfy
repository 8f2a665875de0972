/** The collision policy as the code runs it: over a slice of records, in place. */
module NamingPolicy {
  import opened Wrappers
  import opened Text
  import opened Device
  import opened Tags
  import opened Naming
  import opened NamingTheorems

  /** Writing back what is there changes nothing. */
  lemma ScatterSame(rs: Records, s: seq<nat>, values: Records)
    requires InRange(s, |rs|) && Distinct(s) && 0 < |s| == |values|
    requires values[|s| - 1] == rs[s[|s| - 1]]
    ensures Scatter(rs, s, values) == Scatter(rs, s[..|s| - 1], values[..|s| - 1])
  {
    hide Scatter;
    var m := |s| - 1;
    ScatterAt(rs, s[..m], values[..m]);
    assert s[m] !in s[..m];
    ScatterLast(rs, s, values);
    UpdateSame(Scatter(rs, s[..m], values[..m]), s[m]);
  }

  lemma ScatterLast(rs: Records, s: seq<nat>, values: Records)
    requires InRange(s, |rs|) && 0 < |s| == |values|
    ensures Scatter(rs, s, values) == Scatter(rs, s[..|s| - 1], values[..|s| - 1])[s[|s| - 1] := values[|s| - 1]]
  {
  }

  lemma ScatterNothing(rs: Records)
    ensures Scatter(rs, [], []) == rs
  {
  }

  lemma UpdateSame(rs: Records, i: nat)
    requires i < |rs|
    ensures rs[i := rs[i]] == rs
  {
  }

  lemma {:induction false} ScatterPrefix(rs: Records, s: seq<nat>, values: Records, n: nat)
    requires InRange(s, |rs|) && Distinct(s) && n <= |s| == |values|
    requires forall i | n <= i < |s| :: values[i] == rs[s[i]]
    ensures Scatter(rs, s, values) == Scatter(rs, s[..n], values[..n])
    decreases |s|
  {
    hide Scatter;
    if n < |s| {
      var m := |s| - 1;
      ScatterSame(rs, s, values);
      ScatterPrefix(rs, s[..m], values[..m], n);
      assert s[..m][..n] == s[..n] && values[..m][..n] == values[..n];
    } else {
      assert s[..n] == s && values[..n] == values;
    }
  }

  lemma AssignAllNext(digest: Digest, rs: Records, j: nat, occupied: set<DeviceTag>)
    requires AllAutomatic(rs) && j < |rs|
    ensures AllAutomatic(rs[j..]) && AllAutomatic(rs[j + 1..])
    ensures var one := AssignOne(digest, rs[j], occupied);
            AssignAll(digest, rs[j..], occupied) ==
            if one.Err? then Pass(rs[j..], Some(one.error))
            else Pass([WithTag(rs[j], one.value)] + AssignAll(digest, rs[j + 1..], occupied + {one.value.tag}).records,
                      AssignAll(digest, rs[j + 1..], occupied + {one.value.tag}).error)
  {
    hide AssignOne;
    assert rs[j..][0] == rs[j] && rs[j..][1..] == rs[j + 1..];
  }

  /** One group: its members in order, each avoiding the tags in front of it. */
  method NameGroup(digest: Digest, records: array<DeviceRecord>, indices: seq<nat>, ghost key: string)
    returns (r: Option<TagError>)
    requires indices == Order(records[..], key)
    modifies records
    ensures Pass(records[..], r) == GroupStep(digest, old(records[..]), key)
  {
    hide SortById, Members, AssignAll, AssignOne, Scatter;
    ghost var before := records[..];
    ghost var group := Group(before, key);
    OrderMembers(before, key);
    var anyTagged := exists i | 0 <= i < |indices| :: IsTagged(records[indices[i]]);
    ScatterPrefix(before, indices, group, 0);
    ScatterNothing(before);
    assert Active(group) <==> |indices| >= 2 || anyTagged by {
      assert forall i | 0 <= i < |indices| :: group[i] == records[indices[i]];
    }
    if |indices| < 2 && !anyTagged {
      return None;
    }
    r := AssignTags(digest, records, indices, group);
  }

  /** How far the pass over one group has come: `done` are the records named so far. */
  ghost predicate Progress(digest: Digest, before: Records, now: Records, s: seq<nat>, group: Records,
                           done: Records, occupied: set<DeviceTag>)
  {
    && InRange(s, |before|) && Distinct(s) && group == Select(before, s) && AllAutomatic(group)
    && |done| <= |s|
    && AllAutomatic(group[|done|..])
    && now == Scatter(before, s[..|done|], done)
    && var rest := AssignAll(digest, group[|done|..], occupied);
       AssignAll(digest, group, {}) == Pass(done + rest.records, rest.error)
  }

  lemma ProgressStart(digest: Digest, before: Records, s: seq<nat>)
    requires InRange(s, |before|) && Distinct(s) && AllAutomatic(Select(before, s))
    ensures Progress(digest, before, before, s, Select(before, s), [], {})
  {
    hide AssignAll;
    var group := Select(before, s);
    assert group[0..] == group && s[..0] == [];
    var all := AssignAll(digest, group, {});
    assert all == Pass([] + all.records, all.error);
  }

  lemma ProgressNext(digest: Digest, before: Records, now: Records, s: seq<nat>, group: Records, done: Records,
                     occupied: set<DeviceTag>)
    requires Progress(digest, before, now, s, group, done, occupied) && |done| < |s|
    ensures var j := |done|;
            && s[j] < |now| && group[j].nameOrigin.Automatic? && now[s[j]] == group[j]
            && var one := AssignOne(digest, group[j], occupied);
               if one.Err? then
                 AssignAll(digest, group, {}) == Pass(done + group[j..], Some(one.error))
                 && now == Scatter(before, s, done + group[j..])
               else
                 Progress(digest, before, now[s[j] := WithTag(group[j], one.value)], s, group,
                          done + [WithTag(group[j], one.value)], occupied + {one.value.tag})
  {
    hide AssignOne, AssignAll;
    var j := |done|;
    ScatterAt(before, s[..j], done);
    assert s[j] !in s[..j];
    AssignAllNext(digest, group, j, occupied);
    var one := AssignOne(digest, group[j], occupied);
    if one.Err? {
      var all := done + group[j..];
      ScatterPrefix(before, s, all, j);
      assert all[..j] == done;
    } else {
      var done' := done + [WithTag(group[j], one.value)];
      var rest := AssignAll(digest, group[j + 1..], occupied + {one.value.tag});
      assert s[..j + 1][..j] == s[..j] && done'[..j] == done;
      assert done + ([WithTag(group[j], one.value)] + rest.records) == done' + rest.records;
    }
  }

  lemma ProgressEnd(digest: Digest, before: Records, now: Records, s: seq<nat>, group: Records, done: Records,
                    occupied: set<DeviceTag>)
    requires Progress(digest, before, now, s, group, done, occupied) && |done| == |s|
    ensures AssignAll(digest, group, {}) == Pass(done, None) && now == Scatter(before, s, done)
  {
    assert s[..|s|] == s && group[|s|..] == [] && done + [] == done;
  }

  method AssignTags(digest: Digest, records: array<DeviceRecord>, indices: seq<nat>, ghost group: Records)
    returns (r: Option<TagError>)
    requires InRange(indices, records.Length) && Distinct(indices)
    requires group == Select(records[..], indices) && AllAutomatic(group)
    modifies records
    ensures var p := AssignAll(digest, group, {});
            r == p.error && records[..] == Scatter(old(records[..]), indices, p.records)
  {
    hide AssignOne, AssignAll, Progress, Scatter;
    ghost var before := records[..];
    ghost var done: Records := [];
    var occupied: set<DeviceTag> := {};
    ProgressStart(digest, before, indices);
    for j := 0 to |indices|
      invariant |done| == j
      invariant Progress(digest, before, records[..], indices, group, done, occupied)
    {
      var index := indices[j];
      ProgressNext(digest, before, records[..], indices, group, done, occupied);
      var allocation := AllocateFor(digest, records[index], occupied);
      if allocation.Err? {
        return Some(allocation.error);
      }
      occupied := occupied + {allocation.value.tag};
      done := done + [WithTag(group[j], allocation.value)];
      records[index] := WithTag(records[index], allocation.value);
    }
    ProgressEnd(digest, before, records[..], indices, group, done, occupied);
    return None;
  }

  /** Keeps the current tag if it is free, otherwise probes for the next free generation. */
  method AllocateFor(digest: Digest, record: DeviceRecord, occupied: set<DeviceTag>)
    returns (r: Result<Allocation, TagError>)
    requires record.nameOrigin.Automatic?
    ensures r == AssignOne(digest, record, occupied)
  {
    hide Probe, Derive;
    var Automatic(base, tagged, generation) := record.nameOrigin;
    var start := if tagged then SaturatingNext(generation) else generation;
    var current := DeriveTag(digest, record.deviceId, generation);
    if tagged && current !in occupied {
      return Ok(Allocation(current, generation));
    }
    r := AllocateDeviceTag(digest, record.deviceId, start, occupied);
  }

  lemma MembersOfAbsent(rs: Records, key: string, n: nat)
    requires n <= |rs| && key !in Keys(rs, n)
    ensures Members(rs, key, n) == []
  {
    hide Keys, Members;
    FirstElement(Members(rs, key, n));
    assert forall i | 0 <= i < n :: KeyOf(rs[i]) != Some(key);
  }

  lemma FirstElement(m: seq<nat>)
    ensures m == [] || m[0] in m
  {
  }

  /** How one more record changes the groups. */
  lemma GroupsNext(rs: Records, n: nat)
    requires n < |rs|
    ensures forall key :: Members(rs, key, n + 1) == Members(rs, key, n) + if KeyOf(rs[n]) == Some(key) then [n] else []
    ensures Keys(rs, n + 1) == if KeyOf(rs[n]).Some? then InsertKey(Keys(rs, n), KeyOf(rs[n]).value) else Keys(rs, n)
  {
    hide InsertKey, KeyOf;
  }

  /** The groups under their lowercased hostnames, each with its members in list order. */
  method BuildGroups(records: array<DeviceRecord>) returns (keys: seq<string>, groups: map<string, seq<nat>>)
    ensures keys == Keys(records[..], records.Length)
    ensures forall key | key in keys :: key in groups && groups[key] == Members(records[..], key, records.Length)
  {
    hide InsertKey, Keys, Members;
    ghost var rs := records[..];
    NoGroups(rs);
    keys := [];
    groups := map[];
    for index := 0 to records.Length
      invariant keys == Keys(rs, index)
      invariant forall key :: key in groups <==> key in keys
      invariant forall key | key in groups :: groups[key] == Members(rs, key, index)
    {
      GroupsNext(rs, index);
      match records[index].nameOrigin {
        case Renamed =>
        case Automatic(base, _, _) =>
          var key := AsciiLower(base);
          if key !in groups {
            MembersOfAbsent(rs, key, index);
          }
          var sofar := if key in groups then groups[key] else [];
          groups := groups[key := sofar + [index]];
          keys := InsertKey(keys, key);
      }
    }
  }

  lemma NoGroups(rs: Records)
    ensures Keys(rs, 0) == []
  {
  }

  /** `apply_hostname_collision_policy`: the records and the error are those of the policy, on
      failure too, where the groups in front of the failing record are already named. */
  method ApplyHostnameCollisionPolicy(digest: Digest, records: array<DeviceRecord>) returns (r: Option<TagError>)
    modifies records
    ensures Pass(records[..], r) == Policy(digest, old(records[..]))
    ensures r.None? ==> Settled(digest, records[..])
  {
    hide Settled, GroupStep, Keys, Members, SortById, SameDevices;
    ghost var rs := records[..];
    var keys, groups := BuildGroups(records);
    KeysSorted(rs, |rs|);
    assert keys[..0] == [];
    for g := 0 to |keys|
      invariant Pass(records[..], None) == PolicyOver(digest, rs, keys[..g])
    {
      var key := keys[g];
      PolicyByGroup(digest, rs, keys[..g]);
      SameOrderOf(rs, records[..], key);
      var indices := SortById(records[..], groups[key]);
      assert keys[..g + 1][..g] == keys[..g];
      r := NameGroup(digest, records, indices, key);
      if r.Some? {
        PolicyStops(digest, rs, keys, g + 1);
        return;
      }
    }
    assert keys[..|keys|] == keys;
    PolicySettles(digest, rs);
    return None;
  }

  lemma SameOrderOf(rs: Records, now: Records, key: string)
    requires SameDevices(now, rs)
    ensures InRange(Members(rs, key, |rs|), |now|)
    ensures SortById(now, Members(rs, key, |rs|)) == Order(now, key)
  {
    SameMembers(now, rs, key, |rs|);
  }

  /** Once a group has failed, later groups are not looked at. */
  lemma {:induction false} PolicyStops(digest: Digest, rs: Records, keys: seq<string>, n: nat)
    requires n <= |keys| && PolicyOver(digest, rs, keys[..n]).error.Some?
    ensures PolicyOver(digest, rs, keys) == PolicyOver(digest, rs, keys[..n])
    decreases |keys|
  {
    hide GroupStep;
    if n < |keys| {
      assert keys[..|keys| - 1][..n] == keys[..n];
      PolicyStops(digest, rs, keys[..|keys| - 1], n);
    } else {
      assert keys[..n] == keys;
    }
  }
}
