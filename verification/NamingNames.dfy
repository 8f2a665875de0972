/** Which name the collision policy gives to each record: said of one record at a time, by what its
    competitors with lower ids have got. */
module NamingNames {
  import opened Wrappers
  import opened Text
  import opened Device
  import opened Tags
  import opened Naming
  import opened NamingTheorems

  // ---------------------------------------------------------------- who comes first

  /** Record `x` is named before record `y`: by the text of the id, and in list order for one id. */
  ghost predicate Precedes(rs: Records, x: nat, y: nat)
    requires x < |rs| && y < |rs|
  {
    IdBelow(rs[x], rs[y]) || (rs[x].deviceId == rs[y].deviceId && x < y)
  }

  ghost predicate Ranked(rs: Records, s: seq<nat>) {
    InRange(s, |rs|) && forall a, b | 0 <= a < b < |s| :: Precedes(rs, s[a], s[b])
  }

  lemma PrecedesOnce(rs: Records, x: nat, y: nat)
    requires x < |rs| && y < |rs| && Precedes(rs, x, y)
    ensures !Precedes(rs, y, x)
  {
    hide IdText, Below;
    if IdBelow(rs[x], rs[y]) && IdBelow(rs[y], rs[x]) {
      IdBelowTransitive(rs[x], rs[y], rs[x]);
    }
    BelowIrreflexive(IdText(rs[x].deviceId));
    BelowIrreflexive(IdText(rs[y].deviceId));
  }

  lemma PrecedesTransitive(rs: Records, x: nat, y: nat, z: nat)
    requires x < |rs| && y < |rs| && z < |rs| && Precedes(rs, x, y) && Precedes(rs, y, z)
    ensures Precedes(rs, x, z)
  {
    hide IdText, Below;
    if IdBelow(rs[x], rs[y]) && IdBelow(rs[y], rs[z]) {
      IdBelowTransitive(rs[x], rs[y], rs[z]);
    }
  }

  /** What is not named after a record is named before it. */
  lemma PrecedesTotal(rs: Records, x: nat, y: nat)
    requires x < |rs| && y < x && !IdBelow(rs[x], rs[y])
    ensures Precedes(rs, y, x)
  {
    hide IdText, Below;
    if rs[x].deviceId != rs[y].deviceId {
      IdsComparable(rs[x], rs[y]);
    }
  }

  lemma RankedInit(rs: Records, s: seq<nat>)
    requires s != [] && Ranked(rs, s)
    ensures Ranked(rs, s[..|s| - 1]) && InRange(s, |rs|)
    ensures forall k | 0 <= k < |s| - 1 :: Precedes(rs, s[k], s[|s| - 1])
  {
  }

  lemma RankedMore(rs: Records, s: seq<nat>, x: nat)
    requires Ranked(rs, s) && x < |rs| && InRange(s, |rs|) && forall k | 0 <= k < |s| :: Precedes(rs, s[k], x)
    ensures Ranked(rs, s + [x])
  {
    hide Precedes;
    var all := s + [x];
    forall a, b | 0 <= a < b < |all|
      ensures Precedes(rs, all[a], all[b])
    {
      assert all[a] == s[a];
    }
  }

  lemma {:induction false} InsertRanks(rs: Records, sorted: seq<nat>, x: nat)
    requires Ranked(rs, sorted) && x < |rs| && forall y | y in sorted :: y < x
    ensures Ranked(rs, InsertById(rs, sorted, x))
  {
    hide IdBelow, InsertById, Precedes, Ranked;
    Unranked(rs, sorted);
    InsertNext(rs, sorted, x);
    if sorted == [] {
      OneIsRanked(rs, x);
    } else {
      var init, last := sorted[..|sorted| - 1], sorted[|sorted| - 1];
      RankedInit(rs, sorted);
      assert last in sorted && forall y | y in init :: y in sorted;
      if IdBelow(rs[x], rs[last]) {
        InsertRanks(rs, init, x);
        Unranked(rs, InsertById(rs, init, x));
        InsertMembers(rs, init, x);
        ByIdPrecedes(rs, x, last);
        var front := InsertById(rs, init, x);
        forall k | 0 <= k < |front|
          ensures Precedes(rs, front[k], last)
        {
          assert front[k] in front;
          if front[k] != x {
            var l :| 0 <= l < |init| && init[l] == front[k];
            assert sorted[l] == front[k];
          }
        }
        RankedMore(rs, front, last);
      } else {
        PrecedesTotal(rs, x, last);
        forall k | 0 <= k < |sorted|
          ensures Precedes(rs, sorted[k], x)
        {
          if k < |sorted| - 1 {
            PrecedesTransitive(rs, sorted[k], last, x);
          }
        }
        RankedMore(rs, sorted, x);
      }
    }
  }

  lemma Unranked(rs: Records, s: seq<nat>)
    requires Ranked(rs, s)
    ensures InRange(s, |rs|)
  {
  }

  lemma OneIsRanked(rs: Records, x: nat)
    requires x < |rs|
    ensures Ranked(rs, []) && Ranked(rs, [] + [x])
  {
  }

  lemma ByIdPrecedes(rs: Records, x: nat, y: nat)
    requires x < |rs| && y < |rs| && IdBelow(rs[x], rs[y])
    ensures Precedes(rs, x, y)
  {
  }

  ghost predicate Ascends(m: seq<nat>) {
    forall a, b | 0 <= a < b < |m| :: m[a] < m[b]
  }

  lemma {:induction false} SortRanks(rs: Records, m: seq<nat>)
    requires InRange(m, |rs|) && Ascends(m)
    ensures Ranked(rs, SortById(rs, m))
  {
    hide InsertById, IdBelow, Precedes, Ranked;
    if m == [] {
      NothingRanked(rs);
    } else {
      var init, x := m[..|m| - 1], m[|m| - 1];
      SortRanks(rs, init);
      SortedMembers(rs, init);
      InsertRanks(rs, SortById(rs, init), x);
    }
  }

  lemma NothingRanked(rs: Records)
    ensures Ranked(rs, [])
  {
  }

  lemma SortedMembers(rs: Records, m: seq<nat>)
    requires InRange(m, |rs|)
    ensures forall y :: y in SortById(rs, m) <==> y in m
  {
    hide SortById;
    assert multiset(SortById(rs, m)) == multiset(m);
    forall y
      ensures y in SortById(rs, m) <==> y in m
    {
      assert y in SortById(rs, m) <==> y in multiset(SortById(rs, m));
    }
  }

  lemma {:induction false} MembersAscend(rs: Records, key: string, n: nat)
    requires n <= |rs|
    ensures Ascends(Members(rs, key, n))
  {
    hide KeyOf;
    if n > 0 {
      MembersAscend(rs, key, n - 1);
      var before := Members(rs, key, n - 1);
      assert InRange(before, n - 1);
      assert Ascends(before + [n - 1]);
    }
  }

  lemma OrderIsRanked(rs: Records, key: string)
    ensures Ranked(rs, Order(rs, key))
  {
    hide SortById, Members, Ranked;
    MembersAscend(rs, key, |rs|);
    SortRanks(rs, Members(rs, key, |rs|));
  }

  // ---------------------------------------------------------------- one allocation

  /** The generation that a record gets when `taken` are the tags in front of it: its own, if it is tagged and
      that tag is free; otherwise the least from its own, or from behind it if it is tagged, with a free tag. */
  ghost predicate IsNextFree(digest: Digest, r: DeviceRecord, taken: set<DeviceTag>, generation: u32)
    requires r.nameOrigin.Automatic?
  {
    var g, id := r.nameOrigin.tagGeneration, r.deviceId;
    && Derive(digest, id, generation) !in taken
    && (if r.nameOrigin.tagged && Derive(digest, id, g) !in taken then generation == g
        else
          var from: nat := if r.nameOrigin.tagged && g < 0xFFFF_FFFF then g + 1 else g;
          && from <= generation < from + 1024
          && forall h: u32 | from <= h < generation :: Derive(digest, id, h) in taken)
  }

  lemma AssignOneExactly(digest: Digest, r: DeviceRecord, taken: set<DeviceTag>)
    requires r.nameOrigin.Automatic? && AssignOne(digest, r, taken).Ok?
    ensures var a := AssignOne(digest, r, taken).value;
      a.tag == Derive(digest, r.deviceId, a.generation) && IsNextFree(digest, r, taken, a.generation)
  {
    hide Probe, Derive, Taken;
    if !(r.nameOrigin.tagged && CurrentTag(digest, r) !in taken) {
      var from: u32 :=
        if r.nameOrigin.tagged then SaturatingNext(r.nameOrigin.tagGeneration) else r.nameOrigin.tagGeneration;
      ProbeExact(digest, r.deviceId, from, taken, 0);
      var a := AssignOne(digest, r, taken).value;
      assert from + 0 <= a.generation < from + 1024;
      forall h: u32 | from <= h < a.generation
        ensures Derive(digest, r.deviceId, h) in taken
      {
        assert Taken(digest, r.deviceId, taken, h);
        TakenIs(digest, r.deviceId, taken, h);
      }
      TakenIs(digest, r.deviceId, taken, a.generation);
    }
  }

  lemma TakenIs(digest: Digest, id: DeviceId, taken: set<DeviceTag>, generation: u32)
    ensures Taken(digest, id, taken, generation) <==> Derive(digest, id, generation) in taken
  {
  }

  ghost function TagsOf(digest: Digest, rs: Records): set<DeviceTag>
    requires AllAutomatic(rs)
  {
    set i | 0 <= i < |rs| :: CurrentTag(digest, rs[i])
  }

  lemma TagsOfCons(digest: Digest, rs: Records)
    requires AllAutomatic(rs) && rs != []
    ensures AllAutomatic(rs[1..]) && TagsOf(digest, rs) == {CurrentTag(digest, rs[0])} + TagsOf(digest, rs[1..])
  {
    hide CurrentTag;
    forall tag | tag in TagsOf(digest, rs)
      ensures tag in {CurrentTag(digest, rs[0])} + TagsOf(digest, rs[1..])
    {
      var i :| 0 <= i < |rs| && tag == CurrentTag(digest, rs[i]);
      if i > 0 {
        assert rs[1..][i - 1] == rs[i];
      }
    }
    forall tag | tag in TagsOf(digest, rs[1..])
      ensures tag in TagsOf(digest, rs)
    {
      var i :| 0 <= i < |rs[1..]| && tag == CurrentTag(digest, rs[1..][i]);
      assert rs[i + 1] == rs[1..][i];
    }
  }

  /** In a pass that succeeds, each record is assigned its tag after those in front of it. */
  lemma {:induction false} AssignAllAt(digest: Digest, g: Records, occupied: set<DeviceTag>, k: nat)
    requires AllAutomatic(g) && AssignAll(digest, g, occupied).error.None? && k < |g|
    ensures AllAutomatic(AssignAll(digest, g, occupied).records)
    ensures var out := AssignAll(digest, g, occupied).records;
      var given := AssignOne(digest, g[k], occupied + TagsOf(digest, out[..k]));
      given.Ok? && out[k] == WithTag(g[k], given.value)
  {
    hide AssignOne, AssignAll, WithTag, CurrentTag, TagsOf;
    AssignAllDevices(digest, g, occupied);
    AssignAllOk(digest, g, occupied);
    AssignAllHead(digest, g, occupied);
    var a := AssignOne(digest, g[0], occupied).value;
    var out := AssignAll(digest, g, occupied).records;
    AssignOneTag(digest, g[0], occupied);
    if k == 0 {
      NoTags(digest, out);
      assert occupied + TagsOf(digest, out[..0]) == occupied;
    } else {
      AssignAllAt(digest, g[1..], occupied + {a.tag}, k - 1);
      var rest := AssignAll(digest, g[1..], occupied + {a.tag}).records;
      TagsOfCons(digest, out[..k]);
      assert out[..k][1..] == rest[..k - 1];
      assert occupied + TagsOf(digest, out[..k]) == (occupied + {a.tag}) + TagsOf(digest, rest[..k - 1]);
      assert out[k] == out[1..][k - 1];
    }
  }

  lemma NoTags(digest: Digest, out: Records)
    ensures TagsOf(digest, out[..0]) == {}
  {
  }

  // ---------------------------------------------------------------- each record of the whole list

  /** Two records have automatic names and, but for the case of letters, the same hostname. */
  ghost predicate Competes(rs: Records, i: nat, j: nat)
    requires i < |rs| && j < |rs|
  {
    && rs[i].nameOrigin.Automatic? && rs[j].nameOrigin.Automatic?
    && AsciiLower(rs[i].nameOrigin.baseHostname) == AsciiLower(rs[j].nameOrigin.baseHostname)
  }

  lemma CompetesByKey(rs: Records, i: nat, j: nat)
    requires i < |rs| && j < |rs|
    ensures Competes(rs, i, j) <==> KeyOf(rs[i]).Some? && KeyOf(rs[i]) == KeyOf(rs[j])
  {
  }

  /** A record gets a tag when it has one, or when another record has its hostname. */
  ghost predicate IsContested(rs: Records, i: nat)
    requires i < |rs|
  {
    && rs[i].nameOrigin.Automatic?
    && (rs[i].nameOrigin.tagged || exists j: nat :: j < |rs| && j != i && Competes(rs, i, j))
  }

  /** The tags of the competitors that are named before record `i`. */
  ghost function TagsInFront(digest: Digest, rs: Records, out: Records, i: nat): set<DeviceTag>
    requires |out| == |rs| && i < |rs|
  {
    set j: nat | j < |rs| && Competes(rs, i, j) && Precedes(rs, j, i) && out[j].nameOrigin.Automatic? ::
      CurrentTag(digest, out[j])
  }

  /** What the policy makes of one record: nothing, unless it is contested; then its name is its hostname, a
      hyphen and the tag of the next generation that is free after the competitors in front of it. */
  ghost predicate IsNamed(digest: Digest, rs: Records, out: Records, i: nat)
    requires |out| == |rs| && i < |rs|
  {
    if !IsContested(rs, i) then out[i] == rs[i]
    else
      && out[i].nameOrigin.Automatic?
      && var g, base := out[i].nameOrigin.tagGeneration, rs[i].nameOrigin.baseHostname;
         && IsNextFree(digest, rs[i], TagsInFront(digest, rs, out, i), g)
         && out[i] == rs[i].(displayName := base + "-" + Derive(digest, rs[i].deviceId, g),
                             nameOrigin := Automatic(base, true, g))
  }

  lemma NotBehind(rs: Records, order: seq<nat>, a: nat, b: nat)
    requires Ranked(rs, order) && a < |order| && b < |order|
    requires !Precedes(rs, order[a], order[b]) && order[a] != order[b]
    ensures b < a
  {
  }

  lemma PrecedesNotSelf(rs: Records, x: nat)
    requires x < |rs|
    ensures !Precedes(rs, x, x)
  {
    hide IdText, Below;
    BelowIrreflexive(IdText(rs[x].deviceId));
  }

  /** The records in front of place `a` of a group are those that compete and precede. */
  lemma FrontOfPlace(digest: Digest, rs: Records, out: Records, i: nat, a: nat, key: string)
    requires SameDevices(out, rs) && i < |rs| && KeyOf(rs[i]) == Some(key)
    requires a < |Order(rs, key)| && Order(rs, key)[a] == i && |Group(out, key)| == |Order(rs, key)|
    requires forall b | 0 <= b < |Order(rs, key)| :: Group(out, key)[b] == out[Order(rs, key)[b]]
    ensures TagsOf(digest, Group(out, key)[..a]) == TagsInFront(digest, rs, out, i)
  {
    hide Order, Group, CurrentTag, IdBelow;
    OrderMembers(rs, key);
    OrderIsRanked(rs, key);
    var order, front := Order(rs, key), Group(out, key)[..a];
    forall tag | tag in TagsOf(digest, front)
      ensures tag in TagsInFront(digest, rs, out, i)
    {
      var b :| 0 <= b < a && tag == CurrentTag(digest, front[b]);
      var j := order[b];
      CompetesByKey(rs, i, j);
      assert front[b] == out[j] && Competes(rs, i, j) && Precedes(rs, j, i);
    }
    forall tag | tag in TagsInFront(digest, rs, out, i)
      ensures tag in TagsOf(digest, front)
    {
      var j: nat :| j < |rs| && Competes(rs, i, j) && Precedes(rs, j, i) && out[j].nameOrigin.Automatic?
                    && tag == CurrentTag(digest, out[j]);
      CompetesByKey(rs, i, j);
      assert j in order;
      var b :| 0 <= b < |order| && order[b] == j;
      PrecedesOnce(rs, j, i);
      PrecedesNotSelf(rs, i);
      NotBehind(rs, order, a, b);
      assert front[b] == out[j];
    }
  }

  lemma GroupAt(rs: Records, out: Records, key: string)
    requires SameDevices(out, rs)
    ensures |Group(out, key)| == |Order(rs, key)|
    ensures forall b | 0 <= b < |Order(rs, key)| :: Group(out, key)[b] == out[Order(rs, key)[b]]
  {
    hide Order;
    SameOrder(out, rs, key);
  }

  ghost function TaggedPlace(g: Records): (k: nat)
    requires exists k :: 0 <= k < |g| && IsTagged(g[k])
    ensures k < |g| && IsTagged(g[k])
  {
    var k: nat :| k < |g| && IsTagged(g[k]);
    k
  }

  /** A group is touched exactly when its members are contested. */
  lemma ContestedIsActive(rs: Records, i: nat, key: string)
    requires i < |rs| && KeyOf(rs[i]) == Some(key)
    ensures Active(Group(rs, key)) <==> IsContested(rs, i)
  {
    hide Order, KeyOf;
    OrderMembers(rs, key);
    GroupAt(rs, rs, key);
    KeyIsAutomatic(rs[i]);
    var order, g := Order(rs, key), Group(rs, key);
    var a := PlaceInGroup(rs, i);
    if IsContested(rs, i) && !IsTagged(rs[i]) {
      var j: nat :| j < |rs| && j != i && Competes(rs, i, j);
      CompetesByKey(rs, i, j);
      var b := PlaceInGroup(rs, j);
      assert a != b;
    }
    if Active(g) {
      ActiveIsContested(rs, i, key, a);
    }
  }

  lemma ActiveIsContested(rs: Records, i: nat, key: string, a: nat)
    requires i < |rs| && KeyOf(rs[i]) == Some(key) && Active(Group(rs, key))
    requires a < |Group(rs, key)| && a < |Order(rs, key)| && Order(rs, key)[a] == i
    ensures IsContested(rs, i)
  {
    hide Order, KeyOf;
    OrderMembers(rs, key);
    GroupAt(rs, rs, key);
    KeyIsAutomatic(rs[i]);
    var order, g := Order(rs, key), Group(rs, key);
    if !IsTagged(rs[i]) {
      var b := if exists k :: 0 <= k < |g| && IsTagged(g[k]) then TaggedPlace(g) else if a == 0 then 1 else 0;
      assert b < |g| && b != a && order[b] != order[a];
      CompetesByKey(rs, i, order[b]);
      assert Competes(rs, i, order[b]);
    }
  }

  lemma KeyIsAutomatic(r: DeviceRecord)
    ensures KeyOf(r).Some? <==> r.nameOrigin.Automatic?
  {
  }

  /** After a run that succeeds, every record is named just so. */
  lemma PolicyNamesExactly(digest: Digest, rs: Records, i: nat)
    requires Policy(digest, rs).error.None? && i < |rs|
    ensures |Policy(digest, rs).records| == |rs| && IsNamed(digest, rs, Policy(digest, rs).records, i)
  {
    hide Policy, Group, GroupPass, Order, IsNextFree, TagsInFront, KeyOf, IsContested, Derive;
    PolicyExact(digest, rs);
    KeyIsAutomatic(rs[i]);
    var out := Policy(digest, rs).records;
    if KeyOf(rs[i]).None? {
      NotContested(rs, i);
    } else {
      var key := KeyOf(rs[i]).value;
      var a := PlaceInGroup(rs, i);
      SamePlace(rs, out, i, a);
      ContestedIsActive(rs, i, key);
      GroupPassAt(digest, Group(rs, key), a);
      GroupAt(rs, out, key);
      if IsContested(rs, i) {
        FrontOfPlace(digest, rs, out, i, a, key);
        AssignOneExactly(digest, rs[i], TagsOf(digest, Group(out, key)[..a]));
      }
    }
  }

  lemma NotContested(rs: Records, i: nat)
    requires i < |rs| && !rs[i].nameOrigin.Automatic?
    ensures !IsContested(rs, i)
  {
  }

  lemma GroupPassAt(digest: Digest, g: Records, a: nat)
    requires AllAutomatic(g) && a < |g| && GroupPass(digest, g).error.None?
    ensures AllAutomatic(GroupPass(digest, g).records)
    ensures !Active(g) ==> GroupPass(digest, g).records[a] == g[a]
    ensures Active(g) ==>
      var given := AssignOne(digest, g[a], TagsOf(digest, GroupPass(digest, g).records[..a]));
      given.Ok? && GroupPass(digest, g).records[a] == WithTag(g[a], given.value)
  {
    hide AssignAll, AssignOne, WithTag, TagsOf, Active;
    if Active(g) {
      AssignAllAt(digest, g, {}, a);
      var out := AssignAll(digest, g, {}).records;
      assert {} + TagsOf(digest, out[..a]) == TagsOf(digest, out[..a]);
    }
  }
}
