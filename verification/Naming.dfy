/** The hostname collision policy, as a function of the records: which automatic names get a tag
    when several devices report the same hostname. */
module Naming {
  import opened Wrappers
  import opened Text
  import opened Device
  import opened Tags

  type Records = seq<DeviceRecord>

  // ---------------------------------------------------------------- one group

  /** Records compete for a name when they have the same lowercased hostname. */
  function KeyOf(r: DeviceRecord): Option<string> {
    match r.nameOrigin
    case Automatic(base, _, _) => Some(AsciiLower(base))
    case Renamed => None
  }

  predicate IsTagged(r: DeviceRecord) {
    r.nameOrigin.Automatic? && r.nameOrigin.tagged
  }

  /** The tag that a record's stored generation stands for. */
  function CurrentTag(digest: Digest, r: DeviceRecord): DeviceTag
    requires r.nameOrigin.Automatic?
  {
    Derive(digest, r.deviceId, r.nameOrigin.tagGeneration)
  }

  function SaturatingNext(g: u32): u32 {
    if g + 1 < GENERATION_LIMIT then g + 1 else g
  }

  /** A tagged record keeps its tag while that is free; otherwise the next free generation is taken. */
  function AssignOne(digest: Digest, r: DeviceRecord, occupied: set<DeviceTag>): Result<Allocation, TagError>
    requires r.nameOrigin.Automatic?
  {
    var generation := r.nameOrigin.tagGeneration;
    if r.nameOrigin.tagged && CurrentTag(digest, r) !in occupied
    then Ok(Allocation(CurrentTag(digest, r), generation))
    else Probe(digest, r.deviceId, if r.nameOrigin.tagged then SaturatingNext(generation) else generation, occupied, 0)
  }

  function TaggedName(base: string, tag: DeviceTag): string {
    base + "-" + tag
  }

  function WithTag(r: DeviceRecord, a: Allocation): DeviceRecord
    requires r.nameOrigin.Automatic?
  {
    r.(nameOrigin := r.nameOrigin.(tagged := true, tagGeneration := a.generation),
       displayName := TaggedName(r.nameOrigin.baseHostname, a.tag))
  }

  /** The records after a pass, and the error that stopped it, if any. */
  datatype Pass = Pass(records: Records, error: Option<TagError>)

  predicate AllAutomatic(rs: Records) {
    forall i | 0 <= i < |rs| :: rs[i].nameOrigin.Automatic?
  }

  /** The records of one group in order, each avoiding the tags in front of it. */
  function AssignAll(digest: Digest, rs: Records, occupied: set<DeviceTag>): (p: Pass)
    requires AllAutomatic(rs)
    ensures |p.records| == |rs|
  {
    if rs == [] then Pass([], None)
    else match AssignOne(digest, rs[0], occupied)
      case Err(e) => Pass(rs, Some(e))
      case Ok(a) =>
        var rest := AssignAll(digest, rs[1..], occupied + {a.tag});
        Pass([WithTag(rs[0], a)] + rest.records, rest.error)
  }

  /** A group is touched when it has two members or a tagged one. */
  predicate Active(rs: Records) {
    |rs| >= 2 || exists i | 0 <= i < |rs| :: IsTagged(rs[i])
  }

  function GroupPass(digest: Digest, rs: Records): (p: Pass)
    requires AllAutomatic(rs)
    ensures |p.records| == |rs|
  {
    if Active(rs) then AssignAll(digest, rs, {}) else Pass(rs, None)
  }

  // ---------------------------------------------------------------- groups of a record list

  predicate Distinct(s: seq<nat>) {
    forall i, j | 0 <= i < j < |s| :: s[i] != s[j]
  }

  predicate InRange(s: seq<nat>, n: nat) {
    forall i | 0 <= i < |s| :: s[i] < n
  }

  /** The members of group `key` among the first `n` records, in list order. */
  function Members(rs: Records, key: string, n: nat): (m: seq<nat>)
    requires n <= |rs|
    ensures InRange(m, n) && Distinct(m)
    ensures forall i: nat | i < n :: i in m <==> KeyOf(rs[i]) == Some(key)
  {
    if n == 0 then []
    else if KeyOf(rs[n - 1]) == Some(key) then Members(rs, key, n - 1) + [n - 1]
    else Members(rs, key, n - 1)
  }

  predicate IdBelow(a: DeviceRecord, b: DeviceRecord) {
    Below(IdText(a.deviceId), IdText(b.deviceId))
  }

  lemma LastAside(s: seq<nat>)
    requires s != []
    ensures multiset(s) == multiset(s[..|s| - 1]) + multiset{s[|s| - 1]}
  {
    assert s == s[..|s| - 1] + [s[|s| - 1]];
  }

  /** Inserts behind everything that is not above it, as a stable sort does. */
  function InsertById(rs: Records, sorted: seq<nat>, x: nat): (r: seq<nat>)
    requires x < |rs| && InRange(sorted, |rs|)
    ensures |r| == |sorted| + 1 && InRange(r, |rs|)
  {
    hide IdBelow;
    if sorted != [] && IdBelow(rs[x], rs[sorted[|sorted| - 1]])
    then InsertById(rs, sorted[..|sorted| - 1], x) + [sorted[|sorted| - 1]]
    else sorted + [x]
  }

  lemma {:induction false} InsertKeepsElements(rs: Records, sorted: seq<nat>, x: nat)
    requires x < |rs| && InRange(sorted, |rs|)
    ensures multiset(InsertById(rs, sorted, x)) == multiset(sorted) + multiset{x}
  {
    hide IdBelow;
    if sorted != [] && IdBelow(rs[x], rs[sorted[|sorted| - 1]]) {
      LastAside(sorted);
      InsertKeepsElements(rs, sorted[..|sorted| - 1], x);
    }
  }

  /** `sort_by_key` on the text form of the device id. */
  function SortById(rs: Records, m: seq<nat>): (r: seq<nat>)
    requires InRange(m, |rs|)
    ensures |r| == |m| && InRange(r, |rs|) && multiset(r) == multiset(m)
  {
    if m == [] then []
    else
      LastAside(m);
      InsertKeepsElements(rs, SortById(rs, m[..|m| - 1]), m[|m| - 1]);
      InsertById(rs, SortById(rs, m[..|m| - 1]), m[|m| - 1])
  }

  function Select(rs: Records, s: seq<nat>): (r: Records)
    requires InRange(s, |rs|)
    ensures |r| == |s| && forall i | 0 <= i < |s| :: r[i] == rs[s[i]]
  {
    seq(|s|, i requires 0 <= i < |s| => rs[s[i]])
  }

  /** Puts `values[i]` at position `s[i]`. */
  function Scatter(rs: Records, s: seq<nat>, values: Records): (r: Records)
    requires InRange(s, |rs|) && |values| == |s|
    ensures |r| == |rs|
  {
    if s == [] then rs
    else
      var n := |s| - 1;
      Scatter(rs, s[..n], values[..n])[s[n] := values[n]]
  }

  lemma {:induction false} ScatterAt(rs: Records, s: seq<nat>, values: Records)
    requires InRange(s, |rs|) && |values| == |s| && Distinct(s)
    ensures forall i | 0 <= i < |s| :: Scatter(rs, s, values)[s[i]] == values[i]
    ensures forall i: nat | i < |rs| && i !in s :: Scatter(rs, s, values)[i] == rs[i]
  {
    if s != [] {
      var n := |s| - 1;
      ScatterAt(rs, s[..n], values[..n]);
      forall i | 0 <= i < n
        ensures Scatter(rs, s, values)[s[i]] == values[i]
      {
        assert s[..n][i] == s[i] && values[..n][i] == values[i];
      }
    }
  }

  /** The members of a group in the order in which they are named. */
  function Order(rs: Records, key: string): (s: seq<nat>)
    ensures InRange(s, |rs|)
  {
    SortById(rs, Members(rs, key, |rs|))
  }

  function Group(rs: Records, key: string): (g: Records)
    ensures AllAutomatic(g)
  {
    OrderMembers(rs, key);
    Select(rs, Order(rs, key))
  }

  lemma MultisetDistinct(a: seq<nat>, b: seq<nat>)
    requires multiset(a) == multiset(b) && Distinct(b)
    ensures Distinct(a) && forall x :: x in a <==> x in b
  {
    forall i, j | 0 <= i < j < |a|
      ensures a[i] != a[j]
    {
      if a[i] == a[j] {
        TwiceInMultiset(a, i, j);
        OnceInMultiset(b, a[i]);
        assert false;
      }
    }
    forall x: nat
      ensures x in a <==> x in b
    {
      assert x in a <==> x in multiset(a);
      assert x in b <==> x in multiset(b);
    }
  }

  lemma TwiceInMultiset(a: seq<nat>, i: nat, j: nat)
    requires i < j < |a| && a[i] == a[j]
    ensures multiset(a)[a[i]] >= 2
  {
    assert a == a[..j] + [a[j]] + a[j + 1..];
    assert a[..j][i] == a[i];
    assert a[i] in multiset(a[..j]);
  }

  lemma {:induction false} OnceInMultiset(b: seq<nat>, x: nat)
    requires Distinct(b)
    ensures multiset(b)[x] <= 1
  {
    if b != [] {
      var n := |b| - 1;
      OnceInMultiset(b[..n], x);
      assert b == b[..n] + [b[n]];
      if b[n] == x {
        assert x !in b[..n];
        assert x !in multiset(b[..n]);
      }
    }
  }

  lemma OrderMembers(rs: Records, key: string)
    ensures Distinct(Order(rs, key))
    ensures forall i: nat | i < |rs| :: i in Order(rs, key) <==> KeyOf(rs[i]) == Some(key)
    ensures forall j | 0 <= j < |Order(rs, key)| :: KeyOf(rs[Order(rs, key)[j]]) == Some(key)
  {
    MultisetDistinct(Order(rs, key), Members(rs, key, |rs|));
    forall j | 0 <= j < |Order(rs, key)|
      ensures KeyOf(rs[Order(rs, key)[j]]) == Some(key)
    {
      assert Order(rs, key)[j] in Order(rs, key);
    }
  }

  // ---------------------------------------------------------------- the whole policy

  function GroupStep(digest: Digest, rs: Records, key: string): (p: Pass)
    ensures |p.records| == |rs|
  {
    var p := GroupPass(digest, Group(rs, key));
    Pass(Scatter(rs, Order(rs, key), p.records), p.error)
  }

  /** The groups of `keys` one after the other, up to the first that fails. */
  function PolicyOver(digest: Digest, rs: Records, keys: seq<string>): (p: Pass)
    ensures |p.records| == |rs|
  {
    if keys == [] then Pass(rs, None)
    else
      var before := PolicyOver(digest, rs, keys[..|keys| - 1]);
      if before.error.Some? then before else GroupStep(digest, before.records, keys[|keys| - 1])
  }

  /** The group names in order, as the ordered map holds them. */
  function InsertKey(keys: seq<string>, key: string): (r: seq<string>)
    ensures forall k :: k in r <==> k in keys || k == key
  {
    if keys == [] then [key]
    else if keys[0] == key then keys
    else if Below(key, keys[0]) then [key] + keys
    else [keys[0]] + InsertKey(keys[1..], key)
  }

  function Keys(rs: Records, n: nat): (keys: seq<string>)
    requires n <= |rs|
    ensures forall k :: k in keys <==> exists i :: 0 <= i < n && KeyOf(rs[i]) == Some(k)
  {
    if n == 0 then []
    else match KeyOf(rs[n - 1])
      case None => Keys(rs, n - 1)
      case Some(key) => InsertKey(Keys(rs, n - 1), key)
  }

  /** `apply_hostname_collision_policy`. */
  function Policy(digest: Digest, rs: Records): (p: Pass)
    ensures |p.records| == |rs|
  {
    PolicyOver(digest, rs, Keys(rs, |rs|))
  }
}
