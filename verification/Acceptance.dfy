/** The local acceptance state of the Windows launcher: which legacy state is the best one, what a
    copy of it holds, and what the launcher decides.  A directory tree is a map from the path of
    each node to the node; the disk is a map from root directories to their trees. */
module Acceptance {
  import opened Wrappers
  import opened Text

  type Bytes = seq<byte>
  type RelPath = seq<string>
  type ControllerId = nat

  datatype Node = File(bytes: Bytes) | Folder | Symlink | Special

  type Tree = map<RelPath, Node>

  /** A directory is named by the directory it is in and its own name. */
  datatype Root = Root(parent: string, name: string)

  type Disk = map<Root, Tree>

  const STABLE_NAME := "Clew-Acceptance-v1"
  const LEGACY_PREFIX := "clew-a-"
  const SUPERSEDED_PREFIX := "Clew-Acceptance-v1.superseded-"
  const STAGING_PREFIX := ".Clew-Acceptance-v1.migrate-"

  // ---------------------------------------------------------------- what a state says

  datatype Summary = Summary(controllerId: ControllerId, deviceCount: nat, generation: u64)

  /** Decoding of the identity file, and of the two control slots for a given identity. */
  datatype Reader = Reader(
    identity: Bytes -> Result<Option<ControllerId>, ()>,
    control: (Option<Node>, Option<Node>, ControllerId) -> Result<(nat, u64), ()>)

  const IDENTITY_PATH: RelPath := ["v1", "controller.json"]
  const SLOT_A_PATH: RelPath := ["v1", "controller-control.a.json"]
  const SLOT_B_PATH: RelPath := ["v1", "controller-control.b.json"]

  function At(t: Tree, p: RelPath): Option<Node> {
    if p in t then Some(t[p]) else None
  }

  predicate IsFile(t: Tree, p: RelPath) {
    p in t && t[p].File?
  }

  /** `inspect_acceptance_state`: nothing to see, an error, or a summary. */
  function Inspect(reader: Reader, t: Tree): Result<Option<Summary>, ()> {
    if !IsFile(t, IDENTITY_PATH) then Ok(None)
    else if !IsFile(t, SLOT_A_PATH) && !IsFile(t, SLOT_B_PATH) then Ok(None)
    else match reader.identity(t[IDENTITY_PATH].bytes)
      case Err(e) => Err(e)
      case Ok(None) => Ok(None)
      case Ok(Some(id)) =>
        match reader.control(At(t, SLOT_A_PATH), At(t, SLOT_B_PATH), id)
        case Err(e) => Err(e)
        case Ok((count, generation)) => Ok(Some(Summary(id, count, generation)))
  }

  /** A state says something exactly when it has an identity file and a control slot, and both can be
      read; it says whose it is, how many devices are enrolled, and in which generation. */
  lemma InspectExactly(reader: Reader, t: Tree, says: Summary)
    ensures var identity, a, b :=
        At(t, ["v1", "controller.json"]), At(t, ["v1", "controller-control.a.json"]),
        At(t, ["v1", "controller-control.b.json"]);
      var there := identity.Some? && identity.value.File?
                   && ((a.Some? && a.value.File?) || (b.Some? && b.value.File?));
      && (Inspect(reader, t) == Ok(Some(says)) <==>
            && there && reader.identity(identity.value.bytes) == Ok(Some(says.controllerId))
            && reader.control(a, b, says.controllerId) == Ok((says.deviceCount, says.generation)))
      && (Inspect(reader, t).Err? <==>
            && there
            && var id := reader.identity(identity.value.bytes);
               id.Err? || (id.value.Some? && reader.control(a, b, id.value.value).Err?))
  {
  }

  /** A root that does not exist has nothing to see. */
  function InspectRoot(reader: Reader, disk: Disk, root: Root): Result<Option<Summary>, ()> {
    if root in disk then Inspect(reader, disk[root]) else Ok(None)
  }

  // ---------------------------------------------------------------- what is copied

  function Joined(p: RelPath): string {
    if p == [] then "" else if |p| == 1 then p[0] else p[0] + "/" + Joined(p[1..])
  }

  /** `acceptance_copy_skips`: locks, secrets, sockets and everything derived from the package. */
  predicate CopySkips(p: RelPath) {
    var relative := Joined(p);
    || relative == "v1/controller.lock" || relative == "v1/local-api.secret" || relative == "v1/controller.sock"
    || relative == "v1/host-runtime" || "v1/host-runtime/" <= relative
    || relative == "v1/client-flavors" || "v1/client-flavors/" <= relative
  }

  /** The copy gets to a node unless the node or a folder above it is skipped. */
  predicate Visited(p: RelPath) {
    forall n | 0 < n <= |p| :: !CopySkips(p[..n])
  }

  /** Every node is in a folder. */
  ghost predicate WellFormed(t: Tree) {
    forall p | p in t :: p != [] && (|p| > 1 ==> p[..|p| - 1] in t && t[p[..|p| - 1]].Folder?)
  }

  predicate IsCopied(t: Tree, p: RelPath) {
    p in t && Visited(p) && (t[p].File? || t[p].Folder?)
  }

  /** What a complete copy holds. */
  ghost function CopyOf(t: Tree): Tree {
    map p | p in t && IsCopied(t, p) :: t[p]
  }

  /** The copy can be made: no symbolic link is met. */
  ghost predicate Copyable(t: Tree) {
    forall p | p in t && Visited(p) :: !t[p].Symlink?
  }

  /** The three files that a summary depends on are never skipped. */
  lemma InspectedIsVisited()
    ensures Visited(IDENTITY_PATH) && Visited(SLOT_A_PATH) && Visited(SLOT_B_PATH)
  {
    OneFileVisited("controller.json");
    OneFileVisited("controller-control.a.json");
    OneFileVisited("controller-control.b.json");
  }

  lemma OneFileVisited(name: string)
    requires name in {"controller.json", "controller-control.a.json", "controller-control.b.json"}
    ensures Visited(["v1", name])
  {
    assert ["v1", name][..1] == ["v1"] && ["v1", name][..2] == ["v1", name];
    assert ["v1", name][1..] == [name];
    assert Joined(["v1"]) == "v1";
    assert Joined(["v1", name]) == "v1/" + name;
    assert ("v1/" + name)[3..] == name;
    assert name[10] == '.' ==> name[11] == 'j';
  }

  /** A copy says exactly what its original says, unless a special file stands where a slot should. */
  lemma CopySaysTheSame(reader: Reader, t: Tree)
    requires Copyable(t)
    requires At(t, SLOT_A_PATH) != Some(Special) && At(t, SLOT_B_PATH) != Some(Special)
    ensures Inspect(reader, CopyOf(t)) == Inspect(reader, t)
  {
    InspectedIsVisited();
    assert At(CopyOf(t), SLOT_A_PATH) == At(t, SLOT_A_PATH);
    assert At(CopyOf(t), SLOT_B_PATH) == At(t, SLOT_B_PATH);
    assert IsFile(CopyOf(t), IDENTITY_PATH) <==> IsFile(t, IDENTITY_PATH);
  }

  // ---------------------------------------------------------------- what is copied, name by name

  /** The names on a path are names: not empty and without a slash. */
  ghost predicate PlainNames(p: RelPath) {
    forall i | 0 <= i < |p| :: p[i] != "" && '/' !in p[i]
  }

  lemma JoinedParts(p: RelPath)
    requires PlainNames(p) && p != []
    ensures |p| == 1 ==> Joined(p) == p[0] && '/' !in Joined(p)
    ensures |p| > 1 ==>
      && Joined(p) == p[0] + "/" + Joined(p[1..]) && IndexOf(Joined(p), '/') == |p[0]|
      && PlainNames(p[1..])
  {
    if |p| > 1 {
      var s := Joined(p);
      assert s[..|p[0]|] == p[0] && s[|p[0]|] == '/';
      IndexOfIsFirst(s, '/', |p[0]|);
    }
  }

  lemma HeadAndRest(a: string, s: string)
    requires '/' !in a
    ensures IndexOf(a + "/" + s, '/') == |a| && (a + "/" + s)[..|a|] == a && (a + "/" + s)[|a| + 1..] == s
  {
    var t := a + "/" + s;
    assert t[..|a|] == a && t[|a|] == '/';
    IndexOfIsFirst(t, '/', |a|);
  }

  /** A joined path begins with a name and a slash exactly when that is its first name and more follows. */
  lemma JoinedBegins(p: RelPath, a: string, rest: string)
    requires PlainNames(p) && '/' !in a
    ensures Joined(p) == a + "/" + rest <==> |p| > 1 && p[0] == a && Joined(p[1..]) == rest
  {
    hide IndexOf, Joined;
    HeadAndRest(a, rest);
    if p == [] {
      assert Joined(p) == "" by { NothingJoined(); }
    } else {
      JoinedParts(p);
      if |p| > 1 {
        HeadAndRest(p[0], Joined(p[1..]));
      } else {
        assert (a + "/" + rest)[|a|] == '/';
      }
    }
  }

  lemma NothingJoined()
    ensures Joined([]) == ""
  {
  }

  /** Two names, joined, are no other path. */
  lemma JoinedIsPair(p: RelPath, a: string, b: string)
    requires PlainNames(p) && '/' !in a && '/' !in b && b != ""
    ensures Joined(p) == a + "/" + b <==> p == [a, b]
  {
    hide IndexOf, Joined;
    JoinedBegins(p, a, b);
    if |p| > 1 {
      JoinedParts(p[1..]);
      if |p| > 2 {
        assert Joined(p[1..])[|p[1]|] == '/';
      } else {
        assert p == [p[0], p[1]];
      }
    }
    if p == [a, b] {
      assert p[1..] == [b];
    }
  }

  /** Two names and a slash begin the paths below them. */
  lemma JoinedIsBelow(p: RelPath, a: string, b: string)
    requires PlainNames(p) && '/' !in a && '/' !in b
    ensures a + "/" + b + "/" <= Joined(p) <==> |p| > 2 && p[0] == a && p[1] == b
  {
    hide Joined;
    var front := a + "/" + b + "/";
    if front <= Joined(p) {
      BelowHasNames(p, a, b, Joined(p)[|front|..]);
    }
    if |p| > 2 && p[0] == a && p[1] == b {
      JoinsBelow(p);
    }
  }

  lemma BelowHasNames(p: RelPath, a: string, b: string, rest: string)
    requires PlainNames(p) && '/' !in a && '/' !in b && Joined(p) == a + "/" + b + "/" + rest
    ensures |p| > 2 && p[0] == a && p[1] == b
  {
    hide Joined;
    assert Joined(p) == a + "/" + (b + "/" + rest);
    JoinedBegins(p, a, b + "/" + rest);
    JoinedBegins(p[1..], b, rest);
  }

  lemma Regrouped(a: string, b: string, rest: string)
    ensures a + "/" + (b + "/" + rest) == a + "/" + b + "/" + rest
    ensures a + "/" + b + "/" <= a + "/" + b + "/" + rest
  {
  }

  lemma JoinsBelow(p: RelPath)
    requires PlainNames(p) && |p| > 2
    ensures p[0] + "/" + p[1] + "/" <= Joined(p)
  {
    hide Joined, IndexOf;
    JoinedParts(p);
    JoinedParts(p[1..]);
    Regrouped(p[0], p[1], Joined(p[1..][1..]));
  }

  /** Exactly these are skipped: the lock, the secret and the socket of the controller, and everything
      that is derived from the package. */
  lemma CopySkipsExactly(p: RelPath)
    requires PlainNames(p)
    ensures CopySkips(p) <==>
      || p == ["v1", "controller.lock"] || p == ["v1", "local-api.secret"] || p == ["v1", "controller.sock"]
      || (|p| >= 2 && p[0] == "v1" && (p[1] == "host-runtime" || p[1] == "client-flavors"))
  {
    hide Joined;
    SkippedNames();
    SkippedFiles();
    SkippedFolders();
    SkipsOne(p, "controller.lock");
    SkipsOne(p, "local-api.secret");
    SkipsOne(p, "controller.sock");
    SkipsOne(p, "host-runtime");
    SkipsOne(p, "client-flavors");
  }

  lemma SkipsOne(p: RelPath, name: string)
    requires PlainNames(p) && '/' !in name && name != ""
    ensures Joined(p) == "v1/" + name <==> p == ["v1", name]
    ensures "v1/" + name + "/" <= Joined(p) <==> |p| > 2 && p[0] == "v1" && p[1] == name
  {
    hide Joined;
    assert "v1" + "/" == "v1/";
    JoinedIsPair(p, "v1", name);
    JoinedIsBelow(p, "v1", name);
  }

  lemma SkippedFiles()
    ensures "v1/" + "controller.lock" == "v1/controller.lock" && "v1/" + "local-api.secret" == "v1/local-api.secret"
    ensures "v1/" + "controller.sock" == "v1/controller.sock"
  {
  }

  lemma SkippedFolders()
    ensures "v1/" + "host-runtime" == "v1/host-runtime" && "v1/" + "host-runtime" + "/" == "v1/host-runtime/"
    ensures "v1/" + "client-flavors" == "v1/client-flavors" && "v1/" + "client-flavors" + "/" == "v1/client-flavors/"
  {
  }

  lemma SkippedNames()
    ensures '/' !in "controller.lock" && '/' !in "local-api.secret" && '/' !in "controller.sock"
    ensures '/' !in "host-runtime" && '/' !in "client-flavors"
  {
  }

  /** A copy holds exactly the files and folders that are none of these five and in none of them. */
  lemma CopyHoldsExactly(t: Tree, p: RelPath)
    requires PlainNames(p)
    ensures p in CopyOf(t) <==>
      && p in t && (t[p].File? || t[p].Folder?)
      && !(|p| >= 2 && p[0] == "v1"
           && (|| p[1] == "controller.lock" || p[1] == "local-api.secret" || p[1] == "controller.sock"
               || p[1] == "host-runtime" || p[1] == "client-flavors"))
    ensures p in CopyOf(t) ==> CopyOf(t)[p] == t[p]
  {
    hide CopySkips;
    forall n | 0 < n <= |p|
      ensures PlainNames(p[..n])
    {
    }
    if |p| >= 2 {
      CopySkipsExactly(p[..2]);
      assert p[..2] == [p[0], p[1]];
    }
    forall n | 0 < n <= |p|
      ensures CopySkips(p[..n]) ==> n >= 2 && (n == 2 || CopySkips(p[..2]))
    {
      CopySkipsExactly(p[..n]);
    }
  }
}
