/** What `list` gives, and what it meets among the entries of a store. */
module ArtifactListing {
  import opened Wrappers
  import opened Text
  import opened Release
  import opened ReleaseArchive
  import opened ArtifactCache
  import opened Ordered

  /** A staging directory holds nothing, or one entry directory. */
  datatype Staging = Empty | Holds(key: string, files: Dir)

  /** The staging directories but one. */
  ghost function Others(staging: map<nat, Staging>, nonce: nat): map<nat, Staging> {
    staging - {nonce}
  }

  lemma OthersAreAll(a: map<nat, Staging>, b: map<nat, Staging>, nonce: nat)
    requires Others(a, nonce) == Others(b, nonce) && nonce !in a && nonce !in b
    ensures a == b
  {
    assert Others(a, nonce) == a && Others(b, nonce) == b;
  }

  lemma OthersStay(a: map<nat, Staging>, b: map<nat, Staging>, nonce: nat, other: nat)
    requires Others(a, nonce) == Others(b, nonce) && other != nonce && other in a
    ensures other in b
  {
    assert other in Others(a, nonce);
  }

  datatype Listed = Listed(artifact: Artifact, active: bool)

  /** The name of a staging directory, which stands among the entries; the number stands for the
      process and the time in it. */
  function StagingName(nonce: nat): string {
    ".staging." + Decimal(nonce) + ".tmp"
  }

  /** Whatever stands among the entries. */
  function EntryNames(c: Contents, staging: map<nat, Staging>): set<string> {
    c.entries.Keys + set n | n in staging :: StagingName(n)
  }

  const BY_NAME: (string, string) -> bool := (a: string, b: string) => Below(a, b)

  lemma NamesAreOrdered()
    ensures IsStrictOrder(BY_NAME)
  {
    forall a: string, b: string
      ensures !BY_NAME(a, a) && (a == b || BY_NAME(a, b) || BY_NAME(b, a))
    {
      BelowIrreflexive(a);
      BelowTotal(a, b);
    }
    forall a: string, b: string, c: string | BY_NAME(a, b) && BY_NAME(b, c)
      ensures BY_NAME(a, c)
    {
      BelowTransitive(a, b, c);
    }
  }

  /** The item is the entry `key` of the store, and says whether its flavor's pointer names it. */
  ghost predicate IsListed(codec: Codec, allowDirty: bool, c: Contents, key: string, item: Listed) {
    && key in c.entries && Validate(codec, key, c.entries[key], false, allowDirty) == Ok(item.artifact)
    && item.artifact.entry.cacheKey == key
    && var flavor := item.artifact.entry.clientFlavor.id;
       (item.active <==> flavor in c.active && codec.pointerOf(c.active[flavor]) == Some(key))
  }

  function KeyOf(item: Listed): string {
    item.artifact.entry.cacheKey
  }

  /** Every entry once, in ascending order of its key. */
  ghost predicate IsListing(codec: Codec, allowDirty: bool, c: Contents, list: seq<Listed>) {
    && (forall i | 0 <= i < |list| :: IsListed(codec, allowDirty, c, KeyOf(list[i]), list[i]))
    && (forall i, j | 0 <= i < j < |list| :: BY_NAME(KeyOf(list[i]), KeyOf(list[j])))
    && (forall key | key in c.entries :: exists i :: 0 <= i < |list| && KeyOf(list[i]) == key)
  }

  /** Of `names`, those that are not left are listed, and are all before those that are. */
  ghost predicate ListedSoFar(codec: Codec, allowDirty: bool, c: Contents, names: set<string>, left: set<string>,
                              list: seq<Listed>)
  {
    && (forall i | 0 <= i < |list| :: IsListed(codec, allowDirty, c, KeyOf(list[i]), list[i]))
    && (forall i, j | 0 <= i < j < |list| :: BY_NAME(KeyOf(list[i]), KeyOf(list[j])))
    && (forall i, name | 0 <= i < |list| && name in left :: BY_NAME(KeyOf(list[i]), name))
    && (forall name | name in names && name !in left :: exists i :: 0 <= i < |list| && KeyOf(list[i]) == name)
  }

  lemma NothingListed(codec: Codec, allowDirty: bool, c: Contents, names: set<string>)
    ensures ListedSoFar(codec, allowDirty, c, names, names, [])
  {
  }

  lemma OneMoreListed(codec: Codec, allowDirty: bool, c: Contents, names: set<string>, left: set<string>,
                      list: seq<Listed>, name: string, item: Listed)
    requires ListedSoFar(codec, allowDirty, c, names, left, list) && IsLeast(BY_NAME, left, name)
    requires IsListed(codec, allowDirty, c, name, item)
    ensures ListedSoFar(codec, allowDirty, c, names, left - {name}, list + [item])
  {
    hide IsListed, Below;
    assert KeyOf(item) == name by { ListedKey(codec, allowDirty, c, name, item); }
    var longer := list + [item];
    forall other | other in names && other !in left - {name}
      ensures exists i :: 0 <= i < |longer| && KeyOf(longer[i]) == other
    {
      if other == name {
        assert KeyOf(longer[|list|]) == other;
      } else {
        var i :| 0 <= i < |list| && KeyOf(list[i]) == other;
        assert KeyOf(longer[i]) == other;
      }
    }
  }

  lemma ListedKey(codec: Codec, allowDirty: bool, c: Contents, key: string, item: Listed)
    requires IsListed(codec, allowDirty, c, key, item)
    ensures KeyOf(item) == key && key in c.entries
  {
  }

  /** When everything is listed, no staging directory was there: none has the name of an entry. */
  lemma AllListed(codec: Codec, allowDirty: bool, c: Contents, staging: map<nat, Staging>, names: set<string>,
                  list: seq<Listed>)
    requires names == EntryNames(c, staging)
    requires |names| <= MAX_STORED_CLIENT_FLAVORS && ListedSoFar(codec, allowDirty, c, names, {}, list)
    requires Sound(codec, allowDirty, c)
    ensures staging == map[] && |c.entries| <= MAX_STORED_CLIENT_FLAVORS && IsListing(codec, allowDirty, c, list)
  {
    hide IsListed, Below, Sound, StagingName;
    if staging != map[] {
      var n :| n in staging;
      assert StagingName(n) in names;
      var i :| 0 <= i < |list| && KeyOf(list[i]) == StagingName(n);
      ListedKey(codec, allowDirty, c, KeyOf(list[i]), list[i]);
      StagingIsNoKey(codec, allowDirty, c, n);
    }
    NothingStaged(c, staging);
  }

  lemma NothingStaged(c: Contents, staging: map<nat, Staging>)
    ensures staging == map[] ==>
      EntryNames(c, staging) == c.entries.Keys && |c.entries.Keys| == |c.entries|
  {
  }

  lemma StagingIsNoKey(codec: Codec, allowDirty: bool, c: Contents, n: nat)
    requires Sound(codec, allowDirty, c)
    ensures StagingName(n) !in c.entries
  {
    hide Validate, Eligible, StagingName, IsCacheKey;
    StartsWithDot(n);
    if StagingName(n) in c.entries {
      StartsWithLetter(StagingName(n));
      SoundEntryTells(codec, allowDirty, c, StagingName(n));
      ValidTells(codec, StagingName(n), c.entries[StagingName(n)], false, allowDirty);
    }
  }

  lemma StartsWithDot(n: nat)
    ensures StagingName(n) != "" && StagingName(n)[0] == '.'
  {
    hide Decimal;
  }

  lemma StartsWithLetter(key: string)
    ensures IsCacheKey(key) ==> key != "" && key[0] == 'c'
  {
    hide IsSha256;
  }
}
