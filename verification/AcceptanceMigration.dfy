/** The migration of an idle legacy state: copy, verify, swap, roll back.  Every filesystem call may
    fail, and the process may stop after any of them: `history` records the disk after every call,
    and also the torn states in the middle of those that are not atomic. */
module AcceptanceMigration {
  import opened Wrappers
  import opened Text
  import opened Acceptance

  /** How the next filesystem call ends; a call that rewrites a tree passes through `torn`, and
      leaves it so when it fails. */
  datatype Outcome = Outcome(works: bool, torn: Tree)

  /** `w` differs from `w0` at most in the directory `root`. */
  ghost predicate OnlyAt(w: Disk, w0: Disk, root: Root) {
    forall r | r != root :: (r in w <==> r in w0) && (r in w0 ==> w[r] == w0[r])
  }

  class Filesystem {
    var disk: Disk
    ghost var history: seq<Disk>
    ghost var faulty: bool
    var clock: nat
    const script: nat -> Outcome

    constructor (disk: Disk, script: nat -> Outcome)
      ensures this.disk == disk && history == [disk] && !faulty && this.script == script
    {
      this.disk, this.clock, this.script := disk, 0, script;
      this.history, this.faulty := [disk], false;
    }

    /** The next call of the script; `faulty` remembers that one failed. */
    method Call() returns (o: Outcome)
      modifies this`clock, this`faulty
      ensures o.works ==> faulty == old(faulty)
      ensures !o.works ==> faulty
    {
      o := script(clock);
      clock := clock + 1;
      faulty := faulty || !o.works;
    }

    /** `rename` of a directory: atomic; refused when there is nothing to rename or something in the way. */
    method Rename(from: Root, to: Root) returns (ok: bool)
      modifies this
      ensures ok ==> from in old(disk) && to !in old(disk) && disk == (old(disk) - {from})[to := old(disk)[from]]
      ensures !ok ==> disk == old(disk)
      ensures history == old(history) + [disk]
      ensures old(faulty) ==> faulty
      ensures !faulty ==> ok == (from in old(disk) && to !in old(disk))
    {
      var o := Call();
      ok := o.works && from in disk && to !in disk;
      if ok {
        disk := (disk - {from})[to := disk[from]];
      }
      history := history + [disk];
    }

    /** `create_dir_all` of a new root. */
    method MakeRoot(root: Root) returns (ok: bool)
      requires root !in disk
      modifies this
      ensures disk == if ok then old(disk)[root := map[]] else old(disk)
      ensures history == old(history) + [disk]
      ensures old(faulty) ==> faulty
      ensures !faulty ==> ok
    {
      var o := Call();
      ok := o.works;
      if ok {
        disk := disk[root := map[]];
      }
      history := history + [disk];
    }

    /** Creates a folder or copies a file inside `root`. */
    method PutNode(root: Root, path: RelPath, node: Node) returns (ok: bool)
      requires root in disk
      modifies this
      ensures root in disk && OnlyAt(disk, old(disk), root)
      ensures ok ==> disk == old(disk)[root := old(disk)[root][path := node]]
      ensures old(history) <= history
      ensures forall i | |old(history)| <= i < |history| :: OnlyAt(history[i], old(disk), root)
      ensures old(faulty) ==> faulty
      ensures !faulty ==> ok
    {
      var o := Call();
      ok := o.works;
      var tree := disk[root];
      disk := disk[root := o.torn];
      history := history + [disk];
      if ok {
        disk := disk[root := tree[path := node]];
        history := history + [disk];
      }
    }

    /** `remove_dir_all`. */
    method RemoveTree(root: Root) returns (ok: bool)
      requires root in disk
      modifies this
      ensures OnlyAt(disk, old(disk), root) && (ok ==> root !in disk)
      ensures old(history) <= history
      ensures forall i | |old(history)| <= i < |history| :: OnlyAt(history[i], old(disk), root)
      ensures old(faulty) ==> faulty
      ensures !faulty ==> ok
    {
      var o := Call();
      ok := o.works;
      disk := disk[root := o.torn];
      history := history + [disk];
      if ok {
        disk := disk - {root};
        history := history + [disk];
      }
    }
  }

  // ---------------------------------------------------------------- copying

  ghost function Below(t: Tree, dir: RelPath): set<RelPath> {
    set p | p in t && dir < p
  }

  ghost function Children(t: Tree, dir: RelPath): set<RelPath> {
    set p | p in t && |p| == |dir| + 1 && dir <= p
  }

  /** The part of the copy that lies at or below the nodes in `tops`. */
  ghost predicate UnderAny(p: RelPath, tops: set<RelPath>) {
    exists c | c in tops :: c <= p
  }

  ghost function CopyUnder(t: Tree, tops: set<RelPath>): Tree {
    map p | p in t && IsCopied(t, p) && UnderAny(p, tops) :: t[p]
  }

  ghost predicate CopyableUnder(t: Tree, tops: set<RelPath>) {
    forall p | p in t && Visited(p) && UnderAny(p, tops) :: !t[p].Symlink?
  }

  lemma {:induction false} AncestorIsFolder(t: Tree, p: RelPath, n: nat)
    requires WellFormed(t) && p in t && 0 < n < |p|
    ensures p[..n] in t && t[p[..n]].Folder?
    decreases |p|
  {
    var parent := p[..|p| - 1];
    if n < |p| - 1 {
      AncestorIsFolder(t, parent, n);
      assert parent[..n] == p[..n];
    }
  }

  lemma UnderOne(t: Tree, c: RelPath)
    ensures forall p | p in t :: UnderAny(p, {c}) <==> c <= p
  {
    assert c in {c};
  }

  lemma SkippedCopiesNothing(t: Tree, c: RelPath)
    requires c != [] && CopySkips(c)
    ensures CopyUnder(t, {c}) == map[] && CopyableUnder(t, {c})
  {
    hide CopySkips;
    UnderOne(t, c);
    forall p | p in t && c <= p
      ensures !Visited(p)
    {
      assert p[..|c|] == c;
    }
  }

  lemma VisitedChild(dir: RelPath, c: RelPath)
    requires Visited(dir) && |c| == |dir| + 1 && dir <= c && !CopySkips(c)
    ensures Visited(c)
  {
    hide CopySkips;
    forall n | 0 < n <= |c|
      ensures !CopySkips(c[..n])
    {
      if n <= |dir| {
        assert c[..n] == dir[..n];
      } else {
        assert c[..n] == c;
      }
    }
  }

  /** A node that is no folder has nothing below it. */
  lemma LeafCopies(t: Tree, c: RelPath)
    requires WellFormed(t) && c in t && !t[c].Folder? && Visited(c)
    ensures CopyUnder(t, {c}) == if t[c].File? then map[c := t[c]] else map[]
    ensures CopyableUnder(t, {c}) <==> !t[c].Symlink?
  {
    hide Visited;
    UnderOne(t, c);
    forall p | p in t && c <= p
      ensures p == c
    {
      assert p[..|c|] == c;
      if |p| > |c| {
        AncestorIsFolder(t, p, |c|);
      }
    }
  }

  lemma FolderCopies(t: Tree, c: RelPath)
    requires WellFormed(t) && c in t && t[c].Folder? && Visited(c)
    ensures CopyUnder(t, {c}) == map[c := Folder] + CopyUnder(t, Children(t, c))
    ensures CopyableUnder(t, {c}) <==> CopyableUnder(t, Children(t, c))
  {
    hide Visited;
    UnderOne(t, c);
    forall p | p in t
      ensures c <= p <==> p == c || UnderAny(p, Children(t, c))
    {
      BelowFolder(t, c, p);
    }
  }

  lemma BelowFolder(t: Tree, c: RelPath, p: RelPath)
    requires WellFormed(t) && p in t && c != []
    ensures c <= p <==> p == c || UnderAny(p, Children(t, c))
  {
    if c < p {
      if |p| > |c| + 1 {
        AncestorIsFolder(t, p, |c| + 1);
      }
      var top := p[..|c| + 1];
      assert |p| == |c| + 1 ==> top == p;
      assert top in Children(t, c) && top <= p;
    }
  }

  lemma UnderUnion(t: Tree, a: set<RelPath>, b: set<RelPath>)
    ensures CopyUnder(t, a + b) == CopyUnder(t, a) + CopyUnder(t, b)
    ensures CopyableUnder(t, a + b) <==> CopyableUnder(t, a) && CopyableUnder(t, b)
  {
    hide Visited;
    forall p | p in t
      ensures UnderAny(p, a + b) <==> UnderAny(p, a) || UnderAny(p, b)
    {
      if UnderAny(p, a) {
        var c :| c in a && c <= p;
        assert c in a + b;
      }
      if UnderAny(p, b) {
        var c :| c in b && c <= p;
        assert c in a + b;
      }
    }
  }

  lemma UnderAll(t: Tree)
    requires WellFormed(t)
    ensures CopyUnder(t, Children(t, [])) == CopyOf(t)
    ensures CopyableUnder(t, Children(t, [])) <==> Copyable(t)
  {
    hide Visited;
    forall p | p in t
      ensures UnderAny(p, Children(t, []))
    {
      if |p| > 1 {
        AncestorIsFolder(t, p, 1);
      }
      assert |p| == 1 ==> p[..1] == p;
      assert p[..1] in Children(t, []) && p[..1] <= p;
    }
  }

  /** Only `root` was touched since `from`, in every state on the way. */
  ghost predicate OnlyAtSince(history: seq<Disk>, from: nat, w0: Disk, root: Root) {
    from <= |history| && forall i | from <= i < |history| :: OnlyAt(history[i], w0, root)
  }

  lemma OnlyAtTrans(w0: Disk, w1: Disk, root: Root, history: seq<Disk>, from: nat, mid: nat)
    requires OnlyAt(w1, w0, root) && from <= mid && OnlyAtSince(history, mid, w1, root)
    requires OnlyAtSince(history[..mid], from, w0, root)
    ensures OnlyAtSince(history, from, w0, root)
  {
    forall i | from <= i < |history|
      ensures OnlyAt(history[i], w0, root)
    {
      if i < mid {
        assert history[i] == history[..mid][i];
      }
    }
  }

  lemma MapSumAssociative(a: Tree, b: Tree, c: Tree)
    ensures (a + b) + c == a + (b + c)
  {
  }

  /** What a chain of calls did to the staging tree, from `w0` and the history `h0` on: nothing else
      changed at any time, and on success the tree has gained `gain`. */
  ghost predicate Staged(w0: Disk, h0: seq<Disk>, w: Disk, h: seq<Disk>, staging: Root, gain: Tree, ok: bool) {
    && staging in w0 && staging in w && OnlyAt(w, w0, staging)
    && h0 <= h && OnlyAtSince(h, |h0|, w0, staging)
    && (ok ==> w == w0[staging := w0[staging] + gain])
  }

  lemma StagedNothing(w0: Disk, h0: seq<Disk>, staging: Root, gain: Tree, ok: bool)
    requires staging in w0 && (ok ==> gain == map[])
    ensures Staged(w0, h0, w0, h0, staging, gain, ok)
  {
    assert w0[staging] + map[] == w0[staging];
  }

  lemma StagedPut(w0: Disk, h0: seq<Disk>, w: Disk, h: seq<Disk>, staging: Root, path: RelPath, node: Node, ok: bool)
    requires staging in w0 && staging in w && OnlyAt(w, w0, staging)
    requires h0 <= h && forall i | |h0| <= i < |h| :: OnlyAt(h[i], w0, staging)
    requires ok ==> w == w0[staging := w0[staging][path := node]]
    ensures Staged(w0, h0, w, h, staging, map[path := node], ok)
  {
    assert w0[staging][path := node] == w0[staging] + map[path := node];
  }

  lemma StagedMore(w0: Disk, h0: seq<Disk>, w1: Disk, h1: seq<Disk>, w2: Disk, h2: seq<Disk>, staging: Root,
                   gain: Tree, more: Tree, ok: bool)
    requires Staged(w0, h0, w1, h1, staging, gain, true) && Staged(w1, h1, w2, h2, staging, more, ok)
    ensures Staged(w0, h0, w2, h2, staging, gain + more, ok)
  {
    hide OnlyAtSince;
    assert h2[..|h1|] == h1;
    OnlyAtTrans(w0, w1, staging, h2, |h0|, |h1|);
    MapSumAssociative(w0[staging], gain, more);
  }

  /** A staging tree that was just made holds what it gained. */
  lemma StagedFromRoot(w0: Disk, h0: seq<Disk>, w1: Disk, w: Disk, h: seq<Disk>, staging: Root, gain: Tree, ok: bool)
    requires w1 == w0[staging := map[]] && Staged(w1, h0 + [w1], w, h, staging, gain, ok)
    ensures OnlyAt(w, w0, staging) && h0 <= h && OnlyAtSince(h, |h0|, w0, staging)
    ensures ok ==> w[staging] == gain
  {
    hide OnlyAtSince;
    var h1 := h0 + [w1];
    assert h[..|h1|] == h1;
    assert OnlyAtSince(h1, |h0|, w0, staging) by { OneState(w0, h0, w1, staging); }
    OnlyAtTrans(w0, w1, staging, h, |h0|, |h1|);
    assert map[] + gain == gain;
  }

  lemma OneState(w0: Disk, h0: seq<Disk>, w1: Disk, staging: Root)
    requires OnlyAt(w1, w0, staging)
    ensures OnlyAtSince(h0 + [w1], |h0|, w0, staging)
  {
  }

  /** `copy_acceptance_tree` for one folder of the source.  When it succeeds, the staging tree has
      gained exactly the copy of what is below that folder; without a failing call it succeeds
      exactly when it meets no symbolic link. */
  method CopyTree(fs: Filesystem, t: Tree, dir: RelPath, staging: Root) returns (ok: bool)
    requires staging in fs.disk && WellFormed(t) && Visited(dir)
    modifies fs
    ensures staging in fs.disk
    ensures Staged(old(fs.disk), old(fs.history), fs.disk, fs.history, staging, CopyUnder(t, Children(t, dir)), ok)
    ensures old(fs.faulty) ==> fs.faulty
    ensures ok ==> CopyableUnder(t, Children(t, dir))
    ensures !fs.faulty && CopyableUnder(t, Children(t, dir)) ==> ok
    decreases Below(t, dir), 2
  {
    hide Visited, CopySkips, CopyUnder, CopyableUnder, Staged, WellFormed;
    ghost var all := Children(t, dir);
    ghost var w0, h0 := fs.disk, fs.history;
    StagedNothing(w0, h0, staging, CopyUnder(t, all), false);
    var listing := fs.Call();
    if !listing.works {
      return false;
    }
    var rest := set p | p in t && |p| == |dir| + 1 && dir <= p;
    NothingUnder(t, all - rest);
    StagedNothing(w0, h0, staging, CopyUnder(t, all - rest), true);
    while rest != {}
      invariant rest <= all && staging in fs.disk && (old(fs.faulty) ==> fs.faulty)
      invariant Staged(w0, h0, fs.disk, fs.history, staging, CopyUnder(t, all - rest), true)
      invariant CopyableUnder(t, all - rest)
      decreases rest
    {
      var c :| c in rest;
      ghost var done := all - rest;
      UnderUnion(t, done, {c});
      assert all == (all - {c}) + {c};
      UnderUnion(t, all - {c}, {c});
      ghost var w1, h1 := fs.disk, fs.history;
      ok := CopyNode(fs, t, dir, c, staging);
      StagedMore(w0, h0, w1, h1, fs.disk, fs.history, staging, CopyUnder(t, done), CopyUnder(t, {c}), ok);
      if !ok {
        StagedFailed(w0, h0, fs.disk, fs.history, staging, CopyUnder(t, done + {c}), CopyUnder(t, all));
        return;
      }
      rest := rest - {c};
      assert all - rest == done + {c};
    }
    assert all - rest == all;
    return true;
  }

  /** When a chain fails, what it might have gained does not matter. */
  lemma StagedFailed(w0: Disk, h0: seq<Disk>, w: Disk, h: seq<Disk>, staging: Root, gain: Tree, other: Tree)
    requires Staged(w0, h0, w, h, staging, gain, false)
    ensures Staged(w0, h0, w, h, staging, other, false)
  {
  }

  /** One entry of a folder: skipped, or copied as its kind demands. */
  method CopyNode(fs: Filesystem, t: Tree, dir: RelPath, c: RelPath, staging: Root) returns (ok: bool)
    requires staging in fs.disk && WellFormed(t) && Visited(dir) && c in Children(t, dir)
    modifies fs
    ensures staging in fs.disk
    ensures Staged(old(fs.disk), old(fs.history), fs.disk, fs.history, staging, CopyUnder(t, {c}), ok)
    ensures old(fs.faulty) ==> fs.faulty
    ensures ok ==> CopyableUnder(t, {c})
    ensures !fs.faulty && CopyableUnder(t, {c}) ==> ok
    decreases Below(t, dir), 1
  {
    hide Visited, CopySkips, CopyUnder, CopyableUnder, Staged, WellFormed;
    StagedNothing(fs.disk, fs.history, staging, CopyUnder(t, {c}), false);
    var read := fs.Call();
    if !read.works {
      return false;
    }
    if CopySkips(c) {
      SkippedCopiesNothing(t, c);
      StagedNothing(fs.disk, fs.history, staging, CopyUnder(t, {c}), true);
      return true;
    }
    VisitedChild(dir, c);
    ok := CopyVisited(fs, t, dir, c, staging);
  }

  /** One entry that is not skipped: refused, ignored, copied, or created and entered. */
  method CopyVisited(fs: Filesystem, t: Tree, dir: RelPath, c: RelPath, staging: Root) returns (ok: bool)
    requires staging in fs.disk && WellFormed(t) && Visited(c) && c in Children(t, dir)
    modifies fs
    ensures staging in fs.disk
    ensures Staged(old(fs.disk), old(fs.history), fs.disk, fs.history, staging, CopyUnder(t, {c}), ok)
    ensures old(fs.faulty) ==> fs.faulty
    ensures ok ==> CopyableUnder(t, {c})
    ensures !fs.faulty && CopyableUnder(t, {c}) ==> ok
    decreases Below(t, dir), 0
  {
    hide Visited, CopySkips, CopyUnder, CopyableUnder, Staged, WellFormed, OnlyAt;
    ghost var w0, h0 := fs.disk, fs.history;
    StagedNothing(w0, h0, staging, CopyUnder(t, {c}), false);
    if t[c].Folder? {
      FolderCopies(t, c);
      ok := fs.PutNode(staging, c, Folder);
      ghost var w1, h1 := fs.disk, fs.history;
      StagedPut(w0, h0, w1, h1, staging, c, Folder, ok);
      if !ok {
        StagedFailed(w0, h0, w1, h1, staging, map[c := Folder], CopyUnder(t, {c}));
        return;
      }
      ChildShrinks(t, dir, c);
      ok := CopyTree(fs, t, c, staging);
      StagedMore(w0, h0, w1, h1, fs.disk, fs.history, staging, map[c := Folder], CopyUnder(t, Children(t, c)), ok);
    } else {
      LeafCopies(t, c);
      if t[c].Symlink? {
        return false;
      } else if t[c].File? {
        ok := fs.PutNode(staging, c, t[c]);
        StagedPut(w0, h0, fs.disk, fs.history, staging, c, t[c], ok);
      } else {
        StagedNothing(w0, h0, staging, CopyUnder(t, {c}), true);
        return true;
      }
    }
  }

  lemma NothingUnder(t: Tree, tops: set<RelPath>)
    requires tops == {}
    ensures CopyUnder(t, tops) == map[] && CopyableUnder(t, tops)
  {
  }

  lemma ChildShrinks(t: Tree, dir: RelPath, c: RelPath)
    requires c in Children(t, dir)
    ensures Below(t, c) < Below(t, dir)
  {
    assert c in Below(t, dir) && c !in Below(t, c);
    forall p | p in Below(t, c)
      ensures p in Below(t, dir)
    {
      assert dir <= c && c < p;
      assert p[..|dir|] == c[..|dir|];
    }
  }
}
