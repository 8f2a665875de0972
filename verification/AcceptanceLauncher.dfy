/** What the launcher does with the acceptance state, and what survives whatever goes wrong. */
module AcceptanceLauncher {
  import opened Wrappers
  import opened Text
  import opened Acceptance
  import opened AcceptanceMigration

  // ---------------------------------------------------------------- the best legacy state

  predicate IsCandidate(reader: Reader, disk: Disk, root: Root) {
    && root in disk && "clew-a-" <= root.name
    && Inspect(reader, disk[root]).Ok? && Inspect(reader, disk[root]).value.Some?
    && Inspect(reader, disk[root]).value.value.deviceCount > 0
  }

  function SummaryOf(reader: Reader, disk: Disk, root: Root): Summary
    requires IsCandidate(reader, disk, root)
  {
    Inspect(reader, disk[root]).value.value
  }

  datatype Choice = Choice(root: Root, summary: Summary)

  /** A choice is a candidate with the largest device count of all that are listed and, among those of
      that count, the largest generation; there is none exactly when no listed directory is a candidate. */
  ghost predicate IsBest(reader: Reader, disk: Disk, listing: seq<Root>, best: Option<Choice>) {
    match best
    case None => forall r | r in listing :: !IsCandidate(reader, disk, r)
    case Some(c) =>
      && c.root in listing && IsCandidate(reader, disk, c.root) && c.summary == SummaryOf(reader, disk, c.root)
      && forall r | r in listing && IsCandidate(reader, disk, r) ::
           && SummaryOf(reader, disk, r).deviceCount <= c.summary.deviceCount
           && (SummaryOf(reader, disk, r).deviceCount == c.summary.deviceCount ==>
                 SummaryOf(reader, disk, r).generation <= c.summary.generation)
  }

  /** Whatever could be read, a choice is a listed candidate with its own summary. */
  ghost predicate IsChoice(reader: Reader, disk: Disk, listing: seq<Root>, best: Option<Choice>) {
    best.Some? ==>
      && best.value.root in listing && IsCandidate(reader, disk, best.value.root)
      && best.value.summary == SummaryOf(reader, disk, best.value.root)
  }

  /** `best_legacy_acceptance_state` over the listing of the temporary directory.  A listing that breaks
      off is an error; a state that cannot be read is passed over. */
  method BestLegacy(fs: Filesystem, reader: Reader, listing: seq<Root>) returns (ok: bool, best: Option<Choice>)
    modifies fs`clock, fs`faulty
    ensures old(fs.faulty) ==> fs.faulty
    ensures IsChoice(reader, fs.disk, listing, best)
    ensures !fs.faulty ==> ok && IsBest(reader, fs.disk, listing, best)
  {
    hide Inspect;
    best := None;
    var begun := fs.Call();
    if !begun.works {
      return false, best;
    }
    for i := 0 to |listing|
      invariant old(fs.faulty) ==> fs.faulty
      invariant IsChoice(reader, fs.disk, listing, best)
      invariant !fs.faulty ==> IsBest(reader, fs.disk, listing[..i], best)
    {
      var root := listing[i];
      assert listing[..i + 1] == listing[..i] + [root];
      var typed := fs.Call();
      if !typed.works {
        return false, best;
      }
      if root !in fs.disk || !(LEGACY_PREFIX <= root.name) {
        continue;
      }
      var read := fs.Call();
      if !read.works {
        continue;
      }
      var inspected := Inspect(reader, fs.disk[root]);
      if inspected.Err? || inspected.value.None? {
        continue;
      }
      var summary := inspected.value.value;
      if summary.deviceCount == 0 {
        continue;
      }
      if best.None? || summary.deviceCount > best.value.summary.deviceCount
         || (summary.deviceCount == best.value.summary.deviceCount
             && summary.generation > best.value.summary.generation) {
        best := Some(Choice(root, summary));
      }
    }
    assert listing[..|listing|] == listing;
    ok := true;
  }

  // ---------------------------------------------------------------- what is safe

  ghost predicate IsVerifiedCopy(reader: Reader, t: Tree, legacy: Tree, expected: Summary) {
    t == CopyOf(legacy) && Inspect(reader, t) == Ok(Some(expected))
  }

  /** One migration: where it works, and from what it copies. */
  datatype Job = Job(reader: Reader, stable: Root, legacy: Root, expected: Summary, staging: Root, archive: Root) {
    ghost predicate Valid(w0: Disk) {
      && stable.name == STABLE_NAME && legacy in w0 && WellFormed(w0[legacy])
      && Distinct()
      && staging !in w0 && archive !in w0
    }

    predicate Distinct() {
      && stable != legacy && stable != staging && stable != archive
      && legacy != staging && legacy != archive && staging != archive
    }

    /** The legacy tree and everything else is untouched; the old stable tree stands whole under
        exactly one name; the stable path is the old tree, absent, or a verified copy. */
    ghost predicate Safe(w: Disk, w0: Disk)
      requires legacy in w0
    {
      && (forall r | r != stable && r != staging && r != archive ::
            (r in w <==> r in w0) && (r in w0 ==> w[r] == w0[r]))
      && (if stable in w0 then
            || (stable in w && w[stable] == w0[stable] && archive !in w)
            || (archive in w && w[archive] == w0[stable] && (stable in w ==> Verified(w[stable], w0)))
          else archive !in w && (stable in w ==> Verified(w[stable], w0)))
    }

    ghost predicate Verified(t: Tree, w0: Disk)
      requires legacy in w0
    {
      IsVerifiedCopy(reader, t, w0[legacy], expected)
    }
  }

  /** The names that the launcher makes up never collide with each other or with a legacy state. */
  lemma NamesDiffer(suffix: string, suffix': string, legacy: string)
    requires LEGACY_PREFIX <= legacy
    ensures STABLE_NAME != legacy && STAGING_PREFIX + suffix != legacy && SUPERSEDED_PREFIX + suffix' != legacy
    ensures STABLE_NAME != STAGING_PREFIX + suffix && STABLE_NAME != SUPERSEDED_PREFIX + suffix'
    ensures STAGING_PREFIX + suffix != SUPERSEDED_PREFIX + suffix'
    ensures !(LEGACY_PREFIX <= STABLE_NAME) && !(LEGACY_PREFIX <= STAGING_PREFIX + suffix)
    ensures !(LEGACY_PREFIX <= SUPERSEDED_PREFIX + suffix')
  {
    assert legacy[0] == 'c' && (STAGING_PREFIX + suffix)[0] == '.' && (SUPERSEDED_PREFIX + suffix')[0] == 'C';
    assert STABLE_NAME[0] == 'C';
    assert |SUPERSEDED_PREFIX| > |STABLE_NAME|;
  }

  // ---------------------------------------------------------------- the migration

  ghost predicate SafeSince(job: Job, history: seq<Disk>, from: nat, w0: Disk)
    requires job.legacy in w0
  {
    from <= |history| && forall i | from <= i < |history| :: job.Safe(history[i], w0)
  }

  lemma StagingOnlyIsSafe(job: Job, w: Disk, w0: Disk)
    requires job.Valid(w0) && OnlyAt(w, w0, job.staging)
    ensures job.Safe(w, w0)
  {
  }

  lemma StagingHistorySafe(job: Job, history: seq<Disk>, from: nat, w1: Disk, w0: Disk)
    requires job.Valid(w0) && OnlyAt(w1, w0, job.staging) && OnlyAtSince(history, from, w1, job.staging)
    ensures SafeSince(job, history, from, w0)
  {
    forall i | from <= i < |history|
      ensures job.Safe(history[i], w0)
    {
      assert OnlyAt(history[i], w0, job.staging);
      StagingOnlyIsSafe(job, history[i], w0);
    }
  }

  lemma SafeSinceJoin(job: Job, history: seq<Disk>, from: nat, mid: nat, w0: Disk)
    requires job.legacy in w0 && from <= mid <= |history|
    requires SafeSince(job, history[..mid], from, w0) && SafeSince(job, history, mid, w0)
    ensures SafeSince(job, history, from, w0)
  {
    forall i | from <= i < |history|
      ensures job.Safe(history[i], w0)
    {
      assert i < mid ==> history[..mid][i] == history[i];
    }
  }

  lemma RootVisited()
    ensures Visited([])
  {
  }

  /** Copies the legacy tree to a new staging tree. */
  method StageTree(fs: Filesystem, job: Job) returns (ok: bool)
    requires job.Valid(fs.disk)
    modifies fs
    ensures OnlyAt(fs.disk, old(fs.disk), job.staging)
    ensures old(fs.history) <= fs.history && OnlyAtSince(fs.history, |old(fs.history)|, old(fs.disk), job.staging)
    ensures old(fs.faulty) ==> fs.faulty
    ensures ok ==> job.staging in fs.disk && fs.disk[job.staging] == CopyOf(old(fs.disk)[job.legacy])
    ensures ok ==> Copyable(old(fs.disk)[job.legacy])
    ensures !fs.faulty ==> (ok <==> Copyable(old(fs.disk)[job.legacy]))
  {
    hide Visited, CopySkips, CopyUnder, CopyableUnder, CopyOf, Copyable, Inspect, Staged, WellFormed, OnlyAtSince;
    ghost var w0, h0 := fs.disk, fs.history;
    ghost var legacy := fs.disk[job.legacy];
    ok := fs.MakeRoot(job.staging);
    assert OnlyAtSince(fs.history, |h0|, w0, job.staging) by { OneState(w0, h0, fs.disk, job.staging); }
    if !ok { return; }
    ghost var w1 := fs.disk;
    assert Visited([]) by { RootVisited(); }
    ok := CopyTree(fs, fs.disk[job.legacy], [], job.staging);
    UnderAll(legacy);
    StagedFromRoot(w0, h0, w1, fs.disk, fs.history, job.staging, CopyOf(legacy), ok);
  }

  /** Copy and verify: only the staging tree is touched, and on success it is a verified copy. */
  method Stage(fs: Filesystem, job: Job) returns (ok: bool)
    requires job.Valid(fs.disk)
    modifies fs
    ensures OnlyAt(fs.disk, old(fs.disk), job.staging)
    ensures old(fs.history) <= fs.history && OnlyAtSince(fs.history, |old(fs.history)|, old(fs.disk), job.staging)
    ensures old(fs.faulty) ==> fs.faulty
    ensures ok ==> job.staging in fs.disk && job.Verified(fs.disk[job.staging], old(fs.disk))
    ensures !fs.faulty ==>
      (ok <==> Copyable(old(fs.disk)[job.legacy])
               && Inspect(job.reader, CopyOf(old(fs.disk)[job.legacy])) == Ok(Some(job.expected)))
  {
    hide CopyOf, Copyable, Inspect, OnlyAtSince;
    ok := StageTree(fs, job);
    if !ok { return; }
    var read := fs.Call();
    if !read.works { return false; }
    var copied := Inspect(job.reader, fs.disk[job.staging]);
    ok := copied == Ok(Some(job.expected));
  }

  function Renamed(w: Disk, from: Root, to: Root): Disk
    requires from in w
  {
    (w - {from})[to := w[from]]
  }

  lemma ArchivedIsSafe(job: Job, w1: Disk, w0: Disk)
    requires job.Valid(w0) && OnlyAt(w1, w0, job.staging) && job.stable in w1
    ensures job.Safe(Renamed(w1, job.stable, job.archive), w0)
  {
    hide IsVerifiedCopy;
  }

  lemma PublishedIsSafe(job: Job, w1: Disk, w0: Disk)
    requires job.Valid(w0) && OnlyAt(w1, w0, job.staging)
    requires job.staging in w1 && job.Verified(w1[job.staging], w0)
    ensures var w := if job.stable in w1 then Renamed(w1, job.stable, job.archive) else w1;
            job.Safe(Renamed(w, job.staging, job.stable), w0)
  {
    hide IsVerifiedCopy;
  }

  lemma RolledBackIsSafe(job: Job, w1: Disk, w0: Disk)
    requires job.Valid(w0) && OnlyAt(w1, w0, job.staging) && job.stable in w1
    ensures var back := Renamed(Renamed(w1, job.stable, job.archive), job.archive, job.stable);
            back == w1 && job.Safe(back, w0)
  {
    hide IsVerifiedCopy;
    assert Renamed(Renamed(w1, job.stable, job.archive), job.archive, job.stable) == w1;
    StagingOnlyIsSafe(job, w1, w0);
  }

  /** Swap the verified copy in: archive the old tree, rename the copy, roll back if that fails. */
  method Swap(fs: Filesystem, job: Job, ghost w0: Disk) returns (ok: bool)
    requires job.Valid(w0) && OnlyAt(fs.disk, w0, job.staging)
    requires job.staging in fs.disk && job.Verified(fs.disk[job.staging], w0)
    modifies fs
    ensures old(fs.history) <= fs.history && SafeSince(job, fs.history, |old(fs.history)|, w0)
    ensures job.Safe(fs.disk, w0)
    ensures old(fs.faulty) ==> fs.faulty
    ensures ok ==> job.stable in fs.disk && job.Verified(fs.disk[job.stable], w0) && job.staging !in fs.disk
    ensures !fs.faulty ==> ok
  {
    hide IsVerifiedCopy, Job.Safe, Job.Verified;
    ghost var w1 := fs.disk;
    StagingOnlyIsSafe(job, w1, w0);
    PublishedIsSafe(job, w1, w0);
    var probe := fs.Call();
    var archived := probe.works && job.stable in fs.disk;
    if archived {
      ArchivedIsSafe(job, w1, w0);
      RolledBackIsSafe(job, w1, w0);
      ok := fs.Rename(job.stable, job.archive);
      if !ok { return; }
      assert fs.disk == Renamed(w1, job.stable, job.archive);
    }
    ok := fs.Rename(job.staging, job.stable);
    if !ok && archived {
      var restored := fs.Rename(job.archive, job.stable);
    }
  }

  /** `migrate_idle_legacy_acceptance_state`.  At every moment, failed or stopped, the state is
      safe; without a failing call it succeeds exactly when the legacy tree can be copied and the
      copy still says what was expected, and otherwise it changes nothing. */
  method Migrate(fs: Filesystem, job: Job) returns (ok: bool)
    requires job.Valid(fs.disk)
    modifies fs
    ensures old(fs.history) <= fs.history && SafeSince(job, fs.history, |old(fs.history)|, old(fs.disk))
    ensures job.Safe(fs.disk, old(fs.disk))
    ensures old(fs.faulty) ==> fs.faulty
    ensures ok ==> job.stable in fs.disk && job.Verified(fs.disk[job.stable], old(fs.disk)) && job.staging !in fs.disk
    ensures !fs.faulty ==>
      (ok <==> Copyable(old(fs.disk)[job.legacy])
               && Inspect(job.reader, CopyOf(old(fs.disk)[job.legacy])) == Ok(Some(job.expected)))
    ensures !fs.faulty && !ok ==> fs.disk == old(fs.disk)
  {
    hide IsVerifiedCopy, Copyable, Job.Safe, Job.Verified, SafeSince;
    ghost var w0 := fs.disk;
    ok := Stage(fs, job);
    StagingHistorySafe(job, fs.history, |old(fs.history)|, w0, w0);
    StagingOnlyIsSafe(job, fs.disk, w0);
    ghost var h1 := fs.history;
    if ok {
      ok := Swap(fs, job, w0);
      assert fs.history[..|h1|] == h1;
      SafeSinceJoin(job, fs.history, |old(fs.history)|, |h1|, w0);
    }
    ghost var h2 := fs.history;
    CleanUp(fs, job, w0);
    assert fs.history[..|h2|] == h2;
    SafeSinceJoin(job, fs.history, |old(fs.history)|, |h2|, w0);
  }

  /** The staging tree is removed, if it is still there. */
  method CleanUp(fs: Filesystem, job: Job, ghost w0: Disk)
    requires job.Valid(w0) && job.Safe(fs.disk, w0)
    modifies fs
    ensures old(fs.history) <= fs.history && SafeSince(job, fs.history, |old(fs.history)|, w0)
    ensures job.Safe(fs.disk, w0)
    ensures old(fs.faulty) ==> fs.faulty
    ensures OnlyAt(fs.disk, old(fs.disk), job.staging)
    ensures job.staging !in old(fs.disk) ==> fs.disk == old(fs.disk)
    ensures !fs.faulty ==> job.staging !in fs.disk
    ensures !fs.faulty && OnlyAt(old(fs.disk), w0, job.staging) ==> fs.disk == w0
  {
    hide Job.Safe, IsVerifiedCopy;
    var probe := fs.Call();
    if probe.works {
      RemoveStagingTree(fs, job, w0);
    }
  }

  method RemoveStagingTree(fs: Filesystem, job: Job, ghost w0: Disk)
    requires job.Valid(w0) && job.Safe(fs.disk, w0)
    modifies fs
    ensures old(fs.history) <= fs.history && SafeSince(job, fs.history, |old(fs.history)|, w0)
    ensures job.Safe(fs.disk, w0)
    ensures old(fs.faulty) ==> fs.faulty
    ensures OnlyAt(fs.disk, old(fs.disk), job.staging)
    ensures job.staging !in old(fs.disk) ==> fs.disk == old(fs.disk)
    ensures !fs.faulty ==> job.staging !in fs.disk
    ensures !fs.faulty && OnlyAt(old(fs.disk), w0, job.staging) ==> fs.disk == w0
  {
    hide IsVerifiedCopy, Job.Safe, Job.Verified;
    if job.staging in fs.disk {
      ghost var w2, h2 := fs.disk, fs.history;
      var removed := fs.RemoveTree(job.staging);
      SafeWithoutStaging(job, fs.history, |h2|, w2, w0);
      SafeOtherStaging(job, fs.disk, w2, w0);
    }
  }

  lemma SafeOtherStaging(job: Job, w: Disk, w2: Disk, w0: Disk)
    requires job.Valid(w0) && job.Safe(w2, w0) && OnlyAt(w, w2, job.staging)
    ensures job.Safe(w, w0)
  {
    hide IsVerifiedCopy;
  }

  lemma SafeWithoutStaging(job: Job, history: seq<Disk>, from: nat, w2: Disk, w0: Disk)
    requires job.Valid(w0) && job.Safe(w2, w0) && from <= |history|
    requires forall i | from <= i < |history| :: OnlyAt(history[i], w2, job.staging)
    ensures SafeSince(job, history, from, w0)
  {
    forall i | from <= i < |history|
      ensures job.Safe(history[i], w0)
    {
      SafeOtherStaging(job, history[i], w2, w0);
    }
  }

  // ---------------------------------------------------------------- a launch

  predicate Enrolled(reader: Reader, disk: Disk, root: Root) {
    var inspected := InspectRoot(reader, disk, root);
    inspected.Ok? && inspected.value.Some? && inspected.value.value.deviceCount > 0
  }

  function JobFor(reader: Reader, stable: Root, best: Choice, suffix: string, suffix': string): Job {
    Job(reader, stable, best.root, best.summary,
        Root(stable.parent, STAGING_PREFIX + suffix), Root(stable.parent, SUPERSEDED_PREFIX + suffix'))
  }

  /** The launcher's fixed setting: the names it makes up are new, and trees are trees. */
  ghost predicate Setting(disk: Disk, stable: Root, suffix: string, suffix': string) {
    && stable.name == STABLE_NAME
    && Root(stable.parent, STAGING_PREFIX + suffix) !in disk
    && Root(stable.parent, SUPERSEDED_PREFIX + suffix') !in disk
    && forall r | r in disk :: WellFormed(disk[r])
  }

  lemma JobIsValid(reader: Reader, disk: Disk, stable: Root, best: Choice, suffix: string, suffix': string)
    requires Setting(disk, stable, suffix, suffix') && IsCandidate(reader, disk, best.root)
    ensures JobFor(reader, stable, best, suffix, suffix').Valid(disk)
  {
    hide WellFormed;
    NamesDiffer(suffix, suffix', best.root.name);
  }

  datatype Launch = Use(root: Root) | Broken

  /** `prepare_local_acceptance_state`.  An enrolled stable state is used as it is.  A busy state is
      never renamed: the best legacy state is used in place.  Otherwise the best legacy state is
      migrated, and every state on the way is safe.  `best` is what was found when it was looked for. */
  method Prepare(fs: Filesystem, reader: Reader, stable: Root, listing: seq<Root>, busy: Root -> bool,
                 suffix: string, suffix': string) returns (r: Launch, ghost best: Option<Choice>)
    requires Enrolled(reader, fs.disk, stable) || Setting(fs.disk, stable, suffix, suffix')
    modifies fs
    ensures old(fs.history) <= fs.history && (old(fs.faulty) ==> fs.faulty)
    ensures best.None? ==> fs.disk == old(fs.disk) && fs.history == old(fs.history)
    ensures best.Some? ==> InspectRoot(reader, old(fs.disk), stable).Ok? && !Enrolled(reader, old(fs.disk), stable)
    ensures InspectRoot(reader, old(fs.disk), stable).Err? ==> r == Broken
    ensures Enrolled(reader, old(fs.disk), stable) && !fs.faulty ==> r == Use(stable)
    ensures IsChoice(reader, old(fs.disk), listing, best)
    ensures InspectRoot(reader, old(fs.disk), stable).Ok? && !Enrolled(reader, old(fs.disk), stable) && !fs.faulty ==>
      IsBest(reader, old(fs.disk), listing, best) && (best.None? ==> r == Use(stable))
    ensures best.Some? && (busy(stable) || busy(best.value.root)) ==>
      && fs.disk == old(fs.disk) && fs.history == old(fs.history)
      && (r == Use(best.value.root) || (fs.faulty && r == Broken))
    ensures best.Some? ==>
      var job := JobFor(reader, stable, best.value, suffix, suffix');
      && job.Valid(old(fs.disk))
      && job.Safe(fs.disk, old(fs.disk))
      && SafeSince(job, fs.history, |old(fs.history)|, old(fs.disk))
    ensures best.Some? && !busy(stable) && !busy(best.value.root) ==>
      && (r == Use(stable) ==> InspectRoot(reader, fs.disk, stable) == Ok(Some(best.value.summary)))
      && (!fs.faulty ==>
            if Copyable(old(fs.disk)[best.value.root])
               && Inspect(reader, CopyOf(old(fs.disk)[best.value.root])) == Ok(Some(best.value.summary))
            then r == Use(stable) else r == Broken && fs.disk == old(fs.disk))
  {
    hide Copyable, CopyOf, WellFormed;
    best := None;
    var read := fs.Call();
    if !read.works {
      return Broken, best;
    }
    var inspected := InspectRoot(reader, fs.disk, stable);
    if inspected.Err? {
      return Broken, best;
    }
    if inspected.value.Some? && inspected.value.value.deviceCount > 0 {
      return Use(stable), best;
    }
    var listed, chosen := BestLegacy(fs, reader, listing);
    if !listed {
      return Broken, best;
    }
    if chosen.None? {
      return Use(stable), best;
    }
    best := chosen;
    ghost var w0 := fs.disk;
    JobIsValid(reader, fs.disk, stable, chosen.value, suffix, suffix');
    StagingOnlyIsSafe(JobFor(reader, stable, chosen.value, suffix, suffix'), w0, w0);
    var probe := fs.Call();
    if !probe.works {
      return Broken, best;
    }
    if busy(stable) {
      return Use(chosen.value.root), best;
    }
    probe := fs.Call();
    if !probe.works {
      return Broken, best;
    }
    if busy(chosen.value.root) {
      return Use(chosen.value.root), best;
    }
    var ok := Migrate(fs, JobFor(reader, stable, chosen.value, suffix, suffix'));
    r := if ok then Use(stable) else Broken;
  }

  // ---------------------------------------------------------------- convergence

  /** The listing of the temporary directory. */
  ghost predicate Lists(listing: seq<Root>, disk: Disk, temp: string) {
    && (forall r | r in listing :: r.parent == temp)
    && (forall r | r in disk && r.parent == temp :: r in listing)
  }

  /** The legacy candidates are the same in every safe state. */
  lemma CandidatesSurvive(job: Job, w: Disk, w0: Disk, suffix: string, suffix': string, r: Root)
    requires job.Valid(w0) && job.Safe(w, w0) && LEGACY_PREFIX <= job.legacy.name
    requires job.staging.name == STAGING_PREFIX + suffix && job.archive.name == SUPERSEDED_PREFIX + suffix'
    ensures IsCandidate(job.reader, w, r) <==> IsCandidate(job.reader, w0, r)
    ensures IsCandidate(job.reader, w0, r) ==> SummaryOf(job.reader, w, r) == SummaryOf(job.reader, w0, r)
  {
    hide IsVerifiedCopy, Inspect;
    if LEGACY_PREFIX <= r.name {
      NamesDiffer(suffix, suffix', r.name);
    }
  }

  /** Whatever a migration leaves behind, the stable path says nothing of devices, or it is the
      verified copy. */
  lemma StableInSafeState(job: Job, w: Disk, w0: Disk)
    requires job.Valid(w0) && job.Safe(w, w0) && job.expected.deviceCount > 0
    requires InspectRoot(job.reader, w0, job.stable).Ok? && !Enrolled(job.reader, w0, job.stable)
    ensures InspectRoot(job.reader, w, job.stable).Ok?
    ensures Enrolled(job.reader, w, job.stable) ==> InspectRoot(job.reader, w, job.stable) == Ok(Some(job.expected))
  {
    hide Inspect;
  }

  /** Two best choices from the same candidates agree on device count and generation. */
  lemma BestAgree(reader: Reader, w: Disk, w0: Disk, temp: string, listing: seq<Root>, listing0: seq<Root>,
                  best: Option<Choice>, best0: Choice)
    requires IsBest(reader, w, listing, best) && IsBest(reader, w0, listing0, Some(best0))
    requires Lists(listing, w, temp) && Lists(listing0, w0, temp)
    requires forall r :: IsCandidate(reader, w, r) <==> IsCandidate(reader, w0, r)
    requires forall r | IsCandidate(reader, w0, r) :: SummaryOf(reader, w, r) == SummaryOf(reader, w0, r)
    ensures best.Some?
    ensures best.value.summary.deviceCount == best0.summary.deviceCount
    ensures best.value.summary.generation == best0.summary.generation
  {
    hide IsCandidate, SummaryOf;
    CandidateExists(reader, w, best0.root);
    assert best0.root in listing;
    var c := best.value;
    CandidateExists(reader, w0, c.root);
    assert SummaryOf(reader, w, best0.root).deviceCount <= c.summary.deviceCount;
    assert SummaryOf(reader, w0, c.root).deviceCount <= best0.summary.deviceCount;
  }

  lemma CandidateExists(reader: Reader, w: Disk, r: Root)
    ensures IsCandidate(reader, w, r) ==> r in w
  {
  }

  /** A candidate's tree is the same in every safe state. */
  lemma CandidateTreeSurvives(job: Job, w: Disk, w0: Disk, suffix: string, suffix': string, r: Root)
    requires job.Valid(w0) && job.Safe(w, w0) && IsCandidate(job.reader, w0, r)
    requires job.staging.name == STAGING_PREFIX + suffix && job.archive.name == SUPERSEDED_PREFIX + suffix'
    ensures r in w && w[r] == w0[r]
  {
    hide IsVerifiedCopy, Inspect;
    NamesDiffer(suffix, suffix', r.name);
  }

  /** After a migration has been stopped, the next launch finds an equally good legacy state, and can
      copy it. */
  lemma BestAfterStop(job: Job, w: Disk, w0: Disk, suffix: string, suffix': string, temp: string,
                      listing: seq<Root>, listing0: seq<Root>, best: Option<Choice>)
    requires job.Valid(w0) && job.Safe(w, w0)
    requires job.staging.name == STAGING_PREFIX + suffix && job.archive.name == SUPERSEDED_PREFIX + suffix'
    requires IsBest(job.reader, w0, listing0, Some(Choice(job.legacy, job.expected)))
    requires IsBest(job.reader, w, listing, best)
    requires Lists(listing0, w0, temp) && Lists(listing, w, temp)
    requires forall r | IsCandidate(job.reader, w0, r)
                        && SummaryOf(job.reader, w0, r).deviceCount == job.expected.deviceCount
                        && SummaryOf(job.reader, w0, r).generation == job.expected.generation ::
      Copyable(w0[r]) && Inspect(job.reader, CopyOf(w0[r])) == Inspect(job.reader, w0[r])
    ensures best.Some? && best.value.root in w
    ensures best.value.summary.deviceCount == job.expected.deviceCount > 0
    ensures best.value.summary.generation == job.expected.generation
    ensures Copyable(w[best.value.root])
    ensures Inspect(job.reader, CopyOf(w[best.value.root])) == Ok(Some(best.value.summary))
  {
    hide Inspect, Copyable, CopyOf, Job.Safe, Job.Valid, Lists;
    assert LEGACY_PREFIX <= job.legacy.name;
    forall r
      ensures IsCandidate(job.reader, w, r) <==> IsCandidate(job.reader, w0, r)
      ensures IsCandidate(job.reader, w0, r) ==> SummaryOf(job.reader, w, r) == SummaryOf(job.reader, w0, r)
    {
      CandidatesSurvive(job, w, w0, suffix, suffix', r);
    }
    BestAgree(job.reader, w, w0, temp, listing, listing0, best, Choice(job.legacy, job.expected));
    CandidateTreeSurvives(job, w, w0, suffix, suffix', best.value.root);
  }

  lemma ChoiceIsLargest(job: Job, w0: Disk, listing0: seq<Root>)
    requires IsBest(job.reader, w0, listing0, Some(Choice(job.legacy, job.expected)))
    ensures forall r | r in listing0 && IsCandidate(job.reader, w0, r) ::
      && SummaryOf(job.reader, w0, r).deviceCount <= job.expected.deviceCount
      && (SummaryOf(job.reader, w0, r).deviceCount == job.expected.deviceCount ==>
            SummaryOf(job.reader, w0, r).generation <= job.expected.generation)
  {
  }

  lemma ChoiceHasDevices(job: Job, w0: Disk, listing0: seq<Root>)
    requires IsBest(job.reader, w0, listing0, Some(Choice(job.legacy, job.expected)))
    ensures job.expected.deviceCount > 0
  {
  }

  /** What a launch made of the stable path. */
  ghost predicate Carries(reader: Reader, disk: Disk, stable: Root, deviceCount: nat, generation: u64) {
    var inspected := InspectRoot(reader, disk, stable);
    && inspected.Ok? && inspected.value.Some?
    && inspected.value.value.deviceCount == deviceCount && inspected.value.value.generation == generation
  }

  /** Convergence.  Start from any state that a migration can leave behind, stopped or failed; launch
      while nothing is busy and no call fails.  Provided the best candidates can be copied and
      their copies say what the originals say, the launch uses a stable state that carries the largest device count
      and, among those, the largest generation; and launching again, whatever is busy or listed by
      then, uses it too and changes nothing. */
  method RelaunchAfterStop(fs: Filesystem, ghost job: Job, ghost w0: Disk, ghost listing0: seq<Root>,
                           reader: Reader, stable: Root, listing: seq<Root>, suffix: string, suffix': string,
                           later: seq<Root>, busy: Root -> bool)
    returns (first: Launch, second: Launch, ghost between: Disk)
    requires job.Valid(w0) && job.reader == reader && job.stable == stable
    requires exists s, s' :: job.staging.name == STAGING_PREFIX + s && job.archive.name == SUPERSEDED_PREFIX + s'
    requires IsBest(reader, w0, listing0, Some(Choice(job.legacy, job.expected)))
    requires InspectRoot(reader, w0, stable).Ok? && !Enrolled(reader, w0, stable)
    requires job.Safe(fs.disk, w0) && Setting(fs.disk, stable, suffix, suffix')
    requires exists temp :: Lists(listing0, w0, temp) && Lists(listing, fs.disk, temp)
    requires forall r | IsCandidate(reader, w0, r)
                        && SummaryOf(reader, w0, r).deviceCount == job.expected.deviceCount
                        && SummaryOf(reader, w0, r).generation == job.expected.generation ::
      Copyable(w0[r]) && Inspect(reader, CopyOf(w0[r])) == Inspect(reader, w0[r])
    modifies fs
    ensures !fs.faulty ==>
      && first == Use(stable) && Carries(reader, between, stable, job.expected.deviceCount, job.expected.generation)
      && second == Use(stable) && fs.disk == between
    ensures forall r | r in listing0 && IsCandidate(reader, w0, r) ::
      && SummaryOf(reader, w0, r).deviceCount <= job.expected.deviceCount
      && (SummaryOf(reader, w0, r).deviceCount == job.expected.deviceCount ==>
            SummaryOf(reader, w0, r).generation <= job.expected.generation)
  {
    hide Inspect, Copyable, CopyOf, Setting, Lists, IsBest, Job.Safe, Job.Valid, SafeSince, IsCandidate;
    ghost var w := fs.disk;
    ghost var s, s' :| job.staging.name == STAGING_PREFIX + s && job.archive.name == SUPERSEDED_PREFIX + s';
    ghost var temp :| Lists(listing0, w0, temp) && Lists(listing, fs.disk, temp);
    ghost var best;
    first, best := Prepare(fs, reader, stable, listing, _ => false, suffix, suffix');
    ChoiceHasDevices(job, w0, listing0);
    ChoiceIsLargest(job, w0, listing0);
    StableInSafeState(job, w, w0);
    if !fs.faulty && !Enrolled(reader, w, stable) {
      BestAfterStop(job, w, w0, s, s', temp, listing, listing0, best);
    }
    between := fs.disk;
    second := Broken;
    if Enrolled(reader, fs.disk, stable) {
      ghost var again;
      second, again := Prepare(fs, reader, stable, later, busy, suffix, suffix');
    }
  }
}
