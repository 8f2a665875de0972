/** Properties of whole runs of the forward service: every interleaving of any number of
    concurrent Open, Exchange and Close requests, with every outcome of the network. */
module ForwardRuns {
  import opened Wrappers
  import opened Text
  import opened Forward
  import opened ForwardInvariant

  ghost predicate Run(states: seq<State>, events: seq<Event>, capacity: nat) {
    && |states| == |events| + 1
    && states[0] == Initial(capacity)
    && forall i | 0 <= i < |events| :: Step(states[i], events[i]) == Some(states[i + 1])
  }

  /** A run goes on with any event that is possible where it has come to. */
  lemma RunGrows(states: seq<State>, events: seq<Event>, capacity: nat, e: Event, next: State)
    requires Run(states, events, capacity) && Step(states[|events|], e) == Some(next)
    ensures Run(states + [next], events + [e], capacity)
  {
    hide Step;
  }

  lemma {:induction false} ReachableInv(states: seq<State>, events: seq<Event>, capacity: nat, n: nat)
    requires Run(states, events, capacity) && n < |states|
    ensures Inv(states[n], capacity)
  {
    hide Step, Inv;
    if n == 0 {
      InitialInv(capacity);
    } else {
      ReachableInv(states, events, capacity, n - 1);
      assert Step(states[n - 1], events[n - 1]) == Some(states[n - 1 + 1]);
      StepKeepsInv(states[n - 1], events[n - 1], capacity);
    }
  }

  lemma TasksFitReachable(states: seq<State>, events: seq<Event>, capacity: nat, n: nat)
    requires Run(states, events, capacity) && n < |states|
    ensures TasksFit(states[n].tasks)
  {
    hide Step;
    ReachableInv(states, events, capacity, n);
  }

  /** In every reachable state each permit is free, owned by an Open that is under way, or owned by
      a table entry; so entries and connecting requests together never exceed the capacity. */
  lemma CapacityConserved(states: seq<State>, events: seq<Event>, capacity: nat, n: nat)
    requires Run(states, events, capacity) && n < |states|
    ensures states[n].freePermits + |PermitHolders(states[n].tasks)| + |states[n].connections| == capacity
    ensures forall t | t in PermitHolders(states[n].tasks) :: states[n].tasks[t].request.Open?
    ensures |states[n].connections| <= capacity
  {
    ReachableInv(states, events, capacity, n);
  }

  /** A request is told `Capacity` only when every permit is in use. */
  lemma CapacityReplyMeansFull(states: seq<State>, events: seq<Event>, capacity: nat, n: nat)
    requires Run(states, events, capacity) && n < |events|
    requires events[n].task in states[n + 1].tasks && events[n].task in states[n].tasks
    requires states[n + 1].tasks[events[n].task].pc == Replied(Error(Capacity))
    requires states[n].tasks[events[n].task].pc.Acquiring?
    ensures |PermitHolders(states[n].tasks)| + |states[n].connections| == capacity
  {
    hide Structure;
    ReachableInv(states, events, capacity, n);
    TasksFitReachable(states, events, capacity, n);
    assert TaskFits(states[n].tasks[events[n].task]);
  }

  // ---------------------------------------------------------------- the table between two moments

  /** One step binds an absent id, removes a bound one, or leaves the table alone. */
  lemma TableStep(s: State, e: Event)
    requires TasksFit(s.tasks) && Step(s, e).Some?
    ensures var s' := Step(s, e).value;
            forall c | c in s.connections && c in s'.connections :: s'.connections[c] == s.connections[c]
    ensures var s' := Step(s, e).value;
            forall c | c in s.connections && c !in s'.connections ::
              e.Remove? && e.task in s.tasks && s.tasks[e.task].request == Close(c)
  {
  }

  /** A bound id keeps its forward, its destination and its io object until it is unbound. */
  lemma {:induction false} BindingStable(states: seq<State>, events: seq<Event>, capacity: nat,
                                         c: ConnectionId, i: nat, j: nat)
    requires Run(states, events, capacity) && i <= j < |states|
    requires forall m | i <= m <= j :: c in states[m].connections
    ensures states[j].connections[c] == states[i].connections[c]
  {
    hide Step;
    if i < j {
      BindingStable(states, events, capacity, c, i, j - 1);
      TasksFitReachable(states, events, capacity, j - 1);
      assert Step(states[j - 1], events[j - 1]) == Some(states[j - 1 + 1]);
      TableStep(states[j - 1], events[j - 1]);
    }
  }

  /** Only a Close of that very id unbinds it. */
  lemma {:induction false} OnlyCloseUnbinds(states: seq<State>, events: seq<Event>, capacity: nat,
                                            c: ConnectionId, i: nat, j: nat) returns (m: nat)
    requires Run(states, events, capacity) && i <= j < |states|
    requires c in states[i].connections && c !in states[j].connections
    ensures i <= m < j && events[m].Remove? && events[m].task in states[m].tasks
    ensures states[m].tasks[events[m].task].request == Close(c)
  {
    hide Step;
    if c !in states[j - 1].connections {
      m := OnlyCloseUnbinds(states, events, capacity, c, i, j - 1);
    } else {
      m := j - 1;
      TasksFitReachable(states, events, capacity, j - 1);
      assert Step(states[j - 1], events[j - 1]) == Some(states[j - 1 + 1]);
      TableStep(states[j - 1], events[j - 1]);
    }
  }

  // ---------------------------------------------------------------- refinement of an atomic table

  /** What has been decided about a request: its reply, or the io object an Exchange will use. */
  datatype Verdict = Answered(reply: Reply) | Uses(cell: CellId)

  function VerdictOf(pc: Pc): Option<Verdict> {
    match pc
    case Replied(reply) => Some(Answered(reply))
    case Yielding(pending) => Some(Answered(pending))
    case AwaitingIo(k) => Some(Uses(k))
    case Writing(k, _) => Some(Uses(k))
    case HalfClosing(k) => Some(Uses(k))
    case Reading(k) => Some(Uses(k))
    case _ => None
  }

  function VerdictIn(s: State, t: TaskId): Option<Verdict> {
    if t in s.tasks then VerdictOf(s.tasks[t].pc) else None
  }

  /** The moment at which a request takes effect; `cell` is the io object now bound to its id. */
  datatype Commit = Commit(task: TaskId, request: Request, verdict: Verdict, cell: Option<CellId>)

  function BoundCell(s: State, c: ConnectionId): Option<CellId> {
    if c in s.connections then Some(s.connections[c].cell) else None
  }

  function CommitOf(s: State, e: Event): (commits: seq<Commit>)
    ensures |commits| <= 1
  {
    match Step(s, e)
    case None => []
    case Some(s') =>
      if VerdictIn(s, e.task).None? && VerdictIn(s', e.task).Some?
      then [Commit(e.task, s'.tasks[e.task].request, VerdictIn(s', e.task).value,
                   BoundCell(s', s'.tasks[e.task].request.connectionId))]
      else []
  }

  /** The atomic table: what one request, run alone, may answer and do to the table. */
  function Apply(table: Connections, commit: Commit): Option<Connections> {
    var c := commit.request.connectionId;
    match (commit.request, commit.verdict)
    case (Open(f, _, d, _), Answered(Opened(id))) =>
      if id != c then None
      else if c in table then
        if table[c].forwardId == f && table[c].destination == d then Some(table) else None
      else if commit.cell.None? then None
      else Some(table[c := Entry(f, d, commit.cell.value)])
    case (Open(f, _, d, _), Answered(Error(InvalidRequest))) =>
      if !commit.request.Valid() || (c in table && (table[c].forwardId != f || table[c].destination != d))
      then Some(table) else None
    case (Open(_, _, _, _), Answered(Error(code))) =>
      if code == NotFound || code == Io then None else Some(table)
    case (Exchange(_, _, _, _, _), Uses(k)) => if c in table && table[c].cell == k then Some(table) else None
    case (Close(_), Answered(Closed(id))) => if id == c && c in table then Some(table - {c}) else None
    case (_, Answered(Error(NotFound))) => if c in table then None else Some(table)
    case (_, Answered(Error(InvalidRequest))) => if commit.request.Valid() then None else Some(table)
    case (_, Answered(Error(Denied))) => Some(table)
    case _ => None
  }

  function Replay(commits: seq<Commit>): Option<Connections> {
    if commits == [] then Some(map[])
    else match Replay(commits[..|commits| - 1])
      case None => None
      case Some(table) => Apply(table, commits[|commits| - 1])
  }

  /** The commits of the first `n` events of a run, in the order in which they happened. */
  ghost function Commits(states: seq<State>, events: seq<Event>, n: nat): seq<Commit>
    requires n <= |events| < |states|
  {
    if n == 0 then [] else Commits(states, events, n - 1) + CommitOf(states[n - 1], events[n - 1])
  }

  /** One step of an Open, as the atomic table sees it. */
  lemma OpenCommits(s: State, e: Event)
    requires TasksFit(s.tasks) && Step(s, e).Some? && !e.Arrive? && !e.Cancel? && s.tasks[e.task].request.Open?
    ensures var s', commits := Step(s, e).value, CommitOf(s, e);
            if commits == [] then s'.connections == s.connections
            else Apply(s.connections, commits[0]) == Some(s'.connections)
  {
    assert TaskFits(s.tasks[e.task]);
  }

  lemma ExchangeCommits(s: State, e: Event)
    requires TasksFit(s.tasks) && Step(s, e).Some? && !e.Arrive? && !e.Cancel? && s.tasks[e.task].request.Exchange?
    ensures var s', commits := Step(s, e).value, CommitOf(s, e);
            if commits == [] then s'.connections == s.connections
            else Apply(s.connections, commits[0]) == Some(s'.connections)
  {
    assert TaskFits(s.tasks[e.task]);
  }

  lemma CloseCommits(s: State, e: Event)
    requires TasksFit(s.tasks) && Step(s, e).Some? && !e.Arrive? && !e.Cancel? && s.tasks[e.task].request.Close?
    ensures var s', commits := Step(s, e).value, CommitOf(s, e);
            if commits == [] then s'.connections == s.connections
            else Apply(s.connections, commits[0]) == Some(s'.connections)
  {
  }

  lemma ArriveCommits(s: State, e: Event)
    requires Step(s, e).Some? && (e.Arrive? || e.Cancel?)
    ensures var s', commits := Step(s, e).value, CommitOf(s, e);
            && s'.connections == s.connections
            && (commits == [] || Apply(s.connections, commits[0]) == Some(s.connections))
  {
    hide Destination.Valid, BreakLastTurn;
    if e.Cancel? {
      CancelVerdictOnly(s, e);
    }
  }

  lemma CancelVerdictOnly(s: State, e: Event)
    requires e.task in s.tasks && StepCancel(s, e.task).Some?
    ensures VerdictIn(StepCancel(s, e.task).value, e.task) == None
    ensures StepCancel(s, e.task).value.connections == s.connections
  {
    hide BreakLastTurn;
  }

  lemma StepCommits(s: State, e: Event)
    requires TasksFit(s.tasks) && Step(s, e).Some?
    ensures var s', commits := Step(s, e).value, CommitOf(s, e);
            if commits == [] then s'.connections == s.connections
            else Apply(s.connections, commits[0]) == Some(s'.connections)
  {
    hide Apply, CommitOf, StepOpen, StepExchange, StepClose, StepCancel;
    if e.Arrive? || e.Cancel? {
      ArriveCommits(s, e);
    } else {
      match s.tasks[e.task].request
      case Open(_, _, _, _) => OpenCommits(s, e);
      case Exchange(_, _, _, _, _) => ExchangeCommits(s, e);
      case Close(_) => CloseCommits(s, e);
    }
  }

  /** Every interleaving refines the atomic table: the requests, taken one at a time at the moments
      their verdicts were fixed, are legal for the atomic table and build exactly this table. */
  lemma {:induction false} RefinesAtomicTable(states: seq<State>, events: seq<Event>, capacity: nat, n: nat)
    requires Run(states, events, capacity) && n < |states|
    ensures Replay(Commits(states, events, n)) == Some(states[n].connections)
  {
    hide Step, Apply, CommitOf;
    if n > 0 {
      RefinesAtomicTable(states, events, capacity, n - 1);
      TasksFitReachable(states, events, capacity, n - 1);
      assert Step(states[n - 1], events[n - 1]) == Some(states[n - 1 + 1]);
      StepCommits(states[n - 1], events[n - 1]);
      var before, last := Commits(states, events, n - 1), CommitOf(states[n - 1], events[n - 1]);
      if last == [] {
        assert before + last == before;
      } else {
        assert (before + last)[..|before|] == before;
      }
    }
  }

  // ---------------------------------------------------------------- one commit per request

  /** A commit is the request of its task, and its verdict is the one the task goes on to report. */
  ghost predicate CommitFits(s: State, commit: Commit) {
    && commit.task in s.tasks && s.tasks[commit.task].request == commit.request
    && var now := VerdictOf(s.tasks[commit.task].pc);
       match commit.verdict
       case Answered(_) => now == Some(commit.verdict)
       case Uses(_) =>
         now == Some(commit.verdict) || s.tasks[commit.task].pc.Replied? || s.tasks[commit.task].pc.Dropped?
  }

  ghost predicate CommitsFit(s: State, commits: seq<Commit>) {
    && (forall i | 0 <= i < |commits| :: CommitFits(s, commits[i]))
    && (forall i, j | 0 <= i < j < |commits| :: commits[i].task != commits[j].task)
    && (forall t | VerdictIn(s, t).Some? :: exists i :: 0 <= i < |commits| && commits[i].task == t)
  }

  /** A step of a task that was there: it was under way, its request stays, and so does its verdict,
      except that an Exchange replies after it used its io object. */
  ghost predicate VerdictKept(s: State, s': State, t: TaskId) {
    && t in s.tasks && t in s'.tasks && s'.tasks == s.tasks[t := s'.tasks[t]]
    && s'.tasks[t].request == s.tasks[t].request
    && !s.tasks[t].pc.Replied? && !s.tasks[t].pc.Dropped?
    && (VerdictIn(s, t).Some? ==>
          || VerdictIn(s', t) == VerdictIn(s, t)
          || (VerdictIn(s, t).value.Uses? && (s'.tasks[t].pc.Replied? || s'.tasks[t].pc.Dropped?)))
  }

  lemma OpenVerdict(s: State, e: Event)
    requires e.task in s.tasks && s.tasks[e.task].request.Open? && StepOpen(s, e).Some?
    ensures VerdictKept(s, StepOpen(s, e).value, e.task)
  {
    hide ExistingReply;
  }

  lemma ExchangeVerdict(s: State, e: Event)
    requires e.task in s.tasks && s.tasks[e.task].request.Exchange? && s.tasks[e.task].request.write.Some?
    requires StepExchange(s, e).Some?
    ensures VerdictKept(s, StepExchange(s, e).value, e.task)
  {
    hide ExchangedReply, BreakLastTurn;
  }

  lemma CancelVerdict(s: State, e: Event)
    requires TasksFit(s.tasks) && e.task in s.tasks && StepCancel(s, e.task).Some?
    ensures VerdictKept(s, StepCancel(s, e.task).value, e.task)
  {
    hide BreakLastTurn;
  }

  /** A step changes no verdict except that an Exchange replies after it used its io object. */
  lemma VerdictStep(s: State, e: Event)
    requires TasksFit(s.tasks) && Step(s, e).Some?
    ensures if e.Arrive? then e.task !in s.tasks && (e.task in Step(s, e).value.tasks)
                              && Step(s, e).value.tasks == s.tasks[e.task := Step(s, e).value.tasks[e.task]]
            else VerdictKept(s, Step(s, e).value, e.task)
  {
    hide StepOpen, StepExchange, StepCancel, TasksFit, Destination.Valid;
    if !e.Arrive? {
      var request := s.tasks[e.task].request;
      if e.Cancel? {
        CancelVerdict(s, e);
      } else if request.Open? {
        OpenVerdict(s, e);
      } else if request.Exchange? {
        ExchangeVerdict(s, e);
      }
    }
  }

  lemma CommitsFitStep(s: State, e: Event, commits: seq<Commit>)
    requires TasksFit(s.tasks) && CommitsFit(s, commits) && Step(s, e).Some?
    ensures CommitsFit(Step(s, e).value, commits + CommitOf(s, e))
  {
    hide StepOpen, StepExchange, StepClose, StepCancel, Step, TasksFit;
    var s', t := Step(s, e).value, e.task;
    VerdictStep(s, e);
    var all := commits + CommitOf(s, e);
    forall i | 0 <= i < |all|
      ensures CommitFits(s', all[i])
    {
      if i < |commits| {
        assert CommitFits(s, commits[i]);
      }
    }
    forall i, j | 0 <= i < j < |all|
      ensures all[i].task != all[j].task
    {
      assert CommitFits(s, commits[i]);
    }
    forall u | VerdictIn(s', u).Some?
      ensures exists i :: 0 <= i < |all| && all[i].task == u
    {
      if VerdictIn(s, u).Some? {
        var i :| 0 <= i < |commits| && commits[i].task == u;
        assert all[i].task == u;
      } else {
        assert all[|commits|].task == u;
      }
    }
  }

  /** Each request takes effect at most once, and one that was answered took effect exactly once, with
      that answer; an Exchange that found its connection took effect when it looked the connection up. */
  lemma {:induction false} OneCommitPerRequest(states: seq<State>, events: seq<Event>, capacity: nat, n: nat)
    requires Run(states, events, capacity) && n < |states|
    ensures CommitsFit(states[n], Commits(states, events, n))
  {
    hide Step, CommitOf, CommitsFit;
    if n == 0 {
      assert CommitsFit(states[0], []) by { EmptyFits(capacity); }
    } else {
      OneCommitPerRequest(states, events, capacity, n - 1);
      TasksFitReachable(states, events, capacity, n - 1);
      assert Step(states[n - 1], events[n - 1]) == Some(states[n - 1 + 1]);
      CommitsFitStep(states[n - 1], events[n - 1], Commits(states, events, n - 1));
    }
  }

  lemma EmptyFits(capacity: nat)
    ensures CommitsFit(Initial(capacity), [])
  {
  }

  // ---------------------------------------------------------------- when a request takes effect

  /** The events at which the commits of a run happened. */
  ghost function CommitSteps(states: seq<State>, events: seq<Event>, n: nat): (steps: seq<nat>)
    requires n <= |events| < |states|
    ensures |steps| == |Commits(states, events, n)|
  {
    if n == 0 then []
    else CommitSteps(states, events, n - 1) + if CommitOf(states[n - 1], events[n - 1]) == [] then [] else [n - 1]
  }

  lemma {:induction false} CommitStepsAre(states: seq<State>, events: seq<Event>, n: nat)
    requires n <= |events| < |states|
    ensures var steps, commits := CommitSteps(states, events, n), Commits(states, events, n);
      && |steps| == |commits|
      && (forall i | 0 <= i < |steps| :: steps[i] < n && CommitOf(states[steps[i]], events[steps[i]]) == [commits[i]])
      && (forall i, j | 0 <= i < j < |steps| :: steps[i] < steps[j])
  {
    hide CommitOf;
    if n > 0 {
      CommitStepsAre(states, events, n - 1);
      var last := CommitOf(states[n - 1], events[n - 1]);
      assert last != [] ==> last == [last[0]];
    }
  }

  /** A request that has its verdict, or was dropped. */
  ghost predicate Decided(s: State, t: TaskId) {
    VerdictIn(s, t).Some? || (t in s.tasks && s.tasks[t].pc.Dropped?)
  }

  lemma DecidedStep(s: State, e: Event, t: TaskId)
    requires TasksFit(s.tasks) && Step(s, e).Some? && Decided(s, t)
    ensures Decided(Step(s, e).value, t)
    ensures e.task == t ==> VerdictIn(s, t).Some?
  {
    hide Step, TasksFit;
    VerdictStep(s, e);
  }

  lemma {:induction false} DecidedLasts(states: seq<State>, events: seq<Event>, capacity: nat,
                                        m: nat, n: nat, t: TaskId)
    requires Run(states, events, capacity) && m <= n < |states| && Decided(states[m], t)
    ensures Decided(states[n], t)
    decreases n - m
  {
    hide Step, Decided;
    if m < n {
      DecidedLasts(states, events, capacity, m, n - 1, t);
      TasksFitReachable(states, events, capacity, n - 1);
      assert Step(states[n - 1], events[n - 1]) == Some(states[n - 1 + 1]);
      DecidedStep(states[n - 1], events[n - 1], t);
    }
  }

  /** Every request in a state arrived at some event before. */
  lemma {:induction false} Arrived(states: seq<State>, events: seq<Event>, capacity: nat, n: nat, t: TaskId)
    returns (a: nat)
    requires Run(states, events, capacity) && n < |states| && t in states[n].tasks
    ensures a < n && events[a].Arrive? && events[a].task == t && events[a].request == states[n].tasks[t].request
  {
    hide Step;
    a := n - 1;
    TasksFitReachable(states, events, capacity, n - 1);
    assert Step(states[n - 1], events[n - 1]) == Some(states[n - 1 + 1]);
    VerdictStep(states[n - 1], events[n - 1]);
    if t in states[n - 1].tasks {
      a := Arrived(states, events, capacity, n - 1, t);
    } else {
      ArrivesWithRequest(states[n - 1], events[n - 1]);
    }
  }

  lemma ArrivesWithRequest(s: State, e: Event)
    requires Step(s, e).Some? && e.Arrive?
    ensures Step(s, e).value.tasks[e.task].request == e.request
  {
    hide FirstPc;
  }

  /** A request takes effect while it is under way: at an event of its own, not before the event at
      which it arrived, and before any state in which it is answered or dropped. */
  lemma CommitsWhileUnderWay(states: seq<State>, events: seq<Event>, capacity: nat, n: nat, i: nat)
    returns (a: nat)
    requires Run(states, events, capacity) && n < |states| && i < |Commits(states, events, n)|
    ensures var commit, m := Commits(states, events, n)[i], CommitSteps(states, events, n)[i];
      && a <= m < n && events[a].Arrive? && events[a].task == commit.task && events[a].request == commit.request
      && events[m].task == commit.task
      && forall k | 0 <= k <= m :: !Decided(states[k], commit.task)
  {
    hide Step;
    CommitStepsAre(states, events, n);
    var commit, m := Commits(states, events, n)[i], CommitSteps(states, events, n)[i];
    assert Step(states[m], events[m]) == Some(states[m + 1]);
    assert CommitOf(states[m], events[m]) == [commit];
    a := Arrived(states, events, capacity, m + 1, commit.task);
    forall k | 0 <= k <= m
      ensures !Decided(states[k], commit.task)
    {
      if Decided(states[k], commit.task) {
        DecidedLasts(states, events, capacity, k, m, commit.task);
        TasksFitReachable(states, events, capacity, m);
        DecidedStep(states[m], events[m], commit.task);
      }
    }
  }

  /** The order in which requests take effect respects time: a request that was answered or dropped
      before another arrived took effect before it. */
  lemma CommitsInRealTime(states: seq<State>, events: seq<Event>, capacity: nat, n: nat, i: nat, j: nat, k: nat, a: nat)
    requires Run(states, events, capacity) && n < |states|
    requires i < |Commits(states, events, n)| && j < |Commits(states, events, n)|
    requires k <= a < n && Decided(states[k], Commits(states, events, n)[i].task)
    requires events[a].Arrive? && events[a].task == Commits(states, events, n)[j].task
    ensures i < j
  {
    hide Step, Decided;
    CommitStepsAre(states, events, n);
    var steps, later := CommitSteps(states, events, n), Commits(states, events, n)[j].task;
    var ai := CommitsWhileUnderWay(states, events, capacity, n, i);
    var aj := CommitsWhileUnderWay(states, events, capacity, n, j);
    assert steps[i] < k;
    TasksFitReachable(states, events, capacity, a);
    assert Step(states[a], events[a]) == Some(states[a + 1]);
    VerdictStep(states[a], events[a]);
    if aj < a {
      TasksFitReachable(states, events, capacity, aj);
      assert Step(states[aj], events[aj]) == Some(states[aj + 1]);
      VerdictStep(states[aj], events[aj]);
      RequestLasts(states, events, capacity, aj + 1, a, later);
    }
    assert steps[i] < k <= a <= steps[j];
    LaterStep(steps, i, j);
  }

  lemma LaterStep(steps: seq<nat>, i: nat, j: nat)
    requires forall i, j | 0 <= i < j < |steps| :: steps[i] < steps[j]
    requires i < |steps| && j < |steps| && steps[i] < steps[j]
    ensures i < j
  {
  }

  // ---------------------------------------------------------------- what an Open reply means

  ghost predicate BoundAs(s: State, request: Request)
    requires request.Open?
  {
    && request.connectionId in s.connections
    && s.connections[request.connectionId].forwardId == request.forwardId
    && s.connections[request.connectionId].destination == request.destination
  }

  predicate SaysOpened(pc: Pc) {
    VerdictOf(pc).Some? && VerdictOf(pc).value.Answered? && VerdictOf(pc).value.reply.Opened?
  }

  lemma OpenedStep(s: State, e: Event, t: TaskId)
    requires TasksFit(s.tasks) && Step(s, e).Some?
    requires t in Step(s, e).value.tasks && Step(s, e).value.tasks[t].request.Open?
    requires SaysOpened(Step(s, e).value.tasks[t].pc)
    requires !(t in s.tasks && SaysOpened(s.tasks[t].pc))
    ensures t in s.tasks && BoundAs(Step(s, e).value, Step(s, e).value.tasks[t].request)
  {
    hide Destination.Valid, StepOpen, StepExchange, StepCancel, TasksFit, VerdictOf, VerdictIn;
    VerdictStep(s, e);
    if e.Arrive? {
      ArriveOpens(s, e);
    } else if e.Cancel? {
      CancelOpens(s, e);
    } else if s.tasks[e.task].request.Open? {
      OpenOpens(s, e);
    }
  }

  lemma ArriveOpens(s: State, e: Event)
    requires e.Arrive? && Step(s, e).Some?
    ensures !SaysOpened(Step(s, e).value.tasks[e.task].pc)
  {
    hide Destination.Valid;
  }

  lemma CancelOpens(s: State, e: Event)
    requires e.task in s.tasks && StepCancel(s, e.task).Some?
    ensures !SaysOpened(StepCancel(s, e.task).value.tasks[e.task].pc)
  {
    hide BreakLastTurn;
  }

  lemma OpenOpens(s: State, e: Event)
    requires e.task in s.tasks && s.tasks[e.task].request.Open? && StepOpen(s, e).Some?
    requires SaysOpened(StepOpen(s, e).value.tasks[e.task].pc) && !SaysOpened(s.tasks[e.task].pc)
    ensures BoundAs(StepOpen(s, e).value, s.tasks[e.task].request)
  {
  }

  lemma RequestsFixed(s: State, e: Event, t: TaskId)
    requires TasksFit(s.tasks) && Step(s, e).Some? && t in s.tasks
    ensures t in Step(s, e).value.tasks && Step(s, e).value.tasks[t].request == s.tasks[t].request
  {
    hide Step;
    VerdictStep(s, e);
  }

  /** An Opened reply always has a moment, while its request was under way, at which the id was
      bound to exactly the forward and destination that were asked for. */
  lemma {:induction false} OpenedHadItsBinding(states: seq<State>, events: seq<Event>, capacity: nat, n: nat, t: TaskId)
    returns (m: nat)
    requires Run(states, events, capacity) && n < |states|
    requires t in states[n].tasks && states[n].tasks[t].request.Open? && SaysOpened(states[n].tasks[t].pc)
    ensures m <= n && t in states[m].tasks && BoundAs(states[m], states[n].tasks[t].request)
  {
    hide Step;
    m := n;
    if n > 0 {
      TasksFitReachable(states, events, capacity, n - 1);
      assert Step(states[n - 1], events[n - 1]) == Some(states[n - 1 + 1]);
      if t in states[n - 1].tasks && SaysOpened(states[n - 1].tasks[t].pc) {
        RequestsFixed(states[n - 1], events[n - 1], t);
        m := OpenedHadItsBinding(states, events, capacity, n - 1, t);
      } else {
        OpenedStep(states[n - 1], events[n - 1], t);
      }
    }
  }

  /** A step of an Open that does not say Opened leaves the table as it was. */
  lemma FailedOpenLeavesTable(s: State, e: Event)
    requires TasksFit(s.tasks) && Step(s, e).Some?
    requires var s' := Step(s, e).value;
             s'.tasks[e.task].request.Open? && !SaysOpened(s'.tasks[e.task].pc)
    ensures Step(s, e).value.connections == s.connections
  {
    hide Destination.Valid, BreakLastTurn;
  }

  /** An answer, once given, stays. */
  lemma {:induction false} AnswerLasts(states: seq<State>, events: seq<Event>, capacity: nat, m: nat, n: nat, t: TaskId)
    requires Run(states, events, capacity) && m <= n < |states|
    requires VerdictIn(states[m], t).Some? && VerdictIn(states[m], t).value.Answered?
    ensures VerdictIn(states[n], t) == VerdictIn(states[m], t)
    decreases n - m
  {
    hide Step, VerdictOf;
    if m < n {
      AnswerLasts(states, events, capacity, m, n - 1, t);
      TasksFitReachable(states, events, capacity, n - 1);
      assert Step(states[n - 1], events[n - 1]) == Some(states[n - 1 + 1]);
      VerdictStep(states[n - 1], events[n - 1]);
    }
  }

  /** An Open that in the end does not say Opened, because it failed or was dropped, never changed the
      table: not at any of its steps, whatever else ran in between. */
  lemma FailedOpenNeverTouchedTable(states: seq<State>, events: seq<Event>, capacity: nat, n: nat, t: TaskId, m: nat)
    requires Run(states, events, capacity) && m < n < |states| && events[m].task == t
    requires t in states[n].tasks && states[n].tasks[t].request.Open? && !SaysOpened(states[n].tasks[t].pc)
    ensures states[m + 1].connections == states[m].connections
  {
    hide Step, SaysOpened;
    TasksFitReachable(states, events, capacity, m);
    assert Step(states[m], events[m]) == Some(states[m + 1]);
    VerdictStep(states[m], events[m]);
    RequestLasts(states, events, capacity, m + 1, n, t);
    if SaysOpened(states[m + 1].tasks[t].pc) {
      OpenedLasts(states, events, capacity, m + 1, n, t);
    } else {
      FailedOpenLeavesTable(states[m], events[m]);
    }
  }

  lemma OpenedLasts(states: seq<State>, events: seq<Event>, capacity: nat, m: nat, n: nat, t: TaskId)
    requires Run(states, events, capacity) && m <= n < |states| && t in states[m].tasks
    requires SaysOpened(states[m].tasks[t].pc)
    ensures t in states[n].tasks && SaysOpened(states[n].tasks[t].pc)
  {
    AnswerLasts(states, events, capacity, m, n, t);
  }

  lemma {:induction false} RequestLasts(states: seq<State>, events: seq<Event>, capacity: nat,
                                        m: nat, n: nat, t: TaskId)
    requires Run(states, events, capacity) && m <= n < |states| && t in states[m].tasks
    ensures t in states[n].tasks && states[n].tasks[t].request == states[m].tasks[t].request
    decreases n - m
  {
    hide Step;
    if m < n {
      RequestLasts(states, events, capacity, m, n - 1, t);
      TasksFitReachable(states, events, capacity, n - 1);
      assert Step(states[n - 1], events[n - 1]) == Some(states[n - 1 + 1]);
      VerdictStep(states[n - 1], events[n - 1]);
    }
  }

  // ---------------------------------------------------------------- sockets in use

  ghost function TableCells(connections: Connections): set<CellId> {
    set c | c in connections :: connections[c].cell
  }

  /** The Exchanges in flight whose stream is no longer in the table: it was closed under them. */
  ghost function Orphaned(s: State): set<TaskId> {
    set t | t in s.tasks && UsesCell(s.tasks[t].pc) && s.tasks[t].pc.cell !in TableCells(s.connections)
  }

  predicate UsesCell(pc: Pc) {
    pc.AwaitingIo? || pc.HoldsLock()
  }

  /** The streams of the table and of the Exchanges in flight. */
  ghost function CellsInUse(s: State): set<CellId> {
    TableCells(s.connections) + set t | t in s.tasks && UsesCell(s.tasks[t].pc) :: s.tasks[t].pc.cell
  }

  lemma {:induction false} FewTableCells(connections: Connections)
    ensures |TableCells(connections)| <= |connections|
    decreases |connections|
  {
    if connections != map[] {
      var c :| c in connections;
      var rest := connections - {c};
      FewTableCells(rest);
      assert connections.Keys == rest.Keys + {c};
      assert TableCells(connections) == TableCells(rest) + {connections[c].cell};
    }
  }

  lemma {:induction false} FewCells(tasks: Tasks, users: set<TaskId>)
    requires forall t | t in users :: t in tasks && UsesCell(tasks[t].pc)
    ensures |CellsOf(tasks, users)| <= |users|
  {
    if users != {} {
      var u :| u in users;
      FewCells(tasks, users - {u});
      assert CellsOf(tasks, users) == CellsOf(tasks, users - {u}) + {tasks[u].pc.cell};
    }
  }

  /** The streams that some Exchanges use. */
  ghost function CellsOf(tasks: map<TaskId, Task>, users: set<TaskId>): set<CellId>
    requires forall t | t in users :: t in tasks && UsesCell(tasks[t].pc)
  {
    set t | t in users && UsesCell(tasks[t].pc) :: tasks[t].pc.cell
  }

  /** The bound on sockets.  One is in use for each stream of the table, for each stream of an Exchange
      in flight, and at most one for each Open that holds a permit; together they are at most the
      capacity, and one more for each Exchange whose stream was closed under it. */
  lemma SocketsBounded(states: seq<State>, events: seq<Event>, capacity: nat, n: nat)
    requires Run(states, events, capacity) && n < |states|
    ensures |CellsInUse(states[n])| + |PermitHolders(states[n].tasks)| <= capacity + |Orphaned(states[n])|
  {
    hide Run, PermitHolders;
    var s := states[n];
    CapacityConserved(states, events, capacity, n);
    FewTableCells(s.connections);
    FewCells(s.tasks, Orphaned(s));
    assert CellsInUse(s) == TableCells(s.connections) + CellsOf(s.tasks, Orphaned(s));
  }

  ghost predicate Held(s: State, k: CellId) {
    k in CellsInUse(s) || exists t :: t in s.tasks && s.tasks[t].pc == Inserting(k)
  }

  /** No task of `s'` but `t` is different from before, and `t` holds no stream that nobody held. */
  ghost predicate GainsNothing(s: State, s': State, t: TaskId, k: CellId) {
    && k in s'.cells && t in s'.tasks && s'.tasks == s.tasks[t := s'.tasks[t]]
    && k !in TableCells(s'.connections)
    && !((s'.tasks[t].pc.Inserting? || UsesCell(s'.tasks[t].pc)) && s'.tasks[t].pc.cell == k)
  }

  lemma NobodyGains(s: State, s': State, t: TaskId, k: CellId)
    requires k in s.cells && !Held(s, k) && GainsNothing(s, s', t, k)
    ensures k in s'.cells && !Held(s', k)
  {
  }

  lemma OpenGains(s: State, e: Event, k: CellId)
    requires e.task in s.tasks && s.tasks[e.task].request.Open? && StepOpen(s, e).Some?
    requires k in s.cells && !Held(s, k)
    ensures GainsNothing(s, StepOpen(s, e).value, e.task, k)
  {
    hide ExistingReply, Destination.Valid;
    assert s.tasks[e.task].pc != Inserting(k);
  }

  lemma ExchangeGains(s: State, e: Event, k: CellId)
    requires e.task in s.tasks && s.tasks[e.task].request.Exchange? && s.tasks[e.task].request.write.Some?
    requires StepExchange(s, e).Some? && k in s.cells && !Held(s, k)
    ensures GainsNothing(s, StepExchange(s, e).value, e.task, k)
  {
    hide ExchangedReply, BreakLastTurn, Destination.Valid;
    var pc := s.tasks[e.task].pc;
    assert UsesCell(pc) ==> pc.cell in CellsInUse(s);
    assert forall c | c in s.connections :: s.connections[c].cell in TableCells(s.connections);
  }

  lemma OtherGains(s: State, e: Event, k: CellId)
    requires Step(s, e).Some? && k in s.cells && !Held(s, k)
    requires e.Arrive? || e.Cancel? || s.tasks[e.task].request.Close?
    ensures GainsNothing(s, Step(s, e).value, e.task, k)
  {
    hide BreakLastTurn, Destination.Valid;
  }

  /** A stream that is neither in use nor private to an Open is gone: nobody gets hold of it again. */
  lemma GoneStaysGone(s: State, e: Event, k: CellId)
    requires Step(s, e).Some? && k in s.cells && !Held(s, k)
    ensures k in Step(s, e).value.cells && !Held(Step(s, e).value, k)
  {
    hide StepOpen, StepExchange, StepClose, StepCancel, Held, GainsNothing, Destination.Valid;
    if e.Arrive? || e.Cancel? || s.tasks[e.task].request.Close? {
      OtherGains(s, e, k);
    } else if s.tasks[e.task].request.Open? {
      OpenGains(s, e, k);
    } else {
      ExchangeGains(s, e, k);
    }
    NobodyGains(s, Step(s, e).value, e.task, k);
  }

  // ---------------------------------------------------------------- the bytes of one stream

  lemma LockStream(s: State, t: TaskId, k: CellId, j: CellId)
    requires t in s.tasks && s.tasks[t].request.Exchange? && s.tasks[t].request.write.Some?
    requires k in s.cells && j in s.cells
    requires StepLock(s, t, k).Some?
    ensures StreamExtends(s, StepLock(s, t, k).value, j)
  {
    hide Destination.Valid;
  }

  /** A write appends to an open stream, or fails and adds nothing. */
  lemma WriteStream(s: State, t: TaskId, k: CellId, w: WriteOutcome, j: CellId)
    requires t in s.tasks && s.tasks[t].request.Exchange? && s.tasks[t].request.write.Some?
    requires k in s.cells && j in s.cells
    requires s.tasks[t].pc.Writing? && WriterMatches(s.cells[k], t, s.tasks[t])
    requires StepWrite(s, t, k, s.tasks[t].pc.sent, w).Some?
    ensures StreamExtends(s, StepWrite(s, t, k, s.tasks[t].pc.sent, w).value, j)
  {
    hide Destination.Valid;
  }

  /** A step of the io object's user only appends to what its stream was given, and to a closed
      stream it adds nothing. */
  lemma ExchangeStream(s: State, e: Event, k: CellId)
    requires WritersMatch(s.cells, s.tasks) && k in s.cells
    requires e.task in s.tasks && s.tasks[e.task].request.Exchange? && s.tasks[e.task].request.write.Some?
    requires StepExchange(s, e).Some?
    ensures StreamExtends(s, StepExchange(s, e).value, k)
  {
    hide Destination.Valid, ExchangedReply, StepLock, StepWrite, WriterMatches;
    var t := e.task;
    var pc := s.tasks[t].pc;
    if pc.AwaitingIo? {
      LockStream(s, t, pc.cell, k);
    } else if pc.Writing? {
      WriteStream(s, t, pc.cell, e.write, k);
    }
  }

  ghost predicate StreamExtends(s: State, s': State, k: CellId)
    requires k in s.cells
  {
    && k in s'.cells
    && s.cells[k].delivered <= s'.cells[k].delivered
    && s.cells[k].shutdowns <= s'.cells[k].shutdowns
    && (s.cells[k].writeClosed ==>
          s'.cells[k].writeClosed && s'.cells[k].delivered == s.cells[k].delivered
          && s'.cells[k].shutdowns == s.cells[k].shutdowns)
  }

  lemma OtherStream(s: State, e: Event, k: CellId)
    requires Step(s, e).Some? && k in s.cells
    requires e.Arrive? || e.Cancel? || !s.tasks[e.task].request.Exchange?
    ensures StreamExtends(s, Step(s, e).value, k)
  {
  }

  lemma StreamStep(s: State, e: Event, k: CellId)
    requires WritersMatch(s.cells, s.tasks) && Step(s, e).Some? && k in s.cells
    ensures StreamExtends(s, Step(s, e).value, k)
  {
    hide StepOpen, StepExchange, StepClose, StepCancel, StreamExtends, WritersMatch;
    if e.Arrive? || e.Cancel? || !s.tasks[e.task].request.Exchange? {
      OtherStream(s, e, k);
    } else {
      ExchangeStream(s, e, k);
    }
  }

  /** Between two moments of a run a stream is only appended to; once its write side is closed, no
      byte is added and it is not shut down again. */
  lemma {:induction false} StreamOnlyGrows(states: seq<State>, events: seq<Event>, capacity: nat,
                                           k: CellId, i: nat, j: nat)
    requires Run(states, events, capacity) && i <= j < |states| && k in states[i].cells
    ensures StreamExtends(states[i], states[j], k)
  {
    hide Step, Inv;
    if i < j {
      StreamOnlyGrows(states, events, capacity, k, i, j - 1);
      WritersMatchReachable(states, events, capacity, j - 1);
      assert Step(states[j - 1], events[j - 1]) == Some(states[j - 1 + 1]);
      StreamStep(states[j - 1], events[j - 1], k);
    }
  }

  lemma WritersMatchReachable(states: seq<State>, events: seq<Event>, capacity: nat, n: nat)
    requires Run(states, events, capacity) && n < |states|
    ensures WritersMatch(states[n].cells, states[n].tasks)
  {
    hide Step;
    ReachableInv(states, events, capacity, n);
  }

  /** In every reachable state: what each stream was given is the payloads of the Exchanges that
      wrote on it, in the order in which they took the io lock; each payload is there whole unless
      its write broke off or is the one still under way; and the write side was shut down at most
      once.  Each Exchange writes at most once and on one stream. */
  lemma StreamsCarryWholePayloads(states: seq<State>, events: seq<Event>, capacity: nat, n: nat)
    requires Run(states, events, capacity) && n < |states|
    ensures HistoriesOk(states[n].cells) && TurnsUnique(states[n].cells)
    ensures TurnsOfTasks(states[n].cells, states[n].tasks)
    ensures forall k | k in states[n].cells :: states[n].cells[k].shutdowns <= 1
  {
    hide Step;
    ReachableInv(states, events, capacity, n);
    forall k | k in states[n].cells
      ensures states[n].cells[k].shutdowns <= 1
    {
      assert HistoryOk(states[n].cells[k]);
    }
  }

  /** An Exchange that was answered `Exchanged` had its whole payload delivered. */
  lemma ExchangedWasDelivered(states: seq<State>, events: seq<Event>, capacity: nat, n: nat, t: TaskId)
    requires Run(states, events, capacity) && n < |states|
    requires t in states[n].tasks && states[n].tasks[t].request.Exchange?
    requires states[n].tasks[t].pc.Replied? && states[n].tasks[t].pc.reply.Exchanged?
    ensures states[n].tasks[t].request.write == Some([]) || HasWholeTurn(states[n].cells, t)
  {
    hide Step;
    ReachableInv(states, events, capacity, n);
  }

  /** The result of a read always fits the reply, so the reply bound error cannot occur. */
  lemma ReadFitsReply(states: seq<State>, events: seq<Event>, capacity: nat, n: nat)
    requires Run(states, events, capacity) && n < |events|
    requires events[n].Read? && events[n].read.Received?
    ensures states[n + 1].tasks[events[n].task].pc.reply
         == Exchanged(states[n].tasks[events[n].task].request.connectionId, events[n].read.bytes,
                      events[n].read.bytes == [])
  {
    hide Inv;
    TasksFitReachable(states, events, capacity, n);
    assert Step(states[n], events[n]) == Some(states[n + 1]);
    assert TaskFits(states[n].tasks[events[n].task]);
  }
}
