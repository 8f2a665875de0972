/** How requests move on: which io object an Exchange uses, when a stream is shut down, what is possible
    at each moment, and that every request comes to an end. */
module ForwardProgress {
  import opened Wrappers
  import opened Text
  import opened Forward
  import opened ForwardInvariant
  import opened ForwardRuns
  import opened ForwardAnswers

  // ---------------------------------------------------------------- the end of a stream, as asked

  /** An Exchange half-closes only if it was asked to; and it reads, if it was asked to, from a stream
      whose write side is closed. */
  ghost predicate EofAsAsked(s: State) {
    forall t | t in s.tasks && s.tasks[t].request.Exchange? ::
      var task := s.tasks[t];
      && (task.pc.HalfClosing? ==> task.request.writeEof)
      && (task.pc.Reading? && task.request.writeEof ==>
            task.pc.cell in s.cells && s.cells[task.pc.cell].writeClosed)
  }

  /** Where an Exchange stands after a step of its own, as to the end of its stream. */
  lemma ExchangeEof(s: State, e: Event)
    requires e.task in s.tasks && s.tasks[e.task].request.Exchange? && s.tasks[e.task].request.write.Some?
    requires StepExchange(s, e).Some? && e.task in StepExchange(s, e).value.tasks
    requires s.tasks[e.task].pc.HalfClosing? ==> s.tasks[e.task].request.writeEof
    ensures var s' := StepExchange(s, e).value;
            var request, pc := s.tasks[e.task].request, s'.tasks[e.task].pc;
      && (pc.HalfClosing? ==> request.writeEof)
      && (pc.Reading? && request.writeEof ==> pc.cell in s'.cells && s'.cells[pc.cell].writeClosed)
  {
    hide Destination.Valid, ExchangedReply, BreakLastTurn;
  }

  lemma OtherEof(s: State, e: Event)
    requires TasksFit(s.tasks) && Step(s, e).Some?
    requires e.Arrive? || e.Cancel? || !s.tasks[e.task].request.Exchange?
    ensures e.task in Step(s, e).value.tasks
    ensures var task := Step(s, e).value.tasks[e.task];
      task.request.Exchange? ==> !task.pc.HalfClosing? && !task.pc.Reading?
  {
    hide Destination.Valid, BreakLastTurn;
  }

  lemma EofStep(s: State, e: Event)
    requires TasksFit(s.tasks) && WritersMatch(s.cells, s.tasks) && EofAsAsked(s) && Step(s, e).Some?
    ensures EofAsAsked(Step(s, e).value)
  {
    hide StepOpen, StepExchange, StepClose, StepCancel, TasksFit, WritersMatch, StreamExtends, Destination.Valid;
    var s', t := Step(s, e).value, e.task;
    VerdictStep(s, e);
    if e.Arrive? || e.Cancel? || !s.tasks[t].request.Exchange? {
      OtherEof(s, e);
    } else {
      ExchangeEof(s, e);
    }
    forall u | u in s'.tasks && s'.tasks[u].request.Exchange? && s'.tasks[u].pc.Reading? && u != t
      ensures s'.tasks[u].request.writeEof ==>
        s'.tasks[u].pc.cell in s'.cells && s'.cells[s'.tasks[u].pc.cell].writeClosed
    {
      if s'.tasks[u].request.writeEof {
        StreamStep(s, e, s.tasks[u].pc.cell);
        ClosedStays(s, s', s.tasks[u].pc.cell);
      }
    }
  }

  lemma ClosedStays(s: State, s': State, k: CellId)
    requires k in s.cells && StreamExtends(s, s', k) && s.cells[k].writeClosed
    ensures k in s'.cells && s'.cells[k].writeClosed
  {
  }

  lemma {:induction false} EofReachable(states: seq<State>, events: seq<Event>, capacity: nat, n: nat)
    requires Run(states, events, capacity) && n < |states|
    ensures EofAsAsked(states[n])
  {
    hide Step;
    if n > 0 {
      EofReachable(states, events, capacity, n - 1);
      StepAt(states, events, capacity, n - 1);
      WritersMatchReachable(states, events, capacity, n - 1);
      EofStep(states[n - 1], events[n - 1]);
    }
  }

  lemma ClosesStep(s: State, e: Event, k: CellId)
    requires Step(s, e).Some? && k in Step(s, e).value.cells && Step(s, e).value.cells[k].writeClosed
    requires k !in s.cells || !s.cells[k].writeClosed
    ensures e.HalfClose? && e.ok && e.task in s.tasks && s.tasks[e.task].pc == HalfClosing(k)
    ensures s.tasks[e.task].request.Exchange?
  {
    hide Destination.Valid, ExchangedReply;
  }

  /** The write side of a stream is closed only by an Exchange that was asked to close it. */
  lemma {:induction false} ShutdownWasAsked(states: seq<State>, events: seq<Event>, capacity: nat, n: nat, k: CellId)
    returns (m: nat)
    requires Run(states, events, capacity) && n < |states|
    requires k in states[n].cells && states[n].cells[k].writeClosed
    ensures m < n && events[m].HalfClose? && events[m].ok && events[m].task in states[m].tasks
    ensures states[m].tasks[events[m].task].pc == HalfClosing(k)
    ensures states[m].tasks[events[m].task].request.Exchange? && states[m].tasks[events[m].task].request.writeEof
  {
    hide Step;
    StepAt(states, events, capacity, n - 1);
    if k in states[n - 1].cells && states[n - 1].cells[k].writeClosed {
      m := ShutdownWasAsked(states, events, capacity, n - 1, k);
    } else {
      m := n - 1;
      ClosesStep(states[m], events[m], k);
      EofReachable(states, events, capacity, m);
    }
  }

  // ---------------------------------------------------------------- the io object of an Exchange

  lemma ExchangeLooksUp(s: State, e: Event, k: CellId)
    requires e.task in s.tasks && s.tasks[e.task].request.Exchange? && s.tasks[e.task].request.write.Some?
    requires StepExchange(s, e).Some?
    requires VerdictIn(StepExchange(s, e).value, e.task) == Some(Uses(k)) && VerdictIn(s, e.task) != Some(Uses(k))
    ensures e.LookUp? && var c := s.tasks[e.task].request.connectionId;
            c in s.connections && s.connections[c].cell == k
  {
    hide Destination.Valid, ExchangedReply, BreakLastTurn;
  }

  lemma OthersUseNothing(s: State, e: Event)
    requires TasksFit(s.tasks) && Step(s, e).Some?
    requires e.Arrive? || e.Cancel? || !s.tasks[e.task].request.Exchange?
    ensures VerdictIn(Step(s, e).value, e.task).Some? ==> VerdictIn(Step(s, e).value, e.task).value.Answered?
  {
    hide Destination.Valid, BreakLastTurn;
  }

  /** The io object that an Exchange uses is the one that was bound to its id when it looked it up. */
  lemma {:induction false} UsesWhatItLookedUp(states: seq<State>, events: seq<Event>, capacity: nat, n: nat,
                                              t: TaskId, k: CellId) returns (m: nat)
    requires Run(states, events, capacity) && n < |states| && VerdictIn(states[n], t) == Some(Uses(k))
    ensures m < n && events[m] == LookUp(t)
    ensures var c := states[n].tasks[t].request.connectionId;
            c in states[m].connections && states[m].connections[c].cell == k
  {
    hide Step, VerdictOf;
    assert n > 0;
    StepAt(states, events, capacity, n - 1);
    var s, e := states[n - 1], events[n - 1];
    VerdictStep(s, e);
    if VerdictIn(s, t) == Some(Uses(k)) {
      m := UsesWhatItLookedUp(states, events, capacity, n - 1, t, k);
    } else {
      m := n - 1;
      LooksUpStep(s, e, t, k);
    }
  }

  lemma LooksUpStep(s: State, e: Event, t: TaskId, k: CellId)
    requires TasksFit(s.tasks) && Step(s, e).Some?
    requires VerdictIn(Step(s, e).value, t) == Some(Uses(k)) && VerdictIn(s, t) != Some(Uses(k))
    ensures e == LookUp(t) && t in s.tasks && var c := s.tasks[t].request.connectionId;
            c in s.connections && s.connections[c].cell == k
  {
    hide StepOpen, StepExchange, StepClose, StepCancel, TasksFit, VerdictOf, Destination.Valid;
    VerdictStep(s, e);
    if e.Arrive? || e.Cancel? || !s.tasks[e.task].request.Exchange? {
      OthersUseNothing(s, e);
    } else {
      ExchangeLooksUp(s, e, k);
    }
  }

  /** A successful Exchange read from the io object that it had looked up under its id, after closing
      its write side if it was asked to. */
  lemma ExchangedUsedItsConnection(states: seq<State>, events: seq<Event>, capacity: nat, n: nat, t: TaskId)
    returns (look: nat, read: nat)
    requires Run(states, events, capacity) && n < |states| && t in states[n].tasks
    requires states[n].tasks[t].pc.Replied? && states[n].tasks[t].pc.reply.Exchanged?
    ensures var request := states[n].tasks[t].request;
      && look < read < n && events[look] == LookUp(t) && events[read].Read? && events[read].task == t
      && request.Exchange? && t in states[read].tasks && states[read].tasks[t].pc.Reading?
      && var k := states[read].tasks[t].pc.cell;
         && request.connectionId in states[look].connections
         && states[look].connections[request.connectionId].cell == k
         && (request.writeEof ==> k in states[read].cells && states[read].cells[k].writeClosed)
  {
    hide Step;
    read := ReplyHasItsReason(states, events, capacity, n, t);
    StepAt(states, events, capacity, read);
    ReadsFrom(states[read], events[read]);
    RequestLasts(states, events, capacity, read, n, t);
    EofReachable(states, events, capacity, read);
    look := UsesWhatItLookedUp(states, events, capacity, read, t, states[read].tasks[t].pc.cell);
  }

  lemma ReadsFrom(s: State, e: Event)
    requires Step(s, e).Some? && e.Read?
    ensures e.task in s.tasks && s.tasks[e.task].pc.Reading? && s.tasks[e.task].request.Exchange?
  {
    hide Destination.Valid;
  }

  // ---------------------------------------------------------------- what is possible

  predicate Stands(s: State, t: TaskId, pc: Pc) {
    t in s.tasks && s.tasks[t].pc == pc
  }

  /** A task stands only where its request can take it, and uses a stream that is there. */
  ghost predicate TaskInPlace(s: State, t: TaskId)
    requires t in s.tasks
  {
    var request, pc := s.tasks[t].request, s.tasks[t].pc;
    && (pc.OfOpen() ==> request.Open?)
    && (pc.OfExchange() ==> request.Exchange? && request.write.Some?)
    && (pc.Removing? ==> request.Close?)
    && (UsesCell(pc) ==> pc.cell in s.cells)
    && (pc.Writing? ==> pc.sent < |request.write.value| && s.cells[pc.cell].turns != [])
  }

  ghost predicate InPlace(s: State) {
    forall t | t in s.tasks :: TaskInPlace(s, t)
  }

  lemma StructureInPlace(s: State)
    requires Structure(s)
    ensures InPlace(s)
  {
    forall t | t in s.tasks
      ensures TaskInPlace(s, t)
    {
      assert TaskFits(s.tasks[t]);
      if s.tasks[t].pc.Writing? {
        var cell := s.cells[s.tasks[t].pc.cell];
        assert WriterMatches(cell, t, s.tasks[t]);
        assert HistoryOk(cell);
      }
    }
  }

  /** What may happen next: the code goes on where it stands, and the network may answer in any way. */
  ghost predicate Possible(s: State, e: Event)
    requires InPlace(s)
  {
    match e
    case Arrive(t, _, _) => t !in s.tasks
    case Check(t) => Stands(s, t, Checking)
    case Acquire(t) => Stands(s, t, Acquiring)
    case Connect(t, Connected(k)) => Stands(s, t, Connecting) && k !in s.cells
    case Connect(t, _) => Stands(s, t, Connecting)
    case Insert(t) => t in s.tasks && s.tasks[t].pc.Inserting?
    case Yield(t) => t in s.tasks && s.tasks[t].pc.Yielding?
    case LookUp(t) => Stands(s, t, LookingUp)
    case Lock(t) =>
      && t in s.tasks && TaskInPlace(s, t) && s.tasks[t].pc.AwaitingIo?
      && s.cells[s.tasks[t].pc.cell].holder.None?
    case Write(t, WriteFailed) => t in s.tasks && s.tasks[t].pc.Writing?
    case Write(t, Accepted(n)) =>
      && t in s.tasks && TaskInPlace(s, t) && s.tasks[t].pc.Writing?
      && 0 < n <= |s.tasks[t].request.write.value| - s.tasks[t].pc.sent
    case HalfClose(t, _) => t in s.tasks && s.tasks[t].pc.HalfClosing?
    case Read(t, Received(bytes)) =>
      t in s.tasks && TaskInPlace(s, t) && s.tasks[t].pc.Reading? && |bytes| <= s.tasks[t].request.maxReadBytes
    case Read(t, _) => t in s.tasks && s.tasks[t].pc.Reading?
    case Remove(t) => Stands(s, t, Removing)
    case Cancel(t) =>
      && t in s.tasks
      && (s.tasks[t].pc.Connecting? || s.tasks[t].pc.AwaitingIo? || s.tasks[t].pc.HoldsLock())
  }

  lemma CancelPossible(s: State, e: Event)
    requires InPlace(s) && e.Cancel? && e.task in s.tasks && TaskInPlace(s, e.task)
    ensures Step(s, e).Some? <==> Possible(s, e)
  {
    hide BreakLastTurn;
  }

  lemma OpenPossible(s: State, e: Event)
    requires InPlace(s) && e.task in s.tasks && TaskInPlace(s, e.task) && !e.Arrive? && !e.Cancel?
    requires s.tasks[e.task].request.Open?
    ensures Step(s, e).Some? <==> Possible(s, e)
  {
  }

  lemma ExchangePossible(s: State, e: Event)
    requires InPlace(s) && e.task in s.tasks && TaskInPlace(s, e.task) && !e.Arrive? && !e.Cancel?
    requires s.tasks[e.task].request.Exchange? && s.tasks[e.task].request.write.Some?
    ensures Step(s, e).Some? <==> Possible(s, e)
  {
    hide ExchangedReply, BreakLastTurn, AfterWrite;
  }

  lemma ClosePossible(s: State, e: Event)
    requires InPlace(s) && e.task in s.tasks && TaskInPlace(s, e.task) && !e.Arrive? && !e.Cancel?
    requires s.tasks[e.task].request.Close?
    ensures Step(s, e).Some? <==> Possible(s, e)
  {
  }

  /** In every reachable state exactly the events that the table above names can happen. */
  lemma PossibleExactly(states: seq<State>, events: seq<Event>, capacity: nat, n: nat, e: Event)
    requires Run(states, events, capacity) && n < |states|
    ensures InPlace(states[n])
    ensures Step(states[n], e).Some? <==> Possible(states[n], e)
  {
    hide StepOpen, StepExchange, StepClose, StepCancel, Structure, Run;
    var s := states[n];
    ReachableInv(states, events, capacity, n);
    StructureInPlace(s);
    if e.task in s.tasks && !e.Arrive? {
      assert TaskInPlace(s, e.task);
      var request := s.tasks[e.task].request;
      if e.Cancel? {
        CancelPossible(s, e);
      } else if request.Open? {
        OpenPossible(s, e);
      } else if request.Close? {
        ClosePossible(s, e);
      } else if request.write.Some? {
        ExchangePossible(s, e);
      } else {
        assert !s.tasks[e.task].pc.OfExchange();
      }
    }
  }

  /** Nobody is stuck: a request that has not ended can go on by itself; or it waits for an io lock
      whose holder can. */
  lemma NobodyIsStuck(states: seq<State>, events: seq<Event>, capacity: nat, n: nat, t: TaskId) returns (e: Event)
    requires Run(states, events, capacity) && n < |states| && t in states[n].tasks && !Ended(states[n], t)
    ensures Step(states[n], e).Some? && !e.Arrive? && !e.Cancel?
    ensures e.task != t ==>
      && states[n].tasks[t].pc.AwaitingIo? && e.task in states[n].tasks
      && states[n].tasks[e.task].pc.HoldsLock() && states[n].tasks[e.task].pc.cell == states[n].tasks[t].pc.cell
  {
    hide Step, Run, Structure;
    var s := states[n];
    ReachableInv(states, events, capacity, n);
    StructureInPlace(s);
    assert TaskInPlace(s, t);
    var u := t;
    if s.tasks[t].pc.AwaitingIo? && s.cells[s.tasks[t].pc.cell].holder.Some? {
      u := s.cells[s.tasks[t].pc.cell].holder.value;
      HolderHolds(s, s.tasks[t].pc.cell);
      assert TaskInPlace(s, u);
    }
    e := match s.tasks[u].pc
      case Checking => Check(u)
      case Acquiring => Acquire(u)
      case Connecting => Connect(u, Refused)
      case Inserting(_) => Insert(u)
      case Yielding(_) => Yield(u)
      case LookingUp => LookUp(u)
      case AwaitingIo(_) => Lock(u)
      case Writing(_, _) => Write(u, WriteFailed)
      case HalfClosing(_) => HalfClose(u, true)
      case Reading(_) => Read(u, NothingYet)
      case Removing => Remove(u)
      case _ => Check(u);
    PossibleExactly(states, events, capacity, n, e);
  }

  lemma HolderHolds(s: State, k: CellId)
    requires Structure(s) && k in s.cells && s.cells[k].holder.Some?
    ensures var u := s.cells[k].holder.value;
            u in s.tasks && s.tasks[u].pc.HoldsLock() && s.tasks[u].pc.cell == k
  {
  }

  // ---------------------------------------------------------------- every request comes to an end

  function PayloadLength(request: Request): nat {
    if request.Exchange? && request.write.Some? then |request.write.value| else 0
  }

  /** How many events a task can still make at most. */
  function Remaining(task: Task): nat {
    match task.pc
    case Checking => 5
    case Acquiring => 4
    case Connecting => 3
    case Inserting(_) => 2
    case Yielding(_) => 1
    case LookingUp => PayloadLength(task.request) + 4
    case AwaitingIo(_) => PayloadLength(task.request) + 3
    case Writing(_, sent) => if sent <= PayloadLength(task.request) then PayloadLength(task.request) - sent + 2 else 2
    case HalfClosing(_) => 2
    case Reading(_) => 1
    case Removing => 1
    case Replied(_) => 0
    case Dropped => 0
  }

  lemma OpenMovesOn(s: State, e: Event)
    requires e.task in s.tasks && s.tasks[e.task].request.Open? && StepOpen(s, e).Some?
    ensures e.task in StepOpen(s, e).value.tasks
    ensures Remaining(StepOpen(s, e).value.tasks[e.task]) < Remaining(s.tasks[e.task])
  {
    hide ExistingReply;
  }

  lemma ExchangeMovesOn(s: State, e: Event)
    requires e.task in s.tasks && s.tasks[e.task].request.Exchange? && s.tasks[e.task].request.write.Some?
    requires StepExchange(s, e).Some? && TaskInPlace(s, e.task)
    ensures e.task in StepExchange(s, e).value.tasks
    ensures Remaining(StepExchange(s, e).value.tasks[e.task]) < Remaining(s.tasks[e.task])
  {
    hide ExchangedReply, BreakLastTurn, Destination.Valid;
  }

  lemma OtherMovesOn(s: State, e: Event)
    requires e.task in s.tasks && !e.Arrive? && Step(s, e).Some? && (e.Cancel? || s.tasks[e.task].request.Close?)
    ensures e.task in Step(s, e).value.tasks
    ensures Remaining(Step(s, e).value.tasks[e.task]) < Remaining(s.tasks[e.task])
  {
    hide BreakLastTurn;
  }

  /** Every event of a request brings it nearer to its end. */
  lemma MovesOn(states: seq<State>, events: seq<Event>, capacity: nat, n: nat)
    requires Run(states, events, capacity) && n < |events| && !events[n].Arrive?
    ensures events[n].task in states[n].tasks && events[n].task in states[n + 1].tasks
    ensures Remaining(states[n + 1].tasks[events[n].task]) < Remaining(states[n].tasks[events[n].task])
  {
    hide StepOpen, StepExchange, StepClose, StepCancel, Structure, Remaining;
    StepAt(states, events, capacity, n);
    var s, e := states[n], events[n];
    ReachableInv(states, events, capacity, n);
    StructureInPlace(s);
    assert TaskInPlace(s, e.task);
    if e.Cancel? || s.tasks[e.task].request.Close? {
      OtherMovesOn(s, e);
    } else if s.tasks[e.task].request.Open? {
      OpenMovesOn(s, e);
    } else {
      ExchangeMovesOn(s, e);
    }
  }

  /** How many of some events are of one task. */
  ghost function CountOf(events: seq<Event>, t: TaskId): nat {
    if events == [] then 0
    else CountOf(events[..|events| - 1], t) + if events[|events| - 1].task == t then 1 else 0
  }

  lemma ArrivesWithFew(s: State, e: Event)
    requires Step(s, e).Some? && e.Arrive?
    ensures e.task in Step(s, e).value.tasks
    ensures Remaining(Step(s, e).value.tasks[e.task]) <= PayloadLength(e.request) + 5
    ensures Step(s, e).value.tasks[e.task].request == e.request
  {
    hide Destination.Valid;
  }

  /** A request takes at most six events, and for its payload at most one more for each byte; so, as
      nobody is stuck, it comes to an end. */
  lemma {:induction false} FewEvents(states: seq<State>, events: seq<Event>, capacity: nat, n: nat, t: TaskId)
    requires Run(states, events, capacity) && n < |states|
    ensures t !in states[n].tasks ==> CountOf(events[..n], t) == 0
    ensures t in states[n].tasks ==>
      CountOf(events[..n], t) + Remaining(states[n].tasks[t]) <= PayloadLength(states[n].tasks[t].request) + 6
  {
    hide Step, Remaining;
    if n > 0 {
      FewEvents(states, events, capacity, n - 1, t);
      var s, e := states[n - 1], events[n - 1];
      StepAt(states, events, capacity, n - 1);
      VerdictStep(s, e);
      assert events[..n][..n - 1] == events[..n - 1] && events[..n][n - 1] == e;
      if e.Arrive? {
        ArrivesWithFew(s, e);
      } else {
        MovesOn(states, events, capacity, n - 1);
      }
    }
  }
}
