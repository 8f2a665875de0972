/** The service object itself: the shared connection table, the permit counter and the io objects,
    updated in place.  Each method is one stretch of `execute` that runs without another task in
    between; it is proved to be exactly the event of the same name, and adds it to the run that the
    object has made since it was new: so every theorem about runs is one about the object. */
module ForwardService {
  import opened Wrappers
  import opened Text
  import opened Forward
  import opened ForwardInvariant
  import opened ForwardRuns

  class HostTcpForwardService {
    const capacity: nat
    var connections: map<ConnectionId, Entry>
    var freePermits: nat
    var cells: map<CellId, Cell>
    var tasks: map<TaskId, Task>
    ghost var states: seq<State>
    ghost var events: seq<Event>

    function View(): State
      reads this
    {
      State(connections, freePermits, cells, tasks)
    }

    /** The object has made a run, and stands where the run has come to. */
    ghost predicate Valid()
      reads this
    {
      Run(states, events, capacity) && states[|events|] == View()
    }

    /** The object did exactly this event. */
    twostate predicate Did(e: Event)
      reads this
    {
      && Step(old(View()), e) == Some(View())
      && states == old(states) + [View()] && events == old(events) + [e]
    }

    lemma Holds()
      requires Valid()
      ensures Inv(View(), capacity)
    {
      hide Inv, Step;
      ReachableInv(states, events, capacity, |events|);
    }

    ghost method Record(before: State, e: Event)
      requires Run(states, events, capacity) && states[|events|] == before && Step(before, e) == Some(View())
      modifies this`states, this`events
      ensures Valid() && states == old(states) + [View()] && events == old(events) + [e]
    {
      hide Step;
      RunGrows(states, events, capacity, e, View());
      states, events := states + [View()], events + [e];
    }

    predicate At(t: TaskId, pc: Pc)
      reads this
    {
      t in tasks && tasks[t].pc == pc
    }

    constructor (capacity: nat)
      ensures Valid() && this.capacity == capacity && View() == Initial(capacity) && events == []
    {
      this.capacity := capacity;
      connections, freePermits, cells, tasks := map[], capacity, map[], map[];
      states, events := [Initial(capacity)], [];
    }

    method MoveTo(t: TaskId, pc: Pc)
      requires t in tasks
      modifies this`tasks
      ensures View() == Move(old(View()), t, pc)
    {
      tasks := tasks[t := tasks[t].(pc := pc)];
    }

    /** A request arrives; it is checked against its bounds and against the grant. */
    method Arrive(t: TaskId, request: Request, allowed: bool)
      requires Valid() && t !in tasks
      modifies this
      ensures Valid() && Did(Event.Arrive(t, request, allowed))
    {
      hide Structure, HistoryOk, Run;
      Holds();
      ghost var before := View();
      if !request.Valid() {
        tasks := tasks[t := Task(request, Replied(Error(InvalidRequest)))];
      } else if !allowed {
        tasks := tasks[t := Task(request, Replied(Error(Denied)))];
      } else {
        tasks := tasks[t := Task(request, match request
          case Open(_, _, _, _) => Checking
          case Exchange(_, _, _, _, _) => LookingUp
          case Close(_) => Removing)];
      }
      Record(before, Event.Arrive(t, request, allowed));
    }

    /** The first look at the table, under its lock. */
    method OpenCheck(t: TaskId)
      requires Valid() && At(t, Checking)
      modifies this
      ensures Valid() && Did(Check(t))
    {
      hide Structure, HistoryOk, Run;
      Holds();
      ghost var before := View();
      FitsIn(View(), t);
      var c := tasks[t].request.connectionId;
      if c in connections {
        MoveTo(t, Replied(ExistingReply(tasks[t].request, connections[c])));
      } else {
        MoveTo(t, Acquiring);
      }
      Record(before, Check(t));
    }

    /** `try_acquire_owned`. */
    method OpenAcquire(t: TaskId)
      requires Valid() && At(t, Acquiring)
      modifies this
      ensures Valid() && Did(Acquire(t))
    {
      hide Structure, HistoryOk, Run;
      Holds();
      ghost var before := View();
      FitsIn(View(), t);
      if freePermits == 0 {
        MoveTo(t, Replied(Error(Capacity)));
      } else {
        freePermits := freePermits - 1;
        MoveTo(t, Connecting);
      }
      Record(before, Acquire(t));
    }

    /** The connect attempt ends; no lock was held while it ran. */
    method OpenConnect(t: TaskId, connect: ConnectOutcome)
      requires Valid() && At(t, Connecting) && (connect.Connected? ==> connect.cell !in cells)
      modifies this
      ensures Valid() && Did(Connect(t, connect))
    {
      hide Structure, HistoryOk, Run;
      Holds();
      ghost var before := View();
      FitsIn(View(), t);
      match connect {
        case Connected(k) =>
          cells := cells[k := NEW_CELL];
          MoveTo(t, Inserting(k));
        case Refused =>
          freePermits := freePermits + 1;
          MoveTo(t, Replied(Error(ConnectFailed)));
        case TimedOut =>
          freePermits := freePermits + 1;
          MoveTo(t, Replied(Error(Timeout)));
      }
      Record(before, Connect(t, connect));
    }

    /** The second look at the table: another Open may have won the id in the meantime. */
    method OpenInsert(t: TaskId)
      requires Valid() && t in tasks && tasks[t].pc.Inserting?
      modifies this
      ensures Valid() && Did(Insert(t))
    {
      hide Structure, HistoryOk, Run;
      Holds();
      ghost var before := View();
      FitsIn(View(), t);
      var request, k := tasks[t].request, tasks[t].pc.cell;
      var c := request.connectionId;
      if c in connections {
        MoveTo(t, Yielding(ExistingReply(request, connections[c])));
      } else {
        connections := connections[c := Entry(request.forwardId, request.destination, k)];
        MoveTo(t, Replied(Opened(c)));
      }
      Record(before, Insert(t));
    }

    /** An Open that lost the id drops its stream and with it the permit. */
    method OpenYield(t: TaskId)
      requires Valid() && t in tasks && tasks[t].pc.Yielding?
      modifies this
      ensures Valid() && Did(Yield(t))
    {
      hide Structure, HistoryOk, Run;
      Holds();
      ghost var before := View();
      FitsIn(View(), t);
      freePermits := freePermits + 1;
      MoveTo(t, Replied(tasks[t].pc.pending));
      Record(before, Yield(t));
    }

    /** The io object is taken out of the table; the table lock is then released. */
    method ExchangeLookUp(t: TaskId)
      requires Valid() && At(t, LookingUp)
      modifies this
      ensures Valid() && Did(LookUp(t))
    {
      hide Structure, HistoryOk, Run;
      Holds();
      ghost var before := View();
      FitsIn(View(), t);
      var c := tasks[t].request.connectionId;
      if c in connections {
        MoveTo(t, AwaitingIo(connections[c].cell));
      } else {
        MoveTo(t, Replied(Error(NotFound)));
      }
      Record(before, LookUp(t));
    }

    /** The io lock is granted. */
    method ExchangeLock(t: TaskId)
      requires Valid() && t in tasks && tasks[t].pc.AwaitingIo?
      requires tasks[t].pc.cell in cells && cells[tasks[t].pc.cell].holder == None
      modifies this
      ensures Valid() && Did(Lock(t))
    {
      hide Structure, HistoryOk, Run;
      Holds();
      ghost var before := View();
      HeldCell(View(), t, tasks[t].pc.cell);
      var request, k := tasks[t].request, tasks[t].pc.cell;
      var payload := request.write.value;
      if payload != [] && cells[k].writeClosed {
        MoveTo(t, Replied(Error(InvalidRequest)));
      } else if payload != [] {
        cells := cells[k := cells[k].(holder := Some(t), turns := cells[k].turns + [Turn(t, payload, 0, InProgress)])];
        MoveTo(t, Writing(k, 0));
      } else {
        cells := cells[k := cells[k].(holder := Some(t))];
        MoveTo(t, AfterWrite(request, k, cells[k]));
      }
      Record(before, Lock(t));
    }

    /** `write_all` makes progress or fails. */
    method ExchangeWrite(t: TaskId, write: WriteOutcome)
      requires Valid() && t in tasks && tasks[t].pc.Writing?
      requires write.Accepted? ==>
        && tasks[t].request.Exchange? && tasks[t].request.write.Some?
        && 0 < write.count <= |tasks[t].request.write.value| - tasks[t].pc.sent
      modifies this
      ensures Valid() && Did(Write(t, write))
    {
      hide Structure, Run;
      Holds();
      ghost var before := View();
      HeldCell(View(), t, tasks[t].pc.cell);
      var request, k, sent := tasks[t].request, tasks[t].pc.cell, tasks[t].pc.sent;
      var cell, payload := cells[k], request.write.value;
      match write {
        case Accepted(n) =>
          var whole := sent + n == |payload|;
          var last := |cell.turns| - 1;
          var turn := cell.turns[last].(sent := sent + n, outcome := if whole then Whole else InProgress);
          cells := cells[k := cell.(delivered := cell.delivered + payload[sent..sent + n],
                                    turns := cell.turns[last := turn])];
          MoveTo(t, if whole then AfterWrite(request, k, cell) else Writing(k, sent + n));
        case WriteFailed =>
          cells := cells[k := Unlocked(BreakLastTurn(cell))];
          MoveTo(t, Replied(Error(Io)));
      }
      Record(before, Write(t, write));
    }

    /** `shutdown` returns. */
    method ExchangeHalfClose(t: TaskId, ok: bool)
      requires Valid() && t in tasks && tasks[t].pc.HalfClosing?
      modifies this
      ensures Valid() && Did(HalfClose(t, ok))
    {
      hide Structure, HistoryOk, Run;
      Holds();
      ghost var before := View();
      HeldCell(View(), t, tasks[t].pc.cell);
      var k := tasks[t].pc.cell;
      if ok {
        cells := cells[k := cells[k].(writeClosed := true, shutdowns := cells[k].shutdowns + 1)];
        MoveTo(t, Reading(k));
      } else {
        cells := cells[k := Unlocked(cells[k])];
        MoveTo(t, Replied(Error(Io)));
      }
      Record(before, HalfClose(t, ok));
    }

    /** The bounded read returns, times out or fails; the io lock is released. */
    method ExchangeRead(t: TaskId, read: ReadOutcome)
      requires Valid() && t in tasks && tasks[t].pc.Reading?
      requires read.Received? ==> tasks[t].request.Exchange? && |read.bytes| <= tasks[t].request.maxReadBytes
      modifies this
      ensures Valid() && Did(Read(t, read))
    {
      hide Structure, HistoryOk, Run;
      Holds();
      ghost var before := View();
      HeldCell(View(), t, tasks[t].pc.cell);
      var k, c := tasks[t].pc.cell, tasks[t].request.connectionId;
      cells := cells[k := Unlocked(cells[k])];
      match read {
        case Received(bytes) => MoveTo(t, Replied(ExchangedReply(c, bytes, bytes == [])));
        case NothingYet => MoveTo(t, Replied(ExchangedReply(c, [], false)));
        case ReadFailed => MoveTo(t, Replied(Error(Io)));
      }
      Record(before, Read(t, read));
    }

    /** The entry is removed, and its permit with it. */
    method CloseRemove(t: TaskId)
      requires Valid() && At(t, Removing)
      modifies this
      ensures Valid() && Did(Remove(t))
    {
      hide Structure, HistoryOk, Run;
      Holds();
      ghost var before := View();
      FitsIn(View(), t);
      var c := tasks[t].request.connectionId;
      if c in connections {
        connections, freePermits := connections - {c}, freePermits + 1;
        MoveTo(t, Replied(Closed(c)));
      } else {
        MoveTo(t, Replied(Error(NotFound)));
      }
      Record(before, Remove(t));
    }

    /** The future is dropped at a point where it waits. */
    method Cancel(t: TaskId)
      requires Valid() && t in tasks && (tasks[t].pc.Connecting? || tasks[t].pc.AwaitingIo? || tasks[t].pc.HoldsLock())
      modifies this
      ensures Valid() && Did(Event.Cancel(t))
    {
      hide Structure, HistoryOk, Run;
      Holds();
      ghost var before := View();
      if tasks[t].pc.HoldsLock() {
        HeldCell(View(), t, tasks[t].pc.cell);
      }
      var pc := tasks[t].pc;
      if pc.Connecting? {
        freePermits := freePermits + 1;
      } else if pc.HoldsLock() {
        cells := cells[pc.cell := Unlocked(if pc.Writing? then BreakLastTurn(cells[pc.cell]) else cells[pc.cell])];
      }
      MoveTo(t, Dropped);
      Record(before, Event.Cancel(t));
    }
  }

  lemma FitsIn(s: State, t: TaskId)
    requires Structure(s) && t in s.tasks
    ensures TaskFits(s.tasks[t])
  {
  }
}
