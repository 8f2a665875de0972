/** What every event of the forward service keeps, hence what holds in every reachable state. */
module ForwardInvariant {
  import opened Wrappers
  import opened Text
  import opened Forward

  type Tasks = map<TaskId, Task>
  type Cells = map<CellId, Cell>
  type Connections = map<ConnectionId, Entry>

  // ---------------------------------------------------------------- the invariant

  function PermitHolders(tasks: Tasks): set<TaskId> {
    set t | t in tasks && tasks[t].pc.HoldsPermit()
  }

  /** Permits are conserved: each is free, owned by a request, or owned by a table entry. */
  ghost predicate PermitsConserved(s: State, capacity: nat) {
    s.freePermits + |PermitHolders(s.tasks)| + |s.connections| == capacity
  }

  /** A task stands only where its request can take it. */
  ghost predicate TaskFits(task: Task) {
    && (task.pc.OfOpen() ==> task.request.Open?)
    && (task.pc.OfExchange() ==> task.request.Exchange? && task.request.Valid())
    && (task.pc.Removing? ==> task.request.Close?)
    && (task.pc.Yielding? ==> !task.pc.pending.Exchanged?)
  }

  ghost predicate TasksFit(tasks: Tasks) {
    forall t | t in tasks :: TaskFits(tasks[t])
  }

  /** No two table entries share an io object. */
  ghost predicate EntriesUnshared(connections: Connections, cells: Cells) {
    && (forall c | c in connections :: connections[c].cell in cells)
    && (forall c, c' | c in connections && c' in connections && c != c' ::
          connections[c].cell != connections[c'].cell)
  }

  /** The stream of a connection that is not yet in the table is known to its own task only. */
  ghost predicate StreamsPrivate(connections: Connections, cells: Cells, tasks: Tasks) {
    && (forall t | t in tasks && tasks[t].pc.Inserting? ::
          && tasks[t].pc.cell in cells && cells[tasks[t].pc.cell] == NEW_CELL
          && (forall c | c in connections :: connections[c].cell != tasks[t].pc.cell)
          && (forall u | u in tasks && u != t && (tasks[u].pc.Inserting? || tasks[u].pc.AwaitingIo?) ::
                tasks[u].pc.cell != tasks[t].pc.cell))
    && (forall t | t in tasks && tasks[t].pc.AwaitingIo? :: tasks[t].pc.cell in cells)
  }

  /** The io lock of a cell is owned by exactly the one task that is using the stream. */
  ghost predicate LocksExclusive(cells: Cells, tasks: Tasks) {
    && (forall k | k in cells && cells[k].holder.Some? ::
          var t := cells[k].holder.value;
          t in tasks && tasks[t].pc.HoldsLock() && tasks[t].pc.cell == k)
    && (forall t | t in tasks && tasks[t].pc.HoldsLock() ::
          tasks[t].pc.cell in cells && cells[tasks[t].pc.cell].holder == Some(t))
  }

  predicate TurnsBounded(turns: seq<Turn>) {
    forall i | 0 <= i < |turns| :: turns[i].sent <= |turns[i].payload|
  }

  /** The bytes that a list of writers handed over, in order. */
  function Handed(turns: seq<Turn>): seq<byte>
    requires TurnsBounded(turns)
  {
    if turns == [] then []
    else Handed(turns[..|turns| - 1]) + turns[|turns| - 1].payload[..turns[|turns| - 1].sent]
  }

  ghost predicate TurnOk(turn: Turn, last: bool) {
    && turn.sent <= |turn.payload|
    && (turn.outcome == Whole <==> turn.sent == |turn.payload|)
    && (turn.outcome == InProgress ==> last)
  }

  /** The history of one stream: the delivered bytes are the payloads of the writers in lock
      order, each whole unless it broke off, and the write side was shut down at most once. */
  ghost predicate HistoryOk(cell: Cell) {
    && (forall i | 0 <= i < |cell.turns| :: TurnOk(cell.turns[i], i == |cell.turns| - 1))
    && cell.delivered == Handed(cell.turns)
    && cell.shutdowns == (if cell.writeClosed then 1 else 0)
  }

  ghost predicate HistoriesOk(cells: Cells) {
    forall k | k in cells :: HistoryOk(cells[k])
  }

  predicate MidTurn(cell: Cell) {
    cell.turns != [] && cell.turns[|cell.turns| - 1].outcome == InProgress
  }

  /** Task `t` is in the middle of writing its payload on `cell`, which is still open. */
  ghost predicate WriterMatches(cell: Cell, t: TaskId, task: Task)
    requires task.pc.Writing?
  {
    && task.request.Exchange? && task.request.write.Some? && MidTurn(cell) && !cell.writeClosed
    && cell.turns[|cell.turns| - 1] == Turn(t, task.request.write.value, task.pc.sent, InProgress)
  }

  /** A turn is in progress exactly while its task is writing, and only an open stream is closed. */
  ghost predicate WritersMatch(cells: Cells, tasks: Tasks) {
    && (forall t | t in tasks && tasks[t].pc.Writing? ::
          tasks[t].pc.cell in cells && WriterMatches(cells[tasks[t].pc.cell], t, tasks[t]))
    && (forall t | t in tasks && tasks[t].pc.HalfClosing? ::
          tasks[t].pc.cell in cells && !cells[tasks[t].pc.cell].writeClosed)
    && (forall k | k in cells && MidTurn(cells[k]) ::
          && cells[k].holder.Some? && cells[k].holder.value in tasks
          && tasks[cells[k].holder.value].pc.Writing?)
  }

  /** A turn is the payload of an Exchange that already took its lock. */
  ghost predicate TurnOfTask(turn: Turn, tasks: Tasks) {
    && turn.task in tasks
    && tasks[turn.task].request.Exchange?
    && tasks[turn.task].request.write == Some(turn.payload)
    && (tasks[turn.task].pc.HoldsLock() || tasks[turn.task].pc.Replied? || tasks[turn.task].pc.Dropped?)
  }

  ghost predicate CellTurnsOfTasks(cell: Cell, tasks: Tasks) {
    forall i | 0 <= i < |cell.turns| :: TurnOfTask(cell.turns[i], tasks)
  }

  ghost predicate TurnsOfTasks(cells: Cells, tasks: Tasks) {
    forall k | k in cells :: CellTurnsOfTasks(cells[k], tasks)
  }

  ghost predicate TurnAt(cells: Cells, k: CellId, i: nat) {
    k in cells && i < |cells[k].turns|
  }

  /** An Exchange writes its payload on one stream only, and only once. */
  ghost predicate TurnsUnique(cells: Cells) {
    forall k, i: nat, k', i': nat {:trigger TurnAt(cells, k, i), TurnAt(cells, k', i')}
      | TurnAt(cells, k, i) && TurnAt(cells, k', i') && cells[k].turns[i].task == cells[k'].turns[i'].task ::
      k == k' && i == i'
  }

  ghost predicate HasWholeTurn(cells: Cells, t: TaskId) {
    exists k, i: nat {:trigger TurnAt(cells, k, i)} ::
      TurnAt(cells, k, i) && cells[k].turns[i].task == t && cells[k].turns[i].outcome == Whole
  }

  predicate PastWrite(pc: Pc) {
    pc.HalfClosing? || pc.Reading? || (pc.Replied? && pc.reply.Exchanged?)
  }

  /** A task that is past its write, or replied `Exchanged`, delivered its whole payload. */
  ghost predicate PayloadDelivered(cells: Cells, tasks: Tasks) {
    forall t | t in tasks && tasks[t].request.Exchange? && PastWrite(tasks[t].pc) ::
      tasks[t].request.write == Some([]) || HasWholeTurn(cells, t)
  }

  ghost predicate Structure(s: State) {
    && TasksFit(s.tasks)
    && EntriesUnshared(s.connections, s.cells)
    && StreamsPrivate(s.connections, s.cells, s.tasks)
    && LocksExclusive(s.cells, s.tasks)
    && HistoriesOk(s.cells)
    && WritersMatch(s.cells, s.tasks)
    && TurnsOfTasks(s.cells, s.tasks)
    && TurnsUnique(s.cells)
    && PayloadDelivered(s.cells, s.tasks)
  }

  ghost predicate Inv(s: State, capacity: nat) {
    PermitsConserved(s, capacity) && Structure(s)
  }

  // ---------------------------------------------------------------- permits

  lemma PermitHoldersMove(tasks: Tasks, t: TaskId, task: Task)
    ensures var before, after := PermitHolders(tasks), PermitHolders(tasks[t := task]);
            |after| == |before| - (if t in before then 1 else 0) + (if task.pc.HoldsPermit() then 1 else 0)
  {
    var before, after := PermitHolders(tasks), PermitHolders(tasks[t := task]);
    var others := before - {t};
    assert after == if task.pc.HoldsPermit() then others + {t} else others;
  }

  // ---------------------------------------------------------------- moves that touch no cell

  /** Task `t`, perhaps new, may move to `task` while table and cells stay as they are. */
  ghost predicate MoveAllowed(s: State, t: TaskId, task: Task) {
    && TaskFits(task)
    && (t in s.tasks ==>
          && !s.tasks[t].pc.HoldsLock()
          && !s.tasks[t].pc.Replied? && !s.tasks[t].pc.Dropped?
          && s.tasks[t].request == task.request)
    && !task.pc.HoldsLock() && !task.pc.Inserting?
    && (task.pc.AwaitingIo? ==> t in s.tasks && s.tasks[t].pc.LookingUp?
                                && exists c :: c in s.connections && s.connections[c].cell == task.pc.cell)
    && (task.pc.Replied? ==> !task.pc.reply.Exchanged?)
  }

  lemma MoveStreamsPrivate(s: State, t: TaskId, task: Task)
    requires EntriesUnshared(s.connections, s.cells) && StreamsPrivate(s.connections, s.cells, s.tasks)
    requires MoveAllowed(s, t, task)
    ensures StreamsPrivate(s.connections, s.cells, s.tasks[t := task])
  {
  }

  lemma MoveLocksExclusive(s: State, t: TaskId, task: Task)
    requires LocksExclusive(s.cells, s.tasks)
    requires MoveAllowed(s, t, task)
    ensures LocksExclusive(s.cells, s.tasks[t := task])
  {
  }

  lemma MoveWritersMatch(s: State, t: TaskId, task: Task)
    requires WritersMatch(s.cells, s.tasks)
    requires MoveAllowed(s, t, task)
    ensures WritersMatch(s.cells, s.tasks[t := task])
  {
  }

  lemma MoveTurnsOfTasks(s: State, t: TaskId, task: Task)
    requires TurnsOfTasks(s.cells, s.tasks)
    requires MoveAllowed(s, t, task)
    ensures TurnsOfTasks(s.cells, s.tasks[t := task])
  {
  }

  lemma MovePayloadDelivered(s: State, t: TaskId, task: Task)
    requires PayloadDelivered(s.cells, s.tasks)
    requires MoveAllowed(s, t, task)
    ensures PayloadDelivered(s.cells, s.tasks[t := task])
  {
  }

  lemma MoveKeeps(s: State, t: TaskId, task: Task, free: nat)
    requires Structure(s)
    requires MoveAllowed(s, t, task)
    ensures Structure(s.(tasks := s.tasks[t := task], freePermits := free))
  {
    MoveStreamsPrivate(s, t, task);
    MoveLocksExclusive(s, t, task);
    MoveWritersMatch(s, t, task);
    MoveTurnsOfTasks(s, t, task);
    MovePayloadDelivered(s, t, task);
  }

  // ---------------------------------------------------------------- moves of Open and Close

  lemma ConnectStreamsPrivate(connections: Connections, cells: Cells, tasks: Tasks, t: TaskId, k: CellId, task: Task)
    requires EntriesUnshared(connections, cells) && StreamsPrivate(connections, cells, tasks)
    requires t in tasks && k !in cells && task.pc == Inserting(k)
    ensures EntriesUnshared(connections, cells[k := NEW_CELL])
    ensures StreamsPrivate(connections, cells[k := NEW_CELL], tasks[t := task])
  {
  }

  lemma ConnectLocks(cells: Cells, tasks: Tasks, t: TaskId, k: CellId, task: Task)
    requires LocksExclusive(cells, tasks) && t in tasks && tasks[t].pc.Connecting?
    requires k !in cells && task.pc == Inserting(k)
    ensures LocksExclusive(cells[k := NEW_CELL], tasks[t := task])
  {
  }

  lemma ConnectWriters(cells: Cells, tasks: Tasks, t: TaskId, k: CellId, task: Task)
    requires WritersMatch(cells, tasks) && LocksExclusive(cells, tasks)
    requires t in tasks && tasks[t].pc.Connecting? && k !in cells && task.pc == Inserting(k)
    ensures WritersMatch(cells[k := NEW_CELL], tasks[t := task])
  {
  }

  lemma ConnectTurns(cells: Cells, tasks: Tasks, t: TaskId, k: CellId, task: Task)
    requires TurnsOfTasks(cells, tasks) && t in tasks && tasks[t].pc.Connecting?
    requires k !in cells && task.pc == Inserting(k)
    ensures TurnsOfTasks(cells[k := NEW_CELL], tasks[t := task])
  {
  }

  /** A cell keeps the turns it had; only a turn that is not whole may still change. */
  ghost predicate Grows(before: Cell, after: Cell) {
    && |before.turns| <= |after.turns|
    && forall i | 0 <= i < |before.turns| ::
         after.turns[i].task == before.turns[i].task
         && (before.turns[i].outcome == Whole ==> after.turns[i] == before.turns[i])
  }

  lemma WholeTurnKept(cells: Cells, k: CellId, after: Cell, t: TaskId)
    requires k in cells ==> Grows(cells[k], after)
    requires HasWholeTurn(cells, t)
    ensures HasWholeTurn(cells[k := after], t)
  {
    var j, i: nat :| TurnAt(cells, j, i) && cells[j].turns[i].task == t && cells[j].turns[i].outcome == Whole;
    assert TurnAt(cells[k := after], j, i);
  }

  lemma DeliveredKept(cells: Cells, tasks: Tasks, k: CellId, after: Cell, t: TaskId, task: Task)
    requires PayloadDelivered(cells, tasks)
    requires k in cells ==> Grows(cells[k], after)
    requires task.request.Exchange? && PastWrite(task.pc) ==>
      task.request.write == Some([]) || HasWholeTurn(cells[k := after], t)
    ensures PayloadDelivered(cells[k := after], tasks[t := task])
  {
    forall u | u in tasks && u != t && tasks[u].request.Exchange? && PastWrite(tasks[u].pc)
               && tasks[u].request.write != Some([])
      ensures HasWholeTurn(cells[k := after], u)
    {
      WholeTurnKept(cells, k, after, u);
    }
  }

  lemma ConnectHistories(cells: Cells, k: CellId)
    requires HistoriesOk(cells) && TurnsUnique(cells) && k !in cells
    ensures HistoriesOk(cells[k := NEW_CELL]) && TurnsUnique(cells[k := NEW_CELL])
  {
    var cells' := cells[k := NEW_CELL];
    assert HistoryOk(NEW_CELL);
    forall j, i: nat, j', i': nat | TurnAt(cells', j, i) && TurnAt(cells', j', i')
                                    && cells'[j].turns[i].task == cells'[j'].turns[i'].task
      ensures j == j' && i == i'
    {
      assert TurnAt(cells, j, i) && TurnAt(cells, j', i');
    }
  }

  lemma ConnectKeeps(s: State, t: TaskId, k: CellId)
    requires Structure(s) && t in s.tasks && s.tasks[t].pc.Connecting? && k !in s.cells
    ensures Structure(PutCell(Move(s, t, Inserting(k)), k, NEW_CELL))
  {
    var task := s.tasks[t].(pc := Inserting(k));
    ConnectStreamsPrivate(s.connections, s.cells, s.tasks, t, k, task);
    ConnectLocks(s.cells, s.tasks, t, k, task);
    ConnectWriters(s.cells, s.tasks, t, k, task);
    ConnectTurns(s.cells, s.tasks, t, k, task);
    ConnectHistories(s.cells, k);
    DeliveredKept(s.cells, s.tasks, k, NEW_CELL, t, task);
  }

  lemma InsertEntry(connections: Connections, cells: Cells, tasks: Tasks, t: TaskId, task: Task,
                    c: ConnectionId, entry: Entry)
    requires EntriesUnshared(connections, cells) && StreamsPrivate(connections, cells, tasks)
    requires t in tasks && tasks[t].pc == Inserting(entry.cell) && c !in connections && task.pc.Replied?
    ensures EntriesUnshared(connections[c := entry], cells)
    ensures StreamsPrivate(connections[c := entry], cells, tasks[t := task])
  {
  }

  lemma InsertKeeps(s: State, t: TaskId, c: ConnectionId, entry: Entry)
    requires Structure(s) && t in s.tasks && s.tasks[t].pc == Inserting(entry.cell) && c !in s.connections
    ensures Structure(Move(s, t, Replied(Opened(c))).(connections := s.connections[c := entry]))
  {
    var task := s.tasks[t].(pc := Replied(Opened(c)));
    MoveKeeps(s, t, task, s.freePermits);
    InsertEntry(s.connections, s.cells, s.tasks, t, task, c, entry);
  }

  lemma RemoveKeeps(s: State, t: TaskId, c: ConnectionId, free: nat)
    requires Structure(s) && t in s.tasks && s.tasks[t].pc.Removing?
    ensures Structure(Move(s, t, Replied(Closed(c))).(connections := s.connections - {c}, freePermits := free))
  {
    var moved := Move(s, t, Replied(Closed(c)));
    MoveKeeps(s, t, moved.tasks[t], free);
  }

  // ---------------------------------------------------------------- moves on a locked stream

  /** Task `t` takes the free lock of cell `k` it waits for, or already owns it; it leaves the cell
      as `after` and goes on as `task`. */
  ghost predicate Holds(cells: Cells, tasks: Tasks, t: TaskId, k: CellId) {
    && t in tasks && k in cells
    && ((tasks[t].pc == AwaitingIo(k) && cells[k].holder == None) || (tasks[t].pc.HoldsLock() && tasks[t].pc.cell == k))
  }

  ghost predicate LeavesLock(k: CellId, t: TaskId, after: Cell, task: Task) {
    && (task.pc.HoldsLock() || task.pc.Replied? || task.pc.Dropped?)
    && (task.pc.HoldsLock() ==> task.pc.cell == k)
    && after.holder == if task.pc.HoldsLock() then Some(t) else None
  }

  ghost predicate LeavesTurn(t: TaskId, after: Cell, task: Task) {
    && (if task.pc.Writing? then WriterMatches(after, t, task) else !MidTurn(after))
    && (task.pc.HalfClosing? ==> !after.writeClosed)
  }

  /** The turns of `before` stay the same payloads of the same tasks; at most one, of `t`, is new. */
  ghost predicate KeepsTurns(before: Cell, after: Cell, t: TaskId, task: Task) {
    && Grows(before, after)
    && (forall i | 0 <= i < |before.turns| :: after.turns[i].payload == before.turns[i].payload)
    && (|after.turns| == |before.turns|
        || (|after.turns| == |before.turns| + 1
            && task.request.Exchange? && after.turns[|before.turns|].task == t
            && task.request.write == Some(after.turns[|before.turns|].payload)))
  }

  lemma HoldStreams(connections: Connections, cells: Cells, tasks: Tasks, t: TaskId, k: CellId, after: Cell, task: Task)
    requires EntriesUnshared(connections, cells) && StreamsPrivate(connections, cells, tasks)
    requires LocksExclusive(cells, tasks)
    requires Holds(cells, tasks, t, k) && LeavesLock(k, t, after, task)
    ensures EntriesUnshared(connections, cells[k := after])
    ensures StreamsPrivate(connections, cells[k := after], tasks[t := task])
  {
    var cells', tasks' := cells[k := after], tasks[t := task];
    forall u | u in tasks' && tasks'[u].pc.Inserting?
      ensures u in tasks && tasks[u].pc == tasks'[u].pc && u != t
      ensures tasks[u].pc.cell in cells && tasks[u].pc.cell != k && cells'[tasks[u].pc.cell] == NEW_CELL
    {
      assert u in tasks && tasks[u].pc == tasks'[u].pc;
    }
  }

  lemma HoldLocks(cells: Cells, tasks: Tasks, t: TaskId, k: CellId, after: Cell, task: Task)
    requires LocksExclusive(cells, tasks)
    requires Holds(cells, tasks, t, k) && LeavesLock(k, t, after, task)
    ensures LocksExclusive(cells[k := after], tasks[t := task])
  {
  }

  lemma HoldWriters(cells: Cells, tasks: Tasks, t: TaskId, k: CellId, after: Cell, task: Task)
    requires LocksExclusive(cells, tasks) && WritersMatch(cells, tasks)
    requires Holds(cells, tasks, t, k) && LeavesLock(k, t, after, task) && LeavesTurn(t, after, task)
    ensures WritersMatch(cells[k := after], tasks[t := task])
  {
  }

  lemma HoldTurns(cells: Cells, tasks: Tasks, t: TaskId, k: CellId, after: Cell, task: Task)
    requires TurnsOfTasks(cells, tasks)
    requires Holds(cells, tasks, t, k) && LeavesLock(k, t, after, task)
    requires task.request == tasks[t].request && KeepsTurns(cells[k], after, t, task)
    ensures TurnsOfTasks(cells[k := after], tasks[t := task])
  {
    var tasks' := tasks[t := task];
    forall j | j in cells
      ensures j != k ==> CellTurnsOfTasks(cells[j], tasks')
    {
      assert CellTurnsOfTasks(cells[j], tasks);
    }
    forall i | 0 <= i < |after.turns|
      ensures TurnOfTask(after.turns[i], tasks')
    {
      if i < |cells[k].turns| {
        assert TurnOfTask(cells[k].turns[i], tasks);
      }
    }
  }

  lemma HoldTurnsUnique(cells: Cells, tasks: Tasks, t: TaskId, k: CellId, after: Cell, task: Task)
    requires TurnsUnique(cells) && TurnsOfTasks(cells, tasks)
    requires k in cells && t in tasks && KeepsTurns(cells[k], after, t, task)
    requires |after.turns| > |cells[k].turns| ==> tasks[t].pc.AwaitingIo?
    ensures TurnsUnique(cells[k := after])
  {
    var cells' := cells[k := after];
    forall j, i: nat, j', i': nat | TurnAt(cells', j, i) && TurnAt(cells', j', i')
                                    && cells'[j].turns[i].task == cells'[j'].turns[i'].task
      ensures j == j' && i == i'
    {
      var old0 := i < |cells[j].turns|;
      var old1 := i' < |cells[j'].turns|;
      assert old0 ==> TurnAt(cells, j, i) && cells'[j].turns[i].task == cells[j].turns[i].task;
      assert old1 ==> TurnAt(cells, j', i') && cells'[j'].turns[i'].task == cells[j'].turns[i'].task;
      assert old0 ==> TurnOfTask(cells[j].turns[i], tasks);
      assert old1 ==> TurnOfTask(cells[j'].turns[i'], tasks);
    }
  }

  /** A legal change of a held cell. */
  ghost predicate CellStep(before: Cell, after: Cell, k: CellId, t: TaskId, task: Task) {
    && LeavesLock(k, t, after, task) && LeavesTurn(t, after, task) && HistoryOk(after)
    && KeepsTurns(before, after, t, task)
  }

  lemma HoldKeeps(s: State, t: TaskId, k: CellId, after: Cell, task: Task)
    requires Structure(s) && Holds(s.cells, s.tasks, t, k)
    requires task.request == s.tasks[t].request && TaskFits(task)
    requires CellStep(s.cells[k], after, k, t, task)
    requires |after.turns| > |s.cells[k].turns| ==> s.tasks[t].pc.AwaitingIo?
    requires task.request.Exchange? && PastWrite(task.pc) ==>
      task.request.write == Some([]) || HasWholeTurn(s.cells[k := after], t)
    ensures Structure(s.(tasks := s.tasks[t := task], cells := s.cells[k := after]))
  {
    HoldStreams(s.connections, s.cells, s.tasks, t, k, after, task);
    HoldLocks(s.cells, s.tasks, t, k, after, task);
    HoldWriters(s.cells, s.tasks, t, k, after, task);
    HoldTurns(s.cells, s.tasks, t, k, after, task);
    HoldTurnsUnique(s.cells, s.tasks, t, k, after, task);
    DeliveredKept(s.cells, s.tasks, k, after, t, task);
  }

  // ---------------------------------------------------------------- the steps of an Exchange

  lemma HandedNewTurn(turns: seq<Turn>, turn: Turn)
    requires TurnsBounded(turns) && turn.sent == 0
    ensures Handed(turns + [turn]) == Handed(turns)
  {
    assert (turns + [turn])[..|turns|] == turns;
  }

  lemma HandedMore(turns: seq<Turn>, turn: Turn)
    requires turns != [] && TurnsBounded(turns)
    requires turn.payload == turns[|turns| - 1].payload
    requires turns[|turns| - 1].sent <= turn.sent <= |turn.payload|
    ensures Handed(turns[|turns| - 1 := turn]) == Handed(turns) + turn.payload[turns[|turns| - 1].sent..turn.sent]
  {
    hide Handed;
    var last := |turns| - 1;
    var updated := turns[last := turn];
    HandedLast(turns);
    HandedLast(updated);
    assert updated[..last] == turns[..last];
    SliceGrows(turn.payload, turns[last].sent, turn.sent);
    Associative(Handed(turns[..last]), turn.payload[..turns[last].sent], turn.payload[turns[last].sent..turn.sent]);
  }

  lemma SliceGrows(payload: seq<byte>, from: nat, to: nat)
    requires from <= to <= |payload|
    ensures payload[..to] == payload[..from] + payload[from..to]
  {
  }

  lemma HandedLast(turns: seq<Turn>)
    requires turns != [] && TurnsBounded(turns)
    ensures Handed(turns) == Handed(turns[..|turns| - 1]) + turns[|turns| - 1].payload[..turns[|turns| - 1].sent]
  {
  }

  lemma Associative(a: seq<byte>, b: seq<byte>, c: seq<byte>)
    ensures a + (b + c) == (a + b) + c
  {
  }

  /** The write breaks off: an error or a cancelled task. */
  lemma BreakCell(cell: Cell, k: CellId, t: TaskId, task: Task)
    requires HistoryOk(cell) && (task.pc.Replied? || task.pc.Dropped?)
    ensures CellStep(cell, Unlocked(BreakLastTurn(cell)), k, t, task)
  {
    if MidTurn(cell) {
      HandedMore(cell.turns, BreakLastTurn(cell).turns[|cell.turns| - 1]);
    }
  }

  lemma LockToWrite(cell: Cell, k: CellId, t: TaskId, task: Task)
    requires HistoryOk(cell) && !MidTurn(cell) && task.request.Exchange? && task.request.write.Some?
    requires task.request.write.value != [] && task.pc == Writing(k, 0) && !cell.writeClosed
    ensures CellStep(cell, cell.(holder := Some(t),
                                 turns := cell.turns + [Turn(t, task.request.write.value, 0, InProgress)]), k, t, task)
  {
    hide Handed;
    var turn := Turn(t, task.request.write.value, 0, InProgress);
    HandedNewTurn(cell.turns, turn);
    assert forall i | 0 <= i < |cell.turns| :: (cell.turns + [turn])[i] == cell.turns[i];
  }

  lemma LockToRead(cell: Cell, k: CellId, t: TaskId, task: Task)
    requires HistoryOk(cell) && !MidTurn(cell) && task.request.Exchange?
    requires task.pc == AfterWrite(task.request, k, cell)
    ensures CellStep(cell, cell.(holder := Some(t)), k, t, task)
  {
    hide Handed;
  }

  lemma LockCell(cell: Cell, k: CellId, t: TaskId, task: Task)
    requires HistoryOk(cell) && !MidTurn(cell) && task.request.Exchange? && task.request.write.Some?
    requires var payload := task.request.write.value;
             if payload != [] then task.pc == Writing(k, 0) && !cell.writeClosed
             else task.pc == AfterWrite(task.request, k, cell)
    ensures var payload := task.request.write.value;
            CellStep(cell, cell.(holder := Some(t),
                                 turns := if payload != [] then cell.turns + [Turn(t, payload, 0, InProgress)]
                                          else cell.turns), k, t, task)
  {
    hide CellStep, HistoryOk;
    if task.request.write.value != [] {
      LockToWrite(cell, k, t, task);
    } else {
      LockToRead(cell, k, t, task);
    }
  }

  lemma WriteCell(cell: Cell, k: CellId, t: TaskId, was: Task, n: nat, task: Task)
    requires HistoryOk(cell) && was.pc.Writing? && WriterMatches(cell, t, was) && cell.holder == Some(t)
    requires task.request == was.request
    requires var total, sent := |was.request.write.value|, was.pc.sent + n;
             n > 0 && sent <= total
             && task.pc == if sent == total then AfterWrite(task.request, k, cell) else Writing(k, sent)
    ensures var payload, last := was.request.write.value, |cell.turns| - 1;
            var sent := was.pc.sent + n;
            var outcome := if sent == |payload| then Whole else InProgress;
            CellStep(cell, cell.(delivered := cell.delivered + payload[was.pc.sent..sent],
                                 turns := cell.turns[last := cell.turns[last].(sent := sent, outcome := outcome)]),
                     k, t, task)
  {
    var payload, last := was.request.write.value, |cell.turns| - 1;
    var sent := was.pc.sent + n;
    HandedMore(cell.turns, cell.turns[last].(sent := sent, outcome := if sent == |payload| then Whole else InProgress));
  }

  lemma ReleaseCell(cell: Cell, k: CellId, t: TaskId, task: Task)
    requires HistoryOk(cell) && !MidTurn(cell) && (task.pc.Replied? || task.pc.Dropped?)
    ensures CellStep(cell, Unlocked(cell), k, t, task)
  {
  }

  lemma CloseCell(cell: Cell, k: CellId, t: TaskId, task: Task)
    requires HistoryOk(cell) && !MidTurn(cell) && !cell.writeClosed && task.pc == Reading(k) && cell.holder == Some(t)
    ensures CellStep(cell, cell.(writeClosed := true, shutdowns := cell.shutdowns + 1), k, t, task)
  {
  }

  /** Facts about a cell that its user is allowed to rely on. */
  lemma HeldCell(s: State, t: TaskId, k: CellId)
    requires Structure(s)
    requires t in s.tasks && (s.tasks[t].pc.HoldsLock() || s.tasks[t].pc.AwaitingIo?) && s.tasks[t].pc.cell == k
    ensures k in s.cells && HistoryOk(s.cells[k]) && TaskFits(s.tasks[t])
    ensures s.tasks[t].pc.HoldsLock() ==> s.cells[k].holder == Some(t)
    ensures s.tasks[t].pc.HoldsLock() || s.cells[k].holder == None ==> LeavesTurn(t, s.cells[k], s.tasks[t])
  {
  }

  lemma StillDelivered(s: State, t: TaskId, k: CellId, after: Cell)
    requires Structure(s)
    requires t in s.tasks && s.tasks[t].request.Exchange? && PastWrite(s.tasks[t].pc)
    requires k in s.cells && Grows(s.cells[k], after)
    ensures s.tasks[t].request.write == Some([]) || HasWholeTurn(s.cells[k := after], t)
  {
    if s.tasks[t].request.write != Some([]) {
      WholeTurnKept(s.cells, k, after, t);
    }
  }

  lemma LockShape(s: State, t: TaskId, k: CellId)
    requires t in s.tasks && s.tasks[t].request.Exchange? && s.tasks[t].request.write.Some? && k in s.cells
    requires StepLock(s, t, k).Some? && HistoryOk(s.cells[k]) && !MidTurn(s.cells[k])
    ensures var s' := StepLock(s, t, k).value;
            && s.cells[k].holder == None
            && s'.tasks[t].request == s.tasks[t].request
            && if s'.tasks[t].pc.Replied? then
                 s' == s.(tasks := s.tasks[t := s'.tasks[t]]) && !s'.tasks[t].pc.reply.Exchanged?
               else
                 && s' == s.(tasks := s.tasks[t := s'.tasks[t]], cells := s.cells[k := s'.cells[k]])
                 && s'.tasks[t].pc.HoldsLock()
                 && CellStep(s.cells[k], s'.cells[k], k, t, s'.tasks[t])
                 && (PastWrite(s'.tasks[t].pc) ==> s.tasks[t].request.write == Some([]))
  {
    if !StepLock(s, t, k).value.tasks[t].pc.Replied? {
      LockCell(s.cells[k], k, t, StepLock(s, t, k).value.tasks[t]);
    }
  }

  lemma LockKeeps(s: State, t: TaskId, k: CellId)
    requires Structure(s) && t in s.tasks && s.tasks[t].pc == AwaitingIo(k) && k in s.cells
    requires TaskFits(s.tasks[t]) && StepLock(s, t, k).Some?
    ensures Structure(StepLock(s, t, k).value)
  {
    hide Structure, HistoryOk, CellStep;
    var s' := StepLock(s, t, k).value;
    HeldCell(s, t, k);
    LockShape(s, t, k);
    if s'.tasks[t].pc.Replied? {
      MoveKeeps(s, t, s'.tasks[t], s.freePermits);
    } else {
      HoldKeeps(s, t, k, s'.cells[k], s'.tasks[t]);
    }
  }

  lemma WriteTaken(s: State, t: TaskId, k: CellId, sent: nat, w: WriteOutcome)
    requires t in s.tasks && s.tasks[t].pc == Writing(k, sent) && k in s.cells && TaskFits(s.tasks[t])
    requires StepWrite(s, t, k, sent, w).Some?
    requires HistoryOk(s.cells[k]) && WriterMatches(s.cells[k], t, s.tasks[t]) && s.cells[k].holder == Some(t)
    ensures var s' := StepWrite(s, t, k, sent, w).value;
            && s' == s.(tasks := s.tasks[t := s'.tasks[t]], cells := s.cells[k := s'.cells[k]])
            && s'.tasks[t].request == s.tasks[t].request && TaskFits(s'.tasks[t])
            && CellStep(s.cells[k], s'.cells[k], k, t, s'.tasks[t])
            && |s'.cells[k].turns| == |s.cells[k].turns|
            && (PastWrite(s'.tasks[t].pc) ==> HasWholeTurn(s'.cells, t))
  {
    var s' := StepWrite(s, t, k, sent, w).value;
    if w.WriteFailed? {
      BreakCell(s.cells[k], k, t, s'.tasks[t]);
    } else {
      WriteCell(s.cells[k], k, t, s.tasks[t], w.count, s'.tasks[t]);
      assert TurnAt(s'.cells, k, |s.cells[k].turns| - 1);
    }
  }

  lemma WriteKeeps(s: State, t: TaskId, k: CellId, sent: nat, w: WriteOutcome)
    requires Structure(s) && t in s.tasks && s.tasks[t].pc == Writing(k, sent) && k in s.cells
    requires TaskFits(s.tasks[t]) && StepWrite(s, t, k, sent, w).Some?
    ensures Structure(StepWrite(s, t, k, sent, w).value)
  {
    hide Structure, HistoryOk, CellStep;
    var s' := StepWrite(s, t, k, sent, w).value;
    HeldCell(s, t, k);
    WriteTaken(s, t, k, sent, w);
    HoldKeeps(s, t, k, s'.cells[k], s'.tasks[t]);
  }

  lemma HalfCloseKeeps(s: State, t: TaskId, k: CellId, closed: bool, task: Task)
    requires Structure(s) && t in s.tasks && s.tasks[t].pc == HalfClosing(k) && k in s.cells
    requires task.request == s.tasks[t].request && TaskFits(task)
    requires if closed then task.pc == Reading(k) else task.pc.Replied? && !task.pc.reply.Exchanged?
    ensures var cell := s.cells[k];
            var after := if closed then cell.(writeClosed := true, shutdowns := cell.shutdowns + 1) else Unlocked(cell);
            Structure(s.(tasks := s.tasks[t := task], cells := s.cells[k := after]))
  {
    hide Structure, HistoryOk;
    var cell := s.cells[k];
    var after := if closed then cell.(writeClosed := true, shutdowns := cell.shutdowns + 1) else Unlocked(cell);
    HeldCell(s, t, k);
    if closed {
      CloseCell(cell, k, t, task);
    } else {
      ReleaseCell(cell, k, t, task);
    }
    StillDelivered(s, t, k, after);
    HoldKeeps(s, t, k, after, task);
  }

  lemma ReadKeeps(s: State, t: TaskId, k: CellId, task: Task)
    requires Structure(s) && t in s.tasks && s.tasks[t].pc == Reading(k) && k in s.cells
    requires task.request == s.tasks[t].request && (task.pc.Replied? || task.pc.Dropped?)
    requires TaskFits(s.tasks[t])
    ensures Structure(s.(tasks := s.tasks[t := task], cells := s.cells[k := Unlocked(s.cells[k])]))
  {
    hide Structure, HistoryOk;
    HeldCell(s, t, k);
    ReleaseCell(s.cells[k], k, t, task);
    StillDelivered(s, t, k, Unlocked(s.cells[k]));
    HoldKeeps(s, t, k, Unlocked(s.cells[k]), task);
  }

  lemma CancelKeeps(s: State, t: TaskId)
    requires Structure(s) && t in s.tasks && StepCancel(s, t).Some?
    ensures Structure(StepCancel(s, t).value)
  {
    var task := s.tasks[t].(pc := Dropped);
    var pc := s.tasks[t].pc;
    if pc.HoldsLock() {
      HeldCell(s, t, pc.cell);
      BreakCell(s.cells[pc.cell], pc.cell, t, task);
      HoldKeeps(s, t, pc.cell, Unlocked(BreakLastTurn(s.cells[pc.cell])), task);
    } else {
      MoveKeeps(s, t, task, StepCancel(s, t).value.freePermits);
    }
  }

  // ---------------------------------------------------------------- every step, every run

  /** An Open connects, inserts its entry, or only moves. */
  ghost predicate OpenShape(s: State, e: Event, s': State)
    requires e.task in s.tasks && s.tasks[e.task].request.Open?
  {
    var t, c := e.task, s.tasks[e.task].request.connectionId;
    || (e.Connect? && e.connect.Connected? && s.tasks[t].pc.Connecting? && e.connect.cell !in s.cells
        && s' == PutCell(Move(s, t, Inserting(e.connect.cell)), e.connect.cell, NEW_CELL))
    || (c !in s.connections && c in s'.connections && s.tasks[t].pc == Inserting(s'.connections[c].cell)
        && s' == Move(s, t, Replied(Opened(c))).(connections := s.connections[c := s'.connections[c]]))
    || (t in s'.tasks && MoveAllowed(s, t, s'.tasks[t])
        && s' == s.(tasks := s.tasks[t := s'.tasks[t]], freePermits := s'.freePermits))
  }

  lemma ConnectShape(s: State, e: Event)
    requires e.task in s.tasks && s.tasks[e.task].request.Open? && StepOpen(s, e).Some?
    requires s.tasks[e.task].pc.Connecting?
    ensures OpenShape(s, e, StepOpen(s, e).value)
  {
    hide Destination.Valid;
  }

  lemma InsertShape(s: State, e: Event)
    requires e.task in s.tasks && s.tasks[e.task].request.Open? && StepOpen(s, e).Some?
    requires s.tasks[e.task].pc.Inserting?
    ensures OpenShape(s, e, StepOpen(s, e).value)
  {
    hide Destination.Valid;
  }

  lemma OpenShapes(s: State, e: Event)
    requires TasksFit(s.tasks) && e.task in s.tasks && s.tasks[e.task].request.Open? && StepOpen(s, e).Some?
    ensures OpenShape(s, e, StepOpen(s, e).value)
  {
    hide Destination.Valid;
    assert TaskFits(s.tasks[e.task]);
    if s.tasks[e.task].pc.Connecting? {
      ConnectShape(s, e);
    } else if s.tasks[e.task].pc.Inserting? {
      InsertShape(s, e);
    }
  }

  lemma OpenKeeps(s: State, e: Event)
    requires Structure(s) && e.task in s.tasks && s.tasks[e.task].request.Open? && StepOpen(s, e).Some?
    ensures Structure(StepOpen(s, e).value)
  {
    var s' := StepOpen(s, e).value;
    var t, c := e.task, s.tasks[e.task].request.connectionId;
    OpenShapes(s, e);
    if s'.cells != s.cells {
      ConnectKeeps(s, t, e.connect.cell);
    } else if s'.connections != s.connections {
      InsertKeeps(s, t, c, s'.connections[c]);
    } else {
      MoveKeeps(s, t, s'.tasks[t], s'.freePermits);
    }
  }

  lemma ExchangeKeeps(s: State, e: Event)
    requires Structure(s)
    requires e.task in s.tasks && s.tasks[e.task].request.Exchange? && s.tasks[e.task].request.write.Some?
    requires StepExchange(s, e).Some?
    ensures Structure(StepExchange(s, e).value)
  {
    var t := e.task;
    var pc := s.tasks[t].pc;
    assert TaskFits(s.tasks[t]);
    if pc.LookingUp? {
      LookUpKeeps(s, e);
    } else if pc.AwaitingIo? {
      LockKeeps(s, t, pc.cell);
    } else if pc.Writing? {
      WriteKeeps(s, t, pc.cell, pc.sent, e.write);
    } else {
      UseKeeps(s, e);
    }
  }

  lemma LookUpMoves(s: State, e: Event)
    requires TasksFit(s.tasks)
    requires e.task in s.tasks && s.tasks[e.task].request.Exchange? && s.tasks[e.task].request.write.Some?
    requires s.tasks[e.task].pc.LookingUp? && StepExchange(s, e).Some?
    ensures var s' := StepExchange(s, e).value;
            && e.task in s'.tasks && s' == s.(tasks := s.tasks[e.task := s'.tasks[e.task]])
            && MoveAllowed(s, e.task, s'.tasks[e.task])
  {
    hide Request.Valid, StepLock, StepWrite, StepRead;
    assert TaskFits(s.tasks[e.task]);
  }

  lemma LookUpKeeps(s: State, e: Event)
    requires Structure(s)
    requires e.task in s.tasks && s.tasks[e.task].request.Exchange? && s.tasks[e.task].request.write.Some?
    requires s.tasks[e.task].pc.LookingUp? && StepExchange(s, e).Some?
    ensures Structure(StepExchange(s, e).value)
  {
    hide StepExchange, MoveAllowed, EntriesUnshared, StreamsPrivate, LocksExclusive, HistoriesOk, WritersMatch,
         TurnsOfTasks, TurnsUnique, PayloadDelivered;
    LookUpMoves(s, e);
    var s' := StepExchange(s, e).value;
    MoveKeeps(s, e.task, s'.tasks[e.task], s.freePermits);
    assert s' == s.(tasks := s.tasks[e.task := s'.tasks[e.task]], freePermits := s.freePermits);
  }

  lemma HalfCloseShape(s: State, e: Event)
    requires e.task in s.tasks && s.tasks[e.task].request.Exchange? && s.tasks[e.task].request.write.Some?
    requires s.tasks[e.task].pc.HalfClosing? && StepExchange(s, e).Some? && TaskFits(s.tasks[e.task])
    ensures var s', t, k := StepExchange(s, e).value, e.task, s.tasks[e.task].pc.cell;
            && e.HalfClose? && k in s.cells
            && s'.tasks[t].request == s.tasks[t].request && TaskFits(s'.tasks[t])
            && s'.tasks[t].pc == (if e.ok then Reading(k) else Replied(Error(Io)))
            && s' == s.(tasks := s.tasks[t := s'.tasks[t]],
                        cells := s.cells[k := if e.ok then s.cells[k].(writeClosed := true,
                                                                       shutdowns := s.cells[k].shutdowns + 1)
                                              else Unlocked(s.cells[k])])
  {
  }

  lemma ReadShape(s: State, e: Event)
    requires e.task in s.tasks && s.tasks[e.task].request.Exchange? && s.tasks[e.task].request.write.Some?
    requires s.tasks[e.task].pc.Reading? && StepExchange(s, e).Some?
    ensures var s', t, k := StepExchange(s, e).value, e.task, s.tasks[e.task].pc.cell;
            && k in s.cells && s'.tasks[t].request == s.tasks[t].request && s'.tasks[t].pc.Replied?
            && s' == s.(tasks := s.tasks[t := s'.tasks[t]], cells := s.cells[k := Unlocked(s.cells[k])])
  {
  }

  lemma UseKeeps(s: State, e: Event)
    requires Structure(s)
    requires e.task in s.tasks && s.tasks[e.task].request.Exchange? && s.tasks[e.task].request.write.Some?
    requires (s.tasks[e.task].pc.HalfClosing? || s.tasks[e.task].pc.Reading?) && StepExchange(s, e).Some?
    ensures Structure(StepExchange(s, e).value)
  {
    hide Structure;
    var t, k := e.task, s.tasks[e.task].pc.cell;
    var s' := StepExchange(s, e).value;
    HeldCell(s, t, k);
    if s.tasks[t].pc.HalfClosing? {
      HalfCloseShape(s, e);
      HalfCloseKeeps(s, t, k, e.ok, s'.tasks[t]);
    } else {
      ReadShape(s, e);
      ReadKeeps(s, t, k, s'.tasks[t]);
    }
  }

  lemma CloseKeeps(s: State, e: Event)
    requires Structure(s) && e.task in s.tasks && s.tasks[e.task].request.Close? && StepClose(s, e).Some?
    ensures Structure(StepClose(s, e).value)
  {
    var s', t := StepClose(s, e).value, e.task;
    if s'.tasks[t].pc.reply.Closed? {
      RemoveKeeps(s, t, s.tasks[t].request.connectionId, s'.freePermits);
    } else {
      MoveKeeps(s, t, s'.tasks[t], s'.freePermits);
    }
  }

  lemma StructureKept(s: State, e: Event)
    requires Structure(s) && Step(s, e).Some?
    ensures Structure(Step(s, e).value)
  {
    hide Destination.Valid, StepOpen, StepExchange, StepClose, StepCancel;
    if e.Arrive? {
      MoveKeeps(s, e.task, Task(e.request, FirstPc(e.request, e.allowed)), s.freePermits);
    } else if e.Cancel? {
      CancelKeeps(s, e.task);
    } else {
      match s.tasks[e.task].request
      case Open(_, _, _, _) => OpenKeeps(s, e);
      case Exchange(_, _, _, _, _) => ExchangeKeeps(s, e);
      case Close(_) => CloseKeeps(s, e);
    }
  }

  lemma OpenPermits(s: State, e: Event)
    requires e.task in s.tasks && s.tasks[e.task].request.Open? && StepOpen(s, e).Some?
    ensures var s', t := StepOpen(s, e).value, e.task;
            && t in s'.tasks && s'.tasks == s.tasks[t := s'.tasks[t]]
            && s'.freePermits + |s'.connections| + (if s'.tasks[t].pc.HoldsPermit() then 1 else 0)
               == s.freePermits + |s.connections| + (if s.tasks[t].pc.HoldsPermit() then 1 else 0)
  {
  }

  lemma ExchangePermits(s: State, e: Event)
    requires e.task in s.tasks && s.tasks[e.task].request.Exchange? && s.tasks[e.task].request.write.Some?
    requires StepExchange(s, e).Some?
    ensures var s', t := StepExchange(s, e).value, e.task;
            && t in s'.tasks && s'.tasks == s.tasks[t := s'.tasks[t]]
            && s'.freePermits == s.freePermits && s'.connections == s.connections
            && !s'.tasks[t].pc.HoldsPermit() && !s.tasks[t].pc.HoldsPermit()
  {
  }

  lemma ClosePermits(s: State, e: Event)
    requires e.task in s.tasks && s.tasks[e.task].request.Close? && StepClose(s, e).Some?
    ensures var s', t := StepClose(s, e).value, e.task;
            && t in s'.tasks && s'.tasks == s.tasks[t := s'.tasks[t]]
            && s'.freePermits + |s'.connections| == s.freePermits + |s.connections|
            && !s'.tasks[t].pc.HoldsPermit() && !s.tasks[t].pc.HoldsPermit()
  {
    var c := s.tasks[e.task].request.connectionId;
    if c in s.connections {
      assert (s.connections - {c}).Keys == s.connections.Keys - {c};
      assert |(s.connections - {c}).Keys| == |s.connections.Keys| - 1;
    }
  }

  lemma PermitsKept(s: State, e: Event, capacity: nat)
    requires PermitsConserved(s, capacity) && Step(s, e).Some?
    ensures PermitsConserved(Step(s, e).value, capacity)
  {
    var s', t := Step(s, e).value, e.task;
    if !e.Arrive? && !e.Cancel? {
      match s.tasks[t].request
      case Open(_, _, _, _) => OpenPermits(s, e);
      case Exchange(_, _, _, _, _) => ExchangePermits(s, e);
      case Close(_) => ClosePermits(s, e);
    }
    PermitHoldersMove(s.tasks, t, s'.tasks[t]);
  }

  /** Whatever event comes next, the invariant is kept. */
  lemma StepKeepsInv(s: State, e: Event, capacity: nat)
    requires Inv(s, capacity) && Step(s, e).Some?
    ensures Inv(Step(s, e).value, capacity)
  {
    StructureKept(s, e);
    PermitsKept(s, e, capacity);
  }

  lemma InitialInv(capacity: nat)
    ensures Inv(Initial(capacity), capacity)
  {
  }
}
