/** The TCP forward service of a host: a connection table that concurrently running requests
    share.  One request is one task with a program counter; everything the code does between two
    points where another task may run is one event.  `Step` is the semantics of one event. */
module Forward {
  import opened Wrappers
  import opened Text

  const MAX_HOST_BYTES := 255
  const MAX_CHUNK_BYTES := 12 * 1024
  const MAX_CONNECT_TIMEOUT_MS := 10_000
  const MAX_READ_WAIT_MS := 250

  type ForwardId = nat
  type ConnectionId = nat
  type TaskId = nat
  type CellId = nat

  datatype Destination = Destination(host: string, port: u16) {
    predicate Valid() {
      var name := Trim(host);
      && name != "" && Utf8Length(name) <= MAX_HOST_BYTES && IsAscii(name)
      && (forall i | 0 <= i < |name| :: !IsAsciiControlOrSpace(name[i]))
      && port != 0
    }
  }

  /** `write` is the decoded payload, or `None` when the text is not Base64. */
  datatype Request =
    | Open(forwardId: ForwardId, connectionId: ConnectionId, destination: Destination, connectTimeoutMs: u32)
    | Exchange(connectionId: ConnectionId, write: Option<seq<byte>>, writeEof: bool, maxReadBytes: u32, readWaitMs: u32)
    | Close(connectionId: ConnectionId)
  {
    predicate Valid() {
      match this
      case Open(_, _, destination, timeout) => destination.Valid() && 0 < timeout <= MAX_CONNECT_TIMEOUT_MS
      case Exchange(_, write, _, maxRead, wait) =>
        && write.Some? && |write.value| <= MAX_CHUNK_BYTES
        && 0 < maxRead <= MAX_CHUNK_BYTES && 0 < wait <= MAX_READ_WAIT_MS
      case Close(_) => true
    }
  }

  datatype ErrorCode = InvalidRequest | Denied | NotFound | Capacity | ConnectFailed | Io | Timeout

  datatype Reply =
    | Opened(connectionId: ConnectionId)
    | Exchanged(connectionId: ConnectionId, read: seq<byte>, readEof: bool)
    | Closed(connectionId: ConnectionId)
    | Error(code: ErrorCode)

  /** `TcpForwardReply::exchanged`, with its bound. */
  function ExchangedReply(id: ConnectionId, read: seq<byte>, eof: bool): Reply {
    if |read| > MAX_CHUNK_BYTES then Error(Io) else Exchanged(id, read, eof)
  }

  datatype Entry = Entry(forwardId: ForwardId, destination: Destination, cell: CellId)

  datatype TurnOutcome = InProgress | Whole | Broken

  /** One Exchange that took the io lock and began to write: how much of its payload was accepted. */
  datatype Turn = Turn(task: TaskId, payload: seq<byte>, sent: nat, outcome: TurnOutcome)

  /** The io object of one stream.  `delivered`, `shutdowns` and `turns` record what happened to
      the stream: the bytes it accepted, how often `shutdown` succeeded, and the writers in the
      order in which they took the lock. */
  datatype Cell = Cell(holder: Option<TaskId>, writeClosed: bool,
                       delivered: seq<byte>, shutdowns: nat, turns: seq<Turn>)

  const NEW_CELL := Cell(None, false, [], 0, [])

  /** Where a task stands.  `Connecting`, `Inserting` and `Yielding` own a capacity permit;
      `Writing`, `HalfClosing` and `Reading` own the io lock of their cell. */
  datatype Pc =
    | Checking
    | Acquiring
    | Connecting
    | Inserting(cell: CellId)
    | Yielding(pending: Reply)
    | LookingUp
    | AwaitingIo(cell: CellId)
    | Writing(cell: CellId, sent: nat)
    | HalfClosing(cell: CellId)
    | Reading(cell: CellId)
    | Removing
    | Replied(reply: Reply)
    | Dropped
  {
    predicate HoldsPermit() { Connecting? || Inserting? || Yielding? }
    predicate HoldsLock() { Writing? || HalfClosing? || Reading? }
    predicate OfOpen() { Checking? || Acquiring? || HoldsPermit() }
    predicate OfExchange() { LookingUp? || AwaitingIo? || HoldsLock() }
  }

  datatype Task = Task(request: Request, pc: Pc)

  datatype State = State(connections: map<ConnectionId, Entry>, freePermits: nat,
                         cells: map<CellId, Cell>, tasks: map<TaskId, Task>)

  datatype ConnectOutcome = Connected(cell: CellId) | Refused | TimedOut
  datatype WriteOutcome = Accepted(count: nat) | WriteFailed
  datatype ReadOutcome = Received(bytes: seq<byte>) | NothingYet | ReadFailed

  datatype Event =
    | Arrive(task: TaskId, request: Request, allowed: bool)
    | Check(task: TaskId)
    | Acquire(task: TaskId)
    | Connect(task: TaskId, connect: ConnectOutcome)
    | Insert(task: TaskId)
    | Yield(task: TaskId)
    | LookUp(task: TaskId)
    | Lock(task: TaskId)
    | Write(task: TaskId, write: WriteOutcome)
    | HalfClose(task: TaskId, ok: bool)
    | Read(task: TaskId, read: ReadOutcome)
    | Remove(task: TaskId)
    | Cancel(task: TaskId)

  // ---------------------------------------------------------------- semantics of one event

  function Move(s: State, t: TaskId, pc: Pc): State
    requires t in s.tasks
  {
    s.(tasks := s.tasks[t := s.tasks[t].(pc := pc)])
  }

  function PutCell(s: State, k: CellId, cell: Cell): State {
    s.(cells := s.cells[k := cell])
  }

  function FirstPc(request: Request, allowed: bool): Pc {
    if !request.Valid() then Replied(Error(InvalidRequest))
    else if !allowed then Replied(Error(Denied))
    else match request
      case Open(_, _, _, _) => Checking
      case Exchange(_, _, _, _, _) => LookingUp
      case Close(_) => Removing
  }

  /** The reply to an Open whose id is already in the table. */
  function ExistingReply(request: Request, existing: Entry): Reply
    requires request.Open?
  {
    if existing.forwardId == request.forwardId && existing.destination == request.destination
    then Opened(request.connectionId) else Error(InvalidRequest)
  }

  /** After the payload: half-close if asked to and not yet done, otherwise read. */
  function AfterWrite(request: Request, k: CellId, cell: Cell): Pc
    requires request.Exchange?
  {
    if request.writeEof && !cell.writeClosed then HalfClosing(k) else Reading(k)
  }

  function BreakLastTurn(cell: Cell): Cell {
    if cell.turns != [] && cell.turns[|cell.turns| - 1].outcome == InProgress
    then cell.(turns := cell.turns[|cell.turns| - 1 := cell.turns[|cell.turns| - 1].(outcome := Broken)])
    else cell
  }

  function Unlocked(cell: Cell): Cell {
    cell.(holder := None)
  }

  function StepLock(s: State, t: TaskId, k: CellId): Option<State>
    requires t in s.tasks && s.tasks[t].request.Exchange? && s.tasks[t].request.write.Some? && k in s.cells
  {
    var request, cell := s.tasks[t].request, s.cells[k];
    var payload := request.write.value;
    if cell.holder.Some? then None
    else if payload != [] && cell.writeClosed then Some(Move(s, t, Replied(Error(InvalidRequest))))
    else if payload != [] then
      var turn := Turn(t, payload, 0, InProgress);
      Some(PutCell(Move(s, t, Writing(k, 0)), k, cell.(holder := Some(t), turns := cell.turns + [turn])))
    else Some(PutCell(Move(s, t, AfterWrite(request, k, cell)), k, cell.(holder := Some(t))))
  }

  function StepWrite(s: State, t: TaskId, k: CellId, sent: nat, w: WriteOutcome): Option<State>
    requires t in s.tasks && s.tasks[t].request.Exchange? && s.tasks[t].request.write.Some? && k in s.cells
  {
    var request, cell := s.tasks[t].request, s.cells[k];
    var payload := request.write.value;
    if cell.turns == [] || sent > |payload| then None
    else
      var last := |cell.turns| - 1;
      match w
      case Accepted(n) =>
        if n == 0 || sent + n > |payload| then None
        else
          var whole := sent + n == |payload|;
          var turn := cell.turns[last].(sent := sent + n, outcome := if whole then Whole else InProgress);
          var cell' := cell.(delivered := cell.delivered + payload[sent..sent + n], turns := cell.turns[last := turn]);
          Some(PutCell(Move(s, t, if whole then AfterWrite(request, k, cell) else Writing(k, sent + n)), k, cell'))
      case WriteFailed =>
        Some(PutCell(Move(s, t, Replied(Error(Io))), k, Unlocked(BreakLastTurn(cell))))
  }

  function StepRead(s: State, t: TaskId, k: CellId, r: ReadOutcome): Option<State>
    requires t in s.tasks && s.tasks[t].request.Exchange? && k in s.cells
  {
    var request := s.tasks[t].request;
    var released := PutCell(s, k, Unlocked(s.cells[k]));
    match r
    case Received(bytes) =>
      if |bytes| > request.maxReadBytes then None
      else Some(Move(released, t, Replied(ExchangedReply(request.connectionId, bytes, bytes == []))))
    case NothingYet => Some(Move(released, t, Replied(ExchangedReply(request.connectionId, [], false))))
    case ReadFailed => Some(Move(released, t, Replied(Error(Io))))
  }

  /** A future that is dropped while it waits gives back what it owns. */
  function StepCancel(s: State, t: TaskId): Option<State>
    requires t in s.tasks
  {
    match s.tasks[t].pc
    case Connecting => Some(Move(s, t, Dropped).(freePermits := s.freePermits + 1))
    case AwaitingIo(_) => Some(Move(s, t, Dropped))
    case Writing(k, _) =>
      if k !in s.cells then None else Some(PutCell(Move(s, t, Dropped), k, Unlocked(BreakLastTurn(s.cells[k]))))
    case HalfClosing(k) =>
      if k !in s.cells then None else Some(PutCell(Move(s, t, Dropped), k, Unlocked(s.cells[k])))
    case Reading(k) =>
      if k !in s.cells then None else Some(PutCell(Move(s, t, Dropped), k, Unlocked(s.cells[k])))
    case _ => None
  }

  function StepOpen(s: State, e: Event): Option<State>
    requires e.task in s.tasks && s.tasks[e.task].request.Open?
  {
    var t := e.task;
    var request := s.tasks[t].request;
    var c := request.connectionId;
    match (e, s.tasks[t].pc)
    case (Check(_), Checking) =>
      if c in s.connections then Some(Move(s, t, Replied(ExistingReply(request, s.connections[c]))))
      else Some(Move(s, t, Acquiring))
    case (Acquire(_), Acquiring) =>
      if s.freePermits == 0 then Some(Move(s, t, Replied(Error(Capacity))))
      else Some(Move(s, t, Connecting).(freePermits := s.freePermits - 1))
    case (Connect(_, Connected(k)), Connecting) =>
      if k in s.cells then None else Some(PutCell(Move(s, t, Inserting(k)), k, NEW_CELL))
    case (Connect(_, Refused), Connecting) =>
      Some(Move(s, t, Replied(Error(ConnectFailed))).(freePermits := s.freePermits + 1))
    case (Connect(_, TimedOut), Connecting) =>
      Some(Move(s, t, Replied(Error(Timeout))).(freePermits := s.freePermits + 1))
    case (Insert(_), Inserting(k)) =>
      if c in s.connections then Some(Move(s, t, Yielding(ExistingReply(request, s.connections[c]))))
      else Some(Move(s, t, Replied(Opened(c)))
                .(connections := s.connections[c := Entry(request.forwardId, request.destination, k)]))
    case (Yield(_), Yielding(reply)) =>
      Some(Move(s, t, Replied(reply)).(freePermits := s.freePermits + 1))
    case _ => None
  }

  function StepExchange(s: State, e: Event): Option<State>
    requires e.task in s.tasks && s.tasks[e.task].request.Exchange? && s.tasks[e.task].request.write.Some?
  {
    var t := e.task;
    var request := s.tasks[t].request;
    var c := request.connectionId;
    match (e, s.tasks[t].pc)
    case (LookUp(_), LookingUp) =>
      if c !in s.connections then Some(Move(s, t, Replied(Error(NotFound))))
      else Some(Move(s, t, AwaitingIo(s.connections[c].cell)))
    case (Lock(_), AwaitingIo(k)) => if k !in s.cells then None else StepLock(s, t, k)
    case (Write(_, w), Writing(k, sent)) => if k !in s.cells then None else StepWrite(s, t, k, sent, w)
    case (HalfClose(_, ok), HalfClosing(k)) =>
      if k !in s.cells then None
      else if ok then
        var cell := s.cells[k];
        Some(PutCell(Move(s, t, Reading(k)), k, cell.(writeClosed := true, shutdowns := cell.shutdowns + 1)))
      else Some(PutCell(Move(s, t, Replied(Error(Io))), k, Unlocked(s.cells[k])))
    case (Read(_, r), Reading(k)) => if k !in s.cells then None else StepRead(s, t, k, r)
    case _ => None
  }

  function StepClose(s: State, e: Event): Option<State>
    requires e.task in s.tasks && s.tasks[e.task].request.Close?
  {
    var t := e.task;
    var c := s.tasks[t].request.connectionId;
    match (e, s.tasks[t].pc)
    case (Remove(_), Removing) =>
      if c !in s.connections then Some(Move(s, t, Replied(Error(NotFound))))
      else Some(Move(s, t, Replied(Closed(c)))
                .(connections := s.connections - {c}, freePermits := s.freePermits + 1))
    case _ => None
  }

  /** One event, or `None` when the event is not possible in this state. */
  function Step(s: State, e: Event): Option<State> {
    if e.Arrive? then
      if e.task in s.tasks then None
      else Some(s.(tasks := s.tasks[e.task := Task(e.request, FirstPc(e.request, e.allowed))]))
    else if e.task !in s.tasks then None
    else if e.Cancel? then StepCancel(s, e.task)
    else match s.tasks[e.task].request
      case Open(_, _, _, _) => StepOpen(s, e)
      case Exchange(_, write, _, _, _) => if write.None? then None else StepExchange(s, e)
      case Close(_) => StepClose(s, e)
  }

  function Initial(capacity: nat): State {
    State(map[], capacity, map[], map[])
  }
}
