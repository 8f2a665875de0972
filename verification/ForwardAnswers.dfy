/** Why each request gets the reply that it gets, what is possible at each moment, and that every
    request comes to an end. */
module ForwardAnswers {
  import opened Wrappers
  import opened Text
  import opened Forward
  import opened ForwardInvariant
  import opened ForwardRuns

  /** One step of a run, from a state in which every task stands where its request can take it. */
  lemma StepAt(states: seq<State>, events: seq<Event>, capacity: nat, i: nat)
    requires Run(states, events, capacity) && i < |events|
    ensures Step(states[i], events[i]) == Some(states[i + 1]) && TasksFit(states[i].tasks)
  {
    hide Step;
    TasksFitReachable(states, events, capacity, i);
  }

  // ---------------------------------------------------------------- the grant

  ghost predicate Ended(s: State, t: TaskId) {
    t in s.tasks && (s.tasks[t].pc.Replied? || s.tasks[t].pc.Dropped?)
  }

  lemma EndedStep(s: State, e: Event, t: TaskId)
    requires TasksFit(s.tasks) && Step(s, e).Some? && Ended(s, t)
    ensures e.task != t && t in Step(s, e).value.tasks && Step(s, e).value.tasks[t] == s.tasks[t]
  {
    hide Step, TasksFit;
    VerdictStep(s, e);
  }

  /** Whoever has a reply keeps it, and does nothing more. */
  lemma {:induction false} EndedLasts(states: seq<State>, events: seq<Event>, capacity: nat, m: nat, n: nat, t: TaskId)
    requires Run(states, events, capacity) && m <= n < |states| && Ended(states[m], t)
    ensures t in states[n].tasks && states[n].tasks[t] == states[m].tasks[t]
    ensures n < |events| ==> events[n].task != t
    decreases n - m
  {
    hide Step;
    if m < n {
      EndedLasts(states, events, capacity, m, n - 1, t);
      StepAt(states, events, capacity, n - 1);
      EndedStep(states[n - 1], events[n - 1], t);
    }
    if n < |events| {
      StepAt(states, events, capacity, n);
      EndedStep(states[n], events[n], t);
    }
  }

  /** What a request meets when it arrives. */
  lemma Arrives(s: State, e: Event)
    requires Step(s, e).Some? && e.Arrive?
    ensures e.task in Step(s, e).value.tasks
    ensures var task := Step(s, e).value.tasks[e.task];
      && task.request == e.request
      && (!e.request.Valid() ==> task.pc == Replied(Error(InvalidRequest)))
      && (e.request.Valid() && !e.allowed ==> task.pc == Replied(Error(Denied)))
      && (e.request.Valid() && e.allowed ==> VerdictOf(task.pc).None? && !task.pc.Dropped?)
  {
    hide Destination.Valid;
  }

  /** The grant decides.  A request that is out of bounds, or that arrives without the grant, is answered
      so at once, keeps that answer and never does anything; any other is never told `Denied`. */
  lemma GrantDecides(states: seq<State>, events: seq<Event>, capacity: nat, a: nat, n: nat)
    requires Run(states, events, capacity) && a < n < |states| && events[a].Arrive?
    ensures var t, request, allowed := events[a].task, events[a].request, events[a].allowed;
      && t in states[n].tasks && states[n].tasks[t].request == request
      && (!request.Valid() ==> states[n].tasks[t].pc == Replied(Error(InvalidRequest)))
      && (request.Valid() && !allowed ==> states[n].tasks[t].pc == Replied(Error(Denied)))
      && (request.Valid() && allowed ==> states[n].tasks[t].pc != Replied(Error(Denied)))
      && (n < |events| && events[n].task == t ==> request.Valid() && allowed)
  {
    hide Step;
    var t := events[a].task;
    StepAt(states, events, capacity, a);
    Arrives(states[a], events[a]);
    RequestLasts(states, events, capacity, a + 1, n, t);
    if Ended(states[a + 1], t) {
      EndedLasts(states, events, capacity, a + 1, n, t);
    } else {
      NeverDenied(states, events, capacity, a + 1, n, t);
    }
  }

  lemma DeniesOnlyOnArrival(s: State, e: Event)
    requires TasksFit(s.tasks) && Step(s, e).Some? && !e.Arrive?
    requires s.tasks[e.task].pc != Yielding(Error(Denied))
    ensures Step(s, e).value.tasks[e.task].pc != Replied(Error(Denied))
    ensures Step(s, e).value.tasks[e.task].pc != Yielding(Error(Denied))
  {
    hide Destination.Valid, BreakLastTurn;
  }

  ghost predicate NotDenied(s: State, t: TaskId) {
    t in s.tasks && s.tasks[t].pc != Replied(Error(Denied)) && s.tasks[t].pc != Yielding(Error(Denied))
  }

  lemma {:induction false} NeverDenied(states: seq<State>, events: seq<Event>, capacity: nat, m: nat, n: nat, t: TaskId)
    requires Run(states, events, capacity) && m <= n < |states| && NotDenied(states[m], t)
    ensures NotDenied(states[n], t)
    decreases n - m
  {
    hide Step;
    if m < n {
      NeverDenied(states, events, capacity, m, n - 1, t);
      StepAt(states, events, capacity, n - 1);
      VerdictStep(states[n - 1], events[n - 1]);
      if events[n - 1].task == t {
        DeniesOnlyOnArrival(states[n - 1], events[n - 1]);
      }
    }
  }

  /** Who is told `Denied` arrived without the grant. */
  lemma DeniedHadNoGrant(states: seq<State>, events: seq<Event>, capacity: nat, n: nat, t: TaskId) returns (a: nat)
    requires Run(states, events, capacity) && n < |states|
    requires t in states[n].tasks && states[n].tasks[t].pc == Replied(Error(Denied))
    ensures a < n && events[a].Arrive? && events[a].task == t && !events[a].allowed && events[a].request.Valid()
  {
    hide Step;
    a := Arrived(states, events, capacity, n, t);
    GrantDecides(states, events, capacity, a, n);
  }

  /** Nothing is done but for a request within its bounds that arrived with the grant. */
  lemma OnlyGrantedAct(states: seq<State>, events: seq<Event>, capacity: nat, n: nat) returns (a: nat)
    requires Run(states, events, capacity) && n < |events| && !events[n].Arrive?
    ensures a < n && events[a].Arrive? && events[a].task == events[n].task
    ensures events[a].allowed && events[a].request.Valid()
    ensures events[n].task in states[n].tasks && states[n].tasks[events[n].task].request == events[a].request
  {
    hide Step;
    StepAt(states, events, capacity, n);
    VerdictStep(states[n], events[n]);
    a := Arrived(states, events, capacity, n, events[n].task);
    GrantDecides(states, events, capacity, a, n);
  }

  /** Every entry of the table was asked for by an Open that had the grant, with this forward and this
      destination, which has a port and a host name of at most 255 printable characters. */
  lemma {:induction false} EntryWasGranted(states: seq<State>, events: seq<Event>, capacity: nat, n: nat,
                                           c: ConnectionId) returns (a: nat)
    requires Run(states, events, capacity) && n < |states| && c in states[n].connections
    ensures var entry := states[n].connections[c];
      && a < n && events[a].Arrive? && events[a].allowed && events[a].request.Open?
      && events[a].request.connectionId == c && events[a].request.forwardId == entry.forwardId
      && events[a].request.destination == entry.destination
      && 0 < events[a].request.connectTimeoutMs <= 10_000
      && entry.destination.port != 0
      && var host := Trim(entry.destination.host);
         0 < Utf8Length(host) <= 255 && forall i | 0 <= i < |host| :: '!' <= host[i] <= '~'
  {
    hide Step, Utf8Length, Trim;
    StepAt(states, events, capacity, n - 1);
    if c in states[n - 1].connections {
      TableStep(states[n - 1], events[n - 1]);
      a := EntryWasGranted(states, events, capacity, n - 1, c);
    } else {
      BindsAsAsked(states[n - 1], events[n - 1], c);
      a := OnlyGrantedAct(states, events, capacity, n - 1);
      NotEmptyLength(Trim(events[a].request.destination.host));
    }
  }

  lemma BindsAsAsked(s: State, e: Event, c: ConnectionId)
    requires TasksFit(s.tasks) && Step(s, e).Some? && c !in s.connections && c in Step(s, e).value.connections
    ensures !e.Arrive? && e.task in s.tasks && s.tasks[e.task].request.Open?
    ensures var request, entry := s.tasks[e.task].request, Step(s, e).value.connections[c];
      request.connectionId == c && request.forwardId == entry.forwardId && request.destination == entry.destination
  {
    hide Destination.Valid, BreakLastTurn;
  }

  lemma NotEmptyLength(s: string)
    ensures s != "" ==> Utf8Length(s) > 0
  {
  }

  // ---------------------------------------------------------------- the reason of every reply

  ghost predicate AnsweredIn(s: State, t: TaskId) {
    VerdictIn(s, t).Some? && VerdictIn(s, t).value.Answered?
  }

  /** The payload of an Exchange is refused because the write side of its stream is closed. */
  ghost predicate MeetsClosedStream(s: State, t: TaskId) {
    && t in s.tasks && s.tasks[t].pc.AwaitingIo? && s.tasks[t].pc.cell in s.cells
    && s.cells[s.tasks[t].pc.cell].writeClosed && s.tasks[t].request.Exchange? && s.tasks[t].request.write != Some([])
  }

  /** The only way for `request` to get this reply: by event `e` in state `s`. */
  ghost predicate Explains(s: State, e: Event, request: Request, reply: Reply) {
    var c := request.connectionId;
    match reply
    case Opened(id) =>
      && id == c && request.Open?
      && (((e.Check? || e.Insert?) && BoundAs(s, request)) || (e.Insert? && c !in s.connections))
    case Closed(id) => id == c && e.Remove? && c in s.connections
    case Exchanged(id, read, readEof) =>
      && id == c && e.Read?
      && ((e.read == Received(read) && (readEof <==> read == [])) || (e.read == NothingYet && read == [] && !readEof))
    case Error(InvalidRequest) =>
      || (e.Arrive? && !request.Valid())
      || ((e.Check? || e.Insert?) && request.Open? && c in s.connections && !BoundAs(s, request))
      || (e.Lock? && MeetsClosedStream(s, e.task))
    case Error(Denied) => e.Arrive? && request.Valid() && !e.allowed
    case Error(NotFound) => (e.LookUp? || e.Remove?) && c !in s.connections
    case Error(Capacity) => e.Acquire? && s.freePermits == 0
    case Error(ConnectFailed) => e.Connect? && e.connect == Refused
    case Error(Timeout) => e.Connect? && e.connect == TimedOut
    case Error(Io) =>
      (e.Write? && e.write == WriteFailed) || (e.HalfClose? && !e.ok) || (e.Read? && e.read == ReadFailed)
  }

  lemma ArriveExplained(s: State, e: Event, reply: Reply)
    requires Step(s, e).Some? && e.Arrive?
    ensures var s' := Step(s, e).value;
      VerdictIn(s', e.task) == Some(Answered(reply)) <==> Explains(s, e, e.request, reply)
  {
    hide Destination.Valid;
  }

  lemma CancelExplained(s: State, e: Event, reply: Reply)
    requires Step(s, e).Some? && e.Cancel?
    ensures var s' := Step(s, e).value;
      !AnsweredIn(s', e.task) && !Explains(s, e, s'.tasks[e.task].request, reply)
  {
    hide BreakLastTurn;
  }

  lemma OpenExplained(s: State, e: Event, reply: Reply)
    requires e.task in s.tasks && s.tasks[e.task].request.Open? && StepOpen(s, e).Some?
    ensures var s' := StepOpen(s, e).value;
      VerdictIn(s', e.task) == Some(Answered(reply)) && !AnsweredIn(s, e.task) <==>
      Explains(s, e, s.tasks[e.task].request, reply)
  {
    hide Destination.Valid;
  }

  lemma ExchangeExplained(s: State, e: Event, reply: Reply)
    requires TasksFit(s.tasks) && e.task in s.tasks && s.tasks[e.task].request.Exchange?
    requires s.tasks[e.task].request.write.Some? && StepExchange(s, e).Some?
    ensures var s' := StepExchange(s, e).value;
      VerdictIn(s', e.task) == Some(Answered(reply)) && !AnsweredIn(s, e.task) <==>
      Explains(s, e, s.tasks[e.task].request, reply)
  {
    hide BreakLastTurn, Destination.Valid;
    assert TaskFits(s.tasks[e.task]);
  }

  lemma CloseExplained(s: State, e: Event, reply: Reply)
    requires e.task in s.tasks && s.tasks[e.task].request.Close? && StepClose(s, e).Some?
    ensures var s' := StepClose(s, e).value;
      VerdictIn(s', e.task) == Some(Answered(reply)) && !AnsweredIn(s, e.task) <==>
      Explains(s, e, s.tasks[e.task].request, reply)
  {
  }

  /** A step gives its request a reply exactly when it is the reason for that reply. */
  lemma AnswersExactly(s: State, e: Event, reply: Reply)
    requires TasksFit(s.tasks) && Step(s, e).Some?
    ensures e.task in Step(s, e).value.tasks
    ensures var s' := Step(s, e).value;
      VerdictIn(s', e.task) == Some(Answered(reply)) && !AnsweredIn(s, e.task) <==>
      Explains(s, e, s'.tasks[e.task].request, reply)
  {
    hide StepOpen, StepExchange, StepClose, StepCancel, Explains, AnsweredIn, TasksFit, Destination.Valid;
    VerdictStep(s, e);
    if e.Arrive? {
      ArriveExplained(s, e, reply);
      NotThereNotAnswered(s, e.task);
    } else if e.Cancel? {
      CancelExplained(s, e, reply);
      AnsweredHasVerdict(Step(s, e).value, e.task);
    } else {
      match s.tasks[e.task].request
      case Open(_, _, _, _) => OpenExplained(s, e, reply);
      case Exchange(_, _, _, _, _) => ExchangeExplained(s, e, reply);
      case Close(_) => CloseExplained(s, e, reply);
    }
  }

  lemma NotThereNotAnswered(s: State, t: TaskId)
    requires t !in s.tasks
    ensures !AnsweredIn(s, t)
  {
  }

  lemma AnsweredHasVerdict(s: State, t: TaskId)
    ensures AnsweredIn(s, t) <==> exists reply :: VerdictIn(s, t) == Some(Answered(reply))
  {
    if AnsweredIn(s, t) {
      assert VerdictIn(s, t) == Some(Answered(VerdictIn(s, t).value.reply));
    }
  }

  /** Every reply has its reason: a step of its request, before which it had no reply. */
  lemma {:induction false} ReplyHasItsReason(states: seq<State>, events: seq<Event>, capacity: nat, n: nat, t: TaskId)
    returns (m: nat)
    requires Run(states, events, capacity) && n < |states| && AnsweredIn(states[n], t)
    ensures m < n && events[m].task == t && !AnsweredIn(states[m], t)
    ensures Explains(states[m], events[m], states[n].tasks[t].request, VerdictIn(states[n], t).value.reply)
  {
    hide Step, Explains, VerdictOf;
    assert n > 0;
    StepAt(states, events, capacity, n - 1);
    var reply := VerdictIn(states[n], t).value.reply;
    if AnsweredIn(states[n - 1], t) {
      m := ReplyHasItsReason(states, events, capacity, n - 1, t);
      AnswerLasts(states, events, capacity, n - 1, n, t);
      RequestLasts(states, events, capacity, n - 1, n, t);
    } else {
      m := n - 1;
      VerdictStep(states[m], events[m]);
      AnswersExactly(states[m], events[m], reply);
    }
  }

  /** Every reason has its reply: whatever comes after, the request has that reply and no other. */
  lemma ReasonHasItsReply(states: seq<State>, events: seq<Event>, capacity: nat, m: nat, n: nat, reply: Reply)
    requires Run(states, events, capacity) && m < n < |states|
    requires events[m].task in states[m + 1].tasks
    requires Explains(states[m], events[m], states[m + 1].tasks[events[m].task].request, reply)
    ensures VerdictIn(states[n], events[m].task) == Some(Answered(reply))
  {
    hide Step, Explains, VerdictOf;
    StepAt(states, events, capacity, m);
    AnswersExactly(states[m], events[m], reply);
    AnswerLasts(states, events, capacity, m + 1, n, events[m].task);
  }
}
