// The completion monitor of a client stream: transport/grpc/client_interceptor.go.
//
// Any number of stream operations offer events on an unbuffered channel, one monitor takes
// one of them or the end of the context, one tracing goroutine receives the outcome.
// A send and a receive on an unbuffered channel are one event of the protocol.
module StreamMonitor {
  import opened Wrappers

  // What the wrapped stream returned; io.EOF is the regular end.
  datatype Status = Fine | Eof | Failed(code: int)

  datatype StreamEvent = ReceiveEnd | ErrorEvent(err: Status)

  // What travels on `finished`: nil, an error of the stream, or the context's error.
  datatype Outcome = Success | StreamError(err: Status) | ContextError

  function OutcomeOf(event: StreamEvent): (r: Outcome) {
    match event
    case ReceiveEnd => Success
    case ErrorEvent(err) => StreamError(err)
  }

  // A call of RecvMsg, SendMsg, or one of Header and CloseSend, with what the wrapped stream
  // returned.
  datatype Call = Recv(status: Status) | Send(status: Status) | Other(status: Status)

  datatype Wrapper = Wrapper(serverStreams: bool, rMsgID: int, sMsgID: int)

  // The event a call offers, if any.
  function EventOf(serverStreams: bool, call: Call): (event: Option<StreamEvent>) {
    match call
    case Recv(Fine) => if serverStreams then None else Some(ReceiveEnd)
    case Recv(Eof) => Some(ReceiveEnd)
    case _ => if call.status == Fine then None else Some(ErrorEvent(call.status))
  }

  function Counted(w: Wrapper, call: Call): (w': Wrapper) {
    match call
    case Recv(status) => if status == Fine && w.serverStreams then w.(rMsgID := w.rMsgID + 1) else w
    case Send(_) => w.(sMsgID := w.sMsgID + 1)
    case Other(_) => w
  }

  /** The wrapper; each method returns the event it has to offer, if any. */
  class ClientStreamWrapper {
    const serverStreams: bool
    var rMsgID: int
    var sMsgID: int

    ghost function Value(): (w: Wrapper)
      reads this
    {
      Wrapper(serverStreams, rMsgID, sMsgID)
    }

    constructor (serverStreams: bool)
      ensures Value() == Wrapper(serverStreams, 0, 0)
    {
      this.serverStreams := serverStreams;
      rMsgID, sMsgID := 0, 0;
    }

    method RecvMsg(status: Status) returns (event: Option<StreamEvent>)
      modifies this`rMsgID
      ensures event == EventOf(serverStreams, Recv(status))
      ensures event == Some(ReceiveEnd) <==> status == Eof || (status == Fine && !serverStreams)
      ensures event == Some(ErrorEvent(status)) <==> status.Failed?
      ensures event == None <==> status == Fine && serverStreams
      ensures rMsgID == old(rMsgID) + (if status == Fine && serverStreams then 1 else 0)
      ensures Value() == Counted(old(Value()), Recv(status))
    {
      event := None;
      if status != Fine {
        if status == Eof {
          event := Some(ReceiveEnd);
        } else {
          event := Some(ErrorEvent(status));
        }
      } else {
        if !serverStreams {
          event := Some(ReceiveEnd);
        } else {
          rMsgID := rMsgID + 1;
        }
      }
    }

    method SendMsg(status: Status) returns (event: Option<StreamEvent>)
      modifies this`sMsgID
      ensures event == EventOf(serverStreams, Send(status))
      ensures event == if status != Fine then Some(ErrorEvent(status)) else None
      ensures sMsgID == old(sMsgID) + 1
      ensures Value() == Counted(old(Value()), Send(status))
    {
      sMsgID := sMsgID + 1;
      event := None;
      if status != Fine {
        event := Some(ErrorEvent(status));
      }
    }

    // Header and CloseSend.
    method Pass(status: Status) returns (event: Option<StreamEvent>)
      ensures event == EventOf(serverStreams, Other(status))
      ensures event == if status != Fine then Some(ErrorEvent(status)) else None
    {
      event := None;
      if status != Fine {
        event := Some(ErrorEvent(status));
      }
    }
  }

  // ---------- the protocol ----------

  // A call of sendStreamEvent: blocked in its select, or gone.
  datatype Sender = Offering(event: StreamEvent) | Taken | Dropped

  // The monitor selects, then sends the outcome, then returns, which closes `done`.
  datatype Monitor = Selecting | Delivering(out: Outcome) | Returning | Closed

  datatype Tracer = NotStarted | Waiting | Got(out: Outcome)

  // `accepted` and `delivered` log what went through the two channels.
  datatype State = State(
    wrapper: Wrapper, senders: seq<Sender>, monitor: Monitor, tracer: Tracer, cancelled: bool,
    accepted: seq<StreamEvent>, delivered: seq<Outcome>)

  function Initial(serverStreams: bool): (s: State) {
    State(Wrapper(serverStreams, 0, 0), [], Selecting, NotStarted, false, [], [])
  }

  datatype Action =
    | Invoke(call: Call)
    | Cancel
    | StartTracer
    | Accept(i: nat)
    | TakeCancel
    | Deliver
    | CloseDone
    | Leave(i: nat)

  predicate Enabled(s: State, a: Action) {
    match a
    case Invoke(_) => true
    case Cancel => true
    case StartTracer => s.tracer == NotStarted
    case Accept(i) => i < |s.senders| && s.senders[i].Offering? && s.monitor == Selecting
    case TakeCancel => s.cancelled && s.monitor == Selecting
    case Deliver => s.monitor.Delivering? && s.tracer == Waiting
    case CloseDone => s.monitor == Returning
    case Leave(i) => i < |s.senders| && s.senders[i].Offering? && s.monitor == Closed
  }

  function Next(s: State, a: Action): (r: State)
    requires Enabled(s, a)
  {
    match a
    case Invoke(call) =>
      var counted := s.(wrapper := Counted(s.wrapper, call));
      (match EventOf(s.wrapper.serverStreams, call)
       case None => counted
       case Some(event) => counted.(senders := s.senders + [Offering(event)]))
    case Cancel => s.(cancelled := true)
    case StartTracer => s.(tracer := Waiting)
    case Accept(i) =>
      var event := s.senders[i].event;
      s.(senders := s.senders[i := Taken], monitor := Delivering(OutcomeOf(event)), accepted := s.accepted + [event])
    case TakeCancel => s.(monitor := Delivering(ContextError))
    case Deliver => s.(tracer := Got(s.monitor.out), monitor := Returning, delivered := s.delivered + [s.monitor.out])
    case CloseDone => s.(monitor := Closed)
    case Leave(i) => s.(senders := s.senders[i := Dropped])
  }

  // The state after a sequence of actions, if each of them was enabled in its turn.
  function Run(s: State, actions: seq<Action>): (r: Option<State>) {
    if actions == [] then Some(s)
    else
      var n := |actions| - 1;
      match Run(s, actions[..n])
      case None => None
      case Some(mid) => if Enabled(mid, actions[n]) then Some(Next(mid, actions[n])) else None
  }

  predicate Leads(s: State, actions: seq<Action>, s': State) {
    Run(s, actions) == Some(s')
  }

  // ---------- safety ----------

  // The outcome the monitor settled on.
  ghost predicate Settles(s: State, out: Outcome) {
    || (exists event :: s.accepted == [event] && out == OutcomeOf(event))
    || (s.accepted == [] && s.cancelled && out == ContextError)
  }

  ghost predicate Ok(s: State) {
    && (s.monitor == Selecting ==> s.accepted == [] && s.delivered == [] && !s.tracer.Got?)
    && (s.monitor.Delivering? ==> Settles(s, s.monitor.out) && s.delivered == [] && !s.tracer.Got?)
    && (s.monitor.Returning? || s.monitor.Closed? ==>
          s.tracer.Got? && s.delivered == [s.tracer.out] && Settles(s, s.tracer.out))
    && (Dropped in s.senders ==> s.monitor == Closed)
    && (|s.accepted| == 0 ==> Taken !in s.senders)
  }

  lemma InitialOk()
    ensures forall serverStreams :: Ok(Initial(serverStreams))
  {
  }

  lemma NextKeepsOk(s: State, a: Action)
    requires Ok(s) && Enabled(s, a)
    ensures Ok(Next(s, a))
  {
    var s' := Next(s, a);
    if a.Accept? {
      assert s'.accepted == [s.senders[a.i].event];
    } else if !a.TakeCancel? {
      forall out | Settles(s, out) ensures Settles(s', out) {
      }
    }
  }

  lemma {:induction false} RunKeepsOk(s: State, actions: seq<Action>, s': State)
    requires Ok(s) && Leads(s, actions, s')
    ensures Ok(s')
  {
    hide Ok;
    if actions != [] {
      var n := |actions| - 1;
      var mid := Run(s, actions[..n]).value;
      RunKeepsOk(s, actions[..n], mid);
      NextKeepsOk(mid, actions[n]);
    }
  }

  // Over all interleavings at most one outcome is delivered, and it is that of the one event
  // the monitor accepted or, when it accepted none, the context's error after a cancellation.
  // An event is dropped only after an outcome was delivered.
  lemma AtMostOneOutcome(serverStreams: bool, actions: seq<Action>, s: State)
    requires Leads(Initial(serverStreams), actions, s)
    ensures |s.accepted| <= 1 && |s.delivered| <= 1
    ensures forall out :: out in s.delivered ==> s.tracer == Got(out) && Settles(s, out)
    ensures Dropped in s.senders ==> |s.delivered| == 1
  {
    RunKeepsOk(Initial(serverStreams), actions, s);
  }

  // What was delivered never changes afterwards.
  lemma {:induction false} OutcomeIsFinal(s: State, actions: seq<Action>, s': State)
    requires Ok(s) && s.delivered != [] && Leads(s, actions, s')
    ensures s'.delivered == s.delivered && s'.accepted == s.accepted && s'.tracer == s.tracer
  {
    hide Ok;
    if actions != [] {
      var n := |actions| - 1;
      var mid := Run(s, actions[..n]).value;
      OutcomeIsFinal(s, actions[..n], mid);
      RunKeepsOk(s, actions[..n], mid);
      AfterDelivery(mid);
    }
  }

  lemma AfterDelivery(s: State)
    requires Ok(s) && s.delivered != []
    ensures s.tracer.Got? && (s.monitor == Returning || s.monitor == Closed)
  {
  }

  // ---------- no sender stays blocked ----------

  function Blocked(senders: seq<Sender>): (r: nat) {
    if senders == [] then 0
    else Blocked(senders[..|senders| - 1]) + (if senders[|senders| - 1].Offering? then 1 else 0)
  }

  lemma {:induction false} BlockedUpdate(senders: seq<Sender>, i: nat, to: Sender)
    requires i < |senders| && senders[i].Offering? && !to.Offering?
    ensures Blocked(senders[i := to]) == Blocked(senders) - 1
  {
    var n := |senders| - 1;
    if i < n {
      BlockedUpdate(senders[..n], i, to);
      assert senders[i := to][..n] == senders[..n][i := to];
    } else {
      assert senders[i := to][..n] == senders[..n];
    }
  }

  lemma {:induction false} BlockedWitness(senders: seq<Sender>) returns (i: nat)
    requires Blocked(senders) > 0
    ensures i < |senders| && senders[i].Offering?
  {
    var n := |senders| - 1;
    if senders[n].Offering? {
      i := n;
    } else {
      i := BlockedWitness(senders[..n]);
    }
  }

  // Steps of the goroutines of this stream; new calls and cancellation come from outside.
  predicate Internal(a: Action) { !a.Invoke? && !a.Cancel? }

  function Rank(m: Monitor): (r: nat) {
    match m
    case Selecting => 3
    case Delivering(_) => 2
    case Returning => 1
    case Closed => 0
  }

  function Measure(s: State): (r: nat) {
    Blocked(s.senders) + Rank(s.monitor) + (if s.tracer == NotStarted then 1 else 0)
  }

  lemma InternalDecreases(s: State, a: Action)
    requires Enabled(s, a) && Internal(a)
    ensures Measure(Next(s, a)) < Measure(s)
  {
    match a
    case Accept(i) => BlockedUpdate(s.senders, i, Taken);
    case Leave(i) => BlockedUpdate(s.senders, i, Dropped);
    case _ =>
  }

  // As long as a sender is blocked some goroutine of the stream can move.
  lemma NotStuck(s: State) returns (a: Action)
    requires Ok(s) && Blocked(s.senders) > 0
    ensures Internal(a) && Enabled(s, a)
  {
    var i := BlockedWitness(s.senders);
    match s.monitor
    case Selecting => a := Accept(i);
    case Delivering(_) => a := if s.tracer == NotStarted then StartTracer else Deliver;
    case Returning => a := CloseDone;
    case Closed => a := Leave(i);
  }

  ghost predicate AllInternal(actions: seq<Action>) {
    forall i :: 0 <= i < |actions| ==> Internal(actions[i])
  }

  // A run of the stream's own goroutines is no longer than the measure of its start.
  lemma {:induction false} InternalRunIsBounded(s: State, actions: seq<Action>, s': State)
    requires Leads(s, actions, s') && AllInternal(actions)
    ensures |actions| + Measure(s') <= Measure(s)
  {
    hide Measure;
    if actions != [] {
      var n := |actions| - 1;
      var mid := Run(s, actions[..n]).value;
      InternalRunIsBounded(s, actions[..n], mid);
      InternalDecreases(mid, actions[n]);
    }
  }

  // Hence from every reachable state, when the stream's own goroutines run until none of them
  // can move, no sender is left blocked.
  lemma SendersAreReleased(serverStreams: bool, past: seq<Action>, s: State, actions: seq<Action>, s': State)
    requires Leads(Initial(serverStreams), past, s)
    requires Leads(s, actions, s') && AllInternal(actions)
    requires forall a :: Enabled(s', a) ==> !Internal(a)
    ensures Blocked(s'.senders) == 0
    ensures |actions| <= Measure(s)
  {
    hide Ok, Run, Measure;
    InitialOk();
    RunKeepsOk(Initial(serverStreams), past, s);
    RunKeepsOk(s, actions, s');
    InternalRunIsBounded(s, actions, s');
    if Blocked(s'.senders) > 0 {
      var a := NotStuck(s');
    }
  }

  // Without the tracing goroutine a run can leave a sender blocked that nothing releases.
  lemma TracerIsNeeded(serverStreams: bool) returns (actions: seq<Action>, s: State)
    ensures Leads(Initial(serverStreams), actions, s) && StartTracer !in actions
    ensures Blocked(s.senders) == 1
    ensures forall a :: Enabled(s, a) && Internal(a) ==> a == StartTracer
  {
    hide Run, Next, EventOf, Blocked;
    var start := Initial(serverStreams);
    var first, second := Invoke(Recv(Eof)), Invoke(Other(Eof));
    actions := [first, second, Accept(0)];
    assert [] + [first] == [first] && [first] + [second] == [first, second];
    RunNone(start);
    EofOffers(start);
    var s1 := Next(start, first);
    RunOne(start, [], start, first);
    EofOffers(s1);
    var s2 := Next(s1, second);
    RunOne(start, [first], s1, second);
    AcceptTakes(s2, 0);
    s := Next(s2, Accept(0));
    RunOne(start, [first, second], s2, Accept(0));
    assert [first, second] + [Accept(0)] == actions;
    assert s.senders == [Taken] + [Offering(ErrorEvent(Eof))];
    OneBlocked(s.senders[1]);
  }

  lemma EofOffers(s: State)
    ensures Next(s, Invoke(Recv(Eof))) == s.(senders := s.senders + [Offering(ReceiveEnd)])
    ensures Next(s, Invoke(Other(Eof))) == s.(senders := s.senders + [Offering(ErrorEvent(Eof))])
  {
  }

  lemma AcceptTakes(s: State, i: nat)
    requires Enabled(s, Accept(i))
    ensures Next(s, Accept(i)).senders == s.senders[i := Taken]
    ensures Next(s, Accept(i)).monitor.Delivering? && Next(s, Accept(i)).tracer == s.tracer
  {
  }

  lemma OneBlocked(sender: Sender)
    requires sender.Offering?
    ensures Blocked([Taken] + [sender]) == 1
  {
    assert ([Taken] + [sender])[..1] == [Taken];
    assert Blocked([Taken]) == 0;
  }

  lemma RunNone(s: State)
    ensures Leads(s, [], s)
  {
  }

  lemma RunOne(s: State, actions: seq<Action>, mid: State, a: Action)
    requires Leads(s, actions, mid) && Enabled(mid, a)
    ensures Leads(s, actions + [a], Next(mid, a))
  {
    assert (actions + [a])[..|actions|] == actions;
  }

  // ---------- what the calls of a run did ----------

  // The calls of a run that the wrapper counts.
  function Sends(actions: seq<Action>): (n: nat) {
    if actions == [] then 0
    else
      var last := actions[|actions| - 1];
      Sends(actions[..|actions| - 1]) + (if last.Invoke? && last.call.Send? then 1 else 0)
  }

  function Receipts(actions: seq<Action>): (n: nat) {
    if actions == [] then 0
    else Receipts(actions[..|actions| - 1]) + (if actions[|actions| - 1] == Invoke(Recv(Fine)) then 1 else 0)
  }

  lemma NextCounts(s: State, a: Action)
    requires Enabled(s, a)
    ensures Next(s, a).wrapper == if a.Invoke? then Counted(s.wrapper, a.call) else s.wrapper
  {
  }

  // In every run the message numbers count all sends, failed ones included, and the messages
  // received on a server stream.
  lemma {:induction false} MessageNumbers(serverStreams: bool, actions: seq<Action>, s: State)
    requires Leads(Initial(serverStreams), actions, s)
    ensures s.wrapper.serverStreams == serverStreams
    ensures s.wrapper.sMsgID == Sends(actions)
    ensures s.wrapper.rMsgID == if serverStreams then Receipts(actions) else 0
  {
    hide Next, Enabled;
    if actions != [] {
      var n := |actions| - 1;
      var mid := Run(Initial(serverStreams), actions[..n]).value;
      MessageNumbers(serverStreams, actions[..n], mid);
      NextCounts(mid, actions[n]);
    }
  }

  // Some call of the run offered the event.
  ghost predicate Caused(serverStreams: bool, actions: seq<Action>, event: StreamEvent) {
    exists i :: 0 <= i < |actions| && actions[i].Invoke? && EventOf(serverStreams, actions[i].call) == Some(event)
  }

  lemma CausedMore(serverStreams: bool, actions: seq<Action>, n: nat, event: StreamEvent)
    requires n <= |actions| && Caused(serverStreams, actions[..n], event)
    ensures Caused(serverStreams, actions, event)
  {
    var i :| 0 <= i < n && actions[..n][i].Invoke? && EventOf(serverStreams, actions[..n][i].call) == Some(event);
    assert actions[i] == actions[..n][i];
  }

  lemma NextOffers(s: State, a: Action, event: StreamEvent)
    requires Enabled(s, a)
    requires Offering(event) in Next(s, a).senders || event in Next(s, a).accepted
    ensures Offering(event) in s.senders || event in s.accepted ||
            (a.Invoke? && EventOf(s.wrapper.serverStreams, a.call) == Some(event))
  {
  }

  lemma NextCancels(s: State, a: Action)
    requires Enabled(s, a) && Next(s, a).cancelled
    ensures s.cancelled || a == Cancel
  {
  }

  // Events are not invented: what is offered or was accepted was offered by a call.
  lemma {:induction false} EventsHaveCalls(serverStreams: bool, actions: seq<Action>, s: State)
    requires Leads(Initial(serverStreams), actions, s)
    ensures forall event :: Offering(event) in s.senders || event in s.accepted ==>
              Caused(serverStreams, actions, event)
    ensures s.cancelled ==> Cancel in actions
  {
    hide Next, Enabled, EventOf;
    if actions != [] {
      var n := |actions| - 1;
      var mid := Run(Initial(serverStreams), actions[..n]).value;
      EventsHaveCalls(serverStreams, actions[..n], mid);
      MessageNumbers(serverStreams, actions[..n], mid);
      forall event | Offering(event) in s.senders || event in s.accepted
        ensures Caused(serverStreams, actions, event)
      {
        if Offering(event) in mid.senders || event in mid.accepted {
          CausedMore(serverStreams, actions, n, event);
        } else {
          NextOffers(mid, actions[n], event);
        }
      }
      if s.cancelled {
        NextCancels(mid, actions[n]);
      }
    }
  }

  // A run explains the outcome it delivered: success means that a receive met the end of the
  // stream, or the only message of a call without a server stream; an error is the one some
  // call of the run returned; the context's error means a cancellation.
  lemma OutcomeHasCause(serverStreams: bool, actions: seq<Action>, s: State, out: Outcome)
    requires Leads(Initial(serverStreams), actions, s) && out in s.delivered
    ensures match out
            case Success => Invoke(Recv(Eof)) in actions || (!serverStreams && Invoke(Recv(Fine)) in actions)
            case StreamError(err) => err != Fine && exists a :: a in actions && a.Invoke? && a.call.status == err && a.call != Recv(Eof)
            case ContextError => Cancel in actions
  {
    AtMostOneOutcome(serverStreams, actions, s);
    EventsHaveCalls(serverStreams, actions, s);
    if out != ContextError {
      var event :| s.accepted == [event] && out == OutcomeOf(event);
      assert event in s.accepted;
      var i :| 0 <= i < |actions| && actions[i].Invoke? && EventOf(serverStreams, actions[i].call) == Some(event);
      assert actions[i] in actions;
    }
  }

  // ---------- what ends a stream ----------

  // A cancellation, a receive that met the end, the message of a call without a server
  // stream, and everything that failed.
  predicate Ends(serverStreams: bool, a: Action) {
    match a
    case Cancel => true
    case Invoke(Recv(status)) => status != Fine || !serverStreams
    case Invoke(Send(status)) => status != Fine
    case Invoke(Other(status)) => status != Fine
    case _ => false
  }

  // Nothing that ends the stream is forgotten.
  lemma {:induction false} EndsLeaveTraces(serverStreams: bool, actions: seq<Action>, s: State)
    requires Leads(Initial(serverStreams), actions, s)
    requires exists a :: a in actions && Ends(serverStreams, a)
    ensures s.cancelled || s.senders != []
  {
    hide Next, Enabled, Ends;
    var n := |actions| - 1;
    var mid := Run(Initial(serverStreams), actions[..n]).value;
    MessageNumbers(serverStreams, actions[..n], mid);
    var a :| a in actions && Ends(serverStreams, a);
    if a in actions[..n] {
      EndsLeaveTraces(serverStreams, actions[..n], mid);
      NextKeepsTraces(mid, actions[n]);
    } else {
      assert a == actions[n];
      EndLeavesTrace(mid, a);
    }
  }

  lemma EndLeavesTrace(s: State, a: Action)
    requires Enabled(s, a) && Ends(s.wrapper.serverStreams, a)
    ensures Next(s, a).cancelled || Next(s, a).senders != []
  {
  }

  lemma NextKeepsTraces(s: State, a: Action)
    requires Enabled(s, a) && (s.cancelled || s.senders != [])
    ensures Next(s, a).cancelled || Next(s, a).senders != []
  {
  }

  // A monitor that has nothing left to do has delivered, if there was anything to deliver.
  lemma FinishedHasDelivered(s: State)
    requires Ok(s) && (s.cancelled || s.senders != [])
    requires forall a :: Enabled(s, a) ==> !Internal(a)
    ensures |s.delivered| == 1
  {
    assert !Enabled(s, StartTracer) && !Enabled(s, TakeCancel) && !Enabled(s, Deliver) && !Enabled(s, CloseDone);
    assert s.senders != [] ==> s.senders[0] in s.senders && !Enabled(s, Accept(0));
  }

  // When a run has gone on until the stream's own goroutines have nothing left to do, an
  // outcome was delivered if and only if something in the run ends a stream.
  lemma DeliversIff(serverStreams: bool, actions: seq<Action>, s: State)
    requires Leads(Initial(serverStreams), actions, s)
    requires forall a :: Enabled(s, a) ==> !Internal(a)
    ensures |s.delivered| == 1 <==> exists a :: a in actions && Ends(serverStreams, a)
    ensures s.delivered == [] <==> !exists a :: a in actions && Ends(serverStreams, a)
  {
    hide Ok, Run, Enabled;
    InitialOk();
    RunKeepsOk(Initial(serverStreams), actions, s);
    AtMostOneOutcome(serverStreams, actions, s);
    if exists a :: a in actions && Ends(serverStreams, a) {
      EndsLeaveTraces(serverStreams, actions, s);
      FinishedHasDelivered(s);
    } else if s.delivered != [] {
      OutcomeHasCause(serverStreams, actions, s, s.delivered[0]);
    }
  }

  // Until the monitor has settled, each offered event may win: some run of the stream's own
  // goroutines delivers its outcome.
  lemma AnyOfferCanWin(s: State, i: nat) returns (actions: seq<Action>, s': State)
    requires Ok(s) && s.monitor == Selecting && i < |s.senders| && s.senders[i].Offering?
    ensures Leads(s, actions, s') && AllInternal(actions)
    ensures match s.senders[i].event
            case ReceiveEnd => s'.delivered == [Success]
            case ErrorEvent(err) => s'.delivered == [StreamError(err)]
  {
    hide Run, Ok;
    RunNone(s);
    RunOne(s, [], s, Accept(i));
    actions, s' := DeliverNow(s, [] + [Accept(i)], Next(s, Accept(i)));
  }

  // And so may a cancellation.
  lemma CancelCanWin(s: State) returns (actions: seq<Action>, s': State)
    requires Ok(s) && s.monitor == Selecting && s.cancelled
    ensures Leads(s, actions, s') && AllInternal(actions) && s'.delivered == [ContextError]
  {
    hide Run, Ok;
    RunNone(s);
    RunOne(s, [], s, TakeCancel);
    actions, s' := DeliverNow(s, [] + [TakeCancel], Next(s, TakeCancel));
  }

  lemma DeliverNow(s: State, done: seq<Action>, mid: State) returns (actions: seq<Action>, s': State)
    requires Leads(s, done, mid) && AllInternal(done) && Ok(s)
    requires mid.monitor.Delivering?
    ensures Leads(s, actions, s') && AllInternal(actions) && s'.delivered == [mid.monitor.out]
  {
    hide Run;
    RunKeepsOk(s, done, mid);
    actions, s' := done, mid;
    if s'.tracer == NotStarted {
      RunOne(s, actions, s', StartTracer);
      actions, s' := actions + [StartTracer], Next(s', StartTracer);
    }
    RunOne(s, actions, s', Deliver);
    actions, s' := actions + [Deliver], Next(s', Deliver);
  }
}
