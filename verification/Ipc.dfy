// The request multiplexer of internal/ipc: one client connection, the calls that
// share it, the read loop that hands out responses, and the server behind it.
// Every atomic action of any goroutine is one step; steps interleave freely.
module Ipc {

  import opened Options

  // ----- What travels -----

  const GENERIC_ERROR_CODE := 3

  /** What the registered handler returned for a request: a response, which may itself
      be an error, or a Go error, or neither. */
  datatype Outcome =
    | Answered(body: string)
    | Refused(code: int, message: string)
    | Failed(message: string)
    | NoResponse

  datatype Response = Reply(body: string) | ErrorReply(code: int, message: string)

  datatype Envelope = RequestEnv(id: nat, req: string) | ResponseEnv(id: nat, resp: Response) | EventEnv(event: string)

  /** processEnvelope: a response is passed on; an error and a missing response both become error replies. */
  function Respond(o: Outcome): Response {
    match o
    case Answered(body) => Reply(body)
    case Refused(code, message) => ErrorReply(code, message)
    case Failed(message) => ErrorReply(GENERIC_ERROR_CODE, message)
    case NoResponse => ErrorReply(GENERIC_ERROR_CODE, "internal error: nil response")
  }

  datatype CallResult =
    | Got(body: string)
    | RemoteError(code: int, message: string)
    | Cancelled
    | WriteFailed
    | ConnClosed

  /** What Call returns for a response taken from its channel. */
  function ResultOf(r: Response): CallResult {
    match r
    case Reply(body) => Got(body)
    case ErrorReply(code, message) => RemoteError(code, message)
  }

  // ----- State -----

  /** A response channel of capacity one, with its history of sends and closes. */
  datatype Chan = Chan(buf: Option<Response>, sends: nat, closes: nat)

  const NewChan := Chan(None, 0, 0)

  datatype Call = Registered | Waiting | Returned(result: CallResult)

  /** The read loop: between messages, about to send, about to close a channel,
      after drainReqs, and after closing the connection. */
  datatype Reader = Reading | Sending(id: nat, resp: Response) | Closing(id: nat) | Drained | Stopped

  /** How an id left the pending map. */
  datatype Departure = Delivered | CallerLeft | DrainedOut

  datatype State = State(
    // client
    nextID: nat,
    pending: set<nat>,
    chans: map<nat, Chan>,
    calls: map<nat, Call>,
    reader: Reader,
    connOpen: bool,
    // the two directions of the connection, and the server's running handlers
    toServer: seq<Envelope>,
    toClient: seq<Envelope>,
    handling: set<(nat, string)>,
    // history
    requests: map<nat, string>,
    answered: set<(nat, string, Outcome)>,
    departed: map<nat, Departure>,
    late: set<nat>)

  const Init := State(1, {}, map[], map[], Reading, true, [], [], {}, map[], {}, map[], {})

  datatype Step =
    // a call
    | Register(req: string)
    | Write(id: nat)
    | FailWrite(id: nat, arrived: bool)
    | Cancel(id: nat)
    | Receive(id: nat)
    // the server
    | ServerRead
    | Handle(id: nat, req: string, outcome: Outcome, arrives: bool)
    | Push(event: string)
    // the connection
    | Lose(up: nat, down: nat)
    | CloseClient
    // the read loop
    | ReaderNext
    | ReaderSend
    | ReaderClose
    | ReaderDrain
    | ReaderStop

  predicate Ended(s: State) {
    s.reader.Drained? || s.reader.Stopped?
  }

  predicate Enabled(s: State, step: Step) {
    match step
    case Register(_) => true
    case Write(id) => id in s.calls && s.calls[id].Registered? && s.connOpen
    case FailWrite(id, _) => id in s.calls && s.calls[id].Registered?
    case Cancel(id) => id in s.calls && !s.calls[id].Returned?
    case Receive(id) => id in s.calls && s.calls[id].Waiting? && id in s.chans
                        && (s.chans[id].buf.Some? || s.chans[id].closes > 0)
    case ServerRead => s.toServer != []
    case Handle(id, req, _, _) => (id, req) in s.handling
    case Push(_) => true
    case Lose(up, down) => up <= |s.toServer| && down <= |s.toClient|
    case CloseClient => true
    case ReaderNext => s.reader.Reading? && s.toClient != []
    case ReaderSend => s.reader.Sending? && s.reader.id in s.chans
    case ReaderClose => s.reader.Closing? && s.reader.id in s.chans
    case ReaderDrain => s.reader.Reading?
    case ReaderStop => s.reader.Drained?
  }

  /** delete(c.reqs, id), which does nothing if the id has already gone. */
  function Leave(s: State, id: nat, why: Departure): State {
    if id in s.pending then s.(pending := s.pending - {id}, departed := s.departed[id := why]) else s
  }

  function Next(s: State, step: Step): State
    requires Enabled(s, step)
  {
    match step
    case Register(req) =>
      var id := s.nextID;
      s.(nextID := id + 1, pending := s.pending + {id}, chans := s.chans[id := NewChan],
         calls := s.calls[id := Registered], requests := s.requests[id := req],
         late := if Ended(s) then s.late + {id} else s.late)
    case Write(id) =>
      s.(calls := s.calls[id := Waiting], toServer := s.toServer + [RequestEnv(id, RequestOf(s, id))])
    case FailWrite(id, arrived) =>
      Leave(s, id, CallerLeft).(
        calls := s.calls[id := Returned(WriteFailed)],
        toServer := if arrived then s.toServer + [RequestEnv(id, RequestOf(s, id))] else s.toServer)
    case Cancel(id) =>
      Leave(s, id, CallerLeft).(calls := s.calls[id := Returned(Cancelled)])
    case Receive(id) =>
      var ch := s.chans[id];
      if ch.buf.Some? then
        s.(calls := s.calls[id := Returned(ResultOf(ch.buf.value))], chans := s.chans[id := ch.(buf := None)])
      else
        s.(calls := s.calls[id := Returned(ConnClosed)])
    case ServerRead =>
      var e := s.toServer[0];
      s.(toServer := s.toServer[1..],
         handling := if e.RequestEnv? then s.handling + {(e.id, e.req)} else s.handling)
    case Handle(id, req, outcome, arrives) =>
      s.(handling := s.handling - {(id, req)},
         answered := s.answered + {(id, req, outcome)},
         toClient := if arrives then s.toClient + [ResponseEnv(id, Respond(outcome))] else s.toClient)
    case Push(event) =>
      s.(toClient := s.toClient + [EventEnv(event)])
    case Lose(up, down) =>
      s.(toServer := s.toServer[..up], toClient := s.toClient[..down])
    case CloseClient =>
      s.(connOpen := false)
    case ReaderNext =>
      var e, rest := s.toClient[0], s.toClient[1..];
      if e.ResponseEnv? && e.id in s.pending then
        Leave(s, e.id, Delivered).(reader := Sending(e.id, e.resp), toClient := rest)
      else s.(toClient := rest)
    case ReaderSend =>
      var id, ch := s.reader.id, s.chans[s.reader.id];
      s.(chans := s.chans[id := Chan(Some(s.reader.resp), ch.sends + 1, ch.closes)], reader := Closing(id))
    case ReaderClose =>
      var id, ch := s.reader.id, s.chans[s.reader.id];
      s.(chans := s.chans[id := ch.(closes := ch.closes + 1)], reader := Reading)
    case ReaderDrain =>
      s.(chans := map id | id in s.chans ::
           if id in s.pending then s.chans[id].(closes := s.chans[id].closes + 1) else s.chans[id],
         departed := s.departed + map id | id in s.pending :: DrainedOut,
         pending := {}, reader := Drained)
    case ReaderStop =>
      s.(reader := Stopped, connOpen := false)
  }

  function RequestOf(s: State, id: nat): string {
    if id in s.requests then s.requests[id] else ""
  }

  // ----- Runs -----

  predicate Legal(s: State, steps: seq<Step>)
    decreases |steps|
  {
    steps == [] || (Enabled(s, steps[0]) && Legal(Next(s, steps[0]), steps[1..]))
  }

  function Run(s: State, steps: seq<Step>): State
    requires Legal(s, steps)
    decreases |steps|
  {
    if steps == [] then s else Run(Next(s, steps[0]), steps[1..])
  }

  // ----- Invariant -----

  predicate Issued(s: State, id: nat) {
    1 <= id < s.nextID
  }

  /** Every issued id has a channel, a call and a request; it is pending or has departed, never both. */
  ghost predicate Conserved(s: State) {
    && s.nextID >= 1
    && (forall id :: id in s.chans <==> Issued(s, id))
    && (forall id :: id in s.calls <==> Issued(s, id))
    && (forall id :: id in s.requests <==> Issued(s, id))
    && (forall id :: Issued(s, id) <==> id in s.pending || id in s.departed)
    && (forall id :: id in s.pending ==> id !in s.departed)
    && (forall id :: id in s.late ==> Issued(s, id))
  }

  /** The history of a channel follows from how its id left the pending map. */
  predicate ChanFits(s: State, id: nat)
    requires id in s.chans
  {
    var ch := s.chans[id];
    if id in s.pending then ch == NewChan
    else if id !in s.departed then false
    else match s.departed[id]
      case CallerLeft => ch == NewChan
      case DrainedOut => ch == Chan(None, 0, 1)
      case Delivered =>
        if s.reader.Sending? && s.reader.id == id then ch == NewChan
        else if s.reader.Closing? && s.reader.id == id then ch.sends == 1 && ch.closes == 0
        else ch.sends == 1 && ch.closes == 1
  }

  ghost predicate Channels(s: State) {
    && (forall id :: id in s.chans ==> ChanFits(s, id))
    && (s.reader.Sending? || s.reader.Closing? ==>
          s.reader.id in s.departed && s.departed[s.reader.id].Delivered?)
  }

  /** The answer to request id that some handler gave. */
  ghost predicate AnswerTo(s: State, id: nat, r: Response) {
    exists o :: (id, RequestOf(s, id), o) in s.answered && r == Respond(o)
  }

  predicate Sent(s: State, id: nat) {
    id in s.calls && !s.calls[id].Registered?
  }

  /** The response is under way to the caller of this id: on the wire, in the
      reader's hands or in the channel. */
  predicate Carried(s: State, id: nat, r: Response) {
    || ResponseEnv(id, r) in s.toClient
    || s.reader == Sending(id, r)
    || (id in s.chans && s.chans[id].buf == Some(r))
  }

  predicate Result(s: State, id: nat, r: Response) {
    id in s.calls && s.calls[id] == Returned(ResultOf(r))
  }

  /** Whatever is under way to a caller, or has reached it, answers its own request. */
  ghost predicate Faithful(s: State) {
    && (forall id, r :: Carried(s, id, r) ==> Issued(s, id) && AnswerTo(s, id, r))
    && (forall id, r :: Result(s, id, r) ==> AnswerTo(s, id, r))
  }

  /** A request is on its way, being handled or answered, in at most one place and once. */
  ghost predicate Once(s: State) {
    && (forall i :: 0 <= i < |s.toServer| ==>
          s.toServer[i].RequestEnv? && Sent(s, s.toServer[i].id)
          && s.toServer[i].req == RequestOf(s, s.toServer[i].id))
    && (forall i, j :: 0 <= i < j < |s.toServer| ==> s.toServer[i].id != s.toServer[j].id)
    && (forall h :: h in s.handling ==> Sent(s, h.0) && h.1 == RequestOf(s, h.0))
    && (forall a :: a in s.answered ==> Sent(s, a.0) && a.1 == RequestOf(s, a.0))
    && (forall i, h :: 0 <= i < |s.toServer| && h in s.handling ==> s.toServer[i].id != h.0)
    && (forall i, a :: 0 <= i < |s.toServer| && a in s.answered ==> s.toServer[i].id != a.0)
    && (forall h, a :: h in s.handling && a in s.answered ==> h.0 != a.0)
    && (forall a, b :: a in s.answered && b in s.answered && a.0 == b.0 ==> a == b)
  }

  /** A returned call is no longer pending; once the reader has ended, only ids
      registered since then are. */
  ghost predicate Settled(s: State) {
    && (forall id :: id in s.pending && id in s.calls ==> !s.calls[id].Returned?)
    && (Ended(s) ==> s.pending <= s.late)
    && (!Ended(s) ==> s.late == {})
    && (s.reader.Stopped? ==> !s.connOpen)
    && (forall id :: id in s.late && id in s.departed ==> s.departed[id].CallerLeft?)
    && (forall id :: id in s.calls && !s.calls[id].Returned? && id in s.departed ==> !s.departed[id].CallerLeft?)
  }

  ghost predicate Inv(s: State) {
    Conserved(s) && Channels(s) && Faithful(s) && Once(s) && Settled(s)
  }

  lemma InitHolds()
    ensures Inv(Init)
  {
  }

  // ----- Each part of the invariant is kept by every step -----

  predicate Leaves(step: Step) {
    step.FailWrite? || step.Cancel? || step.ReaderNext?
  }

  lemma ConservedStep(s: State, step: Step)
    requires Inv(s) && Enabled(s, step)
    ensures Conserved(Next(s, step))
  {
    hide Channels, Faithful, Once, Settled, Respond;
    if Leaves(step) {
      ConservedLeaving(s, step);
    } else if step.Register? {
      ConservedRegister(s, step);
    } else if step.ReaderDrain? {
      ConservedDrain(s, step);
    } else {
      ConservedOther(s, step);
    }
  }

  lemma ConservedOther(s: State, step: Step)
    requires Conserved(s) && Enabled(s, step) && !Leaves(step) && !step.Register? && !step.ReaderDrain?
    ensures Conserved(Next(s, step))
  {
    hide Conserved, Respond, ResultOf;
    ConservedFrame(s, Next(s, step));
  }

  lemma ConservedFrame(s: State, s': State)
    requires Conserved(s) && s'.nextID == s.nextID && s'.pending == s.pending && s'.departed == s.departed
    requires s'.requests == s.requests && s'.late == s.late
    requires s'.chans.Keys == s.chans.Keys && s'.calls.Keys == s.calls.Keys
    ensures Conserved(s')
  {
    assert forall id :: id in s'.chans <==> id in s'.chans.Keys;
    assert forall id :: id in s'.calls <==> id in s'.calls.Keys;
  }

  lemma ConservedLeaving(s: State, step: Step)
    requires Conserved(s) && Enabled(s, step) && Leaves(step)
    ensures Conserved(Next(s, step))
  {
    if step.ReaderNext? {
      var e := s.toClient[0];
      if e.ResponseEnv? && e.id in s.pending {
        ConservedLeave(s, e.id, Delivered);
        ConservedFrame(Leave(s, e.id, Delivered), Next(s, step));
      } else {
        ConservedFrame(s, Next(s, step));
      }
    } else {
      ConservedLeave(s, step.id, CallerLeft);
      ConservedFrame(Leave(s, step.id, CallerLeft), Next(s, step));
    }
  }

  lemma ConservedLeave(s: State, id: nat, why: Departure)
    requires Conserved(s)
    ensures Conserved(Leave(s, id, why))
  {
  }

  lemma ConservedRegister(s: State, step: Step)
    requires Conserved(s) && step.Register?
    ensures Conserved(Next(s, step))
  {
  }

  lemma ConservedDrain(s: State, step: Step)
    requires Conserved(s) && Enabled(s, step) && step.ReaderDrain?
    ensures Conserved(Next(s, step))
  {
  }

  lemma ChannelsStep(s: State, step: Step)
    requires Inv(s) && Enabled(s, step)
    ensures Channels(Next(s, step))
  {
    hide Faithful, Once, Settled, Respond;
    if step.FailWrite? {
      ChannelsWhenCallerLeaves(s, step);
    } else if step.Cancel? {
      ChannelsWhenCallerLeaves(s, step);
    } else if step.ReaderNext? {
      ChannelsNext(s, step);
    } else if step.ReaderDrain? {
      ChannelsDrain(s, step);
    } else if step.ReaderSend? || step.ReaderClose? {
      ChannelsReader(s, step);
    } else {
      ChannelsOther(s, step);
    }
  }

  lemma ChannelsWhenCallerLeaves(s: State, step: Step)
    requires Conserved(s) && Channels(s) && Enabled(s, step) && (step.FailWrite? || step.Cancel?)
    ensures Channels(Next(s, step))
  {
  }

  lemma ChannelsNext(s: State, step: Step)
    requires Conserved(s) && Channels(s) && Enabled(s, step) && step.ReaderNext?
    ensures Channels(Next(s, step))
  {
  }

  lemma ChannelsDrain(s: State, step: Step)
    requires Conserved(s) && Channels(s) && Enabled(s, step) && step.ReaderDrain?
    ensures Channels(Next(s, step))
  {
  }

  lemma ChannelsReader(s: State, step: Step)
    requires Conserved(s) && Channels(s) && Enabled(s, step) && (step.ReaderSend? || step.ReaderClose?)
    ensures Channels(Next(s, step))
  {
  }

  lemma ChannelsOther(s: State, step: Step)
    requires Conserved(s) && Channels(s) && Enabled(s, step) && !Leaves(step)
    requires !step.ReaderDrain? && !step.ReaderSend? && !step.ReaderClose?
    ensures Channels(Next(s, step))
  {
    if step.Register? {
      ChannelsRegister(s, step);
    } else if step.Receive? {
      ChannelsReceive(s, step);
    } else {
      hide Conserved, Channels, Respond;
      ChannelsFrame(s, Next(s, step));
    }
  }

  lemma ChannelsRegister(s: State, step: Step)
    requires Conserved(s) && Channels(s) && step.Register?
    ensures Channels(Next(s, step))
  {
  }

  lemma ChannelsReceive(s: State, step: Step)
    requires Conserved(s) && Channels(s) && Enabled(s, step) && step.Receive?
    ensures Channels(Next(s, step))
  {
  }

  predicate Busy(r: Reader) {
    r.Sending? || r.Closing?
  }

  lemma ChannelsFrame(s: State, s': State)
    requires Channels(s) && s'.chans == s.chans && s'.pending == s.pending && s'.departed == s.departed
    requires s'.reader == s.reader || (!Busy(s.reader) && !Busy(s'.reader))
    ensures Channels(s')
  {
    forall id | id in s'.chans ensures ChanFits(s', id) {
      assert ChanFits(s, id);
    }
  }

  lemma SettledStep(s: State, step: Step)
    requires Inv(s) && Enabled(s, step)
    ensures Settled(Next(s, step))
  {
    hide Faithful, Once, Respond;
    if step.ReaderNext? {
      SettledDelivery(s, step);
    } else if Leaves(step) {
      SettledLeaving(s, step);
    } else if step.Receive? || step.Write? {
      SettledCall(s, step);
    } else if step.Register? {
      SettledRegister(s, step);
    } else if step.ReaderDrain? {
      SettledDrain(s, step);
    } else {
      SettledOther(s, step);
    }
  }

  lemma SettledLeaving(s: State, step: Step)
    requires Conserved(s) && Settled(s) && Enabled(s, step) && (step.FailWrite? || step.Cancel?)
    ensures Settled(Next(s, step))
  {
  }

  lemma SettledDelivery(s: State, step: Step)
    requires Conserved(s) && Settled(s) && Enabled(s, step) && step.ReaderNext?
    ensures Settled(Next(s, step))
  {
  }

  lemma SettledCall(s: State, step: Step)
    requires Conserved(s) && Channels(s) && Settled(s) && Enabled(s, step) && (step.Receive? || step.Write?)
    ensures Settled(Next(s, step))
  {
  }

  lemma SettledRegister(s: State, step: Step)
    requires Conserved(s) && Settled(s) && step.Register?
    ensures Settled(Next(s, step))
  {
  }

  lemma SettledDrain(s: State, step: Step)
    requires Conserved(s) && Settled(s) && Enabled(s, step) && step.ReaderDrain?
    ensures Settled(Next(s, step))
  {
  }

  lemma SettledOther(s: State, step: Step)
    requires Settled(s) && Enabled(s, step) && !Leaves(step) && !step.Receive? && !step.Write?
    requires !step.Register? && !step.ReaderDrain?
    ensures Settled(Next(s, step))
  {
    hide Settled, Respond;
    SettledFrame(s, Next(s, step));
  }

  lemma SettledFrame(s: State, s': State)
    requires Settled(s) && s'.pending == s.pending && s'.calls == s.calls && s'.departed == s.departed
    requires s'.late == s.late && Ended(s') == Ended(s)
    requires s'.reader.Stopped? ==> !s'.connOpen || (s.reader.Stopped? && s'.connOpen == s.connOpen)
    ensures Settled(s')
  {
  }

  lemma OnceStep(s: State, step: Step)
    requires Inv(s) && Enabled(s, step)
    ensures Once(Next(s, step))
  {
    hide Faithful, Channels, Settled, Respond, Once, Next, Enabled, Conserved;
    match step
    case Write(_) => OnceWriting(s, step);
    case FailWrite(_, _) => OnceWriting(s, step);
    case ServerRead => OnceServerRead(s, step);
    case Handle(_, _, _, _) => OnceHandle(s, step);
    case Lose(_, _) => OnceLose(s, step);
    case _ => OnceOther(s, step);
  }

  lemma OnceWriting(s: State, step: Step)
    requires Once(s) && Enabled(s, step) && (step.Write? || step.FailWrite?)
    ensures Once(Next(s, step))
  {
    hide Once;
    if step.FailWrite? && !step.arrived {
      OnceFrame(s, Next(s, step));
    } else {
      OnceSending(s, Next(s, step), step.id);
    }
  }

  lemma OnceOther(s: State, step: Step)
    requires Conserved(s) && Once(s) && Enabled(s, step)
    requires !step.Write? && !step.FailWrite? && !step.ServerRead? && !step.Handle? && !step.Lose?
    ensures Once(Next(s, step))
  {
    hide Once;
    if step.Register? {
      OnceRegister(s, step);
    } else if step.Cancel? || step.Receive? {
      OnceReturning(s, step);
    } else {
      hide Conserved, Respond, ResultOf, SentGrows, Sent;
      OnceUntouched(s, Next(s, step));
    }
  }

  lemma OnceUntouched(s: State, s': State)
    requires Once(s) && s'.calls == s.calls && s'.requests == s.requests
    requires s'.toServer == s.toServer && s'.handling == s.handling && s'.answered == s.answered
    ensures Once(s')
  {
    hide Once;
    OnceFrame(s, s');
  }

  lemma OnceReturning(s: State, step: Step)
    requires Once(s) && Enabled(s, step) && (step.Cancel? || step.Receive?)
    ensures Once(Next(s, step))
  {
    hide Once, ResultOf;
    OnceFrame(s, Next(s, step));
  }

  lemma OnceRegister(s: State, step: Step)
    requires Conserved(s) && Once(s) && step.Register?
    ensures Once(Next(s, step))
  {
    hide Once;
    assert forall id :: Sent(s, id) ==> Issued(s, id);
    OnceFrame(s, Next(s, step));
  }

  ghost predicate SentGrows(s: State, s': State) {
    forall id :: Sent(s, id) ==> Sent(s', id) && RequestOf(s', id) == RequestOf(s, id)
  }

  lemma OnceFrame(s: State, s': State)
    requires Once(s) && SentGrows(s, s')
    requires s'.toServer == s.toServer && s'.handling == s.handling && s'.answered == s.answered
    ensures Once(s')
  {
  }

  /** A request is written at most once: a call that has written is not Registered. */
  lemma OnceSending(s: State, s': State, id: nat)
    requires Once(s) && SentGrows(s, s') && !Sent(s, id) && Sent(s', id)
    requires s'.toServer == s.toServer + [RequestEnv(id, RequestOf(s', id))]
    requires s'.handling == s.handling && s'.answered == s.answered
    ensures Once(s')
  {
  }

  lemma OnceServerRead(s: State, step: Step)
    requires Once(s) && Enabled(s, step) && step.ServerRead?
    ensures Once(Next(s, step))
  {
  }

  lemma OnceHandle(s: State, step: Step)
    requires Once(s) && Enabled(s, step) && step.Handle?
    ensures Once(Next(s, step))
  {
  }

  lemma OnceLose(s: State, step: Step)
    requires Once(s) && Enabled(s, step) && step.Lose?
    ensures Once(Next(s, step))
  {
  }

  /** Answers once given stay answers to the same request. */
  lemma AnswersStay(s: State, step: Step, id: nat, r: Response)
    requires Conserved(s) && Enabled(s, step) && Issued(s, id) && AnswerTo(s, id, r)
    ensures Issued(Next(s, step), id) && AnswerTo(Next(s, step), id, r)
  {
    var o :| (id, RequestOf(s, id), o) in s.answered && r == Respond(o);
    assert (id, RequestOf(Next(s, step), id), o) in Next(s, step).answered;
  }

  lemma FaithfulStep(s: State, step: Step)
    requires Inv(s) && Enabled(s, step)
    ensures Faithful(Next(s, step))
  {
    hide Channels, Settled, Once, Respond, AnswerTo, Carried, Result, Next, Enabled;
    var s' := Next(s, step);
    forall id, r | Carried(s', id, r) ensures Issued(s', id) && AnswerTo(s', id, r) {
      if Carried(s, id, r) {
        AnswersStay(s, step, id, r);
      } else {
        NewlyCarried(s, step, id, r);
      }
    }
    forall id, r | Result(s', id, r) ensures AnswerTo(s', id, r) {
      if !Result(s, id, r) {
        NewResult(s, step, id, r);
      } else {
        ResultIsIssued(s, id, r);
      }
      AnswersStay(s, step, id, r);
    }
  }

  /** Only a handler puts a new response under way, with the id of its request. */
  lemma NewlyCarried(s: State, step: Step, id: nat, r: Response)
    requires Conserved(s) && Once(s) && Enabled(s, step)
    requires Carried(Next(s, step), id, r) && !Carried(s, id, r)
    ensures Issued(Next(s, step), id) && AnswerTo(Next(s, step), id, r)
  {
    hide Respond;
    if step.Handle? {
      assert (step.id, step.req) in s.handling;
      assert (id, RequestOf(s, id), step.outcome) in Next(s, step).answered;
    } else {
      CarriedByOther(s, step, id, r);
    }
  }

  lemma CarriedByOther(s: State, step: Step, id: nat, r: Response)
    requires Enabled(s, step) && !step.Handle? && Carried(Next(s, step), id, r)
    ensures Carried(s, id, r)
  {
  }

  /** Only a response in its own channel becomes the result of a call. */
  lemma NewResult(s: State, step: Step, id: nat, r: Response)
    requires Conserved(s) && Faithful(s) && Enabled(s, step)
    requires Result(Next(s, step), id, r) && !Result(s, id, r)
    ensures Issued(s, id) && AnswerTo(s, id, r)
  {
    hide AnswerTo;
    assert step.Receive? && step.id == id;
    var got := s.chans[id].buf.value;
    assert Carried(s, id, got) && got == r;
  }

  lemma ResultIsIssued(s: State, id: nat, r: Response)
    requires Conserved(s) && Result(s, id, r)
    ensures Issued(s, id)
  {
  }

  lemma StepKeepsInv(s: State, step: Step)
    requires Inv(s) && Enabled(s, step)
    ensures Inv(Next(s, step))
  {
    hide Conserved, Channels, Faithful, Once, Settled, Next, Enabled;
    ConservedStep(s, step);
    ChannelsStep(s, step);
    FaithfulStep(s, step);
    OnceStep(s, step);
    SettledStep(s, step);
  }

  // ----- What every run keeps -----

  lemma {:induction false} RunKeepsInv(s: State, steps: seq<Step>)
    requires Inv(s) && Legal(s, steps)
    ensures Inv(Run(s, steps))
    decreases |steps|
  {
    hide Inv, Next, Enabled;
    if steps != [] {
      StepKeepsInv(s, steps[0]);
      RunKeepsInv(Next(s, steps[0]), steps[1..]);
    }
  }

  /** In every interleaving, what a call returns is what the handler made of that
      call's own request, and no request is answered twice. Events carry no
      response, so they never satisfy a call. */
  lemma CallReturnsItsOwnAnswer(steps: seq<Step>, id: nat, r: Response)
    requires Legal(Init, steps) && Result(Run(Init, steps), id, r)
    ensures var s := Run(Init, steps);
            id in s.requests &&
            exists o :: (id, s.requests[id], o) in s.answered && r == Respond(o)
                        && forall a :: a in s.answered && a.0 == id ==> a == (id, s.requests[id], o)
  {
    InitHolds();
    RunKeepsInv(Init, steps);
    var s := Run(Init, steps);
    ResultIsIssued(s, id, r);
    assert AnswerTo(s, id, r);
    var o :| (id, RequestOf(s, id), o) in s.answered && r == Respond(o);
    assert id in s.requests;
  }

  /** Case by case: a success is the body that the handler gave for this call's request,
      and a remote error is the handler's own error response, or stands with code 3 for
      a handler that failed or gave nothing. */
  lemma ResultsByCase(steps: seq<Step>, id: nat)
    requires Legal(Init, steps) && id in Run(Init, steps).calls && Run(Init, steps).calls[id].Returned?
    ensures var s := Run(Init, steps);
            id in s.requests &&
            match s.calls[id].result
            case Got(body) => (id, s.requests[id], Answered(body)) in s.answered
            case RemoteError(code, message) =>
              || (id, s.requests[id], Refused(code, message)) in s.answered
              || (code == 3 && (id, s.requests[id], Failed(message)) in s.answered)
              || (code == 3 && message == "internal error: nil response"
                  && (id, s.requests[id], NoResponse) in s.answered)
            case _ => true
  {
    hide Channels, Once, Settled;
    InitHolds();
    RunKeepsInv(Init, steps);
    var s := Run(Init, steps);
    assert Issued(s, id);
    match s.calls[id].result
    case Got(body) => assert Result(s, id, Reply(body));
    case RemoteError(code, message) => assert Result(s, id, ErrorReply(code, message));
    case _ =>
  }

  /** Every issued id is either pending or has departed, each channel sees at
      most one send and one close, and never a send after a close. */
  lemma IdsAreConserved(steps: seq<Step>)
    requires Legal(Init, steps)
    ensures var s := Run(Init, steps);
            && (forall id :: 1 <= id < s.nextID <==> id in s.pending + s.departed.Keys)
            && s.pending !! s.departed.Keys
            && (forall id :: id in s.chans ==> s.chans[id].sends <= 1 && s.chans[id].closes <= 1)
            && (s.reader.Sending? ==> s.reader.id in s.chans && s.chans[s.reader.id] == NewChan)
            && (s.reader.Closing? ==> s.reader.id in s.chans && s.chans[s.reader.id].closes == 0)
            && (forall id :: id in s.pending ==> id in s.chans && s.chans[id] == NewChan)
  {
    InitHolds();
    RunKeepsInv(Init, steps);
    var s := Run(Init, steps);
    assert forall id :: id in s.chans ==> ChanFits(s, id);
    assert forall id :: Issued(s, id) <==> id in s.pending + s.departed.Keys;
    assert forall id :: id in s.departed ==> Issued(s, id);
  }

  lemma DepartedStaysGone(s: State, step: Step, id: nat)
    requires Conserved(s) && Enabled(s, step) && id in s.departed
    ensures id in Next(s, step).departed && Next(s, step).departed[id] == s.departed[id]
  {
    hide Respond;
  }

  /** An id leaves the pending map once: however a run goes on, it never comes back
      and never leaves in another way, and no later call is given it. */
  lemma {:induction false} DeparturesAreFinal(s: State, steps: seq<Step>, id: nat)
    requires Inv(s) && Legal(s, steps) && id in s.departed
    ensures var s' := Run(s, steps);
            id in s'.departed && s'.departed[id] == s.departed[id] && id !in s'.pending && id < s'.nextID
    decreases |steps|
  {
    hide Channels, Faithful, Once, Settled, Next, Enabled;
    if steps == [] {
      assert Issued(s, id);
    } else {
      StepKeepsInv(s, steps[0]);
      DepartedStaysGone(s, steps[0], id);
      DeparturesAreFinal(Next(s, steps[0]), steps[1..], id);
    }
  }

  // ----- Delivery -----

  /** What the read loop has taken for a call is with the reader or in the call's
      channel until the call returns; and only the drain makes a call end for want of
      a connection. */
  ghost predicate NothingLost(s: State) {
    && (forall id :: id in s.departed && s.departed[id].Delivered? ==>
          || (s.reader.Sending? && s.reader.id == id)
          || (id in s.chans && s.chans[id].buf.Some?)
          || (id in s.calls && s.calls[id].Returned?))
    && forall id :: id in s.calls && s.calls[id] == Returned(ConnClosed) ==>
         id in s.departed && s.departed[id].DrainedOut?
  }

  lemma StepLosesNothing(s: State, step: Step)
    requires Conserved(s) && Channels(s) && Enabled(s, step) && NothingLost(s)
    ensures NothingLost(Next(s, step))
  {
    match step
    case Register(_) => CallerLosesNothing(s, step);
    case Write(_) => CallerLosesNothing(s, step);
    case FailWrite(_, _) => LeavingLosesNothing(s, step);
    case Cancel(_) => LeavingLosesNothing(s, step);
    case ReaderNext => ReaderLosesNothing(s, step);
    case ReaderSend => ReaderLosesNothing(s, step);
    case ReaderClose => ReaderLosesNothing(s, step);
    case ReaderDrain => DrainLosesNothing(s, step);
    case Receive(_) => ReceiveLosesNothing(s, step);
    case _ => QuietLosesNothing(s, step);
  }

  lemma QuietLosesNothing(s: State, step: Step)
    requires Enabled(s, step) && NothingLost(s) && !Leaves(step) && !step.Register? && !step.Write?
    requires !step.ReaderSend? && !step.ReaderClose? && !step.ReaderDrain? && !step.Receive?
    ensures NothingLost(Next(s, step))
  {
    hide NothingLost, Respond;
    UntouchedLosesNothing(s, Next(s, step));
  }

  lemma UntouchedLosesNothing(s: State, s': State)
    requires NothingLost(s) && s'.chans == s.chans && s'.calls == s.calls && s'.departed == s.departed
    requires s'.reader == s.reader || (!Busy(s.reader) && !Busy(s'.reader))
    ensures NothingLost(s')
  {
  }

  lemma CallerLosesNothing(s: State, step: Step)
    requires Conserved(s) && Enabled(s, step) && NothingLost(s) && (step.Register? || step.Write?)
    ensures NothingLost(Next(s, step))
  {
  }

  lemma LeavingLosesNothing(s: State, step: Step)
    requires Conserved(s) && Enabled(s, step) && NothingLost(s) && (step.FailWrite? || step.Cancel?)
    ensures NothingLost(Next(s, step))
  {
  }

  lemma ReaderLosesNothing(s: State, step: Step)
    requires Conserved(s) && Enabled(s, step) && NothingLost(s)
    requires step.ReaderNext? || step.ReaderSend? || step.ReaderClose?
    ensures NothingLost(Next(s, step))
  {
  }

  lemma DrainLosesNothing(s: State, step: Step)
    requires Conserved(s) && Enabled(s, step) && NothingLost(s) && step.ReaderDrain?
    ensures NothingLost(Next(s, step))
  {
  }

  lemma ReceiveLosesNothing(s: State, step: Step)
    requires Conserved(s) && Channels(s) && Enabled(s, step) && NothingLost(s) && step.Receive?
    ensures NothingLost(Next(s, step))
  {
    assert ChanFits(s, step.id);
  }

  lemma {:induction false} RunLosesNothing(s: State, steps: seq<Step>)
    requires Inv(s) && NothingLost(s) && Legal(s, steps)
    ensures NothingLost(Run(s, steps))
    decreases |steps|
  {
    hide Conserved, Channels, Faithful, Once, Settled, NothingLost, Next, Enabled;
    if steps != [] {
      StepKeepsInv(s, steps[0]);
      StepLosesNothing(s, steps[0]);
      RunLosesNothing(Next(s, steps[0]), steps[1..]);
    }
  }

  /** In every interleaving an answer taken for a call stays on its way to it until the
      call returns, and a call finds its connection closed only through the drain. */
  lemma TakenAnswersArrive(steps: seq<Step>, id: nat)
    requires Legal(Init, steps)
    ensures var s := Run(Init, steps);
            && (id in s.departed && s.departed[id].Delivered? && id in s.calls && !s.calls[id].Returned? ==>
                  exists r :: s.reader == Sending(id, r) || (id in s.chans && s.chans[id].buf == Some(r)))
            && (id in s.calls && s.calls[id] == Returned(ConnClosed) ==>
                  id in s.departed && s.departed[id].DrainedOut?)
  {
    InitHolds();
    RunLosesNothing(Init, steps);
    var s := Run(Init, steps);
    if id in s.departed && s.departed[id].Delivered? && id in s.calls && !s.calls[id].Returned? {
      if s.reader.Sending? && s.reader.id == id {
        assert s.reader == Sending(id, s.reader.resp);
      } else {
        assert s.chans[id].buf == Some(s.chans[id].buf.value);
      }
    }
  }

  lemma RunFirst(s: State, step: Step, rest: seq<Step>)
    requires Enabled(s, step) && Legal(Next(s, step), rest)
    ensures Legal(s, [step] + rest) && Run(s, [step] + rest) == Run(Next(s, step), rest)
  {
    hide Next, Enabled;
    assert ([step] + rest)[1..] == rest;
  }

  /** A response that is next in line for a pending call is taken and returned by the
      call: a body as success, an error as a remote error. */
  lemma NextAnswerIsReturned(s: State, id: nat, resp: Response)
    requires Inv(s) && s.reader.Reading? && s.toClient != [] && s.toClient[0] == ResponseEnv(id, resp)
    requires id in s.pending && id in s.calls && s.calls[id].Waiting?
    ensures var steps := [ReaderNext, ReaderSend, ReaderClose, Receive(id)];
            Legal(s, steps) &&
            var last := Run(s, steps);
            && last.reader.Reading? && last.toClient == s.toClient[1..] && id !in last.pending
            && id in last.calls
            && last.calls[id] ==
                 match resp
                 case Reply(body) => Returned(Got(body))
                 case ErrorReply(code, message) => Returned(RemoteError(code, message))
  {
    hide Next, Enabled, Faithful, Once, Settled;
    assert id in s.chans && s.chans[id] == NewChan by {
      assert Issued(s, id);
      assert ChanFits(s, id);
    }
    hide Conserved, Channels;
    DeliverySteps(s, id, resp);
    var s1 := Next(s, ReaderNext);
    var s2 := Next(s1, ReaderSend);
    var s3 := Next(s2, ReaderClose);
    RunFirst(s3, Receive(id), []);
    RunFirst(s2, ReaderClose, [Receive(id)]);
    RunFirst(s1, ReaderSend, [ReaderClose, Receive(id)]);
    RunFirst(s, ReaderNext, [ReaderSend, ReaderClose, Receive(id)]);
    assert [Receive(id)] + [] == [Receive(id)];
  }

  /** On a quiet connection a call goes through: it returns what the handler answers. */
  lemma QuietCallIsAnswered(s: State, req: string, outcome: Outcome)
    requires Inv(s) && s.reader.Reading? && s.connOpen && s.toServer == [] && s.toClient == []
    ensures var id := s.nextID;
            var ask := [Register(req), Write(id), ServerRead, Handle(id, req, outcome, true)];
            var answer := [ReaderNext, ReaderSend, ReaderClose, Receive(id)];
            && Legal(s, ask) && Legal(Run(s, ask), answer)
            && id in Run(Run(s, ask), answer).calls
            && Run(Run(s, ask), answer).calls[id] ==
                 match outcome
                 case Answered(body) => Returned(Got(body))
                 case Refused(code, message) => Returned(RemoteError(code, message))
                 case Failed(message) => Returned(RemoteError(3, message))
                 case NoResponse => Returned(RemoteError(3, "internal error: nil response"))
  {
    hide Next, Enabled, Inv;
    var id := s.nextID;
    var ask := [Register(req), Write(id), ServerRead, Handle(id, req, outcome, true)];
    AskingSteps(s, req, outcome);
    var s1 := Next(s, Register(req));
    var s2 := Next(s1, Write(id));
    var s3 := Next(s2, ServerRead);
    RunFirst(s3, Handle(id, req, outcome, true), []);
    RunFirst(s2, ServerRead, [Handle(id, req, outcome, true)]);
    RunFirst(s1, Write(id), [ServerRead, Handle(id, req, outcome, true)]);
    RunFirst(s, Register(req), [Write(id), ServerRead, Handle(id, req, outcome, true)]);
    assert [Handle(id, req, outcome, true)] + [] == [Handle(id, req, outcome, true)];
    RunKeepsInv(s, ask);
    NextAnswerIsReturned(Run(s, ask), id, Respond(outcome));
  }

  lemma AskingSteps(s: State, req: string, outcome: Outcome)
    requires s.reader.Reading? && s.connOpen && s.toServer == [] && s.toClient == []
    ensures var id := s.nextID;
            var s1 := Next(s, Register(req));
            Enabled(s1, Write(id)) &&
            var s2 := Next(s1, Write(id));
            Enabled(s2, ServerRead) &&
            var s3 := Next(s2, ServerRead);
            Enabled(s3, Handle(id, req, outcome, true)) &&
            var last := Next(s3, Handle(id, req, outcome, true));
            && last.reader.Reading? && last.toClient == [ResponseEnv(id, Respond(outcome))]
            && id in last.pending && id in last.calls && last.calls[id].Waiting?
    ensures Enabled(s, Register(req))
  {
    hide Respond;
  }

  lemma DeliverySteps(s: State, id: nat, resp: Response)
    requires s.reader.Reading? && s.toClient != [] && s.toClient[0] == ResponseEnv(id, resp)
    requires id in s.pending && id in s.calls && s.calls[id].Waiting? && id in s.chans && s.chans[id] == NewChan
    ensures Enabled(s, ReaderNext)
    ensures var s1 := Next(s, ReaderNext);
            Enabled(s1, ReaderSend) &&
            var s2 := Next(s1, ReaderSend);
            Enabled(s2, ReaderClose) &&
            var s3 := Next(s2, ReaderClose);
            Enabled(s3, Receive(id)) &&
            var last := Next(s3, Receive(id));
            && last.reader.Reading? && last.toClient == s.toClient[1..] && id !in last.pending
            && id in last.calls
            && last.calls[id] ==
                 match resp
                 case Reply(body) => Returned(Got(body))
                 case ErrorReply(code, message) => Returned(RemoteError(code, message))
  {
  }

  /** Anything else, an event or a response that no pending call waits for, is passed
      over and changes nothing else. */
  lemma OtherMessagesArePassedOver(s: State)
    requires s.reader.Reading? && s.toClient != []
    requires s.toClient[0].EventEnv? || s.toClient[0].RequestEnv? || s.toClient[0].id !in s.pending
    ensures Next(s, ReaderNext) == s.(toClient := s.toClient[1..])
  {
  }

  // ----- Calls and the end of the read loop -----

  /** The call waits on a channel that is open and empty. */
  predicate Unserved(s: State, id: nat) {
    id in s.calls && s.calls[id].Waiting? && id in s.chans && s.chans[id] == NewChan
  }

  /** After the drain, the calls left waiting are exactly those registered after it. */
  lemma DrainFreesEarlierCalls(steps: seq<Step>, id: nat)
    requires Legal(Init, steps) && Ended(Run(Init, steps))
    ensures var s := Run(Init, steps);
            Unserved(s, id) <==> id in s.calls && s.calls[id].Waiting? && id in s.late
  {
    InitHolds();
    RunKeepsInv(Init, steps);
    var s := Run(Init, steps);
    if id in s.chans { assert ChanFits(s, id); }
  }

  lemma StepLeavesUnserved(s: State, step: Step, id: nat)
    requires Conserved(s) && Channels(s) && Ended(s) && Unserved(s, id) && Enabled(s, step) && step != Cancel(id)
    ensures Ended(Next(s, step)) && Unserved(Next(s, step), id)
  {
    hide Respond, ResultOf;
    assert Issued(s, id);
    hide Conserved, Channels;
    assert id < s.nextID;
  }

  /** Those calls can only be cancelled: however long a run goes on without that,
      they are still waiting at its end. */
  lemma {:induction false} LateCallsAreStuck(s: State, steps: seq<Step>, id: nat)
    requires Inv(s) && Legal(s, steps) && Ended(s) && Unserved(s, id)
    requires Cancel(id) !in steps
    ensures Unserved(Run(s, steps), id)
    decreases |steps|
  {
    hide Conserved, Channels, Faithful, Once, Settled, Next, Enabled, Ended, Unserved;
    if steps != [] {
      StepKeepsInv(s, steps[0]);
      StepLeavesUnserved(s, steps[0], id);
      LateCallsAreStuck(Next(s, steps[0]), steps[1..], id);
    }
  }

  /** It does happen: a call may register and write between the drain and the
      closing of the connection. */
  lemma CallCanSlipPastTheDrain(req: string)
    ensures var steps := [ReaderDrain, Register(req), Write(1), ReaderStop];
            Legal(Init, steps) && Run(Init, steps).reader.Stopped? && Unserved(Run(Init, steps), 1)
  {
    var s1 := Next(Init, ReaderDrain);
    var s2 := Next(s1, Register(req));
    var s3 := Next(s2, Write(1));
    var s4 := Next(s3, ReaderStop);
    var steps := [ReaderDrain, Register(req), Write(1), ReaderStop];
    assert steps[1..] == [Register(req), Write(1), ReaderStop];
    assert steps[1..][1..] == [Write(1), ReaderStop];
    assert steps[1..][1..][1..] == [ReaderStop];
    assert steps[1..][1..][1..][1..] == [];
    assert Legal(s4, []) && Run(s4, []) == s4;
    assert Legal(s3, [ReaderStop]) && Run(s3, [ReaderStop]) == s4;
    assert Legal(s2, steps[2..]) && Run(s2, steps[2..]) == s4;
    assert Legal(s1, steps[1..]) && Run(s1, steps[1..]) == s4;
  }
}
