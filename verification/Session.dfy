/** The control session of src/session.rs: each side as a machine over the events it
    takes part in, and the imperative code of each side proved to follow its machine. */
module Session {
  import opened Bytes
  import Proto

  type Mode = Proto.Mode

  const PROTOCOL_VERSION := Proto.PROTOCOL_VERSION

  datatype ProtoError = VersionMismatch | InvalidParams | UnexpectedMessage | DataConnectFailed | Timeout | Internal

  /** What a data path measured: the bytes, and the series with one entry a second. */
  datatype Report = Report(bytes: nat, samples: seq<nat>)

  datatype Msg =
    | Hello(protocolVersion: u16, nonce: u64)
    | Welcome(protocolVersion: u16, nonce: u64, accepted: bool)
    | Negotiate(neg: Proto.Negotiate)
    | Start(dataPort: u16, serverSeed: u64)
    | Run
    | Stop
    | Result(report: Report)
    | Error(error: ProtoError)

  const NONCE: u64 := 0xA17D_2026
  const SERVER_SEED: u64 := 0x5EED_2026

  /** What one side sees happen. A read fails on a bad frame or a closed connection. */
  datatype Event =
    | Got(msg: Msg)
    | ReadFailed
    | Wrote(msg: Msg)
    | WriteFailed
    | Bound(port: u16)
    | DataOk
    | DataFailed

  function Outputs(events: seq<Event>): seq<Msg> {
    if |events| == 0 then []
    else
      var e := events[|events| - 1];
      Outputs(events[..|events| - 1]) + (if e.Wrote? then [e.msg] else [])
  }

  function Inputs(events: seq<Event>): seq<Msg> {
    if |events| == 0 then []
    else
      var e := events[|events| - 1];
      Inputs(events[..|events| - 1]) + (if e.Got? then [e.msg] else [])
  }

  // ---- The server's machine -------------------------------------------------------

  datatype ServerPc =
    | AwaitHello
    | SendWelcome(nonce: u64, accepted: bool)
    | SendMismatch
    | AwaitNegotiate
    | Binding(mode: Mode)
    | SendStart(mode: Mode, port: u16)
    | AwaitRun(mode: Mode)
    | Accepting(mode: Mode)      // TCP and file wait for the data connections
    | Measuring(mode: Mode)      // TCP and UDP until any control read ends; file until the bytes are in
    | Draining                   // file discards one control message
    | Sampling                   // TCP waits for its sampler
    | SendResult
    | SendUnexpected
    | Finished
    | Aborted

  function ServerStep(pc: ServerPc, e: Event): Option<ServerPc> {
    match (pc, e)
    case (AwaitHello, Got(Hello(v, n))) => Some(SendWelcome(n, v == PROTOCOL_VERSION))
    case (AwaitHello, Got(_)) => Some(SendUnexpected)
    case (AwaitHello, ReadFailed) => Some(Aborted)
    case (SendWelcome(n, a), Wrote(m)) =>
      if m == Welcome(PROTOCOL_VERSION, n, a) then Some(if a then AwaitNegotiate else SendMismatch) else None
    case (SendWelcome(_, _), WriteFailed) => Some(Aborted)
    case (SendMismatch, Wrote(m)) => if m == Error(VersionMismatch) then Some(Aborted) else None
    case (SendMismatch, WriteFailed) => Some(Aborted)
    case (AwaitNegotiate, Got(Negotiate(neg))) => Some(Binding(neg.mode))
    case (AwaitNegotiate, Got(_)) => Some(SendUnexpected)
    case (AwaitNegotiate, ReadFailed) => Some(Aborted)
    case (Binding(mode), Bound(port)) => Some(SendStart(mode, port))
    case (Binding(_), DataFailed) => Some(Aborted)
    case (SendStart(mode, port), Wrote(m)) => if m == Start(port, SERVER_SEED) then Some(AwaitRun(mode)) else None
    case (SendStart(_, _), WriteFailed) => Some(Aborted)
    case (AwaitRun(mode), Got(Run)) => Some(if mode.Udp? then Measuring(mode) else Accepting(mode))
    case (AwaitRun(_), Got(_)) => Some(SendUnexpected)
    case (AwaitRun(_), ReadFailed) => Some(Aborted)
    case (Accepting(mode), DataOk) => Some(Measuring(mode))
    case (Accepting(_), DataFailed) => Some(Aborted)
    case (Measuring(Tcp), Got(_)) => Some(Sampling)
    case (Measuring(Tcp), ReadFailed) => Some(Sampling)
    case (Measuring(Udp), Got(_)) => Some(SendResult)
    case (Measuring(Udp), ReadFailed) => Some(SendResult)
    case (Measuring(Udp), DataFailed) => Some(Aborted)
    case (Measuring(File), DataOk) => Some(Draining)
    case (Measuring(File), DataFailed) => Some(Aborted)
    case (Draining, Got(_)) => Some(SendResult)
    case (Draining, ReadFailed) => Some(SendResult)
    case (Sampling, DataOk) => Some(SendResult)
    case (SendResult, Wrote(m)) => if m.Result? then Some(Finished) else None
    case (SendResult, WriteFailed) => Some(Aborted)
    case (SendUnexpected, Wrote(m)) => if m == Error(UnexpectedMessage) then Some(Aborted) else None
    case (SendUnexpected, WriteFailed) => Some(Aborted)
    case _ => None
  }

  /** Where the server is after a history of events; None if the history is not its own. */
  function ServerAfter(events: seq<Event>): Option<ServerPc> {
    if |events| == 0 then Some(AwaitHello)
    else
      var pc := ServerAfter(events[..|events| - 1]);
      if pc.None? then None else ServerStep(pc.value, events[|events| - 1])
  }

  // ---- Server output discipline ---------------------------------------------------

  /** The message histories a server may leave, up to the arguments of Start. */
  predicate Disciplined(out: seq<Msg>) {
    || |out| == 0
    || out == [Error(UnexpectedMessage)]
    || (|out| == 1 && out[0].Welcome?)
    || (|out| == 2 && out[0].Welcome? && !out[0].accepted && out[1] == Error(VersionMismatch))
    || (|out| == 2 && out[0].Welcome? && out[0].accepted && (out[1].Start? || out[1] == Error(UnexpectedMessage)))
    || (|out| == 3 && out[0].Welcome? && out[0].accepted && out[1].Start?
        && (out[2].Result? || out[2] == Error(UnexpectedMessage)))
  }

  predicate HasResult(out: seq<Msg>) {
    exists i :: 0 <= i < |out| && out[i].Result?
  }

  /** The opening that earns a result: Hello of the right version, Negotiate, Run. */
  predicate ProperOpening(input: seq<Msg>) {
    && |input| >= 3
    && input[0].Hello? && input[0].protocolVersion == PROTOCOL_VERSION
    && input[1].Negotiate? && input[2].Run?
  }

  predicate Greeted(input: seq<Msg>, out: seq<Msg>) {
    && |input| >= 1 && input[0].Hello? && input[0].protocolVersion == PROTOCOL_VERSION
    && |out| >= 1 && out[0] == Welcome(PROTOCOL_VERSION, input[0].nonce, true)
  }

  /** The greeting echoes the nonce and accepts exactly the right version. */
  predicate WelcomeEchoes(input: seq<Msg>, out: seq<Msg>) {
    |out| > 0 && out[0].Welcome? ==>
      && |input| > 0 && input[0].Hello?
      && out[0] == Welcome(PROTOCOL_VERSION, input[0].nonce, input[0].protocolVersion == PROTOCOL_VERSION)
  }

  /** What was read last is out of place for the number of messages sent. */
  predicate OutOfPlace(input: seq<Msg>, sent: nat) {
    && |input| == sent + 1
    && match sent
       case 0 => !input[0].Hello?
       case 1 => !input[1].Negotiate?
       case 2 => input[1].Negotiate? && !input[2].Run?
       case _ => false
  }

  /** Every error answers the message that calls for it. */
  predicate ErrorsAreEarned(input: seq<Msg>, out: seq<Msg>) {
    |out| > 0 && out[|out| - 1].Error? ==>
      if out[|out| - 1].error == VersionMismatch
      then |input| == 1 && input[0].Hello? && input[0].protocolVersion != PROTOCOL_VERSION
      else OutOfPlace(input, |out| - 1)
  }

  /** What each control point says about the messages so far. */
  ghost predicate ServerInv(pc: ServerPc, input: seq<Msg>, out: seq<Msg>) {
    && WelcomeEchoes(input, out) && ErrorsAreEarned(input, out)
    && match pc
    case AwaitHello => input == [] && out == []
    case SendWelcome(n, a) =>
      out == [] && |input| == 1 && input[0].Hello? && input[0].nonce == n
      && a == (input[0].protocolVersion == PROTOCOL_VERSION)
    case SendMismatch => |input| == 1 && |out| == 1 && out[0].Welcome? && !out[0].accepted
    case AwaitNegotiate => Greeted(input, out) && |input| == 1 && |out| == 1
    case Binding(mode) =>
      Greeted(input, out) && |input| == 2 && |out| == 1 && input[1].Negotiate? && input[1].neg.mode == mode
    case SendStart(mode, _) =>
      Greeted(input, out) && |input| == 2 && |out| == 1 && input[1].Negotiate? && input[1].neg.mode == mode
    case AwaitRun(mode) =>
      && Greeted(input, out) && |input| == 2 && |out| == 2
      && input[1].Negotiate? && out[1].Start? && input[1].neg.mode == mode
    case Accepting(_) => Greeted(input, out) && ProperOpening(input) && |input| == 3 && |out| == 2 && out[1].Start?
    case Measuring(_) => Greeted(input, out) && ProperOpening(input) && |input| == 3 && |out| == 2 && out[1].Start?
    case Draining => Greeted(input, out) && ProperOpening(input) && |input| == 3 && |out| == 2 && out[1].Start?
    case Sampling => Greeted(input, out) && ProperOpening(input) && |out| == 2 && out[1].Start?
    case SendResult => Greeted(input, out) && ProperOpening(input) && |out| == 2 && out[1].Start?
    case SendUnexpected => OutOfPlace(input, |out|) && Disciplined(out + [Error(UnexpectedMessage)])
    case Finished => Greeted(input, out) && ProperOpening(input) && |out| == 3 && out[1].Start? && out[2].Result?
    case Aborted => Disciplined(out) && !HasResult(out)
  }

  lemma {:induction false} ServerKeepsInv(events: seq<Event>)
    requires ServerAfter(events).Some?
    ensures ServerInv(ServerAfter(events).value, Inputs(events), Outputs(events))
  {
    if |events| > 0 {
      var front, e := events[..|events| - 1], events[|events| - 1];
      ServerKeepsInv(front);
      hide ServerAfter, Inputs, Outputs;
      ServerStepKeepsInv(ServerAfter(front).value, e, Inputs(front), Outputs(front));
      HistorySnoc(events);
    }
  }

  lemma HistorySnoc(events: seq<Event>)
    requires |events| > 0
    ensures
      var front, e := events[..|events| - 1], events[|events| - 1];
      && Inputs(events) == Inputs(front) + (if e.Got? then [e.msg] else [])
      && Outputs(events) == Outputs(front) + (if e.Wrote? then [e.msg] else [])
      && ServerAfter(events) == (if ServerAfter(front).None? then None else ServerStep(ServerAfter(front).value, e))
  {
  }

  lemma ServerStepKeepsInv(pc: ServerPc, e: Event, input: seq<Msg>, out: seq<Msg>)
    requires ServerInv(pc, input, out) && ServerStep(pc, e).Some?
    ensures ServerInv(ServerStep(pc, e).value,
      input + (if e.Got? then [e.msg] else []), out + (if e.Wrote? then [e.msg] else []))
  {
    assert input + [] == input && out + [] == out;
  }

  /** Against any peer, over every run: the server's messages are a prefix of Welcome
      Start Result, or end in the one Error that the stage calls for. */
  lemma OutputDiscipline(events: seq<Event>)
    requires ServerAfter(events).Some?
    ensures Disciplined(Outputs(events))
    ensures WelcomeEchoes(Inputs(events), Outputs(events)) && ErrorsAreEarned(Inputs(events), Outputs(events))
    ensures HasResult(Outputs(events)) ==> ProperOpening(Inputs(events)) && ServerAfter(events) == Some(Finished)
  {
    ServerKeepsInv(events);
  }

  predicate ServerDone(pc: ServerPc) {
    pc.Finished? || pc.Aborted?
  }

  lemma {:induction false} HistoriesArePrefixClosed(events: seq<Event>, k: nat)
    requires ServerAfter(events).Some? && k <= |events|
    ensures ServerAfter(events[..k]).Some?
  {
    if k < |events| {
      var front := events[..|events| - 1];
      HistoriesArePrefixClosed(front, k);
      assert front[..k] == events[..k];
    } else {
      assert events[..k] == events;
    }
  }

  /** Once a history has reached the end of the session it is complete. */
  lemma DoneIsLast(events: seq<Event>, k: nat)
    requires ServerAfter(events).Some? && k <= |events|
    requires ServerAfter(events[..k]).Some? && ServerDone(ServerAfter(events[..k]).value)
    ensures k == |events|
  {
    assert k < |events| ==> events[..k + 1][..k] == events[..k];
    if k < |events| {
      HistoriesArePrefixClosed(events, k + 1);
    }
  }

  /** Nothing at all follows a Result or an Error in the history of a server, and a write
      or a data path that failed is the last event too: it ends the session there. */
  lemma NothingFollowsTheEnd(events: seq<Event>, k: nat)
    requires ServerAfter(events).Some? && k < |events|
    requires
      || events[k] == WriteFailed || events[k] == DataFailed
      || (events[k].Wrote? && (events[k].msg.Result? || events[k].msg.Error?))
    ensures k == |events| - 1 && ServerDone(ServerAfter(events).value)
    ensures events[k] == WriteFailed || events[k] == DataFailed ==> ServerAfter(events) == Some(Aborted)
  {
    HistoriesArePrefixClosed(events, k);
    HistoriesArePrefixClosed(events, k + 1);
    assert events[..k + 1][..k] == events[..k];
    DoneIsLast(events, k + 1);
    assert events[..k + 1] == events;
  }

  ghost predicate Faultless(events: seq<Event>) {
    WriteFailed !in events && DataFailed !in events
  }

  ghost predicate AbortedEarly(pc: ServerPc, input: seq<Msg>, events: seq<Event>) {
    pc.Aborted? || pc.SendMismatch? || pc.SendUnexpected? ==> !ProperOpening(input) || !Faultless(events)
  }

  lemma {:induction false} AbortsHaveReasons(events: seq<Event>)
    requires ServerAfter(events).Some?
    ensures AbortedEarly(ServerAfter(events).value, Inputs(events), events)
  {
    if |events| > 0 {
      var front, e := events[..|events| - 1], events[|events| - 1];
      AbortsHaveReasons(front);
      ServerKeepsInv(front);
      ServerKeepsInv(events);
      HistorySnoc(events);
      assert events == front + [e];
      hide Inputs, Outputs, ServerAfter, Disciplined;
    }
  }

  lemma FinishedIsFaultless(events: seq<Event>)
    requires ServerAfter(events) == Some(Finished)
    ensures Faultless(events)
  {
    hide ServerAfter;
    forall k | 0 <= k < |events|
      ensures events[k] != WriteFailed && events[k] != DataFailed
    {
      if events[k] == WriteFailed || events[k] == DataFailed {
        NothingFollowsTheEnd(events, k);
      }
    }
  }

  /** A session that is over sent Result exactly if it opened with Hello of the right
      version, Negotiate and Run, and no write and no data path failed; what came as Stop,
      if anything, makes no difference. */
  lemma ResultIffProperOpening(events: seq<Event>)
    requires ServerAfter(events).Some? && ServerDone(ServerAfter(events).value)
    ensures HasResult(Outputs(events)) <==> ProperOpening(Inputs(events)) && Faultless(events)
  {
    hide Inputs, Outputs, ServerAfter, Faultless, Disciplined, ErrorsAreEarned, WelcomeEchoes;
    ServerKeepsInv(events);
    AbortsHaveReasons(events);
    var out := Outputs(events);
    if ServerAfter(events) == Some(Finished) {
      assert out[2].Result?;
      FinishedIsFaultless(events);
    }
  }

  /** The message read where Stop should be is never checked: with any other message in its
      place, or a failed read, the rest of the session runs just the same. */
  lemma {:induction false} StopIsNotChecked(events: seq<Event>, e: Event, rest: seq<Event>)
    requires ServerAfter(events).Some?
    requires
      var pc := ServerAfter(events).value;
      pc.Draining? || (pc.Measuring? && !pc.mode.File?)
    requires e.Got? || e.ReadFailed?
    ensures ServerAfter(events + [e]).Some?
    ensures ServerAfter(events + [e] + rest) == ServerAfter(events + [Got(Stop)] + rest)
  {
    ServerSnoc(events, e);
    ServerSnoc(events, Got(Stop));
    if |rest| == 0 {
      assert events + [e] + rest == events + [e];
      assert events + [Got(Stop)] + rest == events + [Got(Stop)];
    } else {
      var front, last := rest[..|rest| - 1], rest[|rest| - 1];
      StopIsNotChecked(events, e, front);
      ServerSnoc(events + [e] + front, last);
      ServerSnoc(events + [Got(Stop)] + front, last);
      assert events + [e] + rest == events + [e] + front + [last];
      assert events + [Got(Stop)] + rest == events + [Got(Stop)] + front + [last];
    }
  }

  /** The session up to Run. */
  function Opening(neg: Proto.Negotiate, port: u16): seq<Event> {
    [Got(Hello(PROTOCOL_VERSION, NONCE)), Wrote(Welcome(PROTOCOL_VERSION, NONCE, true)),
     Got(Msg.Negotiate(neg)), Bound(port), Wrote(Start(port, SERVER_SEED)), Got(Run)]
  }

  /** Its messages as they stand on the wire. */
  lemma KnownOpening(neg: Proto.Negotiate, port: u16)
    ensures Opening(neg, port) ==
      [Got(Hello(1, 0xA17D_2026)), Wrote(Welcome(1, 0xA17D_2026, true)),
       Got(Msg.Negotiate(neg)), Bound(port), Wrote(Start(port, 0x5EED_2026)), Got(Run)]
  {
  }

  lemma AfterOpening(neg: Proto.Negotiate, port: u16)
    ensures ServerAfter(Opening(neg, port)) == Some(if neg.mode.Udp? then Measuring(neg.mode) else Accepting(neg.mode))
  {
    var e0 := [Got(Hello(PROTOCOL_VERSION, NONCE))];
    var e1 := e0 + [Wrote(Welcome(PROTOCOL_VERSION, NONCE, true))];
    var e2 := e1 + [Got(Msg.Negotiate(neg))];
    var e3 := e2 + [Bound(port)];
    var e4 := e3 + [Wrote(Start(port, SERVER_SEED))];
    assert e4 + [Got(Run)] == Opening(neg, port);
    assert ServerAfter([]) == Some(AwaitHello);
    hide ServerAfter;
    assert [] + [e0[0]] == e0;
    ServerSnoc([], e0[0]);
    ServerSnoc(e0, Wrote(Welcome(PROTOCOL_VERSION, NONCE, true)));
    ServerSnoc(e1, Got(Msg.Negotiate(neg)));
    ServerSnoc(e2, Bound(port));
    ServerSnoc(e3, Wrote(Start(port, SERVER_SEED)));
    ServerSnoc(e4, Got(Run));
  }

  /** In every mode any message, and a closed connection, closes the window: the session
      still ends in Result. */
  lemma AnyReadServesAsStop(neg: Proto.Negotiate, port: u16, e: Event, report: Report)
    requires e.Got? || e.ReadFailed?
    ensures
      var transfer := match neg.mode
        case Tcp => [DataOk, e, DataOk]
        case Udp => [e]
        case File => [DataOk, DataOk, e];
      ServerAfter(Opening(neg, port) + transfer + [Wrote(Result(report))]) == Some(Finished)
  {
    var o := Opening(neg, port);
    AfterOpening(neg, port);
    hide ServerAfter, Opening;
    match neg.mode {
      case Tcp =>
        ServerSnoc(o, DataOk);
        ServerSnoc(o + [DataOk], e);
        ServerSnoc(o + [DataOk] + [e], DataOk);
        ServerSnoc(o + [DataOk] + [e] + [DataOk], Wrote(Result(report)));
        assert o + [DataOk] + [e] + [DataOk] == o + [DataOk, e, DataOk];
      case Udp =>
        ServerSnoc(o, e);
        ServerSnoc(o + [e], Wrote(Result(report)));
      case File =>
        ServerSnoc(o, DataOk);
        ServerSnoc(o + [DataOk], DataOk);
        ServerSnoc(o + [DataOk] + [DataOk], e);
        ServerSnoc(o + [DataOk] + [DataOk] + [e], Wrote(Result(report)));
        assert o + [DataOk] + [DataOk] + [e] == o + [DataOk, DataOk, e];
    }
  }

  lemma ServerSnoc(events: seq<Event>, e: Event)
    ensures ServerAfter(events + [e]) ==
      if ServerAfter(events).None? then None else ServerStep(ServerAfter(events).value, e)
  {
    assert (events + [e])[..|events|] == events;
  }

  // ---- The client's machine -------------------------------------------------------

  datatype ClientPc =
    | SendHello
    | AwaitWelcome
    | SendNegotiate
    | AwaitStart
    | SendRun
    | Connecting      // opens its data connections or socket
    | Driving         // runs the data path
    | SendStop
    | AwaitResult
    | Done
    | Failed

  function ClientStep(neg: Proto.Negotiate, version: u16, pc: ClientPc, e: Event): Option<ClientPc> {
    match (pc, e)
    case (SendHello, Wrote(m)) => if m == Hello(version, NONCE) then Some(AwaitWelcome) else None
    case (AwaitWelcome, Got(m)) =>
      Some(if m.Welcome? && m.accepted && m.nonce == NONCE then SendNegotiate else Failed)
    case (SendNegotiate, Wrote(m)) => if m == Msg.Negotiate(neg) then Some(AwaitStart) else None
    case (AwaitStart, Got(m)) => Some(if m.Start? then SendRun else Failed)
    case (SendRun, Wrote(m)) => if m == Run then Some(Connecting) else None
    case (Connecting, DataOk) => Some(Driving)
    case (Driving, DataOk) => Some(SendStop)
    case (SendStop, Wrote(m)) => if m == Stop then Some(AwaitResult) else None
    case (AwaitResult, Got(m)) => Some(if m.Result? then Done else Failed)
    case (_, ReadFailed) => if pc.AwaitWelcome? || pc.AwaitStart? || pc.AwaitResult? then Some(Failed) else None
    case (_, WriteFailed) =>
      if pc.SendHello? || pc.SendNegotiate? || pc.SendRun? || pc.SendStop? then Some(Failed) else None
    case (_, DataFailed) => if pc.Connecting? || pc.Driving? then Some(Failed) else None
    case _ => None
  }

  function ClientAfter(neg: Proto.Negotiate, version: u16, events: seq<Event>): Option<ClientPc> {
    if |events| == 0 then Some(SendHello)
    else
      var pc := ClientAfter(neg, version, events[..|events| - 1]);
      if pc.None? then None else ClientStep(neg, version, pc.value, events[|events| - 1])
  }

  // ---- What the client's answer means ---------------------------------------------

  /** The whole conversation of a client that has its result: greeting accepted with its
      own nonce, Start, and Result in answer to Stop. */
  predicate Conversation(neg: Proto.Negotiate, version: u16, input: seq<Msg>, out: seq<Msg>) {
    && |input| == 3
    && input[0].Welcome? && input[0].accepted && input[0].nonce == NONCE
    && input[1].Start? && input[2].Result?
    && out == [Hello(version, NONCE), Msg.Negotiate(neg), Run, Stop]
  }

  ghost predicate NothingFailed(events: seq<Event>) {
    ReadFailed !in events && WriteFailed !in events && DataFailed !in events
  }

  predicate Welcomed(input: seq<Msg>) {
    |input| >= 1 && input[0].Welcome? && input[0].accepted && input[0].nonce == NONCE
  }

  /** What each control point of the client says about the messages so far. */
  ghost predicate ClientInv(neg: Proto.Negotiate, version: u16, pc: ClientPc, input: seq<Msg>, out: seq<Msg>) {
    var hello, negotiate := Hello(version, NONCE), Msg.Negotiate(neg);
    match pc
    case SendHello => input == [] && out == []
    case AwaitWelcome => input == [] && out == [hello]
    case SendNegotiate => |input| == 1 && Welcomed(input) && out == [hello]
    case AwaitStart => |input| == 1 && Welcomed(input) && out == [hello, negotiate]
    case SendRun => |input| == 2 && Welcomed(input) && input[1].Start? && out == [hello, negotiate]
    case AwaitResult => |input| == 2 && Welcomed(input) && input[1].Start? && out == [hello, negotiate, Run, Stop]
    case Done => Conversation(neg, version, input, out)
    case Failed => !Conversation(neg, version, input, out)
    case _ => |input| == 2 && Welcomed(input) && input[1].Start? && out == [hello, negotiate, Run]
  }

  lemma ClientStepKeepsInv(
    neg: Proto.Negotiate, version: u16, pc: ClientPc, e: Event, input: seq<Msg>, out: seq<Msg>)
    requires ClientInv(neg, version, pc, input, out) && ClientStep(neg, version, pc, e).Some?
    ensures ClientInv(neg, version, ClientStep(neg, version, pc, e).value,
      input + (if e.Got? then [e.msg] else []), out + (if e.Wrote? then [e.msg] else []))
    ensures e.ReadFailed? || e.WriteFailed? || e.DataFailed? ==> ClientStep(neg, version, pc, e) == Some(Failed)
    ensures pc != Failed
  {
    assert input + [] == input && out + [] == out;
  }

  lemma ClientHistory(neg: Proto.Negotiate, version: u16, events: seq<Event>)
    requires |events| > 0
    ensures
      var front, e := events[..|events| - 1], events[|events| - 1];
      && Inputs(events) == Inputs(front) + (if e.Got? then [e.msg] else [])
      && Outputs(events) == Outputs(front) + (if e.Wrote? then [e.msg] else [])
      && ClientAfter(neg, version, events) ==
        (if ClientAfter(neg, version, front).None? then None
         else ClientStep(neg, version, ClientAfter(neg, version, front).value, e))
  {
  }

  lemma {:induction false} ClientKeepsInv(neg: Proto.Negotiate, version: u16, events: seq<Event>)
    requires ClientAfter(neg, version, events).Some?
    ensures ClientInv(neg, version, ClientAfter(neg, version, events).value, Inputs(events), Outputs(events))
    ensures ClientAfter(neg, version, events) != Some(Failed) ==> NothingFailed(events)
  {
    if |events| > 0 {
      var front, e := events[..|events| - 1], events[|events| - 1];
      ClientKeepsInv(neg, version, front);
      hide ClientAfter, Inputs, Outputs, ClientInv, ClientStep;
      ClientHistory(neg, version, events);
      ClientStepKeepsInv(neg, version, ClientAfter(neg, version, front).value, e, Inputs(front), Outputs(front));
      assert events == front + [e];
    }
  }

  /** Against any server: a client that is over has its result exactly if the server
      answered the whole conversation as it should and nothing failed. */
  lemma DoneIffConversation(neg: Proto.Negotiate, version: u16, events: seq<Event>)
    requires ClientAfter(neg, version, events) == Some(Done) || ClientAfter(neg, version, events) == Some(Failed)
    ensures ClientAfter(neg, version, events) == Some(Done) <==>
      Conversation(neg, version, Inputs(events), Outputs(events)) && NothingFailed(events)
  {
    hide ClientAfter, Inputs, Outputs;
    ClientKeepsInv(neg, version, events);
  }

  lemma ClientSnoc(neg: Proto.Negotiate, version: u16, events: seq<Event>, e: Event)
    ensures ClientAfter(neg, version, events + [e]) ==
      var pc := ClientAfter(neg, version, events);
      if pc.None? then None else ClientStep(neg, version, pc.value, e)
  {
    assert (events + [e])[..|events|] == events;
  }

  // ---- The code of each side ------------------------------------------------------

  /** How many reads a history holds, failed ones included. */
  function ReadCount(events: seq<Event>): nat {
    if |events| == 0 then 0
    else
      var e := events[|events| - 1];
      ReadCount(events[..|events| - 1]) + (if e.Got? || e.ReadFailed? then 1 else 0)
  }

  /** The frames that decode, in order. */
  function Decoded(frames: seq<Option<Msg>>): seq<Msg> {
    if |frames| == 0 then []
    else
      var f := frames[|frames| - 1];
      Decoded(frames[..|frames| - 1]) + (if f.Some? then [f.value] else [])
  }

  lemma EventsSnoc(events: seq<Event>, e: Event)
    ensures Outputs(events + [e]) == Outputs(events) + (if e.Wrote? then [e.msg] else [])
    ensures Inputs(events + [e]) == Inputs(events) + (if e.Got? then [e.msg] else [])
    ensures ReadCount(events + [e]) == ReadCount(events) + (if e.Got? || e.ReadFailed? then 1 else 0)
  {
    assert (events + [e])[..|events|] == events;
  }

  lemma DecodedSnoc(frames: seq<Option<Msg>>, f: Option<Msg>)
    ensures Decoded(frames + [f]) == Decoded(frames) + (if f.Some? then [f.value] else [])
  {
    assert (frames + [f])[..|frames|] == frames;
  }

  /** One end of a control connection. What arrives is arbitrary: messages, and
      frames that do not decode; beyond them the connection is closed. */
  class Control {
    /** All the frames that will ever arrive; None is a frame that does not decode. */
    const arrived: seq<Option<Msg>>
    var unread: seq<Option<Msg>>
    var outbox: seq<Msg>
    /** What this side has seen happen. */
    ghost var events: seq<Event>

    ghost predicate Valid()
      reads this
    {
      var n := Proto.Min(ReadCount(events), |arrived|);
      && outbox == Outputs(events)
      && unread == arrived[n..]
      && Inputs(events) == Decoded(arrived[..n])
    }

    constructor (arrived: seq<Option<Msg>>)
      ensures Valid() && events == [] && this.arrived == arrived
    {
      this.arrived, unread, outbox, events := arrived, arrived, [], [];
    }

    method ReadMsg() returns (m: Option<Msg>)
      requires Valid()
      modifies this
      ensures Valid()
      ensures m == if old(unread) == [] then None else old(unread)[0]
      ensures events == old(events) + [if m.Some? then Got(m.value) else ReadFailed]
    {
      m := None;
      ghost var n := Proto.Min(ReadCount(events), |arrived|);
      if |unread| > 0 {
        m, unread := unread[0], unread[1..];
        assert arrived[..n + 1] == arrived[..n] + [m];
        DecodedSnoc(arrived[..n], m);
      }
      ghost var e := if m.Some? then Got(m.value) else ReadFailed;
      EventsSnoc(events, e);
      events := events + [e];
    }

    /** A write may fail: the connection breaks, or the message is refused for its size. */
    method WriteMsg(m: Msg) returns (ok: bool)
      requires Valid()
      modifies this
      ensures Valid()
      ensures events == old(events) + [if ok then Wrote(m) else WriteFailed]
      ensures outbox == old(outbox) + (if ok then [m] else [])
    {
      ok := *;
      if ok {
        outbox := outbox + [m];
      }
      EventsSnoc(events, if ok then Wrote(m) else WriteFailed);
      events := events + [if ok then Wrote(m) else WriteFailed];
    }

    /** One stage of a data path, which may fail. */
    method DataPath() returns (ok: bool)
      requires Valid()
      modifies this
      ensures Valid()
      ensures events == old(events) + [if ok then DataOk else DataFailed]
    {
      ok := *;
      EventsSnoc(events, if ok then DataOk else DataFailed);
      events := events + [if ok then DataOk else DataFailed];
    }

    /** A data path that ends in an error. */
    method FailDataPath() returns (ok: bool)
      requires Valid()
      modifies this
      ensures Valid() && !ok
      ensures events == old(events) + [DataFailed]
    {
      EventsSnoc(events, DataFailed);
      events := events + [DataFailed];
      ok := false;
    }

    /** Binds the data listener or socket to a port the system picks. */
    method Bind() returns (port: Option<u16>)
      requires Valid()
      modifies this
      ensures Valid()
      ensures events == old(events) + [if port.Some? then Bound(port.value) else DataFailed]
    {
      var ok: bool := *;
      var p: u16 := *;
      port := if ok then Some(p) else None;
      EventsSnoc(events, if ok then Bound(p) else DataFailed);
      events := events + [if ok then Bound(p) else DataFailed];
    }

    /** The sampler task delivers its samples or, if it died, none. */
    method AwaitSampler()
      requires Valid()
      modifies this
      ensures Valid()
      ensures events == old(events) + [DataOk]
    {
      EventsSnoc(events, DataOk);
      events := events + [DataOk];
    }
  }

  ghost predicate ServerAt(ctrl: Control, pc: ServerPc)
    reads ctrl
  {
    ctrl.Valid() && ServerAfter(ctrl.events) == Some(pc)
  }

  lemma ServerMoved(h: seq<Event>, pc: ServerPc, e: Event)
    requires ServerAfter(h) == Some(pc) && ServerStep(pc, e).Some?
    ensures ServerAfter(h + [e]) == ServerStep(pc, e)
  {
    ServerSnoc(h, e);
  }

  /** Sends the terminal error of a rejected session. */
  method Reject(ctrl: Control, err: ProtoError)
    requires err == UnexpectedMessage || err == VersionMismatch
    requires ServerAt(ctrl, if err == VersionMismatch then SendMismatch else SendUnexpected)
    modifies ctrl
    ensures ServerAt(ctrl, Aborted)
  {
    ghost var h := ctrl.events;
    var ok := ctrl.WriteMsg(Error(err));
    ServerMoved(h, if err == VersionMismatch then SendMismatch else SendUnexpected,
      if ok then Wrote(Error(err)) else WriteFailed);
  }

  /** Greeting: Hello in, Welcome out. */
  method Greet(ctrl: Control) returns (ok: bool)
    requires ServerAt(ctrl, AwaitHello)
    modifies ctrl
    ensures ServerAt(ctrl, if ok then AwaitNegotiate else Aborted)
  {
    hide Control.Valid, ServerAfter;
    ghost var h := ctrl.events;
    var m := ctrl.ReadMsg();
    ServerMoved(h, AwaitHello, if m.Some? then Got(m.value) else ReadFailed);
    if m.None? {
      return false;
    }
    if !m.value.Hello? {
      Reject(ctrl, UnexpectedMessage);
      return false;
    }
    var hello := m.value;
    var accepted := hello.protocolVersion == PROTOCOL_VERSION;
    h := ctrl.events;
    ok := ctrl.WriteMsg(Welcome(PROTOCOL_VERSION, hello.nonce, accepted));
    ServerMoved(h, SendWelcome(hello.nonce, accepted),
      if ok then Wrote(Welcome(PROTOCOL_VERSION, hello.nonce, accepted)) else WriteFailed);
    if !ok {
      return;
    }
    if !accepted {
      Reject(ctrl, VersionMismatch);
      return false;
    }
  }

  /** Negotiation up to Run; returns the mode, or None if the session ended. */
  method Prepare(ctrl: Control) returns (mode: Option<Mode>)
    requires ServerAt(ctrl, AwaitNegotiate)
    modifies ctrl
    ensures ServerAt(ctrl,
      if mode.None? then Aborted else if mode.value.Udp? then Measuring(mode.value) else Accepting(mode.value))
  {
    hide Control.Valid, ServerAfter;
    ghost var h := ctrl.events;
    var m := ctrl.ReadMsg();
    ServerMoved(h, AwaitNegotiate, if m.Some? then Got(m.value) else ReadFailed);
    if m.None? {
      return None;
    }
    if !m.value.Negotiate? {
      Reject(ctrl, UnexpectedMessage);
      return None;
    }
    var md := m.value.neg.mode;
    h := ctrl.events;
    var port := ctrl.Bind();
    ServerMoved(h, Binding(md), if port.Some? then Bound(port.value) else DataFailed);
    if port.None? {
      return None;
    }
    h := ctrl.events;
    var ok := ctrl.WriteMsg(Start(port.value, SERVER_SEED));
    ServerMoved(h, SendStart(md, port.value),
      if ok then Wrote(Start(port.value, SERVER_SEED)) else WriteFailed);
    if !ok {
      return None;
    }
    h := ctrl.events;
    m := ctrl.ReadMsg();
    ServerMoved(h, AwaitRun(md), if m.Some? then Got(m.value) else ReadFailed);
    if m.None? {
      return None;
    }
    if !m.value.Run? {
      Reject(ctrl, UnexpectedMessage);
      return None;
    }
    mode := Some(md);
  }

  /** TCP: accepts the data connections, measures until the control read ends, then
      waits for its sampler. */
  method MeasureTcp(ctrl: Control) returns (ok: bool)
    requires ServerAt(ctrl, Accepting(Proto.Tcp))
    modifies ctrl
    ensures ServerAt(ctrl, if ok then SendResult else Aborted)
  {
    hide Control.Valid, ServerAfter;
    ghost var h := ctrl.events;
    ok := ctrl.DataPath();
    ServerMoved(h, Accepting(Proto.Tcp), if ok then DataOk else DataFailed);
    if !ok {
      return;
    }
    h := ctrl.events;
    var m := ctrl.ReadMsg();
    ServerMoved(h, Measuring(Proto.Tcp), if m.Some? then Got(m.value) else ReadFailed);
    h := ctrl.events;
    ctrl.AwaitSampler();
    ServerMoved(h, Sampling, DataOk);
  }

  /** UDP: measures until the control read ends, or its socket fails. */
  method MeasureUdp(ctrl: Control) returns (ok: bool)
    requires ServerAt(ctrl, Measuring(Proto.Udp))
    modifies ctrl
    ensures ServerAt(ctrl, if ok then SendResult else Aborted)
  {
    hide Control.Valid, ServerAfter;
    ghost var h := ctrl.events;
    var socketFailed: bool := *;
    if socketFailed {
      ok := ctrl.FailDataPath();
      ServerMoved(h, Measuring(Proto.Udp), DataFailed);
      return;
    }
    var m := ctrl.ReadMsg();
    ServerMoved(h, Measuring(Proto.Udp), if m.Some? then Got(m.value) else ReadFailed);
    ok := true;
  }

  /** File: accepts, receives, then drains one control message. */
  method MeasureFile(ctrl: Control) returns (ok: bool)
    requires ServerAt(ctrl, Accepting(Proto.File))
    modifies ctrl
    ensures ServerAt(ctrl, if ok then SendResult else Aborted)
  {
    hide Control.Valid, ServerAfter;
    ghost var h := ctrl.events;
    ok := ctrl.DataPath();
    ServerMoved(h, Accepting(Proto.File), if ok then DataOk else DataFailed);
    if !ok {
      return;
    }
    h := ctrl.events;
    ok := ctrl.DataPath();
    ServerMoved(h, Measuring(Proto.File), if ok then DataOk else DataFailed);
    if !ok {
      return;
    }
    h := ctrl.events;
    var m := ctrl.ReadMsg();
    ServerMoved(h, Draining, if m.Some? then Got(m.value) else ReadFailed);
  }

  /** The data path of the mode, until the window closes. */
  method Measure(ctrl: Control, mode: Mode) returns (ok: bool)
    requires ServerAt(ctrl, if mode.Udp? then Measuring(mode) else Accepting(mode))
    modifies ctrl
    ensures ServerAt(ctrl, if ok then SendResult else Aborted)
  {
    hide Control.Valid, ServerAfter;
    match mode {
      case Tcp => ok := MeasureTcp(ctrl);
      case Udp => ok := MeasureUdp(ctrl);
      case File => ok := MeasureFile(ctrl);
    }
  }

  /** The server's side of a session with an arbitrary peer: it follows its machine,
      so its messages are disciplined, and a result answers a proper opening only. */
  method ServeSession(ctrl: Control, report: Report) returns (ok: bool)
    requires ctrl.Valid() && ctrl.events == []
    modifies ctrl
    ensures ServerAt(ctrl, if ok then Finished else Aborted)
    ensures Disciplined(ctrl.outbox) && ErrorsAreEarned(Inputs(ctrl.events), ctrl.outbox)
    ensures ok <==> HasResult(ctrl.outbox)
    ensures ok ==> |ctrl.outbox| == 3 && ctrl.outbox[2] == Result(report)
    ensures ok <==> ProperOpening(Inputs(ctrl.events)) && Faultless(ctrl.events)
  {
    hide Disciplined, ProperOpening, Inputs, Outputs, Faultless, ErrorsAreEarned;
    assert ServerAt(ctrl, AwaitHello);
    ok := RunServer(ctrl, report);
    FinishedSentResult(ctrl.events);
    OutputDiscipline(ctrl.events);
    ResultIffProperOpening(ctrl.events);
  }

  method RunServer(ctrl: Control, report: Report) returns (ok: bool)
    requires ServerAt(ctrl, AwaitHello)
    modifies ctrl
    ensures ServerAt(ctrl, if ok then Finished else Aborted)
    ensures ok ==> |ctrl.outbox| > 0 && ctrl.outbox[|ctrl.outbox| - 1] == Result(report)
  {
    hide Control.Valid, ServerAfter;
    ghost var h := ctrl.events;
    ok := Greet(ctrl);
    if !ok {
      return;
    }
    var mode := Prepare(ctrl);
    if mode.None? {
      return false;
    }
    ok := Measure(ctrl, mode.value);
    if !ok {
      return;
    }
    h := ctrl.events;
    ok := ctrl.WriteMsg(Result(report));
    ServerMoved(h, SendResult, if ok then Wrote(Result(report)) else WriteFailed);
  }

  lemma FinishedSentResult(events: seq<Event>)
    requires ServerAfter(events).Some? && ServerDone(ServerAfter(events).value)
    ensures HasResult(Outputs(events)) <==> ServerAfter(events) == Some(Finished)
    ensures ServerAfter(events) == Some(Finished) ==> ProperOpening(Inputs(events)) && |Outputs(events)| == 3
  {
    ServerKeepsInv(events);
    if ServerAfter(events) == Some(Finished) {
      assert Outputs(events)[2].Result?;
    }
  }

  ghost predicate ClientAt(ctrl: Control, neg: Proto.Negotiate, pc: ClientPc)
    reads ctrl
  {
    ctrl.Valid() && ClientAfter(neg, PROTOCOL_VERSION, ctrl.events) == Some(pc)
  }

  lemma ClientMoved(h: seq<Event>, neg: Proto.Negotiate, pc: ClientPc, e: Event)
    requires ClientAfter(neg, PROTOCOL_VERSION, h) == Some(pc)
    requires ClientStep(neg, PROTOCOL_VERSION, pc, e).Some?
    ensures ClientAfter(neg, PROTOCOL_VERSION, h + [e]) == ClientStep(neg, PROTOCOL_VERSION, pc, e)
  {
    ClientSnoc(neg, PROTOCOL_VERSION, h, e);
  }

  /** The client's handshake: greeting, negotiation, Run. */
  method Handshake(ctrl: Control, neg: Proto.Negotiate) returns (ok: bool)
    requires ClientAt(ctrl, neg, SendHello)
    modifies ctrl
    ensures ClientAt(ctrl, neg, if ok then Connecting else Failed)
  {
    hide Control.Valid, ClientAfter;
    ghost var h := ctrl.events;
    ok := ctrl.WriteMsg(Hello(PROTOCOL_VERSION, NONCE));
    ClientMoved(h, neg, SendHello, if ok then Wrote(Hello(PROTOCOL_VERSION, NONCE)) else WriteFailed);
    if !ok {
      return;
    }
    h := ctrl.events;
    var m := ctrl.ReadMsg();
    ClientMoved(h, neg, AwaitWelcome, if m.Some? then Got(m.value) else ReadFailed);
    if m.None? || !m.value.Welcome? || !m.value.accepted || m.value.nonce != NONCE {
      return false;
    }
    h := ctrl.events;
    ok := ctrl.WriteMsg(Msg.Negotiate(neg));
    ClientMoved(h, neg, SendNegotiate, if ok then Wrote(Msg.Negotiate(neg)) else WriteFailed);
    if !ok {
      return;
    }
    h := ctrl.events;
    m := ctrl.ReadMsg();
    ClientMoved(h, neg, AwaitStart, if m.Some? then Got(m.value) else ReadFailed);
    if m.None? || !m.value.Start? {
      return false;
    }
    h := ctrl.events;
    ok := ctrl.WriteMsg(Run);
    ClientMoved(h, neg, SendRun, if ok then Wrote(Run) else WriteFailed);
  }

  /** The client's data path and the exchange of Stop for Result. */
  method TransferAndReport(ctrl: Control, neg: Proto.Negotiate) returns (ok: bool)
    requires ClientAt(ctrl, neg, Connecting)
    modifies ctrl
    ensures ClientAt(ctrl, neg, if ok then Done else Failed)
  {
    hide Control.Valid, ClientAfter;
    ghost var h := ctrl.events;
    ok := ctrl.DataPath();
    ClientMoved(h, neg, Connecting, if ok then DataOk else DataFailed);
    if !ok {
      return;
    }
    h := ctrl.events;
    ok := ctrl.DataPath();
    ClientMoved(h, neg, Driving, if ok then DataOk else DataFailed);
    if !ok {
      return;
    }
    h := ctrl.events;
    ok := ctrl.WriteMsg(Stop);
    ClientMoved(h, neg, SendStop, if ok then Wrote(Stop) else WriteFailed);
    if !ok {
      return;
    }
    h := ctrl.events;
    var m := ctrl.ReadMsg();
    ClientMoved(h, neg, AwaitResult, if m.Some? then Got(m.value) else ReadFailed);
    ok := m.Some? && m.value.Result?;
  }

  /** The client's side of a session with an arbitrary server follows its machine, and
      succeeds exactly if the conversation was the right one and nothing failed. */
  method Connect(ctrl: Control, neg: Proto.Negotiate) returns (ok: bool)
    requires ctrl.Valid() && ctrl.events == []
    modifies ctrl
    ensures ClientAt(ctrl, neg, if ok then Done else Failed)
    ensures ok <==>
      Conversation(neg, PROTOCOL_VERSION, Inputs(ctrl.events), ctrl.outbox) && NothingFailed(ctrl.events)
  {
    hide ClientStep, Conversation, NothingFailed;
    assert ClientAt(ctrl, neg, SendHello);
    ok := Handshake(ctrl, neg);
    if ok {
      ok := TransferAndReport(ctrl, neg);
    }
    DoneIffConversation(neg, PROTOCOL_VERSION, ctrl.events);
  }
}
