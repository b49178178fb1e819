/** This client and this server composed over two FIFO queues. */
module SessionPair {
  import opened Bytes
  import opened Session

  /** Control points of both sides and the messages in flight. */
  datatype System = System(client: ClientPc, server: ServerPc, c2s: seq<Msg>, s2c: seq<Msg>)

  /** What a run is about: the client's parameters and its protocol version, and the
      report that the server's data path arrives at. */
  datatype Setup = Setup(neg: Proto.Negotiate, version: u16, report: Report)

  datatype Action = ByClient(e: Event) | ByServer(e: Event)

  const INITIAL := System(SendHello, AwaitHello, [], [])

  predicate IsFault(e: Event) {
    e.ReadFailed? || e.WriteFailed? || e.DataFailed?
  }

  predicate NoFaults(actions: seq<Action>) {
    forall i :: 0 <= i < |actions| ==> !IsFault(actions[i].e)
  }

  /** The one message whose content the session does not fix is the report. */
  predicate IsItsReport(setup: Setup, m: Msg) {
    m.Result? ==> m.report == setup.report
  }

  /** One step of the composition: a side takes an event that its machine allows and
      its queues can supply. A read, a write or a data path may fail at any moment, and
      a stage of a data path may complete at any moment: neither side waits for the
      other outside its reads. */
  function Step(setup: Setup, s: System, a: Action): Option<System> {
    match a
    case ByClient(e) =>
      var next := ClientStep(setup.neg, setup.version, s.client, e);
      if next.None? then None
      else (match e
        case Got(m) =>
          if |s.s2c| > 0 && s.s2c[0] == m then Some(s.(client := next.value, s2c := s.s2c[1..])) else None
        case Wrote(m) => Some(s.(client := next.value, c2s := s.c2s + [m]))
        case _ => Some(s.(client := next.value)))
    case ByServer(e) =>
      var next := ServerStep(s.server, e);
      if next.None? then None
      else (match e
        case Got(m) =>
          if |s.c2s| > 0 && s.c2s[0] == m then Some(s.(server := next.value, c2s := s.c2s[1..])) else None
        case Wrote(m) =>
          if IsItsReport(setup, m) then Some(s.(server := next.value, s2c := s.s2c + [m])) else None
        case _ => Some(s.(server := next.value)))
  }

  /** Nothing but the queues and the report holds a side back: whatever else its machine
      allows, failures included, it can do in any state, and it alone moves. */
  lemma SidesMoveFreely(setup: Setup, s: System, e: Event)
    ensures !e.Got? ==>
      var next := ClientStep(setup.neg, setup.version, s.client, e);
      Step(setup, s, ByClient(e)) ==
        if next.None? then None
        else Some(System(next.value, s.server, if e.Wrote? then s.c2s + [e.msg] else s.c2s, s.s2c))
    ensures !e.Got? && !(e.Wrote? && e.msg.Result?) ==>
      var next := ServerStep(s.server, e);
      Step(setup, s, ByServer(e)) ==
        if next.None? then None
        else Some(System(s.client, next.value, s.c2s, if e.Wrote? then s.s2c + [e.msg] else s.s2c))
  {
  }

  /** The state after a run; None if the actions are not a run. */
  function Run(setup: Setup, actions: seq<Action>): Option<System> {
    if |actions| == 0 then Some(INITIAL)
    else
      var s := Run(setup, actions[..|actions| - 1]);
      if s.None? then None else Step(setup, s.value, actions[|actions| - 1])
  }

  /** Reached by some run, whatever failed on the way. */
  ghost predicate Reachable(setup: Setup, s: System) {
    exists actions :: Run(setup, actions) == Some(s)
  }

  /** Reached by a run in which nothing failed. */
  ghost predicate CleanlyReachable(setup: Setup, s: System) {
    exists actions :: NoFaults(actions) && Run(setup, actions) == Some(s)
  }

  // ---- Scripts --------------------------------------------------------------------

  predicate Compatible(setup: Setup) {
    setup.version == PROTOCOL_VERSION
  }

  /** Message number k of the client. */
  predicate ClientMsg(setup: Setup, k: nat, m: Msg) {
    match k
    case 0 => m == Hello(setup.version, NONCE)
    case 1 => m == Msg.Negotiate(setup.neg)
    case 2 => m == Msg.Run
    case 3 => m == Stop
    case _ => false
  }

  /** Message number k of the server, before any error. */
  predicate ServerMsg(setup: Setup, k: nat, m: Msg) {
    match k
    case 0 => m == Welcome(PROTOCOL_VERSION, NONCE, Compatible(setup))
    case 1 => if Compatible(setup) then m.Start? else m == Error(VersionMismatch)
    case 2 => Compatible(setup) && m == Result(setup.report)
    case _ => false
  }

  function ClientWrites(c: ClientPc): nat {
    match c
    case SendHello => 0
    case AwaitWelcome => 1
    case SendNegotiate => 1
    case AwaitStart => 2
    case SendRun => 2
    case Connecting => 3
    case Driving => 3
    case SendStop => 3
    case AwaitResult => 4
    case Done => 4
    case Failed => 1
  }

  function ClientReads(c: ClientPc): nat {
    match c
    case SendHello => 0
    case AwaitWelcome => 0
    case SendNegotiate => 1
    case AwaitStart => 1
    case SendRun => 2
    case Connecting => 2
    case Driving => 2
    case SendStop => 2
    case AwaitResult => 2
    case Done => 3
    case Failed => 1
  }

  function ServerWrites(s: ServerPc): nat {
    match s
    case AwaitHello => 0
    case SendWelcome(_, _) => 0
    case SendMismatch => 1
    case AwaitNegotiate => 1
    case Binding(_) => 1
    case SendStart(_, _) => 1
    case AwaitRun(_) => 2
    case Accepting(_) => 2
    case Measuring(_) => 2
    case Draining => 2
    case Sampling => 2
    case SendResult => 2
    case SendUnexpected => 0
    case Finished => 3
    case Aborted => 2
  }

  function ServerReads(s: ServerPc): nat {
    match s
    case AwaitHello => 0
    case SendWelcome(_, _) => 1
    case SendMismatch => 1
    case AwaitNegotiate => 1
    case Binding(_) => 2
    case SendStart(_, _) => 2
    case AwaitRun(_) => 2
    case Accepting(_) => 3
    case Measuring(_) => 3
    case Draining => 3
    case Sampling => 4
    case SendResult => 4
    case SendUnexpected => 0
    case Finished => 4
    case Aborted => 1
  }

  /** Which control points the two sides can be at, given whether versions agree. */
  predicate PcsFit(setup: Setup, s: System) {
    && s.server != SendUnexpected
    && (s.server.SendWelcome? ==> s.server.nonce == NONCE && s.server.accepted == Compatible(setup))
    && (s.server.Binding? || s.server.SendStart? || s.server.AwaitRun? || s.server.Accepting? || s.server.Measuring? ==>
          s.server.mode == setup.neg.mode)
    && (s.server.Accepting? || s.server.Sampling? ==> !setup.neg.mode.Udp?)
    && (s.server.Draining? ==> setup.neg.mode.File?)
    && (s.server.Sampling? ==> setup.neg.mode.Tcp?)
    && (if Compatible(setup) then s.client != Failed && s.server != Aborted && s.server != SendMismatch
        else
          && (s.client.SendHello? || s.client.AwaitWelcome? || s.client.Failed?)
          && (s.server.AwaitHello? || s.server.SendWelcome? || s.server.SendMismatch? || s.server.Aborted?))
  }

  /** While nothing fails, the queues hold exactly what was written and not yet read,
      in script order. */
  ghost predicate Inv(setup: Setup, s: System) {
    && PcsFit(setup, s)
    && |s.c2s| == ClientWrites(s.client) - ServerReads(s.server)
    && |s.s2c| == ServerWrites(s.server) - ClientReads(s.client)
    && (forall i :: 0 <= i < |s.c2s| ==> ClientMsg(setup, ServerReads(s.server) + i, s.c2s[i]))
    && (forall i :: 0 <= i < |s.s2c| ==> ServerMsg(setup, ClientReads(s.client) + i, s.s2c[i]))
  }

  lemma ClientReadKeepsInv(setup: Setup, s: System, m: Msg)
    requires Inv(setup, s) && Step(setup, s, ByClient(Got(m))).Some?
    ensures Inv(setup, Step(setup, s, ByClient(Got(m))).value)
  {
  }

  lemma ClientWriteKeepsInv(setup: Setup, s: System, m: Msg)
    requires Inv(setup, s) && Step(setup, s, ByClient(Wrote(m))).Some?
    ensures Inv(setup, Step(setup, s, ByClient(Wrote(m))).value)
  {
  }

  lemma ClientMoveKeepsInv(setup: Setup, s: System, e: Event)
    requires !e.Got? && !e.Wrote? && !IsFault(e)
    requires Inv(setup, s) && Step(setup, s, ByClient(e)).Some?
    ensures Inv(setup, Step(setup, s, ByClient(e)).value)
  {
  }

  lemma ClientStepKeepsInv(setup: Setup, s: System, e: Event)
    requires Inv(setup, s) && !IsFault(e) && Step(setup, s, ByClient(e)).Some?
    ensures Inv(setup, Step(setup, s, ByClient(e)).value)
  {
    hide Inv, Step;
    match e {
      case Got(m) => ClientReadKeepsInv(setup, s, m);
      case Wrote(m) => ClientWriteKeepsInv(setup, s, m);
      case _ => ClientMoveKeepsInv(setup, s, e);
    }
  }

  lemma ServerReadKeepsInv(setup: Setup, s: System, m: Msg)
    requires Inv(setup, s) && Step(setup, s, ByServer(Got(m))).Some?
    ensures Inv(setup, Step(setup, s, ByServer(Got(m))).value)
  {
  }

  lemma ServerWriteKeepsInv(setup: Setup, s: System, m: Msg)
    requires Inv(setup, s) && Step(setup, s, ByServer(Wrote(m))).Some?
    ensures Inv(setup, Step(setup, s, ByServer(Wrote(m))).value)
  {
  }

  lemma ServerMoveKeepsInv(setup: Setup, s: System, e: Event)
    requires !e.Got? && !e.Wrote? && !IsFault(e)
    requires Inv(setup, s) && Step(setup, s, ByServer(e)).Some?
    ensures Inv(setup, Step(setup, s, ByServer(e)).value)
  {
  }

  lemma ServerStepKeepsInv(setup: Setup, s: System, e: Event)
    requires Inv(setup, s) && !IsFault(e) && Step(setup, s, ByServer(e)).Some?
    ensures Inv(setup, Step(setup, s, ByServer(e)).value)
  {
    hide Inv, Step;
    match e {
      case Got(m) => ServerReadKeepsInv(setup, s, m);
      case Wrote(m) => ServerWriteKeepsInv(setup, s, m);
      case _ => ServerMoveKeepsInv(setup, s, e);
    }
  }

  /** The invariant holds after every run without a failure, whatever the versions. */
  lemma {:induction false} RunKeepsInv(setup: Setup, actions: seq<Action>)
    requires NoFaults(actions) && Run(setup, actions).Some?
    ensures Inv(setup, Run(setup, actions).value)
  {
    if |actions| > 0 {
      var front, a := actions[..|actions| - 1], actions[|actions| - 1];
      RunKeepsInv(setup, front);
      hide Inv;
      match a {
        case ByClient(e) => ClientStepKeepsInv(setup, Run(setup, front).value, e);
        case ByServer(e) => ServerStepKeepsInv(setup, Run(setup, front).value, e);
      }
    }
  }

  // ---- The invariant under failures -----------------------------------------------

  predicate ServerReadsNoMore(s: ServerPc) {
    s.Sampling? || s.SendResult? || s.Finished? || s.Aborted?
  }

  predicate ClientReadsNoMore(c: ClientPc) {
    c.Done? || c.Failed?
  }

  predicate PcsOrdered(setup: Setup, s: System) {
    && s.server != SendUnexpected
    && (s.server.SendWelcome? ==> s.server.nonce == NONCE && s.server.accepted == Compatible(setup))
    && (Compatible(setup) ==> s.server != SendMismatch)
    && (!Compatible(setup) ==>
          && (s.client.SendHello? || s.client.AwaitWelcome? || s.client.Failed?)
          && (s.server.AwaitHello? || s.server.SendWelcome? || s.server.SendMismatch? || s.server.Aborted?))
  }

  /** A server that still reads has the client's messages before it in script order. */
  ghost predicate InboxOrdered(setup: Setup, s: System) {
    !ServerReadsNoMore(s.server) ==>
      && (forall i :: 0 <= i < |s.c2s| ==> ClientMsg(setup, ServerReads(s.server) + i, s.c2s[i]))
      && (s.client != Failed ==> |s.c2s| == ClientWrites(s.client) - ServerReads(s.server))
  }

  /** A client that still reads has the server's messages before it in script order. */
  ghost predicate OutboxOrdered(setup: Setup, s: System) {
    !ClientReadsNoMore(s.client) ==>
      && (forall i :: 0 <= i < |s.s2c| ==> ServerMsg(setup, ClientReads(s.client) + i, s.s2c[i]))
      && (s.server != Aborted ==> |s.s2c| == ServerWrites(s.server) - ClientReads(s.client))
  }

  /** Whatever fails, both directions stay in order, and a result comes from a server
      that finished. */
  ghost predicate Ordered(setup: Setup, s: System) {
    && PcsOrdered(setup, s)
    && InboxOrdered(setup, s)
    && OutboxOrdered(setup, s)
    && (Compatible(setup) ==> forall m :: m in s.s2c ==> !m.Error?)
    && (Result(setup.report) in s.s2c || s.client.Done? ==> s.server.Finished?)
  }

  lemma ClientReadKeepsOrder(setup: Setup, s: System, m: Msg)
    requires Ordered(setup, s) && Step(setup, s, ByClient(Got(m))).Some?
    ensures Ordered(setup, Step(setup, s, ByClient(Got(m))).value)
  {
    assert s.s2c[0] in s.s2c;
  }

  lemma ClientWriteKeepsOrder(setup: Setup, s: System, m: Msg)
    requires Ordered(setup, s) && Step(setup, s, ByClient(Wrote(m))).Some?
    ensures Ordered(setup, Step(setup, s, ByClient(Wrote(m))).value)
  {
    var t := Step(setup, s, ByClient(Wrote(m))).value;
    assert OutboxOrdered(setup, t);
    hide OutboxOrdered;
  }

  lemma ClientMoveKeepsOrder(setup: Setup, s: System, e: Event)
    requires !e.Got? && !e.Wrote?
    requires Ordered(setup, s) && Step(setup, s, ByClient(e)).Some?
    ensures Ordered(setup, Step(setup, s, ByClient(e)).value)
  {
  }

  lemma ClientStepKeepsOrder(setup: Setup, s: System, e: Event)
    requires Ordered(setup, s) && Step(setup, s, ByClient(e)).Some?
    ensures Ordered(setup, Step(setup, s, ByClient(e)).value)
  {
    hide Ordered, Step;
    match e {
      case Got(m) => ClientReadKeepsOrder(setup, s, m);
      case Wrote(m) => ClientWriteKeepsOrder(setup, s, m);
      case _ => ClientMoveKeepsOrder(setup, s, e);
    }
  }

  lemma ServerReadKeepsOrder(setup: Setup, s: System, m: Msg)
    requires Ordered(setup, s) && Step(setup, s, ByServer(Got(m))).Some?
    ensures Ordered(setup, Step(setup, s, ByServer(Got(m))).value)
  {
  }

  lemma ServerWriteKeepsOrder(setup: Setup, s: System, m: Msg)
    requires Ordered(setup, s) && Step(setup, s, ByServer(Wrote(m))).Some?
    ensures Ordered(setup, Step(setup, s, ByServer(Wrote(m))).value)
  {
    var t := Step(setup, s, ByServer(Wrote(m))).value;
    assert InboxOrdered(setup, t);
    hide InboxOrdered;
  }

  lemma ServerMoveKeepsOrder(setup: Setup, s: System, e: Event)
    requires !e.Got? && !e.Wrote?
    requires Ordered(setup, s) && Step(setup, s, ByServer(e)).Some?
    ensures Ordered(setup, Step(setup, s, ByServer(e)).value)
  {
    var t := Step(setup, s, ByServer(e)).value;
    assert InboxOrdered(setup, t);
    hide InboxOrdered;
  }

  lemma ServerStepKeepsOrder(setup: Setup, s: System, e: Event)
    requires Ordered(setup, s) && Step(setup, s, ByServer(e)).Some?
    ensures Ordered(setup, Step(setup, s, ByServer(e)).value)
  {
    hide Ordered, Step;
    match e {
      case Got(m) => ServerReadKeepsOrder(setup, s, m);
      case Wrote(m) => ServerWriteKeepsOrder(setup, s, m);
      case _ => ServerMoveKeepsOrder(setup, s, e);
    }
  }

  /** The order survives every run, failures included. */
  lemma {:induction false} RunKeepsOrder(setup: Setup, actions: seq<Action>)
    requires Run(setup, actions).Some?
    ensures Ordered(setup, Run(setup, actions).value)
  {
    if |actions| > 0 {
      var front, a := actions[..|actions| - 1], actions[|actions| - 1];
      RunKeepsOrder(setup, front);
      hide Ordered;
      match a {
        case ByClient(e) => ClientStepKeepsOrder(setup, Run(setup, front).value, e);
        case ByServer(e) => ServerStepKeepsOrder(setup, Run(setup, front).value, e);
      }
    }
  }

  // ---- Safety ---------------------------------------------------------------------

  predicate ServerReading(s: ServerPc) {
    s.AwaitHello? || s.AwaitNegotiate? || s.AwaitRun? || s.Draining? || (s.Measuring? && !s.mode.File?)
  }

  predicate ClientReading(c: ClientPc) {
    c.AwaitWelcome? || c.AwaitStart? || c.AwaitResult?
  }

  /** The message at the head of a queue that a reader waits on is the one it expects. */
  predicate ServerExpects(s: ServerPc, m: Msg) {
    match s
    case AwaitHello => m.Hello?
    case AwaitNegotiate => m.Negotiate?
    case AwaitRun(_) => m.Run?
    case Measuring(_) => m.Stop?
    case Draining => m.Stop?
    case _ => false
  }

  predicate ClientExpects(c: ClientPc, m: Msg) {
    match c
    case AwaitWelcome => m.Welcome? && m.accepted && m.nonce == NONCE
    case AwaitStart => m.Start?
    case AwaitResult => m.Result?
    case _ => false
  }

  /** In every reachable state, even when reads, writes and data paths fail at will: the
      server never meets a message it does not expect, and a client has a result only
      from a server that finished. With equal versions the client, too, meets only what
      it expects, and no error is sent or in flight. */
  lemma SafetyUnderFaults(setup: Setup, s: System)
    requires Reachable(setup, s)
    ensures ServerReading(s.server) && |s.c2s| > 0 ==> ServerExpects(s.server, s.c2s[0])
    ensures s.server != SendUnexpected
    ensures s.client.Done? ==> Compatible(setup) && s.server.Finished?
    ensures Compatible(setup) ==>
      && (ClientReading(s.client) && |s.s2c| > 0 ==> ClientExpects(s.client, s.s2c[0]))
      && (forall m :: m in s.s2c ==> !m.Error?)
      && s.server != SendMismatch
  {
    var actions :| Run(setup, actions) == Some(s);
    RunKeepsOrder(setup, actions);
    assert |s.c2s| > 0 && ServerReading(s.server) ==> ClientMsg(setup, ServerReads(s.server), s.c2s[0]);
    assert |s.s2c| > 0 && ClientReading(s.client) ==> ServerMsg(setup, ClientReads(s.client), s.s2c[0]);
  }

  /** With equal versions and no failure, further: neither side gives up, and the
      server's inbox is empty when it is about to write Result. */
  lemma ComposedSafety(setup: Setup, s: System)
    requires Compatible(setup) && CleanlyReachable(setup, s)
    ensures ServerReading(s.server) && |s.c2s| > 0 ==> ServerExpects(s.server, s.c2s[0])
    ensures ClientReading(s.client) && |s.s2c| > 0 ==> ClientExpects(s.client, s.s2c[0])
    ensures forall m :: m in s.s2c ==> !m.Error?
    ensures s.client != Failed && s.server != Aborted && s.server != SendUnexpected
    ensures s.server.SendResult? || s.server.Finished? ==> s.c2s == []
    ensures |s.c2s| <= 2 && |s.s2c| <= 1
  {
    var actions :| NoFaults(actions) && Run(setup, actions) == Some(s);
    RunKeepsInv(setup, actions);
    InvMeansSafe(setup, s);
  }

  lemma InvMeansSafe(setup: Setup, s: System)
    requires Compatible(setup) && Inv(setup, s)
    ensures ServerReading(s.server) && |s.c2s| > 0 ==> ServerExpects(s.server, s.c2s[0])
    ensures ClientReading(s.client) && |s.s2c| > 0 ==> ClientExpects(s.client, s.s2c[0])
    ensures forall m :: m in s.s2c ==> !m.Error?
    ensures s.server.SendResult? || s.server.Finished? ==> s.c2s == []
    ensures |s.c2s| <= 2 && |s.s2c| <= 1
  {
    assert |s.c2s| > 0 ==> ClientMsg(setup, ServerReads(s.server), s.c2s[0]);
    assert |s.s2c| > 0 ==> ServerMsg(setup, ClientReads(s.client), s.s2c[0]);
  }

  lemma OneMoreStep(setup: Setup, s: System, a: Action)
    requires CleanlyReachable(setup, s) && !IsFault(a.e) && Step(setup, s, a).Some?
    ensures CleanlyReachable(setup, Step(setup, s, a).value)
  {
    hide Step;
    var actions :| NoFaults(actions) && Run(setup, actions) == Some(s);
    assert (actions + [a])[..|actions|] == actions;
    assert NoFaults(actions + [a]) && Run(setup, actions + [a]) == Step(setup, s, a);
  }

  lemma StartIsReachable(setup: Setup)
    ensures CleanlyReachable(setup, INITIAL)
  {
    assert NoFaults([]) && Run(setup, []) == Some(INITIAL);
  }

  lemma QueueOfOne(m: Msg)
    ensures [] + [m] == [m] && [m][1..] == []
  {
  }

  lemma GreetingDone(setup: Setup)
    requires Compatible(setup)
    ensures CleanlyReachable(setup, System(SendNegotiate, AwaitNegotiate, [], []))
  {
    hide CleanlyReachable;
    var hello, welcome := Hello(PROTOCOL_VERSION, NONCE), Welcome(PROTOCOL_VERSION, NONCE, true);
    QueueOfOne(hello);
    QueueOfOne(welcome);
    StartIsReachable(setup);
    OneMoreStep(setup, INITIAL, ByClient(Wrote(hello)));
    OneMoreStep(setup, System(AwaitWelcome, AwaitHello, [hello], []), ByServer(Got(hello)));
    OneMoreStep(setup, System(AwaitWelcome, SendWelcome(NONCE, true), [], []), ByServer(Wrote(welcome)));
    OneMoreStep(setup, System(AwaitWelcome, AwaitNegotiate, [], [welcome]), ByClient(Got(welcome)));
  }

  lemma Negotiated(setup: Setup)
    requires Compatible(setup)
    ensures CleanlyReachable(setup, System(AwaitStart, Binding(setup.neg.mode), [], []))
  {
    hide CleanlyReachable;
    var negotiate := Msg.Negotiate(setup.neg);
    QueueOfOne(negotiate);
    GreetingDone(setup);
    OneMoreStep(setup, System(SendNegotiate, AwaitNegotiate, [], []), ByClient(Wrote(negotiate)));
    OneMoreStep(setup, System(AwaitStart, AwaitNegotiate, [negotiate], []), ByServer(Got(negotiate)));
  }

  lemma StartDone(setup: Setup)
    requires Compatible(setup)
    ensures CleanlyReachable(setup, System(SendRun, AwaitRun(setup.neg.mode), [], []))
  {
    hide CleanlyReachable;
    var mode, start := setup.neg.mode, Start(0, SERVER_SEED);
    QueueOfOne(start);
    Negotiated(setup);
    OneMoreStep(setup, System(AwaitStart, Binding(mode), [], []), ByServer(Bound(0)));
    OneMoreStep(setup, System(AwaitStart, SendStart(mode, 0), [], []), ByServer(Wrote(start)));
    OneMoreStep(setup, System(AwaitStart, AwaitRun(mode), [], [start]), ByClient(Got(start)));
  }

  /** The client may run ahead: in every mode it can have finished its data path and
      queued Stop behind Run before the server has read Run. */
  lemma ClientMayRunAhead(setup: Setup)
    requires Compatible(setup)
    ensures CleanlyReachable(setup, System(AwaitResult, AwaitRun(setup.neg.mode), [Msg.Run, Stop], []))
  {
    hide CleanlyReachable;
    StartDone(setup);
    QueueOfOne(Msg.Run);
    OneMoreStep(setup, System(SendRun, AwaitRun(setup.neg.mode), [], []), ByClient(Wrote(Msg.Run)));
    OneMoreStep(setup, System(Connecting, AwaitRun(setup.neg.mode), [Msg.Run], []), ByClient(DataOk));
    OneMoreStep(setup, System(Driving, AwaitRun(setup.neg.mode), [Msg.Run], []), ByClient(DataOk));
    OneMoreStep(setup, System(SendStop, AwaitRun(setup.neg.mode), [Msg.Run], []), ByClient(Wrote(Stop)));
    assert [Msg.Run] + [Stop] == [Msg.Run, Stop];
  }

  // ---- Progress -------------------------------------------------------------------

  function ClientRank(c: ClientPc): nat {
    match c
    case SendHello => 9
    case AwaitWelcome => 8
    case SendNegotiate => 7
    case AwaitStart => 6
    case SendRun => 5
    case Connecting => 4
    case Driving => 3
    case SendStop => 2
    case AwaitResult => 1
    case Done => 0
    case Failed => 0
  }

  function ServerRank(s: ServerPc): nat {
    match s
    case AwaitHello => 10
    case SendWelcome(_, _) => 9
    case SendMismatch => 1
    case AwaitNegotiate => 8
    case Binding(_) => 7
    case SendStart(_, _) => 6
    case AwaitRun(_) => 5
    case Accepting(_) => 4
    case Measuring(_) => 3
    case Draining => 2
    case Sampling => 2
    case SendResult => 1
    case SendUnexpected => 1
    case Finished => 0
    case Aborted => 0
  }

  lemma ClientStepLowersRank(neg: Proto.Negotiate, version: u16, pc: ClientPc, e: Event)
    requires ClientStep(neg, version, pc, e).Some?
    ensures ClientRank(ClientStep(neg, version, pc, e).value) < ClientRank(pc)
  {
  }

  lemma ServerStepLowersRank(pc: ServerPc, e: Event)
    requires ServerStep(pc, e).Some?
    ensures ServerRank(ServerStep(pc, e).value) < ServerRank(pc)
  {
  }

  lemma StepLowersRank(setup: Setup, s: System, a: Action)
    requires Step(setup, s, a).Some?
    ensures
      var t := Step(setup, s, a).value;
      ClientRank(t.client) + ServerRank(t.server) < ClientRank(s.client) + ServerRank(s.server)
  {
    hide ClientRank, ServerRank, ClientStep, ServerStep;
    match a {
      case ByClient(e) => ClientStepLowersRank(setup.neg, setup.version, s.client, e);
      case ByServer(e) => ServerStepLowersRank(s.server, e);
    }
  }

  /** Every run is finite, failures included: at most nineteen steps. */
  lemma {:induction false} RunsAreBounded(setup: Setup, actions: seq<Action>)
    requires Run(setup, actions).Some?
    ensures
      var s := Run(setup, actions).value;
      |actions| + ClientRank(s.client) + ServerRank(s.server) <= 19
  {
    if |actions| > 0 {
      var front := actions[..|actions| - 1];
      RunsAreBounded(setup, front);
      hide ClientRank, ServerRank, Step;
      StepLowersRank(setup, Run(setup, front).value, actions[|actions| - 1]);
    }
  }

  predicate ClientConnected(c: ClientPc) {
    c.Driving? || c.SendStop? || c.AwaitResult? || c.Done?
  }

  predicate ClientSentAll(c: ClientPc) {
    c.SendStop? || c.AwaitResult? || c.Done?
  }

  predicate ServerTakesData(s: ServerPc) {
    s.Measuring? || s.Draining? || s.Sampling? || s.SendResult? || s.Finished?
  }

  /** When a stage of a data path is sure to complete, by how far the peer is: the
      server accepts once the client connected, the client's stream drains into a server
      that took its connection, a file is in once it was all sent. */
  predicate DataReady(setup: Setup, s: System, a: Action) {
    match a
    case ByClient(_) => s.client.Driving? && !setup.neg.mode.Udp? ==> ServerTakesData(s.server)
    case ByServer(_) =>
      && (s.server.Accepting? ==> ClientConnected(s.client))
      && (s.server.Measuring? ==> ClientSentAll(s.client))
  }

  /** A step that is sure to be possible: nothing fails, and a stage of a data path
      completes only when the peer is far enough. */
  predicate CanStep(setup: Setup, s: System, a: Action) {
    && !IsFault(a.e)
    && (a.e.DataOk? ==> DataReady(setup, s, a))
    && Step(setup, s, a).Some?
  }

  predicate Over(s: System) {
    (s.client.Done? || s.client.Failed?) && ServerDone(s.server)
  }

  /** An action that some party can take now. */
  function Enabled(setup: Setup, s: System): Action {
    match s.client
    case SendHello => ByClient(Wrote(Hello(setup.version, NONCE)))
    case SendNegotiate => ByClient(Wrote(Msg.Negotiate(setup.neg)))
    case SendRun => ByClient(Wrote(Msg.Run))
    case SendStop => ByClient(Wrote(Stop))
    case Connecting => ByClient(DataOk)
    case _ =>
      if s.client.Driving? && DataReady(setup, s, ByClient(DataOk)) then ByClient(DataOk)
      else if ClientReading(s.client) && |s.s2c| > 0 then ByClient(Got(s.s2c[0]))
      else ServerAction(setup, s)
  }

  function ServerAction(setup: Setup, s: System): Action {
    match s.server
    case SendWelcome(n, a) => ByServer(Wrote(Welcome(PROTOCOL_VERSION, n, a)))
    case SendMismatch => ByServer(Wrote(Error(VersionMismatch)))
    case Binding(_) => ByServer(Bound(0))
    case SendStart(_, port) => ByServer(Wrote(Start(port, SERVER_SEED)))
    case Accepting(_) => ByServer(DataOk)
    case Sampling => ByServer(DataOk)
    case SendResult => ByServer(Wrote(Result(setup.report)))
    case _ =>
      if |s.c2s| > 0 && ServerReading(s.server) then ByServer(Got(s.c2s[0])) else ByServer(DataOk)
  }

  lemma EnabledIsEnabled(setup: Setup, s: System)
    requires Inv(setup, s) && !Over(s)
    ensures CanStep(setup, s, Enabled(setup, s))
  {
  }

  /** No deadlock: after any run without a failure that is not over, some party can
      step, even if data paths complete only when the peer is far enough. */
  lemma NoDeadlock(setup: Setup, s: System)
    requires CleanlyReachable(setup, s) && !Over(s)
    ensures exists a :: CanStep(setup, s, a)
  {
    var actions :| NoFaults(actions) && Run(setup, actions) == Some(s);
    RunKeepsInv(setup, actions);
    EnabledIsEnabled(setup, s);
  }

  ghost predicate Stuck(setup: Setup, s: System) {
    forall a :: !CanStep(setup, s, a)
  }

  /** A run without a failure that can go no further has succeeded on both sides, with
      every message read, exactly when the versions are equal; otherwise both sides gave
      up and the server's last word is VersionMismatch. */
  lemma OutcomeByVersion(setup: Setup, s: System)
    requires CleanlyReachable(setup, s) && Stuck(setup, s)
    ensures s.client == Done && s.server == Finished <==> Compatible(setup)
    ensures Compatible(setup) ==> s.c2s == [] && s.s2c == []
    ensures !Compatible(setup) ==>
      s.client == Failed && s.server == Aborted && s.c2s == [] && s.s2c == [Error(VersionMismatch)]
  {
    var actions :| NoFaults(actions) && Run(setup, actions) == Some(s);
    RunKeepsInv(setup, actions);
    if !Over(s) {
      EnabledIsEnabled(setup, s);
    }
  }
}
