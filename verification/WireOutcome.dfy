/** How the session over bytes ends when nothing fails: with a report exactly when the
    versions agree and the report fits a frame. */
module WireOutcome {
  import opened Framing
  import Meter
  import opened Session
  import opened SessionPair
  import opened SessionWire

  predicate ReportFits(codec: Codec, setup: Setup) {
    |codec.encode(Result(setup.report))| <= 65536
  }

  /** Every message of the session but the report fits a frame. */
  ghost predicate ScriptFits(codec: Codec, setup: Setup) {
    forall m :: Scripted(setup, m) && !m.Result? ==> Fits(codec, m)
  }

  /** Nothing fails on its own; refusing a message for its size, and finding that the
      peer is gone, are not failures of this kind. */
  predicate NoWireFaults(actions: seq<WireAction>) {
    forall i :: 0 <= i < |actions| && actions[i].Do? ==> !IsFault(actions[i].e)
  }

  // ---- A report over the cap is never delivered ------------------------------------

  /** Whatever else happens: with a report over the cap the server never finishes and no
      client ever has a result. */
  lemma OversizedReportIsLost(codec: Codec, setup: Setup, actions: seq<WireAction>)
    requires Faithful(codec, setup) && WireRun(codec, setup, actions).Some?
    requires !ReportFits(codec, setup)
    ensures
      var w := WireRun(codec, setup, actions).value;
      !w.server.Finished? && !w.client.Done?
  {
    RunOverWire(codec, setup, actions);
    hide LaneHolds, WireRun, ShownRun, Ordered;
    var s := SessionPair.Run(setup, ShownRun(codec, setup, actions)).value;
    assert Reachable(setup, s);
    SafetyUnderFaults(setup, s);
  }

  /** Every entry of a report's series takes at least c bytes. */
  ghost predicate EntriesTake(codec: Codec, c: nat) {
    forall r: Report :: |codec.encode(Result(r))| >= c * |r.samples|
  }

  /** The series has one entry for each second, and nothing bounds the seconds: beyond
      65536 / c of them no run ever reports. */
  lemma LongRunsNeverReport(codec: Codec, setup: Setup, actions: seq<WireAction>, c: nat)
    requires Faithful(codec, setup) && WireRun(codec, setup, actions).Some?
    requires EntriesTake(codec, c) && c * |setup.report.samples| > MAX_FRAME_BYTES
    ensures
      var w := WireRun(codec, setup, actions).value;
      !w.server.Finished? && !w.client.Done?
  {
    hide WireRun;
    OversizedReportIsLost(codec, setup, actions);
  }

  /** A sampler that ticks once a second through a window of more than 65536 / c seconds
      makes a report that is never delivered. */
  lemma LongWindowsNeverReport(
    codec: Codec, setup: Setup, actions: seq<WireAction>, c: nat, clock: seq<nat>, seconds: nat)
    requires Faithful(codec, setup) && WireRun(codec, setup, actions).Some? && EntriesTake(codec, c)
    requires 0 < seconds <= |clock| && forall i :: 0 <= i < |clock| ==> clock[i] == (i + 1) * 1000000000
    requires |setup.report.samples| == Meter.TicksTaken(clock, seconds * 1000000000)
    requires c * seconds > MAX_FRAME_BYTES
    ensures
      var w := WireRun(codec, setup, actions).value;
      !w.server.Finished? && !w.client.Done?
  {
    hide WireRun, EntriesTake;
    Meter.OneSampleASecond(clock, seconds);
    LongRunsNeverReport(codec, setup, actions, c);
  }

  // ---- Runs in which nothing fails ------------------------------------------------

  /** The server gave up over its report; the client still waits for it, or gave up. */
  predicate Overflowed(codec: Codec, setup: Setup, s: System) {
    && Compatible(setup) && !ReportFits(codec, setup)
    && s.server.Aborted? && s.c2s == [] && s.s2c == []
    && (s.client.AwaitResult? || s.client.Failed?)
  }

  ghost predicate Sound(codec: Codec, setup: Setup, s: System, w: Wire) {
    && (Inv(setup, s) || Overflowed(codec, setup, s))
    && !w.up.writing.Broken? && !w.down.writing.Broken?
  }

  lemma EventKeepsInv(setup: Setup, s: System, side: Side, e: Event)
    requires Inv(setup, s) && !IsFault(e) && Step(setup, s, By(side, e)).Some?
    ensures Inv(setup, Step(setup, s, By(side, e)).value)
  {
    hide Inv, Step;
    match side {
      case ClientSide => SessionPair.ClientStepKeepsInv(setup, s, e);
      case ServerSide => SessionPair.ServerStepKeepsInv(setup, s, e);
    }
  }

  lemma CleanWritesAreScripted(setup: Setup, s: System, side: Side, m: Msg)
    requires Inv(setup, s) && Step(setup, s, By(side, Wrote(m))).Some?
    ensures Scripted(setup, m)
    ensures m.Result? ==> side.ServerSide? && s.server.SendResult? && m == Result(setup.report)
  {
    match side {
      case ClientSide => assert ClientMsg(setup, ClientWrites(s.client), m);
      case ServerSide => assert ServerMsg(setup, ServerWrites(s.server), m);
    }
  }

  /** The one message refused is the report, and then only the client is left waiting. */
  lemma RefusalOverflows(codec: Codec, setup: Setup, s: System, side: Side, m: Msg)
    requires ScriptFits(codec, setup) && Inv(setup, s)
    requires Step(setup, s, By(side, Wrote(m))).Some? && !Fits(codec, m)
    requires Step(setup, s, By(side, WriteFailed)).Some?
    ensures Overflowed(codec, setup, Step(setup, s, By(side, WriteFailed)).value)
  {
    CleanWritesAreScripted(setup, s, side, m);
    assert m.Result?;
    assert s.c2s == [] && s.client.AwaitResult? && s.s2c == [];
  }

  /** While nothing fails a reader whose peer is gone has a message before it. */
  lemma GoneLeavesAMessage(setup: Setup, s: System, w: Wire, side: Side)
    requires Inv(setup, s) && s.client == w.client && s.server == w.server
    requires PeerGone(w, side) && Reading(w, side)
    ensures |InQueue(s, side)| > 0
  {
  }

  lemma FailedReadsAreReads(setup: Setup, w: Wire, side: Side)
    requires Move(setup, w, side, ReadFailed).Some?
    ensures Reading(w, side)
  {
  }

  lemma NoEofBeforeAMessage(codec: Codec, queue: seq<Msg>, lane: Lane)
    requires LaneHolds(codec, queue, lane) && |queue| > 0 && lane.flight == []
    ensures |lane.taken| == Wanted(lane.taken)
  {
    hide Decode, OnWire, Partial, WritingFits, Wanted;
    DecodeInFlight(codec, queue, lane.writing);
    DecodeOfTaken(lane.taken, lane.flight);
  }

  lemma NothingToGet(codec: Codec, setup: Setup, s: System, w: Wire, side: Side, m: Msg)
    requires Matches(codec, setup, s, w) && WireStep(codec, setup, w, Do(side, Got(m))).Some?
    ensures |InQueue(s, side)| > 0
  {
    hide LaneHolds, Message;
    GotIsFront(codec, InQueue(s, side), In(w, side), m);
  }

  lemma CleanStepFromInv(codec: Codec, setup: Setup, s: System, w: Wire, a: WireAction)
    requires Faithful(codec, setup) && ScriptFits(codec, setup)
    requires Inv(setup, s) && Matches(codec, setup, s, w)
    requires WireStep(codec, setup, w, a).Some? && (a.Do? ==> !IsFault(a.e))
    requires Shown(w, a).Some? && Step(setup, s, Shown(w, a).value).Some?
    ensures
      var t := Step(setup, s, Shown(w, a).value).value;
      Inv(setup, t) || Overflowed(codec, setup, t)
  {
    hide Inv, Overflowed, LaneHolds, Step, Fits, ScriptFits, Message, Wanted, Oversized, ClientStep, ServerStep;
    match a {
      case Push(side, _) => EventKeepsInv(setup, s, side, Wrote(Out(w, side).writing.msg));
      case Do(side, e) => EventKeepsInv(setup, s, side, e);
      case Refuse(side, m) =>
        MoveIsStep(codec, setup, s, w, side, m);
        RefusalOverflows(codec, setup, s, side, m);
      case Eof(side) =>
        FailedReadsAreReads(setup, w, side);
        GoneLeavesAMessage(setup, s, w, side);
        NoEofBeforeAMessage(codec, InQueue(s, side), In(w, side));
    }
  }

  lemma CleanStepFromOverflow(codec: Codec, setup: Setup, s: System, w: Wire, a: WireAction)
    requires Overflowed(codec, setup, s) && Matches(codec, setup, s, w)
    requires WireStep(codec, setup, w, a).Some? && (a.Do? ==> !IsFault(a.e))
    requires Shown(w, a).Some? && Step(setup, s, Shown(w, a).value).Some?
    ensures Overflowed(codec, setup, Step(setup, s, Shown(w, a).value).value)
  {
    hide LaneHolds, Fits, Message, Wanted, Oversized;
    if a.Do? && a.e.Got? {
      NothingToGet(codec, setup, s, w, a.side, a.e.msg);
    }
  }

  lemma NothingBreaks(codec: Codec, setup: Setup, w: Wire, a: WireAction)
    requires !w.up.writing.Broken? && !w.down.writing.Broken?
    requires WireStep(codec, setup, w, a).Some? && (a.Do? ==> !IsFault(a.e))
    ensures
      var t := WireStep(codec, setup, w, a).value;
      !t.up.writing.Broken? && !t.down.writing.Broken?
  {
    hide ClientStep, ServerStep, Wanted, Oversized, Message;
  }

  lemma CleanStepIsSound(codec: Codec, setup: Setup, s: System, w: Wire, a: WireAction)
    requires Faithful(codec, setup) && ScriptFits(codec, setup)
    requires Sound(codec, setup, s, w) && Matches(codec, setup, s, w)
    requires WireStep(codec, setup, w, a).Some? && (a.Do? ==> !IsFault(a.e))
    requires Shown(w, a).Some? ==> Step(setup, s, Shown(w, a).value).Some?
    ensures
      var t := if Shown(w, a).Some? then Step(setup, s, Shown(w, a).value).value else s;
      Sound(codec, setup, t, WireStep(codec, setup, w, a).value)
  {
    hide Inv, Overflowed, Matches, WireStep, Step;
    NothingBreaks(codec, setup, w, a);
    if Shown(w, a).Some? {
      if Inv(setup, s) {
        CleanStepFromInv(codec, setup, s, w, a);
      } else {
        CleanStepFromOverflow(codec, setup, s, w, a);
      }
    }
  }

  lemma QuietIsSound(codec: Codec, setup: Setup)
    ensures Sound(codec, setup, INITIAL, QUIET)
  {
  }

  lemma {:induction false} CleanRunIsSound(codec: Codec, setup: Setup, actions: seq<WireAction>)
    requires Faithful(codec, setup) && ScriptFits(codec, setup)
    requires NoWireFaults(actions) && WireRun(codec, setup, actions).Some?
    ensures
      var run := SessionPair.Run(setup, ShownRun(codec, setup, actions));
      run.Some? && Sound(codec, setup, run.value, WireRun(codec, setup, actions).value)
  {
    hide Sound, Matches, WireStep, Step, Faithful, ScriptFits;
    if |actions| == 0 {
      QuietIsSound(codec, setup);
    } else {
      var front, a := actions[..|actions| - 1], actions[|actions| - 1];
      assert actions == front + [a];
      CleanRunIsSound(codec, setup, front);
      RunOverWire(codec, setup, front);
      var w, run := WireRun(codec, setup, front).value, ShownRun(codec, setup, front);
      var s := SessionPair.Run(setup, run).value;
      ShownSnoc(codec, setup, front, a);
      assert run + [] == run;
      RunOverWire(codec, setup, actions);
      if Shown(w, a).Some? {
        RunSnoc(setup, run, Shown(w, a).value);
      }
      CleanStepIsSound(codec, setup, s, w, a);
    }
  }

  // ---- Progress and outcome -------------------------------------------------------

  predicate WireOver(w: Wire) {
    ClientReadsNoMore(w.client) && ServerDone(w.server)
  }

  /** An action that is sure to be possible: nothing fails, and a stage of a data path
      completes only when the peer is far enough. */
  predicate CanAct(codec: Codec, setup: Setup, w: Wire, a: WireAction) {
    && WireStep(codec, setup, w, a).Some?
    && (a.Do? ==> !IsFault(a.e))
    && (a.Do? && a.e.DataOk? ==> DataReady(setup, System(w.client, w.server, [], []), By(a.side, a.e)))
  }

  lemma CanWrite(codec: Codec, setup: Setup, w: Wire, side: Side, m: Msg)
    requires Move(setup, w, side, Wrote(m)).Some? && WriterHolds(setup, w, side)
    requires Out(w, side).writing.Pushing? ==> |Out(w, side).writing.rest| > 0
    ensures exists a :: CanAct(codec, setup, w, a)
  {
    var writing := Out(w, side).writing;
    WaysToEnd(setup, w, side, Wrote(m));
    if writing.Idle? {
      if Fits(codec, m) {
        assert CanAct(codec, setup, w, Begin(side, m));
      } else {
        assert CanAct(codec, setup, w, Refuse(side, m));
      }
    } else {
      assert CanAct(codec, setup, w, Push(side, |writing.rest|));
    }
  }

  lemma CanRead(codec: Codec, setup: Setup, s: System, w: Wire, side: Side)
    requires Matches(codec, setup, s, w) && |InQueue(s, side)| > 0
    requires Move(setup, w, side, Got(InQueue(s, side)[0])).Some?
    ensures exists a :: CanAct(codec, setup, w, a)
  {
    hide OnWire, Decode, Partial, WritingFits, ClientStep, ServerStep;
    hide Wanted, Oversized, Complete, CarriesAll, ClientReading, ServerReading;
    var queue, lane := InQueue(s, side), In(w, side);
    DecodeInFlight(codec, queue, lane.writing);
    DecodeOfTaken(lane.taken, lane.flight);
    FrontRoundTrips(codec, queue);
    ReadersGet(setup, w, side, queue[0]);
    if Complete(lane.taken) {
      assert CanAct(codec, setup, w, Do(side, Got(queue[0])));
    } else {
      assert CanAct(codec, setup, w, Take(side, 1));
    }
  }

  lemma RestLeft(codec: Codec, queue: seq<Msg>, lane: Lane)
    requires LaneHolds(codec, queue, lane)
    ensures lane.writing.Pushing? ==> |lane.writing.rest| > 0
  {
  }

  /** A step of the queues that is sure to be possible is a matter of some bytes. */
  lemma SomeBytesMove(codec: Codec, setup: Setup, s: System, w: Wire, b: Action)
    requires Matches(codec, setup, s, w) && CanStep(setup, s, b)
    ensures exists a :: CanAct(codec, setup, w, a)
  {
    hide LaneHolds, Step, ClientStep, ServerStep;
    var side := SideOf(b);
    StepIsMove(codec, setup, s, w, b);
    if b.e.Wrote? {
      RestLeft(codec, OutQueue(s, side), Out(w, side));
      CanWrite(codec, setup, w, side, b.e.msg);
    } else if b.e.Got? {
      CanRead(codec, setup, s, w, side);
    } else {
      assert CanAct(codec, setup, w, Do(side, b.e));
    }
  }

  lemma WaitingClientFindsEof(codec: Codec, setup: Setup, s: System, w: Wire)
    requires Overflowed(codec, setup, s) && Matches(codec, setup, s, w) && w.client.AwaitResult?
    requires !w.down.writing.Broken?
    ensures CanAct(codec, setup, w, Eof(ClientSide))
  {
    assert w.down.writing.Idle?;
    NoBytes(codec);
    assert w.down.taken + w.down.flight == [] by {
      hide Move;
    }
  }

  /** No deadlock over bytes: after any run in which nothing fails that is not over,
      some party can move. */
  lemma NoDeadlockOverWire(codec: Codec, setup: Setup, actions: seq<WireAction>)
    requires Faithful(codec, setup) && ScriptFits(codec, setup)
    requires NoWireFaults(actions) && WireRun(codec, setup, actions).Some?
    requires !WireOver(WireRun(codec, setup, actions).value)
    ensures exists a :: CanAct(codec, setup, WireRun(codec, setup, actions).value, a)
  {
    CleanRunIsSound(codec, setup, actions);
    RunOverWire(codec, setup, actions);
    hide LaneHolds, CanAct, CanStep, Inv, WireRun, ShownRun, WriterHolds;
    var w := WireRun(codec, setup, actions).value;
    var s := SessionPair.Run(setup, ShownRun(codec, setup, actions)).value;
    if Inv(setup, s) {
      EnabledIsEnabled(setup, s);
      SomeBytesMove(codec, setup, s, w, Enabled(setup, s));
    } else {
      WaitingClientFindsEof(codec, setup, s, w);
    }
  }

  ghost predicate WireStuck(codec: Codec, setup: Setup, w: Wire) {
    forall a :: !CanAct(codec, setup, w, a)
  }

  lemma OverMeansOutcome(setup: Setup, s: System)
    requires Inv(setup, s) && Over(s)
    ensures if Compatible(setup) then s.client == Done && s.server == Finished
      else s.client.Failed? && s.server.Aborted?
  {
  }

  /** A run in which nothing fails and that can go no further has ended in a result on
      both sides exactly when the versions agree and the report fits a frame. Otherwise
      both sides gave up. */
  lemma OutcomeOverWire(codec: Codec, setup: Setup, actions: seq<WireAction>)
    requires Faithful(codec, setup) && ScriptFits(codec, setup)
    requires NoWireFaults(actions) && WireRun(codec, setup, actions).Some?
    requires WireStuck(codec, setup, WireRun(codec, setup, actions).value)
    ensures
      var w := WireRun(codec, setup, actions).value;
      if Compatible(setup) && ReportFits(codec, setup) then w.client == Done && w.server == Finished
      else w.client.Failed? && w.server.Aborted?
  {
    var w := WireRun(codec, setup, actions).value;
    CleanRunIsSound(codec, setup, actions);
    RunOverWire(codec, setup, actions);
    hide LaneHolds, CanAct, Inv, WireRun, ShownRun, WriterHolds;
    if !WireOver(w) {
      NoDeadlockOverWire(codec, setup, actions);
    }
    var s := SessionPair.Run(setup, ShownRun(codec, setup, actions)).value;
    if Inv(setup, s) {
      OverMeansOutcome(setup, s);
    }
  }
}
