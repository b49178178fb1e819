/** The measuring half of src/modes/tcp.rs: one scan when the warm-up ends and one
    when Stop arrives, run by different tasks over live counters. */
module TcpServe {
  import opened Bytes
  import opened Series
  import opened Meter

  const WARM: nat := 0
  const FINAL: nat := 1

  datatype TcpResult = TcpResult(bytes: nat, durationNs: nat, bitsPerSec: real, bytesPerSec: real)

  /** What is reported once both scans are complete and stamped. */
  function Report(log: seq<Action>, n: nat): Option<TcpResult> {
    var warmAt, finalAt := StampOf(log, WARM, n), StampOf(log, FINAL, n);
    if warmAt.None? || finalAt.None? then None
    else
      var bytes := SatSub(ScanTotal(log, FINAL, n), ScanTotal(log, WARM, n));
      var ns := SatSub(finalAt.value, warmAt.value);
      Some(TcpResult(bytes, ns, Rate(8 * bytes, ns), Rate(bytes, ns)))
  }

  /** Position k holds the step that stamped scan s. */
  ghost predicate FirstStamp(log: seq<Action>, s: nat, n: nat, k: nat) {
    && k < |log| && StampOf(log, s, n).Some? && log[k] == Stamp(s, StampOf(log, s, n).value)
    && Complete(log[..k], s, n)
  }

  lemma {:induction false} StampFromLog(log: seq<Action>, s: nat, n: nat)
    requires StampOf(log, s, n).Some?
    ensures exists k: nat :: FirstStamp(log, s, n, k)
  {
    var front := log[..|log| - 1];
    if StampOf(front, s, n).Some? {
      StampFromLog(front, s, n);
      var k: nat :| FirstStamp(front, s, n, k);
      assert log[k] == front[k] && log[..k] == front[..k];
      assert FirstStamp(log, s, n, k);
    } else {
      assert FirstStamp(log, s, n, |log| - 1);
    }
  }

  /** The time reported runs from the step that stamped the warm-up scan to the step that
      stamped the final one. */
  ghost predicate SpansTheStamps(log: seq<Action>, n: nat, durationNs: nat) {
    exists j: nat, k: nat ::
      FirstStamp(log, WARM, n, j) && FirstStamp(log, FINAL, n, k)
      && durationNs == (if log[k].nowNs >= log[j].nowNs then log[k].nowNs - log[j].nowNs else 0)
  }

  lemma StampsSpan(log: seq<Action>, n: nat)
    requires Report(log, n).Some?
    ensures SpansTheStamps(log, n, Report(log, n).value.durationNs)
  {
    hide StampOf, Complete;
    StampFromLog(log, WARM, n);
    StampFromLog(log, FINAL, n);
    var j: nat :| FirstStamp(log, WARM, n, j);
    var k: nat :| FirstStamp(log, FINAL, n, k);
    assert FirstStamp(log, WARM, n, j) && FirstStamp(log, FINAL, n, k);
  }

  /** Runs receivers, warm-up task and final scan under an arbitrary interleaving; no
      result exists before both scans are complete and stamped. */
  method Serve(parallel: nat, schedule: seq<Action>) returns (r: Option<TcpResult>)
    ensures r == Report(schedule, parallel)
    ensures r.Some? ==> RatesOf(r.value.bitsPerSec, r.value.bytesPerSec, r.value.bytes, r.value.durationNs)
    ensures r.Some? ==> SpansTheStamps(schedule, parallel, r.value.durationNs)
  {
    hide ScanTotal, StampOf, ReadsOf, Count;
    var m := new Meters(parallel, 2);
    m.Run(schedule);
    assert m.log == schedule;
    assert m.scans[WARM] == ScanOf(schedule, WARM, parallel);
    assert m.scans[FINAL] == ScanOf(schedule, FINAL, parallel);
    var warm, final := m.scans[WARM], m.scans[FINAL];
    if warm.stamp.None? || final.stamp.None? {
      return None;
    }
    var bytes := SatSub(final.sum, warm.sum);
    var ns := SatSub(final.stamp.value, warm.stamp.value);
    RatesAre(bytes, ns);
    StampsSpan(schedule, parallel);
    r := Some(TcpResult(bytes, ns, Rate(8 * bytes, ns), Rate(bytes, ns)));
  }

  lemma {:induction false} StampedIsComplete(log: seq<Action>, s: nat, n: nat)
    requires StampOf(log, s, n).Some?
    ensures Complete(log, s, n)
  {
    var front := log[..|log| - 1];
    ReadsGrow(log, |log| - 1, s, n);
    if StampOf(front, s, n).Some? {
      StampedIsComplete(front, s, n);
    }
  }

  /** Warm-up exclusion over every interleaving: when the final scan trails the warm-up
      scan, the report counts exactly the bytes added to each counter after its
      warm-up read and before its final read. */
  lemma ReportCountsTheWindow(log: seq<Action>, n: nat)
    requires Report(log, n).Some? && Trails(log, WARM, FINAL, n)
    ensures Report(log, n).value.bytes == Sum(Gaps(log, WARM, FINAL, n))
  {
    StampedIsComplete(log, WARM, n);
    StampedIsComplete(log, FINAL, n);
    TrailingScanCountsTheGap(log, WARM, FINAL, n);
  }

  /** With no assumption on how the scans overlap, the report is the window bytes less
      the bytes that fell between a final read and a later warm-up read, cut at zero. */
  lemma ReportUnderAnyOverlap(log: seq<Action>, n: nat)
    requires Report(log, n).Some?
    ensures Report(log, n).value.bytes == SatSub(Sum(Gaps(log, WARM, FINAL, n)), Sum(Gaps(log, FINAL, WARM, n)))
  {
    StampedIsComplete(log, WARM, n);
    StampedIsComplete(log, FINAL, n);
    ScansDifferByGaps(log, WARM, FINAL, n);
  }

  ghost predicate ClockMonotone(log: seq<Action>) {
    forall j, k :: 0 <= j < k < |log| && log[j].Stamp? && log[k].Stamp? ==> log[j].nowNs <= log[k].nowNs
  }

  lemma {:induction false} StampStays(log: seq<Action>, c: nat, s: nat, n: nat)
    requires c <= |log| && StampOf(log[..c], s, n).Some?
    ensures StampOf(log, s, n) == StampOf(log[..c], s, n)
  {
    if c == |log| {
      assert log[..c] == log;
    } else {
      var front := log[..|log| - 1];
      assert front[..c] == log[..c];
      StampStays(front, c, s, n);
    }
  }

  lemma StampedFromThere(log: seq<Action>, s: nat, n: nat, k: nat)
    requires FirstStamp(log, s, n, k)
    ensures StampOf(log[..k + 1], s, n).Some?
  {
    var upTo := log[..k + 1];
    assert upTo[..|upTo| - 1] == log[..k];
  }

  lemma FinalStampIsEarlier(log: seq<Action>, n: nat, c: nat)
    requires c <= |log| && ClockMonotone(log)
    requires StampOf(log[..c], FINAL, n).Some? && StampOf(log[..c], WARM, n).None?
    requires StampOf(log, WARM, n).Some?
    ensures StampOf(log, FINAL, n).Some? && StampOf(log, FINAL, n).value <= StampOf(log, WARM, n).value
  {
    hide StampOf, Complete;
    StampStays(log, c, FINAL, n);
    StampFromLog(log[..c], FINAL, n);
    StampFromLog(log, WARM, n);
    var j: nat :| FirstStamp(log[..c], FINAL, n, j);
    var k: nat :| FirstStamp(log, WARM, n, k);
    if k < c {
      StampedFromThere(log, WARM, n, k);
      assert log[..c][..k + 1] == log[..k + 1];
      StampStays(log[..c], k + 1, WARM, n);
    }
    assert log[j] == log[..c][j] && j < k;
  }

  /** If the final scan is complete and stamped before the warm-up task reads anything,
      as when Stop comes before the warm-up ends, everything reported is zero. */
  lemma StopBeforeWarmupReportsZero(log: seq<Action>, n: nat, c: nat)
    requires c <= |log| && ClockMonotone(log)
    requires StampOf(log[..c], FINAL, n).Some?
    requires ReadsOf(log[..c], WARM, n) == [] && StampOf(log[..c], WARM, n).None?
    requires Report(log, n).Some?
    ensures Report(log, n).value == TcpResult(0, 0, 0.0, 0.0)
  {
    hide StampOf, ReadsOf, ScanTotal, ClockMonotone;
    StampedIsComplete(log, WARM, n);
    StampedIsComplete(log[..c], FINAL, n);
    SuccessiveScansGrow(log, c, FINAL, WARM, n);
    FinalStampIsEarlier(log, n, c);
  }
}
