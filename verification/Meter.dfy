/** The shared byte counters of src/meter.rs. Receivers add to their own counter
    while scans read the counters one by one, so a scan is not atomic. */
module Meter {
  import opened Bytes
  import opened Series

  /** One atomic step of some task. */
  datatype Action =
    | Add(stream: nat, bytes: nat)  // a receiver adds to its counter
    | Read(scan: nat)               // a scan reads its next counter
    | Stamp(scan: nat, nowNs: nat)  // the clock is read once a scan is complete

  // ---- What a log of steps determines ---------------------------------------------

  /** The value of counter i after the log. */
  function Count(log: seq<Action>, i: nat): nat {
    if |log| == 0 then 0
    else
      var a := log[|log| - 1];
      Count(log[..|log| - 1], i) + (if a.Add? && a.stream == i then a.bytes else 0)
  }

  function Counts(log: seq<Action>, n: nat): (cs: seq<nat>)
    ensures |cs| == n
    ensures forall i :: 0 <= i < n ==> cs[i] == Count(log, i)
  {
    seq(n, i requires 0 <= i < n => Count(log, i))
  }

  /** The true total over n counters. */
  function TrueTotal(log: seq<Action>, n: nat): nat {
    Sum(Counts(log, n))
  }

  /** What scan s has read so far, counter by counter. */
  function ReadsOf(log: seq<Action>, s: nat, n: nat): (rs: seq<nat>)
    ensures |rs| <= n
  {
    if |log| == 0 then []
    else
      var front, a := log[..|log| - 1], log[|log| - 1];
      var rs := ReadsOf(front, s, n);
      if a == Read(s) && |rs| < n then rs + [Count(front, |rs|)] else rs
  }

  /** The first clock reading after scan s was complete. */
  function StampOf(log: seq<Action>, s: nat, n: nat): Option<nat> {
    if |log| == 0 then None
    else
      var front, a := log[..|log| - 1], log[|log| - 1];
      var st := StampOf(front, s, n);
      if st.None? && a.Stamp? && a.scan == s && |ReadsOf(front, s, n)| == n then Some(a.nowNs) else st
  }

  ghost predicate Complete(log: seq<Action>, s: nat, n: nat) {
    |ReadsOf(log, s, n)| == n
  }

  /** What scan s returns. */
  function ScanTotal(log: seq<Action>, s: nat, n: nat): nat {
    Sum(ReadsOf(log, s, n))
  }

  // ---- Scans against true totals --------------------------------------------------

  lemma {:induction false} SumMonotone(xs: seq<nat>, ys: seq<nat>)
    requires |xs| == |ys|
    requires forall i :: 0 <= i < |xs| ==> xs[i] <= ys[i]
    ensures Sum(xs) <= Sum(ys)
  {
    if |xs| > 0 {
      SumMonotone(xs[1..], ys[1..]);
    }
  }

  lemma {:induction false} CountGrows(log: seq<Action>, a: nat, i: nat)
    requires a <= |log|
    ensures Count(log[..a], i) <= Count(log, i)
  {
    if a == |log| {
      assert log[..a] == log;
    } else {
      var front := log[..|log| - 1];
      CountGrows(front, a, i);
      assert front[..a] == log[..a];
    }
  }

  lemma {:induction false} ReadsGrow(log: seq<Action>, a: nat, s: nat, n: nat)
    requires a <= |log|
    ensures ReadsOf(log[..a], s, n) <= ReadsOf(log, s, n)
  {
    if a == |log| {
      assert log[..a] == log;
    } else {
      var front := log[..|log| - 1];
      ReadsGrow(front, a, s, n);
      assert front[..a] == log[..a];
    }
  }

  /** A counter that scan s reads after position a is read at a value between its
      value at a and its value at the end. */
  lemma {:induction false} ReadBetween(log: seq<Action>, a: nat, s: nat, n: nat, i: nat)
    requires a <= |log|
    requires |ReadsOf(log[..a], s, n)| <= i < |ReadsOf(log, s, n)|
    ensures Count(log[..a], i) <= ReadsOf(log, s, n)[i] <= Count(log, i)
    decreases |log|
  {
    assert log[..|log|] == log;
    var front := log[..|log| - 1];
    assert front[..a] == log[..a];
    CountGrows(log, |log| - 1, i);
    if i < |ReadsOf(front, s, n)| {
      ReadBetween(front, a, s, n, i);
    } else {
      CountGrows(front, a, i);
    }
  }

  /** For every interleaving, a scan that starts after position a and is complete by
      position b returns something between the true totals at a and at b. */
  lemma ScanBetweenTotals(log: seq<Action>, a: nat, b: nat, s: nat, n: nat)
    requires a <= b <= |log|
    requires ReadsOf(log[..a], s, n) == [] && Complete(log[..b], s, n)
    ensures TrueTotal(log[..a], n) <= ScanTotal(log, s, n) <= TrueTotal(log[..b], n)
  {
    var seen := ReadsOf(log, s, n);
    ReadsGrow(log, b, s, n);
    assert seen == ReadsOf(log[..b], s, n);
    forall i | 0 <= i < n
      ensures Count(log[..a], i) <= seen[i] <= Count(log[..b], i)
    {
      assert log[..b][..a] == log[..a];
      ReadBetween(log[..b], a, s, n, i);
    }
    SumMonotone(Counts(log[..a], n), seen);
    SumMonotone(seen, Counts(log[..b], n));
  }

  /** A scan that starts once another is complete returns at least as much. */
  lemma SuccessiveScansGrow(log: seq<Action>, c: nat, s: nat, t: nat, n: nat)
    requires c <= |log|
    requires Complete(log[..c], s, n)
    requires ReadsOf(log[..c], t, n) == [] && Complete(log, t, n)
    ensures ScanTotal(log, s, n) <= ScanTotal(log, t, n)
  {
    assert log[..|log|] == log;
    assert log[..0] == [];
    ScanBetweenTotals(log, 0, c, s, n);
    ScanBetweenTotals(log, c, |log|, t, n);
  }

  // ---- Two scans compared byte by byte --------------------------------------------

  /** The bytes added to counter i after scan s read it and before scan t did. */
  function Gap(log: seq<Action>, s: nat, t: nat, i: nat, n: nat): nat {
    if |log| == 0 then 0
    else
      var front, a := log[..|log| - 1], log[|log| - 1];
      Gap(front, s, t, i, n)
      + (if a.Add? && a.stream == i && i < |ReadsOf(front, s, n)| && |ReadsOf(front, t, n)| <= i then a.bytes else 0)
  }

  function Gaps(log: seq<Action>, s: nat, t: nat, n: nat): (gs: seq<nat>)
    ensures |gs| == n
    ensures forall i :: 0 <= i < n ==> gs[i] == Gap(log, s, t, i, n)
  {
    seq(n, i requires 0 <= i < n => Gap(log, s, t, i, n))
  }

  /** However two scans overlap, what they read from a counter differs by exactly the
      bytes added between the two reads. */
  lemma {:induction false} GapInvariant(log: seq<Action>, s: nat, t: nat, i: nat, n: nat)
    requires i < n
    ensures var rs, rt := ReadsOf(log, s, n), ReadsOf(log, t, n);
      && (i >= |rs| ==> Gap(log, s, t, i, n) == 0)
      && (i >= |rt| ==> Gap(log, t, s, i, n) == 0)
      && (|rt| <= i < |rs| ==> Count(log, i) - rs[i] == Gap(log, s, t, i, n))
      && (|rs| <= i < |rt| ==> Count(log, i) - rt[i] == Gap(log, t, s, i, n))
      && (i < |rs| && i < |rt| ==> rt[i] + Gap(log, t, s, i, n) == rs[i] + Gap(log, s, t, i, n))
  {
    if |log| > 0 {
      GapInvariant(log[..|log| - 1], s, t, i, n);
    }
  }

  lemma {:induction false} SumOfDifferences(xs: seq<nat>, ys: seq<nat>, us: seq<nat>, vs: seq<nat>)
    requires |xs| == |ys| == |us| == |vs|
    requires forall i :: 0 <= i < |xs| ==> ys[i] + vs[i] == xs[i] + us[i]
    ensures Sum(ys) + Sum(vs) == Sum(xs) + Sum(us)
  {
    if |xs| > 0 {
      SumOfDifferences(xs[1..], ys[1..], us[1..], vs[1..]);
    }
  }

  /** Two complete scans differ by the bytes that fell between their reads, counter
      by counter and signed by which scan read the counter first. */
  lemma ScansDifferByGaps(log: seq<Action>, s: nat, t: nat, n: nat)
    requires Complete(log, s, n) && Complete(log, t, n)
    ensures ScanTotal(log, t, n) + Sum(Gaps(log, t, s, n)) == ScanTotal(log, s, n) + Sum(Gaps(log, s, t, n))
  {
    forall i | 0 <= i < n
      ensures ReadsOf(log, t, n)[i] + Gaps(log, t, s, n)[i] == ReadsOf(log, s, n)[i] + Gaps(log, s, t, n)[i]
    {
      GapInvariant(log, s, t, i, n);
    }
    SumOfDifferences(ReadsOf(log, s, n), ReadsOf(log, t, n), Gaps(log, s, t, n), Gaps(log, t, s, n));
  }

  /** Scan t reads every counter no earlier than scan s does. */
  ghost predicate Trails(log: seq<Action>, s: nat, t: nat, n: nat) {
    forall k :: 0 <= k <= |log| ==> |ReadsOf(log[..k], t, n)| <= |ReadsOf(log[..k], s, n)|
  }

  lemma {:induction false} NoReverseGap(log: seq<Action>, s: nat, t: nat, i: nat, n: nat)
    requires Trails(log, s, t, n)
    ensures Gap(log, t, s, i, n) == 0
  {
    if |log| > 0 {
      var front := log[..|log| - 1];
      forall k | 0 <= k <= |front|
        ensures |ReadsOf(front[..k], t, n)| <= |ReadsOf(front[..k], s, n)|
      {
        assert front[..k] == log[..k];
      }
      assert |ReadsOf(log[..|log| - 1], t, n)| <= |ReadsOf(log[..|log| - 1], s, n)|;
      NoReverseGap(front, s, t, i, n);
    }
  }

  lemma {:induction false} SumOfZeros(xs: seq<nat>)
    requires forall i :: 0 <= i < |xs| ==> xs[i] == 0
    ensures Sum(xs) == 0
  {
    if |xs| > 0 {
      SumOfZeros(xs[1..]);
    }
  }

  /** When scan t trails scan s, the difference is exactly the bytes added to each
      counter after s read it and before t did. */
  lemma TrailingScanCountsTheGap(log: seq<Action>, s: nat, t: nat, n: nat)
    requires Complete(log, s, n) && Complete(log, t, n) && Trails(log, s, t, n)
    ensures ScanTotal(log, t, n) == ScanTotal(log, s, n) + Sum(Gaps(log, s, t, n))
  {
    ScansDifferByGaps(log, s, t, n);
    forall i | 0 <= i < n
      ensures Gaps(log, t, s, n)[i] == 0
    {
      NoReverseGap(log, s, t, i, n);
    }
    SumOfZeros(Gaps(log, t, s, n));
  }

  // ---- The running system ---------------------------------------------------------

  /** A scan in progress: how many counters it has read and what they add up to. */
  datatype Scan = Scan(cursor: nat, sum: nat, stamp: Option<nat>)

  /** Counters and the scans over them, moved by one atomic step at a time. */
  class Meters {
    var counters: seq<nat>
    var scans: seq<Scan>
    /** Every step taken so far, by any task. */
    ghost var log: seq<Action>

    ghost predicate Valid()
      reads this
    {
      && counters == Counts(log, |counters|)
      && forall s :: 0 <= s < |scans| ==> scans[s] == ScanOf(log, s, |counters|)
    }

    constructor (streams: nat, scanTasks: nat)
      ensures Valid() && log == [] && |counters| == streams && |scans| == scanTasks
    {
      counters := seq(streams, _ => 0);
      scans := seq(scanTasks, _ => Scan(0, 0, None));
      log := [];
    }

    /** Counter::add on one counter. */
    method AddTo(stream: nat, bytes: nat)
      requires Valid()
      modifies this
      ensures Valid() && |counters| == old(|counters|) && |scans| == old(|scans|)
      ensures log == old(log) + [Add(stream, bytes)]
    {
      forall i | 0 <= i < |counters|
        ensures Count(log + [Add(stream, bytes)], i) == counters[i] + if i == stream then bytes else 0
      {
        CountSnoc(log, Add(stream, bytes), i);
      }
      forall s | 0 <= s < |scans|
        ensures ScanOf(log + [Add(stream, bytes)], s, |counters|) == scans[s]
      {
        ScanSnoc(log, Add(stream, bytes), s, |counters|);
      }
      if stream < |counters| {
        counters := counters[stream := counters[stream] + bytes];
      }
      log := log + [Add(stream, bytes)];
    }

    /** Scan s loads its next counter, if one is left. */
    method ReadNext(s: nat)
      requires Valid()
      modifies this
      ensures Valid() && |counters| == old(|counters|) && |scans| == old(|scans|)
      ensures log == old(log) + [Read(s)]
    {
      CountsUnchanged(log, Read(s), |counters|);
      forall t | 0 <= t < |scans|
        ensures ScanOf(log + [Read(s)], t, |counters|) ==
          if t == s && scans[t].cursor < |counters|
          then scans[t].(cursor := scans[t].cursor + 1, sum := scans[t].sum + counters[scans[t].cursor])
          else scans[t]
      {
        ScanSnoc(log, Read(s), t, |counters|);
      }
      if s < |scans| && scans[s].cursor < |counters| {
        var c := scans[s];
        scans := scans[s := c.(cursor := c.cursor + 1, sum := c.sum + counters[c.cursor])];
      }
      log := log + [Read(s)];
    }

    /** Scan s reads the clock; the reading counts once the scan is complete. */
    method StampScan(s: nat, nowNs: nat)
      requires Valid()
      modifies this
      ensures Valid() && |counters| == old(|counters|) && |scans| == old(|scans|)
      ensures log == old(log) + [Stamp(s, nowNs)]
    {
      CountsUnchanged(log, Stamp(s, nowNs), |counters|);
      forall t | 0 <= t < |scans|
        ensures ScanOf(log + [Stamp(s, nowNs)], t, |counters|) ==
          if t == s && scans[t].cursor == |counters| && scans[t].stamp.None?
          then scans[t].(stamp := Some(nowNs))
          else scans[t]
      {
        ScanSnoc(log, Stamp(s, nowNs), t, |counters|);
      }
      if s < |scans| && scans[s].cursor == |counters| && scans[s].stamp.None? {
        scans := scans[s := scans[s].(stamp := Some(nowNs))];
      }
      log := log + [Stamp(s, nowNs)];
    }

    method Step(a: Action)
      requires Valid()
      modifies this
      ensures Valid() && |counters| == old(|counters|) && |scans| == old(|scans|)
      ensures log == old(log) + [a]
    {
      match a {
        case Add(stream, bytes) => AddTo(stream, bytes);
        case Read(s) => ReadNext(s);
        case Stamp(s, nowNs) => StampScan(s, nowNs);
      }
    }

    /** Any interleaving of the tasks' steps. */
    method Run(schedule: seq<Action>)
      requires Valid()
      modifies this
      ensures Valid() && |counters| == old(|counters|) && |scans| == old(|scans|)
      ensures log == old(log) + schedule
    {
      for k := 0 to |schedule|
        invariant Valid() && |counters| == old(|counters|) && |scans| == old(|scans|)
        invariant log == old(log) + schedule[..k]
      {
        Step(schedule[k]);
      }
      assert schedule[..|schedule|] == schedule;
    }
  }

  function ScanOf(log: seq<Action>, s: nat, n: nat): Scan {
    Scan(|ReadsOf(log, s, n)|, ScanTotal(log, s, n), StampOf(log, s, n))
  }

  lemma CountSnoc(log: seq<Action>, a: Action, i: nat)
    ensures Count(log + [a], i) == Count(log, i) + if a.Add? && a.stream == i then a.bytes else 0
  {
    assert (log + [a])[..|log|] == log;
  }

  lemma CountsUnchanged(log: seq<Action>, a: Action, n: nat)
    requires !a.Add?
    ensures Counts(log + [a], n) == Counts(log, n)
  {
    forall i | 0 <= i < n
      ensures Counts(log + [a], n)[i] == Counts(log, n)[i]
    {
      CountSnoc(log, a, i);
    }
  }

  lemma ReadsSnoc(log: seq<Action>, a: Action, s: nat, n: nat)
    ensures
      var rs := ReadsOf(log, s, n);
      ReadsOf(log + [a], s, n) == if a == Read(s) && |rs| < n then rs + [Count(log, |rs|)] else rs
  {
    assert (log + [a])[..|log|] == log;
  }

  lemma ScanSnoc(log: seq<Action>, a: Action, s: nat, n: nat)
    ensures
      var c := ScanOf(log, s, n);
      ScanOf(log + [a], s, n) ==
        if a == Read(s) && c.cursor < n then c.(cursor := c.cursor + 1, sum := c.sum + Count(log, c.cursor))
        else if a.Stamp? && a.scan == s && c.cursor == n && c.stamp.None? then c.(stamp := Some(a.nowNs))
        else c
  {
    assert (log + [a])[..|log|] == log;
    ReadsSnoc(log, a, s, n);
    var rs := ReadsOf(log, s, n);
    if |rs| < n {
      SumSnoc(rs, Count(log, |rs|));
    }
  }

  // ---- The sampler ----------------------------------------------------------------

  /** The steps of other tasks: receivers adding, and scans numbered from `own` up. */
  ghost predicate Foreign(env: seq<Action>, own: nat) {
    forall k :: 0 <= k < |env| && env[k].Read? ==> env[k].scan >= own
  }

  lemma {:induction false} ReadsAcrossForeign(log: seq<Action>, env: seq<Action>, own: nat, s: nat, n: nat)
    requires Foreign(env, own) && s < own
    ensures ReadsOf(log + env, s, n) == ReadsOf(log, s, n)
  {
    if |env| == 0 {
      assert log + env == log;
    } else {
      var front := env[..|env| - 1];
      ReadsAcrossForeign(log, front, own, s, n);
      assert log + env == (log + front) + [env[|env| - 1]];
      ReadsSnoc(log + front, env[|env| - 1], s, n);
    }
  }

  /** The steps of one pass by scan s, when `env` is what the other tasks do before each
      of its reads. */
  ghost function Pass(env: seq<seq<Action>>, s: nat): seq<Action> {
    if |env| == 0 then []
    else Pass(env[..|env| - 1], s) + env[|env| - 1] + [Read(s)]
  }

  lemma PassSnoc(env: seq<seq<Action>>, s: nat, k: nat)
    requires k < |env|
    ensures Pass(env[..k + 1], s) == Pass(env[..k], s) + env[k] + [Read(s)]
  {
    assert env[..k + 1][..k] == env[..k];
  }

  /** One pass over the counters by scan s, while the other tasks do what `env` says
      before each read. Scans 0 to own - 1 belong to the caller. */
  method TotalOnce(m: Meters, own: nat, s: nat, env: seq<seq<Action>>) returns (sum: nat)
    requires m.Valid() && s < own <= |m.scans| && |env| == |m.counters|
    requires forall i :: 0 <= i < |env| ==> Foreign(env[i], own)
    requires ReadsOf(m.log, s, |m.counters|) == []
    modifies m
    ensures m.Valid() && |m.counters| == old(|m.counters|) && |m.scans| == old(|m.scans|)
    ensures m.log == old(m.log) + Pass(env, s)
    ensures Complete(m.log, s, |m.counters|) && sum == ScanTotal(m.log, s, |m.counters|)
    ensures forall t :: 0 <= t < own && t != s ==>
      ReadsOf(m.log, t, |m.counters|) == ReadsOf(old(m.log), t, |m.counters|)
    ensures TrueTotal(old(m.log), |m.counters|) <= sum <= TrueTotal(m.log, |m.counters|)
  {
    hide ReadsOf, Count, Counts, StampOf, ScanTotal, Pass;
    ghost var n, start := |m.counters|, m.log;
    NoPass(s);
    assert env[..0] == [] && start + [] == start;
    for i := 0 to |env|
      invariant m.Valid() && |m.counters| == n && |m.scans| == old(|m.scans|)
      invariant m.log == start + Pass(env[..i], s)
      invariant |ReadsOf(m.log, s, n)| == i
      invariant forall t :: 0 <= t < own && t != s ==> ReadsOf(m.log, t, n) == ReadsOf(start, t, n)
    {
      ghost var before := m.log;
      m.Run(env[i]);
      forall t: nat | t < own
        ensures ReadsOf(m.log, t, n) == ReadsOf(before, t, n)
      {
        ReadsAcrossForeign(before, env[i], own, t, n);
      }
      ghost var mid := m.log;
      m.ReadNext(s);
      forall t: nat
        ensures t != s ==> ReadsOf(m.log, t, n) == ReadsOf(mid, t, n)
        ensures t == s ==> |ReadsOf(m.log, t, n)| == i + 1
      {
        ReadsSnoc(mid, Read(s), t, n);
      }
      PassSnoc(env, s, i);
    }
    assert env[..|env|] == env;
    assert m.scans[s] == ScanOf(m.log, s, n);
    sum := m.scans[s].sum;
    assert m.log[..|start|] == start && m.log[..|m.log|] == m.log;
    ScanBetweenTotals(m.log, |start|, |m.log|, s, n);
  }

  lemma NoPass(s: nat)
    ensures Pass([], s) == []
  {
  }

  /** The steps of one pass after the other, by scans 0, 1, 2 and so on. */
  ghost function Passes(env: seq<seq<seq<Action>>>): seq<Action> {
    if |env| == 0 then []
    else Passes(env[..|env| - 1]) + Pass(env[|env| - 1], |env| - 1)
  }

  lemma PassesSnoc(env: seq<seq<seq<Action>>>, k: nat)
    requires k < |env|
    ensures Passes(env[..k + 1]) == Passes(env[..k]) + Pass(env[k], k)
  {
    assert env[..k + 1][..k] == env[..k];
  }

  lemma FirstPass(env: seq<seq<seq<Action>>>)
    requires |env| > 0
    ensures Passes(env[..1]) == Pass(env[0], 0)
  {
    PassesSnoc(env, 0);
    assert env[..0] == [];
  }

  datatype Sample = Sample(tNs: nat, bytes: nat, bitsPerSec: real)

  /** How many ticks the sampler takes, given its clock at each tick since the start: it
      stops with the first one at or past the end of the window. */
  function TicksTaken(clock: seq<nat>, windowNs: nat): (n: nat)
    ensures n <= |clock|
  {
    if |clock| == 0 then 0 else if clock[0] >= windowNs then 1 else 1 + TicksTaken(clock[1..], windowNs)
  }

  /** Ticks up to one at or past the end of the window, or to the last. */
  lemma {:induction false} TicksTakenIs(clock: seq<nat>, windowNs: nat, n: nat)
    requires n <= |clock| && forall i :: 0 <= i < n - 1 ==> clock[i] < windowNs
    requires n == |clock| || (n > 0 && clock[n - 1] >= windowNs)
    ensures TicksTaken(clock, windowNs) == n
  {
    if |clock| > 0 && clock[0] < windowNs {
      TicksTakenIs(clock[1..], windowNs, n - 1);
    }
  }

  /** Ticking once a second, the sampler records one entry for each second of the window. */
  lemma OneSampleASecond(clock: seq<nat>, seconds: nat)
    requires 0 < seconds <= |clock|
    requires forall i :: 0 <= i < |clock| ==> clock[i] == (i + 1) * 1000000000
    ensures TicksTaken(clock, seconds * 1000000000) == seconds
  {
    TicksTakenIs(clock, seconds * 1000000000, seconds);
  }

  /** What a tick at `nowNs` records when the tick before it was at `lastNs`: the bytes of
      the interval and their rate over it. */
  ghost predicate SampleFits(s: Sample, bytes: nat, nowNs: nat, lastNs: nat) {
    && s.tNs == nowNs && s.bytes == bytes
    && (nowNs > lastNs ==> s.bitsPerSec * (nowNs - lastNs) as real == 8.0 * bytes as real * 1000000000.0)
    && (nowNs <= lastNs ==> s.bitsPerSec == 0.0)
  }

  function MakeSample(bytes: nat, nowNs: nat, lastNs: nat): (s: Sample)
    ensures SampleFits(s, bytes, nowNs, lastNs)
  {
    Sample(nowNs, bytes, Rate(8 * bytes, SatSub(nowNs, lastNs)))
  }

  /** The tick before tick i, or the start. */
  function Before(clock: seq<nat>, i: nat): nat
    requires i <= |clock|
  {
    if i == 0 then 0 else clock[i - 1]
  }

  ghost predicate SamplesOf(samples: seq<Sample>, first: nat, totals: seq<nat>, clock: seq<nat>) {
    && |samples| == |totals| <= |clock|
    && forall i :: 0 <= i < |samples| ==>
      SampleFits(samples[i], Intervals(first, totals)[i], clock[i], Before(clock, i))
  }

  lemma SamplesSnoc(samples: seq<Sample>, first: nat, totals: seq<nat>, clock: seq<nat>, s: Sample, cur: nat)
    requires SamplesOf(samples, first, totals, clock) && |samples| < |clock|
    requires SampleFits(s, SatSub(cur, Last(first, totals)), clock[|samples|], Before(clock, |samples|))
    ensures SamplesOf(samples + [s], first, totals + [cur], clock)
  {
    hide SampleFits, Intervals;
    IntervalsSnoc(first, totals, cur);
    var r := samples + [s];
    forall i | 0 <= i < |r|
      ensures SampleFits(r[i], Intervals(first, totals + [cur])[i], clock[i], Before(clock, i))
    {
      if i < |samples| {
        assert r[i] == samples[i];
      }
    }
  }

  /** Scan s is complete and returned this total. */
  ghost predicate Returned(log: seq<Action>, n: nat, s: nat, total: nat) {
    Complete(log, s, n) && total == ScanTotal(log, s, n)
  }

  /** These totals are what scans 1, 2 and so on returned. */
  ghost predicate TotalsOfScans(log: seq<Action>, n: nat, totals: seq<nat>) {
    forall i :: 0 <= i < |totals| ==> Returned(log, n, i + 1, totals[i])
  }

  lemma ReturnedStays(before: seq<Action>, log: seq<Action>, n: nat, s: nat, total: nat)
    requires Returned(before, n, s, total) && ReadsOf(log, s, n) == ReadsOf(before, s, n)
    ensures Returned(log, n, s, total)
  {
  }

  lemma OneMoreTotal(before: seq<Action>, log: seq<Action>, n: nat, totals: seq<nat>, cur: nat)
    requires TotalsOfScans(before, n, totals)
    requires forall t: nat :: t <= |totals| ==> ReadsOf(log, t, n) == ReadsOf(before, t, n)
    requires Returned(log, n, |totals| + 1, cur)
    ensures TotalsOfScans(log, n, totals + [cur])
  {
    hide ReadsOf, Returned;
    forall i: nat | i < |totals|
      ensures Returned(log, n, i + 1, totals[i])
    {
      ReturnedStays(before, log, n, i + 1, totals[i]);
    }
  }

  /** The once-per-second sampler: a first pass, then one pass per tick until the window
      ends, recording the saturating difference each time. `clock` is its clock at each
      tick, and `env` what the other tasks do meanwhile. */
  method RunSampler(m: Meters, env: seq<seq<seq<Action>>>, clock: seq<nat>, windowNs: nat)
    returns (first: nat, ghost totals: seq<nat>, samples: seq<Sample>)
    requires m.Valid() && m.log == [] && 0 < |env| <= |m.scans| && |clock| == |env| - 1
    requires forall k :: 0 <= k < |env| ==> |env[k]| == |m.counters|
    requires forall k, i :: 0 <= k < |env| && 0 <= i < |env[k]| ==> Foreign(env[k][i], |env|)
    modifies m
    ensures m.Valid() && |m.counters| == old(|m.counters|) && |m.scans| == old(|m.scans|)
    ensures |samples| == |totals| == TicksTaken(clock, windowNs)
    ensures m.log == Passes(env[..|samples| + 1])
    ensures Returned(m.log, |m.counters|, 0, first)
    ensures TotalsOfScans(m.log, |m.counters|, totals)
    ensures forall i :: 0 <= i < |samples| ==>
      SampleFits(samples[i], Intervals(first, totals)[i], clock[i], if i == 0 then 0 else clock[i - 1])
    ensures NonDecreasing(first, totals)
    ensures first + Sum(Intervals(first, totals)) == Last(first, totals) <= TrueTotal(m.log, |m.counters|)
  {
    hide ReadsOf, Counts, Count, Intervals, SampleFits, SamplesOf, TicksTaken, Pass, Passes, TrueTotal;
    hide TotalsOfScans;
    ghost var n := |m.counters|;
    NothingRead(n);
    first := TotalOnce(m, |env|, 0, env[0]);
    FirstPass(env);
    assert [] + Pass(env[0], 0) == Pass(env[0], 0);
    totals, samples := [], [];
    NoTotals(m.log, n);
    NoSamples(first, clock);
    var last, lastNs, k, over := first, 0, 0, false;
    while k < |clock| && !over
      invariant k <= |clock| && m.Valid() && |m.counters| == n && |m.scans| == old(|m.scans|)
      invariant m.log == Passes(env[..k + 1])
      invariant forall t :: k < t < |env| ==> ReadsOf(m.log, t, n) == []
      invariant Returned(m.log, n, 0, first)
      invariant TotalsOfScans(m.log, n, totals)
      invariant |samples| == |totals| == k && last == Last(first, totals)
      invariant lastNs == Before(clock, k)
      invariant SamplesOf(samples, first, totals, clock)
      invariant NonDecreasing(first, totals)
      invariant last <= TrueTotal(m.log, n)
      invariant forall i :: 0 <= i < k - 1 ==> clock[i] < windowNs
      invariant over <==> k > 0 && clock[k - 1] >= windowNs
    {
      var now := clock[k];
      ghost var before := m.log;
      var cur := TotalOnce(m, |env|, k + 1, env[k + 1]);
      ReturnedStays(before, m.log, n, 0, first);
      OneMoreTotal(before, m.log, n, totals, cur);
      PassesSnoc(env, k + 1);
      var s := MakeSample(SatSub(cur, last), now, lastNs);
      SamplesSnoc(samples, first, totals, clock, s, cur);
      samples := samples + [s];
      totals := totals + [cur];
      last, lastNs, k := cur, now, k + 1;
      over := now >= windowNs;
    }
    TicksTakenIs(clock, windowNs, k);
    IntervalsAddUp(first, totals);
    SamplesAre(samples, first, totals, clock);
  }

  lemma SamplesAre(samples: seq<Sample>, first: nat, totals: seq<nat>, clock: seq<nat>)
    requires SamplesOf(samples, first, totals, clock)
    ensures |samples| == |totals| <= |clock|
    ensures forall i :: 0 <= i < |samples| ==>
      SampleFits(samples[i], Intervals(first, totals)[i], clock[i], if i == 0 then 0 else clock[i - 1])
  {
    hide SampleFits;
  }

  lemma NoSamples(first: nat, clock: seq<nat>)
    ensures SamplesOf([], first, [], clock)
  {
  }

  lemma NoTotals(log: seq<Action>, n: nat)
    ensures TotalsOfScans(log, n, [])
  {
  }

  lemma NothingRead(n: nat)
    ensures forall t: nat :: ReadsOf([], t, n) == []
  {
  }
}
