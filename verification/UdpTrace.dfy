/** What the UDP receiver is meant to report, defined over the whole trace of
    arrivals: sets of sequence numbers for loss, weighted sums for jitter. */
module UdpTrace {
  import opened Bytes

  /** One received datagram: its header, its arrival stamp and its length. */
  datatype Arrival = Arrival(seqNo: u64, sendNs: u64, recvNs: u64, len: nat)

  /** The arrivals that the warm-up threshold w lets through. */
  function InWindow(w: nat, tr: seq<Arrival>): seq<Arrival> {
    if |tr| == 0 then []
    else
      var front := InWindow(w, tr[..|tr| - 1]);
      var p := tr[|tr| - 1];
      if p.seqNo < w then front else front + [p]
  }

  lemma {:induction false} InWindowMembers(w: nat, tr: seq<Arrival>)
    ensures forall p :: p in InWindow(w, tr) <==> p in tr && p.seqNo >= w
  {
    if |tr| > 0 {
      var front, p := tr[..|tr| - 1], tr[|tr| - 1];
      InWindowMembers(w, front);
      assert tr == front + [p];
    }
  }

  function TotalLen(tr: seq<Arrival>): nat {
    if |tr| == 0 then 0 else TotalLen(tr[..|tr| - 1]) + tr[|tr| - 1].len
  }

  function SeqNos(tr: seq<Arrival>): (s: set<int>) {
    set p | p in tr :: p.seqNo
  }

  // ---- Loss -------------------------------------------------------------------

  lemma NonEmpty(s: set<int>)
    requires s != {}
    ensures exists x :: x in s
  {
    if forall x :: x !in s {
      assert false;
    }
  }

  ghost function Least(s: set<int>): (m: int)
    requires s != {}
    ensures m in s && forall x :: x in s ==> m <= x
  {
    NonEmpty(s);
    var x :| x in s;
    if s == {x} then x
    else
      var rest := s - {x};
      assert s == rest + {x};
      var m := Least(rest);
      if x < m then x else m
  }

  ghost function Greatest(s: set<int>): (m: int)
    requires s != {}
    ensures m in s && forall x :: x in s ==> x <= m
  {
    NonEmpty(s);
    var x :| x in s;
    if s == {x} then x
    else
      var rest := s - {x};
      assert s == rest + {x};
      var m := Greatest(rest);
      if x > m then x else m
  }

  function RangeSet(lo: int, hi: int): (r: set<int>)
    ensures forall x :: x in r <==> lo <= x < hi
    decreases hi - lo
  {
    if lo >= hi then {} else RangeSet(lo, hi - 1) + {hi - 1}
  }

  lemma {:induction false} RangeSize(lo: int, hi: int)
    requires lo <= hi
    ensures |RangeSet(lo, hi)| == hi - lo
    decreases hi - lo
  {
    if lo < hi {
      RangeSize(lo, hi - 1);
    }
  }

  /** The sequence numbers between the smallest and the largest seen that were not seen. */
  ghost function Missing(s: set<int>): set<int> {
    if s == {} then {} else RangeSet(Least(s), Greatest(s) + 1) - s
  }

  /** The length of the span seen. */
  ghost function Expected(s: set<int>): nat {
    if s == {} then 0 else Greatest(s) - Least(s) + 1
  }

  ghost function Duplicates(tr: seq<Arrival>): int {
    |tr| - |SeqNos(tr)|
  }

  /** A span is the distinct numbers seen plus the missing ones. */
  lemma ExpectedIsSeenPlusMissing(s: set<int>)
    ensures Expected(s) == |s| + |Missing(s)|
  {
    if s != {} {
      var lo, hi := Least(s), Greatest(s) + 1;
      RangeSize(lo, hi);
      assert RangeSet(lo, hi) == s + Missing(s);
    }
  }

  lemma SeqNosSnoc(tr: seq<Arrival>, p: Arrival)
    ensures SeqNos(tr + [p]) == SeqNos(tr) + {p.seqNo}
  {
  }

  lemma DistinctSnoc(tr: seq<Arrival>, p: Arrival)
    ensures Distinct(tr + [p]) <==> Distinct(tr) && p.seqNo !in SeqNos(tr)
  {
    var r := tr + [p];
    if Distinct(r) {
      assert forall i :: 0 <= i < |tr| ==> r[i] == tr[i];
      forall q | q in tr
        ensures q.seqNo != p.seqNo
      {
        var i :| 0 <= i < |tr| && tr[i] == q;
        assert r[i] == q && r[|tr|] == p;
      }
    }
    if Distinct(tr) && p.seqNo !in SeqNos(tr) {
      forall i, j | 0 <= i < j < |r|
        ensures r[i].seqNo != r[j].seqNo
      {
        assert r[i] == tr[i] && tr[i] in tr;
      }
    }
  }

  lemma {:induction false} DistinctAtMostReceived(tr: seq<Arrival>)
    ensures |SeqNos(tr)| <= |tr|
    ensures |SeqNos(tr)| == |tr| <==> Distinct(tr)
  {
    if |tr| > 0 {
      var front, p := tr[..|tr| - 1], tr[|tr| - 1];
      DistinctAtMostReceived(front);
      assert tr == front + [p];
      SeqNosSnoc(front, p);
      DistinctSnoc(front, p);
      hide SeqNos, Distinct;
    }
  }

  ghost predicate Distinct(tr: seq<Arrival>) {
    forall i, j :: 0 <= i < j < |tr| ==> tr[i].seqNo != tr[j].seqNo
  }

  /** The span as the receiver computes it in u64: it wraps when both ends of the
      number space were seen. */
  ghost function ReportedExpected(tr: seq<Arrival>): nat {
    Expected(SeqNos(tr)) % TWO64
  }

  ghost function ReportedLost(tr: seq<Arrival>): nat {
    if ReportedExpected(tr) >= |tr| then ReportedExpected(tr) - |tr| else 0
  }

  /** Both ends of the number space arrived. */
  ghost predicate SpansAll(tr: seq<Arrival>) {
    0 in SeqNos(tr) && TWO64 - 1 in SeqNos(tr)
  }

  /** The u64 span is the true span unless sequence numbers 0 and 2^64 - 1 both arrived. */
  lemma SpanExact(tr: seq<Arrival>)
    ensures Expected(SeqNos(tr)) <= TWO64
    ensures ReportedExpected(tr) == Expected(SeqNos(tr)) <==> !SpansAll(tr)
  {
    var s := SeqNos(tr);
    assert forall x :: x in s ==> 0 <= x < TWO64;
    if s != {} {
      assert Expected(s) == TWO64 ==> Least(s) == 0 && Greatest(s) == TWO64 - 1;
    }
  }

  /** Loss against the sets, for any trace with duplicates, reordering and any numbers:
      missing less duplicates, cut at zero; a span that wraps counts as nothing. */
  lemma LossAgainstSets(tr: seq<Arrival>)
    ensures Duplicates(tr) >= 0
    ensures ReportedExpected(tr) == if SpansAll(tr) then 0 else |SeqNos(tr)| + |Missing(SeqNos(tr))|
    ensures ReportedLost(tr) ==
      if SpansAll(tr) || |Missing(SeqNos(tr))| < Duplicates(tr) then 0
      else |Missing(SeqNos(tr))| - Duplicates(tr)
  {
    SpanExact(tr);
    ExpectedIsSeenPlusMissing(SeqNos(tr));
    DistinctAtMostReceived(tr);
  }

  /** The reported loss is the number of missing packets exactly when nothing is
      missing, or nothing was duplicated and the span did not wrap; a duplicate
      otherwise hides a loss. */
  lemma LossExactIff(tr: seq<Arrival>)
    ensures ReportedLost(tr) <= |Missing(SeqNos(tr))|
    ensures ReportedLost(tr) == |Missing(SeqNos(tr))|
      <==> Missing(SeqNos(tr)) == {} || (Distinct(tr) && !SpansAll(tr))
  {
    DistinctAtMostReceived(tr);
    LossAgainstSets(tr);
  }

  /** Three arrivals numbered 0, 2, 2: number 1 is missing, yet no loss is reported. */
  lemma DuplicateHidesLoss(sendNs: u64, recvNs: u64, len: nat)
    ensures
      var tr := [Arrival(0, sendNs, recvNs, len), Arrival(2, sendNs, recvNs, len), Arrival(2, sendNs, recvNs, len)];
      && Missing(SeqNos(tr)) == {1}
      && ReportedLost(tr) == 0
  {
    var tr := [Arrival(0, sendNs, recvNs, len), Arrival(2, sendNs, recvNs, len), Arrival(2, sendNs, recvNs, len)];
    var s := SeqNos(tr);
    assert s == {0, 2} by {
      assert tr[0] in tr && tr[1] in tr;
    }
    LeastIs(s, 0);
    GreatestIs(s, 2);
    assert Missing(s) == {1};
  }

  /** A first and a last number that are the ends of the number space: every number
      between is missing, yet the span wraps to nothing and no loss is reported. */
  lemma FullSpanWraps(sendNs: u64, recvNs: u64, len: nat)
    ensures
      var tr := [Arrival(0, sendNs, recvNs, len), Arrival(TWO64 - 1, sendNs, recvNs, len)];
      && |Missing(SeqNos(tr))| == TWO64 - 2
      && ReportedExpected(tr) == 0 && ReportedLost(tr) == 0
  {
    var tr := [Arrival(0, sendNs, recvNs, len), Arrival(TWO64 - 1, sendNs, recvNs, len)];
    var s := SeqNos(tr);
    assert s == {0, TWO64 - 1} by {
      assert tr[0] in tr && tr[1] in tr;
    }
    LeastIs(s, 0);
    GreatestIs(s, TWO64 - 1);
    ExpectedIsSeenPlusMissing(s);
    LossAgainstSets(tr);
  }

  // ---- Order independence and the warm-up filter --------------------------------

  ghost function Bag(tr: seq<Arrival>): multiset<Arrival> {
    multiset(tr)
  }

  lemma {:induction false} InWindowBag(w: nat, tr: seq<Arrival>, p: Arrival)
    ensures Bag(InWindow(w, tr))[p] == if p.seqNo >= w then Bag(tr)[p] else 0
  {
    if |tr| > 0 {
      InWindowBag(w, tr[..|tr| - 1], p);
      assert tr == tr[..|tr| - 1] + [tr[|tr| - 1]];
    }
  }

  lemma {:induction false} TotalLenOfBag(a: seq<Arrival>, b: seq<Arrival>)
    requires Bag(a) == Bag(b)
    ensures TotalLen(a) == TotalLen(b)
    decreases |a|
  {
    assert |Bag(b)| == |Bag(a)|;
    if |a| > 0 {
      var p := a[|a| - 1];
      assert a == a[..|a| - 1] + [p];
      assert p in Bag(b);
      var k :| 0 <= k < |b| && b[k] == p;
      var rest := b[..k] + b[k + 1..];
      assert b == b[..k] + [p] + b[k + 1..];
      assert Bag(rest) == Bag(b) - multiset{p};
      assert Bag(a[..|a| - 1]) == Bag(a) - multiset{p};
      TotalLenOfBag(a[..|a| - 1], rest);
      TotalLenConcat(b[..k], b[k + 1..]);
      TotalLenConcat(b[..k] + [p], b[k + 1..]);
      TotalLenSnoc(b[..k], p);
    }
  }

  lemma TotalLenSnoc(a: seq<Arrival>, p: Arrival)
    ensures TotalLen(a + [p]) == TotalLen(a) + p.len
  {
    assert (a + [p])[..|a|] == a;
  }

  lemma {:induction false} TotalLenConcat(a: seq<Arrival>, b: seq<Arrival>)
    ensures TotalLen(a + b) == TotalLen(a) + TotalLen(b)
  {
    if |b| == 0 {
      assert a + b == a;
    } else {
      var c, p := b[..|b| - 1], b[|b| - 1];
      TotalLenConcat(a, c);
      TotalLenSnoc(a + c, p);
      TotalLenSnoc(c, p);
      assert b == c + [p];
      assert a + b == (a + c) + [p];
      hide TotalLen;
    }
  }

  /** Reordering a trace changes none of the loss and byte figures. */
  lemma OrderIndependent(w: nat, a: seq<Arrival>, b: seq<Arrival>)
    requires Bag(a) == Bag(b)
    ensures TotalLen(InWindow(w, a)) == TotalLen(InWindow(w, b))
    ensures |InWindow(w, a)| == |InWindow(w, b)|
    ensures SeqNos(InWindow(w, a)) == SeqNos(InWindow(w, b))
    ensures ReportedExpected(InWindow(w, a)) == ReportedExpected(InWindow(w, b))
    ensures ReportedLost(InWindow(w, a)) == ReportedLost(InWindow(w, b))
  {
    var x, y := InWindow(w, a), InWindow(w, b);
    forall p: Arrival
      ensures Bag(x)[p] == Bag(y)[p]
    {
      InWindowBag(w, a, p);
      InWindowBag(w, b, p);
    }
    assert Bag(x) == Bag(y);
    TotalLenOfBag(x, y);
    assert |x| == |Bag(x)| && |y| == |Bag(y)|;
    forall p
      ensures p in x <==> p in y
    {
      assert p in x <==> p in Bag(x);
      assert p in y <==> p in Bag(y);
    }
  }

  /** Filtering twice is filtering once. */
  lemma {:induction false} InWindowTwice(w: nat, tr: seq<Arrival>)
    ensures InWindow(0, InWindow(w, tr)) == InWindow(w, tr)
  {
    if |tr| > 0 {
      var front, p := tr[..|tr| - 1], tr[|tr| - 1];
      InWindowTwice(w, front);
      if p.seqNo >= w {
        var r := InWindow(w, front) + [p];
        assert r[..|r| - 1] == InWindow(w, front);
      }
    }
  }

  lemma InWindowSnoc(w: nat, tr: seq<Arrival>, p: Arrival)
    ensures InWindow(w, tr + [p]) == if p.seqNo < w then InWindow(w, tr) else InWindow(w, tr) + [p]
  {
    assert (tr + [p])[..|tr|] == tr;
  }

  lemma {:induction false} InWindowConcat(w: nat, a: seq<Arrival>, b: seq<Arrival>)
    ensures InWindow(w, a + b) == InWindow(w, a) + InWindow(w, b)
  {
    if |b| == 0 {
      assert a + b == a;
    } else {
      var c, p := b[..|b| - 1], b[|b| - 1];
      InWindowConcat(w, a, c);
      hide InWindow;
      assert a + b == (a + c) + [p];
      assert b == c + [p];
      InWindowSnoc(w, a + c, p);
      InWindowSnoc(w, c, p);
      var x, y := InWindow(w, a), InWindow(w, c);
      assert x + (y + [p]) == (x + y) + [p];
    }
  }

  // ---- Running loss -------------------------------------------------------------

  ghost predicate Increasing(tr: seq<Arrival>) {
    forall i, j :: 0 <= i < j < |tr| ==> tr[i].seqNo < tr[j].seqNo
  }

  lemma LeastIs(s: set<int>, m: int)
    requires m in s && forall x :: x in s ==> m <= x
    ensures Least(s) == m
  {
  }

  lemma GreatestIs(s: set<int>, m: int)
    requires m in s && forall x :: x in s ==> x <= m
    ensures Greatest(s) == m
  {
  }

  lemma LeastInsert(s: set<int>, x: int)
    ensures Least(s + {x}) == if s == {} || x <= Least(s) then x else Least(s)
  {
    LeastIs(s + {x}, if s == {} || x <= Least(s) then x else Least(s));
  }

  lemma GreatestInsert(s: set<int>, x: int)
    ensures Greatest(s + {x}) == if s == {} || x >= Greatest(s) then x else Greatest(s)
  {
    GreatestIs(s + {x}, if s == {} || x >= Greatest(s) then x else Greatest(s));
  }

  lemma IncreasingEnds(tr: seq<Arrival>)
    requires Increasing(tr) && |tr| > 0
    ensures Expected(SeqNos(tr)) == tr[|tr| - 1].seqNo - tr[0].seqNo + 1
  {
    var s := SeqNos(tr);
    assert tr[0] in tr && tr[|tr| - 1] in tr;
    forall x | x in s
      ensures tr[0].seqNo <= x <= tr[|tr| - 1].seqNo
    {
      var p :| p in tr && p.seqNo == x;
      var i :| 0 <= i < |tr| && tr[i] == p;
    }
    LeastIs(s, tr[0].seqNo);
    GreatestIs(s, tr[|tr| - 1].seqNo);
  }

  lemma {:induction false} IncreasingSpan(tr: seq<Arrival>)
    requires Increasing(tr) && |tr| > 0
    ensures |tr| <= tr[|tr| - 1].seqNo - tr[0].seqNo + 1
  {
    if |tr| > 1 {
      var front := tr[..|tr| - 1];
      assert Increasing(front);
      IncreasingSpan(front);
    }
  }

  lemma PrefixSpansLess(tr: seq<Arrival>, m: nat)
    requires !SpansAll(tr) && m <= |tr|
    ensures !SpansAll(tr[..m])
  {
    assert forall p :: p in tr[..m] ==> p in tr;
  }

  lemma IncreasingLost(tr: seq<Arrival>)
    requires Increasing(tr) && !SpansAll(tr) && |tr| > 0
    ensures ReportedLost(tr) == tr[|tr| - 1].seqNo - tr[0].seqNo + 1 - |tr|
  {
    SpanExact(tr);
    IncreasingEnds(tr);
    IncreasingSpan(tr);
    hide SeqNos, Expected, ReportedExpected;
  }

  lemma SpansAllLosesNothing(tr: seq<Arrival>)
    requires SpansAll(tr)
    ensures ReportedLost(tr) == 0
  {
    SpanExact(tr);
    DistinctAtMostReceived(tr);
  }

  lemma ProperPrefixSpansLess(tr: seq<Arrival>, m: nat)
    requires Increasing(tr) && m < |tr|
    ensures !SpansAll(tr[..m])
  {
    forall p | p in tr[..m]
      ensures p.seqNo < TWO64 - 1
    {
      var i :| 0 <= i < m && tr[i] == p;
      assert tr[i].seqNo < tr[m].seqNo;
    }
  }

  lemma PrefixLost(tr: seq<Arrival>, m: nat)
    requires Increasing(tr) && 0 < m < |tr|
    ensures ReportedLost(tr[..m]) == tr[m - 1].seqNo - tr[0].seqNo + 1 - m
    ensures !SpansAll(tr) ==> ReportedLost(tr[..m]) <= ReportedLost(tr)
  {
    hide ReportedLost, SpansAll;
    ProperPrefixSpansLess(tr, m);
    IncreasingLost(tr[..m]);
    if !SpansAll(tr) {
      IncreasingLost(tr);
      IncreasingSpan(tr[m - 1..]);
    }
  }

  lemma NoArrivals()
    ensures SeqNos([]) == {} && ReportedLost([]) == 0
  {
  }

  /** In-order arrivals never lower the running loss, except that the arrival which makes
      the span wrap takes it from the gaps seen so far to zero. */
  lemma RunningLossGrows(tr: seq<Arrival>, m: nat)
    requires Increasing(tr) && m <= |tr|
    ensures ReportedLost(tr[..m]) <= ReportedLost(tr) <==>
      m == 0 || m == |tr| || !SpansAll(tr) || tr[m - 1].seqNo - tr[0].seqNo + 1 == m
  {
    hide ReportedLost, SpansAll, Increasing;
    if m == 0 {
      NoArrivals();
      assert tr[..m] == [];
    } else if m == |tr| {
      assert tr[..m] == tr;
    } else {
      PrefixLost(tr, m);
      if SpansAll(tr) {
        SpansAllLosesNothing(tr);
      }
    }
  }

  // ---- Jitter -------------------------------------------------------------------

  const TWO63: nat := 0x8000_0000_0000_0000

  type i64 = n: int | -0x8000_0000_0000_0000 <= n < 0x8000_0000_0000_0000

  predicate InI64(x: int) {
    -0x8000_0000_0000_0000 <= x < 0x8000_0000_0000_0000
  }

  /** Reduction to the i64 that a wrapping operation leaves. */
  function WrapI64(x: int): i64 {
    (x + TWO63) % TWO64 - TWO63
  }

  function Abs(x: int): nat {
    if x < 0 then -x else x
  }

  /** Transit time as the receiver computes it: two casts and a subtraction in i64. */
  function TransitNs(sendNs: u64, recvNs: u64): i64 {
    WrapI64(WrapI64(recvNs) - WrapI64(sendNs))
  }

  function Transit(p: Arrival): i64 {
    TransitNs(p.sendNs, p.recvNs)
  }

  /** |D| as the receiver computes it: a subtraction and an absolute value in i64. */
  function AbsDelta(prev: i64, transit: i64): i64 {
    WrapI64(Abs(WrapI64(transit - prev)))
  }

  /** D(i-1, i) of section 6.4.1 of RFC 3550, over the integers. */
  function Delta(p: Arrival, q: Arrival): int {
    (q.recvNs - p.recvNs) - (q.sendNs - p.sendNs)
  }

  lemma WrapCongruent(x: int, y: int)
    ensures WrapI64(x) == WrapI64(y) <==> (x - y) % TWO64 == 0
    ensures (WrapI64(x) - x) % TWO64 == 0
    ensures WrapI64(x) == x <==> InI64(x)
  {
  }

  lemma WrapAbsorbs(x: int, y: int)
    ensures WrapI64(WrapI64(x) - WrapI64(y)) == WrapI64(x - y)
  {
    WrapCongruent(x, 0);
    WrapCongruent(y, 0);
    WrapCongruent(WrapI64(x) - WrapI64(y), x - y);
    DifferenceOfMultiples(WrapI64(x) - x, WrapI64(y) - y);
  }

  lemma DifferenceOfMultiples(a: int, b: int)
    requires a % TWO64 == 0 && b % TWO64 == 0
    ensures (a - b) % TWO64 == 0
  {
  }

  /** However the intermediate steps wrap, |D| depends on D modulo 2^64 only. */
  lemma AbsDeltaOfDelta(p: Arrival, q: Arrival)
    ensures AbsDelta(Transit(p), Transit(q)) == WrapI64(Abs(WrapI64(Delta(p, q))))
  {
    hide WrapI64;
    WrapAbsorbs(p.recvNs, p.sendNs);
    WrapAbsorbs(q.recvNs, q.sendNs);
    WrapAbsorbs(q.recvNs - q.sendNs, p.recvNs - p.sendNs);
    assert Delta(p, q) == (q.recvNs - q.sendNs) - (p.recvNs - p.sendNs);
  }

  /** The i64 computation yields |D| exactly when |D| fits in an i64. */
  lemma AbsDeltaExact(p: Arrival, q: Arrival)
    ensures AbsDelta(Transit(p), Transit(q)) == Abs(Delta(p, q)) <==> Abs(Delta(p, q)) < TWO63
  {
    AbsDeltaOfDelta(p, q);
    var d := Delta(p, q);
    WrapCongruent(d, d);
    WrapCongruent(Abs(d), 0);
    WrapCongruent(Abs(WrapI64(d)), 0);
    hide WrapI64, AbsDelta, Delta, Transit;
  }

  /** At |D| = 2^63 the computed absolute value wraps to a negative number. */
  lemma AbsDeltaWraps(len: nat)
    ensures
      var p, q := Arrival(0, 0, 0, len), Arrival(1, 0, TWO63, len);
      Delta(p, q) == TWO63 && AbsDelta(Transit(p), Transit(q)) == -0x8000_0000_0000_0000
  {
    var p, q := Arrival(0, 0, 0, len), Arrival(1, 0, TWO63, len);
    hide AbsDelta, Transit;
    AbsDeltaOfDelta(p, q);
    assert Delta(p, q) == TWO63 && WrapI64(TWO63) == -0x8000_0000_0000_0000;
  }

  ghost predicate StampsInRange(tr: seq<Arrival>) {
    forall p :: p in tr ==> p.sendNs < 0x4000_0000_0000_0000 && p.recvNs < 0x4000_0000_0000_0000
  }

  /** With stamps below 2^62 no step wraps. */
  lemma NoWrapBelow2To62(p: Arrival, q: Arrival)
    requires StampsInRange([p, q])
    ensures Transit(p) == p.recvNs - p.sendNs
    ensures AbsDelta(Transit(p), Transit(q)) == Abs(Delta(p, q))
  {
    assert p in [p, q] && q in [p, q];
    WrapCongruent(p.recvNs, 0);
    WrapCongruent(p.sendNs, 0);
    WrapCongruent(p.recvNs - p.sendNs, 0);
    AbsDeltaExact(p, q);
    hide WrapI64, AbsDelta;
  }

  /** The |D| values of a trace, one per arrival after the first. */
  function Deltas(tr: seq<Arrival>): (ds: seq<real>)
    ensures |ds| == if |tr| == 0 then 0 else |tr| - 1
  {
    if |tr| == 0 then []
    else seq(|tr| - 1, k requires 0 <= k < |tr| - 1 => AbsDelta(Transit(tr[k]), Transit(tr[k + 1])) as real)
  }

  /** (15/16)^n */
  function Decay(n: nat): (d: real)
    ensures 0.0 < d <= 1.0
  {
    if n == 0 then 1.0 else Decay(n - 1) * 15.0 / 16.0
  }

  function Scaled(c: real, d: real): real {
    c * d
  }

  /** What a |D| counts for n arrivals later. */
  function Weighted(n: nat, d: real): real {
    Scaled(Decay(n), d)
  }

  /** The closed form: the sum of (1/16) (15/16)^(n-k) |D_k| for k = 1..n. */
  function Jitter(ds: seq<real>): real {
    if |ds| == 0 then 0.0 else Weighted(|ds| - 1, ds[0]) / 16.0 + Jitter(ds[1..])
  }

  lemma ScaledMonotone(c: real, x: real, y: real)
    requires c >= 0.0 && x <= y
    ensures Scaled(c, x) <= Scaled(c, y)
  {
  }

  lemma ScaledFades(c: real, d: real)
    ensures Scaled(c * 15.0 / 16.0, d) == Scaled(c, d) * 15.0 / 16.0
  {
  }

  lemma ScaledLeft(c: real, m: real)
    ensures (1.0 - c) * m == m - Scaled(c, m)
  {
  }

  lemma WeightFades(n: nat, d: real)
    ensures Weighted(n + 1, d) == Weighted(n, d) * 15.0 / 16.0
  {
    hide Scaled;
    ScaledFades(Decay(n), d);
  }

  lemma WeightMonotone(n: nat, x: real, y: real)
    requires x <= y
    ensures Weighted(n, x) <= Weighted(n, y)
  {
    hide Scaled, Decay;
    ScaledMonotone(Decay(n), x, y);
  }

  lemma WeightOfZero(n: nat)
    ensures Weighted(n, 0.0) == 0.0
  {
  }

  lemma FullWeight(d: real)
    ensures Weighted(0, d) == d
  {
  }

  lemma WeightLeft(n: nat, m: real)
    ensures (1.0 - Decay(n)) * m == m - Weighted(n, m)
  {
    hide Scaled, Decay;
    ScaledLeft(Decay(n), m);
  }

  /** The closed form obeys the recurrence of section 6.4.1 of RFC 3550. */
  lemma {:induction false} JitterRecurrence(ds: seq<real>, d: real)
    ensures Jitter(ds + [d]) == Jitter(ds) + (d - Jitter(ds)) / 16.0
  {
    hide Weighted, Decay;
    if |ds| == 0 {
      FullWeight(d);
      assert ds + [d] == [d];
      assert [d][1..] == [];
    } else {
      JitterRecurrence(ds[1..], d);
      assert (ds + [d])[1..] == ds[1..] + [d];
      assert (ds + [d])[0] == ds[0];
      WeightFades(|ds| - 1, ds[0]);
    }
  }

  ghost predicate Bounded(ds: seq<real>, m: real) {
    forall k :: 0 <= k < |ds| ==> 0.0 <= ds[k] <= m
  }

  /** The estimate stays between 0 and (1 - (15/16)^n) times the largest |D|. */
  lemma {:induction false} JitterBounds(ds: seq<real>, m: real)
    requires Bounded(ds, m) && m >= 0.0
    ensures 0.0 <= Jitter(ds) <= (1.0 - Decay(|ds|)) * m
  {
    hide Weighted, Decay;
    WeightLeft(|ds|, m);
    if |ds| == 0 {
      FullWeight(m);
    } else {
      JitterBounds(ds[1..], m);
      WeightLeft(|ds| - 1, m);
      WeightOfZero(|ds| - 1);
      WeightMonotone(|ds| - 1, 0.0, ds[0]);
      WeightMonotone(|ds| - 1, ds[0], m);
      WeightFades(|ds| - 1, m);
    }
  }

  /** The bound is met by a constant |D|. */
  lemma {:induction false} JitterOfConstant(ds: seq<real>, m: real)
    requires forall k :: 0 <= k < |ds| ==> ds[k] == m
    ensures Jitter(ds) == (1.0 - Decay(|ds|)) * m
  {
    hide Weighted, Decay;
    WeightLeft(|ds|, m);
    if |ds| == 0 {
      FullWeight(m);
    } else {
      JitterOfConstant(ds[1..], m);
      WeightLeft(|ds| - 1, m);
      WeightFades(|ds| - 1, m);
    }
  }

  /** Raising any |D| never lowers the estimate. */
  lemma {:induction false} JitterMonotone(ds: seq<real>, es: seq<real>)
    requires |ds| == |es|
    requires forall k :: 0 <= k < |ds| ==> ds[k] <= es[k]
    ensures Jitter(ds) <= Jitter(es)
  {
    hide Weighted, Decay;
    if |ds| > 0 {
      JitterMonotone(ds[1..], es[1..]);
      WeightMonotone(|ds| - 1, ds[0], es[0]);
    }
  }

  /** Every arrival restamped by two clocks that run ahead by `send` and `recv`. */
  function Shift(tr: seq<Arrival>, send: int, recv: int): (r: seq<Arrival>)
    ensures |r| == |tr|
  {
    seq(|tr|, i requires 0 <= i < |tr| =>
      tr[i].(sendNs := (tr[i].sendNs + send) % TWO64, recvNs := (tr[i].recvNs + recv) % TWO64))
  }

  lemma ModShift(a: u64, b: u64, c: int)
    ensures ((((a + c) % TWO64) - ((b + c) % TWO64)) - (a - b)) % TWO64 == 0
  {
  }

  lemma ShiftKeepsAbsDelta(p: Arrival, q: Arrival, p': Arrival, q': Arrival, send: int, recv: int)
    requires p'.sendNs == (p.sendNs + send) % TWO64 && p'.recvNs == (p.recvNs + recv) % TWO64
    requires q'.sendNs == (q.sendNs + send) % TWO64 && q'.recvNs == (q.recvNs + recv) % TWO64
    ensures AbsDelta(Transit(p'), Transit(q')) == AbsDelta(Transit(p), Transit(q))
  {
    hide AbsDelta, Transit;
    AbsDeltaOfDelta(p, q);
    AbsDeltaOfDelta(p', q');
    ModShift(q.recvNs, p.recvNs, recv);
    ModShift(q.sendNs, p.sendNs, send);
    var r := (q'.recvNs - p'.recvNs) - (q.recvNs - p.recvNs);
    var s := (q'.sendNs - p'.sendNs) - (q.sendNs - p.sendNs);
    DifferenceOfMultiples(r, s);
    assert Delta(p', q') - Delta(p, q) == r - s;
    WrapCongruent(Delta(p', q'), Delta(p, q));
    hide WrapI64;
  }

  /** The two clocks need not agree: any offsets, even ones that wrap, leave the
      jitter of the whole run unchanged. */
  lemma ClockOffsetsCancel(tr: seq<Arrival>, send: int, recv: int)
    ensures Deltas(Shift(tr, send, recv)) == Deltas(tr)
    ensures Jitter(Deltas(Shift(tr, send, recv))) == Jitter(Deltas(tr))
  {
    hide AbsDelta, Transit;
    var sh := Shift(tr, send, recv);
    forall k | 0 <= k < |tr| - 1
      ensures Deltas(sh)[k] == Deltas(tr)[k]
    {
      ShiftKeepsAbsDelta(tr[k], tr[k + 1], sh[k], sh[k + 1], send, recv);
    }
  }

  /** If every packet's transit time lies within a band of width v, the jitter is
      at most (1 - (15/16)^n) v; a constant delay gives zero. */
  lemma JitterOfBoundedDelay(tr: seq<Arrival>, a: int, v: nat)
    requires v < TWO63
    requires forall p :: p in tr ==> a <= p.recvNs - p.sendNs <= a + v
    ensures 0.0 <= Jitter(Deltas(tr)) <= (1.0 - Decay(|Deltas(tr)|)) * v as real
  {
    hide AbsDelta, Transit;
    var ds := Deltas(tr);
    forall k | 0 <= k < |ds|
      ensures 0.0 <= ds[k] <= v as real
    {
      assert tr[k] in tr && tr[k + 1] in tr;
      BandDelta(tr[k], tr[k + 1], a, v);
    }
    JitterBounds(ds, v as real);
  }

  lemma BandDelta(p: Arrival, q: Arrival, a: int, v: nat)
    requires v < TWO63
    requires a <= p.recvNs - p.sendNs <= a + v && a <= q.recvNs - q.sendNs <= a + v
    ensures 0 <= AbsDelta(Transit(p), Transit(q)) <= v
  {
    hide AbsDelta, Transit, WrapI64;
    AbsDeltaExact(p, q);
  }

  lemma DeltasSnoc(tr: seq<Arrival>, p: Arrival)
    ensures Deltas(tr + [p]) ==
      if |tr| == 0 then [] else Deltas(tr) + [AbsDelta(Transit(tr[|tr| - 1]), Transit(p)) as real]
  {
  }
}
