/** Retransmission passes give up on a silent peer in bounded time, and not before. */
module Retransmission {
  import opened Widths
  import opened RttEstimator
  import opened ReliableSender

  /** A timeout in nanoseconds. */
  function Nanos(rto: nat): nat {
    rto * 1_000_000
  }

  /** The sender, when each of its unacknowledged segments was first tracked, and when the
      last retransmission pass began. */
  datatype Ledger = Ledger(sender: Sender, births: seq<int>, lastPass: int)

  function KeptBirths(segments: seq<Segment>, births: seq<int>, ack: uint32): seq<int>
    requires |births| == |segments|
  {
    if |segments| == 0 then []
    else if segments[0].End() <= ack then KeptBirths(segments[1..], births[1..], ack)
    else [births[0]] + KeptBirths(segments[1..], births[1..], ack)
  }

  function Enter(l: Ledger, op: Op): (r: Ledger)
    requires |l.births| == |l.sender.unacked|
    ensures |r.births| == |r.sender.unacked|
  {
    SameLength(l.sender.unacked, l.births, if op.Ack? then op.ack else 0);
    Ledger(Step(l.sender, op),
           if op.GetData? && l.sender.DequeueSize(op.maxSize) > 0 then l.births + [op.now]
           else if op.Ack? && op.ack > l.sender.lastAck then KeptBirths(l.sender.unacked, l.births, op.ack)
           else l.births,
           if op.Retransmit? then op.passStart else l.lastPass)
  }

  /** A pass that begins at passStart marks the i-th segment. */
  predicate Selected(s: Sender, i: nat, passStart: int)
    requires i < |s.unacked|
  {
    Retransmittable(s.unacked[i], passStart, s.estimate.rto, s.maxRetransmits)
  }

  /** The clock hypotheses: every send and every mark happens at most period after the last
      pass began, passes do not run backwards and mark after they begin; the limit stays
      fixed, and no timeout of the run exceeds maxRto. */
  predicate Timely(l: Ledger, op: Op, period: nat, maxRto: nat) {
    match op
    case GetData(_, now) => l.lastPass <= now <= l.lastPass + period
    case Retransmit(passStart, marks) =>
      l.lastPass <= passStart
      && forall i :: 0 <= i < |l.sender.unacked| && Selected(l.sender, i, passStart) ==>
           passStart <= marks(i) <= l.lastPass + period
    case SetMaxRetransmits(_) => false
    case SetRto(rto) => rto <= maxRto
    case MeasureRtt(rtt) => Update(l.sender.estimate, rtt).rto <= maxRto
    case _ => true
  }

  /** A segment born at time b, as the last pass left it: how often it was marked bounds
      when it was last marked, and unless the limit is used up it was not overdue at that
      pass. */
  predicate SegmentOnTime(segment: Segment, b: int, lastPass: int, limit: byte, period: nat, maxRto: nat) {
    && !segment.acknowledged
    && segment.retransmits <= limit
    && b <= segment.sentTime <= b + segment.retransmits * (Nanos(maxRto) + period)
    && (segment.retransmits < limit ==> lastPass <= segment.sentTime + Nanos(maxRto))
  }

  predicate OnTime(l: Ledger, limit: byte, period: nat, maxRto: nat) {
    && |l.births| == |l.sender.unacked|
    && l.sender.maxRetransmits == limit
    && l.sender.estimate.rto <= maxRto
    && forall i :: 0 <= i < |l.births| ==>
         SegmentOnTime(l.sender.unacked[i], l.births[i], l.lastPass, limit, period, maxRto)
  }

  /** Every survivor of an acknowledgment keeps its birth. */
  lemma {:induction false} SurvivorKeepsBirth(segments: seq<Segment>, births: seq<int>, ack: uint32, i: nat)
    returns (j: nat)
    requires |births| == |segments| && i < |Kept(segments, ack)|
    ensures |KeptBirths(segments, births, ack)| == |Kept(segments, ack)|
    ensures j < |segments| && Kept(segments, ack)[i] == segments[j]
    ensures KeptBirths(segments, births, ack)[i] == births[j]
  {
    if segments[0].End() <= ack {
      var k := SurvivorKeepsBirth(segments[1..], births[1..], ack, i);
      j := k + 1;
    } else if i == 0 {
      SameLength(segments[1..], births[1..], ack);
      j := 0;
    } else {
      var k := SurvivorKeepsBirth(segments[1..], births[1..], ack, i - 1);
      j := k + 1;
    }
  }

  lemma {:induction false} SameLength(segments: seq<Segment>, births: seq<int>, ack: uint32)
    requires |births| == |segments|
    ensures |KeptBirths(segments, births, ack)| == |Kept(segments, ack)|
  {
    if |segments| > 0 {
      SameLength(segments[1..], births[1..], ack);
    }
  }

  lemma OneMore(n: int, step: int)
    ensures (n + 1) * step == n * step + step
  {
  }

  /** One pass, one segment: a mark comes more than the timeout after the previous one. */
  lemma PassKeepsOnTime(segment: Segment, b: int, lastPass: int, limit: byte, period: nat, maxRto: nat,
                        passStart: int, mark: int, rto: nat)
    requires SegmentOnTime(segment, b, lastPass, limit, period, maxRto) && rto <= maxRto
    requires lastPass <= passStart
    requires Retransmittable(segment, passStart, rto, limit) ==> passStart <= mark <= lastPass + period
    ensures SegmentOnTime(if Retransmittable(segment, passStart, rto, limit) then segment.Marked(mark) else segment,
                          b, passStart, limit, period, maxRto)
    ensures Retransmittable(segment, passStart, rto, limit) ==> mark - segment.sentTime > rto * 1_000_000
  {
    OneMore(segment.retransmits, Nanos(maxRto) + period);
    assert 0 <= rto * 1_000_000 <= Nanos(maxRto);
  }

  lemma EnterKeepsOnTime(l: Ledger, op: Op, limit: byte, period: nat, maxRto: nat)
    requires OnTime(l, limit, period, maxRto) && Timely(l, op, period, maxRto)
    ensures OnTime(Enter(l, op), limit, period, maxRto)
  {
    var l' := Enter(l, op);
    match op
    case Ack(ack) =>
      if ack > l.sender.lastAck {
        SameLength(l.sender.unacked, l.births, ack);
        forall i | 0 <= i < |l'.births|
          ensures SegmentOnTime(l'.sender.unacked[i], l'.births[i], l'.lastPass, limit, period, maxRto)
        {
          var j := SurvivorKeepsBirth(l.sender.unacked, l.births, ack, i);
        }
      }
    case Retransmit(passStart, marks) =>
      forall i | 0 <= i < |l'.births|
        ensures SegmentOnTime(l'.sender.unacked[i], l'.births[i], l'.lastPass, limit, period, maxRto)
      {
        PassKeepsOnTime(l.sender.unacked[i], l.births[i], l.lastPass, limit, period, maxRto, passStart, marks(i),
                        l.sender.estimate.rto);
      }
    case _ =>
  }

  function EnterAll(l: Ledger, ops: seq<Op>): (r: Ledger)
    requires |l.births| == |l.sender.unacked|
    ensures |r.births| == |r.sender.unacked|
  {
    if |ops| == 0 then l else Enter(EnterAll(l, ops[..|ops| - 1]), ops[|ops| - 1])
  }

  predicate TimelyRun(l: Ledger, ops: seq<Op>, period: nat, maxRto: nat)
    requires |l.births| == |l.sender.unacked|
  {
    |ops| > 0 ==>
      TimelyRun(l, ops[..|ops| - 1], period, maxRto)
      && Timely(EnterAll(l, ops[..|ops| - 1]), ops[|ops| - 1], period, maxRto)
  }

  /** Over every timely run, marks are counted, within the limit and bounded in time. */
  lemma {:induction false} RunStaysOnTime(l: Ledger, ops: seq<Op>, limit: byte, period: nat, maxRto: nat)
    requires OnTime(l, limit, period, maxRto) && TimelyRun(l, ops, period, maxRto)
    ensures OnTime(EnterAll(l, ops), limit, period, maxRto)
  {
    if |ops| > 0 {
      RunStaysOnTime(l, ops[..|ops| - 1], limit, period, maxRto);
      EnterKeepsOnTime(EnterAll(l, ops[..|ops| - 1]), ops[|ops| - 1], limit, period, maxRto);
    }
  }

  /** Bounded give-up: with passes at most period apart, a segment still unacknowledged more
      than limit * (maxRto + period) + maxRto after it was first sent makes has_timeout true. */
  lemma GivesUpInTime(l: Ledger, limit: byte, period: nat, maxRto: nat, i: nat, now: int)
    requires OnTime(l, limit, period, maxRto) && i < |l.births|
    requires now <= l.lastPass + period
    requires now > l.births[i] + limit * (Nanos(maxRto) + period) + Nanos(maxRto)
    ensures TimedOut(l.sender, now) && l.sender.unacked[i].retransmits == limit
  {
    var segment, b := l.sender.unacked[i], l.births[i];
    if segment.retransmits < limit {
      MoreMarks(segment.retransmits, limit, Nanos(maxRto) + period);
      assert false;
    }
    assert segment.Expired(now, l.sender.estimate.rto);
  }

  lemma MoreMarks(n: int, limit: int, step: int)
    requires n < limit && step >= 0
    ensures n * step + step <= limit * step
  {
    assert limit * step == n * step + step + (limit - n - 1) * step;
    assert (limit - n - 1) * step >= 0;
  }

  /** The whole story from a fresh sender: any timely run, then the deadline passes. */
  lemma SilentPeerIsNoticed(s: Sender, started: int, ops: seq<Op>, period: nat, maxRto: nat, i: nat, now: int)
    requires s.unacked == [] && s.estimate.rto <= maxRto
    requires TimelyRun(Ledger(s, [], started), ops, period, maxRto)
    requires var l := EnterAll(Ledger(s, [], started), ops);
             && i < |l.births| && now <= l.lastPass + period
             && now > l.births[i] + s.maxRetransmits * (Nanos(maxRto) + period) + Nanos(maxRto)
    ensures var l := EnterAll(Ledger(s, [], started), ops);
            l.sender == Run(s, ops) && TimedOut(l.sender, now)
  {
    RunStaysOnTime(Ledger(s, [], started), ops, s.maxRetransmits, period, maxRto);
    GivesUpInTime(EnterAll(Ledger(s, [], started), ops), s.maxRetransmits, period, maxRto, i, now);
    LedgerFollowsRun(Ledger(s, [], started), ops);
  }

  lemma {:induction false} LedgerFollowsRun(l: Ledger, ops: seq<Op>)
    requires |l.births| == |l.sender.unacked|
    ensures EnterAll(l, ops).sender == Run(l.sender, ops)
  {
    if |ops| > 0 {
      LedgerFollowsRun(l, ops[..|ops| - 1]);
    }
  }

  // ----- spacing -----

  /** All that spacing needs: passes mark after they begin and set_initial_rto sets no timeout
      below minRto. Limits may change and passes may come at any time. */
  predicate Unhurried(s: Sender, op: Op, minRto: nat) {
    match op
    case Retransmit(passStart, marks) =>
      forall i :: 0 <= i < |s.unacked| && Selected(s, i, passStart) ==> passStart <= marks(i)
    case SetRto(rto) => minRto <= rto
    case _ => true
  }

  predicate UnhurriedRun(s: Sender, ops: seq<Op>, minRto: nat) {
    |ops| > 0 ==>
      UnhurriedRun(s, ops[..|ops| - 1], minRto) && Unhurried(Run(s, ops[..|ops| - 1]), ops[|ops| - 1], minRto)
  }

  /** What one call may do to a tracked segment: nothing, or one more mark, the limit allowing,
      more than the timeout after the previous mark or the first transmission. */
  predicate Spaced(before: Segment, after: Segment, rto: nat, limit: byte) {
    || after == before
    || (after == before.Marked(after.sentTime) && after.retransmits == before.retransmits + 1 <= limit
        && after.sentTime - before.sentTime > rto * 1_000_000)
  }

  predicate Continues(l: Ledger, l': Ledger, i: nat, k: nat)
    requires |l.births| == |l.sender.unacked| && |l'.births| == |l'.sender.unacked|
  {
    && i < |l'.births| && k < |l.births| && l'.births[i] == l.births[k]
    && Spaced(l.sender.unacked[k], l'.sender.unacked[i], l.sender.estimate.rto, l.sender.maxRetransmits)
  }

  predicate New(l: Ledger, i: nat)
    requires |l.births| == |l.sender.unacked| && i < |l.births|
  {
    l.sender.unacked[i].retransmits == 0 && l.sender.unacked[i].sentTime == l.births[i]
  }

  /** From any state, each segment tracked after a call is new or continues one tracked before. */
  lemma StepSpacesMarks(l: Ledger, op: Op, i: nat)
    requires |l.births| == |l.sender.unacked| && Unhurried(l.sender, op, 0) && i < |Enter(l, op).births|
    ensures New(Enter(l, op), i) || exists k :: Continues(l, Enter(l, op), i, k)
  {
    if op.Ack? && op.ack > l.sender.lastAck {
      SameLength(l.sender.unacked, l.births, op.ack);
      var k := SurvivorKeepsBirth(l.sender.unacked, l.births, op.ack, i);
      assert Continues(l, Enter(l, op), i, k);
    } else if i < |l.births| {
      assert Continues(l, Enter(l, op), i, i);
    }
  }

  lemma {:induction false} UnhurriedAt(s: Sender, ops: seq<Op>, j: nat)
    requires UnhurriedRun(s, ops, 0) && j < |ops|
    ensures Unhurried(Run(s, ops[..j]), ops[j], 0)
  {
    var before := ops[..|ops| - 1];
    if j < |before| {
      UnhurriedAt(s, before, j);
      assert before[..j] == ops[..j];
    }
  }

  /** Over every run, from any state: between any two neighbouring calls marks are spaced by
      more than the timeout of that moment and stay within its limit. */
  lemma RunSpacesMarks(l: Ledger, ops: seq<Op>, j: nat, i: nat)
    requires |l.births| == |l.sender.unacked| && UnhurriedRun(l.sender, ops, 0)
    requires j < |ops| && i < |EnterAll(l, ops[..j + 1]).births|
    ensures var before, after := EnterAll(l, ops[..j]), EnterAll(l, ops[..j + 1]);
            New(after, i) || exists k :: Continues(before, after, i, k)
  {
    var upTo := ops[..j + 1];
    assert upTo[..|upTo| - 1] == ops[..j] && upTo[|upTo| - 1] == ops[j];
    LedgerFollowsRun(l, ops[..j]);
    UnhurriedAt(l.sender, ops, j);
    StepSpacesMarks(EnterAll(l, ops[..j]), ops[j], i);
  }

  /** Each mark took at least minRto, so the number of marks bounds the age from below. */
  predicate NotEarly(l: Ledger, minRto: nat) {
    && |l.births| == |l.sender.unacked|
    && minRto <= l.sender.estimate.rto
    && forall i :: 0 <= i < |l.births| ==>
         l.births[i] + l.sender.unacked[i].retransmits * (minRto * 1_000_000) <= l.sender.unacked[i].sentTime
  }

  lemma EnterKeepsNotEarly(l: Ledger, op: Op, minRto: nat)
    requires NotEarly(l, minRto) && Unhurried(l.sender, op, minRto) && minRto <= MIN_RTO
    ensures NotEarly(Enter(l, op), minRto)
  {
    var l' := Enter(l, op);
    var wait := minRto * 1_000_000;
    forall i | 0 <= i < |l'.births|
      ensures l'.births[i] + l'.sender.unacked[i].retransmits * wait <= l'.sender.unacked[i].sentTime
    {
      StepSpacesMarks(l, op, i);
      if !New(l', i) {
        var k: nat :| Continues(l, l', i, k);
        OneMore(l.sender.unacked[k].retransmits, wait);
        assert wait <= l.sender.estimate.rto * 1_000_000;
      }
    }
  }

  lemma {:induction false} RunNotEarly(l: Ledger, ops: seq<Op>, minRto: nat)
    requires NotEarly(l, minRto) && UnhurriedRun(l.sender, ops, minRto) && minRto <= MIN_RTO
    ensures NotEarly(EnterAll(l, ops), minRto)
  {
    if |ops| > 0 {
      RunNotEarly(l, ops[..|ops| - 1], minRto);
      LedgerFollowsRun(l, ops[..|ops| - 1]);
      EnterKeepsNotEarly(EnterAll(l, ops[..|ops| - 1]), ops[|ops| - 1], minRto);
    }
  }

  /** No premature give-up: after any run from a fresh sender, has_timeout is true only if some
      segment has waited more than limit + 1 of the least timeout, 200 ms unless
      set_initial_rto asked for less. */
  lemma GivesUpNotBefore(s: Sender, started: int, ops: seq<Op>, minRto: nat, now: int)
    requires s.unacked == [] && minRto <= s.estimate.rto && minRto <= MIN_RTO && UnhurriedRun(s, ops, minRto)
    requires TimedOut(Run(s, ops), now)
    ensures var l := EnterAll(Ledger(s, [], started), ops);
            exists i :: 0 <= i < |l.births|
                        && now - l.births[i] > (Run(s, ops).maxRetransmits + 1) * (minRto * 1_000_000)
  {
    hide EnterAll, Run, UnhurriedRun;
    var l := EnterAll(Ledger(s, [], started), ops);
    LedgerFollowsRun(Ledger(s, [], started), ops);
    RunNotEarly(Ledger(s, [], started), ops, minRto);
    var i :| 0 <= i < |l.sender.unacked| && l.sender.unacked[i].Expired(now, l.sender.estimate.rto)
             && l.sender.unacked[i].retransmits >= l.sender.maxRetransmits;
    ExpiredIsOld(l.births[i], l.sender.unacked[i], l.sender.maxRetransmits, minRto * 1_000_000, now);
    assert minRto * 1_000_000 <= l.sender.estimate.rto * 1_000_000;
  }

  lemma ExpiredIsOld(b: int, segment: Segment, limit: byte, wait: nat, now: int)
    requires b + segment.retransmits * wait <= segment.sentTime && segment.retransmits >= limit
    ensures now - segment.sentTime > wait ==> now - b > (limit + 1) * wait
  {
    OneMore(limit, wait);
    MoreWaits(limit, segment.retransmits, wait);
  }

  lemma MoreWaits(n: nat, m: nat, wait: nat)
    requires n <= m
    ensures n * wait <= m * wait
  {
    assert m * wait == n * wait + (m - n) * wait;
  }
}
