/** The reliable sender refines the sliding window of RFC 793, section 3.2. */
module SlidingWindow {
  import opened Widths
  import opened RttEstimator
  import opened ReliableSender

  // ----- the abstract window -----

  /** Everything ever buffered, how much of it is acknowledged (SND.UNA) and how much has
      been sent (SND.NXT), counted from the initial sequence number. */
  datatype Window = Window(stream: seq<byte>, una: nat, nxt: nat) {
    predicate Valid() {
      una <= nxt <= |stream|
    }
  }

  /** What one call may do to the window; the acknowledgment rule is SND.UNA < SEG.ACK =<
      SND.NXT, on sequence numbers relative to the origin. */
  predicate WindowStep(w: Window, op: Op, origin: nat, w': Window) {
    match op
    case BufferData(data) => w' == w.(stream := w.stream + data)
    case GetData(maxSize, _) => w' == w.(nxt := w'.nxt) && w.nxt <= w'.nxt <= Min(w.nxt + maxSize, |w.stream|)
    case Ack(ack) => w' == if w.una < ack - origin <= w.nxt then w.(una := ack - origin) else w
    case _ => w' == w
  }

  // ----- the sender with its history -----

  /** The sender, all bytes ever buffered, and all segments acknowledgments removed. */
  datatype History = History(sender: Sender, stream: seq<byte>, removed: seq<Segment>) {
    /** SND.UNA: the cursor, but never before the origin. */
    function Una(origin: nat): nat {
      if sender.lastAck <= origin then 0 else sender.lastAck - origin
    }

    function Abstract(origin: nat): Window
      requires origin <= sender.nextSeq
    {
      Window(stream, Una(origin), sender.nextSeq - origin)
    }

    /** Bytes sent and not acknowledged. */
    function Outstanding(origin: nat): int {
      sender.nextSeq - origin - Una(origin)
    }
  }

  function Record(h: History, op: Op): History {
    History(Step(h.sender, op),
            if op.BufferData? then h.stream + op.data else h.stream,
            if op.Ack? && op.ack > h.sender.lastAck then h.removed + Removed(h.sender.unacked, op.ack) else h.removed)
  }

  function RecordAll(h: History, ops: seq<Op>): History {
    if |ops| == 0 then h else Record(RecordAll(h, ops[..|ops| - 1]), ops[|ops| - 1])
  }

  /** A fresh sender after set_initial_seq. */
  function Start(origin: uint32): History {
    History(INITIAL.(nextSeq := origin), [], [])
  }

  function Bytes(segments: seq<Segment>): seq<byte> {
    if |segments| == 0 then [] else segments[0].data + Bytes(segments[1..])
  }

  /** Non-empty segments, each starting where the one before ends. */
  predicate InOrder(segments: seq<Segment>, from: nat) {
    |segments| > 0 ==>
      segments[0].seqNum == from && |segments[0].data| > 0 && InOrder(segments[1..], segments[0].End())
  }

  /** The hypotheses on one call: the numbers of bytes sent stay below 2^32, however much is
      buffered, and the peer does not acknowledge what was never sent. */
  predicate Admissible(s: Sender, op: Op) {
    && (op.GetData? ==> s.nextSeq + s.DequeueSize(op.maxSize) < TWO32)
    && (op.Ack? ==> op.ack <= s.nextSeq)
  }

  predicate AdmissibleRun(h: History, ops: seq<Op>) {
    |ops| > 0 ==>
      AdmissibleRun(h, ops[..|ops| - 1])
      && Admissible(RecordAll(h, ops[..|ops| - 1]).sender, ops[|ops| - 1])
  }

  /** What every admissible run keeps. */
  predicate Inv(h: History, origin: nat) {
    && Partitioned(h, origin)
    && Counted(h, origin)
  }

  predicate Partitioned(h: History, origin: nat) {
    Conserved(h) && Placed(h, origin)
  }

  /** Removed, unacknowledged and unsent bytes are exactly the stream, in order. */
  predicate Conserved(h: History) {
    Bytes(h.removed) + Bytes(h.sender.unacked) + h.sender.buffer == h.stream
  }

  /** The sequence numbers are the positions; only acknowledged segments are gone and only
      unacknowledged ones remain. */
  predicate Placed(h: History, origin: nat) {
    var s := h.sender;
    && s.nextSeq == origin + |Bytes(h.removed)| + |Bytes(s.unacked)|
    && InOrder(h.removed, origin)
    && InOrder(s.unacked, origin + |Bytes(h.removed)|)
    && |Bytes(h.removed)| <= h.Una(origin)
    && s.lastAck <= s.nextSeq
    && (|s.unacked| > 0 ==> s.lastAck < s.unacked[0].End())
  }

  /** bytes_in_flight_ never exceeds the outstanding bytes and falls short of them by at
      most what acknowledgments have consumed of the origin: not at all for origin 0. */
  predicate Counted(h: History, origin: nat) {
    h.sender.inFlight <= h.Outstanding(origin) <= h.sender.inFlight + Min(h.sender.lastAck, origin)
  }

  // ----- lists of segments -----

  lemma Cons(head: Segment, rest: seq<Segment>, from: nat)
    ensures Bytes([head] + rest) == head.data + Bytes(rest)
    ensures InOrder([head] + rest, from) <==> head.seqNum == from && |head.data| > 0 && InOrder(rest, head.End())
  {
  }

  lemma {:induction false} BytesAppend(a: seq<Segment>, b: seq<Segment>)
    ensures Bytes(a + b) == Bytes(a) + Bytes(b)
  {
    if |a| == 0 {
      assert a + b == b;
    } else {
      var head, rest := a[0], a[1..];
      BytesAppend(rest, b);
      Cons(head, rest + b, 0);
      assert a + b == [head] + (rest + b);
      Assoc(head.data, Bytes(rest), Bytes(b));
    }
  }

  lemma {:induction false} InOrderAppend(a: seq<Segment>, b: seq<Segment>, from: nat)
    requires InOrder(a, from) && InOrder(b, from + |Bytes(a)|)
    ensures InOrder(a + b, from)
  {
    if |a| == 0 {
      assert a + b == b;
    } else {
      var head, rest := a[0], a[1..];
      InOrderAppend(rest, b, head.End());
      Cons(head, rest + b, from);
      assert a + b == [head] + (rest + b);
    }
  }

  lemma {:induction false} NothingCovered(segments: seq<Segment>, from: nat, ack: uint32)
    requires InOrder(segments, from) && ack <= from
    ensures Kept(segments, ack) == segments && Removed(segments, ack) == []
  {
    if |segments| > 0 {
      NothingCovered(segments[1..], segments[0].End(), ack);
    }
  }

  /** Any cut of a list in order gives two lists in order. */
  lemma {:induction false} InOrderSplit(a: seq<Segment>, b: seq<Segment>, from: nat)
    requires InOrder(a + b, from)
    ensures InOrder(a, from) && InOrder(b, from + |Bytes(a)|)
    ensures |a| > 0 ==> a[|a| - 1].End() == from + |Bytes(a)|
  {
    if |a| == 0 {
      assert a + b == b;
    } else {
      var head, rest := a[0], a[1..];
      assert a + b == [head] + (rest + b);
      Cons(head, rest + b, from);
      InOrderSplit(rest, b, head.End());
    }
  }

  /** An acknowledgment removes exactly a prefix of a list in order: the segments it covers
      whole. Of those left, it reaches at most into the first. */
  lemma {:induction false} AckRemovesPrefix(segments: seq<Segment>, from: nat, ack: uint32) returns (k: nat)
    requires InOrder(segments, from)
    ensures k <= |segments| && Removed(segments, ack) == segments[..k] && Kept(segments, ack) == segments[k..]
    ensures forall i :: 0 <= i < k ==> segments[i].End() <= ack
    ensures k < |segments| ==> ack < segments[k].End()
    ensures forall i :: k < i < |segments| ==> ack < segments[i].seqNum
  {
    if |segments| == 0 {
      k := 0;
    } else if segments[0].End() <= ack {
      var n := AckRemovesPrefix(segments[1..], segments[0].End(), ack);
      k := n + 1;
      assert segments == [segments[0]] + segments[1..];
    } else {
      k := 0;
      NothingCovered(segments[1..], segments[0].End(), ack);
      AllBeyond(segments[1..], segments[0].End(), ack);
      assert segments == [segments[0]] + segments[1..];
    }
  }

  lemma {:induction false} AllBeyond(segments: seq<Segment>, from: nat, ack: uint32)
    requires InOrder(segments, from) && ack < from
    ensures forall i :: 0 <= i < |segments| ==> ack < segments[i].seqNum
  {
    if |segments| > 0 {
      AllBeyond(segments[1..], segments[0].End(), ack);
      assert forall i :: 1 <= i < |segments| ==> segments[i] == segments[1..][i - 1];
    }
  }

  // ----- one step -----

  /** The state after n > 0 bytes are handed out, when no counter wraps. */
  function AfterSend(s: Sender, n: nat, now: int): Sender
    requires 0 < n <= |s.buffer| && s.nextSeq + n < TWO32 && s.inFlight + n < TWO32
  {
    s.(buffer := s.buffer[n..], unacked := s.unacked + [Tracked(s, s.buffer[..n], now)],
       nextSeq := s.nextSeq + n, inFlight := s.inFlight + n)
  }

  /** Where no counter wraps, get_data_to_send does nothing or hands out n bytes. */
  lemma DequeueIs(s: Sender, maxSize: nat, now: int) returns (n: nat)
    requires s.nextSeq + s.DequeueSize(maxSize) < TWO32 && s.inFlight <= s.nextSeq
    ensures n <= maxSize && n <= |s.buffer| && s.nextSeq + n < TWO32
    ensures Dequeue(s, maxSize, now) == (if n == 0 then s else AfterSend(s, n, now), s.buffer[..n])
  {
    n := s.DequeueSize(maxSize);
  }

  lemma DequeueKeeps(h: History, maxSize: nat, now: int, origin: nat)
    requires Inv(h, origin) && Admissible(h.sender, GetData(maxSize, now))
    ensures var op := GetData(maxSize, now);
            Inv(Record(h, op), origin) && WindowStep(h.Abstract(origin), op, origin, Record(h, op).Abstract(origin))
  {
    Unsent(h, origin);
    var n := DequeueIs(h.sender, maxSize, now);
    if n > 0 {
      AppendKeeps(h, n, now, origin);
    }
    var h' := h.(sender := if n == 0 then h.sender else AfterSend(h.sender, n, now));
    assert Record(h, GetData(maxSize, now)) == h';
    WindowAfterSend(h, h', maxSize, now, origin);
  }

  lemma WindowAfterSend(h: History, h': History, maxSize: nat, now: int, origin: nat)
    requires h' == h.(sender := h'.sender) && h'.sender.lastAck == h.sender.lastAck
    requires origin <= h.sender.nextSeq <= h'.sender.nextSeq <= h.sender.nextSeq + maxSize
    requires h'.sender.nextSeq - origin <= |h.stream|
    ensures WindowStep(h.Abstract(origin), GetData(maxSize, now), origin, h'.Abstract(origin))
  {
  }

  /** The send buffer is the stream from SND.NXT on, and no more is counted than was sent. */
  lemma Unsent(h: History, origin: nat)
    requires Inv(h, origin)
    ensures origin <= h.sender.nextSeq && h.sender.nextSeq - origin + |h.sender.buffer| == |h.stream|
    ensures h.sender.buffer == h.stream[h.sender.nextSeq - origin..]
    ensures h.sender.inFlight <= h.sender.nextSeq
  {
  }

  /** What is handed out is the stream between the old and the new SND.NXT. */
  lemma SentBytes(h: History, maxSize: nat, now: int, origin: nat)
    requires Inv(h, origin) && Admissible(h.sender, GetData(maxSize, now))
    ensures var (s', chunk) := Dequeue(h.sender, maxSize, now);
            chunk == h.stream[h.sender.nextSeq - origin..s'.nextSeq - origin]
  {
    Unsent(h, origin);
    var n := DequeueIs(h.sender, maxSize, now);
    TakeOfDrop(h.stream, h.sender.nextSeq - origin, n);
  }

  lemma TakeOfDrop(stream: seq<byte>, at: nat, n: nat)
    requires at + n <= |stream|
    ensures stream[at..][..n] == stream[at..at + n]
  {
  }

  lemma AppendKeeps(h: History, n: nat, now: int, origin: nat)
    requires Inv(h, origin) && 0 < n <= |h.sender.buffer|
    requires h.sender.nextSeq + n < TWO32 && h.sender.inFlight + n < TWO32
    ensures Inv(h.(sender := AfterSend(h.sender, n, now)), origin)
  {
    hide Bytes, InOrder;
    var s := h.sender;
    var earlier, chunk, rest := s.unacked, s.buffer[..n], s.buffer[n..];
    var next := Tracked(s, chunk, now);
    OneSegment(next);
    BytesAppend(earlier, [next]);
    InOrderAppend(earlier, [next], origin + |Bytes(h.removed)|);
    var gone := Bytes(h.removed);
    assert s.buffer == chunk + rest;
    Assoc(gone, Bytes(earlier), chunk);
    Assoc(gone + Bytes(earlier), chunk, rest);
    assert (earlier + [next])[0] == if |earlier| > 0 then earlier[0] else next;
    assert Partitioned(h.(sender := AfterSend(s, n, now)), origin);
  }

  lemma OneSegment(segment: Segment)
    ensures Bytes([segment]) == segment.data
    ensures |segment.data| > 0 ==> InOrder([segment], segment.seqNum)
  {
  }

  lemma AckKeeps(h: History, ack: uint32, origin: nat)
    requires Inv(h, origin) && Admissible(h.sender, Ack(ack))
    ensures var h' := Record(h, Ack(ack));
            Inv(h', origin) && WindowStep(h.Abstract(origin), Ack(ack), origin, h'.Abstract(origin))
  {
    if ack > h.sender.lastAck {
      PartitionAfterAck(h, ack, origin);
      CountAfterAck(h, ack, origin);
    }
  }

  lemma PartitionAfterAck(h: History, ack: uint32, origin: nat)
    requires Inv(h, origin) && h.sender.lastAck < ack <= h.sender.nextSeq
    ensures Partitioned(Record(h, Ack(ack)), origin)
  {
    hide Bytes, InOrder, Kept, Removed, Counted, Update, Pass, Dequeue;
    var from := origin + |Bytes(h.removed)|;
    var k := AckRemovesPrefix(h.sender.unacked, from, ack);
    var gone, left := h.sender.unacked[..k], h.sender.unacked[k..];
    assert h.sender.unacked == gone + left;
    InOrderSplit(gone, left, from);
    InOrderAppend(h.removed, gone, origin);
    var h' := Record(h, Ack(ack));
    MoveToRemoved(h, gone, left, ack, h'.sender.inFlight, origin, from + |Bytes(gone)|);
    assert h' == Moved(h, gone, left, ack, h'.sender.inFlight);
  }

  function Moved(h: History, gone: seq<Segment>, left: seq<Segment>, ack: uint32, inFlight: uint32): History {
    h.(sender := h.sender.(lastAck := ack, unacked := left, inFlight := inFlight), removed := h.removed + gone)
  }

  /** The removed segments end at mid, where the remaining ones begin. */
  lemma MoveToRemoved(h: History, gone: seq<Segment>, left: seq<Segment>, ack: uint32, inFlight: uint32, origin: nat,
                      mid: nat)
    requires Partitioned(h, origin) && h.sender.unacked == gone + left && h.sender.lastAck < ack <= h.sender.nextSeq
    requires mid == origin + |Bytes(h.removed)| + |Bytes(gone)|
    requires InOrder(h.removed + gone, origin) && InOrder(left, mid)
    requires |gone| > 0 ==> mid <= ack
    requires |left| > 0 ==> ack < left[0].End()
    ensures Partitioned(Moved(h, gone, left, ack, inFlight), origin)
  {
    assert |gone| == 0 ==> Bytes(gone) == [];
    hide Bytes, InOrder;
    BytesMoved(h.removed, gone, left, h.sender.buffer);
    var h' := Moved(h, gone, left, ack, inFlight);
    assert origin + |Bytes(h'.removed)| == mid;
  }

  lemma BytesMoved(removed: seq<Segment>, gone: seq<Segment>, left: seq<Segment>, buffer: seq<byte>)
    ensures Bytes(removed + gone) + Bytes(left) + buffer == Bytes(removed) + Bytes(gone + left) + buffer
    ensures |Bytes(removed + gone)| == |Bytes(removed)| + |Bytes(gone)|
    ensures |Bytes(gone + left)| == |Bytes(gone)| + |Bytes(left)|
  {
    BytesAppend(removed, gone);
    BytesAppend(gone, left);
    Assoc(Bytes(removed), Bytes(gone), Bytes(left));
  }

  lemma CountAfterAck(h: History, ack: uint32, origin: nat)
    requires Counted(h, origin) && h.sender.lastAck < ack <= h.sender.nextSeq && origin <= h.sender.nextSeq
    ensures Counted(Record(h, Ack(ack)), origin)
  {
  }

  lemma StepRefines(h: History, op: Op, origin: nat)
    requires Inv(h, origin) && Admissible(h.sender, op)
    ensures var h' := Record(h, op);
            Inv(h', origin) && WindowStep(h.Abstract(origin), op, origin, h'.Abstract(origin))
  {
    hide Inv, WindowStep, Record, Admissible;
    match op
    case BufferData(data) => BufferKeeps(h, data, origin);
    case GetData(maxSize, now) => DequeueKeeps(h, maxSize, now, origin);
    case Ack(ack) => AckKeeps(h, ack, origin);
    case Retransmit(passStart, marks) => PassKeeps(h, op, origin);
    case _ => SettersKeep(h, op, origin);
  }

  lemma BufferKeeps(h: History, data: seq<byte>, origin: nat)
    requires Inv(h, origin)
    ensures var op := BufferData(data);
            Inv(Record(h, op), origin) && WindowStep(h.Abstract(origin), op, origin, Record(h, op).Abstract(origin))
  {
    hide InOrder, Bytes;
    Assoc(Bytes(h.removed) + Bytes(h.sender.unacked), h.sender.buffer, data);
  }

  lemma PassKeeps(h: History, op: Op, origin: nat)
    requires Inv(h, origin) && op.Retransmit?
    ensures Inv(Record(h, op), origin) && WindowStep(h.Abstract(origin), op, origin, Record(h, op).Abstract(origin))
  {
    hide InOrder, Bytes, Pass;
    PassKeepsBytes(h.sender.unacked, Record(h, op).sender.unacked, origin + |Bytes(h.removed)|);
  }

  lemma SettersKeep(h: History, op: Op, origin: nat)
    requires Inv(h, origin) && !op.BufferData? && !op.GetData? && !op.Ack? && !op.Retransmit?
    ensures Inv(Record(h, op), origin) && WindowStep(h.Abstract(origin), op, origin, Record(h, op).Abstract(origin))
  {
    Unsent(h, origin);
    hide Inv, Update, ProcessAck, Dequeue, Pass, Kept, Removed;
    SameCounters(h, Record(h, op), origin);
  }

  lemma SameCounters(h: History, h': History, origin: nat)
    requires Inv(h, origin) && h'.stream == h.stream && h'.removed == h.removed
    requires var s, s' := h.sender, h'.sender;
             && s'.nextSeq == s.nextSeq && s'.lastAck == s.lastAck && s'.buffer == s.buffer
             && s'.unacked == s.unacked && s'.inFlight == s.inFlight
    ensures Inv(h', origin) && h'.Abstract(origin) == h.Abstract(origin)
  {
    hide InOrder, Bytes;
  }

  lemma {:induction false} PassKeepsBytes(before: seq<Segment>, after: seq<Segment>, from: nat)
    requires |before| == |after| && InOrder(before, from)
    requires forall i :: 0 <= i < |before| ==> after[i].seqNum == before[i].seqNum && after[i].data == before[i].data
    ensures Bytes(after) == Bytes(before) && InOrder(after, from)
  {
    if |before| > 0 {
      PassKeepsBytes(before[1..], after[1..], before[0].End());
    }
  }

  // ----- every run -----

  lemma {:induction false} InvariantHolds(origin: uint32, ops: seq<Op>)
    requires AdmissibleRun(Start(origin), ops)
    ensures Inv(RecordAll(Start(origin), ops), origin)
  {
    if |ops| > 0 {
      InvariantHolds(origin, ops[..|ops| - 1]);
      StepRefines(RecordAll(Start(origin), ops[..|ops| - 1]), ops[|ops| - 1], origin);
    }
  }

  lemma {:induction false} AdmissiblePrefix(h: History, ops: seq<Op>, n: nat)
    requires AdmissibleRun(h, ops) && n <= |ops|
    ensures AdmissibleRun(h, ops[..n])
  {
    if n < |ops| {
      var before := ops[..|ops| - 1];
      AdmissiblePrefix(h, before, n);
      assert ops[..n] == before[..n];
    } else {
      assert ops[..n] == ops;
    }
  }

  /** Every call of every admissible run, from any origin, is a step of the sliding window
      between valid windows, and the invariant holds before and after it. */
  lemma RunRefines(origin: uint32, ops: seq<Op>, i: nat)
    requires AdmissibleRun(Start(origin), ops) && i < |ops|
    ensures Refined(RecordAll(Start(origin), ops[..i]), ops[i], RecordAll(Start(origin), ops[..i + 1]), origin)
  {
    hide Inv, Admissible, Record, Refined;
    AdmissiblePrefix(Start(origin), ops, i);
    AdmissiblePrefix(Start(origin), ops, i + 1);
    InvariantHolds(origin, ops[..i]);
    var upTo := ops[..i + 1];
    assert upTo[..|upTo| - 1] == ops[..i] && upTo[|upTo| - 1] == ops[i];
    StepIsRefined(RecordAll(Start(origin), ops[..i]), ops[i], origin);
  }

  /** The code moves its cursor to any higher acknowledgment, sent or not: it follows the rule
      of RFC 793 exactly for acknowledgments up to SND.NXT. */
  lemma AckRuleIff(h: History, ack: uint32, origin: nat)
    requires Inv(h, origin)
    ensures WindowStep(h.Abstract(origin), Ack(ack), origin, Record(h, Ack(ack)).Abstract(origin))
            <==> ack <= h.sender.nextSeq
  {
    if ack <= h.sender.nextSeq {
      AckKeeps(h, ack, origin);
    } else {
      assert Record(h, Ack(ack)).Una(origin) == ack - origin > h.Una(origin);
    }
  }

  /** A fresh sender takes an acknowledgment of what was never sent for progress. */
  lemma StrayAckBreaksRule()
    ensures var h := Start(0);
            !WindowStep(h.Abstract(0), Ack(5), 0, Record(h, Ack(5)).Abstract(0))
  {
    InvariantHolds(0, []);
    AckRuleIff(Start(0), 5, 0);
  }

  /** The recorded sender is the sender. */
  lemma {:induction false} RecordsTheRun(h: History, ops: seq<Op>)
    ensures RecordAll(h, ops).sender == Run(h.sender, ops)
  {
    if |ops| > 0 {
      RecordsTheRun(h, ops[..|ops| - 1]);
    }
  }

  predicate Refined(h: History, op: Op, h': History, origin: nat) {
    && Inv(h, origin) && Inv(h', origin)
    && h.Abstract(origin).Valid() && h'.Abstract(origin).Valid()
    && WindowStep(h.Abstract(origin), op, origin, h'.Abstract(origin))
  }

  lemma StepIsRefined(h: History, op: Op, origin: nat)
    requires Inv(h, origin) && Admissible(h.sender, op)
    ensures Inv(Record(h, op), origin) && Refined(h, op, Record(h, op), origin)
  {
    StepRefines(h, op, origin);
    AbstractValid(h, origin);
    AbstractValid(Record(h, op), origin);
  }

  lemma AbstractValid(h: History, origin: nat)
    requires Inv(h, origin)
    ensures h.Abstract(origin).Valid()
  {
  }

  // ----- accounting -----

  /** Origin 0: the counter is exactly SND.NXT - SND.UNA, and the tracked bytes are that
      plus the acknowledged part of the first segment. */
  lemma ExactAccounting(h: History)
    requires Inv(h, 0)
    ensures h.sender.inFlight == h.sender.nextSeq - h.sender.lastAck
    ensures |h.sender.unacked| > 0 ==>
              |Bytes(h.sender.unacked)| == h.sender.inFlight + (h.sender.lastAck - h.sender.unacked[0].seqNum)
    ensures forall i :: 0 < i < |h.sender.unacked| ==> h.sender.lastAck < h.sender.unacked[i].seqNum
  {
    var s := h.sender;
    if |s.unacked| > 0 {
      AllBeyond(s.unacked[1..], s.unacked[0].End(), s.lastAck);
      assert forall i :: 1 <= i < |s.unacked| ==> s.unacked[i] == s.unacked[1..][i - 1];
    }
  }

  /** Any origin: acknowledging everything sent empties the list and zeroes the counter. */
  lemma FullAckDrains(h: History, origin: nat)
    requires Inv(h, origin)
    ensures var s := ProcessAck(h.sender, h.sender.nextSeq); s.unacked == [] && s.inFlight == 0
  {
    var ack := h.sender.nextSeq;
    AckKeeps(h, ack, origin);
    var h' := Record(h, Ack(ack));
    assert |h'.sender.unacked| == 0;
  }

  /** How far bytes_in_flight_ falls short of what is outstanding. */
  function Drift(h: History, origin: nat): int {
    h.Outstanding(origin) - h.sender.inFlight
  }

  /** The exact law of the shortfall: an acknowledgment subtracts the part of the origin it
      passes along with the acknowledged bytes, and nothing can be short of more than is
      outstanding. */
  lemma AckDrift(h: History, ack: uint32, origin: nat)
    requires Inv(h, origin) && h.sender.lastAck < ack <= h.sender.nextSeq
    ensures var h' := Record(h, Ack(ack));
            Drift(h', origin) ==
            Min(Drift(h, origin) + Min(ack, origin) - Min(h.sender.lastAck, origin), h'.Outstanding(origin))
  {
    hide Partitioned, Kept, Removed;
  }

  /** So exact accounting survives an acknowledgment exactly when the cursor had already
      reached the origin - always, for origin 0 - or everything sent is acknowledged. */
  lemma ExactAfterAckIff(h: History, ack: uint32, origin: nat)
    requires Inv(h, origin) && Drift(h, origin) == 0 && h.sender.lastAck < ack <= h.sender.nextSeq
    ensures Drift(Record(h, Ack(ack)), origin) == 0 <==>
            origin <= h.sender.lastAck || h.sender.nextSeq == Max(ack, origin)
  {
    AckDrift(h, ack, origin);
  }

  /** Two bytes are buffered and sent one by one. */
  const TWO_SENDS: seq<Op> := [BufferData([7, 7]), GetData(1, 0), GetData(1, 0)]

  /** Origin 100: acknowledging the first of them already loses count of the second. */
  lemma FirstAckLosesCount()
    ensures var h := RecordAll(Start(100), TWO_SENDS);
            Drift(h, 100) == 0 && Drift(Record(h, Ack(101)), 100) == 1
  {
    assert TWO_SENDS == [] + [BufferData([7, 7])] + [GetData(1, 0)] + [GetData(1, 0)];
    RecordSnoc(Start(100), [], BufferData([7, 7]));
    RecordSnoc(Start(100), [] + [BufferData([7, 7])], GetData(1, 0));
    RecordSnoc(Start(100), [] + [BufferData([7, 7])] + [GetData(1, 0)], GetData(1, 0));
    assert RecordAll(Start(100), []) == Start(100);
    hide RecordAll, Dequeue;
    var h1 := Record(Start(100), BufferData([7, 7]));
    OneByteSent(h1.sender);
    OneByteSent(Record(h1, GetData(1, 0)).sender);
  }

  lemma RecordSnoc(h: History, ops: seq<Op>, op: Op)
    ensures RecordAll(h, ops + [op]) == Record(RecordAll(h, ops), op)
  {
    assert (ops + [op])[..|ops|] == ops;
  }

  lemma OneByteSent(s: Sender)
    requires |s.buffer| > 0 && s.inFlight < s.EffectiveWindow() && s.nextSeq < TWO32 - 1
    ensures Dequeue(s, 1, 0).0 == AfterSend(s, 1, 0)
  {
    assert s.AvailableWindow() == s.EffectiveWindow() - s.inFlight;
  }

  /** No other call changes the shortfall. */
  lemma OthersKeepDrift(h: History, op: Op, origin: nat)
    requires Inv(h, origin) && !op.Ack? && Admissible(h.sender, op)
    ensures Drift(Record(h, op), origin) == Drift(h, origin)
  {
    hide Inv, Dequeue, Update, Pass, Kept, Removed;
    if op.GetData? {
      Unsent(h, origin);
      var n := DequeueIs(h.sender, op.maxSize, op.now);
    }
  }

  // ----- nothing is empty -----

  predicate NonEmpty(segments: seq<Segment>) {
    forall i :: 0 <= i < |segments| ==> segments[i].data != []
  }

  lemma {:induction false} KeptNonEmpty(segments: seq<Segment>, ack: uint32)
    requires NonEmpty(segments)
    ensures NonEmpty(Kept(segments, ack))
  {
    if |segments| > 0 {
      KeptNonEmpty(segments[1..], ack);
    }
  }

  /** No run tracks an empty segment, whatever wraps and whatever is acknowledged. */
  lemma {:induction false} RunTracksNoEmpty(s: Sender, ops: seq<Op>)
    requires NonEmpty(s.unacked)
    ensures NonEmpty(Run(s, ops).unacked)
  {
    if |ops| > 0 {
      RunTracksNoEmpty(s, ops[..|ops| - 1]);
      hide Run, Update;
      var before, op := Run(s, ops[..|ops| - 1]), ops[|ops| - 1];
      if op.Ack? {
        KeptNonEmpty(before.unacked, op.ack);
      }
    }
  }

  // ----- nothing is lost -----

  /** A sent number is either acknowledged, as is_seq_acknowledged says, or carried by a
      segment that is still tracked and can be sent again; nothing acknowledged in part only
      has been dropped. */
  lemma SentIsAcknowledgedOrTracked(h: History, number: uint32, origin: nat)
    requires Inv(h, origin) && origin <= number < h.sender.nextSeq
    ensures number < h.sender.lastAck || exists i :: 0 <= i < |h.sender.unacked| && h.sender.unacked[i].Carries(number)
    ensures forall i :: 0 <= i < |h.removed| && h.removed[i].Carries(number) ==> number < h.sender.lastAck
  {
    var from := origin + |Bytes(h.removed)|;
    if number >= from {
      var i := CarriedBy(h.sender.unacked, from, number);
    }
    forall i | 0 <= i < |h.removed| && h.removed[i].Carries(number)
      ensures number < h.sender.lastAck
    {
      EndsWithin(h.removed, origin, i);
    }
  }

  lemma {:induction false} CarriedBy(segments: seq<Segment>, from: nat, number: uint32) returns (i: nat)
    requires InOrder(segments, from) && from <= number < from + |Bytes(segments)|
    ensures i < |segments| && segments[i].Carries(number)
  {
    if number < segments[0].End() {
      i := 0;
    } else {
      var k := CarriedBy(segments[1..], segments[0].End(), number);
      i := k + 1;
    }
  }

  lemma {:induction false} EndsWithin(segments: seq<Segment>, from: nat, i: nat)
    requires InOrder(segments, from) && i < |segments|
    ensures segments[i].End() <= from + |Bytes(segments)|
  {
    if i > 0 {
      EndsWithin(segments[1..], segments[0].End(), i - 1);
    }
  }
}
