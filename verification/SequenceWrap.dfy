/** What 64-bit segment ends and plain comparisons make of sequence numbers that pass
    2^32: the first hypothesis of SlidingWindow cannot be dropped. */
module SequenceWrap {
  import opened Widths
  import opened ReliableSender
  import opened SlidingWindow

  /** All bytes ever handed out. */
  function SentCount(h: History): int {
    |h.stream| - |h.sender.buffer|
  }

  /** What every run keeps, whatever is acknowledged: the counter is the number of bytes
      sent, cut to 32 bits; before it wraps all segments end at or below it, and from then on
      some segment ends at or beyond 2^32. */
  predicate Follows(h: History, origin: uint32) {
    && SentCount(h) >= 0
    && h.sender.nextSeq == Add32(origin, SentCount(h))
    && if origin + SentCount(h) < TWO32
       then forall i :: 0 <= i < |h.sender.unacked| ==> h.sender.unacked[i].End() <= h.sender.nextSeq
       else exists i :: 0 <= i < |h.sender.unacked| && h.sender.unacked[i].End() >= TWO32
  }

  /** Whatever an acknowledgment leaves was there before. */
  lemma {:induction false} KeptWasThere(segments: seq<Segment>, ack: uint32, i: nat) returns (j: nat)
    requires i < |Kept(segments, ack)|
    ensures j < |segments| && Kept(segments, ack)[i] == segments[j]
  {
    if segments[0].End() > ack && i == 0 {
      j := 0;
    } else {
      var k := KeptWasThere(segments[1..], ack, if segments[0].End() > ack then i - 1 else i);
      j := k + 1;
    }
  }

  /** A segment that ends beyond an acknowledgment stays. */
  lemma {:induction false} BeyondStays(segments: seq<Segment>, ack: uint32, i: nat) returns (j: nat)
    requires i < |segments| && segments[i].End() > ack
    ensures j < |Kept(segments, ack)| && Kept(segments, ack)[j] == segments[i]
  {
    if i == 0 {
      j := 0;
    } else {
      var k := BeyondStays(segments[1..], ack, i - 1);
      j := if segments[0].End() > ack then k + 1 else k;
    }
  }

  lemma {:induction false} AllCovered(segments: seq<Segment>, ack: uint32)
    requires forall i :: 0 <= i < |segments| ==> segments[i].End() <= ack
    ensures Kept(segments, ack) == []
  {
    if |segments| > 0 {
      AllCovered(segments[1..], ack);
    }
  }

  lemma AckFollows(h: History, ack: uint32, origin: uint32)
    requires Follows(h, origin)
    ensures Follows(Record(h, Ack(ack)), origin)
  {
    var h' := Record(h, Ack(ack));
    if origin + SentCount(h) >= TWO32 {
      var i :| 0 <= i < |h.sender.unacked| && h.sender.unacked[i].End() >= TWO32;
      if ack > h.sender.lastAck {
        var j := BeyondStays(h.sender.unacked, ack, i);
        assert h'.sender.unacked[j].End() >= TWO32;
      }
    } else if ack > h.sender.lastAck {
      forall i | 0 <= i < |h'.sender.unacked| ensures h'.sender.unacked[i].End() <= h'.sender.nextSeq {
        var j := KeptWasThere(h.sender.unacked, ack, i);
      }
    }
  }

  lemma SendFollows(h: History, maxSize: nat, now: int, origin: uint32)
    requires Follows(h, origin)
    ensures Follows(Record(h, GetData(maxSize, now)), origin)
  {
    hide Sender.DequeueSize;
    var n := h.sender.DequeueSize(maxSize);
    if n > 0 {
      var h' := Record(h, GetData(maxSize, now));
      var sent, last := SentCount(h), |h.sender.unacked|;
      ReduceEarly(origin + sent, n);
      assert h'.sender.unacked[last].End() == h.sender.nextSeq + n;
      if origin + sent < TWO32 {
        assert h.sender.nextSeq == origin + sent;
      } else {
        var i :| 0 <= i < |h.sender.unacked| && h.sender.unacked[i].End() >= TWO32;
        assert h'.sender.unacked[i] == h.sender.unacked[i];
      }
    }
  }

  lemma StepFollows(h: History, op: Op, origin: uint32)
    requires Follows(h, origin)
    ensures Follows(Record(h, op), origin)
  {
    match op
    case GetData(maxSize, now) => SendFollows(h, maxSize, now, origin);
    case Ack(ack) => AckFollows(h, ack, origin);
    case Retransmit(passStart, marks) =>
      var h' := Record(h, op);
      assert forall i :: 0 <= i < |h.sender.unacked| ==> h'.sender.unacked[i].End() == h.sender.unacked[i].End();
    case _ =>
  }

  lemma {:induction false} RunFollows(origin: uint32, ops: seq<Op>)
    ensures Follows(RecordAll(Start(origin), ops), origin)
  {
    if |ops| > 0 {
      RunFollows(origin, ops[..|ops| - 1]);
      StepFollows(RecordAll(Start(origin), ops[..|ops| - 1]), ops[|ops| - 1], origin);
    }
  }

  /** After any run at all, from any initial sequence number, acknowledging SND.NXT leaves the
      list empty exactly when it was empty, or the numbers of the bytes sent have not reached
      2^32 and the cursor has not run ahead. Once they have, a segment stays for good. */
  lemma FinalAckDrainsIff(origin: uint32, ops: seq<Op>)
    ensures var h := RecordAll(Start(origin), ops);
            && h.sender == Run(INITIAL.(nextSeq := origin), ops)
            && (ProcessAck(h.sender, h.sender.nextSeq).unacked == [] <==>
                || h.sender.unacked == []
                || (origin + SentCount(h) < TWO32 && h.sender.lastAck < h.sender.nextSeq))
    ensures var h := RecordAll(Start(origin), ops);
            origin + SentCount(h) >= TWO32 ==> forall ack: uint32 :: ProcessAck(h.sender, ack).unacked != []
  {
    var h := RecordAll(Start(origin), ops);
    RecordsTheRun(Start(origin), ops);
    RunFollows(origin, ops);
    if origin + SentCount(h) < TWO32 {
      AllCovered(h.sender.unacked, h.sender.nextSeq);
    } else {
      var i :| 0 <= i < |h.sender.unacked| && h.sender.unacked[i].End() >= TWO32;
      forall ack: uint32 ensures ProcessAck(h.sender, ack).unacked != [] {
        var j := BeyondStays(h.sender.unacked, ack, i);
      }
    }
  }

  /** Two bytes, numbered 2^32 - 1 and 0, are sent as one segment. */
  const CROSSING: seq<Op> := [BufferData([7, 7]), GetData(2, 0)]

  /** Acknowledging both leaves the segment in the list. */
  lemma CrossingSegmentStays()
    ensures var s := Run(INITIAL.(nextSeq := TWO32 - 1), CROSSING);
            s.nextSeq == 1 && ProcessAck(s, 1).unacked != []
  {
    var start := INITIAL.(nextSeq := TWO32 - 1);
    assert CROSSING == [] + [BufferData([7, 7])] + [GetData(2, 0)];
    RunSnoc(start, [], BufferData([7, 7]));
    RunSnoc(start, [] + [BufferData([7, 7])], GetData(2, 0));
    assert Run(start, []) == start;
    hide Run;
    var buffered := Step(start, BufferData([7, 7]));
    assert buffered.DequeueSize(2) == 2;
    var s := Run(start, CROSSING);
    assert s.unacked[0].End() == TWO32 + 1;
    var j := BeyondStays(s.unacked, 1, 0);
  }
}
