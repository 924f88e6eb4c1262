/** Cumulative acknowledgments commute; the window bounds what is sent. */
module AckLaws {
  import opened Widths
  import opened ReliableSender

  // ----- confluence -----

  lemma {:induction false} KeptTwice(segments: seq<Segment>, a: uint32, b: uint32)
    requires a <= b
    ensures Kept(Kept(segments, a), b) == Kept(segments, b)
  {
    if |segments| > 0 {
      KeptTwice(segments[1..], a, b);
      if segments[0].End() > a {
        assert Kept(segments, a)[1..] == Kept(segments[1..], a);
      }
    }
  }

  lemma TwoAcks(s: Sender, a: uint32, b: uint32)
    ensures ProcessAck(ProcessAck(s, a), b) == ProcessAck(s, Max(a, b))
  {
    if s.lastAck < a < b {
      KeptTwice(s.unacked, a, b);
    }
  }

  function ProcessAcks(s: Sender, acks: seq<uint32>): Sender {
    if |acks| == 0 then s else ProcessAck(ProcessAcks(s, acks[..|acks| - 1]), acks[|acks| - 1])
  }

  function Highest(acks: seq<uint32>): (m: uint32)
    requires |acks| > 0
    ensures m in acks && forall a :: a in acks ==> a <= m
  {
    if |acks| == 1 then acks[0]
    else
      var m := Highest(acks[..|acks| - 1]);
      assert acks == acks[..|acks| - 1] + [acks[|acks| - 1]];
      Max(m, acks[|acks| - 1])
  }

  /** Any non-empty list of acknowledgments, in any order and with repeats, leaves the whole
      sender as its highest alone would, from any state. */
  lemma {:induction false} AcksConfluent(s: Sender, acks: seq<uint32>)
    requires |acks| > 0
    ensures ProcessAcks(s, acks) == ProcessAck(s, Highest(acks))
  {
    var front, last := acks[..|acks| - 1], acks[|acks| - 1];
    if |front| == 0 {
      assert ProcessAcks(s, front) == s;
    } else {
      AcksConfluent(s, front);
      TwoAcks(s, Highest(front), last);
    }
  }

  /** So delivery order and duplication cannot matter. */
  lemma AckOrderIrrelevant(s: Sender, acks: seq<uint32>, others: seq<uint32>)
    requires |acks| > 0 && (forall a :: a in acks <==> a in others)
    ensures ProcessAcks(s, acks) == ProcessAcks(s, others)
  {
    hide ProcessAck, ProcessAcks;
    assert Highest(acks) in others;
    AcksConfluent(s, acks);
    AcksConfluent(s, others);
  }

  // ----- window safety -----

  /** What TCPSocket::send asks for at a time. */
  const CHUNK: nat := 1024

  /** As in TCPSocket::send, data is taken in chunks and only when the guard admits one;
      everything else may happen at any time. */
  predicate Guarded(s: Sender, op: Op) {
    op.GetData? ==> op.maxSize == CHUNK && s.CanSend(CHUNK)
  }

  predicate GuardedRun(s: Sender, ops: seq<Op>) {
    |ops| > 0 ==> GuardedRun(s, ops[..|ops| - 1]) && Guarded(Run(s, ops[..|ops| - 1]), ops[|ops| - 1])
  }

  /** The guard admits a size exactly when that much more fits both windows, or when the
      64-bit sum wraps back into them. */
  lemma CanSendIff(s: Sender, size: nat)
    requires size < TWO64
    ensures var total := s.inFlight + size;
            s.CanSend(size) <==>
            (total <= s.sendWindow && total <= s.remoteWindow)
            || (TWO64 <= total <= TWO64 + s.sendWindow && total <= TWO64 + s.remoteWindow)
  {
    if s.inFlight + size >= TWO64 {
      assert (s.inFlight + size) % TWO64 == s.inFlight + size - TWO64;
    }
  }

  /** Unguarded, a dequeue ends within the window exactly when it began within it, or when
      it moves enough bytes to wrap the 32-bit counter. */
  lemma WithinWindowIff(s: Sender, maxSize: nat, now: int)
    ensures Dequeue(s, maxSize, now).0.inFlight <= s.EffectiveWindow() <==>
            s.inFlight <= s.EffectiveWindow() || s.inFlight + Min(maxSize, |s.buffer|) >= TWO32
  {
    var n := s.DequeueSize(maxSize);
    if s.inFlight <= s.EffectiveWindow() {
      assert s.AvailableWindow() == s.EffectiveWindow() - s.inFlight;
    } else {
      assert s.AvailableWindow() == TWO32 + s.EffectiveWindow() - s.inFlight;
      if s.inFlight + n >= TWO32 {
        assert (s.inFlight + n) % TWO32 == s.inFlight + n - TWO32;
      }
    }
  }

  /** Two bytes are buffered, one is sent, and the peer closes its window. */
  const SHRUNK: seq<Op> := [BufferData([7, 7]), GetData(1, 0), RemoteWindow(0)]

  /** The failing family: there, an unguarded dequeue sends the other byte all the same. */
  lemma UnguardedOverrun()
    ensures var s := Run(INITIAL, SHRUNK);
            Dequeue(s, 1, 0).1 == [7] && Dequeue(s, 1, 0).0.inFlight == 2 > s.EffectiveWindow()
  {
    assert SHRUNK == [] + [BufferData([7, 7])] + [GetData(1, 0)] + [RemoteWindow(0)];
    RunSnoc(INITIAL, [], BufferData([7, 7]));
    RunSnoc(INITIAL, [] + [BufferData([7, 7])], GetData(1, 0));
    RunSnoc(INITIAL, [] + [BufferData([7, 7])] + [GetData(1, 0)], RemoteWindow(0));
    assert Run(INITIAL, []) == INITIAL;
    hide Run;
    var buffered := Step(INITIAL, BufferData([7, 7]));
    assert buffered.DequeueSize(1) == 1;
    assert Dequeue(buffered, 1, 0).0.buffer == [7];
    var s := Run(INITIAL, SHRUNK);
    assert s.AvailableWindow() == TWO32 - 1 && s.DequeueSize(1) == 1;
    assert s.buffer[..1] == [7];
  }

  /** In every interleaving of guarded sends, acks and window changes, shrinking included,
      from any state: at each send the subtraction does not wrap and what is then in flight
      fits the window of that moment; and the counter never leaves 16 bits. */
  lemma {:induction false} WindowSafety(s: Sender, ops: seq<Op>)
    requires GuardedRun(s, ops)
    ensures s.inFlight <= 0xFFFF ==> Run(s, ops).inFlight <= 0xFFFF
    ensures forall i :: 0 <= i < |ops| && ops[i].GetData? ==>
              SafeSend(Run(s, ops[..i]), Run(s, ops[..i + 1]))
  {
    if |ops| > 0 {
      var before, op := ops[..|ops| - 1], ops[|ops| - 1];
      WindowSafety(s, before);
      var was := Run(s, before);
      if op.GetData? {
        SendIsSafe(was, op.now);
      }
      forall i | 0 <= i < |ops| && ops[i].GetData?
        ensures SafeSend(Run(s, ops[..i]), Run(s, ops[..i + 1]))
      {
        if i < |before| {
          assert ops[..i] == before[..i] && ops[..i + 1] == before[..i + 1];
        } else {
          assert ops[..i + 1] == ops;
        }
      }
    }
  }

  predicate SafeSend(before: Sender, after: Sender) {
    && before.AvailableWindow() == before.EffectiveWindow() - before.inFlight
    && after.inFlight <= after.EffectiveWindow() == before.EffectiveWindow()
  }

  lemma SendIsSafe(s: Sender, now: int)
    requires s.CanSend(CHUNK)
    ensures SafeSend(s, Dequeue(s, CHUNK, now).0)
  {
  }
}
