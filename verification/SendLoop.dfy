/** TCPSocket::send and the retransmission pass of src/tcp_socket.cpp, on values: what the
    loops do with the sender and with the sequence number of the connection. */
module SendLoop {
  import opened Widths
  import opened ReliableSender
  import opened AckLaws
  import SlidingWindow

  /** A data segment as it goes to the wire: header sequence number and payload. */
  datatype Emission = Emission(seqNum: uint32, data: seq<byte>)

  /** The loop's state: the sender, conn->local_seq, the segments sent so far, the bytes of a
      chunk whose transmission failed, total_sent. */
  datatype SendState = SendState(
    sender: Sender, localSeq: uint32, emitted: seq<Emission>, failed: seq<byte>, totalSent: nat)

  /** The state after a successful round. */
  function Sent(st: SendState, sender: Sender, chunk: seq<byte>): SendState {
    SendState(sender, Add32(st.localSeq, |chunk|), st.emitted + [Emission(st.localSeq, chunk)], st.failed,
              st.totalSent + |chunk|)
  }

  /** The loop from its i-th round on; net(i) says whether the i-th transmission succeeds and
      clock(i) when its chunk is taken. */
  function Rounds(st: SendState, length: nat, i: nat, net: nat -> bool, clock: nat -> int): SendState
    decreases |st.sender.buffer|
  {
    if st.totalSent >= length || !st.sender.CanSend(CHUNK) then st else
    var (sender, chunk) := Dequeue(st.sender, CHUNK, clock(i));
    if chunk == [] then st
    else if net(i) then
      Rounds(Sent(st, sender, chunk), length, i + 1, net, clock)
    else st.(sender := sender, failed := chunk)
  }

  /** One round, as the loop of the program takes it. */
  lemma RoundStep(st: SendState, length: nat, i: nat, net: nat -> bool, clock: nat -> int)
    ensures var (sender, chunk) := Dequeue(st.sender, CHUNK, clock(i));
            Rounds(st, length, i, net, clock) ==
            if st.totalSent >= length || !st.sender.CanSend(CHUNK) || chunk == [] then st
            else if net(i) then Rounds(Sent(st, sender, chunk), length, i + 1, net, clock)
            else st.(sender := sender, failed := chunk)
  {
  }

  function Before(s: Sender, localSeq: uint32, data: seq<byte>): SendState {
    SendState(s.(buffer := s.buffer + data), localSeq, [], [], 0)
  }

  /** send on a connected socket. */
  function Send(s: Sender, localSeq: uint32, data: seq<byte>, net: nat -> bool, clock: nat -> int): SendState {
    Rounds(Before(s, localSeq, data), |data|, 0, net, clock)
  }

  // ----- what the loop does to the bytes -----

  function Payload(emitted: seq<Emission>): seq<byte> {
    if |emitted| == 0 then [] else Payload(emitted[..|emitted| - 1]) + emitted[|emitted| - 1].data
  }

  lemma PayloadSnoc(emitted: seq<Emission>, last: Emission)
    ensures Payload(emitted + [last]) == Payload(emitted) + last.data
  {
  }

  predicate SmallChunks(emitted: seq<Emission>) {
    forall i :: 0 <= i < |emitted| ==> 0 < |emitted[i].data| <= CHUNK
  }

  lemma {:induction false} RoundsBytes(st: SendState, length: nat, i: nat, net: nat -> bool, clock: nat -> int)
    requires st.failed == []
    ensures var r := Rounds(st, length, i, net, clock);
            Payload(r.emitted) + r.failed + r.sender.buffer == Payload(st.emitted) + st.sender.buffer
    decreases |st.sender.buffer|
  {
    if st.totalSent < length && st.sender.CanSend(CHUNK) {
      var (sender, chunk) := Dequeue(st.sender, CHUNK, clock(i));
      if chunk != [] {
        assert st.sender.buffer == chunk + sender.buffer;
        Assoc(Payload(st.emitted), chunk, sender.buffer);
        if net(i) {
          PayloadSnoc(st.emitted, Emission(st.localSeq, chunk));
          RoundsBytes(Sent(st, sender, chunk), length, i + 1, net, clock);
        }
      }
    }
  }

  lemma {:induction false} RoundsChunks(st: SendState, length: nat, i: nat, net: nat -> bool, clock: nat -> int)
    requires st.failed == [] && SmallChunks(st.emitted) && st.totalSent == |Payload(st.emitted)|
    ensures var r := Rounds(st, length, i, net, clock);
            && SmallChunks(r.emitted) && |r.failed| <= CHUNK && r.totalSent == |Payload(r.emitted)|
            && (r.failed == [] || exists j :: i <= j && !net(j))
    decreases |st.sender.buffer|
  {
    if st.totalSent < length && st.sender.CanSend(CHUNK) {
      var (sender, chunk) := Dequeue(st.sender, CHUNK, clock(i));
      if chunk != [] && net(i) {
        PayloadSnoc(st.emitted, Emission(st.localSeq, chunk));
        RoundsChunks(Sent(st, sender, chunk), length, i + 1, net, clock);
      }
    }
  }

  /** The chunks sent, then the chunk of a failed transmission, then what stays buffered are
      exactly the old buffer followed by the new data; every chunk has 1 to 1024 bytes; the
      result counts the bytes sent. */
  lemma SendConserves(s: Sender, localSeq: uint32, data: seq<byte>, net: nat -> bool, clock: nat -> int)
    ensures var r := Send(s, localSeq, data, net, clock);
            && Payload(r.emitted) + r.failed + r.sender.buffer == s.buffer + data
            && SmallChunks(r.emitted) && |r.failed| <= 1024
            && (forall i :: 0 <= i < |r.emitted| ==> 0 < |r.emitted[i].data| <= 1024)
            && r.totalSent == |Payload(r.emitted)|
            && (r.failed == [] || exists j :: 0 <= j && !net(j))
    ensures s.buffer == [] ==> Send(s, localSeq, data, net, clock).totalSent <= |data|
  {
    RoundsBytes(Before(s, localSeq, data), |data|, 0, net, clock);
    RoundsChunks(Before(s, localSeq, data), |data|, 0, net, clock);
  }

  // ----- how far the loop goes -----

  function CeilDiv(n: int): nat {
    if n <= 0 then 0 else (n + CHUNK - 1) / CHUNK
  }

  /** How many full chunks the window still admits. */
  function Room(s: Sender): nat {
    if s.inFlight <= s.EffectiveWindow() then (s.EffectiveWindow() - s.inFlight) / CHUNK else 0
  }

  lemma RoomIsGuard(s: Sender)
    ensures s.CanSend(CHUNK) <==> Room(s) > 0
  {
  }

  lemma OneRound(s: Sender, now: int)
    requires s.CanSend(CHUNK) && |s.buffer| > 0
    ensures var s' := Dequeue(s, CHUNK, now).0;
            if |s.buffer| >= CHUNK
            then |s'.buffer| == |s.buffer| - CHUNK && Room(s') == Room(s) - 1 && s'.inFlight == s.inFlight + CHUNK
            else s'.buffer == []
    ensures |Dequeue(s, CHUNK, now).1| == Min(CHUNK, |s.buffer|)
    ensures Dequeue(s, CHUNK, now).0.EffectiveWindow() == s.EffectiveWindow()
  {
    RoomIsGuard(s);
    var window, inFlight := s.EffectiveWindow(), s.inFlight;
    OneChunkLess(window - inFlight);
    Unwrapped(window, inFlight);
    assert s.AvailableWindow() == window - inFlight;
    var n := s.DequeueSize(CHUNK);
    assert n == Min(CHUNK, |s.buffer|) && inFlight + n <= window;
    Unwrapped(inFlight + n, 0);
  }

  lemma OneChunkLess(free: nat)
    requires free >= CHUNK
    ensures (free - CHUNK) / CHUNK == free / CHUNK - 1
  {
  }

  lemma Unwrapped(a: uint32, b: uint32)
    requires b <= a
    ensures (a - b) % TWO32 == a - b
  {
  }

  /** How many of the n transmissions from the i-th on succeed before the first that fails. */
  function Leading(net: nat -> bool, i: nat, n: nat): (k: nat)
    ensures k <= n && (k == n <==> forall j :: i <= j < i + n ==> net(j))
    decreases n
  {
    if n == 0 || !net(i) then 0 else
    var k := Leading(net, i + 1, n - 1);
    assert k == n - 1 ==> forall j :: i < j < i + n ==> net(j);
    k + 1
  }

  /** How many rounds the loop takes if every transmission succeeds: as many full chunks as
      cover the data and fit the window. */
  function RoundsWanted(length: int, room: nat): nat {
    Min(CeilDiv(length), room)
  }

  /** What the loop has sent in the end, from what it has sent so far. */
  function FinalTotal(total: nat, length: nat, buffered: nat, room: nat, net: nat -> bool, i: nat): nat {
    Min(total + CHUNK * Leading(net, i, RoundsWanted(length - total, room)), total + buffered)
  }

  lemma FinalTotalStep(total: nat, length: nat, buffered: nat, room: nat, net: nat -> bool, i: nat)
    requires total < length <= total + buffered && room > 0
    ensures FinalTotal(total, length, buffered, room, net, i) ==
            if !net(i) then total
            else if buffered >= CHUNK then FinalTotal(total + CHUNK, length, buffered - CHUNK, room - 1, net, i + 1)
            else total + buffered
    ensures RoundsWanted(length - total, room) > 0
    ensures if buffered >= CHUNK
            then RoundsWanted(length - total, room) == 1 + RoundsWanted(length - total - CHUNK, room - 1)
            else RoundsWanted(length - total, room) == 1
  {
    OneRoundLess(length - total);
    if buffered < CHUNK {
      assert CeilDiv(length - total) == 1;
    }
    hide CeilDiv;
  }

  lemma OneRoundLess(n: int)
    requires n > 0
    ensures CeilDiv(n) == 1 + CeilDiv(n - CHUNK)
  {
  }

  /** The loop's result has a closed form, and its rounds are all successful exactly when the
      wanted ones are. */
  lemma {:induction false} RoundsClosedForm(st: SendState, length: nat, i: nat, net: nat -> bool, clock: nat -> int)
    requires st.failed == [] && st.totalSent + |st.sender.buffer| >= length
    ensures var r, wanted := Rounds(st, length, i, net, clock), RoundsWanted(length - st.totalSent, Room(st.sender));
            && r.totalSent == FinalTotal(st.totalSent, length, |st.sender.buffer|, Room(st.sender), net, i)
            && (r.failed == [] <==> Leading(net, i, wanted) == wanted)
    decreases |st.sender.buffer|
  {
    hide Rounds, FinalTotal, RoundsWanted, Room, Dequeue;
    RoomIsGuard(st.sender);
    RoundStep(st, length, i, net, clock);
    if st.totalSent < length && st.sender.CanSend(CHUNK) {
      OneRound(st.sender, clock(i));
      FinalTotalStep(st.totalSent, length, |st.sender.buffer|, Room(st.sender), net, i);
      var (sender, chunk) := Dequeue(st.sender, CHUNK, clock(i));
      if net(i) {
        var next := Sent(st, sender, chunk);
        RoundsClosedForm(next, length, i + 1, net, clock);
        if |st.sender.buffer| < CHUNK {
          NoRounds(next, length, i + 1, net);
        }
      }
    } else {
      NoRounds(st, length, i, net);
    }
  }

  /** Nothing more is sent once the data is covered or the window has no room. */
  lemma NoRounds(st: SendState, length: nat, i: nat, net: nat -> bool)
    requires st.totalSent >= length || Room(st.sender) == 0
    ensures RoundsWanted(length - st.totalSent, Room(st.sender)) == 0
    ensures FinalTotal(st.totalSent, length, |st.sender.buffer|, Room(st.sender), net, i) == st.totalSent
  {
    hide Room;
  }

  /** The rounds a call takes while transmissions succeed. */
  function Wanted(s: Sender, data: seq<byte>): nat {
    RoundsWanted(|data|, Room(s))
  }

  /** Whatever the network does, send returns the smaller of all it had buffered and the full
      chunks before the first failure, among those that cover the new data and fit the window. */
  lemma SendClosedForm(s: Sender, localSeq: uint32, data: seq<byte>, net: nat -> bool, clock: nat -> int)
    ensures Send(s, localSeq, data, net, clock).totalSent ==
            Min(1024 * Leading(net, 0, Wanted(s, data)), |s.buffer| + |data|)
  {
    hide Rounds, RoundsWanted;
    RoundsClosedForm(Before(s, localSeq, data), |data|, 0, net, clock);
  }

  /** A call loses a chunk exactly when one of the transmissions it wants fails. */
  lemma SendFailsIff(s: Sender, localSeq: uint32, data: seq<byte>, net: nat -> bool, clock: nat -> int)
    ensures Send(s, localSeq, data, net, clock).failed == [] <==> forall i :: 0 <= i < Wanted(s, data) ==> net(i)
  {
    hide Rounds, RoundsWanted;
    RoundsClosedForm(Before(s, localSeq, data), |data|, 0, net, clock);
  }

  /** send reports more bytes than it was given exactly when older bytes were waiting, the
      new data does not fill its last chunk, the window admits that chunk, and no
      transmission up to it fails. */
  lemma OverReportsIff(s: Sender, localSeq: uint32, data: seq<byte>, net: nat -> bool, clock: nat -> int)
    ensures Send(s, localSeq, data, net, clock).totalSent > |data| <==>
            && |s.buffer| > 0 && |data| % 1024 != 0 && Room(s) >= CeilDiv(|data|)
            && forall i :: 0 <= i < CeilDiv(|data|) ==> net(i)
  {
    hide Room, Send;
    SendClosedForm(s, localSeq, data, net, clock);
    var k := Leading(net, 0, Wanted(s, data));
    ChunksCover(k, |data|);
  }

  lemma ChunksCover(k: nat, n: nat)
    ensures k < CeilDiv(n) ==> CHUNK * k < n
    ensures k == CeilDiv(n) ==> (CHUNK * k > n <==> n % CHUNK != 0)
  {
  }

  /** A byte that waited for the window makes a call of one byte return 2. */
  lemma OneByteReportedAsTwo(net: nat -> bool, clock: nat -> int)
    requires net(0)
    ensures var shut := Step(INITIAL, RemoteWindow(0));
            var waiting := Send(shut, 0, [7], net, clock);
            var reopened := Step(waiting.sender, RemoteWindow(0xFFFF));
            waiting.totalSent == 0 && Send(reopened, waiting.localSeq, [7], net, clock).totalSent == 2
  {
    var shut := Step(INITIAL, RemoteWindow(0));
    assert Room(shut) == 0;
    var waiting := Send(shut, 0, [7], net, clock);
    RoomIsGuard(Before(shut, 0, [7]).sender);
    assert waiting == Before(shut, 0, [7]);
    var reopened := Step(waiting.sender, RemoteWindow(0xFFFF));
    assert Room(reopened) == 63 && |reopened.buffer| == 1 && CeilDiv(1) == 1;
    hide Rounds, Room;
    SendClosedForm(reopened, waiting.localSeq, [7], net, clock);
    assert Leading(net, 0, 1) == 1;
  }

  /** Work conservation, from any state of the loop that has enough buffered: if no
      transmission fails, it stops only when the data is covered or the window is too full
      for another chunk. */
  lemma {:induction false} RoundsWorkConserving(st: SendState, length: nat, i: nat, net: nat -> bool, clock: nat -> int)
    requires Rounds(st, length, i, net, clock).failed == [] && st.totalSent + |st.sender.buffer| >= length
    ensures var r := Rounds(st, length, i, net, clock);
            r.totalSent >= length || r.sender.inFlight + CHUNK > r.sender.EffectiveWindow()
    decreases |st.sender.buffer|
  {
    RoomIsGuard(st.sender);
    if st.totalSent < length && st.sender.CanSend(CHUNK) {
      OneRound(st.sender, clock(i));
      var (sender, chunk) := Dequeue(st.sender, CHUNK, clock(i));
      var next := Sent(st, sender, chunk);
      RoundsWorkConserving(next, length, i + 1, net, clock);
    }
  }

  lemma SendWorkConserving(s: Sender, localSeq: uint32, data: seq<byte>, net: nat -> bool, clock: nat -> int)
    requires forall i :: 0 <= i < Wanted(s, data) ==> net(i)
    ensures var r := Send(s, localSeq, data, net, clock);
            r.totalSent >= |data| || r.sender.inFlight + 1024 > r.sender.EffectiveWindow()
  {
    SendFailsIff(s, localSeq, data, net, clock);
    RoundsWorkConserving(Before(s, localSeq, data), |data|, 0, net, clock);
  }

  // ----- tracked and wire sequence numbers -----

  function Labels(segments: seq<Segment>): (r: seq<Emission>)
    ensures |r| == |segments|
    ensures forall i :: 0 <= i < |r| ==> r[i] == Emission(segments[i].seqNum, segments[i].data)
  {
    seq(|segments|, i requires 0 <= i < |segments| => Emission(segments[i].seqNum, segments[i].data))
  }

  /** Given that the connection's sequence number is the sender's, the segments a call tracks
      and the segments it puts on the wire carry the same numbers and bytes; a failed
      transmission leaves one more tracked, and only that separates the two counters. */
  lemma {:induction false} RoundsAgree(st: SendState, length: nat, i: nat, net: nat -> bool, clock: nat -> int,
                                       before: seq<Segment>, tracked: seq<Segment>)
    requires st.localSeq == st.sender.nextSeq && st.failed == []
    requires st.sender.unacked == before + tracked && Labels(tracked) == st.emitted
    ensures var r := Rounds(st, length, i, net, clock);
            && before <= r.sender.unacked
            && r.emitted <= Labels(r.sender.unacked[|before|..])
            && (if r.failed == [] then Labels(r.sender.unacked[|before|..]) == r.emitted
                else Labels(r.sender.unacked[|before|..])
                     == r.emitted + [Emission(r.localSeq, r.failed)])
            && (r.localSeq == r.sender.nextSeq <==> r.failed == [])
    decreases |st.sender.buffer|
  {
    assert st.sender.unacked[|before|..] == tracked;
    if st.totalSent < length && st.sender.CanSend(CHUNK) {
      var (sender, chunk) := Dequeue(st.sender, CHUNK, clock(i));
      if chunk != [] {
        var next := Tracked(st.sender, chunk, clock(i));
        assert sender.unacked == before + (tracked + [next]);
        assert Labels(tracked + [next]) == st.emitted + [Emission(st.localSeq, chunk)];
        if net(i) {
          RoundsAgree(Sent(st, sender, chunk), length, i + 1, net, clock, before, tracked + [next]);
        } else {
          assert sender.unacked[|before|..] == tracked + [next];
          assert Add32(st.sender.nextSeq, |chunk|) != st.sender.nextSeq;
        }
      }
    }
  }

  // ----- numbering -----

  /** Each segment's number is where the bytes before it end, modulo 2^32. */
  predicate Numbered(wire: seq<Emission>, start: uint32) {
    |wire| > 0 ==>
      var front := wire[..|wire| - 1];
      Numbered(front, start) && wire[|wire| - 1].seqNum == Add32(start, |Payload(front)|)
  }

  lemma NumberedSnoc(wire: seq<Emission>, start: uint32, data: seq<byte>)
    requires Numbered(wire, start)
    ensures Numbered(wire + [Emission(Add32(start, |Payload(wire)|), data)], start)
    ensures Add32(Add32(start, |Payload(wire)|), |data|)
            == Add32(start, |Payload(wire + [Emission(Add32(start, |Payload(wire)|), data)])|)
  {
    var last := Emission(Add32(start, |Payload(wire)|), data);
    PayloadSnoc(wire, last);
    ReduceEarly(start + |Payload(wire)|, |data|);
    assert (wire + [last])[..|wire|] == wire;
  }

  lemma {:induction false} RoundsNumbered(st: SendState, length: nat, i: nat, net: nat -> bool, clock: nat -> int,
                                          start: uint32)
    requires Numbered(st.emitted, start) && st.localSeq == Add32(start, |Payload(st.emitted)|)
    ensures var r := Rounds(st, length, i, net, clock);
            Numbered(r.emitted, start) && r.localSeq == Add32(start, |Payload(r.emitted)|)
    decreases |st.sender.buffer|
  {
    hide Payload, Numbered;
    if st.totalSent < length && st.sender.CanSend(CHUNK) {
      var (sender, chunk) := Dequeue(st.sender, CHUNK, clock(i));
      if chunk != [] && net(i) {
        NumberedSnoc(st.emitted, start, chunk);
        RoundsNumbered(Sent(st, sender, chunk), length, i + 1, net, clock, start);
      }
    }
  }

  /** Whatever fails, the segments of one call are numbered consecutively from local_seq. */
  lemma SendNumbered(s: Sender, localSeq: uint32, data: seq<byte>, net: nat -> bool, clock: nat -> int)
    ensures var r := Send(s, localSeq, data, net, clock);
            Numbered(r.emitted, localSeq) && r.localSeq == Add32(localSeq, |Payload(r.emitted)|)
  {
    RoundsNumbered(Before(s, localSeq, data), |data|, 0, net, clock, localSeq);
  }

  lemma NumberedLast(wire: seq<Emission>, start: uint32)
    requires Numbered(wire, start) && |wire| > 0
    ensures var front, last := wire[..|wire| - 1], wire[|wire| - 1];
            && wire == front + [last] && Numbered(front, start)
            && last.seqNum == Add32(start, |Payload(front)|) && Payload(wire) == Payload(front) + last.data
  {
  }

  lemma NothingNumbered(start: uint32)
    ensures Numbered([], start) && Payload([]) == []
  {
  }

  lemma AddNothing(x: uint32)
    ensures Add32(x, 0) == x
  {
  }

  lemma AddTwice(x: uint32, m: nat, n: nat)
    ensures Add32(Add32(x, m), n) == Add32(x, m + n)
  {
    ReduceEarly(x + m, n);
  }

  lemma {:induction false} NumberedAppend(a: seq<Emission>, b: seq<Emission>, start: uint32)
    requires Numbered(a, start) && Numbered(b, Add32(start, |Payload(a)|))
    ensures Numbered(a + b, start) && Payload(a + b) == Payload(a) + Payload(b)
    decreases |b|
  {
    hide Payload, Numbered, Add32;
    if |b| == 0 {
      NothingNumbered(start);
      assert b == [] && a + b == a;
    } else {
      var front, last := b[..|b| - 1], b[|b| - 1];
      NumberedLast(b, Add32(start, |Payload(a)|));
      NumberedAppend(a, front, start);
      assert a + b == a + front + [last];
      AddTwice(start, |Payload(a)|, |Payload(front)|);
      NumberedSnoc(a + front, start, last.data);
      PayloadSnoc(a + front, last);
      Assoc(Payload(a), Payload(front), last.data);
    }
  }

  // ----- retransmission -----

  /** The positions a pass selects, in list order. */
  function DueOf(s: Sender, now: int): (due: seq<nat>)
    ensures forall k :: 0 <= k < |due| ==> due[k] < |s.unacked|
  {
    Due(s.unacked, |s.unacked|, now, s.estimate.rto, s.maxRetransmits)
  }

  /** The segments a pass selects, in list order. */
  function Selected(s: Sender, now: int): (r: seq<Segment>)
    ensures |r| == |DueOf(s, now)|
  {
    Picked(s.unacked, DueOf(s, now))
  }

  function Picked(segments: seq<Segment>, positions: seq<nat>): (r: seq<Segment>)
    requires forall k :: 0 <= k < |positions| ==> positions[k] < |segments|
    ensures |r| == |positions| && forall k :: 0 <= k < |r| ==> r[k] == segments[positions[k]]
  {
    seq(|positions|, k requires 0 <= k < |positions| => segments[positions[k]])
  }

  /** When the segment at a position is marked: after as many marks as there are selected
      positions before it. */
  function MarkTimes(s: Sender, now: int, clock: nat -> int): nat -> int {
    (i: nat) => if i <= |s.unacked| then clock(|Due(s.unacked, i, now, s.estimate.rto, s.maxRetransmits)|) else 0
  }

  /** The sends of one retransmission pass: each successful one carries, and then advances,
      the connection's current sequence number. */
  function Resend(segments: seq<Segment>, localSeq: uint32, net: nat -> bool): (r: (uint32, seq<Emission>))
  {
    if |segments| == 0 then (localSeq, [])
    else
      var n := |segments| - 1;
      var (at, sent) := Resend(segments[..n], localSeq, net);
      if net(n) then (Add32(at, |segments[n].data|), sent + [Emission(at, segments[n].data)]) else (at, sent)
  }

  /** A pass moves the connection's sequence number past the bytes it resends, while the
      tracked numbers stay: if wire and tracking agreed before, they agree after exactly
      when no transmission of the pass succeeds. */
  lemma ResendBreaksAgreement(segments: seq<Segment>, localSeq: uint32, net: nat -> bool)
    requires |SlidingWindow.Bytes(segments)| < TWO32
    requires forall k :: 0 <= k < |segments| ==> segments[k].data != []
    ensures Resend(segments, localSeq, net).0 == localSeq <==> forall k :: 0 <= k < |segments| ==> !net(k)
  {
    hide Payload, SlidingWindow.Bytes, Resend;
    ResendAdvances(segments, localSeq, net);
    NothingResent(segments, localSeq, net);
    var sent := Resend(segments, localSeq, net).1;
    AdvanceShows(localSeq, |Payload(sent)|);
  }

  lemma AdvanceShows(x: uint32, n: nat)
    requires n < TWO32
    ensures Add32(x, n) == x <==> n == 0
  {
  }

  lemma {:induction false} NothingResent(segments: seq<Segment>, localSeq: uint32, net: nat -> bool)
    requires forall k :: 0 <= k < |segments| ==> segments[k].data != []
    ensures Payload(Resend(segments, localSeq, net).1) == [] <==> forall k :: 0 <= k < |segments| ==> !net(k)
  {
    if |segments| > 0 {
      var n := |segments| - 1;
      NothingResent(segments[..n], localSeq, net);
      var (at, sent) := Resend(segments[..n], localSeq, net);
      PayloadSnoc(sent, Emission(at, segments[n].data));
    }
  }

  lemma {:induction false} ResendAdvances(segments: seq<Segment>, localSeq: uint32, net: nat -> bool)
    ensures var (at, sent) := Resend(segments, localSeq, net);
            && at == Add32(localSeq, |Payload(sent)|) && Numbered(sent, localSeq)
            && |Payload(sent)| <= |SlidingWindow.Bytes(segments)|
  {
    hide Payload, Numbered, Add32, SlidingWindow.Bytes;
    if |segments| == 0 {
      NothingNumbered(localSeq);
      AddNothing(localSeq);
    } else {
      var n := |segments| - 1;
      ResendAdvances(segments[..n], localSeq, net);
      var (at, sent) := Resend(segments[..n], localSeq, net);
      PayloadSnoc(sent, Emission(at, segments[n].data));
      NumberedSnoc(sent, localSeq, segments[n].data);
      SlidingWindow.BytesAppend(segments[..n], [segments[n]]);
      SlidingWindow.OneSegment(segments[n]);
      assert segments == segments[..n] + [segments[n]];
    }
  }

  // ----- runs of a connected socket -----

  /** send calls, retransmission passes, and everything else that reaches the sender; net(k)
      says whether the k-th transmission succeeds and clock(k) is its time. */
  datatype SocketOp = SendCall(data: seq<byte>, net: nat -> bool, clock: nat -> int)
                    | RetransmitPass(now: int, net: nat -> bool, clock: nat -> int)
                    | Environment(op: Op)

  /** The sender, conn->local_seq, every segment put on the wire and every segment tracked; how
      many bytes were in chunks whose transmission failed, and how many were sent again. */
  datatype SocketState = SocketState(
    sender: Sender, localSeq: uint32, wire: seq<Emission>, tracked: seq<Emission>, lost: nat, resent: nat)

  /** A socket after set_initial_seq(conn->local_seq). */
  function Fresh(localSeq: uint32): SocketState {
    SocketState(INITIAL.(nextSeq := localSeq), localSeq, [], [], 0, 0)
  }

  /** Acknowledgments, windows, timing: not what only the socket itself may do. */
  predicate IsEnvironment(op: Op) {
    !op.BufferData? && !op.GetData? && !op.Retransmit?
  }

  predicate OnlyEnvironment(ops: seq<SocketOp>) {
    forall i :: 0 <= i < |ops| && ops[i].Environment? ==> IsEnvironment(ops[i].op)
  }

  /** Every transmission that a call wants succeeds, and nothing is sent again. */
  predicate Permitted(st: SocketState, op: SocketOp) {
    match op
    case SendCall(data, net, clock) => forall i :: 0 <= i < Wanted(st.sender, data) ==> net(i)
    case RetransmitPass(_, _, _) => false
    case Environment(e) => IsEnvironment(e)
  }

  function SocketStep(st: SocketState, op: SocketOp): SocketState {
    match op
    case SendCall(data, net, clock) =>
      var r := Send(st.sender, st.localSeq, data, net, clock);
      var added := if |r.sender.unacked| < |st.sender.unacked| then [] else r.sender.unacked[|st.sender.unacked|..];
      SocketState(r.sender, r.localSeq, st.wire + r.emitted, st.tracked + Labels(added), st.lost + |r.failed|,
                  st.resent)
    case RetransmitPass(now, net, clock) =>
      var (at, again) := Resend(Selected(st.sender, now), st.localSeq, net);
      st.(sender := Step(st.sender, Retransmit(now, MarkTimes(st.sender, now, clock))), localSeq := at,
          wire := st.wire + again, resent := st.resent + |Payload(again)|)
    case Environment(e) => st.(sender := Step(st.sender, e))
  }

  function SocketRun(st: SocketState, ops: seq<SocketOp>): SocketState {
    if |ops| == 0 then st else SocketStep(SocketRun(st, ops[..|ops| - 1]), ops[|ops| - 1])
  }

  predicate PermittedRun(st: SocketState, ops: seq<SocketOp>) {
    |ops| > 0 ==>
      PermittedRun(st, ops[..|ops| - 1]) && Permitted(SocketRun(st, ops[..|ops| - 1]), ops[|ops| - 1])
  }

  /** The segments behind the first n are new: never sent again, and sent at the readings of the
      clock, in order. */
  predicate NewSince(segments: seq<Segment>, n: nat, clock: nat -> int) {
    forall k: nat :: n <= k < |segments| ==>
      segments[k].sentTime == clock(k - n) && segments[k].retransmits == 0 && !segments[k].acknowledged
  }

  lemma {:induction false} RoundsTrackNew(st: SendState, length: nat, i: nat, net: nat -> bool, clock: nat -> int,
                                          before: seq<Segment>)
    requires before <= st.sender.unacked && |st.sender.unacked| == |before| + i
    requires NewSince(st.sender.unacked, |before|, clock)
    ensures var r := Rounds(st, length, i, net, clock);
            before <= r.sender.unacked && NewSince(r.sender.unacked, |before|, clock)
    decreases |st.sender.buffer|
  {
    hide Add32, Sender.DequeueSize, Sender.CanSend;
    if st.totalSent < length && st.sender.CanSend(CHUNK) {
      var (sender, chunk) := Dequeue(st.sender, CHUNK, clock(i));
      if chunk != [] && net(i) {
        RoundsTrackNew(Sent(st, sender, chunk), length, i + 1, net, clock, before);
      }
    }
  }

  /** A call leaves the tracked segments as they are and appends new ones, the k-th of them sent
      at the k-th reading of the clock. */
  lemma SendTracksNew(s: Sender, localSeq: uint32, data: seq<byte>, net: nat -> bool, clock: nat -> int)
    ensures var r := Send(s, localSeq, data, net, clock);
            s.unacked <= r.sender.unacked && NewSince(r.sender.unacked, |s.unacked|, clock)
  {
    RoundsTrackNew(Before(s, localSeq, data), |data|, 0, net, clock, s.unacked);
  }

  lemma SendAgrees(s: Sender, data: seq<byte>, net: nat -> bool, clock: nat -> int)
    ensures var r := Send(s, s.nextSeq, data, net, clock);
            && s.unacked <= r.sender.unacked
            && r.emitted <= Labels(r.sender.unacked[|s.unacked|..])
            && (r.failed == [] ==> Labels(r.sender.unacked[|s.unacked|..]) == r.emitted)
            && (r.localSeq == r.sender.nextSeq <==> r.failed == [])
  {
    assert s.unacked == s.unacked + [];
    RoundsAgree(Before(s, s.nextSeq, data), |data|, 0, net, clock, s.unacked, []);
  }

  /** From set_initial_seq(conn->local_seq), over any run of send calls whose transmissions
      succeed, mixed with acknowledgments, window and timing changes, every segment on the
      wire has the sequence number and bytes it is tracked under, wrapping at 2^32 included. */
  lemma {:induction false} WireAgreesWithTracking(localSeq: uint32, ops: seq<SocketOp>)
    requires PermittedRun(Fresh(localSeq), ops)
    ensures var st := SocketRun(Fresh(localSeq), ops);
            st.wire == st.tracked && st.localSeq == st.sender.nextSeq
  {
    if |ops| > 0 {
      var before, op := ops[..|ops| - 1], ops[|ops| - 1];
      WireAgreesWithTracking(localSeq, before);
      var st := SocketRun(Fresh(localSeq), before);
      match op
      case SendCall(data, net, clock) =>
        SendFailsIff(st.sender, st.localSeq, data, net, clock);
        SendAgrees(st.sender, data, net, clock);
      case Environment(e) =>
    }
  }

  /** The bytes of all send calls. */
  function Written(ops: seq<SocketOp>): seq<byte> {
    if |ops| == 0 then []
    else Written(ops[..|ops| - 1]) + (if ops[|ops| - 1].SendCall? then ops[|ops| - 1].data else [])
  }

  /** Over any such run, the payload of all segments on the wire followed by the buffer is all
      that was ever passed to send, in order, and the segments are numbered consecutively. */
  lemma {:induction false} WireCarriesWritten(localSeq: uint32, ops: seq<SocketOp>)
    requires PermittedRun(Fresh(localSeq), ops)
    ensures var st := SocketRun(Fresh(localSeq), ops);
            && Payload(st.wire) + st.sender.buffer == Written(ops)
            && Numbered(st.wire, localSeq) && st.localSeq == Add32(localSeq, |Payload(st.wire)|)
  {
    if |ops| > 0 {
      var before, op := ops[..|ops| - 1], ops[|ops| - 1];
      WireCarriesWritten(localSeq, before);
      var st := SocketRun(Fresh(localSeq), before);
      hide Payload, Numbered, Send, Step, Labels, Add32, Wanted;
      match op
      case SendCall(data, net, clock) =>
        SendCarriesWritten(st, localSeq, data, net, clock);
        Assoc(Payload(st.wire), st.sender.buffer, data);
      case Environment(e) => EnvironmentKeepsBuffer(st.sender, e);
    }
  }

  lemma EnvironmentKeepsBuffer(s: Sender, op: Op)
    requires IsEnvironment(op)
    ensures Step(s, op).buffer == s.buffer
  {
  }

  lemma SendCarriesWritten(st: SocketState, start: uint32, data: seq<byte>, net: nat -> bool, clock: nat -> int)
    requires Permitted(st, SendCall(data, net, clock))
    requires Numbered(st.wire, start) && st.localSeq == Add32(start, |Payload(st.wire)|)
    ensures var r := Send(st.sender, st.localSeq, data, net, clock);
            && Payload(st.wire + r.emitted) + r.sender.buffer == Payload(st.wire) + (st.sender.buffer + data)
            && Numbered(st.wire + r.emitted, start) && r.localSeq == Add32(start, |Payload(st.wire + r.emitted)|)
  {
    hide Payload, Numbered, Send;
    var r := Send(st.sender, st.localSeq, data, net, clock);
    SendFailsIff(st.sender, st.localSeq, data, net, clock);
    SendConserves(st.sender, st.localSeq, data, net, clock);
    SendNumbered(st.sender, st.localSeq, data, net, clock);
    NumberedAppend(st.wire, r.emitted, start);
    ReduceEarly(start + |Payload(st.wire)|, |Payload(r.emitted)|);
    assert Payload(r.emitted) + r.failed == Payload(r.emitted);
    Assoc(Payload(st.wire), Payload(r.emitted), r.sender.buffer);
  }

  // ----- the two counters over every run -----

  /** Whatever fails and whatever is sent again, the wire is numbered consecutively from the
      initial number, and local_seq is where it ends. */
  lemma {:induction false} WireNumbered(localSeq: uint32, ops: seq<SocketOp>)
    ensures var st := SocketRun(Fresh(localSeq), ops);
            Numbered(st.wire, localSeq) && st.localSeq == Add32(localSeq, |Payload(st.wire)|)
  {
    hide Payload, Numbered, Send, Resend, Step, Labels, Add32, Selected, MarkTimes;
    if |ops| == 0 {
      NothingNumbered(localSeq);
      AddNothing(localSeq);
    } else {
      var st, op := SocketRun(Fresh(localSeq), ops[..|ops| - 1]), ops[|ops| - 1];
      WireNumbered(localSeq, ops[..|ops| - 1]);
      match op
      case SendCall(data, net, clock) =>
        var emitted := Send(st.sender, st.localSeq, data, net, clock).emitted;
        SendNumbered(st.sender, st.localSeq, data, net, clock);
        NumberedAppend(st.wire, emitted, localSeq);
        AddTwice(localSeq, |Payload(st.wire)|, |Payload(emitted)|);
      case RetransmitPass(now, net, clock) =>
        var again := Resend(Selected(st.sender, now), st.localSeq, net).1;
        ResendAdvances(Selected(st.sender, now), st.localSeq, net);
        NumberedAppend(st.wire, again, localSeq);
        AddTwice(localSeq, |Payload(st.wire)|, |Payload(again)|);
      case Environment(e) =>
    }
  }

  /** The sender's number moves with what leaves the buffer, transmitted or not. */
  lemma {:induction false} RoundsMove(st: SendState, length: nat, i: nat, net: nat -> bool, clock: nat -> int)
    ensures var r := Rounds(st, length, i, net, clock);
            && |r.sender.buffer| <= |st.sender.buffer|
            && r.sender.nextSeq == Add32(st.sender.nextSeq, |st.sender.buffer| - |r.sender.buffer|)
    decreases |st.sender.buffer|
  {
    hide Add32, Sender.DequeueSize, Sender.CanSend;
    AddNothing(st.sender.nextSeq);
    if st.totalSent < length && st.sender.CanSend(CHUNK) {
      var (sender, chunk) := Dequeue(st.sender, CHUNK, clock(i));
      if chunk != [] && net(i) {
        RoundsMove(Sent(st, sender, chunk), length, i + 1, net, clock);
        var r := Rounds(Sent(st, sender, chunk), length, i + 1, net, clock);
        AddTwice(st.sender.nextSeq, |chunk|, |sender.buffer| - |r.sender.buffer|);
      }
    }
  }

  /** What was written is buffered or handed out; the sender's number counts what was handed
      out; what was handed out or sent again was sent or lost. */
  predicate Balanced(st: SocketState, start: uint32, written: nat) {
    && |st.sender.buffer| <= written
    && st.sender.nextSeq == Add32(start, written - |st.sender.buffer|)
    && |Payload(st.wire)| + st.lost == written - |st.sender.buffer| + st.resent
  }

  lemma {:induction false} RunBalanced(localSeq: uint32, ops: seq<SocketOp>)
    requires OnlyEnvironment(ops)
    ensures Balanced(SocketRun(Fresh(localSeq), ops), localSeq, |Written(ops)|)
  {
    hide Payload, Send, Resend, Labels, Add32, Selected, MarkTimes;
    if |ops| == 0 {
      NothingNumbered(localSeq);
      AddNothing(localSeq);
    } else {
      var st, op := SocketRun(Fresh(localSeq), ops[..|ops| - 1]), ops[|ops| - 1];
      RunBalanced(localSeq, ops[..|ops| - 1]);
      match op
      case SendCall(data, net, clock) => SendBalanced(st, localSeq, |Written(ops[..|ops| - 1])|, data, net, clock);
      case RetransmitPass(now, net, clock) =>
        PayloadAppend(st.wire, Resend(Selected(st.sender, now), st.localSeq, net).1);
      case Environment(e) => EnvironmentKeepsBuffer(st.sender, e);
    }
  }

  lemma SendBalanced(st: SocketState, start: uint32, written: nat, data: seq<byte>, net: nat -> bool, clock: nat -> int)
    requires Balanced(st, start, written)
    ensures Balanced(SocketStep(st, SendCall(data, net, clock)), start, written + |data|)
  {
    hide Payload, Rounds, Labels, Add32;
    var r := Send(st.sender, st.localSeq, data, net, clock);
    RoundsMove(Before(st.sender, st.localSeq, data), |data|, 0, net, clock);
    SendConserves(st.sender, st.localSeq, data, net, clock);
    PayloadAppend(st.wire, r.emitted);
    AddTwice(start, written - |st.sender.buffer|, |st.sender.buffer| + |data| - |r.sender.buffer|);
  }

  lemma {:induction false} PayloadAppend(a: seq<Emission>, b: seq<Emission>)
    ensures Payload(a + b) == Payload(a) + Payload(b)
    decreases |b|
  {
    if |b| == 0 {
      assert a + b == a;
    } else {
      var front, last := b[..|b| - 1], b[|b| - 1];
      PayloadAppend(a, front);
      assert a + b == a + front + [last];
      PayloadSnoc(a + front, last);
      Assoc(Payload(a), Payload(front), last.data);
    }
  }

  /** At the end of any run, failures and passes included, the connection's number is the
      sender's exactly when as many bytes were sent again as were lost, modulo 2^32. */
  lemma CountersAgreeIff(localSeq: uint32, ops: seq<SocketOp>)
    requires OnlyEnvironment(ops)
    ensures var st := SocketRun(Fresh(localSeq), ops);
            && |Payload(st.wire)| + st.lost + |st.sender.buffer| == |Written(ops)| + st.resent
            && (st.localSeq == st.sender.nextSeq <==> (st.resent - st.lost) % TWO32 == 0)
            && (st.lost < TWO32 && st.resent < TWO32 ==> (st.localSeq == st.sender.nextSeq <==> st.resent == st.lost))
  {
    hide Payload, SocketRun, Written, Add32, Numbered;
    var st := SocketRun(Fresh(localSeq), ops);
    WireNumbered(localSeq, ops);
    RunBalanced(localSeq, ops);
    SameNumber(localSeq, |Payload(st.wire)|, |Written(ops)| - |st.sender.buffer|);
    SmallMultiple(st.resent, st.lost);
  }

  lemma SameNumber(start: uint32, m: nat, n: nat)
    ensures Add32(start, m) == Add32(start, n) <==> (m - n) % TWO32 == 0
  {
  }

  lemma SmallMultiple(m: nat, n: nat)
    ensures m < TWO32 && n < TWO32 ==> ((m - n) % TWO32 == 0 <==> m == n)
  {
  }

  // ----- a socket run is a guarded run of the sender -----

  /** The dequeues the loop makes. */
  function Dequeues(st: SendState, length: nat, i: nat, net: nat -> bool, clock: nat -> int): seq<Op>
    decreases |st.sender.buffer|
  {
    if st.totalSent >= length || !st.sender.CanSend(CHUNK) then [] else
    var (sender, chunk) := Dequeue(st.sender, CHUNK, clock(i));
    if chunk == [] then []
    else [GetData(CHUNK, clock(i))] +
         if net(i) then Dequeues(Sent(st, sender, chunk), length, i + 1, net, clock) else []
  }

  lemma {:induction false} RunAppend(s: Sender, a: seq<Op>, b: seq<Op>)
    ensures Run(s, a + b) == Run(Run(s, a), b)
    ensures GuardedRun(s, a) && GuardedRun(Run(s, a), b) ==> GuardedRun(s, a + b)
    decreases |b|
  {
    if |b| == 0 {
      assert a + b == a;
    } else {
      var front := b[..|b| - 1];
      RunAppend(s, a, front);
      assert (a + b)[..|a + b| - 1] == a + front;
    }
  }

  lemma OneOp(s: Sender, op: Op)
    ensures Run(s, [op]) == Step(s, op)
    ensures GuardedRun(s, [op]) <==> Guarded(s, op)
  {
    assert [op][..0] == [] && Run(s, []) == s;
  }

  lemma {:induction false} RoundsAreDequeues(st: SendState, length: nat, i: nat, net: nat -> bool, clock: nat -> int)
    ensures var ops := Dequeues(st, length, i, net, clock);
            Rounds(st, length, i, net, clock).sender == Run(st.sender, ops) && GuardedRun(st.sender, ops)
    decreases |st.sender.buffer|
  {
    hide Run, GuardedRun;
    OneOp(st.sender, GetData(CHUNK, clock(i)));
    NoOps(st.sender);
    if st.totalSent < length && st.sender.CanSend(CHUNK) {
      var (sender, chunk) := Dequeue(st.sender, CHUNK, clock(i));
      if chunk != [] {
        var rest := if net(i) then Dequeues(Sent(st, sender, chunk), length, i + 1, net, clock) else [];
        if net(i) {
          RoundsAreDequeues(Sent(st, sender, chunk), length, i + 1, net, clock);
        } else {
          NoOps(sender);
        }
        RunAppend(st.sender, [GetData(CHUNK, clock(i))], rest);
      }
    }
  }

  lemma NoOps(s: Sender)
    ensures Run(s, []) == s && GuardedRun(s, [])
  {
  }

  /** The calls on the sender behind a run of the socket. */
  function Calls(st: SocketState, ops: seq<SocketOp>): seq<Op> {
    if |ops| == 0 then [] else
    var before := SocketRun(st, ops[..|ops| - 1]);
    Calls(st, ops[..|ops| - 1]) +
    match ops[|ops| - 1]
    case SendCall(data, net, clock) =>
      [BufferData(data)] + Dequeues(Before(before.sender, before.localSeq, data), |data|, 0, net, clock)
    case RetransmitPass(now, net, clock) => [Retransmit(now, MarkTimes(before.sender, now, clock))]
    case Environment(op) => [op]
  }

  /** Every run of a socket, with failures and retransmission passes, is a guarded run of its
      sender: what AckLaws and SlidingWindow prove about such runs holds for sockets. */
  lemma {:induction false} SocketRunIsGuarded(st: SocketState, ops: seq<SocketOp>)
    requires OnlyEnvironment(ops)
    ensures SocketRun(st, ops).sender == Run(st.sender, Calls(st, ops)) && GuardedRun(st.sender, Calls(st, ops))
  {
    hide Run, GuardedRun;
    if |ops| == 0 {
      NoOps(st.sender);
    } else {
      var front := ops[..|ops| - 1];
      SocketRunIsGuarded(st, front);
      var before, calls := SocketRun(st, front), Calls(st, front);
      match ops[|ops| - 1]
      case SendCall(data, net, clock) =>
        var dequeues := Dequeues(Before(before.sender, before.localSeq, data), |data|, 0, net, clock);
        RoundsAreDequeues(Before(before.sender, before.localSeq, data), |data|, 0, net, clock);
        OneOp(before.sender, BufferData(data));
        RunAppend(before.sender, [BufferData(data)], dequeues);
        RunAppend(st.sender, calls, [BufferData(data)] + dequeues);
      case RetransmitPass(now, net, clock) =>
        var op := Retransmit(now, MarkTimes(before.sender, now, clock));
        OneOp(before.sender, op);
        RunAppend(st.sender, calls, [op]);
      case Environment(op) =>
        OneOp(before.sender, op);
        RunAppend(st.sender, calls, [op]);
    }
  }

  /** So a fresh socket never has more than 16 bits in flight and every dequeue ends within
      the window of its moment; and if numbers stay below 2^32 and nothing unsent is
      acknowledged, the invariant of the sliding window holds. */
  lemma SocketsAreSafe(localSeq: uint32, ops: seq<SocketOp>)
    requires OnlyEnvironment(ops)
    ensures var st := Fresh(localSeq);
            var calls := Calls(st, ops);
            && SocketRun(st, ops).sender.inFlight <= 0xFFFF
            && (forall i :: 0 <= i < |calls| && calls[i].GetData? ==>
                  SafeSend(Run(st.sender, calls[..i]), Run(st.sender, calls[..i + 1])))
            && (SlidingWindow.AdmissibleRun(SlidingWindow.Start(localSeq), calls) ==>
                  var h := SlidingWindow.RecordAll(SlidingWindow.Start(localSeq), calls);
                  h.sender == SocketRun(st, ops).sender && SlidingWindow.Inv(h, localSeq))
  {
    var st := Fresh(localSeq);
    SocketRunIsGuarded(st, ops);
    WindowSafety(st.sender, Calls(st, ops));
    SlidingWindow.RecordsTheRun(SlidingWindow.Start(localSeq), Calls(st, ops));
    if SlidingWindow.AdmissibleRun(SlidingWindow.Start(localSeq), Calls(st, ops)) {
      SlidingWindow.InvariantHolds(localSeq, Calls(st, ops));
    }
  }
}
