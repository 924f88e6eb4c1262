/** src/tcp_state_machine.cpp: the connection state machine. */
module StateMachine {

  datatype State = Closed | Listen | SynSent | SynReceived | Established | FinWait1 | FinWait2
                 | CloseWait | Closing | LastAck | TimeWait

  datatype Event = PassiveOpen | ActiveOpen | SynArrived | SynAckArrived | AckArrived | FinArrived
                 | CloseCall | Timeout | RstArrived

  /** The transition table. */
  function Transition(current: State, event: Event): State {
    match current
    case Closed =>
      (match event
       case PassiveOpen => Listen
       case ActiveOpen => SynSent
       case _ => current)
    case Listen =>
      (match event
       case SynArrived => SynReceived
       case CloseCall => Closed
       case _ => current)
    case SynSent =>
      (match event
       case SynAckArrived => Established
       case SynArrived => SynReceived
       case CloseCall | Timeout | RstArrived => Closed
       case _ => current)
    case SynReceived =>
      (match event
       case AckArrived => Established
       case CloseCall | RstArrived => Closed
       case _ => current)
    case Established =>
      (match event
       case CloseCall => FinWait1
       case FinArrived => CloseWait
       case RstArrived => Closed
       case _ => current)
    case FinWait1 =>
      (match event
       case AckArrived => FinWait2
       case FinArrived => Closing
       case RstArrived => Closed
       case _ => current)
    case FinWait2 =>
      (match event
       case FinArrived => TimeWait
       case RstArrived => Closed
       case _ => current)
    case CloseWait =>
      (match event
       case CloseCall => LastAck
       case RstArrived => Closed
       case _ => current)
    case Closing =>
      (match event
       case AckArrived => TimeWait
       case RstArrived => Closed
       case _ => current)
    case LastAck =>
      (match event
       case AckArrived | RstArrived => Closed
       case _ => current)
    case TimeWait =>
      (match event
       case Timeout | RstArrived => Closed
       case _ => current)
  }

  predicate MaySend(s: State) {
    s == Established || s == CloseWait
  }

  predicate MayReceive(s: State) {
    s == Established || s == FinWait1 || s == FinWait2
  }

  class TCPStateMachine {
    var currentState: State

    constructor ()
      ensures currentState == Closed
    {
      currentState := Closed;
    }

    method ProcessEvent(event: Event) returns (state: State)
      modifies this
      ensures state == currentState == Transition(old(currentState), event)
    {
      var newState := Transition(currentState, event);
      if newState != currentState {
        currentState := newState;
      }
      state := currentState;
    }

    method Reset()
      modifies this
      ensures currentState == Closed
    {
      currentState := Closed;
    }

    predicate IsEstablished()
      reads this
    {
      currentState == Established
    }

    predicate CanSendData()
      reads this
    {
      MaySend(currentState)
    }

    predicate CanReceiveData()
      reads this
    {
      MayReceive(currentState)
    }
  }

  /** The state after a whole event sequence. */
  function Run(start: State, events: seq<Event>): State
  {
    if |events| == 0 then start
    else Transition(Run(start, events[..|events| - 1]), events[|events| - 1])
  }
}

/** What every event sequence keeps. */
module StateMachineLaws {
  import opened StateMachine

  /** The close call leaves every state that may send, and enters none. */
  lemma CloseEndsSending(s: State)
    ensures !MaySend(Transition(s, CloseCall))
  {
  }

  // ----- the state is determined by the close history -----

  /** The position of the first occurrence, or the length when there is none. */
  function First(events: seq<Event>, event: Event): (i: nat)
    ensures i <= |events|
    ensures i < |events| ==> events[i] == event
    ensures forall j :: 0 <= j < i ==> events[j] != event
  {
    if |events| == 0 then 0
    else if events[0] == event then 0
    else 1 + First(events[1..], event)
  }

  predicate OccursAfter(events: seq<Event>, i: nat, event: Event) {
    exists j :: i < j < |events| && events[j] == event
  }

  /** The state of a connection as a function of what happened since it was established:
      whether and in which order the close call and the peer's FIN came, and whether an
      ACK followed the close call. */
  function StateByHistory(events: seq<Event>): State {
    var closed, fin := First(events, CloseCall), First(events, FinArrived);
    if closed == |events| then (if fin == |events| then Established else CloseWait)
    else if fin < closed then LastAck
    else
      var acked := OccursAfter(events, closed, AckArrived);
      if fin == |events| then (if acked then FinWait2 else FinWait1)
      else if acked then TimeWait
      else Closing
  }

  ghost predicate NeverClosed(start: State, events: seq<Event>) {
    forall n :: 0 <= n <= |events| ==> Run(start, events[..n]) != Closed
  }

  /** What sends a connection back to CLOSED after the given history. */
  predicate Ends(events: seq<Event>, next: Event) {
    || next == RstArrived
    || (next == AckArrived && First(events, FinArrived) < First(events, CloseCall) < |events|)
    || (next == Timeout && First(events, CloseCall) < First(events, FinArrived) < |events|
        && OccursAfter(events, First(events, CloseCall), AckArrived))
  }

  lemma FirstExtends(events: seq<Event>, next: Event, event: Event)
    ensures First(events + [next], event) ==
            if First(events, event) < |events| then First(events, event)
            else if next == event then |events| else |events| + 1
  {
    var all := events + [next];
    var i := First(events, event);
    if i < |events| {
      assert all[i] == event;
    } else {
      assert forall j :: 0 <= j < |events| ==> all[j] == events[j];
      assert all[|events|] == next;
    }
  }

  lemma OccursAfterExtends(events: seq<Event>, next: Event, i: nat, event: Event)
    ensures OccursAfter(events + [next], i, event) <==>
            OccursAfter(events, i, event) || (i < |events| && next == event)
  {
    var all := events + [next];
    if OccursAfter(events, i, event) {
      var j :| i < j < |events| && events[j] == event;
      assert all[j] == event;
    }
    if i < |events| && next == event {
      assert all[|events|] == event;
    }
    if OccursAfter(all, i, event) {
      var j :| i < j < |all| && all[j] == event;
      assert j < |events| ==> events[j] == event;
    }
  }

  /** One more event: either it ends the connection or the history function follows it. */
  lemma HistoryStep(events: seq<Event>, next: Event)
    ensures Transition(StateByHistory(events), next) ==
            if Ends(events, next) then Closed else StateByHistory(events + [next])
  {
    hide First, OccursAfter;
    FirstExtends(events, next, CloseCall);
    FirstExtends(events, next, FinArrived);
    OccursAfterExtends(events, next, First(events, CloseCall), AckArrived);
    FirstsDiffer(events);
    NothingAfter(events, AckArrived);
    if First(events, CloseCall) == |events| && next == CloseCall {
      OccursAfterExtends(events, next, |events|, AckArrived);
    }
  }

  lemma NothingAfter(events: seq<Event>, event: Event)
    ensures !OccursAfter(events, |events|, event)
  {
  }

  lemma FirstsDiffer(events: seq<Event>)
    ensures First(events, CloseCall) == First(events, FinArrived) ==> First(events, CloseCall) == |events|
  {
  }

  lemma RunSnoc(start: State, events: seq<Event>, next: Event)
    ensures Run(start, events + [next]) == Transition(Run(start, events), next)
  {
  }

  /** For every event sequence after ESTABLISHED, as long as the machine has not returned to
      CLOSED, the state is the one the close history determines. */
  lemma {:induction false} StateFollowsHistory(events: seq<Event>)
    requires NeverClosed(Established, events)
    ensures Run(Established, events) == StateByHistory(events)
  {
    if |events| > 0 {
      var before, next := events[..|events| - 1], events[|events| - 1];
      assert events == before + [next];
      assert forall n :: 0 <= n <= |before| ==> before[..n] == events[..n];
      StateFollowsHistory(before);
      HistoryStep(before, next);
      assert events[..|events|] == events;
    }
  }

  /** The machine returns to CLOSED exactly when the next event ends the connection. */
  lemma ClosesExactlyWhen(events: seq<Event>, next: Event)
    requires NeverClosed(Established, events)
    ensures Run(Established, events + [next]) == Closed <==> Ends(events, next)
  {
    StateFollowsHistory(events);
    RunSnoc(Established, events, next);
    HistoryStep(events, next);
  }

  /** Until the return to CLOSED, sending is allowed exactly while the application has not
      closed and receiving exactly while no FIN has arrived. */
  lemma PermissionsFollowHistory(events: seq<Event>)
    requires NeverClosed(Established, events)
    ensures MaySend(Run(Established, events)) <==> CloseCall !in events
    ensures MayReceive(Run(Established, events)) <==> FinArrived !in events
  {
    StateFollowsHistory(events);
    HistoryPermissions(events);
  }

  // ----- from CLOSED to ESTABLISHED -----

  lemma {:induction false} RunCons(start: State, first: Event, rest: seq<Event>)
    ensures Run(start, [first] + rest) == Run(Transition(start, first), rest)
  {
    var all := [first] + rest;
    if |rest| == 0 {
      assert all[..0] == [];
    } else {
      var front, last := rest[..|rest| - 1], rest[|rest| - 1];
      RunCons(start, first, front);
      assert all[..|all| - 1] == [first] + front;
    }
  }

  lemma NeverClosedTail(start: State, events: seq<Event>)
    requires |events| > 0 && NeverClosed(start, events)
    ensures NeverClosed(Transition(start, events[0]), events[1..])
  {
    forall n | 0 <= n <= |events| - 1
      ensures Run(Transition(start, events[0]), events[1..][..n]) != Closed
    {
      RunCons(start, events[0], events[1..][..n]);
      assert [events[0]] + events[1..][..n] == events[..n + 1];
    }
  }

  /** What follows the first occurrence of an event. */
  function After(events: seq<Event>, event: Event): seq<Event>
    requires event in events
  {
    events[First(events, event) + 1..]
  }

  function StateSynReceived(events: seq<Event>): State {
    if AckArrived in events then StateByHistory(After(events, AckArrived)) else SynReceived
  }

  function StateListening(events: seq<Event>): State {
    if SynArrived in events then StateSynReceived(After(events, SynArrived)) else Listen
  }

  function StateConnecting(events: seq<Event>): State {
    if First(events, SynAckArrived) < First(events, SynArrived) then StateByHistory(After(events, SynAckArrived))
    else if SynArrived in events then StateSynReceived(After(events, SynArrived))
    else SynSent
  }

  lemma FirstOfTail(events: seq<Event>, event: Event)
    requires |events| > 0 && events[0] != event
    ensures First(events, event) == 1 + First(events[1..], event)
    ensures event in events <==> event in events[1..]
    ensures event in events ==> After(events, event) == After(events[1..], event)
  {
  }

  lemma {:induction false} SynReceivedLife(events: seq<Event>)
    requires NeverClosed(SynReceived, events)
    ensures Run(SynReceived, events) == StateSynReceived(events)
  {
    if |events| > 0 {
      var first, rest := events[0], events[1..];
      RunCons(SynReceived, first, rest);
      assert events == [first] + rest;
      NeverClosedTail(SynReceived, events);
      if first == AckArrived {
        StateFollowsHistory(rest);
      } else {
        assert rest[..0] == [];
        SynReceivedLife(rest);
        FirstOfTail(events, AckArrived);
      }
    }
  }

  /** A passive connection, from its open on. */
  lemma {:induction false} ListeningLife(events: seq<Event>)
    requires NeverClosed(Listen, events)
    ensures Run(Listen, events) == StateListening(events)
  {
    if |events| > 0 {
      var first, rest := events[0], events[1..];
      RunCons(Listen, first, rest);
      assert events == [first] + rest;
      NeverClosedTail(Listen, events);
      if first == SynArrived {
        SynReceivedLife(rest);
      } else {
        assert rest[..0] == [];
        ListeningLife(rest);
        FirstOfTail(events, SynArrived);
      }
    }
  }

  /** An active connection, from its open on: a SYN+ACK establishes it, a crossing SYN sends
      it through SYN_RECEIVED, whichever comes first. */
  lemma {:induction false} ConnectingLife(events: seq<Event>)
    requires NeverClosed(SynSent, events)
    ensures Run(SynSent, events) == StateConnecting(events)
  {
    if |events| > 0 {
      var first, rest := events[0], events[1..];
      RunCons(SynSent, first, rest);
      assert events == [first] + rest;
      NeverClosedTail(SynSent, events);
      if first == SynAckArrived {
        StateFollowsHistory(rest);
      } else if first == SynArrived {
        SynReceivedLife(rest);
      } else {
        assert rest[..0] == [];
        ConnectingLife(rest);
        FirstOfTail(events, SynAckArrived);
        FirstOfTail(events, SynArrived);
      }
    }
  }

  /** An open call on a CLOSED machine, and what it makes of it. */
  predicate IsOpen(event: Event) {
    event == PassiveOpen || event == ActiveOpen
  }

  /** The first open call, or the length when there is none. */
  function FirstOpen(events: seq<Event>): (i: nat)
    ensures i <= |events|
    ensures i < |events| ==> IsOpen(events[i])
    ensures forall j :: 0 <= j < i ==> !IsOpen(events[j])
  {
    if |events| == 0 || IsOpen(events[0]) then 0 else 1 + FirstOpen(events[1..])
  }

  /** The machine stays CLOSED until the first open call; then a passive open begins the life
      of a listening machine, an active one that of a connecting one. */
  function StateFromClosed(events: seq<Event>): State {
    var i := FirstOpen(events);
    if i == |events| then Closed
    else if events[i] == PassiveOpen then StateListening(events[i + 1..])
    else StateConnecting(events[i + 1..])
  }

  ghost predicate NotReturned(events: seq<Event>) {
    forall n :: FirstOpen(events) < n <= |events| ==> Run(Closed, events[..n]) != Closed
  }

  /** From CLOSED, for every event sequence that has not returned there: an arriving SYN, or any
      event but an open call, leaves a CLOSED machine as it is, and from the first open call
      on the state is the one the history determines. */
  lemma {:induction false} LifeFromClosed(events: seq<Event>)
    requires NotReturned(events)
    ensures Run(Closed, events) == StateFromClosed(events)
  {
    if |events| > 0 {
      hide StateListening, StateConnecting, StateFromClosed, NotReturned, Run;
      var first, rest := events[0], events[1..];
      assert events == [first] + rest;
      RunCons(Closed, first, rest);
      NotReturnedTail(events);
      FirstEventFromClosed(events);
      if first == PassiveOpen {
        ListeningLife(rest);
      } else if first == ActiveOpen {
        ConnectingLife(rest);
      } else {
        LifeFromClosed(rest);
      }
    } else {
      assert events == [];
    }
  }

  lemma FirstEventFromClosed(events: seq<Event>)
    requires |events| > 0
    ensures StateFromClosed(events) ==
            if events[0] == PassiveOpen then StateListening(events[1..])
            else if events[0] == ActiveOpen then StateConnecting(events[1..])
            else StateFromClosed(events[1..])
  {
    hide StateListening, StateConnecting;
    var rest := events[1..];
    var i := FirstOpen(rest);
    assert i < |rest| ==> events[i + 2..] == rest[i + 1..];
  }

  lemma NotReturnedTail(events: seq<Event>)
    requires |events| > 0 && NotReturned(events)
    ensures if IsOpen(events[0]) then NeverClosed(Transition(Closed, events[0]), events[1..])
            else NotReturned(events[1..])
  {
    var first, rest := events[0], events[1..];
    hide Run;
    forall n | (if IsOpen(first) then 0 else FirstOpen(rest) + 1) <= n <= |rest|
      ensures Run(Transition(Closed, first), rest[..n]) != Closed
    {
      RunCons(Closed, first, rest[..n]);
      assert [first] + rest[..n] == events[..n + 1];
    }
  }

  // ----- permissions over whole lives -----

  /** What happened since the connection was established, if it has been. */
  datatype Since = Never | Since(events: seq<Event>)

  function SinceSynReceived(events: seq<Event>): Since {
    if AckArrived in events then Since(After(events, AckArrived)) else Never
  }

  function SinceListening(events: seq<Event>): Since {
    if SynArrived in events then SinceSynReceived(After(events, SynArrived)) else Never
  }

  function SinceConnecting(events: seq<Event>): Since {
    if First(events, SynAckArrived) < First(events, SynArrived) then Since(After(events, SynAckArrived))
    else if SynArrived in events then SinceSynReceived(After(events, SynArrived))
    else Never
  }

  function SinceOpened(events: seq<Event>): Since {
    var i := FirstOpen(events);
    if i == |events| then Never
    else if events[i] == PassiveOpen then SinceListening(events[i + 1..])
    else SinceConnecting(events[i + 1..])
  }

  /** Over every life from CLOSED on, a connection may send exactly once it has been established
      and until the close call, and receive exactly once established and until the FIN: in
      CLOSED, LISTEN, SYN_SENT and SYN_RECEIVED it may do neither, so a SYN cannot be sent. */
  lemma PermissionsFromClosed(events: seq<Event>)
    requires NotReturned(events)
    ensures Permits(Run(Closed, events), SinceOpened(events))
  {
    hide Run, Permits, StateListening, StateConnecting, SinceListening, SinceConnecting;
    LifeFromClosed(events);
    NeverPermits();
    var i := FirstOpen(events);
    if i < |events| {
      ListeningPermits(events[i + 1..]);
      ConnectingPermits(events[i + 1..]);
    }
  }

  predicate Permits(s: State, since: Since) {
    && (MaySend(s) <==> since.Since? && CloseCall !in since.events)
    && (MayReceive(s) <==> since.Since? && FinArrived !in since.events)
  }

  lemma NeverPermits()
    ensures forall s :: s == Closed || s == Listen || s == SynSent || s == SynReceived ==> Permits(s, Never)
  {
  }

  lemma SynReceivedPermits(events: seq<Event>)
    ensures Permits(StateSynReceived(events), SinceSynReceived(events))
  {
    hide StateByHistory;
    NeverPermits();
    if AckArrived in events {
      HistoryPermissions(After(events, AckArrived));
    }
  }

  lemma ListeningPermits(events: seq<Event>)
    ensures Permits(StateListening(events), SinceListening(events))
  {
    hide Permits, StateSynReceived, SinceSynReceived;
    NeverPermits();
    if SynArrived in events {
      SynReceivedPermits(After(events, SynArrived));
    }
  }

  lemma ConnectingPermits(events: seq<Event>)
    ensures Permits(StateConnecting(events), SinceConnecting(events))
  {
    hide StateByHistory, StateSynReceived, SinceSynReceived;
    NeverPermits();
    if First(events, SynAckArrived) < First(events, SynArrived) {
      HistoryPermissions(After(events, SynAckArrived));
    } else if SynArrived in events {
      SynReceivedPermits(After(events, SynArrived));
    }
  }

  lemma HistoryPermissions(events: seq<Event>)
    ensures MaySend(StateByHistory(events)) <==> CloseCall !in events
    ensures MayReceive(StateByHistory(events)) <==> FinArrived !in events
  {
    FirstsDiffer(events);
  }

  // ----- how every life ends -----

  /** What ends a connection that has not been established, or one that has. */
  predicate EndsSynReceived(events: seq<Event>, next: Event) {
    if AckArrived in events then Ends(After(events, AckArrived), next) else next == CloseCall || next == RstArrived
  }

  predicate EndsListening(events: seq<Event>, next: Event) {
    if SynArrived in events then EndsSynReceived(After(events, SynArrived), next) else next == CloseCall
  }

  predicate EndsConnecting(events: seq<Event>, next: Event) {
    if First(events, SynAckArrived) < First(events, SynArrived) then Ends(After(events, SynAckArrived), next)
    else if SynArrived in events then EndsSynReceived(After(events, SynArrived), next)
    else next == CloseCall || next == Timeout || next == RstArrived
  }

  lemma EndsOfHistory(events: seq<Event>, next: Event)
    ensures Transition(StateByHistory(events), next) == Closed <==> Ends(events, next)
  {
    hide Transition, Ends;
    HistoryStep(events, next);
  }

  lemma EndsOfSynReceived(events: seq<Event>, next: Event)
    ensures Transition(StateSynReceived(events), next) == Closed <==> EndsSynReceived(events, next)
  {
    hide Ends, StateByHistory;
    if AckArrived in events {
      EndsOfHistory(After(events, AckArrived), next);
    }
  }

  /** From its open on, a passive connection returns to CLOSED exactly by a close call while
      it listens, a close call or a reset before the handshake ends, and what ends an
      established one after it. */
  lemma ListeningClosesExactlyWhen(events: seq<Event>, next: Event)
    requires NeverClosed(Listen, events)
    ensures Run(Listen, events + [next]) == Closed <==> EndsListening(events, next)
  {
    hide Ends, EndsSynReceived, StateSynReceived;
    ListeningLife(events);
    RunSnoc(Listen, events, next);
    if SynArrived in events {
      EndsOfSynReceived(After(events, SynArrived), next);
    }
  }

  /** The same for an active connection, which a timeout ends too while it waits for an answer
      to its SYN. */
  lemma ConnectingClosesExactlyWhen(events: seq<Event>, next: Event)
    requires NeverClosed(SynSent, events)
    ensures Run(SynSent, events + [next]) == Closed <==> EndsConnecting(events, next)
  {
    hide Ends, EndsSynReceived, StateSynReceived, StateByHistory;
    ConnectingLife(events);
    RunSnoc(SynSent, events, next);
    if First(events, SynAckArrived) < First(events, SynArrived) {
      EndsOfHistory(After(events, SynAckArrived), next);
    } else if SynArrived in events {
      EndsOfSynReceived(After(events, SynArrived), next);
    }
  }

  lemma SynReceivedClosesExactlyWhen(events: seq<Event>, next: Event)
    requires NeverClosed(SynReceived, events)
    ensures Run(SynReceived, events + [next]) == Closed <==> EndsSynReceived(events, next)
  {
    SynReceivedLife(events);
    RunSnoc(SynReceived, events, next);
    EndsOfSynReceived(events, next);
  }

  // ----- progress -----

  function Rank(s: State): nat {
    match s
    case Closed => 0
    case Listen | SynSent => 1
    case SynReceived => 2
    case Established => 3
    case FinWait1 | CloseWait => 4
    case FinWait2 | Closing | LastAck => 5
    case TimeWait => 6
  }

  lemma StepRaisesRank(s: State, event: Event)
    requires Transition(s, event) != s && Transition(s, event) != Closed
    ensures Rank(Transition(s, event)) > Rank(s)
  {
  }

  /** The number of events that change the state, and of those that return to CLOSED. */
  function Changes(start: State, events: seq<Event>): nat {
    if |events| == 0 then 0
    else Changes(start, events[..|events| - 1])
         + if Run(start, events) != Run(start, events[..|events| - 1]) then 1 else 0
  }

  function Returns(start: State, events: seq<Event>): nat {
    if |events| == 0 then 0
    else Returns(start, events[..|events| - 1])
         + if Run(start, events) == Closed != Run(start, events[..|events| - 1]) then 1 else 0
  }

  /** Every run makes at most 7 state changes per return to CLOSED plus the rank it has
      gained since; from CLOSED that is at most 7k + 6. */
  lemma {:induction false} ChangesBounded(start: State, events: seq<Event>)
    ensures Changes(start, events) + Rank(start) <= 7 * Returns(start, events) + Rank(Run(start, events))
    ensures Changes(start, events) <= 7 * Returns(start, events) + 6
  {
    if |events| > 0 {
      var before, next := events[..|events| - 1], events[|events| - 1];
      ChangesBounded(start, before);
      var s := Run(start, before);
      if Transition(s, next) != s && Transition(s, next) != Closed {
        StepRaisesRank(s, next);
      }
    }
  }

  /** One more connection: opened passively, closed by the application, up to TIME_WAIT. */
  function Life(events: seq<Event>): seq<Event> {
    events + [PassiveOpen] + [SynArrived] + [AckArrived] + [CloseCall] + [AckArrived] + [FinArrived]
  }

  lemma Extend(events: seq<Event>, next: Event)
    ensures var after := events + [next];
            && Run(Closed, after) == Transition(Run(Closed, events), next)
            && Changes(Closed, after) == Changes(Closed, events)
               + (if Run(Closed, after) != Run(Closed, events) then 1 else 0)
            && Returns(Closed, after) == Returns(Closed, events)
               + (if Run(Closed, after) == Closed != Run(Closed, events) then 1 else 0)
  {
  }

  lemma OneLife(events: seq<Event>)
    requires Run(Closed, events) == Closed
    ensures Run(Closed, Life(events)) == TimeWait
    ensures Changes(Closed, Life(events)) == Changes(Closed, events) + 6
    ensures Returns(Closed, Life(events)) == Returns(Closed, events)
  {
    Extend(events, PassiveOpen);
    var e1 := events + [PassiveOpen];
    Extend(e1, SynArrived);
    var e2 := e1 + [SynArrived];
    Extend(e2, AckArrived);
    var e3 := e2 + [AckArrived];
    Extend(e3, CloseCall);
    var e4 := e3 + [CloseCall];
    Extend(e4, AckArrived);
    Extend(e4 + [AckArrived], FinArrived);
  }

  /** A run from CLOSED that returned k times and made 7k + 6 changes. */
  predicate Reaches(events: seq<Event>, k: nat) {
    && Run(Closed, events) == TimeWait
    && Returns(Closed, events) == k
    && Changes(Closed, events) == 7 * k + 6
  }

  lemma AnotherLife(events: seq<Event>, k: nat)
    requires Reaches(events, k)
    ensures Reaches(Life(events + [Timeout]), k + 1)
  {
    Extend(events, Timeout);
    OneLife(events + [Timeout]);
  }

  /** The bound is reached for every k. */
  lemma {:induction false} BoundIsTight(k: nat)
    ensures exists events :: Reaches(events, k)
  {
    if k == 0 {
      OneLife([]);
      assert Reaches(Life([]), 0);
    } else {
      BoundIsTight(k - 1);
      var events :| Reaches(events, k - 1);
      AnotherLife(events, k - 1);
      assert Reaches(Life(events + [Timeout]), k);
    }
  }

  /** Within one connection life no state is entered twice: if the machine is in the same
      state at two points with no return to CLOSED between, it never left it. */
  lemma {:induction false} NoStateReentered(start: State, events: seq<Event>, i: nat, j: nat)
    requires i <= j <= |events|
    requires forall n :: i < n <= j ==> Run(start, events[..n]) != Closed
    ensures Rank(Run(start, events[..i])) <= Rank(Run(start, events[..j]))
    ensures Run(start, events[..i]) == Run(start, events[..j]) ==>
            forall n :: i <= n <= j ==> Run(start, events[..n]) == Run(start, events[..i])
    decreases j
  {
    if i < j {
      NoStateReentered(start, events, i, j - 1);
      assert events[..j][..j - 1] == events[..j - 1];
      var before, next := Run(start, events[..j - 1]), events[j - 1];
      assert Run(start, events[..j]) == Transition(before, next);
      if Transition(before, next) != before {
        StepRaisesRank(before, next);
        assert Rank(Run(start, events[..i])) < Rank(Run(start, events[..j]));
      }
    }
  }
}
