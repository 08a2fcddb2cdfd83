/** The BGP finite state machine (`sartd/src/bgp/src/peer/fsm.rs`), section 8.2.2 of RFC 4271. */
module Fsm {
  import opened Base

  datatype State = Idle | Connect | Active | OpenSent | OpenConfirm | Established

  const CONNECT_RETRY_EXPIRE: u8 := 9
  const KEEPALIVE_TIMER_EXPIRE: u8 := 11
  const DELAY_OPEN_EXPIRE: u8 := 12
  const TCP_CR_ACKED: u8 := 16
  const TCP_CONFIRMED: u8 := 17
  const TCP_FAIL: u8 := 18
  const BGP_OPEN: u8 := 19
  const KEEPALIVE_MSG: u8 := 26
  const UPDATE_MSG: u8 := 27

  /** The start events and the two connection events that no state but Idle reacts to. */
  predicate Ignored(e: u8) {
    e in {1, 3, 4, 5, 6, 7, 14, 15}
  }

  function Move(s: State, e: u8): State {
    match s
    case Idle =>
      if e == 1 || e == 3 then Connect
      else if e in {4, 5, 6, 7} then Active
      else Idle
    case Connect =>
      if e in {DELAY_OPEN_EXPIRE, TCP_CR_ACKED, TCP_CONFIRMED} then OpenSent
      else if e == TCP_FAIL then Active
      else if Ignored(e) || e == CONNECT_RETRY_EXPIRE then Connect
      else Idle
    case Active =>
      if e == CONNECT_RETRY_EXPIRE then Connect
      else if e in {DELAY_OPEN_EXPIRE, TCP_CR_ACKED, TCP_CONFIRMED} then OpenSent
      else if e == BGP_OPEN then OpenConfirm
      else if Ignored(e) then Active
      else Idle
    case OpenSent =>
      if e == TCP_FAIL then Active
      else if e == BGP_OPEN then OpenConfirm
      else if Ignored(e) || e == TCP_CR_ACKED || e == TCP_CONFIRMED then OpenSent
      else Idle
    case OpenConfirm =>
      if e == BGP_OPEN then Idle
      else if e == KEEPALIVE_MSG then Established
      else if Ignored(e) || e == KEEPALIVE_TIMER_EXPIRE then OpenConfirm
      else Idle
    case Established =>
      if e == KEEPALIVE_MSG || e == UPDATE_MSG then Established
      else if Ignored(e) || e == KEEPALIVE_TIMER_EXPIRE then Established
      else Idle
  }

  function Run(s: State, events: seq<u8>): State {
    if events == [] then s else Move(Run(s, events[..|events| - 1]), events[|events| - 1])
  }

  lemma {:induction false} RunConcat(s: State, xs: seq<u8>, ys: seq<u8>)
    ensures Run(s, xs + ys) == Run(Run(s, xs), ys)
    decreases |ys|
  {
    if ys == [] {
      assert xs + ys == xs;
    } else {
      var n := |ys| - 1;
      assert (xs + ys)[..|xs| + n] == xs + ys[..n];
      RunConcat(s, xs, ys[..n]);
    }
  }

  // ---------------------------------------------------------------- the states, from the events alone

  /** Events that a state sits out. */
  predicate Quiet(s: State, e: u8) {
    || e in {1, 3, 4, 5, 6, 7, 14, 15}
    || (s == Connect && e == 9)
    || (s == OpenSent && (e == 16 || e == 17))
    || (s == OpenConfirm && e == 11)
    || (s == Established && (e == 11 || e == 26 || e == 27))
  }

  /** The event brings a session that has had the events `before` into the state. */
  ghost predicate Enters(s: State, e: u8, before: seq<u8>)
    decreases |before|, 3
  {
    match s
    case Connect => ((e == 1 || e == 3) && In(Idle, before)) || (e == 9 && In(Active, before))
    case Active =>
      || ((e == 4 || e == 5 || e == 6 || e == 7) && In(Idle, before))
      || (e == 18 && (In(Connect, before) || In(OpenSent, before)))
    case OpenSent => (e == 12 || e == 16 || e == 17) && (In(Connect, before) || In(Active, before))
    case OpenConfirm => e == 19 && (In(Active, before) || In(OpenSent, before))
    case Established => e == 26 && In(OpenConfirm, before)
    case Idle => false
  }

  /** Some event brought the session into the state and everything since was sat out; Idle is what is left. */
  ghost predicate In(s: State, events: seq<u8>)
    decreases |events|, if s == Idle then 2 else 1
  {
    if s == Idle then
      !In(Connect, events) && !In(Active, events) && !In(OpenSent, events) && !In(OpenConfirm, events) && !In(Established, events)
    else
      exists i :: 0 <= i < |events| && Since(s, events, i)
  }

  /** The event at `i` brought the session into the state, and it sat out the rest. */
  ghost predicate Since(s: State, events: seq<u8>, i: nat)
    requires i < |events|
    decreases |events|, 0
  {
    Enters(s, events[i], events[..i]) && forall k :: i < k < |events| ==> Quiet(s, events[k])
  }

  lemma SinceLast(s: State, events: seq<u8>, i: nat)
    requires i < |events| - 1
    ensures var n := |events| - 1;
            Since(s, events, i) <==> Since(s, events[..n], i) && Quiet(s, events[n])
  {
    hide Enters, Quiet;
    var n := |events| - 1;
    var before := events[..n];
    assert before[i] == events[i] && before[..i] == events[..i];
    assert forall k :: i < k < n ==> before[k] == events[k];
  }

  /** A state was entered by the last event, or was there before it and sat it out. */
  lemma InByLast(s: State, events: seq<u8>)
    requires s != Idle && events != []
    ensures var n := |events| - 1;
            In(s, events) <==> Enters(s, events[n], events[..n]) || (In(s, events[..n]) && Quiet(s, events[n]))
  {
    hide Enters, Quiet;
    var n := |events| - 1;
    assert Since(s, events, n) <==> Enters(s, events[n], events[..n]);
    forall i | 0 <= i < n
      ensures Since(s, events, i) <==> Since(s, events[..n], i) && Quiet(s, events[n])
    {
      SinceLast(s, events, i);
    }
  }

  /**
   For event sequences of any length: a session that started in Idle is in a state, if and only if some event brought it
   there - from a state that the earlier events account for in the same way, down to a start event - and only events that
   the state sits out have come since.
   */
  lemma {:induction false} StateIff(events: seq<u8>, s: State)
    ensures Run(Idle, events) == s <==> In(s, events)
    decreases |events|
  {
    if events == [] {
      Nowhere(s);
    } else {
      var before := events[..|events| - 1];
      StateIff(before, Idle);
      StateIff(before, Connect);
      StateIff(before, Active);
      StateIff(before, OpenSent);
      StateIff(before, OpenConfirm);
      StateIff(before, Established);
      StepIff(events, before, s);
    }
  }

  lemma Nowhere(s: State)
    ensures In(s, []) <==> s == Idle
  {
  }

  lemma StepIff(events: seq<u8>, before: seq<u8>, s: State)
    requires events != [] && before == events[..|events| - 1]
    requires forall t: State :: In(t, before) <==> Run(Idle, before) == t
    ensures Run(Idle, events) == s <==> In(s, events)
  {
    hide In, Run;
    RunLast(events);
    InByLast(Connect, events);
    InByLast(Active, events);
    InByLast(OpenSent, events);
    InByLast(OpenConfirm, events);
    InByLast(Established, events);
    IdleOtherwise(events);
  }

  lemma RunLast(events: seq<u8>)
    requires events != []
    ensures Run(Idle, events) == Move(Run(Idle, events[..|events| - 1]), events[|events| - 1])
  {
  }

  lemma IdleOtherwise(events: seq<u8>)
    ensures In(Idle, events)
            <==> !In(Connect, events) && !In(Active, events) && !In(OpenSent, events) && !In(OpenConfirm, events) && !In(Established, events)
  {
  }

  predicate AllQuiet(s: State, events: seq<u8>) {
    forall i :: 0 <= i < |events| ==> Quiet(s, events[i])
  }

  /** Events that a state sits out leave it where it is. */
  lemma {:induction false} SitsOut(s: State, events: seq<u8>)
    requires s != Idle && AllQuiet(s, events)
    ensures Run(s, events) == s
    decreases |events|
  {
    if events != [] {
      SitsOut(s, events[..|events| - 1]);
    }
  }

  /** An active opening, with any events that are sat out at each stage, gets established: 1 or 3; 12, 16 or 17; 19; 26. */
  lemma OpensActively(start: u8, a: seq<u8>, connected: u8, b: seq<u8>, c: seq<u8>, d: seq<u8>)
    requires start in {1, 3} && connected in {12, 16, 17}
    requires AllQuiet(Connect, a) && AllQuiet(OpenSent, b) && AllQuiet(OpenConfirm, c) && AllQuiet(Established, d)
    ensures Run(Idle, [start] + a + [connected] + b + [19] + c + [26] + d) == Established
  {
    Then(Idle, [], start, a, Connect);
    assert [] + [start] + a == [start] + a;
    Then(Idle, [start] + a, connected, b, OpenSent);
    Then(Idle, [start] + a + [connected] + b, 19, c, OpenConfirm);
    Then(Idle, [start] + a + [connected] + b + [19] + c, 26, d, Established);
  }

  lemma Then(from: State, before: seq<u8>, e: u8, quiet: seq<u8>, to: State)
    requires to != Idle && Move(Run(from, before), e) == to && AllQuiet(to, quiet)
    ensures Run(from, before + [e] + quiet) == to
  {
    assert (before + [e])[..|before|] == before;
    RunConcat(from, before + [e], quiet);
    SitsOut(to, quiet);
  }

  lemma WhenOpened(events: seq<u8>) returns (i: nat)
    requires In(OpenConfirm, events)
    ensures i < |events| && Since(OpenConfirm, events, i)
  {
    hide Enters, Quiet;
    i :| 0 <= i < |events| && Since(OpenConfirm, events, i);
  }

  /** The handshake inside a run: where the OPEN came, and where the first KEEPALIVE after it. */
  ghost predicate Handshake(events: seq<u8>, i: nat, j: nat) {
    && i < j < |events|
    && (In(Active, events[..i]) || In(OpenSent, events[..i])) && events[i] == 19
    && (forall k :: i < k < j ==> Quiet(OpenConfirm, events[k])) && events[j] == 26
    && forall k :: j < k < |events| ==> Quiet(Established, events[k])
  }

  /**
   A session is established after a run from Idle, of any length, if and only if the run splits around an OPEN taken
   in Active or OpenSent and a later KEEPALIVE, with nothing but events that are sat out between and after them.
   */
  lemma EstablishedIff(events: seq<u8>)
    ensures Run(Idle, events) == Established <==> exists i: nat, j: nat :: Handshake(events, i, j)
  {
    hide Quiet;
    StateIff(events, Established);
    if In(Established, events) {
      var j: nat :| j < |events| && Since(Established, events, j);
      var before := events[..j];
      assert Enters(Established, events[j], before);
      var i := WhenOpened(before);
      assert before[..i] == events[..i] && forall k :: i <= k < j ==> before[k] == events[k];
      assert Enters(OpenConfirm, events[i], events[..i]);
      assert Handshake(events, i, j);
    }
    if i: nat, j: nat :| Handshake(events, i, j) {
      var before := events[..j];
      assert before[..i] == events[..i] && forall k :: i <= k < j ==> before[k] == events[k];
      assert Since(OpenConfirm, before, i);
      assert In(OpenConfirm, before);
      assert Since(Established, events, j);
    }
  }

  /** So no stop, hold timer expiry, failed connection, notification or second OPEN has come since that OPEN. */
  lemma NothingBrokeIt(events: seq<u8>)
    requires Run(Idle, events) == Established
    ensures exists i :: 0 <= i < |events| && events[i] == 19 && forall k :: i < k < |events| ==> events[k] !in {2, 8, 10, 18, 19, 25}
  {
    EstablishedIff(events);
    var i: nat, j: nat :| Handshake(events, i, j);
    assert forall k :: i < k < |events| ==> events[k] !in {2, 8, 10, 18, 19, 25};
  }

  // ---------------------------------------------------------------- the machine in place

  class FiniteStateMachine {
    var state: State
    /** The events so far. */
    ghost var events: seq<u8>

    ghost predicate Valid()
      reads this
    {
      state == Run(Idle, events)
    }

    constructor ()
      ensures Valid() && state == Idle && events == []
    {
      state := Idle;
      events := [];
    }

    /** `mv`: the state is always the one that all events so far lead to, and so it is Established exactly after a handshake. */
    method Mv(event: u8) returns (s: State)
      requires Valid()
      modifies this
      ensures Valid() && events == old(events) + [event] && s == state
      ensures forall t: State :: s == t <==> In(t, events)
      ensures s == Established <==> exists i: nat, j: nat :: Handshake(events, i, j)
    {
      var current := state;
      match state {
        case Idle =>
          if event == 1 || event == 3 {
            s := Connect;
          } else if event == 4 || event == 5 || event == 6 || event == 7 {
            s := Active;
          } else {
            s := current;
          }
        case Connect =>
          if event == DELAY_OPEN_EXPIRE || event == TCP_CR_ACKED || event == TCP_CONFIRMED {
            s := OpenSent;
          } else if event == TCP_FAIL {
            s := Active;
          } else if event in {1, 3, 4, 5, 6, 7, 9, 14, 15} {
            s := current;
          } else {
            s := Idle;
          }
        case Active =>
          if event == CONNECT_RETRY_EXPIRE {
            s := Connect;
          } else if event == DELAY_OPEN_EXPIRE || event == TCP_CR_ACKED || event == TCP_CONFIRMED {
            s := OpenSent;
          } else if event == BGP_OPEN {
            s := OpenConfirm;
          } else if event in {1, 3, 4, 5, 6, 7, 14, 15} {
            s := current;
          } else {
            s := Idle;
          }
        case OpenSent =>
          if event == TCP_FAIL {
            s := Active;
          } else if event == BGP_OPEN {
            s := OpenConfirm;
          } else if event in {1, 3, 4, 5, 6, 7, 14, 15, 16, 17} {
            s := current;
          } else {
            s := Idle;
          }
        case OpenConfirm =>
          if event == BGP_OPEN {
            s := Idle;
          } else if event == KEEPALIVE_MSG {
            s := Established;
          } else if event in {1, 3, 4, 5, 6, 7, 14, 15, KEEPALIVE_TIMER_EXPIRE} {
            s := current;
          } else {
            s := Idle;
          }
        case Established =>
          if event == KEEPALIVE_MSG || event == UPDATE_MSG {
            s := current;
          } else if event in {1, 3, 4, 5, 6, 7, 14, 15, KEEPALIVE_TIMER_EXPIRE} {
            s := current;
          } else {
            s := Idle;
          }
      }
      assert s == Move(state, event);
      ghost var now := events + [event];
      assert now[..|now| - 1] == events;
      state := s;
      events := now;
      forall t: State
        ensures s == t <==> In(t, events)
      {
        StateIff(events, t);
      }
      EstablishedIff(events);
    }
  }
}
