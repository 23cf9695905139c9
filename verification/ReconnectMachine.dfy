/**
 * The reconnecting WebSocket client (packages/core/api/ws-client.ts).
 *
 * Sockets and timers belong to the environment, which delivers their events in any order. Messages
 * that arrive on a socket after `disconnect` has closed it are not part of this model.
 */
module ReconnectMachine {

  import opened Common

  // ---- The delay before a new attempt

  const RECONNECT_BASE_DELAY_MS := 1000.0
  const RECONNECT_MAX_DELAY_MS := 30000.0

  function Pow2(n: nat): nat {
    if n == 0 then 1 else 2 * Pow2(n - 1)
  }

  function MinReal(a: real, b: real): real {
    if a <= b then a else b
  }

  function Base(attempt: nat): real {
    MinReal(RECONNECT_BASE_DELAY_MS * Pow2(attempt) as real, RECONNECT_MAX_DELAY_MS)
  }

  /** Rounding halves upward. */
  function Round(x: real): int {
    (x + 0.5).Floor
  }

  /** The delay for a jitter drawn from -1 up to but not including 1. */
  function Delay(attempt: nat, jitter: real): int {
    Round(MinReal(Base(attempt) + Base(attempt) * 0.2 * jitter, RECONNECT_MAX_DELAY_MS))
  }

  lemma {:induction false} Pow2Grows(m: nat, n: nat)
    requires m <= n
    ensures 1 <= Pow2(m) <= Pow2(n)
  {
    if m < n {
      Pow2Grows(m, n - 1);
    } else if n > 0 {
      Pow2Grows(m - 1, n - 1);
    }
  }

  lemma BaseBounds(attempt: nat)
    ensures RECONNECT_BASE_DELAY_MS <= Base(attempt) <= RECONNECT_MAX_DELAY_MS
    ensures attempt >= 5 ==> Base(attempt) == RECONNECT_MAX_DELAY_MS
  {
    Pow2Grows(0, attempt);
    if attempt >= 5 {
      assert Pow2(5) == 32;
      Pow2Grows(5, attempt);
    }
  }

  lemma RoundBounds(x: real, low: int, high: int)
    requires low as real <= x <= high as real
    ensures low <= Round(x) <= high
  {
    assert Round(x) as real <= x + 0.5 < Round(x) as real + 1.0;
  }

  /** Every delay lies between 800 and 30000 milliseconds, and from the sixth attempt on above 24000. */
  lemma DelayBounds(attempt: nat, jitter: real)
    requires -1.0 <= jitter < 1.0
    ensures 800 <= Delay(attempt, jitter) <= 30000
    ensures attempt >= 5 ==> 24000 <= Delay(attempt, jitter)
    ensures attempt >= 5 && jitter >= 0.0 ==> Delay(attempt, jitter) == 30000
  {
    var base := Base(attempt);
    BaseBounds(attempt);
    var x := MinReal(base + base * 0.2 * jitter, RECONNECT_MAX_DELAY_MS);
    if attempt >= 5 {
      RoundBounds(x, if jitter >= 0.0 then 30000 else 24000, 30000);
    } else {
      RoundBounds(x, 800, 30000);
    }
  }

  /** The lower bound is reached by the first attempt. */
  lemma ShortestDelay()
    ensures Delay(0, -1.0) == 800
  {
    assert Base(0) == 1000.0;
    RoundBounds(800.0, 800, 800);
  }

  /** Without jitter the delay doubles from a second up to half a minute. */
  lemma DelayDoubles(attempt: nat)
    ensures Delay(attempt, 0.0) == (match attempt
                                    case 0 => 1000
                                    case 1 => 2000
                                    case 2 => 4000
                                    case 3 => 8000
                                    case 4 => 16000
                                    case _ => 30000)
  {
    BaseDoubles(attempt);
    RoundBounds(Base(attempt), Delay(attempt, 0.0), Delay(attempt, 0.0));
  }

  lemma BaseDoubles(attempt: nat)
    ensures Base(attempt) == (match attempt
                              case 0 => 1000.0
                              case 1 => 2000.0
                              case 2 => 4000.0
                              case 3 => 8000.0
                              case 4 => 16000.0
                              case _ => 30000.0)
  {
    assert Pow2(0) == 1 && Pow2(1) == 2 && Pow2(2) == 4 && Pow2(3) == 8 && Pow2(4) == 16;
    BaseBounds(attempt);
  }

  /** Jitter moves the delay by up to a fifth of it either way, rounded, and never past half a minute. */
  lemma JitterExactly(attempt: nat, jitter: real)
    requires -1.0 <= jitter < 1.0
    ensures var exact := Delay(attempt, 0.0) as real * (1.0 + jitter / 5.0);
            var delay := Delay(attempt, jitter) as real;
            if exact <= 30000.0 then -0.5 < delay - exact <= 0.5 else delay == 30000.0
  {
    DelayDoubles(attempt);
    BaseDoubles(attempt);
    var base := Base(attempt);
    assert base + base * 0.2 * jitter == base * (1.0 + jitter / 5.0);
    var x := MinReal(base + base * 0.2 * jitter, RECONNECT_MAX_DELAY_MS);
    assert Round(x) as real <= x + 0.5 < Round(x) as real + 1.0;
  }

  // ---- The client and its environment

  /**
   * The fields of the client, and the environment: the sockets that are open or opening, those whose
   * close handler is still attached, the armed timers, and how often subscribers were told that a
   * connection was recovered. Field `ws` and the timer field may hold handles that are long dead.
   */
  datatype State = State(ws: Option<nat>, reconnectTimer: Option<nat>, attempt: nat, hasConnectedBefore: bool,
                         token: Option<string>, cookieAuth: bool,
                         live: set<nat>, handled: set<nat>, armed: set<nat>, nextHandle: nat, recovered: nat)

  datatype Event =
    | Connect
    | Opened(socket: nat)
    | AuthAck(socket: nat)
    | Closed(socket: nat)
    | TimerFires(timer: nat)
    | Disconnect

  function Connected(s: State): State {
    var k := s.nextHandle;
    s.(ws := Some(k), live := s.live + {k}, handled := s.handled + {k}, nextHandle := k + 1)
  }

  function Authenticated(s: State): State {
    s.(attempt := 0, hasConnectedBefore := true,
       recovered := if s.hasConnectedBefore || s.attempt > 0 then s.recovered + 1 else s.recovered)
  }

  function Scheduled(s: State): State {
    var t := s.nextHandle;
    s.(attempt := s.attempt + 1, reconnectTimer := Some(t), armed := s.armed + {t}, nextHandle := t + 1)
  }

  function Disconnected(s: State): State {
    var armed := if s.reconnectTimer.Some? then s.armed - {s.reconnectTimer.value} else s.armed;
    var live := if s.ws.Some? then s.live - {s.ws.value} else s.live;
    var handled := if s.ws.Some? then s.handled - {s.ws.value} else s.handled;
    s.(ws := None, reconnectTimer := None, attempt := 0, hasConnectedBefore := false,
       live := live, handled := handled, armed := armed)
  }

  /** The events that can happen: only live sockets speak, and only armed timers fire. */
  predicate Enabled(s: State, e: Event) {
    match e
    case Connect => true
    case Opened(k) => k in s.live
    case AuthAck(k) => k in s.live
    case Closed(k) => k in s.live
    case TimerFires(t) => t in s.armed
    case Disconnect => true
  }

  function Step(s: State, e: Event): State {
    match e
    case Connect => Connected(s)
    case Opened(_) => if !s.cookieAuth && Truthy(s.token) then s else Authenticated(s)
    case AuthAck(_) => Authenticated(s)
    case Closed(k) =>
      var t := s.(live := s.live - {k}, handled := s.handled - {k});
      if k in s.handled then Scheduled(t) else t
    case TimerFires(t) => Connected(s.(armed := s.armed - {t}))
    case Disconnect => Disconnected(s)
  }

  function Fresh(token: Option<string>, cookieAuth: bool): State {
    State(None, None, 0, false, token, cookieAuth, {}, {}, {}, 1, 0)
  }

  class WSClient {
    const token: Option<string>
    const cookieAuth: bool
    var ws: Option<nat>
    var reconnectTimer: Option<nat>
    var reconnectAttempt: nat
    var hasConnectedBefore: bool
    var live: set<nat>
    var handled: set<nat>
    var armed: set<nat>
    var nextHandle: nat
    var recovered: nat

    function Contents(): State
      reads this
    {
      State(ws, reconnectTimer, reconnectAttempt, hasConnectedBefore, token, cookieAuth,
            live, handled, armed, nextHandle, recovered)
    }

    constructor (authToken: Option<string>, cookies: bool)
      ensures Contents() == Fresh(authToken, cookies)
    {
      token, cookieAuth := authToken, cookies;
      ws, reconnectTimer, reconnectAttempt, hasConnectedBefore := None, None, 0, false;
      live, handled, armed, nextHandle, recovered := {}, {}, {}, 1, 0;
    }

    method ConnectSocket()
      modifies this
      ensures Contents() == Step(old(Contents()), Connect)
    {
      ws := Some(nextHandle);
      live, handled := live + {nextHandle}, handled + {nextHandle};
      nextHandle := nextHandle + 1;
    }

    method OnOpen(socket: nat)
      modifies this
      ensures Contents() == Step(old(Contents()), Opened(socket))
    {
      if !cookieAuth && Truthy(token) {
        return;
      }
      OnAuthenticated();
    }

    method OnAuthenticated()
      modifies this
      ensures Contents() == Authenticated(old(Contents()))
    {
      var recoveredConnection := hasConnectedBefore || reconnectAttempt > 0;
      reconnectAttempt := 0;
      if recoveredConnection {
        recovered := recovered + 1;
      }
      hasConnectedBefore := true;
    }

    method OnClose(socket: nat)
      modifies this
      ensures Contents() == Step(old(Contents()), Closed(socket))
    {
      var attached := socket in handled;
      live, handled := live - {socket}, handled - {socket};
      if attached {
        ScheduleReconnect();
      }
    }

    method ScheduleReconnect()
      modifies this
      ensures Contents() == Scheduled(old(Contents()))
    {
      reconnectAttempt := reconnectAttempt + 1;
      reconnectTimer := Some(nextHandle);
      armed := armed + {nextHandle};
      nextHandle := nextHandle + 1;
    }

    method OnTimer(timer: nat)
      modifies this
      ensures Contents() == Step(old(Contents()), TimerFires(timer))
    {
      armed := armed - {timer};
      ConnectSocket();
    }

    method DisconnectClient()
      modifies this
      ensures Contents() == Step(old(Contents()), Disconnect)
    {
      if reconnectTimer.Some? {
        armed := armed - {reconnectTimer.value};
        reconnectTimer := None;
      }
      if ws.Some? {
        live, handled := live - {ws.value}, handled - {ws.value};
        ws := None;
      }
      hasConnectedBefore := false;
      reconnectAttempt := 0;
    }
  }

  // ---- At most one socket or one timer, never both

  predicate Idle(s: State) {
    s.live == {} && s.armed == {}
  }

  ghost predicate OneSocket(s: State) {
    s.ws.Some? && s.live == {s.ws.value} && s.handled == s.live && s.armed == {}
  }

  ghost predicate OneTimer(s: State) {
    s.reconnectTimer.Some? && s.armed == {s.reconnectTimer.value} && s.live == {}
  }

  ghost predicate Inv(s: State) {
    && (Idle(s) || OneSocket(s) || OneTimer(s))
    && s.handled <= s.live
    && (forall k :: k in s.live ==> k < s.nextHandle) && (forall t :: t in s.armed ==> t < s.nextHandle)
  }

  /** Calling connect keeps the invariant exactly when there is neither a live socket nor an armed timer. */
  lemma {:induction false} ConnectExactly(s: State)
    requires Inv(s)
    ensures Inv(Step(s, Connect)) <==> Idle(s)
  {
    var t := Step(s, Connect);
    assert s.nextHandle in t.live;
    if !Idle(s) {
      if s.live != {} {
        var k :| k in s.live;
        assert k in t.live && k != s.nextHandle;
      }
    }
  }

  /** The owner calls connect only when idle, and only enabled events happen. */
  predicate Orderly(s: State, events: seq<Event>)
    decreases |events|
  {
    events != [] ==>
      && Enabled(s, events[0]) && (events[0].Connect? ==> Idle(s))
      && Orderly(Step(s, events[0]), events[1..])
  }

  function Run(s: State, events: seq<Event>): State
    decreases |events|
  {
    if events == [] then s else Run(Step(s, events[0]), events[1..])
  }

  /** Only enabled events happen. */
  predicate Possible(s: State, events: seq<Event>)
    decreases |events|
  {
    events != [] ==> Enabled(s, events[0]) && Possible(Step(s, events[0]), events[1..])
  }

  /** The invariant holds at every moment of the run. */
  ghost predicate Throughout(s: State, events: seq<Event>) {
    forall n :: 0 <= n <= |events| ==> Inv(Run(s, events[..n]))
  }

  lemma ThroughoutFirst(s: State, events: seq<Event>)
    requires events != []
    ensures Throughout(s, events) <==> Inv(s) && Throughout(Step(s, events[0]), events[1..])
  {
    var e, rest := events[0], events[1..];
    forall n | 0 <= n <= |rest| ensures Run(s, events[..n + 1]) == Run(Step(s, e), rest[..n]) {
      assert events[..n + 1] == [e] + rest[..n];
      RunOne(s, e, rest[..n]);
    }
    assert Run(s, events[..0]) == s;
    if Throughout(s, events) {
      forall n | 0 <= n <= |rest| ensures Inv(Run(Step(s, e), rest[..n])) {
        assert Inv(Run(s, events[..n + 1]));
      }
    }
    if Inv(s) && Throughout(Step(s, e), rest) {
      forall n | 0 <= n <= |events| ensures Inv(Run(s, events[..n])) {
        if n > 0 {
          assert Inv(Run(Step(s, e), rest[..n - 1]));
        }
      }
    }
  }

  /** A possible event keeps the invariant exactly when it is no connect of a client that is not idle. */
  lemma StepKeepsInvExactly(s: State, e: Event)
    requires Inv(s) && Enabled(s, e)
    ensures Inv(Step(s, e)) <==> (e.Connect? ==> Idle(s))
  {
    if e.Connect? {
      ConnectExactly(s);
    }
  }

  /** The invariant holds throughout a possible run exactly when every connect finds the client idle. */
  lemma {:induction false} ThroughoutExactly(s: State, events: seq<Event>)
    requires Inv(s) && Possible(s, events)
    ensures Throughout(s, events) <==> Orderly(s, events)
    decreases |events|
  {
    if events != [] {
      ThroughoutFirst(s, events);
      StepKeepsInvExactly(s, events[0]);
      if Inv(Step(s, events[0])) {
        ThroughoutExactly(Step(s, events[0]), events[1..]);
      } else {
        assert events[1..][..0] == [] && !Inv(Run(Step(s, events[0]), events[1..][..0]));
      }
    } else {
      assert events[..0] == events;
    }
  }

  /** Over every orderly run, a live socket and an armed timer never coexist, and there is never a second of either. */
  lemma {:induction false} RunKeepsInv(s: State, events: seq<Event>)
    requires Inv(s) && Orderly(s, events)
    ensures Inv(Run(s, events))
    ensures |Run(s, events).live| + |Run(s, events).armed| <= 1
    decreases |events|
  {
    if events != [] {
      RunKeepsInv(Step(s, events[0]), events[1..]);
    }
  }

  /** A socket or a timer is there, so the client will be back. */
  ghost predicate Trying(s: State) {
    OneSocket(s) || OneTimer(s)
  }

  /** What each event does to a client that tries: a lost socket arms a timer, a timer opens a socket. */
  lemma TryingStep(s: State, e: Event)
    requires Inv(s) && Trying(s) && Enabled(s, e) && !e.Connect? && !e.Disconnect?
    ensures Inv(Step(s, e))
    ensures e.Closed? ==> OneTimer(Step(s, e))
    ensures e.TimerFires? || e.Opened? || e.AuthAck? ==> OneSocket(Step(s, e))
  {
  }

  /** A new client is idle, and has nothing behind it that a first connection could recover from. */
  lemma FreshIsIdle(token: Option<string>, cookieAuth: bool)
    ensures var s := Fresh(token, cookieAuth);
            && Inv(s) && Idle(s) && s.attempt == 0 && !s.hasConnectedBefore && s.recovered == 0
            && s.token == token && s.cookieAuth == cookieAuth
  {
  }

  /** A disconnected client is as new, but for the credentials and what has been told so far. */
  lemma DisconnectForgets(s: State)
    ensures var t := Step(s, Disconnect);
            && t.ws == None && t.reconnectTimer == None && t.attempt == 0 && !t.hasConnectedBefore
            && t.token == s.token && t.cookieAuth == s.cookieAuth && t.recovered == s.recovered
  {
  }

  /** A socket whose close handler is detached closes without a sequel. */
  lemma DetachedCloseIsSilent(s: State, k: nat)
    requires k in s.live && k !in s.handled
    ensures Step(s, Closed(k)) == s.(live := s.live - {k})
  {
    assert s.handled - {k} == s.handled;
  }

  /** Once connected to, the client never gives up: until a disconnect there is always one socket or one timer. */
  lemma {:induction false} NeverGivesUp(s: State, events: seq<Event>)
    requires Inv(s) && Orderly(s, events) && (Trying(s) || (events != [] && events[0].Connect?))
    requires forall e :: e in events ==> !e.Disconnect?
    ensures Trying(Run(s, events))
    decreases |events|
  {
    if events != [] {
      var t := Step(s, events[0]);
      assert events[0] in events;
      if events[0].Connect? {
        ConnectExactly(s);
        assert OneSocket(t);
      } else {
        TryingStep(s, events[0]);
      }
      assert forall e :: e in events[1..] ==> e in events;
      NeverGivesUp(t, events[1..]);
    }
  }

  /** Until the owner connects again, nothing happens after a disconnect. */
  lemma {:induction false} SilentAfterDisconnect(s: State, events: seq<Event>)
    requires Inv(s) && Orderly(Disconnected(s), events)
    requires forall e :: e in events ==> !e.Connect?
    ensures Idle(Run(Disconnected(s), events))
    ensures forall e :: e in events ==> e.Disconnect?
  {
    SilentWhileIdle(Disconnected(s), events);
  }

  lemma {:induction false} SilentWhileIdle(s: State, events: seq<Event>)
    requires Inv(s) && Idle(s) && Orderly(s, events)
    requires forall e :: e in events ==> !e.Connect?
    ensures Idle(Run(s, events))
    ensures forall e :: e in events ==> e.Disconnect?
    decreases |events|
  {
    if events != [] {
      assert events[0] in events;
      SilentWhileIdle(Step(s, events[0]), events[1..]);
      assert events == [events[0]] + events[1..];
    }
  }

  /**
   * Connecting while a socket is live leaks the old one: when that closes, a timer is armed beside
   * the new socket; and when it closes after disconnect, a timer is armed all the same.
   */
  lemma SecondConnectLeaks(token: Option<string>, cookieAuth: bool)
    ensures var s := Run(Fresh(token, cookieAuth), [Connect, Connect, Closed(1)]);
            s.live != {} && s.armed != {}
    ensures var s := Run(Fresh(token, cookieAuth), [Connect, Connect, Disconnect, Closed(1)]);
            s.armed != {} && s.attempt == 1
  {
    var s := Fresh(token, cookieAuth);
    var s2 := Step(Step(s, Connect), Connect);
    assert 1 in s2.handled && 2 in s2.live;
    RunThree(s, Connect, Connect, Closed(1));
    var t := Step(s2, Closed(1));
    assert 2 in t.live && 3 in t.armed;
    var s3 := Step(s2, Disconnect);
    assert 1 in s3.handled;
    assert 3 in Step(s3, Closed(1)).armed;
    assert [Connect, Connect, Disconnect, Closed(1)] == [Connect] + [Connect, Disconnect, Closed(1)];
    RunOne(s, Connect, [Connect, Disconnect, Closed(1)]);
    RunThree(Step(s, Connect), Connect, Disconnect, Closed(1));
  }

  lemma RunOne(s: State, e: Event, rest: seq<Event>)
    ensures Run(s, [e] + rest) == Run(Step(s, e), rest)
  {
    assert ([e] + rest)[1..] == rest;
  }

  lemma RunThree(s: State, a: Event, b: Event, c: Event)
    ensures Run(s, [a, b, c]) == Step(Step(Step(s, a), b), c)
  {
    assert [a, b, c] == [a] + [b, c] && [b, c] == [b] + [c] && [c] == [c] + [];
    RunOne(s, a, [b, c]);
    RunOne(Step(s, a), b, [c]);
    RunOne(Step(Step(s, a), b), c, []);
  }

  // ---- The attempt counter and the recovery notice

  /** An event on which the client counts itself connected. */
  predicate Authenticates(s: State, e: Event) {
    e.AuthAck? || (e.Opened? && (s.cookieAuth || !Truthy(s.token)))
  }

  /** How many closes came after the last connection or disconnect. */
  function ClosesSince(s: State, events: seq<Event>, count: nat): nat {
    if events == [] then count
    else
      var e := events[0];
      ClosesSince(s, events[1..],
                  if e.Disconnect? || Authenticates(s, e) then 0 else if e.Closed? then count + 1 else count)
  }

  /** Whether anything was connected or lost since the last disconnect. */
  function HistorySince(s: State, events: seq<Event>, before: bool): bool {
    if events == [] then before
    else
      var e := events[0];
      HistorySince(s, events[1..], !e.Disconnect? && (before || e.Closed? || Authenticates(s, e)))
  }

  ghost predicate AllHandled(s: State) {
    s.handled == s.live
  }

  /** Over every orderly run, the backoff exponent is the number of closes since the last success. */
  lemma {:induction false} AttemptExactly(s: State, events: seq<Event>)
    requires Inv(s) && AllHandled(s) && Orderly(s, events)
    ensures Run(s, events).attempt == ClosesSince(s, events, s.attempt)
    decreases |events|
  {
    if events != [] {
      var e := events[0];
      StaysHandled(s, e);
      AttemptExactly(Step(s, e), events[1..]);
      SameCredentials(s, Step(s, e), events[1..], Step(s, e).attempt);
    }
  }

  lemma StaysHandled(s: State, e: Event)
    requires Inv(s) && AllHandled(s) && Enabled(s, e) && (e.Connect? ==> Idle(s))
    ensures AllHandled(Step(s, e))
    ensures Step(s, e).token == s.token && Step(s, e).cookieAuth == s.cookieAuth
  {
  }

  lemma {:induction false} SameCredentials(s: State, t: State, events: seq<Event>, count: nat)
    requires s.token == t.token && s.cookieAuth == t.cookieAuth
    ensures ClosesSince(s, events, count) == ClosesSince(t, events, count)
    decreases |events|
  {
    if events != [] {
      var e := events[0];
      SameCredentials(s, t, events[1..],
                      if e.Disconnect? || Authenticates(s, e) then 0 else if e.Closed? then count + 1 else count);
    }
  }

  lemma {:induction false} SameHistory(s: State, t: State, events: seq<Event>, before: bool)
    requires s.token == t.token && s.cookieAuth == t.cookieAuth
    ensures HistorySince(s, events, before) == HistorySince(t, events, before)
    decreases |events|
  {
    if events != [] {
      var e := events[0];
      SameHistory(s, t, events[1..], !e.Disconnect? && (before || e.Closed? || Authenticates(s, e)));
    }
  }

  predicate HasHistory(s: State) {
    s.hasConnectedBefore || s.attempt > 0
  }

  lemma {:induction false} HistoryExactly(s: State, events: seq<Event>)
    requires Inv(s) && AllHandled(s) && Orderly(s, events)
    ensures HasHistory(Run(s, events)) <==> HistorySince(s, events, HasHistory(s))
    ensures Run(s, events).token == s.token && Run(s, events).cookieAuth == s.cookieAuth
    decreases |events|
  {
    if events != [] {
      var e := events[0];
      StaysHandled(s, e);
      HistoryExactly(Step(s, e), events[1..]);
      SameHistory(s, Step(s, e), events[1..], HasHistory(Step(s, e)));
    }
  }

  /**
   * Subscribers are told of a recovered connection exactly when a connection succeeds and, since the
   * last disconnect, another one had succeeded or been lost.
   */
  lemma RecoveryExactly(s: State, events: seq<Event>, e: Event)
    requires Inv(s) && AllHandled(s) && Orderly(s, events) && Enabled(Run(s, events), e)
    ensures Step(Run(s, events), e).recovered == Run(s, events).recovered + 1 <==>
            Authenticates(s, e) && HistorySince(s, events, HasHistory(s))
  {
    HistoryExactly(s, events);
  }
}
