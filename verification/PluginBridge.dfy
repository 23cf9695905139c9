/**
 * The request bridge between a plugin surface and its host page (packages/plugin-sdk/index.ts).
 *
 * Timers and the message port belong to the environment: it may deliver any message and fire any
 * armed timer next. The handles of armed timers are distinct, and a cleared timer never fires.
 */
module PluginBridge {

  import opened Common

  /** Request bodies and reply data, which pass through unchanged. */
  type Payload(==, !new)

  /** How a request ends for its caller. */
  datatype Verdict = Resolved(data: Payload) | Rejected(status: int, error: string)

  /** A message on the port, by what the two recognisers make of it. */
  datatype Message = Theme(tokens: map<string, string>) | Response(id: string, verdict: Verdict) | Unrecognised

  datatype Request =
    | Action(id: string, verb: string, path: string, body: Payload)
    | Resize(id: string, height: int)

  /** What the callback of a timer has captured. */
  datatype Deadline = Deadline(id: string, verb: string, path: string)

  datatype Settlement = Settlement(id: string, verdict: Verdict)

  /**
   * The fields of the bridge, and what it has done to its environment: the armed timers, the
   * requests posted, and the settlements handed to callers.
   */
  datatype State = State(hasPort: bool, sequence: nat, pending: map<string, nat>, queued: seq<Request>,
                         theme: map<string, string>,
                         armed: map<nat, Deadline>, posted: seq<Request>, settled: seq<Settlement>)

  datatype Event =
    | Call(verb: string, path: string, body: Payload, timer: nat)
    | Receive(message: Message)
    | TimeOut(timer: nat)
    | Notify(request: Request)

  // ---- Request ids

  function Digit(d: nat): (c: char)
    requires d < 10
    ensures '0' <= c <= '9' && c as int - '0' as int == d
  {
    ('0' as int + d) as char
  }

  predicate AllDigits(s: string) {
    forall i :: 0 <= i < |s| ==> '0' <= s[i] <= '9'
  }

  function Decimal(n: nat): (s: string)
    ensures s != [] && AllDigits(s)
  {
    if n < 10 then [Digit(n)] else Decimal(n / 10) + [Digit(n % 10)]
  }

  function Value(s: string): nat
    requires AllDigits(s)
  {
    if s == [] then 0 else 10 * Value(s[..|s| - 1]) + (s[|s| - 1] as int - '0' as int)
  }

  lemma {:induction false} ValueOfDecimal(n: nat)
    ensures Value(Decimal(n)) == n
  {
    if n < 10 {
      assert [Digit(n)][..0] == [];
    } else {
      ValueOfDecimal(n / 10);
      assert (Decimal(n / 10) + [Digit(n % 10)])[..|Decimal(n / 10)|] == Decimal(n / 10);
    }
  }

  function IdOf(n: nat): string {
    "r" + Decimal(n)
  }

  /** Different sequence numbers give different ids. */
  lemma IdsAreFresh(m: nat, n: nat)
    ensures IdOf(m) == IdOf(n) ==> m == n
  {
    ValueOfDecimal(m);
    ValueOfDecimal(n);
    assert IdOf(m)[1..] == Decimal(m) && IdOf(n)[1..] == Decimal(n);
  }

  // ---- One event

  function TimeoutError(verb: string, path: string): Verdict {
    Rejected(408, "Multica did not answer " + verb + " " + path + " in time")
  }

  function Settle(s: State, id: string, timer: nat, verdict: Verdict): State {
    s.(pending := s.pending - {id}, armed := s.armed - {timer}, settled := s.settled + [Settlement(id, verdict)])
  }

  /** Without a port nothing is ever issued: the caller waits for a readiness that never comes. */
  function Step(s: State, e: Event): State {
    match e
    case Call(verb, path, body, timer) =>
      if !s.hasPort then s
      else
        var id := IdOf(s.sequence + 1);
        s.(sequence := s.sequence + 1,
           pending := s.pending[id := timer],
           armed := s.armed[timer := Deadline(id, verb, path)],
           posted := s.posted + [Action(id, verb, path, body)])
    case Receive(message) =>
      if !s.hasPort then s
      else
        (match message
         case Theme(tokens) => s.(theme := tokens)
         case Unrecognised => s
         case Response(id, verdict) =>
           if id in s.pending then Settle(s, id, s.pending[id], verdict) else s)
    case TimeOut(timer) =>
      if timer in s.armed
      then Settle(s, s.armed[timer].id, timer, TimeoutError(s.armed[timer].verb, s.armed[timer].path))
      else s
    case Notify(request) =>
      if s.hasPort then s.(posted := s.posted + [request]) else s.(queued := s.queued + [request])
  }

  function Fresh(hasPort: bool): State {
    State(hasPort, 0, map[], [], map[], map[], [], [])
  }

  // ---- The bridge as an object

  class Bridge {
    const hasPort: bool
    var sequence: nat
    var pending: map<string, nat>
    var queued: seq<Request>
    var theme: map<string, string>
    var armed: map<nat, Deadline>
    var posted: seq<Request>
    var settled: seq<Settlement>

    function Contents(): State
      reads this
    {
      State(hasPort, sequence, pending, queued, theme, armed, posted, settled)
    }

    /** The port is there when the bridge is created, or never. */
    constructor (guestPort: bool)
      ensures Contents() == Fresh(guestPort)
    {
      hasPort := guestPort;
      sequence, pending, queued, theme := 0, map[], [], map[];
      armed, posted, settled := map[], [], [];
    }

    method Request(verb: string, path: string, body: Payload, timer: nat)
      modifies this
      ensures Contents() == Step(old(Contents()), Call(verb, path, body, timer))
    {
      if !hasPort {
        return;
      }
      sequence := sequence + 1;
      var id := IdOf(sequence);
      armed := armed[timer := Deadline(id, verb, path)];
      pending := pending[id := timer];
      posted := posted + [Action(id, verb, path, body)];
    }

    method OnPortMessage(message: Message)
      modifies this
      ensures Contents() == Step(old(Contents()), Receive(message))
    {
      if !hasPort {
        return;
      }
      if message.Theme? {
        theme := message.tokens;
        return;
      }
      if !message.Response? {
        return;
      }
      var id := message.id;
      if id !in pending {
        return;
      }
      var timer := pending[id];
      pending := pending - {id};
      armed := armed - {timer};
      settled := settled + [Settlement(id, message.verdict)];
    }

    /** The callback that was given to the timer. */
    method OnTimeout(timer: nat)
      requires timer in armed
      modifies this
      ensures Contents() == Step(old(Contents()), TimeOut(timer))
    {
      var deadline := armed[timer];
      armed := armed - {timer};
      pending := pending - {deadline.id};
      settled := settled + [Settlement(deadline.id, TimeoutError(deadline.verb, deadline.path))];
    }

    method NotifyHost(request: Request)
      modifies this
      ensures Contents() == Step(old(Contents()), Notify(request))
    {
      if hasPort {
        posted := posted + [request];
      } else {
        queued := queued + [request];
      }
    }
  }

  // ---- Runs

  /** What the environment guarantees: a new timer has a handle that no armed timer has. */
  predicate Allowed(s: State, e: Event) {
    e.Call? ==> e.timer !in s.armed
  }

  function Run(s: State, events: seq<Event>): State
    decreases |events|
  {
    if events == [] then s else Run(Step(s, events[0]), events[1..])
  }

  predicate AllAllowed(s: State, events: seq<Event>)
    decreases |events|
  {
    events != [] ==> Allowed(s, events[0]) && AllAllowed(Step(s, events[0]), events[1..])
  }

  ghost predicate Issued(s: State, id: string) {
    exists n :: 1 <= n <= s.sequence && id == IdOf(n)
  }

  predicate IsSettled(s: State, id: string) {
    exists i :: 0 <= i < |s.settled| && s.settled[i].id == id
  }

  /** Timers and pending requests belong to each other, one to one. */
  ghost predicate Paired(s: State) {
    && (forall id :: id in s.pending ==> s.pending[id] in s.armed && s.armed[s.pending[id]].id == id)
    && forall t :: t in s.armed ==> s.armed[t].id in s.pending && s.pending[s.armed[t].id] == t
  }

  /** Every issued request is either pending or settled, and it is settled once. */
  ghost predicate Partitioned(s: State) {
    && (forall id :: Issued(s, id) <==> id in s.pending || IsSettled(s, id))
    && (forall id :: id in s.pending ==> !IsSettled(s, id))
    && forall i, j :: 0 <= i < j < |s.settled| ==> s.settled[i].id != s.settled[j].id
  }

  ghost predicate Inv(s: State) {
    Paired(s) && Partitioned(s)
  }

  lemma NextIsNew(s: State)
    requires Partitioned(s)
    ensures IdOf(s.sequence + 1) !in s.pending && !IsSettled(s, IdOf(s.sequence + 1))
  {
    var id := IdOf(s.sequence + 1);
    if Issued(s, id) {
      var n :| 1 <= n <= s.sequence && id == IdOf(n);
      IdsAreFresh(n, s.sequence + 1);
    }
  }

  lemma CallKeepsInv(s: State, e: Event)
    requires Inv(s) && e.Call? && Allowed(s, e)
    ensures Inv(Step(s, e))
  {
    if s.hasPort {
      var t := Step(s, e);
      var id := IdOf(s.sequence + 1);
      NextIsNew(s);
      forall x ensures Issued(t, x) <==> Issued(s, x) || x == id {
        if Issued(s, x) {
          var n :| 1 <= n <= s.sequence && x == IdOf(n);
          assert 1 <= n <= t.sequence;
        }
      }
      assert forall x :: IsSettled(t, x) <==> IsSettled(s, x);
    }
  }

  lemma SettledPush(s: State, id: string, timer: nat, verdict: Verdict)
    ensures forall x :: IsSettled(Settle(s, id, timer, verdict), x) <==> IsSettled(s, x) || x == id
  {
    var t := Settle(s, id, timer, verdict);
    assert t.settled[|s.settled|].id == id;
    forall x | IsSettled(s, x) ensures IsSettled(t, x) {
      var i :| 0 <= i < |s.settled| && s.settled[i].id == x;
      assert t.settled[i].id == x;
    }
  }

  lemma SettleKeepsPairs(s: State, id: string, verdict: Verdict)
    requires Paired(s) && id in s.pending
    ensures Paired(Settle(s, id, s.pending[id], verdict))
  {
  }

  lemma SettleKeepsParts(s: State, id: string, verdict: Verdict)
    requires Partitioned(s) && id in s.pending
    ensures Partitioned(Settle(s, id, s.pending[id], verdict))
  {
    var t := Settle(s, id, s.pending[id], verdict);
    SettledPush(s, id, s.pending[id], verdict);
    assert forall x :: Issued(t, x) <==> Issued(s, x);
    forall i | 0 <= i < |s.settled| ensures s.settled[i].id != id {
      assert !IsSettled(s, id);
    }
  }

  lemma SettleKeepsInv(s: State, id: string, verdict: Verdict)
    requires Inv(s) && id in s.pending
    ensures Inv(Settle(s, id, s.pending[id], verdict))
  {
    SettleKeepsPairs(s, id, verdict);
    SettleKeepsParts(s, id, verdict);
  }

  lemma SameSettlements(s: State, t: State)
    requires t.sequence == s.sequence && t.pending == s.pending && t.armed == s.armed && t.settled == s.settled
    ensures Inv(s) ==> Inv(t)
  {
    assert forall x :: Issued(t, x) <==> Issued(s, x);
    assert forall x :: IsSettled(t, x) <==> IsSettled(s, x);
  }

  lemma StepKeepsInv(s: State, e: Event)
    requires Inv(s) && Allowed(s, e)
    ensures Inv(Step(s, e))
  {
    match e
    case Call(_, _, _, _) => CallKeepsInv(s, e);
    case Receive(message) =>
      if s.hasPort && message.Response? && message.id in s.pending {
        SettleKeepsInv(s, message.id, message.verdict);
      } else {
        SameSettlements(s, Step(s, e));
      }
    case TimeOut(timer) =>
      if timer in s.armed {
        SettleKeepsInv(s, s.armed[timer].id, TimeoutError(s.armed[timer].verb, s.armed[timer].path));
      }
    case Notify(_) => SameSettlements(s, Step(s, e));
  }

  /** After any interleaving of calls, replies, duplicates, strays and timeouts, the invariant holds. */
  lemma {:induction false} RunKeepsInv(s: State, events: seq<Event>)
    requires Inv(s) && AllAllowed(s, events)
    ensures Inv(Run(s, events))
    decreases |events|
  {
    if events != [] {
      StepKeepsInv(s, events[0]);
      RunKeepsInv(Step(s, events[0]), events[1..]);
    }
  }

  lemma FreshInv(hasPort: bool)
    ensures Inv(Fresh(hasPort))
  {
  }

  // ---- The outcome of one request

  /** What an event means for the request `id` whose timer is `timer`. */
  function VerdictOf(e: Event, call: Event, id: string): Option<Verdict>
    requires call.Call?
  {
    match e
    case Receive(message) => if message.Response? && message.id == id then Some(message.verdict) else None
    case TimeOut(timer) => if timer == call.timer then Some(TimeoutError(call.verb, call.path)) else None
    case Call(_, _, _, _) => None
    case Notify(_) => None
  }

  /** The first verdict for the request among the events. */
  function FirstVerdict(events: seq<Event>, call: Event, id: string): Option<Verdict>
    requires call.Call?
  {
    if events == [] then None
    else
      var v := VerdictOf(events[0], call, id);
      if v.Some? then v else FirstVerdict(events[1..], call, id)
  }

  ghost predicate Awaits(s: State, call: Event, id: string)
    requires call.Call?
  {
    && id in s.pending && s.pending[id] == call.timer
    && call.timer in s.armed && s.armed[call.timer] == Deadline(id, call.verb, call.path)
  }

  ghost predicate HasVerdict(s: State, id: string, v: Verdict) {
    id !in s.pending && Settlement(id, v) in s.settled
  }

  lemma AwaitStep(s: State, e: Event, call: Event, id: string)
    requires Inv(s) && Allowed(s, e) && s.hasPort && call.Call? && Awaits(s, call, id)
    ensures match VerdictOf(e, call, id)
            case None => Awaits(Step(s, e), call, id)
            case Some(v) => HasVerdict(Step(s, e), id, v)
  {
    NextIsNew(s);
  }

  lemma VerdictStays(s: State, e: Event, id: string, v: Verdict)
    requires Inv(s) && Issued(s, id) && HasVerdict(s, id, v)
    ensures HasVerdict(Step(s, e), id, v)
  {
    var i :| 0 <= i < |s.settled| && s.settled[i] == Settlement(id, v);
    assert IsSettled(s, id);
    NextIsNew(s);
  }

  ghost predicate Outcome(s: State, call: Event, id: string, v: Option<Verdict>)
    requires call.Call?
  {
    match v
    case None => Awaits(s, call, id)
    case Some(verdict) => HasVerdict(s, id, verdict)
  }

  lemma CallAwaits(s: State, call: Event)
    requires s.hasPort && call.Call?
    ensures Outcome(Step(s, call), call, IdOf(s.sequence + 1), None)
    ensures Issued(Step(s, call), IdOf(s.sequence + 1))
  {
  }

  lemma OutcomeStep(s: State, e: Event, call: Event, id: string, v: Option<Verdict>)
    requires Inv(s) && Allowed(s, e) && s.hasPort && call.Call? && Issued(s, id)
    requires Outcome(s, call, id, v)
    ensures Outcome(Step(s, e), call, id, if v.Some? then v else VerdictOf(e, call, id))
    ensures Issued(Step(s, e), id)
  {
    if v.Some? {
      VerdictStays(s, e, id, v.value);
    } else {
      AwaitStep(s, e, call, id);
    }
    var n :| 1 <= n <= s.sequence && id == IdOf(n);
    assert 1 <= n <= Step(s, e).sequence;
  }

  lemma {:induction false} OutcomeOfRest(s: State, events: seq<Event>, call: Event, id: string, v: Option<Verdict>)
    requires Inv(s) && s.hasPort && AllAllowed(s, events) && call.Call? && Issued(s, id)
    requires Outcome(s, call, id, v)
    ensures Outcome(Run(s, events), call, id, if v.Some? then v else FirstVerdict(events, call, id))
    decreases |events|
  {
    if events != [] {
      var e := events[0];
      StepKeepsInv(s, e);
      OutcomeStep(s, e, call, id, v);
      PortStays(s, e);
      OutcomeOfRest(Step(s, e), events[1..], call, id, if v.Some? then v else VerdictOf(e, call, id));
    }
  }

  lemma PortStays(s: State, e: Event)
    ensures Step(s, e).hasPort == s.hasPort
  {
  }

  /**
   * From any state with the invariant, an issued request stays pending until the first reply that
   * names it or its own timeout, whichever the environment delivers first. That event settles it,
   * and nothing later changes the outcome.
   */
  lemma OutcomeExactly(s: State, call: Event, events: seq<Event>)
    requires Inv(s) && s.hasPort && call.Call? && AllAllowed(s, [call] + events)
    ensures var id := IdOf(s.sequence + 1);
            Outcome(Run(s, [call] + events), call, id, FirstVerdict(events, call, id))
  {
    assert ([call] + events)[1..] == events;
    StepKeepsInv(s, call);
    CallAwaits(s, call);
    PortStays(s, call);
    OutcomeOfRest(Step(s, call), events, call, IdOf(s.sequence + 1), None);
  }

  /** A request has at most one settlement, whatever happens. */
  lemma SettledOnce(hasPort: bool, events: seq<Event>, a: Settlement, b: Settlement)
    requires AllAllowed(Fresh(hasPort), events)
    requires a in Run(Fresh(hasPort), events).settled && b in Run(Fresh(hasPort), events).settled && a.id == b.id
    ensures a == b
  {
    FreshInv(hasPort);
    RunKeepsInv(Fresh(hasPort), events);
    var settled := Run(Fresh(hasPort), events).settled;
    var i :| 0 <= i < |settled| && settled[i] == a;
    var j :| 0 <= j < |settled| && settled[j] == b;
    assert !(i < j) && !(j < i);
  }

  // ---- What is sent

  /** What the events post when the port is there and n requests have been issued: all of it, in order. */
  function Sent(n: nat, events: seq<Event>): seq<Request>
    decreases |events|
  {
    if events == [] then []
    else match events[0]
      case Call(verb, path, body, _) => [Action(IdOf(n + 1), verb, path, body)] + Sent(n + 1, events[1..])
      case Notify(request) => [request] + Sent(n, events[1..])
      case _ => Sent(n, events[1..])
  }

  function Notified(events: seq<Event>): (r: seq<Request>)
    ensures forall e :: e in events && e.Notify? ==> e.request in r
  {
    if events == [] then []
    else (if events[0].Notify? then [events[0].request] else []) + Notified(events[1..])
  }

  lemma SentStep(s: State, e: Event)
    requires s.hasPort
    ensures var t := Step(s, e);
            && t.hasPort && t.queued == s.queued
            && t.posted == s.posted + (if e.Call? then [Action(IdOf(s.sequence + 1), e.verb, e.path, e.body)]
                                       else if e.Notify? then [e.request] else [])
            && t.sequence == if e.Call? then s.sequence + 1 else s.sequence
  {
  }

  /** With a port every request and every notification is posted, in order, and nothing is queued. */
  lemma {:induction false} AllSentWithPort(s: State, events: seq<Event>)
    requires s.hasPort
    ensures Run(s, events).posted == s.posted + Sent(s.sequence, events)
    ensures Run(s, events).queued == s.queued
    decreases |events|
  {
    if events != [] {
      var t := Step(s, events[0]);
      SentStep(s, events[0]);
      AllSentWithPort(t, events[1..]);
      var now: seq<Request> := match events[0]
        case Call(verb, path, body, _) => [Action(IdOf(s.sequence + 1), verb, path, body)]
        case Notify(request) => [request]
        case _ => [];
      assert Sent(s.sequence, events) == now + Sent(t.sequence, events[1..]);
      Associative(s.posted, now, Sent(t.sequence, events[1..]));
    }
  }

  /** Without a port. */
  ghost predicate Idle(s: State) {
    && !s.hasPort && s.sequence == 0 && s.pending == map[] && s.armed == map[] && s.settled == [] && s.posted == []
  }

  /** Without a port no request is ever issued or settled, nothing is posted, and notifications pile up in order. */
  lemma {:induction false} NothingWithoutPort(s: State, events: seq<Event>)
    requires Idle(s)
    ensures Idle(Run(s, events))
    ensures Run(s, events).queued == s.queued + Notified(events)
    decreases |events|
  {
    if events != [] {
      var t := Step(s, events[0]);
      NothingWithoutPort(t, events[1..]);
      var now: seq<Request> := if events[0].Notify? then [events[0].request] else [];
      Associative(s.queued, now, Notified(events[1..]));
    }
  }

  lemma {:induction false} NotifiedIsSent(n: nat, events: seq<Event>)
    ensures forall r :: r in Notified(events) ==> r in Sent(n, events)
    decreases |events|
  {
    if events != [] {
      NotifiedIsSent(if events[0].Call? then n + 1 else n, events[1..]);
    }
  }

  /** The notifications of a run reach the host exactly when the port was there at creation, if there are any. */
  lemma NotificationsSentExactly(hasPort: bool, events: seq<Event>)
    ensures (forall r :: r in Notified(events) ==> r in Run(Fresh(hasPort), events).posted)
            <==> hasPort || Notified(events) == []
  {
    if hasPort {
      AllSentWithPort(Fresh(true), events);
      NotifiedIsSent(0, events);
    } else {
      NothingWithoutPort(Fresh(false), events);
      if Notified(events) != [] {
        assert Notified(events)[0] in Notified(events);
      }
    }
  }

  /** Requests are numbered from one. */
  lemma FirstRequestIsOne(verb: string, path: string, body: Payload, timer: nat)
    ensures Step(Fresh(true), Call(verb, path, body, timer)).posted == [Action("r1", verb, path, body)]
  {
    assert Decimal(1) == "1";
    assert IdOf(1) == "r1";
  }

  // ---- Themes and timeouts

  /** The last theme among the events, or the one before them. */
  function LastTheme(events: seq<Event>, before: map<string, string>): map<string, string> {
    if events == [] then before
    else
      match events[|events| - 1]
      case Receive(Theme(tokens)) => tokens
      case _ => LastTheme(events[..|events| - 1], before)
  }

  lemma LastThemeFirst(e: Event, rest: seq<Event>, before: map<string, string>)
    ensures LastTheme([e] + rest, before) == LastTheme(rest, LastTheme([e], before))
    decreases |rest|
  {
    if rest == [] {
      assert [e] + rest == [e];
    } else {
      var n := |rest| - 1;
      assert ([e] + rest)[..n + 1] == [e] + rest[..n];
      LastThemeFirst(e, rest[..n], before);
    }
  }

  /** With a port the theme is the last one received, whatever else happens. */
  lemma {:induction false} ThemeIsLatest(s: State, events: seq<Event>)
    requires s.hasPort
    ensures Run(s, events).theme == LastTheme(events, s.theme)
    decreases |events|
  {
    if events != [] {
      var e := events[0];
      assert LastTheme([e], s.theme) == Step(s, e).theme by {
        assert [e][..0] == [];
      }
      ThemeIsLatest(Step(s, e), events[1..]);
      LastThemeFirst(e, events[1..], s.theme);
      assert [e] + events[1..] == events;
    }
  }

  /** A timer that fires rejects its own request with status 408, naming what was asked. */
  lemma TimeoutRejects(s: State, timer: nat)
    requires timer in s.armed
    ensures var deadline := s.armed[timer];
            Step(s, TimeOut(timer)).settled == s.settled +
              [Settlement(deadline.id, Rejected(408, "Multica did not answer " + deadline.verb + " " + deadline.path
                                                     + " in time"))]
  {
  }
}
