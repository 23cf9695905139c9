/** The issues viewed last in each workspace (apps/mobile/data/viewed-issues-store.ts). */
module ViewedIssues {

  import opened Recency

  const CAPACITY: nat := 10

  function Self(id: string): string {
    id
  }

  datatype Event = Event(wsId: string, op: Op<string>)

  type Store = map<string, seq<string>>

  function ListOf(store: Store, wsId: string): seq<string> {
    if wsId in store then store[wsId] else []
  }

  /** What `push` and `remove` make of the store. */
  function Step(store: Store, e: Event): Store {
    match e.op
    case Push(id) => store[e.wsId := Take(ToFront(ListOf(store, e.wsId), Self, id), CAPACITY)]
    case Drop(id) => if e.wsId in store then store[e.wsId := Without(store[e.wsId], Self, id)] else store
  }

  class ViewedIssuesStore {
    var byWorkspace: Store

    constructor ()
      ensures byWorkspace == map[]
    {
      byWorkspace := map[];
    }

    method PushId(wsId: string, id: string)
      modifies this
      ensures byWorkspace == Step(old(byWorkspace), Event(wsId, Push(id)))
    {
      var prev := if wsId in byWorkspace then byWorkspace[wsId] else [];
      var next := Take([id] + Without(prev, Self, id), CAPACITY);
      byWorkspace := byWorkspace[wsId := next];
    }

    method Remove(wsId: string, id: string)
      modifies this
      ensures byWorkspace == Step(old(byWorkspace), Event(wsId, Drop(id)))
    {
      if wsId in byWorkspace {
        byWorkspace := byWorkspace[wsId := Without(byWorkspace[wsId], Self, id)];
      }
    }
  }

  function Run(events: seq<Event>): Store {
    if events == [] then map[] else Step(Run(events[..|events| - 1]), events[|events| - 1])
  }

  /** The operations on one workspace. */
  function OpsOf(events: seq<Event>, wsId: string): seq<Op<string>> {
    if events == [] then []
    else if events[|events| - 1].wsId == wsId then OpsOf(events[..|events| - 1], wsId) + [events[|events| - 1].op]
    else OpsOf(events[..|events| - 1], wsId)
  }

  /** Workspaces do not affect each other. */
  lemma {:induction false} ListIsBoundedRun(events: seq<Event>, wsId: string)
    ensures ListOf(Run(events), wsId) == RunBounded(OpsOf(events, wsId), Self, CAPACITY)
  {
    if events != [] {
      var init, e := events[..|events| - 1], events[|events| - 1];
      ListIsBoundedRun(init, wsId);
      RunPush(OpsOf(init, wsId), e.op, Self, CAPACITY);
    }
  }

  /**
   * After any run of pushes and removals, the list of a workspace is a prefix of its history read
   * backwards without repetition. With pushes alone it is the first ten of it.
   */
  lemma ViewedIsRecentHistory(events: seq<Event>, wsId: string)
    ensures var list, history := ListOf(Run(events), wsId), Standing(OpsOf(events, wsId), Self);
            && list <= history && |list| <= 10 && UniqueKeys(list, Self)
            && ((forall op :: op in OpsOf(events, wsId) ==> op.Push?) ==> list == Take(history, 10))
  {
    var ops := OpsOf(events, wsId);
    ListIsBoundedRun(events, wsId);
    BoundedIsPrefix(ops, Self, CAPACITY);
    UnboundedIsStanding(ops, Self);
    if forall op :: op in ops ==> op.Push? {
      PushesFillTheBound(ops, Self, CAPACITY);
    }
  }
}
