/** The tab-context registry `tabServiceMachine` of app/services/tabs.js and the
    lookups of its service class. It has the single state `idle`, and its
    context is the list `tabContexts` of spawned tab-context actors. */
module TabsService {
  import opened Common
  import opened Statechart

  /** The only state value: the registry never leaves `idle`. */
  datatype Value = Idle

  /** A spawned tab-context actor; `spawn(actor, id)` names it by the id. */
  datatype TabContextRef = TabContextRef(id: TabId, actor: ActorRef)

  datatype Registry = Registry(value: Value, tabContexts: seq<TabContextRef>)

  datatype Event =
    | ArchiveTabContext(tabContextId: TabId)
    | RegisterTabContext(tabContext: ActorRef, tabContextId: TabId)
    | RemoveTab(tabContextId: TabId, tabId: TabId)   // sent by `removeTab`

  datatype ChildEvent = Archive | Wake

  /** An event sent to the child registered under `to`. What the library does
      with an id that names no child is not modelled. */
  datatype Directed = Directed(to: TabId, event: ChildEvent)

  datatype Action =
    | SendToChild(to: TabId, event: ChildEvent)
    | AppendContext(ref: TabContextRef)

  const Initial: Registry := Registry(Idle, [])

  /** Guard `contextIsArchived`: a stub that always answers false. */
  function ContextIsArchived(r: Registry, e: Event): (b: bool)
    ensures !b
  {
    false
  }

  /** The machine-level `on`; the state `idle` declares no handlers of its own. */
  function MachineOn(r: Registry, e: Event): seq<Candidate<Value, Action>> {
    match e
    case ArchiveTabContext(id) => [Candidate(true, None, [SendToChild(id, Archive)])]
    case RegisterTabContext(actor, id) =>
      [ Candidate(ContextIsArchived(r, e), None, [SendToChild(id, Wake)]),
        Candidate(true, None, [AppendContext(TabContextRef(id, actor))]) ]
    case RemoveTab(_, _) => []
  }

  function ApplyAction(contexts: seq<TabContextRef>, a: Action): (seq<TabContextRef>, seq<Directed>) {
    match a
    case SendToChild(to, ev) => (contexts, [Directed(to, ev)])
    case AppendContext(ref) => (contexts + [ref], [])
  }

  function ApplyActions(contexts: seq<TabContextRef>, actions: seq<Action>): (seq<TabContextRef>, seq<Directed>)
    decreases |actions|
  {
    if actions == [] then (contexts, [])
    else
      var (c1, d1) := ApplyAction(contexts, actions[0]);
      var (c2, d2) := ApplyActions(c1, actions[1..]);
      (c2, d1 + d2)
  }

  /** One event processed by the registry. Because the guard is constant false,
      REGISTER_TAB_CONTEXT always appends, even for an id already present, and
      WAKE is never sent. REMOVE_TAB has no handler and changes nothing. */
  function Step(r: Registry, e: Event): (res: (Registry, seq<Directed>))
    ensures res.0.value == Idle
    ensures e.RegisterTabContext? ==>
      res == (Registry(Idle, r.tabContexts + [TabContextRef(e.tabContextId, e.tabContext)]), [])
    ensures e.ArchiveTabContext? ==> res == (r, [Directed(e.tabContextId, Archive)])
    ensures e.RemoveTab? ==> res == (r, [])
  {
    var t := Resolve([], MachineOn(r, e));
    RegisterFallsThrough(r, e);
    ApplySingleAction(r.tabContexts, ActionsOf(t));
    var (contexts, sent) := ApplyActions(r.tabContexts, ActionsOf(t));
    (Registry(NextValue(r.value, t), contexts), sent)
  }

  lemma ApplySingleAction(contexts: seq<TabContextRef>, actions: seq<Action>)
    ensures |actions| == 1 && actions[0].SendToChild? ==>
      ApplyActions(contexts, actions) == (contexts, [Directed(actions[0].to, actions[0].event)])
    ensures |actions| == 1 && actions[0].AppendContext? ==>
      ApplyActions(contexts, actions) == (contexts + [actions[0].ref], [])
  {
    if |actions| == 1 {
      assert actions[1..] == [];
      var (c1, d1) := ApplyAction(contexts, actions[0]);
      assert d1 + [] == d1;
    }
  }

  /** The WAKE candidate's guard never holds, so the second candidate is taken. */
  lemma RegisterFallsThrough(r: Registry, e: Event)
    ensures e.RegisterTabContext? ==> FirstEnabled(MachineOn(r, e)) == Some(1)
  {
    if e.RegisterTabContext? {
      FirstEnabledUnique(MachineOn(r, e), 1);
    }
  }

  function Ids(contexts: seq<TabContextRef>): (ids: seq<TabId>)
    ensures |ids| == |contexts|
    ensures forall i :: 0 <= i < |contexts| ==> ids[i] == contexts[i].id
  {
    seq(|contexts|, i requires 0 <= i < |contexts| => contexts[i].id)
  }

  /** `getTabContext`: the first registered context with the id, if any. */
  function GetTabContext(r: Registry, tabContextId: TabId): (res: Option<TabContextRef>)
    ensures res.None? <==> forall i :: 0 <= i < |r.tabContexts| ==> r.tabContexts[i].id != tabContextId
    ensures res.Some? ==> res.value.id == tabContextId
    ensures res.Some? ==> (exists k :: 0 <= k < |r.tabContexts| && r.tabContexts[k] == res.value &&
                                     forall j :: 0 <= j < k ==> r.tabContexts[j].id != tabContextId)
  {
    match FirstIndex(Ids(r.tabContexts), tabContextId)
    case None => None
    case Some(k) => Some(r.tabContexts[k])
  }

  datatype TabLookup = TabLookup(tabContext: Option<TabContextRef>, tabId: TabId)

  /** `getTab`: a placeholder pairing the looked-up context with the tab id. */
  function GetTab(r: Registry, tabContextId: TabId, tabId: TabId): (res: TabLookup)
    ensures res.tabId == tabId
    ensures res.tabContext == GetTabContext(r, tabContextId)
    ensures res.tabContext.Some? ==> res.tabContext.value.id == tabContextId
    ensures res.tabContext.None? <==> tabContextId !in Ids(r.tabContexts)
  {
    TabLookup(GetTabContext(r, tabContextId), tabId)
  }

  function CountArchives(events: seq<Event>): nat {
    if events == [] then 0 else (if events[0].ArchiveTabContext? then 1 else 0) + CountArchives(events[1..])
  }

  /** A sequence of events sent to the registry, with everything it sent on.
      Over any run the registry stays `idle`, only ever appends contexts (none is
      removed: REMOVE_TAB is unhandled), sends exactly one ARCHIVE per
      ARCHIVE_TAB_CONTEXT, and never sends WAKE. */
  function RunAll(r: Registry, events: seq<Event>): (res: (Registry, seq<Directed>))
    ensures res.0.value == Idle
    ensures r.tabContexts <= res.0.tabContexts
    ensures |res.1| == CountArchives(events)
    ensures forall d :: d in res.1 ==> d.event == Archive
    decreases |events|
  {
    if events == [] then (r, [])
    else
      var (r1, d1) := Step(r, events[0]);
      var (r2, d2) := RunAll(r1, events[1..]);
      (r2, d1 + d2)
  }

  /** REGISTER_TAB_CONTEXT is not idempotent: registering one id twice adds two
      entries for it, and lookups keep answering with the first entry. */
  lemma RegisterTwiceDuplicates(r: Registry, a1: ActorRef, a2: ActorRef, id: TabId)
    ensures var r2 := Step(Step(r, RegisterTabContext(a1, id)).0, RegisterTabContext(a2, id)).0;
      && multiset(Ids(r2.tabContexts))[id] == multiset(Ids(r.tabContexts))[id] + 2
      && GetTabContext(r2, id) ==
           (if id in Ids(r.tabContexts) then GetTabContext(r, id) else Some(TabContextRef(id, a1)))
  {
    var c0 := r.tabContexts;
    var c1 := c0 + [TabContextRef(id, a1)];
    var c2 := c1 + [TabContextRef(id, a2)];
    assert Ids(c1) == Ids(c0) + [id];
    assert Ids(c2) == Ids(c1) + [id];
    FirstIndexAppend(Ids(c0), id, id);
    FirstIndexAppend(Ids(c1), id, id);
  }
}
