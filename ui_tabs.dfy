/** The tab-context machine `tabsMachine` of app/components/ui-tabs.js, as a pure
    step function. Its states are `active` (initial) and `archived`; its
    context is the ordered list `tabs` of `{id, actor}` records. */
module UiTabs {
  import opened Common
  import opened Statechart
  import Tab

  datatype Value = Active | Archived

  datatype TabRecord = TabRecord(id: TabId, actor: ActorRef)

  /** A state of the machine: its value and its context. */
  datatype Snapshot = Snapshot(value: Value, tabs: seq<TabRecord>)

  datatype Event =
    | RegisterTab(tabId: TabId)
    | SelectTab(tabId: TabId)
    | CloseTab(closedId: Option<TabId>)  // `e.tabId`; a tab's own CLOSE_TAB carries none
    | Archive
    | Wake
    | TabSelected(tabId: TabId)

  /** The actions named in the config. */
  datatype Action =
    | AppendTab(record: TabRecord)     // the REGISTER_TAB assign, spawning record.actor
    | SendSelect(tabId: TabId)         // the SELECT_TAB send to the registered actor
    | RemoveTab(closedId: Option<TabId>)  // the CLOSE_TAB reducer
    | DeselectTabs(tabId: TabId)       // the custom action deselectTabs

  /** What the runtime must do after a transition: start a spawned tab actor,
      deliver an event to one tab actor, or run deselectTabs over the tabs. */
  datatype Effect =
    | StartTab(actor: ActorRef)
    | SendTo(actor: ActorRef, event: Tab.TabEvent)
    | RunDeselectTabs(tabId: TabId)

  /** SELECT_TAB resolves its target as `c.tabs.find(...).actor`; for an id that
      is not registered `find` yields undefined and the lookup throws. */
  datatype Error = UndefinedTarget(tabId: TabId)

  const Initial: Snapshot := Snapshot(Active, [])

  function Ids(tabs: seq<TabRecord>): (r: seq<TabId>)
    ensures |r| == |tabs|
    ensures forall i :: 0 <= i < |tabs| ==> r[i] == tabs[i].id
  {
    seq(|tabs|, i requires 0 <= i < |tabs| => tabs[i].id)
  }

  /** Ids and actors of the records are pairwise distinct. */
  ghost predicate Unique(tabs: seq<TabRecord>) {
    forall i, j :: 0 <= i < j < |tabs| ==> tabs[i].id != tabs[j].id && tabs[i].actor != tabs[j].actor
  }

  /** `c.tabs.find(tab => tab.id === id)`: the first record with that id. */
  function Find(tabs: seq<TabRecord>, id: TabId): (r: Option<TabRecord>)
    ensures r.None? <==> forall i :: 0 <= i < |tabs| ==> tabs[i].id != id
    ensures r.Some? ==> r.value in tabs && r.value.id == id
  {
    match FirstIndex(Ids(tabs), id)
    case None => None
    case Some(i) => Some(tabs[i])
  }

  /** `find` returns the first record carrying the id, whatever comes after it. */
  lemma FindFirst(tabs: seq<TabRecord>, id: TabId, k: nat)
    requires k < |tabs| && tabs[k].id == id
    requires forall j :: 0 <= j < k ==> tabs[j].id != id
    ensures Find(tabs, id) == Some(tabs[k])
  {
    var ids := Ids(tabs);
    assert ids[k] == id;
    match FirstIndex(ids, id)
    case None =>
    case Some(i) =>
      assert ids[i] == id;
      assert !(i < k);
      assert !(k < i);
  }

  /** With distinct ids the record `find` returns is the registered one. */
  lemma FindRegistered(tabs: seq<TabRecord>, k: nat)
    requires Unique(tabs) && k < |tabs|
    ensures Find(tabs, tabs[k].id) == Some(tabs[k])
  {
    FirstIndexUnique(Ids(tabs), tabs[k].id, k);
  }

  /** Guard `tabAlreadyRegistered`: `find` returns a record (truthy) or undefined. */
  function TabAlreadyRegistered(tabs: seq<TabRecord>, id: TabId): (b: bool)
    ensures b <==> id in Ids(tabs)
  {
    Find(tabs, id).Some?
  }

  /** The CLOSE_TAB reducer, `reduce` from the accumulator `acc` left to right:
      it appends to `acc` exactly the records with another id, in order. */
  function Reduce(acc: seq<TabRecord>, tabs: seq<TabRecord>, id: Option<TabId>): (r: seq<TabRecord>)
    ensures r == acc + Without(tabs, id)
    decreases |tabs|
  {
    if tabs == [] then acc
    else
      var kept := if Some(tabs[0].id) == id then [] else [tabs[0]];
      assert Without(tabs, id) == kept + Without(tabs[1..], id);
      assert acc + Without(tabs, id) == (acc + kept) + Without(tabs[1..], id);
      Reduce(acc + kept, tabs[1..], id)
  }

  /** The CLOSE_TAB assigner: `tabs` reduced from an empty list. It keeps
      exactly the records with another id, in order. */
  function CloseReducer(tabs: seq<TabRecord>, id: Option<TabId>): (r: seq<TabRecord>)
    ensures r == Without(tabs, id)
  {
    assert [] + Without(tabs, id) == Without(tabs, id);
    Reduce([], tabs, id)
  }

  /** Reference definition: the records whose id differs from `id`, in order. */
  function Without(tabs: seq<TabRecord>, id: Option<TabId>): seq<TabRecord> {
    if tabs == [] then []
    else (if Some(tabs[0].id) == id then [] else [tabs[0]]) + Without(tabs[1..], id)
  }

  /** The records kept by CLOSE_TAB are exactly those with another id. */
  lemma {:induction false} WithoutMembers(tabs: seq<TabRecord>, id: Option<TabId>)
    ensures forall t :: t in Without(tabs, id) <==> t in tabs && Some(t.id) != id
  {
    if tabs != [] {
      WithoutMembers(tabs[1..], id);
      assert tabs == [tabs[0]] + tabs[1..];
    }
  }

  /** Closing an id that is not registered (or no id at all) returns an equal list. */
  lemma {:induction false} WithoutAbsent(tabs: seq<TabRecord>, id: Option<TabId>)
    requires forall i :: 0 <= i < |tabs| ==> Some(tabs[i].id) != id
    ensures Without(tabs, id) == tabs
  {
    if tabs != [] {
      WithoutAbsent(tabs[1..], id);
    }
  }

  /** With distinct ids, closing the id held at position k removes exactly that
      record and keeps all others in their original relative order. */
  lemma {:induction false} WithoutRegistered(tabs: seq<TabRecord>, k: nat)
    requires Unique(tabs) && k < |tabs|
    ensures Without(tabs, Some(tabs[k].id)) == tabs[..k] + tabs[k + 1..]
  {
    var id := tabs[k].id;
    if k == 0 {
      WithoutAbsent(tabs[1..], Some(id));
    } else {
      WithoutRegistered(tabs[1..], k - 1);
      assert tabs[1..][k - 1] == tabs[k];
      assert tabs[..k] == [tabs[0]] + tabs[1..][..k - 1];
      assert tabs[k + 1..] == tabs[1..][k..];
    }
  }

  /** CLOSE_TAB keeps ids and actors distinct. */
  lemma {:induction false} WithoutUnique(tabs: seq<TabRecord>, id: Option<TabId>)
    requires Unique(tabs)
    ensures Unique(Without(tabs, id))
  {
    if tabs != [] {
      WithoutUnique(tabs[1..], id);
      WithoutMembers(tabs[1..], id);
      var rest := Without(tabs[1..], id);
      forall j | 0 <= j < |rest|
        ensures tabs[0].id != rest[j].id && tabs[0].actor != rest[j].actor
      {
        assert rest[j] in tabs[1..];
      }
    }
  }

  /** The `on` of each state: `active` handles ARCHIVE and TAB_SELECTED,
      `archived` handles WAKE. */
  function StateOn(v: Value, e: Event): seq<Candidate<Value, Action>> {
    match (v, e)
    case (Active, Archive) => [Candidate(true, Some(Archived), [])]
    case (Active, TabSelected(id)) => [Candidate(true, None, [DeselectTabs(id)])]
    case (Archived, Wake) => [Candidate(true, Some(Active), [])]
    case _ => []
  }

  /** The machine-level `on`. `spawned` is the handle the runtime gives the actor
      that `spawn(e.tab)` creates; it is only used if that candidate is taken.
      CLOSE_TAB is written in the source as a bare `assign(...)` where the other
      handlers write `{ actions: ... }`; the library may read that object as a
      transition config with no actions. It is modelled here as the handler
      its reducer evidently intends: a targetless transition running it. */
  function MachineOn(tabs: seq<TabRecord>, e: Event, spawned: ActorRef): seq<Candidate<Value, Action>> {
    match e
    case RegisterTab(id) =>
      [ Candidate(TabAlreadyRegistered(tabs, id), None, []),
        Candidate(true, None, [AppendTab(TabRecord(id, spawned))]) ]
    case SelectTab(id) => [Candidate(true, None, [SendSelect(id)])]
    case CloseTab(id) => [Candidate(true, None, [RemoveTab(id)])]
    case _ => []
  }

  function ApplyAction(tabs: seq<TabRecord>, a: Action): Result<(seq<TabRecord>, seq<Effect>), Error> {
    match a
    case AppendTab(rec) => Success((tabs + [rec], [StartTab(rec.actor)]))
    case SendSelect(id) =>
      (match Find(tabs, id)
       case None => Failure(UndefinedTarget(id))
       case Some(t) => Success((tabs, [SendTo(t.actor, Tab.Select(id))])))
    case RemoveTab(id) => Success((CloseReducer(tabs, id), []))
    case DeselectTabs(id) => Success((tabs, [RunDeselectTabs(id)]))
  }

  /** The actions of a transition in declaration order; the first failure aborts. */
  function ApplyActions(tabs: seq<TabRecord>, actions: seq<Action>): Result<(seq<TabRecord>, seq<Effect>), Error>
    decreases |actions|
  {
    if actions == [] then Success((tabs, []))
    else match ApplyAction(tabs, actions[0])
      case Failure(err) => Failure(err)
      case Success((tabs1, fx1)) =>
        match ApplyActions(tabs1, actions[1..])
        case Failure(err) => Failure(err)
        case Success((tabs2, fx2)) => Success((tabs2, fx1 + fx2))
  }

  /** One event processed by the tab-context machine: the next snapshot and the
      effects left for the runtime. REGISTER_TAB, SELECT_TAB and CLOSE_TAB are
      machine-level and so behave alike in both states. */
  function Step(s: Snapshot, e: Event, spawned: ActorRef): (r: Result<(Snapshot, seq<Effect>), Error>)
    ensures e.RegisterTab? && e.tabId in Ids(s.tabs) ==> r == Success((s, []))
    ensures e.RegisterTab? && e.tabId !in Ids(s.tabs) ==>
      r == Success((Snapshot(s.value, s.tabs + [TabRecord(e.tabId, spawned)]), [StartTab(spawned)]))
    ensures e.SelectTab? && e.tabId !in Ids(s.tabs) ==> r == Failure(UndefinedTarget(e.tabId))
    ensures e.SelectTab? && e.tabId in Ids(s.tabs) ==>
      r == Success((s, [SendTo(Find(s.tabs, e.tabId).value.actor, Tab.Select(e.tabId))]))
    ensures e.CloseTab? ==> r == Success((Snapshot(s.value, Without(s.tabs, e.closedId)), []))
    ensures e.Archive? ==> r == Success((Snapshot(Archived, s.tabs), []))
    ensures e.Wake? ==> r == Success((Snapshot(Active, s.tabs), []))
    ensures e.TabSelected? ==> r == Success((s, if s.value == Active then [RunDeselectTabs(e.tabId)] else []))
  {
    var t := Resolve(StateOn(s.value, e), MachineOn(s.tabs, e, spawned));
    ApplySingleAction(s.tabs, ActionsOf(t));
    RegisterTabFallsThrough(s.tabs, e, spawned);
    match ApplyActions(s.tabs, ActionsOf(t))
    case Failure(err) => Failure(err)
    case Success((tabs, fx)) => Success((Snapshot(NextValue(s.value, t), tabs), fx))
  }

  /** An unregistered id fails the guard-only first REGISTER_TAB candidate and
      takes the second. */
  lemma RegisterTabFallsThrough(tabs: seq<TabRecord>, e: Event, spawned: ActorRef)
    ensures e.RegisterTab? && e.tabId !in Ids(tabs) ==> FirstEnabled(MachineOn(tabs, e, spawned)) == Some(1)
  {
    if e.RegisterTab? && e.tabId !in Ids(tabs) {
      FirstEnabledUnique(MachineOn(tabs, e, spawned), 1);
    }
  }

  /** A one-action list behaves as its action. */
  lemma ApplySingleAction(tabs: seq<TabRecord>, actions: seq<Action>)
    ensures |actions| == 1 ==> ApplyActions(tabs, actions) == ApplyAction(tabs, actions[0])
  {
    if |actions| == 1 {
      assert actions[1..] == [];
      match ApplyAction(tabs, actions[0])
      case Failure(_) =>
      case Success((tabs1, fx1)) => assert fx1 + [] == fx1;
    }
  }

  /** Every event that succeeds keeps the ids (and spawned actors) distinct,
      provided a registration is given a handle not yet in use. */
  lemma StepKeepsUnique(s: Snapshot, e: Event, spawned: ActorRef)
    requires Unique(s.tabs)
    requires forall i :: 0 <= i < |s.tabs| ==> s.tabs[i].actor != spawned
    requires Step(s, e, spawned).Success?
    ensures Unique(Step(s, e, spawned).value.0.tabs)
  {
    if e.CloseTab? {
      WithoutUnique(s.tabs, e.closedId);
    }
  }
}
