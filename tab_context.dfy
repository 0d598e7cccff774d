/** The composition of app/components/ui-tabs.js with app/components/ui-tabs/tab.js:
    one tab-context actor and the tab actors it spawned, exchanging directed
    messages. Events for the tab context wait in its mailbox and are processed
    one at a time, in order; an event sent to a tab actor is processed at once
    (the tab is idle when it is addressed), and what the tab sends to its
    parent joins the end of the mailbox. */
module TabContext {
  import opened Common
  import Tab
  import opened UiTabs

  /** The tab-context actor's snapshot, the arena of spawned tab actors keyed by
      handle, and the handle the next spawn receives. */
  datatype System = System(snap: Snapshot, actors: map<ActorRef, Tab.TabState>, nextRef: ActorRef)

  /** Registered ids and actors are distinct, every registered actor is running,
      and no running actor holds a handle that will be handed out again. */
  ghost predicate Wf(sys: System) {
    && Unique(sys.snap.tabs)
    && (forall i :: 0 <= i < |sys.snap.tabs| ==> sys.snap.tabs[i].actor in sys.actors)
    && (forall r :: r in sys.actors ==> r < sys.nextRef)
  }

  const InitialSystem: System := System(UiTabs.Initial, map[], 0)

  /** A tab's parent-directed event as the tab context receives it; CLOSE_TAB
      spreads the tab's (absent) context, so `e.tabId` is undefined. */
  function ToParent(pe: Tab.ParentEvent): Event {
    match pe
    case TabSelected(id) => UiTabs.TabSelected(id)
    case CloseTab => UiTabs.CloseTab(None)
  }

  /** An event delivered to one tab actor: the arena afterwards and the events the
      tab sent to its parent. Nothing is assumed about a handle with no actor. */
  function DeliverToTab(actors: map<ActorRef, Tab.TabState>, ref: ActorRef, e: Tab.TabEvent)
    : (r: (map<ActorRef, Tab.TabState>, seq<Event>))
    ensures r.0.Keys == actors.Keys
    ensures |r.1| <= 1 && forall ev :: ev in r.1 ==> !ev.SelectTab?
    ensures e.Deselect? ==> r.1 == []
    ensures ref !in actors ==> r.0 == actors
    ensures ref in actors ==> r.0 == actors[ref := Tab.Step(actors[ref], e).0]
  {
    if ref in actors then
      var (s, out) := Tab.Step(actors[ref], e);
      (actors[ref := s], seq(|out|, i requires 0 <= i < |out| => ToParent(out[i])))
    else (actors, [])
  }

  /** SELECT delivered to an idle tab selects it and reports TAB_SELECTED. */
  lemma DeliverSelectToIdle(actors: map<ActorRef, Tab.TabState>, ref: ActorRef, id: TabId)
    requires ref in actors && actors[ref] == Tab.Idle
    ensures DeliverToTab(actors, ref, Tab.Select(id)) == (actors[ref := Tab.Selected], [TabSelected(id)])
  {
    var (s, out) := Tab.Step(Tab.Idle, Tab.Select(id));
    assert out == [Tab.TabSelected(id)];
    var events := seq(|out|, i requires 0 <= i < |out| => ToParent(out[i]));
    assert events == [TabSelected(id)];
  }

  /** The custom action deselectTabs: `DESELECT` to the actor of every record
      whose id differs from `tabId`, in list order. Those actors end `idle`, every
      other actor keeps its state, and no event reaches the parent. */
  function DeselectOthers(actors: map<ActorRef, Tab.TabState>, tabs: seq<TabRecord>, tabId: TabId)
    : (r: (map<ActorRef, Tab.TabState>, seq<Event>))
    ensures r.1 == []
    ensures r.0.Keys == actors.Keys
    ensures forall i :: 0 <= i < |tabs| && tabs[i].id != tabId && tabs[i].actor in actors ==>
      r.0[tabs[i].actor] == Tab.Idle
    ensures forall a :: a in actors && (forall i :: 0 <= i < |tabs| && tabs[i].id != tabId ==> tabs[i].actor != a) ==>
      r.0[a] == actors[a]
    decreases |tabs|
  {
    if tabs == [] then (actors, [])
    else
      var prefix := tabs[..|tabs| - 1];
      var (a1, o1) := DeselectOthers(actors, prefix, tabId);
      var last := tabs[|tabs| - 1];
      assert tabs == prefix + [last];
      DeselectOneMore(actors, a1, prefix, last, tabId);
      if last.id == tabId then (a1, o1)
      else
        var (a2, o2) := DeliverToTab(a1, last.actor, Tab.Deselect);
        (a2, o1 + o2)
  }

  /** One more iteration of deselectTabs keeps its two guarantees: other-id
      actors seen so far are idle, actors no other-id record names are untouched. */
  lemma DeselectOneMore(actors: map<ActorRef, Tab.TabState>, a1: map<ActorRef, Tab.TabState>,
                        prefix: seq<TabRecord>, last: TabRecord, tabId: TabId)
    requires a1.Keys == actors.Keys
    requires forall i :: 0 <= i < |prefix| && prefix[i].id != tabId && prefix[i].actor in actors ==>
      a1[prefix[i].actor] == Tab.Idle
    requires forall a :: a in actors && (forall i :: 0 <= i < |prefix| && prefix[i].id != tabId ==> prefix[i].actor != a) ==>
      a1[a] == actors[a]
    ensures var tabs := prefix + [last];
      var a2 := if last.id == tabId then a1 else DeliverToTab(a1, last.actor, Tab.Deselect).0;
      && (forall i :: 0 <= i < |tabs| && tabs[i].id != tabId && tabs[i].actor in actors ==> a2[tabs[i].actor] == Tab.Idle)
      && (forall a :: a in actors && (forall i :: 0 <= i < |tabs| && tabs[i].id != tabId ==> tabs[i].actor != a) ==>
            a2[a] == actors[a])
  {
    var tabs := prefix + [last];
    var a2 := if last.id == tabId then a1 else DeliverToTab(a1, last.actor, Tab.Deselect).0;
    assert a2 == if last.id == tabId || last.actor !in actors then a1 else a1[last.actor := Tab.Idle];
    forall i | 0 <= i < |tabs| && tabs[i].id != tabId && tabs[i].actor in actors
      ensures a2[tabs[i].actor] == Tab.Idle
    {
      if i < |prefix| { assert tabs[i] == prefix[i]; }
    }
    forall a | a in actors && (forall i :: 0 <= i < |tabs| && tabs[i].id != tabId ==> tabs[i].actor != a)
      ensures a2[a] == actors[a]
    {
      forall i | 0 <= i < |prefix| && prefix[i].id != tabId ensures prefix[i].actor != a {
        assert tabs[i] == prefix[i];
      }
      if last.id != tabId { assert tabs[|prefix|] == last; }
    }
  }

  /** One effect carried out by the runtime. A spawned tab starts in the tab
      machine's initial state under the next handle. */
  function ExecEffect(sys: System, fx: Effect): (System, seq<Event>) {
    match fx
    case StartTab(a) => (sys.(actors := sys.actors[a := Tab.Initial], nextRef := sys.nextRef + 1), [])
    case SendTo(a, te) =>
      var (acts, out) := DeliverToTab(sys.actors, a, te);
      (sys.(actors := acts), out)
    case RunDeselectTabs(id) =>
      var (acts, out) := DeselectOthers(sys.actors, sys.snap.tabs, id);
      (sys.(actors := acts), out)
  }

  /** The effects of one transition, carried out in order. */
  function ExecEffects(sys: System, fxs: seq<Effect>): (System, seq<Event>)
    decreases |fxs|
  {
    if fxs == [] then (sys, [])
    else
      var (s1, o1) := ExecEffects(sys, fxs[..|fxs| - 1]);
      var (s2, o2) := ExecEffect(s1, fxs[|fxs| - 1]);
      (s2, o1 + o2)
  }

  lemma ExecSingleEffect(sys: System, fxs: seq<Effect>)
    ensures |fxs| == 1 ==> ExecEffects(sys, fxs) == ExecEffect(sys, fxs[0])
  {
    if |fxs| == 1 {
      assert fxs[..0] == [];
      var (s2, o2) := ExecEffect(sys, fxs[0]);
      assert [] + o2 == o2;
    }
  }

  /** One mailbox event processed by the tab context: its transition, then its
      effects. Only SELECT_TAB can bring an event back to the mailbox (the
      selected tab's TAB_SELECTED), and never another SELECT_TAB. */
  function Process(sys: System, e: Event): (r: Result<(System, seq<Event>), Error>)
    ensures r.Success? && !e.SelectTab? ==> r.value.1 == []
    ensures r.Success? && e.SelectTab? ==> |r.value.1| <= 1 && forall ev :: ev in r.value.1 ==> !ev.SelectTab?
    ensures e.SelectTab? ==> (r.Success? <==> e.tabId in Ids(sys.snap.tabs))
    ensures !e.SelectTab? ==> r.Success?
  {
    match Step(sys.snap, e, sys.nextRef)
    case Failure(err) => Failure(err)
    case Success((snap, fxs)) =>
      ExecSingleEffect(sys.(snap := snap), fxs);
      Success(ExecEffects(sys.(snap := snap), fxs))
  }

  /** Termination measure of a mailbox: a SELECT_TAB may cause one more event. */
  function Weight(q: seq<Event>): nat {
    if q == [] then 0 else (if q[0].SelectTab? then 2 else 1) + Weight(q[1..])
  }

  lemma {:induction false} WeightAppend(a: seq<Event>, b: seq<Event>)
    ensures Weight(a + b) == Weight(a) + Weight(b)
  {
    if a == [] {
      assert a + b == b;
    } else {
      assert (a + b)[1..] == a[1..] + b;
      WeightAppend(a[1..], b);
    }
  }

  datatype RunResult = RunResult(sys: System, ok: bool)

  /** Run to completion: mailbox events are processed in order, each appending
      what it causes, until the mailbox is empty. An event whose processing
      throws (SELECT_TAB for an unregistered id) stops the run with the state it
      found, and `ok` is false. */
  function Run(sys: System, mailbox: seq<Event>): (r: RunResult)
    ensures (forall ev :: ev in mailbox ==> !ev.SelectTab?) ==> r.ok
    decreases Weight(mailbox)
  {
    if mailbox == [] then RunResult(sys, true)
    else match Process(sys, mailbox[0])
      case Failure(_) => RunResult(sys, false)
      case Success((sys1, out)) =>
        WeightAppend(mailbox[1..], out);
        Run(sys1, mailbox[1..] + out)
  }

  /** One turn of the run: the head of the mailbox is processed first, giving
      `after` and `res`; a failure ends the run, a success continues it with
      the events it caused appended. */
  lemma RunTurn(sys: System, q: seq<Event>, after: System, res: Result<seq<Event>, Error>)
    requires q != []
    requires Process(sys, q[0]).Failure? ==> after == sys && res.Failure?
    requires Process(sys, q[0]).Success? ==>
      (after, res) == (Process(sys, q[0]).value.0, Success(Process(sys, q[0]).value.1))
    ensures res.Failure? ==> Run(sys, q) == RunResult(after, false)
    ensures res.Success? ==> Run(sys, q) == Run(after, q[1..] + res.value)
  {
  }

  /** `send` on the tab-context actor. Only SELECT_TAB can throw. */
  function Send(sys: System, e: Event): (r: RunResult)
    ensures !e.SelectTab? ==> r.ok
  {
    Run(sys, [e])
  }

  /** `send` on a tab actor (the tab component's `selectTab` sends `SELECT`
      straight to its actor); what the tab sends to its parent is then run. A tab
      never sends SELECT_TAB, so this never throws. */
  function SendToTab(sys: System, ref: ActorRef, e: Tab.TabEvent): (r: RunResult)
    ensures r.ok
  {
    var (acts, out) := DeliverToTab(sys.actors, ref, e);
    Run(sys.(actors := acts), out)
  }
}
