/** Properties of the composed tab context (app/components/ui-tabs.js with
    app/components/ui-tabs/tab.js). */
module TabContextLemmas {
  import opened Common
  import Tab
  import opened UiTabs
  import opened TabContext

  /** The record's tab reports `isSelected`. */
  ghost predicate SelectedRecord(sys: System, t: TabRecord) {
    t.actor in sys.actors && Tab.IsSelected(sys.actors[t.actor])
  }

  /** At most one registered tab reports `isSelected`. */
  ghost predicate AtMostOneSelected(sys: System) {
    forall t, u :: t in sys.snap.tabs && u in sys.snap.tabs && SelectedRecord(sys, t) && SelectedRecord(sys, u) ==> t == u
  }

  /** Exactly the tab at position k reports `isSelected`. */
  ghost predicate OnlySelected(sys: System, k: nat)
    requires k < |sys.snap.tabs|
  {
    forall i :: 0 <= i < |sys.snap.tabs| ==> (SelectedRecord(sys, sys.snap.tabs[i]) <==> i == k)
  }

  /** The tab context starts `active` with no tabs and no spawned actor. */
  lemma InitialIsWellFormed()
    ensures Wf(InitialSystem)
    ensures InitialSystem.snap.value == Active && InitialSystem.snap.tabs == []
  {
  }

  /** Processing one event keeps the system well formed. */
  lemma ProcessKeepsWf(sys: System, e: Event)
    requires Wf(sys)
    requires Process(sys, e).Success?
    ensures Wf(Process(sys, e).value.0)
  {
    match e
    case RegisterTab(id) =>
      if id !in Ids(sys.snap.tabs) {
        RegisterKeepsWf(sys, id);
      }
    case SelectTab(id) =>
      SelectKeepsWf(sys, id);
    case CloseTab(closed) =>
      CloseKeepsWf(sys, closed);
    case Archive =>
      SameShapeKeepsWf(sys, Process(sys, e).value.0);
    case Wake =>
      SameShapeKeepsWf(sys, Process(sys, e).value.0);
    case TabSelected(id) =>
      TabSelectedKeepsWf(sys, id);
  }

  lemma SelectKeepsWf(sys: System, id: TabId)
    requires Wf(sys) && id in Ids(sys.snap.tabs)
    ensures Wf(Process(sys, SelectTab(id)).value.0)
  {
    var a := Find(sys.snap.tabs, id).value.actor;
    ExecSingleEffect(sys, [SendTo(a, Tab.Select(id))]);
    SameShapeKeepsWf(sys, Process(sys, SelectTab(id)).value.0);
  }

  lemma TabSelectedKeepsWf(sys: System, id: TabId)
    requires Wf(sys)
    ensures Wf(Process(sys, UiTabs.TabSelected(id)).value.0)
  {
    var e := UiTabs.TabSelected(id);
    if sys.snap.value == Active {
      assert Step(sys.snap, e, sys.nextRef) == Success((sys.snap, [RunDeselectTabs(id)]));
      ExecSingleEffect(sys, [RunDeselectTabs(id)]);
      assert Process(sys, e).value.0 == sys.(actors := DeselectOthers(sys.actors, sys.snap.tabs, id).0);
    } else {
      assert Step(sys.snap, e, sys.nextRef) == Success((sys.snap, []));
      assert Process(sys, e).value.0 == sys;
    }
    SameShapeKeepsWf(sys, Process(sys, e).value.0);
  }

  /** Well-formedness depends only on the records, the set of live handles and
      the next handle. */
  lemma SameShapeKeepsWf(sys: System, sys': System)
    requires Wf(sys)
    requires sys'.snap.tabs == sys.snap.tabs && sys'.actors.Keys == sys.actors.Keys && sys'.nextRef == sys.nextRef
    ensures Wf(sys')
  {
    assert forall r :: r in sys'.actors <==> r in sys.actors;
  }

  lemma RegisterKeepsWf(sys: System, id: TabId)
    requires Wf(sys) && id !in Ids(sys.snap.tabs)
    ensures Wf(Process(sys, RegisterTab(id)).value.0)
  {
    RegisterProcessed(sys, id);
    SpawnKeepsWf(sys, id);
  }

  /** The system REGISTER_TAB of a new id leads to: one record appended and one
      idle actor spawned under the next handle. */
  function Spawned(sys: System, id: TabId): System {
    System(Snapshot(sys.snap.value, sys.snap.tabs + [TabRecord(id, sys.nextRef)]),
           sys.actors[sys.nextRef := Tab.Initial], sys.nextRef + 1)
  }

  lemma RegisterProcessed(sys: System, id: TabId)
    requires id !in Ids(sys.snap.tabs)
    ensures Process(sys, RegisterTab(id)) == Success((Spawned(sys, id), []))
  {
    var snap := Snapshot(sys.snap.value, sys.snap.tabs + [TabRecord(id, sys.nextRef)]);
    ExecSingleEffect(sys.(snap := snap), [StartTab(sys.nextRef)]);
  }

  lemma SpawnKeepsWf(sys: System, id: TabId)
    requires Wf(sys) && id !in Ids(sys.snap.tabs)
    ensures Wf(Spawned(sys, id))
  {
    var tabs := sys.snap.tabs;
    var added := TabRecord(id, sys.nextRef);
    var tabs' := tabs + [added];
    forall i, j | 0 <= i < j < |tabs'| ensures tabs'[i].id != tabs'[j].id && tabs'[i].actor != tabs'[j].actor {
      assert tabs'[i] == tabs[i] && tabs[i].actor in sys.actors;
      if j == |tabs| {
        assert Ids(tabs)[i] == tabs[i].id;
      } else {
        assert tabs'[j] == tabs[j];
      }
    }
    var sys' := Spawned(sys, id);
    forall i | 0 <= i < |tabs'| ensures tabs'[i].actor in sys'.actors {
      if i < |tabs| { assert tabs'[i] == tabs[i]; }
    }
  }

  lemma CloseKeepsWf(sys: System, closed: Option<TabId>)
    requires Wf(sys)
    ensures Wf(Process(sys, CloseTab(closed)).value.0)
  {
    var tabs := sys.snap.tabs;
    WithoutUnique(tabs, closed);
    WithoutMembers(tabs, closed);
    var sys' := Process(sys, CloseTab(closed)).value.0;
    assert sys' == sys.(snap := Snapshot(sys.snap.value, Without(tabs, closed)));
    forall i | 0 <= i < |sys'.snap.tabs| ensures sys'.snap.tabs[i].actor in sys'.actors {
      assert sys'.snap.tabs[i] in tabs;
    }
  }

  /** Every run to completion keeps the system well formed. */
  lemma {:induction false} RunKeepsWf(sys: System, mailbox: seq<Event>)
    requires Wf(sys)
    ensures Wf(Run(sys, mailbox).sys)
    decreases Weight(mailbox)
  {
    if mailbox != [] {
      match Process(sys, mailbox[0])
      case Failure(_) =>
      case Success((sys1, out)) =>
        ProcessKeepsWf(sys, mailbox[0]);
        WeightAppend(mailbox[1..], out);
        RunKeepsWf(sys1, mailbox[1..] + out);
    }
  }

  lemma SendToTabKeepsWf(sys: System, ref: ActorRef, e: Tab.TabEvent)
    requires Wf(sys)
    ensures Wf(SendToTab(sys, ref, e).sys)
  {
    var (acts, out) := DeliverToTab(sys.actors, ref, e);
    RunKeepsWf(sys.(actors := acts), out);
  }

  /** An event that sends nothing back to the mailbox completes in one step. */
  lemma SendQuiet(sys: System, e: Event)
    requires !e.SelectTab?
    ensures Process(sys, e).Failure? ==> Send(sys, e) == RunResult(sys, false)
    ensures Process(sys, e).Success? ==> Send(sys, e) == RunResult(Process(sys, e).value.0, true)
  {
    if Process(sys, e).Success? {
      var (sys1, out) := Process(sys, e).value;
      assert [e][1..] + out == [];
      assert Send(sys, e) == Run(sys1, []);
    }
  }

  /** SELECT_TAB for a registered id delivers SELECT to that tab's actor and then
      runs whatever the tab sent back. */
  lemma SelectTabDelivers(sys: System, k: nat)
    requires Wf(sys) && k < |sys.snap.tabs|
    ensures var t := sys.snap.tabs[k];
      var (acts, out) := DeliverToTab(sys.actors, t.actor, Tab.Select(t.id));
      Send(sys, SelectTab(t.id)) == Run(sys.(actors := acts), out)
  {
    var tabs := sys.snap.tabs;
    var id := tabs[k].id;
    var a := tabs[k].actor;
    FindRegistered(tabs, k);
    assert Ids(tabs)[k] == id;
    ExecSingleEffect(sys, [SendTo(a, Tab.Select(id))]);
    var (sys1, out) := Process(sys, SelectTab(id)).value;
    assert [SelectTab(id)][1..] + out == out;
  }

  /** TAB_SELECTED for the id of a selected tab, while `active`, leaves exactly
      that tab selected; the tab context and the other actors are untouched. */
  lemma TabSelectedDeselectsOthers(sys: System, k: nat)
    requires Wf(sys) && sys.snap.value == Active
    requires k < |sys.snap.tabs| && sys.actors[sys.snap.tabs[k].actor] == Tab.Selected
    ensures var r := Send(sys, UiTabs.TabSelected(sys.snap.tabs[k].id));
      && r.ok && r.sys.snap == sys.snap && r.sys.nextRef == sys.nextRef
      && r.sys.actors.Keys == sys.actors.Keys
      && OnlySelected(r.sys, k)
      && forall a :: a in sys.actors && (forall i :: 0 <= i < |sys.snap.tabs| ==> sys.snap.tabs[i].actor != a) ==>
           r.sys.actors[a] == sys.actors[a]
  {
    var tabs := sys.snap.tabs;
    var e := UiTabs.TabSelected(tabs[k].id);
    SendQuiet(sys, e);
    ExecSingleEffect(sys, [RunDeselectTabs(tabs[k].id)]);
    var r := Send(sys, e);
    forall i | 0 <= i < |tabs| ensures SelectedRecord(r.sys, tabs[i]) <==> i == k {
      if i != k {
        assert tabs[i].id != tabs[k].id;
      } else {
        forall j | 0 <= j < |tabs| && tabs[j].id != tabs[k].id ensures tabs[j].actor != tabs[k].actor {
          assert j != k;
        }
      }
    }
  }

  /** SELECT_TAB for the id registered at position k, while `active`, leaves
      exactly that tab selected and every other registered tab idle, with the
      tab context's own snapshot unchanged. If the tab is already selected the
      SELECT is unhandled, so then the old state must have had at most one
      selected tab; an idle tab needs no such assumption. */
  lemma SelectTabSelectsExactlyOne(sys: System, k: nat)
    requires Wf(sys) && sys.snap.value == Active
    requires k < |sys.snap.tabs|
    requires sys.actors[sys.snap.tabs[k].actor] == Tab.Idle || AtMostOneSelected(sys)
    ensures var r := Send(sys, SelectTab(sys.snap.tabs[k].id));
      r.ok && r.sys.snap == sys.snap && OnlySelected(r.sys, k)
  {
    SelectTabDelivers(sys, k);
    TabSelectSelectsExactlyOne(sys, k);
  }

  /** The tab component's `selectTab` sends SELECT with its own id straight to its
      actor; while `active` the outcome is the same as SELECT_TAB's. */
  lemma TabSelectSelectsExactlyOne(sys: System, k: nat)
    requires Wf(sys) && sys.snap.value == Active
    requires k < |sys.snap.tabs|
    requires sys.actors[sys.snap.tabs[k].actor] == Tab.Idle || AtMostOneSelected(sys)
    ensures var r := SendToTab(sys, sys.snap.tabs[k].actor, Tab.Select(sys.snap.tabs[k].id));
      r.ok && r.sys.snap == sys.snap && OnlySelected(r.sys, k)
  {
    var tabs := sys.snap.tabs;
    var t := tabs[k];
    var (acts, out) := DeliverToTab(sys.actors, t.actor, Tab.Select(t.id));
    if sys.actors[t.actor] == Tab.Idle {
      assert out == [UiTabs.TabSelected(t.id)];
      TabSelectedDeselectsOthers(sys.(actors := acts), k);
    } else {
      assert acts == sys.actors && out == [];
      forall i | 0 <= i < |tabs| && i != k ensures !SelectedRecord(sys, tabs[i]) {
        assert tabs[i] in tabs && t in tabs && tabs[i] != t && SelectedRecord(sys, t);
      }
    }
  }

  /** SELECT_TAB for an id that is not registered throws: the run fails and
      nothing changes. */
  lemma SelectTabUnregisteredFails(sys: System, id: TabId)
    requires id !in Ids(sys.snap.tabs)
    ensures Process(sys, SelectTab(id)) == Failure(UndefinedTarget(id))
    ensures Send(sys, SelectTab(id)) == RunResult(sys, false)
  {
  }

  /** REGISTER_TAB for a new id appends one record with a freshly spawned, idle
      actor; earlier records and actors are untouched. */
  lemma RegisterTabAppends(sys: System, id: TabId)
    requires Wf(sys) && id !in Ids(sys.snap.tabs)
    ensures var r := Send(sys, RegisterTab(id));
      && r.ok && r.sys.snap.value == sys.snap.value
      && r.sys.snap.tabs == sys.snap.tabs + [TabRecord(id, sys.nextRef)]
      && sys.nextRef !in sys.actors
      && r.sys.actors == sys.actors[sys.nextRef := Tab.Idle]
  {
    SendQuiet(sys, RegisterTab(id));
    ExecSingleEffect(sys.(snap := Snapshot(sys.snap.value, sys.snap.tabs + [TabRecord(id, sys.nextRef)])),
                     [StartTab(sys.nextRef)]);
  }

  /** REGISTER_TAB is idempotent: after it the id is registered exactly once,
      and sending it again changes nothing. */
  lemma RegisterTabIdempotent(sys: System, id: TabId)
    requires Wf(sys)
    ensures var r := Send(sys, RegisterTab(id));
      && r.ok
      && (exists k :: 0 <= k < |r.sys.snap.tabs| && r.sys.snap.tabs[k].id == id)
      && (forall i, j :: 0 <= i < j < |r.sys.snap.tabs| ==> r.sys.snap.tabs[i].id != r.sys.snap.tabs[j].id)
      && Send(r.sys, RegisterTab(id)) == RunResult(r.sys, true)
  {
    var r := Send(sys, RegisterTab(id));
    SendQuiet(sys, RegisterTab(id));
    RunKeepsWf(sys, [RegisterTab(id)]);
    if id in Ids(sys.snap.tabs) {
      var k :| 0 <= k < |sys.snap.tabs| && Ids(sys.snap.tabs)[k] == id;
      assert r.sys.snap.tabs[k].id == id;
    } else {
      RegisterTabAppends(sys, id);
      assert r.sys.snap.tabs[|sys.snap.tabs|].id == id;
    }
    assert id in Ids(r.sys.snap.tabs) by {
      var k :| 0 <= k < |r.sys.snap.tabs| && r.sys.snap.tabs[k].id == id;
      assert Ids(r.sys.snap.tabs)[k] == id;
    }
    SendQuiet(r.sys, RegisterTab(id));
  }

  /** CLOSE_TAB for a registered id removes exactly that record, keeps the others
      in order, and leaves every actor as it was (the closed tab's actor is not
      stopped). */
  lemma CloseTabRemovesOne(sys: System, k: nat)
    requires Wf(sys) && k < |sys.snap.tabs|
    ensures var r := Send(sys, CloseTab(Some(sys.snap.tabs[k].id)));
      && r.ok && r.sys.snap.value == sys.snap.value
      && r.sys.snap.tabs == sys.snap.tabs[..k] + sys.snap.tabs[k + 1..]
      && r.sys.actors == sys.actors
  {
    SendQuiet(sys, CloseTab(Some(sys.snap.tabs[k].id)));
    WithoutRegistered(sys.snap.tabs, k);
  }

  /** CLOSE_TAB for an id that is not registered changes nothing. */
  lemma CloseTabAbsentIsNoOp(sys: System, id: TabId)
    requires id !in Ids(sys.snap.tabs)
    ensures Send(sys, CloseTab(Some(id))) == RunResult(sys, true)
  {
    SendQuiet(sys, CloseTab(Some(id)));
    forall i | 0 <= i < |sys.snap.tabs| ensures Some(sys.snap.tabs[i].id) != Some(id) {
      assert Ids(sys.snap.tabs)[i] == sys.snap.tabs[i].id;
    }
    WithoutAbsent(sys.snap.tabs, Some(id));
  }

  /** A tab's own CLOSE reaches the tab context as a CLOSE_TAB with no id, which
      matches no record: nothing is removed and nothing else changes. */
  lemma TabCloseRemovesNothing(sys: System, ref: ActorRef)
    requires ref in sys.actors
    ensures SendToTab(sys, ref, Tab.Close) == RunResult(sys, true)
  {
    var (acts, out) := DeliverToTab(sys.actors, ref, Tab.Close);
    assert acts == sys.actors && out == [CloseTab(None)];
    assert SendToTab(sys, ref, Tab.Close) == Send(sys, CloseTab(None));
    SendQuiet(sys, CloseTab(None));
    WithoutAbsent(sys.snap.tabs, None);
    assert Process(sys, CloseTab(None)) == Success((sys, []));
  }

  /** ARCHIVE then WAKE returns an `active` tab context to exactly where it was. */
  lemma ArchiveWakeRoundTrip(sys: System)
    requires sys.snap.value == Active
    ensures Send(sys, Archive).ok
    ensures Send(Send(sys, Archive).sys, Wake) == RunResult(sys, true)
  {
    SendQuiet(sys, Archive);
    SendQuiet(Send(sys, Archive).sys, Wake);
  }

  /** ARCHIVE while archived and WAKE while active are ignored. */
  lemma ArchiveWakeIgnored(sys: System)
    ensures sys.snap.value == Archived ==> Send(sys, Archive) == RunResult(sys, true)
    ensures sys.snap.value == Active ==> Send(sys, Wake) == RunResult(sys, true)
  {
    SendQuiet(sys, Archive);
    SendQuiet(sys, Wake);
  }

  /** Single selection is kept by every event sent to the tab context, except a
      SELECT_TAB while `archived`. */
  lemma SendKeepsSingleSelection(sys: System, e: Event)
    requires Wf(sys) && AtMostOneSelected(sys)
    requires !(e.SelectTab? && sys.snap.value == Archived)
    ensures AtMostOneSelected(Send(sys, e).sys)
  {
    var tabs := sys.snap.tabs;
    if e.SelectTab? {
      if e.tabId in Ids(tabs) {
        var k :| 0 <= k < |tabs| && Ids(tabs)[k] == e.tabId;
        SelectTabSelectsExactlyOne(sys, k);
        OnlySelectedIsAtMostOne(Send(sys, e).sys, k);
      }
    } else if e.TabSelected? && sys.snap.value == Active {
      TabSelectedKeepsSingleSelection(sys, e.tabId);
    } else if e.RegisterTab? && e.tabId !in Ids(tabs) {
      RegisterKeepsSingleSelection(sys, e.tabId);
    } else {
      KeepsActorsAndShrinks(sys, e);
      var r := Send(sys, e);
      forall t, u | t in r.sys.snap.tabs && u in r.sys.snap.tabs && SelectedRecord(r.sys, t) && SelectedRecord(r.sys, u)
        ensures t == u
      {
        assert SelectedRecord(sys, t) && SelectedRecord(sys, u);
      }
    }
  }

  /** Every other event leaves the actors alone and keeps only registered records. */
  lemma KeepsActorsAndShrinks(sys: System, e: Event)
    requires !e.SelectTab? && !(e.TabSelected? && sys.snap.value == Active)
    requires !(e.RegisterTab? && e.tabId !in Ids(sys.snap.tabs))
    ensures Send(sys, e).sys.actors == sys.actors
    ensures forall t :: t in Send(sys, e).sys.snap.tabs ==> t in sys.snap.tabs
  {
    SendQuiet(sys, e);
    if e.CloseTab? {
      WithoutMembers(sys.snap.tabs, e.closedId);
    }
  }

  lemma OnlySelectedIsAtMostOne(sys: System, k: nat)
    requires k < |sys.snap.tabs| && OnlySelected(sys, k)
    ensures AtMostOneSelected(sys)
  {
    var tabs := sys.snap.tabs;
    forall t, u | t in tabs && u in tabs && SelectedRecord(sys, t) && SelectedRecord(sys, u)
      ensures t == u
    {
      var i :| 0 <= i < |tabs| && tabs[i] == t;
      var j :| 0 <= j < |tabs| && tabs[j] == u;
    }
  }

  lemma RegisterKeepsSingleSelection(sys: System, id: TabId)
    requires Wf(sys) && AtMostOneSelected(sys) && id !in Ids(sys.snap.tabs)
    ensures AtMostOneSelected(Send(sys, RegisterTab(id)).sys)
  {
    RegisterTabAppends(sys, id);
    var r := Send(sys, RegisterTab(id));
    var added := TabRecord(id, sys.nextRef);
    forall t, u | t in r.sys.snap.tabs && u in r.sys.snap.tabs && SelectedRecord(r.sys, t) && SelectedRecord(r.sys, u)
      ensures t == u
    {
      assert t != added && u != added;
      assert t in sys.snap.tabs && u in sys.snap.tabs;
      assert SelectedRecord(sys, t) && SelectedRecord(sys, u);
    }
  }

  lemma TabSelectedKeepsSingleSelection(sys: System, id: TabId)
    requires Wf(sys) && sys.snap.value == Active
    ensures AtMostOneSelected(Send(sys, UiTabs.TabSelected(id)).sys)
  {
    var tabs := sys.snap.tabs;
    var acts := DeselectOthers(sys.actors, tabs, id).0;
    TabSelectedRunsDeselect(sys, id);
    var r := Send(sys, UiTabs.TabSelected(id));
    assert r.sys.actors == acts && r.sys.snap == sys.snap;
    forall t, u | t in tabs && u in tabs && SelectedRecord(r.sys, t) && SelectedRecord(r.sys, u)
      ensures t == u
    {
      var i :| 0 <= i < |tabs| && tabs[i] == t;
      var j :| 0 <= j < |tabs| && tabs[j] == u;
      assert acts[tabs[i].actor] != Tab.Idle && acts[tabs[j].actor] != Tab.Idle;
      assert tabs[i].id == id && tabs[j].id == id;
    }
  }

  /** While `active`, TAB_SELECTED is exactly one run of deselectTabs. */
  lemma TabSelectedRunsDeselect(sys: System, id: TabId)
    requires sys.snap.value == Active
    ensures Send(sys, UiTabs.TabSelected(id))
      == RunResult(sys.(actors := DeselectOthers(sys.actors, sys.snap.tabs, id).0), true)
  {
    SendQuiet(sys, UiTabs.TabSelected(id));
    ExecSingleEffect(sys, [RunDeselectTabs(id)]);
  }

  /** While `archived`, the tab component's own SELECT selects an idle tab and
      nothing else happens, just as SELECT_TAB does. */
  lemma ArchivedTabSelect(sys: System, j: nat)
    requires Wf(sys) && sys.snap.value == Archived
    requires j < |sys.snap.tabs| && sys.actors[sys.snap.tabs[j].actor] == Tab.Idle
    ensures SendToTab(sys, sys.snap.tabs[j].actor, Tab.Select(sys.snap.tabs[j].id))
      == RunResult(sys.(actors := sys.actors[sys.snap.tabs[j].actor := Tab.Selected]), true)
  {
    var t := sys.snap.tabs[j];
    DeliverSelectToIdle(sys.actors, t.actor, t.id);
    ArchivedTabSelectedIgnored(sys.(actors := sys.actors[t.actor := Tab.Selected]), t.id);
  }

  /** While `archived`, SELECT_TAB selects an idle tab and nothing else happens:
      the tab's TAB_SELECTED is unhandled there. */
  lemma ArchivedSelectTab(sys: System, j: nat)
    requires Wf(sys) && sys.snap.value == Archived
    requires j < |sys.snap.tabs| && sys.actors[sys.snap.tabs[j].actor] == Tab.Idle
    ensures Send(sys, SelectTab(sys.snap.tabs[j].id))
      == RunResult(sys.(actors := sys.actors[sys.snap.tabs[j].actor := Tab.Selected]), true)
  {
    var t := sys.snap.tabs[j];
    SelectTabDelivers(sys, j);
    var acts := sys.actors[t.actor := Tab.Selected];
    DeliverSelectToIdle(sys.actors, t.actor, t.id);
    ArchivedTabSelectedIgnored(sys.(actors := acts), t.id);
  }

  /** While `archived`, TAB_SELECTED is unhandled. */
  lemma ArchivedTabSelectedIgnored(sys: System, id: TabId)
    requires sys.snap.value == Archived
    ensures Send(sys, UiTabs.TabSelected(id)) == RunResult(sys, true)
  {
    SendQuiet(sys, UiTabs.TabSelected(id));
  }

  /** WAKE from `archived` only changes the state value. */
  lemma WakeFromArchived(sys: System)
    requires sys.snap.value == Archived
    ensures Send(sys, Wake) == RunResult(sys.(snap := Snapshot(Active, sys.snap.tabs)), true)
  {
    SendQuiet(sys, Wake);
  }

  /** While `archived`, TAB_SELECTED is unhandled, so a SELECT_TAB selects its tab
      without deselecting the others: with one tab already selected, a SELECT_TAB
      for another and then WAKE leave an `active` context with two selected tabs. */
  lemma ArchivedSelectionBreaksSingleSelection(sys: System, i: nat, j: nat)
    requires Wf(sys) && sys.snap.value == Archived
    requires i < |sys.snap.tabs| && j < |sys.snap.tabs| && i != j
    requires sys.actors[sys.snap.tabs[i].actor] == Tab.Selected
    requires sys.actors[sys.snap.tabs[j].actor] == Tab.Idle
    ensures var r1 := Send(sys, SelectTab(sys.snap.tabs[j].id));
      var r2 := Send(r1.sys, Wake);
      && r1.ok && r2.ok && r2.sys.snap.value == Active
      && SelectedRecord(r2.sys, sys.snap.tabs[i]) && SelectedRecord(r2.sys, sys.snap.tabs[j])
      && !AtMostOneSelected(r2.sys)
  {
    var tabs := sys.snap.tabs;
    ArchivedSelectTab(sys, j);
    var sys1 := sys.(actors := sys.actors[tabs[j].actor := Tab.Selected]);
    WakeFromArchived(sys1);
    var sys2 := sys1.(snap := Snapshot(Active, tabs));
    assert tabs[i] != tabs[j] && tabs[i].actor != tabs[j].actor;
    assert SelectedRecord(sys2, tabs[i]) && SelectedRecord(sys2, tabs[j]);
    assert tabs[i] in sys2.snap.tabs && tabs[j] in sys2.snap.tabs;
  }
}
