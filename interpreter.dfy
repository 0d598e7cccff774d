/** The running tab context: the tab-context actor of app/components/ui-tabs.js
    with the tab actors it spawned, updated in place event by event. Each method
    is proved against the run-to-completion functions of module TabContext. */
module TabContextInterpreter {
  import opened Common
  import Tab
  import opened UiTabs
  import opened TabContext
  import TabContextLemmas

  class Interpreter {
    var value: Value
    var tabs: seq<TabRecord>
    var actors: map<ActorRef, Tab.TabState>
    var nextRef: ActorRef

    function Sys(): System
      reads this
    {
      System(Snapshot(value, tabs), actors, nextRef)
    }

    ghost predicate Valid()
      reads this
    {
      Wf(Sys())
    }

    /** `useMachine(tabsMachine)`: `active`, no tabs, nothing spawned. */
    constructor ()
      ensures Valid() && Sys() == InitialSystem
    {
      value, tabs, actors, nextRef := Active, [], map[], 0;
    }

    /** deselectTabs: walks `tabs` in order and sends DESELECT to every tab actor
        whose id differs from `tabId`. */
    method DeselectTabs(tabId: TabId) returns (out: seq<Event>)
      modifies this
      ensures value == old(value) && tabs == old(tabs) && nextRef == old(nextRef)
      ensures (actors, out) == DeselectOthers(old(actors), tabs, tabId)
    {
      out := [];
      var i := 0;
      while i < |tabs|
        invariant 0 <= i <= |tabs|
        invariant value == old(value) && tabs == old(tabs) && nextRef == old(nextRef)
        invariant (actors, out) == DeselectOthers(old(actors), tabs[..i], tabId)
      {
        var tab := tabs[i];
        assert tabs[..i + 1][..i] == tabs[..i];
        if tab.id != tabId {
          var (acts, sent) := DeliverToTab(actors, tab.actor, Tab.Deselect);
          actors := acts;
          out := out + sent;
        }
        i := i + 1;
      }
      assert tabs[..i] == tabs;
    }

    /** Carries out the effects of one transition in order. */
    method Execute(fxs: seq<Effect>) returns (out: seq<Event>)
      modifies this
      ensures (Sys(), out) == ExecEffects(old(Sys()), fxs)
    {
      out := [];
      var i := 0;
      while i < |fxs|
        invariant 0 <= i <= |fxs|
        invariant (Sys(), out) == ExecEffects(old(Sys()), fxs[..i])
      {
        assert fxs[..i + 1][..i] == fxs[..i];
        var sent: seq<Event>;
        match fxs[i] {
          case StartTab(a) =>
            actors := actors[a := Tab.Initial];
            nextRef := nextRef + 1;
            sent := [];
          case SendTo(a, te) =>
            var (acts, o) := DeliverToTab(actors, a, te);
            actors := acts;
            sent := o;
          case RunDeselectTabs(id) =>
            sent := DeselectTabs(id);
        }
        out := out + sent;
        i := i + 1;
      }
      assert fxs[..i] == fxs;
    }

    /** Processes one mailbox event: takes the machine's transition, then
        carries out its effects. */
    method ProcessEvent(e: Event) returns (res: Result<seq<Event>, Error>)
      modifies this
      ensures Process(old(Sys()), e).Failure? ==>
        Sys() == old(Sys()) && res == Failure(Process(old(Sys()), e).error)
      ensures Process(old(Sys()), e).Success? ==>
        (Sys(), res) == (Process(old(Sys()), e).value.0, Success(Process(old(Sys()), e).value.1))
    {
      match Step(Snapshot(value, tabs), e, nextRef)
      case Failure(err) =>
        res := Failure(err);
      case Success((snap, fxs)) =>
        value, tabs := snap.value, snap.tabs;
        var out := Execute(fxs);
        res := Success(out);
    }

    /** Processes the head of a non-empty mailbox. On success the rest of the
        mailbox, with what the event caused appended, is what remains to run. */
    method Turn(q: seq<Event>) returns (ok: bool, rest: seq<Event>)
      requires q != []
      modifies this
      ensures ok ==> Run(old(Sys()), q) == Run(Sys(), rest) && Weight(rest) < Weight(q)
      ensures !ok ==> Run(old(Sys()), q) == RunResult(Sys(), false)
    {
      ghost var pre := Sys();
      var res := ProcessEvent(q[0]);
      RunTurn(pre, q, Sys(), res);
      if res.Failure? {
        return false, q;
      }
      WeightAppend(q[1..], res.value);
      ok, rest := true, q[1..] + res.value;
    }

    /** Runs the mailbox to completion, appending what each event causes. */
    method Drain(mailbox: seq<Event>) returns (ok: bool)
      modifies this
      ensures Sys() == Run(old(Sys()), mailbox).sys && ok == Run(old(Sys()), mailbox).ok
    {
      var q := mailbox;
      while q != []
        invariant Run(Sys(), q) == Run(old(Sys()), mailbox)
        decreases Weight(q)
      {
        var continues;
        continues, q := Turn(q);
        if !continues {
          return false;
        }
      }
      ok := true;
    }

    /** `send` on the tab-context actor, run to completion. */
    method Send(e: Event) returns (ok: bool)
      requires Valid()
      modifies this
      ensures Valid()
      ensures Sys() == TabContext.Send(old(Sys()), e).sys && ok == TabContext.Send(old(Sys()), e).ok
    {
      TabContextLemmas.RunKeepsWf(Sys(), [e]);
      ok := Drain([e]);
    }

    /** `send` on one tab actor; what the tab sends to its parent is run to
        completion. */
    method SendToTab(ref: ActorRef, e: Tab.TabEvent) returns (ok: bool)
      requires Valid()
      modifies this
      ensures Valid()
      ensures Sys() == TabContext.SendToTab(old(Sys()), ref, e).sys && ok == TabContext.SendToTab(old(Sys()), ref, e).ok
    {
      TabContextLemmas.SendToTabKeepsWf(Sys(), ref, e);
      var (acts, out) := DeliverToTab(actors, ref, e);
      actors := acts;
      ok := Drain(out);
    }

    /** The tab's state as its component reads it, `isSelected`. */
    method IsTabSelected(ref: ActorRef) returns (b: bool)
      requires ref in actors
      ensures b <==> actors[ref] == Tab.Selected
    {
      b := Tab.IsSelected(actors[ref]);
    }
  }
}
