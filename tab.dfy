/** The leaf tab machine `tabMachine` of app/components/ui-tabs/tab.js.
    Its states are `idle` (initial) and `selected`; it declares no context. */
module Tab {
  import opened Common
  import opened Statechart

  datatype TabState = Idle | Selected

  /** Events a tab receives. `SELECT` carries the `id` the sender puts in it. */
  datatype TabEvent = Select(id: TabId) | Deselect | Close

  /** Events a tab sends to its parent with `sendParent`. `CLOSE_TAB` spreads
      the tab's context into the event; the machine declares no context, so
      the event carries no fields at all (in particular no `tabId`). */
  datatype ParentEvent = TabSelected(tabId: TabId) | CloseTab

  const Initial: TabState := Idle

  /** The state-level `on` of the config: only `idle` handles `SELECT`. */
  function StateOn(s: TabState, e: TabEvent): seq<Candidate<TabState, ParentEvent>> {
    match s
    case Idle =>
      if e.Select? then [Candidate(true, Some(Selected), [TabSelected(e.id)])] else []
    case Selected => []
  }

  /** The machine-level `on`: `CLOSE` notifies the parent, `DESELECT` targets `idle`. */
  function MachineOn(e: TabEvent): seq<Candidate<TabState, ParentEvent>> {
    match e
    case Close => [Candidate(true, None, [CloseTab])]
    case Deselect => [Candidate(true, Some(Idle), [])]
    case Select(_) => []
  }

  /** One event processed by a tab: its next state and the events it sends to its parent.
      `SELECT` while `selected` is unhandled; `DESELECT` always ends in `idle`;
      `CLOSE` keeps the state and reports to the parent. */
  function Step(s: TabState, e: TabEvent): (r: (TabState, seq<ParentEvent>))
    ensures e.Select? && s == Idle ==> r == (Selected, [TabSelected(e.id)])
    ensures e.Select? && s == Selected ==> r == (s, [])
    ensures e.Deselect? ==> r == (Idle, [])
    ensures e.Close? ==> r == (s, [CloseTab])
  {
    var t := Resolve(StateOn(s, e), MachineOn(e));
    (NextValue(s, t), ActionsOf(t))
  }

  /** The state value as the library reports it. */
  function StateValue(s: TabState): string {
    match s
    case Idle => "idle"
    case Selected => "selected"
  }

  /** `XstateWrapper.isSelected`: compares the wrapped state value with 'selected'. */
  function IsSelected(s: TabState): (b: bool)
    ensures b <==> s == Selected
  {
    StateValue(s) == "selected"
  }

  /** `DESELECT` is idempotent and never notifies the parent. */
  lemma DeselectIdempotent(s: TabState)
    ensures Step(Step(s, Deselect).0, Deselect) == Step(s, Deselect)
    ensures Step(s, Deselect).1 == []
  {
  }
}
