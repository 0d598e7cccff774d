# Tab selection state machines

This project models the three statecharts that drive tabs in the application.

- **The tab-context machine** (`tabsMachine` in `app/components/ui-tabs.js`) runs one per `<UiTabs>` group. It keeps the ordered list of registered tabs. Each entry holds a tab id and the handle of the tab's spawned actor. The machine is `active` or `archived`. It handles:
  - REGISTER_TAB, guarded by `tabAlreadyRegistered`;
  - SELECT_TAB, which forwards SELECT to the tab's actor;
  - CLOSE_TAB, a filtering reducer;
  - ARCHIVE and WAKE;
  - TAB_SELECTED, which runs the `deselectTabs` loop while `active`.
- **The tab machine** (`tabMachine` in `app/components/ui-tabs/tab.js`) runs one per tab. It is `idle` or `selected`:
  - SELECT from `idle` selects the tab and reports TAB_SELECTED to its parent;
  - DESELECT always goes back to `idle`;
  - CLOSE reports CLOSE_TAB to the parent.

  `isSelected` is true exactly in `selected`.
- **The registry machine** (`tabServiceMachine` in `app/services/tabs.js`) keeps the list of tab contexts. It handles:
  - REGISTER_TAB_CONTEXT, which appends; its WAKE branch is guarded by the stub `contextIsArchived`, which is always false;
  - ARCHIVE_TAB_CONTEXT, which forwards ARCHIVE to the named context;
  - REMOVE_TAB, which has no handler.

  Beside the machine it offers `getTabContext` and `getTab`.

## How the model is built

Statecharts are modelled as pure step functions.
- `Statechart` models the transition choice xstate makes:
  - candidates are tried in order, and the first enabled one wins;
  - the state's own `on` is tried first, then the machine-level `on`;
  - an event nothing handles changes nothing.
- `Tab.Step`, `UiTabs.Step` and `TabsService.Step` are each built from their machine's candidate lists through that choice. Their contracts then state the behaviour event by event.

Actions are handled as follows.
- `assign` becomes a new snapshot.
- `send(..., { to })` and `sendParent` become effects that are returned.
- SELECT_TAB's `to` callback dereferences `.actor` of the record it finds. For an unregistered id that record is `undefined`, so the step fails with `UndefinedTarget`.

`TabContext` composes one tab-context machine with its spawned tabs:
- Tab actors live in a map from actor handles to tab states.
- Events the tabs send to their parent go through the parent's mailbox, in order (`Run`).
- `deselectTabs` is a left fold over the tab list (`DeselectOthers`).

`TabContextInterpreter.Interpreter` is the same composition as an object whose fields change in place:
- `deselectTabs` is a `while` loop;
- the mailbox is drained by another loop;
- each method is proved equal to the step functions.

Where the intended design and the code differ, the model follows the code, except for CLOSE_TAB (see "## Left out"):
- ARCHIVE does not notify the registry.
- Registering the first tab does not select it.
- SELECT on a `selected` tab does nothing.
- SELECT_TAB for an unknown id is an error, not a no-op.
- The registry's WAKE branch is never taken, because its guard is a stub that returns false.
- In xstate a state-level `on` that has no enabled candidate falls back to the machine-level `on`. The alternative design is that a state-level handler fully overrides the machine-level one. In these three machines no state-level candidate has a guard, so a state-level entry is always enabled when it exists. The two readings therefore agree for every event.

Under the lemmas about the composition:
- In an `active` context, selecting a tab leaves exactly that tab selected (`SelectTabSelectsExactlyOne`). This holds when the tab was idle, or when at most one tab was selected before.
- Every component event keeps at most one tab selected, except SELECT_TAB while `archived` (`SendKeepsSingleSelection`).
- While `archived` there are two ways to select a tab, and both break single selection:
  - SELECT_TAB sent to the context (`ArchivedSelectTab`);
  - the tab component's own SELECT sent to its actor (`ArchivedTabSelect`).
- In both cases the tab becomes selected, but its TAB_SELECTED is unhandled in `archived`. No other tab is deselected.
- `ArchivedSelectionBreaksSingleSelection` shows the outcome: after waking, two tabs are selected in an `active` context.

## Model

| member | source | states |
|---|---|---|
| Common.FirstIndex | app/services/tabs.js:63-65 | `find` by equality: none exactly when no element matches; otherwise an in-range index of a match with no match before it |
| Common.FirstIndexAppend | app/services/tabs.js:28-35 | appending one element never changes an existing first match; a new element is found at the old length only if it was absent |
| Statechart.FirstEnabled | app/components/ui-tabs.js:19-28 | the candidate list of a transition is tried top to bottom: the result is the first candidate whose guard holds, and none exactly when no guard holds |
| Statechart.Resolve | app/components/ui-tabs/tab.js:13-29 | looking an event up in the state's `on` and then in the machine-level `on` picks the same transition as a first-match search over the two lists joined |
| Statechart.PickConcat | app/components/ui-tabs/tab.js:13-29 | over two joined lists the first list decides whenever one of its candidates is enabled, and otherwise the second decides alone |
| Tab.Step | app/components/ui-tabs/tab.js:10-30 | SELECT from idle goes to selected and sends TAB_SELECTED with the event's id to the parent; SELECT when selected is ignored; DESELECT always ends idle and sends nothing; CLOSE keeps the state and sends CLOSE_TAB |
| Tab.IsSelected | app/components/ui-tabs/tab.js:39-41 | the wrapper's `isSelected` is true exactly when the tab machine is in `selected` |
| Tab.DeselectIdempotent | app/components/ui-tabs/tab.js:17 | DESELECT applied twice ends where it ends applied once |
| UiTabs.Find | app/components/ui-tabs.js:34 | the SELECT_TAB target lookup finds nothing exactly when no record carries the id, and otherwise a listed record with that id |
| UiTabs.FindFirst | app/components/ui-tabs.js:34 | the lookup returns the first record carrying the id |
| UiTabs.FindRegistered | app/components/ui-tabs.js:34 | with distinct ids the lookup returns the registered record |
| UiTabs.TabAlreadyRegistered | app/components/ui-tabs.js:75-77 | the REGISTER_TAB guard holds exactly when some registered record carries the id |
| UiTabs.CloseReducer | app/components/ui-tabs.js:40-45 | the CLOSE_TAB reducer yields exactly the records whose id differs from the closed id, in their original order |
| UiTabs.Reduce | app/components/ui-tabs.js:41-44 | the literal left `reduce`: from any accumulator it appends exactly the records with another id, in order |
| UiTabs.WithoutMembers | app/components/ui-tabs.js:40-45 | a record survives closing exactly when it was listed and carries another id |
| UiTabs.WithoutAbsent | app/components/ui-tabs.js:40-45 | closing an id no record carries leaves the list unchanged |
| UiTabs.WithoutRegistered | app/components/ui-tabs.js:40-45 | with distinct ids, closing the id of the record at index k removes that one record and keeps the rest in order |
| UiTabs.WithoutUnique | app/components/ui-tabs.js:40-45 | closing keeps ids and actor handles distinct |
| UiTabs.Step | app/components/ui-tabs.js:12-62 | one step of the tab-context machine, event by event: REGISTER_TAB of a known id changes nothing, and of a new id appends its record and spawns the tab; SELECT_TAB fails for an unknown id and otherwise sends SELECT to that tab's actor; CLOSE_TAB filters the id out; ARCHIVE and WAKE switch the state; TAB_SELECTED runs deselectTabs only when active |
| UiTabs.StepKeepsUnique | app/components/ui-tabs.js:19-28 | with a fresh actor handle, every step keeps tab ids and actor handles distinct |
| TabContext.DeliverToTab | app/components/ui-tabs.js:70 | delivering an event to a tab's actor changes only that actor, keeps the set of actors, and emits at most one event to the parent, never SELECT_TAB; DESELECT emits nothing |
| TabContext.DeselectOthers | app/components/ui-tabs.js:65-72 | the deselectTabs loop leaves every tab other than the selected id idle, leaves actors outside the list untouched, keeps the set of actors and sends nothing back |
| TabContext.DeliverSelectToIdle | app/components/ui-tabs/tab.js:20-27 | SELECT delivered to an idle tab's actor makes it selected and puts exactly TAB_SELECTED with the event's id in the parent's mailbox |
| TabContext.DeselectOneMore | app/components/ui-tabs.js:66-71 | one more iteration of the forEach keeps both guarantees of deselectTabs for the records seen so far |
| TabContext.Process | app/components/ui-tabs.js:18-62 | processing one mailbox event fails exactly for SELECT_TAB of an unregistered id and succeeds for every other event; only SELECT_TAB can put an event back in the mailbox, at most one and never another SELECT_TAB |
| TabContext.Run | app/components/ui-tabs.js:12-79 | running the mailbox to completion, in order, never fails when the mailbox holds no SELECT_TAB |
| TabContext.RunTurn | app/components/ui-tabs.js:12-79 | one turn of the run: a failing head event ends the run unchanged, a succeeding one continues it with the caused events appended |
| TabContext.Send | app/components/ui-tabs.js:108-128 | a component send of any event other than SELECT_TAB runs to completion without failing |
| TabContext.SendToTab | app/components/ui-tabs/tab.js:78-81 | a send straight to a tab actor never fails, because a tab never sends SELECT_TAB to its parent |
| TabContextLemmas.InitialIsWellFormed | app/components/ui-tabs.js:13-17 | the initial context (active, no tabs, no actors) is well formed |
| TabContextLemmas.ProcessKeepsWf | app/components/ui-tabs.js:18-62 | processing one event keeps ids and handles distinct and every listed tab's actor alive |
| TabContextLemmas.RegisterProcessed | app/components/ui-tabs.js:23-27 | REGISTER_TAB of a new id appends `(id, next handle)`, spawns that actor idle and queues nothing |
| TabContextLemmas.RegisterKeepsWf | app/components/ui-tabs.js:19-28 | registering a new id keeps the context well formed |
| TabContextLemmas.CloseKeepsWf | app/components/ui-tabs.js:39-46 | CLOSE_TAB keeps the context well formed |
| TabContextLemmas.SelectKeepsWf | app/components/ui-tabs.js:29-38 | SELECT_TAB of a registered id keeps the context well formed |
| TabContextLemmas.TabSelectedKeepsWf | app/components/ui-tabs.js:52-54 | TAB_SELECTED keeps the context well formed |
| TabContextLemmas.RunKeepsWf | app/components/ui-tabs.js:18-72 | running the mailbox to completion keeps the context well formed |
| TabContextLemmas.SendToTabKeepsWf | app/components/ui-tabs/tab.js:78-81 | an event sent straight to a tab, with its reply to the parent, keeps the context well formed |
| TabContextLemmas.SelectTabDelivers | app/components/ui-tabs.js:29-38 | SELECT_TAB of a registered id sends SELECT to exactly that tab's actor |
| TabContextLemmas.TabSelectedRunsDeselect | app/components/ui-tabs.js:52-54 | while active, TAB_SELECTED is exactly one run of deselectTabs and changes nothing else |
| TabContextLemmas.TabSelectedDeselectsOthers | app/components/ui-tabs.js:52-72 | while active, TAB_SELECTED leaves every other tab idle and the named tab as it was |
| TabContextLemmas.SelectTabSelectsExactlyOne | app/components/ui-tabs.js:29-72 | in an active context SELECT_TAB of a registered id succeeds and leaves that tab selected and every other tab idle, when the tab was idle or at most one tab was selected before |
| TabContextLemmas.TabSelectSelectsExactlyOne | app/components/ui-tabs/tab.js:78-81 | a tab's own SELECT in an active context leaves it selected and every other tab idle, when it was idle or at most one tab was selected before |
| TabContextLemmas.SelectTabUnregisteredFails | app/components/ui-tabs.js:34 | SELECT_TAB of an unregistered id fails (the model labels the `undefined.actor` failure `UndefinedTarget` with the id) and leaves the context unchanged |
| TabContextLemmas.RegisterTabAppends | app/components/ui-tabs.js:23-27 | registering a new id appends its record with the next handle and starts that actor idle |
| TabContextLemmas.RegisterTabIdempotent | app/components/ui-tabs.js:19-28 | registering a known id changes nothing |
| TabContextLemmas.CloseTabRemovesOne | app/components/ui-tabs.js:39-46 | CLOSE_TAB of a registered id removes exactly that record and keeps the others in order |
| TabContextLemmas.CloseTabAbsentIsNoOp | app/components/ui-tabs.js:40-45 | CLOSE_TAB of an unknown id changes nothing |
| TabContextLemmas.TabCloseRemovesNothing | app/components/ui-tabs/tab.js:14-16 | a tab's CLOSE reaches the parent without a tab id, so no record is removed |
| TabContextLemmas.ArchiveWakeRoundTrip | app/components/ui-tabs.js:49-61 | ARCHIVE then WAKE returns an active context to where it was |
| TabContextLemmas.ArchiveWakeIgnored | app/components/ui-tabs.js:49-61 | ARCHIVE while archived and WAKE while active change nothing |
| TabContextLemmas.SendKeepsSingleSelection | app/components/ui-tabs.js:18-72 | every event except SELECT_TAB while archived keeps at most one tab selected |
| TabContextLemmas.RegisterKeepsSingleSelection | app/components/ui-tabs.js:23-27 | registering a tab adds an idle actor and so keeps at most one tab selected |
| TabContextLemmas.TabSelectedKeepsSingleSelection | app/components/ui-tabs.js:65-72 | after deselectTabs at most one tab is selected |
| TabContextLemmas.ArchivedTabSelect | app/components/ui-tabs/tab.js:78-81 | while archived, a tab's own SELECT on an idle tab selects it and changes nothing else, so no other tab is deselected |
| TabContextLemmas.ArchivedSelectTab | app/components/ui-tabs.js:57-61 | while archived, SELECT_TAB of an idle tab selects it and changes nothing else |
| TabContextLemmas.ArchivedTabSelectedIgnored | app/components/ui-tabs.js:57-61 | while archived, TAB_SELECTED changes nothing |
| TabContextLemmas.WakeFromArchived | app/components/ui-tabs.js:59 | WAKE from archived changes only the state value |
| TabContextLemmas.ArchivedSelectionBreaksSingleSelection | app/components/ui-tabs.js:48-61 | with one tab selected, SELECT_TAB of another while archived followed by WAKE leaves an active context with two selected tabs |
| TabContextInterpreter.Interpreter.constructor | app/components/ui-tabs.js:13-17 | a new interpreter starts active with no tabs and no actors, well formed |
| TabContextInterpreter.Interpreter.DeselectTabs | app/components/ui-tabs.js:65-72 | the forEach loop sends DESELECT to every other tab's actor in list order, with the effect of the fold `DeselectOthers` |
| TabContextInterpreter.Interpreter.Execute | app/components/ui-tabs.js:18-62 | executing a step's effects in order changes the actors and the next handle as the effect fold does |
| TabContextInterpreter.Interpreter.ProcessEvent | app/components/ui-tabs.js:18-62 | processing one event in place agrees with `Process` on state, replies and failure |
| TabContextInterpreter.Interpreter.Turn | app/components/ui-tabs.js:12-79 | processing the head of the mailbox in place leaves, on success, a lighter mailbox whose run ends where the whole run ends, and on failure the state of a failed run |
| TabContextInterpreter.Interpreter.Drain | app/components/ui-tabs.js:12-79 | draining the mailbox in place ends in the state and verdict of `Run` |
| TabContextInterpreter.Interpreter.Send | app/components/ui-tabs.js:108-128 | a component send runs to completion as `Send` says and keeps the interpreter well formed |
| TabContextInterpreter.Interpreter.SendToTab | app/components/ui-tabs/tab.js:78-81 | an event sent to a tab actor, with the run it starts, agrees with `SendToTab` and keeps the interpreter well formed |
| TabContextInterpreter.Interpreter.IsTabSelected | app/components/ui-tabs/tab.js:39-41 | a tab's `isSelected` is true exactly when its actor is selected |
| TabsService.Step | app/services/tabs.js:9-48 | the registry stays idle; REGISTER_TAB_CONTEXT appends the context and sends nothing; ARCHIVE_TAB_CONTEXT sends ARCHIVE to the named context; REMOVE_TAB changes nothing |
| TabsService.ContextIsArchived | app/services/tabs.js:43-46 | the `contextIsArchived` guard never holds, for any registry and event |
| TabsService.RegisterFallsThrough | app/services/tabs.js:22-27 | the WAKE branch guard is always false, so registration always takes the appending branch |
| TabsService.GetTabContext | app/services/tabs.js:62-66 | nothing exactly when no context carries the id; otherwise the first context carrying it |
| TabsService.GetTab | app/services/tabs.js:68-73 | the result names the requested tab id and the context `getTabContext` returns: the first one carrying the requested id, and nothing exactly when none does |
| TabsService.RunAll | app/services/tabs.js:15-40 | over any event sequence the registry stays idle, the list only grows at the end, and one ARCHIVE is sent per ARCHIVE_TAB_CONTEXT |
| TabsService.RegisterTwiceDuplicates | app/services/tabs.js:21-36 | registering the same id twice lists it twice, and lookups return the first entry |

## Left out

- The Ember and Glimmer layers are not modelled. This covers:
  - the component classes and their tracked state;
  - `useMachine`, `interpreterFor` and `matchesState`;
  - the service class's forwarding methods;
  - `onTransition` subscribers and re-rendering.

  The model's events stand for the calls those methods make.
- `app/components/ui-tabs/routable-tab.js` and `app/controllers/application.js` are not part of this model.
- The component's `getTabMachine` is not modelled separately. It is glue code doing the same lookup as `UiTabs.Find`.
- Calls that pass an object where an id is expected are modelled as passing the id. This covers the object the tab constructor hands to the component's `registerTab`. Ids are plain strings.
- The tab constructor defers its registration with the run loop's `next`. The model does not schedule that callback. It treats registration as one REGISTER_TAB event, in whatever order the events are sent.
- `console.log` calls are left out.
- xstate's actor objects are modelled as natural-number handles. Spawning takes the next unused handle.
- The registry spawns an already running interpreter. It is modelled by recording the handle it is given.
- The registry's sends to a context are returned as directed events and are not delivered. The registry and its contexts are not composed.
- A tab's event to its parent is queued and handled after the current step, in order. xstate's own deferral of `sendParent` inside a running transition is not modelled beyond that order.
- Delivery to an actor handle that is not alive is modelled as changing nothing.
- When SELECT_TAB fails, the run stops with the state as it was before that event. The remaining queued events are dropped. The exception itself is not modelled.
- UiTabs.Step: at `app/components/ui-tabs.js:39` the `assign(...)` action object is itself the CLOSE_TAB transition, not an entry of its `actions`. xstate 4 may read such an object as a transition with neither target nor actions. The model gives CLOSE_TAB the reducer behaviour that is evidently intended, and does not model that possible no-op.
- TabsService.Step: the REMOVE_TAB event that `removeTab` sends has no handler in the machine, so the model changes nothing. No removal is modelled.
