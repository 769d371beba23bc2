# StepIterator: a verified model of the md-stepper navigation state machine

This project models `StepIterator`, the class at the heart of the
md-stepper wizard addon. It decides which step of a multi-step wizard
the user may go to next, back to, skip to or jump to. The model covers:
- the ordered list of steps;
- the state tracker that marks each step UNVISITED or VISITED;
- the `current` pointer, which is `null` before the first `next` and after `moveTo(null)`;
- the `linear`, `readOnly` and `locked` flags.

Modules, one concern each:

- `Steps` (`step.dfy`): the `Step` entity, the visitation states and the exceptions.
  A `Step` is compared by reference and has read-only `optional`,
  `editable`, `disabled` and `cancellable` flags. The exceptions are
  `NoSuchElementException`, `IndexOutOfBoundsException`,
  `IllegalArgumentException` and `UnsupportedOperationException`. They
  appear as `Result`/`Outcome` values.
- `Seqs` (`seqs.dfy`): the Java collection and stream primitives the iterator
  is written in. They are `List.indexOf`, `List.add(i, x)` and
  `List.remove(Object)`, plus the `filter`, `findFirst` and
  `reduce((first, second) -> second)` pipelines. Each is a function;
  `IndexOf`, `Filter`, `FindFirst` and `FindLast` carry a short contract
  of their own, and lemmas state what every one of them computes.
- `Navigation` (`navigation.dfy`): every query of the iterator as a function of an
  `IterState`. An `IterState` holds the steps, the tracker, the current
  step and the linear flag. The queries are `isTransitionAllowed`, the
  open set, `nextIndex`, `previousIndex`, the `has*` probes,
  `isComplete`, `isStepComplete` and `getLastVisitableStep`. Each is
  followed by the lemmas that say, declaratively, what it computes.
- `Iterator` (`iterator.dfy`): the class `StepIterator`. Its fields are updated in place by
  the constructor, `add`, `remove`, `next`, `previous`, `skip`,
  `moveTo`, the visit/reset operations and the flag setters. Every
  method's postcondition ties the new state and its result to the
  `Navigation` functions of the old state. The listeners' notifications
  are appended to a ghost `events` log, in the order the source
  publishes them.
- `Scenarios` (`scenarios.dfy`): worked examples on concrete step lists: linear lock-step,
  a reset sending `next` back, free jumps, skipping, the end events repeated
  after `moveTo(null)`, and add placement.

Behaviours of the code that the model reproduces and proves:

- `nextIndex` accepts the current step itself when it is unvisited.
  So `next` and `skip` from an unvisited current step go to that step or
  to an earlier unvisited enabled step, never past it
  (`Navigation.NextStaysOnUnvisitedCurrent`). An earlier step is possible
  whenever an earlier step is unvisited, in either mode: free navigation
  can jump over one, and a reset signal or `resetStep` can make an earlier
  step unvisited again (`Scenarios.ResetSendsNextBack`). `skip` moves past an
  optional step only once that step has been visited
  (`Scenarios.SkipOnOptionalStep`). This departs from the usual reading
  of "skip", which expects `skip` from an unvisited optional A to go to B.
- From a current step, `next` and `skip` always land on an unvisited
  step, so a next step remains afterwards. Their end event is therefore
  not published (`Iterator.AdvanceFromStepPublishesOneEvent`). This
  assumes no listener changes the visitation state while the start and
  next events are dispatched, which happens before the end check.
- An end event can come only from a `next` made while nothing is
  current, and only when the first step is already visited and every
  step is disabled or visited (`Iterator.NextFromNothingEvents`).
  Nothing is current before the first `next`, and again after
  `moveTo(null)`. So the start and end events can be published again
  (`Scenarios.EndRepeatsAfterMoveToNull`).
- `remove` takes the current step out of the list and the tracker, and
  publishes the removed event, before it indexes the list at
  `nextIndex`. That index can be -1, and the list can be empty: the
  list access then throws after the removal has happened. In read-only
  mode the final move is inert. In both cases, if a step was current,
  `current` is left on that step, which is no longer listed. (With
  nothing current, `remove` removes nothing and `current` stays `null`;
  `nextIndex` is then 0, so on a non-empty list the final `moveTo` of
  the first step is a real move. It throws `NoSuchElementException` when
  that move is not allowed, for example when the first step is disabled,
  and otherwise, outside read-only mode, makes the first step current
  through `moveTo`, so listeners see a move event and no start event.)
  A later `previous` then throws
  `IllegalArgumentException`, because `steps.indexOf(current)` is -1 and
  the stream is limited to -1 elements.
- `moveTo(null)` is always allowed, and read-only mode does not stop it.

## Model

| member | source | states |
|---|---|---|
| Seqs.IndexOf | md-stepper-addon/src/main/java/org/vaadin/addons/md_stepper/StepIterator.java:362 | `List.indexOf`: -1 exactly when the element is absent, otherwise a position holding it |
| Seqs.IndexOfIsFirst | md-stepper-addon/src/main/java/org/vaadin/addons/md_stepper/StepIterator.java:294 | `indexOf` answers the first occurrence: no copy precedes it, and every occurrence is at or after it |
| Seqs.Filter | md-stepper-addon/src/main/java/org/vaadin/addons/md_stepper/StepIterator.java:148 | a filtered stream is never longer than its source |
| Seqs.FilterMembers | md-stepper-addon/src/main/java/org/vaadin/addons/md_stepper/StepIterator.java:148 | the filtered list holds exactly the source elements that pass the filter |
| Seqs.FindFirst | md-stepper-addon/src/main/java/org/vaadin/addons/md_stepper/StepIterator.java:348-352 | `filter(..).findFirst()` answers -1 or a position whose element passes the filter |
| Seqs.FindFirstIsFirst | md-stepper-addon/src/main/java/org/vaadin/addons/md_stepper/StepIterator.java:348-352 | `findFirst` finds nothing exactly when no element passes, and no passing element precedes its answer |
| Seqs.FindLast | md-stepper-addon/src/main/java/org/vaadin/addons/md_stepper/StepIterator.java:267 | `reduce((first, second) -> second)` answers -1 or a position whose element passes the filter |
| Seqs.FindLastIsLast | md-stepper-addon/src/main/java/org/vaadin/addons/md_stepper/StepIterator.java:267 | the reduction finds nothing exactly when no element passes, and no passing element follows its answer |
| Seqs.FilterHead | md-stepper-addon/src/main/java/org/vaadin/addons/md_stepper/StepIterator.java:148-152 | the open list's first element (`indexOf(to) == 0`) is the first step of the full list that passes the filter |
| Seqs.FilterLast | md-stepper-addon/src/main/java/org/vaadin/addons/md_stepper/StepIterator.java:412-413 | the last element of a filtered list is the last element of the source that passes the filter |
| Seqs.FilterAppend | md-stepper-addon/src/main/java/org/vaadin/addons/md_stepper/StepIterator.java:412 | filtering distributes over concatenation |
| Seqs.FoundFirstIsIndexOf | md-stepper-addon/src/main/java/org/vaadin/addons/md_stepper/StepIterator.java:348-362 | `indexOf` of the step `findFirst` returned is that step's own position |
| Seqs.DistinctIndexOf | md-stepper-addon/src/main/java/org/vaadin/addons/md_stepper/StepIterator.java:267 | in a list without duplicates, `indexOf` of the element at `i` is `i` |
| Seqs.InsertFresh | md-stepper-addon/src/main/java/org/vaadin/addons/md_stepper/StepIterator.java:295 | `add(i, x)` of a new element keeps the list duplicate-free, puts `x` at `i`, and keeps the others in order |
| Seqs.RemoveFirstDistinct | md-stepper-addon/src/main/java/org/vaadin/addons/md_stepper/StepIterator.java:277 | `remove(x)` on a duplicate-free list removes `x` entirely, keeps every other element, and stays duplicate-free |
| Navigation.TransitionGuards | md-stepper-addon/src/main/java/org/vaadin/addons/md_stepper/StepIterator.java:126-146 | `null` is always reachable; a disabled, unlisted or current target, or any target once complete, never is; a visited editable target otherwise always is |
| Navigation.UnvisitedMeansIncomplete | md-stepper-addon/src/main/java/org/vaadin/addons/md_stepper/StepIterator.java:165-168 | a listed unvisited step means `isComplete()` is false |
| Navigation.FreeTransition | md-stepper-addon/src/main/java/org/vaadin/addons/md_stepper/StepIterator.java:148-157 | without linearity, and apart from editable re-entry, a move is allowed exactly when the target is a listed open step other than `current` |
| Navigation.LinearTransition | md-stepper-addon/src/main/java/org/vaadin/addons/md_stepper/StepIterator.java:148-153 | with linearity, and apart from editable re-entry, the step at `i` is reachable exactly when it is open, is not `current`, and no open step precedes it |
| Navigation.OpenStepsMembers | md-stepper-addon/src/main/java/org/vaadin/addons/md_stepper/StepIterator.java:148 | a step is in the open set exactly when it is listed, unvisited, enabled, and not `current` unless the current step counts as complete |
| Navigation.NextIndex | md-stepper-addon/src/main/java/org/vaadin/addons/md_stepper/StepIterator.java:341-363 | `nextIndex` is 0 while nothing is current; otherwise it is -1 or a list index, and a non-negative answer names an unvisited step |
| Navigation.CandidateIsReached | md-stepper-addon/src/main/java/org/vaadin/addons/md_stepper/StepIterator.java:348-352 | any unvisited step that is current or enabled is matched by the `nextIndex` filter at or before its position |
| Navigation.NextIndexIsFirstCandidate | md-stepper-addon/src/main/java/org/vaadin/addons/md_stepper/StepIterator.java:341-363 | with a current step, `nextIndex` is the first unvisited step that is current or enabled, or -1 exactly when there is none, whatever the linearity |
| Navigation.NextStaysOnUnvisitedCurrent | md-stepper-addon/src/main/java/org/vaadin/addons/md_stepper/StepIterator.java:350-351 | with an unvisited current step, `nextIndex` is at or before the current step's position |
| Navigation.CompleteBlocksNavigation | md-stepper-addon/src/main/java/org/vaadin/addons/md_stepper/StepIterator.java:335-369 | `hasNext` holds while nothing is current, even on an empty list; an empty list is complete; once complete, no move to a step is allowed, and with a current step there is no next, skip or previous |
| Navigation.AdvancingKeepsNext | md-stepper-addon/src/main/java/org/vaadin/addons/md_stepper/StepIterator.java:313-326 | after a `next` or `skip` from a current step, `hasNext` holds in the moved state |
| Navigation.NextFromNothingKeepsNext | md-stepper-addon/src/main/java/org/vaadin/addons/md_stepper/StepIterator.java:313-326 | after a `next` with nothing current on a non-empty list, `hasNext` fails exactly when the first step is visited and every step is disabled or visited |
| Navigation.PreviousIndex | md-stepper-addon/src/main/java/org/vaadin/addons/md_stepper/StepIterator.java:265-268 | `previousIndex` is -1 while nothing is current; otherwise it is -1 or an index before the current step's, and it names an allowed step |
| Navigation.PreviousIndexIsLastAllowed | md-stepper-addon/src/main/java/org/vaadin/addons/md_stepper/StepIterator.java:265-268 | `previousIndex` is the nearest allowed step before the current one, and -1 exactly when none before it is allowed |
| Navigation.LastVisitableStep | md-stepper-addon/src/main/java/org/vaadin/addons/md_stepper/StepIterator.java:410-414 | the answer is a listed enabled step; the only failure is `IndexOutOfBoundsException` |
| Navigation.LastVisitableIsLastEnabled | md-stepper-addon/src/main/java/org/vaadin/addons/md_stepper/StepIterator.java:410-414 | it fails exactly when every step is disabled; otherwise it is an enabled step with only disabled steps after it |
| Navigation.ResetUndoesCompletion | md-stepper-addon/src/main/java/org/vaadin/addons/md_stepper/StepIterator.java:165-191 | visiting marks a step complete; resetting it afterwards makes the step and the iterator incomplete again |
| Navigation.VisitingLastOpenStepCompletes | md-stepper-addon/src/main/java/org/vaadin/addons/md_stepper/StepIterator.java:165-185 | marking the only step not yet visited as visited completes the iterator |
| Navigation.InsertIndex | md-stepper-addon/src/main/java/org/vaadin/addons/md_stepper/StepIterator.java:294 | the insertion position is a valid `add(index, ..)` position |
| Navigation.AddKeepsOrder | md-stepper-addon/src/main/java/org/vaadin/addons/md_stepper/StepIterator.java:292-295 | `add` of a new step grows the list by one, keeps it duplicate-free and keeps the other steps in their order; while nothing is current it appends |
| Navigation.AddAfterCurrent | md-stepper-addon/src/main/java/org/vaadin/addons/md_stepper/StepIterator.java:294-295 | with a listed current step, the new step sits immediately after it, and it stays listed |
| Navigation.AfterRemoval | md-stepper-addon/src/main/java/org/vaadin/addons/md_stepper/StepIterator.java:276-277 | removal leaves the current pointer and the linearity alone; the removed step reads unvisited afterwards, and the tracker gains no entry and keeps every other step's state |
| Navigation.FirstOpenIsMovable | md-stepper-addon/src/main/java/org/vaadin/addons/md_stepper/StepIterator.java:282 | with the current step unlisted, a move to the first enabled unvisited step is allowed, linear or not |
| Navigation.NextIndexWithoutCurrent | md-stepper-addon/src/main/java/org/vaadin/addons/md_stepper/StepIterator.java:341-363 | with the current step unlisted, `nextIndex` is the first enabled unvisited step, or -1 exactly when every step is disabled or visited, and a move there is allowed |
| Navigation.RemovalLandsOnFirstOpenStep | md-stepper-addon/src/main/java/org/vaadin/addons/md_stepper/StepIterator.java:274-283 | after `remove` drops the current step, `nextIndex` names the first remaining enabled unvisited step, or -1 when none remains, and the move there is allowed |
| Iterator.AdvanceFromStepPublishesOneEvent | md-stepper-addon/src/main/java/org/vaadin/addons/md_stepper/StepIterator.java:319-329 | from a current step, `next` and `skip` (whose event code at lines 385-395 mirrors `next`'s) publish exactly one event: no start event and no end event, provided listeners leave the tracker unchanged |
| Iterator.NextFromNothingEvents | md-stepper-addon/src/main/java/org/vaadin/addons/md_stepper/StepIterator.java:319-329 | a `next` with nothing current publishes start then next, plus end exactly when the first step is visited and every step is disabled or visited |
| Iterator.StepIterator.constructor | md-stepper-addon/src/main/java/org/vaadin/addons/md_stepper/StepIterator.java:56-69 | adding the given steps one by one keeps their order, leaves nothing current and nothing visited, and publishes one added event per step |
| Iterator.StepIterator.SetLinear | md-stepper-addon/src/main/java/org/vaadin/addons/md_stepper/StepIterator.java:96-99 | sets the linearity and nothing else |
| Iterator.StepIterator.SetReadOnly | md-stepper-addon/src/main/java/org/vaadin/addons/md_stepper/StepIterator.java:421-424 | sets read-only mode and nothing else |
| Iterator.StepIterator.SetLocked | md-stepper-addon/src/main/java/org/vaadin/addons/md_stepper/StepIterator.java:426-428 | sets the locked flag and nothing else |
| Iterator.StepIterator.SetStepVisited | md-stepper-addon/src/main/java/org/vaadin/addons/md_stepper/StepIterator.java:405-408 | only the step's tracker entry changes, to VISITED, and the step is then complete |
| Iterator.StepIterator.ResetStep | md-stepper-addon/src/main/java/org/vaadin/addons/md_stepper/StepIterator.java:400-403 | only the step's tracker entry changes, to UNVISITED; the step is then incomplete, and so is the iterator if the step is listed |
| Iterator.StepIterator.OnStepComplete | md-stepper-addon/src/main/java/org/vaadin/addons/md_stepper/StepIterator.java:181-185 | a step's complete signal marks it VISITED and changes nothing else |
| Iterator.StepIterator.OnStepReset | md-stepper-addon/src/main/java/org/vaadin/addons/md_stepper/StepIterator.java:187-191 | a step's reset signal marks it UNVISITED and changes nothing else |
| Iterator.StepIterator.Set | md-stepper-addon/src/main/java/org/vaadin/addons/md_stepper/StepIterator.java:285-289 | `set` always throws `UnsupportedOperationException` |
| Iterator.StepIterator.Add | md-stepper-addon/src/main/java/org/vaadin/addons/md_stepper/StepIterator.java:291-301 | the list becomes the old list with the step inserted at `InsertIndex`; it stays duplicate-free; it is appended while nothing is current; tracker and current are unchanged; exactly one added event is published |
| Iterator.StepIterator.MoveTo | md-stepper-addon/src/main/java/org/vaadin/addons/md_stepper/StepIterator.java:217-238 | throws exactly when `hasMoveTo` (the transition rule with `linear` as the flag) fails; otherwise moves and publishes one move event, unless read-only with a non-null target; never changes the list or the tracker |
| Iterator.StepIterator.Previous | md-stepper-addon/src/main/java/org/vaadin/addons/md_stepper/StepIterator.java:240-268 | throws `IllegalArgumentException` for an unlisted current step, and `NoSuchElementException` when `previousIndex` is -1; read-only returns `current` unchanged; otherwise goes to `previousIndex` and publishes one previous event |
| Iterator.StepIterator.Next | md-stepper-addon/src/main/java/org/vaadin/addons/md_stepper/StepIterator.java:303-338 | throws exactly when `nextIndex` is -1; read-only returns `current` unchanged; otherwise goes to `nextIndex`, or stays `null` on an empty list, and publishes start/next/end as described; the list and tracker are unchanged |
| Iterator.StepIterator.Skip | md-stepper-addon/src/main/java/org/vaadin/addons/md_stepper/StepIterator.java:365-398 | throws exactly when `hasSkip` fails; read-only returns `current` unchanged; otherwise goes where `next` would without visiting anything and publishes skip/end events |
| Iterator.StepIterator.DropCurrent | md-stepper-addon/src/main/java/org/vaadin/addons/md_stepper/StepIterator.java:276-277 | the current step leaves the list and the tracker; the list stays duplicate-free |
| Iterator.StepIterator.Remove | md-stepper-addon/src/main/java/org/vaadin/addons/md_stepper/StepIterator.java:273-283 | the list and tracker lose the current step, and one removed event is published. `IndexOutOfBoundsException` is thrown when `nextIndex` of the reduced state is out of range. Otherwise the result is `moveTo`'s on the step there. The current step is either unchanged or listed |
| Scenarios.LinearLockStep | md-stepper-addon/src/main/java/org/vaadin/addons/md_stepper/StepIterator.java:126-158 | linear [A, B, C]: `next` goes to A, `moveTo(B)` and `moveTo(C)` from an unfinished A are refused, and after A's complete signal `next` goes to B |
| Scenarios.ResetSendsNextBack | md-stepper-addon/src/main/java/org/vaadin/addons/md_stepper/StepIterator.java:348-352 | linear [A, B] with B current and A reset to unvisited: `next` goes back to A |
| Scenarios.FreeJump | md-stepper-addon/src/main/java/org/vaadin/addons/md_stepper/StepIterator.java:154-157 | free [A, B, C] with nothing current: `moveTo(C)` is allowed |
| Scenarios.SkipOnOptionalStep | md-stepper-addon/src/main/java/org/vaadin/addons/md_stepper/StepIterator.java:366-383 | `skip` from an unvisited optional A stays on A; once A is visited, it goes to B |
| Scenarios.EndRepeatsAfterMoveToNull | md-stepper-addon/src/main/java/org/vaadin/addons/md_stepper/StepIterator.java:304-332 | on [A] with A visited, `next` publishes start, next and end; `moveTo(null)` is then allowed and restores the state with nothing current, so `next` publishes them again |
| Scenarios.AddAfterB | md-stepper-addon/src/main/java/org/vaadin/addons/md_stepper/StepIterator.java:292-295 | `add(D)` with B current in [A, B, C] gives [A, B, D, C] |

## Left out

- Listener registration and dispatch (StepIterator.java:193-215, 280, 300, 296-297) are not modelled. Notifications are a ghost event log. The step callbacks are direct calls of `OnStepComplete` and `OnStepReset`.
- The added and removed events carry a snapshot of the list. The source passes the live list, so a listener would later see mutations made after the event.
- The delegating constructors (StepIterator.java:35-48, 76-79) are not modelled. They build an empty or non-linear iterator through the modelled constructor.
- The getters `isLinear`, `getSteps`, `getCurrent`, `getStartAt` and `isLocked` are not modelled. They are plain field reads; `steps` and `current` are fields of the class.
- `locked` and `startAt` are carried as plain fields. No navigation rule consults them.
- The one-argument `isTransitionAllowed(to)` (StepIterator.java:121-124) has no member of its own. It appears as `IsTransitionAllowed(w, to, false)` inside `NextTest` and `AllowedTest`.
- The `cancellable` flag of a step is carried but never read.
- Steps.Step: each step's `optional`, `editable` and `disabled` flags are fixed for its lifetime. The application can change them on a listed step (for example `setDisabled` and `setEditable` in the demo), so a flag changed between two navigation calls cannot be represented.
- Listeners that change the visitation state while `next` or `skip` dispatches its start and next events are not modelled. The model evaluates the end check on the state as it was before dispatch.
- The state tracker class is not part of this model. It is a map in which a step without an entry reads as UNVISITED, setting a state writes the entry, and `remove` deletes it.
- Iterator.StepIterator.Add: requires the step not to be listed already. Duplicate steps, which the source does not reject, are not modelled.
- Iterator.StepIterator.constructor: requires the given steps to be distinct, for the same reason.
- Navigation.PreviousIndex: requires the current step to be `null` or listed. With an unlisted current step the source throws `IllegalArgumentException`; `Iterator.StepIterator.Previous` models that case as an error result.
- Navigation.HasPrevious: the same requirement as `PreviousIndex`.
- Seqs.Insert, Seqs.RemoveFirst: helpers with no contract of their own. What they compute is stated by `Seqs.InsertFresh` and `Seqs.RemoveFirstDistinct`.
- Threads are not modelled: the iterator is single-threaded.
