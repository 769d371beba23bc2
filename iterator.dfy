/**
 * `StepIterator`: the wizard's navigation state machine. It owns the
 * ordered steps, the state tracker, the current pointer and the
 * linear/read-only/locked flags; navigation and mutation change them in
 * place and append what the source publishes to its listeners to a ghost
 * event log.
 */
module Iterator {
  import opened Seqs
  import opened Steps
  import opened Navigation

  /** Which navigation published an event: `next`, `previous` or `skip`. */
  datatype Direction = Forward | Backward | Skipping

  /** What the iterator publishes, in the order it publishes it. */
  datatype Event =
    | Started(direction: Direction, from: Step?, to: Step?)
    | Advanced(direction: Direction, from: Step?, to: Step?)
    | Ended(direction: Direction, from: Step?, to: Step?)
    | MovedTo(from: Step?, to: Step?)
    | Added(steps: seq<Step>, added: Step)
    | Removed(steps: seq<Step>, removed: Step?)

  /**
   * The events of a successful `next` or `skip` from `from` to `to`: a
   * start event when nothing was current yet, the move itself, and an end
   * event when, in the state `after`, neither a skip nor a next remains.
   */
  ghost function AdvanceEvents(direction: Direction, from: Step?, to: Step?, after: IterState): seq<Event> {
    (if from == null then [Started(direction, null, to)] else [])
    + [Advanced(direction, from, to)]
    + (if !HasSkip(after) && !HasNext(after) then [Ended(direction, from, to)] else [])
  }

  /** The events of adding `xs` one by one to the end of an empty list. */
  ghost function AddedEvents(xs: seq<Step>): seq<Event> {
    if xs == [] then [] else AddedEvents(xs[..|xs| - 1]) + [Added(xs, xs[|xs| - 1])]
  }

  /**
   * From a current step, `next` and `skip` publish exactly one event: no
   * start event, and no end event as long as nothing changes the tracker
   * while the earlier events are dispatched.
   */
  lemma AdvanceFromStepPublishesOneEvent(w: IterState, direction: Direction)
    requires w.current != null && HasNext(w)
    ensures var to := w.steps[NextIndex(w)];
            AdvanceEvents(direction, w.current, to, MovedOn(w, to)) == [Advanced(direction, w.current, to)]
  {
    AdvancingKeepsNext(w);
  }

  /**
   * `next` with nothing current (before the first `next`, or after
   * `moveTo(null)`) on a non-empty list publishes a start and a next event,
   * and an end event exactly when its first step is already visited and
   * every step is disabled or visited.
   */
  lemma NextFromNothingEvents(w: IterState)
    requires w.current == null && w.steps != []
    ensures var to := w.steps[0];
            AdvanceEvents(Forward, null, to, MovedOn(w, to))
            == [Started(Forward, null, to), Advanced(Forward, null, to)]
               + (if IsStepComplete(w, to) && forall i :: 0 <= i < |w.steps| ==> IsSettled(w, w.steps[i])
                  then [Ended(Forward, null, to)] else [])
  {
    NextFromNothingKeepsNext(w);
  }

  class StepIterator {
    var steps: seq<Step>
    var tracker: map<Step, Visit>
    var current: Step?
    var startAt: Step?
    var linear: bool
    var readOnly: bool
    var locked: bool
    ghost var events: seq<Event>

    /** The state the queries read. */
    function Model(): IterState
      reads this`steps, this`tracker, this`current, this`linear
    {
      IterState(steps, tracker, current, linear)
    }

    /** Every step is listed once. */
    ghost predicate Valid()
      reads this`steps
    {
      Distinct(steps)
    }

    /** The current step, when there is one, is listed. */
    ghost predicate Anchored()
      reads this`steps, this`current
    {
      current == null || current in steps
    }

    /**
     * `StepIterator(steps, linear, startAt)`: adds the given steps one by
     * one, which, with nothing current yet, keeps their order.
     */
    constructor (init: seq<Step>, linear: bool, startAt: Step?)
      requires Distinct(init)
      ensures Valid() && Anchored()
      ensures steps == init && tracker == map[] && current == null
      ensures this.linear == linear && this.startAt == startAt && !readOnly && !locked
      ensures events == AddedEvents(init)
    {
      steps := [];
      tracker := map[];
      current := null;
      this.linear := linear;
      this.startAt := startAt;
      readOnly := false;
      locked := false;
      events := [];
      new;
      var i := 0;
      while i < |init|
        invariant 0 <= i <= |init|
        invariant Valid() && steps == init[..i] && tracker == map[] && current == null
        invariant this.linear == linear && this.startAt == startAt && !readOnly && !locked
        invariant events == AddedEvents(init[..i])
      {
        assert init[..i + 1][..i] == init[..i];
        Add(init[i]);
        assert steps == init[..i + 1];
        i := i + 1;
      }
      assert init[..i] == init;
    }

    method SetLinear(linear: bool)
      modifies this`linear
      ensures this.linear == linear
    {
      this.linear := linear;
    }

    method SetReadOnly(readOnly: bool)
      modifies this`readOnly
      ensures this.readOnly == readOnly
    {
      this.readOnly := readOnly;
    }

    method SetLocked(locked: bool)
      modifies this`locked
      ensures this.locked == locked
    {
      this.locked := locked;
    }

    /** `setStepVisited`, also what a step's complete signal does (`onStepComplete`). */
    method SetStepVisited(step: Step)
      modifies this`tracker
      ensures Model() == WithState(old(Model()), step, Visited)
      ensures IsStepComplete(Model(), step)
    {
      tracker := tracker[step := Visited];
    }

    /** `resetStep`, also what a step's reset signal does (`onStepReset`). */
    method ResetStep(step: Step)
      modifies this`tracker
      ensures Model() == WithState(old(Model()), step, Unvisited)
      ensures !IsStepComplete(Model(), step)
      ensures step in steps ==> !IsComplete(Model())
    {
      tracker := tracker[step := Unvisited];
      if step in steps {
        UnvisitedMeansIncomplete(Model(), step);
      }
    }

    /** A step's complete signal. */
    method OnStepComplete(step: Step)
      modifies this`tracker
      ensures Model() == WithState(old(Model()), step, Visited)
    {
      SetStepVisited(step);
    }

    /** A step's reset signal. */
    method OnStepReset(step: Step)
      modifies this`tracker
      ensures Model() == WithState(old(Model()), step, Unvisited)
    {
      ResetStep(step);
    }

    /** `set`: replacing a step is not supported. */
    method Set(step: Step) returns (r: Outcome)
      ensures r == Threw(UnsupportedOperation)
    {
      r := Threw(UnsupportedOperation);
    }

    /**
     * `add`: inserts a new step right after the current one, or at the end
     * when nothing is current, and publishes one added event.
     */
    method Add(step: Step)
      requires Valid() && step !in steps
      modifies this`steps, this`events
      ensures Valid()
      ensures steps == Insert(old(steps), InsertIndex(old(Model())), step)
      ensures tracker == old(tracker) && current == old(current)
      ensures old(current) == null ==> steps == old(steps) + [step]
      ensures events == old(events) + [Added(steps, step)]
      ensures old(Anchored()) ==> Anchored()
    {
      AddKeepsOrder(Model(), step);
      if current != null && current in steps {
        AddAfterCurrent(Model(), step);
      }
      steps := Insert(steps, InsertIndex(Model()), step);
      events := events + [Added(steps, step)];
    }

    /**
     * `moveTo`: throws unless the move is allowed; read-only mode makes a
     * move to a step inert, but not a move to `null`.
     */
    method MoveTo(target: Step?) returns (r: Outcome)
      modifies this`current, this`events
      ensures steps == old(steps) && tracker == old(tracker)
      ensures r == if HasMoveTo(old(Model()), target) then Done else Threw(NoSuchElement)
      ensures if r.Done? && (target == null || !readOnly)
              then current == target && events == old(events) + [MovedTo(old(current), target)]
              else current == old(current) && events == old(events)
    {
      if !HasMoveTo(Model(), target) {
        return Threw(NoSuchElement);
      }
      if readOnly && target != null {
        return Done;
      }
      var from := current;
      current := target;
      events := events + [MovedTo(from, current)];
      r := Done;
    }

    /**
     * `previous`: throws when no allowed step precedes the current one; in
     * read-only mode returns the current step and changes nothing. A
     * current step that is no longer listed (left behind by `remove`)
     * makes the probe itself throw, as its stream is limited to -1.
     */
    method Previous() returns (r: Result<Step>)
      modifies this`current, this`events
      ensures steps == old(steps) && tracker == old(tracker)
      ensures current == old(current) || current in steps
      ensures !old(Anchored()) ==>
                r == Err(IllegalArgument) && current == old(current) && events == old(events)
      ensures old(Anchored()) && PreviousIndex(old(Model())) < 0 ==>
                r == Err(NoSuchElement) && current == old(current) && events == old(events)
      ensures old(Anchored()) && PreviousIndex(old(Model())) >= 0 && readOnly ==>
                old(current) != null && r == Ok(old(current)) && current == old(current) && events == old(events)
      ensures old(Anchored()) && PreviousIndex(old(Model())) >= 0 && !readOnly ==>
                && current == steps[PreviousIndex(old(Model()))] && r == Ok(current)
                && events == old(events) + [Advanced(Backward, old(current), current)]
    {
      if current != null && current !in steps {
        return Err(IllegalArgument);
      }
      var k := PreviousIndex(Model());
      if k < 0 {
        return Err(NoSuchElement);
      }
      if readOnly {
        return Ok(current);
      }
      var from := current;
      current := steps[k];
      events := events + [Advanced(Backward, from, current)];
      r := Ok(current);
    }

    /**
     * `next`: throws when `nextIndex` is -1; in read-only mode returns the
     * current step and changes nothing; otherwise goes to the step at
     * `nextIndex` (stays on `null` in an empty list) and publishes the
     * start, next and end events `AdvanceEvents` lists.
     */
    method Next() returns (r: Result<Step?>)
      modifies this`current, this`events
      ensures steps == old(steps) && tracker == old(tracker)
      ensures current == old(current) || current in steps
      ensures NextIndex(old(Model())) < 0 ==>
                r == Err(NoSuchElement) && current == old(current) && events == old(events)
      ensures NextIndex(old(Model())) >= 0 && readOnly ==>
                r == Ok(old(current)) && current == old(current) && events == old(events)
      ensures NextIndex(old(Model())) >= 0 && !readOnly ==>
                && current == (if steps == [] then null else steps[NextIndex(old(Model()))])
                && r == Ok(current)
                && events == old(events) + AdvanceEvents(Forward, old(current), current, Model())
    {
      var k := NextIndex(Model());
      if k < 0 {
        return Err(NoSuchElement);
      }
      if readOnly {
        return Ok(current);
      }
      var from := current;
      if |steps| != 0 {
        current := steps[k];
      }
      events := events + AdvanceEvents(Forward, from, current, Model());
      r := Ok(current);
    }

    /**
     * `skip`: throws unless the current step is optional and a next step
     * exists; in read-only mode returns the current step and changes
     * nothing; otherwise goes where `next` would, without marking the
     * skipped step visited, and publishes the skip and end events
     * `AdvanceEvents` lists (never a start event: a skip needs a current
     * step).
     */
    method Skip() returns (r: Result<Step>)
      modifies this`current, this`events
      ensures steps == old(steps) && tracker == old(tracker)
      ensures current == old(current) || current in steps
      ensures !HasSkip(old(Model())) ==>
                r == Err(NoSuchElement) && current == old(current) && events == old(events)
      ensures HasSkip(old(Model())) && readOnly ==>
                old(current) != null && r == Ok(old(current)) && current == old(current) && events == old(events)
      ensures HasSkip(old(Model())) && !readOnly ==>
                && current == steps[NextIndex(old(Model()))] && r == Ok(current)
                && events == old(events) + AdvanceEvents(Skipping, old(current), current, Model())
    {
      if !HasSkip(Model()) {
        return Err(NoSuchElement);
      }
      if readOnly {
        return Ok(current);
      }
      var from := current;
      current := steps[NextIndex(Model())];
      events := events + AdvanceEvents(Skipping, from, current, Model());
      r := Ok(current);
    }

    /** The first half of `remove`: the current step leaves the list and the state tracker. */
    method DropCurrent()
      requires Valid()
      modifies this`steps, this`tracker
      ensures Valid()
      ensures Model() == AfterRemoval(old(Model()))
      ensures current != null ==> current !in steps
    {
      if current != null {
        RemoveFirstDistinct(steps, current);
        tracker := tracker - {current};
        steps := RemoveFirst(steps, current);
      }
    }

    /**
     * `remove`: drops the current step from the list and the state
     * tracker and publishes a removed event, then moves to the step at
     * `nextIndex` of the reduced state. That index is not checked: when it
     * is -1 (or, with nothing current, the list is empty) the list access
     * throws after the removal has taken effect, and in read-only mode the
     * move is inert; in both cases the current pointer is left on the
     * removed step.
     */
    method Remove() returns (r: Outcome)
      requires Valid()
      modifies this`steps, this`tracker, this`current, this`events
      ensures Valid()
      ensures Model().(current := old(current)) == AfterRemoval(old(Model()))
      ensures old(current) != null ==> old(current) !in steps
      ensures current == old(current) || current in steps
      ensures var k := NextIndex(AfterRemoval(old(Model())));
              if !(0 <= k < |steps|) then
                r == Threw(IndexOutOfBounds) && current == old(current)
                && events == old(events) + [Removed(steps, old(current))]
              else
                && r == (if HasMoveTo(AfterRemoval(old(Model())), steps[k]) then Done else Threw(NoSuchElement))
                && if r.Done? && !readOnly
                   then current == steps[k]
                        && events == old(events) + [Removed(steps, old(current)), MovedTo(old(current), steps[k])]
                   else current == old(current) && events == old(events) + [Removed(steps, old(current))]
    {
      var removed := current;
      DropCurrent();
      events := events + [Removed(steps, removed)];
      var m := Model();
      var k := NextIndex(m);
      if k < 0 || k >= |m.steps| {
        return Threw(IndexOutOfBounds);
      }
      r := MoveTo(steps[k]);
    }
  }
}
