/**
 * The iterator's queries, as functions of the state they read: the
 * transition rule, the next/previous index computations, the `has*`
 * probes, completeness and the last visitable step. Each is followed by
 * the lemmas that state what it means.
 */
module Navigation {
  import opened Seqs
  import opened Steps

  /**
   * What the queries read from a `StepIterator`: the ordered steps, the
   * state tracker (absent steps read as unvisited), the current step
   * (`null` before the first `next` and after `moveTo(null)`) and the
   * linearity flag.
   */
  datatype IterState = IterState(steps: seq<Step>, tracker: map<Step, Visit>, current: Step?, linear: bool)

  /** The state tracker's `getState`: a step without an entry is unvisited. */
  function StateOf(w: IterState, s: Step): Visit {
    if s in w.tracker then w.tracker[s] else Unvisited
  }

  /** `isStepComplete`. */
  predicate IsStepComplete(w: IterState, s: Step) {
    StateOf(w, s) == Visited
  }

  /** `isComplete`: no listed step is unvisited. */
  predicate IsComplete(w: IterState) {
    forall i :: 0 <= i < |w.steps| ==> StateOf(w, w.steps[i]) != Unvisited
  }

  /** The tracker after a complete or reset signal, or `setStepVisited`/`resetStep`, for `s`. */
  function WithState(w: IterState, s: Step, v: Visit): IterState {
    w.(tracker := w.tracker[s := v])
  }

  // ---------------------------------------------------------------------
  // Transition legality
  // ---------------------------------------------------------------------

  /**
   * Membership in the open set: unvisited, enabled, and not the current
   * step unless the current step is to be treated as complete.
   */
  predicate IsOpen(w: IterState, s: Step, currentShouldBeComplete: bool) {
    (currentShouldBeComplete || s != w.current) && StateOf(w, s) == Unvisited && !s.disabled
  }

  function OpenTest(w: IterState, currentShouldBeComplete: bool): Step -> bool {
    (s: Step) => IsOpen(w, s, currentShouldBeComplete)
  }

  /** The open steps, in list order. */
  function OpenSteps(w: IterState, currentShouldBeComplete: bool): seq<Step> {
    Filter(w.steps, OpenTest(w, currentShouldBeComplete))
  }

  /** `isTransitionAllowed(to, currentShouldBeComplete)`. */
  predicate IsTransitionAllowed(w: IterState, to: Step?, currentShouldBeComplete: bool) {
    if to == null then true
    else if to.disabled then false
    else if to !in w.steps || to == w.current || IsComplete(w) then false
    else if StateOf(w, to) == Visited && to.editable then true
    else
      var open := OpenSteps(w, currentShouldBeComplete);
      if w.linear then IndexOf(open, to) == 0 else to in open
  }

  /** `hasMoveTo`: a move treats the current step as complete exactly when the iterator is linear. */
  predicate HasMoveTo(w: IterState, to: Step?) {
    IsTransitionAllowed(w, to, w.linear)
  }

  /**
   * The guards of the transition rule: `null` is always reachable; a
   * disabled, unlisted or current step, or any step once the iterator is
   * complete, never is; a visited editable step always is otherwise.
   */
  lemma TransitionGuards(w: IterState, to: Step?, currentShouldBeComplete: bool)
    ensures to == null ==> IsTransitionAllowed(w, to, currentShouldBeComplete)
    ensures to != null && (to.disabled || to !in w.steps || to == w.current || IsComplete(w))
            ==> !IsTransitionAllowed(w, to, currentShouldBeComplete)
    ensures to != null && !to.disabled && to in w.steps && to != w.current && !IsComplete(w)
            && IsStepComplete(w, to) && to.editable
            ==> IsTransitionAllowed(w, to, currentShouldBeComplete)
  {
  }

  /** A listed unvisited step means the iterator is not complete. */
  lemma UnvisitedMeansIncomplete(w: IterState, s: Step)
    requires s in w.steps && StateOf(w, s) == Unvisited
    ensures !IsComplete(w)
  {
    var i :| 0 <= i < |w.steps| && w.steps[i] == s;
  }

  /**
   * Free navigation: apart from re-entering a visited editable step, a
   * target is reachable exactly when it is a listed open step other than
   * the current one.
   */
  lemma FreeTransition(w: IterState, to: Step, currentShouldBeComplete: bool)
    requires !w.linear
    requires !(IsStepComplete(w, to) && to.editable)
    ensures IsTransitionAllowed(w, to, currentShouldBeComplete)
            <==> to in w.steps && to != w.current && IsOpen(w, to, currentShouldBeComplete)
  {
    OpenStepsMembers(w, to, currentShouldBeComplete);
    if to in w.steps && IsOpen(w, to, currentShouldBeComplete) {
      UnvisitedMeansIncomplete(w, to);
    }
  }

  /**
   * Linear navigation: apart from re-entering a visited editable step, the
   * step at `i` is reachable exactly when it is open, is not the current
   * step, and no open step precedes it.
   */
  lemma LinearTransition(w: IterState, i: int, currentShouldBeComplete: bool)
    requires w.linear && Distinct(w.steps) && 0 <= i < |w.steps|
    requires !(IsStepComplete(w, w.steps[i]) && w.steps[i].editable)
    ensures IsTransitionAllowed(w, w.steps[i], currentShouldBeComplete)
            <==> && w.steps[i] != w.current
                 && IsOpen(w, w.steps[i], currentShouldBeComplete)
                 && forall j :: 0 <= j < i ==> !IsOpen(w, w.steps[j], currentShouldBeComplete)
  {
    var to, p := w.steps[i], OpenTest(w, currentShouldBeComplete);
    var open := OpenSteps(w, currentShouldBeComplete);
    FilterHead(w.steps, p);
    FindFirstIsFirst(w.steps, p);
    var k := FindFirst(w.steps, p);
    if IsTransitionAllowed(w, to, currentShouldBeComplete) {
      assert IndexOf(open, to) == 0;
      assert k >= 0 && w.steps[k] == to;
      assert k == i;
    }
    if && to != w.current && IsOpen(w, to, currentShouldBeComplete)
       && forall j :: 0 <= j < i ==> !IsOpen(w, w.steps[j], currentShouldBeComplete)
    {
      UnvisitedMeansIncomplete(w, to);
      assert p(w.steps[i]);
      assert k == i;
      assert open[0] == to;
    }
  }

  /** A step is open exactly when it is listed, unvisited and enabled, and is not the current step unless that one counts as complete. */
  lemma OpenStepsMembers(w: IterState, s: Step, currentShouldBeComplete: bool)
    ensures s in OpenSteps(w, currentShouldBeComplete) <==> s in w.steps && IsOpen(w, s, currentShouldBeComplete)
  {
    var p := OpenTest(w, currentShouldBeComplete);
    FilterMembers(w.steps, p);
    if s in w.steps && IsOpen(w, s, currentShouldBeComplete) {
      var i :| 0 <= i < |w.steps| && w.steps[i] == s;
      assert p(w.steps[i]);
    }
    if s in OpenSteps(w, currentShouldBeComplete) {
      var i :| 0 <= i < |OpenSteps(w, currentShouldBeComplete)| && OpenSteps(w, currentShouldBeComplete)[i] == s;
      assert p(OpenSteps(w, currentShouldBeComplete)[i]);
    }
  }

  // ---------------------------------------------------------------------
  // next / skip
  // ---------------------------------------------------------------------

  /** The filter of `nextIndex`: allowed or current, and unvisited. */
  function NextTest(w: IterState): Step -> bool {
    (s: Step) => (IsTransitionAllowed(w, s, false) || s == w.current) && StateOf(w, s) == Unvisited
  }

  /** `nextIndex`. */
  function NextIndex(w: IterState): (r: int)
    ensures w.current == null ==> r == 0
    ensures w.current != null ==> -1 <= r < |w.steps|
    ensures w.current != null && r >= 0 ==> StateOf(w, w.steps[r]) == Unvisited
  {
    if w.current == null then 0
    else
      var k := FindFirst(w.steps, NextTest(w));
      if k < 0 then -1 else IndexOf(w.steps, w.steps[k])
  }

  /** `hasNext`. */
  predicate HasNext(w: IterState) {
    NextIndex(w) >= 0
  }

  /** `hasSkip`. */
  predicate HasSkip(w: IterState) {
    w.current != null && w.current.optional && HasNext(w)
  }

  /** What `next` looks for from a current step: an unvisited step that is the current one or is enabled. */
  predicate IsNextCandidate(w: IterState, s: Step) {
    StateOf(w, s) == Unvisited && (s == w.current || !s.disabled)
  }

  /** A candidate at `i` means the filter of `nextIndex` already accepts a step at or before `i`. */
  lemma CandidateIsReached(w: IterState, i: int)
    requires w.current != null && 0 <= i < |w.steps| && IsNextCandidate(w, w.steps[i])
    ensures 0 <= FindFirst(w.steps, NextTest(w)) <= i
  {
    var s := w.steps[i];
    FindFirstIsFirst(w.steps, NextTest(w));
    if s != w.current {
      UnvisitedMeansIncomplete(w, s);
      var p := OpenTest(w, false);
      assert p(w.steps[i]);
      FindFirstIsFirst(w.steps, p);
      FilterMembers(w.steps, p);
      var m := FindFirst(w.steps, p);
      FilterHead(w.steps, p);
      var t := w.steps[m];
      assert t in OpenSteps(w, false);
      assert IndexOf(OpenSteps(w, false), t) == 0;
      assert IsTransitionAllowed(w, t, false);
      assert NextTest(w)(w.steps[m]);
    } else {
      assert NextTest(w)(w.steps[i]);
    }
  }

  /**
   * From a current step, `next` goes to the first unvisited step that is the
   * current one or is enabled, whatever the linearity; -1 when there is
   * none.
   */
  lemma {:induction false} NextIndexIsFirstCandidate(w: IterState)
    requires w.current != null
    ensures NextIndex(w) == -1 <==> forall i :: 0 <= i < |w.steps| ==> !IsNextCandidate(w, w.steps[i])
    ensures NextIndex(w) >= 0 ==>
              && IsNextCandidate(w, w.steps[NextIndex(w)])
              && forall j :: 0 <= j < NextIndex(w) ==> !IsNextCandidate(w, w.steps[j])
  {
    var p := NextTest(w);
    var k := FindFirst(w.steps, p);
    if k >= 0 {
      FoundFirstIsIndexOf(w.steps, p);
      assert NextIndex(w) == k;
      forall j | 0 <= j < k ensures !IsNextCandidate(w, w.steps[j]) {
        if IsNextCandidate(w, w.steps[j]) {
          CandidateIsReached(w, j);
        }
      }
    } else {
      forall i | 0 <= i < |w.steps| ensures !IsNextCandidate(w, w.steps[i]) {
        if IsNextCandidate(w, w.steps[i]) {
          CandidateIsReached(w, i);
        }
      }
    }
  }

  /**
   * `next` and `skip` never pass an unvisited current step: the step they
   * go to is the current step itself or one before it.
   */
  lemma NextStaysOnUnvisitedCurrent(w: IterState)
    requires w.current != null && w.current in w.steps && StateOf(w, w.current) == Unvisited
    ensures 0 <= NextIndex(w) <= IndexOf(w.steps, w.current)
  {
    NextIndexIsFirstCandidate(w);
    var c := IndexOf(w.steps, w.current);
    assert IsNextCandidate(w, w.steps[c]);
  }

  /**
   * An empty iterator is complete. With nothing current there is always a
   * next step, even in an empty list; once every listed step is visited,
   * no move to a step is legal, and with a current step there is no next
   * step, no skip and no previous step.
   */
  lemma CompleteBlocksNavigation(w: IterState, to: Step)
    ensures w.steps == [] ==> IsComplete(w)
    ensures w.current == null ==> HasNext(w)
    ensures IsComplete(w) ==> !IsTransitionAllowed(w, to, false) && !HasMoveTo(w, to)
    ensures IsComplete(w) && w.current != null ==> !HasNext(w) && !HasSkip(w)
    ensures IsComplete(w) && w.current != null && w.current in w.steps ==> !HasPrevious(w)
  {
    if IsComplete(w) && w.current != null {
      NextIndexIsFirstCandidate(w);
    }
  }

  /** The state right after `next` or `skip` has moved the current pointer to `target`. */
  function MovedOn(w: IterState, target: Step?): IterState {
    w.(current := target)
  }

  /**
   * From a current step, `next` and `skip` land on an unvisited step,
   * which `nextIndex` accepts in turn: afterwards a next step remains.
   */
  lemma AdvancingKeepsNext(w: IterState)
    requires w.current != null && HasNext(w)
    ensures HasNext(MovedOn(w, w.steps[NextIndex(w)]))
  {
    var after := MovedOn(w, w.steps[NextIndex(w)]);
    assert StateOf(after, after.current) == Unvisited;
    NextStaysOnUnvisitedCurrent(after);
  }

  /**
   * `next` with nothing current lands on the first step of a non-empty
   * list; a next step then remains unless that first step is visited and
   * every step is disabled or visited.
   */
  lemma NextFromNothingKeepsNext(w: IterState)
    requires w.current == null && w.steps != []
    ensures !HasNext(MovedOn(w, w.steps[0])) <==>
              IsStepComplete(w, w.steps[0]) && forall i :: 0 <= i < |w.steps| ==> IsSettled(w, w.steps[i])
  {
    var after := MovedOn(w, w.steps[0]);
    NextIndexIsFirstCandidate(after);
    if !HasNext(after) {
      assert !IsNextCandidate(after, w.steps[0]);
      forall i | 0 <= i < |w.steps| ensures IsSettled(w, w.steps[i]) {
        assert !IsNextCandidate(after, w.steps[i]);
      }
    }
    if IsStepComplete(w, w.steps[0]) && forall i :: 0 <= i < |w.steps| ==> IsSettled(w, w.steps[i]) {
      forall i | 0 <= i < |w.steps| ensures !IsNextCandidate(after, w.steps[i]) {
        assert IsSettled(w, w.steps[i]);
      }
    }
  }

  // ---------------------------------------------------------------------
  // previous
  // ---------------------------------------------------------------------

  function AllowedTest(w: IterState): Step -> bool {
    (s: Step) => IsTransitionAllowed(w, s, false)
  }

  /**
   * `previousIndex`: the last allowed step among those before the current
   * one (none while nothing is current).
   */
  function PreviousIndex(w: IterState): (r: int)
    requires w.current == null || w.current in w.steps
    ensures w.current == null ==> r == -1
    ensures w.current != null ==> -1 <= r < IndexOf(w.steps, w.current)
    ensures r >= 0 ==> IsTransitionAllowed(w, w.steps[r], false)
  {
    var limit := if w.current == null then 0 else IndexOf(w.steps, w.current);
    var before := w.steps[..limit];
    var k := FindLast(before, AllowedTest(w));
    if k < 0 then -1
    else
      IndexOfIsFirst(w.steps, w.steps[k]);
      IndexOf(w.steps, before[k])
  }

  /** `hasPrevious`. */
  predicate HasPrevious(w: IterState)
    requires w.current == null || w.current in w.steps
  {
    PreviousIndex(w) >= 0
  }

  /**
   * `previous` goes to the nearest allowed step before the current one:
   * every step strictly between the two is not allowed, and -1 means no
   * step before the current one is allowed.
   */
  lemma PreviousIndexIsLastAllowed(w: IterState)
    requires Distinct(w.steps) && w.current != null && w.current in w.steps
    ensures PreviousIndex(w) == -1 <==>
              forall i :: 0 <= i < IndexOf(w.steps, w.current) ==> !IsTransitionAllowed(w, w.steps[i], false)
    ensures PreviousIndex(w) >= 0 ==>
              forall j :: PreviousIndex(w) < j < IndexOf(w.steps, w.current) ==> !IsTransitionAllowed(w, w.steps[j], false)
  {
    var limit := IndexOf(w.steps, w.current);
    var before := w.steps[..limit];
    var p := AllowedTest(w);
    var k := FindLast(before, p);
    FindLastIsLast(before, p);
    if k >= 0 {
      DistinctIndexOf(w.steps, k);
      assert PreviousIndex(w) == k;
      forall j | k < j < limit ensures !IsTransitionAllowed(w, w.steps[j], false) {
        assert !p(before[j]);
      }
    } else {
      forall i | 0 <= i < limit ensures !IsTransitionAllowed(w, w.steps[i], false) {
        assert !p(before[i]);
      }
    }
  }

  // ---------------------------------------------------------------------
  // getLastVisitableStep
  // ---------------------------------------------------------------------

  function EnabledTest(): Step -> bool {
    (s: Step) => !s.disabled
  }

  /** `getLastVisitableStep`: `get(size - 1)` of the enabled steps, which throws when there are none. */
  function LastVisitableStep(w: IterState): (r: Result<Step>)
    ensures r.Err? ==> r.error == IndexOutOfBounds
    ensures r.Ok? ==> r.value in w.steps && !r.value.disabled
  {
    var enabled := Filter(w.steps, EnabledTest());
    FilterMembers(w.steps, EnabledTest());
    if |enabled| == 0 then Err(IndexOutOfBounds) else Ok(enabled[|enabled| - 1])
  }

  /**
   * The last visitable step is the last enabled step of the list; it fails
   * exactly when every step is disabled.
   */
  lemma LastVisitableIsLastEnabled(w: IterState)
    ensures LastVisitableStep(w).Err? <==> forall i :: 0 <= i < |w.steps| ==> w.steps[i].disabled
    ensures LastVisitableStep(w).Ok? ==>
              exists i :: && 0 <= i < |w.steps| && w.steps[i] == LastVisitableStep(w).value
                          && forall j :: i < j < |w.steps| ==> w.steps[j].disabled
  {
    var p := EnabledTest();
    FilterLast(w.steps, p);
    FindLastIsLast(w.steps, p);
    var k := FindLast(w.steps, p);
    if k >= 0 {
      assert w.steps[k] == LastVisitableStep(w).value;
      assert forall j :: k < j < |w.steps| ==> !p(w.steps[j]);
    } else {
      assert forall i :: 0 <= i < |w.steps| ==> !p(w.steps[i]);
    }
  }

  // ---------------------------------------------------------------------
  // Completion
  // ---------------------------------------------------------------------

  /**
   * A complete or visited signal marks a step complete; resetting a listed
   * step afterwards makes both the step and the iterator incomplete again.
   */
  lemma ResetUndoesCompletion(w: IterState, s: Step)
    requires s in w.steps
    ensures IsStepComplete(WithState(w, s, Visited), s)
    ensures !IsStepComplete(WithState(WithState(w, s, Visited), s, Unvisited), s)
    ensures !IsComplete(WithState(WithState(w, s, Visited), s, Unvisited))
  {
    UnvisitedMeansIncomplete(WithState(WithState(w, s, Visited), s, Unvisited), s);
  }

  /** Marking the one remaining unvisited step visited completes the iterator. */
  lemma VisitingLastOpenStepCompletes(w: IterState, s: Step)
    requires forall i :: 0 <= i < |w.steps| && w.steps[i] != s ==> IsStepComplete(w, w.steps[i])
    ensures IsComplete(WithState(w, s, Visited))
  {
  }

  // ---------------------------------------------------------------------
  // add / remove
  // ---------------------------------------------------------------------

  /** Where `add` inserts: right after the current step, or at the end while nothing is current. */
  function InsertIndex(w: IterState): (r: nat)
    ensures r <= |w.steps|
  {
    if w.current == null then |w.steps| else IndexOf(w.steps, w.current) + 1
  }

  /**
   * `add` of a new step keeps the steps unique and the others in their
   * relative order, and appends while nothing is current.
   */
  lemma AddKeepsOrder(w: IterState, step: Step)
    requires Distinct(w.steps) && step !in w.steps
    ensures var s := Insert(w.steps, InsertIndex(w), step);
            && Distinct(s) && |s| == |w.steps| + 1
            && RemoveFirst(s, step) == w.steps
            && (w.current == null ==> s == w.steps + [step])
  {
    var i := InsertIndex(w);
    var s := Insert(w.steps, i, step);
    InsertFresh(w.steps, i, step);
    DistinctIndexOf(s, i);
    assert RemoveFirst(s, step) == s[..i] + s[i + 1..];
  }

  /** With a listed current step, `add` places the new step immediately after it. */
  lemma AddAfterCurrent(w: IterState, step: Step)
    requires Distinct(w.steps) && step !in w.steps
    requires w.current != null && w.current in w.steps
    ensures var s := Insert(w.steps, InsertIndex(w), step);
            w.current in s && IndexOf(s, step) == IndexOf(s, w.current) + 1
  {
    var i := InsertIndex(w);
    var s := Insert(w.steps, i, step);
    InsertFresh(w.steps, i, step);
    DistinctIndexOf(s, i);
    var c := IndexOf(w.steps, w.current);
    assert s[c] == w.steps[c];
    DistinctIndexOf(s, c);
  }

  /** A step nothing will advance to: disabled, or already visited. */
  predicate IsSettled(w: IterState, s: Step) {
    s.disabled || IsStepComplete(w, s)
  }

  /**
   * `remove` drops the current step from the list and from the state
   * tracker; the current pointer itself is left for the following `moveTo`.
   */
  function AfterRemoval(w: IterState): (r: IterState)
    ensures r.current == w.current && r.linear == w.linear
    ensures w.current != null ==> StateOf(r, w.current) == Unvisited
    ensures r.tracker.Keys <= w.tracker.Keys
    ensures forall s :: s in w.tracker && s != w.current ==> StateOf(r, s) == StateOf(w, s)
  {
    if w.current == null then w
    else
      var c: Step := w.current;
      w.(steps := RemoveFirst(w.steps, c), tracker := w.tracker - {c})
  }

  /**
   * Once the current step is no longer listed, the first enabled unvisited
   * step is a legal move, with or without linearity.
   */
  lemma FirstOpenIsMovable(m: IterState, k: int)
    requires Distinct(m.steps) && m.current !in m.steps && 0 <= k < |m.steps|
    requires !IsSettled(m, m.steps[k])
    requires forall j :: 0 <= j < k ==> IsSettled(m, m.steps[j])
    ensures HasMoveTo(m, m.steps[k])
  {
    if m.linear {
      LinearTransition(m, k, m.linear);
    } else {
      FreeTransition(m, m.steps[k], m.linear);
    }
  }

  /**
   * With the current step no longer listed, `nextIndex` names the first
   * enabled unvisited step (-1 when there is none), and a move there is legal.
   */
  lemma NextIndexWithoutCurrent(m: IterState)
    requires Distinct(m.steps) && m.current != null && m.current !in m.steps
    ensures NextIndex(m) == -1 <==> forall i :: 0 <= i < |m.steps| ==> IsSettled(m, m.steps[i])
    ensures NextIndex(m) >= 0 ==>
              && !IsSettled(m, m.steps[NextIndex(m)])
              && (forall j :: 0 <= j < NextIndex(m) ==> IsSettled(m, m.steps[j]))
              && HasMoveTo(m, m.steps[NextIndex(m)])
  {
    NextIndexIsFirstCandidate(m);
    var k := NextIndex(m);
    if k >= 0 {
      assert IsNextCandidate(m, m.steps[k]);
      forall j | 0 <= j < k ensures IsSettled(m, m.steps[j]) {
        assert !IsNextCandidate(m, m.steps[j]);
      }
      FirstOpenIsMovable(m, k);
    } else {
      forall i | 0 <= i < |m.steps| ensures IsSettled(m, m.steps[i]) {
        assert !IsNextCandidate(m, m.steps[i]);
      }
    }
  }

  /**
   * After `remove` drops a step, `nextIndex` names the first remaining step
   * that is enabled and unvisited (-1 when every remaining step is disabled
   * or visited), and a move there is always legal.
   */
  lemma RemovalLandsOnFirstOpenStep(w: IterState)
    requires Distinct(w.steps) && w.current != null
    ensures Distinct(AfterRemoval(w).steps) && w.current !in AfterRemoval(w).steps
    ensures NextIndex(AfterRemoval(w)) == -1 <==>
              forall i :: 0 <= i < |AfterRemoval(w).steps| ==> IsSettled(AfterRemoval(w), AfterRemoval(w).steps[i])
    ensures NextIndex(AfterRemoval(w)) >= 0 ==>
              var m := AfterRemoval(w); var k := NextIndex(m);
              && !IsSettled(m, m.steps[k])
              && (forall j :: 0 <= j < k ==> IsSettled(m, m.steps[j]))
              && HasMoveTo(m, m.steps[k])
  {
    RemoveFirstDistinct(w.steps, w.current);
    NextIndexWithoutCurrent(AfterRemoval(w));
  }
}
