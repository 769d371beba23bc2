/**
 * Worked scenarios of the wizard's navigation, stated on short lists of
 * concrete steps.
 */
module Scenarios {
  import opened Seqs
  import opened Steps
  import opened Navigation
  import opened Iterator

  /** Three distinct enabled steps. */
  predicate ThreeEnabled(a: Step, b: Step, c: Step) {
    a != b && b != c && a != c && !a.disabled && !b.disabled && !c.disabled
  }

  /**
   * Linear lock-step on [A, B, C]: the first `next` goes to A; from A a
   * move to B or to C is refused, because `moveTo` keeps the unfinished
   * current step in the open set and so A itself heads it; once A's
   * complete signal has fired, `next` goes to B.
   */
  lemma LinearLockStep(a: Step, b: Step, c: Step)
    requires ThreeEnabled(a, b, c)
    ensures var w := IterState([a, b, c], map[], null, true);
            && NextIndex(w) == 0
            && !HasMoveTo(MovedOn(w, a), b)
            && !HasMoveTo(MovedOn(w, a), c)
            && NextIndex(WithState(MovedOn(w, a), a, Visited)) == 1
  {
    var w := IterState([a, b, c], map[], null, true);
    var atA := MovedOn(w, a);
    LinearTransition(atA, 1, true);
    LinearTransition(atA, 2, true);
    var done := WithState(atA, a, Visited);
    NextIndexIsFirstCandidate(done);
    assert IsNextCandidate(done, done.steps[1]);
    assert !IsNextCandidate(done, done.steps[0]);
  }

  /**
   * Linear [A, B] with B current: once a reset signal or `resetStep` has
   * made A unvisited again, `next` goes back to A, even in linear mode.
   */
  lemma ResetSendsNextBack(a: Step, b: Step)
    requires a != b && !a.disabled && !b.disabled
    ensures NextIndex(IterState([a, b], map[a := Unvisited], b, true)) == 0
  {
    var w := IterState([a, b], map[a := Unvisited], b, true);
    NextIndexIsFirstCandidate(w);
    assert IsNextCandidate(w, w.steps[0]);
  }

  /** Free navigation on [A, B, C]: while nothing is current, a move straight to C is allowed. */
  lemma FreeJump(a: Step, b: Step, c: Step)
    requires ThreeEnabled(a, b, c)
    ensures HasMoveTo(IterState([a, b, c], map[], null, false), c)
  {
    var w := IterState([a, b, c], map[], null, false);
    FreeTransition(w, c, false);
    assert w.steps[2] == c;
  }

  /**
   * `skip` from an optional current step A that is still unvisited stays
   * on A; only once A is visited does it go on to B, and A is then
   * visited because of its complete signal, not because of the skip.
   */
  lemma SkipOnOptionalStep(a: Step, b: Step)
    requires a != b && a.optional && !a.disabled && !b.disabled
    ensures var w := IterState([a, b], map[], a, false);
            && HasSkip(w) && NextIndex(w) == 0
            && HasSkip(WithState(w, a, Visited)) && NextIndex(WithState(w, a, Visited)) == 1
  {
    var w := IterState([a, b], map[], a, false);
    NextStaysOnUnvisitedCurrent(w);
    var v := WithState(w, a, Visited);
    NextIndexIsFirstCandidate(v);
    assert IsNextCandidate(v, v.steps[1]);
    assert !IsNextCandidate(v, v.steps[0]);
  }

  /** `add` with B current in [A, B, C] puts the new step between B and C. */
  lemma AddAfterB(a: Step, b: Step, c: Step, d: Step)
    requires ThreeEnabled(a, b, c) && d != a && d != b && d != c
    ensures Insert([a, b, c], InsertIndex(IterState([a, b, c], map[], b, false)), d) == [a, b, d, c]
  {
    var w := IterState([a, b, c], map[], b, false);
    assert IndexOf(w.steps, b) == 1;
  }

  /**
   * `moveTo(null)` restarts the iterator: on [A] with A visited, `next`
   * publishes start, next and end; `moveTo(null)` is allowed from A and
   * restores the state with nothing current, so the following `next`
   * publishes start, next and end again.
   */
  lemma EndRepeatsAfterMoveToNull(a: Step)
    ensures var w := IterState([a], map[a := Visited], null, false);
            && AdvanceEvents(Forward, null, a, MovedOn(w, a))
               == [Started(Forward, null, a), Advanced(Forward, null, a), Ended(Forward, null, a)]
            && HasMoveTo(MovedOn(w, a), null)
            && MovedOn(MovedOn(w, a), null) == w
  {
    var w := IterState([a], map[a := Visited], null, false);
    NextFromNothingEvents(w);
    assert IsSettled(w, w.steps[0]);
  }
}
