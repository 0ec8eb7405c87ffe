/** The timed survival/birth rule of `Cell.update` in main.py: which neighbour
    counts make a cell alive in the next generation depends on whether it is
    alive now and on how long it has held that state. */
module Rules {

  datatype Option<T> = None | Some(value: T)

  /** The elapsed-time band the rule looks at: 0 for `< 2`, 1 for `< 3`,
      2 for `< 4`, 3 for everything later. */
  function Band(elapsed: real): (k: nat)
    ensures k <= 3
    ensures k == 3 <==> elapsed >= 4.0
  {
    if elapsed < 2.0 then 0 else if elapsed < 3.0 then 1 else if elapsed < 4.0 then 2 else 3
  }

  /** The rule table: `Some(next)` is the value assigned to `next_state`, and
      `None` means no branch assigns it (elapsed time 4 or more).
      Equivalently, a live cell survives with 3 up to 6 - band neighbours and
      a dead cell is born with 3 up to 3 + band neighbours. */
  function Rule(isLife: bool, elapsed: real, xsum: int): (r: Option<bool>)
    ensures r.None? <==> elapsed >= 4.0
    ensures r.Some? && isLife ==> (r.value <==> 3 <= xsum <= 6 - Band(elapsed))
    ensures r.Some? && !isLife ==> (r.value <==> 3 <= xsum <= 3 + Band(elapsed))
  {
    if isLife then
      if elapsed < 2.0 then Some(xsum in {3, 4, 5, 6})
      else if elapsed < 3.0 then Some(xsum in {3, 4, 5})
      else if elapsed < 4.0 then Some(xsum in {3, 4})
      else None
    else
      if elapsed < 2.0 then Some(xsum in {3})
      else if elapsed < 3.0 then Some(xsum in {3, 4})
      else if elapsed < 4.0 then Some(xsum in {3, 4, 5})
      else None
  }

  /** The next value of `next_state`: the rule's verdict, or the pending value
      left unchanged when no rule applies. */
  function NextState(isLife: bool, elapsed: real, xsum: int, pending: bool): (next: bool)
    ensures elapsed >= 4.0 ==> next == pending
    ensures elapsed < 4.0 && isLife ==> (next <==> 3 <= xsum <= 6 - Band(elapsed))
    ensures elapsed < 4.0 && !isLife ==> (next <==> 3 <= xsum <= 3 + Band(elapsed))
  {
    match Rule(isLife, elapsed, xsum)
    case Some(next) => next
    case None => pending
  }

  /** Survival gets harder the longer a cell has been alive: a count that keeps
      a cell alive at some age kept it alive at every earlier age. */
  lemma SurvivalTightens(e1: real, e2: real, xsum: int)
    requires e1 <= e2 < 4.0
    ensures Rule(true, e2, xsum) == Some(true) ==> Rule(true, e1, xsum) == Some(true)
  {
  }

  /** Birth gets easier the longer a cell has been dead: a count that brings a
      dead cell to life at some age does so at every later age below 4. */
  lemma BirthLoosens(e1: real, e2: real, xsum: int)
    requires e1 <= e2 < 4.0
    ensures Rule(false, e1, xsum) == Some(true) ==> Rule(false, e2, xsum) == Some(true)
  {
  }

  /** Fewer than three or more than six neighbours never produce a live cell,
      whatever the cell's state and age; without a rule the pending value stays. */
  lemma NoLifeOutsideThreeToSix(isLife: bool, elapsed: real, xsum: int, pending: bool)
    requires xsum < 3 || xsum > 6
    ensures NextState(isLife, elapsed, xsum, pending) == (elapsed >= 4.0 && pending)
  {
  }
}
