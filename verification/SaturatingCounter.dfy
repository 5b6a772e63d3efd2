/**
 * `saturating_fetch_add` on a shared counter: a load followed by weak compare-exchange attempts,
 * with a plain store on overflow, run by any number of threads in any interleaving.
 */
module SaturatingCounter {
  import opened Basics

  type Thread = nat

  /** A call in flight: the value last read and the amount to add. */
  datatype Call = Call(current: nat, amount: nat)

  /** `completed` is the history sum of the amounts of the calls that have returned. */
  datatype System = System(counter: nat, calls: map<Thread, Call>, completed: nat)

  datatype Label =
    | Load(t: Thread, amount: nat)
    | Exchange(t: Thread, spurious: bool)
    | Overflow(t: Thread)

  predicate Overflows(c: Call) {
    c.current + c.amount > USIZE_MAX
  }

  predicate Enabled(s: System, l: Label) {
    match l
    case Load(t, amount) => t !in s.calls && amount <= USIZE_MAX
    case Exchange(t, _) => t in s.calls && !Overflows(s.calls[t])
    case Overflow(t) => t in s.calls && Overflows(s.calls[t])
  }

  function Step(s: System, l: Label): System
    requires Enabled(s, l)
  {
    match l
    case Load(t, amount) => s.(calls := s.calls[t := Call(s.counter, amount)])
    case Exchange(t, spurious) =>
      var c := s.calls[t];
      if s.counter == c.current && !spurious
      then System(c.current + c.amount, s.calls - {t}, s.completed + c.amount)
      else s.(calls := s.calls[t := c.(current := s.counter)])
    case Overflow(t) => System(USIZE_MAX, s.calls - {t}, s.completed + s.calls[t].amount)
  }

  /** The state after a run from an idle counter, or `None` if a label was not enabled. */
  function Run(initial: nat, ls: seq<Label>): Option<System> {
    if ls == [] then Some(System(initial, map[], 0))
    else
      var n := |ls| - 1;
      match Run(initial, ls[..n])
      case None => None
      case Some(s) => if Enabled(s, ls[n]) then Some(Step(s, ls[n])) else None
  }

  /** What every step keeps: the counter is the saturated sum, and no thread has read past it. */
  ghost predicate Inv(initial: nat, s: System) {
    && s.counter == Saturated(initial + s.completed)
    && forall t :: t in s.calls ==> s.calls[t].current <= s.counter && s.calls[t].amount <= USIZE_MAX
  }

  lemma StepKeepsInv(initial: nat, s: System, l: Label)
    requires Inv(initial, s) && Enabled(s, l)
    ensures Inv(initial, Step(s, l)) && s.counter <= Step(s, l).counter
  {
  }

  /** In every reachable state the counter is min(usize::MAX, initial + completed amounts). */
  lemma {:induction false} CounterIsSaturatedSum(initial: nat, ls: seq<Label>)
    requires initial <= USIZE_MAX && Run(initial, ls).Some?
    ensures Inv(initial, Run(initial, ls).value)
  {
    if ls != [] {
      var n := |ls| - 1;
      CounterIsSaturatedSum(initial, ls[..n]);
      StepKeepsInv(initial, Run(initial, ls[..n]).value, ls[n]);
    }
  }

  /** The counter never decreases along a run. */
  lemma {:induction false} CounterNeverDecreases(initial: nat, ls: seq<Label>, k: nat)
    requires initial <= USIZE_MAX && Run(initial, ls).Some? && k <= |ls|
    ensures Run(initial, ls[..k]).Some?
    ensures Run(initial, ls[..k]).value.counter <= Run(initial, ls).value.counter
  {
    var n := |ls| - 1;
    if k == |ls| {
      assert ls[..k] == ls;
    } else {
      CounterNeverDecreases(initial, ls[..n], k);
      assert ls[..n][..k] == ls[..k];
      CounterIsSaturatedSum(initial, ls[..n]);
      StepKeepsInv(initial, Run(initial, ls[..n]).value, ls[n]);
    }
  }

}
