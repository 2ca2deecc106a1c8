/** commons/Counter.hpp: each operation is one atomic step under the lock, except `getCountChange`, which
    is a loop of two steps. */
module Counter {

  // ---- the class ----

  class Counter {
    var counter: int
    /** How often it was incremented, and what resets have taken from it. */
    ghost var increments: int
    ghost var taken: int
    /** How often other threads will still change the counter between two steps of this one. */
    var disturbances: nat

    constructor (c: int)
      ensures counter == c
    {
      counter := c;
    }

    /** `inc`, and `getAndIncrement`, which returns the new value in spite of its name. */
    method Inc() returns (c: int)
      modifies this
      ensures counter == old(counter) + 1 && c == counter
      ensures increments == old(increments) + 1 && taken == old(taken)
    {
      counter := counter + 1;
      increments := increments + 1;
      c := counter;
    }

    method GetCount() returns (c: int)
      ensures c == counter
    {
      c := counter;
    }

    method CompareAndSet(expval: int, newval: int) returns (done: bool)
      modifies this`counter
      ensures done == (old(counter) == expval) && counter == CompareAndSetTo(old(counter), expval, newval)
    {
      if counter == expval {
        counter := newval;
        return true;
      }
      return false;
    }

    /** What the increments that were not taken amount to. */
    ghost predicate Balanced()
      reads this
    {
      counter + taken == increments
    }

    /** What other threads may do between two steps: increment and reset, a finite number of times. */
    method Others()
      requires Balanced()
      modifies this
      ensures Balanced() && increments >= old(increments) && disturbances <= old(disturbances)
      ensures counter != old(counter) ==> disturbances < old(disturbances)
    {
      ghost var more: nat :| true;
      if disturbances > 0 {
        disturbances := disturbances - 1;
        var change: int :| true;
        counter := counter + change;
        increments := increments + more;
        taken := increments - counter;
      }
    }

    /** `getCountChange` among other threads: it takes what the counter holds at the moment of the reset. */
    method GetCountChange() returns (c: int, ghost before: int)
      requires Balanced()
      modifies this
      ensures Balanced() && counter == 0 && taken == increments == before + c
    {
      var ret := false;
      c, before := 0, taken;
      while !ret
        invariant Balanced() && (ret ==> counter == 0 && taken == before + c)
        decreases !ret, disturbances
      {
        c := GetCount();
        Others();
        ret := CompareAndSet(c, 0);
        if ret { before, taken := taken, taken + c; }
      }
    }
  }

  function CompareAndSetTo(counter: int, expval: int, newval: int): int {
    if counter == expval then newval else counter
  }

  // ---- every interleaving ----

  type thread = nat

  /** Where a thread is inside `getCountChange`: not in it, or behind the read of c. */
  datatype Place = Outside | HasRead(c: int)

  /** The counter, the threads, how many increments there were, and what successful resets returned. */
  datatype State = State(counter: int, places: map<thread, Place>, increments: nat, taken: seq<int>)

  datatype Step = Inc(t: thread) | Read(t: thread) | Reset(t: thread)

  const INIT := State(0, map[], 0, [])

  function PlaceOf(s: State, t: thread): Place { if t in s.places then s.places[t] else Outside }

  /** One atomic step of one thread; a step that its thread cannot take changes nothing. */
  function Next(s: State, step: Step): State {
    match step
    case Inc(t) => if PlaceOf(s, t).Outside? then s.(counter := s.counter + 1, increments := s.increments + 1) else s
    case Read(t) => if PlaceOf(s, t).Outside? then s.(places := s.places[t := HasRead(s.counter)]) else s
    case Reset(t) =>
      (match PlaceOf(s, t)
       case Outside => s
       case HasRead(c) =>
         var now := s.(counter := CompareAndSetTo(s.counter, c, 0));
         if s.counter == c then now.(places := s.places[t := Outside], taken := s.taken + [c])
         else now.(places := s.places[t := Outside]))
  }

  function Run(s: State, steps: seq<Step>): State
    decreases |steps|
  {
    if steps == [] then s else Next(Run(s, steps[..|steps| - 1]), steps[|steps| - 1])
  }

  function Sum(xs: seq<int>): int {
    if xs == [] then 0 else Sum(xs[..|xs| - 1]) + xs[|xs| - 1]
  }

  /** From a zero counter, whatever the threads do: what the resets took and what is still there are
      together the increments, so that none is lost or counted twice. */
  lemma {:induction false} Conservation(steps: seq<Step>)
    ensures var s := Run(INIT, steps); Sum(s.taken) + s.counter == s.increments && s.counter >= 0
    ensures forall c | c in Run(INIT, steps).taken :: c >= 0
    decreases |steps|
  {
    if steps != [] {
      var before, step := Run(INIT, steps[..|steps| - 1]), steps[|steps| - 1];
      Conservation(steps[..|steps| - 1]);
      var after := Next(before, step);
      if after.taken != before.taken { assert after.taken[..|before.taken|] == before.taken; }
    }
  }

  /** A reset that fails was disturbed: since its read, another thread has changed the counter. */
  lemma {:induction false} FailedReset(s: State, t: thread, steps: seq<Step>)
    requires PlaceOf(s, t).Outside?
    requires forall x | x in steps :: x.t != t
    requires Next(Run(Next(s, Read(t)), steps), Reset(t)).taken == Run(Next(s, Read(t)), steps).taken
    ensures exists i :: 0 <= i < |steps| &&
              Run(Next(s, Read(t)), steps[..i]).counter != Run(Next(s, Read(t)), steps[..i + 1]).counter
  {
    var start := Next(s, Read(t));
    StillRead(start, t, s.counter, steps);
    var k := Changed(start, steps);
  }

  lemma {:induction false} StillRead(s: State, t: thread, c: int, steps: seq<Step>)
    requires PlaceOf(s, t) == HasRead(c) && forall x | x in steps :: x.t != t
    ensures PlaceOf(Run(s, steps), t) == HasRead(c)
    decreases |steps|
  {
    if steps != [] {
      assert forall x | x in steps[..|steps| - 1] :: x in steps;
      assert steps[|steps| - 1] in steps;
      StillRead(s, t, c, steps[..|steps| - 1]);
    }
  }

  /** A counter that differs at the end of a run was changed by one of its steps. */
  lemma {:induction false} Changed(s: State, steps: seq<Step>) returns (i: nat)
    requires Run(s, steps).counter != s.counter
    ensures i < |steps| && Run(s, steps[..i]).counter != Run(s, steps[..i + 1]).counter
    decreases |steps|
  {
    var init := steps[..|steps| - 1];
    if Run(s, init).counter != s.counter {
      i := Changed(s, init);
      assert init[..i] == steps[..i] && init[..i + 1] == steps[..i + 1];
    } else {
      i := |steps| - 1;
      assert steps[..i + 1] == steps;
    }
  }
}
