/** `Heartbeat::setNextHeartbeatTime` of remoting/asioKiteIOClient.cpp: a maximum without a lock. */
module Heartbeat {
  import C = Counter

  function Max(a: int, b: int): int { if a >= b then a else b }

  // ---- every interleaving ----

  /** A thread outside the function, at its start (after so many failures), or behind the read of next. */
  datatype Phase = Idle | Started(time: int, failed: nat) | Holding(time: int, next: int, failed: nat)
      | Returned(time: int)

  /** The time, the threads, and the times that were installed. */
  datatype Beat = Beat(next: int, phases: map<nat, Phase>, installed: seq<int>)

  datatype Step = Call(t: nat, time: int) | Read(t: nat) | Install(t: nat)

  function Init(first: int): Beat { Beat(first, map[], []) }

  function PhaseOf(s: Beat, t: nat): Phase { if t in s.phases then s.phases[t] else Idle }

  /** One atomic step of one thread. */
  function Next(s: Beat, step: Step): Beat {
    match step
    case Call(t, time) =>
      if PhaseOf(s, t).Idle? || PhaseOf(s, t).Returned? then s.(phases := s.phases[t := Started(time, 0)]) else s
    case Read(t) =>
      (match PhaseOf(s, t)
       case Started(time, failed) =>
         s.(phases := s.phases[t := if time > s.next then Holding(time, s.next, failed) else Returned(time)])
       case _ => s)
    case Install(t) =>
      (match PhaseOf(s, t)
       case Holding(time, next, failed) =>
         if s.next == next then
           s.(next := C.CompareAndSetTo(s.next, next, time), phases := s.phases[t := Returned(time)],
              installed := s.installed + [time])
         else s.(phases := s.phases[t := Started(time, failed + 1)])
       case _ => s)
  }

  function Run(s: Beat, steps: seq<Step>): Beat
    decreases |steps|
  {
    if steps == [] then s else Next(Run(s, steps[..|steps| - 1]), steps[|steps| - 1])
  }

  function MaxOf(first: int, xs: seq<int>): int {
    if xs == [] then first else Max(MaxOf(first, xs[..|xs| - 1]), xs[|xs| - 1])
  }

  /** What holds after every step. */
  ghost predicate Inv(s: Beat, first: int) {
    && s.next == MaxOf(first, s.installed) && s.next >= first
    && forall t | t in s.phases ::
      match s.phases[t]
      case Idle => true
      case Started(time, failed) => first + failed <= s.next
      case Holding(time, next, failed) => first + failed <= next < time && next <= s.next
      case Returned(time) => s.next >= time
  }

  lemma StepKeeps(s: Beat, step: Step, first: int)
    requires Inv(s, first)
    ensures Inv(Next(s, step), first) && Next(s, step).next >= s.next
  {
    var now := Next(s, step);
    if now.installed != s.installed { assert now.installed[..|s.installed|] == s.installed; }
  }

  lemma {:induction false} Always(first: int, steps: seq<Step>)
    ensures Inv(Run(Init(first), steps), first)
    decreases |steps|
  {
    if steps != [] {
      Always(first, steps[..|steps| - 1]);
      StepKeeps(Run(Init(first), steps[..|steps| - 1]), steps[|steps| - 1], first);
    }
  }

  /** In every interleaving the time is the maximum of the first one and those that were installed, it is at
      least that of every call that has returned, and a compare-and-set that fails finds a greater time. */
  lemma LockFreeMaximum(first: int, steps: seq<Step>, t: nat)
    ensures var s := Run(Init(first), steps);
      && s.next == MaxOf(first, s.installed)
      && match PhaseOf(s, t)
         case Returned(time) => s.next >= time
         case Holding(time, next, failed) => s.next != next ==> s.next > next
         case _ => true
  {
    Always(first, steps);
  }

  /** The time never decreases. */
  lemma {:induction false} NeverDecreases(first: int, steps: seq<Step>, i: nat)
    requires i <= |steps|
    ensures Run(Init(first), steps[..i]).next <= Run(Init(first), steps).next
    decreases |steps|
  {
    if i < |steps| {
      var init := steps[..|steps| - 1];
      NeverDecreases(first, init, i);
      assert init[..i] == steps[..i];
      Always(first, init);
      StepKeeps(Run(Init(first), init), steps[|steps| - 1], first);
    } else {
      assert steps[..i] == steps;
    }
  }

  /** A call fails less often than its time exceeds the first one, so it returns once its steps are taken. */
  lemma FewFailures(first: int, steps: seq<Step>, t: nat)
    ensures match PhaseOf(Run(Init(first), steps), t)
      case Holding(time, next, failed) => failed < time - first
      case Started(time, failed) => failed > 0 ==> first + failed <= Run(Init(first), steps).next
      case _ => true
  {
    Always(first, steps);
  }

  /** Installed times only grow. */
  lemma {:induction false} InstalledGrow(first: int, steps: seq<Step>)
    ensures var xs := Run(Init(first), steps).installed;
      (forall i | 0 <= i < |xs| :: first < xs[i]) && forall i, j | 0 <= i < j < |xs| :: xs[i] < xs[j]
    ensures var s := Run(Init(first), steps);
      s.next == if s.installed == [] then first else s.installed[|s.installed| - 1]
    decreases |steps|
  {
    if steps != [] {
      InstalledGrow(first, steps[..|steps| - 1]);
      Always(first, steps[..|steps| - 1]);
    }
  }

  /** The call of thread u has the argument x: it is inside the function already, or calls it in one of the steps. */
  predicate CalledWith(s: Beat, steps: seq<Step>, u: nat, x: int) {
    ((PhaseOf(s, u).Started? || PhaseOf(s, u).Holding?) && PhaseOf(s, u).time == x) || Call(u, x) in steps
  }

  ghost predicate Called(s: Beat, steps: seq<Step>, x: int) { exists u :: CalledWith(s, steps, u, x) }

  /** Since the start s, only arguments of calls were installed, behind what was installed before; the time and
      what the threads hold come from calls, too. */
  ghost predicate AllCalled(s: Beat, steps: seq<Step>, now: Beat) {
    && s.installed <= now.installed
    && (forall i | |s.installed| <= i < |now.installed| :: Called(s, steps, now.installed[i]))
    && (now.next != s.next ==> Called(s, steps, now.next))
    && forall u | PhaseOf(now, u).Started? || PhaseOf(now, u).Holding? ::
      CalledWith(s, steps, u, PhaseOf(now, u).time)
  }

  lemma {:induction false} InstalledIsCalled(s: Beat, steps: seq<Step>)
    ensures AllCalled(s, steps, Run(s, steps))
    decreases |steps|
  {
    if steps != [] {
      InstalledIsCalled(s, steps[..|steps| - 1]);
      StepIsCalled(s, steps[..|steps| - 1], Run(s, steps[..|steps| - 1]), steps[|steps| - 1]);
      assert steps == steps[..|steps| - 1] + [steps[|steps| - 1]];
    }
  }

  lemma StepIsCalled(s: Beat, steps: seq<Step>, now: Beat, step: Step)
    requires AllCalled(s, steps, now)
    ensures AllCalled(s, steps + [step], Next(now, step))
  {
    var more, after := steps + [step], Next(now, step);
    forall u, x | CalledWith(s, steps, u, x) ensures CalledWith(s, more, u, x) {}
    forall u | PhaseOf(after, u).Started? || PhaseOf(after, u).Holding?
      ensures CalledWith(s, more, u, PhaseOf(after, u).time)
    {
      assert more[|steps|] == step;
      if PhaseOf(now, u).Started? || PhaseOf(now, u).Holding? {
        assert CalledWith(s, steps, u, PhaseOf(now, u).time);
      }
    }
    if after.installed != now.installed {
      assert CalledWith(s, more, step.t, PhaseOf(now, step.t).time);
    }
    assert forall x | Called(s, steps, x) :: Called(s, more, x);
  }

  /** From the start: every time that was installed is the argument of a call. */
  lemma InstalledWasCalled(first: int, steps: seq<Step>, i: nat)
    requires i < |Run(Init(first), steps).installed|
    ensures exists u :: Call(u, Run(Init(first), steps).installed[i]) in steps
  {
    InstalledIsCalled(Init(first), steps);
    var u :| CalledWith(Init(first), steps, u, Run(Init(first), steps).installed[i]);
    assert Call(u, Run(Init(first), steps).installed[i]) in steps;
  }

  // ---- the class ----

  /** No step of thread t. */
  predicate OfOthers(steps: seq<Step>, t: nat) { forall step | step in steps :: step.t != t }

  lemma {:induction false} OthersKeep(s: Beat, steps: seq<Step>, first: int, t: nat)
    requires Inv(s, first) && OfOthers(steps, t)
    ensures Inv(Run(s, steps), first) && Run(s, steps).next >= s.next
    ensures PhaseOf(Run(s, steps), t) == PhaseOf(s, t)
    decreases |steps|
  {
    hide Inv;
    if steps != [] {
      OthersKeep(s, steps[..|steps| - 1], first, t);
      StepKeeps(Run(s, steps[..|steps| - 1]), steps[|steps| - 1], first);
    }
  }

  lemma {:induction false} RunConcat(s: Beat, a: seq<Step>, b: seq<Step>)
    ensures Run(s, a + b) == Run(Run(s, a), b)
    decreases |b|
  {
    if b == [] {
      assert a + b == a;
    } else {
      var init, last := b[..|b| - 1], b[|b| - 1];
      RunConcat(s, a, init);
      assert a + b == (a + init) + [last];
    }
  }

  class Heartbeat {
    const nextHeartbeatTime: C.Counter
    /** Where the threads are, and what was installed. */
    var phases: map<nat, Phase>
    var installed: seq<int>
    ghost const first: int

    constructor (c: int)
      ensures fresh(nextHeartbeatTime) && first == c && Value() == Init(c)
    {
      nextHeartbeatTime := new C.Counter(c);
      phases, installed, first := map[], [], c;
    }

    function Value(): Beat
      reads this, nextHeartbeatTime
    {
      Beat(nextHeartbeatTime.counter, phases, installed)
    }

    /** What other threads do between two steps of this one. */
    method Others(steps: seq<Step>, ghost t: nat)
      requires Inv(Value(), first) && OfOthers(steps, t)
      modifies this`phases, this`installed, nextHeartbeatTime`counter
      ensures Value() == Run(old(Value()), steps) && Inv(Value(), first)
      ensures nextHeartbeatTime.counter >= old(nextHeartbeatTime.counter)
      ensures PhaseOf(Value(), t) == PhaseOf(old(Value()), t)
      ensures steps == [] ==> nextHeartbeatTime.counter == old(nextHeartbeatTime.counter)
    {
      hide Inv;
      OthersKeep(Value(), steps, first, t);
      var now := Run(Beat(nextHeartbeatTime.counter, phases, installed), steps);
      nextHeartbeatTime.counter, phases, installed := now.next, now.phases, now.installed;
    }

    /** The read of next. */
    method Read(t: nat) returns (next: int)
      requires Inv(Value(), first) && PhaseOf(Value(), t).Started?
      modifies this`phases
      ensures Value() == Next(old(Value()), Step.Read(t)) && Inv(Value(), first) && next == nextHeartbeatTime.counter
    {
      StepKeeps(Value(), Step.Read(t), first);
      next := nextHeartbeatTime.GetCount();
      var time, failed := phases[t].time, phases[t].failed;
      phases := phases[t := if time > next then Holding(time, next, failed) else Returned(time)];
    }

    /** The compare-and-set. */
    method Install(t: nat, next: int, time: int) returns (done: bool)
      requires Inv(Value(), first) && PhaseOf(Value(), t).Holding?
      requires PhaseOf(Value(), t).next == next && PhaseOf(Value(), t).time == time
      modifies this`phases, this`installed, nextHeartbeatTime`counter
      ensures Value() == Next(old(Value()), Step.Install(t)) && Inv(Value(), first)
      ensures done == (old(nextHeartbeatTime.counter) == next)
      ensures !done ==> nextHeartbeatTime.counter > next
    {
      StepKeeps(Value(), Step.Install(t), first);
      done := nextHeartbeatTime.CompareAndSet(next, time);
      phases := phases[t := if done then Returned(time) else Started(time, phases[t].failed + 1)];
      if done { installed := installed + [time]; }
    }

    /** `setNextHeartbeatTime` in thread t, which has called it, among other threads; `others` tells what they
        do at each point from the k-th on. The call is a run of the steps. It leaves the time that it found or
        the argument of a call, at least its own, and exactly the greater one of both when it is left alone.
        It ends because a compare-and-set that fails means that the time was raised. */
    method SetNextHeartbeatTime(t: nat, time: int, others: nat -> seq<Step>, k: nat) returns (ghost steps: seq<Step>)
      requires Inv(Value(), first) && PhaseOf(Value(), t).Started? && PhaseOf(Value(), t).time == time
      requires forall i: nat :: OfOthers(others(i), t)
      modifies this`phases, this`installed, nextHeartbeatTime`counter
      ensures Inv(Value(), first) && PhaseOf(Value(), t) == Returned(time)
      ensures Value() == Run(old(Value()), steps) && OwnOrOf(steps, t, others)
      ensures nextHeartbeatTime.counter >= Max(old(nextHeartbeatTime.counter), time)
      ensures nextHeartbeatTime.counter == old(nextHeartbeatTime.counter)
              || Called(old(Value()), steps, nextHeartbeatTime.counter)
      ensures (forall i: nat :: others(i) == []) ==>
        nextHeartbeatTime.counter == Max(old(nextHeartbeatTime.counter), time)
      decreases Max(0, time - nextHeartbeatTime.counter)
    {
      hide Inv, Run, Called, AllCalled;
      ghost var start := Value();
      var next := Read(t);
      OneStep(start, Step.Read(t));
      steps := [Step.Read(t)];
      if time > next {
        Others(others(k), t);
        ghost var found := Value();
        var done := Install(t, next, time);
        OneStep(found, Step.Install(t));
        Joined(start, steps, others(k), [Step.Install(t)]);
        steps := steps + others(k) + [Step.Install(t)];
        if !done {
          found := Value();
          Others(others(k + 1), t);
          ghost var more := SetNextHeartbeatTime(t, time, others, k + 2);
          Joined(start, steps, others(k + 1), more);
          steps := steps + others(k + 1) + more;
        }
      }
      TimeIsCalled(start, steps);
    }
  }

  /** The steps are those of the function in thread t and what others do. */
  ghost predicate OwnOrOf(steps: seq<Step>, t: nat, others: nat -> seq<Step>) {
    forall x | x in steps :: x == Read(t) || x == Install(t) || exists i: nat :: x in others(i)
  }

  lemma OneStep(s: Beat, step: Step)
    ensures Run(s, [step]) == Next(s, step)
  {
    assert [step][..0] == [];
    assert Run(s, []) == s;
  }

  lemma Joined(s: Beat, a: seq<Step>, b: seq<Step>, c: seq<Step>)
    ensures Run(s, a + b + c) == Run(Run(Run(s, a), b), c)
  {
    RunConcat(s, a, b);
    RunConcat(s, a + b, c);
  }

  lemma TimeIsCalled(s: Beat, steps: seq<Step>)
    ensures Run(s, steps).next == s.next || Called(s, steps, Run(s, steps).next)
  {
    InstalledIsCalled(s, steps);
  }
}
