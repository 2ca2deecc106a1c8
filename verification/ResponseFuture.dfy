/** remoting/ResponseFuture.cpp and the calls of remoting/asioKiteIOClient.cpp: requests that wait for a
    response with their id, or give up. */
module ResponseFuture {

  /** `KiteResponse`. */
  datatype Response = Response(id: int, message: int)

  datatype Option<+T> = None | Some(value: T)

  /** Where a call is: the future exists; it is registered, and waits; the check for a value has failed; or
      the call has returned, with a response or without. */
  datatype Phase = Created | Waiting | GivingUp | Returned(result: Option<Response>)

  /** A call with the id of its request, the value of its promise, and how often that was set. */
  datatype Call = Call(id: int, phase: Phase, value: Option<Response>, sets: nat)

  /** The shared map, from ids to positions in the list of all calls. */
  datatype State = State(futureMap: map<int, nat>, calls: seq<Call>)

  const INIT := State(map[], [])

  /** The atomic steps: a call is made with a new id; `ResponseFutureUsed`; `receiveResponse`; the test
      `has_value` after the wait; and the erasure that follows when it fails. */
  datatype Step = Make(id: int) | Register(k: nat) | Receive(r: Response) | Check(k: nat) | Erase(k: nat)

  predicate Live(c: Call) { !c.phase.Returned? }

  /** The call is where the step finds it. */
  predicate Possible(s: State, step: Step) {
    match step
    case Make(_) => true
    case Register(k) => k < |s.calls| && s.calls[k].phase == Created
    case Receive(_) => true
    case Check(k) => k < |s.calls| && s.calls[k].phase == Waiting
    case Erase(k) => k < |s.calls| && s.calls[k].phase == GivingUp
  }

  /** Ids are distinct among the calls that have not returned. */
  predicate Enabled(s: State, step: Step) {
    Possible(s, step) && (step.Make? ==> forall k | 0 <= k < |s.calls| && Live(s.calls[k]) :: s.calls[k].id != step.id)
  }

  function SetPhase(s: State, k: nat, p: Phase): seq<Call>
    requires k < |s.calls|
  {
    s.calls[k := s.calls[k].(phase := p)]
  }

  /** What a step does; one that is not enabled does nothing. */
  function Next(s: State, step: Step): State {
    if !Enabled(s, step) then s
    else Effect(s, step)
  }

  function Effect(s: State, step: Step): State
    requires Possible(s, step)
  {
    match step
    case Make(id) => s.(calls := s.calls + [Call(id, Created, None, 0)])
    case Register(k) =>
      var id := s.calls[k].id;
      State(if id in s.futureMap then s.futureMap else s.futureMap[id := k], SetPhase(s, k, Waiting))
    case Receive(r) =>
      if r.id in s.futureMap && s.futureMap[r.id] < |s.calls| then
        var k := s.futureMap[r.id];
        State(s.futureMap - {r.id}, s.calls[k := s.calls[k].(value := Some(r), sets := s.calls[k].sets + 1)])
      else s
    case Check(k) =>
      var c := s.calls[k];
      s.(calls := SetPhase(s, k, if c.value.Some? then Returned(c.value) else GivingUp))
    case Erase(k) =>
      State(s.futureMap - {s.calls[k].id}, SetPhase(s, k, Returned(None)))
  }

  function Run(s: State, steps: seq<Step>): State
    decreases |steps|
  {
    if steps == [] then s else Next(Run(s, steps[..|steps| - 1]), steps[|steps| - 1])
  }

  // ---- what holds after every step ----

  /** The call at k waits in the map for its response. */
  predicate Waits(c: Call) {
    c.phase in {Waiting, GivingUp} && c.value == None
  }

  /** The map holds exactly the registered calls that are neither answered nor expired, under their ids. */
  ghost predicate MapIsRight(s: State) {
    && (forall id | id in s.futureMap ::
          var k := s.futureMap[id]; k < |s.calls| && Waits(s.calls[k]) && s.calls[k].id == id)
    && forall k | 0 <= k < |s.calls| && Waits(s.calls[k]) ::
         s.calls[k].id in s.futureMap && s.futureMap[s.calls[k].id] == k
  }

  /** A promise is set at most once, and only with a response that carries the id of its request. */
  ghost predicate PromiseIsRight(c: Call) {
    && c.sets == (if c.value.Some? then 1 else 0)
    && (c.value.Some? ==> c.value.value.id == c.id && c.phase != Created)
    && (c.phase.Returned? && c.phase.result.Some? ==> c.phase.result == c.value)
  }

  ghost predicate Distinct(s: State) {
    forall i, j | 0 <= i < j < |s.calls| && Live(s.calls[i]) && Live(s.calls[j]) :: s.calls[i].id != s.calls[j].id
  }

  ghost predicate Inv(s: State) {
    MapIsRight(s) && Distinct(s) && forall k | 0 <= k < |s.calls| :: PromiseIsRight(s.calls[k])
  }

  lemma StepKeeps(s: State, step: Step)
    requires Inv(s) && Enabled(s, step)
    ensures Inv(Effect(s, step))
  {
    if step.Register? { RegisterKeeps(s, step.k); }
    if step.Receive? { ReceiveKeeps(s, step.r); }
  }

  lemma RegisterKeeps(s: State, k: nat)
    requires Inv(s) && Enabled(s, Register(k))
    ensures Inv(Effect(s, Register(k)))
  {
  }

  lemma ReceiveKeeps(s: State, r: Response)
    requires Inv(s)
    ensures Inv(Effect(s, Receive(r)))
  {
  }

  /** Safety over every interleaving of callers, receiver and timeouts. */
  lemma {:induction false} Always(steps: seq<Step>)
    ensures Inv(Run(INIT, steps))
    decreases |steps|
  {
    hide Inv, Effect;
    if steps == [] {
      InitIsRight();
    } else {
      Always(steps[..|steps| - 1]);
      var s := Run(INIT, steps[..|steps| - 1]);
      if Enabled(s, steps[|steps| - 1]) { StepKeeps(s, steps[|steps| - 1]); }
    }
  }

  lemma InitIsRight()
    ensures Inv(INIT) && WeakInv(INIT) && MapIsRight(INIT)
  {
  }

  /** No call outstanding, nothing in the map: also after a response came between the check and the erasure. */
  lemma EmptyWhenIdle(steps: seq<Step>)
    requires forall c | c in Run(INIT, steps).calls :: !Live(c)
    ensures Run(INIT, steps).futureMap == map[]
  {
    Always(steps);
    var s := Run(INIT, steps);
    forall id | id in s.futureMap ensures false { assert Live(s.calls[s.futureMap[id]]); }
  }

  /** What a call returns is a response to its own request, and no promise is set twice. */
  lemma OwnResponse(steps: seq<Step>, k: nat)
    requires k < |Run(INIT, steps).calls|
    ensures var c := Run(INIT, steps).calls[k];
      && c.sets <= 1 && (c.phase.Returned? && c.phase.result.Some? ==> c.phase.result.value.id == c.id)
  {
    Always(steps);
  }

  /** A response between the check and the erasure: the promise is set, the call returns nothing, and the
      map is as if the call had never been. */
  lemma LateResponse(s: State, k: nat, r: Response)
    requires Inv(s) && k < |s.calls| && s.calls[k].phase == Waiting && s.calls[k].value == None && r.id == s.calls[k].id
    ensures var e := Next(Next(Next(s, Check(k)), Receive(r)), Erase(k));
      && e.futureMap == s.futureMap - {r.id} && |e.calls| == |s.calls|
      && e.calls[k].phase == Returned(None) && e.calls[k].value == Some(r) && e.calls[k].sets == 1
  {
    assert s.futureMap[r.id] == k;
  }

  // ---- without the assumption on ids ----

  /** Any steps, also calls that are made with an id that a live call has. */
  function RunAny(s: State, steps: seq<Step>): State
    decreases |steps|
  {
    if steps == [] then s
    else
      var before, last := RunAny(s, steps[..|steps| - 1]), steps[|steps| - 1];
      if Possible(before, last) then Effect(before, last) else before
  }

  /** What holds whatever the ids are: an entry of the map is a call that waits under that id, and promises
      are set as they should be. */
  ghost predicate WeakInv(s: State) {
    && (forall id | id in s.futureMap ::
          var k := s.futureMap[id]; k < |s.calls| && Waits(s.calls[k]) && s.calls[k].id == id)
    && forall k | 0 <= k < |s.calls| :: PromiseIsRight(s.calls[k])
  }

  lemma WeakStep(s: State, step: Step)
    requires WeakInv(s) && Possible(s, step)
    ensures WeakInv(Effect(s, step))
  {
  }

  lemma {:induction false} WeakAlways(steps: seq<Step>)
    ensures WeakInv(RunAny(INIT, steps))
    decreases |steps|
  {
    hide WeakInv, Effect, Possible;
    if steps == [] {
      InitIsRight();
    } else {
      WeakAlways(steps[..|steps| - 1]);
      var s := RunAny(INIT, steps[..|steps| - 1]);
      if Possible(s, steps[|steps| - 1]) { WeakStep(s, steps[|steps| - 1]); }
    }
  }

  /** `ResponseFutureUsed` puts the call into the map if and only if no entry is there under its id. */
  lemma RegisteredIff(s: State, k: nat)
    requires WeakInv(s) && Possible(s, Register(k))
    ensures var e := Effect(s, Register(k));
      (exists id :: id in e.futureMap && e.futureMap[id] == k) <==> s.calls[k].id !in s.futureMap
  {
    var e := Effect(s, Register(k));
    if s.calls[k].id !in s.futureMap { assert e.futureMap[s.calls[k].id] == k; }
  }

  /** A registered call that is not in the map never gets a response, whatever happens. */
  lemma {:induction false} NeverAnswered(s: State, steps: seq<Step>, k: nat)
    requires k < |s.calls| && s.calls[k].phase in {Waiting, GivingUp} && s.calls[k].value == None
      && k !in s.futureMap.Values
    ensures var e := RunAny(s, steps);
      k < |e.calls| && k !in e.futureMap.Values && e.calls[k].value == None
      && e.calls[k].phase in {Waiting, GivingUp, Returned(None)}
    decreases |steps|
  {
    if steps != [] { NeverAnswered(s, steps[..|steps| - 1], k); }
  }

  /** Two live calls with one id: the second is not registered, and the response goes to the first. */
  lemma SharedIdIsLost(id: int, message: int)
    ensures var r := Response(id, message);
      var s := RunAny(INIT, [Make(id), Make(id), Register(0), Register(1), Receive(r)]);
      s == State(map[], [Call(id, Waiting, Some(r), 1), Call(id, Waiting, None, 0)])
  {
    var r := Response(id, message);
    var steps := [Make(id), Make(id), Register(0), Register(1), Receive(r)];
    assert steps[..1] == [] + [steps[0]] && steps[..2] == steps[..1] + [steps[1]]
        && steps[..3] == steps[..2] + [steps[2]];
    assert steps[..4] == steps[..3] + [steps[3]] && steps[..5] == steps[..4] + [steps[4]] == steps;
    AnyStep(INIT, [], Make(id));
    AnyStep(INIT, steps[..1], Make(id));
    AnyStep(INIT, steps[..2], Register(0));
    AnyStep(INIT, steps[..3], Register(1));
    AnyStep(INIT, steps[..4], Receive(r));
  }

  lemma AnyStep(s: State, steps: seq<Step>, step: Step)
    ensures var e := RunAny(s, steps); RunAny(s, steps + [step]) == if Possible(e, step) then Effect(e, step) else e
  {
    assert (steps + [step])[..|steps|] == steps;
  }

  /** A step that spoils the map: a call registers under an id that is taken, or erases the entry of another
      call with its id. */
  predicate Spoils(s: State, step: Step)
    requires Possible(s, step)
  {
    match step
    case Register(k) => s.calls[k].id in s.futureMap
    case Erase(k) => s.calls[k].id in s.futureMap && s.futureMap[s.calls[k].id] != k
    case _ => false
  }

  /** The map stays right exactly if the step does not spoil it. */
  lemma SpoilsIff(s: State, step: Step)
    requires WeakInv(s) && MapIsRight(s) && Possible(s, step)
    ensures MapIsRight(Effect(s, step)) <==> !Spoils(s, step)
  {
    if step.Register? && Spoils(s, step) {
      var e := Effect(s, step);
      assert Waits(e.calls[step.k]) && e.futureMap[e.calls[step.k].id] != step.k;
    }
    if step.Erase? && Spoils(s, step) {
      var e, j := Effect(s, step), s.futureMap[s.calls[step.k].id];
      assert e.calls[j] == s.calls[j] && Waits(e.calls[j]);
    }
  }

  /** The map is right at the start of a run and after each of its steps. */
  ghost predicate RightThroughout(steps: seq<Step>)
    decreases |steps|
  {
    MapIsRight(RunAny(INIT, steps)) && (steps != [] ==> RightThroughout(steps[..|steps| - 1]))
  }

  ghost predicate NeverSpoils(steps: seq<Step>)
    decreases |steps|
  {
    steps != [] ==>
      var s, last := RunAny(INIT, steps[..|steps| - 1]), steps[|steps| - 1];
      NeverSpoils(steps[..|steps| - 1]) && (Possible(s, last) ==> !Spoils(s, last))
  }

  /** The map is right throughout a run exactly if no step of the run spoils it. */
  lemma {:induction false} RightThroughoutIff(steps: seq<Step>)
    ensures RightThroughout(steps) <==> NeverSpoils(steps)
    decreases |steps|
  {
    hide MapIsRight, WeakInv, Possible, Spoils, Effect;
    if steps == [] {
      InitIsRight();
    } else {
      var init, last := steps[..|steps| - 1], steps[|steps| - 1];
      var s := RunAny(INIT, init);
      RightThroughoutIff(init);
      WeakAlways(init);
      if MapIsRight(s) && Possible(s, last) { SpoilsIff(s, last); }
    }
  }

  predicate Registers(steps: seq<Step>) { forall x | x in steps :: x.Make? || x.Register? }

  /** No two registered calls share an id. */
  ghost predicate OwnIds(s: State) {
    forall i, j | 0 <= i < j < |s.calls| && s.calls[i].phase == Waiting && s.calls[j].phase == Waiting ::
      s.calls[i].id != s.calls[j].id
  }

  /** As long as calls are only made and registered, every call finds itself in the map exactly if no two
      of those that were registered share an id. */
  lemma RegisteredRunIff(steps: seq<Step>)
    requires Registers(steps)
    ensures MapIsRight(RunAny(INIT, steps)) <==> OwnIds(RunAny(INIT, steps))
  {
    WeakAlways(steps);
    OnlyRegistered(steps);
    var s := RunAny(INIT, steps);
    if OwnIds(s) {
      forall k | 0 <= k < |s.calls| && Waits(s.calls[k])
        ensures s.calls[k].id in s.futureMap && s.futureMap[s.calls[k].id] == k
      {
        var j := s.futureMap[s.calls[k].id];
        assert s.calls[j].id == s.calls[k].id;
      }
    }
  }

  lemma {:induction false} OnlyRegistered(steps: seq<Step>)
    requires Registers(steps)
    ensures var s := RunAny(INIT, steps);
      forall c | c in s.calls ::
        c.value == None && c.phase in {Created, Waiting} && (c.phase == Waiting ==> c.id in s.futureMap)
    decreases |steps|
  {
    if steps != [] { OnlyRegistered(steps[..|steps| - 1]); }
  }

  // ---- the class ----

  /** The static members `futureMap` and the futures; every method runs under `maplock`, except the test of
      the promise. */
  class Futures {
    var futureMap: map<int, nat>
    var calls: seq<Call>

    constructor ()
      ensures Value() == INIT
    {
      futureMap, calls := map[], [];
    }

    ghost function Value(): State
      reads this
    {
      State(futureMap, calls)
    }

    /** `new ResponseFuture(reqPacket.getOpaque())`. */
    method Make(id: int) returns (k: nat)
      requires Inv(Value()) && Enabled(Value(), Step.Make(id))
      modifies this
      ensures Inv(Value()) && Value() == Next(old(Value()), Step.Make(id)) && k == |old(calls)|
    {
      StepKeeps(Value(), Step.Make(id));
      k := |calls|;
      calls := calls + [Call(id, Created, None, 0)];
    }

    /** `ResponseFutureUsed`. */
    method ResponseFutureUsed(k: nat)
      requires Inv(Value()) && Enabled(Value(), Register(k))
      modifies this
      ensures Inv(Value()) && Value() == Next(old(Value()), Register(k))
    {
      hide Inv;
      StepKeeps(Value(), Register(k));
      var requestId := calls[k].id;
      if requestId !in futureMap {
        futureMap := futureMap[requestId := k];
      }
      calls := calls[k := calls[k].(phase := Waiting)];
    }

    /** `receiveResponse`. */
    method ReceiveResponse(resp: Response)
      requires Inv(Value())
      modifies this
      ensures Inv(Value()) && Value() == Next(old(Value()), Receive(resp))
    {
      StepKeeps(Value(), Receive(resp));
      var requestId := resp.id;
      if requestId in futureMap {
        var k := futureMap[requestId];
        futureMap := futureMap - {requestId};
        calls := calls[k := calls[k].(value := Some(resp), sets := calls[k].sets + 1)];
      }
    }

    /** `if(f.has_value()) return f.get();` */
    method HasValue(k: nat) returns (result: Option<Response>)
      requires Inv(Value()) && Enabled(Value(), Check(k))
      modifies this`calls
      ensures Inv(Value()) && Value() == Next(old(Value()), Check(k)) && result == calls[k].value
      ensures result.Some? ==> result.value.id == calls[k].id
    {
      StepKeeps(Value(), Check(k));
      result := calls[k].value;
      calls := calls[k := calls[k].(phase := if result.Some? then Returned(result) else GivingUp)];
    }

    /** `maplock.lock(); futureMap.erase(requestId); maplock.unlock();` */
    method EraseExpired(k: nat)
      requires Inv(Value()) && Enabled(Value(), Erase(k))
      modifies this
      ensures Inv(Value()) && Value() == Next(old(Value()), Erase(k)) && calls[k].id !in futureMap
    {
      hide Inv;
      StepKeeps(Value(), Erase(k));
      futureMap := futureMap - {calls[k].id};
      calls := calls[k := calls[k].(phase := Returned(None))];
    }

    /** Steps of other threads. */
    method Others(steps: seq<Step>, ghost k: nat)
      requires Inv(Value()) && k < |calls| && OfOthers(steps, k)
      modifies this
      ensures Inv(Value()) && Value() == Run(old(Value()), steps)
      ensures k < |calls| && calls[k].phase == old(calls[k].phase) && calls[k].id == old(calls[k].id)
    {
      hide Inv;
      OthersKeep(Value(), steps, k);
      var now := Run(State(futureMap, calls), steps);
      futureMap, calls := now.futureMap, now.calls;
    }

    /** `getResponse(timeout)`, with what other threads do before the test and before the erasure: the call
        ends with a response to its own request or with none, and leaves nothing in the map. */
    method GetResponse(k: nat, before: seq<Step>, between: seq<Step>) returns (result: Option<Response>)
      requires Inv(Value()) && Enabled(Value(), Check(k)) && OfOthers(before, k) && OfOthers(between, k)
      modifies this
      ensures Inv(Value()) && k < |calls| && calls[k].phase == Returned(result) && calls[k].id == old(calls[k].id)
      ensures result.Some? ==> result.value.id == calls[k].id
      ensures calls[k].id in futureMap ==> futureMap[calls[k].id] != k
      ensures Value() == Run(old(Value()), before + [Check(k)] + if result.Some? then [] else between + [Erase(k)])
    {
      hide Inv;
      ghost var start := Value();
      Others(before, k);
      result := HasValue(k);
      assert before + [Check(k)] + [] == before + [Check(k)];
      if result.None? {
        Others(between, k);
        RunConcat(start, before + [Check(k)], between);
        assert before + [Check(k)] + between + [Erase(k)] == before + [Check(k)] + (between + [Erase(k)]);
        EraseExpired(k);
      }
      ReturnedIsOut(Value(), k);
    }
  }

  /** No step of the call at k itself. */
  predicate OfOthers(steps: seq<Step>, k: nat) {
    Register(k) !in steps && Check(k) !in steps && Erase(k) !in steps
  }

  lemma {:induction false} OthersKeep(s: State, steps: seq<Step>, k: nat)
    requires Inv(s) && k < |s.calls| && OfOthers(steps, k)
    ensures var e := Run(s, steps);
      Inv(e) && k < |e.calls| && e.calls[k].phase == s.calls[k].phase && e.calls[k].id == s.calls[k].id
    decreases |steps|
  {
    hide Inv;
    if steps != [] {
      var init, last := steps[..|steps| - 1], steps[|steps| - 1];
      OthersKeep(s, init, k);
      if Enabled(Run(s, init), last) { StepKeeps(Run(s, init), last); }
    }
  }

  lemma {:induction false} RunConcat(s: State, a: seq<Step>, b: seq<Step>)
    ensures Run(s, a + b) == Run(Run(s, a), b)
    decreases |b|
  {
    if b == [] {
      assert a + b == a;
    } else {
      var init, last := b[..|b| - 1], b[|b| - 1];
      RunConcat(s, a, init);
      assert a + b == (a + init) + [last];
    }
  }

  /** A call that waits and is sent a response before its test returns exactly that response, whatever else happens
      in between: neither a second response nor another call takes it away. */
  lemma Answered(s: State, k: nat, r: Response, steps: seq<Step>)
    requires Inv(s) && k < |s.calls| && s.calls[k].phase == Waiting && s.calls[k].value == None && r.id == s.calls[k].id
    requires OfOthers(steps, k)
    ensures var e := Run(s, [Receive(r)] + steps + [Check(k)]); k < |e.calls| && e.calls[k].phase == Returned(Some(r))
  {
    var first := Next(s, Receive(r));
    assert s.futureMap[r.id] == k;
    ReceiveKeeps(s, r);
    OneStep(s, Receive(r));
    OthersKeep(first, steps, k);
    ValueStays(first, steps, k, r);
    RunConcat(s, [Receive(r)], steps);
    RunConcat(s, [Receive(r)] + steps, [Check(k)]);
    OneStep(Run(first, steps), Check(k));
  }

  lemma OneStep(s: State, step: Step)
    ensures Run(s, [step]) == Next(s, step)
  {
    assert [step][..0] == [];
    assert Run(s, []) == s;
  }

  /** A promise that was set keeps its value. */
  lemma {:induction false} ValueStays(s: State, steps: seq<Step>, k: nat, r: Response)
    requires Inv(s) && k < |s.calls| && s.calls[k].value == Some(r) && OfOthers(steps, k)
    ensures var e := Run(s, steps); Inv(e) && k < |e.calls| && e.calls[k].value == Some(r)
    decreases |steps|
  {
    if steps != [] {
      var init, last := steps[..|steps| - 1], steps[|steps| - 1];
      ValueStays(s, init, k, r);
      if Enabled(Run(s, init), last) { StepKeeps(Run(s, init), last); }
    }
  }

  lemma ReturnedIsOut(s: State, k: nat)
    requires Inv(s) && k < |s.calls| && s.calls[k].phase.Returned?
    ensures s.calls[k].id in s.futureMap ==> s.futureMap[s.calls[k].id] != k
  {
  }
}
