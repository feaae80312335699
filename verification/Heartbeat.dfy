/**
 The heartbeat of one process: the list of owned headers, the shared worker and its stop flag, all guarded by one
 mutex, with any number of registering and unregistering threads. A worker's stores to headers are single steps.
 */
module Heartbeat {

  import opened Base

  /** The variables the mutex guards. `thread` is the worker that can still be joined. */
  datatype Globals<H> = Globals(headers: seq<H>, thread: Option<nat>, stop: bool)

  /** A worker waits to enter, walks over the list it found on entering, or has returned. */
  datatype Worker = Wants | Ticking(pass: seq<nat>, i: nat, counted: bool) | Gone

  /** `joiners` are the threads inside `unregister_heartbeat_owner` that wait for the worker they took away. */
  datatype State = State(g: Globals<nat>, workers: map<nat, Worker>, mutex: Option<nat>, joiners: map<nat, nat>)

  const Start: State := State(Globals([], None, false), map[], None, map[])

  /** The list without every occurrence of `h`, in order. */
  function Without<H(==)>(hs: seq<H>, h: H): (r: seq<H>)
    ensures h !in r && |r| <= |hs|
    ensures forall i :: 0 <= i < |r| ==> r[i] in hs
    ensures forall i :: 0 <= i < |hs| && hs[i] != h ==> hs[i] in r
  {
    if hs == [] then []
    else if hs[|hs| - 1] == h then Without(hs[..|hs| - 1], h)
    else Without(hs[..|hs| - 1], h) + [hs[|hs| - 1]]
  }

  /** The critical section of `register_heartbeat_owner`; `w` names the worker it may start. */
  function RegisterSection<H(==)>(g: Globals<H>, h: H, w: nat): (r: Globals<H>) {
    var hs := if h in g.headers then g.headers else g.headers + [h];
    if g.thread == None then Globals(hs, Some(w), false) else Globals(hs, g.thread, g.stop)
  }

  /** The critical section of `unregister_heartbeat_owner` takes the worker away when the list becomes empty. */
  predicate TakesWorker<H(==)>(g: Globals<H>, h: H) {
    Without(g.headers, h) == [] && g.thread.Some?
  }

  function UnregisterSection<H(==)>(g: Globals<H>, h: H): (r: Globals<H>) {
    if TakesWorker(g, h) then Globals([], None, true) else Globals(Without(g.headers, h), g.thread, g.stop)
  }

  datatype Action =
    | Register(h: nat, w: nat)
    | Unregister(h: nat, u: nat)
    | Joined(u: nat)
    | Enter(w: nat)
    | CountBeat(w: nat)
    | StampBeat(w: nat)
    | Leave(w: nat)

  predicate Is(s: State, w: nat, p: Worker) {
    w in s.workers && s.workers[w] == p
  }

  predicate InPass(s: State, w: nat, counted: bool) {
    && w in s.workers && s.workers[w].Ticking? && s.workers[w].counted == counted
    && s.workers[w].i < |s.workers[w].pass|
  }

  predicate Enabled(s: State, a: Action) {
    match a
    case Register(h, w) => s.mutex == None && w !in s.workers
    case Unregister(h, u) => s.mutex == None && u !in s.joiners
    case Joined(u) => u in s.joiners && Is(s, s.joiners[u], Gone)
    case Enter(w) => s.mutex == None && Is(s, w, Wants)
    case CountBeat(w) => InPass(s, w, false)
    case StampBeat(w) => InPass(s, w, true)
    case Leave(w) => w in s.workers && s.workers[w].Ticking? && s.workers[w].i >= |s.workers[w].pass|
  }

  function Apply(s: State, a: Action): (t: State)
    requires Enabled(s, a)
  {
    match a
    case Register(h, w) =>
      s.(g := RegisterSection(s.g, h, w), workers := if s.g.thread == None then s.workers[w := Wants] else s.workers)
    case Unregister(h, u) =>
      s.(g := UnregisterSection(s.g, h),
         joiners := if TakesWorker(s.g, h) then s.joiners[u := s.g.thread.value] else s.joiners)
    case Joined(u) => s.(joiners := s.joiners - {u})
    case Enter(w) =>
      if s.g.stop then s.(workers := s.workers[w := Gone])
      else s.(workers := s.workers[w := Ticking(s.g.headers, 0, false)], mutex := Some(w))
    case CountBeat(w) => s.(workers := s.workers[w := s.workers[w].(counted := true)])
    case StampBeat(w) => s.(workers := s.workers[w := s.workers[w].(i := s.workers[w].i + 1, counted := false)])
    case Leave(w) => s.(workers := s.workers[w := Wants], mutex := None)
  }

  predicate CanRun(s: State, acts: seq<Action>)
    decreases |acts|
  {
    acts == [] || (Enabled(s, acts[0]) && CanRun(Apply(s, acts[0]), acts[1..]))
  }

  function Run(s: State, acts: seq<Action>): (t: State)
    requires CanRun(s, acts)
    decreases |acts|
  {
    if acts == [] then s else Run(Apply(s, acts[0]), acts[1..])
  }

  // ---------------------------------------------------------------- what every interleaving keeps

  ghost predicate NoDuplicates<H>(hs: seq<H>) {
    forall i, j :: 0 <= i < j < |hs| ==> hs[i] != hs[j]
  }

  /** The worker that can be joined runs and has not been told to stop; without one the list is empty. */
  predicate Guarded(s: State) {
    match s.g.thread
    case None => s.g.headers == []
    case Some(w) => !s.g.stop && w in s.workers && s.workers[w] != Gone
  }

  /** A worker inside its pass holds the mutex, and the list is still the one it walks over. */
  ghost predicate PassesLocked(s: State) {
    forall w :: w in s.workers && s.workers[w].Ticking? ==> s.mutex == Some(w) && s.workers[w].pass == s.g.headers
  }

  /** A mutex that is held is held by a worker in its pass, which no stop flag stands against; and whoever is waited for
      is a worker. */
  ghost predicate WaitsOk(s: State) {
    && (s.mutex.Some? ==> !s.g.stop && s.mutex.value in s.workers && s.workers[s.mutex.value].Ticking?)
    && (forall u :: u in s.joiners ==> s.joiners[u] in s.workers)
  }

  ghost predicate Inv(s: State) {
    Guarded(s) && PassesLocked(s) && WaitsOk(s) && NoDuplicates(s.g.headers)
  }

  lemma {:induction false} WithoutKeeps<H>(hs: seq<H>, h: H)
    requires NoDuplicates(hs)
    ensures NoDuplicates(Without(hs, h))
  {
    if hs == [] {
    } else {
      var r := Without(hs[..|hs| - 1], h);
      WithoutKeeps(hs[..|hs| - 1], h);
      assert forall i :: 0 <= i < |r| ==> r[i] in r;
      assert hs[|hs| - 1] !in hs[..|hs| - 1];
    }
  }

  lemma SectionKeeps(s: State, a: Action)
    requires Inv(s) && Enabled(s, a) && (a.Register? || a.Unregister?)
    ensures Inv(Apply(s, a))
  {
    if a.Unregister? { WithoutKeeps(s.g.headers, a.h); }
  }

  lemma StepKeeps(s: State, a: Action)
    requires Inv(s) && Enabled(s, a)
    ensures Inv(Apply(s, a))
  {
    if a.Register? || a.Unregister? { SectionKeeps(s, a); }
  }

  lemma {:induction false} RunKeeps(s: State, acts: seq<Action>)
    requires Inv(s) && CanRun(s, acts)
    ensures Inv(Run(s, acts))
    decreases |acts|
  {
    if acts == [] {
    } else {
      StepKeeps(s, acts[0]);
      RunKeeps(Apply(s, acts[0]), acts[1..]);
    }
  }

  /** In every interleaving: a non-empty owner list has a joinable, running worker that has not been told to stop; a
      set stop flag means an empty list; no header is listed twice; and at most one worker is inside a pass. */
  lemma HeartbeatSafety(acts: seq<Action>)
    requires CanRun(Start, acts)
    ensures var t := Run(Start, acts);
            && (t.g.headers != [] ==> t.g.thread.Some? && !t.g.stop && t.g.thread.value in t.workers
                                      && t.workers[t.g.thread.value] != Gone)
            && (t.g.stop ==> t.g.headers == [] && t.g.thread == None)
            && NoDuplicates(t.g.headers)
            && forall v, w :: v in t.workers && t.workers[v].Ticking? && w in t.workers && t.workers[w].Ticking? ==>
                 v == w
  {
    RunKeeps(Start, acts);
  }

  // ---------------------------------------------------------------- no tick after unregister

  /** The header a worker's step stores to. */
  function Touched(s: State, a: Action): (r: Option<nat>)
    requires Enabled(s, a)
  {
    if a.CountBeat? || a.StampBeat? then Some(s.workers[a.w].pass[s.workers[a.w].i]) else None
  }

  /** Some step of the run is a tick of `h`. */
  predicate Ticks(s: State, acts: seq<Action>, h: nat)
    requires CanRun(s, acts)
    decreases |acts|
  {
    acts != [] && (Touched(s, acts[0]) == Some(h) || Ticks(Apply(s, acts[0]), acts[1..], h))
  }

  ghost predicate Registers(acts: seq<Action>, h: nat) {
    exists i :: 0 <= i < |acts| && acts[i].Register? && acts[i].h == h
  }

  lemma {:induction false} UnlistedStaysUnticked(s: State, acts: seq<Action>, h: nat)
    requires Inv(s) && CanRun(s, acts) && h !in s.g.headers && !Registers(acts, h)
    ensures !Ticks(s, acts, h) && h !in Run(s, acts).g.headers
    decreases |acts|
  {
    if acts == [] {
    } else {
      assert !(acts[0].Register? && acts[0].h == h);
      assert forall i :: 0 <= i < |acts[1..]| ==> acts[1..][i] == acts[i + 1];
      StepKeeps(s, acts[0]);
      UnlistedStaysUnticked(Apply(s, acts[0]), acts[1..], h);
    }
  }

  /** Once the critical section of its unregister has run, no worker touches a header until it is registered again. */
  lemma NoTickAfterUnregister(before: seq<Action>, h: nat, u: nat, after: seq<Action>)
    requires CanRun(Start, before) && Enabled(Run(Start, before), Unregister(h, u))
    requires CanRun(Apply(Run(Start, before), Unregister(h, u)), after) && !Registers(after, h)
    ensures !Ticks(Apply(Run(Start, before), Unregister(h, u)), after, h)
  {
    RunKeeps(Start, before);
    StepKeeps(Run(Start, before), Unregister(h, u));
    UnlistedStaysUnticked(Apply(Run(Start, before), Unregister(h, u)), after, h);
  }

  // ---------------------------------------------------------------- whether unregister returns

  ghost predicate NoRegister(acts: seq<Action>) {
    forall i :: 0 <= i < |acts| ==> !acts[i].Register?
  }

  ghost predicate Enters(acts: seq<Action>, w: nat) {
    exists i :: 0 <= i < |acts| && acts[i] == Enter(w)
  }

  /** The list is empty, the worker has been taken away and told to stop, and nobody is inside a pass. */
  ghost predicate Stopped(s: State) {
    s.g == Globals([], None, true) && s.mutex == None && forall w :: w in s.workers ==> !s.workers[w].Ticking?
  }

  lemma StopIsStopped(s: State)
    requires Inv(s) && s.g.stop
    ensures Stopped(s)
  {
  }

  lemma StoppedStep(s: State, a: Action)
    requires Stopped(s) && Enabled(s, a) && !a.Register?
    ensures Stopped(Apply(s, a)) && Apply(s, a).joiners.Keys <= s.joiners.Keys
    ensures forall u :: u in Apply(s, a).joiners ==> Apply(s, a).joiners[u] == s.joiners[u]
    ensures forall w :: Is(s, w, Gone) || a == Enter(w) ==> Is(Apply(s, a), w, Gone)
  {
  }

  /** While nobody registers, a set stop flag stays set, nobody new waits, and a worker that enters is gone. */
  lemma {:induction false} StopStays(s: State, acts: seq<Action>, w: nat)
    requires Stopped(s) && CanRun(s, acts) && NoRegister(acts)
    ensures Stopped(Run(s, acts))
    ensures forall u :: u in Run(s, acts).joiners ==> u in s.joiners && Run(s, acts).joiners[u] == s.joiners[u]
    ensures Is(s, w, Gone) || Enters(acts, w) ==> Is(Run(s, acts), w, Gone)
    decreases |acts|
  {
    if acts == [] {
    } else {
      var t, rest := Apply(s, acts[0]), acts[1..];
      StoppedStep(s, acts[0]);
      assert forall i :: 0 <= i < |rest| ==> rest[i] == acts[i + 1];
      StopStays(t, rest, w);
      if Enters(acts, w) && acts[0] != Enter(w) {
        var i :| 0 <= i < |acts| && acts[i] == Enter(w);
        assert rest[i - 1] == Enter(w);
      }
    }
  }

  /** The worker inside a pass can finish it alone, which frees the mutex and changes nothing else. */
  lemma {:induction false} FinishPass(s: State, w: nat) returns (acts: seq<Action>)
    requires w in s.workers && s.workers[w].Ticking?
    ensures CanRun(s, acts) && NoRegister(acts)
    ensures Run(s, acts) == s.(workers := s.workers[w := Wants], mutex := None)
    decreases |s.workers[w].pass| - s.workers[w].i, if s.workers[w].counted then 0 else 1
  {
    var c := s.workers[w];
    if c.i >= |c.pass| {
      acts := [Leave(w)];
      assert acts[1..] == [] && Run(s, acts) == Run(Apply(s, Leave(w)), acts[1..]);
    } else {
      var a := if c.counted then StampBeat(w) else CountBeat(w);
      var t := Apply(s, a);
      var rest := FinishPass(t, w);
      acts := [a] + rest;
      assert acts[1..] == rest;
      assert t.workers[w := Wants] == s.workers[w := Wants];
    }
  }

  /** Unless the stop flag is set or the worker is gone, the awaited worker can enter again and go on ticking. */
  lemma CanEnterAgain(s: State, w: nat) returns (acts: seq<Action>)
    requires Inv(s) && !s.g.stop && w in s.workers && s.workers[w] != Gone
    ensures CanRun(s, acts) && NoRegister(acts) && Enters(acts, w)
    ensures Run(s, acts).joiners == s.joiners && w in Run(s, acts).workers && Run(s, acts).workers[w].Ticking?
  {
    var pass := [];
    if s.mutex.Some? {
      pass := FinishPass(s, s.mutex.value);
    }
    RunSnoc(s, pass, Enter(w));
    acts := pass + [Enter(w)];
    assert acts[|pass|] == Enter(w);
  }

  /** However the run goes on without a register: once the awaited worker has entered again, the wait is over. */
  ghost predicate WaitEnds(s: State, u: nat)
    requires u in s.joiners
  {
    forall acts :: CanRun(s, acts) && NoRegister(acts) && Enters(acts, s.joiners[u]) && u in Run(s, acts).joiners ==>
      Enabled(Run(s, acts), Joined(u))
  }

  /** In every reachable state, a thread that waits in `unregister` is sure to be released by the worker's next entry,
      as long as nobody registers, exactly when the stop flag is still set or the worker is gone already. */
  lemma WaitEndsIff(before: seq<Action>, s: State, u: nat)
    requires CanRun(Start, before) && s == Run(Start, before) && u in s.joiners
    ensures WaitEnds(s, u) <==> s.g.stop || Is(s, s.joiners[u], Gone)
  {
    RunKeeps(Start, before);
    var w := s.joiners[u];
    if s.g.stop {
      StopIsStopped(s);
      forall acts | CanRun(s, acts) && NoRegister(acts) && Enters(acts, w) && u in Run(s, acts).joiners
        ensures Enabled(Run(s, acts), Joined(u))
      {
        StopStays(s, acts, w);
      }
    } else if Is(s, w, Gone) {
      forall acts | CanRun(s, acts) && Enters(acts, w) ensures false {
        GoneNeverEnters(s, acts, w);
      }
    } else {
      var acts := CanEnterAgain(s, w);
      assert !Enabled(Run(s, acts), Joined(u));
    }
  }

  lemma {:induction false} GoneNeverEnters(s: State, acts: seq<Action>, w: nat)
    requires Is(s, w, Gone) && CanRun(s, acts)
    ensures !Enters(acts, w)
    decreases |acts|
  {
    if acts == [] {
    } else {
      var rest := acts[1..];
      assert Is(Apply(s, acts[0]), w, Gone);
      GoneNeverEnters(Apply(s, acts[0]), rest, w);
      forall i | 0 <= i < |acts| ensures acts[i] != Enter(w) {
        if i > 0 { assert acts[i] == rest[i - 1]; }
      }
    }
  }

  lemma {:induction false} RunSnoc(s: State, acts: seq<Action>, a: Action)
    requires CanRun(s, acts) && Enabled(Run(s, acts), a)
    ensures CanRun(s, acts + [a]) && Run(s, acts + [a]) == Apply(Run(s, acts), a)
    decreases |acts|
  {
    if acts == [] {
      assert [] + [a] == [a];
    } else {
      RunSnoc(Apply(s, acts[0]), acts[1..], a);
      assert (acts + [a])[1..] == acts[1..] + [a];
    }
  }

  /** A thread waits in `unregister` for worker 0, and a register in between has cleared the stop flag. */
  const Waiting: State :=
    State(Globals([8], Some(1), false), map[0 := Wants, 1 := Wants], None, map[5 := 0])

  /** A register between the critical section of an unregister and its join resets the stop flag. */
  lemma WaitingIsReachable()
    ensures var acts := [Register(7, 0), Unregister(7, 5), Register(8, 1)];
            CanRun(Start, acts) && Run(Start, acts) == Waiting
  {
    var s1 := Apply(Start, Register(7, 0));
    assert s1 == State(Globals([7], Some(0), false), map[0 := Wants], None, map[]);
    assert Without([7], 7) == [];
    var s2 := Apply(s1, Unregister(7, 5));
    assert s2 == State(Globals([], None, true), map[0 := Wants], None, map[5 := 0]);
    assert Run(Start, []) == Start;
    RunSnoc(Start, [], Register(7, 0));
    RunSnoc(Start, [] + [Register(7, 0)], Unregister(7, 5));
    RunSnoc(Start, [] + [Register(7, 0)] + [Unregister(7, 5)], Register(8, 1));
    assert Apply(s2, Register(8, 1)) == Waiting;
    assert [] + [Register(7, 0)] + [Unregister(7, 5)] + [Register(8, 1)]
        == [Register(7, 0), Unregister(7, 5), Register(8, 1)];
  }

  /** From there the worker can make pass after pass and come back to the same state, so the wait has no bound. */
  lemma WaitCanRepeat()
    ensures var acts := [Enter(0), CountBeat(0), StampBeat(0), Leave(0)];
            CanRun(Waiting, acts) && Run(Waiting, acts) == Waiting && 5 in Waiting.joiners
  {
    var s := Waiting;
    var s1 := Apply(s, Enter(0));
    var s2 := Apply(s1, CountBeat(0));
    var s3 := Apply(s2, StampBeat(0));
    var s4 := Apply(s3, Leave(0));
    assert s4.workers == s.workers;
    assert Run(s, []) == s;
    RunSnoc(s, [], Enter(0));
    RunSnoc(s, [] + [Enter(0)], CountBeat(0));
    RunSnoc(s, [] + [Enter(0)] + [CountBeat(0)], StampBeat(0));
    RunSnoc(s, [] + [Enter(0)] + [CountBeat(0)] + [StampBeat(0)], Leave(0));
    assert [] + [Enter(0)] + [CountBeat(0)] + [StampBeat(0)] + [Leave(0)]
        == [Enter(0), CountBeat(0), StampBeat(0), Leave(0)];
  }
}
