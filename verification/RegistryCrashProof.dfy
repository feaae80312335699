/** The crash-safety invariant of the registry holds in every reachable state. */
module RegistryCrashProof {
  import opened Base
  import opened RegistryTable
  import opened RegistryOps
  import opened RegistryCrash

  // ---------------------------------------------------------------- recovery

  /** Tables whose kept slots agree repair to the same map. */
  lemma SameKept(t: Table, u: Table)
    requires Sized(t) && Sized(u) && |t.slots| == |u.slots| && DistinctKept(t)
    requires forall j: nat :: j < |t.slots| ==>
               Kept(t, j) == Kept(u, j) && (Kept(t, j) ==> t.slots[j].body == u.slots[j].body)
    ensures DistinctKept(u) && Dict(Repair(t)) == Dict(Repair(u))
  {
    assert forall j: nat :: j < |t.slots| ==> Repair(t).bits[j] == Kept(t, j) && Repair(u).bits[j] == Kept(u, j);
    DictSame(Repair(t), Repair(u), |t.slots|);
    forall i, j | 0 <= i < j < |u.slots| && u.bits[i] && u.bits[j] && Healthy(u, i) && Healthy(u, j)
      ensures Key(u.slots[i].body) != Key(u.slots[j].body)
    {
      assert Kept(t, i) && Kept(t, j);
    }
  }

  /** A table without damage repairs to its own map. */
  lemma HealthyRepair(t: Table)
    requires Sized(t) && DistinctKept(t) && forall j :: 0 <= j < |t.slots| ==> Healthy(t, j)
    ensures Distinct(t) && Dict(Repair(t)) == Dict(t)
  {
    DictSame(Repair(t), t, |t.slots|);
  }

  /** A store that touches only slot `i`, which is kept neither before nor after, changes nothing the repair keeps. */
  lemma DamagedSlotStep(s: State, u: Table, i: nat)
    requires Sized(s.t) && Salvage(s) && Sized(u) && i < |s.t.slots| && |u.slots| == |s.t.slots|
    requires !Kept(s.t, i) && !Kept(u, i)
    requires forall j :: 0 <= j < |u.slots| && j != i ==> u.slots[j] == s.t.slots[j] && u.bits[j] == s.t.bits[j]
    ensures Salvage(s.(t := u))
  {
    SameKept(s.t, u);
  }

  lemma {:induction false} CountSame(a: seq<bool>, b: seq<bool>, k: nat)
    requires k <= |a| && k <= |b| && forall j :: 0 <= j < k ==> a[j] == b[j]
    ensures CountBelow(a, k) == CountBelow(b, k)
  {
    if k == 0 {
    } else {
      CountSame(a, b, k - 1);
    }
  }

  lemma OddOr(q: bv32)
    ensures Odd(q | 1)
  {
  }

  /** Stores at slot `i` do not disturb what has been swept before it. */
  lemma SweptSame(t: Table, u: Table, i: nat, count: nat)
    requires Sized(t) && Sized(u) && |u.slots| == |t.slots| && Swept(t, i, count)
    requires forall j :: 0 <= j < i ==> u.slots[j] == t.slots[j] && u.bits[j] == t.bits[j]
    ensures Swept(u, i, count)
  {
    CountSame(t.bits, u.bits, i);
    forall j | 0 <= j < i ensures Healthy(u, j) {
      assert Healthy(t, j);
    }
  }

  lemma OddWordStore(t: Table, i: nat, q: bv32)
    requires Sized(t) && i < |t.slots|
    ensures var u := WithSeq(t, i, q | 1);
            && Sized(u) && |u.slots| == |t.slots| && !Kept(u, i) && Odd(u.slots[i].seq_)
            && forall j :: 0 <= j < |u.slots| && j != i ==> u.slots[j] == t.slots[j] && u.bits[j] == t.bits[j]
  {
    OddOr(q);
  }

  lemma RecoverMarks(s: State, i: nat, u: Table)
    requires Sized(s.t) && s.pc.Recover? && Salvage(s) && Swept(s.t, i, s.pc.count)
    requires i < |s.t.slots| && !Healthy(s.t, i)
    requires u == WithSeq(s.t, i, s.t.slots[i].seq_ | 1)
    ensures Sized(u) && |u.slots| == |s.t.slots|
    ensures Salvage(s.(t := u)) && Swept(u, i, s.pc.count) && Odd(u.slots[i].seq_)
  {
    OddWordStore(s.t, i, s.t.slots[i].seq_);
    DamagedSlotStep(s, u, i);
    SweptSame(s.t, u, i, s.pc.count);
  }

  lemma RecoverSkips(s: State)
    requires Inv(s) && s.mutex.Held? && s.pc.Recover? && (s.pc.i >= |s.t.slots| || Healthy(s.t, s.pc.i))
    ensures Inv(Work(s))
  {
  }

  lemma RecoverStep(s: State)
    requires Inv(s) && s.mutex.Held? && s.pc.Recover?
    ensures Inv(Work(s))
  {
    var i := s.pc.i;
    if i < |s.t.slots| && !Healthy(s.t, i) {
      var u := WithSeq(s.t, i, s.t.slots[i].seq_ | 1);
      RecoverMarks(s, i, u);
      assert Work(s) == s.(t := u, pc := Marked(i, s.pc.count, s.t.slots[i].seq_));
    } else {
      RecoverSkips(s);
    }
  }

  lemma MarkedStep(s: State)
    requires Inv(s) && s.mutex.Held? && s.pc.Marked?
    ensures Inv(Work(s))
  {
    DamagedSlotStep(s, Work(s).t, s.pc.i);
    SweptSame(s.t, Work(s).t, s.pc.i, s.pc.count);
  }

  lemma WipedStep(s: State)
    requires Inv(s) && s.mutex.Held? && s.pc.Wiped?
    ensures Inv(Work(s))
  {
    DamagedSlotStep(s, Work(s).t, s.pc.i);
    SweptSame(s.t, Work(s).t, s.pc.i, s.pc.count);
  }

  lemma EvenedStep(s: State)
    requires Inv(s) && s.mutex.Held? && s.pc.Evened?
    ensures Inv(Work(s))
  {
    var u, i := Work(s).t, s.pc.i;
    DamagedSlotStep(s, u, i);
    SweptSame(s.t, u, i, s.pc.count);
    assert Healthy(u, i);
  }

  lemma CountedStep(s: State)
    requires Inv(s) && s.mutex.Held? && s.pc.Counted?
    ensures Inv(Work(s))
  {
    SweptIsGood(s.t, s.pc.count);
  }

  /** A table swept to its end becomes good with the count of the sweep. */
  lemma SweptIsGood(t: Table, count: nat)
    requires Sized(t) && DistinctKept(t) && Swept(t, |t.slots|, count)
    ensures Good(t.(count := count)) && Dict(t.(count := count)) == Dict(Repair(t))
  {
    var u := t.(count := count);
    HealthyRepair(t);
    DictSame(t, u, |u.slots|);
    forall j | 0 <= j < |u.slots| ensures Healthy(u, j) && !Odd(u.slots[j].seq_) {
      assert Healthy(t, j);
    }
  }

  // ---------------------------------------------------------------- operations

  /** A table that differs from a good one in slot `i` only repairs to that table with slot `i` kept or cleared. */
  lemma RepairOneSlot(g: Table, t: Table, i: nat)
    requires Good(g) && Sized(t) && |t.slots| == |g.slots| && i < |g.slots|
    requires t.slots == g.slots[i := t.slots[i]] && t.bits == g.bits[i := t.bits[i]]
    requires Kept(t, i) ==> FreshExcept(g, i, Key(t.slots[i].body))
    ensures DistinctKept(t) && Dict(Repair(t)) == PutDict(g, i, t.slots[i].body, Kept(t, i))
  {
    forall j | 0 <= j < |t.slots| && j != i ensures Healthy(t, j) {
      assert Healthy(g, j);
    }
    var e, b := RepairedEntry(t, i), Kept(t, i);
    var r := Repair(t);
    assert r.bits == g.bits[i := b] && r.slots == g.slots[i := e];
    assert r == Put(g, i, e, b, r.count);
    PutMeaning(g, i, e, b, r.count);
  }

  lemma FreeSlotMeansRoom(g: Table, i: nat)
    requires Good(g) && i < |g.slots| && !g.bits[i]
    ensures |Dict(g)| < |g.slots|
  {
    FreeInSound(g);
  }

  /** The map of a good table with the body of an occupied slot put back is the same map. */
  lemma PutBack(g: Table, i: nat)
    requires Good(g) && i < |g.slots| && g.bits[i]
    ensures PutDict(g, i, g.slots[i].body, true) == Dict(g)
  {
    DictAt(g, i, Key(g.slots[i].body));
  }

  lemma InterruptedRegister(g: Table, op: Op, i: nat, body: Body, kept: bool)
    requires Good(g) && op.Register? && Named(op) && Target(g, op, i)
    requires kept ==> (g.bits[i] && body == g.slots[i].body) || body == op.body
    ensures Allowed(PutDict(g, i, body, kept), Dict(g), op, |g.slots|)
  {
    if g.bits[i] { DictAt(g, i, Key(op.body)); } else { FreeSlotMeansRoom(g, i); }
    if kept {
      if body == op.body {
        assert PutDict(g, i, body, true) == Dict(g)[Key(op.body) := op.body];
      } else {
        PutBack(g, i);
      }
    }
  }

  lemma InterruptedUnregister(g: Table, op: Op, i: nat, body: Body, kept: bool)
    requires Good(g) && op.Unregister? && Target(g, op, i) && (kept ==> body == g.slots[i].body)
    ensures Allowed(PutDict(g, i, body, kept), Dict(g), op, |g.slots|)
  {
    if kept { PutBack(g, i); }
  }

  /** Whatever an interrupted operation left in its slot, the repaired map is the old one, the new one, or the old one
      without the name. */
  lemma InterruptedOp(g: Table, t: Table, op: Op, i: nat)
    requires Good(g) && Named(op) && Target(g, op, i) && Sized(t) && |t.slots| == |g.slots|
    requires t.slots == g.slots[i := t.slots[i]] && t.bits == g.bits[i := t.bits[i]]
    requires t.slots[i].body == g.slots[i].body || t.slots[i].body == SourceBody(op)
    ensures DistinctKept(t) && Allowed(Dict(Repair(t)), Dict(g), op, |g.slots|)
  {
    assert Healthy(g, i);
    RepairOneSlot(g, t, i);
    if op.Register? {
      InterruptedRegister(g, op, i, t.slots[i].body, Kept(t, i));
    } else {
      InterruptedUnregister(g, op, i, t.slots[i].body, Kept(t, i));
    }
  }

  /** The scan of a register finds its own slot, a free slot, or a full table. */
  lemma RegisterTarget(t: Table, op: Op)
    requires Good(t) && op.Register?
    ensures var i, f := Find(t, Key(op.body), 0), FirstFree(t, 0);
            && (i < |t.slots| ==> Target(t, op, i) && t.bits[i])
            && (i == |t.slots| && f < |t.slots| ==> Target(t, op, f) && !t.bits[f])
            && (i == |t.slots| && f == |t.slots| ==> AfterOp(Dict(t), op, |t.slots|) == Dict(t))
  {
    FindInSound(t, Key(op.body));
    FreeInSound(t);
  }

  lemma ReadyRegister(s: State)
    requires Inv(s) && s.mutex.Held? && s.pc.Ready? && s.op.Register?
    ensures Inv(Work(s))
  {
    RegisterTarget(s.t, s.op);
    var i := Find(s.t, Key(s.op.body), 0);
    if i < |s.t.slots| {
      assert s.t.slots[i := s.t.slots[i]] == s.t.slots && s.t.bits[i := true] == s.t.bits;
    }
  }

  lemma ReadyStep(s: State)
    requires Inv(s) && s.mutex.Held? && s.pc.Ready?
    ensures Inv(Work(s))
  {
    var t := s.t;
    match s.op
    case Register(_, _) => ReadyRegister(s);
    case Unregister(key) =>
      FindInSound(t, key);
      var i := Find(t, key, 0);
      if i < |t.slots| {
        assert t.slots[i := t.slots[i]] == t.slots;
      } else {
        assert Dict(t) - {key} == Dict(t);
      }
    case Inspect =>
  }

  lemma BitStep(s: State)
    requires Inv(s) && s.mutex.Held? && (s.pc.SetBit? || s.pc.AddOne? || s.pc.DropBit?)
    ensures Inv(Work(s))
  {
    var g, i := s.from, s.pc.i;
    assert g.slots[i := g.slots[i]] == g.slots;
  }

  lemma UpdateTwice<T>(xs: seq<T>, i: nat, x: T, y: T)
    requires i < |xs|
    ensures xs[i := x][i := y] == xs[i := y]
  {
  }

  lemma NextEntry(e: Entry, op: Op, stage: nat)
    requires stage < 4
    ensures PublishStore(PublishedTo(e, op, stage), op, stage, e.seq_) == PublishedTo(e, op, stage + 1)
  {
  }

  /** The store of `publish_slot` after `stage` others over the slots `es`. */
  lemma NextStore(es: seq<Entry>, op: Op, i: nat, stage: nat)
    requires i < |es| && stage < 4
    ensures var now := es[i := PublishedTo(es[i], op, stage)];
            now[i := PublishStore(now[i], op, stage, es[i].seq_)] == es[i := PublishedTo(es[i], op, stage + 1)]
  {
    NextEntry(es[i], op, stage);
    UpdateTwice(es, i, PublishedTo(es[i], op, stage), PublishedTo(es[i], op, stage + 1));
  }

  /** The table in the middle of a publish, relative to the table `g` it started from. */
  function Publishing(g: Table, op: Op, i: nat, stage: nat): (t: Table)
    requires Sized(g) && i < |g.slots|
    ensures Sized(t) && |t.slots| == |g.slots|
  {
    Table(OpCount(g, op, i), OpBits(g, op, i), g.slots[i := PublishedTo(g.slots[i], op, stage)])
  }

  lemma PublishWork(s: State)
    requires Inv(s) && s.mutex.Held? && s.pc.Publish? && s.pc.stage < 3
    ensures var g, i, stage := s.from, s.pc.i, s.pc.stage;
            Work(s) == s.(t := Publishing(g, s.op, i, stage + 1), pc := Publish(i, stage + 1, g.slots[i].seq_))
  {
    NextStore(s.from.slots, s.op, s.pc.i, s.pc.stage);
  }

  /** The stores of `publish_slot` before the last. */
  lemma PublishingStep(s: State)
    requires Inv(s) && s.mutex.Held? && s.pc.Publish? && s.pc.stage < 3
    ensures Inv(Work(s))
  {
    PublishWork(s);
  }

  /** The last store of `publish_slot` completes a register, or leaves the bit and count to an unregister. */
  lemma PublishedStep(s: State)
    requires Inv(s) && s.mutex.Held? && s.pc.Publish? && s.pc.stage == 3
    ensures Inv(Work(s))
  {
    var g, i := s.from, s.pc.i;
    LastStore(s);
    if s.op.Register? {
      RegisterDone(g, s.op, i);
    }
  }

  lemma LastStore(s: State)
    requires Inv(s) && s.mutex.Held? && s.pc.Publish? && s.pc.stage == 3
    ensures var g, i := s.from, s.pc.i;
            Work(s) == s.(t := Table(OpCount(g, s.op, i), OpBits(g, s.op, i),
                                     g.slots[i := Published(g.slots[i], SourceBody(s.op))]),
                          pc := if s.op.Register? then Finished else DropBit(i))
  {
    NextStore(s.from.slots, s.op, s.pc.i, 3);
  }

  lemma RegisterDone(g: Table, op: Op, i: nat)
    requires Good(g) && |g.slots| < U32 && op.Register? && Named(op) && Target(g, op, i)
    ensures var u := Table(OpCount(g, op, i), OpBits(g, op, i), g.slots[i := Published(g.slots[i], op.body)]);
            Good(u) && Dict(u) == AfterOp(Dict(g), op, |g.slots|)
  {
    RegisterOver(g, i, op.body);
    IncrementExact(g, i);
    if g.bits[i] { DictAt(g, i, Key(op.body)); } else { FreeSlotMeansRoom(g, i); }
  }

  lemma IncrementExact(g: Table, i: nat)
    requires Good(g) && |g.slots| < U32 && i < |g.slots|
    ensures !g.bits[i] ==> Increment(g.count) == g.count + 1
  {
    if !g.bits[i] {
      AllBitsCount(g.bits, |g.bits|);
    }
  }

  lemma SubOneStep(s: State)
    requires Inv(s) && s.mutex.Held? && s.pc.SubOne?
    ensures Inv(Work(s))
  {
    var g, i := s.from, s.pc.i;
    UnregisterOver(g, i, s.op.key);
    assert Work(s).t == Put(g, i, Published(g.slots[i], Empty()), false, Decrement(g.count));
  }

  // ---------------------------------------------------------------- death of the holder

  lemma DiesInOp(s: State)
    requires Inv(s) && s.mutex.Held?
    requires s.pc.SetBit? || s.pc.AddOne? || s.pc.Publish? || s.pc.DropBit? || s.pc.SubOne?
    ensures Salvage(s)
  {
    OneSlotWritten(s);
    InterruptedOp(s.from, s.t, s.op, s.pc.i);
  }

  lemma OneUpdate<T>(xs: seq<T>, i: nat, x: T)
    requires i < |xs|
    ensures xs[i := x] == xs[i := xs[i := x][i]] && xs == xs[i := xs[i]]
  {
  }

  /** An operation under way has changed its own slot and bit only, and the slot holds the old body or the new one. */
  lemma OneSlotWritten(s: State)
    requires Inv(s) && s.mutex.Held?
    requires s.pc.SetBit? || s.pc.AddOne? || s.pc.Publish? || s.pc.DropBit? || s.pc.SubOne?
    ensures var g, t, i := s.from, s.t, s.pc.i;
            && Target(g, s.op, i) && |t.slots| == |g.slots|
            && t.slots == g.slots[i := t.slots[i]] && t.bits == g.bits[i := t.bits[i]]
            && (t.slots[i].body == g.slots[i].body || t.slots[i].body == SourceBody(s.op))
  {
    var g, i := s.from, s.pc.i;
    OneUpdate(g.bits, i, true);
    OneUpdate(g.bits, i, false);
    OneUpdate(g.slots, i, s.t.slots[i]);
  }

  lemma DiesKeeps(s: State)
    requires Inv(s) && s.mutex.Held?
    ensures Inv(Apply(s, Dies))
  {
    if s.pc.SetBit? || s.pc.AddOne? || s.pc.Publish? || s.pc.DropBit? || s.pc.SubOne? {
      DiesInOp(s);
    } else if s.pc.Repaired? || s.pc.Ready? || s.pc.Finished? {
      RepairKeepsGood(s.t);
    }
  }

  // ---------------------------------------------------------------- every run

  lemma RecoveryKeeps(s: State)
    requires Inv(s) && s.mutex.Held?
    requires s.pc.Recover? || s.pc.Marked? || s.pc.Wiped? || s.pc.Evened? || s.pc.Counted? || s.pc.Repaired?
    ensures Inv(Work(s))
  {
    if s.pc.Recover? { RecoverStep(s); }
    if s.pc.Marked? { MarkedStep(s); }
    if s.pc.Wiped? { WipedStep(s); }
    if s.pc.Evened? { EvenedStep(s); }
    if s.pc.Counted? { CountedStep(s); }
  }

  lemma OperationKeeps(s: State)
    requires Inv(s) && s.mutex.Held?
    requires s.pc.SetBit? || s.pc.AddOne? || s.pc.Publish? || s.pc.DropBit? || s.pc.SubOne?
    ensures Inv(Work(s))
  {
    if s.pc.Publish? {
      if s.pc.stage < 3 { PublishingStep(s); } else { PublishedStep(s); }
    } else if s.pc.SubOne? {
      SubOneStep(s);
    } else {
      BitStep(s);
    }
  }

  lemma WorkKeeps(s: State)
    requires Inv(s) && s.mutex.Held?
    ensures Inv(Work(s))
  {
    if s.pc.Ready? {
      ReadyStep(s);
    } else if s.pc.SetBit? || s.pc.AddOne? || s.pc.Publish? || s.pc.DropBit? || s.pc.SubOne? {
      OperationKeeps(s);
    } else if !s.pc.Finished? {
      RecoveryKeeps(s);
    }
  }

  lemma WorkSize(s: State)
    requires Sized(s.t) && !s.pc.Outside?
    ensures |Work(s).t.slots| == |s.t.slots|
  {
  }

  lemma StepKeeps(s: State, a: Action)
    requires Inv(s) && Enabled(s, a)
    ensures Inv(Apply(s, a)) && |Apply(s, a).t.slots| == |s.t.slots|
  {
    match a
    case Lock(_) =>
    case Step => WorkKeeps(s); WorkSize(s);
    case MarkFails =>
    case Dies => DiesKeeps(s);
  }

  lemma {:induction false} RunKeeps(s: State, acts: seq<Action>)
    requires Inv(s) && CanRun(s, acts)
    ensures Inv(Run(s, acts)) && |Run(s, acts).t.slots| == |s.t.slots|
    decreases |acts|
  {
    if acts == [] {
    } else {
      StepKeeps(s, acts[0]);
      RunKeeps(Apply(s, acts[0]), acts[1..]);
    }
  }

  // ---------------------------------------------------------------- results

  /** `acts` is a run of a freshly created registry of `n` slots that ends in `s`. */
  ghost predicate Reaches(n: nat, acts: seq<Action>, s: State) {
    CanRun(Initial(n), acts) && s == Run(Initial(n), acts)
  }

  lemma InitialInv(n: nat)
    requires n < U32
    ensures Inv(Initial(n))
  {
    FreshIsGood(n);
  }

  lemma ReachableInv(n: nat, acts: seq<Action>, s: State)
    requires n < U32 && Reaches(n, acts, s)
    ensures Inv(s) && |s.t.slots| == n
  {
    InitialInv(n);
    RunKeeps(Initial(n), acts);
  }

  /** In every run with any number of deaths, including deaths inside recovery: a locker that gets to work finds a
      consistent table that stands for the old map, the new map, or the old map without the name the last writer was
      writing, and every other name keeps its entry. A released mutex means the last operation took full effect. */
  lemma CrashSafety(n: nat, acts: seq<Action>, s: State)
    requires n < U32 && Reaches(n, acts, s)
    ensures s.mutex.Held? && s.pc.Ready? ==>
              Good(s.t) &&
              var m, op := Dict(s.t), s.last;
              && (op.Register? ==>
                    || m == s.base || m == s.base - {Key(op.body)}
                    || (m == s.base[Key(op.body) := op.body] && (Key(op.body) in s.base || |s.base| < n)))
              && (op.Unregister? ==> m == s.base || m == s.base - {op.key})
              && (op.Inspect? ==> m == s.base)
    ensures s.mutex.Unlocked? ==>
              Good(s.t) &&
              var m, op := Dict(s.t), s.last;
              && (op.Register? ==>
                    m == if Key(op.body) in s.base || |s.base| < n then s.base[Key(op.body) := op.body] else s.base)
              && (op.Unregister? ==> m == s.base - {op.key})
              && (op.Inspect? ==> m == s.base)
  {
    ReachableInv(n, acts, s);
  }

  predicate ConsistentSucceeds(acts: seq<Action>) {
    MarkFails !in acts
  }

  /** The mutex becomes unrecoverable only if `pthread_mutex_consistent` itself fails. */
  lemma {:induction false} StaysRecoverable(s: State, acts: seq<Action>)
    requires Inv(s) && !s.mutex.NotRecoverable? && CanRun(s, acts) && ConsistentSucceeds(acts)
    ensures !Run(s, acts).mutex.NotRecoverable?
    decreases |acts|
  {
    if acts == [] {
    } else {
      StepKeeps(s, acts[0]);
      StaysRecoverable(Apply(s, acts[0]), acts[1..]);
    }
  }

  lemma MutexStaysRecoverable(n: nat, acts: seq<Action>, s: State)
    requires n < U32 && Reaches(n, acts, s) && ConsistentSucceeds(acts)
    ensures !s.mutex.NotRecoverable?
  {
    InitialInv(n);
    StaysRecoverable(Initial(n), acts);
  }

  /** Where `pthread_mutex_consistent` fails after a recovery the table is repaired, and nobody locks the registry
      again: no step is possible in any continuation. */
  lemma LostForGood(s: State)
    requires s.mutex.Held? && s.pc.Repaired?
    ensures Enabled(s, MarkFails)
    ensures Apply(s, MarkFails).t == s.t && Apply(s, MarkFails).mutex == NotRecoverable
    ensures forall acts :: CanRun(Apply(s, MarkFails), acts) ==> acts == []
  {
  }

  /** Stores left before a recovering locker is ready. */
  function StepsToReady(s: State): (k: int)
    requires Sized(s.t)
  {
    match s.pc
    case Recover(i, _) => 5 * (|s.t.slots| - i) + 3
    case Marked(i, _, _) => 5 * (|s.t.slots| - i) + 2
    case Wiped(i, _, _) => 5 * (|s.t.slots| - i) + 1
    case Evened(i, _) => 5 * (|s.t.slots| - i)
    case Counted(_) => 2
    case Repaired => 1
    case _ => 0
  }

  predicate Recovering(pc: Pc) {
    pc.Recover? || pc.Marked? || pc.Wiped? || pc.Evened? || pc.Counted? || pc.Repaired?
  }

  lemma RecoveryAdvances(s: State)
    requires Inv(s) && s.mutex.Held? && Recovering(s.pc)
    ensures Work(s).mutex.Held? && (Recovering(Work(s).pc) || Work(s).pc.Ready?)
    ensures Inv(Work(s)) && 0 <= StepsToReady(Work(s)) < StepsToReady(s)
    ensures Work(s).base == s.base && Work(s).last == s.last && Work(s).op == s.op
  {
    RecoveryKeeps(s);
    WorkSize(s);
  }

  /** A recovery that is not interrupted completes. */
  lemma {:induction false} RecoveryCompletes(s: State) returns (acts: seq<Action>)
    requires Inv(s) && s.mutex.Held? && (Recovering(s.pc) || s.pc.Ready?)
    ensures CanRun(s, acts) && Run(s, acts).mutex.Held? && Run(s, acts).pc.Ready?
    ensures Run(s, acts).base == s.base && Run(s, acts).last == s.last && Run(s, acts).op == s.op
    decreases StepsToReady(s)
  {
    if s.pc.Ready? {
      acts := [];
    } else {
      RecoveryAdvances(s);
      var rest := RecoveryCompletes(Apply(s, Step));
      acts := [Step] + rest;
      assert acts[1..] == rest;
    }
  }

  /** Stores left before an operation under way releases the mutex. */
  function StepsToUnlock(pc: Pc): (k: int) {
    match pc
    case Ready => 10
    case SetBit(_) => 9
    case AddOne(_) => 8
    case Publish(_, stage, _) => 7 - stage
    case DropBit(_) => 3
    case SubOne(_) => 2
    case Finished => 1
    case _ => 0
  }

  predicate Operating(pc: Pc) {
    pc.SetBit? || pc.AddOne? || pc.Publish? || pc.DropBit? || pc.SubOne? || pc.Finished?
  }

  lemma OperationAdvances(s: State)
    requires Inv(s) && s.mutex.Held? && Operating(s.pc)
    ensures Work(s).mutex.Unlocked? || (Work(s).mutex.Held? && Operating(Work(s).pc))
    ensures Inv(Work(s)) && StepsToUnlock(Work(s).pc) < StepsToUnlock(s.pc) && StepsToUnlock(s.pc) > 0
    ensures Work(s).base == s.base && Work(s).last == s.last && |Work(s).t.slots| == |s.t.slots|
  {
    WorkKeeps(s);
    WorkSize(s);
  }

  lemma {:induction false} OperationFinishes(s: State) returns (acts: seq<Action>)
    requires Inv(s) && s.mutex.Held? && Operating(s.pc)
    ensures CanRun(s, acts) && Run(s, acts).mutex.Unlocked? && Inv(Run(s, acts))
    ensures Run(s, acts).base == s.base && Run(s, acts).last == s.last && |Run(s, acts).t.slots| == |s.t.slots|
    decreases StepsToUnlock(s.pc)
  {
    OperationAdvances(s);
    var t := Apply(s, Step);
    if t.mutex.Unlocked? {
      acts := [Step];
      assert acts[1..] == [] && Run(s, acts) == Run(t, []);
    } else {
      var rest := OperationFinishes(t);
      acts := [Step] + rest;
      assert acts[1..] == rest;
    }
  }

  /** An operation on an unlocked registry that is not interrupted releases the mutex and takes full effect. */
  lemma OperationCompletes(s: State, op: Op) returns (acts: seq<Action>)
    requires Inv(s) && s.mutex.Unlocked? && Named(op)
    ensures CanRun(s, [Lock(op)] + acts)
    ensures var t, m, n := Run(s, [Lock(op)] + acts), Dict(s.t), |s.t.slots|;
            && t.mutex.Unlocked? && Good(t.t)
            && (op.Register? ==>
                  Dict(t.t) == if Key(op.body) in m || |m| < n then m[Key(op.body) := op.body] else m)
            && (op.Unregister? ==> Dict(t.t) == m - {op.key})
            && (op.Inspect? ==> Dict(t.t) == m)
  {
    var u := Apply(s, Lock(op));
    StepKeeps(s, Lock(op));
    ReadyStep(u);
    var v := Apply(u, Step);
    assert v.mutex.Held? && v.base == Dict(s.t) && v.last == op && |v.t.slots| == |s.t.slots|;
    StartsOperating(u.t, op);
    var rest := OperationFinishes(v);
    acts := [Step] + rest;
    assert acts[1..] == rest;
    assert ([Lock(op)] + acts)[1..] == acts;
  }

  lemma StartsOperating(t: Table, op: Op)
    requires Sized(t)
    ensures Operating(StartPc(t, op))
  {
  }
}
