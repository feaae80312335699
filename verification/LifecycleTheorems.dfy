/** What every interleaving of creates, attaches, moves, resets, deaths and collections keeps. */
module LifecycleTheorems {
  import opened Base
  import opened Lifecycle

  lemma {:induction false} RunCounts(s: State, acts: seq<Action>)
    requires Counted(s) && CanRun(s, acts)
    ensures Counted(Run(s, acts))
    decreases |acts|
  {
    if acts == [] {
    } else {
      StepCounts(s, acts[0]);
      RunCounts(Apply(s, acts[0]), acts[1..]);
    }
  }

  lemma StartCounts(cfg: Config, stale: bool)
    ensures Counted(Start(cfg, stale))
  {
    assert Referring(Start(cfg, stale).items) == {};
  }

  /** In every run from the first store of create on, the reference count is the number of live read-write handles, plus
      the attaches between bump and outcome, plus the references that died with a process, less the references that
      create's own store of the count overwrote, in 32 bits. */
  lemma RefCountExact(cfg: Config, stale: bool, acts: seq<Action>)
    requires CanRun(Start(cfg, stale), acts)
    ensures var t := Run(Start(cfg, stale), acts);
            && t.rc == (Total(t) - t.overwritten) % U32
            && (t.overwritten == 0 && Total(t) < U32 ==> t.rc == Total(t))
  {
    StartCounts(cfg, stale);
    RunCounts(Start(cfg, stale), acts);
    CountedTotal(Run(Start(cfg, stale), acts));
  }

  /** A process may die at any point of a create, an attach or a reset. The count and the state stay as they are; a
      reference it had is lost. */
  lemma DeathLosesReference(s: State, k: nat)
    requires k in s.items
    ensures Enabled(s, Die(k))
    ensures var i := s.items[k];
            var counted := i.Creating? || i.Bumped? || i.Undoing? || (i.Held? && i.rw);
            Apply(s, Die(k)) == s.(items := s.items - {k}, leaked := s.leaked + if counted then 1 else 0)
  {
  }

  /** A handle can be moved at any time, and the segment does not notice. */
  lemma MoveKeepsReference(s: State, k: nat, to: nat)
    requires k in s.items && s.items[k].Held? && to !in s.items
    ensures Enabled(s, Move(k, to))
    ensures Apply(s, Move(k, to)) == s.(items := (s.items - {k})[to := s.items[k]])
  {
  }

  lemma CountedTotal(s: State)
    requires Counted(s)
    ensures s.rc == (Total(s) - s.overwritten) % U32
    ensures s.overwritten == 0 && Total(s) < U32 ==> s.rc == Total(s)
  {
    ReferringSplits(s.items);
  }

  lemma TotalIs(s: State)
    requires Counted(s) && s.overwritten == 0 && Total(s) < U32
    ensures s.rc == Total(s) == |Referring(s.items)| + s.leaked
  {
    ReferringSplits(s.items);
  }

  lemma ReferrerCounted(items: map<nat, Item>, k: nat)
    requires k in items && Counts(items[k])
    ensures |Referring(items)| >= 1
  {
    assert k in Referring(items);
  }

  /** The step lowers the reference count. */
  predicate Lowers(s: State, a: Action)
    requires Enabled(s, a)
  {
    a.Undo? || (a.Drop? && s.items[a.k].rw)
  }

  /** No decrement underflows where create overwrote no reference: every step that lowers the count finds it
      positive. */
  lemma NeverUnderflows(cfg: Config, stale: bool, acts: seq<Action>, a: Action)
    requires CanRun(Start(cfg, stale), acts) && Enabled(Run(Start(cfg, stale), acts), a)
    requires var t := Run(Start(cfg, stale), acts); Total(t) < U32 && t.overwritten == 0 && Lowers(t, a)
    ensures var t := Run(Start(cfg, stale), acts); t.rc >= 1 && Apply(t, a).rc == t.rc - 1
  {
    var t := Run(Start(cfg, stale), acts);
    StartCounts(cfg, stale);
    RunCounts(Start(cfg, stale), acts);
    TotalIs(t);
    ReferrerCounted(t.items, a.k);
  }

  // ---------------------------------------------------------------- the state only moves forward

  /** Only create's store of Active can move the state backward. */
  lemma StepForward(s: State, a: Action)
    requires Enabled(s, a) && (a.Create? && s.stage == COUNTED ==> Rank(s.st) <= 1)
    ensures Rank(s.st) <= Rank(Apply(s, a).st) && Apply(s, a).stage >= s.stage
  {
    if OfJanitor(a) { JanitorForward(s, a); } else { ItemForward(s, a); }
  }

  lemma JanitorForward(s: State, a: Action)
    requires Enabled(s, a) && OfJanitor(a)
    ensures Rank(s.st) <= Rank(ApplyJanitor(s, a).st) && ApplyJanitor(s, a).stage == s.stage
  {
  }

  lemma ItemForward(s: State, a: Action)
    requires Enabled(s, a) && !OfJanitor(a) && (a.Create? && s.stage == COUNTED ==> Rank(s.st) <= 1)
    ensures Rank(s.st) <= Rank(ApplyItem(s, a).st) && ApplyItem(s, a).stage >= s.stage
  {
  }

  /** Once create has stored Active the lifecycle state never moves backward, and Dead is final. */
  lemma {:induction false} StateNeverBackward(s: State, acts: seq<Action>)
    requires s.stage >= ACTIVE && CanRun(s, acts)
    ensures Rank(s.st) <= Rank(Run(s, acts).st)
    ensures s.st == Dead ==> Run(s, acts).st == Dead
    decreases |acts|
  {
    if acts == [] {
    } else {
      StepForward(s, acts[0]);
      StateNeverBackward(Apply(s, acts[0]), acts[1..]);
    }
  }

  // ---------------------------------------------------------------- attach after Dead

  lemma LiveStore(items: map<nat, Item>, k: nat, p: Item)
    requires Lives(p) ==> k in items && Lives(items[k])
    ensures |Live(items[k := p])| <= |Live(items)| && |Live(items - {k})| <= |Live(items)|
  {
    assert Live(items[k := p]) == if Lives(p) then Live(items) else Live(items) - {k};
    assert Live(items - {k}) == Live(items) - {k};
  }

  lemma LiveMove(items: map<nat, Item>, k: nat, to: nat)
    requires k in items && items[k].Held? && to !in items
    ensures |Live((items - {k})[to := items[k]])| == |Live(items)|
  {
    var moved := (items - {k})[to := items[k]];
    assert Live(moved) == if items[k].rw then Live(items) - {k} + {to} else Live(items);
  }

  lemma DeadStep(s: State, a: Action)
    requires s.st == Dead && s.stage >= ACTIVE && Enabled(s, a)
    ensures Apply(s, a).st == Dead && |Live(Apply(s, a).items)| <= |Live(s.items)|
  {
    StepForward(s, a);
    if OfJanitor(a) { assert ApplyJanitor(s, a).items == s.items; } else { DeadItemStep(s, a); }
  }

  lemma DeadItemStep(s: State, a: Action)
    requires s.st == Dead && s.stage >= ACTIVE && Enabled(s, a) && !OfJanitor(a)
    ensures |Live(ApplyItem(s, a).items)| <= |Live(s.items)|
  {
    if a.Move? {
      LiveMove(s.items, a.k, a.to);
    } else {
      LiveStore(s.items, a.k, DeadItem(s, a));
    }
  }

  /** The item a step on a dead segment leaves at its location, where it leaves one. */
  function DeadItem(s: State, a: Action): (p: Item)
    requires s.st == Dead && s.stage >= ACTIVE && Enabled(s, a) && !OfJanitor(a) && !a.Move?
    ensures Lives(p) ==> a.k in s.items && Lives(s.items[a.k])
  {
    match a
    case Create(_) => Held(true, true)
    case Bump(_) => Bumped
    case Recheck(_) => Undoing
    case Drop(k) => Dropped(s.items[k].owner, s.rc)
    case _ => Killing
  }

  /** Every attach whose re-check follows the Dead store fails: from then on no run gains a live handle, and once no
      attach is on its way the count is that of the live handles and the leaked references, so none left a trace. */
  lemma {:induction false} NoHandleAfterDead(s: State, acts: seq<Action>)
    requires s.st == Dead && s.stage >= ACTIVE && Counted(s) && CanRun(s, acts)
    ensures |Live(Run(s, acts).items)| <= |Live(s.items)|
    ensures var t := Run(s, acts);
            Pending(t.items) == {} ==> t.rc == (|Live(t.items)| + t.leaked - s.overwritten) % U32
    decreases |acts|
  {
    if acts == [] {
      ReferringSplits(s.items);
    } else {
      DeadStep(s, acts[0]);
      StageFrame(s, acts[0]);
      StepCounts(s, acts[0]);
      NoHandleAfterDead(Apply(s, acts[0]), acts[1..]);
    }
  }

  // ---------------------------------------------------------------- Dead needs a moment without references

  /** Fewer than 2^32 references throughout the run. */
  predicate Small(s: State, acts: seq<Action>)
    requires CanRun(s, acts)
    decreases |acts|
  {
    Total(s) < U32 && (acts == [] || Small(Apply(s, acts[0]), acts[1..]))
  }

  /** At some point of the run the segment had no reference: no handle, no attach on its way, none leaked. */
  predicate SomeZero(s: State, acts: seq<Action>)
    requires CanRun(s, acts)
    decreases |acts|
  {
    Total(s) == 0 || (acts != [] && SomeZero(Apply(s, acts[0]), acts[1..]))
  }

  predicate PastZero(p: Item) {
    p == Killing || p == Dropped(true, 1) || p == Dropped(false, 1)
  }

  predicate JanitorPastZero(p: Janitor) {
    p == Recounted || p == Marking
  }

  /** The segment is dead, or a reset or janitor goes by a count that said nobody is left. */
  ghost predicate Doomed(s: State) {
    || s.st == Dead
    || (exists k :: k in s.items && PastZero(s.items[k]))
    || (exists j :: j in s.janitors && JanitorPastZero(s.janitors[j]))
  }

  /** Create has stored the count, over no other reference, and the count is right. */
  predicate Sound(s: State) {
    Counted(s) && s.stage >= COUNTED && s.overwritten == 0
  }

  lemma StepSound(s: State, a: Action)
    requires Sound(s) && Enabled(s, a)
    ensures Sound(Apply(s, a))
  {
    StepCounts(s, a);
    StageFrame(s, a);
  }

  /** After create's count store nothing more is overwritten. */
  lemma StageFrame(s: State, a: Action)
    requires Enabled(s, a) && s.stage >= COUNTED
    ensures Apply(s, a).stage >= s.stage && Apply(s, a).overwritten == s.overwritten
  {
    if OfJanitor(a) { JanitorFrame(s, a); }
  }

  /** Only a step that finds the last reference, or leaves none, can doom a segment. */
  lemma DoomStep(s: State, a: Action)
    requires Sound(s) && Enabled(s, a) && Total(s) < U32
    requires !Doomed(s) && Total(s) != 0 && Total(Apply(s, a)) != 0
    ensures !Doomed(Apply(s, a))
  {
    TotalIs(s);
    if OfJanitor(a) {
      DoomJanitor(s, a);
    } else {
      if a.Drop? && s.items[a.k].rw { LastDrop(s, a.k); }
      DoomItem(s, a);
    }
  }

  lemma DoomJanitor(s: State, a: Action)
    requires Enabled(s, a) && OfJanitor(a) && s.rc != 0 && !Doomed(s)
    ensures !Doomed(ApplyJanitor(s, a))
  {
    var t := ApplyJanitor(s, a);
    assert t.items == s.items;
    forall j | j in t.janitors ensures !JanitorPastZero(t.janitors[j]) {
      if j != a.j { assert j in s.janitors && t.janitors[j] == s.janitors[j]; }
    }
  }

  lemma DoomItem(s: State, a: Action)
    requires Enabled(s, a) && !OfJanitor(a) && !Doomed(s) && (a.Drop? && s.items[a.k].rw ==> s.rc != 1)
    ensures !Doomed(ApplyItem(s, a))
  {
    var t := ApplyItem(s, a);
    assert t.janitors == s.janitors;
    forall k | k in t.items ensures !PastZero(t.items[k]) {
      if k in s.items { assert !PastZero(s.items[k]); }
    }
  }

  lemma LastDrop(s: State, k: nat)
    requires Sound(s) && Enabled(s, Drop(k)) && s.items[k].rw && Total(s) < U32
    ensures Total(Apply(s, Drop(k))) == s.rc - 1
  {
    TotalIs(s);
    var t := Apply(s, Drop(k));
    StoreCount(s.items, k, Dropped(s.items[k].owner, s.rc));
    ReferringSplits(t.items);
  }

  lemma {:induction false} DoomNeedsZero(s: State, acts: seq<Action>)
    requires Sound(s) && CanRun(s, acts) && Small(s, acts) && !Doomed(s)
    ensures Doomed(Run(s, acts)) ==> SomeZero(s, acts)
    decreases |acts|
  {
    if acts == [] || Total(s) == 0 {
    } else {
      var t := Apply(s, acts[0]);
      StepSound(s, acts[0]);
      if Total(t) != 0 {
        DoomStep(s, acts[0]);
        DoomNeedsZero(t, acts[1..]);
      } else {
        ZeroHere(t, acts[1..]);
      }
    }
  }

  lemma ZeroHere(s: State, acts: seq<Action>)
    requires CanRun(s, acts) && Total(s) == 0
    ensures SomeZero(s, acts)
  {
  }

  /** From any state a run can reach after create has stored its count over no other reference, and in which nobody acts
      on a zero count: the segment is marked Dead only if at some later point nobody referred to it. */
  lemma DeadNeedsZero(cfg: Config, stale: bool, before: seq<Action>, s: State, acts: seq<Action>)
    requires CanRun(Start(cfg, stale), before) && s == Run(Start(cfg, stale), before)
    requires s.stage >= COUNTED && s.overwritten == 0 && !Doomed(s)
    requires CanRun(s, acts) && Small(s, acts) && Run(s, acts).st == Dead
    ensures SomeZero(s, acts)
  {
    StartCounts(cfg, stale);
    RunCounts(Start(cfg, stale), before);
    DoomNeedsZero(s, acts);
  }

  /** Leaked references stay leaked, so the count never comes back to zero. */
  lemma {:induction false} LeakNeverZero(s: State, acts: seq<Action>)
    requires CanRun(s, acts) && s.leaked > 0
    ensures !SomeZero(s, acts)
    decreases |acts|
  {
    if acts == [] {
    } else {
      assert Apply(s, acts[0]).leaked >= s.leaked;
      LeakNeverZero(Apply(s, acts[0]), acts[1..]);
    }
  }

  /** Once a process has died with a reference, no later count load or reset can doom the segment: it is never marked
      Dead, and only the age rule for draining segments can still unlink it. */
  lemma LeakKeepsSegment(s: State, acts: seq<Action>)
    requires Sound(s) && CanRun(s, acts) && Small(s, acts)
    requires s.leaked > 0 && !Doomed(s)
    ensures Run(s, acts).st != Dead
  {
    DoomNeedsZero(s, acts);
    LeakNeverZero(s, acts);
  }

  // ---------------------------------------------------------------- only an owner judged dead loses its segment

  /** No janitor of the run judges the owner dead in its first look. */
  ghost predicate OwnerTrusted(acts: seq<Action>) {
    forall i :: 0 <= i < |acts| && acts[i].JudgeOwner? ==> !acts[i].dead
  }

  predicate Trusting(p: Janitor) {
    p == SawOwner(false) || (p.SawCount? && !p.dead)
  }

  ghost predicate Untouched(s: State) {
    && s.st == (if s.stage >= ACTIVE then Active else Init)
    && (forall j :: j in s.janitors ==> Trusting(s.janitors[j]))
    && (forall k :: k in s.items ==> s.items[k] != Killing)
  }

  lemma UntouchedStep(s: State, a: Action)
    requires Untouched(s) && Enabled(s, a) && (a.JudgeOwner? ==> !a.dead)
    ensures Untouched(Apply(s, a))
  {
    if OfJanitor(a) { UntouchedJanitor(s, a); } else { UntouchedItem(s, a); }
  }

  lemma UntouchedJanitor(s: State, a: Action)
    requires Untouched(s) && Enabled(s, a) && OfJanitor(a) && (a.JudgeOwner? ==> !a.dead)
    ensures Untouched(ApplyJanitor(s, a))
  {
  }

  lemma UntouchedItem(s: State, a: Action)
    requires Untouched(s) && Enabled(s, a) && !OfJanitor(a)
    ensures Untouched(ApplyItem(s, a))
  {
    var t := ApplyItem(s, a);
    assert t.janitors == s.janitors;
    forall k | k in t.items ensures t.items[k] != Killing {
      if k in s.items { assert s.items[k] != Killing; }
    }
  }

  lemma {:induction false} UntouchedRun(s: State, acts: seq<Action>)
    requires Untouched(s) && CanRun(s, acts) && OwnerTrusted(acts)
    ensures Untouched(Run(s, acts))
    decreases |acts|
  {
    if acts == [] {
    } else {
      assert forall i :: 0 <= i < |acts[1..]| ==> acts[1..][i] == acts[i + 1];
      UntouchedStep(s, acts[0]);
      UntouchedRun(Apply(s, acts[0]), acts[1..]);
    }
  }

  /** As long as no janitor judges the owner dead, the segment is Init until create stores Active and then stays Active,
      whatever is attached, dropped or lost. */
  lemma TrustedOwnerStaysActive(cfg: Config, stale: bool, acts: seq<Action>)
    requires CanRun(Start(cfg, stale), acts) && OwnerTrusted(acts)
    ensures var t := Run(Start(cfg, stale), acts); t.st == if t.stage >= ACTIVE then Active else Init
  {
    UntouchedRun(Start(cfg, stale), acts);
  }

  // ---------------------------------------------------------------- the control mutex

  predicate InSection(p: Janitor) {
    p == Holding || p == Recounted || p == Marking || p == Releasing
  }

  ghost predicate Exclusive(s: State) {
    forall j :: j in s.janitors && InSection(s.janitors[j]) ==> s.mutex == By(j)
  }

  /** Only create's initialization of the mutex can let a second janitor in. */
  lemma StepExclusive(s: State, a: Action)
    requires Exclusive(s) && Enabled(s, a) && (a.Create? && s.stage == SIGNED ==> s.janitors == map[])
    ensures Exclusive(Apply(s, a))
  {
    if OfJanitor(a) {
      JanitorExclusive(s, a);
    } else {
      assert ApplyItem(s, a).janitors == s.janitors;
    }
  }

  lemma JanitorExclusive(s: State, a: Action)
    requires Exclusive(s) && Enabled(s, a) && OfJanitor(a)
    ensures Exclusive(ApplyJanitor(s, a))
  {
  }

  /** Once create has initialized the control mutex, at most one janitor is between its lock and its unlock, whoever
      dies. */
  lemma {:induction false} JanitorsExclude(s: State, acts: seq<Action>)
    requires Exclusive(s) && s.stage >= READY && CanRun(s, acts)
    ensures Exclusive(Run(s, acts)) && OneInside(Run(s, acts))
    decreases |acts|
  {
    if acts == [] {
    } else {
      StepExclusive(s, acts[0]);
      assert Apply(s, acts[0]).stage >= READY;
      JanitorsExclude(Apply(s, acts[0]), acts[1..]);
    }
  }

  ghost predicate OneInside(s: State) {
    var js := s.janitors;
    forall i, j :: i in js && j in js && InSection(js[i]) && InSection(js[j]) ==> i == j
  }

  // ---------------------------------------------------------------- the window the janitor leaves

  /** The window is an attach's bump and nothing else: as long as nobody bumps, a segment without references stays
      without them, so the janitor that counted zero marks Dead a segment nobody refers to. */
  lemma {:induction false} OnlyBumpsRefer(s: State, acts: seq<Action>)
    requires CanRun(s, acts) && s.stage >= COUNTED && Total(s) == 0
    requires forall i :: 0 <= i < |acts| ==> !acts[i].Bump?
    ensures Total(Run(s, acts)) == 0
    decreases |acts|
  {
    if acts == [] {
    } else {
      UnreferredStep(s, acts[0]);
      OnlyBumpsRefer(Apply(s, acts[0]), acts[1..]);
    }
  }

  lemma UnreferredStep(s: State, a: Action)
    requires Enabled(s, a) && s.stage >= COUNTED && Total(s) == 0 && !a.Bump?
    ensures Total(Apply(s, a)) == 0 && Apply(s, a).stage >= COUNTED
  {
    ReferringSplits(s.items);
    ReferringSplits(Apply(s, a).items);
    if OfJanitor(a) { JanitorFrame(s, a); } else { UnreferredItem(s, a); }
  }

  lemma UnreferredItem(s: State, a: Action)
    requires Enabled(s, a) && s.stage >= COUNTED && !OfJanitor(a) && !a.Bump? && Referring(s.items) == {}
    ensures Referring(ApplyItem(s, a).items) == {} && ApplyItem(s, a).leaked == s.leaked
    ensures ApplyItem(s, a).stage >= COUNTED
  {
    var t := ApplyItem(s, a);
    assert forall k :: k in s.items ==> k !in Referring(s.items);
    forall k | k in t.items ensures !Counts(t.items[k]) {
    }
  }

  ghost predicate Reaches(s: State, t: State) {
    exists acts :: CanRun(s, acts) && Run(s, acts) == t
  }

  lemma {:induction false} RunSnoc(s: State, acts: seq<Action>, a: Action)
    requires CanRun(s, acts) && Enabled(Run(s, acts), a)
    ensures CanRun(s, acts + [a]) && Run(s, acts + [a]) == Apply(Run(s, acts), a)
    decreases |acts|
  {
    if acts == [] {
      assert [] + [a] == [a];
    } else {
      RunSnoc(Apply(s, acts[0]), acts[1..], a);
      assert (acts + [a])[1..] == acts[1..] + [a];
    }
  }

  lemma Then(s: State, t: State, a: Action) returns (u: State)
    requires Reaches(s, t) && Enabled(t, a)
    ensures u == Apply(t, a) && Reaches(s, u)
  {
    var acts :| CanRun(s, acts) && Run(s, acts) == t;
    RunSnoc(s, acts, a);
    u := Apply(t, a);
  }

  lemma Begin(s: State)
    ensures Reaches(s, s)
  {
    assert CanRun(s, []) && Run(s, []) == s;
  }

  /** Create up to its store of the count. */
  lemma CreateNamed(cfg: Config, stale: bool) returns (t: State)
    ensures Reaches(Start(cfg, stale), t)
    ensures t == Start(cfg, stale).(stage := NAMED)
  {
    var s := Start(cfg, stale);
    Begin(s);
    t := Then(s, s, Create(0));
    t := Then(s, t, Create(0));
  }

  /** The rest of create, from any state in which its count is stored. */
  lemma CreateFinishes(s: State, t: State) returns (u: State)
    requires Reaches(s, t) && t.stage == COUNTED && Has(t, 0, Creating)
    ensures Reaches(s, u)
    ensures u == t.(st := Active, stage := READY, mutex := Free, items := t.items[0 := Held(true, true)])
  {
    u := Then(s, t, Create(0));
    u := Then(s, u, Create(0));
    u := Then(s, u, Create(0));
    u := Then(s, u, Create(0));
  }

  /** An undisturbed create, listed or not before, leaves the segment as `Created` says. */
  lemma CreateAlone(cfg: Config, stale: bool)
    ensures Reaches(Start(cfg, stale), Created(cfg))
  {
    var s := Start(cfg, stale);
    var t := CreateNamed(cfg, stale);
    assert Referring(t.items) == {};
    t := CountStored(s, t);
    t := CreateFinishes(s, t);
    t := Then(s, t, Enlist(0));
    assert t.items == map[0 := Held(true, true)];
  }

  /** Create's store of the count, from any state in which it is next. */
  lemma CountStored(s: State, t: State) returns (u: State)
    requires Reaches(s, t) && t.stage == NAMED && Has(t, 0, Starting)
    ensures Reaches(s, u)
    ensures u == t.(rc := 1, stage := COUNTED, items := t.items[0 := Creating],
                    overwritten := |Referring(t.items)| + t.leaked)
  {
    u := Then(s, t, Create(0));
  }

  /** The owner has let go of its handle without draining the segment. */
  lemma OwnerGone(cfg: Config, stale: bool) returns (t: State)
    ensures Reaches(Start(cfg, stale), t)
    ensures t == Created(cfg).(rc := 0, items := map[])
  {
    var s := Start(cfg, stale);
    CreateAlone(cfg, stale);
    t := Then(s, Created(cfg), Drop(0));
    t := Then(s, t, LoadAfterDrop(0));
    assert t.items == map[];
  }

  /** A janitor holds the control mutex and has counted no reference. */
  lemma JanitorCounted(cfg: Config, stale: bool) returns (t: State)
    requires !cfg.isRegistry
    ensures Reaches(Start(cfg, stale), t)
    ensures t == Created(cfg).(rc := 0, items := map[], janitors := map[7 := Recounted], mutex := By(7))
  {
    var s := Start(cfg, stale);
    t := OwnerGone(cfg, stale);
    t := JanitorWaits(s, t, 7);
    t := JanitorRecounts(s, t, 7);
    assert t.janitors == map[7 := Recounted];
  }

  lemma JanitorRecounts(s: State, t: State, j: nat) returns (u: State)
    requires Reaches(s, t) && At(t, j, Locking) && t.mutex == Free && t.rc == 0
    ensures Reaches(s, u) && u == t.(janitors := t.janitors[j := Recounted], mutex := By(j))
  {
    u := Then(s, t, Lock(j));
    u := Then(s, u, Recount(j));
    assert u.janitors == t.janitors[j := Recounted];
  }

  /** A janitor that judges the owner dead and counts no reference goes for the mutex. */
  lemma JanitorWaits(s: State, t: State, j: nat) returns (u: State)
    requires Reaches(s, t) && Enabled(t, JudgeOwner(j, true)) && t.rc == 0
    ensures Reaches(s, u) && u == t.(janitors := t.janitors[j := Locking])
  {
    u := Then(s, t, JudgeOwner(j, true));
    u := Then(s, u, LoadCount(j));
    u := Then(s, u, LoadState(j));
    assert u.janitors == t.janitors[j := Locking];
  }

  /** An attach raises the count after the janitor's second count load. */
  lemma BumpedInWindow(cfg: Config, stale: bool) returns (t: State)
    requires !cfg.isRegistry
    ensures Reaches(Start(cfg, stale), t)
    ensures t == Created(cfg).(items := map[1 := Bumped], janitors := map[7 := Recounted], mutex := By(7))
  {
    var s := Start(cfg, stale);
    t := JanitorCounted(cfg, stale);
    t := AttachBumps(s, t, 1);
    assert t.items == map[1 := Bumped];
  }

  lemma AttachBumps(s: State, t: State, k: nat) returns (u: State)
    requires Reaches(s, t) && k !in t.items && Attachable(t) && t.st != Dead
    ensures Reaches(s, u) && u == t.(rc := Up(t.rc), items := t.items[k := Bumped])
  {
    u := Then(s, t, BeginAttach(k, true));
    u := Then(s, u, Bump(k));
    assert u.items == t.items[k := Bumped];
  }

  /** Such an attach can still win: its re-check passes, and the segment is then marked Dead under a live handle. */
  lemma AttachCanBeatJanitor(cfg: Config, stale: bool)
    requires !cfg.isRegistry
    ensures exists t :: Reaches(Start(cfg, stale), t) && t.st == Dead && Has(t, 1, Held(true, false)) && t.rc == 1
  {
    var s := Start(cfg, stale);
    var t := BumpedInWindow(cfg, stale);
    t := Then(s, t, Recheck(1));
    t := Then(s, t, JudgeAgain(7, true));
    t := Then(s, t, Mark(7));
  }
}
