/**
 What may happen while create writes the header, and exactly when it does no harm. Attach looks at the header only, so
 it can pass between the stores of the name and of the count. A janitor looks at every listed name, so it can pass as
 soon as the sizes are stored if an entry for the name is listed: from before, or by somebody else in the meantime.
 */
module LifecycleCreate {
  import opened Base
  import opened Lifecycle
  import opened LifecycleTheorems

  // ---------------------------------------------------------------- the count, and attaches during create

  /** The reference count is the number of references, in 32 bits. */
  predicate Exact(s: State) {
    s.rc == Total(s) % U32
  }

  /** A guarded segment has nobody but its create before it is signed, so the count store overwrites nothing. */
  ghost predicate Sealed(s: State) {
    && s.cfg.guarded && s.overwritten == 0
    && (s.stage < SIGNED ==> forall k :: k in s.items ==> s.items[k] == Starting || s.items[k] == Creating)
    && (s.stage < COUNTED ==> s.leaked == 0 && forall k :: k in s.items ==> s.items[k] == Starting)
  }

  lemma SealedCreate(s: State, k: nat)
    requires Sealed(s) && Enabled(s, Create(k))
    ensures Sealed(CreateStep(s, k))
  {
    if s.stage == NAMED {
      assert Referring(s.items) == {};
    }
  }

  lemma SealedItem(s: State, a: Action)
    requires Sealed(s) && Enabled(s, a) && !OfJanitor(a) && !a.Create?
    ensures Sealed(ApplyItem(s, a))
  {
  }

  lemma {:induction false} SealedRun(s: State, acts: seq<Action>)
    requires Sealed(s) && CanRun(s, acts)
    ensures Sealed(Run(s, acts))
    decreases |acts|
  {
    if acts == [] {
    } else {
      SealedStep(s, acts[0]);
      SealedRun(Apply(s, acts[0]), acts[1..]);
    }
  }

  lemma SealedStep(s: State, a: Action)
    requires Sealed(s) && Enabled(s, a)
    ensures Sealed(Apply(s, a))
  {
    if OfJanitor(a) {
      SealedJanitor(s, a);
    } else if a.Create? {
      SealedCreate(s, a.k);
    } else {
      SealedItem(s, a);
    }
  }

  lemma SealedJanitor(s: State, a: Action)
    requires Sealed(s) && Enabled(s, a) && OfJanitor(a)
    ensures Sealed(ApplyJanitor(s, a))
  {
    JanitorFrame(s, a);
    assert ApplyJanitor(s, a).cfg == s.cfg;
  }

  /** An attach passes between create's stores of the name and of the count. */
  lemma AttachDuringCreate(cfg: Config, stale: bool) returns (t: State)
    requires !cfg.guarded
    ensures Reaches(Start(cfg, stale), t)
    ensures t == Start(cfg, stale).(rc := 1, items := map[0 := Starting, 1 := Held(true, false)], stage := NAMED)
  {
    var s := Start(cfg, stale);
    t := CreateNamed(cfg, stale);
    t := AttachBumps(s, t, 1);
    t := RecheckPasses(s, t, 1);
    assert t.items == map[0 := Starting, 1 := Held(true, false)];
  }

  /** Create's store then puts both handles on one count. */
  lemma TwoHandlesOneCount(cfg: Config, stale: bool) returns (t: State)
    requires !cfg.guarded
    ensures Reaches(Start(cfg, stale), t)
    ensures t == Created(cfg).(items := map[0 := Held(true, true), 1 := Held(true, false)], listed := stale,
                               overwritten := 1)
  {
    var s := Start(cfg, stale);
    t := AttachDuringCreate(cfg, stale);
    assert Referring(t.items) == {1};
    t := CountStored(s, t);
    t := CreateFinishes(s, t);
    assert t.items == map[0 := Held(true, true), 1 := Held(true, false)];
  }

  lemma RecheckPasses(s: State, t: State, k: nat) returns (u: State)
    requires Reaches(s, t) && Has(t, k, Bumped) && t.st != Dead
    ensures Reaches(s, u) && u == t.(items := t.items[k := Held(true, false)])
  {
    u := Then(s, t, Recheck(k));
  }

  /** From there the first reset brings the count to zero under the other handle. */
  lemma FirstReset(cfg: Config, stale: bool) returns (t: State)
    requires !cfg.guarded
    ensures Reaches(Start(cfg, stale), t) && t.rc == 0 && Total(t) == 1 && Has(t, 1, Held(true, false))
  {
    var s := Start(cfg, stale);
    var u := TwoHandlesOneCount(cfg, stale);
    t := Then(s, u, Drop(0));
    assert Live(t.items) == {1} && Pending(t.items) == {};
  }

  /** And the second one wraps it. */
  lemma SecondResetWraps(cfg: Config, stale: bool)
    requires !cfg.guarded
    ensures exists t :: Reaches(Start(cfg, stale), t) && t.rc == U32 - 1
  {
    var u := FirstReset(cfg, stale);
    var t := Then(Start(cfg, stale), u, Drop(1));
  }

  ghost predicate AlwaysExact(cfg: Config, stale: bool) {
    forall acts :: CanRun(Start(cfg, stale), acts) ==> Exact(Run(Start(cfg, stale), acts))
  }

  lemma GuardedIsExact(cfg: Config, stale: bool, acts: seq<Action>)
    requires cfg.guarded && CanRun(Start(cfg, stale), acts)
    ensures Exact(Run(Start(cfg, stale), acts))
  {
    SealedRun(Start(cfg, stale), acts);
    RefCountExact(cfg, stale, acts);
  }

  lemma SharedCount(t: State)
    requires t.rc == 1 && t.leaked == 0 && t.items == map[0 := Held(true, true), 1 := Held(true, false)]
    ensures !Exact(t)
  {
    assert Live(t.items) == {0, 1};
    assert Pending(t.items) == {};
  }

  /** The reference count is exact in every run exactly when the header is guarded by its MAC until it is signed. */
  lemma ExactIffGuarded(cfg: Config, stale: bool)
    ensures AlwaysExact(cfg, stale) <==> cfg.guarded
  {
    if cfg.guarded {
      forall acts | CanRun(Start(cfg, stale), acts) ensures Exact(Run(Start(cfg, stale), acts)) {
        GuardedIsExact(cfg, stale, acts);
      }
    } else {
      var t := TwoHandlesOneCount(cfg, stale);
      SharedCount(t);
      var acts :| CanRun(Start(cfg, stale), acts) && Run(Start(cfg, stale), acts) == t;
    }
  }

  /** No run with fewer than 2^32 references has a decrement of a zero count. */
  ghost predicate NeverWraps(cfg: Config, stale: bool) {
    forall acts, a :: CanRun(Start(cfg, stale), acts) && Enabled(Run(Start(cfg, stale), acts), a) ==>
      WrapFree(Run(Start(cfg, stale), acts), a)
  }

  predicate WrapFree(s: State, a: Action)
    requires Enabled(s, a)
  {
    Total(s) < U32 && Lowers(s, a) ==> s.rc >= 1
  }

  /** No decrement of any run wraps exactly when the header is guarded. */
  lemma NeverWrapsIffGuarded(cfg: Config, stale: bool)
    ensures NeverWraps(cfg, stale) <==> cfg.guarded
  {
    var s := Start(cfg, stale);
    if cfg.guarded {
      forall acts, a | CanRun(s, acts) && Enabled(Run(s, acts), a) ensures WrapFree(Run(s, acts), a) {
        SealedRun(s, acts);
        if Total(Run(s, acts)) < U32 && Lowers(Run(s, acts), a) {
          NeverUnderflows(cfg, stale, acts, a);
        }
      }
    } else {
      var t := FirstReset(cfg, stale);
      var acts :| CanRun(s, acts) && Run(s, acts) == t;
      assert Enabled(t, Drop(1)) && !WrapFree(t, Drop(1));
    }
  }

  // ---------------------------------------------------------------- the state, and janitors during create

  /** The item was made by a finished create. */
  predicate Owns(p: Item) {
    p == Killing || ((p.Held? || p.Dropped?) && p.owner)
  }

  /** Nothing but create has touched the state before it is finished: no entry is listed and nobody else lists one, so
      no janitor looks. */
  ghost predicate Young(s: State) {
    && s.stage <= READY
    && (forall k :: k in s.items && Owns(s.items[k]) ==> s.stage == READY)
    && (s.stage < READY ==> (s.cfg.isRegistry || (!s.listed && !s.cfg.shared)) && s.janitors == map[])
    && (s.stage < ACTIVE ==> s.st == Init)
  }

  lemma YoungItem(s: State, a: Action)
    requires Young(s) && Enabled(s, a) && !OfJanitor(a)
    ensures Young(ApplyItem(s, a))
  {
  }

  lemma YoungStep(s: State, a: Action)
    requires Young(s) && Enabled(s, a)
    ensures Young(Apply(s, a))
  {
    if OfJanitor(a) {
      assert s.stage == READY;
      JanitorFrame(s, a);
    } else {
      YoungItem(s, a);
    }
  }

  lemma {:induction false} YoungRun(s: State, acts: seq<Action>)
    requires Young(s) && Exclusive(s) && CanRun(s, acts)
    ensures Young(Run(s, acts)) && Exclusive(Run(s, acts))
    decreases |acts|
  {
    if acts == [] {
    } else {
      YoungStep(s, acts[0]);
      StepExclusive(s, acts[0]);
      YoungRun(Apply(s, acts[0]), acts[1..]);
    }
  }

  /** A janitor may come upon the name while create is still writing: an entry is listed from before, or somebody else
      may list it in the meantime. */
  predicate Exposed(cfg: Config, stale: bool) {
    !cfg.isRegistry && (stale || cfg.shared)
  }

  /** The name is listed before create has stored the count; in a shared name also from an unlisted start. */
  lemma ListedDuringCreate(cfg: Config, stale: bool) returns (t: State)
    requires Exposed(cfg, stale)
    ensures Reaches(Start(cfg, stale), t) && t == Start(cfg, stale).(stage := NAMED, listed := true)
  {
    t := CreateNamed(cfg, stale);
    if !stale {
      t := Then(Start(cfg, stale), t, Enlist(1));
    }
  }

  /** A janitor then holds the mutex and has counted zero before create has stored the count. */
  lemma JanitorDuringCreate(cfg: Config, stale: bool) returns (t: State)
    requires Exposed(cfg, stale)
    ensures Reaches(Start(cfg, stale), t)
    ensures t == Start(cfg, stale).(stage := NAMED, listed := true, janitors := map[7 := Recounted], mutex := By(7))
  {
    var s := Start(cfg, stale);
    t := ListedDuringCreate(cfg, stale);
    t := JanitorWaits(s, t, 7);
    t := JanitorRecounts(s, t, 7);
    assert t.janitors == map[7 := Recounted];
  }

  lemma JanitorMarks(s: State, t: State, j: nat) returns (u: State)
    requires Reaches(s, t) && At(t, j, Recounted)
    ensures Reaches(s, u) && u == t.(st := Dead, janitors := t.janitors[j := Releasing])
  {
    u := Then(s, t, JudgeAgain(j, true));
    u := Then(s, u, Mark(j));
    assert u.janitors == t.janitors[j := Releasing];
  }

  /** It marks the segment Dead, and create's next store but one brings it back to Active. */
  lemma DeadDuringCreate(cfg: Config, stale: bool) returns (t: State)
    requires Exposed(cfg, stale)
    ensures Reaches(Start(cfg, stale), t) && t.st == Dead && t.stage == COUNTED && Has(t, 0, Creating)
  {
    var s := Start(cfg, stale);
    t := JanitorDuringCreate(cfg, stale);
    t := JanitorMarks(s, t, 7);
    t := CountStored(s, t);
  }

  predicate Forward(s: State, a: Action)
    requires Enabled(s, a)
  {
    Rank(s.st) <= Rank(Apply(s, a).st)
  }

  ghost predicate NeverBackward(cfg: Config, stale: bool) {
    forall acts, a :: CanRun(Start(cfg, stale), acts) && Enabled(Run(Start(cfg, stale), acts), a) ==>
      Forward(Run(Start(cfg, stale), acts), a)
  }

  /** The lifecycle state never moves backward in any run exactly when no janitor can come upon the name during create:
      no entry is listed before, in the registry or in a janitor's copy of its list, and nobody else lists the name; or
      the segment is the registry, which janitors skip. */
  lemma NeverBackwardIff(cfg: Config, stale: bool)
    ensures NeverBackward(cfg, stale) <==> !Exposed(cfg, stale)
  {
    var s := Start(cfg, stale);
    if !Exposed(cfg, stale) {
      forall acts, a | CanRun(s, acts) && Enabled(Run(s, acts), a) ensures Forward(Run(s, acts), a) {
        YoungRun(s, acts);
        StepForward(Run(s, acts), a);
      }
    } else {
      var t := DeadDuringCreate(cfg, stale);
      var acts :| CanRun(s, acts) && Run(s, acts) == t;
      assert Enabled(t, Create(0)) && !Forward(t, Create(0));
    }
  }

  /** Two janitors that counted zero before create stored its count; create's initialization frees the mutex under the
      first, and lets the second in. */
  lemma TwoJanitorsInside(cfg: Config, stale: bool) returns (t: State)
    requires Exposed(cfg, stale)
    ensures Reaches(Start(cfg, stale), t) && At(t, 7, Holding) && At(t, 8, Holding)
  {
    var s := Start(cfg, stale);
    t := ListedDuringCreate(cfg, stale);
    t := JanitorWaits(s, t, 7);
    t := JanitorWaits(s, t, 8);
    t := FirstInside(s, t);
    t := CountStored(s, t);
    t := CreateFinishes(s, t);
    t := Then(s, t, Lock(8));
  }

  lemma FirstInside(s: State, t: State) returns (u: State)
    requires Reaches(s, t) && At(t, 7, Locking) && At(t, 8, Locking) && t.mutex == Free
    ensures Reaches(s, u) && u == t.(mutex := By(7), janitors := t.janitors[7 := Holding]) && At(u, 8, Locking)
  {
    u := Then(s, t, Lock(7));
  }

  ghost predicate AlwaysOneInside(cfg: Config, stale: bool) {
    forall acts :: CanRun(Start(cfg, stale), acts) ==> OneInside(Run(Start(cfg, stale), acts))
  }

  /** The control mutex keeps janitors apart in every run under the same condition. */
  lemma OneInsideIff(cfg: Config, stale: bool)
    ensures AlwaysOneInside(cfg, stale) <==> !Exposed(cfg, stale)
  {
    var s := Start(cfg, stale);
    if !Exposed(cfg, stale) {
      forall acts | CanRun(s, acts) ensures OneInside(Run(s, acts)) {
        YoungRun(s, acts);
      }
    } else {
      var t := TwoJanitorsInside(cfg, stale);
      var acts :| CanRun(s, acts) && Run(s, acts) == t;
      assert !OneInside(t);
    }
  }
}
