/** What a janitor does with a segment when nobody interferes, and how a segment comes to its end. */
module LifecycleJanitor {
  import opened Lifecycle
  import opened LifecycleTheorems

  /** The outcome of the janitor's loads: it goes for the mutex exactly when the owner was judged dead and the count was
      zero, for the exchange exactly when the owner was judged dead, the count was not zero and the state is Active, and
      leaves the segment alone exactly in the other cases. Nothing else changes. */
  lemma LoadsDecide(s: State, j: nat)
    requires Enabled(s, LoadState(j))
    ensures var dead, rc := s.janitors[j].dead, s.janitors[j].rc;
            var t := Apply(s, LoadState(j));
            && (At(t, j, Locking) <==> dead && rc == 0)
            && (At(t, j, Exchanging) <==> dead && rc != 0 && s.st == Active)
            && (j !in t.janitors <==> !dead || (rc != 0 && s.st != Active))
            && t == s.(janitors := t.janitors) && t.janitors - {j} == s.janitors - {j}
  {
  }

  lemma RunTwo(s: State, a: Action, b: Action)
    requires Enabled(s, a) && Enabled(Apply(s, a), b)
    ensures CanRun(s, [a, b]) && Run(s, [a, b]) == Apply(Apply(s, a), b)
  {
    Begin(s);
    RunSnoc(s, [], a);
    RunSnoc(s, [] + [a], b);
    assert [] + [a] + [b] == [a, b];
  }

  /** A janitor that has judged the owner dead and counted references drains an Active segment in its next two steps,
      and changes no count and no handle. */
  lemma DeadOwnerDrains(s: State, j: nat, rc: nat)
    requires At(s, j, SawCount(true, rc)) && rc != 0 && s.st == Active
    ensures CanRun(s, [LoadState(j), Exchange(j)])
    ensures Run(s, [LoadState(j), Exchange(j)]) == s.(st := Draining, janitors := s.janitors - {j})
  {
    RunTwo(s, LoadState(j), Exchange(j));
  }

  /** What one undisturbed visit of a janitor makes of the state, `dead` and `again` being its two judgements. */
  function AfterVisit(s: State, dead: bool, again: bool): (st: SegmentState)
    ensures st == Dead <==> s.st == Dead || (dead && again && s.rc == 0)
    ensures st == Draining && s.st != Draining <==> dead && s.rc != 0 && s.st == Active
    ensures st == s.st || st == Dead || st == Draining
  {
    if dead && s.rc == 0 then (if again then Dead else s.st)
    else if dead && s.st == Active then Draining
    else s.st
  }

  /** The loads of a visit. */
  lemma VisitLoads(s: State, t: State, j: nat, dead: bool) returns (u: State)
    requires Reaches(s, t) && Enabled(t, JudgeOwner(j, dead))
    ensures Reaches(s, u) && u == t.(janitors := t.janitors[j := SawCount(dead, t.rc)])
  {
    u := Then(s, t, JudgeOwner(j, dead));
    u := Then(s, u, LoadCount(j));
    assert u.janitors == t.janitors[j := SawCount(dead, t.rc)];
  }

  /** The locked part of a visit that counted zero. */
  lemma VisitLocked(s: State, t: State, j: nat, again: bool) returns (u: State)
    requires Reaches(s, t) && At(t, j, Locking) && t.mutex == Free && t.rc == 0
    ensures Reaches(s, u) && u == t.(st := if again then Dead else t.st, janitors := t.janitors - {j})
  {
    var v := JanitorRecounts(s, t, j);
    u := VisitCloses(s, v, j, again);
    assert u.janitors == t.janitors - {j};
  }

  lemma VisitCloses(s: State, t: State, j: nat, again: bool) returns (u: State)
    requires Reaches(s, t) && At(t, j, Recounted) && t.mutex == By(j)
    ensures Reaches(s, u)
    ensures u == t.(st := if again then Dead else t.st, janitors := t.janitors - {j}, mutex := Free)
  {
    u := Then(s, t, JudgeAgain(j, again));
    if again {
      u := Then(s, u, Mark(j));
    }
    u := Then(s, u, Release(j));
    assert u.janitors == t.janitors - {j};
  }

  /** A janitor that visits a listed segment undisturbed ends its visit, and leaves everything but the state as it was:
      Dead if it judged the owner dead twice and found no reference, Draining if it judged the owner dead, found
      references and the segment was Active, and otherwise the same. */
  lemma VisitAlone(s: State, j: nat, dead: bool, again: bool)
    requires Enabled(s, JudgeOwner(j, dead)) && s.mutex == Free
    ensures Reaches(s, s.(st := AfterVisit(s, dead, again)))
  {
    Begin(s);
    var t := VisitLoads(s, s, j, dead);
    t := Then(s, t, LoadState(j));
    if dead && s.rc == 0 {
      t := VisitLocked(s, t, j, again);
    } else if dead && s.st == Active {
      t := Then(s, t, Exchange(j));
    }
    assert t.janitors == s.janitors;
  }

  /** The owner's last reset of a draining segment marks it Dead. */
  lemma LastOwnerKills(s: State, t: State, k: nat) returns (u: State)
    requires Reaches(s, t) && Has(t, k, Held(true, true)) && t.rc == 1 && t.st == Draining && !t.cfg.isRegistry
    ensures Reaches(s, u) && u == t.(rc := 0, st := Dead, items := t.items - {k})
  {
    u := Then(s, t, Drop(k));
    u := Then(s, u, LoadAfterDrop(k));
    u := Then(s, u, StoreDead(k));
    assert u.items == t.items - {k};
  }

  /** An attached segment whose owner is judged dead drains; when the other handle and then the owner's are reset, it is
      Dead and nobody refers to it. */
  lemma DrainedToDeath(cfg: Config, stale: bool) returns (t: State)
    requires !cfg.isRegistry
    ensures Reaches(Start(cfg, stale), t)
    ensures t == Created(cfg).(rc := 0, st := Dead, items := map[])
  {
    var s := Start(cfg, stale);
    CreateAlone(cfg, stale);
    t := AttachedPair(s, cfg);
    t := DrainedPair(s, cfg, t);
    t := OtherLeaves(s, cfg, t);
    t := LastOwnerKills(s, t, 0);
    assert t.items == map[];
  }

  function Pair(cfg: Config, st: SegmentState): (s: State) {
    Created(cfg).(rc := 2, st := st, items := map[0 := Held(true, true), 1 := Held(true, false)])
  }

  lemma AttachedPair(s: State, cfg: Config) returns (t: State)
    requires Reaches(s, Created(cfg))
    ensures Reaches(s, t) && t == Pair(cfg, Active)
  {
    t := AttachBumps(s, Created(cfg), 1);
    t := Then(s, t, Recheck(1));
    assert t.items == map[0 := Held(true, true), 1 := Held(true, false)];
  }

  lemma DrainedPair(s: State, cfg: Config, t: State) returns (u: State)
    requires Reaches(s, t) && t == Pair(cfg, Active) && !cfg.isRegistry
    ensures Reaches(s, u) && u == Pair(cfg, Draining)
  {
    u := VisitLoads(s, t, 7, true);
    u := Then(s, u, LoadState(7));
    u := Then(s, u, Exchange(7));
    assert u.janitors == map[];
  }

  lemma OtherLeaves(s: State, cfg: Config, t: State) returns (u: State)
    requires Reaches(s, t) && t == Pair(cfg, Draining)
    ensures Reaches(s, u) && u == Created(cfg).(st := Draining)
  {
    u := Then(s, t, Drop(1));
    u := Then(s, u, LoadAfterDrop(1));
    assert u.items == map[0 := Held(true, true)];
  }

  /** A janitor that cannot get the control mutex, held or not, leaves the segment as it is. */
  lemma LockMayFail(s: State, j: nat)
    requires At(s, j, Locking)
    ensures CanRun(s, [LockFails(j)]) && Run(s, [LockFails(j)]) == s.(janitors := s.janitors - {j})
  {
    assert [LockFails(j)][1..] == [];
  }

  /** A janitor that dies inside its section does not keep the control mutex from the next one. */
  lemma DeathFreesMutex(s: State, i: nat, j: nat)
    requires At(s, j, Locking) && i in s.janitors && s.mutex == By(i) && i != j
    ensures CanRun(s, [JanitorDies(i), Lock(j)])
    ensures var t := Run(s, [JanitorDies(i), Lock(j)]);
            t.mutex == By(j) && At(t, j, Holding) && t.st == s.st && t.rc == s.rc && t.items == s.items
  {
    RunTwo(s, JanitorDies(i), Lock(j));
  }
}
