/**
 The life of one segment: its creation, the handles, attaches and resets of any number of processes, their deaths, and
 any number of janitors, interleaved one atomic step at a time.
 */
module Lifecycle {

  import opened Base

  datatype SegmentState = Init | Active | Draining | Dead

  function Rank(s: SegmentState): (r: nat) {
    match s case Init => 0 case Active => 1 case Draining => 2 case Dead => 3
  }

  /** What one handle location holds: a handle, or a create, attach or reset on its way. */
  datatype Item =
    | Starting                            // create: reference count not yet stored
    | Creating                            // create: reference count stored, handle not yet made
    | Held(rw: bool, owner: bool)
    | Checked                             // read-write attach: first state load was not Dead
    | Bumped                              // reference count raised, state not yet re-checked
    | Undoing                             // re-check found Dead, count not yet lowered
    | Dropped(owner: bool, previous: nat) // reset: count lowered from `previous`, state not yet loaded
    | Killing                             // reset: about to store Dead

  /** How far one janitor is with the segment. */
  datatype Janitor =
    | SawOwner(dead: bool)
    | SawCount(dead: bool, rc: nat)
    | Locking
    | Holding
    | Recounted                           // control mutex held, second count load gave zero
    | Marking                             // about to store Dead
    | Releasing
    | Exchanging                          // about to exchange Active for Draining

  datatype Mutex = Free | By(j: nat)

  /** What does not change: whether the segment is the registry; whether its header is rejected until it is signed,
      because `HmacEnabled` is set (`HeaderMac.UnsignedIsRejected`); and whether somebody else may list the name at any
      time. Another create of the same name does, whose object was destroyed before it came to register, and so does a
      janitor that writes back the entry of an earlier segment. */
  datatype Config = Config(isRegistry: bool, guarded: bool, shared: bool)

  // How far create has come with the header.
  const BLANK: nat := 0
  const SIZED: nat := 1     // magic, version, flags and sizes
  const NAMED: nat := 2
  const COUNTED: nat := 3   // reference count
  const ACTIVE: nat := 4    // lifecycle state
  const SIGNED: nat := 5
  const READY: nat := 6     // control mutex

  /** `listed` says that the registry, or a janitor's copy of its list, has an entry for the name. `leaked` and
      `overwritten` are history variables: the references of creates, attaches and handles that died with their process,
      and those that existed when create stored its count. */
  datatype State = State(rc: nat, st: SegmentState, items: map<nat, Item>, janitors: map<nat, Janitor>, mutex: Mutex,
                         cfg: Config, stage: nat, listed: bool, leaked: nat, overwritten: nat)

  /** A new object, cleared, with create about to write its header. `stale` says that an entry for the name is listed
      already. */
  function Start(cfg: Config, stale: bool): (s: State) {
    State(0, Init, map[0 := Starting], map[], Free, cfg, BLANK, stale, 0, 0)
  }

  /** The segment as an undisturbed create leaves it: one reference, held by the owner handle. */
  function Created(cfg: Config): (s: State) {
    State(1, Active, map[0 := Held(true, true)], map[], Free, cfg, READY, true, 0, 0)
  }

  datatype Action =
    | Create(k: nat)
    | Enlist(k: nat)                      // the create at `k`, or where the name is shared anybody, registers the name
    | BeginAttach(k: nat, mode: bool)
    | Bump(k: nat)
    | Recheck(k: nat)
    | Undo(k: nat)
    | Move(k: nat, to: nat)
    | Drop(k: nat)
    | LoadAfterDrop(k: nat)
    | StoreDead(k: nat)
    | Die(k: nat)                         // the process dies; or create fails to sign or to initialize its mutex
    | JudgeOwner(j: nat, dead: bool)
    | LoadCount(j: nat)
    | LoadState(j: nat)
    | Lock(j: nat)
    | LockFails(j: nat)
    | Recount(j: nat)
    | JudgeAgain(j: nat, dead: bool)
    | Mark(j: nat)
    | Release(j: nat)
    | Exchange(j: nat)
    | JanitorDies(j: nat)

  predicate Has(s: State, k: nat, p: Item) {
    k in s.items && s.items[k] == p
  }

  predicate At(s: State, j: nat, p: Janitor) {
    j in s.janitors && s.janitors[j] == p
  }

  predicate Enabled(s: State, a: Action) {
    match a
    case Create(k) => if s.stage < COUNTED then Has(s, k, Starting) else Has(s, k, Creating)
    case Enlist(k) => s.cfg.shared || Has(s, k, Held(true, true))
    case BeginAttach(k, mode) => k !in s.items
    case Bump(k) => Has(s, k, Checked)
    case Recheck(k) => Has(s, k, Bumped)
    case Undo(k) => Has(s, k, Undoing)
    case Move(k, to) => k in s.items && s.items[k].Held? && to !in s.items
    case Drop(k) => k in s.items && s.items[k].Held?
    case LoadAfterDrop(k) => k in s.items && s.items[k].Dropped?
    case StoreDead(k) => Has(s, k, Killing)
    case Die(k) => k in s.items
    case JudgeOwner(j, dead) => j !in s.janitors && s.listed && !s.cfg.isRegistry && s.stage >= SIZED
    case LoadCount(j) => j in s.janitors && s.janitors[j].SawOwner?
    case LoadState(j) => j in s.janitors && s.janitors[j].SawCount?
    case Lock(j) => At(s, j, Locking) && s.mutex == Free
    case LockFails(j) => At(s, j, Locking)
    case Recount(j) => At(s, j, Holding)
    case JudgeAgain(j, dead) => At(s, j, Recounted)
    case Mark(j) => At(s, j, Marking)
    case Release(j) => At(s, j, Releasing)
    case Exchange(j) => At(s, j, Exchanging)
    case JanitorDies(j) => j in s.janitors
  }

  /** 32-bit fetch_add and fetch_sub of one. */
  function Up(rc: nat): (r: nat) {
    (rc + 1) % U32
  }

  function Down(rc: nat): (r: nat) {
    if rc == 0 then U32 - 1 else rc - 1
  }

  function Store(s: State, k: nat, p: Item): (t: State) {
    s.(items := s.items[k := p])
  }

  function Clear(s: State, k: nat): (t: State) {
    s.(items := s.items - {k})
  }

  function Goto(s: State, j: nat, p: Janitor): (t: State) {
    s.(janitors := s.janitors[j := p])
  }

  function Leave(s: State, j: nat): (t: State) {
    s.(janitors := s.janitors - {j})
  }

  /** The item stands for one unit of the reference count. */
  predicate Counts(p: Item) {
    p == Creating || p == Held(true, true) || p == Held(true, false) || p == Bumped || p == Undoing
  }

  /** The header passes the checks of attach: sizes and name are stored, and the MAC where one is asked for. */
  predicate Attachable(s: State) {
    s.stage >= if s.cfg.guarded then SIGNED else NAMED
  }

  /** The next store of create. A control mutex that is initialized again is free. */
  function CreateStep(s: State, k: nat): (t: State) {
    if s.stage == NAMED then
      Store(s.(rc := 1, stage := COUNTED, overwritten := |Referring(s.items)| + s.leaked), k, Creating)
    else if s.stage == COUNTED then s.(st := Active, stage := ACTIVE)
    else if s.stage == SIGNED then s.(mutex := Free, stage := READY)
    else if s.stage >= READY then Store(s, k, Held(true, true))
    else s.(stage := s.stage + 1)
  }

  function ApplyItem(s: State, a: Action): (t: State)
    requires Enabled(s, a) && !OfJanitor(a)
  {
    match a
    case Create(k) => CreateStep(s, k)
    case Enlist(k) => s.(listed := true)
    case BeginAttach(k, mode) =>
      if !Attachable(s) || s.st == Dead then s else Store(s, k, if mode then Checked else Held(false, false))
    case Bump(k) => Store(s.(rc := Up(s.rc)), k, Bumped)
    case Recheck(k) => Store(s, k, if s.st == Dead then Undoing else Held(true, false))
    case Undo(k) => Clear(s.(rc := Down(s.rc)), k)
    case Move(k, to) => Store(Clear(s, k), to, s.items[k])
    case Drop(k) =>
      if s.items[k].rw then Store(s.(rc := Down(s.rc)), k, Dropped(s.items[k].owner, s.rc)) else Clear(s, k)
    case LoadAfterDrop(k) =>
      if s.items[k].owner && !s.cfg.isRegistry && s.items[k].previous == 1 && s.st == Draining then Store(s, k, Killing)
      else Clear(s, k)
    case StoreDead(k) => Clear(s.(st := Dead), k)
    case Die(k) => Clear(s, k).(leaked := s.leaked + (if Counts(s.items[k]) then 1 else 0))
  }

  predicate OfJanitor(a: Action) {
    || a.JudgeOwner? || a.LoadCount? || a.LoadState? || a.Lock? || a.LockFails? || a.Recount? || a.JudgeAgain?
    || a.Mark? || a.Release? || a.Exchange? || a.JanitorDies?
  }

  /** What the janitor does after its count and state loads. */
  function Decide(s: State, j: nat, dead: bool, rc: nat): (t: State) {
    if dead && rc == 0 then Goto(s, j, Locking)
    else if dead && rc > 0 && s.st == Active then Goto(s, j, Exchanging)
    else Leave(s, j)
  }

  function ApplyJanitor(s: State, a: Action): (t: State)
    requires Enabled(s, a) && OfJanitor(a)
  {
    match a
    case JudgeOwner(j, dead) => Goto(s, j, SawOwner(dead))
    case LoadCount(j) => Goto(s, j, SawCount(s.janitors[j].dead, s.rc))
    case LoadState(j) => Decide(s, j, s.janitors[j].dead, s.janitors[j].rc)
    case Lock(j) => Goto(s.(mutex := By(j)), j, Holding)
    case LockFails(j) => Leave(s, j)
    case Recount(j) => Goto(s, j, if s.rc == 0 then Recounted else Releasing)
    case JudgeAgain(j, dead) => Goto(s, j, if dead then Marking else Releasing)
    case Mark(j) => Goto(s.(st := Dead), j, Releasing)
    case Release(j) => Leave(if s.mutex == By(j) then s.(mutex := Free) else s, j)
    case Exchange(j) => Leave(if s.st == Active then s.(st := Draining) else s, j)
    case JanitorDies(j) => Leave(if s.mutex == By(j) then s.(mutex := Free) else s, j)
  }

  function Apply(s: State, a: Action): (t: State)
    requires Enabled(s, a)
  {
    if OfJanitor(a) then ApplyJanitor(s, a) else ApplyItem(s, a)
  }

  predicate CanRun(s: State, acts: seq<Action>)
    decreases |acts|
  {
    acts == [] || (Enabled(s, acts[0]) && CanRun(Apply(s, acts[0]), acts[1..]))
  }

  function Run(s: State, acts: seq<Action>): (t: State)
    requires CanRun(s, acts)
    decreases |acts|
  {
    if acts == [] then s else Run(Apply(s, acts[0]), acts[1..])
  }

  // ---------------------------------------------------------------- counting references

  /** The item is a read-write handle, or the one create is about to return. */
  predicate Lives(p: Item) {
    p == Creating || (p.Held? && p.rw)
  }

  /** The locations of the live read-write handles. */
  function Live(items: map<nat, Item>): (r: set<nat>) {
    set k | k in items && Lives(items[k])
  }

  /** The attaches between their bump and their outcome. */
  function Pending(items: map<nat, Item>): (r: set<nat>) {
    set k | k in items && (items[k] == Bumped || items[k] == Undoing)
  }

  function Total(s: State): (n: nat) {
    |Live(s.items)| + |Pending(s.items)| + s.leaked
  }

  /** The locations that stand for a reference. */
  function Referring(items: map<nat, Item>): (r: set<nat>) {
    set k | k in items && Counts(items[k])
  }

  lemma ReferringSplits(items: map<nat, Item>)
    ensures |Referring(items)| == |Live(items)| + |Pending(items)|
  {
    assert Referring(items) == Live(items) + Pending(items);
    assert Live(items) !! Pending(items);
  }

  function Weight(items: map<nat, Item>, k: nat): (n: nat) {
    if k in items && Counts(items[k]) then 1 else 0
  }

  lemma StoreCount(items: map<nat, Item>, k: nat, p: Item)
    ensures |Referring(items[k := p])| == |Referring(items)| - Weight(items, k) + (if Counts(p) then 1 else 0)
  {
    StoreSet(items, k, p);
    var rest := Referring(items) - {k};
    assert |rest| == |Referring(items)| - Weight(items, k);
    assert |rest + {k}| == |rest| + 1;
  }

  lemma StoreSet(items: map<nat, Item>, k: nat, p: Item)
    ensures Referring(items[k := p]) == if Counts(p) then Referring(items) - {k} + {k} else Referring(items) - {k}
  {
  }

  lemma ClearCount(items: map<nat, Item>, k: nat)
    ensures |Referring(items - {k})| == |Referring(items)| - Weight(items, k)
  {
    assert Referring(items - {k}) == Referring(items) - {k};
  }

  lemma MoveCount(items: map<nat, Item>, k: nat, to: nat)
    requires k in items && to !in items
    ensures |Referring((items - {k})[to := items[k]])| == |Referring(items)|
  {
    ClearCount(items, k);
    StoreCount(items - {k}, to, items[k]);
  }

  /** The number of references whose store or increment is in the count. */
  function Recorded(s: State): (n: int) {
    |Referring(s.items)| + s.leaked - s.overwritten
  }

  /** The reference count is the number of references less those that create's own store overwrote, in 32 bits. */
  predicate Counted(s: State) {
    s.rc == Recorded(s) % U32
  }

  lemma UpDown(n: int)
    ensures Up(n % U32) == (n + 1) % U32
    ensures Down(n % U32) == (n - 1) % U32
  {
  }

  lemma AttachStepCounts(s: State, a: Action)
    requires Counted(s) && Enabled(s, a) && (a.BeginAttach? || a.Bump? || a.Recheck? || a.Undo?)
    ensures Counted(ApplyItem(s, a))
  {
    UpDown(Recorded(s));
    match a
    case BeginAttach(k, mode) => StoreCount(s.items, k, if mode then Checked else Held(false, false));
    case Bump(k) => StoreCount(s.items, k, Bumped);
    case Recheck(k) => StoreCount(s.items, k, if s.st == Dead then Undoing else Held(true, false));
    case Undo(k) => ClearCount(s.items, k);
  }

  lemma HandleStepCounts(s: State, a: Action)
    requires Counted(s) && Enabled(s, a) && (a.Move? || a.Drop? || a.LoadAfterDrop? || a.StoreDead? || a.Die?)
    ensures Counted(ApplyItem(s, a))
  {
    match a
    case Move(k, to) => MoveCount(s.items, k, to);
    case Drop(k) => DropCounts(s, k);
    case LoadAfterDrop(k) =>
      StoreCount(s.items, k, Killing);
      ClearCount(s.items, k);
    case StoreDead(k) => ClearCount(s.items, k);
    case Die(k) => ClearCount(s.items, k);
  }

  lemma CreateCounts(s: State, k: nat)
    requires Counted(s) && Enabled(s, Create(k))
    ensures Counted(CreateStep(s, k))
  {
    if s.stage == NAMED {
      StoreCount(s.items, k, Creating);
    } else if s.stage >= READY {
      StoreCount(s.items, k, Held(true, true));
    }
  }

  lemma DropCounts(s: State, k: nat)
    requires Counted(s) && Enabled(s, Drop(k))
    ensures Counted(ApplyItem(s, Drop(k)))
  {
    UpDown(Recorded(s));
    if s.items[k].rw {
      StoreCount(s.items, k, Dropped(s.items[k].owner, s.rc));
    } else {
      ClearCount(s.items, k);
    }
  }

  lemma ItemStepCounts(s: State, a: Action)
    requires Counted(s) && Enabled(s, a) && !OfJanitor(a)
    ensures Counted(ApplyItem(s, a))
  {
    if a.Create? {
      CreateCounts(s, a.k);
    } else if a.BeginAttach? || a.Bump? || a.Recheck? || a.Undo? {
      AttachStepCounts(s, a);
    } else if !a.Enlist? {
      HandleStepCounts(s, a);
    }
  }

  /** A janitor changes neither the count nor any handle. */
  lemma JanitorFrame(s: State, a: Action)
    requires Enabled(s, a) && OfJanitor(a)
    ensures var t := ApplyJanitor(s, a);
            t.rc == s.rc && t.items == s.items && t.stage == s.stage && t.leaked == s.leaked
            && t.overwritten == s.overwritten
  {
  }

  lemma StepCounts(s: State, a: Action)
    requires Counted(s) && Enabled(s, a)
    ensures Counted(Apply(s, a))
  {
    if OfJanitor(a) { JanitorFrame(s, a); } else { ItemStepCounts(s, a); }
  }
}
