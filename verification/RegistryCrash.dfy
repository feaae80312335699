/**
 Crash safety of the shared registry. Every store a writer makes while it holds the control mutex is one step:
 the stores of `publish_slot`, the bitmap and count updates of register and unregister, and every store of the
 recovery itself. The holder may die between any two steps, any number of times; the next locker is told so by the
 robust mutex and repairs the payload before it goes on. The copy of a whole entry is one step here; `Seqlock`
 takes it apart.
 */
module RegistryCrash {
  import opened Base
  import opened RegistryTable
  import opened RegistryOps

  /** What a locker wants to do. `srcSeq` is the sequence word inside the entry that register copies. */
  datatype Op = Register(body: Body, srcSeq: bv32) | Unregister(key: string) | Inspect

  /** The robust mutex of POSIX.1-2017. */
  datatype Mutex = Unlocked | Held | OwnerDead | NotRecoverable

  /** The program point of the mutex holder. `s` is the sequence word it loaded. */
  datatype Pc =
    | Outside
    | Recover(i: nat, count: nat)
    | Marked(i: nat, count: nat, s: bv32)
    | Wiped(i: nat, count: nat, s: bv32)
    | Evened(i: nat, count: nat)
    | Counted(count: nat)
    | Repaired
    | Ready
    | SetBit(i: nat)
    | AddOne(i: nat)
    | Publish(i: nat, stage: nat, s: bv32)
    | DropBit(i: nat)
    | SubOne(i: nat)
    | Finished

  /** `op` is the operation the holder will run or is running; `base`, `from` and `last` record the map and table in
      which the last started operation began, and that operation. `dirty` says the mutex still has to be marked
      consistent. */
  datatype State = State(t: Table, mutex: Mutex, dirty: bool, pc: Pc, op: Op,
                         base: map<string, Body>, from: Table, last: Op)

  datatype Action = Lock(op: Op) | Step | MarkFails | Dies

  /** Register names a segment; every caller passes a validated, non-empty name. */
  predicate Named(op: Op) {
    op.Register? ==> Key(op.body) != ""
  }

  function SourceBody(op: Op): (b: Body) {
    if op.Register? then op.body else Empty()
  }

  function SourceSeq(op: Op): (s: bv32) {
    if op.Register? then op.srcSeq else 0
  }

  /** The first step of an operation, chosen by its scan of the table. */
  function StartPc(t: Table, op: Op): (pc: Pc)
    requires Sized(t)
  {
    match op
    case Inspect => Finished
    case Unregister(key) =>
      var i := Find(t, key, 0);
      if i < |t.slots| then Publish(i, 0, 0) else Finished
    case Register(body, _) =>
      var i, f := Find(t, Key(body), 0), FirstFree(t, 0);
      if i < |t.slots| then Publish(i, 0, 0) else if f < |t.slots| then SetBit(f) else Finished
  }

  /** The next store of `publish_slot` into `e`, `q` being the sequence word it loaded: the odd word, the whole-entry
      copy (which also copies the source's own sequence word), the odd word again, the next even word. */
  function PublishStore(e: Entry, op: Op, stage: nat, q: bv32): (r: Entry) {
    if stage == 0 then e.(seq_ := OddWord(q))
    else if stage == 1 then Entry(SourceSeq(op), SourceBody(op))
    else if stage == 2 then e.(seq_ := OddWord(q))
    else e.(seq_ := EvenWord(q))
  }

  /** One store by the holder of the mutex. */
  function Work(s: State): (r: State)
    requires Sized(s.t) && !s.pc.Outside?
  {
    var t := s.t;
    match s.pc
    case Outside => s
    case Recover(i, count) =>
      if i >= |t.slots| then s.(pc := Counted(count))
      else if !Healthy(t, i) then s.(t := WithSeq(t, i, t.slots[i].seq_ | 1), pc := Marked(i, count, t.slots[i].seq_))
      else s.(pc := Recover(i + 1, if t.bits[i] then count + 1 else count))
    case Marked(i, count, q) =>
      if i >= |t.slots| then s else s.(t := t.(slots := t.slots[i := Entry(0, Empty())]), pc := Wiped(i, count, q))
    case Wiped(i, count, q) =>
      if i >= |t.slots| then s else s.(t := WithSeq(t, i, ClearedSeq(q)), pc := Evened(i, count))
    case Evened(i, count) =>
      if i >= |t.slots| then s else s.(t := t.(bits := t.bits[i := false]), pc := Recover(i + 1, count))
    case Counted(count) => s.(t := t.(count := count), pc := Repaired)
    case Repaired => s.(dirty := false, pc := Ready)
    case Ready => s.(base := Dict(t), from := t, last := s.op, pc := StartPc(t, s.op))
    case SetBit(i) => if i >= |t.slots| then s else s.(t := t.(bits := t.bits[i := true]), pc := AddOne(i))
    case AddOne(i) => s.(t := t.(count := Increment(t.count)), pc := Publish(i, 0, 0))
    case Publish(i, stage, loaded) =>
      if i >= |t.slots| then s
      else
        var q := if stage == 0 then t.slots[i].seq_ else loaded;
        s.(t := t.(slots := t.slots[i := PublishStore(t.slots[i], s.op, stage, q)]),
           pc := if stage < 3 then Publish(i, stage + 1, q) else if s.op.Register? then Finished else DropBit(i))
    case DropBit(i) => if i >= |t.slots| then s else s.(t := t.(bits := t.bits[i := false]), pc := SubOne(i))
    case SubOne(i) => s.(t := t.(count := Decrement(t.count)), pc := Finished)
    case Finished => s.(mutex := if s.dirty then NotRecoverable else Unlocked, pc := Outside)
  }

  function WithSeq(t: Table, i: nat, q: bv32): (r: Table)
    requires Sized(t) && i < |t.slots|
  {
    t.(slots := t.slots[i := t.slots[i].(seq_ := q)])
  }

  predicate Enabled(s: State, a: Action) {
    match a
    case Lock(op) => (s.mutex.Unlocked? || s.mutex.OwnerDead?) && Named(op)
    case Step => s.mutex.Held? && Sized(s.t) && !s.pc.Outside?
    case MarkFails => s.mutex.Held? && s.pc.Repaired?
    case Dies => s.mutex.Held?
  }

  function Apply(s: State, a: Action): (r: State)
    requires Enabled(s, a)
  {
    match a
    case Lock(op) =>
      if s.mutex.Unlocked? then s.(mutex := Held, dirty := false, pc := Ready, op := op)
      else s.(mutex := Held, dirty := true, pc := Recover(0, 0), op := op)
    case Step => Work(s)
    case MarkFails => s.(mutex := NotRecoverable, pc := Outside)
    case Dies => s.(mutex := OwnerDead, pc := Outside)
  }

  function Initial(n: nat): (s: State) {
    var t := FreshTable(n);
    State(t, Unlocked, false, Outside, Inspect, map[], t, Inspect)
  }

  predicate CanRun(s: State, acts: seq<Action>)
    decreases |acts|
  {
    acts == [] || (Enabled(s, acts[0]) && CanRun(Apply(s, acts[0]), acts[1..]))
  }

  function Run(s: State, acts: seq<Action>): (r: State)
    requires CanRun(s, acts)
    decreases |acts|
  {
    if acts == [] then s else Run(Apply(s, acts[0]), acts[1..])
  }

  // ---------------------------------------------------------------- what a crash may leave

  /** The map after `op` completes on `base` in a table of `n` slots. */
  function AfterOp(base: map<string, Body>, op: Op, n: nat): (m: map<string, Body>) {
    match op
    case Register(body, _) => if Key(body) in base || |base| < n then base[Key(body) := body] else base
    case Unregister(key) => base - {key}
    case Inspect => base
  }

  /** The map without the name that `op` writes. */
  function WithoutKey(base: map<string, Body>, op: Op): (m: map<string, Body>) {
    match op
    case Register(body, _) => base - {Key(body)}
    case Unregister(key) => base - {key}
    case Inspect => base
  }

  /** Old map, new map, or old map without the name being written. */
  predicate Allowed(m: map<string, Body>, base: map<string, Body>, op: Op, n: nat) {
    m == base || m == AfterOp(base, op, n) || m == WithoutKey(base, op)
  }

  // ---------------------------------------------------------------- the invariant

  /** A repair of the table as it stands yields an allowed map. */
  ghost predicate Salvage(s: State)
    requires Sized(s.t)
  {
    DistinctKept(s.t) && Allowed(Dict(Repair(s.t)), s.base, s.last, |s.t.slots|)
  }

  /** The recovery has dealt with the slots below `i` and counted `count` occupied ones. */
  ghost predicate Swept(t: Table, i: nat, count: nat)
    requires Sized(t)
  {
    i <= |t.slots| && (forall j :: 0 <= j < i ==> Healthy(t, j)) && count == CountBelow(t.bits, i)
  }

  /** Slot `i` is where `op` writes in table `g`: the slot that holds its key, or for a register a free slot. */
  ghost predicate Target(g: Table, op: Op, i: nat)
    requires Sized(g)
  {
    && i < |g.slots|
    && match op
       case Register(body, _) => FreshExcept(g, i, Key(body)) && (g.bits[i] ==> Key(g.slots[i].body) == Key(body))
       case Unregister(key) => At(g, i, key)
       case Inspect => false
  }

  /** The slot after `stage` stores of `publish_slot` over `e`. */
  function PublishedTo(e: Entry, op: Op, stage: nat): (r: Entry) {
    if stage == 0 then e
    else if stage == 1 then e.(seq_ := OddWord(e.seq_))
    else if stage == 2 then Entry(SourceSeq(op), SourceBody(op))
    else if stage == 3 then Entry(OddWord(e.seq_), SourceBody(op))
    else Entry(EvenWord(e.seq_), SourceBody(op))
  }

  /** The bits and count under which `op` publishes. */
  function OpBits(g: Table, op: Op, i: nat): (bits: seq<bool>)
    requires Sized(g) && i < |g.slots|
  {
    if op.Register? then g.bits[i := true] else g.bits
  }

  function OpCount(g: Table, op: Op, i: nat): (n: nat)
    requires Sized(g) && i < |g.slots|
  {
    if op.Register? && !g.bits[i] then Increment(g.count) else g.count
  }

  /** What the table is while an operation writes, relative to the table it started from. */
  ghost predicate InOp(s: State)
    requires Sized(s.t) && Sized(s.from)
  {
    var g, t, op := s.from, s.t, s.op;
    match s.pc
    case SetBit(i) => op.Register? && Target(g, op, i) && !g.bits[i] && t == g
    case AddOne(i) => op.Register? && Target(g, op, i) && !g.bits[i] && t == g.(bits := g.bits[i := true])
    case Publish(i, stage, q) =>
      && Target(g, op, i) && stage < 4 && (stage > 0 ==> q == g.slots[i].seq_)
      && t == Table(OpCount(g, op, i), OpBits(g, op, i), g.slots[i := PublishedTo(g.slots[i], op, stage)])
    case DropBit(i) =>
      op.Unregister? && Target(g, op, i) && t == g.(slots := g.slots[i := Published(g.slots[i], Empty())])
    case SubOne(i) =>
      op.Unregister? && Target(g, op, i)
      && t == g.(slots := g.slots[i := Published(g.slots[i], Empty())], bits := g.bits[i := false])
    case _ => false
  }

  ghost predicate HolderOk(s: State)
    requires Sized(s.t)
  {
    match s.pc
    case Outside => false
    case Recover(i, count) => s.dirty && Salvage(s) && Swept(s.t, i, count)
    case Marked(i, count, q) =>
      s.dirty && Salvage(s) && i < |s.t.slots| && Swept(s.t, i, count) && Odd(s.t.slots[i].seq_)
    case Wiped(i, count, q) =>
      s.dirty && Salvage(s) && i < |s.t.slots| && Swept(s.t, i, count) && s.t.slots[i] == Entry(0, Empty())
    case Evened(i, count) =>
      s.dirty && Salvage(s) && i < |s.t.slots| && Swept(s.t, i, count)
      && s.t.slots[i].body == Empty() && !Odd(s.t.slots[i].seq_)
    case Counted(count) => s.dirty && Salvage(s) && Swept(s.t, |s.t.slots|, count)
    case Repaired => s.dirty && Good(s.t) && Allowed(Dict(s.t), s.base, s.last, |s.t.slots|)
    case Ready => !s.dirty && Good(s.t) && Allowed(Dict(s.t), s.base, s.last, |s.t.slots|)
    case Finished => !s.dirty && Good(s.t) && Dict(s.t) == AfterOp(s.base, s.last, |s.t.slots|)
    case _ =>
      && !s.dirty && s.last == s.op && Good(s.from) && s.base == Dict(s.from) && |s.from.slots| == |s.t.slots|
      && InOp(s)
  }

  ghost predicate Inv(s: State) {
    && Sized(s.t) && |s.t.slots| < U32 && Named(s.op) && Named(s.last)
    && match s.mutex
       case Unlocked => Good(s.t) && Dict(s.t) == AfterOp(s.base, s.last, |s.t.slots|)
       case Held => HolderOk(s)
       case OwnerDead => Salvage(s)
       case NotRecoverable => true
  }
}
