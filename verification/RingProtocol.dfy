/**
 The multi-producer, single-consumer record ring as a step system.

 Every shared-memory access of `try_push` and `try_pop` is one step: the cursor and sequence loads, the
 compare-and-swap (including its spurious failures), each field and each payload byte of a record, and the
 two closing stores of a pop. Any number of producers interleave with one consumer, and any of them may die
 between two steps. Cursors are unbounded naturals: the model speaks of runs that end before a cursor
 reaches 2^63, where the signed difference of the code is exact.
 */
module RingProtocol {
  import opened Bytes
  import opened Slots

  const RETRY_BUDGET: nat := 64

  /** What a caller passes to `try_push`. */
  datatype Message = Message(typ: nat, flags: nat, user: nat, payload: seq<Byte>)

  /** What a slot holds for a message once truncated to the slot's capacity. */
  datatype Stored = Stored(typ: nat, flags: nat, user: nat, data: seq<Byte>)

  /** Sets bit 0 of a flag word, RECORD_FLAG_TRUNCATED. */
  function WithTruncated(flags: nat): (r: nat) {
    if flags % 2 == 0 then flags + 1 else flags
  }

  function Store(m: Message, cap: nat): (r: Stored)
    ensures |r.data| <= cap && r.data <= m.payload
  {
    if |m.payload| > cap
    then Stored(m.typ, WithTruncated(m.flags), m.user, m.payload[..cap])
    else Stored(m.typ, m.flags, m.user, m.payload)
  }

  /** A message that fits is stored whole and unchanged; of a longer one the first `cap` bytes are, with bit 0 of the
      flags set and the other bits unchanged. */
  lemma StoreKeeps(m: Message, cap: nat)
    ensures var st := Store(m, cap);
            && st.typ == m.typ && st.user == m.user
            && (|m.payload| <= cap ==> st.data == m.payload && st.flags == m.flags)
            && (|m.payload| > cap ==> st.data == m.payload[..cap] && st.flags % 2 == 1 && st.flags / 2 == m.flags / 2)
  {
  }

  /** Raw memory of one record slot: the record header and `cap` payload bytes. */
  datatype Cell = Cell(len: nat, typ: nat, flags: nat, user: nat, bytes: seq<Byte>)

  /** A successful claim: which producer took the position, and for which message. */
  datatype Claim = Claim(pid: nat, msg: Message)

  /** A `try_push` call in flight, by the program point it has reached. `start` is the tail the call first
      read and `spurious` the compare-and-swaps that failed although the tail was as expected. */
  datatype Call =
    | AtLoad(msg: Message, retry: nat, pos: nat, start: nat, spurious: nat)
    | AtCas(msg: Message, retry: nat, pos: nat, start: nat, spurious: nat)
    | AtReload(msg: Message, retry: nat, pos: nat, start: nat, spurious: nat)
    | AtFull(msg: Message)
    | Writing(msg: Message, pos: nat, done: nat)
    | Died(held: Held)

  /** The claimed and unpublished position a dead producer leaves behind, if any. */
  datatype Held = Nothing | Position(q: nat)

  /** What the consumer has read so far of the record it is copying out. */
  datatype Part = Part(stage: nat, size: nat, data: seq<Byte>, typ: nat, flags: nat, user: nat)

  /** What a successful `try_pop` with an output buffer of `room` bytes hands back. */
  datatype Popped = Popped(room: nat, typ: nat, flags: nat, user: nat, size: nat, data: seq<Byte>)

  datatype Consumer =
    | Resting
    | HeadLoaded(room: nat, pos: nat)
    | Copying(room: nat, pos: nat, part: Part)
    | SlotFreed(pos: nat, out: Popped)
    | ConsumerDead

  /** How a `try_push` call ended. */
  datatype Outcome = Outcome(pid: nat, msg: Message, ok: bool)

  /** Shared memory, the actors, and four histories: the number of slot-free stores, the claims in claim
      order, the positions published, the records handed out and the calls that returned. */
  datatype State = State(
    n: nat, cap: nat,
    head: nat, tail: nat, lost: nat, seqs: seq<nat>, cells: seq<Cell>,
    calls: map<nat, Call>, consumer: Consumer,
    freed: nat, claims: seq<Claim>, published: set<nat>, delivered: seq<Popped>, outcomes: seq<Outcome>)

  datatype Action =
    | Begin(p: nat, msg: Message)
    | LoadSeq(p: nat)
    | Cas(p: nat)
    | CasSpurious(p: nat)
    | Reload(p: nat)
    | GiveUp(p: nat)
    | CountLoss(p: nat)
    | Write(p: nat)
    | Publish(p: nat)
    | Die(p: nat)
    | PopBegin(room: nat)
    | PopCheck
    | PopRead
    | PopFree
    | PopAdvance
    | ConsumerDies
    | ConsumerRestarts

  /** The state `MpscRing::initialize` leaves. */
  function Initial(n: nat, cap: nat): (s: State)
    requires n > 0
  {
    State(n, cap, 0, 0, 0, seq(n, i => i), seq(n, _ => Cell(0, 0, 0, 0, seq(cap, _ => 0))),
          map[], Resting, 0, [], {}, [], [])
  }

  predicate Shape(s: State) {
    && s.n > 0
    && |s.seqs| == s.n
    && |s.cells| == s.n
    && (forall i :: 0 <= i < s.n ==> |s.cells[i].bytes| == s.cap)
  }

  function Min(a: nat, b: nat): (r: nat) {
    if a < b then a else b
  }

  /** Bytes still to be copied out before the remaining fields are read. */
  predicate BytesLeft(part: Part, room: nat) {
    part.stage == 1 && |part.data| < Min(room, part.size)
  }

  predicate Enabled(s: State, a: Action) {
    Shape(s) &&
    match a
    case Begin(p, _) => p !in s.calls
    case LoadSeq(p) => p in s.calls && s.calls[p].AtLoad? && s.calls[p].retry < RETRY_BUDGET
    case Cas(p) => p in s.calls && s.calls[p].AtCas?
    case CasSpurious(p) => p in s.calls && s.calls[p].AtCas? && s.tail == s.calls[p].pos
    case Reload(p) => p in s.calls && s.calls[p].AtReload?
    case GiveUp(p) => p in s.calls && s.calls[p].AtLoad? && s.calls[p].retry >= RETRY_BUDGET
    case CountLoss(p) => p in s.calls && s.calls[p].AtFull?
    case Write(p) => p in s.calls && s.calls[p].Writing? && s.calls[p].done < 4 + |Store(s.calls[p].msg, s.cap).data|
    case Publish(p) => p in s.calls && s.calls[p].Writing? && s.calls[p].done == 4 + |Store(s.calls[p].msg, s.cap).data|
    case Die(p) => p in s.calls && !s.calls[p].Died?
    case PopBegin(_) => s.consumer.Resting?
    case PopCheck => s.consumer.HeadLoaded?
    case PopRead => s.consumer.Copying? && s.consumer.part.stage < 4
    case PopFree => s.consumer.Copying? && s.consumer.part.stage == 4
    case PopAdvance => s.consumer.SlotFreed?
    case ConsumerDies => !s.consumer.ConsumerDead?
    case ConsumerRestarts => s.consumer.ConsumerDead?
  }

  /** The slot word loaded at the top of the retry loop decides the branch. */
  function AfterLoad(c: Call, word: nat): (r: Call)
    requires c.AtLoad?
  {
    if word == c.pos then AtCas(c.msg, c.retry, c.pos, c.start, c.spurious)
    else if word < c.pos then AtFull(c.msg)
    else AtReload(c.msg, c.retry, c.pos, c.start, c.spurious)
  }

  /** One store into the claimed record: length, type, flags, user value, then the payload byte by byte. */
  function WriteField(c: Cell, st: Stored, done: nat): (r: Cell)
    requires |st.data| <= |c.bytes|
    requires done < 4 + |st.data|
    ensures |r.bytes| == |c.bytes|
  {
    if done == 0 then c.(len := |st.data|)
    else if done == 1 then c.(typ := st.typ)
    else if done == 2 then c.(flags := st.flags)
    else if done == 3 then c.(user := st.user)
    else c.(bytes := c.bytes[done - 4 := st.data[done - 4]])
  }

  /** One load from the record being popped: length, then payload bytes, then type, flags and user value. */
  function ReadField(c: Cell, part: Part, room: nat, cap: nat): (r: Part)
    requires |c.bytes| == cap && part.stage < 4
  {
    if part.stage == 0 then part.(stage := 1, size := Min(c.len, cap), data := [])
    else if BytesLeft(part, room) && |part.data| < cap then part.(data := part.data + [c.bytes[|part.data|]])
    else if part.stage == 1 then part.(stage := 2, typ := c.typ)
    else if part.stage == 2 then part.(stage := 3, flags := c.flags)
    else part.(stage := 4, user := c.user)
  }

  function Holding(c: Call): (h: Held) {
    if c.Writing? then Position(c.pos) else Nothing
  }

  function Apply(s: State, a: Action): (t: State)
    requires Enabled(s, a)
  {
    match a
    case Begin(p, msg) => s.(calls := s.calls[p := AtLoad(msg, 0, s.tail, s.tail, 0)])
    case LoadSeq(p) =>
      var c := s.calls[p];
      s.(calls := s.calls[p := AfterLoad(c, s.seqs[Slot(c.pos, s.n)])])
    case Cas(p) =>
      var c := s.calls[p];
      if s.tail == c.pos then
        s.(tail := s.tail + 1, claims := s.claims + [Claim(p, c.msg)], calls := s.calls[p := Writing(c.msg, c.pos, 0)])
      else
        s.(calls := s.calls[p := AtLoad(c.msg, c.retry + 1, s.tail, c.start, c.spurious)])
    case CasSpurious(p) =>
      var c := s.calls[p];
      s.(calls := s.calls[p := AtLoad(c.msg, c.retry + 1, s.tail, c.start, c.spurious + 1)])
    case Reload(p) =>
      var c := s.calls[p];
      s.(calls := s.calls[p := AtLoad(c.msg, c.retry + 1, s.tail, c.start, c.spurious)])
    case GiveUp(p) => s.(calls := s.calls[p := AtFull(s.calls[p].msg)])
    case CountLoss(p) =>
      s.(lost := s.lost + 1, outcomes := s.outcomes + [Outcome(p, s.calls[p].msg, false)], calls := s.calls - {p})
    case Write(p) =>
      var c := s.calls[p];
      var i := Slot(c.pos, s.n);
      s.(cells := s.cells[i := WriteField(s.cells[i], Store(c.msg, s.cap), c.done)],
         calls := s.calls[p := Writing(c.msg, c.pos, c.done + 1)])
    case Publish(p) =>
      var c := s.calls[p];
      s.(seqs := s.seqs[Slot(c.pos, s.n) := c.pos + 1], published := s.published + {c.pos},
         outcomes := s.outcomes + [Outcome(p, c.msg, true)], calls := s.calls - {p})
    case Die(p) => s.(calls := s.calls[p := Died(Holding(s.calls[p]))])
    case PopBegin(room) => s.(consumer := HeadLoaded(room, s.head))
    case PopCheck =>
      var c := s.consumer;
      if s.seqs[Slot(c.pos, s.n)] == c.pos + 1
      then s.(consumer := Copying(c.room, c.pos, Part(0, 0, [], 0, 0, 0)))
      else s.(consumer := Resting)
    case PopRead =>
      var c := s.consumer;
      s.(consumer := Copying(c.room, c.pos, ReadField(s.cells[Slot(c.pos, s.n)], c.part, c.room, s.cap)))
    case PopFree =>
      var c := s.consumer;
      s.(seqs := s.seqs[Slot(c.pos, s.n) := c.pos + s.n], freed := c.pos + 1,
         consumer := SlotFreed(c.pos, Popped(c.room, c.part.typ, c.part.flags, c.part.user, c.part.size, c.part.data)))
    case PopAdvance =>
      s.(head := s.consumer.pos + 1, delivered := s.delivered + [s.consumer.out], consumer := Resting)
    case ConsumerDies => s.(consumer := ConsumerDead)
    case ConsumerRestarts => s.(consumer := Resting)
  }

  /** The actions `acts` are possible one after the other from `s`. */
  predicate CanRun(s: State, acts: seq<Action>)
    decreases |acts|
  {
    acts == [] || (Enabled(s, acts[0]) && CanRun(Apply(s, acts[0]), acts[1..]))
  }

  function Run(s: State, acts: seq<Action>): (t: State)
    requires CanRun(s, acts)
    decreases |acts|
  {
    if acts == [] then s else Run(Apply(s, acts[0]), acts[1..])
  }
}
