/** The inductive invariant of the record ring with at least two slots, and its preservation by every step. */
module RingInvariant {
  import opened Slots
  import opened RingProtocol

  /** Cursors: positions below `freed` have been consumed; at most one lap beyond it is claimed. */
  ghost predicate Cursors(s: State) {
    && s.head <= s.freed <= s.tail <= s.freed + s.n
    && s.freed <= s.head + 1
    && |s.claims| == s.tail
    && |s.delivered| == s.head
    && (forall q :: q in s.published ==> q < s.tail)
    && (forall q: nat :: q < s.freed ==> q in s.published)
  }

  /** A slot word names the one position of the current lap that owns the slot, plus one once published. */
  ghost predicate Words(s: State)
    requires Shape(s)
  {
    forall q: nat {:trigger Slot(q, s.n)} :: s.freed <= q < s.freed + s.n ==>
      s.seqs[Slot(q, s.n)] == if q in s.published then q + 1 else q
  }

  /** The slot memory holds the whole stored message. */
  predicate Holds(c: Cell, st: Stored) {
    c.len == |st.data| && c.typ == st.typ && c.flags == st.flags && c.user == st.user && st.data <= c.bytes
  }

  /** The first `done` stores of a record write have been made. */
  predicate Written(c: Cell, st: Stored, done: nat) {
    && (done > 0 ==> c.len == |st.data|)
    && (done > 1 ==> c.typ == st.typ)
    && (done > 2 ==> c.flags == st.flags)
    && (done > 3 ==> c.user == st.user)
    && |st.data| <= |c.bytes|
    && (forall k :: 0 <= k < |st.data| && k + 4 < done ==> c.bytes[k] == st.data[k])
  }

  /** Every published and unconsumed position still holds exactly the message claimed for it. */
  ghost predicate Cells(s: State)
    requires Shape(s) && Cursors(s)
  {
    forall q: nat {:trigger Slot(q, s.n)} :: s.freed <= q < s.tail && q in s.published ==>
      Holds(s.cells[Slot(q, s.n)], Store(s.claims[q].msg, s.cap))
  }

  /** A call still looking for a slot: what its possibly stale locals guarantee. */
  ghost predicate Seeking(s: State, p: nat, c: Call)
    requires c.AtLoad? || c.AtCas? || c.AtReload?
    requires |s.claims| == s.tail
  {
    && c.start <= c.pos <= s.tail
    && c.retry <= (c.pos - c.start) + c.spurious
    && c.retry <= RETRY_BUDGET
    && (forall q :: c.start <= q < s.tail ==> s.claims[q].pid != p)
    && (c.AtCas? ==> c.pos < s.freed + s.n && c.retry < RETRY_BUDGET)
    && (c.AtReload? ==> c.pos < s.tail && c.retry < RETRY_BUDGET)
  }

  /** Position `q` is claimed by `p` and neither published nor consumed. */
  ghost predicate Open(s: State, p: nat, q: nat)
    requires |s.claims| == s.tail
  {
    s.freed <= q < s.tail && q !in s.published && s.claims[q].pid == p
  }

  ghost predicate CallOk(s: State, p: nat, c: Call)
    requires Shape(s) && Cursors(s)
  {
    match c
    case AtFull(_) => true
    case Writing(msg, pos, done) =>
      && Open(s, p, pos) && s.claims[pos].msg == msg
      && done <= 4 + |Store(msg, s.cap).data|
      && Written(s.cells[Slot(pos, s.n)], Store(msg, s.cap), done)
    case Died(held) => held.Position? ==> Open(s, p, held.q)
    case _ => Seeking(s, p, c)
  }

  ghost predicate Calls(s: State)
    requires Shape(s) && Cursors(s)
  {
    forall p :: p in s.calls ==> CallOk(s, p, s.calls[p])
  }

  /** The call holds position `q` between claim and publish, alive or dead. */
  predicate HoldsPosition(c: Call, q: nat) {
    (c.Writing? && c.pos == q) || (c.Died? && c.held == Position(q))
  }

  /** A claimed and unpublished position is held by the producer that claimed it. */
  ghost predicate Holders(s: State)
    requires Cursors(s)
  {
    forall q: nat :: q < s.tail && q !in s.published ==>
      s.claims[q].pid in s.calls && HoldsPosition(s.calls[s.claims[q].pid], q)
  }

  /** A popped record is the stored message, its payload cut to the caller's buffer. */
  predicate Fits(r: Popped, st: Stored) {
    && r.typ == st.typ && r.flags == st.flags && r.user == st.user
    && r.size == |st.data| && r.data == st.data[..Min(r.room, |st.data|)]
  }

  /** The flags a message is stored under: its own, with bit 0 set if it is cut to `cap` bytes. */
  predicate FlagsFor(flags: nat, m: Message, cap: nat) {
    if |m.payload| <= cap then flags == m.flags else flags % 2 == 1 && flags / 2 == m.flags / 2
  }

  /** The popped record is the message: its type, user value and flags, the length stored of it, and as much of that as
      the caller's buffer takes. */
  predicate Delivers(r: Popped, m: Message, cap: nat) {
    var size := if |m.payload| <= cap then |m.payload| else cap;
    && r.typ == m.typ && r.user == m.user && FlagsFor(r.flags, m, cap)
    && r.size == size && r.data == m.payload[..if r.room <= size then r.room else size]
  }

  /** The slot memory holds the message, cut to `cap` bytes. */
  predicate Carries(c: Cell, m: Message, cap: nat) {
    var size := if |m.payload| <= cap then |m.payload| else cap;
    && c.typ == m.typ && c.user == m.user && FlagsFor(c.flags, m, cap)
    && c.len == size && m.payload[..size] <= c.bytes
  }

  /** What it means to hold the stored form of a message, said of the message itself. */
  lemma HeldMeans(c: Cell, m: Message, cap: nat)
    ensures Holds(c, Store(m, cap)) <==> Carries(c, m, cap)
  {
    StoreKeeps(m, cap);
    FlagsUnique(m.flags);
    assert |m.payload| <= cap ==> m.payload[..|m.payload|] == m.payload;
  }

  /** And to hand it out. */
  lemma DeliveredMeans(r: Popped, m: Message, cap: nat)
    ensures Fits(r, Store(m, cap)) <==> Delivers(r, m, cap)
  {
    StoreKeeps(m, cap);
    FlagsUnique(m.flags);
    assert |m.payload| <= cap ==> m.payload[..|m.payload|] == m.payload;
  }

  lemma FlagsUnique(flags: nat)
    ensures forall a: nat, b: nat :: a % 2 == 1 && b % 2 == 1 && a / 2 == flags / 2 && b / 2 == flags / 2 ==> a == b
  {
  }

  /** What has been copied out so far agrees with the stored message. */
  predicate PartOk(part: Part, room: nat, st: Stored) {
    && part.stage <= 4
    && (part.stage >= 1 ==> part.size == |st.data| && |part.data| <= Min(room, |st.data|)
                            && part.data == st.data[..|part.data|])
    && (part.stage >= 2 ==> |part.data| == Min(room, |st.data|) && part.typ == st.typ)
    && (part.stage >= 3 ==> part.flags == st.flags)
    && (part.stage >= 4 ==> part.user == st.user)
  }

  ghost predicate ConsumerOk(s: State)
    requires Cursors(s)
  {
    match s.consumer
    case HeadLoaded(_, pos) => pos == s.head
    case Copying(room, pos, part) =>
      && pos == s.head == s.freed && pos < s.tail && pos in s.published
      && PartOk(part, room, Store(s.claims[pos].msg, s.cap))
    case SlotFreed(pos, out) =>
      pos == s.head && s.freed == s.head + 1 && Fits(out, Store(s.claims[pos].msg, s.cap))
    case _ => true
  }

  /** The records handed out are the claimed messages, in claim order and intact. */
  ghost predicate Deliveries(s: State)
    requires Cursors(s)
  {
    forall i :: 0 <= i < s.head ==> Fits(s.delivered[i], Store(s.claims[i].msg, s.cap))
  }

  ghost predicate Inv(s: State) {
    Shape(s) && Cursors(s) && Words(s) && Cells(s) && Calls(s) && Holders(s) && ConsumerOk(s) && Deliveries(s)
  }

  lemma InitialInv(n: nat, cap: nat)
    requires n > 0
    ensures Inv(Initial(n, cap))
  {
    var s := Initial(n, cap);
    forall q: nat | s.freed <= q < s.freed + s.n
      ensures s.seqs[Slot(q, s.n)] == q
    {
      assert Slot(q, s.n) == q;
    }
  }

  /** Steps that change only the entry of call `p`, to one that is valid and holds the same position. */
  lemma CallStep(s: State, p: nat, c: Call)
    requires Inv(s)
    requires CallOk(s, p, c)
    requires forall q :: p in s.calls && HoldsPosition(s.calls[p], q) ==> HoldsPosition(c, q)
    ensures Inv(s.(calls := s.calls[p := c]))
  {
    var t := s.(calls := s.calls[p := c]);
    forall x | x in t.calls ensures CallOk(t, x, t.calls[x]) {
      assert CallOk(s, x, t.calls[x]);
    }
    forall q: nat | q < t.tail && q !in t.published
      ensures t.claims[q].pid in t.calls && HoldsPosition(t.calls[t.claims[q].pid], q)
    {
    }
    assert Words(t) && Cells(t) && ConsumerOk(t) && Deliveries(t);
  }

  /** Why a stale sequence word is still a sound basis for a claim: the branch taken after the load tells
      whether the position is free, taken, or a whole lap ahead of the consumer. */
  lemma LoadedWord(s: State, pos: nat)
    requires Inv(s) && s.n >= 2 && pos <= s.tail
    ensures var word := s.seqs[Slot(pos, s.n)];
            && (word == pos ==> pos < s.freed + s.n)
            && (word > pos ==> pos < s.tail)
            && (word < pos ==> pos == s.tail == s.freed + s.n)
  {
    if pos < s.freed {
      var q := LaterSharer(pos, s.freed, s.n);
      assert s.seqs[Slot(q, s.n)] >= q;
    } else if pos == s.freed + s.n {
      assert Slot(pos, s.n) == Slot(s.freed, s.n);
      assert s.seqs[Slot(s.freed, s.n)] <= s.freed + 1;
    } else {
      assert s.seqs[Slot(pos, s.n)] == if pos in s.published then pos + 1 else pos;
    }
  }

  lemma LoadSeqKeeps(s: State, p: nat)
    requires Inv(s) && s.n >= 2 && Enabled(s, LoadSeq(p))
    ensures Inv(Apply(s, LoadSeq(p)))
  {
    var c := s.calls[p];
    assert CallOk(s, p, c);
    LoadedWord(s, c.pos);
    CallStep(s, p, AfterLoad(c, s.seqs[Slot(c.pos, s.n)]));
  }

  lemma RetryKeeps(s: State, a: Action)
    requires Inv(s) && Enabled(s, a)
    requires (a.Cas? && s.tail != s.calls[a.p].pos) || a.CasSpurious? || a.Reload? || a.GiveUp? || a.Begin? || a.Die?
    ensures Inv(Apply(s, a))
  {
    if a.Begin? {
      CallStep(s, a.p, AtLoad(a.msg, 0, s.tail, s.tail, 0));
    } else {
      var c := s.calls[a.p];
      assert CallOk(s, a.p, c);
      var d := Apply(s, a).calls[a.p];
      CallStep(s, a.p, d);
      assert Apply(s, a) == s.(calls := s.calls[a.p := d]);
    }
  }

  lemma ClaimCalls(s: State, p: nat)
    requires Inv(s) && Enabled(s, Cas(p)) && s.tail == s.calls[p].pos && Cursors(Apply(s, Cas(p)))
    ensures Calls(Apply(s, Cas(p)))
  {
    var t := Apply(s, Cas(p));
    assert CallOk(s, p, s.calls[p]);
    forall x | x in t.calls ensures CallOk(t, x, t.calls[x]) {
      if x != p {
        assert CallOk(s, x, s.calls[x]);
      }
    }
  }

  /** A compare-and-swap that succeeds takes a position whose slot is free, however old its sequence read is. */
  lemma ClaimKeeps(s: State, p: nat)
    requires Inv(s) && Enabled(s, Cas(p)) && s.tail == s.calls[p].pos
    ensures Inv(Apply(s, Cas(p)))
    ensures s.seqs[Slot(s.tail, s.n)] == s.tail && s.tail < s.freed + s.n
  {
    assert CallOk(s, p, s.calls[p]);
    var t := Apply(s, Cas(p));
    ClaimCalls(s, p);
    forall q: nat | q < t.tail && q !in t.published
      ensures t.claims[q].pid in t.calls && HoldsPosition(t.calls[t.claims[q].pid], q)
    {
      if q < s.tail {
        assert s.claims[q].pid in s.calls && HoldsPosition(s.calls[s.claims[q].pid], q);
      }
    }
    assert Deliveries(t);
  }

  lemma CountLossKeeps(s: State, p: nat)
    requires Inv(s) && Enabled(s, CountLoss(p))
    ensures Inv(Apply(s, CountLoss(p)))
  {
    var t := Apply(s, CountLoss(p));
    forall x | x in t.calls ensures CallOk(t, x, t.calls[x]) {
      assert CallOk(s, x, s.calls[x]);
    }
    assert Words(t) && Cells(t) && Holders(t);
  }

  /** Two claimed and unconsumed positions use different slots. */
  lemma OpenSlotsDiffer(s: State, p: nat, q: nat)
    requires Shape(s) && Cursors(s)
    requires s.freed <= p < s.tail && s.freed <= q < s.tail && p != q
    ensures Slot(p, s.n) != Slot(q, s.n)
  {
    LapDistinct(s.freed, s.n);
  }

  lemma WriteFieldWritten(c: Cell, st: Stored, done: nat)
    requires |st.data| <= |c.bytes| && done < 4 + |st.data| && Written(c, st, done)
    ensures Written(WriteField(c, st, done), st, done + 1)
  {
  }

  lemma WriteCalls(s: State, p: nat)
    requires Inv(s) && Enabled(s, Write(p)) && Cursors(Apply(s, Write(p)))
    ensures Calls(Apply(s, Write(p)))
  {
    var c := s.calls[p];
    assert CallOk(s, p, c);
    var t := Apply(s, Write(p));
    WriteFieldWritten(s.cells[Slot(c.pos, s.n)], Store(c.msg, s.cap), c.done);
    forall x | x in t.calls ensures CallOk(t, x, t.calls[x]) {
      if x != p {
        assert CallOk(s, x, s.calls[x]);
        if t.calls[x].Writing? { OpenSlotsDiffer(s, t.calls[x].pos, c.pos); }
      }
    }
  }

  lemma WriteKeeps(s: State, p: nat)
    requires Inv(s) && Enabled(s, Write(p))
    ensures Inv(Apply(s, Write(p)))
  {
    var c := s.calls[p];
    assert CallOk(s, p, c);
    var t := Apply(s, Write(p));
    WriteCalls(s, p);
    forall q: nat | t.freed <= q < t.tail && q in t.published
      ensures Holds(t.cells[Slot(q, t.n)], Store(t.claims[q].msg, t.cap))
    {
      OpenSlotsDiffer(s, q, c.pos);
    }
    assert Words(t);
    WriteHolders(s, p);
  }

  lemma WriteHolders(s: State, p: nat)
    requires Inv(s) && Enabled(s, Write(p)) && Cursors(Apply(s, Write(p)))
    ensures Holders(Apply(s, Write(p)))
  {
    var t := Apply(s, Write(p));
    forall q: nat | q < t.tail && q !in t.published
      ensures t.claims[q].pid in t.calls && HoldsPosition(t.calls[t.claims[q].pid], q)
    {
      assert s.claims[q].pid in s.calls && HoldsPosition(s.calls[s.claims[q].pid], q);
    }
  }

  lemma WrittenHolds(c: Cell, st: Stored)
    requires Written(c, st, 4 + |st.data|)
    ensures Holds(c, st)
  {
    assert c.bytes[..|st.data|] == st.data;
  }

  lemma PublishKeeps(s: State, p: nat)
    requires Inv(s) && Enabled(s, Publish(p))
    ensures Inv(Apply(s, Publish(p)))
  {
    var c := s.calls[p];
    assert CallOk(s, p, c);
    var t := Apply(s, Publish(p));
    LapDistinct(s.freed, s.n);
    assert Cursors(t);
    forall q: nat | t.freed <= q < t.freed + t.n
      ensures t.seqs[Slot(q, t.n)] == if q in t.published then q + 1 else q
    {
      assert s.seqs[Slot(q, s.n)] == if q in s.published then q + 1 else q;
    }
    forall q: nat | t.freed <= q < t.tail && q in t.published
      ensures Holds(t.cells[Slot(q, t.n)], Store(t.claims[q].msg, t.cap))
    {
      if q == c.pos { WrittenHolds(s.cells[Slot(q, s.n)], Store(c.msg, s.cap)); }
    }
    PublishCalls(s, p);
  }

  lemma PublishCalls(s: State, p: nat)
    requires Inv(s) && Enabled(s, Publish(p))
    requires Cursors(Apply(s, Publish(p)))
    ensures Calls(Apply(s, Publish(p))) && Holders(Apply(s, Publish(p)))
  {
    var c := s.calls[p];
    assert CallOk(s, p, c);
    var t := Apply(s, Publish(p));
    forall x | x in t.calls ensures CallOk(t, x, t.calls[x]) {
      assert CallOk(s, x, s.calls[x]);
      assert x != p;
    }
    forall q: nat | q < t.tail && q !in t.published
      ensures t.claims[q].pid in t.calls && HoldsPosition(t.calls[t.claims[q].pid], q)
    {
      assert s.claims[q].pid in s.calls && HoldsPosition(s.calls[s.claims[q].pid], q);
    }
  }

  /** Steps that change only the consumer's program point. */
  lemma ConsumerStep(s: State, c: Consumer)
    requires Inv(s) && ConsumerOk(s.(consumer := c))
    ensures Inv(s.(consumer := c))
  {
    var t := s.(consumer := c);
    forall x | x in t.calls ensures CallOk(t, x, t.calls[x]) {
      assert CallOk(s, x, s.calls[x]);
    }
    assert Words(t) && Cells(t) && Holders(t) && Deliveries(t);
  }

  /** The ready check passes only on a published record that has not been consumed. */
  lemma CheckedWord(s: State)
    requires Inv(s) && s.n >= 2
    requires s.seqs[Slot(s.head, s.n)] == s.head + 1
    ensures s.head == s.freed && s.head in s.published
  {
    assert Slot(s.head + s.n, s.n) == Slot(s.head, s.n);
    assert s.seqs[Slot(s.freed, s.n)] == if s.freed in s.published then s.freed + 1 else s.freed;
  }

  lemma PopCheckKeeps(s: State)
    requires Inv(s) && s.n >= 2 && Enabled(s, PopCheck)
    ensures Inv(Apply(s, PopCheck))
  {
    if s.seqs[Slot(s.head, s.n)] == s.head + 1 {
      CheckedWord(s);
    }
    ConsumerStep(s, Apply(s, PopCheck).consumer);
  }

  lemma ReadFieldOk(c: Cell, part: Part, room: nat, cap: nat, st: Stored)
    requires |c.bytes| == cap && |st.data| <= cap && part.stage < 4
    requires Holds(c, st) && PartOk(part, room, st)
    ensures PartOk(ReadField(c, part, room, cap), room, st)
  {
    if part.stage == 1 && BytesLeft(part, room) {
      assert st.data[..|part.data| + 1] == st.data[..|part.data|] + [st.data[|part.data|]];
    }
  }

  lemma PopReadKeeps(s: State)
    requires Inv(s) && Enabled(s, PopRead)
    ensures Inv(Apply(s, PopRead))
  {
    var c := s.consumer;
    ReadFieldOk(s.cells[Slot(c.pos, s.n)], c.part, c.room, s.cap, Store(s.claims[c.pos].msg, s.cap));
    ConsumerStep(s, Apply(s, PopRead).consumer);
  }

  lemma PopFreeWords(s: State)
    requires Inv(s) && s.n >= 2 && Enabled(s, PopFree)
    ensures Words(Apply(s, PopFree))
  {
    var t := Apply(s, PopFree);
    var pos := s.consumer.pos;
    LapDistinct(s.freed, s.n);
    forall q: nat | t.freed <= q < t.freed + t.n
      ensures t.seqs[Slot(q, t.n)] == if q in t.published then q + 1 else q
    {
      if q == pos + s.n {
        assert Slot(q, s.n) == Slot(pos, s.n);
      } else {
        assert s.seqs[Slot(q, s.n)] == if q in s.published then q + 1 else q;
      }
    }
  }

  lemma PopFreeCalls(s: State)
    requires Inv(s) && Enabled(s, PopFree) && Cursors(Apply(s, PopFree))
    ensures Calls(Apply(s, PopFree)) && Holders(Apply(s, PopFree))
  {
    var t := Apply(s, PopFree);
    forall x | x in t.calls ensures CallOk(t, x, t.calls[x]) {
      assert CallOk(s, x, s.calls[x]);
    }
  }

  lemma CopiedFits(part: Part, room: nat, st: Stored)
    requires PartOk(part, room, st) && part.stage == 4
    ensures Fits(Popped(room, part.typ, part.flags, part.user, part.size, part.data), st)
  {
  }

  lemma PopFreeKeeps(s: State)
    requires Inv(s) && s.n >= 2 && Enabled(s, PopFree)
    ensures Inv(Apply(s, PopFree))
  {
    var c := s.consumer;
    CopiedFits(c.part, c.room, Store(s.claims[c.pos].msg, s.cap));
    PopFreeWords(s);
    PopFreeCalls(s);
    assert Cells(Apply(s, PopFree));
  }

  lemma PopAdvanceKeeps(s: State)
    requires Inv(s) && Enabled(s, PopAdvance)
    ensures Inv(Apply(s, PopAdvance))
  {
    var t := Apply(s, PopAdvance);
    forall x | x in t.calls ensures CallOk(t, x, t.calls[x]) {
      assert CallOk(s, x, s.calls[x]);
    }
    assert Words(t) && Cells(t) && Holders(t);
  }

  /** Every step of every actor keeps the invariant, as long as the ring has at least two slots. */
  lemma StepKeeps(s: State, a: Action)
    requires Inv(s) && s.n >= 2 && Enabled(s, a)
    ensures Inv(Apply(s, a)) && Apply(s, a).n == s.n && Apply(s, a).cap == s.cap
  {
    match a
    case Begin(_, _) => RetryKeeps(s, a);
    case LoadSeq(p) => LoadSeqKeeps(s, p);
    case Cas(p) => if s.tail == s.calls[p].pos { ClaimKeeps(s, p); } else { RetryKeeps(s, a); }
    case CasSpurious(_) => RetryKeeps(s, a);
    case Reload(_) => RetryKeeps(s, a);
    case GiveUp(_) => RetryKeeps(s, a);
    case CountLoss(p) => CountLossKeeps(s, p);
    case Write(p) => WriteKeeps(s, p);
    case Publish(p) => PublishKeeps(s, p);
    case Die(_) => RetryKeeps(s, a);
    case PopBegin(room) => ConsumerStep(s, HeadLoaded(room, s.head));
    case PopCheck => PopCheckKeeps(s);
    case PopRead => PopReadKeeps(s);
    case PopFree => PopFreeKeeps(s);
    case PopAdvance => PopAdvanceKeeps(s);
    case ConsumerDies => ConsumerStep(s, ConsumerDead);
    case ConsumerRestarts => ConsumerStep(s, Resting);
  }

  /** Every state of every run satisfies the invariant. */
  lemma {:induction false} RunKeeps(s: State, acts: seq<Action>)
    requires Inv(s) && s.n >= 2 && CanRun(s, acts)
    ensures Inv(Run(s, acts)) && Run(s, acts).n == s.n && Run(s, acts).cap == s.cap
    decreases |acts|
  {
    if acts == [] {
    } else {
      StepKeeps(s, acts[0]);
      RunKeeps(Apply(s, acts[0]), acts[1..]);
    }
  }
}
