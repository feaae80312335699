/**
 The uncontended record ring as a value: cursors, slot words and record slots, what a push and a pop make of
 them, and the bounded queue they implement.
 */
module RingView {
  import opened Base
  import opened Slots
  import opened RingProtocol
  import opened RingInvariant
  import opened RingTheorems
  import opened RingSingleSlot

  datatype View = View(n: nat, cap: nat, head: nat, tail: nat, lost: nat, seqs: seq<nat>, cells: seq<Cell>)

  predicate Sized(v: View) {
    v.n > 0 && |v.seqs| == v.n && |v.cells| == v.n && forall i :: 0 <= i < v.n ==> |v.cells[i].bytes| == v.cap
  }

  /** Slot memory after a whole record has been stored over `c`. */
  function Filled(c: Cell, st: Stored): (r: Cell)
    requires |st.data| <= |c.bytes|
    ensures |r.bytes| == |c.bytes| && Holds(r, st)
  {
    Cell(|st.data|, st.typ, st.flags, st.user, st.data + c.bytes[|st.data|..])
  }

  /** An uncontended push; `claims` is false when all 64 compare-and-swaps fail spuriously. */
  function PushView(v: View, msg: Message, claims: bool): (r: (View, bool))
    requires Sized(v)
    ensures Sized(r.0)
  {
    var i := Slot(v.tail, v.n);
    if v.seqs[i] == v.tail && claims then
      (v.(tail := v.tail + 1, seqs := v.seqs[i := v.tail + 1],
          cells := v.cells[i := Filled(v.cells[i], Store(msg, v.cap))]), true)
    else (v.(lost := v.lost + 1), false)
  }

  /** A push in its two parts: the claim of the tail, then the record and the slot word that publishes it. */
  lemma PushParts(v: View, msg: Message, claims: bool)
    requires Sized(v)
    ensures var i := Slot(v.tail, v.n);
            PushView(v, msg, claims)
            == if v.seqs[i] == v.tail && claims
               then (Published(v.(tail := v.tail + 1), v.tail, msg), true) else (v.(lost := v.lost + 1), false)
  {
  }

  function Published(v: View, pos: nat, msg: Message): (w: View)
    requires Sized(v)
    ensures Sized(w)
  {
    var i := Slot(pos, v.n);
    v.(cells := v.cells[i := Filled(v.cells[i], Store(msg, v.cap))], seqs := v.seqs[i := pos + 1])
  }

  /** The record a pop with `room` bytes of output takes from slot memory `c`. */
  function Take(c: Cell, room: nat): (r: Popped) {
    var size := Min(c.len, |c.bytes|);
    Popped(room, c.typ, c.flags, c.user, size, c.bytes[..Min(room, size)])
  }

  function PopView(v: View, room: nat): (r: (View, Option<Popped>))
    requires Sized(v)
    ensures Sized(r.0)
  {
    var i := Slot(v.head, v.n);
    if v.seqs[i] == v.head + 1 then
      (v.(head := v.head + 1, seqs := v.seqs[i := v.head + v.n]), Some(Take(v.cells[i], room)))
    else (v, None)
  }

  function EmptyView(n: nat, cap: nat): (v: View)
    requires n > 0
    ensures Sized(v)
  {
    View(n, cap, 0, 0, 0, seq(n, i => i), seq(n, _ => Cell(0, 0, 0, 0, seq(cap, _ => 0))))
  }

  // ---------------------------------------------------------------- the bounded queue behind the view

  /** The view is that of a queue holding `items`. */
  ghost predicate Queues(v: View, items: seq<Stored>) {
    && Sized(v)
    && v.tail == v.head + |items| && |items| <= v.n
    && (forall q: nat {:trigger Slot(q, v.n)} :: v.head <= q < v.head + v.n ==>
          v.seqs[Slot(q, v.n)] == if q < v.tail then q + 1 else q)
    && (forall q: nat {:trigger Slot(q, v.n)} :: v.head <= q < v.tail ==>
          Holds(v.cells[Slot(q, v.n)], items[q - v.head]))
  }

  /** A one-slot ring whose only slot has been overwritten. */
  predicate Overwritten(v: View) {
    Sized(v) && v.n == 1 && v.tail >= v.head + 2 && v.seqs[0] == v.tail
  }

  lemma EmptyQueues(n: nat, cap: nat)
    requires n > 0
    ensures Queues(EmptyView(n, cap), [])
  {
    forall q: nat | q < n ensures Slot(q, n) == q {
    }
  }

  lemma TailWord(v: View, items: seq<Stored>)
    requires Queues(v, items)
    ensures |items| < v.n ==> v.seqs[Slot(v.tail, v.n)] == v.tail
    ensures |items| == v.n ==> v.seqs[Slot(v.tail, v.n)] == v.head + 1
  {
    if |items| == v.n {
      assert Slot(v.head + v.n, v.n) == Slot(v.head, v.n);
    }
  }

  lemma PushedWords(v: View, items: seq<Stored>, msg: Message)
    requires Queues(v, items) && |items| < v.n
    ensures var w := PushView(v, msg, true).0;
            forall q: nat {:trigger Slot(q, v.n)} :: v.head <= q < v.head + v.n ==>
              && w.seqs[Slot(q, v.n)] == (if q < w.tail then q + 1 else q)
              && (q != v.tail ==> w.cells[Slot(q, v.n)] == v.cells[Slot(q, v.n)])
  {
    TailWord(v, items);
    LapDistinct(v.head, v.n);
  }

  lemma PushAppends(v: View, items: seq<Stored>, msg: Message)
    requires Queues(v, items) && |items| < v.n
    ensures var (w, ok) := PushView(v, msg, true); ok && w.lost == v.lost && Queues(w, items + [Store(msg, v.cap)])
  {
    TailWord(v, items);
    PushedWords(v, items, msg);
  }

  /** A push appends the truncated message exactly when the queue holds fewer than `n` records and the claim is
      not defeated by spurious failures; otherwise it counts one loss. With one slot and one record waiting the
      push goes through and overwrites the record. */
  lemma PushRefines(v: View, items: seq<Stored>, msg: Message, claims: bool)
    requires Queues(v, items)
    ensures var (w, ok) := PushView(v, msg, claims);
            if claims && |items| < v.n then
              && ok && w.lost == v.lost && Queues(w, items + [Store(msg, v.cap)])
              && Carries(w.cells[Slot(v.tail, v.n)], msg, v.cap)
            else if claims && v.n == 1 then ok && Overwritten(w)
            else !ok && w == v.(lost := v.lost + 1) && Queues(w, items)
  {
    TailWord(v, items);
    if claims && |items| < v.n {
      PushAppends(v, items, msg);
      HeldMeans(PushView(v, msg, true).0.cells[Slot(v.tail, v.n)], msg, v.cap);
    } else if claims && v.n == 1 {
      assert Slot(v.tail, 1) == 0;
    }
  }

  lemma PopRefines(v: View, items: seq<Stored>, room: nat)
    requires Queues(v, items)
    ensures var (w, r) := PopView(v, room);
            if items == [] then r == None && w == v
            else r.Some? && r.value.room == room && Fits(r.value, items[0]) && Queues(w, items[1..]) && w.lost == v.lost
  {
    assert Slot(v.head, v.n) == Slot(v.head + v.n, v.n);
    assert v.seqs[Slot(v.head, v.n)] == if items == [] then v.head else v.head + 1;
    if items != [] {
      PoppedWords(v, items, room);
      assert Holds(v.cells[Slot(v.head, v.n)], items[0]);
      TakeFits(v.cells[Slot(v.head, v.n)], items[0], room);
    }
  }

  lemma TakeFits(c: Cell, st: Stored, room: nat)
    requires Holds(c, st)
    ensures Fits(Take(c, room), st)
  {
    assert c.bytes[..|st.data|] == st.data;
  }

  lemma PoppedWords(v: View, items: seq<Stored>, room: nat)
    requires Queues(v, items) && items != []
    ensures Queues(PopView(v, room).0, items[1..])
  {
    var w := PopView(v, room).0;
    assert v.seqs[Slot(v.head, v.n)] == v.head + 1;
    LapDistinct(v.head, v.n);
    forall q: nat | w.head <= q < w.head + w.n
      ensures w.seqs[Slot(q, w.n)] == if q < w.tail then q + 1 else q
    {
      if q == v.head + v.n {
        assert Slot(q, v.n) == Slot(v.head, v.n);
      }
    }
  }

  /** An overwritten one-slot ring accepts every push that spurious failures do not defeat, and hands out nothing. */
  lemma OverwrittenStays(v: View, msg: Message, claims: bool, room: nat)
    requires Overwritten(v)
    ensures var (w, ok) := PushView(v, msg, claims);
            ok == claims && Overwritten(w) && w.lost == v.lost + (if claims then 0 else 1)
    ensures PopView(v, room) == (v, None)
  {
    assert Slot(v.tail, 1) == 0 && Slot(v.head, 1) == 0;
  }

  /** The pops of one batch, the first `k` of whose records are `acc`. The batch is limited to `|answers|` records
      and `answers[i]` is what the callback says to the i-th: the batch stops at an empty ring, at the limit, or
      after a declined record. */
  function DrainView(v: View, room: nat, answers: seq<bool>, k: nat, acc: seq<Popped>): (r: (View, seq<Popped>))
    requires Sized(v) && k <= |answers|
    ensures Sized(r.0)
    decreases |answers| - k
  {
    if k == |answers| then (v, acc)
    else
      var (w, p) := PopView(v, room);
      if p.None? then (w, acc)
      else if !answers[k] then (w, acc + [p.value])
      else DrainView(w, room, answers, k + 1, acc + [p.value])
  }

  /** What one turn of the batch loop contributes. */
  lemma DrainNext(v: View, room: nat, answers: seq<bool>, k: nat, acc: seq<Popped>)
    requires Sized(v) && k < |answers|
    ensures var (w, p) := PopView(v, room);
            DrainView(v, room, answers, k, acc)
            == if p.None? then (w, acc)
               else if !answers[k] then (w, acc + [p.value])
               else DrainView(w, room, answers, k + 1, acc + [p.value])
  {
  }

  /** The records `rs` are the first of `items`, in order and whole, each but perhaps the last accepted. */
  predicate Batch(rs: seq<Popped>, items: seq<Stored>, room: nat, answers: seq<bool>) {
    && |rs| <= |items| && |rs| <= |answers|
    && (forall k :: 0 <= k < |rs| ==> rs[k].room == room && Fits(rs[k], items[k]))
    && (forall k :: 0 <= k < |rs| - 1 ==> answers[k])
  }

  lemma BatchGrows(acc: seq<Popped>, items: seq<Stored>, room: nat, answers: seq<bool>, p: Popped)
    requires Batch(acc, items, room, answers) && |acc| < |items| && |acc| < |answers|
    requires p.room == room && Fits(p, items[|acc|]) && forall k :: 0 <= k < |acc| ==> answers[k]
    ensures Batch(acc + [p], items, room, answers)
  {
  }

  /** The records are a batch of the queue and the view that of the rest; the batch stops short of its limit and of the
      end of the queue only after a declined record. */
  ghost predicate Drained(w: View, rs: seq<Popped>, items: seq<Stored>, room: nat, answers: seq<bool>) {
    && Batch(rs, items, room, answers) && Queues(w, items[|rs|..])
    && (|rs| < |answers| && |rs| < |items| ==> rs != [] && !answers[|rs| - 1])
  }

  /** A batch hands out a prefix of the queue in order and leaves the rest. */
  lemma {:induction false} DrainRefines(v: View, items: seq<Stored>, room: nat, answers: seq<bool>, acc: seq<Popped>)
    requires Batch(acc, items, room, answers) && Queues(v, items[|acc|..])
    requires forall k :: 0 <= k < |acc| ==> answers[k]
    ensures var (w, rs) := DrainView(v, room, answers, |acc|, acc);
            |acc| <= |rs| && Drained(w, rs, items, room, answers)
    decreases |answers| - |acc|
  {
    if |acc| == |answers| {
      assert DrainView(v, room, answers, |acc|, acc) == (v, acc);
    } else {
      DrainTurn(v, items, room, answers, acc);
      DrainNext(v, room, answers, |acc|, acc);
      var (w, p) := PopView(v, room);
      if p.None? {
      } else if answers[|acc|] {
        var next := acc + [p.value];
        DrainRefines(w, items, room, answers, next);
        assert |next| == |acc| + 1;
      } else {
        assert (acc + [p.value])[|acc|] == p.value;
      }
    }
  }

  /** One turn of the batch loop takes the next record of the queue, if there is one. */
  lemma DrainTurn(v: View, items: seq<Stored>, room: nat, answers: seq<bool>, acc: seq<Popped>)
    requires Batch(acc, items, room, answers) && Queues(v, items[|acc|..]) && |acc| < |answers|
    requires forall k :: 0 <= k < |acc| ==> answers[k]
    ensures var (w, p) := PopView(v, room);
            && (p.None? ==> |acc| == |items| && w == v)
            && (p.Some? ==> |acc| < |items| && Batch(acc + [p.value], items, room, answers)
                            && Queues(w, items[|acc| + 1..]))
  {
    var left := items[|acc|..];
    PopRefines(v, left, room);
    if left != [] {
      BatchGrows(acc, items, room, answers, PopView(v, room).1.value);
      assert left[1..] == items[|acc| + 1..];
    }
  }

  // ---------------------------------------------------------------- whole runs

  datatype Op = Push(msg: Message) | Pop(room: nat)

  datatype Answer = Pushed | Refused | Empty | Got(rec: Popped)

  function Answers(v: View, ops: seq<Op>): (rs: seq<Answer>)
    requires Sized(v)
    decreases |ops|
  {
    if ops == [] then []
    else match ops[0]
      case Push(msg) =>
        var (w, ok) := PushView(v, msg, true);
        [if ok then Pushed else Refused] + Answers(w, ops[1..])
      case Pop(room) =>
        var (w, r) := PopView(v, room);
        [if r.None? then Empty else Got(r.value)] + Answers(w, ops[1..])
  }

  /** The answers of a first-in first-out queue bounded by `n`. */
  function QueueAnswers(items: seq<Stored>, n: nat, cap: nat, ops: seq<Op>): (rs: seq<Answer>)
    decreases |ops|
  {
    if ops == [] then []
    else match ops[0]
      case Push(msg) =>
        if |items| < n then [Pushed] + QueueAnswers(items + [Store(msg, cap)], n, cap, ops[1..])
        else [Refused] + QueueAnswers(items, n, cap, ops[1..])
      case Pop(room) =>
        if items == [] then [Empty] + QueueAnswers(items, n, cap, ops[1..])
        else [Got(Popped(room, items[0].typ, items[0].flags, items[0].user, |items[0].data|,
                         items[0].data[..Min(room, |items[0].data|)]))]
             + QueueAnswers(items[1..], n, cap, ops[1..])
  }

  /** Every sequence of pushes and pops on a ring of two or more slots is answered as by a bounded queue. */
  lemma {:induction false} RingIsBoundedQueue(v: View, items: seq<Stored>, ops: seq<Op>)
    requires Queues(v, items) && v.n >= 2
    ensures Answers(v, ops) == QueueAnswers(items, v.n, v.cap, ops)
    decreases |ops|
  {
    if ops == [] {
    } else {
      match ops[0]
      case Push(msg) =>
        PushRefines(v, items, msg, true);
        var w := PushView(v, msg, true).0;
        RingIsBoundedQueue(w, if |items| < v.n then items + [Store(msg, v.cap)] else items, ops[1..]);
      case Pop(room) =>
        PopRefines(v, items, room);
        RingIsBoundedQueue(PopView(v, room).0, if items == [] then [] else items[1..], ops[1..]);
    }
  }

  /** The answers of a first-in first-out queue of messages bounded by `n`, each pop answered from the message itself:
      at most `cap` bytes of it were kept, and a message that was cut has bit 0 of its flags set. */
  function MessageAnswers(msgs: seq<Message>, n: nat, cap: nat, ops: seq<Op>): (rs: seq<Answer>)
    decreases |ops|
  {
    if ops == [] then []
    else match ops[0]
      case Push(msg) =>
        if |msgs| < n then [Pushed] + MessageAnswers(msgs + [msg], n, cap, ops[1..])
        else [Refused] + MessageAnswers(msgs, n, cap, ops[1..])
      case Pop(room) =>
        if msgs == [] then [Empty] + MessageAnswers(msgs, n, cap, ops[1..])
        else [Got(Handed(msgs[0], cap, room))] + MessageAnswers(msgs[1..], n, cap, ops[1..])
  }

  /** The record a pop hands out of a message. */
  function Handed(m: Message, cap: nat, room: nat): (r: Popped)
    ensures r.room == room && Delivers(r, m, cap)
  {
    var size := Min(|m.payload|, cap);
    var flags := if |m.payload| > cap && m.flags % 2 == 0 then m.flags + 1 else m.flags;
    Popped(room, m.typ, flags, m.user, size, m.payload[..Min(room, size)])
  }

  function StoreAll(msgs: seq<Message>, cap: nat): (items: seq<Stored>) {
    seq(|msgs|, i requires 0 <= i < |msgs| => Store(msgs[i], cap))
  }

  lemma HandedIsStored(m: Message, cap: nat, room: nat)
    ensures var st := Store(m, cap);
            Handed(m, cap, room)
            == Popped(room, st.typ, st.flags, st.user, |st.data|, st.data[..Min(room, |st.data|)])
  {
    StoreKeeps(m, cap);
    FlagsUnique(m.flags);
  }

  lemma {:induction false} QueueOfMessages(msgs: seq<Message>, n: nat, cap: nat, ops: seq<Op>)
    ensures QueueAnswers(StoreAll(msgs, cap), n, cap, ops) == MessageAnswers(msgs, n, cap, ops)
    decreases |ops|
  {
    if ops == [] {
    } else {
      match ops[0]
      case Push(msg) =>
        assert StoreAll(msgs + [msg], cap) == StoreAll(msgs, cap) + [Store(msg, cap)];
        QueueOfMessages(if |msgs| < n then msgs + [msg] else msgs, n, cap, ops[1..]);
      case Pop(room) =>
        if msgs != [] {
          HandedIsStored(msgs[0], cap, room);
          assert StoreAll(msgs[1..], cap) == StoreAll(msgs, cap)[1..];
        }
        QueueOfMessages(if msgs == [] then msgs else msgs[1..], n, cap, ops[1..]);
    }
  }

  /** Every sequence of pushes and pops on the ring that `initialize` leaves is answered as by a bounded queue of the
      messages themselves. */
  lemma FreshRingIsBoundedQueue(n: nat, cap: nat, ops: seq<Op>)
    requires n >= 2
    ensures Answers(EmptyView(n, cap), ops) == MessageAnswers([], n, cap, ops)
  {
    EmptyQueues(n, cap);
    RingIsBoundedQueue(EmptyView(n, cap), [], ops);
    QueueOfMessages([], n, cap, ops);
  }

  // ---------------------------------------------------------------- agreement with the step system

  /** The shared memory of a step-system state. */
  function ViewOf(s: State): (v: View) {
    View(s.n, s.cap, s.head, s.tail, s.lost, s.seqs, s.cells)
  }

  /** A push whose steps run without interference does to the memory what the sequential push does. */
  lemma SoloPushAgrees(s: State, p: nat, msg: Message) returns (acts: seq<Action>)
    requires Shape(s) && p !in s.calls && s.seqs[Slot(s.tail, s.n)] == s.tail
    ensures CanRun(s, acts) && (ViewOf(Run(s, acts)), true) == PushView(ViewOf(s), msg, true)
  {
    var cell;
    acts, cell := SoloPush(s, p, msg);
    var before, st := s.cells[Slot(s.tail, s.n)], Store(msg, s.cap);
    assert cell.bytes == cell.bytes[..|st.data|] + cell.bytes[|st.data|..];
    assert cell == Filled(before, st);
  }

  /** A pop whose steps run without interference hands out what the sequential pop hands out, and leaves the memory it
      leaves. */
  lemma SoloPopAgrees(s: State, room: nat) returns (acts: seq<Action>)
    requires Inv(s) && s.n >= 2 && s.consumer.Resting? && s.freed == s.head && s.head in s.published
    ensures CanRun(s, acts) && |Run(s, acts).delivered| == s.head + 1
    ensures PopView(ViewOf(s), room) == (ViewOf(Run(s, acts)), Some(Run(s, acts).delivered[s.head]))
  {
    acts := SoloPop(s, room);
    var st := Store(s.claims[s.head].msg, s.cap);
    assert s.seqs[Slot(s.freed, s.n)] == s.head + 1;
    TakeFits(s.cells[Slot(s.head, s.n)], st, room);
  }
}
