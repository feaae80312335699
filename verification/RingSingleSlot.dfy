/**
 The boundary of the ring's guarantee. `valid_meta` admits a ring of one slot, where "published at pos" and
 "free for pos + 1" are the same sequence word. A second push then overwrites the first record.
 */
module RingSingleSlot {
  import opened Slots
  import opened RingProtocol
  import opened RingInvariant
  import opened RingTheorems

  /** Slot memory `c` holds the stored message over what `before` held. */
  predicate Overlaid(c: Cell, before: Cell, st: Stored) {
    |c.bytes| == |before.bytes| && Holds(c, st) && c.bytes[|st.data|..] == before.bytes[|st.data|..]
  }

  /** A producer that runs alone finishes writing the record it has claimed. */
  lemma {:induction false} FinishWrite(s: State, p: nat) returns (acts: seq<Action>, cell: Cell)
    requires Shape(s) && p in s.calls && s.calls[p].Writing?
    requires Written(s.cells[Slot(s.calls[p].pos, s.n)], Store(s.calls[p].msg, s.cap), s.calls[p].done)
    requires s.calls[p].done <= 4 + |Store(s.calls[p].msg, s.cap).data|
    ensures CanRun(s, acts) && Overlaid(cell, s.cells[Slot(s.calls[p].pos, s.n)], Store(s.calls[p].msg, s.cap))
    ensures var c := s.calls[p];
            Run(s, acts) == s.(cells := s.cells[Slot(c.pos, s.n) := cell],
                               calls := s.calls[p := Writing(c.msg, c.pos, 4 + |Store(c.msg, s.cap).data|)])
    decreases 4 + |Store(s.calls[p].msg, s.cap).data| - s.calls[p].done
  {
    var c := s.calls[p];
    var i, st := Slot(c.pos, s.n), Store(c.msg, s.cap);
    if c.done == 4 + |st.data| {
      acts, cell := [], s.cells[i];
      WrittenHolds(cell, st);
      assert s.cells[i := cell] == s.cells && s.calls[p := c] == s.calls;
    } else {
      WriteFieldWritten(s.cells[i], st, c.done);
      var t := Apply(s, Write(p));
      var rest;
      rest, cell := FinishWrite(t, p);
      acts := [Write(p)] + rest;
      assert acts[1..] == rest;
      assert t.cells[i := cell] == s.cells[i := cell];
    }
  }

  /** The loads and the compare-and-swap of an uncontended push claim the tail. */
  lemma SoloClaim(s: State, p: nat, msg: Message)
    requires Shape(s) && p !in s.calls && s.seqs[Slot(s.tail, s.n)] == s.tail
    ensures CanRun(s, [Begin(p, msg), LoadSeq(p)] + [Cas(p)])
    ensures Run(s, [Begin(p, msg), LoadSeq(p)] + [Cas(p)])
         == s.(tail := s.tail + 1, claims := s.claims + [Claim(p, msg)], calls := s.calls[p := Writing(msg, s.tail, 0)])
  {
    RunTwo(s, Begin(p, msg), LoadSeq(p));
    var t := Run(s, [Begin(p, msg), LoadSeq(p)]);
    RunOne(t, Cas(p));
    RunAppend(s, [Begin(p, msg), LoadSeq(p)], [Cas(p)]);
    assert t.calls[p := Writing(msg, s.tail, 0)] == s.calls[p := Writing(msg, s.tail, 0)];
  }

  /** An uncontended push on a ring whose tail slot is free returns success: it claims the tail, stores the
      truncated message there and publishes it, and changes nothing else. Holds for every ring size. */
  lemma SoloPush(s: State, p: nat, msg: Message) returns (acts: seq<Action>, cell: Cell)
    requires Shape(s) && p !in s.calls && s.seqs[Slot(s.tail, s.n)] == s.tail
    ensures CanRun(s, acts) && Overlaid(cell, s.cells[Slot(s.tail, s.n)], Store(msg, s.cap))
    ensures Carries(cell, msg, s.cap)
    ensures var i := Slot(s.tail, s.n);
            Run(s, acts) == s.(tail := s.tail + 1, claims := s.claims + [Claim(p, msg)],
                               cells := s.cells[i := cell], seqs := s.seqs[i := s.tail + 1],
                               published := s.published + {s.tail}, outcomes := s.outcomes + [Outcome(p, msg, true)])
  {
    var start := [Begin(p, msg), LoadSeq(p)] + [Cas(p)];
    SoloClaim(s, p, msg);
    var write;
    write, cell := FinishWrite(Run(s, start), p);
    HeldMeans(cell, msg, s.cap);
    var t := Run(Run(s, start), write);
    RunOne(t, Publish(p));
    RunAppend(Run(s, start), write, [Publish(p)]);
    RunAppend(s, start, write + [Publish(p)]);
    acts := start + (write + [Publish(p)]);
    assert Apply(t, Publish(p)).calls == s.calls;
  }

  /** With two or more slots every record keeps its claim order and content until it is consumed. */
  ghost predicate Intact(s: State) {
    && Shape(s)
    && |s.delivered| <= |s.claims|
    && (forall i :: 0 <= i < |s.delivered| ==> Delivers(s.delivered[i], s.claims[i].msg, s.cap))
    && (forall q :: q in s.published && q >= s.freed ==>
          q < |s.claims| && Carries(s.cells[Slot(q, s.n)], s.claims[q].msg, s.cap))
  }

  ghost predicate SafeSize(n: nat, cap: nat)
    requires n > 0
  {
    forall acts :: CanRun(Initial(n, cap), acts) ==> Intact(Run(Initial(n, cap), acts))
  }

  /** Two pushes into a ring of one slot: both succeed and the second overwrites the first record. */
  lemma OverwritingRun(cap: nat) returns (acts: seq<Action>)
    ensures CanRun(Initial(1, cap), acts) && !Intact(Run(Initial(1, cap), acts))
  {
    var s := Initial(1, cap);
    var first, cell := SoloPush(s, 0, Message(0, 0, 0, []));
    var t := Run(s, first);
    var second, cell' := SoloPush(t, 0, Message(1, 0, 0, []));
    RunAppend(s, first, second);
    acts := first + second;
    var u := Run(s, acts);
    assert 0 in u.published && Slot(0, 1) == 0 && Slot(1, 1) == 0;
    assert u.cells[0].typ == 1 && u.claims[0].msg.typ == 0;
  }

  /** Records survive every run exactly when the ring has at least two slots. */
  lemma SafeIffTwoSlots(n: nat, cap: nat)
    requires n > 0
    ensures SafeSize(n, cap) <==> n >= 2
  {
    if n >= 2 {
      forall acts | CanRun(Initial(n, cap), acts) ensures Intact(Run(Initial(n, cap), acts)) {
        ReachableInv(n, cap, acts, Run(Initial(n, cap), acts));
        DeliveredIsClaimPrefix(n, cap, acts, Run(Initial(n, cap), acts));
      }
    } else {
      var acts := OverwritingRun(cap);
      assert !SafeSize(n, cap);
    }
  }

  /** A one-slot ring whose slot word has run past the head. */
  ghost predicate Overrun(s: State) {
    && Shape(s) && s.n == 1
    && s.seqs[0] >= s.head + 2 && s.tail >= s.head + 2
    && (s.consumer.Resting? || s.consumer.ConsumerDead? || (s.consumer.HeadLoaded? && s.consumer.pos == s.head))
    && (forall p :: p in s.calls && s.calls[p].Writing? ==> s.calls[p].pos > s.head)
  }

  lemma OverrunStep(s: State, a: Action)
    requires Overrun(s) && Enabled(s, a)
    ensures Overrun(Apply(s, a)) && Apply(s, a).delivered == s.delivered
  {
  }

  lemma {:induction false} OverrunForever(s: State, later: seq<Action>)
    requires Overrun(s) && CanRun(s, later)
    ensures Overrun(Run(s, later)) && Run(s, later).delivered == s.delivered
    decreases |later|
  {
    if later == [] {
    } else {
      OverrunStep(s, later[0]);
      OverrunForever(Apply(s, later[0]), later[1..]);
    }
  }

  /** A second push into an idle one-slot ring that holds a record succeeds and leaves a ring that, whatever
      any number of producers and consumers do next, never delivers again. */
  lemma SecondPushJams(s: State, p: nat, msg: Message) returns (acts: seq<Action>)
    requires Shape(s) && s.n == 1 && s.calls == map[] && s.consumer.Resting?
    requires s.tail == s.head + 1 && s.seqs[0] == s.tail
    ensures CanRun(s, acts) && Run(s, acts).outcomes == s.outcomes + [Outcome(p, msg, true)]
    ensures forall later :: CanRun(Run(s, acts), later) ==> Run(Run(s, acts), later).delivered == s.delivered
  {
    var cell;
    acts, cell := SoloPush(s, p, msg);
    var t := Run(s, acts);
    assert Slot(s.tail, 1) == 0;
    forall later | CanRun(t, later) ensures Run(t, later).delivered == s.delivered {
      OverrunForever(t, later);
    }
  }

  /** From an empty ring of one slot two pushes, of any messages by any producers, both succeed, and nothing is ever
      delivered after them. */
  lemma TwoPushesJam(cap: nat, p: nat, q: nat, first: Message, second: Message) returns (acts: seq<Action>)
    ensures CanRun(Initial(1, cap), acts)
    ensures Run(Initial(1, cap), acts).outcomes == [Outcome(p, first, true), Outcome(q, second, true)]
    ensures forall later :: CanRun(Run(Initial(1, cap), acts), later) ==>
              Run(Run(Initial(1, cap), acts), later).delivered == []
  {
    var s := Initial(1, cap);
    var one, cell := SoloPush(s, p, first);
    var t := Run(s, one);
    var two := SecondPushJams(t, q, second);
    RunAppend(s, one, two);
    acts := one + two;
  }
}
