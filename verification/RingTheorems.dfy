/** What the record ring guarantees over every run with at least two slots. */
module RingTheorems {
  import opened Base
  import opened Slots
  import opened RingProtocol
  import opened RingInvariant

  /** `acts` is a run of a fresh ring that ends in `s`. */
  ghost predicate Reaches(n: nat, cap: nat, acts: seq<Action>, s: State) {
    n > 0 && CanRun(Initial(n, cap), acts) && s == Run(Initial(n, cap), acts)
  }

  lemma ReachableInv(n: nat, cap: nat, acts: seq<Action>, s: State)
    requires n >= 2 && Reaches(n, cap, acts, s)
    ensures Inv(s) && s.n == n && s.cap == cap
  {
    InitialInv(n, cap);
    RunKeeps(Initial(n, cap), acts);
  }

  lemma {:induction false} RunAppend(s: State, a: seq<Action>, b: seq<Action>)
    requires CanRun(s, a) && CanRun(Run(s, a), b)
    ensures CanRun(s, a + b) && Run(s, a + b) == Run(Run(s, a), b)
    decreases |a|
  {
    if a == [] {
      assert a + b == b;
    } else {
      assert (a + b)[1..] == a[1..] + b;
      RunAppend(Apply(s, a[0]), a[1..], b);
    }
  }

  lemma RunOne(s: State, a: Action)
    requires Enabled(s, a)
    ensures CanRun(s, [a]) && Run(s, [a]) == Apply(s, a)
  {
    assert [a][1..] == [];
  }

  lemma RunTwo(s: State, a: Action, b: Action)
    requires Enabled(s, a) && Enabled(Apply(s, a), b)
    ensures CanRun(s, [a, b]) && Run(s, [a, b]) == Apply(Apply(s, a), b)
  {
    RunOne(Apply(s, a), b);
    assert [a, b][1..] == [b];
  }

  /** In every interleaving the records handed out are exactly a prefix of the claim order, each with its
      type, flags, user value and stored payload prefix; and every other published record is still whole in
      the slot of its position. Nothing is lost, duplicated, reordered or overwritten. */
  lemma DeliveredIsClaimPrefix(n: nat, cap: nat, acts: seq<Action>, s: State)
    requires n >= 2 && Reaches(n, cap, acts, s)
    ensures |s.delivered| == s.head <= s.tail == |s.claims|
    ensures forall i :: 0 <= i < |s.delivered| ==>
              var r, m := s.delivered[i], s.claims[i].msg;
              var size := if |m.payload| <= cap then |m.payload| else cap;
              && r.typ == m.typ && r.user == m.user
              && (if |m.payload| <= cap then r.flags == m.flags else r.flags % 2 == 1 && r.flags / 2 == m.flags / 2)
              && r.size == size && r.data == m.payload[..if r.room <= size then r.room else size]
    ensures |s.cells| == n
    ensures forall q :: q in s.published && q >= s.freed ==>
              q < |s.claims| && Carries(s.cells[Slot(q, n)], s.claims[q].msg, cap)
  {
    ReachableInv(n, cap, acts, s);
    forall i | 0 <= i < |s.delivered| ensures Delivers(s.delivered[i], s.claims[i].msg, cap) {
      DeliveredMeans(s.delivered[i], s.claims[i].msg, cap);
    }
    forall q | q in s.published && q >= s.freed
      ensures q < |s.claims| && Carries(s.cells[Slot(q, n)], s.claims[q].msg, cap)
    {
      HeldMeans(s.cells[Slot(q, n)], s.claims[q].msg, cap);
    }
  }

  /** At most one actor works on a slot: two held positions, or a held position and the record being popped,
      never share a slot. */
  lemma SlotExclusion(n: nat, cap: nat, acts: seq<Action>, s: State)
    requires n >= 2 && Reaches(n, cap, acts, s)
    ensures forall p, p', q, q' ::
              p in s.calls && p' in s.calls && p != p'
              && HoldsPosition(s.calls[p], q) && HoldsPosition(s.calls[p'], q') ==>
                Slot(q, n) != Slot(q', n)
    ensures forall p, q :: s.consumer.Copying? && p in s.calls && HoldsPosition(s.calls[p], q) ==>
              Slot(q, n) != Slot(s.consumer.pos, n)
  {
    ReachableInv(n, cap, acts, s);
    forall p, p', q, q' |
      p in s.calls && p' in s.calls && p != p' && HoldsPosition(s.calls[p], q) && HoldsPosition(s.calls[p'], q')
      ensures Slot(q, n) != Slot(q', n)
    {
      HeldIsOpen(s, p, q);
      HeldIsOpen(s, p', q');
      OpenSlotsDiffer(s, q, q');
    }
    forall p, q | s.consumer.Copying? && p in s.calls && HoldsPosition(s.calls[p], q)
      ensures Slot(q, n) != Slot(s.consumer.pos, n)
    {
      HeldIsOpen(s, p, q);
      OpenSlotsDiffer(s, q, s.consumer.pos);
    }
  }

  lemma HeldIsOpen(s: State, p: nat, q: nat)
    requires Inv(s) && p in s.calls && HoldsPosition(s.calls[p], q)
    ensures Open(s, p, q)
  {
    assert CallOk(s, p, s.calls[p]);
  }

  predicate NoConsumerDeath(acts: seq<Action>) {
    ConsumerDies !in acts
  }

  /** While no consumer dies, the head lags the slot-free stores exactly between the two closing stores. */
  lemma {:induction false} HeadLag(s: State, acts: seq<Action>)
    requires Inv(s) && s.n >= 2 && CanRun(s, acts) && NoConsumerDeath(acts)
    requires !s.consumer.ConsumerDead? && (s.freed == s.head + 1 <==> s.consumer.SlotFreed?)
    ensures var t := Run(s, acts); t.freed == t.head + 1 <==> t.consumer.SlotFreed?
    decreases |acts|
  {
    if acts == [] {
    } else {
      StepKeeps(s, acts[0]);
      HeadLag(Apply(s, acts[0]), acts[1..]);
    }
  }

  /** Occupancy: never more than one lap and one record, and never more than one lap unless the consumer
      stands between its two closing stores. */
  lemma Occupancy(n: nat, cap: nat, acts: seq<Action>, s: State)
    requires n >= 2 && Reaches(n, cap, acts, s)
    ensures s.tail - s.head <= n + 1
    ensures NoConsumerDeath(acts) && !s.consumer.SlotFreed? ==> s.tail - s.head <= n
  {
    ReachableInv(n, cap, acts, s);
    if NoConsumerDeath(acts) {
      InitialInv(n, cap);
      HeadLag(Initial(n, cap), acts);
    }
  }

  /** Slot `i` belongs to a position that is claimed and not freed. */
  ghost predicate Occupied(s: State, i: nat)
    requires s.n > 0
  {
    exists q: nat :: s.freed <= q < s.tail && Slot(q, s.n) == i
  }

  /** A push that finds the ring full is right: at its sequence load its position is the tail and all `n`
      slots belong to claimed positions that have not been freed. */
  lemma FullIsGenuine(n: nat, cap: nat, acts: seq<Action>, s: State, p: nat)
    requires n >= 2 && Reaches(n, cap, acts, s) && Enabled(s, LoadSeq(p))
    requires Apply(s, LoadSeq(p)).calls[p].AtFull?
    ensures s.calls[p].pos == s.tail == s.freed + n
    ensures s.n == n && forall i: nat :: i < n ==> Occupied(s, i)
  {
    ReachableInv(n, cap, acts, s);
    assert CallOk(s, p, s.calls[p]);
    LoadedWord(s, s.calls[p].pos);
    forall i: nat | i < n ensures Occupied(s, i) {
      if i < s.freed {
        var q := LaterSharer(i, s.freed, n);
        assert Slot(q, n) == Slot(i, n) == i;
      } else {
        assert Slot(i, n) == i;
      }
    }
  }

  /** Each retry that is not a spurious failure moves the local position strictly forward. */
  lemma RetryAdvances(n: nat, cap: nat, acts: seq<Action>, s: State, a: Action)
    requires n >= 2 && Reaches(n, cap, acts, s) && Enabled(s, a)
    requires a.Reload? || (a.Cas? && s.tail != s.calls[a.p].pos)
    ensures Apply(s, a).calls[a.p].pos > s.calls[a.p].pos
  {
    ReachableInv(n, cap, acts, s);
    assert CallOk(s, a.p, s.calls[a.p]);
  }

  /** Lock-freedom with a bound: a push that exhausts its budget was overtaken by at least 64 claims of other
      producers made during the call, less the spurious failures it met. */
  lemma BudgetMeansContention(n: nat, cap: nat, acts: seq<Action>, s: State, p: nat)
    requires n >= 2 && Reaches(n, cap, acts, s) && Enabled(s, GiveUp(p))
    ensures var c := s.calls[p];
            && c.start <= s.tail == |s.claims|
            && (s.tail - c.start) + c.spurious >= RETRY_BUDGET
            && (forall q :: c.start <= q < s.tail ==> s.claims[q].pid != p)
  {
    ReachableInv(n, cap, acts, s);
    assert CallOk(s, p, s.calls[p]);
  }

  /** How often a call can still load a slot word. */
  function LoadsLeft(s: State, p: nat): (k: int) {
    if p !in s.calls then 0
    else match s.calls[p]
         case AtLoad(_, retry, _, _, _) => if retry < RETRY_BUDGET then RETRY_BUDGET - retry else 0
         case AtCas(_, retry, _, _, _) => if retry < RETRY_BUDGET then RETRY_BUDGET - retry - 1 else 0
         case AtReload(_, retry, _, _, _) => if retry < RETRY_BUDGET then RETRY_BUDGET - retry - 1 else 0
         case _ => 0
  }

  /** The slot word loads of producer `p`. */
  function Loads(acts: seq<Action>, p: nat): (k: nat) {
    if acts == [] then 0 else (if acts[0] == LoadSeq(p) then 1 else 0) + Loads(acts[1..], p)
  }

  lemma LoadSpends(s: State, a: Action, p: nat)
    requires Enabled(s, a) && !(a.Begin? && a.p == p)
    ensures LoadsLeft(Apply(s, a), p) <= LoadsLeft(s, p) - (if a == LoadSeq(p) then 1 else 0)
  {
  }

  /** A push is bounded whatever the others do: in every run it loads a slot word at most 64 times before it returns. */
  lemma {:induction false} PushIsBounded(s: State, acts: seq<Action>, p: nat)
    requires CanRun(s, acts) && forall a :: a in acts ==> !(a.Begin? && a.p == p)
    ensures Loads(acts, p) <= LoadsLeft(s, p) <= 64
    decreases |acts|
  {
    if acts == [] {
    } else {
      LoadSpends(s, acts[0], p);
      PushIsBounded(Apply(s, acts[0]), acts[1..], p);
    }
  }

  /** The weak exchange may fail though nobody moved the tail, again and again: each failure costs one retry, and after
      the 64th the push that ran alone on a free slot is refused and counted as lost. */
  lemma SpuriousRefusal(s: State, p: nat, msg: Message) returns (acts: seq<Action>)
    requires Shape(s) && p !in s.calls && s.seqs[Slot(s.tail, s.n)] == s.tail
    ensures CanRun(s, [Begin(p, msg)] + acts) && Loads(acts, p) == 64
    ensures Run(s, [Begin(p, msg)] + acts)
         == s.(lost := s.lost + 1, outcomes := s.outcomes + [Outcome(p, msg, false)])
  {
    var t := Apply(s, Begin(p, msg));
    acts := SpuriousFrom(t, p);
    assert ([Begin(p, msg)] + acts)[1..] == acts;
    assert s.calls[p := t.calls[p]] - {p} == s.calls;
  }

  lemma {:induction false} SpuriousFrom(s: State, p: nat) returns (acts: seq<Action>)
    requires Shape(s) && p in s.calls && s.calls[p].AtLoad? && s.calls[p].pos == s.tail && s.calls[p].retry <= 64
    requires s.seqs[Slot(s.tail, s.n)] == s.tail
    ensures CanRun(s, acts) && Loads(acts, p) == 64 - s.calls[p].retry
    ensures Run(s, acts) == s.(lost := s.lost + 1, outcomes := s.outcomes + [Outcome(p, s.calls[p].msg, false)],
                               calls := s.calls - {p})
    decreases 64 - s.calls[p].retry
  {
    if s.calls[p].retry == 64 {
      acts := [GiveUp(p), CountLoss(p)];
      RunTwo(s, GiveUp(p), CountLoss(p));
      assert Loads(acts[1..], p) == 0;
    } else {
      var t := SpuriousTurn(s, p);
      var rest := SpuriousFrom(t, p);
      acts := [LoadSeq(p), CasSpurious(p)] + rest;
      RunAppend(s, [LoadSeq(p), CasSpurious(p)], rest);
      assert acts[1..] == [CasSpurious(p)] + rest && acts[1..][1..] == rest;
    }
  }

  lemma SpuriousTurn(s: State, p: nat) returns (t: State)
    requires Shape(s) && p in s.calls && s.calls[p].AtLoad? && s.calls[p].pos == s.tail && s.calls[p].retry < 64
    requires s.seqs[Slot(s.tail, s.n)] == s.tail
    ensures CanRun(s, [LoadSeq(p), CasSpurious(p)]) && t == Run(s, [LoadSeq(p), CasSpurious(p)])
    ensures var c := s.calls[p];
            t == s.(calls := s.calls[p := AtLoad(c.msg, c.retry + 1, s.tail, c.start, c.spurious + 1)])
  {
    RunTwo(s, LoadSeq(p), CasSpurious(p));
    t := Run(s, [LoadSeq(p), CasSpurious(p)]);
  }

  /** A producer may die at any point of a call and the consumer at any point of a pop, and neither death touches the
      shared memory: of the producer stays the position it claimed and did not publish, of the consumer nothing. */
  lemma DeathsKeepMemory(s: State, p: nat)
    requires Shape(s)
    ensures p in s.calls && !s.calls[p].Died? ==>
              var held := if s.calls[p].Writing? then Position(s.calls[p].pos) else Nothing;
              CanRun(s, [Die(p)]) && Run(s, [Die(p)]) == s.(calls := s.calls[p := Died(held)])
    ensures !s.consumer.ConsumerDead? ==>
              CanRun(s, [ConsumerDies, ConsumerRestarts])
              && Run(s, [ConsumerDies, ConsumerRestarts]) == s.(consumer := Resting)
  {
    if p in s.calls && !s.calls[p].Died? { RunOne(s, Die(p)); }
    if !s.consumer.ConsumerDead? { RunTwo(s, ConsumerDies, ConsumerRestarts); }
  }

  // ---------------------------------------------------------------- counting

  function Fulls(os: seq<Outcome>): (k: nat) {
    if os == [] then 0 else Fulls(os[..|os| - 1]) + (if os[|os| - 1].ok then 0 else 1)
  }

  /** The loss counter counts the RingFull returns, and the successful returns count the published positions. */
  ghost predicate Tallies(s: State) {
    s.lost == Fulls(s.outcomes) && |s.published| + s.lost == |s.outcomes|
  }

  lemma TalliesStep(s: State, a: Action)
    requires Inv(s) && Tallies(s) && Enabled(s, a)
    ensures Tallies(Apply(s, a))
  {
    if a.Publish? {
      TalliesPublish(s, a);
    } else if a.CountLoss? {
      TalliesLoss(s, a);
    }
  }

  lemma TalliesPublish(s: State, a: Action)
    requires Inv(s) && Tallies(s) && Enabled(s, a) && a.Publish?
    ensures Tallies(Apply(s, a))
  {
    var t := Apply(s, a);
    assert CallOk(s, a.p, s.calls[a.p]);
    assert t.outcomes[..|t.outcomes| - 1] == s.outcomes;
  }

  lemma TalliesLoss(s: State, a: Action)
    requires Tallies(s) && Enabled(s, a) && a.CountLoss?
    ensures Tallies(Apply(s, a))
  {
    var t := Apply(s, a);
    assert t.outcomes[..|t.outcomes| - 1] == s.outcomes;
  }

  lemma {:induction false} TalliesRun(s: State, acts: seq<Action>)
    requires Inv(s) && s.n >= 2 && Tallies(s) && CanRun(s, acts)
    ensures Tallies(Run(s, acts))
    decreases |acts|
  {
    if acts == [] {
    } else {
      StepKeeps(s, acts[0]);
      TalliesStep(s, acts[0]);
      TalliesRun(Apply(s, acts[0]), acts[1..]);
    }
  }

  /** `lost_count` is the number of pushes that returned RingFull; every other returned push is one published
      position, so delivered plus waiting plus lost accounts for every returned call. */
  lemma LossCountExact(n: nat, cap: nat, acts: seq<Action>, s: State)
    requires n >= 2 && Reaches(n, cap, acts, s)
    ensures s.lost == Fulls(s.outcomes)
    ensures |s.outcomes| == s.freed + |set q | q in s.published && q >= s.freed| + s.lost
  {
    ReachableInv(n, cap, acts, s);
    InitialInv(n, cap);
    TalliesRun(Initial(n, cap), acts);
    var above := set q | q in s.published && q >= s.freed;
    assert s.published == FirstNats(s.freed) + above;
    FirstNatsCount(s.freed);
  }

  // ---------------------------------------------------------------- each producer's own order

  function ClaimsOf(cs: seq<Claim>, p: nat): (ms: seq<Message>) {
    if cs == [] then []
    else ClaimsOf(cs[..|cs| - 1], p) + (if cs[|cs| - 1].pid == p then [cs[|cs| - 1].msg] else [])
  }

  function SuccessesOf(os: seq<Outcome>, p: nat): (ms: seq<Message>) {
    if os == [] then []
    else SuccessesOf(os[..|os| - 1], p)
         + (if os[|os| - 1].pid == p && os[|os| - 1].ok then [os[|os| - 1].msg] else [])
  }

  /** The claims of `p` are its successful returns in order, then the one it still holds. */
  ghost predicate OwnOrder(s: State, p: nat)
    requires |s.claims| == s.tail
  {
    ClaimsOf(s.claims, p) == SuccessesOf(s.outcomes, p) + HeldMessage(s, p)
  }

  ghost function HeldMessage(s: State, p: nat): (ms: seq<Message>)
    requires |s.claims| == s.tail
  {
    if p !in s.calls then []
    else if s.calls[p].Writing? then [s.calls[p].msg]
    else if s.calls[p].Died? && s.calls[p].held.Position? && s.calls[p].held.q < s.tail
    then [s.claims[s.calls[p].held.q].msg]
    else []
  }

  lemma OwnOrderClaim(s: State, a: Action, p: nat)
    requires Inv(s) && OwnOrder(s, p) && Enabled(s, a) && a.Cas? && s.tail == s.calls[a.p].pos
    ensures |Apply(s, a).claims| == Apply(s, a).tail && OwnOrder(Apply(s, a), p)
  {
    var t := Apply(s, a);
    assert t.claims[..|t.claims| - 1] == s.claims;
    if p != a.p && p in s.calls {
      assert CallOk(s, p, s.calls[p]);
    }
  }

  lemma SuccessesSnoc(os: seq<Outcome>, o: Outcome, p: nat)
    ensures SuccessesOf(os + [o], p) == SuccessesOf(os, p) + (if o.pid == p && o.ok then [o.msg] else [])
  {
    assert (os + [o])[..|os|] == os;
  }

  /** A publish turns the message its producer holds into its latest success. */
  lemma OwnOrderPublish(s: State, x: nat, p: nat)
    requires Inv(s) && OwnOrder(s, p) && Enabled(s, Publish(x))
    ensures OwnOrder(Apply(s, Publish(x)), p)
  {
    var c := s.calls[x];
    SuccessesSnoc(s.outcomes, Outcome(x, c.msg, true), p);
    PublishHolds(s, x, p);
  }

  lemma PublishHolds(s: State, x: nat, p: nat)
    requires Inv(s) && Enabled(s, Publish(x))
    ensures var t := Apply(s, Publish(x));
            && t.claims == s.claims && t.tail == s.tail && t.outcomes == s.outcomes + [Outcome(x, s.calls[x].msg, true)]
            && HeldMessage(s, p) == (if p == x then [s.calls[x].msg] else HeldMessage(t, p))
            && (p == x ==> HeldMessage(t, p) == [])
  {
  }

  /** A counted loss changes neither the successes nor what any producer holds. */
  lemma OwnOrderLoss(s: State, x: nat, p: nat)
    requires Inv(s) && OwnOrder(s, p) && Enabled(s, CountLoss(x))
    ensures OwnOrder(Apply(s, CountLoss(x)), p)
  {
    SuccessesSnoc(s.outcomes, Outcome(x, s.calls[x].msg, false), p);
    assert HeldMessage(Apply(s, CountLoss(x)), p) == HeldMessage(s, p);
  }

  predicate Quiet(s: State, a: Action)
    requires Enabled(s, a)
  {
    !a.Publish? && !a.CountLoss? && !(a.Cas? && s.tail == s.calls[a.p].pos)
  }

  /** Other steps change neither the claims nor the returns nor what any producer holds. */
  lemma QuietStep(s: State, a: Action)
    requires Enabled(s, a) && Quiet(s, a)
    ensures Apply(s, a).claims == s.claims && Apply(s, a).tail == s.tail && Apply(s, a).outcomes == s.outcomes
  {
  }

  lemma HeldMessageStep(s: State, a: Action, p: nat)
    requires Inv(s) && Enabled(s, a) && Quiet(s, a)
    ensures Apply(s, a).claims == s.claims && Apply(s, a).tail == s.tail && Apply(s, a).outcomes == s.outcomes
    ensures HeldMessage(Apply(s, a), p) == HeldMessage(s, p)
  {
    QuietStep(s, a);
    if p in s.calls {
      assert CallOk(s, p, s.calls[p]);
    }
  }

  lemma OwnOrderStep(s: State, a: Action, p: nat)
    requires Inv(s) && OwnOrder(s, p) && Enabled(s, a)
    ensures |Apply(s, a).claims| == Apply(s, a).tail && OwnOrder(Apply(s, a), p)
  {
    if a.Publish? {
      OwnOrderPublish(s, a.p, p);
    } else if a.CountLoss? {
      OwnOrderLoss(s, a.p, p);
    } else if a.Cas? && s.tail == s.calls[a.p].pos {
      OwnOrderClaim(s, a, p);
    } else {
      HeldMessageStep(s, a, p);
    }
  }

  lemma {:induction false} OwnOrderRun(s: State, acts: seq<Action>, p: nat)
    requires Inv(s) && s.n >= 2 && OwnOrder(s, p) && CanRun(s, acts)
    ensures |Run(s, acts).claims| == Run(s, acts).tail && OwnOrder(Run(s, acts), p)
    decreases |acts|
  {
    if acts == [] {
    } else {
      StepKeeps(s, acts[0]);
      OwnOrderStep(s, acts[0], p);
      OwnOrderRun(Apply(s, acts[0]), acts[1..], p);
    }
  }

  lemma {:induction false} ClaimsOfPrefix(cs: seq<Claim>, k: nat, p: nat)
    requires k <= |cs|
    ensures ClaimsOf(cs[..k], p) <= ClaimsOf(cs, p)
    ensures forall q :: k <= q < |cs| && cs[q].pid == p ==> |ClaimsOf(cs[..k], p)| < |ClaimsOf(cs, p)|
    decreases |cs|
  {
    if k == |cs| {
      assert cs[..k] == cs;
    } else {
      assert cs[..|cs| - 1][..k] == cs[..k];
      ClaimsOfPrefix(cs[..|cs| - 1], k, p);
    }
  }

  /** A producer's records are handed out in the order of its own successful pushes. */
  lemma ProducerOrderKept(n: nat, cap: nat, acts: seq<Action>, s: State, p: nat)
    requires n >= 2 && Reaches(n, cap, acts, s)
    ensures |s.delivered| <= |s.claims|
    ensures ClaimsOf(s.claims[..|s.delivered|], p) <= SuccessesOf(s.outcomes, p)
  {
    ReachableInv(n, cap, acts, s);
    InitialInv(n, cap);
    OwnOrderRun(Initial(n, cap), acts, p);
    ClaimsOfPrefix(s.claims, s.head, p);
    if p in s.calls {
      assert CallOk(s, p, s.calls[p]);
    }
  }

  // ---------------------------------------------------------------- crashes

  lemma DeadStays(s: State, a: Action, p: nat)
    requires Enabled(s, a) && p in s.calls && s.calls[p].Died?
    ensures p in Apply(s, a).calls && Apply(s, a).calls[p] == s.calls[p]
  {
  }

  lemma {:induction false} DeadStaysRun(s: State, acts: seq<Action>, p: nat)
    requires CanRun(s, acts) && p in s.calls && s.calls[p].Died?
    ensures p in Run(s, acts).calls && Run(s, acts).calls[p] == s.calls[p]
    decreases |acts|
  {
    if acts == [] {
    } else {
      DeadStays(s, acts[0], p);
      DeadStaysRun(Apply(s, acts[0]), acts[1..], p);
    }
  }

  /** A producer that died between claim and publish at `q` stops the head at `q` for good, and at most
      `n - 1` claims follow its own. */
  lemma DeadProducerBlocks(n: nat, cap: nat, acts: seq<Action>, s: State, p: nat, q: nat, later: seq<Action>)
    requires n >= 2 && Reaches(n, cap, acts, s)
    requires p in s.calls && s.calls[p] == Died(Position(q)) && CanRun(s, later)
    ensures Run(s, later).head <= q < Run(s, later).tail <= q + n
    ensures |Run(s, later).claims| - (q + 1) <= n - 1
  {
    ReachableInv(n, cap, acts, s);
    RunKeeps(s, later);
    DeadStaysRun(s, later, p);
    assert CallOk(Run(s, later), p, Died(Position(q)));
  }

  /** The consumer died after freeing a slot and before advancing the head. */
  ghost predicate Jammed(s: State) {
    s.freed == s.head + 1 && !s.consumer.SlotFreed?
  }

  lemma JammedStep(s: State, a: Action)
    requires Inv(s) && s.n >= 2 && Jammed(s) && Enabled(s, a)
    ensures Jammed(Apply(s, a)) && Apply(s, a).delivered == s.delivered
  {
    if a.PopCheck? && s.seqs[Slot(s.head, s.n)] == s.head + 1 {
      CheckedWord(s);
      assert false;
    }
  }

  /** A consumer that dies between its two closing stores leaves a ring that never delivers again. */
  lemma {:induction false} JammedForever(s: State, later: seq<Action>)
    requires Inv(s) && s.n >= 2 && Jammed(s) && CanRun(s, later)
    ensures Jammed(Run(s, later)) && Run(s, later).delivered == s.delivered
    decreases |later|
  {
    if later == [] {
    } else {
      JammedStep(s, later[0]);
      StepKeeps(s, later[0]);
      JammedForever(Apply(s, later[0]), later[1..]);
    }
  }

  lemma ConsumerDeathBetweenStoresJams(n: nat, cap: nat, acts: seq<Action>, s: State, later: seq<Action>)
    requires n >= 2 && Reaches(n, cap, acts, s) && s.consumer.SlotFreed?
    requires CanRun(s, [ConsumerDies] + later)
    ensures Run(s, [ConsumerDies] + later).delivered == s.delivered
  {
    ReachableInv(n, cap, acts, s);
    StepKeeps(s, ConsumerDies);
    assert ([ConsumerDies] + later)[1..] == later;
    JammedForever(Apply(s, ConsumerDies), later);
  }

  // ---------------------------------------------------------------- uncontended operations complete

  function ReadsLeft(part: Part, room: nat, st: Stored): (k: int) {
    if part.stage == 0 then 4 + Min(room, |st.data|)
    else if part.stage == 1 then 3 + Min(room, |st.data|) - |part.data|
    else 4 - part.stage
  }

  /** A consumer that runs alone finishes copying the record it has checked. */
  lemma {:induction false} FinishCopy(s: State) returns (acts: seq<Action>)
    requires Inv(s) && s.consumer.Copying?
    ensures CanRun(s, acts)
    ensures Run(s, acts).consumer.Copying? && Run(s, acts).consumer.part.stage == 4
    ensures Run(s, acts) == s.(consumer := Run(s, acts).consumer)
    ensures Run(s, acts).consumer.room == s.consumer.room && Run(s, acts).consumer.pos == s.consumer.pos
    ensures Inv(Run(s, acts))
    decreases ReadsLeft(s.consumer.part, s.consumer.room, Store(s.claims[s.consumer.pos].msg, s.cap))
  {
    if s.consumer.part.stage == 4 {
      acts := [];
    } else {
      PopReadKeeps(s);
      var rest := FinishCopy(Apply(s, PopRead));
      acts := [PopRead] + rest;
      assert acts[1..] == rest;
    }
  }

  /** The load of the head and the ready check lead a resting consumer into the copy of a published record. */
  lemma SoloPopStarts(s: State, room: nat)
    requires Inv(s) && s.n >= 2 && s.consumer.Resting? && s.freed == s.head && s.head in s.published
    ensures CanRun(s, [PopBegin(room), PopCheck])
    ensures Run(s, [PopBegin(room), PopCheck]) == s.(consumer := Copying(room, s.head, Part(0, 0, [], 0, 0, 0)))
    ensures Inv(Run(s, [PopBegin(room), PopCheck]))
  {
    var t := Apply(s, PopBegin(room));
    StepKeeps(s, PopBegin(room));
    assert s.seqs[Slot(s.freed, s.n)] == s.freed + 1;
    StepKeeps(t, PopCheck);
    RunTwo(s, PopBegin(room), PopCheck);
  }

  /** The shared memory of `t` is that of `s` after the two closing stores of a pop at its head. */
  predicate PoppedMemory(s: State, t: State)
    requires s.n == |s.seqs| > 0
  {
    && t.n == s.n && t.cap == s.cap && t.tail == s.tail && t.lost == s.lost && t.cells == s.cells
    && t.head == s.head + 1 && t.seqs == s.seqs[Slot(s.head, s.n) := s.head + s.n]
  }

  /** The two closing stores hand out the copied record. */
  lemma SoloPopCloses(s: State)
    requires Inv(s) && s.n >= 2 && s.consumer.Copying? && s.consumer.part.stage == 4
    ensures CanRun(s, [PopFree, PopAdvance])
    ensures var t := Run(s, [PopFree, PopAdvance]);
            && t.consumer.Resting? && t.head == s.head + 1 && |t.delivered| == s.head + 1
            && t.delivered[..s.head] == s.delivered
            && t.delivered[s.head].room == s.consumer.room
            && Fits(t.delivered[s.head], Store(s.claims[s.head].msg, s.cap))
    ensures PoppedMemory(s, Run(s, [PopFree, PopAdvance]))
  {
    StepKeeps(s, PopFree);
    RunTwo(s, PopFree, PopAdvance);
  }

  /** A pop of a published record that runs alone hands out that record. */
  lemma SoloPop(s: State, room: nat) returns (acts: seq<Action>)
    requires Inv(s) && s.n >= 2 && s.consumer.Resting? && s.freed == s.head && s.head in s.published
    ensures CanRun(s, acts) && Run(s, acts).consumer.Resting? && Run(s, acts).head == s.head + 1
    ensures |Run(s, acts).delivered| == s.head + 1 && Run(s, acts).delivered[..s.head] == s.delivered
    ensures Run(s, acts).delivered[s.head].room == room
    ensures Fits(Run(s, acts).delivered[s.head], Store(s.claims[s.head].msg, s.cap))
    ensures Delivers(Run(s, acts).delivered[s.head], s.claims[s.head].msg, s.cap)
    ensures PoppedMemory(s, Run(s, acts))
  {
    var start, close := [PopBegin(room), PopCheck], [PopFree, PopAdvance];
    SoloPopStarts(s, room);
    var s2 := Run(s, start);
    var copy := FinishCopy(s2);
    SoloPopCloses(Run(s2, copy));
    RunAppend(s2, copy, close);
    RunAppend(s, start, copy + close);
    acts := start + (copy + close);
    DeliveredMeans(Run(s, acts).delivered[s.head], s.claims[s.head].msg, s.cap);
  }

  /** A consumer that dies before its slot-free store causes no loss: the next consumer can hand out the very
      record the dead one was copying. */
  lemma ConsumerDeathRedelivers(n: nat, cap: nat, acts: seq<Action>, s: State, room: nat) returns (next: seq<Action>)
    requires n >= 2 && Reaches(n, cap, acts, s) && s.consumer.Copying?
    ensures CanRun(s, [ConsumerDies, ConsumerRestarts] + next)
    ensures var t := Run(s, [ConsumerDies, ConsumerRestarts] + next);
            && s.consumer.pos < |s.claims|
            && |t.delivered| == |s.delivered| + 1 == s.consumer.pos + 1
            && Delivers(t.delivered[s.consumer.pos], s.claims[s.consumer.pos].msg, cap)
  {
    ReachableInv(n, cap, acts, s);
    StepKeeps(s, ConsumerDies);
    var s1 := Apply(s, ConsumerDies);
    StepKeeps(s1, ConsumerRestarts);
    next := SoloPop(Apply(s1, ConsumerRestarts), room);
    RunTwo(s, ConsumerDies, ConsumerRestarts);
    RunAppend(s, [ConsumerDies, ConsumerRestarts], next);
  }
}
