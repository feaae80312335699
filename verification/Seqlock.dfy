/**
 The per-slot seqlock of the registry, word by word. One writer at a time (the holder of the control mutex) copies an
 entry into the slot one word at a time and in any order, readers copy it out in any order, a writer may die in the
 middle, and a recovery that finds the slot damaged wipes it the same way. The whole-struct copy of `publish_slot`
 also copies the source's own sequence word over the odd word just stored; a publish with `own == NoWord` is the
 design, where the copy leaves the sequence word alone, and `own == Word(v)` is the code, where it stores `v`. Sequence
 words are unbounded: the model speaks of reads during which the 32-bit word does not come round to the same value.
 */
module Seqlock {
  import opened Base

  /** The words of an entry other than its sequence word. */
  type Words = seq<int>

  /** The sequence word inside the entry being copied, if the copy stores it. */
  datatype Own = NoWord | Word(v: nat)

  /** `odd` is the odd word of the write, one below the even word that ends it; `copied` the words stored so far; `own`
      the sequence word the copy has still to store; `restored` whether the odd word has been put back after it. */
  datatype Writer =
    | Quiet
    | Busy(src: Words, odd: nat, copied: set<nat>, own: Own, restored: bool)
    | Crashed

  /** A reader between its two loads of the sequence word. */
  datatype Reader = Reader(s1: nat, got: map<nat, int>)

  /** A snapshot a reader accepted, and the whole entry current at that moment. */
  datatype Accepted = Accepted(snapshot: Words, whole: Words)

  datatype State = State(seq_: nat, words: Words, writer: Writer, readers: map<nat, Reader>,
                         current: Words, versions: set<Words>, accepted: seq<Accepted>)

  datatype Action =
    | BeginPublish(src: Words, own: Own)
    | BeginClear(own: Own)
    | CopyWord(i: nat)
    | CopySeq
    | Restore
    | Finish
    | Dies
    | Keep
    | ReadBegin(r: nat)
    | ReadWord(r: nat, i: nat)
    | ReadEnd(r: nat)

  predicate Odd(s: nat) {
    s % 2 == 1
  }

  function Blank(w: nat): (z: Words) {
    seq(w, _ => 0)
  }

  function Initial(w: nat): (s: State) {
    State(0, Blank(w), Quiet, map[], Blank(w), {Blank(w)}, [])
  }

  /** The entry has a name: its first word is the first of the name's. */
  predicate HasName(words: Words) {
    words != [] && words[0] != 0
  }

  /** What makes a recovery wipe the slot. Its occupancy bit is set whenever a writer is in it, so a slot without a name
      is damaged as well as one with an odd word. */
  predicate Damaged(s: State) {
    Odd(s.seq_) || !HasName(s.words)
  }

  /** The copy has stored every word, and its own sequence word if it has one. */
  predicate Copied(s: State) {
    s.writer.Busy? && s.writer.own.NoWord? && forall i: nat :: i < |s.words| ==> i in s.writer.copied
  }

  /** The reader has every word. */
  predicate Complete(s: State, r: nat) {
    r in s.readers && forall i: nat :: i < |s.words| ==> i in s.readers[r].got
  }

  predicate Enabled(s: State, a: Action) {
    match a
    case BeginPublish(src, _) => s.writer.Quiet? && !Odd(s.seq_) && |src| == |s.words|
    case BeginClear(_) => (s.writer.Quiet? || s.writer.Crashed?) && Damaged(s)
    case CopyWord(i) => s.writer.Busy? && i < |s.words| && i < |s.writer.src| && i !in s.writer.copied
    case CopySeq => s.writer.Busy? && s.writer.own.Word?
    case Restore => Copied(s) && !s.writer.restored
    case Finish => Copied(s) && s.writer.restored
    case Dies => s.writer.Busy?
    case Keep => s.writer.Crashed? && !Damaged(s)
    case ReadBegin(r) => r !in s.readers && !Odd(s.seq_)
    case ReadWord(r, i) => r in s.readers && i < |s.words| && i !in s.readers[r].got
    case ReadEnd(r) => Complete(s, r)
  }

  /** The words a reader collected, in order. */
  function Collected(got: map<nat, int>, w: nat): (z: Words)
    requires forall i: nat :: i < w ==> i in got
  {
    seq(w, i requires 0 <= i < w => got[i])
  }

  function Apply(s: State, a: Action): (t: State)
    requires Enabled(s, a)
  {
    match a
    case BeginPublish(src, own) => s.(seq_ := s.seq_ + 1, writer := Busy(src, s.seq_ + 1, {}, own, own.NoWord?))
    case BeginClear(own) =>
      var odd := if Odd(s.seq_) then s.seq_ else s.seq_ + 1;
      s.(seq_ := odd, writer := Busy(Blank(|s.words|), odd, {}, own, true))
    case CopyWord(i) =>
      s.(words := s.words[i := s.writer.src[i]], writer := s.writer.(copied := s.writer.copied + {i}))
    case CopySeq => s.(seq_ := s.writer.own.v, writer := s.writer.(own := NoWord))
    case Restore => s.(seq_ := s.writer.odd, writer := s.writer.(restored := true))
    case Finish =>
      s.(seq_ := s.writer.odd + 1, writer := Quiet, current := s.writer.src, versions := s.versions + {s.writer.src})
    case Dies => s.(writer := Crashed)
    case Keep => s.(writer := Quiet, current := s.words)
    case ReadBegin(r) => s.(readers := s.readers[r := Reader(s.seq_, map[])])
    case ReadWord(r, i) =>
      s.(readers := s.readers[r := Reader(s.readers[r].s1, s.readers[r].got[i := s.words[i]])])
    case ReadEnd(r) =>
      var t := s.(readers := s.readers - {r});
      if s.seq_ == s.readers[r].s1
      then t.(accepted := s.accepted + [Accepted(Collected(s.readers[r].got, |s.words|), s.current)])
      else t
  }

  predicate CanRun(s: State, acts: seq<Action>)
    decreases |acts|
  {
    acts == [] || (Enabled(s, acts[0]) && CanRun(Apply(s, acts[0]), acts[1..]))
  }

  function Run(s: State, acts: seq<Action>): (t: State)
    requires CanRun(s, acts)
    decreases |acts|
  {
    if acts == [] then s else Run(Apply(s, acts[0]), acts[1..])
  }

  // ---------------------------------------------------------------- when snapshots are whole

  /** The sequence word stays odd while the entry is being written: the copy stores none, as designed; or it stores an
      odd one and no writer dies. */
  predicate KeepsOdd(a: Action, crashes: bool) {
    match a
    case BeginPublish(_, own) => own.NoWord? || (!crashes && Odd(own.v))
    case BeginClear(own) => own.NoWord? || (!crashes && Odd(own.v))
    case Dies => crashes
    case _ => true
  }

  predicate AllKeepOdd(acts: seq<Action>, crashes: bool) {
    forall i :: 0 <= i < |acts| ==> KeepsOdd(acts[i], crashes)
  }

  /** No sequence word at or above this has been seen by a reader. */
  function Limit(s: State): (k: int) {
    match s.writer
    case Quiet => s.seq_
    case Busy(_, odd, _, _, _) => odd - 1
    case Crashed => s.seq_ - 1
  }

  ghost predicate WriterOk(s: State, crashes: bool) {
    match s.writer
    case Quiet => !Odd(s.seq_) && s.words == s.current
    case Busy(src, odd, copied, own, restored) =>
      && |src| == |s.words| && Odd(odd) && Odd(s.seq_)
      && (crashes ==> own.NoWord? && s.seq_ == odd)
      && (own.Word? ==> Odd(own.v))
      && (forall i :: i in copied ==> i < |src| && s.words[i] == src[i])
    case Crashed => crashes && Odd(s.seq_)
  }

  ghost predicate ReaderOk(s: State, rd: Reader) {
    && !Odd(rd.s1) && rd.s1 <= Limit(s)
    && (forall i :: i in rd.got ==> i < |s.words|)
    && (rd.s1 == s.seq_ ==> forall i :: i in rd.got ==> rd.got[i] == s.words[i])
  }

  ghost predicate Inv(s: State, crashes: bool) {
    && WriterOk(s, crashes)
    && (forall r :: r in s.readers ==> ReaderOk(s, s.readers[r]))
    && s.current in s.versions
    && (forall k :: 0 <= k < |s.accepted| ==>
          s.accepted[k].snapshot == s.accepted[k].whole && s.accepted[k].whole in s.versions)
  }

  lemma ReadersFollow(s: State, t: State, crashes: bool)
    requires Inv(s, crashes) && t.readers == s.readers && |t.words| == |s.words| && Limit(s) <= Limit(t)
    requires t.seq_ != s.seq_ ==> Odd(t.seq_) || t.seq_ > Limit(s)
    requires t.seq_ == s.seq_ ==> t.words == s.words || Odd(s.seq_)
    ensures forall r :: r in t.readers ==> ReaderOk(t, t.readers[r])
  {
    forall r | r in t.readers ensures ReaderOk(t, t.readers[r]) {
      assert ReaderOk(s, s.readers[r]);
    }
  }

  lemma WriteStep(s: State, a: Action, crashes: bool)
    requires Inv(s, crashes) && Enabled(s, a) && KeepsOdd(a, crashes)
    requires !a.ReadBegin? && !a.ReadWord? && !a.ReadEnd?
    ensures Inv(Apply(s, a), crashes)
  {
    var t := Apply(s, a);
    if a.Finish? {
      assert t.words == s.writer.src;
    }
    ReadersFollow(s, t, crashes);
  }

  lemma ReadStep(s: State, a: Action, crashes: bool)
    requires Inv(s, crashes) && Enabled(s, a) && (a.ReadBegin? || a.ReadWord? || a.ReadEnd?)
    ensures Inv(Apply(s, a), crashes)
  {
    var t := Apply(s, a);
    forall r | r in t.readers ensures ReaderOk(t, t.readers[r]) {
      if r in s.readers { assert ReaderOk(s, s.readers[r]); }
    }
    if a.ReadEnd? && s.seq_ == s.readers[a.r].s1 {
      assert ReaderOk(s, s.readers[a.r]);
      assert Collected(s.readers[a.r].got, |s.words|) == s.words;
    }
  }

  lemma {:induction false} RunKeeps(s: State, acts: seq<Action>, crashes: bool)
    requires Inv(s, crashes) && CanRun(s, acts) && AllKeepOdd(acts, crashes)
    ensures Inv(Run(s, acts), crashes)
    decreases |acts|
  {
    if acts == [] {
    } else {
      var a := acts[0];
      assert KeepsOdd(a, crashes);
      if a.ReadBegin? || a.ReadWord? || a.ReadEnd? { ReadStep(s, a, crashes); } else { WriteStep(s, a, crashes); }
      RunKeeps(Apply(s, a), acts[1..], crashes);
    }
  }

  /** While the sequence word stays odd during every write, every accepted snapshot is the whole entry current at the
      moment of acceptance, and so one that was published or the blank one: over all interleavings of one writer and any
      number of readers, and over deaths and recoveries when the copy leaves the sequence word alone. */
  lemma SnapshotsAreWhole(w: nat, acts: seq<Action>, crashes: bool)
    requires CanRun(Initial(w), acts) && AllKeepOdd(acts, crashes)
    ensures var s := Run(Initial(w), acts);
            forall k :: 0 <= k < |s.accepted| ==>
              s.accepted[k].snapshot == s.accepted[k].whole && s.accepted[k].whole in s.versions
  {
    RunKeeps(Initial(w), acts, crashes);
  }

  // ---------------------------------------------------------------- when they are not

  lemma RunOne(s: State, a: Action)
    requires Enabled(s, a)
    ensures CanRun(s, [a]) && Run(s, [a]) == Apply(s, a)
  {
    assert [a][1..] == [];
    assert Run(s, [a]) == Run(Apply(s, a), []);
  }

  lemma {:induction false} RunAppend(s: State, a: seq<Action>, b: seq<Action>)
    requires CanRun(s, a) && CanRun(Run(s, a), b)
    ensures CanRun(s, a + b) && Run(s, a + b) == Run(Run(s, a), b)
    decreases |a|
  {
    if a == [] {
      assert a + b == b;
    } else {
      assert (a + b)[1..] == a[1..] + b;
      RunAppend(Apply(s, a[0]), a[1..], b);
    }
  }

  /** The actions that copy the words from `k` to the end out of a slot nobody is writing at that moment. */
  function ReadsFrom(k: nat, w: nat): (acts: seq<Action>)
    requires k <= w
    decreases w - k
  {
    if k == w then [] else [ReadWord(0, k)] + ReadsFrom(k + 1, w)
  }

  /** The words below `k`, as a reader collects them. */
  function GotBelow(words: Words, k: nat): (got: map<nat, int>)
    requires k <= |words|
  {
    map i: nat | i < k :: words[i]
  }

  lemma {:induction false} ReadsAll(s: State, k: nat)
    requires k <= |s.words| && 0 in s.readers && s.readers[0].got == GotBelow(s.words, k)
    ensures CanRun(s, ReadsFrom(k, |s.words|))
    ensures Run(s, ReadsFrom(k, |s.words|))
         == s.(readers := s.readers[0 := Reader(s.readers[0].s1, GotBelow(s.words, |s.words|))])
    decreases |s.words| - k
  {
    if k == |s.words| {
      assert s.readers[0 := s.readers[0]] == s.readers;
    } else {
      var t := Apply(s, ReadWord(0, k));
      assert t.readers[0].got == GotBelow(s.words, k + 1);
      ReadsAll(t, k + 1);
      assert ReadsFrom(k, |s.words|)[1..] == ReadsFrom(k + 1, |s.words|);
      assert t.readers[0 := Reader(s.readers[0].s1, GotBelow(s.words, |s.words|))]
          == s.readers[0 := Reader(s.readers[0].s1, GotBelow(s.words, |s.words|))];
    }
  }

  /** The entry that the torn read below publishes: every word 1. */
  function Ones(w: nat): (z: Words) {
    seq(w, _ => 1)
  }

  /** The first half: a publish whose copy has stored the source's own even sequence word and the first word. */
  lemma HalfCopied(w: nat, v: nat)
    requires w >= 2
    ensures var acts := [BeginPublish(Ones(w), Word(v)), CopySeq, CopyWord(0)];
            CanRun(Initial(w), acts)
            && Run(Initial(w), acts) == Initial(w).(seq_ := v, words := Blank(w)[0 := 1],
                                                    writer := Busy(Ones(w), 1, {0}, NoWord, false))
  {
    var s := Initial(w);
    var a, b, c := BeginPublish(Ones(w), Word(v)), CopySeq, CopyWord(0);
    assert [a, b, c][1..] == [b, c] && [b, c][1..] == [c] && [c][1..] == [];
    var s1 := Apply(s, a);
    var s2 := Apply(s1, b);
    RunOne(s2, c);
    assert CanRun(s1, [b, c]) && Run(s1, [b, c]) == Run(s2, [c]);
    assert {0} == {} + {0};
  }

  /** A read of the half-copied slot. */
  lemma ReadHalf(s: State)
    requires s.readers == map[] && !Odd(s.seq_)
    ensures var acts := [ReadBegin(0)] + (ReadsFrom(0, |s.words|) + [ReadEnd(0)]);
            && CanRun(s, acts) && Run(s, acts).versions == s.versions
            && Run(s, acts).accepted == s.accepted + [Accepted(s.words, s.current)]
  {
    var t := Apply(s, ReadBegin(0));
    ReadsAll(t, 0);
    var u := Run(t, ReadsFrom(0, |s.words|));
    RunOne(u, ReadEnd(0));
    RunAppend(t, ReadsFrom(0, |s.words|), [ReadEnd(0)]);
    assert Collected(u.readers[0].got, |s.words|) == s.words;
    var rest := ReadsFrom(0, |s.words|) + [ReadEnd(0)];
    assert ([ReadBegin(0)] + rest)[1..] == rest;
  }

  /** An accepted snapshot that no publish ever wrote. */
  predicate Torn(s: State) {
    exists k :: 0 <= k < |s.accepted| && s.accepted[k].snapshot !in s.versions
  }

  // ---------------------------------------------------------------- the operations of the code

  /** What the writers of a run do: register entries whose own sequence word is in `words`; unregister or not, which
      publishes a value-initialized entry; die or not, after which a recovery wipes a damaged slot with one. The last
      two always copy the sequence word 0. */
  datatype Ops = Ops(words: set<nat>, unregisters: bool, deaths: bool)

  predicate CodeAction(a: Action, w: nat, ops: Ops) {
    match a
    case BeginPublish(src, own) =>
      own.Word? && (own.v in ops.words || (ops.unregisters && src == Blank(w) && own.v == 0))
    case BeginClear(own) => ops.deaths && own == Word(0)
    case Dies => ops.deaths
    case _ => true
  }

  ghost predicate CodeRun(acts: seq<Action>, w: nat, ops: Ops) {
    CanRun(Initial(w), acts) && forall i :: 0 <= i < |acts| ==> CodeAction(acts[i], w, ops)
  }

  /** A run of the code's operations that ends with a torn snapshot. */
  ghost predicate Tears(acts: seq<Action>, w: nat, ops: Ops) {
    CodeRun(acts, w, ops) && Torn(Run(Initial(w), acts))
  }

  lemma {:induction false} ReadsAreReads(k: nat, w: nat)
    requires k <= w
    ensures forall j :: 0 <= j < |ReadsFrom(k, w)| ==> ReadsFrom(k, w)[j].ReadWord?
    decreases w - k
  {
    if k == w {
    } else {
      ReadsAreReads(k + 1, w);
    }
  }

  /** The read of a slot whose even word and mixed content nobody published completes a run that tears. */
  lemma TornRead(w: nat, ops: Ops, write: seq<Action>) returns (acts: seq<Action>)
    requires CodeRun(write, w, ops)
    requires var s := Run(Initial(w), write);
             s.readers == map[] && s.accepted == [] && !Odd(s.seq_) && s.words !in s.versions && |s.words| == w
    ensures Tears(acts, w, ops)
  {
    var s := Run(Initial(w), write);
    ReadHalf(s);
    var read := [ReadBegin(0)] + (ReadsFrom(0, w) + [ReadEnd(0)]);
    RunAppend(Initial(w), write, read);
    ReadsAreReads(0, w);
    acts := write + read;
    assert Run(Initial(w), acts).accepted[0].snapshot == s.words;
  }

  /** A source entry that carries an even sequence word, as every entry the library registers does, lets a reader accept
      a snapshot that mixes the old entry and the new one. */
  lemma EvenSourceTears(w: nat, v: nat) returns (acts: seq<Action>)
    requires w >= 2 && !Odd(v)
    ensures Tears(acts, w, Ops({v}, false, false))
  {
    var write := [BeginPublish(Ones(w), Word(v)), CopySeq, CopyWord(0)];
    HalfCopied(w, v);
    HalfIsNew(w);
    acts := TornRead(w, Ops({v}, false, false), write);
  }

  lemma HalfIsNew(w: nat)
    requires w >= 2
    ensures Blank(w)[0 := 1] != Blank(w) && Ones(w)[0 := 0] != Blank(w) && Ones(w)[0 := 0] != Ones(w)
  {
    assert Blank(w)[0 := 1][0] != Blank(w)[0];
    assert Ones(w)[0 := 0][1] != Blank(w)[1];
    assert Ones(w)[0 := 0][0] != Ones(w)[0];
  }

  /** Whatever word the source carries: a writer dies in the middle of its copy, and either its even word stands over
      the half-written entry, or the recovery stores the word 0 over it before it wipes it. */
  lemma DeathAndRecoveryTear(w: nat, v: nat) returns (acts: seq<Action>)
    requires w >= 2
    ensures Tears(acts, w, Ops({v}, false, true))
  {
    var half := [BeginPublish(Ones(w), Word(v)), CopySeq, CopyWord(0)];
    HalfCopied(w, v);
    HalfIsNew(w);
    if Odd(v) {
      var wipe := [Dies, BeginClear(Word(0)), CopySeq];
      WipeBegins(Run(Initial(w), half));
      RunAppend(Initial(w), half, wipe);
      acts := TornRead(w, Ops({v}, false, true), half + wipe);
    } else {
      RunOne(Run(Initial(w), half), Dies);
      RunAppend(Initial(w), half, [Dies]);
      acts := TornRead(w, Ops({v}, false, true), half + [Dies]);
    }
  }

  lemma WipeBegins(s: State)
    requires s.writer.Busy? && Odd(s.seq_)
    ensures var acts := [Dies, BeginClear(Word(0)), CopySeq];
            CanRun(s, acts) && Run(s, acts) == s.(seq_ := 0, writer := Run(s, acts).writer) && Run(s, acts).writer.Busy?
  {
    var acts := [Dies, BeginClear(Word(0)), CopySeq];
    assert acts[1..] == [BeginClear(Word(0)), CopySeq] && acts[1..][1..] == [CopySeq];
    var s1 := Apply(s, Dies);
    var s2 := Apply(s1, BeginClear(Word(0)));
    RunOne(s2, CopySeq);
    assert CanRun(s1, acts[1..]) && Run(s1, acts[1..]) == Run(s2, [CopySeq]);
  }

  // ---------------------------------------------------------------- what a recovery keeps

  /** A slot nobody is writing holds an entry nobody published. */
  predicate KeepsMixed(s: State) {
    s.writer.Quiet? && s.words !in s.versions
  }

  lemma KeptHalf(w: nat, ops: Ops, write: seq<Action>) returns (acts: seq<Action>)
    requires CodeRun(write, w, ops) && ops.deaths
    requires var s := Run(Initial(w), write); s.writer.Busy? && !Damaged(s) && s.words !in s.versions
    ensures CodeRun(acts, w, ops) && KeepsMixed(Run(Initial(w), acts))
  {
    var s := Run(Initial(w), write);
    var t := Apply(s, Dies);
    RunOne(t, Keep);
    assert [Dies, Keep][1..] == [Keep];
    assert CanRun(s, [Dies, Keep]) && Run(s, [Dies, Keep]) == Run(t, [Keep]);
    RunAppend(Initial(w), write, [Dies, Keep]);
    acts := write + [Dies, Keep];
  }

  /** Whatever word the source carries, deaths can leave a mixed entry that the recovery takes for a healthy one: of a
      writer that has stored an even word, or of a recovery that has stored the word 0. */
  lemma DeathsLeaveMixed(w: nat, v: nat) returns (acts: seq<Action>)
    requires w >= 2
    ensures CodeRun(acts, w, Ops({v}, false, true)) && KeepsMixed(Run(Initial(w), acts))
  {
    var half := [BeginPublish(Ones(w), Word(v)), CopySeq, CopyWord(0)];
    HalfCopied(w, v);
    HalfIsNew(w);
    if Odd(v) {
      var wipe := [Dies, BeginClear(Word(0)), CopySeq];
      WipeBegins(Run(Initial(w), half));
      RunAppend(Initial(w), half, wipe);
      acts := KeptHalf(w, Ops({v}, false, true), half + wipe);
    } else {
      acts := KeptHalf(w, Ops({v}, false, true), half);
    }
  }

  /** No writer has died: a quiet slot holds the entry last published, and a copy under way has stored its own words. */
  ghost predicate Undamaged(s: State) {
    && s.current in s.versions && !s.writer.Crashed?
    && (s.writer.Quiet? ==> s.words == s.current)
    && (s.writer.Busy? ==> |s.writer.src| == |s.words|
                           && forall i :: i in s.writer.copied ==> i < |s.words| && s.words[i] == s.writer.src[i])
  }

  lemma UndamagedStep(s: State, a: Action)
    requires Undamaged(s) && Enabled(s, a) && !a.Dies?
    ensures Undamaged(Apply(s, a))
  {
    if a.Finish? {
      assert s.words == s.writer.src;
    }
  }

  lemma {:induction false} UndamagedRun(s: State, acts: seq<Action>)
    requires Undamaged(s) && CanRun(s, acts) && Dies !in acts
    ensures Undamaged(Run(s, acts))
    decreases |acts|
  {
    if acts == [] {
    } else {
      UndamagedStep(s, acts[0]);
      UndamagedRun(Apply(s, acts[0]), acts[1..]);
    }
  }

  ghost predicate NeverKeepsMixed(w: nat, ops: Ops) {
    forall acts :: CodeRun(acts, w, ops) ==> !KeepsMixed(Run(Initial(w), acts))
  }

  /** Under the code's operations no mixed entry is ever left in a slot exactly when no writer dies, or nothing is ever
      registered. */
  lemma NeverKeepsMixedIff(w: nat, ops: Ops)
    requires w >= 2
    ensures NeverKeepsMixed(w, ops) <==> ops.words == {} || !ops.deaths
  {
    if ops.words == {} || !ops.deaths {
      forall acts | CodeRun(acts, w, ops) ensures !KeepsMixed(Run(Initial(w), acts)) {
        WholeIsKept(acts, w, ops);
      }
    } else {
      var v :| v in ops.words;
      var acts := DeathsLeaveMixed(w, v);
      MoreRuns(acts, w, Ops({v}, false, true), ops);
    }
  }

  lemma WholeIsKept(acts: seq<Action>, w: nat, ops: Ops)
    requires CodeRun(acts, w, ops) && (ops.words == {} || !ops.deaths)
    ensures !KeepsMixed(Run(Initial(w), acts))
  {
    if ops.words == {} {
      BlankRun(Initial(w), acts, w, ops);
    } else {
      UndamagedRun(Initial(w), acts);
    }
  }

  /** Under the design, where the copy leaves the odd word alone, none is left whoever dies. */
  lemma DesignKeepsWhole(w: nat, acts: seq<Action>, crashes: bool)
    requires CanRun(Initial(w), acts) && AllKeepOdd(acts, crashes)
    ensures !KeepsMixed(Run(Initial(w), acts))
  {
    RunKeeps(Initial(w), acts, crashes);
  }

  /** The copies of the words from `k` to the end. */
  function CopiesFrom(k: nat, w: nat): (acts: seq<Action>)
    requires k <= w
    decreases w - k
  {
    if k == w then [] else [CopyWord(k)] + CopiesFrom(k + 1, w)
  }

  lemma {:induction false} CopiesAreCopies(k: nat, w: nat)
    requires k <= w
    ensures forall j :: 0 <= j < |CopiesFrom(k, w)| ==> CopiesFrom(k, w)[j].CopyWord?
    decreases w - k
  {
    if k == w {
    } else {
      CopiesAreCopies(k + 1, w);
    }
  }

  lemma {:induction false} CopiesAll(s: State, k: nat)
    requires s.writer.Busy? && |s.writer.src| == |s.words| && k <= |s.words| && s.writer.copied == FirstNats(k)
    requires forall i :: 0 <= i < k ==> s.words[i] == s.writer.src[i]
    ensures CanRun(s, CopiesFrom(k, |s.words|))
    ensures Run(s, CopiesFrom(k, |s.words|))
         == s.(words := s.writer.src, writer := s.writer.(copied := FirstNats(|s.words|)))
    decreases |s.words| - k
  {
    var w := |s.words|;
    if k == w {
      assert s.words == s.writer.src;
    } else {
      var t := Apply(s, CopyWord(k));
      assert FirstNats(k) + {k} == FirstNats(k + 1);
      CopiesAll(t, k + 1);
      assert CopiesFrom(k, w)[1..] == CopiesFrom(k + 1, w);
    }
  }

  function RegisterAll(w: nat, v: nat): (acts: seq<Action>) {
    [BeginPublish(Ones(w), Word(v)), CopySeq] + (CopiesFrom(0, w) + [Restore, Finish])
  }

  /** A register that runs to its end. */
  lemma Registered(w: nat, v: nat)
    ensures CanRun(Initial(w), RegisterAll(w, v))
    ensures Run(Initial(w), RegisterAll(w, v))
         == Initial(w).(seq_ := 2, words := Ones(w), current := Ones(w), versions := {Blank(w), Ones(w)})
  {
    var s := Initial(w);
    var opening, closing := [BeginPublish(Ones(w), Word(v)), CopySeq], [Restore, Finish];
    var s1 := Apply(s, opening[0]);
    var s2 := Apply(s1, CopySeq);
    assert opening[1..] == [CopySeq] && CanRun(s1, [CopySeq]) && Run(s1, [CopySeq]) == s2;
    assert FirstNats(0) == {};
    CopiesAll(s2, 0);
    var s3 := Run(s2, CopiesFrom(0, w));
    RegisterCloses(s3);
    RunAppend(s2, CopiesFrom(0, w), closing);
    RunAppend(s, opening, CopiesFrom(0, w) + closing);
    assert {Blank(w)} + {Ones(w)} == {Blank(w), Ones(w)};
  }

  lemma RegisterCloses(s: State)
    requires s.writer.Busy? && s.writer.own == NoWord && !s.writer.restored && s.writer.copied == FirstNats(|s.words|)
    ensures CanRun(s, [Restore, Finish])
    ensures Run(s, [Restore, Finish])
         == s.(seq_ := s.writer.odd + 1, writer := Quiet, current := s.writer.src,
               versions := s.versions + {s.writer.src})
  {
    var t := Apply(s, Restore);
    assert [Restore, Finish][1..] == [Finish];
    RunOne(t, Finish);
  }

  lemma UnregisterBegins(s: State)
    requires s.writer.Quiet? && !Odd(s.seq_) && |s.words| >= 1
    ensures var acts := [BeginPublish(Blank(|s.words|), Word(0)), CopySeq, CopyWord(0)];
            CanRun(s, acts) && Run(s, acts) == s.(seq_ := 0, words := s.words[0 := 0], writer := Run(s, acts).writer)
  {
    var acts := [BeginPublish(Blank(|s.words|), Word(0)), CopySeq, CopyWord(0)];
    assert acts[1..] == [CopySeq, CopyWord(0)] && acts[1..][1..] == [CopyWord(0)] && [CopyWord(0)][1..] == [];
    var s1 := Apply(s, acts[0]);
    var s2 := Apply(s1, CopySeq);
    RunOne(s2, CopyWord(0));
    assert CanRun(s1, acts[1..]) && Run(s1, acts[1..]) == Run(s2, [CopyWord(0)]);
  }

  /** Whatever word the source carries: once an entry is registered, its unregister stores the word 0 over it before it
      has wiped it. */
  lemma UnregisterTears(w: nat, v: nat) returns (acts: seq<Action>)
    requires w >= 2
    ensures Tears(acts, w, Ops({v}, true, false))
  {
    var wipe := [BeginPublish(Blank(w), Word(0)), CopySeq, CopyWord(0)];
    Registered(w, v);
    CopiesAreCopies(0, w);
    var s := Run(Initial(w), RegisterAll(w, v));
    UnregisterBegins(s);
    RunAppend(Initial(w), RegisterAll(w, v), wipe);
    HalfIsNew(w);
    acts := TornRead(w, Ops({v}, true, false), RegisterAll(w, v) + wipe);
  }

  // ---------------------------------------------------------------- when the code never tears

  ghost predicate NeverTears(w: nat, ops: Ops) {
    forall acts :: CodeRun(acts, w, ops) ==> !Torn(Run(Initial(w), acts))
  }

  /** Nothing was ever registered: the slot, every copy under way and every snapshot are blank. */
  ghost predicate AllBlank(s: State, w: nat) {
    && s.words == Blank(w) && s.versions == {Blank(w)}
    && (s.writer.Busy? ==> s.writer.src == Blank(w))
    && (forall r, i :: r in s.readers && i in s.readers[r].got ==> s.readers[r].got[i] == 0)
    && (forall k :: 0 <= k < |s.accepted| ==> s.accepted[k].snapshot == Blank(w))
  }

  lemma BlankStep(s: State, a: Action, w: nat, ops: Ops)
    requires AllBlank(s, w) && Enabled(s, a) && CodeAction(a, w, ops) && ops.words == {}
    ensures AllBlank(Apply(s, a), w)
  {
    var t := Apply(s, a);
    if a.CopyWord? {
      assert t.words == Blank(w);
    }
    if a.ReadEnd? && s.seq_ == s.readers[a.r].s1 {
      assert Collected(s.readers[a.r].got, w) == Blank(w);
    }
  }

  lemma {:induction false} BlankRun(s: State, acts: seq<Action>, w: nat, ops: Ops)
    requires AllBlank(s, w) && CanRun(s, acts) && ops.words == {}
    requires forall i :: 0 <= i < |acts| ==> CodeAction(acts[i], w, ops)
    ensures AllBlank(Run(s, acts), w)
    decreases |acts|
  {
    if acts == [] {
    } else {
      BlankStep(s, acts[0], w, ops);
      BlankRun(Apply(s, acts[0]), acts[1..], w, ops);
    }
  }

  /** Only registers, each with an odd word, and no deaths. */
  ghost predicate OddRegistersOnly(ops: Ops) {
    (forall v :: v in ops.words ==> Odd(v)) && !ops.unregisters && !ops.deaths
  }

  lemma SafeOpsNeverTear(acts: seq<Action>, w: nat, ops: Ops)
    requires CodeRun(acts, w, ops) && (ops.words == {} || OddRegistersOnly(ops))
    ensures !Torn(Run(Initial(w), acts))
  {
    if ops.words == {} {
      BlankRun(Initial(w), acts, w, ops);
    } else {
      forall i | 0 <= i < |acts| ensures KeepsOdd(acts[i], false) {
        assert CodeAction(acts[i], w, ops);
      }
      SnapshotsAreWhole(w, acts, false);
    }
  }

  /** More operations allow more runs. */
  lemma MoreRuns(acts: seq<Action>, w: nat, few: Ops, many: Ops)
    requires CodeRun(acts, w, few) && few.words <= many.words
    requires (few.unregisters ==> many.unregisters) && (few.deaths ==> many.deaths)
    ensures CodeRun(acts, w, many)
  {
    forall i | 0 <= i < |acts| ensures CodeAction(acts[i], w, many) {
      assert CodeAction(acts[i], w, few);
    }
  }

  lemma TearsMore(acts: seq<Action>, w: nat, few: Ops, many: Ops)
    requires Tears(acts, w, few) && few.words <= many.words
    requires (few.unregisters ==> many.unregisters) && (few.deaths ==> many.deaths)
    ensures !NeverTears(w, many)
  {
    MoreRuns(acts, w, few, many);
  }

  /** The code never lets a reader accept a torn snapshot, over every interleaving, exactly when nothing is ever
      registered, or the registered entries carry odd sequence words only, nothing is ever unregistered and no writer
      dies. */
  lemma NeverTearsIff(w: nat, ops: Ops)
    requires w >= 2
    ensures NeverTears(w, ops) <==> ops.words == {} || OddRegistersOnly(ops)
  {
    if ops.words == {} || OddRegistersOnly(ops) {
      forall acts | CodeRun(acts, w, ops) ensures !Torn(Run(Initial(w), acts)) {
        SafeOpsNeverTear(acts, w, ops);
      }
    } else if ops.deaths {
      var v :| v in ops.words;
      var acts := DeathAndRecoveryTear(w, v);
      TearsMore(acts, w, Ops({v}, false, true), ops);
    } else if ops.unregisters {
      var v :| v in ops.words;
      var acts := UnregisterTears(w, v);
      TearsMore(acts, w, Ops({v}, true, false), ops);
    } else {
      var v :| v in ops.words && !Odd(v);
      var acts := EvenSourceTears(w, v);
      TearsMore(acts, w, Ops({v}, false, false), ops);
    }
  }
}
