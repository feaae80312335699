/** The creation quota when creates overlap: each judges the list before it registers its own entry. */
module QuotaOverlap {
  import opened Base
  import opened HeaderBounds
  import opened Layout
  import opened Names
  import opened Quota
  import opened RegistryOps
  import opened RegistryTable

  /** `waiting` are the creates between their list and their register, with the entry each will register. */
  datatype World = World(t: Table, waiting: map<nat, Body>)

  datatype Step = Judge(p: nat, request: SegmentRequest) | Enter(p: nat) | Other(request: SegmentRequest)

  predicate Enabled(w: World, a: Step) {
    && Sized(w.t)
    && match a
       case Judge(p, q) => p !in w.waiting && q.Create?
       case Enter(p) => p in w.waiting
       case Other(q) => !q.Create?
  }

  function Apply(w: World, a: Step): (v: World)
    requires Enabled(w, a)
    ensures Sized(v.t) && |v.t.slots| == |w.t.slots|
  {
    match a
    case Judge(p, q) =>
      if Admitted(w.t, q.name, q.total, q.meta, q.objectMade)
      then w.(waiting := w.waiting[p := EntryOf(q.name, q.total, q.fields)]) else w
    case Enter(p) => World(RegisterTable(w.t, w.waiting[p]).0, w.waiting - {p})
    case Other(q) => w.(t := Serve(w.t, q))
  }

  predicate CanRun(w: World, acts: seq<Step>)
    decreases |acts|
  {
    acts == [] || (Enabled(w, acts[0]) && CanRun(Apply(w, acts[0]), acts[1..]))
  }

  function Run(w: World, acts: seq<Step>): (v: World)
    requires CanRun(w, acts)
    ensures Sized(w.t) ==> Sized(v.t)
    decreases |acts|
  {
    if acts == [] then w else Run(Apply(w, acts[0]), acts[1..])
  }

  // ---------------------------------------------------------------- creates that do not overlap

  /** Every create of the run judges its request while no other is between its list and its register. */
  predicate Apart(w: World, acts: seq<Step>)
    requires CanRun(w, acts)
    decreases |acts|
  {
    acts == [] || ((acts[0].Judge? ==> w.waiting == map[]) && Apart(Apply(w, acts[0]), acts[1..]))
  }

  /** The table is within the quota, and at most one create waits, whose entry still fits. */
  ghost predicate Safe(w: World) {
    && Within(w.t)
    && (forall p, q :: p in w.waiting && q in w.waiting ==> p == q)
    && (forall p :: p in w.waiting ==> Fits(w.t, w.waiting[p]))
  }

  predicate Fits(t: Table, b: Body)
    requires Sized(t)
  {
    Parse(Key(b)).Parsed? && Key(b) != "" && Bytes(t) + b.totalSize <= TOTAL_QUOTA
  }

  lemma AdmittedFits(t: Table, q: SegmentRequest)
    requires Within(t) && q.Create? && Admitted(t, q.name, q.total, q.meta, q.objectMade)
    ensures Fits(t, EntryOf(q.name, q.total, q.fields)) && Key(EntryOf(q.name, q.total, q.fields)) == q.name
  {
    AcceptedIff(t, q.name, q.total, q.meta);
    AcceptedNameSurvives(q.name);
  }

  lemma FitsWithin(t: Table, b: Body)
    requires Within(t) && Fits(t, b)
    ensures Within(RegisterTable(t, b).0)
  {
    RegisterBytes(t, b);
    RegisterWithin(t, b);
  }

  /** Destroys and the janitor add no bytes. */
  lemma OtherAddsNothing(t: Table, q: SegmentRequest)
    requires Within(t) && !q.Create?
    ensures Within(Serve(t, q)) && Bytes(Serve(t, q)) <= Bytes(t)
  {
    match q
    case Destroy(name, _) => UnregisterWithin(t, name);
    case Collect(name) => UnregisterWithin(t, name);
    case Refresh(name, now) =>
      if Find(t, name, 0) < |t.slots| { RefreshWithin(t, name, now); }
  }

  lemma SafeStep(w: World, a: Step)
    requires Safe(w) && Enabled(w, a) && (a.Judge? ==> w.waiting == map[])
    ensures Safe(Apply(w, a))
  {
    match a
    case Judge(p, q) =>
      if Admitted(w.t, q.name, q.total, q.meta, q.objectMade) { AdmittedFits(w.t, q); }
    case Enter(p) => FitsWithin(w.t, w.waiting[p]);
    case Other(q) => OtherAddsNothing(w.t, q);
  }

  /** Over every run in which no two creates overlap between list and register, with destroys and the janitor in
      between, the registered bytes stay within 4 GiB. */
  lemma {:induction false} QuotaHoldsApart(w: World, acts: seq<Step>)
    requires Safe(w) && CanRun(w, acts) && Apart(w, acts)
    ensures Safe(Run(w, acts)) && Bytes(Run(w, acts).t) <= TOTAL_QUOTA
    decreases |acts|
  {
    if acts == [] {
    } else {
      SafeStep(w, acts[0]);
      QuotaHoldsApart(Apply(w, acts[0]), acts[1..]);
    }
  }

  // ---------------------------------------------------------------- creates that do

  lemma {:induction false} MembersAtMost(t: Table, ns: string, k: nat)
    requires Sized(t) && k <= |t.slots|
    ensures MembersBelow(t, ns, k) <= CountBelow(t.bits, k)
  {
    if k == 0 {
    } else {
      MembersAtMost(t, ns, k - 1);
    }
  }

  /** A request that fits alone: its name and size are allowed, and there is a free slot. */
  ghost predicate FitsAlone(t: Table, q: SegmentRequest)
    requires Sized(t)
  {
    && q.Create? && q.objectMade && Parse(q.name).Parsed? && q.name != REGISTRY_NAME
    && SizeAllowed(q.total, q.meta) && PayloadOffset(q.meta) <= q.total
    && Bytes(t) + q.total <= TOTAL_QUOTA && |Dict(t)| < |t.slots|
  }

  lemma FitsAloneIsAdmitted(t: Table, q: SegmentRequest)
    requires Within(t) && FitsAlone(t, q)
    ensures Admitted(t, q.name, q.total, q.meta, q.objectMade)
  {
    AcceptedIff(t, q.name, q.total, q.meta);
    DictMeaning(t);
    if !Parse(q.name).bootstrap {
      MembersAtMost(t, Parse(q.name).ns, |t.slots|);
    }
  }

  /** Registering a new name adds its size and its name. */
  lemma NewNameAdds(t: Table, b: Body)
    requires Good(t) && |t.slots| < U32 && Key(b) != "" && Key(b) !in Dict(t) && |Dict(t)| < |t.slots|
    ensures var u := RegisterTable(t, b).0;
            && Good(u) && Bytes(u) == Bytes(t) + b.totalSize
            && Dict(u) == Dict(t)[Key(b) := b] && |Dict(u)| == |Dict(t)| + 1
  {
    RegisterRefinesMap(t, b);
    RegisterBytes(t, b);
    FindInSound(t, Key(b));
    FreeInSound(t);
    assert Dict(t)[Key(b) := b].Keys == Dict(t).Keys + {Key(b)};
  }

  function Overlap(q: SegmentRequest, r: SegmentRequest): (acts: seq<Step>) {
    [Judge(0, q), Judge(1, r), Enter(0), Enter(1)]
  }

  /** Two creates of different new names that both list before either registers are both carried out if each fits alone,
      whether or not they fit together. */
  lemma OverlapAddsBoth(t: Table, q: SegmentRequest, r: SegmentRequest)
    requires Within(t) && FitsAlone(t, q) && FitsAlone(t, r)
    requires q.name != r.name && q.name !in Dict(t) && r.name !in Dict(t) && |Dict(t)| + 2 <= |t.slots|
    ensures CanRun(World(t, map[]), Overlap(q, r))
    ensures Bytes(Run(World(t, map[]), Overlap(q, r)).t) == Bytes(t) + q.total + r.total
  {
    var w := World(t, map[]);
    var a, b := EntryOf(q.name, q.total, q.fields), EntryOf(r.name, r.total, r.fields);
    FitsAloneIsAdmitted(t, q);
    FitsAloneIsAdmitted(t, r);
    AdmittedFits(t, q);
    AdmittedFits(t, r);
    BothWait(w, q, r);
    BothEnter(t, a, b);
    RunCons(Apply(w, Judge(0, q)), Judge(1, r), [Enter(0), Enter(1)]);
    RunCons(w, Judge(0, q), [Judge(1, r)] + [Enter(0), Enter(1)]);
    assert Overlap(q, r) == [Judge(0, q)] + ([Judge(1, r)] + [Enter(0), Enter(1)]);
  }

  lemma RunCons(w: World, a: Step, rest: seq<Step>)
    requires Enabled(w, a) && CanRun(Apply(w, a), rest)
    ensures CanRun(w, [a] + rest) && Run(w, [a] + rest) == Run(Apply(w, a), rest)
    ensures (a.Judge? ==> w.waiting == map[]) && Apart(Apply(w, a), rest) ==> Apart(w, [a] + rest)
  {
    assert ([a] + rest)[1..] == rest;
  }

  /** Every sequential run of requests is a run of these steps in which creates stay apart: a create is its list and its
      register, one right after the other. */
  lemma {:induction false} SequentialRun(t: Table, qs: seq<SegmentRequest>) returns (acts: seq<Step>)
    requires Sized(t)
    ensures var w := World(t, map[]);
            CanRun(w, acts) && Run(w, acts) == World(ServeAll(t, qs), map[]) && Apart(w, acts)
    decreases |qs|
  {
    if qs == [] {
      acts := [];
    } else {
      var rest := SequentialRun(Serve(t, qs[0]), qs[1..]);
      acts := ServeThen(t, qs[0], rest);
    }
  }

  lemma ServeThen(t: Table, q: SegmentRequest, rest: seq<Step>) returns (acts: seq<Step>)
    requires Sized(t) && CanRun(World(Serve(t, q), map[]), rest) && Apart(World(Serve(t, q), map[]), rest)
    ensures var w := World(t, map[]);
            CanRun(w, acts) && Run(w, acts) == Run(World(Serve(t, q), map[]), rest) && Apart(w, acts)
  {
    var w := World(t, map[]);
    if q.Create? && Admitted(t, q.name, q.total, q.meta, q.objectMade) {
      var v := Apply(w, Judge(0, q));
      assert Apply(v, Enter(0)) == World(Serve(t, q), map[]);
      RunCons(v, Enter(0), rest);
      RunCons(w, Judge(0, q), [Enter(0)] + rest);
      acts := [Judge(0, q)] + ([Enter(0)] + rest);
    } else {
      var one := if q.Create? then Judge(0, q) else Other(q);
      assert Apply(w, one) == World(Serve(t, q), map[]);
      RunCons(w, one, rest);
      acts := [one] + rest;
    }
  }

  lemma RunTwo(w: World, a: Step, b: Step)
    requires Enabled(w, a) && Enabled(Apply(w, a), b)
    ensures CanRun(w, [a, b]) && Run(w, [a, b]) == Apply(Apply(w, a), b)
  {
    var v := Apply(w, a);
    assert [a, b][1..] == [b] && [b][1..] == [];
    assert CanRun(v, [b]) && Run(v, [b]) == Run(Apply(v, b), []);
  }

  lemma BothWait(w: World, q: SegmentRequest, r: SegmentRequest)
    requires Sized(w.t) && w.waiting == map[] && q.Create? && r.Create?
    requires Admitted(w.t, q.name, q.total, q.meta, q.objectMade)
    requires Admitted(w.t, r.name, r.total, r.meta, r.objectMade)
    ensures Enabled(w, Judge(0, q)) && Enabled(Apply(w, Judge(0, q)), Judge(1, r))
    ensures Apply(Apply(w, Judge(0, q)), Judge(1, r))
         == w.(waiting := map[0 := EntryOf(q.name, q.total, q.fields), 1 := EntryOf(r.name, r.total, r.fields)])
  {
  }

  lemma BothEnter(t: Table, a: Body, b: Body)
    requires Good(t) && |t.slots| < U32 && Key(a) != "" && Key(b) != "" && Key(a) != Key(b)
    requires Key(a) !in Dict(t) && Key(b) !in Dict(t) && |Dict(t)| + 2 <= |t.slots|
    ensures var w := World(t, map[0 := a, 1 := b]);
            CanRun(w, [Enter(0), Enter(1)])
            && Bytes(Run(w, [Enter(0), Enter(1)]).t) == Bytes(t) + a.totalSize + b.totalSize
  {
    var w := World(t, map[0 := a, 1 := b]);
    NewNameAdds(t, a);
    NewNameAdds(RegisterTable(t, a).0, b);
    RunTwo(w, Enter(0), Enter(1));
  }

  // ---------------------------------------------------------------- from a new registry

  /** A request for 1 GiB under a name with a leaf of one letter. */
  function Gigabyte(leaf: char): (q: SegmentRequest) {
    Create(PREFIX + "log" + "." + [leaf], MAX_SEGMENT_SIZE, 0, Empty(), true)
  }

  lemma GigabyteIsAllowed(leaf: char)
    requires Lower(leaf)
    ensures var q := Gigabyte(leaf);
            && Parse(q.name) == Parsed("log", [leaf], false) && q.name != REGISTRY_NAME
            && SizeAllowed(q.total, q.meta) && PayloadOffset(q.meta) <= q.total
  {
    var name := Gigabyte(leaf).name;
    assert Grammatical(name, "log", [leaf]);
    ParsedIff(name, "log", [leaf]);
    SmallRemainder(HEADER_SIZE);
    AlignUpTo64(HEADER_SIZE);
  }

  lemma GigabytesDiffer(a: char, b: char)
    requires a != b
    ensures Gigabyte(a).name != Gigabyte(b).name
  {
    var x, y := Gigabyte(a).name, Gigabyte(b).name;
    assert x[|x| - 1] == a && y[|y| - 1] == b;
  }

  /** One sequential create of 1 GiB under a new name. */
  lemma GigabyteAdds(t: Table, leaf: char)
    requires Within(t) && Lower(leaf) && Gigabyte(leaf).name !in Dict(t) && |Dict(t)| < |t.slots|
    requires Bytes(t) + MAX_SEGMENT_SIZE <= TOTAL_QUOTA
    ensures var u := Serve(t, Gigabyte(leaf));
            && Within(u) && Bytes(u) == Bytes(t) + MAX_SEGMENT_SIZE && |Dict(u)| == |Dict(t)| + 1
            && Dict(u).Keys == Dict(t).Keys + {Gigabyte(leaf).name}
  {
    var q := Gigabyte(leaf);
    GigabyteIsAllowed(leaf);
    FitsAloneIsAdmitted(t, q);
    AdmittedFits(t, q);
    NewNameAdds(t, EntryOf(q.name, q.total, q.fields));
    ServeWithin(t, q);
  }

  function NamesOf(leaves: seq<char>): (names: set<string>) {
    set c | c in leaves :: Gigabyte(c).name
  }

  ghost predicate Letters(leaves: seq<char>) {
    && (forall i :: 0 <= i < |leaves| ==> Lower(leaves[i]))
    && (forall i, j :: 0 <= i < j < |leaves| ==> leaves[i] != leaves[j])
  }

  function Requests(leaves: seq<char>): (qs: seq<SegmentRequest>) {
    seq(|leaves|, i requires 0 <= i < |leaves| => Gigabyte(leaves[i]))
  }

  lemma {:induction false} ServeSnoc(t: Table, qs: seq<SegmentRequest>, q: SegmentRequest)
    requires Sized(t)
    ensures ServeAll(t, qs + [q]) == Serve(ServeAll(t, qs), q)
    decreases |qs|
  {
    if qs == [] {
      assert [] + [q] == [q] && [q][1..] == [];
      assert ServeAll(t, [q]) == ServeAll(Serve(t, q), []);
    } else {
      ServeSnoc(Serve(t, qs[0]), qs[1..], q);
      assert (qs + [q])[1..] == qs[1..] + [q];
    }
  }

  /** The table after a sequential create of 1 GiB for each leaf. */
  function Filled(n: nat, leaves: seq<char>): (t: Table)
    ensures Sized(t)
  {
    ServeAll(FreshTable(n), Requests(leaves))
  }

  lemma FilledSnoc(n: nat, leaves: seq<char>, c: char)
    ensures Filled(n, leaves + [c]) == Serve(Filled(n, leaves), Gigabyte(c))
  {
    ServeSnoc(FreshTable(n), Requests(leaves), Gigabyte(c));
    assert Requests(leaves + [c]) == Requests(leaves) + [Gigabyte(c)];
  }

  /** The table holds 1 GiB for each leaf and nothing else. */
  ghost predicate HoldsGigabytes(t: Table, n: nat, leaves: seq<char>) {
    && Within(t) && |t.slots| == n && Bytes(t) == |leaves| * MAX_SEGMENT_SIZE
    && |Dict(t)| == |leaves| && Dict(t).Keys == NamesOf(leaves)
  }

  lemma GigabyteStep(t: Table, n: nat, leaves: seq<char>, c: char)
    requires HoldsGigabytes(t, n, leaves) && |leaves| < 4 && |leaves| < n && Lower(c) && c !in leaves
    ensures HoldsGigabytes(Serve(t, Gigabyte(c)), n, leaves + [c])
  {
    NewLeaf(leaves, c);
    GigabyteAdds(t, c);
    NamesSnoc(leaves, c);
  }

  lemma NamesSnoc(leaves: seq<char>, c: char)
    ensures NamesOf(leaves + [c]) == NamesOf(leaves) + {Gigabyte(c).name}
  {
    assert forall d :: d in leaves + [c] <==> d in leaves || d == c;
  }

  /** Up to four sequential creates of 1 GiB each succeed on a new registry. */
  lemma {:induction false} GigabytesAddUp(n: nat, leaves: seq<char>)
    requires Letters(leaves) && |leaves| <= 4 && |leaves| <= n <= MAX_NAMESPACE_SEGMENTS
    ensures HoldsGigabytes(Filled(n, leaves), n, leaves)
    decreases |leaves|
  {
    if leaves == [] {
      FreshIsWithin(n);
      FreshIsGood(n);
      assert Filled(n, []) == FreshTable(n);
    } else {
      var rest, c := leaves[..|leaves| - 1], leaves[|leaves| - 1];
      assert leaves == rest + [c];
      GigabytesAddUp(n, rest);
      GigabyteStep(Filled(n, rest), n, rest, c);
      FilledSnoc(n, rest, c);
    }
  }

  lemma NewLeaf(leaves: seq<char>, c: char)
    requires c !in leaves
    ensures Gigabyte(c).name !in NamesOf(leaves)
  {
    forall d | d in leaves ensures Gigabyte(d).name != Gigabyte(c).name {
      GigabytesDiffer(d, c);
    }
  }

  /** From a new registry, three creates of 1 GiB and then two more that overlap leave 5 GiB registered. */
  lemma OverlapRun(n: nat, leaves: seq<char>, d: char, e: char)
    requires 5 <= n <= MAX_NAMESPACE_SEGMENTS && |leaves| == 3 && Letters(leaves + [d, e])
    ensures var w, acts := World(Filled(n, leaves), map[]), Overlap(Gigabyte(d), Gigabyte(e));
            CanRun(w, acts) && Bytes(Run(w, acts).t) == 5 * MAX_SEGMENT_SIZE > TOTAL_QUOTA
  {
    FiveLetters(leaves, d, e);
    GigabytesAddUp(n, leaves);
    NewLeaf(leaves, d);
    NewLeaf(leaves, e);
    GigabytesDiffer(d, e);
    GigabyteIsAllowed(d);
    GigabyteIsAllowed(e);
    OverlapAddsBoth(Filled(n, leaves), Gigabyte(d), Gigabyte(e));
  }

  lemma FiveLetters(leaves: seq<char>, d: char, e: char)
    requires Letters(leaves + [d, e])
    ensures Letters(leaves) && Lower(d) && Lower(e) && d != e && d !in leaves && e !in leaves
  {
    var all := leaves + [d, e];
    assert all[|leaves|] == d && all[|leaves| + 1] == e;
    assert forall i :: 0 <= i < |leaves| ==> all[i] == leaves[i];
  }
}
