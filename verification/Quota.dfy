/** The creation quota: how a request is judged against the registered entries, and what every run keeps. */
module Quota {
  import opened Base
  import opened FixedNames
  import opened HeaderBounds
  import opened Layout
  import opened Names
  import opened RegistryOps
  import opened RegistryTable

  const TOTAL_QUOTA: nat := 0x1_0000_0000
  const MAX_NAMESPACE_SEGMENTS: nat := 1024

  datatype Verdict = Accepted | BadName | Denied | OverQuota

  /** The sizes of the entries added up. */
  function SumSizes(es: seq<Body>): (n: nat) {
    if es == [] then 0 else SumSizes(es[..|es| - 1]) + es[|es| - 1].totalSize
  }

  /** How many entry names start with the prefix. */
  function CountPrefix(es: seq<Body>, prefix: string): (n: nat)
    ensures n <= |es|
  {
    if es == [] then 0
    else CountPrefix(es[..|es| - 1], prefix) + (if prefix <= Key(es[|es| - 1]) then 1 else 0)
  }

  /** The verdict of `validate_create_security`, with its 64-bit byte total and 32-bit count. */
  function CreateVerdict(name: string, total: U64Word, meta: U64Word, existing: seq<Body>): (r: Verdict) {
    VerdictFor(Parse(name), total, meta, existing)
  }

  function VerdictFor(parsed: ParseResult, total: U64Word, meta: U64Word, existing: seq<Body>): (r: Verdict) {
    if parsed == InvalidName then BadName
    else if parsed == PermissionDenied then Denied
    else if !SizeAllowed(total, meta) then OverQuota
    else
      var count := if parsed.bootstrap then 0 else Wrap32(CountPrefix(existing, PREFIX + parsed.ns));
      if Add64(total, SumSizes(existing)) > TOTAL_QUOTA || count >= MAX_NAMESPACE_SEGMENTS then OverQuota
      else Accepted
  }

  lemma ModAdd(a: nat, b: nat, m: nat)
    requires m > 0
    ensures (a % m + b) % m == (a + b) % m
  {
    var q, r := a / m, a % m;
    var p, s := (r + b) / m, (r + b) % m;
    Divided(a, m);
    Divided(r + b, m);
    Distribute(q, p, m);
    RemainderOf(a + b, m, q + p, s);
  }

  lemma Divided(a: nat, m: nat)
    requires m > 0
    ensures a == a / m * m + a % m
  {
  }

  lemma Distribute(q: nat, p: nat, m: nat)
    ensures (q + p) * m == q * m + p * m
  {
  }

  function Add64(x: nat, y: nat): (r: nat) {
    (x + y) % U64
  }

  function Wrap32(x: nat): (r: nat) {
    x % U32
  }

  lemma {:induction false} SumSnoc(es: seq<Body>, x: Body, prefix: string)
    ensures SumSizes(es + [x]) == SumSizes(es) + x.totalSize
    ensures CountPrefix(es + [x], prefix) == CountPrefix(es, prefix) + (if prefix <= Key(x) then 1 else 0)
  {
    assert (es + [x])[..|es|] == es;
  }

  /** One more entry, added in the words of the machine or to the exact sums. */
  lemma TallyStep(total: nat, prefix: string, es: seq<Body>, i: nat)
    requires i < |es|
    ensures Add64(Add64(total, SumSizes(es[..i])), es[i].totalSize) == Add64(total, SumSizes(es[..i + 1]))
    ensures Wrap32(CountPrefix(es[..i + 1], prefix))
         == if prefix <= Key(es[i]) then Wrap32(Wrap32(CountPrefix(es[..i], prefix)) + 1)
            else Wrap32(CountPrefix(es[..i], prefix))
  {
    assert es[..i + 1] == es[..i] + [es[i]];
    SumSnoc(es[..i], es[i], prefix);
    ModAdd(total + SumSizes(es[..i]), es[i].totalSize, U64);
    ModAdd(CountPrefix(es[..i], prefix), 1, U32);
  }

  /** The loop of the check: the byte total and the number of entries under the prefix, in their own widths. */
  method TallyEntries(total: U64Word, counting: bool, prefix: string, existing: seq<Body>)
    returns (bytes: nat, count: nat)
    ensures bytes == Add64(total, SumSizes(existing))
    ensures count == if counting then Wrap32(CountPrefix(existing, prefix)) else 0
  {
    bytes, count := total, 0;
    for i := 0 to |existing|
      invariant bytes == Add64(total, SumSizes(existing[..i]))
      invariant count == if counting then Wrap32(CountPrefix(existing[..i], prefix)) else 0
    {
      TallyStep(total, prefix, existing, i);
      bytes := Add64(bytes, existing[i].totalSize);
      if counting && prefix <= Key(existing[i]) {
        count := Wrap32(count + 1);
      }
    }
    assert existing[..|existing|] == existing;
  }

  method ValidateCreateSecurity(name: string, total: U64Word, meta: U64Word, existing: seq<Body>) returns (r: Verdict)
    ensures r == CreateVerdict(name, total, meta, existing)
  {
    var parsed := Parse(name);
    if parsed == InvalidName { return BadName; }
    if parsed == PermissionDenied { return Denied; }
    if !SizeAllowed(total, meta) { return OverQuota; }
    var bytes, count := TallyEntries(total, !parsed.bootstrap, PREFIX + parsed.ns, existing);
    r := if bytes > TOTAL_QUOTA || count >= MAX_NAMESPACE_SEGMENTS then OverQuota else Accepted;
  }

  // ---------------------------------------------------------------- the registered bytes of a table

  /** The sizes recorded in the occupied slots below `k`. */
  function BytesBelow(t: Table, k: nat): (n: nat)
    requires Sized(t) && k <= |t.slots|
  {
    if k == 0 then 0 else BytesBelow(t, k - 1) + (if t.bits[k - 1] then t.slots[k - 1].body.totalSize else 0)
  }

  function Bytes(t: Table): (n: nat)
    requires Sized(t)
  {
    BytesBelow(t, |t.slots|)
  }

  /** How many occupied slots below `k` have names of the namespace. */
  ghost function MembersBelow(t: Table, ns: string, k: nat): (n: nat)
    requires Sized(t) && k <= |t.slots|
    ensures n <= k
  {
    if k == 0 then 0
    else MembersBelow(t, ns, k - 1) + Membership(t, ns, k - 1)
  }

  /** One if slot `i` is occupied by a name of the namespace. */
  ghost function Membership(t: Table, ns: string, i: nat): (n: nat)
    requires Sized(t) && i < |t.slots|
    ensures n <= 1
  {
    if t.bits[i] && InNamespace(Key(t.slots[i].body), ns) then 1 else 0
  }

  ghost predicate InNamespace(name: string, ns: string) {
    exists leaf :: Grammatical(name, ns, leaf)
  }

  /** Every registered name was accepted by the name check. */
  ghost predicate NamesAccepted(t: Table)
    requires Sized(t)
  {
    forall i: nat :: i < |t.slots| ==> AcceptedAt(t, i)
  }

  predicate AcceptedAt(t: Table, i: nat)
    requires Sized(t) && i < |t.slots|
  {
    t.bits[i] ==> Parse(Key(t.slots[i].body)).Parsed?
  }

  /** What every run of requests keeps. */
  ghost predicate Within(t: Table) {
    Good(t) && |t.slots| <= MAX_NAMESPACE_SEGMENTS && NamesAccepted(t) && Bytes(t) <= TOTAL_QUOTA
  }

  lemma {:induction false} ListedBytes(t: Table, k: nat)
    requires Sized(t) && k <= |t.slots|
    ensures SumSizes(ListBelow(t, "", k)) == BytesBelow(t, k)
  {
    if k == 0 {
    } else {
      ListedBytes(t, k - 1);
      SumSnoc(ListBelow(t, "", k - 1), t.slots[k - 1].body, "");
    }
  }

  lemma MemberByPrefix(name: string, ns: string)
    requires Parse(name).Parsed? && NamespaceAllowed(ns)
    ensures PREFIX + ns <= name <==> InNamespace(name, ns)
  {
    PrefixSelectsNamespace(name, ns);
    ParsedIff(name, ns, Parse(name).leaf);
    if leaf :| Grammatical(name, ns, leaf) {
      ParsedIff(name, ns, leaf);
    }
  }

  lemma {:induction false} ListedMembers(t: Table, ns: string, k: nat)
    requires Sized(t) && NamesAccepted(t) && k <= |t.slots| && NamespaceAllowed(ns)
    ensures CountPrefix(ListBelow(t, "", k), PREFIX + ns) == MembersBelow(t, ns, k)
  {
    if k == 0 {
    } else {
      ListedMembers(t, ns, k - 1);
      MemberListed(t, ns, k);
    }
  }

  lemma MemberListed(t: Table, ns: string, k: nat)
    requires Sized(t) && NamesAccepted(t) && 0 < k <= |t.slots| && NamespaceAllowed(ns)
    ensures CountPrefix(ListBelow(t, "", k), PREFIX + ns)
         == CountPrefix(ListBelow(t, "", k - 1), PREFIX + ns) + Membership(t, ns, k - 1)
  {
    CountListed(t, PREFIX + ns, k);
    if t.bits[k - 1] { MemberAt(t, ns, k - 1); }
  }

  lemma CountListed(t: Table, prefix: string, k: nat)
    requires Sized(t) && 0 < k <= |t.slots|
    ensures CountPrefix(ListBelow(t, "", k), prefix)
         == CountPrefix(ListBelow(t, "", k - 1), prefix)
            + (if t.bits[k - 1] && prefix <= Key(t.slots[k - 1].body) then 1 else 0)
  {
    SumSnoc(ListBelow(t, "", k - 1), t.slots[k - 1].body, prefix);
  }

  lemma MemberAt(t: Table, ns: string, i: nat)
    requires Sized(t) && NamesAccepted(t) && i < |t.slots| && t.bits[i] && NamespaceAllowed(ns)
    ensures PREFIX + ns <= Key(t.slots[i].body) <==> InNamespace(Key(t.slots[i].body), ns)
  {
    assert AcceptedAt(t, i);
    MemberByPrefix(Key(t.slots[i].body), ns);
  }

  /** Against the list of a registry within the quota, a request is accepted exactly when its name parses, its size is
      allowed, the bytes fit and its namespace has room: no sum wraps, and the prefix counts the namespace. */
  lemma VerdictExact(t: Table, name: string, total: U64Word, meta: U64Word)
    requires Within(t)
    ensures var p, v := Parse(name), CreateVerdict(name, total, meta, ListBelow(t, "", |t.slots|));
            && (v == BadName <==> p == InvalidName) && (v == Denied <==> p == PermissionDenied)
            && (v == Accepted
                <==> && p.Parsed? && (256 + meta) % U64 <= total <= 0x4000_0000 && total + Bytes(t) <= 0x1_0000_0000
                     && (p.bootstrap || MembersBelow(t, p.ns, |t.slots|) < 1024))
  {
    AcceptedIff(t, name, total, meta);
  }

  lemma AcceptedIff(t: Table, name: string, total: U64Word, meta: U64Word)
    requires Within(t)
    ensures CreateVerdict(name, total, meta, ListBelow(t, "", |t.slots|)) == Accepted
       <==> && Parse(name).Parsed? && SizeAllowed(total, meta) && total + Bytes(t) <= TOTAL_QUOTA
            && (Parse(name).bootstrap || MembersBelow(t, Parse(name).ns, |t.slots|) < MAX_NAMESPACE_SEGMENTS)
  {
    var p := Parse(name);
    if p.Parsed? && !p.bootstrap {
      ParsedIff(name, p.ns, p.leaf);
    }
    ParsedVerdict(t, p, total, meta);
  }

  lemma ParsedVerdict(t: Table, p: ParseResult, total: U64Word, meta: U64Word)
    requires Sized(t) && |t.slots| <= MAX_NAMESPACE_SEGMENTS && NamesAccepted(t) && Bytes(t) <= TOTAL_QUOTA
    requires p.Parsed? && !p.bootstrap ==> NamespaceAllowed(p.ns)
    ensures VerdictFor(p, total, meta, ListBelow(t, "", |t.slots|)) == Accepted
       <==> && p.Parsed? && SizeAllowed(total, meta) && total + Bytes(t) <= TOTAL_QUOTA
            && (p.bootstrap || MembersBelow(t, p.ns, |t.slots|) < MAX_NAMESPACE_SEGMENTS)
  {
    var es := ListBelow(t, "", |t.slots|);
    ListedBytes(t, |t.slots|);
    SmallSums(total, Bytes(t), if p.Parsed? then CountPrefix(es, PREFIX + p.ns) else 0);
    if p.Parsed? && !p.bootstrap {
      CountIsMembers(t, p.ns);
    }
  }

  lemma SmallSums(total: nat, bytes: nat, count: nat)
    ensures total <= TOTAL_QUOTA && bytes <= TOTAL_QUOTA ==> Add64(total, bytes) == total + bytes
    ensures count <= MAX_NAMESPACE_SEGMENTS ==> Wrap32(count) == count
  {
  }

  lemma CountIsMembers(t: Table, ns: string)
    requires Sized(t) && |t.slots| <= MAX_NAMESPACE_SEGMENTS && NamesAccepted(t) && NamespaceAllowed(ns)
    ensures CountPrefix(ListBelow(t, "", |t.slots|), PREFIX + ns) == MembersBelow(t, ns, |t.slots|)
  {
    ListedMembers(t, ns, |t.slots|);
  }

  // ---------------------------------------------------------------- runs of creates, destroys and collections

  datatype SegmentRequest =
    | Create(name: string, total: U64Word, meta: U64Word, fields: Body, objectMade: bool)
    | Destroy(target: string, unlinked: bool)
    | Collect(reaped: string)
    | Refresh(seen: string, now: nat)

  /** The entry `create` registers. */
  function EntryOf(name: string, total: U64Word, fields: Body): (b: Body) {
    fields.(name := CopyName(name), totalSize := total)
  }

  /** Create goes on to register: the request is accepted against the list, and its object is made. */
  predicate Admitted(t: Table, name: string, total: U64Word, meta: U64Word, objectMade: bool)
    requires Sized(t)
  {
    && CreateVerdict(name, total, meta, ListBelow(t, "", |t.slots|)) == Accepted && PayloadOffset(meta) <= total
    && objectMade && name != REGISTRY_NAME
  }

  /** One request carried out alone. `objectMade` and `unlinked` say whether the object calls succeeded; `Collect` and
      `Refresh` are the janitor's unregister of a listed entry and its update of the time it was last seen. */
  function Serve(t: Table, q: SegmentRequest): (u: Table)
    requires Sized(t)
    ensures Sized(u) && |u.slots| == |t.slots|
  {
    match q
    case Create(name, total, meta, fields, objectMade) =>
      if Admitted(t, name, total, meta, objectMade) then RegisterTable(t, EntryOf(name, total, fields)).0 else t
    case Destroy(name, unlinked) =>
      if !Parse(name).Parsed? || !unlinked || name == REGISTRY_NAME then t else UnregisterTable(t, name).0
    case Collect(name) => UnregisterTable(t, name).0
    case Refresh(name, now) =>
      var i := Find(t, name, 0);
      if i == |t.slots| then t else RegisterTable(t, t.slots[i].body.(lastSeen := now)).0
  }

  function ServeAll(t: Table, qs: seq<SegmentRequest>): (u: Table)
    requires Sized(t)
    ensures Sized(u)
    decreases |qs|
  {
    if qs == [] then t else ServeAll(Serve(t, qs[0]), qs[1..])
  }

  lemma {:induction false} BytesPut(t: Table, i: nat, e: Entry, b: bool, count: nat, k: nat)
    requires Sized(t) && i < |t.slots| && k <= |t.slots|
    ensures BytesBelow(Put(t, i, e, b, count), k)
         == BytesBelow(t, k) + (if i < k && b then e.body.totalSize else 0)
            - (if i < k && t.bits[i] then t.slots[i].body.totalSize else 0)
  {
    if k == 0 {
    } else {
      BytesPut(t, i, e, b, count, k - 1);
    }
  }

  /** Registering adds the size of the new entry, less that of the entry it replaces. */
  lemma RegisterBytes(t: Table, body: Body)
    requires Good(t)
    ensures var i := Find(t, Key(body), 0);
            var u := RegisterTable(t, body).0;
            && Bytes(u) <= Bytes(t) + body.totalSize
            && (i < |t.slots| ==> Bytes(u) == Bytes(t) - t.slots[i].body.totalSize + body.totalSize)
            && (i == |t.slots| && FirstFree(t, 0) < |t.slots| ==> Bytes(u) == Bytes(t) + body.totalSize)
  {
    var i, f := Find(t, Key(body), 0), FirstFree(t, 0);
    if i < |t.slots| {
      BytesPut(t, i, Published(t.slots[i], body), true, t.count, |t.slots|);
    } else if f < |t.slots| {
      BytesPut(t, f, Published(t.slots[f], body), true, Increment(t.count), |t.slots|);
    }
  }

  lemma RegisterNames(t: Table, body: Body)
    requires Sized(t) && NamesAccepted(t) && Parse(Key(body)).Parsed?
    ensures NamesAccepted(RegisterTable(t, body).0)
  {
    var u := RegisterTable(t, body).0;
    forall i: nat | i < |u.slots| ensures AcceptedAt(u, i) {
      assert AcceptedAt(t, i);
    }
  }

  lemma RegisterWithin(t: Table, body: Body)
    requires Within(t) && Parse(Key(body)).Parsed? && Key(body) != ""
    requires Bytes(RegisterTable(t, body).0) <= TOTAL_QUOTA
    ensures Within(RegisterTable(t, body).0)
  {
    RegisterRefinesMap(t, body);
    RegisterNames(t, body);
  }

  lemma UnregisterWithin(t: Table, name: string)
    requires Within(t)
    ensures Within(UnregisterTable(t, name).0) && Bytes(UnregisterTable(t, name).0) <= Bytes(t)
  {
    UnregisterRefinesMap(t, name);
    var i, u := Find(t, name, 0), UnregisterTable(t, name).0;
    if i < |t.slots| {
      BytesPut(t, i, Published(t.slots[i], Empty()), false, Decrement(t.count), |t.slots|);
    }
    forall j: nat | j < |u.slots| ensures AcceptedAt(u, j) {
      assert AcceptedAt(t, j);
    }
  }

  lemma CreateWithin(t: Table, name: string, total: U64Word, meta: U64Word, fields: Body)
    requires Within(t) && CreateVerdict(name, total, meta, ListBelow(t, "", |t.slots|)) == Accepted
    ensures Within(RegisterTable(t, EntryOf(name, total, fields)).0)
  {
    AcceptedIff(t, name, total, meta);
    AcceptedNameSurvives(name);
    RegisterBytes(t, EntryOf(name, total, fields));
    RegisterWithin(t, EntryOf(name, total, fields));
  }

  lemma RefreshWithin(t: Table, name: string, now: nat)
    requires Within(t) && Find(t, name, 0) < |t.slots|
    ensures var u := RegisterTable(t, t.slots[Find(t, name, 0)].body.(lastSeen := now)).0;
            Within(u) && Bytes(u) == Bytes(t)
  {
    var i := Find(t, name, 0);
    var body := t.slots[i].body.(lastSeen := now);
    assert Healthy(t, i) && AcceptedAt(t, i);
    RegisterBytes(t, body);
    RegisterWithin(t, body);
  }

  lemma ServeWithin(t: Table, q: SegmentRequest)
    requires Within(t)
    ensures Within(Serve(t, q))
  {
    match q
    case Create(name, total, meta, fields, objectMade) =>
      if Admitted(t, name, total, meta, objectMade) {
        CreateWithin(t, name, total, meta, fields);
      }
    case Destroy(name, unlinked) => UnregisterWithin(t, name);
    case Collect(name) => UnregisterWithin(t, name);
    case Refresh(name, now) =>
      if Find(t, name, 0) < |t.slots| { RefreshWithin(t, name, now); }
  }

  lemma CreateServes(t: Table, name: string, total: U64Word, meta: U64Word, fields: Body)
    requires Within(t) && CreateVerdict(name, total, meta, ListBelow(t, "", |t.slots|)) == Accepted
    ensures var m, b := Dict(t), fields.(name := CopyName(name), totalSize := total);
            var after := Dict(RegisterTable(t, EntryOf(name, total, fields)).0);
            after == if name in m || |m| < |t.slots| then m[name := b] else m
  {
    AcceptedIff(t, name, total, meta);
    AcceptedNameSurvives(name);
    PutServes(t, EntryOf(name, total, fields));
  }

  lemma PutServes(t: Table, b: Body)
    requires Within(t)
    ensures var m, after := Dict(t), Dict(RegisterTable(t, b).0);
            after == if Key(b) in m || |m| < |t.slots| then m[Key(b) := b] else m
  {
    RegisterRefinesMap(t, b);
    FreeInSound(t);
  }

  lemma RefreshServes(t: Table, name: string, now: nat)
    requires Within(t) && name in Dict(t)
    ensures Dict(Serve(t, Refresh(name, now))) == Dict(t)[name := Dict(t)[name].(lastSeen := now)]
  {
    FindInSound(t, name);
    DictMeaning(t);
    RegisterRefinesMap(t, t.slots[Find(t, name, 0)].body.(lastSeen := now));
  }

  /** What each request does to the map of entries: a create that is accepted, has room for its payload and made its
      object puts in the entry, a destroy that unlinked the object takes its entry out, and neither touches the entry of
      the registry; the janitor takes entries out and stamps them. */
  lemma ServedMap(t: Table, q: SegmentRequest)
    requires Within(t)
    ensures q.Create? ==>
              var m, b := Dict(t), q.fields.(name := CopyName(q.name), totalSize := q.total);
              Dict(Serve(t, q)) == if && q.name != "/shmfx.registry" && q.objectMade && PayloadOffset(q.meta) <= q.total
                                      && CreateVerdict(q.name, q.total, q.meta, ListBelow(t, "", |t.slots|)) == Accepted
                                      && (q.name in m || |m| < |t.slots|)
                                   then m[q.name := b] else m
    ensures q.Destroy? ==>
              Dict(Serve(t, q)) == if q.unlinked && Parse(q.target).Parsed? && q.target != "/shmfx.registry"
                                   then Dict(t) - {q.target} else Dict(t)
    ensures q.Collect? ==> Dict(Serve(t, q)) == Dict(t) - {q.reaped}
    ensures q.Refresh? ==>
              var m := Dict(t);
              Dict(Serve(t, q)) == if q.seen in m then m[q.seen := m[q.seen].(lastSeen := q.now)] else m
  {
    match q
    case Create(name, total, meta, fields, objectMade) =>
      if Admitted(t, name, total, meta, objectMade) {
        CreateServes(t, name, total, meta, fields);
      }
    case Destroy(name, _) => UnregisterRefinesMap(t, name);
    case Collect(name) => UnregisterRefinesMap(t, name);
    case Refresh(name, now) =>
      FindInSound(t, name);
      if name in Dict(t) { RefreshServes(t, name, now); }
  }

  /** Over every sequential run of creates, destroys and collections the registered bytes stay within 4 GiB, every
      registered name parses, and the table stays sound. */
  lemma {:induction false} QuotaHolds(t: Table, qs: seq<SegmentRequest>)
    requires Within(t)
    ensures Within(ServeAll(t, qs)) && Bytes(ServeAll(t, qs)) <= TOTAL_QUOTA
    decreases |qs|
  {
    if qs == [] {
    } else {
      ServeWithin(t, qs[0]);
      QuotaHolds(Serve(t, qs[0]), qs[1..]);
    }
  }

  lemma {:induction false} FreshBytes(n: nat, k: nat)
    requires k <= n
    ensures BytesBelow(FreshTable(n), k) == 0
  {
    if k == 0 {
    } else {
      FreshBytes(n, k - 1);
    }
  }

  lemma FreshIsWithin(n: nat)
    requires n <= MAX_NAMESPACE_SEGMENTS
    ensures Within(FreshTable(n)) && Bytes(FreshTable(n)) == 0
  {
    FreshIsGood(n);
    FreshBytes(n, n);
    forall i: nat | i < n ensures AcceptedAt(FreshTable(n), i) {
    }
  }

  /** So they do from a new registry on. */
  lemma QuotaHoldsFromStart(n: nat, qs: seq<SegmentRequest>)
    requires n <= MAX_NAMESPACE_SEGMENTS
    ensures Within(ServeAll(FreshTable(n), qs)) && Bytes(ServeAll(FreshTable(n), qs)) <= TOTAL_QUOTA
  {
    FreshIsWithin(n);
    QuotaHolds(FreshTable(n), qs);
  }
}
