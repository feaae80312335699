/** Register, unregister and list on a registry table, and the finite map they maintain. */
module RegistryOps {
  import opened Base
  import opened RegistryTable

  /** The table with slot `i`, its bit and the count replaced. */
  function Put(t: Table, i: nat, e: Entry, b: bool, count: nat): (u: Table)
    requires Sized(t) && i < |t.slots|
    ensures Sized(u) && |u.slots| == |t.slots|
  {
    Table(count, t.bits[i := b], t.slots[i := e])
  }

  /** The map after slot `i` of `t` is replaced by body `b`, or emptied. */
  function PutDict(t: Table, i: nat, body: Body, b: bool): (m: map<string, Body>)
    requires Sized(t) && i < |t.slots|
  {
    var rest := if t.bits[i] then Dict(t) - {Key(t.slots[i].body)} else Dict(t);
    if b then rest[Key(body) := body] else rest
  }

  /** No occupied slot but perhaps `i` holds the key. */
  ghost predicate FreshExcept(t: Table, i: nat, k: string)
    requires Sized(t)
  {
    forall j :: 0 <= j < |t.slots| && j != i && t.bits[j] ==> Key(t.slots[j].body) != k
  }

  lemma {:induction false} CountPut(bits: seq<bool>, i: nat, b: bool, k: nat)
    requires i < |bits| && k <= |bits|
    ensures CountBelow(bits[i := b], k)
         == CountBelow(bits, k) + (if i < k && b then 1 else 0) - (if i < k && bits[i] then 1 else 0)
  {
    if k == 0 {
    } else {
      CountPut(bits, i, b, k - 1);
    }
  }

  lemma PutDistinct(t: Table, i: nat, e: Entry, b: bool, count: nat)
    requires Sized(t) && Distinct(t) && i < |t.slots| && (b ==> FreshExcept(t, i, Key(e.body)))
    ensures Distinct(Put(t, i, e, b, count))
  {
  }

  lemma PutKeys(t: Table, i: nat, e: Entry, b: bool, count: nat, x: string)
    requires Sized(t) && Distinct(t) && i < |t.slots| && (b ==> FreshExcept(t, i, Key(e.body)))
    ensures Below(Put(t, i, e, b, count), |t.slots|, x)
       <==> (b && x == Key(e.body)) || (Below(t, |t.slots|, x) && !(t.bits[i] && x == Key(t.slots[i].body)))
  {
    var u := Put(t, i, e, b, count);
    if Below(u, |t.slots|, x) {
      var j: nat :| j < |t.slots| && At(u, j, x);
      if j != i { assert At(t, j, x); }
    }
    if Below(t, |t.slots|, x) {
      var j: nat :| j < |t.slots| && At(t, j, x);
      if j != i { assert At(u, j, x); }
    }
    if b && x == Key(e.body) { assert At(u, i, x); }
  }

  /** In a table with distinct names the map has the body of the slot that holds the key. */
  lemma DictAt(t: Table, j: nat, x: string)
    requires Sized(t) && Distinct(t) && At(t, j, x)
    ensures x in Dict(t) && Dict(t)[x] == t.slots[j].body
  {
    DictValue(t, |t.slots|, j);
  }

  lemma PutAt(t: Table, i: nat, e: Entry, b: bool, count: nat, x: string)
    requires Sized(t) && Distinct(t) && i < |t.slots| && (b ==> FreshExcept(t, i, Key(e.body)))
    ensures x in Dict(Put(t, i, e, b, count)) <==> x in PutDict(t, i, e.body, b)
    ensures x in PutDict(t, i, e.body, b) ==> Dict(Put(t, i, e, b, count))[x] == PutDict(t, i, e.body, b)[x]
  {
    var u := Put(t, i, e, b, count);
    PutDistinct(t, i, e, b, count);
    PutKeys(t, i, e, b, count, x);
    DictKeys(t, |t.slots|, x);
    DictKeys(u, |u.slots|, x);
    if x in Dict(u) {
      var j: nat :| j < |u.slots| && At(u, j, x);
      DictAt(u, j, x);
      if j != i { DictAt(t, j, x); }
    }
  }

  /** Replacing one slot changes the map at that slot's key and nowhere else. */
  lemma PutMeaning(t: Table, i: nat, e: Entry, b: bool, count: nat)
    requires Sized(t) && Distinct(t) && i < |t.slots| && (b ==> FreshExcept(t, i, Key(e.body)))
    ensures Distinct(Put(t, i, e, b, count)) && Dict(Put(t, i, e, b, count)) == PutDict(t, i, e.body, b)
  {
    PutDistinct(t, i, e, b, count);
    var m, d := Dict(Put(t, i, e, b, count)), PutDict(t, i, e.body, b);
    forall x ensures (x in m <==> x in d) && (x in d ==> m[x] == d[x]) {
      PutAt(t, i, e, b, count, x);
    }
    MapsEqual(m, d);
  }

  lemma MapsEqual(m: map<string, Body>, d: map<string, Body>)
    requires forall x :: (x in m <==> x in d) && (x in d ==> m[x] == d[x])
    ensures m == d
  {
    assert m.Keys == d.Keys;
  }

  // ---------------------------------------------------------------- operations under the control mutex

  /** The first occupied slot from `k` on that a snapshot can read and that holds the key; the table size if none. */
  function Find(t: Table, key: string, k: nat): (i: nat)
    requires Sized(t) && k <= |t.slots|
    ensures k <= i <= |t.slots|
    ensures i < |t.slots| ==> At(t, i, key) && !Odd(t.slots[i].seq_)
    ensures forall j: nat :: k <= j < i ==> !At(t, j, key) || Odd(t.slots[j].seq_)
    decreases |t.slots| - k
  {
    if k == |t.slots| || (t.bits[k] && !Odd(t.slots[k].seq_) && Key(t.slots[k].body) == key) then k
    else Find(t, key, k + 1)
  }

  /** The first free slot from `k` on; the table size if none. */
  function FirstFree(t: Table, k: nat): (i: nat)
    requires Sized(t) && k <= |t.slots|
    ensures k <= i <= |t.slots|
    ensures i < |t.slots| ==> !t.bits[i]
    ensures forall j :: k <= j < i ==> t.bits[j]
    decreases |t.slots| - k
  {
    if k == |t.slots| || !t.bits[k] then k else FirstFree(t, k + 1)
  }

  /** The sequence words a publish stores over `s`: the next one while it writes, the one after that when it is done. */
  function OddWord(s: bv32): (r: bv32) {
    s + 1
  }

  function EvenWord(s: bv32): (r: bv32) {
    s + 2
  }

  /** What `publish_slot` leaves: the source's fields under the next even sequence word. */
  function Published(e: Entry, body: Body): (r: Entry) {
    Entry(EvenWord(e.seq_), body)
  }

  datatype Outcome = Ok | QuotaExceeded | NotFound

  /** 32-bit fetch_add and fetch_sub of one. */
  function Increment(n: nat): (r: nat) {
    (n + 1) % U32
  }

  function Decrement(n: nat): (r: nat) {
    if n > 0 then n - 1 else U32 - 1
  }

  function RegisterTable(t: Table, body: Body): (r: (Table, Outcome))
    requires Sized(t)
    ensures Sized(r.0) && |r.0.slots| == |t.slots|
  {
    var i := Find(t, Key(body), 0);
    var f := FirstFree(t, 0);
    if i < |t.slots| then (Put(t, i, Published(t.slots[i], body), true, t.count), Ok)
    else if f == |t.slots| then (t, QuotaExceeded)
    else (Put(t, f, Published(t.slots[f], body), true, Increment(t.count)), Ok)
  }

  function UnregisterTable(t: Table, key: string): (r: (Table, Outcome))
    requires Sized(t)
    ensures Sized(r.0) && |r.0.slots| == |t.slots|
  {
    var i := Find(t, key, 0);
    if i == |t.slots| then (t, NotFound)
    else (Put(t, i, Published(t.slots[i], Empty()), false, Decrement(t.count)), Ok)
  }

  lemma FindInSound(t: Table, key: string)
    requires Sound(t)
    ensures Find(t, key, 0) < |t.slots| <==> key in Dict(t)
    ensures Find(t, key, 0) == |t.slots| ==> forall i :: 0 <= i < |t.slots| && t.bits[i] ==> Key(t.slots[i].body) != key
  {
    DictMeaning(t);
    var i := Find(t, key, 0);
    forall j | 0 <= j < |t.slots| && t.bits[j] && i == |t.slots| ensures Key(t.slots[j].body) != key {
      assert !Odd(t.slots[j].seq_);
      assert !At(t, j, key);
    }
    if i < |t.slots| {
      assert Below(t, |t.slots|, key);
    }
  }

  lemma {:induction false} AllBitsCount(bits: seq<bool>, k: nat)
    requires k <= |bits|
    ensures CountBelow(bits, k) == k <==> forall i :: 0 <= i < k ==> bits[i]
  {
    if k == 0 {
    } else {
      AllBitsCount(bits, k - 1);
    }
  }

  lemma FreeInSound(t: Table)
    requires Sound(t)
    ensures FirstFree(t, 0) == |t.slots| <==> |Dict(t)| == |t.slots|
    ensures |Dict(t)| <= |t.slots|
  {
    DictMeaning(t);
    AllBitsCount(t.bits, |t.bits|);
  }

  /** The count after slot `i` gets the bit `b`. */
  function PutCount(t: Table, i: nat, b: bool): (n: int)
    requires Sized(t) && i < |t.slots|
  {
    t.count + (if b then 1 else 0) - (if t.bits[i] then 1 else 0)
  }

  /** Publishing over slot `i` keeps a table sound. */
  lemma PutKeepsSound(t: Table, i: nat, e: Entry, b: bool)
    requires Sound(t) && i < |t.slots| && !Odd(e.seq_) && (b ==> FreshExcept(t, i, Key(e.body)))
    ensures PutCount(t, i, b) >= 0 && Sound(Put(t, i, e, b, PutCount(t, i, b)))
  {
    CountPut(t.bits, i, b, |t.bits|);
    PutDistinct(t, i, e, b, PutCount(t, i, b));
  }

  /** And keeps every other slot healthy. */
  lemma PutKeepsGood(t: Table, i: nat, e: Entry, b: bool)
    requires Good(t) && i < |t.slots| && !Odd(e.seq_) && (b ==> FreshExcept(t, i, Key(e.body)))
    ensures PutCount(t, i, b) >= 0
    ensures Good(Put(t, i, e, b, PutCount(t, i, b))) <==> (b <==> Key(e.body) != "")
  {
    PutKeepsSound(t, i, e, b);
    var u := Put(t, i, e, b, PutCount(t, i, b));
    forall j | 0 <= j < |u.slots| && j != i ensures Healthy(u, j) {
      assert Healthy(t, j);
    }
    assert Healthy(u, i) <==> (b <==> Key(e.body) != "");
  }

  lemma NextEven(s: bv32)
    requires !Odd(s)
    ensures !Odd(EvenWord(s)) && Odd(OddWord(s))
  {
  }

  /** `register_segment` inserts or overwrites the name in the map; it answers QuotaExceeded exactly when the name is
      absent and the table is full, and then changes nothing. An entry without a name is stored like any other, but its
      slot does not look occupied to the repair. */
  lemma RegisterRefinesMap(t: Table, body: Body)
    requires Sound(t) && |t.slots| < U32
    ensures var (u, r) := RegisterTable(t, body);
            && (r == QuotaExceeded <==> Key(body) !in Dict(t) && |Dict(t)| == |t.slots|)
            && (r == QuotaExceeded ==> u == t)
            && (r != QuotaExceeded ==> r == Ok && Sound(u) && Dict(u) == Dict(t)[Key(body) := body])
            && (r != QuotaExceeded && Good(t) ==> (Good(u) <==> Key(body) != ""))
  {
    FindInSound(t, Key(body));
    FreeInSound(t);
    var i, f := Find(t, Key(body), 0), FirstFree(t, 0);
    if i < |t.slots| {
      FoundIsFresh(t, Key(body));
      RegisterOver(t, i, body);
    } else if f < |t.slots| {
      FreeIsFresh(t, Key(body));
      RegisterOver(t, f, body);
    }
  }

  lemma FoundIsFresh(t: Table, key: string)
    requires Sound(t) && Find(t, key, 0) < |t.slots|
    ensures var i := Find(t, key, 0); FreshExcept(t, i, key) && t.bits[i] && Key(t.slots[i].body) == key
  {
  }

  lemma FreeIsFresh(t: Table, key: string)
    requires Sound(t) && |t.slots| < U32 && Find(t, key, 0) == |t.slots| && FirstFree(t, 0) < |t.slots|
    ensures FreshExcept(t, FirstFree(t, 0), key) && !t.bits[FirstFree(t, 0)]
    ensures Increment(t.count) == t.count + 1
  {
    FindInSound(t, key);
    AllBitsCount(t.bits, |t.bits|);
  }

  /** Publishing `body` over its own slot or a free one. */
  lemma RegisterOver(t: Table, i: nat, body: Body)
    requires Sound(t) && i < |t.slots| && FreshExcept(t, i, Key(body))
    requires t.bits[i] ==> Key(t.slots[i].body) == Key(body)
    ensures var n := if t.bits[i] then t.count else t.count + 1;
            var u := Put(t, i, Published(t.slots[i], body), true, n);
            && Sound(u) && Dict(u) == Dict(t)[Key(body) := body]
            && (Good(t) ==> (Good(u) <==> Key(body) != ""))
  {
    var e := Published(t.slots[i], body);
    NextEven(t.slots[i].seq_);
    PutKeepsSound(t, i, e, true);
    if Good(t) { PutKeepsGood(t, i, e, true); }
    PutMeaning(t, i, e, true, if t.bits[i] then t.count else t.count + 1);
    assert PutDict(t, i, body, true) == Dict(t)[Key(body) := body];
  }

  /** `unregister` removes the name from the map, and answers NotFound exactly when it is absent. */
  lemma UnregisterRefinesMap(t: Table, key: string)
    requires Sound(t)
    ensures var (u, r) := UnregisterTable(t, key);
            && (r == NotFound <==> key !in Dict(t))
            && (r == NotFound ==> u == t)
            && (r != NotFound ==> r == Ok)
            && Sound(u) && Dict(u) == Dict(t) - {key}
            && (Good(t) ==> Good(u))
  {
    FindInSound(t, key);
    if Find(t, key, 0) < |t.slots| {
      UnregisterOver(t, Find(t, key, 0), key);
    }
  }

  /** Publishing the empty entry over the slot that holds the key and clearing its bit. */
  lemma UnregisterOver(t: Table, i: nat, key: string)
    requires Sound(t) && At(t, i, key)
    ensures var u := Put(t, i, Published(t.slots[i], Empty()), false, Decrement(t.count));
            Sound(u) && Dict(u) == Dict(t) - {key} && (Good(t) ==> Good(u))
  {
    var e := Published(t.slots[i], Empty());
    NextEven(t.slots[i].seq_);
    PutKeepsSound(t, i, e, false);
    if Good(t) { PutKeepsGood(t, i, e, false); }
    PutMeaning(t, i, e, false, t.count - 1);
  }

  // ---------------------------------------------------------------- whole runs

  datatype Request = Reg(body: Body) | Unreg(key: string)

  /** One request on the table, and on a finite map of capacity `n`. */
  function AnswerTable(t: Table, q: Request): (r: (Table, Outcome))
    requires Sized(t)
    ensures Sized(r.0) && |r.0.slots| == |t.slots|
  {
    match q
    case Reg(body) => RegisterTable(t, body)
    case Unreg(key) => UnregisterTable(t, key)
  }

  function AnswerMap(m: map<string, Body>, n: nat, q: Request): (r: (map<string, Body>, Outcome)) {
    match q
    case Reg(body) => if Key(body) in m || |m| < n then (m[Key(body) := body], Ok) else (m, QuotaExceeded)
    case Unreg(key) => if key in m then (m - {key}, Ok) else (m, NotFound)
  }

  lemma AnswerRefines(t: Table, q: Request)
    requires Sound(t) && |t.slots| < U32
    ensures var (u, o) := AnswerTable(t, q);
            && Sound(u) && (Dict(u), o) == AnswerMap(Dict(t), |t.slots|, q)
            && (Good(t) && (q.Reg? ==> Key(q.body) != "") ==> Good(u))
  {
    FreeInSound(t);
    match q
    case Reg(body) => RegisterRefinesMap(t, body);
    case Unreg(key) => UnregisterRefinesMap(t, key);
  }

  function RunTable(t: Table, rs: seq<Request>): (r: (Table, seq<Outcome>))
    requires Sized(t)
    ensures Sized(r.0)
    decreases |rs|
  {
    if rs == [] then (t, [])
    else
      var (u, o) := AnswerTable(t, rs[0]);
      var (v, os) := RunTable(u, rs[1..]);
      (v, [o] + os)
  }

  /** The same requests on a finite map of capacity `n`. */
  function RunMap(m: map<string, Body>, n: nat, rs: seq<Request>): (r: (map<string, Body>, seq<Outcome>))
    decreases |rs|
  {
    if rs == [] then (m, [])
    else
      var (m', o) := AnswerMap(m, n, rs[0]);
      var (m'', os) := RunMap(m', n, rs[1..]);
      (m'', [o] + os)
  }

  /** Every sequence of registers and unregisters answers as a finite map of the table's capacity, and leaves a table
      that stands for that map, with distinct names and a count equal to its size. If every registered entry has a name,
      every slot stays healthy. */
  lemma {:induction false} RegistryIsMap(t: Table, rs: seq<Request>)
    requires Sound(t) && |t.slots| < U32
    ensures var (u, os) := RunTable(t, rs);
            Sound(u) && (Dict(u), os) == RunMap(Dict(t), |t.slots|, rs) && u.count == |Dict(u)| <= |t.slots|
    ensures Good(t) && AllNamed(rs) ==> Good(RunTable(t, rs).0)
    decreases |rs|
  {
    if rs == [] {
      FreeInSound(t);
      DictMeaning(t);
    } else {
      AnswerRefines(t, rs[0]);
      RegistryIsMap(AnswerTable(t, rs[0]).0, rs[1..]);
      assert AllNamed(rs) ==> AllNamed(rs[1..]);
    }
  }

  predicate AllNamed(rs: seq<Request>) {
    forall i :: 0 <= i < |rs| && rs[i].Reg? ==> Key(rs[i].body) != ""
  }

  // ---------------------------------------------------------------- list

  predicate HasPrefix(name: string, prefix: string) {
    prefix <= name
  }

  /** The matching entries of the occupied slots below `k`, in slot order. */
  function ListBelow(t: Table, prefix: string, k: nat): (es: seq<Body>)
    requires Sized(t) && k <= |t.slots|
  {
    if k == 0 then []
    else if t.bits[k - 1] && HasPrefix(Key(t.slots[k - 1].body), prefix)
    then ListBelow(t, prefix, k - 1) + [t.slots[k - 1].body]
    else ListBelow(t, prefix, k - 1)
  }

  /** Every listed body comes from a matching occupied slot below `k`. */
  lemma {:induction false} ListedFrom(t: Table, prefix: string, k: nat, x: Body)
    requires Sized(t) && k <= |t.slots|
    ensures x in ListBelow(t, prefix, k) <==>
              exists i :: 0 <= i < k && t.bits[i] && t.slots[i].body == x && HasPrefix(Key(x), prefix)
  {
    if k == 0 {
    } else {
      ListedFrom(t, prefix, k - 1, x);
      var es := ListBelow(t, prefix, k - 1);
      assert x in es + [t.slots[k - 1].body] <==> x in es || x == t.slots[k - 1].body;
    }
  }

  ghost predicate NamesDiffer(es: seq<Body>) {
    forall a, b :: 0 <= a < b < |es| ==> Key(es[a]) != Key(es[b])
  }

  lemma {:induction false} ListedOnce(t: Table, prefix: string, k: nat)
    requires Sized(t) && Distinct(t) && k <= |t.slots|
    ensures NamesDiffer(ListBelow(t, prefix, k))
  {
    if k == 0 {
    } else {
      ListedOnce(t, prefix, k - 1);
      var es, x := ListBelow(t, prefix, k - 1), t.slots[k - 1].body;
      if t.bits[k - 1] {
        forall a | 0 <= a < |es| ensures Key(es[a]) != Key(x) {
          ListedFrom(t, prefix, k - 1, es[a]);
        }
        assert NamesDiffer(es + [x]);
      }
    }
  }

  /** `list(prefix)` returns each entry of the map whose name starts with the prefix exactly once. */
  lemma ListIsMap(t: Table, prefix: string)
    requires Sized(t) && Distinct(t)
    ensures var es := ListBelow(t, prefix, |t.slots|);
            && NamesDiffer(es)
            && (forall x :: x in es <==> Key(x) in Dict(t) && Dict(t)[Key(x)] == x && HasPrefix(Key(x), prefix))
  {
    DictMeaning(t);
    ListedOnce(t, prefix, |t.slots|);
    forall x ensures x in ListBelow(t, prefix, |t.slots|)
                <==> Key(x) in Dict(t) && Dict(t)[Key(x)] == x && HasPrefix(Key(x), prefix)
    {
      ListedFrom(t, prefix, |t.slots|, x);
      if Key(x) in Dict(t) && Dict(t)[Key(x)] == x {
        assert Below(t, |t.slots|, Key(x));
      }
    }
  }
}
