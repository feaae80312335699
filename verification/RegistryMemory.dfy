/**
 The registry payload as the code keeps it: an occupancy bitmap of bytes, an array of entries and a count, updated
 in place by loops over the slots under a robust control mutex.
 */
module RegistryMemory {
  import opened Base
  import opened FixedNames
  import opened RegistryTable
  import opened RegistryOps

  const SLOTS: nat := 1024
  const SNAPSHOT_RETRIES: nat := 100

  // ---------------------------------------------------------------- bitmap

  /** `1u << k`. */
  function Mask(k: nat): (m: bv8)
    requires k < 8
  {
    if k == 0 then 1 else Doubled(Mask(k - 1))
  }

  function Doubled(m: bv8): (r: bv8) {
    m << 1
  }

  /** The three byte operations of the bit helpers. */
  predicate Tests(b: bv8, m: bv8) {
    b & m != 0
  }

  function Sets(b: bv8, m: bv8): (r: bv8) {
    b | m
  }

  function Clears(b: bv8, m: bv8): (r: bv8) {
    b & !m
  }

  lemma MaskValues()
    ensures Mask(0) == 1 && Mask(1) == 2 && Mask(2) == 4 && Mask(3) == 8
    ensures Mask(4) == 16 && Mask(5) == 32 && Mask(6) == 64 && Mask(7) == 128
  {
  }

  function BitOf(bm: seq<bv8>, i: nat): (b: bool)
    requires i < 8 * |bm|
  {
    Tests(bm[i / 8], Mask(i % 8))
  }

  lemma MasksApart(k: nat, l: nat)
    requires k < 8 && l < 8
    ensures Mask(l) != 0 && (k == l || Mask(k) & Mask(l) == 0)
  {
    MaskValues();
  }

  lemma SameBit(i: nat, j: nat)
    ensures i / 8 == j / 8 && i % 8 == j % 8 ==> i == j
  {
  }

  /** Bit `k` of a byte. */
  predicate Has(b: bv8, k: nat)
    requires k < 8
  {
    Tests(b, Mask(k))
  }

  /** Replacing a byte by one that differs at most in bit `i % 8` changes at most bit `i` of the map. */
  lemma ByteStore(bm: seq<bv8>, i: nat, nb: bv8, on: bool)
    requires i < 8 * |bm|
    requires forall l: nat :: l < 8 ==> Has(nb, l) == if l == i % 8 then on else Has(bm[i / 8], l)
    ensures Bits(bm[i / 8 := nb]) == Bits(bm)[i := on]
  {
    var u := bm[i / 8 := nb];
    forall j | 0 <= j < 8 * |bm| ensures Bits(u)[j] == Bits(bm)[i := on][j] {
      SameBit(i, j);
      assert BitOf(u, j) == Has(u[j / 8], j % 8) && BitOf(bm, j) == Has(bm[j / 8], j % 8);
    }
  }

  function Bits(bm: seq<bv8>): (bits: seq<bool>) {
    seq(8 * |bm|, i requires 0 <= i < 8 * |bm| => BitOf(bm, i))
  }

  /** What setting or clearing the bits of `m` does to a mask that is `m` or has no bit in common with it. */
  lemma SetsMask(b: bv8, m: bv8, n: bv8)
    ensures m == n != 0 ==> Tests(Sets(b, m), n)
    ensures m & n == 0 ==> Tests(Sets(b, m), n) == Tests(b, n)
  {
  }

  lemma ClearsMask(b: bv8, m: bv8, n: bv8)
    ensures m == n ==> !Tests(Clears(b, m), n)
    ensures m & n == 0 ==> Tests(Clears(b, m), n) == Tests(b, n)
  {
  }

  lemma SetsBit(b: bv8, k: nat, l: nat)
    requires k < 8 && l < 8
    ensures Has(Sets(b, Mask(k)), l) == if l == k then true else Has(b, l)
  {
    MasksApart(k, l);
    SetsMask(b, Mask(k), Mask(l));
  }

  lemma ClearsBit(b: bv8, k: nat, l: nat)
    requires k < 8 && l < 8
    ensures Has(Clears(b, Mask(k)), l) == if l == k then false else Has(b, l)
  {
    MasksApart(k, l);
    ClearsMask(b, Mask(k), Mask(l));
  }

  /** Setting a bit sets that bit and no other. */
  lemma SetBits(bm: seq<bv8>, i: nat, nb: bv8)
    requires i < 8 * |bm| && nb == Sets(bm[i / 8], Mask(i % 8))
    ensures Bits(bm[i / 8 := nb]) == Bits(bm)[i := true]
  {
    forall l: nat | l < 8 ensures Has(nb, l) == if l == i % 8 then true else Has(bm[i / 8], l) {
      SetsBit(bm[i / 8], i % 8, l);
    }
    ByteStore(bm, i, nb, true);
  }

  /** Clearing a bit clears that bit and no other. */
  lemma ClearBits(bm: seq<bv8>, i: nat, nb: bv8)
    requires i < 8 * |bm| && nb == Clears(bm[i / 8], Mask(i % 8))
    ensures Bits(bm[i / 8 := nb]) == Bits(bm)[i := false]
  {
    forall l: nat | l < 8 ensures Has(nb, l) == if l == i % 8 then false else Has(bm[i / 8], l) {
      ClearsBit(bm[i / 8], i % 8, l);
    }
    ByteStore(bm, i, nb, false);
  }

  // ---------------------------------------------------------------- control mutex

  /** The robust mutex between calls. */
  datatype Control = Free | OwnerDead | Lost

  /** Locking: the table after any repair, the mutex state if the locker now releases it, and whether it got the lock.
      `markOk` is the outcome of `pthread_mutex_consistent`. */
  function Locked(t: Table, c: Control, markOk: bool): (r: (Table, Control, bool))
    requires Sized(t)
    ensures Sized(r.0) && |r.0.slots| == |t.slots|
  {
    match c
    case Free => (t, Free, true)
    case OwnerDead => if markOk then (Repair(t), Free, true) else (Repair(t), Lost, false)
    case Lost => (t, Lost, false)
  }

  /** Every slot is repaired: the words are even and the bits agree with the names, the count is the number of bits,
      healthy slots are as they were and the others are empty. */
  ghost predicate Mended(t: Table, u: Table)
    requires Sized(t)
  {
    && Sized(u) && |u.slots| == |t.slots| && u.count == CountBelow(u.bits, |u.bits|)
    && (forall i :: 0 <= i < |u.slots| ==> !Odd(u.slots[i].seq_) && (u.bits[i] <==> Key(u.slots[i].body) != ""))
    && (forall i :: 0 <= i < |t.slots| && Healthy(t, i) ==> u.slots[i] == t.slots[i] && u.bits[i] == t.bits[i])
    && (forall i :: 0 <= i < |t.slots| && !Healthy(t, i) ==> u.slots[i].body == Empty() && !u.bits[i])
  }

  lemma RepairMends(t: Table)
    requires Sized(t)
    ensures Mended(t, Repair(t)) && (DistinctKept(t) ==> Good(Repair(t))) && Dict(Repair(t)) == KeptDict(t)
  {
    RepairHeals(t);
    RepairKeepsEntries(t);
    forall i | 0 <= i < |t.slots|
      ensures !Odd(Repair(t).slots[i].seq_) && (Repair(t).bits[i] <==> Key(Repair(t).slots[i].body) != "")
    {
      assert Healthy(Repair(t), i);
    }
  }

  /** What a locker needs to find: after a death different names in the slots that the repair keeps, otherwise a sound
      table. */
  ghost predicate Salvageable(t: Table, c: Control)
    requires Sized(t)
  {
    if c == OwnerDead then DistinctKept(t) else Sound(t)
  }

  lemma LockedIsSound(t: Table, c: Control, markOk: bool)
    requires Sized(t) && Salvageable(t, c)
    ensures var u := Locked(t, c, markOk).0;
            Sound(u) && Dict(u) == if c == OwnerDead then KeptDict(t) else Dict(t)
  {
    RepairMends(t);
  }

  /** Register on what the lock leaves puts the entry into the map of the kept entries. */
  lemma RegisterAfterLock(t: Table, c: Control, markOk: bool, body: Body)
    requires Sized(t) && |t.slots| < U32
    ensures Salvageable(t, c) ==>
              var (u, r) := RegisterTable(Locked(t, c, markOk).0, body);
              var m := if c == OwnerDead then KeptDict(t) else Dict(t);
              && Sound(u) && (r == QuotaExceeded <==> Key(body) !in m && |m| == |t.slots|)
              && (r != QuotaExceeded ==> r == Ok && Dict(u) == m[Key(body) := body])
              && (r == QuotaExceeded ==> Dict(u) == m)
  {
    if Salvageable(t, c) {
      LockedIsSound(t, c, markOk);
      RegisterRefinesMap(Locked(t, c, markOk).0, body);
    }
  }

  /** And unregister removes it. */
  lemma UnregisterAfterLock(t: Table, c: Control, markOk: bool, key: string)
    requires Sized(t)
    ensures Salvageable(t, c) ==>
              var (u, r) := UnregisterTable(Locked(t, c, markOk).0, key);
              var m := if c == OwnerDead then KeptDict(t) else Dict(t);
              Sound(u) && r == (if key in m then Ok else NotFound) && Dict(u) == m - {key}
  {
    if Salvageable(t, c) {
      LockedIsSound(t, c, markOk);
      UnregisterRefinesMap(Locked(t, c, markOk).0, key);
    }
  }

  /** The listing loop from slot `k` on: bodies that match the prefix, read without the lock when no writer is in
      progress and under the lock otherwise. */
  function ListFrom(t: Table, c: Control, markOk: bool, prefix: string, k: nat, acc: seq<Body>)
    : (r: (Table, Control, seq<Body>))
    requires Sized(t) && k <= |t.slots|
    decreases |t.slots| - k
  {
    if k == |t.slots| then (t, c, acc)
    else if !t.bits[k] then ListFrom(t, c, markOk, prefix, k + 1, acc)
    else if !Odd(t.slots[k].seq_) then ListFrom(t, c, markOk, prefix, k + 1, Listed(acc, t.slots[k].body, prefix))
    else
      var (u, d, ok) := Locked(t, c, markOk);
      ListFrom(u, d, markOk, prefix, k + 1, if ok then Listed(acc, u.slots[k].body, prefix) else acc)
  }

  function Listed(acc: seq<Body>, body: Body, prefix: string): (r: seq<Body>) {
    if HasPrefix(Key(body), prefix) then acc + [body] else acc
  }

  /** On a table no writer has left half done, listing takes no lock and returns the matching entries in slot order. */
  lemma {:induction false} ListFromQuiet(t: Table, c: Control, markOk: bool, prefix: string, k: nat)
    requires Sized(t) && k <= |t.slots| && forall i :: 0 <= i < |t.slots| && t.bits[i] ==> !Odd(t.slots[i].seq_)
    ensures ListFrom(t, c, markOk, prefix, k, ListBelow(t, prefix, k)) == (t, c, ListBelow(t, prefix, |t.slots|))
    decreases |t.slots| - k
  {
    if k == |t.slots| {
    } else {
      ListFromQuiet(t, c, markOk, prefix, k + 1);
    }
  }

  /** `list(prefix)` on a good table: each map entry with the prefix exactly once, nothing else, no change. */
  lemma ListOfGood(t: Table, c: Control, markOk: bool, prefix: string)
    requires Good(t)
    ensures var (u, d, es) := ListFrom(t, c, markOk, prefix, 0, []);
            && u == t && d == c && NamesDiffer(es)
            && forall x :: x in es <==> Key(x) in Dict(t) && Dict(t)[Key(x)] == x && HasPrefix(Key(x), prefix)
  {
    forall i | 0 <= i < |t.slots| && t.bits[i] ensures !Odd(t.slots[i].seq_) {
      assert Healthy(t, i);
    }
    ListFromQuiet(t, c, markOk, prefix, 0);
    ListIsMap(t, prefix);
  }

  /** A matching entry that the repair keeps, in a slot from `k` on. */
  ghost predicate KeptFrom(t: Table, prefix: string, k: nat, x: Body)
    requires Sized(t)
  {
    exists i: nat :: k <= i < |t.slots| && Kept(t, i) && t.slots[i].body == x && HasPrefix(Key(x), prefix)
  }

  /** What listing from slot `k` on adds to `acc` on a table whose words are even. */
  lemma {:induction false} ListFromEven(t: Table, c: Control, markOk: bool, prefix: string, k: nat, acc: seq<Body>,
                                        x: Body)
    requires Sized(t) && k <= |t.slots| && Key(x) != "" && forall i :: 0 <= i < |t.slots| ==> !Odd(t.slots[i].seq_)
    ensures ListFrom(t, c, markOk, prefix, k, acc).0 == t
    ensures x in ListFrom(t, c, markOk, prefix, k, acc).2 <==> x in acc || KeptFrom(t, prefix, k, x)
    decreases |t.slots| - k
  {
    if k == |t.slots| {
    } else if !t.bits[k] {
      ListFromEven(t, c, markOk, prefix, k + 1, acc, x);
    } else {
      var b := t.slots[k].body;
      ListFromEven(t, c, markOk, prefix, k + 1, Listed(acc, b, prefix), x);
      assert x in Listed(acc, b, prefix) <==> x in acc || (x == b && HasPrefix(Key(b), prefix));
      if x == b { assert Kept(t, k); }
    }
  }

  /** A writer died in an occupied slot from `k` on. */
  ghost predicate OddFrom(t: Table, k: nat)
    requires Sized(t)
  {
    exists i :: k <= i < |t.slots| && t.bits[i] && Odd(t.slots[i].seq_)
  }

  /** The turn of listing that finds the first odd word repairs the table, and adds no named entry of its own. */
  lemma ListRepairs(t: Table, markOk: bool, prefix: string, k: nat, acc: seq<Body>, x: Body)
    requires Sized(t) && k < |t.slots| && t.bits[k] && Odd(t.slots[k].seq_) && Key(x) != ""
    ensures ListFrom(t, OwnerDead, markOk, prefix, k, acc).0 == Repair(t)
    ensures x in ListFrom(t, OwnerDead, markOk, prefix, k, acc).2 <==> x in acc || KeptFrom(t, prefix, k, x)
  {
    var u := Repair(t);
    RepairMends(t);
    var next := if markOk then Listed(acc, u.slots[k].body, prefix) else acc;
    ListFromEven(u, if markOk then Free else Lost, markOk, prefix, k + 1, next, x);
    assert u.slots[k].body == Empty();
    KeptSame(t, prefix, k, x);
  }

  /** Listing after the death of a writer: every named entry that the repair keeps and whose name has the prefix is
      listed, and no other named one; the table is left as it is, or repaired if the writer was in an occupied slot. */
  lemma {:induction false} ListAfterDeath(t: Table, markOk: bool, prefix: string, k: nat, acc: seq<Body>, x: Body)
    requires Sized(t) && k <= |t.slots| && Key(x) != ""
    ensures ListFrom(t, OwnerDead, markOk, prefix, k, acc).0 == if OddFrom(t, k) then Repair(t) else t
    ensures x in ListFrom(t, OwnerDead, markOk, prefix, k, acc).2 <==> x in acc || KeptFrom(t, prefix, k, x)
    decreases |t.slots| - k
  {
    if k == |t.slots| {
    } else if t.bits[k] && Odd(t.slots[k].seq_) {
      ListRepairs(t, markOk, prefix, k, acc, x);
    } else {
      var b := t.slots[k].body;
      var next := if t.bits[k] then Listed(acc, b, prefix) else acc;
      ListAfterDeath(t, markOk, prefix, k + 1, next, x);
      SlotListed(t, prefix, k, acc, x);
      assert OddFrom(t, k) <==> OddFrom(t, k + 1);
    }
  }

  /** A slot without a writer adds its entry if it is occupied and matches. */
  lemma SlotListed(t: Table, prefix: string, k: nat, acc: seq<Body>, x: Body)
    requires Sized(t) && k < |t.slots| && !(t.bits[k] && Odd(t.slots[k].seq_)) && Key(x) != ""
    ensures var next := if t.bits[k] then Listed(acc, t.slots[k].body, prefix) else acc;
            x in next || KeptFrom(t, prefix, k + 1, x) <==> x in acc || KeptFrom(t, prefix, k, x)
  {
    if t.bits[k] && x == t.slots[k].body {
      assert Kept(t, k);
    }
  }

  /** Past a slot with an odd word, the repair has the same matching entries. */
  lemma KeptSame(t: Table, prefix: string, k: nat, x: Body)
    requires Sized(t) && k < |t.slots| && Odd(t.slots[k].seq_) && Key(x) != ""
    ensures KeptFrom(Repair(t), prefix, k + 1, x) <==> KeptFrom(t, prefix, k, x)
  {
    RepairHeals(t);
    assert !Kept(t, k);
    forall i: nat | i < |t.slots|
      ensures Kept(Repair(t), i) == Kept(t, i) && (Kept(t, i) ==> Repair(t).slots[i] == t.slots[i])
    {
      assert Healthy(Repair(t), i);
    }
  }

  // ---------------------------------------------------------------- the registry object

  /** In `u` the slots below `i` are those of `t` repaired, and the others are as in `t`. */
  ghost predicate RepairedTo(t: Table, u: Table, i: nat)
    requires Sized(t)
  {
    && Sized(u) && |u.slots| == |t.slots| && u.count == t.count && i <= |t.slots|
    && (forall j :: 0 <= j < i ==> u.slots[j] == RepairedEntry(t, j) && u.bits[j] == RepairedBits(t)[j])
    && (forall j :: i <= j < |t.slots| ==> u.slots[j] == t.slots[j] && u.bits[j] == t.bits[j])
  }

  lemma RepairedAll(t: Table, u: Table, n: nat)
    requires Sized(t) && RepairedTo(t, u, |t.slots|) && n == CountBelow(RepairedBits(t), |t.slots|)
    ensures u.(count := n) == Repair(t)
  {
    assert u.bits == Repair(t).bits && u.slots == Repair(t).slots;
  }

  lemma CountOneMore(t: Table, i: nat)
    requires Sized(t) && i < |t.slots|
    ensures CountBelow(RepairedBits(t), i + 1) == CountBelow(RepairedBits(t), i) + (if RepairedBits(t)[i] then 1 else 0)
  {
  }

  class Registry {
    const bitmap: array<bv8>
    const slots: array<Entry>
    var count: nat
    var control: Control
    var attached: bool

    predicate Valid()
      reads this
    {
      bitmap.Length * 8 == slots.Length && slots.Length == SLOTS
    }

    /** The table the memory holds. */
    function Contents(): (t: Table)
      requires Valid()
      reads this, bitmap, slots
      ensures Sized(t) && |t.slots| == slots.Length
    {
      Table(count, Bits(bitmap[..]), slots[..])
    }

    /** A fresh registry segment: zeroed memory and an initialized mutex. */
    constructor ()
      ensures Valid() && fresh(bitmap) && fresh(slots) && attached && control == Free
      ensures Good(Contents()) && Dict(Contents()) == map[]
    {
      bitmap := new bv8[SLOTS / 8](_ => 0);
      slots := new Entry[SLOTS](_ => Entry(0, Empty()));
      count, control, attached := 0, Free, true;
      new;
      ZeroTable(bitmap[..], slots[..]);
    }

    method BitIsSet(i: nat) returns (b: bool)
      requires Valid() && i < slots.Length
      ensures b == Contents().bits[i]
    {
      b := Tests(bitmap[i / 8], Mask(i % 8));
    }

    method SetBit(i: nat)
      requires Valid() && i < slots.Length
      modifies bitmap
      ensures Contents() == old(Contents()).(bits := old(Contents()).bits[i := true])
    {
      var nb := Sets(bitmap[i / 8], Mask(i % 8));
      SetBits(bitmap[..], i, nb);
      bitmap[i / 8] := nb;
    }

    method ClearBit(i: nat)
      requires Valid() && i < slots.Length
      modifies bitmap
      ensures Contents() == old(Contents()).(bits := old(Contents()).bits[i := false])
    {
      var nb := Clears(bitmap[i / 8], Mask(i % 8));
      ClearBits(bitmap[..], i, nb);
      bitmap[i / 8] := nb;
    }

    /** `publish_slot`: odd word, whole copy of the source including its sequence word, odd word, even word. */
    method PublishSlot(i: nat, source: Entry)
      requires Valid() && i < slots.Length
      modifies slots
      ensures Contents() == old(Contents()).(slots := old(slots[..])[i := Published(old(slots[i]), source.body)])
      ensures slots[i].body == source.body && slots[i].seq_ == old(slots[i].seq_) + 2
    {
      var s := slots[i].seq_;
      slots[i] := slots[i].(seq_ := s + 1);
      slots[i] := source;
      slots[i] := slots[i].(seq_ := s + 1);
      slots[i] := slots[i].(seq_ := s + 2);
    }

    /** `snapshot_slot` without interference: succeeds exactly when no writer is in progress. */
    method SnapshotSlot(i: nat) returns (ok: bool, snap: Entry)
      requires Valid() && i < slots.Length
      ensures ok <==> !Odd(slots[i].seq_)
      ensures ok ==> snap == slots[i]
    {
      snap := Entry(0, Empty());
      var retry := 0;
      while retry < SNAPSHOT_RETRIES
        invariant retry == 0 || Odd(slots[i].seq_)
        decreases SNAPSHOT_RETRIES - retry
      {
        var s1 := slots[i].seq_;
        if !Odd(s1) {
          snap := slots[i];
          var s2 := slots[i].seq_;
          if s1 == s2 {
            return true, snap;
          }
        }
        retry := retry + 1;
      }
      ok := false;
    }

    /** `clear_slot_for_recovery`: odd word, value-initialized entry, next even word, bit off. */
    method ClearSlotForRecovery(i: nat)
      requires Valid() && i < slots.Length
      modifies slots, bitmap
      ensures Contents()
           == old(Contents()).(slots := old(slots[..])[i := Entry(ClearedSeq(old(slots[i]).seq_), Empty())],
                               bits := old(Contents()).bits[i := false])
      ensures slots[i].body == Empty() && slots[i].seq_ == (old(slots[i].seq_) + 2) & 0xFFFF_FFFE
    {
      var s := slots[i].seq_;
      slots[i] := slots[i].(seq_ := s | 1);
      slots[i] := Entry(0, Empty());
      slots[i] := slots[i].(seq_ := ClearedSeq(s));
      ClearBit(i);
    }

    /** One turn of the recovery loop. */
    method RecoverSlot(i: nat, ghost t: Table) returns (kept: bool)
      requires Valid() && Sized(t) && i < slots.Length && RepairedTo(t, Contents(), i)
      modifies slots, bitmap
      ensures RepairedTo(t, Contents(), i + 1) && kept == RepairedBits(t)[i]
    {
      var occupied := BitIsSet(i);
      var slot := slots[i];
      var writerInProgress := slot.seq_ & 1 != 0;
      var hasName := slot.body.name[0] != '\0';
      if writerInProgress || (occupied && !hasName) || (!occupied && hasName) {
        ClearSlotForRecovery(i);
        return false;
      }
      kept := occupied;
    }

    /** `recover_registry_invariant`: repairs the whole payload, whatever it holds. */
    method RecoverRegistryInvariant()
      requires Valid()
      modifies this`count, slots, bitmap
      ensures Contents() == Repair(old(Contents()))
    {
      ghost var t := Contents();
      var n := 0;
      for i := 0 to slots.Length
        invariant RepairedTo(t, Contents(), i) && n == CountBelow(RepairedBits(t), i)
      {
        var kept := RecoverSlot(i, t);
        CountOneMore(t, i);
        if kept {
          n := n + 1;
        }
      }
      RepairedAll(t, Contents(), n);
      count := n;
    }

    /** `lock_registry_control` followed by the release of the guard, for the caller that holds the lock in between. */
    method LockControl(markOk: bool) returns (ok: bool)
      requires Valid()
      modifies this`count, this`control, slots, bitmap
      ensures (Contents(), control, ok) == Locked(old(Contents()), old(control), markOk)
      ensures old(control) == OwnerDead ==>
                var t, u := old(Contents()), Contents();
                && (forall i :: 0 <= i < |u.slots| ==>
                      !Odd(u.slots[i].seq_) && (u.bits[i] <==> Key(u.slots[i].body) != ""))
                && u.count == CountBelow(u.bits, |u.bits|)
                && (forall i :: 0 <= i < |u.slots| && Healthy(t, i) ==>
                      u.slots[i] == t.slots[i] && u.bits[i] == t.bits[i])
                && (DistinctKept(t) ==> Good(u)) && Dict(u) == KeptDict(t)
                && ok == markOk && control == if markOk then Free else Lost
      ensures old(control) != OwnerDead ==>
                Contents() == old(Contents()) && control == old(control) && ok == (old(control) == Free)
    {
      RepairMends(Contents());
      match control
      case Lost => return false;
      case Free => return true;
      case OwnerDead =>
        RecoverRegistryInvariant();
        control := if markOk then Free else Lost;
        ok := markOk;
    }

    /** The scan of `register_segment`: the slot that holds the name, and the first free slot. */
    method FindSlot(key: string) returns (found: nat, free: nat)
      requires Valid()
      ensures found == Find(Contents(), key, 0)
      ensures found == slots.Length ==> free == FirstFree(Contents(), 0)
    {
      free := slots.Length;
      ghost var t := Contents();
      for i := 0 to slots.Length
        invariant Find(t, key, 0) == Find(t, key, i)
        invariant if free == slots.Length then FirstFree(t, 0) == FirstFree(t, i)
                  else free < i && FirstFree(t, 0) == free
      {
        var occupied := BitIsSet(i);
        if !occupied {
          if free == slots.Length {
            free := i;
          }
        } else {
          var ok, snap := SnapshotSlot(i);
          if ok && NameOf(snap.body.name) == key {
            return i, free;
          }
        }
      }
      found := slots.Length;
    }

    /** `register_segment`: after any repair, inserts or overwrites the entry; or reports a full table. */
    method RegisterSegment(entry: Entry, markOk: bool) returns (ok: bool, r: Outcome)
      requires Valid()
      modifies this`count, this`control, slots, bitmap
      ensures !attached ==> !ok && r == NotFound && Contents() == old(Contents()) && control == old(control)
      ensures attached ==>
                var (t, c, locked) := Locked(old(Contents()), old(control), markOk);
                && control == c && ok == locked
                && (locked ==> (Contents(), r) == RegisterTable(t, entry.body))
                && (!locked ==> Contents() == t)
      ensures ok && (if old(control) == OwnerDead then DistinctKept(old(Contents())) else Sound(old(Contents()))) ==>
                var m := if old(control) == OwnerDead then KeptDict(old(Contents())) else Dict(old(Contents()));
                var key := Key(entry.body);
                && Sound(Contents()) && (r == QuotaExceeded <==> key !in m && |m| == slots.Length)
                && (r != QuotaExceeded ==> r == Ok && Dict(Contents()) == m[key := entry.body])
                && (r == QuotaExceeded ==> Dict(Contents()) == m)
    {
      if !attached {
        return false, NotFound;
      }
      ok := LockControl(markOk);
      if !ok {
        return ok, NotFound;
      }
      r := RegisterLocked(entry);
      RegisterAfterLock(old(Contents()), old(control), markOk, entry.body);
    }

    /** `register_segment` once it has the lock. */
    method RegisterLocked(entry: Entry) returns (r: Outcome)
      requires Valid()
      modifies this`count, slots, bitmap
      ensures (Contents(), r) == RegisterTable(old(Contents()), entry.body)
    {
      var found, free := FindSlot(NameOf(entry.body.name));
      if found < slots.Length {
        PublishOver(found, entry);
        return Ok;
      }
      if free == slots.Length {
        return QuotaExceeded;
      }
      SetBit(free);
      count := Increment(count);
      PublishSlot(free, entry);
      r := Ok;
    }

    /** Publishing over an occupied slot leaves the bitmap and the count as they are. */
    method PublishOver(i: nat, entry: Entry)
      requires Valid() && i < slots.Length && Contents().bits[i]
      modifies slots
      ensures Contents() == Put(old(Contents()), i, Published(old(slots[i]), entry.body), true, count)
    {
      assert Contents().bits[i := true] == Contents().bits;
      PublishSlot(i, entry);
    }

    /** `unregister`: after any repair, empties the slot that holds the name; or reports that there is none. */
    method Unregister(name: string, markOk: bool) returns (ok: bool, r: Outcome)
      requires Valid()
      modifies this`count, this`control, slots, bitmap
      ensures !attached ==> !ok && r == NotFound && Contents() == old(Contents()) && control == old(control)
      ensures attached ==>
                var (t, c, locked) := Locked(old(Contents()), old(control), markOk);
                && control == c && ok == locked
                && (locked ==> (Contents(), r) == UnregisterTable(t, name))
                && (!locked ==> Contents() == t)
      ensures ok && (if old(control) == OwnerDead then DistinctKept(old(Contents())) else Sound(old(Contents()))) ==>
                var m := if old(control) == OwnerDead then KeptDict(old(Contents())) else Dict(old(Contents()));
                && Sound(Contents()) && (r == if name in m then Ok else NotFound)
                && Dict(Contents()) == m - {name}
    {
      if !attached {
        return false, NotFound;
      }
      ok := LockControl(markOk);
      if !ok {
        return ok, NotFound;
      }
      r := UnregisterLocked(name);
      UnregisterAfterLock(old(Contents()), old(control), markOk, name);
    }

    /** `unregister` once it has the lock. */
    method UnregisterLocked(name: string) returns (r: Outcome)
      requires Valid()
      modifies this`count, slots, bitmap
      ensures (Contents(), r) == UnregisterTable(old(Contents()), name)
    {
      var i, _ := FindSlot(name);
      if i == slots.Length {
        return NotFound;
      }
      PublishSlot(i, Entry(0, Empty()));
      ClearBit(i);
      count := Decrement(count);
      r := Ok;
    }

    /** `list`: the bodies whose names start with the prefix, read without the lock unless a writer is in progress. */
    method List(prefix: string, markOk: bool) returns (es: seq<Body>)
      requires Valid()
      modifies this`count, this`control, slots, bitmap
      ensures !attached ==> es == [] && Contents() == old(Contents()) && control == old(control)
      ensures attached ==>
                (Contents(), control, es) == ListFrom(old(Contents()), old(control), markOk, prefix, 0, [])
    {
      es := [];
      if !attached {
        return;
      }
      for i := 0 to slots.Length
        invariant ListFrom(Contents(), control, markOk, prefix, i, es)
               == ListFrom(old(Contents()), old(control), markOk, prefix, 0, [])
      {
        es := ListSlot(i, prefix, markOk, es);
      }
    }

    /** One turn of the listing loop. */
    method ListSlot(i: nat, prefix: string, markOk: bool, acc: seq<Body>) returns (es: seq<Body>)
      requires Valid() && i < slots.Length
      modifies this`count, this`control, slots, bitmap
      ensures ListFrom(Contents(), control, markOk, prefix, i + 1, es)
           == ListFrom(old(Contents()), old(control), markOk, prefix, i, acc)
    {
      es := acc;
      var occupied := BitIsSet(i);
      if !occupied {
        return;
      }
      var ok, snap := SnapshotSlot(i);
      if !ok {
        var locked := LockControl(markOk);
        if !locked {
          return;
        }
        snap := slots[i];
      }
      es := Listed(acc, snap.body, prefix);
    }
  }

  lemma ZeroTable(bm: seq<bv8>, es: seq<Entry>)
    requires 8 * |bm| == |es| && (forall i :: 0 <= i < |bm| ==> bm[i] == 0)
    requires forall i :: 0 <= i < |es| ==> es[i] == Entry(0, Empty())
    ensures Good(Table(0, Bits(bm), es)) && Dict(Table(0, Bits(bm), es)) == map[]
  {
    var t := Table(0, Bits(bm), es);
    forall i | 0 <= i < |es| ensures !t.bits[i] && Healthy(t, i) {
    }
    NoBits(t, |es|);
  }
}
