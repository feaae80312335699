/**
 The registry payload as a value: occupancy bits, sequence words and entries, the finite map it stands for, and
 the repair that a locker makes after the previous owner of the control mutex died.
 */
module RegistryTable {
  import opened FixedNames

  datatype Body = Body(name: NameBuffer, totalSize: nat, segmentType: nat, ownerPid: nat, ownerStart: nat,
                       flags: nat, created: nat, lastSeen: nat)

  datatype Entry = Entry(seq_: bv32, body: Body)

  /** The value-initialized entry `RegistryEntry{}`, apart from its sequence word. */
  function Empty(): (b: Body)
    ensures Key(b) == ""
  {
    Body(Blank(), 0, 0, 0, 0, 0, 0, 0)
  }

  datatype Table = Table(count: nat, bits: seq<bool>, slots: seq<Entry>)

  predicate Sized(t: Table) {
    |t.bits| == |t.slots|
  }

  function Key(b: Body): (k: string) {
    NameOf(b.name)
  }

  predicate Odd(s: bv32) {
    s & 1 != 0
  }

  // ---------------------------------------------------------------- the map a table stands for

  /** The entries of the occupied slots below `k`. */
  function DictBelow(t: Table, k: nat): (m: map<string, Body>)
    requires Sized(t) && k <= |t.slots|
  {
    if k == 0 then map[]
    else if t.bits[k - 1] then DictBelow(t, k - 1)[Key(t.slots[k - 1].body) := t.slots[k - 1].body]
    else DictBelow(t, k - 1)
  }

  function Dict(t: Table): (m: map<string, Body>)
    requires Sized(t)
  {
    DictBelow(t, |t.slots|)
  }

  function CountBelow(bits: seq<bool>, k: nat): (n: nat)
    requires k <= |bits|
    ensures n <= k
  {
    if k == 0 then 0 else CountBelow(bits, k - 1) + (if bits[k - 1] then 1 else 0)
  }

  /** Occupied slots carry different names. */
  ghost predicate Distinct(t: Table)
    requires Sized(t)
  {
    forall i, j :: 0 <= i < j < |t.slots| && t.bits[i] && t.bits[j] ==> Key(t.slots[i].body) != Key(t.slots[j].body)
  }

  /** The occupied slot `i` holds key `k`. */
  predicate At(t: Table, i: nat, k: string)
    requires Sized(t)
  {
    i < |t.slots| && t.bits[i] && Key(t.slots[i].body) == k
  }

  /** Some occupied slot below `k` holds key `x`. */
  ghost predicate Below(t: Table, k: nat, x: string)
    requires Sized(t)
  {
    exists i: nat :: i < k && At(t, i, x)
  }

  lemma {:induction false} DictKeys(t: Table, k: nat, x: string)
    requires Sized(t) && k <= |t.slots|
    ensures x in DictBelow(t, k) <==> Below(t, k, x)
  {
    if k == 0 {
    } else {
      DictKeys(t, k - 1, x);
      if Below(t, k - 1, x) {
        var i: nat :| i < k - 1 && At(t, i, x);
        assert i < k && At(t, i, x);
      }
      if At(t, k - 1, x) {
        assert Below(t, k, x);
      }
    }
  }

  lemma {:induction false} DictValue(t: Table, k: nat, i: nat)
    requires Sized(t) && Distinct(t) && i < k <= |t.slots| && t.bits[i]
    ensures Key(t.slots[i].body) in DictBelow(t, k) && DictBelow(t, k)[Key(t.slots[i].body)] == t.slots[i].body
  {
    if i == k - 1 {
    } else {
      DictValue(t, k - 1, i);
    }
  }

  lemma {:induction false} DictSize(t: Table, k: nat)
    requires Sized(t) && Distinct(t) && k <= |t.slots|
    ensures |DictBelow(t, k)| == CountBelow(t.bits, k)
  {
    if k == 0 {
    } else {
      DictSize(t, k - 1);
      if t.bits[k - 1] {
        var m, x := DictBelow(t, k - 1), Key(t.slots[k - 1].body);
        DictKeys(t, k - 1, x);
        assert m[x := t.slots[k - 1].body].Keys == m.Keys + {x};
      }
    }
  }

  /** A table with distinct names stands for the map of its occupied slots, and its size is the number of bits. */
  lemma DictMeaning(t: Table)
    requires Sized(t) && Distinct(t)
    ensures forall i :: 0 <= i < |t.slots| && t.bits[i] ==>
              Key(t.slots[i].body) in Dict(t) && Dict(t)[Key(t.slots[i].body)] == t.slots[i].body
    ensures forall x :: x in Dict(t) <==> Below(t, |t.slots|, x)
    ensures |Dict(t)| == CountBelow(t.bits, |t.bits|)
  {
    DictSize(t, |t.slots|);
    forall i | 0 <= i < |t.slots| && t.bits[i]
      ensures Key(t.slots[i].body) in Dict(t) && Dict(t)[Key(t.slots[i].body)] == t.slots[i].body
    {
      DictValue(t, |t.slots|, i);
    }
    forall x ensures x in Dict(t) <==> Below(t, |t.slots|, x) {
      DictKeys(t, |t.slots|, x);
    }
  }

  /** Equal occupancy and bodies give equal maps. */
  lemma {:induction false} DictSame(t: Table, u: Table, k: nat)
    requires Sized(t) && Sized(u) && k <= |t.slots| && k <= |u.slots|
    requires forall i :: 0 <= i < k ==> t.bits[i] == u.bits[i] && (t.bits[i] ==> t.slots[i].body == u.slots[i].body)
    ensures DictBelow(t, k) == DictBelow(u, k) && CountBelow(t.bits, k) == CountBelow(u.bits, k)
  {
    if k == 0 {
    } else {
      DictSame(t, u, k - 1);
    }
  }

  /** A table without occupied slots is the empty map. */
  lemma {:induction false} NoBits(t: Table, k: nat)
    requires Sized(t) && k <= |t.slots| && forall i :: 0 <= i < |t.slots| ==> !t.bits[i]
    ensures DictBelow(t, k) == map[] && CountBelow(t.bits, k) == 0
  {
    if k == 0 {
    } else {
      NoBits(t, k - 1);
    }
  }

  /** The table of a new registry of `n` slots: cleared memory. */
  function FreshTable(n: nat): (t: Table)
    ensures Sized(t) && |t.slots| == n
  {
    Table(0, seq(n, _ => false), seq(n, _ => Entry(0, Empty())))
  }

  // ---------------------------------------------------------------- health and repair

  /** The repair keeps the slot: no writer in progress, and the bit agrees with the name. */
  predicate Healthy(t: Table, i: nat)
    requires Sized(t) && i < |t.slots|
  {
    !Odd(t.slots[i].seq_) && (t.bits[i] <==> Key(t.slots[i].body) != "")
  }

  /** No writer is in progress, occupied slots carry different names, and the count is their number. */
  ghost predicate Sound(t: Table) {
    && Sized(t)
    && (forall i :: 0 <= i < |t.slots| ==> !Odd(t.slots[i].seq_))
    && Distinct(t)
    && t.count == CountBelow(t.bits, |t.bits|)
  }

  /** The state every completed operation on named segments leaves. */
  ghost predicate Good(t: Table) {
    Sound(t) && forall i :: 0 <= i < |t.slots| ==> Healthy(t, i)
  }

  /** A new registry is good, and stands for the empty map. */
  lemma FreshIsGood(n: nat)
    ensures Good(FreshTable(n)) && Dict(FreshTable(n)) == map[]
  {
    var t := FreshTable(n);
    NoBits(t, n);
    forall i | 0 <= i < n ensures Healthy(t, i) {
    }
  }

  /** The sequence word `clear_slot_for_recovery` leaves over `s`. */
  function ClearedSeq(s: bv32): (r: bv32)
    ensures !Odd(r)
  {
    (s + 2) & 0xFFFF_FFFE
  }

  /** What the repair makes of slot `i`. */
  function RepairedEntry(t: Table, i: nat): (e: Entry)
    requires Sized(t) && i < |t.slots|
  {
    if Healthy(t, i) then t.slots[i] else Entry(ClearedSeq(t.slots[i].seq_), Empty())
  }

  /** The occupancy bits after the repair. */
  function RepairedBits(t: Table): (bits: seq<bool>)
    requires Sized(t)
  {
    seq(|t.slots|, i requires 0 <= i < |t.slots| => t.bits[i] && Healthy(t, i))
  }

  /** `recover_registry_invariant` as a value. */
  function Repair(t: Table): (r: Table)
    requires Sized(t)
    ensures Sized(r) && |r.slots| == |t.slots|
  {
    var bits := RepairedBits(t);
    Table(CountBelow(bits, |bits|), bits, seq(|t.slots|, i requires 0 <= i < |t.slots| => RepairedEntry(t, i)))
  }

  /** Slot `i` is an entry that the repair keeps. */
  predicate Kept(t: Table, i: nat)
    requires Sized(t) && i < |t.slots|
  {
    t.bits[i] && Healthy(t, i)
  }

  /** The map of the kept entries below `k`, and of them all. */
  function KeptBelow(t: Table, k: nat): (m: map<string, Body>)
    requires Sized(t) && k <= |t.slots|
  {
    if k == 0 then map[]
    else if Kept(t, k - 1) then KeptBelow(t, k - 1)[Key(t.slots[k - 1].body) := t.slots[k - 1].body]
    else KeptBelow(t, k - 1)
  }

  function KeptDict(t: Table): (m: map<string, Body>)
    requires Sized(t)
  {
    KeptBelow(t, |t.slots|)
  }

  /** The kept slots carry different names. */
  ghost predicate DistinctKept(t: Table)
    requires Sized(t)
  {
    forall i, j :: 0 <= i < j < |t.slots| && t.bits[i] && t.bits[j] && Healthy(t, i) && Healthy(t, j) ==>
      Key(t.slots[i].body) != Key(t.slots[j].body)
  }

  /** However damaged the payload, the repair ends with every sequence even, every bit agreeing with its name and
      the count equal to the number of bits, and leaves healthy slots untouched. */
  lemma RepairHeals(t: Table)
    requires Sized(t)
    ensures var r := Repair(t);
            && |r.slots| == |t.slots| && (forall i :: 0 <= i < |t.slots| ==> Healthy(r, i))
            && r.count == CountBelow(r.bits, |r.bits|)
            && (forall i :: 0 <= i < |t.slots| && Healthy(t, i) ==> r.slots[i] == t.slots[i] && r.bits[i] == t.bits[i])
            && (forall i :: 0 <= i < |t.slots| && !Healthy(t, i) ==> r.slots[i].body == Empty() && !r.bits[i])
    ensures DistinctKept(t) ==> Good(Repair(t))
  {
  }

  /** Repairing twice is repairing once. */
  lemma RepairIdempotent(t: Table)
    requires Sized(t)
    ensures Repair(Repair(t)) == Repair(t)
  {
    RepairHeals(t);
    var r := Repair(t);
    assert RepairedBits(r) == r.bits;
    assert Repair(r).slots == r.slots;
  }

  /** The repair changes nothing in a table that a completed operation left. */
  lemma RepairKeepsGood(t: Table)
    requires Good(t)
    ensures Repair(t) == t
  {
    assert RepairedBits(t) == t.bits;
    assert Repair(t).slots == t.slots;
  }

  lemma {:induction false} RepairBelow(t: Table, k: nat)
    requires Sized(t) && k <= |t.slots|
    ensures DictBelow(Repair(t), k) == KeptBelow(t, k)
  {
    if k == 0 {
    } else {
      RepairBelow(t, k - 1);
    }
  }

  /** The repaired table stands for the map of the entries that were kept. */
  lemma RepairKeepsEntries(t: Table)
    requires Sized(t)
    ensures Dict(Repair(t)) == KeptDict(t)
  {
    RepairBelow(t, |t.slots|);
  }

  lemma {:induction false} KeptBelowIs(t: Table, k: nat, x: string)
    requires Sized(t) && DistinctKept(t) && k <= |t.slots|
    ensures x in KeptBelow(t, k) <==> exists i: nat :: i < k && Kept(t, i) && Key(t.slots[i].body) == x
    ensures forall i: nat :: i < k && Kept(t, i) && Key(t.slots[i].body) == x ==> KeptBelow(t, k)[x] == t.slots[i].body
  {
    if k == 0 {
    } else {
      KeptBelowIs(t, k - 1, x);
    }
  }

  /** That map has exactly the entries of the occupied slots with an even word and a name. */
  lemma KeptDictIs(t: Table, x: string, b: Body)
    requires Sized(t) && DistinctKept(t)
    ensures x in KeptDict(t) && KeptDict(t)[x] == b
       <==> exists i: nat :: i < |t.slots| && t.bits[i] && !Odd(t.slots[i].seq_) && t.slots[i].body == b
                             && x == Key(b) && x != ""
  {
    KeptBelowIs(t, |t.slots|, x);
    if i: nat :| i < |t.slots| && t.bits[i] && !Odd(t.slots[i].seq_) && t.slots[i].body == b && x == Key(b) && x != "" {
      assert Kept(t, i);
    }
  }
}
