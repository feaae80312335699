/** Handles on a segment, moved and reset in place. */
module Handles {
  import opened Lifecycle

  /** The part of a mapped segment a handle changes, and whether its name still exists. */
  class Segment {
    var refCount: nat
    var state: SegmentState
    var linked: bool
    const isRegistry: bool

    constructor (isRegistry: bool)
      ensures refCount == 1 && state == Active && linked && this.isRegistry == isRegistry
    {
      refCount, state, linked := 1, Active, true;
      this.isRegistry := isRegistry;
    }
  }

  datatype HandleValue = HandleValue(base: Segment?, size: nat, fd: int, rw: bool, owner: bool)

  const EMPTY: HandleValue := HandleValue(null, 0, -1, false, false)

  datatype Fields = Fields(refCount: nat, state: SegmentState, linked: bool)

  /** What `reset` of a handle makes of its segment's fields. */
  function AfterReset(f: Fields, isRegistry: bool, rw: bool, owner: bool): (g: Fields) {
    if !rw then f
    else if owner && !isRegistry && f.refCount == 1 && f.state == Draining then Fields(Down(f.refCount), Dead, false)
    else f.(refCount := Down(f.refCount))
  }

  /** A reset gives up one reference of a read-write handle; exactly at the owner's last one of a draining segment,
      which is not the registry, it marks the segment Dead and unlinks its name. */
  lemma ResetMeans(f: Fields, isRegistry: bool, rw: bool, owner: bool)
    ensures var g := AfterReset(f, isRegistry, rw, owner);
            var last := rw && owner && !isRegistry && f.refCount == 1 && f.state == Draining;
            && (g.refCount == if !rw then f.refCount else if f.refCount > 0 then f.refCount - 1 else 0xFFFF_FFFF)
            && (g.state != f.state <==> last) && (last ==> g.state == Dead)
            && (f.linked && !g.linked <==> f.linked && last) && (g.linked ==> f.linked)
  {
  }

  class ShmHandle {
    var base: Segment?
    var size: nat
    var fd: int
    var rw: bool
    var owner: bool

    function Value(): (v: HandleValue)
      reads this
    {
      HandleValue(base, size, fd, rw, owner)
    }

    function Target(): (r: set<object>)
      reads this
    {
      if base == null then {} else {base}
    }

    constructor (base: Segment?, size: nat, fd: int, rw: bool, owner: bool)
      ensures Value() == HandleValue(base, size, fd, rw, owner)
    {
      this.base, this.size, this.fd, this.rw, this.owner := base, size, fd, rw, owner;
    }

    /** Leaves the handle empty, as a moved-from handle is. */
    method Empty()
      modifies this
      ensures Value() == EMPTY
    {
      base, size, fd, rw, owner := null, 0, -1, false, false;
    }

    /** The move constructor: the new handle is what the other was, the other is empty, no segment changes. */
    constructor MoveFrom(other: ShmHandle)
      modifies other
      ensures Value() == old(other.Value()) && other.Value() == EMPTY
    {
      base, size, fd, rw, owner := other.base, other.size, other.fd, other.rw, other.owner;
      new;
      other.Empty();
    }

    /** Gives up the handle: at most one reference goes, and a second reset does nothing. */
    method Reset()
      modifies this, Target()
      ensures Value() == EMPTY
      ensures old(base) != null ==>
                var b := old(base);
                Fields(b.refCount, b.state, b.linked)
                == AfterReset(old(Fields(b.refCount, b.state, b.linked)), b.isRegistry, old(rw), old(owner))
    {
      if base != null {
        if rw {
          var previous := base.refCount;
          base.refCount := Down(previous);
          if owner && !base.isRegistry && previous == 1 && base.state == Draining {
            base.state := Dead;
            base.linked := false;
          }
        }
      }
      Empty();
    }

    /** The move assignment: the handle's own reference is given up first; moving onto itself changes nothing. */
    method MoveAssign(other: ShmHandle)
      modifies this, other, Target()
      ensures this == other ==> Value() == old(Value())
      ensures this != other ==> Value() == old(other.Value()) && other.Value() == EMPTY
      ensures old(base) != null ==>
                var b := old(base);
                Fields(b.refCount, b.state, b.linked)
                == if this == other then old(Fields(b.refCount, b.state, b.linked))
                   else AfterReset(old(Fields(b.refCount, b.state, b.linked)), b.isRegistry, old(rw), old(owner))
    {
      if this != other {
        Reset();
        base, size, fd, rw, owner := other.base, other.size, other.fd, other.rw, other.owner;
        other.Empty();
      }
    }
  }

  // ---------------------------------------------------------------- agreement with the interleaved protocol

  predicate LastOwner(s: State, p: Item)
    requires p.Dropped?
  {
    p.owner && !s.cfg.isRegistry && p.previous == 1 && s.st == Draining
  }

  /** The steps of a reset after its decrement. */
  function ClosingSteps(s: State, k: nat): (acts: seq<Action>)
    requires k in s.items && s.items[k].Dropped?
  {
    [LoadAfterDrop(k)] + if LastOwner(s, s.items[k]) then [StoreDead(k)] else []
  }

  /** The steps of one reset, run without interference. */
  function ResetSteps(s: State, k: nat): (acts: seq<Action>)
    requires k in s.items && s.items[k].Held?
  {
    [Drop(k)] + if s.items[k].rw then ClosingSteps(Apply(s, Drop(k)), k) else []
  }

  lemma ClosingRuns(s: State, k: nat)
    requires k in s.items && s.items[k].Dropped?
    ensures CanRun(s, ClosingSteps(s, k))
    ensures Run(s, ClosingSteps(s, k))
         == s.(st := if LastOwner(s, s.items[k]) then Dead else s.st, items := s.items - {k})
  {
    if LastOwner(s, s.items[k]) {
      var t := Apply(s, LoadAfterDrop(k));
      assert t.items - {k} == s.items - {k};
      RunFrom(t, StoreDead(k), []);
      assert [StoreDead(k)] + [] == [StoreDead(k)];
      RunFrom(s, LoadAfterDrop(k), [StoreDead(k)]);
    } else {
      RunFrom(s, LoadAfterDrop(k), []);
    }
  }

  /** The in-place reset is the protocol's reset run alone: same count, same state, and the handle is gone. */
  lemma ResetAgrees(s: State, k: nat)
    requires k in s.items && s.items[k].Held?
    ensures CanRun(s, ResetSteps(s, k))
    ensures var t := Run(s, ResetSteps(s, k));
            var f := AfterReset(Fields(s.rc, s.st, true), s.cfg.isRegistry, s.items[k].rw, s.items[k].owner);
            t == s.(rc := f.refCount, st := f.state, items := s.items - {k})
  {
    if s.items[k].rw {
      var t := Apply(s, Drop(k));
      assert t.items - {k} == s.items - {k};
      ClosingRuns(t, k);
      RunFrom(s, Drop(k), ClosingSteps(t, k));
    } else {
      RunFrom(s, Drop(k), []);
    }
  }

  lemma RunFrom(s: State, a: Action, rest: seq<Action>)
    requires Enabled(s, a) && CanRun(Apply(s, a), rest)
    ensures CanRun(s, [a] + rest) && Run(s, [a] + rest) == Run(Apply(s, a), rest)
    ensures rest == [] ==> Run(s, [a] + rest) == Apply(s, a)
  {
    assert ([a] + rest)[1..] == rest;
  }
}
