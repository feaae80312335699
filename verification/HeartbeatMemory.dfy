/** The process-wide heartbeat variables, updated in place, and the reader's judgement of an owner. */
module HeartbeatMemory {
  import opened Base
  import opened Heartbeat

  const HEARTBEAT_DEAD_NS: nat := 3_000_000_000

  /** The heartbeat fields of a segment header. */
  class Beat {
    var counter: nat
    var lastNs: nat
  }

  function Occurrences<H(==)>(hs: seq<H>, h: H): (n: nat) {
    if hs == [] then 0 else Occurrences(hs[..|hs| - 1], h) + (if hs[|hs| - 1] == h then 1 else 0)
  }

  lemma {:induction false} OccursIff<H>(hs: seq<H>, h: H)
    ensures Occurrences(hs, h) > 0 <==> h in hs
  {
    if hs == [] {
    } else {
      OccursIff(hs[..|hs| - 1], h);
      assert hs == hs[..|hs| - 1] + [hs[|hs| - 1]];
    }
  }

  /** In the lists the protocol keeps, every header occurs once, so one pass is one beat. */
  lemma {:induction false} OccursOnce<H>(hs: seq<H>, h: H)
    requires NoDuplicates(hs) && h in hs
    ensures Occurrences(hs, h) == 1
  {
    var init := hs[..|hs| - 1];
    if hs[|hs| - 1] == h {
      assert h !in init;
      OccursIff(init, h);
    } else {
      OccursOnce(init, h);
    }
  }

  lemma {:induction false} WithoutCount<H>(hs: seq<H>, h: H)
    ensures |Without(hs, h)| == |hs| - Occurrences(hs, h)
  {
    if hs == [] {
    } else {
      WithoutCount(hs[..|hs| - 1], h);
    }
  }

  lemma {:induction false} WithoutNone<H>(hs: seq<H>, h: H)
    requires h !in hs
    ensures Without(hs, h) == hs
  {
    if hs == [] {
    } else {
      WithoutNone(hs[..|hs| - 1], h);
      assert hs[|hs| - 1] in hs;
    }
  }

  lemma WithoutSnoc<H>(hs: seq<H>, x: H, h: H)
    ensures Without(hs + [x], h) == Without(hs, h) + (if x == h then [] else [x])
  {
    assert (hs + [x])[..|hs|] == hs;
  }

  /** Removing a header that is listed once joins what stands before it and after it, in order. */
  lemma {:induction false} WithoutJoins<H>(a: seq<H>, h: H, b: seq<H>)
    requires h !in a && h !in b
    ensures Without(a + [h] + b, h) == a + b
    decreases |b|
  {
    if b == [] {
      assert a + [h] + b == a + [h] && a + b == a;
      WithoutSnoc(a, h, h);
      WithoutNone(a, h);
    } else {
      var c, x := b[..|b| - 1], b[|b| - 1];
      assert b == c + [x] && x in b;
      WithoutJoins(a, h, c);
      WithoutSnoc(a + [h] + c, x, h);
      assert a + [h] + b == a + [h] + c + [x] && a + b == a + c + [x];
    }
  }

  lemma Snoc<H>(hs: seq<H>, i: nat, h: H)
    requires i < |hs|
    ensures Occurrences(hs[..i + 1], h) == Occurrences(hs[..i], h) + (if hs[i] == h then 1 else 0)
    ensures Without(hs[..i + 1], h) == Without(hs[..i], h) + (if hs[i] == h then [] else [hs[i]])
  {
    assert hs[..i + 1][..i] == hs[..i];
  }

  /** `n` beats on a 64-bit counter. */
  function Beaten(counter: nat, n: nat): (r: nat) {
    if n == 0 then counter else (Beaten(counter, n - 1) + 1) % U64
  }

  class HeartbeatGlobals {
    var headers: seq<Beat>
    var thread: Option<nat>
    var stop: bool

    function Value(): (g: Globals<Beat>)
      reads this
    {
      Globals(headers, thread, stop)
    }

    constructor ()
      ensures Value() == Globals([], None, false)
    {
      headers, thread, stop := [], None, false;
    }

    /** `register_heartbeat_owner`; `now` is the clock and `w` names the worker it may start. */
    method RegisterOwner(h: Beat, now: nat, w: nat)
      modifies this, h
      ensures Value() == RegisterSection(old(Value()), h, w)
      ensures headers == if h in old(headers) then old(headers) else old(headers) + [h]
      ensures (thread, stop) == if old(thread) == None then (Some(w), false) else (old(thread), old(stop))
      ensures h.counter == (old(h.counter) + 1) % U64 && h.lastNs == now
    {
      h.counter := (h.counter + 1) % U64;
      h.lastNs := now;
      var i := 0;
      while i < |headers| && headers[i] != h
        invariant 0 <= i <= |headers| && h !in headers[..i]
      {
        i := i + 1;
      }
      if i == |headers| {
        assert headers[..i] == headers;
        headers := headers + [h];
      }
      if thread == None {
        stop := false;
        thread := Some(w);
      }
    }

    /** The critical section of `unregister_heartbeat_owner`; the result is the worker the caller then waits for. */
    method UnregisterOwner(h: Beat) returns (toJoin: Option<nat>)
      modifies this
      ensures Value() == UnregisterSection(old(Value()), h)
      ensures toJoin == if TakesWorker(old(Value()), h) then old(thread) else None
      ensures h !in headers && |headers| == |old(headers)| - Occurrences(old(headers), h)
      ensures forall i :: 0 <= i < |old(headers)| && old(headers)[i] != h ==> old(headers)[i] in headers
      ensures headers == [] && old(thread).Some? ==> toJoin == old(thread) && thread == None && stop
      ensures headers != [] || old(thread) == None ==> toJoin == None && thread == old(thread) && stop == old(stop)
    {
      var hs, kept := headers, [];
      for i := 0 to |hs|
        invariant kept == Without(hs[..i], h) && unchanged(this)
      {
        Snoc(hs, i, h);
        if hs[i] != h {
          kept := kept + [hs[i]];
        }
      }
      assert hs[..|hs|] == hs;
      WithoutCount(hs, h);
      headers := kept;
      toJoin := None;
      if headers == [] && thread.Some? {
        stop := true;
        toJoin := thread;
        thread := None;
      }
    }

    /** `heartbeat_tick_locked`: every listed header beats once per occurrence and is stamped with the time. */
    method TickLocked(now: nat)
      modifies set b | b in headers
      ensures forall b :: b in headers ==>
                b.counter == Beaten(old(b.counter), Occurrences(headers, b)) && b.lastNs == now
    {
      for i := 0 to |headers|
        invariant forall b :: b in headers ==> b.counter == Beaten(old(b.counter), Occurrences(headers[..i], b))
        invariant forall b :: b in headers && Occurrences(headers[..i], b) > 0 ==> b.lastNs == now
      {
        OneMore(headers, i);
        headers[i].counter := (headers[i].counter + 1) % U64;
        headers[i].lastNs := now;
      }
      assert headers[..|headers|] == headers;
      forall b | b in headers ensures Occurrences(headers, b) > 0 {
        OccursIff(headers, b);
      }
    }
  }

  /** The turn of header `i` adds one to its own number of beats and to no other's. */
  lemma OneMore(hs: seq<Beat>, i: nat)
    requires i < |hs|
    ensures forall b :: b in hs ==>
              Occurrences(hs[..i + 1], b) == if b == hs[i] then Occurrences(hs[..i], b) + 1 else Occurrences(hs[..i], b)
  {
    forall b | b in hs
      ensures Occurrences(hs[..i + 1], b) == if b == hs[i] then Occurrences(hs[..i], b) + 1 else Occurrences(hs[..i], b)
    {
      Snoc(hs, i, b);
    }
  }

  // ---------------------------------------------------------------- judging an owner

  /** What the system says of the owner: `missing` when no process has the id, `started` its start time if readable. */
  datatype Probe = Probe(pid: nat, missing: bool, expectedStart: nat, started: Option<nat>)

  /** `owner_is_dead`. */
  predicate OwnerIsDead(p: Probe, lastNs: nat, now: nat) {
    if p.pid == 0 then true
    else if p.missing then true
    else if p.expectedStart != 0 && p.started.Some? && p.started.value != p.expectedStart then true
    else if lastNs == 0 || now < lastNs then false
    else now - lastNs > HEARTBEAT_DEAD_NS
  }

  /** An owner is judged dead exactly when its process is gone or replaced, or its last beat is over three seconds old;
      so a pass at `lastNs` protects every listed header for three seconds, and a stale verdict never turns back. */
  lemma OwnerDeadIff(p: Probe, lastNs: nat, now: nat, later: nat)
    requires now <= later
    ensures OwnerIsDead(p, lastNs, now)
       <==> || p.pid == 0 || p.missing
            || (p.expectedStart != 0 && p.started.Some? && p.started.value != p.expectedStart)
            || (lastNs != 0 && now > lastNs + 3_000_000_000)
    ensures OwnerIsDead(p, lastNs, now) ==> OwnerIsDead(p, lastNs, later)
  {
  }
}
