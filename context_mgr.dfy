/** The per-client context registry: a fixed array of slots, each owned by at
    most one client id, whose memory is obtained lazily from an injected
    init callback the first time the client asks for it, and handed back to
    an injected free callback when the registry is torn down. */
module ContextRegistry {
  import opened OsTypes

  /** The closed range of slot counts that Init accepts. */
  const CONTEXTS_MIN: int := 1
  const CONTEXTS_MAX: int := 1024

  /** The scan in Get uses this when it has seen no free slot. */
  const INVALID_SLOT: int := -1

  /** An seL4 client id, a uint32. */
  type CID = x: int | 0 <= x < 0x1_0000_0000

  /** An opaque memory reference; 0 stands for NULL. */
  type Mem = nat
  const NULL: Mem := 0

  /** What the init callback returns, together with what it has stored
      through its `void** mem` argument when it comes back (NULL when it
      stored nothing, since the slot it is handed holds NULL). */
  datatype InitReply = InitReply(status: OsError, mem: Mem)

  /** The injected callback pair. A NULL function pointer is None. The ghost
      logs record every call the registry makes, in order; their lengths are
      the numbers of init and free calls. */
  class MemoryFuncs {
    const init: Option<CID -> InitReply>
    const free: Option<(CID, Mem) -> OsError>
    ghost var initCalls: seq<CID>
    ghost var freeCalls: seq<(CID, Mem)>

    constructor (init: Option<CID -> InitReply>, free: Option<(CID, Mem) -> OsError>)
      ensures this.init == init && this.free == free
      ensures initCalls == [] && freeCalls == []
    {
      this.init := init;
      this.free := free;
      initCalls := [];
      freeCalls := [];
    }
  }

  /** One client slot. */
  datatype Slot = Slot(inUse: bool, cid: CID, mem: Mem)

  /** A slot as calloc leaves it, and as teardown resets it. */
  const EMPTY_SLOT: Slot := Slot(false, 0, NULL)

  predicate Owns(slot: Slot, cid: CID)
  {
    slot.inUse && slot.cid == cid
  }

  /** The slot-array invariant: an unused slot is all zero, and no two slots
      in use belong to the same client. */
  predicate WellFormed(s: seq<Slot>)
  {
    && (forall k :: 0 <= k < |s| && !s[k].inUse ==> s[k] == EMPTY_SLOT)
    && (forall j, k :: 0 <= j < k < |s| && s[j].inUse && s[k].inUse ==> s[j].cid != s[k].cid)
  }

  /** The first slot that owns cid, or -1 when none does. */
  function FindOwner(s: seq<Slot>, cid: CID): (r: int)
    ensures -1 <= r < |s|
    ensures r >= 0 ==> Owns(s[r], cid) && forall k :: 0 <= k < r ==> !Owns(s[k], cid)
    ensures r == -1 <==> forall k :: 0 <= k < |s| ==> !Owns(s[k], cid)
  {
    if |s| == 0 then -1
    else if Owns(s[0], cid) then 0
    else
      var r := FindOwner(s[1..], cid);
      if r == -1 then -1 else r + 1
  }

  /** The highest-index unused slot, or INVALID_SLOT when every slot is in use. */
  function LastFree(s: seq<Slot>): (r: int)
    ensures -1 <= r < |s|
    ensures r >= 0 ==> !s[r].inUse && forall k :: r < k < |s| ==> s[k].inUse
    ensures r == INVALID_SLOT <==> forall k :: 0 <= k < |s| ==> s[k].inUse
  {
    if |s| == 0 then INVALID_SLOT
    else if !s[|s| - 1].inUse then |s| - 1
    else LastFree(s[..|s| - 1])
  }

  /** The number of slots in use. */
  function CountInUse(s: seq<Slot>): (n: nat)
    ensures n <= |s|
  {
    if |s| == 0 then 0
    else CountInUse(s[..|s| - 1]) + (if s[|s| - 1].inUse then 1 else 0)
  }

  /** What one Get does to the slots: its status, the new slots, the value
      written through `ctx` (None when nothing is written) and whether the
      init callback was called. */
  datatype LookupResult = LookupResult(status: OsError, slots: seq<Slot>, ctx: Option<Mem>, initCalled: bool)

  function Lookup(s: seq<Slot>, cid: CID, init: CID -> InitReply): LookupResult
  {
    var owner := FindOwner(s, cid);
    if owner >= 0 then
      LookupResult(Success, s, Some(s[owner].mem), false)
    else
      var free := LastFree(s);
      if free != INVALID_SLOT then
        var reply := init(cid);
        LookupResult(reply.status, s[free := Slot(true, cid, reply.mem)],
                     if reply.status == Success then Some(reply.mem) else None, true)
      else
        LookupResult(ErrorInsufficientSpace, s, None, false)
  }

  /** A slot after teardown: its memory is handed back if it has any. */
  function Released(slot: Slot): Slot
  {
    if slot.mem != NULL then EMPTY_SLOT else slot
  }

  /** The slots after ContextMgr_free: no memory is left behind, a slot whose
      memory was handed back is zero again, and a slot without memory (one
      whose init failed without storing any) is left as it was, still
      claimed. */
  function Teardown(s: seq<Slot>): (r: seq<Slot>)
    ensures |r| == |s|
    ensures forall k :: 0 <= k < |r| ==> r[k].mem == NULL
    ensures forall k :: 0 <= k < |s| && s[k].mem != NULL ==> r[k] == EMPTY_SLOT
    ensures forall k :: 0 <= k < |s| && s[k].mem == NULL ==> r[k] == s[k]
    ensures WellFormed(s) ==> WellFormed(r)
  {
    seq(|s|, k requires 0 <= k < |s| => Released(s[k]))
  }

  /** The free callback calls teardown makes, in slot order. */
  function FreeCalls(s: seq<Slot>): seq<(CID, Mem)>
  {
    if |s| == 0 then []
    else
      var last := s[|s| - 1];
      FreeCalls(s[..|s| - 1]) + (if last.mem != NULL then [(last.cid, last.mem)] else [])
  }

  /** The registry (ContextMgr_t). */
  class ContextMgr {
    var max: nat
    var slots: array<Slot>
    var memFns: MemoryFuncs?

    /** A ContextMgr_t as the caller declares it, before Init. */
    constructor ()
      ensures max == 0 && slots.Length == 0 && memFns == null
    {
      max := 0;
      slots := new Slot[0];
      memFns := null;
    }

    ghost predicate Valid()
      reads this, slots
    {
      && memFns != null && memFns.init.Some? && memFns.free.Some?
      && CONTEXTS_MIN <= max <= CONTEXTS_MAX
      && slots.Length == max
      && WellFormed(slots[..])
    }
  }

  /** ContextMgr_init: checks its arguments, then installs the callbacks and
      `max` zeroed slots. No callback is called. */
  method Init(self: ContextMgr?, memFns: MemoryFuncs?, max: int) returns (err: OsError)
    modifies self
    ensures err == Success || err == ErrorInvalidParameter
    ensures err == ErrorInvalidParameter <==>
              || self == null || memFns == null || memFns.init.None? || memFns.free.None?
              || !(CONTEXTS_MIN <= max <= CONTEXTS_MAX)
    ensures err != Success && self != null ==> unchanged(self)
    ensures err == Success ==>
              && self.Valid() && self.max == max && self.memFns == memFns && fresh(self.slots)
              && (forall k :: 0 <= k < max ==> self.slots[k] == EMPTY_SLOT)
              && memFns.initCalls == old(memFns.initCalls) && memFns.freeCalls == old(memFns.freeCalls)
  {
    if self == null || memFns == null || memFns.init.None? || memFns.free.None? {
      return ErrorInvalidParameter;
    }
    if !(CONTEXTS_MIN <= max <= CONTEXTS_MAX) {
      return ErrorInvalidParameter;
    }
    self.memFns := memFns;
    self.max := max;
    self.slots := new Slot[max](_ => EMPTY_SLOT);
    return Success;
  }

  /** ContextMgr_free: hands every slot's memory to the free callback,
      ignoring what the callback reports, and resets those slots. */
  method Free(self: ContextMgr?) returns (err: OsError)
    requires self != null ==> self.Valid()
    modifies if self == null then {} else {self.slots, self.memFns}
    ensures self == null <==> err == ErrorInvalidParameter
    ensures self != null ==>
              && err == Success && self.Valid()
              && self.slots[..] == Teardown(old(self.slots[..]))
              && self.memFns.freeCalls == old(self.memFns.freeCalls) + FreeCalls(old(self.slots[..]))
              && self.memFns.initCalls == old(self.memFns.initCalls)
  {
    if self == null {
      return ErrorInvalidParameter;
    }
    ghost var s0 := self.slots[..];
    var i := 0;
    while i < self.max
      invariant 0 <= i <= self.max
      invariant forall k :: 0 <= k < i ==> self.slots[k] == Released(s0[k])
      invariant forall k :: i <= k < self.max ==> self.slots[k] == s0[k]
      invariant self.memFns.freeCalls == old(self.memFns.freeCalls) + FreeCalls(s0[..i])
      invariant self.memFns.initCalls == old(self.memFns.initCalls)
    {
      var slot := self.slots[i];
      if slot.mem != NULL {
        // a failing callback is only logged; teardown goes on with the next slot
        var _ := self.memFns.free.value(slot.cid, slot.mem);
        self.memFns.freeCalls := self.memFns.freeCalls + [(slot.cid, slot.mem)];
        self.slots[i] := EMPTY_SLOT;
      }
      assert s0[..i + 1][..i] == s0[..i];
      i := i + 1;
    }
    assert s0[..i] == s0;
    assert self.slots[..] == Teardown(s0);
    return Success;
  }

  /** The scan of ContextMgr_get: one pass over all slots that stops at the
      first slot the client owns, and otherwise remembers the last unused
      slot it has seen. */
  method Scan(self: ContextMgr, cid: CID) returns (owner: int, freeSlot: int)
    requires self.Valid()
    ensures owner == FindOwner(self.slots[..], cid)
    ensures owner == -1 ==> freeSlot == LastFree(self.slots[..])
  {
    ghost var s := self.slots[..];
    freeSlot := INVALID_SLOT;
    var i := 0;
    while i < self.max
      invariant 0 <= i <= self.max
      invariant forall k :: 0 <= k < i ==> !Owns(s[k], cid)
      invariant freeSlot == LastFree(s[..i])
    {
      var slot := self.slots[i];
      if slot.inUse {
        if slot.cid == cid {
          return i, freeSlot;
        }
      } else {
        freeSlot := i;
      }
      assert s[..i + 1][..i] == s[..i];
      i := i + 1;
    }
    assert s[..i] == s;
    return -1, freeSlot;
  }

  /** ContextMgr_get: returns the memory of the slot the client owns;
      otherwise claims the last unused slot for the client and asks the init
      callback for its memory. A failing init is reported, and the slot stays
      claimed. */
  method Get(self: ContextMgr?, cid: CID, ctx: Ptr?<Mem>) returns (err: OsError)
    requires self != null ==> self.Valid()
    modifies if self == null then {} else {self.slots, self.memFns}, ctx
    ensures self != null ==> self.Valid() && self.memFns.freeCalls == old(self.memFns.freeCalls)
    ensures self == null || ctx == null ==>
              && err == ErrorInvalidParameter
              && (self != null ==> self.slots[..] == old(self.slots[..]) && self.memFns.initCalls == old(self.memFns.initCalls))
              && (ctx != null ==> ctx.value == old(ctx.value))
    ensures self != null && ctx != null ==>
              var r := Lookup(old(self.slots[..]), cid, self.memFns.init.value);
              && err == r.status
              && self.slots[..] == r.slots
              && ctx.value == (if r.ctx.Some? then r.ctx.value else old(ctx.value))
              && self.memFns.initCalls == old(self.memFns.initCalls) + (if r.initCalled then [cid] else [])
  {
    if self == null || ctx == null {
      return ErrorInvalidParameter;
    }
    var owner, freeSlot := Scan(self, cid);
    if owner != -1 {
      ctx.value := self.slots[owner].mem;
      return Success;
    }
    if freeSlot == INVALID_SLOT {
      return ErrorInsufficientSpace;
    }
    ghost var s0 := self.slots[..];
    self.slots[freeSlot] := self.slots[freeSlot].(cid := cid, inUse := true);
    var reply := self.memFns.init.value(cid);
    self.memFns.initCalls := self.memFns.initCalls + [cid];
    self.slots[freeSlot] := self.slots[freeSlot].(mem := reply.mem);
    assert self.slots[..] == s0[freeSlot := Slot(true, cid, reply.mem)];
    LookupPreservesWellFormed(s0, cid, self.memFns.init.value);
    if reply.status == Success {
      ctx.value := self.slots[freeSlot].mem;
    }
    return reply.status;
  }

  // Properties of Get ---------------------------------------------------------

  /** A client that already owns a slot gets that slot's memory back; nothing
      changes and init is not called. */
  lemma LookupOwnedClient(s: seq<Slot>, cid: CID, init: CID -> InitReply, k: nat)
    requires WellFormed(s) && k < |s| && Owns(s[k], cid)
    ensures Lookup(s, cid, init) == LookupResult(Success, s, Some(s[k].mem), false)
  {
  }

  /** A new client claims the highest-index unused slot f, which now holds its
      id and what init stored; every other slot is unchanged and init is
      called once. */
  lemma LookupNewClient(s: seq<Slot>, cid: CID, init: CID -> InitReply) returns (f: nat)
    requires forall k :: 0 <= k < |s| ==> !Owns(s[k], cid)
    requires exists k :: 0 <= k < |s| && !s[k].inUse
    ensures f < |s| && !s[f].inUse && forall k :: f < k < |s| ==> s[k].inUse
    ensures var r := Lookup(s, cid, init);
            && r.initCalled && r.status == init(cid).status
            && |r.slots| == |s| && r.slots[f] == Slot(true, cid, init(cid).mem)
            && (forall k :: 0 <= k < |s| && k != f ==> r.slots[k] == s[k])
            && r.ctx == (if init(cid).status == Success then Some(init(cid).mem) else None)
  {
    f := LastFree(s);
  }

  /** Once every slot is in use, a new client gets ErrorInsufficientSpace and
      nothing changes: no client is evicted. */
  lemma {:induction false} LookupWhenFull(s: seq<Slot>, cid: CID, init: CID -> InitReply)
    requires CountInUse(s) == |s|
    requires forall k :: 0 <= k < |s| ==> !Owns(s[k], cid)
    ensures Lookup(s, cid, init) == LookupResult(ErrorInsufficientSpace, s, None, false)
  {
    CountInUseAllInUse(s);
  }

  /** Get keeps the slot-array invariant: it only claims a slot for a client
      that owns none. */
  lemma LookupPreservesWellFormed(s: seq<Slot>, cid: CID, init: CID -> InitReply)
    requires WellFormed(s)
    ensures WellFormed(Lookup(s, cid, init).slots)
  {
    var r := Lookup(s, cid, init);
    if r.initCalled {
      var f := LastFree(s);
      assert r.slots == s[f := Slot(true, cid, init(cid).mem)];
      forall j, k | 0 <= j < k < |r.slots| && r.slots[j].inUse && r.slots[k].inUse
        ensures r.slots[j].cid != r.slots[k].cid
      {
        if j == f {
          assert !Owns(s[k], cid);
        } else if k == f {
          assert !Owns(s[j], cid);
        }
      }
    }
  }

  /** Get claims at most one slot, exactly when it calls init. */
  lemma LookupClaimsAtMostOne(s: seq<Slot>, cid: CID, init: CID -> InitReply)
    ensures var r := Lookup(s, cid, init);
            CountInUse(r.slots) == CountInUse(s) + (if r.initCalled then 1 else 0) <= |s|
  {
    var r := Lookup(s, cid, init);
    if r.initCalled {
      var f := LastFree(s);
      CountInUseUpdate(s, f, Slot(true, cid, init(cid).mem));
    }
  }

  /** Once a Get has succeeded, asking again for the same client returns the
      same memory, changes nothing and calls no callback, whatever init would
      now do. */
  lemma RepeatedLookupReturnsSameMemory(s: seq<Slot>, cid: CID, init: CID -> InitReply, init': CID -> InitReply)
    requires WellFormed(s)
    requires Lookup(s, cid, init).status == Success
    ensures var r := Lookup(s, cid, init);
            Lookup(r.slots, cid, init') == LookupResult(Success, r.slots, r.ctx, false)
  {
    var r := Lookup(s, cid, init);
    LookupPreservesWellFormed(s, cid, init);
    var owner := FindOwner(s, cid);
    if owner >= 0 {
      LookupOwnedClient(s, cid, init', owner);
    } else {
      var f := LastFree(s);
      LookupOwnedClient(r.slots, cid, init', f);
    }
  }

  /** A failing init callback is not rolled back: the slot stays claimed for
      the client, and the next Get for that client reports Success with
      whatever init stored (NULL if nothing) without calling init again.
      When init stored nothing, the debug assertion on the owner's memory in
      ContextMgr_get fails on that second Get where it is compiled in; the
      Success here is the behaviour with that assertion compiled out. */
  lemma FailedInitIsNotRolledBack(s: seq<Slot>, cid: CID, init: CID -> InitReply, init': CID -> InitReply)
    requires WellFormed(s)
    requires forall k :: 0 <= k < |s| ==> !Owns(s[k], cid)
    requires exists k :: 0 <= k < |s| && !s[k].inUse
    requires init(cid).status != Success
    ensures var r := Lookup(s, cid, init);
            && r.status == init(cid).status && r.ctx == None
            && CountInUse(r.slots) == CountInUse(s) + 1
            && Lookup(r.slots, cid, init') == LookupResult(Success, r.slots, Some(init(cid).mem), false)
  {
    var r := Lookup(s, cid, init);
    var f := LastFree(s);
    LookupPreservesWellFormed(s, cid, init);
    LookupClaimsAtMostOne(s, cid, init);
    LookupOwnedClient(r.slots, cid, init', f);
  }

  /** Two slots: clients 0 and 1 are served, client 2 is refused, and
      teardown then makes exactly two free calls. */
  lemma TwoSlotScenario(init: CID -> InitReply)
    requires forall c: CID :: init(c).status == Success && init(c).mem != NULL
    ensures var s0 := [EMPTY_SLOT, EMPTY_SLOT];
            var r0 := Lookup(s0, 0, init);
            var r1 := Lookup(r0.slots, 1, init);
            var r2 := Lookup(r1.slots, 2, init);
            && r0.status == Success && r1.status == Success
            && r2.status == ErrorInsufficientSpace && r2.slots == r1.slots
            && |FreeCalls(r2.slots)| == 2
  {
    var s0 := [EMPTY_SLOT, EMPTY_SLOT];
    var r0 := Lookup(s0, 0, init);
    assert r0.slots == [EMPTY_SLOT, Slot(true, 0, init(0).mem)];
    var r1 := Lookup(r0.slots, 1, init);
    assert r1.slots == [Slot(true, 1, init(1).mem), Slot(true, 0, init(0).mem)];
    assert CountInUse(r1.slots) == 2;
    LookupWhenFull(r1.slots, 2, init);
    assert r1.slots[..1] == [Slot(true, 1, init(1).mem)];
    assert r1.slots[..1][..0] == [];
    assert FreeCalls(r1.slots[..1]) == [(1, init(1).mem)];
  }

  // Properties of teardown ----------------------------------------------------

  /** Teardown calls free exactly once for every slot that holds memory, with
      that slot's client and memory, and never twice for one client. */
  lemma {:induction false} FreeCallsOncePerClient(s: seq<Slot>)
    requires WellFormed(s)
    ensures forall k :: 0 <= k < |s| && s[k].mem != NULL ==> (s[k].cid, s[k].mem) in FreeCalls(s)
    ensures forall e :: e in FreeCalls(s) ==> exists k :: 0 <= k < |s| && s[k] == Slot(true, e.0, e.1) && e.1 != NULL
    ensures forall i, j :: 0 <= i < j < |FreeCalls(s)| ==> FreeCalls(s)[i].0 != FreeCalls(s)[j].0
  {
    if |s| > 0 {
      var n := |s| - 1;
      var p := s[..n];
      assert WellFormed(p);
      FreeCallsOncePerClient(p);
      var last := s[n];
      if last.mem != NULL {
        forall e | e in FreeCalls(p)
          ensures e.0 != last.cid
        {
          var k :| 0 <= k < |p| && p[k] == Slot(true, e.0, e.1) && e.1 != NULL;
          assert s[k].inUse && s[n].inUse;
        }
        var l := FreeCalls(s);
        assert l == FreeCalls(p) + [(last.cid, last.mem)];
        forall i, j | 0 <= i < j < |l| ensures l[i].0 != l[j].0 {
          if j == |l| - 1 {
            assert l[i] in FreeCalls(p);
          }
        }
      } else {
        assert FreeCalls(s) == FreeCalls(p);
      }
    }
  }

  // Counting slots in use ------------------------------------------------------

  lemma {:induction false} CountInUseUpdate(s: seq<Slot>, i: nat, x: Slot)
    requires i < |s|
    ensures CountInUse(s[i := x]) == CountInUse(s) - (if s[i].inUse then 1 else 0) + (if x.inUse then 1 else 0)
  {
    var n := |s| - 1;
    if i < n {
      assert s[i := x][..n] == s[..n][i := x];
      CountInUseUpdate(s[..n], i, x);
    } else {
      assert s[i := x][..n] == s[..n];
    }
  }

  /** All slots are in use exactly when the count reaches the number of slots. */
  lemma {:induction false} CountInUseAllInUse(s: seq<Slot>)
    ensures CountInUse(s) == |s| <==> forall k :: 0 <= k < |s| ==> s[k].inUse
    ensures CountInUse(s) == |s| <==> LastFree(s) == INVALID_SLOT
  {
    if |s| > 0 {
      var n := |s| - 1;
      CountInUseAllInUse(s[..n]);
      if !s[n].inUse {
        assert CountInUse(s[..n]) <= n;
      }
    }
  }
}
