/** The multi-category handle table: `num` categories, each an ordered
    vector of opaque non-null handles. Handles are appended on add, removed by
    swap-and-pop, and looked up by identity. */
module HandleTable {
  import opened OsTypes

  /** An opaque handle (a `void*`); 0 stands for NULL. */
  type Handle = nat
  const NULL: Handle := 0

  /** What find returns when the handle is not in the vector ((size_t) -1). */
  const HANDLE_NOT_FOUND: int := -1

  /** The contents of all categories, category id first. */
  type Table = seq<seq<Handle>>

  predicate NoNull(t: Table)
  {
    forall i :: 0 <= i < |t| ==> NULL !in t[i]
  }

  // The table as values ------------------------------------------------------

  /** The first position of h in v, or HANDLE_NOT_FOUND. */
  function IndexOf(v: seq<Handle>, h: Handle): (r: int)
    ensures -1 <= r < |v|
    ensures r == HANDLE_NOT_FOUND <==> h !in v
    ensures r >= 0 ==> v[r] == h && h !in v[..r]
  {
    if |v| == 0 then HANDLE_NOT_FOUND
    else if v[0] == h then 0
    else
      var r := IndexOf(v[1..], h);
      assert r >= 0 ==> v[1..][..r] == v[1..r + 1];
      if r == HANDLE_NOT_FOUND then HANDLE_NOT_FOUND else r + 1
  }

  /** Swap-and-pop: the last element overwrites position i, then the
      vector shrinks by one. */
  function SwapRemove(v: seq<Handle>, i: nat): seq<Handle>
    requires i < |v|
  {
    v[i := v[|v| - 1]][..|v| - 1]
  }

  /** The status and new contents of one call. */
  datatype Outcome = Outcome(status: OsError, table: Table)

  /** HandleMgr_add on a manager holding t, whose vectors cannot grow past
      `capacity` handles. No duplicate check is made. */
  function AddStep(t: Table, capacity: nat, id: nat, h: Handle): Outcome
  {
    if id >= |t| || h == NULL then Outcome(ErrorInvalidParameter, t)
    else if |t[id]| < capacity then Outcome(Success, t[id := t[id] + [h]])
    else Outcome(ErrorInsufficientSpace, t)
  }

  /** HandleMgr_remove on a manager holding t. */
  function RemoveStep(t: Table, id: nat, h: Handle): Outcome
  {
    if id >= |t| || h == NULL then Outcome(ErrorInvalidParameter, t)
    else
      var idx := IndexOf(t[id], h);
      if idx == HANDLE_NOT_FOUND then Outcome(ErrorInvalidHandle, t)
      else Outcome(Success, t[id := SwapRemove(t[id], idx)])
  }

  /** HandleMgr_validate on a manager holding t: the handle itself when it
      is in category id, NULL for everything else. */
  function Validated(t: Table, id: nat, h: Handle): (r: Handle)
    ensures r == h || r == NULL
    ensures r != NULL <==> id < |t| && h != NULL && h in t[id]
  {
    if id >= |t| then NULL
    else if h == NULL then NULL
    else if IndexOf(t[id], h) != HANDLE_NOT_FOUND then h
    else NULL
  }

  /** The add that the header documents: a handle already in the category
      is refused with ErrorOperationDenied. The implementation does not do
      this (see AddMatchesDocumentedUnlessDuplicate). */
  function DocumentedAddStep(t: Table, capacity: nat, id: nat, h: Handle): Outcome
  {
    if id >= |t| || h == NULL then Outcome(ErrorInvalidParameter, t)
    else if h in t[id] then Outcome(ErrorOperationDenied, t)
    else AddStep(t, capacity, id, h)
  }

  // The table in place ---------------------------------------------------------

  /** HandleMgr_t. Category i is a vector whose elements are
      store[i, 0 .. sizes[i]] and whose capacity is store.Length1. */
  class HandleMgr {
    const num: nat
    const capacity: nat
    const store: array2<Handle>
    const sizes: array<nat>
    ghost var Contents: Table

    ghost predicate Valid()
      reads this, store, sizes
    {
      && store.Length0 == num && store.Length1 == capacity && sizes.Length == num
      && |Contents| == num
      && (forall i :: 0 <= i < num ==> sizes[i] == |Contents[i]| <= capacity)
      && (forall i, j :: 0 <= i < num && 0 <= j < sizes[i] ==> store[i, j] == Contents[i][j])
      && NoNull(Contents)
    }

    /** The calloc of the manager and its vector array: no vector is
        constructed yet. */
    constructor (num: nat, capacity: nat)
      ensures this.num == num && this.capacity == capacity && Contents == []
      ensures store.Length0 == num && store.Length1 == capacity && sizes.Length == num
      ensures fresh(store) && fresh(sizes)
    {
      this.num := num;
      this.capacity := capacity;
      store := new Handle[num, capacity];
      sizes := new nat[num];
      Contents := [];
    }

    /** PointerVector_ctor for vector i with room for one handle: fails when
        not even one handle fits. */
    method ConstructVector(i: nat) returns (ok: bool)
      requires i == |Contents| < num
      requires store.Length0 == num && store.Length1 == capacity && sizes.Length == num
      modifies this, sizes
      ensures ok == (capacity >= 1)
      ensures Contents == if ok then old(Contents) + [[]] else old(Contents)
      ensures ok ==> sizes[..] == old(sizes[..])[i := 0]
      ensures !ok ==> unchanged(sizes)
    {
      if capacity < 1 {
        return false;
      }
      sizes[i] := 0;
      Contents := Contents + [[]];
      return true;
    }

    /** PointerVector_pushBack: fails when the vector cannot grow. */
    method PushBack(id: nat, h: Handle) returns (ok: bool)
      requires Valid() && id < num && h != NULL
      modifies this, store, sizes
      ensures Valid()
      ensures ok == (|old(Contents[id])| < capacity)
      ensures Contents == if ok then old(Contents)[id := old(Contents[id]) + [h]] else old(Contents)
    {
      if sizes[id] == capacity {
        return false;
      }
      store[id, sizes[id]] := h;
      sizes[id] := sizes[id] + 1;
      Contents := Contents[id := Contents[id] + [h]];
      return true;
    }

    /** PointerVector_getBack. */
    method GetBack(id: nat) returns (h: Handle)
      requires Valid() && id < num && Contents[id] != []
      ensures h == Contents[id][|Contents[id]| - 1]
    {
      h := store[id, sizes[id] - 1];
    }

    /** PointerVector_replaceElementAt with a non-null handle. */
    method ReplaceElementAt(id: nat, idx: nat, h: Handle)
      requires Valid() && id < num && idx < |Contents[id]| && h != NULL
      modifies this, store
      ensures Valid()
      ensures var row: seq<Handle> := old(Contents[id])[idx := h];
              Contents == old(Contents)[id := row]
    {
      store[id, idx] := h;
      var row: seq<Handle> := Contents[id][idx := h];
      Contents := Contents[id := row];
    }

    /** PointerVector_popBack. */
    method PopBack(id: nat)
      requires Valid() && id < num && Contents[id] != []
      modifies this, sizes
      ensures Valid()
      ensures Contents == old(Contents)[id := old(Contents[id])[..|old(Contents[id])| - 1]]
    {
      sizes[id] := sizes[id] - 1;
      Contents := Contents[id := Contents[id][..sizes[id]]];
    }

    /** find: scans category id from the front for h. */
    method Find(id: nat, h: Handle) returns (idx: int)
      requires Valid() && id < num
      ensures idx == IndexOf(Contents[id], h)
    {
      var v := Contents[id];
      var sz := sizes[id];
      var i := 0;
      while i < sz
        invariant 0 <= i <= sz
        invariant h !in v[..i]
      {
        if h == store[id, i] {
          assert v[i] == h;
          return i;
        }
        assert v[..i + 1] == v[..i] + [v[i]];
        i := i + 1;
      }
      assert v[..i] == v;
      return HANDLE_NOT_FOUND;
    }
  }

  /** HandleMgr_init: refuses a NULL out-pointer or zero categories, then
      constructs `num` empty vectors, each able to hold `capacity` handles,
      and hands the manager out through `mgr`. */
  method Init(mgr: Ptr?<HandleMgr?>, num: nat, capacity: nat) returns (err: OsError)
    modifies mgr
    ensures err in {Success, ErrorInvalidParameter, ErrorInsufficientSpace}
    ensures err == ErrorInvalidParameter <==> mgr == null || num == 0
    ensures err == ErrorInsufficientSpace <==> mgr != null && num > 0 && capacity == 0
    ensures err != Success && mgr != null ==> mgr.value == old(mgr.value)
    ensures err == Success ==>
              && mgr.value != null && fresh(mgr.value) && mgr.value.Valid()
              && fresh(mgr.value.store) && fresh(mgr.value.sizes)
              && mgr.value.num == num && mgr.value.capacity == capacity
              && |mgr.value.Contents| == num
              && forall i :: 0 <= i < num ==> mgr.value.Contents[i] == []
  {
    if mgr == null || num == 0 {
      return ErrorInvalidParameter;
    }
    var self := new HandleMgr(num, capacity);
    var i := 0;
    while i < num
      invariant 0 <= i <= num && (i > 0 ==> capacity >= 1)
      invariant fresh(self) && fresh(self.store) && fresh(self.sizes)
      invariant mgr.value == old(mgr.value)
      invariant self.num == num && self.capacity == capacity
      invariant self.store.Length0 == num && self.store.Length1 == capacity && self.sizes.Length == num
      invariant |self.Contents| == i
      invariant forall k :: 0 <= k < i ==> self.sizes[k] == 0 && self.Contents[k] == []
    {
      var ok := self.ConstructVector(i);
      if !ok {
        return ErrorInsufficientSpace;
      }
      i := i + 1;
    }
    mgr.value := self;
    return Success;
  }

  /** HandleMgr_free: refuses a NULL manager and otherwise releases it; it
      looks at nothing else, so it cannot fail on a valid manager. */
  method Free(mgr: HandleMgr?) returns (err: OsError)
    ensures err == ErrorInvalidParameter <==> mgr == null
    ensures err == Success <==> mgr != null
  {
    if mgr == null {
      return ErrorInvalidParameter;
    }
    return Success;
  }

  /** HandleMgr_add: refuses a NULL manager, an unknown category or a NULL
      handle, and otherwise pushes the handle onto the category's vector. */
  method Add(mgr: HandleMgr?, id: nat, h: Handle) returns (err: OsError)
    requires mgr != null ==> mgr.Valid()
    modifies mgr, if mgr == null then {} else {mgr.store, mgr.sizes}
    ensures mgr == null ==> err == ErrorInvalidParameter
    ensures mgr != null ==>
              && mgr.Valid()
              && err == AddStep(old(mgr.Contents), mgr.capacity, id, h).status
              && mgr.Contents == AddStep(old(mgr.Contents), mgr.capacity, id, h).table
  {
    if mgr == null || id >= mgr.num || h == NULL {
      return ErrorInvalidParameter;
    }
    var ok := mgr.PushBack(id, h);
    return if ok then Success else ErrorInsufficientSpace;
  }

  /** HandleMgr_remove: refuses a NULL manager, an unknown category or a NULL
      handle, reports a handle that is not in the category, and otherwise
      overwrites the first occurrence with the last element and pops. */
  method Remove(mgr: HandleMgr?, id: nat, h: Handle) returns (err: OsError)
    requires mgr != null ==> mgr.Valid()
    modifies mgr, if mgr == null then {} else {mgr.store, mgr.sizes}
    ensures mgr == null ==> err == ErrorInvalidParameter
    ensures mgr != null ==>
              && mgr.Valid()
              && err == RemoveStep(old(mgr.Contents), id, h).status
              && mgr.Contents == RemoveStep(old(mgr.Contents), id, h).table
  {
    if mgr == null || id >= mgr.num || h == NULL {
      return ErrorInvalidParameter;
    }
    var idx := mgr.Find(id, h);
    if idx == HANDLE_NOT_FOUND {
      return ErrorInvalidHandle;
    }
    var last := mgr.GetBack(id);
    mgr.ReplaceElementAt(id, idx, last);
    mgr.PopBack(id);
    return Success;
  }

  /** HandleMgr_validate: never changes anything and never fails. */
  method Validate(mgr: HandleMgr?, id: nat, h: Handle) returns (r: Handle)
    requires mgr != null ==> mgr.Valid()
    ensures r == (if mgr == null then NULL else Validated(mgr.Contents, id, h))
  {
    if mgr == null || id >= mgr.num {
      return NULL;
    }
    if h == NULL {
      return NULL;
    }
    var idx := mgr.Find(id, h);
    return if idx != HANDLE_NOT_FOUND then h else NULL;
  }

  // Properties ------------------------------------------------------------------

  /** Swap-and-pop loses exactly one occurrence of v[i]; the last element
      moves into position i and every other position keeps its element. */
  lemma SwapRemoveDropsOne(v: seq<Handle>, i: nat)
    requires i < |v|
    ensures |SwapRemove(v, i)| == |v| - 1
    ensures multiset(SwapRemove(v, i)) == multiset(v) - multiset{v[i]}
    ensures i < |v| - 1 ==> SwapRemove(v, i)[i] == v[|v| - 1]
    ensures forall k :: 0 <= k < |v| - 1 && k != i ==> SwapRemove(v, i)[k] == v[k]
  {
    var n := |v| - 1;
    var r := SwapRemove(v, i);
    assert multiset(r) == multiset(v) - multiset{v[i]} by {
      if i == n {
        assert v == r + [v[n]];
      } else {
        var front, back := v[..i], v[i + 1..n];
        assert r == front + [v[n]] + back;
        assert v == front + [v[i]] + back + [v[n]];
      }
    }
  }

  /** What a call to add does: refuses bad arguments, reports a full vector,
      and otherwise appends the handle to its category alone, after which
      validate finds it. */
  lemma AddAppends(t: Table, capacity: nat, id: nat, h: Handle)
    ensures var r := AddStep(t, capacity, id, h);
            && (r.status == ErrorInvalidParameter <==> id >= |t| || h == NULL)
            && (r.status == ErrorInsufficientSpace <==> id < |t| && h != NULL && |t[id]| >= capacity)
            && (r.status == Success <==> id < |t| && h != NULL && |t[id]| < capacity)
            && (r.status != Success ==> r.table == t)
            && (r.status == Success ==>
                  && |r.table| == |t| && r.table[id] == t[id] + [h]
                  && (forall j :: 0 <= j < |t| && j != id ==> r.table[j] == t[j])
                  && Validated(r.table, id, h) == h)
  {
  }

  /** What a call to remove does: refuses bad arguments, reports an absent
      handle with the table unchanged, and otherwise takes exactly one
      occurrence of the handle out of its category alone. */
  lemma RemoveTakesOneOut(t: Table, id: nat, h: Handle)
    ensures var r := RemoveStep(t, id, h);
            && (r.status == ErrorInvalidParameter <==> id >= |t| || h == NULL)
            && (r.status == ErrorInvalidHandle <==> id < |t| && h != NULL && h !in t[id])
            && (r.status == Success <==> id < |t| && h != NULL && h in t[id])
            && (r.status != Success ==> r.table == t)
            && (r.status == Success ==>
                  && |r.table| == |t| && |r.table[id]| == |t[id]| - 1
                  && multiset(r.table[id]) == multiset(t[id]) - multiset{h}
                  && (forall j :: 0 <= j < |t| && j != id ==> r.table[j] == t[j]))
  {
    if id < |t| && h != NULL && h in t[id] {
      SwapRemoveDropsOne(t[id], IndexOf(t[id], h));
    }
  }

  /** Adding a handle that is not yet in its category and then removing it
      gives back the table exactly, and validate then answers NULL. */
  lemma AddThenRemoveRestores(t: Table, capacity: nat, id: nat, h: Handle)
    requires id < |t| && h != NULL && h !in t[id] && |t[id]| < capacity
    ensures var added := AddStep(t, capacity, id, h);
            && added.status == Success
            && RemoveStep(added.table, id, h) == Outcome(Success, t)
            && Validated(RemoveStep(added.table, id, h).table, id, h) == NULL
  {
    var v := t[id] + [h];
    assert IndexOf(v, h) == |t[id]| by {
      assert v[..|t[id]|] == t[id];
    }
    assert SwapRemove(v, |t[id]|) == t[id];
    assert t[id := v][id := t[id]] == t;
  }

  /** Neither add nor remove ever puts NULL into the table. */
  lemma StepsKeepNoNull(t: Table, capacity: nat, id: nat, h: Handle)
    requires NoNull(t)
    ensures NoNull(AddStep(t, capacity, id, h).table)
    ensures NoNull(RemoveStep(t, id, h).table)
  {
    var r := RemoveStep(t, id, h);
    if r.status == Success {
      var idx := IndexOf(t[id], h);
      SwapRemoveDropsOne(t[id], idx);
      assert NULL !in multiset(t[id]);
      assert NULL !in r.table[id] by {
        assert multiset(r.table[id]) <= multiset(t[id]);
      }
    }
  }

  /** Once a category is full, add reports ErrorInsufficientSpace; removing
      any handle in it makes room for one more add. */
  lemma CapacityIsReusable(t: Table, capacity: nat, id: nat, h: Handle, g: Handle)
    requires id < |t| && |t[id]| == capacity && h in t[id] && h != NULL && g != NULL
    ensures AddStep(t, capacity, id, g) == Outcome(ErrorInsufficientSpace, t)
    ensures var removed := RemoveStep(t, id, h);
            && removed.status == Success
            && AddStep(removed.table, capacity, id, g).status == Success
  {
    RemoveTakesOneOut(t, id, h);
  }

  /** The implementation accepts a duplicate: adding a handle its category
      already holds succeeds when there is room, and the category then holds
      it twice or more. */
  lemma DuplicateAddAccepted(t: Table, capacity: nat, id: nat, h: Handle)
    requires id < |t| && h != NULL && h in t[id] && |t[id]| < capacity
    ensures var r := AddStep(t, capacity, id, h);
            && r.status == Success
            && multiset(r.table[id])[h] == multiset(t[id])[h] + 1 >= 2
  {
  }

  /** After a duplicate add, one remove is not enough: validate still finds
      the handle. */
  lemma RemoveAfterDuplicateAddStillValid(t: Table, capacity: nat, id: nat, h: Handle)
    requires id < |t| && h != NULL && h in t[id] && |t[id]| < capacity
    ensures var added := AddStep(t, capacity, id, h);
            var removed := RemoveStep(added.table, id, h);
            removed.status == Success && Validated(removed.table, id, h) == h
  {
    var added := AddStep(t, capacity, id, h);
    RemoveTakesOneOut(added.table, id, h);
    var removed := RemoveStep(added.table, id, h);
    assert multiset(removed.table[id])[h] >= 1;
  }

  /** The implemented add agrees with the documented one exactly when the
      call is not a duplicate add. */
  lemma AddMatchesDocumentedUnlessDuplicate(t: Table, capacity: nat, id: nat, h: Handle)
    ensures (AddStep(t, capacity, id, h) == DocumentedAddStep(t, capacity, id, h))
              <==> !(id < |t| && h != NULL && h in t[id])
  {
  }
}
