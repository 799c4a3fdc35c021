/** The conditional wrappers of the handle table: each either passes an
    earlier error through untouched or does the add or remove. They take the
    category id, as the multi-category table and its callers do. */
module HandleWrappers {
  import opened OsTypes
  import opened HandleTable

  /** HandleMgr_addOnSuccess. `handle` is the address of the handle, so that
      the value read is the one the earlier call produced; a NULL address is
      refused before `ret` is looked at. */
  method AddOnSuccess(mgr: HandleMgr?, id: nat, ret: OsError, handle: Option<Handle>) returns (err: OsError)
    requires mgr != null ==> mgr.Valid()
    modifies mgr, if mgr == null then {} else {mgr.store, mgr.sizes}
    ensures mgr != null ==> mgr.Valid()
    ensures handle.None? ==>
              err == ErrorInvalidParameter && (mgr != null ==> mgr.Contents == old(mgr.Contents))
    ensures handle.Some? && ret != Success ==>
              err == ret && (mgr != null ==> mgr.Contents == old(mgr.Contents))
    ensures handle.Some? && ret == Success && mgr == null ==> err == ErrorInvalidParameter
    ensures handle.Some? && ret == Success && mgr != null ==>
              && err == AddStep(old(mgr.Contents), mgr.capacity, id, handle.value).status
              && mgr.Contents == AddStep(old(mgr.Contents), mgr.capacity, id, handle.value).table
  {
    if handle.None? {
      return ErrorInvalidParameter;
    }
    if ret == Success {
      err := Add(mgr, id, handle.value);
    } else {
      err := ret;
    }
  }

  /** HandleMgr_removeOnSuccess. Unlike AddOnSuccess, an earlier error is
      passed through before anything else is checked, even for a NULL
      handle. */
  method RemoveOnSuccess(mgr: HandleMgr?, id: nat, ret: OsError, h: Handle) returns (err: OsError)
    requires mgr != null ==> mgr.Valid()
    modifies mgr, if mgr == null then {} else {mgr.store, mgr.sizes}
    ensures mgr != null ==> mgr.Valid()
    ensures ret != Success ==> err == ret && (mgr != null ==> mgr.Contents == old(mgr.Contents))
    ensures ret == Success && mgr == null ==> err == ErrorInvalidParameter
    ensures ret == Success && mgr != null ==>
              && err == RemoveStep(old(mgr.Contents), id, h).status
              && mgr.Contents == RemoveStep(old(mgr.Contents), id, h).table
  {
    if ret != Success {
      return ret;
    }
    err := Remove(mgr, id, h);
  }

  /** A caller that adds a handle with AddOnSuccess and checks the table,
      relying on the contracts alone. */
  method AddOnSuccessClient(h: Handle)
    requires h != NULL
  {
    var out := new Ptr<HandleMgr?>(null);
    var err := Init(out, 1, 4);
    var mgr := out.value;
    err := AddOnSuccess(mgr, 0, ErrorAborted, Some(h));
    assert err == ErrorAborted && mgr.Contents == [[]];
    err := AddOnSuccess(mgr, 0, Success, None);
    assert err == ErrorInvalidParameter && mgr.Contents == [[]];
    err := AddOnSuccess(mgr, 0, Success, Some(h));
    assert err == Success;
    var r := Validate(mgr, 0, h);
    assert r == h;
  }

  /** A caller that removes a handle with RemoveOnSuccess and checks the
      table, relying on the contracts alone. */
  method RemoveOnSuccessClient(h: Handle)
    requires h != NULL
  {
    var out := new Ptr<HandleMgr?>(null);
    var err := Init(out, 1, 4);
    var mgr := out.value;
    err := Add(mgr, 0, h);
    assert err == Success && |mgr.Contents| == 1 && mgr.Contents[0] == [h];
    assert mgr.Contents == [[h]];
    err := RemoveOnSuccess(mgr, 0, ErrorAborted, NULL);
    assert err == ErrorAborted && mgr.Contents == [[h]];
    err := RemoveOnSuccess(mgr, 0, Success, h);
    assert err == Success;
    var r := Validate(mgr, 0, h);
    assert r == NULL;
    err := Remove(mgr, 0, h);
    assert err == ErrorInvalidHandle;
  }
}
