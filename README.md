# Context registry and handle table

A Dafny model of two small server-side helpers of an seL4 component library:

- **The context registry** (`ContextMgr`). It keeps a fixed array of client slots. Each slot in use belongs to one client id (a `uint32`) and holds a memory reference.
  - `ContextMgr_init` checks its arguments and installs the caller's `init`/`free` callbacks and `max` zeroed slots, with `max` in the closed range 1..1024.
  - `ContextMgr_get` scans every slot. It returns the memory of the slot the client already owns. Otherwise it claims the highest-index unused slot and asks the `init` callback for the memory. A failing callback is reported, but the slot stays claimed.
  - `ContextMgr_free` hands every slot's memory to the `free` callback. It ignores what the callback reports and resets those slots.
- **The handle table** (`HandleMgr`). It keeps `num` categories. Each category is a vector of opaque non-null handles.
  - `HandleMgr_add` appends a handle to a category.
  - `HandleMgr_remove` finds the first occurrence and overwrites it with the last element, then pops the vector ("swap and pop").
  - `HandleMgr_validate` returns the handle when its category holds it, and NULL otherwise.
  - The inline wrappers `HandleMgr_addOnSuccess` and `HandleMgr_removeOnSuccess` do the add or remove only when an earlier status is `OS_SUCCESS`. Otherwise they pass that status through.

Files:

- `os_types.dfy` (module `OsTypes`): the status codes, an `Option` for read-only pointers that may be NULL, and a `Ptr` cell for out-pointers (`void**`, `HandleMgr_t**`).
- `context_mgr.dfy` (module `ContextRegistry`):
  - The registry is a `ContextMgr` class over an `array<Slot>`.
  - The callbacks are a `MemoryFuncs` object. Its NULL-able function pointers are `Option`s of Dafny functions. Its ghost logs `initCalls`/`freeCalls` record every call the registry makes, in order.
  - Each method is proved against a function on the slot sequence: `Lookup` for get, `Teardown`/`FreeCalls` for free. The lemmas state what those functions guarantee.
- `handle_mgr.dfy` (module `HandleTable`):
  - The manager is a `HandleMgr` class. It stores the vectors in an `array2<Handle>` (category × capacity) with an `array<nat>` of sizes, and abstracts them as the ghost `Contents: seq<seq<Handle>>`.
  - `Add`/`Remove`/`Validate` are proved against the value-level `AddStep`/`RemoveStep`/`Validated`, and the lemmas are stated about those.
- `handle_mgr_wrappers.dfy` (module `HandleWrappers`): the two conditional wrappers, plus two callers that use only the contracts.

Where the header documentation and the code disagree, the model follows the code:

- **Duplicate handles.** The header documents `OS_ERROR_OPERATION_DENIED` for a duplicated handle (`include/lib_server/HandleMgr.h:80`, `:120`), but `HandleMgr_add` never checks for one.
  - `AddStep` models the code: a duplicate is appended when there is room.
  - `DocumentedAddStep` is the documented behaviour.
  - `AddMatchesDocumentedUnlessDuplicate`, `DuplicateAddAccepted` and `RemoveAfterDuplicateAddStillValid` pin down the difference.
- **Category id.** The header declares the functions and wrappers without the category id and documents a buffer-based `HandleMgr_init`. `src/HandleMgr.c` and its callers take an id and allocate on the heap. The model uses the signatures of `src/HandleMgr.c`, and gives the wrappers the id the callers pass.

## Model

| member | source | states |
|---|---|---|
| ContextRegistry.FindOwner | src/ContextMgr.c:101-113 | the index of the first slot in use for the client id, with no earlier one; -1 exactly when no slot belongs to it |
| ContextRegistry.LastFree | src/ContextMgr.c:100-118 | the highest-index unused slot, with every later slot in use; INVALID_SLOT exactly when every slot is in use |
| ContextRegistry.Teardown | src/ContextMgr.c:64-78 | teardown keeps the slot count, leaves no slot holding memory, zeroes every slot whose memory it hands back, leaves a slot without memory (a failed init that stored nothing) as it was, and keeps the invariant |
| ContextRegistry.Init | src/ContextMgr.c:26-51 | ErrorInvalidParameter exactly when the registry, the callback struct or either callback is NULL, or max is outside 1..1024, and then nothing changes; otherwise Success, with the callbacks and max installed, max fresh zero slots, the invariant established and no callback called |
| ContextRegistry.Free | src/ContextMgr.c:53-83 | NULL registry gives ErrorInvalidParameter; otherwise Success whatever the callbacks report, the slots become Teardown of the old slots, free is called exactly in the order FreeCalls gives, init is not called, and the invariant is kept |
| ContextRegistry.Scan | src/ContextMgr.c:99-118 | the scan returns the first slot the client owns, and when there is none, the last unused slot it saw (the highest-index one) |
| ContextRegistry.Get | src/ContextMgr.c:85-142 | NULL registry or NULL ctx gives ErrorInvalidParameter with nothing changed; otherwise the status, the new slots, the value written through ctx and the init calls are those of Lookup, free is never called, and the invariant is kept |
| ContextRegistry.LookupOwnedClient | src/ContextMgr.c:101-112 | a client owning a slot gets that slot's memory with Success, the slots unchanged and no init call |
| ContextRegistry.LookupNewClient | src/ContextMgr.c:120-137 | a client owning no slot, when a slot is unused, claims the highest-index unused slot with its id and init's memory, leaves every other slot alone, calls init once and returns init's status; ctx is written only on Success |
| ContextRegistry.LookupWhenFull | src/ContextMgr.c:139-141 | when every slot is in use and none belongs to the client, Get reports ErrorInsufficientSpace, changes nothing and calls no callback |
| ContextRegistry.LookupPreservesWellFormed | src/ContextMgr.c:120-137 | Get keeps the invariant: unused slots are zero and no two slots in use share a client id |
| ContextRegistry.LookupClaimsAtMostOne | src/ContextMgr.c:121-137 | Get adds exactly one slot in use when it calls init and none otherwise, and never more than the slot count |
| ContextRegistry.RepeatedLookupReturnsSameMemory | test/src/Test_ContextMgr.cpp:124-138 | after a successful Get, a second Get for the same client returns the same memory, changes nothing and calls no callback, whatever init would now do |
| ContextRegistry.FailedInitIsNotRolledBack | src/ContextMgr.c:127-134 | a failing init reports its status and writes nothing to ctx, yet the slot stays claimed, and the next Get for that client reports Success with init's stored value and no further init call |
| ContextRegistry.TwoSlotScenario | test/src/Test_ContextMgr.cpp:145-162 | with two slots, clients 0 and 1 are served, client 2 gets ErrorInsufficientSpace with nothing changed, and teardown then calls free twice |
| ContextRegistry.FreeCallsOncePerClient | src/ContextMgr.c:64-78 | teardown calls free for every slot holding memory with that slot's client and memory, calls it for nothing else, and never twice for one client |
| ContextRegistry.CountInUseAllInUse | src/ContextMgr.c:100-121 | the slots in use number as many as the slots exactly when every slot is in use, and exactly when the scan finds no free slot (LastFree is INVALID_SLOT) |
| HandleTable.IndexOf | src/HandleMgr.c:20-36 | the first position of the handle in the vector; HANDLE_NOT_FOUND exactly when the vector does not hold it |
| HandleTable.Validated | src/HandleMgr.c:147-164 | the result is the handle or NULL, and it is non-NULL exactly when the category exists, the handle is not NULL and the category holds it |
| HandleTable.HandleMgr.ConstructVector | src/HandleMgr.c:63-70 | constructing vector i succeeds exactly when it can hold one handle, and then adds an empty category |
| HandleTable.HandleMgr.PushBack | src/HandleMgr.c:114-117 | the push succeeds exactly when the vector has room, and then appends the handle to that category alone |
| HandleTable.HandleMgr.GetBack | src/HandleMgr.c:141 | returns the last handle of the category |
| HandleTable.HandleMgr.ReplaceElementAt | src/HandleMgr.c:141 | overwrites one position of one category and nothing else |
| HandleTable.HandleMgr.PopBack | src/HandleMgr.c:142 | drops the last handle of one category and nothing else |
| HandleTable.HandleMgr.Find | src/HandleMgr.c:20-36 | the scan over the stored vector returns IndexOf of the category's contents |
| HandleTable.Init | src/HandleMgr.c:40-84 | ErrorInvalidParameter exactly when the out-pointer is NULL or num is 0; ErrorInsufficientSpace exactly when a vector cannot be constructed; both leave the out-pointer untouched; on Success a fresh valid manager with num empty categories is written through it |
| HandleTable.Free | src/HandleMgr.c:86-99 | ErrorInvalidParameter exactly for a NULL manager, Success otherwise |
| HandleTable.Add | src/HandleMgr.c:101-118 | NULL manager gives ErrorInvalidParameter; otherwise the status and new contents are those of AddStep and the invariant is kept |
| HandleTable.Remove | src/HandleMgr.c:120-145 | NULL manager gives ErrorInvalidParameter; otherwise the status and new contents are those of RemoveStep and the invariant is kept |
| HandleTable.Validate | src/HandleMgr.c:147-164 | changes nothing; NULL for a NULL manager, otherwise Validated of the contents |
| HandleTable.SwapRemoveDropsOne | src/HandleMgr.c:141-142 | swap and pop shortens the vector by one, loses exactly one occurrence of the removed element, moves the last element into its place and keeps every other position |
| HandleTable.AddAppends | src/HandleMgr.c:109-117 | add refuses exactly a bad category or NULL handle, reports ErrorInsufficientSpace exactly when the vector is full, changes nothing on failure, and on success appends the handle to its category alone, after which validate finds it |
| HandleTable.RemoveTakesOneOut | src/HandleMgr.c:129-144 | remove refuses exactly a bad category or NULL handle, reports ErrorInvalidHandle exactly when the handle is absent, changes nothing on failure, and on success takes exactly one occurrence out of its category alone |
| HandleTable.AddThenRemoveRestores | test/src/Test_HandleMgr.cpp:105-117 | adding a handle that is not yet in its category and removing it gives back the same table, and validate then answers NULL |
| HandleTable.StepsKeepNoNull | src/HandleMgr.c:109-112 | neither add nor remove ever puts NULL into any category |
| HandleTable.CapacityIsReusable | src/HandleMgr.c:114-117 | add into a full category reports ErrorInsufficientSpace with nothing changed, and after a successful remove the same add succeeds |
| HandleTable.DuplicateAddAccepted | src/HandleMgr.c:101-118 | adding a handle the category already holds succeeds when there is room, and the category then holds it at least twice |
| HandleTable.RemoveAfterDuplicateAddStillValid | src/HandleMgr.c:120-164 | after a duplicate add, one successful remove leaves the handle valid |
| HandleTable.AddMatchesDocumentedUnlessDuplicate | include/lib_server/HandleMgr.h:72-87 | the implemented add and the documented add (duplicates refused with ErrorOperationDenied) agree exactly on calls that are not duplicate adds |
| HandleWrappers.AddOnSuccess | include/lib_server/HandleMgr.h:89-133 | a NULL handle address gives ErrorInvalidParameter before ret is looked at; an earlier error is passed through with the table unchanged; otherwise it is Add of the handle read through the address |
| HandleWrappers.RemoveOnSuccess | include/lib_server/HandleMgr.h:151-176 | an earlier error is passed through first, with the table unchanged, even for a NULL manager or handle; otherwise it is Remove |

## Left out

- Allocation failure in `ContextMgr_init` is not modelled (`src/ContextMgr.c:44-48`). Neither is the partly written registry it leaves behind. Dafny allocation does not fail, so Init never returns ErrorInsufficientSpace.
- Allocation failure for the manager and its vector array in `HandleMgr_init` is not modelled (`src/HandleMgr.c:53-61`). Neither is the `free` of the partly built manager on its error paths.
- The `PointerVector` library is not part of this model:
  - It grows by reallocation. The model replaces this with a fixed per-category `capacity` given to `HandleTable.Init`.
  - A failing `PointerVector_ctor` becomes `capacity == 0`, and a failing `pushBack` becomes a full vector.
- The vectors that a failing `HandleMgr_init` had already constructed are left unfreed, as in the source. This leak is not visible in the model.
- HandleTable.Free only returns the status. Releasing the manager (`src/HandleMgr.c:95-96`) and the dangling pointer that remains afterwards are outside a garbage-collected model.
- ContextRegistry.Free: does not model `free(self->slots)` (`src/ContextMgr.c:80`). In the model the registry keeps its slot array and stays valid after teardown, so a later Get is defined; in the source that slot array is released and any later use of the registry reads freed memory.
- ContextRegistry.FailedInitIsNotRolledBack: the second Get that returns Success with a NULL memory does so only where the debug assertion on the owner's memory (`src/ContextMgr.c:108-109`) is compiled out; where it is compiled in, the source stops on that assertion instead. The model has no debug assertions.
- The callbacks are pure Dafny functions, modelled by their result and by what `init` stores through its `void**` argument. Nothing is modelled about the memory they allocate or release.
- `ContextMgr_init` copies the callback struct. The model shares the `MemoryFuncs` object instead; its callbacks cannot change, so only the ghost call logs notice the difference.
- The `Debug_ASSERT` and `Debug_LOG` calls in `src/ContextMgr.c` are not modelled (see the ContextRegistry.FailedInitIsNotRolledBack line for the one assertion that is not implied by the model's invariant).
- The buffer-based `HandleMgr_init` and `HandleMgr_SIZE_OF_BUFFER` declared in `include/lib_server/HandleMgr.h:27-57` have no implementation in `src/HandleMgr.c`. They are not modelled.
- Handles and memory references are naturals with 0 as NULL. Pointer identity is equality of these numbers, and the width of `size_t` is not modelled.
- The client id is a `uint32` (`0 <= cid < 2^32`).
- The test harness and its global counters are not modelled. The counters are the lengths of the ghost logs `initCalls` and `freeCalls`.
