# Resource registry of libplctag, modelled in Dafny

libplctag shares expensive, reference-counted resources (connections,
sessions) between callers through a process-wide registry keyed by name
(`src/util/resource.c`). The registry holds only a weak reference to each
resource: `resource_get` looks a name up and tries to promote the entry to a
strong reference, purging the entry when the promotion fails because the
resource is already dead; `resource_put` takes a weak reference and inserts
the entry; `resource_remove` deletes the entry and gives its weak reference
back. `resource_service_init` and `resource_service_teardown` create and
destroy the mutex and the hashtable. `resource_make_name_impl` builds keys by
concatenating C strings into one buffer.

The model has these modules:

- `Wrappers` (`wrappers.dfy`): `Option`, standing for a pointer that may be NULL.
- `PlcTag` (`status.dfy`): the status codes, as constructors.
- `CString` (`cstring.dfy`): C strings as NUL-free character sequences, and the
  two string helpers the file calls, `str_length` and `str_copy`.
- `RefCount` (`refcount.dfy`): the cells' `(strong, weak)` counters, the
  assumed contracts of `rc_inc`, `rc_weak_inc` and `rc_weak_dec` as functions,
  and the class `CellHeap` whose methods update the counters in place.
- `RegistrySpec` (`registry_spec.dfy`): the registry as a state machine on
  values. `State` holds the name table and all counters; `GetStep`, `PutStep`
  and `RemoveStep` are the three operations, each critical block being one
  atomic step. `WeakCovered` is the registry invariant: every entry names an
  allocated cell, and each cell's weak count is at least the number of
  entries that refer to it. The lemmas state what the source promises.
- `Resource` (`resource.dfy`): the class `ResourceService` with the globals
  `resource_mutex` and `resource_by_name` as fields and the five operations as
  methods. `Get`, `Put` and `Remove` keep `Valid()` and produce exactly the
  state and result of the corresponding step function. `Get` calls `Remove`
  for the purge, as the source does.
- `ResourceName` (`resource_name.dfy`): `MakeName`, the two-loop builder over an
  `array<char>`, proved against the functional specification `Concat`.

The outcomes of the collaborators whose code is not part of this model are
parameters: the status `hashtable_put` reports (`tablePut`), the status
`mutex_create` reports, whether `hashtable_create` returned a table, and
whether `mem_alloc` fails. The hashtable itself is a `map` from key to cell.

Behaviour of the code that the model keeps as written:

- `resource_put` takes its weak reference before it checks the name. A NULL
  name with a live resource therefore returns `PLCTAG_ERR_NULL_PTR` and leaves
  the resource's weak count raised by one (`PutNullNameKeepsWeak`).
- When `hashtable_put` fails, that weak reference is also kept (`PutTableFailure`).
- Inserting under a name that is already present keeps the weak reference the
  old entry held. Whether `hashtable_put` overwrites or refuses a duplicate
  is up to the hashtable, so it is left to the `tablePut` outcome.
- Teardown destroys the table without giving back the weak references of the
  entries still in it.

Where the design description and the code differ, the model follows the code:

- The code rejects only a NULL name; an empty name is an ordinary key.
- A NULL name or a dead resource passed to put returns `PLCTAG_ERR_NULL_PTR`,
  not a distinct invalid-argument status.
- A failed insertion returns whatever status `hashtable_put` reported.

## Model

| member | source | states |
|---|---|---|
| `CString.StrLength` | src/util/resource.c:168 | the result is the position of the first NUL in the buffer, or its length if there is none: every earlier character is non-NUL and the character there is NUL |
| `CString.StrLengthOfCStr` | src/util/resource.c:148 | the `str_length` of a fragment is its number of characters |
| `CString.StrLengthTerminated` | src/util/resource.c:168 | a buffer holding a string followed by NUL has that string's length as its `str_length` |
| `CString.StrCopy` | src/util/resource.c:169 | `str_copy` writes only the `size` characters from `offset` on, which receive the source and then NUL padding, cut at `size`; its requires is that this window lies inside the buffer |
| `RefCount.CellHeap.RcInc` | src/util/resource.c:58 | promotion succeeds exactly when the pointer is non-NULL and the strong count is positive; it then returns the same cell and raises only that cell's strong count by one, and on failure nothing changes |
| `RefCount.CellHeap.RcWeakInc` | src/util/resource.c:78 | weak increment succeeds exactly when the pointer is non-NULL and the strong count is positive; it then returns the same cell and raises only that cell's weak count by one, and on failure nothing changes |
| `RefCount.CellHeap.RcWeakDec` | src/util/resource.c:129 | a NULL pointer changes nothing; otherwise only that cell's weak count drops by one, which requires the caller to hold a weak reference |
| `RegistrySpec.GetKeepsCovered` | src/util/resource.c:54-65 | get, including the purge by remove, keeps the invariant that weak counts cover the table's entries |
| `RegistrySpec.PutKeepsCovered` | src/util/resource.c:78-102 | put keeps that invariant on every outcome: rejection, refused insertion, insertion and overwrite |
| `RegistrySpec.RemoveKeepsCovered` | src/util/resource.c:124-131 | remove keeps that invariant; the removed entry's weak reference is one the cell's weak count covers |
| `RegistrySpec.GetNullName` | src/util/resource.c:45-48 | get of a NULL name returns NULL and changes neither the table nor any counter |
| `RegistrySpec.GetMiss` | src/util/resource.c:54-67 | get of a name not in the table returns NULL and changes neither the table nor any counter |
| `RegistrySpec.GetLiveHit` | src/util/resource.c:55-59 | get of a name whose cell is live returns that cell, raises its strong count by exactly one, changes no other counter and leaves the table as it was |
| `RegistrySpec.GetStalePurges` | src/util/resource.c:56-65 | get of a name whose cell has strong count zero returns NULL, deletes exactly that name from the table and lowers that cell's weak count by one, which was at least one |
| `RegistrySpec.GetReturnsLive` | src/util/resource.c:54-69 | whatever get returns is the cell registered under the name, was live before the call, and gained exactly one strong claim |
| `RegistrySpec.PutDeadRejected` | src/util/resource.c:78-90 | put of a NULL or dead resource returns `PLCTAG_ERR_NULL_PTR` and changes neither the table nor any counter, whatever the name |
| `RegistrySpec.PutNullNameKeepsWeak` | src/util/resource.c:78-85 | put with a NULL name and a live resource returns `PLCTAG_ERR_NULL_PTR`, leaves the table alone, and leaves that resource's weak count raised by one |
| `RegistrySpec.PutInserts` | src/util/resource.c:94-106 | put of a live resource under a name, with the table accepting it, returns OK, maps the name to the resource and raises only its weak count by one |
| `RegistrySpec.PutTableFailure` | src/util/resource.c:96-106 | when `hashtable_put` reports a failure, put returns that status, the table is unchanged and the resource's weak count stays raised by one |
| `RegistrySpec.RemoveNullName` | src/util/resource.c:115-118 | remove of a NULL name returns `PLCTAG_ERR_NULL_PTR` and changes nothing |
| `RegistrySpec.RemovePresent` | src/util/resource.c:124-131 | remove of a present name returns OK, deletes only that key, and lowers that cell's weak count exactly once; the count was at least one |
| `RegistrySpec.RemoveAbsent` | src/util/resource.c:124-131 | remove of an absent name returns `PLCTAG_ERR_NOT_FOUND` and changes no entry and no counter |
| `RegistrySpec.PutThenGet` | src/util/resource.c:39-106 | after a successful put of a live resource, get of the same name returns that resource, raises its strong count by exactly one, changes no other counter and keeps the entry |
| `RegistrySpec.PutRemoveThenGet` | src/util/resource.c:39-131 | after put and then remove of the same name, the remove returns OK, the resource's counters are back to their values before the put, and get returns NULL without changing anything |
| `RegistrySpec.StaleThenPut` | src/util/resource.c:39-106 | if a registered resource died before the get, the get returns NULL and purges the name; a following put of a live replacement succeeds and the name then maps to the replacement with every other entry as before |
| `RegistrySpec.RemoveIdempotent` | src/util/resource.c:110-131 | a second remove of the same name returns `PLCTAG_ERR_NOT_FOUND` and changes nothing |
| `Resource.ResourceService.constructor` | src/util/resource.c:30-31 | before init, neither the mutex nor the table exists |
| `Resource.ResourceService.Get` | src/util/resource.c:39-70 | keeps `Valid()`; the new table, the new counters and the result are exactly those `GetStep` gives for the old state |
| `Resource.ResourceService.Put` | src/util/resource.c:74-107 | keeps `Valid()`; the new table, the new counters and the status are exactly those `PutStep` gives for the old state and the hashtable's outcome |
| `Resource.ResourceService.Remove` | src/util/resource.c:110-132 | keeps `Valid()`; the new table, the new counters and the status are exactly those `RemoveStep` gives for the old state |
| `Resource.ResourceService.ServiceInit` | src/util/resource.c:211-237 | a failed mutex creation returns its status and leaves both globals as they were; a failed table creation destroys the mutex, leaves no table and returns `PLCTAG_ERR_CREATE`; otherwise it returns OK with an empty table and a valid registry; no counter changes |
| `Resource.ResourceService.ServiceTeardown` | src/util/resource.c:240-257 | the table and the mutex no longer exist, and every cell's counters are unchanged: the remaining entries' weak references are not given back |
| `ResourceName.ConcatLength` | src/util/resource.c:143-154 | the sum of the lengths of the non-null fragments, which the first loop computes, is the length of the key |
| `ResourceName.ConcatAppend` | src/util/resource.c:165-171 | the key of two argument lists in a row is the concatenation of their keys |
| `ResourceName.ConcatAllNull` | src/util/resource.c:143-174 | with no arguments, or only NULL ones, the key is empty |
| `ResourceName.ConcatExample` | src/util/resource.c:165-171 | the fragments "a", NULL, "b" give "ab"; no fragments give the empty key |
| `ResourceName.MakeName` | src/util/resource.c:136-175 | returns NULL exactly when allocation fails; otherwise a new buffer of the sum of the fragment lengths plus one, holding the non-null fragments in call order followed by NUL, with every `str_copy` inside the buffer |

## Left out

- Concurrency: `mutex_create`, `mutex_destroy` and `critical_block` are not modelled beyond whether the mutex exists; each critical block is one atomic step, and interleavings between the two blocks of `resource_get`, as well as the multi-threaded stress scenario, are not modelled.
- The hashtable (`util/hashtable.h`) is an abstract map. Its internals, its sizing hint of 200 buckets, whether it copies keys, and what it does with a duplicate key are not modelled; insertion succeeds or fails according to the `tablePut` parameter.
- The reference counter (`util/refcount.h`): destructors, atomicity and memory reclamation are not modelled. A cell never leaves the counter map, and callers must pass a NULL pointer or one to an allocated cell.
- Logging through `pdebug` and the call to `plc_tag_decode_error` have no effect on the state and are left out.
- `mem_alloc` is an allocation that may fail; whether it zeroes the buffer is not modelled, and no claim depends on it.
- `str_length` and `str_copy` come from platform code that is not part of this model; `str_copy` is modelled on `strncpy` (copy, then NUL padding up to the given size).
- The numeric values of the status codes (lib/libplctag.h is not part of this model).
- The commented-out `resource_data_cleanup` and the commented-out drain in teardown.
- `Resource.ResourceService.Get`, `Put` and `Remove` require an initialised registry; what the source does with a NULL table or mutex is decided by the hashtable and mutex code, which is not part of this model.
- `Resource.ResourceService.ServiceTeardown`: after `hashtable_destroy` the C global still holds the freed pointer; the model records the table as gone.
- `Resource.ResourceService.ServiceInit`: mutex_create is assumed to leave the mutex global unchanged when it fails; on a second initialisation the earlier mutex and table are replaced without being destroyed, and that leak is not modelled.
- `ResourceName.MakeName`: `total_length` is a C `int`; overflow for keys longer than 2^31 - 2 characters is not modelled, and `num_args` is the length of the sequence, so a negative count is not modelled.
- Names and fragments are C strings: the model sees only the characters before the terminating NUL, which are what `str_length` measures.
