# tackle, modelled in Dafny

tackle is a small C library for interposing C functions at run time. A client
creates a `Tackle` record for a symbol, for example `fopen`, together with the
address of a replacement. The library finds the symbol's original address
through `dlsym` and keeps the record in a global list, `FullTackleList`. It
then hooks and unhooks the symbol through fishhook's `rebind_symbols`. A
replacement can reach the real function through
`TackleGetOriginalPointerForFunctionNamed`.

This project models `tackle.c` and the record declared in `tackle.h`, and
proves properties of that model.

- `Base` holds addresses (`Addr`, a `nat` in which 0 is NULL) and `Option`.
  A C string that may be NULL is an `Option<string>`.
- `Seqs` holds small facts about sequences.
- `Linker` models the two foreign calls as oracles.
  - `Dlsym` is a lookup in the process's export table.
  - `DynamicLinker.RebindSymbols` answers the status its caller passes in.
    A successful call installs an override in the map `rebound`.
  - `Resolve` says where a call through a symbol lands: the most recent
    override, otherwise the exported address.
- `Lifecycle` is the record's life as a pure state machine:
  - `Fill`, `Hook`, `Unhook` and the corrected `UnhookCorrected`;
  - `Created` and `CreatedInitialised`;
  - runs of calls (`Run`) over a record together with the overrides
    (`World`);
  - the invariant `Agrees`: the hooked flag is true exactly when calls
    through the name reach the replacement.
- `Tackles` has the `Tackle` class with its fields updated in place.
  - `TackleFill`, `TackleHook` and `TackleUnhook` are each proved to do
    exactly what the matching `Lifecycle` function describes.
  - The getters read the record's fields.
- `TackleLists` is the hand-written doubly-linked list.
  - The ghost sequences `Nodes` and `Tackles` give the contents from head to
    tail.
  - `Valid()` ties `head`, `tail`, every `nextNode`/`previousNode` link and
    `nodeCount` to those sequences.
  - The walks and the pointer surgery are methods with loops and narrow
    frames.
- `Registry` has the process (`Process`), which holds the lazily created
  global list. It covers lookup by name, record creation and the by-name
  trampoline.

Every foreign answer is a parameter:

- the export table is given when the `DynamicLinker` is constructed;
- the status `rebind_symbols` returns is an argument of `TackleHook` and
  `TackleUnhook`;
- the bytes a fresh `malloc` leaves in the two fields `TackleCreate` never
  writes are arguments of `TackleCreate`.

`TackleUnhook` does not resolve the original address before unbinding. The
header calls unhooking the undoing of interposition. The model follows the
code: `Lifecycle.Unhook` keeps `original` as it is.

Duplicate names are allowed: nothing in `TackleCreate` rejects a second
record for a name that is already registered. `TackleByName` returns the
first one in insertion order (`Registry.FirstRegistrationWins`).

## Model

| member | source | states |
|---|---|---|
| Linker.Rebound | tackle.c:473-477 | After one `rebind_symbols` call, only a successful call (status 0) for a named symbol changes where calls land, and then only for that symbol, which now lands on the requested address. |
| Linker.DynamicLinker.constructor | tackle.c:408 | A process with a fixed export table and no overrides installed. |
| Linker.DynamicLinker.RebindSymbols | tackle.c:473 | The call returns the facility's status, is recorded in the request log, and updates the overrides as `Rebound` describes. |
| Lifecycle.Fill | tackle.c:394-410 | Only `original` can change. Nothing changes for a record that has no name or is already resolved. An unresolved named record gets the dlsym answer for its name. |
| Lifecycle.Hook | tackle.c:450-480 | Name, replacement and the resolved original are kept. Success implies hooked. A rebinding request is made exactly when both addresses are known after filling and the record is not hooked; it is (name, replacement), the status becomes that call's result, and the result and the flag are both "status == 0". A missing address gives false with the placeholder status. An already-hooked record gives true and is left as filled. |
| Lifecycle.Unhook | tackle.c:482-510 | As written. There is no filling, and `original` is kept. A request (name, original) is made exactly when both addresses are known and the record is hooked; the status becomes its result and the flag becomes "status == 0". A missing address gives false with the placeholder; a record that is not hooked gives true and is unchanged. |
| Lifecycle.UnhookCorrected | tackle.c:482-510 | Like `Unhook`, except that the flag becomes "status != 0", so success implies not hooked. |
| Lifecycle.Created | tackle.c:366-383 | A record made by `TackleCreate` for a name has that name and replacement, the dlsym answer as its original, and status and flag equal to what the allocation held. |
| Lifecycle.CreatedInitialised | tackle.c:366-383 | The intended creation: the same name, replacement and resolved original, with status 0 and not hooked. |
| Lifecycle.FillIdempotent | tackle.c:394-410 | Filling twice is the same as filling once. |
| Lifecycle.HookTwice | tackle.c:450-480 | A second hook right after a first makes a rebinding request only when the first one made a failed request. After a successful hook, the second succeeds without a request and changes nothing. |
| Lifecycle.UnhookCorrectedTwice | tackle.c:482-510 | With the corrected unhook, two unhooks in a row behave as `HookTwice` describes for hooks. |
| Lifecycle.UnhookAsWrittenLeavesFlagSet | tackle.c:503-507 | As written, a successful unhook of a hooked record leaves the flag set. A second unhook then makes another request, and a hook reports success without making one. |
| Lifecycle.HookUnhookRestoresResolution | tackle.c:450-510 | A successful hook followed by a successful unhook restores, for every symbol, where calls land, under either unhook rule. |
| Lifecycle.RunKeepsIdentity | tackle.c:394-510 | No sequence of fill, hook and unhook calls changes a record's name or replacement. |
| Lifecycle.RunResolvesAtMostOnce | tackle.c:403-406 | Over any run, `original` either keeps its starting value or goes from NULL to the dlsym answer once. |
| Lifecycle.StepCorrectedAgrees | tackle.c:450-510 | One fill, hook or corrected unhook keeps the flag in agreement with where calls through the name land. |
| Lifecycle.CorrectedRunAgrees | tackle.c:450-510 | Every run with the corrected unhook keeps that agreement. |
| Lifecycle.InitialisedCreateAgrees | tackle.c:366-383 | A record created with its fields initialised, in a process with nothing rebound, keeps the agreement over every corrected run. |
| Lifecycle.AsWrittenUnhookBreaksAgreement | tackle.c:507 | Counterexample for the code as written. For a record of `fopen`, a successful hook and unhook leave the record claiming to be hooked while calls reach the real `fopen`. A following hook then reports hooked and rebinds nothing. |
| Lifecycle.GarbageFlagSkipsFirstHook | tackle.c:373-376 | Counterexample for the code as written. A fresh record whose allocation holds `true` in the flag reports a successful first hook without any rebinding, and its flag disagrees with the bindings from the start. |
| Lifecycle.InitialisedFirstHookRebinds | tackle.c:450-480 | When the record is initialised and both addresses are known, the first hook always makes its (name, replacement) request. |
| Tackles.Tackle.constructor | tackle.c:372-376 | A record with the given name and replacement, no original, and the given initial status and flag. |
| Tackles.TackleGetReplacementRebinding | tackle.c:412-428 | (name, replacement) of the record; both members NULL for a NULL record. |
| Tackles.TackleGetOriginalRebinding | tackle.c:430-438 | (name, original) of the record. |
| Tackles.TackleGetOriginalFunctionPointer | tackle.c:440-443 | The stored original address, unchanged. |
| Tackles.TackleGetFunctionName | tackle.c:445-448 | The stored name, unchanged. |
| Tackles.TackleFill | tackle.c:394-410 | Does nothing for NULL; otherwise the record afterwards is `Fill` of the record before. |
| Tackles.TackleHook | tackle.c:450-480 | False and no request for NULL. Otherwise the record, the result, the request log and the overrides are exactly those `Hook` gives. |
| Tackles.TackleUnhook | tackle.c:482-510 | False and no request for NULL. Otherwise record, result, requests and overrides are exactly those `Unhook` (as written) gives. |
| Tackles.TackleUnhookCorrected | tackle.c:482-510 | The same, following `UnhookCorrected`. |
| TackleLists.TackleListNode.constructor | tackle.c:55-67 | A detached node for the record, with both links NULL. |
| TackleLists.TackleList.constructor | tackle.c:116-127 | `TackleListCreate`: a valid empty list. |
| TackleLists.TackleList.RelinkedAfterAppend | tackle.c:158-181 | Once a node has been linked in after the tail, the list is valid again. |
| TackleLists.TackleList.RelinkedAfterRemoval | tackle.c:190-229 | Once the node at a position has been unlinked, the list is valid again. |
| TackleLists.TackleListCreateNodeForTackle | tackle.c:55-67 | NULL for NULL; otherwise a fresh detached node for the record. |
| TackleLists.TackleListGetNodeForTackle | tackle.c:77-96 | NULL for a NULL argument. Otherwise the result is NULL exactly when the record is not in the list; when it is, the result is the node at the record's first position, compared by identity. |
| TackleLists.TackleListContainsTackle | tackle.c:293-310 | True exactly when both arguments are non-NULL and the record is in the list. A slot passed in receives the node at the record's first position, or NULL; with a NULL argument the slot is left alone. |
| TackleLists.TackleListAppendNode | tackle.c:158-181 | The list stays valid and gains the node, and its record, at the tail; `nodeCount` grows by one. A NULL node changes nothing. |
| TackleLists.SoleNodeRemovalDereferencesNull | tackle.c:190-229 | In a valid list, the condition under which `TackleListRemoveNode` dereferences NULL holds exactly when the node is the only one. |
| TackleLists.TackleListRemoveNode | tackle.c:190-229 | As written, for a node that is not the sole one: the list stays valid and loses exactly the node at that position, and the order of the rest is kept. |
| TackleLists.TackleListRemoveNodeGuarded | tackle.c:190-229 | The same, for any node, the sole node included. |
| TackleLists.TackleListAddTackle | tackle.c:239-258 | The list stays valid. A NULL record or one already present changes nothing. Otherwise exactly one fresh node is appended, the old nodes are kept as a prefix, and the record sequence gains the record at the end. A duplicate-free record sequence stays duplicate-free. |
| TackleLists.TackleListRemoveTackle | tackle.c:267-281 | Uses the guarded unlinking: where the source would crash on the sole node (tackle.c:280 into tackle.c:203), the model empties the list. The list stays valid. A NULL or absent record changes nothing. Otherwise the records become the old ones with the first occurrence removed, and the node at that position is spliced out. If the records were duplicate-free, the removed record is gone and the rest stay duplicate-free. |
| TackleLists.TackleListFree | tackle.c:135-150 | Uses the guarded unlinking, so its last iteration, which crashes in the source, empties the list. Removing from the tail until nothing is left ends with a valid empty list. |
| Seqs.RemoveFirst | tackle.c:267-281 | Removing an absent element changes nothing. Otherwise the element at its first position is spliced out. |
| Seqs.RemoveFirstFromUnique | tackle.c:267-281 | In a duplicate-free list of records, removal leaves the record absent and the rest duplicate-free. |
| Seqs.AppendAbsentKeepsUnique | tackle.c:239-258 | Adding a record that is not present keeps the records duplicate-free. |
| Seqs.RemoveAfterAppend | tackle.c:239-281 | Adding an absent record and then removing it gives back the original record sequence. |
| Registry.FirstNamed | tackle.c:346-361 | The first position whose record has the name, or the length when no record has it. |
| Registry.FindByName | tackle.c:333-364 | NULL exactly when no record has the name; otherwise the record at the first such position. |
| Registry.FirstRegistrationWins | tackle.c:333-383 | Registering another record does not change the answer for a name an earlier record has. For a name no earlier record has, the new record is found exactly when its name matches. |
| Registry.Process.constructor | tackle.c:316 | The process starts with no list and nothing registered. |
| Registry.Process.GetTackleList | tackle.c:316-324 | The existing list, or a fresh empty one on first use. The registered records are unchanged and the registry stays valid. |
| Registry.Process.TackleByName | tackle.c:333-364 | NULL for a NULL name. Otherwise the first registered record, in insertion order, with an equal name, or NULL. Nothing registered changes. |
| Registry.Process.TackleCreate | tackle.c:366-383 | As written. A NULL name gives NULL and leaves the registry alone. Otherwise a fresh record is appended to the registry and comes back as `Created`: filled once, with the status and flag the allocation held. |
| Registry.Process.TackleCreateInitialised | tackle.c:366-383 | Corrected. The same, except that the record comes back as `CreatedInitialised`: not hooked, with status 0. |
| Registry.Process.TackleGetOriginalPointerForFunctionNamed | tackle.c:512-530 | NULL for a NULL name or an unknown name. Otherwise the first record with the name is filled, and its original address is returned whether or not it is hooked. The registered records stay the same, and every registered record other than the found one is left unchanged; with no match, none changes. |

## Left out

- Tackles.TackleGetOriginalRebinding: requires a non-NULL record. The code dereferences it without a check, although tackle.h:92-99 promises NULL members for NULL.
- Tackles.TackleGetOriginalFunctionPointer: requires a non-NULL record. The code dereferences it without a check, although tackle.h:65-72 promises NULL for NULL.
- Tackles.TackleGetFunctionName: requires a non-NULL record. The code dereferences it without a check, although tackle.h:74-81 promises NULL for NULL.
- TackleLists.TackleListRemoveNode: requires that the node is not the list's only one, because the code dereferences NULL there (see Findings).
- TackleLists.TackleListAppendNode: requires a detached node that is not yet in the list. When the list is empty the node's `previousNode` must be NULL, because that branch never writes it. Every caller passes a node fresh from `TackleListCreateNodeForTackle`.
- TackleLists.TackleListNode.constructor: sets `previousNode` to NULL. The source leaves it unset (tackle.c:62-64), and the removal of a head node relies on its being NULL.
- TackleLists.TackleListRemoveTackle: unlinks through `TackleListRemoveNodeGuarded`. Removing the only record therefore empties the list, where the source dereferences NULL (see Findings).
- TackleLists.TackleListFree: removes through the guarded unlinking as well. Its last iteration, which the source cannot complete, empties the list.
- Lifecycle.CorrectedRunAgrees: the agreement covers only the calls made on that one record. Hooking a second record for the same name, rebinding a symbol without using this library, or another caller of `rebind_symbols` can each change where calls through the name land and break it. It also relies on `dlsym` answering the exported address whatever has been rebound: the export table is fixed.
- Lifecycle.InitialisedCreateAgrees: the same single-record scope as `CorrectedRunAgrees`, and the same assumption about `dlsym`.
- Tackles.Tackle.constructor: the name is stored as a value. `TackleCreate` keeps the caller's pointer without copying the string (tackle.c:374), so a caller who later changes or frees that string changes or invalidates the record's name; the model does not capture that aliasing.
- The list operations require a list satisfying `Valid()`. This is the state the list's own operations keep, and the only one the library ever creates.
- Lifecycle.HookTwice: two hooks make at most one rebinding request only when the first hook did not fail. A failed request leaves the flag false, so the code makes a second request.
- `malloc` is taken to succeed, as the source assumes (tackle.c:62, 373). `TackleListCreate` checks for failure; that path is not modelled.
- `free`, `TackleFree` (tackle.c:385-392) and `TackleListNodeFree` (tackle.c:103-109) have no effect on the modelled state. Memory reclamation is outside what Dafny models. `TackleFree` does not unregister the record, so the registry keeps a dangling reference; the model does not capture that.
- `dlsym` and fishhook's `rebind_symbols` are oracles, because their implementation, the Mach-O symbol-table walk, is not part of this model. The model does not capture whether calls really reach the replacement, only the binding map the requests imply. The rebinding's `replaced` member is not modelled.
- The placeholder statuses `(int)TackleHook` and `(int)TackleUnhook` (tackle.c:461, 491) are two fixed, distinct, nonzero constants. Their real values are load addresses.
- `nodeCount` is a `nat`; `size_t` wrap-around cannot occur with lists that fit in memory.
- `strcmp` equality is modelled as string equality, and C strings as character sequences.
- The loop in `TackleByName` that spins on a record with a NULL name (tackle.c:350-353) is unreachable, because every registered record has a name (`Registry.Process.Valid`, which also states that no record is registered twice). The model proves that branch dead instead of modelling a non-terminating loop.
- The global list is not synchronised. Concurrency is not modelled: the library starts no threads.
- `tackle_example.c`, `tackle_example.h` and `tackle_example_main.c` are not part of this model. They are demonstration glue that does stdio and parses varargs.

## Findings

| source | as written | input that shows it | evidently intended | confidence | as-written member | corrected member |
|---|---|---|---|---|---|---|
| tackle.c:507 | `TackleUnhook` stores the rebinding's success as the new hooked flag, so a successful unhook leaves the record marked hooked | a record for `fopen` that is resolved and successfully hooked, then unhooked with status 0 | a successful unhook clears the flag, as `currentlyHooked = !success` would, so the flag always says whether calls reach the replacement | high (not executed) | Lifecycle.AsWrittenUnhookBreaksAgreement | Lifecycle.CorrectedRunAgrees |
| tackle.c:373-376 | `TackleCreate` never writes `lastRebindStatus` or `currentlyHooked`, so a new record holds whatever the allocation held | a fresh allocation holding `true` in the flag; the first `TackleHook` then returns true without rebinding | a new record starts unhooked with status 0 | high (not executed) | Lifecycle.GarbageFlagSkipsFirstHook | Lifecycle.InitialisedCreateAgrees |
| tackle.c:203-216 | `TackleListRemoveNode` writes through `next` when the node has no successor and through `previous` when it has no predecessor, which dereferences NULL for the sole node | a list holding one record, then `TackleListRemoveTackle` of that record (also the last iteration of `TackleListFree`) | removing the sole node empties the list | high (not executed) | TackleLists.SoleNodeRemovalDereferencesNull | TackleLists.TackleListRemoveNodeGuarded |

For each finding, the rest of the model uses the corrected behaviour: `Tackles.TackleUnhookCorrected`, `Registry.Process.TackleCreateInitialised`, and the guarded removal in `TackleListRemoveTackle` and `TackleListFree`. The as-written members (`Lifecycle.Unhook`, `Tackles.TackleUnhook`, `Lifecycle.Created`, `Registry.Process.TackleCreate`, `TackleLists.TackleListRemoveNode`) remain so that the code as it stands is modelled too.
