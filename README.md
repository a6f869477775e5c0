# Verified model of four small kernel components

This project models four small components of the OpenCloudOS kernel and proves properties of them in Dafny:

- **kpatch shadow variables** (`kernel/tkernel/kpatch/shadow.c`). A patch module can attach a named payload to any object address. The payloads live in a 4096-bucket hash table keyed by that address. `kpatch_shadow_alloc` makes up to three allocations: the entry, a copy of the name and, for large payloads, the payload. If one of them fails, it undoes what is already allocated. Small payloads are stored in place inside the entry, and a flag bit in the low bits of the name pointer marks them. `kpatch_shadow_get` returns the first matching payload in its bucket. `kpatch_shadow_free` unlinks the first match and hands it to RCU; the deferred callback frees the payload, the name copy and the entry.
- **Module version checks** (`kernel/module/version.c`):
  - `check_version` looks up a symbol's CRC in the `__versions` section;
  - `check_modstruct_version` runs that check for the `module_layout` symbol;
  - `same_magic` compares two vermagic strings. With CRCs it compares only the kernel version, the first two components of the release and the text after the first space; the rest of the release is ignored. Strings not in that shape fall back to a full `strcmp` from the current position. The header comment (lines 83-84) asks for a full comparison of test builds (release starting with `0`), but the test at lines 113-114 never fires; see Findings.
- **Swap hook** (`mm/swap_hook.c`): one global slot for a `swap_hook_ops` table. It can be filled once, and there is no unregister. Three dispatchers forward to the registered table when there is one.
- **SiFive L2 cache controller** (`drivers/soc/sifive/sifive_l2_cache.c`), the parts that compute something:
  - the line-by-line flush of a physical range;
  - the filter on the error-injection value written through debugfs;
  - decoding of the config and way-enable registers;
  - selection of the private sysfs attribute group;
  - the interrupt-request loop of probe, which skips interrupts named in the match data's quirk mask.

What is modelled as what:

- State the source changes in place is modelled as Dafny classes:
  - the shadow hash table, an `array` of 4096 bucket sequences;
  - the allocator;
  - the swap-hook slot;
  - the controller's `g_irq` array and MMIO write trace.
- Every method is proved against pure specification functions. Lemmas about those functions state what the source promises.
- The shadow store keeps a ghost ownership invariant. It shows that every block an entry owns is live and owned by that entry alone, and that the deferred release frees each block exactly once.

Files:

- `common.dfy`: `Option` and the C `int` to `unsigned` conversion.
- `shadow.dfy`: the shadow-variable store.
- `version.dfy`: the module version checks.
- `swap_hook.dfy`: the swap hook.
- `sifive_l2.dfy`: the L2 cache controller.

## Model

| member | source | states |
|---|---|---|
| Common.ToU32 | include/linux/swap_hook.h:12-13 | Passing a C `int` swap type to an `unsigned` callback parameter keeps non-negative values and adds 2^32 to negative ones. |
| Shadow.BucketOf | kernel/tkernel/kpatch/shadow.c:49 | The bucket chosen for an object address is below the table size 2^12. |
| Shadow.SetInplace | kernel/tkernel/kpatch/shadow.c:69-72 | Setting the in-place flag sets bit 0 and keeps every other bit of the word. |
| Shadow.IsInplace | kernel/tkernel/kpatch/shadow.c:74-77 | The in-place flag is set exactly when setting it would change nothing. |
| Shadow.ShadowVar | kernel/tkernel/kpatch/shadow.c:79-82 | Masking the flag bits clears the two low bits and keeps all the higher ones. |
| Shadow.NamePtr | kernel/tkernel/kpatch/shadow.c:79-82 | Definition: the address of an entry's name copy, its tag word with the flag bits masked off, as passed to `kfree` at line 129. Characterized by TaggedNameRoundTrip: for a 4-byte-aligned `kstrdup` result it is that result, whether or not the in-place flag is set. |
| Shadow.DataField | kernel/tkernel/kpatch/shadow.c:102-103 | Definition: the address of an entry's `data` field, where a small payload lives and which `kpatch_shadow_get` returns for it (line 165). Used by Handle, the payload pointer get returns; LookupAfterInsert proves get returns Handle of the newest match, which for an in-place entry is this address. |
| Shadow.KmallocAlignedToFour | kernel/tkernel/kpatch/shadow.c:57 | A kmalloc-aligned address has its two low bits clear, which is the alignment the flag bits rely on. |
| Shadow.TaggedNameRoundTrip | kernel/tkernel/kpatch/shadow.c:56-82 | For a 4-byte-aligned name pointer, the untagged word is not in place, the tagged word is, and masking either one gives back the pointer. |
| Shadow.ReleaseFreesEachBlockOnce | kernel/tkernel/kpatch/shadow.c:121-131 | For a well-formed entry, the deferred release frees no address twice and frees exactly the entry's blocks. An in-place entry gets exactly two frees (name copy and entry), and the entry is always freed last. |
| Shadow.ReleaseOrder | kernel/tkernel/kpatch/shadow.c:127-130 | Definition: the `kfree` calls of the RCU callback in order: the payload unless it is in place, then the name copy, then the entry. Characterized by ReleaseFreesEachBlockOnce: no block twice, exactly the entry's blocks, two frees for an in-place entry and the entry itself last. |
| Shadow.Find | kernel/tkernel/kpatch/shadow.c:140-142 | The bucket walk finds a match that no earlier entry also matches, or it reports absence exactly when no entry matches. |
| Shadow.Handle | kernel/tkernel/kpatch/shadow.c:164-167 | Definition: the address of the entry's data field for an in-place entry, otherwise the stored payload pointer. LookupAfterInsert and DuplicatesStack state what get returns with it. |
| Shadow.Lookup | kernel/tkernel/kpatch/shadow.c:160-173 | Definition: the handle of the first match in the bucket, or NULL. Its properties are LookupAfterInsert, LookupOtherAfterInsert, LookupOtherAfterRemove and LookupNullIffAbsent; Shadow.Store.Get is proved equal to it. |
| Shadow.Remove | kernel/tkernel/kpatch/shadow.c:140-147 | Definition: the bucket with its first match unlinked, or unchanged. RemoveTakesOutFirstMatch, RemoveAfterInsert and SecondFreeIsNoop state its properties; Shadow.Store.Free is proved equal to it. |
| Shadow.Removed | kernel/tkernel/kpatch/shadow.c:143-145 | Definition: the entry handed to `call_rcu`, the first match if there is one. RemoveTakesOutFirstMatch and RemoveAfterInsert state its properties. |
| Shadow.FindFirstMatch | kernel/tkernel/kpatch/shadow.c:160-162 | The walk stops at position i when that entry matches and no earlier one does. |
| Shadow.Matches | kernel/tkernel/kpatch/shadow.c:142-162 | Definition: the test `kpatch_shadow_free` and `kpatch_shadow_get` share, same object address and `strcmp`-equal name. Characterized by FindFirstMatch and LookupNullIffAbsent: the walk stops at the first entry passing it, and get returns NULL exactly when none does. |
| Shadow.FindCons | kernel/tkernel/kpatch/shadow.c:114 | Searching a bucket with a new head entry either finds that head or finds the old bucket's match one position later. |
| Shadow.LookupAfterInsert | kernel/tkernel/kpatch/shadow.c:84-118 | After alloc links an entry, get for the same object and name returns that entry's payload pointer. |
| Shadow.LookupOtherAfterInsert | kernel/tkernel/kpatch/shadow.c:113-117 | Linking an entry changes neither get nor free for any other (object, name) key. |
| Shadow.RemoveAfterInsert | kernel/tkernel/kpatch/shadow.c:133-151 | Free right after alloc unlinks exactly the new entry and restores the old bucket. |
| Shadow.SecondFreeIsNoop | kernel/tkernel/kpatch/shadow.c:133-151 | A second free of a key allocated once unlinks nothing and defers nothing, and get then returns NULL. |
| Shadow.LookupOtherAfterRemove | kernel/tkernel/kpatch/shadow.c:133-174 | Freeing one key leaves what get returns for every other key unchanged. |
| Shadow.RemoveTakesOutFirstMatch | kernel/tkernel/kpatch/shadow.c:140-147 | Free unlinks exactly the first match: the bucket loses that one element, and the rest keep their order. |
| Shadow.DuplicatesStack | kernel/tkernel/kpatch/shadow.c:84-174 | With two entries for one key, get and free act on the newer one. After the free, get returns the older payload. |
| Shadow.LookupNullIffAbsent | kernel/tkernel/kpatch/shadow.c:160-173 | When no payload pointer is NULL, get returns NULL exactly when no entry of the bucket matches. |
| Shadow.Slab.constructor | kernel/tkernel/kpatch/shadow.c:89 | An allocator with no live blocks, no frees and the given fault schedule. |
| Shadow.Slab.Kmalloc | kernel/tkernel/kpatch/shadow.c:89-111 | Fails exactly when the schedule says so. Otherwise it returns a fresh, 8-byte-aligned block of the requested size. |
| Shadow.Slab.Kstrdup | kernel/tkernel/kpatch/shadow.c:95-96 | Like kmalloc, for the string's length plus its terminating NUL. |
| Shadow.Slab.Kfree | kernel/tkernel/kpatch/shadow.c:96-131 | `kfree(NULL)` does nothing. Any other pointer is removed from the live set and recorded in the free trace. |
| Shadow.Drop | kernel/tkernel/kpatch/shadow.c:89-111 | Consuming n allocations shortens the fault schedule by n, down to empty. |
| Shadow.FaultAfterDrop | kernel/tkernel/kpatch/shadow.c:89-111 | Faults seen after consuming m allocations are the schedule's faults from position m on. |
| Shadow.InvLink | kernel/tkernel/kpatch/shadow.c:113-117 | Linking a freshly allocated, well-formed entry at its bucket's head keeps the ownership invariant. |
| Shadow.InvUnlink | kernel/tkernel/kpatch/shadow.c:143-145 | Unlinking an entry and queueing it for the RCU callback keeps the ownership invariant. |
| Shadow.InvRelease | kernel/tkernel/kpatch/shadow.c:121-131 | Releasing the oldest queued entry's blocks keeps the ownership invariant. |
| Shadow.InvLookupNullIffAbsent | kernel/tkernel/kpatch/shadow.c:154-174 | Under the invariant, get returns NULL exactly when no linked entry has that object and name. |
| Shadow.ReleasedSnoc | kernel/tkernel/kpatch/shadow.c:121-131 | Releasing one more queued entry extends both the freed set and the free trace by that entry's blocks. |
| Shadow.Store.constructor | kernel/tkernel/kpatch/shadow.c:49 | The table starts with 4096 empty buckets and nothing pending. |
| Shadow.Store.Alloc | kernel/tkernel/kpatch/shadow.c:84-118 | On failure, the table and the live blocks are unchanged, and exactly the partial allocations were freed. On success, the new entry is linked at its bucket's head, and its payload pointer is returned. |
| Shadow.Store.NewEntry | kernel/tkernel/kpatch/shadow.c:89-111 | Makes the allocations of alloc in order, and succeeds exactly when none of them fails. On success it produces a well-formed entry for the key. On each failure it frees what was already allocated. |
| Shadow.Store.NewPayload | kernel/tkernel/kpatch/shadow.c:101-111 | A payload of at most 8 bytes uses the entry's data field and sets the in-place flag. A larger one gets its own block. If that allocation fails, the name copy and then the entry are freed. |
| Shadow.Store.Get | kernel/tkernel/kpatch/shadow.c:154-174 | Returns the first matching entry's payload pointer in the object's bucket, and NULL exactly when the key is absent. |
| Shadow.Store.Free | kernel/tkernel/kpatch/shadow.c:133-151 | Only the object's bucket changes: its first match is unlinked and appended to the pending RCU list. Otherwise nothing changes. |
| Shadow.Store.RcuFree | kernel/tkernel/kpatch/shadow.c:121-131 | Frees the payload unless it is in place, then the name copy, then the entry, and nothing else. |
| Shadow.Store.GracePeriod | kernel/tkernel/kpatch/shadow.c:121-145 | Runs every pending release in queue order, empties the queue and frees exactly the released blocks. |
| ModVersion.NumVersions | kernel/module/version.c:31-33 | The record count, multiplied by the record size, fits in the section size. |
| ModVersion.FirstNamed | kernel/module/version.c:35-39 | Finds the first record in the range with the symbol's name, and reports none exactly when no record in the range has it. |
| ModVersion.VersionOk | kernel/module/version.c:13-56 | Definition of the verdict: accepted without a CRC, the forced-load verdict without versions, otherwise the first named record's CRC comparison or acceptance when there is none. The four lemmas below pin each case. |
| ModVersion.CheckVersion | kernel/module/version.c:13-56 | Returns the verdict of the specification: accepted without a CRC; the forced-load verdict without versions; the first named record's CRC comparison; accepted when the symbol is absent. |
| ModVersion.CheckModstructVersion | kernel/module/version.c:58-77 | The check for the `module_layout` symbol with the CRC that `find_symbol` found. |
| ModVersion.NoCrcAccepted | kernel/module/version.c:23-25 | Without a CRC from the exporting module, the symbol is accepted. |
| ModVersion.NoVersionsMeansForced | kernel/module/version.c:27-29 | Without a versions section, the symbol is accepted exactly when forced loading succeeds. |
| ModVersion.FirstMatchDecides | kernel/module/version.c:35-46 | The first record with the symbol's name decides: accepted exactly when its CRC equals the exporter's. |
| ModVersion.AbsentSymbolAccepted | kernel/module/version.c:49-51 | When no record has the symbol's name, the symbol is accepted. |
| ModVersion.FirstNamedLooksOnlyBelow | kernel/module/version.c:35-39 | The search depends only on the records inside its range. |
| ModVersion.LaterRecordsIgnored | kernel/module/version.c:35-46 | Records after the first match have no effect on the verdict. |
| ModVersion.FirstNamedUpTo | kernel/module/version.c:35-39 | Once a match exists below m, extending the range does not change the result. |
| ModVersion.OnlyCountedRecordsScanned | kernel/module/version.c:31-35 | Bytes past the last whole record of the section have no effect on the verdict. |
| ModVersion.Head | kernel/module/version.c:113 | The character at a cursor, which is NUL at the end of the string. |
| ModVersion.StrcspnStops | kernel/module/version.c:91-94 | The span stops at the first rejected character or at the end, and contains no rejected character. |
| ModVersion.Strcspn | kernel/module/version.c:91-117 | Definition: the length of the initial run of a string without the rejected character, never beyond the string (`n <= |s|`). Characterized by StrcspnStops, StrcspnAppend and StrcspnAbsent. |
| ModVersion.StrcspnAppend | kernel/module/version.c:116-117 | A prefix without the rejected character adds its length to the span. |
| ModVersion.MagicAsWritten | kernel/module/version.c:86-131 | Definition of same_magic as written on cursors, with no verdict where the code reads past a terminator. MagicWithoutCrcsIsEquality, MagicComparesVersionReleaseAndTail, MagicReflexive and MagicSymmetric state its meaning. |
| ModVersion.ReleaseAsWritten | kernel/module/version.c:105-130 | Definition of the second half on the cursors advanced to the dash. ReleaseComparesTwoComponentsAndTail states its meaning. |
| ModVersion.SameMagic | kernel/module/version.c:86-131 | The cursor algorithm, with its pointer advances and `goto check_all`, returns the verdict of the as-written specification whenever every character it reads lies inside the strings. |
| ModVersion.MagicWithoutCrcsIsEquality | kernel/module/version.c:90-130 | Without CRCs, the magic strings must be equal. |
| ModVersion.MagicVersionMismatchRejects | kernel/module/version.c:96-100 | When both dashes lie before the first space and the version prefixes differ, the strings are rejected. |
| ModVersion.MagicDashAfterSpaceFallsBack | kernel/module/version.c:96-130 | A dash after the first space, in either string, means a full comparison. |
| ModVersion.ReleaseFallsBack | kernel/module/version.c:105-118 | Definition: the release shapes on which the second phase gives up: a first `.` after the first space, or a first `.` before the space in both strings and a second `.` (or none) beyond the space in one of them. Characterized by MagicReleaseFallsBack. |
| ModVersion.MagicReleaseFallsBack | kernel/module/version.c:96-118 | With equal versions before the `-`, each `-` before its first space and a release of a fall-back shape, the verdict is `strcmp` of the two strings from the `-` on. |
| ModVersion.MagicSingleDotReleaseRejects | kernel/module/version.c:105-118 | A module release with one `.` before the space, such as `5.18.0-2207.3 SMP`, falls back to `strcmp` against any well-shaped kernel vermagic and is rejected. |
| ModVersion.MagicSingleDotReleaseExample | kernel/module/version.c:105-118 | `5.18.0-2207.3 SMP` against `5.18.0-2207.3.1 SMP` is rejected. |
| ModVersion.StrcspnAbsent | kernel/module/version.c:91-94 | A string without the character spans to its end. |
| ModVersion.VermagicSpans | kernel/module/version.c:91-94 | In a well-shaped vermagic, the first dash comes right after the version, and the first space comes after the release. |
| ModVersion.ReleaseSpaceSpan | kernel/module/version.c:105-106 | After the dash, the first space comes right after the release. |
| ModVersion.ReleaseDotSpans | kernel/module/version.c:107-117 | After the dash, the two dot spans end after the first and the second release component. |
| ModVersion.SplitAtSeparator | kernel/module/version.c:122 | Two strings split at a separator absent from both prefixes are equal exactly when the prefixes and the suffixes are. |
| ModVersion.ReleaseComparesTwoComponentsAndTail | kernel/module/version.c:102-130 | For two well-shaped release parts, the release comparison accepts exactly when the first two release components and the text after the first space agree. |
| ModVersion.ReleaseVerdict | kernel/module/version.c:105-130 | Given the four spans, the release comparison's verdict is the prefix comparison combined with the tail comparison. |
| ModVersion.ReleaseSpans | kernel/module/version.c:110-117 | Definition: lines 110-117 once the first-space and first-dot spans are known: a `.` after the space or a leading `0` falls back to `strcmp`, a `.` span reaching the end has no verdict, otherwise the components are compared. Characterized by ReleaseAtSpans and ReleaseVerdict. |
| ModVersion.CompareComponents | kernel/module/version.c:119-130 | Definition: lines 119-130 given the second-dot spans: a second `.` after the space falls back to `strcmp`, a prefix mismatch rejects, otherwise the texts from the spaces on are compared. Characterized by ReleaseVerdict and ReleaseVerdictOn. |
| ModVersion.ReleaseAtSpans | kernel/module/version.c:105-117 | The release comparison on two cursors is the span comparison applied to the four spans strcspn measures on them, and those spans lie inside the strings. |
| ModVersion.ReleaseVerdictOn | kernel/module/version.c:105-130 | Once every span is in bounds and each second `.` precedes its space, the verdict is acceptance exactly when the compared prefixes are equal and the texts from the spaces on are equal. |
| ModVersion.ReleaseSymmetric | kernel/module/version.c:105-130 | The release comparison does not depend on the argument order. |
| ModVersion.ReleaseFallsBackVerdict | kernel/module/version.c:105-130 | On cursors of a fall-back shape that are not test builds, the release comparison is `strcmp`. |
| ModVersion.ReleaseMeasures | kernel/module/version.c:105-117 | On a well-shaped release part, the first space, the first `.` and the second `.` come right after the release, the first component and the second component, and the cursor is not `0`. |
| ModVersion.DashedPrefixCompare | kernel/module/version.c:122 | Two dash-led, dot-separated prefixes are equal exactly when their components are. |
| ModVersion.SpacedTailCompare | kernel/module/version.c:125-130 | Two space-led tails are equal exactly when the text after the space is. |
| ModVersion.MagicComparesVersionReleaseAndTail | kernel/module/version.c:79-131 | With CRCs, two well-shaped vermagic strings match exactly when the versions, the first two release components and the text after the first space agree. The remaining release components are ignored, even in test builds. |
| ModVersion.SpaceKeepsReadsInBounds | kernel/module/version.c:91-117 | When both strings contain a space, the algorithm never reads outside the strings. |
| ModVersion.SpaceFound | kernel/module/version.c:91-92 | The space span of a string containing a space ends on that space. |
| ModVersion.MagicReflexive | kernel/module/version.c:86-131 | A string is never rejected against itself. |
| ModVersion.MagicSymmetric | kernel/module/version.c:86-131 | The verdict does not depend on the argument order. |
| ModVersion.CursorOnDash | kernel/module/version.c:102-103 | After the first advance, the cursor is on the dash or at the end. |
| ModVersion.SameMagicFixed | kernel/module/version.c:86-131 | Definition of same_magic with the two corrections of Findings. FixedAgreesWhereInBounds, FixedTestBuildFullCheck, FixedReflexive and FixedSymmetric state its meaning. |
| ModVersion.ReleaseFixed | kernel/module/version.c:105-130 | Definition of the corrected second half: `>=` at line 110 and the test-build test on the first release character. |
| ModVersion.FixedSpans | kernel/module/version.c:110-130 | Definition: the corrected lines 110-130 given the first-space and first-dot spans: a `.` at or after the space, or a test build after the dash, falls back to `strcmp`. Characterized by FixedSpansAgree. |
| ModVersion.FixedSpansAgree | kernel/module/version.c:110-130 | Where the as-written span comparison has a verdict and no test build is seen, the corrected one gives the same verdict. |
| ModVersion.ReleaseFixedAgrees | kernel/module/version.c:105-130 | Where the as-written release comparison stays in bounds and no test build is seen, the corrected release comparison gives the same verdict. |
| ModVersion.FixedAgreesWhereInBounds | kernel/module/version.c:86-131 | The corrected comparison agrees with the as-written one wherever the source stays inside the strings and neither release is a test build. |
| ModVersion.FixedTestBuildFullCheck | kernel/module/version.c:83-84 | In the corrected comparison, a test build on either side forces full equality, as the header comment requires. |
| ModVersion.TestBuildShape | kernel/module/version.c:80-84 | A vermagic whose release starts with `0` is a test build. |
| ModVersion.FixedReflexive | kernel/module/version.c:86-131 | The corrected comparison accepts a string against itself. |
| ModVersion.FixedSymmetric | kernel/module/version.c:86-131 | The corrected comparison does not depend on the argument order. |
| ModVersion.OverreadOnTruncatedRelease | kernel/module/version.c:107-117 | A release with no dot and no space (a release of one component) drives the as-written code past the end of the string. |
| ModVersion.OverreadExample | kernel/module/version.c:107-117 | `5.18.0-2207` against `5.18.0-2207.3.0.tks SMP` reads past the end of the first string. |
| ModVersion.FixedTruncatedReleaseFallsBack | kernel/module/version.c:107-117 | On the inputs where the code as written reads past the terminator, the corrected comparison reads nothing there and its verdict is whole-string equality. |
| ModVersion.FixedTruncatedReleaseExample | kernel/module/version.c:107-117 | The corrected comparison rejects `5.18.0-2207` against `5.18.0-2207.3.0.tks SMP`. |
| ModVersion.TestBuildAcceptedAsWritten | kernel/module/version.c:113-114 | The as-written code accepts two different test-build strings, `5.18.0-0.1.0 SMP` and `5.18.0-0.1.5 SMP`. |
| ModVersion.TestBuildRejectedWhenFixed | kernel/module/version.c:83-114 | The corrected comparison rejects that pair. |
| SwapHook.SwapHookSlot.constructor | mm/swap_hook.c:10 | The slot starts empty, and no callback has been invoked. |
| SwapHook.SwapHookSlot.RegisterOps | mm/swap_hook.c:15-23 | On a full slot: `-EINVAL`, and nothing changes. On an empty slot: the table (possibly NULL) is stored, and the result is 0. |
| SwapHook.SwapHookSlot.Store | mm/swap_hook.c:26-34 | With a table registered, its store callback is invoked once with the page. Otherwise nothing happens. |
| SwapHook.SwapHookSlot.InvalidatePage | mm/swap_hook.c:36-44 | With a table registered, its invalidate_page callback is invoked once with the type converted to unsigned and the offset. |
| SwapHook.SwapHookSlot.InvalidateArea | mm/swap_hook.c:46-56 | With a table registered, its invalidate_area callback is invoked once with the type converted to unsigned. |
| SwapHook.Step | mm/swap_hook.c:15-56 | Definition of one call on the slot and call trace. Each SwapHookSlot method is proved to perform it, and RegisterOutcome, EmptySlotDispatchIsNoop and DispatchCallsOwnCallbackOnce state its cases. |
| SwapHook.CallbackFor | mm/swap_hook.c:26-56 | Definition: the callback a dispatcher forwards to with its arguments, the `int` swap type converted to the `unsigned` parameter the table's callbacks take. Characterized by DispatchCallsOwnCallbackOnce: store passes the page, the invalidators pass the offset and a non-negative swap type unchanged, and Common.ToU32 gives the two's-complement value of a negative one. |
| SwapHook.Run | mm/swap_hook.c:15-56 | Definition of a sequence of calls. SlotNeverChangesOnceSet, FirstNonNullRegistrationWins and CallsGoToRegisteredOps state what any run keeps. |
| SwapHook.RegisterOutcome | mm/swap_hook.c:15-23 | Registering succeeds and stores the table exactly on an empty slot. On a full slot it fails with `-EINVAL` and changes nothing. |
| SwapHook.RegisterResult | mm/swap_hook.c:15-23 | Definition: `-EINVAL` when the slot already holds a table, 0 otherwise. Characterized by RegisterOutcome: on an empty slot the result is 0 and the slot then holds the given table; on a full slot it is `-EINVAL` and nothing changes. |
| SwapHook.NullRegistrationKeepsSlotOpen | mm/swap_hook.c:17-20 | Registering NULL succeeds but leaves the slot empty, so a later registration still wins. |
| SwapHook.EmptySlotDispatchIsNoop | mm/swap_hook.c:26-56 | With no table registered, every dispatcher does nothing. |
| SwapHook.DispatchCallsOwnCallbackOnce | mm/swap_hook.c:26-56 | Each dispatcher calls exactly its own callback of the registered table, once, with its arguments. |
| SwapHook.SlotNeverChangesOnceSet | mm/swap_hook.c:15-23 | No run of operations changes a filled slot. |
| SwapHook.FirstNonNullRegistrationWins | mm/swap_hook.c:15-23 | From an empty slot, the slot ends up holding the first non-NULL table any run registers. |
| SwapHook.StepKeepsCallsMatch | mm/swap_hook.c:26-56 | One operation keeps every invoked callback pointing at the slot's table. |
| SwapHook.CallsGoToRegisteredOps | mm/swap_hook.c:15-56 | Over any run, every callback goes to the table in the slot, never to another one. |
| SifiveL2.AlignDown | drivers/soc/sifive/sifive_l2_cache.c:131 | The result is line-aligned, not above x, and within one line of x. |
| SifiveL2.LinesFrom | drivers/soc/sifive/sifive_l2_cache.c:131-132 | Definition of the lines the loop visits from a line up to the end. LinesFromAt states them element by element. |
| SifiveL2.FlushLines | drivers/soc/sifive/sifive_l2_cache.c:124-132 | Definition of the lines a flush visits: none for a zero length, else from the aligned-down start to the end. FlushEmptyRange, FlushStepsByLine and FlushCoversEachOverlappingLineOnce state its meaning. |
| SifiveL2.FlushWrite | drivers/soc/sifive/sifive_l2_cache.c:133-137 | Definition of the MMIO write for one line on 32-bit and 64-bit builds. FlushTraceAt places it in the trace. |
| SifiveL2.FlushTrace | drivers/soc/sifive/sifive_l2_cache.c:131-139 | Each line gets exactly one flush write. |
| SifiveL2.FlushTraceAt | drivers/soc/sifive/sifive_l2_cache.c:133-137 | Write i flushes line i: on 32-bit, `writel(line >> 4)` to FLUSH32; otherwise `writeq(line)` to FLUSH64. |
| SifiveL2.FlushTraceCons | drivers/soc/sifive/sifive_l2_cache.c:131-139 | The first line's write comes first, then the writes for the remaining lines. |
| SifiveL2.LinesFromAt | drivers/soc/sifive/sifive_l2_cache.c:131-132 | The loop visits consecutive lines from the start line, one line apart, all below the end. |
| SifiveL2.FlushEmptyRange | drivers/soc/sifive/sifive_l2_cache.c:127-128 | A zero-length flush writes nothing. |
| SifiveL2.FlushStepsByLine | drivers/soc/sifive/sifive_l2_cache.c:131-132 | A non-empty flush starts at the line holding the start, and steps by 64 bytes. The last line written overlaps the range. |
| SifiveL2.FlushCoversEachOverlappingLineOnce | drivers/soc/sifive/sifive_l2_cache.c:122-140 | A line is flushed exactly when it overlaps [start, start + len), and at most once. |
| SifiveL2.AlignDownBelow | drivers/soc/sifive/sifive_l2_cache.c:131 | Aligning down an address below the end of a line gives at most that line. |
| SifiveL2.InjectAccepted | drivers/soc/sifive/sifive_l2_cache.c:68 | Definition of the filter's two ranges. InjectAcceptedIsByteWithBit16 characterizes it, and L2Cache.L2Write is proved to write exactly the accepted values. |
| SifiveL2.InjectAcceptedIsByteWithBit16 | drivers/soc/sifive/sifive_l2_cache.c:68 | The accepted values are exactly the bytes other than 0xFF, with bit 16 either clear or set. |
| SifiveL2.L2Cache.L2Write | drivers/soc/sifive/sifive_l2_cache.c:61-73 | A parse failure or a value outside the filter returns `-EINVAL` and writes nothing. An accepted value is written to ECCINJECTERR, and the byte count is returned. |
| SifiveL2.EncodeConfig | drivers/soc/sifive/sifive_l2_cache.c:94-101 | Definition of the register holding four given byte fields, the inverse partner of DecodeConfig in the two round-trip lemmas. |
| SifiveL2.ConfigRoundTrip | drivers/soc/sifive/sifive_l2_cache.c:94-101 | The four byte fields extracted from the config register reassemble into the register. |
| SifiveL2.ConfigFieldsRoundTrip | drivers/soc/sifive/sifive_l2_cache.c:94-101 | Encoding four fields and decoding the result gives the same four fields back. |
| SifiveL2.U64Bit | drivers/soc/sifive/sifive_l2_cache.c:100-102 | `(uint64_t)1 << k` is defined exactly when k < 64, and its value is then 2^k. Larger shifts are undefined, so they yield no value. |
| SifiveL2.ShiftIsBit | drivers/soc/sifive/sifive_l2_cache.c:100-102 | The 64-bit shift of 1 by k < 64 has the integer value `BIT(k)`. |
| SifiveL2.ConfigRead | drivers/soc/sifive/sifive_l2_cache.c:90-106 | The bank count is the register modulo 2^8, the ways per bank the next byte. Sets per bank are 2^k for k the third byte, and bytes per block 2^k for k the top byte, each defined exactly when k < 64. The way-enable register is reported unmasked. |
| SifiveL2.DecodeConfig | drivers/soc/sifive/sifive_l2_cache.c:94-101 | The mask-and-shift fields are the register's bytes: modulo 2^8, then divided by 2^8, 2^16 and 2^24. |
| SifiveL2.LargestWayEnabled | drivers/soc/sifive/sifive_l2_cache.c:158-161 | The low byte of the way-enable register. |
| SifiveL2.GetPrivGroup | drivers/soc/sifive/sifive_l2_cache.c:181-188 | The private attribute group exactly for level-2 leaves, and NULL otherwise. |
| SifiveL2.Bit | drivers/soc/sifive/sifive_l2_cache.c:256 | `BIT(i)` is positive. |
| SifiveL2.QuirkSet | drivers/soc/sifive/sifive_l2_cache.c:256 | Definition of `quirks & BIT(i)` being non-zero, as bit i of the mask. MatchDataQuirks evaluates it on the match table. |
| SifiveL2.Probe | drivers/soc/sifive/sifive_l2_cache.c:247-262 | Definition of probe's interrupt phase: `-ENODEV` without interrupts, else the loop of ProbeFrom from index 0. NoInterruptsIsNoDevice and the ProbeFrom lemmas state its meaning; L2Cache.ProbeIrqs is proved equal to it. |
| SifiveL2.ProbeFrom | drivers/soc/sifive/sifive_l2_cache.c:251-262 | The loop from index i stops between i and nirqs, inclusive. |
| SifiveL2.ProbeFromExtends | drivers/soc/sifive/sifive_l2_cache.c:251-262 | Requests made before the loop resumes only prefix the requests it makes. |
| SifiveL2.ProbeRequestsUnquirked | drivers/soc/sifive/sifive_l2_cache.c:256-259 | Every requested interrupt has its quirk bit clear, and its number was stored. |
| SifiveL2.ProbeRequestsInOrder | drivers/soc/sifive/sifive_l2_cache.c:251-259 | Requests go out in strictly increasing index order, so none is requested twice. |
| SifiveL2.NoInterruptsIsNoDevice | drivers/soc/sifive/sifive_l2_cache.c:247-249 | A non-positive interrupt count gives `-ENODEV`, with nothing requested or stored. |
| SifiveL2.RequestsExactlyUnquirked | drivers/soc/sifive/sifive_l2_cache.c:251-262 | When every interrupt resolves and every request succeeds, probe returns 0, stores all of them and requests exactly those whose quirk bit is clear. |
| SifiveL2.BadIrqStops | drivers/soc/sifive/sifive_l2_cache.c:252-254 | A negative `platform_get_irq` result is stored, then returned at once. Nothing further is requested. |
| SifiveL2.MatchDataQuirks | drivers/soc/sifive/sifive_l2_cache.c:280-285 | The JH7100 skips only the DATA_UNCORR interrupt. The FU540 and FU740 skip none. |
| SifiveL2.L2Cache.constructor | drivers/soc/sifive/sifive_l2_cache.c:45-46 | A controller with no writes, no requests and a fresh four-entry `g_irq` array. |
| SifiveL2.L2Cache.FlushRange | drivers/soc/sifive/sifive_l2_cache.c:122-140 | The writes appended are exactly the flush trace of the overlapping lines, in order. |
| SifiveL2.L2Cache.ProbeIrqs | drivers/soc/sifive/sifive_l2_cache.c:247-262 | Returns the specification's result and appends exactly its requests. `g_irq[k]` holds the k-th interrupt for every index the loop reached, and the rest of the array is unchanged. |

## Left out

- Concurrency: the shadow spinlock, RCU read sections, `READ_ONCE`/`WRITE_ONCE` in the swap hook and the MMIO barriers `mb()` order things only between CPUs or for the hardware. The model is sequential. `call_rcu` appends to a pending list that `Shadow.Store.GracePeriod` drains.
- The `gfp` flags of the shadow allocations are not modelled. Allocation failure comes from a fault schedule given to the allocator.
- What a caller stores in a payload is not modelled. Entries record only the addresses and the name text.
- `try_to_force_load`, `find_symbol` and the section headers are parameters of the version check. The `BUG()` when `module_layout` is missing is not modelled: the CRC found is an input.
- `pr_warn`, `pr_debug`, `pr_info`, `pr_err`, `dev_err_probe` messages, debugfs and sysfs file creation, `sprintf` in the sysfs show function and `kstrtouint_from_user` are I/O. The parsed value, or its failure, is an input of `SifiveL2.L2Cache.L2Write`.
- `l2_int_handler`, the error notifier chain, `sifive_l2_set_uncached`, the ioremap of the registers and the uncached-offset property are not modelled. They only read registers, call notifiers or map memory.
- The callbacks of a swap-hook table are code outside the model. An invocation is recorded as an entry of a call trace. A registered table whose callback field is NULL makes the source dereference a NULL function pointer; the model records the call as for any other table.
- SifiveL2.L2Cache.ProbeIrqs: requires at most four interrupts, the length of `g_irq`. Above four, the source writes past the end of the array.
- SifiveL2.L2Cache.FlushRange: requires that the range ends at least one line below 2^64. Wrap-around of `start + len` or `line += 64` at the top of the physical address space is not modelled. There the source loop at lines 131-132 need not end: with `start = 2^64 - 64` and `len = 32`, `line += 64` wraps to 0, which is again below `start + len`, so the loop runs forever. On a 32-bit build without 64-bit physical addresses, `phys_addr_t` is 32 bits and would wrap at 2^32: the model keeps 64-bit address arithmetic for both builds.
- SifiveL2.Bit: `BIT(i)` is not truncated to the width of `unsigned long`. Only indices below 64 reach it.
- C strings (shadow names, symbol names, vermagic strings) are modelled as the characters before their terminator. A Dafny string containing `'\0'` has no C counterpart; `strcmp`, `strcspn` and `kstrdup` would stop at it, while the model treats it as ordinary text. A NULL name is not modelled: `kstrdup` returns NULL for it, so alloc would fail, and `strcmp` in get and free would dereference it.
- ModVersion.SameMagic: requires that every character the source reads lies inside the strings. An out-of-bounds read has no defined result, so the model yields no verdict there (see Findings).

## Findings

| source | as written | input that shows it | evidently intended | confidence | as-written member | corrected member |
|---|---|---|---|---|---|---|
| kernel/module/version.c:107-117 | When the release after the dash contains neither `.` nor a space, the dot span and the space span both reach the end of the string, so `l3 > l1` is false. `amagic + l3 + 1` then points one past the NUL, and `strcspn` reads beyond the string. | `same_magic("5.18.0-2207", "5.18.0-2207.3.0.tks SMP", true)` | `l3 >= l1` at line 110: a dot at or after the first space, or no dot at all, falls back to the full comparison | not executed | ModVersion.OverreadOnTruncatedRelease, ModVersion.OverreadExample | ModVersion.FixedTruncatedReleaseFallsBack, ModVersion.FixedTruncatedReleaseExample |
| kernel/module/version.c:113-114 | The cursor has advanced to the dash, so `amagic[0]` is always `-` and never `0`. The test-build fall-back never triggers, and two test builds that differ in the third release component are accepted. | `same_magic("5.18.0-0.1.0 SMP", "5.18.0-0.1.5 SMP", true)` returns true | test the first release character, `amagic[1]` and `bmagic[1]` (the header comment at lines 83-84 asks for a full check of test builds) | not executed | ModVersion.TestBuildAcceptedAsWritten, ModVersion.CursorOnDash | ModVersion.TestBuildRejectedWhenFixed, ModVersion.FixedTestBuildFullCheck |
