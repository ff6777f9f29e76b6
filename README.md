# eer core in Dafny

A model of the core of eer, a small reactive runtime for microcontrollers,
with proofs about it. It covers four parts.

- **The lifecycle dispatcher** `eer_staging`. It is a six-stage state machine
  (BLOCKED, RELEASED, DEFINED, REACTING, PREPARED, UNMOUNTED) over one
  component instance. It is driven by a trigger: a loop context (SAME,
  UPDATED, BLOCKED) or a pointer to new props. Around it sit the callback
  wrappers that commit new props into the instance, and the `*_SKIP`
  defaults. These are in `lifecycle.dfy` (module `Lifecycle`).
- **The loop macros** `apply`, `react`, `shut`, `use`, `with`, `eer_while`
  and `eer_init` with `terminate`/`halt`. These are in `loop.dfy` (module
  `Loop`).
- **The owner-tagged linked ring buffer**, in module `LinkedRing` in
  `ring.dfy`.
  - Its operations are `lr_length_limited_owned` with its three macros,
    `lr_write`, `lr_read`, `lr_write_string` and `lr_owner`.
  - The arena layout and the lemmas that the operations keep it are in
    `ring_layout.dfy` (module `LinkedRingLayout`).
  - Machine words and bitwise OR/AND are in `words.dfy` (module `Words`).
- **The key/value table** `hash_read`, `hash_write` and `hash_pop`. This is in
  `hash.dfy` (module `Hash`).

Shared types are in `interface.dfy`: the result codes (`eer_result_t`) and an
Option for nullable pointers. The evidence for the ring findings below is in
`ring_findings.dfy` (module `LinkedRingFindings`).

## How the model is built

**The instance.** A component instance is a class `Lifecycle.Instance`.
- Its fields are the stage, the props and the state; the callback set is a
  constant.
- User callback bodies are functions from the props and state they see to
  the new state.
- Every callback invocation is recorded in a ghost `trace`, with the stage,
  props and state at that moment.

**The dispatcher.** `Instance.Staging` is the source's if/else chain, written
as statements.
- It is proved equal to the transition table `Dispatch`, a pure function.
- Every dispatch property is a lemma about `Dispatch`.
- The loop macros are methods over sequences of distinct instances. Their
  contracts are stated through `Dispatch`.

**The ring.** A ring is a class `LinkedRing.Ring` over an array of `size + 1`
cells. The first write makes cell `size` the tail (src/lr.c:48), so the
arena needs that extra cell.
- Pointers are cell indices, and null is -1.
- A ghost cyclic order of the cells and a ghost list of the records in the
  occupied run (`contents`) abstract the links.
- `Valid()` ties the links, the cursors and the owner mask to that
  abstraction.
- The loops of `lr_read` and `lr_length_limited_owned` are `while` loops over
  the array.

**The table.** The key/value table is a class `Hash.Table` over the caller's
two arrays. Its abstraction is the map held by the live slots.

**Words.** Owner tags and data are 64-bit words (`uintptr_t`). The 8-bit
counter of the length function, its 16-bit result and the doubling of
`lr_owner` wrap around explicitly.

**Two behaviours of the code worth knowing.**
- `will_update` commits the new props as soon as its body returns. So a
  PREPARED instance already carries the new props, before release and
  did_update run.
- The final `else if (EER_STAGE_BLOCKED)` branch of `eer_staging` tests an
  enumerator whose value is 0. It is never taken, so the dispatcher never
  returns BLOCKED.

## Model

| member | source | states |
|---|---|---|
| Lifecycle.Dispatch | src/eer.c:17-79 | Every dispatch returns SAME or UPDATED (never BLOCKED) and leaves the instance BLOCKED, RELEASED or PREPARED. A SAME result means nothing changed and should_update was the only callback. A BLOCKED trigger always ends BLOCKED with the props kept. Props change only through will_mount or will_update, and the state only through a callback other than should_update. |
| Lifecycle.Instance.constructor | profiler/profiler.h:87-96 | A new instance is DEFINED with its initial props and state and an empty trace. |
| Lifecycle.Instance.WillMount | include/eer_lifecycle.h:100-115 | A null `next_props` becomes the instance's own props. The props are committed before the body runs, so the body sees the new props as current. |
| Lifecycle.Instance.ShouldUpdate | include/eer_lifecycle.h:84-98 | Forwards the body's answer for the substituted `next_props`, and changes no stage, props or state. |
| Lifecycle.Instance.WillUpdate | include/eer_lifecycle.h:117-132 | The body runs first and sees the old props and the substituted `next_props`. Only then are the new props committed. |
| Lifecycle.Instance.Release | include/eer_lifecycle.h:59-68 | Runs the release body on the current props; stage and props stay. |
| Lifecycle.Instance.DidMount | include/eer_lifecycle.h:59-68 | The did_mount body runs on the current props and state and may write the state. Stage and props stay. |
| Lifecycle.Instance.DidUpdate | include/eer_lifecycle.h:59-68 | The did_update body runs on the current props and state and may write the state. Stage and props stay. |
| Lifecycle.Instance.DidUnmount | include/eer_lifecycle.h:59-68 | The did_unmount body runs on the current props and state and may write the state. Stage and props stay. |
| Lifecycle.Instance.Staging | src/eer.c:17-34 | The chain of tests leaves the instance, the callback trace and the result exactly as `Dispatch` says. |
| Lifecycle.Instance.Advance | src/eer.c:36-78 | The stage chain, given the props the callbacks are handed, does what the per-stage table `Handle` says. |
| Lifecycle.Encodings | include/eer.h:182-203 | Context SAME = 0, UPDATED = 1, BLOCKED = 2, and UPDATED OR BLOCKED = 3 in the 2-bit field. Stage BLOCKED = 0 up to UNMOUNTED = 5, all distinct. |
| Lifecycle.SameIsQuiet | src/eer.c:23-26 | A SAME trigger on a RELEASED or BLOCKED instance returns SAME, invokes nothing and changes nothing. |
| Lifecycle.MountSequence | src/eer.c:57-66 | DEFINED runs will_mount, release and did_mount, all while still DEFINED and with the new props, each body on its predecessor's state. Then it becomes RELEASED and returns UPDATED. |
| Lifecycle.UpdateDeclined | src/eer.c:36-40 | RELEASED with should_update false returns SAME and keeps stage, props and state. |
| Lifecycle.UpdatePrepared | src/eer.c:42-44 | RELEASED with should_update true becomes PREPARED. After should_update only will_update runs, while PREPARED and on the old props, and then the new props are committed. Release and did_update wait for the next call. |
| Lifecycle.CommitSequence | src/eer.c:52-56 | PREPARED becomes RELEASED, then release and did_update run, in that order on the state, and the call returns UPDATED. The props stay. |
| Lifecycle.ReactSequence | src/eer.c:45-51 | REACTING runs will_update (PREPARED), release and did_update (RELEASED) in one call, in that order on the state, and never consults should_update. |
| Lifecycle.BlockedTriggerUnmounts | src/eer.c:30-72 | A BLOCKED trigger from any stage, BLOCKED included, ends BLOCKED with the props kept and returns UPDATED. did_unmount runs, and may change the state, only when its slot is set. |
| Lifecycle.BlockedStageAnswersUpdated | src/eer.c:73-78 | A BLOCKED instance given UPDATED or props returns UPDATED with no callbacks, because the BLOCKED test is on the constant 0. |
| Lifecycle.SkipBodies | include/eer_lifecycle.h:141-180 | SHOULD_UPDATE_SKIP answers true, and the will_mount, will_update and release skips keep the state. |
| Lifecycle.SkipIsInert | include/eer_lifecycle.h:151-170 | With the skip callbacks the state never changes, and the props change only to the props a trigger carries. |
| Lifecycle.UpdatedQuietIff | src/eer.c:27-44 | Given UPDATED, an instance answers SAME exactly when it is RELEASED and declines its own props. Otherwise it answers UPDATED. |
| Loop.SignalsCombine | include/eer.h:182-191 | The OR of dispatch results (each SAME or UPDATED) is SAME or UPDATED, and UPDATED exactly when one of them is. So no loop context becomes 3 or BLOCKED. |
| Loop.QuietIffAllSame | include/eer.h:163 | The OR of contexts is SAME exactly when each is SAME. |
| Loop.StageEach | include/eer.h:125-127 | Stages each listed instance exactly once with the same trigger. Each instance ends as `Dispatch` says and the results are collected in order. |
| Loop.ApplyGate | include/eer.h:76-86 | The props proposed to `apply` are committed only under an UPDATED context: by a DEFINED instance, or by a RELEASED one whose should_update accepts them (a refusal changes nothing). In every other case the props stay, whatever was proposed. |
| Loop.Apply | include/eer.h:76-86 | The instance is staged once with that trigger. |
| Loop.React | include/eer.h:111-119 | The instance is first staged with the loop context. Then, unless that context is BLOCKED, it is forced REACTING and staged with the new props. The first result is not consulted. |
| Loop.Shut | include/eer.h:121-123 | The instance ends BLOCKED with its props. did_unmount, when its slot is set, is the only callback and the only change to the state. |
| Loop.Use | include/eer.h:125-127 | Each listed instance is staged exactly once with the loop context. |
| Loop.With | include/eer.h:129-138 | Unless the enclosing land is finished, each instance is staged once with the enclosing context, the inner context is the OR of the results, and the body runs exactly once. A finished land stages nothing and runs no body. |
| Loop.Broadcast | include/eer.h:155-165 | The context is UPDATED with no instances. Otherwise it is the OR of staging each with UPDATED, which is SAME exactly when every instance is RELEASED and declines its own props. |
| Loop.While | include/eer.h:155-165 | Every body run sees UPDATED, and there is one broadcast per tick plus the first. `unmounted` is set exactly after the unmounting tick. Within the fuel bound, the loop stops only when the body unmounted or a broadcast gave SAME. Each instance ends as that many stagings with UPDATED leave it. The context is SAME exactly when there are instances and all were quiet before the last broadcast; with no instances it stays UPDATED. |
| Loop.Rebroadcast | include/eer.h:164-165 | One more broadcast takes every instance one staging with UPDATED further. It answers SAME exactly when all of them were quiet before it. |
| Loop.TicksSettle | include/eer.h:163-165 | Once an instance is quiet, further broadcasts leave it as it is and each answers SAME. So the SAME stop of `eer_while` loses no update. |
| Loop.Boot | include/eer.h:141-148 | The boot context is the OR of the results with UPDATED, which is always UPDATED. |
| Loop.Ignite | include/eer.h:167-175 | `halt(code)` returns `code` exactly when the body unmounts within the passes modelled, on the pass that unmounts. Until then every pass boots again with the context UPDATED. Each instance ends as one staging with UPDATED per pass leaves it. |
| Loop.TwoPhaseApply | include/eer.h:76-86 | Two ticks of `apply` on a RELEASED instance. The first prepares (will_update, props already new). The next, whatever its context, commits (release, then did_update, on the state) and drops the props proposed then. |
| Loop.ReactForces | include/eer.h:111-119 | After `react` under SAME or UPDATED, the instance is RELEASED with the new props. will_update, release and did_update ran in that order on the state, without should_update. |
| LinkedRing.Owner | include/lr.h:11 | `lr_owner` doubles the pointer modulo 2^64, so every tag is even. |
| LinkedRing.OwnerNeverSentinel | src/lr.c:103 | No `lr_owner` tag equals the sentinel 0xFFFF. |
| LinkedRing.Scan | src/lr.c:25-32 | The do/while count of the length function; its 8-bit counter stays below 256. |
| LinkedRing.ScanCounts | src/lr.c:25-32 | Without a limit the scan adds the owner's record count over the rest of the run, modulo 256. |
| LinkedRing.LengthOf | src/lr.c:6-33 | The length function's cases: 0 for an empty ring, 0 for an owner with bits missing from the mask, `size` for owner 0 on a full ring, the scan otherwise. The result fits 16 bits. |
| LinkedRing.MaskKeepsPresent | src/lr.c:17-18 | With the mask equal to the OR of the run's tags, an owner with a record passes the mask test. |
| LinkedRing.GateSound | src/lr.c:89-90 | If the emptiness gate of `lr_read` is nonzero, the owner has a record. |
| LinkedRing.GateComplete | src/lr.c:89-90 | If the owner has a record, the gate is nonzero, unless the 8-bit count wraps or owner 0 meets a full ring of 16-bit size 0. |
| LinkedRing.OwnedLength | include/lr.h:35 | Without a limit the length counts the owner's records modulo 256. Only owner 0 on a full ring gets `size` instead. |
| LinkedRing.CountPositive | src/lr.c:27-28 | The owner's record count is positive exactly when the run holds a record the owner reads. |
| LinkedRing.CountAll | src/lr.c:27 | Owner 0 counts every record. |
| LinkedRing.Text | src/lr.c:169 | The bytes `lr_write_string` looks at: the longest prefix without a NUL, which is followed by a NUL or by the end of the input. |
| LinkedRing.Fitting | src/lr.c:169-172 | The part of that text a ring with `room` free cells takes: all of it, or exactly its first `room` bytes. |
| LinkedRingLayout.FirstMatch | src/lr.c:99 | The position of the first record the owner reads (any record for owner 0); no earlier record matches. |
| LinkedRingLayout.OrTagsSnoc | src/lr.c:59 | Appending a record ORs its tag into the mask. |
| LinkedRingLayout.TagWithinOr | src/lr.c:17-18 | Every tag of the run is covered by the mask. |
| LinkedRingLayout.RunStep | src/lr.c:108 | The link of an occupied cell leads to the next cell of the ring, and it leads back to the needle exactly at the last record of the run. |
| LinkedRingLayout.FirstWrite | src/lr.c:47-72 | The first write into a zeroed arena gives a ring over all its cells whose run holds that one record. |
| LinkedRingLayout.Append | src/lr.c:53-72 | A write into the first free cell appends the record to the run. `write` moves on, or becomes null when the run closes the ring. |
| LinkedRingLayout.TakeLast | src/lr.c:106-122 | Taking the last record of the run changes no link, and its cell becomes the first free one. |
| LinkedRingLayout.Splice | src/lr.c:113-161 | Unlinking record j, linking the freed cell in front of the free cells and closing the run over it gives a ring whose run holds the other records, in order. |
| LinkedRing.ArenaStarted | src/lr.c:47-51 | The first write into a zeroed arena gives a ring of the whole arena holding that one record. |
| LinkedRing.ArenaAppended | src/lr.c:53-72 | A write into the first free cell keeps the ring shape and appends the record to the run. |
| LinkedRing.ArenaTaken | src/lr.c:106-122 | Taking the last record of the run changes no cell and drops that record from the run. |
| LinkedRing.ArenaSpliced | src/lr.c:113-161 | Taking a record from inside the run keeps the ring shape. The other records keep their order, and the freed cell becomes the first free cell. |
| LinkedRing.Ring.constructor | include/lr.h:19-28 | A ring over a zeroed arena of `size + 1` cells, with null cursors and an empty run. |
| LinkedRing.Ring.Cursors | src/lr.c:43-44 | `read` is null exactly when the run is empty, and `write` null with `read` set (full) exactly when the run fills the arena. |
| LinkedRing.Ring.Mask | src/lr.c:59 | The owner mask is the OR of the tags of the records in the run. |
| LinkedRing.Ring.LengthLimitedOwned | src/lr.c:6-33 | `lr_length_limited_owned` returns `LengthOf` of the run, its loop condition `!limit \|\| limit == length` kept as written. |
| LinkedRing.Ring.Length | include/lr.h:33 | `lr_length` is the record count modulo 256, except that a full ring reports `size`. |
| LinkedRing.Ring.Exists | include/lr.h:34 | `lr_exists` as written answers 0 unless the owner reads the first record of the run, and then 1 or 2, depending on whether it also reads a later one. Owner 0 on a full ring gets `size`. |
| LinkedRing.ExistsAsWritten | src/lr.c:6-33 | The same value of the limit-1 length function, over all runs. |
| LinkedRing.ScanPastFirst | src/lr.c:26-30 | Once the counter is at 1 with limit 1, the loop passes records the owner does not read and stops at 2 on the next one it reads. |
| LinkedRing.Ring.LengthOwned | include/lr.h:35 | `lr_length_owned` is the owner's record count modulo 256; owner 0 on a full ring gets `size`. |
| LinkedRing.Ring.Write | src/lr.c:35-75 | A full ring answers ERROR_BUFFER_FULL and changes nothing. Otherwise the record joins the end of the run and its tag joins the mask. |
| LinkedRing.Ring.Start | src/lr.c:47-51 | The first write makes cell `size` the tail, linked to cell 0, which takes the record. |
| LinkedRing.Ring.Append | src/lr.c:53-72 | A write into the first free cell appends the record. |
| LinkedRing.Ring.WriteString | src/lr.c:166-175 | Writes the bytes before the NUL in order. It answers OK exactly when they all fit. Otherwise it answers ERROR_BUFFER_FULL, keeping the bytes that fit. |
| LinkedRing.Ring.WriteBytes | src/lr.c:169-172 | The loop stops at the NUL, the end of the string or the first refused byte. The bytes before that stop are appended. |
| LinkedRing.Ring.Read | src/lr.c:78-164 | With the gate at 0, answers ERROR_BUFFER_EMPTY: nothing changes and the caller's data stays. Otherwise the owner has a record; the first one (any record, for owner 0) is delivered and leaves the run, and the others keep their order. |
| LinkedRing.Ring.Extract | src/lr.c:94-163 | Past the gate, the owner's first record leaves the run and its data is returned. |
| LinkedRing.CountScan | src/lr.c:25-32 | The counting loop over the arena computes `Scan` over the run. |
| LinkedRing.Seek | src/lr.c:96-149 | The scan passes the cells before the owner's first record, ORing their tags into the new mask, and reaches that record's cell. |
| LinkedRing.Collect | src/lr.c:141-149 | After the match, the remaining cells only add their tags. The scan ends at the last cell of the run, with the mask that of the run without the taken record. |
| LinkedRing.Bypass | src/lr.c:106-137 | The predecessor (for the head, the tail, unless the ring is full) is linked past the taken cell. The freed cell is linked to the first free cell, or on a full ring to the new head. |
| LinkedRing.LinkFreed | src/lr.c:151-161 | The last cell of the run is linked to the freed cell. The freed cell becomes `write`, and on a full ring also the tail. |
| LinkedRing.ReleaseLast | src/lr.c:106-122 | Taking the last record of the run leaves the cells as they were. `write` steps back onto that cell, and a run of one record loses its `read`. |
| LinkedRing.ReleaseInner | src/lr.c:113-161 | Taking a record from inside the run leaves a ring that holds the other records in their order. |
| LinkedRing.ReadScan | src/lr.c:94-163 | The whole scan of `lr_read` returns the owner's first record and leaves a ring whose run is the old run without it. |
| LinkedRingFindings.FullOfThreeIsARing | include/lr.h:19-28 | The three-cell full ring used below is a well-formed ring holding a, b, c. |
| LinkedRingFindings.FullRingHeadReadLosesRecord | src/lr.c:124-140 | As written, reading the head of that full ring delivers a, but only b stays readable. No cell links to c's cell any more. The intended result keeps b and c. |
| LinkedRingFindings.ExistsMissesSecondRecord | src/lr.c:25-32 | As written, `lr_exists` answers 0 for an owner whose only record is second in the run. |
| LinkedRingFindings.CappedScanCounts | src/lr.c:25-32 | The capped scan counts the owner's records up to the limit. |
| LinkedRingFindings.CappedExists | include/lr.h:34 | The capped `lr_exists` is 1 exactly when the owner has a record, and 0 otherwise. |
| Hash.AsMapDomain | src/hash.c:3-13 | The keys of the table's map are the keys in its live slots. |
| Hash.AsMapValue | src/hash.c:3-13 | With distinct keys, each live slot's key maps to that slot's value. |
| Hash.Replaced | src/hash.c:34-39 | Overwriting the value in a key's slot updates exactly that key. |
| Hash.Appended | src/hash.c:41-46 | Appending a new key at slot `used` adds it to the map. |
| Hash.Removed | src/hash.c:17-25 | Moving the last live entry into the freed slot removes exactly the popped key, and the keys stay distinct. |
| Hash.Table.constructor | hal/arm64/dbg/gpio.c:28-33 | A table over two caller arrays of `size` slots with none in use holds the empty map. |
| Hash.Table.Find | src/hash.c:5-11 | The scan finds the live slot holding the key, or shows that no live slot holds it. |
| Hash.Table.Read | src/hash.c:3-13 | `hash_read` answers OK exactly when the key is present, with its value. An absent key gives ERROR_BUFFER_EMPTY and leaves the caller's value as it was. |
| Hash.Table.Write | src/hash.c:32-50 | A present key gets the new value and `used` stays. A new key with room is appended at slot `used`, and `used` grows by 1. A new key in a full table gives ERROR_BUFFER_FULL and no change. |
| Hash.Table.Pop | src/hash.c:15-30 | A present key leaves the map with its value returned, and `used` drops by 1. An absent key gives ERROR_BUFFER_EMPTY and no change. |
| Hash.Table.MoveLast | src/hash.c:21-22 | The freed slot takes the key and value of the last live slot. |
| Hash.WriteThenRead | src/hash.c:3-50 | A write that succeeds (key present, or room left) is read back with the value written. |
| Hash.PopThenRead | src/hash.c:3-30 | After a pop the key reads as ERROR_BUFFER_EMPTY, and every other key keeps its presence and value. |
| Hash.ScanAsWritten | src/hash.c:5 | The as-written scan `index <= used` finds the first slot up to and including `used` that holds the key. |
| Hash.PoppedKeyStaysReadable | src/hash.c:17-25 | As written, popping the only entry leaves its key readable with its old value. |

## Left out

- Lifecycle.Instance.Staging: requires that the trigger is not the context value 3. The source would dereference 3 as a props pointer. Loop.SignalsCombine shows that no loop context becomes 3.
- Lifecycle.Instance.Staging: the trigger decoding and the stage chain of `eer_staging` are two methods, `Staging` and `Advance`. Their statements are the source's, in its order.
- LinkedRing.Ring.Write: requires an owner tag other than 0xFFFF. `lr_read` uses 0xFFFF as its "already found" marker (src/lr.c:103), so a record with that tag would confuse its scan. `lr_owner` never produces that tag (LinkedRing.OwnerNeverSentinel).
- LinkedRing.Ring.WriteString: carries the same restriction on the owner tag.
- LinkedRing.Ring.constructor: requires `size >= 1`. With size 0 the first write makes the only cell both the tail and the record.
- LinkedRing.Ring.Read, LinkedRing.Ring.Extract, LinkedRing.ReadScan, LinkedRing.Bypass, LinkedRing.LinkFreed: model `lr_read` with the first finding below corrected. When the head of a full ring is read, the tail is not relinked (line 128) and the needle is not moved (lines 139-140). Every other path is as written.
- LinkedRing.Ring.Exists: models `lr_exists` as written. Its corrected version is LinkedRingFindings.CappedExists.
- LinkedRing.GateComplete: excludes an owner with 256 or more records, whose 8-bit count wraps to 0.
- LinkedRing.GateComplete: also excludes owner 0 on a full ring whose size is a multiple of 65536.
- LinkedRing.ReadScan: the ring's cursors are locals of the scan and are stored back by `Install` afterwards. The source writes them into the ring as it goes; nothing can observe the difference between calls.
- LinkedRing.ReadScan: the single do/while loop of `lr_read` is split up. `Seek` runs up to the match, and the relinking is `Bypass` (or `ReleaseLast` when the match is the last record). `Collect` runs after the match, and `LinkFreed` ends it. The tests and writes are the source's, in its order.
- Hash.Table: models the scans with the corrected bound `index < used` (third finding). The as-written bound also reads slot `used`, and past the arrays on a full table. Only the value-level functions ScanAsWritten, ReadAsWritten and PopAsWritten model it.
- Hash.Table: distinct keys is an invariant of the class. The write path keeps it, because a present key is overwritten in place.
- Hash.Table.Pop: the optional `ptr` out-parameter is the returned Option value. A caller passing null ignores it.
- Loop.StageEach, Loop.Use, Loop.With, Loop.Broadcast, Loop.Rebroadcast, Loop.While, Loop.Spin, Loop.Tick, Loop.Boot, Loop.Reboot, Loop.Ignite: a list of instances shares one props type and one state type. The source lists components of different types in one loop (test/MultiLoopTest.c:104). Each instance is staged on its own, so nothing proved depends on the shared types, but components of different types are not modelled in one list.
- Loop.While: the user code of a tick is abstract. It only raises `unmounted` at a given tick, and `fuel` bounds the number of ticks modelled.
- Loop.Ignite: models restarts the same way, with its own fuel bound.
- The `EVAL(MAP(...))` preprocessor iteration becomes iteration over a sequence of instances.
- The bit-field packing of `eer_land` and `eer_stage` is not modelled. The fields are plain, except that the context keeps its 2-bit width.
- The concurrency between interrupt producers and the loop consumer around the ring is not modelled. Operations run one at a time.
- Profiling, logging, `lr_dump` and the `PROFILING` hash write in `eer_staging` only print and time things, and are not modelled.
- `lr_write_cells`, `lr_peek`, `lr_read_filter`, `lr_map` and `lr_map_read` (include/lr.h:38-48) are declared but have no implementation.
- The hook lifecycle macros (include/eer_lifecycle.h:183-194) forward to callback fields of the user's own component type, which is user code.
- `eer_updatecycle_skip` falls off the end of a function that returns a value, so its result is undefined.
- `eer_lifecycle_prepare` and `eer_lifecycle_finish` expand to nothing.
- The hardware abstraction, the host simulators and the tests are not modelled.

## Findings

| source | as written | input that shows it | evidently intended | confidence | as-written member | corrected member |
|---|---|---|---|---|---|---|
| src/lr.c:124-140 | On a full ring the needle is `read` itself. Reading the head moves the needle to the tail cell (lines 139-140), so the scan stops one cell early. Line 155 then links the record before the tail to the freed cell, and the tail's record drops out of the ring. | A ring of size 2, full with a, b, c: `lr_read` with owner 0 delivers a and leaves only b readable. No cell links to c's cell. | b and c stay readable, and the freed cell becomes the new tail. | not executed | LinkedRingFindings.FullRingHeadReadLosesRecord | LinkedRing.Ring.Read |
| src/lr.c:30 | The loop goes on only while `!limit \|\| limit == length`. With limit 1 it stops after the first cell unless that cell was counted. | A run whose first record belongs to owner 2 and whose second belongs to owner 4: `lr_exists(lr, 4)` is 0. | A nonzero limit caps the count, so `lr_exists` is 1 exactly when the owner has a record. | not executed | LinkedRingFindings.ExistsMissesSecondRecord | LinkedRingFindings.CappedExists |
| src/hash.c:5-34 | The scans run while `index <= used`, so they also read slot `used`, which holds no live entry. Popping the last entry leaves its key in that slot. | One entry, key 7, in a table with two slots: `hash_pop(7)` answers OK, and `hash_read(7)` then still answers OK with the old value. | The scans stop at `index < used`, so a popped key is absent. | not executed | Hash.PoppedKeyStaysReadable | Hash.Table.Pop |
