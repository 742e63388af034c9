# Bowline: a Dafny model of the sync client's hard core

Bowline keeps one workspace in step across several devices. What is difficult about it sits in
small stateful protocols that have to survive crashes, failures and stale writers, and in a few
algorithms and codecs with exact specifications. This project models those and proves what they
are for. `dafny verify dfyconfig.toml` checks all of it.

**Crash-safe files.** `Filesystem.Disk` is a map from paths to entries. Before every operation
outsiders may change the paths they share, and the operation may fail or the process may be
killed; after a kill all further operations do nothing, so a contract about the final state of a
method holds at every point where that method can be cut. Everything the process itself does to
ordinary (non-temporary) names is kept in the log `visible`. On top of it stand the staged atomic
write (`AtomicFile`), the recovery-preimage seal (`RecoverySeal`), the local byte store
(`ByteStore`) and, with its own inode-level file model, log rotation (`LogRotation`). Seal
attempts that overlap, one attempt among edits, and puts of one object that overlap are step
machines of their own (`SealOverlap`, `SealEdit`, `StoreOverlap`).

**Sync protocols.** The engine slot (`EngineSlot`), the upload pipeline as a step machine over any
number of devices (`UploadPipeline`), the ref-version lookup against a moving log (`RefLookup`),
the garbage-collection sweep (`StorageGc`) and the device-trust refresh budget (`DeviceTrust`,
and `TrustOverlap` for refreshes in flight together).

**Algorithms and codecs.** Glob tables (`Glob`), prefetch batches (`Prefetch`), frames
(`FrameCodec`), canonical framing and proof preimages (`CanonicalFraming`, `DeviceProofs`), path
normalisation and symlink walks (`PathText`, `WorkspacePath`), worktree-link relocation
(`WorktreeLink`) and retry delays (`RetryBackoff`).

## What turned out false of the code

Each of these has a member with a concrete input, named first, and one that says exactly when the
property does hold or what is lost.

- The final re-check of the seal reads the bytes and then takes the closing `stat`. An edit that
  lands between the two and keeps inode, mode and length passes
  (`RecoverySeal.RecheckMissesInPlaceEdit`), and a whole attempt deletes it and keeps no copy
  (`SealEdit.EditLost`). An edit made there can be deleted if and only if it keeps what a stat
  shows (`SealEdit.EditDeletedIff`), and with no edit there none is lost (`SealEdit.NoEditLost`).
- Seal attempts that overlap can lose the plaintext: one publishes, a second relies on that envelope
  and deletes the plaintext, and the first, finding it gone, withdraws the envelope
  (`SealOverlap.OverlapLoses`). A deletion is safe if and only if the envelope holds the bytes and no
  other attempt that published it is still in flight (`SealOverlap.KeptIffCovered`).
- Puts of one object that overlap can break a promise: one writes the blob, fails to write metadata
  and sees none; a second adopts the blob and succeeds; the first removes it
  (`StoreOverlap.OverlapBreaks`). A removal keeps every promise if and only if there is no metadata
  and nobody is adopting the blob (`StoreOverlap.KeptIffCovered`).
- `drain_queue` empties the queue before it uploads. A blob accepted earlier is in neither the
  queue nor the store after a failed settle (`UploadPipeline.FailedDrainForgets`). A publishing call
  keeps the upload-before-reference law if and only if every blob it makes reachable is stored or
  queued when it begins (`UploadPipeline.LawIffCovered`); blobs accepted with no failed call since
  are (`UploadPipeline.AcceptedCovers`).
- A head whose snapshot id is not a manifest key makes `lookup_ref_version` answer NotAdvanced for
  a version that exists (`RefLookup.OpaqueHeadDenies`, exactly: `RefLookup.DeniedExactly`).
- `plan_gc` does not merge rows by key. An object at the current head is deleted when the listing
  also has an unreferenced row for it (`StorageGc.DisagreeingRowsCondemn`). Retained objects are
  spared exactly when rows sharing a key agree (`StorageGc.SparesRetained`).
- The offer digest sorts stably by recipient only, so the order of two different offers for one
  recipient shows (`DeviceProofs.OrderShows`, beside the if-and-only-if `PreimageIsOfferSet`).
- Attempts 255 and 256 under a jitter of 3 always share an offset
  (`RetryBackoff.BlockBoundaryRepeats`). Four consecutive attempts take all four offsets exactly when
  counting through them makes no odd carry (`RetryBackoff.FourOffsets`).
- The symlink walk keeps a target component such as `..\x` as one name, and the normalisation after
  it turns that into a climb out of the root (`WorkspacePath.BackslashClimbsOut`). The result has a
  parent component exactly when some walked name has one once its backslashes are read as slashes
  (`WorkspacePath.ResolvedClimbs`).
- Two trust refreshes about one device that are in flight together and settle in the other order
  leave the earlier refusal time in the table, so a read can come 570 seconds after a refusal
  (`TrustOverlap.OverlapRewindsRefusal`). The table stands for every refusal not cleared by changed
  trust, at every moment, if and only if each device's refusals are recorded in the order of their
  claims, and then every refusal is respected (`TrustOverlap.StandsIffInOrder`, `OverlapLaws`).
- A settle compares its list with what its call noted before the read. When another call has
  installed the same list meanwhile, no answer moves and yet all refusals are cleared, so a device is
  read again 30 seconds after it was refused (`TrustOverlap.StaleClearForgets`). A settle clears
  without cause exactly when its list is not what it noted but is what was installed by the time it
  came, and fails to clear exactly when it is the other way round (`TrustOverlap.StaleKeepRefuses`,
  `TrustOverlap.StaleExactly`); without stale clears, refusals in claim order give way to moved
  answers only (`TrustOverlap.RespectsForCause`).
- A full refusal table records no further refusal, not even a fresh time for a device it already
  holds (`DeviceTrust.FullTableForgets`), and a list that names a device twice counts as changed
  trust although no answer moved (`DeviceTrust.DoubledDeviceReadsAsChanged`). Exactly when a refusal
  is recorded and trust counts as changed is in the contract of `RefreshUnknownSigner`.

## Model

| member | source | states |
|---|---|---|
| AtomicFile.StagedAtomicFile.CommitReplace | crates/bowline-core/src/fs_atomic.rs:81-85 | at every cut the destination is as before or holds the complete staged bytes, put there in one visible change; success means the new name is synced and nothing failed; the temporary file is gone on every return when removals succeed |
| AtomicFile.StagedAtomicFile.CommitNoReplaceAt | crates/bowline-core/src/fs_atomic.rs:89-100 | a no-replace commit publishes at most once and only while the name was free, whatever a competitor creates and when; success means the new name is synced; no temporary sibling of either path stays |
| AtomicFile.StagedAtomicFile.CommitNoReplaceInner | crates/bowline-core/src/fs_atomic.rs:102-125 | the same for the hard link, falling back to a copy exactly when the link crosses devices |
| AtomicFile.StagedAtomicFile.Unlink | crates/bowline-core/src/fs_atomic.rs:120-123 | the file counts as committed exactly when its staging name is removed and that removal synced |
| AtomicFile.StagedAtomicFile.CommitCrossDevice | crates/bowline-core/src/fs_atomic.rs:127-165 | the copying fallback also never alters an existing destination |
| AtomicFile.StagedAtomicFile.CopyAcross | crates/bowline-core/src/fs_atomic.rs:147-161 | the second staging file carries the same bytes and is committed without replacing |
| AtomicFile.StagedAtomicFile.Drop | crates/bowline-core/src/fs_atomic.rs:168-174 | an uncommitted staging file is removed on drop, a committed one is left alone |
| AtomicFile.Stage | crates/bowline-core/src/fs_atomic.rs:209-262 | nothing visible changes; success yields a temporary sibling holding exactly the written bytes under the requested mode, failure leaves none when removals succeed; a symlink destination is refused where that is asked for, unless it cannot be inspected |
| AtomicFile.FillTemporary | crates/bowline-core/src/fs_atomic.rs:242-261 | a stale sibling is cleared first, a failed write is cleaned up, and the file has its mode from its first byte on |
| AtomicFile.WriteAtomic | crates/bowline-core/src/fs_atomic.rs:27-58 | over the whole write the destination holds its earlier bytes, a competitor's, or the complete new ones under the requested mode; without replacement only a free name is taken; a symlink is refused where that is asked for, unless it cannot be inspected; success implies publication under a synced name, with nothing failed but inspections and clean-ups; no temporary sibling stays |
| RecoverySeal.RecheckMissesInPlaceEdit | crates/bowline-storage/src/recovery_preimage.rs:326-344 | an edit after the re-check's read that keeps inode, mode and length is accepted although the bytes differ |
| RecoverySeal.Sealer.ReadStable | crates/bowline-storage/src/recovery_preimage.rs:306-324 | whoever edits, the file at the closing stat has the identity returned, and missing means missing; with nobody editing, the bytes returned are the file's own |
| RecoverySeal.Sealer.Authenticate | crates/bowline-storage/src/recovery_preimage.rs:474-497 | success means the envelope on disk opens to the plaintext read; such an envelope is accepted unless an operation fails |
| RecoverySeal.Sealer.Recheck | crates/bowline-storage/src/recovery_preimage.rs:326-344 | success means the plaintext file still holds the bytes that were sealed |
| RecoverySeal.Sealer.Resume | crates/bowline-storage/src/recovery_preimage.rs:157-187 | with the plaintext gone, an authentic envelope completes the attempt and nothing is changed |
| RecoverySeal.Sealer.Publish | crates/bowline-storage/src/recovery_preimage.rs:84-121 | the envelope is published only where there was none, whatever is there afterwards on success opens to the plaintext, and success says rightly whether it was this attempt that published it |
| RecoverySeal.Sealer.Withdraw | crates/bowline-storage/src/recovery_preimage.rs:468-472 | an envelope this attempt published is removed unless the removal fails; any other stays |
| RecoverySeal.Sealer.Finish | crates/bowline-storage/src/recovery_preimage.rs:122-155 | it deletes a plaintext with the identity that was read, holding the bytes that were sealed if nobody edits during the re-check; or withdraws an envelope that this attempt published; or neither; never both. A failed re-check or removal takes this attempt's envelope back unless that removal fails, and nothing else does |
| RecoverySeal.Sealer.SealRead | crates/bowline-storage/src/recovery_preimage.rs:81-155 | from the plaintext on: a new envelope holds what was read; what is deleted has the identity that was read and, without edits in the re-check, the bytes sealed |
| RecoverySeal.Sealer.DeletePlaintext | crates/bowline-storage/src/recovery_preimage.rs:139-150 | the plaintext is deleted and nothing else, synced on success; or nothing is deleted and this attempt's envelope is taken back unless that removal fails |
| RecoverySeal.Sealer.Seal | crates/bowline-storage/src/recovery_preimage.rs:64-155 | at every cut: an earlier envelope is untouched, every plaintext deleted opens from the envelope, has the identity that the attempt's first observation found, and is changed by its own deletion only; after a failed re-check or removal no envelope stays that was not there before, unless its removal fails; no temporary sibling stays when removals succeed; success leaves the envelope alone and is reported only if every step but inspections and clean-ups succeeded; without faults every sealable state succeeds |
| RecoverySeal.Sealer.Attempts | crates/bowline-storage/src/recovery_preimage.rs:64-187 | over any number of attempts one after the other, each cut or failed anywhere, the starting bytes are in the plaintext file or in an envelope that opens to them, no plaintext deleted at any time, edits included, is lost, a last attempt in which nothing fails leaves a sealable plaintext sealed and gone, and whatever is deleted has the identity that the first observation of some attempt found |
| SealEdit.NoEditLost | crates/bowline-storage/src/recovery_preimage.rs:64-155 | in every run of an attempt among edits, with none between the check's read and its closing stat, everything deleted is in the envelope |
| SealEdit.EarlierStays | crates/bowline-storage/src/recovery_preimage.rs:64-155 | an envelope that was there before the attempt stays, whatever fails and whoever edits |
| SealEdit.SealsAndDeletes | crates/bowline-storage/src/recovery_preimage.rs:64-155 | a whole attempt that nobody disturbs ends with the plaintext deleted and sealed |
| SealEdit.EditDeletedIff | crates/bowline-storage/src/recovery_preimage.rs:326-344 | an edit made between those two can be deleted, unsealed, if and only if it keeps what a stat shows |
| SealEdit.EditLost | crates/bowline-storage/src/recovery_preimage.rs:64-155 | a whole attempt that seals the first bytes, deletes an edit and keeps no copy of it |
| SealOverlap.StepKeeps | crates/bowline-storage/src/recovery_preimage.rs:64-187 | every step of any number of overlapping attempts keeps the bytes in a file that nobody can still take away, if deletions are covered |
| SealOverlap.CarefulKeeps | crates/bowline-storage/src/recovery_preimage.rs:64-187 | so every run in which each deletion is covered, however the attempts interleave and fail, keeps the bytes |
| SealOverlap.OverlapLoses | crates/bowline-storage/src/recovery_preimage.rs:84-146 | a run of two overlapping attempts that ends with neither plaintext nor envelope |
| SealOverlap.UncoveredLoses | crates/bowline-storage/src/recovery_preimage.rs:126-146 | every uncovered deletion has a continuation, careful from there on, that loses the bytes |
| SealOverlap.KeptIffCovered | crates/bowline-storage/src/recovery_preimage.rs:126-146 | a deletion leaves the bytes safe under everything that may follow if and only if the envelope holds them and no other attempt that published it is in flight |
| SealOverlap.OneAtATimeKeeps | crates/bowline-storage/src/recovery_preimage.rs:64-187 | attempts that never overlap are careful, so a lock around attempts is enough |
| ByteStore.PathsDistinct | crates/bowline-storage/src/store.rs:161-167 | blob and metadata paths of all keys are pairwise different |
| ByteStore.Consume | crates/bowline-storage/src/store.rs:316-350 | the streaming loop accepts exactly the streams with the declared length and hash, and then writes all of their bytes |
| ByteStore.LocalByteStore.MetadataForKey | crates/bowline-storage/src/store.rs:208-226 | metadata is returned exactly when it describes the key asked for, unless it cannot be read |
| ByteStore.LocalByteStore.VerifyMetadata | crates/bowline-storage/src/store.rs:238-242 | succeeds only when the blob has the recorded length and hash |
| ByteStore.LocalByteStore.Get | crates/bowline-storage/src/store.rs:278-284 | a committed object reads back exactly its bytes unless an operation fails, and nothing else is ever returned; unless one fails, absent files are answered as missing and mismatched ones as corrupt |
| ByteStore.LocalByteStore.WriteMetadata | crates/bowline-storage/src/store.rs:228-236 | metadata never replaces metadata |
| ByteStore.LocalByteStore.MatchingCommitted | crates/bowline-storage/src/store.rs:244-258 | an existing record of a complete object is accepted exactly if it describes the same object, creation time aside, and is refused as already existing otherwise, unless an operation fails |
| ByteStore.LocalByteStore.CommitMetadata | crates/bowline-storage/src/store.rs:260-276 | success leaves the blob and a record with the fields asked for; a record already there is accepted exactly if it describes this object, unless an operation fails; a blob that nothing commits is removed again unless that fails, and one whose record is there stays unless the record cannot be inspected |
| ByteStore.LocalByteStore.Adopt | crates/bowline-storage/src/store/recovery.rs:13-54 | a blob left without metadata is adopted, with the fields asked for, exactly when its bytes are the declared ones; a complete object is refused as already existing |
| ByteStore.LocalByteStore.Store | crates/bowline-storage/src/store.rs:319-391 | blob first, then metadata with the fields asked for; at every cut a complete object is unchanged, and an object interrupted between the two can be put again |
| ByteStore.LocalByteStore.PutBuffered | crates/bowline-storage/src/store.rs:394-440 | wrong length or hash touches nothing; success commits exactly these bytes and the fields asked for where no complete object was; unless an operation fails, a fresh or half-written key succeeds with exactly the requested record and any other is refused as already existing |
| ByteStore.LocalByteStore.PutStreamed | crates/bowline-storage/src/store.rs:305-392 | the same for a stream in any chunks, an existing record being noticed before the stream is read |
| ByteStore.LocalByteStore.Delete | crates/bowline-storage/src/store.rs:570-589 | success leaves neither file; at every cut a remaining blob still has its metadata; complete, half-deleted and absent objects can all be deleted; a pair that does not match is refused and stays, unless an operation fails |
| ByteStore.LocalByteStore.Run | crates/bowline-storage/src/store.rs:228-589 | over any sequence of puts and deletes one after the other, each cut anywhere, every object whose put succeeded and whose delete has not begun is complete with its own bytes, and an object complete at the start changes only if it is deleted; and each operation during which nothing fails answers exactly as what it found on disk calls for |
| ByteStore.OwedStep | crates/bowline-storage/src/store.rs:305-589 | one more operation keeps every object still owed to a caller |
| ByteStore.UndeletedStep | crates/bowline-storage/src/store.rs:305-589 | one more operation keeps every complete object it does not delete |
| StoreOverlap.StepKeeps | crates/bowline-storage/src/store.rs:260-440 | every step of any number of overlapping puts keeps the blob for whoever created or adopts it and metadata only for the blob that is there, if removals are covered |
| StoreOverlap.CarefulKeeps | crates/bowline-storage/src/store.rs:260-440 | so however puts overlap, what one returned success for stays complete |
| StoreOverlap.OverlapBreaks | crates/bowline-storage/src/store/recovery.rs:13-54 | a run of two puts of the same bytes that ends with metadata and no blob after a success |
| StoreOverlap.UncoveredBreaks | crates/bowline-storage/src/store.rs:260-276 | every uncovered removal breaks a promise, at once or when an adopting put succeeds |
| StoreOverlap.KeptIffCovered | crates/bowline-storage/src/store.rs:260-276 | a removal keeps every promise under everything that may follow if and only if there is no metadata and nobody is adopting the blob |
| LogRotation.ReadShift | crates/bowline-local/src/daemon_logs.rs:282-296 | moving a generation into an empty older slot does not change what a reader gets |
| LogRotation.ReadDropOldest | crates/bowline-local/src/daemon_logs.rs:280-296 | overwriting the oldest generation removes exactly its bytes, from the front |
| LogRotation.ReadAppend | crates/bowline-local/src/daemon_logs.rs:298-309 | a write through the stream comes out last, also while the stream still writes generation 1 |
| LogRotation.RetireSlots | crates/bowline-local/src/daemon_logs.rs:286-294 | renaming generation g to g + 1 reads as before, less the bytes g + 1 held |
| LogRotation.RestoreSlots | crates/bowline-local/src/daemon_logs.rs:257-268 | renaming generation 1 back over an absent or empty live file does not change what a reader gets |
| LogRotation.RetireCuts | crates/bowline-local/src/daemon_logs.rs:286-294 | renaming generation g onto g + 1 makes exactly the bytes of g one generation older and drops what it overwrites |
| LogRotation.ShiftStep | crates/bowline-local/src/daemon_logs.rs:282-296 | one rename of the descending loop keeps every byte within one generation of where it was |
| LogRotation.AgedPass | crates/bowline-local/src/daemon_logs.rs:210-309 | passes age bytes by one generation each, so n of them by n at most |
| LogRotation.DaemonLog.Retire | crates/bowline-local/src/daemon_logs.rs:286-294 | a rename keeps the suffix law and drops only what it overwrites, which is the oldest generation |
| LogRotation.DaemonLog.Shift | crates/bowline-local/src/daemon_logs.rs:282-296 | after the descending loop generation 1 is free unless it is the oldest; even if a rename fails half way no byte is older by more than one generation and only the oldest generation can be gone |
| LogRotation.DaemonLog.Reattach | crates/bowline-local/src/daemon_logs.rs:302-309 | success points the stream at a fresh live file; failure leaves it writing generation 1 with nothing newer |
| LogRotation.DaemonLog.Restore | crates/bowline-local/src/daemon_logs.rs:257-268 | success has the stream writing the live file again, nothing lost |
| LogRotation.DaemonLog.Discard | crates/bowline-local/src/daemon_logs.rs:269-276 | with no history wanted the cutoff generation is removed, and only that name and its bytes go |
| LogRotation.DaemonLog.Rotate | crates/bowline-local/src/daemon_logs.rs:244-278 | whatever fails, no byte gets older by more than one generation and only the oldest is dropped; on success the live file holds only what was written meanwhile and generation 1 is the previous live file, or none is left if no history is wanted; success means that nothing failed, and the live file stays renamed only if putting it back failed too |
| LogRotation.DaemonLog.Enforce | crates/bowline-local/src/daemon_logs.rs:210-242 | the same for a pass; it rotates an attached file over the cap unless something fails, leaves one within the cap alone, and changes nothing in the other outcomes |
| LogRotation.DaemonLog.Run | crates/bowline-local/src/daemon_logs.rs:210-309 | over any run of appends and passes, with records arriving before any file operation and any operation failing, all records are written in order and the generations oldest to newest and then the live file read as a contiguous suffix of everything written; unless something fails, a pass leaves the live file within the cap and what was written meanwhile; and with n generations retained, a byte in the live file is still there after n passes, one in generation g after n - g |
| EngineSlot.AllocateIdentity | crates/bowline-daemon/src/manifest_driver.rs:336-342 | ids strictly increase and the last 64-bit value is never handed out |
| EngineSlot.LaterTransitive | crates/bowline-daemon/src/manifest_driver.rs:115-342 | what single steps keep about ids, endpoints and waiters, runs keep |
| EngineSlot.EngineShared.Publish | crates/bowline-daemon/src/manifest_driver.rs:115-133 | a snapshot becomes visible exactly when its sink is the registered endpoint, or the host's while there is none |
| EngineSlot.EngineShared.TakeOver | crates/bowline-daemon/src/manifest_driver.rs:141-161 | the host's take-over ends the endpoint, its barriers and its registry; a generation-bound sink changes nothing |
| EngineSlot.EngineShared.Complete | crates/bowline-daemon/src/manifest_driver.rs:163-189 | exactly the pending barriers named by a receipt of the registered engine's own generation are completed, each of their waiters with its own receipt, no others |
| EngineSlot.EngineShared.Register | crates/bowline-daemon/src/manifest_driver.rs:196-235 | a new endpoint starts from the starting snapshot and ends its predecessor's barriers |
| EngineSlot.EngineShared.Allocate | crates/bowline-daemon/src/manifest_driver.rs:237-241 | a generation is never handed out twice |
| EngineSlot.EngineShared.Unregister | crates/bowline-daemon/src/manifest_driver.rs:262-280 | only the registered generation can unregister, and it resets the snapshot |
| EngineSlot.EngineShared.RequestBarrier | crates/bowline-daemon/src/manifest_driver.rs:297-326 | admission exactly when an endpoint runs, ids remain and fewer than 64 barriers are queued, else the first refusal that applies; a refusal leaves no waiter behind |
| EngineSlot.EngineShared.DrainBarriers | crates/bowline-daemon/src/manifest_driver/control_registry.rs:281-283 | the engine takes every queued barrier of its own generation |
| EngineSlot.EngineShared.DropWaiter | crates/bowline-daemon/src/manifest_driver/barrier_wait.rs:200-211 | a dropped waiter is no longer pending |
| EngineSlot.EngineShared.Run | crates/bowline-daemon/src/manifest_driver.rs:115-342 | every event has its effect, in order; and in every interleaving the visible snapshot is the starting one, one published by the host while there is no endpoint, or one published by exactly the registered generation, and came from an event of the run or was there before it; each waiter gets at most one receipt, its own, and none once its endpoint is gone; ids are never reused |
| EngineSlot.ReportStays | crates/bowline-daemon/src/manifest_driver.rs:115-280 | what the registered engine reported stays visible, whatever others publish, until it reports again or its endpoint goes |
| EngineSlot.BarrierAnswered | crates/bowline-daemon/src/manifest_driver.rs:163-326 | an admitted barrier gets its own receipt when its engine completes it, whatever happened since, if the endpoint stayed and the waiter was not dropped |
| UploadPipeline.UploadQueue.Push | crates/bowline-daemon/src/manifest_transport/upload_pipeline.rs:104-125 | a drain is demanded exactly when the queue has reached 32 MiB or 256 objects, as the step machine has it |
| UploadPipeline.UploadQueue.Take | crates/bowline-daemon/src/manifest_transport/upload_pipeline.rs:128-135 | the queue is handed over whole and left empty |
| UploadPipeline.StepKeeps | crates/bowline-daemon/src/manifest_transport.rs:89-158 | every step of every device keeps, if the blobs a publishing call needs are stored or queued when it begins: reachable manifests have all their blobs stored, and accepted blobs are stored, queued or being drained |
| UploadPipeline.UploadBeforeReference | crates/bowline-daemon/src/manifest_transport.rs:89-323 | in every interleaving of any number of devices whose publishing calls are covered, with failures and lost answers anywhere, every manifest row and every manifest the ref ever reached has all its blobs stored |
| UploadPipeline.PutIsKept | crates/bowline-daemon/src/manifest_transport.rs:89-107 | a put leaves the device idle with the blob queued and accepted, or draining the whole queue and the blob, accepting it on return |
| UploadPipeline.PutIsStored | crates/bowline-daemon/src/manifest_transport.rs:89-158 | whatever other devices do, once a device has put a blob and later returns from a call with no failed call of its own between, the blob is stored |
| UploadPipeline.StoredStays | crates/bowline-daemon/src/manifest_transport.rs:89-323 | no step of any run removes a stored blob or a version of the ref |
| UploadPipeline.AcceptedCovers | crates/bowline-daemon/src/manifest_transport.rs:96-158 | blobs stored, or accepted by put_blob with no failed call since, cover a publishing call |
| UploadPipeline.UncoveredPublishes | crates/bowline-daemon/src/manifest_transport.rs:89-158 | an uncovered call has a run, careful from there on, that publishes a manifest without one of its blobs |
| UploadPipeline.LawIffCovered | crates/bowline-daemon/src/manifest_transport.rs:89-323 | from any reachable state a publishing call keeps the law, whatever everyone does carefully afterwards, if and only if it is covered |
| UploadPipeline.FailedDrainForgets | crates/bowline-daemon/src/manifest_transport.rs:89-129 | a failed drain loses accepted blobs, and a manifest that names one is no longer covered |
| RefLookup.HostedRef.Lookup | crates/bowline-daemon/src/manifest_transport.rs:249-289 | Found only with that version's own key; Unknown only outside the newest 500; a transport failure is answered if and only if a read failed, and otherwise the answer is that of the log at the three reads, so a listed version is found |
| RefLookup.DeniedExactly | crates/bowline-daemon/src/manifest_transport.rs:249-289 | a version that exists is answered NotAdvanced exactly when the first head is not manifest-backed, or the listing lost the version and the last head is not |
| RefLookup.OpaqueHeadDenies | crates/bowline-daemon/src/manifest_transport.rs:249-289 | version 1 is denied when version 2 is the head and not a manifest |
| RefLookup.LookupOnManifests | crates/bowline-daemon/src/manifest_transport.rs:249-289 | on a log of manifests no version that existed when the call began is denied, and a version within the listing is found unless a read fails |
| RefLookup.HostedRef.FindRow | crates/bowline-daemon/src/manifest_transport.rs:269-273 | a row of that version, or there is none |
| StorageGc.PlanGc | crates/bowline-storage/src/gc.rs:54-82 | candidates and retained keys are those the row flags and retention state call for, in order |
| StorageGc.DoomedHas | crates/bowline-storage/src/gc.rs:54-82 | a key is a candidate exactly when some row for it has no reference flag, is verified and is delete-eligible |
| StorageGc.PlanPartitions | crates/bowline-storage/src/gc.rs:54-82 | every listed row is planned for exactly one fate |
| StorageGc.SparesRetained | crates/bowline-storage/src/gc.rs:54-82 | no object with a referenced, unverified or not eligible row is a candidate if and only if rows sharing a key agree; with distinct keys no candidate's row has any of those flags |
| StorageGc.DisagreeingRowsCondemn | crates/bowline-storage/src/gc.rs:54-82 | without agreement an object at the current head is a candidate |
| StorageGc.Remote.ExecuteGcPlan | crates/bowline-storage/src/gc.rs:84-120 | planned keys no longer condemned are skipped, the store is asked for all others once in order and nothing else, and they are reported deleted or failed exactly as it answered |
| StorageGc.SaidPartitions | crates/bowline-storage/src/gc.rs:98-120 | keys answered yes and keys answered no partition the keys asked for, and with no failure everything was deleted |
| StorageGc.Remote.DeleteRows | crates/bowline-control-plane/src/gc.rs:82-99 | the control plane is asked once in order for exactly these rows, and they are reported as it answered |
| StorageGc.Remote.SweepStorageGc | crates/bowline-control-plane/src/gc.rs:75-106 | a pass asks the remote for exactly what it was shown as condemned, then for the rows of exactly the keys whose bytes were deleted, reports its answers, and does nothing when the listing fails; undisturbed it removes exactly the candidates' rows and bytes |
| StorageGc.CleanPassLeaves | crates/bowline-control-plane/src/gc.rs:75-106 | an undisturbed pass leaves no candidate |
| StorageGc.CleanPassKeeps | crates/bowline-control-plane/src/gc.rs:75-106 | where rows sharing a key agree, it removes the condemned rows and no others |
| StorageGc.PassCounts | crates/bowline-control-plane/src/gc.rs:26-42 | unfinished plus removed rows is the number of candidates; a pass reports nothing to do exactly when there is none |
| StorageGc.PassPartitions | crates/bowline-control-plane/src/gc.rs:75-106 | deleted and failed keys partition the candidates, and removed and failed rows partition the deleted keys |
| StorageGc.Explain | crates/bowline-control-plane/src/gc.rs:116-147 | one more pass either justifies its verdict or removed a row |
| StorageGc.Remote.SweepUntilConverged | crates/bowline-control-plane/src/gc.rs:109-147 | it gives up if and only if a listing fails; under any faults and interference, the remote's log grows by exactly the passes, the reports are its answers, and: Converged exactly when the last listing had no candidate, Stalled exactly when it had some and no row was removed, with all of them unfinished, BudgetExhausted only after four passes that all removed rows; undisturbed it converges in one pass if nothing is to do and else in two, from any rows and bytes |
| StorageGc.SweepJustified | crates/bowline-control-plane/src/gc.rs:75-147 | whatever a sweep asks the remote for comes after a listing, the latest one shown, that condemns its key, and if that listing names every object once shows no row for it as referenced, unverified or not eligible; a row's deletion also comes after its bytes were deleted |
| StorageGc.Judge | crates/bowline-control-plane/src/gc.rs:119-139 | after each pass the sweep stops exactly with a verdict its passes explain, and goes on exactly if a row was removed |
| DeviceTrust.AuthorizedVerifiers | crates/bowline-daemon/src/device_trust.rs:396-414 | the list is in device order, answers for each device as the last record that published a verifier, and names a device twice exactly when the records do |
| DeviceTrust.AuthorizedPermutes | crates/bowline-daemon/src/device_trust.rs:396-414 | sorting loses and invents no published verifier |
| DeviceTrust.ChangedMeans | crates/bowline-daemon/src/device_trust.rs:331-343 | with each device listed once, trust reads as changed exactly when some device's answer did |
| DeviceTrust.ChangedIsMoved | crates/bowline-daemon/src/device_trust.rs:331-343 | the same in terms of the resolver before and after the refresh |
| DeviceTrust.CallKeeps | crates/bowline-daemon/src/device_trust.rs:266-350 | a further call that reads only when stamp and refusal table allow keeps the pacing, and keeps refusals respected |
| DeviceTrust.WorkspaceDeviceTrust.Install | crates/bowline-daemon/src/device_trust.rs:357-370 | the resolver answers exactly from the list, other workspaces' entries are untouched |
| DeviceTrust.WorkspaceDeviceTrust.ReadAndInstall | crates/bowline-daemon/src/device_trust.rs:246-256 | a failed read changes nothing; a read replaces this workspace's answers and no others |
| DeviceTrust.WorkspaceDeviceTrust.ClaimRefresh | crates/bowline-daemon/src/device_trust.rs:302-321 | a read is granted exactly when the device was not refused in the last 600 seconds and the last granted read is 30 seconds old |
| DeviceTrust.WorkspaceDeviceTrust.Settle | crates/bowline-daemon/src/device_trust.rs:324-350 | the refusal table stays within 64, is cleared exactly by changed trust, and gains the device exactly when it is refused and there is room |
| DeviceTrust.WorkspaceDeviceTrust.RefreshUnknownSigner | crates/bowline-daemon/src/device_trust.rs:266-299 | exactly when a read happens and when the call is turned away as already refused or as rate-limited, what the outcome says about the resolver afterwards, that a failed read leaves the verifiers alone, and exactly when a refusal is recorded or trust counts as changed |
| DeviceTrust.WorkspaceDeviceTrust.Refresh | crates/bowline-daemon/src/device_trust.rs:237-244 | an explicit refresh returns and installs the list read, in device order, and leaves the budget alone |
| DeviceTrust.WorkspaceDeviceTrust.Run | crates/bowline-daemon/src/device_trust.rs:266-350 | over any sequence of signers, clock readings and explicit refreshes: exactly when each call reads, changes trust and records a refusal follows from its event and the calls before it; budgeted reads are 30 seconds apart, a recorded refusal rules out reads for its signer for 600 seconds unless changed trust came between, and the resolver answers exactly from the last list read, or as at the start, for this workspace alone |
| DeviceTrust.FullTableForgets | crates/bowline-daemon/src/device_trust.rs:324-350 | a run in which 64 refusals 30 seconds apart are recorded, then the first device is asked about and refused but not recorded, and 30 seconds later is asked about again |
| DeviceTrust.StrangerAt | crates/bowline-daemon/src/device_trust.rs:266-350 | every run of those calls comes out that way, call by call |
| DeviceTrust.DoubledDeviceReadsAsChanged | crates/bowline-daemon/src/device_trust.rs:331-343 | a list naming a device twice counts as changed although every answer is the same |
| TrustOverlap.StandsIffInOrder | crates/bowline-daemon/src/device_trust.rs:302-350 | at every moment of an overlapping run the table stands for every refusal not cleared, if and only if each device's refusals are recorded in time order |
| TrustOverlap.ClaimOrderIsTimeOrder | crates/bowline-daemon/src/device_trust.rs:302-350 | since granted claims are spaced, that is the order of the claims |
| TrustOverlap.OrderRespects | crates/bowline-daemon/src/device_trust.rs:302-350 | and then no read comes within 600 seconds of a refusal of its device unless trust changed in between |
| TrustOverlap.Run | crates/bowline-daemon/src/device_trust.rs:266-350 | the methods taken in any interleaving, claim, note, arrival, settle and explicit refresh each a step, leave the fields exactly as the step machine has them, and other workspaces untouched |
| TrustOverlap.StepKeeps | crates/bowline-daemon/src/device_trust.rs:237-350 | every step keeps: reads are 30 seconds apart and granted only when the table allows, the table is what the settles recorded and within 64, and every settle compares what its call installed with what it noted |
| TrustOverlap.OverlapLaws | crates/bowline-daemon/src/device_trust.rs:237-350 | over every interleaving of any number of calls: spacing, the exact condition for the table to stand for every refusal, refusals respected in claim order, and respected up to moved answers when also no clear is stale |
| TrustOverlap.StaleExactly | crates/bowline-daemon/src/device_trust.rs:266-350 | a settle clears the refusals although its list moved no answer exactly when the list is not what the call noted but is what was installed when it came, leaves them although an answer moved exactly when it is the other way round, and either way someone else installed in between |
| TrustOverlap.RespectsForCause | crates/bowline-daemon/src/device_trust.rs:266-350 | without stale clears and in claim order, a read within 600 seconds of a refusal comes only after a settle whose own list moved an answer or names a device twice |
| TrustOverlap.StaleClearForgets | crates/bowline-daemon/src/device_trust.rs:266-350 | two calls in flight and a list that reaches both: the later settle clears a refusal without moving an answer, and that device is read again 30 seconds after it |
| TrustOverlap.StaleKeepRefuses | crates/bowline-daemon/src/device_trust.rs:266-350 | a list installed after a refusal moves an answer, and the refusal still stands |
| TrustOverlap.OverlapRewindsRefusal | crates/bowline-daemon/src/device_trust.rs:302-350 | two calls about one device settling in the other order: a run whose log does not respect a refusal, refused at 30 seconds and read at 600 |
| Glob.CellIsMeaning | crates/bowline-local/src/glob.rs:9-50 | a table cell is true exactly when the text suffix splits into one acceptable piece per token of the pattern suffix |
| Glob.RunRecurrence | crates/bowline-local/src/glob.rs:34-39 | the cell for `*` by its neighbours: exactly the slash-free runs |
| Glob.ByteRecurrence | crates/bowline-local/src/glob.rs:40-45 | the cell for `?` and for a literal byte |
| Glob.SegmentsRecurrence | crates/bowline-local/src/glob.rs:66-78 | the cell for `**/`: nothing, or the start of any later segment |
| Glob.AnythingRecurrence | crates/bowline-local/src/glob.rs:67-80 | a final segment-aligned `**` matches anything |
| Glob.SegmentsBetween | crates/bowline-local/src/glob.rs:52-81 | `front/**/back` without other wildcards matches exactly front, whole segments or nothing, and back |
| Glob.AnythingBelow | crates/bowline-local/src/glob.rs:52-81 | `front/**` matches exactly what is below front |
| Glob.WithinSegment | crates/bowline-local/src/glob.rs:52-58 | a double star that is not a segment of its own matches exactly within one segment |
| Glob.StarWithin | crates/bowline-local/src/glob.rs:34-39 | a star between parts without wildcards matches exactly what has no slash |
| Glob.QuestionMark | crates/bowline-local/src/glob.rs:40-44 | a question mark between such parts matches exactly one byte that is not a slash |
| Glob.PlainPart | crates/bowline-local/src/glob.rs:45-45 | a part without wildcards stands for itself |
| Glob.FillSegmentsRow | crates/bowline-local/src/glob.rs:66-78 | the backward loop with its running flag fills in the row that whole segments describe, and no other row |
| Glob.FillDoubleStarRow | crates/bowline-local/src/glob.rs:59-80 | the row becomes the truth for its pattern index and no other row changes |
| Glob.FillRow | crates/bowline-local/src/glob.rs:32-47 | the row becomes the truth for its pattern index, for all other tokens, and no other row changes |
| Glob.FillPlainRow | crates/bowline-local/src/glob.rs:32-47 | the backward inner loop fills in the row that its recurrence describes, and no other row |
| Glob.GlobMatches | crates/bowline-local/src/glob.rs:9-50 | true exactly when both are within 1024 bytes and the text splits as the pattern's tokens say |
| Prefetch.SizeIsLargest | crates/bowline-daemon/src/manifest_transport.rs:170-176 | merging keeps the largest size any request for the key declares |
| Prefetch.Merge | crates/bowline-daemon/src/manifest_transport.rs:170-176 | the map holds exactly the requested keys at their merged size |
| Prefetch.UniqueRequests | crates/bowline-daemon/src/manifest_transport.rs:170-180 | each requested key once, in key order, at its largest declared size |
| Prefetch.NextBatch | crates/bowline-daemon/src/manifest_transport.rs:194-204 | one batch fits both limits and no fitting batch from the same start reaches further |
| Prefetch.CutBatches | crates/bowline-daemon/src/manifest_transport.rs:190-219 | the loop ends with consecutive batches that cover everything, each within 32 items and 32 MiB |
| Prefetch.StaysAhead | crates/bowline-daemon/src/manifest_transport.rs:190-219 | batch by batch, the greedy cut is never behind any other in-order partition within the limits |
| Prefetch.GreedyIsMinimal | crates/bowline-daemon/src/manifest_transport.rs:190-219 | so no such partition has fewer batches |
| Prefetch.Prefetch | crates/bowline-daemon/src/manifest_transport.rs:165-221 | refused exactly when some request is over 32 MiB; otherwise every distinct key is fetched exactly once in the fewest possible batches |
| FrameCodec.PrefixRoundTrip | crates/bowline-daemon-rpc/src/codec.rs:113-128 | the big-endian length prefix reads back |
| FrameCodec.PrefixWeights | crates/bowline-daemon-rpc/src/codec.rs:113-128 | the prefix of a length is the one four-byte string that gives it with the first byte weighing most |
| FrameCodec.RoundTrip | crates/bowline-daemon-rpc/src/codec.rs:113-148 | extracting frames from any list of encoded payloads within the limit gives that list and nothing left over |
| FrameCodec.ExtractInTwo | crates/bowline-daemon-rpc/src/codec.rs:171-195 | extracting a first part and then what it left followed by more is extracting the whole |
| FrameCodec.PrefixKeepsFrames | crates/bowline-daemon-rpc/src/codec.rs:171-195 | after an oversized prefix further chunks change nothing |
| FrameCodec.Write | crates/bowline-daemon-rpc/src/codec.rs:113-128 | a payload within both limits is appended as one frame, any other is refused with the limit that applies |
| FrameCodec.IncrementalFrameDecoder.Append | crates/bowline-daemon-rpc/src/codec.rs:171-195 | the draining loop delivers exactly the complete frames of buffer plus input and keeps the rest |
| FrameCodec.IncrementalFrameDecoder.Finish | crates/bowline-daemon-rpc/src/codec.rs:197-220 | clean exactly on an empty buffer; otherwise the phase, expected and received counts of the truncation |
| FrameCodec.Decode | crates/bowline-daemon-rpc/src/codec.rs:157-220 | for every splitting into chunks, the frames and the ending of the whole stream; after an oversized prefix the frames of the chunks before it |
| FrameCodec.DecodeWritten | crates/bowline-daemon-rpc/src/codec.rs:113-220 | however the encoded stream is split, exactly the written payloads come out in order |
| FrameCodec.ReadExactBounded | crates/bowline-daemon-rpc/src/codec.rs:229-252 | under every schedule of short reads and interruptions the buffer is filled with the next bytes, or the end of input is reported with the exact counts |
| FrameCodec.ReadPayload | crates/bowline-daemon-rpc/src/codec.rs:135-148 | one blocking read is one step of frame extraction, with the same error at the end |
| FrameCodec.ReadAll | crates/bowline-daemon-rpc/src/codec.rs:135-148 | repeated blocking reads deliver the frames and the ending of the incremental decoder |
| CanonicalFraming.BeRoundTrip | crates/bowline-storage/src/canonical_framing.rs:49-55 | big-endian integers read back |
| CanonicalFraming.DigitAt | crates/bowline-storage/src/canonical_framing.rs:49-68 | byte i from the least significant end is the length's i-th digit in base 256, last in big-endian order and first in little-endian |
| CanonicalFraming.ParseSegments | crates/bowline-storage/src/canonical_framing.rs:65-70 | length-prefixed segments parse back to exactly the segments pushed |
| CanonicalFraming.SegmentsInjective | crates/bowline-storage/src/canonical_framing.rs:65-70 | so equal bytes mean equal segments |
| CanonicalFraming.FrameInjective | crates/bowline-storage/src/canonical_framing.rs:26-70 | frames are uniquely decodable: equal bytes, equal domain and equal labelled fields |
| CanonicalFraming.CanonicalFrame.BytesField | crates/bowline-storage/src/canonical_framing.rs:39-43 | the builder's bytes are the frame of the fields added so far |
| CanonicalFraming.AssociatedData | crates/bowline-storage/src/envelope.rs:91-100 | the associated data is the frame of the six context fields |
| CanonicalFraming.AssociatedDataLayout | crates/bowline-storage/src/envelope.rs:91-100 | version byte, domain, then label and value of the six fields, each as one segment in this order |
| CanonicalFraming.AssociatedDataInjective | crates/bowline-storage/src/envelope.rs:91-100 | two envelope contexts give the same associated data only if they are equal |
| DeviceProofs.DeviceAuthorizationMessage | crates/bowline-control-plane/src/device_proofs.rs:19-26 | the loop writes the length-prefixed fields |
| DeviceProofs.MessageInjective | crates/bowline-control-plane/src/device_proofs.rs:19-26 | proof messages are injective on field lists |
| DeviceProofs.StableSortFacts | crates/bowline-control-plane/src/device_proofs.rs:138-142 | the sort by recipient permutes the offers and keeps the order of each recipient's own |
| DeviceProofs.SortedUnique | crates/bowline-control-plane/src/device_proofs.rs:138-142 | with one offer per recipient the sorted list is determined by the offers |
| DeviceProofs.OfferDigestPreimage | crates/bowline-control-plane/src/device_proofs.rs:138-153 | the loop builds the preimage the following lemmas are about |
| DeviceProofs.DecimalReads | crates/bowline-control-plane/src/device_proofs.rs:138-153 | the offer count is written in digits without a leading zero that read back as the count |
| DeviceProofs.PreimageDetermines | crates/bowline-control-plane/src/device_proofs.rs:138-153 | equal preimages mean the same offers |
| DeviceProofs.PreimageIsOfferSet | crates/bowline-control-plane/src/device_proofs.rs:138-153 | with one offer per recipient, preimages are equal if and only if the offers are the same in any order |
| DeviceProofs.OrderShows | crates/bowline-control-plane/src/device_proofs.rs:138-153 | swapping two different offers for one recipient changes the preimage |
| WorkspacePath.Normalize | crates/bowline-core/src/workspace_graph.rs:52-75 | the two rewriting loops end, in the components of the path without empty ones and leading dots, joined by single slashes |
| WorkspacePath.NormalizeIdempotent | crates/bowline-core/src/workspace_graph.rs:52-75 | normalising twice is normalising once |
| WorkspacePath.EqualOrBelowIsPrefix | crates/bowline-core/src/workspace_graph.rs:94-96 | on normalised paths containment is component-list prefix |
| WorkspacePath.EqualOrBelowIsPartialOrder | crates/bowline-core/src/workspace_graph.rs:94-96 | and a partial order |
| WorkspacePath.WalkStaysInside | crates/bowline-core/src/workspace_graph.rs:132-158 | the walk succeeds exactly when no prefix of it goes above the root, and ends at the walked depth |
| WorkspacePath.WalkTarget | crates/bowline-core/src/workspace_graph.rs:142-156 | the push-and-pop loop is that walk |
| WorkspacePath.ResolveSymlinkTarget | crates/bowline-core/src/workspace_graph.rs:132-158 | refused for an empty or absolute target and a link at the root; otherwise Some exactly when the walk stays inside, with the walked path |
| WorkspacePath.ResolvedIsPlain | crates/bowline-core/src/workspace_graph.rs:132-158 | for links without dot components and targets without backslashes the result has exactly the walked components, none empty or a dot |
| WorkspacePath.ResolvedClimbs | crates/bowline-core/src/workspace_graph.rs:132-158 | for every link and target, the resolved path has a parent component if and only if some walked name has one when its backslashes are read as slashes |
| WorkspacePath.BackslashClimbsOut | crates/bowline-core/src/workspace_graph.rs:132-158 | a link at the root with target `..\x` resolves to `../x` |
| WorktreeLink.CheckComponents | crates/bowline-core/src/git_worktree_link.rs:230-240 | the loop accepts exactly the component lists with no parent component and some ordinary one |
| WorktreeLink.TransformLink | crates/bowline-core/src/git_worktree_link.rs:117-142 | a text that is one line of its file's shape keeps its prefix and newline around the transformed path, if the path can be transformed; every other text is unchanged |
| WorktreeLink.ParsesLines | crates/bowline-core/src/git_worktree_link.rs:144-173 | the parser takes a line of the shape apart into exactly its path and newline |
| WorktreeLink.ParsedIsLine | crates/bowline-core/src/git_worktree_link.rs:144-173 | and accepts no other text |
| WorktreeLink.TokenNormalizes | crates/bowline-core/src/git_worktree_link.rs:175-189 | a clean path below a clean root becomes the marker and its relative part |
| WorktreeLink.TokenDenormalizes | crates/bowline-core/src/git_worktree_link.rs:191-204 | and such a marker becomes that path below any clean root |
| WorktreeLink.Relocates | crates/bowline-core/src/git_worktree_link.rs:98-248 | stored under root A and written back under root B, A/rel becomes B/rel for both kinds of file, with or without a final newline; with A = B this is the identity |
| WorktreeLink.StoresBack | crates/bowline-core/src/git_worktree_link.rs:98-248 | the same-root round trip the other way round is the identity |
| WorktreeLink.MatchesByComponent | crates/bowline-core/src/git_worktree_link.rs:175-223 | any token is stored exactly when it is absolute and dot-free and the components of an absolute root are a proper prefix of its own |
| WorktreeLink.DenormalizesExactly | crates/bowline-core/src/git_worktree_link.rs:191-204 | a stored token is written back exactly when it is the marker, or the marker and a relative dot-free path with some component, and then names that path below the root |
| WorktreeLink.RelocatesComponents | crates/bowline-core/src/git_worktree_link.rs:175-248 | whatever was stored names the same components below B that it named below its own root |
| RetryBackoff.DelayBounded | crates/bowline-core/src/retry.rs:30-47 | for every policy, key and attempt the delay is at most the larger of the maximum and the jitter window, and fits in 64 bits |
| RetryBackoff.BaseSettles | crates/bowline-core/src/retry.rs:30-47 | the base never decreases and is constant from attempt 6 |
| RetryBackoff.BaseDoubles | crates/bowline-core/src/retry.rs:30-45 | the base is the initial delay for attempts 0 and 1 and doubles with each of the next five, up to the cap less the jitter window |
| RetryBackoff.MixModulo4 | crates/bowline-core/src/retry.rs:53-55 | one byte's mixing step, 64-bit wrap included, negates and adds modulo 4 |
| RetryBackoff.SeedModulo4 | crates/bowline-core/src/retry.rs:49-57 | the seed modulo 4 is the key's part plus an alternating sum of the attempt's bytes |
| RetryBackoff.OffsetStep | crates/bowline-core/src/retry.rs:49-69 | the next attempt's offset is one more modulo 4, except across an odd carry, where it repeats |
| RetryBackoff.FourOffsets | crates/bowline-core/src/retry.rs:49-69 | four consecutive attempts take all four offsets if and only if counting through them makes no odd carry |
| RetryBackoff.WithinBlock | crates/bowline-core/src/retry.rs:49-57 | attempts that do not cross a multiple of 256 make none |
| RetryBackoff.BlockBoundaryRepeats | crates/bowline-core/src/retry.rs:49-69 | attempts 255 and 256 have the same offset |

## Left out

- Hosted RPC, signed-URL transfers, account sessions, command line, service files: clients and wrappers around the protocols modelled here.
- Cryptography, hashing, compression and padding: envelopes are symbolic (they open exactly under the context they were sealed for) and the object hash is collision-free.
- Power loss and torn writes: each file operation is one step, and a failed operation has no effect (a failed fill of a temporary file may leave any bytes in it). Of fsync the model has which directories were changed and not synced since.
- The window between the seal's final re-check and the removal it decides on: no outside edit is assumed to land there. The clauses marked `idle` also assume none between the re-check's read and its closing stat.
- Outside edits while seal attempts overlap: `RecoverySeal` has edits beside attempts one after the other, `SealOverlap` overlapping attempts without edits.
- The ancestor loop that syncs parent directories after a seal: one step that may fail.
- Directory resolution, secure modes and associated data of recovery preimages; `open_local_recovery_preimage`.
- `get_range`, `get_object_to_writer`, `head_object`, metrics, and reclaiming stale temporaries at start-up: they would add easy members beside `Get`.
- Streaming of objects in fixed-size buffers: chunks are whatever the reader returns, and copying a staged file across devices is one read and one write.
- A crash and restart of the logging daemon, and a change of its rotation policy: the suffix law is per process and per policy.
- Storing the refreshed device-trust list on disk: it only reports failures. A claim in an overlapping run is not preceded by the question whether the device is known, which allows more claims than the code makes.
- Deletes of an object while puts of it overlap: `ByteStore` has deletes in sequence, `StoreOverlap` overlapping puts only.
- The upload pool's worker threads: uploads of one drain happen one at a time in any order. Garbage collection is not part of that machine, so blobs are never removed from it.
- UploadPipeline.UploadBeforeReference: the compare-and-swap's version check is not modelled; the ref may move to any manifest whose call has reached that point, which includes every run of the code.
- Downloads of a prefetch batch and the size check on what arrives: the batches are the result.
- The kinds and texts of delete failures, and their retryability: keys only.
- Coverage-scan leases of the control registry and the exact-observer checks around barriers.
- Worktree-link bytes that are not UTF-8: the code leaves them unchanged before anything modelled here.
- The connection magic and JSON payloads of the frame codec.
- Mutex poisoning and scheduling inside one locked region.
