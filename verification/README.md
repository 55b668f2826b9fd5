# Verified model of the waywallen buffer pipeline

The waywallen daemon brokers GPU buffers between renderer processes and display clients. This project models the
parts of it where many steps have to fit together, and proves what keeps them together:

- **Wire and codec** (`Bytes`, `Wire`, `Codec`, `Decoding`, `Reencoding`, `Truncation`, `MessageSizes`): the
  inter-process format as functions on bytes; the encoders as a growing buffer and the decoders as a read cursor
  with a heap whose allocations may fail.
- **Framing and control** (`Framing`, `ControlMessages`): both ends of the stream socket, with arbitrary short reads and
  writes, interrupted calls and failing calls, file descriptors in flight, and the owners of a decoded request.
- **Negotiation** (`Negotiation`, `BufferAgreement`): flattening a pool's formats in C, unpacking and picking in Rust,
  judging the directive in C again, and renegotiating after failed binds.
- **Pool, reader cache and fan-out** (`BufferPool`, `ReaderCache`, `Scheduling`): slots, descriptors, generations and
  release points; what the daemon remembers of a renderer; who still owes a frame's release.
- **Settings** (`SettingsProtocol`, `Reconciling`): the dirty-flag protocol of updaters and flushers as
  interleaved steps, and the reconciliation of plugin tables with their schemas.
- **Filters, cursors, layout, tasks** (`Filters`, `PlaylistCursors` with `Xorshift`, `Layouts`, `Tasks`): four state machines
  and calculations beside the pipeline.

`Common` and `Errno` hold what several of them share. `dafny verify dfyconfig.toml` checks everything.

Code that changes state is a class or a method with loops, tied by its contract to a function of the old state or to
an independent specification; what the design promises is then proved of that specification, over every input and
every run. System calls, allocations and the GPU backend are nondeterministic choices. Finitely many interrupted
calls lie ahead of a socket, so its loops end.

Results that the code's own documentation does not give away:

- A *failed* flush raises the flag again and wakes nobody. A store that rests dirty is left alone exactly when every
  notification it was given has been consumed and followed by a flush of the writer's
  (`SettingsProtocol.NobodyWokenIff`), and a forced flush that fails there leaves it so
  (`SettingsProtocol.FailingFlushLeavesItSo`).
- A renderer that reuses a frame key loses the frame pending under it; nothing else loses one
  (`Scheduling.NothingLostIffNoOverwrite`).
- A common sync bit that neither mode covers makes the picker choose implicit sync, which neither side advertised
  (`Negotiation.UnknownSyncBitPicksImplicit`); a picked directive passes the pool's validation exactly when both sides
  have timeline sync (`BufferAgreement.PickedIsAcceptedIffTimeline`; a rejected one is
  `BufferAgreement.BinaryOnlyIsRejected`).
- Different bytes can mean the same message (`Wire.DecodingIsNotInjective`): bytes that decode are what the encoder
  would write exactly when all padding is zero and no string holds a NUL before its last byte
  (`Reencoding.ReencodesIffCanonical`).
- A failed `ww_bridge_recv_control` leaves descriptors open exactly when it broke off inside a header whose consumed
  bytes carried files, and then those files (`ControlMessages.RecvControl`, `ControlMessages.HeaderCutLeaks`).
- The daemon's receive leaves descriptors open in one case: when a read of the header delivers some of its files and
  not all, because more than 64 came at once or the descriptor table is full. The error comes before the delivered ones
  have an owner (`Framing.Endpoint.ReadFramed`, `Framing.OverfullLeaks`). The bridge's receive does not notice a cut
  delivery at all: the frame arrives, and the files are missing (`Framing.Endpoint.RecvHeader`).
- While a renderer's buffers are being replaced, a display that asks for the latest frame can still get the newest one
  of the old buffers; the router's filter on the generation stops it, and for a pool's announcements always does
  (`ReaderCache.Handle.OnBindBuffers`, `ReaderCache.StaleFrameIsFiltered`).
- Submitting a slot without a fence spends and stores a release point before the sender refuses the message, where the
  header promises a frame without a fence; a slot in use is refused exactly then (`BufferPool.Pool.SubmitSlot`).
- A failed announcement leaves the new slots in place under a generation that was never sent
  (`BufferPool.Pool.ApplyDirective`). The daemon caches a frame under the generation of the slot it was drawn into
  exactly when no announcement has failed since the last one that was sent (`ReaderCache.FrameGenerationIff`; the
  input is `ReaderCache.FrameOfUnknownSlots`).
- A logic pair that names the group a quick toggle will get can capture the toggle: the compiled filter then keeps rows
  the toggle rejects (`Filters.ToggleCaptured`). A pair that only repeats "and" does no harm. The exact condition is on
  the pairs: the folded filter means the user's filter and the toggles exactly when they force each toggle's group and
  otherwise the groups they forced before (`Filters.FoldingIsConjunctionIff`; over rows `Filters.IntendedIff`).
- `proto/filter.proto` says that for content ratings "contains" and "contains not" collapse onto "is" and "is not". They
  compile to LIKE instead, which agrees on a row exactly when the rating is NULL or matches just when it is equal
  (`Filters.ContainsIsEqualIff`, `Filters.ContainsIsNotEqual`).
- The record of a task that panics or is aborted stays Running, out of reach of trimming, exactly as long as the
  task has no token or nobody cancels it; a blocking task has none (`Tasks.LostRunsOnIff`,
  `Tasks.CancelAfterLostJoins`).

## Model

| member | source | states |
|---|---|---|
| Wire.PaddingAgreesIffAligned | bridge/src/ipc_v1.c:106-125 | the writer's padding to the buffer and the reader's padding to the string have the same length exactly at 4-aligned offsets |
| Wire.ReadString | bridge/src/ipc_v1.c:271-287 | at an aligned offset a written string reads back, and leaves the offset aligned |
| Wire.ReadPairs | bridge/src/ipc_v1.c:338-363 | a written key-value list reads back entry by entry and stays aligned |
| Wire.ReadField | bridge/src/ipc_v1.c:271-363 | every kind of field reads back from an aligned offset and keeps it aligned |
| Wire.RoundTrip | bridge/src/ipc_v1.c:391-417 | for every field list, decoding what the encoder writes into an empty buffer returns the message and consumes every byte |
| Wire.EncodingIsInjective | bridge/src/ipc_v1.c:391-398 | two messages of one type with the same bytes are the same message |
| Wire.DecodingIsNotInjective | bridge/src/ipc_v1.c:271-287 | the input: padding is not checked, so these two byte strings decode to one message |
| Reencoding.ReencodesIffCanonical | bridge/src/ipc_v1.c:271-363 | for every byte string and field list: what decodes is a message the encoder accepts, and encoding it gives the same bytes exactly when every pad byte is zero and no string has an inner NUL; it is never longer |
| Reencoding.CanonicalIsUnique | bridge/src/ipc_v1.c:271-363 | of all byte strings with one meaning exactly one is canonical |
| Truncation.CutMessageIsShort | bridge/src/ipc_v1.c:225-363 | an encoded message cut short anywhere is refused as short |
| Truncation.LongMessageTrails | bridge/src/ipc_v1.c:400-417 | an encoded message with anything after it is refused for trailing bytes |
| Truncation.FixedMessage | bridge/src/ipc_v1.c:225-247 | a message of words and longs only is accepted exactly when it has the right size, whatever its bytes; less is short and more is trailing |
| Truncation.BadStrings | bridge/src/ipc_v1.c:271-287 | of the strings whose bytes are all there, the bad ones are exactly those of length 0 and those that do not end with a NUL |
| Truncation.LittleEndian | bridge/src/ipc_v1.c:225-247 | the least significant byte comes first |
| Truncation.StringLayout | bridge/src/ipc_v1.c:113-125 | length with the NUL, the text, the NUL, and only as many zeros as reach the next multiple of four |
| Truncation.ElementLayout | bridge/src/ipc_v1.c:136-209 | the elements of an array follow each other, and a value its key |
| Wire.MisalignedStringIsLost | bridge/src/ipc_v1.c:106-125 | a string appended at an unaligned offset does not read back where it was written |
| Wire.ParseString | bridge/src/ipc_v1.c:271-287 | a string that parses ends inside the buffer, beyond its own start; its text ends at the first NUL |
| Bytes.U32RoundTrip | bridge/src/ipc_v1.c:225-233 | four little-endian bytes give back the word they came from |
| Bytes.U64RoundTrip | bridge/src/ipc_v1.c:237-247 | eight little-endian bytes give back the long they came from |
| Codec.Buf.Reserve | bridge/src/ipc_v1.c:41-57 | room for the bytes asked for or an error that changes nothing; out of memory exactly when an allocation was refused, overflow only beyond half the address space |
| Codec.Buf.WriteBytes | bridge/src/ipc_v1.c:63-69 | the bytes are appended, or nothing is; appended whenever memory suffices |
| Codec.Buf.WriteString | bridge/src/ipc_v1.c:113-125 | appends length, bytes, NUL and padding to the buffer's alignment; a string too long is refused untouched |
| Codec.Buf.WriteArrayU32 | bridge/src/ipc_v1.c:136-144 | appends a counted array |
| Codec.Buf.WriteArrayU64 | bridge/src/ipc_v1.c:154-162 | appends a counted array of longs |
| Codec.Buf.WriteKvList | bridge/src/ipc_v1.c:199-209 | appends a counted list whose strings are padded at their absolute offsets |
| Codec.Buf.Encode | bridge/src/ipc_v1.c:391-398 | after success the buffer has grown by exactly the message's bytes; after failure it still starts with what it held; without a refused allocation it succeeds up to half the address space |
| Decoding.Ledger.Malloc | bridge/src/ipc_v1.c:280-281 | a block that is not in use, or none |
| Decoding.Ledger.Free | bridge/src/ipc_v1.c:372-381 | only what is live can be freed, once |
| Decoding.Reader.ReadString | bridge/src/ipc_v1.c:271-287 | the format's answer unless memory ran out; a failure allocates nothing |
| Decoding.Reader.ReadArrayU32 | bridge/src/ipc_v1.c:289-306 | the format's answer unless memory ran out; a failure part way frees the array |
| Decoding.Reader.ReadArrayU64 | bridge/src/ipc_v1.c:289-311 | as for words |
| Decoding.Reader.ReadKvList | bridge/src/ipc_v1.c:338-363 | the format's answer unless memory ran out; a failure frees every string read so far and the array |
| Decoding.FreeMessage | bridge/src/ipc_v1.c:419-422 | frees everything a message owns, once, and clears the pointers |
| Decoding.Decode | bridge/src/ipc_v1.c:400-417 | for every input and every pattern of allocation failure: a failed decode leaves the heap as it was and the struct owning nothing; a successful one returns the parsed message, owning exactly what was allocated; trailing bytes are an error |
| Framing.Endpoint.WriteAll | bridge/src/bridge.c:104-117 | every byte is written despite short writes, exactly when no call fails; otherwise an error leaves a prefix |
| Framing.Endpoint.ReadAll | bridge/src/bridge.c:119-132 | exactly the bytes asked for, or an error; without a fault only a stream too short |
| Framing.Endpoint.SendFrame | bridge/src/bridge.c:134-205 | limits are refused untouched; within them it succeeds exactly when no call fails, and then exactly header, body and files are on the stream whatever the short counts; an error leaves a prefix |
| Framing.Endpoint.Harvest | bridge/src/bridge.c:248-266 | all arriving files are taken over, or beyond the capacity everything held is closed |
| Framing.Endpoint.RecvHeader | bridge/src/bridge.c:215-270 | four bytes and the files that came with them; whatever ends the call, the caller holds the files of exactly the bytes consumed, or, when a delivery was cut, some of them and no others; without faults the code is fixed for every stream |
| Framing.Endpoint.RecvBody | bridge/src/bridge.c:272-299 | a bad length, a failed allocation or a cut body closes every file and frees the body |
| Framing.Endpoint.RecvFrame | bridge/src/bridge.c:207-300 | without faults, exactly the frame at the head of the stream or its error, also for a stream shorter than a header; a failure holds no memory, and of files those of a header it broke off in; a cut delivery is no failure, the frame lacks files |
| Framing.Endpoint.WriteFramed | src/ipc/uds.rs:115-153 | the same frame from the daemon's side, where a short write is an error that leaves a prefix; a frame within the limits meets no other error unless a call fails |
| Framing.Endpoint.ReadFramed | src/ipc/uds.rs:189-232 | without faults, exactly the frame at the head of the stream or its error; an error leaves files open exactly when a read of the header was cut, namely those that read delivered; without faults that needs more than 64 files on the header, and one byte with more than 64 is enough |
| Framing.Endpoint.ReadHeader | src/ipc/uds.rs:189-221 | four bytes with all their files, or an error that closes them but for those of a cut delivery |
| Framing.OverfullLeaks | src/ipc/uds.rs:193-215 | the input: a frame with more than 64 files on its first byte is answered with ENOBUFS, and its first 64 files stay open |
| Framing.FrameArrives | bridge/src/bridge.c:134-300 | a sent frame is what a receiver finds at the head of the stream, with its own files, whatever follows |
| Framing.FrameLayout | bridge/src/bridge.c:134-177 | opcode and total length, least significant byte first, then the body; all files ride on the first byte; at most 65535 bytes and 64 files |
| Framing.StreamRoundTrip | bridge/src/bridge.c:134-300 | the stream of any sequence of frames splits back into that sequence |
| Framing.NoDesync | src/ipc/uds.rs:189-232 | after any number of successful receives by either implementation, from a stream that starts with whole frames, what came out is what went in and the rest of the stream is intact |
| Framing.TornFrame | bridge/src/bridge.c:134-300 | a frame cut short is never taken for a frame |
| Framing.SendEvents | bridge/src/bridge.c:134-205 | frame after frame until one fails: the stream gains the frames' cells, or a prefix of them exactly when a call failed |
| Framing.SendRequests | src/ipc/uds.rs:115-153 | the same for the daemon, which also stops at a short write |
| Framing.EventsCross | src/ipc/uds.rs:189-232 | n sends and n receives composed: whatever fails on either side, the daemon gets the first of the events, each with its own files, and nothing else, except that a cut delivery leaves some files of the next one open; all of them when no call fails |
| Framing.RequestsCross | bridge/src/bridge.c:207-300 | the same in the other direction, with the receiver's memory; a cut delivery lets requests through without their files |
| ControlMessages.DecodeControl | bridge/src/bridge.c:488-515 | the decoder of the opcode's layout decides; an unknown opcode owns nothing |
| ControlMessages.RecvControl | bridge/src/bridge.c:468-518 | the body never outlives the call, requests with files are refused and the files closed, a failure owns nothing; files stay open exactly for a header the call broke off in, those delivered with the bytes consumed, which are all of them unless a delivery was cut; without faults the code is the one the stream calls for, also for one shorter than a header |
| ControlMessages.HeaderCutLeaks | bridge/src/bridge.c:233-247 | the input: one byte with one file and then the end of the stream is reported as a lost connection, and the file stays open |
| ControlMessages.MessageArrives | bridge/src/bridge.c:134-300 | any message encoded, framed and received decodes to what was sent |
| ControlMessages.RequestArrives | bridge/src/bridge.c:468-518 | an undisturbed receiver accepts every well-formed request |
| ControlMessages.RequestSizes | bridge/src/bridge.c:488-515 | of the requests without a list or a string each is accepted for exactly one body size; every opcode outside the ten is unknown |
| ControlMessages.RefusalCodes | bridge/src/bridge.c:468-518 | a lost connection, a frame without a header, files with a request, an unknown opcode, a body cut short and a body with something after it each have their own code |
| ControlMessages.EventSizes | bridge/src/ipc_v1.c:746-912 | the three events without a list or a string have exactly one size each |
| ControlMessages.ControlFree | bridge/src/bridge.c:520-538 | releases exactly what a control owns and clears it |
| ControlMessages.RecvInit | bridge/src/bridge.c:597-626 | ownership of the decoded settings and properties moves to the caller, also on a version mismatch; other failures own nothing; without faults the code is fixed by the frame at the head of the stream, and the caller has what its body says |
| ControlMessages.InitArrives | bridge/src/bridge.c:597-626 | for all settings, properties and versions: the daemon's init on an undisturbed stream is accepted exactly with version 5, is -EPROTO otherwise, and in both cases the caller gets and owns exactly what was sent |
| ControlMessages.InitFree | bridge/src/bridge.c:628-643 | releases what the init data owns |
| ControlMessages.Handshake | bridge/include/waywallen-bridge/bridge.h:394-458 | receiving and then freeing the init data leaks no memory and frees nothing twice, whatever was returned; files stay open only for a header it broke off in |
| ControlMessages.SettingChangedFromControl | bridge/src/bridge.c:661-672 | the list moves out of the control, which then owns nothing; any other control is left alone |
| ControlMessages.TransferAndFree | bridge/src/bridge.c:661-684 | after the transfer both owners can be freed, in either order, once each |
| Negotiation.SameDeviceRules | src/dma/negotiate.rs:57-68 | device identity is symmetric; two known UUIDs decide it; with one unknown, peers are one device exactly when they name the same DRM node and it is not 0:0 |
| Negotiation.PickFormatSameDevice | src/dma/negotiate.rs:404-467 | the smallest common fourcc with a non-LINEAR common modifier, first in producer order; else the smallest with LINEAR; an error exactly when there is none |
| Negotiation.SameDevicePickIsUnique | src/dma/negotiate.rs:404-467 | that specification admits one answer |
| Negotiation.PickFourccOnly | src/dma/negotiate.rs:383-402 | the smallest common fourcc with LINEAR unblacklisted, or an error exactly when there is none |
| Negotiation.SyncIsStrongestCommon | src/dma/negotiate.rs:469-482 | the strongest common sync mode, a single bit; an error exactly when nothing is common |
| Negotiation.UnknownSyncBitPicksImplicit | src/dma/negotiate.rs:469-482 | a common bit that is no known mode yields implicit sync, advertised by neither side |
| Negotiation.ColorHasOneBitPerAxis | src/dma/negotiate.rs:484-496 | the picked colour has exactly one bit on each axis, common when there is a common one |
| Negotiation.MemHintIsCommonIfAny | src/dma/negotiate.rs:498-512 | device-local alone is picked when common, else host-visible alone, else what is common; host-visible is assumed when nothing is |
| Negotiation.Pick | src/dma/negotiate.rs:328-379 | the scheme meets the declarative specification of path, pair, sync, colour, memory and count |
| Negotiation.SharedTilingIsUsed | src/dma/negotiate.rs:328-362 | peers that show they are one device, by UUID or DRM node, and both allow a tiled modifier get a tiled one that both allow, on the optimized path; that one when there is no other |
| Negotiation.SeparateDevicesUseLinear | src/dma/negotiate.rs:364-379 | peers that do not show it get LINEAR in one plane for a fourcc both know, on the compatible path and without a memory hint |
| Negotiation.PickIsDetermined | src/dma/negotiate.rs:328-379 | that specification admits one answer |
| Negotiation.PickedIsAllowed | src/dma/negotiate.rs:328-379 | a picked pair is on neither blacklist and comes from the producer, or is its fourcc with LINEAR |
| Negotiation.BlacklistFormat | src/renderer_manager.rs:256-264 | the pair is added; true exactly when it was new |
| Negotiation.UniverseCount | src/dma/negotiate.rs:383-467 | pairs that can ever be picked number at most the producer's pairs plus its fourccs |
| Negotiation.AnotherAttempt | src/renderer_manager.rs:256-264 | a pick after failed binds is a pair not tried before, within that number |
| Negotiation.Renegotiate | src/renderer_manager.rs:256-264 | pick, fail, blacklist, repeat: no pair twice, and it ends within the producer's pairs plus fourccs |
| BufferAgreement.FillFormatCaps | bridge/src/bridge.c:556-591 | the scratch arrays hold the run-length form of the entries, for the count that fits 32 bits |
| BufferAgreement.UnflattenCaps | src/dma/negotiate.rs:239-304 | for malformed arrays the first fault found, else the formats that the parallel arrays denote |
| BufferAgreement.ExpandFlattened | bridge/src/bridge.c:556-591 | expanding the flattened arrays gives the entry list back |
| BufferAgreement.UuidRoundTrip | src/dma/negotiate.rs:306-312 | packing undoes spreading a UUID over words |
| MessageSizes.CapsBodyBytes | bridge/src/ipc_v1.c:932-949 | a format_caps body has 84 bytes, 8 for each run and 12 for each entry |
| BufferAgreement.UnflattenInvertsFlatten | src/dma/negotiate.rs:239-304 | formats denoted by a pool's message are the pool's entries, fourcc by fourcc in order |
| BufferAgreement.Advertise | bridge/src/pool.c:322-383 | refused exactly without an entry or when the message does not fit a frame; otherwise what a pool advertises is understood as its entries and identity |
| BufferAgreement.ValidateDirective | bridge/src/pool.c:191-239 | the verdict in the order of the pool's checks |
| BufferAgreement.AcceptedIff | bridge/src/pool.c:191-239 | a directive is accepted exactly when count, extent, path, source, pair and sync are all right |
| BufferAgreement.PickNamesAdvertisedPair | src/dma/negotiate.rs:328-379 | on an optimized path the picked pair is one the pool advertised |
| BufferAgreement.PickedIsAcceptedIffTimeline | bridge/src/pool.c:191-239 | whatever was picked from what the pool advertised, against any consumer and blacklists, the pool accepts it exactly when both sides have timeline sync |
| BufferAgreement.BinaryOnlyIsRejected | bridge/src/pool.c:191-239 | the input: a pool and a consumer with binary sync only agree on a scheme that the pool then rejects |
| BufferAgreement.BackendsAlwaysAccept | bridge/src/pool.c:191-239 | a pool that advertises timeline sync alone accepts everything picked from it |
| BufferAgreement.NegotiateBuffers | bridge/src/bridge.c:556-591 | flatten, unflatten, pick with any bind failures, validate: the pipeline composed, with the refusal to advertise; the directive carries the picked pair, colour and memory hint |
| BufferPool.FlatInjective | bridge/src/pool.c:130-139 | slot and plane are recoverable from the flat index |
| BufferPool.FlatBound | bridge/src/pool.c:130-139 | flat indices stay below count times planes |
| BufferPool.ConcatAt | bridge/src/pool.c:130-139 | rows laid end to end have row s, column p at the flat index |
| BufferPool.Scratch.CopySlot | bridge/src/pool.c:130-139 | one slot's planes extend all four arrays |
| BufferPool.Pool.EmitBindBuffers | bridge/src/pool.c:98-186 | slots that disagree are refused; otherwise the message carries every slot's planes at their flat index under a new generation, which is spent and logged even when sending fails |
| BufferPool.Pool.CloseSlotFds | bridge/src/pool.c:32-42 | closes each open plane once and leaves no slot |
| BufferPool.Pool.AdvertiseCaps | bridge/src/pool.c:322-383 | a probe that succeeds counts as advertised even when the message is then refused or lost; unless it is lost, the code is the one the entries call for |
| BufferPool.Pool.Teardown | bridge/src/pool.c:52-68 | only the drm node stays open and every release point is forgotten |
| BufferPool.Pool.AddSlot | bridge/src/pool_internal.h:120-134 | a backend that succeeds hands over one descriptor per plane, all different and none of them open already; one that fails changes nothing |
| BufferPool.Pool.AllocateAll | bridge/src/pool.c:418-452 | all slots or none; it fails exactly when the backend does, and says so, as a failed import for the first slot and lack of memory later |
| BufferPool.Pool.ApplyDirective | bridge/src/pool.c:385-463 | a rejected directive changes nothing but is reported; an accepted one is taken over whole, with the renderer's extent; then a failed allocation is reported and leaves no slot, and otherwise exactly the new slots are announced, host-visible as the directive's memory source says, unless they are not uniform or the message cannot be sent |
| BufferPool.Pool.SubmitSlot | bridge/src/pool.c:484-508 | a new release point is spent and stored for the slot and the frame carries it as sequence number too; with a slot in use the refusal comes exactly when there is no fence; the fence, taken over on entry, is closed on every path |
| BufferPool.Pool.WaitPoint | bridge/src/pool.c:510-517 | the point waited for is the slot's latest submit since the last teardown, or 0 |
| BufferPool.Pool.Destroy | bridge/src/pool.c:295-320 | every descriptor ever handed over has been closed as often as it was handed over |
| BufferPool.AnnouncementRises | bridge/src/pool.c:98-100 | announcing under the raised counter keeps generations strictly rising on the wire |
| BufferPool.FrameRises | bridge/src/pool.c:495-503 | a frame under the raised counter keeps release points strictly rising, across rebinds |
| BufferPool.KnownIffNotMissed | bridge/src/pool.c:98-186 | the generation the daemon goes by is that of the slots in use exactly when no announcement has failed since the last one sent |
| ReaderCache.Handle.OnBindBuffers | src/renderer_manager.rs:1050-1137 | a bind with agreeing arrays replaces the cached one and retires fences, frame and pending configure; any other is dropped; after the first lock the newest frame of the old buffers is still served, after the second none, and the first passes the router's filter exactly when the generation is reused |
| ReaderCache.Handle.OnFrameReady | src/renderer_manager.rs:1138-1168 | the fence joins the last sixteen and the latest frame carries the cached generation |
| ReaderCache.Handle.LatestFrame | src/renderer_manager.rs:185-192 | the newest arrival under the cached generation: the membership filter never drops it |
| ReaderCache.Handle.CloneSyncFd | src/renderer_manager.rs:229-236 | the first kept fence with the sequence number, or none |
| ReaderCache.Handle.RunReader | src/renderer_manager.rs:1038-1168 | after any events the bounded cache says what the whole history since the cached bind says |
| ReaderCache.Handle.AnnounceCached | src/display/endpoint.rs:547-575 | a cached snapshot never fails the consistency check |
| ReaderCache.BuildBindEvent | src/display/endpoint.rs:579-601 | refused exactly when the parallel arrays disagree with the counts, else the snapshot unchanged |
| ReaderCache.PoolBindsAreUsable | src/renderer_manager.rs:1064-1087 | whatever a pool announces passes the length check and the descriptor limit |
| ReaderCache.PoolHistory | src/renderer_manager.rs:1050-1168 | fed by a pool, the cache holds the last announced buffers, and frames since then have strictly rising sequence numbers |
| ReaderCache.StaleFrameIsFiltered | src/routing/router.rs:1971-1976 | when a pool rebinds, the frame still served is of an older generation and the filter drops it |
| ReaderCache.NewestIsKept | src/renderer_manager.rs:1148-1168 | the newest frame's fence is among those kept |
| ReaderCache.FenceBySequence | src/renderer_manager.rs:229-236 | a lookup by sequence number returns the fence sent with that frame while it is among the last sixteen, and nothing afterwards |
| ReaderCache.FenceOfFrame | src/renderer_manager.rs:1038-1168 | from a pool's wire to the lookup: the fence returned for a frame is the one sent with it, as long as there was no rebind and fewer than sixteen frames since, and none afterwards |
| ReaderCache.FrameGenerationIff | src/renderer_manager.rs:1138-1168 | a frame is cached under the generation of the slots it was drawn into exactly when no announcement has failed since the last one sent |
| ReaderCache.SubmitThenRead | bridge/src/pool.c:484-508 | the same as it runs: a submit by the pool, then the daemon's reader over all it was sent |
| ReaderCache.FrameOfUnknownSlots | bridge/src/pool.c:98-186 | the input: one announcement sent, one lost, then a frame, cached under the first generation |
| Scheduling.Scheduler.RegisterDisplay | src/scheduler.rs:92-118 | the next id, bound exactly when a renderer is active |
| Scheduling.Scheduler.UnregisterDisplay | src/scheduler.rs:122-135 | the display leaves every owed set and exactly the frames it was the last to owe are freed |
| Scheduling.Scheduler.UpdateDisplaySize | src/scheduler.rs:143-148 | only that display's size changes |
| Scheduling.Scheduler.SetActiveBinding | src/scheduler.rs:155-170 | every display is bound and frames of other generations are retired |
| Scheduling.Scheduler.ClearActiveBinding | src/scheduler.rs:174-183 | every display is unbound and nothing stays pending |
| Scheduling.Scheduler.ProjectConfig | src/scheduler.rs:191-208 | a configuration with a fresh id exactly for a known display under an active binding |
| Scheduling.Scheduler.BeginFrame | src/scheduler.rs:215-241 | the bound displays owe the frame, unless there are none or the generation is not the active one |
| Scheduling.Scheduler.ReleaseFrame | src/scheduler.rs:245-275 | the outcome for stale, unknown, partial and last releases, and the owed set after each |
| Scheduling.ReachableInvariant | src/scheduler.rs:92-275 | in every reachable state pending keys carry the active generation, owed sets are non-empty sets of registered displays, and a display is bound exactly while a renderer is active |
| Scheduling.IdsAreNeverReused | src/scheduler.rs:92-118 | over every run a registration's id is above the id of every earlier registration and of every display there is |
| Scheduling.RunAgrees | src/scheduler.rs:215-275 | over every run that opens no key twice the pending map holds exactly the live frames of an independent account, each owed by its fan-out minus those gone |
| Scheduling.EndsMatchAccount | src/scheduler.rs:122-275 | an operation reports exactly the frames that end by it, with the way each ends |
| Scheduling.EachFrameEndsOnce | src/scheduler.rs:215-275 | a begun frame is reported once if it ended and is pending otherwise |
| Scheduling.CompletedIffEveryoneIsGone | src/scheduler.rs:122-135 | a frame ends by release or departure exactly when its whole fan-out has released or left |
| Scheduling.ReleaseIsTold | src/scheduler.rs:245-275 | by the account, over every run that opens no key twice: stale without the frame's generation active, unknown when the display does not owe a live frame, and else whether it was the last to |
| Scheduling.Conservation | src/scheduler.rs:215-275 | frames begun are frames ended plus frames pending plus frames overwritten |
| Scheduling.NothingLostIffNoOverwrite | src/scheduler.rs:237-240 | nothing is lost exactly when no frame is begun under a pending key |
| Scheduling.KeyReuseLosesAFrame | src/scheduler.rs:237-240 | beginning twice under one key loses one of the two frames |
| Scheduling.TwoBegunOneEnded | src/scheduler.rs:237-240 | the smallest such run: two frames begun, one ended, none pending |
| Scheduling.SameGenerationKeepsPending | src/scheduler.rs:155-170 | a rebind leaves the pending frames alone exactly when there are none or the generation stays |
| SettingsProtocol.ReachableInvariant | src/settings.rs:672-772 | in every interleaving locks are where their holders are, and a value not on its way to disk is flagged or about to be |
| SettingsProtocol.NoLostUpdate | src/settings.rs:710-772 | whenever nothing is in progress and the flag is down, the file equals the settings in memory, failed writes included |
| SettingsProtocol.MemoryIsLastWritten | src/settings.rs:672-702 | after any run memory holds the value of the last update or reconciliation |
| SettingsProtocol.MutualExclusion | src/settings.rs:716-720 | no two tasks are past the flush lock |
| SettingsProtocol.DiskIsAlwaysAPastValue | src/settings.rs:722-770 | the file only ever holds a value the settings had |
| SettingsProtocol.DirtyIsOwed | src/settings.rs:672-702 | without failures a raised flag always has someone about to act on it |
| SettingsProtocol.QuietDirtyStoreIsWoken | src/settings.rs:688-702 | a quiet but dirty store has a notification waiting or the writer debouncing |
| SettingsProtocol.FailedFlushIsNotRetried | src/settings.rs:710-772 | the input: after a failed flush the store rests dirty, memory and file apart, with nobody woken |
| SettingsProtocol.NobodyWokenIff | src/settings.rs:672-772 | over all runs from a clean start that come to rest dirty: nobody is woken exactly when every notification was consumed and the writer began a flush after consuming it |
| SettingsProtocol.NoticesDecide | src/settings.rs:672-702 | after any run a notification waits exactly when one was given and not consumed since, and one of the two keeps the store woken exactly while some notification is unanswered |
| SettingsProtocol.FailingFlushLeavesItSo | src/settings.rs:710-772 | from any state at rest and dirty with nobody woken, a forced flush that fails in any way is possible and leaves memory, file and the state so |
| SettingsProtocol.ForcedFlushWrites | src/settings.rs:706-772 | from any quiet dirty state one caller alone can flush to a clean state |
| Reconciling.ReconcileTable | src/settings.rs:800-870 | stale keys go, missing or invalid ones get their default, in any order, and the flag says whether the table changed |
| Reconciling.Store.Reconcile | src/settings.rs:782-881 | all declared tables are reconciled independently of order, and the flag is true exactly when something changed |
| Reconciling.TablesConform | src/settings.rs:782-881 | afterwards a declared plugin has exactly its schema's keys, each valid or the default, valid ones kept |
| Reconciling.OthersUntouched | src/settings.rs:782-881 | tables of unknown plugins and empty schemas stay as they are |
| Reconciling.Fixpoint | src/settings.rs:782-881 | a second run changes nothing, even when a default is itself invalid |
| Reconciling.UnchangedIffConforming | src/settings.rs:782-881 | nothing changes exactly when everything conforms already |
| Filters.AllHolds | src/model/filter.rs:30-36 | a conjunction keeps a row exactly when each part is true, under three-valued logic |
| Filters.AnyHolds | src/model/filter.rs:48-51 | a disjunction keeps a row exactly when some part is true |
| Filters.ThreeValuedLaws | src/model/filter.rs:30-51 | conjunction and disjunction are duals under three-valued logic |
| Filters.FillBuckets | src/model/filter.rs:20-25 | the conditions of each group, in order |
| Filters.BuildGroupedCondition | src/model/filter.rs:9-70 | no condition exactly when no rule has one; otherwise a row is kept exactly when every pair with both groups present holds under its operator and every group in no such pair holds |
| Filters.OrderIsIrrelevant | src/model/filter.rs:9-70 | neither the order nor the repetition of rules and pairs matters |
| Filters.BuildTagListCondition | src/model/filter.rs:185-217 | the loop builds the tag condition, skipping empty tags |
| Filters.TagListMeaning | src/model/filter.rs:185-217 | any of the tags, or none of them; it imposes nothing exactly when no tag is left or the condition is not one of the four |
| Filters.TagRuleMeaning | src/model/filter.rs:164-183 | a single-tag rule keeps the rows with the tag, or those without it |
| Filters.MismatchedRules | src/model/filter.rs:72-162 | a rule without a payload, or with one its kind has no use for, imposes nothing |
| Filters.ColumnRuleMeaning | src/model/filter.rs:279-327 | single-column rules mean their comparison, never pass on NULL, and have no condition exactly for an unknown comparison |
| Filters.LowerMeaning | src/model/filter.rs:97 | a wallpaper type is folded to small letters, A to Z and nothing else |
| Filters.ContainsIsEqualIff | src/model/filter.rs:136-141 | on a content rating "contains" and "is" agree on a row, and so do their negations, exactly when it has no rating or LIKE matches just when the texts are equal |
| Filters.ContainsIsNotEqual | src/model/filter.rs:299-327 | the input: a rating that contains the text and is not it |
| Filters.NameRuleMeaning | src/model/filter.rs:219-259 | a "contains" rule on the name looks into the index and the tags, its negation keeps exactly the other rows, text that is only white space imposes nothing; "is" and "is not" compare the display name and never pass on NULL |
| Filters.WallpaperFiltersToCondition | src/model/filter.rs:72-162 | stored rules compile to a condition with the meaning of their groups |
| Filters.FoldingIsConjunctionIff | src/settings.rs:201-255 | over the truth of groups: adding groups means "and each of them" exactly when the logic pairs force those groups and otherwise the same ones as before |
| Filters.UnnamedGroupsFold | src/settings.rs:201-255 | it does when no pair names an added group |
| Filters.DanglingLogicCaptures | src/settings.rs:211-216 | it does not when a dangling alternative names the new group |
| Filters.ToggleCaptured | src/settings.rs:201-255 | the input: settings and a video for which the compiled queue filter keeps what a quick toggle rejects |
| Filters.FoldedMeaning | src/settings.rs:201-255 | folding extra rules into a filter means both, for every row |
| Filters.NextGroup | src/settings.rs:211-216 | one above the largest group in use, or 0 |
| Filters.WrapMeaning | src/settings.rs:211-255 | group numbers stay within 32 bits, whole multiples of 2^32 left out |
| Filters.FitsMeaning | src/settings.rs:211-255 | each toggle has the group counted for it exactly when the last one still fits |
| Filters.WallpaperQueueFilter | src/settings.rs:201-255 | the user's rules, then one rule per toggle in consecutive new groups |
| Filters.ToggleMeaning | src/settings.rs:217-252 | what each quick toggle asks of a row; a row without a type or rating does not pass |
| Filters.QueueMeaning | src/settings.rs:201-255 | the folded filter keeps exactly what the user's filter keeps and every toggle lets pass, under the check on the pairs |
| Filters.QueueCondition | src/settings.rs:201-255 | the compiled queue filter as a whole: the folded rules' meaning, and what was intended whenever the pairs allow it, in particular when none names a toggle's group |
| Filters.IntendedIff | src/settings.rs:201-255 | over rows, when each group can fail alone: the folded filter keeps exactly what was intended if and only if the pairs force no more and no less |
| Xorshift.RngNeverZero | src/playlist/cursor.rs:40-51 | the generator's state is never zero |
| Xorshift.RngReaches | src/playlist/cursor.rs:40-51 | every number but zero is the next draw of some seed, the steps being invertible |
| Xorshift.EveryPlaceIsDrawn | src/playlist/cursor.rs:53-58 | every place below n is drawn with some seed |
| Xorshift.SeedOne | src/playlist/cursor.rs:40-51 | the first two draws of seed 1 |
| PlaylistCursors.NewOrderIsPermutation | src/playlist/cursor.rs:60-68 | every shuffle is a permutation, for every seed |
| PlaylistCursors.ShuffleIsSelection | src/playlist/cursor.rs:60-68 | the swaps in place are a selection without replacement from the back, one draw for each place but the first |
| PlaylistCursors.NewOrderIsSelection | src/playlist/cursor.rs:60-68 | so is a new order: its last place is the first draw, and n - 1 draws are used |
| PlaylistCursors.ShuffleOfThree | src/playlist/cursor.rs:60-68 | the order of three items at seed 1 is 2, 1, 0 |
| PlaylistCursors.PlaylistCursor.constructor | src/playlist/cursor.rs:15-30 | a zero seed is replaced, and a shuffled cursor starts with an order |
| PlaylistCursors.PlaylistCursor.BuildOrder | src/playlist/cursor.rs:60-68 | the in-place swaps give the order of the selection by draws and go to its front |
| PlaylistCursors.PlaylistCursor.Next | src/playlist/cursor.rs:70-105 | the next state in each mode, with the order a permutation, the position in range and the current item in the list |
| PlaylistCursors.PlaylistCursor.SetCurrent | src/playlist/cursor.rs:107-122 | an unknown item changes nothing; a known one becomes current, position and order stand at its first occurrence |
| PlaylistCursors.PlaylistCursor.First | src/playlist/cursor.rs:124-148 | the front of the order, of the list, or a draw |
| PlaylistCursors.PlaylistCursor.RebuildForPlaylist | src/playlist/engine.rs:329-342 | the current item survives an edit exactly when it is still listed; otherwise the cursor starts over; all is consistent again |
| PlaylistCursors.NextIsConsistent | src/playlist/cursor.rs:70-105 | a step keeps the order a permutation with its position in range, and makes a listed item current |
| PlaylistCursors.StandsAtCurrent | src/playlist/cursor.rs:70-148 | outside Shuffle the position is that of the current item, and a random draw uses one number |
| PlaylistCursors.OthersAreConsistent | src/playlist/engine.rs:329-342 | so do jumping, starting over and playlist edits |
| PlaylistCursors.EveryRoundCoversEverything | src/playlist/cursor.rs:89-104 | from a round start every block of n draws lists every item once and ends at a round start, shuffled anew from n - 1 further numbers |
| PlaylistCursors.FirstRoundCoversEverything | src/playlist/cursor.rs:124-148 | starting over and the n - 1 draws after it also list every item once |
| PlaylistCursors.RepeatsIffNeighboursEqual | src/playlist/cursor.rs:81-88 | a random draw repeats the current item exactly when it is drawn and its right neighbour equals it |
| PlaylistCursors.SequentialIsCyclic | src/playlist/cursor.rs:76-80 | in sequence the k-th draw is the item k places on, round and round |
| PlaylistCursors.SequentialUndo | src/playlist/cursor.rs:76-80 | stepping back undoes stepping forward, by any amount |
| Layouts.PlacementStaysInside | src/display/layout.rs:156-212 | in every mode and at every location the source lies in the texture and the destination in the display |
| Layouts.LocationSharesTheSlack | src/display/layout.rs:124-130 | in every mode the location says which share of free or cropped space comes first |
| Layouts.StretchedIsWhole | src/display/layout.rs:156-171 | stretched shows the whole texture on the whole display, and so do degenerate inputs |
| Layouts.FitIsLargestWholePicture | src/display/layout.rs:172-184 | fit keeps the aspect ratio, fills one axis, and no larger scale fits |
| Layouts.CropFillsTheDisplay | src/display/layout.rs:186-199 | crop fills the display with a part of its aspect ratio that uses one axis whole |
| Layouts.CropMirrorsFit | src/display/layout.rs:172-199 | crop's source for A on B is fit's destination for B on A |
| Layouts.CenteredIsOneToOne | src/display/layout.rs:201-261 | one texture pixel per display pixel, cropped or padded on each axis |
| Layouts.TransformsInvert | src/display/layout.rs:229-241 | for each transform value the table inverts the forward transform in both directions on the unit square |
| Layouts.PointerMapsBack | src/display/layout.rs:216-246 | a pointer position maps to nothing exactly outside the destination, and otherwise into the source, from where placement leads back |
| Layouts.EveryTexturePointIsReached | src/display/layout.rs:216-246 | every shown texture point is reached from exactly where it is shown |
| Tasks.TrimFinished | src/tasks.rs:305-319 | only finished records go, oldest ids first, down to the larger of 512 and the running ones |
| Tasks.TaskManager.RecordStarted | src/tasks.rs:269-283 | the new record is tracked and the history trimmed |
| Tasks.TaskManager.SpawnAsync | src/tasks.rs:163-191 | a new id with a running record and a token, or a failed record without one when the supervisor is gone; lost tasks are left alone |
| Tasks.TaskManager.SpawnAsyncUnique | src/tasks.rs:195-215 | of all tasks ever submitted under the key at most the new one runs afterwards; only the one the key led to is cancelled |
| Tasks.TaskManager.Cancel | src/tasks.rs:219-236 | a running record with a live token becomes Cancelled, with an event exactly then; anything else keeps its state |
| Tasks.TaskManager.SpawnBlocking | src/tasks.rs:239-255 | as for async tasks, without a token |
| Tasks.TaskManager.HandleJoin | src/tasks.rs:397-459 | a task that returned is Completed, one that erred Failed with its message, and the event goes out, unless it was cancelled; its token and keys go and no others; a lost join changes nothing |
| Tasks.LostRunsOnIff | src/tasks.rs:219-236 | over every run, a record whose join was lost is still Running exactly when its task has no token or nobody has cancelled it since |
| Tasks.CancelAfterLostJoins | src/tasks.rs:397-421 | the input: of two lost tasks that are then cancelled, the blocking one stays Running and the other is Cancelled |
| Tasks.FinishedForGood | src/tasks.rs:163-319 | over every run a tracked task leaves Running at most once, and Cancelled is never overwritten |
| Tasks.FirstEndDecides | src/tasks.rs:163-459 | the state of every record is that of its task's first end over the whole run, which every method keeps: returned, erred or refused with the message, or cancelled while it had a token; Running without one |

## Left out

- GPU backends, probing and sync objects: only the contract of `bridge/src/pool_internal.h` is used, as a backend that
  may fail at any call.
- The RPC server, D-Bus, hotkeys, process start-up and the database access around filters and playlists.
- The generated Rust codecs and, but for its filter on the latest frame, `src/routing` are not part of this model; the
  daemon's receive path ends at the frame, and the reader cache starts from decoded events.
- Real time: debounce timers, timeouts and timestamps are step order or parameters.
- Float rounding: layout is over real numbers, and floats on the wire are 32-bit words.
- Scheduling.Scheduler.RegisterDisplay: display and configuration ids are unbounded here, 64-bit counters there.
- BufferPool.Pool.SubmitSlot: release points and generations are unbounded here, 64-bit there; a failed send is one
  after which the daemon receives nothing.
- BufferPool.Pool.EmitBindBuffers: the `ready` and `release_syncobj` messages sent once per connection are not modelled.
- BufferAgreement.Advertise: the allocation of the scratch arrays is not modelled.
- Codec.Buf.Encode: messages are lists of typed fields; the arrays of strings, signed words and doubles that no
  current message uses are left out.
- Decoding.Reader.ReadArrayU32: the overflow check of count times element size cannot fail with 64-bit sizes and is
  left out.
- Decoding.Ledger.Malloc: block addresses are not reused after they are freed.
- Framing.Endpoint.ReadFramed: the daemon's body vector is not an allocation that can fail.
- Framing.Endpoint.RecvHeader: a cut delivery keeps the first of its files; that a kernel never joins the files of two
  sends in one delivery is not used.
- Framing.Endpoint.ReadFramed: that the error of a cut delivery comes from the socket library's iterator over control
  messages is taken from that library's documentation.
- Framing.RequestsCross: the sender's bytes are all on their way before the first receive; how they are cut up is free.
- SettingsProtocol.NoLostUpdate: `update` and `flush` are steps of interleaved tasks rather than methods, since the
  property is about their interleaving; a store that failed to parse its file starts elsewhere and is not covered.
- Reconciling.ReconcileTable: the bounds check and the text of a default are parameters.
- Filters.WallpaperFiltersToCondition: SQL text, quoting and the full-text query are atoms whose truth is given by the
  row; whitespace is the ASCII kind.
- Filters.WallpaperQueueFilter: the conversion of stored rules to messages is taken as done; group numbers wrap around
  at 32 bits as in a release build.
- PlaylistCursors.PlaylistCursor.Next: playlists have fewer than 2^31 items, where the cast of the length to 32 bits
  is exact.
- PlaylistCursors.PlaylistCursor.RebuildForPlaylist: one bound display at a time; applying the wallpaper is left out.
- Layouts.TransformsInvert: that the compositor turns in the same sense is not part of this model.
- ReaderCache.Handle.OnBindBuffers: descriptors of dropped events and snapshots close themselves and are not counted.
- ReaderCache.Handle.LatestFrame: its two locks are taken in one step.
- ReaderCache.BuildBindEvent: duplicating the descriptors is left out; displays are not told the placement flags, so
  the snapshot here does not keep them.
- Tasks.TaskManager.SpawnAsync: each method is one atomic step; the windows between its locks, the shutdown of the
  supervisor and lagging subscribers are left out.
- Negotiation.Renegotiate: the router's retry is this loop; its timers and notifications are left out.
