# Verification of the ExpressOS userspace protocols

This project models the hand-written protocol code of the ExpressOS userspace and
proves what it promises. The target is 32-bit x86: words are four bytes, little
endian; lengths, reservations, relocated words and the dispatcher's addresses wrap
around at 2^32.

* **Venus IPC marshaler** (`Relocation`, `MarshalSpec`, `Marshaler`, `MarshalTheorems`,
  `MarshalEntries`, `MarshalRoundTrip`, `VenusBinder`). `IpcMarshaler` is the C structure with its buffer,
  segment table and write pointer; its methods copy and walk a binder command stream,
  rewrite each pointer into the binder mapping as an offset in place, and append
  `<offset, length, data>` records. `MarshalTheorems` has an independent grammar of
  command streams, and `MarshalRoundTrip` an independent decoder of the payload.
* **Binder parcels** (`Parcel`, `ParcelTheorems`, `BinderIo`, `BinderSession`). `BinderIo` is
  `struct binder_io` over memory; every `bio_*` call is proved against a function on
  the abstract writer or reader in `Parcel`, and the theorems are about those.
* **Binder commands** (`BinderProtocol`, `BinderCommands`, `BinderClient`,
  `BinderOwnership`). `binder_parse`, `binder_call`, `binder_loop`, `binder_done` and
  `binder_send_reply`, the fold over decoded commands they refine, and the accounts of
  the buffers the driver hands over.
* **Upcalls and workers** (`Upcalls`, `Mailbox`, `Delivery`). The dispatcher's frame
  loop is a method; the dispatcher and the twenty worker mailboxes are a state machine
  over lock, wait, wake, take, answer, finish, fill and signal steps with histories.
* **Presenter** (`Presenter`). The handling of one action is a method; the one-slot
  monitor between the signalling and the presenting thread is a state machine.
* **Digit printer** (`NumToStr`).

`Words` holds the byte and word arithmetic. `dafny verify dfyconfig.toml` checks
everything.

Some properties one might expect are false of the code. For each there is an input that
shows it and a condition, on what the caller has in hand, under which exactly it holds:

* An upcall can be overwritten before it is handled. What is lost is exactly what was in
  a slot when another upcall was filled in (`Delivery.RunLoses`). For clients that have
  at most one unanswered call each, and handlers that succeed, it never happens exactly
  if no two of the client threads have the same remainder modulo 19
  (`Delivery.SafeExactly`); `Delivery.SharedWorkerLoses` is a run that loses one.
* A call of `signalAction` need not return. It still can exactly if it finds the slot
  empty (`Presenter.ReturnsExactly`), so a caller is stranded exactly if some call found
  it taken (`Presenter.StrandedExactly`); `Presenter.StuckReachable` gives a run in which
  both threads end up waiting.
* A parcel copied unchanged need not give back what was put. It does exactly if it has no
  NULL reference, no object put other than NULL, and no string of 2^29 units or more
  (`ParcelTheorems.ParcelRoundTrip`, and over memory `BinderSession.PutThenGet`);
  `ParcelTheorems.LocalObjectLost` is an input.
* A string that a get returns need not be all there. It is exactly if its length word is
  below 2^31 - 2, from where on the byte count wraps around (`ParcelTheorems.TextWhole`);
  `ParcelTheorems.TextMissing` is a string none of which is there.
* `bio_init` may leave an offset region too small for its slots, exactly when the size
  of the reservation wraps around to something that fits
  (`BinderIo.BinderIo.BioInit`); `BinderIo.WrappedReservation` is such a parcel.
* A handler's answer may be sent cut short, since nothing looks at its overflow flag. It
  carries everything put exactly if that fits into 240 bytes and four objects
  (`BinderOwnership.ReplyCarries`); five objects do not (`BinderOwnership.FiveObjectsCut`).
* A call may lose a buffer. A run loses none exactly if no read of a call brings a
  transaction, every call that returns was made with nothing held and, in the read that
  decides it, no reply is followed by another reply, a failure or an unparsable command
  (`BinderOwnership.NoLeakExactly`); `BinderOwnership.ReplyThenFailure` and
  `BinderOwnership.TransactionThenReply` lose one. A server loses one exactly if it is
  sent a reply (`BinderOwnership.ServingLosesExactly`).
* The dispatcher loop may fail to move forward. It moves forward at every turn exactly if
  no header it meets has a frame that ends past 2^32 (`Upcalls.StandsStill` is one),
  sizes that wrap around by themselves to 1 to 7 bytes aside
  (`Upcalls.ShortWrapAdvances` is one; `Upcalls.AdvancesExactly`). It splits the buffer
  properly exactly if in addition those short frames do not fit in it
  (`Upcalls.DispatchMaximal`).
* A failed marshal can report data entries beside an empty payload
  (`MarshalRoundTrip.EntriesWithoutPayload`). It reports none exactly if the stream
  refers to nothing before the failure, or first to something outside the mapping
  (`MarshalEntries.ZeroEntriesExactly`).

## Model

| member | source | states |
|---|---|---|
| Relocation.PatchPayloadPtr | android/venus/binder.c:165-172 | the in-place loop, each turn reading its site from the table as it is by then, whatever its sites overlap, the table included; where no site overlaps the table it adds the buffer address at every site listed |
| Relocation.PatchAddsBase | android/venus/binder.c:165-172 | on a payload whose sites do not overlap the table, the turns of the loop, each on the buffer the one before left, end in the buffer address added at every site the table lists at the start |
| Relocation.PatchedWord | android/venus/binder.c:170-171 | each aligned word ends as original + (times listed) * base modulo 2^32, and no byte outside the listed words changes |
| Relocation.AddAtPermuted | android/venus/binder.c:170-171 | the order in which the table lists its sites does not matter |
| Relocation.AddAtUndone | android/venus/binder.c:170-171 | patching with the negated base restores every byte, sites listed repeatedly included |
| Marshaler.IpcMarshaler.RecordSegment | android/venus/binder.c:264-285 | with fewer than 16 entries and the pointer in the 4 MB less a page from the mapping's start, one entry is added and only the pointer word becomes an offset; otherwise a full table is -12 before a pointer outside is -14, and nothing changes |
| Marshaler.IpcMarshaler.MarshalTransaction | android/venus/binder.c:247-262 | the data segment before the offsets segment, zero sizes skipped, stopping at the first refusal with everything before it kept |
| Marshaler.IpcMarshaler.AppendSegment | android/venus/binder.c:297-302 | one `<offset, length, data>` record with the segment's bytes at the write pointer, which moves past it; nothing else is written |
| Marshaler.IpcMarshaler.AppendDataSegments | android/venus/binder.c:287-307 | the records of the longest prefix of the table that fits, 0 exactly if that is all of it, write pointer inside the buffer and exact |
| Marshaler.IpcMarshaler.Marshal | android/venus/binder.c:182-245 | return value, segment table, relocated stream copy, appended records and write pointer, on success and on each failure, for any stream whose first record that does not fit has no size that wraps around |
| MarshalTheorems.GrammarAccepted | android/venus/binder.c:195-237 | on every stream of the grammar, which lists the nine accepted codes by name, a truncated last refcount command included, the walk never stops and asks for exactly the stream's references in command order, buffer before offsets |
| MarshalTheorems.ParseStream | android/venus/binder.c:195-237 | a stream the walk gets through is in the grammar |
| MarshalTheorems.SuccessCondition | android/venus/binder.c:188-244 | the result is 0 if and only if the stream parses, has at most 16 nonzero segments, each starting in the mapping, and stream size plus the sum of 8 + length is at most 16384 |
| MarshalEntries.ResultExactly | android/venus/binder.c:182-307 | the return value of every stream, said of its commands: a reference refused after 16 others -12, one outside the mapping -14, else bytes cut short -14 or an unknown command -1, else 0 or -1 as the records fit 16384 bytes or not |
| MarshalRoundTrip.RecordsDecode | android/venus/binder.c:297-302 | splitting the appended records gives back every offset and its bytes |
| MarshalRoundTrip.SameWalk | android/venus/binder.c:195-237 | a stream whose pointer words were rewritten is walked like the original: same segments, same places |
| MarshalRoundTrip.StreamRestored | android/venus/binder.c:276-282 | walking the relocated stream and adding the base back restores it byte for byte |
| MarshalRoundTrip.DecodeUndoesMarshal | android/venus/binder.c:182-307 | after success, decoding the buffer up to the write pointer yields the original stream and the bytes of every reference in command order, and the write pointer is exact |
| MarshalRoundTrip.OnlyPointersChange | android/venus/binder.c:281-282 | a byte of the stream copy outside the recorded pointer words keeps its value, wherever the walk stopped |
| MarshalEntries.EntriesExactly | android/venus/binder.c:195-282 | for any stream, refused or not, the entries recorded are its references up to the first that does not start in the mapping or finds the table full |
| MarshalEntries.ParseAny | android/venus/binder.c:195-237 | every stream is a list of commands and then bytes that start no command |
| MarshalEntries.ZeroEntriesExactly | android/venus/binder.c:136-155 | no entries are reported if and only if the stream refers to nothing before it ends or is refused, or first to something outside the mapping |
| MarshalRoundTrip.EntriesWithoutPayload | android/venus/binder.c:136-155 | a witness for every mapping address: a failing stream with one recorded entry |
| VenusBinder.HandleBinderWriteRead | android/venus/binder.c:88-163 | payload relocated, whatever its sites overlap; results echoed, payload empty on failure; return value and entry count exact for any stream, and the count zero exactly when no accepted reference comes first; on success the payload decodes to the driver's stream and the segments it refers to |
| ParcelTheorems.StepFits | android/bench-binder/binder.c:465-555 | a put that fits writes exactly its wire form on word boundaries and takes at most one offset slot |
| ParcelTheorems.StepOverflows | android/bench-binder/binder.c:422-463 | a put that does not fit, in bytes or slots, raises the overflow flag |
| ParcelTheorems.FailedPutUses | android/bench-binder/binder.c:422-463 | a put that does not fit uses up nothing, or the length word of a string, or the 16 bytes of an object that finds no slot, and no slot |
| ParcelTheorems.RunGrows | android/bench-binder/binder.c:422-463 | over any puts, overflowing or not: used + available bytes and recorded + available slots are constant, the cursor stays aligned, nothing written changes, the flag is never cleared |
| ParcelTheorems.AllocatorInvariant | android/bench-binder/binder.c:422-463 | over any puts the recorded offsets are aligned, strictly increasing, 16 bytes apart and inside the used data |
| ParcelTheorems.OverflowExact | android/bench-binder/binder.c:315-318 | the flag `binder_call` tests is clear if and only if all the puts fit, and then each one was written in full and its slots are where the layout says |
| ParcelTheorems.RunStores | android/bench-binder/binder.c:465-555 | after any puts that leave the flag clear each put is in the parcel word by word, behind the ones before it: numbers, the four words of an object, and strings unit by unit, low byte first, with length and terminator |
| ParcelTheorems.CarriesExactly | android/bench-binder/binder.c:184-190 | a parcel sent without a look at its flag holds all the puts, in full and with their slots, if and only if they fit |
| ParcelTheorems.AnswerMatches | android/bench-binder/binder.c:573-618 | one get undoes one put and leaves the reader at the next; a NULL reference drains it |
| ParcelTheorems.WhatIsRead | android/bench-binder/binder.c:573-618 | what the matching gets read from any parcel handed over unchanged without overflow, put by put; the reader's flag stays clear if and only if no put was a NULL reference |
| ParcelTheorems.ParcelRoundTrip | android/bench-binder/binder.c:394-618 | after any puts that leave the flag clear, reopening and doing the matching gets returns every value put with the reader's flag clear, if and only if no put is a NULL reference, an object other than NULL or an oversized string; every byte is then used |
| ParcelTheorems.LocalObjectLost | android/bench-binder/binder.c:472-484 | an object put fits, and from a parcel copied unchanged it does not come back: its get gives NULL |
| BinderSession.PutThenGet | android/bench-binder/binder.c:394-618 | the same over memory, byte strings included, from `bio_init` and the puts through an unchanged copy to the gets: whether the parcel fits, and whether all values return |
| ParcelTheorems.FailureAbsorbs | android/bench-binder/binder.c:557-618 | once nothing is available every later number is 0 and every later string and reference is null |
| ParcelTheorems.FirstFailure | android/bench-binder/binder.c:557-618 | the first get that fails is the first for which there is not enough at the cursor (a recorded offset, for references), and from then on every get answers nothing |
| ParcelTheorems.TextWhole | android/bench-binder/binder.c:579-586 | a string that a get returns has all its units and terminator in the data if and only if its length word is below 2^31 - 2 |
| ParcelTheorems.TextMissing | android/bench-binder/binder.c:579-586 | a witness for each such length: from a parcel of just the length word a string pointer is returned, at the end of the data |
| BinderIo.BinderIo.BioInit | android/bench-binder/binder.c:403-420 | the parcel is sound if and only if the 32-bit size of the reservation does not wrap or does not fit; it then is the freshly initialised one, its offset region, four bytes a slot, ahead of its data region |
| BinderIo.BinderIo.Alloc | android/bench-binder/binder.c:422-434 | rounded to words, the cursor and the available bytes move together, or the flag is raised and nothing moves |
| BinderIo.BinderIo.AllocObj | android/bench-binder/binder.c:449-463 | with space and a slot the object's offset is stored in the offset region; with space but no slot the space is used up; nothing outside is written |
| BinderIo.BinderIo.PutUint32 | android/bench-binder/binder.c:465-470 | refines the number put, and writes only inside the parcel's own buffer; without overflow the number is the word at the old cursor |
| BinderIo.BinderIo.PutString16 | android/bench-binder/binder.c:504-527 | refines the text put of the string up to its terminator; NULL and oversized strings are sent as the length word of all ones; without overflow length, units, low byte first, and terminator lie at the old cursor |
| BinderIo.BinderIo.PutString16X | android/bench-binder/binder.c:529-555 | the same for a byte string, each byte widened to a unit by the copy loop |
| BinderIo.BinderIo.PutObj | android/bench-binder/binder.c:472-484 | refines the object put: offset and object stored in place in their own regions; without overflow the four words of the object lie at the old cursor |
| BinderIo.BinderIo.PutRef | android/bench-binder/binder.c:486-502 | refines the reference put; a NULL reference takes no slot; without overflow the four words of the object lie at the old cursor |
| BinderIo.BinderIo.BioInitFromTxn | android/bench-binder/binder.c:394-401 | the reader stands at the start of the transaction's data, with its offsets, shared |
| BinderIo.BinderIo.BioGet | android/bench-binder/binder.c:557-571 | refines the get: the bytes and the moved cursor, or a drained reader |
| BinderIo.BinderIo.GetUint32 | android/bench-binder/binder.c:573-577 | refines the number get |
| BinderIo.BinderIo.GetString16 | android/bench-binder/binder.c:579-586 | refines the text get with its wrapping byte count, so a NULL string takes only its length word |
| BinderIo.BinderIo.FindOffset | android/bench-binder/binder.c:594-597 | the search finds the offset if and only if it was recorded |
| BinderIo.BinderIo.GetObj | android/bench-binder/binder.c:588-602 | refines the object lookup; a miss drains the reader |
| BinderIo.BinderIo.GetRef | android/bench-binder/binder.c:604-618 | refines the reference get; an object that is not a handle gives null |
| BinderIo.BinderIo.GetAll | android/bench-binder/binder.c:557-618 | any list of gets refines the answers of the abstract reader |
| BinderIo.DeliveredOpens | android/bench-binder/binder.c:324-327 | whoever copies data and offsets with the sizes `binder_call` computes hands over a parcel that opens to the one written |
| BinderIo.WrappedReservation | android/bench-binder/binder.c:406-420 | initialised with 2^30 slots over 16 bytes, the first object put overwrites its own offset, no flag raised |
| BinderProtocol.TailFields | android/bench-binder/binder.h:20-34 | the size and pointer words the marshaler reads are those fields of the transaction record |
| BinderCommands.ParseUndoesEncoding | android/bench-binder/binder.c:200-271 | from any commands written one after the other, in the codes listed by name, exactly those are read, each with its fields |
| BinderCommands.ReadExactly | android/bench-binder/binder.c:200-271 | what is read of whole commands and any end: nothing more, a refcount command or death notice cut short, a failure at a transaction record cut short or at an unknown code |
| BinderCommands.SplitAny | android/bench-binder/binder.c:200-271 | every read is whole commands and such an end |
| BinderCommands.FoldIsVerdict | android/bench-binder/binder.c:194-275 | the parse result is -1 if some command is unknown or short, else decided by the last reply, failure or dead reply, else 1 |
| BinderCommands.CommandsJoin | android/bench-binder/binder.c:200-271 | decoding whole commands followed by more decodes the two streams in turn |
| BinderCommands.PrependChunk | android/bench-binder/binder.c:194-275 | a chunk of whole commands that returns 1 can be put in front without changing result or binding, its effects coming first |
| BinderCommands.CallIsOneParse | android/bench-binder/binder.c:334-349 | a call over several reads ends as one parse of their concatenation |
| BinderCommands.JudgeIsResult | android/bench-binder/binder.c:346-348 | result 0 always comes with a bound reply, result 1 with none |
| BinderClient.BinderState.ParseCommand | android/bench-binder/binder.c:200-272 | one turn of the parse loop does what the decoded command says: result, effects, cursor, and binding by the first reply only |
| BinderClient.BinderState.BinderParse | android/bench-binder/binder.c:194-275 | the parse refines the fold over the decoded commands; the caller's structure is bound to the first reply or unchanged |
| BinderClient.BinderState.BinderSendReply | android/bench-binder/binder.c:160-192 | one free of the given buffer, then the status or the written data and offsets, whatever the overflow flag says |
| BinderClient.BinderState.Serve | android/bench-binder/binder.c:226-236 | a fresh reply of 256 bytes and four slots, the handler's puts, and an answer behind the free of the transaction's buffer: the handler's status if it is not 0, else data that carries all of the puts if and only if they fit into 240 bytes and four slots; if not it is sent cut short |
| BinderOwnership.ReplyCarries | android/bench-binder/binder.c:160-236 | the answer to a transaction carries all the handler's puts if and only if they fit into 240 bytes and four slots |
| BinderOwnership.FiveObjectsCut | android/bench-binder/binder.c:184-236 | a witness: an answer to which five objects were put does not carry them |
| BinderClient.BinderState.BinderCall | android/bench-binder/binder.c:303-355 | an overflowed message is not sent; otherwise one transaction with the written sizes and nothing else but death callbacks, then the outcome of the reads: bound reply, cleared reply with the error flag, or still waiting |
| BinderClient.FailedReplyReads | android/bench-binder/binder.c:351-354 | the reply of a failed call has the error flag, nothing to free, and answers nothing to any gets |
| BinderClient.BinderState.BinderLoop | android/bench-binder/binder.c:357-392 | enters the looper and handles the commands of the reads in order, stopping at the first read that does not return 1 |
| BinderClient.BinderState.BinderDone | android/bench-binder/binder.c:436-447 | frees the buffer of a shared reply once, and nothing otherwise |
| BinderOwnership.HandlerServes | android/bench-binder/binder.c:219-261 | with a handler, the effects of a parse are, in stream order, one free of its own buffer and then one reply per transaction, one callback per death notice, and nothing else |
| BinderOwnership.HandlerAnswers | android/bench-binder/binder.c:160-236 | a parse with a handler answers each transaction, in order, with the status or data its own handler call returned, given the events up to then |
| BinderOwnership.CallSends | android/bench-binder/binder.c:226-261 | a parse without a handler makes the death callbacks and sends nothing |
| BinderOwnership.ServedBuffersFreed | android/bench-binder/binder.c:225-238 | the buffers freed are the transaction buffers received, once each, in order |
| BinderOwnership.ServingLosesExactly | android/bench-binder/binder.c:219-261 | a server frees every buffer it receives if and only if it is sent no reply; it then frees those of the transactions and loses those of the replies |
| BinderClient.BinderState.RunOps | android/bench-binder/binder.c:303-447 | a caller's operations on one reply structure hold and free exactly the buffers the books say, in order |
| BinderOwnership.BuffersConserved | android/bench-binder/binder.c:219-256 | over any run of calls, gets and dones, with the buffers of replies and of transactions read by calls booked one by one as they come: received = freed + held + lost |
| BinderOwnership.ReplyLastExactly | android/bench-binder/binder.c:240-272 | a read yields as many replies as its result tells if and only if no reply in it is followed by another, by a failure or by something unparsable |
| BinderOwnership.NoLeakExactly | android/bench-binder/binder.c:219-256 | a run loses no buffer, of a reply or of a transaction, if and only if no read of a call brings a transaction, every call that returns was made with no reply held, and no reply in its deciding read is undone by a later command |
| BinderOwnership.ReplyThenFailure | android/bench-binder/binder.c:240-267 | a witness: one read with a reply and then a failure loses the reply's buffer |
| BinderOwnership.TransactionThenReply | android/bench-binder/binder.c:226-256 | a witness: a call whose read has a transaction and then the reply is answered and done, and loses the transaction's buffer |
| BinderOwnership.PairedFreesAll | android/bench-binder/binder.c:303-447 | over any run in which each answered call is followed by `binder_done`, with no transaction and no undone reply in any read, the buffers of all replies and transactions received are freed in the order received, once each, all but the one still held, and none is lost |
| BinderOwnership.CallThenDone | android/bench-binder/binder.h:81-87 | a call without transactions or undone replies and its done free exactly the buffer received, a second done frees nothing, nor does a done after a call that failed or is still waiting |
| Upcalls.Dispatcher.Dispatch | android/venus/upcall.c:120-132 | the cursor loop, with its 32-bit addresses, calls `post_upcall` on the frames of the specification in order, with the bytes copied and the worker of each, and returns -1 exactly if it stops before the end; required is that it moves forward |
| Upcalls.Dispatcher.Loop | android/venus/upcall.c:103-134 | the outer loop posts, over any reads, the frames of each in turn, and returns at the first failed `ioctl` or malformed read with its code |
| Upcalls.Routing | android/venus/upcall.c:194-221 | opcode by opcode: the five calls that may block go to worker (handle / 8192) modulo 19, the others to worker 19, opcodes from 9 on to nobody |
| Upcalls.FrameLayout | android/venus/upcall.c:123-124 | a frame is opcode, payload size and payload, eight bytes longer than the payload |
| Upcalls.DispatchDecodes | android/venus/upcall.c:120-132 | on the concatenated encodings of any upcalls the loop moves forward and posts exactly those, in order, to their workers, wherever the buffer lies |
| Upcalls.LoopDecodes | android/venus/upcall.c:103-134 | however the upcalls sent are spread over reads, the loop posts exactly those, in order, to their workers, and goes on with what comes after |
| Upcalls.LoopEnds | android/venus/upcall.c:103-128 | the loop ends at the first failed `ioctl` with its result or at the first read that does not split up with -1, and not before |
| Upcalls.FrameIsEncoding | android/venus/upcall.c:123-124 | a byte string is a whole frame by its header if and only if it encodes some upcall |
| Upcalls.DispatchMaximal | android/venus/upcall.c:120-132 | the loop moves forward, posts the maximal run of whole leading frames, and leaves nothing that starts with one, if and only if every header it meets has its frame end within memory, or a size wrapping around to 1 to 7 bytes that the buffer does not have any more |
| Upcalls.TurnExactly | android/venus/upcall.c:124-131 | one turn goes forward just over the whole frames, and stands still or goes back just at the headers that wrap |
| Upcalls.AdvancesExactly | android/venus/upcall.c:122-132 | the whole loop moves forward at every turn if and only if it meets no header whose frame ends past 2^32, sizes that wrap to 1 to 7 bytes aside |
| Upcalls.StandsStill | android/venus/upcall.c:124-131 | a witness: with payload size 2^32 - 8 the loop stays where it is, wherever the buffer lies |
| Upcalls.ShortWrapAdvances | android/venus/upcall.c:124-131 | a witness that not every frame past 2^32 does so: with payload size 2^32 - 1 the loop goes on seven bytes further, wherever the buffer lies |
| Mailbox.FillAccounts | android/venus/upcall.c:235-246 | filling a slot moves its occupant, if any, to the overwritten ones and keeps the accounts |
| Mailbox.StepKeepsFlow | android/venus/upcall.c:144-188 | a worker's own step moves upcalls on and neither loses, repeats nor reorders any |
| Mailbox.StepKeeps | android/venus/upcall.c:138-250 | every step of any thread keeps the invariant on mutexes, slots, wakeups, `retval`, accounts and routing |
| Mailbox.RunKeeps | android/venus/upcall.c:138-250 | so every run does |
| Delivery.Conservation | android/venus/upcall.c:138-250 | in every interleaving posted = handled + in service + pending + overwritten, and what is not overwritten is a subsequence of the posted order, nothing twice |
| Delivery.RunLoses | android/venus/upcall.c:235-246 | over any run a worker loses exactly the upcalls that were in its slot when another was filled in, in that order |
| Delivery.NoLostWakeup | android/venus/upcall.c:145-151 | a worker blocked unsignalled on a free mutex has an empty slot, and a live worker's `retval` is 0 |
| Delivery.SpuriousWakeHarmless | android/venus/upcall.c:145-147 | a blocked worker can always wake up spuriously, and is then back where it was in two steps |
| Delivery.PendingIsServed | android/venus/upcall.c:138-250 | from every reachable state a live worker with a pending upcall gets one into service within five steps of its own and of a post under way |
| Delivery.UnknownOpcodeContinues | android/venus/upcall.c:178-188 | an opcode other than the eight with a case never ends a worker |
| Delivery.UnknownDropped | android/venus/upcall.c:194-231 | an upcall with an opcode from 9 on can always be offered and is dropped |
| Delivery.HandlerEnds | android/venus/upcall.c:153-188 | a handler of one of the eight cases may return anything, and ends its worker if and only if that is not 0 |
| Delivery.Affinity | android/venus/upcall.c:206-213 | the five named asynchronous calls of one client thread all go to worker (handle / 8192) modulo 19, in every run |
| Delivery.Isolation | android/venus/upcall.c:194-221 | worker 19 gets a call if and only if it is none of those five; opcodes from 9 on reach nobody |
| Delivery.OneThreadPerWorker | android/venus/upcall.c:206-218 | among threads with different remainders modulo 19, two upcalls meet at one worker only if they come from one client |
| Delivery.ExactlyOnce | android/venus/upcall.c:50-60 | when each client has at most one unanswered call, the client threads have different remainders modulo 19 and handlers return 0, no slot is ever overwritten, no worker ends, and each worker has exactly what was posted to it, in order |
| Delivery.AnsweredIsIdle | android/venus/upcall.c:50-60 | a client whose only open call was answered may post again under the discipline, although its worker is still in the handler |
| Delivery.RunProjects | android/venus/upcall.c:227-250 | what is posted to a worker is the part of the offered upcalls meant for it, in any run |
| Delivery.StreamPosted | android/venus/upcall.c:97-250 | for any upcalls sent in any number of reads and any run of the threads: each worker was posted exactly those offered that are meant for it, in order |
| Delivery.StreamDelivered | android/venus/upcall.c:97-250 | dispatcher and workers together over any number of reads: of the upcalls offered so far, each worker has, under the discipline, exactly those meant for it, in order and once |
| Delivery.SharedWorkerLoses | android/venus/upcall.c:206-246 | any two different client threads that share a worker, both idle, lose a call in a run that keeps the rest of the discipline |
| Delivery.SafeExactly | android/venus/upcall.c:206-246 | for any set of client threads: no disciplined run overwrites anything if and only if no two of them have the same remainder modulo 19 |
| Delivery.WindowSafeExactly | android/venus/upcall.c:206-246 | so consecutive threads are safe if and only if there are at most 19 |
| Presenter.Screen.HandleAction | android/presenter/presenter.cpp:345-373 | whether or not the slide decodes, one turn of the loop moves the view as the action says and empties the slot |
| Presenter.FoldBounds | android/presenter/presenter.cpp:345-371 | after any actions the blank flag is the parity of the toggles, the slide stays between 1 and the last once there, and counts the moves exactly when it cannot run into an end |
| Presenter.StepKeeps | android/presenter/presenter.cpp:98-377 | every step of either thread keeps the monitor invariant |
| Presenter.OnceInOrder | android/presenter/presenter.cpp:98-110 | in every interleaving, spurious wakeups included, handled, pending and not yet stored actions are the requested ones, once and in order |
| Presenter.ViewIsFold | android/presenter/presenter.cpp:333-377 | between actions slide and blank flag are the fold of the handled actions over the first view, whichever loads fail |
| Presenter.SlideInDeck | android/presenter/presenter.cpp:347-361 | with at least one slide the index never exceeds the deck, nor falls below 1 once the first slide was shown |
| Presenter.LoadEither | android/presenter/presenter.cpp:333-358 | a slide may always fail to decode; only for the first slide that makes a difference |
| Presenter.PendingIsHandled | android/presenter/presenter.cpp:107-109 | no signal to the presenting thread is lost: the pending action is handled within seven steps, none of them a spurious wakeup |
| Presenter.ReturnsExactly | android/presenter/presenter.cpp:103-110 | a call that tests the slot can still store its action without a spurious wakeup if and only if it finds the slot empty, and then returns |
| Presenter.FullSlotStrands | android/presenter/presenter.cpp:104-105 | a call that finds the slot taken never stores its action, in any run without a spurious wakeup of it |
| Presenter.SpuriousWakeupReturns | android/presenter/presenter.cpp:103-110 | with one spurious wakeup a stranded caller stores its action and returns |
| Presenter.SpuriousHarmless | android/presenter/presenter.cpp:104-105 | a spurious wakeup of either thread without cause leads back to the same state |
| Presenter.StrandedExactly | android/presenter/presenter.cpp:98-110 | a whole run without such a wakeup ends with the caller stranded if and only if some call in it found the slot taken |
| Presenter.StuckExactly | android/presenter/presenter.cpp:341-343 | no thread can take a step but by a spurious wakeup if and only if both are blocked, and then the slot is empty |
| Presenter.WaitsForever | android/presenter/presenter.cpp:104-105 | a caller that waits stays so and stores nothing, in any run without a spurious wakeup of it |
| Presenter.NothingFollows | android/presenter/presenter.cpp:339-375 | while a caller waits only the action in the slot is still handled; once the slot is empty the screen does not change any more |
| Presenter.StuckReachable | android/presenter/presenter.cpp:339-375 | two actions in quick succession can block both threads |
| NumToStr.FillDigits | android/bench-sqlite/bench.c:67-74 | the digit loop stays within its ten slots and stores the decimal digits, least significant first |
| NumToStr.NumToStr | android/bench-sqlite/bench.c:64-81 | the buffer holds the English digits of the number, most significant first with single spaces, and the terminator; nothing behind it changes |
| NumToStr.SpellDigit | android/bench-sqlite/bench.c:64-81 | the ten words, in full |
| NumToStr.SpellStep | android/bench-sqlite/bench.c:64-81 | one digit more is one word more, behind a single space |
| NumToStr.RoundTrip | android/bench-sqlite/bench.c:64-81 | a decoder over the words gives the number back |
| NumToStr.SpellInjective | android/bench-sqlite/bench.c:64-81 | no two numbers print alike |
| NumToStr.Fits | android/bench-sqlite/bench.c:64-81 | at most ten digits and, with the terminator, 60 characters; no trailing space |

## Left out

- The headers `expressos/venus.h` and `linux/binder.h` are not part of this model. The venus header is taken to be two words (opcode, payload size) and the opcodes to be distinct numbers below the call count; of the `BR_*` codes only that they differ is used. For `struct binder_transaction_data` the layout of `struct binder_txn` is used.
- System calls: `ioctl` is a supplier of read buffers and results, `malloc` always succeeds, `mmap`, `open` and the sockets do not appear. A call whose reads run out is still waiting.
- Pointers are indices into one memory; the binder mapping, with a 32-bit base below 2^32 minus its size, and the readable memory behind it are one byte sequence. `BINDER_VM_SIZE` is 4 MB minus one page, as in `android/venus/venus.h`.
- Marshaler.IpcMarshaler.Marshal: a segment may end past the mapping, as in the code, and the memory there is then copied as well; assumed is that a read fits the buffer and that the first record that does not fit has a size below 2^32, since a larger one wraps around and is copied regardless.
- Relocation.PatchPayloadPtr: assumes that every turn reads and writes inside the payload, which the code does not check.
- VenusBinder.HandleBinderWriteRead: assumes the same of the payload, and of the driver what `Marshal` assumes.
- BinderSession.PutThenGet: starts from reservations that fit or overflow as such; one whose size wraps around to something that fits (`BioInit` says exactly which) is shown only in `WrappedReservation`.
- A parcel is copied unchanged: a binder driver that translates the objects at the recorded offsets (local objects into handles) is not part of this model.
- The downcall has its fields, not its byte layout, and is not sent; what the driver does with the relocated payload is not modelled.
- The bytes that round an odd-sized string up to a word keep what the buffer held; the round trip compares values.
- A C string argument is the array it lies in, up to its terminator.
- BinderClient.BinderState.Serve: handlers are functions from the events so far and the transaction to a status and a list of puts; the reader `msg` passed to them and their other effects are not modelled.
- BinderClient.BinderState.BinderParse: death callbacks are recorded, not run; a cookie behind the end of the stream is an arbitrary word, as is everything read there.
- Upcalls.Dispatcher.Dispatch: requires that the loop moves forward (`AdvancesExactly` says when); where it does not, it repeats a frame or reads before one, and what it posts then is not modelled. The loop only reads its buffer, so the buffer is a value; it is readable 12 bytes past its end, where a header or handle cut short is read.
- Threads are a state machine on values whose steps are the critical sections and what lies between them, not pthread objects; fairness of the scheduler is not modelled, so progress is stated as the existence of a short run. The upcall replaced in a slot is also leaked by the code.
- In the client discipline all synchronous calls count as one client, and an upcall whose handler returned counts as answered.
- The presenter has one signalling thread, as in the program, and starts when the archive is open.
- The reply opcodes of the venus handlers, futex, file and network calls: thin wrappers.
- Rendering: whether a slide decodes is an input.
- NumToStr.NumToStr: numbers from 0 to 2^31 - 1, which is what the benchmark passes; a negative number would index the names below zero.
- `bio_get_obj`, `binder_acquire`, `binder_release`, `binder_link_to_death`: a declaration without a body and single writes.
