# lttng-tools: a verified model of its common core

LTTng-tools is a set of processes — clients, the session daemon, relay and
consumer daemons, a privileged worker — that pass structured objects to one another
as packed bytes. This project models the part of `src/common` that carries those
objects, and the algorithms and protocols beside it, and proves what they promise:

- **Paths** (`PathSpec`, `Path`, `ExpandPath`). The in-place rewriting that removes
  `//`, `/./` and `/../` refines a stack of components; what it does to a path that
  ends in `/` is stated exactly.
- **Flattened event lists** (`FlattenLayout`, `Flatten`). One pass predicts the size of
  a buffer, another lays events out in it and stores pointers into it. The buffer never
  moves while it is filled, is exactly as long as predicted, and following its pointers
  gives back what was put in.
- **Waiting and waking** (`Futex`). One waiter, any number of wakers, every interleaving:
  no wake-up is lost, and the wait returns only because of one.
- **The run-as worker** (`RunAs`). Two processes, two sockets, descriptors that travel in
  both directions, failures and a worker that may die: the two sides never disagree on
  what comes next, and a caller gets the result of its own command.
- **Buffers, views and handles** (`DynamicBuffer`, `BufferView`, `PayloadView`,
  `FdHandles`, `Payload`). A byte buffer with amortised growth; views that nest and share
  one position; descriptors counted by reference and closed exactly once.
- **Codecs** (`Wire`, `EventCodec`, `EventLaws`, `EventWire`, `EventSerialize`, `EventList`,
  `SessionDescriptor`, `Tracker`, `Channel`, `ErrorQuery`). What is encoded is appended
  and leaves what was there alone; for each codec it is stated for which values decoding
  gives back what was encoded, and that it uses exactly the bytes that were written; which
  byte holds what; and exactly which bytes a decoder accepts as which value.
- **Walkers** (`ElfNotes`, `SectionName`, `SymbolIterator`) and the **index allocator**.

Structures that the code updates in place are classes and arrays here (the dynamic
buffer, the path array, the index allocator, the symbol iterator); the two concurrent
parts and the handles are step machines, and their theorems hold at every point of every
run. Each loop of the sequential code is a method, proved against a function of its inputs.

Choices made throughout:

- Integers are unbounded; every width that matters is written out (`Wire`, `Wrap`,
  `Signed`). Fields are little-endian and structures are laid out as on an LP64 machine.
  Buffer sizes stay at or below 2^62 (`MAX_SIZE`), so that no sum wraps.
- An allocation that fails leaves the state as it was. Any request for a new block may
  fail, whatever its size, unless the buffer is `generous`, which is used to state what
  else a failure may be due to. What the operating system decides (the current directory, the resolution of
  symbolic links, `dup`, short reads, credentials, the death of a process) is a parameter
  or an argument of a step.
- A character array is modelled by the characters before its first NUL; one without a NUL
  has as many characters as the array.

Where the code does something other than what one would expect, the model follows the
code:

- A path that ends in `/` keeps whatever byte is at the write index: `//a/` becomes `/aa`.
  `TrailingSlashExactly` says when the result is the normal form with a slash.
- The encoder of a probe stores the address in the field for the offset
  (src/common/event.c:95), so a probe's offset arrives as its address (`AsReceived`).
- The decoder of an event returns a positive error code for an unknown type
  (src/common/event.c:656), which the list decoder takes for a size.
- A session name that is empty, rather than absent, is encoded and refused
  (src/common/session-descriptor.c:683); a channel name of 255 characters likewise
  (src/common/channel.c:149).
- In the run-as worker a failed demotion replies success with descriptor 0
  (`FailedDemotionReportsSuccess`); for a command relative to the working directory the
  worker cannot close `AT_FDCWD` when it cleans up after that, exits, and the call ends in
  EIO (`FailedDemotionEndsInEio`).
- The size of an array of names is a product of a 32-bit count and 256, computed in 32
  bits (src/common/event.c:276, 1521 and 1659), so from 2^24 exclusions on it wraps. The
  flattener then lays fewer bytes than the names take, in both passes alike
  (`ExclusionsReadBackExactly`, `TooManyNames`). The decoder then writes past its array, and
  the model of it stops there (`Overrun`, `Undefined`, `TooManyExclusions`).
- Lengths of filters, of tracker names and of the strings of error query results are kept
  in 32 bits and also say how much is appended (`Sent`).
- The end address of `.text` is accepted as being inside it (src/common/lttng-elf.c:726).

## Model

| member | source | states |
|---|---|---|
| PathSpec.NormalizeIdempotent | src/common/path.c:167-265 | Normalising twice is normalising once. |
| PathSpec.NormalizeNeverLengthens | src/common/path.c:167-265 | The normal form of an absolute path is never longer than the path. |
| PathSpec.NormalIffRendered | src/common/path.c:167-265 | A path is its own normal form if and only if it is some stack of plain components, each behind one slash. |
| PathSpec.SplitRender | src/common/path.c:167-265 | Splitting and resolving a rendered stack gives the stack back. |
| PathSpec.OneMoreComponent | src/common/path.c:167-265 | What one more component does to the normal form of any path: an empty one and `.` nothing, any other but `..` is appended behind one slash. |
| PathSpec.OneComponentLess | src/common/path.c:222-251 | A further `..` takes the last component of the normal form away, and leaves the root alone. |
| Path.ExpandDoubleSlashesDotAndDotDot | src/common/path.c:167-265 | The in-place loop refuses the empty path and otherwise leaves in the array exactly the string `Expanded`, without touching anything past the old terminator; for every path not ending in `/` that is the normal form: empty and `.` components dropped, `..` popped with the root as floor. |
| Path.MemRChr | src/common/compat/string.h:112-131 | The backward search finds the last occurrence in the range, or nothing if there is none. |
| Path.NormalIsFixed | src/common/path.c:167-265 | The rewriting changes nothing in a normal path, so it is idempotent on paths not ending in `/`. |
| Path.WriteIndexBehind | src/common/path.c:187-190 | At the end of a path ending in `/` the write index is still inside the path, so the byte kept is one of it. |
| Path.TrailingSlashExactly | src/common/path.c:187-190 | A path ending in `/` comes out as its normal form and one slash if and only if no stale byte sits at the write index. |
| Path.TrailingSlashNoDotDot | src/common/path.c:187-190 | Without `..` that condition is that the input byte at the write index is a slash. |
| Path.TrailingSlashCounterexample | src/common/path.c:187-190 | `//a/` is rewritten to `/aa`, whose normal form is `/a`. |
| Path.NormalWithSlashIsFixed | src/common/path.c:167-265 | A normal path with a trailing slash is left as it is. |
| ExpandPath.LastTokenIsPlain | src/common/path.c:339-367 | For every absolute input, what the rewriting leaves never ends in `/.` or `/..`, so the later fix-up never changes it. |
| ExpandPath.FixLastToken | src/common/path.c:339-367 | The fix-up cuts a last `/.` token, or a last `/..` and its parent, from the string in the array. |
| ExpandPath.LastDots | src/common/path.c:339-367 | Of a path and a last token, a last `.` goes with its slash, and any token but `.` and `..` stays. |
| ExpandPath.LastDotDot | src/common/path.c:348-366 | A last `..` goes with the token before it, whatever that is, but the first slash stays. |
| ExpandPath.UtilsExpandPath | src/common/path.c:277-374 | The whole expansion: an absolute path as it is, a relative one behind the current directory and a slash; nothing if there is no current directory, 4096 characters are reached or the path cannot be resolved; otherwise what the rewriting makes of it. |
| DynamicBuffers.RoundToPowerOf2 | src/common/dynamic-buffer.c:17-28 | The least power of two that is not below the argument, and less than twice it. |
| DynamicBuffers.CountOrder | src/common/utils.c:757-768 | The least order whose power of two is not below the argument. |
| DynamicBuffers.AppendingIsAmortised | src/common/dynamic-buffer.c:37-67 | However n > 0 bytes are split into appends, the reallocations copy fewer than 2n bytes. |
| DynamicBuffers.AppendRun | src/common/dynamic-buffer.c:37-67 | Appending chunk after chunk to a fresh buffer leaves their concatenation and costs fewer than 2n copied bytes. |
| DynamicBuffers.DynamicBuffer.constructor | src/common/dynamic-buffer.c:30-35 | A new buffer is empty, without a block. |
| DynamicBuffers.DynamicBuffer.SetCapacity | src/common/dynamic-buffer.c:143-176 | The contents survive; it fails only if they do not fit or a new block is refused; the block moves only when the capacity changes. |
| DynamicBuffers.DynamicBuffer.Append | src/common/dynamic-buffer.c:37-67 | On success the bytes are appended, on failure, for want of a larger block only, nothing changes; while the capacity is enough the block stays where it is, and otherwise it becomes the next power of two and the old block is copied. |
| DynamicBuffers.DynamicBuffer.SetSize | src/common/dynamic-buffer.c:103-141 | Shrinking keeps a prefix, growing reads as zeros whatever the block held before. |
| DynamicBuffers.DynamicBuffer.Reset | src/common/dynamic-buffer.c:179-190 | The buffer is empty and its block gone, so that pointers into it are no longer good. |
| Flatten.PassesAgree | src/common/event.c:1478-1535 | One element of the first pass, which has counted all extended structures already, pads as the second pass will, so both agree at every element. |
| Flatten.ComputeFlattenedSize | src/common/event.c:1478-1535 | The first pass, its 32-bit products included, returns exactly the size of the layout, or the error of a location that cannot be flattened. |
| FlattenLayout.ImageLength | src/common/event.c:1559-1697 | The buffer is exactly as long as predicted. |
| FlattenLayout.RegionsInOrder | src/common/event.c:1559-1697 | Headers, then for each event its extended structure, filter, exclusions and probe, follow one another without overlap. |
| FlattenLayout.ImageReadsBack | src/common/event.c:1559-1697 | Every pointer points into the buffer, probes are 64-bit aligned, and following the pointers of an event gives its filter, the count of its exclusions and what was laid of them, and its probe; where it has none of them, a null pointer and a count of 0. |
| FlattenLayout.ExclusionsReadBackExactly | src/common/event.c:1648-1665 | Following the pointers of an event gives all its exclusions, ahead of its probe, if and only if there are fewer than 2^24. |
| FlattenLayout.TooManyNames | src/common/event.c:1520-1523 | With 2^24 exclusions of an only event the buffer has 616 bytes, the names 2^32. |
| FlattenLayout.LaidExactly | src/common/event.c:1656-1660 | The 32-bit product covers all names if and only if there are fewer than 2^24; otherwise it falls short by at least 2^32 bytes. |
| FlattenLayout.ExtendedPointer | src/common/event.c:1630 | The pointer stored in each event is that of its extended structure, and no other byte of the event changes. |
| Flatten.LayElement | src/common/event.c:1610-1687 | One round of the second pass: the extended pointer of the event is set, exactly its block is appended, and the buffer does not move. |
| Flatten.FlattenLttngEvents | src/common/event.c:1559-1697 | On success one allocation, no move, exactly the predicted size and layout, every event reads back, and its exclusions in full if and only if there are fewer than 2^24; it fails only on a location that cannot be flattened or on that allocation. |
| Futex.InvIsInductive | src/common/futex.c:61-122 | Every step of the waiter, of a waker or of the kernel keeps the invariant. |
| Futex.NoLostWakeUp | src/common/futex.c:61-122 | At every point of every execution a sleeping waiter has the futex at -1 or a FUTEX_WAKE on its way; if it has work, some waker is not done. |
| Futex.QuiescentSleepIsIdle | src/bin/lttng-relayd/main.c:1301-1344 | Once all wakers are done, a waiter that sleeps has an empty queue and no request to quit. |
| Futex.WaitReturnsOnlyWhenChanged | src/common/futex.c:73-105 | The wait returns only while the value differs from -1, despite interruptions and stray wake-ups. |
| Futex.WaitReturnsOnlyWhenWoken | src/common/futex.c:61-105 | In every execution the wait returns only because, since the waiter last prepared, a waker stored to the futex. |
| Futex.WakerDidLast | src/common/futex.c:110-122 | In every execution a waker reads only after it published, stores only if it read -1, and wakes only after it stored. |
| Futex.FutexIsLastWritten | src/common/futex.c:61-122 | At every point of every execution the futex holds -1 or 0, whichever the last of a prepare and a waker's store wrote, or what it held at the start. |
| Futex.ExitsOnlyOnRequest | src/bin/lttng-relayd/main.c:1301-1344 | In every execution the waiter exits only after somebody asked it to. |
| Futex.ItemsAreConserved | src/bin/lttng-relayd/main.c:1301-1344 | At every point of every execution the items enqueued are those dequeued and those pending. |
| Futex.IdleWaiterSleeps | src/common/futex.c:61-105 | From every initial state a waiter to which nobody publishes comes to sleep in five steps. |
| Futex.WaiterNeverBlocks | src/common/futex.c:73-105 | The waiter always has a step, unless it sleeps in FUTEX_WAIT or has exited. |
| Futex.WakersNeverBlock | src/common/futex.c:110-122 | An unfinished waker always has a step. |
| Futex.WakerRunIsBounded | src/common/futex.c:110-122 | Wakers that only finish do so in at most three steps each. |
| Futex.SleeperIsWoken | src/common/futex.c:61-122 | From every reachable state with work, after any run in which the wakers finish what they have begun, the waiter is awake. |
| Futex.SleeperCanBeWoken | src/common/futex.c:61-122 | Such a run exists from every such state, of at most three steps for each waker. |
| Futex.StuckWakersAreDone | src/common/futex.c:110-122 | Wakers that have no step left are done, so every run of theirs that cannot go on is such a run. |
| RunAs.InvHolds | src/common/runas.c:1099-1343 | Every state of every execution, with failures and crashes, satisfies the protocol's invariant. |
| RunAs.NeverDesynchronised | src/common/runas.c:1099-1343 | Neither side ever reads a message of another kind than the one it waits for. |
| RunAs.CallLeavesNothingBehind | src/common/runas.c:1254-1343 | After a call that did not end in EIO both queues are empty, a live worker has nothing left to send, and the caller has a descriptor exactly if the command opens one and did not fail. |
| RunAs.ResultIsOfTheCommand | src/common/runas.c:1099-1343 | In every execution the result of a call that did not end in EIO is the reply of its own command, which ran exactly once since the call began, with the descriptors of the call in order or with the working directory; or it is success with 0, if the worker could not demote itself. The worker keeps the descriptors, for closing, unless it handed them over to a directory handle. |
| RunAs.RefusedOnlyIf | src/common/runas.c:1254-1280 | In every execution a call is refused only because the last call that was begun had no permission; it sent nothing. |
| RunAs.SentDescriptorIsClosed | src/common/runas.c:805-836 | A descriptor the worker sent is closed by it before it reads the next command. |
| RunAs.QuietWorkerReturns | src/common/runas.c:1099-1205 | The worker then has at most one step to take before it is back at stage 1, and sends nothing in it. |
| RunAs.AwaitedDescriptorComes | src/common/runas.c:838-856 | A master waiting for a descriptor has it queued, or a live worker about to send it. |
| RunAs.SentDescriptorIsAwaited | src/common/runas.c:805-836 | A descriptor is sent only to a master that waits for it or is about to. |
| RunAs.EioOnlyIf | src/common/runas.c:1254-1343 | In every execution a call ends in EIO only if the master refuses to send a negative descriptor, or the worker has, since it was started, been killed or failed to close a descriptor it was given. |
| RunAs.FailedDemotionEndsInEio | src/common/runas.c:1099-1205 | In every execution, once demotion has failed for a command relative to the working directory, its call never returns a result: the caller waits, and when nothing can move any more has got EIO. |
| RunAs.FailedDemotionReportsSuccess | src/common/runas.c:1099-1205 | In every execution, once demotion has failed for any other command, its call, as long as the worker lives, can only end as a success, and with descriptor 0 if it opens one. |
| RunAs.NoDeadlock | src/common/runas.c:1099-1343 | Whenever a call is under way some process can move. |
| RunAs.RankDecreases | src/common/runas.c:1099-1343 | Every step but the start of a call and a restart brings the call closer to its end. |
| RunAs.CallIsBounded | src/common/runas.c:1254-1343 | Between the start of a call and the next at most 19 steps happen. |
| BufferViews.SubView | src/common/buffer-view.c:27-52 | A view on a view is valid if and only if it is not empty and fits, and then shows that slice of its source. |
| BufferViews.BufferView | src/common/buffer-view.c:54-79 | A view on a buffer is valid if and only if it is not empty and fits, and then shows that slice, or the rest, of the buffer. |
| BufferViews.NestedIsOne | src/common/buffer-view.c:27-52 | Any nesting of views that shows something is one view at the sum of the offsets, inside its source. |
| BufferViews.ContainsStringExactly | src/common/buffer-view.c:81-121 | A string is accepted if and only if its only NUL is where the length says, inside the view. |
| BufferViews.TextExactly | src/common/buffer-view.c:81-121 | Mapping a view and checking its string yields a text if and only if that text, terminated, lies there. |
| PayloadViews.PopsInOrder | src/common/payload-view.c:78-129 | However views are nested and whichever is asked, handles come out in the order they were pushed, each once; all views agree on how many are left; none is given exactly when all are out. |
| PayloadViews.DerivedShows | src/common/payload-view.c:32-44 | A view derived from a view is valid if and only if it is not empty and fits, shows that slice, or the rest, of it, and leaves the other views and the position alone. |
| PayloadViews.ViewsStayInside | src/common/payload-view.c:32-44 | No derived view reaches before or past the view on the payload that it comes from. |
| PayloadViews.PopTakesReference | src/common/payload-view.c:103-129 | A popped handle is live, and the caller gets a reference of its own. |
| FdHandles.StepKeepsInv | src/common/fd-handle.c:34-76 | Every operation keeps each handle's count equal to the number of its holders, and each handle live or closed once. |
| FdHandles.StepHolders | src/common/fd-handle.c:34-76 | A create, a get, a push and a pop add one reference, a put takes one away, a clear and a reset those of the payload, each repeated handle as often as it is there. |
| FdHandles.StepOwners | src/common/payload.c:69-107 | Whose reference it is: the caller's, or the payload's, behind those it had; nobody else's change. |
| FdHandles.InvHolds | src/common/payload.c:30-107 | The same in every state of every run of create, get, put, push, pop, clear and reset. |
| FdHandles.ClosedAtLastRelease | src/common/fd-handle.c:19-32 | A step closes a handle's descriptor if and only if it takes the last holder away. |
| FdHandles.BalancedRunClosesAll | src/common/fd-handle.c:19-76 | When nobody holds anything any more, every descriptor that was ever wrapped has been closed exactly once. |
| FdHandles.PutAllCounts | src/common/dynamic-array.c:156-200 | Releasing a list takes exactly its references away, repeated handles included. |
| Payloads.World.ReleaseAll | src/common/dynamic-array.c:156-200 | The destructor loop releases every element once, in order. |
| Payloads.World.HandlePut | src/common/fd-handle.c:68-76 | The caller's reference goes, and with the last one the handle. |
| Payloads.World.HandleCopy | src/common/fd-handle.c:85-99 | A copy is a new handle on a duplicate, held by the caller alone; a failed `dup` changes nothing. |
| Payloads.World.PushFdHandle | src/common/payload.c:87-107 | The payload holds one more reference, or nothing changed. |
| Payloads.World.PayloadClear | src/common/payload.c:80-85 | The payload is empty and its references are released. |
| Payloads.World.PayloadReset | src/common/payload.c:69-78 | The same, and the payload must be initialised again. |
| Payloads.World.CopyOne | src/common/payload.c:41-63 | One round of the copy leaves the duplicate with the destination alone, or, if it could not be pushed, with nobody. |
| Payloads.World.CopyHandles | src/common/payload.c:41-63 | The loop copies handle after handle, in order, and stops at the first that fails. |
| Payloads.World.PayloadCopy | src/common/payload.c:30-67 | The destination gets the bytes and one new handle per source handle, in order, up to the first failure; no reference is left over. |
| Wire.UnpackPack | include/lttng/event-internal.h:23-56 | Reading a packed structure gives the values that were written. |
| Wire.PackedField | include/lttng/event-internal.h:23-56 | Each field of a packed structure lies at the sum of the widths before it, whatever follows the structure. |
| Bytes.LittleEndian | include/lttng/event-internal.h:23-56 | Byte i of a field is the digit of weight 256^i. |
| Wire.PatchField | src/common/event.c:826-845 | A store to one field of a packed structure changes no other field. |
| EventSerialize.Serialize | src/common/event.c:692-890 | Earlier bytes stay, also on failure; on success exactly the encoding is appended, with the header filled in although appends may have moved the buffer; it is refused exactly for an unterminated name or too long a bytecode. |
| EventSerialize.AppendExclusions | src/common/event.c:765-790 | The loop appends each exclusion with its length, and stops at one that is too long. |
| EventSerialize.AppendProbe | src/common/event.c:75-108 | The probe's address, the address again for its offset, and its symbol are appended. |
| EventSerialize.AppendAttr | src/common/event.c:814-886 | The payload of the event's type is appended. |
| EventWire.HeaderOnTheWire | include/lttng/event-internal.h:23-56 | Which bytes of an encoded event hold which value, at literal offsets from 0 to 43. |
| EventWire.BodyOnTheWire | src/common/event.c:692-890 | Name, exclusions, filter, bytecode and attributes follow, in this order, and nothing else. |
| EventWire.CountedOnTheWire | include/lttng/event-internal.h:58-62 | An exclusion and a function's symbol travel behind their length, terminator included, in four bytes. |
| EventWire.ProbeOnTheWire | include/lttng/event-internal.h:64-71 | The bytes of a probe's attributes, the address in the place of the offset too. |
| EventLaws.RoundTrip | src/common/event.c:339-690 | Decoding an encoding, whatever follows it, gives what was encoded (a probe's offset being its address) and consumes exactly its bytes. |
| EventLaws.RoundTripExactly | src/common/event.c:339-690 | For everything the encoder accepts, that happens if and only if the type is known, the narrow fields fit, there are fewer than 2^24 exclusions, the length of the filter fits its field, a bytecode comes with a filter and states its length, a location decodes, and the length of the bytecode is the true one. |
| EventWire.KnownTypesDecode | src/common/event.c:596-662 | For the type numbers -1, 0, 4 and 5 without attributes, 1 and 2 with a probe, 3 with a function and 6 with a location that parses, and fields, name and exclusions in literal ranges, decoding the encoding gives the event back. |
| EventWire.OtherTypesRefused | src/common/event.c:596-662 | Every other type number gives LTTNG_ERR_UND, 12, and no event. |
| EventWire.DecodesExactly | src/common/event.c:339-690 | The decoder returns a bundle if and only if the view starts with a header that announces it and then holds its parts, all within the ranges of the wire; and it says how many bytes that is. |
| EventLaws.TooManyExclusions | src/common/event.c:270-337 | On the encoding of 2^24 exclusions or more the decoder always writes past its array. |
| EventLaws.ExclusionsRead | src/common/event.c:270-337 | Exclusions that lie in the view are all read if the array, as it was allocated, has room for them; otherwise it is overrun. |
| EventLaws.DecodedIsWireOk | src/common/event.c:339-690 | Whatever the bytes, what is accepted lies inside the view, has fewer than 2^24 exclusions, and can be sent on. |
| EventLaws.Resend | src/common/event.c:339-890 | A received bundle, sent again, arrives again; unchanged if and only if it is no probe whose offset differs from its address. |
| EventLaws.ProbeReads | src/common/event.c:143-206 | The probe attributes read back, the offset as the address. |
| EventList.ExclusionsCreateFromPayload | src/common/event.c:270-337 | The loop reads exactly the exclusions that lie there, or refuses, or, by the size it allocated, overruns its array. |
| EventList.EventListCreateFromPayload | src/common/event.c:1699-1761 | The loop adds the elements the payload describes, one event after the other. |
| EventList.ListRoundTrip | src/common/event.c:1699-1761 | The concatenation of encodings decodes to exactly that list, in order, and succeeds if and only if nothing follows. |
| EventList.TooFewEvents | src/common/event.c:1699-1761 | A list that announces more events than the payload holds is refused as invalid. |
| SessionDescriptors.Create | src/common/session-descriptor.c:207-227 | A descriptor without output is created exactly if it satisfies the invariant: a live timer of 0 and too long a name are refused. |
| SessionDescriptors.CreateLocal | src/common/session-descriptor.c:230-256 | A local descriptor is created exactly if it satisfies the invariant: only a path is taken for its output. |
| SessionDescriptors.CreateNetwork | src/common/session-descriptor.c:277-306 | A network descriptor is created exactly if it satisfies the invariant: control and data are both set, with the right stream types, or both absent. |
| SessionDescriptors.CreateNetworkFromUrls | src/common/session-descriptor.c:308-330 | The same from URLs, which must parse to none or two. |
| SessionDescriptors.Serialize | src/common/session-descriptor.c:806-877 | Earlier bytes stay; on success exactly the encoding is appended. |
| SessionDescriptors.ReadUris | src/common/session-descriptor.c:702-722 | The loop reads exactly the URIs that lie there, or fails. |
| SessionDescriptors.DecodedIsValid | src/common/session-descriptor.c:601-804 | Whatever the bytes, a decoded descriptor satisfies the invariant (live is never local and has a timer, network outputs are whole) and its name is not empty. |
| SessionDescriptors.RoundTripExactly | src/common/session-descriptor.c:601-877 | A descriptor decodes from its encoding to an equal one, with the size consumed equal to the size produced, if and only if its name is not empty; otherwise it is refused. |
| SessionDescriptors.OnTheWire | src/common/session-descriptor.c:49-64 | Which bytes of an encoded descriptor hold its type, its output type, the length of its name, the number of its URIs and its timer. |
| SessionDescriptors.BodyOnTheWire | src/common/session-descriptor.c:806-877 | Then follow the terminated name, if there is one, and the URI of a local output, or those for control and for data, in this order. |
| SessionDescriptors.DecodesExactly | src/common/session-descriptor.c:601-804 | The decoder returns a descriptor, and a size, if and only if the view starts with its encoding, of that size, it satisfies the invariant and its name is not empty. |
| Trackers.Serialize | src/common/tracker.c:297-326 | Earlier bytes stay; on success exactly the encoding is appended. |
| Trackers.SerializeValue | src/common/tracker.c:246-295 | One value: its type, its integer or the length of its name, and the name. |
| Trackers.CreateFromBuffer | src/common/tracker.c:328-413 | The loop reads exactly the values that lie there, or fails. |
| Trackers.FromCommExactly | src/common/tracker.c:62-185 | A value in range is rebuilt from its wire fields if and only if the domain supports the attribute, the attribute takes the type, and the length of a name fits its field. |
| Trackers.RoundTripExactly | src/common/tracker.c:246-413 | A list decodes to itself, using the bytes written, if and only if every value is consistent with domain and attribute and the lengths of names fit their field; otherwise it is refused. |
| Trackers.OnTheWire | src/common/tracker.c:21-23 | The number of values in four bytes, then the values in order. |
| Trackers.ValueOnTheWire | src/common/tracker.c:25-33 | A value is its type, 0 to 4, in four bytes, its integer or the length of its name in eight, and its name. |
| Trackers.ReadsExactly | src/common/tracker.c:62-185 | The decoder reads a value, and stops at an index, if and only if type, low half of the integer or terminated name lie there up to that index, and domain and attribute take it. |
| Trackers.DecodesExactly | src/common/tracker.c:328-413 | The decoder returns a list, and the bytes used, if and only if the number of its values and then the values lie in the view up to there and all are taken. |
| Trackers.EqualValues | src/common/tracker.c:463-515 | Values compare equal exactly if they are the same value, so equal values always hash equally. |
| Channels.Serialize | src/common/channel.c:196-255 | Earlier bytes stay; on success exactly the encoding is appended; refused exactly for an unterminated name. |
| Channels.RoundTripExactly | src/common/channel.c:100-194 | A channel whose values fit decodes to an equal one, using the bytes written, if and only if its name has at most 254 characters; otherwise it is refused. |
| Channels.OnTheWire | include/lttng/channel-internal.h:25-46 | Which bytes of an encoded channel hold which value, at literal offsets from 0 to 83, and that the name follows. |
| Channels.DecodesExactly | src/common/channel.c:100-194 | The decoder returns a channel, and a size, if and only if the view starts with its encoding, of that size, its values are in range and its name has at most 254 characters. |
| Channels.ListCreateFromBuffer | src/common/channel.c:296-340 | The loop reads the channels one after the other. |
| Channels.ListRoundTrip | src/common/channel.c:296-340 | The concatenation of encodings decodes to that list, and succeeds if and only if nothing follows. |
| Channels.TooFewChannels | src/common/channel.c:296-340 | A list that announces more channels than the buffer holds is refused as invalid. |
| ErrorQueries.SerializeResult | src/common/error-query.c:307-359 | One result: header, name, description and value are appended. |
| ErrorQueries.Serialize | src/common/error-query.c:564-599 | Earlier bytes stay; on success exactly the encoding is appended. |
| ErrorQueries.ResultsCreateFromPayload | src/common/error-query.c:601-661 | The loop reads exactly the results that lie there, or fails. |
| ErrorQueries.RoundTripExactly | src/common/error-query.c:475-661 | A set of counters decodes to the same list, using exactly the bytes written, whatever follows, if and only if the lengths of all names and descriptions fit their fields; otherwise it is refused. |
| ErrorQueries.ResultOnTheWire | src/common/error-query.c:59-72 | Which bytes of an encoded result hold its type, 0, the lengths of its strings, the strings and its value. |
| ErrorQueries.OnTheWire | src/common/error-query.c:564-599 | The number of results in four bytes, then the results in order. |
| ErrorQueries.DecodesExactly | src/common/error-query.c:475-661 | The decoder returns a list, and the bytes used, if and only if the view starts with its encoding, of that size, and all values and lengths fit. |
| ElfNotes.StrNCmpIs | src/common/lttng-elf.c:1007-1010 | Comparing up to the rounded size compares the owner's whole name. |
| ElfNotes.NoteOnTheWire | src/common/lttng-elf.c:973-1010 | Which bytes of a note hold the size of the owner's name, the size of the description, the type, the name and the description. |
| ElfNotes.NoteIsPadded | src/common/lttng-elf.c:973-1000 | Name and description are padded to the next multiple of 4 bytes. |
| ElfNotes.DescOnTheWire | src/common/lttng-elf.c:1012-1030 | Which bytes of a description hold location, semaphore, provider and probe: the second address is skipped, the arguments are not looked at. |
| ElfNotes.ReadHeader | src/common/lttng-elf.c:973-1010 | The rounded sizes of a well-formed note and whether it is an SDT probe. |
| ElfNotes.ReadDesc | src/common/lttng-elf.c:1012-1030 | Location, semaphore, provider and probe of an SDT description. |
| ElfNotes.MatchingInOrder | src/common/lttng-elf.c:1032-1075 | The notes that match are all those that match, as often as they are there, in the order of the section. |
| ElfNotes.GetSdtProbeOffsets | src/common/lttng-elf.c:915-1086 | For every well-formed note section the walk ends; it succeeds if and only if every note that matches owner, provider and probe has no semaphore and lies in .text, and then returns their offsets in the file, each as far past that of .text as its address is past that of .text, in order; otherwise the first that fails decides the error. A section above 512 MiB is refused, so the size of the result fits an int. |
| SectionName.NameLength | src/common/lttng-elf.c:366-390 | However positive-length reads split the table, the length found is the distance to the first NUL; none if there is no NUL before the end. |
| SectionName.GetSectionName | src/common/lttng-elf.c:347-415 | The name is the bytes up to the first NUL at or after the offset, if there is one and no read fails. |
| IndexAllocators.IndexAllocator.constructor | src/common/index-allocator.c:31-50 | All indexes are free. |
| IndexAllocators.IndexAllocator.Alloc | src/common/index-allocator.c:57-85 | EMPTY exactly when all indexes are live; otherwise an index that is not live, the one released longest ago if there is one. |
| IndexAllocators.IndexAllocator.Release | src/common/index-allocator.c:87-109 | The index is free again, behind those released before it. |
| IndexAllocators.IndexAllocator.GetIndexCount | src/common/index-allocator.c:52-55 | The number of live indexes. |
| IndexAllocators.Partition | src/common/index-allocator.c:57-109 | When live and free indexes partition those handed out, the number of live ones is what was handed out less the length of the free list. |
| SymbolIterators.SymbolIterator.constructor | src/common/filter.c:17-37 | The iterator starts on the boundary before the first entry. |
| SymbolIterators.SymbolIterator.Next | src/common/filter.c:39-55 | It moves to the next entry boundary, and returns -1 exactly when no entry is left. |
| SymbolIterators.SymbolIterator.GetType | src/common/filter.c:57-70 | The number of the entry it is on. |
| SymbolIterators.SymbolIterator.GetName | src/common/filter.c:72-85 | The name of the entry it is on. |
| SymbolIterators.EntryOnTheWire | src/common/sessiond-comm/sessiond-comm.h:507-510 | An entry is its number in two bytes, least significant first, then its name and a NUL. |
| SymbolIterators.EntriesRead | src/common/sessiond-comm/sessiond-comm.h:507-510 | Every list of (number, terminated name) entries is what its encoded table holds. |
| SymbolIterators.TableOf | src/common/sessiond-comm/sessiond-comm.h:507-510 | A table that has entries is the encoding of them. |
| SymbolIterators.VisitAll | src/bin/lttng-sessiond/event.c:411-455 | The loop of a user visits every entry of a non-empty table once, in order, and ends. |

## Left out

- Userspace probe locations, triggers, actions, conditions and the parsing of URIs: their code is not part of this model; a location is a blob with a decoder given as a parameter, and URIs are what parsing gave.
- Event contexts and event fields (src/common/event.c:892-1476): codecs of the same shape as those modelled.
- Flattening of channels and of event fields: one structure per element, without pointers.
- `utils_partial_realpath`: its result is decided by the file system, so it is a parameter.
- ExpandDoubleSlashesDotAndDotDot: stated for absolute paths, the only ones `_utils_expand_path` gives it.
- Futex: sequential consistency; the barriers of weaker memory models are not modelled.
- RunAs: the system calls behind demotion and behind the commands are outcomes of a step, and how a worker is restarted is one step.
- FlattenLttngEvents: stated for at most 2^31 - 1 events, since the source counts them in an `int`, and for a layout of at most half of 2^62 bytes.
- SetCapacity: demanding capacity 0 of a buffer that has a block is not modelled; what `realloc` does then is up to the C library.
- The rest of the dynamic array (removal with shifting, arrays of other elements than pointers): would only add easy members.
- `lttng_session_descriptor_assign` and `lttng_session_descriptor_set_default_output`: the first copies a network output onto itself, the second depends on parsing.
- PayloadCopy: a descriptor duplicated for a handle that then cannot be allocated is not modelled; allocation of the handle succeeds.
- GetSdtProbeOffsets: sections that are not well-formed note lists are not modelled, as the walk reads past their end; neither are 32-bit or foreign-endian files.
- ListCreateFromBuffer: like the list of events, stated for lists of at most 2^31 - 1 bytes.
- Decode: what happens after a write past the array of exclusions is not modelled.
- EventListCreateFromPayload: lists of more than 2^31 - 1 bytes, whose offsets do not fit an `int`, are not modelled.
- I/O, sockets, shared memory, daemonising, XML output, and the command line.
