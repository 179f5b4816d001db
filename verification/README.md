# libbricks in Dafny

libbricks is a runtime library for C++ in the manner of .NET. This project models the parts of it whose
behaviour is hard to see from any one function, and proves what they are for:

- **`TaskQueue.dfy`**: the worker pool. One mutex, one three-valued condition and a first-in first-out queue,
  under every interleaving of workers, pushers, a stopper and `Start`.
- **`ConditionLock.dfy`**: the lock that is taken on a condition value, in its plain, timed and trying forms, with
  spurious wake-ups and expiring waits.
- **`ListGuard.dfy`**: lists that change while nested iterators walk them, the reference counts of their items, and
  the events built on them. The main theorem compares any program of nested loops and changes with the same
  program looping over private copies.
- **`Serializer.dfy`** (on `Streams.dfy` and `Endian.dfy`): the tagged binary printer and parser.
- **`Utf8String.dfy`**: variable-width characters in a zero-terminated buffer.
- **`CacheStream.dfy`**: the read and write buffer in front of a stream, against that stream.
- **`Crc32.dfy`**: the table-driven CRC of section 8 of RFC 1952, down to polynomial division and up to a sharp
  error-detection theorem.
- **`PacketQueue.dfy`**: the packet demultiplexer of the media decoder.
- **`MidiReader.dfy`**: the reader for Standard MIDI Files 1.0 (RP-001).
- **`Bitmap.dfy`**: pixel access and the two ways of copying a rectangle.
- **`ZipFile.dfy`**: random access on top of a reader that only goes forward.
- **`Basics.dfy`**: definitions that several of these share.

Objects that change their fields are classes with the same fields, and each method states its whole new state.
Concurrent code is a system of steps. Foreign code appears as what it hands over: the packets or bytes still to
be read, a reader that may fail, atomic operations of a mutex. Strings of bytes are sequences of integers below
256; widths, wrap-around and truncation are written out where the code has them.

Where the code does less than its documentation or its callers might expect, the model follows the code and a
lemma or contract says exactly when the expectation holds:

- A string survives serialization exactly if it is ASCII: the reader takes a number of bytes for a number of
  characters (`Serialization.StringReadbackExact`).
- `Stop` waits for queued tasks if nobody has stopped or pushed at the wrong moment; a push between the two
  unlocked steps of `Start` is overwritten (`TaskQueues.StopWaitsForTasks`, `TaskQueues.StartOverwritesReady`).
- A guarded iterator that has moved yields the list as it was before a change; one that has not moved loses
  all of a non-empty list (`ListGuards.IterateAcrossChange`).
- Setting an item of an `AutoArray` in its own place destroys it exactly if nobody else holds it
  (`AutoArrays.SetOwnItem`, `AutoArrays.SurvivesIff`).
- A cached read that starts inside the window elsewhere than at its next byte delivers the window's bytes
  first (`CacheStreams.CacheStream.Read`, `CacheStreams.ExpectedRightIff`).
- A cache that was wrapped around a stream not at its start, and has been in step so far, fills itself from the
  wrong place exactly if nothing has been read, no more has been written than fits the cache and nothing after a
  flush, and the position is the number of bytes written (`CacheStreams.WrappedSession`,
  `CacheStreams.FirstRefill`).
- A tagged number written on a machine of one byte order is worth the same on one of the other exactly if its
  bytes read alike from both ends (`Endian.WorthSameIff`).
- The length of a string that has been cut is right exactly if it had not been asked for before, or nothing was
  cut off (`Utf8Strings.LengthAcrossTruncate`).
- Copying a bitmap onto itself copies what was there before exactly if the rectangle goes beside or below itself
  (`Bitmaps.OntoAgreesIff`).
- The copy by rows takes the row it copies to for the first row to copy (`Bitmaps.RowsAgreeIff`).
- A recursive write makes no progress in its first step exactly if the cache was full
  (`CacheStreams.CacheStream.WriteCached`).
- Packets of closed streams are dropped by reads but not by a look at the time
  (`PacketQueues.ReadKeepsAccount`, `PacketQueues.PeekKeepsAccount`).
- Replacing a character leaves a terminated string exactly if the index is not past the end
  (`Utf8Strings.Utf8String.SetCharacter`).

## Model

| member | source | states |
|---|---|---|
| `TaskQueues.TaskQueue.PushTask` | source/threading/taskqueue.cpp:54-59 | a push appends to the queue and makes the condition Ready |
| `TaskQueues.TaskQueue.Stop` | source/threading/taskqueue.cpp:84-90 | sets Cancel; reports whether it was not set before, which decides whether the caller waits |
| `TaskQueues.TaskQueue.Pass` | source/threading/taskqueue.cpp:35-50 | one locked section of a worker: sleep while Waiting; pop the oldest task, after which the condition is Ready if more are queued and else Cancel; leave on Cancel with an empty queue, else go round again |
| `TaskQueues.ThreadCount` | source/threading/taskqueue.cpp:74-78 | the number requested, else that of the hardware, else two; at least one thread without a negative request |
| `TaskQueues.NextKeepsInv` | source/threading/taskqueue.cpp:31-59 | every enabled step of every worker, pusher, stopper or starter keeps: the queue is what was pushed and not popped, in order; Ready is never stale once the condition is decided; each popped task is held by exactly one worker or has run once |
| `TaskQueues.RunsKeepInv` | source/threading/taskqueue.cpp:31-101 | the same over every interleaving |
| `TaskQueues.PassOutcomes` | source/threading/taskqueue.cpp:35-50 | after Start no worker sleeps or spins, and one leaves only on seeing the queue empty |
| `TaskQueues.OutsidersNeverRefused` | source/threading/taskqueue.cpp:54-90 | pushing and stopping are possible at any time, with their effects on queue and condition |
| `TaskQueues.StartOverwritesReady` | source/threading/taskqueue.cpp:72 | a push between the two steps of Start is overwritten by Cancel, and Stop does not wait for its task |
| `TaskQueues.StopWaitsForTasks` | source/threading/taskqueue.cpp:84-101 | in a run without Stop, and without a push between the two unlocked steps of Start, the condition is Ready exactly while tasks are queued, so that Stop then waits exactly if there are some |
| `TaskQueues.EveryTaskRunOnce` | source/threading/taskqueue.cpp:35-59 | when the last worker has gone, the tasks run are exactly those pushed before its last pass, each once |
| `TaskQueues.AllExitedIsFinal` | source/threading/taskqueue.cpp:48-49 | after the last exit nothing more is ever popped or run |
| `TaskQueues.LatePushNeverRuns` | source/threading/taskqueue.cpp:54-59 | a task pushed after the last exit never runs |
| `TaskQueues.PassesUseUpMeasure` | source/threading/taskqueue.cpp:35-50 | queue length plus live workers falls by one with each locked pass, rises by one with each push, and is otherwise unchanged |
| `TaskQueues.PassBound` | source/threading/taskqueue.cpp:35-50 | in any run there are at most as many worker passes as pushes plus workers |
| `TaskQueues.StuckIffAllExited` | source/threading/taskqueue.cpp:35-50 | the pool can make a step of its own exactly as long as some worker has not left |
| `TaskQueues.QuietRunsFinish` | source/threading/taskqueue.cpp:31-51 | without pushes every run is bounded, and one that cannot go on has seen every worker leave |
| `ConditionLocks.NextKeepsInv` | include/bricks/threading/condition.h:25-51 | every step of every thread keeps mutual exclusion, the truth of a holder's condition, pending wake-ups and exact results |
| `ConditionLocks.AtMostOneHolder` | include/bricks/threading/condition.h:25-29 | in every run at most one thread holds the lock, and it got it with the condition equal to its target |
| `ConditionLocks.NoWakeupLost` | source/threading/conditionlock.cpp:47-63 | whenever the mutex is free no sleeping thread waits for the current value |
| `ConditionLocks.ResultsAreExact` | include/bricks/threading/condition.h:31-51 | the timed and trying forms return true exactly when they own the mutex with the predicate true |
| `ConditionLocks.FalseForReason` | include/bricks/threading/condition.h:25-51 | a plain call never returns without the lock; a timed one returns false only for a missed mutex or an expired wait, a trying one only for a missed mutex or a failed test |
| `ConditionLocks.TryingNeverWaits` | include/bricks/threading/condition.h:44-51 | a trying call is never found waiting |
| `ConditionLocks.CallEnds` | include/bricks/threading/condition.h:25-51 | whatever anybody does next, a thread stays in its call until that returns with the lock and its value, or, if it is not plain, without the lock, and the return is what it is |
| `ConditionLocks.StepsOfCall` | include/bricks/threading/condition.h:25-51 | the steps that a thread can take from each place of a call: a mutex is obtained only when free, and missed only by timed calls and by trying calls that find it taken |
| `ConditionLocks.PlainCallWaits` | include/bricks/threading/condition.h:25-29 | a plain call on a free lock has the lock after three steps if the value is its own, and waits with the mutex released if not |
| `ConditionLocks.UnlockWakesAll` | source/threading/conditionlock.cpp:47-63 | unlocking with a value sets it, wakes every sleeper and frees the mutex |
| `ConditionLocks.ReadyThreadCanProceed` | include/bricks/threading/condition.h:25-40 | with the mutex free, a thread wanting the current value gets the lock in its own next two steps |
| `Searching.SelectCounts` | include/bricks/collections/autoarray.h:26 | a selection keeps every occurrence of what is kept and nothing else |
| `AutoArrays.References.Release` | source/core/object.cpp:26-37 | a live object loses one reference |
| `AutoArrays.AutoArray.IndexOfItem` | include/bricks/collections/array.h:61-67 | the first element that the comparison calls equal, or -1 |
| `AutoArrays.AutoArray.AddItem` | include/bricks/collections/autoarray.h:24 | appends, and the counts gain what the array gains |
| `AutoArrays.AutoArray.InsertItem` | include/bricks/collections/autoarray.h:32 | inserts, and the counts gain what the array gains |
| `AutoArrays.AutoArray.RemoveItemAt` | include/bricks/collections/autoarray.h:33 | removes one position, and the counts lose what the array loses |
| `AutoArrays.AutoArray.RemoveItem` | include/bricks/collections/autoarray.h:25 | removes the first match only, and reports whether there was one |
| `AutoArrays.AutoArray.RemoveItems` | include/bricks/collections/autoarray.h:26 | terminates with every match gone and the others in order; the value to compare with stays alive meanwhile |
| `AutoArrays.AutoArray.Clear` | include/bricks/collections/autoarray.h:28 | releases each occurrence once |
| `AutoArrays.AutoArray.SetItem` | include/bricks/collections/autoarray.h:30 | replaces one position, and the counts follow, provided that the new item survives the release of the old one |
| `AutoArrays.SurvivesIff` | include/bricks/collections/autoarray.h:30 | in an owning array a live item can be set exactly unless it is the one in that place and the only reference to it is that of the place |
| `AutoArrays.AutoArray.Displace` | include/bricks/collections/autoarray.h:30 | before it retains the new item, setting has released the old one; the new one is then alive exactly if it survives that |
| `AutoArrays.SetOwnItem` | include/bricks/collections/autoarray.h:30 | setting an item in its own place changes nothing if somebody else holds it, and otherwise leaves a dead object in the array |
| `ListGuards.GuardIterator.constructor` | include/bricks/collections/listguard.h:63-69 | promises the list as it is now |
| `ListGuards.GuardIterator.GetCurrent` | include/bricks/collections/listguard.h:89-92 | the last item of the promise that has been reached, from list or snapshot alike |
| `ListGuards.GuardIterator.ListChanged` | include/bricks/collections/listguard.h:71-84 | retains the current item and the rest; the promise stays if the iterator has moved and becomes empty if not |
| `ListGuards.IterateAcrossChange` | include/bricks/collections/listguard.h:76-83 | an iterator that is at its first item when the list changes yields the whole list as it was, and one that has not moved yields nothing |
| `ListGuards.Drain` | include/bricks/collections/listguard.h:94-102 | moving on to the end yields the rest of the promise |
| `ListGuards.GuardIterator.MoveNext` | include/bricks/collections/listguard.h:94-102 | advances through the promise and unregisters at its end, keeping every reference accounted for |
| `ListGuards.GuardIterator.Destroy` | include/bricks/collections/listguard.h:128-132 | unregisters and gives back exactly the references of the snapshot |
| `ListGuards.ListGuard.IteratorUnregister` | include/bricks/collections/listguard.h:161 | removes that iterator and no other |
| `ListGuards.ListGuard.GetIterator` | include/bricks/collections/listguard.h:195-196 | a registered iterator over the current list, before its first item and without a snapshot |
| `ListGuards.ListGuard.GuardIterators` | include/bricks/collections/listguard.h:146-150 | afterwards no iterator depends on the list, and to those that had moved nothing has changed |
| `ListGuards.ListGuard.AddItem` | include/bricks/collections/listguard.h:178 | appends; moved iterators keep their promises; each count is outside references plus occurrences in the list and in live snapshots |
| `ListGuards.ListGuard.InsertItem` | include/bricks/collections/listguard.h:191 | the same for insertion |
| `ListGuards.ListGuard.SetItem` | include/bricks/collections/listguard.h:185 | the same for replacement; a snapshot about to be taken also keeps the new item alive |
| `ListGuards.ListGuard.RemoveItem` | include/bricks/collections/listguard.h:180 | the same for removal of the first match |
| `ListGuards.ListGuard.RemoveItems` | include/bricks/collections/listguard.h:181 | the same for removal of all matches |
| `ListGuards.ListGuard.RemoveItemAt` | include/bricks/collections/listguard.h:192 | the same for removal by index |
| `ListGuards.ListGuard.Clear` | include/bricks/collections/listguard.h:182 | the same for clearing |
| `ListGuards.ListGuard.Destroy` | include/bricks/collections/listguard.h:152-169 | moved iterators outlive the list with their promises |
| `ListGuards.YieldedAlive` | include/bricks/collections/listguard.h:71-84 | whatever an iterator can still yield is alive, in the list or not |
| `ListGuards.SnapshotHolds` | include/bricks/collections/listguard.h:75-80 | a snapshot holds a reference to every item that its iterator can still yield |
| `ListPrograms.Run` | include/bricks/collections/listguard.h:146-192 | any program of nested loops and changes has the list, the owners and the sequence of yielded items that it has when every loop goes over a private copy, and disturbs no iterator from outside |
| `ListPrograms.RunLoop` | include/bricks/collections/listguard.h:94-132 | each loop yields exactly the list as it was when the loop began, or a prefix of it if broken off |
| `ListPrograms.AllowedMeans` | include/bricks/collections/array.h:83-108 | what each change asks of its caller: an object that is alive and an index that exists, and another holder of an item set in its own place |
| `ListPrograms.CarefulPermitted` | include/bricks/collections/listguard.h:94-132 | a program that only names objects with another holder may append, remove and clear in loops of any depth |
| `ListPrograms.CarefulRoundsPermitted` | include/bricks/collections/listguard.h:94-132 | the body of a loop may also name the item that the loop yields, though the list may hold it no more |
| `ListPrograms.StraightLoopTrace` | include/bricks/collections/listguard.h:94-132 | a loop over changes alone yields its copy item by item |
| `ListPrograms.Perform` | include/bricks/collections/listguard.h:178-192 | each change has its meaning on the plain list and leaves every moved iterator alone |
| `Events.Event.Call` | include/bricks/core/event_internal.h:51 | calls exactly the delegates registered when the call began, in order, whatever they add or remove |
| `Events.Event.AddDelegate` | include/bricks/core/event_internal.h:31-32 | appends, without effect on calls in progress |
| `Events.Event.RemoveDelegate` | include/bricks/core/event_internal.h:34-35 | removes every equal delegate, without effect on calls in progress |
| `Events.Event.RemoveObject` | include/bricks/core/event_internal.h:37-47 | terminates with exactly the delegates not bound to the object, in order, without effect on calls in progress |
| `Events.FirstBound` | include/bricks/core/event_internal.h:14-17 | the first delegate bound to an object is also the first that equals it, so removal by equality hits the right one |
| `Serialization.Serialize` | source/io/serializer.cpp:148-154 | writes the printed form of any object at the position, and nothing else changes |
| `Serialization.SerializeItems` | source/io/serializer.cpp:38-43 | items are printed one after another |
| `Serialization.SerializeEntries` | source/io/serializer.cpp:14-21 | entries are printed key before value, in key order |
| `Serialization.Deserialize` | source/io/serializer.cpp:156-164 | agrees with the parsing function on every input, failures and what is left included |
| `Serialization.DeserializeArray` | source/io/serializer.cpp:45-52 | reads as many items as the signed count says |
| `Serialization.DeserializeDictionary` | source/io/serializer.cpp:23-32 | reads pairs into an ordered map; a key that is no string fails |
| `Serialization.ParseEncoded` | source/io/serializer.cpp:11-124 | parsing a printed object followed by anything gives its readback and leaves what followed |
| `Serialization.StringReadbackExact` | source/io/serializer.cpp:65-69 | a string comes back exactly if its bytes are 1 to 0x7F; otherwise it is shorter or reading it overruns the buffer |
| `Serialization.TwoBytesOverrun` | source/io/serializer.cpp:67-68 | a single two-byte character cannot be read back |
| `Serialization.PutLast` | source/io/serializer.cpp:28-29 | adding entries in key order appends them |
| `Serialization.ReadbackExact` | source/io/serializer.cpp:11-124 | the readback equals the object exactly if all strings and keys are ASCII |
| `Serialization.RoundTrip` | source/io/serializer.cpp:148-164 | parsing the printed form followed by any suffix returns the object and that suffix, if and only if all strings are ASCII |
| `Serialization.PrefixFree` | source/io/serializer.cpp:148-154 | the printed form is injective and no printed form is a prefix of another |
| `Serialization.PrintedForms` | source/io/serializer.cpp:11-124 | the bytes that objects of each kind are printed as: tag, big-endian size, contents |
| `Serialization.ValueSizes` | source/core/value.cpp:6-26 | the sizes of tagged values by kind |
| `Serialization.LessMeans` | source/core/string.cpp:309-313 | keys are compared by their first difference up to the first zero byte, a beginning coming before the whole |
| `Serialization.PutFinds` | source/io/serializer.cpp:28-29 | adding a key sets its value and no other, and a key that was there stays as it was spelt |
| `Serialization.NegativeSizes` | source/io/serializer.cpp:45-63 | a size from 0x80000000 on is negative: no items are read, or there is no memory for the data |
| `Serialization.Meant` | source/io/serializer.cpp:11-124 | which objects the results are about: every kind, sizes below 2^31, tagged values of the size of their kind, keys in strict order |
| `Serialization.Through` | source/io/serializer.cpp:166-174 | writing through a stream on one machine and reading on another, of either byte order, gives back the bytes of every part; what the bytes of a tagged number are worth there is another matter |
| `Endian.BigEndianEverywhere` | include/bricks/io/endian.h:67-74 | either kind of machine writes big-endian bytes and reads them back |
| `Endian.LittleEndianEverywhere` | include/bricks/io/endian.h:75-80 | either kind of machine reads little-endian bytes alike |
| `Endian.FourDigits` | include/bricks/io/endian.h:67-94 | the four digits of an integer to base 256 are its bytes, in either order, on either machine |
| `Endian.WorthSameIff` | source/io/serializer.cpp:75-85 | the bytes of a tagged number, which are the memory of the machine that writes it, are worth the same on machines of either byte order if and only if they read alike from both ends |
| `Streams.OverwriteTwice` | source/io/memorystream.cpp:68-75 | two writes in a row are one write of both |
| `Streams.OverwriteBytes` | source/io/memorystream.cpp:68-75 | a write makes the data as long as needed, puts its bytes where they go and leaves all others |
| `Streams.MemoryStream.Write` | source/io/memorystream.cpp:68-75 | the bytes written are at the position, all others stay, and the data grows as needed; from behind the end, with a gap of unknown bytes before |
| `Streams.MemoryStream.ReadInt32` | source/io/streamreader.cpp:13-20 | four bytes as a big-endian integer, or an end of stream |
| `Streams.MemoryStream.WriteInt32` | source/io/streamwriter.cpp:12-19 | the four big-endian bytes |
| `Utf8Strings.DecodeEncode` | source/core/string.cpp:10-95 | decoding the encoding returns the value if and only if it is below 2^21 |
| `Utf8Strings.OneByte` | source/core/string.cpp:24-95 | single bytes, and the two bytes that zero is written with |
| `Utf8Strings.TwoBytes` | source/core/string.cpp:24-95 | two-byte characters digit by digit: what is decoded, whatever the masked bits are, what is encoded, and the standard's form |
| `Utf8Strings.ThreeBytes` | source/core/string.cpp:24-95 | the same for three bytes |
| `Utf8Strings.FourBytes` | source/core/string.cpp:24-95 | the same for four bytes |
| `Utf8Strings.DecodeStandard` | source/core/string.cpp:73-95 | the form of section 3 of RFC 3629 of every code point below 2^21 is decoded to it |
| `Utf8Strings.MasksAreRanges` | source/core/string.cpp:58-71 | the masks that choose a width are ranges of the first byte |
| `Utf8Strings.CharactersOfFlat` | source/core/string.cpp:97-121 | reading characters to the terminator undoes writing them one after another, whatever lies behind |
| `Utf8Strings.CharactersAreCharacters` | source/core/string.cpp:97-121 | the characters read make up the bytes before the terminator |
| `Utf8Strings.OffsetPrefix` | source/core/string.cpp:123-147 | the bytes before an offset are the encodings of that many characters |
| `Utf8Strings.AtOffset` | source/core/string.cpp:123-147 | at an offset stands the character of that index, or the terminator |
| `Utf8Strings.GetStringLength` | source/core/string.cpp:97-121 | the two-speed loop counts the characters |
| `Utf8Strings.GetStringOffset` | source/core/string.cpp:123-147 | the two-speed loop finds the offset of an index; negative indices act as zero, large ones stop at the terminator |
| `Utf8Strings.Utf8String.GetLength` | source/core/string.cpp:275-278 | the length from before if there is one, else the number of characters, which it keeps |
| `Utf8Strings.LengthAcrossTruncate` | source/core/string.cpp:275-320 | a length once asked for stays after the string is cut; otherwise the length after cutting is right |
| `Utf8Strings.Utf8String.GetCharacter` | source/core/string.cpp:247-251 | the code point at an index, indices cut to signed 32 bits; zero past the end |
| `Utf8Strings.CharacterOfStandard` | source/core/string.cpp:247-251 | in a string in the standard's form every index has its code point |
| `Utf8Strings.Utf8String.SetCharacter` | source/core/string.cpp:253-268 | the encoding of the updated sequence with its terminator, for narrower, equal and wider characters; the code points are the updated ones if and only if the new one is below 2^21; the result is a terminated string if and only if the index is not past the end |
| `Utf8Strings.CodesUpdated` | source/core/string.cpp:258-267 | in terms of code points, replacing a character by an encoding replaces one code point, if and only if that is below 2^21 |
| `Utf8Strings.UnterminatedWith` | source/core/string.cpp:258-267 | an encoding in place of the terminator leaves no string |
| `Utf8Strings.Utf8String.Replace` | source/core/string.cpp:258-267 | one span of bytes replaced by another of any length, in place or in a new buffer |
| `Utf8Strings.Utf8String.Truncate` | source/core/string.cpp:315-320 | the first so many characters |
| `Utf8Strings.Utf8String.FirstIndexOf` | source/core/string.cpp:333-344 | the index, counted from the offset given, of the first match; npos if none |
| `Utf8Strings.Utf8String.LastIndexOf` | source/core/string.cpp:346-358 | the index that the definition of the last match gives |
| `Utf8Strings.LastIndexMeans` | source/core/string.cpp:346-358 | that index is the last match, or npos if none |
| `CacheStreams.CacheStream.constructor` | source/io/cachestream.cpp:6-13 | the view is the stream; refills are right from every position, except from 0 if the stream stood elsewhere |
| `CacheStreams.CacheStream.FlushCache` | source/io/cachestream.cpp:32-44 | the stream becomes what the view was |
| `CacheStreams.CacheStream.FillCache` | source/io/cachestream.cpp:20-30 | the window is filled from the position, or, if the position is where the cache takes the stream to be, from where the stream is; it is empty exactly at the end of the data |
| `CacheStreams.FirstRefill` | source/io/cachestream.cpp:6-102 | after a wrap at s, a write of k bytes and a seek to p, the first refill comes from p, unless s is not 0, k fits the cache and p is k; then it comes from s + k |
| `CacheStreams.DriftMeans` | source/io/cachestream.cpp:25-27 | how far the stream is ahead of where the cache takes it to be, and what has been written, decide exactly which position is refilled wrongly |
| `CacheStreams.CacheStream.Read` | source/io/cachestream.cpp:60-81 | terminates with all bytes asked for if they exist, across short reads: first what the window serves from its next byte, then the bytes at the position; so the bytes are those at the position if the window stands there |
| `CacheStreams.ExpectedRightIff` | source/io/cachestream.cpp:67-80 | a read delivers the bytes at the position if and only if those served by the window are the same as those at the position |
| `CacheStreams.CacheStream.ReadCached` | source/io/cachestream.cpp:64-79 | one level of the recursion, whose measure is the size left and whether the window serves |
| `CacheStreams.CacheStream.Write` | source/io/cachestream.cpp:83-102 | in the view, the bytes are at the write point, wherever the position is, all others stay, and it grows as needed |
| `CacheStreams.CacheStream.WriteCached` | source/io/cachestream.cpp:85-100 | the size left shrinks unless the cache was already full, exactly then not |
| `CacheStreams.CacheStream.SetPosition` | include/bricks/io/cachestream.h:34 | moves the position and leaves view and write point |
| `CacheStreams.CacheStream.Flush` | source/io/cachestream.cpp:54-58 | afterwards the stream is the view |
| `CacheStreams.PlainRunDetermined` | source/io/memorystream.cpp:60-75 | on the plain stream, what is read and what is left follow from contents and position at the start |
| `CacheStreams.PlainReads` | source/io/memorystream.cpp:60-66 | reading from the plain stream gives the bytes at its position |
| `CacheStreams.PlainWrites` | source/io/memorystream.cpp:68-75 | writing to it replaces the bytes at its position or extends it, and keeps all others |
| `CacheStreams.Perform` | source/io/cachestream.cpp:60-102 | an operation in step with the stream has the output, position and contents of the plain stream, and its effect on the drift is that of its kind and size |
| `CacheStreams.Session` | source/io/cachestream.cpp:20-102 | any run of operations, for as long as they are in step, cannot be told from the plain stream; the drift afterwards is known from the operations alone |
| `CacheStreams.SyncedSession` | source/io/cachestream.cpp:20-102 | from a wrap at 0 the cache stays in step, and a session ends at a read only for bytes that do not exist or a seek into the window |
| `CacheStreams.WrappedSession` | source/io/cachestream.cpp:6-102 | the same from a wrap at any position, with the exact condition for the next refill to be right: the stream was at its start, or something has been read, written beyond the cache, or written after a flush, or the position is not the number of bytes written |
| `Crc32.CRC32.constructor` | source/cryptography/crc32.cpp:4-12 | the table holds eight bit steps of each byte |
| `Crc32.CRC32.Process` | source/cryptography/crc32.cpp:20-26 | table-driven processing is bit-at-a-time division by the reflected polynomial, from every register |
| `Crc32.CRC32.ComputeHash` | source/cryptography/hash.cpp:7-12 | the CRC of section 8 of RFC 1952: the complement of the remainder of the message times x^32 with its leading 32 coefficients complemented |
| `Crc32.DivideByte` | source/cryptography/crc32.cpp:24 | one lookup is eight divisions, for every register and byte |
| `Crc32.DivideByteIsSteps` | source/cryptography/crc32.cpp:8-9 | absorbing a byte is eight bit steps of the register with the byte xored in |
| `Crc32.DivideIsRemainder` | source/cryptography/crc32.cpp:20-26 | the register holds the remainder of schoolbook division by the generator polynomial over GF(2) |
| `Crc32.CrcIsRemainder` | source/cryptography/crc32.cpp:14-33 | the same of the reference definition, bit by bit |
| `Crc32.MessageBitsAt` | source/cryptography/crc32.cpp:24 | the bits of the message are those of its bytes in order, the lowest first |
| `Crc32.CheckValues` | source/cryptography/crc32.cpp:4-33 | the hashes of the empty message and of the letter a |
| `Crc32.ProcessConcat` | source/cryptography/crc32.cpp:20-26 | a concatenation is processed part by part |
| `Crc32.DivideInjective` | source/cryptography/crc32.cpp:24 | equal bytes never bring different registers together |
| `Crc32.WindowSteps` | source/cryptography/crc32.cpp:23-24 | up to four bytes act as that many times eight bit steps on the register xored with them |
| `Crc32.WindowErrorDetected` | source/cryptography/crc32.cpp:20-33 | messages that differ only inside a window of four bytes have different CRCs |
| `Crc32.FiveBytesCollide` | source/cryptography/crc32.cpp:20-33 | a window of five bytes is not enough, anywhere in any message |
| `PacketQueues.FFmpegDecoder.ReadPacket` | source/audio/ffmpegdecoder.cpp:138-154 | the queue first, then the library, queueing what belongs to other open streams; the new state in full |
| `PacketQueues.FFmpegDecoder.DequeuePacket` | source/audio/ffmpegdecoder.cpp:167-178 | takes the first packet asked for, from exactly its slot |
| `PacketQueues.FFmpegDecoder.GetFrameTime` | source/audio/ffmpegdecoder.cpp:196-211 | the known time, else that of the next packet to come, else the duration; a packet read for it is queued |
| `PacketQueues.FFmpegDecoder.OpenStream` | source/audio/ffmpegdecoder.cpp:100-120 | streams that do not exist or whose codec does not open are refused |
| `PacketQueues.FFmpegDecoder.CloseStream` | source/audio/ffmpegdecoder.cpp:122-131 | one opening of the stream is undone; a stream that is not open, or a negative index, changes nothing |
| `PacketQueues.ReadStep` | source/audio/ffmpegdecoder.cpp:143-153 | reading on by one packet sets the time and delivers the packet, or queues it if its stream is open, or drops it |
| `PacketQueues.ReadKeepsAccount` | source/audio/ffmpegdecoder.cpp:138-154 | delivered, queued and unread packets of a stream make the same sequence before and after a read, if and only if it is open or has no packet read past |
| `PacketQueues.PeekKeepsAccount` | source/audio/ffmpegdecoder.cpp:196-211 | asking for the time never loses a packet, of open or closed streams |
| `PacketQueues.RunKeepsAccount` | source/audio/ffmpegdecoder.cpp:100-215 | the same over any run during which the stream is open |
| `PacketQueues.DeliveredInOrder` | source/audio/ffmpegdecoder.cpp:138-211 | nothing is lost, duplicated or reordered, and when a read fails all packets of the stream have been delivered |
| `PacketQueues.ClosedStreamsLose` | source/audio/ffmpegdecoder.cpp:147-150 | a closed stream can lose a packet to a read of another, and a peek before it saves that packet |
| `MidiReaders.NumberReadBack` | source/audio/midireader.cpp:12-22 | every 32-bit integer written as a variable-length quantity comes back, with what follows |
| `MidiReaders.NumberDigits` | source/audio/midireader.cpp:12-22 | numbers of one to four bytes, digit by digit to base 128 |
| `MidiReaders.NumberSize` | source/audio/midireader.cpp:12-22 | quantities below 2^28 take one to four bytes |
| `MidiReaders.FileStream.ReadInteger` | source/audio/midireader.cpp:12-22 | the loop computes the quantity with 32-bit wrap-around |
| `MidiReaders.EventReadBack` | source/audio/midireader.cpp:148-184 | every event comes back, its status byte written or omitted under running status |
| `MidiReaders.OneParameterEvent` | source/audio/midireader.cpp:163-181 | status bytes 0xC0 to 0xDF take one data byte, with the status byte or under running status |
| `MidiReaders.TwoParameterEvent` | source/audio/midireader.cpp:163-181 | status bytes 0x80 to 0xBF and 0xE0 to 0xEF take two |
| `MidiReaders.MetaEvent` | source/audio/midireader.cpp:157-162 | a meta event takes its kind, its length and as many bytes, and leaves the running status |
| `MidiReaders.RefusedEvents` | source/audio/midireader.cpp:148-166 | system exclusive events are not implemented, and events cut short fail |
| `MidiReaders.WellFormedEvents` | source/audio/midireader.cpp:148-184 | which events the results are about: every channel event of a status byte 0x80 to 0xEF, and every meta event of a length below 2^32 |
| `MidiReaders.StatusBytes` | source/audio/midireader.cpp:164-176 | the status byte is the kind and the channel, and may be left out exactly when it repeats the one before |
| `MidiReaders.MidiReader.ReadEvent` | source/audio/midireader.cpp:148-184 | agrees with the parsing function on every input, all failures included |
| `MidiReaders.MidiReader.ReadEvents` | source/audio/midireader.cpp:61-64 | the loop over a track returns exactly the events written and stops at the end of the track |
| `MidiReaders.MidiReader.ReadTrack` | source/audio/midireader.cpp:66-76 | finds the track at the position or fails as the header is wrong or cut short |
| `MidiReaders.MidiReader.NextTrack` | source/audio/midireader.cpp:78-90 | the next track, or the failure that a reader from the first track on meets, wherever in the track it is called and even after a failure; at the end of the file an empty track; the 16-bit index wraps, and then the reader goes on from where it is |
| `MidiReaders.MidiReader.SeekTrack` | source/audio/midireader.cpp:92-104 | from any state that steps, seeks, events and failures lead to, the state of a new reader after that many steps, or the failure that it meets; from a reader whose 16-bit index has wrapped, the same for seeks that start over |
| `MidiReaders.NextPlace` | source/audio/midireader.cpp:66-90 | behind the last track found lies the next, or the failure already met |
| `MidiReaders.TrackHeaderBytes` | source/audio/midireader.cpp:66-74 | a track header is the four letters MTrk and a big-endian size, the first one behind fourteen bytes |
| `MidiReaders.TracksFound` | source/audio/midireader.cpp:66-90 | in a written file each track is found with its events from there on |
| `MidiReaders.Open` | source/audio/midireader.cpp:32-49 | succeeds exactly on a valid header followed by a track, has the kind, count and division of the header, and stands at the first event |
| `MidiReaders.DivisionBack` | source/audio/midireader.cpp:24-30 | each division field belongs to one division and back |
| `MidiReaders.ReadFile` | source/audio/midireader.cpp:56-90 | reading track by track returns all events of all tracks |
| `Bitmaps.Bitmap.GetPixel` | source/imaging/bitmap.cpp:34-105 | the colour at a position, opaque without an alpha channel; nothing outside |
| `Bitmaps.Bitmap.SetPixel` | source/imaging/bitmap.cpp:107-180 | that pixel becomes the colour and no other pixel changes, on machines of either byte order |
| `Bitmaps.SameBytes` | source/imaging/bitmap.cpp:34-105 | bitmaps that show the same colours hold the same bytes |
| `Bitmaps.CopyPixels` | source/imaging/image.cpp:9-20 | the clipped rectangle is copied and nothing else changes |
| `Bitmaps.CopyRows` | source/imaging/bitmap.cpp:198-206 | rows from the one copied to up to the height are copied and nothing else changes; within one bitmap rows already copied to are copied on |
| `Bitmaps.CopyTo` | source/imaging/bitmap.cpp:182-207 | by rows for equal descriptions, so also for a bitmap onto itself, and by pixels for others |
| `Bitmaps.PatchColours` | source/imaging/bitmap.cpp:205-206 | copying a row of bytes copies a row of colours |
| `Bitmaps.RowsAgreeIff` | source/imaging/bitmap.cpp:205 | where a rectangle fits both images, the copies by rows and by pixels agree on all contents, if and only if it goes to row 0 or is empty |
| `Bitmaps.OntoAgreesIff` | source/imaging/bitmap.cpp:198-206 | within one bitmap the rows copied are those that were there before, on all contents, if and only if the rectangle goes beside or below itself |
| `Bitmaps.CopyDetermined` | source/imaging/image.cpp:16-19 | the rectangle and the two images determine the result of a copy |
| `Bitmaps.CopiesAgree` | source/imaging/bitmap.cpp:187-206 | a copy to row 0 that fits both images leaves byte for byte the same destination by rows as by pixels |
| `ZipFiles.ZipFile.ReadBytes` | source/compression/zipfilesystem.cpp:105-113 | the slice of the content at the position, which moves by what was read |
| `ZipFiles.ZipFile.Tell` | source/compression/zipfilesystem.cpp:120-123 | the position is the cursor of the reader |
| `ZipFiles.ZipFile.SeekTo` | source/compression/zipfilesystem.cpp:135-173 | ends at the target clamped to the content, from start, current position or end; after a failure the position still matches the reader |
| `ZipFiles.ZipFile.Run` | source/compression/zipfilesystem.cpp:105-173 | any run of reads and seeks gives what random access gives |

## Left out

- CacheStreams.CacheStream.Read: asks for data at the position and for bytes that exist, because at the end of the data the code calls itself without end; what follows a refill from the wrong place is described for that refill only (CacheStreams.FirstRefill).
- CacheStreams.Session: stops at the first operation that is out of step (a seek into the window, a write after reading ahead, a read past the end) instead of describing the bytes that it would return.
- ListGuards.ListGuard.GuardIterators: asks that no iterator is still before its first item while the list is empty, because the code then reads an item that does not exist.
- ListGuards.GuardIterator.ListChanged: holds the snapshot array as a sequence with retained items rather than as an array object of its own.
- ListPrograms.Run: covers programs that use objects somebody holds, the list holds or an enclosing loop has yielded, with indices that exist; loops may be broken off, but an exception out of a loop body is not distinguished from that.
- Events.Event.Call: takes what the delegates do to the event as a program; delegates are compared by target and code only.
- MidiReaders.FileStream.ReadInteger: reports that the loop would never end, at the end of the data, as a result.
- MidiReaders.MidiReader.SeekTrack: says nothing about seeking forward in a reader whose 16-bit index has wrapped around, which goes on from where it is.
- MidiReaders.EventReadBack: leaves system exclusive events out, which the reader does not implement; the event subclasses, which hold the same data, are not represented.
- PacketQueues.FFmpegDecoder.OpenStream: whether the codec opens is a parameter; seeking in the file and flushing the queue are foreign calls around a cleared list.
- Serialization.Deserialize: a string that the code would read past its buffer is a failure of its own here; objects of further registered types are not modelled.
- Utf8Strings.Utf8String.SetCharacter: works on a buffer that no other string shares.
- Bitmaps.CopyRows: sizes in bytes are below 2^31, as the allocation asks, so that 32-bit offsets do not wrap; palettes, intensity, 16-bit and sub-byte pixels are not modelled.
- Bitmaps.CopyPixels: source and destination are different bitmaps; a bitmap is copied onto itself by rows, as its description is its own.
- Bitmaps.CopyTo: asks that the rows lie inside both images, and that a row does not overlap its source, where the code copies memory unchecked.
- ZipFiles.ZipFile.Run: says nothing about the output after the library has failed; duplicated handles, which share a reader but not a position, are not modelled.
- ConditionLocks.NextKeepsInv: the lock is a system of steps on values, not a class, since the loops of one thread interleave with all others; update in place of the condition field is the step itself.
- TaskQueues.TaskQueue.Stop: waiting for the threads is not modelled, nor are a second `Start`, a queue destroyed under live workers, or thread handles and cancellation.
- The one-shot task latch, a mutex locked at construction and unlocked by `Run`.
- Guarded plain arrays, whose items are not counted, and copying or assigning arrays of counted ones.
- Copies of live guard iterators, `AddItems`, sorting, replacing the guarded list, and assignment of events, which bypasses the guard.
- Hashing a stream, which feeds the whole buffer on every pass and so differs from hashing the data.
- The 16- and 64-bit byte-order conversions, the string constructors, comparison, formatting and searches for strings.
- The file system, console, threads of the operating system, images and fonts behind libraries, colour arithmetic and the Java bindings.
- Destructors of items, which could change the very list that releases them.
- Reference arguments that point into the list being changed: values are passed by value here.
