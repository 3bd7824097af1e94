# Verified model of the RPC core

This project models the parts of a TARS-style RPC framework in which the difficult invariants live,
and proves them with Dafny 4.11: `dafny verify dfyconfig.toml` checks everything.

**The wire format.** `TarsValue` gives the encoding of nested values (integers narrowed to the
shortest form, strings, byte lists, lists, maps, structs with tags). `TarsSkip` and `TarsRead` say,
for arbitrary bytes, where the reader's cursor ends and what it returns or throws; `TarsRounds` follows
the skipping loops where a negative size makes them go back, and `TarsCycles` proves exactly when they
end; `TarsCounts` and `TarsExact` prove that what was written is read back and skipped exactly;
`TarsEvolution` proves that a reader with a newer or older schema gets exactly what the writer meant.
`TarsLayout` writes the format out in plain numbers, `TarsBounds` says what is refused, `TarsMaps` what
becomes of unsorted maps. `TarsStream` (`OutputStream`) and `TarsInput` (`InputStream`) are the mutable
classes, proved to do what those functions say. `RequestF` and `Packets` are the two packets,
`AppProtocol` and `Responses` the framing on the server's and the client's side, `Tup` the attribute
packet that nests one encoding in another.

**The coroutine scheduler.** `SchedulerSpec` is the abstract state (five queues, statuses, counters,
timers) with its global invariant; `SchedulerRun` adds dispatching, the passes of `tars_run` and the
rounds of `run`, and proves bounded waiting; `SchedulerWakeups` follows every interleaving with a
history, proves that no wakeup is lost, and that passes are such interleavings. `CoroutineRing` and
`CoroutineScheduler` are the heap version: circular doubly linked lists with sentinels, an id table, and
methods each of which refines its abstract step. `SchedulerOrder` says exactly who is woken into which
ring, `SchedulerSleep` how long a sleep lasts.

**Index and buffer structures.** `TimeoutQueue` (one map behind three indexes), `LoopQueue` and
`SpscQueue` (the ring queue, by one thread and interleaved by two), `Monitor` (deferred notification),
`SyncCall` (the handshake of a synchronous call as interleaved steps), `SendSlices` (partial
scatter-gather sends), `Buffer` (the power-of-two byte buffer) and `SeqManager` (the free list threaded
through an array). `Sequences` and `Arithmetic` hold what several of them need.

Conventions: a byte is an integer below 256, `int` is unbounded and every width, wrap-around and cast
of the C++ types is written out; an exception is an `Error` in an outcome, or a false result where only
its occurrence matters. Ghost fields named after an abstract value (`entries`, `ids`, `ring`,
`accepted`) are tied to the real fields by `Valid()`.

Where code and documentation disagree the code is followed. Results worth knowing:

- a byte list with a negative declared size moves the reader backward, and four bytes suffice to keep a
  search going for ever (`TarsRounds.NegativeSizeLoops`), also inside a complete response frame
  (`Responses.LoopingFrame`); a jump back need not be a loop, and `TarsCycles.NeverEndsIff` says when it is;
- the look at a partial response frame, whose own checks are commented out, can still throw
  (`Responses.OddPartialRaises`), though never on a genuine frame (`Responses.GenuineFrameIsQuiet`);
- a response decoded into a used object keeps that object's old context when none was sent
  (`RequestF.ResponseDecodedIff` says exactly when this shows);
- a put that ends a sleep leaves its timer behind, which can cut a later sleep short
  (`SchedulerSleep.StaleTimerWakes`; `SleepsThrough` and `SleepsOnIff` say when it does not);
- `doInvoke` never calls `popSend`, so it sends the same waiting request again and again until an answer
  is not complete success (`TimeoutQueues.DoInvoke`);
- an integer that a bool or unsigned target cannot hold can be read without an exception, wrapped
  (`TarsEvolution.ReadIntIff`);
- calling init on a scheduler that already has coroutines loses them (`SchedulerSpec.ReinitInvIff`).

## Model

| member | source | states |
|---|---|---|
| Bytes.IntInverse | tup/Tars.h:104-117 | Two's-complement big-endian encoding of any integer that fits k bytes decodes to that integer. |
| Bytes.HtonllIsBigEndian | tup/TarsType.h:84-91 | The byte swap of a little-endian host puts the eight bytes of any Int64 in network order, and swapping again restores them. |
| TarsCounts.HeadExact | tup/Tars.h:77-90 | A written head, one byte or two, is peeked back with the same type and tag, and its length is known. |
| TarsCounts.IntExact | tup/Tars.h:1105-1241 | The narrowed form the writer chose for an integer is accepted by every reader wide enough for the value. |
| TarsSkip.SkipField | tup/Tars.h:922-1016 | On any bytes skipping a field terminates and, if it returns or throws, the cursor has not moved back; the two escapes are a negative byte-list size and a doubled map size beyond Int32. |
| TarsSkip.SkipToStructEnd | tup/Tars.h:903-911 | On any bytes the struct skipper advances when it returns, never moves the cursor back when it throws, and terminates. |
| TarsSkip.SkipCells | tup/Tars.h:967-984 | The element loop of a map or list advances whenever it has an element to skip, for any declared count. |
| TarsSkip.SkipToTag | tup/Tars.h:335-365 | The search for a tag ends on any bytes: found strictly further on and inside the buffer, or absent and not further back. |
| TarsLayout.HeadLayout | tup/Tars.h:39-90 | In plain numbers: the head of every written value is 16 times the tag plus the code of the table, or 240 plus the code and then the tag, the code following from the kind of value and, for integers and strings, from written-out ranges. |
| TarsLayout.IntLayout | tup/Tars.h:1731-1819 | In plain numbers: what follows the head of an integer is nothing for 0, and otherwise 1, 2, 4 or 8 bytes by written-out ranges, most significant first, in two's complement. |
| TarsLayout.BodyLayout | tup/Tars.h:1839-1952 | In plain numbers: length prefixes, the inner head of a byte list, counts as integers at tag 0, and the end mark 11. |
| TarsLayout.IntNarrowest | tup/Tars.h:1731-1819 | Whatever form of an integer the reader accepts, on any bytes, the form the writer chooses for it is no longer. |
| TarsBounds.FixedSkips | tup/Tars.h:926-954 | Values of a fixed size are skipped without a look at them, even past the end of the buffer. |
| TarsBounds.SkipRefuses | tup/Tars.h:922-1016 | Which malformed fields skipField refuses, with which exception, and where it leaves the cursor. |
| TarsBounds.SearchSwallows | tup/Tars.h:335-365 | An exception while skipping is not passed on: the search reports the tag absent where the exception left the cursor. |
| TarsBounds.OtherTypeRefused | tup/Tars.h:1059-1699 | A field whose value is of a kind the target does not look into is refused with the mismatch exception behind its head. |
| TarsBounds.ReadBounded | tup/Tars.h:1345-1625 | On any bytes: what is read holds, at any depth, no string above 100 MB and no byte list, list or map with more elements than the buffer has bytes. |
| TarsExact.SkipBodyExact | tup/Tars.h:922-1016 | Exact skipping: for every nested value the writer can produce, whatever follows it, skipField consumes exactly its body. |
| TarsExact.SkipExact | tup/Tars.h:914-919 | From behind the head of a written field, whatever its tag and value, skipping ends exactly behind the field. |
| TarsExact.WrittenHead | tup/Tars.h:77-90 | The head of any written field is peeked back with its type, tag and length. |
| TarsExact.SkipFieldsExact | tup/Tars.h:903-911 | From any field boundary inside a struct the skipper ends one byte past that struct's own end mark, whatever unknown fields remain. |
| TarsRounds.SearchEnds | tup/Tars.h:335-365 | Followed through every jump, a search in which no byte list goes back ends after finitely many rounds exactly as the specification says, on any bytes. |
| TarsRounds.ByteListPosition | tup/Tars.h:985-1000 | Skipping a byte list leaves the cursor at or beyond the head of the list if and only if minus its declared size is at most the length of its heads and size, and wherever that is a search goes on there. |
| TarsRounds.SearchNeverEnds | tup/Tars.h:996-998 | A byte list whose size takes the cursor back to its own head keeps the search going for ever: it is still searching after any number of rounds. |
| TarsRounds.NegativeSizeLoops | tup/Tars.h:996-998 | Four bytes with which this happens, at any position and for any later tag: termination on arbitrary bytes needs the size hypothesis. |
| TarsCycles.NeverEndsIff | tup/Tars.h:335-365 | The exact condition, for searches and for the loops over structs, lists and maps, on any bytes: such a loop never ends if and only if its chain of nested rounds enters again, at the same cursor, a loop that has not ended yet. |
| TarsCycles.SearchDecided | tup/Tars.h:335-365 | A search, containers and jumps included, that has not settled after a number of nested rounds fixed by the length of the buffer never settles; one that has settled keeps its outcome. |
| TarsCycles.FieldPosition | tup/Tars.h:922-1016 | A skipped value of any type, containers included, can only end in front of its start if a byte list in it went back. |
| TarsCycles.JumpThatEnds | tup/Tars.h:996-998 | A jump back is not yet a loop: five bytes on which a search goes back and finds its tag there. |
| TarsEvolution.ReadIntExact | tup/Tars.h:1059-1241 | Every integer written at any tag is read back by every integer overload, signed, unsigned or Bool, that can hold it. |
| TarsEvolution.Seek | tup/Tars.h:335-365 | From any field boundary the search finds the wanted field if it is there, and otherwise stops before the first field behind it, having skipped only smaller tags. |
| TarsEvolution.ReadExact | tup/Tars.h:1473-1625 | Reading the encoding of any value at any compatible type, nested to any depth, gives the projection of the value on that type and consumes exactly the encoding. |
| TarsEvolution.FieldExact | tup/Tars.h:335-365 | One field of a reader's schema: present, it is read exactly; absent and optional, the target keeps its prior value and the next field is still to come. |
| TarsEvolution.FieldsExact | tup/Tars.h:1677-1691 | Schema evolution: reading any increasing set of tags from any struct with increasing tags yields exactly the written values, prior values for absent optional members, and leaves only fields behind the schema. |
| TarsEvolution.StructExact | tup/Tars.h:1677-1699 | A nested struct read at another version of its schema ends just past its own end mark, whatever unknown fields follow. |
| TarsEvolution.FieldsMissing | tup/Tars.h:1677-1699 | readFrom fails with the missing-field exception exactly at the first required field the writer left out, having read all before it and skipped nothing behind it. |
| TarsEvolution.ReadIntIff | tup/Tars.h:1059-1241 | For every integer overload: a written integer is read if and only if it fits the signed carrier, else the mismatch exception leaves the cursor behind the head; what is read is the integer itself if and only if the target holds it, so bool and unsigned targets, and no others, can be given a silently wrapped value. |
| TarsEvolution.EntriesExact | tup/Tars.h:1473-1517 | Inserting the decoded entries of a map with integer or string keys one by one rebuilds it in key order, with every value projected on the target type. |
| TarsEvolution.ElementKeeps | tup/Tars.h:1603-1606 | A vector keeps the elements it had: an optional member that the writer left out of an element keeps the value the old element at that place had. |
| TarsMaps.InsertKeeps | tup/Tars.h:1493-1500 | An insertion adds its entry in key order if and only if the key is new, and changes nothing else. |
| TarsMaps.MapKeepsFirst | tup/Tars.h:1473-1517 | On any bytes, in whatever order and however often keys come: the map that is read is in key order, holds exactly the keys read, and each with the value that came first. |
| TarsEvolution.CharListExact | tup/Tars.h:1519-1581 | A byte vector also accepts a list of chars and yields the same bytes. |
| TarsEvolution.SizeExact | tup/Tars.h:1595-1606 | The guard that a declared size may not exceed what the buffer holds never trips on a written container. |
| TarsStream.OutputStream.ReserveBuf | tup/Tars.h:58-75 | Growing the buffer keeps everything written so far. |
| TarsStream.OutputStream.WriteBytes | tup/Tars.h:172-181 | Appends exactly the given bytes behind the old contents. |
| TarsStream.OutputStream.WriteInt32 | tup/Tars.h:1780-1796 | Through the chain of narrower writes, appends the encoding that TarsLayout writes out in numbers and proves to be the shortest. |
| TarsStream.OutputStream.WriteInt64 | tup/Tars.h:1803-1819 | Through the chain of narrower writes and the byte swap, appends that shortest encoding. |
| TarsStream.OutputStream.WriteStr | tup/Tars.h:1839-1865 | Fails exactly for a string above the limit; otherwise appends head, one- or four-byte length and bytes. |
| TarsStream.OutputStream.WriteValue | tup/Tars.h:1876-1952 | For any nested value: fails exactly when it holds an over-long string, and otherwise appends exactly the encoding whose reading and skipping are proved exact. |
| TarsInput.InputStream.SkipField | tup/Tars.h:922-1016 | The cursor-moving skipper agrees, outcome and cursor, with the function whose exactness is proved. |
| TarsInput.InputStream.SkipToStructEnd | tup/Tars.h:903-911 | The loop over unknown fields agrees with the specification on all bytes. |
| TarsInput.InputStream.SkipToTag | tup/Tars.h:335-365 | The search loop, swallowing decode exceptions, agrees with the specification on all bytes. |
| TarsInput.InputStream.ReadInteger | tup/Tars.h:1059-1241 | The integer overloads, and Bool through Char, move the cursor and produce value or exception as specified, on all bytes. |
| TarsInput.InputStream.ReadValue | tup/Tars.h:1473-1625 | Reading any value, containers and structs to any depth, on all bytes, well-formed or not: result, exception and cursor as specified, so exactness transfers to the class. |
| TarsInput.InputStream.ReadMap | tup/Tars.h:1473-1517 | The map loop, inserting without overwriting, agrees with the specification on all bytes. |
| TarsInput.InputStream.ReadCharVector | tup/Tars.h:1519-1581 | The byte-vector reader, both for byte lists and lists of chars, agrees with the specification on all bytes. |
| TarsInput.InputStream.ReadStruct | tup/Tars.h:1677-1699 | Reads a nested struct and leaves the cursor behind its end mark as specified. |
| RequestF.WholePacket | tup/RequestF.h:58-71 | A top-level packet whose last field is within the reader's schema is read to the very end of the buffer. |
| RequestF.ResponseSends | tup/RequestF.h:148-165 | What of a response is sent under which tag: an empty description and an empty context are left out, all else is there. |
| RequestF.RequestRoundTrip | tup/RequestF.h:44-71 | Decoding the encoding of any request within the limits, into any target, gives that request and consumes the whole encoding. |
| RequestF.ResponseRoundTrip | tup/RequestF.h:148-179 | Decoding the encoding of any response, omitted members included, into any target: every member is restored except that an omitted context keeps the target's. |
| RequestF.ResponseDecodedIff | tup/RequestF.h:138-179 | Decoding an encoded response gives back exactly what was sent if and only if a context was sent or the target had none; in particular into a fresh target. |
| Packets.RequestPacket.WriteTo | tup/RequestF.h:44-56 | Appends the ten members in tag order, failing exactly on an over-long string. |
| Packets.RequestPacket.ReadFrom | tup/RequestF.h:58-71 | On any bytes the member-by-member reads leave the object in the state the schema-driven specification says. |
| Packets.ResponsePacket.WriteTo | tup/RequestF.h:148-165 | Appends the members, omitting an empty description and an empty context, failing exactly on an over-long string. |
| Packets.ResponsePacket.ReadFrom | tup/RequestF.h:167-179 | On any bytes the member-by-member reads leave the object in the state the specification says, stale context included. |
| AppProtocol.Parse | tup/AppProtocal.h:48-82 | Returns a packet, waits or rejects as the length prefix says, and rewrites its buffers only with a packet. |
| AppProtocol.ParseLenMeans | tup/AppProtocal.h:48-82 | Invalid exactly when the first four bytes give less than 4 or more than ten million, incomplete exactly when they or the announced bytes are not all there, otherwise the frame and the rest. |
| AppProtocol.FeedIsSplitAll | tup/AppProtocal.h:54-82 | For any bytes, as long as the buffer stays below 2^31 bytes, the receive loop over any chunking delivers what one whole buffer would. |
| AppProtocol.SplitAllMore | tup/AppProtocal.h:54-82 | Splitting a prefix and going on with its tail and the rest is splitting everything. |
| AppProtocol.ChunkIndependent | tup/AppProtocal.h:54-82 | Frames with lengths between 4 and the maximum plus a partial one, cut anywhere, yield exactly the original bodies in order and the tail. |
| Responses.TarsRequest | tup/AppProtocal.cpp:15-30 | The client's frame is the four-byte length and the encoded request. |
| Responses.RequestOverTheWire | tup/AppProtocal.cpp:15-30 | The server's parse and decode recover the request from the client's frame, whatever follows it. |
| Responses.PeekHeader | tup/AppProtocal.h:413-437 | The five optional reads at a partial frame throw exactly when the schema-driven decode of the 20-byte window does. |
| Responses.TarsResponseLen | tup/AppProtocal.h:387-474 | The receive loop with its position and list, the look at a partial frame included, agrees with the recursive specification on all bytes whose headers announce at least 4. |
| Responses.ResponsesDelivered | tup/AppProtocal.h:387-474 | On complete frames plus any partial one it returns exactly the length of the complete frames and exactly their packets, unless the look at the partial one throws. |
| Responses.BadFrameRaises | tup/AppProtocal.h:387-474 | A complete frame that does not decode ends the run with its exception, whatever follows; exactly the packets in front of it have been delivered. |
| Responses.GenuineFrameIsQuiet | tup/AppProtocal.h:409-443 | A part of a response frame, however short or long, never makes the look throw, whatever stands in memory behind the buffer. |
| Responses.CutStreamDelivered | tup/AppProtocal.h:387-474 | So a stream of responses cut anywhere delivers exactly the complete ones and their total length. |
| Responses.OddPartialRaises | tup/AppProtocal.h:409-443 | There are partial frames on which the look does throw: a string at tag 1, where the version belongs. |
| Responses.LoopingFrame | tup/AppProtocal.h:447-452 | There is a complete eight-byte frame on which the source never returns: the search for the version is still going after any number of rounds. |
| Responses.ReceiveResumes | tup/AppProtocal.h:387-474 | For any bytes on which a run returned, resuming from the returned position when more has arrived agrees with one run over everything. |
| Tup.PutFind | tup/tup.h:57-66 | Putting an attribute changes that attribute only and keeps the map in key order. |
| Tup.GetAfterPut | tup/tup.h:57-120 | get after put returns the value put, as projected on the type it is read at. |
| Tup.TwoLevelRoundTrip | tup/tup.h:372-460 | Behind the four-byte length the outer packet restores every header field, and its buffer the whole attribute map. |
| Tup.UniPacket.Put | tup/tup.h:57-66 | Stores the encoding at tag 0 under the name, and nothing when encoding throws. |
| Tup.UniPacket.Get | tup/tup.h:102-120 | Decodes the stored bytes of that name, or reports that there are none. |
| Tup.UniPacket.DoEncode | tup/tup.h:502-517 | Refuses an empty servant or function name; otherwise the stream holds the packet around the encoded attributes. |
| Tup.UniPacket.Encode | tup/tup.h:372-384 | Length prefix and packet, or failure under exactly the stated conditions. |
| Tup.UniPacket.Decode | tup/tup.h:438-460 | On any bytes: too short, outer failure, inner failure or both levels decoded as specified. |
| Tup.Transfer | tup/tup.h:372-460 | Encoding with one object and decoding with another, holding anything before, copies header and attributes. |
| CoroutineRing.CoroutineAddTail | servant/servant/CoroutineScheduler.h:110-132 | Appending to a well-formed circle of k nodes and a sentinel gives a well-formed circle with the node last. |
| CoroutineRing.CoroutineDel | servant/servant/CoroutineScheduler.h:137-152 | Unlinking leaves a well-formed circle of the other nodes in their order and clears the node's own pointers. |
| CoroutineRing.EmptyIff | servant/servant/CoroutineScheduler.h:102-105 | The emptiness test is true exactly of a circle without nodes, and otherwise next of the sentinel is the first. |
| SchedulerSpec.MovePartition | servant/libservant/CoroutineScheduler.cpp:677-781 | Moving a coroutine to another ring keeps every coroutine in exactly the ring of its status, and the other rings as they are. |
| SchedulerSpec.InitInv | servant/libservant/CoroutineScheduler.cpp:255-330 | For every pool size the initial state satisfies the global invariant, with every coroutine FREE. |
| SchedulerSpec.InitPool | servant/libservant/CoroutineScheduler.cpp:274-330 | init begins with up to 100 coroutines, FREE and in the order of their ids. |
| SchedulerSpec.ReinitInvIff | servant/libservant/CoroutineScheduler.cpp:255-330 | init on a scheduler that was used before gives a sound scheduler if and only if no coroutine had been created: it renews the table but keeps the rings. |
| SchedulerSpec.CreateInv | servant/libservant/CoroutineScheduler.cpp:332-408 | createCoroutine keeps the invariant, returns 0 exactly when all pool coroutines are in use, and otherwise an id that was FREE or did not exist. |
| SchedulerSpec.CreateTakes | servant/libservant/CoroutineScheduler.cpp:332-408 | createCoroutine takes the coroutine that has been FREE for longest; if none is FREE, exactly then the pool grows, by 100 or by what is left, and the first new one is taken. |
| SchedulerSpec.CreateFrame | servant/libservant/CoroutineScheduler.cpp:380-408 | createCoroutine, growing or not, disturbs no coroutine in use, no other ring and no wake queue. |
| SchedulerRun.Dispatch | servant/libservant/CoroutineScheduler.cpp:463-535 | Whatever a dispatched coroutine creates, puts and then does (yield, sleep or finish), the global invariant holds when control is back. |
| SchedulerRun.PutInv | servant/libservant/CoroutineScheduler.cpp:567-613 | A put keeps the invariant if and only if it names a created coroutine or comes after terminate(). |
| SchedulerRun.WakeTimeoutWoke | servant/libservant/CoroutineScheduler.cpp:615-643 | The timer loop removes exactly the timers that are due and leaves none of their coroutines asleep. |
| SchedulerRun.WakeAllWoke | servant/libservant/CoroutineScheduler.cpp:545-643 | The three wakeup calls together empty both queues and wake every coroutine in them. |
| SchedulerOrder.RoundOrder | servant/libservant/CoroutineScheduler.cpp:545-712 | Exactly who is woken, into which ring and in what order: due sleepers and then those that were put join the tail of ACTIVE in timer and queue order, those that asked for it themselves the tail of AVAIL; nobody else changes status. |
| SchedulerRun.InsertTimerPlace | servant/libservant/CoroutineScheduler.cpp:523-535 | A new timer stands behind all that are not later and in front of all that are. |
| SchedulerRun.LeaveKeeps | servant/libservant/CoroutineScheduler.cpp:510-535 | Giving control back takes the running coroutine off its ring and changes nothing else but its status and its own timer or queue entry. |
| SchedulerRun.LoopOrder | servant/libservant/CoroutineScheduler.cpp:473-505 | A loop dispatches its ring in order as far as its budget goes and shifts the rest forward by as much. |
| SchedulerRun.PassOrder | servant/libservant/CoroutineScheduler.cpp:463-508 | The k-th of a ring when its loop begins is dispatched k-th in that pass or moves forward by the budget of the loop, whatever is created, put or woken meanwhile. |
| SchedulerRun.BoundedWaiting | servant/libservant/CoroutineScheduler.cpp:410-508 | The coroutine at index k of the ACTIVE or AVAIL ring when that ring's loop begins, woken or created in that pass or waiting before, is dispatched k / n passes later as number k % n, n being the budget of the loop, over all inputs; until then some coroutine is in use. |
| SchedulerRun.WaitsBetweenPasses | servant/libservant/CoroutineScheduler.cpp:410-508 | The same for the coroutine that stands at index k between two passes. |
| SchedulerRun.TarsRunWaits | servant/libservant/CoroutineScheduler.cpp:463-508 | For tars_run, with 100 dispatches of each ring: k / 100 passes, as number k % 100. |
| SchedulerRun.RunWaits | servant/libservant/CoroutineScheduler.cpp:410-461 | For run(), which dispatches one AVAIL coroutine a round: index k waits k rounds, and run() does not stop before. |
| SchedulerRun.TerminatedPass | servant/libservant/CoroutineScheduler.cpp:463-508 | After terminate() a pass wakes and dispatches nobody. |
| SchedulerWakeups.Execute | servant/libservant/CoroutineScheduler.cpp:463-659 | The global invariant holds in every state reachable by any sequence of creations, puts, wakeups, dispatches and terminate(). |
| SchedulerWakeups.TerminalStays | servant/libservant/CoroutineScheduler.cpp:645-659 | After terminate() no event leads back, and the wakeup calls change nothing. |
| SchedulerWakeups.NoLostWakeups | servant/libservant/CoroutineScheduler.cpp:510-643 | In every run without terminate(), after the wakeup calls at time now nobody whose deadline has come is asleep, every INACTIVE coroutine yielded without asking to be woken and has had no drained put since, and no FREE one has been revived. |
| SchedulerWakeups.PassIsExecute | servant/libservant/CoroutineScheduler.cpp:463-508 | A pass ends in the state in which the run of its creations, puts, wakeups and dispatches ends. |
| SchedulerWakeups.PassesLoseNothing | servant/libservant/CoroutineScheduler.cpp:463-643 | Whatever passes a new scheduler has made, the state in which the loops of the next pass begin is one to which the conditions of no lost wakeups apply. |
| SchedulerSleep.SleepsOnIff | servant/libservant/CoroutineScheduler.cpp:586-643 | A round leaves a sleeper asleep if and only if no timer of its own is due and nobody has put it; otherwise it is ACTIVE. |
| SchedulerSleep.SleepBegins | servant/libservant/CoroutineScheduler.cpp:523-535 | After sleep(ms) at a time the coroutine is asleep and has a timer exactly |ms| later. |
| SchedulerSleep.SleepsThrough | servant/libservant/CoroutineScheduler.cpp:523-643 | A coroutine without an older timer that slept for ms stays asleep over any run in which it is not put and every round comes earlier than |ms| later. |
| SchedulerSleep.StaleTimerWakes | servant/libservant/CoroutineScheduler.cpp:523-643 | Without that proviso sleep can end early: a run in which the timer of a sleep that a put ended cuts a sleep of 10000 ms down to 500 ms. |
| CoroutineScheduling.CoroutineScheduler.Initialize | servant/libservant/CoroutineScheduler.cpp:255-330 | On the heap, init builds the five circles, the id table and the initial coroutines of the specification. |
| CoroutineScheduling.CoroutineScheduler.Fill | servant/libservant/CoroutineScheduler.cpp:290-325 | The creation loop adds coroutines with consecutive new ids to the free circle. |
| CoroutineScheduling.CoroutineScheduler.Relink | servant/libservant/CoroutineScheduler.cpp:677-781 | Unlinking from one circle and appending to another on the heap is the abstract move; all five circles stay well-formed. |
| CoroutineScheduling.CoroutineScheduler.IncreaseCoroPoolSize | servant/libservant/CoroutineScheduler.cpp:332-378 | Adds at most 100 coroutines and none beyond the pool size; fails exactly when none can be added. |
| CoroutineScheduling.CoroutineScheduler.CreateCoroutine | servant/libservant/CoroutineScheduler.cpp:380-408 | On the heap it does exactly what the abstract creation does and keeps the invariant. |
| CoroutineScheduling.CoroutineScheduler.Yield | servant/libservant/CoroutineScheduler.cpp:510-521 | Refines the abstract yield: tail of INACTIVE, and of the wake queue if asked. |
| CoroutineScheduling.CoroutineScheduler.Sleep | servant/libservant/CoroutineScheduler.cpp:523-535 | Refines the abstract sleep: tail of TIMEOUT and a timer |ms| ahead at its place in deadline order. |
| CoroutineScheduling.CoroutineScheduler.Finish | servant/libservant/CoroutineScheduler.cpp:194-225 | Refines the abstract end of a coroutine: back to FREE and one less in use. |
| CoroutineScheduling.CoroutineScheduler.Put | servant/libservant/CoroutineScheduler.cpp:567-584 | Appends any id to the queue of puts unless terminating; the invariant survives if and only if the id names a coroutine. |
| CoroutineScheduling.CoroutineScheduler.AssertHolds | servant/libservant/CoroutineScheduler.cpp:601-605 | The assert of wakeup() passes, for a number in the range of the table, exactly when it names a coroutine. |
| CoroutineScheduling.CoroutineScheduler.Terminate | servant/libservant/CoroutineScheduler.cpp:645-659 | Sets the flag, and nothing else. |
| CoroutineScheduling.CoroutineScheduler.WakeupBySelf | servant/libservant/CoroutineScheduler.cpp:545-565 | Drains the self-wake queue as specified. |
| CoroutineScheduling.CoroutineScheduler.Wakeup | servant/libservant/CoroutineScheduler.cpp:586-613 | Drains the queue of puts as specified. |
| CoroutineScheduling.CoroutineScheduler.WakeupByTimeout | servant/libservant/CoroutineScheduler.cpp:615-643 | Pops the due timers in deadline order as specified. |
| CoroutineScheduling.CoroutineScheduler.SwitchTo | servant/libservant/CoroutineScheduler.cpp:473-505 | One dispatch of the head of a circle, with anything the coroutine may do, refines the abstract dispatch. |
| CoroutineScheduling.CoroutineScheduler.RunLoop | servant/libservant/CoroutineScheduler.cpp:473-505 | The heap loop dispatches exactly the coroutines, in the order, of the abstract loop. |
| CoroutineScheduling.CoroutineScheduler.TarsRun | servant/libservant/CoroutineScheduler.cpp:463-508 | One pass of the heap scheduler dispatches the same coroutines in the same order, and ends in the same state, as one abstract pass, of which bounded waiting and no lost wakeups are proved. |
| CoroutineScheduling.CoroutineScheduler.Run | servant/libservant/CoroutineScheduler.cpp:410-461 | The rounds of run() are abstract passes one after another; it stops exactly when terminate() was called or a round leaves no coroutine in use. |
| TimeoutQueues.TimeoutQueue.Push | util/include/tc_timeout_queue_new.h:217-241 | Refuses a known id; otherwise all three indexes gain the entry and stay in agreement with one map. |
| TimeoutQueues.TimeoutQueue.Erase | util/include/tc_timeout_queue_new.h:314-330 | Removes the entry from the map, the deadline index and, if unsent, the send list, through its stored iterators. |
| TimeoutQueues.TimeoutQueue.Get | util/include/tc_timeout_queue_new.h:184-206 | Looks up by id and removes from all indexes only if asked. |
| TimeoutQueues.TimeoutQueue.GetSend | util/include/tc_timeout_queue_new.h:155-168 | Gives the value of the unsent entry pushed first. |
| TimeoutQueues.TimeoutQueue.PopSend | util/include/tc_timeout_queue_new.h:170-182 | Takes exactly the unsent entry pushed first off the send list, deleting it or marking it sent. |
| TimeoutQueues.TimeoutQueue.Timeout | util/include/tc_timeout_queue_new.h:243-263 | Removes exactly the entries whose deadline has come. |
| TimeoutQueues.TimeoutQueue.TimeoutOne | util/include/tc_timeout_queue_new.h:265-286 | Pops an entry exactly when one has expired: the earliest deadline, oldest push among ties. |
| TimeoutQueues.TimeoutQueue.TimeoutEach | util/include/tc_timeout_queue_new.h:265-286 | A run of pops until nothing has expired takes exactly the expired entries, each before the next: earliest deadline first, oldest push among ties; all others stay. |
| TimeoutQueues.TimeoutQueue.PopSendEach | util/include/tc_timeout_queue_new.h:170-182 | A run along the send list until it is empty visits exactly the unsent entries, in the order they were pushed, whether it deletes or marks them. |
| TimeoutQueues.SendNext | util/include/tc_timeout_queue_new.h:155-182 | The oldest unsent entry of what such a run has left is younger than all it has visited. |
| TimeoutQueues.DoInvoke | servant/libservant/ObjectProxy.cpp:94-121 | doInvoke never takes a request off the send list: each round sends the same oldest one, and it returns exactly when none was waiting or an answer is not complete success. |
| TimeoutQueues.TimeoutQueue.SizeIs | util/include/tc_timeout_queue_new.h:75-100 | The size of the id index is the number of entries held. |
| LoopQueues.FullMeans | util/include/tc_loop_queue.h:74-79 | The wrap-around comparison is true exactly when capacity minus one slots are in use, except that a queue of capacity one never looks full. |
| LoopQueues.TooSmallMeans | util/include/tc_loop_queue.h:114-119 | The bulk test is true exactly when the items do not fit. |
| LoopQueues.LoopQueue.PushBack | util/include/tc_loop_queue.h:74-105 | Accepts exactly when there is room, appends, and reports whether the queue was empty; a queue of size 0 accepts and keeps nothing. |
| LoopQueues.LoopQueue.PushAll | util/include/tc_loop_queue.h:113-135 | All of the items, in order, exactly when they fit, otherwise none. |
| LoopQueues.LoopQueue.PopFront | util/include/tc_loop_queue.h:137-151 | Takes the oldest item, if any. |
| LoopQueues.LoopQueue.GetFront | util/include/tc_loop_queue.h:166-175 | Shows the oldest item and leaves the queue alone. |
| SpscQueue.SafeInterleavings | util/include/tc_loop_queue.h:74-151 | Under every interleaving of the shared reads and writes of one producer and one consumer: popped is a prefix of pushed, at most iSize items are held, slots between the indices are intact, accepted items are published in order. |
| SpscQueue.NoOverwrite | util/include/tc_loop_queue.h:84-85 | Under every interleaving the slot being written is no unread slot. |
| SpscQueue.Decision | util/include/tc_loop_queue.h:74-119 | A push, single or bulk, is refused exactly when its items did not fit when the other index was read, and an accepted one still fits later. |
| SpscQueue.EmptyIsReported | util/include/tc_loop_queue.h:88-97 | A push published into an empty queue reports so, unless the consumer has already taken everything. |
| SpscQueue.EmptyMeans | util/include/tc_loop_queue.h:88-97 | The first test for emptiness is true exactly when nothing is held, and a push reports bEmpty when its item is the only one, and does not when there are more. |
| SpscQueue.PushReturns | util/include/tc_loop_queue.h:74-135 | Whatever the consumer does meanwhile, a push returns after a known number of its own steps, and its items have then all been published in order, or it was refused and none has been. |
| SpscQueue.PopDecision | util/include/tc_loop_queue.h:137-151 | A pop returns false exactly when the queue is empty at its comparison, and then changes nothing shared. |
| SpscQueue.PopReturns | util/include/tc_loop_queue.h:137-151 | A pop of a queue that is not empty takes, three steps later and whatever the producer does in between, exactly the oldest item. |
| Monitors.Monitor.NotifyImpl | util/include/tc_monitor.h:101-119 | n signals wake n waiting threads or all there are; -1 wakes all. |
| Monitors.Monitor.Unlock | util/include/tc_monitor.h:33-37 | The notifications counted since the lock was taken wake that many waiters before the mutex is free. |
| Monitors.Monitor.Wait | util/include/tc_monitor.h:49-64 | Delivers pending notifications, then joins the queue in the same step that frees the mutex. |
| SyncCall.NeverLeftAsleep | servant/libservant/ObjectProxy.cpp:78-87 | Under every interleaving, once finishInvoke is through the caller is not left blocked, although notify precedes the flag. |
| SyncCall.ReturnsAfterFin | servant/libservant/ServantProxy.cpp:239-251 | Under every interleaving the caller gets past its wait only after the flag was set. |
| SyncCall.MutualExclusion | util/include/tc_monitor.h:27-37 | The two halves are never inside the monitor together. |
| SyncCall.CallReturns | servant/libservant/ServantProxy.cpp:239-251 | Every fair schedule takes both halves to their end: 23 rounds that give both threads a turn suffice. |
| SendSlices.SkipDrops | util/src/tc_epoll_server.cpp:405-430 | Trimming n bytes drops exactly the first n, leaves no empty slice and changes no slice but the first remaining. |
| SendSlices.Connection.SendSlices | util/src/tc_epoll_server.cpp:312-356 | The slices are handed to writev in order and in batches of the largest size until one is not taken whole; -1 exactly if the last answer was -1, otherwise the sum of the answers, which are the first bytes. |
| SendSlices.BatchesMean | util/src/tc_epoll_server.cpp:312-356 | In any such log of calls every one but the last was taken whole, and if the last was too, nothing was left out. |
| SendSlices.Connection.AdjustSlices | util/src/tc_epoll_server.cpp:405-430 | In place, the pending slices become the old ones without the given number of bytes. |
| SendSlices.Connection.SendByEpollOut | util/src/tc_epoll_server.cpp:260-309 | One writable event offers the pending slices and conserves the stream; -1 exactly if writev failed, -2 exactly if 8 KB or more are left or nothing is and the connection is to be closed, otherwise 0. |
| SendSlices.Connection.Drain | util/src/tc_epoll_server.cpp:260-309 | Over any number of writable events, accepted bytes followed by pending slices are the original concatenation. |
| Buffers.RoundUpIsLeast | util/src/tc_buffer.cpp:7-17 | The rounding result is the least power of two not below the size. |
| Buffers.RoundUp2Power | util/src/tc_buffer.cpp:7-17 | The doubling loop computes that rounding, without overflow up to 2^63. |
| Buffers.GrowToBounds | util/src/tc_buffer.cpp:78-97 | The growth loop reaches its failing assert exactly when more than 2^63 bytes are wanted; otherwise it ends at a power of two that is enough, at least double the old and less than double the need. |
| Buffers.Buffer.AssureSpace | util/src/tc_buffer.cpp:73-120 | Room for the request, the same contents through growth or compaction, and none of the asserts fails. |
| Buffers.Buffer.PushData | util/src/tc_buffer.cpp:25-38 | Appends all of the data or, for null, empty or too much, nothing. |
| Buffers.Buffer.PopData | util/src/tc_buffer.cpp:40-56 | Removes and copies out the oldest bytes, as many as asked for or held. |
| Buffers.Buffer.Consume | util/src/tc_buffer.cpp:63-70 | Drops the oldest bytes. |
| Buffers.Buffer.Shrink | util/src/tc_buffer.cpp:123-150 | Keeps the contents and never enlarges the block, whatever the high-water percentage; when it acts, the block is below twice the contents. |
| Buffers.PushRun | util/src/tc_buffer.cpp:25-120 | Any chunks pushed into a new buffer: contents are their concatenation, and the bytes copied and the capacity obey the amortised bounds on the object itself. |
| Buffers.AmortisedGrowth | util/src/tc_buffer.cpp:73-120 | On any push-only run, fewer bytes were copied than the capacity, and the capacity is at most 128 or below twice the bytes pushed. |
| SeqManagers.SeqManager.constructor | servant/libservant/ServantProxy.cpp:15-34 | All ids from 0 up are free, in order. |
| SeqManagers.SeqManager.Get | servant/libservant/ServantProxy.cpp:36-55 | Hands out the id at the front of the free chain. |
| SeqManagers.SeqManager.Del | servant/libservant/ServantProxy.cpp:57-73 | Puts the id at the end of the free chain. |
| SeqManagers.FreeListShape | servant/libservant/ServantProxy.cpp:36-73 | Walking the array from the free head meets the free ids and no others, none twice, passes the tail last and stops: the chain is acyclic. |
| SeqManagers.ChainUnique | servant/servant/ServantProxy.h:20-24 | The fields alone determine which ids the chain holds and in what order. |
| SeqManagers.FirstReleasedFirstReissued | servant/libservant/ServantProxy.cpp:36-73 | Over any legal run, the initially free ids followed by the released ones are the issued ones followed by the still free ones. |
| SeqManagers.NeverHeldTwice | servant/libservant/ServantProxy.cpp:36-73 | Over any legal run every id is either free or held, never both, and the next one handed out is not held. |

## Left out

- Sockets, epoll, pipes, DNS and clocks are inputs: what `writev` accepts is arbitrary, `now` is a parameter, and the chunks of a stream are given. The assembly context switch is "control goes to the coroutine, which creates and puts what it likes, and comes back".
- After a map count whose double is no Int32 the source's loop count overflows, which has no defined meaning: the outcome `BadCount` ends the model there (tup/Tars.h:972). A negative byte-list size is followed in `TarsRounds` as long as the cursor does not fall below 0; the typed readers end with the outcome `Backward`.
- TarsCycles.NeverEndsIff: the stack is not modelled, so a chain of nested values without end counts as never ending.
- Float and Double are opaque payloads of 4 and 8 bytes (tup/Tars.h:1243-1309); the byte-order helpers for them are left out.
- `std::map` is the list of its entries in key order, with integer or string keys (the key types the packets use); allocation failure and `max_size` checks are not modelled.
- The raw-buffer overloads `read(char*, ...)`, `read(T*, ...)`, the map-buffer reader and the fixed-buffer writer (tup/Tars.h:658-713, 797-870, 1422-1471, 1627-1665).
- The attribute object's own copy of the version (`_iVer`, tup/tup.h:450) and the version setters.
- Equality operators, class names and MD5 strings of the packets; `putUnknown`, `getUnknown`, `getByDefault` and the result accessors of tup/tup.h.
- `parseStream`, `streamRequest`, `streamResponse` and `tupResponseLen` (tup/AppProtocal.h:103-345): other framings of the same packets by loops of the same kind.
- With 20 to 23 bytes of a partial frame left, the window of 20 bytes behind the length (tup/AppProtocal.h:412-415) reaches up to 4 bytes past the buffer. The model reads them from an arbitrary sequence `beyond`, so it assumes that this memory can be read, and nothing of what it holds.
- Responses.TarsResponseLen: a frame that announces fewer than 4 bytes ends the model (`ShortHeader`); the check that would reject it is commented out in the source, and what follows is not modelled. A look that meets a negative byte-list size ends with `Astray`, without following the jump.
- Packets.RequestPacket.ReadFrom: after an exception the members are not specified; those before the one that failed have been assigned, and a container that failed half-way is left partly filled.
- Packets.ResponsePacket.ReadFrom: likewise.
- AppProtocol.FeedIsSplitAll: what is buffered stays below 2^31 bytes, beyond which the cast of its length to `int` wraps (tup/AppProtocal.h:54-82).
- AppProtocol.ChunkIndependent: chunks and maximum stay below 2^30, so that the `int` length arithmetic cannot wrap.
- CoroutineScheduling.CoroutineScheduler.Run: the wait on `_monitor` when both rings are empty is only the time in which `before` happens, terminate() is not called in the middle of a round, and `destroy`, which follows the loop, is left out.
- Stack management is left out, and stack allocation is assumed to succeed.
- CoroutineScheduling.CoroutineScheduler.Initialize: called once, on a new scheduler; what a second call would do is `SchedulerSpec.ReinitInvIff`.
- SchedulerRun.Perform: runs do not go on after a put of an id that no coroutine has, on which wakeup() asserts or reads past its table.
- SchedulerWakeups.Execute: for the same reason such a put is dropped from the run; `SchedulerRun.PutInv` says exactly which puts these are.
- TarsEvolution.EntriesExact: keys are integers or strings, not the other ordered types the template admits.
- TarsMaps.MapKeepsFirst: likewise, integer or string keys.
- TarsInput.InputStream.ReadValue: without the raw-buffer overloads.
- Iterators into the three indexes of the timeout queue are numbers given out once; the templates that are never instantiated (`generateId`, `timeout(df)`) are left out.
- SpscQueue.SafeInterleavings: memory is sequentially consistent; the hardware reordering that the unfenced fields would allow is not modelled.
- Spurious and timed wakeups of the condition variable, and the lifetime of the message after the wait has returned.
- SendSlices.Connection.SendByEpollOut: fewer than 2^31 bytes are pending, since the source adds byte counts in `int`; nothing in the repository appends to the pending slices.
- Buffers.Buffer.Shrink: sizes are mathematical, so `dataSize * 100` does not wrap above 2^64 / 100 bytes; `Swap` and `PeekData` are not modelled.
- SeqManagers.SeqManager.Get: called with an id free, as the asserts of the source demand.
- SeqManagers.SeqManager.Del: called with an id in use, as the asserts of the source demand.
- The thread pool, singletons, server wiring, dispatch tables and all tracing output: no property of interest rests on them.
