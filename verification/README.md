# Verified model of the pico_victron firmware core

This project models, in Dafny 4.11, the parts of the firmware in which bytes and bookkeeping have to
be right: the VE.Bus link to the inverter, the fixed-capacity containers under it, the flash store,
the DHCP server of the access point, the HTTP request parser and response writer, and the digest
check of the web interface. `dafny verify dfyconfig.toml` checks everything.

## How it is built

| file | what it models |
|---|---|
| Prelude.dfy | bytes, clock readings and sequence vocabulary |
| StaticTypes.dfy | `static_vector`, `static_ring_buffer`, `static_string::append` |
| VEBusCodec.dfy | escaping, checksum and frame assembly, as functions and as the in-place passes |
| VEBusFraming.dfy | cutting the received byte stream into frames |
| VEBusQueue.dfy | what each critical section does to the request queue, on values |
| VEBusProtocol.dfy | the queue as a state machine over all interleavings of the three tasks |
| VEBusProgress.dfy, VEBusFate.dfy | how long a request can stay, and why it leaves |
| VEBusRequests.dfy | what the bytes of a request ask for |
| VEBusTraffic.dfy, VEBusRetry.dfy | what one frame or pass does, and that waiting and timed-out requests are sent |
| VEBusStale.dfy | what becomes of a request with a wrong response |
| VEBusRuns.dfy | runs from the empty queue that show the failures listed below |
| VEBusDriver.dfy | the `VEBus` object; each method is one step of the state machine |
| FlashStore.dfy | the flash store over NOR flash |
| DhcpLeases.dfy, DhcpOptions.dfy, DhcpServer.dfy | lease table and expiry, option reader and writer, message processing |
| DhcpMessages.dfy | what clients see: messages and addresses |
| StringUtil.dfy, HttpRequest.dfy, HttpResponse.dfy | view extraction, request parser, streaming response writer |
| HttpDelivery.dfy | a whole response on its way to the client |
| DigestAuth.dfy, DigestFields.dfy | the digest check, with SHA-256 as a parameter, and which values it uses |

Code that works in place is a method on a class or an array and is proved against a function on
values; the laws are lemmas about that function. The clock, the serial line, the network stack's
answers, the success of the erase and program calls and the hash function are parameters.

In the queue each critical section is one atomic step; choosing an id (which takes no lock) and
inserting the request are two steps, with any steps of the other tasks between them. `Data` has one
field the source does not have, `transmissions`, which counts sends for the theorems.

## What the code does that its comments do not say

- `getNextFreeId_1` promises to fail only when no id is free. Because `idUsed` is not reset, only the
  first id tried can be chosen: the call succeeds if and only if the id after the last one is free.
  `VEBusRuns.SelectionFailsWithFreeIds` is a run with 126 ids free. It recovers: of any 17 calls
  in a run one succeeds (`VEBusProtocol.SelectionRecovers`).
- `_dataFifo[i] = *_dataFifo.pop()` evaluates `pop` first. For the last of several entries the index
  is then out of range and refers to slot 0: the request in slot 0 is lost and the handled one stays
  and is handled once more. `ResponseRemovesItsEntryIff` gives the exact condition, `AnsweredTwice` a
  run.
- A switch command is queued with its command and address unset. When they happen to be those of a
  pending request, the command takes that request's slot: `SwitchOverwritesIff`. By
  `RequestLeavesIff` this and the slot just mentioned are the only ways in which a request is lost
  to one that does not ask for the same thing.
- A response with the wrong code is not cleared, so that every later pass counts it again. One such
  response removes its request in four passes: `StaleResponseSpendsResends`, `RefusedOnce`. The
  request is repeated in between only if a sync frame comes between two passes.
- Stuffing covers the whole buffer, destuffing starts at the fifth byte, and the header's 0xFE is
  therefore still escaped in a frame read back by the same code.
- A checksum of 0xFB or more is destuffed to 0x81..0x85.
- A DHCP pad option, one byte long in section 3.1 of RFC 2132, is skipped as if it had a length. Two
  pads read as one empty option and do no harm; an odd run hides the option behind it. Every option
  is found at its own place if and only if all runs of pads are even: `PadRunsDecide`. An odd run in
  front of the end mark hides the mark, and the search goes on in the memory 256 bytes behind it:
  `NeverFoundIff`.
- A DHCP client whose MAC is all zero is indistinguishable from a free slot.
- The size limit of the flash store is per sector range: a value of up to 4097 bytes is accepted
  everywhere, a larger one depending on where it lies.
- A body longer than 32 frames is cut off silently, and a send that fails while the body is streamed
  out is not noticed: `ResponseOnWire` says exactly when a response arrives.
- `send_data` counts retries for refused writes only. While the network accepts writes without having
  space, it goes on for ever; `WaitsIff` says exactly when it has not ended.
- `res_write_body` on a buffer without a free byte, and `res_add_header` with a key that does not fit,
  cut a view behind its end and abort.
- Fields of an Authorization header are split at every comma, also inside a quoted value, where
  section 3.4 of RFC 7616 allows one: `ParamsAreReadIff`.

## Model

| member | source | states |
|---|---|---|
| StaticTypes.StaticVector.Push | include/static_types.h:71 | a push appends exactly when there is room and otherwise changes nothing |
| StaticTypes.StaticVector.Pop | include/static_types.h:73 | the size drops by one, not below zero, and the result is the slot just past the end |
| StaticTypes.StaticVector.Resize | include/static_types.h:77 | only sizes from 0 to the capacity are taken |
| StaticTypes.StaticVector.RemoveIf | include/static_types.h:75 | as multisets, the elements not satisfying the predicate stay and the others end up behind the new end; the predicate sees each element once, from the last to the first |
| StaticTypes.StaticRingBuffer.Push | include/static_types.h:112-116 | the buffer stands for the last N pushed values, also when begin and end coincide |
| StaticTypes.StaticRingBuffer.Iterate | include/static_types.h:122-132 | range iteration visits exactly the last min(n, N) values in order |
| StaticTypes.StaticRingBuffer.Back | include/static_types.h:107 | the newest value, none when empty |
| StaticTypes.ReplayRing | include/static_types.h:102-133 | after any sequence of pushes and clears, iteration, `size`, `empty` and `back` agree with the list of values pushed since the last clear |
| StaticTypes.Appended | include/static_types.h:22-26 | appending never passes the capacity, keeps what is there, and adds the longest part of the new text that fits |
| VEBusCodec.StuffLength | src/ve_bus.cpp:537-542 | the escaped form is longer by exactly the bytes from 0xFA up |
| VEBusCodec.StuffHasNoEnd | src/ve_bus.cpp:547-555 | an escaped string never contains 0xFF |
| VEBusCodec.DestuffStuff | src/ve_bus.cpp:535-579 | destuffing undoes stuffing for every byte string, whatever follows it |
| VEBusCodec.FrameRoundTrip | src/ve_bus.cpp:558-600 | behind any four byte header the payload comes back intact and the checksum with its width, for all payloads and checksums including FA FF |
| VEBusCodec.ChecksumSurvivesIff | src/ve_bus.cpp:589-597 | the checksum's value comes back exactly when it is below 0xFB |
| VEBusCodec.WireFrameSumsToZero | src/ve_bus.cpp:581-600 | from the third byte through the end mark every transmitted frame sums to 0 modulo 256, escaped checksum or not |
| VEBusCodec.WireFrameEndsOnce | src/ve_bus.cpp:955-963 | 0xFF occurs in a transmitted frame once, as its last byte |
| VEBusCodec.WireFrameShape | src/ve_bus.cpp:442-454 | the header's 0xFE is sent as FA 7E, everything behind it escaped byte by byte |
| VEBusCodec.WireFrameReceived | src/ve_bus.cpp:558-579 | the code's own destuffing of a whole frame recovers frame number and request and leaves the header's escape in place |
| VEBusCodec.WireFrameFits | src/ve_bus.cpp:955-963 | a request of up to 60 bytes fits the 128-byte buffer with every byte escaped |
| VEBusCodec.PrepareCommand | src/ve_bus.cpp:442-454 | the four header bytes go in front of the shifted contents, or nothing changes if they do not fit |
| VEBusCodec.StuffingFAtoFF | src/ve_bus.cpp:535-556 | the backward in-place pass equals the pure escape map, and leaves the buffer alone when the result would not fit |
| VEBusCodec.DestuffingFAtoFF | src/ve_bus.cpp:558-579 | the forward in-place pass equals the pure unescape function from the fifth byte on; a last 0xFA without a second byte is dropped or kept by the byte behind the contents |
| VEBusCodec.AppendChecksum | src/ve_bus.cpp:581-600 | checksum and end mark are appended as far as they fit; buffers below two bytes are left alone |
| VEBusCodec.SendData | src/ve_bus.cpp:955-970 | the bytes written are the request's wire frame exactly when that frame fits the buffer, and what they are otherwise |
| VEBusCodec.SentByte | src/ve_bus.cpp:547-555 | a byte from 0xFA up is sent as 0xFA and the byte less 0x80, any other as it is |
| VEBusFraming.FeedConcat | src/ve_bus.cpp:911-918 | reception does not depend on where the byte stream is cut |
| VEBusFraming.FeedSegments | src/ve_bus.cpp:911-929 | the frames dispatched are the 0xFF-ended segments of the stream in order, those over 128 bytes by their tail of ((L-1) mod 128)+1 bytes |
| VEBusFraming.StreamSplits | src/ve_bus.cpp:911-920 | every byte stream is such a list of segments and an open rest |
| VEBusFraming.ShortFramesAreReceived | src/ve_bus.cpp:911-929 | frames of at most 128 bytes, back to back, are received one by one, byte for byte |
| VEBusFraming.SentFramesAreReceived | src/ve_bus.cpp:897-970 | frames sent back to back are received one by one, byte for byte |
| VEBusQueue.TimeoutPassJudgesEachOnce | src/ve_bus.cpp:1159-1185 | as a multiset, one timeout pass keeps fresh entries, bumps timed-out ones and drops exhausted ones, each judged once although removal moves entries |
| VEBusQueue.ElapsedIsTrueTime | src/ve_bus.cpp:1170 | the 32-bit difference is the true elapsed time below 2^32 ms |
| VEBusProtocol.SafeOverAllRuns | src/ve_bus.cpp:385-1185 | over every interleaving: at most 16 entries, no shared key, distinct ids from 0x80 up carried by the request bytes, at most 3 resends and 4 transmissions per entry, no more transmissions than sync frames, complete frames only, and completions only with the right id and code |
| VEBusProtocol.SentIsReceived | src/ve_bus.cpp:911-970 | whatever the run, a receiver of the same kind takes the bytes sent apart into exactly the frames sent |
| VEBusProtocol.SelectionRecovers | src/ve_bus.cpp:415-440 | of any 17 id selections in a run from a reachable state, whatever the other tasks do between them, one succeeds with an unused id from 0x80 up |
| VEBusProtocol.NextKeepsInv | src/ve_bus.cpp:931-951 | every step of every task keeps the invariant behind these claims |
| VEBusProtocol.TimeoutKeepsInv | src/ve_bus.cpp:1159-1185 | the timeout pass keeps the invariant and introduces no id |
| VEBusProtocol.CheckResponseKeepsInv | src/ve_bus.cpp:972-1007 | handling a response keeps the invariant, and what is handed on carries its id and the code it expects |
| VEBusProtocol.ResponseRemovesItsEntryIff | src/ve_bus.cpp:982-993 | a handled response removes its own entry and no other exactly when that entry is not the last of several; otherwise slot 0 is lost and the entry stays |
| VEBusProgress.StepLowers | src/ve_bus.cpp:931-1185 | no step but its own replacement raises what remains to an entry, switch commands included, and each send, timeout or handled response lowers it |
| VEBusProgress.EntriesLeave | src/ve_bus.cpp:931-1185 | while any entry stays queued and is not replaced it is sent, timed out or answered at most eight times, in any run |
| VEBusFate.RequestLeavesIff | src/ve_bus.cpp:385-1185 | in every reachable state and for every step, an entry leaves, or only a newer one with its key remains, exactly for one of the listed reasons; otherwise its request is still queued byte for byte |
| VEBusFate.InsertedIff | src/ve_bus.cpp:385-411 | a request or switch command is queued, unsent and unanswered, exactly when its key is queued already or there is room; otherwise it is dropped and nothing changes |
| VEBusFate.SwitchOverwritesIff | src/ve_bus.cpp:271-278 | in every reachable state a switch command throws a pending request out exactly when the command and address it leaves unset happen to be that request's |
| VEBusRequests.RequestSaysWhatWasAsked | src/ve_bus.cpp:456-521 | a reader that knows only the command codes finds in the bytes of every request the id, what is asked, which variable or setting, the value low byte first (a power as a signed number) and whether EEPROM is written |
| VEBusRequests.RequestKeysAndCodes | src/ve_bus.cpp:122-384 | command, address and expected response code of every kind of request |
| VEBusRequests.RequestArrives | src/ve_bus.cpp:442-600 | the request is in the destuffed frame, between frame number and checksum, unchanged |
| VEBusRequests.RequestIsQueued | src/ve_bus.cpp:385-411 | a request is queued as new, under its id and with the time of the call, when its command and address are queued already or there are fewer than 16 entries |
| VEBusRequests.SwitchIsQueued | src/ve_bus.cpp:271-278 | so is a switch command, with the state it switches to and no id |
| VEBusRequests.ChoiceIsNextId | src/ve_bus.cpp:415-440 | which id a selection takes, and where a failing one goes on |
| VEBusTraffic.SyncIsAnswered | src/ve_bus.cpp:925-950 | a sync frame with number n is answered by exactly one frame 98 F7 FA 7E with the number after n that carries the first unsent request, which is then marked sent or gone |
| VEBusTraffic.SentOnlyOnSync | src/ve_bus.cpp:925-950 | nothing is sent but in answer to a sync frame with a request waiting, and without one a sync frame changes nothing |
| VEBusTraffic.ReplyIsStored | src/ve_bus.cpp:676-698 | a frame 83 83 FE n 00 id is stored in the first entry with that id, and nothing else changes |
| VEBusTraffic.OthersChangeNothing | src/ve_bus.cpp:676-698 | any other frame is without effect on the queue |
| VEBusTraffic.ResponseIsHandled | src/ve_bus.cpp:972-1007 | the last stored response is handed on if its seventh byte is the expected code; otherwise the request is marked to be sent again, three times in all, and then removed |
| VEBusTraffic.NoResponseNoChange | src/ve_bus.cpp:972-1007 | a pass over a queue without responses changes nothing |
| VEBusTraffic.ReplyIsDelivered | src/ve_bus.cpp:676-1007 | in every reachable state a reply with the id and code of a queued request is handed on by the next pass, for every frame number and payload, unless a later entry holds a response too |
| VEBusRetry.TimeoutJudges | src/ve_bus.cpp:1159-1185 | in every reachable state a pass leaves an entry alone for 10000 ms of the 32-bit clock, then marks it unsent with one more resend and the time of the marking, three times in all, and then removes it |
| VEBusRetry.UnsentGoesOut | src/ve_bus.cpp:925-950 | in every reachable state a request not sent yet is sent over the frames received next, if 16 of them are sync frames, and is recorded as sent once |
| VEBusRetry.AskedIsHeard | src/ve_bus.cpp:122-970 | from the call to the line: what the other side reads from that frame is what was asked |
| VEBusRetry.TimedOutGoesOutAgain | src/ve_bus.cpp:937-1185 | a request whose time is up and that has resends left is sent once more over such frames |
| VEBusRetry.RefusedGoesOutAgain | src/ve_bus.cpp:937-1007 | so is a request whose response had the wrong code |
| VEBusStale.StaleResponseSpendsResends | src/ve_bus.cpp:991-1002 | over any stretch of any run in which a request with a wrong response stays, is not replaced and gets no new one, each pass that finds it spends a resend or moves the request to slot 0, at most four passes find it, and it is sent no more often than sync frames come |
| VEBusStale.OneWrongResponseRemoves | src/ve_bus.cpp:991-1002 | in every reachable state one wrong response empties a slot in as many passes as its request has resends left and one more, with nothing sent or handed on in between |
| VEBusRuns.AnsweredTwice | src/ve_bus.cpp:982-989 | a run from the empty queue, with frames that arrive on the line and both requests sent, in which one request is lost and the other handed on twice |
| VEBusRuns.RefusedOnce | src/ve_bus.cpp:991-1002 | a run from the empty queue, with frames that arrive on the line, in which one refusal removes a request in four passes although it was sent only once |
| VEBusRuns.SelectionFailsWithFreeIds | src/ve_bus.cpp:413-440 | a run from the empty queue after which an id selection fails with 126 of 128 ids free |
| VEBusRuns.SwitchOverwritesARead | src/ve_bus.cpp:271-278 | a run from the empty queue in which a read request is lost to a switch command without having been sent |
| VEBusDriver.VEBus.GetNextFreeId | src/ve_bus.cpp:415-440 | the loop takes the state machine through its id step and succeeds exactly when the id after the last one is free |
| VEBusDriver.VEBus.AddOrUpdateFifo | src/ve_bus.cpp:385-411 | the entry with the request's key is replaced, otherwise the request is appended if there is room |
| VEBusDriver.VEBus.Submit | src/ve_bus.cpp:122-269 | every request call ends in the insertion step for the id it chose |
| VEBusDriver.VEBus.SetSwitch | src/ve_bus.cpp:271-278 | a switch command is inserted with id 0, expecting no response, under an arbitrary key |
| VEBusDriver.VEBus.CheckResponseMessage | src/ve_bus.cpp:972-1008 | one pass is exactly the response step: at most the last stored response is handled |
| VEBusDriver.VEBus.CheckResponseTimeout | src/ve_bus.cpp:1159-1185 | the backward loop over the array is exactly the timeout step |
| VEBusDriver.VEBus.DecodeFrame | src/ve_bus.cpp:676-698 | a response is stored in the first entry with its id, and nothing else changes |
| VEBusDriver.VEBus.TransmitOne | src/ve_bus.cpp:937-949 | the first unsent entry is sent as its wire frame, and removed if it expects no response |
| VEBusDriver.VEBus.CommandHandling | src/ve_bus.cpp:897-953 | one call consumes the bytes up to the first end mark, dispatches what byte-by-byte reception dispatches, and takes the state machine through the receive step for the destuffed frame |
| VEBusDriver.VEBus.CommunicationTask | src/ve_bus.cpp:56-62 | for bytes arriving in any batches, what is dispatched depends only on their concatenation |
| VEBusDriver.ReceiveFrames | src/ve_bus.cpp:897-970 | a fresh link dispatches frames sent back to back one by one and unchanged, in whatever batches their bytes arrive |
| FlashStore.PersistentStorage.Write | include/persistent_storage.h:76-91 | a write that returns OK changes exactly the member's bytes; a rejected one or one whose erase does not run changes nothing; one whose program does not run leaves the touched sectors erased |
| FlashStore.PersistentStorage.WriteArrayRange | include/persistent_storage.h:94-117 | the same for a range of elements, with the bounds errors and the empty range |
| FlashStore.PersistentStorage.WriteImpl | include/persistent_storage.h:154-170 | the read-modify-write of whole sectors has that effect over flash in which programming only clears bits |
| FlashStore.AlwaysAcceptedIff | include/persistent_storage.h:79-86 | a size is accepted at every place exactly when it is at most 4097 bytes |
| FlashStore.StoreRefinesRecord | include/persistent_storage.h:58-170 | any sequence of member and array range writes, accepted, rejected or broken off at the erase or the program, acts like assignments to parts of a record with independent members; a program that does not run loses exactly the bytes in the sectors it touches; the flash in front of the store keeps its bytes unless that happens |
| FlashStore.ReplayStore | include/persistent_storage.h:76-135 | after any such sequence of calls on the store, reading every member returns the values of that record |
| FlashStore.RangeWritesElements | include/persistent_storage.h:94-117 | after a range write that succeeds the elements of the range are the ones written, one by one, and all other elements are as before |
| DhcpLeases.ExpiryIsExact | src/dhcpserver.c:230-231 | the 16-bit expiry fires exactly after a deadline at most 65535 ms past the 24 hours, for 2^31 ms |
| DhcpLeases.ExpiryByTurns | src/dhcpserver.c:230-231 | at every time, an expiry counts as passed exactly when the time left until the deadline, modulo 2^32, is negative as a signed number |
| DhcpLeases.ExpiryWindowIsTight | src/dhcpserver.c:230-231 | one millisecond past that window an expired lease counts as running again |
| DhcpLeases.DiscoverOnlyFreesExpired | src/dhcpserver.c:215-244 | a DISCOVER changes at most one slot, an expired one of another client, and only by freeing it |
| DhcpLeases.NoDoubleAllocation | src/dhcpserver.c:213-278 | once a client with a non-zero MAC is acknowledged an address, no other client is acknowledged or offered it within 24 hours, for all tables and events on a clock that does not run backwards |
| DhcpLeases.ZeroMacIsNotProtected | src/dhcpserver.c:261-263 | the all-zero MAC is why the MAC has to be non-zero |
| DhcpOptions.FindIsLookup | src/dhcpserver.c:146-154 | on option lists without pad bytes the search finds exactly the first option with the code, and its value |
| DhcpOptions.PadRunsDecide | src/dhcpserver.c:146-154 | with distinct codes, every option is found at its own place exactly when each run of pad bytes in front of an option has even length |
| DhcpOptions.AbsentIsSearched | src/dhcpserver.c:146-154 | a code that no option has is not found, unless an odd pad run sends the search to a place where it stands |
| DhcpOptions.NeverFoundIff | src/dhcpserver.c:146-154 | with even pad runs in front of the options, no memory behind the end mark makes an absent code be found exactly when the run in front of the end mark is even too or the end mark stands in the last 256 bytes of the area |
| DhcpOptions.LonePadHides | src/dhcpserver.c:146-154 | an option directly behind a lone pad is never found at its place, whatever follows |
| DhcpOptions.PadHidesTheNextOption | src/dhcpserver.c:146-154 | a legal option area in which a single pad byte makes the search miss the message type |
| DhcpOptions.OptWriteN | src/dhcpserver.c:156-162 | code, length and value are written behind what is there and nothing else changes |
| DhcpOptions.OptWriteU32 | src/dhcpserver.c:172-181 | a 32-bit value is written highest byte first |
| DhcpServer.Server.Discover | src/dhcpserver.c:215-244 | the loop picks the client's own slot, else the least free or expired one, and changes the table as the lease step says |
| DhcpServer.Server.Request | src/dhcpserver.c:256-271 | a request is granted exactly on the client's own or a free slot |
| DhcpServer.Server.Process | src/dhcpserver.c:183-295 | a message is ignored or takes exactly one lease step, and the reply names the slot of that step |
| DhcpServer.ReplyReadsBack | src/dhcpserver.c:284-289 | the server's own search finds in every reply exactly the six options written, with their values |
| DhcpMessages.ReplySaysOptions | src/dhcpserver.c:284-289 | the 34 option bytes of an answer: its kind, the server as server id, router and name server, the mask, 24 hours in seconds highest byte first, and the end mark |
| DhcpMessages.OthersAreIgnored | src/dhcpserver.c:189-211 | a message below 243 bytes, without a message type or with another one than DISCOVER or REQUEST changes nothing and gets no answer |
| DhcpMessages.DiscoverIsOffered | src/dhcpserver.c:213-246 | a DISCOVER is offered the address 16 + n of its own slot n, else of the first free or expired one, which is then free for it |
| DhcpMessages.DiscoverIsIgnored | src/dhcpserver.c:213-240 | without such a slot it is ignored |
| DhcpMessages.RequestIsAcked | src/dhcpserver.c:248-278 | a REQUEST is acknowledged, with exactly the address it asks for, if and only if that is one of the eight and its slot is the client's own or free; it is then the client's for 24 hours, renewals included, and no other slot changes |
| DhcpMessages.OfferedIsGranted | src/dhcpserver.c:213-278 | an address offered to a client and asked for by it with nothing in between is acknowledged as that address |
| DhcpMessages.NoAddressTwice | src/dhcpserver.c:183-295 | over any messages on a clock that does not run backwards, an address acknowledged to a client with a non-zero MAC is neither acknowledged nor offered to another one within 24 hours |
| StringUtil.StringView.ExtractWord | include/string_util.h:7-22 | the word and the remaining view of an extraction |
| StringUtil.StringView.ExtractUntilNewline | include/string_util.h:24-38 | the line and the remaining view |
| StringUtil.StringView.ExtractNewline | include/string_util.h:41-48 | a newline is removed exactly when the view starts with CR LF |
| StringUtil.WordIsToken | include/string_util.h:7-22 | a token comes out whole, the delimiters behind it go with it |
| StringUtil.DelimitersInFront | include/string_util.h:7-22 | delimiters in front of a token are skipped |
| StringUtil.Word | include/string_util.h:7-22 | a non-empty word strictly shortens the view |
| HttpRequest.UpdateStructuredViews | include/tcp_server/tcp_server.h:272-298 | the extraction loop computes the parse of the whole buffer, on any input |
| HttpRequest.ParseRecovers | include/tcp_server/tcp_server.h:272-298 | every well-formed request is recovered: request line, the first 32 headers in order, the exact body |
| HttpResponse.WaitsIff | include/tcp_server/tcp_server.h:478-499 | after any answers of the network the send loop is still going exactly when every flush succeeded, fewer than ten writes were refused and the accepted writes had less space than the data needs |
| HttpResponse.SentIff | include/tcp_server/tcp_server.h:478-499 | everything is sent exactly when some first answers give enough space before a flush fails or the last write is refused |
| HttpResponse.DeliveryEnds | include/tcp_server/tcp_server.h:478-499 | so the send loop ends within \|data\| + 9 iterations if each reports space for a byte |
| HttpResponse.NoSpaceNeverEnds | include/tcp_server/tcp_server.h:480-492 | without space it neither ends nor fails, however long it runs |
| HttpResponse.Connection.SendData | include/tcp_server/tcp_server.h:478-500 | the bytes accepted are a prefix of the data, all of it on success |
| HttpResponse.StreamConserves | include/tcp_server/tcp_server.h:354-370 | frames, buffer and unreached rest together are the old buffer and the body, and the rest is exactly what exceeds 32 rounds |
| HttpResponse.MessageBuffer.SetStatusLine | include/tcp_server/tcp_server.h:301-325 | the buffer restarts with the status line |
| HttpResponse.MessageBuffer.AddHeader | include/tcp_server/tcp_server.h:328-346 | the header line is appended as far as it fits and stored while there is room in the table; it aborts exactly when key and colon do not fit |
| HttpResponse.MessageBuffer.WriteBody | include/tcp_server/tcp_server.h:349-372 | the loop sends and buffers what streaming says, with the empty line in front of the first body; it aborts exactly when there is a body and no free byte for it |
| HttpDelivery.OnWireIff | include/tcp_server/tcp_server.h:478-500 | on any network, frames are on the wire complete and in order exactly when every byte was accepted, and otherwise the wire has fewer bytes |
| HttpDelivery.PiecesConserve | include/tcp_server/tcp_server.h:349-372 | over any body pieces, the frames streamed out, the buffer and what was cut off have as many bytes as was written, and if nothing was cut off they are what was written |
| HttpDelivery.NoneIsCutIff | include/tcp_server/tcp_server.h:354-370 | nothing is cut off exactly when every piece fits 32 frames less what is in the buffer |
| HttpDelivery.ResponseOnWire | include/tcp_server/tcp_server.h:301-475 | for any response and any answers of the network, refused and repeated writes included, the client gets exactly status line, headers, empty line and all body pieces if and only if the head fits the buffer, no piece is cut and every byte is accepted |
| HttpDelivery.CapableArrives | include/tcp_server/tcp_server.h:478-499 | this is so for a head that fits and pieces of up to 31 frames if every flush succeeds, fewer than ten writes are refused in all and there are enough answers with space |
| DigestAuth.HexIsInjective | include/crypto_storage.h:160-166 | comparing hex forms compares the digests |
| DigestAuth.ExpandBoth | include/crypto_storage.h:134-142 | the two overlapping backward loops leave the true hex forms of both digests |
| DigestAuth.CheckFields | include/crypto_storage.h:73-110 | the field loop stores the fields in order and rejects a wrong realm, qop or algorithm |
| DigestAuth.EqualsHex | include/crypto_storage.h:160-166 | the comparison loop accepts exactly the lowercase hex of the digest |
| DigestAuth.CheckAuthorization | include/crypto_storage.h:58-168 | the user name is returned exactly when the response is the hex digest over hex(H(A1)), nonce, nc, cnonce, qop and hex(H(A2)) of the parsed fields |
| DigestAuth.ParamsAreReadIff | include/crypto_storage.h:67-110 | of any number of written parameters, quoted or not, the first 20 are read back in order exactly when none of their values contains a comma |
| DigestAuth.CommaCutsValue | include/crypto_storage.h:67-110 | a value with a comma, quoted or not, is stored cut off in front of it |
| DigestFields.WrittenFields | include/crypto_storage.h:67-110 | for a header written from parameters of which the first 20 have no commas, each of the six fields is the value of the last parameter with its key or empty, and the header is refused exactly when one names another realm, qop or algorithm |
| DigestFields.WrittenHeaderIsChecked | include/crypto_storage.h:58-168 | such a header is accepted exactly when nothing in it is foreign and its response is the digest of section 3.4.1 of RFC 7616 over the values it names |
| DigestFields.CheckWritten | include/crypto_storage.h:58-168 | the check returns the user named in such a header or nothing |
| DigestFields.KeysAreTrimmed | include/crypto_storage.h:76-78 | blanks around a key are dropped and those inside it stay |
| DigestFields.HexReads | include/crypto_storage.h:134-142 | two lowercase hex digits for each octet, the higher one first |

## Left out

- Semaphores: the result of `xSemaphoreTake` is not checked in the source; each critical section is taken to be atomic, and so is the unlocked scan of the id selection.
- More than one requester: only one task issues requests, so the model has one.
- The received frames kept for `receive_cb`, the AC, DC, battery and LED decoders and the value conversions: copies of fields and floating-point arithmetic.
- Values given as `float`: a request takes the 16-bit value, without the conversion in front of it. (For a setting the source converts and checks such a value and then writes 0.)
- The availability and range checks in front of `WriteViaID`: they decide whether a request is made, not what happens to it.
- VEBusCodec.DestuffingFAtoFF: asks that a full buffer does not end in an escape without its second byte, because the source then reads past its storage; a received frame ends in 0xFF.
- VEBusCodec.EscapeCode: the bit operations of the escape byte are written as arithmetic on the low nibble.
- The signedness of `char` when received bytes are compared with 0xFF: taken as unsigned, as on the target.
- Power loss in the middle of an erase or a program; between the two it leaves the flash as a program that does not run.
- FlashStore.PersistentStorage.FlashRangeErase: the SDK's erase and program commands are modelled by their effect on NOR flash.
- DhcpServer.Server.Process: memory behind the message is part of the option array, because the source reads a few bytes past a truncated last option; UDP and pbuf handling are left out.
- HttpResponse.MessageBuffer.WriteBody: keeps the body view by its offsets only.
- DigestFields.WrittenHeaderIsChecked: says nothing about headers with a comma in one of the first 20 values; `ParamsAreReadIff` says that these are not read as written.
- Endpoint matching, buffer and connection slots, lwIP callbacks, the DNS server, NTP, Wi-Fi and USB handling, and the settings' JSON form.
- SHA-256 itself: any function to 32 octets.
