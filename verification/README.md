# koha-rfid: a verified model

`koha-rfid` connects a library's circulation desk to a 3M 810 RFID reader. A Go server talks to
the reader over a serial line and offers scanning, programming and AFI writes; a script in the
Koha staff pages polls the server, submits Koha's forms for the books on the reader and asks for
AFI bytes to be written afterwards. This project models the parts whose correctness is not
visible in any one function and proves what they promise together.

## What is modelled

**The page script's map of barcodes** (`AfiMap`, `PageScript`, `AfiForms`, `AfiRuns`, `AfiFate`,
`AfiBatch`, `AfiEdges`, `Runs`). `PageScript` is the script in its own form: a class that changes the stored
map step by step, with the loops, early returns and the recursive call of the original. Its
methods are proved against the functions of `AfiMap`, a decision table from entry, tag and page
to an action; `AfiForms` says without that table, in terms of the page, the tags and the entries alone,
exactly when each form is submitted, each write requested, and what is left in the map. `AfiRuns`
lets scans, answers, page loads and resets follow each other in any order and proves one invariant
about every key of the map, the requests in flight and the history of everything done. From it
follow the distance of two submissions of a barcode, the origin of every AFI write, the fate of every
pending write, and that a checkout is not repeated. `AfiBatch` proves that a pile of returned books is processed to the end, as a continuation of such a run: every form
that is submitted is followed by the page load that it brings, with the clean-up of old entries.

Times are natural numbers with 0 for a time that is not set, which the script cannot tell apart
either. One clock reading serves a whole scan, clocks never run backwards and are positive, and
one page is live at a time. A submitted form leaves the page at once, and with it the answers to
write requests that were still to come: `rfid_afi_clear_pending` does not look at which write was
answered, and without this assumption a late answer could clear a newer write.

**The serial link** (`Crc16`, `Framing`, `Probe`, `Device`, `Reader`). A 16-bit word is the sequence of
its bits; `Probe` checks polynomial, initial value and byte order against the one frame that the program
spells out. The port is a script of arrivals, fixed by the environment, that delivers bytes in
pieces of any size with pauses in between. `Device` is the far end: the tags on the pad, what the
reader does with a command, and the faults, per command: refused, lost, answered but the answer
lost or damaged within sixteen bits, answered with blocks left out, acknowledged but not stored.
Every command of the driver really travels as a frame: it is framed, taken apart at the far end,
and its response is framed, perhaps damaged, cut into pieces, reassembled and checked. What the
device answers is known only from what the driver accepts.

**Tags and operations** (`Hex`, `Rfid501`, `Ops`, `RoundTrip`). The codec works in a 32-byte
buffer; numbers are cut to their fields as Go's shifts and conversions cut them. Scanning,
programming and securing run under a mutex whose `Lock` must not be called while it is held, so
that the absence of a second lock on the reset path is checked at every call. A method of the
driver or of `Ops` is proved to compute a function of the line's state and of the environment's
faults, and what it promises is proved about that function.

**Concurrency, resets, the scanner** (`Serialization`, `Calls`, `Overlap`, `ResetCounter`, `Server`,
`ScanLoop`). Concurrent calls are interleaved step by step on one line. A call is a talk: a request
to the line and how to go on from each answer, until it returns. `Calls` writes scanning,
programming and securing as talks, opening the port again being one of their requests, and shows
that each does alone what its method in `Ops` does, fault by fault. `Server` has the handler alone on
the reader; `Overlap` has what becomes of the failure counter when requests overlap.

## Where the documents and the code differ

The model follows the code. `koha-workflow.md` describes an older storage scheme.
`docs/lessons-learned.md:296-300` quotes a condition with `!checkout_active` that
`koha-rfid.js:493` does not contain; a book whose entry already says DA is therefore not checked
out again until its tag was read with another byte or its entry is gone (`AfiFate.CheckoutOnce`).
`README.md` speaks of block writes retried up to ten times; the code writes once and reads back
up to ten times. The dedup guard asks for more than ten seconds, but a sweep may drop the entry
at ten seconds sharp, so ten seconds is the exact distance (`AfiEdges.TenSecondsIsExact`). With
the renew tab and the checkout tab open at once a matched book is checked out again
(`AfiFate.RepeatedCheckoutExact`, `AfiEdges.TwoTabsCheckOutTwice`). A "blank" write clears the
reported content exactly on tags of at least six blocks (`RoundTrip.ProgrammedReads`). A block
write of more than eight blocks never reports success, as no more are read back
(`Reader.FaithfulWriteExact`). Every form submitted loads a page, and every page load drops entries
untouched for an hour; a pile of returned books is therefore only sure to be processed if it is
polled often enough (`AfiBatch.PileIsProcessed`, `AfiBatch.HourIsNeeded`).

Each try of a `/scan/` request takes the mutex anew, and requests run concurrently. A 504 has
certainly attempted a reset of the port only if no other request's scan succeeded between its tries:
each success sets the failure counter back (`Overlap.UnbrokenTimeout`, `Overlap.OverlappedTimeout`).

## Model

| member | source | states |
|---|---|---|
| Crc16.BuildTable | internal/rfid/reader.go:27-41 | every table entry is what its index is worth at the top of the register after eight division steps |
| Crc16.ManySteps | internal/rfid/reader.go:30-39 | the inner loop performs the division steps one by one |
| Crc16.TableStep | internal/rfid/reader.go:45-47 | one table look-up equals feeding the eight bits of the byte |
| Crc16.Compute | internal/rfid/reader.go:43-50 | the table-driven checksum equals the bit-at-a-time remainder for every byte sequence |
| Crc16.RegisterLinear | internal/rfid/reader.go:43-50 | the register is linear in start value and message |
| Crc16.ShiftInvertible | internal/rfid/reader.go:29-38 | a division step sends only zero to zero |
| Crc16.Residue | internal/rfid/reader.go:159-170 | the checksum test passes exactly when the register over message and trailer ends at one constant |
| Crc16.BurstDetected | internal/rfid/reader.go:159-170 | a change confined to sixteen consecutive bits of payload and trailer is accepted only if it is no change |
| Framing.Port.Read | internal/rfid/reader.go:129-135 | a read delivers the next bytes in order, possibly none, or an error |
| Framing.Port.ReadFull | internal/rfid/reader.go:126-135 | whatever the pieces, exactly the next bytes of the stream, or an error when they never arrive |
| Framing.Port.ReadResponse | internal/rfid/reader.go:125-177 | the response is the first frame of the stream and the rest of the stream is left in place, for every chunking |
| Framing.UnframeFrame | internal/rfid/reader.go:104-114 | a framed payload is taken off the stream whole, whatever follows it |
| Framing.FramingExact | internal/rfid/reader.go:104-114 | a framed payload is read back exactly when it fits the 16-bit length |
| Framing.FramesRoundTrip | internal/rfid/reader.go:98-177 | taking frames off a stream one by one returns any sequence of payloads in order, with nothing left |
| Framing.ReceiveAll | internal/rfid/reader.go:98-177 | frames sent one after the other, arriving in pieces of any size with any pauses, are received by repeated reads as exactly the payloads sent |
| Framing.CorruptionDetected | internal/rfid/reader.go:159-170 | a frame damaged within sixteen bits behind its length is an error, and the next frame starts where it should |
| Probe.ProbeChecksum | internal/rfid/reader.go:27-50 | the checksum of 00 05 04 00 11 is 8C66, which fixes polynomial, initial value, final inversion and bit order |
| Probe.ProbeUnframes | internal/rfid/reader.go:235-236 | the probe as the program spells it out is a whole frame with a right checksum |
| Probe.ProbeFrame | internal/rfid/reader.go:104-114 | the probe goes out as it is; framed like any other command its payload gives the same bytes but for the prefix |
| Hex.DecodeEncode | internal/rfid/reader.go:281-281 | hexadecimal text decodes to the bytes it was made of |
| Hex.DecodeUpper | internal/rfidops/ops.go:117-117 | a tag number in upper case names the same tag |
| Device.InventoryExchange | internal/rfid/reader.go:255-282 | the inventory response lists the tags on the pad |
| Device.ReadAfiExchange | internal/rfid/reader.go:434-447 | a response that is no refusal carries the tag's AFI byte |
| Device.WriteAfiExchange | internal/rfid/reader.go:455-500 | a write changes nothing but the one tag's AFI byte, or nothing at all |
| Device.ReadBlocksExchange | internal/rfid/reader.go:332-358 | a response that is no refusal lists the tag's own blocks, perhaps not all |
| Device.WriteBlocksExchange | internal/rfid/reader.go:375-388 | an acknowledged write stored all or some of its blocks and nothing else |
| Device.LongWriteRefused | internal/rfid/reader.go:375-376 | a write whose block count needs two bytes changes the layout of the command and is refused |
| Device.ReadBackProves | internal/rfid/reader.go:390-420 | reading every block back as written shows that none was missed |
| Reader.WireCarries | internal/rfid/reader.go:98-177 | the line delivers exactly the response, or an error if it was damaged or lost, with nothing left over |
| Reader.Reader.constructor | internal/rfid/reader.go:61-89 | a new reader has a filled table, no failures and an unlocked mutex |
| Reader.Reader.SendFrame | internal/rfid/reader.go:96-122 | a command reaches the far end, which acts on it and answers as its fault allows; nothing passes a closed port |
| Reader.Reader.Exchange | internal/rfid/reader.go:333-340 | sending a command and reading its response is one exchange with the device |
| Reader.Reader.Inventory | internal/rfid/reader.go:254-284 | the method does what its specification function does; a success returns exactly the tags on the pad, and without a fault it succeeds |
| Reader.InventoryReads | internal/rfid/reader.go:254-284 | for every fault an inventory changes no tag, succeeds exactly if its command is answered, and then lists exactly the tags on the pad |
| Reader.Reader.ReadAfi | internal/rfid/reader.go:429-448 | a success returns the tag's AFI byte; a malformed number sends nothing |
| Reader.Reader.ReadBlocks | internal/rfid/reader.go:327-360 | a success returns exactly the requested blocks that the response listed, with the tag's contents |
| Reader.ReadBlocksReads | internal/rfid/reader.go:327-360 | for every fault a block read changes no tag, and a success is the tag's own blocks, all of those not left out by the response |
| Reader.ReplyParsed | internal/rfid/reader.go:344-359 | a read response is parsed into exactly the blocks that it lists |
| Reader.ParseBlocks | internal/rfid/reader.go:344-359 | the loop enters every whole block of the response at its number and stops at the first that is cut short |
| Reader.Reader.WriteBlocks | internal/rfid/reader.go:362-427 | success means that the zero-padded data, eight blocks at most, are in blocks 0 on and nothing else changed; failure leaves at most some of those blocks written; at most one write and ten read-backs are sent |
| Reader.WriteBlocksWrites | internal/rfid/reader.go:362-427 | the same promise for every fault, about the function that the method is proved to compute |
| Reader.FaithfulWriteExact | internal/rfid/reader.go:390-420 | without faults a write that fits the tag succeeds exactly if it is at most eight blocks, as no more are read back |
| Reader.VerifiesEventually | internal/rfid/reader.go:390-426 | a failed read-back is tried again: if the tag holds the data, any one faultless try among them is enough |
| Reader.WriteBlocksEventually | internal/rfid/reader.go:362-427 | a faultless write that fits succeeds whenever any one of the ten read-backs after it is faultless |
| Reader.AcceptedWriteTriesTen | internal/rfid/reader.go:384-426 | a write that was accepted fails only after exactly ten read-backs; one that was not has none |
| Reader.SendBlocks | internal/rfid/reader.go:375-388 | one write command: an accepted one stored all or some of the blocks, a faultless one of up to eight blocks is accepted and stores all |
| Reader.Reader.VerifyTen | internal/rfid/reader.go:390-426 | up to ten read-backs, stopping at the first match; that a failed one is followed by another is VerifiesEventually |
| Reader.VerifiesVerify | internal/rfid/reader.go:390-426 | success of the read-backs means that the first blocks are the data, failure that all were sent; the tag is not changed |
| Reader.Reader.Verify | internal/rfid/reader.go:393-420 | a match means that the first blocks of the tag are the data, and a faultless read-back of such data matches |
| Reader.CollectedLength | internal/rfid/reader.go:401-408 | a concatenation of a tag's own blocks has full length exactly if every block is present, and never more than eight blocks |
| Reader.CollectedBlocks | internal/rfid/reader.go:401-408 | with full length every block is present and in its place |
| Reader.ComparedBlocks | internal/rfid/reader.go:409-420 | comparing the concatenation compares the blocks one by one, none beyond the eighth |
| Reader.Reader.WriteAfi | internal/rfid/reader.go:450-506 | success means that the AFI byte is the requested one; in any case it is the old or the requested one, no other tag changes, and at most 100 writes and 100 read-backs are sent; giving up earlier needs an unexpected refusal |
| Reader.WriteAfiWrites | internal/rfid/reader.go:450-506 | for every fault and any number of rounds: the AFI byte is the requested one after a success, the old or the requested one in any case, and nothing else changed |
| Reader.WriteAfiEventually | internal/rfid/reader.go:450-506 | whatever goes wrong with fewer commands than there are rounds, short of a final refusal, is overcome by three faultless ones after them |
| Reader.Reader.TryAfi | internal/rfid/reader.go:458-500 | one round of writing and reading back; it gives up exactly at a final refusal |
| Reader.Reader.Lock | internal/rfid/reader.go:225-228 | the mutex is taken; it must be free |
| Reader.Reader.Unlock | internal/rfid/reader.go:230-232 | the mutex is released |
| Reader.Reader.Reset | internal/rfid/reader.go:179-184 | reopening the port from outside takes and releases the mutex |
| Reader.Reader.ResetLocked | internal/rfid/reader.go:186-223 | reopening the port with the mutex held; nothing stays to be read, and a port that cannot be opened stays closed |
| Reader.Reader.InventoryWithReset | internal/rfid/reader.go:286-325 | the counter and the reopenings follow the accounting rules for every outcome |
| Reader.InventoryWithResetReads | internal/rfid/reader.go:286-325 | with its recovery an inventory changes no tag; a success lists the tags on the pad with the port open |
| Reader.RecoveryExact | internal/rfid/reader.go:286-325 | the outcome, the counter and the port after an inventory with its recovery, exactly, by which of its commands are answered and whether the port can be reopened |
| Rfid501.Encode | internal/rfid/rfid501.go:158-189 | the blocks are the hexadecimal text of the tag's 32-byte layout |
| Rfid501.Fill | internal/rfid/rfid501.go:161-181 | the buffer is filled in place to the layout, zero elsewhere |
| Rfid501.EncodeContent | internal/rfid/rfid501.go:191-217 | the text holds set 1 of 1, no branch, library or custom number, the first 16 bytes of the barcode, and item type 1 exactly if it starts with 130 |
| Rfid501.ContentDecodes | internal/rfid/rfid501.go:191-217 | what the eight blocks of any barcode decode to, and its first block: 04 11 00 and the item type |
| Rfid501.DecodesFromSix | internal/rfid/rfid501.go:73-116 | whole blocks decode exactly if they are at least six; missing ones count as zero, those beyond the eighth do not matter |
| Rfid501.Blank | internal/rfid/rfid501.go:219-226 | a blank is three zero blocks |
| Rfid501.Decode | internal/rfid/rfid501.go:73-156 | decoding fails on a block that is not four bytes or on fewer than six blocks, otherwise reads the fields of the first 32 bytes |
| Rfid501.BlocksRoundTrip | internal/rfid/rfid501.go:73-92 | whole blocks as hexadecimal text are read back as they were |
| Rfid501.NormalForm | internal/rfid/rfid501.go:117-189 | decoding the hexadecimal blocks that encoding gives returns every field cut to its width, the content to 16 bytes and its first NUL |
| Rfid501.EncodeDecodeExact | internal/rfid/rfid501.go:117-189 | encoding what eight blocks decode to gives the same blocks exactly if they are in canonical form |
| Ops.MakeBlockHexes | internal/rfidops/ops.go:202-210 | as many texts as blocks, each at its number, empty where a number is missing |
| Ops.NoShift | internal/rfidops/ops.go:77-86 | if the blocks decode they are numbered 0, 1, 2, ... without a gap and are at least six |
| Ops.PartialRead | internal/rfidops/ops.go:77-86 | a partial read that decodes yields the tag's own barcode |
| Ops.CompleteRead | internal/rfidops/ops.go:77-86 | a complete read decodes exactly when the tag has six blocks |
| Ops.ContentReported | internal/rfidops/ops.go:77-86 | the content made of a tag's own blocks is the barcode, nothing, or the first block of data that do not decode; of all its blocks it is the barcode |
| Ops.ContentFrom | internal/rfidops/ops.go:77-86 | the blocks read are decoded, or else the first one is shown as it is |
| Ops.ContentExact | internal/rfidops/ops.go:77-86 | of some of a tag's own blocks the barcode is shown exactly if they are without a gap and at least six, else the first block if it is there |
| Ops.ContentReads | internal/rfidops/ops.go:77-86 | the content is exact unless the read was faulty |
| Ops.ScanTagReads | internal/rfidops/ops.go:65-88 | the report of a tag is exact in each part read without a fault |
| Ops.ScanTagsRead | internal/rfidops/ops.go:64-88 | one report for every tag, in order, two commands each |
| Ops.ScanKeepsPromise | internal/rfidops/ops.go:53-90 | for every state and fault a scan changes no tag, and a success reports every tag on the pad exactly in the parts read without a fault |
| Ops.Scan | internal/rfidops/ops.go:53-90 | the method does what its specification function does and so keeps that promise, counts its failures, and locks and unlocks |
| Ops.Prepare | internal/rfidops/ops.go:125-158 | the text to write and the AFI byte that goes with it |
| Ops.WriteTagWrites | internal/rfidops/ops.go:127-162 | no error means that the tag holds the data and the AFI byte; only that tag changes; what an error leaves is ProgramOneDone |
| Ops.ProgramOneDone | internal/rfidops/ops.go:116-163 | what a request leaves of the tag by the error it has: without one its blocks and byte; if the blocks were not written at most some of them and no AFI byte; if the byte was not, the blocks and the old or the requested byte |
| Ops.BlankExact | internal/rfidops/ops.go:125-125 | a content asks for a blank exactly if it is the word in any mixture of cases, its k perhaps a Kelvin sign |
| Ops.ProgramOnePrograms | internal/rfidops/ops.go:116-163 | no error means that the tag is programmed; content over 16 bytes is an error and changes nothing |
| Ops.ProgramKeepsPromise | internal/rfidops/ops.go:110-165 | OK exactly when there are no errors, and then every tag holds what its last request asked for; in any case each request has been done as its own error says; tags not named are untouched |
| Ops.ProgramSteps | internal/rfidops/ops.go:110-165 | a run of requests is the requests one after the other, each as its own error says, the errors in order |
| Ops.AfiIsEarned | internal/rfidops/ops.go:127-162 | a tag's AFI byte differs from before only if a request on it had its blocks written, and is then the byte of that request |
| Ops.ErrorFreeProgrammed | internal/rfidops/ops.go:110-165 | a request without an error of its own, the last on its tag, is programmed in the end even if others failed |
| Ops.Program | internal/rfidops/ops.go:110-165 | the method does what its specification function does and so keeps that promise, under the mutex |
| Ops.SecureKeepsPromise | internal/rfidops/ops.go:182-197 | OK means that every tag has the byte of its last request; only AFI bytes change, and only to bytes asked for, request by request up to the first that fails |
| Ops.FaultFreeSecureExact | internal/rfidops/ops.go:182-197 | on an open line without faults setting bytes succeeds exactly if every request names one byte and a tag in range |
| Ops.Secure | internal/rfidops/ops.go:182-197 | the method does what its specification function does and so keeps that promise, under the mutex |
| RoundTrip.ProgrammedReads | internal/rfidops/ops.go:111-165 | what a complete read reports for a programmed, a custom and a cleared tag, whatever its other blocks hold |
| RoundTrip.ProgrammedBlocks | internal/rfidops/ops.go:125-149 | what the blocks of a programmed tag decode to: a barcode with first block 04 11 00 and type 01 exactly if it starts with 130, the custom fields cut to their widths, or three zero blocks |
| RoundTrip.BlankIsNoBook | internal/rfidops/ops.go:125-158 | a request for a blank never gets the byte of a book |
| RoundTrip.FaultFreeProgramExact | internal/rfidops/ops.go:111-165 | on an open line without faults programming a tag succeeds exactly if the content is at most 16 bytes and the tag is in range with room for it |
| RoundTrip.ProgramThenScan | internal/rfidops/ops.go:53-165 | after programming reports OK the tag's blocks say what was asked for, and the next scan, which succeeds whenever its first command is answered, reports the tag if it is in range, with the content up to its first NUL, none after a blank write on a library tag, and DA exactly for a book; without faults both succeed and the report is exact |
| Server.HandleScan | server.go:139-158 | alone on the reader: at most three scans one after the other, stopping at the first success; 504 exactly when all three fail, from counter zero on an open port exactly when their commands are not answered; if the port can always be reopened such a request ends at zero and a 504 made exactly one reset |
| Server.TimeoutExact | server.go:141-158 | from counter zero on an open port a request ends in 504 exactly if three inventories in a row are not answered and the reset then fails or its inventory is not answered either |
| Server.TimeoutAttemptedReset | server.go:141-158 | a request whose three tries follow each other, no other request's scan in between, has attempted at least one port reset when it ends in 504 |
| Server.RequestFromZero | server.go:141-158 | with resets that succeed a request from counter zero ends at zero and made one reset exactly if its three first tries failed, which a 504 did |
| Server.RunOfRequests | server.go:141-158 | over any run of requests with resets that succeed the counter is zero in between, and the resets are exactly one for every 504 and one for every request that a reset rescued |
| Server.HandleScans | server.go:141-158 | that account for the handler itself, alone on the reader and called any number of times |
| Server.ResetAccounting | internal/rfid/reader.go:289-325 | three times the resets plus the counter is at most the failed first tries when resets succeed |
| Server.FailuresExact | internal/rfid/reader.go:289-316 | the counter is the number of attempts since the last one that delivered tags at its first try or reopened the port |
| Server.FailedFirstExact | internal/rfid/reader.go:289-297 | the failed first tries in the account are those of the attempts |
| Server.FailedResetsRepeat | internal/rfid/reader.go:302-321 | the account when resets may fail |
| Server.TimeoutResetExact | internal/rfid/reader.go:289-325 | among the attempts of overlapping requests, a 504 went without a reset of its own exactly if each of its three tries found the failure counter below two |
| Server.UnbrokenTimeoutResets | internal/rfid/reader.go:289-325 | if from the first to the last try of a 504 no first try of any request succeeded, a reset was attempted meanwhile |
| Server.OverlappedTimeout | server.go:141-158 | with one success of another request after each of its first two failures a request ends in 504 and no reset was attempted |
| ScanLoop.Round | cmd/scan/main.go:72-105 | every tag's events are exactly its change, none, one enter or one leave, the tags that come in the order read and before those that go; a failed scan changes nothing |
| ScanLoop.EnterTags | cmd/scan/main.go:84-97 | the tags read that were not there, once each, in the order read |
| ScanLoop.LeaveTags | cmd/scan/main.go:99-105 | the tags there that were not read, once each |
| ScanLoop.ReplayAlternates | cmd/scan/main.go:85-105 | events that can be replayed alternate between enter and leave for every tag |
| ScanLoop.Run | cmd/scan/main.go:64-105 | over any run of scans every tag's events are exactly one for each change of its presence between good scans; they alternate, beginning with enter, and replaying all of them gives the tags of the last good scan |
| Serialization.EveryInterleavingIsSerial | internal/rfid/reader.go:225-232 | every interleaving of calls has the results of running them one at a time in lock order |
| Serialization.NoStolenResponse | internal/rfid/reader.go:57-57 | no call reads a response to another call's command |
| Serialization.NoDeadlock | internal/rfid/reader.go:307-309 | if no call locks again while holding the mutex, some call can go on until all have returned |
| Serialization.RelockingDeadlocks | internal/rfid/reader.go:307-309 | a call that locks again while holding the mutex stops everyone |
| Serialization.EveryScheduleEnds | internal/rfid/reader.go:225-232 | calls with a bounded number of requests all return, in every schedule |
| Calls.OperationTalks | internal/rfidops/ops.go:53-197 | alone on the line, an operation's requests and what it makes of each answer end in what its method does, the reopening of the port included |
| Calls.CompleteOperation | internal/rfidops/ops.go:53-197 | a call of an operation that completes alone has the method's result and keeps the operation's promise |
| Calls.OperationsAreSerial | internal/rfidops/ops.go:56-57 | in every interleaving of any scans, programmings and securings, for every fault, those that returned have the methods' answers in lock order and each kept its promise |
| Calls.OperationLimited | internal/rfid/reader.go:307-309 | whatever the line answers, an operation makes a bounded number of requests and never locks again while it holds the mutex |
| Calls.OperationsReturn | internal/rfidops/ops.go:56-57 | every schedule in which each operation can step when it is its turn is bounded, and when none can step all have returned |
| Overlap.TurnsCount | internal/rfid/reader.go:289-325 | in any interleaving of operations the reader's counters are those after the attempts of its scans in lock order |
| Overlap.FailedScanResets | internal/rfid/reader.go:302-321 | in any interleaving a scan that fails attempts a reset exactly if it found the failure counter at two or more |
| Overlap.UnbrokenTimeout | server.go:141-158 | whatever operations come between a request's three failed scans, if no scan's first inventory succeeded among them a reset was attempted |
| Overlap.OverlappedTimeout | server.go:141-158 | five scans of three requests on one reader where the first request ends in 504 and nobody attempted a reset |
| Overlap.InterleavedAccounting | internal/rfid/reader.go:289-325 | in any interleaving from a fresh reader whose port can always be reopened, three times the resets plus the counter is at most the number of scans that returned, and between operations the counter is below three |
| PageScript.PageScript.Handle | koha-rfid.js:419-709 | every event on the page takes the state where the model of runs takes it and keeps the invariant |
| PageScript.PageScript.AfiSet | koha-rfid.js:75-81 | an entry is put; submit time and last sight survive |
| PageScript.PageScript.AfiSetLastSeen | koha-rfid.js:84-90 | an existing entry is marked as seen |
| PageScript.PageScript.AfiSweepStale | koha-rfid.js:95-114 | exactly the stale entries are removed |
| PageScript.PageScript.AfiClearPending | koha-rfid.js:125-132 | an existing entry loses its pending write |
| PageScript.PageScript.AfiCleanup | koha-rfid.js:135-146 | exactly the entries untouched for over an hour are removed |
| PageScript.PageScript.SecureAnswered | koha-rfid.js:193-199 | only a 200 clears the pending write |
| PageScript.PageScript.ScanBook | koha-rfid.js:464-628 | the branches for a book have the effect of the decision table |
| PageScript.PageScript.ScanOnCirculation | koha-rfid.js:566-619 | the tabs of the circulation pages |
| PageScript.PageScript.ScanCard | koha-rfid.js:630-644 | the branch for a patron card |
| PageScript.PageScript.SeeTags | koha-rfid.js:446-452 | all tags in range are marked as seen |
| PageScript.PageScript.FindCard | koha-rfid.js:651-659 | the first card is found |
| PageScript.PageScript.FindBook | koha-rfid.js:662-675 | the first unprocessed book is found |
| PageScript.PageScript.Scan | koha-rfid.js:445-688 | a whole scan, its recursive call included, has the effect of the decision table on at most one tag |
| PageScript.PageScript.Ready | koha-rfid.js:696-703 | a map of another version is dropped, old entries are cleaned up |
| PageScript.PageScript.Reset | koha-rfid.js:303-306 | the reset button empties the map |
| AfiForms.SubmitsExactly | koha-rfid.js:445-688 | a scan submits a form exactly if it is due for the tag dealt with, for that barcode and byte: which URL and tabs, byte, entry, time since the last submission and input each of the six forms needs, and which of several tags is dealt with |
| AfiForms.RequestsExactly | koha-rfid.js:472-480 | a scan requests a write exactly if it is pending for the book dealt with and the tag shows another byte |
| AfiForms.AtMostOneEvent | koha-rfid.js:445-688 | a scan submits at most one form or requests one write |
| AfiForms.DealtEntry | koha-rfid.js:464-644 | the entry that a scan leaves of the tag dealt with, form by form and when nothing is submitted |
| AfiForms.OtherEntries | koha-rfid.js:446-452 | every other entry: seen if its tag is in range, else kept unless the scan sweeps and it is stale |
| AfiForms.OtherInputs | koha-rfid.js:125-146 | what answers, page loads and resets do to each entry |
| AfiForms.BytesRead | koha-rfid.js:466-466 | the two bytes are recognised in either case |
| AfiRuns.StepGood | koha-rfid.js:419-709 | every input keeps the invariant |
| AfiRuns.RunGood | koha-rfid.js:419-709 | the invariant holds at every point of every run |
| AfiRuns.MapInvariant | koha-rfid.js:473-486 | a pending write is the opposite of the stored byte; a card's entry has none and keeps its submit time |
| AfiRuns.WritesAreEarned | koha-rfid.js:473-480 | every AFI write requested goes back to the last submission of that book, a return of a book on loan or a checkout |
| AfiRuns.SubmissionsApart | koha-rfid.js:538-583 | two submissions of a barcode to the return forms or the patron search are ten seconds apart in every run unless the map was wiped in between |
| AfiRuns.AnswersMatch | koha-rfid.js:193-196 | an answer clears no write but the one that it answers |
| AfiFate.SweepExact | koha-rfid.js:464-628 | the branches of a scan that end before its sweep, exactly |
| AfiFate.KeyFate | koha-rfid.js:75-146 | what one step can do to a book's entry; it is dropped exactly under the stated conditions, never while its tag is in the scan |
| AfiFate.FateOfPendingWrite | koha-rfid.js:446-487 | over any run a pending write ends only by the answer to that write, by the tag showing the byte, or with the entry, and is gone after that step |
| AfiFate.RepeatedCheckoutExact | koha-rfid.js:493-601 | when a matched book is checked out again |
| AfiFate.CheckoutNeedsChange | koha-rfid.js:493-601 | a checkout needs an entry that is absent or not DA, and leaves DA with D7 pending |
| AfiFate.CheckoutOnce | koha-rfid.js:592-601 | between two checkouts of a book its entry was rewritten with another byte, read from the tag, or dropped |
| AfiBatch.PollsAreRuns | koha-rfid.js:419-709 | polls of a pile, each with the answer or the page load that follows its scan, continue any run of the page script |
| AfiBatch.BookPolled | koha-rfid.js:473-557 | a book that is dealt with on the returns page comes strictly closer to its end, the page load after its form included |
| AfiBatch.PollProgress | koha-rfid.js:646-680 | a poll of a pile with an unprocessed book lowers the sum of ranks, also if the page load drops an old entry |
| AfiBatch.PollIdle | koha-rfid.js:676-688 | a processed pile is left alone at whatever times it is polled |
| AfiBatch.HourSuffices | koha-rfid.js:135-146 | four polls a book within an hour come in time, however far the later ones are apart |
| AfiBatch.PileIsProcessed | koha-rfid.js:646-680 | after four polls a book every entry matches its tag and no write is pending, from any map, provided no page load before that comes more than an hour after an entry of the pile was touched |
| AfiBatch.RunProcessesPile | koha-rfid.js:646-703 | the same for a pile laid on the reader at any point of any run |
| AfiBatch.FreshPile | koha-rfid.js:538-557 | from an empty map every book was submitted, and the tags of those on loan read DA |
| AfiBatch.ShelvedReached | koha-rfid.js:538-557 | a run reaches the map from which hourly polls never finish |
| AfiBatch.HourIsNeeded | koha-rfid.js:135-146 | polled an hour apart two books take turns in the map for ever, each page load dropping the other, and the pile is never processed |
| AfiEdges.TenSecondsIsExact | koha-rfid.js:106-111 | two submissions exactly ten seconds apart happen |
| AfiEdges.ResetShortens | koha-rfid.js:303-306 | after a reset the book is submitted again at once |
| AfiEdges.TwoTabsCheckOutTwice | koha-rfid.js:592-598 | with both tabs open a book is checked out twice without any cause in between |

## Left out

- Framing.Port.ReadFull: does not model waiting for ever; when no more bytes will arrive the port is closed and reading it is an error.
- Framing.CorruptionDetected: says nothing about damage to the length bytes or beyond sixteen bits; the device model damages responses only within sixteen bits.
- Reader.Reader.WriteBlocks: does not model data that do not fit a frame, over 65520 bytes, whose length field would be cut.
- Reader.Reader.constructor: does not model draining the port at start-up, nor the answer to the hardware probe.
- Calls.OperationsAreSerial: an operation locks with its first step and unlocks as it returns, as all three do; a command and its response are one exchange with the far end, and bytes of a response given up for lost do not arrive later.
- Server.HandleScan: the tries follow each other on the counter, as they do when no other request's scan comes in between; overlapping requests are in `Overlap`, on the scans of an interleaved run.
- AfiRuns.SubmissionsApart: makes no claim about renewals, which have no dedup by time.
- AfiBatch.PileIsProcessed: speaks of two books or more; a single book on the returns page is submitted again every ten seconds, as intended. The page is taken to be loaded again, the input empty, before the next poll.
- Hexadecimal text of commands: commands are byte sequences; spaces inside a tag number are not modelled.
- Texts of errors and log lines, the CSV log, time stamps.
- Tags that move while an operation runs; the pad changes only by the operation's own writes.
- The polling timer, the error and no-reader flags, popup, spinner, labels and colours of the page script.
- Several browser tabs on one map, JavaScript's prototype keys, case folding beyond ASCII in the page script.
- Item type labels, the 3M blank, decoding from raw bytes instead of hexadecimal blocks, spaces inside a block's text.
- HTTP routing, form parsing, CORS, JSON, TLS certificates, the mock reader, command-line flags, the Perl plugin, deployment.
