# c-open in Dafny: SDO, PDO, object dictionary, NMT and LSS

c-open is a CANopen stack (CiA 301, and CiA 305 for LSS). These modules model its protocol state
machines, its object dictionary with persistence, and its process data engine, and prove what they
promise over whole transfers, whole runs and every input. `dafny verify dfyconfig.toml` checks the
whole project.

Each component comes as a specification on values, about which the properties are proved, and as
classes and methods in the form of the C code (fields updated in place, loops, the same branches in
the same order), whose contracts say that they compute that specification.

| files | component |
|---|---|
| `Bytes`, `Bits` | little-endian integers in memory; machine words as bits with the operators of C |
| `Dictionary`, `Values` | descriptors, look-up, reading and setting values, access functions, notification; what that means in numbers |
| `Persistence`, `StoreLoad`, `ResetOrder`, `StoreEvents` | saving and loading the dictionary; zero, defaults, stored values; what access functions are told |
| `SdoFrames`, `SdoServer`, `SdoClient` | SDO messages as bytes; the two state machines as steps on messages |
| `SdoTransfer`, `SdoDownload`, `SdoTimeout` | client and server run against each other over a lossless channel, without and with the client's timer |
| `SdoAnswers` | what is answered to every request in any state, with codes and bytes as on the bus |
| `SdoNode` | the SDO handlers of a node, bytes in and bytes out |
| `PdoFrame`, `PdoConfig`, `PdoSync` | packing; configuration and cached look-ups; schedule and delivery |
| `PdoAccess`, `PdoTraffic`, `PdoBus` | parameters as read and written; when frames are sent and taken, over runs; the tables of a node |
| `PdoReload`, `PdoRestart` | PDO parameters across a reset: restored, loaded back and started; the accesses a saved file causes |
| `PdoNode`, `PdoEngine` | one PDO as an object; the PDO tables of a node and the SYNC producer |
| `Lss`, `Nmt`, `NodeControl`, `NodeRuns` | LSS matching; NMT table; event loop; whole runs of both together |
| `NodeCommands`, `LssServices` | NMT commands and LSS services as a master sees them, with every action and answer |
| `NodeSettings` | bit rates, power cycles, inquiry, addressing and commissioning by LSS |
| `NetNode` | the NMT and LSS handlers of a node |
| `Bitmap` | the 128-bit bitmap of discovered nodes as a set |

The model assumes a little-endian host with 64-bit `size_t`, a clock in microseconds that does not
wrap, file functions that store or fail as a whole, and well-formed dictionaries (`Dictionary.OdOk`:
distinct indexes, ascending subindexes up to `max_subindex` below 255, lengths of at least one bit
that match the data type; storage of different values does not overlap). An access function is an
arbitrary function of the writes and restores it has been told. `SdoTransfer.UploadEndToEnd` and
`SdoDownload.DownloadEndToEnd` hold as long as no timer fires; `SdoTimeout` says when the client's
does.

## Where the code does less than it promises

Each of these is kept in the model as the code has it, with the exact condition proved.

- A segmented download whose size is a multiple of seven never carries the "last segment" flag. The
  client reports success while the server's job stays open: a value of up to eight bytes is not set,
  and a longer one has been written in place but is not notified (`SdoDownload.DownloadCompletesIff`,
  `SdoDownload.DownloadEndToEnd`).
- A segmented download of another size than the object's is confirmed; a shorter one leaves old bytes
  behind its own (`SdoDownload.StoresClientBytesIff`).
- A write of no bytes is read as one of four, so it sets a four-byte value to zero
  (`SdoDownload.DownloadEndToEnd`, `SdoNode.FirstFrameMeans`).
- The client's timer measures from the request and is never refreshed, so a transfer that takes
  longer than 100 ms in all is aborted although every request is answered at once
  (`SdoClient.NeverRefreshed`, `SdoTimeout.UploadSurvivesIff`).
- Segment handlers do not look at the type of the job. A download segment during, or even after, an
  upload overwrites the value that was uploaded, also if it may not be written
  (`SdoServer.StepOnReadOnly`, `SdoServer.UploadedValueOverwritten`).
- A refused request for a long value behind an access function leaves its length in the job, and the
  cursor may then leave its buffer (`SdoServer.StepKeepsOk`, `SdoServer.LongAccessOverruns`).
- Loading stops at a long value of an object with an access function, and what follows in the file is
  not loaded (`StoreLoad.StoreThenLoad`).
- A stored string of up to eight bytes is never restored, because it is set as a value and strings
  cannot be (`StoreLoad.StringSurvivesIffLong`).
- An abort sent by the SDO client also ends the job of the node's own SDO server
  (`SdoNode.SdoNode.Tx`), and a client timeout is sent under the server's identifier
  (`SdoNode.SdoNode.ClientTimer`). An ended job goes on all the same (`SdoServer.StepIgnoresKind`);
  only the server's timer no longer watches it.
- An abort of the client's own (a wrong toggle, an unknown command, a short frame) goes to 600h plus
  the client's node-ID, so the server of the transfer never hears it and keeps its job
  (`SdoNode.SdoNode.Tx`).
- A refused number of PDO mappings may still overwrite the length of the PDO
  (`PdoConfig.StepConsistentIff`, `PdoConfig.OverlongBreaks`).
- Padding is accepted whatever its length. Padding of no bits behind 64 mapped ones starts at offset
  64, where the assertion of the next packing fails (`PdoNode.ZeroPaddingOverhangs`); otherwise a
  consistent mapping can be packed unless a saved entry has no place (`PdoNode.WalkableIff`).
- A restore empties the mapping but leaves its old length (`PdoConfig.RestoredConsistentIff`), and
  loading the count before the words it counts makes the length zero until the PDO is started while
  enabled (`PdoReload.ReloadRestores`, `PdoReload.ReloadedAndStarted`).
- A restore of a mapping keeps the saved look-ups (`PdoConfig.RestoreAgreesIff`), which then address
  what lies before an array (`PdoConfig.StoredIffHasPlace`). A frame queued before a restore is still
  delivered after it (`PdoSync.RestoredIsInert`).
- A remote request of a cyclic PDO is answered with what it sent last, not with a sample of the last
  SYNC (`PdoSync.RequestRepeatsLast`).
- A SYNC overflow value set below the counter makes the counter run through 255 and 0 first
  (`PdoSync.CounterCycles`).
- Bits of a frame past the last mapped field are never cleared (`PdoFrame.PackedBeyond`).
- A cyclic PDO whose SYNC start was cleared after it began to wait, or lies above the counter overflow
  value, waits for ever (`PdoSync.ReleasedIffReachable`), with one exception: a start above the
  overflow value is still met once if the counter is then above that value too and not above the
  start, because it first runs up to 255 (`PdoSync.ReachedOnTheWayUp`).
- LSS switch selective and identify remote share one match byte, so frames of the second kind can
  make the first select several slaves at once (`Lss.RangeSelectsIff`, `Lss.MixingSelectsTwo`).
- The documented iteration over nodes finds nothing if node 0 is recorded (`Bitmap.Bitmap.Iterate`).

## Model

| member | source | states |
|---|---|---|
| `SdoTransfer.UploadEndToEnd` | src/co_sdo_server.c:114-291 | the two independently written state machines, run against each other over encoded frames: for a value of L bytes - those of the number read up to 64 bits, and those in storage above - and a buffer of B the first min(L, B) bytes of the buffer equal the value, the rest is untouched, the result is min(L, B) and is reported once, after exactly one exchange if L <= 4 and 1 + ceil(L/7) otherwise, not earlier; the server ends idle with its dictionary unchanged |
| `SdoAnswers.UploadTellsNumber` | src/co_od.c:130-205 | and in numbers: a served upload of up to 64 bits fills the buffer with the number read - the 32-bit answer v of the access function, or the integer in storage - modulo 256^size |
| `SdoAnswers.UploadRefusedEndToEnd` | src/co_sdo_server.c:114-231 | an upload that is refused takes one exchange, reports an error once, and leaves buffer and dictionary alone |
| `SdoAnswers.UploadRefused` | src/co_sdo_server.c:114-231 | an upload request is refused, with the job ended, for an unknown index (06020000h), an unknown subindex (06090011h), no read permission (06010001h), the code its access function gives, or a long value behind one (08000000h) |
| `SdoAnswers.UploadServed` | src/co_sdo_server.c:114-231 | any other is answered with the number itself up to four bytes, and by announcing the size above, whatever job was there before |
| `SdoAnswers.StructureTold` | src/co_sdo_server.c:87-112 | subindex FFh of any object is answered with its object type and the data type of the variable or of the array members, readable or not |
| `SdoAnswers.DownloadRefused` | src/co_sdo_server.c:293-426 | a download request is refused, with nothing changed, for an unknown index or subindex, no write permission (06010002h), a long value behind an access function, or data of another size (06070010h) |
| `SdoAnswers.DownloadSetAtOnce` | src/co_sdo_server.c:293-426 | data that comes along is set as a number, and confirmed exactly if the value was taken; otherwise the code of the access function is passed on |
| `SdoAnswers.DownloadStarted` | src/co_sdo_server.c:293-426 | a request without data is confirmed and starts a job over the whole value |
| `SdoAnswers.DownloadSetsNumber` | src/co_sdo_server.c:293-527 | end to end: a download of as many bytes as the value has, up to 64 bits and other than seven, sets it to the number in the buffer, and the client is told success exactly if it was taken |
| `SdoAnswers.WrongToggleRefused` | src/co_sdo_server.c:233-266 | in any state a segment request of either kind with the wrong toggle bit is refused with 05030000h and the index of the job, which ends with its cursor, value and dictionary as they were |
| `SdoAnswers.RepeatRefused` | src/co_sdo_server.c:233-266 | so the same segment request twice in a row is always refused the second time |
| `SdoAnswers.UploadSegmentAnswered` | src/co_sdo_server.c:233-291 | with the right toggle bit: the next seven bytes, or what is left marked as the last, under the same toggle bit |
| `SdoAnswers.DownloadSegmentAnswered` | src/co_sdo_server.c:428-527 | with the right toggle bit: the cursor moves by what is carried and fits, and the segment is confirmed under the same toggle bit, or refused if it is the last |
| `SdoAnswers.LastSegmentSets` | src/co_sdo_server.c:457-520 | the last segment of a download of up to 64 bits sets the number collected, and is confirmed exactly if the value was taken |
| `SdoAnswers.LastSegmentNotifies` | src/co_sdo_server.c:480-520 | the last segment of a direct download is confirmed and notified; one that belongs to no value is refused |
| `SdoAnswers.SegmentWritten` | src/co_sdo_server.c:457-464 | a segment of a direct download is written where the cursor points, as far as there is room |
| `SdoAnswers.OthersAnswered` | src/co_sdo_server.c:529-580 | an unknown command is refused with 05040001h and ends the job; an abort is neither answered nor acted on |
| `SdoAnswers.ClientGivesUp` | src/co_sdo_client.c:82-281 | the client ends with an error, once, on an abort, a wrong toggle bit (05030000h) or an unknown command (05040001h), and tells the last two |
| `SdoAnswers.RequestBytes` | src/co_sdo_server.c:529-580 | command bytes of every request: 40h, 60h/70h, 20h/21h, 22h to 2Fh, 00h to 1Fh, 80h, and none from A0h |
| `SdoAnswers.ReplyBytes` | src/co_sdo_client.c:225-281 | command bytes of every reply: 41h, 42h to 4Fh, 00h to 1Fh, 60h, 20h/30h, 80h, and none from A0h |
| `SdoAnswers.FieldBytes` | src/co_sdo_client.c:40-80 | index in bytes 1 and 2 and size or code in bytes 4 to 7, least significant first |
| `SdoNode.AbortFrameMeans` | src/co_sdo_server.c:52-72 | an abort frame is understood by either side with its index, subindex and code |
| `SdoDownload.DownloadEndToEnd` | src/co_sdo_server.c:293-527 | a download of a buffer of any size n to any writable value of size L takes one exchange for up to 4 bytes or when it is refused, and 1 + ceil(n/7) otherwise; up to 4 bytes are set if n is L (4 if n is 0) and refused otherwise; a longer one is taken up to L bytes and, if n mod 7 != 0, set or notified once, with the server idle and the client reporting n or the refusal; if n mod 7 = 0 the client reports n all the same while the server's job stays open, nothing is set or notified, and a value above 8 bytes is in place |
| `SdoDownload.StoresClientBytesIff` | src/co_sdo_server.c:457-464 | what a confirmed segmented download leaves is the client's bytes exactly if the sizes agree; a longer one is cut, and a shorter one is followed by the old bytes, which up to 8 bytes are those an earlier job left in the server |
| `SdoDownload.DownloadCompletesIff` | src/co_sdo_client.c:195-220 | when the client reports success, the server's job is closed, and the value notified if it asks for it, exactly if the size is not a multiple of seven other than zero |
| `SdoFrames.RequestRoundTrip` | src/co_sdo_client.c:134-316 | the server reads from the eight bytes exactly the request the client meant, for every request a client sends |
| `SdoFrames.ReplyRoundTrip` | src/co_sdo_server.c:52-291 | the client reads from the eight bytes exactly the reply the server meant, aborts included |
| `SdoServer.StepKeepsOk` | src/co_sdo_server.c:529-580 | in any state every request keeps the server's cursor inside the buffer it points into and every value at its size, except exactly one: an init request for a value above 64 bits behind an access function that is longer than what is left of the old buffer |
| `SdoServer.RunKeepsOk` | src/co_sdo_server.c:529-580 | the same over any sequence without such a request, hence over all sequences if the dictionary has no long value behind an access function |
| `SdoServer.LongAccessOverruns` | src/co_sdo_server.c:189-201 | the exception happens: an idle server asked for such a value refuses, and is left with a cursor past its buffer |
| `SdoServer.StepOnReadOnly` | src/co_sdo_server.c:457-464 | the storage of a value that may not be written changes exactly at a download segment with the right toggle while the job points into it, by the bytes copied there, and a job comes to point into it only by an upload of the value |
| `SdoServer.RunOnReadOnly` | src/co_sdo_server.c:457-464 | over any run: if such a value has changed, it was selected by an upload and later overwritten by a download segment |
| `SdoServer.UploadedValueOverwritten` | src/co_sdo_server.c:457-464 | and it can happen, with any seven bytes, also after an unknown command has ended the upload |
| `SdoServer.StepIgnoresKind` | src/co_sdo_server.c:529-580 | no handler looks at the type of the job: a job that has been ended gives the same replies, the same dictionary and the same cursor |
| `SdoServer.SegmentsKeepEnd` | src/co_sdo_server.c:233-291 | over any sequence of upload and download segments the pointer plus what remains stays at one fixed end of one fixed object, and what remains never grows |
| `SdoClient.StepKeepsOk` | src/co_sdo_client.c:225-281 | one reply of any kind keeps the client's cursor in the buffer, never lets the total plus what remains exceed it, and calls back exactly when the transfer ends |
| `SdoClient.RunKeepsOk` | src/co_sdo_client.c:225-281 | the same over any sequence of replies: at most one callback per transfer |
| `SdoClient.NeverRefreshed` | src/co_sdo_client.c:225-281 | no reply refreshes the time from which the client's timer measures |
| `SdoTimeout.UploadSurvivesIff` | src/co_sdo_client.c:318-342 | with the timer looked at before every exchange, an upload succeeds exactly if its last exchange comes before the deadline, 100 ms after the request, however promptly each was answered; it is then the upload without timer |
| `SdoTimeout.DownloadSurvivesIff` | src/co_sdo_client.c:318-342 | the same for a download |
| `SdoTransfer.ExchangeSteps` | src/co_sdo_server.c:529-580 | frames are transparent: one exchange of frames is one step of the server machine and one of the client machine |
| `SdoTransfer.SendSegment` | src/co_sdo_server.c:233-291 | the k-th upload segment carries bytes 7k onwards, its toggle alternates, and only the one that exhausts the value is marked last and closes the job |
| `SdoTransfer.ReceiveSegment` | src/co_sdo_client.c:82-132 | receiving segment k extends the received prefix of the buffer by exactly its bytes, clipped to the buffer, and asks for the next or reports the total |
| `SdoTransfer.FirstUploadRound` | src/co_sdo_server.c:114-231 | the first exchange delivers a value of up to 4 bytes whole, and otherwise announces the size and starts the segments at byte 0 |
| `SdoDownload.StoreMore` | src/co_sdo_server.c:428-527 | a full segment extends the stored prefix by its bytes, as far as the object goes, and leaves the job open |
| `SdoDownload.StoreLast` | src/co_sdo_server.c:428-527 | a short segment completes the value and commits it |
| `SdoDownload.FirstDownloadRound` | src/co_sdo_server.c:293-426 | the first exchange sets or refuses a value of up to 4 bytes at once, and otherwise starts a download at byte 0 over what the object or the server held |
| `SdoNode.SdoNode.Rx` | src/co_sdo_server.c:529-580 | the byte-level handler, updating job and dictionary in place and filling messages byte by byte, is a step of the server machine on the decoded frame followed by sending the encoded reply; frames for others or in a state without communication change nothing; a short frame is refused; cursor and storage stay in order unless the request overruns |
| `SdoNode.SdoNode.RxUploadInit` | src/co_sdo_server.c:114-231 | upload request: look-up, structure request, access check, expedited or segmented answer, in place |
| `SdoNode.SdoNode.RxUploadSegment` | src/co_sdo_server.c:233-291 | upload segment in place: toggle check, up to seven bytes from the cursor, last flag |
| `SdoNode.SdoNode.RxDownloadInit` | src/co_sdo_server.c:293-426 | download request in place: look-up, access check, expedited value with length check, or start of a cached or direct download |
| `SdoNode.SdoNode.RxDownloadSegment` | src/co_sdo_server.c:428-527 | download segment in place: toggle check, copy at the cursor, commit on the last one |
| `SdoNode.SdoNode.ToggleUpdate` | src/co_sdo_server.c:74-85 | accepts exactly the expected toggle bit and flips the job's bit only then |
| `SdoNode.SdoNode.SendAbort` | src/co_sdo_server.c:52-72 | sends the abort frame and ends the server's job, whoever calls it |
| `SdoNode.SdoNode.SendStructure` | src/co_sdo_server.c:87-112 | subindex FFh answers object type and data type |
| `SdoNode.SdoNode.CommitDownload` | src/co_sdo_server.c:480-520 | a cached download is set as a value, a direct one is notified |
| `SdoNode.SdoNode.ServerTimer` | src/co_sdo_server.c:582-600 | exactly a job without progress for the timeout is aborted |
| `SdoNode.SdoNode.Issue` | src/co_sdo_client.c:283-316 | the first request of a transfer, with its index, size and up to four bytes of data; pins the bytes sent |
| `SdoNode.FirstFrameMeans` | src/co_sdo_client.c:283-316 | those bytes decode to the request intended in every case, also for a write of no bytes, where a reserved bit is set |
| `SdoNode.SdoNode.Tx` | src/co_sdo_client.c:225-281 | the byte-level client handler is a step of the client machine on the decoded frame; an abort it sends also ends the job of the node's own server, and nothing else does |
| `SdoNode.SdoNode.TxUploadInit` | src/co_sdo_client.c:40-80 | upload reply in place: expedited data clipped to the buffer, or the announced size |
| `SdoNode.SdoNode.TxUploadSegment` | src/co_sdo_client.c:82-132 | upload segment in place: toggle check, copy, next request or completion |
| `SdoNode.SdoNode.TxDownloadInit` | src/co_sdo_client.c:134-170 | download reply in place: completion or the first segment |
| `SdoNode.SdoNode.TxDownloadSegment` | src/co_sdo_client.c:172-223 | download segment reply in place: toggle check, completion or the next segment |
| `SdoNode.SdoNode.ClientTimer` | src/co_sdo_client.c:318-342 | exactly a transfer requested at least the timeout ago is given up, answered or not, under the identifier of the node's own server and with that server's job ended |
| `Dictionary.LookupObj` | src/co_od.c:84-100 | the table walk finds the object of that index, or none if there is none |
| `Dictionary.LookupEntry` | src/co_od.c:52-82 | the special cases and the traversal find the entry a full search of a well-formed object finds |
| `Dictionary.EntryFindSpec` | src/co_od.c:52-82 | subindex 0 always exists, nothing lies beyond max_subindex, the entry found is the object's own, and none found means none exists |
| `Dictionary.SetValueKeepsStore` | src/co_od.c:207-267 | setting a value leaves every value with exactly the bytes of its type |
| `Dictionary.ObjectDictionary.Set` | src/co_od.c:207-267 | the whole new state: access function told, or the low bytes of the value stored, and notified; strings are refused and nothing changes |
| `Values.ReadsNumber` | src/co_od.c:130-205 | reading gives the code and the whole 32-bit answer of an access function, except that one may leave subindex 0 to the descriptor by refusing it with 06090011h; without one, the integer in storage, or the first 64 bits of a string |
| `Values.SetWrites` | src/co_od.c:207-267 | setting the number n tells an access function n modulo 2^32 and ends with its verdict; stores an integer as n modulo its size; refuses a string; all but the last are notified once, refusals by the function included |
| `Values.TypeCodes` | include/co_api.h:164-202 | codes of object and data types, and the sizes of the integers |
| `StoreLoad.StoreThenLoad` | src/co_od.c:353-552 | a file saved under dictionary A is loaded under any dictionary B in any state: it loads completely exactly if B has not put an access function on a long value it keeps, and then consumes exactly the bytes written; in any case B's storage stays well formed and each key of B ends with A's value adapted to B if A saved it, B keeps it and it is read before loading stops, and with its old value otherwise |
| `StoreLoad.NotObstructed` | src/co_od.c:408-415 | loading always completes under a dictionary without long values behind access functions, and under the one that saved the file |
| `StoreLoad.IntegerSurvives` | src/co_od.c:403-407 | an integer storable in both ends as A's number modulo B's width if it is read, and unchanged otherwise |
| `StoreLoad.StringSurvivesIffLong` | src/co_od.c:408-420 | a string of equal size is copied exactly if it is read and longer than 8 bytes; a shorter one is silently left as it was |
| `StoreLoad.LoadAllOfEncode` | src/co_od.c:353-445 | parsing undoes serialising record by record, whatever is skipped, and stops exactly at the end or at the first record that blocks |
| `StoreLoad.RecordsSpec` | src/co_od.c:454-552 | a saved file holds exactly one record for each writable, non-transient value of the range, with its bytes |
| `StoreLoad.AllReadableIff` | src/co_od.c:454-552 | a range can be saved exactly if no access function in it refuses or has a long value |
| `StoreLoad.RecordLayout` | src/co_od.c:500-538 | bytes of a record: index, subindex, size, value |
| `StoreLoad.FileLayout` | src/co_od.c:454-475 | bytes of a file: number of records, then one after the other |
| `StoreLoad.LoadOneFailsIff` | src/co_od.c:370-432 | whatever is on file: reading a record fails exactly if it is incomplete, has size zero or blocks, and otherwise goes on right behind it |
| `StoreEvents.LoadTells` | src/co_od.c:353-445 | loading a file saved under any dictionary tells the access functions exactly the numbers of the records read that this dictionary keeps and that have up to 8 bytes, modulo 2^32, in the order of the file, and notifies exactly the values set |
| `StoreEvents.ResetTells` | src/co_od.c:269-452 | a reset tells the access functions of the range to restore, in table order, then their defaults, in list order, then the saved numbers, in file order; defaults and saved numbers are notified |
| `Persistence.OdSlotsSpec` | src/co_od.c:466-495 | the nested loops over objects and subindexes visit exactly the storable values of the range, each once |
| `Persistence.WriteStream` | src/co_od.c:454-552 | the counting pass and the writing pass agree: the stream is the count followed by each record, and it is complete exactly if every value can be read |
| `Persistence.SaveObject` | src/co_od.c:476-540 | the loop over the subindexes of an object writes its records in order and stops at the first value that cannot be read |
| `Persistence.SaveEntry` | src/co_od.c:488-538 | one record: index, subindex, size, and the value through a pointer or as a value; only the header if it cannot be read |
| `Persistence.PersistentDictionary.Save` | src/co_od.c:454-552 | saving succeeds exactly if file functions exist and every value of the range can be read; then the file is the encoding of those values; other files are untouched |
| `Persistence.PersistentDictionary.Load` | src/co_od.c:353-445 | the reading loop, updating the dictionary record by record, is the parse of the whole file; a missing file changes nothing |
| `Persistence.PersistentDictionary.LoadRecord` | src/co_od.c:370-432 | one round of the loading loop: skip, set, copy or fail, and leave the stream at the next record |
| `Persistence.PersistentDictionary.Discard` | src/co_od.c:424-432 | skipping reads exactly the size of the value, eight bytes at a time, or fails at the end of the file |
| `Persistence.ZeroObject` | src/co_od.c:315-351 | the entry loop, with one memset for an array, clears exactly the writable values of the object |
| `Persistence.PersistentDictionary.ZeroRange` | src/co_od.c:315-351 | access functions in the range are told to restore, in order; exactly the writable values of the other objects are cleared |
| `Persistence.PersistentDictionary.SetDefaultsRange` | src/co_od.c:269-313 | defaults in the range are set in list order; unknown ones are ignored |
| `Persistence.PersistentDictionary.ResetRange` | src/co_od.c:447-452 | zero, then defaults, then the saved file |
| `ResetOrder.SetDefaultsAt` | src/co_od.c:269-313 | each integer ends with the last default listed for it, and everything else is unchanged |
| `ResetOrder.ZeroMemAt` | src/co_od.c:315-351 | zeroing clears a key exactly if it is a writable value without access function in the range |
| `ResetOrder.ResetPrecedence` | src/co_od.c:447-452 | after a reset with a file saved for the same range, possibly by another dictionary: the stored value if recorded, kept and read, else the last default, else zero, else the old value; outside the range nothing changes |
| `ResetOrder.ResetIdempotent` | src/co_od.c:447-452 | resetting twice is resetting once, for every value, whatever the store file holds, malformed or missing |
| `ResetOrder.IntegerAfterReset` | src/co_od.c:447-452 | in numbers, for a writable integer: saved value if not transient, else last default truncated to its width, else zero |
| `PdoFrame.BitsliceSet` | src/co_pdo.c:66-75 | the masked-or-shifted word operations deposit the field, keep what is below it, and mix what is above with the unmasked rest of the value |
| `PdoFrame.BitsliceGet` | src/co_pdo.c:56-64 | shift and mask extract exactly the field, zero-extended, for every length up to 64 |
| `PdoFrame.PackedBit` | src/co_pdo.c:77-98 | every bit of every field is the bit of its value, although values are not masked and may be wider than their fields |
| `PdoFrame.SlotIsValue` | src/co_pdo.c:77-98 | slot i of the packed frame is value i modulo 2^length |
| `PdoFrame.PackedBeyond` | src/co_pdo.c:66-75 | bits past the last field hold exactly what was there before or what some value spilled: they are never cleared |
| `PdoFrame.StartsInsideIff` | src/co_pdo.c:56-75 | with lengths that fit in 64 bits every offset used is below 64, as the assertions demand, exactly if no slot of no bits ends a full frame |
| `PdoFrame.FrameCarries` | src/co_pdo.c:537-555 | the bytes sent contain every mapped bit: a receiver with the same lengths extracts exactly the low bits of each value, whatever its buffer held |
| `PdoFrame.ProcessDataRoundTrip` | src/co_pdo.c:77-121 | pack on one node, receive and unpack on another: every mapped integer becomes the sender's value modulo 2^length, access functions are told the carried values in order, and no other storage changes; padding touches nothing |
| `PdoFrame.RepackReproduces` | src/co_pdo.c:77-121 | unpacking and packing again reproduces every mapped bit, with zeros in the padding |
| `PdoConfig.PaddingTest` | src/co_util.h:60-73 | the bit mask lists exactly the static data types 01h-07h, 10h, 12h-16h and 18h-1Bh, at subindex 0 |
| `PdoConfig.StepConsistentIff` | src/co_pdo.c:123-332 | outside initialisation every access and every restore keeps 'at most 8 mappings and length equal to their sum, at most 64', except exactly a refused number of mappings whose sum is too long, and a restore of a mapping that has a length |
| `PdoConfig.StepRepairsIff` | src/co_pdo.c:123-355 | and exactly an accepted number of mappings, starting an enabled PDO whose mapping fits, or a restore with length zero, brings it back |
| `PdoConfig.RunConsistentIff` | src/co_pdo.c:123-355 | over any run of accesses, restores and starts, from any state, the PDO is consistent exactly if the last of those events was a good one |
| `PdoConfig.RestoredConsistentIff` | src/co_pdo.c:464-467 | a restore leaves eight empty mappings under the old length, so the PDO is consistent exactly if that was zero |
| `PdoReload.RunKeepsSavable` | src/co_pdo.c:179-332 | over any run in any state, the parameters of a PDO once restored are such as it accepts when they are loaded again, or as a restore leaves them |
| `PdoReload.RestoredIsSavable` | src/co_pdo.c:430-467 | a PDO whose two parameter objects have been restored has such parameters |
| `PdoReload.ReloadRestores` | src/co_od.c:447-452 | restored, and with the saved parameters written back in ascending order during initialisation, a PDO has the communication parameters, the count and the mapping words of the one saved, with fresh look-ups, whatever it held before, but length zero |
| `PdoReload.ReloadedAndStarted` | src/co_pdo.c:334-355 | started after that, it has the length of its mapping if it is enabled, and is consistent exactly if the mapping then fits, or is empty on a disabled PDO |
| `PdoRestart.ResetReloads` | src/co_od.c:447-452 | a reset with a file saved while a PDO had some parameters tells its two parameter objects exactly the accesses of a reload: restore both, then every saved parameter in ascending order |
| `PdoRestart.ResetRestoresPdo` | src/co_obj.c:111-139 | so after it the PDO reads as it did when the file was saved, whatever it held before |
| `PdoAccess.CommWrite` | src/co_pdo.c:150-223 | a write to a communication parameter is refused exactly for a subindex that is none, a restricted COB-ID, an unknown transmission type, or a change of a PDO in use other than disabling it; otherwise it is read back, and all others are as they were |
| `PdoAccess.MapWrite` | src/co_pdo.c:225-332 | a write to a mapping parameter is refused exactly while the PDO is in use, for a count or length that does not fit, a word behind a count, or one that may not be mapped; otherwise it is read back, and all others are as they were |
| `PdoAccess.MappableIff` | src/co_pdo.c:285-329 | a mapping word is accepted exactly if it is padding, or names an entry of exactly its length with OD_RPDO for a receive PDO and OD_TPDO for a transmit PDO; and with which code it is refused otherwise |
| `PdoAccess.CountWrite` | src/co_pdo.c:123-148 | what an accepted number of mappings changes, and that one refused for its length has changed the length |
| `PdoAccess.StartMeans` | src/co_pdo.c:334-355 | starting does the same to an enabled PDO and nothing to any other |
| `PdoAccess.RestoredReads` | src/co_pdo.c:429-467 | what a restored PDO reads as, parameter by parameter |
| `PdoConfig.OverlongBreaks` | src/co_pdo.c:132-142 | a concrete refused write that leaves an empty mapping with a length of 128 bits |
| `PdoConfig.CountBounded` | src/co_pdo.c:123-128 | over any run in any state, also of restores and during initialisation, at most 8 mappings are in use |
| `PdoConfig.ChangesNeedDisabling` | src/co_pdo.c:188-260 | on a configured node COB-ID, mapping, count, inhibit time and SYNC start of an enabled PDO are unchanged until it has been disabled; between two different valid COB-IDs there is an invalid one |
| `PdoConfig.CacheAgrees` | src/co_pdo.c:285-329 | over any run in any state, the object and entry saved in a slot written since the last restore are what a look-up of its mapping word gives, with the same length and the flag of the direction of the PDO, or none for padding |
| `PdoConfig.PackingThroughCache` | src/co_pdo.c:77-98 | with such slots, packing through the saved look-ups is packing by looking up |
| `PdoConfig.RestoreAgreesIff` | src/co_pdo.c:464-467 | a restore clears the mapping words but not the look-ups, so a slot agrees with the dictionary exactly if nothing had been saved in it |
| `PdoConfig.AgreesIsSound` | src/co_pdo.c:300-329 | an accepted mapping has storage at least as wide as its field and names the entry of its own key |
| `PdoConfig.SlotsRemember` | src/co_pdo.c:316-329 | over any run in any state, restores included, every slot saves an entry of the dictionary or none |
| `PdoConfig.StoredIffHasPlace` | src/co_pdo.c:85-93 | a saved entry is packed from its own storage, also after a restore, exactly if it is not an array entry under a subindex outside the array |
| `PdoTraffic.TransmitMeans` | src/co_pdo.c:537-555 | a transmission is held back exactly within the inhibit time of an event-driven PDO; otherwise one message with the identifier, length and numbers of now is sent, and the PDO is no longer queued |
| `PdoTraffic.SyncMeans` | src/co_pdo.c:702-750 | a transmit PDO at a SYNC: disabled ones do nothing, queued ones go out whatever their type, cyclic ones wait, count or go out, FCh is sampled, others do nothing |
| `PdoTraffic.RequestMeans` | src/co_pdo.c:778-806 | which transmission types answer a remote request with the values of now, which with what their frame holds, and which not at all |
| `PdoTraffic.InhibitHolds` | src/co_pdo.c:537-555 | over any run of SYNCs and remote requests two messages of an event-driven PDO are never closer than its inhibit time |
| `PdoTraffic.ReceiveMeans` | src/co_pdo.c:808-855 | a data frame: not its own, too short and reported, after the SYNC window and dropped, or taken over the frame buffer and delivered at once or at the next SYNC, with monitoring armed |
| `PdoTraffic.SyncDelivers` | src/co_pdo.c:752-762 | what was kept is delivered at the next SYNC, and nothing else |
| `PdoTraffic.TickIff` | src/co_sync.c:127-185 | a SYNC is sent exactly in pre-operational or operational state, with bit 30 of 1005h set and a period other than zero over; its identifier, number and the counter after it |
| `PdoTraffic.SyncsAreRegular` | src/co_sync.c:127-185 | over any run two SYNCs are never closer than the period, and the k-th carries the k-th counter, or nothing without an overflow value |
| `PdoBus.SyncedMeans` | src/co_pdo.c:692-770 | a node at a SYNC: every transmit PDO acts on the values of before, messages in table order, then every queued frame is delivered in table order; nothing outside the operational state |
| `PdoBus.FramedMeans` | src/co_pdo.c:772-857 | in operational state only: a remote request is put to every transmit PDO, a data frame to every receive PDO, in table order, and one emergency is sent for each that finds it too short |
| `PdoSync.CyclicSchedule` | src/co_pdo.c:714-744 | a free PDO of type N goes out after N - c SYNCs if its counter c is below N and 256 - c + N otherwise, and at every N-th SYNC from then on |
| `PdoSync.EveryNth` | src/co_pdo.c:736-744 | from counter zero, k SYNCs cause exactly k / N transmissions |
| `PdoSync.CounterCycles` | src/co_sync.c:150-168 | from any counter the producer counts up to 255 and 0 until it is in 1..V, at once, after one SYNC from 0, and after 257 - c from c above V, and then stays there and goes round |
| `PdoSync.CounterPeriod` | src/co_sync.c:150-168 | from then on with period V |
| `PdoSync.WaitsThenCycles` | src/co_pdo.c:716-744 | from any counter and overflow value, 0 included: a waiting PDO whose SYNC start the producer reaches is untouched before that SYNC, released by it within V SYNCs if the counter is in 1..V and within 256 otherwise, and then on schedule counting that SYNC as its first |
| `PdoSync.ReleasedIffReachable` | src/co_pdo.c:716-734 | from any counter c, over a full cycle if c is in 1..V and 256 SYNCs otherwise, a waiting PDO is released exactly if SYNCs are not numbered (V = 0), or its SYNC start is in 1..240 and at most V, or V < c <= start; otherwise it never sends |
| `PdoSync.ReachedOnTheWayUp` | src/co_sync.c:150-168 | a start above V is emitted by a counter between V and the start on its way up, after exactly start - c SYNCs, and never again |
| `PdoSync.NodeToNode` | src/co_pdo.c:692-857 | a message transmitted by one node and received by another with the same lengths is stored at the next SYNC if synchronous and at once if event-driven, as the sender's values modulo their field sizes, and nothing else changes |
| `PdoNode.WalkableIff` | src/co_pdo.c:77-121 | a consistent mapping satisfies the assertions of packing exactly if no slot of no bits ends a full frame and every saved entry has a place, and those of unpacking exactly if this holds of the slots with an entry |
| `PdoNode.RunWalkableIff` | src/co_pdo.c:77-98 | the same for packing after any run that leaves the mapping consistent, restores included |
| `PdoNode.ZeroPaddingOverhangs` | src/co_pdo.c:286-292 | the exception can be configured: 64 mapped bits and padding of none are accepted, counted and enabled, and the PDO cannot be packed |
| `PdoNode.PdoObject.MappingValidate` | src/co_pdo.c:123-148 | the loop sums the first n lengths; bounds, overwritten length and flags as the source leaves them on every path |
| `PdoNode.PdoObject.GetComm` | src/co_pdo.c:150-177 | communication parameters as they stand, by subindex |
| `PdoNode.PdoObject.GetMap` | src/co_pdo.c:225-239 | count and mapping words as they stand, by subindex |
| `PdoNode.PdoObject.SetComm` | src/co_pdo.c:179-223 | communication parameters in place, with every refusal |
| `PdoNode.PdoObject.SetMap` | src/co_pdo.c:241-332 | mapping parameters in place: state, count, padding, look-up, length and direction checks in order, and what is saved |
| `PdoConfig.RestoredIsDefault` | src/co_pdo.c:430-438 | a restored PDO is disabled with its mapping kept; enabling one of the first four under the COB-ID it was given is accepted and makes it that of the pre-defined connection set, node-ID in the low seven bits and function code 3 to 10 above |
| `PdoConfig.DefaultIdsDistinct` | src/co_pdo.c:493-500 | no two PDOs of a network share a default COB-ID |
| `PdoSync.RestoredIsInert` | src/co_pdo.c:430-438 | a restored PDO neither sends nor receives, at a SYNC, a request or a frame; a frame queued before the restore is still delivered to the slots in use at the next SYNC, and nothing else is |
| `PdoNode.PdoObject.RestoreMap` | src/co_pdo.c:464-467 | eight zero mapping words, with the saved look-ups as they were |
| `PdoNode.PdoObject.StartMapping` | src/co_pdo.c:334-355 | an enabled PDO is validated again on start, the verdict ignored |
| `PdoNode.PdoObject.Pack` | src/co_pdo.c:77-98 | the loop with a running offset leaves the packed frame of the current values |
| `PdoNode.PdoObject.Unpack` | src/co_pdo.c:100-121 | the loop with a running offset delivers every field of the frame to its entry, in order |
| `PdoNode.PdoObject.Transmit` | src/co_pdo.c:537-555 | nothing while inhibited; otherwise a sampled frame of just enough bytes, and the PDO no longer queued |
| `PdoNode.PdoObject.OnSync` | src/co_pdo.c:702-750 | one transmit PDO at a SYNC: queued, waiting, counted, sampled or left alone |
| `PdoNode.PdoObject.Flush` | src/co_pdo.c:752-762 | one receive PDO at a SYNC: delivered if queued |
| `PdoSync.RequestShowsNow` | src/co_pdo.c:789-794 | a remote request of an event-driven PDO, or of one for requests at any time, is answered with the values of now, each modulo its field size |
| `PdoSync.RequestShowsLastSync` | src/co_pdo.c:744-750 | a remote request of a PDO for requests after SYNC is answered with the values at the last SYNC, whatever has changed since |
| `PdoSync.RequestRepeatsLast` | src/co_pdo.c:795-806 | a remote request of a cyclic PDO repeats the data it sent last |
| `PdoNode.PdoObject.OnFrame` | src/co_pdo.c:808-855 | one receive PDO at a frame: too short, too late, delivered or queued; deadline monitoring armed |
| `PdoEngine.DeliveredOnce` | src/co_pdo.c:752-762 | after a SYNC nothing is queued: a second one changes neither the store nor any receive PDO |
| `PdoEngine.PdoEngine.Sync` | src/co_pdo.c:692-770 | the loops over both tables, in operational state only: all messages in table order, then all deliveries in table order |
| `PdoEngine.PdoEngine.Rx` | src/co_pdo.c:772-857 | remote requests go to the transmit table, data to the receive table, with one emergency for each PDO that finds the frame too short |
| `PdoEngine.PdoEngine.SyncTimer` | src/co_sync.c:139-185 | exactly when due, a SYNC is sent with the counter before it is advanced, the node acts on it, and the counter cycles |
| `Lss.Match` | src/co_lss.c:116-154 | the match byte is always a prefix mask 2^k - 1, where k counts the criteria met in order since the last clear |
| `Lss.LevelMeansLast` | src/co_lss.c:295-334 | over any run of switch-selective frames, each criterion counted as met is exactly the last value asked for |
| `Lss.EntersOnlyIfAddressed` | src/co_lss.c:295-334 | a slave enters configuration only if the last vendor, product, revision and serial frames all equal its identity |
| `Lss.AtMostOneSelected` | src/co_lss.c:295-334 | two slaves with different identities never enter on the same frame |
| `Lss.AddressedIff` | src/co_lss.c:295-334 | from any match value that can occur between frames, the four frames that name a slave select it and no other |
| `Lss.OutOfOrderIgnored` | src/co_lss.c:116-125 | a test whose predecessors have not been met is ignored, whatever it asks for |
| `Lss.LevelBounded` | src/co_lss.c:116-154 | over any mix of both services the mask between frames never holds all six criteria |
| `Lss.LevelMeansLastTest` | src/co_lss.c:384-423 | over any mix, each criterion counted as met was met by its own last test |
| `Lss.RangeSelectsIff` | src/co_lss.c:295-423 | after any frames of either service, an addressing sequence that asks for the revision as a range by identify-remote frames selects exactly the slaves within it |
| `Lss.RangeUniqueIff` | src/co_lss.c:295-423 | so it selects at most one slave exactly if the range has at most one revision |
| `Lss.AtMostOneSelectedMixed` | src/co_lss.c:295-423 | for arbitrary mixes, uniqueness holds if the last two revision tests asked for one value |
| `Lss.MixingSelectsTwo` | src/co_lss.c:295-423 | and fails otherwise: a concrete run that selects every slave of a range of revisions at once |
| `Nmt.ListIsDiagram` | src/co_nmt.c:107-125 | the transition list means the state diagram: initialisation in order, commands on a running node, everything else stays |
| `Nmt.BuildTable` | src/co_nmt.c:163-184 | the table filled by the nested loops and the list is the diagram in every cell |
| `NodeControl.AtMostFourRounds` | src/co_nmt.c:137-161 | the event loop makes at most four rounds from every state and event |
| `NodeControl.ResetSettles` | src/co_nmt.c:46-105 | a reset ends pre-operational under the persistent node-ID with exactly one boot-up message if that ID is not FFh, and parked in INIT_COMM without one otherwise |
| `NodeControl.ResetCommSettles` | src/co_nmt.c:58-87 | the same for a communication reset and the pending node-ID |
| `NodeControl.OtherEvents` | src/co_nmt.c:137-161 | every other event moves the state by the diagram and changes neither IDs nor store, without boot-up message |
| `NodeControl.ParkedIgnores` | src/co_nmt.c:137-161 | a parked node ignores every command and error behaviour |
| `NodeCommands.CommandsMean` | src/co_nmt.c:191-241 | commands to a running node addressed by its ID or 0, with every action they cause: 01h starts, 02h stops, 80h makes pre-operational, 81h resets the application, 82h the communication; any other command, address, identifier or length does nothing |
| `NodeCommands.ResetMeans` | src/co_nmt.c:46-87 | both resets end pre-operational with one boot-up message under the new node-ID, or parked without one |
| `NodeCommands.PowersUp` | src/co_nmt.c:96-105 | power-on: waiting, empty match, stored bit rate, then an application reset |
| `NodeCommands.ErrorsMean` | src/co_emcy.c:65-81 | error behaviour 0 makes an operational node pre-operational, 2 stops a running one, any other does nothing |
| `NodeRuns.BootKeepsIds` | src/co_nmt.c:163-189 | from an assignable configured ID and a store written only by LSS, booting reaches a safe state |
| `NodeRuns.RunKeepsIds` | src/co_lss.c:156-204 | over any interleaving of NMT commands, LSS frames and error behaviour the pending ID stays in 1..127 or FFh, the active ID in 1..127 while running, and between inputs the node runs or is parked |
| `NodeRuns.ParkedLeavesIff` | src/co_lss.c:156-180 | a parked node leaves exactly by a switch from configuration to waiting with a pending ID in 1..127, which becomes its own, with one boot-up message |
| `NodeSettings.RunKeepsRates` | src/co_lss.c:206-231 | over any run the active, pending and stored bit rates are supported ones or the one configured at start, whatever a master sends |
| `NodeSettings.BootKeepsRates` | src/co_lss.c:515-549 | and so they are after booting with a store written only by LSS |
| `NodeSettings.RateChangesOnlyByActivation` | src/co_lss.c:233-249 | the active bit rate of a node that is up changes only by the activate service in configuration, which takes the pending one and restarts the bus with it |
| `NodeSettings.BootTakes` | src/co_lss.c:484-549 | a boot ends with the stored bit rate active and pending and the stored node-ID taken, if the store holds them, and the configured ones otherwise |
| `LssServices.StoredMeans` | src/co_lss.c:484-549 | a device boots with the node-ID in byte 0 of the store and the bit rate in bytes 1 to 4, least significant first, as far as the store holds them, and as configured otherwise |
| `NodeSettings.UnstoredBootsAsConfigured` | src/co_lss.c:484-549 | without a store, or with one that holds no node-ID, a device boots with the configured node-ID and bit rate |
| `NodeSettings.StoredSurvivesPowerCycle` | src/co_lss.c:251-293 | what the store service writes is what the device boots with from then on, node-ID and bit rate, whatever it was configured with |
| `NodeSettings.AddressSelectsIff` | src/co_lss.c:295-334 | on the wire, the four requests that name a slave make exactly that slave enter configuration and answer once; every other is left as it was but for its match value |
| `NodeSettings.InquiredIdentitySelects` | src/co_lss.c:336-364 | what a slave in configuration answers to the four inquiries are the values that address it and no slave of another identity |
| `NodeSettings.NonConfiguredAnswersIff` | src/co_lss.c:366-382 | identify non-configured slaves is answered by exactly the slaves in configuration without a node-ID to run with |
| `LssServices.IgnoredUnless` | src/co_lss.c:425-482 | frames of another identifier than 7E5h or another length, and services for configuration to a waiting slave, do nothing |
| `LssServices.GlobalMeans` | src/co_lss.c:156-180 | mode 1 is configuration, mode 0 waiting, others nothing; a parked slave leaving configuration with a pending ID boots under it |
| `LssServices.NodeIdMeans` | src/co_lss.c:182-204 | 1 to 127 and 255 become pending and are answered 0, any other is answered 1 and changes nothing |
| `LssServices.BitTimingMeans` | src/co_lss.c:89-104 | index 0 to 8 of table 0 but 5 makes pending 1000, 800, 500, 250, 125, 50, 20 or 10 kbit/s; any other is answered 1 |
| `LssServices.StoreMeans` | src/co_lss.c:251-293 | the store holds the node-ID and the bit rate, least significant byte first; without one 1 is answered |
| `LssServices.InquiryMeans` | src/co_lss.c:336-364 | 5Ah to 5Eh are answered with vendor, product, revision, serial number and node-ID |
| `LssServices.SelectionAnswered` | src/co_lss.c:295-334 | switch selective is answered with 44h by exactly the slave named |
| `LssServices.IdentifiedIff` | src/co_lss.c:384-423 | the six identify-remote requests are answered with 4Fh by exactly the slaves of that vendor and product within both ranges, whatever was asked before, and change nothing else |
| `NodeSettings.CommissioningWorks` | src/co_lss.c:156-334 | addressing a parked slave, giving it an ID, storing it and switching to waiting gets exactly that slave going under the ID with one boot-up message, for every later boot too, and no longer answering as non-configured |
| `NetNode.NetNode.HandleEvents` | src/co_nmt.c:137-161 | the do-while loop over the table, changing the node in place, is the event loop of the diagram and stops |
| `NetNode.NetNode.Perform` | src/co_nmt.c:46-105 | the actions of the transitions, in place |
| `NetNode.NetNode.NmtRx` | src/co_nmt.c:191-241 | an NMT command acts if addressed to this node or all, of the right length and known |
| `NetNode.NetNode.TriggerErrorBehaviour` | src/co_emcy.c:65-81 | error behaviour as an event, by the configured setting |
| `NetNode.NetNode.GlobalSwitch` | src/co_lss.c:156-180 | switching the LSS state, and getting a parked node going |
| `NetNode.NetNode.ConfigureNodeId` | src/co_lss.c:182-204 | only IDs 1..127 and FFh become pending, only in configuration, always answered |
| `NetNode.NetNode.StoreConfiguration` | src/co_lss.c:251-293 | pending ID and bit rate are written as five bytes, or not supported is answered |
| `NetNode.NetNode.SwitchSelective` | src/co_lss.c:295-334 | the tests of one frame on the match byte; a full match clears it, enters configuration and is answered |
| `NetNode.NetNode.IdentifyRemote` | src/co_lss.c:384-423 | the same match byte for the other service; a full match clears it and is answered |
| `NetNode.NetNode.LssRx` | src/co_lss.c:425-482 | dispatch of the whole service in place; other identifiers and lengths change nothing |
| `NetNode.NetNode.PersistentNodeId` | src/co_lss.c:484-513 | the stored node-ID unless there is none or it is 0, else the active one |
| `Bitmap.Bitmap.Set` | src/co_bitmap.c:22-29 | adds exactly that member |
| `Bitmap.Bitmap.Clear` | src/co_bitmap.c:31-38 | removes exactly that member |
| `Bitmap.Bitmap.Get` | src/co_bitmap.c:40-47 | membership |
| `Bitmap.Bitmap.Next` | src/co_bitmap.c:49-65 | the word-wise search with a mask and count-trailing-zeros returns the least member from the given bit up, or 0 if there is none |
| `Bitmap.Bitmap.NodeNext` | src/co_main.c:207-215 | the same for any node number, 0 past the last |
| `Bitmap.Bitmap.Iterate` | include/co_api.h:368-396 | the documented iteration visits every member exactly once in increasing order precisely if 0 is not a member |
| `Bits.LowMask` | src/co_lss.c:118-118 | BIT(i) - 1, computed with borrows, has exactly the bits below i |
| `Bits.HighMask` | src/co_bitmap.c:49-65 | the negation of BIT(i) has exactly the bits from i up |
| `Bits.NumOfDecrement` | src/co_pdo.c:58-68 | the borrow chain is subtraction of one modulo 2^n |
| `Bits.NumOfNegate` | src/co_bitmap.c:49-65 | inverting above the lowest one is two's complement negation |
| `Bits.NumOfBitsOf` | src/co_pdo.c:537-555 | the bits of a value in memory are the binary digits of its little-endian number |

The remaining members are steps of these proofs, and handlers in place whose meaning is stated by the
lemmas cited for their lines: `PdoNode.PdoObject.RestoreComm` and `OnRequest`, and
`NetNode.NetNode.ConfigureBitTiming`, `ActivateBitTiming`, `InquireIdentity`, `IdentifyNonConfigured`
and `PersistentRate`.

## Left out

- AtMostOneSelectedMixed: for arbitrary mixes of the two services only a sufficient condition is
  stated, because tests of the revision outside one addressing sequence may have excluded slaves
  before; for a complete sequence after any frames the exact one is `RangeUniqueIff`.
- WriteStream: the part of the stream written before a value turned out to be unreadable is not
  specified, nor are failures of the file functions themselves.
- UploadEndToEnd: a value of 2^32 bytes or more is announced modulo 2^32, as the field has 32 bits;
  the limit of the transfer follows that number.
- SlotsWalkable: what is read or written through a saved array entry without a place, in front of the
  array, is not modelled, so `Pack`, `Unpack`, `Transmit` and the handlers that reach them require a
  place whenever they do; nor is what packing does at offset 64, where an assertion fails.
- Packed: accordingly `PackedBit`, `SlotIsValue` and `NodeToNode` speak of mappings that packing
  accepts, those without an `Overhang`; of others they say what would happen if nothing were
  deposited at offset 64.
- Sent: a PDO length above 64 bits, left by a refused number of mappings, is passed to the driver as
  it is; the model sends the eight bytes of the frame.
- The server's timer in whole transfers: it measures from the last progress of the server, and is
  specified for itself (`SdoNode.SdoNode.ServerTimer`).
- A value without storage (a constant in its descriptor) is treated as storage like any other.
- What an access function does besides answering: those of the communication profile appear as the
  operations of their own component (`PdoConfig.Step` for 1400h to 1BFFh), and reading through an
  access function has no effect.
- The return codes of the receive handlers, and all logging.
- Application callbacks other than object notification, state change and completion of an SDO job.
- The choice of transfer parameters and buffers by the calling threads, mailboxes and semaphores:
  the client job is given.
- CAN drivers and channels: sending appends to a sequence, receiving is a method argument.
- Delays and the bus-off and bus-on sequence around a change of bit rate are one event.
- Event-timer and deadline supervision of PDOs, and application triggers: only the flags they use
  are kept.
- Searching a PDO by object index: an easy member only.
- Emergency objects, heartbeat and node guarding: represented by error-behaviour events of NMT and,
  for short PDO frames, by a count.
- The SYNC consumer's choice of identifier, and the objects 1005h, 1006h and 1019h: their values are
  fields of the engine.
- The identity object read by LSS is a constant of the device.
- Unsupported data types (an assertion in the code), endianness conversion, atomic access and
  alignment.
- Interleaving of a transfer with another one, or with a change of the dictionary, while both ends
  are under way: the cursor properties hold for any interleaving of frames, the end-to-end ones for
  one transfer at a time.
