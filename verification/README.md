# Kaos CoAP stack: a verified model

A Dafny model of `unicoap`, the CoAP stack of Kaos, and of the signal ID pool of its kernel.
`dafny verify dfyconfig.toml` checks everything.

What is modelled, in the order of the dependencies:

- **Options** (`Codec`, `Buffers`, `OptionLists`, `OptionEdits`, `OptionGaps`, `OptionStores`, `OptionParsing`, `OptionRuns`).
  The option store keeps options delta-encoded in a byte buffer and edits them in place, with a lookup array beside the bytes. It
  is a class over a byte array; a ghost list of options says what it holds. `Represents` ties the three together: the bytes are
  the encoding of the list and the entries are its index. `Spread` says as much of bytes with gaps, which a removal can leave.
  Every mutator is proved to be a one-line operation on the list.
- **Values** (`OptionValues`, `OptionUints`). Iteration, values joined by a separator and split again, integers of variable
  length.
- **PDUs** (`Pdu`, `Iolists`, `PduBuild`). Parser, contiguous builder and vectored builder, with both round trips.
- **Message layer** (`Reliability`, `ReliabilityRuns`, `Retransmissions`, `Exchange`, `ExchangeRuns`, `Answers`, `Messaging`,
  `Server`). `Reliability` is a machine on values: states, one function per operation, and runs over arbitrary sequences of sends,
  acknowledgements, resets and timeouts. `ReliabilityRuns` proves what holds over whole runs, `Retransmissions` what the timeouts
  of one transmission do from the send that begins it. `Exchange` adds inbound processing and the server's replies, and
  `ExchangeRuns` runs with arriving messages. `Answers` states what a peer parses from the datagrams that the machine sends, for
  every kind of message. `Messaging` and `Server` are the code in its own form, arrays of transmissions and PDU copies claimed and
  cleared in place, proved to follow the machine.
- **Routing** (`Paths`, `Routing`, `Requests`). Both path matchers, the search over listeners and resources, and what a received
  request is answered with.
- **Signals** (`Signals`). The bitmap allocator as a set of IDs.

Conventions. A pointer into a buffer is an offset into an array. Bytes are integers in 0..255; or-ing into bits that are clear
is written as adding, except in `Signals`, which uses bit vectors. A failing `assert` is an outcome (`Trap`, when assertions are
compiled in), and so are a null dereference (`Crash`) and an access behind the end of a buffer (`Overrun`; `OutOfBuffer` in an
option store); nothing is said about what happens after them. What a function does not decide itself is a parameter: random
draws, the transport's return value, what a handler does, what the surroundings look up. Sends, inbound messages and timeouts are
atomic steps.

## Where the code falls short of its intent

The model follows the code. Each of these is a proved statement with its exact condition.

- `unicoap/options.c:291` applies the width of a value to a delta nibble. The window read is in place exactly for deltas below 269
  (`OptionStores.OptionStore.ReadEntry`, `OptionRuns.NibbleTakenForDelta`). Beyond, it begins one byte early; its bytes are still
  those of the value exactly if the size comes out right and all of them are like the byte in front (`OptionEdits.RightIff`).
  Strings and integers follow (`OptionValues.SplitThenJoin`, `OptionUints.UintRoundTrip`).
- `unicoap/options.c:763` gives back the size of one option when several are dropped. The store stays consistent exactly if the
  removed number is not repeated at the very end (`OptionStores.OptionStore.RemoveAll`). Otherwise the bytes in use never parse
  to the options of the store again, however many are added. If no option remains, the next one starts the storage anew behind
  the leftovers, with the same capacity, and later additions leave the buffer exactly when it has no room for the leftovers twice
  and the options (`OptionRuns.RemoveThenAdd`).
- `unicoap/options.c:349` asserts `<` where `<=` is meant. The assertion fails exactly when the buffer is full and there is
  something to move (`OptionStores.OptionStore.ShiftOptions`, `OptionRuns.TrapExample`).
- `unicoap/options.c:265` and `unicoap/options.c:495` cut deltas and numbers to 16 bits. A parsed store is valid exactly if no
  number overflows (`OptionParsing.ParsedListIff`).
- `unicoap/options.c:489` leaves a capacity of the options plus the marker, although the comment above it promises the options
  only (`OptionStores.OptionStore.ParsePdu`).
- `unicoap/options.c:485-492` accepts a marker without payload (`Pdu.ParseThenSerialise`).
- `unicoap/options.c:570` stops joining at the first empty value and asks for one byte more than a single value needs
  (`OptionValues.CopyValuesJoined`, `OptionValues.SplitThenJoin`).
- `unicoap/options.c:899-915` cannot read the encoding of zero (`OptionUints.UintBytes`).
- `unicoap/utils.c:194` writes the marker without looking at the room. It overruns exactly when there is a payload and the
  options fill the room (`PduBuild.BuildOptionsAndPayload`).
- `messaging.c:750` dereferences the slot without looking whether there is one. That can be reached exactly when more copies than
  slots are configured; the defaults, two of each, are safe (`ReliabilityRuns.CrashIff`).
- `messaging.c:427-460` never gives a slot back after the last timeout or a failed resend. Only an acknowledgement or a reset
  does (`ReliabilityRuns.GivenUp`, `ReliabilityRuns.PoolExhausted`).
- `messaging.c:750` stores the number of retransmissions in five bits, so the permitted setting 32 means none
  (`ReliabilityRuns.ThirtyTwoMeansNone`).
- `unicoap/server.c:335-337` sends its fallback with the packet that the failed attempt left behind. If that attempt was
  confirmable, the fallback goes out as an acknowledgement with this endpoint's own message ID, even to a non-confirmable request,
  against sections 4.2 and 4.3 of RFC 7252. This needs a resource with RELIABLE. `Exchange.Misanswered` is the exact condition;
  outside it the discipline of those sections holds always (`Exchange.ReplyDiscipline`, `Exchange.NonConfirmableAcknowledged`,
  `Exchange.SecondAcknowledgement`, `ExchangeRuns.WireDiscipline`).
- The comments in `unicoap/server.c:332-334` speak of 5.05 where the code sends 5.00, which the model follows (`Answers.BodyReads`).
- The two path matchers (`unicoap/server.c:46-166`) disagree on resource paths with doubled or trailing slashes and on request
  components that contain one (`Paths.MatchersAgreeIff`, `Paths.RequestAgreesIff`, `Paths.SubtreeRequestAgreesIff`).
- `kaos_signals.c:53` reads behind the pool for IDs that were never handed out, among them the one that says that none was
  free (`Signals.SignalPool.ReleaseId`).

## Main results

- Every mutation of the option store, and every sequence of them, follows a machine on option lists, with exact failures, traps
  and leftovers (`OptionStores.OptionStore.Add`, `Set`, `RemoveAll`, `SwapStorage`; `OptionRuns.PerformAll`), and the bytes parse
  back to the list (`OptionRuns.ReparseAgrees`). What leftovers do to later additions is stated exactly (`OptionRuns.RemoveThenAdd`).
- Serialising and parsing are inverse to each other, in both directions (`Pdu.SerialiseThenParse`, `Pdu.ParseThenSerialise`),
  what the parser accepts and rejects is stated exactly (`Pdu.AcceptedIff`, `Pdu.RejectedIff`), and both builders write those
  bytes (`PduBuild.BuildPdu`, `PduBuild.BuildVector`).
- Over all runs the pools are owned one to one, waits stay within the bounds of RFC 7252, and the null dereference is reachable
  exactly with more copies than slots (`ReliabilityRuns.OwnershipOverRuns`, `WaitsOverRuns`, `CrashIff`).
- Over all runs each timeout of a transmission sends the datagram that began it once more, until all attempts are used up or the
  transport fails, and not after that (`Retransmissions.RetransmissionsOverRuns`).
- Over all histories every acknowledgement and reset is accounted for, and timeouts only repeat what was sent
  (`ExchangeRuns.WireDiscipline`, `ExchangeRuns.TimeoutsRepeat`).
- Whatever is sent is parsed by the peer as the message that was meant, and exactly when it is sent is stated (`Answers.SendReads`).
  For every inbound message it is stated what its sender gets to read (`Answers.HandlerAnswers`, `RefusalReads`, `OthersAnswered`).
- The arrays of the code in its own form follow that machine (`Messaging.Messenger.Send`, `OnAckTimeout`, `Server.Receive`).
- A received request is answered, from bytes to bytes, as the handler of the first resource that serves it decides, else with
  4.05 or 4.04 (`Requests.RequestReadBack`).
- Splitting a string into options and joining what is read for them restores it exactly for clean strings whose first component
  is read as it is (`OptionValues.SplitThenJoin`).
- Both path matchers decide the same relation exactly for paths in slashed form (`Paths.MatchersAgreeIff`).
- Signal IDs: the least free one is assigned, and one is free while the queues can hold them (`Signals.SignalPool.Assign`,
  `Signals.NeverExhausted`).

## Model

| member | source | states |
|---|---|---|
| Codec.ExtRoundTrip | unicoap/options.c:134-202 | every value in 0..65804 is read back from the nibble and the extension bytes written for it, whatever follows |
| Codec.ExtUnique | unicoap/options.c:134-202 | a nibble and bytes that are read as a value are the ones that the value is written as, so each value has one encoding |
| Codec.ExtSubadditive | unicoap/options.c:118-132 | the width of a sum is at most one more than the widths of its parts |
| Codec.HeadIsNotMarker | unicoap/options.c:309-319 | no option head is 0xff, so the payload marker is unambiguous; the head holds both nibbles |
| Codec.KnownOptions | unicoap/options.c:309-319 | options of section 3.1 of RFC 7252 byte by byte, with every width of the extensions |
| Codec.ReadEncoded | unicoap/options.c:238-319 | an option is read back from its bytes with its delta, value and size, whatever follows |
| Codec.ReadUnique | unicoap/options.c:238-319 | bytes read as an option are exactly the bytes written for it |
| Codec.EncodeConcat | unicoap/options.c:589-684 | bytes and lookup entries of a concatenated list split at the seam, the second part continuing from the last number of the first |
| Codec.IndexAt | unicoap/options.c:494-511 | entry k holds the number of option k, the sum of the sizes before it, and its own size |
| Codec.IndexShift | unicoap/options.c:353-371 | moving the bytes by some distance moves every entry by that distance and changes nothing else in it |
| Buffers.MemMove | unicoap/options.c:343-351 | overlapping move: the destination receives what the source region held before, the rest stays |
| Buffers.WriteExt | unicoap/options.c:183-202 | writes the extension bytes of a value at the cursor, returns its nibble and advances the cursor past them |
| Buffers.WriteHeadPartial | unicoap/options.c:321-326 | writes head byte and extended delta and keeps a given length nibble |
| Buffers.WriteOption | unicoap/options.c:309-319 | writes exactly the encoding of the option, although the length nibble is or-ed into the head byte later |
| Buffers.HeadCompleted | unicoap/options.c:309-319 | or-ing the length nibble into a head byte with clear low bits gives the same bytes as writing the whole head at once |
| OptionLists.InsertSpec | unicoap/options.c:589-684 | adding keeps the list sorted, appends to the values of its own number and leaves those of every other number alone |
| OptionLists.UpdateSpec | unicoap/options.c:713-739 | setting replaces the first value of its number or adds the only one; every other value stays |
| OptionLists.SetThenGet | unicoap/options.c:713-739 | after a set the first option of that number holds the value that was set; values of other numbers are unchanged |
| OptionLists.WithoutSpec | unicoap/options.c:741-822 | removing empties one number, keeps the values of all others and the order |
| OptionLists.WithoutRun | unicoap/options.c:752-759 | in a sorted list the removed options form one run, so cutting out that run is removing them all |
| OptionLists.FirstValue | unicoap/options.c:433-446 | the first option of a number carries the first of its values |
| OptionEdits.SetDone | unicoap/options.c:725-737 | the byte moves and entry updates of a replacement turn a packed list into the packed updated list |
| OptionEdits.RemoveDone | unicoap/options.c:766-820 | likewise for a removed run, with the head of the successor rewritten for its merged delta |
| OptionEdits.RemovalNeverGrows | unicoap/options.c:773-787 | the list without a number never needs more bytes than before, for every sorted list and number |
| OptionEdits.TrailingCut | unicoap/options.c:761-765 | dropping a run at the end gives back the right number of bytes if and only if the run has one option |
| OptionEdits.ReadPlan | unicoap/options.c:286-307 | where the head, the extension bytes and the value of option i lie in the packed bytes |
| OptionEdits.FarBytes | unicoap/options.c:286-307 | with a delta of 269 or more, the second extension byte of the delta stands where a read looks for the length |
| OptionEdits.ReadFinds | unicoap/options.c:286-307 | a read that takes the delta nibble for a delta finds the value, or with a delta of 269 or more a window that begins one byte early and whose size comes from misread extension bytes |
| OptionEdits.RightIff | unicoap/options.c:286-307 | the bytes that a read finds are the value if and only if the delta is below 269, or the size read is right and all bytes of the value are like the one in front of them |
| OptionGaps.PackedSpread | unicoap/options.c:589-684 | a packed list is one without gaps |
| OptionGaps.SpreadTight | unicoap/options.c:589-684 | options that stand in order in no more room than they need are packed |
| OptionGaps.AppendSpread | unicoap/options.c:611-624 | an option written behind the bytes in use stands there, and all others still stand where they were; if it is the only one, the front has moved |
| OptionGaps.InsertReady | unicoap/options.c:626-645 | what the code computes before an insertion, from entry and bytes, is what the list asks for |
| OptionGaps.InsertSpread | unicoap/options.c:626-683 | the byte moves and entry updates of an insertion make the longer list stand there, gaps and all |
| OptionStores.OptionStore.UpdateEntries | unicoap/options.c:365-371 | relocates the entries from an index on and no others |
| OptionStores.OptionStore.ShiftEntries | unicoap/options.c:384-391 | moves the entries from an index on within the array and corrects the count |
| OptionStores.OptionStore.ShiftOptions | unicoap/options.c:343-351 | fails exactly when the new size exceeds the capacity; with assertions compiled in it traps exactly when the buffer was full and there is something to move; it leaves the buffer exactly when the bytes in use do; else bytes, entries and size are moved |
| OptionStores.OptionStore.IntactIff | unicoap/options.c:761-765 | a store whose bytes and entries agree is consistent if and only if all its bytes in use belong to its options |
| OptionStores.OptionStore.FindIndex | unicoap/options.c:433-446 | the early exit at a larger number gives the same answer as searching the whole list |
| OptionStores.OptionStore.AppendEdits | unicoap/options.c:611-624 | trailing branch of add on bytes and entries; if bytes are left over and no option is, the storage begins behind them from then on |
| OptionStores.OptionStore.Append | unicoap/options.c:611-624 | trailing branch of add on the list, with exact failure, and exactly when it writes behind the buffer |
| OptionStores.OptionStore.InsertEdits | unicoap/options.c:626-682 | middle branch of add on bytes and entries |
| OptionStores.OptionStore.InsertBefore | unicoap/options.c:626-682 | middle branch of add on the list: the option lands in its place, all entries are right again, gaps stay; exact failure, trap and overrun |
| OptionStores.OptionStore.Add | unicoap/options.c:589-684 | on every store whose bytes and entries agree, consistent or not: the list becomes the one with the option behind all numbers at most its own, entries and bytes agree with it, and as many bytes as before belong to no option; it fails if and only if the count is at its maximum or the bytes exceed the capacity, traps exactly on a full store when the option does not go to the end, and leaves the buffer exactly when the storage reaches behind it; a failure changes nothing, and nothing outside changes |
| OptionStores.OptionStore.SetAt | unicoap/options.c:725-737 | replacing branch of set on the list |
| OptionStores.OptionStore.Set | unicoap/options.c:713-739 | the bytes become the encoding of the updated list; exact failure and trap conditions; a failure changes nothing |
| OptionStores.OptionStore.RunSize | unicoap/options.c:778-781 | the sizes of a run add up to the distance between its first entry and the next one |
| OptionStores.OptionStore.RemovalNumbers | unicoap/options.c:768-781 | the merged delta of the successor and the size changes |
| OptionStores.OptionStore.RemoveEdits | unicoap/options.c:766-820 | branch with a successor on bytes and entries |
| OptionStores.OptionStore.DropTail | unicoap/options.c:761-765 | trailing branch: entries and list are right, the size is right if and only if one option was dropped |
| OptionStores.OptionStore.CutOut | unicoap/options.c:766-820 | branch with a successor on the list |
| OptionStores.OptionStore.RemoveAll | unicoap/options.c:741-822 | always succeeds; list and entries become those without the number; the store is consistent if and only if the number was not repeated at the very end, and otherwise exactly the bytes of the run but for the first size stay behind |
| OptionStores.OptionStore.SwapStorage | unicoap/options.c:984-1007 | copies the bytes to any place that does not overlap them, re-bases every entry by running sums, fails exactly when the bytes do not fit; an empty store stays on its old buffer |
| OptionStores.OptionStore.ReadEntry | unicoap/options.c:286-307 | finds the value window of an option exactly when its delta is below 269, and the misplaced window described by ReadFinds otherwise |
| OptionStores.OptionStore.Get | unicoap/options.c:528-538 | absent exactly when no option has the number; else the window of the first one, right when its delta is below 269 |
| OptionStores.OptionStore.ParseLoop | unicoap/options.c:478-518 | the loop reads what the parsing function says, with entries and size kept in step |
| OptionStores.OptionStore.ParsePdu | unicoap/options.c:448-519 | error codes, payload window, entries, sizes and capacity; with a marker the capacity is one more than the options; the result is a valid store if and only if no option number overflowed 16 bits |
| OptionRuns.Perform | unicoap/options.c:589-1007 | one call of add, set, remove or swap follows a machine on option lists; it traps exactly where the machine says, and leaves bytes behind exactly for a trailing repeat |
| OptionRuns.HasLeftover | unicoap/options.c:761-765 | bytes are left over exactly when the sizes of all entries do not add up to the bytes in use |
| OptionRuns.PerformAll | unicoap/options.c:589-1007 | any sequence of calls follows the machine up to the first that cannot be made, traps, or leaves bytes behind, with bytes and index in agreement until then; the whole sequence is performed if and only if it is harmless throughout; a trap changes nothing |
| OptionRuns.ParsedLength | unicoap/options.c:448-519 | bytes that parse to options only, without overflow, are as long as the encoding of these options |
| OptionRuns.SlackNeverParses | unicoap/options.c:761-765 | while bytes are left over, a fresh parse of the bytes in use does not find the options of the store |
| OptionRuns.AddEach | unicoap/options.c:589-684 | additions one after the other, up to the first that fails, traps or leaves the buffer, each under its exact condition |
| OptionRuns.RemoveThenAdd | unicoap/options.c:589-822 | after a removal, additions leave the buffer if and only if bytes were left behind, no option was, it is not the first addition, and the buffer has no room for the leftovers twice and the options; while bytes are left over they never parse back |
| OptionRuns.ReparseAgrees | unicoap/options.c:448-519 | parsing the bytes in use again yields the same options and the same entries |
| OptionRuns.TrailingRepeatExample | unicoap/options.c:761-765 | two options numbered 11 at the end: two of four bytes stay behind |
| OptionRuns.TrapExample | unicoap/options.c:343-351 | a full buffer and an insertion that fits, but whose assertion fails |
| OptionRuns.NibbleTakenForDelta | unicoap/options.c:286-296 | taking the nibble for a delta gives the right width if and only if the delta is below 269, and one byte less otherwise |
| OptionRuns.FarDeltaExample | unicoap/options.c:286-304 | an option 269 whose value begins at byte 3 and is read from byte 2 |
| OptionParsing.ParseEncoded | unicoap/options.c:448-519 | serialised options and tail are parsed to themselves, for every list that has room |
| OptionParsing.ParseUnique | unicoap/options.c:448-519 | whatever is accepted is the serialisation of what was read |
| OptionParsing.TooManyIff | unicoap/options.c:466-500 | lack of room is reported if and only if the bytes begin with more options than there is room for, whatever follows them |
| OptionParsing.DeltasDecode | unicoap/options.c:485-504 | the deltas of a sorted list decode to that list and never overflow |
| OptionParsing.DecodeSorted | unicoap/options.c:485-504 | without overflow the decoded list is sorted and has the bytes and entries that were read |
| OptionParsing.ParsedListIff | unicoap/options.c:485-504 | the entries read describe some sorted list if and only if no running number overflows 16 bits |
| OptionParsing.OverflowExample | unicoap/options.c:495-501 | 0xffff followed by delta 1 is recorded as option 0 |
| OptionParsing.ReadExtInRange | unicoap/options.c:134-160 | bounded read of an extended integer |
| OptionParsing.ReadOptionInRange | unicoap/options.c:238-274 | bounded read of an option; the delta leaves through 16 bits |
| OptionValues.OptionIterator.GetNext | unicoap/options.c:826-848 | yields the options in order, each once |
| OptionValues.OptionIterator.GetNextByNumber | unicoap/options.c:850-860 | yields the next option of a number and skips none of them |
| OptionValues.NextOf | unicoap/options.c:850-860 | successive calls yield the values of a number in order; only the first can be misread, exactly as ReadEntry says |
| OptionValues.CopyValuesJoined | unicoap/options.c:557-587 | writes the values that the reads find, up to the first empty one, joined; fails exactly when they do not fit, a single value needing one spare byte; reads behind the buffer exactly when a misread first value reaches there and its size is below the capacity |
| OptionValues.AddAllSpec | unicoap/options.c:602-605 | adding values one by one keeps equal numbers in insertion order and leaves other numbers alone |
| OptionValues.AddValuesJoined | unicoap/options.c:686-711 | adds the components of the string one by one; succeeds if and only if count and encoding of the final list fit and no assertion fails on the way, and stops for lack of space exactly at the first component without room |
| OptionValues.JoinCut | unicoap/options.c:686-711 | joining undoes splitting for every string that does not end in the separator |
| OptionValues.CutJoin | unicoap/options.c:686-711 | splitting undoes joining for nonempty components without separators |
| OptionValues.TrailingLost | unicoap/options.c:695-709 | a separator at the end is never restored |
| OptionValues.TrailingEmpty | unicoap/options.c:695-709 | if the byte behind the string happens to be a separator too, a separator at the end becomes an empty value |
| OptionValues.CleanPieces | unicoap/options.c:686-711 | no component is empty exactly when no separator is doubled, leading or trailing |
| OptionValues.RestoredIff | unicoap/options.c:557-711 | the values before the first empty one join to the whole string exactly when none is empty |
| OptionValues.FirstAdded | unicoap/options.c:602-609 | the first value of a fresh number is its first option, with the distance to the option in front of it as its delta |
| OptionValues.MisreadSame | unicoap/options.c:286-307 | what is read for a far first option is its value if and only if the size comes out right and all its bytes are like the one in front of them |
| OptionValues.SplitThenJoin | unicoap/options.c:557-711 | splitting into options of a fresh number and joining what the reads find gives the string without its leading separator if and only if no component is empty and the first one has a delta below 269, or one for which the misplaced window shows the same bytes |
| OptionValues.FarSplitExample | unicoap/options.c:557-711 | a/b under number 300 comes back as the byte 31, a slash and b |
| OptionUints.BigShortest | unicoap/options.c:935-961 | the shortest big-endian bytes denote the number and have no leading zero |
| OptionUints.EncodeUint | unicoap/options.c:935-961 | produces those shortest bytes |
| OptionUints.ReadUint | unicoap/options.c:899-915 | denotes the big-endian number for one to four bytes; no bytes reach UNREACHABLE |
| OptionUints.UintBytes | unicoap/options.c:899-961 | the bytes written for a 32-bit number denote it if and only if it is not zero; zero is written as no bytes |
| OptionUints.UintRoundTrip | unicoap/options.c:917-980 | a 32-bit number that is set is refused by a look for at most n bytes exactly if it is 256^n or more, and else found again if and only if it is not zero and the delta is below 269 or all its bytes are like the byte read in front of them; for every n up to four |
| OptionUints.FarUintExample | unicoap/options.c:899-961 | 5 in option 300 is found as 31 |
| OptionUints.ShortRead | unicoap/options.c:286-307 | a read that finds at most twelve bytes finds the value, or for a far option the last byte of its delta and the value without its last byte |
| OptionUints.GetUint | unicoap/options.c:917-933 | absent, too long, or the number that the bytes found denote, for every delta |
| Pdu.FirstByte | unicoap/drivers/rfc7252/common/pdu/pdu.c:52-64 | a built PDU begins with a byte in 64..127, never with zero |
| Pdu.HeaderBits | unicoap/drivers/rfc7252/common/pdu/pdu.c:52-149 | all header fields and the token are read back from their bits |
| Pdu.BitsHeader | unicoap/drivers/rfc7252/common/pdu/pdu.c:52-149 | header bytes of version 1 are rebuilt from the fields that are read from them |
| Pdu.SerialiseThenParse | unicoap/drivers/rfc7252/common/pdu/pdu.c:151-218 | parsing a built PDU returns the same header, token, options and payload, for every well-formed message |
| Pdu.ParseThenSerialise | unicoap/drivers/rfc7252/common/pdu/pdu.c:151-218 | every accepted PDU is rebuilt byte for byte if and only if it does not end in a marker without payload, in which case just that marker is lost |
| Pdu.AcceptedIff | unicoap/drivers/rfc7252/common/pdu/pdu.c:151-196 | exactly the bytes that stand for a message for which there is room are accepted, as that message |
| Pdu.RejectedIff | unicoap/drivers/rfc7252/common/pdu/pdu.c:151-196 | which error any other bytes are rejected with: one if and only if no header can be taken off them, one if and only if too many options follow it, one for the rest |
| Pdu.BareMarkerExample | unicoap/options.c:485-492 | a PDU with a bare marker is accepted, against section 3 of RFC 7252, and rebuilt one byte shorter |
| Pdu.ParseRfc7252 | unicoap/drivers/rfc7252/common/pdu/pdu.c:151-196 | accepts and rejects exactly what the parsing function says, and fills header, payload window and option store |
| Iolists.Append | unicoap/utils.c:48-61 | links a chain behind the last chunk of another; the bytes are the concatenation |
| Iolists.Distinct | unicoap/utils.c:48-61 | a chain that ends visits no chunk twice |
| Iolists.IsEmpty | unicoap/utils.c:36-46 | true exactly when no chunk holds a byte |
| Iolists.ToBuffer | unicoap/utils.c:80-80 | copies the bytes of a chain, or reports exactly when they do not fit |
| PduBuild.SetFields | unicoap/drivers/rfc7252/common/pdu/pdu.c:207-212 | or-ing the fields into a cleared first byte and writing the rest gives the header bytes |
| PduBuild.BuildHeader | unicoap/drivers/rfc7252/common/pdu/pdu.c:198-218 | header and token, or no room and no change |
| PduBuild.CopyPayload | unicoap/utils.c:76-94 | payload of either kind copied, or exactly no room; nothing outside the room changes |
| PduBuild.BuildOptionsAndPayload | unicoap/utils.c:178-208 | options, marker and payload; writes behind the capacity if and only if there is a payload and the options fill the room exactly |
| PduBuild.BuildPdu | unicoap/drivers/rfc7252/common/messaging/messaging.c:366-372 | the contiguous PDU: its bytes, its exact failures, and nothing touched outside the room |
| PduBuild.LinkOptions | unicoap/utils.c:156-164 | first one or two chunks of the vector |
| PduBuild.LinkPayload | unicoap/utils.c:132-173 | separator and payload linked behind the chunk in use |
| PduBuild.BuildVector | unicoap/utils.c:149-176 | the chain of chunks holds the same bytes as the contiguous PDU, for contiguous and chunked payloads |
| ReliabilityRuns.WireFacts | unicoap/drivers/rfc7252/common/pdu/pdu.c:52-149 | type and message ID of a sent message can be read off the wire |
| ReliabilityRuns.SendKeepsInv | unicoap/drivers/rfc7252/common/messaging/messaging.c:711-786 | a send keeps pool ownership; a send that does not succeed leaves slots and copies as they were |
| ReliabilityRuns.EndKeepsInv | unicoap/drivers/rfc7252/common/messaging/messaging.c:286-294 | ending a transmission keeps pool ownership |
| ReliabilityRuns.ExpireKeepsInv | unicoap/drivers/rfc7252/common/messaging/messaging.c:419-454 | a timeout keeps pool ownership; the shift it computes is the number of waits so far, and below 32 |
| ReliabilityRuns.OwnershipOverRuns | unicoap/drivers/rfc7252/common/messaging/messaging.c:183-294 | over every interleaving of sends, acknowledgements, resets and timeouts, the claimed copies are exactly those of live transmissions and no two share one |
| ReliabilityRuns.StepKeepsTransmission | unicoap/drivers/rfc7252/common/messaging/messaging.c:390-460 | a live transmission survives every step but the acknowledgement or reset that reaches it, with remote, ID, copy and bytes unchanged |
| ReliabilityRuns.TransmissionOverRuns | unicoap/drivers/rfc7252/common/messaging/messaging.c:419-454 | until an acknowledgement or reset reaches it, a transmission keeps its remote, ID, copy and bytes, its retransmissions send those bytes, and there are at most as many as the counter allows |
| ReliabilityRuns.ThirtyTwoMeansNone | unicoap/drivers/rfc7252/common/messaging/messaging.c:750-750 | with 32 retransmissions configured the five-bit counter is zero and nothing is retransmitted |
| ReliabilityRuns.DrawnIff | unicoap/drivers/rfc7252/common/messaging/messaging.c:436-440 | whatever is drawn lies between two bounds if and only if the lower fits 32 bits and stays below what 32 bits keep of the upper |
| ReliabilityRuns.BackOffIff | unicoap/drivers/rfc7252/common/messaging/messaging.c:436-440 | every wait that can be drawn lies in [T*2^k, U*2^k] if and only if the bounds survive 32-bit arithmetic |
| ReliabilityRuns.DrawnFrom | unicoap/drivers/rfc7252/common/messaging/messaging.c:436-440 | where both bounds fit, every wait between them can be drawn, and without randomisation the lower bound only |
| ReliabilityRuns.FitsThroughout | unicoap/drivers/rfc7252/common/messaging/messaging.c:436-440 | an upper bound that fits at the last attempt fits at all of them |
| ReliabilityRuns.SumBound | unicoap/drivers/rfc7252/common/messaging/messaging.c:436-440 | waits below doubling bounds add up to at most U*(2^n - 1) |
| ReliabilityRuns.WaitsOverRuns | unicoap/drivers/rfc7252/common/messaging/messaging.c:419-454 | at every point of every run the k-th wait lies in [T*2^k, U*2^k] and all waits together stay within MAX_TRANSMIT_WAIT of section 4.8.2 of RFC 7252 |
| ReliabilityRuns.EndsOnlyMatching | unicoap/drivers/rfc7252/common/messaging/messaging.c:268-294 | an acknowledgement or reset changes exactly the slot of the first transmission with that endpoint and that ID, and gives back its copy |
| ReliabilityRuns.IdsCollide | unicoap/drivers/rfc7252/common/messaging/messaging.c:176-179 | two live transmissions share an ID if and only if a multiple of 65536 IDs was drawn between them |
| ReliabilityRuns.UniqueWhileYoung | unicoap/drivers/rfc7252/common/messaging/messaging.c:268-284 | endpoint and ID name at most one live transmission while no more than 65536 IDs are drawn in any life |
| ReliabilityRuns.NothingGivenBack | unicoap/drivers/rfc7252/common/messaging/messaging.c:427-460 | without acknowledgements and resets no copy is ever given back |
| ReliabilityRuns.PoolExhausted | unicoap/drivers/rfc7252/common/messaging/messaging.c:742-748 | once silent peers hold every copy, each later confirmable send fails |
| ReliabilityRuns.GivenUp | unicoap/drivers/rfc7252/common/messaging/messaging.c:427-460 | a transmission whose attempts are used up, or whose resend failed, stays in its slot and sends nothing more |
| ReliabilityRuns.CrashNeedsCopies | unicoap/drivers/rfc7252/common/messaging/messaging.c:742-751 | the null dereference behind a failed slot allocation needs more copies than slots |
| ReliabilityRuns.CrashIff | unicoap/drivers/rfc7252/common/messaging/messaging.c:742-751 | from initialisation on it can be reached if and only if there are more copies than slots |
| Retransmissions.BeginsIff | unicoap/drivers/rfc7252/common/messaging/messaging.c:738-778 | exactly the sends that put a confirmable datagram on the wire claim a slot, each of them one; what is kept for retransmission, and for which remote, is what was sent |
| Retransmissions.TimeoutsOverRuns | unicoap/drivers/rfc7252/common/messaging/messaging.c:419-454 | after t timeouts of an armed transmission its timer is still armed if and only if t is within the attempts left and the transport took all resends; with such a transport the resends are as many as the timeouts, up to the attempts left |
| Retransmissions.RetransmissionsOverRuns | unicoap/drivers/rfc7252/common/messaging/messaging.c:419-786 | from the send that begins a transmission on, as long as none ends it: each timeout puts on the wire again exactly the datagram that was sent and arms the timer, as long as attempts are left and the transport takes it, and else does neither; so the k-th timeout makes k resends up to the configured number, and the timer goes off only behind the last attempt or with a failing one |
| Answers.MessageReads | unicoap/drivers/rfc7252/common/pdu/pdu.c:52-218 | a built message is read back by every receiver with room for it if and only if it is not one with code 0.00 and something behind the header |
| Answers.SendReads | unicoap/drivers/rfc7252/common/messaging/messaging.c:711-786 | a send of either kind puts one datagram on the wire if and only if there are slot, copy and room for it and the transport takes it, else none; the peer parses that datagram to the type and ID of its kind and the code, token, options and payload of the message; and exactly when a send crashes or overruns |
| Answers.BodyReads | unicoap/server.c:321-341 | an answer reaches the wire as it is, or, if that fails, as an empty 5.00 if that can be sent, else not at all; and the packet left behind |
| Answers.HandlerAnswers | unicoap/server.c:249-367 | what a client parses from the answers to its request: the reply that the handler makes through its context; the status it returns, with the token and without options and payload, behind the reply if there is one, unless suppressed; 5.00 with the text "application" if it does neither and assistance is on; nothing otherwise |
| Answers.RefusalReads | unicoap/state.c:329-347 | a request that is cut off or refused is answered with one datagram, 4.13 or the status, never confirmably; the Size1 option is there if and only if the block size is below 2^24, and holds it |
| Answers.OthersAnswered | unicoap/drivers/rfc7252/common/messaging/messaging.c:495-699 | what is not a request: an empty confirmable message and a confirmable response are answered with the four bytes of a reset with their ID, to their sender, over a working transport, and nothing else is answered; only acknowledgements and resets change the state |
| Answers.ResetReads | unicoap/drivers/rfc7252/common/messaging/messaging.c:464-489 | those four bytes are parsed as an empty reset with that ID |
| Messaging.Messenger.CopyAlloc | unicoap/drivers/rfc7252/common/messaging/messaging.c:183-206 | claims the first copy whose first byte is zero, or none |
| Messaging.Messenger.TransmissionCreate | unicoap/drivers/rfc7252/common/messaging/messaging.c:214-266 | the first unused slot with endpoint and ID, or none |
| Messaging.Messenger.TransmissionFind | unicoap/drivers/rfc7252/common/messaging/messaging.c:268-284 | the first live slot with that endpoint and ID |
| Messaging.Messenger.TransmissionFree | unicoap/drivers/rfc7252/common/messaging/messaging.c:286-294 | frees the copy, if any, and clears the slot |
| Messaging.Messenger.EndMatching | unicoap/drivers/rfc7252/common/messaging/messaging.c:390-417 | the arrays end up showing the state without the matching transmission |
| Messaging.Messenger.Abandon | unicoap/drivers/rfc7252/common/messaging/messaging.c:780-786 | the failing exit: slots, claimed copies and their contents show the state from before the send |
| Messaging.Messenger.Claim | unicoap/drivers/rfc7252/common/messaging/messaging.c:742-757 | slot, copy and timer for a confirmable message, in the order of the source |
| Messaging.Messenger.SendConfirmable | unicoap/drivers/rfc7252/common/messaging/messaging.c:738-785 | the arrays follow the machine through every outcome of a confirmable send; what the machine sends and keeps is stated by `Answers.SendReads` and `Retransmissions.BeginsIff` |
| Messaging.Messenger.SendPlain | unicoap/drivers/rfc7252/common/messaging/messaging.c:377-387 | a message without copy goes out as a chain with the bytes of the contiguous PDU, as the machine sends it; what the peer reads from it is stated by `Answers.SendReads` |
| Messaging.Messenger.Send | unicoap/drivers/rfc7252/common/messaging/messaging.c:711-786 | the arrays, the ID counter and the datagrams sent follow the machine |
| Messaging.Messenger.OnAckTimeout | unicoap/drivers/rfc7252/common/messaging/messaging.c:419-460 | counter, timer and resent bytes follow the machine; the bytes sent are those in the claimed copy; what the timeouts of a transmission add up to is stated by `Retransmissions.RetransmissionsOverRuns` |
| Messaging.Messenger.ProcessMessagingLayer | unicoap/drivers/rfc7252/common/messaging/messaging.c:495-580 | state, replies and verdict for every type and code follow the machine; which replies these are is stated by `Answers.OthersAnswered` |
| Exchange.AckAndResetStaySilent | unicoap/drivers/rfc7252/common/messaging/messaging.c:516-560 | an inbound acknowledgement or reset causes nothing to be sent |
| Exchange.BodyTerminals | unicoap/server.c:321-341 | a response with its fallback puts an acknowledgement on the wire exactly if the first attempt is piggybacked and delivered, or fails when confirmable and the fallback is delivered; its ID is that of the request in the first case and one of this endpoint in the other |
| Exchange.ReplyDiscipline | unicoap/drivers/rfc7252/common/messaging/messaging.c:495-731 | for every message, handler and resource: a confirmable message causes at most one acknowledgement or reset, with its ID and to its sender, unless an answer is misformatted; any other message causes one if and only if an answer is misformatted; a misformatted answer carries an ID of this endpoint |
| Exchange.DisciplinedAnswers | unicoap/server.c:268-341 | no answer is misformatted for a resource without RELIABLE, or for a confirmable request that is answered once with a response code |
| Exchange.NonConfirmableAcknowledged | unicoap/server.c:321-341 | a non-confirmable request answered once at a resource with RELIABLE is answered with an acknowledgement if and only if the confirmable response fails and the fallback is delivered |
| Exchange.SecondAcknowledgement | unicoap/server.c:268-341 | a handler that both replies and returns a status makes a further acknowledgement, with an ID of this endpoint, if and only if its second answer is piggybacked on what the first left behind and delivered, or fails and its fallback is delivered; for requests of either type and all codes |
| ExchangeRuns.WireDiscipline | unicoap/drivers/rfc7252/common/messaging/messaging.c:419-786 | over any history of arrivals, timeouts and own messages, at every step the acknowledgements and resets sent are those that the input accounts for: one per confirmable arrival at most, with its ID and to its sender, unless an answer is misformatted; none for a timeout; for an own packet exactly if it still answers a confirmable one; the pools stay consistent |
| ExchangeRuns.CarefulDiscipline | unicoap/drivers/rfc7252/common/messaging/messaging.c:419-786 | with handlers that answer once and with response codes, or resources without RELIABLE, every acknowledgement or reset ever sent answers the confirmable message that has just arrived |
| ExchangeRuns.TimeoutsRepeat | unicoap/drivers/rfc7252/common/messaging/messaging.c:419-786 | over any history a timeout puts nothing new on the wire: at most one datagram, which an earlier input has brought to the same remote byte for byte |
| Exchange.ProcessKeepsInv | unicoap/drivers/rfc7252/common/messaging/messaging.c:582-699 | processing an inbound message with all its replies keeps pool ownership |
| Server.AnswerTruncated | unicoap/state.c:329-338 | a truncated request is answered with 4.13 and a Size1 option, which is left out if it does not fit |
| Server.Process | unicoap/drivers/rfc7252/common/messaging/messaging.c:582-699 | message layer and exchange layer together follow the machine |
| Server.Resolve | unicoap/state.c:340-351 | the search of preprocessing yields the resource that decides, or the status to refuse with |
| Server.Receive | unicoap/drivers/rfc7252/common/messaging/messaging.c:582-599 | from the bytes of a PDU: a rejected PDU has no effect, an accepted one is processed as the machine says, with the resource that the search yields |
| Requests.LookupDecides | unicoap/state.c:451-523 | with default matchers the search yields the first resource that serves the request; else 4.05 exactly when one can be reached; else 4.04 |
| Requests.RequestAnswered | unicoap/state.c:316-388 | every request the parser accepts, confirmable or not, is processed by serving the first resource that serves it, or by one send of 4.05 or 4.04; what is read from either is stated by `Requests.RequestReadBack` |
| Requests.RequestReadBack | unicoap/state.c:316-388 | from bytes to bytes: with a resource that serves the request, what the client parses from the answer is decided by the handler of the first one, as `Answers.HandlerAnswers` states; with none, it is 4.05 or 4.04 alone, as the acknowledgement of a confirmable request |
| Requests.CustomDecides | unicoap/state.c:340-351 | a custom matcher that ends the search decides: status 0 hands the request to the resource it names, a negative status becomes 5.00, any other is the code of the answer |
| Requests.ServingByComponents | unicoap/server.c:46-202 | for paths in slashed form, serving is a matter of protocols, method, and equality or prefix of the Uri-Path components |
| Paths.TrimTrailingSlashes | unicoap/server.c:30-44 | the length without trailing slashes, at least one for a nonempty path |
| Paths.MatchPathString | unicoap/server.c:46-92 | decides equality, or prefix up to a slash with the subtree flag, after trimming |
| Paths.StringMatchDecides | unicoap/server.c:46-92 | on proper paths that is equality, or prefix, of the component lists |
| Paths.MatchPathOptions | unicoap/server.c:94-166 | decides equality, or prefix, of component lists for every resource path, with slashes doubled or trailing |
| Paths.MatchersAgree | unicoap/server.c:46-166 | both matchers decide the same relation on proper paths |
| Paths.MatchersAgreeIff | unicoap/server.c:46-166 | with either flag they agree on all proper requests if and only if the resource path has one leading slash, single slashes between and none behind its components |
| Paths.RequestAgreesIff | unicoap/server.c:46-166 | without the subtree flag they agree for a request on all proper resources if and only if its components are proper or its trimmed path is in no slashed form |
| Paths.SubtreeRequestAgreesIff | unicoap/server.c:46-166 | with the subtree flag they do so if and only if the first improper component, if any, is empty or begins with a slash |
| Paths.SlashInComponentExample | unicoap/server.c:46-166 | a request component with a slash in it makes them disagree |
| Routing.Listener.MatchRequest | unicoap/server.c:168-202 | the first resource that matches protocol, path and method; else 4.05 exactly when one matches protocol and path; else 4.04 |
| Routing.FindResource | unicoap/state.c:451-523 | the first listener, in order, whose default or custom matcher neither passes nor refuses decides, and its choice is returned; else 4.05 exactly when one refused; else 4.04 |
| Routing.DefaultsFind | unicoap/state.c:474-500 | with default matchers the search ends exactly if some listener that takes the protocol has a resource that serves the request, and is refused exactly if one is only reached |
| Routing.Register | unicoap/state.c:216-232 | a new listener goes to the front of the list, and matcher and link encoder become the defaults if they were not set |
| Routing.ReachesComponents | unicoap/server.c:168-202 | for proper paths reaching a resource is equality, or prefix, of the components |
| Signals.SetBit | kaos_signals.c:41-42 | or-ing a mask into a word sets that bit only |
| Signals.ClearBit | kaos_signals.c:55-56 | xor-ing the mask of a set bit clears that bit only |
| Signals.SignalPool.Assign | kaos_signals.c:38-50 | the least free ID is returned and marked, no other changes; -1 exactly when all are in use |
| Signals.SignalPool.ReleaseId | kaos_signals.c:52-61 | takes back exactly that ID, refuses an unassigned one without change, and reads behind the pool exactly for larger IDs |
| Signals.NeverExhausted | kaos_signals.c:25-26 | some ID is free while at most modules times queue size are in use |

## Left out

- OptionStores.OptionStore.Set: like removal, swap and lookup, it is stated for consistent stores; on a store with bytes left over only additions are modelled.
- OptionRuns.PerformAll: a run ends at a call that traps or leaves bytes behind; additions behind such a removal are described by `OptionRuns.RemoveThenAdd`.
- OptionRuns.RemoveThenAdd: says when additions leave the buffer, and nothing about what happens after the first that does.
- Server.Receive: copying the Uri-Path is a function of a header that is not part of this model, so the path is a parameter, and what handlers do is a function of listener and resource.
- Answers.HandlerAnswers: whether the No-Response option of a request suppresses a status (`unicoap/utils.c:437-454`) is a parameter; its accessor lives in a header that is not part of this model.
- Messaging.Messenger.TransmissionCreate: the DTLS session that the slot stores by value is left out, as are DTLS sessions throughout; the slot's other fields are all stated.
- Routing.FindResource: a custom matcher is a function of the request; the packet, the remote endpoint and effects of its own are not modelled.
- Routing.Register: of the link encoder only whether it is set; encoding links is not part of this model.
- ReliabilityRuns.CrashIff: assumes that a copy has room for a header at least; otherwise no confirmable message is ever built.
- PduBuild.BuildPdu: the inline function that joins the header and the options in the source is not part of this model; the composition follows `unicoap/docs/pdu.doc.md` and its use in the message layer.
- Messaging.Messenger.Send: packets are values that are returned changed, where the source changes them through a pointer; sends, inbound messages and timeouts are atomic, so the moment when building a header writes 0 into the first byte of a claimed copy is not visible.
- Values passed to `Add` and `Set` are sequences: a value that lies inside the storage that is being edited, or a null pointer, is not modelled.
- The lookup's early exit at an entry without data pointer (`unicoap/options.c:438`): entries of a store always point into its buffer here.
- Order of entry and byte writes inside add and remove: they are grouped into one method for entries and one for bytes.
- `unicoap_options_get_next_query_by_name`, `unicoap_options_copy_value`, observe counters, link format encoding: no hard property.
- `unicoap_options_copy_uri_path`, the protocol and method sets, status and method accessors, UNICOAP_UINT_MAX, UNICOAP_PDU_IOLIST_COUNT and the timeout range constant live in headers that are not part of this model; the path is handed to the matcher with one slash before each component, the sets are sets, the constants are parameters or 65804 and four.
- `iolist_to_buffer`, `memmove`, `memcpy`, `htonl`, `strncmp` and the random range function are taken to do what their libraries document.
- Results of preprocessing that the source never produces (expected responses, unexpected notifications, truncated responses) and the branches of the message layer for them.
- Client exchanges, deferred responses, transports, DTLS sessions, locks, timers and event queues.
- The rest of Kaos: the monitor, the container manager, the WASM runtime, the CBOR parser and the channels.
