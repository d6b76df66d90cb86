# Verified model of the agent's protocol core

This project models the self-contained algorithms and state machines behind the I/O of
luci-app-komari-agent-c and proves what they promise. The code's loops over buffers and its
structures are Dafny methods and classes; each is proved against a function of its inputs or of its
old state, and the laws are lemmas about those functions.

| file | part of the program |
|---|---|
| `Bytes.dfy`, `Strtol.dfy` | octets, exclusive or, `memcpy`; `strtol` and decimal output |
| `WsFrame.dfy` | RFC 6455 frames: wire format, reader, masking |
| `WsMessage.dfy` | fragment accumulator against section 5.4 of RFC 6455 |
| `WsReceive.dfy` | the receive loop as a function of the byte stream; end-to-end law and its converse |
| `WsSocket.dfy`, `WsClient.dfy` | the socket (any chunking, signals, partial writes) and the client's methods |
| `WsOctets.dfy` | frames in octets and numbers, the examples of RFC 6455 section 5.7 |
| `Utf8.dfy` | the lenient UTF-8 decoder against RFC 3629 |
| `Rfc3492.dfy` | the decoder of RFC 3492, written without the encoder |
| `Punycode.dfy`, `PunycodeRoundTrip.dfy` | encoder as a function, round trip through that decoder |
| `PunycodeSamples.dfy` | encodings worked out by hand |
| `PunycodeEncoder.dfy` | the encoding loops over an output buffer, and their integer bounds |
| `Idn.dfy`, `IdnLaws.dfy` | label and host conversion, and its laws |
| `EventStore.dfy` | the shared v2 state: seen ids and pending ACKs |
| `EventProtocol.dfy`, `EventHandler.dfy` | the two threads as interleaved steps, and as code |
| `NetStatic.dfy` | traffic samples: collect, cleanup, monthly query |
| `VersionCompare.dfy` | version comparison as a total preorder |
| `JsonEscape.dfy` | both JSON escapers and the unescaper |
| `Checksum.dfy`, `Base64.dfy` | Internet checksum, Base64 |

Octets are integers below 256; bit operations on disjoint fields are written as the arithmetic they
amount to, and exclusive or bit by bit. `size_t` is 64-bit, `int` 32-bit, `long` 64-bit, and every
narrowing or wrap-around is written out. Allocations succeed. The kernel is a nondeterministic
`Socket`: a read delivers between one octet and what was asked, a write takes between one octet and
all, and reads end when the peer's stream is used up. Signals are part of the input: for reads, the
places in the stream at which one arrives; for writes, any finite number at any time. So what is
proved of a method holds for every chunking and every such sequence of signals.

A function that a method is proved against is pinned down in turn, by laws that do not use it: octet by
octet and number by number, against an independent reference, or by examples of the standards.

## What the proofs found

- The encoder omits the delimiter after an input of basic code points only, so such an input does not
  survive decoding. The round trip holds exactly for the empty input and for inputs with a non-basic
  code point (`RoundTripIff`).
- A label that is not ASCII is cut after 1024 code points without notice. A converted label stands for
  the original exactly when that was ASCII or had at most 1024 code points (`LabelRestoresIff`,
  `HostRestoresIff`; a cut label is shown in `LongLabelIsCut`). Labels of up to 185 code points always
  convert and read back (`ShortLabelsConvert`).
- The handshake's read loop takes a signal for the end of the reply, unlike the exact reads after it.
  The handoff is right exactly when no signal comes before the header terminator has been read
  (`HandoffIff`); otherwise the rest of the header stays in front of the frames (`SignalBreaksHandoff`).
- The sample store holds 200000 samples, which at two seconds apiece is less than five days. The
  monthly query sees every sample of the month exactly when no more were taken in it and no cleanup
  came while one of them was past the age limit (`MonthAgreesIff`). Its total is that over all samples
  ever taken exactly when no sample lost in one of these ways carried traffic (`TotalAgreesIff`). A run
  of readings two seconds apart, of a counter that gains an octet each time, is shown to lose traffic
  (`FullStoreLosesTraffic`).
- Cleanup spares the current month exactly when none of its samples is past the age limit
  (`CleanupSparesIff`), and fails to in two ways. The limit is computed in unsigned arithmetic: while
  the clock shows less than 31 days since the epoch it wraps, and cleanup removes every sample; in a
  month of at most 31 days that is the only way (`CleanupSparesMonthIff`). And a month of 31 days and an
  hour, as October has where clocks are set back, loses its first hour in its last (`LongMonthLosesSample`).
- A traffic counter's rise from zero is not recorded (`ConservedIff`, `TrafficAcrossResets`).
- A clear of the ACK list also removes ACKs queued after the snapshot it reports (`LateAckIsLost` is
  such a run). Exactly those, and the ones 1024 later ACKs had pushed out, go unreported
  (`ClearLosesExactly`), so nothing does exactly when nothing was queued after the snapshot and no more
  than 1024 before it (`ClearLosesNothingIff`). A redelivered event is
  acknowledged again without being dispatched again (`Uninterrupted`).
- The frame reader takes masked frames, and frames in a longer length form than they need; it takes a
  frame that does not conform to sections 5.1 and 5.2 of RFC 6455 exactly when that is what is wrong
  with it (`LenientExactly`, `LongEmptyText`).
- An ACK id names its event exactly when the event's id is a number from 1 to 2147483647 written
  without leading zeros (`AckIsExactIff`). Larger numbers can share an ACK id (`LargeIdsAlias`), and so
  can small ones as text: "7x", " 7" and "7" are all acknowledged as 7 (`TextsAlias`).
- Version numbers from 9223372036854775807 on are all taken for the same (`LargeNumbersTie`). The
  comparison is the order of the true numbers unless the first difference is between two such numbers;
  it then depends on what follows (`CompareExactIff`).

## Model

| member | source | states |
|---|---|---|
| WsFrame.ReadEncoded | src/network/websocket.c:589-672 | the reader returns an encoded frame and leaves the rest of the stream, in all three length forms and with any key, exactly when its opcode is known, it keeps the rules of section 5.5 for control frames, and it fits the buffer |
| WsFrame.LenientExactly | src/network/websocket.c:589-672 | a frame that does not conform to sections 5.1 and 5.2 is read exactly when it is masked or in a longer length form than it needs; a conforming one always is |
| WsFrame.LongEmptyText | src/network/websocket.c:622-629 | an empty text frame with a 64-bit length is read |
| WsFrame.ReadOnlyEncodings | src/network/websocket.c:589-672 | conversely, whatever the reader accepts is the encoding of an acceptable frame followed by what it leaves |
| WsFrame.MaskTwice | src/network/websocket.c:169-173 | masking twice with one key restores the data |
| WsOctets.MaskBits | src/network/websocket.c:169-173 | octet i meets key octet i modulo 4: exactly the bits set there are flipped |
| WsOctets.ReadsOctets | src/network/websocket.c:589-672 | every unmasked frame of opcode 0, 1, 2, or short and whole 8, 9, 10, is read for what its octets say, in the three length forms |
| WsOctets.ReadsMaskedOctets | src/network/websocket.c:648-668 | the same for masked frames, payload unmasked |
| WsOctets.RefusesFirstOctet | src/network/websocket.c:597-613 | a reserved bit or any other opcode is refused |
| WsOctets.RefusesLength | src/network/websocket.c:631-668 | so are long or fragmented control frames, payloads over the buffer, and frames cut short |
| WsOctets.ClientFrameOctets | src/network/websocket.c:505-534 | a written frame in octets: FIN and opcode, MASK and the shortest length, key, masked payload |
| WsOctets.MaskedHello | src/network/websocket.c:489-534 | the masked "Hello" of section 5.7, octet for octet |
| WsFrame.BigRoundTrip | src/network/websocket.c:517-521 | the extended length read back is the length written |
| WsMessage.AccumulatesExactly | src/network/websocket.c:889-1006 | over any run of data frames the next one fails exactly when section 5.4 forbids it or its fragmented message passes 1 MiB; failure leaves the accumulator idle; completion yields the gathered payloads under the first opcode |
| WsMessage.FeedMessage | src/network/websocket.c:889-1006 | however a message is split, feeding its frames completes exactly it and leaves the accumulator idle |
| WsMessage.FeedMessages | src/network/websocket.c:889-1006 | the same for any list of messages in order |
| WsMessage.CompletesOnlySplits | src/network/websocket.c:889-1006 | conversely, every run of frames without failure is legal splits of exactly the messages completed, then the frames of the open one |
| WsReceive.ReceivesFrames | src/network/websocket.c:749-876 | the loop over sent frames is the accumulator over their data frames, control frames answered in place without effect on assembly; it then goes on with whatever follows |
| WsReceive.EndToEnd | src/network/websocket.c:749-876 | any messages, any legal split, any pings and pongs in between, masked or not, anything behind them: exactly those messages come out in order, each ping is answered with its payload, and the loop goes on behind them |
| WsReceive.CloseEnds | src/network/websocket.c:778-782 | a Close frame ends the loop whatever is open and whatever follows |
| WsReceive.WholeStreams | src/network/websocket.c:749-876 | exactly the messages and answers of a stream that ends with a Close frame, or with the connection |
| WsReceive.ReceivesOnlyFrames | src/network/websocket.c:749-876 | for every byte stream, what is completed and answered comes from a run of readable frames the stream starts with, and the loop stops only where the next one cannot be read, is a Close frame, or is rejected by the accumulator |
| WsReceive.WireSplits | src/network/websocket.c:489-534 | a concatenation of written frames reads back as those frames in order and nothing else |
| WsReceive.PeerReadsAnswers | src/network/websocket.c:784-787 | a peer that parses what it was sent finds one final pong per ping, equal in payload and order |
| WsOctets.PongOctets | src/network/websocket.c:784-787 | an answer on the wire: 138, 128 plus the length, key, masked payload |
| WsOctets.ReceivesPing | src/network/websocket.c:784-787 | 137, a length and a payload: answered with that payload |
| WsOctets.ReceivesPong | src/network/websocket.c:788-791 | 138: passed over |
| WsOctets.ReceivesClose | src/network/websocket.c:778-783 | 136: the end, whatever follows |
| WsOctets.ReceivesWhole | src/network/websocket.c:749-876 | a whole text or binary message is handed on up to 65536 octets, and ends the loop from there on |
| WsOctets.AccumulatesInNumbers | src/network/websocket.c:889-1006 | each frame in each state; at most 1048576 octets |
| WsOctets.FragmentedHello | src/network/websocket.c:749-876 | the fragmented "Hello" of section 5.7 comes out whole |
| WsOctets.SplitsAreSendable | src/network/websocket.c:608-613 | every frame of a legal split of at most 65536 octets may be sent |
| WsOctets.ControlsAreSendable | src/network/websocket.c:631-640 | so may every ping and pong of at most 125 |
| WsClient.TerminatorIff | src/network/websocket.c:399-415 | what is found is the first 13 10 13 10, with no NUL before it |
| WsClient.TerminatorStable | src/network/websocket.c:399-415 | reading on neither hides nor moves it, and one fully read is found |
| WsClient.SeesUpTo2047 | src/network/websocket.c:386-408 | the handshake looks at no more than 2047 octets |
| WsClient.Client.ReadResponse | src/network/websocket.c:384-434 | for every chunking and all signals, exact reads continue where `Handoff` says: right after the first visible terminator if no signal comes before it, else where reading stopped; fails exactly when nothing was read |
| WsClient.HandoffIff | src/network/websocket.c:384-415 | with a visible terminator, reading continues right behind it exactly when no signal comes before it is read |
| WsClient.SignalBreaksHandoff | src/network/websocket.c:393-394 | a signal inside the header leaves the rest of the header in front of the frames |
| WsClient.Client.SplitResponse | src/network/websocket.c:412-433 | what was read behind the terminator stays ahead of the socket; without a terminator all of it is gone |
| WsClient.Client.FillResponse | src/network/websocket.c:384-404 | reads a prefix of the stream, and stops only for the terminator, the full buffer, the end, or a signal due there |
| WsClient.Client.SaveTail | src/network/websocket.c:417-433 | keeps the octets behind the header, which always fit |
| WsClient.Client.ReadFull | src/network/websocket.c:551-576 | succeeds exactly when the stream is long enough, and then takes exactly the next octets of it, saved ones first |
| WsClient.Client.DrainPending | src/network/websocket.c:555-559 | saved octets are consumed once, in order |
| WsClient.Client.FillFromSocket | src/network/websocket.c:561-575 | partial reads and signals are retried until the count is met or the stream ends |
| WsClient.Client.ReadLengthField | src/network/websocket.c:615-629 | the 7-bit, 16-bit or 64-bit length in network byte order |
| WsClient.Client.ReadPayload | src/network/websocket.c:648-668 | key and payload, unmasked in place; an oversized payload is an error |
| WsClient.Client.RecvFrame | src/network/websocket.c:589-672 | succeeds exactly when the stream starts with a readable frame, and returns it |
| WsClient.ApplyMask | src/network/websocket.c:169-173 | masks the first octets in place and no others |
| WsClient.Client.SendFull | src/network/websocket.c:465-484 | all of the data in order, over any partial writes |
| WsClient.Client.SendFrame | src/network/websocket.c:489-544 | appends exactly one final, masked, minimally encoded frame to what was sent |
| WsClient.WriteHeader | src/network/websocket.c:505-522 | the first octets and length field of that frame |
| WsClient.BigDigit | src/network/websocket.c:518-520 | shifting and masking picks the digits of the big-endian length |
| WsClient.Client.AccumulateFrame | src/network/websocket.c:889-1006 | one accumulator step over the in-place buffer; a completed message has an octet to spare; capacity stays within 2 MiB |
| WsClient.Client.StartFragment | src/network/websocket.c:932-948 | a first fragment with room for a terminator |
| WsClient.Client.ContinueFragment | src/network/websocket.c:969-985 | a continuation appended after at most one doubling |
| WsClient.Client.TakeDataFrame | src/network/websocket.c:793-875 | a completed message is handed on, a text message terminated within its buffer |
| WsClient.Client.AnswerPing | src/network/websocket.c:784-787 | one pong with the ping's payload |
| WsClient.Client.ReceiveTurn | src/network/websocket.c:749-876 | one turn advances through the stream exactly as `Receive` prescribes |
| WsClient.Client.ReceiveLoop | src/network/websocket.c:735-879 | hands on exactly the messages and answers exactly the pings that `Receive` finds, then leaves the connection closed |
| WsClient.Client.Session | src/network/websocket.c:384-434 | from the handshake reply on, for every chunking, with signals at any time but during the header, and anything behind the messages: exactly the messages sent and what is behind them, exactly one readable pong per ping |
| WsClient.Client.ClosedSession | src/network/websocket.c:778-782 | the same ended by a Close frame: exactly the messages sent, nothing from behind the Close |
| Utf8.DecodeInto | src/network/idn.c:51-83 | the decoding loop fills the buffer with what `Decode` yields, or fails |
| Utf8.OneRoundTrip | src/network/idn.c:57-76 | every scalar value in its RFC 3629 form decodes to itself |
| Utf8.DecodesWellFormed | src/network/idn.c:51-83 | well-formed input decodes exactly, up to the code point limit |
| Utf8.EncodesInNumbers | src/network/idn.c:57-76 | well-formed means the table of section 3 of RFC 3629 |
| Utf8.DecodesInNumbers | src/network/idn.c:57-76 | every other sequence: what the lead octet says is taken, whatever follows |
| PunycodeRoundTrip.IntRoundTrip | src/network/idn.c:154-179 | a written delta reads back scaled by the weight so far, and leaves the rest |
| PunycodeRoundTrip.ScanRoundTrip | src/network/idn.c:146-185 | a decoder in step with a scan reads what is still written and ends with all code points |
| PunycodeRoundTrip.PassesRoundTrip | src/network/idn.c:128-189 | the same for whole passes |
| PunycodeRoundTrip.RoundTrip | src/network/idn.c:105-193 | the decoder of section 6.2 of RFC 3492, which shares nothing with the encoder, undoes it on every input with a non-basic code point |
| PunycodeRoundTrip.RoundTripIff | src/network/idn.c:122-126 | it does so exactly for those inputs and the empty one |
| PunycodeRoundTrip.BasicOnlyIsLost | src/network/idn.c:122-126 | an all-basic input is copied without delimiter and does not decode to itself |
| PunycodeRoundTrip.EncodeAlphabet | src/network/idn.c:105-193 | only basic input characters, the delimiter and digits are written |
| PunycodeRoundTrip.SameBias | src/network/idn.c:37-48 | the bias is that of section 6.1 of RFC 3492 |
| Rfc3492.BiasInClosedForm | src/network/idn.c:37-48 | that bias in closed form |
| PunycodeSamples.Umlauts | src/network/idn.c:105-193 | two umlauts, E4 and FC, are encoded as "4ca2c" |
| PunycodeSamples.Word | src/network/idn.c:105-193 | a word with one among ASCII letters, delimiter and digits included |
| PunycodeSamples.WordHost | src/network/idn.c:264-305 | a host of it and an ASCII label, from UTF-8 to ASCII |
| Punycode.NextCodePoint | src/network/idn.c:130-144 | while code points remain the minimum search finds one, and skips none |
| Punycode.InsertPoint | src/network/idn.c:154-184 | emitting a code point inserts it at its position among those emitted and moves nothing else |
| PunycodeEncoder.DeltaFits | src/network/idn.c:149-155 | the delta stays below 2^31 for every decoded input, so the narrowing to int is exact |
| PunycodeEncoder.JumpGuardNeverFires | src/network/idn.c:139-144 | the overflow exit before a jump is unreachable |
| PunycodeEncoder.DeltaIsSize | src/network/idn.c:149-152 | the counting delta never wraps |
| PunycodeEncoder.PassEnds | src/network/idn.c:146-188 | a pass emits at least one more code point and keeps the relation |
| PunycodeEncoder.AdaptBias | src/network/idn.c:37-48 | the adaptation loop, every value an `int`, computes the bias of RFC 3492; it stays within 215 |
| PunycodeEncoder.AdaptStarts | src/network/idn.c:38-39 | the sum before the loop does not overflow |
| PunycodeEncoder.AdaptBound | src/network/idn.c:37-48 | the bias is at most 215 whatever the delta |
| PunycodeEncoder.MatchFits | src/network/idn.c:154-181 | delta and count are narrowed to `int` exactly at every match |
| PunycodeEncoder.IntLength | src/network/idn.c:155-179 | a delta takes at most eleven digits |
| PunycodeEncoder.EncodeLength | src/network/idn.c:95-193 | an encoding takes at most eleven octets per code point |
| PunycodeEncoder.FindNext | src/network/idn.c:132-137 | the minimum search |
| PunycodeEncoder.WriteInt | src/network/idn.c:155-179 | the digit loop, every value an `int`; stops exactly when the buffer is full |
| PunycodeEncoder.ScanFor | src/network/idn.c:146-185 | one scan keeps written plus pending equal to the encoding |
| PunycodeEncoder.EncodeDeltas | src/network/idn.c:128-189 | all passes; they terminate |
| PunycodeEncoder.EncodePoints | src/network/idn.c:105-193 | the encoding with its terminator, or -2 exactly when it does not fit |
| PunycodeEncoder.PunycodeEncode | src/network/idn.c:95-193 | the whole function with its three results |
| Idn.EncodeLabel | src/network/idn.c:213-257 | a label converted, copied or refused |
| Idn.ToAscii | src/network/idn.c:264-305 | the host conversion with its terminator, or -2 exactly when a label fails or it does not fit |
| IdnLaws.OutputIsAscii | src/network/idn.c:264-305 | every converted host is ASCII, in labels that fit |
| IdnLaws.AsciiUnchanged | src/network/idn.c:232-238 | an ASCII host is unchanged, or refused for an overlong label |
| IdnLaws.Idempotent | src/network/idn.c:264-305 | converting twice is converting once |
| IdnLaws.HostConverts | src/network/idn.c:264-305 | a well-formed host converts exactly when each label's ASCII form fits; these forms stand between the same dots |
| IdnLaws.HostByLabels | src/network/idn.c:264-305 | labels end at full stops and are converted one by one |
| IdnLaws.AsciiLabelInNumbers | src/network/idn.c:232-238 | an ASCII label is unchanged up to 2047 characters and refused from there on |
| IdnLaws.LabelInNumbers | src/network/idn.c:240-256 | any other gets "xn--" and the encoding of its code points, if both fit 2047 |
| IdnLaws.HostRestoresIff | src/network/idn.c:264-305 | each label of a converted host stands for the original exactly when that was ASCII or had at most 1024 code points |
| IdnLaws.LabelRestoresIff | src/network/idn.c:213-257 | the same for one label |
| IdnLaws.ShortLabelsConvert | src/network/idn.c:264-305 | a host of labels of at most 185 code points always converts, and every label reads back |
| IdnLaws.LongLabelIsCut | src/network/idn.c:55 | 1024 ASCII characters with something not ASCII behind them come out as those characters alone |
| EventStore.PushKeepsNewest | src/protocol/v2.c:250-284 | a bounded queue holds exactly the newest elements of everything pushed |
| EventStore.QueuesInNumbers | src/protocol/v2.c:250-330 | new ids go to the end; at 1000 ids or 1024 ACKs the first leaves |
| EventStore.V2State.IsEventSeen | src/protocol/v2.c:219-228 | membership |
| EventStore.V2State.AddSeenEvent | src/protocol/v2.c:230-288 | first-time ids are appended with the oldest evicted at 1000; no duplicates; the capacity is 64 at first and doubles exactly when full |
| EventStore.V2State.AddAckEvent | src/protocol/v2.c:303-348 | appended with the oldest dropped at 1024; the capacity is 16 at first and doubles exactly when full, never past 1024 |
| EventStore.V2State.SnapshotAckIds | src/protocol/v2.c:365-390 | the oldest pending ids the buffer holds, all of them when it is large enough |
| EventStore.V2State.ClearAcks | src/protocol/v2.c:392-402 | empties the list, keeps the rest |
| EventProtocol.AckIsNumericForm | src/network/websocket.c:1063-1090 | the ACK id is the numeric form of the dedup key, for text and number ids alike |
| EventProtocol.IdsInNumbers | src/network/websocket.c:1063-1090 | key and ACK id of every kind of id |
| EventProtocol.TextAckInNumbers | src/network/websocket.c:1066-1070 | the ACK id of a text is the number it starts with, when positive |
| Strtol.ParseNumeral | src/network/websocket.c:1067 | white space, sign and digits convert to their value, held to the range of a `long` |
| Strtol.ParseNothing | src/network/websocket.c:1067 | anything else does not convert |
| Strtol.ValueByWeight | src/network/websocket.c:1067 | each digit counts ten times the next |
| EventProtocol.AckIsExactIff | src/network/websocket.c:1063-1090 | printed, the ACK id is the dedup key exactly when that is a number from 1 to INT_MAX without leading zeros, for every id |
| EventProtocol.ExactAcksDiffer | src/network/websocket.c:1063-1090 | such events share an ACK id only if they are the same event |
| EventProtocol.LargeIdsAlias | src/network/websocket.c:1078 | two numbers that share an ACK id |
| EventProtocol.TextsAlias | src/network/websocket.c:1066-1070 | a text behind a space, or with something behind its number, shares the ACK id of that number |
| EventProtocol.Reachable | src/network/websocket.c:1092-1171 | every interleaving of the two threads keeps the invariants |
| EventProtocol.AtMostOnce | src/network/websocket.c:1092-1107 | between two dispatches of an id at least 1000 other ids were recorded, distinct from it and each other |
| EventProtocol.OnlyActionsDispatched | src/network/websocket.c:1109-1160 | in every interleaving only exec, and pings and terminal requests without a line break, are ever dispatched |
| EventProtocol.CallExactly | src/network/websocket.c:1109-1160 | a fresh event with a key is dispatched exactly when it is one of these; a duplicate never |
| EventProtocol.AckExactly | src/network/websocket.c:1162-1171 | a positive ACK id is queued exactly for a duplicate or a known kind |
| EventProtocol.AcksStandForSeenIds | src/network/websocket.c:1162-1171 | bounded lists; every pending or reported ACK is the numeric form of an id recorded as seen |
| EventProtocol.SnapshotHoldsPending | src/core/main.c:783-790 | an ACK queued since the last clear is in the next snapshot unless 1024 later ones pushed it out |
| EventProtocol.OnlyAfterSend | src/core/main.c:797-813 | a pending ACK leaves the list only by a clear after a report that was sent, or as the oldest of 1024 when one more is queued |
| EventProtocol.ClearLosesExactly | src/core/main.c:801-812 | which ACKs a clear removes unreported |
| EventProtocol.ClearLosesNothingIff | src/core/main.c:801-812 | none, exactly when nothing was queued after the snapshot and at most 1024 before it |
| EventProtocol.LateAckIsLost | src/core/main.c:801-812 | a run that loses an ACK queued between report and clear |
| EventProtocol.Uninterrupted | src/network/websocket.c:1037-1176 | a duplicate is acknowledged but neither recorded nor dispatched; anything else is recorded, dispatched by kind, acknowledged if processed |
| EventHandler.Agent.HandleEvent | src/network/websocket.c:1037-1176 | the lists and calls after an event: recorded if new, called for exec, safe pings and safe terminal requests that are new, acknowledged if a duplicate or of a known kind |
| EventHandler.Agent.ReportCycle | src/core/main.c:783-813 | the whole pending list is reported, and cleared only when sent |
| NetStatic.InterfaceStats.Collect | src/monitoring/netstatic.c:54-98 | one sample with its deltas appended; growth by doubling to the cap, then the oldest dropped |
| NetStatic.InterfaceStats.Cleanup | src/monitoring/netstatic.c:114-144 | the leading expired samples go, the rest stays |
| NetStatic.InterfaceStats.MonthlyTraffic | src/monitoring/netstatic.c:393-439 | the month's totals, sticking at 2^64-1 |
| NetStatic.SaturatesInNumbers | src/monitoring/netstatic.c:420-432 | totals are exact up to 18446744073709551615 |
| NetStatic.StoredIsSuffix | src/monitoring/netstatic.c:67-98 | after any run the stored samples are a suffix of all appended, within a capacity that doubles from 1024 to 200000 |
| NetStatic.TakenInNumbers | src/monitoring/netstatic.c:56-98 | what a collect appends, counter by counter |
| NetStatic.CollectsInNumbers | src/monitoring/netstatic.c:67-98 | collects alone store up to 200000 samples, in a buffer that doubles from 1024 |
| NetStatic.DroppedIff | src/monitoring/netstatic.c:67-98 | a sample is gone exactly when a cleanup came while it was past the age limit, or 200000 later ones were taken |
| NetStatic.MonthAgreesIff | src/monitoring/netstatic.c:393-439 | for any run, the month's stored samples are all that were taken in it exactly when those are at most 200000 and no cleanup found one past the age limit |
| NetStatic.MonthAgreesWithHistory | src/monitoring/netstatic.c:393-439 | in a month within the window and with the clock set: exactly when they are at most 200000; the totals agree exactly when no sample pushed out by 200000 later ones carried traffic |
| NetStatic.TotalAgreesIff | src/monitoring/netstatic.c:393-439 | for every run and calendar, the monthly total is that over all samples ever taken exactly when no lost sample of the month carried traffic; the reported total also when it already sticks at 2^64-1 |
| NetStatic.FullStoreLosesTraffic | src/monitoring/netstatic.c:67-76 | a counter read every two seconds that gains an octet each time, more than 200001 times within a month, has traffic missing from the monthly total |
| NetStatic.CleanupSparesIff | src/monitoring/netstatic.c:114-134 | for every calendar and clock, cleanup spares the current month exactly when none of its samples is past the age limit |
| NetStatic.CleanupInNumbers | src/monitoring/netstatic.c:114-134 | exactly the samples of the last 2678400 seconds stay; before that many have passed, none |
| NetStatic.CleanupSparesMonthIff | src/monitoring/netstatic.c:115-127 | in a month within the window, exactly when the clock is past the window, or nothing is at stake |
| NetStatic.LongMonthLosesSample | src/monitoring/netstatic.c:115-127 | a month of 31 days and an hour loses a sample though the clock is set |
| NetStatic.ConservedIff | src/monitoring/netstatic.c:56-65 | deltas over a rising counter add up to last minus first exactly when it had left zero, or stays there |
| NetStatic.TrafficAcrossResets | src/monitoring/netstatic.c:350-363 | from a fresh interface, for any readings, the history sums to what the counter gained between its resets |
| NetStatic.TrafficConserved | src/monitoring/netstatic.c:350-363 | from a fresh interface the history accounts for exactly the traffic between first and last reading |
| VersionCompare.CompareVersions | src/update/update.c:211-260 | the result is the lexicographic order of the tokens as `strtol` reads them |
| VersionCompare.LeadingV | src/update/update.c:214-216 | one leading v is taken off, no more |
| VersionCompare.CompareNumbers | src/update/update.c:220-228 | runs of digits decide by value, or leave it to what follows |
| VersionCompare.CompareCharacters | src/update/update.c:229-235 | otherwise the first characters decide, or leave it to what follows |
| VersionCompare.CompareEnds | src/update/update.c:238-259 | what runs out first is less |
| VersionCompare.CompareExactIff | src/update/update.c:220-228 | that is the order of the true numbers, except behind a first difference of two numbers that both reach LONG_MAX, and then exactly when what follows falls the same way |
| VersionCompare.LargeNumbersTie | src/update/update.c:220-228 | any two numbers from LONG_MAX on compare equal |
| VersionCompare.VersionOrder | src/update/update.c:211-260 | reflexive, sign-antisymmetric and transitive on all strings |
| VersionCompare.EqualIff | src/update/update.c:211-260 | zero exactly for equal tokens, but for numbers that both reach LONG_MAX |
| JsonEscape.RoundTrip | src/utils/utils.c:458-510 | unescaping an escaped string gives its first characters, as many as fit |
| JsonEscape.EscapeIsJson | src/utils/utils.c:387-456 | the result is the inside of a well-formed JSON string |
| JsonEscape.EscapeLength | src/utils/utils.c:390-393 | at most six octets per octet |
| JsonEscape.EscapesInNumbers | src/utils/utils.c:399-447 | the escape of each octet |
| JsonEscape.EscapeConcat | src/utils/utils.c:397-450 | strings are escaped octet by octet |
| JsonEscape.UnescapesPlain | src/utils/utils.c:503-505 | octets that start no escape stand for themselves |
| JsonEscape.UnescapesLetter | src/utils/utils.c:466-502 | two-character escapes, known and unknown, and a u with too little behind it |
| JsonEscape.ParsesFour | src/utils/utils.c:477-480 | what four hexadecimal digits stand for |
| JsonEscape.UnescapesAscii | src/utils/utils.c:481-482 | a code point below 128 |
| JsonEscape.UnescapesTwo | src/utils/utils.c:483-487 | below 2048, where it fits |
| JsonEscape.UnescapesThree | src/utils/utils.c:488-493 | the others, where they fit |
| JsonEscape.JsonEscapeString | src/utils/utils.c:387-456 | the complete escape, terminated; the truncation exits are unreachable |
| JsonEscape.JsonUnescapeString | src/utils/utils.c:458-510 | the unescaped characters that fit, terminated |
| JsonEscape.EscapeIntoBuffer | src/report/report.c:40-99 | stays within the buffer and holds the escape of the characters kept |
| JsonEscape.KeptIsSubsequence | src/report/report.c:52-97 | characters are kept whole or dropped, in order |
| JsonEscape.KeptAllIff | src/report/report.c:52-97 | nothing is dropped exactly when the whole escape fits |
| JsonEscape.KeptNext | src/report/report.c:52-97 | a character is kept exactly when its escape fits behind those of the kept ones |
| JsonEscape.BoundedRoundTrip | src/report/report.c:40-99 | the buffer unescapes to the characters kept; six octets per character always suffice |
| Checksum.ComputeChecksum | src/ping/ping.c:46-59 | the complement of the folded word sum |
| Checksum.Example | src/ping/ping.c:46-59 | the example of section 3 of RFC 1071 |
| Checksum.OddOctet | src/ping/ping.c:52-54 | an odd last octet counts as the low half of a word |
| Checksum.FoldKeeps | src/ping/ping.c:55-57 | folding keeps the sum modulo 65535 and keeps it from becoming zero |
| Checksum.SumFits | src/ping/ping.c:47-51 | up to 131072 octets the sum fits 32 bits |
| Checksum.VerifiesIff | src/ping/ping.c:46-59 | the checksum is zero exactly on positive multiples of 65535 |
| Checksum.StoreIsOneWord | src/ping/ping.c:47-51 | storing a 16-bit field at an even offset changes one word of the sum and no other |
| Checksum.FilledInVerifies | src/ping/ping.c:229-230 | a packet of octets verifies once the checksum taken with its field zeroed is stored there |
| Checksum.FillIn | src/ping/ping.c:229-230 | zeroing the field, summing and storing in place leaves a packet that verifies |
| Checksum.DetectsOneWord | src/ping/ping.c:46-59 | changing one 16-bit field of a packet that verifies is noticed, unless it swaps 0x0000 and 0xFFFF in a packet not all zero |
| Base64.EncodeInto | src/network/websocket.c:59-72 | the encoding with its terminator |
| Base64.RoundTrip | src/network/websocket.c:59-72 | a decoder for section 4 of RFC 4648 undoes it |
| Base64.Samples | src/network/websocket.c:59-72 | samples of section 10 of RFC 4648 |
| Base64.AlphabetSamples | src/network/websocket.c:59-72 | each stretch of the alphabet |

## Left out

- Sockets, TLS, DNS, processes, terminals, files and logging: the outside world. Only the byte-level
  contract of reads and writes is modelled.
- The rest of the handshake: request building, header checks and the SHA-1 key. `Client.ReadResponse`
  covers where the reply ends, not whether it is accepted.
- Connecting, disconnecting and protocol fallback. `Client.ReceiveLoop` runs without a stop request;
  one that arrives in between ends the loop at the next frame.
- A write error after some of a frame went out: a `Socket` either takes writes for a whole run or never.
- What handlers do with a message: JSON parsing, message fields, exec, ping and terminal actions. An
  event arrives as its id, its kind and whether a field holds a line break.
- Failed allocations: every allocation succeeds.
- Liveness of reporting: the report buffer can be too small for a full ACK list.
- Overflow exits of the decoder in RFC 3492: the reference decoder counts without bound.
- Host names with ports, brackets or IP addresses, and URLs: splitting around the modelled conversion.
- Loading and saving samples: the file format passes counters through floating point.
- Finding an interface by name and reading /proc/net/dev: one interface's readings are given.
- Calendar rules: a month is any function of time; `MonthAgreesIff` needs that the current one is one
  stretch, `MonthAgreesWithHistory` and `CleanupSparesMonthIff` also that it is within the window.
- Checksum.ComputeChecksum: does not model wrap-around of the sum, which `SumFits` rules out up to 131072
  octets even where an `unsigned long` has 32 bits; an echo request has 64 octets.
- Percent-encoding, configuration, retries, caches and payload builders: single-branch code.
