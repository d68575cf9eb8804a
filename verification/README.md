# Tab5 OS: verified core components

A Dafny 4.11 model of the small stateful and arithmetic components under Tab5 OS's screens, with
proofs of what they promise. `dafny verify dfyconfig.toml` checks the whole project.

## What is modelled

**HTTP response guard** (`HttpFraming`, `HttpHead`, `HttpGrammar`, `HttpGuard`). The guard keeps an 8 KiB buffer
between a socket and a client library. `Filter` is what it should let through of a byte stream: interim heads
vanish, the final head and the body pass unchanged, a trailer block becomes one CRLF, nothing
passes the end of the message. `Filter` is tied in both directions to a grammar of well-formed
responses (RFC 9112 sections 4 to 7; interim responses are section 15.2 of RFC 9110), written down line by
line and chunk by chunk without the parser's or the automaton's functions. The class
`Guard` has the program's fields and in-place buffer moves; its invariant says that for every
continuation of the stream the filter of everything is what was sent followed by what the guard's
state still owes. The socket, the clock and the cancel flag are arbitrary scripts, so every cut
into reads, every sequence of caller lengths and every moment of cancellation is covered. Every look
at the clock and the cancel flag, every socket failure and every wait that ran out is recorded, so
that giving up is excused by one of these or by a peer that closed too early.

**MQTT** (`MqttReceive`, `MqttShared`, `MqttSession`, `MqttHistory`). Fragment reassembly is proved against a
definition of when fragments tile a message, which every cutting of every message meets. The session protocol is a state machine with one step
per critical section, library call or notification of the screen task, the network task and the
worker; handles are numbered by creation, so a freed handle is never mistaken for a new one. Each
session keeps a book of what happened to every log entry. What is logged, and which actions are accepted, is
told from the events of the run alone. The critical sections that change what the
steps depend on, with the two eight-entry rings on arrays, are methods of a class, proved against the
functions the state machine steps by.

**CRC, Modbus and byte codecs** (`Crc`, `CrcDivision`, `CrcCheckValues`, `Modbus`, `ModbusText`,
`ModbusReader`, `ByteData`). Loops over arrays are proved against functions; the registers hold the remainder of
a division by the published generators, and the step is linear and invertible, so a
short burst always changes the residue; parsers accept exactly the canonical encodings; printing and
parsing are inverse, and a reader of the shown text alone recovers every address and value.

**Name lookups** (`Resolver`, `ResolverRuns`, `ResolverOutcomes`). The critical sections are methods on shared request
objects, proved against functions on a table; the run model interleaves any number of callers, the
network task and its late callbacks.

**NTP** (`Ntp`, on the `Calendar` of the leap rule), **BLE explorer writes** (`BleWrite`), **printer console** (`Ender3`) and **remote
frame encoding** (`RemoteFrame`) complete the set.

Bytes are integers 0..255, C integers are unbounded with every wrap, cut or saturation written out,
and where the program relies on an intermediate value fitting its type the fit is asserted.

### Where code and promise part

* `network_resolver.c`: an ID returns after 2^32 - 1 starts. `LateCallback` says exactly when a late
  callback finds nothing; the run results assume fewer than that many starts while a lookup is
  attached or owed a callback.
* `ble_tool.c`: a link may be lost between the tap that decides to send and the call that sends;
  the call is still made with the old connection. `LinkLostBeforeTheCall` is such a run;
  `WritesAreArmed` and `CallStack` say that the decision comes right before the call if and only if
  the connected flag is up at the call.
* `http_transport.c`: when one read asks for more than 8192 bytes, a well-formed response may be refused;
  `RefusedThoughWellFormed` is such a run. `FrameBody` gives the exact condition: the read ends the
  chunks, and what lies behind the last size line, with what was buffered before, exceeds 8192 bytes.
  `DeliversResponse` therefore excludes histories with such a refusal, and `ReadAll` lengths over 8192.
* `ntp_data.c`: the microsecond whose stamp is all zero cannot be told from an undefined stamp;
  `TimestampRoundTrip` gives the exact condition, and `ZeroStamp` the one instant, in 2036.
* `mqtt_tool.c`: after the screen is shown nothing is logged until the log button is tapped, unless the screen was
  left and shown again while the session it had logged was stopping: that session goes on with the setting it was
  handed over with. `LoggedThoughUntapped` is such a run, `NothingLoggedUntapped` covers every other, and
  `LoggedExactlyWhenOn` is the exact rule.

## Model

| member | source | states |
|---|---|---|
| `HttpFraming.BlockEndIsFirst` | main/http_transport.c:157-164 | a block ends at the first blank line, or for trailers at an empty line in front, and there is none exactly when neither occurs |
| `HttpFraming.ExecuteFilters` | main/http_transport.c:203-225 | running the framing automaton on a chunk and filtering the remainder is filtering the whole |
| `HttpFraming.FilterGrows` | main/http_transport.c:227-289 | more input never retracts output, and an ended or refused stream stays so |
| `HttpHead.HeadClassified` | main/http_transport.c:125-134 | every head written as RFC 9112 writes it is framed as its status and its framing fields say: a length, chunks, until close, no body, dropped as interim, or refused |
| `HttpHead.OnlyHeads` | main/http_transport.c:166-178 | a block that is no such head, whatever is wrong with it, is refused |
| `HttpHead.HeadEnds` | main/http_transport.c:157-164 | such a head ends at its own empty line and not before |
| `HttpHead.TrailersRead` | main/http_transport.c:166-186 | a trailer section is valid exactly when no framing field comes twice |
| `HttpGrammar.WellFormedPasses` | main/http_transport.c:166-289 | every well-formed response is filtered to its final head, its body and a collapsed trailer, whatever follows it |
| `HttpGrammar.OnlyWellFormedEnds` | main/http_transport.c:112-140 | a stream the filter ends starts with a well-formed response |
| `HttpGuard.Guard.Stopped` | main/http_transport.c:40-50 | a running guard looks once and stops exactly for cancellation, else for the deadline; the first reason is final and nothing is looked at after it |
| `HttpGuard.Guard.Reset` | main/http_transport.c:150-155 | a fresh response, with the stop reason kept |
| `HttpGuard.Guard.FindBlockEnd` | main/http_transport.c:157-164 | the loop finds exactly the block end |
| `HttpGuard.Guard.PrepareMetadata` | main/http_transport.c:166-201 | dropping, releasing, collapsing and refusing each keep the guard faithful to the filter, with progress |
| `HttpGuard.Guard.FrameBody` | main/http_transport.c:203-225 | framed bytes are exactly those the filter passes; what follows them is kept, or refused exactly when it cannot fit the buffer |
| `HttpGuard.RefusedThoughWellFormed` | main/http_transport.c:209-213 | a run in which a well-formed response is refused because one read took too much |
| `HttpGuard.Guard.DeliverBlock` | main/http_transport.c:232-241 | released metadata is delivered next, in order and without loss |
| `HttpGuard.Guard.Read` | main/http_transport.c:227-289 | one call: a result extends what was sent; a released block comes before any failure; end of file only for a complete response; a running guard gives up only when drained and when the socket failed, a wait ran out or the peer closed early; cancellation and deadline stop it exactly when a look finds them |
| `HttpGuard.Guard.BlocksAreWhole` | main/http_transport.c:232-241 | in every state with nothing released, hence at every failure under any stop, the client holds no head or a whole one, and is not inside an empty trailer |
| `HttpGuard.Guard.BlocksOfResponse` | main/http_transport.c:232-241 | the same counted in bytes of a well-formed response |
| `HttpGuard.Guard.NothingWithheld` | main/http_transport.c:246-289 | the guard asks the socket for more only when all the filter allows has been delivered |
| `HttpGuard.Guard.CompleteMeansDelivered` | main/http_transport.c:390-395 | a response reported complete has been delivered whole |
| `HttpGuard.Guard.DeliveredIsFiltered` | main/http_transport.c:227-289 | in every state what was delivered is a prefix of the filtered stream |
| `HttpGuard.Guard.RefusalIsEarned` | main/http_transport.c:166-225 | a refusal is the filter's own verdict on the bytes received |
| `HttpGuard.Guard.DeliversResponse` | main/http_transport.c:227-289 | with a well-formed peer nothing is refused, delivery is a prefix of the expected bytes, completion means all of them, waiting means the peer's part is missing |
| `HttpGuard.Guard.ReadAll` | main/http_transport.c:227-289 | a whole exchange for any cut and any lengths up to 8192: always a prefix that cuts no metadata block; with enough reads, no alarming look, no socket failure and no expired wait, all of the filtered response once the peer has sent it |
| `MqttReceive.TilesExtends` | main/mqtt_tool.c:444-478 | a fragment continues a tiling exactly when it is next, not empty and of the same message |
| `MqttReceive.AnyCutIsWhole` | main/mqtt_tool.c:444-517 | whatever came before, any message with a topic, cut into pieces of any sizes, is whole after its last piece, with exactly its payload |
| `MqttReceive.DisplayShows` | main/mqtt_tool.c:391-396 | printable bytes, tabs and newlines are shown as they are, returns as newlines, all else as dots |
| `MqttReceive.TopicShows` | main/mqtt_tool.c:398-410 | a topic is marked as a preview exactly when it is not shown as it is |
| `MqttReceive.CopyReceivedTopic` | main/mqtt_tool.c:398-410 | the topic shown and when it is only a preview |
| `MqttReceive.Receiver.Absorb` | main/mqtt_tool.c:444-492 | fragments are accepted exactly while they tile, and the buffers hold their bytes |
| `MqttReceive.Receiver.HandleData` | main/mqtt_tool.c:444-517 | a message is published exactly when the fragments since the latest topic tile it whole, with exact bytes up to 128 and the preview of the first 512 |
| `MqttShared.NewestEightStay` | main/mqtt_tool.c:412-442 | after any number of messages each ring holds the newest eight in order, and the drops are counted, wrapping or sticking |
| `MqttShared.EntryOf` | main/mqtt_tool.c:432-440 | a log entry is the message's metadata |
| `MqttShared.Session.PushMessageLocked` | main/mqtt_tool.c:412-442 | both rings keep the newest eight in order, metadata only in the log; drops are counted, the log's up to saturation; logging only when enabled and not failed |
| `MqttShared.Session.SelectWork` | main/mqtt_tool.c:953-971 | an action before a cleanup before the oldest log entry, as the state machine selects |
| `MqttShared.Session.QueueAction` | main/mqtt_tool.c:1409-1417 | an action is accepted exactly for a live, connected, not stopping client with none pending or running |
| `MqttShared.Session.RecordLogError` | main/mqtt_tool.c:938-946 | the first error stays, logging ends and the queued entries go |
| `MqttShared.Session.HandOver` | main/mqtt_tool.c:1066-1077 | the client moves to the cleanup slot with what its log needs |
| `MqttShared.Session.FinishCleanup` | main/mqtt_tool.c:1038-1048 | the session is over |
| `MqttShared.Session.FreeBuffers` | main/mqtt_tool.c:839-858 | both rings go, the drop count of the log stays |
| `MqttShared.Session.MoreWork` | main/mqtt_tool.c:930-936 | asks exactly whether an action, a cleanup or a log entry waits |
| `MqttShared.Session.Show` | main/mqtt_tool.c:1596-1605 | showing the screen turns logging off and forgets an old error unless a client runs |
| `MqttShared.Session.ResetLog` | main/mqtt_tool.c:1322-1330 | a new session starts without error, report or drops |
| `MqttShared.Session.ToggleLog` | main/mqtt_tool.c:1377-1380 | logging changes unless the running session has failed |
| `MqttShared.Session.Announce` | main/mqtt_tool.c:1338-1342 | the client counts as running before it is started |
| `MqttShared.Session.Abandon` | main/mqtt_tool.c:865-871 | a client that did not start leaves no running session |
| `MqttShared.Session.NetworkUp` | main/mqtt_tool.c:552-558 | connected, unless the session is stopping |
| `MqttShared.Session.NetworkDown` | main/mqtt_tool.c:564-566 | no longer connected |
| `MqttShared.Session.NetworkFailed` | main/mqtt_tool.c:590-598 | no longer connected, unless the session is stopping |
| `MqttShared.Session.StopSnapshot` | main/mqtt_tool.c:877-880 | what an action sees of a stop, nothing changed |
| `MqttShared.Session.ActionDone` | main/mqtt_tool.c:925-927 | the worker is free for another action |
| `MqttShared.Session.ReportLogError` | main/mqtt_tool.c:981-986 | a failure is reported once, and not while stopping |
| `MqttShared.Session.ReportAtEnd` | main/mqtt_tool.c:1029-1032 | a failure not yet reported is reported at the end |
| `MqttShared.Session.TakeMessage` | main/mqtt_tool.c:696-711 | the oldest message leaves the ring |
| `MqttSession.StepKeepsInv` | main/mqtt_tool.c:860-1080 | every step of every task keeps ownership, wake-up and log invariants |
| `MqttSession.CallsAreSafe` | main/mqtt_tool.c:875-999 | in every reachable state a library call uses an existing client, and an action's client is the live one or the one being cleaned up |
| `MqttSession.DestroyedOnce` | main/mqtt_tool.c:860-873 | a client is destroyed once, with no action pending or running and its network task ended |
| `MqttSession.StaysDestroyed` | main/mqtt_tool.c:993-999 | a destroyed client stays destroyed in every continuation |
| `MqttSession.NothingStranded` | main/mqtt_tool.c:503-507 | in every reachable state a waiting worker with work queued has a notification pending or about to be given |
| `MqttSession.SomethingCanHappen` | main/mqtt_tool.c:930-993 | the worker is never stuck and promised notifications can be given |
| `MqttSession.StillMeansDone` | main/mqtt_tool.c:1035-1059 | when no internal step is possible no work is queued and no session is stopping |
| `MqttSession.InternalStepsDescend` | main/mqtt_tool.c:948-1060 | each internal step lowers a measure |
| `MqttSession.RunsDrain` | main/mqtt_tool.c:948-1060 | without new work every run ends within the measure, and a stopping session is then fully stopped |
| `MqttSession.LogOnlyGrows` | main/mqtt_tool.c:938-946 | pushes only append, fates are final, one entry at most reaches the card a step, and none after a failed append |
| `MqttSession.SessionIsAccountedFor` | main/mqtt_tool.c:1001-1033 | between sessions every entry was appended in order, dropped and counted, or discarded after a failure that was reported once |
| `MqttHistory.LoggedExactlyWhenOn` | main/mqtt_tool.c:424-441 | in every reachable state a message is logged exactly when the events so far left the button on, a card there and no append failed, at the hand-over if the session is stopping |
| `MqttHistory.NothingLoggedUntapped` | main/mqtt_tool.c:1594-1605 | nothing is logged after the screen was shown, no session stopping, until the button is tapped |
| `MqttHistory.LoggedThoughUntapped` | main/mqtt_tool.c:1066-1077 | a run in which a stopping session logs although the screen was shown again and the button not tapped |
| `MqttHistory.ActionsAccepted` | main/mqtt_tool.c:1409-1417 | in every reachable state an action is accepted exactly when, by the events so far, a session runs, is connected and not stopping, and no action is under way |
| `CrcDivision.Crc16Divides` | main/byte_data.c:50-59 | the register is the remainder of the message on division by x^16 + x^15 + x^2 + 1, the first sixteen bits inverted |
| `CrcDivision.Crc32Divides` | main/byte_data.c:61-75 | the same for 32 bits and the published generator, inverted at the end |
| `CrcDivision.DivisionRestores` | main/byte_data.c:50-59 | the division is one: quotient times divisor plus remainder is the dividend |
| `CrcCheckValues.CheckValue16` | main/byte_data.c:235 | the published check value of nine digits is 0x4b37 |
| `CrcCheckValues.CheckValue32` | main/byte_data.c:235 | the published check value of nine digits is 0xcbf43926 |
| `Crc.ComputeCrc16` | main/byte_data.c:50-59 | the bitwise loop computes the register function |
| `Crc.ShiftLinear` | main/byte_data.c:54-57 | a register step is linear over exclusive or |
| `Crc.ShiftKeepsNonzero` | main/byte_data.c:54-57 | a register step never loses a nonzero value |
| `Crc.BurstShows` | main/byte_data.c:50-59 | a nonzero pattern no wider than the register leaves a nonzero residue |
| `Crc.BurstChangesResidue` | main/byte_data.c:50-59 | frames that differ in one short burst have different residues from any start |
| `Crc.ResidueIsTrailer` | main/modbus_data.c:132-144 | a zero residue over a frame is exactly a matching trailer |
| `Modbus.TcpExact` | main/modbus_data.c:99-111 | a TCP reply is accepted exactly when it is the canonical encoding of a value vector, which is returned |
| `Modbus.RtuExact` | main/modbus_data.c:132-144 | the same for RTU frames |
| `Modbus.PduExact` | main/modbus_data.c:72-97 | the same for the function part, with zero padding of packed bits |
| `Modbus.RejectedIsCleared` | main/modbus_data.c:72-144 | any other outcome leaves no values, and only an exception keeps its code |
| `Modbus.BurstRejected` | main/modbus_data.c:132-144 | an accepted RTU frame altered within 16 consecutive wire bits is never accepted for any request |
| `Modbus.RequestsDistinct` | main/modbus_data.c:46-56 | different valid requests have different TCP frames |
| `Modbus.RequestLayout` | main/modbus_data.c:39-56 | what a device reads at each offset of a request |
| `Modbus.ReplyLayout` | main/modbus_data.c:72-97 | what a device writes at each offset of a reply |
| `Modbus.BuildRequest` | main/modbus_data.c:46-56 | the buffer holds the request frame, or zeros |
| `Modbus.RtuBuildRequest` | main/modbus_data.c:118-130 | the same for RTU |
| `Modbus.ParseReadPdu` | main/modbus_data.c:72-97 | the parser over arrays computes the parsing function and clears the rest |
| `Modbus.ParseResponse` | main/modbus_data.c:99-111 | the same for whole TCP replies |
| `Modbus.RtuParseResponse` | main/modbus_data.c:132-144 | the same for whole RTU replies |
| `ModbusText.ParseDecimal` | main/modbus_data.c:158-171 | accepts exactly one to five digits no greater than the maximum |
| `ModbusText.DecimalRoundTrip` | main/modbus_data.c:197-208 | a printed word is read back as that word |
| `ModbusText.SignedRoundTrip` | main/modbus_data.c:217-221 | a number of either sign is read back from its decimal text |
| `ModbusReader.TextTells` | main/modbus_data.c:173-237 | a reader of separators and line ends recovers from the text of every reply its kind and order, and for each value its address and what the view says of it |
| `ModbusText.OrderNamesBytes` | main/modbus_data.c:210-215 | shifts and masks put the four bytes in the order its name gives |
| `ModbusText.FormatValues` | main/modbus_data.c:173-237 | all of the text exactly when the reply can be shown and fits, else none |
| `ModbusText.EveryReplyFits` | main/modbus_data.h:84-90 | 768 characters hold every reply in every view and order |
| `ByteData.Calculate` | main/byte_data.c:61-86 | sums, checks, integer views and the two binary32 views of a payload equal their definitions |
| `ByteData.BinaryParts` | main/byte_data.c:36-48 | the number by sign, exponent and fraction |
| `ByteData.HexDigitsAre` | main/byte_data.c:13-19 | the 22 digits in either case are read, and no others |
| `ByteData.FloatsDistinct` | main/byte_data.c:36-48 | two patterns are never read as the same number, signed zeros and infinities included |
| `ByteData.Parse` | main/byte_data.c:89-129 | hex and ASCII texts are accepted exactly by their grammar and limits, with the bytes they denote and a justified error otherwise |
| `ByteData.ReadMagnitude` | main/byte_data.c:207-215 | digits are read exactly up to the limit, without leaving 64 bits |
| `ByteData.ImageRoundTrip` | main/byte_data.c:27-34 | writing a number in range and reading the matching view returns it |
| `ByteData.Encode` | main/byte_data.c:173-227 | succeeds exactly on decimal texts of at most 32 characters with a permitted sign and value in range, and the view equals the value |
| `ByteData.Clipboard.Store` | main/payload_clipboard.c:8-17 | at most 128 bytes are kept, otherwise nothing changes |
| `ByteData.Clipboard.Hex` | main/payload_clipboard.c:24-39 | prints the stored bytes when they fit, else an empty text |
| `ByteData.HexRoundTrip` | main/payload_clipboard.c:24-39 | decoding the printed text gives the bytes back |
| `ByteData.ClipboardRoundTrip` | main/byte_data.c:89-129 | every stored payload survives printing and parsing |
| `Resolver.SharedIds` | main/network_resolver.c:113-114 | two lookups share an ID exactly when a multiple of 2^32 - 1 starts separates them |
| `Resolver.LateCallback` | main/network_resolver.c:27-50 | exactly when a callback after detaching finds nothing |
| `Resolver.KeptIs` | main/network_resolver.c:38-44 | of the first four addresses all are kept but the any-addresses at the end |
| `Resolver.Shared.FindLookup` | main/network_resolver.c:27-32 | the first active lookup with the ID |
| `Resolver.Shared.LookupResult` | main/network_resolver.c:34-50 | fills the lookup once, trims trailing any-addresses, touches nothing else |
| `Resolver.Shared.Dispatch` | main/network_resolver.c:58-71 | the deadline check and the name to query |
| `Resolver.Shared.Attach` | main/network_resolver.c:107-116 | first free slot and next ID, or nothing when both are taken |
| `Resolver.Shared.Detach` | main/network_resolver.c:137-139 | only the slot is cleared |
| `Resolver.Request.Read` | main/network_resolver.c:123-132 | a finished lookup's error, and addresses only on success and up to capacity |
| `ResolverRuns.StepKeeps` | main/network_resolver.c:34-141 | every step keeps the invariant, and results are written once, only while in flight |
| `ResolverRuns.EveryRunIsHonest` | main/network_resolver.c:120-140 | in every run success returns the leading addresses found for its own query, without trailing any-addresses, one to capacity of them; failure returns none |
| `ResolverOutcomes.FailuresHaveCauses` | main/network_resolver.c:52-140 | in every run each error returned has its cause among the events: its deadline, its cancellation, memory, or the stack's answer |
| `ResolverOutcomes.QueriedInTime` | main/network_resolver.c:58-71 | a lookup is queried exactly when its call still waits and its deadline has not come, and timed out when it has |
| `ResolverRuns.ReturnedStaysReturned` | main/network_resolver.c:34-50 | after a call returned, or its result was written, no continuation changes its lookup |
| `ResolverRuns.WritesOnlyItsOwn` | main/network_resolver.c:34-79 | a dispatch or callback writes only to the attached, unfinished lookup with its ID |
| `ResolverRuns.BusyMeansTwoInFlight` | main/network_resolver.c:107-112 | a lookup is refused exactly while two others are in flight |
| `Ntp.BuildRequest` | main/ntp_data.c:46-61 | the packet, or zeros for an implausible clock |
| `Ntp.StampCarries` | main/ntp_data.c:46-61 | the stamp built for a Unix time carries the seconds since 1900 by the calendar, and the fraction |
| `Ntp.RequestCarries` | main/ntp_data.c:46-61 | a request is a client's, version 4, with the time of sending where the server returns it from |
| `Ntp.StampDecodes` | main/ntp_data.c:63-75 | any stamp the calendar allows for a moment is decoded to that microsecond, exactly when within 2^31 seconds and not all zero |
| `Ntp.SaneYears` | main/ntp_data.c:25-28 | a plausible clock shows a year from 2020 to 2099 |
| `Ntp.ZeroStamp` | main/ntp_data.c:63-67 | the one instant whose stamp is all zero |
| `Ntp.DecodeTimestamp` | main/ntp_data.c:63-75 | the decoder over the packet's bytes computes the decoding function |
| `Ntp.ParsePacket` | main/ntp_data.c:77-126 | the parser over the packet's bytes computes the parsing function |
| `Ntp.EraSelection` | main/ntp_data.c:68-72 | the nearest era is the true one within half an era |
| `Ntp.TimestampRoundTrip` | main/ntp_data.c:46-75 | building then decoding returns that microsecond exactly when within 2^31 seconds and not at the one instant of 2036 |
| `Ntp.OutcomesExplained` | main/ntp_data.c:77-126 | each status has its condition; numbers appear on success only, the round trip as measured, metadata also for a refusing or unsynchronized server |
| `Ntp.OffsetWithinHalfDelay` | main/ntp_data.c:107-121 | with server stamps from the calendar, the reported offset is within half the reported delay of the true one, and when an exchange is accepted |
| `BleWrite.ParseHex` | main/ble_tool.c:144-158 | accepts exactly one to 64 two-digit words between spaces |
| `BleWrite.PrintedIsWritable` | main/ble_tool.c:144-158 | any one to 64 bytes are taken from the text the clipboard prints |
| `BleWrite.WriteIssued` | main/ble_tool.c:809-866 | two taps at most five seconds apart, the clock wrapping or not, issue the write |
| `BleWrite.Explorer.DecideWrite` | main/ble_tool.c:824-848 | sends exactly on a confirming tap with nothing else going on, arms exactly on another valid tap |
| `BleWrite.Explorer.ConnectEvent` | main/ble_tool.c:551-567 | a new connection disarms and starts anew |
| `BleWrite.Explorer.DisconnectEvent` | main/ble_tool.c:586-592 | a lost link disarms and clears |
| `BleWrite.Explorer.Tick` | main/ble_tool.c:1301-1304 | expiry disarms after five seconds |
| `BleWrite.WritesAreArmed` | main/ble_tool.c:809-866 | every write goes back to an arming tap with the same bytes, handle and connection at most 5000 ms earlier; its decision comes right before the call if and only if the link is up at the call, and otherwise only a lost link lies between |
| `BleWrite.Explorer.CallStack` | main/ble_tool.c:850-854 | the recorded call follows its decision directly exactly when the connected flag is up |
| `BleWrite.Explorer.ResetConnectionData` | main/ble_tool.c:315-327 | disarming is part of clearing the connection's data |
| `BleWrite.OneTapOneWrite` | main/ble_tool.c:845-847 | between two writes lies another arming tap |
| `BleWrite.LinkLostBeforeTheCall` | main/ble_tool.c:848-852 | a run in which the link drops between the decision and the call |
| `Ender3.CutsAtNewlines` | main/ender3_tool.c:184-201 | cutting loses nothing and cuts at every newline only |
| `Ender3.PlainLine` | main/ender3_tool.c:184-201 | a line that fits is shown as it is, also before the return of a DOS line end |
| `Ender3.ShownIsPrefix` | main/ender3_tool.c:184-201 | of a longer line the first 191 characters that are no returns |
| `Ender3.Splitter.SplitLines` | main/ender3_tool.c:184-201 | over any calls the lines are those of all bytes so far, without returns and capped at 191 |
| `Ender3.NewestInSteps` | main/ender3_tool.c:203-213 | keeping the newest as they come keeps the newest of all |
| `Ender3.Ring.Push` | main/ender3_tool.c:203-213 | the ring holds the newest 2048 unread bytes in order |
| `Ender3.Ring.Pull` | main/ender3_tool.c:215-222 | the oldest bytes are handed out and removed |
| `RemoteFrame.PairBytes` | main/main.c:2851-2862 | one pair is a count and a colour, low bytes first |
| `RemoteFrame.Encode` | main/main.c:2851-2862 | expanding the pairs gives the pixels back, counts are 1 to 65535, and no encoding of the same pixels is shorter |
| `RemoteFrame.FewestPairs` | main/main.c:2851-2862 | full counters and no needless cut make an encoding no longer than any other with the same expansion |
| `RemoteFrame.ExpandLength` | main/main.c:2904-2905 | any encoding without empty pairs needs at most four bytes a pixel |
| `RemoteFrame.SendFrame` | main/main.c:2843-2862 | a whole screen fits the buffer allocated for it |

## Left out

- The `http_parser` library's source is not part of this model: its framing is a byte automaton
  after RFC 9112 with strict CRLF line ends and unbounded sizes.
- Null pointers, allocation failure of the MQTT worker, and C strings cut at an embedded zero byte.
- The socket, TLS, FreeRTOS, NimBLE, lwIP and client-library internals; they act as arbitrary steps
  within stated limits (critical sections are atomic, a started procedure has one callback, no
  events after the client's stop call has returned).
- Writing, connecting and polling of the HTTP transport, its URL handling and error numbers.
- MQTT critical sections that only copy status texts, revisions or previews for the screen have no method.
- MQTT status texts, screen history, profiles, the CLEAR button and cleartext confirmation; the
  time stamp of a received message.
- The other operations of the BLE explorer that share its busy flag: `OperationEnded` lets it be
  cleared at any time, and nothing proved relies on it.
- Float32 input, and what `%.9g` prints for a finite number: `EveryReplyFits` takes the 15-character bound as
  given, `TextTells` that it is one line.
- Doubles: NTP results are the exact quotients.
- Storage: appending a log entry succeeds or fails as a whole.
- Name lookup arguments and numeric addresses, which return before any shared state is touched, and NTP port text.
- ParseDecimal: the value starts at zero on failure; here a failure has no value.
- LVGL screens, GPIO, audio, weather, updates, alarms and the other calculators.
