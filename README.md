# ESP8266 AT-command driver: protocol engine

This project models the protocol engine of an Arduino driver for the ESP8266
wireless co-processor. The driver talks to the module's AT-command firmware
over a serial link. It:

- sends a command line and classifies the response by the substrings "OK",
  "ALREADY" and "SEND OK";
- drains whatever bytes the link has available into a growable buffer that
  starts at 64 bytes and doubles (`readFromBoard`);
- walks a response line by line (`readline`) and parses the access point's
  peer listing (`AT+CWLIF`) into a growable array of `connection` records;
- parses the firmware's inbound-data notification
  `+IPD,[<channel>,]<length>:<payload>` in three ways: blocking (`recv`),
  non-blocking (`recvNonBlock`), and deferred through a caller-owned
  `client` table (`handleConnections`, then `getPendingMsg`);
- keeps a little session state: the transport name, the Wi-Fi mode and
  whether a server connection is open.

## How the model is built

- The serial link is the sequence of bytes it currently has available.
  What the driver prints is kept as a log of lines (`ESPWifi.sent`).
- Every wait bounded by `millis()` becomes a flag `arrived`: whether a byte
  became available before the timeout.
- A frame is the bytes one drain produced. The C string routines (`strstr`,
  `strchr`, `strrchr`, `atoi`) see its C text, the bytes before its first
  NUL (`CString.CText`). `memcpy` reads the bytes themselves.
- Behaviour that C leaves undefined becomes an explicit `Fault`, and the
  model stops there. This covers:
  - a null `strchr`/`strstr` result used in arithmetic (`MissingDelimiter`);
  - a negative length given to `memcpy` (`NegativeLength`);
  - a `memcpy` that runs past the frame's buffer (`PayloadOverrun`);
  - a channel index outside the caller's table (`ChannelOutOfRange`);
  - recv's terminator write (`TerminatorOutOfBounds`);
  - reading or freeing the output `sendCommand` never assigned, or a frame
    `getPendingMsg` already freed (`Indeterminate`);
  - the peer array written past its end (`PeerTableOverflow`).
- One more `Fault` is not undefined behaviour: a `memcpy` that copies bytes
  of the frame's buffer that were allocated but never written
  (`IndeterminateBytes`). The copy itself is defined, but the bytes it
  delivers are indeterminate, so the model stops there too rather than
  invent their values.
- Imperative code stays imperative:
  - `readFromBoard` is a loop over an `array<char>` (`Board.Accumulate`);
  - `getConnectedClients` is a loop over a ten-entry `array<Connection>`
    that never grows before it writes, so the eleventh peer is a
    `PeerTableOverflow` (`Peers.CollectPeersAsWritten`). The corrected loop
    over a doubling array is `Peers.CollectPeers`;
  - `handleConnections` updates the caller's `array<Client>` in place;
  - the driver object is the class `Esp.ESPWifi`, whose methods update its
    fields.

  Each of these is proved against a function that states what it computes.
  The parsing itself is a set of functions (`Ipd`, `Lines`, `Peers`).
- Four behaviours of the code that the model keeps as written:
  - When `readFromBoard` grows its buffer, it stores the byte just read
    after doubling, so no byte is lost (esp8266w.cpp:216-224,
    `Board.Accumulate`).
  - `handleConnections` checks for "+IPD" after the FAIL/CONNECT step,
    whatever that step did (esp8266w.cpp:272). A frame can both mark an
    entry and stash a message in it.
  - `recvNonBlock`, `handleConnections` and `getPendingMsg` search a
    notification for its ',' and its ':'. When either is missing they use a
    null pointer, which is a fault here (`MissingDelimiter`). `recv` never
    searches for a ',' and reads the length from the fifth character after
    "+IPD" (esp8266w.cpp:106). It faults only without a ':', or with a ':'
    before that character (`NegativeLength`, as in `+IPD:abc`). `+IPD5:abc`
    copies no byte.
  - A length one byte past the payload copies the frame's terminator, which
    is no fault. A copy reaching further reads bytes the buffer never had
    written (`IndeterminateBytes`) up to the end of the allocation, and runs
    past the allocation beyond that (`PayloadOverrun`).

## Model

| member | source | states |
|---|---|---|
| CString.FindChar | esp8266w.cpp:106 | `strchr`: the index found holds the character, nothing before it from the start point does, and None means the character is absent |
| CString.FindLastChar | esp8266w.cpp:274 | `strrchr`: the index found holds the character, nothing after it does, and None means it is absent |
| CString.Find | esp8266w.cpp:21 | `strstr`: the pattern occurs at the index found and at no earlier index; None means it occurs nowhere |
| CString.CText | esp8266w.h:45-48 | what the string routines see of a buffer: a prefix of it without NUL, and either all of it or the part ending at its first NUL |
| CString.DecimalValue | esp8266w.cpp:86 | the digits `%lu` writes denote the number written |
| CString.AtoiDecimal | esp8266w.cpp:110 | `atoi` reads back a count rendered by `%u`, whatever non-digit follows it |
| CString.AtoiSigned | esp8266w.cpp:34 | `atoi` reads back an integer rendered by `%d`, negative ones included |
| CString.AtoiNoDigits | esp8266w.cpp:257 | a field starting with neither white space, a sign nor a digit reads as 0, as "+IPD" does |
| CString.Atoi | esp8266w.cpp:110 | `atoi` as a definition: skip white space, take one optional sign, read the digits that follow, 0 without any; AtoiDecimal, AtoiSigned and AtoiNoDigits state what it reads back |
| CString.Decimal | esp8266w.cpp:86 | `%lu`: a non-empty run of digits without a leading zero (except for 0 itself); DecimalValue states it denotes n |
| CString.Signed | esp8266w.cpp:34 | `%d`: a digit or a '-' first; AtoiSigned states `atoi` reads it back as the integer |
| Lines.ReadLine | esp8266w.cpp:237-249 | `readline`: when "\r\n" occurs at or after the cursor, the line is exactly the text up to its first occurrence and the cursor moves past it; otherwise null and the cursor stays |
| Lines.AllLines | esp8266w.h:134-138 | the lines repeated `readline` calls return from a cursor until null, as a definition; LinesCount, WalkCovers and LinesOfJoin state what they are |
| Lines.LinesCount | esp8266w.h:134-138 | repeated `readline` calls yield one line per terminator after the cursor, then null |
| Lines.WalkCovers | esp8266w.cpp:237-249 | the walk never moves the cursor backwards, consumes exactly its lines and their terminators, and leaves no terminator behind |
| Lines.LinesOfJoin | esp8266w.cpp:237-249 | walking lines joined with "\r\n" (none holding '\r') gives back exactly those lines: `readline` undoes the join |
| Types.ModeCode | esp8266w.h:9-13 | `wifiMode` codes lie in 1..3 (station 1, ap 2, both 3) |
| Types.ModeOfCode | esp8266w.h:9-13 | exactly the codes 1..3 name a mode, and ModeCode maps it back to the code |
| Types.EncCode | esp8266w.h:14-19 | `wifiEnc` codes lie in 0..3 |
| Types.NewConnection | esp8266w.cpp:382-384 | `connection()` starts with both strings null |
| Types.NewClient | esp8266w.cpp:386-388 | `client()` is neither connected nor holding a message; channel and buffer stay as they were |
| Commands.ModeCommandNamesMode | esp8266w.cpp:33-34 | the number after `AT+CWMODE=` reads back, through `atoi`, as the mode the command was made for |
| Commands.ModeCommand | esp8266w.cpp:34 | `AT+CWMODE=%d` with the mode's code; ModeCommandNamesMode states the number reads back as the mode |
| Commands.StartCommand | esp8266w.cpp:66 | `AT+CIPSTART="<protocol>","<ip>",<port>` starts with its verb, and its last field reads back through `atoi` as the port |
| Commands.AccessPointCommand | esp8266w.cpp:123 | `AT+CWSAP_CUR="<ssid>","<psswd>",<channelId>,<enc>` starts with its verb, and its last field reads back as the encryption code |
| Commands.SendIntent | esp8266w.cpp:86 | `AT+CIPSEND=<len>` starts with its verb, and the number after it reads back as the length |
| Commands.SendIntentOn | esp8266w.cpp:343 | `AT+CIPSEND=<channel>,<len>` starts with its verb; the number after it reads back as the channel (`atoi` stops at the ','), and the last field as the length |
| Growth.CapacityFor | esp8266w.cpp:213-221 | the capacity a doubling buffer reaches for a count, as a definition; CapacityForTight and TightUnique state it is the one tight doubling |
| Growth.CapacityForTight | esp8266w.cpp:213-221 | the capacity a doubling buffer ends up with is a doubling of its base, holds the count, and was never doubled before it had to be |
| Growth.TightUnique | esp8266w.cpp:195-198 | only one doubled capacity is tight for a count |
| Growth.TightGrow | esp8266w.cpp:216-221 | doubling a full buffer and storing one more element keeps its capacity tight |
| Board.Accumulate | esp8266w.cpp:210-229 | `readFromBoard`'s loop: the buffer holds exactly the drained bytes in order followed by '\0' (empty when none), `size <= maxSize`, the allocation is `maxSize + 1`, and `maxSize` is the smallest doubling of 64 that holds them |
| Esp.ESPWifi.constructor | esp8266w.cpp:4-6 | a fresh driver: no protocol, mode both, not connected, nothing printed |
| Esp.ESPWifi.WriteLine | esp8266w.cpp:7-12 | `writeToBoard(data, true)` prints the C text of `data` followed by "\r\n" and changes nothing else |
| Esp.ESPWifi.ReadFromBoard | esp8266w.cpp:210-229 | the frame is every byte the link had available, in order, and the link is left empty |
| Esp.ESPWifi.SendCommand | esp8266w.cpp:13-23 | prints the command; without a byte before the timeout it returns false, never assigns the output and leaves the link as it was; otherwise the output is one drained frame, the link is empty and the result is true iff its text holds "OK" |
| Esp.ESPWifi.SetWifiMode | esp8266w.cpp:31-40 | sends `AT+CWMODE=<code>`; the mode changes only on success; freeing the unassigned output after no response is a fault; the link is drained when a byte arrived and untouched otherwise |
| Esp.ESPWifi.SetIPProto | esp8266w.cpp:58-61 | stores the transport name and changes nothing else |
| Esp.ESPWifi.ConnectToServer | esp8266w.cpp:62-73 | without a protocol it fails without sending; otherwise the result is "holds OK or holds ALREADY" and `connectedToServer` becomes the result; without a response the ALREADY search reads the unassigned output; the link is drained when a byte arrived and untouched otherwise |
| Esp.ESPWifi.Disconnect | esp8266w.cpp:74-81 | sends AT+CIPCLOSE and clears `connectedToServer` whatever the module answers; the link is drained when a byte arrived and untouched otherwise |
| Esp.ESPWifi.Send | esp8266w.cpp:82-94 | the message is printed after the length announcement exactly when the module accepted the announcement; the link is drained when a byte arrived and untouched otherwise |
| Esp.ESPWifi.SendOn | esp8266w.cpp:340-350 | as Send, with the channel named in the announcement; the link is drained when a byte arrived and untouched otherwise |
| Esp.ESPWifi.StartAP | esp8266w.cpp:119-128 | a module in station mode fails without sending anything; otherwise the result is "holds OK"; the link is drained when a byte arrived and untouched otherwise |
| Esp.ESPWifi.CheckSendCode | esp8266w.cpp:362-369 | the result is true exactly when the drained text holds "SEND OK" |
| Esp.ESPWifi.Recv | esp8266w.cpp:95-118 | with a timeout and no byte before it, false and the link untouched; otherwise one frame is drained and the result is recv as written on it, the terminator fault included |
| Esp.ESPWifi.RecvNonBlock | esp8266w.cpp:288-319 | one frame is drained and parsed as RecvNonBlockFrame; the caller's channel is ChannelAfter of the frame, so it is written whenever the frame names one, even when the copy then faults |
| Esp.MarkConnected | esp8266w.cpp:252-271 | the table after one connection notice is SetConnected of the table before; on a fault it is unchanged |
| Esp.ApplyNotices | esp8266w.cpp:252-271 | FAIL takes precedence over CONNECT, as Lifecycle states, on the caller's array in place |
| Esp.StashMessage | esp8266w.cpp:272-284 | the "+IPD" step on the caller's array in place, as Stash states |
| Esp.ESPWifi.HandleConnections | esp8266w.cpp:250-286 | the caller's array afterwards, and the fault met, are exactly HandleFrame of the array before and the drained frame |
| Esp.ESPWifi.GetConnectedClients | esp8266w.cpp:171-209 | station mode fails without sending; a rejected AT+CWLIF fails and leaves `numConns` as it was; otherwise, with at most 10 peers, the first `count` entries of the 10-element array are the listing's peers in line order, and with more the eleventh write is past the array's end (`PeerTableOverflow`); the link is drained when a byte arrived and untouched otherwise |
| Esp.ElevenPeersOverrun | esp8266w.cpp:171-195 | a driver in its initial mode whose module answers AT+CWLIF with eleven peers and `OK` ends getConnectedClients with the peer array written past its end |
| Esp.ModeCommandHasNoNul | esp8266w.cpp:33-36 | the mode command reaches the link whole |
| Ipd.CopyOut | esp8266w.cpp:113 | `memcpy` of `count` bytes from a drained frame succeeds exactly when the count is not negative and ends at or before the frame's terminator |
| Ipd.CopyOutOutcome | esp8266w.cpp:113 | inside the drained bytes the copy yields them; one byte further it also yields the terminator; up to the end of the allocation it reads bytes never written; past the allocation it overruns |
| Ipd.AllocatedHoldsFrame | esp8266w.cpp:211-228 | the buffer `readFromBoard` allocates always holds the frame and its terminator |
| Ipd.Allocated | esp8266w.cpp:211-221 | the bytes `readFromBoard` allocates for a frame: its doubled capacity plus the terminator's byte, as a definition; AllocatedHoldsFrame states it holds the frame |
| Ipd.Deliver | esp8266w.cpp:112-115 | a successful copy is delivered; a failed one passes its fault on |
| Ipd.RecvText | esp8266w.cpp:101-113 | the result is "false" exactly when the text lacks "+IPD" |
| Ipd.RecvFrame | esp8266w.cpp:100-113 | recv on a frame is "false" exactly when its C text lacks "+IPD" |
| Ipd.RecvNonBlockText | esp8266w.cpp:291-318 | the result is "false" exactly when the text lacks "+IPD" |
| Ipd.RecvNonBlockFrame | esp8266w.cpp:290-318 | recvNonBlock on a frame is "false" exactly when its C text lacks "+IPD" |
| Ipd.ChannelAfter | esp8266w.cpp:291-299 | the caller's channel after recvNonBlock: unchanged for a frame without "+IPD" or without a channel, otherwise the channel the parse reports; written before the copy, so a fault afterwards keeps it |
| Ipd.IpdChannel | esp8266w.cpp:273-278 | the channel between "+IPD," and the last ','; a missing "+IPD," or ',' is a `MissingDelimiter` fault, the only fault it gives |
| Ipd.FrameChannel | esp8266w.cpp:292-299 | no channel exactly when the first and last ',' coincide; otherwise the channel IpdChannel reads |
| Ipd.SizedPayload | esp8266w.cpp:302-311 | the length runs from after the last ',' to the next ':', the copy from after the first ':'; without a ',' or a ':' it is a `MissingDelimiter` fault |
| Ipd.PayloadAfterComma | esp8266w.cpp:303-311 | without a ':' after the comma it is a `MissingDelimiter` fault |
| Ipd.PendingMsg | esp8266w.cpp:321-334 | "false" exactly for an entry without a message; an entry flagged whose buffer was never assigned or is already freed is a fault |
| Ipd.RecvFrameAsWritten | esp8266w.cpp:112-114 | recv as written: when it succeeds it agrees with the corrected recv and delivers only an empty payload |
| Ipd.PendingAsWritten | esp8266w.cpp:321-337 | getPendingMsg as written: the same result as PendingMsg, the caller's entry keeps its flag, and the frame it points to is freed once a payload is taken |
| Ipd.TakePending | esp8266w.cpp:321-338 | the corrected getPendingMsg: the same result as PendingMsg, and the entry handed back loses its flag and buffer once its payload is taken |
| Ipd.NoticeChannel | esp8266w.cpp:253-257 | the number before the frame's first ','; it is defined exactly when the frame holds a ',', and otherwise a `MissingDelimiter` fault |
| Ipd.SetConnected | esp8266w.cpp:253-259 | one notice step keeps the table's length; SetConnectedEffect and SetConnectedFaults state its effect and its faults |
| Ipd.Lifecycle | esp8266w.cpp:252-271 | the FAIL/CONNECT step keeps the table's length; HandleNotice states FAIL takes precedence and LifecycleKeeps that unnamed entries stay |
| Ipd.Stash | esp8266w.cpp:272-284 | the "+IPD" step keeps the table's length and every entry's connected flag and channel |
| Ipd.HandleFrame | esp8266w.cpp:250-286 | handleConnections on one frame keeps the table's length; HandleNotice, HandleStash and HandleUnnamedUnchanged state its effects, with a fault in the "+IPD" step keeping the notice step's effect |
| IpdHeaders.CopyAfter | esp8266w.cpp:313 | copying from just after a header yields payload bytes, then the terminator, then unwritten bytes up to the end of the allocation, then an overrun |
| IpdProperties.AtoiOfDecimal | esp8266w.cpp:110 | `atoi` reads back the rendered length of a notification |
| IpdProperties.RecvFrameCopies | esp8266w.cpp:101-113 | recv on `+IPD,<n>:<payload>` copies n bytes from just after the header |
| IpdProperties.RecvRoundTrip | esp8266w.cpp:95-113 | recv on `+IPD,<n>:<payload>` yields the first n payload bytes, whatever they are, when it has that many; one byte more yields the payload and the terminator, and beyond that the copy reads unwritten bytes and then overruns the allocation |
| IpdProperties.RecvTerminatorOutOfBounds | esp8266w.cpp:114 | recv as written faults on every notification whose non-empty payload it would otherwise deliver |
| IpdProperties.RecvAsWrittenAgrees | esp8266w.cpp:95-118 | recv as written agrees with the corrected recv wherever no non-empty payload is delivered |
| IpdProperties.NonBlockOnPlainFrame | esp8266w.cpp:291-313 | recvNonBlock on `+IPD,<dn>:<payload>` reads no channel and yields the first atoi(dn) payload bytes |
| IpdProperties.NonBlockOnChannelFrame | esp8266w.cpp:291-313 | recvNonBlock on `+IPD,<dc>,<dn>:<payload>` reads channel atoi(dc) and yields the first atoi(dn) payload bytes |
| IpdProperties.RecvNonBlockRoundTrip | esp8266w.cpp:288-319 | for a notification with a comma-free payload, recvNonBlock reports its channel (none for a single-connection frame) and the first n payload bytes when it has that many; one byte more yields the payload and the terminator, and beyond that the copy reads unwritten bytes and then overruns the allocation |
| IpdProperties.ChannelWrittenBeforeCopy | esp8266w.cpp:291-299 | on `+IPD,<dc>,<dn>:<payload>`, recvNonBlock writes channel atoi(dc) to the caller whatever the copy then does |
| IpdProperties.ChannelFrameReadsUnwritten | esp8266w.cpp:311-313 | `+IPD,1,9:ab` makes recvNonBlock copy bytes of the 65-byte buffer never written |
| IpdProperties.ChannelKeptOnFault | esp8266w.cpp:298 | on that same frame the caller's channel has already become 1 |
| IpdProperties.ShortPayloadTakesTerminator | esp8266w.cpp:311-313 | `+IPD,3:ab` announces one byte more than it carries: recvNonBlock delivers "ab" and the frame's terminator |
| IpdProperties.LongPayloadReadsUnwritten | esp8266w.cpp:311-313 | `+IPD,9:ab` makes recvNonBlock copy bytes of the 65-byte buffer that were never written |
| IpdProperties.CommaInPayloadMisparsed | esp8266w.cpp:302-303 | a ',' in a payload without ':' moves the last comma into the payload, and a well-formed notification is refused |
| IpdProperties.PendingSameRule | esp8266w.cpp:321-334 | getPendingMsg delivers what recvNonBlock would deliver from the stashed frame |
| IpdProperties.PendingUseAfterFree | esp8266w.cpp:320-337 | after getPendingMsg as written delivers, the caller's entry is still flagged but its frame is freed, so the next call on it reads freed memory |
| IpdProperties.TakePendingOnce | esp8266w.cpp:335-336 | with the entry handed back, a delivered message is taken once: the next call finds nothing |
| HandleProperties.SetConnectedEffect | esp8266w.cpp:257-259 | a notice naming an entry inside the table sets that entry's flag and channel and changes nothing else |
| HandleProperties.SetConnectedFaults | esp8266w.cpp:253-258 | a notice faults exactly when it has no ',' or names a channel outside the table |
| HandleProperties.StashEffect | esp8266w.cpp:272-281 | a "+IPD" frame for an entry inside the table stashes the whole frame there, keeping its flag and channel, and changes nothing else |
| HandleProperties.HandleUnnamedUnchanged | esp8266w.cpp:250-286 | an entry named neither by a notice nor by "+IPD" keeps its contents |
| HandleProperties.HandleNotice | esp8266w.cpp:252-271 | a frame holding FAIL marks the named entry disconnected, otherwise CONNECT marks it connected, and the "+IPD" step keeps the mark |
| HandleProperties.HandleNoticeOutOfRange | esp8266w.cpp:258 | a notice naming a channel outside the table stops before the "+IPD" step |
| HandleProperties.HandleStash | esp8266w.cpp:272-282 | "+IPD" on an entry inside the table leaves that entry flagged with the whole frame, overwriting any earlier one |
| HandleProperties.FrameNoticeChannel | esp8266w.cpp:262-268 | a notification's notice part reads channel 0, since `atoi` stops at the '+' |
| HandleProperties.HandleStashesFrame | esp8266w.cpp:272-282 | a notification with a comma-free payload is stashed on channel atoi(dc) without a fault |
| HandleProperties.HandleThenPending | esp8266w.h:103-108 | `+IPD,<c>,<n>:<payload>` passed through handleConnections and then getPendingMsg yields the first n payload bytes when it has that many; one byte more yields the payload and the terminator, and beyond that the copy reads unwritten bytes and then overruns the allocation |
| Peers.SplitPeer | esp8266w.cpp:186-194 | a line yields an entry exactly when it holds a ','; the ip has no ',' and ip + "," + mac is the line |
| Peers.ListingRejoins | esp8266w.cpp:185-205 | the listing keeps exactly the lines holding a ',', in order, each entry rejoining to its line |
| Peers.ListingAppend | esp8266w.cpp:185-205 | listing two runs of lines lists each in turn |
| Peers.ListingAllComma | esp8266w.cpp:186 | every line holding a ',' yields an entry |
| Peers.Listing | esp8266w.cpp:185-205 | the entries a run of lines yields, one per line holding a ',', in line order, as a definition; ListingRejoins and ListingAppend state it |
| Peers.PeerList | esp8266w.cpp:180-205 | the listing of every line `readline` walks in an AT+CWLIF response, as a definition; CollectPeers and CollectPeersAsWritten are proved against it |
| Peers.Grow | esp8266w.cpp:196-200 | the grown array is twice the size and starts with the old entries |
| Peers.Append | esp8266w.cpp:188-201 | the corrected append: a full array is doubled first, then the entry goes to index `numConns`; the capacity stays tight |
| Peers.CollectPeers | esp8266w.cpp:180-205 | the corrected loop: the first `numConns` entries are the listing in line order, and the array has the smallest doubled size of 10 that holds them |
| Peers.Store | esp8266w.cpp:188-194 | the entry goes to index `numConns` and the entries before it stay |
| Peers.CollectPeersAsWritten | esp8266w.cpp:180-205 | the loop as written: it succeeds exactly when the listing has at most 10 entries, which are then the first entries in line order; with more it faults at the eleventh write, the 10-element array holding the listing's first 10 |
| Peers.ListingOverflow | esp8266w.cpp:186-195 | when the array is full and one more line holds a ',', the listing is longer than the array, and the array holds its first 10 entries |
| Peers.ElevenPeersOverflow | esp8266w.cpp:184-195 | a listing of eleven peers yields more entries than the first array holds |
| Peers.ElevenPeersAccepted | esp8266w.cpp:174-195 | a whole AT+CWLIF response of eleven peer lines and a closing `OK` holds the "OK" sendCommand looks for, and its listing has eleven entries, more than the first array holds |

## Left out

- The serial link hardware (`SoftwareSerial`), `millis()` and `safeDelay`: the link is the sequence of available bytes, and every wait is the flag `arrived`. The delay and timeout values, including the defaults `delay = 0` and `timeout = 2000` ms, do not appear.
- The 10 ms pause after each byte in `readFromBoard`: it only shapes real-time trickling. Bytes arriving during the drain are not modelled separately from those available at its start.
- The one-line formatters `testDevice`, `joinAP`, `quitAP`, `multipleConnections`, `tcpServer`, `getIpData`, `setMaxConn`, `setTcpTimeout` and `passthroughmode`: each only formats a command and calls `sendCommand`, which is modelled.
- `isConnectedToServer`: it only returns the field `connectedToServer`, which the model exposes directly.
- The sizes of the `sprintf` buffers (`cmd[40]`, `cmd[64]`, `msg[13]` and others) and their overflow for long names or addresses: the commands are modelled as unbounded strings.
- Heap lifetime: the leaked old buffer in `readFromBoard`, the frame `recv` never frees, and the shallow copy of the peer array followed by `delete[]`, whose `connection` destructors free the strings the new array still points to. Strings are values here.
- Esp.ESPWifi.HandleConnections: the caller's entries hold the stashed frame as a value. A frame freed by `getPendingMsg` is an entry whose buffer is gone (`Ipd.PendingAsWritten`), not a dangling pointer.
- Esp.ESPWifi.Recv: a call without a timeout on a silent link never returns. The method therefore requires a timeout or an arriving byte, and the endless wait is not modelled.
- CString.Atoi: it reads an unbounded integer. The overflow of C's `int` for long digit runs is not modelled, nor the `unsigned long` wrap-around of the lengths computed from pointer differences.
- Esp.ESPWifi.ConnectToServer: the port is an unsigned 16-bit value, so the method requires `port < 0x1_0000`.
- Esp.ESPWifi.GetConnectedClients: it returns the array and count as results. The caller's `numConns` keeps its value on every failing path.
- Concurrency and the one-command-at-a-time discipline: the driver has no threads, and the discipline is the caller's.

## Findings

| source | as written | input that shows it | evidently intended | confidence | as-written member | corrected member |
|---|---|---|---|---|---|---|
| esp8266w.cpp:114 | `*output[sizeNum] = '\0'` indexes the caller's single `char *` by the payload length, then dereferences | `+IPD,3:abc` | `(*output)[sizeNum] = '\0'`, as recvNonBlock writes it | high, not executed | IpdProperties.RecvTerminatorOutOfBounds | IpdProperties.RecvRoundTrip |
| esp8266w.cpp:188-195 | the entry is written to index `numConns` first; `numConns++ >= maxconns` is tested only afterwards, so the eleventh entry is written past the end of the 10-element array before the array grows | an AT+CWLIF response of eleven lines `10.0.0.2,aa:bb` followed by an `OK` line (`Esp.ElevenPeersOverrun`) | grow a full array before writing to it | high, not executed | Peers.CollectPeersAsWritten | Peers.CollectPeers |
| esp8266w.cpp:320-337 | getPendingMsg receives `client` by value: `delete[] c.msgBuffer` frees the frame the caller's entry still points to, and `c.hasMessage = false` never reaches the caller, so the next call on that entry reads freed memory | an entry stashed with `+IPD,0,3:abc`, then two calls | take the entry by reference, so its flag is cleared with its buffer | high, not executed | IpdProperties.PendingUseAfterFree | IpdProperties.TakePendingOnce |
