# Packet analyzer core, modelled in Dafny

This project models four parts of the packet analyzer's core:

- **Protocol classifier and parsers** (`protocols.dfy`, module `Protocols`). `detectModernProtocol` is an ordered, first-match classifier of a captured buffer and its port. It answers Unknown, HTTP/2, QUIC, WebSocket, gRPC or Standard. The three frame parsers read an HTTP/2 frame header, a QUIC header and a WebSocket frame out of raw bytes. Bytes are `bv8`, and a null data pointer is `None`.
- **Circuit breaker** (`circuit_breaker.dfy`, module `CircuitBreakers`). A class with the source's three mutable fields: state, failure count and last failure time. `Execute` is proved against the pure transition function `Step`. A sequence of calls is the fold `Run`. The operation's outcome and the two clock readings are inputs.
- **Dead-letter queue** (`dead_letter_queue.dfy`, module `DeadLetterQueues`). A bounded FIFO of failed items, held as a class whose `queue` field is a `seq`. Storing into a full queue evicts the oldest record. A retry pass hands every item to the callback and keeps a record only while its retry count stays below three. The failure analysis counts records by stage and by error text.
- **User and packet store** (`validation.dfy` and `database.dfy`, modules `Validation` and `Database`).
  - `Validation` holds the input validators of SimpleDatabaseManager, the password-strength loop and the two sanitisers.
  - `Database` holds the class `SimpleDatabaseManager` with its in-memory vectors of users, capture sessions and packet metadata. It covers user creation, password login with a lockout after five failed attempts, the failed-login counters, session creation, and the packet store capped by dropping its oldest batch.

Every modelled operation that changes state holds its object's mutex for its whole body, and so do `getState`, `isOpen` and the queue's observers. `getFailureCount` reads an atomic counter and `getName` a field that never changes, so they need no lock. The model therefore treats calls as happening one after another. `common.dfy` (module `Common`) holds `Option` and the `std::string::find` search that gRPC detection and path validation use.

Modelling choices:

- Password hashing is the parameter `hash(password, salt)`.
- The salt, the clock and the callback outcomes are inputs.
- A Dafny `char` stands for one byte of a `std::string`.
- `sanitizeInput` tests `c < 32` on a signed `char`, which also holds for bytes 0x80 to 0xFF. The model strips those bytes as well as the control characters other than tab, newline and carriage return.

Two consequences of the code are proved as stated:

- On port 80 the unmasked WebSocket text frame `81 05 "Hello"` is classified as QUIC.
  - Its first byte has the long-header bit set, and bytes 1 to 4 form a non-zero version.
  - The QUIC rule is checked before the WebSocket rule.
  - `Protocols.HelloFrameIsQuicOnPort80` proves this.
- `createUser` declares the email argument with a default of `""`, and the email pattern rejects `""`. A call that leaves the email out therefore always fails (`Database.DefaultEmailRejected`).

## Model

| member | source | states |
|---|---|---|
| Common.FindFrom | src/protocols/ModernProtocolParser.hpp:68-69 | the search behind `std::string::find`: on success a first occurrence at or after the start and none before it; otherwise no occurrence at all |
| Common.ContainsIffOccurs | src/protocols/ModernProtocolParser.hpp:69 | `find(...) != npos` holds exactly when the needle occurs somewhere in the text |
| Protocols.Name | src/protocols/ModernProtocolParser.hpp:37-74 | the six strings the detector returns, one per tag; `NameInjective` proves they are distinct |
| Protocols.NameInjective | src/protocols/ModernProtocolParser.hpp:37-74 | two detector answers have the same string exactly when they are the same tag |
| Protocols.BigEndian | src/protocols/ModernProtocolParser.hpp:83 | the shift-or accumulation of a byte string into an unsigned value stays below 256 to the power of the length |
| Protocols.IsWebPort | src/protocols/ModernProtocolParser.hpp:40 | the port guard of every rule: 80 or 443 |
| Protocols.IsHttp2Frame | src/protocols/ModernProtocolParser.hpp:175-184 | the frame heuristic: at least 9 bytes, a 24-bit length of at most 16384 and a type of at most 10; `DetectHttp2Iff` states it byte by byte |
| Protocols.IsQuicPacket | src/protocols/ModernProtocolParser.hpp:186-204 | a long header needs 5 bytes and a non-zero version, a short header the fixed bit; `DetectQuicIff` and `FourByteLongHeaderIsNotQuic` state its consequences |
| Protocols.IsWebSocketFrame | src/protocols/ModernProtocolParser.hpp:206-214 | at least 2 bytes and an opcode nibble of 0-2 or 8-10; `DetectWebSocketIff` uses it |
| Protocols.DetectModernProtocol | src/protocols/ModernProtocolParser.hpp:36-75 | the ordered first-match classifier; the lemmas below characterise each of its answers |
| Protocols.ShortBufferIsUnknown | src/protocols/ModernProtocolParser.hpp:37 | a null pointer or a buffer shorter than 4 bytes is Unknown, whatever the port |
| Protocols.OtherPortIsStandard | src/protocols/ModernProtocolParser.hpp:40-74 | a buffer of at least 4 bytes on a port other than 80 and 443 is Standard |
| Protocols.DetectHttp2Iff | src/protocols/ModernProtocolParser.hpp:40-51 | a buffer is HTTP/2 exactly when the port is 80 or 443, it has at least 24 bytes, and it starts with "PRI * HTTP/2.0" or its 24-bit length is at most 16384 and its type byte at most 10 |
| Protocols.DetectQuicIff | src/protocols/ModernProtocolParser.hpp:54-58 | a buffer is QUIC exactly when it is on a web port, is not HTTP/2, and is a long header with a non-zero 32-bit version or a short header with the fixed bit 0x40 set |
| Protocols.FourByteLongHeaderIsNotQuic | src/protocols/ModernProtocolParser.hpp:186-204 | a 4-byte long-header buffer carries no version, so it is never QUIC |
| Protocols.DetectWebSocketIff | src/protocols/ModernProtocolParser.hpp:61-63 | a buffer is WebSocket exactly when the earlier rules fail, the port is 80 or 443, and its opcode nibble is 0, 1, 2, 8, 9 or 10 |
| Protocols.DetectGrpcIff | src/protocols/ModernProtocolParser.hpp:66-72 | a buffer is gRPC exactly when the earlier rules fail, it is longer than 20 bytes, and "application/grpc" occurs within its first 100 bytes |
| Protocols.PrefaceIsHttp2 | src/protocols/ModernProtocolParser.hpp:40-45 | every buffer that starts with the connection preface is HTTP/2 on port 443 |
| Protocols.QuicVersionOneIsQuic | src/protocols/ModernProtocolParser.hpp:54-58 | every long header (top bit of byte 0 set) carrying version 1 is QUIC on port 443, whatever the other bits of its first byte |
| Protocols.TextOpcodeIsWebSocket | src/protocols/ModernProtocolParser.hpp:61-63 | a buffer of 4 or more bytes starting with 0x01 is WebSocket on port 80 |
| Protocols.HelloFrameIsQuicOnPort80 | src/protocols/ModernProtocolParser.hpp:54-63 | the frame `81 05 "Hello"` is classified QUIC, because the QUIC rule comes first |
| Protocols.GrpcIsReachable | src/protocols/ModernProtocolParser.hpp:66-72 | a concrete 23-byte buffer holding the gRPC content type is classified gRPC |
| Protocols.ParseHttp2Frame | src/protocols/ModernProtocolParser.hpp:77-98 | the HTTP/2 frame-header decoder; `Http2HeaderFields`, `Http2StreamId` and `Http2Payload` state its fields |
| Protocols.Http2ShortBufferIsZero | src/protocols/ModernProtocolParser.hpp:78-80 | fewer than 9 bytes give the zero-initialised frame |
| Protocols.Http2HeaderFields | src/protocols/ModernProtocolParser.hpp:83-85 | the length is the big-endian value of bytes 0 to 2 (below 2^24), the type is byte 3 and the flags are byte 4 |
| Protocols.Http2StreamId | src/protocols/ModernProtocolParser.hpp:86 | the stream id is bytes 5 to 8 with bit 7 of byte 5 cleared, which equals the 32-bit word reduced modulo 2^31 |
| Protocols.TopBitCleared | src/protocols/ModernProtocolParser.hpp:86 | masking a leading byte with 0x7F is reduction of the 32-bit word modulo 2^31 |
| Protocols.Http2Payload | src/protocols/ModernProtocolParser.hpp:89-92 | the payload is the next min(length, available) bytes after the header and never reads past the buffer |
| Protocols.SettingsHeaderOnly | src/protocols/ModernProtocolParser.hpp:77-92 | a bare 9-byte SETTINGS header parses to its fields with an empty payload |
| Protocols.ParseQuic | src/protocols/ModernProtocolParser.hpp:100-128 | the QUIC header decoder; `QuicFields` and `QuicPayload` state its fields |
| Protocols.QuicFields | src/protocols/ModernProtocolParser.hpp:103-116 | the long-header flag is bit 7; a long header of 5 or more bytes carries the big-endian version of bytes 1 to 4 and a packet type that is bits 4 and 5 (at most 3); otherwise version and type are 0 |
| Protocols.QuicPayload | src/protocols/ModernProtocolParser.hpp:119-122 | the payload is everything after the 5-byte long header or the 1-byte short header |
| Protocols.WebSocketLength | src/protocols/ModernProtocolParser.hpp:142-156 | the declared payload length and the header size before the masking key; `WebSocketLengthCases` states its three cases |
| Protocols.WebSocketFrameOf | src/protocols/ModernProtocolParser.hpp:130-166 | the frame parseWebSocket builds; `WebSocketFields` and `WebSocketPayload` state its fields and `ParseWebSocket` is proved equal to it |
| Protocols.ReadLength64 | src/protocols/ModernProtocolParser.hpp:149-152 | the eight-step shift loop reads the 64-bit extended length as the big-endian value of bytes 2 to 9 |
| Protocols.ParseWebSocket | src/protocols/ModernProtocolParser.hpp:130-172 | the parser returns exactly the frame that the length rules, the masking-key offset and the payload bound define |
| Protocols.WebSocketFields | src/protocols/ModernProtocolParser.hpp:138-140 | FIN is bit 7 of byte 0, the opcode its low nibble, and MASK is bit 7 of byte 1 |
| Protocols.WebSocketLengthCases | src/protocols/ModernProtocolParser.hpp:142-156 | the length is the 7-bit value, or the 16-bit or 64-bit extension when the marker is 126 or 127 and enough bytes are present; it is always below 2^64 |
| Protocols.WebSocketPayload | src/protocols/ModernProtocolParser.hpp:158-166 | the header is 2, 4 or 10 bytes plus 4 when masked, and the payload is the next min(length, available) bytes, not unmasked |
| Protocols.HelloTextFrame | src/protocols/ModernProtocolParser.hpp:130-172 | the frame `81 05 "Hello"` parses as a final, unmasked text frame of length 5 carrying "Hello" |
| CircuitBreakers.Step | src/resilience/CircuitBreaker.hpp:43-84 | one `execute` as a transition on the three fields; the lemmas below state its cases |
| CircuitBreakers.Run | src/resilience/CircuitBreaker.hpp:43-84 | successive `execute` calls as a fold of `Step`; `RunConsistent` and `FailuresReachThreshold` are about it |
| CircuitBreakers.CircuitBreaker.constructor | src/resilience/CircuitBreaker.hpp:31-41 | a new breaker is CLOSED with no failures and keeps its name, threshold and timeout; the threshold defaults to 5 and the timeout to 30 seconds |
| CircuitBreakers.CircuitBreaker.Execute | src/resilience/CircuitBreaker.hpp:43-84 | one call moves the fields and gives the caller exactly what the transition function `Step` says, including for an exception that is not a `std::exception` |
| CircuitBreakers.CircuitBreaker.GetState | src/resilience/CircuitBreaker.hpp:86-89 | the current state |
| CircuitBreakers.CircuitBreaker.GetFailureCount | src/resilience/CircuitBreaker.hpp:91-93 | the current failure count |
| CircuitBreakers.CircuitBreaker.GetName | src/resilience/CircuitBreaker.hpp:95-97 | the name given at construction |
| CircuitBreakers.CircuitBreaker.IsOpen | src/resilience/CircuitBreaker.hpp:99-102 | true exactly when the state is OPEN |
| CircuitBreakers.OpenWithinTimeoutBlocks | src/resilience/CircuitBreaker.hpp:47-54 | an OPEN breaker within the timeout returns the empty result, leaves its state unchanged, and ignores the outcome |
| CircuitBreakers.BlockedIff | src/resilience/CircuitBreaker.hpp:47-55 | a call is blocked exactly when the breaker is OPEN and no more than the timeout has passed since the last failure |
| CircuitBreakers.OpenPastTimeoutProbes | src/resilience/CircuitBreaker.hpp:47-84 | past the timeout the call runs as a probe: success closes the breaker and zeroes the count, failure reopens it with the count raised, and an exception that is not a `std::exception` leaves it HALF_OPEN |
| CircuitBreakers.ForeignExceptionEscapes | src/resilience/CircuitBreaker.hpp:47-84 | an exception that is not a `std::exception` is not caught: the count and last failure time stay, and a probe leaves the breaker HALF_OPEN |
| CircuitBreakers.ClosedSuccessKeepsCount | src/resilience/CircuitBreaker.hpp:57-67 | a success while CLOSED changes nothing; earlier failures stay counted |
| CircuitBreakers.FailureOpensAtThreshold | src/resilience/CircuitBreaker.hpp:69-83 | a failure that runs adds one to the count, records its time, and is re-raised; the breaker is then OPEN exactly when the count reached the threshold or the call was a probe |
| CircuitBreakers.CountMonotone | src/resilience/CircuitBreaker.hpp:61-71 | the count never decreases, except when a successful probe resets it to 0 |
| CircuitBreakers.StepConsistent | src/resilience/CircuitBreaker.hpp:43-84 | one call keeps the invariant that the count is non-negative and a non-CLOSED breaker has failed at least once |
| CircuitBreakers.RunConsistent | src/resilience/CircuitBreaker.hpp:43-84 | every sequence of calls keeps that invariant |
| CircuitBreakers.OpenStaysOpenOnFailures | src/resilience/CircuitBreaker.hpp:47-80 | an OPEN breaker whose calls all fail stays OPEN |
| CircuitBreakers.FailuresReachThreshold | src/resilience/CircuitBreaker.hpp:70-75 | consecutive failures from CLOSED that bring the count to the threshold leave the breaker OPEN |
| CircuitBreakers.FiveFailuresThenBlocked | src/resilience/CircuitBreaker.hpp:31-84 | with the default threshold of 5, five failures open a new breaker and a sixth call within the timeout is blocked |
| DeadLetterQueues.Stored | src/resilience/DeadLetterQueue.hpp:36-47 | the queue after one storeFailure; `StoreBelowCapacity`, `StoreAtCapacity` and `StoreKeepsBounds` state its cases |
| DeadLetterQueues.AfterRetry | src/resilience/DeadLetterQueue.hpp:57-77 | the queue after one retry pass; `AfterRetryExactly` characterises it independently |
| DeadLetterQueues.DeadLetterQueue.constructor | src/resilience/DeadLetterQueue.hpp:29-31 | a new queue is empty and has the given capacity, 1000 by default |
| DeadLetterQueues.DeadLetterQueue.StoreFailure | src/resilience/DeadLetterQueue.hpp:33-55 | the queue becomes the old one, with its front dropped when it was full, plus the new record with retry count 0 |
| DeadLetterQueues.DeadLetterQueue.RetryFailures | src/resilience/DeadLetterQueue.hpp:57-77 | the callback receives every stored item in FIFO order, and the new queue is what the pass keeps |
| DeadLetterQueues.DeadLetterQueue.AnalyzeFailurePatterns | src/resilience/DeadLetterQueue.hpp:79-97 | the two tallies hold exactly the stages and the error texts that occur, each with its number of records; the flagged stages are those with more than 10 |
| DeadLetterQueues.DeadLetterQueue.Size | src/resilience/DeadLetterQueue.hpp:99-102 | the number of stored records |
| DeadLetterQueues.DeadLetterQueue.Empty | src/resilience/DeadLetterQueue.hpp:104-107 | true exactly when the size is 0 |
| DeadLetterQueues.DeadLetterQueue.Clear | src/resilience/DeadLetterQueue.hpp:109-113 | the queue becomes empty |
| DeadLetterQueues.RetryStep | src/resilience/DeadLetterQueue.hpp:62-76 | handling one more record appends its item to the callback's inputs and its retry result to the queue |
| DeadLetterQueues.ItemsInOrder | src/resilience/DeadLetterQueue.hpp:62-64 | the callback's inputs are the stored items, one per record, in queue order |
| DeadLetterQueues.TallyByStep | src/resilience/DeadLetterQueue.hpp:85-88 | counting one more record adds one to its key, starting from 0 when the key is new |
| DeadLetterQueues.KeyCountAbsent | src/resilience/DeadLetterQueue.hpp:85-88 | a key that no record has counts 0 |
| DeadLetterQueues.TallyByExact | src/resilience/DeadLetterQueue.hpp:82-88 | the map counting records by key holds exactly the keys that occur, each with its number of records |
| DeadLetterQueues.StoreBelowCapacity | src/resilience/DeadLetterQueue.hpp:36-47 | below capacity a store only appends |
| DeadLetterQueues.StoreAtCapacity | src/resilience/DeadLetterQueue.hpp:36-47 | at capacity a store drops the oldest record and keeps the size |
| DeadLetterQueues.StoreKeepsBounds | src/resilience/DeadLetterQueue.hpp:36-47 | a store keeps the size within capacity and every retry count within 0 to 2 |
| DeadLetterQueues.CapacityThreeEvictsOldest | src/resilience/DeadLetterQueue.hpp:36-47 | four stores into a queue of capacity 3 keep the last three, in order |
| DeadLetterQueues.AfterRetryShrinks | src/resilience/DeadLetterQueue.hpp:57-77 | a retry pass never grows the queue |
| DeadLetterQueues.AfterRetryBounded | src/resilience/DeadLetterQueue.hpp:68-74 | a retry pass keeps every retry count within 0 to 2 |
| DeadLetterQueues.KeptIndicesInOrder | src/resilience/DeadLetterQueue.hpp:62-76 | the positions a pass keeps are in range and strictly increasing |
| DeadLetterQueues.KeptIndicesMembers | src/resilience/DeadLetterQueue.hpp:63-75 | a position is kept exactly when its retry failed and its raised count is below 3 |
| DeadLetterQueues.AfterRetryAtKept | src/resilience/DeadLetterQueue.hpp:68-71 | the k-th record after the pass is the k-th kept record with its retry count raised by one |
| DeadLetterQueues.AfterRetryExactly | src/resilience/DeadLetterQueue.hpp:57-77 | after a pass the queue is exactly the records that failed again with a raised count below 3, each with that count, in their original order |
| DeadLetterQueues.AllFailRaisesRetries | src/resilience/DeadLetterQueue.hpp:66-71 | a pass in which every retry fails raises every surviving record's count |
| DeadLetterQueues.ThreeFailingPassesEmpty | src/resilience/DeadLetterQueue.hpp:57-77 | three passes in which every retry fails empty any queue whose counts are within bounds |
| DeadLetterQueues.SingleFailingItemRetriedThreeTimes | src/resilience/DeadLetterQueue.hpp:66-74 | a fresh record that keeps failing is put back with count 1, then 2, and dropped on the third failure |
| Validation.IsValidUsername | src/database/SimpleDatabaseManager.cpp:270-276 | the username rule: 3 to 50 characters from letters, digits and underscore |
| Validation.IsValidSessionName | src/database/SimpleDatabaseManager.cpp:302-308 | the session-name rule: 1 to 100 characters from letters, digits, space, underscore and hyphen |
| Validation.IsValidRole | src/database/SimpleDatabaseManager.cpp:293-295 | the three accepted roles |
| Validation.IsValidInterfaceName | src/database/SimpleDatabaseManager.cpp:310-314 | one of the five prefixes followed by one or more digits, the whole text matched |
| Validation.IsValidEmail | src/database/SimpleDatabaseManager.cpp:297-300 | the email pattern matched against the whole text |
| Validation.IsValidPath | src/database/SimpleDatabaseManager.cpp:248-268 | no "..", "//" or double backslash, and no absolute path outside the data directory |
| Validation.UsernameExamples | src/database/SimpleDatabaseManager.cpp:270-276 | three sample names: "admin_01" passes, while "ab" (too short) and "bad name" (a space) fail |
| Validation.UsernameIsSessionName | src/database/SimpleDatabaseManager.cpp:270-308 | every valid username also passes the session-name check |
| Validation.ValidUsernameIsClean | src/database/SimpleDatabaseManager.cpp:270-330 | sanitising leaves a valid username unchanged |
| Validation.InterfaceNameIsAlnum | src/database/SimpleDatabaseManager.cpp:310-314 | a valid interface name has at least 2 characters, starts with a lower-case letter and holds only letters and digits |
| Validation.HasClassStep | src/database/SimpleDatabaseManager.cpp:283-288 | one more character adds a class to the seen set exactly when it belongs to that class |
| Validation.SpecialIsNotAlnum | src/database/SimpleDatabaseManager.cpp:284-287 | no listed special character is a letter or digit, so the else-if chain sets the special flag exactly for them |
| Validation.IsStrongPassword | src/database/SimpleDatabaseManager.cpp:278-291 | a password is strong exactly when it has at least 12 characters and contains an upper-case letter, a lower-case letter, a digit and one of the listed special characters |
| Validation.ValidPathHasNoTraversal | src/database/SimpleDatabaseManager.cpp:248-268 | an accepted path contains no "..", no "//" and no double backslash anywhere |
| Validation.InterfaceNameExamples | src/database/SimpleDatabaseManager.cpp:310-314 | every alternative of the interface pattern is tried: "eth0", "wlan12" and "wl3" pass |
| Validation.InterfaceNameNeedsDigit | src/database/SimpleDatabaseManager.cpp:310-314 | a prefix alone ("eth") fails |
| Validation.InterfaceNameNeedsOnlyDigits | src/database/SimpleDatabaseManager.cpp:310-314 | a prefix followed by a non-digit ("wlanx") fails |
| Validation.EmptyEmailIsInvalid | src/database/SimpleDatabaseManager.cpp:297-300 | the empty text fails the email pattern |
| Validation.EmailExample | src/database/SimpleDatabaseManager.cpp:297-300 | "ops@example.com" matches the email pattern |
| Validation.Sanitized | src/database/SimpleDatabaseManager.cpp:316-330 | what sanitizeInput returns: the kept characters, cut to 1000; `SanitizedShape` and `SanitizedIdempotent` are about it |
| Validation.LogSanitized | src/database/SimpleDatabaseManager.cpp:332-341 | what sanitizeLogInput returns; `LogSanitizedHasNoSeparators` is about it |
| Validation.FilteredStep | src/database/SimpleDatabaseManager.cpp:320-322 | filtering one more character appends it unless it is stripped |
| Validation.Replaced | src/database/SimpleDatabaseManager.cpp:336-338 | a replacement keeps the length |
| Validation.SanitizeInput | src/database/SimpleDatabaseManager.cpp:316-330 | the in-place compaction, erase and cut return the filtered text cut to 1000 characters |
| Validation.ReplaceAll | src/database/SimpleDatabaseManager.cpp:336-338 | every occurrence of the character is replaced in place and nothing else changes |
| Validation.SanitizeLogInput | src/database/SimpleDatabaseManager.cpp:332-341 | the result is the three replacements followed by sanitizeInput |
| Validation.FilteredAppend | src/database/SimpleDatabaseManager.cpp:320-322 | filtering distributes over concatenation, so the kept characters keep their order |
| Validation.FilteredShorter | src/database/SimpleDatabaseManager.cpp:320-322 | filtering never lengthens a text |
| Validation.FilteredKeepsOnlyAllowed | src/database/SimpleDatabaseManager.cpp:320-322 | every kept character comes from the input and is not stripped |
| Validation.FilteredClean | src/database/SimpleDatabaseManager.cpp:320-322 | a text with nothing to strip is left unchanged |
| Validation.SanitizedShape | src/database/SimpleDatabaseManager.cpp:316-330 | the result is the first min(n, 1000) of the n kept characters and holds no stripped character |
| Validation.SanitizedIdempotent | src/database/SimpleDatabaseManager.cpp:316-330 | sanitising twice gives the same text as sanitising once |
| Validation.ValidSessionNameIsClean | src/database/SimpleDatabaseManager.cpp:302-330 | sanitising leaves a valid session name unchanged |
| Validation.LogSanitizedHasNoSeparators | src/database/SimpleDatabaseManager.cpp:332-341 | a sanitised log field contains no '\|', newline, carriage return or stripped character |
| Database.NewUser | src/database/SimpleDatabaseManager.cpp:140-152 | the record createUser appends: active, never logged in, no failures, the password hashed with the salt |
| Database.AuthScan | src/database/SimpleDatabaseManager.cpp:75-101 | the loop of authenticateUser from a given index; the login lemmas below are about it |
| Database.Authenticate | src/database/SimpleDatabaseManager.cpp:66-106 | authenticateUser's format check followed by the loop |
| Database.NewSession | src/database/SimpleDatabaseManager.cpp:203-212 | the record createCaptureSession appends: three sanitised texts, active, with no packets or bytes |
| Database.Evicted | src/database/SimpleDatabaseManager.cpp:228-231 | a store of 100000 or more drops its 10000 oldest packets |
| Database.UserAppendWellFormed | src/database/SimpleDatabaseManager.cpp:134-155 | appending a new name with the next id keeps names unique and ids increasing and below the next id |
| Database.SameAccountsWellFormed | src/database/SimpleDatabaseManager.cpp:74-98 | changing only login bookkeeping keeps the user vector well formed |
| Database.IndexOfUser | src/database/SimpleDatabaseManager.cpp:544-548 | the scan finds the first user with the name, or reports that none has it |
| Database.SessionAppendWellFormed | src/database/SimpleDatabaseManager.cpp:203-216 | appending a session with the next id keeps session ids positive and increasing |
| Database.SimpleDatabaseManager.constructor | src/database/SimpleDatabaseManager.cpp:25-27 | a new manager has no users, sessions or packets, and all three id counters at 1 |
| Database.SimpleDatabaseManager.CreateCaptureSession | src/database/SimpleDatabaseManager.cpp:194-222 | the filter defaults to the empty text; an invalid name or interface gives -1 and changes nothing; otherwise the next id is returned and an active, empty session with the three texts sanitised is appended |
| Database.SimpleDatabaseManager.InsertPacketMetadata | src/database/SimpleDatabaseManager.cpp:224-244 | a full store first drops its oldest 10000 packets; the packet is then appended with the next id, and the call returns true |
| Database.SimpleDatabaseManager.CreateUser | src/database/SimpleDatabaseManager.cpp:108-159 | the email defaults to the empty text; a user is created exactly when the name, password, role and email are valid and the name is new; the record then gets the next id, the hash of the password with the salt, and a zero failure count; otherwise nothing changes |
| Database.SimpleDatabaseManager.AuthenticateUser | src/database/SimpleDatabaseManager.cpp:66-106 | the new user vector and the result are exactly those of the login algorithm `Authenticate` |
| Database.SimpleDatabaseManager.IncrementFailedLogin | src/database/SimpleDatabaseManager.cpp:541-552 | true exactly when some user has the name; then the first such user's count goes up by one, active or not |
| Database.SimpleDatabaseManager.ResetFailedLogin | src/database/SimpleDatabaseManager.cpp:554-565 | true exactly when some user has the name; then the first such user's count becomes 0 |
| Database.NewSessionKeepsValidName | src/database/SimpleDatabaseManager.cpp:202-213 | a created session stores a valid name as given, starts active with no packets and has no end time |
| Database.InsertKeepsPacketsWellFormed | src/database/SimpleDatabaseManager.cpp:224-237 | an insertion keeps at most 100000 packets with strictly increasing ids below the next id |
| Database.FullStoreDropsOldestBatch | src/database/SimpleDatabaseManager.cpp:227-237 | inserting into a store of 100000 leaves 90001 packets: the newest 90000 old ones followed by the new one |
| Database.ScanNoMatch | src/database/SimpleDatabaseManager.cpp:74-100 | when no active user has the name, login changes nothing and logs nobody in |
| Database.ScanSingleMatch | src/database/SimpleDatabaseManager.cpp:74-98 | when exactly one user has the name and it is active, login acts on that user only |
| Database.LockedAccountRejected | src/database/SimpleDatabaseManager.cpp:75-80 | an active account with 5 or more failed attempts is refused for every password, and nothing changes |
| Database.CorrectPasswordResetsCount | src/database/SimpleDatabaseManager.cpp:83-91 | the right password on an unlocked account logs in, zeroes the count and records the login time |
| Database.WrongPasswordCountsFailure | src/database/SimpleDatabaseManager.cpp:92-96 | a wrong password on an unlocked account adds one failed attempt and logs nobody in |
| Database.WrongPasswordsAccumulate | src/database/SimpleDatabaseManager.cpp:92-96 | n wrong attempts in a row add n to the count while it stays within the lockout limit |
| Database.FiveWrongPasswordsLock | src/database/SimpleDatabaseManager.cpp:75-96 | after five wrong passwords a fresh account refuses even the right one |
| Database.NoActiveAccountRejected | src/database/SimpleDatabaseManager.cpp:69-105 | a malformed name, an empty password, or no active user with the name: nobody is logged in and nothing changes |
| Database.AuthScanKeepsAccounts | src/database/SimpleDatabaseManager.cpp:74-98 | login never changes which ids and names exist |
| Database.CreatedUserCanLogIn | src/database/SimpleDatabaseManager.cpp:83-155 | a user just created by createUser logs in with its password |
| Database.DefaultEmailRejected | src/database/SimpleDatabaseManager.h:77-78 | createUser with the default empty email fails its validation |

## Left out

- Console output, the audit log written through `logAuditEvent`, and `saveToFile`/`loadFromFile` are left out. They are output or file I/O, and nothing the model states depends on them.
- Mutexes and the atomicity of the breaker's failure counter are left out. Every modelled operation that changes state holds its mutex throughout, so operations are modelled in sequence.
- Clocks are parameters. `steady_clock::now()` and `system_clock::now()` become inputs: `entryTime`, `exitTime` and `now`.
- `generateSecureSalt` is left out: the salt is an input, because it comes from a random device. `hashPasswordSecure` is the abstract parameter `hash`: a constant-time comparison and the hash function itself are beyond this model.
- `updateLastLogin`, `initialize` and `close` are left out. They are persistence, or an update outside the modelled core.
- `updateCaptureSession` and `endCaptureSession` are declared in SimpleDatabaseManager.h:91-93, but SimpleDatabaseManager.cpp defines neither, so there is no behaviour to model.
- DatabaseManager, PacketAnalyzerModel, AuditLogger, PrivilegeManager, the thread pool and `main` are not part of this model.
- Protocols.QuicFields and Protocols.DetectQuicIff read the QUIC version as the unsigned value of bytes 1 to 4. The source computes `data[1] << 24` on a promoted `int`, which overflows when byte 1 is 0x80 or more. Converted to `uint32_t`, the two's-complement result is that same unsigned value, and the model assumes this.
- Protocols.WebSocketLengthCases: `payloadLength` is a 64-bit unsigned field. Eight 8-bit shifts never exceed 2^64, so no wrap-around is modelled.
- DeadLetterQueues.DeadLetterQueue.StoreFailure requires a capacity of at least 1. With capacity 0 the source pops the front of an empty deque, which is undefined behaviour.
- DeadLetterQueues.DeadLetterQueue.RetryFailures: each callback result is one boolean, "returned". A callback that throws something other than a `std::exception` escapes the source loop mid-pass; that path is not modelled.
- Database.SimpleDatabaseManager.CreateUser, IncrementFailedLogin and the id counters use unbounded integers. The `int` overflow of `failedLoginAttempts`, `nextUserId_` and `nextSessionId_` after 2^31 increments is not modelled.
- CircuitBreakers.CircuitBreaker.Execute: the failure count is an unbounded integer. The overflow of the `std::atomic<int>` counter after 2^31 failures is not modelled.
- Validation.IsValidPath: it covers only the textual half of `isValidPath`. Whether an absolute path lies outside the data directory is the filesystem's answer, passed in as `outsideDataDir`. Absoluteness is read as a leading '/'; Windows drive and UNC forms are not modelled.
- The validators' `std::regex` patterns are written out as predicates on the characters they accept. The regex engine itself is not modelled.
