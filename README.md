# IoTropolis registration core in Dafny

IoTropolis units connect to the registration server over TCP and speak a line
protocol. A unit first sends `HELLO {"protocol":"IoTropolis","version":"1.0"}`.
It then sends one `DESCRIBE` line carrying its type, its subtype and its
sensor and actuator channels, each one given as a `{name, format}` object.
Anything else counts as an unknown command. At `MAX_UNKNOWN_COMMANDS`
unknown commands (its definition is not part of this model, which takes it to be 5), and at any protocol error, the connection closes.

The server does four things:

- it gives every accepted connection the next unit id, starting at 1;
- it keeps the set of live connections;
- it forwards the completion and error signals of each connection;
- it writes one profile record `./UnitType/{type}_{subtype}.json` for each new
  kind of unit (an existing record is kept as it is).

The project has one module per part of the system.

- `Json` (`json.dfy`) is parsed JSON as Qt sees it. `doc.object()`,
  `value(k).toString()` and `value(k).toArray()` give an empty object, an
  empty string and an empty array when the value has another shape.
- `LineProtocol` (`line_protocol.dfy`) does three things: it trims a line the
  way `QByteArray::trimmed` does, splits it at the first space, and strips
  the `::ffff:` prefix of an IPv4-mapped address.
- `Components` (`components.dfy`) is the immutable `IOComponent` value with
  `isValid`, `fromJson` (its `ok` out-parameter is returned as the second
  half of a pair) and `toJson`.
- `UnitSession` (`unit_session.dfy`) is the handshake as functions on a
  session value: one function per branch of the loop body of `onReadyRead`,
  `ProcessLine` for one line and `Run` for a batch of lines. Every reply,
  every signal and the closing of the socket go into one ordered output log.
- `SessionProperties` (`session_properties.dfy`) holds the lemmas about those
  functions: the outcome of each command, the exact error paths, the session
  invariant, and the properties of a whole batch.
- `Connection` (`unit_connection.dfy`) is the class `UnitConnection`. Its
  fields are those of `IoTropolisUnitConnection`, and its methods update them
  in place with the same loops as the source. Where the source leaves the
  read loop by a `return` after `failProtocol`, `OnReadyRead` stops through
  its loop guard, because `failProtocol` has closed the socket. Each method
  is proved to leave exactly the state the matching session function gives.
  As a result, everything proved in `SessionProperties` holds of the object.
- `Registration` (`registration.dfy`) is the class `RegistrationServer`
  together with the profile file name and the record format. The profile
  directory is a `map` from file name to JSON document. Whether creating a
  file fails is a parameter.

The JSON text parser (`QJsonDocument::fromJson`) is a parameter
`parse: string -> Document`. A document is either `Malformed` or `Parsed(root)`.

## Model

| member | source | states |
|---|---|---|
| `LineProtocol.Trim` | src/registration/IoTropolisUnitConnection.cpp:125 | The trimmed line is empty exactly when the line is all whitespace. Otherwise neither end is whitespace. A line with no whitespace at either end is returned unchanged. |
| `LineProtocol.TrimRemovesEnds` | src/registration/IoTropolisUnitConnection.cpp:125 | The trimmed line is exactly the slice of the line left after removing its leading and trailing whitespace, and everything removed is whitespace. |
| `LineProtocol.TrimIdempotent` | src/registration/IoTropolisUnitConnection.cpp:125 | Trimming twice gives the same line as trimming once. |
| `LineProtocol.TrimStart` | src/registration/IoTropolisUnitConnection.cpp:125 | The leading-whitespace half of `trimmed`: the result is a suffix of the line, everything dropped is whitespace, and the result does not start with whitespace. |
| `LineProtocol.TrimEnd` | src/registration/IoTropolisUnitConnection.cpp:125 | The trailing-whitespace half of `trimmed`: the result is a prefix of the line, everything dropped is whitespace, and the result does not end with whitespace. |
| `LineProtocol.IndexOfSpace` | src/registration/IoTropolisUnitConnection.cpp:129 | The result is -1 exactly when the line has no space. Otherwise it is the index of the first space. |
| `LineProtocol.SplitCommand` | src/registration/IoTropolisUnitConnection.cpp:129-138 | A line with no space, or whose first space is its first character, is all command with an empty payload. Otherwise the line is a non-empty, space-free command, one space, then the payload. |
| `LineProtocol.SplitTrimmed` | src/registration/IoTropolisUnitConnection.cpp:125-138 | The command of a trimmed non-empty line is non-empty and has no space. The line is the command, a space and the payload, or else all command. |
| `LineProtocol.SplitJoin` | src/registration/IoTropolisUnitConnection.cpp:129-138 | A space-free non-empty command followed by a space and a payload splits back into that command and payload. |
| `LineProtocol.StripMappedPrefix` | src/registration/IoTropolisUnitConnection.cpp:33-36 | A leading `::ffff:` is removed. Any other address is kept as it is. |
| `LineProtocol.StripMapped` | src/registration/IoTropolisUnitConnection.cpp:34-35 | Exactly the seven prefix characters are removed from a mapped address. |
| `LineProtocol.StripOnlyOnce` | src/registration/IoTropolisUnitConnection.cpp:34-35 | Only one prefix is stripped, so stripping twice differs from stripping once. |
| `Components.FromJson` | src/registration/IOComponent.cpp:3-15 | `ok` implies a valid component and both keys present. A missing key gives the default component and `false`. Not `ok` always means an invalid component. |
| `Components.DefaultInvalid` | include/registration/IOComponent.h:10-17 | The default-constructed component is not valid. |
| `Components.FromJsonMissingKey` | src/registration/IOComponent.cpp:5-8 | A missing `name` or `format` gives `ok` false and the default component. |
| `Components.FromJsonBothKeys` | src/registration/IOComponent.cpp:10-14 | With both keys present, the component holds their string values and `ok` is its validity. |
| `Components.FromJsonOkIff` | src/registration/IOComponent.cpp:3-15 | `ok` holds exactly when `name` and `format` are both non-empty JSON strings. |
| `Components.ToJsonShape` | src/registration/IOComponent.cpp:17-23 | `toJson` has exactly the keys `name` and `format`, holding the component's two fields. |
| `Components.RoundTrip` | src/registration/IOComponent.cpp:3-23 | `fromJson(toJson(c))` gives back `c` itself, and `ok` is `isValid(c)`. |
| `Components.IsValid` | include/registration/IOComponent.h:17 | No contract of its own (a predicate: both fields non-empty). Its behaviour is stated by `DefaultInvalid`, `FromJsonBothKeys`, `FromJsonOkIff` and `RoundTrip`. |
| `Components.ToJson` | src/registration/IOComponent.cpp:17-23 | No contract of its own. Its behaviour is stated by `ToJsonShape` (exactly the two members) and `RoundTrip` (`fromJson` reads it back). |
| `Json.DocumentObject` | src/registration/IoTropolisUnitConnection.cpp:164 | No contract of its own (`doc.object()`: the members of an object root, otherwise empty). Its effect on non-object roots is stated by `HelloArrayPayload` and `DescribeArrayPayload`. |
| `Json.StringMember` | src/registration/IoTropolisUnitConnection.cpp:165-166 | No contract of its own (`value(key).toString()`: the string held, otherwise empty). Its use is stated by `FromJsonBothKeys`, `FromJsonOkIff`, `DescribeAccept` and `DescribeFailureSideEffects`. |
| `Json.ArrayMember` | src/registration/IoTropolisUnitConnection.cpp:227-231 | No contract of its own (`value(key).toArray()`: the array held, otherwise empty). Its use is stated by `DescribeAccept`, `DescribeFailureSideEffects` and `ProfileRecordReload`. |
| `UnitSession.ParseComponentList` | src/registration/IoTropolisUnitConnection.cpp:96-121 | Every component appended came from an accepted entry, in order. Without an error the whole array was consumed. On an error, the entry at the stopping point was rejected, and the reason is "not an object" exactly when that entry is not an object. |
| `UnitSession.Initial` | src/registration/IoTropolisUnitConnection.cpp:12-18 | No contract of its own (nothing done, nothing declared, counter 0, socket open). `InitialInv` proves it satisfies the session invariant, and `FirstCommandMustBeHello` states what a first line does to it. |
| `UnitSession.Reply` | src/registration/IoTropolisUnitConnection.cpp:61-67 | No contract of its own. `ReplyInv` proves it keeps the invariant, and `HelloRepeat`, `DescribeRepeat` and `UnknownCommand` state the single line it adds. |
| `UnitSession.Signal` | src/registration/IoTropolisUnitConnection.cpp:177 | No contract of its own. `AcceptInv` proves the acknowledgement followed by the signal keeps the invariant, and `HelloAccept`, `DescribeAccept` and `CompletionSignalsAtMostOnce` state which signals appear. |
| `UnitSession.Fail` | src/registration/IoTropolisUnitConnection.cpp:72-80 | No contract of its own. It is stated by `FailShape` (the exact records added), `FailIsFailure` (closed, nothing but the log and the flag changed) and `FailInv`. |
| `UnitSession.ParseInto` | src/registration/IoTropolisUnitConnection.cpp:96-121 | No contract of its own. It is stated by `ParseIntoAccept`, `ParseIntoReject`, `ParseIntoStopsAt` and `ParseIntoInv`. |
| `UnitSession.HandleHello` | src/registration/IoTropolisUnitConnection.cpp:143-181 | No contract of its own. It is stated by `HelloAccept`, `HelloReject`, `HelloRepeat`, `HelloOutcome`, `HelloArrayPayload` and `HelloInv`. |
| `UnitSession.DescribeFields` | src/registration/IoTropolisUnitConnection.cpp:224-246 | No contract of its own. It is stated by `DescribeFieldsReject`, `DescribeFailureSideEffects`, `DescribeActuatorFailureSideEffects` and `DescribeFieldsInv`. |
| `UnitSession.HandleDescribe` | src/registration/IoTropolisUnitConnection.cpp:195-247 | No contract of its own. It is stated by `DescribeAccept`, `DescribeReject`, `DescribeRepeat`, `DescribeOutcome`, `DescribeArrayPayload` and `DescribeInv`. |
| `UnitSession.HandleUnknown` | src/registration/IoTropolisUnitConnection.cpp:252-262 | No contract of its own. It is stated by `UnknownCommand`, `UnknownInv` and `UnknownCommandsClose`. |
| `UnitSession.ProcessLine` | src/registration/IoTropolisUnitConnection.cpp:125-262 | No contract of its own. It is stated by `BlankLineIgnored`, `FirstCommandMustBeHello`, `ProcessLineInv`, `ProcessLineAppends` and `DescribedLineKeepsDescription`. |
| `UnitSession.Run` | src/registration/IoTropolisUnitConnection.cpp:123-263 | No contract of its own. It is stated by `RunInv`, `RunAppends`, `FailureEndsBatch`, `ClosedReadsNothing`, `UnknownCommandsClose`, `CompletionSignalsAtMostOnce` and `DescriptionIsFinal`. |
| `UnitSession.Disconnect` | src/registration/IoTropolisUnitConnection.cpp:269-273 | No contract of its own. `DisconnectInv` proves it keeps the invariant and leaves the session closed. |
| `SessionProperties.FailShape` | src/registration/IoTropolisUnitConnection.cpp:72-80 | On an open session the log gains protocolError first, then the client message only if it is non-empty, then the close. The socket is closed and nothing else changes. |
| `SessionProperties.FailIsFailure` | src/registration/IoTropolisUnitConnection.cpp:72-80 | A failure closes the session, changes only the log and the closed flag, and appends one failure record to the log. |
| `SessionProperties.BlankLineIgnored` | src/registration/IoTropolisUnitConnection.cpp:125-127 | A whitespace-only line changes nothing. |
| `SessionProperties.FirstCommandMustBeHello` | src/registration/IoTropolisUnitConnection.cpp:186-190 | Before HELLO, any other command, DESCRIBE included, fails with "First command must be HELLO" and leaves the unknown counter alone. |
| `SessionProperties.HelloAccept` | src/registration/IoTropolisUnitConnection.cpp:174-177 | An accepted first HELLO sets helloDone and resets the counter. It logs `HELLO_ACK`, then helloCompleted, and changes nothing else. |
| `SessionProperties.HelloReject` | src/registration/IoTropolisUnitConnection.cpp:150-172 | A rejected first HELLO appends one failure, closes the session and changes nothing else. |
| `SessionProperties.HelloOutcome` | src/registration/IoTropolisUnitConnection.cpp:143-181 | The first HELLO succeeds exactly when its payload is non-empty, parses, and is an object with protocol "IoTropolis" and version "1.0". It closes the session exactly when it fails. |
| `SessionProperties.HelloRepeat` | src/registration/IoTropolisUnitConnection.cpp:145-148 | A later HELLO only logs `HELLO_DONE`. It checks no payload, changes no state and emits no signal. |
| `SessionProperties.HelloArrayPayload` | src/registration/IoTropolisUnitConnection.cpp:164-172 | A JSON array reads as an empty object, so it fails as "HELLO protocol/version mismatch". |
| `SessionProperties.ParseComponentListOk` | src/registration/IoTropolisUnitConnection.cpp:103-120 | An entry list is accepted exactly when every entry is an object with a valid component. The list is then the decoded entries, in order. |
| `SessionProperties.ParseComponentListPrefix` | src/registration/IoTropolisUnitConnection.cpp:103-118 | On a rejected list, the components appended are exactly the decoded entries before the first bad one. |
| `SessionProperties.AllGoodSnoc` | src/registration/IoTropolisUnitConnection.cpp:103-118 | One more valid entry extends the accepted prefix by exactly its decoded component. |
| `SessionProperties.ParseIntoStopsAt` | src/registration/IoTropolisUnitConnection.cpp:103-118 | When entry i is the first bad one, the list holds the decoded entries before it and the session fails with the messages for that entry's kind of rejection. |
| `SessionProperties.ParseIntoReject` | src/registration/IoTropolisUnitConnection.cpp:101-117 | A rejected list returns false and fails the session. The target list holds the entries appended before the bad one, and nothing else changes. |
| `SessionProperties.ParseIntoAccept` | src/registration/IoTropolisUnitConnection.cpp:101-120 | An accepted list replaces the target list with the decoded entries and returns true. Nothing else changes. |
| `SessionProperties.WithListOverwrite` | src/registration/IoTropolisUnitConnection.cpp:101 | Clearing the target list and refilling it leaves only the final contents. |
| `SessionProperties.DescribeAccept` | src/registration/IoTropolisUnitConnection.cpp:224-238 | An accepted first DESCRIBE records the type, the subtype and the decoded sensors and actuators. It sets describeDone, resets the counter, logs `DESCRIBE_ACK` then describeCompleted, and changes nothing else. |
| `SessionProperties.DescribeFieldsReject` | src/registration/IoTropolisUnitConnection.cpp:224-233 | A bad sensor or actuator entry fails the session. describeDone stays false and the counter does not change. |
| `SessionProperties.DescribeReject` | src/registration/IoTropolisUnitConnection.cpp:202-233 | An empty payload, invalid JSON, a missing member or a bad entry each fail the session with describeDone still false. |
| `SessionProperties.DescribeOutcome` | src/registration/IoTropolisUnitConnection.cpp:195-247 | After HELLO, the first DESCRIBE succeeds exactly when its payload is accepted, and closes the session exactly when it is not. |
| `SessionProperties.DescribeRepeat` | src/registration/IoTropolisUnitConnection.cpp:197-200 | A later DESCRIBE only logs `DESCRIBE_DONE`. |
| `SessionProperties.DescribeArrayPayload` | src/registration/IoTropolisUnitConnection.cpp:216-222 | A JSON array reads as an empty object, so it fails as "DESCRIBE missing required fields". |
| `SessionProperties.DescribeFailureSideEffects` | src/registration/IoTropolisUnitConnection.cpp:224-229 | A DESCRIBE that fails on a sensor entry has already set the type and subtype. It leaves the sensors decoded before the bad entry and keeps the actuators. |
| `SessionProperties.DescribeActuatorFailureSideEffects` | src/registration/IoTropolisUnitConnection.cpp:224-233 | A DESCRIBE that fails on an actuator entry has already set the type and subtype and replaced the sensors with all decoded sensor entries. It leaves the actuators decoded before the bad entry. |
| `SessionProperties.PartialSensorsExample` | src/registration/IoTropolisUnitConnection.cpp:101-118 | A concrete failed DESCRIBE leaves one sensor recorded and the type set. |
| `SessionProperties.UnknownCommand` | src/registration/IoTropolisUnitConnection.cpp:252-262 | After HELLO an unknown command adds one to the counter and logs `UNKNOWN_COMMAND`. The session closes exactly when the counter reaches the limit, and then it logs the "Exceeded MAX_UNKNOWN_COMMANDS" failure. |
| `SessionProperties.InitialInv` | src/registration/IoTropolisUnitConnection.cpp:12-18 | The initial session satisfies the session invariant. |
| `SessionProperties.FailInv` | src/registration/IoTropolisUnitConnection.cpp:72-80 | A failure keeps the invariant and closes the session. |
| `SessionProperties.ParseIntoInv` | src/registration/IoTropolisUnitConnection.cpp:96-121 | Filling a list keeps every recorded component valid. The session closes exactly when the list is rejected. |
| `SessionProperties.ReplyInv` | src/registration/IoTropolisUnitConnection.cpp:61-67 | A reply keeps the invariant. |
| `SessionProperties.AcceptInv` | src/registration/IoTropolisUnitConnection.cpp:174-177 | Acknowledging a completed step and signalling it keeps the invariant. |
| `SessionProperties.HelloRejectInv` | src/registration/IoTropolisUnitConnection.cpp:150-171 | Each rejected HELLO keeps the invariant. |
| `SessionProperties.HelloInv` | src/registration/IoTropolisUnitConnection.cpp:143-181 | The HELLO branch keeps the invariant. |
| `SessionProperties.DescribeFieldsInv` | src/registration/IoTropolisUnitConnection.cpp:224-246 | Recording the fields of a DESCRIBE keeps the invariant. |
| `SessionProperties.DescribeInv` | src/registration/IoTropolisUnitConnection.cpp:195-247 | The DESCRIBE branch keeps the invariant. |
| `SessionProperties.UnknownInv` | src/registration/IoTropolisUnitConnection.cpp:252-262 | The unknown-command branch keeps the invariant, including the bound on the counter of an open session. |
| `SessionProperties.ProcessLineInv` | src/registration/IoTropolisUnitConnection.cpp:125-262 | One loop pass keeps the invariant. The invariant says: describeDone implies helloDone; the counter is below the limit while open; recorded components are valid; each completion signal has been emitted once exactly when its flag is set. |
| `SessionProperties.RunInv` | src/registration/IoTropolisUnitConnection.cpp:123-263 | A whole batch keeps the invariant. |
| `SessionProperties.DisconnectInv` | src/registration/IoTropolisUnitConnection.cpp:269-273 | Disconnecting keeps the invariant and closes the session. |
| `SessionProperties.CompletionSignalsAtMostOnce` | src/registration/IoTropolisUnitConnection.cpp:174-238 | From a fresh connection, helloCompleted is emitted at most once. describeCompleted is emitted no more often than helloCompleted, and describeDone implies helloDone. |
| `SessionProperties.UnknownCommandsClose` | src/registration/IoTropolisUnitConnection.cpp:252-262 | After HELLO, enough unknown commands to reach the limit close the session with the counter at the limit. |
| `SessionProperties.FailureEndsBatch` | src/registration/IoTropolisUnitConnection.cpp:150-262 | The line that fails the protocol is the last one processed. The rest of the batch is not read. |
| `SessionProperties.ClosedReadsNothing` | src/registration/IoTropolisUnitConnection.cpp:123 | A closed session reads no lines. |
| `SessionProperties.HelloAppends` | src/registration/IoTropolisUnitConnection.cpp:143-181 | The HELLO branch only appends to the log. |
| `SessionProperties.DescribeAppends` | src/registration/IoTropolisUnitConnection.cpp:195-247 | The DESCRIBE branch only appends to the log. |
| `SessionProperties.ProcessLineAppends` | src/registration/IoTropolisUnitConnection.cpp:125-262 | One line only appends to the log. |
| `SessionProperties.RunAppends` | src/registration/IoTropolisUnitConnection.cpp:123-263 | A batch only appends to the log, so what was logged before stays a prefix. |
| `SessionProperties.DescribedLineKeepsDescription` | src/registration/IoTropolisUnitConnection.cpp:145-262 | After a successful DESCRIBE, one more line changes neither the flags nor the type, subtype, sensors and actuators. |
| `SessionProperties.DescriptionIsFinal` | src/registration/IoTropolisUnitConnection.cpp:123-263 | After a successful DESCRIBE, no later batch changes the flags or the declared description. |
| `Connection.Names` | src/registration/IoTropolisUnitConnection.cpp:44-47 | The name list has one entry per component, holding that component's name in order. |
| `Connection.UnitConnection.constructor` | src/registration/IoTropolisUnitConnection.cpp:12-23 | The fields are the initial session: nothing done, counter 0, nothing declared, open. The invariant holds. |
| `Connection.UnitConnection.IpAddress` | src/registration/IoTropolisUnitConnection.cpp:28-37 | The peer address without a leading `::ffff:`, and unchanged otherwise. |
| `Connection.UnitConnection.SetUnitID` | src/registration/IoTropolisRegistrationServer.cpp:46 | Only the unit id changes. |
| `Connection.UnitConnection.SensorNames` | src/registration/IoTropolisUnitConnection.cpp:42-48 | The names of the sensors, in order. |
| `Connection.UnitConnection.ActuatorNames` | src/registration/IoTropolisUnitConnection.cpp:50-56 | The names of the actuators, in order. |
| `Connection.UnitConnection.SendReply` | src/registration/IoTropolisUnitConnection.cpp:61-67 | A line is logged only while the socket is open. Nothing else changes. |
| `Connection.UnitConnection.EmitSignal` | src/registration/IoTropolisUnitConnection.cpp:177 | The only change is the signal appended to the log; `State()` becomes `Signal` of the old state and the id is unchanged. |
| `Connection.UnitConnection.FailProtocol` | src/registration/IoTropolisUnitConnection.cpp:72-80 | The fields change exactly as `Fail` says: protocolError, the optional client message, then the close. |
| `Connection.UnitConnection.ResetUnknownCommandCounter` | src/registration/IoTropolisUnitConnection.cpp:85-88 | Only the counter changes, to 0. |
| `Connection.UnitConnection.AppendEntry` | src/registration/IoTropolisUnitConnection.cpp:104-117 | One entry: a valid one is appended in place and true returned; an invalid one fails the protocol with its rejection messages and returns false. |
| `Connection.UnitConnection.ParseComponents` | src/registration/IoTropolisUnitConnection.cpp:96-121 | Clearing and then appending in place leaves the fields and the result `ParseInto` gives. |
| `Connection.UnitConnection.OnHello` | src/registration/IoTropolisUnitConnection.cpp:143-181 | The fields change exactly as `HandleHello` says. |
| `Connection.UnitConnection.OnDescribeFields` | src/registration/IoTropolisUnitConnection.cpp:224-246 | The fields change exactly as `DescribeFields` says. |
| `Connection.UnitConnection.OnDescribe` | src/registration/IoTropolisUnitConnection.cpp:195-247 | The fields change exactly as `HandleDescribe` says. |
| `Connection.UnitConnection.OnUnknown` | src/registration/IoTropolisUnitConnection.cpp:252-262 | The fields change exactly as `HandleUnknown` says. |
| `Connection.UnitConnection.OnLine` | src/registration/IoTropolisUnitConnection.cpp:125-262 | Trimming, splitting and dispatching one line leaves `ProcessLine` of the old state. |
| `Connection.UnitConnection.OnReadyRead` | src/registration/IoTropolisUnitConnection.cpp:93-264 | The new state is `Run` of the old state over the lines. The invariant is kept, the log only grows, and the unit id is unchanged. |
| `Connection.UnitConnection.OnDisconnected` | src/registration/IoTropolisUnitConnection.cpp:269-273 | The session closes, disconnected is logged, and the invariant is kept. |
| `Registration.ComponentsArray` | src/registration/IoTropolisRegistrationServer.cpp:122-130 | The array has one `toJson` object per component, in order. |
| `Registration.ProfileKey` | src/registration/IoTropolisRegistrationServer.cpp:109 | No contract of its own. `ProfileKeyParts` states the layout `./UnitType/{type}_{subtype}.json`, `ProfileKeyInjective` when it identifies the unit and `ProfileKeyAmbiguous` a collision. |
| `Registration.ComponentsJson` | src/registration/IoTropolisRegistrationServer.cpp:122-130 | One entry per component. `ComponentsArray` is proved to build the same entries in order, and `ComponentsJsonReload` proves it reads back as the components. |
| `Registration.ProfileRecord` | src/registration/IoTropolisRegistrationServer.cpp:121-131 | No contract of its own. `ProfileRecordReload` proves it has exactly the keys `sensors` and `actuators` and that both read back as the unit's declarations. |
| `Registration.ProfileKeyParts` | src/registration/IoTropolisRegistrationServer.cpp:109 | The file name is `./UnitType/`, then the type, `_`, the subtype and `.json`, at the computed positions. |
| `Registration.ProfileKeyInjective` | src/registration/IoTropolisRegistrationServer.cpp:109 | For types with no `_`, equal file names mean an equal type and subtype. |
| `Registration.ProfileKeyAmbiguous` | src/registration/IoTropolisRegistrationServer.cpp:109 | With a `_` in the type, two different units share a file name. |
| `Registration.ComponentsJsonReload` | src/registration/IoTropolisRegistrationServer.cpp:122-130 | A stored array of valid components reads back under the DESCRIBE entry rules as exactly those components. |
| `Registration.ProfileRecordReload` | src/registration/IoTropolisRegistrationServer.cpp:121-131 | The record has exactly the keys `sensors` and `actuators`, and both read back as the unit's declarations. |
| `Registration.RegistrationServer.constructor` | src/registration/IoTropolisRegistrationServer.cpp:12-21 | No units, next id 1, an empty event log, and the profile directory as found. |
| `Registration.RegistrationServer.OnNewConnection` | src/registration/IoTropolisRegistrationServer.cpp:38-66 | There is one fresh connection per pending socket, in order. The k-th gets id old next id + k. All join the live set, and ids stay consecutive from 1, so they are never reused. |
| `Registration.RegistrationServer.OnUnitHello` | src/registration/IoTropolisRegistrationServer.cpp:68-73 | unitReady for that unit is logged. Nothing else changes. |
| `Registration.RegistrationServer.OnUnitDescribe` | src/registration/IoTropolisRegistrationServer.cpp:75-87 | The profile is validated or created, then unitReady is logged whatever the outcome. |
| `Registration.RegistrationServer.OnUnitProtocolError` | src/registration/IoTropolisRegistrationServer.cpp:89-94 | unitError is logged with the identical unit and message. |
| `Registration.RegistrationServer.OnUnitDisconnectedInternal` | src/registration/IoTropolisRegistrationServer.cpp:96-105 | The unit leaves the live set and every other member stays. Then unitDisconnected is logged. |
| `Registration.RegistrationServer.ValidateOrCreateTypeFile` | src/registration/IoTropolisRegistrationServer.cpp:107-138 | An existing file name returns true with the store untouched. A failed creation returns false with the store untouched. Otherwise the store gains the record of the unit's sensors and actuators, and the result is true. |

Where the documented protocol and the implementation differ, the model
follows the implementation:

- Before HELLO any other line fails at once with "First command must be
  HELLO". Unknown commands before HELLO are not counted towards the limit.
- A DESCRIBE that fails can leave the type, the subtype and a partly filled
  sensor or actuator list behind.
- `validateOrCreateTypeFile` returns true for an existing record without
  comparing it to the unit.
- The server emits `unitReady` after both HELLO and DESCRIBE. The
  header-only `unitProtocolCompatible`, `unitFullyRegistered` and
  `unitAboutToBeRemoved` are never emitted.

## Left out

- TCP I/O. `QTcpServer::listen` in `start`, `canReadLine` and `readLine`,
  `write` and `flush`, and `disconnectFromHost` are left out. The lines of a
  batch are an input sequence, and replies and the close go into the output
  log. Whether the socket is open is the `closed` flag.
- JSON text parsing. `QJsonDocument::fromJson` is a parameter, and the
  model takes JSON numbers as integers.
- UTF-8 decoding of the command and the encoding of replies. Strings are
  sequences of characters.
- The filesystem. `QDir::mkpath` in the constructor, `QFile::open`/`write`
  and the indented serialisation of the record become a map store. The
  boolean `createFails` stands for a failed open.
- Logging (`qDebug`, `qWarning`, `qCritical`), and the Qt signal and slot
  mechanics: connecting the lambdas, queued delivery, and `deleteLater` of
  the socket and the unit. Signals are entries in an event log. Wiring a
  unit's signals to the server's handlers is left to the caller.
- The value of `MAX_UNKNOWN_COMMANDS`: its definition is not part of this
  model, and `UnitSession.MaxUnknownCommands` takes it to be 5.
- `ipAddress` with a null socket. A connection always has a socket here.
- `Connection.UnitConnection.SetUnitID`: the width of the `UnitID` type is
  not given, so ids are unbounded naturals and wrap-around is not modelled.
- The GUI, the configuration file reader and `main`, which only wire signals
  to widgets.
- The header accessors `unitType()`, `unitSubtype()`, `sensors()` and
  `actuators()` are plain field reads. The header types `sensors()` as a
  string list, but the implementation stores `IOComponent` values. How a
  component becomes an entry of the profile record's arrays is not part of
  this model (`IOComponent` declares no conversion to a JSON value), so
  `Registration.ComponentsJson` and `Registration.ComponentsArray` assume it
  is the component's `toJson` object.
