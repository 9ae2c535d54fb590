# BusGui core, modelled in Dafny

BusGui is the control panel of a camper-van bus system. A Node backend talks to
a microcontroller over a serial line. The browser front end talks to the backend
over socket.io. This project models the four pieces that carry the system's logic:

- **Backend commands** (`BackendCommand`, `backend_command.dfy`). `validateCommand`
  checks an untrusted command object, and `formatCommand` renders a valid one as
  the space-separated line written to the controller. The main theorem is a round
  trip: splitting the written line on spaces and parsing each token gives back
  exactly the command's type, device, fixture, on-flag and payload.
- **The serial link** (`ArduinoLink`, `arduino.dfy`). Class `Arduino` keeps its
  receive buffer, health flag, last-heartbeat stamp, pending heartbeat timeout and
  listener map as fields, and its methods update them in place. A class invariant
  ties the health flag to the pending timer and to the history of health notices:
  "healthy" and "unhealthy" strictly alternate, starting with "healthy". A fold
  over every chunk received specifies how bytes are framed into messages.
- **Frontend commands** (`FrontendCommand`, `frontend_command.dfy`). This covers the
  fixture naming table `getName` and the command builders `makeLedCommand`,
  `makeMosfetCommand` and `makeToggleCommand`. It also covers what the backend
  decides about the commands the browser builds.
- **The browser socket** (`BusSocketClient`, `bus_socket.dfy`). Class `BusSocket`
  has a 50 ms rate-limit gate and a keyed listener pool. Its fan-out does not
  isolate exceptions.

Two modules are shared. `Listeners` (`listeners.dfy`) holds listener pools and
the log of fan-out invocations. `Text` (`text.dfy`) holds decimal rendering of
integers and splitting and joining on a separator.

The environment is modelled as follows:
- Clocks, timers and the serial port become parameters and ghost logs.
- Incoming serial data is a call of `Arduino.OnData(chunk, now)`.
- A timer firing is a call of `Arduino.TimeoutFires()`.
- Text written to the port is appended to the ghost sequence `written`.
- `JSON.parse` of the decoded, trimmed buffer is a function `parse` given to the
  constructor. `None` stands for a thrown `SyntaxError`.
- `Date.now()` readings are parameters of `BusSocket.RunCommand`.
- A listener is a `Callback(id, throws)`. Each invocation is recorded as a
  `Delivery` in a ghost log, together with the state the listener could observe.
- The iteration order of `for..in` is left open: the loops pick any key not yet
  visited.
- Fields of untrusted JavaScript objects are `Num(n)` or `NotNum(shown)`, which
  models `typeof x === "number"`.

## Model

| member | source | states |
|---|---|---|
| BackendCommand.TypeOrdinal | BusGui/backend/src/models/Command.ts:83-88 | the wire numbers of the four command types lie in 0..3 (Intensity 0, Color 1, On 2, Off 3) |
| BackendCommand.ValidateCommand | BusGui/backend/src/models/Command.ts:94-119 | an accepted command has numeric device, fixture and type, and its type is one of the four enum numbers 0..3; the per-type conditions are the Iff lemmas below |
| BackendCommand.HeaderMustBeNumeric | BusGui/backend/src/models/Command.ts:96-98 | a command whose device, fixture or type is not a number is rejected, whatever its other fields |
| BackendCommand.ColorValidIff | BusGui/backend/src/models/Command.ts:100-108 | a Color command with numeric header is valid iff red, green and blue are all numbers in [0, 255] |
| BackendCommand.IntensityValidIff | BusGui/backend/src/models/Command.ts:109-113 | an Intensity command with numeric header is valid iff intensity is a number in [0, 255] |
| BackendCommand.OnOffAndUnknownTypes | BusGui/backend/src/models/Command.ts:114-118 | On and Off with numeric header are always valid; any numeric type outside 0..3 is rejected |
| BackendCommand.DeviceFixtureUnchecked | BusGui/backend/src/models/Command.ts:96-118 | replacing a numeric device and fixture by any other numbers never changes the verdict (no range check) |
| BackendCommand.OrderOf | BusGui/backend/src/models/Command.ts:94-119 | a valid command carries a well-formed order: one of the four types with channels or level in [0, 255] |
| BackendCommand.ValidIffCarriesOrder | BusGui/backend/src/models/Command.ts:94-119 | `validateCommand` accepts exactly the commands that carry an in-range order (both directions) |
| BackendCommand.FormatCommand | BusGui/backend/src/models/Command.ts:131 | the output always starts with type, device and fixture separated by single spaces |
| BackendCommand.Show | BusGui/backend/src/models/Command.ts:131 | the template-string text of a numeric field reads back as exactly that number |
| BackendCommand.WireFields | BusGui/backend/src/models/Command.ts:124-125 | the field layout on the wire: 5, 7, 4 and 4 numbers for Intensity, Color, On, Off; the header first; the on-flag 1 except for Off |
| BackendCommand.FormatIntensityIsJoin | BusGui/backend/src/models/Command.ts:132-133 | an Intensity command is written as its five wire fields joined by spaces |
| BackendCommand.FormatColorIsJoin | BusGui/backend/src/models/Command.ts:134-135 | a Color command is written as its seven wire fields joined by spaces |
| BackendCommand.FormatSwitchIsJoin | BusGui/backend/src/models/Command.ts:136-139 | On is written as header then 1, Off as header then 0 |
| BackendCommand.FormatIsJoin | BusGui/backend/src/models/Command.ts:129-142 | for every command carrying an order, the output is exactly the order's wire fields in decimal, joined by spaces |
| BackendCommand.FormatRoundTrip | BusGui/backend/src/models/Command.ts:129-142 | for a valid command, splitting the output on spaces and parsing every token recovers the wire fields; the token count is 5, 7, 4 or 4 |
| BackendCommand.FormatHasNoTerminator | BusGui/backend/src/models/Command.ts:129-142 | no newline or carriage return is appended: the output of a valid command ends in a digit |
| BackendCommand.ParseAllInts | BusGui/backend/src/models/Command.ts:131-135 | parsing the decimal renderings of a list of integers gives the list back |
| Text.IntToString | BusGui/backend/src/models/Command.ts:131 | template-string rendering of an integer: non-empty, digits with at most a leading minus |
| Text.IntToStringRoundTrip | BusGui/backend/src/models/Command.ts:131 | reading the rendering of any integer back gives that integer |
| Text.SplitJoin | BusGui/backend/src/models/Command.ts:124-125 | splitting fields joined by a separator none of them contains gives the fields back |
| Listeners.FanOutDone | BusGui/backend/src/Arduino.ts:162-168 | a fan-out that has no key left to visit has invoked every registered listener exactly once with the message |
| Listeners.FanOutMessages | BusGui/backend/src/Arduino.ts:162-168 | a fan-out only appends to the invocation log, and each new entry carries the emitted message |
| ArduinoLink.TimerDelay | BusGui/backend/src/Arduino.ts:146 | the timeout actually armed lies in [1, 2147483647] ms and equals the requested delay when that is in range |
| ArduinoLink.HeartbeatExpected | BusGui/backend/src/Arduino.ts:5 | definition: the heartbeat period in seconds is the value of `EXPECT_HEARTBEAT_EVERY_SECONDS` when it is set and non-empty, otherwise 10; the constructor turns it into a delay in ms |
| ArduinoLink.HealthNotices | BusGui/backend/src/Arduino.ts:150-153 | the health notices projected from the broadcast log; there is at most one per broadcast message, and telemetry contributes none |
| ArduinoLink.HealthNoticesAppend | BusGui/backend/src/Arduino.ts:152 | the health notices of a longer broadcast log are those of its parts, concatenated |
| ArduinoLink.AlternatesExtend | BusGui/backend/src/Arduino.ts:150-153 | a notice that differs from the last one keeps the notices alternating, and it becomes the announced state |
| ArduinoLink.AlternatesParity | BusGui/backend/src/Arduino.ts:143-177 | in an alternating history the i-th notice is "healthy" exactly when i is even |
| ArduinoLink.HeartbeatKeepsInvariant | BusGui/backend/src/Arduino.ts:143-154 | a heartbeat keeps the health invariant: flag set, time stamped, one "unhealthy" timeout due a delay later, "healthy" announced only after "unhealthy" |
| ArduinoLink.TimeoutKeepsInvariant | BusGui/backend/src/Arduino.ts:146 | a firing timeout keeps the invariant: a heartbeat timeout only fires while healthy and announces "unhealthy"; the constructor's is silent; none is left pending |
| ArduinoLink.InfoKeepsInvariant | BusGui/backend/src/Arduino.ts:118-120 | broadcasting telemetry leaves the health invariant intact |
| ArduinoLink.Framing | BusGui/backend/src/Arduino.ts:96-103 | definition: the frames handed to `dataDone` and the buffered bytes after a stream of `data` events, as a fold over the chunks; its properties are the three lemmas that follow |
| ArduinoLink.FramingStep | BusGui/backend/src/Arduino.ts:96-103 | one more chunk either extends the buffer (no CR) or closes a frame made of the buffer and empties it (CR present) |
| ArduinoLink.FramingConserves | BusGui/backend/src/Arduino.ts:96-103 | the frames plus the buffer are exactly the concatenation of the chunks without a CR |
| ArduinoLink.FramingFrames | BusGui/backend/src/Arduino.ts:96-103 | one frame per chunk containing a CR; no frame and no buffer ever contains a CR |
| ArduinoLink.SplitMessageLosesTail | BusGui/backend/src/Arduino.ts:98-99 | when a message's last chunk also carries the CR, that chunk's bytes are not part of the frame |
| ArduinoLink.FanOutLength | BusGui/backend/src/Arduino.ts:161-169 | one complete fan-out adds exactly one invocation per registered listener |
| ArduinoLink.ChainFanOuts | BusGui/backend/src/Arduino.ts:116-120 | an optional "healthy" fan-out followed by an "info" fan-out, both complete, together make the sequence `dataDone` promises |
| ArduinoLink.HeartbeatThenInfoSeen | BusGui/backend/src/Arduino.ts:116-120 | after a handled message the log only grew, by one or two invocations per listener (two when the link was unhealthy), and each new invocation saw `healthy` true and the new heartbeat |
| ArduinoLink.Arduino.constructor | BusGui/backend/src/Arduino.ts:20-58 | initially the buffer is empty, `healthy` is false, no heartbeat, no listeners, and a timeout that only clears `healthy` is pending |
| ArduinoLink.Arduino.IsHealthy | BusGui/backend/src/Arduino.ts:63-65 | returns `healthy`, which is the last health notice sent; healthy implies a heartbeat was seen |
| ArduinoLink.Arduino.GetLastHeartbeat | BusGui/backend/src/Arduino.ts:70-72 | returns `lastHeartbeat`, which is null exactly while no health notice has been sent |
| ArduinoLink.Arduino.RegisterListener | BusGui/backend/src/Arduino.ts:79-81 | the listener map is overwritten at `name` only |
| ArduinoLink.Arduino.RemoveListener | BusGui/backend/src/Arduino.ts:87-89 | only the key `name` is removed; every other listener stays |
| ArduinoLink.Arduino.OnData | BusGui/backend/src/Arduino.ts:96-103 | a chunk without CR is appended and nothing else changes; a chunk with CR is dropped, the buffer is framed and handled by `dataDone`, and the buffer is empty afterwards; a parsed message reaches every listener as in `dataDone` |
| ArduinoLink.Arduino.DataDone | BusGui/backend/src/Arduino.ts:109-127 | on a parse failure nothing but the buffer changes; on success the buffer is emptied, "healthy" (when the link was unhealthy) and then "info" reach every registered listener exactly once each, in that order |
| ArduinoLink.Arduino.AcceptMessage | BusGui/backend/src/Arduino.ts:116-120 | handles the heartbeat, then broadcasts "info": the link is healthy with the new stamp and a fresh timeout, "healthy" is broadcast first exactly when the link was unhealthy, and every listener receives "healthy" (if sent) and then "info", exactly once each |
| ArduinoLink.Arduino.SendCommand | BusGui/backend/src/Arduino.ts:133-137 | returns `validateCommand(command)`; writes `formatCommand(command)` once if valid and nothing otherwise |
| ArduinoLink.Arduino.HandleHeartbeat | BusGui/backend/src/Arduino.ts:143-154 | stamps the heartbeat and re-arms exactly one `unhealthy` timeout; "healthy" is emitted exactly when the link was unhealthy |
| ArduinoLink.Arduino.EmitToListeners | BusGui/backend/src/Arduino.ts:161-169 | every registered listener is invoked exactly once with the message, whether or not earlier ones threw |
| ArduinoLink.Arduino.Unhealthy | BusGui/backend/src/Arduino.ts:174-177 | clears `healthy` and always emits "unhealthy" with the last heartbeat, with no duplicate guard |
| ArduinoLink.Arduino.TimeoutFires | BusGui/backend/src/Arduino.ts:146 | the constructor's timeout clears `healthy` silently; a heartbeat timeout fires only while healthy and emits one "unhealthy"; the invariant is kept |
| FrontendCommand.GetName | BusGui/frontend/src/models/Command.ts:90-145 | definition: the display-name table by device and fixture ordinal, with the "Unknown Device: d:f" fallback; the lemmas below state what it returns |
| FrontendCommand.GetNameFallbackIff | BusGui/frontend/src/models/Command.ts:90-145 | the "Unknown Device" text is returned exactly for pairs outside the fixture tables |
| FrontendCommand.MosfetNames | BusGui/frontend/src/models/Command.ts:92-104 | the named MOSFET fixtures 4..9 get their display names |
| FrontendCommand.PlaceholderNames | BusGui/frontend/src/models/Command.ts:100-140 | unnamed fixtures are shown as "Mosfet n", "LED n", "Relay n", "Digital n" with their own index |
| FrontendCommand.DigitalInputsShareName | BusGui/frontend/src/models/Command.ts:133-136 | the first four digital inputs are all labelled with the water pump's name |
| FrontendCommand.Ceil | BusGui/frontend/src/models/Command.ts:152 | `Math.ceil`: the least integer not below its argument |
| FrontendCommand.MakeLedCommand | BusGui/frontend/src/models/Command.ts:147-156 | a Color command for the given device and fixture |
| FrontendCommand.MakeMosfetCommand | BusGui/frontend/src/models/Command.ts:158-165 | an Intensity command for the given device and fixture |
| FrontendCommand.MakeToggleCommand | BusGui/frontend/src/models/Command.ts:167-173 | On exactly when the state's `on` holds, otherwise Off, for the given device and fixture |
| FrontendCommand.ToggleOfLedStateIsOff | BusGui/frontend/src/models/Command.ts:167-173 | a colour state has no `on` field, so toggling with it always sends Off |
| FrontendCommand.TypeOrdinalsAgree | BusGui/frontend/src/models/Command.ts:83-88 | browser and backend number the command types identically |
| FrontendCommand.ToWire | BusGui/frontend/src/models/Command.ts:147-173 | the object the backend receives carries the command's type number |
| FrontendCommand.ToWireCarries | BusGui/frontend/src/models/Command.ts:147-173 | every well-typed browser command reaches the backend as the order it meant |
| FrontendCommand.ToggleIsValid | BusGui/frontend/src/models/Command.ts:167-173 | a toggle command always passes the backend's validation |
| FrontendCommand.CeilIsByte | BusGui/frontend/src/models/Command.ts:152-163 | a rounded-up value lies in [0, 255] iff the value lies in (-1, 255] |
| FrontendCommand.MosfetValidIff | BusGui/frontend/src/models/Command.ts:158-165 | a MOSFET command is accepted iff 255 times the level lies in (-1, 255] |
| FrontendCommand.LedValidIff | BusGui/frontend/src/models/Command.ts:147-156 | an LED command is accepted iff every alpha-scaled channel lies in (-1, 255] |
| FrontendCommand.InRangeControlsAreValid | BusGui/frontend/src/models/Command.ts:147-165 | controls in their ranges (level and alpha in [0, 1], channels in [0, 255]) always give accepted commands |
| FrontendCommand.ChannelIsByte | BusGui/frontend/src/models/Command.ts:152-154 | a channel in [0, 255] scaled by an alpha in [0, 1] and rounded up is a byte |
| FrontendCommand.SentAsWritten | BusGui/frontend/src/models/Command.ts:147-173 | end to end: a browser command the backend accepts is written so that the controller recovers its type, device, fixture, on-flag and payload |
| BusSocketClient.Admits | BusGui/frontend/src/data/helpers/BusSocket.ts:25 | definition: the gate admits a request only when strictly more than 50 ms have passed since `_lastReq` |
| BusSocketClient.LastReq | BusGui/frontend/src/data/helpers/BusSocket.ts:25-30 | definition: `_lastReq` after a run of requests is the stamp of the last admitted one, or its initial value |
| BusSocketClient.LastReqAfterAccepted | BusGui/frontend/src/data/helpers/BusSocket.ts:25-30 | with a clock that never goes back, `_lastReq` never falls below the stamp of an accepted request |
| BusSocketClient.AcceptedAreSpaced | BusGui/frontend/src/data/helpers/BusSocket.ts:25-30 | any two accepted requests are more than 50 ms apart, so a second request within 50 ms is rejected |
| BusSocketClient.BusSocket.constructor | BusGui/frontend/src/data/helpers/BusSocket.ts:11-17 | `_lastReq` starts at 0 and the listener pool is empty |
| BusSocketClient.BusSocket.RunCommand | BusGui/frontend/src/data/helpers/BusSocket.ts:23-35 | the command is emitted iff now minus `_lastReq` exceeds 50 (strictly), and `_lastReq` becomes the later clock reading; a rejected request resolves false and changes nothing |
| BusSocketClient.BusSocket.AddListener | BusGui/frontend/src/data/helpers/BusSocket.ts:40-42 | the pool is overwritten at `key` only |
| BusSocketClient.BusSocket.RemoveListener | BusGui/frontend/src/data/helpers/BusSocket.ts:47-51 | an existing `key` is removed and the rest is unchanged; a missing key changes nothing |
| BusSocketClient.BusSocket.EmitAll | BusGui/frontend/src/data/helpers/BusSocket.ts:58-62 | distinct registered listeners are invoked with the payload; all of them when none throws, otherwise the run stops right after the first that throws |
| BusSocketClient.NoThrowerCompletes | BusGui/frontend/src/data/helpers/BusSocket.ts:58-62 | when no registered listener throws, `_emitAll` reaches every listener exactly once |
| BusSocketClient.AbortedRunStopsAtThrower | BusGui/frontend/src/data/helpers/BusSocket.ts:58-62 | an aborted fan-out ends with a registered throwing listener, and every earlier invocation returned normally |

## Left out

- Serial port set-up, the `open` event and console logging (BusGui/backend/src/Arduino.ts:30-51) are I/O. `serial.write` is the ghost log `written`.
- `JSON.parse`, UTF-8 decoding and `trim` are the uninterpreted `parse` function. JSON numbers are modelled as integers.
- ArduinoLink.HeartbeatExpected: `parseInt` of `EXPECT_HEARTBEAT_EVERY_SECONDS` is taken as already read. A value that is not a number (NaN) is not modelled; Node would then arm a 1 ms timer.
- ArduinoLink.Arduino.EmitToListeners: a listener that registers or removes listeners while being invoked is not modelled. The pool is read as it stood when the fan-out began.
- BusSocketClient.BusSocket.EmitAll: likewise, a listener that adds or removes pool entries during `_emitAll` is not modelled. `for..in` would visit a key added during the loop or skip a deleted one in ways the model does not follow.
- Whether a listener throws is fixed per callback (the `throws` field of `Callback`). A listener whose throwing depends on the payload, or on the state it observes, cannot be expressed, so the abort and isolation results are about listeners that always throw or never throw.
- BackendCommand.ValidateCommand: a command that is `null` or `undefined`, on which reading `data.device` throws, is not modelled. A number, string or boolean command has no numeric `device`, so the source returns false for it; the model covers that as a command whose fields are all `NotNum`. Non-integer numbers, `NaN` and `Infinity` are not modelled, because their decimal rendering is not covered.
- Text.IntToString: renders every integer as plain decimal digits. JavaScript prints an integer-valued number of magnitude 1e21 or more in exponent form (`1e+21`), and `JSON.parse` has already rounded integers beyond 2^53. Device and fixture are never range-checked, so for such values BackendCommand.FormatRoundTrip and FrontendCommand.SentAsWritten describe the integer the model renders, not the text the source writes.
- Keys such as `__proto__`, which a plain JavaScript object treats specially, are modelled as ordinary map keys in both listener pools.
- FrontendCommand.MakeLedCommand: uses exact reals instead of IEEE doubles, so float rounding in `state.r * state.a` is not modelled. The same holds for FrontendCommand.MakeMosfetCommand.
- BusSocketClient.BusSocket.RunCommand: does not model the socket.io side. That covers the `control-response` subscription that settles an accepted request and the fact that each accepted request adds one more handler. The outcome is only `Rejected` (resolved false) or `AwaitingResponse`.
- Colour helpers (`getRGBA`), the views, and the HTTP/socket server plumbing are presentation or I/O and are not part of this model.
- A relay command variant, fixture-number substitutions and reconnection logic are not present in the code modelled, so they are not modelled.
- A chunk that contains the carriage return is dropped, tail bytes included, exactly as `onData` does (BusGui/backend/src/Arduino.ts:96-103). ArduinoLink.SplitMessageLosesTail states the consequence.
