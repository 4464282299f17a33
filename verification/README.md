# Grid-gym: adapters, replay and checks, modelled and proved

A Dafny model of the parts of grid-gym in which several writers, several encodings or several
failures meet. `dafny verify dfyconfig.toml` checks all of it.

**The Modbus field server** is the core. Telemetry goes into a last-value projection
(`RegisterMaps`). A refresh task pushes `float32` windows from it into a block of holding registers
that remote masters write to as well. A hook decodes the setpoint windows of such a write
(`WriteMap`) into an inbound buffer, which the tick loop drains and captures, and the capture is
turned into commands that can be replayed (`InboundBuffer`). `FieldServer` has the objects with
their methods and, over the same functions, a system of atomic steps in which ticks, single window
pushes, the stages of master requests and drains fall in any order and any number. `Readback` says
what a master that polls a setpoint window finds there, against the commands given. `ServerConfig`
is the profile that all of this is set up from.

**The codecs.** `Rounding` is rounding to nearest, ties to even, into a binary format with gradual
underflow (IEEE 754-2019, sections 3.4 and 4.3.1), on all non-negative rationals. `Floats` builds
`float`, `struct.pack` and the server's `float32` words on it, with signed zero and subnormals.
`ModbusCodec` is the driven port's codec for five datatypes, two byte orders and word swap
(register layout as in section 4.2 of the MODBUS Application Protocol Specification V1.1b3), and
`ModbusPort` the port itself and its meeting with the running server.

**Around them**: the span wrapper and the communication-failure wrapper with the trace adapter's
table of open spans (`PortWrappers`), import-cycle detection (`ImportCycles`) and cyclomatic
complexity (`Complexity`) of the architecture checker, drop-oldest queues (`DropOldest`), MQTT
topics and queues (`MqttRouting`), the coercion of scenario documents (`ScenarioCoercion`), the DC
current of a battery frame (`DcCurrent`) and the stored form of adapter names (`AdapterNames`).
`Sorting` and `Strings` hold what Python's `sorted` and string order are used for, `Options` the
value that may be absent.

Code that changes things in steps is a class or a method with loops, proved against a function of
the old state; the theorems are lemmas about those functions and about runs of them.

## What the code does that its documentation does not say

Where a promise fails, one member has the exact condition and another an input for which it does.

- The driven codec lets built-in errors through that the port does not translate
  (`ModbusCodec.RawErrorsExactly`, `ModbusPort.RawFailuresExactly`): as float32 a `float`
  of magnitude 2^128 - 2^103 or more, and an integer or a decimal of 2^128 - 2^103 - 2^74 or more,
  which rounds to such a `float`, raises a plain `OverflowError` out of `write`, where the
  documentation promises a typed error. A decimal of
  2^1024 - 2^970 or more gets the typed error after all, since its `float` is infinite. The server's
  own encoder saturates instead. `ModbusCodec.LargeDecimalRaises` has 4 * 10^38.
- For integer datatypes the fraction of a decimal or a `float` is cut off before the range is
  checked, so that what lies strictly between the integers next to the range is accepted
  (`ModbusCodec.AcceptedExactly`), as the decimal -0.9 and the `float` -0.5 are for `uint16`
  (`ModbusCodec.NegativeFractionAccepted`).
- The span wrapper promises that a span is ended even when the `latency` event fails. That holds
  for best-effort exceptions only: over any run the spans left open are exactly those whose
  `latency` event raised another one (`PortWrappers.RunLeavesOpenExactly`,
  `PortWrappers.SpanCanStayOpen`).
- The materialized command stream is said to replay the live run. Tick by tick it does always
  (`InboundBuffer.ReplayEqualsLive`). As one whole stream it does exactly when simulation time never
  goes back from one drain that finds a write waiting to the next such drain
  (`InboundBuffer.WholeReplayExactly`), so for a loop whose time never goes back it does
  (`InboundBuffer.OrderedRunReplaysWhole`), and for other runs it may not
  (`InboundBuffer.WholeReplayCanFail`).
- The write hook's documentation names codes 6 and 16; the code reacts to 6, 16 and 23
  (`FieldServer.ModbusServer.OnRegisterAccess`), which is what is modelled. Code 22, the mask write,
  is shown to the hook like any other, but its code decodes to nothing while its word is stored.
- A setpoint a master has given survives every refresh, but the window does not always read as the
  last command: half writes, mask writes and patterns that are not finite change it and give none.
  `Readback.ReadbackExactly` and `Readback.SetpointShowsLastCommand` have the exact condition,
  `Readback.ReadbackCanFail` a run for each of the three, after a setpoint of code 16 or 23.
- The topic check's documentation speaks of topics shared by several devices; the code refuses any
  string met twice (`MqttRouting.ValidateTopics`), so also one device whose telemetry and command
  topics are the same (`MqttRouting.OneDeviceCanClash`).
- Coercion of a scenario raises a bare `TypeError`, not its typed error, exactly when the `type` of
  some command is a list or a mapping and every string coerced before that command is a decimal
  (`ScenarioCoercion.BareErrorExactly`). `ScenarioCoercion.CommandTypeCanRaise` has such a scenario,
  `ScenarioCoercion.TypedErrorComesFirst` one with both faults that gets the typed error.
- Rounding the DC current to 28 digits and then to six decimals is not always rounding once.
  `DcCurrent.RoundedOnceExactly` says for which quotients of power and voltage it is not, and
  `DcCurrent.RoundingTwiceCounts` gives a power and a voltage.

## Model

| member | source | states |
|---|---|---|
| InboundBuffer.InboundCommandBuffer.Enqueue | src/grid_gym/adapters/driving/_inbound_command_buffer.py:78-93 | the whole new state: one more pending write, carrying the arrival number that is returned |
| InboundBuffer.InboundCommandBuffer.DrainDue | src/grid_gym/adapters/driving/_inbound_command_buffer.py:95-124 | the whole new state and the commands: the pending writes in arrival order, captured and handed over one for one, the buffer emptied |
| InboundBuffer.RunIsNumbered | src/grid_gym/adapters/driving/_inbound_command_buffer.py:72-124 | in every interleaving captured and pending writes carry the arrival numbers 0, 1, 2, ... in order, each command matches its capture, and sorting never reorders |
| InboundBuffer.EveryWriteOnce | src/grid_gym/adapters/driving/_inbound_command_buffer.py:78-124 | the i-th write to arrive is the i-th of captured followed by pending: none lost, duplicated or reordered |
| InboundBuffer.CommandIdsUnique | src/grid_gym/adapters/driving/_inbound_command_buffer.py:113-123 | no two commands of a run have the same identity string |
| InboundBuffer.HandedExactly | src/grid_gym/adapters/driving/_inbound_command_buffer.py:95-124 | in every run the k-th command handed over is the k-th write to arrive, named `inbound-cmd-` and the decimal numeral of k without leading zeros, with status `inbound` |
| InboundBuffer.ReplayEqualsLive | src/grid_gym/adapters/driving/_inbound_command_buffer.py:95-165 | for every interleaving and every time t the materialized capture schedules for t exactly what the live run handed over at t, in order |
| InboundBuffer.WholeReplayExactly | src/grid_gym/adapters/driving/_inbound_command_buffer.py:141-165 | the whole materialized stream equals the live stream if and only if the times of the drains that find a write waiting never go back |
| InboundBuffer.OrderedRunReplaysWhole | src/grid_gym/adapters/driving/_inbound_command_buffer.py:141-165 | a run whose drain times never decrease is replayed as one whole stream |
| InboundBuffer.WholeReplayCanFail | src/grid_gym/adapters/driving/_inbound_command_buffer.py:141-165 | a run of two writes, drained at 5 and then at 3, whose materialized stream is not the live one |
| InboundBuffer.MaterializeIgnoresOrder | src/grid_gym/adapters/driving/_inbound_command_buffer.py:141-165 | any permutation of the capture materializes to the same commands |
| FieldServer.ModbusServer.OnRegisterAccess | src/grid_gym/adapters/driving/device_server_modbus/_adapter.py:198-230 | the buffer gains the decoded setpoint windows in order for codes 6, 16 and 23 with values, and nothing otherwise |
| FieldServer.ModbusServer.Push | src/grid_gym/adapters/driving/device_server_modbus/_adapter.py:335-354 | the block gets the windows of one snapshot and keeps every other register, the inputs become the quality flags, the buffer is unchanged |
| FieldServer.SetpointsSurvive | src/grid_gym/adapters/driving/device_server_modbus/_adapter.py:335-354 | in every run of ticks, single pushes, requests and drains both registers of a write window hold the last word a master stored there, or 0 |
| FieldServer.ReadWindowShowsOneFrame | src/grid_gym/adapters/driving/device_server_modbus/_adapter.py:335-354 | in every run a read window no master wrote to since its last push holds both words of one last-emitted value, no older than the last complete push |
| FieldServer.InputsShowQuality | src/grid_gym/adapters/driving/device_server_modbus/_adapter.py:335-354 | in every run a discrete input is set exactly when its mapping's last-emitted point, of the ticks the last complete push had seen, is valid, and never before the first push |
| FieldServer.EveryTickSeen | src/grid_gym/adapters/driving/_field_current_value.py:34-44 | in every run no tick is lost: the frame is that of all ticks of the run in order |
| FieldServer.CommandsAreMasterWrites | src/grid_gym/adapters/driving/device_server_modbus/_adapter.py:97-230 | in every run captured, pending and still-to-be-enqueued writes are, in order and one for one, the finite setpoint windows that masters wrote in full; what pushes set goes through the same hook and adds none |
| FieldServer.HandedAreMasterWrites | src/grid_gym/adapters/driving/device_server_modbus/_adapter.py:198-230 | the k-th command handed to the tick loop is the k-th setpoint masters wrote |
| FieldServer.DrainInRun | src/grid_gym/adapters/driving/_inbound_command_buffer.py:95-124 | in every run a drain hands over, at its own time and in order, all that was captured or pending and not handed over before |
| FieldServer.FieldRunReplays | src/grid_gym/adapters/driving/_inbound_command_buffer.py:95-165 | replay equals live in every run of the whole server |
| FieldServer.OneAtATime | src/grid_gym/adapters/driving/device_server_modbus/_adapter.py:198-354 | on the server's loop thread a push and a request never mix, a request is stored only when its commands are enqueued, and a push neither begins twice nor ends early |
| FieldServer.RequestRuns | src/grid_gym/adapters/driving/device_server_modbus/_adapter.py:211-228 | the separate steps of an undisturbed request amount to the one call of the hook and the store |
| FieldServer.PushRuns | src/grid_gym/adapters/driving/device_server_modbus/_adapter.py:335-354 | the separate steps of an undisturbed push amount to the one call of `Push`: windows and flags of one snapshot, no command |
| Readback.ReadbackExactly | src/grid_gym/adapters/driving/device_server_modbus/_adapter.py:335-354 | in every run a setpoint window reads as a command given for it exactly when, of each of its registers, the last write to store there since, if any, stored the command's word |
| Readback.WholeWritesReadBack | src/grid_gym/adapters/driving/device_server_modbus/_adapter.py:335-354 | in every run whose writes to a window are all whole, finite and under a code the hook decodes, the window reads as the last command, or as zero before the first |
| Readback.SetpointShowsLastCommand | src/grid_gym/adapters/driving/device_server_modbus/_adapter.py:198-230 | between requests of any run, the same exact condition for the last command captured or pending for the window's device and type, when no other window commands them |
| Readback.ReadbackCanFail | src/grid_gym/adapters/driving/device_server_modbus/_adapter.py:198-230 | runs in which a half write, a mask write or a NaN after a setpoint of code 16 or 23 changes the window and adds no command |
| ServerConfig.Validate | src/grid_gym/adapters/driving/device_server_modbus/_config.py:175-218 | accepts exactly the profiles with valid fields, addresses in range and pairwise disjoint windows, and names the first fault: which field, which mapping with which address, or which register |
| ServerConfig.ValidateNoOverlap | src/grid_gym/adapters/driving/device_server_modbus/_config.py:206-218 | the growing set of occupied registers fails if and only if two windows meet, at the first register of the first window that does |
| ServerConfig.BlockCoversExactly | src/grid_gym/adapters/driving/device_server_modbus/_adapter.py:148-158 | the holding block covers every read and write window and ends with the last register of one |
| RegisterMaps.CurrentValueProjection.UpdateFromTick | src/grid_gym/adapters/driving/_field_current_value.py:34-44 | the frame becomes the old one updated with the tick's points, the last of a key winning, swapped in at once |
| RegisterMaps.FrameHoldsLastEmitted | src/grid_gym/adapters/driving/_field_current_value.py:34-50 | after any history of ticks the projection holds for each key the last point ever emitted |
| RegisterMaps.RegisterMap.RefreshFrame | src/grid_gym/adapters/driving/device_server_modbus/_register_map.py:153-177 | one window per read mapping and the quality flags, all from one snapshot |
| RegisterMaps.RegisterMap.Render | src/grid_gym/adapters/driving/device_server_modbus/_register_map.py:138-151 | every register and flag through the address topology built by the constructor, from one snapshot |
| RegisterMaps.RefreshRefinesRender | src/grid_gym/adapters/driving/device_server_modbus/_register_map.py:90-177 | writing the sparse refresh into a zeroed block gives the full rendering at every address, even where windows overlap |
| RegisterMaps.RenderShowsLastEmitted | src/grid_gym/adapters/driving/device_server_modbus/_register_map.py:90-151 | after any ticks an accepted profile renders each window as the encoding of the last emitted point and every other register as 0 |
| RegisterMaps.FlagsShowQuality | src/grid_gym/adapters/driving/device_server_modbus/_register_map.py:111-116 | after any ticks discrete input k is set exactly when there is a mapping k and the last point emitted for it has quality `valid` |
| WriteMap.InboundWriteDecoder.Decode | src/grid_gym/adapters/driving/device_server_modbus/_write_map.py:85-107 | the loop over the sorted windows computes the decoded writes of any range of registers |
| WriteMap.DecodesExactly | src/grid_gym/adapters/driving/device_server_modbus/_write_map.py:73-107 | a write decodes to exactly the windows it covers in full with a finite pattern, one command each, by ascending address |
| WriteMap.DecodeIgnoresListOrder | src/grid_gym/adapters/driving/device_server_modbus/_write_map.py:73-79 | the order in which a profile lists its write windows does not matter |
| WriteMap.SingleRegisterDecodesNothing | src/grid_gym/adapters/driving/device_server_modbus/_write_map.py:85-107 | a write of one register, half a setpoint, never becomes a command |
| Rounding.MagnitudeFormula | src/grid_gym/adapters/driving/device_server_modbus/_register_map.py:71-79 | a bit pattern stands for fraction or hidden bit plus fraction, shifted by the exponent |
| Rounding.RoundNearest | src/grid_gym/adapters/driving/device_server_modbus/_register_map.py:71-79 | no number of the format is nearer to the rational that is rounded, and a tie goes to the even pattern |
| Rounding.RoundMonotoneRational | src/grid_gym/adapters/driving/device_server_modbus/_register_map.py:71-79 | rounding keeps the order of any two rationals |
| Floats.RoundTrip | src/grid_gym/adapters/driving/device_server_modbus/_write_map.py:42-53 | each finite binary32 pattern, negative zero and subnormals included, survives being decoded and encoded again |
| Floats.EncodeNearest | src/grid_gym/adapters/driving/device_server_modbus/_register_map.py:53-79 | a number below 2^128 - 2^103 - 2^74 is served as a finite one with its sign, and no binary32 number is nearer to its `float`, ties to the even significand |
| Floats.FloatNearest | src/grid_gym/adapters/driving/device_server_modbus/_register_map.py:70-73 | the `float` of a number below 2^1024 - 2^970 has its sign, and no binary64 number is nearer to the number, ties to the even significand |
| Floats.EncodeMonotone | src/grid_gym/adapters/driving/device_server_modbus/_register_map.py:53-79 | larger decimals are never served as smaller numbers, through both roundings |
| Floats.EncodeInfiniteExactly | src/grid_gym/adapters/driving/device_server_modbus/_register_map.py:53-79 | encoding is total; it gives an infinity, with the sign, exactly for infinite decimals and those of at least 2^128 - 2^103 - 2^74 in magnitude, a NaN exactly for NaNs, and decoding refuses the infinity |
| Floats.PackOverflowsExactly | src/grid_gym/adapters/driving/device_server_modbus/_register_map.py:74-77 | packing a `float` overflows exactly from 2^128 - 2^103 on |
| Floats.FloatOverflowsExactly | src/grid_gym/adapters/driving/device_server_modbus/_register_map.py:70-77 | a decimal overflows through both roundings exactly from 2^128 - 2^103 - 2^74 on, and its `float` is infinite exactly from 2^1024 - 2^970 on |
| Floats.DecodeRefusesExactly | src/grid_gym/adapters/driving/device_server_modbus/_write_map.py:42-53 | decoding refuses exactly the patterns of NaN and the infinities |
| ModbusCodec.ResolvedCodeFits | src/grid_gym/adapters/driven/protocol_modbus/_config.py:299-359 | the code of an accepted profile is the one it names, else 3 for reading, 6 for writing one register and 16 for writing two; code 6 only ever meets one-register datatypes |
| ModbusCodec.RegisterAcceptedExactly | src/grid_gym/adapters/driven/protocol_modbus/_config.py:299-341 | a profile is accepted exactly when each field is in its range and a code it names fits access and datatype |
| ModbusCodec.RegistersToBytes | src/grid_gym/adapters/driven/protocol_modbus/_codec.py:262-269 | the loop gives the two bytes of each register, high byte first |
| ModbusCodec.DecodeRegisters | src/grid_gym/adapters/driven/protocol_modbus/_codec.py:149-167 | the composed steps give the value of the pattern the registers are read as, or the count error |
| ModbusCodec.LayoutExactly | src/grid_gym/adapters/driven/protocol_modbus/_codec.py:205-278 | the registers of a pattern as numbers in each of the four layouts: high word first by default, words exchanged by swap, all bytes reversed by little-endian order |
| ModbusCodec.IntEncodeThenDecode | src/grid_gym/adapters/driven/protocol_modbus/_codec.py:125-278 | each integer in range is encoded in words 0..65535 of the right number and decoded to itself, for every byte order and swap |
| ModbusCodec.IntDecodeThenEncode | src/grid_gym/adapters/driven/protocol_modbus/_codec.py:125-278 | any registers of an integer datatype decode to a value in range that is encoded in the same registers |
| ModbusCodec.IntegerWords | src/grid_gym/adapters/driven/protocol_modbus/_codec.py:205-216 | the registers of an integer as numbers: itself, or for a negative one its two's complement, the high word first |
| ModbusCodec.EncodeThenDecodeTruncates | src/grid_gym/adapters/driven/protocol_modbus/_codec.py:125-189 | every payload an integer datatype accepts, be it a bool, an integer, a `float` or a decimal, is decoded as the integer it stands for, without its fraction |
| ModbusCodec.AcceptedExactly | src/grid_gym/adapters/driven/protocol_modbus/_codec.py:125-226 | in numbers, exactly which payloads of every kind and datatype are encoded; what is neither encoded nor raises a foreign error gets the one typed error of its datatype |
| ModbusCodec.LittleSwappedIsBigByteSwapped | src/grid_gym/adapters/driven/protocol_modbus/_codec.py:205-278 | little-endian with swap is big-endian without, the bytes of each word exchanged, for everything that can be encoded |
| ModbusCodec.FloatEncodeThenDecode | src/grid_gym/adapters/driven/protocol_modbus/_codec.py:218-241 | every payload below the limits of float32 is encoded, and decoded as its binary32 rounding |
| ModbusCodec.CodecMatchesServer | src/grid_gym/adapters/driven/protocol_modbus/_codec.py:192-226 | for every payload that float32 accepts the driven codec gives, in the default layout, the words the server's encoder gives the number the payload is |
| ModbusCodec.FloatDecodeThenEncode | src/grid_gym/adapters/driven/protocol_modbus/_codec.py:218-241 | registers of a finite pattern decode to a decimal that is encoded in them again |
| ModbusCodec.RawErrorsExactly | src/grid_gym/adapters/driven/protocol_modbus/_codec.py:125-226 | exactly which values, by their own magnitude, make encoding raise an error that is none of the codec's own |
| ModbusCodec.LargeDecimalRaises | src/grid_gym/adapters/driven/protocol_modbus/_codec.py:192-226 | 4 * 10^38 as float32 raises such an error |
| ModbusCodec.NegativeFractionAccepted | src/grid_gym/adapters/driven/protocol_modbus/_codec.py:175-189 | the decimal -0.9 and the `float` -0.5 as uint16 are encoded as 0 |
| ModbusPort.ModbusDeviceProtocolPort.ReadTarget | src/grid_gym/adapters/driven/protocol_modbus/_port.py:155-181 | every outcome in the order of the checks, for any answer; holding registers for code 3 and by default, input registers for code 4; the telemetry point field by field |
| ModbusPort.ModbusDeviceProtocolPort.WriteTarget | src/grid_gym/adapters/driven/protocol_modbus/_port.py:183-218 | each refusal for its own reason, in order; otherwise the bank gets exactly the registers the codec encodes, the first alone for code 6, when they fit and the request is delivered; nothing else changes it |
| ModbusPort.WritesWholeValue | src/grid_gym/adapters/driven/protocol_modbus/_port.py:264-287 | for every accepted profile and every value it can encode all words of the value are sent |
| ModbusPort.WrittenIsRead | src/grid_gym/adapters/driven/protocol_modbus/_port.py:155-214 | for every datatype and layout what an accepted profile writes into a bank is read from it as the integer the value stands for, or as its binary32 rounding |
| ModbusPort.RawFailuresExactly | src/grid_gym/adapters/driven/protocol_modbus/_port.py:195-206 | exactly which payloads, by their own magnitude, make `write` end in an error that is not the port's own |
| ModbusPort.WriteReachesDecoder | src/grid_gym/adapters/driven/protocol_modbus/_port.py:183-214 | a big-endian float32 written at a window's address reaches the server as one command with the value's binary32 rounding |
| ModbusPort.ServedWindowDecodes | src/grid_gym/adapters/driving/device_server_modbus/_register_map.py:153-159 | a window the server renders is decoded by the driven port to the value served |
| ModbusPort.PortWriteIsOneCommand | src/grid_gym/adapters/driven/protocol_modbus/_port.py:183-214 | in every run of the server a float32 write of the port is exactly one command, with the binary32 rounding, in the place its request has among the requests |
| ModbusPort.PortReadsBackExactly | src/grid_gym/adapters/driven/protocol_modbus/_port.py:155-181 | in every run the port reads the rounding of a value it wrote back from the window exactly when what was stored there since, if anything, is the same words |
| ModbusPort.PortReadsLastEmitted | src/grid_gym/adapters/driven/protocol_modbus/_port.py:155-181 | in every run the port reads at an untouched read window the served value of a last-emitted point no older than the last complete push |
| ImportCycles.CheckNoCycles | tools/arch_check.py:1051-1107 | nothing is reported if and only if the graph is acyclic, each report is a simple closed walk of imports, no two are rotations, reports ascend by importer and imported module, and every import on a cycle is accounted for |
| ImportCycles.CanonicalIsRotation | tools/arch_check.py:1110-1128 | the canonical form is a rotation of the opened cycle that starts with its least module |
| ImportCycles.CanonicalAgreesExactly | tools/arch_check.py:1110-1128 | two simple closed cycles have the same canonical form if and only if one is a rotation of the other |
| Complexity.CyclomaticComplexity | tools/arch_check.py:1257-1300 | the worklist ends and counts one more than the structurally recursive count that stops at nested scopes |
| Complexity.CountsByKind | tools/arch_check.py:1257-1285 | what each kind of node adds: one for a branch, one per operand past the first, per case and per comprehension condition, nothing for a nested scope and its inside |
| Complexity.AnyOrderCountsTheSame | tools/arch_check.py:1288-1300 | every schedule that takes nodes off the list in any order and puts children back in any order counts the same |
| PortWrappers.OtlpTraceAdapter.EndSpan | src/grid_gym/adapters/driven/telemetry_otlp/traces.py:108-116 | the span leaves the table even when ending it raises; a span that is not open is passed over |
| PortWrappers.OtelSpanWrappedPort.CallWithSpan | src/grid_gym/adapters/driven/_protocol_otel_wrap.py:220-328 | outcome, whether the wrapped port was called, and the trace after it, through try, except and finally |
| PortWrappers.BalancedExactly | src/grid_gym/adapters/driven/_protocol_otel_wrap.py:260-303 | exactly when the open spans after a call are those before it |
| PortWrappers.SpanTellsTheCall | src/grid_gym/adapters/driven/_protocol_otel_wrap.py:284-328 | whatever the side channels do, a call adds to the ended spans exactly its own if that ends, with its name, attributes, the attributed error and then the latency |
| PortWrappers.SpanParts | src/grid_gym/adapters/driven/_protocol_otel_wrap.py:250-328 | the span of a call part by part: name, attributes, the error of a failed read on a reading span and of a failed write on a writing one, then the latency |
| PortWrappers.RunEndsExactly | src/grid_gym/adapters/driven/_protocol_otel_wrap.py:220-328 | over any run and any faults the spans ended are one for each call that ends its own, in order, with that call's name, attributes and events |
| PortWrappers.CommFailureGuardedPort.ReadTarget | src/grid_gym/adapters/driven/_protocol_comm_failure_wrap.py:157-175 | outcome, alarms and trace of a guarded read over the span wrapper, also when the clock raises |
| PortWrappers.RunSurfaces | src/grid_gym/adapters/driven/_protocol_comm_failure_wrap.py:157-235 | in any run through both wrappers, whatever the side channels raise, each call surfaces by its own circumstances alone, and every alarm that was kept stays, in order |
| PortWrappers.AlarmsHaveCauses | src/grid_gym/adapters/driven/_protocol_comm_failure_wrap.py:210-235 | each alarm of a run has a failed read of its own, in order, and tells it field by field: code, target, time, run, cause |
| PortWrappers.FailedReadIsMissing | src/grid_gym/adapters/driven/_protocol_comm_failure_wrap.py:157-235 | in any run a failed read whose side channels stay best-effort gives a zero of quality `missing` with its target, run and time, and an alarm of the same time if one is kept |
| PortWrappers.RunLeavesOpenExactly | src/grid_gym/adapters/driven/_protocol_otel_wrap.py:260-303 | after any run the open spans are those open before, unchanged, and exactly those whose `latency` event raised past the best-effort tuple |
| PortWrappers.SpanCanStayOpen | src/grid_gym/adapters/driven/_protocol_otel_wrap.py:284-303 | a call with nothing wrong but its `latency` event leaves its span open |
| PortWrappers.RunIsTransparent | src/grid_gym/adapters/driven/_protocol_comm_failure_wrap.py:157-235 | in any run whose side channels fail only in best-effort ways each outcome is the inner one except that read errors become missing points, and no span stays open |
| DropOldest.InMemoryStream.Publish | src/grid_gym/adapters/driven/telemetry_stream_inmemory/stream.py:39-44 | every queue gains the item, a full one losing its oldest first |
| DropOldest.InMemoryStream.Unsubscribe | src/grid_gym/adapters/driven/alarm_stream_inmemory/stream.py:53-62 | exactly one slot is given back, the others keep their order |
| DropOldest.EverySubscriptionSound | src/grid_gym/adapters/driven/telemetry_stream_inmemory/stream.py:39-55 | in every run each queue is a bounded suffix of what was published since, given items are in order without duplicates, losses happen only to full queues, given, lost and queued are all there is, and what is yielded are the given items of the run asked for, in order |
| DropOldest.PublishReaches | src/grid_gym/adapters/driven/telemetry_stream_inmemory/stream.py:39-44 | after any run a publish reaches every queue as its newest item |
| DropOldest.GetTakesHead | src/grid_gym/adapters/driven/telemetry_stream_inmemory/stream.py:46-55 | after any run a queue that is not empty gives its head, yielded if it is of the run asked for, and no other subscription changes |
| DropOldest.SubscriptionsComeAndGo | src/grid_gym/adapters/driven/telemetry_stream_inmemory/stream.py:46-55 | after any run a new subscription starts empty, and one that ends leaves the others as they are |
| MqttRouting.ValidateTopics | src/grid_gym/adapters/driven/protocol_mqtt/_config.py:193-229 | accepted if and only if each entry is valid and all telemetry and command strings are pairwise distinct; else the first invalid entry, or the first duplicate in order of insertion with its devices, is named |
| MqttRouting.OneDeviceCanClash | src/grid_gym/adapters/driven/protocol_mqtt/_config.py:193-229 | one device with the same telemetry and command topic has a duplicate, with itself twice as its devices |
| MqttRouting.IndexIsInverse | src/grid_gym/adapters/driven/protocol_mqtt/_topic_resolver.py:28-48 | for accepted topics the reverse index is the exact inverse of "device subscribes to topic" |
| MqttRouting.MqttDeviceProtocolPort.OnMessage | src/grid_gym/adapters/driven/protocol_mqtt/_port.py:209-244 | all queues after a message: the decoded point at the end of its device's, nothing for an unknown topic or a payload that cannot be decoded |
| MqttRouting.RoutedInOrder | src/grid_gym/adapters/driven/protocol_mqtt/_port.py:154-173 | over every interleaving a device's returned points followed by its queue are the decodable payloads of its topic in order of arrival |
| MqttRouting.ReadTakesNext | src/grid_gym/adapters/driven/protocol_mqtt/_port.py:154-173 | after any run a read returns the decodable payload next in order, if one has arrived, and leaves the other devices alone |
| MqttRouting.SilentWithoutTopic | src/grid_gym/adapters/driven/protocol_mqtt/_port.py:228-244 | a device without a telemetry topic never gets a point |
| ScenarioCoercion.CoerceDecimals | src/grid_gym/scenario_yaml.py:187-216 | the six sections one after the other compute what the allowlist schema says, error for error |
| ScenarioCoercion.CoerceParams | src/grid_gym/scenario_yaml.py:219-231 | the loop over the block names in any order computes what the schema says |
| ScenarioCoercion.CoerceDecimalFields | src/grid_gym/scenario_yaml.py:243-252 | the loop over the entries computes what the schema says |
| ScenarioCoercion.AllowedExactly | src/grid_gym/scenario_yaml.py:187-332 | the schema leads to a string to be coerced exactly along the listed paths, and to an unusable `type` exactly at commands |
| ScenarioCoercion.CoercesExactly | src/grid_gym/scenario_yaml.py:187-332 | a coerced scenario holds the decimal at each allowed path that held a string, and at every other path the same keys, length or leaf |
| ScenarioCoercion.SucceedsExactly | src/grid_gym/scenario_yaml.py:180-184 | it succeeds if and only if every allowed string is a decimal and every command's `type` can be looked up; the typed error needs a string that is none, the bare one a `type` that cannot |
| ScenarioCoercion.BareErrorExactly | src/grid_gym/scenario_yaml.py:187-311 | which error comes back: the bare one if and only if some command's `type` cannot be looked up and every allowed string of the other sections and of the commands before it is a decimal |
| ScenarioCoercion.TypedErrorComesFirst | src/grid_gym/scenario_yaml.py:187-216 | a scenario with a malformed frequency and an unusable `type` ends in the typed error |
| ScenarioCoercion.CommandTypeCanRaise | src/grid_gym/scenario_yaml.py:292-311 | a scenario with one command whose `type` is an empty list ends in the bare error |
| ScenarioCoercion.Idempotent | src/grid_gym/scenario_yaml.py:187-332 | coercing a coerced document changes nothing |
| DcCurrent.CurrentNear | src/grid_gym/adapters/driven/field_publish_bess_ems/_encoder.py:79-88 | current times voltage differs from the watts by at most 0.55e-6 times the voltage, when the power has at most 28 digits |
| DcCurrent.CurrentMonotone | src/grid_gym/adapters/driven/field_publish_bess_ems/_encoder.py:79-88 | at a positive voltage more power is never less current, through three roundings |
| DcCurrent.CurrentOdd | src/grid_gym/adapters/driven/field_publish_bess_ems/_encoder.py:79-88 | changing the sign of power or voltage changes the sign of the current, traps included |
| DcCurrent.TrapsExactly | src/grid_gym/adapters/driven/field_publish_bess_ems/_encoder.py:84-88 | quantizing traps exactly when the quotient is within half a millionth of 10^22 or beyond, the numerator being the exact product for a power of at most 28 digits |
| DcCurrent.RoundedOnceExactly | src/grid_gym/adapters/driven/field_publish_bess_ems/_encoder.py:84-88 | the current is not the quotient rounded once exactly when the quotient lies next to a midpoint of millionths, on the side of the odd one, within half a step of its 28-digit grid |
| DcCurrent.RoundingTwiceCounts | src/grid_gym/adapters/driven/field_publish_bess_ems/_encoder.py:84-88 | a power of 28 digits and a voltage whose current is 0.000002 where rounding once gives 0.000003 |
| DcCurrent.ThousandfoldExact | src/grid_gym/adapters/driven/field_publish_bess_ems/_encoder.py:88 | the product with 1000 loses nothing of a power of at most 28 digits |
| AdapterNames.EncodesExactly | src/grid_gym/adapters/driven/persistence_postgres/run_repository.py:46-57 | encoding accepts exactly the tuples of valid names in strictly ascending order |
| AdapterNames.ValidExactly | src/grid_gym/hexagon/core/domain/run.py:140-168 | a name is valid exactly when it is not empty and made of lower-case letters, digits and underscores |
| Strings.LessExactly | src/grid_gym/hexagon/core/domain/run.py:158-169 | the order of names and modules is decided at the first place where two strings differ, a prefix coming first |
| AdapterNames.EncodeThenDecode | src/grid_gym/adapters/driven/persistence_postgres/run_repository.py:46-74 | a canonical tuple, the empty one included, survives being stored |
| AdapterNames.DecodeThenEncode | src/grid_gym/adapters/driven/persistence_postgres/run_repository.py:60-74 | an accepted string stands for a canonical tuple and is what that tuple is stored as |
| AdapterNames.DecodesExactly | src/grid_gym/adapters/driven/persistence_postgres/run_repository.py:60-74 | decoding accepts exactly the stored forms of canonical tuples, and reports an invalid name exactly when a part between commas is none |

## Left out

- Sockets, the pymodbus, paho and OpenTelemetry libraries, event loops, threads and locks: each becomes the atomic steps it makes; pymodbus's datastore is an array of words that refuses a range outside it.
- Floats.FromFinite: `Decimal(str(x))` is modelled as the exact value of `x`; the shortest decimal that Python prints is another decimal that `float` takes back to the same double.
- Floats.Pack: payload bits of NaNs are not kept, and `struct`'s NaN pattern is the quiet one.
- Floats.ToFloat: conversion of a `Decimal` is correctly rounded, as CPython's is.
- InboundBuffer.InboundCommandBuffer.Enqueue: the copy of the payload is implicit, since payloads are values.
- ImportCycles.CheckNoCycles: grimp's shortest-chain search is a parameter that finds shortest chains in a graph without self-imports; grimp's own errors, which skip an edge with a message, and the package-prefix filter, which every module of the package passes, are left out.
- PortWrappers.OtelSpanWrappedPort.CallWithSpan: the wrapped port's own state, the clock and the rounding of the latency are parameters.
- MqttRouting.MqttDeviceProtocolPort.OnMessage: decoding a payload, which rests on code that is not part of this model, is a parameter; publishing is left out.
- DropOldest.InMemoryStream.Get: waiting on an empty queue is left out; the step is taken when there is an item.
- ScenarioCoercion.CoerceDecimals: keys are strings, and dates, binaries and sets of YAML are left out; `Decimal(text)` is a parameter. Reading the file and refusing a root that is no mapping are left out.
- DcCurrent.Current: values are exact finite numbers without a sign of zero or a stored exponent, and the exponent limits of the decimal context are not modelled.
- Complexity.CyclomaticComplexity: a tree keeps only what the count looks at.
- ServerConfig.Validate: addresses and ports are integers; error texts are left out, here and everywhere.
- The unit identifier of a request, the preflight bind and the start and stop of the server, the lifecycle of the MQTT port, the other protocols (OPC-UA, DNP3, IEC 61850), routers, repositories, exporters and command-line tools: they would add only easy members.
- Device models, the tick loop, the grid model and the hashing of runs.
