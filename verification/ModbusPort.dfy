/** The driven Modbus port on the path values take (protocol_modbus/_port.py), and the driven port
    and the field server put together. */
module ModbusPort {
  import opened Rounding
  import opened Floats
  import opened Options
  import opened ModbusCodec
  import opened ServerConfig
  import opened RegisterMaps
  import opened WriteMap
  import opened Readback
  import FieldServer

  datatype ReadOutcome =
    | Read(point: Point) | ReadUnknownTarget | ReadAccessMismatch | ReadNotStarted | ReadFailed

  /** What comes back for a request: the device's answer, a transport failure or error response, or
      an answer with other registers than were asked for. */
  datatype Reply = Answered | Failed | Strange(registers: seq<int>)

  /** How far a write gets: it is carried out and acknowledged, carried out without the
      acknowledgement arriving, or not carried out. */
  datatype Delivery = Acknowledged | AnswerLost | Undelivered

  /** `RawFailure` is a built-in error of the codec that the port does not translate. */
  datatype WriteOutcome =
    | Written | WriteUnknownTarget | WriteAccessMismatch | WriteNotStarted | MissingPayload | WriteFailed
    | RawFailure

  /** The remote device behind the client: two banks of registers. */
  class RemoteDevice {
    const holding: array<Word>
    const inputs: array<Word>

    constructor (holding: array<Word>, inputs: array<Word>)
      ensures this.holding == holding && this.inputs == inputs
    {
      this.holding := holding;
      this.inputs := inputs;
    }

    /** Writing registers; a range outside the bank is answered with an error. */
    method WriteRegisters(address: int, values: seq<Word>) returns (ok: bool)
      modifies holding
      ensures ok <==> 0 <= address && address + |values| <= holding.Length
      ensures ok ==> holding[..] == WriteWords(old(holding[..]), address, values)
      ensures !ok ==> holding[..] == old(holding[..])
    {
      ok := InBank(holding.Length, address, |values|);
      if ok {
        for i := 0 to |values|
          invariant holding[..] == WriteWords(old(holding[..]), address, values[..i])
        {
          WriteOneMore(old(holding[..]), address, values, i);
          holding[address + i] := values[i];
        }
        assert values[..|values|] == values;
      }
    }
  }

  /** `datatype.value`. */
  function DatatypeName(dt: Datatype): string {
    match dt
    case Int16 => "int16"
    case Uint16 => "uint16"
    case Int32 => "int32"
    case Uint32 => "uint32"
    case Float32 => "float32"
  }

  /** `_build_telemetry_point`: run, tick, time and sequence are the caller's to set. */
  function TelemetryPoint(target: string, dt: Datatype, value: Decimal): Point {
    Point("", 0, 0, target, DatatypeName(dt), value, "", Quality.Valid, "protocol_modbus." + target, 0)
  }

  predicate InBank(length: int, address: int, count: int) {
    0 <= address && address + count <= length
  }

  /** `_do_write` of one register for code 6, of all of them for code 16. */
  function WordsSent(fc: int, registers: seq<nat>): seq<nat>
    requires registers != []
  {
    if fc == 6 then registers[..1] else registers
  }

  lemma EncodedAreWords(value: Payload, dt: Datatype, byteOrder: string, wordSwap: bool)
    requires EncodeValue(value, dt, byteOrder, wordSwap).Registers?
    ensures AreWords(EncodeValue(value, dt, byteOrder, wordSwap).words, RegisterCount(dt))
  {
    if dt.Float32? {
      LayoutThenPattern(Pack(ToDouble(value).value).value, 2, byteOrder, wordSwap);
    } else {
      LayoutThenPattern(Unsigned(ToInt(value).value, RegisterCount(dt)), RegisterCount(dt), byteOrder, wordSwap);
    }
  }

  /** What `write` ends in up to the moment it sends, and the registers it would send. */
  function Prepared(c: RegisterConfig, started: bool, payload: Option<Payload>): (WriteOutcome, seq<nat>) {
    if c.access != "write" then (WriteAccessMismatch, [])
    else if !started then (WriteNotStarted, [])
    else if payload.None? then (MissingPayload, [])
    else if payload.value.PyOther? then (WriteFailed, [])
    else
      match EncodeValue(payload.value, c.datatyp, c.byteOrder, c.wordSwap)
      case Registers(words) => (Written, words)
      case RawValueError => (RawFailure, [])
      case RawOverflowError => (RawFailure, [])
      case _ => (WriteFailed, [])
  }

  class ModbusDeviceProtocolPort {
    const registers: map<string, RegisterConfig>
    var client: RemoteDevice?
    var started: bool

    constructor (registers: map<string, RegisterConfig>)
      ensures this.registers == registers && client == null && !started
    {
      this.registers := registers;
      client, started := null, false;
    }

    /** Connecting to a device; a second start changes nothing. */
    method Start(device: RemoteDevice, reachable: bool) returns (failed: bool)
      modifies this
      ensures failed <==> !old(started) && !reachable
      ensures old(started) || !reachable ==> client == old(client) && started == old(started)
      ensures !old(started) && reachable ==> client == device && started
    {
      if started { return false; }
      if !reachable { return true; }
      client, started := device, true;
      return false;
    }

    /** Closing lets go of the client even when the close itself fails. */
    method Stop()
      modifies this
      ensures old(started) && old(client) != null ==> client == null && !started
      ensures !(old(started) && old(client) != null) ==> client == old(client) && started == old(started)
    {
      if !started || client == null { return; }
      client, started := null, false;
    }

    /** An answer of the device carries the registers asked for, from the input registers for code 4
        and from the holding registers for code 3, which is the default; a range outside the bank is
        answered with an error. */
    method ReadTarget(target: string, reply: Reply) returns (outcome: ReadOutcome)
      ensures target !in registers ==> outcome == ReadUnknownTarget
      ensures target in registers ==>
                var c := registers[target];
                if c.access != "read" then outcome == ReadAccessMismatch
                else if client == null then outcome == ReadNotStarted
                else if c.functionCode == None || c.functionCode == Some(3)
                then outcome == ReadFrom(client.holding[..], target, c, reply)
                else outcome == ReadFrom(client.inputs[..], target, c, reply)
      ensures outcome.Read? ==>
                var p := outcome.point;
                && target in registers && p.deviceId == target
                && (match registers[target].datatyp
                    case Int16 => p.metric == "int16"
                    case Uint16 => p.metric == "uint16"
                    case Int32 => p.metric == "int32"
                    case Uint32 => p.metric == "uint32"
                    case Float32 => p.metric == "float32")
                && p.quality == Quality.Valid && p.source == "protocol_modbus." + target
                && p.runId == "" && p.unit == "" && p.tick == p.simulationTime == p.sequence == 0
      ensures outcome.Read? && reply.Strange? ==>
                var c := registers[target];
                DecodedValue(reply.registers, c.datatyp, c.byteOrder, c.wordSwap) == Value(outcome.point.value)
    {
      if target !in registers { return ReadUnknownTarget; }
      var c := registers[target];
      if c.access != "read" { return ReadAccessMismatch; }
      if client == null { return ReadNotStarted; }
      var bank := if ResolveFunctionCode(c) == 3 then client.holding else client.inputs;
      var count := RegisterCount(c.datatyp);
      var answer: seq<int>;
      match reply {
        case Failed => return ReadFailed;
        case Strange(registers) => answer := registers;
        case Answered =>
          if !InBank(bank.Length, c.address, count) { return ReadFailed; }
          answer := bank[c.address..c.address + count];
      }
      var decoded := DecodeRegisters(answer, c.datatyp, c.byteOrder, c.wordSwap);
      match decoded
      case CountMismatch => outcome := ReadFailed;
      case Value(d) => outcome := Read(TelemetryPoint(target, c.datatyp, d));
    }

    /** `delivery` is what becomes of a request within the bank. The refusals come in order, each for
        its own reason. Otherwise the device's bank holds the registers of the value afterwards, the
        first of them alone for code 6, unless the range lies outside the bank or the request was
        not delivered; and nothing else ever changes it. */
    method WriteTarget(target: string, payload: Option<Payload>, delivery: Delivery)
      returns (outcome: WriteOutcome)
      modifies if client == null then {} else {client.holding}
      ensures target !in registers ==> outcome == WriteUnknownTarget
      ensures target in registers ==>
                var c := registers[target];
                if c.access != "write" then outcome == WriteAccessMismatch
                else if client == null then outcome == WriteNotStarted
                else if payload.None? then outcome == MissingPayload
                else if RaisesRaw(payload.value, c.datatyp) then outcome == RawFailure
                else if !Encodable(payload.value, c.datatyp) then outcome == WriteFailed
                else outcome == if delivery.Acknowledged? && InBlock(old(client.holding[..]), c, payload.value)
                                then Written else WriteFailed
      ensures client != null ==>
                client.holding[..] ==
                  if && target in registers && registers[target].access == "write" && payload.Some?
                     && Encodable(payload.value, registers[target].datatyp) && !delivery.Undelivered?
                     && InBlock(old(client.holding[..]), registers[target], payload.value)
                  then WriteWords(old(client.holding[..]), registers[target].address,
                                  OnTheWire(registers[target], payload.value))
                  else old(client.holding[..])
    {
      if target !in registers { return WriteUnknownTarget; }
      var c := registers[target];
      var (result, words) := Prepared(c, client != null, payload);
      PreparedExactly(c, client != null, payload);
      if result != Written { return result; }
      var sent := WordsSent(ResolveFunctionCode(c), words);
      if delivery.Undelivered? { return WriteFailed; }
      var ok := client.WriteRegisters(c.address, sent);
      outcome := if ok && delivery.Acknowledged? then Written else WriteFailed;
    }
  }

  /** What a read through a client comes to. */
  function ReadFrom(bank: seq<Word>, target: string, c: RegisterConfig, reply: Reply): ReadOutcome {
    var count := RegisterCount(c.datatyp);
    match reply
    case Failed => ReadFailed
    case Strange(registers) =>
      if |registers| != count then ReadFailed else ReadAs(registers, target, c)
    case Answered =>
      if !InBank(|bank|, c.address, count) then ReadFailed
      else ReadAs(bank[c.address..c.address + count], target, c)
  }

  function ReadAs(registers: seq<int>, target: string, c: RegisterConfig): ReadOutcome {
    Read(TelemetryPoint(target, c.datatyp,
           PatternValue(Pattern(registers, c.byteOrder, c.wordSwap), c.datatyp)))
  }

  /** The registers of the value as the codec encodes it, the first alone where the code is 6, which
      is also the default for one register. */
  function OnTheWire(c: RegisterConfig, value: Payload): (words: seq<Word>)
    requires Encodable(value, c.datatyp)
    ensures |words| == if c.functionCode == Some(6) || c.datatyp.Int16? || c.datatyp.Uint16? then 1 else 2
  {
    EncodableAreWords(value, c.datatyp, c.byteOrder, c.wordSwap);
    var words := EncodeValue(value, c.datatyp, c.byteOrder, c.wordSwap).words;
    if c.functionCode == Some(6) then [words[0]] else words
  }

  /** They fit the bank at the target's address. */
  predicate InBlock(bank: seq<Word>, c: RegisterConfig, value: Payload)
    requires Encodable(value, c.datatyp)
  {
    Fits(bank, c.address, |OnTheWire(c, value)|)
  }

  lemma EncodableAreWords(value: Payload, dt: Datatype, byteOrder: string, wordSwap: bool)
    requires Encodable(value, dt)
    ensures EncodeValue(value, dt, byteOrder, wordSwap).Registers?
    ensures AreWords(EncodeValue(value, dt, byteOrder, wordSwap).words, if dt.Int16? || dt.Uint16? then 1 else 2)
  {
    AcceptedExactly(value, dt, byteOrder, wordSwap);
    EncodedAreWords(value, dt, byteOrder, wordSwap);
  }

  /** What is prepared, by the circumstances: a refusal for its own reason, else the registers. */
  lemma PreparedExactly(c: RegisterConfig, started: bool, payload: Option<Payload>)
    ensures var (result, words) := Prepared(c, started, payload);
            && (c.access != "write" ==> result == WriteAccessMismatch)
            && (c.access == "write" && !started ==> result == WriteNotStarted)
            && (c.access == "write" && started && payload.None? ==> result == MissingPayload)
            && (c.access == "write" && started && payload.Some? ==>
                  if RaisesRaw(payload.value, c.datatyp) then result == RawFailure
                  else if !Encodable(payload.value, c.datatyp) then result == WriteFailed
                  else && result == Written && words != []
                       && WordsSent(ResolveFunctionCode(c), words) == OnTheWire(c, payload.value))
  {
    if c.access == "write" && started && payload.Some? {
      AcceptedExactly(payload.value, c.datatyp, c.byteOrder, c.wordSwap);
      RawErrorsExactly(payload.value, c.datatyp, c.byteOrder, c.wordSwap);
      if Encodable(payload.value, c.datatyp) {
        EncodableAreWords(payload.value, c.datatyp, c.byteOrder, c.wordSwap);
      }
    }
  }

  // ---- whole values ----

  /** For every accepted profile the registers sent are all of the value's. */
  lemma WritesWholeValue(c: RegisterConfig, value: Payload)
    requires ValidateRegister(c).None? && c.access == "write" && Encodable(value, c.datatyp)
    ensures var e := EncodeValue(value, c.datatyp, c.byteOrder, c.wordSwap);
            e.Registers? && e.words != [] && WordsSent(ResolveFunctionCode(c), e.words) == e.words
  {
    AcceptedExactly(value, c.datatyp, c.byteOrder, c.wordSwap);
    EncodedAreWords(value, c.datatyp, c.byteOrder, c.wordSwap);
    ResolvedCodeFits(c);
  }

  /** The binary32 rounding of a value, as a decimal. */
  function Rounded(value: Payload): Decimal
    requires ToDouble(value).Converted? && Quantized(ToDouble(value).value).Fin?
  {
    FromFinite(Quantized(ToDouble(value).value))
  }

  /** The value that is read back for one that was written: the integer it stands for, or its
      binary32 rounding. */
  ghost predicate ReadBackAs(value: Payload, dt: Datatype, d: Decimal) {
    if dt.Float32?
    then ToDouble(value).Converted? && Quantized(ToDouble(value).value).Fin? && d == Rounded(value)
    else exists v :: StandsFor(value, v) && d == IntDecimal(v)
  }

  /** The read gives a valid point of the target with the value. */
  predicate ReadsValue(outcome: ReadOutcome, target: string, value: Decimal) {
    outcome.Read? && outcome.point.value == value && outcome.point.deviceId == target
    && outcome.point.quality == Quality.Valid
  }

  /** A profile that reads, from the holding registers, what another writes. */
  predicate ReadsWhatIsWritten(reading: RegisterConfig, c: RegisterConfig) {
    && ValidateRegister(c).None? && c.access == "write"
    && ValidateRegister(reading).None? && reading.access == "read" && reading.functionCode != Some(4)
    && reading.address == c.address && reading.datatyp == c.datatyp
    && reading.byteOrder == c.byteOrder && reading.wordSwap == c.wordSwap
  }

  /** For every datatype, byte order and swap: what an accepted profile writes into a bank is read from
      it, through a profile of the same layout, as the integer the value stands for or as its
      binary32 rounding. */
  lemma WrittenIsRead(bank: seq<Word>, c: RegisterConfig, reading: RegisterConfig, value: Payload, target: string)
    returns (d: Decimal)
    requires ReadsWhatIsWritten(reading, c) && Encodable(value, c.datatyp) && InBlock(bank, c, value)
    ensures ReadBackAs(value, c.datatyp, d)
    ensures var after := WriteWords(bank, c.address, OnTheWire(c, value));
            ReadsValue(ReadFrom(after, target, reading, Answered), target, d)
  {
    var words := OnTheWire(c, value);
    WritesWholeValue(c, value);
    assert WriteWords(bank, c.address, words)[c.address..c.address + |words|] == words;
    if c.datatyp.Float32? {
      FloatEncodeThenDecode(value, c.byteOrder, c.wordSwap);
      d := Rounded(value);
    } else {
      var v := EncodeThenDecodeTruncates(value, c.datatyp, c.byteOrder, c.wordSwap);
      d := IntDecimal(v);
    }
  }

  /** An error that is not the port's own leaves `write` exactly for the values whose encoding
      raises one. */
  lemma RawFailuresExactly(c: RegisterConfig, payload: Option<Payload>)
    requires c.access == "write"
    ensures Prepared(c, true, payload).0 == RawFailure <==>
            payload.Some? && !payload.value.PyOther? && RaisesRaw(payload.value, c.datatyp)
  {
    if payload.Some? {
      RawErrorsExactly(payload.value, c.datatyp, c.byteOrder, c.wordSwap);
    }
  }

  // ---- port and server together ----

  /** A big-endian, unswapped `float32` profile of the driven port. */
  predicate PlainFloat(c: RegisterConfig) {
    && ValidateRegister(c).None?
    && c.datatyp.Float32? && c.byteOrder == "big_endian" && !c.wordSwap
  }

  lemma PlainLayout(bits: nat)
    requires bits < 2 * SIGN32
    ensures Layout(bits, 2, "big_endian", false) == [bits / WORD, bits % WORD]
  {
    LayoutExactly(bits, 2, false);
  }

  lemma PlainPattern(words: seq<Word>)
    requires |words| == 2
    ensures Pattern(words, "big_endian", false) == words[0] * WORD + words[1]
  {
    WordsOfBytes(words);
    Bytes2(words);
    From4(BytesOf(words));
    JoinWord(words[0]);
    JoinWord(words[1]);
  }

  lemma PlainDecode(x: Double)
    requires x.Fin? && Pack(x).Some?
    ensures var words := Layout(Pack(x).value, 2, "big_endian", false);
            && |words| == 2 && Quantized(x).Fin?
            && DecodeFloat32(words[0], words[1]) == Some(FromFinite(Quantized(x)))
  {
    PlainLayout(Pack(x).value);
    PackedIsFinite(x);
    Rejoined(Pack(x).value);
    DecodedPattern(Pack(x).value / WORD, Pack(x).value % WORD, Pack(x).value);
  }

  lemma Rejoined(bits: nat)
    requires bits < 2 * SIGN32
    ensures bits / WORD % WORD * WORD + bits % WORD % WORD == bits
  {
  }

  lemma DecodedPattern(high: nat, low: nat, bits: nat)
    requires high % WORD * WORD + low % WORD == bits && Unpack(bits).Fin?
    ensures DecodeFloat32(high, low) == Some(FromFinite(Unpack(bits)))
  {
  }

  /** What the port sends for a value through a plain `float32` profile: code 16 and both words, which
      are decoded to the value's binary32 rounding. */
  lemma PlainSent(c: RegisterConfig, value: Payload)
    requires PlainFloat(c) && c.access == "write" && Encodable(value, Float32)
    ensures var e := EncodeValue(value, Float32, "big_endian", false);
            && e.Registers? && |e.words| == 2 && AreWords(e.words, 2)
            && ResolveFunctionCode(c) == 16 && WordsSent(16, e.words) == e.words
            && ToDouble(value).Converted? && Quantized(ToDouble(value).value).Fin?
            && DecodeFloat32(e.words[0], e.words[1]) == Some(Rounded(value))
  {
    AcceptedExactly(value, Float32, "big_endian", false);
    EncodedAreWords(value, Float32, "big_endian", false);
    ResolvedCodeFits(c);
    PlainDecode(ToDouble(value).value);
  }

  /** A value the driven port writes at a write window's address reaches the server's decoder as
      one command for that window, carrying the binary32 rounding of the value. */
  lemma WriteReachesDecoder(server: Config, k: nat, c: RegisterConfig, value: Payload)
    requires Disjoint(Addresses(server)) && k < |server.writeMap|
    requires PlainFloat(c) && c.access == "write" && c.address == server.writeMap[k].address
    requires Encodable(value, Float32)
    ensures var m := server.writeMap[k];
            var e := EncodeValue(value, Float32, "big_endian", false);
            && e.Registers? && e.words != []
            && ToDouble(value).Converted? && Quantized(ToDouble(value).value).Fin?
            && FieldServer.Hooked(Writable(server.writeMap), ResolveFunctionCode(c), c.address,
                 WordsSent(ResolveFunctionCode(c), e.words))
               == [DecodedWrite(m.targetDeviceId, m.commandType, Rounded(value))]
  {
    PlainSent(c, value);
    OneWindowDecodes(server, k, EncodeValue(value, Float32, "big_endian", false).words);
  }

  /** The request is what the port sends for the value. */
  predicate Sends(c: RegisterConfig, value: Payload, w: FieldServer.MasterWrite) {
    var e := EncodeValue(value, c.datatyp, c.byteOrder, c.wordSwap);
    && e.Registers? && e.words != [] && w.address == c.address
    && w.fc == ResolveFunctionCode(c) && w.words == WordsSent(ResolveFunctionCode(c), e.words)
  }

  /** In every run of the server, whatever else happens, a write the port has got through as the
      `i`-th request is exactly one command: it comes right after the commands of the requests before
      it, among those captured, pending and still in the hook. */
  lemma PortWriteIsOneCommand(server: Config, events: seq<FieldServer.Event>, i: nat, k: nat, c: RegisterConfig,
                              value: Payload)
    requires Accepted(server) && k < |server.writeMap|
    requires PlainFloat(c) && c.access == "write" && c.address == server.writeMap[k].address
    requires Encodable(value, Float32)
    requires i < |FieldServer.Received(FieldServer.Run(server, events))|
    requires Sends(c, value, FieldServer.Received(FieldServer.Run(server, events))[i])
    ensures var s, m := FieldServer.Run(server, events), server.writeMap[k];
            var received := FieldServer.Received(s);
            var before := FieldServer.CommandsOf(server, received[..i]);
            var all := FieldServer.Contents(s.live.buffer) + FieldServer.ArrivalsOf(FieldServer.Todo(s));
            && ToDouble(value).Converted? && Quantized(ToDouble(value).value).Fin?
            && FieldServer.CommandsOf(server, received[..i + 1])
               == before + [(m.targetDeviceId, m.commandType, map["value" := Rounded(value)])]
            && FieldServer.CommandsOf(server, received[..i + 1]) <= all
  {
    SentCommand(server, k, c, value, FieldServer.Received(FieldServer.Run(server, events))[i]);
    FieldServer.RequestAddsCommands(server, events, i);
  }

  lemma SentCommand(server: Config, k: nat, c: RegisterConfig, value: Payload, w: FieldServer.MasterWrite)
    requires Disjoint(Addresses(server)) && k < |server.writeMap|
    requires PlainFloat(c) && c.access == "write" && c.address == server.writeMap[k].address
    requires Encodable(value, Float32) && Sends(c, value, w)
    ensures ToDouble(value).Converted? && Quantized(ToDouble(value).value).Fin?
    ensures var m := server.writeMap[k];
            FieldServer.ArrivalsOf(FieldServer.Hooked(Writable(server.writeMap), w.fc, w.address, w.words))
            == [(m.targetDeviceId, m.commandType, map["value" := Rounded(value)])]
  {
    WriteReachesDecoder(server, k, c, value);
  }

  lemma PortWriteGives(server: Config, k: nat, c: RegisterConfig, value: Payload, w: FieldServer.MasterWrite)
    requires k < |server.writeMap| && c.address == server.writeMap[k].address
    requires PlainFloat(c) && c.access == "write" && Encodable(value, Float32) && Sends(c, value, w)
    ensures |w.words| == 2 && Gives(w, server.writeMap[k])
    ensures ToDouble(value).Converted? && Quantized(ToDouble(value).value).Fin?
    ensures ValueGiven(w, server.writeMap[k]) == Rounded(value)
  {
    PlainSent(c, value);
    assert ValueIn(server.writeMap[k], w.address, w.words) == DecodeFloat32(w.words[0], w.words[1]);
  }

  /** Two registers are read as a finite value exactly when they are its words. */
  lemma ReadingIsInjective(words: seq<Word>, v: Decimal, high: Word, low: Word)
    requires |words| == 2 && DecodeFloat32(high, low) == Some(v)
    ensures DecodedValue(words, Float32, "big_endian", false) == Value(v) <==> words == ValueWords(v)
  {
    var x, y := words[0], words[1];
    assert words == [x, y];
    ReadingIs(x, y);
    ValueAndWords(high, low);
    ReadingIs(high, low);
    if DecodeFloat32(x, y).Some? {
      ValueAndWords(x, y);
    }
  }

  /** The port and the server decode the same numbers; what the server refuses the port reads as no
      number. */
  lemma ReadingIs(high: Word, low: Word)
    ensures var read, decoded := DecodedValue([high, low], Float32, "big_endian", false), DecodeFloat32(high, low);
            read.Value? && if decoded.Some? then read.d == decoded.value && read.d.Number? else !read.d.Number?
  {
    ServerDecodes(high, low);
    ServedPattern([high, low], OfWords((high, low)));
  }

  lemma ServerDecodes(high: Word, low: Word)
    ensures var x := OfWords((high, low));
            DecodeFloat32(high, low) == if x.Fin? then Some(FromFinite(x)) else None
  {
    WordsReduced(high, low);
  }

  lemma WordsReduced(high: Word, low: Word)
    ensures high % WORD * WORD + low % WORD == high * WORD + low
  {
  }

  /** In every run, once a value the port wrote at a window's address has been stored, reading the
      window through the port gives the value's binary32 rounding exactly when of each of its
      registers the last write to store there since, if any, stored the same word. */
  lemma PortReadsBackExactly(server: Config, events: seq<FieldServer.Event>, j: nat, k: nat, c: RegisterConfig,
                             value: Payload, reading: RegisterConfig, target: string)
    requires Accepted(server) && k < |server.writeMap| && j < |FieldServer.Run(server, events).log|
    requires PlainFloat(c) && c.access == "write" && c.address == server.writeMap[k].address
    requires Encodable(value, Float32) && Sends(c, value, FieldServer.Run(server, events).log[j])
    requires PlainFloat(reading) && reading.access == "read" && reading.address == c.address
    ensures var s := FieldServer.Run(server, events);
            && ToDouble(value).Converted? && Quantized(ToDouble(value).value).Fin?
            && (ReadsValue(ReadFrom(s.block, target, reading, Answered), target, Rounded(value))
                <==> Undisturbed(s.log, server.writeMap[k], j))
  {
    var s, m := FieldServer.Run(server, events), server.writeMap[k];
    var w := s.log[j];
    PortWriteGives(server, k, c, value, w);
    ReadbackExactly(server, events, k, j);
    ReadsLastWords(server, events, k);
    ReadingIsInjective(s.block[m.address..m.address + 2], Rounded(value), w.words[0], w.words[1]);
  }

  /** What the port reads where the server serves a point: its binary32 rounding, which may be an
      infinity; a NaN; zero where there is no point yet. */
  function AsServed(point: Option<Point>): Decimal {
    match point
    case None => FromFinite(Fin(false, 0))
    case Some(p) =>
      match ToFloat(p.value)
      case None => QuietNan(false)
      case Some(x) =>
        var y := Quantized(x);
        if y.Fin? then FromFinite(y) else if y.Inf? then Infinite(y.neg) else QuietNan(false)
  }

  /** A read window the server renders is decoded by the driven port to the value served. */
  lemma ServedWindowDecodes(point: Option<Point>, c: RegisterConfig)
    requires PlainFloat(c)
    ensures DecodedValue(PointWords(point), c.datatyp, c.byteOrder, c.wordSwap) == Value(AsServed(point))
  {
    if point.Some? {
      ServedValueDecodes(point.value.value);
    } else {
      assert Magnitude(H32, 0) == 0;
      ServedPattern([0, 0], Fin(false, 0));
    }
  }

  lemma ServedValueDecodes(value: Decimal)
    ensures var w, y := EncodeFloat32(value), Quantized(AsFloat(value));
            DecodedValue([w.0, w.1], Float32, "big_endian", false)
            == Value(if y.Fin? then FromFinite(y) else if y.Inf? then Infinite(y.neg) else QuietNan(false))
    ensures ToFloat(value).None? ==> Quantized(AsFloat(value)).Nan?
  {
    var w := EncodeFloat32(value);
    ServedIsQuantized(value);
    ServedPattern([w.0, w.1], Quantized(AsFloat(value)));
    QuantizedSigns(AsFloat(value));
  }

  lemma ServedPattern(words: seq<Word>, y: Double)
    requires |words| == 2 && OfWords((words[0], words[1])) == y
    ensures DecodedValue(words, Float32, "big_endian", false).Value?
    ensures DecodedValue(words, Float32, "big_endian", false).d
            == if y.Fin? then FromFinite(y) else if y.Inf? then Infinite(y.neg) else QuietNan(false)
  {
    PlainPattern(words);
  }

  /** In every run the port reads, at a read window no master wrote to since its last push, the value
      served for the last point emitted for its device and metric in the first `n` ticks, where `n`
      is no less than the number of ticks the last push completed had seen. */
  lemma PortReadsLastEmitted(server: Config, events: seq<FieldServer.Event>, k: nat, c: RegisterConfig, target: string)
    requires Accepted(server) && k < |server.registerMap|
    requires PlainFloat(c) && c.access == "read" && c.address == server.registerMap[k].address
    ensures var s, m := FieldServer.Run(server, events), server.registerMap[k];
            && |s.shown| == |server.registerMap| && s.complete <= s.shown[k].ticks <= |s.ticks|
            && (FieldServer.Untouched(s.log, s.shown[k].since, m.address) ==>
                  var point := LastEmitted(Emitted(s.ticks[..s.shown[k].ticks]), (m.deviceId, m.metric));
                  ReadsValue(ReadFrom(s.block, target, c, Answered), target, AsServed(point)))
  {
    FieldServer.ReadWindowShowsOneFrame(server, events, k);
    var s, m := FieldServer.Run(server, events), server.registerMap[k];
    ServedWindowDecodes(LastEmitted(Emitted(s.ticks[..s.shown[k].ticks]), (m.deviceId, m.metric)), c);
  }
}
