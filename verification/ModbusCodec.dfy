/** The driven Modbus port's register profile and codec
    (protocol_modbus/_config.py, protocol_modbus/_codec.py). */
module ModbusCodec {
  import opened Rounding
  import opened Floats
  import opened Options

  datatype Datatype = Int16 | Uint16 | Int32 | Uint32 | Float32

  function RegisterCount(dt: Datatype): nat {
    match dt
    case Int16 | Uint16 => 1
    case Int32 | Uint32 | Float32 => 2
  }

  /** The smallest and the largest value of an integer datatype. */
  function IntRange(dt: Datatype): (int, int)
    requires !dt.Float32?
  {
    match dt
    case Int16 => (-0x8000, 0x7FFF)
    case Uint16 => (0, 0xFFFF)
    case Int32 => (-0x8000_0000, 0x7FFF_FFFF)
    case Uint32 => (0, 0xFFFF_FFFF)
  }

  // ---- register profiles ----

  datatype RegisterConfig = RegisterConfig(
    address: int, datatyp: Datatype, access: string, byteOrder: string, wordSwap: bool,
    functionCode: Option<int>, unitId: Option<int>)

  datatype ConfigError =
    | InvalidAddress | InvalidByteOrder | InvalidAccess | InvalidFunctionCode
    | FunctionCodeAccessMismatch | FunctionCodeDatatypeMismatch | InvalidUnitId

  /** `_validate_function_code` and `_validate_function_code_datatype`. */
  function ValidateFunctionCode(fc: int, access: string, dt: Datatype): Option<ConfigError> {
    if fc !in {3, 4, 6, 16} then Some(InvalidFunctionCode)
    else if (access == "read" && fc !in {3, 4}) || (access == "write" && fc !in {6, 16})
    then Some(FunctionCodeAccessMismatch)
    else if fc == 6 && RegisterCount(dt) != 1 then Some(FunctionCodeDatatypeMismatch)
    else None
  }

  /** `_validate_single_register_config`: None when the profile is accepted. */
  function ValidateRegister(c: RegisterConfig): Option<ConfigError> {
    if !(0 <= c.address <= 0xFFFF) then Some(InvalidAddress)
    else if c.byteOrder !in {"big_endian", "little_endian"} then Some(InvalidByteOrder)
    else if c.access !in {"read", "write"} then Some(InvalidAccess)
    else
      var fc := if c.functionCode.None? then None
                else ValidateFunctionCode(c.functionCode.value, c.access, c.datatyp);
      if fc.Some? then fc
      else if c.unitId.Some? && !(1 <= c.unitId.value <= 247) then Some(InvalidUnitId)
      else None
  }

  function ResolveFunctionCode(c: RegisterConfig): int {
    if c.functionCode.Some? then c.functionCode.value
    else if c.access == "read" then 3
    else if RegisterCount(c.datatyp) == 1 then 6
    else 16
  }

  /** The codes a profile may name: 3 or 4 for reading, 16 for writing, and 6 for writing what fits
      one register. */
  predicate CodeFits(fc: int, access: string, dt: Datatype) {
    if access == "read" then fc == 3 || fc == 4
    else fc == 16 || (fc == 6 && (dt.Int16? || dt.Uint16?))
  }

  /** A profile is accepted exactly when each field is in its range and a code it names fits its
      access and datatype. */
  lemma RegisterAcceptedExactly(c: RegisterConfig)
    ensures ValidateRegister(c).None? <==>
            && 0 <= c.address <= 65535
            && (c.byteOrder == "big_endian" || c.byteOrder == "little_endian")
            && (c.access == "read" || c.access == "write")
            && (c.functionCode.Some? ==> CodeFits(c.functionCode.value, c.access, c.datatyp))
            && (c.unitId.Some? ==> 1 <= c.unitId.value <= 247)
  {
  }

  /** The code of an accepted profile: the one it names, and else 3 for reading, 6 for writing a
      datatype of one register and 16 for writing one of two. The code that carries one register is
      only ever resolved for datatypes of one register. */
  lemma ResolvedCodeFits(c: RegisterConfig)
    requires ValidateRegister(c).None?
    ensures c.access == "read" ==> ResolveFunctionCode(c) == if c.functionCode == Some(4) then 4 else 3
    ensures c.access == "write" ==>
              ResolveFunctionCode(c)
              == if c.functionCode == Some(6) then 6
                 else if c.functionCode == None && (c.datatyp.Int16? || c.datatyp.Uint16?) then 6
                 else 16
    ensures ResolveFunctionCode(c) == 6 ==> RegisterCount(c.datatyp) == 1
  {
  }

  // ---- bytes and words ----

  /** `n` unsigned big-endian bytes, for the sizes `struct` is asked for. */
  function BigEndian(u: nat, count: nat): seq<nat> {
    if count == 1 then [u / 256 % 256, u % 256]
    else [u / 0x100_0000 % 256, u / 0x1_0000 % 256, u / 256 % 256, u % 256]
  }

  function Reversed(s: seq<nat>): seq<nat> {
    if |s| == 2 then [s[1], s[0]]
    else if |s| == 4 then [s[3], s[2], s[1], s[0]]
    else s
  }

  function InOrder(bytes: seq<nat>, byteOrder: string): seq<nat> {
    if byteOrder == "big_endian" then bytes else Reversed(bytes)
  }

  function FromBigEndian(bytes: seq<nat>): nat {
    if bytes == [] then 0 else FromBigEndian(bytes[..|bytes| - 1]) * 256 + bytes[|bytes| - 1]
  }

  /** `_bytes_to_registers`. */
  function WordsOf(bytes: seq<nat>): seq<nat>
    requires |bytes| % 2 == 0
  {
    if bytes == [] then [] else [bytes[0] * 256 + bytes[1]] + WordsOf(bytes[2..])
  }

  /** The bytes of registers, high byte first; only the low 16 bits of a register are used. */
  function BytesOf(registers: seq<int>): seq<nat> {
    if registers == [] then []
    else BytesOf(registers[..|registers| - 1])
         + [registers[|registers| - 1] / 256 % 256, registers[|registers| - 1] % 256]
  }

  /** `_registers_to_bytes`. */
  method RegistersToBytes(registers: seq<int>) returns (out: seq<nat>)
    ensures out == BytesOf(registers)
  {
    out := [];
    for i := 0 to |registers|
      invariant out == BytesOf(registers[..i])
    {
      out := out + [registers[i] / 256 % 256];
      out := out + [registers[i] % 256];
      assert registers[..i + 1][..i] == registers[..i];
    }
    assert registers[..|registers|] == registers;
  }

  /** `_apply_word_swap`. */
  function ApplyWordSwap<T>(registers: seq<T>, wordSwap: bool): seq<T> {
    if !wordSwap || |registers| != 2 then registers else [registers[1], registers[0]]
  }

  /** The registers an unsigned pattern of `count` registers is laid out in. */
  function Layout(u: nat, count: nat, byteOrder: string, wordSwap: bool): seq<nat>
    requires count == 1 || count == 2
  {
    ApplyWordSwap(WordsOf(InOrder(BigEndian(u, count), byteOrder)), wordSwap)
  }

  /** The unsigned pattern that registers are read as. */
  function Pattern(registers: seq<int>, byteOrder: string, wordSwap: bool): nat {
    FromBigEndian(InOrder(BytesOf(ApplyWordSwap(registers, wordSwap)), byteOrder))
  }

  // ---- values ----

  /** A command payload value as Python delivers it. */
  datatype Payload = PyBool(b: bool) | PyInt(i: int) | PyFloat(x: Double) | PyDecimal(d: Decimal) | PyOther

  /** What encoding ends in: registers, one of the codec's own errors, or a built-in error that is
      not one of them. */
  datatype Encoded = Registers(words: seq<nat>) | OutOfRange | NonFinite | RawValueError | RawOverflowError

  datatype Decoded = Value(d: Decimal) | CountMismatch

  datatype Conversion<T> = Converted(value: T) | ValueError | OverflowError

  function Whole(num: nat, den: pos): nat {
    num / den
  }

  /** `int(value)`: truncation toward zero. */
  function ToInt(value: Payload): Conversion<int> {
    match value
    case PyBool(b) => Converted(if b then 1 else 0)
    case PyInt(i) => Converted(i)
    case PyFloat(x) =>
      (match x
       case Fin(neg, mag) => Converted(Signed(neg, Whole(mag, UNITS)))
       case Inf(_) => OverflowError
       case Nan(_) => ValueError)
    case PyDecimal(d) =>
      (match d
       case Number(neg, num, den) => Converted(Signed(neg, Whole(num, den)))
       case Infinite(_) => OverflowError
       case _ => ValueError)
    case PyOther => ValueError
  }

  /** `_to_float`. */
  function ToDouble(value: Payload): Conversion<Double> {
    match value
    case PyBool(b) => Converted(NearestDouble(false, if b then 1 else 0, 1))
    case PyInt(i) =>
      var x := NearestDouble(i < 0, Abs(i), 1);
      if x.Inf? then OverflowError else Converted(x)
    case PyFloat(x) => Converted(x)
    case PyDecimal(d) => if ToFloat(d).Some? then Converted(ToFloat(d).value) else ValueError
    case PyOther => ValueError
  }

  /** Two's complement. */
  function Unsigned(v: int, count: nat): nat
    requires count == 1 || count == 2
  {
    v % (if count == 1 then 0x1_0000 else 0x1_0000_0000)
  }

  function SignedValue(u: nat, dt: Datatype): int
    requires !dt.Float32?
  {
    match dt
    case Int16 => if u < 0x8000 then u else u - 0x1_0000
    case Int32 => if u < 0x8000_0000 then u else u - 0x1_0000_0000
    case _ => u
  }

  /** `encode_value_to_registers`. */
  function EncodeValue(value: Payload, dt: Datatype, byteOrder: string, wordSwap: bool): Encoded {
    if dt.Float32? then
      match ToDouble(value)
      case ValueError => if value.PyOther? then NonFinite else RawValueError
      case OverflowError => RawOverflowError
      case Converted(x) =>
        if !x.Fin? then NonFinite
        else if Pack(x).None? then RawOverflowError
        else Registers(Layout(Pack(x).value, 2, byteOrder, wordSwap))
    else
      match ToInt(value)
      case ValueError => if value.PyOther? then OutOfRange else RawValueError
      case OverflowError => RawOverflowError
      case Converted(v) =>
        if !(IntRange(dt).0 <= v <= IntRange(dt).1) then OutOfRange
        else Registers(Layout(Unsigned(v, RegisterCount(dt)), RegisterCount(dt), byteOrder, wordSwap))
  }

  /** The value of a decoded pattern; `repr` of a NaN has no sign. */
  function PatternValue(u: nat, dt: Datatype): Decimal {
    if dt.Float32? then
      var x := Unpack(u);
      match x
      case Fin(_, _) => FromFinite(x)
      case Inf(neg) => Infinite(neg)
      case Nan(_) => QuietNan(false)
    else
      Number(SignedValue(u, dt) < 0, Abs(SignedValue(u, dt)), 1)
  }

  function DecodedValue(registers: seq<int>, dt: Datatype, byteOrder: string, wordSwap: bool): Decoded {
    if |registers| != RegisterCount(dt) then CountMismatch
    else Value(PatternValue(Pattern(registers, byteOrder, wordSwap), dt))
  }

  /** `decode_registers_to_value`. */
  method DecodeRegisters(registers: seq<int>, dt: Datatype, byteOrder: string, wordSwap: bool)
    returns (r: Decoded)
    ensures r == DecodedValue(registers, dt, byteOrder, wordSwap)
  {
    if |registers| != RegisterCount(dt) {
      return CountMismatch;
    }
    var bytes := RegistersToBytes(ApplyWordSwap(registers, wordSwap));
    r := Value(PatternValue(FromBigEndian(InOrder(bytes, byteOrder)), dt));
  }

  // ---- the layout is a bijection ----

  predicate AreWords(registers: seq<int>, count: nat) {
    |registers| == count && forall i :: 0 <= i < count ==> 0 <= registers[i] < 0x1_0000
  }

  function Limit(count: nat): nat {
    if count == 1 then 0x1_0000 else 0x1_0000_0000
  }

  lemma Words2(b: seq<nat>)
    requires |b| == 2
    ensures WordsOf(b) == [b[0] * 256 + b[1]]
  {
    assert b[2..] == [];
  }

  lemma Words4(b: seq<nat>)
    requires |b| == 4
    ensures WordsOf(b) == [b[0] * 256 + b[1], b[2] * 256 + b[3]]
  {
    Words2(b[2..]);
  }

  lemma Bytes1(r: seq<int>)
    requires |r| == 1
    ensures BytesOf(r) == [r[0] / 256 % 256, r[0] % 256]
  {
    assert r[..0] == [];
  }

  lemma Bytes2(r: seq<int>)
    requires |r| == 2
    ensures BytesOf(r) == [r[0] / 256 % 256, r[0] % 256, r[1] / 256 % 256, r[1] % 256]
  {
    Bytes1(r[..1]);
  }

  lemma From2(b: seq<nat>)
    requires |b| == 2
    ensures FromBigEndian(b) == b[0] * 256 + b[1]
  {
    assert b[..1][..0] == [];
    assert FromBigEndian(b[..1]) == b[0];
  }

  lemma From4(b: seq<nat>)
    requires |b| == 4
    ensures FromBigEndian(b) == b[0] * 0x100_0000 + b[1] * 0x1_0000 + b[2] * 256 + b[3]
  {
    From2(b[..2]);
    assert b[..3][..2] == b[..2];
    assert FromBigEndian(b[..3]) == (b[0] * 256 + b[1]) * 256 + b[2];
  }

  lemma Digits2(u: nat)
    requires u < 0x1_0000
    ensures var b := BigEndian(u, 1); b[0] < 256 && b[1] < 256 && b[0] * 256 + b[1] == u
  {
  }

  /** The four bytes of a pattern are the bytes of its two halves. */
  lemma HalvesOf(u: nat)
    requires u < 0x1_0000_0000
    ensures u / 0x100_0000 % 256 == u / 0x1_0000 / 256
    ensures u / 256 % 256 == u % 0x1_0000 / 256
    ensures u % 256 == u % 0x1_0000 % 256
  {
    var h, l := u / 0x1_0000, u % 0x1_0000;
    Division(0x100_0000, h / 256, h % 256 * 0x1_0000 + l, u);
    assert u == 256 * (256 * h + l / 256) + l % 256;
  }

  lemma Digits4(u: nat)
    requires u < 0x1_0000_0000
    ensures var b := BigEndian(u, 2);
            && b[0] < 256 && b[1] < 256 && b[2] < 256 && b[3] < 256
            && b[0] * 256 + b[1] == u / 0x1_0000 && b[2] * 256 + b[3] == u % 0x1_0000
            && b[0] * 0x100_0000 + b[1] * 0x1_0000 + b[2] * 256 + b[3] == u
  {
    HalvesOf(u);
    var h, l := u / 0x1_0000, u % 0x1_0000;
    assert h / 256 * 256 + h % 256 == h && l / 256 * 256 + l % 256 == l;
  }

  lemma FromDigits4(a: nat, b: nat, c: nat, d: nat)
    requires a < 256 && b < 256 && c < 256 && d < 256
    ensures BigEndian(a * 0x100_0000 + b * 0x1_0000 + c * 256 + d, 2) == [a, b, c, d]
  {
    var h, l := a * 256 + b, c * 256 + d;
    var u := a * 0x100_0000 + b * 0x1_0000 + c * 256 + d;
    SplitWord(a, b);
    SplitWord(c, d);
    Division(0x1_0000, h, l, u);
    HalvesOf(u);
    Division(256, a, b, h);
    Division(256, c, d, l);
  }

  lemma FromDigits2(a: nat, b: nat)
    requires a < 256 && b < 256
    ensures BigEndian(a * 256 + b, 1) == [a, b]
  {
  }

  lemma SplitWord(a: nat, b: nat)
    requires a < 256 && b < 256
    ensures a * 256 + b < 0x1_0000
    ensures (a * 256 + b) / 256 % 256 == a && (a * 256 + b) % 256 == b
  {
  }

  lemma JoinWord(w: nat)
    requires w < 0x1_0000
    ensures w / 256 % 256 < 256 && w / 256 % 256 * 256 + w % 256 == w
  {
  }

  predicate AreBytes(bytes: seq<nat>, n: nat) {
    |bytes| == n && forall i :: 0 <= i < n ==> bytes[i] < 256
  }

  lemma BytesOfWords2(a: nat, b: nat)
    requires a < 256 && b < 256
    ensures AreWords(WordsOf([a, b]), 1)
    ensures BytesOf(WordsOf([a, b])) == [a, b]
  {
    SplitWord(a, b);
    Words2([a, b]);
    Bytes1([a * 256 + b]);
  }

  lemma BytesOfWords4(a: nat, b: nat, c: nat, d: nat)
    requires a < 256 && b < 256 && c < 256 && d < 256
    ensures AreWords(WordsOf([a, b, c, d]), 2)
    ensures BytesOf(WordsOf([a, b, c, d])) == [a, b, c, d]
  {
    SplitWord(a, b);
    SplitWord(c, d);
    Words4([a, b, c, d]);
    Bytes2([a * 256 + b, c * 256 + d]);
  }

  lemma BytesOfWordsTwo(bytes: seq<nat>)
    requires AreBytes(bytes, 2)
    ensures AreWords(WordsOf(bytes), 1) && BytesOf(WordsOf(bytes)) == bytes
  {
    var a, b := bytes[0], bytes[1];
    BytesOfWords2(a, b);
    assert bytes == [a, b];
  }

  lemma BytesOfWordsFour(bytes: seq<nat>)
    requires AreBytes(bytes, 4)
    ensures AreWords(WordsOf(bytes), 2) && BytesOf(WordsOf(bytes)) == bytes
  {
    var a, b, c, d := bytes[0], bytes[1], bytes[2], bytes[3];
    BytesOfWords4(a, b, c, d);
    assert bytes == [a, b, c, d];
  }

  lemma BytesOfWords(bytes: seq<nat>)
    requires AreBytes(bytes, 2) || AreBytes(bytes, 4)
    ensures AreWords(WordsOf(bytes), |bytes| / 2)
    ensures BytesOf(WordsOf(bytes)) == bytes
  {
    if |bytes| == 2 {
      BytesOfWordsTwo(bytes);
    } else {
      BytesOfWordsFour(bytes);
    }
  }

  lemma WordsOfBytes(registers: seq<int>)
    requires AreWords(registers, 1) || AreWords(registers, 2)
    ensures AreBytes(BytesOf(registers), 2 * |registers|)
    ensures WordsOf(BytesOf(registers)) == registers
  {
    if |registers| == 1 {
      var v := registers[0];
      assert registers == [v];
      WordsOfBytes1(v);
    } else {
      var v, w := registers[0], registers[1];
      assert registers == [v, w];
      WordsOfBytes2(v, w);
    }
  }

  lemma WordsOfBytes1(v: int)
    requires 0 <= v < 0x1_0000
    ensures AreBytes(BytesOf([v]), 2)
    ensures WordsOf(BytesOf([v])) == [v]
  {
    JoinWord(v);
    Bytes1([v]);
    Words2([v / 256 % 256, v % 256]);
  }

  lemma WordsOfBytes2(v: int, w: int)
    requires 0 <= v < 0x1_0000 && 0 <= w < 0x1_0000
    ensures AreBytes(BytesOf([v, w]), 4)
    ensures WordsOf(BytesOf([v, w])) == [v, w]
  {
    JoinWord(v);
    JoinWord(w);
    Bytes2([v, w]);
    Words4([v / 256 % 256, v % 256, w / 256 % 256, w % 256]);
  }

  /** Laying a pattern out and reading it back. */
  lemma LayoutThenPattern(u: nat, count: nat, byteOrder: string, wordSwap: bool)
    requires count == 1 || count == 2
    requires u < Limit(count)
    ensures AreWords(Layout(u, count, byteOrder, wordSwap), count)
    ensures Pattern(Layout(u, count, byteOrder, wordSwap), byteOrder, wordSwap) == u
  {
    var d := BigEndian(u, count);
    if count == 1 { Digits2(u); From2(d); } else { Digits4(u); From4(d); }
    var b := InOrder(d, byteOrder);
    BytesOfWords(b);
    var words := WordsOf(b);
    assert ApplyWordSwap(ApplyWordSwap(words, wordSwap), wordSwap) == words;
    assert InOrder(b, byteOrder) == d;
  }

  /** Reading registers and laying out what was read. */
  lemma PatternThenLayout(registers: seq<int>, count: nat, byteOrder: string, wordSwap: bool)
    requires count == 1 || count == 2
    requires AreWords(registers, count)
    ensures Pattern(registers, byteOrder, wordSwap) < Limit(count)
    ensures Layout(Pattern(registers, byteOrder, wordSwap), count, byteOrder, wordSwap) == registers
  {
    var words := ApplyWordSwap(registers, wordSwap);
    WordsOfBytes(words);
    var bytes := BytesOf(words);
    var b := InOrder(bytes, byteOrder);
    BytesAgain(b, count);
    assert InOrder(b, byteOrder) == bytes;
    assert ApplyWordSwap(words, wordSwap) == registers;
  }

  /** The bytes of the number that bytes are read as. */
  lemma BytesAgain(b: seq<nat>, count: nat)
    requires (count == 1 || count == 2) && AreBytes(b, 2 * count)
    ensures FromBigEndian(b) < Limit(count)
    ensures BigEndian(FromBigEndian(b), count) == b
  {
    if count == 1 {
      From2(b);
      FromDigits2(b[0], b[1]);
    } else {
      From4(b);
      FromDigits4(b[0], b[1], b[2], b[3]);
    }
  }

  lemma TwosComplement(v: int, dt: Datatype)
    requires !dt.Float32?
    requires IntRange(dt).0 <= v <= IntRange(dt).1
    ensures Unsigned(v, RegisterCount(dt)) < Limit(RegisterCount(dt))
    ensures SignedValue(Unsigned(v, RegisterCount(dt)), dt) == v
  {
  }

  lemma TwosComplementBack(u: nat, dt: Datatype)
    requires !dt.Float32?
    requires u < Limit(RegisterCount(dt))
    ensures IntRange(dt).0 <= SignedValue(u, dt) <= IntRange(dt).1
    ensures Unsigned(SignedValue(u, dt), RegisterCount(dt)) == u
  {
  }

  /** The decimal that decoding gives for an integer. */
  function IntDecimal(v: int): Decimal {
    Number(v < 0, Abs(v), 1)
  }

  /** An integer in range is encoded in words of the datatype's number, and decoded to itself. */
  lemma IntEncodeThenDecode(v: int, dt: Datatype, byteOrder: string, wordSwap: bool)
    requires !dt.Float32?
    requires IntRange(dt).0 <= v <= IntRange(dt).1
    ensures var e := EncodeValue(PyInt(v), dt, byteOrder, wordSwap);
            && e.Registers?
            && AreWords(e.words, RegisterCount(dt))
            && DecodedValue(e.words, dt, byteOrder, wordSwap) == Value(IntDecimal(v))
  {
    TwosComplement(v, dt);
    LayoutThenPattern(Unsigned(v, RegisterCount(dt)), RegisterCount(dt), byteOrder, wordSwap);
  }

  /** Registers of an integer datatype are decoded to a value in range, and that value is encoded
      in the same registers. */
  lemma IntDecodeThenEncode(registers: seq<int>, dt: Datatype, byteOrder: string, wordSwap: bool)
    returns (v: int)
    requires !dt.Float32?
    requires AreWords(registers, RegisterCount(dt))
    ensures IntRange(dt).0 <= v <= IntRange(dt).1
    ensures DecodedValue(registers, dt, byteOrder, wordSwap) == Value(IntDecimal(v))
    ensures EncodeValue(PyDecimal(IntDecimal(v)), dt, byteOrder, wordSwap) == Registers(registers)
    ensures EncodeValue(PyInt(v), dt, byteOrder, wordSwap) == Registers(registers)
  {
    PatternThenLayout(registers, RegisterCount(dt), byteOrder, wordSwap);
    var u := Pattern(registers, byteOrder, wordSwap);
    TwosComplementBack(u, dt);
    v := SignedValue(u, dt);
    EncodeOfInt(v, dt, byteOrder, wordSwap);
  }

  lemma EncodeOfInt(v: int, dt: Datatype, byteOrder: string, wordSwap: bool)
    requires !dt.Float32? && IntRange(dt).0 <= v <= IntRange(dt).1
    ensures var words := Layout(Unsigned(v, RegisterCount(dt)), RegisterCount(dt), byteOrder, wordSwap);
            && EncodeValue(PyInt(v), dt, byteOrder, wordSwap) == Registers(words)
            && EncodeValue(PyDecimal(IntDecimal(v)), dt, byteOrder, wordSwap) == Registers(words)
  {
  }

  /** `num / den` lies strictly between the integer below the range and the one above it. */
  predicate NextToRange(neg: bool, num: nat, den: pos, dt: Datatype)
    requires !dt.Float32?
  {
    (IntRange(dt).0 - 1) * den < Signed(neg, num) < (IntRange(dt).1 + 1) * den
  }

  /** Cutting off the fraction leads into the range exactly from next to it. */
  lemma TruncatedInRange(neg: bool, num: nat, den: pos, dt: Datatype)
    requires !dt.Float32?
    ensures IntRange(dt).0 <= Signed(neg, Whole(num, den)) <= IntRange(dt).1 <==> NextToRange(neg, num, den, dt)
  {
    var q, lo, hi := Whole(num, den), IntRange(dt).0, IntRange(dt).1;
    assert num == q * den + num % den;
    if neg {
      Below(q, 1 - lo, num, den);
      assert (lo - 1) * den == -((1 - lo) * den);
      if q == 0 { assert (hi + 1) * den > 0; }
      assert (hi + 1) * den > 0;
    } else {
      Below(q, hi + 1, num, den);
      assert (1 - lo) * den > 0;
      assert (lo - 1) * den == -((1 - lo) * den);
    }
  }

  lemma Below(q: nat, bound: nat, num: nat, den: pos)
    requires q == Whole(num, den)
    ensures q < bound <==> num < bound * den
  {
    assert num == q * den + num % den;
    if q < bound {
      Times(q + 1, bound, den);
    } else {
      Times(bound, q, den);
    }
  }

  // ---- what can be encoded ----

  /** The values whose encoding raises a built-in error that is none of the codec's own: a NaN or
      an infinity on its way to an integer; on its way to binary32 a signaling NaN, a `float` of
      2^128 - 2^103 or more, and an integer or a decimal of 2^128 - 2^103 - 2^74 or more, which
      rounds to such a `float`. A decimal so large that its `float` is infinite is refused with the
      codec's own error instead. */
  predicate RaisesRaw(value: Payload, dt: Datatype) {
    if dt.Float32? then
      || (value.PyInt? && Abs(value.i) >= SINGLE_LIMIT)
      || (value.PyFloat? && value.x.Fin? && value.x.mag >= OVERFLOW)
      || (value.PyDecimal? && value.d.SignalingNan?)
      || (value.PyDecimal? && value.d.Number?
          && SINGLE_LIMIT * value.d.den <= value.d.num < DOUBLE_LIMIT * value.d.den)
    else
      || (value.PyFloat? && !value.x.Fin?)
      || (value.PyDecimal? && !value.d.Number?)
  }

  lemma RawErrorsExactly(value: Payload, dt: Datatype, byteOrder: string, wordSwap: bool)
    ensures var e := EncodeValue(value, dt, byteOrder, wordSwap);
            && (e.RawValueError? || e.RawOverflowError? <==> RaisesRaw(value, dt))
            && (dt.Float32? && value.PyDecimal? && value.d.Number? && value.d.num >= DOUBLE_LIMIT * value.d.den
                ==> e.NonFinite?)
  {
    if dt.Float32? {
      FloatFailure(value, byteOrder, wordSwap);
      match value
      case PyBool(b) => SmallPacks(if b then 1 else 0);
      case PyInt(i) => FloatOverflowsExactly(i < 0, Abs(i), 1);
      case PyFloat(x) => PackOverflowsExactly(x);
      case PyDecimal(d) => DecimalFailure(d);
      case PyOther =>
    }
  }

  /** What can be encoded, in numbers: for an integer datatype an integer in the range, and a `float`
      or a decimal strictly between the integers next to the range, since its fraction is cut off
      before the check; for binary32 what stays below the limits past which it would raise. */
  predicate Encodable(value: Payload, dt: Datatype) {
    match value
    case PyBool(_) => true
    case PyInt(i) => if dt.Float32? then Abs(i) < SINGLE_LIMIT else IntRange(dt).0 <= i <= IntRange(dt).1
    case PyFloat(x) => x.Fin? && if dt.Float32? then x.mag < OVERFLOW else NextToRange(x.neg, x.mag, UNITS, dt)
    case PyDecimal(d) =>
      d.Number? && if dt.Float32? then d.num < SINGLE_LIMIT * d.den else NextToRange(d.neg, d.num, d.den, dt)
    case PyOther => false
  }

  /** Every payload there is either is encoded, or makes encoding raise, or is refused with the
      codec's own error for its datatype. */
  lemma AcceptedExactly(value: Payload, dt: Datatype, byteOrder: string, wordSwap: bool)
    ensures var e := EncodeValue(value, dt, byteOrder, wordSwap);
            && (e.Registers? <==> Encodable(value, dt))
            && (!Encodable(value, dt) && !RaisesRaw(value, dt)
                ==> e == if dt.Float32? then NonFinite else OutOfRange)
  {
    RawErrorsExactly(value, dt, byteOrder, wordSwap);
    if dt.Float32? {
      FloatAccepted(value, byteOrder, wordSwap);
    } else if value.PyFloat? && value.x.Fin? {
      TruncatedInRange(value.x.neg, value.x.mag, UNITS, dt);
    } else if value.PyDecimal? && value.d.Number? {
      TruncatedInRange(value.d.neg, value.d.num, value.d.den, dt);
    }
  }

  lemma FloatAccepted(value: Payload, byteOrder: string, wordSwap: bool)
    ensures EncodeValue(value, Float32, byteOrder, wordSwap).Registers? <==> Encodable(value, Float32)
  {
    FloatFailure(value, byteOrder, wordSwap);
    match value
    case PyBool(b) => SmallPacks(if b then 1 else 0);
    case PyInt(i) => FloatOverflowsExactly(i < 0, Abs(i), 1);
    case PyFloat(x) => PackOverflowsExactly(x);
    case PyDecimal(d) => if d.Number? { FloatOverflowsExactly(d.neg, d.num, d.den); }
    case PyOther =>
  }

  /** How encoding as binary32 fails, by what converting and packing come to. */
  lemma FloatFailure(value: Payload, byteOrder: string, wordSwap: bool)
    ensures var e, x := EncodeValue(value, Float32, byteOrder, wordSwap), ToDouble(value);
            && (e.RawValueError? <==> x.ValueError? && !value.PyOther?)
            && (e.RawOverflowError? <==>
                x.OverflowError? || (x.Converted? && x.value.Fin? && Pack(x.value).None?))
            && (e.NonFinite? <==> (x.ValueError? && value.PyOther?) || (x.Converted? && !x.value.Fin?))
  {
  }

  lemma DecimalFailure(d: Decimal)
    ensures var x := ToDouble(PyDecimal(d));
            && (x.ValueError? <==> d.SignalingNan?) && !x.OverflowError?
            && (x.Converted? && x.value.Fin? && Pack(x.value).None? <==>
                d.Number? && SINGLE_LIMIT * d.den <= d.num < DOUBLE_LIMIT * d.den)
            && (d.Number? && d.num >= DOUBLE_LIMIT * d.den ==> x.Converted? && !x.value.Fin?)
  {
    if d.Number? {
      FloatOverflowsExactly(d.neg, d.num, d.den);
    }
  }

  lemma SmallPacks(n: nat)
    requires n < 2
    ensures NearestDouble(false, n, 1).Fin? && Pack(NearestDouble(false, n, 1)).Some?
  {
    FloatOverflowsExactly(false, n, 1);
    assert SINGLE_LIMIT > 1;
  }

  // ---- byte order ----

  function SwapBytes(w: nat): nat {
    w % 256 * 256 + w / 256
  }

  function SwapEach(words: seq<nat>): seq<nat> {
    seq(|words|, i requires 0 <= i < |words| => SwapBytes(words[i]))
  }

  /** Little-endian with word swap is big-endian without, each word's bytes exchanged. */
  lemma LittleSwappedIsBigByteSwapped(value: Payload, dt: Datatype)
    requires Encodable(value, dt)
    ensures var e := EncodeValue(value, dt, "big_endian", false);
            e.Registers? && EncodeValue(value, dt, "little_endian", true) == Registers(SwapEach(e.words))
  {
    AcceptedExactly(value, dt, "big_endian", false);
    var count := RegisterCount(dt);
    var u := if dt.Float32? then Pack(ToDouble(value).value).value else Unsigned(ToInt(value).value, count);
    SwappedLayout(u, count);
  }

  lemma SwappedLayout(u: nat, count: nat)
    requires count == 1 || count == 2
    ensures Layout(u, count, "little_endian", true) == SwapEach(Layout(u, count, "big_endian", false))
  {
    var b := BigEndian(u, count);
    SplitWord(b[0], b[1]);
    if count == 1 {
      Words2(b);
      Words2(Reversed(b));
    } else {
      SplitWord(b[2], b[3]);
      Words4(b);
      Words4(Reversed(b));
    }
  }

  /** The registers of a pattern, in numbers: by default the high word first, and each register
      the number it is; word swap exchanges the two words, little-endian order reverses all bytes. */
  lemma LayoutExactly(u: nat, count: nat, wordSwap: bool)
    requires (count == 1 && u < 0x1_0000) || (count == 2 && u < 0x1_0000_0000)
    ensures Layout(u, count, "big_endian", wordSwap)
            == if count == 1 then [u]
               else if wordSwap then [u % 0x1_0000, u / 0x1_0000]
               else [u / 0x1_0000, u % 0x1_0000]
    ensures Layout(u, count, "little_endian", wordSwap)
            == if count == 1 then [SwapBytes(u)]
               else if wordSwap then [SwapBytes(u / 0x1_0000), SwapBytes(u % 0x1_0000)]
               else [SwapBytes(u % 0x1_0000), SwapBytes(u / 0x1_0000)]
  {
    if count == 1 { OneWord(u); } else { TwoWords(u); }
  }

  lemma OneWord(u: nat)
    requires u < 0x1_0000
    ensures WordsOf(BigEndian(u, 1)) == [u] && WordsOf(Reversed(BigEndian(u, 1))) == [SwapBytes(u)]
  {
    var b := BigEndian(u, 1);
    Digits2(u);
    Words2(b);
    Words2(Reversed(b));
    SplitWord(b[0], b[1]);
  }

  lemma TwoWords(u: nat)
    requires u < 0x1_0000_0000
    ensures WordsOf(BigEndian(u, 2)) == [u / 0x1_0000, u % 0x1_0000]
    ensures WordsOf(Reversed(BigEndian(u, 2))) == [SwapBytes(u % 0x1_0000), SwapBytes(u / 0x1_0000)]
  {
    var b := BigEndian(u, 2);
    WordsOfPattern(u);
    Words4(b);
    Words4(Reversed(b));
  }

  lemma WordsOfPattern(u: nat)
    requires u < 0x1_0000_0000
    ensures var b := BigEndian(u, 2);
            && b[0] * 256 + b[1] == u / 0x1_0000 && b[2] * 256 + b[3] == u % 0x1_0000
            && b[1] * 256 + b[0] == SwapBytes(u / 0x1_0000) && b[3] * 256 + b[2] == SwapBytes(u % 0x1_0000)
  {
    var b := BigEndian(u, 2);
    Digits4(u);
    Division(0x1_0000, b[0] * 256 + b[1], b[2] * 256 + b[3], u);
    Division(256, b[0], b[1], u / 0x1_0000);
    Division(256, b[2], b[3], u % 0x1_0000);
  }

  // ---- what integer registers hold ----

  /** The registers of an integer, in numbers: a value that is not negative stands there as it is, a
      negative one less than the power of two past the pattern; the high word comes first. */
  lemma IntegerWords(v: int, dt: Datatype)
    requires !dt.Float32? && IntRange(dt).0 <= v <= IntRange(dt).1
    ensures EncodeValue(PyInt(v), dt, "big_endian", false)
            == Registers(if dt.Int16? || dt.Uint16? then [if v >= 0 then v else v + 0x1_0000]
                         else var u := if v >= 0 then v else v + 0x1_0000_0000; [u / 0x1_0000, u % 0x1_0000])
  {
    TwosComplement(v, dt);
    LayoutExactly(Unsigned(v, RegisterCount(dt)), RegisterCount(dt), false);
  }

  /** `v` is the number without its fraction. */
  predicate Truncation(v: int, neg: bool, num: nat, den: pos) {
    Abs(v) * den <= num < (Abs(v) + 1) * den && (v > 0 ==> !neg) && (v < 0 ==> neg)
  }

  /** The integer a payload stands for: a bool is 0 or 1, a `float` or decimal loses its fraction. */
  predicate StandsFor(value: Payload, v: int) {
    match value
    case PyBool(b) => v == if b then 1 else 0
    case PyInt(i) => v == i
    case PyFloat(x) => x.Fin? && Truncation(v, x.neg, x.mag, UNITS)
    case PyDecimal(d) => d.Number? && Truncation(v, d.neg, d.num, d.den)
    case PyOther => false
  }

  /** Whatever can be encoded as an integer is decoded as the integer it stands for. */
  lemma EncodeThenDecodeTruncates(value: Payload, dt: Datatype, byteOrder: string, wordSwap: bool) returns (v: int)
    requires !dt.Float32? && Encodable(value, dt)
    ensures StandsFor(value, v) && IntRange(dt).0 <= v <= IntRange(dt).1
    ensures var e := EncodeValue(value, dt, byteOrder, wordSwap);
            && e == EncodeValue(PyInt(v), dt, byteOrder, wordSwap) && e.Registers?
            && DecodedValue(e.words, dt, byteOrder, wordSwap) == Value(IntDecimal(v))
  {
    AcceptedExactly(value, dt, byteOrder, wordSwap);
    v := ToInt(value).value;
    Truncates(value);
    IntEncodeThenDecode(v, dt, byteOrder, wordSwap);
  }

  lemma Truncates(value: Payload)
    requires ToInt(value).Converted?
    ensures StandsFor(value, ToInt(value).value)
  {
    match value
    case PyFloat(x) => TruncationIs(x.neg, x.mag, UNITS);
    case PyDecimal(d) => TruncationIs(d.neg, d.num, d.den);
    case _ =>
  }

  lemma TruncationIs(neg: bool, num: nat, den: pos)
    ensures Truncation(Signed(neg, Whole(num, den)), neg, num, den)
  {
    var q := Whole(num, den);
    assert num == q * den + num % den;
    assert (q + 1) * den == q * den + den;
  }

  // ---- float32 ----

  /** A value below the limits of binary32 is encoded, and decoded as its binary32 rounding. */
  lemma FloatEncodeThenDecode(value: Payload, byteOrder: string, wordSwap: bool)
    requires Encodable(value, Float32)
    ensures var e := EncodeValue(value, Float32, byteOrder, wordSwap);
            && e.Registers? && ToDouble(value).Converted?
            && AreWords(e.words, 2)
            && Quantized(ToDouble(value).value).Fin?
            && DecodedValue(e.words, Float32, byteOrder, wordSwap)
               == Value(FromFinite(Quantized(ToDouble(value).value)))
  {
    AcceptedExactly(value, Float32, byteOrder, wordSwap);
    var x := ToDouble(value).value;
    LayoutThenPattern(Pack(x).value, 2, byteOrder, wordSwap);
    PackedIsFinite(x);
  }

  lemma PackedIsFinite(x: Double)
    requires x.Fin? && Pack(x).Some?
    ensures Quantized(x).Fin? && Quantized(x) == Unpack(Pack(x).value)
  {
    SignField(x.neg, Round(H32, x.mag, SCALE));
  }

  /** The number a payload is, exactly. */
  function Exact(value: Payload): Decimal
    requires Encodable(value, Float32)
  {
    match value
    case PyBool(b) => Number(false, if b then 1 else 0, 1)
    case PyInt(i) => Number(i < 0, Abs(i), 1)
    case PyFloat(x) => FromFinite(x)
    case PyDecimal(d) => d
  }

  /** The driven codec and the server's encoder agree: whatever can be encoded as float32 gets, in the
      default layout, the words the server gives the number the payload is. */
  lemma CodecMatchesServer(value: Payload)
    requires Encodable(value, Float32) && (value.PyFloat? ==> IsDouble(value.x))
    ensures var w := EncodeFloat32(Exact(value));
            EncodeValue(value, Float32, "big_endian", false) == Registers([w.0, w.1])
  {
    AcceptedExactly(value, Float32, "big_endian", false);
    if value.PyFloat? { FloatOfFinite(value.x); }
    SameFloat(value);
    LayoutExactly(Pack(ToDouble(value).value).value, 2, false);
  }

  lemma SameFloat(value: Payload)
    requires Encodable(value, Float32) && ToDouble(value).Converted?
    requires value.PyFloat? ==> ToFloat(FromFinite(value.x)) == Some(value.x)
    ensures AsFloat(Exact(value)) == ToDouble(value).value
  {
  }

  /** Registers of a finite pattern are decoded to a decimal that is encoded in them again. */
  lemma FloatDecodeThenEncode(registers: seq<int>, byteOrder: string, wordSwap: bool)
    requires AreWords(registers, 2)
    requires IsFinitePattern(Pattern(registers, byteOrder, wordSwap))
    ensures var d := DecodedValue(registers, Float32, byteOrder, wordSwap);
            d.Value? && EncodeValue(PyDecimal(d.d), Float32, byteOrder, wordSwap) == Registers(registers)
  {
    PatternThenLayout(registers, 2, byteOrder, wordSwap);
    EncodeOfUnpacked(Pattern(registers, byteOrder, wordSwap), byteOrder, wordSwap);
  }

  /** What a finite pattern stands for is encoded in the layout of the pattern. */
  lemma EncodeOfUnpacked(u: nat, byteOrder: string, wordSwap: bool)
    requires u < 0x1_0000_0000 && IsFinitePattern(u)
    ensures EncodeValue(PyDecimal(FromFinite(Unpack(u))), Float32, byteOrder, wordSwap)
            == Registers(Layout(u, 2, byteOrder, wordSwap))
  {
    UnpackedIsDouble(u);
    FloatOfFinite(Unpack(u));
    PackUnpack(u);
  }

  // ---- witnesses ----

  /** A value that raises: 4 * 10^38, past the largest binary32 number of about 3.4 * 10^38. */
  lemma LargeDecimalRaises(byteOrder: string, wordSwap: bool)
    ensures EncodeValue(PyDecimal(Number(false, 400_000_000_000_000_000_000_000_000_000_000_000_000, 1)),
                        Float32, byteOrder, wordSwap).RawOverflowError?
  {
    var n: nat := 400_000_000_000_000_000_000_000_000_000_000_000_000;
    LimitsAround(n, 970);
    RawErrorsExactly(PyDecimal(Number(false, n, 1)), Float32, byteOrder, wordSwap);
  }

  lemma LimitsAround(n: nat, l: nat)
    requires n == 400_000_000_000_000_000_000_000_000_000_000_000_000 && l == 970
    ensures SINGLE_LIMIT <= n < DOUBLE_LIMIT
  {
    LimitsAre(1074, 74, l);
    PowerValues();
    assert Pow2(22) == H32 / 2 && Pow2(24) == 2 * H32;
    PowerSum(52, 22);
    PowerSum(52, 52);
    PowerSum(104, 24);
    PowerIncreasing(128, l);
  }

  /** The decimal -0.9 and the `float` -0.5 lie below the range of `uint16`, and are encoded as 0. */
  lemma NegativeFractionAccepted()
    ensures EncodeValue(PyDecimal(Number(true, 9, 10)), Uint16, "big_endian", false) == Registers([0])
    ensures EncodeValue(PyFloat(Fin(true, UNITS / 2)), Uint16, "big_endian", false) == Registers([0])
  {
    LayoutExactly(0, 1, false);
    assert UNITS / 2 < UNITS;
    Division(UNITS, 0, UNITS / 2, UNITS / 2);
  }
}
