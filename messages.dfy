/*
 * The MODBUS protocol data units (PDUs) the library knows, with their wire
 * encoding (`serialize`), their decoding constructors (the `it` constructors),
 * their `size`, `function_code`, `type` and `operator==`.
 *
 * A PDU on the wire starts with the unit id and the function code; every
 * 16-bit field is big-endian; a list is preceded by its length in bytes,
 * written as one byte (MODBUS Application Protocol Specification V1.1b3,
 * sections 4.1 and 6).
 */
module Messages {
  import opened Types
  import opened Bytes

  /** One constructor per message struct of the library. The field names
      follow the structs; `values` is a byte list and `words` a register list. */
  datatype Message =
    // requests
    | ReadCoilsRequest(unitId: byte, startAddress: u16, length: u16)
    | ReadDiscreteInputsRequest(unitId: byte, startAddress: u16, length: u16)
    | ReadHoldingRegistersRequest(unitId: byte, startAddress: u16, length: u16)
    | ReadInputRegistersRequest(unitId: byte, startAddress: u16, length: u16)
      /** `value` is a `coil_status_t`, which can hold any 16-bit value. */
    | WriteSingleCoilRequest(unitId: byte, startAddress: u16, value: u16)
    | WriteSingleRegisterRequest(unitId: byte, startAddress: u16, value: u16)
    | WriteMultipleCoilsRequest(unitId: byte, startAddress: u16, length: u16, values: seq<byte>)
    | WriteMultipleRegistersRequest(unitId: byte, startAddress: u16, length: u16, words: seq<u16>)
    | MaskWriteRegisterRequest(unitId: byte, startAddress: u16, andMask: u16, orMask: u16)
    | ReadWriteRegistersRequest(unitId: byte, readStartAddress: u16, readNumRegisters: u16,
                                writeStartAddress: u16, writeNumRegisters: u16, words: seq<u16>)
    // responses
    | ReadCoilsResponse(unitId: byte, values: seq<byte>)
    | ReadDiscreteInputsResponse(unitId: byte, values: seq<byte>)
    | ReadHoldingRegistersResponse(unitId: byte, values: seq<byte>)
    | ReadInputRegistersResponse(unitId: byte, values: seq<byte>)
    | WriteSingleCoilResponse(unitId: byte, startAddress: u16, isOn: bool)
    | WriteSingleRegisterResponse(unitId: byte, startAddress: u16, value: u16)
    | WriteMultipleCoilsResponse(unitId: byte, startAddress: u16, length: u16)
    | WriteMultipleRegistersResponse(unitId: byte, startAddress: u16, length: u16)
    | MaskWriteRegisterResponse(unitId: byte, startAddress: u16, andMask: u16, orMask: u16)
    | ReadWriteRegistersResponse(unitId: byte, words: seq<u16>)
    | ExceptionResponse(unitId: byte, functionCode: byte, exceptionCode: byte)

  /** The message types themselves: what a C++ template parameter `T` names. */
  datatype Kind =
    | ReadCoilsRequest | ReadDiscreteInputsRequest | ReadHoldingRegistersRequest
    | ReadInputRegistersRequest | WriteSingleCoilRequest | WriteSingleRegisterRequest
    | WriteMultipleCoilsRequest | WriteMultipleRegistersRequest | MaskWriteRegisterRequest
    | ReadWriteRegistersRequest
    | ReadCoilsResponse | ReadDiscreteInputsResponse | ReadHoldingRegistersResponse
    | ReadInputRegistersResponse | WriteSingleCoilResponse | WriteSingleRegisterResponse
    | WriteMultipleCoilsResponse | WriteMultipleRegistersResponse | MaskWriteRegisterResponse
    | ReadWriteRegistersResponse
    | ExceptionResponse

  function KindOf(m: Message): Kind
  {
    match m
    case ReadCoilsRequest(_, _, _) => Kind.ReadCoilsRequest
    case ReadDiscreteInputsRequest(_, _, _) => Kind.ReadDiscreteInputsRequest
    case ReadHoldingRegistersRequest(_, _, _) => Kind.ReadHoldingRegistersRequest
    case ReadInputRegistersRequest(_, _, _) => Kind.ReadInputRegistersRequest
    case WriteSingleCoilRequest(_, _, _) => Kind.WriteSingleCoilRequest
    case WriteSingleRegisterRequest(_, _, _) => Kind.WriteSingleRegisterRequest
    case WriteMultipleCoilsRequest(_, _, _, _) => Kind.WriteMultipleCoilsRequest
    case WriteMultipleRegistersRequest(_, _, _, _) => Kind.WriteMultipleRegistersRequest
    case MaskWriteRegisterRequest(_, _, _, _) => Kind.MaskWriteRegisterRequest
    case ReadWriteRegistersRequest(_, _, _, _, _, _) => Kind.ReadWriteRegistersRequest
    case ReadCoilsResponse(_, _) => Kind.ReadCoilsResponse
    case ReadDiscreteInputsResponse(_, _) => Kind.ReadDiscreteInputsResponse
    case ReadHoldingRegistersResponse(_, _) => Kind.ReadHoldingRegistersResponse
    case ReadInputRegistersResponse(_, _) => Kind.ReadInputRegistersResponse
    case WriteSingleCoilResponse(_, _, _) => Kind.WriteSingleCoilResponse
    case WriteSingleRegisterResponse(_, _, _) => Kind.WriteSingleRegisterResponse
    case WriteMultipleCoilsResponse(_, _, _) => Kind.WriteMultipleCoilsResponse
    case WriteMultipleRegistersResponse(_, _, _) => Kind.WriteMultipleRegistersResponse
    case MaskWriteRegisterResponse(_, _, _, _) => Kind.MaskWriteRegisterResponse
    case ReadWriteRegistersResponse(_, _) => Kind.ReadWriteRegistersResponse
    case ExceptionResponse(_, _, _) => Kind.ExceptionResponse
  }

  // ---------------------------------------------------------------------
  // Static properties: function_code() and type()
  // ---------------------------------------------------------------------

  /** The static `function_code()` of each message type. An exception
      response has none: its function code is a field. */
  function FunctionCode(k: Kind): (fc: byte)
    requires k != Kind.ExceptionResponse
    ensures fc != INVALID_FUNCTION_CODE && fc < EXCEPTION_BIT
    ensures fc in {READ_COILS, READ_DISCRETE_INPUTS, READ_HOLDING_REGISTERS, READ_INPUT_REGISTERS,
                   WRITE_SINGLE_COIL, WRITE_SINGLE_REGISTER, WRITE_MULTIPLE_COILS, WRITE_MULTIPLE_REGISTERS,
                   MASK_WRITE_REGISTER, READ_WRITE_MULTIPLE_REGISTERS}
  {
    match k
    case ReadCoilsRequest | ReadCoilsResponse => READ_COILS
    case ReadDiscreteInputsRequest | ReadDiscreteInputsResponse => READ_DISCRETE_INPUTS
    case ReadHoldingRegistersRequest | ReadHoldingRegistersResponse => READ_HOLDING_REGISTERS
    case ReadInputRegistersRequest | ReadInputRegistersResponse => READ_INPUT_REGISTERS
    case WriteSingleCoilRequest | WriteSingleCoilResponse => WRITE_SINGLE_COIL
    case WriteSingleRegisterRequest | WriteSingleRegisterResponse => WRITE_SINGLE_REGISTER
    case WriteMultipleCoilsRequest | WriteMultipleCoilsResponse => WRITE_MULTIPLE_COILS
    case WriteMultipleRegistersRequest | WriteMultipleRegistersResponse => WRITE_MULTIPLE_REGISTERS
    case MaskWriteRegisterRequest | MaskWriteRegisterResponse => MASK_WRITE_REGISTER
    case ReadWriteRegistersRequest | ReadWriteRegistersResponse => READ_WRITE_MULTIPLE_REGISTERS
  }

  predicate IsRequest(k: Kind)
  {
    k in {Kind.ReadCoilsRequest, Kind.ReadDiscreteInputsRequest, Kind.ReadHoldingRegistersRequest,
          Kind.ReadInputRegistersRequest, Kind.WriteSingleCoilRequest, Kind.WriteSingleRegisterRequest,
          Kind.WriteMultipleCoilsRequest, Kind.WriteMultipleRegistersRequest,
          Kind.MaskWriteRegisterRequest, Kind.ReadWriteRegistersRequest}
  }

  /** The static `type()` of each message type. */
  function TypeOf(k: Kind): (t: MessageType)
    ensures t != InvalidPduType
    ensures t == Request <==> IsRequest(k)
  {
    if IsRequest(k) then Request else Response
  }

  /** Request and response of one operation share a function code; no two
      request types (and no two response types) share one. */
  lemma FunctionCodeIdentifiesKind(k1: Kind, k2: Kind)
    requires k1 != Kind.ExceptionResponse && k2 != Kind.ExceptionResponse
    ensures (FunctionCode(k1) == FunctionCode(k2) && TypeOf(k1) == TypeOf(k2)) <==> k1 == k2
  {
  }

  /** `fc | 0x80` */
  function SetExceptionBit(fc: byte): (r: byte)
    ensures r >= EXCEPTION_BIT
  {
    fc % 0x80 + EXCEPTION_BIT
  }

  /** `fc & 0x7F` */
  function ClearExceptionBit(fc: byte): (r: byte)
    ensures r < EXCEPTION_BIT
  {
    fc % 0x80
  }

  /** The function-code byte a message puts on the wire: the static code, or
      for an exception response its function code with the top bit set. */
  function FunctionCodeByte(m: Message): byte
  {
    if m.ExceptionResponse? then SetExceptionBit(m.functionCode) else FunctionCode(KindOf(m))
  }

  // ---------------------------------------------------------------------
  // Sizes
  // ---------------------------------------------------------------------

  /** `size()`: the number of bytes `serialize` writes. */
  function Size(m: Message): (n: nat)
    ensures n >= EXCEPTION_PDU_SIZE
  {
    match m
    case ReadCoilsRequest(_, _, _) => 6
    case ReadDiscreteInputsRequest(_, _, _) => 6
    case ReadHoldingRegistersRequest(_, _, _) => 6
    case ReadInputRegistersRequest(_, _, _) => 6
    case WriteSingleCoilRequest(_, _, _) => 6
    case WriteSingleRegisterRequest(_, _, _) => 6
    case WriteMultipleCoilsRequest(_, _, _, values) => 7 + |values|
    case WriteMultipleRegistersRequest(_, _, _, words) => 7 + 2 * |words|
    case MaskWriteRegisterRequest(_, _, _, _) => 8
    case ReadWriteRegistersRequest(_, _, _, _, _, words) => 11 + 2 * |words|
    case ReadCoilsResponse(_, values) => 3 + |values|
    case ReadDiscreteInputsResponse(_, values) => 3 + |values|
    case ReadHoldingRegistersResponse(_, values) => 3 + |values|
    case ReadInputRegistersResponse(_, values) => 3 + |values|
    case WriteSingleCoilResponse(_, _, _) => 6
    case WriteSingleRegisterResponse(_, _, _) => 6
    case WriteMultipleCoilsResponse(_, _, _) => 6
    case WriteMultipleRegistersResponse(_, _, _) => 6
    case MaskWriteRegisterResponse(_, _, _, _) => 8
    case ReadWriteRegistersResponse(_, words) => 3 + 2 * |words|
    case ExceptionResponse(_, _, _) => EXCEPTION_PDU_SIZE
  }

  // ---------------------------------------------------------------------
  // Encoding
  // ---------------------------------------------------------------------

  /** A list length written into one byte: `(uint8_t)n`, which keeps n mod 256. */
  function CountByte(n: nat): byte
  {
    n % 0x100
  }

  /** The word a write-single-coil request puts on the wire: 0xFF00 when the
      value is `on`, 0x0000 for anything else. */
  function CoilWord(value: u16): u16
  {
    if value == COIL_ON then COIL_ON else COIL_OFF
  }

  /** Everything `serialize` writes after the unit id and function code. */
  function Payload(m: Message): seq<byte>
  {
    match m
    case ReadCoilsRequest(_, start, length) => BigEndian(start) + BigEndian(length)
    case ReadDiscreteInputsRequest(_, start, length) => BigEndian(start) + BigEndian(length)
    case ReadHoldingRegistersRequest(_, start, length) => BigEndian(start) + BigEndian(length)
    case ReadInputRegistersRequest(_, start, length) => BigEndian(start) + BigEndian(length)
    case WriteSingleCoilRequest(_, start, value) => BigEndian(start) + BigEndian(CoilWord(value))
    case WriteSingleRegisterRequest(_, start, value) => BigEndian(start) + BigEndian(value)
    case WriteMultipleCoilsRequest(_, start, length, values) =>
      BigEndian(start) + BigEndian(length) + [CountByte(|values|)] + values
    case WriteMultipleRegistersRequest(_, start, length, words) =>
      BigEndian(start) + BigEndian(length) + [CountByte(2 * |words|)] + WordsToBytes(words)
    case MaskWriteRegisterRequest(_, start, andMask, orMask) => BigEndian(start) + BigEndian(andMask) + BigEndian(orMask)
    case ReadWriteRegistersRequest(_, readStart, readNum, writeStart, writeNum, words) =>
      BigEndian(readStart) + BigEndian(readNum) + BigEndian(writeStart) + BigEndian(writeNum) + [CountByte(2 * |words|)] + WordsToBytes(words)
    case ReadCoilsResponse(_, values) => [CountByte(|values|)] + values
    case ReadDiscreteInputsResponse(_, values) => [CountByte(|values|)] + values
    case ReadHoldingRegistersResponse(_, values) => [CountByte(|values|)] + values
    case ReadInputRegistersResponse(_, values) => [CountByte(|values|)] + values
    case WriteSingleCoilResponse(_, start, isOn) => BigEndian(start) + BigEndian(if isOn then COIL_ON else COIL_OFF)
    case WriteSingleRegisterResponse(_, start, value) => BigEndian(start) + BigEndian(value)
    case WriteMultipleCoilsResponse(_, start, length) => BigEndian(start) + BigEndian(length)
    case WriteMultipleRegistersResponse(_, start, length) => BigEndian(start) + BigEndian(length)
    case MaskWriteRegisterResponse(_, start, andMask, orMask) => BigEndian(start) + BigEndian(andMask) + BigEndian(orMask)
    case ReadWriteRegistersResponse(_, words) => [CountByte(2 * |words|)] + WordsToBytes(words)
    case ExceptionResponse(_, _, exceptionCode) => [exceptionCode]
  }

  /** `serialize`: the bytes of the PDU, unit id first. */
  function Serialize(m: Message): (bs: seq<byte>)
    ensures |bs| == Size(m)
    ensures bs[0] == m.unitId && bs[1] == FunctionCodeByte(m)
  {
    [m.unitId, FunctionCodeByte(m)] + Payload(m)
  }

  // ---------------------------------------------------------------------
  // Decoding
  // ---------------------------------------------------------------------

  /** The big-endian word at offset `i`. */
  function WordAt(s: seq<byte>, i: nat): u16
    requires i + 1 < |s|
  {
    Word(s[i], s[i + 1])
  }

  /** The number of bytes the decoding constructor of `k` reads from `s`:
      the fixed part, then as many list bytes as the count byte says (for a
      register list, the count rounded down to whole registers). `None` when
      `s` ends inside the fixed part. */
  function Needed(k: Kind, s: seq<byte>): Option<nat>
  {
    match k
    case WriteMultipleCoilsRequest => if |s| < 7 then None else Some(7 + s[6] as int)
    case WriteMultipleRegistersRequest => if |s| < 7 then None else Some(7 + 2 * (s[6] as int / 2))
    case ReadWriteRegistersRequest => if |s| < 11 then None else Some(11 + 2 * (s[10] as int / 2))
    case ReadCoilsResponse | ReadDiscreteInputsResponse | ReadHoldingRegistersResponse
       | ReadInputRegistersResponse =>
      if |s| < 3 then None else Some(3 + s[2] as int)
    case ReadWriteRegistersResponse => if |s| < 3 then None else Some(3 + 2 * (s[2] as int / 2))
    case MaskWriteRegisterRequest | MaskWriteRegisterResponse => Some(8)
    case ExceptionResponse => Some(EXCEPTION_PDU_SIZE)
    case _ => Some(6)
  }

  /** The decoding constructor of message type `k` applied to `s`: it reads
      the unit id, skips the function code (an exception response keeps its
      low seven bits) and reads the fields and lists. The C++ constructors
      read past the end of a short buffer; here that gives `None`. */
  function Decode(k: Kind, s: seq<byte>): (r: Option<Message>)
    ensures r.Some? ==> Needed(k, s).Some? && Needed(k, s).value <= |s|
    ensures r.Some? ==> KindOf(r.value) == k
  {
    var n := Needed(k, s);
    if n.None? || |s| < n.value then None
    else
      var u := s[0];
      Some(
        match k
        case ReadCoilsRequest => Message.ReadCoilsRequest(u, WordAt(s, 2), WordAt(s, 4))
        case ReadDiscreteInputsRequest => Message.ReadDiscreteInputsRequest(u, WordAt(s, 2), WordAt(s, 4))
        case ReadHoldingRegistersRequest => Message.ReadHoldingRegistersRequest(u, WordAt(s, 2), WordAt(s, 4))
        case ReadInputRegistersRequest => Message.ReadInputRegistersRequest(u, WordAt(s, 2), WordAt(s, 4))
        case WriteSingleCoilRequest => Message.WriteSingleCoilRequest(u, WordAt(s, 2), WordAt(s, 4))
        case WriteSingleRegisterRequest => Message.WriteSingleRegisterRequest(u, WordAt(s, 2), WordAt(s, 4))
        case WriteMultipleCoilsRequest =>
          Message.WriteMultipleCoilsRequest(u, WordAt(s, 2), WordAt(s, 4), s[7..n.value])
        case WriteMultipleRegistersRequest =>
          Message.WriteMultipleRegistersRequest(u, WordAt(s, 2), WordAt(s, 4), BytesToWords(s[7..n.value]))
        case MaskWriteRegisterRequest =>
          Message.MaskWriteRegisterRequest(u, WordAt(s, 2), WordAt(s, 4), WordAt(s, 6))
        case ReadWriteRegistersRequest =>
          // the write count on the wire is read, then replaced by the number of registers
          var words := BytesToWords(s[11..n.value]);
          Message.ReadWriteRegistersRequest(u, WordAt(s, 2), WordAt(s, 4), WordAt(s, 6), |words|, words)
        case ReadCoilsResponse => Message.ReadCoilsResponse(u, s[3..n.value])
        case ReadDiscreteInputsResponse => Message.ReadDiscreteInputsResponse(u, s[3..n.value])
        case ReadHoldingRegistersResponse => Message.ReadHoldingRegistersResponse(u, s[3..n.value])
        case ReadInputRegistersResponse => Message.ReadInputRegistersResponse(u, s[3..n.value])
        case WriteSingleCoilResponse => Message.WriteSingleCoilResponse(u, WordAt(s, 2), WordAt(s, 4) == COIL_ON)
        case WriteSingleRegisterResponse => Message.WriteSingleRegisterResponse(u, WordAt(s, 2), WordAt(s, 4))
        case WriteMultipleCoilsResponse => Message.WriteMultipleCoilsResponse(u, WordAt(s, 2), WordAt(s, 4))
        case WriteMultipleRegistersResponse => Message.WriteMultipleRegistersResponse(u, WordAt(s, 2), WordAt(s, 4))
        case MaskWriteRegisterResponse =>
          Message.MaskWriteRegisterResponse(u, WordAt(s, 2), WordAt(s, 4), WordAt(s, 6))
        case ReadWriteRegistersResponse => Message.ReadWriteRegistersResponse(u, BytesToWords(s[3..n.value]))
        case ExceptionResponse => Message.ExceptionResponse(u, ClearExceptionBit(s[1]), s[2])
      )
  }

  /** Decoding fails exactly when the bytes end before the message does. */
  lemma DecodeSucceeds(k: Kind, s: seq<byte>)
    ensures Decode(k, s).Some? <==> Needed(k, s).Some? && Needed(k, s).value <= |s|
  {
  }

  /** The decoding constructors skip the function-code byte: only an
      exception response looks at it. */
  lemma DecodeIgnoresFunctionCode(k: Kind, s: seq<byte>, fc: byte)
    requires k != Kind.ExceptionResponse && |s| >= 2
    ensures Decode(k, s[1 := fc]) == Decode(k, s)
  {
    var t := s[1 := fc];
    assert t[0] == s[0] && t[2..] == s[2..];
    assert Needed(k, t) == Needed(k, s);
    if Needed(k, s).Some? && Needed(k, s).value <= |s| {
      SameFields(k, s, t);
    }
  }

  /** Two byte strings that agree everywhere but at the function code have
      the same fields. */
  lemma SameFields(k: Kind, s: seq<byte>, t: seq<byte>)
    requires k != Kind.ExceptionResponse && |s| == |t| >= 2 && t[0] == s[0] && t[2..] == s[2..]
    requires Needed(k, s).Some? && Needed(k, s).value <= |s| && Needed(k, t) == Needed(k, s)
    ensures Decode(k, t) == Decode(k, s)
  {
    var n := Needed(k, s).value;
    forall i | 2 <= i < |s|
      ensures t[i] == s[i]
    {
      assert t[i] == t[2..][i - 2];
    }
    if n >= 3 {
      assert t[3..n] == s[3..n];
    }
    if n >= 7 {
      assert t[7..n] == s[7..n];
    }
    if n >= 11 {
      assert t[11..n] == s[11..n];
    }
  }

  /** Decoding reads exactly the bytes the decoded message occupies. */
  lemma DecodeReadsSize(k: Kind, s: seq<byte>)
    requires Decode(k, s).Some?
    ensures Size(Decode(k, s).value) == Needed(k, s).value <= |s|
  {
  }

  // ---------------------------------------------------------------------
  // Round trips
  // ---------------------------------------------------------------------

  /** The messages that survive `serialize` followed by decoding unchanged:
      lists short enough for their one-byte count, a coil value that is
      `on` or `off`, a read/write request whose write count is its number
      of registers, and an exception function code without the top bit. */
  predicate WellFormed(m: Message)
  {
    match m
    case WriteSingleCoilRequest(_, _, value) => value == COIL_ON || value == COIL_OFF
    case WriteMultipleCoilsRequest(_, _, _, values) => |values| < 256
    case WriteMultipleRegistersRequest(_, _, _, words) => |words| < 128
    case ReadWriteRegistersRequest(_, _, _, _, writeNum, words) => |words| < 128 && writeNum == |words|
    case ReadCoilsResponse(_, values) => |values| < 256
    case ReadDiscreteInputsResponse(_, values) => |values| < 256
    case ReadHoldingRegistersResponse(_, values) => |values| < 256
    case ReadInputRegistersResponse(_, values) => |values| < 256
    case ReadWriteRegistersResponse(_, words) => |words| < 128
    case ExceptionResponse(_, functionCode, _) => functionCode < EXCEPTION_BIT
    case _ => true
  }

  /** The first `n mod 256` bytes: what survives a one-byte count. */
  function CutBytes(values: seq<byte>): seq<byte>
  {
    values[..|values| % 256]
  }

  /** The first `n mod 128` registers: what survives a one-byte byte count. */
  function CutWords(words: seq<u16>): seq<u16>
  {
    words[..|words| % 128]
  }

  /** What decoding the encoding of `m` gives back: a list cut to the
      length its count byte wraps to, the coil value reduced to `on`/`off`,
      the write count replaced by the register count, the exception bit
      cleared from an exception's function code. */
  function Normalize(m: Message): Message
  {
    match m
    case WriteSingleCoilRequest(u, a, value) => Message.WriteSingleCoilRequest(u, a, CoilWord(value))
    case WriteMultipleCoilsRequest(u, a, n, values) => Message.WriteMultipleCoilsRequest(u, a, n, CutBytes(values))
    case WriteMultipleRegistersRequest(u, a, n, words) => Message.WriteMultipleRegistersRequest(u, a, n, CutWords(words))
    case ReadWriteRegistersRequest(u, ra, rn, wa, _, words) =>
      Message.ReadWriteRegistersRequest(u, ra, rn, wa, |words| % 128, CutWords(words))
    case ReadCoilsResponse(u, values) => Message.ReadCoilsResponse(u, CutBytes(values))
    case ReadDiscreteInputsResponse(u, values) => Message.ReadDiscreteInputsResponse(u, CutBytes(values))
    case ReadHoldingRegistersResponse(u, values) => Message.ReadHoldingRegistersResponse(u, CutBytes(values))
    case ReadInputRegistersResponse(u, values) => Message.ReadInputRegistersResponse(u, CutBytes(values))
    case ReadWriteRegistersResponse(u, words) => Message.ReadWriteRegistersResponse(u, CutWords(words))
    case ExceptionResponse(u, functionCode, e) => Message.ExceptionResponse(u, ClearExceptionBit(functionCode), e)
    case _ => m
  }

  lemma CutBytesFixes(values: seq<byte>)
    ensures CutBytes(values) == values <==> |values| < 256
    ensures |CutBytes(values)| < 256
  {
    if |values| >= 256 {
      assert |CutBytes(values)| < |values|;
    }
  }

  lemma CutWordsFixes(words: seq<u16>)
    ensures CutWords(words) == words <==> |words| < 128
    ensures |CutWords(words)| < 128
  {
    if |words| >= 128 {
      assert |CutWords(words)| < |words|;
    }
  }

  lemma NormalizeFixesWellFormedLists(m: Message)
    requires m.WriteMultipleCoilsRequest? || m.ReadCoilsResponse? || m.ReadDiscreteInputsResponse?
          || m.ReadHoldingRegistersResponse? || m.ReadInputRegistersResponse?
    ensures Normalize(m) == m <==> WellFormed(m)
    ensures WellFormed(Normalize(m)) && KindOf(Normalize(m)) == KindOf(m)
  {
    CutBytesFixes(m.values);
  }

  lemma NormalizeFixesWellFormedRegisters(m: Message)
    requires m.WriteMultipleRegistersRequest? || m.ReadWriteRegistersRequest? || m.ReadWriteRegistersResponse?
    ensures Normalize(m) == m <==> WellFormed(m)
    ensures WellFormed(Normalize(m)) && KindOf(Normalize(m)) == KindOf(m)
  {
    CutWordsFixes(m.words);
  }

  lemma NormalizeFixesWellFormedFixed(m: Message)
    requires !(m.WriteMultipleCoilsRequest? || m.ReadCoilsResponse? || m.ReadDiscreteInputsResponse?
          || m.ReadHoldingRegistersResponse? || m.ReadInputRegistersResponse?)
    requires !(m.WriteMultipleRegistersRequest? || m.ReadWriteRegistersRequest? || m.ReadWriteRegistersResponse?)
    ensures Normalize(m) == m <==> WellFormed(m)
    ensures WellFormed(Normalize(m)) && KindOf(Normalize(m)) == KindOf(m)
  {
    if m.ExceptionResponse? {
    }
  }

  /** A message is its own normal form exactly when it is well formed, and
      every normal form is well formed. */
  lemma NormalizeFixesWellFormed(m: Message)
    ensures Normalize(m) == m <==> WellFormed(m)
    ensures WellFormed(Normalize(m)) && KindOf(Normalize(m)) == KindOf(m)
  {
    if m.WriteMultipleCoilsRequest? || m.ReadCoilsResponse? || m.ReadDiscreteInputsResponse?
       || m.ReadHoldingRegistersResponse? || m.ReadInputRegistersResponse? {
      NormalizeFixesWellFormedLists(m);
    } else if m.WriteMultipleRegistersRequest? || m.ReadWriteRegistersRequest? || m.ReadWriteRegistersResponse? {
      NormalizeFixesWellFormedRegisters(m);
    } else {
      NormalizeFixesWellFormedFixed(m);
    }
  }

  /** Reading back a list of bytes preceded by its count byte. */
  lemma CountedBytes(pre: seq<byte>, values: seq<byte>)
    ensures var s := pre + [CountByte(|values|)] + values;
      s[|pre|] == |values| % 256 &&
      s[|pre| + 1..|pre| + 1 + |values| % 256] == CutBytes(values)
  {
    var s := pre + [CountByte(|values|)] + values;
    assert s[|pre| + 1..] == values;
  }

  /** The count byte in front of a register list holds twice the number of
      registers, modulo 256. */
  lemma CountedWordsCount(pre: seq<byte>, words: seq<u16>)
    ensures var s := pre + [CountByte(2 * |words|)] + WordsToBytes(words);
      s[|pre|] / 2 == |words| % 128
  {
    assert (2 * |words|) % 256 / 2 == |words| % 128;
  }

  /** Reading back the registers behind their count byte. */
  lemma CountedWordsData(pre: seq<byte>, words: seq<u16>)
    ensures var s := pre + [CountByte(2 * |words|)] + WordsToBytes(words);
      BytesToWords(s[|pre| + 1..|pre| + 1 + 2 * (|words| % 128)]) == CutWords(words)
  {
    var s := pre + [CountByte(2 * |words|)] + WordsToBytes(words);
    var n := |words| % 128;
    assert s[|pre| + 1..] == WordsToBytes(words);
    assert s[|pre| + 1..|pre| + 1 + 2 * n] == WordsToBytes(words)[..2 * n];
    WordsToBytesPrefix(words, n);
    BytesToWordsOfWordsToBytes(words[..n]);
  }

  /** The fields of a six-byte PDU read back. */
  lemma ReadBackTwoWords(s: seq<byte>, u: byte, fc: byte, a: u16, b: u16)
    requires s == [u, fc] + BigEndian(a) + BigEndian(b)
    ensures |s| == 6 && s[0] == u && WordAt(s, 2) == a && WordAt(s, 4) == b
  {
    WordOfHiLo(a);
    WordOfHiLo(b);
  }

  /** The fields of an eight-byte PDU read back. */
  lemma ReadBackThreeWords(s: seq<byte>, u: byte, fc: byte, a: u16, b: u16, c: u16)
    requires |s| >= 8 && s[..8] == [u, fc] + BigEndian(a) + BigEndian(b) + BigEndian(c)
    ensures s[0] == u && WordAt(s, 2) == a && WordAt(s, 4) == b && WordAt(s, 6) == c
  {
    assert s[0] == s[..8][0] && s[2] == s[..8][2] && s[3] == s[..8][3];
    assert s[4] == s[..8][4] && s[5] == s[..8][5] && s[6] == s[..8][6] && s[7] == s[..8][7];
    WordOfHiLo(a);
    WordOfHiLo(b);
    WordOfHiLo(c);
  }

  /** The two single-coil messages decode from their first six bytes. */
  lemma DecodeTwoWords(k: Kind, s: seq<byte>)
    requires k == Kind.WriteSingleCoilRequest || k == Kind.WriteSingleCoilResponse
    requires |s| >= 6
    ensures k == Kind.WriteSingleCoilRequest ==>
      Decode(k, s) == Some(Message.WriteSingleCoilRequest(s[0], WordAt(s, 2), WordAt(s, 4)))
    ensures k == Kind.WriteSingleCoilResponse ==>
      Decode(k, s) == Some(Message.WriteSingleCoilResponse(s[0], WordAt(s, 2), WordAt(s, 4) == COIL_ON))
  {
  }

  /** The read/write-registers messages decode their registers from the
      bytes their count byte covers. */
  lemma DecodeReadWriteRegisters(k: Kind, s: seq<byte>)
    requires k == Kind.ReadWriteRegistersRequest || k == Kind.ReadWriteRegistersResponse
    requires Needed(k, s).Some? && Needed(k, s).value <= |s|
    ensures k == Kind.ReadWriteRegistersRequest ==>
      var words := BytesToWords(s[11..11 + 2 * (s[10] / 2)]);
      Decode(k, s) == Some(Message.ReadWriteRegistersRequest(s[0], WordAt(s, 2), WordAt(s, 4), WordAt(s, 6), |words|, words))
    ensures k == Kind.ReadWriteRegistersResponse ==>
      Decode(k, s) == Some(Message.ReadWriteRegistersResponse(s[0], BytesToWords(s[3..3 + 2 * (s[2] / 2)])))
  {
  }

  // One lemma per message type, on the fields of the message, keeps each
  // proof small.
  lemma DecodeSerializeReadCoilsRequest(u: byte, a: u16, n: u16)
    ensures Decode(Kind.ReadCoilsRequest, Serialize(Message.ReadCoilsRequest(u, a, n)))
         == Some(Message.ReadCoilsRequest(u, a, n))
  {
    var s := Serialize(Message.ReadCoilsRequest(u, a, n));
    assert s == [u, READ_COILS] + BigEndian(a) + BigEndian(n);
    ReadBackTwoWords(s, u, READ_COILS, a, n);
  }
  lemma DecodeSerializeReadDiscreteInputsRequest(u: byte, a: u16, n: u16)
    ensures Decode(Kind.ReadDiscreteInputsRequest, Serialize(Message.ReadDiscreteInputsRequest(u, a, n)))
         == Some(Message.ReadDiscreteInputsRequest(u, a, n))
  {
    var s := Serialize(Message.ReadDiscreteInputsRequest(u, a, n));
    assert s == [u, READ_DISCRETE_INPUTS] + BigEndian(a) + BigEndian(n);
    ReadBackTwoWords(s, u, READ_DISCRETE_INPUTS, a, n);
  }
  lemma DecodeSerializeReadHoldingRegistersRequest(u: byte, a: u16, n: u16)
    ensures Decode(Kind.ReadHoldingRegistersRequest, Serialize(Message.ReadHoldingRegistersRequest(u, a, n)))
         == Some(Message.ReadHoldingRegistersRequest(u, a, n))
  {
    var s := Serialize(Message.ReadHoldingRegistersRequest(u, a, n));
    assert s == [u, READ_HOLDING_REGISTERS] + BigEndian(a) + BigEndian(n);
    ReadBackTwoWords(s, u, READ_HOLDING_REGISTERS, a, n);
  }
  lemma DecodeSerializeReadInputRegistersRequest(u: byte, a: u16, n: u16)
    ensures Decode(Kind.ReadInputRegistersRequest, Serialize(Message.ReadInputRegistersRequest(u, a, n)))
         == Some(Message.ReadInputRegistersRequest(u, a, n))
  {
    var s := Serialize(Message.ReadInputRegistersRequest(u, a, n));
    assert s == [u, READ_INPUT_REGISTERS] + BigEndian(a) + BigEndian(n);
    ReadBackTwoWords(s, u, READ_INPUT_REGISTERS, a, n);
  }
  lemma DecodeSerializeWriteSingleCoilRequest(u: byte, a: u16, v: u16)
    ensures Decode(Kind.WriteSingleCoilRequest, Serialize(Message.WriteSingleCoilRequest(u, a, v)))
         == Some(Message.WriteSingleCoilRequest(u, a, CoilWord(v)))
  {
    var w := CoilWord(v);
    var s := Serialize(Message.WriteSingleCoilRequest(u, a, v));
    assert s == [u, WRITE_SINGLE_COIL] + BigEndian(a) + BigEndian(w);
    ReadBackTwoWords(s, u, WRITE_SINGLE_COIL, a, w);
    DecodeTwoWords(Kind.WriteSingleCoilRequest, s);
  }
  lemma DecodeSerializeWriteSingleRegisterRequest(u: byte, a: u16, v: u16)
    ensures Decode(Kind.WriteSingleRegisterRequest, Serialize(Message.WriteSingleRegisterRequest(u, a, v)))
         == Some(Message.WriteSingleRegisterRequest(u, a, v))
  {
    var s := Serialize(Message.WriteSingleRegisterRequest(u, a, v));
    assert s == [u, WRITE_SINGLE_REGISTER] + BigEndian(a) + BigEndian(v);
    ReadBackTwoWords(s, u, WRITE_SINGLE_REGISTER, a, v);
  }
  lemma DecodeSerializeWriteSingleCoilResponse(u: byte, a: u16, on: bool)
    ensures Decode(Kind.WriteSingleCoilResponse, Serialize(Message.WriteSingleCoilResponse(u, a, on)))
         == Some(Message.WriteSingleCoilResponse(u, a, on))
  {
    var w := if on then COIL_ON else COIL_OFF;
    var s := Serialize(Message.WriteSingleCoilResponse(u, a, on));
    assert s == [u, WRITE_SINGLE_COIL] + BigEndian(a) + BigEndian(w);
    ReadBackTwoWords(s, u, WRITE_SINGLE_COIL, a, w);
    DecodeTwoWords(Kind.WriteSingleCoilResponse, s);
  }
  lemma DecodeSerializeWriteSingleRegisterResponse(u: byte, a: u16, v: u16)
    ensures Decode(Kind.WriteSingleRegisterResponse, Serialize(Message.WriteSingleRegisterResponse(u, a, v)))
         == Some(Message.WriteSingleRegisterResponse(u, a, v))
  {
    var s := Serialize(Message.WriteSingleRegisterResponse(u, a, v));
    assert s == [u, WRITE_SINGLE_REGISTER] + BigEndian(a) + BigEndian(v);
    ReadBackTwoWords(s, u, WRITE_SINGLE_REGISTER, a, v);
  }
  lemma DecodeSerializeWriteMultipleCoilsResponse(u: byte, a: u16, n: u16)
    ensures Decode(Kind.WriteMultipleCoilsResponse, Serialize(Message.WriteMultipleCoilsResponse(u, a, n)))
         == Some(Message.WriteMultipleCoilsResponse(u, a, n))
  {
    var s := Serialize(Message.WriteMultipleCoilsResponse(u, a, n));
    assert s == [u, WRITE_MULTIPLE_COILS] + BigEndian(a) + BigEndian(n);
    ReadBackTwoWords(s, u, WRITE_MULTIPLE_COILS, a, n);
  }
  lemma DecodeSerializeWriteMultipleRegistersResponse(u: byte, a: u16, n: u16)
    ensures Decode(Kind.WriteMultipleRegistersResponse, Serialize(Message.WriteMultipleRegistersResponse(u, a, n)))
         == Some(Message.WriteMultipleRegistersResponse(u, a, n))
  {
    var s := Serialize(Message.WriteMultipleRegistersResponse(u, a, n));
    assert s == [u, WRITE_MULTIPLE_REGISTERS] + BigEndian(a) + BigEndian(n);
    ReadBackTwoWords(s, u, WRITE_MULTIPLE_REGISTERS, a, n);
  }
  lemma DecodeSerializeMaskWriteRegisterRequest(u: byte, a: u16, andMask: u16, orMask: u16)
    ensures Decode(Kind.MaskWriteRegisterRequest, Serialize(Message.MaskWriteRegisterRequest(u, a, andMask, orMask)))
         == Some(Message.MaskWriteRegisterRequest(u, a, andMask, orMask))
  {
    var s := Serialize(Message.MaskWriteRegisterRequest(u, a, andMask, orMask));
    assert s == [u, MASK_WRITE_REGISTER] + BigEndian(a) + BigEndian(andMask) + BigEndian(orMask);
    assert s[..8] == s;
    ReadBackThreeWords(s, u, MASK_WRITE_REGISTER, a, andMask, orMask);
  }
  lemma DecodeSerializeMaskWriteRegisterResponse(u: byte, a: u16, andMask: u16, orMask: u16)
    ensures Decode(Kind.MaskWriteRegisterResponse, Serialize(Message.MaskWriteRegisterResponse(u, a, andMask, orMask)))
         == Some(Message.MaskWriteRegisterResponse(u, a, andMask, orMask))
  {
    var s := Serialize(Message.MaskWriteRegisterResponse(u, a, andMask, orMask));
    assert s == [u, MASK_WRITE_REGISTER] + BigEndian(a) + BigEndian(andMask) + BigEndian(orMask);
    assert s[..8] == s;
    ReadBackThreeWords(s, u, MASK_WRITE_REGISTER, a, andMask, orMask);
  }
  lemma DecodeSerializeWriteMultipleCoilsRequest(u: byte, a: u16, n: u16, values: seq<byte>)
    ensures Decode(Kind.WriteMultipleCoilsRequest, Serialize(Message.WriteMultipleCoilsRequest(u, a, n, values)))
         == Some(Message.WriteMultipleCoilsRequest(u, a, n, CutBytes(values)))
  {
    var s := Serialize(Message.WriteMultipleCoilsRequest(u, a, n, values));
    var pre := [u, WRITE_MULTIPLE_COILS] + BigEndian(a) + BigEndian(n);
    assert s == pre + [CountByte(|values|)] + values;
    ReadBackTwoWords(pre, u, WRITE_MULTIPLE_COILS, a, n);
    CountedBytes(pre, values);
  }

  lemma DecodeSerializeWriteMultipleRegistersRequest(u: byte, a: u16, n: u16, words: seq<u16>)
    ensures Decode(Kind.WriteMultipleRegistersRequest, Serialize(Message.WriteMultipleRegistersRequest(u, a, n, words)))
         == Some(Message.WriteMultipleRegistersRequest(u, a, n, CutWords(words)))
  {
    var s := Serialize(Message.WriteMultipleRegistersRequest(u, a, n, words));
    assert s == [u, WRITE_MULTIPLE_REGISTERS] + BigEndian(a) + BigEndian(n) + [CountByte(2 * |words|)] + WordsToBytes(words);
    DecodeWriteMultipleRegistersRequestFrom(u, a, n, words, s);
  }

  lemma DecodeWriteMultipleRegistersRequestFrom(u: byte, a: u16, n: u16, words: seq<u16>, s: seq<byte>)
    requires s == [u, WRITE_MULTIPLE_REGISTERS] + BigEndian(a) + BigEndian(n) + [CountByte(2 * |words|)] + WordsToBytes(words)
    ensures Decode(Kind.WriteMultipleRegistersRequest, s)
         == Some(Message.WriteMultipleRegistersRequest(u, a, n, CutWords(words)))
  {
    var pre := [u, WRITE_MULTIPLE_REGISTERS] + BigEndian(a) + BigEndian(n);
    assert s[..6] == pre;
    ReadBackTwoWords(pre, u, WRITE_MULTIPLE_REGISTERS, a, n);
    CountedWordsCount(pre, words);
    CountedWordsData(pre, words);
    DecodeWriteMultipleRegistersRequestFields(s, u, a, n, words);
  }

  lemma DecodeWriteMultipleRegistersRequestFields(s: seq<byte>, u: byte, a: u16, n: u16, words: seq<u16>)
    requires |s| >= 7 + 2 * (|words| % 128)
    requires s[0] == u && WordAt(s, 2) == a && WordAt(s, 4) == n
    requires s[6] / 2 == |words| % 128
    requires BytesToWords(s[7..7 + 2 * (|words| % 128)]) == CutWords(words)
    ensures Decode(Kind.WriteMultipleRegistersRequest, s)
         == Some(Message.WriteMultipleRegistersRequest(u, a, n, CutWords(words)))
  {
  }

  lemma DecodeSerializeReadWriteRegistersRequest(u: byte, ra: u16, rn: u16, wa: u16, wn: u16, words: seq<u16>)
    ensures Decode(Kind.ReadWriteRegistersRequest, Serialize(Message.ReadWriteRegistersRequest(u, ra, rn, wa, wn, words)))
         == Some(Message.ReadWriteRegistersRequest(u, ra, rn, wa, |words| % 128, CutWords(words)))
  {
    var pre := [u, READ_WRITE_MULTIPLE_REGISTERS] + BigEndian(ra) + BigEndian(rn) + BigEndian(wa) + BigEndian(wn);
    var s := Serialize(Message.ReadWriteRegistersRequest(u, ra, rn, wa, wn, words));
    assert s == pre + [CountByte(2 * |words|)] + WordsToBytes(words);
    DecodeReadWriteRegistersRequestFrom(u, ra, rn, wa, wn, words, s);
  }

  lemma DecodeReadWriteRegistersRequestFrom(u: byte, ra: u16, rn: u16, wa: u16, wn: u16, words: seq<u16>, s: seq<byte>)
    requires s == [u, READ_WRITE_MULTIPLE_REGISTERS] + BigEndian(ra) + BigEndian(rn) + BigEndian(wa) + BigEndian(wn)
                  + [CountByte(2 * |words|)] + WordsToBytes(words)
    ensures Decode(Kind.ReadWriteRegistersRequest, s)
         == Some(Message.ReadWriteRegistersRequest(u, ra, rn, wa, |words| % 128, CutWords(words)))
  {
    var head := [u, READ_WRITE_MULTIPLE_REGISTERS] + BigEndian(ra) + BigEndian(rn) + BigEndian(wa);
    var pre := head + BigEndian(wn);
    assert s == head + (BigEndian(wn) + [CountByte(2 * |words|)] + WordsToBytes(words));
    assert s == pre + [CountByte(2 * |words|)] + WordsToBytes(words);
    assert s[..8] == head;
    ReadBackThreeWords(s, u, READ_WRITE_MULTIPLE_REGISTERS, ra, rn, wa);
    CountedWordsCount(pre, words);
    CountedWordsData(pre, words);
    DecodeReadWriteRegistersRequestFields(s, u, ra, rn, wa, words);
  }

  lemma DecodeReadWriteRegistersRequestFields(s: seq<byte>, u: byte, ra: u16, rn: u16, wa: u16, words: seq<u16>)
    requires |s| >= 11 + 2 * (|words| % 128)
    requires s[0] == u && WordAt(s, 2) == ra && WordAt(s, 4) == rn && WordAt(s, 6) == wa
    requires s[10] / 2 == |words| % 128
    requires BytesToWords(s[11..11 + 2 * (|words| % 128)]) == CutWords(words)
    ensures Decode(Kind.ReadWriteRegistersRequest, s)
         == Some(Message.ReadWriteRegistersRequest(u, ra, rn, wa, |words| % 128, CutWords(words)))
  {
    DecodeReadWriteRegisters(Kind.ReadWriteRegistersRequest, s);
  }

  lemma DecodeSerializeReadCoilsResponse(u: byte, values: seq<byte>)
    ensures Decode(Kind.ReadCoilsResponse, Serialize(Message.ReadCoilsResponse(u, values)))
         == Some(Message.ReadCoilsResponse(u, CutBytes(values)))
  {
    var s := Serialize(Message.ReadCoilsResponse(u, values));
    assert s == [u, READ_COILS] + [CountByte(|values|)] + values;
    CountedBytes([u, READ_COILS], values);
  }
  lemma DecodeSerializeReadDiscreteInputsResponse(u: byte, values: seq<byte>)
    ensures Decode(Kind.ReadDiscreteInputsResponse, Serialize(Message.ReadDiscreteInputsResponse(u, values)))
         == Some(Message.ReadDiscreteInputsResponse(u, CutBytes(values)))
  {
    var s := Serialize(Message.ReadDiscreteInputsResponse(u, values));
    assert s == [u, READ_DISCRETE_INPUTS] + [CountByte(|values|)] + values;
    CountedBytes([u, READ_DISCRETE_INPUTS], values);
  }
  lemma DecodeSerializeReadHoldingRegistersResponse(u: byte, values: seq<byte>)
    ensures Decode(Kind.ReadHoldingRegistersResponse, Serialize(Message.ReadHoldingRegistersResponse(u, values)))
         == Some(Message.ReadHoldingRegistersResponse(u, CutBytes(values)))
  {
    var s := Serialize(Message.ReadHoldingRegistersResponse(u, values));
    assert s == [u, READ_HOLDING_REGISTERS] + [CountByte(|values|)] + values;
    CountedBytes([u, READ_HOLDING_REGISTERS], values);
  }
  lemma DecodeSerializeReadInputRegistersResponse(u: byte, values: seq<byte>)
    ensures Decode(Kind.ReadInputRegistersResponse, Serialize(Message.ReadInputRegistersResponse(u, values)))
         == Some(Message.ReadInputRegistersResponse(u, CutBytes(values)))
  {
    var s := Serialize(Message.ReadInputRegistersResponse(u, values));
    assert s == [u, READ_INPUT_REGISTERS] + [CountByte(|values|)] + values;
    CountedBytes([u, READ_INPUT_REGISTERS], values);
  }
  lemma DecodeSerializeReadWriteRegistersResponse(u: byte, words: seq<u16>)
    ensures Decode(Kind.ReadWriteRegistersResponse, Serialize(Message.ReadWriteRegistersResponse(u, words)))
         == Some(Message.ReadWriteRegistersResponse(u, CutWords(words)))
  {
    var m := Message.ReadWriteRegistersResponse(u, words);
    var s := Serialize(m);
    assert s == [u, READ_WRITE_MULTIPLE_REGISTERS] + Payload(m);
    assert Payload(m) == [CountByte(2 * |words|)] + WordsToBytes(words);
    DecodeReadWriteRegistersResponseFrom(u, words, s);
  }

  lemma DecodeReadWriteRegistersResponseFrom(u: byte, words: seq<u16>, s: seq<byte>)
    requires s == [u, READ_WRITE_MULTIPLE_REGISTERS] + [CountByte(2 * |words|)] + WordsToBytes(words)
    ensures Decode(Kind.ReadWriteRegistersResponse, s) == Some(Message.ReadWriteRegistersResponse(u, CutWords(words)))
  {
    var pre := [u, READ_WRITE_MULTIPLE_REGISTERS];
    CountedWordsCount(pre, words);
    CountedWordsData(pre, words);
    DecodeReadWriteRegistersResponseFields(s, u, words);
  }

  lemma DecodeReadWriteRegistersResponseFields(s: seq<byte>, u: byte, words: seq<u16>)
    requires |s| >= 3 + 2 * (|words| % 128)
    requires s[0] == u && s[2] / 2 == |words| % 128
    requires BytesToWords(s[3..3 + 2 * (|words| % 128)]) == CutWords(words)
    ensures Decode(Kind.ReadWriteRegistersResponse, s) == Some(Message.ReadWriteRegistersResponse(u, CutWords(words)))
  {
    DecodeReadWriteRegisters(Kind.ReadWriteRegistersResponse, s);
  }

  lemma DecodeSerializeExceptionResponse(u: byte, fc: byte, e: byte)
    ensures Decode(Kind.ExceptionResponse, Serialize(Message.ExceptionResponse(u, fc, e)))
         == Some(Message.ExceptionResponse(u, ClearExceptionBit(fc), e))
  {
  }

  /** Decoding the encoding of any message gives its normal form: the
      fields come back unchanged, lists come back up to the length their
      count byte can express. */
  lemma DecodeSerialize(m: Message)
    ensures Decode(KindOf(m), Serialize(m)) == Some(Normalize(m))
  {
    if IsRequest(KindOf(m)) {
      DecodeSerializeRequest(m);
    } else {
      DecodeSerializeResponse(m);
    }
  }

  /** The round trip for the requests, one case at a time. */
  lemma DecodeSerializeRequest(m: Message)
    requires IsRequest(KindOf(m))
    ensures Decode(KindOf(m), Serialize(m)) == Some(Normalize(m))
  {
    match m
    case ReadCoilsRequest(x0, x1, x2) => DecodeSerializeReadCoilsRequest(x0, x1, x2);
    case ReadDiscreteInputsRequest(x0, x1, x2) => DecodeSerializeReadDiscreteInputsRequest(x0, x1, x2);
    case ReadHoldingRegistersRequest(x0, x1, x2) => DecodeSerializeReadHoldingRegistersRequest(x0, x1, x2);
    case ReadInputRegistersRequest(x0, x1, x2) => DecodeSerializeReadInputRegistersRequest(x0, x1, x2);
    case WriteSingleCoilRequest(x0, x1, x2) => DecodeSerializeWriteSingleCoilRequest(x0, x1, x2);
    case WriteSingleRegisterRequest(x0, x1, x2) => DecodeSerializeWriteSingleRegisterRequest(x0, x1, x2);
    case WriteMultipleCoilsRequest(x0, x1, x2, x3) => DecodeSerializeWriteMultipleCoilsRequest(x0, x1, x2, x3);
    case WriteMultipleRegistersRequest(x0, x1, x2, x3) => DecodeSerializeWriteMultipleRegistersRequest(x0, x1, x2, x3);
    case MaskWriteRegisterRequest(x0, x1, x2, x3) => DecodeSerializeMaskWriteRegisterRequest(x0, x1, x2, x3);
    case ReadWriteRegistersRequest(x0, x1, x2, x3, x4, x5) => DecodeSerializeReadWriteRegistersRequest(x0, x1, x2, x3, x4, x5);
  }

  /** The round trip for the responses, one case at a time. */
  lemma DecodeSerializeResponse(m: Message)
    requires !IsRequest(KindOf(m))
    ensures Decode(KindOf(m), Serialize(m)) == Some(Normalize(m))
  {
    match m
    case ReadCoilsResponse(x0, x1) => DecodeSerializeReadCoilsResponse(x0, x1);
    case ReadDiscreteInputsResponse(x0, x1) => DecodeSerializeReadDiscreteInputsResponse(x0, x1);
    case ReadHoldingRegistersResponse(x0, x1) => DecodeSerializeReadHoldingRegistersResponse(x0, x1);
    case ReadInputRegistersResponse(x0, x1) => DecodeSerializeReadInputRegistersResponse(x0, x1);
    case WriteSingleCoilResponse(x0, x1, x2) => DecodeSerializeWriteSingleCoilResponse(x0, x1, x2);
    case WriteSingleRegisterResponse(x0, x1, x2) => DecodeSerializeWriteSingleRegisterResponse(x0, x1, x2);
    case WriteMultipleCoilsResponse(x0, x1, x2) => DecodeSerializeWriteMultipleCoilsResponse(x0, x1, x2);
    case WriteMultipleRegistersResponse(x0, x1, x2) => DecodeSerializeWriteMultipleRegistersResponse(x0, x1, x2);
    case MaskWriteRegisterResponse(x0, x1, x2, x3) => DecodeSerializeMaskWriteRegisterResponse(x0, x1, x2, x3);
    case ReadWriteRegistersResponse(x0, x1) => DecodeSerializeReadWriteRegistersResponse(x0, x1);
    case ExceptionResponse(x0, x1, x2) => DecodeSerializeExceptionResponse(x0, x1, x2);
  }

  /** `decode(serialize(m)) == m` for every well-formed message. */
  lemma RoundTrip(m: Message)
    requires WellFormed(m)
    ensures Decode(KindOf(m), Serialize(m)) == Some(m)
  {
    DecodeSerialize(m);
    NormalizeFixesWellFormed(m);
  }

  // ---------------------------------------------------------------------
  // operator==
  // ---------------------------------------------------------------------

  /** `operator==` of two messages of the same type: field by field, except
      that a write-multiple-registers request leaves `length` out of the
      comparison. (`operator!=` is its negation.) */
  predicate Equals(a: Message, b: Message)
    requires KindOf(a) == KindOf(b)
  {
    match a
    case WriteMultipleRegistersRequest(u, start, _, words) =>
      u == b.unitId && start == b.startAddress && words == b.words
    case _ => a == b
  }

  /** For every message type but one, `==` is equality of all fields. */
  lemma EqualsIsFieldwise(a: Message, b: Message)
    requires KindOf(a) == KindOf(b) && !a.WriteMultipleRegistersRequest?
    ensures Equals(a, b) <==> a == b
  {
  }

  /** Two write-multiple-registers requests that differ only in `length`
      compare equal, yet put different bytes on the wire. */
  lemma EqualsIgnoresLength(u: byte, start: u16, n1: u16, n2: u16, words: seq<u16>)
    requires n1 != n2
    ensures var a := Message.WriteMultipleRegistersRequest(u, start, n1, words);
            var b := Message.WriteMultipleRegistersRequest(u, start, n2, words);
            Equals(a, b) && Serialize(a) != Serialize(b)
  {
    var a := Message.WriteMultipleRegistersRequest(u, start, n1, words);
    var b := Message.WriteMultipleRegistersRequest(u, start, n2, words);
    assert Serialize(a)[4..6] == BigEndian(n1);
    assert Serialize(b)[4..6] == BigEndian(n2);
    WordOfHiLo(n1);
    WordOfHiLo(n2);
  }
}
