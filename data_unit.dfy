/*
 * The MODBUS/TCP application data unit (`tcp_data_unit`): the MBAP header
 * of the MODBUS Messaging on TCP/IP Implementation Guide V1.0b, section
 * 3.1.3 (transaction id, protocol id, length), followed by the PDU. A unit
 * is its byte buffer and whether it holds a request or a response; the
 * parsing constructors and the header accessors report the exceptions the
 * C++ code throws as `Failure`.
 */
module DataUnits {
  import opened Types
  import opened Bytes
  import opened Messages
  import opened MessageIO

  datatype DataUnit = DataUnit(buffer: seq<byte>, msgType: MessageType)

  /** `tcp_data_unit()`: no bytes and no message type. */
  const EmptyUnit: DataUnit := DataUnit([], InvalidPduType)

  // ---------------------------------------------------------------------
  // Encoding a PDU
  // ---------------------------------------------------------------------

  /** The MBAP header of a PDU of `size` bytes: the transaction id, the zero
      protocol id and the size, each most significant byte first; the size
      is cast to 16 bits. */
  function Header(transactionId: u16, size: nat): (h: seq<byte>)
    ensures |h| == TCP_HEADER_SIZE
  {
    BigEndian(transactionId) + BigEndian(PROTOCOL_ID) + BigEndian(size % 0x1_0000)
  }

  /** The bytes of the unit the template constructor builds from `m`. */
  function Frame(transactionId: u16, m: Message): (bs: seq<byte>)
    ensures |bs| == TCP_HEADER_SIZE + Size(m)
  {
    Header(transactionId, Size(m)) + Serialize(m)
  }

  /** A write of `h` from 0 followed by a write of `s` right after it fills
      a buffer of exactly that size with `h + s`. */
  lemma WroteInSequence(now: seq<byte>, mid: seq<byte>, was: seq<byte>, h: seq<byte>, s: seq<byte>)
    requires Wrote(mid, was, 0, h) && Wrote(now, mid, |h|, s) && |now| == |h| + |s|
    ensures now == h + s
  {
    forall j | 0 <= j < |now|
      ensures now[j] == (h + s)[j]
    {
    }
  }

  /** `tcp_data_unit(transactionId, pdu)`: sizes the buffer, writes the
      header through an advancing iterator, then lets the PDU serialize
      itself after it. */
  method Encode(transactionId: u16, m: Message) returns (du: DataUnit)
    ensures du == DataUnit(Frame(transactionId, m), TypeOf(KindOf(m)))
  {
    var length := Size(m);
    var buf := new byte[TCP_HEADER_SIZE + length](_ => 0);
    ghost var was := buf[..];
    var header := Header(transactionId, length);
    var pos := WriteBytes(buf, was, 0, [], 0, header);
    ghost var mid := buf[..];
    pos := SerializeInto(m, buf, pos);
    WroteInSequence(buf[..], mid, was, header, Serialize(m));
    du := DataUnit(buf[..], TypeOf(KindOf(m)));
  }

  // ---------------------------------------------------------------------
  // Parsing constructors
  // ---------------------------------------------------------------------

  /** `(int)(bytesRead - TCP_HEADER_SIZE)` for a 64-bit `size_t`: the
      difference wraps modulo 2^64 and the cast keeps the low 32 bits as a
      two's-complement number. */
  function DataLength(bytesRead: nat): (n: int)
    requires bytesRead < 0x1_0000_0000_0000_0000
    ensures -0x8000_0000 <= n < 0x8000_0000
  {
    var diff := (bytesRead - TCP_HEADER_SIZE) % 0x1_0000_0000_0000_0000;
    var low := diff % 0x1_0000_0000;
    if low < 0x8000_0000 then low else low - 0x1_0000_0000
  }

  /** The big-endian length field at bytes 4 and 5. */
  function LengthField(header: seq<byte>): u16
    requires |header| >= TCP_HEADER_SIZE
  {
    Word(header[4], header[5])
  }

  /** `tcp_data_unit(buffer, bytesRead, type)`: reads the length field,
      rejects a count of bytes after the header that is not positive or is
      smaller than the length field, and keeps the whole buffer. The
      protocol id is not looked at. */
  function FromBuffer(buffer: seq<byte>, bytesRead: nat, t: MessageType): (r: Result<DataUnit>)
    requires bytesRead < 0x1_0000_0000_0000_0000
    ensures r.Success? ==> r.value == DataUnit(buffer, t)
    ensures r.Failure? ==> r.error == OutOfRange
  {
    if |buffer| < TCP_HEADER_SIZE then Failure(OutOfRange)
    else
      var dataLength := DataLength(bytesRead);
      if dataLength <= 0 || dataLength < LengthField(buffer) then Failure(OutOfRange)
      else Success(DataUnit(buffer, t))
  }

  /** `tcp_data_unit(header, payload, bytesRead, type)`: the protocol id
      bytes are checked one after the other, then the length field, and the
      unit is the header followed by the payload. A count of payload bytes
      read that is zero or smaller than the length field is turned down
      with `out_of_range`. */
  function FromParts(header: seq<byte>, payload: seq<byte>, bytesRead: nat, t: MessageType): (r: Result<DataUnit>)
    ensures r.Success? ==> r.value == DataUnit(header + payload, t)
    ensures r.Success? <==>
              |header| >= TCP_HEADER_SIZE && header[2] == 0 && header[3] == 0
              && bytesRead > 0 && bytesRead >= LengthField(header)
    ensures r.Failure? ==>
              (r.error == InvalidArgument <==>
                 (|header| >= 3 && header[2] != 0) || (|header| >= 4 && header[2] == 0 && header[3] != 0))
    ensures r.Failure? ==> r.error == InvalidArgument || r.error == OutOfRange
  {
    if |header| < 3 then Failure(OutOfRange)
    else if header[2] != 0 then Failure(InvalidArgument)
    else if |header| < 4 then Failure(OutOfRange)
    else if header[3] != 0 then Failure(InvalidArgument)
    else if |header| < TCP_HEADER_SIZE then Failure(OutOfRange)
    else if bytesRead == 0 || bytesRead < LengthField(header) then Failure(OutOfRange)
    else Success(DataUnit(header + payload, t))
  }

  /** A count below the header size wraps to a huge `size_t` whose low 32
      bits are negative as an `int`. */
  lemma DataLengthOfShortRead(bytesRead: nat)
    requires bytesRead < TCP_HEADER_SIZE
    ensures DataLength(bytesRead) == bytesRead - TCP_HEADER_SIZE
  {
    var diff := (bytesRead - TCP_HEADER_SIZE) % 0x1_0000_0000_0000_0000;
    assert diff == 0x1_0000_0000_0000_0000 + bytesRead - TCP_HEADER_SIZE;
    assert diff == 0xFFFF_FFFF * 0x1_0000_0000 + (0x1_0000_0000 + bytesRead - TCP_HEADER_SIZE);
  }

  /** Up to 2^31 + 5 bytes read, the subtraction neither wraps nor overflows the cast. */
  lemma DataLengthOfRead(bytesRead: nat)
    requires TCP_HEADER_SIZE <= bytesRead < TCP_HEADER_SIZE + 0x8000_0000
    ensures DataLength(bytesRead) == bytesRead - TCP_HEADER_SIZE
  {
  }

  /** From 2^31 + 6 to 2^32 + 5 bytes read, the cast turns the count negative. */
  lemma DataLengthOfLongRead(bytesRead: nat)
    requires TCP_HEADER_SIZE + 0x8000_0000 <= bytesRead < TCP_HEADER_SIZE + 0x1_0000_0000
    ensures DataLength(bytesRead) == bytesRead - TCP_HEADER_SIZE - 0x1_0000_0000
  {
  }

  /** From 2^32 + 6 bytes read on, the low 32 bits start again from zero:
      the cast gives back a small positive data length. */
  lemma DataLengthOfWrappedRead(bytesRead: nat)
    requires TCP_HEADER_SIZE + 0x1_0000_0000 <= bytesRead < TCP_HEADER_SIZE + 0x1_8000_0000
    ensures DataLength(bytesRead) == bytesRead - TCP_HEADER_SIZE - 0x1_0000_0000
  {
    var diff := bytesRead - TCP_HEADER_SIZE;
    assert diff % 0x1_0000_0000_0000_0000 == diff;
    assert diff == 0x1_0000_0000 + (diff - 0x1_0000_0000);
  }

  /** So a count of 2^32 + 16 bytes read passes a length field of 10,
      though a count of 2^31 + 16 does not. */
  lemma FromBufferAcceptsWrappedRead(t: MessageType)
    ensures FromBuffer([0, 1, 0, 0, 0, 10], 0x1_0000_0000 + 16, t).Success?
    ensures FromBuffer([0, 1, 0, 0, 0, 10], 0x8000_0000 + 16, t).Failure?
  {
    DataLengthOfWrappedRead(0x1_0000_0000 + 16);
    DataLengthOfLongRead(0x8000_0000 + 16);
  }

  /** For any count of bytes read below 2^32, the single-buffer constructor
      accepts a buffer exactly when it holds a header, between 1 and
      2^31 - 1 bytes were read after the header, and that count covers the
      length field. A count below the header size is rejected because the
      wrapped difference is negative once cast, not because it is compared
      with the header size. */
  lemma FromBufferAccepts(buffer: seq<byte>, bytesRead: nat, t: MessageType)
    requires bytesRead < 0x1_0000_0000
    ensures FromBuffer(buffer, bytesRead, t).Success? <==>
            |buffer| >= TCP_HEADER_SIZE && TCP_HEADER_SIZE < bytesRead < TCP_HEADER_SIZE + 0x8000_0000
            && bytesRead - TCP_HEADER_SIZE >= LengthField(buffer)
  {
    if bytesRead < TCP_HEADER_SIZE {
      DataLengthOfShortRead(bytesRead);
    } else if bytesRead < TCP_HEADER_SIZE + 0x8000_0000 {
      DataLengthOfRead(bytesRead);
    } else {
      DataLengthOfLongRead(bytesRead);
    }
  }

  /** The single-buffer constructor never looks at the protocol id. */
  lemma FromBufferIgnoresProtocolId(buffer: seq<byte>, bytesRead: nat, t: MessageType, hi: byte, lo: byte)
    requires bytesRead < 0x1_0000_0000_0000_0000 && |buffer| >= TCP_HEADER_SIZE
    ensures FromBuffer(buffer[2 := hi][3 := lo], bytesRead, t).Success? <==> FromBuffer(buffer, bytesRead, t).Success?
  {
    assert LengthField(buffer[2 := hi][3 := lo]) == LengthField(buffer);
  }

  /** The two-buffer constructor turns down a non-zero protocol id with
      `invalid_argument` before it looks at anything else but its size. */
  lemma FromPartsChecksProtocolId(header: seq<byte>, payload: seq<byte>, bytesRead: nat, t: MessageType)
    requires |header| >= 4 && (header[2] != 0 || header[3] != 0)
    ensures FromParts(header, payload, bytesRead, t) == Failure(InvalidArgument)
  {
  }

  /** With a protocol id of 0 and fewer than 2^31 payload bytes read, the
      two-buffer constructor accepts a header and payload exactly when the
      single-buffer constructor accepts their concatenation with the header
      counted in: both ask for a non-empty read that covers the length
      field. */
  lemma FromPartsAgreesWithFromBuffer(header: seq<byte>, payload: seq<byte>, bytesRead: nat, t: MessageType)
    requires |header| == TCP_HEADER_SIZE && header[2] == 0 && header[3] == 0
    requires bytesRead < 0x8000_0000
    ensures FromParts(header, payload, bytesRead, t).Success?
            <==> FromBuffer(header + payload, bytesRead + TCP_HEADER_SIZE, t).Success?
    ensures FromParts(header, payload, bytesRead, t).Success? ==>
              FromParts(header, payload, bytesRead, t) == FromBuffer(header + payload, bytesRead + TCP_HEADER_SIZE, t)
  {
    DataLengthOfRead(bytesRead + TCP_HEADER_SIZE);
    assert LengthField(header + payload) == LengthField(header);
  }

  // ---------------------------------------------------------------------
  // Header accessors
  // ---------------------------------------------------------------------

  /** `transaction_id()`: bytes 0 and 1, most significant first. */
  function TransactionId(du: DataUnit): (r: Result<u16>)
    ensures r.Success? <==> |du.buffer| >= 2
    ensures r.Success? ==> Hi(r.value) == du.buffer[0] && Lo(r.value) == du.buffer[1]
    ensures r.Failure? ==> r.error == OutOfRange
  {
    if |du.buffer| < 2 then Failure(OutOfRange)
    else
      HiLoOfWord(du.buffer[0], du.buffer[1]);
      Success(Word(du.buffer[0], du.buffer[1]))
  }

  /** `message_length()`: bytes 4 and 5, most significant first. */
  function MessageLength(du: DataUnit): (r: Result<u16>)
    ensures r.Success? <==> |du.buffer| >= TCP_HEADER_SIZE
    ensures r.Success? ==> Hi(r.value) == du.buffer[4] && Lo(r.value) == du.buffer[5]
    ensures r.Failure? ==> r.error == OutOfRange
  {
    if |du.buffer| < TCP_HEADER_SIZE then Failure(OutOfRange)
    else
      HiLoOfWord(du.buffer[4], du.buffer[5]);
      Success(LengthField(du.buffer))
  }

  /** `unit_id()`: byte 6. */
  function UnitId(du: DataUnit): (r: Result<byte>)
    ensures r.Success? <==> |du.buffer| > 6
    ensures r.Success? ==> r.value == du.buffer[6]
    ensures r.Failure? ==> r.error == OutOfRange
  {
    if |du.buffer| <= 6 then Failure(OutOfRange) else Success(du.buffer[6])
  }

  /** `function_code()`: byte 7 without the exception bit. */
  function UnitFunctionCode(du: DataUnit): (r: Result<byte>)
    ensures r.Success? <==> |du.buffer| > 7
    ensures r.Success? ==> r.value < EXCEPTION_BIT && r.value == ClearExceptionBit(du.buffer[7])
    ensures r.Failure? ==> r.error == OutOfRange
  {
    if |du.buffer| <= 7 then Failure(OutOfRange) else Success(ClearExceptionBit(du.buffer[7]))
  }

  /** `is_exception()`: the top bit of byte 7. */
  function IsException(du: DataUnit): (r: Result<bool>)
    ensures r.Success? <==> |du.buffer| > 7
    ensures r.Success? ==> (r.value <==> du.buffer[7] >= EXCEPTION_BIT)
    ensures r.Failure? ==> r.error == OutOfRange
  {
    if |du.buffer| <= 7 then Failure(OutOfRange) else Success(du.buffer[7] >= EXCEPTION_BIT)
  }

  /** `exception_code()`: no_exception for a normal reply, otherwise byte 8. */
  function UnitExceptionCode(du: DataUnit): (r: Result<byte>)
    ensures r.Success? <==> |du.buffer| > 7 && (du.buffer[7] < EXCEPTION_BIT || |du.buffer| > 8)
    ensures r.Success? && du.buffer[7] < EXCEPTION_BIT ==> r.value == NO_EXCEPTION
    ensures r.Success? && du.buffer[7] >= EXCEPTION_BIT ==> r.value == du.buffer[8]
    ensures r.Failure? ==> r.error == OutOfRange
  {
    match IsException(du)
    case Failure(e) => Failure(e)
    case Success(isException) =>
      if !isException then Success(NO_EXCEPTION)
      else if |du.buffer| <= 8 then Failure(OutOfRange)
      else Success(du.buffer[8])
  }

  /** Every header accessor of a default-constructed unit fails. */
  lemma EmptyUnitAccessorsFail()
    ensures TransactionId(EmptyUnit) == Failure(OutOfRange)
    ensures MessageLength(EmptyUnit) == Failure(OutOfRange)
    ensures UnitId(EmptyUnit) == Failure(OutOfRange)
    ensures UnitFunctionCode(EmptyUnit) == Failure(OutOfRange)
    ensures IsException(EmptyUnit) == Failure(OutOfRange)
    ensures UnitExceptionCode(EmptyUnit) == Failure(OutOfRange)
    ensures EmptyUnit.msgType == InvalidPduType
  {
  }

  // ---------------------------------------------------------------------
  // Extracting the PDU
  // ---------------------------------------------------------------------

  /** `pdu<T>()` for a message type other than `exception_response`: none
      for an exception reply, for another function code or message type,
      or for an empty buffer; otherwise `T`'s iterator constructor applied
      from byte 6 on. A failing accessor also gives none. */
  function Pdu(du: DataUnit, k: Kind): (r: Option<Message>)
    requires k != Kind.ExceptionResponse
    ensures r.Some? ==> |du.buffer| > 7 && du.buffer[7] < EXCEPTION_BIT
    ensures r.Some? ==> du.buffer[7] == FunctionCode(k) && du.msgType == TypeOf(k)
    ensures r.Some? ==> KindOf(r.value) == k && r == Decode(k, du.buffer[TCP_HEADER_SIZE..])
  {
    match IsException(du)
    case Failure(_) => None
    case Success(isException) =>
      if isException then None
      else if UnitFunctionCode(du).value != FunctionCode(k) then None
      else if du.msgType != TypeOf(k) then None
      else if |du.buffer| == 0 then None
      else Decode(k, du.buffer[TCP_HEADER_SIZE..])
  }

  /** `pdu<exception_response>()`: none unless the exception bit is set and
      the unit holds a response. */
  function PduException(du: DataUnit): (r: Option<Message>)
    ensures r.Some? ==> |du.buffer| > 7 && du.buffer[7] >= EXCEPTION_BIT && du.msgType == Response
    ensures r.Some? ==> r.value.ExceptionResponse? && r == Decode(Kind.ExceptionResponse, du.buffer[TCP_HEADER_SIZE..])
  {
    match IsException(du)
    case Failure(_) => None
    case Success(isException) =>
      if !isException then None
      else if du.msgType != Response then None
      else if |du.buffer| == 0 then None
      else Decode(Kind.ExceptionResponse, du.buffer[TCP_HEADER_SIZE..])
  }

  // ---------------------------------------------------------------------
  // Round trips
  // ---------------------------------------------------------------------

  /** The header bytes of a frame, one by one. */
  lemma HeaderBytes(transactionId: u16, size: nat)
    ensures var h := Header(transactionId, size);
            h[0] == Hi(transactionId) && h[1] == Lo(transactionId) && h[2] == 0 && h[3] == 0
            && h[4] == Hi(size % 0x1_0000) && h[5] == Lo(size % 0x1_0000)
  {
  }

  /** The header accessors of a unit whose PDU bytes are `pdu`. */
  lemma FrameAccessors(transactionId: u16, size: nat, pdu: seq<byte>, t: MessageType)
    requires |pdu| >= EXCEPTION_PDU_SIZE
    ensures var du := DataUnit(Header(transactionId, size) + pdu, t);
            TransactionId(du) == Success(transactionId)
            && MessageLength(du) == Success(size % 0x1_0000)
            && UnitId(du) == Success(pdu[0])
            && IsException(du) == Success(pdu[1] >= EXCEPTION_BIT)
            && UnitFunctionCode(du) == Success(ClearExceptionBit(pdu[1]))
            && UnitExceptionCode(du) == Success(if pdu[1] >= EXCEPTION_BIT then pdu[2] else NO_EXCEPTION)
  {
    var h := Header(transactionId, size);
    var f := h + pdu;
    HeaderBytes(transactionId, size);
    assert f[0] == h[0] && f[1] == h[1] && f[4] == h[4] && f[5] == h[5];
    assert f[6] == pdu[0] && f[7] == pdu[1] && f[8] == pdu[2];
    WordOfHiLo(transactionId);
    WordOfHiLo(size % 0x1_0000);
  }

  /** The function-code byte of a serialized PDU has its top bit set
      exactly for an exception reply, and the low seven bits are the
      function code. */
  lemma SerializedFunctionCode(m: Message)
    ensures Serialize(m)[1] >= EXCEPTION_BIT <==> m.ExceptionResponse?
    ensures ClearExceptionBit(Serialize(m)[1])
            == if m.ExceptionResponse? then ClearExceptionBit(m.functionCode) else FunctionCode(KindOf(m))
  {
  }

  /** A serialized exception reply carries its exception code third. */
  lemma SerializedExceptionCode(m: Message)
    requires m.ExceptionResponse?
    ensures Serialize(m)[2] == m.exceptionCode
  {
  }

  /** The header accessors of an encoded unit give back the transaction id,
      the PDU size cut to 16 bits, the unit id and the function code, and
      the exception code of an exception reply. */
  lemma EncodedHeader(transactionId: u16, m: Message)
    ensures var du := DataUnit(Frame(transactionId, m), TypeOf(KindOf(m)));
            TransactionId(du) == Success(transactionId)
            && MessageLength(du) == Success(Size(m) % 0x1_0000)
            && UnitId(du) == Success(m.unitId)
            && IsException(du) == Success(m.ExceptionResponse?)
            && UnitFunctionCode(du) == Success(if m.ExceptionResponse? then ClearExceptionBit(m.functionCode) else FunctionCode(KindOf(m)))
            && UnitExceptionCode(du) == Success(if m.ExceptionResponse? then m.exceptionCode else NO_EXCEPTION)
  {
    var s := Serialize(m);
    assert Frame(transactionId, m) == Header(transactionId, Size(m)) + s;
    FrameAccessors(transactionId, Size(m), s, TypeOf(KindOf(m)));
    SerializedFunctionCode(m);
    if m.ExceptionResponse? {
      SerializedExceptionCode(m);
    }
  }

  /** `pdu<T>()` of a unit built from a message that is not an exception
      reply gives back the message as its type's decoder reads it, which is
      the message itself when it is well formed. */
  lemma PduOfEncoded(transactionId: u16, m: Message)
    requires !m.ExceptionResponse?
    ensures Pdu(DataUnit(Frame(transactionId, m), TypeOf(KindOf(m))), KindOf(m)) == Some(Normalize(m))
    ensures WellFormed(m) ==> Pdu(DataUnit(Frame(transactionId, m), TypeOf(KindOf(m))), KindOf(m)) == Some(m)
  {
    var f := Frame(transactionId, m);
    assert f[TCP_HEADER_SIZE..] == Serialize(m);
    EncodedHeader(transactionId, m);
    DecodeSerialize(m);
    if WellFormed(m) {
      NormalizeFixesWellFormed(m);
    }
  }

  /** `pdu<T>()` of an encoded unit is none for every other message type,
      and `pdu<exception_response>()` is none as well. */
  lemma PduOfEncodedOtherKind(transactionId: u16, m: Message, k: Kind)
    requires !m.ExceptionResponse? && k != Kind.ExceptionResponse && k != KindOf(m)
    ensures Pdu(DataUnit(Frame(transactionId, m), TypeOf(KindOf(m))), k) == None
    ensures PduException(DataUnit(Frame(transactionId, m), TypeOf(KindOf(m)))) == None
  {
    EncodedHeader(transactionId, m);
    FunctionCodeIdentifiesKind(k, KindOf(m));
  }

  /** `pdu<exception_response>()` of a unit built from an exception reply
      gives it back with the exception bit cleared from its function code;
      every `pdu<T>()` of it is none. */
  lemma PduOfEncodedException(transactionId: u16, m: Message, k: Kind)
    requires m.ExceptionResponse? && k != Kind.ExceptionResponse
    ensures PduException(DataUnit(Frame(transactionId, m), Response)) == Some(Normalize(m))
    ensures Pdu(DataUnit(Frame(transactionId, m), Response), k) == None
  {
    var f := Frame(transactionId, m);
    assert f[TCP_HEADER_SIZE..] == Serialize(m);
    EncodedHeader(transactionId, m);
    DecodeSerialize(m);
  }

  /** Reading an encoded frame back with either parsing constructor gives
      the same unit, as long as the size fits the 16-bit length field. */
  lemma ParseEncoded(transactionId: u16, m: Message)
    requires Size(m) < 0x1_0000
    ensures var f := Frame(transactionId, m);
            FromBuffer(f, |f|, TypeOf(KindOf(m))) == Success(DataUnit(f, TypeOf(KindOf(m))))
            && FromParts(f[..TCP_HEADER_SIZE], f[TCP_HEADER_SIZE..], Size(m), TypeOf(KindOf(m)))
               == Success(DataUnit(f, TypeOf(KindOf(m))))
  {
    ParseFrame(transactionId, Serialize(m), TypeOf(KindOf(m)));
  }

  /** The same for any PDU bytes of fewer than 2^16 bytes. */
  lemma ParseFrame(transactionId: u16, pdu: seq<byte>, t: MessageType)
    requires 0 < |pdu| < 0x1_0000
    ensures var f := Header(transactionId, |pdu|) + pdu;
            FromBuffer(f, |f|, t) == Success(DataUnit(f, t))
            && FromParts(f[..TCP_HEADER_SIZE], f[TCP_HEADER_SIZE..], |pdu|, t) == Success(DataUnit(f, t))
  {
    var h := Header(transactionId, |pdu|);
    HeaderFields(transactionId, |pdu|);
    ParseWhole(h, pdu, t);
    ParseParts(h, pdu, t);
  }

  /** A header carries the zero protocol id and a size below 2^16 as is. */
  lemma HeaderFields(transactionId: u16, size: nat)
    requires size < 0x1_0000
    ensures var h := Header(transactionId, size);
            h[2] == 0 && h[3] == 0 && LengthField(h) == size
  {
    var w: u16 := size;
    assert size % 0x1_0000 == w;
    HeaderBytes(transactionId, size);
    var h := Header(transactionId, size);
    assert h[4] == Hi(w) && h[5] == Lo(w);
    WordOfHiLo(w);
  }

  lemma ParseWhole(h: seq<byte>, pdu: seq<byte>, t: MessageType)
    requires |h| == TCP_HEADER_SIZE && 0 < |pdu| < 0x1_0000 && LengthField(h) == |pdu|
    ensures FromBuffer(h + pdu, |h + pdu|, t) == Success(DataUnit(h + pdu, t))
  {
    var f := h + pdu;
    assert f[4] == h[4] && f[5] == h[5];
    DataLengthOfRead(|f|);
  }

  lemma ParseParts(h: seq<byte>, pdu: seq<byte>, t: MessageType)
    requires |h| == TCP_HEADER_SIZE && h[2] == 0 && h[3] == 0 && 0 < |pdu| == LengthField(h)
    ensures var f := h + pdu;
            FromParts(f[..TCP_HEADER_SIZE], f[TCP_HEADER_SIZE..], |pdu|, t) == Success(DataUnit(f, t))
  {
    var f := h + pdu;
    assert f[..TCP_HEADER_SIZE] == h && f[TCP_HEADER_SIZE..] == pdu;
  }
}
