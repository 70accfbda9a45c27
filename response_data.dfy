/*
 * `modbus_response_t`: the data a read returns, with typed accessors that
 * take coils least significant bit first and 16- and 32-bit values in
 * normal (big-endian) or byte-swapped order. An accessor on an invalid
 * object gives false or 0; an index past the data fails as `at()` does.
 */
module ResponseData {
  import opened Types
  import opened Bytes

  /** The data buffer is shared and may be absent (a null `shared_ptr`, here `None`). */
  datatype ModbusResponse = ModbusResponse(model: DataModel, data: Option<seq<byte>>, startAddress: u16, numValues: u16)

  /** `modbus_response_t()` */
  const DefaultResponse: ModbusResponse := ModbusResponse(InvalidDataType, None, 0, 0)

  /** `isValid()`: a data model, a non-null non-empty buffer and a non-zero value count. */
  predicate IsValid(r: ModbusResponse)
  {
    !(r.model == InvalidDataType || r.data.None? || |r.data.value| == 0 || r.numValues == 0)
  }

  /** `set_data_model(type)` */
  function SetDataModel(r: ModbusResponse, model: DataModel): (r': ModbusResponse)
    ensures r'.model == model && r'.data == r.data
    ensures r'.startAddress == r.startAddress && r'.numValues == r.numValues
  {
    r.(model := model)
  }

  /** `set_data(data)` */
  function SetData(r: ModbusResponse, data: Option<seq<byte>>): (r': ModbusResponse)
    ensures r'.data == data && r'.model == r.model
    ensures r'.startAddress == r.startAddress && r'.numValues == r.numValues
  {
    r.(data := data)
  }

  /** `buffer_length()`: the buffer size cast to 16 bits, or 0 when invalid. */
  function BufferLength(r: ModbusResponse): (n: u16)
    ensures !IsValid(r) ==> n == 0
    ensures IsValid(r) && |r.data.value| < 0x1_0000 ==> n == |r.data.value|
    ensures IsValid(r) ==> (|r.data.value| - n) % 0x1_0000 == 0
  {
    if !IsValid(r) then 0 else |r.data.value| % 0x1_0000
  }

  /** `set_data` takes a buffer of any size, so a valid response holding
      2^16 or more bytes reports its size less a multiple of 2^16: one of
      exactly 2^16 bytes reports a length of 0, the same as an invalid one. */
  lemma BufferLengthWraps(r: ModbusResponse, extra: nat)
    requires IsValid(r) && |r.data.value| == 0x1_0000 + extra && extra < 0x1_0000
    ensures BufferLength(r) == extra
    ensures extra == 0 ==> BufferLength(r) == BufferLength(DefaultResponse)
  {
  }

  // ---------------------------------------------------------------------
  // Two's-complement casts
  // ---------------------------------------------------------------------

  /** `(int8_t)b` */
  function Int8(b: byte): (v: int)
    ensures -0x80 <= v < 0x80 && v % 0x100 == b
  {
    if b < 0x80 then b else b - 0x100
  }

  /** `(int16_t)w` */
  function Int16(w: u16): (v: int)
    ensures -0x8000 <= v < 0x8000 && v % 0x1_0000 == w
  {
    if w < 0x8000 then w else w - 0x1_0000
  }

  /** `(int32_t)d` */
  function Int32(d: nat): (v: int)
    requires d < 0x1_0000_0000
    ensures -0x8000_0000 <= v < 0x8000_0000 && v % 0x1_0000_0000 == d
  {
    if d < 0x8000_0000 then d else d - 0x1_0000_0000
  }

  // ---------------------------------------------------------------------
  // Accessors
  // ---------------------------------------------------------------------

  /** `getBool(index)`: bit `index % 8` of byte `index / 8`. */
  function GetBool(r: ModbusResponse, index: nat): (b: Result<bool>)
    ensures !IsValid(r) ==> b == Success(false)
    ensures IsValid(r) ==> (b.Success? <==> index < 8 * |r.data.value|)
    ensures IsValid(r) && b.Success? ==> (b.value <==> BitAt(r.data.value, index))
    ensures b.Failure? ==> b.error == OutOfRange
  {
    if !IsValid(r) then Success(false)
    else if index / 8 >= |r.data.value| then Failure(OutOfRange)
    else Success(BitOf(r.data.value[index / 8], index % 8))
  }

  /** `getUINT8(index)` */
  function GetUInt8(r: ModbusResponse, index: nat): (b: Result<byte>)
    ensures !IsValid(r) ==> b == Success(0)
    ensures IsValid(r) ==> (b.Success? <==> index < |r.data.value|)
    ensures IsValid(r) && b.Success? ==> b.value == r.data.value[index]
  {
    if !IsValid(r) then Success(0)
    else if index >= |r.data.value| then Failure(OutOfRange)
    else Success(r.data.value[index])
  }

  /** `getINT8(index)` */
  function GetInt8(r: ModbusResponse, index: nat): (v: Result<int>)
    ensures v.Success? <==> GetUInt8(r, index).Success?
    ensures v.Success? ==> v.value == Int8(GetUInt8(r, index).value)
  {
    if !IsValid(r) then Success(0)
    else if index >= |r.data.value| then Failure(OutOfRange)
    else Success(Int8(r.data.value[index]))
  }

  /** `getUINT16(index, order)`: bytes `2 * index` and `2 * index + 1`, the
      first one most significant in normal order and least significant
      when byte-swapped. */
  function GetUInt16(r: ModbusResponse, index: nat, order: ByteOrder): (w: Result<u16>)
    ensures !IsValid(r) ==> w == Success(0)
    ensures IsValid(r) ==> (w.Success? <==> 2 * index + 1 < |r.data.value|)
    ensures IsValid(r) && w.Success? && order == Normal ==>
            BigEndian(w.value) == r.data.value[2 * index..2 * index + 2]
    ensures IsValid(r) && w.Success? && order == ByteSwapped ==>
            BigEndian(w.value) == [r.data.value[2 * index + 1], r.data.value[2 * index]]
    ensures w.Failure? ==> w.error == OutOfRange
  {
    if !IsValid(r) then Success(0)
    else
      var d := r.data.value;
      if 2 * index + 1 >= |d| then Failure(OutOfRange)
      else
        match order
        case Normal =>
          HiLoOfWord(d[2 * index], d[2 * index + 1]);
          Success(Word(d[2 * index], d[2 * index + 1]))
        case ByteSwapped =>
          HiLoOfWord(d[2 * index + 1], d[2 * index]);
          Success(Word(d[2 * index + 1], d[2 * index]))
  }

  /** `getINT16(index, order)` */
  function GetInt16(r: ModbusResponse, index: nat, order: ByteOrder): (v: Result<int>)
    ensures v.Success? <==> GetUInt16(r, index, order).Success?
    ensures v.Success? ==> v.value == Int16(GetUInt16(r, index, order).value)
  {
    match GetUInt16(r, index, order)
    case Failure(e) => Failure(e)
    case Success(w) => if !IsValid(r) then Success(0) else Success(Int16(w))
  }

  /** Four bytes, the first most significant: the sum of the shifted bytes
      the C++ code adds into a `uint32_t`. */
  function Word32(b3: byte, b2: byte, b1: byte, b0: byte): (d: nat)
    ensures d < 0x1_0000_0000
  {
    b3 * 0x100_0000 + b2 * 0x1_0000 + b1 * 0x100 + b0
  }

  /** A 32-bit value as four bytes, most significant first. */
  function BigEndian32(d: nat): (bs: seq<byte>)
    requires d < 0x1_0000_0000
    ensures |bs| == 4
  {
    [d / 0x100_0000, d / 0x1_0000 % 0x100, d / 0x100 % 0x100, d % 0x100]
  }

  lemma MulMonotonic(a: nat, b: nat, n: nat)
    requires a <= b
    ensures a * n <= b * n
  {
  }

  /** Division by `n` undoes `q * n + r` when `r < n`. */
  lemma DivOfSum(q: nat, r: nat, n: nat)
    requires 0 < n && r < n
    ensures (q * n + r) / n == q && (q * n + r) % n == r
  {
    var x := q * n + r;
    var q', r' := x / n, x % n;
    assert x == q' * n + r' && 0 <= r' < n;
    if q' > q {
      MulMonotonic(q + 1, q', n);
      assert false;
    } else if q' < q {
      MulMonotonic(q' + 1, q, n);
      assert false;
    }
  }

  /** Splitting the sum of four shifted bytes gives the four bytes back. */
  lemma BigEndian32OfWord32(b3: byte, b2: byte, b1: byte, b0: byte)
    ensures BigEndian32(Word32(b3, b2, b1, b0)) == [b3, b2, b1, b0]
  {
    DivOfSum(b3, b2 * 0x1_0000 + b1 * 0x100 + b0, 0x100_0000);
    DivOfSum(b3 * 0x100 + b2, b1 * 0x100 + b0, 0x1_0000);
    DivOfSum(b3 * 0x1_0000 + b2 * 0x100 + b1, b0, 0x100);
    DivOfSum(b3, b2, 0x100);
    DivOfSum(b3 * 0x100 + b2, b1, 0x100);
  }

  /** ... and adding the four bytes of a 32-bit value gives the value back. */
  lemma Word32OfBigEndian32(d: nat)
    requires d < 0x1_0000_0000
    ensures var e := BigEndian32(d); Word32(e[0], e[1], e[2], e[3]) == d
  {
    var q1, b0 := d / 0x100, d % 0x100;
    var q2, b1 := q1 / 0x100, q1 % 0x100;
    var q3, b2 := q2 / 0x100, q2 % 0x100;
    assert d == q2 * 0x1_0000 + (b1 * 0x100 + b0) by {
      assert d == q1 * 0x100 + b0 && q1 == q2 * 0x100 + b1;
    }
    assert d == q3 * 0x100_0000 + (b2 * 0x1_0000 + b1 * 0x100 + b0) by {
      assert q2 == q3 * 0x100 + b2;
    }
    DivOfSum(q2, b1 * 0x100 + b0, 0x1_0000);
    DivOfSum(q3, b2 * 0x1_0000 + b1 * 0x100 + b0, 0x100_0000);
    assert BigEndian32(d) == [q3, b2, b1, b0];
  }

  /** `getUINT32(index, order)`: bytes `4 * index` to `4 * index + 3`,
      most significant first in normal order and reversed when byte-swapped. */
  function GetUInt32(r: ModbusResponse, index: nat, order: ByteOrder): (d: Result<nat>)
    ensures !IsValid(r) ==> d == Success(0)
    ensures IsValid(r) ==> (d.Success? <==> 4 * index + 3 < |r.data.value|)
    ensures d.Success? ==> d.value < 0x1_0000_0000
    ensures IsValid(r) && d.Success? && order == Normal ==>
            BigEndian32(d.value) == r.data.value[4 * index..4 * index + 4]
    ensures IsValid(r) && d.Success? && order == ByteSwapped ==>
            var e := BigEndian32(d.value);
            [e[3], e[2], e[1], e[0]] == r.data.value[4 * index..4 * index + 4]
    ensures d.Failure? ==> d.error == OutOfRange
  {
    if !IsValid(r) then Success(0)
    else
      var d := r.data.value;
      var i := 4 * index;
      if i + 3 >= |d| then Failure(OutOfRange)
      else
        match order
        case Normal =>
          BigEndian32OfWord32(d[i], d[i + 1], d[i + 2], d[i + 3]);
          Success(Word32(d[i], d[i + 1], d[i + 2], d[i + 3]))
        case ByteSwapped =>
          BigEndian32OfWord32(d[i + 3], d[i + 2], d[i + 1], d[i]);
          Success(Word32(d[i + 3], d[i + 2], d[i + 1], d[i]))
  }

  /** `getINT32(index, order)` */
  function GetInt32(r: ModbusResponse, index: nat, order: ByteOrder): (v: Result<int>)
    ensures v.Success? <==> GetUInt32(r, index, order).Success?
    ensures v.Success? ==> v.value == Int32(GetUInt32(r, index, order).value)
  {
    match GetUInt32(r, index, order)
    case Failure(e) => Failure(e)
    case Success(d) => if !IsValid(r) then Success(0) else Success(Int32(d))
  }

  /** `data_type(code)`: the data model a reply to each function holds. */
  function DataType(code: byte): (model: DataModel)
    ensures model == WriteConfirmation <==>
            code in {WRITE_SINGLE_COIL, WRITE_MULTIPLE_COILS, WRITE_SINGLE_REGISTER, WRITE_MULTIPLE_REGISTERS}
    ensures model == InvalidDataType <==>
            code !in {READ_COILS, READ_DISCRETE_INPUTS, READ_INPUT_REGISTERS, READ_HOLDING_REGISTERS,
                      WRITE_SINGLE_COIL, WRITE_MULTIPLE_COILS, WRITE_SINGLE_REGISTER, WRITE_MULTIPLE_REGISTERS}
    ensures model == Coil <==> code == READ_COILS
    ensures model == InputStatus <==> code == READ_DISCRETE_INPUTS
    ensures model == InputRegister <==> code == READ_INPUT_REGISTERS
    ensures model == HoldingRegister <==> code == READ_HOLDING_REGISTERS
  {
    if code == READ_COILS then Coil
    else if code == READ_DISCRETE_INPUTS then InputStatus
    else if code == READ_INPUT_REGISTERS then InputRegister
    else if code == READ_HOLDING_REGISTERS then HoldingRegister
    else if code == WRITE_SINGLE_COIL || code == WRITE_MULTIPLE_COILS
            || code == WRITE_SINGLE_REGISTER || code == WRITE_MULTIPLE_REGISTERS then WriteConfirmation
    else InvalidDataType
  }

  // ---------------------------------------------------------------------
  // Properties
  // ---------------------------------------------------------------------

  /** A default-constructed response is invalid, so its buffer length is 0
      and every accessor gives false or 0 whatever the index. */
  lemma DefaultResponseIsEmpty(index: nat, order: ByteOrder)
    ensures !IsValid(DefaultResponse) && BufferLength(DefaultResponse) == 0
    ensures GetBool(DefaultResponse, index) == Success(false)
    ensures GetUInt8(DefaultResponse, index) == Success(0) && GetInt8(DefaultResponse, index) == Success(0)
    ensures GetUInt16(DefaultResponse, index, order) == Success(0) && GetInt16(DefaultResponse, index, order) == Success(0)
    ensures GetUInt32(DefaultResponse, index, order) == Success(0) && GetInt32(DefaultResponse, index, order) == Success(0)
  {
  }

  /** Coils packed least significant bit first, as a write-multiple-coils
      request packs them, read back one by one through `getBool`. */
  lemma GetBoolOfPackedCoils(r: ModbusResponse, bools: seq<bool>, index: nat)
    requires IsValid(r)
    requires forall j :: 0 <= j < 8 * |r.data.value| ==> (BitAt(r.data.value, j) <==> j < |bools| && bools[j])
    requires index < |bools| <= 8 * |r.data.value|
    ensures GetBool(r, index) == Success(bools[index])
  {
  }

  /** Registers written most significant byte first read back in normal
      order, and with their bytes exchanged in byte-swapped order. */
  lemma {:induction false} GetUInt16OfRegisters(r: ModbusResponse, words: seq<u16>, index: nat)
    requires IsValid(r) && r.data.value == WordsToBytes(words) && index < |words|
    ensures GetUInt16(r, index, Normal) == Success(words[index])
    ensures GetUInt16(r, index, ByteSwapped) == Success(Word(Lo(words[index]), Hi(words[index])))
  {
    var d := r.data.value;
    assert (2 * index) / 2 == index && (2 * index + 1) / 2 == index;
    assert d[2 * index] == Hi(words[index]) && d[2 * index + 1] == Lo(words[index]);
    WordOfHiLo(words[index]);
  }

  /** In normal order a 32-bit value is two registers, the first one most
      significant; byte-swapped, it is the two byte-swapped registers in
      the other order. */
  lemma GetUInt32OfTwoRegisters(r: ModbusResponse, index: nat)
    requires IsValid(r) && 4 * index + 3 < |r.data.value|
    ensures GetUInt32(r, index, Normal).value
            == GetUInt16(r, 2 * index, Normal).value * 0x1_0000 + GetUInt16(r, 2 * index + 1, Normal).value
    ensures GetUInt32(r, index, ByteSwapped).value
            == GetUInt16(r, 2 * index + 1, ByteSwapped).value * 0x1_0000 + GetUInt16(r, 2 * index, ByteSwapped).value
  {
  }

  /** Swapping the byte order twice reads the original value back: the
      byte-swapped value of a register is the normal value with its two
      bytes exchanged. */
  lemma {:induction false} GetUInt16Swapped(r: ModbusResponse, index: nat)
    requires IsValid(r) && 2 * index + 1 < |r.data.value|
    ensures var w := GetUInt16(r, index, Normal).value;
            GetUInt16(r, index, ByteSwapped).value == Word(Lo(w), Hi(w))
  {
    var d := r.data.value;
    HiLoOfWord(d[2 * index], d[2 * index + 1]);
  }

  /** The signed accessors agree with the unsigned ones modulo 2^n and are
      negative exactly when the top bit is set. */
  lemma SignedReads(r: ModbusResponse, index: nat, order: ByteOrder)
    requires IsValid(r)
    ensures GetInt8(r, index).Success? ==> (GetInt8(r, index).value < 0 <==> GetUInt8(r, index).value >= 0x80)
    ensures GetInt16(r, index, order).Success? ==> (GetInt16(r, index, order).value < 0 <==> GetUInt16(r, index, order).value >= 0x8000)
    ensures GetInt32(r, index, order).Success? ==> (GetInt32(r, index, order).value < 0 <==> GetUInt32(r, index, order).value >= 0x8000_0000)
  {
  }

  /** Wherever a register sits in the buffer, and whatever the other bytes
      hold, a normal-order read at its index gives the register back. */
  lemma {:induction false} GetUInt16At(r: ModbusResponse, index: nat, w: u16)
    requires IsValid(r) && 2 * index + 1 < |r.data.value|
    requires r.data.value[2 * index..2 * index + 2] == BigEndian(w)
    ensures GetUInt16(r, index, Normal) == Success(w)
  {
    assert r.data.value[2 * index] == Hi(w) && r.data.value[2 * index + 1] == Lo(w);
    WordOfHiLo(w);
  }

  /** Likewise a 32-bit value stored most significant byte first. */
  lemma {:induction false} GetUInt32At(r: ModbusResponse, index: nat, v: nat)
    requires IsValid(r) && 4 * index + 3 < |r.data.value| && v < 0x1_0000_0000
    requires r.data.value[4 * index..4 * index + 4] == BigEndian32(v)
    ensures GetUInt32(r, index, Normal) == Success(v)
  {
    var d, i := r.data.value, 4 * index;
    assert d[i] == BigEndian32(v)[0] && d[i + 1] == BigEndian32(v)[1];
    assert d[i + 2] == BigEndian32(v)[2] && d[i + 3] == BigEndian32(v)[3];
    Word32OfBigEndian32(v);
  }

  /** The five-byte coil buffer {0xCD, 0x6B, 0xB2, 0x0E, 0x1B} at start
      address 2 and the values each accessor reads from it. */
  lemma KnownValues()
    ensures var r := ModbusResponse(Coil, Some([0xCD, 0x6B, 0xB2, 0x0E, 0x1B]), 2, 5);
            && IsValid(r) && BufferLength(r) == 5
            && GetBool(r, 0) == Success(true) && GetBool(r, 4) == Success(false)
            && GetBool(r, 11) == Success(true) && GetBool(r, 16) == Success(false)
            && GetUInt8(r, 1) == Success(0x6B) && GetInt8(r, 2) == Success(-78)
            && GetUInt16(r, 0, Normal) == Success(0xCD6B)
            && GetUInt16(r, 1, ByteSwapped) == Success(0x0EB2)
            && GetInt16(r, 0, ByteSwapped) == Success(27597)
            && GetInt16(r, 1, Normal) == Success(-19954)
            && GetUInt32(r, 0, Normal) == Success(3446387214)
            && GetUInt32(r, 0, ByteSwapped) == Success(246574029)
            && GetInt32(r, 0, Normal) == Success(-848580082)
            && GetInt32(r, 0, ByteSwapped) == Success(246574029)
  {
  }
}
