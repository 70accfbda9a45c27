/*
 * The iterator-driven half of the message codec: `serialize(it)` writes a
 * PDU byte by byte through an advancing output iterator, the iterator
 * constructors read one back field by field, and the list-building
 * constructors fill their vectors in loops. Each method is proved against
 * the value-level codec of module Messages.
 */
module MessageIO {
  import opened Types
  import opened Bytes
  import opened Messages

  // ---------------------------------------------------------------------
  // An output iterator over a byte array
  // ---------------------------------------------------------------------

  /** `now` is `was` with `done` written from `start` on and nothing else changed. */
  ghost predicate Wrote(now: seq<byte>, was: seq<byte>, start: nat, done: seq<byte>)
  {
    |now| == |was| && start + |done| <= |now| &&
    forall j :: 0 <= j < |now| ==> now[j] == (if start <= j < start + |done| then done[j - start] else was[j])
  }

  /** Writes one byte and advances the output position. */
  method WriteByte(buf: array<byte>, ghost was: seq<byte>, ghost start: nat, ghost done: seq<byte>, pos: nat, b: byte)
    returns (next: nat)
    requires Wrote(buf[..], was, start, done) && pos == start + |done| && pos < buf.Length
    modifies buf
    ensures next == pos + 1 && Wrote(buf[..], was, start, done + [b])
  {
    buf[pos] := b;
    next := pos + 1;
  }

  /** Writes a list of bytes, one at a time, in order. */
  method WriteBytes(buf: array<byte>, ghost was: seq<byte>, ghost start: nat, ghost done: seq<byte>, pos: nat, bs: seq<byte>)
    returns (next: nat)
    requires Wrote(buf[..], was, start, done) && pos == start + |done| && pos + |bs| <= buf.Length
    modifies buf
    ensures next == pos + |bs| && Wrote(buf[..], was, start, done + bs)
  {
    next := pos;
    var i := 0;
    while i < |bs|
      invariant 0 <= i <= |bs| && next == pos + i
      invariant Wrote(buf[..], was, start, done + bs[..i])
    {
      buf[next] := bs[i];
      assert bs[..i + 1] == bs[..i] + [bs[i]];
      next := next + 1;
      i := i + 1;
    }
    assert bs[..i] == bs;
  }

  /** Writes a list of registers, each as its high byte then its low byte. */
  method WriteWords(buf: array<byte>, ghost was: seq<byte>, ghost start: nat, ghost done: seq<byte>, pos: nat, ws: seq<u16>)
    returns (next: nat)
    requires Wrote(buf[..], was, start, done) && pos == start + |done| && pos + 2 * |ws| <= buf.Length
    modifies buf
    ensures next == pos + 2 * |ws| && Wrote(buf[..], was, start, done + WordsToBytes(ws))
  {
    next := pos;
    var i := 0;
    while i < |ws|
      invariant 0 <= i <= |ws| && next == pos + 2 * i
      invariant Wrote(buf[..], was, start, done + WordsToBytes(ws[..i]))
    {
      buf[next] := Hi(ws[i]);
      buf[next + 1] := Lo(ws[i]);
      WordsToBytesSnoc(ws[..i], ws[i]);
      assert ws[..i + 1] == ws[..i] + [ws[i]];
      next := next + 2;
      i := i + 1;
    }
    assert ws[..i] == ws;
  }

  // ---------------------------------------------------------------------
  // serialize
  // ---------------------------------------------------------------------

  /** The 16-bit fields `serialize` writes after the function code, in order. */
  function FixedWords(m: Message): (ws: seq<u16>)
    ensures |ws| <= 4
  {
    match m
    case ReadCoilsRequest(_, start, length) => [start, length]
    case ReadDiscreteInputsRequest(_, start, length) => [start, length]
    case ReadHoldingRegistersRequest(_, start, length) => [start, length]
    case ReadInputRegistersRequest(_, start, length) => [start, length]
    case WriteSingleCoilRequest(_, start, value) => [start, CoilWord(value)]
    case WriteSingleRegisterRequest(_, start, value) => [start, value]
    case WriteMultipleCoilsRequest(_, start, length, _) => [start, length]
    case WriteMultipleRegistersRequest(_, start, length, _) => [start, length]
    case MaskWriteRegisterRequest(_, start, andMask, orMask) => [start, andMask, orMask]
    case ReadWriteRegistersRequest(_, readStart, readNum, writeStart, writeNum, _) => [readStart, readNum, writeStart, writeNum]
    case WriteSingleCoilResponse(_, start, isOn) => [start, if isOn then COIL_ON else COIL_OFF]
    case WriteSingleRegisterResponse(_, start, value) => [start, value]
    case WriteMultipleCoilsResponse(_, start, length) => [start, length]
    case WriteMultipleRegistersResponse(_, start, length) => [start, length]
    case MaskWriteRegisterResponse(_, start, andMask, orMask) => [start, andMask, orMask]
    case _ => []
  }

  predicate HasByteList(m: Message)
  {
    m.WriteMultipleCoilsRequest? || m.ReadCoilsResponse? || m.ReadDiscreteInputsResponse?
    || m.ReadHoldingRegistersResponse? || m.ReadInputRegistersResponse?
  }

  predicate HasWordList(m: Message)
  {
    m.WriteMultipleRegistersRequest? || m.ReadWriteRegistersRequest? || m.ReadWriteRegistersResponse?
  }

  /** What `serialize` writes after the 16-bit fields: the byte count and
      the list, or the exception code. */
  function Tail(m: Message): seq<byte>
  {
    if HasByteList(m) then [CountByte(|m.values|)] + m.values
    else if HasWordList(m) then [CountByte(2 * |m.words|)] + WordsToBytes(m.words)
    else if m.ExceptionResponse? then [m.exceptionCode]
    else []
  }

  lemma WordsToBytesFields(ws: seq<u16>)
    requires |ws| <= 4
    ensures |ws| == 0 ==> WordsToBytes(ws) == []
    ensures |ws| == 2 ==> WordsToBytes(ws) == BigEndian(ws[0]) + BigEndian(ws[1])
    ensures |ws| == 3 ==> WordsToBytes(ws) == BigEndian(ws[0]) + BigEndian(ws[1]) + BigEndian(ws[2])
    ensures |ws| == 4 ==> WordsToBytes(ws) == BigEndian(ws[0]) + BigEndian(ws[1]) + BigEndian(ws[2]) + BigEndian(ws[3])
  {
    if |ws| >= 1 {
      WordsToBytesSnoc([], ws[0]);
      assert [] + [ws[0]] == ws[..1];
    }
    if |ws| >= 2 {
      WordsToBytesSnoc(ws[..1], ws[1]);
      assert ws[..1] + [ws[1]] == ws[..2];
    }
    if |ws| >= 3 {
      WordsToBytesSnoc(ws[..2], ws[2]);
      assert ws[..2] + [ws[2]] == ws[..3];
    }
    if |ws| == 4 {
      WordsToBytesSnoc(ws[..3], ws[3]);
      assert ws[..3] + [ws[3]] == ws;
    }
    assert |ws| == 2 ==> ws[..2] == ws;
    assert |ws| == 3 ==> ws[..3] == ws;
  }

  /** Every PDU is its unit id, its function-code byte, its 16-bit fields
      and then its counted list or exception code. */
  lemma PayloadSplit(m: Message)
    ensures Payload(m) == WordsToBytes(FixedWords(m)) + Tail(m)
  {
    WordsToBytesFields(FixedWords(m));
    if HasByteList(m) {
      PayloadSplitByteList(m);
    } else if HasWordList(m) {
      PayloadSplitWordList(m);
    } else {
      PayloadSplitFixed(m);
    }
  }

  lemma Associate(a: seq<byte>, b: seq<byte>, c: seq<byte>)
    ensures a + (b + c) == a + b + c
  {
  }

  lemma Regroup(a: seq<byte>, c: byte, v: seq<byte>)
    ensures a + [c] + v == a + ([c] + v)
  {
  }

  lemma PayloadSplitByteList(m: Message)
    requires HasByteList(m)
    ensures Payload(m) == WordsToBytes(FixedWords(m)) + Tail(m)
  {
    var t := [CountByte(|m.values|)] + m.values;
    assert Tail(m) == t;
    if m.WriteMultipleCoilsRequest? {
      var ws := [m.startAddress, m.length];
      assert FixedWords(m) == ws;
      WordsToBytesFields(ws);
      Regroup(BigEndian(m.startAddress) + BigEndian(m.length), CountByte(|m.values|), m.values);
    } else {
      assert FixedWords(m) == [];
      WordsToBytesFields([]);
      assert Payload(m) == t;
    }
  }

  lemma PayloadSplitWordList(m: Message)
    requires HasWordList(m)
    ensures Payload(m) == WordsToBytes(FixedWords(m)) + Tail(m)
  {
    var c := CountByte(2 * |m.words|);
    var w := WordsToBytes(m.words);
    assert Tail(m) == [c] + w;
    match m
    case WriteMultipleRegistersRequest(_, start, length, words) =>
      var ws := [start, length];
      assert FixedWords(m) == ws;
      WordsToBytesFields(ws);
      Regroup(BigEndian(start) + BigEndian(length), c, w);
    case ReadWriteRegistersRequest(_, readStart, readNum, writeStart, writeNum, words) =>
      var ws := [readStart, readNum, writeStart, writeNum];
      assert FixedWords(m) == ws;
      WordsToBytesFields(ws);
      Regroup(BigEndian(readStart) + BigEndian(readNum) + BigEndian(writeStart) + BigEndian(writeNum), c, w);
    case ReadWriteRegistersResponse(_, words) =>
      assert FixedWords(m) == [];
      WordsToBytesFields([]);
  }

  lemma PayloadSplitFixed(m: Message)
    requires !HasByteList(m) && !HasWordList(m)
    ensures Payload(m) == WordsToBytes(FixedWords(m)) + Tail(m)
  {
    WordsToBytesFields(FixedWords(m));
  }

  /** `serialize(it)`: writes the PDU at `pos` and returns the position
      after it. */
  method SerializeInto(m: Message, buf: array<byte>, pos: nat) returns (next: nat)
    requires pos + Size(m) <= buf.Length
    modifies buf
    ensures next == pos + Size(m)
    ensures Wrote(buf[..], old(buf[..]), pos, Serialize(m))
  {
    ghost var was := buf[..];
    PayloadSplit(m);
    ghost var head := [m.unitId, FunctionCodeByte(m)];
    ghost var done := head + WordsToBytes(FixedWords(m));
    Associate(head, WordsToBytes(FixedWords(m)), Tail(m));
    next := WriteByte(buf, was, pos, [], pos, m.unitId);
    next := WriteByte(buf, was, pos, [m.unitId], next, FunctionCodeByte(m));
    assert [m.unitId] + [FunctionCodeByte(m)] == head;
    next := WriteWords(buf, was, pos, head, next, FixedWords(m));
    next := WriteTail(m, buf, was, pos, done, next);
  }

  /** The byte count and the list, or the exception code. */
  method WriteTail(m: Message, buf: array<byte>, ghost was: seq<byte>, ghost start: nat, ghost done: seq<byte>, pos: nat)
    returns (next: nat)
    requires Wrote(buf[..], was, start, done) && pos == start + |done| && pos + |Tail(m)| <= buf.Length
    modifies buf
    ensures next == pos + |Tail(m)| && Wrote(buf[..], was, start, done + Tail(m))
  {
    if HasByteList(m) {
      next := WriteCounted(buf, was, start, done, pos, m.values);
    } else if HasWordList(m) {
      next := WriteCountedWords(buf, was, start, done, pos, m.words);
    } else if m.ExceptionResponse? {
      next := WriteByte(buf, was, start, done, pos, m.exceptionCode);
    } else {
      next := pos;
      assert done + Tail(m) == done;
    }
  }

  /** Writes the byte count of a byte list (cut to 8 bits), then the list. */
  method WriteCounted(buf: array<byte>, ghost was: seq<byte>, ghost start: nat, ghost done: seq<byte>, pos: nat, values: seq<byte>)
    returns (next: nat)
    requires Wrote(buf[..], was, start, done) && pos == start + |done| && pos + 1 + |values| <= buf.Length
    modifies buf
    ensures next == pos + 1 + |values| && Wrote(buf[..], was, start, done + ([CountByte(|values|)] + values))
  {
    next := WriteByte(buf, was, start, done, pos, CountByte(|values|));
    next := WriteBytes(buf, was, start, done + [CountByte(|values|)], next, values);
    assert done + [CountByte(|values|)] + values == done + ([CountByte(|values|)] + values);
  }

  /** Writes the byte count of a register list (cut to 8 bits), then each register, high byte first. */
  method WriteCountedWords(buf: array<byte>, ghost was: seq<byte>, ghost start: nat, ghost done: seq<byte>, pos: nat, words: seq<u16>)
    returns (next: nat)
    requires Wrote(buf[..], was, start, done) && pos == start + |done| && pos + 1 + 2 * |words| <= buf.Length
    modifies buf
    ensures next == pos + 1 + 2 * |words| && Wrote(buf[..], was, start, done + ([CountByte(2 * |words|)] + WordsToBytes(words)))
  {
    next := WriteByte(buf, was, start, done, pos, CountByte(2 * |words|));
    next := WriteWords(buf, was, start, done + [CountByte(2 * |words|)], next, words);
    assert done + [CountByte(2 * |words|)] + WordsToBytes(words) == done + ([CountByte(2 * |words|)] + WordsToBytes(words));
  }

  // ---------------------------------------------------------------------
  // The iterator constructors
  // ---------------------------------------------------------------------

  /** Reads a register from two bytes, most significant first. */
  method ReadWord(buf: array<byte>, pos: nat) returns (w: u16)
    requires pos + 1 < buf.Length
    ensures w == Word(buf[pos], buf[pos + 1])
  {
    w := buf[pos] as int * 0x100;
    w := w + buf[pos + 1];
  }

  /** Reads `n` bytes into a fresh list, one at a time. */
  method ReadBytes(buf: array<byte>, from: nat, n: nat) returns (values: seq<byte>)
    requires from + n <= buf.Length
    ensures values == buf[from..from + n]
  {
    var a := new byte[n];
    var i := 0;
    while i < n
      invariant 0 <= i <= n
      invariant a[..i] == buf[from..from + i]
    {
      a[i] := buf[from + i];
      assert a[..i + 1] == a[..i] + [a[i]];
      assert buf[from..from + i + 1] == buf[from..from + i] + [buf[from + i]];
      i := i + 1;
    }
    values := a[..];
    assert a[..] == a[..n];
  }

  /** Reads `n` registers into a fresh list, two bytes each, most significant first. */
  method ReadWords(buf: array<byte>, from: nat, n: nat) returns (values: seq<u16>)
    requires from + 2 * n <= buf.Length
    ensures values == BytesToWords(buf[from..from + 2 * n])
  {
    var a := new u16[n];
    var i := 0;
    while i < n
      invariant 0 <= i <= n
      invariant a[..i] == BytesToWords(buf[from..from + 2 * i])
    {
      a[i] := ReadWord(buf, from + 2 * i);
      BytesToWordsSnoc(buf[from..from + 2 * i], buf[from + 2 * i], buf[from + 2 * i + 1]);
      assert buf[from..from + 2 * (i + 1)] == buf[from..from + 2 * i] + [buf[from + 2 * i], buf[from + 2 * i + 1]];
      assert a[..i + 1] == a[..i] + [a[i]];
      i := i + 1;
    }
    values := a[..];
    assert a[..] == a[..n];
  }

  /** The message types whose layout is the unit id, the function code and
      two or three 16-bit fields, with no list. */
  predicate IsFixedKind(k: Kind)
  {
    match k
    case WriteMultipleCoilsRequest | WriteMultipleRegistersRequest | ReadWriteRegistersRequest
       | ReadCoilsResponse | ReadDiscreteInputsResponse | ReadHoldingRegistersResponse
       | ReadInputRegistersResponse | ReadWriteRegistersResponse | ExceptionResponse => false
    case _ => true
  }

  /** The iterator constructors of the fixed-layout types: unit id, skipped
      function code, then two or three words. */
  method DecodeFixedAt(k: Kind, buf: array<byte>, pos: nat) returns (r: Option<Message>)
    requires pos <= buf.Length && IsFixedKind(k) && Decode(k, buf[pos..]).Some?
    ensures r == Decode(k, buf[pos..])
  {
    ghost var s := buf[pos..];
    var u := buf[pos];
    var a := ReadWord(buf, pos + 2);
    var b := ReadWord(buf, pos + 4);
    assert a == WordAt(s, 2) && b == WordAt(s, 4);
    match k
    case ReadCoilsRequest => r := Some(Message.ReadCoilsRequest(u, a, b));
    case ReadDiscreteInputsRequest => r := Some(Message.ReadDiscreteInputsRequest(u, a, b));
    case ReadHoldingRegistersRequest => r := Some(Message.ReadHoldingRegistersRequest(u, a, b));
    case ReadInputRegistersRequest => r := Some(Message.ReadInputRegistersRequest(u, a, b));
    case WriteSingleCoilRequest => r := Some(Message.WriteSingleCoilRequest(u, a, b));
    case WriteSingleRegisterRequest => r := Some(Message.WriteSingleRegisterRequest(u, a, b));
    case WriteSingleCoilResponse => r := Some(Message.WriteSingleCoilResponse(u, a, b == COIL_ON));
    case WriteSingleRegisterResponse => r := Some(Message.WriteSingleRegisterResponse(u, a, b));
    case WriteMultipleCoilsResponse => r := Some(Message.WriteMultipleCoilsResponse(u, a, b));
    case WriteMultipleRegistersResponse => r := Some(Message.WriteMultipleRegistersResponse(u, a, b));
    case MaskWriteRegisterRequest =>
      var c := ReadWord(buf, pos + 6);
      assert c == WordAt(s, 6);
      r := Some(Message.MaskWriteRegisterRequest(u, a, b, c));
    case MaskWriteRegisterResponse =>
      var c := ReadWord(buf, pos + 6);
      assert c == WordAt(s, 6);
      r := Some(Message.MaskWriteRegisterResponse(u, a, b, c));
  }

  /** The iterator constructors that end in a byte list: `write_multiple_coils`
      requests and the four read responses. The count byte says how many
      list bytes follow. */
  method DecodeByteListAt(k: Kind, buf: array<byte>, pos: nat) returns (r: Option<Message>)
    requires pos <= buf.Length && Decode(k, buf[pos..]).Some?
    requires k == Kind.WriteMultipleCoilsRequest || k == Kind.ReadCoilsResponse || k == Kind.ReadDiscreteInputsResponse
             || k == Kind.ReadHoldingRegistersResponse || k == Kind.ReadInputRegistersResponse
    ensures r == Decode(k, buf[pos..])
  {
    ghost var s := buf[pos..];
    var u := buf[pos];
    if k == Kind.WriteMultipleCoilsRequest {
      var a := ReadWord(buf, pos + 2);
      var b := ReadWord(buf, pos + 4);
      assert a == WordAt(s, 2) && b == WordAt(s, 4);
      var n := buf[pos + 6];
      var values := ReadBytes(buf, pos + 7, n);
      assert values == s[7..7 + n];
      r := Some(Message.WriteMultipleCoilsRequest(u, a, b, values));
    } else {
      var n := buf[pos + 2];
      var values := ReadBytes(buf, pos + 3, n);
      assert values == s[3..3 + n];
      match k
      case ReadCoilsResponse => r := Some(Message.ReadCoilsResponse(u, values));
      case ReadDiscreteInputsResponse => r := Some(Message.ReadDiscreteInputsResponse(u, values));
      case ReadHoldingRegistersResponse => r := Some(Message.ReadHoldingRegistersResponse(u, values));
      case ReadInputRegistersResponse => r := Some(Message.ReadInputRegistersResponse(u, values));
    }
  }

  /** A slice of a suffix is a slice of the whole. */
  lemma SliceOfSuffix(a: seq<byte>, p: nat, i: nat, j: nat)
    requires i <= j && p + j <= |a|
    ensures a[p..][i..j] == a[p + i..p + j]
  {
  }

  /** The iterator constructors that end in a register list: the count byte
      holds twice the number of registers that follow. */
  method DecodeWordListAt(k: Kind, buf: array<byte>, pos: nat) returns (r: Option<Message>)
    requires pos <= buf.Length && Decode(k, buf[pos..]).Some?
    requires k == Kind.WriteMultipleRegistersRequest || k == Kind.ReadWriteRegistersRequest
             || k == Kind.ReadWriteRegistersResponse
    ensures r == Decode(k, buf[pos..])
  {
    if k == Kind.WriteMultipleRegistersRequest {
      r := DecodeWriteMultipleRegistersAt(buf, pos);
    } else if k == Kind.ReadWriteRegistersRequest {
      r := DecodeReadWriteRegistersAt(buf, pos);
    } else {
      ghost var s := buf[pos..];
      var u := buf[pos];
      var n: nat := buf[pos + 2] / 2;
      var words := ReadWords(buf, pos + 3, n);
      SliceOfSuffix(buf[..], pos, 3, 3 + 2 * n);
      r := Some(Message.ReadWriteRegistersResponse(u, words));
    }
  }

  method DecodeWriteMultipleRegistersAt(buf: array<byte>, pos: nat) returns (r: Option<Message>)
    requires pos <= buf.Length && Decode(Kind.WriteMultipleRegistersRequest, buf[pos..]).Some?
    ensures r == Decode(Kind.WriteMultipleRegistersRequest, buf[pos..])
  {
    ghost var s := buf[pos..];
    var u := buf[pos];
    var a := ReadWord(buf, pos + 2);
    var b := ReadWord(buf, pos + 4);
    assert a == WordAt(s, 2) && b == WordAt(s, 4);
    var n: nat := buf[pos + 6] / 2;
    var words := ReadWords(buf, pos + 7, n);
    SliceOfSuffix(buf[..], pos, 7, 7 + 2 * n);
    r := Some(Message.WriteMultipleRegistersRequest(u, a, b, words));
  }

  method DecodeReadWriteRegistersAt(buf: array<byte>, pos: nat) returns (r: Option<Message>)
    requires pos <= buf.Length && Decode(Kind.ReadWriteRegistersRequest, buf[pos..]).Some?
    ensures r == Decode(Kind.ReadWriteRegistersRequest, buf[pos..])
  {
    ghost var s := buf[pos..];
    var u := buf[pos];
    var a := ReadWord(buf, pos + 2);
    var b := ReadWord(buf, pos + 4);
    var c := ReadWord(buf, pos + 6);
    assert a == WordAt(s, 2) && b == WordAt(s, 4) && c == WordAt(s, 6);
    var n: nat := buf[pos + 10] / 2;
    var words := ReadWords(buf, pos + 11, n);
    SliceOfSuffix(buf[..], pos, 11, 11 + 2 * n);
    r := Some(Message.ReadWriteRegistersRequest(u, a, b, c, |words|, words));
  }

  /** Runs the iterator constructor of message type `k` over the bytes from
      `pos` on, first checking that the buffer holds the whole message: a
      buffer that ends early gives `None`, where the C++ code would read
      past its end. */
  method DecodeAt(k: Kind, buf: array<byte>, pos: nat) returns (r: Option<Message>)
    requires pos <= buf.Length
    ensures r == Decode(k, buf[pos..])
  {
    var n := Needed(k, buf[pos..]);
    if n.None? || buf.Length - pos < n.value {
      r := None;
    } else if IsFixedKind(k) {
      r := DecodeFixedAt(k, buf, pos);
    } else if k == Kind.ExceptionResponse {
      r := Some(Message.ExceptionResponse(buf[pos], ClearExceptionBit(buf[pos + 1]), buf[pos + 2]));
    } else if k == Kind.WriteMultipleRegistersRequest || k == Kind.ReadWriteRegistersRequest
              || k == Kind.ReadWriteRegistersResponse {
      r := DecodeWordListAt(k, buf, pos);
    } else {
      r := DecodeByteListAt(k, buf, pos);
    }
  }

  // ---------------------------------------------------------------------
  // The list-building constructors
  // ---------------------------------------------------------------------

  /** The coil bytes of `write_multiple_coils_request(unit_id, start_address,
      std::vector<bool>)`: one bit per coil, least significant bit first, the
      unused bits of the last byte clear. A vector longer than 65535 makes
      the C++ code allocate too few bytes and write past them. */
  method PackCoils(bools: seq<bool>) returns (values: seq<byte>)
    requires |bools| <= 0xFFFF
    ensures |values| == (|bools| + 7) / 8
    ensures forall j :: 0 <= j < 8 * |values| ==> (BitAt(values, j) <==> j < |bools| && bools[j])
  {
    var length := |bools|;
    var numBytes := length / 8;
    if length % 8 != 0 {
      numBytes := numBytes + 1;
    }
    var a := new byte[numBytes](_ => 0);
    forall j | 0 <= j < 8 * a.Length
      ensures !BitAt(a[..], j)
    {
      BitsBelow(0, 0, j % 8);
    }
    var i := 0;
    while i < length
      invariant 0 <= i <= length
      invariant forall j :: 0 <= j < 8 * a.Length ==> (BitAt(a[..], j) <==> j < i && bools[j])
    {
      if bools[i] {
        ghost var before := a[..];
        a[i / 8] := SetBit(a[i / 8], i % 8);
        forall j | 0 <= j < 8 * a.Length
          ensures BitAt(a[..], j) <==> j < i + 1 && bools[j]
        {
          if j / 8 != i / 8 {
            assert a[..][j / 8] == before[j / 8];
            assert BitAt(a[..], j) == BitAt(before, j);
          } else {
            assert BitAt(before, j) <==> j < i && bools[j];
            assert j % 8 == i % 8 <==> j == i;
          }
        }
      }
      i := i + 1;
    }
    values := a[..];
  }

  /** `write_multiple_coils_request(unit_id, start_address, std::vector<bool>)`:
      the coil count is the vector's size and the bytes are its packed bits. */
  method NewWriteMultipleCoilsRequest(unitId: byte, startAddress: u16, bools: seq<bool>) returns (m: Message)
    requires |bools| <= 0xFFFF
    ensures m.WriteMultipleCoilsRequest? && m.unitId == unitId && m.startAddress == startAddress
    ensures m.length == |bools| && |m.values| == (|bools| + 7) / 8
    ensures forall j :: 0 <= j < 8 * |m.values| ==> (BitAt(m.values, j) <==> j < |bools| && bools[j])
    ensures |bools| <= 8 * 255 ==> WellFormed(m)
  {
    var values := PackCoils(bools);
    m := Message.WriteMultipleCoilsRequest(unitId, startAddress, |bools|, values);
  }

  /** The register constructors of `read_holding_registers_response` and
      `read_input_registers_response`: each register becomes two bytes,
      most significant first. */
  method RegistersToBytes(words: seq<u16>) returns (values: seq<byte>)
    ensures values == WordsToBytes(words)
    ensures BytesToWords(values) == words
  {
    values := [];
    var i := 0;
    while i < |words|
      invariant 0 <= i <= |words|
      invariant values == WordsToBytes(words[..i])
    {
      WordsToBytesSnoc(words[..i], words[i]);
      assert words[..i + 1] == words[..i] + [words[i]];
      values := values + [Hi(words[i]), Lo(words[i])];
      i := i + 1;
    }
    assert words[..i] == words;
    BytesToWordsOfWordsToBytes(words);
  }

  /** `read_write_registers_request(unit_id, read_start_address,
      read_num_registers, write_start_address, values)`: the write count is
      the number of registers, cut to 16 bits. */
  function NewReadWriteRegistersRequest(unitId: byte, readStart: u16, readNum: u16, writeStart: u16, words: seq<u16>): (m: Message)
    ensures m.ReadWriteRegistersRequest? && m.words == words
    ensures m.writeNumRegisters == |words| % 0x1_0000
    ensures |words| < 128 ==> WellFormed(m)
  {
    Message.ReadWriteRegistersRequest(unitId, readStart, readNum, writeStart, |words| % 0x1_0000, words)
  }

  /** A read/write request built from fewer than 128 registers comes back
      from the wire unchanged. */
  lemma NewReadWriteRegistersRequestRoundTrip(unitId: byte, readStart: u16, readNum: u16, writeStart: u16, words: seq<u16>)
    requires |words| < 128
    ensures var m := NewReadWriteRegistersRequest(unitId, readStart, readNum, writeStart, words);
            Decode(Kind.ReadWriteRegistersRequest, Serialize(m)) == Some(m)
  {
    RoundTrip(NewReadWriteRegistersRequest(unitId, readStart, readNum, writeStart, words));
  }
}
