/*
 * The parts of the MODBUS/TCP client that do not touch a socket: the
 * transaction-id counter, the checks a reply has to pass, the guards on the
 * two reads that fetch a reply (header first, then as many bytes as its
 * length field announces), and the rule that skips the replies to earlier
 * requests. What a read returns is a parameter: the socket, the timers and
 * the connection pool are not part of this model.
 */
module Client {
  import opened Types
  import opened Bytes
  import opened Messages
  import opened DataUnits

  /** The codes the client reports: the values of `modbus_client_error_code`,
      the `malformed_message` value of `modbus_error_code`, and an error the
      socket reported, passed on unchanged. */
  datatype ErrorCode =
    | NoError
    | TimeoutExpired
    | InvalidResponse
    | Disconnected
    | Stopped
    | MalformedMessage
    | SocketError(code: nat)

  // ---------------------------------------------------------------------
  // Transaction ids
  // ---------------------------------------------------------------------

  /** The id after `id`: the counter is an unsigned 16-bit integer, so it
      wraps from 0xFFFF to 0. */
  function NextId(id: u16): u16
  {
    (id + 1) % 0x1_0000
  }

  /** The id the counter holds after `k` reservations starting from `id`. */
  function IdAfter(id: u16, k: nat): u16
    decreases k
  {
    if k == 0 then id else IdAfter(NextId(id), k - 1)
  }

  /** `k` reservations move the counter `k` places on, modulo 2^16. */
  lemma {:induction false} IdAfterWraps(id: u16, k: nat)
    ensures IdAfter(id, k) == (id + k) % 0x1_0000
    decreases k
  {
    if k > 0 {
      IdAfterWraps(NextId(id), k - 1);
      assert (NextId(id) + (k - 1)) % 0x1_0000 == (id + k) % 0x1_0000;
    }
  }

  /** Up to 2^16 reservations in a row hand out different ids; the 2^16th
      one after an id hands it out again. */
  lemma ReservedIdsDistinct(id: u16, j: nat, k: nat)
    requires j < k
    ensures IdAfter(id, j) == IdAfter(id, k) <==> (k - j) % 0x1_0000 == 0
  {
    IdAfterWraps(id, j);
    IdAfterWraps(id, k);
    ModShift(id + j, k - j);
  }

  /** Moving `d` places on comes back to the same residue exactly when `d`
      is a multiple of 2^16. */
  lemma ModShift(a: nat, d: nat)
    ensures (a + d) % 0x1_0000 == a % 0x1_0000 <==> d % 0x1_0000 == 0
  {
    var r, s := a % 0x1_0000, d % 0x1_0000;
    assert a == (a / 0x1_0000) * 0x1_0000 + r;
    assert d == (d / 0x1_0000) * 0x1_0000 + s;
    assert a + d == (a / 0x1_0000 + d / 0x1_0000) * 0x1_0000 + (r + s);
    if r + s < 0x1_0000 {
      ModOfSum(a + d, a / 0x1_0000 + d / 0x1_0000, r + s);
    } else {
      ModOfSum(a + d, a / 0x1_0000 + d / 0x1_0000 + 1, r + s - 0x1_0000);
    }
  }

  lemma ModOfSum(x: nat, q: nat, r: nat)
    requires x == q * 0x1_0000 + r && r < 0x1_0000
    ensures x % 0x1_0000 == r
  {
  }

  /** The client as far as its transaction ids go. */
  class TcpClient {
    /** `transaction_id_`: the id the next request gets. */
    var transactionId: u16

    /** The counter of a new client starts at 1. */
    constructor ()
      ensures transactionId == 1
    {
      transactionId := 1;
    }

    /** `reserve_transaction_id()`: hands out the current id and moves the
        counter on, wrapping at 2^16. */
    method ReserveTransactionId() returns (id: u16)
      modifies this
      ensures id == old(transactionId)
      ensures transactionId == NextId(old(transactionId))
    {
      id := transactionId;
      transactionId := NextId(transactionId);
    }
  }

  /** The `k`-th id a new client hands out (counting from 0) is `k + 1`
      modulo 2^16: 1, 2, ..., 0xFFFF, 0, 1, ... */
  lemma IdsOfNewClient(k: nat)
    ensures IdAfter(1, k) == (k + 1) % 0x1_0000
    ensures k == 0xFFFF ==> IdAfter(1, k) == 0
  {
    IdAfterWraps(1, k);
  }

  // ---------------------------------------------------------------------
  // Validating a reply
  // ---------------------------------------------------------------------

  /** What `validate_response` asks of a reply, in terms of the bytes of
      both frames: the same transaction id, the same function code once the
      exception bit is taken off, and, for a normal reply to a single coil
      or register write, the very bytes of the request. */
  predicate Accepts(request: DataUnit, response: DataUnit)
  {
    |request.buffer| > 7 && |response.buffer| > 7
    && request.buffer[..2] == response.buffer[..2]
    && request.buffer[7] % 0x80 == response.buffer[7] % 0x80
    && (response.buffer[7] == WRITE_SINGLE_COIL || response.buffer[7] == WRITE_SINGLE_REGISTER
        ==> request.buffer == response.buffer)
  }

  /** Two frames of at least two bytes carry the same transaction id
      exactly when their first two bytes agree. */
  lemma SameTransactionId(a: DataUnit, b: DataUnit)
    requires |a.buffer| >= 2 && |b.buffer| >= 2
    ensures TransactionId(a).value == TransactionId(b).value <==> a.buffer[..2] == b.buffer[..2]
  {
    var x, y := TransactionId(a).value, TransactionId(b).value;
    if x == y {
      assert a.buffer[0] == b.buffer[0] && a.buffer[1] == b.buffer[1];
    }
  }

  /** `validate_response(request, response)`: the function code of the
      reply is read first, then the transaction ids are compared, then the
      function codes, then the bytes of a single-write reply. Reading a
      field past the end of a frame throws `out_of_range`. The value it
      returns when every check passes is modelled as `no_error`. */
  function ValidateResponse(request: DataUnit, response: DataUnit): (r: Result<ErrorCode>)
    ensures r.Success? ==> r.value == NoError || r.value == InvalidResponse
    ensures r.Failure? ==> r.error == OutOfRange
    ensures r.Failure? <==>
              |response.buffer| <= 7 || |request.buffer| < 2
              || (|request.buffer| <= 7 && request.buffer[..2] == response.buffer[..2])
    ensures r == Success(NoError) <==> Accepts(request, response)
  {
    match UnitFunctionCode(response)
    case Failure(e) => Failure(e)
    case Success(functionCode) =>
      match TransactionId(request)
      case Failure(e) => Failure(e)
      case Success(requestId) =>
        SameTransactionId(request, response);
        if requestId != TransactionId(response).value then Success(InvalidResponse)
        else
          match UnitFunctionCode(request)
          case Failure(e) => Failure(e)
          case Success(requestCode) =>
            if requestCode != functionCode then Success(InvalidResponse)
            else if (functionCode == WRITE_SINGLE_COIL || functionCode == WRITE_SINGLE_REGISTER)
                    && !IsException(response).value && request.buffer != response.buffer
            then Success(InvalidResponse)
            else Success(NoError)
  }

  /** A reply built with another transaction id than its request is turned
      down, whatever it holds. */
  lemma ValidateRejectsOtherTransaction(requestId: u16, request: Message, replyId: u16, reply: Message)
    requires requestId != replyId
    ensures ValidateResponse(DataUnit(Frame(requestId, request), TypeOf(KindOf(request))),
                             DataUnit(Frame(replyId, reply), Response)) == Success(InvalidResponse)
  {
    EncodedHeader(requestId, request);
    EncodedHeader(replyId, reply);
    assert Frame(replyId, reply) == Header(replyId, Size(reply)) + Serialize(reply);
    FrameAccessors(replyId, Size(reply), Serialize(reply), Response);
  }

  /** An exception reply to the function of the request, with the same
      transaction id, passes. */
  lemma ValidateAcceptsExceptionReply(transactionId: u16, request: Message, reply: Message)
    requires !request.ExceptionResponse? && reply.ExceptionResponse?
    requires ClearExceptionBit(reply.functionCode) == FunctionCode(KindOf(request))
    ensures ValidateResponse(DataUnit(Frame(transactionId, request), TypeOf(KindOf(request))),
                             DataUnit(Frame(transactionId, reply), Response)) == Success(NoError)
  {
    EncodedHeader(transactionId, request);
    assert Frame(transactionId, reply) == Header(transactionId, Size(reply)) + Serialize(reply);
    FrameAccessors(transactionId, Size(reply), Serialize(reply), Response);
    SerializedFunctionCode(reply);
  }

  /** A reply to a single coil or register write passes exactly when it
      repeats the request byte for byte. */
  lemma ValidateSingleWriteEcho(request: DataUnit, response: DataUnit)
    requires |request.buffer| > 7 && |response.buffer| > 7
    requires request.buffer[..2] == response.buffer[..2] && request.buffer[7] == response.buffer[7]
    requires request.buffer[7] == WRITE_SINGLE_COIL || request.buffer[7] == WRITE_SINGLE_REGISTER
    ensures ValidateResponse(request, response) == Success(NoError) <==> request.buffer == response.buffer
    ensures ValidateResponse(request, response).Success?
  {
  }

  // ---------------------------------------------------------------------
  // Reading a reply
  // ---------------------------------------------------------------------

  /** What one `async_read` gave back: the bytes it read, or the error the
      socket reported. */
  datatype ReadOutcome = Read(bytes: seq<byte>) | ReadFailed(code: nat)

  /** `read_response_t`: the unit read, and the error code. */
  datatype Reply = Reply(unit: DataUnit, error: ErrorCode)

  /** `n` zero bytes. */
  function Zeros(n: nat): (z: seq<byte>)
    ensures |z| == n && forall i :: 0 <= i < n ==> z[i] == 0
  {
    seq(n, _ => 0)
  }

  /** The length field of a header as `read_response` reads it. */
  function AnnouncedLength(header: seq<byte>): nat
    requires |header| == TCP_HEADER_SIZE
  {
    header[4] as int * 0x100 + header[5] as int
  }

  /** `read_response(connection)`: reads the header into a buffer of
      `MAX_APU_SIZE` zero bytes, checks that it came whole and that the
      length it announces fits the buffer, reads that many bytes after it,
      checks that they came whole, and builds a response unit from the whole
      buffer. `header` and `body` are what the two reads gave back; `body`
      is not looked at when the first read already settled the result. A
      header that announces no bytes makes the unit's constructor throw. */
  function ReadResponse(header: ReadOutcome, body: ReadOutcome): (r: Result<Reply>)
    ensures r.Failure? <==>
              header.Read? && |header.bytes| == TCP_HEADER_SIZE && AnnouncedLength(header.bytes) == 0
              && body.Read? && |body.bytes| == 0
    ensures r.Failure? ==> r.error == OutOfRange
    ensures r.Success? && r.value.error != NoError ==> r.value.unit == EmptyUnit
    ensures r.Success? ==>
              (r.value.error == MalformedMessage <==> header.Read? && |header.bytes| != TCP_HEADER_SIZE)
    ensures r.Success? ==>
              (r.value.error == InvalidResponse <==>
                 header.Read? && |header.bytes| == TCP_HEADER_SIZE
                 && AnnouncedLength(header.bytes) + TCP_HEADER_SIZE > MAX_APU_SIZE)
    ensures r.Success? ==>
              (r.value.error == Disconnected <==>
                 header.Read? && |header.bytes| == TCP_HEADER_SIZE
                 && AnnouncedLength(header.bytes) + TCP_HEADER_SIZE <= MAX_APU_SIZE
                 && body.Read? && |body.bytes| != AnnouncedLength(header.bytes))
    ensures r.Success? && r.value.error == NoError ==>
              header.Read? && body.Read? && |header.bytes| == TCP_HEADER_SIZE
              && 0 < |body.bytes| == AnnouncedLength(header.bytes) <= MAX_APU_SIZE - TCP_HEADER_SIZE
              && r.value.unit.msgType == Response
              && |r.value.unit.buffer| == MAX_APU_SIZE
              && r.value.unit.buffer[..TCP_HEADER_SIZE] == header.bytes
              && r.value.unit.buffer[TCP_HEADER_SIZE..TCP_HEADER_SIZE + |body.bytes|] == body.bytes
              && forall i :: TCP_HEADER_SIZE + |body.bytes| <= i < MAX_APU_SIZE ==> r.value.unit.buffer[i] == 0
  {
    match header
    case ReadFailed(code) => Success(Reply(EmptyUnit, SocketError(code)))
    case Read(h) =>
      if |h| != TCP_HEADER_SIZE then Success(Reply(EmptyUnit, MalformedMessage))
      else
        var length := AnnouncedLength(h);
        if length + TCP_HEADER_SIZE > MAX_APU_SIZE then Success(Reply(EmptyUnit, InvalidResponse))
        else
          match body
          case ReadFailed(code) => Success(Reply(EmptyUnit, SocketError(code)))
          case Read(b) =>
            if |b| != length then Success(Reply(EmptyUnit, Disconnected))
            else
              var buffer := h + b + Zeros(MAX_APU_SIZE - TCP_HEADER_SIZE - length);
              assert buffer[..TCP_HEADER_SIZE] == h;
              assert LengthField(buffer) == length;
              DataLengthOfRead(|b| + TCP_HEADER_SIZE);
              match FromBuffer(buffer, |b| + TCP_HEADER_SIZE, Response)
              case Failure(e) => Failure(e)
              case Success(du) =>
                assert du.buffer[TCP_HEADER_SIZE..TCP_HEADER_SIZE + |b|] == b;
                Success(Reply(du, NoError))
  }

  /** A frame the encoder built, read back in its two parts, arrives whole
      with its transaction id and its PDU, as long as it fits
      `MAX_APU_SIZE`. */
  lemma ReadEncodedFrame(transactionId: u16, m: Message)
    requires TCP_HEADER_SIZE + Size(m) <= MAX_APU_SIZE
    ensures var f := Frame(transactionId, m);
            var r := ReadResponse(Read(f[..TCP_HEADER_SIZE]), Read(f[TCP_HEADER_SIZE..]));
            r.Success? && r.value.error == NoError
            && r.value.unit == DataUnit(f + Zeros(MAX_APU_SIZE - |f|), Response)
            && TransactionId(r.value.unit) == Success(transactionId)
  {
    var f := Frame(transactionId, m);
    var h := Header(transactionId, Size(m));
    assert f == h + Serialize(m);
    assert f[..TCP_HEADER_SIZE] == h && f[TCP_HEADER_SIZE..] == Serialize(m);
    HeaderFields(transactionId, Size(m));
    ReadWholeReply(h, Serialize(m));
    HeaderBytes(transactionId, Size(m));
    WordOfHiLo(transactionId);
  }

  /** A header and as many bytes as it announces, read back, make a
      response unit of the whole buffer. */
  lemma ReadWholeReply(h: seq<byte>, pdu: seq<byte>)
    requires |h| == TCP_HEADER_SIZE && 0 < |pdu| <= MAX_APU_SIZE - TCP_HEADER_SIZE && LengthField(h) == |pdu|
    ensures var u := DataUnit(h + pdu + Zeros(MAX_APU_SIZE - TCP_HEADER_SIZE - |pdu|), Response);
            ReadResponse(Read(h), Read(pdu)) == Success(Reply(u, NoError))
            && TransactionId(u) == TransactionId(DataUnit(h, Response))
  {
    assert AnnouncedLength(h) == |pdu|;
  }

  /** `read_response` always hands back a unit of `MAX_APU_SIZE` bytes,
      padded with zeros, while an encoded single write request is only as
      long as its frame. So a server's byte-for-byte echo of such a
      request, read back in its two parts, fails the whole-buffer
      comparison of `validate_response`: the echo check holds for the units
      it is given, not for a reply as `read_response` delivers it. */
  lemma ReadEchoOfSingleWriteRejected(transactionId: u16, m: Message)
    requires m.WriteSingleCoilRequest? || m.WriteSingleRegisterRequest?
    ensures var f := Frame(transactionId, m);
            var r := ReadResponse(Read(f[..TCP_HEADER_SIZE]), Read(f[TCP_HEADER_SIZE..]));
            r.Success? && r.value.error == NoError
            && ValidateResponse(DataUnit(f, Request), r.value.unit) == Success(InvalidResponse)
  {
    var f := Frame(transactionId, m);
    assert f == Header(transactionId, Size(m)) + Serialize(m);
    assert f[7] == Serialize(m)[1] == FunctionCode(KindOf(m));
    ReadEncodedFrame(transactionId, m);
    var u := DataUnit(f + Zeros(MAX_APU_SIZE - |f|), Response);
    assert u.buffer[7] == f[7];
    assert |u.buffer| != |f|;
    assert !Accepts(DataUnit(f, Request), u);
  }

  // ---------------------------------------------------------------------
  // Skipping stale replies
  // ---------------------------------------------------------------------

  /** How the wait for a reply ends: with a reply (which may carry an
      error), with an exception thrown while reading, or not yet, in which
      case the client reads again. */
  datatype Outcome = Answered(reply: Reply) | Threw(error: Exception) | StillWaiting

  /** What one read means to the request with id `requestId`: an error ends
      the wait, a reply whose id is lower is stale and skipped, and any
      other reply is the answer. */
  function Verdict(read: Result<Reply>, requestId: u16): (o: Outcome)
    ensures o.StillWaiting? <==>
              read.Success? && read.value.error == NoError
              && |read.value.unit.buffer| >= 2 && TransactionId(read.value.unit).value < requestId
    ensures o.Answered? ==> read == Success(o.reply)
    ensures o.Answered? ==>
              o.reply.error != NoError
              || (|o.reply.unit.buffer| >= 2 && TransactionId(o.reply.unit).value >= requestId)
    ensures o.Threw? <==> read.Failure? || (read.value.error == NoError && |read.value.unit.buffer| < 2)
    ensures o.Threw? && read.Failure? ==> o.error == read.error
  {
    match read
    case Failure(e) => Threw(e)
    case Success(reply) =>
      if reply.error != NoError then Answered(reply)
      else
        match TransactionId(reply.unit)
        case Failure(e) => Threw(e)
        case Success(id) => if id < requestId then StillWaiting else Answered(reply)
  }

  /** The do/while loop of `send_request`: reads replies until one is not
      stale. `results` are the values of the successive `read_response`
      calls; when they run out while every reply was stale, the client is
      still waiting (the read timer of the connection ends that wait, and
      is not modelled). */
  method AwaitResponse(requestId: u16, results: seq<Result<Reply>>) returns (outcome: Outcome, consumed: nat)
    ensures consumed <= |results|
    ensures forall k :: 0 <= k < consumed - 1 ==> Verdict(results[k], requestId).StillWaiting?
    ensures outcome.StillWaiting? ==>
              consumed == |results| && (|results| == 0 || Verdict(results[|results| - 1], requestId).StillWaiting?)
    ensures !outcome.StillWaiting? ==> consumed > 0 && outcome == Verdict(results[consumed - 1], requestId)
  {
    var i := 0;
    while i < |results|
      invariant 0 <= i <= |results|
      invariant forall k :: 0 <= k < i ==> Verdict(results[k], requestId).StillWaiting?
    {
      match results[i]
      case Failure(e) =>
        assert Verdict(results[i], requestId) == Threw(e);
        return Threw(e), i + 1;
      case Success(reply) =>
        if reply.error != NoError {
          assert Verdict(results[i], requestId) == Answered(reply);
          return Answered(reply), i + 1;
        }
        match TransactionId(reply.unit)
        case Failure(e) =>
          assert Verdict(results[i], requestId) == Threw(e);
          return Threw(e), i + 1;
        case Success(id) =>
          if id >= requestId {
            assert Verdict(results[i], requestId) == Answered(reply);
            return Answered(reply), i + 1;
          }
      assert Verdict(results[i], requestId).StillWaiting?;
      i := i + 1;
    }
    return StillWaiting, |results|;
  }

  /** The reply to the request itself is never skipped. */
  lemma ReplyToRequestAnswers(requestId: u16, du: DataUnit)
    requires TransactionId(du) == Success(requestId)
    ensures Verdict(Success(Reply(du, NoError)), requestId) == Answered(Reply(du, NoError))
  {
  }

  /** Right after the counter wraps, a late reply to the request handed
      the id 0xFFFF is not stale for the request with id 0: the comparison
      is on the ids as numbers, not on the order they were handed out. */
  lemma LateReplyAfterWrapAnswers(du: DataUnit)
    requires TransactionId(du) == Success(0xFFFF)
    ensures NextId(0xFFFF) == 0
    ensures Verdict(Success(Reply(du, NoError)), 0) == Answered(Reply(du, NoError))
  {
  }
}
