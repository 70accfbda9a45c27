/*
 * Shared vocabulary of the MODBUS core: the frame-size constants, the
 * function-code and exception-code values (MODBUS Application Protocol
 * Specification V1.1b3, sections 6 and 7), coil encodings, the small
 * enumerations, and the Option/Result wrappers the rest of the model uses
 * for "none" and for the exceptions the C++ code throws.
 */
module Types {

  // ---------------------------------------------------------------------
  // Machine integers
  // ---------------------------------------------------------------------

  /** `uint8_t` */
  type byte = x: int | 0 <= x < 0x100
  /** `uint16_t` */
  type u16 = x: int | 0 <= x < 0x1_0000

  // ---------------------------------------------------------------------
  // Wrappers
  // ---------------------------------------------------------------------

  datatype Option<T> = None | Some(value: T)

  /** The exceptions the C++ code throws: `std::out_of_range` (from
      `vector::at` and the length checks) and `std::invalid_argument`
      (a non-zero protocol id). */
  datatype Exception = OutOfRange | InvalidArgument

  datatype Result<T> = Success(value: T) | Failure(error: Exception)

  // ---------------------------------------------------------------------
  // Frame-size constants
  // ---------------------------------------------------------------------

  /** Largest application data unit, header included. */
  const MAX_APU_SIZE: int := 256
  /** Smallest PDU, unit id included. */
  const MIN_PDU_SIZE: int := 4
  /** Largest PDU. */
  const MAX_PDU_SIZE: int := 253
  /** Size of an exception PDU, unit id included. */
  const EXCEPTION_PDU_SIZE: int := 3
  /** The MBAP protocol identifier is always zero. */
  const PROTOCOL_ID: u16 := 0x0000
  /** The MBAP header without the unit id: transaction id, protocol id, length. */
  const TCP_HEADER_SIZE: int := 6

  // ---------------------------------------------------------------------
  // Function codes (an 8-bit enumeration; any byte can be cast into it)
  // ---------------------------------------------------------------------

  const INVALID_FUNCTION_CODE: byte := 0
  const READ_COILS: byte := 1
  const READ_DISCRETE_INPUTS: byte := 2
  const READ_HOLDING_REGISTERS: byte := 3
  const READ_INPUT_REGISTERS: byte := 4
  const WRITE_SINGLE_COIL: byte := 5
  const WRITE_SINGLE_REGISTER: byte := 6
  const WRITE_MULTIPLE_COILS: byte := 15
  const WRITE_MULTIPLE_REGISTERS: byte := 16
  const MASK_WRITE_REGISTER: byte := 22
  const READ_WRITE_MULTIPLE_REGISTERS: byte := 23
  const READ_FIFO_QUEUE: byte := 24

  /** The bit a server sets in the function-code byte of an exception reply. */
  const EXCEPTION_BIT: byte := 0x80

  // ---------------------------------------------------------------------
  // Exception codes (an 8-bit enumeration; there is no code 9)
  // ---------------------------------------------------------------------

  const NO_EXCEPTION: byte := 0x00
  const ILLEGAL_FUNCTION: byte := 0x01
  const ILLEGAL_DATA_ADDRESS: byte := 0x02
  const ILLEGAL_DATA_VALUE: byte := 0x03
  const SERVER_DEVICE_FAILURE: byte := 0x04
  const ACKNOWLEDGE: byte := 0x05
  const SERVER_DEVICE_BUSY: byte := 0x06
  const NEGATIVE_ACKNOWLEDGE: byte := 0x07
  const MEMORY_PARITY_ERROR: byte := 0x08
  const GATEWAY_PATH_UNAVAILABLE: byte := 0x0A
  const GATEWAY_TARGET_DEVICE_FAILED_TO_RESPOND: byte := 0x0B

  // ---------------------------------------------------------------------
  // Coil status (a 16-bit enumeration)
  // ---------------------------------------------------------------------

  const COIL_OFF: u16 := 0x0000
  const COIL_ON: u16 := 0xFF00

  // ---------------------------------------------------------------------
  // Small enumerations
  // ---------------------------------------------------------------------

  /** Log levels, an 8-bit enumeration. */
  const TRACE: byte := 0
  const DEBUG: byte := 1
  const INFO: byte := 2
  const WARN: byte := 3
  const ERROR: byte := 4
  const CRITICAL: byte := 5

  datatype DataModel =
    | InvalidDataType
    | InputStatus
    | Coil
    | InputRegister
    | HoldingRegister
    | WriteConfirmation

  datatype MessageType = InvalidPduType | Request | Response

  /** `normal` is big-endian; `byte_swapped` puts the least significant byte first. */
  datatype ByteOrder = Normal | ByteSwapped

  // ---------------------------------------------------------------------
  // to_string mappings
  // ---------------------------------------------------------------------

  predicate IsDefinedExceptionCode(code: byte)
  {
    (ILLEGAL_FUNCTION <= code <= MEMORY_PARITY_ERROR)
    || code == GATEWAY_PATH_UNAVAILABLE
    || code == GATEWAY_TARGET_DEVICE_FAILED_TO_RESPOND
  }

  /** The phrase `to_string(exception_code_t)` gives each code. */
  function ExceptionCodeName(code: byte): (name: string)
    ensures name == "unknown" <==> !IsDefinedExceptionCode(code)
    ensures code == NO_EXCEPTION ==> name == "unknown"
  {
    if code == ILLEGAL_FUNCTION then "illegal function"
    else if code == ILLEGAL_DATA_ADDRESS then "illegal data address"
    else if code == ILLEGAL_DATA_VALUE then "illegal data value"
    else if code == SERVER_DEVICE_FAILURE then "server device failure"
    else if code == ACKNOWLEDGE then "acknowledge"
    else if code == SERVER_DEVICE_BUSY then "server device busy"
    else if code == NEGATIVE_ACKNOWLEDGE then "negative acknowledge"
    else if code == MEMORY_PARITY_ERROR then "memory parity error"
    else if code == GATEWAY_PATH_UNAVAILABLE then "gateway path unavailable"
    else if code == GATEWAY_TARGET_DEVICE_FAILED_TO_RESPOND then "gateway target device failed to respond"
    else "unknown"
  }

  /** Distinct exception codes that are defined get distinct phrases. */
  lemma ExceptionCodeNamesDistinct(a: byte, b: byte)
    requires IsDefinedExceptionCode(a) && IsDefinedExceptionCode(b) && a != b
    ensures ExceptionCodeName(a) != ExceptionCodeName(b)
  {
  }

  /** The word `to_string(log_level)` gives each level; a value outside the
      enumeration gives "uknown state" (spelled as in the library). */
  function LogLevelName(level: byte): (name: string)
    ensures name == "uknown state" <==> level > CRITICAL
  {
    if level == TRACE then "Trace"
    else if level == DEBUG then "Debug"
    else if level == INFO then "Info"
    else if level == WARN then "Warn"
    else if level == ERROR then "Error"
    else if level == CRITICAL then "Critical"
    else "uknown state"
  }

  /** Distinct levels get distinct words. */
  lemma LogLevelNamesDistinct(a: byte, b: byte)
    requires a <= CRITICAL && b <= CRITICAL && a != b
    ensures LogLevelName(a) != LogLevelName(b)
  {
  }
}
