# MODBUS TCP core, modelled in Dafny

This project models the byte-level core of a C++ MODBUS TCP library:

- **Types**: the protocol constants (largest application data unit, header size, protocol id), function codes, exception codes, coil states, data models, message types, byte orders, and the names printed for exception codes and log levels.
- **Messages**: the 21 protocol data units (PDUs): requests, responses and the exception response.
  - Each has a `size()`.
  - Each has a `serialize` that writes the unit id, the function code and the fields, big-endian.
  - Each has a decoding constructor that reads the same layout back from a byte iterator.
  - Each has an `operator==`.
  - The model gives them as one datatype, `Messages.Message`, with a value-level `Serialize` and `Decode`.
  - `MessageIO` does the same through an advancing array position, proved equal to those functions.
  - A list length is written into one byte, so a list of 256 bytes or more (128 registers or more) is cut on the way back. The round trip is exact for well-formed messages and otherwise gives the normalised message.
- **DataUnits**: the TCP application data unit (`tcp_data_unit`).
  - A 6-byte header (transaction id, protocol id 0, length) in front of a PDU.
  - The two parsing constructors, which throw on a bad protocol id or a short read.
  - The field accessors, which throw `out_of_range` past the end of the buffer.
  - `pdu<T>()`, which gives no value unless the function code, exception bit and message type match.
- **ResponseData**: `modbus_response_t`, the decoded data a client hands to its caller.
  - Bit, 8-, 16- and 32-bit reads, signed and unsigned, in either byte order.
- **ServerHelper**: the server's memory-map helpers.
  - Building a request bitmap, checking it against an access bitmap.
  - Copying coils and registers out of memory, and writing them in.
  - The in-place loops are methods on arrays, proved bit by bit against the intended coil layout: coil `j` is bit `j % 8` of byte `j / 8`.
  - Three defects of the library are listed under "## Findings". For these, the methods implement the corrected behaviour: `CreateRequestBitMap` builds the corrected bitmap, and `WriteCoils` runs the descending shift and reads status bytes past the end of the vector as zero.
  - The as-written behaviour is modelled beside them: `RequestBitMapAsWritten`, `ShiftedUpAsWritten` and `WriteCoilsAsWrittenInBounds`.
- **Client**: the parts of the TCP client that are not networking.
  - The 16-bit transaction-id counter, as a class with one field.
  - `validate_response`.
  - `read_response`, as a function of the bytes its two socket reads returned.
  - The loop in `send_request` that skips replies to earlier requests.
  - Because the counter wraps, a late reply with id `0xFFFF` is taken as the answer to the next request, whose id is 0 (`Client.LateReplyAfterWrapAnswers`). Validation then rejects it.

Bytes are the `int` subset type `Types.byte` and 16-bit words are `Types.u16` in the codec, the data unit and the client. The server helper works on `bv8`/`bv16`, because its operations are shifts and masks. C++ truncating casts (`(uint8_t)n`, `(uint16_t)n`, `(int)size_t`) are written out as explicit `%` or range arithmetic. A thrown exception is a `Failure` of `Types.Result`.

## Model

| member | source | states |
|---|---|---|
| Types.ExceptionCodeName | include/core/types.hpp:199-224 | the name is "unknown" exactly for codes outside the ten defined exception codes, `no_exception` included |
| Types.ExceptionCodeNamesDistinct | include/core/types.hpp:199-224 | two different defined exception codes never print the same name |
| Types.LogLevelName | include/core/types.hpp:174-197 | levels above critical print the fallback text "uknown state" (spelt as in the library), and no defined level does |
| Types.LogLevelNamesDistinct | include/core/types.hpp:174-197 | two different defined levels never print the same word |
| Bytes.BytesToWordsOfWordsToBytes | modbus/core/messages/write_multiple_registers_request.cpp:14-51 | reading registers back from the bytes written for them gives the same registers |
| Bytes.WordsToBytesOfBytesToWords | modbus/core/messages/write_multiple_registers_request.cpp:14-32 | an even-length byte run read as registers and written again is unchanged |
| Bytes.HiLoOfWord | modbus/core/messages/write_single_register_request.cpp:12-32 | the high and low bytes of a word assembled from two bytes are those bytes |
| Bytes.SetBit | modbus/core/messages/write_multiple_coils_request.cpp:29-34 | setting bit k of a byte sets exactly that bit and keeps every other bit |
| Bytes.Pow2Bit | modbus/core/messages/write_multiple_coils_request.cpp:29-34 | the mask `1 << k` has bit k set and no other |
| Messages.FunctionCode | include/core/types.hpp:65-96 | each non-exception message has one of the ten operation codes of `function_code_t`, never `invalid_function_code` or `read_fifo_queue`, and below the exception bit; which code each kind gets is pinned down by `FunctionCodeIdentifiesKind` and the round-trip lemmas |
| Messages.TypeOf | modbus/core/messages/read_write_registers_request.hpp:28-32 | a message is a request or a response, never an invalid PDU type, and is a request exactly when it is one of the ten request kinds |
| Messages.FunctionCodeIdentifiesKind | include/core/types.hpp:65-96 | function code and message type together identify the message kind, in both directions |
| Messages.SetExceptionBit | modbus/core/messages/exception_response.cpp:19-25 | an exception reply's function-code byte always has the exception bit set |
| Messages.ClearExceptionBit | modbus/core/messages/exception_response.cpp:13-17 | decoding an exception reply masks the function code below the exception bit |
| Messages.Size | modbus/core/messages/read_write_registers_request.hpp:34-40 | every PDU is at least the 3-byte exception PDU |
| Messages.Serialize | modbus/core/messages/write_multiple_registers_request.cpp:35-51 | serialize writes exactly `size()` bytes, starting with the unit id and the function-code byte |
| Messages.Decode | modbus/core/messages/write_multiple_registers_request.cpp:14-32 | a decoded message has the requested kind and was read from within the bytes available |
| Messages.DecodeSucceeds | modbus/core/messages/write_multiple_registers_request.cpp:14-32 | decoding succeeds exactly when the bytes its layout and byte counts call for are present |
| Messages.DecodeIgnoresFunctionCode | modbus/core/messages/read_holding_registers_request.cpp:12-20 | the decoding constructors skip the function-code byte: changing it never changes the result |
| Messages.DecodeReadsSize | modbus/core/messages/read_coils_response.hpp:32-36 | the decoded message's `size()` is exactly the number of bytes the constructor consumed |
| Messages.NormalizeFixesWellFormed | modbus/core/messages/read_coils_response.cpp:22-32 | cutting a list to what a one-byte count can describe yields a well-formed message of the same kind, and leaves well-formed messages alone (both directions) |
| Messages.DecodeSerializeReadCoilsRequest | src/core/messages/read_coils_request.cpp:13-31 | a read-coils request decodes back to itself |
| Messages.DecodeSerializeReadDiscreteInputsRequest | src/core/messages/read_discrete_inputs_request.cpp:13-33 | a read-discrete-inputs request decodes back to itself |
| Messages.DecodeSerializeReadHoldingRegistersRequest | modbus/core/messages/read_holding_registers_request.cpp:12-32 | a read-holding-registers request decodes back to itself |
| Messages.DecodeSerializeReadInputRegistersRequest | src/core/messages/read_input_registers_request.cpp:13-33 | a read-input-registers request decodes back to itself |
| Messages.DecodeSerializeWriteSingleCoilRequest | src/core/messages/write_single_coil_request.cpp:13-37 | a write-single-coil request decodes back with its value normalised to on (0xFF00) or off (0x0000), since serialize writes only 0xFF/0x00 then 0x00 |
| Messages.DecodeSerializeWriteSingleRegisterRequest | modbus/core/messages/write_single_register_request.cpp:12-32 | a write-single-register request decodes back to itself |
| Messages.DecodeSerializeWriteSingleCoilResponse | modbus/core/messages/write_single_coil_response.hpp:15-39 | a write-single-coil reply decodes back to itself |
| Messages.DecodeSerializeWriteSingleRegisterResponse | modbus/core/messages/write_single_register_response.cpp:12-32 | a write-single-register reply decodes back to itself |
| Messages.DecodeSerializeWriteMultipleCoilsResponse | modbus/core/messages/write_multiple_coils_response.cpp:12-32 | a write-multiple-coils reply decodes back to itself |
| Messages.DecodeSerializeWriteMultipleRegistersResponse | include/core/messages/write_multiple_registers_response.hpp:9-33 | a write-multiple-registers reply decodes back to itself |
| Messages.DecodeSerializeMaskWriteRegisterRequest | modbus/core/messages/mask_write_register_request.cpp:16-40 | a mask-write request decodes back to itself |
| Messages.DecodeSerializeMaskWriteRegisterResponse | src/core/messages/mask_write_register_response.cpp:14-38 | a mask-write reply decodes back to itself |
| Messages.DecodeSerializeWriteMultipleCoilsRequest | modbus/core/messages/write_multiple_coils_request.cpp:38-70 | a write-multiple-coils request decodes back with its coil bytes cut to the count the one-byte byte count carries |
| Messages.DecodeSerializeWriteMultipleRegistersRequest | modbus/core/messages/write_multiple_registers_request.cpp:14-51 | a write-multiple-registers request decodes back with its registers cut to what the one-byte byte count carries |
| Messages.DecodeSerializeReadWriteRegistersRequest | src/core/messages/read_write_registers_request.cpp:16-63 | a read/write request decodes back with its registers cut as above and its write count replaced by the number of registers actually read |
| Messages.DecodeSerializeReadCoilsResponse | modbus/core/messages/read_coils_response.cpp:11-32 | a read-coils reply decodes back with its bytes cut to the byte count |
| Messages.DecodeSerializeReadDiscreteInputsResponse | modbus/core/messages/read_discrete_inputs_response.cpp:11-34 | a read-discrete-inputs reply decodes back with its bytes cut to the byte count |
| Messages.DecodeSerializeReadHoldingRegistersResponse | src/core/messages/read_holding_registers_response.cpp:27-53 | a read-holding-registers reply decodes back with its bytes cut to the byte count |
| Messages.DecodeSerializeReadInputRegistersResponse | include/core/messages/read_input_registers_response.hpp:11-37 | a read-input-registers reply decodes back with its bytes cut to the byte count |
| Messages.DecodeSerializeReadWriteRegistersResponse | modbus/core/messages/read_write_registers_response.cpp:11-40 | a read/write reply decodes back with its registers cut to the byte count |
| Messages.DecodeSerializeExceptionResponse | modbus/core/messages/exception_response.cpp:13-25 | an exception reply decodes back with its function code stripped of the exception bit |
| Messages.DecodeSerialize | modbus/core/messages/write_multiple_registers_request.cpp:14-51 | for every message, decoding what serialize wrote gives the normalised message |
| Messages.RoundTrip | modbus/core/messages/write_multiple_registers_request.cpp:14-51 | for every well-formed message, decoding what serialize wrote gives the message itself |
| Messages.EqualsIsFieldwise | src/core/messages/read_write_registers_request.cpp:65-73 | for every message type but one, `operator==` is equality of all fields |
| Messages.EqualsIgnoresLength | modbus/core/messages/write_multiple_registers_request.cpp:53-57 | two write-multiple-registers requests differing only in `length` compare equal although they serialize differently |
| MessageIO.SerializeInto | modbus/core/messages/mask_write_register_request.cpp:29-40 | writing through the output iterator puts exactly `Serialize(m)` at the position, advances by `size()` and changes no other byte |
| MessageIO.DecodeAt | modbus/core/messages/read_write_registers_response.cpp:11-25 | reading field by field from a buffer position gives exactly `Decode` of the bytes from there |
| MessageIO.ReadWords | modbus/core/messages/write_multiple_registers_request.cpp:24-31 | the register-reading loop yields the big-endian registers of the byte run |
| MessageIO.ReadBytes | modbus/core/messages/read_coils_response.cpp:15-19 | the byte-reading loop yields exactly the byte run |
| MessageIO.PackCoils | modbus/core/messages/write_multiple_coils_request.cpp:14-36 | packing n booleans gives ceil(n/8) bytes in which bit j is set exactly when boolean j is true (both directions, padding bits clear) |
| MessageIO.NewWriteMultipleCoilsRequest | modbus/core/messages/write_multiple_coils_request.cpp:14-36 | the boolean constructor sets `length` to the number of coils and packs them as above; with at most 2040 coils the message is well formed |
| MessageIO.RegistersToBytes | src/core/messages/read_holding_registers_response.cpp:5-19 | the register constructor stores each register high byte first, and the registers can be read back unchanged |
| MessageIO.NewReadWriteRegistersRequest | src/core/messages/read_write_registers_request.cpp:5-14 | the write count is the number of registers cut to 16 bits; with fewer than 128 registers the message is well formed |
| MessageIO.NewReadWriteRegistersRequestRoundTrip | src/core/messages/read_write_registers_request.cpp:5-63 | a read/write request built from fewer than 128 registers decodes back to itself |
| DataUnits.Encode | modbus/core/tcp_data_unit.hpp:39-63 | the message constructor's buffer is the 6-byte header followed by the serialized PDU, and its type is the message's type |
| DataUnits.FromBuffer | src/core/tcp_data_unit.cpp:12-26 | the buffer constructor keeps the buffer as given, or throws `out_of_range` |
| DataUnits.FromBufferAccepts | src/core/tcp_data_unit.cpp:12-26 | it accepts exactly when the length field is readable, the data length `(int)(bytesRead - 6)` is positive and is at least the length field |
| DataUnits.DataLengthOfLongRead | src/core/tcp_data_unit.cpp:19 | a byte count from 2^31 to 2^32 - 1 past the header wraps the data length negative (the `(int)` cast keeps the low 32 bits), so such a read is refused; from 2^32 on the count turns positive again |
| DataUnits.DataLengthOfWrappedRead | src/core/tcp_data_unit.cpp:19 | a byte count from 2^32 to 2^32 + 2^31 - 1 past the header comes out of the cast as that count less 2^32, positive again |
| DataUnits.FromBufferAcceptsWrappedRead | src/core/tcp_data_unit.cpp:12-26 | a length field of 10 is accepted with 2^32 + 16 bytes read and refused with 2^31 + 16 |
| DataUnits.FromBufferIgnoresProtocolId | src/core/tcp_data_unit.cpp:12-26 | the buffer constructor does not look at the protocol id |
| DataUnits.FromParts | src/core/tcp_data_unit.cpp:28-51 | the header/payload constructor succeeds exactly when the header holds at least six bytes, its protocol id is 0, and the payload byte count is non-zero and at least the length field; it then holds header followed by payload; a non-zero protocol id byte throws `invalid_argument`, every other rejection (a short header, a zero count, a count below the length field) throws `out_of_range` |
| DataUnits.FromPartsAgreesWithFromBuffer | src/core/tcp_data_unit.cpp:12-51 | for a protocol-id-0 header and fewer than 2^31 payload bytes read, the two-buffer constructor accepts exactly when the single-buffer one accepts the concatenation with the header bytes counted in, and both give the same unit |
| DataUnits.FromPartsChecksProtocolId | src/core/tcp_data_unit.cpp:32-34 | a non-zero protocol id makes the header/payload constructor throw `invalid_argument` |
| DataUnits.TransactionId | src/core/tcp_data_unit.cpp:53-57 | the transaction id is bytes 0 and 1, big-endian, and reading it throws exactly when the buffer is shorter than 2 |
| DataUnits.MessageLength | src/core/tcp_data_unit.cpp:59-63 | the length is bytes 4 and 5, big-endian, and reading it throws exactly when the header is incomplete |
| DataUnits.UnitId | src/core/tcp_data_unit.cpp:65 | the unit id is byte 6, available exactly when the buffer holds it |
| DataUnits.UnitFunctionCode | src/core/tcp_data_unit.cpp:67-69 | the function code is byte 7 without the exception bit |
| DataUnits.IsException | src/core/tcp_data_unit.cpp:71 | a unit is an exception exactly when byte 7 has its top bit set |
| DataUnits.UnitExceptionCode | src/core/tcp_data_unit.cpp:73-79 | the exception code is `no_exception` for a normal reply and byte 8 otherwise, throwing exactly when the byte it needs is missing |
| DataUnits.EmptyUnitAccessorsFail | src/core/tcp_data_unit.cpp:8-10 | every accessor of a default-constructed unit throws `out_of_range`, and its type is the invalid PDU type |
| DataUnits.Pdu | modbus/core/tcp_data_unit.hpp:127-156 | `pdu<T>()` yields a value only for a non-exception unit whose function code and message type are T's, and that value is T decoded from the bytes after the header |
| DataUnits.PduException | modbus/core/tcp_data_unit.hpp:161-186 | `pdu<exception_response>()` yields a value only for a response with the exception bit set, decoded from the bytes after the header |
| DataUnits.FrameAccessors | src/core/tcp_data_unit.cpp:53-79 | behind a header built for a transaction id and size, each accessor returns that id, that size cut to 16 bits, and the unit id, function code, exception flag and exception code of the PDU |
| DataUnits.EncodedHeader | modbus/core/tcp_data_unit.hpp:39-63 | every accessor of an encoded unit gives back what was encoded: the transaction id, `size()`, unit id, function code and exception code |
| DataUnits.PduOfEncoded | modbus/core/tcp_data_unit.hpp:127-156 | `pdu<T>()` of a unit encoded from a T gives the message back (normalised; exact when well formed) |
| DataUnits.PduOfEncodedOtherKind | modbus/core/tcp_data_unit.hpp:127-186 | `pdu<U>()` of a unit encoded from a T is none for every other U, and so is `pdu<exception_response>()` |
| DataUnits.PduOfEncodedException | modbus/core/tcp_data_unit.hpp:161-186 | an encoded exception reply gives itself back from `pdu<exception_response>()`, and no other `pdu<T>()` |
| DataUnits.ParseEncoded | src/core/tcp_data_unit.cpp:12-51 | both parsing constructors accept the bytes of an encoded message and keep them unchanged |
| DataUnits.ParseWhole | src/core/tcp_data_unit.cpp:12-26 | the buffer constructor accepts any header whose length field matches a non-empty PDU read in full |
| DataUnits.ParseParts | src/core/tcp_data_unit.cpp:28-51 | the header/payload constructor accepts any protocol-id-0 header whose length matches a non-empty payload |
| ResponseData.SetDataModel | src/core/modbus_response.cpp:21-23 | setting the data model changes it and nothing else |
| ResponseData.SetData | src/core/modbus_response.cpp:25-27 | setting the data changes it and nothing else |
| ResponseData.BufferLength | src/core/modbus_response.cpp:33-38 | the buffer length is 0 for an invalid response and otherwise the data size cut to 16 bits: the size itself below 2^16, and in general a 16-bit value that differs from the size by a multiple of 2^16 |
| ResponseData.BufferLengthWraps | src/core/modbus_response.cpp:25-38 | a valid response holding 2^16 + k bytes (k < 2^16) reports length k, so one of exactly 2^16 bytes reports 0, as an invalid response does |
| ResponseData.GetBool | src/core/modbus_response.cpp:40-51 | an invalid response reads false; otherwise the read succeeds exactly when the bit lies in the data and gives that bit |
| ResponseData.GetUInt8 | src/core/modbus_response.cpp:53-58 | an invalid response reads 0; otherwise byte `index`, throwing exactly when it is past the end |
| ResponseData.GetInt8 | src/core/modbus_response.cpp:60-65 | the signed read succeeds exactly when the unsigned one does and is its two's-complement value |
| ResponseData.GetUInt16 | src/core/modbus_response.cpp:67-86 | an invalid response reads 0; otherwise the read throws `out_of_range` exactly when byte `2 * index + 1` is past the end, and the value read, written big-endian, is bytes `2 * index` and `2 * index + 1` in normal order and those two bytes exchanged when byte-swapped |
| ResponseData.GetInt16 | src/core/modbus_response.cpp:88-107 | the signed 16-bit read is the two's-complement value of the unsigned one |
| ResponseData.GetUInt32 | src/core/modbus_response.cpp:109-132 | an invalid response reads 0; otherwise the read throws `out_of_range` exactly when byte `4 * index + 3` is past the end, and the value read is below 2^32 and, written big-endian, is the four bytes at `4 * index` in normal order and those bytes reversed when byte-swapped |
| ResponseData.GetInt32 | src/core/modbus_response.cpp:134-157 | the signed 32-bit read is the two's-complement value of the unsigned one |
| ResponseData.DataType | src/core/modbus_response.cpp:171-196 | read coils maps to coil, read discrete inputs to input status, read input registers to input register, read holding registers to holding register, the four write functions to write confirmation, every other code to the invalid data type (each in both directions) |
| ResponseData.DefaultResponseIsEmpty | src/core/modbus_response.cpp:5-9 | a default-constructed response is invalid, has buffer length 0, and every getter returns false or 0 |
| ResponseData.GetBoolOfPackedCoils | src/core/modbus_response.cpp:40-51 | `getBool(i)` on coils packed by the write-multiple-coils constructor gives back boolean i |
| ResponseData.GetUInt16OfRegisters | src/core/modbus_response.cpp:67-86 | on data written from registers, the normal 16-bit read gives back register i and the swapped read its byte-swapped value |
| ResponseData.GetUInt32OfTwoRegisters | src/core/modbus_response.cpp:109-132 | a normal 32-bit read is register 2i as high word and register 2i+1 as low word; a swapped read takes the words the other way round, each byte-swapped |
| ResponseData.GetUInt16At | src/core/modbus_response.cpp:67-86 | wherever a register's two big-endian bytes sit at `2 * index`, whatever the rest of the buffer holds, the normal 16-bit read at `index` gives the register |
| ResponseData.GetUInt32At | src/core/modbus_response.cpp:109-132 | wherever a 32-bit value's four big-endian bytes sit at `4 * index`, the normal 32-bit read at `index` gives the value |
| ResponseData.BigEndian32OfWord32 | src/core/modbus_response.cpp:117-121 | the sum of four bytes shifted by 24, 16, 8 and 0 splits back into those four bytes |
| ResponseData.KnownValues | test/response_data_test.cpp:19-55 | on the coil buffer `{0xCD, 0x6B, 0xB2, 0x0E, 0x1B}` every accessor gives the value the library's test expects, e.g. `getUINT16(0) == 0xCD6B` and `getUINT32(0) == 3446387214` |
| ResponseData.GetUInt16Swapped | src/core/modbus_response.cpp:67-86 | the swapped 16-bit read is the normal read with its two bytes exchanged |
| ResponseData.SignedReads | src/core/modbus_response.cpp:60-157 | a signed read is negative exactly when the unsigned read has its top bit set |
| ServerHelper.RequestBitMap | modbus/server/server_helper.hpp:17-47 | the intended bitmap is empty exactly when no register is asked for, otherwise `(n + startBit) / 8 + 1` bytes |
| ServerHelper.RequestBitMapBits | modbus/server/server_helper.hpp:17-47 | bit j of the intended bitmap is set exactly for the requested coils `startBit <= j < startBit + n` (both directions) |
| ServerHelper.CreateRequestBitMap | modbus/server/server_helper.hpp:17-47 | the corrected `create_request_bit_map` of the first Findings row: the fill-then-shift loop builds exactly the intended bitmap, whose set bits are the requested coils; the as-written bitmap is `RequestBitMapAsWritten` |
| ServerHelper.RequestBitMapAsWrittenAgrees | modbus/server/server_helper.hpp:32-34 | when `n % 8 + startBit < 8`, the library's last-byte formula agrees with the intended bitmap |
| ServerHelper.RequestBitMapAsWrittenOverreaches | modbus/server/server_helper.hpp:32-34 | as written, start 7 with one register yields `[0x80, 0xFF]`, granting eight unrequested coils, and start 7 with two registers indexes past the mask table |
| ServerHelper.SubsetBytesCovers | modbus/server/server_helper.hpp:70-76 | the byte-by-byte `(request & access) == request` test holds exactly when every requested bit is set in the access map |
| ServerHelper.LegalAddress | modbus/server/server_helper.hpp:57-79 | access is legal exactly when the request bitmap is non-empty, fits in the access map, and every requested bit is set in it |
| ServerHelper.LegalAddressOfRequest | modbus/server/server_helper.hpp:57-79 | for the intended request bitmap, access is legal exactly when every requested address is set in the access map |
| ServerHelper.ShiftedDownBits | modbus/server/server_helper.hpp:105-109 | shifting a coil array down by s moves coil k + s to coil k |
| ServerHelper.ShiftDownInPlace | modbus/server/server_helper.hpp:105-109 | the in-place shift loop leaves the array equal to the shifted-down coils |
| ServerHelper.CopyDataBits | modbus/server/server_helper.hpp:89-121 | coil k of the copy is set exactly when the request bitmap covers address start + k and memory has that coil set; the copy drops the spare last byte as the library does |
| ServerHelper.CopyDataBitsOfRequest | modbus/server/server_helper.hpp:89-121 | with the intended request bitmap the copy has `(n - 1) / 8 + 1` bytes and holds exactly the n requested coils, zero beyond |
| ServerHelper.WriteCoil | modbus/server/server_helper.hpp:129-140 | writing a coil sets it exactly when the status is on, and leaves every other coil and byte unchanged |
| ServerHelper.ShiftedUpBits | modbus/server/server_helper.hpp:154-159 | shifting coil statuses up by s moves coil k to coil k + s, and the low s coils are clear |
| ServerHelper.ShiftedUpAsWrittenLosesCoils | modbus/server/server_helper.hpp:154-159 | the library's ascending in-place shift, on statuses `[0x00, 0xC0, 0x00]` at start bit 2, loses the coils that should land in byte 2 |
| ServerHelper.ShiftUpInPlace | modbus/server/server_helper.hpp:154-159 | the corrected (descending) in-place shift leaves the array equal to the shifted-up statuses |
| ServerHelper.MergeBit | modbus/server/server_helper.hpp:162-165 | the clear-then-set update takes each bit from the status where the bitmap is set and from memory elsewhere |
| ServerHelper.MergeCoils | modbus/server/server_helper.hpp:161-166 | the merge loop updates exactly the bytes under the bitmap, each by the clear-then-set rule |
| ServerHelper.WriteCoils | modbus/server/server_helper.hpp:149-168 | the corrected `write_coils` of the second and third Findings rows (descending shift; status bytes past the end read as zero), for statuses of any length: after writing coils, each memory coil under the request bitmap holds the matching status coil, and every other coil and byte is unchanged; the as-written shift is `ShiftedUpAsWritten` |
| ServerHelper.RequestBitMapOutgrowsStatuses | modbus/server/server_helper.hpp:17-47 | the request bitmap has `(n + 7) / 8` bytes, as many as a request's coil statuses, plus one more exactly when `(n - 1) % 8 + startBit >= 7` |
| ServerHelper.StatusesShorterThanBitmap | modbus/server/server_helper.hpp:149-168 | eight coils from address 0 have one status byte but a two-byte bitmap, so `write_coils` as written indexes past its status vector |
| ServerHelper.PaddedBits | modbus/server/server_helper.hpp:149-168 | reading missing status bytes as zero changes no coil: the padded statuses have the same coils, clear past the end |
| ServerHelper.WriteCoilsOfRequest | modbus/server/server_helper.hpp:149-168 | with the intended request bitmap, exactly the n coils from the start address take the statuses, in order, and nothing else changes |
| ServerHelper.CopyDataRegisters | modbus/server/server_helper.hpp:176-191 | the copy is exactly the bytes of the n registers from the start address, so each copied register equals the memory register |
| ServerHelper.WriteRegister | modbus/server/server_helper.hpp:199-207 | the register at the address reads back as the value, high byte first, and no other byte changes |
| ServerHelper.WriteRegisters | modbus/server/server_helper.hpp:215-225 | each of the n registers from the address reads back as the matching value, and no byte outside them changes |
| Client.TcpClient.constructor | modbus/client/tcp_client.cpp:5-15 | a new client's transaction-id counter starts at 1 |
| Client.TcpClient.ReserveTransactionId | modbus/client/tcp_client.cpp:28 | reserving returns the current id and advances the counter by one, wrapping at 16 bits |
| Client.IdAfterWraps | modbus/client/tcp_client.hpp:125 | after k reservations the counter is the start id plus k, mod 2^16 |
| Client.ReservedIdsDistinct | modbus/client/tcp_client.hpp:125 | two reservations j < k give the same id exactly when k - j is a multiple of 65536 |
| Client.IdsOfNewClient | modbus/client/tcp_client.cpp:9 | a new client hands out 1, 2, ... and hands out 0 for its 65536th request |
| Client.SameTransactionId | src/core/tcp_data_unit.cpp:53-57 | two units have the same transaction id exactly when their first two bytes agree |
| Client.ValidateResponse | modbus/client/tcp_client.cpp:151-175 | validation throws `out_of_range` exactly when a field it reads is missing; otherwise it accepts exactly when ids, masked function codes, and (for a non-exception single-write reply) whole buffers agree, and rejects with `invalid_response` |
| Client.ValidateRejectsOtherTransaction | modbus/client/tcp_client.cpp:157-159 | a reply framed with another transaction id is rejected as an invalid response |
| Client.ValidateAcceptsExceptionReply | modbus/client/tcp_client.cpp:161-167 | an exception reply to the request's function, with the same id, is accepted |
| Client.ValidateSingleWriteEcho | modbus/client/tcp_client.cpp:165-172 | a single-write reply is accepted exactly when it echoes the request byte for byte |
| Client.ReadResponse | modbus/client/tcp_client.cpp:108-149 | a short header gives `malformed_message`, a length past 256 bytes gives `invalid_response`, a short body gives `disconnected`, a zero-length reply throws `out_of_range`; an error reply carries an empty unit; success gives the 256-byte buffer of header, body and zero fill, typed as a response |
| Client.ReadEncodedFrame | modbus/client/tcp_client.cpp:108-149 | a frame of at most 256 bytes, read as header then body, yields a unit whose transaction id is the frame's |
| Client.ReadEchoOfSingleWriteRejected | modbus/client/tcp_client.cpp:108-172 | an exact echo of an encoded single-write request, read back through `read_response`, comes as a zero-padded 256-byte unit and so fails the whole-buffer echo comparison of `validate_response` |
| Client.Verdict | modbus/client/tcp_client.cpp:72-79 | a read that failed ends the wait with its error; an error reply ends it with the reply; a good reply whose id is below the request's is skipped; any other reply is the answer |
| Client.AwaitResponse | modbus/client/tcp_client.cpp:71-85 | the loop consumes reads until the first that is not skipped, and returns its verdict; every read before it was a stale reply |
| Client.ReplyToRequestAnswers | modbus/client/tcp_client.cpp:72-79 | a good reply carrying the request's own id ends the wait as the answer |
| Client.LateReplyAfterWrapAnswers | modbus/client/tcp_client.cpp:72-79 | after the counter wraps, a late reply with id 0xFFFF is not skipped for request id 0 but taken as its answer |

## Left out

- Networking, coroutines, timers, the connection pool, logging callbacks and `set_config` are left out: they are I/O and concurrency. Socket reads enter the model as the bytes they returned (`Client.ReadOutcome`).
- The send path (`send_request` writing the frame, `clear_buffer`) is not modelled: it only moves bytes to and from a socket.
- The server session and server loop are not modelled. They call the helpers above and otherwise do I/O.
- The second client variant's `read_response` (src/client/tcp_client.cpp:55-85) has no short-body check. The model follows the variant that has one, at modbus/client/tcp_client.cpp:108-149.
- The second client variant's `validate_response` returns `no_error` where the first returns `success`, and `success` is not a member of the error enums shown in modbus/core/error.hpp. Both are modelled as `NoError`.
- `Client.AwaitResponse`: the read timeout that ends the source's loop is not modelled. The model reads a finite list of reads and reports `StillWaiting` when it runs out.
- `modbus_response_t::size()` (modbus/core/modbus_response.hpp:60) is declared but never defined in the library, so it has no model.
- `operator<<` and the other printing functions are left out: they are formatting only.
- `ResponseData.GetUInt8`: its contract does not name the error kind for an index past the end. The other getters do (`out_of_range`).
- The `.cpp` files of `write_single_coil_response`, `read_input_registers_response` and `write_multiple_registers_response` are not part of this model. Those messages follow their headers and the layout of their sibling messages.
- ServerHelper: the helpers index byte vectors without bounds checks. Each method therefore `requires` the indices it touches to be in range, rather than modelling undefined behaviour.
- ServerHelper: addresses and counts are `nat`; negative `int` arguments are not modelled.
- `Messages.Decode`: it returns `None` when the buffer is too short for the message, and so do `MessageIO.DecodeAt` and hence `DataUnits.Pdu`. The C++ decoding constructors read through an iterator without a bounds check, so there the same input reads past the end of the buffer. That is undefined behaviour, and the `catch` in `pdu<T>()` does not cover it. The model does not capture what such a read would return.
- `ServerHelper.RequestBitMapAsWritten` is only defined where the source's mask-table index stays inside the table.
- `MessageIO.PackCoils`: requires at most 65535 booleans, the most a 16-bit `length` can hold. The source casts larger counts to 16 bits.
- `DataUnits.FromBufferAccepts`: stated for byte counts below 2^32. `DataUnits.DataLength` models the full 64-bit `size_t` conversion, and the `DataLength…` lemmas cover the wrap up to 2^32 + 2^31 bytes past the header, where a count turns first negative and then positive again (`DataUnits.FromBufferAcceptsWrappedRead`).
- `DataUnits.FromBuffer` and `DataUnits.FromParts`: the move of the buffer into shared, reference-counted storage is not modelled. A unit holds its bytes as a value.

## Findings

| source | as written | input that shows it | evidently intended | confidence | as-written member | corrected member |
|---|---|---|---|---|---|---|
| modbus/server/server_helper.hpp:32-34 | for a bitmap of more than one byte, the high bits of the last byte are `numRegisters % 8 + startBit` | start address 7, one register: bitmap `[0x80, 0xFF]` (grants coils 8-15 too); start 7, two registers indexes `bitMasks[9]`, past the table | `(numRegisters + startBit) % 8` high bits: `[0x80, 0x00]` | not executed | ServerHelper.RequestBitMapAsWrittenOverreaches | ServerHelper.RequestBitMapBits |
| modbus/server/server_helper.hpp:149-168 | `write_coils` indexes one status byte per bitmap byte, but its caller in the library's server test (test/tcp_server_test.cpp:211-227) passes the request's `(n + 7) / 8` status bytes with a bitmap of `(n + startBit) / 8 + 1` bytes | eight coils from address 0: one status byte against a two-byte bitmap, so status byte 1 is read and written past the end of the vector | status bytes the request does not carry are read as zero; they lie outside the request bitmap, so memory does not depend on them | not executed | ServerHelper.StatusesShorterThanBitmap | ServerHelper.WriteCoils |
| modbus/server/server_helper.hpp:156-159 | the status bytes are shifted up in place in ascending order, so byte i is built from byte i-1 after it was already shifted | statuses `[0x00, 0xC0, 0x00]`, start bit 2: byte 2 becomes `0x00` | byte 2 takes the two high coils of the original byte 1: `0x03` (shift in descending order) | not executed | ServerHelper.ShiftedUpAsWrittenLosesCoils | ServerHelper.WriteCoilsOfRequest |
