# IM12xx power meter codec — Dafny model

This project models `irdopto-im12xx`. That library is a byte-level codec for one Modbus RTU power meter, the IM12xx. It has three jobs:

- **Request.** At construction the session encodes one fixed "Read Holding Registers" request: slave 1, start register 0x0048, quantity 8, using RTU framing. `request()` hands back those bytes.
- **Response.** `response()` accepts only a 37-byte answer. Validating the frame is left to the Modbus client library. The 32-byte register block between the 3-byte header and the 2-byte CRC is then decoded into a `PowerState` by `PowerState::from`. That decoding reads eight big-endian `u32` values in a fixed field order: voltage, current, active power, active energy, power factor, CO2 emissions, temperature, frequency. Each value is scaled by a power of ten chosen per field.
- **Storage.** `PowerState::to_be_bytes` / `from_be_bytes` write and read each field's 32-bit pattern, big-endian, in the same order and without scaling.

Modules and what they correspond to:

| file | module | models |
|---|---|---|
| `results.dfy` | `Results` | Rust's `Result`, and the unit-valued result of the Modbus check |
| `bytes.dfy` | `Bytes` | `u8`/`u16`/`u32` and their big-endian conversions; `Pack`/`Unpack` are the `for i in 0..8` loops over four-byte groups |
| `modbus.dfy` | `Modbus` | the parts of the Modbus client library the codec calls: `ModbusRequest`, `generate_get_holdings`, the CRC-16 of section 2.5.1.2 of the MODBUS over Serial Line specification V1.02, and the type of `parse_ok` |
| `errors.dfy` | `Errors` | the `Error` enum |
| `measurements.dfy` | `Measurements` | `PowerState`, `PowerState::from`, `to_be_bytes`, `from_be_bytes` |
| `meter.dfy` | `Meter` | `Im12xx::new`, `request`, `response` and the constants `MODBUS_ADDR`, `REG_ADDR`, `REG_COUNT` |
| `meter_example.dfy` | `MeterExample` | the unit test's request and response vectors |

Modelling decisions:

- **Fields.** The eight fields are one generic record, `Readings<T>`. Decoded values are `Readings<real>` (`PowerState`). A scaled value is the exact rational `raw / 10^k`, not an `f32`. The storage format works on `Readings<u32>` (`PowerBits`), where each field is the 32-bit pattern of the `f32`.
- **`parse_ok`.** The library's validation of a response is not part of this model. `Response` therefore takes it as a function parameter of type `ParseOk`: `(ModbusRequest, seq<byte>) -> Outcome<ErrorKind>`. Every property of `Response` holds for every such function. `Modbus.RtuParseOk` is one concrete instance, a length-consistent RTU check. It follows the serial-line framing and CRC but departs from section 6.3 of the application protocol: the byte count is checked against the frame length, not against twice the quantity. A conforming parser would refuse the unit test's response. It lets the model carry the unit test's response through every step of decoding.
- **`generate_get_holdings`.** The frame follows section 6.3 of the MODBUS Application Protocol Specification V1.1b3: address, function 0x03, start address, quantity. The CRC follows it, low byte first. The only failure modelled is a buffer too small for the 8 bytes, reported as `OutOfBounds`. `NewIn(capacity)` shows how such a failure becomes `ModbusErr`. `New()` is the source's fixed 256-byte case, and its contract proves the failure cannot happen.
- **Purity.** `request(&mut self)` and `response(&mut self, …)` are pure functions of the session here. The session is immutable, so "the same bytes on every call" holds because `Request` is a function.
- **Session invariant.** A session can only be obtained from `new`, because its fields are private. `Im12xx.Valid()` states what construction establishes. `Request` assumes it as its precondition.
- **Wire request vs. response size.** The request asks for quantity 8, which under section 6.3 means 8 × 2 = 16 data bytes in the answer. The code, however, requires a 32-byte register block (37-byte frame), and the unit test's response carries byte count 0x20. The meter evidently sends four bytes per requested register. `Meter.ByteCountPerRegister` states the consequence: a response with the standard byte count 16 is never decoded. This is why `RtuParseOk` checks the byte count against the frame length, not against twice the quantity. It is recorded as a property of the device protocol, not as a defect of the code.

## Model

| member | source | states |
|---|---|---|
| `Meter.NewIn` | src/lib.rs:25-36 | Construction succeeds exactly when the buffer can hold the 8-byte request. Otherwise the Modbus layer's `OutOfBounds` is returned wrapped in `ModbusErr`. Every session it builds satisfies the session invariant: the frame is a well-formed request for slave 1, register 0x48, quantity 8, and the client state expects function 3 from slave 1. |
| `Meter.New` | src/lib.rs:25-36 | With the 256-byte buffer, construction never fails. The stored request is exactly `[1,3,0,72,0,8,196,26]`. |
| `Meter.Request` | src/lib.rs:38-40 | Every valid session returns the same eight bytes, `[1,3,0,72,0,8,196,26]`. Parsed back as a request, they name slave 1, start register 0x48 and quantity 8. |
| `Meter.RequestCrc` | src/lib.rs:146 | The CRC-16/MODBUS of the header `[1,3,0,72,0,8]` is 0x1AC4. It is sent low byte first as `196, 26`. |
| `Meter.RequestIsLiteral` | src/lib.rs:146 | Any frame meeting the session invariant is byte-for-byte the literal request in the unit test. |
| `Meter.Response` | src/lib.rs:42-50 | A buffer of any length other than 37 gives `ResponseParseErr`, whatever the Modbus check would say. For a 37-byte buffer the check refuses, the check's own error comes back as `ModbusErr`. A record is produced exactly when the length is 37 and the check passes. That record is `PowerState::from` applied to bytes 3..34, so `from`'s length error cannot occur. |
| `Meter.ResponseFieldBytes` | src/lib.rs:49 | In an accepted response, measurement i is the big-endian word at frame bytes 3+4i .. 6+4i, scaled by that field's power of ten. |
| `Meter.LengthCheckedFirst` | src/lib.rs:43-48 | For a buffer of the wrong length, any two Modbus checks give the same result, `ResponseParseErr`. The check is not consulted. |
| `Meter.ResponseReadsOnlyPayload` | src/lib.rs:49 | Two accepted 37-byte responses that agree on bytes 3..34 decode to the same record, whatever their header and CRC bytes. |
| `Meter.NoRequestNeverProduced` | src/lib.rs:15 | Neither construction nor decoding ever returns `NoRequest`. |
| `Meter.ResponseUnderRtuCheck` | src/lib.rs:42-49 | With the length-consistent RTU check, a valid session decodes exactly the 37-byte frames with address 1, function 3, byte count 32 and a valid CRC. |
| `Meter.ByteCountPerRegister` | src/lib.rs:44 | A corollary of `LengthCheckedFirst`: a length-consistent frame carrying the byte count that section 6.3 prescribes for quantity 8 (16 bytes, so a 21-byte frame) is refused with `ResponseParseErr`, whatever the Modbus check says. |
| `Modbus.GenerateGetHoldings` | src/lib.rs:26-30 | Generation succeeds exactly when the buffer holds 8 bytes and otherwise fails with `OutOfBounds`. The frame is: slave address, function 3, start register (big-endian), quantity (big-endian), then a valid CRC. The client state records function 3, the register and the quantity. |
| `Modbus.ParseGetHoldings` | src/lib.rs:29 | It returns `Some` only for a well-formed request frame, and then gives that frame's address, register and quantity. It recognises every well-formed frame. |
| `Modbus.GetHoldingsRoundTrip` | src/lib.rs:29 | Parsing a generated request returns the slave, register and quantity it was generated from. |
| `Modbus.GetHoldingsCanonical` | src/lib.rs:29 | Every well-formed request frame is exactly the one the generator produces for the parameters it carries. |
| `Modbus.CrcFromAppend` | src/lib.rs:29 | The CRC register can be run over a frame in pieces: running it over `a + b` is running it over `a`, then over `b`. |
| `Modbus.RtuParseOk` | src/lib.rs:48 | The length-consistent RTU check passes exactly the frames with at least 5 bytes, a byte count equal to the frame length minus 5, the expected address and function, and a valid CRC. A frame with a bad CRC is reported as `FrameCrcError`. |
| `Measurements.From` | src/lib.rs:66-76 | It fails, with `ResponseParseErr`, if and only if the buffer is not 32 bytes. Otherwise measurement i is the big-endian `u32` at bytes 4i..4i+3 divided by 10^k, with k the field's scale exponent. |
| `Measurements.FromFieldLayout` | src/lib.rs:77-86 | Field order and scales by name: voltage, current, active power, active energy and CO2 emissions are raw/10000, power factor is raw/1000, temperature and frequency are raw/100. They are read from bytes 0-3, 4-7, …, 28-31 in that order. |
| `Measurements.FromFieldLocal` | src/lib.rs:72-75 | A decoded field depends only on its own four bytes. |
| `Measurements.FromFieldMonotone` | src/lib.rs:78-85 | A decoded field is never negative. Its order matches the order of its raw big-endian values. |
| `Measurements.ScaledMonotone` | src/lib.rs:78-85 | Scaling by 10^-k keeps both the strict and the non-strict order of raw values, and never gives a negative result. |
| `Measurements.ToBeBytes` | src/lib.rs:89-111 | The storage image is 32 bytes. Field i's 32-bit pattern sits big-endian at bytes 4i..4i+3, in declaration order. |
| `Measurements.FromBeBytes` | src/lib.rs:113-135 | Field i of the record read back is the big-endian word at bytes 4i..4i+3, unscaled. |
| `Measurements.StorageRoundTrip` | src/lib.rs:168-169 | Writing a record and reading it back reproduces every field's bit pattern. |
| `Measurements.StorageBytesRoundTrip` | src/lib.rs:89-135 | Reading any 32-byte image and writing it back reproduces the image, so the storage encoding is a bijection. |
| `Bytes.Pack` | src/lib.rs:102-108 | Words laid end to end: the output is 4 bytes per word, and word i's big-endian bytes sit at 4i..4i+3. |
| `Bytes.Unpack` | src/lib.rs:72-75 | Four-byte groups read back: word i is the big-endian value of bytes 4i..4i+3. |
| `Bytes.UnpackPack` | src/lib.rs:102-122 | Unpacking packed words gives the words back. |
| `Bytes.PackUnpack` | src/lib.rs:102-122 | Packing unpacked bytes gives the bytes back. |
| `Bytes.BeU32Inverse` | src/lib.rs:103 | Reading back the big-endian bytes of a `u32` gives the same `u32`. |
| `Bytes.U32ToBeInverse` | src/lib.rs:117-122 | Every four bytes are the big-endian bytes of the `u32` they encode. |
| `MeterExample.ResponseCrcValid` | src/lib.rs:148-152 | The test response's last two bytes, `0xD9 0xBE`, are the CRC-16/MODBUS of its first 35 bytes. |
| `MeterExample.PayloadDecodes` | src/lib.rs:148-166 | The test response's register block decodes to power factor 999/1000, temperature 29 and frequency 50. Every other field is 0. |
| `MeterExample.ExampleDecodes` | src/lib.rs:153-166 | Under any Modbus check that accepts the test response, the constructed session decodes it to that record. |
| `MeterExample.ExampleAccepted` | src/lib.rs:148-166 | With the length-consistent RTU check, the test response is accepted and decodes to that record. |

## Left out

- `f32` arithmetic. Scaled values are exact rationals `raw / 10^k`, so the unit test's `0.9990001` is modelled as exactly `999/1000`. The loss of precision of `u32 as f32` above 2^24 is not modelled either.
- `Measurements.FromFieldMonotone`, `Measurements.ScaledMonotone`: these prove strict monotonicity for exact rationals. The source's `f32` product is only non-decreasing, because rounding can merge neighbouring raw values.
- The link between a decoded `f32` value and its bit pattern. The storage encoding is modelled on bit patterns (`PowerBits`) directly, since `f32::to_be_bytes` / `from_be_bytes` are exact on bit patterns. IEEE-754 semantics, including NaN and `PartialEq` on floats, are left out.
- The internals of the Modbus client library. `parse_ok` is a function parameter. The library's `ErrorKind` is represented by the few kinds the model needs. `generate_get_holdings` is modelled from the standard's frame layout, with buffer overflow as its only failure.
- `FixedVec`, the caller's 256-byte buffer and its lifetime. The request is an immutable `seq<byte>`, and the buffer appears only as its capacity.
- The `BAUT` constant and the serial-port example program (`examples/test_mac_os.rs`). They are transport and I/O, not codec logic.
- `NoRequest` is declared but never produced, and the model produces it nowhere either (`Meter.NoRequestNeverProduced`).
