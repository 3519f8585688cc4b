# AM2320 driver, modelled in Dafny

This project models the `am2320` Rust driver for the AM2320 temperature and
humidity sensor: the function `measure`, the `Measurement` value it
returns, and the checksum it uses. `measure` does four things:

- It wakes the sensor with a one-byte write.
- It sends the read-registers command `[0x03, 0x00, 0x04]` and reads back an
  eight-byte response.
- It checks the response in a fixed order: function code, register count,
  then a CRC-16/MODBUS checksum of the four data bytes, stored high byte
  first in bytes 6 and 7.
- It decodes the two big-endian data words. Humidity is taken as sent.
  Temperature is in sign-magnitude form: the top bit is the sign and the
  low fifteen bits the magnitude.

The model has three modules, one per part of the driver:

- `Crc` (`crc.dfy`) holds the checksum. `Checksum` is the specification: a
  left fold, starting from 0xFFFF, of a per-byte update. The update XORs
  the byte into the low bits, then takes eight reflected bit steps with
  polynomial 0xA001, as in section 6.2.2 of the MODBUS over Serial Line
  Specification and Implementation Guide V1.02.
  - `Crc16` is the driver's imperative loop with its nested eight-step loop.
    It is proved equal to `Checksum`.
  - The result is a `bv16`, so it always fits in sixteen bits.
- `Measurements` (`measurement.dfy`) holds `Measurement::from_raw` as
  `FromRaw`, over `bv16` words and an `i16` newtype.
  - `AsI16` is Rust's `as i16` reinterpretation.
  - The accessors `temperature()` and `humidity()` are the datatype's
    fields.
- `Am2320` (`am2320.dfy`) holds the decode of the response (`DecodeFrame`)
  and the error taxonomy (`Error`, `I2cError`).
  - `MeasureResult` is `measure` as a function of the outcomes of its two
    bus operations.
  - The class `Bus` stands for the I2C bus. Its operation outcomes are fixed
    when it is made, and it keeps a log of the transactions issued on it.
  - The imperative `Measure` fills an eight-byte array through the bus,
    returns early on a bus error, and decodes the buffer. It is proved to
    return `MeasureResult` and to issue no command after a failed wake-up.

Raw words are `bv16` values and bytes are `bv8` values. Where a contract
speaks of a number, it converts with `as int`, so there is no hidden
wrap-around. `FromRaw`'s lemmas give the temperature as minus the number in
the low fifteen bits, or as the word's value. `FromBeBytesValue` gives a
big-endian word as 256 times its high byte plus its low byte.

## Model

| member | source | states |
|---|---|---|
| Crc.BitStep | src/lib.rs:128-134 | one pass of the inner loop: shift right, XOR in 0xA001 when the bit shifted out was set; `BitStepInjective` shows two different registers stay different |
| Crc.UpdateByte | src/lib.rs:126-135 | the outer loop's body: XOR the byte in, then eight bit steps; `UpdateByteInjectiveInRegister` and `UpdateByteInjectiveInByte` show it keeps a difference in the register and tells different bytes apart |
| Crc.Checksum | src/lib.rs:123-139 | the fold of the per-byte update from 0xFFFF; `Crc16` is proved to return it, and the lemmas below give its empty, append, error-detection and check-value properties |
| Crc.Crc16 | src/lib.rs:123-139 | the loop returns the CRC-16/MODBUS checksum of the data: the fold of the per-byte update from 0xFFFF |
| Crc.ChecksumEmpty | src/lib.rs:124-138 | the checksum of no bytes is the initial value 0xFFFF |
| Crc.ChecksumAppend | src/lib.rs:126-136 | one more byte is one more update: checksum(a ++ [b]) == update(checksum(a), b) |
| Crc.FoldConcat | src/lib.rs:126-136 | processing p, then q, from any register is processing p ++ q |
| Crc.FoldInjective | src/lib.rs:126-136 | bytes processed after a difference in the register cannot cancel it |
| Crc.SingleByteErrorDetected | src/lib.rs:123-139 | any change confined to one byte of any data changes the checksum, so every single-bit error is caught |
| Crc.ChecksumCheckValue | src/lib.rs:123-139 | the checksum of the ASCII digits "123456789" is the published check value 0x4B37 |
| Crc.ChecksumOfZeros | src/lib.rs:123-139 | the checksum of four zero bytes is 0x2400 |
| Crc.ChecksumOfReading | src/lib.rs:123-139 | the checksum of the data bytes 01 90 01 90 is 0x0900 |
| Measurements.AsI16 | src/lib.rs:81-83 | `as i16` on a `u16`: `AsI16Small` keeps the value below 0x8000 and `AsI16Large` subtracts 0x10000 from 0x8000 up |
| Measurements.AsI16Large | src/lib.rs:83 | `as i16` wraps a word at or above 0x8000 to its value minus 0x10000, which is why `from_raw` masks the sign off first |
| Measurements.FromRaw | src/lib.rs:79-90 | `from_raw`: what it returns is given by `FromRawNegative`, `FromRawNonNegative`, `FromRawRange`, `FromRawSign` and `FromRawHumidity` |
| Measurements.NegatedMagnitudeFits | src/lib.rs:81 | minus the `as i16` of a fifteen-bit magnitude stays inside `i16`, so the `* -1` cannot overflow |
| Measurements.FromRawNegative | src/lib.rs:80-81 | with the sign bit set, the temperature is minus the low fifteen bits: the cast does not wrap and the negation cannot overflow |
| Measurements.FromRawNonNegative | src/lib.rs:82-84 | with the sign bit clear, the temperature is the raw word's value |
| Measurements.FromRawRange | src/lib.rs:79-90 | every decoded temperature lies in [-32767, 32767] |
| Measurements.FromRawSign | src/lib.rs:80-84 | the temperature is non-negative exactly when the sign bit is clear or the magnitude is zero |
| Measurements.FromRawHumidity | src/lib.rs:86-89 | the humidity is the raw humidity word, unchanged |
| Measurements.AsI16Small | src/lib.rs:83 | `as i16` keeps the value of a word below 0x8000 |
| Measurements.EncodeTemperature | src/lib.rs:80-84 | the sign-magnitude encoding of a sign and a fifteen-bit magnitude has exactly that sign bit and those magnitude bits |
| Measurements.TemperatureRoundTrip | src/lib.rs:79-90 | decoding the sign-magnitude encoding of a sign and a magnitude gives minus the magnitude or the magnitude |
| Measurements.TemperatureDecodeInjective | src/lib.rs:79-90 | two raw words decode to the same temperature only if they are equal or are the two encodings of zero |
| Measurements.SignMagnitudeExamples | src/lib.rs:80-84 | 0x0190 decodes to 400 and 0x8190 to -400; two's complement would have given -32368 |
| Measurements.HumidityExample | src/lib.rs:86-89 | the humidity word 0x0200 reads as 512 |
| Am2320.FromBeBytes | src/lib.rs:55-67 | `u16::from_be_bytes`: `FromBeBytesValue` gives its value, `BytesRoundTrip` and `FromBeBytesInjective` make it the inverse of `ToBeBytes` |
| Am2320.FromBeBytesValue | src/lib.rs:60-67 | a big-endian word is 256 times its high byte plus its low byte |
| Am2320.BytesRoundTrip | src/lib.rs:55 | joining the two big-endian bytes of a word gives the word back |
| Am2320.FromBeBytesInjective | src/lib.rs:55 | two big-endian words are equal only if both their bytes are |
| Am2320.EncodeFrame | src/lib.rs:48-58 | the response the sensor sends carries the data bytes at offsets 2 to 5 |
| Am2320.DecodeFrame | src/lib.rs:48-69 | a wrong function code or register count gives SensorFailed whatever the checksum; a valid header with a mismatched checksum gives IncorrectCrc; decoding never reports a bus error |
| Am2320.DecodeAcceptsEncoded | src/lib.rs:48-69 | a frame is accepted exactly when it is the sensor's response for its own data bytes, and then it decodes the words at offsets 4-5 (temperature) and 2-3 (humidity) |
| Am2320.DecodeRoundTrip | src/lib.rs:55-69 | every response the sensor sends for four data bytes decodes to from_raw of the temperature word and the humidity word |
| Am2320.DecodedHumidity | src/lib.rs:60-69 | an encoded response is accepted and its humidity is 256 times the first data byte plus the second |
| Am2320.DecodedTemperature | src/lib.rs:64-69 | an encoded response is accepted and its temperature is minus or plus 256 times the low seven bits of the third data byte plus the fourth, the sign being the third byte's top bit |
| Am2320.TemperatureBytes | src/lib.rs:64-67 | the temperature decoded from a big-endian word takes its sign from the high byte's top bit and its magnitude from the other fifteen bits |
| Am2320.CorruptedFrameRejected | src/lib.rs:48-58 | changing one byte of an accepted frame makes it rejected: SensorFailed for a header byte, IncorrectCrc for a data or checksum byte |
| Am2320.MeasureResult | src/lib.rs:38-69 | `measure` as a function of its two bus outcomes; `MeasureOutcomes` states its error and success cases, and `Measure` is proved to return it |
| Am2320.MeasureOutcomes | src/lib.rs:38-69 | a failed wake-up gives I2cError(Write(e)), a failed transfer gives I2cError(WriteRead(e)), and a measurement comes back exactly when both succeeded and the frame is a proper response |
| Am2320.MeasureExample | src/lib.rs:26-70 | the response 03 04 01 90 01 90 09 00 gives 40.0 degrees and 40.0 percent |
| Am2320.Bus.Write | src/lib.rs:38-39 | a write is logged and returns the bus's write outcome |
| Am2320.Bus.WriteRead | src/lib.rs:41-46 | a write-read is logged; on success the response fills the buffer and on failure the buffer is unchanged |
| Am2320.Measure | src/lib.rs:26-70 | measure returns what MeasureResult gives for the bus's two outcomes; it issues the wake-up write and then the command only when the wake-up succeeded |

## Left out

- `temperature_f32` and `humidity_f32` (src/lib.rs:100-105, 115-120) are
  left out because they are floating-point multiplications. They scale the
  integers `temperature` and `humidity` by 0.1 and 0.001. A humidity of
  512, meaning 51.2 percent, becomes the fraction 0.512.
- The `timer` parameter of `measure` is not modelled, since the function
  never uses it.
- The real I2C bus and the `embedded_hal` traits are foreign I/O. `Bus`
  replaces them with fixed outcomes chosen when it is made. As a result the
  model does not tie the response to the command bytes sent, and it has no
  bus timing or concurrency. The bus's error types are type parameters with
  no properties.
- Am2320.Bus.WriteRead: on failure the model leaves the buffer as it was.
  `embedded_hal` promises nothing about the buffer after a failed
  `write_read`; no result depends on this, since `Measure` returns
  without reading the buffer when the transfer fails.
- The `Debug`, `Copy` and `Clone` derives on `Measurement` are left out:
  as a Dafny datatype it is a value already.
