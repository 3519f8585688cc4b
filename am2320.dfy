/** The AM2320 driver's `measure`: wake the sensor, send it the
    read-registers command, then validate the eight-byte response (function
    code, register count, checksum, in that order) and decode it into a
    `Measurement`. */
module Am2320 {
  import opened Crc
  import opened Measurements

  /** The sensor's bus address, as the driver passes it. */
  const DeviceAddress: bv8 := 0xB8

  /** The MODBUS-style "read registers" function code. */
  const FuncReadRegisters: bv8 := 0x03

  /** Register offsets, relative to the first data byte of a response. */
  const RegHumidityHigh: nat := 0
  const RegHumidityLow: nat := 1
  const RegTemperatureHigh: nat := 2
  const RegTemperatureLow: nat := 3

  /** How many registers a measurement reads. */
  const MeasurementRegCount: bv8 := 4

  /** The read command: function code, first register, register count. */
  const Command: seq<bv8> := [FuncReadRegisters, RegHumidityHigh as bv8, MeasurementRegCount]

  /** The single byte written to wake the sensor up. */
  const WakeBytes: seq<bv8> := [0x00]

  /** A response: function code, register count, four data bytes, and the
      checksum of the data bytes, high byte first. */
  type Frame = s: seq<bv8> | |s| == 8 witness [0, 0, 0, 0, 0, 0, 0, 0]

  datatype Result<+T, +E> = Ok(value: T) | Err(error: E)

  /** A failed bus operation, tagged by the operation: `W` and `R` are the
      bus's own error types for a write and for a write-then-read. */
  datatype I2cError<W, R> = Write(writeError: W) | WriteRead(writeReadError: R)

  datatype Error<W, R> =
    | SensorFailed
    | IncorrectCrc
    | I2cError(cause: I2cError<W, R>)

  /** `u16::from_be_bytes([hi, lo])`. */
  function FromBeBytes(hi: bv8, lo: bv8): bv16 {
    (hi as bv16 << 8) | lo as bv16
  }

  /** `u16::to_be_bytes`: the high byte, then the low byte. */
  function ToBeBytes(w: bv16): (bytes: seq<bv8>)
    ensures |bytes| == 2
  {
    [(w >> 8) as bv8, (w & 0xFF) as bv8]
  }

  /** Splitting a word into bytes and joining them again gives it back. */
  lemma BytesRoundTrip(w: bv16)
    ensures FromBeBytes(ToBeBytes(w)[0], ToBeBytes(w)[1]) == w
  {
  }

  /** A big-endian word is the high byte times 256 plus the low byte. */
  lemma FromBeBytesValue(hi: bv8, lo: bv8)
    ensures FromBeBytes(hi, lo) as int == hi as int * 0x100 + lo as int
  {
    JoinedValue(hi, lo, FromBeBytes(hi, lo));
  }

  /** The value of the shifted-and-or form of a big-endian word. */
  lemma JoinedValue(hi: bv8, lo: bv8, w: bv16)
    requires w == ((hi as bv16) << 8) | (lo as bv16)
    ensures w as int == hi as int * 0x100 + lo as int
  {
    assert w >> 8 == hi as bv16;
    assert w & 0xFF == lo as bv16;
  }

  /** Two words built from bytes are equal only when their bytes are. */
  lemma FromBeBytesInjective(hi1: bv8, lo1: bv8, hi2: bv8, lo2: bv8)
    requires FromBeBytes(hi1, lo1) == FromBeBytes(hi2, lo2)
    ensures hi1 == hi2 && lo1 == lo2
  {
  }

  /** The response the sensor sends for the read command: the echoed
      function code and register count, the data bytes, their checksum. It is
      not part of the driver; it is the form `DecodeFrame` accepts. */
  function EncodeFrame(payload: seq<bv8>): (frame: Frame)
    requires |payload| == 4
    ensures frame[2..6] == payload
  {
    [FuncReadRegisters, MeasurementRegCount] + payload + ToBeBytes(Checksum(payload))
  }

  /** The validate-and-decode part of `measure`, on the filled buffer: the
      header is checked before the checksum, so a frame with a bad header is
      `SensorFailed` whatever its checksum; a decoding failure is never a bus
      error. Which frames are accepted is stated by `DecodeAcceptsEncoded`. */
  function DecodeFrame<W, R>(buf: Frame): (r: Result<Measurement, Error<W, R>>)
    ensures buf[0] != FuncReadRegisters || buf[1] != MeasurementRegCount ==> r == Err(SensorFailed)
    ensures (buf[0] == FuncReadRegisters && buf[1] == MeasurementRegCount
             && FromBeBytes(buf[6], buf[7]) != Checksum(buf[2..6])) ==> r == Err(IncorrectCrc)
    ensures r.Err? ==> !r.error.I2cError?
  {
    var funcCode := buf[0];
    var readCount := buf[1];
    if funcCode != FuncReadRegisters || readCount != MeasurementRegCount then
      Err(SensorFailed)
    else
      var crc := FromBeBytes(buf[6], buf[7]);
      if crc != Checksum(buf[2..6]) then
        Err(IncorrectCrc)
      else
        var rawHumidity := FromBeBytes(buf[2 + RegHumidityHigh], buf[2 + RegHumidityLow]);
        var rawTemperature := FromBeBytes(buf[2 + RegTemperatureHigh], buf[2 + RegTemperatureLow]);
        Ok(FromRaw(rawTemperature, rawHumidity))
  }

  /** A frame is accepted exactly when it is the sensor's response for its
      own data bytes, and then it yields the big-endian words of those bytes,
      humidity first. */
  lemma DecodeAcceptsEncoded<W, R>(buf: Frame)
    ensures DecodeFrame<W, R>(buf).Ok? <==> buf == EncodeFrame(buf[2..6])
    ensures DecodeFrame<W, R>(buf).Ok? ==>
              DecodeFrame<W, R>(buf).value == FromRaw(FromBeBytes(buf[4], buf[5]), FromBeBytes(buf[2], buf[3]))
  {
    if DecodeFrame<W, R>(buf).Ok? {
      FrameParts(buf);
    } else if buf == EncodeFrame(buf[2..6]) {
      EncodedFrameParts(buf[2..6]);
    }
  }

  /** A frame is its header, its data bytes and its checksum bytes. */
  lemma FrameParts(buf: Frame)
    ensures buf == buf[..2] + buf[2..6] + buf[6..]
    ensures buf[6..] == ToBeBytes(FromBeBytes(buf[6], buf[7]))
  {
    var w := FromBeBytes(buf[6], buf[7]);
    BytesRoundTrip(w);
    FromBeBytesInjective(buf[6], buf[7], ToBeBytes(w)[0], ToBeBytes(w)[1]);
  }

  /** The header and the checksum word of an encoded frame. */
  lemma EncodedFrameParts(payload: seq<bv8>)
    requires |payload| == 4
    ensures var frame := EncodeFrame(payload);
            && frame[0] == FuncReadRegisters && frame[1] == MeasurementRegCount
            && FromBeBytes(frame[6], frame[7]) == Checksum(payload)
  {
    BytesRoundTrip(Checksum(payload));
  }

  /** Every frame the sensor sends for a reading is accepted, and it yields
      the humidity word as sent and the temperature in sign-magnitude form. */
  lemma DecodeRoundTrip<W, R>(payload: seq<bv8>)
    requires |payload| == 4
    ensures DecodeFrame<W, R>(EncodeFrame(payload))
            == Ok(FromRaw(FromBeBytes(payload[2], payload[3]), FromBeBytes(payload[0], payload[1])))
  {
    var frame := EncodeFrame(payload);
    assert frame[2..6] == payload;
    EncodedFrameParts(payload);
  }

  /** The humidity of an accepted frame, as a number: 256 times its first
      data byte plus its second. */
  lemma DecodedHumidity<W, R>(payload: seq<bv8>)
    requires |payload| == 4
    ensures var r := DecodeFrame<W, R>(EncodeFrame(payload));
            r.Ok? && r.value.humidity as int == payload[0] as int * 0x100 + payload[1] as int
  {
    DecodeRoundTrip<W, R>(payload);
    FromBeBytesValue(payload[0], payload[1]);
  }

  /** The temperature of an accepted frame, as a number: the third data
      byte's top bit is the sign, and the magnitude is 256 times its low seven
      bits plus the fourth byte. */
  lemma DecodedTemperature<W, R>(payload: seq<bv8>)
    requires |payload| == 4
    ensures var r := DecodeFrame<W, R>(EncodeFrame(payload));
            var magnitude := (payload[2] & 0x7F) as int * 0x100 + payload[3] as int;
            r.Ok? && r.value.temperature as int == if payload[2] & 0x80 != 0 then -magnitude else magnitude
  {
    var humidity := FromBeBytes(payload[0], payload[1]);
    var negative, magnitude := TemperatureBytes(payload[2], payload[3], humidity);
    DecodeRoundTrip<W, R>(payload);
  }

  /** The temperature decoded from a big-endian word, as a sign taken from the
      high byte and a magnitude taken from both bytes. */
  lemma TemperatureBytes(hi: bv8, lo: bv8, rawHumidity: bv16) returns (negative: bool, magnitude: int)
    ensures negative == (hi & 0x80 != 0)
    ensures magnitude == (hi & 0x7F) as int * 0x100 + lo as int
    ensures FromRaw(FromBeBytes(hi, lo), rawHumidity).temperature as int == if negative then -magnitude else magnitude
  {
    var sign, m := SignedMagnitude(FromBeBytes(hi, lo), rawHumidity);
    SignMagnitudeBytes(hi, lo);
    FromBeBytesValue(hi & 0x7F, lo);
    negative, magnitude := sign, m as int;
  }

  /** The sign bit of a big-endian word is the top bit of its high byte, and
      its magnitude is the word of the high byte's low seven bits and the low
      byte. */
  lemma SignMagnitudeBytes(hi: bv8, lo: bv8)
    ensures (FromBeBytes(hi, lo) & 0x8000 != 0) == (hi & 0x80 != 0)
    ensures FromBeBytes(hi, lo) & 0x7FFF == FromBeBytes(hi & 0x7F, lo)
  {
  }

  /** A frame that a corruption confined to one byte has changed after it
      left a sensor is rejected: as `SensorFailed` when the byte is in the
      header, as `IncorrectCrc` otherwise. In particular every single flipped
      bit is caught. */
  lemma CorruptedFrameRejected<W, R>(buf: Frame, i: nat, mask: bv8)
    requires DecodeFrame<W, R>(buf).Ok?
    requires i < 8 && mask != 0
    ensures DecodeFrame<W, R>(buf[i := buf[i] ^ mask])
            == Err(if i < 2 then SensorFailed else IncorrectCrc)
  {
    var bad: Frame := buf[i := buf[i] ^ mask];
    AcceptedFrame<W, R>(buf);
    if i < 2 {
      HeaderCorrupted<W, R>(buf, bad, i, mask);
    } else if i < 6 {
      DataCorrupted<W, R>(buf, bad, i, mask);
    } else {
      ChecksumCorrupted<W, R>(buf, bad, i, mask);
    }
  }

  /** An accepted frame has a valid header and a matching checksum. */
  lemma AcceptedFrame<W, R>(buf: Frame)
    requires DecodeFrame<W, R>(buf).Ok?
    ensures buf[0] == FuncReadRegisters && buf[1] == MeasurementRegCount
    ensures FromBeBytes(buf[6], buf[7]) == Checksum(buf[2..6])
  {
  }

  /** A changed header byte is caught by the header check. */
  lemma HeaderCorrupted<W, R>(buf: Frame, bad: Frame, i: nat, mask: bv8)
    requires buf[0] == FuncReadRegisters && buf[1] == MeasurementRegCount
    requires i < 2 && mask != 0 && bad == buf[i := buf[i] ^ mask]
    ensures DecodeFrame<W, R>(bad) == Err(SensorFailed)
  {
    assert bad[i] != buf[i];
  }

  /** A changed data byte is caught by the checksum. */
  lemma DataCorrupted<W, R>(buf: Frame, bad: Frame, i: nat, mask: bv8)
    requires buf[0] == FuncReadRegisters && buf[1] == MeasurementRegCount
    requires FromBeBytes(buf[6], buf[7]) == Checksum(buf[2..6])
    requires 2 <= i < 6 && mask != 0 && bad == buf[i := buf[i] ^ mask]
    ensures DecodeFrame<W, R>(bad) == Err(IncorrectCrc)
  {
    assert bad[2..6] == buf[2..6][i - 2 := buf[i] ^ mask];
    assert bad[6..] == buf[6..];
    SingleByteErrorDetected(buf[2..6], i - 2, mask);
  }

  /** A changed checksum byte no longer matches the data. */
  lemma ChecksumCorrupted<W, R>(buf: Frame, bad: Frame, i: nat, mask: bv8)
    requires buf[0] == FuncReadRegisters && buf[1] == MeasurementRegCount
    requires FromBeBytes(buf[6], buf[7]) == Checksum(buf[2..6])
    requires 6 <= i < 8 && mask != 0 && bad == buf[i := buf[i] ^ mask]
    ensures DecodeFrame<W, R>(bad) == Err(IncorrectCrc)
  {
    assert bad[2..6] == buf[2..6];
    ChecksumBytesChanged(buf, bad, i, mask);
  }

  /** Flipping bits of one checksum byte changes the checksum word. */
  lemma ChecksumBytesChanged(buf: Frame, bad: Frame, i: nat, mask: bv8)
    requires 6 <= i < 8 && mask != 0 && bad == buf[i := buf[i] ^ mask]
    ensures FromBeBytes(bad[6], bad[7]) != FromBeBytes(buf[6], buf[7])
  {
    OneChecksumByteChanged(buf, bad, i, mask);
    ChangedByteChangesWord(buf[6], buf[7], mask);
  }

  /** Which checksum byte a change at offset 6 or 7 hits. */
  lemma OneChecksumByteChanged(buf: Frame, bad: Frame, i: nat, mask: bv8)
    requires 6 <= i < 8 && bad == buf[i := buf[i] ^ mask]
    ensures (bad[6] == buf[6] ^ mask && bad[7] == buf[7]) || (bad[6] == buf[6] && bad[7] == buf[7] ^ mask)
  {
  }

  /** Changing either byte of a big-endian word changes the word. */
  lemma ChangedByteChangesWord(hi: bv8, lo: bv8, mask: bv8)
    requires mask != 0
    ensures FromBeBytes(hi ^ mask, lo) != FromBeBytes(hi, lo)
    ensures FromBeBytes(hi, lo ^ mask) != FromBeBytes(hi, lo)
  {
  }

  /** What `measure` returns, given the outcomes of its two bus operations:
      the wake-up write and the command write followed by the read. */
  function MeasureResult<W, R>(wake: Result<(), W>, transfer: Result<Frame, R>): Result<Measurement, Error<W, R>> {
    match wake
    case Err(e) => Err(I2cError(Write(e)))
    case Ok(_) =>
      match transfer
      case Err(e) => Err(I2cError(WriteRead(e)))
      case Ok(frame) => DecodeFrame(frame)
  }

  /** A bus failure comes back tagged by the operation that failed; a
      measurement comes back only when both operations succeeded and the
      frame is one the sensor sends for a reading. */
  lemma MeasureOutcomes<W, R>(wake: Result<(), W>, transfer: Result<Frame, R>)
    ensures var r := MeasureResult(wake, transfer);
            && (wake.Err? ==> r == Err(I2cError(Write(wake.error))))
            && (wake.Ok? && transfer.Err? ==> r == Err(I2cError(WriteRead(transfer.error))))
            && (r.Ok? <==> wake.Ok? && transfer.Ok? && transfer.value == EncodeFrame(transfer.value[2..6]))
  {
    if wake.Ok? && transfer.Ok? {
      DecodeAcceptsEncoded<W, R>(transfer.value);
    }
  }

  /** The reading of 40.0 degrees and 40.0 percent, end to end. */
  lemma MeasureExample<W, R>()
    ensures MeasureResult<W, R>(Ok(()), Ok([0x03, 0x04, 0x01, 0x90, 0x01, 0x90, 0x09, 0x00]))
            == Ok(Measurement(400, 400))
  {
    var frame: Frame := [0x03, 0x04, 0x01, 0x90, 0x01, 0x90, 0x09, 0x00];
    assert frame[2..6] == [0x01, 0x90, 0x01, 0x90];
    ChecksumOfReading();
    assert FromBeBytes(0x09, 0x00) == 0x0900;
    assert FromBeBytes(0x01, 0x90) == 0x0190;
    SignMagnitudeExamples();
  }

  /** One transaction on the bus, as the driver issues it. */
  datatype Transaction =
    | WriteTx(address: bv8, bytes: seq<bv8>)
    | WriteReadTx(address: bv8, bytes: seq<bv8>, readLength: nat)

  /** The I2C bus as `measure` sees it. The outcomes of its two operations
      are fixed when it is made: they stand for the hardware. The log records
      every transaction issued on it. */
  class Bus<W, R> {
    const writeOutcome: Result<(), W>
    const writeReadOutcome: Result<Frame, R>
    var log: seq<Transaction>

    constructor (writeOutcome: Result<(), W>, writeReadOutcome: Result<Frame, R>)
      ensures this.writeOutcome == writeOutcome
      ensures this.writeReadOutcome == writeReadOutcome
      ensures log == []
    {
      this.writeOutcome := writeOutcome;
      this.writeReadOutcome := writeReadOutcome;
      log := [];
    }

    /** `i2c.write(address, bytes)`. */
    method Write(address: bv8, bytes: seq<bv8>) returns (r: Result<(), W>)
      modifies this
      ensures log == old(log) + [WriteTx(address, bytes)]
      ensures r == writeOutcome
    {
      log := log + [WriteTx(address, bytes)];
      r := writeOutcome;
    }

    /** `i2c.write_read(address, bytes, buf)`: on success the response fills
      `buf`; on failure `buf` is left as it was. */
    method WriteRead(address: bv8, bytes: seq<bv8>, buf: array<bv8>) returns (r: Result<(), R>)
      requires buf.Length == 8
      modifies this, buf
      ensures log == old(log) + [WriteReadTx(address, bytes, buf.Length)]
      ensures writeReadOutcome.Ok? ==> r == Ok(()) && buf[..] == writeReadOutcome.value
      ensures writeReadOutcome.Err? ==> r == Err(writeReadOutcome.error) && buf[..] == old(buf[..])
    {
      log := log + [WriteReadTx(address, bytes, buf.Length)];
      match writeReadOutcome
      case Ok(frame) =>
        forall i | 0 <= i < buf.Length {
          buf[i] := frame[i];
        }
        r := Ok(());
      case Err(e) =>
        r := Err(e);
    }
  }

  /** The driver's `measure`. The wake-up write comes first; when it fails,
      no command is sent. */
  method Measure<W, R>(bus: Bus<W, R>) returns (r: Result<Measurement, Error<W, R>>)
    modifies bus
    ensures r == MeasureResult(bus.writeOutcome, bus.writeReadOutcome)
    ensures bus.log == old(bus.log) + [WriteTx(DeviceAddress, WakeBytes)]
                       + (if bus.writeOutcome.Ok? then [WriteReadTx(DeviceAddress, Command, 8)] else [])
  {
    var wake := bus.Write(DeviceAddress, WakeBytes);
    if wake.Err? {
      return Err(I2cError(Write(wake.error)));
    }
    var buf := new bv8[8](_ => 0);
    var transfer := bus.WriteRead(DeviceAddress, Command, buf);
    if transfer.Err? {
      return Err(I2cError(WriteRead(transfer.error)));
    }
    r := DecodeFrame(buf[..]);
  }
}
