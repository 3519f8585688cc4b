/** The checksum the AM2320 appends to every response frame: CRC-16 with the
    MODBUS parameters (reflected polynomial 0xA001, initial register 0xFFFF,
    processed one byte at a time, least significant bit first, no final XOR),
    the procedure of section 6.2.2 of the MODBUS over Serial Line
    Specification and Implementation Guide V1.02.

    `Checksum` is the specification (a left fold of a per-byte update over the
    data); `Crc16` is the driver's imperative loop, proved equal to it. */
module Crc {

  /** The register value before any byte is processed. */
  const Initial: bv16 := 0xFFFF

  /** The reflected generator polynomial x^16 + x^15 + x^2 + 1. */
  const Polynomial: bv16 := 0xA001

  /** One bit step: shift the register right by one and, when the bit shifted
      out was set, XOR in the polynomial. */
  function BitStep(crc: bv16): bv16 {
    if crc & 0x01 != 0 then (crc >> 1) ^ Polynomial else crc >> 1
  }

  /** `n` bit steps applied to `crc`. */
  function BitSteps(crc: bv16, n: nat): bv16 {
    if n == 0 then crc else BitStep(BitSteps(crc, n - 1))
  }

  /** Processing one byte: XOR it into the low eight bits, then eight bit steps. */
  function UpdateByte(crc: bv16, b: bv8): bv16 {
    BitSteps(crc ^ (b as bv16), 8)
  }

  /** The register after processing `data`, front to back, starting from `crc`. */
  function Fold(crc: bv16, data: seq<bv8>): bv16
    decreases |data|
  {
    if data == [] then crc else Fold(UpdateByte(crc, data[0]), data[1..])
  }

  /** The CRC-16/MODBUS checksum of `data`. */
  function Checksum(data: seq<bv8>): bv16 {
    Fold(Initial, data)
  }

  /** The driver's `crc16`: a register updated byte by byte, with an inner
      loop of eight bit steps per byte. */
  method Crc16(data: seq<bv8>) returns (crc: bv16)
    ensures crc == Checksum(data)
  {
    crc := 0xFFFF;
    for i := 0 to |data|
      invariant crc == Checksum(data[..i])
    {
      var value := data[i] as bv16;
      crc := crc ^ value;
      ghost var mixed := crc;
      for k := 0 to 8
        invariant crc == BitSteps(mixed, k)
      {
        if crc & 0x01 != 0 {
          crc := crc >> 1;
          crc := crc ^ 0xA001;
        } else {
          crc := crc >> 1;
        }
      }
      ChecksumAppend(data[..i], data[i]);
      assert data[..i + 1] == data[..i] + [data[i]];
    }
    assert data[..|data|] == data;
  }

  /** Nothing processed: the checksum is the initial register value. */
  lemma ChecksumEmpty()
    ensures Checksum([]) == 0xFFFF
  {
  }

  /** Processing `p` and then `q` is processing `p + q`. */
  lemma {:induction false} FoldConcat(crc: bv16, p: seq<bv8>, q: seq<bv8>)
    ensures Fold(crc, p + q) == Fold(Fold(crc, p), q)
    decreases |p|
  {
    if p == [] {
      assert p + q == q;
    } else {
      assert (p + q)[1..] == p[1..] + q;
      FoldConcat(UpdateByte(crc, p[0]), p[1..], q);
    }
  }

  /** The checksum is a left fold: one more byte is one more update. */
  lemma ChecksumAppend(data: seq<bv8>, b: bv8)
    ensures Checksum(data + [b]) == UpdateByte(Checksum(data), b)
  {
    FoldConcat(Initial, data, [b]);
    assert Fold(Checksum(data), [b]) == Fold(UpdateByte(Checksum(data), b), []);
  }

  /** Different registers never collapse in one bit step. */
  lemma BitStepInjective(x: bv16, y: bv16)
    ensures BitStep(x) == BitStep(y) ==> x == y
  {
  }

  lemma {:induction false} BitStepsInjective(x: bv16, y: bv16, n: nat)
    ensures BitSteps(x, n) == BitSteps(y, n) ==> x == y
  {
    if n > 0 {
      BitStepInjective(BitSteps(x, n - 1), BitSteps(y, n - 1));
      BitStepsInjective(x, y, n - 1);
    }
  }

  /** For a fixed byte, different registers give different updated registers. */
  lemma UpdateByteInjectiveInRegister(c1: bv16, c2: bv16, b: bv8)
    ensures UpdateByte(c1, b) == UpdateByte(c2, b) ==> c1 == c2
  {
    BitStepsInjective(c1 ^ (b as bv16), c2 ^ (b as bv16), 8);
  }

  /** For a fixed register, different bytes give different updated registers. */
  lemma UpdateByteInjectiveInByte(c: bv16, b1: bv8, b2: bv8)
    ensures UpdateByte(c, b1) == UpdateByte(c, b2) ==> b1 == b2
  {
    BitStepsInjective(c ^ (b1 as bv16), c ^ (b2 as bv16), 8);
  }

  /** Bytes processed after a difference cannot cancel it. */
  lemma {:induction false} FoldInjective(c1: bv16, c2: bv16, data: seq<bv8>)
    ensures Fold(c1, data) == Fold(c2, data) ==> c1 == c2
    decreases |data|
  {
    if data != [] {
      FoldInjective(UpdateByte(c1, data[0]), UpdateByte(c2, data[0]), data[1..]);
      UpdateByteInjectiveInRegister(c1, c2, data[0]);
    }
  }

  /** Every error confined to one byte changes the checksum, whatever the
      length of the data: in particular every single flipped bit. */
  lemma SingleByteErrorDetected(data: seq<bv8>, i: nat, mask: bv8)
    requires i < |data|
    requires mask != 0
    ensures Checksum(data[i := data[i] ^ mask]) != Checksum(data)
  {
    var corrupted := data[i := data[i] ^ mask];
    var prefix, suffix := data[..i], data[i + 1..];
    assert data == prefix + ([data[i]] + suffix);
    assert corrupted == prefix + ([data[i] ^ mask] + suffix);
    var before := Fold(Initial, prefix);
    FoldConcat(Initial, prefix, [data[i]] + suffix);
    FoldConcat(Initial, prefix, [data[i] ^ mask] + suffix);
    assert ([data[i]] + suffix)[1..] == suffix;
    assert ([data[i] ^ mask] + suffix)[1..] == suffix;
    FoldInjective(UpdateByte(before, data[i]), UpdateByte(before, data[i] ^ mask), suffix);
    UpdateByteInjectiveInByte(before, data[i], data[i] ^ mask);
  }

  /** A worked example: given the register after each byte, each one a
      single update from the one before, the last is the checksum. */
  lemma {:induction false} ChecksumVector(data: seq<bv8>, registers: seq<bv16>)
    requires |registers| == |data| > 0
    requires UpdateByte(Initial, data[0]) == registers[0]
    requires forall i :: 0 < i < |data| ==> UpdateByte(registers[i - 1], data[i]) == registers[i]
    ensures Checksum(data) == registers[|data| - 1]
    decreases |data|
  {
    var n := |data|;
    if n == 1 {
      assert data == [] + [data[0]];
      ChecksumAppend([], data[0]);
    } else {
      ChecksumVector(data[..n - 1], registers[..n - 1]);
      assert data == data[..n - 1] + [data[n - 1]];
      ChecksumAppend(data[..n - 1], data[n - 1]);
    }
  }

  /** Regression vector: four zero bytes. */
  lemma ChecksumOfZeros()
    ensures Checksum([0, 0, 0, 0]) == 0x2400
  {
    assert UpdateByte(0xFFFF, 0x00) == BitSteps(0xFFFF, 8) == 0x40BF;
    assert UpdateByte(0x40BF, 0x00) == BitSteps(0x40BF, 8) == 0xB001;
    assert UpdateByte(0xB001, 0x00) == BitSteps(0xB001, 8) == 0xC071;
    assert UpdateByte(0xC071, 0x00) == BitSteps(0xC071, 8) == 0x2400;
    ChecksumVector([0, 0, 0, 0], [0x40BF, 0xB001, 0xC071, 0x2400]);
  }

  /** The published CRC-16/MODBUS check value: the ASCII digits "123456789". */
  lemma ChecksumCheckValue()
    ensures Checksum([0x31, 0x32, 0x33, 0x34, 0x35, 0x36, 0x37, 0x38, 0x39]) == 0x4B37
  {
    assert UpdateByte(0xFFFF, 0x31) == BitSteps(0xFFCE, 8) == 0x947E;
    assert UpdateByte(0x947E, 0x32) == BitSteps(0x944C, 8) == 0xF595;
    assert UpdateByte(0xF595, 0x33) == BitSteps(0xF5A6, 8) == 0x7A75;
    assert UpdateByte(0x7A75, 0x34) == BitSteps(0x7A41, 8) == 0x30BA;
    assert UpdateByte(0x30BA, 0x35) == BitSteps(0x308F, 8) == 0xA471;
    assert UpdateByte(0xA471, 0x36) == BitSteps(0xA447, 8) == 0x32E4;
    assert UpdateByte(0x32E4, 0x37) == BitSteps(0x32D3, 8) == 0x9D73;
    assert UpdateByte(0x9D73, 0x38) == BitSteps(0x9D4B, 8) == 0x37DD;
    assert UpdateByte(0x37DD, 0x39) == BitSteps(0x37E4, 8) == 0x4B37;
    ChecksumVector([0x31, 0x32, 0x33, 0x34, 0x35, 0x36, 0x37, 0x38, 0x39],
                   [0x947E, 0xF595, 0x7A75, 0x30BA, 0xA471, 0x32E4, 0x9D73, 0x37DD, 0x4B37]);
  }

  /** The checksum of the data bytes of a reading of 40.0 degrees and 40.0
      percent relative humidity. */
  lemma ChecksumOfReading()
    ensures Checksum([0x01, 0x90, 0x01, 0x90]) == 0x0900
  {
    assert UpdateByte(0xFFFF, 0x01) == BitSteps(0xFFFE, 8) == 0x807E;
    assert UpdateByte(0x807E, 0x90) == BitSteps(0x80EE, 8) == 0x4C00;
    assert UpdateByte(0x4C00, 0x01) == BitSteps(0x4C01, 8) == 0xC08D;
    assert UpdateByte(0xC08D, 0x90) == BitSteps(0xC01D, 8) == 0x0900;
    ChecksumVector([0x01, 0x90, 0x01, 0x90], [0x807E, 0x4C00, 0xC08D, 0x0900]);
  }
}
