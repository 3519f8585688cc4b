/** The value a successful read produces: a temperature (degrees Celsius) and a
    relative humidity (percent), each a base-10 fixed-point integer with one
    digit behind the decimal point. The sensor sends the temperature in
    sign-magnitude form: the top bit of the 16-bit word is the sign, the other
    fifteen bits the magnitude. */
module Measurements {

  /** Rust's `i16`. */
  newtype i16 = x: int | -0x8000 <= x < 0x8000

  /** Rust's `w as i16` for a `u16` word: the same sixteen bits read as two's
      complement. */
  function AsI16(w: bv16): i16 {
    if w < 0x8000 then w as int as i16 else (w as int - 0x1_0000) as i16
  }

  /** A measurement; `temperature` and `humidity` are also its accessors
      `temperature()` and `humidity()`. */
  datatype Measurement = Measurement(temperature: i16, humidity: bv16)

  /** `Measurement::from_raw`: decoding the two raw register words. What the
      result means is stated by the `FromRaw...` lemmas below. */
  function FromRaw(rawTemperature: bv16, rawHumidity: bv16): Measurement {
    var temperature :=
      if rawTemperature & 0x8000 != 0 then
        NegatedMagnitudeFits(rawTemperature);
        AsI16(rawTemperature & 0x7FFF) * -1
      else
        AsI16(rawTemperature);
    Measurement(temperature, rawHumidity)
  }

  /** The negation in `FromRaw` stays inside `i16`: a fifteen-bit magnitude
      keeps its value under `as i16`, so minus it is at least -0x7FFF. */
  lemma NegatedMagnitudeFits(rawTemperature: bv16)
    ensures -0x8000 <= -(AsI16(rawTemperature & 0x7FFF) as int) < 0x8000
  {
    MagnitudeBelowSign(rawTemperature);
    AsI16Small(rawTemperature & 0x7FFF);
  }

  /** With the sign bit set, the temperature is minus the fifteen magnitude
      bits: `as i16` of a magnitude does not wrap and its negation does not
      overflow. */
  lemma FromRawNegative(rawTemperature: bv16, rawHumidity: bv16)
    requires rawTemperature & 0x8000 != 0
    ensures FromRaw(rawTemperature, rawHumidity).temperature as int == -((rawTemperature & 0x7FFF) as int)
  {
    MagnitudeBelowSign(rawTemperature);
    AsI16Small(rawTemperature & 0x7FFF);
  }

  /** With the sign bit clear, the temperature is the word itself. */
  lemma FromRawNonNegative(rawTemperature: bv16, rawHumidity: bv16)
    requires rawTemperature & 0x8000 == 0
    ensures FromRaw(rawTemperature, rawHumidity).temperature as int == rawTemperature as int
  {
    SignClear(rawTemperature);
    AsI16Small(rawTemperature);
  }

  /** Every temperature lies in [-3276.7, 3276.7] degrees: -32768 never
      occurs. */
  lemma FromRawRange(rawTemperature: bv16, rawHumidity: bv16)
    ensures -0x7FFF <= FromRaw(rawTemperature, rawHumidity).temperature as int <= 0x7FFF
  {
    if rawTemperature & 0x8000 == 0 {
      FromRawNonNegative(rawTemperature, rawHumidity);
      SignClear(rawTemperature);
      BelowSignValue(rawTemperature);
    } else {
      FromRawNegative(rawTemperature, rawHumidity);
      MagnitudeBelowSign(rawTemperature);
      BelowSignValue(rawTemperature & 0x7FFF);
    }
  }

  /** The temperature is negative exactly when the sign bit is set and the
      magnitude is not zero; 0x8000 is zero, not a negative number. */
  lemma FromRawSign(rawTemperature: bv16, rawHumidity: bv16)
    ensures FromRaw(rawTemperature, rawHumidity).temperature >= 0
            <==> rawTemperature & 0x8000 == 0 || rawTemperature & 0x7FFF == 0
  {
    ZeroWord(rawTemperature & 0x7FFF);
    if rawTemperature & 0x8000 == 0 {
      FromRawNonNegative(rawTemperature, rawHumidity);
    } else {
      FromRawNegative(rawTemperature, rawHumidity);
    }
  }

  /** The humidity is the raw word, not clamped to a percentage range. */
  lemma FromRawHumidity(rawTemperature: bv16, rawHumidity: bv16)
    ensures FromRaw(rawTemperature, rawHumidity).humidity == rawHumidity
  {
  }

  /** How the sensor encodes a temperature it sends: the sign bit and a
      fifteen-bit magnitude. It is not part of the driver; it is the form
      `FromRaw` decodes. */
  function EncodeTemperature(negative: bool, magnitude: bv16): (w: bv16)
    requires magnitude < 0x8000
    ensures w & 0x7FFF == magnitude
    ensures (w & 0x8000 != 0) == negative
  {
    if negative then
      SetSign(magnitude);
      magnitude | 0x8000
    else
      LowWordMagnitude(magnitude);
      SignOfSmall(magnitude);
      magnitude
  }

  /** Every temperature the sign-magnitude form can carry comes back: minus
      the magnitude when the sign is set, the magnitude otherwise. */
  lemma TemperatureRoundTrip(negative: bool, magnitude: bv16, rawHumidity: bv16)
    requires magnitude < 0x8000
    ensures FromRaw(EncodeTemperature(negative, magnitude), rawHumidity).temperature as int
            == if negative then -(magnitude as int) else magnitude as int
  {
    var w := EncodeTemperature(negative, magnitude);
    if negative {
      FromRawNegative(w, rawHumidity);
    } else {
      FromRawNonNegative(w, rawHumidity);
      LowWordMagnitude(magnitude);
    }
  }

  /** Two raw words decode to the same temperature only when they are equal
      or are the two encodings of zero, 0x0000 and 0x8000. */
  lemma TemperatureDecodeInjective(a: bv16, b: bv16, rawHumidity: bv16)
    requires FromRaw(a, rawHumidity).temperature == FromRaw(b, rawHumidity).temperature
    ensures a == b || (a & 0x7FFF == 0 && b & 0x7FFF == 0)
  {
    var sa, ma := SignedMagnitude(a, rawHumidity);
    var sb, mb := SignedMagnitude(b, rawHumidity);
    MagnitudesEqual(ma, sa, mb, sb);
    WordsFromSignMagnitude(a, sa, ma, b, sb, mb);
  }

  /** Two words with the same sign and magnitude are equal, or have zero
      magnitudes. */
  lemma WordsFromSignMagnitude(a: bv16, sa: bool, ma: bv16, b: bv16, sb: bool, mb: bv16)
    requires sa == (a & 0x8000 != 0) && ma == a & 0x7FFF
    requires sb == (b & 0x8000 != 0) && mb == b & 0x7FFF
    requires ma == mb && (ma != 0 ==> sa == sb)
    ensures a == b || (ma == 0 && mb == 0)
  {
  }

  /** The temperature as a sign and a magnitude, in either case. */
  lemma SignedMagnitude(w: bv16, rawHumidity: bv16) returns (negative: bool, magnitude: bv16)
    ensures negative == (w & 0x8000 != 0) && magnitude == w & 0x7FFF
    ensures FromRaw(w, rawHumidity).temperature as int
            == if negative then -(magnitude as int) else magnitude as int
  {
    negative, magnitude := w & 0x8000 != 0, w & 0x7FFF;
    if negative {
      FromRawNegative(w, rawHumidity);
    } else {
      FromRawNonNegative(w, rawHumidity);
      SignClearMagnitude(w);
    }
  }

  /** 0x0190 is +40.0 degrees; 0x8190 is -40.0 degrees, where two's
      complement would have read -3236.8 degrees. */
  lemma SignMagnitudeExamples()
    ensures FromRaw(0x0190, 0).temperature == 400
    ensures FromRaw(0x8190, 0).temperature == -400
    ensures AsI16(0x8190) == -32368
  {
    FromRawNonNegative(0x0190, 0);
    FromRawNegative(0x8190, 0);
  }

  /** The humidity word 0x0200 reads as 512, that is 51.2 percent. */
  lemma HumidityExample()
    ensures FromRaw(0, 0x0200).humidity as int == 512
  {
  }

  /** Words at or above 0x8000 wrap under `as i16`: the result is the word's
      value minus 0x10000. */
  lemma AsI16Large(w: bv16)
    requires 0x8000 <= w
    ensures AsI16(w) as int == w as int - 0x1_0000
  {
    WordRoundTrip(w);
  }

  // Facts relating the bits of a word to its value as a number. Each is kept
  // to a single conversion so that the solver handles it quickly, and the
  // lemmas above call them where they need that one step.

  /** A clear sign bit means the word is below 0x8000. */
  lemma SignClear(w: bv16)
    requires w & 0x8000 == 0
    ensures w < 0x8000
  {
  }

  /** The converse: a word below 0x8000 has a clear sign bit. */
  lemma SignOfSmall(w: bv16)
    requires w < 0x8000
    ensures w & 0x8000 == 0
  {
  }

  /** The fifteen magnitude bits of a word are below 0x8000. */
  lemma MagnitudeBelowSign(w: bv16)
    ensures w & 0x7FFF < 0x8000
  {
  }

  /** Masking a word below 0x8000 to its magnitude bits leaves it unchanged. */
  lemma LowWordMagnitude(w: bv16)
    requires w < 0x8000
    ensures w & 0x7FFF == w
  {
  }

  /** Without the sign bit, a word is its own magnitude. */
  lemma SignClearMagnitude(w: bv16)
    ensures w & 0x8000 == 0 ==> w & 0x7FFF == w
  {
  }

  /** Setting the sign bit of a fifteen-bit magnitude keeps the magnitude
      bits and sets the sign. */
  lemma SetSign(m: bv16)
    requires m < 0x8000
    ensures (m | 0x8000) & 0x7FFF == m
    ensures (m | 0x8000) & 0x8000 != 0
  {
  }

  /** A word below 0x8000, as a bit-vector comparison, is below 0x8000 as a
      number. */
  lemma BelowSignValue(w: bv16)
    requires w < 0x8000
    ensures w as int < 0x8000
  {
    WordRoundTrip(w);
  }

  /** A word below 0x8000 keeps its value under `as i16`. */
  lemma AsI16Small(w: bv16)
    requires w < 0x8000
    ensures AsI16(w) as int == w as int
  {
    BelowSignValue(w);
  }

  /** The zero word is the only word whose value is 0. */
  lemma ZeroWord(w: bv16)
    ensures w == 0 <==> w as int == 0
  {
  }

  /** Converting a word to a number and back gives the word. */
  lemma WordRoundTrip(w: bv16)
    ensures (w as int) as bv16 == w
  {
  }

  /** Equal numbers are equal words. */
  lemma WordInjective(a: bv16, b: bv16)
    requires a as int == b as int
    ensures a == b
  {
    WordRoundTrip(a);
    WordRoundTrip(b);
  }

  /** Equal sign-magnitude numbers have equal magnitude words, and equal
      signs unless the magnitude is zero. */
  lemma MagnitudesEqual(x: bv16, sx: bool, y: bv16, sy: bool)
    requires (if sx then -(x as int) else x as int) == (if sy then -(y as int) else y as int)
    ensures x == y
    ensures x != 0 ==> sx == sy
  {
    SignMagnitudeEqual(sx, x as int, sy, y as int);
    WordInjective(x, y);
    ZeroWord(x);
  }

  /** Equal sign-magnitude numbers have equal magnitudes, and equal signs
      unless they are zero. */
  lemma SignMagnitudeEqual(sa: bool, ma: int, sb: bool, mb: int)
    requires 0 <= ma && 0 <= mb
    requires (if sa then -ma else ma) == (if sb then -mb else mb)
    ensures ma == mb
    ensures ma != 0 ==> sa == sb
  {
  }
}
