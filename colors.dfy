/**
 * The `Color` newtype of src/vec3/color.rs: a `Vec3` read as linear red,
 * green and blue intensities, and its conversion to three gamma-corrected
 * 8-bit channels.
 */
module Colors {
  import V = Vectors
  import opened Intervals
  import opened SquareRoot

  /** Rust's `u8`. */
  newtype byte = b: int | 0 <= b < 256

  datatype Color = Color(rgb: V.Vec3) {

    function R(): real { rgb.x }
    function G(): real { rgb.y }
    function B(): real { rgb.z }

    /**
     * `output_color`: each channel gamma-corrected, clamped into
     * `INTENSITY` and scaled by 256 to a byte.
     */
    function OutputColor(sqrt: real -> real): (bytes: seq<byte>)
      requires IsSqrt(sqrt)
      ensures |bytes| == 3
      ensures bytes[0] == ChannelByte(R(), sqrt)
      ensures bytes[1] == ChannelByte(G(), sqrt)
      ensures bytes[2] == ChannelByte(B(), sqrt)
    {
      [ChannelByte(R(), sqrt), ChannelByte(G(), sqrt), ChannelByte(B(), sqrt)]
    }
  }

  /** `Color::new`: the getters give back the three components. */
  function New(x: real, y: real, z: real): (c: Color)
    ensures c.R() == x && c.G() == y && c.B() == z
  {
    Color(V.Vec3(x, y, z))
  }

  function NewZeroes(): (c: Color)
    ensures c.R() == 0.0 && c.G() == 0.0 && c.B() == 0.0
  {
    Color(V.Vec3(0.0, 0.0, 0.0))
  }

  /** `Mul<Color> for f64`. */
  function Scale(t: real, c: Color): Color {
    Color(V.Scale(t, c.rgb))
  }

  /** `Add for Color`. */
  function Add(c: Color, d: Color): Color {
    Color(V.Add(c.rgb, d.rgb))
  }

  /** `Color::INTENSITY`: the range every channel is clamped into before scaling. */
  const Intensity: Interval := Interval(Finite(0.0), Finite(0.999))

  /** Gamma 2: the square root of a positive intensity, and 0 for the rest. */
  function LinearToGamma(linear: real, sqrt: real -> real): (g: real)
    requires IsSqrt(sqrt)
    ensures g >= 0.0
    ensures linear <= 0.0 ==> g == 0.0
    ensures linear > 0.0 ==> g * g == linear
  {
    if linear > 0.0 then sqrt(linear) else 0.0
  }

  /**
   * `x as u8` for a double: truncation toward zero, saturating at both ends
   * of the byte range (NaN, which maps to 0, is not modelled).
   */
  function AsU8(x: real): (b: byte)
    ensures 0.0 <= x < 256.0 ==> b as int == x.Floor
    ensures x < 0.0 ==> b == 0
    ensures x >= 256.0 ==> b == 255
  {
    if x < 0.0 then 0
    else if x >= 255.0 then 255
    else x.Floor as byte
  }

  /** One channel of `output_color`. */
  function ChannelByte(linear: real, sqrt: real -> real): byte
    requires IsSqrt(sqrt)
  {
    AsU8(Intensity.Clamp(LinearToGamma(linear, sqrt)).value * 256.0)
  }

  /** The intensity a channel is quantised from: its gamma value clamped into [0, 0.999]. */
  function ClampedGamma(linear: real, sqrt: real -> real): (v: real)
    requires IsSqrt(sqrt)
    ensures 0.0 <= v <= 0.999
  {
    Intensity.Clamp(LinearToGamma(linear, sqrt)).value
  }

  /**
   * Each byte is the floor of 256 times the clamped gamma value; the clamp
   * keeps that product below 256, so the cast never saturates or wraps.
   */
  lemma ChannelByteIsFloor(linear: real, sqrt: real -> real)
    requires IsSqrt(sqrt)
    ensures ChannelByte(linear, sqrt) as int == (ClampedGamma(linear, sqrt) * 256.0).Floor
    ensures ChannelByte(linear, sqrt) <= 255
  {
    var v := ClampedGamma(linear, sqrt);
    assert 0.0 <= v * 256.0 <= 255.744;
  }

  lemma GammaMonotone(x: real, y: real, sqrt: real -> real)
    requires IsSqrt(sqrt) && x <= y
    ensures LinearToGamma(x, sqrt) <= LinearToGamma(y, sqrt)
  {
    if x > 0.0 {
      SqrtMonotone(sqrt, x, y);
    }
  }

  /** A brighter linear channel never gives a smaller byte. */
  lemma ChannelByteMonotone(x: real, y: real, sqrt: real -> real)
    requires IsSqrt(sqrt) && x <= y
    ensures ChannelByte(x, sqrt) <= ChannelByte(y, sqrt)
  {
    GammaMonotone(x, y, sqrt);
    ClampMonotone(Intensity, LinearToGamma(x, sqrt), LinearToGamma(y, sqrt));
    var u, w := ClampedGamma(x, sqrt), ClampedGamma(y, sqrt);
    assert u <= w;
    assert u * 256.0 <= w * 256.0;
    ChannelByteIsFloor(x, sqrt);
    ChannelByteIsFloor(y, sqrt);
  }

  /** Black stays black. */
  lemma OutputOfBlack(sqrt: real -> real)
    requires IsSqrt(sqrt)
    ensures NewZeroes().OutputColor(sqrt) == [0, 0, 0]
  {
    assert ChannelByte(0.0, sqrt) == 0;
  }

  /** Any channel at full intensity or above comes out as 255. */
  lemma FullIntensityIs255(linear: real, sqrt: real -> real)
    requires IsSqrt(sqrt) && linear >= 1.0
    ensures ChannelByte(linear, sqrt) == 255
  {
    SqrtMonotone(sqrt, 1.0, linear);
    SqrtUnique(sqrt, 1.0, 1.0);
    assert LinearToGamma(linear, sqrt) >= 1.0;
  }

  /**
   * (0.1, 0.2, 0.3) comes out as [80, 114, 140]: the gamma step raises each
   * channel to its square root before scaling, so the expected [25, 51, 76]
   * of the source's unit test (linear scaling only) is not what the code computes.
   */
  lemma OutputOfTenthsIsGammaCorrected(sqrt: real -> real)
    requires IsSqrt(sqrt)
    ensures New(0.1, 0.2, 0.3).OutputColor(sqrt) == [80, 114, 140]
  {
    SqrtBetween(sqrt, 0.1, 0.3162, 0.3163);
    SqrtBetween(sqrt, 0.2, 0.4472, 0.4473);
    SqrtBetween(sqrt, 0.3, 0.5477, 0.5478);
    assert ChannelByte(0.1, sqrt) == 80;
    assert ChannelByte(0.2, sqrt) == 114;
    assert ChannelByte(0.3, sqrt) == 140;
  }

  /** Adding a colour to k copies of itself gives k + 1 copies. */
  lemma AddScaled(k: real, c: Color)
    ensures Add(Scale(k, c), c) == Scale(k + 1.0, c)
  {
  }

  lemma ScaleScale(s: real, t: real, c: Color)
    ensures Scale(s, Scale(t, c)) == Scale(s * t, c)
  {
  }

  lemma AddZeroes(c: Color)
    ensures Add(NewZeroes(), c) == c
  {
  }
}
