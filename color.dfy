/** Colour packing of the renderer (packColor in src/renderer.cpp): three 8-bit
    channels scaled by a brightness, rounded, clamped to [0, 255] and packed as
    0xAARRGGBB with the alpha byte fixed at 0xFF. The brightness is a real; it is
    not clamped, only the scaled channels are. */
module Colors {

  /** One ARGB32 pixel, as stored in the colour buffer. */
  type Color = bv32

  /** An 8-bit channel (unsigned char). */
  type Channel = bv8

  /** The colour written by clear(0, 0, 0): black, fully opaque. */
  const OpaqueBlack: Color := 0xFF00_0000

  /** std::round: the nearest integer, halfway cases away from zero. */
  function Round(v: real): (r: int)
    ensures (r as real) - 0.5 <= v <= (r as real) + 0.5
    ensures v == (r as real) + 0.5 ==> v < 0.0
    ensures v == (r as real) - 0.5 ==> 0.0 < v
  {
    if v >= 0.0 then (v + 0.5).Floor else -((-v + 0.5).Floor)
  }

  /** std::min(255, std::max(0, v)): the point of [0, 255] closest to v. */
  function Clamp(v: int): (r: int)
    ensures 0 <= r <= 255
    ensures 0 <= v <= 255 ==> r == v
    ensures v < 0 ==> r == 0
    ensures 255 < v ==> r == 255
  {
    if v < 0 then 0 else if v > 255 then 255 else v
  }

  /** The channel value times the brightness, rounded and clamped, as an int. */
  function Level(c: Channel, brightness: real): (r: int)
    ensures 0 <= r <= 255
  {
    Clamp(Round((c as int) as real * brightness))
  }

  /** One channel scaled by the brightness, rounded and clamped. */
  function Scaled(c: Channel, brightness: real): Channel {
    Level(c, brightness) as Channel
  }

  /** Builds 0xAARRGGBB from its four bytes. */
  function Argb(a: Channel, r: Channel, g: Channel, b: Channel): Color {
    ((a as Color) << 24) | ((r as Color) << 16) | ((g as Color) << 8) | (b as Color)
  }

  function Alpha(c: Color): Channel {
    ((c >> 24) & 0xFF) as Channel
  }

  function Red(c: Color): Channel {
    ((c >> 16) & 0xFF) as Channel
  }

  function Green(c: Color): Channel {
    ((c >> 8) & 0xFF) as Channel
  }

  function Blue(c: Color): Channel {
    (c & 0xFF) as Channel
  }

  /** packColor: the alpha byte is 0xFF and each colour byte decodes to the
      scaled, rounded and clamped channel. */
  function PackColor(r: Channel, g: Channel, b: Channel, brightness: real): (c: Color)
    ensures Alpha(c) == 0xFF
    ensures Red(c) == Scaled(r, brightness)
    ensures Green(c) == Scaled(g, brightness)
    ensures Blue(c) == Scaled(b, brightness)
  {
    Argb(0xFF, Scaled(r, brightness), Scaled(g, brightness), Scaled(b, brightness))
  }

  /** Decoding then re-packing the four bytes gives back the colour. */
  lemma ArgbOfBytes(c: Color)
    ensures Argb(Alpha(c), Red(c), Green(c), Blue(c)) == c
  {
  }

  /** Packing then decoding gives back the four bytes. */
  lemma BytesOfArgb(a: Channel, r: Channel, g: Channel, b: Channel)
    ensures Alpha(Argb(a, r, g, b)) == a && Red(Argb(a, r, g, b)) == r
    ensures Green(Argb(a, r, g, b)) == g && Blue(Argb(a, r, g, b)) == b
  {
  }

  /** Rounding an integer gives that integer. */
  lemma RoundInteger(n: int)
    ensures Round(n as real) == n
  {
  }

  /** At brightness 1 every channel is kept exactly. */
  lemma ScaledFullBrightness(c: Channel)
    ensures Scaled(c, 1.0) == c
  {
    assert (c as int) as real * 1.0 == (c as int) as real;
    RoundInteger(c as int);
  }

  /** At brightness 1, packColor(r, g, b) is 0xFF << 24 | r << 16 | g << 8 | b,
      so the colour bytes decode back to exactly r, g and b. */
  lemma PackColorFullBrightness(r: Channel, g: Channel, b: Channel)
    ensures PackColor(r, g, b, 1.0) == 0xFF00_0000 | ((r as Color) << 16) | ((g as Color) << 8) | (b as Color)
    ensures Red(PackColor(r, g, b, 1.0)) == r
    ensures Green(PackColor(r, g, b, 1.0)) == g
    ensures Blue(PackColor(r, g, b, 1.0)) == b
  {
    ScaledFullBrightness(r);
    ScaledFullBrightness(g);
    ScaledFullBrightness(b);
  }

  /** clear(0, 0, 0), as in the constructor, writes opaque black. */
  lemma PackBlack()
    ensures PackColor(0, 0, 0, 1.0) == OpaqueBlack
  {
    PackColorFullBrightness(0, 0, 0);
  }

  /** A brightness in [0, 1] never makes a channel brighter. */
  lemma DimmingNeverBrightens(c: Channel, brightness: real)
    requires 0.0 <= brightness <= 1.0
    ensures Scaled(c, brightness) as int <= c as int
  {
    LevelAtMost(c, brightness);
    NarrowMonotone(Level(c, brightness), c);
  }

  lemma NarrowMonotone(k: int, c: Channel)
    requires 0 <= k <= c as int
    ensures (k as Channel) as int <= c as int
  {
  }

  lemma LevelAtMost(c: Channel, brightness: real)
    requires 0.0 <= brightness <= 1.0
    ensures Level(c, brightness) <= c as int
  {
    ScaleDown((c as int) as real, brightness);
  }

  lemma ScaleDown(v: real, s: real)
    requires 0.0 <= v && 0.0 <= s <= 1.0
    ensures v * s <= v
  {
    assert v * s <= v * 1.0;
  }

  /** Any brightness that takes a channel to 255 or beyond saturates it. */
  lemma SaturatedChannel(c: Channel, brightness: real)
    requires 255.0 <= (c as int) as real * brightness
    ensures Scaled(c, brightness) == 255
  {
  }
}
