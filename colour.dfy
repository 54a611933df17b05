/** Colour arithmetic on RGB8 pixels. */
module Colour {
  import opened Primitives
  import Utils

  /** `x as u16` of a product that is wider than 16 bits: the low sixteen bits. */
  function AsU16(v: int): int {
    v % 0x1_0000
  }

  /**
    One channel of `set_brightness`: the 16-bit product divided by 255 and cast
    back to a byte. The product never exceeds 255 * 255 = 65025, so neither the
    16-bit product nor the byte cast loses anything, and the channel is
    floor(c * brightness / 255).
   */
  function ScaleChannel(c: U8, brightness: U8): (r: U8)
    ensures r == c * brightness / 255
    ensures r <= c
  {
    ProductFits(c, brightness);
    AsU8(AsU16(c * brightness) / 255)
  }

  lemma ProductFits(c: U8, brightness: U8)
    ensures 0 <= c * brightness <= 255 * 255
    ensures c * brightness / 255 <= c
  {
  }

  /**
    Scale a pixel by a brightness in 0..=255. Both early returns (black at 0,
    the pixel unchanged at 255) agree with the general per-channel formula,
    so every channel is floor(channel * brightness / 255).
   */
  function SetBrightness(brightness: U8, pixel: RGB8): (r: RGB8)
    ensures r == RGB8(ScaleChannel(pixel.r, brightness),
                      ScaleChannel(pixel.g, brightness),
                      ScaleChannel(pixel.b, brightness))
    ensures r.r <= pixel.r && r.g <= pixel.g && r.b <= pixel.b
  {
    if brightness == 0 then
      BLACK
    else if brightness == 255 then
      pixel
    else
      RGB8(AsU8(AsU16(pixel.r * brightness) / 255),
           AsU8(AsU16(pixel.g * brightness) / 255),
           AsU8(AsU16(pixel.b * brightness) / 255))
  }

  lemma SetBrightnessZeroIsBlack(pixel: RGB8)
    ensures SetBrightness(0, pixel) == BLACK
  {
  }

  lemma SetBrightnessFullIsIdentity(pixel: RGB8)
    ensures SetBrightness(255, pixel) == pixel
  {
  }

  /** The pixels whose every channel is at most the matching channel of `bound`. */
  predicate Dimmer(p: RGB8, bound: RGB8) {
    p.r <= bound.r && p.g <= bound.g && p.b <= bound.b
  }

  lemma ScaleChannelMonotone(c: U8, b1: U8, b2: U8)
    requires b1 <= b2
    ensures ScaleChannel(c, b1) <= ScaleChannel(c, b2)
  {
    assert c * b1 <= c * b2;
    DivMonotone(c * b1, c * b2);
  }

  lemma DivMonotone(a: nat, b: nat)
    requires a <= b
    ensures a / 255 <= b / 255
  {
  }

  /** Raising the brightness never dims any channel. */
  lemma SetBrightnessMonotone(pixel: RGB8, b1: U8, b2: U8)
    requires b1 <= b2
    ensures Dimmer(SetBrightness(b1, pixel), SetBrightness(b2, pixel))
  {
    ScaleChannelMonotone(pixel.r, b1, b2);
    ScaleChannelMonotone(pixel.g, b1, b2);
    ScaleChannelMonotone(pixel.b, b1, b2);
  }

  /** The private copy of `clip` in colour.rs; it agrees with `utils::clip` everywhere. */
  function Clip(v: I16): (r: U8)
    ensures r == Utils.Clip(v)
  {
    Utils.ClipCases(v);
    if v < 0 then
      0
    else if v > 255 then
      255
    else
      v
  }

  /** The unscaled brightness of `adjust_brightness_for_rssi`, computed without overflow. */
  function RssiBrightness(rssi: I8, brightness: U8): int {
    brightness * (rssi + 100) * 3
  }

  /**
    `adjust_brightness_for_rssi` with its arithmetic done in a type wide enough
    for every input: scale the brightness by how far the rssi lies above
    -100 dBm, divide by 255 rounding toward zero, clip to a byte, and scale the
    colour by the result. At or below -100 dBm, or at brightness 0, the result
    is black.
   */
  function AdjustBrightnessForRssi(colour: RGB8, rssi: I8, brightness: U8): (r: RGB8)
    ensures rssi <= -100 || brightness == 0 ==> r == BLACK
    ensures Dimmer(r, colour)
  {
    RssiBounds(rssi, brightness);
    var scaled := TruncDiv(RssiBrightness(rssi, brightness), 255);
    SetBrightness(Clip(scaled), colour)
  }

  lemma RssiBounds(rssi: I8, brightness: U8)
    ensures -255 * 28 * 3 <= RssiBrightness(rssi, brightness) <= 255 * 227 * 3
    ensures rssi <= -100 || brightness == 0 ==> RssiBrightness(rssi, brightness) <= 0
  {
  }

  /**
    `adjust_brightness_for_rssi` as written: the product is computed in i16,
    which wraps around (the behaviour without overflow checks) once
    brightness * (rssi + 100) * 3 exceeds 32767.
   */
  function AdjustBrightnessForRssiAsWritten(colour: RGB8, rssi: I8, brightness: U8): (r: RGB8)
    ensures -0x8000 <= RssiBrightness(rssi, brightness) < 0x8000 ==>
              r == AdjustBrightnessForRssi(colour, rssi, brightness)
  {
    var product := WrapI16(WrapI16(brightness * (rssi + 100)) * 3);
    WrapI16Product(brightness * (rssi + 100));
    var scaled := TruncDiv(product, 255);
    SetBrightness(Clip(scaled), colour)
  }

  lemma WrapI16Product(v: int)
    ensures WrapI16(WrapI16(v) * 3) == WrapI16(v * 3)
  {
  }

  lemma ShiftedWrap(v: int, k: int)
    ensures WrapI16(v + k * 0x1_0000) == WrapI16(v)
  {
  }

  /**
    A peer at -40 dBm shown at full brightness: the i16 product 45900 wraps to
    -19636, so the as-written function yields black where the wide computation
    yields brightness 180.
   */
  lemma RssiOverflowCounterexample()
    ensures AdjustBrightnessForRssiAsWritten(WHITE, -40, 255) == BLACK
    ensures AdjustBrightnessForRssi(WHITE, -40, 255) == RGB8(180, 180, 180)
  {
  }
}
