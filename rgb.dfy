/** The RGB view: the stored channels as they are, or divided by 255, and
    the two factories that build a colour's channels back from them. */
module RgbView {
  import opened Channels

  /** The colour's red, green and blue, unchanged. */
  function ToRgb(c: Rgba): (t: (real, real, real))
  {
    (c.r, c.g, c.b)
  }

  /** The colour's four channels, unchanged. */
  function ToRgba(c: Rgba): (t: (real, real, real, real))
  {
    (c.r, c.g, c.b, c.a)
  }

  /** Red, green and blue scaled to 0 - 1; alpha is left out. */
  function ToRgbd(c: Rgba): (t: (real, real, real))
    ensures 255.0 * t.0 == c.r && 255.0 * t.1 == c.g && 255.0 * t.2 == c.b
  {
    (c.r / 255.0, c.g / 255.0, c.b / 255.0)
  }

  /** All four channels scaled to 0 - 1. */
  function ToRgbad(c: Rgba): (t: (real, real, real, real))
    ensures 255.0 * t.0 == c.r && 255.0 * t.1 == c.g && 255.0 * t.2 == c.b
    ensures 255.0 * t.3 == c.a
  {
    (c.r / 255.0, c.g / 255.0, c.b / 255.0, c.a / 255.0)
  }

  /** The channels of a colour built from 8-bit values: stored as given,
      without clamping; alpha defaults to 255. */
  function FromRgb(r: real, g: real, b: real, a: real := 255.0): (c: Rgba)
    ensures ToRgba(c) == (r, g, b, a)
  {
    Rgba(r, g, b, a)
  }

  /** The channels of a colour built from 0 - 1 values: each is multiplied
      by 255, without clamping; alpha defaults to 1, that is 255. */
  function FromRgbd(r: real, g: real, b: real, a: real := 1.0): (c: Rgba)
    ensures ToRgbad(c) == (r, g, b, a)
  {
    Rgba(r * 255.0, g * 255.0, b * 255.0, a * 255.0)
  }

  /** Reading a colour back through either view gives what built it, and
      rebuilding from either view gives the colour back. */
  lemma RgbRoundTrips(c: Rgba, r: real, g: real, b: real, a: real)
    ensures ToRgba(FromRgb(r, g, b, a)) == (r, g, b, a)
    ensures ToRgbad(FromRgbd(r, g, b, a)) == (r, g, b, a)
    ensures FromRgb(ToRgba(c).0, ToRgba(c).1, ToRgba(c).2, ToRgba(c).3) == c
    ensures FromRgbd(ToRgbad(c).0, ToRgbad(c).1, ToRgbad(c).2, ToRgbad(c).3) == c
    ensures FromRgb(ToRgb(c).0, ToRgb(c).1, ToRgb(c).2) == c.(a := 255.0)
    ensures FromRgbd(ToRgbd(c).0, ToRgbd(c).1, ToRgbd(c).2) == c.(a := 255.0)
  {
  }

  /** Neither factory clamps: every channel, below 0, above 255 (above 1
      for the decimal factory) or in between, reaches the colour as given,
      times 255 for the decimal factory. */
  lemma FactoriesDoNotClamp(r: real, g: real, b: real, a: real)
    ensures FromRgb(r, g, b, a) == Rgba(r, g, b, a)
    ensures FromRgbd(r, g, b, a) == Rgba(255.0 * r, 255.0 * g, 255.0 * b, 255.0 * a)
  {
  }
}
