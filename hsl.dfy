/** The HSL converter: hue, saturation and lightness from the 0 - 1
    channels, and back by six 60-degree hue sectors. */
module HslConverter {
  import opened Channels
  import opened Hue

  /** Hue in degrees, saturation and lightness of a colour. The saturation
      divides by 1 - |2l - 1|, which only channels outside 0 - 255 can make
      0; Python then raises, and the model fails with DivisionByZero. */
  function ToHsl(c: Rgba): (res: Result<(real, real, real)>)
    ensures res.Ok? ==> 0.0 <= res.value.0 < 360.0
  {
    var r, g, b := c.r / 255.0, c.g / 255.0, c.b / 255.0;
    HslOf(HueOf(r, g, b), Max3(r, g, b), Min3(r, g, b))
  }

  /** Saturation and lightness from the largest and smallest 0 - 1 channel,
      next to the hue h. */
  function HslOf(h: real, M: real, m: real): (res: Result<(real, real, real)>)
    ensures res.Ok? ==> res.value.0 == h && res.value.2 == (M + m) / 2.0
    ensures res.Ok? ==> GivesChroma(res.value.1, res.value.2, M - m)
    ensures res.Fail? <==> M != m && 1.0 - Abs(M + m - 1.0) == 0.0
  {
    var d := M - m;
    var l := (M + m) / 2.0;
    if d == 0.0 then Ok((h, 0.0, l))
    else if 1.0 - Abs(2.0 * l - 1.0) == 0.0 then Fail(DivisionByZero)
    else
      DivTimes(d, 1.0 - Abs(2.0 * l - 1.0));
      Ok((h, d / (1.0 - Abs(2.0 * l - 1.0)), l))
  }

  /** The channels of the colour with hue h, saturation s and lightness l;
      the sector is picked from h without wrapping it, and alpha is 255. */
  function FromHsl(h: real, s: real, l: real): (c: Rgba)
    ensures c.a == 255.0
  {
    var d := s * (1.0 - Abs(2.0 * l - 1.0));
    var m := 255.0 * (l - d / 2.0);
    var x := Secondary(h, d);
    if 0.0 <= h < 60.0 then Rgba(255.0 * d + m, 255.0 * x + m, m, 255.0)
    else if 60.0 <= h < 120.0 then Rgba(255.0 * x + m, 255.0 * d + m, m, 255.0)
    else if 120.0 <= h < 180.0 then Rgba(m, 255.0 * d + m, 255.0 * x + m, 255.0)
    else if 180.0 <= h < 240.0 then Rgba(m, 255.0 * x + m, 255.0 * d + m, 255.0)
    else if 240.0 <= h < 300.0 then Rgba(255.0 * x + m, m, 255.0 * d + m, 255.0)
    else Rgba(255.0 * d + m, m, 255.0 * x + m, 255.0)
  }

  /** Lightness is the mean of the largest and smallest 0 - 1 channel; a grey
      has hue 0 and saturation 0. */
  lemma HslLightnessAndGrey(c: Rgba)
    ensures var r, g, b := c.r / 255.0, c.g / 255.0, c.b / 255.0;
            ToHsl(c).Ok? ==> ToHsl(c).value.2 == (Max3(r, g, b) + Min3(r, g, b)) / 2.0
    ensures c.r == c.g == c.b ==> ToHsl(c) == Ok((0.0, 0.0, c.r / 255.0))
  {
  }

  /** ToHsl fails exactly when the channels are not all equal and the
      largest and smallest add up to 0 or to 510. */
  lemma ToHslFailsExactly(c: Rgba)
    ensures var M, m := Max3(c.r, c.g, c.b), Min3(c.r, c.g, c.b);
            ToHsl(c).Fail? <==> M != m && (M + m == 0.0 || M + m == 510.0)
  {
    var r, g, b := c.r / 255.0, c.g / 255.0, c.b / 255.0;
    MaxMinScale(c.r, c.g, c.b);
  }

  /** Dividing every channel by 255 divides their maximum and minimum too. */
  lemma MaxMinScale(r: real, g: real, b: real)
    ensures Max3(r / 255.0, g / 255.0, b / 255.0) == Max3(r, g, b) / 255.0
    ensures Min3(r / 255.0, g / 255.0, b / 255.0) == Min3(r, g, b) / 255.0
  {
  }

  /** For channels in 0 - 255 the conversion succeeds, the saturation
      divisor is not 0 whenever the channels differ, and hue, saturation and
      lightness lie in [0, 360), [0, 1] and [0, 1]. */
  lemma ToHslInGamut(c: Rgba)
    requires InGamut(c)
    ensures ToHsl(c).Ok?
    ensures var (h, s, l) := ToHsl(c).value;
            0.0 <= h < 360.0 && 0.0 <= s <= 1.0 && 0.0 <= l <= 1.0
  {
    var r, g, b := c.r / 255.0, c.g / 255.0, c.b / 255.0;
    var M := Max3(r, g, b);
    var m := Min3(r, g, b);
    var d := M - m;
    var l := (M + m) / 2.0;
    if d != 0.0 {
      var den := 1.0 - Abs(2.0 * l - 1.0);
      assert d <= den;
      assert den > 0.0;
      UnitRatio(d, den);
    }
  }

  /** Every sector of FromHsl adds m = 255 (l - d/2) to 255 times the shared
      sector offsets with chroma d = s (1 - |2l - 1|). */
  lemma FromHslBySectors(h: real, s: real, l: real)
    ensures var d := s * (1.0 - Abs(2.0 * l - 1.0));
            var m := 255.0 * (l - d / 2.0);
            var o := Offsets(h, d);
            FromHsl(h, s, l) == Rgba(255.0 * o.0 + m, 255.0 * o.1 + m, 255.0 * o.2 + m, 255.0)
  {
  }

  /** Zero saturation gives the grey 255 l; one channel is always m and
      another 255 d + m; a hue below 0 or from 360 up takes the last sector. */
  lemma FromHslShape(h: real, s: real, l: real)
    ensures s == 0.0 ==> FromHsl(h, s, l) == Rgba(255.0 * l, 255.0 * l, 255.0 * l, 255.0)
    ensures var d := s * (1.0 - Abs(2.0 * l - 1.0));
            var m := 255.0 * (l - d / 2.0);
            var c := FromHsl(h, s, l);
            (c.r == m || c.g == m || c.b == m)
            && (c.r == 255.0 * d + m || c.g == 255.0 * d + m || c.b == 255.0 * d + m)
            && (!(0.0 <= h < 360.0) ==> c == Rgba(255.0 * d + m, m, 255.0 * Secondary(h, d) + m, 255.0))
  {
    FromHslBySectors(h, s, l);
  }

  /** FromHsl undoes ToHsl exactly, over the reals, whenever ToHsl succeeds
      (in particular for every colour with channels in 0 - 255); the alpha of
      the result is 255. */
  lemma HslRoundTrip(c: Rgba, v: (real, real, real))
    requires ToHsl(c) == Ok(v)
    ensures FromHsl(v.0, v.1, v.2) == Rgba(c.r, c.g, c.b, 255.0)
  {
    ToHslParts(c, v);
    RebuildFromParts(c, v.0, v.1, v.2);
  }

  /** What a successful ToHsl returns, stated so that the chroma can be
      recovered from saturation and lightness. */
  lemma ToHslParts(c: Rgba, v: (real, real, real))
    requires ToHsl(c) == Ok(v)
    ensures HslParts(c, v.0, v.1, v.2)
  {
    var r, g, b := c.r / 255.0, c.g / 255.0, c.b / 255.0;
    assert HslOf(HueOf(r, g, b), Max3(r, g, b), Min3(r, g, b)) == Ok(v);
  }

  /** Hue, saturation and lightness that describe the channels of c: the hue
      rule, the mean of largest and smallest, and a saturation that gives
      back the chroma. */
  ghost predicate HslParts(c: Rgba, h: real, s: real, l: real) {
    var r, g, b := c.r / 255.0, c.g / 255.0, c.b / 255.0;
    var M, m := Max3(r, g, b), Min3(r, g, b);
    h == HueOf(r, g, b) && l == (M + m) / 2.0 && GivesChroma(s, l, M - m)
  }

  /** Saturation s at lightness l stands for chroma d. */
  predicate GivesChroma(s: real, l: real, d: real) {
    s * (1.0 - Abs(2.0 * l - 1.0)) == d
  }

  lemma DivTimes(p: real, q: real)
    requires q != 0.0
    ensures (p / q) * q == p
  {
  }

  /** Any hue, saturation and lightness describing c rebuild c's channels. */
  lemma RebuildFromParts(c: Rgba, h: real, s: real, l: real)
    requires HslParts(c, h, s, l)
    ensures FromHsl(h, s, l) == Rgba(c.r, c.g, c.b, 255.0)
  {
    var r, g, b := c.r / 255.0, c.g / 255.0, c.b / 255.0;
    ChromaticRoundTrip(r, g, b, h, s, l);
    assert 255.0 * r == c.r && 255.0 * g == c.g && 255.0 * b == c.b;
  }

  /** The round trip on the 0 - 1 channels. */
  lemma ChromaticRoundTrip(r: real, g: real, b: real, h: real, s: real, l: real)
    requires h == HueOf(r, g, b) && l == (Max3(r, g, b) + Min3(r, g, b)) / 2.0
    requires s * (1.0 - Abs(2.0 * l - 1.0)) == Max3(r, g, b) - Min3(r, g, b)
    ensures FromHsl(h, s, l) == Rgba(255.0 * r, 255.0 * g, 255.0 * b, 255.0)
  {
    var M, m := Max3(r, g, b), Min3(r, g, b);
    FromHslBySectors(h, s, l);
    if M == m {
      assert r == g == b == m;
      assert Secondary(h, 0.0) == 0.0;
    } else {
      SectorsInvertHue(r, g, b);
    }
  }

  /** Worked case: pure red has hue 0, saturation 1 and lightness 1/2. */
  lemma ToHslRedExample()
    ensures ToHsl(Rgba(255.0, 0.0, 0.0, 255.0)) == Ok((0.0, 1.0, 0.5))
  {
    assert Max3(1.0, 0.0, 0.0) == 1.0 && Min3(1.0, 0.0, 0.0) == 0.0;
    assert HueOf(1.0, 0.0, 0.0) == 0.0 by {
      PyModShift(0.0, 6.0, 0);
    }
    assert HslOf(0.0, 1.0, 0.0) == Ok((0.0, 1.0, 0.5));
  }

  /** Worked case: hue 240 at full saturation and half lightness is pure
      blue. */
  lemma FromHslBlueExample()
    ensures FromHsl(240.0, 1.0, 0.5) == Rgba(0.0, 0.0, 255.0, 255.0)
  {
    assert Secondary(240.0, 1.0) == 0.0 by {
      PyModShift(4.0, 2.0, 2);
    }
  }
}
