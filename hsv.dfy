/** The HSV converter: hue, saturation and value from the RGB view's 0 - 1
    channels, and back by the shared six hue sectors. */
module HsvConverter {
  import opened Channels
  import opened Hue
  import RgbView

  /** Hue in degrees, saturation (max - min) / max and value max of the
      0 - 1 channels. The saturation divides by the largest channel, so pure
      black (and any colour whose largest channel is 0) fails with
      DivisionByZero, as Python raises there. */
  function ToHsv(c: Rgba): (res: Result<(real, real, real)>)
    ensures res.Ok? ==> 0.0 <= res.value.0 < 360.0
  {
    var rgb := RgbView.ToRgbd(c);
    var r, g, b := rgb.0, rgb.1, rgb.2;
    var M := Max3(r, g, b);
    var m := Min3(r, g, b);
    var d := M - m;
    var h := HueOf(r, g, b);
    if M == 0.0 then Fail(DivisionByZero) else Ok((h, d / M, M))
  }

  /** The channels of the colour with hue h, saturation s and value v: the
      sector offsets of chroma v s, raised by v - v s and scaled by 255; the
      sector is picked from h without wrapping it, and alpha is 255. */
  function FromHsv(h: real, s: real, v: real): (c: Rgba)
    ensures c.a == 255.0
  {
    var chroma := v * s;
    var m := v - chroma;
    var (rt, gt, bt) := Offsets(h, chroma);
    Rgba((rt + m) * 255.0, (gt + m) * 255.0, (bt + m) * 255.0, 255.0)
  }

  /** ToHsv fails exactly when the largest channel is 0. */
  lemma ToHsvFailsExactly(c: Rgba)
    ensures ToHsv(c).Fail? <==> Max3(c.r, c.g, c.b) == 0.0
  {
  }

  /** Value is the largest 0 - 1 channel and saturation the chroma divided
      by it; a grey that is not black has hue 0 and saturation 0. */
  lemma HsvValueAndSaturation(c: Rgba)
    ensures var r, g, b := c.r / 255.0, c.g / 255.0, c.b / 255.0;
            var M, m := Max3(r, g, b), Min3(r, g, b);
            ToHsv(c).Ok? ==> ToHsv(c).value.2 == M && ToHsv(c).value.1 == (M - m) / M
    ensures c.r == c.g == c.b != 0.0 ==> ToHsv(c) == Ok((0.0, 0.0, c.r / 255.0))
  {
    var r := c.r / 255.0;
    if c.r == c.g == c.b != 0.0 {
      assert RgbView.ToRgbd(c) == (r, r, r);
      assert Max3(r, r, r) == r == Min3(r, r, r);
      assert HueOf(r, r, r) == 0.0;
      assert (r - r) / r == 0.0;
    }
  }

  /** For channels in 0 - 255 that are not all 0 the conversion succeeds and
      hue, saturation and value lie in [0, 360), [0, 1] and [0, 1]. */
  lemma ToHsvInGamut(c: Rgba)
    requires InGamut(c) && !(c.r == c.g == c.b == 0.0)
    ensures ToHsv(c).Ok?
    ensures var (h, s, v) := ToHsv(c).value;
            0.0 <= h < 360.0 && 0.0 <= s <= 1.0 && 0.0 <= v <= 1.0
  {
    var r, g, b := c.r / 255.0, c.g / 255.0, c.b / 255.0;
    var M := Max3(r, g, b);
    var m := Min3(r, g, b);
    assert RgbView.ToRgbd(c) == (r, g, b);
    assert 0.0 < M <= 1.0 && 0.0 <= m;
    UnitRatio(M - m, M);
    assert ToHsv(c) == Ok((HueOf(r, g, b), (M - m) / M, M));
  }

  /** Zero saturation gives the grey 255 v; one channel is always 255 v and
      another 255 (v - v s); a hue below 0 or from 360 up takes the last
      sector. */
  lemma FromHsvShape(h: real, s: real, v: real)
    ensures s == 0.0 ==> FromHsv(h, s, v) == Rgba(255.0 * v, 255.0 * v, 255.0 * v, 255.0)
    ensures var c := FromHsv(h, s, v);
            var top, bottom := 255.0 * v, 255.0 * (v - v * s);
            (c.r == top || c.g == top || c.b == top)
            && (c.r == bottom || c.g == bottom || c.b == bottom)
            && (!(0.0 <= h < 360.0) ==>
                  c == Rgba(top, bottom, (Secondary(h, v * s) + v - v * s) * 255.0, 255.0))
  {
    if s == 0.0 {
      assert Secondary(h, 0.0) == 0.0;
    }
  }

  /** FromHsv undoes ToHsv exactly, over the reals, whenever ToHsv succeeds
      (in particular for every colour with channels in 0 - 255 other than
      black); the alpha of the result is 255. */
  lemma HsvRoundTrip(c: Rgba, v: (real, real, real))
    requires ToHsv(c) == Ok(v)
    ensures FromHsv(v.0, v.1, v.2) == Rgba(c.r, c.g, c.b, 255.0)
  {
    ToHsvParts(c, v);
    RebuildFromParts(c, v.0, v.1, v.2);
  }

  /** Hue, saturation and value that describe the channels of c: the hue
      rule, the largest channel, and a saturation that gives back the
      chroma. */
  ghost predicate HsvParts(c: Rgba, h: real, s: real, v: real) {
    var r, g, b := c.r / 255.0, c.g / 255.0, c.b / 255.0;
    var M, m := Max3(r, g, b), Min3(r, g, b);
    h == HueOf(r, g, b) && v == M && v * s == M - m
  }

  lemma ToHsvParts(c: Rgba, v: (real, real, real))
    requires ToHsv(c) == Ok(v)
    ensures HsvParts(c, v.0, v.1, v.2)
  {
    var r, g, b := c.r / 255.0, c.g / 255.0, c.b / 255.0;
    var M, m := Max3(r, g, b), Min3(r, g, b);
    assert M != 0.0 && v.1 == (M - m) / M;
    assert M * ((M - m) / M) == M - m;
  }

  /** Any hue, saturation and value describing c rebuild c's channels. */
  lemma RebuildFromParts(c: Rgba, h: real, s: real, v: real)
    requires HsvParts(c, h, s, v)
    ensures FromHsv(h, s, v) == Rgba(c.r, c.g, c.b, 255.0)
  {
    var r, g, b := c.r / 255.0, c.g / 255.0, c.b / 255.0;
    var M, m := Max3(r, g, b), Min3(r, g, b);
    if M == m {
      assert r == g == b == m;
      assert Secondary(h, 0.0) == 0.0;
    } else {
      SectorsInvertHue(r, g, b);
    }
    assert 255.0 * r == c.r && 255.0 * g == c.g && 255.0 * b == c.b;
  }
}
