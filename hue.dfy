/** The hue rule and the six-sector reconstruction that the HSL and HSV
    converters share. */
module Hue {

  function Abs(x: real): (y: real)
    ensures y >= 0.0 && (y == x || y == -x)
  {
    if x < 0.0 then -x else x
  }

  function Max3(x: real, y: real, z: real): (M: real)
    ensures M >= x && M >= y && M >= z
    ensures M == x || M == y || M == z
  {
    if x >= y && x >= z then x else if y >= z then y else z
  }

  function Min3(x: real, y: real, z: real): (m: real)
    ensures m <= x && m <= y && m <= z
    ensures m == x || m == y || m == z
  {
    if x <= y && x <= z then x else if y <= z then y else z
  }

  /** Python's `%` on floats: the remainder has the sign of the divisor,
      so for a positive divisor it lies in [0, n). */
  function PyMod(x: real, n: real): (r: real)
    requires n > 0.0
    ensures 0.0 <= r < n
  {
    var q := (x / n).Floor as real;
    assert q <= x / n < q + 1.0;
    ScaleBetween(q, x / n, q + 1.0, n);
    assert (x / n) * n == x;
    assert x < (q + 1.0) * n;
    assert (q + 1.0) * n == q * n + n;
    x - q * n
  }

  /** When x lies in [k n, (k + 1) n), PyMod(x, n) takes k times n off x. */
  lemma PyModShift(x: real, n: real, k: int)
    requires n > 0.0
    requires k as real * n <= x < (k + 1) as real * n
    ensures PyMod(x, n) == x - k as real * n
    ensures (x / n).Floor == k
  {
    var y := x / n;
    assert y * n == x;
    if y < k as real {
      ScaleBetween(y, k as real, k as real, n);
      assert false;
    }
    if y >= k as real + 1.0 {
      ScaleBetween(k as real + 1.0, y, y, n);
      assert false;
    }
    assert k as real <= y < k as real + 1.0;
  }

  /** Multiplying by a positive n keeps the order of lo <= y < hi. */
  lemma ScaleBetween(lo: real, y: real, hi: real, n: real)
    requires n > 0.0 && lo <= y <= hi
    ensures lo * n <= y * n <= hi * n
    ensures y < hi ==> y * n < hi * n
    ensures lo < y ==> lo * n < y * n
  {
    assert (y - lo) * n >= 0.0;
    assert (hi - y) * n >= 0.0;
  }

  /** The hue, in degrees, of the 0 - 1 channels r, g, b: 0 for a grey;
      otherwise measured from whichever channel is largest, red winning a
      tie and green winning a tie with blue. */
  function HueOf(r: real, g: real, b: real): (h: real)
    ensures 0.0 <= h < 360.0
    ensures Max3(r, g, b) == Min3(r, g, b) ==> h == 0.0
  {
    var M := Max3(r, g, b);
    var m := Min3(r, g, b);
    var d := M - m;
    if d == 0.0 then 0.0
    else if M == r then 60.0 * PyMod((g - b) / d, 6.0)
    else if M == g then
      UnitRatio(b - r, d);
      60.0 * ((b - r) / d + 2.0)
    else
      UnitRatio(r - g, d);
      60.0 * ((r - g) / d + 4.0)
  }

  lemma UnitRatio(p: real, d: real)
    requires d > 0.0 && -d <= p <= d
    ensures -1.0 <= p / d <= 1.0
    ensures p < d ==> p / d < 1.0
    ensures -d < p ==> -1.0 < p / d
    ensures 0.0 <= p ==> 0.0 <= p / d
  {
    var q := p / d;
    assert q * d == p;
    SignOfProduct(q - 1.0, d);
    SignOfProduct(q + 1.0, d);
    SignOfProduct(q, d);
  }

  /** A positive factor d keeps the sign of x. */
  lemma SignOfProduct(x: real, d: real)
    requires d > 0.0
    ensures x >= 0.0 ==> x * d >= 0.0
    ensures x > 0.0 ==> x * d > 0.0
    ensures x <= 0.0 ==> x * d <= 0.0
    ensures x < 0.0 ==> x * d < 0.0
  {
  }

  /** The second-largest channel offset of a hue sector:
      c (1 - |(h / 60 mod 2) - 1|). */
  function Secondary(h: real, c: real): real {
    c * (1.0 - Abs(PyMod(h / 60.0, 2.0) - 1.0))
  }

  /** The offsets above the smallest channel, chosen by half-open 60-degree
      sectors of h; an h below 0 or from 360 up takes the last sector. */
  function Offsets(h: real, c: real): (o: (real, real, real))
    ensures o.0 == c || o.1 == c || o.2 == c
    ensures o.0 == 0.0 || o.1 == 0.0 || o.2 == 0.0
    ensures !(0.0 <= h < 360.0) ==> o == (c, 0.0, Secondary(h, c))
  {
    var x := Secondary(h, c);
    if 0.0 <= h < 60.0 then (c, x, 0.0)
    else if 60.0 <= h < 120.0 then (x, c, 0.0)
    else if 120.0 <= h < 180.0 then (0.0, c, x)
    else if 180.0 <= h < 240.0 then (0.0, x, c)
    else if 240.0 <= h < 300.0 then (x, 0.0, c)
    else (c, 0.0, x)
  }

  /** Inside a sector Secondary grows linearly with the hue ... */
  lemma SecondaryRising(y: real, c: real, k: int, s: real)
    requires 2.0 * k as real <= y < 2.0 * k as real + 1.0
    requires s == y - 2.0 * k as real
    ensures Secondary(60.0 * y, c) == c * s
  {
    assert (60.0 * y) / 60.0 == y;
    assert k as real * 2.0 <= y < (k + 1) as real * 2.0;
    PyModShift(y, 2.0, k);
    assert 1.0 - Abs(PyMod(y, 2.0) - 1.0) == s;
  }

  /** ... and in the next one falls linearly back to 0. */
  lemma SecondaryFalling(y: real, c: real, k: int, s: real)
    requires 2.0 * k as real + 1.0 <= y < 2.0 * k as real + 2.0
    requires s == 2.0 * k as real + 2.0 - y
    ensures Secondary(60.0 * y, c) == c * s
  {
    assert (60.0 * y) / 60.0 == y;
    assert k as real * 2.0 <= y < (k + 1) as real * 2.0;
    PyModShift(y, 2.0, k);
    assert 1.0 - Abs(PyMod(y, 2.0) - 1.0) == s;
  }

  /** The sectors invert the hue rule: for channels that are not all equal,
      the offsets of HueOf(r, g, b) with chroma max - min are exactly how far
      each channel lies above the smallest. */
  lemma SectorsInvertHue(r: real, g: real, b: real)
    requires Max3(r, g, b) != Min3(r, g, b)
    ensures var m := Min3(r, g, b);
            Offsets(HueOf(r, g, b), Max3(r, g, b) - m) == (r - m, g - m, b - m)
  {
    var M := Max3(r, g, b);
    if M == r {
      RedMaxSectors(r, g, b);
    } else if M == g {
      GreenMaxSectors(r, g, b);
    } else {
      BlueMaxSectors(r, g, b);
    }
  }

  lemma RedMaxSectors(r: real, g: real, b: real)
    requires Max3(r, g, b) != Min3(r, g, b) && Max3(r, g, b) == r
    ensures var m := Min3(r, g, b);
            Offsets(HueOf(r, g, b), r - m) == (r - m, g - m, b - m)
  {
    var m := Min3(r, g, b);
    var d := r - m;
    var t := (g - b) / d;
    assert d * t == g - b;
    UnitRatio(g - b, d);
    if t >= 0.0 {
      assert m == b;
      RedMaxRising(r, g, b, t);
    } else {
      assert m == g;
      RedMaxWrapping(r, g, b, t);
    }
  }

  lemma RedMaxRising(r: real, g: real, b: real, t: real)
    requires Max3(r, g, b) == r && Min3(r, g, b) == b && r != b
    requires t == (g - b) / (r - b) && 0.0 <= t <= 1.0 && (r - b) * t == g - b
    ensures Offsets(HueOf(r, g, b), r - b) == (r - b, g - b, 0.0)
  {
    var d := r - b;
    var h := HueOf(r, g, b);
    PyModShift(t, 6.0, 0);
    assert h == 60.0 * t;
    if t < 1.0 {
      SecondaryRising(t, d, 0, t);
      assert Secondary(h, d) == g - b;
    } else {
      SecondaryFalling(t, d, 0, 1.0);
      assert Secondary(h, d) == d;
    }
  }

  lemma RedMaxWrapping(r: real, g: real, b: real, t: real)
    requires Max3(r, g, b) == r && Min3(r, g, b) == g && r != g
    requires t == (g - b) / (r - g) && -1.0 <= t < 0.0 && (r - g) * t == g - b
    ensures Offsets(HueOf(r, g, b), r - g) == (r - g, 0.0, b - g)
  {
    var d := r - g;
    var h := HueOf(r, g, b);
    PyModShift(t, 6.0, -1);
    assert h == 60.0 * (t + 6.0);
    SecondaryFalling(t + 6.0, d, 2, -t);
    assert d * (-t) == b - g;
    assert Secondary(h, d) == b - g;
  }

  lemma GreenMaxSectors(r: real, g: real, b: real)
    requires Max3(r, g, b) != Min3(r, g, b) && Max3(r, g, b) == g != r
    ensures var m := Min3(r, g, b);
            Offsets(HueOf(r, g, b), g - m) == (r - m, g - m, b - m)
  {
    var m := Min3(r, g, b);
    var d := g - m;
    var t := (b - r) / d;
    assert d * t == b - r;
    UnitRatio(b - r, d);
    if t < 0.0 {
      assert m == b;
      GreenMaxFalling(r, g, b, t);
    } else {
      assert m == r;
      GreenMaxRising(r, g, b, t);
    }
  }

  lemma GreenMaxFalling(r: real, g: real, b: real, t: real)
    requires Max3(r, g, b) == g != r && Min3(r, g, b) == b && g != b
    requires t == (b - r) / (g - b) && -1.0 < t < 0.0 && (g - b) * t == b - r
    ensures Offsets(HueOf(r, g, b), g - b) == (r - b, g - b, 0.0)
  {
    var d := g - b;
    var h := HueOf(r, g, b);
    assert h == 60.0 * (t + 2.0);
    assert 60.0 < h < 120.0;
    SecondaryFalling(t + 2.0, d, 0, -t);
    assert d * (-t) == r - b;
    assert Secondary(h, d) == r - b;
  }

  lemma GreenMaxRising(r: real, g: real, b: real, t: real)
    requires Max3(r, g, b) == g != r && Min3(r, g, b) == r
    requires t == (b - r) / (g - r) && 0.0 <= t <= 1.0 && (g - r) * t == b - r
    ensures Offsets(HueOf(r, g, b), g - r) == (0.0, g - r, b - r)
  {
    var d := g - r;
    var h := HueOf(r, g, b);
    assert h == 60.0 * (t + 2.0);
    if t < 1.0 {
      SecondaryRising(t + 2.0, d, 1, t);
      assert Secondary(h, d) == b - r;
    } else {
      SecondaryFalling(t + 2.0, d, 1, 1.0);
      assert Secondary(h, d) == d;
    }
  }

  lemma BlueMaxSectors(r: real, g: real, b: real)
    requires Max3(r, g, b) != Min3(r, g, b) && Max3(r, g, b) == b != r && b != g
    ensures var m := Min3(r, g, b);
            Offsets(HueOf(r, g, b), b - m) == (r - m, g - m, b - m)
  {
    var m := Min3(r, g, b);
    var d := b - m;
    var t := (r - g) / d;
    assert d * t == r - g;
    UnitRatio(r - g, d);
    if t < 0.0 {
      assert m == r;
      BlueMaxFalling(r, g, b, t);
    } else {
      assert m == g;
      BlueMaxRising(r, g, b, t);
    }
  }

  lemma BlueMaxFalling(r: real, g: real, b: real, t: real)
    requires Max3(r, g, b) == b != r && b != g && Min3(r, g, b) == r
    requires t == (r - g) / (b - r) && -1.0 < t < 0.0 && (b - r) * t == r - g
    ensures Offsets(HueOf(r, g, b), b - r) == (0.0, g - r, b - r)
  {
    var d := b - r;
    var h := HueOf(r, g, b);
    assert h == 60.0 * (t + 4.0);
    SecondaryFalling(t + 4.0, d, 1, -t);
    assert d * (-t) == g - r;
    assert Secondary(h, d) == g - r;
  }

  lemma BlueMaxRising(r: real, g: real, b: real, t: real)
    requires Max3(r, g, b) == b != r && b != g && Min3(r, g, b) == g
    requires t == (r - g) / (b - g) && 0.0 <= t < 1.0 && (b - g) * t == r - g
    ensures Offsets(HueOf(r, g, b), b - g) == (r - g, 0.0, b - g)
  {
    var d := b - g;
    var h := HueOf(r, g, b);
    assert h == 60.0 * (t + 4.0);
    SecondaryRising(t + 4.0, d, 2, t);
    assert Secondary(h, d) == r - g;
  }
}
