/** The Colour entity: four numeric channels updated in place by the
    rounding mutators. */
module ColourValue {
  import opened Channels

  /** Python's `math.floor`: the greatest integer not above x. */
  function FloorOf(x: real): (n: int)
    ensures n as real <= x < n as real + 1.0
  {
    x.Floor
  }

  /** Python's `math.ceil`: the least integer not below x. */
  function CeilOf(x: real): (n: int)
    ensures n as real - 1.0 < x <= n as real
  {
    if x == x.Floor as real then x.Floor else x.Floor + 1
  }

  /** Python's built-in `round` with one argument: the nearest integer,
      a tie going to the even neighbour. */
  function RoundHalfEven(x: real): (n: int)
    ensures -0.5 <= x - n as real <= 0.5
    ensures x - n as real == 0.5 || x - n as real == -0.5 ==> n % 2 == 0
  {
    var f := x.Floor;
    var frac := x - f as real;
    if frac < 0.5 then f
    else if frac > 0.5 then f + 1
    else if f % 2 == 0 then f
    else f + 1
  }

  /** No integer is nearer to x than its rounding, and when another integer
      is as near, the rounding is the even one of the two. */
  lemma RoundIsNearest(x: real, k: int)
    ensures Dist(x, RoundHalfEven(x) as real) <= Dist(x, k as real)
    ensures Dist(x, RoundHalfEven(x) as real) == Dist(x, k as real)
            ==> k == RoundHalfEven(x) || RoundHalfEven(x) % 2 == 0
  {
    var n := RoundHalfEven(x);
    if k < n - 1 || k > n + 1 {
    } else if k == n - 1 || k == n + 1 {
    }
  }

  function Dist(x: real, y: real): real {
    if x >= y then x - y else y - x
  }

  /** Flooring, ceiling and rounding a whole number leave it unchanged, so
      each mutator is idempotent. */
  lemma RoundingFixesIntegers(n: int)
    ensures FloorOf(n as real) == n
    ensures CeilOf(n as real) == n
    ensures RoundHalfEven(n as real) == n
  {
  }

  lemma FloorIdempotent(x: real)
    ensures FloorOf(FloorOf(x) as real) == FloorOf(x)
  {
    RoundingFixesIntegers(FloorOf(x));
  }

  lemma CeilIdempotent(x: real)
    ensures CeilOf(CeilOf(x) as real) == CeilOf(x)
  {
    RoundingFixesIntegers(CeilOf(x));
  }

  lemma RoundIdempotent(x: real)
    ensures RoundHalfEven(RoundHalfEven(x) as real) == RoundHalfEven(x)
  {
    RoundingFixesIntegers(RoundHalfEven(x));
  }

  /** A colour: red, green, blue and alpha, stored in 8-bit units and
      updated in place by Floor, Round and Ceil. */
  class Colour {
    var r: real
    var g: real
    var b: real
    var a: real

    /** Alpha defaults to fully opaque. */
    constructor (r: real, g: real, b: real, a: real := 255.0)
      ensures this.r == r && this.g == g && this.b == b && this.a == a
    {
      this.r, this.g, this.b, this.a := r, g, b, a;
    }

    /** The four channels as a value, which every converter reads. */
    function Value(): Rgba
      reads this
    {
      Rgba(r, g, b, a)
    }

    method Floor()
      modifies this
      ensures r == FloorOf(old(r)) as real && g == FloorOf(old(g)) as real
      ensures b == FloorOf(old(b)) as real && a == FloorOf(old(a)) as real
    {
      r := FloorOf(r) as real;
      g := FloorOf(g) as real;
      b := FloorOf(b) as real;
      a := FloorOf(a) as real;
    }

    method Round()
      modifies this
      ensures r == RoundHalfEven(old(r)) as real && g == RoundHalfEven(old(g)) as real
      ensures b == RoundHalfEven(old(b)) as real && a == RoundHalfEven(old(a)) as real
    {
      r := RoundHalfEven(r) as real;
      g := RoundHalfEven(g) as real;
      b := RoundHalfEven(b) as real;
      a := RoundHalfEven(a) as real;
    }

    method Ceil()
      modifies this
      ensures r == CeilOf(old(r)) as real && g == CeilOf(old(g)) as real
      ensures b == CeilOf(old(b)) as real && a == CeilOf(old(a)) as real
    {
      r := CeilOf(r) as real;
      g := CeilOf(g) as real;
      b := CeilOf(b) as real;
      a := CeilOf(a) as real;
    }
  }
}
