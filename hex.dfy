/** The hex codec: channels written as two lowercase hex digits each, and
    hex strings parsed back into channels. */
module HexCodec {
  import opened Channels

  predicate IsHexChar(ch: char) {
    '0' <= ch <= '9' || 'a' <= ch <= 'f' || 'A' <= ch <= 'F'
  }

  predicate IsLowerHexChar(ch: char) {
    IsHexChar(ch) && !('A' <= ch <= 'F')
  }

  /** The characters a hex string may hold in this model. */
  predicate IsHexAlphabet(s: string) {
    forall i :: 0 <= i < |s| ==> s[i] == '#' || IsHexChar(s[i])
  }

  /** The value of one hex digit, either case. */
  function DigitValue(ch: char): (n: nat)
    requires IsHexChar(ch)
    ensures n < 16
  {
    if '0' <= ch <= '9' then ch as int - '0' as int
    else if 'a' <= ch <= 'f' then ch as int - 'a' as int + 10
    else ch as int - 'A' as int + 10
  }

  /** The lowercase digit for 0 - 15. */
  function DigitChar(n: nat): (ch: char)
    requires n < 16
    ensures IsLowerHexChar(ch) && DigitValue(ch) == n
  {
    "0123456789abcdef"[n]
  }

  /** Python's `format(n, 'x')`: the shortest lowercase hex numeral of n. */
  function HexNumeral(n: nat): (s: string)
    ensures |s| >= 1 && (forall i :: 0 <= i < |s| ==> IsLowerHexChar(s[i]))
            && HexValue(s) == n
  {
    if n < 16 then [DigitChar(n)]
    else
      var s := HexNumeral(n / 16) + [DigitChar(n % 16)];
      assert s[..|s| - 1] == HexNumeral(n / 16);
      s
  }

  /** Python's `f"{n:02x}"` on an int: the hex numeral zero-padded to two
      characters, a minus sign counting towards the width. */
  function Format02x(n: int): string {
    if n < 0 then "-" + HexNumeral(-n)
    else if n < 16 then "0" + HexNumeral(n)
    else HexNumeral(n)
  }

  /** A channel in 0 - 255 is written as exactly two lowercase digits, the
      high nibble first. */
  lemma Format02xByte(n: int)
    requires 0 <= n < 256
    ensures Format02x(n) == [DigitChar(n / 16), DigitChar(n % 16)]
  {
    if n < 16 {
      assert DigitChar(0) == '0';
    } else {
      assert HexNumeral(n / 16) == [DigitChar(n / 16)];
    }
  }

  /** The value of a string of hex digits, most significant first. */
  function HexValue(s: string): nat
    requires forall i :: 0 <= i < |s| ==> IsHexChar(s[i])
  {
    if s == [] then 0 else 16 * HexValue(s[..|s| - 1]) + DigitValue(s[|s| - 1])
  }

  /** Python's `int(s, 16)` on strings over the model's alphabet: an empty
      string or one holding a '#' raises. */
  function ParseHex(s: string): (res: Result<nat>)
    requires IsHexAlphabet(s)
    ensures res.Ok? <==> s != [] && '#' !in s
  {
    if s == [] then Fail(EmptyHexField)
    else if '#' in s then Fail(InvalidHexDigit)
    else Ok(HexValue(s))
  }

  /** Python's `s.lstrip('#')`: every leading '#' removed. */
  function LStripHash(s: string): (t: string)
    ensures |t| <= |s| && (t != [] ==> t[0] != '#')
    ensures IsHexAlphabet(s) ==> IsHexAlphabet(t)
  {
    if s != [] && s[0] == '#' then LStripHash(s[1..]) else s
  }

  /** LStripHash(s) is what is left of s after its leading run of '#':
      s is that run followed by the result, and the result does not start
      with '#', so no longer run could have been removed. */
  lemma {:induction false} LStripHashRemovesLeadingRun(s: string)
    ensures var t := LStripHash(s);
            s == s[..|s| - |t|] + t
            && (forall i :: 0 <= i < |s| - |t| ==> s[i] == '#')
            && (t == [] || t[0] != '#')
  {
    if s != [] && s[0] == '#' {
      LStripHashRemovesLeadingRun(s[1..]);
      var t := LStripHash(s);
      assert s[1..] == s[1..][..|s| - 1 - |t|] + t;
      assert s[..|s| - |t|] == [s[0]] + s[1..][..|s| - 1 - |t|];
    }
  }

  /** Python's slice `s[i:j]` for 0 <= i <= j: clipped to the string. */
  function Slice(s: string, i: nat, j: nat): (t: string)
    requires i <= j
    ensures |t| == (if j <= |s| then j - i else if i <= |s| then |s| - i else 0)
    ensures forall k :: 0 <= k < |t| ==> t[k] == s[i + k]
    ensures IsHexAlphabet(s) ==> IsHexAlphabet(t)
  {
    var lo := if i <= |s| then i else |s|;
    var hi := if j <= |s| then j else |s|;
    s[lo..hi]
  }

  /** The hex string of a colour with whole-number channels: `#` if asked,
      then r, g and b, then alpha only when it is not 255. */
  function ToHex(c: Rgba, withHashtag: bool := true): string
    requires IsIntegral(c.r) && IsIntegral(c.g) && IsIntegral(c.b) && IsIntegral(c.a)
  {
    var hexString := (if withHashtag then "#" else "")
      + Format02x(c.r.Floor) + Format02x(c.g.Floor) + Format02x(c.b.Floor);
    if c.a != 255.0 then hexString + Format02x(c.a.Floor) else hexString
  }

  /** The body FromHex reads: the string without its leading '#'s, repeated
      whole when it is three characters long. */
  function Body(s: string): (t: string)
    ensures IsHexAlphabet(s) ==> IsHexAlphabet(t)
  {
    var stripped := LStripHash(s);
    if |stripped| == 3 then stripped + stripped else stripped
  }

  /** The channels of a hex string: r, g and b from characters 1-2, 3-4 and
      5-6 of the body, alpha from 7-8 when the body has at least 8
      characters and 255 otherwise; an empty slice or a '#' in one fails. */
  function FromHex(hexString: string): (res: Result<Rgba>)
    requires IsHexAlphabet(hexString)
  {
    var t := Body(hexString);
    var r :- ParseHex(Slice(t, 0, 2));
    var g :- ParseHex(Slice(t, 2, 4));
    var b :- ParseHex(Slice(t, 4, 6));
    var a :- if |t| >= 8 then ParseHex(Slice(t, 6, 8)) else Ok(255);
    Ok(Rgba(r as real, g as real, b as real, a as real))
  }

  /** The channels of a colour that is valid input to ToHex and fits in
      8 bits. */
  predicate IsByteColour(c: Rgba) {
    IsByte(c.r) && IsByte(c.g) && IsByte(c.b) && IsByte(c.a)
  }

  /** The two-digit lowercase form of a byte. */
  function Pair(x: real): (p: string)
    requires IsByte(x)
    ensures |p| == 2 && IsLowerHexChar(p[0]) && IsLowerHexChar(p[1])
  {
    [DigitChar(x.Floor / 16), DigitChar(x.Floor % 16)]
  }

  /** What ToHex writes after the optional '#' for 8-bit channels: two
      lowercase digits each for r, g and b, and for alpha only when it is not
      255, so 6 or 8 digits in all. */
  function HexBody(c: Rgba): (body: string)
    requires IsByteColour(c)
    ensures |body| == (if c.a != 255.0 then 8 else 6)
    ensures forall i :: 0 <= i < |body| ==> IsLowerHexChar(body[i])
  {
    var p := Pair(c.r) + Pair(c.g) + Pair(c.b);
    if c.a != 255.0 then p + Pair(c.a) else p
  }

  lemma FormatIsPair(x: real)
    requires IsByte(x)
    ensures Format02x(x.Floor) == Pair(x)
  {
    Format02xByte(x.Floor);
  }

  /** ToHex on 8-bit channels is a '#' exactly when asked, then HexBody. */
  lemma ToHexShape(c: Rgba, withHashtag: bool)
    requires IsByteColour(c)
    ensures ToHex(c, withHashtag) == (if withHashtag then "#" else "") + HexBody(c)
  {
    FormatIsPair(c.r);
    FormatIsPair(c.g);
    FormatIsPair(c.b);
    FormatIsPair(c.a);
    var prefix := if withHashtag then "#" else "";
    var p := Pair(c.r) + Pair(c.g) + Pair(c.b);
    assert prefix + Pair(c.r) + Pair(c.g) + Pair(c.b) == prefix + p;
    if c.a != 255.0 {
      assert prefix + p + Pair(c.a) == prefix + (p + Pair(c.a));
    }
  }

  lemma HexValuePair(x: char, y: char)
    requires IsHexChar(x) && IsHexChar(y)
    ensures HexValue([x, y]) == 16 * DigitValue(x) + DigitValue(y)
  {
    assert [x, y][..1] == [x];
    assert [x][..0] == [];
    assert HexValue([x]) == DigitValue(x);
  }

  /** Parsing the two-digit form of a byte gives the byte back. */
  lemma ParsePair(x: real)
    requires IsByte(x)
    ensures IsHexAlphabet(Pair(x)) && ParseHex(Pair(x)) == Ok(x.Floor)
  {
    var p := Pair(x);
    HexValuePair(p[0], p[1]);
    assert p == [p[0], p[1]];
  }

  /** A string that does not start with '#' is its own lstrip. */
  lemma LStripNoHash(s: string)
    requires s == [] || s[0] != '#'
    ensures LStripHash(s) == s
  {
  }

  /** Round trip: parsing what ToHex writes for 8-bit channels gives back
      all four channels, with or without the '#'. */
  lemma HexRoundTrip(c: Rgba, withHashtag: bool)
    requires IsByteColour(c)
    ensures IsHexAlphabet(ToHex(c, withHashtag))
    ensures FromHex(ToHex(c, withHashtag)) == Ok(c)
  {
    ToHexShape(c, withHashtag);
    var body := HexBody(c);
    ParseHexBody(c);
    if withHashtag {
      assert ToHex(c, withHashtag) == "#" + body;
      FromHexStripsEveryHash(body);
    } else {
      assert ToHex(c, withHashtag) == body;
    }
  }

  /** The body ToHex writes parses back to the colour. */
  lemma ParseHexBody(c: Rgba)
    requires IsByteColour(c)
    ensures IsHexAlphabet(HexBody(c)) && FromHex(HexBody(c)) == Ok(c)
  {
    var body := HexBody(c);
    LStripNoHash(body);
    assert Body(body) == body;
    HexBodySlices(c);
    ParsePair(c.r);
    ParsePair(c.g);
    ParsePair(c.b);
    ParsePair(c.a);
  }

  /** The slices FromHex reads from HexBody are the pairs ToHex wrote. */
  lemma HexBodySlices(c: Rgba)
    requires IsByteColour(c)
    ensures var body := HexBody(c);
            Slice(body, 0, 2) == Pair(c.r) && Slice(body, 2, 4) == Pair(c.g)
            && Slice(body, 4, 6) == Pair(c.b)
            && (c.a != 255.0 ==> Slice(body, 6, 8) == Pair(c.a))
  {
    var body := HexBody(c);
    var p := Pair(c.r) + Pair(c.g) + Pair(c.b);
    assert body[..6] == p;
    assert p[0..2] == Pair(c.r);
    assert p[2..4] == Pair(c.g);
    assert p[4..6] == Pair(c.b);
    if c.a != 255.0 {
      assert body[6..8] == Pair(c.a);
    }
  }

  /** Every leading '#' is stripped, so '##ff0000' parses like 'ff0000'. */
  lemma FromHexStripsEveryHash(s: string)
    requires IsHexAlphabet(s)
    ensures IsHexAlphabet("#" + s) && FromHex("#" + s) == FromHex(s)
  {
    assert ("#" + s)[1..] == s;
  }

  /** A three-character body is repeated whole, not digit by digit: 'abc'
      reads as 'abcabc', that is (0xab, 0xca, 0xbc), with alpha 255. */
  lemma FromHexShorthand(s: string)
    requires IsHexAlphabet(s)
    requires var t := LStripHash(s); |t| == 3 && '#' !in t
    ensures var t := LStripHash(s);
            var d0, d1, d2 := DigitValue(t[0]), DigitValue(t[1]), DigitValue(t[2]);
            IsHexAlphabet(t + t)
            && FromHex(s) == FromHex(t + t)
            && FromHex(s) == Ok(Rgba((16 * d0 + d1) as real, (16 * d2 + d0) as real,
                                     (16 * d1 + d2) as real, 255.0))
  {
    var t := LStripHash(s);
    var tt := t + t;
    LStripNoHash(tt);
    assert Body(tt) == tt == Body(s);
    assert Slice(tt, 0, 2) == [t[0], t[1]];
    assert Slice(tt, 2, 4) == [t[2], t[0]];
    assert Slice(tt, 4, 6) == [t[1], t[2]];
    HexValuePair(t[0], t[1]);
    HexValuePair(t[2], t[0]);
    HexValuePair(t[1], t[2]);
  }

  /** Alpha comes from characters 7 - 8 of the body when it has at least 8
      characters and is 255 otherwise; characters after the eighth are
      never read. */
  lemma FromHexAlpha(s: string)
    requires IsHexAlphabet(s)
    ensures var t := Body(s);
            FromHex(s).Ok? && |t| >= 8 ==>
              '#' !in t[6..8] && FromHex(s).value.a == HexValue(t[6..8]) as real
    ensures FromHex(s).Ok? && |Body(s)| < 8 ==> FromHex(s).value.a == 255.0
    ensures var t := LStripHash(s);
            |t| >= 8 ==> IsHexAlphabet(t[..8]) && FromHex(s) == FromHex(t[..8])
  {
    var t := LStripHash(s);
    if |t| >= 8 {
      var u := t[..8];
      LStripNoHash(u);
      assert Body(u) == u;
      assert Slice(u, 0, 2) == Slice(t, 0, 2);
      assert Slice(u, 2, 4) == Slice(t, 2, 4);
      assert Slice(u, 4, 6) == Slice(t, 4, 6);
      assert Slice(u, 6, 8) == Slice(t, 6, 8);
    }
  }

  /** How many characters of a body of length n FromHex reads. */
  function ReadLength(n: nat): (k: nat)
    ensures k <= n && k <= 8
  {
    if n >= 8 then 8 else if n >= 6 then 6 else n
  }

  /** FromHex succeeds exactly when each slice it parses succeeds. */
  lemma FromHexOkParts(s: string)
    requires IsHexAlphabet(s)
    ensures var t := Body(s);
            FromHex(s).Ok? <==>
              ParseHex(Slice(t, 0, 2)).Ok? && ParseHex(Slice(t, 2, 4)).Ok?
              && ParseHex(Slice(t, 4, 6)).Ok?
              && (|t| >= 8 ==> ParseHex(Slice(t, 6, 8)).Ok?)
  {
  }

  /** FromHex fails exactly when the stripped string has 0, 1, 2 or 4
      characters (a slice for r, g or b is then empty) or a '#' sits among
      the characters it reads. */
  lemma FromHexOkExactly(s: string)
    requires IsHexAlphabet(s)
    ensures var t := Body(s);
            FromHex(s).Ok? <==>
              |LStripHash(s)| !in {0, 1, 2, 4} && '#' !in t[..ReadLength(|t|)]
  {
    var t := Body(s);
    var n := |t|;
    FromHexOkParts(s);
    assert |LStripHash(s)| in {0, 1, 2, 4} <==> n in {0, 1, 2, 4};
    if n !in {0, 1, 2, 4} {
      var rs, gs, bs := Slice(t, 0, 2), Slice(t, 2, 4), Slice(t, 4, 6);
      if n >= 8 {
        assert t[..8] == rs + gs + bs + Slice(t, 6, 8);
      } else {
        assert t[..ReadLength(n)] == rs + gs + bs;
      }
    }
  }

  function LowerChar(ch: char): char {
    if 'A' <= ch <= 'F' then (ch as int - 'A' as int + 'a' as int) as char else ch
  }

  function Lower(s: string): (t: string)
    ensures |t| == |s| && forall i :: 0 <= i < |s| ==> t[i] == LowerChar(s[i])
    ensures IsHexAlphabet(s) ==> IsHexAlphabet(t)
  {
    seq(|s|, i requires 0 <= i < |s| => LowerChar(s[i]))
  }

  lemma LowerSlice(s: string, i: nat, j: nat)
    requires i <= j <= |s|
    ensures Lower(s)[i..j] == Lower(s[i..j])
  {
  }

  lemma {:induction false} HexValueLower(s: string)
    requires forall i :: 0 <= i < |s| ==> IsHexChar(s[i])
    ensures (forall i :: 0 <= i < |s| ==> IsHexChar(Lower(s)[i]))
            && HexValue(Lower(s)) == HexValue(s)
  {
    if s != [] {
      LowerSlice(s, 0, |s| - 1);
      HexValueLower(s[..|s| - 1]);
    }
  }

  lemma {:induction false} LStripLower(s: string)
    ensures LStripHash(Lower(s)) == Lower(LStripHash(s))
  {
    if s != [] && s[0] == '#' {
      assert Lower(s)[0] == '#';
      LowerSlice(s, 1, |s|);
      assert Lower(s)[1..] == Lower(s[1..]);
      LStripLower(s[1..]);
      assert LStripHash(Lower(s)) == LStripHash(Lower(s)[1..]);
    } else if s != [] {
      assert Lower(s)[0] != '#';
    }
  }

  lemma ParseHexLower(x: string)
    requires IsHexAlphabet(x)
    ensures ParseHex(Lower(x)) == ParseHex(x)
  {
    assert '#' in Lower(x) <==> '#' in x by {
      if '#' in x {
        var k :| 0 <= k < |x| && x[k] == '#';
        assert Lower(x)[k] == '#';
      }
    }
    if x != [] && '#' !in x {
      HexValueLower(x);
    }
  }

  lemma SliceLower(b: string, i: nat, j: nat)
    requires i <= j
    ensures Slice(Lower(b), i, j) == Lower(Slice(b, i, j))
  {
    var lo := if i <= |b| then i else |b|;
    var hi := if j <= |b| then j else |b|;
    LowerSlice(b, lo, hi);
  }

  /** Upper- and lowercase digits parse to the same channels. */
  lemma FromHexIgnoresCase(s: string)
    requires IsHexAlphabet(s)
    ensures IsHexAlphabet(Lower(s)) && FromHex(Lower(s)) == FromHex(s)
  {
    LStripLower(s);
    var t := LStripHash(s);
    var b := Body(s);
    assert Body(Lower(s)) == Lower(b) by {
      if |t| == 3 {
        assert Lower(t + t) == Lower(t) + Lower(t);
      }
    }
    SliceLower(b, 0, 2);
    SliceLower(b, 2, 4);
    SliceLower(b, 4, 6);
    SliceLower(b, 6, 8);
    ParseHexLower(Slice(b, 0, 2));
    ParseHexLower(Slice(b, 2, 4));
    ParseHexLower(Slice(b, 4, 6));
    ParseHexLower(Slice(b, 6, 8));
  }

  /** Worked case: 'ff0000' is pure red. */
  lemma FromHexRedExample()
    ensures FromHex("ff0000") == Ok(Rgba(255.0, 0.0, 0.0, 255.0))
  {
    var t := "ff0000";
    LStripNoHash(t);
    assert Body(t) == t;
    assert t[0] == t[1] == 'f' && t[2] == t[3] == t[4] == t[5] == '0';
    assert Slice(t, 0, 2) == ['f', 'f'];
    assert Slice(t, 2, 4) == ['0', '0'] == Slice(t, 4, 6);
    HexValuePair('f', 'f');
    HexValuePair('0', '0');
  }

  /** Worked case: '#ff0000' and '##ff0000' read as 'ff0000'. */
  lemma FromHexHashExample()
    ensures FromHex("#ff0000") == FromHex("##ff0000") == FromHex("ff0000")
  {
    FromHexStripsEveryHash("ff0000");
    assert "#" + "ff0000" == "#ff0000";
    FromHexStripsEveryHash("#ff0000");
    assert "#" + "#ff0000" == "##ff0000";
  }

  /** Worked case: the shorthand 'abc' reads as 'abcabc'. */
  lemma FromHexShorthandExample()
    ensures FromHex("abc") == Ok(Rgba(171.0, 202.0, 188.0, 255.0))
  {
    LStripNoHash("abc");
    FromHexShorthand("abc");
  }

  /** Worked case: the body 'abcd' leaves the blue slice empty. */
  lemma FromHexTooShortExample()
    ensures FromHex("abcd") == Fail(EmptyHexField)
  {
    var t := "abcd";
    LStripNoHash(t);
    assert Body(t) == t;
    assert Slice(t, 4, 6) == [];
    assert ParseHex(Slice(t, 0, 2)).Ok? && ParseHex(Slice(t, 2, 4)).Ok?;
  }
}
