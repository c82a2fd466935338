/** Colour notations: the recognisers isHexString, isRgbString and
    isHslString, the parsers hexToRgb, parseRgb and parseHsl, the printer
    rgbToHex, and processColor, which turns one notation into the other two.
    The HSL arithmetic (rgbToHsl, hslToRgb) is a collaborator. */
module Colors {
  import opened Wrappers
  import opened JsStrings
  import opened Radix
  import opened Converter

  /** What hexToRgb returns; `a` is the alpha value, 1 unless 8 digits gave one. */
  datatype Rgba = Rgba(r: int, g: int, b: int, a: real)

  /** What parseRgb and parseHsl return: the three channels and the alpha
      value (1 when absent, `None` when parseFloat gives NaN). */
  datatype ColorValue = ColorValue(c1: int, c2: int, c3: int, a: Option<real>)

  // ---------------------------------------------------------------------
  // Hex notation

  /** `#` followed by exactly 3, 6 or 8 hex digits, on an already trimmed string. */
  predicate IsHexColor(t: JsString)
  {
    (|t| == 4 || |t| == 7 || |t| == 9) && t[0] == Ch('#') &&
    forall i | 1 <= i < |t| :: IsHexDigit(t[i])
  }

  /** isHexString(str): the trimmed string is a hex colour. */
  predicate IsHexString(s: JsString)
  {
    IsHexColor(Trim(s))
  }

  lemma HexDigitsOf(s: JsString)
    requires forall i | 0 <= i < |s| :: IsHexDigit(s[i])
    ensures AllDigitsOf(s, 16)
  {
  }

  /** The value of two hex digits. */
  lemma TwoDigitValue(s: JsString, radix: nat)
    requires |s| == 2 && AllDigitsOf(s, radix)
    ensures ValueOf(s, radix) == DigitValue(s[0]).value * radix + DigitValue(s[1]).value
  {
    var p := s[..1];
    assert p[..0] == [] && p[0] == s[0];
    assert ValueOf(p, radix) == ValueOf([], radix) * radix + DigitValue(s[0]).value;
    assert ValueOf(s, radix) == ValueOf(p, radix) * radix + DigitValue(s[1]).value;
  }

  /** The byte that the two hex digits of `d` starting at `i` make, as
      hexToRgb parses them (lemma ByteAtIsParseInt). */
  function ByteAt(d: JsString, i: nat): (v: nat)
    requires i + 2 <= |d| && IsHexDigit(d[i]) && IsHexDigit(d[i + 1])
    ensures v <= 255
  {
    DigitValue(d[i]).value * 16 + DigitValue(d[i + 1]).value
  }

  lemma ByteAtIsParseInt(d: JsString, i: nat)
    requires i + 2 <= |d| && IsHexDigit(d[i]) && IsHexDigit(d[i + 1])
    ensures AllDigitsOf(d[i..i + 2], 16) && ByteAt(d, i) == ValueOf(d[i..i + 2], 16)
  {
    TwoDigitValue(d[i..i + 2], 16);
  }

  /** The digits hexToRgb reads: the 3-digit form with every digit doubled,
      any other form as it is. */
  function ExpandedDigits(hex: JsString): (d: JsString)
    requires IsHexColor(hex)
    ensures |d| == 6 || |d| == 8
    ensures forall i | 0 <= i < |d| :: IsHexDigit(d[i])
  {
    var d := hex[1..];
    assert forall i | 0 <= i < |d| :: d[i] == hex[i + 1];
    if |d| == 3 then [d[0], d[0], d[1], d[1], d[2], d[2]] else d
  }

  predicate IsDigitF(c: CodeUnit)
  {
    c == Ch('f') || c == Ch('F')
  }

  /** hexToRgb(hex), for the strings its only caller has checked with
      isHexString (it strips one leading `#`). Every channel is a byte;
      alpha is 1 unless there are 8 digits, and then it is below 1 exactly
      when the last two digits are not `ff`. */
  function HexToRgb(hex: JsString): (c: Rgba)
    requires IsHexColor(hex)
    ensures 0 <= c.r <= 255 && 0 <= c.g <= 255 && 0 <= c.b <= 255
    ensures |hex| != 9 ==> c.a == 1.0
    ensures |hex| == 9 ==> 0.0 <= c.a <= 1.0 && (c.a < 1.0 <==> !(IsDigitF(hex[7]) && IsDigitF(hex[8])))
  {
    var d := ExpandedDigits(hex);
    if |d| == 8 then
      var alpha := ByteAt(d, 6);
      assert d[6] == hex[7] && d[7] == hex[8];
      Rgba(ByteAt(d, 0), ByteAt(d, 2), ByteAt(d, 4), alpha as real / 255.0)
    else
      Rgba(ByteAt(d, 0), ByteAt(d, 2), ByteAt(d, 4), 1.0)
  }

  /** The 3-digit shorthand means the 6-digit form with each digit doubled:
      each channel is 17 times its digit. */
  lemma HexShorthand(hex: JsString)
    requires IsHexColor(hex) && |hex| == 4
    ensures IsHexColor([hex[0], hex[1], hex[1], hex[2], hex[2], hex[3], hex[3]])
    ensures HexToRgb(hex) == HexToRgb([hex[0], hex[1], hex[1], hex[2], hex[2], hex[3], hex[3]])
    ensures HexToRgb(hex).r == 17 * DigitValue(hex[1]).value
    ensures HexToRgb(hex).g == 17 * DigitValue(hex[2]).value
    ensures HexToRgb(hex).b == 17 * DigitValue(hex[3]).value
  {
    var long := [hex[0], hex[1], hex[1], hex[2], hex[2], hex[3], hex[3]];
    var d := ExpandedDigits(hex);
    assert ExpandedDigits(long) == d;
  }

  /** Math.round */
  function Round(x: real): int
  {
    (x + 0.5).Floor
  }

  /** rgbToHex's digits of one channel: the last two units of `0` followed
      by the channel in hexadecimal. */
  function Hex2(n: int): JsString
  {
    var t := Str("0") + IntToString(n, 16);
    t[|t| - 2..]
  }

  /** For a byte, Hex2 is its two digits, the high one written even when zero. */
  lemma Hex2OfByte(n: int)
    requires 0 <= n <= 255
    ensures Hex2(n) == [DigitChar(n / 16), DigitChar(n % 16)]
  {
    var ds := ByteDigits(n);
    assert IntToString(n, 16) == ds;
    assert Str("0") == [DigitChar(0)];
    var t := Str("0") + ds;
    assert Hex2(n) == t[|t| - 2..];
    var pair := [DigitChar(n / 16), DigitChar(n % 16)];
    if n >= 16 {
      assert |t| == 3 && t[1..] == ds;
      assert t[|t| - 2..] == pair;
    } else {
      assert n / 16 == 0 && n % 16 == n;
      assert t == pair;
      assert t[|t| - 2..] == t;
    }
  }

  /** `n.toString(16)` of a byte: one digit below 16, else two. */
  lemma ByteDigits(n: int) returns (ds: JsString)
    requires 0 <= n <= 255
    ensures ds == NatDigits(n, 16)
    ensures n < 16 ==> ds == [DigitChar(n)]
    ensures n >= 16 ==> ds == [DigitChar(n / 16), DigitChar(n % 16)]
  {
    ds := NatDigits(n, 16);
    if n >= 16 {
      var q := n / 16;
      assert q < 16;
      assert ds == NatDigits(q, 16) + [DigitChar(n % 16)];
      assert NatDigits(q, 16) == [DigitChar(q)];
    }
  }

  /** The alpha digits rgbToHex appends: two for `Math.round(a * 255)` when
      `a < 1`, none otherwise. */
  function AlphaHex(a: Option<real>): JsString
  {
    if a.Some? && a.value < 1.0 then Hex2(AlphaToByte(a.value)) else []
  }

  /** `Math.round(a * 255)` */
  function AlphaToByte(a: real): int
  {
    Round(a * 255.0)
  }

  /** rgbToHex(r, g, b, a): `#`, two digits per channel and the alpha
      digits, all upper-cased. `a` is `None` for NaN (and no caller omits it). */
  function RgbToHex(r: int, g: int, b: int, a: Option<real>): JsString
  {
    ToUpperAscii(Str("#") + Hex2(r) + Hex2(g) + Hex2(b) + AlphaHex(a))
  }

  /** The two upper-case hex digits of a byte. */
  function HexByte(n: int): (u: JsString)
    requires 0 <= n <= 255
    ensures |u| == 2 && IsHexDigit(u[0]) && IsHexDigit(u[1]) && !IsLower(u[0]) && !IsLower(u[1])
    ensures ByteAt(u, 0) == n
  {
    var q, m := n / 16, n % 16;
    assert q < 16 && m < 16;
    UpperDigit(q);
    UpperDigit(m);
    UpperConcat([DigitChar(q)], [DigitChar(m)]);
    assert [DigitChar(q), DigitChar(m)] == [DigitChar(q)] + [DigitChar(m)];
    ToUpperAscii([DigitChar(q), DigitChar(m)])
  }

  /** An upper-cased digit is a hex digit, not lower-case, worth the digit. */
  lemma UpperDigit(q: nat)
    requires q < 16
    ensures var u := ToUpperAscii([DigitChar(q)]);
      |u| == 1 && IsHexDigit(u[0]) && !IsLower(u[0]) && DigitValue(u[0]) == Some(q)
  {
  }

  lemma UpperConcat(a: JsString, b: JsString)
    ensures ToUpperAscii(a + b) == ToUpperAscii(a) + ToUpperAscii(b)
  {
  }

  lemma UpperConcat5(a: JsString, b: JsString, c: JsString, d: JsString, e: JsString)
    ensures ToUpperAscii(a + b + c + d + e) ==
      ToUpperAscii(a) + ToUpperAscii(b) + ToUpperAscii(c) + ToUpperAscii(d) + ToUpperAscii(e)
  {
    UpperConcat(a + b + c + d, e);
    UpperConcat(a + b + c, d);
    UpperConcat(a + b, c);
    UpperConcat(a, b);
  }

  lemma UpperHex2(n: int)
    requires 0 <= n <= 255
    ensures ToUpperAscii(Hex2(n)) == HexByte(n)
  {
    Hex2OfByte(n);
  }

  lemma UpperHash()
    ensures ToUpperAscii(Str("#")) == Str("#")
  {
  }

  /** With `0 <= a < 1`, `Math.round(a * 255)` is a byte whose upper-cased
      digits are the alpha digits of rgbToHex. */
  lemma UpperAlphaHex(a: real)
    requires 0.0 <= a < 1.0
    ensures 0 <= AlphaToByte(a) <= 255
    ensures ToUpperAscii(AlphaHex(Some(a))) == HexByte(AlphaToByte(a))
  {
    UpperHex2(AlphaToByte(a));
  }

  /** rgbToHex's code units are `#` and the upper-case digits of every
      byte it writes. */
  lemma RgbToHexBytes(r: int, g: int, b: int, a: Option<real>)
    requires 0 <= r <= 255 && 0 <= g <= 255 && 0 <= b <= 255
    ensures RgbToHex(r, g, b, a) == Str("#") + HexByte(r) + HexByte(g) + HexByte(b) + ToUpperAscii(AlphaHex(a))
  {
    UpperConcat5(Str("#"), Hex2(r), Hex2(g), Hex2(b), AlphaHex(a));
    UpperHash();
    UpperHex2(r);
    UpperHex2(g);
    UpperHex2(b);
  }

  /** Two hex digits, neither of them lower-case. */
  predicate IsUpperPair(u: JsString)
  {
    |u| == 2 && IsHexDigit(u[0]) && IsHexDigit(u[1]) && !IsLower(u[0]) && !IsLower(u[1])
  }

  /** `#` and three pairs of upper-case hex digits is a hex colour that
      hexToRgb reads pair by pair, with alpha 1. */
  lemma ReadSixDigits(hr: JsString, hg: JsString, hb: JsString)
    requires IsUpperPair(hr) && IsUpperPair(hg) && IsUpperPair(hb)
    ensures var hex := Str("#") + hr + hg + hb;
      |hex| == 7 && IsHexColor(hex) && (forall i | 1 <= i < 7 :: !IsLower(hex[i])) &&
      HexToRgb(hex) == Rgba(ByteAt(hr, 0), ByteAt(hg, 0), ByteAt(hb, 0), 1.0)
  {
    var hex := Str("#") + hr + hg + hb;
    assert hex[1..] == hr + hg + hb;
    var d := ExpandedDigits(hex);
    assert d[0] == hr[0] && d[1] == hr[1] && d[2] == hg[0] && d[3] == hg[1] && d[4] == hb[0] && d[5] == hb[1];
  }

  /** With a fourth pair, the hex colour has eight digits and the fourth
      pair is the alpha byte. */
  lemma ReadEightDigits(hr: JsString, hg: JsString, hb: JsString, ha: JsString)
    requires IsUpperPair(hr) && IsUpperPair(hg) && IsUpperPair(hb) && IsUpperPair(ha)
    ensures var hex := Str("#") + hr + hg + hb + ha;
      |hex| == 9 && IsHexColor(hex) &&
      HexToRgb(hex) == Rgba(ByteAt(hr, 0), ByteAt(hg, 0), ByteAt(hb, 0), ByteAt(ha, 0) as real / 255.0)
  {
    var hex := Str("#") + hr + hg + hb + ha;
    assert hex[1..] == hr + hg + hb + ha;
    var d := ExpandedDigits(hex);
    assert d[0] == hr[0] && d[1] == hr[1] && d[2] == hg[0] && d[3] == hg[1] && d[4] == hb[0] && d[5] == hb[1];
    assert d[6] == ha[0] && d[7] == ha[1];
  }

  /** With byte channels and no alpha below 1, rgbToHex writes `#` and
      exactly six upper-case hex digits, a string isHexString accepts and
      hexToRgb reads back as the same channels with alpha 1. */
  lemma RgbToHexRoundTrip(r: int, g: int, b: int, a: Option<real>)
    requires 0 <= r <= 255 && 0 <= g <= 255 && 0 <= b <= 255
    requires a.None? || a.value >= 1.0
    ensures |RgbToHex(r, g, b, a)| == 7 && IsHexColor(RgbToHex(r, g, b, a))
    ensures forall i | 1 <= i < 7 :: !IsLower(RgbToHex(r, g, b, a)[i])
    ensures HexToRgb(RgbToHex(r, g, b, a)) == Rgba(r, g, b, 1.0)
  {
    RgbToHexBytes(r, g, b, a);
    assert AlphaHex(a) == [];
    ReadSixDigits(HexByte(r), HexByte(g), HexByte(b));
  }

  /** With an alpha in [0, 1), rgbToHex writes eight digits; hexToRgb reads
      back the same channels and the alpha byte `Math.round(a * 255)`. */
  lemma RgbToHexWithAlpha(r: int, g: int, b: int, a: real)
    requires 0 <= r <= 255 && 0 <= g <= 255 && 0 <= b <= 255
    requires 0.0 <= a < 1.0
    ensures |RgbToHex(r, g, b, Some(a))| == 9 && IsHexColor(RgbToHex(r, g, b, Some(a)))
    ensures HexToRgb(RgbToHex(r, g, b, Some(a))) == Rgba(r, g, b, AlphaToByte(a) as real / 255.0)
  {
    UpperAlphaHex(a);
    var k := AlphaToByte(a);
    RgbToHexBytes(r, g, b, Some(a));
    var hex := Str("#") + HexByte(r) + HexByte(g) + HexByte(b) + HexByte(k);
    assert RgbToHex(r, g, b, Some(a)) == hex;
    ReadEightDigits(HexByte(r), HexByte(g), HexByte(b), HexByte(k));
  }

  /** Writing a hex digit's value back as a digit and upper-casing it gives
      the digit upper-cased. */
  lemma UpperDigitOf(c: CodeUnit)
    requires IsHexDigit(c)
    ensures DigitValue(c).Some? && DigitValue(c).value < 16
    ensures ToUpperAscii([DigitChar(DigitValue(c).value)]) == ToUpperAscii([c])
  {
  }

  /** The upper-case digits of the byte two hex digits make are those two
      digits upper-cased. */
  lemma HexByteOfPair(d: JsString, i: nat)
    requires i + 2 <= |d| && IsHexDigit(d[i]) && IsHexDigit(d[i + 1])
    ensures HexByte(ByteAt(d, i)) == ToUpperAscii(d[i..i + 2])
  {
    var n := ByteAt(d, i);
    UpperDigitOf(d[i]);
    UpperDigitOf(d[i + 1]);
    assert n / 16 == DigitValue(d[i]).value && n % 16 == DigitValue(d[i + 1]).value;
    UpperConcat([DigitChar(n / 16)], [DigitChar(n % 16)]);
    assert [DigitChar(n / 16), DigitChar(n % 16)] == [DigitChar(n / 16)] + [DigitChar(n % 16)];
    UpperConcat([d[i]], [d[i + 1]]);
    assert d[i..i + 2] == [d[i]] + [d[i + 1]];
  }

  /** The alpha byte hexToRgb divides by 255 is what rgbToHex multiplies
      back and rounds. */
  lemma AlphaByteBack(k: nat)
    requires k <= 255
    ensures AlphaToByte(k as real / 255.0) == k
  {
    assert (k as real / 255.0) * 255.0 == k as real;
  }

  /** hexToRgb of six or eight digits reads the pairs in place. */
  lemma HexChannels(hex: JsString)
    requires IsHexColor(hex) && |hex| >= 7
    ensures var c := HexToRgb(hex); c.r == ByteAt(hex, 1) && c.g == ByteAt(hex, 3) && c.b == ByteAt(hex, 5)
    ensures |hex| == 9 ==> HexToRgb(hex).a == ByteAt(hex, 7) as real / 255.0
  {
    var d := ExpandedDigits(hex);
    assert forall i | 0 <= i < |d| :: d[i] == hex[i + 1];
  }

  /** Upper-casing `#` and the pairs one by one. */
  lemma UpperPairs(hex: JsString)
    requires (|hex| == 7 || |hex| == 9) && hex[0] == Ch('#')
    ensures ToUpperAscii(hex) == Str("#") + ToUpperAscii(hex[1..3]) + ToUpperAscii(hex[3..5]) + ToUpperAscii(hex[5..7]) +
      ToUpperAscii(hex[7..|hex|])
  {
    assert hex == Str("#") + hex[1..3] + hex[3..5] + hex[5..7] + hex[7..|hex|];
    UpperConcat5(Str("#"), hex[1..3], hex[3..5], hex[5..7], hex[7..|hex|]);
    UpperHash();
  }

  /** A six-digit hex colour comes back from hexToRgb and rgbToHex as
      itself, upper-cased. */
  lemma HexRoundTrip(hex: JsString)
    requires IsHexColor(hex) && |hex| == 7
    ensures var c := HexToRgb(hex); RgbToHex(c.r, c.g, c.b, Some(c.a)) == ToUpperAscii(hex)
  {
    var c := HexToRgb(hex);
    HexChannels(hex);
    assert AlphaHex(Some(c.a)) == hex[7..|hex|];
    RgbToHexBytes(c.r, c.g, c.b, Some(c.a));
    HexByteOfPair(hex, 1);
    HexByteOfPair(hex, 3);
    HexByteOfPair(hex, 5);
    UpperPairs(hex);
  }

  /** An eight-digit hex colour whose alpha pair is not `FF` comes back as
      itself, upper-cased, alpha pair included. */
  lemma HexRoundTripWithAlpha(hex: JsString)
    requires IsHexColor(hex) && |hex| == 9 && HexToRgb(hex).a < 1.0
    ensures var c := HexToRgb(hex); RgbToHex(c.r, c.g, c.b, Some(c.a)) == ToUpperAscii(hex)
  {
    var c := HexToRgb(hex);
    HexChannels(hex);
    RgbToHexBytes(c.r, c.g, c.b, Some(c.a));
    HexByteOfPair(hex, 1);
    HexByteOfPair(hex, 3);
    HexByteOfPair(hex, 5);
    AlphaPairBack(hex);
    UpperPairs(hex);
  }

  /** The alpha digits rgbToHex writes for the alpha hexToRgb read are the
      alpha pair, upper-cased. */
  lemma AlphaPairBack(hex: JsString)
    requires IsHexColor(hex) && |hex| == 9 && HexToRgb(hex).a < 1.0
    ensures ToUpperAscii(AlphaHex(Some(HexToRgb(hex).a))) == ToUpperAscii(hex[7..9])
  {
    HexChannels(hex);
    var k := ByteAt(hex, 7);
    AlphaByteBack(k);
    UpperAlphaHex(k as real / 255.0);
    HexByteOfPair(hex, 7);
  }


  /** An opaque alpha pair `FF` is dropped on the way back: the colour comes
      back as its first six digits, upper-cased. */
  lemma OpaqueAlphaDropped(hex: JsString)
    requires IsHexColor(hex) && |hex| == 9 && HexToRgb(hex).a == 1.0
    ensures var c := HexToRgb(hex); RgbToHex(c.r, c.g, c.b, Some(c.a)) == ToUpperAscii(hex[..7])
  {
    var c := HexToRgb(hex);
    var short := hex[..7];
    PrefixChannels(hex);
    HexRoundTrip(short);
  }

  /** The first six digits of an eight-digit colour are the same colour, opaque. */
  lemma PrefixChannels(hex: JsString)
    requires IsHexColor(hex) && |hex| == 9
    ensures IsHexColor(hex[..7])
    ensures var c := HexToRgb(hex); HexToRgb(hex[..7]) == Rgba(c.r, c.g, c.b, 1.0)
  {
    var short := hex[..7];
    assert forall i | 0 <= i < 7 :: short[i] == hex[i];
    assert IsHexColor(short);
    HexChannels(hex);
    HexChannels(short);
    assert ByteAt(short, 1) == ByteAt(hex, 1);
    assert ByteAt(short, 3) == ByteAt(hex, 3);
    assert ByteAt(short, 5) == ByteAt(hex, 5);
  }

  /** The three-digit shorthand comes back in its six-digit form. */
  lemma ShorthandWidens(hex: JsString)
    requires IsHexColor(hex) && |hex| == 4
    ensures var c := HexToRgb(hex);
      RgbToHex(c.r, c.g, c.b, Some(c.a)) == ToUpperAscii([hex[0], hex[1], hex[1], hex[2], hex[2], hex[3], hex[3]])
  {
    HexShorthand(hex);
    HexRoundTrip([hex[0], hex[1], hex[1], hex[2], hex[2], hex[3], hex[3]]);
  }

  // ---------------------------------------------------------------------
  // Functional notation: rgb(...), rgba(...), hsl(...), hsla(...)

  /** A code unit of the alpha argument: a decimal digit or `.`. */
  predicate IsAlphaUnit(c: CodeUnit)
  {
    IsDigit(c) || c == Ch('.')
  }

  /** The length of the longest prefix of `s` made of digits, or of digits
      and dots when `dots` is set. */
  function LeadingRun(s: JsString, dots: bool): (k: nat)
    ensures k <= |s|
    ensures forall i | 0 <= i < k :: if dots then IsAlphaUnit(s[i]) else IsDigit(s[i])
    ensures k < |s| ==> !(if dots then IsAlphaUnit(s[k]) else IsDigit(s[k]))
  {
    if s != [] && (if dots then IsAlphaUnit(s[0]) else IsDigit(s[0])) then 1 + LeadingRun(s[1..], dots) else 0
  }

  /** A prefix of a string split off, and what follows it. */
  datatype Cut = Cut(taken: JsString, rest: JsString)

  /** A one-to-three digit argument at the start of `s`. The regular
      expression backtracks inside the digit run only to find a digit where
      it needs white space, a comma, `%` or `)`, so it succeeds exactly when
      the whole run is one to three digits long. */
  function Group(s: JsString): (r: Option<Cut>)
    ensures r.Some? ==> 1 <= |r.value.taken| <= 3 && AllDigits(r.value.taken) && s == r.value.taken + r.value.rest
    ensures r.Some? ==> r.value.rest == [] || !IsDigit(r.value.rest[0])
  {
    var k := LeadingRun(s, false);
    if 1 <= k <= 3 then Some(Cut(s[..k], s[k..])) else None
  }

  /** `s` without its first code unit, when that is `c`. */
  function Expect(s: JsString, c: CodeUnit): Option<JsString>
  {
    if s != [] && s[0] == c then Some(s[1..]) else None
  }

  /** `s` without a leading `%`, when `percent` allows one. */
  function SkipPercent(s: JsString, percent: bool): JsString
  {
    if percent && s != [] && s[0] == Ch('%') then s[1..] else s
  }

  /** The arguments of a colour function: three digit groups and the
      optional alpha text. */
  datatype ColorArgs = ColorArgs(first: JsString, second: JsString, third: JsString, alpha: Option<JsString>)

  /** `name` (three lower-case letters) in either case at the start of `s`.
      Under the `i` flag a non-ASCII code unit never matches an ASCII letter. */
  predicate NameAt(s: JsString, name: JsString)
    requires |name| == 3
  {
    |s| >= 3 && forall i | 0 <= i < 3 :: s[i] == name[i] || s[i] as int + 32 == name[i] as int
  }

  /** White space, `)` and nothing after it. */
  predicate IsClosing(s: JsString)
  {
    TrimStart(s) == [Ch(')')]
  }

  /** The alpha text at the start of `a`: a non-empty run of digits and dots
      followed by the closing `)`. */
  function AlphaText(a: JsString): (r: Option<JsString>)
    ensures r.Some? ==> |r.value| >= 1 && forall i | 0 <= i < |r.value| :: IsAlphaUnit(r.value[i])
  {
    var k := LeadingRun(a, true);
    if k >= 1 && IsClosing(a[k..]) then Some(a[..k]) else None
  }

  /** What follows the third group: the closing `)`, or a comma, white
      space and the alpha text. */
  function Closing(tail: JsString): (r: Option<Option<JsString>>)
    ensures r.Some? && r.value.Some? ==> var a := r.value.value;
      |a| >= 1 && forall i | 0 <= i < |a| :: IsAlphaUnit(a[i])
  {
    if IsClosing(tail) then Some(None)
    else
      var comma :- Expect(TrimStart(tail), Ch(','));
      var a :- AlphaText(TrimStart(comma));
      Some(Some(a))
  }

  /** A comma with white space around it, then a digit group and, when
      `percent`, an optional `%`; the cut's rest is what follows the `%`. */
  function CommaGroup(s: JsString, percent: bool): (r: Option<Cut>)
    ensures r.Some? ==> 1 <= |r.value.taken| <= 3 && AllDigits(r.value.taken)
  {
    var comma :- Expect(TrimStart(s), Ch(','));
    var g :- Group(TrimStart(comma));
    Some(Cut(g.taken, SkipPercent(g.rest, percent)))
  }

  /** The text between `(` and the end: the three groups, separated by
      commas with white space around them (the last two each followed by an
      optional `%` when `percent`), then the closing part. */
  function Arguments(s: JsString, percent: bool): (r: Option<ColorArgs>)
    ensures r.Some? ==> 1 <= |r.value.first| <= 3 && AllDigits(r.value.first)
    ensures r.Some? ==> 1 <= |r.value.second| <= 3 && AllDigits(r.value.second)
    ensures r.Some? ==> 1 <= |r.value.third| <= 3 && AllDigits(r.value.third)
    ensures r.Some? && r.value.alpha.Some? ==> var a := r.value.alpha.value;
      |a| >= 1 && forall i | 0 <= i < |a| :: IsAlphaUnit(a[i])
  {
    var g1 :- Group(TrimStart(s));
    var g2 :- CommaGroup(g1.rest, percent);
    var g3 :- CommaGroup(g2.rest, percent);
    var alpha :- Closing(g3.rest);
    Some(ColorArgs(g1.taken, g2.taken, g3.taken, alpha))
  }

  /** The colour-function regular expression of isRgbString and parseRgb
      (`percent` false) or of isHslString and parseHsl (`percent` true), on a
      trimmed string `t`: the name in either case, an optional `a`, white
      space, `(` and the arguments. */
  function MatchArgs(t: JsString, name: JsString, percent: bool): (r: Option<ColorArgs>)
    requires |name| == 3
    ensures r.Some? ==> NameAt(t, name)
  {
    if !NameAt(t, name) then None
    else
      var afterName := if |t| > 3 && (t[3] == Ch('a') || t[3] == Ch('A')) then t[4..] else t[3..];
      var open :- Expect(TrimStart(afterName), Ch('('));
      Arguments(open, percent)
  }

  /** The match of isRgbString and parseRgb on `str.trim()`. */
  function MatchRgb(s: JsString): Option<ColorArgs>
  {
    MatchArgs(Trim(s), Str("rgb"), false)
  }

  /** The match of isHslString and parseHsl on `str.trim()`. */
  function MatchHsl(s: JsString): Option<ColorArgs>
  {
    MatchArgs(Trim(s), Str("hsl"), true)
  }

  /** `parseInt(group)` for a digit group. */
  function GroupValue(g: JsString): nat
    requires AllDigits(g)
  {
    DigitsOfDecimalDigits(g);
    ValueOf(g, 10)
  }

  /** isRgbString(str): the notation matches and every channel is at most 255. */
  predicate IsRgbString(s: JsString)
  {
    var m := MatchRgb(s);
    m.Some? && GroupValue(m.value.first) <= 255 && GroupValue(m.value.second) <= 255 &&
    GroupValue(m.value.third) <= 255
  }

  /** isHslString(str): the notation matches, the hue is at most 360 and the
      saturation and lightness at most 100. */
  predicate IsHslString(s: JsString)
  {
    var m := MatchHsl(s);
    m.Some? && GroupValue(m.value.first) <= 360 && GroupValue(m.value.second) <= 100 &&
    GroupValue(m.value.third) <= 100
  }

  /** The alpha of parseRgb and parseHsl: 1 when there is no alpha text,
      else `parseFloat` of it. */
  function AlphaOf(m: ColorArgs, host: Host): Option<real>
  {
    if m.alpha.None? then Some(1.0) else host.parseFloat(m.alpha.value)
  }

  /** parseRgb(str). Without a match the source dereferences null, so it is
      only called on strings isRgbString accepted. */
  function ParseRgb(s: JsString, host: Host): (c: ColorValue)
    requires MatchRgb(s).Some?
    ensures IsRgbString(s) ==> 0 <= c.c1 <= 255 && 0 <= c.c2 <= 255 && 0 <= c.c3 <= 255
    ensures MatchRgb(s).value.alpha.None? ==> c.a == Some(1.0)
  {
    var m := MatchRgb(s).value;
    ColorValue(GroupValue(m.first), GroupValue(m.second), GroupValue(m.third), AlphaOf(m, host))
  }

  /** parseHsl(str), only called on strings isHslString accepted. */
  function ParseHsl(s: JsString, host: Host): (c: ColorValue)
    requires MatchHsl(s).Some?
    ensures IsHslString(s) ==> 0 <= c.c1 <= 360 && 0 <= c.c2 <= 100 && 0 <= c.c3 <= 100
    ensures MatchHsl(s).value.alpha.None? ==> c.a == Some(1.0)
  {
    var m := MatchHsl(s).value;
    ColorValue(GroupValue(m.first), GroupValue(m.second), GroupValue(m.third), AlphaOf(m, host))
  }

  /** The first code unit of a matched colour function is the first letter
      of its name, in either case. */
  lemma MatchStart(t: JsString, name: JsString, percent: bool)
    requires |name| == 3 && MatchArgs(t, name, percent).Some?
    ensures t != [] && (t[0] == name[0] || t[0] as int + 32 == name[0] as int)
  {
  }

  /** The three notations are told apart by their first code unit (`#`,
      `r` or `R`, `h` or `H`), so no string is recognised as two of them. */
  lemma NotationsDisjoint(s: JsString)
    ensures !(IsHexString(s) && IsRgbString(s))
    ensures !(IsHexString(s) && IsHslString(s))
    ensures !(IsRgbString(s) && IsHslString(s))
  {
    var t := Trim(s);
    var rgb, hsl := Str("rgb"), Str("hsl");
    assert rgb[0] == Ch('r') && hsl[0] == Ch('h');
    if MatchRgb(s).Some? {
      MatchStart(t, rgb, false);
    }
    if MatchHsl(s).Some? {
      MatchStart(t, hsl, true);
    }
  }

  // ---------------------------------------------------------------------
  // The texts processColor prints

  /** The rgb line of a colour result: the three channels in decimal. */
  function RgbText(r: int, g: int, b: int): JsString
  {
    Str("rgb(") + Decimal(r) + Str(", ") + Decimal(g) + Str(", ") + Decimal(b) + Str(")")
  }

  /** The rgba line: the three channels in decimal and the alpha text. */
  function RgbaText(r: int, g: int, b: int, alpha: JsString): JsString
  {
    Str("rgba(") + Decimal(r) + Str(", ") + Decimal(g) + Str(", ") + Decimal(b) + Str(", ") + alpha + Str(")")
  }

  /** The hsl line: hue, then saturation and lightness as percentages. */
  function HslText(h: int, s: int, l: int): JsString
  {
    Str("hsl(") + Decimal(h) + Str(", ") + Decimal(s) + Str("%, ") + Decimal(l) + Str("%)")
  }

  /** The hsla line: the hsl line's three values and the alpha text. */
  function HslaText(h: int, s: int, l: int, alpha: JsString): JsString
  {
    Str("hsla(") + Decimal(h) + Str(", ") + Decimal(s) + Str("%, ") + Decimal(l) + Str("%, ") + alpha + Str(")")
  }

  // ---------------------------------------------------------------------
  // Printed texts read back

  lemma {:induction false} LeadingRunOf(d: JsString, rest: JsString, dots: bool)
    requires forall i | 0 <= i < |d| :: if dots then IsAlphaUnit(d[i]) else IsDigit(d[i])
    requires rest == [] || !(if dots then IsAlphaUnit(rest[0]) else IsDigit(rest[0]))
    ensures LeadingRun(d + rest, dots) == |d|
    decreases |d|
  {
    if d != [] {
      assert (d + rest)[1..] == d[1..] + rest;
      LeadingRunOf(d[1..], rest, dots);
    } else {
      assert d + rest == rest;
    }
  }

  /** The decimal text of a number below 1000 is a one-to-three digit group
      worth the number. */
  lemma DecimalGroup(n: int)
    requires 0 <= n <= 999
    ensures 1 <= |Decimal(n)| <= 3 && AllDigits(Decimal(n)) && GroupValue(Decimal(n)) == n
    ensures !IsWhiteSpace(Decimal(n)[0])
  {
    var d := NatDigits(n, 10);
    assert Decimal(n) == d;
    SmallDecimalWidth(n);
    DecimalDigitsAreDigits(d);
    ValueOfNatDigits(n, 10);
    assert GroupValue(d) == n;
    DigitIsNotSpace(d[0]);
  }

  lemma DigitIsNotSpace(c: CodeUnit)
    requires IsDigit(c)
    ensures !IsWhiteSpace(c)
  {
  }

  lemma GroupOf(d: JsString, rest: JsString)
    requires 1 <= |d| <= 3 && AllDigits(d)
    requires rest == [] || !IsDigit(rest[0])
    ensures Group(d + rest) == Some(Cut(d, rest))
  {
    LeadingRunOf(d, rest, false);
    assert (d + rest)[..|d|] == d && (d + rest)[|d|..] == rest;
  }

  lemma TrimStartKeeps(s: JsString)
    requires s == [] || !IsWhiteSpace(s[0])
    ensures TrimStart(s) == s
  {
  }

  /** `", "` before `t` is a comma, white space and then `t`. */
  lemma CommaOf(t: JsString)
    requires t == [] || !IsWhiteSpace(t[0])
    ensures Expect(TrimStart(Str(", ") + t), Ch(',')) == Some(Str(" ") + t)
    ensures TrimStart(Str(" ") + t) == t
  {
    var c := Str(", ") + t;
    assert c[0] == Ch(',');
    assert TrimStart(c) == c;
    assert c[1..] == Str(" ") + t;
    SpaceOf(t);
  }

  lemma SpaceOf(t: JsString)
    requires t == [] || !IsWhiteSpace(t[0])
    ensures TrimStart(Str(" ") + t) == t
  {
    var c := Str(" ") + t;
    assert IsWhiteSpace(c[0]);
    assert c[1..] == t;
    assert TrimStart(c) == TrimStart(t);
    TrimStartKeeps(t);
  }

  lemma ClosingParen()
    ensures Closing(Str(")")) == Some(None)
  {
  }

  lemma ClosingAlpha(x: JsString)
    requires |x| >= 1 && forall i | 0 <= i < |x| :: IsAlphaUnit(x[i])
    ensures Closing(Str(", ") + x + Str(")")) == Some(Some(x))
  {
    var rest := x + Str(")");
    var tail := Str(", ") + rest;
    assert Str(", ") + x + Str(")") == tail;
    assert tail[0] == Ch(',');
    assert TrimStart(tail) == tail;
    assert !IsClosing(tail);
    CommaOf(rest);
    assert Expect(TrimStart(tail), Ch(',')) == Some(Str(" ") + rest);
    assert TrimStart(Str(" ") + rest) == rest;
    AlphaTextOf(x);
  }

  /** An alpha text followed by `)` is read as that text. */
  lemma AlphaTextOf(x: JsString)
    requires |x| >= 1 && forall i | 0 <= i < |x| :: IsAlphaUnit(x[i])
    ensures AlphaText(x + Str(")")) == Some(x)
  {
    var close := Str(")");
    var rest := x + close;
    LeadingRunOf(x, close, true);
    assert rest[|x|..] == close && rest[..|x|] == x;
    assert IsClosing(close);
  }

  /** `", "`, a group `d` and its `%` (when `percent`), before `rest`. */
  lemma CommaGroupOf(d: JsString, p: JsString, rest: JsString, percent: bool)
    requires 1 <= |d| <= 3 && AllDigits(d)
    requires p == (if percent then Str("%") else [])
    requires rest != [] && !IsDigit(rest[0]) && rest[0] != Ch('%')
    ensures CommaGroup(Str(", ") + (d + (p + rest)), percent) == Some(Cut(d, rest))
  {
    var t := d + (p + rest);
    CommaOf(t);
    GroupOf(d, p + rest);
    assert SkipPercent(p + rest, percent) == rest;
  }

  /** `d1, d2<p>, d3<p>` and a closing part, as the argument matcher reads it. */
  lemma ArgumentsOf(d1: JsString, d2: JsString, d3: JsString, p: JsString, c: JsString, percent: bool,
                    alpha: Option<JsString>)
    requires 1 <= |d1| <= 3 && AllDigits(d1)
    requires 1 <= |d2| <= 3 && AllDigits(d2)
    requires 1 <= |d3| <= 3 && AllDigits(d3)
    requires p == (if percent then Str("%") else [])
    requires Closing(c) == Some(alpha) && c != [] && !IsDigit(c[0]) && c[0] != Ch('%')
    ensures Arguments(d1 + (Str(", ") + (d2 + (p + (Str(", ") + (d3 + (p + c)))))), percent) ==
      Some(ColorArgs(d1, d2, d3, alpha))
  {
    var r3 := Str(", ") + (d3 + (p + c));
    var r2 := Str(", ") + (d2 + (p + r3));
    var s := d1 + r2;
    TrimStartKeeps(s);
    GroupOf(d1, r2);
    assert r3[0] == Ch(',');
    CommaGroupOf(d2, p, r3, percent);
    CommaGroupOf(d3, p, c, percent);
  }

  lemma TrimKeeps(s: JsString)
    requires s != [] && !IsWhiteSpace(s[0]) && !IsWhiteSpace(s[|s| - 1])
    ensures Trim(s) == s
  {
    TrimStartKeeps(s);
  }

  /** A colour function written with its lower-case name, `(` or `a(`, and
      its arguments is matched on those arguments. */
  lemma NameThenArgs(name: JsString, open: JsString, args: JsString, percent: bool)
    requires |name| == 3
    requires open == [Ch('(')] || open == [Ch('a'), Ch('(')]
    ensures MatchArgs(name + open + args, name, percent) == Arguments(args, percent)
  {
    var t := name + open + args;
    NameAtItself(name, open + args);
    var paren := [Ch('(')] + args;
    if open == [Ch('(')] {
      assert t[3..] == paren;
    } else {
      assert t[3] == Ch('a') && t[4..] == paren;
    }
    OpenParen(args);
  }

  lemma NameAtItself(name: JsString, rest: JsString)
    requires |name| == 3
    ensures NameAt(name + rest, name)
  {
    assert (name + rest)[..3] == name;
  }

  lemma OpenParen(args: JsString)
    ensures Expect(TrimStart([Ch('(')] + args), Ch('(')) == Some(args)
  {
    var t := [Ch('(')] + args;
    TrimStartKeeps(t);
    assert t[1..] == args;
  }

  /** A concatenation of the printers' shape, regrouped as the matcher reads it. */
  lemma ThreeArguments(open: JsString, a: JsString, sep1: JsString, b: JsString, sep2: JsString, c: JsString,
                       p: JsString, close: JsString)
    requires sep2 == p + Str(", ") && |p| <= |close| && close == p + close[|p|..]
    ensures open + a + sep1 + b + sep2 + c + close ==
      open + (a + (sep1 + (b + (p + (Str(", ") + (c + (p + close[|p|..])))))))
  {
  }

  /** The same with an alpha argument after the third group. */
  lemma FourArguments(open: JsString, a: JsString, sep1: JsString, b: JsString, sep2: JsString, c: JsString,
                      sep3: JsString, alpha: JsString, close: JsString, p: JsString)
    requires sep2 == p + Str(", ") && sep3 == p + Str(", ")
    ensures open + a + sep1 + b + sep2 + c + sep3 + alpha + close ==
      open + (a + (sep1 + (b + (p + (Str(", ") + (c + (p + (Str(", ") + alpha + close))))))))
  {
  }

  /** A text made of a colour function's lower-case name, `(` or `a(`, and
      arguments the matcher reads as three groups and a closing part. */
  lemma PrintedMatches(name: JsString, open: JsString, d1: JsString, d2: JsString, d3: JsString,
                       p: JsString, c: JsString, percent: bool, alpha: Option<JsString>)
    requires |name| == 3
    requires open == [Ch('(')] || open == [Ch('a'), Ch('(')]
    requires 1 <= |d1| <= 3 && AllDigits(d1)
    requires 1 <= |d2| <= 3 && AllDigits(d2)
    requires 1 <= |d3| <= 3 && AllDigits(d3)
    requires p == (if percent then Str("%") else [])
    requires Closing(c) == Some(alpha) && c != [] && !IsDigit(c[0]) && c[0] != Ch('%')
    ensures MatchArgs(name + open + (d1 + (Str(", ") + (d2 + (p + (Str(", ") + (d3 + (p + c))))))), name, percent) ==
      Some(ColorArgs(d1, d2, d3, alpha))
  {
    ArgumentsOf(d1, d2, d3, p, c, percent, alpha);
    NameThenArgs(name, open, d1 + (Str(", ") + (d2 + (p + (Str(", ") + (d3 + (p + c)))))), percent);
  }

  /** The printed texts start with a letter and end with `)`, so trimming
      leaves them alone; they regroup as name, `(` or `a(`, and arguments. */
  lemma RgbTextShape(r: int, g: int, b: int)
    ensures Trim(RgbText(r, g, b)) == RgbText(r, g, b)
    ensures RgbText(r, g, b) == Str("rgb") + [Ch('(')] +
      (Decimal(r) + (Str(", ") + (Decimal(g) + ([] + (Str(", ") + (Decimal(b) + ([] + Str(")"))))))))
  {
    var t := RgbText(r, g, b);
    assert Str("rgb(") == Str("rgb") + [Ch('(')];
    ThreeArguments(Str("rgb("), Decimal(r), Str(", "), Decimal(g), Str(", "), Decimal(b), [], Str(")"));
    assert t[0] == Ch('r') && t[|t| - 1] == Ch(')');
    TrimKeeps(t);
  }

  lemma RgbaTextShape(r: int, g: int, b: int, alpha: JsString)
    ensures Trim(RgbaText(r, g, b, alpha)) == RgbaText(r, g, b, alpha)
    ensures RgbaText(r, g, b, alpha) == Str("rgb") + [Ch('a'), Ch('(')] +
      (Decimal(r) + (Str(", ") + (Decimal(g) + ([] + (Str(", ") + (Decimal(b) + ([] + (Str(", ") + alpha + Str(")")))))))))
  {
    var t := RgbaText(r, g, b, alpha);
    assert Str("rgba(") == Str("rgb") + [Ch('a'), Ch('(')];
    FourArguments(Str("rgba("), Decimal(r), Str(", "), Decimal(g), Str(", "), Decimal(b), Str(", "), alpha, Str(")"), []);
    assert t[0] == Ch('r') && t[|t| - 1] == Ch(')');
    TrimKeeps(t);
  }

  lemma HslTextShape(h: int, s: int, l: int)
    ensures Trim(HslText(h, s, l)) == HslText(h, s, l)
    ensures HslText(h, s, l) == Str("hsl") + [Ch('(')] +
      (Decimal(h) + (Str(", ") + (Decimal(s) + (Str("%") + (Str(", ") + (Decimal(l) + (Str("%") + Str(")"))))))))
  {
    var t := HslText(h, s, l);
    assert Str("hsl(") == Str("hsl") + [Ch('(')];
    assert Str("%, ") == Str("%") + Str(", ") && Str("%)") == Str("%") + Str(")");
    ThreeArguments(Str("hsl("), Decimal(h), Str(", "), Decimal(s), Str("%, "), Decimal(l), Str("%"), Str("%)"));
    assert Str("%)")[1..] == Str(")");
    assert t[0] == Ch('h') && t[|t| - 1] == Ch(')');
    TrimKeeps(t);
  }

  lemma HslaTextShape(h: int, s: int, l: int, alpha: JsString)
    ensures Trim(HslaText(h, s, l, alpha)) == HslaText(h, s, l, alpha)
    ensures HslaText(h, s, l, alpha) == Str("hsl") + [Ch('a'), Ch('(')] +
      (Decimal(h) + (Str(", ") + (Decimal(s) + (Str("%") + (Str(", ") + (Decimal(l) + (Str("%") + (Str(", ") + alpha + Str(")")))))))))
  {
    var t := HslaText(h, s, l, alpha);
    assert Str("hsla(") == Str("hsl") + [Ch('a'), Ch('(')];
    assert Str("%, ") == Str("%") + Str(", ");
    FourArguments(Str("hsla("), Decimal(h), Str(", "), Decimal(s), Str("%, "), Decimal(l), Str("%, "), alpha, Str(")"), Str("%"));
    assert t[0] == Ch('h') && t[|t| - 1] == Ch(')');
    TrimKeeps(t);
  }

  /** With channels in 0..255, the text `rgb(r, g, b)` that processColor
      prints is matched with those three decimal groups and no alpha. */
  lemma RgbTextMatches(r: int, g: int, b: int)
    requires 0 <= r <= 255 && 0 <= g <= 255 && 0 <= b <= 255
    ensures MatchRgb(RgbText(r, g, b)) == Some(ColorArgs(Decimal(r), Decimal(g), Decimal(b), None))
  {
    RgbTextShape(r, g, b);
    DecimalGroup(r);
    DecimalGroup(g);
    DecimalGroup(b);
    ClosingParen();
    PrintedMatches(Str("rgb"), [Ch('(')], Decimal(r), Decimal(g), Decimal(b), [], Str(")"), false, None);
  }

  /** With an alpha text of digits and dots, `rgba(r, g, b, alpha)` is
      matched with the three groups and that alpha text. */
  lemma RgbaTextMatches(r: int, g: int, b: int, alpha: JsString)
    requires 0 <= r <= 255 && 0 <= g <= 255 && 0 <= b <= 255
    requires |alpha| >= 1 && forall i | 0 <= i < |alpha| :: IsAlphaUnit(alpha[i])
    ensures MatchRgb(RgbaText(r, g, b, alpha)) == Some(ColorArgs(Decimal(r), Decimal(g), Decimal(b), Some(alpha)))
  {
    RgbaTextShape(r, g, b, alpha);
    DecimalGroup(r);
    DecimalGroup(g);
    DecimalGroup(b);
    var c := Str(", ") + alpha + Str(")");
    ClosingAlpha(alpha);
    assert c[0] == Ch(',');
    PrintedMatches(Str("rgb"), [Ch('a'), Ch('(')], Decimal(r), Decimal(g), Decimal(b), [], c, false, Some(alpha));
  }

  /** `hsl(h, s%, l%)` is matched with the three decimal groups and no alpha. */
  lemma HslTextMatches(h: int, s: int, l: int)
    requires 0 <= h <= 999 && 0 <= s <= 999 && 0 <= l <= 999
    ensures MatchHsl(HslText(h, s, l)) == Some(ColorArgs(Decimal(h), Decimal(s), Decimal(l), None))
  {
    HslTextShape(h, s, l);
    DecimalGroup(h);
    DecimalGroup(s);
    DecimalGroup(l);
    ClosingParen();
    PrintedMatches(Str("hsl"), [Ch('(')], Decimal(h), Decimal(s), Decimal(l), Str("%"), Str(")"), true, None);
  }

  /** `hsla(h, s%, l%, alpha)` is matched with the groups and the alpha text. */
  lemma HslaTextMatches(h: int, s: int, l: int, alpha: JsString)
    requires 0 <= h <= 999 && 0 <= s <= 999 && 0 <= l <= 999
    requires |alpha| >= 1 && forall i | 0 <= i < |alpha| :: IsAlphaUnit(alpha[i])
    ensures MatchHsl(HslaText(h, s, l, alpha)) == Some(ColorArgs(Decimal(h), Decimal(s), Decimal(l), Some(alpha)))
  {
    HslaTextShape(h, s, l, alpha);
    DecimalGroup(h);
    DecimalGroup(s);
    DecimalGroup(l);
    var c := Str(", ") + alpha + Str(")");
    ClosingAlpha(alpha);
    assert c[0] == Ch(',');
    PrintedMatches(Str("hsl"), [Ch('a'), Ch('(')], Decimal(h), Decimal(s), Decimal(l), Str("%"), c, true, Some(alpha));
  }

  /** isRgbString accepts `rgb(r, g, b)` for byte channels and parseRgb
      reads them back with alpha 1. */
  lemma RgbTextParses(r: int, g: int, b: int, host: Host)
    requires 0 <= r <= 255 && 0 <= g <= 255 && 0 <= b <= 255
    ensures IsRgbString(RgbText(r, g, b))
    ensures ParseRgb(RgbText(r, g, b), host) == ColorValue(r, g, b, Some(1.0))
  {
    RgbTextMatches(r, g, b);
    DecimalGroup(r);
    DecimalGroup(g);
    DecimalGroup(b);
  }

  /** The same for `rgba(r, g, b, alpha)`: the alpha is parseFloat of the text. */
  lemma RgbaTextParses(r: int, g: int, b: int, alpha: JsString, host: Host)
    requires 0 <= r <= 255 && 0 <= g <= 255 && 0 <= b <= 255
    requires |alpha| >= 1 && forall i | 0 <= i < |alpha| :: IsAlphaUnit(alpha[i])
    ensures IsRgbString(RgbaText(r, g, b, alpha))
    ensures ParseRgb(RgbaText(r, g, b, alpha), host) == ColorValue(r, g, b, host.parseFloat(alpha))
  {
    RgbaTextMatches(r, g, b, alpha);
    DecimalGroup(r);
    DecimalGroup(g);
    DecimalGroup(b);
  }

  /** isHslString accepts `hsl(h, s%, l%)` for a hue up to 360 and a
      saturation and lightness up to 100, and parseHsl reads them back. */
  lemma HslTextParses(h: int, s: int, l: int, host: Host)
    requires 0 <= h <= 360 && 0 <= s <= 100 && 0 <= l <= 100
    ensures IsHslString(HslText(h, s, l))
    ensures ParseHsl(HslText(h, s, l), host) == ColorValue(h, s, l, Some(1.0))
  {
    HslTextMatches(h, s, l);
    DecimalGroup(h);
    DecimalGroup(s);
    DecimalGroup(l);
  }

  lemma HslaTextParses(h: int, s: int, l: int, alpha: JsString, host: Host)
    requires 0 <= h <= 360 && 0 <= s <= 100 && 0 <= l <= 100
    requires |alpha| >= 1 && forall i | 0 <= i < |alpha| :: IsAlphaUnit(alpha[i])
    ensures IsHslString(HslaText(h, s, l, alpha))
    ensures ParseHsl(HslaText(h, s, l, alpha), host) == ColorValue(h, s, l, host.parseFloat(alpha))
  {
    HslaTextMatches(h, s, l, alpha);
    DecimalGroup(h);
    DecimalGroup(s);
    DecimalGroup(l);
  }

  // ---------------------------------------------------------------------
  // processColor

  /** `a < 1` on a parsed alpha; false for NaN. */
  predicate BelowOne(a: Option<real>)
  {
    a.Some? && a.value < 1.0
  }

  /** The second line a colour result gets when the alpha is below 1. */
  function AlphaLine(below: bool, line: JsString): JsString
  {
    if below then Str("\n") + line else []
  }

  /** An rgb(...) line, and an rgba(...) line below it when `below`. */
  function RgbLines(r: int, g: int, b: int, below: bool, alpha: JsString): JsString
  {
    RgbText(r, g, b) + AlphaLine(below, RgbaText(r, g, b, alpha))
  }

  /** An hsl(...) line, and an hsla(...) line below it when `below`. */
  function HslLines(h: int, s: int, l: int, below: bool, alpha: JsString): JsString
  {
    HslText(h, s, l) + AlphaLine(below, HslaText(h, s, l, alpha))
  }

  /** The alpha text of a parsed alpha, `toFixed(2)` of it. */
  function FixedAlpha(a: Option<real>, host: Host): JsString
  {
    if a.Some? then host.toFixed2(a.value) else []
  }

  function ColorResult(title: Key, content: JsString, host: Host): ConversionResult
  {
    ConversionResult(Color, host.tr(title), content, false)
  }

  /** The two results of a hex colour `hex`. */
  function HexColorResults(hex: JsString, host: Host): (r: seq<ConversionResult>)
    requires IsHexColor(hex)
    ensures IsColorPair(r)
  {
    var c := HexToRgb(hex);
    var hsl := host.rgbToHsl(c.r, c.g, c.b);
    var alpha := host.toFixed2(c.a);
    [ColorResult(HexToRgbTitle, RgbLines(c.r, c.g, c.b, c.a < 1.0, alpha), host),
     ColorResult(HexToHslTitle, HslLines(hsl.h, hsl.s, hsl.l, c.a < 1.0, alpha), host)]
  }

  /** The two results of an rgb(...) or rgba(...) text `t`. */
  function RgbColorResults(t: JsString, host: Host): (r: seq<ConversionResult>)
    requires MatchRgb(t).Some?
    ensures IsColorPair(r)
  {
    var v := ParseRgb(t, host);
    var hsl := host.rgbToHsl(v.c1, v.c2, v.c3);
    [ColorResult(RgbToHexTitle, RgbToHex(v.c1, v.c2, v.c3, v.a), host),
     ColorResult(RgbToHslTitle, HslLines(hsl.h, hsl.s, hsl.l, BelowOne(v.a), FixedAlpha(v.a, host)), host)]
  }

  /** The two results of an hsl(...) or hsla(...) text `t`. */
  function HslColorResults(t: JsString, host: Host): (r: seq<ConversionResult>)
    requires MatchHsl(t).Some?
    ensures IsColorPair(r)
  {
    var v := ParseHsl(t, host);
    var rgb := host.hslToRgb(v.c1, v.c2, v.c3);
    [ColorResult(HslToHexTitle, RgbToHex(rgb.r, rgb.g, rgb.b, v.a), host),
     ColorResult(HslToRgbTitle, RgbLines(rgb.r, rgb.g, rgb.b, BelowOne(v.a), FixedAlpha(v.a, host)), host)]
  }

  /** processColor trims the trimmed input again, which changes nothing. */
  lemma TrimmedTests(input: JsString)
    ensures IsHexString(Trim(input)) == IsHexString(input) && IsHexColor(Trim(Trim(input))) == IsHexColor(Trim(input))
    ensures MatchRgb(Trim(input)) == MatchRgb(input) && MatchHsl(Trim(input)) == MatchHsl(input)
    ensures IsRgbString(Trim(input)) == IsRgbString(input) && IsHslString(Trim(input)) == IsHslString(input)
  {
    TrimIdempotent(input);
  }

  /** Two colour results, neither highlighted. */
  predicate IsColorPair(r: seq<ConversionResult>)
  {
    |r| == 2 && r[0].category == Color && r[1].category == Color && !r[0].needsHighlight && !r[1].needsHighlight
  }

  /** What processColor appends to `results` for `input`: two colour results
      when the trimmed input is a hex, rgb or hsl colour (tried in that
      order), nothing otherwise. */
  function ColorResults(input: JsString, host: Host): seq<ConversionResult>
  {
    var t := Trim(input);
    TrimmedTests(input);
    if IsHexString(t) then HexColorResults(t, host)
    else if IsRgbString(t) then RgbColorResults(t, host)
    else if IsHslString(t) then HslColorResults(t, host)
    else []
  }

  /** processColor adds two colour results exactly when the trimmed input
      is one of the three notations, and nothing for any other input. */
  lemma ColorResultsShape(input: JsString, host: Host)
    ensures var r := ColorResults(input, host);
      (r == [] || IsColorPair(r)) &&
      (r != [] <==> IsHexString(input) || IsRgbString(input) || IsHslString(input))
  {
    TrimmedTests(input);
  }

  /** processColor(input, results): pushes the colour results onto
      `results` and says whether the input was a colour. */
  method ProcessColor(input: JsString, host: Host, results: JsArray<ConversionResult>) returns (handled: bool)
    modifies results
    ensures results.items == old(results.items) + ColorResults(input, host)
    ensures handled <==> ColorResults(input, host) != []
  {
    var trimmed := Trim(input);
    TrimmedTests(input);
    if IsHexString(trimmed) {
      PushHexResults(trimmed, host, results);
      return true;
    }
    if IsRgbString(trimmed) {
      PushRgbResults(trimmed, host, results);
      return true;
    }
    if IsHslString(trimmed) {
      PushHslResults(trimmed, host, results);
      return true;
    }
    return false;
  }

  /** The hex branch of processColor. */
  method PushHexResults(trimmed: JsString, host: Host, results: JsArray<ConversionResult>)
    requires IsHexColor(trimmed)
    modifies results
    ensures results.items == old(results.items) + HexColorResults(trimmed, host)
  {
    var rgb := HexToRgb(trimmed);
    var hsl := host.rgbToHsl(rgb.r, rgb.g, rgb.b);
    var alpha := host.toFixed2(rgb.a);
    var x := ColorResult(HexToRgbTitle, RgbLines(rgb.r, rgb.g, rgb.b, rgb.a < 1.0, alpha), host);
    var y := ColorResult(HexToHslTitle, HslLines(hsl.h, hsl.s, hsl.l, rgb.a < 1.0, alpha), host);
    assert HexColorResults(trimmed, host) == [x, y];
    results.Push(x);
    results.Push(y);
  }

  /** The rgb branch of processColor. */
  method PushRgbResults(trimmed: JsString, host: Host, results: JsArray<ConversionResult>)
    requires MatchRgb(trimmed).Some?
    modifies results
    ensures results.items == old(results.items) + RgbColorResults(trimmed, host)
  {
    var rgbVal := ParseRgb(trimmed, host);
    var hexVal := RgbToHex(rgbVal.c1, rgbVal.c2, rgbVal.c3, rgbVal.a);
    var hslVal := host.rgbToHsl(rgbVal.c1, rgbVal.c2, rgbVal.c3);
    results.Push(ColorResult(RgbToHexTitle, hexVal, host));
    results.Push(ColorResult(RgbToHslTitle,
      HslLines(hslVal.h, hslVal.s, hslVal.l, BelowOne(rgbVal.a), FixedAlpha(rgbVal.a, host)), host));
  }

  /** The hsl branch of processColor. */
  method PushHslResults(trimmed: JsString, host: Host, results: JsArray<ConversionResult>)
    requires MatchHsl(trimmed).Some?
    modifies results
    ensures results.items == old(results.items) + HslColorResults(trimmed, host)
  {
    var hslVal2 := ParseHsl(trimmed, host);
    var rgbVal2 := host.hslToRgb(hslVal2.c1, hslVal2.c2, hslVal2.c3);
    var hexVal2 := RgbToHex(rgbVal2.r, rgbVal2.g, rgbVal2.b, hslVal2.a);
    results.Push(ColorResult(HslToHexTitle, hexVal2, host));
    results.Push(ColorResult(HslToRgbTitle,
      RgbLines(rgbVal2.r, rgbVal2.g, rgbVal2.b, BelowOne(hslVal2.a), FixedAlpha(hslVal2.a, host)), host));
  }

  // ---------------------------------------------------------------------
  // The results read back

  /** processColor on a trimmed hex colour with alpha 1: its rgb(...) result
      is accepted by isRgbString and parses to hexToRgb's channels. */
  lemma HexResultParses(t: JsString, host: Host)
    requires Trim(t) == t && IsHexString(t) && HexToRgb(t).a == 1.0
    ensures var r := ColorResults(t, host); var c := HexToRgb(t);
      |r| == 2 && r[0].content == RgbText(c.r, c.g, c.b) && IsRgbString(r[0].content) &&
      ParseRgb(r[0].content, host) == ColorValue(c.r, c.g, c.b, Some(1.0))
  {
    var c := HexToRgb(t);
    assert ColorResults(t, host) == HexColorResults(t, host);
    assert RgbLines(c.r, c.g, c.b, false, host.toFixed2(c.a)) == RgbText(c.r, c.g, c.b);
    RgbTextParses(c.r, c.g, c.b, host);
  }

  /** processColor on a trimmed rgb(...) text whose alpha is absent or not
      below 1: its HEX result is a 6-digit hex colour that hexToRgb reads as
      the parsed channels. */
  lemma RgbResultReadsBack(t: JsString, host: Host)
    requires Trim(t) == t && IsRgbString(t)
    requires !BelowOne(ParseRgb(t, host).a)
    ensures var r := ColorResults(t, host); var v := ParseRgb(t, host);
      |r| == 2 && |r[0].content| == 7 && IsHexColor(r[0].content) && IsHexString(r[0].content) &&
      HexToRgb(r[0].content) == Rgba(v.c1, v.c2, v.c3, 1.0)
  {
    var v := RgbBranch(t, host);
    RgbToHexRoundTrip(v.c1, v.c2, v.c3, v.a);
    HexKeeps(RgbToHex(v.c1, v.c2, v.c3, v.a));
  }

  /** With an alpha in [0, 1), the HEX result has eight digits and its last
      pair is `Math.round(a * 255)`. */
  lemma RgbResultReadsBackWithAlpha(t: JsString, host: Host)
    requires Trim(t) == t && IsRgbString(t)
    requires BelowOne(ParseRgb(t, host).a) && ParseRgb(t, host).a.value >= 0.0
    ensures var r := ColorResults(t, host); var v := ParseRgb(t, host);
      |r| == 2 && |r[0].content| == 9 && IsHexColor(r[0].content) && IsHexString(r[0].content) &&
      HexToRgb(r[0].content) == Rgba(v.c1, v.c2, v.c3, AlphaToByte(v.a.value) as real / 255.0)
  {
    var v := RgbBranch(t, host);
    AlphaHexReadsBack(ColorResults(t, host), v);
  }

  /** rgbToHex of byte channels and an alpha in [0, 1) is an eight-digit
      colour that hexToRgb reads back with the alpha rounded to a byte. */
  lemma AlphaHexReadsBack(r: seq<ConversionResult>, v: ColorValue)
    requires 0 <= v.c1 <= 255 && 0 <= v.c2 <= 255 && 0 <= v.c3 <= 255
    requires BelowOne(v.a) && v.a.value >= 0.0
    requires IsColorPair(r) && r[0].content == RgbToHex(v.c1, v.c2, v.c3, v.a)
    ensures |r| == 2 && |r[0].content| == 9 && IsHexColor(r[0].content) && IsHexString(r[0].content) &&
      HexToRgb(r[0].content) == Rgba(v.c1, v.c2, v.c3, AlphaToByte(v.a.value) as real / 255.0)
  {
    var a := v.a.value;
    assert v.a == Some(a);
    var hex := RgbToHex(v.c1, v.c2, v.c3, Some(a));
    RgbToHexWithAlpha(v.c1, v.c2, v.c3, a);
    var back := Rgba(v.c1, v.c2, v.c3, AlphaToByte(a) as real / 255.0);
    assert HexToRgb(hex) == back;
    HexKeeps(hex);
  }

  /** On a trimmed rgb(...) text processColor takes the rgb branch; its
      first result is rgbToHex of the parsed value `v`. */
  lemma RgbBranch(t: JsString, host: Host) returns (v: ColorValue)
    requires Trim(t) == t && IsRgbString(t)
    ensures v == ParseRgb(t, host)
    ensures ColorResults(t, host) == RgbColorResults(t, host)
    ensures ColorResults(t, host)[0].content == RgbToHex(v.c1, v.c2, v.c3, v.a)
  {
    v := ParseRgb(t, host);
    NotationsDisjoint(t);
  }

  /** A hex colour is its own trim. */
  lemma HexKeeps(hex: JsString)
    requires IsHexColor(hex)
    ensures Trim(hex) == hex && IsHexString(hex)
  {
    assert !IsWhiteSpace(hex[|hex| - 1]);
    TrimKeeps(hex);
  }

  /** On a trimmed hsl(...) text processColor takes the hsl branch. */
  lemma HslBranch(t: JsString, host: Host) returns (v: ColorValue, rgb: Rgb)
    requires Trim(t) == t && IsHslString(t)
    ensures v == ParseHsl(t, host) && rgb == host.hslToRgb(v.c1, v.c2, v.c3)
    ensures ColorResults(t, host) == HslColorResults(t, host)
    ensures ColorResults(t, host)[0].content == RgbToHex(rgb.r, rgb.g, rgb.b, v.a)
    ensures ColorResults(t, host)[1].content == RgbLines(rgb.r, rgb.g, rgb.b, BelowOne(v.a), FixedAlpha(v.a, host))
  {
    v := ParseHsl(t, host);
    rgb := host.hslToRgb(v.c1, v.c2, v.c3);
    NotationsDisjoint(t);
  }

  /** The two results of an hsl(...) text describe the same colour: when
      the alpha is absent or not below 1 and hslToRgb gives byte channels,
      the HEX result reads back, and the rgb(...) result parses, as the
      channels hslToRgb computed. */
  lemma HslResultsAgree(t: JsString, host: Host)
    requires Trim(t) == t && IsHslString(t)
    requires !BelowOne(ParseHsl(t, host).a)
    requires var v := ParseHsl(t, host); var c := host.hslToRgb(v.c1, v.c2, v.c3);
      0 <= c.r <= 255 && 0 <= c.g <= 255 && 0 <= c.b <= 255
    ensures var r := ColorResults(t, host); var v := ParseHsl(t, host); var c := host.hslToRgb(v.c1, v.c2, v.c3);
      |r| == 2 && IsHexColor(r[0].content) && HexToRgb(r[0].content) == Rgba(c.r, c.g, c.b, 1.0) &&
      IsRgbString(r[1].content) && ParseRgb(r[1].content, host) == ColorValue(c.r, c.g, c.b, Some(1.0))
  {
    var v, c := HslBranch(t, host);
    RgbToHexRoundTrip(c.r, c.g, c.b, v.a);
    assert RgbLines(c.r, c.g, c.b, false, FixedAlpha(v.a, host)) == RgbText(c.r, c.g, c.b);
    RgbTextParses(c.r, c.g, c.b, host);
  }
}
