/** The Base64 side of the converter: the shape heuristics `isValidBase64`
    and `isValidBase64Url`, the `=` padding loops, the JWT segments'
    translation from the URL-safe alphabet (section 5 of RFC 4648) to the
    standard one (section 4), and the "printable" test on decoded text. */
module Base64 {
  import opened JsStrings

  /** A letter, a digit, `+` or `/`: the alphabet of section 4 of RFC 4648. */
  predicate IsBase64Char(c: CodeUnit)
  {
    IsUpper(c) || IsLower(c) || IsDigit(c) || c == Ch('+') || c == Ch('/')
  }

  /** A letter, a digit, `-` or `_`: the URL-safe alphabet of section 5 of RFC 4648. */
  predicate IsBase64UrlChar(c: CodeUnit)
  {
    IsUpper(c) || IsLower(c) || IsDigit(c) || c == Ch('-') || c == Ch('_')
  }

  /** `s` without its trailing run of `=`. */
  function StripPadding(s: JsString): (r: JsString)
    ensures |r| <= |s| && r == s[..|r|]
    ensures forall i | |r| <= i < |s| :: s[i] == Ch('=')
    ensures r == [] || r[|r| - 1] != Ch('=')
  {
    if s != [] && s[|s| - 1] == Ch('=') then StripPadding(s[..|s| - 1]) else s
  }

  /** The shape test of `isValidBase64` (url = false) and
      `isValidBase64Url` (url = true): one or more units of the alphabet,
      then any number of `=`. `=` is in neither alphabet, so the only way to
      match is to take all the trailing `=` as the padding. */
  predicate AlphabetThenPadding(s: JsString, url: bool)
  {
    var body := StripPadding(s);
    |body| >= 1 &&
    forall i | 0 <= i < |body| :: if url then IsBase64UrlChar(body[i]) else IsBase64Char(body[i])
  }

  /** Some unit is a digit, `+` or `/`. */
  predicate HasDigitOrSpecial(s: JsString)
  {
    exists i | 0 <= i < |s| :: IsDigit(s[i]) || s[i] == Ch('+') || s[i] == Ch('/')
  }

  /** Some unit is a lower-case letter and some unit an upper-case one. */
  predicate HasMixedCase(s: JsString)
  {
    (exists i | 0 <= i < |s| :: IsLower(s[i])) && (exists j | 0 <= j < |s| :: IsUpper(s[j]))
  }

  /** `isValidBase64(str)` */
  predicate IsValidBase64(s: JsString)
  {
    AlphabetThenPadding(s, false) && |s| % 4 == 0 && |s| >= 8 &&
    (HasDigitOrSpecial(s) || (HasMixedCase(s) && |s| >= 16))
  }

  /** `isValidBase64Url(str)` */
  predicate IsValidBase64Url(s: JsString)
  {
    AlphabetThenPadding(s, true) && |s| >= 8
  }

  /** One direction of the shape test: accepted strings are over the
      alphabet, have `=` only as a trailing run, a length that is a multiple
      of 4 and at least 8, and a digit, `+` or `/` unless they are 16 or more
      units of mixed case. */
  lemma ValidBase64Shape(s: JsString)
    requires IsValidBase64(s)
    ensures |s| % 4 == 0 && |s| >= 8 && !IsBase64Char(Ch('=')) && IsBase64Char(s[0])
    ensures forall i | 0 <= i < |s| :: IsBase64Char(s[i]) || s[i] == Ch('=')
    ensures forall i, j | 0 <= i < j < |s| :: s[i] == Ch('=') ==> s[j] == Ch('=')
    ensures HasDigitOrSpecial(s) || (HasMixedCase(s) && |s| >= 16)
  {
    var body := StripPadding(s);
    assert forall i | 0 <= i < |body| :: s[i] == body[i];
  }

  /** The other direction: those conditions are enough. */
  lemma ValidBase64FromShape(s: JsString, k: nat)
    requires 1 <= k <= |s| && |s| % 4 == 0 && |s| >= 8
    requires forall i | 0 <= i < k :: IsBase64Char(s[i])
    requires forall i | k <= i < |s| :: s[i] == Ch('=')
    requires HasDigitOrSpecial(s) || (HasMixedCase(s) && |s| >= 16)
    ensures IsValidBase64(s)
  {
    StripPaddingOf(s, k);
  }

  /** One direction of the URL-safe shape test: accepted strings are at
      least 8 units over the URL-safe alphabet, with `=` only as a trailing
      run; no length multiple is asked for. */
  lemma ValidBase64UrlShape(s: JsString)
    requires IsValidBase64Url(s)
    ensures |s| >= 8 && !IsBase64UrlChar(Ch('=')) && IsBase64UrlChar(s[0])
    ensures forall i | 0 <= i < |s| :: IsBase64UrlChar(s[i]) || s[i] == Ch('=')
    ensures forall i, j | 0 <= i < j < |s| :: s[i] == Ch('=') ==> s[j] == Ch('=')
  {
    var body := StripPadding(s);
    assert forall i | 0 <= i < |body| :: s[i] == body[i];
  }

  /** The other direction: those conditions are enough for `isValidBase64Url`. */
  lemma ValidBase64UrlFromShape(s: JsString, k: nat)
    requires 1 <= k <= |s| && |s| >= 8
    requires forall i | 0 <= i < k :: IsBase64UrlChar(s[i])
    requires forall i | k <= i < |s| :: s[i] == Ch('=')
    ensures IsValidBase64Url(s)
  {
    StripPaddingOf(s, k);
  }

  lemma {:induction false} StripPaddingOf(s: JsString, k: nat)
    requires 1 <= k <= |s|
    requires forall i | 0 <= i < k :: s[i] != Ch('=')
    requires forall i | k <= i < |s| :: s[i] == Ch('=')
    ensures StripPadding(s) == s[..k]
    decreases |s|
  {
    if |s| > k {
      StripPaddingOf(s[..|s| - 1], k);
      assert s[..|s| - 1][..k] == s[..k];
    } else {
      assert s[..k] == s;
    }
  }

  /** An ordinary word is never taken for Base64: letters only and shorter
      than 16, or letters of a single case at any length. */
  lemma WordsAreNotBase64(s: JsString)
    requires forall i | 0 <= i < |s| :: IsUpper(s[i]) || IsLower(s[i])
    requires |s| < 16 || (forall i | 0 <= i < |s| :: IsLower(s[i])) || (forall i | 0 <= i < |s| :: IsUpper(s[i]))
    ensures !IsValidBase64(s)
  {
  }

  // ---------------------------------------------------------------------
  // Padding: `while (x.length % 4) x += '='`

  /** `s` followed by the fewest `=` that make its length a multiple of 4. */
  function PadToQuad(s: JsString): (r: JsString)
    ensures |r| % 4 == 0 && |s| <= |r| < |s| + 4 && r[..|s|] == s
    ensures forall i | |s| <= i < |r| :: r[i] == Ch('=')
  {
    s + seq((4 - |s| % 4) % 4, _ => Ch('='))
  }

  /** The padding loop of the JWT and Base64 branches. */
  method PadWithEquals(s: JsString) returns (padded: JsString)
    ensures padded == PadToQuad(s)
  {
    padded := s;
    while |padded| % 4 != 0
      invariant |s| <= |padded| && padded == s + seq(|padded| - |s|, _ => Ch('='))
      invariant (|padded| - |s|) + (4 - |padded| % 4) % 4 == (4 - |s| % 4) % 4
      decreases (4 - |padded| % 4) % 4
    {
      padded := padded + Str("=");
    }
  }

  /** The Base64 branch pads a string its shape test accepted, so its
      padding loop never adds anything. */
  lemma ValidBase64NeedsNoPadding(s: JsString)
    requires IsValidBase64(s)
    ensures PadToQuad(s) == s
  {
    assert seq((4 - |s| % 4) % 4, _ => Ch('=')) == [];
  }

  // ---------------------------------------------------------------------
  // JWT segments: every `-` becomes `+` and every `_` becomes `/`

  function ToStandardAlphabet(s: JsString): (r: JsString)
    ensures |r| == |s|
  {
    seq(|s|, i requires 0 <= i < |s| =>
      if s[i] == Ch('-') then Ch('+') else if s[i] == Ch('_') then Ch('/') else s[i])
  }

  /** The inverse translation, `+` to `-` and `/` to `_`. */
  function ToUrlAlphabet(s: JsString): (r: JsString)
    ensures |r| == |s|
  {
    seq(|s|, i requires 0 <= i < |s| =>
      if s[i] == Ch('+') then Ch('-') else if s[i] == Ch('/') then Ch('_') else s[i])
  }

  /** The translation takes a URL-safe Base64 text to a standard one with the
      same padding, and loses nothing: translating back gives the segment. */
  lemma UrlToStandardShape(s: JsString)
    requires AlphabetThenPadding(s, true)
    ensures AlphabetThenPadding(ToStandardAlphabet(s), false)
    ensures ToUrlAlphabet(ToStandardAlphabet(s)) == s
  {
    var body := StripPadding(s);
    var t := ToStandardAlphabet(s);
    assert forall i | 0 <= i < |body| :: s[i] == body[i];
    assert forall i | 0 <= i < |s| :: IsBase64UrlChar(s[i]) || s[i] == Ch('=');
    StripPaddingOf(t, |body|);
  }

  // ---------------------------------------------------------------------
  // The printable test of the Base64 branch: every code unit is printable
  // ASCII, a CJK ideograph from U+4E00 to U+9FA5, at or above U+0800, or
  // white space

  predicate IsPrintableUnit(c: CodeUnit)
  {
    (0x20 <= c <= 0x7E) || (0x4E00 <= c <= 0x9FA5) || (0x0800 <= c <= 0xFFFF) || IsWhiteSpace(c)
  }

  predicate IsPrintableText(s: JsString)
  {
    forall i | 0 <= i < |s| :: IsPrintableUnit(s[i])
  }

  /** What the printable test rejects: a control character other than white
      space, DEL, or anything from U+0080 to U+07FF except the white space
      among them (so Latin-1 letters such as U+00E9 make a decoded text
      "binary"). */
  lemma PrintableRejects(s: JsString, i: nat)
    requires i < |s| && !IsWhiteSpace(s[i])
    requires s[i] < 0x20 || (0x7F <= s[i] < 0x0800)
    ensures !IsPrintableText(s)
  {
  }
}
