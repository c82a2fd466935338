/** `process(input, settings)`: the early returns for an empty and for an
    over-long input, then each enabled detector in turn, every one of which
    may push results and errors onto the two arrays the call returns. */
module Pipeline {
  import opened Wrappers
  import opened JsStrings
  import opened Radix
  import opened Base64
  import opened Converter
  import opened Colors

  /** What one detector, or a run of them, pushes onto `results` and `errors`. */
  datatype Emitted = Emitted(results: seq<ConversionResult>, errors: seq<ConversionError>)
  {
    /** This, then what `next` pushes. */
    function Then(next: Emitted): Emitted
    {
      Emitted(results + next.results, errors + next.errors)
    }
  }

  const Nothing: Emitted := Emitted([], [])

  /** A detector that runs only when its flag is set. */
  function When(on: bool, e: Emitted): Emitted
  {
    if on then e else Nothing
  }

  function Entry(c: Category, title: Key, content: JsString, host: Host): ConversionResult
  {
    ConversionResult(c, host.tr(title), content, false)
  }

  function OneResult(c: Category, title: Key, content: JsString, host: Host): Emitted
  {
    Emitted([Entry(c, title, content, host)], [])
  }

  function OneError(c: Category, message: JsString): Emitted
  {
    Emitted([], [ConversionError(c, message)])
  }

  // ---------------------------------------------------------------------
  // Colour

  function ColorStep(t: JsString, host: Host): Emitted
  {
    Emitted(ColorResults(t, host), [])
  }

  // ---------------------------------------------------------------------
  // JSON

  /** The JSON detector's gate: the trimmed input starts with `{` or `[`. */
  predicate LooksLikeJson(t: JsString)
  {
    t != [] && (t[0] == Ch('{') || t[0] == Ch('['))
  }

  /** The formatted text when it differs from the input, the minified text
      when it differs from both; the parser's message when parsing fails. */
  function JsonStep(t: JsString, host: Host): Emitted
  {
    if !LooksLikeJson(t) then Nothing
    else
      match host.parseJson(t)
      case Err(message) => OneError(Json, host.tr(JsonParseFailed) + Str(": ") + message)
      case Ok(j) =>
        Emitted(
          (if j.pretty != t then [ConversionResult(Json, host.tr(JsonFormatTitle), j.pretty, true)] else []) +
          (if j.compact != t && j.compact != j.pretty then [Entry(Json, JsonMinifyTitle, j.compact, host)] else []),
          [])
  }

  // ---------------------------------------------------------------------
  // JWT

  /** Three non-empty parts between the dots. */
  predicate IsJwtShape(t: JsString)
  {
    var parts := Split(t, Ch('.'));
    |parts| == 3 && parts[0] != [] && parts[1] != [] && parts[2] != []
  }

  /** One segment decoded: URL-safe alphabet to the standard one, `=` padding,
      `Qt.atob`, then `JSON.parse`; `None` when either call throws. */
  function SegmentJson(segment: JsString, host: Host): Option<JsonText>
  {
    match host.atob(PadToQuad(ToStandardAlphabet(segment)))
    case None => None
    case Some(text) =>
      match host.parseJson(text)
      case Err(_) => None
      case Ok(j) => Some(j)
  }

  /** The content of a decoded token: header and payload, each pretty-printed
      under its heading. */
  function JwtText(header: JsonText, payload: JsonText, host: Host): JsString
  {
    Str("=== ") + host.tr(HeaderHeading) + Str(" ===\n") + header.pretty +
    Str("\n\n=== ") + host.tr(PayloadHeading) + Str(" ===\n") + payload.pretty
  }

  /** A token of three non-empty parts yields one highlighted result, or one
      error when header or payload does not decode; the signature is never
      looked at. */
  function JwtStep(t: JsString, host: Host): Emitted
  {
    if !IsJwtShape(t) then Nothing
    else
      var parts := Split(t, Ch('.'));
      var header := SegmentJson(parts[0], host);
      var payload := SegmentJson(parts[1], host);
      if header.Some? && payload.Some? then
        Emitted([ConversionResult(Jwt, host.tr(JwtDecodeTitle), JwtText(header.value, payload.value, host), true)], [])
      else OneError(Jwt, host.tr(JwtParseFailed))
  }

  // ---------------------------------------------------------------------
  // Timestamps

  /** A date result when `ms` is a valid time value; `new Date(ms)` is
      invalid (NaN) beyond TimeClip's range. */
  function DateResult(ms: int, title: Key, host: Host): Emitted
  {
    if -(MaxTimeValue as int) <= ms <= MaxTimeValue then OneResult(Timestamp, title, host.formatDate(ms), host)
    else Nothing
  }

  /** All-digit input of 9 to 11 digits read as seconds, of 12 to 14 digits
      as milliseconds; `Number` is exact on so few digits. */
  function TimestampStep(t: JsString, host: Host): Emitted
  {
    if !IsDigitString(t) then Nothing
    else
      DigitsOfDecimalDigits(t);
      var num := ValueOf(t, 10);
      if MinSecondsLength <= |t| <= MaxSecondsLength then DateResult(num * 1000, SecondsToDateTitle, host)
      else if MinMsLength <= |t| <= MaxMsLength then DateResult(num, MillisToDateTitle, host)
      else Nothing
  }

  /** A unit that hints at a date: `-`, `/`, `:`, white space or `T`. */
  predicate IsDateSeparator(c: CodeUnit)
  {
    c == Ch('-') || c == Ch('/') || c == Ch(':') || IsWhiteSpace(c) || c == Ch('T')
  }

  /** The date detector's gate: a separator somewhere, and not all digits. */
  predicate MayBeDate(t: JsString)
  {
    (exists i | 0 <= i < |t| :: IsDateSeparator(t[i])) && !IsDigitString(t)
  }

  /** `Date.parse` of the input, in whole seconds (rounded down) and in
      milliseconds; nothing when it is NaN. */
  function DateStep(t: JsString, host: Host): Emitted
  {
    if !MayBeDate(t) then Nothing
    else
      match host.parseDate(t)
      case None => Nothing
      case Some(ms) =>
        Emitted([Entry(Timestamp, DateToSecondsTitle, Decimal(ms / 1000), host),
                 Entry(Timestamp, DateToMillisTitle, Decimal(ms), host)], [])
  }

  // ---------------------------------------------------------------------
  // URL decoding

  function UrlDecodeStep(t: JsString, host: Host): Emitted
  {
    if Ch('%') !in t then Nothing
    else
      match host.decodeUri(t)
      case None => OneError(Url, host.tr(UrlDecodeFailed))
      case Some(d) => if d != t then OneResult(Url, UrlDecodeTitle, d, host) else Nothing
  }

  // ---------------------------------------------------------------------
  // Base64

  /** Whether the Base64 detector decoded `t` to printable text. */
  predicate Base64Decodes(t: JsString, host: Host)
  {
    IsValidBase64(t) && host.atob(PadToQuad(t)).Some? &&
    var d := host.atob(PadToQuad(t)).value; IsPrintableText(d) && |d| > 0
  }

  function Base64DecodeStep(t: JsString, host: Host): Emitted
  {
    if !IsValidBase64(t) then Nothing
    else
      match host.atob(PadToQuad(t))
      case None => OneError(Base64Text, host.tr(Base64DecodeFailed))
      case Some(d) => if IsPrintableText(d) && |d| > 0 then OneResult(Base64Text, Base64DecodeTitle, d, host) else Nothing
  }

  /** Encoding the untrimmed input, unless the decoder already produced a
      result. */
  function Base64EncodeStep(input: JsString, decoded: bool, host: Host): Emitted
  {
    if decoded then Nothing
    else
      var e := host.btoa(input);
      if e != input then OneResult(Base64Text, Base64EncodeTitle, e, host) else Nothing
  }

  // ---------------------------------------------------------------------
  // URL encoding

  /** A word character, `-`, `.` or `~`: the units the URL-encode branch treats as safe. */
  predicate IsUnreserved(c: CodeUnit)
  {
    IsWordChar(c) || c == Ch('-') || c == Ch('.') || c == Ch('~')
  }

  predicate NeedsUrlEncode(s: JsString)
  {
    exists i | 0 <= i < |s| :: !IsUnreserved(s[i])
  }

  /** The URL encoder as written: `encodeURIComponent` is called outside any
      `try`, so when it throws, `None`, the exception leaves `process`. */
  function UrlEncodeStepAsWritten(input: JsString, host: Host): Option<Emitted>
  {
    if !NeedsUrlEncode(input) then Some(Nothing)
    else
      match host.encodeUri(input)
      case None => None
      case Some(e) => Some(if e != input then OneResult(Url, UrlEncodeTitle, e, host) else Nothing)
  }

  /** The URL encoder with its failure reported like the decoder's. */
  function UrlEncodeStep(input: JsString, host: Host): Emitted
  {
    if !NeedsUrlEncode(input) then Nothing
    else
      match host.encodeUri(input)
      case None => OneError(Url, host.tr(UrlEncodeFailed))
      case Some(e) => if e != input then OneResult(Url, UrlEncodeTitle, e, host) else Nothing
  }

  // ---------------------------------------------------------------------
  // Numbers

  /** A signed integer literal as the number detector reads it. */
  datatype NumberLiteral = NumberLiteral(negative: bool, base: nat, magnitude: nat)

  /** `0` and the base letter, in either case. */
  predicate IsRadixPrefix(a: JsString, lower: CodeUnit, upper: CodeUnit)
  {
    |a| >= 2 && a[0] == Ch('0') && (a[1] == lower || a[1] == upper)
  }

  /** A base prefix followed by at least one digit of `radix`. */
  predicate IsPrefixed(a: JsString, lower: CodeUnit, upper: CodeUnit, radix: nat)
  {
    |a| >= 3 && IsRadixPrefix(a, lower, upper) && AllDigitsOf(a[2..], radix)
  }

  /** The detector's reading of the trimmed input: an optional minus, then
      a hexadecimal, binary or octal literal with its prefix, or decimal
      digits (the outer pattern accepts exactly the inputs one of the four
      inner patterns accepts after the minus); `parseInt` of the digits. */
  function ReadNumber(t: JsString): (r: Option<NumberLiteral>)
    ensures r.Some? ==> r.value.base in {2, 8, 10, 16}
  {
    var negative := t != [] && t[0] == Ch('-');
    var a := if negative then t[1..] else t;
    if IsPrefixed(a, Ch('x'), Ch('X'), 16) then Some(NumberLiteral(negative, 16, ValueOf(a[2..], 16)))
    else if IsPrefixed(a, Ch('b'), Ch('B'), 2) then Some(NumberLiteral(negative, 2, ValueOf(a[2..], 2)))
    else if IsPrefixed(a, Ch('o'), Ch('O'), 8) then Some(NumberLiteral(negative, 8, ValueOf(a[2..], 8)))
    else if IsDigitString(a) then
      DigitsOfDecimalDigits(a);
      Some(NumberLiteral(negative, 10, ValueOf(a, 10)))
    else None
  }

  function BaseTitle(base: nat): Key
  {
    if base == 2 then BinaryTitle else if base == 8 then OctalTitle
    else if base == 10 then DecimalTitle else HexadecimalTitle
  }

  function BinaryText(m: nat): JsString
  {
    Str("0b") + NatDigits(m, 2)
  }

  function OctalText(m: nat): JsString
  {
    Str("0o") + NatDigits(m, 8)
  }

  function HexadecimalText(n: int): JsString
  {
    (if n < 0 then Str("-0x") else Str("0x")) + ToUpperAscii(NatDigits(if n < 0 then -n else n, 16))
  }

  /** The value in each base other than the input's, in the order binary,
      octal, decimal, hexadecimal. Binary and octal show the magnitude
      (`Math.abs`); decimal and hexadecimal keep the sign. */
  function NumberResults(lit: NumberLiteral, host: Host): seq<ConversionResult>
  {
    var n: int := if lit.negative then -(lit.magnitude as int) else lit.magnitude;
    Maybe(lit.base != 2, Entry(Number, BinaryTitle, BinaryText(lit.magnitude), host)) +
    Maybe(lit.base != 8, Entry(Number, OctalTitle, OctalText(lit.magnitude), host)) +
    Maybe(lit.base != 10, Entry(Number, DecimalTitle, Decimal(n), host)) +
    Maybe(lit.base != 16, Entry(Number, HexadecimalTitle, HexadecimalText(n), host))
  }

  /** `[x]` when `c`, else nothing. */
  function Maybe(c: bool, x: ConversionResult): seq<ConversionResult>
  {
    if c then [x] else []
  }

  /** A magnitude above Number.MAX_SAFE_INTEGER is an error instead. Because
      rounding to a double is monotone and 2^53 is a double, comparing the
      exact value gives the same verdict as the source's comparison. */
  function NumberStep(t: JsString, host: Host): Emitted
  {
    match ReadNumber(t)
    case None => Nothing
    case Some(lit) =>
      if lit.magnitude > MaxSafeInteger then OneError(Number, host.tr(UnsafeInteger))
      else Emitted(NumberResults(lit, host), [])
  }

  // ---------------------------------------------------------------------
  // process

  /** The settings in force: every detector is on when none are given. */
  function Effective(settings: Option<Flags>): Flags
  {
    if settings.Some? then settings.value else AllEnabled
  }

  /** The error of an input over CONFIG.MAX_INPUT_LENGTH code units. */
  function TooLongMessage(length: nat, host: Host): JsString
  {
    host.tr(InputTooLong) + Str(" (") + Decimal(length) + Str(" ") + host.tr(CharsWord) + Str("). ") +
    host.tr(MaxWord) + Str(": ") + Decimal(MaxInputLength)
  }

  /** The detectors' outputs in the order `process` runs them, each kept
      only when its flag is set. */
  function Chain(e: Flags, color: Emitted, json: Emitted, jwt: Emitted, stamp: Emitted, date: Emitted,
                 urlDecode: Emitted, b64Decode: Emitted, b64Encode: Emitted, urlEncode: Emitted, number: Emitted): Emitted
  {
    Nothing
      .Then(When(e.enableColor, color))
      .Then(When(e.enableJson, json))
      .Then(When(e.enableJwt, jwt))
      .Then(When(e.enableTimestamp, stamp))
      .Then(When(e.enableTimestamp, date))
      .Then(When(e.enableUrl, urlDecode))
      .Then(When(e.enableBase64, b64Decode))
      .Then(When(e.enableBase64, b64Encode))
      .Then(When(e.enableUrl, urlEncode))
      .Then(When(e.enableNumber, number))
  }

  /** What `process` returns, with the URL encoder's failure reported as an
      error (see ProcessAsWritten for the source as written). */
  function Run(input: JsString, settings: Option<Flags>, host: Host): Processed
  {
    var t := Trim(input);
    if t == [] then Early(None, false)
    else if |input| > MaxInputLength then Early(Some(TooLongMessage(|input|, host)), true)
    else
      var all := Detected(input, t, Effective(settings), host);
      Completed(all.results, all.errors)
  }

  /** What all the detectors push, in order, for the trimmed input `t`. */
  function Detected(input: JsString, t: JsString, e: Flags, host: Host): Emitted
  {
    Chain(e, ColorStep(t, host), JsonStep(t, host), JwtStep(t, host), TimestampStep(t, host), DateStep(t, host),
          UrlDecodeStep(t, host), Base64DecodeStep(t, host), Base64EncodeStep(input, Base64Decodes(t, host), host),
          UrlEncodeStep(input, host), NumberStep(t, host))
  }

  /** `process` as written: `None` when the exception of an unguarded
      `encodeURIComponent` call leaves it. */
  function ProcessAsWritten(input: JsString, settings: Option<Flags>, host: Host): Option<Processed>
  {
    var t := Trim(input);
    if t == [] then Some(Early(None, false))
    else if |input| > MaxInputLength then Some(Early(Some(TooLongMessage(|input|, host)), true))
    else
      var e := Effective(settings);
      var url := if e.enableUrl then UrlEncodeStepAsWritten(input, host) else Some(Nothing);
      if url.None? then None
      else
        var all := Chain(e, ColorStep(t, host), JsonStep(t, host), JwtStep(t, host), TimestampStep(t, host), DateStep(t, host),
                         UrlDecodeStep(t, host), Base64DecodeStep(t, host), Base64EncodeStep(input, Base64Decodes(t, host), host),
                         url.value, NumberStep(t, host));
        Some(Completed(all.results, all.errors))
  }

  // ---------------------------------------------------------------------
  // The detectors as the source runs them, pushing onto the two arrays.
  // Each takes the flag that guards it as `on`.

  /** Whether `results` and `errors` grew by what `e` pushes. */
  twostate predicate Pushed(results: JsArray<ConversionResult>, errors: JsArray<ConversionError>, e: Emitted)
    reads results, errors
  {
    results.items == old(results.items) + e.results && errors.items == old(errors.items) + e.errors
  }

  /** The colour detector. */
  method ProcessColorIf(on: bool, t: JsString, host: Host, results: JsArray<ConversionResult>, errors: JsArray<ConversionError>)
    modifies results
    ensures Pushed(results, errors, When(on, ColorStep(t, host)))
  {
    if on {
      var _ := ProcessColor(t, host, results);
    }
  }

  /** The JSON detector, on input that starts like JSON. */
  method ProcessJson(on: bool, t: JsString, host: Host, results: JsArray<ConversionResult>, errors: JsArray<ConversionError>)
    modifies results, errors
    ensures Pushed(results, errors, When(on, JsonStep(t, host)))
  {
    if on && LooksLikeJson(t) {
      var parsed := host.parseJson(t);
      if parsed.Err? {
        errors.Push(ConversionError(Json, host.tr(JsonParseFailed) + Str(": ") + parsed.error));
        return;
      }
      ghost var start := results.items;
      var formatted := parsed.value.pretty;
      if formatted != t {
        results.Push(ConversionResult(Json, host.tr(JsonFormatTitle), formatted, true));
      }
      var compressed := parsed.value.compact;
      if compressed != t && compressed != formatted {
        results.Push(Entry(Json, JsonMinifyTitle, compressed, host));
      }
      assert results.items == start + JsonStep(t, host).results;
    }
  }

  /** One JWT segment: translate, pad with the loop, decode, parse. */
  method DecodeSegment(segment: JsString, host: Host) returns (json: Option<JsonText>)
    ensures json == SegmentJson(segment, host)
  {
    var b64 := PadWithEquals(ToStandardAlphabet(segment));
    var decoded := host.atob(b64);
    if decoded.None? {
      return None;
    }
    var parsed := host.parseJson(decoded.value);
    if parsed.Err? {
      return None;
    }
    return Some(parsed.value);
  }

  /** The JWT detector: the header is decoded first and the payload only when
      the header succeeded. */
  method ProcessJwt(on: bool, t: JsString, host: Host, results: JsArray<ConversionResult>, errors: JsArray<ConversionError>)
    modifies results, errors
    ensures Pushed(results, errors, When(on, JwtStep(t, host)))
  {
    if !on {
      return;
    }
    var jwtParts := Split(t, Ch('.'));
    if |jwtParts| == 3 && jwtParts[0] != [] && jwtParts[1] != [] && jwtParts[2] != [] {
      var header := DecodeSegment(jwtParts[0], host);
      if header.None? {
        errors.Push(ConversionError(Jwt, host.tr(JwtParseFailed)));
        return;
      }
      var payload := DecodeSegment(jwtParts[1], host);
      if payload.None? {
        errors.Push(ConversionError(Jwt, host.tr(JwtParseFailed)));
        return;
      }
      results.Push(ConversionResult(Jwt, host.tr(JwtDecodeTitle), JwtText(header.value, payload.value, host), true));
    }
  }

  /** The timestamp detector, on all-digit input. */
  method ProcessTimestamp(on: bool, t: JsString, host: Host, results: JsArray<ConversionResult>, errors: JsArray<ConversionError>)
    modifies results
    ensures Pushed(results, errors, When(on, TimestampStep(t, host)))
  {
    if on && IsDigitString(t) {
      DigitsOfDecimalDigits(t);
      var num := ValueOf(t, 10);
      var len := |t|;
      if MinSecondsLength <= len <= MaxSecondsLength {
        var ms := num * 1000;
        if -(MaxTimeValue as int) <= ms <= MaxTimeValue {
          results.Push(Entry(Timestamp, SecondsToDateTitle, host.formatDate(ms), host));
        }
      } else if MinMsLength <= len <= MaxMsLength {
        if -(MaxTimeValue as int) <= num <= MaxTimeValue {
          results.Push(Entry(Timestamp, MillisToDateTitle, host.formatDate(num), host));
        }
      }
    }
  }

  /** The date detector. */
  method ProcessDate(on: bool, t: JsString, host: Host, results: JsArray<ConversionResult>, errors: JsArray<ConversionError>)
    modifies results
    ensures Pushed(results, errors, When(on, DateStep(t, host)))
  {
    if on && MayBeDate(t) {
      var dateParsed := host.parseDate(t);
      if dateParsed.Some? {
        results.Push(Entry(Timestamp, DateToSecondsTitle, Decimal(dateParsed.value / 1000), host));
        results.Push(Entry(Timestamp, DateToMillisTitle, Decimal(dateParsed.value), host));
      }
    }
  }

  /** The URL decoder, on input with a `%`. */
  method ProcessUrlDecode(on: bool, t: JsString, host: Host, results: JsArray<ConversionResult>, errors: JsArray<ConversionError>)
    modifies results, errors
    ensures Pushed(results, errors, When(on, UrlDecodeStep(t, host)))
  {
    if on && Ch('%') in t {
      var decodedUrl := host.decodeUri(t);
      if decodedUrl.None? {
        errors.Push(ConversionError(Url, host.tr(UrlDecodeFailed)));
      } else if decodedUrl.value != t {
        results.Push(Entry(Url, UrlDecodeTitle, decodedUrl.value, host));
      }
    }
  }

  /** The Base64 decoder, on input its shape test accepts; says whether it
      produced a result. */
  method ProcessBase64Decode(on: bool, t: JsString, host: Host, results: JsArray<ConversionResult>, errors: JsArray<ConversionError>)
    returns (decoded: bool)
    modifies results, errors
    ensures decoded == (on && Base64Decodes(t, host))
    ensures Pushed(results, errors, When(on, Base64DecodeStep(t, host)))
  {
    if !(on && IsValidBase64(t)) {
      return false;
    }
    var padded := PadWithEquals(t);
    var decodedB64 := host.atob(padded);
    if decodedB64.None? {
      errors.Push(ConversionError(Base64Text, host.tr(Base64DecodeFailed)));
      return false;
    }
    if IsPrintableText(decodedB64.value) && |decodedB64.value| > 0 {
      results.Push(Entry(Base64Text, Base64DecodeTitle, decodedB64.value, host));
      return true;
    }
    return false;
  }

  /** The Base64 encoder, on the untrimmed input, when the decoder produced
      nothing. */
  method ProcessBase64Encode(on: bool, decoded: bool, input: JsString, host: Host,
                             results: JsArray<ConversionResult>, errors: JsArray<ConversionError>)
    modifies results
    ensures Pushed(results, errors, When(on, Base64EncodeStep(input, decoded, host)))
  {
    if on && !decoded {
      var b64Encoded := host.btoa(input);
      if b64Encoded != input {
        results.Push(Entry(Base64Text, Base64EncodeTitle, b64Encoded, host));
      }
    }
  }

  /** The URL encoder, on the untrimmed input. */
  method ProcessUrlEncode(on: bool, input: JsString, host: Host, results: JsArray<ConversionResult>, errors: JsArray<ConversionError>)
    modifies results, errors
    ensures Pushed(results, errors, When(on, UrlEncodeStep(input, host)))
  {
    if on && NeedsUrlEncode(input) {
      var urlEncoded := host.encodeUri(input);
      if urlEncoded.None? {
        errors.Push(ConversionError(Url, host.tr(UrlEncodeFailed)));
      } else if urlEncoded.value != input {
        results.Push(Entry(Url, UrlEncodeTitle, urlEncoded.value, host));
      }
    }
  }

  /** The number detector. */
  method ProcessNumber(on: bool, t: JsString, host: Host, results: JsArray<ConversionResult>, errors: JsArray<ConversionError>)
    modifies results, errors
    ensures Pushed(results, errors, When(on, NumberStep(t, host)))
  {
    if !on {
      return;
    }
    var lit := ReadNumber(t);
    if lit.None? {
      return;
    }
    if lit.value.magnitude > MaxSafeInteger {
      errors.Push(ConversionError(Number, host.tr(UnsafeInteger)));
      return;
    }
    PushNumberResults(lit.value, host, results);
  }

  /** The four pushes of the number detector, each skipped for the input's
      own base. */
  method PushNumberResults(lit: NumberLiteral, host: Host, results: JsArray<ConversionResult>)
    modifies results
    ensures results.items == old(results.items) + NumberResults(lit, host)
  {
    var m, base := lit.magnitude, lit.base;
    var numVal: int := if lit.negative then -(m as int) else m;
    ghost var start := results.items;
    var binary := Entry(Number, BinaryTitle, BinaryText(m), host);
    var octal := Entry(Number, OctalTitle, OctalText(m), host);
    var decimal := Entry(Number, DecimalTitle, Decimal(numVal), host);
    var hexadecimal := Entry(Number, HexadecimalTitle, HexadecimalText(numVal), host);
    PushUnless(base == 2, binary, results);
    PushUnless(base == 8, octal, results);
    ghost var two := results.items;
    PushUnless(base == 10, decimal, results);
    PushUnless(base == 16, hexadecimal, results);
    ghost var a, b, c, d := Maybe(base != 2, binary), Maybe(base != 8, octal), Maybe(base != 10, decimal), Maybe(base != 16, hexadecimal);
    Associative(start, a, b);
    Associative(start + (a + b), c, d);
    Associative(start, a + b, c + d);
    Associative(a + b, c, d);
  }

  method PushUnless(skip: bool, x: ConversionResult, results: JsArray<ConversionResult>)
    modifies results
    ensures results.items == old(results.items) + Maybe(!skip, x)
  {
    if !skip {
      results.Push(x);
    }
  }

  /** `process(input, settings)` */
  method Process(input: JsString, settings: Option<Flags>, host: Host) returns (out: Processed)
    ensures out == Run(input, settings, host)
  {
    var trimmedInput := Trim(input);
    if trimmedInput == [] {
      return Early(None, false);
    }
    var results := new JsArray<ConversionResult>();
    var errors := new JsArray<ConversionError>();
    var enabled := Effective(settings);
    if |input| > MaxInputLength {
      return Early(Some(TooLongMessage(|input|, host)), true);
    }
    var t := trimmedInput;
    ProcessColorIf(enabled.enableColor, t, host, results, errors);
    ProcessJson(enabled.enableJson, t, host, results, errors);
    ProcessJwt(enabled.enableJwt, t, host, results, errors);
    ProcessTimestamp(enabled.enableTimestamp, t, host, results, errors);
    ProcessDate(enabled.enableTimestamp, t, host, results, errors);
    ProcessUrlDecode(enabled.enableUrl, t, host, results, errors);
    var wasBase64Decoded := ProcessBase64Decode(enabled.enableBase64, t, host, results, errors);
    ProcessBase64Encode(enabled.enableBase64, wasBase64Decoded, input, host, results, errors);
    ProcessUrlEncode(enabled.enableUrl, input, host, results, errors);
    ProcessNumber(enabled.enableNumber, t, host, results, errors);
    return Completed(results.items, errors.items);
  }

  // ---------------------------------------------------------------------
  // The number detector's results read back

  /** The binary text is read back by the detector as that magnitude. */
  lemma BinaryReadsBack(m: nat)
    ensures ReadNumber(BinaryText(m)) == Some(NumberLiteral(false, 2, m))
  {
    var t := BinaryText(m);
    assert t[2..] == NatDigits(m, 2);
    ValueOfNatDigits(m, 2);
  }

  lemma OctalReadsBack(m: nat)
    ensures ReadNumber(OctalText(m)) == Some(NumberLiteral(false, 8, m))
  {
    var t := OctalText(m);
    assert t[2..] == NatDigits(m, 8);
    ValueOfNatDigits(m, 8);
  }

  /** `n.toString(10)` is read back with its sign (zero has none). */
  lemma DecimalReadsBack(n: int)
    ensures ReadNumber(Decimal(n)) == Some(NumberLiteral(n < 0, 10, if n < 0 then -n else n))
  {
    var m: nat := if n < 0 then -n else n;
    var d := NatDigits(m, 10);
    var t := Decimal(n);
    DigitsAreDecimal(d);
    ValueOfNatDigits(m, 10);
    if n < 0 {
      assert t[0] == Ch('-') && t[1..] == d;
    } else {
      assert t == d && t[0] != Ch('-');
    }
  }

  /** Decimal digits carry none of the three base prefixes. */
  lemma DigitsAreDecimal(a: JsString)
    requires |a| >= 1 && AllDigitsOf(a, 10)
    ensures IsDigitString(a) && a[0] != Ch('-')
    ensures !IsPrefixed(a, Ch('x'), Ch('X'), 16) && !IsPrefixed(a, Ch('b'), Ch('B'), 2) && !IsPrefixed(a, Ch('o'), Ch('O'), 8)
  {
    DecimalDigitsAreDigits(a);
    if |a| >= 2 {
      assert IsDigit(a[1]);
    }
  }

  /** The hexadecimal text, upper-case digits after `0x` or `-0x`, is read
      back with its sign. */
  lemma HexadecimalReadsBack(n: int)
    ensures ReadNumber(HexadecimalText(n)) == Some(NumberLiteral(n < 0, 16, if n < 0 then -n else n))
  {
    var m: nat := if n < 0 then -n else n;
    ValueOfUpper(NatDigits(m, 16), 16);
    ValueOfNatDigits(m, 16);
    HexPrefixedRead(ToUpperAscii(NatDigits(m, 16)), n < 0);
  }

  lemma HexPrefixedRead(u: JsString, negative: bool)
    requires |u| >= 1 && AllDigitsOf(u, 16)
    ensures ReadNumber((if negative then Str("-0x") else Str("0x")) + u) == Some(NumberLiteral(negative, 16, ValueOf(u, 16)))
  {
    var a := Str("0x") + u;
    UnsignedHexRead(u);
    if negative {
      assert Str("-0x") + u == [Ch('-')] + a;
      NegatedRead(a);
    }
  }

  lemma UnsignedHexRead(u: JsString)
    requires |u| >= 1 && AllDigitsOf(u, 16)
    ensures var a := Str("0x") + u; a[0] != Ch('-') && ReadNumber(a) == Some(NumberLiteral(false, 16, ValueOf(u, 16)))
  {
    var a := Str("0x") + u;
    assert a[2..] == u;
  }

  /** A minus sign in front changes only the sign of the reading. */
  lemma NegatedRead(a: JsString)
    requires a != [] && a[0] != Ch('-')
    ensures ReadNumber([Ch('-')] + a) == (match ReadNumber(a) case None => None case Some(lit) => Some(lit.(negative := true)))
  {
    assert ([Ch('-')] + a)[1..] == a;
  }

  /** The bases other than `base`, in increasing order. */
  function OtherBases(base: nat): seq<nat>
  {
    if base == 2 then [8, 10, 16] else if base == 8 then [2, 10, 16]
    else if base == 10 then [2, 8, 16] else [2, 8, 10]
  }

  /** `r` shows the number `lit` in `base`: the detector reads its content
      back as the same magnitude in that base, negative exactly when the
      value is below 0 and the base keeps the sign (decimal, hexadecimal). */
  predicate ShowsInBase(r: ConversionResult, lit: NumberLiteral, base: nat, host: Host)
  {
    r.category == Number && r.title == host.tr(BaseTitle(base)) && !r.needsHighlight &&
    ReadNumber(r.content) == Some(NumberLiteral(lit.negative && lit.magnitude > 0 && base >= 10, base, lit.magnitude))
  }

  /** A safe number gives exactly three results, one per other base in
      increasing order, each read back by the detector itself as the
      input's magnitude. The hexadecimal digits, after the `0x` or `-0x`,
      are upper-case. */
  lemma NumberResultsReadBack(t: JsString, host: Host)
    requires ReadNumber(t).Some? && ReadNumber(t).value.magnitude <= MaxSafeInteger
    ensures var lit := ReadNumber(t).value; var e := NumberStep(t, host);
      e.errors == [] && |e.results| == 3 &&
      forall i | 0 <= i < 3 :: ShowsInBase(e.results[i], lit, OtherBases(lit.base)[i], host)
    ensures var lit := ReadNumber(t).value; var e := NumberStep(t, host);
      lit.base != 16 ==>
        var c := e.results[2].content; var k := if lit.negative && lit.magnitude > 0 then 3 else 2;
        k < |c| && forall i | k <= i < |c| :: !IsLower(c[i])
  {
    var lit := ReadNumber(t).value;
    NumberResultsShow(lit, host);
    if lit.base != 16 {
      ResultsAreEntries(lit, host);
      HexadecimalUpper(if lit.negative then -(lit.magnitude as int) else lit.magnitude);
    }
  }

  /** `toString(16).toUpperCase()`: no digit after the prefix is lower-case. */
  lemma HexadecimalUpper(n: int)
    ensures var c := HexadecimalText(n); var k := if n < 0 then 3 else 2;
      k < |c| && forall i | k <= i < |c| :: !IsLower(c[i])
  {
    var c := HexadecimalText(n);
    var k := if n < 0 then 3 else 2;
    var d := ToUpperAscii(NatDigits(if n < 0 then -n else n, 16));
    assert c[k..] == d;
    assert forall i | k <= i < |c| :: c[i] == d[i - k];
  }

  lemma NumberResultsShow(lit: NumberLiteral, host: Host)
    requires lit.base in {2, 8, 10, 16}
    ensures var r := NumberResults(lit, host);
      |r| == 3 && forall i | 0 <= i < 3 :: ShowsInBase(r[i], lit, OtherBases(lit.base)[i], host)
  {
    ResultsAreEntries(lit, host);
    forall i | 0 <= i < 3
      ensures ShowsInBase(NumberResults(lit, host)[i], lit, OtherBases(lit.base)[i], host)
    {
      EntryShows(lit, host, OtherBases(lit.base)[i]);
    }
  }

  /** The four entries the number detector can push, in push order. */
  function NumberEntries(lit: NumberLiteral, host: Host): (e: seq<ConversionResult>)
    ensures |e| == 4
  {
    var n: int := if lit.negative then -(lit.magnitude as int) else lit.magnitude;
    [Entry(Number, BinaryTitle, BinaryText(lit.magnitude), host),
     Entry(Number, OctalTitle, OctalText(lit.magnitude), host),
     Entry(Number, DecimalTitle, Decimal(n), host),
     Entry(Number, HexadecimalTitle, HexadecimalText(n), host)]
  }

  /** The position of a base among the four. */
  function BaseIndex(base: nat): nat
  {
    if base == 2 then 0 else if base == 8 then 1 else if base == 10 then 2 else 3
  }

  lemma ResultsAreEntries(lit: NumberLiteral, host: Host)
    requires lit.base in {2, 8, 10, 16}
    ensures var r := NumberResults(lit, host);
      |r| == 3 &&
      forall i | 0 <= i < 3 ::
        OtherBases(lit.base)[i] in {2, 8, 10, 16} && r[i] == NumberEntries(lit, host)[BaseIndex(OtherBases(lit.base)[i])]
  {
    var e := NumberEntries(lit, host);
    var r := NumberResults(lit, host);
    if lit.base == 2 {
      assert r == [e[1], e[2], e[3]];
    } else if lit.base == 8 {
      assert r == [e[0], e[2], e[3]];
    } else if lit.base == 10 {
      assert r == [e[0], e[1], e[3]];
    } else {
      assert r == [e[0], e[1], e[2]];
    }
  }

  lemma EntryShows(lit: NumberLiteral, host: Host, base: nat)
    requires base in {2, 8, 10, 16}
    ensures ShowsInBase(NumberEntries(lit, host)[BaseIndex(base)], lit, base, host)
  {
    var m := lit.magnitude;
    var n: int := if lit.negative then -(m as int) else m;
    if base == 2 {
      BinaryReadsBack(m);
    } else if base == 8 {
      OctalReadsBack(m);
    } else if base == 10 {
      DecimalReadsBack(n);
    } else {
      HexadecimalReadsBack(n);
    }
  }

  /** A magnitude beyond Number.MAX_SAFE_INTEGER gives one error and no
      result. */
  lemma UnsafeNumberRefused(t: JsString, host: Host)
    requires ReadNumber(t).Some? && ReadNumber(t).value.magnitude > MaxSafeInteger
    ensures NumberStep(t, host) == Emitted([], [ConversionError(Number, host.tr(UnsafeInteger))])
  {
  }

  /** The detector's reading of the literal forms it accepts: decimal digits
      as themselves, and `0x`, `0b`, `0o` (either case) followed by digits
      of that base; a leading minus makes it negative. */
  lemma ReadNumberOfDigits(digits: JsString, negative: bool)
    requires |digits| >= 1 && AllDigitsOf(digits, 10)
    ensures ReadNumber((if negative then Str("-") else []) + digits) == Some(NumberLiteral(negative, 10, ValueOf(digits, 10)))
  {
    DigitsAreDecimal(digits);
    if negative {
      NegatedRead(digits);
    } else {
      assert [] + digits == digits;
    }
  }

  // ---------------------------------------------------------------------
  // The early returns

  /** An empty or all-white-space input gives no results and no error,
      however long it is: the emptiness test comes before the length test. */
  lemma BlankInputIgnored(input: JsString, settings: Option<Flags>, host: Host)
    requires AllWhiteSpace(input)
    ensures Run(input, settings, host) == Early(None, false)
  {
    TrimEmptyIff(input);
  }

  /** `process` returns early exactly for blank and for over-long input, and
      sets `truncated` exactly for the over-long input that is not blank;
      that input has no results and a non-empty error naming its length. */
  lemma EarlyReturns(input: JsString, settings: Option<Flags>, host: Host)
    ensures Run(input, settings, host).Early? <==> AllWhiteSpace(input) || |input| > MaxInputLength
    ensures Run(input, settings, host).Truncated() <==> !AllWhiteSpace(input) && |input| > MaxInputLength
    ensures Run(input, settings, host).Results() == [] || !AllWhiteSpace(input)
    ensures !AllWhiteSpace(input) && |input| > MaxInputLength ==>
      Run(input, settings, host) == Early(Some(TooLongMessage(|input|, host)), true) &&
      Run(input, settings, host).Results() == [] && TooLongMessage(|input|, host) != []
  {
    TrimEmptyIff(input);
  }

  // ---------------------------------------------------------------------
  // Flags

  /** Every entry of `e` has category `c`. */
  predicate Only(e: Emitted, c: Category)
  {
    (forall i | 0 <= i < |e.results| :: e.results[i].category == c) &&
    (forall i | 0 <= i < |e.errors| :: e.errors[i].category == c)
  }

  /** Every entry of `e` has a category that `f` enables. */
  predicate EnabledBy(e: Emitted, f: Flags)
  {
    (forall i | 0 <= i < |e.results| :: f.Enables(e.results[i].category)) &&
    (forall i | 0 <= i < |e.errors| :: f.Enables(e.errors[i].category))
  }

  lemma ThenEnabled(a: Emitted, b: Emitted, f: Flags)
    requires EnabledBy(a, f) && EnabledBy(b, f)
    ensures EnabledBy(a.Then(b), f)
  {
    var r := a.Then(b);
    assert forall i | |a.results| <= i < |r.results| :: r.results[i] == b.results[i - |a.results|];
    assert forall i | |a.errors| <= i < |r.errors| :: r.errors[i] == b.errors[i - |a.errors|];
  }

  /** Appending a detector whose output is all of the category its flag
      enables keeps every entry enabled. */
  lemma ThenWhen(a: Emitted, f: Flags, c: Category, e: Emitted)
    requires EnabledBy(a, f) && Only(e, c)
    ensures EnabledBy(a.Then(When(f.Enables(c), e)), f)
  {
    ThenEnabled(a, When(f.Enables(c), e), f);
  }

  /** The chain of detectors keeps every entry enabled when each detector
      reports under its own category. */
  lemma ChainEnabled(f: Flags, color: Emitted, json: Emitted, jwt: Emitted, stamp: Emitted, date: Emitted,
                     urlDecode: Emitted, b64Decode: Emitted, b64Encode: Emitted, urlEncode: Emitted, number: Emitted)
    requires Only(color, Color) && Only(json, Json) && Only(jwt, Jwt) && Only(stamp, Timestamp) && Only(date, Timestamp)
    requires Only(urlDecode, Url) && Only(b64Decode, Base64Text) && Only(b64Encode, Base64Text)
    requires Only(urlEncode, Url) && Only(number, Number)
    ensures EnabledBy(Chain(f, color, json, jwt, stamp, date, urlDecode, b64Decode, b64Encode, urlEncode, number), f)
  {
    var a0 := Nothing;
    ThenWhen(a0, f, Color, color);
    var a1 := a0.Then(When(f.enableColor, color));
    ThenWhen(a1, f, Json, json);
    var a2 := a1.Then(When(f.enableJson, json));
    ThenWhen(a2, f, Jwt, jwt);
    var a3 := a2.Then(When(f.enableJwt, jwt));
    ThenWhen(a3, f, Timestamp, stamp);
    var a4 := a3.Then(When(f.enableTimestamp, stamp));
    ThenWhen(a4, f, Timestamp, date);
    var a5 := a4.Then(When(f.enableTimestamp, date));
    ThenWhen(a5, f, Url, urlDecode);
    var a6 := a5.Then(When(f.enableUrl, urlDecode));
    ThenWhen(a6, f, Base64Text, b64Decode);
    var a7 := a6.Then(When(f.enableBase64, b64Decode));
    ThenWhen(a7, f, Base64Text, b64Encode);
    var a8 := a7.Then(When(f.enableBase64, b64Encode));
    ThenWhen(a8, f, Url, urlEncode);
    var a9 := a8.Then(When(f.enableUrl, urlEncode));
    ThenWhen(a9, f, Number, number);
  }

  lemma OnlyOfPair(r: seq<ConversionResult>)
    requires r == [] || IsColorPair(r)
    ensures Only(Emitted(r, []), Color)
  {
  }

  lemma ColorOnly(t: JsString, host: Host)
    ensures Only(ColorStep(t, host), Color)
  {
    ColorResultsShape(t, host);
    OnlyOfPair(ColorResults(t, host));
  }

  lemma NumberOnly(t: JsString, host: Host)
    ensures Only(NumberStep(t, host), Number)
  {
    if ReadNumber(t).Some? && ReadNumber(t).value.magnitude <= MaxSafeInteger {
      NumberResultsShow(ReadNumber(t).value, host);
    }
  }

  lemma JsonOnly(t: JsString, host: Host)
    ensures Only(JsonStep(t, host), Json)
  {
  }

  lemma JwtOnly(t: JsString, host: Host)
    ensures Only(JwtStep(t, host), Jwt)
  {
  }

  lemma TimestampOnly(t: JsString, host: Host)
    ensures Only(TimestampStep(t, host), Timestamp) && Only(DateStep(t, host), Timestamp)
  {
  }

  lemma UrlOnly(input: JsString, t: JsString, host: Host)
    ensures Only(UrlDecodeStep(t, host), Url) && Only(UrlEncodeStep(input, host), Url)
  {
  }

  lemma Base64Only(input: JsString, t: JsString, host: Host)
    ensures Only(Base64DecodeStep(t, host), Base64Text) && Only(Base64EncodeStep(input, Base64Decodes(t, host), host), Base64Text)
  {
  }

  lemma DetectedEnabled(input: JsString, t: JsString, f: Flags, host: Host)
    ensures EnabledBy(Detected(input, t, f, host), f)
  {
    ColorOnly(t, host);
    JsonOnly(t, host);
    JwtOnly(t, host);
    TimestampOnly(t, host);
    UrlOnly(input, t, host);
    Base64Only(input, t, host);
    NumberOnly(t, host);
    ChainEnabled(f, ColorStep(t, host), JsonStep(t, host), JwtStep(t, host), TimestampStep(t, host), DateStep(t, host),
                 UrlDecodeStep(t, host), Base64DecodeStep(t, host), Base64EncodeStep(input, Base64Decodes(t, host), host),
                 UrlEncodeStep(input, host), NumberStep(t, host));
  }

  /** Only enabled detectors contribute: every result and every error of
      `process` has a category whose flag is set (all of them with no
      settings object). */
  lemma OnlyEnabledOutput(input: JsString, settings: Option<Flags>, host: Host)
    requires Run(input, settings, host).Completed?
    ensures var f := Effective(settings); var p := Run(input, settings, host);
      (forall i | 0 <= i < |p.results| :: f.Enables(p.results[i].category)) &&
      (forall i | 0 <= i < |p.errors| :: f.Enables(p.errors[i].category))
  {
    DetectedEnabled(input, Trim(input), Effective(settings), host);
  }

  // ---------------------------------------------------------------------
  // Timestamps and dates

  lemma DecimalBelow(t: JsString, k: nat)
    requires AllDigitsOf(t, 10) && |t| <= k
    ensures ValueOf(t, 10) < Pow(10, k)
  {
    ValueOfBelow(t, 10);
    PowGrows(10, |t|, k);
  }

  /** The timestamp detector never reports an error and at most one result,
      and all-digit input of 9 to 14 digits always gets one: its time value
      is always within TimeClip's range, so `new Date` never fails there. */
  lemma TimestampAlwaysValid(t: JsString, host: Host)
    ensures TimestampStep(t, host).errors == [] && |TimestampStep(t, host).results| <= 1
    ensures |TimestampStep(t, host).results| == 1 <==> IsDigitString(t) && MinSecondsLength <= |t| <= MaxMsLength
    ensures IsDigitString(t) && MinSecondsLength <= |t| <= MaxSecondsLength ==>
      TimestampStep(t, host).results == [Entry(Timestamp, SecondsToDateTitle, host.formatDate(ValueOf(t, 10) * 1000), host)]
    ensures IsDigitString(t) && MinMsLength <= |t| <= MaxMsLength ==>
      TimestampStep(t, host).results == [Entry(Timestamp, MillisToDateTitle, host.formatDate(ValueOf(t, 10)), host)]
  {
    if IsDigitString(t) && |t| <= MaxMsLength {
      DigitsOfDecimalDigits(t);
      Pow10At14();
      if |t| <= MaxSecondsLength {
        DecimalBelow(t, 11);
      } else {
        DecimalBelow(t, 14);
      }
    }
  }

  /** The date detector never runs on all-digit input, so it and the
      timestamp detector never both report. */
  lemma DateOrTimestamp(t: JsString, host: Host)
    ensures IsDigitString(t) ==> DateStep(t, host) == Nothing
    ensures TimestampStep(t, host) == Nothing || DateStep(t, host) == Nothing
  {
  }

  /** The value a number literal stands for. */
  function Signed(lit: NumberLiteral): int
  {
    if lit.negative then -(lit.magnitude as int) else lit.magnitude
  }

  /** The date detector's two texts, read back as decimal numbers, are the
      time value in whole seconds rounded down and in milliseconds. */
  lemma DateResultsReadBack(t: JsString, host: Host)
    requires MayBeDate(t) && host.parseDate(t).Some?
    ensures var ms := host.parseDate(t).value as int; var e := DateStep(t, host);
      e.errors == [] && |e.results| == 2 &&
      var sec := ReadNumber(e.results[0].content); var milli := ReadNumber(e.results[1].content);
      sec.Some? && milli.Some? && sec.value.base == 10 && milli.value.base == 10 &&
      Signed(milli.value) == ms && Signed(sec.value) * 1000 <= ms < Signed(sec.value) * 1000 + 1000
  {
    var ms := host.parseDate(t).value as int;
    DecimalReadsBack(ms / 1000);
    DecimalReadsBack(ms);
  }

  // ---------------------------------------------------------------------
  // Base64

  /** The decoder reports a result exactly when it decoded the input to
      non-empty printable text, and that text is what `Qt.atob` gives for the
      input itself (its shape test leaves nothing to pad); the encoder is
      then silent, so at most one Base64 result appears, and an error only
      when `Qt.atob` throws on a shape-valid input. Otherwise the encoder
      reports `Qt.btoa` of the untrimmed input when that differs from it. */
  lemma Base64DecodeOrEncode(input: JsString, t: JsString, host: Host)
    ensures var d := Base64DecodeStep(t, host);
      (d.results != [] <==> Base64Decodes(t, host)) &&
      (d.errors != [] <==> IsValidBase64(t) && host.atob(t).None?) &&
      |d.results| + |d.errors| <= 1 &&
      (d.results != [] ==> host.atob(t).Some? && d.results[0].content == host.atob(t).value &&
                           IsPrintableText(host.atob(t).value))
    ensures var d := Base64DecodeStep(t, host); var e := Base64EncodeStep(input, Base64Decodes(t, host), host);
      |d.results| + |e.results| <= 1 && e.errors == [] &&
      (e.results != [] <==> !Base64Decodes(t, host) && host.btoa(input) != input) &&
      (e.results != [] ==> e.results[0].content == host.btoa(input))
  {
    if IsValidBase64(t) {
      ValidBase64NeedsNoPadding(t);
    }
  }

  // ---------------------------------------------------------------------
  // URLs

  /** The decoder runs only on input with a `%`, reports an error exactly
      when decoding throws, and a result exactly when the decoded text
      differs from the input. */
  lemma UrlDecodeOutputs(t: JsString, host: Host)
    ensures var e := UrlDecodeStep(t, host);
      |e.results| + |e.errors| <= 1 &&
      (e.errors != [] <==> Ch('%') in t && host.decodeUri(t).None?) &&
      (e.results != [] <==> Ch('%') in t && host.decodeUri(t).Some? && host.decodeUri(t).value != t) &&
      (e.results != [] ==> e.results[0].content == host.decodeUri(t).value)
  {
  }

  /** Input made only of word characters, `-`, `.` and `~` is never encoded;
      otherwise the encoder reports the encoded text when it differs. */
  lemma UrlEncodeOutputs(input: JsString, host: Host)
    ensures var e := UrlEncodeStep(input, host);
      |e.results| + |e.errors| <= 1 &&
      ((forall i | 0 <= i < |input| :: IsUnreserved(input[i])) ==> e == Nothing) &&
      (e.results != [] <==> NeedsUrlEncode(input) && host.encodeUri(input).Some? && host.encodeUri(input).value != input) &&
      (e.results != [] ==> e.results[0].content == host.encodeUri(input).value && !e.results[0].needsHighlight) &&
      (e.errors != [] <==> NeedsUrlEncode(input) && host.encodeUri(input).None?)
  {
  }

  // ---------------------------------------------------------------------
  // JSON

  /** The JSON detector runs only on input starting with `{` or `[`; it
      reports either the parser's error or up to two results, each differing
      from the input, the highlighted formatted text first and a minified
      text only when it differs from the formatted one. */
  lemma JsonOutputs(t: JsString, host: Host)
    ensures var e := JsonStep(t, host);
      (e != Nothing ==> LooksLikeJson(t)) &&
      (e.errors != [] <==> LooksLikeJson(t) && host.parseJson(t).Err?) &&
      |e.errors| <= 1 && |e.results| <= 2 && (e.errors == [] || e.results == []) &&
      (forall i | 0 <= i < |e.results| :: e.results[i].content != t) &&
      (|e.results| == 2 ==> e.results[0].needsHighlight && !e.results[1].needsHighlight &&
                            e.results[0].content != e.results[1].content)
    ensures LooksLikeJson(t) && host.parseJson(t).Ok? ==>
      var j := host.parseJson(t).value; var e := JsonStep(t, host);
      e.errors == [] &&
      |e.results| == (if j.pretty != t then 1 else 0) + (if j.compact != t && j.compact != j.pretty then 1 else 0) &&
      (j.pretty != t ==> e.results[0].content == j.pretty && e.results[0].needsHighlight) &&
      (j.compact != t && j.compact != j.pretty ==>
         e.results[|e.results| - 1].content == j.compact && !e.results[|e.results| - 1].needsHighlight)
  {
  }

  // ---------------------------------------------------------------------
  // JWT

  /** A token shape gives exactly one entry, a result when header and
      payload both decode and an error otherwise; anything else gives none. */
  lemma JwtReportsOnce(t: JsString, host: Host)
    ensures |JwtStep(t, host).results| + |JwtStep(t, host).errors| == (if IsJwtShape(t) then 1 else 0)
    ensures JwtStep(t, host).results != [] <==>
      IsJwtShape(t) && SegmentJson(Split(t, Ch('.'))[0], host).Some? && SegmentJson(Split(t, Ch('.'))[1], host).Some?
    ensures JwtStep(t, host).results != [] ==>
      var parts := Split(t, Ch('.'));
      JwtStep(t, host).results[0] ==
        ConversionResult(Jwt, host.tr(JwtDecodeTitle),
                         JwtText(SegmentJson(parts[0], host).value, SegmentJson(parts[1], host).value, host), true)
  {
  }

  /** The signature is never looked at: tokens that differ only in their
      third part give the same output. */
  lemma JwtIgnoresSignature(t1: JsString, t2: JsString, host: Host)
    requires IsJwtShape(t1) && IsJwtShape(t2)
    requires Split(t1, Ch('.'))[..2] == Split(t2, Ch('.'))[..2]
    ensures JwtStep(t1, host) == JwtStep(t2, host)
  {
    assert Split(t1, Ch('.'))[0] == Split(t1, Ch('.'))[..2][0];
    assert Split(t1, Ch('.'))[1] == Split(t1, Ch('.'))[..2][1];
  }

  /** A token shape is text with exactly two dots, neither at an end. */
  lemma JwtShapeHasTwoDots(t: JsString)
    requires IsJwtShape(t)
    ensures Count(t, Ch('.')) == 2 && t[0] != Ch('.') && t[|t| - 1] != Ch('.')
  {
    var parts := Split(t, Ch('.'));
    SplitCount(t, Ch('.'));
    JoinThree(parts, [Ch('.')]);
    EndsOfConcat(parts[0], [Ch('.')] + parts[1] + [Ch('.')] + parts[2]);
    EndsOfConcat(parts[0] + [Ch('.')] + parts[1] + [Ch('.')], parts[2]);
  }

  // ---------------------------------------------------------------------
  // The unguarded encodeURIComponent

  predicate IsHighSurrogate(c: CodeUnit)
  {
    0xD800 <= c <= 0xDBFF
  }

  predicate IsLowSurrogate(c: CodeUnit)
  {
    0xDC00 <= c <= 0xDFFF
  }

  /** A surrogate code unit at `i` that is not half of a pair. */
  predicate LoneSurrogateAt(s: JsString, i: nat)
    requires i < |s|
  {
    (IsHighSurrogate(s[i]) && (i + 1 == |s| || !IsLowSurrogate(s[i + 1]))) ||
    (IsLowSurrogate(s[i]) && (i == 0 || !IsHighSurrogate(s[i - 1])))
  }

  predicate HasLoneSurrogate(s: JsString)
  {
    exists i | 0 <= i < |s| :: LoneSurrogateAt(s, i)
  }

  /** `encodeURIComponent` as ECMA-262 specifies it: its Encode operation
      throws a URIError on an unpaired surrogate. */
  ghost predicate EncodeRejectsLoneSurrogates(host: Host)
  {
    forall s | HasLoneSurrogate(s) :: host.encodeUri(s).None?
  }

  /** The URL encoder's error sits among the errors of the chain. */
  lemma ChainKeepsUrlEncodeErrors(f: Flags, color: Emitted, json: Emitted, jwt: Emitted, stamp: Emitted, date: Emitted,
                                  urlDecode: Emitted, b64Decode: Emitted, b64Encode: Emitted, urlEncode: Emitted, number: Emitted)
    requires f.enableUrl
    ensures forall x | x in urlEncode.errors ::
      x in Chain(f, color, json, jwt, stamp, date, urlDecode, b64Decode, b64Encode, urlEncode, number).errors
  {
    var before := Nothing.Then(When(f.enableColor, color)).Then(When(f.enableJson, json)).Then(When(f.enableJwt, jwt))
      .Then(When(f.enableTimestamp, stamp)).Then(When(f.enableTimestamp, date)).Then(When(f.enableUrl, urlDecode))
      .Then(When(f.enableBase64, b64Decode)).Then(When(f.enableBase64, b64Encode));
    var all := Chain(f, color, json, jwt, stamp, date, urlDecode, b64Decode, b64Encode, urlEncode, number);
    assert all.errors == before.errors + urlEncode.errors + When(f.enableNumber, number).errors;
  }

  /** As written, an input with a lone surrogate (that is neither blank nor
      too long) makes `process` throw whenever the URL detectors are on. */
  lemma UnguardedEncodeThrows(input: JsString, settings: Option<Flags>, host: Host)
    requires EncodeRejectsLoneSurrogates(host) && HasLoneSurrogate(input)
    requires !AllWhiteSpace(input) && |input| <= MaxInputLength && Effective(settings).enableUrl
    ensures ProcessAsWritten(input, settings, host) == None
  {
    TrimEmptyIff(input);
    var i :| 0 <= i < |input| && LoneSurrogateAt(input, i);
    assert !IsUnreserved(input[i]);
    assert host.encodeUri(input).None?;
  }

  /** With the encoder's failure caught, `process` still returns, and the
      failure is among its URL errors. */
  lemma EncodeFailureReported(input: JsString, settings: Option<Flags>, host: Host)
    requires !AllWhiteSpace(input) && |input| <= MaxInputLength && Effective(settings).enableUrl
    requires NeedsUrlEncode(input) && host.encodeUri(input).None?
    ensures Run(input, settings, host).Completed?
    ensures ConversionError(Url, host.tr(UrlEncodeFailed)) in Run(input, settings, host).errors
  {
    TrimEmptyIff(input);
    var t := Trim(input);
    ChainKeepsUrlEncodeErrors(Effective(settings), ColorStep(t, host), JsonStep(t, host), JwtStep(t, host),
      TimestampStep(t, host), DateStep(t, host), UrlDecodeStep(t, host), Base64DecodeStep(t, host),
      Base64EncodeStep(input, Base64Decodes(t, host), host), UrlEncodeStep(input, host), NumberStep(t, host));
  }

  /** The one-unit input U+D800 is such an input. */
  lemma LoneSurrogateThrows(host: Host)
    requires EncodeRejectsLoneSurrogates(host)
    ensures ProcessAsWritten([0xD800 as CodeUnit], None, host) == None
  {
    var s := [0xD800 as CodeUnit];
    assert LoneSurrogateAt(s, 0);
    assert !IsWhiteSpace(s[0]);
    UnguardedEncodeThrows(s, None, host);
  }

  /** Whenever the source as written returns, it returns what the corrected
      model does; it throws only when the encoder is on and fails. */
  lemma AsWrittenAgrees(input: JsString, settings: Option<Flags>, host: Host)
    ensures ProcessAsWritten(input, settings, host).Some? ==> ProcessAsWritten(input, settings, host) == Some(Run(input, settings, host))
    ensures ProcessAsWritten(input, settings, host).None? ==>
      Effective(settings).enableUrl && NeedsUrlEncode(input) && host.encodeUri(input).None?
  {
    var e := Effective(settings);
    if e.enableUrl && UrlEncodeStepAsWritten(input, host).Some? {
      assert UrlEncodeStepAsWritten(input, host).value == UrlEncodeStep(input, host);
    }
  }
}
