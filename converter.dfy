/** The records the converter passes around, its constants, and the
    collaborators it calls but does not define (the JavaScript and Qt
    library functions, the localiser and the colour-space arithmetic), which
    the model takes as parameters. */
module Converter {
  import opened Wrappers
  import opened JsStrings

  // ---------------------------------------------------------------------
  // CONFIG and TIMESTAMP

  /** CONFIG.MAX_INPUT_LENGTH */
  const MaxInputLength: nat := 100000
  /** CONFIG.MAX_OUTPUT_LENGTH */
  const MaxOutputLength: nat := 50000
  /** CONFIG.DEBOUNCE_INTERVAL, in milliseconds; nothing in the core reads it. */
  const DebounceInterval: nat := 300

  /** TIMESTAMP: the digit counts read as seconds, and as milliseconds. */
  const MinSecondsLength: nat := 9
  const MaxSecondsLength: nat := 11
  const MinMsLength: nat := 12
  const MaxMsLength: nat := 14

  /** Number.MAX_SAFE_INTEGER, 2^53 - 1 */
  const MaxSafeInteger: nat := 0x1F_FFFF_FFFF_FFFF

  /** The largest magnitude of a valid `Date` time value (ECMAScript TimeClip),
      8.64 * 10^15 milliseconds. */
  const MaxTimeValue: nat := 8_640_000_000_000_000

  /** A valid (non-NaN) `Date` time value. */
  type TimeValue = t: int | -(MaxTimeValue as int) <= t <= MaxTimeValue

  // ---------------------------------------------------------------------
  // Results and errors

  /** The `type` tag of results and errors. */
  datatype Category = Color | Json | Jwt | Timestamp | Url | Base64Text | Number
  {
    /** The tag as the source writes it, shown by the formatter. */
    function Name(): JsString
    {
      match this
      case Color => Str("Color")
      case Json => Str("JSON")
      case Jwt => Str("JWT")
      case Timestamp => Str("Timestamp")
      case Url => Str("URL")
      case Base64Text => Str("Base64")
      case Number => Str("Number")
    }
  }

  /** One entry of `results`; `title` is its `label`. `needHighlight` is set on the JSON Format and JWT
      Decode entries only, and absent (false) elsewhere. */
  datatype ConversionResult = ConversionResult(category: Category, title: JsString, content: JsString, needsHighlight: bool)

  /** One entry of `errors`. */
  datatype ConversionError = ConversionError(category: Category, message: JsString)

  /** The `settings` object. A missing settings object means all enabled. */
  datatype Flags = Flags(
    enableColor: bool, enableJson: bool, enableJwt: bool, enableTimestamp: bool,
    enableUrl: bool, enableBase64: bool, enableNumber: bool)
  {
    /** Whether the flag that guards the branches of category `c` is set. */
    predicate Enables(c: Category)
    {
      match c
      case Color => enableColor
      case Json => enableJson
      case Jwt => enableJwt
      case Timestamp => enableTimestamp
      case Url => enableUrl
      case Base64Text => enableBase64
      case Number => enableNumber
    }
  }

  const AllEnabled: Flags := Flags(true, true, true, true, true, true, true)

  /** What `process` returns. The two early returns carry `results: []`, a
      single `error` (null for an empty input) and `truncated`; the normal
      return carries `results`, an `errors` list, `truncated: false` and the
      CONFIG object. */
  datatype Processed =
    | Early(error: Option<JsString>, truncated: bool)
    | Completed(results: seq<ConversionResult>, errors: seq<ConversionError>)
  {
    function Results(): seq<ConversionResult>
    {
      if Early? then [] else results
    }

    function Truncated(): bool
    {
      Early? && truncated
    }
  }

  // ---------------------------------------------------------------------
  // Localisation keys

  /** The keys the converter passes to `tr`: result labels, error messages
      and the formatter's fixed words. */
  datatype Key =
    | HexToRgbTitle | HexToHslTitle | RgbToHexTitle | RgbToHslTitle | HslToHexTitle | HslToRgbTitle
    | JsonFormatTitle | JsonMinifyTitle | JsonParseFailed
    | HeaderHeading | PayloadHeading | JwtDecodeTitle | JwtParseFailed
    | SecondsToDateTitle | MillisToDateTitle | DateToSecondsTitle | DateToMillisTitle
    | UrlDecodeTitle | UrlDecodeFailed | UrlEncodeTitle | UrlEncodeFailed
    | Base64DecodeTitle | Base64DecodeFailed | Base64EncodeTitle
    | BinaryTitle | OctalTitle | DecimalTitle | HexadecimalTitle | UnsafeInteger
    | InputTooLong | CharsWord | MaxWord
    | ErrorHeading | NoResults | SomeConversionsFailed | OutputTruncated
  {
    /** The key's text, which is also what `tr` returns when no localiser
        is loaded. UrlEncodeFailed is not a key of the source: only the
        corrected URL-encode branch uses it. */
    function Text(): JsString
    {
      match this
      case HexToRgbTitle => Str("HEX to RGB")
      case HexToHslTitle => Str("HEX to HSL")
      case RgbToHexTitle => Str("RGB to HEX")
      case RgbToHslTitle => Str("RGB to HSL")
      case HslToHexTitle => Str("HSL to HEX")
      case HslToRgbTitle => Str("HSL to RGB")
      case JsonFormatTitle => Str("JSON Format")
      case JsonMinifyTitle => Str("JSON Minify")
      case JsonParseFailed => Str("JSON parse failed")
      case HeaderHeading => Str("Header")
      case PayloadHeading => Str("Payload")
      case JwtDecodeTitle => Str("JWT Decode")
      case JwtParseFailed => Str("JWT parse failed")
      case SecondsToDateTitle => Str("Timestamp (sec) to Date")
      case MillisToDateTitle => Str("Timestamp (ms) to Date")
      case DateToSecondsTitle => Str("Date to Timestamp (sec)")
      case DateToMillisTitle => Str("Date to Timestamp (ms)")
      case UrlDecodeTitle => Str("URL Decode")
      case UrlDecodeFailed => Str("URL decode failed")
      case UrlEncodeTitle => Str("URL Encode")
      case UrlEncodeFailed => Str("URL encode failed")
      case Base64DecodeTitle => Str("Base64 Decode")
      case Base64DecodeFailed => Str("Base64 decode failed")
      case Base64EncodeTitle => Str("Base64 Encode")
      case BinaryTitle => Str("Binary")
      case OctalTitle => Str("Octal")
      case DecimalTitle => Str("Decimal")
      case HexadecimalTitle => Str("Hexadecimal")
      case UnsafeInteger => Str("Value exceeds safe integer range")
      case InputTooLong => Str("Input too long")
      case CharsWord => Str("chars")
      case MaxWord => Str("Max")
      case ErrorHeading => Str("Error")
      case NoResults => Str("No results")
      case SomeConversionsFailed => Str("Some conversions failed")
      case OutputTruncated => Str("Output truncated")
    }
  }

  // ---------------------------------------------------------------------
  // Collaborators

  /** The pretty (4-space indented) and the compact text `JSON.stringify`
      gives for a value `JSON.parse` produced. */
  datatype JsonText = JsonText(pretty: JsString, compact: JsString)

  datatype Hsl = Hsl(h: int, s: int, l: int)
  datatype Rgb = Rgb(r: int, g: int, b: int)

  /** Everything the converter calls and does not define. A `None` or `Err`
      result stands for the call throwing, `Err` with the exception's
      message. */
  datatype Host = Host(
    /** `tr(key)`: the localised text of the key, or `key.Text()` when no
        localiser is loaded */
    tr: Key -> JsString,
    /** `JSON.parse(text)` followed by `JSON.stringify(v, null, 4)` and `JSON.stringify(v)` */
    parseJson: JsString -> Result<JsonText, JsString>,
    /** `Qt.atob` */
    atob: JsString -> Option<JsString>,
    /** `Qt.btoa` */
    btoa: JsString -> JsString,
    /** `new Date(t).toLocaleString(Qt.locale(), "yyyy-MM-dd HH:mm:ss")` for a valid time value `t` */
    formatDate: int -> JsString,
    /** `Date.parse(text)`; `None` for NaN. A time value is TimeClip'ed, so
        it is an integer of magnitude at most MaxTimeValue */
    parseDate: JsString -> Option<TimeValue>,
    /** `decodeURIComponent` */
    decodeUri: JsString -> Option<JsString>,
    /** `encodeURIComponent` */
    encodeUri: JsString -> Option<JsString>,
    /** `rgbToHsl(r, g, b)` */
    rgbToHsl: (int, int, int) -> Hsl,
    /** `hslToRgb(h, s, l)` */
    hslToRgb: (int, int, int) -> Rgb,
    /** `parseFloat(text)`; `None` for NaN */
    parseFloat: JsString -> Option<real>,
    /** `x.toFixed(2)` */
    toFixed2: real -> JsString)

  /** No localiser is loaded: `tr` returns every key's own text. */
  ghost predicate NoLocaliser(host: Host)
  {
    forall k: Key :: host.tr(k) == k.Text()
  }

  // ---------------------------------------------------------------------
  // Arrays

  /** A JavaScript array the converter only ever pushes onto. */
  class JsArray<T> {
    var items: seq<T>

    /** `[]` */
    constructor()
      ensures items == []
    {
      items := [];
    }

    /** `a.push(x)` */
    method Push(x: T)
      modifies this
      ensures items == old(items) + [x]
    {
      items := items + [x];
    }
  }
}
