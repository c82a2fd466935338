# Developer utilities converter, modelled in Dafny

This project models `utils/converter.js`, the conversion core of a desktop
developer-utilities widget. The core takes one text from the user and offers
every reading of it that it recognises:

- a colour in hex, `rgb()` or `hsl()` notation;
- JSON, formatted and minified;
- a JWT, with header and payload decoded;
- a Unix timestamp in seconds or milliseconds, or a date in text;
- URL-encoded and URL-decoded text;
- Base64, decoded or encoded;
- an integer in binary, octal, decimal or hexadecimal.

`process(input, settings)` runs these detectors in a fixed order. Each
detector is switched on by its own settings flag. Each one pushes entries
onto a `results` list and an `errors` list. `formatOutput` then renders the
outcome as one text, which `truncateOutput` caps at `CONFIG.MAX_OUTPUT_LENGTH`.

The modules:

- `JsStrings` (js_strings.dfy):
  - JavaScript strings as sequences of UTF-16 code units, which is what
    `.length` counts;
  - the regular-expression character classes the converter uses;
  - `trim`, `split`, `join` and their properties.
- `Radix` (radix.dfy): `parseInt(s, radix)` and `n.toString(radix)` on
  integers, and their round trip.
- `Base64` (base64.dfy):
  - the shape tests `isValidBase64` and `isValidBase64Url`;
  - the `=` padding loops;
  - the translation of JWT segments to the standard alphabet (sections 4
    and 5 of RFC 4648);
  - the printable-text test on decoded Base64.
- `Converter` (converter.dfy):
  - the `CONFIG` and `TIMESTAMP` constants;
  - the result and error records, the settings flags and the localisation
    keys;
  - `Host`, the collaborators the converter calls but does not define;
  - `JsArray`, an array that is only ever pushed onto.
- `Colors` (colors.dfy): the colour recognisers and parsers, `hexToRgb`,
  `rgbToHex` and `processColor`.
- `Pipeline` (pipeline.dfy):
  - `process` with the defect listed under "## Findings" corrected. It
    appears both as a specification function (`Run`) and as the imperative
    method that pushes onto the two arrays (`Process`, proved equal to
    `Run`);
  - `process` as written (`ProcessAsWritten`). It returns `None` where the
    source throws, and it agrees with `Run` wherever it does not throw
    (`AsWrittenAgrees`);
  - the properties of each detector and of the whole chain.
- `Formatter` (formatter.dfy): `truncateOutput` and `formatOutput`.

Library calls are the fields of `Host`. If a call can throw, its field
returns `None` or `Err`, and that stands for the exception. Those calls are:

- `JSON.parse` and `JSON.stringify`;
- `Qt.atob` and `Qt.btoa`;
- `Date.parse` and the date formatter;
- `decodeURIComponent` and `encodeURIComponent`;
- `tr`;
- `rgbToHsl` and `hslToRgb`;
- `parseFloat` and `toFixed(2)`.

`new Date(t)` is modelled concretely by the TimeClip rule of ECMAScript: a
time value is valid when its magnitude is at most 8.64 × 10^15 ms.

## Model

| member | source | states |
|---|---|---|
| Converter.JsArray.constructor | utils/converter.js:240-241 | A new array is empty. |
| Converter.JsArray.Push | utils/converter.js:270-275 | `push` appends exactly one element at the end and changes nothing else. |
| JsStrings.Trim | utils/converter.js:239 | `trim()` neither starts nor ends with white space. |
| JsStrings.TrimIsSlice | utils/converter.js:239 | `trim()` is a slice of the input, and everything around the slice is white space. |
| JsStrings.TrimEmptyIff | utils/converter.js:235 | `input.trim() === ""` exactly when the input is all white space. |
| JsStrings.TrimIdempotent | utils/converter.js:169 | Trimming the already trimmed input again changes nothing. |
| JsStrings.Split | utils/converter.js:291 | `split('.')` gives at least one part, no part contains the separator, and joining the parts with it gives back the text. |
| JsStrings.SplitCount | utils/converter.js:291-292 | The text has one part more than it has separators. |
| JsStrings.ToUpperAscii | utils/converter.js:71 | `toUpperCase()` on ASCII keeps the length and shifts exactly the lower-case letters. |
| Radix.NatDigits | utils/converter.js:453-474 | `n.toString(radix)` is non-empty, uses only digits of the radix, has no leading zero, and is one digit exactly when `n` is below the radix. |
| Radix.ValueOfNatDigits | utils/converter.js:430-474 | `parseInt(n.toString(radix), radix) == n`. |
| Radix.ValueOfUpper | utils/converter.js:474 | Upper-casing digits does not change their value. |
| Radix.ValueOfBelow | utils/converter.js:320-343 | A string of k digits is worth less than radix^k. |
| Radix.SmallDecimalWidth | utils/converter.js:135 | A number below 1000 has one to three decimal digits. |
| Base64.StripPadding | utils/converter.js:29 | With all trailing `=` removed, the rest is a prefix that does not end in `=`. |
| Base64.ValidBase64Shape | utils/converter.js:28-35 | An accepted string is over the alphabet with `=` only as a trailing run, its length is a multiple of 4 and at least 8, and it has a digit, `+` or `/` unless it is 16 or more units of mixed case. |
| Base64.ValidBase64FromShape | utils/converter.js:28-35 | The converse: those conditions are enough for `isValidBase64`. |
| Base64.ValidBase64UrlShape | utils/converter.js:37-40 | `isValidBase64Url` accepts only strings of at least 8 units over the URL-safe alphabet (letters, digits, `-`, `_`), with `=` only as a trailing run. No length multiple is required. |
| Base64.ValidBase64UrlFromShape | utils/converter.js:37-40 | The converse: those conditions are enough for `isValidBase64Url`. |
| Base64.WordsAreNotBase64 | utils/converter.js:32-34 | A letters-only word shorter than 16, or a single-case word of any length, is never taken for Base64. |
| Base64.PadToQuad | utils/converter.js:295 | The padded text is the input followed by the fewest `=` that make its length a multiple of 4. |
| Base64.PadWithEquals | utils/converter.js:295 | The `while (x.length % 4) x += '='` loop computes `PadToQuad`. |
| Base64.ValidBase64NeedsNoPadding | utils/converter.js:378-382 | The padding loop of the Base64 branch never adds anything to a string `isValidBase64` accepted. |
| Base64.ToStandardAlphabet | utils/converter.js:294 | The `-`/`_` translation keeps the length. |
| Base64.UrlToStandardShape | utils/converter.js:294 | A text over the URL-safe alphabet followed only by `=` padding, the shape `isValidBase64Url` tests at lines 37-40, becomes a text over the standard alphabet with the same padding. Translating back gives the segment. |
| Base64.PrintableRejects | utils/converter.js:384 | The printable test rejects a control character other than white space, DEL, and anything from U+0080 to U+07FF that is not white space. |
| Colors.ExpandedDigits | utils/converter.js:43-46 | The digits `hexToRgb` reads are six or eight hex digits. |
| Colors.HexToRgb | utils/converter.js:42-61 | Every channel is in 0..255. Alpha is 1 unless there are 8 digits; with 8 digits it is in [0, 1], and below 1 exactly when the alpha pair is not `FF`. |
| Colors.HexShorthand | utils/converter.js:44-46 | The 3-digit form gives the channels of the 6-digit form with every digit doubled, so each channel is 17 times its digit. |
| Colors.ByteAtIsParseInt | utils/converter.js:49-58 | Each channel is `parseInt` of its two hex digits. |
| Colors.Hex2OfByte | utils/converter.js:65-67 | For a byte, the `slice(-2)` digits are the high and low hex digits, the high one written even when it is zero. |
| Colors.HexByte | utils/converter.js:63-71 | A byte is written as two upper-case hex digits that read back as the byte. |
| Colors.RgbToHexBytes | utils/converter.js:63-71 | `rgbToHex` of byte channels is `#`, the upper-case digits of each channel, and the upper-cased alpha digits. |
| Colors.RgbToHexRoundTrip | utils/converter.js:42-72 | With byte channels and no alpha below 1, `rgbToHex` writes `#` and exactly six digits, none lower-case, and `hexToRgb` of that gives back r, g, b with alpha 1. |
| Colors.RgbToHexWithAlpha | utils/converter.js:42-72 | With an alpha in [0, 1), `rgbToHex` writes eight digits, and `hexToRgb` reads back r, g, b and `Math.round(a*255)/255`. |
| Colors.HexByteOfPair | utils/converter.js:63-71 | Two hex digits read as a byte and written back by `rgbToHex` are the same two digits, upper-cased. |
| Colors.HexRoundTrip | utils/converter.js:42-72 | A six-digit hex colour passed through `hexToRgb` and then `rgbToHex` comes back as itself, upper-cased. |
| Colors.HexRoundTripWithAlpha | utils/converter.js:42-72 | An eight-digit hex colour whose alpha pair is not `FF` comes back as itself, upper-cased, alpha pair included. |
| Colors.OpaqueAlphaDropped | utils/converter.js:42-72 | An eight-digit hex colour with alpha pair `FF` comes back as its first six digits, upper-cased. |
| Colors.ShorthandWidens | utils/converter.js:42-72 | A three-digit hex colour comes back in its six-digit form, every digit doubled and upper-cased. |
| Colors.MatchArgs | utils/converter.js:134-146 | A match of a colour function starts with its name, in either case. |
| Colors.ParseRgb | utils/converter.js:148-156 | On a string `isRgbString` accepts, channels are in 0..255; with no alpha text, alpha is 1. |
| Colors.ParseHsl | utils/converter.js:158-166 | On a string `isHslString` accepts, hue is at most 360 and saturation and lightness at most 100; with no alpha text, alpha is 1. |
| Colors.NotationsDisjoint | utils/converter.js:130-146 | No string is accepted by two of `isHexString`, `isRgbString` and `isHslString`. |
| Colors.RgbTextMatches | utils/converter.js:134-139 | The `rgb(r, g, b)` text that `processColor` prints (line 178) is matched with exactly its three decimal groups and no alpha. |
| Colors.RgbaTextMatches | utils/converter.js:134-139 | The `rgba(...)` text printed at line 179 is matched with its groups and its alpha text. |
| Colors.HslTextMatches | utils/converter.js:141-146 | The `hsl(h, s%, l%)` text printed at line 185 is matched with its three groups and no alpha. |
| Colors.HslaTextMatches | utils/converter.js:141-146 | The `hsla(...)` text printed at line 186 is matched with its groups and its alpha text. |
| Colors.RgbTextParses | utils/converter.js:134-156 | `isRgbString` accepts the printed `rgb(r, g, b)` for byte channels, and `parseRgb` gives back r, g, b with alpha 1. |
| Colors.RgbaTextParses | utils/converter.js:134-156 | The same for `rgba(...)`; the alpha is `parseFloat` of the alpha text. |
| Colors.HslTextParses | utils/converter.js:141-166 | `isHslString` accepts the printed `hsl(h, s%, l%)` for values in range, and `parseHsl` gives them back. |
| Colors.HslaTextParses | utils/converter.js:141-166 | The same for `hsla(...)`. |
| Colors.TrimmedTests | utils/converter.js:169 | Trimming the trimmed input again changes none of the three tests. |
| Colors.ColorResultsShape | utils/converter.js:168-232 | `processColor` adds two colour results exactly when the trimmed input is one of the three notations, and nothing otherwise. |
| Colors.ProcessColor | utils/converter.js:168-232 | The method pushes exactly `ColorResults(input)` onto `results`, trying hex, then rgb, then hsl, and returns true exactly when it pushed something. |
| Colors.PushHexResults | utils/converter.js:171-189 | The hex branch pushes its two results. |
| Colors.PushRgbResults | utils/converter.js:191-209 | The rgb branch pushes its two results. |
| Colors.PushHslResults | utils/converter.js:211-229 | The hsl branch pushes its two results. |
| Colors.HexResultParses | utils/converter.js:171-180 | For a hex colour with alpha 1, the `rgb(...)` result parses back as the channels of `hexToRgb`. |
| Colors.RgbResultReadsBack | utils/converter.js:191-200 | For an rgb text with no alpha below 1, the HEX result reads back, through `hexToRgb`, as the parsed channels with alpha 1. |
| Colors.RgbResultReadsBackWithAlpha | utils/converter.js:191-200 | With an alpha in [0, 1), the HEX result reads back as the channels and the rounded alpha. |
| Colors.RgbBranch | utils/converter.js:191-193 | A trimmed rgb text takes the rgb branch, and its first result is `rgbToHex` of the parsed value. |
| Colors.HslBranch | utils/converter.js:211-227 | A trimmed hsl text takes the hsl branch: the HEX and rgb results are computed from `hslToRgb` of the parsed value. |
| Colors.HslResultsAgree | utils/converter.js:211-227 | With byte channels from `hslToRgb` and no alpha below 1, the HEX result and the rgb result describe the same colour. |
| Pipeline.Process | utils/converter.js:234-488 | The method, which pushes onto the two arrays in source order, returns exactly `Run`. |
| Pipeline.ProcessColorIf | utils/converter.js:261-263 | The colour detector pushes `ColorStep` when its flag is set. |
| Pipeline.ProcessJson | utils/converter.js:265-288 | The JSON detector pushes `JsonStep` when its flag is set. |
| Pipeline.DecodeSegment | utils/converter.js:294-297 | One JWT segment is translated, padded by the loop, decoded and parsed, giving `SegmentJson`. |
| Pipeline.ProcessJwt | utils/converter.js:290-318 | The JWT detector pushes `JwtStep` when its flag is set. |
| Pipeline.ProcessTimestamp | utils/converter.js:320-344 | The timestamp detector pushes `TimestampStep`. |
| Pipeline.ProcessDate | utils/converter.js:346-360 | The date detector pushes `DateStep`. |
| Pipeline.ProcessUrlDecode | utils/converter.js:362-375 | The URL decoder pushes `UrlDecodeStep`. |
| Pipeline.ProcessBase64Decode | utils/converter.js:377-395 | The Base64 decoder pushes its step, and `wasBase64Decoded` is set exactly when it decoded to printable text. |
| Pipeline.ProcessBase64Encode | utils/converter.js:397-406 | The Base64 encoder pushes `Base64EncodeStep`, which is empty when the decoder produced a result. |
| Pipeline.ProcessUrlEncode | utils/converter.js:408-420 | The URL encoder pushes `UrlEncodeStep`. |
| Pipeline.ProcessNumber | utils/converter.js:422-480 | The number detector pushes `NumberStep`. |
| Pipeline.PushNumberResults | utils/converter.js:449-476 | The four guarded pushes push exactly the results for the bases other than the input's. |
| Pipeline.ReadNumber | utils/converter.js:423-441 | A reading is always in base 2, 8, 10 or 16. |
| Pipeline.ReadNumberOfDigits | utils/converter.js:423-441 | Decimal digits, with or without a leading minus, are read as their value, with that sign. |
| Pipeline.NegatedRead | utils/converter.js:426-427 | A minus sign in front changes only the sign of the reading. |
| Pipeline.BinaryReadsBack | utils/converter.js:432-434 | The `0b` text the detector prints for a magnitude (line 453) is read back by its `0b` branch as that magnitude, in base 2. |
| Pipeline.OctalReadsBack | utils/converter.js:435-437 | The `0o` text printed for a magnitude (line 460) is read back by the `0o` branch as that magnitude, in base 8. |
| Pipeline.DecimalReadsBack | utils/converter.js:438-441 | The decimal text printed for a number (line 467) is read back by the decimal branch as that number, with its sign. |
| Pipeline.HexadecimalReadsBack | utils/converter.js:429-431 | The `0x`/`-0x` text with upper-case digits printed for a number (line 474) is read back by the `0x` branch as that number, with its sign. |
| Pipeline.NumberResultsReadBack | utils/converter.js:443-476 | A safe number gives no error and exactly three results, one per other base, in the order binary, octal, decimal, hexadecimal. The detector itself reads each one back as the input's magnitude in that base. The sign survives only in decimal and hexadecimal. The hexadecimal digits after `0x` or `-0x` are upper-case. |
| Pipeline.UnsafeNumberRefused | utils/converter.js:444-445 | A magnitude above 2^53-1 gives exactly one Number error and no result. |
| Pipeline.BlankInputIgnored | utils/converter.js:235-236 | An empty or all-white-space input gives no results and a null error, however long it is. |
| Pipeline.EarlyReturns | utils/converter.js:235-259 | `process` returns early exactly for blank or over-long input, sets `truncated` exactly for a non-blank over-long input, and never has results for blank input. A non-blank over-long input returns no results and, as its error, the non-empty message naming its length. |
| Pipeline.ChainEnabled | utils/converter.js:261-480 | If every detector reports under its own category, every entry of the chain has a category whose flag is set. |
| Pipeline.DetectedEnabled | utils/converter.js:261-480 | Every entry the detectors push has a category whose flag is set. |
| Pipeline.OnlyEnabledOutput | utils/converter.js:243-480 | Every result and every error of a completed run belongs to a detector that the settings enable; with no settings, all are enabled. |
| Pipeline.TimestampAlwaysValid | utils/converter.js:320-344 | The timestamp detector never reports an error and gives at most one result. It gives a result exactly for all-digit input of 9 to 14 digits, because such a time value is always valid. With 9 to 11 digits the value is read as seconds and multiplied by 1000; with 12 to 14 digits it is read as milliseconds. |
| Pipeline.DateOrTimestamp | utils/converter.js:320-346 | The date detector never runs on all-digit input, so the timestamp and date detectors never both report. |
| Pipeline.DateResultsReadBack | utils/converter.js:346-360 | A date `Date.parse` accepts gives no error and two results. Read back as decimal numbers, the first is the time value in whole seconds rounded down and the second is the time value in milliseconds. |
| Pipeline.Base64DecodeOrEncode | utils/converter.js:377-406 | A decode result appears exactly when `isValidBase64` holds and the decoded text is non-empty and printable; it is `Qt.atob` of the input itself. A decode error appears exactly when `Qt.atob` throws on shape-valid input. Decode and encode never both give a result. When nothing was decoded, the encoder gives a result exactly when `Qt.btoa` of the untrimmed input differs from that input, and the result is that encoding. The encoder never gives an error. |
| Pipeline.UrlDecodeOutputs | utils/converter.js:362-375 | The URL decoder runs only on input containing `%`. An error appears exactly when decoding throws. A result appears exactly when the decoded text differs from the input, and it is that decoded text. |
| Pipeline.UrlEncodeOutputs | utils/converter.js:408-420 | Input made only of word characters, `-`, `.` and `~` is never encoded. Otherwise a result appears exactly when the encoded text differs from the input, and that result's content is the encoded text. The error appears exactly when encodeURIComponent throws. |
| Pipeline.JsonOutputs | utils/converter.js:265-288 | The JSON detector runs only on input starting with `{` or `[`. It reports either the parser's error or up to two results, each different from the input. When parsing succeeds there is no error. The formatted text is pushed, highlighted and first, exactly when it differs from the input. The minified text is pushed, unhighlighted and last, exactly when it differs from both the input and the formatted text. |
| Pipeline.JwtReportsOnce | utils/converter.js:290-318 | A shape of three non-empty parts gives exactly one entry; any other input gives none. The entry is a result exactly when header and payload both decode to JSON. That result is highlighted, is titled JWT Decode, and holds the header's and the payload's pretty-printed JSON, each under its `=== Header ===` or `=== Payload ===` heading. |
| Pipeline.JwtIgnoresSignature | utils/converter.js:294-307 | Two tokens that differ only in their third part give the same output. |
| Pipeline.JwtShapeHasTwoDots | utils/converter.js:291-292 | A token shape has exactly two dots, and neither is at an end. |
| Pipeline.UnguardedEncodeThrows | utils/converter.js:408-420 | As written, with an `encodeURIComponent` that rejects unpaired surrogates as ECMAScript requires, a non-blank input within the length limit that holds one makes `process` throw whenever the URL detectors are on. |
| Pipeline.LoneSurrogateThrows | utils/converter.js:411 | The one-unit input U+D800 makes `process` as written throw. |
| Pipeline.EncodeFailureReported | utils/converter.js:408-420 | With the encoder's failure caught as the decoder's is, `process` returns, and the failure is among its URL errors. |
| Pipeline.AsWrittenAgrees | utils/converter.js:234-488 | Whenever `process` as written returns, it returns what the corrected model returns; it throws only when the URL encoder is on and fails. |
| Formatter.TruncateOutput | utils/converter.js:23-26 | A text within the limit comes back unchanged. A longer one gives its first `maxLength` code units followed by the notice. The result is at most `maxLength` plus the notice length, and fits the limit exactly when nothing was cut. |
| Formatter.TruncateKeepsPrefix | utils/converter.js:23-26 | The output always starts with as much of the text as fits. |
| Formatter.FormatOutput | utils/converter.js:490-517 | The method, with its two loops, computes `Formatted`. |
| Formatter.JoinBlocks | utils/converter.js:499-505 | The results loop and the join give the blocks joined by the separator. |
| Formatter.AppendErrors | utils/converter.js:507-514 | The errors loop appends the separator, the heading and one line per error, and nothing when there is no error. |
| Formatter.UnlocalisedNotice | utils/converter.js:23-26 | With no localiser loaded, the truncation notice is `\n\n... [Output truncated]`. |
| Formatter.OverlongInputIsShown | utils/converter.js:253-259 | A non-blank input over 100000 code units is shown as the error heading followed by the message naming its length. |
| Formatter.ErrorIsShown | utils/converter.js:491-493 | With a non-empty `error`, the output is the error heading line followed by exactly that error. |
| Formatter.NoResultsHidesErrors | utils/converter.js:495-497 | With no results, the output is the "No results" text, even when some conversions failed. |
| Formatter.BlocksInOrder | utils/converter.js:499-505 | The i-th result's block `【label】\ncontent` sits at its offset, and every block after the first has the rule of 40 `─` before it. |
| Formatter.JoinOffsetGrows | utils/converter.js:505 | Later blocks start later. |
| Formatter.ErrorLinesInOrder | utils/converter.js:507-514 | The j-th error's line `• type: message` sits after the heading and the lines of the errors before it. |
| Formatter.RenderedWhenItFits | utils/converter.js:516 | A rendering within 50000 code units is the whole output; a longer one is cut to 50000 and the notice follows. |

## Left out

- The `null` or `undefined` input of `process` is not modelled. A JavaScript string is never null here, and the empty string is modelled.
- Localisation is not modelled. `tr` is an arbitrary function from keys to texts. The predicate `NoLocaliser` says that `tr` returns each key's own English text (`Key.Text`), which is what happens when no localiser is loaded; `Formatter.UnlocalisedNotice` uses it.
- Qt.btoa is assumed never to throw, as the source assumes: the Base64 encode branch has no `try`.
- `JSON.parse`/`JSON.stringify`, `Qt.atob`, `Date.parse`, the date formatting, `decodeURIComponent` and `encodeURIComponent` are opaque, possibly failing functions. Only the conditions under which their results are pushed or dropped are modelled.
- `rgbToHsl`, `hslToRgb` and `hue2rgb` are not modelled, because they are floating-point arithmetic. They are opaque functions feeding `processColor`.
- The alpha arithmetic is modelled on exact reals: `parseInt(..)/255`, `Math.round(a*255)` and `parseFloat`. `toFixed(2)` is opaque.
- `getConfig` and `CONFIG.DEBOUNCE_INTERVAL` have nothing to prove; the constant is declared.
- Radix.ValueOf: `parseInt` and the comparison with `Number.MAX_SAFE_INTEGER` are computed on exact integers, not doubles. Rounding to the nearest double is monotone and 2^53 is a double, so both give the same verdict. The printed digits of an unsafe value are never produced.
- The `config` field of the normal return is not modelled; it is always CONFIG.
- Colors.HexRoundTrip: hex to rgb to hex gives back the same text, ignoring case, only for six digits, and for eight digits whose alpha pair is not `FF`. The three-digit form comes back widened (`#abc` becomes `#AABBCC`, `Colors.ShorthandWidens`). An `FF` alpha pair is dropped (`#112233FF` becomes `#112233`, `Colors.OpaqueAlphaDropped`).
- The sign of a negative number is dropped in the binary and octal results, because the source applies `Math.abs`, and kept in decimal and hexadecimal. `Pipeline.NumberResultsReadBack` states this as the source does it; it is not treated as a defect.

## Findings

| source | as written | input that shows it | evidently intended | confidence | as-written member | corrected member |
|---|---|---|---|---|---|---|
| utils/converter.js:408-420 | `encodeURIComponent(input)` is called outside any `try`. ECMAScript makes it throw a URIError on an unpaired surrogate, so the exception escapes `process` and every result already computed is lost. | the one-code-unit input U+D800, with the URL detector on | The call is caught like every other library call, and the failure is reported as a URL error. | medium, not executed | Pipeline.UnguardedEncodeThrows | Pipeline.EncodeFailureReported |
