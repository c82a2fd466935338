/** `truncateOutput` and `formatOutput`: the rendering of what `process`
    returns as one text, capped at CONFIG.MAX_OUTPUT_LENGTH. */
module Formatter {
  import opened Wrappers
  import opened JsStrings
  import opened Converter
  import opened Pipeline

  // ---------------------------------------------------------------------
  // truncateOutput

  /** What `truncateOutput` appends after the kept prefix. */
  function TruncationNotice(host: Host): JsString
  {
    Str("\n\n... [") + host.tr(OutputTruncated) + Str("]")
  }

  /** `truncateOutput(text, maxLength)`: the text itself when it fits, and
      otherwise its first `maxLength` code units and the notice. */
  function TruncateOutput(text: JsString, maxLength: nat, host: Host): (r: JsString)
    ensures |text| <= maxLength ==> r == text
    ensures |text| > maxLength ==> StartsWith(r, text[..maxLength]) && r[maxLength..] == TruncationNotice(host)
    ensures |r| <= maxLength + |TruncationNotice(host)|
    ensures |r| <= maxLength <==> |text| <= maxLength
  {
    if |text| <= maxLength then text else text[..maxLength] + TruncationNotice(host)
  }

  /** Without a localiser the notice is the source's English text. */
  lemma UnlocalisedNotice(host: Host)
    requires NoLocaliser(host)
    ensures TruncationNotice(host) == Str("\n\n... [Output truncated]")
  {
    assert host.tr(OutputTruncated) == Str("Output truncated");
    StrAppend("\n\n... [", "Output truncated");
    StrAppend("\n\n... [" + "Output truncated", "]");
    assert "\n\n... [" + "Output truncated" + "]" == "\n\n... [Output truncated]";
  }

  /** Whatever is cut, the output begins with as much of the text as fits. */
  lemma TruncateKeepsPrefix(text: JsString, maxLength: nat, host: Host)
    ensures var r := TruncateOutput(text, maxLength, host);
      var k := if |text| <= maxLength then |text| else maxLength;
      k <= |r| && r[..k] == text[..k]
  {
  }

  // ---------------------------------------------------------------------
  // The pieces of formatOutput

  /** The rule between blocks: U+2500 repeated 40 times. */
  function Rule(): JsString
  {
    seq(40, _ => Ch('─'))
  }

  /** What stands between two result blocks, and before the error summary. */
  function Separator(): JsString
  {
    Str("\n\n") + Rule() + Str("\n\n")
  }

  /** The block of one result: its label in lenticular brackets on a line of
      its own, then its content. */
  function Block(r: ConversionResult): JsString
  {
    Str("【") + r.title + Str("】\n") + r.content
  }

  function Blocks(rs: seq<ConversionResult>): (b: seq<JsString>)
    ensures |b| == |rs|
  {
    seq(|rs|, k requires 0 <= k < |rs| => Block(rs[k]))
  }

  /** The summary line of one failed conversion. */
  function ErrorLine(e: ConversionError): JsString
  {
    Str("• ") + e.category.Name() + Str(": ") + e.message + Str("\n")
  }

  /** The summary lines of the errors, in order. */
  function ErrorLines(es: seq<ConversionError>): (l: seq<JsString>)
    ensures |l| == |es| && forall k | 0 <= k < |es| :: l[k] == ErrorLine(es[k])
  {
    seq(|es|, k requires 0 <= k < |es| => ErrorLine(es[k]))
  }

  /** The heading of the error summary, after the separator. */
  function ErrorHeader(host: Host): JsString
  {
    Str("⚠ ") + host.tr(SomeConversionsFailed) + Str(":\n")
  }

  /** The error summary: nothing when no conversion failed. */
  function ErrorSection(es: seq<ConversionError>, host: Host): JsString
  {
    if es == [] then [] else Separator() + ErrorHeader(host) + Concat(ErrorLines(es))
  }

  /** `processedResult.error` is a non-empty string. */
  predicate HasError(p: Processed)
  {
    p.Early? && p.error.Some? && p.error.value != []
  }

  function ErrorBlock(message: JsString, host: Host): JsString
  {
    Str("❌ ") + host.tr(ErrorHeading) + Str("\n") + message
  }

  /** The text `formatOutput` builds for a result list before truncating it. */
  function Rendered(rs: seq<ConversionResult>, es: seq<ConversionError>, host: Host): JsString
  {
    Join(Blocks(rs), Separator()) + ErrorSection(es, host)
  }

  /** `formatOutput(processedResult)`. Only the third case is truncated. */
  function Formatted(p: Processed, host: Host): JsString
  {
    if HasError(p) then ErrorBlock(p.error.value, host)
    else if p.Results() == [] then host.tr(NoResults)
    else TruncateOutput(Rendered(p.results, p.errors, host), MaxOutputLength, host)
  }

  // ---------------------------------------------------------------------
  // formatOutput

  /** `formatOutput`: one pass over the results pushing their blocks, a
      join, then one pass over the errors appending their lines. */
  method FormatOutput(p: Processed, host: Host) returns (text: JsString)
    ensures text == Formatted(p, host)
  {
    if HasError(p) {
      return ErrorBlock(p.error.value, host);
    }
    if |p.Results()| == 0 {
      return host.tr(NoResults);
    }
    var result := JoinBlocks(p.results);
    result := AppendErrors(result, p.errors, host);
    text := TruncateOutput(result, MaxOutputLength, host);
  }

  /** The first loop of `formatOutput` and the join after it. */
  method JoinBlocks(rs: seq<ConversionResult>) returns (joined: JsString)
    ensures joined == Join(Blocks(rs), Separator())
  {
    var output: seq<JsString> := [];
    var i := 0;
    while i < |rs|
      invariant 0 <= i <= |rs| && |output| == i
      invariant forall k | 0 <= k < i :: output[k] == Block(rs[k])
    {
      output := output + [Block(rs[i])];
      i := i + 1;
    }
    assert output == Blocks(rs);
    joined := Join(output, Separator());
  }

  /** The error summary `formatOutput` appends when some conversions failed. */
  method AppendErrors(result: JsString, es: seq<ConversionError>, host: Host) returns (r: JsString)
    ensures r == result + ErrorSection(es, host)
  {
    r := result;
    if |es| > 0 {
      r := r + Separator();
      r := r + ErrorHeader(host);
      var base := r;
      ghost var lines := ErrorLines(es);
      var j := 0;
      while j < |es|
        invariant 0 <= j <= |es| && r == base + Concat(lines[..j])
      {
        assert lines[..j + 1][..j] == lines[..j];
        Associative(base, Concat(lines[..j]), lines[j]);
        r := r + ErrorLine(es[j]);
        j := j + 1;
      }
      assert lines[..j] == lines;
      Regroup(result, Separator(), ErrorHeader(host), Concat(lines));
    } else {
      assert result + [] == result;
    }
  }

  /** The appends of `formatOutput`, regrouped as the error section. */
  lemma Regroup(blocks: JsString, sep: JsString, header: JsString, lines: JsString)
    ensures blocks + sep + header + lines == blocks + (sep + header + lines)
  {
  }

  // ---------------------------------------------------------------------
  // What the output says

  /** A non-empty `error` is the whole output, after the error heading. */
  lemma ErrorIsShown(p: Processed, host: Host)
    requires HasError(p)
    ensures var o := Formatted(p, host); var h := Str("❌ ") + host.tr(ErrorHeading) + Str("\n");
      StartsWith(o, h) && o[|h|..] == p.error.value
  {
  }

  /** An over-long input that is not blank is shown as the error naming its
      length, since `process` returns its message as the error. */
  lemma OverlongInputIsShown(input: JsString, settings: Option<Flags>, host: Host)
    requires !AllWhiteSpace(input) && |input| > MaxInputLength
    ensures HasError(Run(input, settings, host))
    ensures Formatted(Run(input, settings, host), host) == ErrorBlock(TooLongMessage(|input|, host), host)
  {
    EarlyReturns(input, settings, host);
  }

  /** Without results the output is the "No results" text, even when some
      conversions failed: their errors are not shown. */
  lemma NoResultsHidesErrors(p: Processed, host: Host)
    requires !HasError(p) && p.Results() == []
    ensures Formatted(p, host) == host.tr(NoResults)
  {
  }

  /** Later parts start later. */
  lemma {:induction false} JoinOffsetGrows(parts: seq<JsString>, sep: JsString, i: nat, k: nat)
    requires i < k <= |parts| && sep != []
    ensures JoinOffset(parts, sep, i) < JoinOffset(parts, sep, k)
  {
    if i > 0 {
      JoinOffsetGrows(parts[1..], sep, i - 1, k - 1);
    }
  }

  /** The blocks appear in result order: the `i`-th result's block starts at
      `JoinOffset` (which grows with `i`), after a separator unless it is the
      first. */
  lemma BlocksInOrder(p: Processed, host: Host, i: nat)
    requires p.Completed? && i < |p.results|
    ensures var o := JoinOffset(Blocks(p.results), Separator(), i); var b := Block(p.results[i]);
      var text := Rendered(p.results, p.errors, host);
      o + |b| <= |text| && text[o..o + |b|] == b &&
      (i > 0 ==> |Separator()| <= o && text[o - |Separator()|..o] == Separator())
  {
    JoinPlacement(Blocks(p.results), Separator(), ErrorSection(p.errors, host), i);
    assert Blocks(p.results)[i] == Block(p.results[i]);
  }

  /** A rendering that fits the limit is the whole output; a longer one is
      cut to the limit and the notice follows. */
  lemma RenderedWhenItFits(p: Processed, host: Host)
    requires p.Completed? && p.results != []
    ensures var text := Rendered(p.results, p.errors, host); var o := Formatted(p, host);
      (|text| <= MaxOutputLength ==> o == text) &&
      (|text| > MaxOutputLength ==> o == text[..MaxOutputLength] + TruncationNotice(host))
  {
    var text := Rendered(p.results, p.errors, host);
    if |text| > MaxOutputLength {
      var o := Formatted(p, host);
      assert o[..MaxOutputLength] == text[..MaxOutputLength];
      assert o == o[..MaxOutputLength] + o[MaxOutputLength..];
    }
  }

  /** The error lines appear in the order of `errors`, one per error, right
      after the summary heading. */
  lemma ErrorLinesInOrder(es: seq<ConversionError>, host: Host, j: nat)
    requires j < |es|
    ensures var s := ErrorSection(es, host); var h := Separator() + ErrorHeader(host);
      var o := |h| + |Concat(ErrorLines(es)[..j])|; var l := ErrorLines(es)[j];
      o + |l| <= |s| && s[o..o + |l|] == l
  {
    var h := Separator() + ErrorHeader(host);
    var lines := ErrorLines(es);
    ConcatPlacement(h, lines, j);
    assert ErrorSection(es, host) == h + Concat(lines);
  }
}
