/** The post-processing of the software developer agent's answer on the server: an
    answer that already ends with the target file's end marker is returned as it is;
    otherwise the header line is put in front when missing, one continuation is asked
    for, quoting the last five lines, and merged in place of them, the end marker is put
    at the end, and the code fences are stripped. The two answers of the language model
    are parameters: the first answer, and the continuation or its failure. */
module SoftwareDeveloper {
  import opened Wrappers
  import opened JsString
  import opened LineWindow

  datatype TargetFile = Html | Css | Js

  /** `fileFirstLine[targetFile]`. */
  function FirstLine(t: TargetFile): string
  {
    match t
    case Html => HtmlFirstLine
    case Css => "/*index.css*/"
    case Js => "/*index.js*/"
  }

  /** `lastFileLine[targetFile]`, the end marker. */
  function LastLine(t: TargetFile): string
  {
    match t
    case Html => HtmlLastLine
    case Css => "/* end of index.css */"
    case Js => "/* end of index.js */"
  }

  /** The header of the HTML file, written in two pieces. */
  const HtmlFirstLine := "<!-- 当前文件为index.html，" + "还需通过标签引入index.css和index.js -->"
  const HtmlLastLine := "<!-- end of index.html -->"

  /** The fence text stripped first. */
  const JsFence := "```javascript"

  /** The facts about the two marker lines the proofs use: the end marker is one line
      without backticks and does not occur in the header, which starts and ends with a
      character other than white space. */
  predicate MarkersFit(h: string, e: string)
  {
    |e| > 0 && '\n' !in e && '`' !in e && e[0] !in JsFence && e[0] !in Fence
    && !Contains(h, e)
    && |h| > 0 && !IsSpace(h[0]) && !IsSpace(h[|h| - 1])
  }

  lemma MarkerFacts(t: TargetFile)
    ensures MarkersFit(FirstLine(t), LastLine(t))
  {
    match t
    case Html => HtmlMarkers();
    case Css => CssMarkers();
    case Js => JsMarkers();
  }

  lemma HtmlMarkers()
    ensures MarkersFit(FirstLine(Html), LastLine(Html))
  {
    HtmlHeaderLacksEnd();
    HtmlEndIsPlain();
  }

  lemma HtmlEndIsPlain()
    ensures '\n' !in HtmlLastLine && '`' !in HtmlLastLine
  {
  }

  lemma HtmlHeaderLacksEnd()
    ensures !Contains(FirstLine(Html), LastLine(Html))
  {
    HtmlNoOccurrence();
  }

  lemma HtmlNoOccurrence()
    ensures forall i: nat :: !OccursAt(HtmlFirstLine, HtmlLastLine, i)
  {
    forall i: nat | i + |HtmlLastLine| <= |HtmlFirstLine|
      ensures !OccursAt(HtmlFirstLine, HtmlLastLine, i)
    {
      if i == 0 {
        assert HtmlFirstLine[5] != HtmlLastLine[5];
      } else {
        assert HtmlFirstLine[i] != HtmlLastLine[0];
      }
    }
  }

  lemma CssMarkers()
    ensures MarkersFit(FirstLine(Css), LastLine(Css))
  {
  }

  lemma JsMarkers()
    ensures MarkersFit(FirstLine(Js), LastLine(Js))
  {
  }

  // ---------------------------------------------------------------------------
  // The steps

  /** Puts the header line and a newline in front unless the trimmed answer already
      starts with it. */
  function WithHeader(t: TargetFile, response: string): string
  {
    if !StartsWith(Trim(response), FirstLine(t)) then FirstLine(t) + "\n" + response else response
  }

  /** The kept lines, a newline when they are not blank, and the trimmed continuation. */
  function Merged(processed: string, continued: string): string
  {
    var originalContent := BeforeWindow(processed);
    var separated := if Trim(originalContent) != "" then originalContent + "\n" else originalContent;
    separated + Trim(continued)
  }

  /** Appends the end marker on a line of its own when it is missing. */
  function WithEndLine(t: TargetFile, s: string): string
  {
    if !Contains(s, LastLine(t)) then s + "\n" + LastLine(t) else s
  }

  /** `replace(/```javascript/g, "")` and then `replace(/```/g, "")`. */
  function StripFences(s: string): string
  {
    RemoveAll(RemoveAll(s, JsFence), Fence)
  }

  /** What `generateCode` returns for the first answer and the continuation, `None`
      standing for a continuation that failed. */
  function Generated(t: TargetFile, response: string, continued: Option<string>): string
  {
    if Contains(response, LastLine(t)) then response
    else
      var processed := WithHeader(t, response);
      if !Contains(processed, LastLine(t)) then
        match continued
        case Some(c) => StripFences(WithEndLine(t, Merged(processed, c)))
        case None => StripFences(processed) + "\n" + LastLine(t)
      else StripFences(processed) + "\n" + LastLine(t)
  }

  /** The five lines quoted in the continuation prompt, when one is asked for. */
  function Quoted(t: TargetFile, response: string): Option<string>
  {
    if Contains(response, LastLine(t)) || Contains(WithHeader(t, response), LastLine(t)) then None
    else Some(Window(WithHeader(t, response)))
  }

  /** `generateCode` after the first answer, rebuilding `processedResponse` step by
      step; also gives the lines it quotes in the continuation prompt. */
  method GenerateCode(target: TargetFile, response: string, continued: Option<string>)
    returns (result: string, quoted: Option<string>)
    ensures result == Generated(target, response, continued)
    ensures quoted == Quoted(target, response)
  {
    var firstLine, lastLine := FirstLine(target), LastLine(target);
    if Contains(response, lastLine) {
      return response, None;
    }
    var processedResponse := response;
    if !StartsWith(Trim(processedResponse), firstLine) {
      processedResponse := firstLine + "\n" + processedResponse;
    }
    ghost var processed := processedResponse;
    assert processed == WithHeader(target, response);
    var isGenerationIncomplete := !Contains(processedResponse, lastLine);
    if isGenerationIncomplete {
      var lastFiveLines := Window(processedResponse);
      quoted := Some(lastFiveLines);
      match continued
      case Some(continuedResponse) =>
        var originalContent := BeforeWindow(processedResponse);
        processedResponse := originalContent;
        if Trim(originalContent) != "" {
          processedResponse := processedResponse + "\n";
        }
        processedResponse := processedResponse + Trim(continuedResponse);
        assert processedResponse == Merged(processed, continuedResponse);
        if !Contains(processedResponse, lastLine) {
          processedResponse := processedResponse + "\n" + lastLine;
        }
        assert processedResponse == WithEndLine(target, Merged(processed, continuedResponse));
        processedResponse := RemoveAll(processedResponse, JsFence);
        processedResponse := RemoveAll(processedResponse, Fence);
        result := processedResponse;
        GeneratedContinued(target, response, continuedResponse);
      case None =>
        processedResponse := RemoveAll(processedResponse, JsFence);
        processedResponse := RemoveAll(processedResponse, Fence);
        result := processedResponse + "\n" + lastLine;
        GeneratedFailed(target, response);
    } else {
      quoted := None;
      processedResponse := RemoveAll(processedResponse, JsFence);
      processedResponse := RemoveAll(processedResponse, Fence);
      result := processedResponse + "\n" + lastLine;
      GeneratedMarked(target, response, continued);
    }
  }

  lemma GeneratedContinued(t: TargetFile, response: string, c: string)
    requires !Contains(response, LastLine(t)) && !Contains(WithHeader(t, response), LastLine(t))
    ensures Generated(t, response, Some(c)) == StripFences(WithEndLine(t, Merged(WithHeader(t, response), c)))
  {
  }

  lemma GeneratedFailed(t: TargetFile, response: string)
    requires !Contains(response, LastLine(t)) && !Contains(WithHeader(t, response), LastLine(t))
    ensures Generated(t, response, None) == StripFences(WithHeader(t, response)) + "\n" + LastLine(t)
  {
  }

  lemma GeneratedMarked(t: TargetFile, response: string, continued: Option<string>)
    requires !Contains(response, LastLine(t))
    ensures Contains(WithHeader(t, response), LastLine(t)) ==>
      Generated(t, response, continued) == StripFences(WithHeader(t, response)) + "\n" + LastLine(t)
  {
  }

  // ---------------------------------------------------------------------------
  // Properties

  /** An answer with the end marker comes back unchanged, and nothing is quoted. */
  lemma CompleteAnswerUnchanged(t: TargetFile, response: string, continued: Option<string>)
    requires Contains(response, LastLine(t))
    ensures Generated(t, response, continued) == response
    ensures Quoted(t, response).None?
  {
  }

  /** After the header step the trimmed text starts with the header line, so the step
      is idempotent. */
  lemma HeaderEnsured(t: TargetFile, response: string)
    ensures StartsWith(Trim(WithHeader(t, response)), FirstLine(t))
    ensures WithHeader(t, WithHeader(t, response)) == WithHeader(t, response)
  {
    var h := FirstLine(t);
    if !StartsWith(Trim(response), h) {
      MarkerFacts(t);
      HeaderStartsTrim(h, response);
    }
  }

  lemma HeaderStartsTrim(h: string, r: string)
    requires |h| > 0 && !IsSpace(h[0]) && !IsSpace(h[|h| - 1])
    ensures StartsWith(Trim(h + "\n" + r), h)
  {
    var s := h + "\n" + r;
    assert s[0] == h[0] && s[|h| - 1] == h[|h| - 1];
    TrimKeeps(s, |h| - 1);
    assert Trim(s)[..|h|] == s[..|h|] == h;
  }

  /** The header step cannot bring in the end marker: the header holds none and the
      marker holds no newline. */
  lemma HeaderAddsNoEndLine(t: TargetFile, response: string)
    requires !Contains(response, LastLine(t))
    ensures !Contains(WithHeader(t, response), LastLine(t))
  {
    if !StartsWith(Trim(response), FirstLine(t)) {
      MarkerFacts(t);
      NoMarkerAcrossNewline(FirstLine(t), LastLine(t), response);
    }
  }

  lemma NoMarkerAcrossNewline(h: string, e: string, r: string)
    requires !Contains(h, e) && !Contains(r, e) && '\n' !in e
    ensures !Contains(h + "\n" + r, e)
  {
    var s := h + "\n" + r;
    forall i: nat | i + |e| <= |s|
      ensures !OccursAt(s, e, i)
    {
      if i + |e| <= |h| {
        assert s[i..i + |e|] == h[i..i + |e|];
        assert !OccursAt(h, e, i);
      } else if i > |h| {
        OccursAtShift(h + "\n", r, [], e, i - |h| - 1);
        assert h + "\n" + r + [] == s;
        assert !OccursAt(r, e, i - |h| - 1);
      } else {
        assert s[|h|] == '\n';
        assert s[i..i + |e|][|h| - i] == '\n';
      }
    }
  }

  /** So the generation is always found incomplete and the branch that only appends
      the end marker is never taken; the continuation is asked for with the last five
      lines of the text with its header. */
  lemma AlwaysIncomplete(t: TargetFile, response: string, continued: Option<string>)
    requires !Contains(response, LastLine(t))
    ensures !Contains(WithHeader(t, response), LastLine(t))
    ensures Quoted(t, response) == Some(Window(WithHeader(t, response)))
  {
    HeaderAddsNoEndLine(t, response);
  }

  /** With at most five lines nothing is kept and the result of the merge is the
      trimmed continuation. */
  lemma MergedShort(processed: string, continued: string)
    requires |Split(processed)| <= OverlapLines
    ensures Merged(processed, continued) == Trim(continued)
  {
    assert BeforeWindow(processed) == "";
    assert Trim("") == "";
  }

  /** With more lines and a kept part that is not blank, the merged text is the kept
      lines followed by the lines of the trimmed continuation: the five quoted lines are
      replaced and no line is glued to another. */
  lemma MergedLines(processed: string, continued: string)
    requires |Split(processed)| > OverlapLines
    requires Trim(BeforeWindow(processed)) != ""
    ensures Split(Merged(processed, continued)) ==
      Split(processed)[..|Split(processed)| - OverlapLines] + Split(Trim(continued))
  {
    MergedForm(processed, continued);
    KeptThenLines(processed, BeforeWindow(processed), Trim(continued), Merged(processed, continued));
  }

  lemma KeptThenLines(s: string, p: string, y: string, m: string)
    requires |Split(s)| > OverlapLines && Split(p) == Split(s)[..|Split(s)| - OverlapLines]
    requires m == p + ("\n" + y)
    ensures Split(m) == Split(s)[..|Split(s)| - OverlapLines] + Split(y)
  {
    LinesAfterSeparator(p, y);
  }

  lemma MergedForm(processed: string, continued: string)
    requires Trim(BeforeWindow(processed)) != ""
    ensures Merged(processed, continued) == BeforeWindow(processed) + ("\n" + Trim(continued))
  {
  }

  lemma LinesAfterSeparator(p: string, y: string)
    ensures Split(p + ("\n" + y)) == Split(p) + Split(y)
  {
    SplitConcat(p, "\n" + y);
    assert ("\n" + y)[0] == '\n' && ("\n" + y)[1..] == y;
    assert Split("\n" + y) == [""] + Split(y);
    SeparatedLines(Split(p), Split(y));
  }

  lemma SeparatedLines(lp: seq<string>, ly: seq<string>)
    requires |lp| >= 1
    ensures var nl := [""] + ly;
      lp[..|lp| - 1] + [lp[|lp| - 1] + nl[0]] + nl[1..] == lp + ly
  {
    var nl := [""] + ly;
    assert lp[|lp| - 1] + "" == lp[|lp| - 1];
    assert nl[1..] == ly;
    assert lp[..|lp| - 1] + [lp[|lp| - 1]] == lp;
  }

  /** Stripping the fences keeps an end marker that is there. */
  lemma StripKeepsMarker(s: string, e: string)
    requires |e| > 0 && '`' !in e && e[0] !in JsFence && e[0] !in Fence
    requires Contains(s, e)
    ensures Contains(StripFences(s), e)
  {
    var i: nat :| OccursAt(s, e, i);
    RemoveAllKeeps(s, JsFence, e, i);
    var s1 := RemoveAll(s, JsFence);
    var j: nat :| OccursAt(s1, e, j);
    RemoveAllKeeps(s1, Fence, e, j);
  }

  /** The marker appended on its own line after the stripped text, and no fence. */
  lemma StrippedThenMarker(s: string, e: string)
    requires '`' !in e
    ensures Contains(StripFences(s) + "\n" + e, e)
    ensures !Contains(StripFences(s) + "\n" + e, Fence)
  {
    var r := StripFences(s);
    RemoveFenceLeavesNone(RemoveAll(s, JsFence));
    assert r + "\n" + e == r + ("\n" + e);
    ContainsSuffix(r + "\n", e);
    assert '`' !in "\n" + e;
    NoFenceConcat(r, "\n" + e);
  }

  /** The end-marker step then stripping: the marker is there and no fence is. */
  lemma EndLineThenStripped(m: string, e: string)
    requires |e| > 0 && '`' !in e && e[0] !in JsFence && e[0] !in Fence
    ensures var w := if !Contains(m, e) then m + "\n" + e else m;
      Contains(StripFences(w), e) && !Contains(StripFences(w), Fence)
  {
    var w := if !Contains(m, e) then m + "\n" + e else m;
    if !Contains(m, e) {
      ContainsSuffix(m + "\n", e);
    }
    StripKeepsMarker(w, e);
    RemoveFenceLeavesNone(RemoveAll(w, JsFence));
  }

  /** Every text returned once the first answer lacked the end marker holds the end
      marker and no "```". */
  lemma GeneratedEndsAndUnfenced(t: TargetFile, response: string, continued: Option<string>)
    requires !Contains(response, LastLine(t))
    ensures Contains(Generated(t, response, continued), LastLine(t))
    ensures !Contains(Generated(t, response, continued), Fence)
  {
    MarkerFacts(t);
    var processed := WithHeader(t, response);
    HeaderAddsNoEndLine(t, response);
    match continued
    case Some(c) =>
      EndLineThenStripped(Merged(processed, c), LastLine(t));
    case None =>
      StrippedThenMarker(processed, LastLine(t));
  }
}
