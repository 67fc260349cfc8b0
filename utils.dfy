/** The Markdown helpers of the web client: fenced-code extraction, the repair of an
    answer cut off inside an ```html block, the "exactly one html block" test, and the
    five-line overlap quoted when an answer is continued (`LineWindow.Window`). */
module Utils {
  import opened Wrappers
  import opened JsString
  import opened JsRegex

  datatype CodeBlock = CodeBlock(language: string, code: string)

  // ---------------------------------------------------------------------------
  // /(?:```|~~~)\s*([a-zA-Z0-9-]*)\n([\s\S]*?)\n(?:```|~~~)(?=\n|$)/g

  /** Either fence, three backticks or three tildes, at `i`. */
  predicate IsFenceAt(s: string, i: nat)
  {
    i + 3 <= |s|
    && ((s[i] == '`' && s[i + 1] == '`' && s[i + 2] == '`') || (s[i] == '~' && s[i + 1] == '~' && s[i + 2] == '~'))
  }

  predicate IsTagChar(c: char)
  {
    'a' <= c <= 'z' || 'A' <= c <= 'Z' || '0' <= c <= '9' || c == '-'
  }

  lemma TagCharIsNotSpace(c: char)
    requires IsTagChar(c)
    ensures !IsSpace(c) && c != '\n'
  {
  }

  /** Length of the run of tag characters at `i` (a greedy `[a-zA-Z0-9-]*`). */
  function TagRun(s: string, i: nat): (n: nat)
    ensures n > 0 ==> i + n <= |s|
    ensures forall k :: i <= k < i + n ==> IsTagChar(s[k])
    ensures i + n >= |s| || !IsTagChar(s[i + n])
    decreases |s| - i
  {
    if i < |s| && IsTagChar(s[i]) then 1 + TagRun(s, i + 1) else 0
  }

  lemma {:induction false} TagRunCovers(s: string, i: nat, n: nat)
    requires i + n <= |s| && forall k :: i <= k < i + n ==> IsTagChar(s[k])
    ensures TagRun(s, i) >= n
    decreases n
  {
    if n > 0 {
      TagRunCovers(s, i + 1, n - 1);
    }
  }

  /** `\n(?:```|~~~)(?=\n|$)` at `j`. */
  predicate IsFenceCloseAt(s: string, j: nat)
  {
    j < |s| && s[j] == '\n' && IsFenceAt(s, j + 1) && (j + 4 == |s| || (j + 4 < |s| && s[j + 4] == '\n'))
  }

  function FenceCloseAt(s: string, j: nat): Option<()>
  {
    if IsFenceCloseAt(s, j) then Some(()) else None
  }

  /** A match of the fence pattern: the tag capture and where the body starts and ends
      (the closing newline is at `bodyEnd`). */
  datatype FenceHit = FenceHit(tag: string, bodyStart: nat, bodyEnd: nat)

  /** The lazy body: it ends at the first closing fence at or after `b`. */
  function BodyFrom(s: string, tag: string, b: nat): (r: Option<FenceHit>)
    ensures r.Some? ==> (r.value.tag == tag && r.value.bodyStart == b <= r.value.bodyEnd
      && IsFenceCloseAt(s, r.value.bodyEnd)
      && forall j :: b <= j < r.value.bodyEnd ==> !IsFenceCloseAt(s, j))
  {
    match Earliest(FenceCloseAt, s, b)
    case None => None
    case Some((j, _)) =>
      assert FenceCloseAt(s, j).Some?;
      assert forall q :: b <= q < j ==> FenceCloseAt(s, q).None? && !IsFenceCloseAt(s, q);
      Some(FenceHit(tag, b, j))
  }

  /** When the tag alternative fails, `\s*` gives back characters one at a time and the
      empty tag is tried after each newline inside the blank run `s[o..o+k]`, last one
      first. */
  function UntaggedFrom(s: string, o: nat, k: nat): (r: Option<FenceHit>)
    requires o + k <= |s|
    ensures r.Some? ==> (r.value.tag == "" && o < r.value.bodyStart <= o + k
      && s[r.value.bodyStart - 1] == '\n' && r.value.bodyStart <= r.value.bodyEnd
      && IsFenceCloseAt(s, r.value.bodyEnd)
      && forall j :: r.value.bodyStart <= j < r.value.bodyEnd ==> !IsFenceCloseAt(s, j))
    decreases k
  {
    if k == 0 then None
    else if s[o + k - 1] == '\n' && BodyFrom(s, "", o + k).Some? then BodyFrom(s, "", o + k)
    else UntaggedFrom(s, o, k - 1)
  }

  /** What a match of the fence pattern at `p` consists of: an opening fence, blanks,
      the tag, a newline, the body, then a newline and a fence followed by a newline or
      the end of the text; no closing fence starts earlier inside the body. */
  ghost predicate FenceShape(s: string, p: nat, h: FenceHit)
  {
    && IsFenceAt(s, p)
    && 1 <= h.bodyStart <= h.bodyEnd
    && IsFenceCloseAt(s, h.bodyEnd)
    && (forall j :: h.bodyStart <= j < h.bodyEnd ==> !IsFenceCloseAt(s, j))
    && var nl := h.bodyStart - 1;
       p + 3 + |h.tag| <= nl
       && s[nl] == '\n'
       && s[nl - |h.tag|..nl] == h.tag
       && (forall k :: 0 <= k < |h.tag| ==> IsTagChar(h.tag[k]))
       && (forall k :: p + 3 <= k < nl - |h.tag| ==> IsSpace(s[k]))
  }

  /** The fence pattern anchored at `p`, trying the alternatives in the engine's order:
      the longest blank run with the longest tag first, then shorter blank runs that end
      at a newline, with an empty tag. */
  function FenceHitAt(s: string, p: nat): Option<FenceHit>
  {
    if !IsFenceAt(s, p) then None
    else
      var o := p + 3;
      var w := SpaceRun(s, o);
      var q := o + w;
      var t := TagRun(s, q);
      var tagged := if q + t < |s| && s[q + t] == '\n' then BodyFrom(s, s[q..q + t], q + t + 1) else None;
      if tagged.Some? then tagged else UntaggedFrom(s, o, w)
  }

  /** Every match of the fence pattern has the shape the pattern describes, with the
      shortest body. */
  lemma FenceHitShape(s: string, p: nat)
    requires FenceHitAt(s, p).Some?
    ensures FenceShape(s, p, FenceHitAt(s, p).value)
  {
  }

  /** A tag run that stops at a character that is not a tag character has that length. */
  lemma TagRunExact(s: string, i: nat, j: nat)
    requires i <= j < |s| && !IsTagChar(s[j])
    requires forall k :: i <= k < j ==> IsTagChar(s[k])
    ensures TagRun(s, i) == j - i
  {
    TagRunCovers(s, i, j - i);
  }

  /** The lazy body is found when some closing fence follows. */
  lemma BodyFromFinds(s: string, tag: string, b: nat, j: nat)
    requires b <= j && IsFenceCloseAt(s, j)
    ensures BodyFrom(s, tag, b).Some?
  {
    assert FenceCloseAt(s, j).Some?;
  }

  /** The empty tag is found when one of the newlines of the blank run is followed by a
      body that a closing fence ends. */
  lemma {:induction false} UntaggedFinds(s: string, o: nat, k: nat, k0: nat)
    requires o + k <= |s| && 0 < k0 <= k
    requires s[o + k0 - 1] == '\n' && BodyFrom(s, "", o + k0).Some?
    ensures UntaggedFrom(s, o, k).Some?
    decreases k
  {
    if k > k0 && !(s[o + k - 1] == '\n' && BodyFrom(s, "", o + k).Some?) {
      UntaggedFinds(s, o, k - 1, k0);
    }
  }

  /** Conversely, wherever the text has the shape of a fenced block the pattern matches
      (the engine may still split blanks and tag differently, or end the body earlier). */
  lemma FenceShapeMatches(s: string, p: nat, h: FenceHit)
    requires FenceShape(s, p, h)
    ensures FenceHitAt(s, p).Some?
  {
    if |h.tag| > 0 {
      TaggedShapeMatches(s, p, h);
    } else {
      UntaggedShapeMatches(s, p, h);
    }
  }

  lemma TaggedShapeMatches(s: string, p: nat, h: FenceHit)
    requires FenceShape(s, p, h) && |h.tag| > 0
    ensures FenceHitAt(s, p).Some?
  {
    var o := p + 3;
    var nl := h.bodyStart - 1;
    var q0 := nl - |h.tag|;
    assert s[q0] == h.tag[0];
    TagCharIsNotSpace(s[q0]);
    SpaceRunExact(s, o, q0);
    forall k | q0 <= k < nl
      ensures IsTagChar(s[k])
    {
      assert s[k] == h.tag[k - q0];
    }
    TagRunExact(s, q0, nl);
    TaggedFinds(s, p, q0, nl, h.bodyEnd);
  }

  /** The tagged alternative succeeds once the blank run reaches `q`, the tag run ends at
      the newline `nl` and a closing fence follows. */
  lemma TaggedFinds(s: string, p: nat, q: nat, nl: nat, e: nat)
    requires IsFenceAt(s, p) && p + 3 <= q <= nl < e && nl < |s|
    requires SpaceRun(s, p + 3) == q - (p + 3) && TagRun(s, q) == nl - q && s[nl] == '\n'
    requires IsFenceCloseAt(s, e)
    ensures FenceHitAt(s, p).Some?
  {
    BodyFromFinds(s, s[q..nl], nl + 1, e);
  }

  lemma UntaggedShapeMatches(s: string, p: nat, h: FenceHit)
    requires FenceShape(s, p, h) && |h.tag| == 0
    ensures FenceHitAt(s, p).Some?
  {
    var o := p + 3;
    var nl := h.bodyStart - 1;
    LineTerminatorIsSpace(s[nl]);
    SpaceRunCovers(s, o, nl + 1 - o);
    BodyFromFinds(s, "", nl + 1, h.bodyEnd);
    UntaggedFinds(s, o, SpaceRun(s, o), nl + 1 - o);
    UntaggedHit(s, p);
  }

  /** When the tagged alternative fails, the untagged one decides. */
  lemma UntaggedHit(s: string, p: nat)
    requires IsFenceAt(s, p) && UntaggedFrom(s, p + 3, SpaceRun(s, p + 3)).Some?
    ensures FenceHitAt(s, p).Some?
  {
  }

  /** The fence pattern as a matcher: end of the match and the two captures. */
  function FenceMatcher(s: string, p: nat): (r: Option<(nat, (string, string))>)
    ensures r.Some? ==> p < r.value.0 <= |s|
  {
    match FenceHitAt(s, p)
    case None => None
    case Some(h) => Some((h.bodyEnd + 4, (h.tag, s[h.bodyStart..h.bodyEnd])))
  }

  /** One pushed block: `{language: match[1].trim(), code: match[2].trim()}`; the tag
      capture always takes part in the match, so the "plaintext" fallback never applies. */
  function ToCodeBlock(h: RegexMatch<(string, string)>): CodeBlock
  {
    CodeBlock(Trim(h.groups.0), Trim(h.groups.1))
  }

  function Blocks(hs: seq<RegexMatch<(string, string)>>): (bs: seq<CodeBlock>)
    ensures |bs| == |hs|
    ensures forall i :: 0 <= i < |hs| ==> bs[i] == ToCodeBlock(hs[i])
  {
    if |hs| == 0 then [] else [ToCodeBlock(hs[0])] + Blocks(hs[1..])
  }

  lemma BlocksOne(h: RegexMatch<(string, string)>)
    ensures Blocks([h]) == [ToCodeBlock(h)]
  {
  }

  /** The blocks `extractFencedCodeBlocks` returns: one per match of the global scan. */
  function FencedCodeBlocks(s: string): seq<CodeBlock>
  {
    Blocks(MatchAll(FenceMatcher, s))
  }

  lemma ScanStep(s: string, from: nat)
    requires Exec(FenceMatcher, s, from).Some?
    ensures var h := Exec(FenceMatcher, s, from).value;
      from < h.end <= |s|
      && Blocks(AllFrom(FenceMatcher, s, from)) == [ToCodeBlock(h)] + Blocks(AllFrom(FenceMatcher, s, h.end))
  {
    var h := Exec(FenceMatcher, s, from).value;
    assert FenceMatcher(s, h.index) == Some((h.end, h.groups));
    AllFromStep(FenceMatcher, s, from);
    var rest := AllFrom(FenceMatcher, s, h.end);
    assert ([h] + rest)[1..] == rest;
  }

  /** The `while ((match = regex.exec(text)) !== null)` loop. */
  method ExtractFencedCodeBlocks(markdownText: string) returns (blocks: seq<CodeBlock>)
    ensures blocks == FencedCodeBlocks(markdownText)
  {
    blocks := [];
    var lastIndex: nat := 0;
    var m := Exec(FenceMatcher, markdownText, lastIndex);
    AppendEmpty(FencedCodeBlocks(markdownText));
    while m.Some?
      invariant lastIndex <= |markdownText|
      invariant m == Exec(FenceMatcher, markdownText, lastIndex)
      invariant blocks + Blocks(AllFrom(FenceMatcher, markdownText, lastIndex)) == FencedCodeBlocks(markdownText)
      decreases |markdownText| - lastIndex
    {
      var h := m.value;
      ScanStep(markdownText, lastIndex);
      AppendAssoc(blocks, [ToCodeBlock(h)], Blocks(AllFrom(FenceMatcher, markdownText, h.end)));
      blocks := blocks + [ToCodeBlock(h)];
      lastIndex := h.end;
      m := Exec(FenceMatcher, markdownText, lastIndex);
    }
    AllFromNone(FenceMatcher, markdownText, lastIndex);
    AppendEmpty(blocks);
  }

  /** Each block is the leftmost fence match at or after the end of the previous one. */
  lemma {:induction false} BlockIsLeftmostMatch(s: string, i: nat)
    requires i < |FencedCodeBlocks(s)|
    ensures var hs := MatchAll(FenceMatcher, s);
      i < |hs|
      && FencedCodeBlocks(s)[i] == CodeBlock(Trim(hs[i].groups.0), Trim(hs[i].groups.1))
      && FenceHitAt(s, hs[i].index).Some?
      && (forall q :: ScanStart(hs, 0, i) <= q < hs[i].index ==> FenceHitAt(s, q).None?)
  {
    var hs := MatchAll(FenceMatcher, s);
    assert i < |hs|;
    AllFromLeftmost(FenceMatcher, s, 0, i);
    assert FenceMatcher(s, hs[i].index).Some?;
    forall q | ScanStart(hs, 0, i) <= q < hs[i].index
      ensures FenceHitAt(s, q).None?
    {
      assert FenceMatcher(s, q).None?;
    }
  }

  /** Text without a well-formed fenced block yields no block, and only such text. */
  lemma NoBlocksIff(s: string)
    ensures FencedCodeBlocks(s) == [] <==> forall p :: 0 <= p <= |s| ==> FenceHitAt(s, p).None?
  {
    var hs := MatchAll(FenceMatcher, s);
    assert |FencedCodeBlocks(s)| == |hs|;
    forall p
      ensures FenceMatcher(s, p).None? <==> FenceHitAt(s, p).None?
    {
    }
  }

  /** The same in terms of the shape: no block exactly when nothing in the text has the
      shape of a fenced block. */
  lemma NoBlocksIffNoShape(s: string)
    ensures FencedCodeBlocks(s) == [] <==> forall p: nat, h :: !FenceShape(s, p, h)
  {
    NoBlocksIff(s);
    if FencedCodeBlocks(s) == [] {
      forall p: nat, h
        ensures !FenceShape(s, p, h)
      {
        if FenceShape(s, p, h) {
          FenceShapeMatches(s, p, h);
        }
      }
    } else {
      var p: nat :| p <= |s| && FenceHitAt(s, p).Some?;
      FenceHitShape(s, p);
    }
  }

  /** Each block's language is the whole tag capture: a possibly empty run of letters,
      digits and hyphens directly before the newline that opens the body, after the
      opening fence (of either kind) and white space; trimming never changes it and
      the "plaintext" fallback is never taken. */
  lemma BlockLanguage(s: string, i: nat)
    requires i < |FencedCodeBlocks(s)|
    ensures var hs := MatchAll(FenceMatcher, s);
      i < |hs|
      && FencedCodeBlocks(s)[i].language == hs[i].groups.0
      && forall k :: 0 <= k < |hs[i].groups.0| ==> IsTagChar(hs[i].groups.0[k])
  {
    var hs := MatchAll(FenceMatcher, s);
    assert i < |hs|;
    assert FenceMatcher(s, hs[i].index) == Some((hs[i].end, hs[i].groups));
    var h := FenceHitAt(s, hs[i].index).value;
    FenceHitShape(s, hs[i].index);
    var tag := hs[i].groups.0;
    assert tag == h.tag;
    forall k | 0 <= k < |tag|
      ensures IsTagChar(tag[k]) && !IsSpace(tag[k])
    {
      TagCharIsNotSpace(tag[k]);
    }
    TrimSpaceFree(tag);
  }

  /** A block opened with backticks and closed with tildes. */
  const MixedFences := "```js\nx\n~~~"

  lemma MixedFencesCloseAt()
    ensures BodyFrom(MixedFences, "js", 6) == Some(FenceHit("js", 6, 7))
  {
    var s := MixedFences;
    assert |s| == 11 && s[6] == 'x' && s[7] == '\n';
    assert FenceCloseAt(s, 6).None? && FenceCloseAt(s, 7) == Some(());
    EarliestIs(FenceCloseAt, s, 6, 7);
  }

  lemma MixedFencesMatch()
    ensures FenceMatcher(MixedFences, 0) == Some((11, ("js", "x")))
    ensures FenceMatcher(MixedFences, 11).None?
  {
    var s := MixedFences;
    assert |s| == 11 && s[3] == 'j' && s[4] == 's' && s[5] == '\n';
    assert SpaceRun(s, 3) == 0 && TagRun(s, 5) == 0 && TagRun(s, 3) == 2 && s[3..5] == "js";
    MixedFencesCloseAt();
    assert s[6..7] == "x";
  }

  lemma MixedFencesScan()
    ensures MatchAll(FenceMatcher, MixedFences) == [RegexMatch(0, 11, ("js", "x"))]
  {
    MixedFencesMatch();
    MatchAllWhole(FenceMatcher, MixedFences, ("js", "x"));
  }

  lemma MixedFencesBlock(h: RegexMatch<(string, string)>)
    requires h.groups == ("js", "x")
    ensures Blocks([h]) == [CodeBlock("js", "x")]
  {
    BlocksOne(h);
    TrimSpaceFree("js");
    TrimSpaceFree("x");
  }

  /** The two fence kinds close each other: a block opened with backticks may end with
      tildes. */
  lemma TildesCloseBackticks()
    ensures FencedCodeBlocks(MixedFences) == [CodeBlock("js", "x")]
  {
    MixedFencesScan();
    MixedFencesBlock(RegexMatch(0, 11, ("js", "x")));
  }

  // ---------------------------------------------------------------------------
  // fixTruncatedHtmlBlock: /```html\s*\n/g against /\n\s*```(?=\n|$)/g

  const HtmlFence := "```html"

  /** The largest `k` in `1..n` with a newline at `o + k - 1`: a greedy `\s*` over the
      blank run `s[o..o+n]` gives characters back until a `\n` can follow. */
  function LastNewline(s: string, o: nat, n: nat): (r: Option<nat>)
    requires o + n <= |s|
    ensures r.Some? ==> (0 < r.value <= n && s[o + r.value - 1] == '\n'
      && forall j :: o + r.value <= j < o + n ==> s[j] != '\n')
    ensures r.None? ==> forall j :: o <= j < o + n ==> s[j] != '\n'
    decreases n
  {
    if n == 0 then None
    else if s[o + n - 1] == '\n' then Some(n)
    else LastNewline(s, o, n - 1)
  }

  /** `` ```html\s*\n `` at `p`; the match ends after the last newline of the blank run
      that follows the tag. */
  function HtmlOpenMatcher(s: string, p: nat): (r: Option<(nat, ())>)
    ensures r.Some? ==> (OccursAt(s, HtmlFence, p) && p + 7 < r.value.0 <= |s| && s[r.value.0 - 1] == '\n'
      && forall k :: p + 7 <= k < r.value.0 ==> IsSpace(s[k]))
  {
    if !OccursAt(s, HtmlFence, p) then None
    else
      match LastNewline(s, p + 7, SpaceRun(s, p + 7))
      case None => None
      case Some(k) => Some((p + 7 + k, ()))
  }

  /** `` \n\s*```(?=\n|$) `` at `p`. The greedy `\s*` can only succeed with the whole
      blank run, since a backtick is not white space. */
  function HtmlCloseMatcher(s: string, p: nat): (r: Option<(nat, ())>)
    ensures r.Some? ==> (p < |s| && s[p] == '\n' && p + 4 <= r.value.0 <= |s|
      && OccursAt(s, Fence, r.value.0 - 3) && (r.value.0 == |s| || s[r.value.0] == '\n')
      && forall k :: p < k < r.value.0 - 3 ==> IsSpace(s[k]))
  {
    if p < |s| && s[p] == '\n' then
      var f := p + 1 + SpaceRun(s, p + 1);
      if OccursAt(s, Fence, f) && (f + 3 == |s| || s[f + 3] == '\n') then Some((f + 3, ())) else None
    else None
  }

  function HtmlOpenCount(s: string): nat
  {
    |MatchAll(HtmlOpenMatcher, s)|
  }

  function HtmlCloseCount(s: string): nat
  {
    |MatchAll(HtmlCloseMatcher, s)|
  }

  /** Text without "```html" has no opening to repair. */
  lemma NoHtmlFenceNoOpening(s: string)
    requires !Contains(s, HtmlFence)
    ensures HtmlOpenCount(s) == 0
  {
    forall p ensures HtmlOpenMatcher(s, p).None? {
      if HtmlOpenMatcher(s, p).Some? {
        assert OccursAt(s, HtmlFence, p);
      }
    }
  }

  /** `blocks?.[0]?.code ?? ""` */
  function FirstCode(blocks: seq<CodeBlock>): (code: string)
    ensures |blocks| == 0 ==> code == ""
    ensures |blocks| > 0 ==> code == blocks[0].code
  {
    if |blocks| > 0 then blocks[0].code else ""
  }

  datatype FixedBlock = FixedBlock(content: string, blocks: seq<CodeBlock>, html: string)

  /** The repaired text: a closing fence on a line of its own is appended when there are
      more html openings than closing fences. */
  function RepairedContent(s: string): (r: string)
    ensures HtmlOpenCount(s) > HtmlCloseCount(s) ==> r == s + "\n" + Fence
    ensures HtmlOpenCount(s) <= HtmlCloseCount(s) ==> r == s
  {
    if HtmlOpenCount(s) > HtmlCloseCount(s) then s + "\n" + Fence else s
  }

  method FixTruncatedHtmlBlock(markdownText: string) returns (r: FixedBlock)
    ensures r.content == RepairedContent(markdownText)
    ensures r.blocks == FencedCodeBlocks(r.content)
    ensures r.html == FirstCode(r.blocks)
  {
    var startMatches := MatchAll(HtmlOpenMatcher, markdownText);
    var endMatches := MatchAll(HtmlCloseMatcher, markdownText);
    var fixedContent := markdownText;
    if |startMatches| > |endMatches| {
      fixedContent := markdownText + "\n" + Fence;
    }
    var blocks := ExtractFencedCodeBlocks(fixedContent);
    r := FixedBlock(fixedContent, blocks, if |blocks| > 0 then blocks[0].code else "");
  }

  /** The appended "\n```" is a closing fence of the extractor at the old end of the text,
      and every closing fence of the original text stays one: the repair adds a closing
      line and changes no other. */
  lemma RepairClosesAtEnd(s: string)
    ensures IsFenceCloseAt(s + "\n" + Fence, |s|)
    ensures forall j :: 0 <= j < |s| ==> (IsFenceCloseAt(s + "\n" + Fence, j) <==> IsFenceCloseAt(s, j))
  {
    var t := s + "\n" + Fence;
    assert |t| == |s| + 4;
    assert t[|s|] == '\n' && t[|s| + 1] == '`' && t[|s| + 2] == '`' && t[|s| + 3] == '`';
    forall j | 0 <= j < |s|
      ensures IsFenceCloseAt(t, j) <==> IsFenceCloseAt(s, j)
    {
      assert forall k :: 0 <= k < |s| ==> t[k] == s[k];
      assert j + 4 > |s| ==> !IsFenceAt(t, j + 1) by {
        if j + 4 > |s| {
          assert j + 1 <= |s| < j + 4 && t[|s|] == '\n';
        }
      }
    }
  }

  /** An html opening with blanks between the tag and the newline, such as
      "```html  \n", counts as an opening here but is no opening for the extractor: the
      tag run stops at the blank, which is not a newline, and the blank run after the
      fence is empty. */
  lemma BlankAfterTagNotExtracted(s: string, p: nat)
    requires OccursAt(s, HtmlFence, p) && p + 7 < |s| && IsSpace(s[p + 7]) && s[p + 7] != '\n'
    ensures FenceHitAt(s, p).None?
  {
    assert s[p..p + 7] == HtmlFence;
    assert s[p + 3] == 'h' && s[p + 4] == 't' && s[p + 5] == 'm' && s[p + 6] == 'l';
    assert SpaceRun(s, p + 3) == 0;
    assert !IsTagChar(s[p + 7]);
    assert TagRun(s, p + 7) == 0;
    assert TagRun(s, p + 3) == 4;
  }

  /** The other half of that mismatch: when the blank run after "```html" holds a
      newline, the repair counts an opening there. */
  lemma BlankAfterTagCountsAsOpening(s: string, p: nat, k: nat)
    requires OccursAt(s, HtmlFence, p)
    requires p + 7 <= k < p + 7 + SpaceRun(s, p + 7) && s[k] == '\n'
    ensures HtmlOpenMatcher(s, p).Some?
  {
  }

  // ---------------------------------------------------------------------------
  // containsExactlyOneHtmlBlock: /^\s*```html\s*$\n(.*?)\n^\s*```\s*$/gms

  /** `^` under the `m` flag. */
  predicate LineStartAt(s: string, p: nat)
  {
    p == 0 || (0 < p <= |s| && IsLineTerminator(s[p - 1]))
  }

  /** `\s*$` after position `r`: the longest `k <= n` such that `r + k` is the end of the
      text or a line terminator, the blank run being `s[r..r+n]`. */
  function LineEndIn(s: string, r: nat, n: nat): (k: Option<nat>)
    requires r + n <= |s|
    ensures k.Some? ==> (k.value <= n && (r + k.value == |s| || IsLineTerminator(s[r + k.value])))
    decreases n
  {
    if r + n == |s| || IsLineTerminator(s[r + n]) then Some(n)
    else if n == 0 then None
    else LineEndIn(s, r, n - 1)
  }

  /** `\n^\s*```\s*$` at `e`, giving where the match ends. As for the openings, the
      `\s*` before the fence can only take the whole blank run. */
  function HtmlCloseLineAt(s: string, e: nat): (r: Option<nat>)
    ensures r.Some? ==> (e < |s| && s[e] == '\n' && e + 4 <= r.value <= |s|)
  {
    if e < |s| && s[e] == '\n' then
      var f := e + 1 + SpaceRun(s, e + 1);
      if OccursAt(s, Fence, f) then
        match LineEndIn(s, f + 3, SpaceRun(s, f + 3))
        case None => None
        case Some(k) => Some(f + 3 + k)
      else None
    else None
  }

  /** `\s*$\n(.*?)` after the tag at `q`: the blank run `s[q..q+k]` is given back until
      it ends at a newline, and the lazy body from there stops at the first closing line;
      when none is found a shorter run is tried. Gives the body's bounds and the end. */
  function HtmlBodyFrom(s: string, q: nat, k: nat): (r: Option<(nat, nat, nat)>)
    requires q + k <= |s|
    ensures r.Some? ==> (q < r.value.0 <= q + k && s[r.value.0 - 1] == '\n'
      && r.value.0 <= r.value.1 < r.value.2 <= |s|
      && HtmlCloseLineAt(s, r.value.1) == Some(r.value.2))
    decreases k
  {
    if k == 0 then None
    else if s[q + k - 1] == '\n' && Earliest(HtmlCloseLineAt, s, q + k).Some? then
      var c := Earliest(HtmlCloseLineAt, s, q + k).value;
      assert q + k <= c.0 && HtmlCloseLineAt(s, c.0) == Some(c.1);
      Some((q + k, c.0, c.1))
    else HtmlBodyFrom(s, q, k - 1)
  }

  /** The lazy body stops at the first closing line after it starts. */
  lemma {:induction false} HtmlBodyShape(s: string, q: nat, k: nat) returns (b: nat, e: nat, n: nat)
    requires q + k <= |s|
    requires HtmlBodyFrom(s, q, k).Some?
    ensures HtmlBodyFrom(s, q, k) == Some((b, e, n))
    ensures q < b <= q + k && s[b - 1] == '\n' && b <= e < n <= |s|
    ensures HtmlCloseLineAt(s, e) == Some(n)
    ensures forall c :: b <= c < e ==> HtmlCloseLineAt(s, c).None?
    decreases k
  {
    if s[q + k - 1] == '\n' && Earliest(HtmlCloseLineAt, s, q + k).Some? {
      var r := HtmlBodyFrom(s, q, k).value;
      b, e, n := r.0, r.1, r.2;
    } else {
      b, e, n := HtmlBodyShape(s, q, k - 1);
    }
  }

  lemma CloseLineStartsAtNewline(s: string, e: nat, n: nat)
    requires HtmlCloseLineAt(s, e) == Some(n)
    ensures e < |s| && s[e] == '\n'
  {
  }

  /** The whole pattern at `p`: the body capture and the end of the match. */
  function HtmlBlockMatcher(s: string, p: nat): (r: Option<(nat, string)>)
    ensures r.Some? ==> p < r.value.0 <= |s|
  {
    if !LineStartAt(s, p) || !OccursAt(s, HtmlFence, p + SpaceRun(s, p)) then None
    else HtmlBlockAfterFence(s, p + SpaceRun(s, p))
  }

  /** The rest of the pattern after "```html" at `f`. */
  function HtmlBlockAfterFence(s: string, f: nat): (r: Option<(nat, string)>)
    requires f + 7 <= |s|
    ensures r.Some? ==> f + 7 < r.value.0 <= |s|
  {
    var body := HtmlBodyFrom(s, f + 7, SpaceRun(s, f + 7));
    if body.None? then None else Some((body.value.2, s[body.value.0..body.value.1]))
  }

  /** The shape of a match at `p`: at a line start, blanks, "```html", blanks up to and
      including a newline, the body, then a newline, blanks and a fence on a line that
      only continues with blanks. */
  lemma HtmlBlockShape(s: string, p: nat) returns (f: nat, b: nat, e: nat, n: nat)
    requires HtmlBlockMatcher(s, p).Some?
    ensures LineStartAt(s, p) && f == p + SpaceRun(s, p)
    ensures OccursAt(s, HtmlFence, f) && forall k :: p <= k < f ==> IsSpace(s[k])
    ensures f + 7 < b <= e < |s| && s[b - 1] == '\n' && s[e] == '\n'
    ensures forall k :: f + 7 <= k < b ==> IsSpace(s[k])
    ensures HtmlBlockMatcher(s, p) == Some((n, s[b..e]))
    ensures HtmlCloseLineAt(s, e) == Some(n)
    ensures forall c :: b <= c < e ==> HtmlCloseLineAt(s, c).None?
  {
    f := HtmlBlockMatcherBody(s, p);
    b, e, n := HtmlAfterFenceShape(s, f);
  }

  lemma HtmlAfterFenceShape(s: string, f: nat) returns (b: nat, e: nat, n: nat)
    requires f + 7 <= |s| && HtmlBlockAfterFence(s, f).Some?
    ensures f + 7 < b <= e < |s| && s[b - 1] == '\n' && s[e] == '\n'
    ensures forall k :: f + 7 <= k < b ==> IsSpace(s[k])
    ensures HtmlBlockAfterFence(s, f) == Some((n, s[b..e]))
    ensures HtmlCloseLineAt(s, e) == Some(n)
    ensures forall c :: b <= c < e ==> HtmlCloseLineAt(s, c).None?
  {
    b, e, n := HtmlBodyShape(s, f + 7, SpaceRun(s, f + 7));
    CloseLineStartsAtNewline(s, e, n);
  }

  /** A match at `p` is the one `HtmlBodyFrom` finds after the opening fence. */
  lemma HtmlBlockMatcherBody(s: string, p: nat) returns (f: nat)
    requires HtmlBlockMatcher(s, p).Some?
    ensures f == p + SpaceRun(s, p) && f + 7 <= |s|
    ensures LineStartAt(s, p) && OccursAt(s, HtmlFence, f)
    ensures HtmlBlockMatcher(s, p) == HtmlBlockAfterFence(s, f)
  {
    f := p + SpaceRun(s, p);
    assert LineStartAt(s, p) && OccursAt(s, HtmlFence, f);
  }

  lemma HtmlFenceStart(s: string, f: nat)
    requires OccursAt(s, HtmlFence, f)
    ensures f + 7 <= |s| && s[f] == '`' && !IsSpace(s[f])
  {
    assert s[f] == s[f..f + 7][0];
  }

  /** The lazy html body is found when the blank run after the tag holds a newline that
      some closing line follows. */
  lemma {:induction false} HtmlBodyFinds(s: string, q: nat, k: nat, k0: nat, e: nat)
    requires q + k <= |s| && 0 < k0 <= k && s[q + k0 - 1] == '\n'
    requires q + k0 <= e && HtmlCloseLineAt(s, e).Some?
    ensures HtmlBodyFrom(s, q, k).Some?
    decreases k
  {
    if k == k0 {
      HtmlCloseFound(s, q + k, e);
    } else if !(s[q + k - 1] == '\n' && Earliest(HtmlCloseLineAt, s, q + k).Some?) {
      HtmlBodyFinds(s, q, k - 1, k0, e);
    }
  }

  /** A closing line at `e` is found by the search for the first one from any earlier
      position. */
  lemma HtmlCloseFound(s: string, from: nat, e: nat)
    requires from <= e && HtmlCloseLineAt(s, e).Some?
    ensures Earliest(HtmlCloseLineAt, s, from).Some?
  {
    assert Earliest(HtmlCloseLineAt, s, from).None? ==> HtmlCloseLineAt(s, e).None?;
  }

  /** Conversely, the pattern matches at a line start followed by blanks, "```html",
      blanks up to and including a newline, and then, anywhere later, a closing line. */
  lemma HtmlBlockAt(s: string, p: nat, f: nat, b: nat, e: nat)
    requires HtmlCloseLineAt(s, e).Some?
    requires LineStartAt(s, p) && p <= f && OccursAt(s, HtmlFence, f)
    requires forall k :: p <= k < f ==> IsSpace(s[k])
    requires f + 7 < b <= e && s[b - 1] == '\n'
    requires forall k :: f + 7 <= k < b ==> IsSpace(s[k])
    ensures HtmlBlockMatcher(s, p).Some?
  {
    HtmlFenceAfterBlanks(s, p, f);
    HtmlAfterFenceFinds(s, p + SpaceRun(s, p), b, e);
  }

  lemma HtmlFenceAfterBlanks(s: string, p: nat, f: nat)
    requires p <= f && OccursAt(s, HtmlFence, f)
    requires forall k :: p <= k < f ==> IsSpace(s[k])
    ensures f + 7 <= |s| && p + SpaceRun(s, p) == f && OccursAt(s, HtmlFence, p + SpaceRun(s, p))
  {
    HtmlFenceStart(s, f);
    SpaceRunExact(s, p, f);
  }

  lemma HtmlAfterFenceFinds(s: string, f: nat, b: nat, e: nat)
    requires HtmlCloseLineAt(s, e).Some?
    requires f + 7 < b <= e && s[b - 1] == '\n'
    requires forall k :: f + 7 <= k < b ==> IsSpace(s[k])
    ensures HtmlBlockAfterFence(s, f).Some?
  {
    SpaceRunCovers(s, f + 7, b - (f + 7));
    HtmlBodyFinds(s, f + 7, SpaceRun(s, f + 7), b - (f + 7), e);
  }

  /** `matchAll(htmlBlockRegex).length === 1` */
  function ContainsExactlyOneHtmlBlock(markdownString: string): bool
  {
    |MatchAll(HtmlBlockMatcher, markdownString)| == 1
  }

  /** The text holds one html block exactly when its leftmost html block leaves no other
      after it. */
  lemma ExactlyOneIff(s: string)
    ensures ContainsExactlyOneHtmlBlock(s) <==>
      exists h :: IsMatch(HtmlBlockMatcher, s, h) && h.index <= |s|
        && (forall q :: 0 <= q < h.index ==> HtmlBlockMatcher(s, q).None?)
        && (forall q :: Resume(h) <= q <= |s| ==> HtmlBlockMatcher(s, q).None?)
  {
    assert ContainsExactlyOneHtmlBlock(s) == (|MatchAll(HtmlBlockMatcher, s)| == 1);
    MatchAllOne(HtmlBlockMatcher, s);
  }

  /** Without "```html" the gate fails, so a continuation is asked for. */
  lemma GateNeedsHtmlFence(s: string)
    requires !Contains(s, HtmlFence)
    ensures !ContainsExactlyOneHtmlBlock(s)
  {
    forall p | 0 <= p <= |s|
      ensures HtmlBlockMatcher(s, p).None?
    {
      assert !OccursAt(s, HtmlFence, p + SpaceRun(s, p));
    }
    assert MatchAll(HtmlBlockMatcher, s) == [];
  }

  // ---------------------------------------------------------------------------
  // Whole html documents, as the extractor, the gate and the repair see them

  /** "```html", blanks, a newline, the body, then a closing fence at the very end. */
  function HtmlDocument(w: string, body: string): string
  {
    HtmlFence + w + "\n" + body + "\n" + Fence
  }

  lemma HtmlDocumentLayout(w: string, body: string)
    ensures var t := HtmlDocument(w, body); var b := 8 + |w|; var e := b + |body|;
      |t| == e + 4 && OccursAt(t, HtmlFence, 0) && t[7..7 + |w|] == w && t[7 + |w|] == '\n'
      && t[b..e] == body && t[e] == '\n' && OccursAt(t, Fence, e + 1)
  {
    var t := HtmlDocument(w, body);
    var x1 := HtmlFence + w;
    var x2 := x1 + "\n";
    var x3 := x2 + body;
    var x4 := x3 + "\n";
    assert t == x4 + Fence;
    assert OccursAt(t, t, 0);
    OccursSplit(t, 0, x4, Fence);
    OccursSplit(t, 0, x3, "\n");
    OccursSplit(t, 0, x2, body);
    OccursSplit(t, 0, x1, "\n");
    OccursSplit(t, 0, HtmlFence, w);
    assert t[7 + |w|] == t[7 + |w|..8 + |w|][0];
    assert t[8 + |w| + |body|] == t[8 + |w| + |body|..9 + |w| + |body|][0];
  }

  /** The closing fence at the end of a document is a closing line of the gate. */
  lemma HtmlDocumentCloses(t: string, e: nat)
    requires e + 4 == |t| && t[e] == '\n' && OccursAt(t, Fence, e + 1)
    ensures HtmlCloseLineAt(t, e) == Some(|t|)
    ensures IsFenceCloseAt(t, e)
  {
    assert t[e + 1] == t[e + 1..e + 4][0] == '`';
    assert SpaceRun(t, e + 1) == 0;
    assert SpaceRun(t, |t|) == 0;
    assert t[e + 1..e + 4] == Fence;
  }

  /** A document whose blanks after the tag hold no newline and whose body has no
      closing line passes the gate. */
  lemma HtmlDocumentPassesGate(w: string, body: string)
    requires forall i :: 0 <= i < |w| ==> IsSpace(w[i]) && w[i] != '\n'
    requires forall c :: 8 + |w| <= c < 8 + |w| + |body| ==> HtmlCloseLineAt(HtmlDocument(w, body), c).None?
    ensures ContainsExactlyOneHtmlBlock(HtmlDocument(w, body))
  {
    var t := HtmlDocument(w, body);
    var b := 8 + |w|;
    var e := b + |body|;
    HtmlDocumentLayout(w, body);
    HtmlDocumentCloses(t, e);
    HtmlDocumentBlanks(w, body);
    HtmlBlockAt(t, 0, 0, b, e);
    var g := HtmlGateEnds(t, b, e);
    HtmlGateWhole(t, g);
  }

  lemma HtmlDocumentBlanks(w: string, body: string)
    requires forall i :: 0 <= i < |w| ==> IsSpace(w[i]) && w[i] != '\n'
    ensures var t := HtmlDocument(w, body); var e := 8 + |w| + |body|;
      |t| == e + 4
      && (forall k :: 7 <= k < 8 + |w| ==> IsSpace(t[k]))
      && (forall k :: 7 <= k < 7 + |w| ==> t[k] != '\n')
      && (forall k :: e < k < |t| ==> t[k] == '`')
      && !IsLineTerminator(t[|t| - 1])
  {
    var t := HtmlDocument(w, body);
    var e := 8 + |w| + |body|;
    HtmlDocumentLayout(w, body);
    forall k | 7 <= k < 7 + |w|
      ensures t[k] == w[k - 7]
    {
      assert t[k] == t[7..7 + |w|][k - 7];
    }
    forall k | e < k < |t|
      ensures t[k] == '`'
    {
      assert t[k] == t[e + 1..e + 4][k - e - 1];
    }
  }

  /** The one match of the gate in such a document ends at the end of the text. */
  lemma HtmlGateEnds(t: string, b: nat, e: nat) returns (g: string)
    requires HtmlBlockMatcher(t, 0).Some? && 7 < b <= e && e + 4 == |t|
    requires HtmlCloseLineAt(t, e) == Some(|t|)
    requires forall k :: 7 <= k < b - 1 ==> t[k] != '\n'
    requires forall c :: b <= c < e ==> HtmlCloseLineAt(t, c).None?
    requires forall k :: e < k < |t| ==> t[k] != '\n'
    ensures HtmlBlockMatcher(t, 0) == Some((|t|, g))
  {
    var f', b', e', n' := HtmlBlockShape(t, 0);
    assert b' >= b;
    assert e' == e;
    g := t[b'..e'];
  }

  /** A gate match from the start to the end of the text is the only one. */
  lemma HtmlGateWhole(t: string, g: string)
    requires HtmlBlockMatcher(t, 0) == Some((|t|, g))
    requires |t| > 0 && !IsLineTerminator(t[|t| - 1])
    ensures ContainsExactlyOneHtmlBlock(t)
  {
    assert !LineStartAt(t, |t|);
    MatchAllWhole(HtmlBlockMatcher, t, g);
  }

  /** A document with no blanks after the tag and no closing fence in its body is one
      block for the extractor: language "html", the trimmed body as its code. */
  lemma HtmlDocumentExtracts(body: string)
    requires forall j :: 8 <= j < 8 + |body| ==> !IsFenceCloseAt(HtmlDocument("", body), j)
    ensures FencedCodeBlocks(HtmlDocument("", body)) == [CodeBlock("html", Trim(body))]
  {
    var t := HtmlDocument("", body);
    var e := 8 + |body|;
    HtmlDocumentLayout("", body);
    HtmlDocumentCloses(t, e);
    HtmlFenceBlock(t, e, body);
  }

  lemma HtmlFenceBlock(t: string, e: nat, body: string)
    requires OccursAt(t, HtmlFence, 0) && 7 < |t| && t[7] == '\n'
    requires 8 <= e && IsFenceCloseAt(t, e) && e + 4 == |t| && t[8..e] == body
    requires forall j :: 8 <= j < e ==> !IsFenceCloseAt(t, j)
    ensures FencedCodeBlocks(t) == [CodeBlock("html", Trim(body))]
  {
    HtmlFenceMatch(t, e);
    assert !IsFenceAt(t, |t|);
    MatchAllWhole(FenceMatcher, t, ("html", body));
    BlocksOne(RegexMatch(0, |t|, ("html", body)));
    TrimSpaceFree("html");
  }

  /** The extractor at the start of such a document: a fence, the tag "html", a newline,
      then the body up to the first closing fence. */
  lemma HtmlFenceMatch(t: string, e: nat)
    requires OccursAt(t, HtmlFence, 0) && 7 < |t| && t[7] == '\n'
    requires 8 <= e && IsFenceCloseAt(t, e) && e + 4 == |t|
    requires forall j :: 8 <= j < e ==> !IsFenceCloseAt(t, j)
    ensures FenceMatcher(t, 0) == Some((|t|, ("html", t[8..e])))
  {
    assert t[..7] == HtmlFence;
    assert t[0] == '`' && t[1] == '`' && t[2] == '`';
    assert t[3] == 'h' && t[4] == 't' && t[5] == 'm' && t[6] == 'l';
    assert t[3..7] == "html";
    SpaceRunExact(t, 3, 3);
    TagRunExact(t, 3, 7);
    forall q | 8 <= q < e
      ensures FenceCloseAt(t, q).None?
    {
    }
    EarliestIs(FenceCloseAt, t, 8, e);
    assert FenceHitAt(t, 0) == Some(FenceHit("html", 8, e));
  }

  /** A well-formed html block, "```html", a newline, a body holding no closing line of
      either kind, and "```" at the end, passes the gate and is the one block extracted,
      with the trimmed body as its code. */
  lemma WellFormedHtmlBlock(body: string)
    requires forall j :: 8 <= j < 8 + |body| ==>
      !IsFenceCloseAt(HtmlDocument("", body), j) && HtmlCloseLineAt(HtmlDocument("", body), j).None?
    ensures ContainsExactlyOneHtmlBlock(HtmlDocument("", body))
    ensures FencedCodeBlocks(HtmlDocument("", body)) == [CodeBlock("html", Trim(body))]
  {
    HtmlDocumentPassesGate("", body);
    HtmlDocumentExtracts(body);
  }

  /** In particular when the body is a single line. */
  lemma OneLineHtmlBlock(body: string)
    requires '\n' !in body
    ensures ContainsExactlyOneHtmlBlock(HtmlDocument("", body))
    ensures FencedCodeBlocks(HtmlDocument("", body)) == [CodeBlock("html", Trim(body))]
  {
    var t := HtmlDocument("", body);
    HtmlDocumentLayout("", body);
    forall j | 8 <= j < 8 + |body|
      ensures t[j] != '\n'
    {
      assert t[j] == t[8..8 + |body|][j - 8] == body[j - 8];
    }
    WellFormedHtmlBlock(body);
  }

  /** An html block cut off before its closing fence: "```html", a newline and one line
      of body. */
  function TruncatedHtml(body: string): string
  {
    HtmlFence + "\n" + body
  }

  lemma TruncatedHtmlLayout(body: string)
    ensures var s := TruncatedHtml(body);
      |s| == 8 + |body| && OccursAt(s, HtmlFence, 0) && s[7] == '\n' && s[8..] == body
      && s + "\n" + Fence == HtmlDocument("", body)
  {
    var s := TruncatedHtml(body);
    assert OccursAt(s, s, 0);
    OccursSplit(s, 0, HtmlFence + "\n", body);
    OccursSplit(s, 0, HtmlFence, "\n");
    assert s[7] == s[7..8][0];
  }

  /** Such a text has an opening and no closing fence for the repair. */
  lemma TruncatedHtmlCounts(body: string)
    requires '\n' !in body && '`' !in body
    ensures HtmlOpenCount(TruncatedHtml(body)) > HtmlCloseCount(TruncatedHtml(body)) == 0
  {
    var s := TruncatedHtml(body);
    TruncatedHtmlLayout(body);
    forall j | 8 <= j < |s|
      ensures s[j] != '\n' && s[j] != '`'
    {
      assert s[j] == s[8..][j - 8] == body[j - 8];
    }
    forall j | 0 <= j < 7
      ensures s[j] != '\n'
    {
      assert s[j] == s[..7][j];
    }
    SpaceRunCovers(s, 7, 1);
    assert HtmlOpenMatcher(s, 0).Some?;
    assert Exec(HtmlOpenMatcher, s, 0).Some?;
    forall q | 0 <= q <= |s|
      ensures HtmlCloseMatcher(s, q).None?
    {
      if q < |s| && s[q] == '\n' {
        assert q == 7;
        var f := 8 + SpaceRun(s, 8);
        if f < |s| {
          assert !OccursAt(s, Fence, f) by {
            assert s[f] != '`';
          }
        }
      }
    }
  }

  /** The repair completes such a block: it appends exactly the missing closing fence,
      after which the text passes the gate and its one extracted block is the trimmed
      body, which is what the repair returns as its html. */
  lemma TruncatedHtmlRepaired(body: string)
    requires '\n' !in body && '`' !in body
    ensures RepairedContent(TruncatedHtml(body)) == TruncatedHtml(body) + "\n" + Fence
    ensures ContainsExactlyOneHtmlBlock(RepairedContent(TruncatedHtml(body)))
    ensures FencedCodeBlocks(RepairedContent(TruncatedHtml(body))) == [CodeBlock("html", Trim(body))]
    ensures FirstCode(FencedCodeBlocks(RepairedContent(TruncatedHtml(body)))) == Trim(body)
  {
    TruncatedHtmlCounts(body);
    TruncatedHtmlLayout(body);
    OneLineHtmlBlock(body);
  }

  /** "```html", a blank, a newline and one line: the repair counts an opening and no
      closing fence, appends one, and the extractor still finds no block. */
  const BlankTagTruncated := "```html \nX"

  lemma BlankTagTruncatedCounts()
    ensures HtmlOpenCount(BlankTagTruncated) > HtmlCloseCount(BlankTagTruncated)
  {
    var s := BlankTagTruncated;
    assert |s| == 10 && s[7] == ' ' && s[8] == '\n' && s[9] == 'X';
    assert s[..7] == HtmlFence;
    assert SpaceRun(s, 7) == 2;
    BlankAfterTagCountsAsOpening(s, 0, 8);
    assert Exec(HtmlOpenMatcher, s, 0).Some?;
    forall q | 0 <= q <= |s|
      ensures HtmlCloseMatcher(s, q).None?
    {
      if q < |s| && s[q] == '\n' {
        assert q == 8;
      }
    }
  }

  lemma BlankTagRepairFindsNothing()
    ensures HtmlOpenCount(BlankTagTruncated) > HtmlCloseCount(BlankTagTruncated)
    ensures RepairedContent(BlankTagTruncated) == BlankTagTruncated + "\n" + Fence
    ensures FencedCodeBlocks(RepairedContent(BlankTagTruncated)) == []
  {
    BlankTagTruncatedCounts();
    var t := BlankTagTruncated + "\n" + Fence;
    BlankTagRepairedNoMatch(t);
    AllFromNone(FenceMatcher, t, 0);
  }

  lemma BlankTagRepairedNoMatch(t: string)
    requires t == BlankTagTruncated + "\n" + Fence
    ensures Exec(FenceMatcher, t, 0).None?
  {
    assert |t| == 14 && t[7] == ' ' && t[8] == '\n' && t[10] == '\n';
    assert t[..7] == HtmlFence;
    forall p | 0 <= p <= |t|
      ensures FenceMatcher(t, p).None?
    {
      if IsFenceAt(t, p) {
        assert p == 0 || p == 11;
        if p == 0 {
          BlankAfterTagNotExtracted(t, 0);
        } else {
          assert SpaceRun(t, 14) == 0 && TagRun(t, 14) == 0;
        }
      }
    }
  }

  /** A complete block whose "```html" is followed by blanks passes the gate, while the
      extractor finds no block in it. */
  const BlankTagBlock := "```html  \nX\n```"

  lemma BlankTagGateOnly()
    ensures ContainsExactlyOneHtmlBlock(BlankTagBlock)
    ensures FencedCodeBlocks(BlankTagBlock) == []
  {
    BlankTagBlockGate();
    var t := BlankTagBlock;
    BlankTagBlockNoMatch(t);
    AllFromNone(FenceMatcher, t, 0);
  }

  lemma BlankTagBlockGate()
    ensures ContainsExactlyOneHtmlBlock(BlankTagBlock)
  {
    var t := HtmlDocument("  ", "X");
    assert t == BlankTagBlock;
    assert t[10] == 'X';
    HtmlDocumentPassesGate("  ", "X");
  }

  lemma BlankTagBlockNoMatch(t: string)
    requires t == BlankTagBlock
    ensures Exec(FenceMatcher, t, 0).None?
  {
    assert |t| == 15 && t[7] == ' ' && t[9] == '\n' && t[11] == '\n';
    assert t[..7] == HtmlFence;
    forall p | 0 <= p <= |t|
      ensures FenceMatcher(t, p).None?
    {
      if IsFenceAt(t, p) {
        assert p == 0 || p == 12;
        if p == 0 {
          BlankAfterTagNotExtracted(t, 0);
        } else {
          assert SpaceRun(t, 15) == 0 && TagRun(t, 15) == 0;
        }
      }
    }
  }
}
