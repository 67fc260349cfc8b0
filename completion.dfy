/** The completion handlers of the web client: what is stored when a code answer, a
    continuation or a fix answer has finished streaming, the history sent with a
    generation request and the guard of a fix request. The streaming itself, the
    requests and the saving of documents are not modelled; a request the client would
    send is returned as a value. */
module AgentCompletion {
  import opened Wrappers
  import opened JsString
  import opened JsRegex
  import opened OrderedMaps
  import opened LineWindow
  import opened Utils
  import opened AgentStore

  /** The body of the continuation request sent after an incomplete code answer. */
  datatype ContinueRequest = ContinueRequest(requirement: string, sourceCode: string, targetFile: FileType)

  /** The body of the fix request. */
  datatype FixRequest = FixRequest(requirement: string, sourceCode: string, issueDescription: string)

  /** `codeImplementation[fileType] ?? ""` */
  function CurrentCode(st: StoreState, f: FileType): string
  {
    Get(st.codeImplementation, FileKey(f)).GetOr("")
  }

  // ---------------------------------------------------------------------------
  // The code answer

  /** The code stored when a code answer has finished: the first block of the repaired
      answer when the gate fails, the first block of the answer itself otherwise. */
  function StoredCode(completion: string): string
  {
    if !ContainsExactlyOneHtmlBlock(completion) then FirstCode(FencedCodeBlocks(RepairedContent(completion)))
    else FirstCode(FencedCodeBlocks(completion))
  }

  /** The code `onFinish`: stores the code of the active file, asks for a continuation
      with that same code when the gate fails, and clears the generating file. */
  method OnCodeFinish(store: Store, fileType: FileType, completion: string) returns (request: Option<ContinueRequest>)
    requires store.Valid()
    modifies store
    ensures store.Valid()
    ensures store.state == UpdateCode(old(store.state), fileType, StoredCode(completion)).(currentGeneratingFile := None)
    ensures request.Some? <==> !ContainsExactlyOneHtmlBlock(completion)
    ensures request.Some? ==> request.value == ContinueRequest(old(store.state).document, StoredCode(completion), fileType)
  {
    var document := store.state.document;
    if !ContainsExactlyOneHtmlBlock(completion) {
      var fixedBlock := FixTruncatedHtmlBlock(completion);
      var sourceCode := fixedBlock.html;
      request := Some(ContinueRequest(document, sourceCode, fileType));
      store.UpdateCodeForFile(fileType, sourceCode);
    } else {
      var blocks := ExtractFencedCodeBlocks(completion);
      var extractedCode := if |blocks| > 0 then blocks[0].code else "";
      request := None;
      store.UpdateCodeForFile(fileType, extractedCode);
    }
    store.SetCurrentGeneratingFile(None);
  }

  /** An answer without "```html" always asks for a continuation, and since it has no
      html opening the repair leaves it alone: what is stored and sent is its own first
      block. */
  lemma NoHtmlFenceContinuesWithFirstBlock(completion: string)
    requires !Contains(completion, HtmlFence)
    ensures !ContainsExactlyOneHtmlBlock(completion)
    ensures StoredCode(completion) == FirstCode(FencedCodeBlocks(completion))
  {
    GateNeedsHtmlFence(completion);
    NoHtmlFenceNoOpening(completion);
  }

  /** The repair only matters for an unbalanced answer: with no more html openings than
      closing fences the stored code is the answer's first block whatever the gate says. */
  lemma BalancedStoresFirstBlock(completion: string)
    requires HtmlOpenCount(completion) <= HtmlCloseCount(completion)
    ensures StoredCode(completion) == FirstCode(FencedCodeBlocks(completion))
  {
    assert RepairedContent(completion) == completion;
  }

  /** An unbalanced answer that fails the gate is stored as the first block of the
      answer with a closing fence line appended. */
  lemma UnbalancedStoresRepairedBlock(completion: string)
    requires !ContainsExactlyOneHtmlBlock(completion) && HtmlOpenCount(completion) > HtmlCloseCount(completion)
    ensures StoredCode(completion) == FirstCode(FencedCodeBlocks(completion + "\n" + Fence))
  {
    assert RepairedContent(completion) == completion + "\n" + Fence;
  }

  // ---------------------------------------------------------------------------
  // The continuation

  /** `extractFencedCodeBlocks(completion)?.[0]?.code`, with `undefined` turned into the
      text "undefined" by the string concatenation. */
  function ContinuationCode(completion: string): string
  {
    var blocks := FencedCodeBlocks(completion);
    if |blocks| > 0 then blocks[0].code else "undefined"
  }

  /** `getNewCode(sourceCode)`: the lines before the five-line window, joined, followed
      directly by the continuation's code. */
  function NewCode(sourceCode: string, completion: string): string
  {
    BeforeWindow(sourceCode) + ContinuationCode(completion)
  }

  /** The continuation `onFinish`: the active file's code is replaced by the merge. */
  method OnContinueFinish(store: Store, fileType: FileType, completion: string)
    requires store.Valid()
    modifies store
    ensures store.Valid()
    ensures store.state == UpdateCode(old(store.state), fileType, NewCode(CurrentCode(old(store.state), fileType), completion))
  {
    var currentCode := Get(store.state.codeImplementation, FileKey(fileType)).GetOr("");
    var blocks := ExtractFencedCodeBlocks(completion);
    var continued := if |blocks| > 0 then blocks[0].code else "undefined";
    var newCode := BeforeWindow(currentCode) + continued;
    store.UpdateCodeForFile(fileType, newCode);
  }

  /** A code of at most five lines is replaced by the continuation's code. */
  lemma ShortCodeReplaced(sourceCode: string, completion: string)
    requires |Split(sourceCode)| <= OverlapLines
    ensures NewCode(sourceCode, completion) == ContinuationCode(completion)
  {
    assert BeforeWindow(sourceCode) == "";
  }

  /** A longer code keeps its lines before the window, and nothing separates the last
      kept line from the first line of the continuation: they become one line. */
  lemma LongCodeGluesLines(sourceCode: string, completion: string)
    requires |Split(sourceCode)| > OverlapLines
    ensures var ls, lc := Split(sourceCode), Split(ContinuationCode(completion));
      var k := |ls| - OverlapLines;
      Split(NewCode(sourceCode, completion)) == ls[..k - 1] + [ls[k - 1] + lc[0]] + lc[1..]
  {
    GlueBeforeWindow(sourceCode, ContinuationCode(completion));
  }

  lemma GlueBeforeWindow(sourceCode: string, c: string)
    requires |Split(sourceCode)| > OverlapLines
    ensures var ls, lc := Split(sourceCode), Split(c);
      var k := |ls| - OverlapLines;
      Split(BeforeWindow(sourceCode) + c) == ls[..k - 1] + [ls[k - 1] + lc[0]] + lc[1..]
  {
    var ls := Split(sourceCode);
    var p := BeforeWindow(sourceCode);
    SplitConcat(p, c);
    GlueKept(Split(p), ls, |ls| - OverlapLines, Split(c));
  }

  lemma GlueKept(lp: seq<string>, ls: seq<string>, k: nat, lc: seq<string>)
    requires 1 <= k <= |ls| && lp == ls[..k] && |lc| >= 1
    ensures lp[..|lp| - 1] + [lp[|lp| - 1] + lc[0]] + lc[1..] == ls[..k - 1] + [ls[k - 1] + lc[0]] + lc[1..]
  {
    assert lp[..|lp| - 1] == ls[..k - 1];
  }

  /** Without a fenced block in the continuation the text "undefined" is appended. */
  lemma NoBlockAppendsUndefined(sourceCode: string, completion: string)
    requires FencedCodeBlocks(completion) == []
    ensures NewCode(sourceCode, completion) == BeforeWindow(sourceCode) + "undefined"
  {
  }

  /** The merge replaces the newline and the window the model was shown by the
      continuation's code. */
  lemma MergeReplacesWindow(sourceCode: string, completion: string)
    requires |Split(sourceCode)| > OverlapLines
    ensures sourceCode == BeforeWindow(sourceCode) + "\n" + Window(sourceCode)
    ensures NewCode(sourceCode, completion) == BeforeWindow(sourceCode) + ContinuationCode(completion)
  {
    Partition(sourceCode);
  }

  // ---------------------------------------------------------------------------
  // The fix answer: /<diff>([\s\S]*?)<\/diff>/

  const DiffOpen := "<diff>"
  const DiffClose := "</diff>"

  /** The diff pattern at `p`: the lazy body ends at the first closing tag. */
  function DiffMatcher(s: string, p: nat): (r: Option<(nat, string)>)
    ensures r.Some? ==> p < r.value.0 <= |s|
  {
    if !OccursAt(s, DiffOpen, p) then None
    else
      match IndexOf(s, DiffClose, p + |DiffOpen|)
      case None => None
      case Some(e) => Some((e + |DiffClose|, s[p + |DiffOpen|..e]))
  }

  /** `diffMatch.exec(completion)?.[1]?.trim()` */
  function DiffContent(completion: string): Option<string>
  {
    match Exec(DiffMatcher, completion, 0)
    case None => None
    case Some(h) => Some(Trim(h.groups))
  }

  /** The state after the fix `onFinish`: a non-empty diff becomes the fixed code, and the
      fixing flag is cleared in every case. */
  function FixFinished(st: StoreState, completion: string): StoreState
  {
    var diffContent := DiffContent(completion);
    var st' := if diffContent.Some? && diffContent.value != "" then st.(fixedCode := Some(diffContent.value)) else st;
    st'.(isFixingCode := false)
  }

  method OnFixFinish(store: Store, completion: string)
    modifies store
    ensures store.state == FixFinished(old(store.state), completion)
  {
    var m := Exec(DiffMatcher, completion, 0);
    var diffContent := if m.Some? then Some(Trim(m.value.groups)) else None;
    if diffContent.Some? && diffContent.value != "" {
      store.SetFixedCode(diffContent);
    }
    store.SetIsFixingCode(false);
  }

  /** The first "<diff>" with a "</diff>" after it is the one taken, and its body runs
      to the first "</diff>" after it. */
  lemma DiffIsFirst(completion: string, i: nat, e: nat)
    requires OccursAt(completion, DiffOpen, i) && IndexOf(completion, DiffClose, i + |DiffOpen|) == Some(e)
    requires forall q :: 0 <= q < i ==> DiffMatcher(completion, q).None?
    ensures DiffContent(completion) == Some(Trim(completion[i + |DiffOpen|..e]))
  {
    assert DiffMatcher(completion, i) == Some((e + |DiffClose|, completion[i + |DiffOpen|..e]));
    EarliestIs(DiffMatcher, completion, 0, i);
  }

  /** A fix answer that opens with a diff whose body holds no closing tag gives that
      body, trimmed. */
  lemma DiffOfWrapped(body: string, rest: string)
    requires !Contains(body, DiffClose)
    ensures DiffContent(DiffOpen + body + DiffClose + rest) == Some(Trim(body))
  {
    var s := DiffOpen + body + DiffClose + rest;
    var e := |DiffOpen| + |body|;
    assert s == DiffOpen + body + (DiffClose + rest);
    assert OccursAt(s, DiffOpen, 0) by {
      assert s[..|DiffOpen|] == DiffOpen;
    }
    assert OccursAt(s, DiffClose, e) by {
      assert s[e..e + |DiffClose|] == DiffClose;
    }
    forall j | |DiffOpen| <= j < e
      ensures !OccursAt(s, DiffClose, j)
    {
      if j + |DiffClose| <= e {
        OccursAtShift(DiffOpen, body, DiffClose + rest, DiffClose, j - |DiffOpen|);
      } else {
        assert s[e] == '<' && DiffClose[e - j] != '<';
      }
    }
    var r := IndexOf(s, DiffClose, |DiffOpen|);
    assert r.Some?;
    assert r.value == e;
    assert s[|DiffOpen|..e] == body;
    assert DiffMatcher(s, 0) == Some((e + |DiffClose|, body));
    EarliestIs(DiffMatcher, s, 0, 0);
  }

  /** Only the fixed code and the fixing flag can change, and the flag ends cleared. */
  lemma FixFinishedFrame(st: StoreState, completion: string)
    ensures !FixFinished(st, completion).isFixingCode
    ensures FixFinished(st, completion).(fixedCode := st.fixedCode, isFixingCode := st.isFixingCode) == st
  {
  }

  /** Without "<diff>" the fixed code stays as it was. */
  lemma NoDiffKeepsFixedCode(st: StoreState, completion: string)
    requires !Contains(completion, DiffOpen)
    ensures FixFinished(st, completion) == st.(isFixingCode := false)
  {
    forall p | 0 <= p <= |completion|
      ensures DiffMatcher(completion, p).None?
    {
      assert !OccursAt(completion, DiffOpen, p);
    }
    assert DiffContent(completion).None?;
  }

  // ---------------------------------------------------------------------------
  // The generation request

  /** `otherCode`: every entry of the code map in its order, the target file's code
      blanked. */
  method OtherCode(code: Entries<string, string>, fileType: FileType) returns (otherCode: Entries<string, string>)
    requires UniqueKeys(code)
    ensures Keys(otherCode) == Keys(code)
    ensures forall i :: 0 <= i < |code| ==>
      otherCode[i].1 == if code[i].0 == FileKey(fileType) then "" else code[i].1
  {
    otherCode := [];
    var i := 0;
    while i < |code|
      invariant 0 <= i <= |code|
      invariant |otherCode| == i
      invariant forall j :: 0 <= j < i ==>
        otherCode[j] == (code[j].0, if code[j].0 == FileKey(fileType) then "" else code[j].1)
    {
      var (key, value) := code[i];
      assert key !in Keys(otherCode) by {
        forall j | 0 <= j < i
          ensures Keys(otherCode)[j] != key
        {
          assert Keys(otherCode)[j] == code[j].0;
        }
      }
      if key != FileKey(fileType) {
        otherCode := Put(otherCode, key, value);
      } else {
        otherCode := Put(otherCode, key, "");
      }
      i := i + 1;
    }
  }

  /** `handleGenerateCode(fileType)`: marks the file as being generated and gives the
      history sent with the request. */
  method HandleGenerateCode(store: Store, fileType: FileType) returns (history: Entries<string, string>)
    requires store.Valid()
    modifies store
    ensures store.state == old(store.state).(currentGeneratingFile := Some(fileType))
    ensures Keys(history) == Keys(old(store.state).codeImplementation)
    ensures forall i :: 0 <= i < |history| ==>
      history[i].1 == if history[i].0 == FileKey(fileType) then "" else old(store.state).codeImplementation[i].1
  {
    store.SetCurrentGeneratingFile(Some(fileType));
    history := OtherCode(store.state.codeImplementation, fileType);
  }

  // ---------------------------------------------------------------------------
  // The fix request

  /** The request `handleFixCode` sends, if any: none when the html code or the
      document is empty. */
  function FixRequestFor(st: StoreState, issueDescription: string): (r: Option<FixRequest>)
    ensures r.None? <==> CurrentCode(st, Html) == "" || st.document == ""
    ensures r.Some? ==> (r.value.sourceCode == CurrentCode(st, Html) && r.value.requirement == st.document
      && r.value.issueDescription == issueDescription)
  {
    var html := CurrentCode(st, Html);
    if html == "" || st.document == "" then None else Some(FixRequest(st.document, html, issueDescription))
  }

  /** `handleFixCode(issueDescription)`: does nothing when there is nothing to fix,
      otherwise sets the fixing flag and sends the request. */
  method HandleFixCode(store: Store, issueDescription: string) returns (request: Option<FixRequest>)
    modifies store
    ensures request == FixRequestFor(old(store.state), issueDescription)
    ensures request.None? ==> store.state == old(store.state)
    ensures request.Some? ==> store.state == old(store.state).(isFixingCode := true)
  {
    var html := Get(store.state.codeImplementation, "html");
    if html.None? || html.value == "" || store.state.document == "" {
      return None;
    }
    store.SetIsFixingCode(true);
    request := Some(FixRequest(store.state.document, html.value, issueDescription));
  }
}
