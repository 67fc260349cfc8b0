/** The artifact store of the web client: the fields of the zustand store, the actions
    that update them (each changes only the fields it names), the loading of a saved
    project from an already fetched result, and the parser of the
    `<<<<<<< SEARCH … ======= … >>>>>>> REPLACE` fix blocks of a repair answer. */
module AgentStore {
  import opened Wrappers
  import opened JsString
  import opened JsRegex
  import opened OrderedMaps

  /** `type FileType = "html"` */
  datatype FileType = Html

  function FileKey(f: FileType): string
  {
    "html"
  }

  /** The data fields of the store, in the order they are declared. */
  datatype StoreState = StoreState(
    requirement: string,
    document: string,
    codeImplementation: Entries<string, string>,
    currentFile: FileType,
    copiedText: Option<string>,
    activeStep: int,
    isGeneratingAll: bool,
    currentGeneratingFile: Option<FileType>,
    feedback: string,
    isRegeneratingDocument: bool,
    isReviewMode: bool,
    issueDescription: string,
    isFixingCode: bool,
    fixedCode: Option<string>,
    isApplyingFix: bool,
    currentProjectId: Option<string>,
    isLoadingHistoryProject: bool,
    isLoadingCurrentProject: bool)

  /** `{ html: "" }` */
  const InitialCode: Entries<string, string> := [("html", "")]

  /** The issue text `handleCodeReview` fills in. */
  const ReviewPrompt := "请帮我检查代码中可能存在的问题，包括功能、性能的问题，确保能正常运行。"

  function InitialState(): StoreState
  {
    StoreState("", "", InitialCode, Html, None, 1, false, None, "", false, false, "", false,
      None, false, None, false, false)
  }

  /** The code map has the "html" entry and no key twice. */
  predicate CodeValid(code: Entries<string, string>)
  {
    UniqueKeys(code) && "html" in Keys(code)
  }

  lemma InitialCodeValid()
    ensures CodeValid(InitialCode)
  {
    assert Keys(InitialCode)[0] == "html";
  }

  // ---------------------------------------------------------------------------
  // The actions as transitions of the state

  /** `updateCodeForFile`: `{...codeImplementation, [fileType]: code}`. */
  function UpdateCode(st: StoreState, f: FileType, code: string): StoreState
  {
    st.(codeImplementation := Put(st.codeImplementation, FileKey(f), code))
  }

  /** `resetToNewProject` */
  function ResetToNew(st: StoreState): StoreState
  {
    st.(requirement := "", document := "", codeImplementation := InitialCode, currentFile := Html,
      activeStep := 1, currentProjectId := None, isReviewMode := false, issueDescription := "",
      fixedCode := None, isFixingCode := false)
  }

  /** `clearCode` */
  function ClearCode(st: StoreState): StoreState
  {
    st.(codeImplementation := InitialCode, fixedCode := None, isReviewMode := false, issueDescription := "")
  }

  /** `handleCodeReview` */
  function CodeReview(st: StoreState): StoreState
  {
    st.(isReviewMode := true, issueDescription := ReviewPrompt)
  }

  /** `handleCancelFix` */
  function CancelFix(st: StoreState): StoreState
  {
    st.(fixedCode := None, isReviewMode := false, issueDescription := "", isFixingCode := false)
  }

  /** Writing the code of a file reads back as written, leaves the other files' code and
      every other field as they were, and keeps the code map well formed. */
  lemma UpdateCodeReadsBack(st: StoreState, f: FileType, code: string, other: string)
    requires CodeValid(st.codeImplementation)
    ensures var st' := UpdateCode(st, f, code);
      Get(st'.codeImplementation, FileKey(f)) == Some(code)
      && (other != FileKey(f) ==> Get(st'.codeImplementation, other) == Get(st.codeImplementation, other))
      && Keys(st'.codeImplementation) == Keys(st.codeImplementation)
      && CodeValid(st'.codeImplementation)
      && st'.(codeImplementation := st.codeImplementation) == st
  {
    GetPut(st.codeImplementation, FileKey(f), code, other);
    PutKeepsUnique(st.codeImplementation, FileKey(f), code);
  }

  /** A reset gives the initial state except for the fields it does not list, which keep
      their values: the feedback, the copied text, the generating, regenerating,
      applying and loading flags. */
  lemma ResetKeepsUnlisted(st: StoreState)
    ensures ResetToNew(st) == InitialState().(copiedText := st.copiedText,
      isGeneratingAll := st.isGeneratingAll, currentGeneratingFile := st.currentGeneratingFile,
      feedback := st.feedback, isRegeneratingDocument := st.isRegeneratingDocument,
      isApplyingFix := st.isApplyingFix, isLoadingHistoryProject := st.isLoadingHistoryProject,
      isLoadingCurrentProject := st.isLoadingCurrentProject)
    ensures CodeValid(ResetToNew(st).codeImplementation)
  {
    InitialCodeValid();
  }

  /** Clearing the code or cancelling a fix touch only fields a reset also sets, so a
      reset afterwards gives the same state as a reset alone. */
  lemma ResetSubsumes(st: StoreState)
    ensures ResetToNew(ClearCode(st)) == ResetToNew(st)
    ensures ResetToNew(CancelFix(st)) == ResetToNew(st)
  {
  }

  /** Cancelling a fix undoes a review request: review mode is off and the issue text is
      empty again, whatever they were before. */
  lemma CancelUndoesReview(st: StoreState)
    ensures CancelFix(CodeReview(st)) == CancelFix(st)
    ensures CodeReview(st).isReviewMode && CodeReview(st).issueDescription == ReviewPrompt
  {
  }

  // ---------------------------------------------------------------------------
  // loadProjectData, the result of `fetchFn(projectId)` given as a value

  datatype ProjectInfo = ProjectInfo(id: string, description: Option<string>)
  datatype DocRecord = DocRecord(docType: string, content: string)
  datatype CodeFileRecord = CodeFileRecord(fileType: string, content: string, isLatest: bool)
  datatype ProjectData = ProjectData(project: Option<ProjectInfo>, documents: seq<DocRecord>, codeFiles: seq<CodeFileRecord>)

  /** `documents.find(doc => doc.type === "REQUIREMENT")`, as an index. */
  function FirstRequirement(docs: seq<DocRecord>): (r: Option<nat>)
    ensures r.Some? ==> (r.value < |docs| && docs[r.value].docType == "REQUIREMENT"
      && forall j :: 0 <= j < r.value ==> docs[j].docType != "REQUIREMENT")
    ensures r.None? ==> forall j :: 0 <= j < |docs| ==> docs[j].docType != "REQUIREMENT"
  {
    if |docs| == 0 then None
    else if docs[0].docType == "REQUIREMENT" then Some(0)
    else match FirstRequirement(docs[1..])
      case None => None
      case Some(i) => Some(i + 1)
  }

  /** `codeFiles.find(file => file.fileType === "html" && file.isLatest)`, as an index. */
  function LatestHtmlFile(files: seq<CodeFileRecord>): (r: Option<nat>)
    ensures r.Some? ==> (r.value < |files| && files[r.value].fileType == "html" && files[r.value].isLatest
      && forall j :: 0 <= j < r.value ==> !(files[j].fileType == "html" && files[j].isLatest))
    ensures r.None? ==> forall j :: 0 <= j < |files| ==> !(files[j].fileType == "html" && files[j].isLatest)
  {
    if |files| == 0 then None
    else if files[0].fileType == "html" && files[0].isLatest then Some(0)
    else match LatestHtmlFile(files[1..])
      case None => None
      case Some(i) => Some(i + 1)
  }

  /** A requirement document found: its content becomes the document, the project's
      description (or "") the requirement, and the step moves to 2. */
  function WithRequirement(st: StoreState, info: ProjectInfo, docs: seq<DocRecord>): (r: StoreState)
    ensures r == st.(document := r.document, requirement := r.requirement, activeStep := r.activeStep)
  {
    match FirstRequirement(docs)
    case None => st
    case Some(i) => st.(document := docs[i].content, requirement := info.description.GetOr(""), activeStep := 2)
  }

  /** A latest html file found: its content is stored under "html" and the step moves
      to 3. */
  function WithHtmlFile(st: StoreState, files: seq<CodeFileRecord>): (r: StoreState)
    ensures r == st.(codeImplementation := r.codeImplementation, activeStep := r.activeStep)
  {
    match LatestHtmlFile(files)
    case None => st
    case Some(i) => UpdateCode(st, Html, files[i].content).(activeStep := 3)
  }

  /** The state after `loadProjectData`: the loading flag is set, the fetched project
      (when there is one) applied, and the flag cleared in `finally`. */
  function Loaded(st: StoreState, projectId: string, fetched: Result<ProjectData, string>): StoreState
  {
    var loading := st.(isLoadingCurrentProject := true);
    var loaded :=
      if fetched.Failure? || fetched.value.project.None? then loading
      else
        var d := fetched.value;
        WithHtmlFile(WithRequirement(loading.(currentProjectId := Some(projectId)), d.project.value, d.documents), d.codeFiles);
    loaded.(isLoadingCurrentProject := false)
  }

  /** The loading flag ends cleared in every case. */
  lemma LoadEndsLoading(st: StoreState, projectId: string, fetched: Result<ProjectData, string>)
    ensures !Loaded(st, projectId, fetched).isLoadingCurrentProject
  {
  }

  /** A failed fetch changes nothing but the loading flag. */
  lemma LoadFailureKeepsState(st: StoreState, projectId: string, error: string)
    ensures Loaded(st, projectId, Failure(error)) == st.(isLoadingCurrentProject := false)
  {
  }

  /** Nor does a fetch that returns no project (the `throw` caught in `catch`). */
  lemma LoadWithoutProjectKeepsState(st: StoreState, projectId: string, d: ProjectData)
    requires d.project.None?
    ensures Loaded(st, projectId, Success(d)) == st.(isLoadingCurrentProject := false)
  {
  }

  /** The two cases above, for the method. */
  lemma LoadedNothing(st: StoreState, projectId: string, fetched: Result<ProjectData, string>)
    requires fetched.Failure? || fetched.value.project.None?
    ensures Loaded(st, projectId, fetched) == st.(isLoadingCurrentProject := true).(isLoadingCurrentProject := false)
  {
  }

  /** A successful load applies the requirement document, then the html file, to the
      state with the flag set and the project id stored. */
  lemma LoadedSuccess(st: StoreState, projectId: string, fetched: Result<ProjectData, string>)
    requires fetched.Success? && fetched.value.project.Some?
    ensures var d := fetched.value;
      Loaded(st, projectId, fetched) == WithHtmlFile(WithRequirement(
      st.(isLoadingCurrentProject := true).(currentProjectId := Some(projectId)), d.project.value, d.documents),
      d.codeFiles).(isLoadingCurrentProject := false)
  {
  }

  /** After a successful load the step is 3 exactly when a latest html file was found,
      2 when only a requirement document was, and unchanged otherwise. */
  lemma LoadedStep(st: StoreState, projectId: string, d: ProjectData)
    requires d.project.Some?
    ensures var step := Loaded(st, projectId, Success(d)).activeStep;
      (LatestHtmlFile(d.codeFiles).Some? ==> step == 3)
      && (LatestHtmlFile(d.codeFiles).None? && FirstRequirement(d.documents).Some? ==> step == 2)
      && (LatestHtmlFile(d.codeFiles).None? && FirstRequirement(d.documents).None? ==> step == st.activeStep)
  {
    LoadedSuccess(st, projectId, Success(d));
  }

  /** After a successful load the project id is the one asked for, the document and the
      requirement come from the first requirement document when there is one, and the
      html code from the first file that is html and the latest version. */
  lemma LoadedContent(st: StoreState, projectId: string, d: ProjectData)
    requires d.project.Some? && CodeValid(st.codeImplementation)
    ensures var st' := Loaded(st, projectId, Success(d));
      st'.currentProjectId == Some(projectId)
      && CodeValid(st'.codeImplementation)
      && (FirstRequirement(d.documents).Some? ==>
        st'.document == d.documents[FirstRequirement(d.documents).value].content
        && st'.requirement == d.project.value.description.GetOr(""))
      && (FirstRequirement(d.documents).None? ==> st'.document == st.document && st'.requirement == st.requirement)
      && (LatestHtmlFile(d.codeFiles).Some? ==>
        Get(st'.codeImplementation, "html") == Some(d.codeFiles[LatestHtmlFile(d.codeFiles).value].content))
      && (LatestHtmlFile(d.codeFiles).None? ==> st'.codeImplementation == st.codeImplementation)
  {
    LoadedSuccess(st, projectId, Success(d));
    var st1 := WithRequirement(st.(isLoadingCurrentProject := true).(currentProjectId := Some(projectId)), d.project.value, d.documents);
    var st2 := WithHtmlFile(st1, d.codeFiles);
    assert Loaded(st, projectId, Success(d)) == st2.(isLoadingCurrentProject := false);
    assert st1.codeImplementation == st.codeImplementation;
    match LatestHtmlFile(d.codeFiles)
    case None =>
    case Some(i) =>
      UpdateCodeReadsBack(st1, Html, d.codeFiles[i].content, "html");
  }

  /** A load touches only the project id, the document, the requirement, the code, the
      step and the loading flag. */
  lemma LoadedFrame(st: StoreState, projectId: string, d: ProjectData)
    requires d.project.Some?
    ensures var st' := Loaded(st, projectId, Success(d));
      st'.currentFile == st.currentFile && st'.copiedText == st.copiedText
      && st'.isGeneratingAll == st.isGeneratingAll && st'.currentGeneratingFile == st.currentGeneratingFile
      && st'.feedback == st.feedback && st'.isRegeneratingDocument == st.isRegeneratingDocument
      && st'.isReviewMode == st.isReviewMode && st'.issueDescription == st.issueDescription
      && st'.isFixingCode == st.isFixingCode && st'.fixedCode == st.fixedCode
      && st'.isApplyingFix == st.isApplyingFix && st'.isLoadingHistoryProject == st.isLoadingHistoryProject
  {
    LoadedSuccess(st, projectId, Success(d));
  }

  // ---------------------------------------------------------------------------
  // The store object

  /** The store. zustand keeps one state object and every `set(partial)` replaces it by a
      copy with the named fields changed, so the class holds that object in one field. */
  class Store {
    var state: StoreState

    /** The code map stays well formed under every action. */
    predicate Valid()
      reads this
    {
      CodeValid(state.codeImplementation)
    }

    /** `create(...)`: the initial state. */
    constructor()
      ensures state == InitialState() && Valid()
    {
      InitialCodeValid();
      state := InitialState();
    }

    method SetRequirement(v: string)
      modifies this
      ensures state == old(state).(requirement := v)
    {
      state := state.(requirement := v);
    }

    method SetDocument(v: string)
      modifies this
      ensures state == old(state).(document := v)
    {
      state := state.(document := v);
    }

    method SetActiveStep(v: int)
      modifies this
      ensures state == old(state).(activeStep := v)
    {
      state := state.(activeStep := v);
    }

    method SetCurrentGeneratingFile(v: Option<FileType>)
      modifies this
      ensures state == old(state).(currentGeneratingFile := v)
    {
      state := state.(currentGeneratingFile := v);
    }

    method SetIsFixingCode(v: bool)
      modifies this
      ensures state == old(state).(isFixingCode := v)
    {
      state := state.(isFixingCode := v);
    }

    method SetFixedCode(v: Option<string>)
      modifies this
      ensures state == old(state).(fixedCode := v)
    {
      state := state.(fixedCode := v);
    }

    method SetCurrentProjectId(v: Option<string>)
      modifies this
      ensures state == old(state).(currentProjectId := v)
    {
      state := state.(currentProjectId := v);
    }

    method SetIsLoadingCurrentProject(v: bool)
      modifies this
      ensures state == old(state).(isLoadingCurrentProject := v)
    {
      state := state.(isLoadingCurrentProject := v);
    }

    method UpdateCodeForFile(fileType: FileType, code: string)
      requires Valid()
      modifies this
      ensures state == UpdateCode(old(state), fileType, code) && Valid()
    {
      PutKeepsUnique(state.codeImplementation, FileKey(fileType), code);
      state := state.(codeImplementation := Put(state.codeImplementation, FileKey(fileType), code));
    }

    /** The requirement step of `loadProjectData`. */
    method ApplyRequirement(info: ProjectInfo, docs: seq<DocRecord>)
      modifies this
      ensures state == WithRequirement(old(state), info, docs)
    {
      var requirementDoc := FirstRequirement(docs);
      if requirementDoc.Some? {
        SetDocument(docs[requirementDoc.value].content);
        SetRequirement(info.description.GetOr(""));
        SetActiveStep(2);
      }
    }

    /** The code-file step of `loadProjectData`. */
    method ApplyHtmlFile(files: seq<CodeFileRecord>)
      requires Valid()
      modifies this
      ensures state == WithHtmlFile(old(state), files) && Valid()
    {
      var htmlFile := LatestHtmlFile(files);
      if htmlFile.Some? {
        UpdateCodeForFile(Html, files[htmlFile.value].content);
        SetActiveStep(3);
      }
    }

    /** `loadProjectData(projectId, fetchFn)` with the awaited result of the fetch. */
    method LoadProjectData(projectId: string, fetched: Result<ProjectData, string>)
      requires Valid()
      modifies this
      ensures state == Loaded(old(state), projectId, fetched) && Valid()
    {
      ghost var st0 := state;
      SetIsLoadingCurrentProject(true);
      if fetched.Success? && fetched.value.project.Some? {
        var d := fetched.value;
        SetCurrentProjectId(Some(projectId));
        ApplyRequirement(d.project.value, d.documents);
        ApplyHtmlFile(d.codeFiles);
        LoadedSuccess(st0, projectId, fetched);
      } else {
        LoadedNothing(st0, projectId, fetched);
      }
      SetIsLoadingCurrentProject(false);
    }

    method ResetToNewProject()
      modifies this
      ensures state == ResetToNew(old(state)) && Valid()
    {
      InitialCodeValid();
      state := state.(requirement := "", document := "", codeImplementation := InitialCode,
        currentFile := Html, activeStep := 1, currentProjectId := None, isReviewMode := false,
        issueDescription := "", fixedCode := None, isFixingCode := false);
    }

    method ClearCodeAction()
      modifies this
      ensures state == ClearCode(old(state)) && Valid()
    {
      InitialCodeValid();
      state := state.(codeImplementation := InitialCode, fixedCode := None, isReviewMode := false,
        issueDescription := "");
    }

    method HandleCodeReview()
      requires Valid()
      modifies this
      ensures state == CodeReview(old(state)) && Valid()
    {
      state := state.(isReviewMode := true, issueDescription := ReviewPrompt);
    }

    method HandleCancelFix()
      requires Valid()
      modifies this
      ensures state == CancelFix(old(state)) && Valid()
    {
      state := state.(fixedCode := None, isReviewMode := false, issueDescription := "", isFixingCode := false);
    }
  }

  // ---------------------------------------------------------------------------
  // parseFixBlocks: /<<<<<<< SEARCH\n([\s\S]*?)\n=======\n([\s\S]*?)\n>>>>>>> REPLACE/g

  const FixOpen := "<<<<<<< SEARCH\n"
  const FixSeparator := "\n=======\n"
  const FixClose := "\n>>>>>>> REPLACE"

  /** With the search body ending at `e`: the separator there, then the lazy replace body
      up to the first closing delimiter; gives where the replace body ends. */
  function FixRest(s: string, e: nat): (r: Option<nat>)
    ensures r.Some? ==> OccursAt(s, FixSeparator, e) && e + |FixSeparator| <= r.value && OccursAt(s, FixClose, r.value)
  {
    if OccursAt(s, FixSeparator, e) then IndexOf(s, FixClose, e + |FixSeparator|) else None
  }

  /** The fix pattern at `p`: the lazy search body ends at the first position from which
      the rest of the pattern matches. */
  function FixMatcher(s: string, p: nat): (r: Option<(nat, (string, string))>)
    ensures r.Some? ==> p < r.value.0 <= |s|
  {
    if !OccursAt(s, FixOpen, p) then None
    else
      match Earliest(FixRest, s, p + |FixOpen|)
      case None => None
      case Some((e, f)) => Some((f + |FixClose|, (s[p + |FixOpen|..e], s[e + |FixSeparator|..f])))
  }

  datatype Fix = Fix(search: string, replace: string)

  /** The pushed pairs: one per match whose two captures are both non-empty. */
  function Fixes(hs: seq<RegexMatch<(string, string)>>): (r: seq<Fix>)
    ensures |r| <= |hs|
  {
    if |hs| == 0 then []
    else
      var keep := if hs[0].groups.0 != "" && hs[0].groups.1 != "" then [Fix(hs[0].groups.0, hs[0].groups.1)] else [];
      keep + Fixes(hs[1..])
  }

  /** What `parseFixBlocks` returns; `None` stands for a value that is not a string. */
  function FixBlocks(diffContent: Option<string>): seq<Fix>
  {
    if diffContent.None? || diffContent.value == "" then [] else Fixes(MatchAll(FixMatcher, diffContent.value))
  }

  /** The pairs keep the order of the matches. */
  lemma {:induction false} FixesAppend(a: seq<RegexMatch<(string, string)>>, b: seq<RegexMatch<(string, string)>>)
    ensures Fixes(a + b) == Fixes(a) + Fixes(b)
    decreases |a|
  {
    if |a| == 0 {
      assert a + b == b;
    } else {
      assert (a + b)[1..] == a[1..] + b;
      FixesAppend(a[1..], b);
      var keep := if a[0].groups.0 != "" && a[0].groups.1 != "" then [Fix(a[0].groups.0, a[0].groups.1)] else [];
      AppendAssoc(keep, Fixes(a[1..]), Fixes(b));
    }
  }

  /** A pair is returned exactly when some match captured it with both parts non-empty:
      a block with an empty search or an empty replacement (a deletion) is dropped. */
  lemma {:induction false} FixesMembership(hs: seq<RegexMatch<(string, string)>>, f: Fix)
    ensures f in Fixes(hs) <==> (f.search != "" && f.replace != ""
      && exists i :: 0 <= i < |hs| && hs[i].groups == (f.search, f.replace))
    decreases |hs|
  {
    if |hs| > 0 {
      FixesMembership(hs[1..], f);
      if exists i :: 0 <= i < |hs| && hs[i].groups == (f.search, f.replace) {
        var i :| 0 <= i < |hs| && hs[i].groups == (f.search, f.replace);
        if i > 0 {
          assert hs[1..][i - 1] == hs[i];
        }
      }
      if exists i :: 0 <= i < |hs[1..]| && hs[1..][i].groups == (f.search, f.replace) {
        var i :| 0 <= i < |hs[1..]| && hs[1..][i].groups == (f.search, f.replace);
        assert hs[i + 1] == hs[1..][i];
      }
    }
  }

  /** A match is the opening delimiter, the search text, the separator, the replacement
      and the closing delimiter, captured verbatim; the search text is the shortest one,
      so no separator starts inside it, and no closing delimiter starts inside the
      replacement. */
  lemma FixMatchText(s: string, p: nat)
    requires FixMatcher(s, p).Some?
    ensures var m := FixMatcher(s, p).value;
      s[p..m.0] == FixOpen + m.1.0 + FixSeparator + m.1.1 + FixClose
      && (forall q :: p + |FixOpen| <= q < p + |FixOpen| + |m.1.0| ==> !OccursAt(s, FixSeparator, q))
      && (forall q :: m.0 - |FixClose| - |m.1.1| <= q < m.0 - |FixClose| ==> !OccursAt(s, FixClose, q))
  {
    var b := p + |FixOpen|;
    var (e, f) := Earliest(FixRest, s, b).value;
    assert FixMatcher(s, p).value == (f + |FixClose|, (s[b..e], s[e + |FixSeparator|..f]));
    FixParts(s, p, e, f);
    FixSearchShortest(s, b, e, f);
    assert FixRest(s, e) == Some(f);
  }

  /** The five pieces of a match put together. */
  lemma FixParts(s: string, p: nat, e: nat, f: nat)
    requires OccursAt(s, FixOpen, p) && p + |FixOpen| <= e
    requires OccursAt(s, FixSeparator, e) && e + |FixSeparator| <= f && OccursAt(s, FixClose, f)
    ensures s[p..f + |FixClose|] == FixOpen + s[p + |FixOpen|..e] + FixSeparator + s[e + |FixSeparator|..f] + FixClose
  {
    Pieces(s, p, e, f, FixOpen, FixSeparator, FixClose);
  }

  /** A text made of three delimiters and the two spans between them. */
  lemma Pieces(s: string, p: nat, e: nat, f: nat, x: string, y: string, z: string)
    requires OccursAt(s, x, p) && p + |x| <= e
    requires OccursAt(s, y, e) && e + |y| <= f && OccursAt(s, z, f)
    ensures s[p..f + |z|] == x + s[p + |x|..e] + y + s[e + |y|..f] + z
  {
    var b := p + |x|;
    var c := e + |y|;
    var end := f + |z|;
    assert s[p..e] == x + s[b..e];
    assert s[p..c] == s[p..e] + y;
    assert s[p..f] == s[p..c] + s[c..f];
    assert s[p..end] == s[p..f] + z;
  }

  /** No separator starts before the end of the lazily matched search text. */
  lemma FixSearchShortest(s: string, b: nat, e: nat, f: nat)
    requires forall q :: b <= q < e ==> FixRest(s, q).None?
    requires e + |FixSeparator| <= f && OccursAt(s, FixClose, f)
    ensures forall q :: b <= q < e ==> !OccursAt(s, FixSeparator, q)
  {
    forall q | b <= q < e
      ensures !OccursAt(s, FixSeparator, q)
    {
      assert FixRest(s, q).None?;
      assert q + |FixSeparator| <= f;
    }
  }

  /** One block written the way the prompt of the fix request asks for it. */
  function FixText(fx: Fix): string
  {
    FixOpen + fx.search + FixSeparator + fx.replace + FixClose
  }

  /** Blocks written one after the other. */
  function RenderFixes(fs: seq<Fix>): string
  {
    if |fs| == 0 then "" else FixText(fs[0]) + RenderFixes(fs[1..])
  }

  /** A pair the parser gives back as written: both parts are non-empty, no separator
      starts inside the search text (one whose leading newline ends the search text
      included) and no closing delimiter occurs in the replacement. */
  predicate Parseable(fx: Fix)
  {
    fx.search != "" && fx.replace != ""
    && !Contains(fx.search + "\n", FixSeparator) && !Contains(fx.replace, FixClose)
  }

  /** Where the five pieces of a written block lie. */
  lemma BlockPieces(s: string, p: nat, x: string, a: string, y: string, r: string, z: string)
    requires OccursAt(s, x + a + y + r + z, p)
    ensures var b := p + |x|; var e := b + |a|; var c := e + |y|; var f := c + |r|;
      OccursAt(s, x, p) && OccursAt(s, a, b) && OccursAt(s, y, e) && OccursAt(s, r, c) && OccursAt(s, z, f)
  {
    OccursSplit(s, p, x + a + y + r, z);
    OccursSplit(s, p, x + a + y, r);
    OccursSplit(s, p, x + a, y);
    OccursSplit(s, p, x, a);
  }

  /** A delimiter whose first character occurs nowhere else in it cannot start inside the
      text before one of its occurrences unless it occurs in that text. */
  lemma {:induction false} DelimiterFirst(s: string, c: nat, f: nat, r: string, z: string)
    requires OccursAt(s, z, f) && c <= f && s[c..f] == r && !Contains(r, z)
    requires forall j :: 0 < j < |z| ==> z[j] != z[0]
    ensures IndexOf(s, z, c) == Some(f)
  {
    forall q | c <= q < f
      ensures !OccursAt(s, z, q)
    {
      DelimiterNotBefore(s, c, f, r, z, q);
    }
  }

  /** No occurrence of such a delimiter starts between `c` and its first occurrence `f`. */
  lemma {:induction false} DelimiterNotBefore(s: string, c: nat, f: nat, r: string, z: string, q: nat)
    requires OccursAt(s, z, f) && c <= q < f && s[c..f] == r && !Contains(r, z)
    requires forall j :: 0 < j < |z| ==> z[j] != z[0]
    ensures !OccursAt(s, z, q)
  {
    if q + |z| <= f {
      forall j | q <= j < q + |z|
        ensures r[j - c] == s[j]
      {
      }
      assert r[q - c..q - c + |z|] == s[q..q + |z|];
      assert !OccursAt(r, z, q - c);
    } else if f < q + |z| {
      assert s[f] == z[0] != z[f - q];
    }
  }

  /** The same for a delimiter whose first and last characters are the only places its
      first character occurs: a text ending in all of it but its last character runs into
      it. */
  lemma {:induction false} DelimiterNotInside(s: string, b: nat, e: nat, a: string, y: string, q: nat)
    requires OccursAt(s, y, e) && b <= q < e && s[b..e] == a && |y| > 0
    requires forall j :: 0 < j < |y| - 1 ==> y[j] != y[0]
    requires !Contains(a + [y[0]], y)
    ensures !OccursAt(s, y, q)
  {
    if q + |y| <= e + 1 {
      var u := a + [y[0]];
      assert s[e] == y[0];
      assert s[b..e + 1] == u;
      forall j | q <= j < q + |y|
        ensures u[j - b] == s[j]
      {
      }
      assert u[q - b..q - b + |y|] == s[q..q + |y|];
      assert !OccursAt(u, y, q - b);
    } else if e + 1 < q + |y| {
      assert s[e] == y[0] != y[e - q];
    }
  }

  lemma FixDelimitersBorderless()
    ensures forall j :: 0 < j < |FixClose| ==> FixClose[j] != FixClose[0]
    ensures forall j :: 0 < j < |FixSeparator| - 1 ==> FixSeparator[j] != FixSeparator[0]
    ensures [FixSeparator[0]] == "\n"
  {
  }

  /** A written block is matched where it starts, whatever follows it. */
  lemma FixMatchAt(s: string, p: nat, fx: Fix)
    requires Parseable(fx) && OccursAt(s, FixText(fx), p)
    ensures FixMatcher(s, p) == Some((p + |FixText(fx)|, (fx.search, fx.replace)))
  {
    var b := p + |FixOpen|;
    var e := b + |fx.search|;
    var c := e + |FixSeparator|;
    var f := c + |fx.replace|;
    BlockPieces(s, p, FixOpen, fx.search, FixSeparator, fx.replace, FixClose);
    FixDelimitersBorderless();
    DelimiterFirst(s, c, f, fx.replace, FixClose);
    assert FixRest(s, e) == Some(f);
    forall q | b <= q < e
      ensures FixRest(s, q).None?
    {
      DelimiterNotInside(s, b, e, fx.search, FixSeparator, q);
    }
    EarliestIs(FixRest, s, b, e);
  }

  lemma SuffixSplit(s: string, from: nat, t: string, rest: string)
    requires from <= |s| && s[from..] == t + rest
    ensures OccursAt(s, t, from) && s[from + |t|..] == rest
  {
    assert s[from..from + |t|] == s[from..][..|t|];
    assert s[from + |t|..] == s[from..][|t|..];
  }

  lemma FixScanEnd(s: string)
    ensures Fixes(AllFrom(FixMatcher, s, |s|)) == []
  {
    assert !OccursAt(s, FixOpen, |s|);
    assert Exec(FixMatcher, s, |s|).None?;
    AllFromNone(FixMatcher, s, |s|);
  }

  /** A scan that reaches a written block takes it and goes on right after it. */
  lemma FixScanBlock(s: string, from: nat, fx: Fix, rest: string, end: nat)
    requires Parseable(fx) && from <= |s| && s[from..] == FixText(fx) + rest
    requires end == from + |FixText(fx)|
    ensures end <= |s| && s[end..] == rest
    ensures Fixes(AllFrom(FixMatcher, s, from)) == [fx] + Fixes(AllFrom(FixMatcher, s, end))
  {
    FixMatchHere(s, from, fx, rest, end);
    AllFromAt(FixMatcher, s, from, end, (fx.search, fx.replace));
    FixesCons(RegexMatch(from, end, (fx.search, fx.replace)), AllFrom(FixMatcher, s, end));
  }

  lemma FixMatchHere(s: string, from: nat, fx: Fix, rest: string, end: nat)
    requires Parseable(fx) && from <= |s| && s[from..] == FixText(fx) + rest
    requires end == from + |FixText(fx)|
    ensures end <= |s| && s[end..] == rest
    ensures FixMatcher(s, from) == Some((end, (fx.search, fx.replace)))
  {
    SuffixSplit(s, from, FixText(fx), rest);
    FixMatchAt(s, from, fx);
  }

  lemma FixesCons(h: RegexMatch<(string, string)>, rest: seq<RegexMatch<(string, string)>>)
    requires h.groups.0 != "" && h.groups.1 != ""
    ensures Fixes([h] + rest) == [Fix(h.groups.0, h.groups.1)] + Fixes(rest)
  {
    assert ([h] + rest)[1..] == rest;
  }

  /** Written blocks that each satisfy `Parseable` are parsed back to the same pairs, in
      the same order: here the blocks of `fs[k..]`, written from `from` on. */
  lemma {:induction false} FixRoundTripFrom(s: string, from: nat, fs: seq<Fix>, k: nat)
    requires k <= |fs| && from <= |s| && s[from..] == RenderFixes(fs[k..])
    requires forall i :: 0 <= i < |fs| ==> Parseable(fs[i])
    ensures Fixes(AllFrom(FixMatcher, s, from)) == fs[k..]
    decreases |fs| - k
  {
    if k == |fs| {
      assert from == |s|;
      FixScanEnd(s);
    } else {
      var end := FixRoundTripStep(s, from, fs, k);
      FixRoundTripFrom(s, end, fs, k + 1);
    }
  }

  /** One step of the round trip: the block of `fs[k]` is taken, and the scan goes on
      where the rest is written. */
  lemma FixRoundTripStep(s: string, from: nat, fs: seq<Fix>, k: nat) returns (end: nat)
    requires k < |fs| && from <= |s| && s[from..] == RenderFixes(fs[k..]) && Parseable(fs[k])
    ensures end <= |s| && s[end..] == RenderFixes(fs[k + 1..])
    ensures Fixes(AllFrom(FixMatcher, s, from)) == [fs[k]] + Fixes(AllFrom(FixMatcher, s, end))
    ensures fs[k..] == [fs[k]] + fs[k + 1..]
  {
    assert fs[k..][0] == fs[k] && fs[k..][1..] == fs[k + 1..];
    end := from + |FixText(fs[k])|;
    FixScanBlock(s, from, fs[k], RenderFixes(fs[k + 1..]), end);
  }

  /** What the parser returns for written blocks: the pairs they were written from. */
  lemma FixBlocksRoundTrip(fs: seq<Fix>)
    requires forall i :: 0 <= i < |fs| ==> Parseable(fs[i])
    ensures FixBlocks(Some(RenderFixes(fs))) == fs
  {
    FixBlocksOf(RenderFixes(fs), fs);
  }

  lemma FixBlocksOf(s: string, fs: seq<Fix>)
    requires s == RenderFixes(fs)
    requires forall i :: 0 <= i < |fs| ==> Parseable(fs[i])
    ensures FixBlocks(Some(s)) == fs
  {
    FixRoundTripStart(s, fs);
    FixBlocksScan(s, fs);
  }

  lemma FixRoundTripStart(s: string, fs: seq<Fix>)
    requires s == RenderFixes(fs)
    requires forall i :: 0 <= i < |fs| ==> Parseable(fs[i])
    ensures Fixes(AllFrom(FixMatcher, s, 0)) == fs
  {
    assert s[0..] == s && fs[0..] == fs;
    FixRoundTripFrom(s, 0, fs, 0);
  }

  /** The parser's result is the scan from the start, also for the empty text. */
  lemma FixBlocksScan(s: string, fs: seq<Fix>)
    ensures s[0..] == s && fs[0..] == fs
    ensures FixBlocks(Some(s)) == Fixes(AllFrom(FixMatcher, s, 0))
  {
    if s == "" {
      FixScanEnd(s);
    }
  }

  /** Why the newline after the search text is part of the condition: a search text ending
      in "\n=======" writes the same block as another pair, and that pair is what the
      parser returns. */
  lemma SeparatorAcrossSearchEnd(x: string, y: string)
    requires Parseable(Fix(x, "=======\n" + y))
    ensures RenderFixes([Fix(x + "\n=======", y)]) == RenderFixes([Fix(x, "=======\n" + y)])
    ensures FixBlocks(Some(RenderFixes([Fix(x + "\n=======", y)]))) == [Fix(x, "=======\n" + y)]
  {
    var d := "=======";
    assert FixSeparator == "\n" + d + "\n" && "\n=======" == "\n" + d && "=======\n" == d + "\n";
    SameBlock(x, y, d);
    RenderOne(Fix(x + "\n=======", y));
    RenderOne(Fix(x, "=======\n" + y));
    FixBlocksRoundTrip([Fix(x, "=======\n" + y)]);
  }

  lemma SameBlock(x: string, y: string, d: string)
    requires FixSeparator == "\n" + d + "\n"
    ensures FixText(Fix(x + ("\n" + d), y)) == FixText(Fix(x, (d + "\n") + y))
  {
    assert (x + ("\n" + d)) + FixSeparator + y == x + FixSeparator + ((d + "\n") + y);
  }

  lemma RenderOne(fx: Fix)
    ensures RenderFixes([fx]) == FixText(fx)
  {
    assert [fx][1..] == [];
  }

  /** Text in any other delimiter dialect, without "<<<<<<< SEARCH" and a newline, gives
      no pair. */
  lemma OtherDialectNoFixes(s: string)
    requires !Contains(s, FixOpen)
    ensures FixBlocks(Some(s)) == []
  {
    forall p | 0 <= p <= |s|
      ensures FixMatcher(s, p).None?
    {
      assert !OccursAt(s, FixOpen, p);
    }
    assert MatchAll(FixMatcher, s) == [];
  }

  lemma FixScanStep(s: string, from: nat)
    requires Exec(FixMatcher, s, from).Some?
    ensures var h := Exec(FixMatcher, s, from).value;
      from < h.end <= |s|
      && Fixes(AllFrom(FixMatcher, s, from)) == Fixes([h]) + Fixes(AllFrom(FixMatcher, s, h.end))
  {
    var h := Exec(FixMatcher, s, from).value;
    assert FixMatcher(s, h.index) == Some((h.end, h.groups));
    AllFromStep(FixMatcher, s, from);
    FixesAppend([h], AllFrom(FixMatcher, s, h.end));
  }

  /** The `while ((match = regex.exec(diffContent)) !== null)` loop. */
  method ParseFixBlocks(diffContent: Option<string>) returns (fixes: seq<Fix>)
    ensures fixes == FixBlocks(diffContent)
  {
    if diffContent.None? || diffContent.value == "" {
      return [];
    }
    var text := diffContent.value;
    fixes := [];
    var lastIndex: nat := 0;
    var m := Exec(FixMatcher, text, lastIndex);
    AppendEmpty(FixBlocks(diffContent));
    while m.Some?
      invariant lastIndex <= |text|
      invariant m == Exec(FixMatcher, text, lastIndex)
      invariant fixes + Fixes(AllFrom(FixMatcher, text, lastIndex)) == FixBlocks(diffContent)
      decreases |text| - lastIndex
    {
      var h := m.value;
      FixScanStep(text, lastIndex);
      AppendAssoc(fixes, Fixes([h]), Fixes(AllFrom(FixMatcher, text, h.end)));
      if h.groups.0 != "" && h.groups.1 != "" {
        assert Fixes([h]) == [Fix(h.groups.0, h.groups.1)];
        fixes := fixes + [Fix(h.groups.0, h.groups.1)];
      } else {
        assert Fixes([h]) == [];
        AppendEmpty(fixes);
      }
      lastIndex := h.end;
      m := Exec(FixMatcher, text, lastIndex);
    }
    AllFromNone(FixMatcher, text, lastIndex);
    AppendEmpty(fixes);
  }
}
