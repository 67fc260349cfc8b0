# agent-x in Dafny: from model answers to one HTML artifact

agent-x is a web application in which language-model agents turn a requirement into a
requirement document and then into a single HTML page. Most of what it does between the
model and the page is text handling. This project models that text handling and the
state kept around it, and proves what each step guarantees:

- **Fence extraction and repair** (`Utils`), from the web client's Markdown helpers:
  - the fenced-code scanner, with each regular expression written out as a matcher
    that follows the backtracking order of the JavaScript engine (`JsRegex`);
  - the repair of an answer cut off inside an `` ```html `` block;
  - the "exactly one html block" gate;
  - the five-line overlap window quoted when an answer is continued (`LineWindow`).
- **The artifact store** (`AgentStore`):
  - the zustand store of the client, as a class with one state record;
  - its actions and the project loader, with the fetch result passed in;
  - the `<<<<<<< SEARCH` / `=======` / `>>>>>>> REPLACE` fix-block parser.
- **The completion handlers** (`AgentCompletion`):
  - what is stored when a code answer, a continuation or a fix answer has finished;
  - the code history sent with a generation request;
  - the guard on a fix request.
- **The server's post-processing** (`SoftwareDeveloper`) of the developer agent's
  answer:
  - header line, overlap merge with the continuation, end-marker line, fence stripping.
  - The two model answers, or the failure of the second, are parameters.
- **The bookkeeping of every agent** (`Agent`): the class `AIAgent` with its memory,
  its conversation history capped at fifty messages, its tool registry and its status.
  The model's answers and the tools' outcomes are parameters.

Support modules:
- `JsString`: the JavaScript string built-ins.
  - `trim` and the white-space class of `\s`.
  - `includes`, `indexOf`, `startsWith`.
  - `split("\n")` / `join("\n")`, `slice(-n)`, and a global `replace` with the empty text.
- `OrderedMaps`: a JavaScript `Map`, or a plain object used as one, as entries in
  insertion order, for keys that are not array indices (every key here is a file type
  or a memory key). Setting a key that is present keeps its place.
- `Wrappers`: `Option`, which also stands for `null`/`undefined`, and `Result`.

Behaviours of the code that are easy to miss, modelled as written:
- The client's continuation merge puts no newline between the kept lines and the
  continuation, so the last kept line and the continuation's first line become one line
  (`LongCodeGluesLines`). The server's merge does insert one (`MergedLines`).
- A continuation answer without a fenced block makes the client append the text
  `undefined` (`NoBlockAppendsUndefined`).
- The language capture of the fence pattern always takes part in a match. So the
  `"plaintext"` fallback never applies, and an untagged fence gives language `""`
  (`BlockLanguage`).
- An opening such as `` ```html `` followed by blanks before the newline is counted as
  an opening by the repair (`BlankAfterTagCountsAsOpening`) and accepted by the gate,
  but the extractor does not see it as a block (`BlankAfterTagNotExtracted`). So
  `` "```html  \nX\n```" `` passes the gate and extracts to no block
  (`BlankTagGateOnly`), and the truncated `` "```html \nX" `` is repaired but still
  gives no block (`BlankTagRepairFindsNothing`).
- On the server, the header step can never bring in the end marker. The answer is
  therefore always judged incomplete on that path, and the branch that only appends the
  marker cannot be reached (`AlwaysIncomplete`).

## Model

| member | source | states |
|---|---|---|
| Utils.ExtractFencedCodeBlocks | src/lib/utils.ts:23-39 | the exec loop returns exactly the blocks of the global scan: one per match, in order |
| Utils.FenceHitShape | src/lib/utils.ts:24 | every fence match has the pattern's shape: fence, blanks, tag run, newline, body, then a newline and a fence followed by a newline or the end; no closing fence starts inside the body, which is the shortest |
| Utils.BlockIsLeftmostMatch | src/lib/utils.ts:24-36 | the i-th block is the trimmed tag and the trimmed body of the i-th match; that match is the leftmost one at or after the end of the previous match |
| Utils.NoBlocksIff | src/lib/utils.ts:23-39 | no block is returned if and only if the fence pattern matches nowhere in the text |
| Utils.FenceShapeMatches | src/lib/utils.ts:24 | wherever the text has the pattern's shape at a position, the engine finds a match there |
| Utils.NoBlocksIffNoShape | src/lib/utils.ts:23-39 | no block is returned if and only if the text has the pattern's shape nowhere |
| Utils.BlockLanguage | src/lib/utils.ts:24-33 | a block's language is the whole tag capture, made of letters, digits and hyphens; trimming leaves it unchanged and the "plaintext" fallback is never taken |
| Utils.TildesCloseBackticks | src/lib/utils.ts:24 | a block opened with backticks is closed by a tilde fence |
| Utils.Blocks | src/lib/utils.ts:31-36 | one block per match, each made from that match's captures |
| Utils.LastNewline | src/lib/utils.ts:49 | the greedy blank run after "```html" gives back characters until the last newline inside it |
| Utils.HtmlOpenMatcher | src/lib/utils.ts:49 | an opening match is "```html", then blanks, and it ends just after a newline |
| Utils.HtmlCloseMatcher | src/lib/utils.ts:50 | a closing match is a newline, blanks and "```", followed by a newline or the end of the text |
| Utils.NoHtmlFenceNoOpening | src/lib/utils.ts:49-52 | text without "```html" has no opening |
| Utils.FixTruncatedHtmlBlock | src/lib/utils.ts:47-71 | the content is the repaired text, the blocks are the extraction of that content, and html is the first block's code or "" |
| Utils.TruncatedHtmlRepaired | src/lib/utils.ts:47-71 | an answer cut off after "```html\n" and a one-line body without backticks is closed with "\n```"; the result passes the gate, extracts to exactly one html block, and html is the trimmed body |
| Utils.BlankTagRepairFindsNothing | src/lib/utils.ts:47-71 | "```html \nX" counts as more openings than closings and is closed, yet its repair extracts to no block |
| Utils.FirstCode | src/lib/utils.ts:69 | the first block's code, or "" when there is no block |
| Utils.RepairClosesAtEnd | src/lib/utils.ts:60 | the appended text is a closing fence for the extractor, at the old end of the text, and every earlier closing fence stays one |
| Utils.BlankAfterTagNotExtracted | src/lib/utils.ts:24 | an "```html" followed by a blank that is not a newline gives no fence match there |
| Utils.BlankAfterTagCountsAsOpening | src/lib/utils.ts:49 | an "```html" whose blank run holds a newline is an opening for the repair, whatever blanks precede the newline |
| Utils.HtmlBlockShape | src/lib/utils.ts:77 | an html-block match starts a line; blanks, "```html" and blanks fill the first line; the body is the shortest span up to the first line that is blanks, "```" and blanks |
| Utils.ExactlyOneIff | src/lib/utils.ts:84-95 | the gate holds if and only if the leftmost html block leaves no html block after the point where the scan resumes |
| Utils.GateNeedsHtmlFence | src/lib/utils.ts:77-95 | text without "```html" fails the gate |
| Utils.HtmlBlockAt | src/lib/utils.ts:77 | wherever a line holds blanks, "```html" and blanks up to its newline, and a closing line follows later, the html-block pattern matches at that line |
| Utils.HtmlDocumentPassesGate | src/lib/utils.ts:77-95 | "```html", blanks other than newlines, a newline, a body without a closing line, "\n```": the gate holds |
| Utils.HtmlDocumentExtracts | src/lib/utils.ts:23-39 | "```html\n", a body without a closing fence, "\n```": the extractor returns exactly one html block with the trimmed body |
| Utils.WellFormedHtmlBlock | src/lib/utils.ts:23-95 | "```html\n", a body in which no closing fence and no closing line starts, "\n```": the gate holds and the extractor returns exactly one html block with the trimmed body |
| Utils.OneLineHtmlBlock | src/lib/utils.ts:23-95 | for instance "```html\n<div>hi</div>\n```": any one-line body passes the gate and extracts to one html block with that code |
| Utils.BlankTagGateOnly | src/lib/utils.ts:23-95 | "```html  \nX\n```" passes the gate, but the extractor returns no block |
| JsRegex.Earliest | src/lib/utils.ts:24 | the first position from the start at which the pattern succeeds, with nothing earlier: the leftmost start and the lazy `*?` |
| JsRegex.Exec | src/lib/utils.ts:30 | `exec` from lastIndex finds a match at the first position where the pattern matches, or none when it matches nowhere after lastIndex |
| JsRegex.AllFromLeftmost | src/lib/utils.ts:30 | each match of a global scan is the leftmost at or after the previous match's end, so matches come in order and never overlap |
| JsRegex.AllFromExhausted | src/lib/utils.ts:30 | after a global scan's last match, no match starts anywhere later |
| JsRegex.MatchAllWhole | src/lib/utils.ts:52-53 | a scan whose first match covers the whole text finds that match only |
| JsRegex.MatchAllOne | src/lib/utils.ts:92-95 | a scan has exactly one match if and only if the leftmost match leaves no match after it |
| LineWindow.Window | src/lib/utils.ts:101 | the window is the last min(5, n) lines of the text, as lines |
| LineWindow.BeforeWindow | src/hooks/useAgentCompletion.ts:194 | the part before the window is "" up to five lines, and otherwise the first n-5 lines |
| LineWindow.Partition | src/lib/utils.ts:101 | a text of at most five lines is its own window; a longer one is the part before the window, a newline, then the window |
| LineWindow.WindowIsSuffix | src/lib/utils.ts:101 | the window is a suffix of the text |
| JsString.Trim | src/lib/utils.ts:35 | the trimmed text is the slice left after removing the leading and trailing white space; it neither starts nor ends with white space |
| JsString.TrimEmptyIff | src/server/core/agents/softwareDeveloper/index.ts:141-146 | a text trims to "" if and only if it is all white space |
| JsString.IndexOf | src/hooks/useAgentCompletion.ts:245-246 | the first position at or after the start where the pattern occurs, and no earlier one |
| JsString.Contains | src/server/core/agents/softwareDeveloper/index.ts:74 | `includes` holds if and only if the text occurs somewhere |
| JsString.Split | src/lib/utils.ts:101 | at least one piece, and no piece holds a newline |
| JsString.JoinSplit | src/lib/utils.ts:101 | joining the lines of a text with "\n" gives the text back |
| JsString.SplitJoin | src/lib/utils.ts:101 | splitting joined newline-free pieces gives the pieces back |
| JsString.SplitConcat | src/hooks/useAgentCompletion.ts:194-195 | the lines of a concatenation: the last line of the first text and the first line of the second become one line |
| JsString.JoinContains | src/server/core/agent.ts:293-300 | every joined piece occurs in the joined text |
| JsString.SliceLast | src/server/core/agent.ts:237-249 | `slice(-n)` gives the last n elements, or all of them when there are fewer |
| JsString.RemoveAllKeeps | src/server/core/agents/softwareDeveloper/index.ts:152-154 | removing a pattern keeps every occurrence of a text that shares no starting character with it |
| JsString.RemoveFenceLeavesNone | src/server/core/agents/softwareDeveloper/index.ts:154 | after removing every "```" no "```" is left |
| OrderedMaps.Get | src/server/core/agent.ts:223-225 | a key that is absent reads as none; a present key reads as the value stored under it |
| OrderedMaps.Put | src/store/agent.ts:148-151 | a present key keeps its place with the new value; an absent key is appended; every other entry is kept |
| OrderedMaps.PutKeepsUnique | src/store/agent.ts:148-151 | setting a key never stores a key twice |
| OrderedMaps.GetPut | src/server/core/agent.ts:214-225 | a key just set reads back as the value set; every other key reads as before |
| AgentStore.InitialCodeValid | src/store/agent.ts:121 | the initial code map holds the "html" entry and no key twice |
| AgentStore.UpdateCodeReadsBack | src/store/agent.ts:146-152 | the file's code reads back as written; the other files' code and the key order are unchanged, and no other field changes |
| AgentStore.ResetKeepsUnlisted | src/store/agent.ts:229-242 | a reset gives the initial state, except that the fields it does not list keep their values |
| AgentStore.ResetSubsumes | src/store/agent.ts:229-323 | clearing the code or cancelling a fix before a reset makes no difference to the reset |
| AgentStore.CancelUndoesReview | src/store/agent.ts:308-323 | a review sets review mode and the review prompt; cancelling after a review is the same as cancelling alone |
| AgentStore.FirstRequirement | src/store/agent.ts:202-204 | the first document of type REQUIREMENT, or none if no document has that type |
| AgentStore.LatestHtmlFile | src/store/agent.ts:213-215 | the first code file that is html and marked latest, or none |
| AgentStore.WithRequirement | src/store/agent.ts:206-210 | applying the requirement step changes only the document, the requirement and the step |
| AgentStore.WithHtmlFile | src/store/agent.ts:217-220 | applying the html step changes only the code map and the step |
| AgentStore.LoadEndsLoading | src/store/agent.ts:223-226 | the loading flag ends cleared on every outcome |
| AgentStore.LoadFailureKeepsState | src/store/agent.ts:221-226 | a failed fetch changes only the loading flag |
| AgentStore.LoadWithoutProjectKeepsState | src/store/agent.ts:196 | a fetch without a project changes only the loading flag |
| AgentStore.LoadedSuccess | src/store/agent.ts:199-220 | a successful load sets the project id, applies the requirement step, then the html step, and clears the flag |
| AgentStore.LoadedStep | src/store/agent.ts:209-219 | the step becomes 3 when a latest html file exists, else 2 when a requirement exists, else it is unchanged |
| AgentStore.LoadedContent | src/store/agent.ts:199-220 | the project id is the one asked for; document, requirement and html code come from the records found, and stay as they were when none is found |
| AgentStore.LoadedFrame | src/store/agent.ts:178-227 | a load touches no field outside the project id, document, requirement, code, step and loading flag |
| AgentStore.Store.constructor | src/store/agent.ts:117-140 | a new store holds the initial state |
| AgentStore.Store.UpdateCodeForFile | src/store/agent.ts:146-152 | the new state is the old one with that file's code replaced, and the code map stays well formed |
| AgentStore.Store.LoadProjectData | src/store/agent.ts:178-227 | the new state is the load of the fetch result into the old state |
| AgentStore.Store.ResetToNewProject | src/store/agent.ts:229-242 | the new state is the reset of the old one |
| AgentStore.Store.ClearCodeAction | src/store/agent.ts:299-306 | the new state is the old one with the code, the fixed code and the review fields cleared |
| AgentStore.Store.HandleCodeReview | src/store/agent.ts:308-314 | the new state is the old one with review mode on and the review prompt set; the files stay valid |
| AgentStore.Store.HandleCancelFix | src/store/agent.ts:316-323 | the new state is the old one with the fixed code, the review fields and the fixing flag cleared; the files stay valid |
| AgentStore.FixRest | src/store/agent.ts:281 | a match continues with the separator, then the replacement runs to the first closing delimiter |
| AgentStore.Fixes | src/store/agent.ts:285-290 | at most one pair per match |
| AgentStore.FixesAppend | src/store/agent.ts:284-291 | the pairs keep the order of the matches |
| AgentStore.FixesMembership | src/store/agent.ts:285-290 | a pair is returned exactly when some match captured it and both of its parts are non-empty |
| AgentStore.FixMatchText | src/store/agent.ts:280-281 | a match is the opening delimiter, the search text, the separator, the replacement and the closing delimiter, verbatim; neither capture holds the delimiter that ends it |
| AgentStore.OtherDialectNoFixes | src/store/agent.ts:281 | text without the opening delimiter yields no pair |
| AgentStore.ParseFixBlocks | src/store/agent.ts:272-297 | returns no pair for missing or empty input, and otherwise the kept pairs of the global scan in order |
| AgentStore.FixMatchAt | src/store/agent.ts:280-281 | a written block of a pair whose search text lets no separator start inside it and whose replacement holds no closing delimiter is matched as a whole, capturing that pair |
| AgentStore.FixBlocksRoundTrip | src/store/agent.ts:272-297 | parsing the written blocks of such pairs, each with non-empty parts, returns exactly those pairs, in order |
| AgentStore.SeparatorAcrossSearchEnd | src/store/agent.ts:281 | a search text ending in "\n=======" is written as the same block as the pair whose replacement begins with "=======\n", and the lazy search body makes the parser return that other pair |
| AgentCompletion.OnCodeFinish | src/hooks/useAgentCompletion.ts:128-180 | stores the code of the active file and clears the generating file; asks for a continuation exactly when the gate fails, quoting the stored code and the document |
| AgentCompletion.NoHtmlFenceContinuesWithFirstBlock | src/hooks/useAgentCompletion.ts:132-145 | an answer without "```html" always asks for a continuation and stores its first block unrepaired |
| AgentCompletion.BalancedStoresFirstBlock | src/hooks/useAgentCompletion.ts:133-150 | with no more openings than closing fences the stored code is the first extracted block |
| AgentCompletion.UnbalancedStoresRepairedBlock | src/hooks/useAgentCompletion.ts:132-145 | an unbalanced answer that fails the gate stores the first block of the answer with "\n```" appended |
| AgentCompletion.OnContinueFinish | src/hooks/useAgentCompletion.ts:191-207 | the active file's code is replaced by the merge of its current code with the continuation |
| AgentCompletion.ShortCodeReplaced | src/hooks/useAgentCompletion.ts:194 | a code of at most five lines is replaced by the continuation's code |
| AgentCompletion.LongCodeGluesLines | src/hooks/useAgentCompletion.ts:192-197 | a longer code keeps its first n-5 lines; the last kept line and the continuation's first line become one line |
| AgentCompletion.NoBlockAppendsUndefined | src/hooks/useAgentCompletion.ts:195 | without a fenced block in the continuation, "undefined" follows the kept lines |
| AgentCompletion.MergeReplacesWindow | src/hooks/useAgentCompletion.ts:192-197 | the merge replaces the newline and the five-line window by the continuation's code |
| AgentCompletion.DiffMatcher | src/hooks/useAgentCompletion.ts:245 | a diff match ends after a closing tag that follows its start |
| AgentCompletion.DiffIsFirst | src/hooks/useAgentCompletion.ts:245-246 | the first "<diff>" with a closing tag after it is taken; its body runs to the first "</diff>" and is trimmed |
| AgentCompletion.DiffOfWrapped | src/hooks/useAgentCompletion.ts:245-246 | an answer that opens with a diff whose body holds no closing tag gives the trimmed body |
| AgentCompletion.OnFixFinish | src/hooks/useAgentCompletion.ts:243-276 | the fixed code is set to the diff when it is non-empty and otherwise left; the fixing flag ends cleared |
| AgentCompletion.FixFinishedFrame | src/hooks/useAgentCompletion.ts:248-275 | only the fixed code and the fixing flag change, and the flag ends cleared |
| AgentCompletion.NoDiffKeepsFixedCode | src/hooks/useAgentCompletion.ts:245-249 | without "<diff>" only the fixing flag changes |
| AgentCompletion.OtherCode | src/hooks/useAgentCompletion.ts:378-385 | the history has the same keys in the same order; the target file maps to "" and every other file to its code |
| AgentCompletion.HandleGenerateCode | src/hooks/useAgentCompletion.ts:374-395 | marks the file as being generated and returns that history |
| AgentCompletion.FixRequestFor | src/hooks/useAgentCompletion.ts:398-408 | no request exactly when the html code or the document is empty; otherwise the request quotes both and the issue |
| AgentCompletion.HandleFixCode | src/hooks/useAgentCompletion.ts:398-409 | without a request the state is unchanged; with one only the fixing flag is set |
| SoftwareDeveloper.MarkerFacts | src/server/core/agents/softwareDeveloper/index.ts:33-42 | every end marker is one line without a newline or backtick whose first character is in neither fence text; it does not occur in its header line, which starts and ends with a character other than white space |
| SoftwareDeveloper.GenerateCode | src/server/core/agents/softwareDeveloper/index.ts:74-168 | the step-by-step rebuild returns the specified result and quotes the specified window |
| SoftwareDeveloper.CompleteAnswerUnchanged | src/server/core/agents/softwareDeveloper/index.ts:74-75 | an answer with its end marker is returned unchanged and nothing is quoted |
| SoftwareDeveloper.HeaderEnsured | src/server/core/agents/softwareDeveloper/index.ts:80-84 | after the header step the trimmed text starts with the header line, and a second header step changes nothing |
| SoftwareDeveloper.HeaderAddsNoEndLine | src/server/core/agents/softwareDeveloper/index.ts:80-87 | the header step never brings in the end marker |
| SoftwareDeveloper.AlwaysIncomplete | src/server/core/agents/softwareDeveloper/index.ts:87-168 | after a first answer without the marker the generation is always judged incomplete, and the quoted window is the last five lines |
| SoftwareDeveloper.MergedShort | src/server/core/agents/softwareDeveloper/index.ts:135-146 | with at most five lines the merge is the trimmed continuation |
| SoftwareDeveloper.MergedLines | src/server/core/agents/softwareDeveloper/index.ts:135-146 | with more lines and a non-blank kept part, the merge's lines are the first n-5 lines, then those of the trimmed continuation |
| SoftwareDeveloper.MergedForm | src/server/core/agents/softwareDeveloper/index.ts:141-146 | a non-blank kept part is followed by a newline and the trimmed continuation |
| SoftwareDeveloper.StripKeepsMarker | src/server/core/agents/softwareDeveloper/index.ts:152-154 | stripping the fences keeps an end marker that is there |
| SoftwareDeveloper.GeneratedEndsAndUnfenced | src/server/core/agents/softwareDeveloper/index.ts:149-161 | every result after a first answer without the marker holds the end marker and no "```" |
| Agent.CappedKeepsLatest | src/server/core/agent.ts:232-238 | the capped history holds the most recent messages in order, at most fifty |
| Agent.HistoryView | src/server/core/agent.ts:245-252 | the last limit messages for a positive limit, all of them if fewer; otherwise the whole history |
| Agent.HistoryLines | src/server/core/agent.ts:295-297 | one line per message |
| Agent.PromptEndsWithRequest | src/server/core/agent.ts:293-300 | the caller's prompt always ends the full prompt |
| Agent.PromptIgnoresHistory | src/server/core/agent.ts:293-300 | without includeHistory, or with an empty history, the history does not affect the prompt |
| Agent.PromptHoldsHistory | src/server/core/agent.ts:293-300 | with includeHistory, each message's "role: content" line occurs in the prompt |
| Agent.RelevantIff | src/server/core/agent.ts:363-377 | an entry is recalled if and only if it is in the memory with a key or value containing the query |
| Agent.EmptyQueryRecallsAll | src/server/core/agent.ts:363-377 | the empty query recalls the whole memory, in order |
| Agent.AIAgent.constructor | src/server/core/agent.ts:98-104 | a new agent has its id, name and role, no memory, no history, no tools, and is idle |
| Agent.AIAgent.GetInfo | src/server/core/agent.ts:200-207 | id, name, role and the status name |
| Agent.AIAgent.Remember | src/server/core/agent.ts:214-216 | the key reads back as the value; other keys, the history, the tools and the status are unchanged |
| Agent.AIAgent.Recall | src/server/core/agent.ts:223-225 | the stored value, or none exactly when the key is unknown |
| Agent.AIAgent.AddToConversation | src/server/core/agent.ts:232-238 | the message is appended, the history is capped at fifty, and the new message is last |
| Agent.AIAgent.GetConversationHistory | src/server/core/agent.ts:245-252 | returns the history view for the limit and changes nothing |
| Agent.AIAgent.ClearConversationHistory | src/server/core/agent.ts:257-259 | the history is empty and nothing else changes |
| Agent.AIAgent.RegisterTool | src/server/core/agent.ts:351-356 | the name now maps to the given tool, replacing an earlier one; nothing else changes |
| Agent.AIAgent.UseTool | src/server/core/agent.ts:329-344 | an unknown name fails and sets the error status; a tool's success is returned with the idle status; its failure is reported with the tool's name and sets the error status |
| Agent.AIAgent.QueryLLM | src/server/core/agent.ts:280-313 | sends the composed prompt; on success it returns the answer and is idle, on failure it fails and is in the error status; memory, history and tools are unchanged |
| Agent.AIAgent.SemanticRecall | src/server/core/agent.ts:363-377 | returns exactly the memory entries that mention the query, in memory order |

## Left out

- The model clients and streaming are not modelled: `createOpenAI`, `createDeepSeek`, `generateText`, `streamText`, `generateObject` and `performTask`/`performTaskStream` in src/server/core/agent.ts. They are network calls to foreign libraries. Each model answer or failure is an input of the members above.
- `introduce` and `techStack` in the agent class are not modelled. Both are a prompt to the model and a stored list.
- `AIAgent` being abstract is not modelled. The class here is the shared part.
- Agent.AIAgent.QueryLLM: the `busy` status set while waiting is not observable after the call, because waiting is not modelled. The error is returned as a failure instead of thrown.
- Agent.AIAgent.UseTool: tool arguments and results are text, and a tool is only a handle. Whatever a tool resolves to is an input.
- Agent.AIAgent.GetConversationHistory: limits are integers. A fractional limit, which `slice` truncates, is not modelled.
- Console logging is not modelled, since it has no effect on state.
- The prompt templates are not modelled, apart from quoting the five-line window: the `continuePrompt` text, and the prompts of the developer agent and the continuation.
- The streaming of answers into the editor, saving projects, documents and code files, `autoSaveStatus` and its timers, and the session checks are not modelled. They are asynchronous calls to services outside the core.
- The store setters that no modelled operation calls are not modelled: `setCodeImplementation`, `setCurrentFile`, `setCopiedText`, `setIsGeneratingAll`, `setFeedback`, `setIsRegeneratingDocument`, `resetFeedback`, `setIsReviewMode`, `setIssueDescription`, `setIsApplyingFix` and `setIsLoadingHistoryProject`. Each sets one field, like the setters that are modelled.
- `handleCopyText` and `handleDownload` are not modelled. They use the clipboard, a timer and a file download.
- AgentStore.Store.LoadProjectData: the awaited fetch is one input, a result or an error. Interleaving with other actions while the fetch is pending is not modelled.
- AgentStore.ParseFixBlocks: a non-string argument is `None`. The `try`/`catch` around the scan is not modelled, because the scan cannot throw.
- The code that applies search/replace pairs is not modelled. It is not part of the repository's source.
- Utils.FixTruncatedHtmlBlock: the repair does not always yield an extractable block. The model proves it for a truncated block that opens with "```html\n" and holds one line without backticks (`TruncatedHtmlRepaired`), and exhibits a blank after the tag as a case where it fails (`BlankTagRepairFindsNothing`). Longer truncated bodies are not covered.
- OrderedMaps: a plain object lists its integer-like keys first, in ascending order. That order is not modelled, because every key the core uses is a file type or a memory key.
- JsString.IsSpace: the white space of `\s` and `trim` is the fixed list of ECMAScript characters, with no Unicode category lookup.
- The `g` flag's `lastIndex` is modelled only inside one scan. A regular expression object shared across calls is not.
