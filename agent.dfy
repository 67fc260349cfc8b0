/** The bookkeeping every agent of the server shares: a key/value memory, a
    conversation history that keeps the latest fifty messages, a registry of tools and a
    status that moves between idle, busy and error around a call of the language model
    or of a tool. The model and the tools are foreign code; what they answer (or the
    error they throw) is a parameter. */
module Agent {
  import opened Wrappers
  import opened JsString
  import opened OrderedMaps

  datatype Status = Idle | Busy | Error

  /** The status as `getInfo` reports it. */
  function StatusName(s: Status): string
  {
    match s
    case Idle => "idle"
    case Busy => "busy"
    case Error => "error"
  }

  datatype Message = Message(role: string, content: string)

  datatype Info = Info(id: string, name: string, role: string, status: string)

  /** A registered tool function, known to the model only by identity. */
  datatype Tool = Tool(handle: nat)

  /** The number of messages the history keeps. */
  const HistoryLimit := 50

  // ---------------------------------------------------------------------------
  // The pure parts of the operations

  /** The history after `push` and `slice(-50)` when it grew past the limit. */
  function Capped(h: seq<Message>): seq<Message>
  {
    if |h| > HistoryLimit then h[|h| - HistoryLimit..] else h
  }

  /** Capping keeps the most recent messages, in order, and at most fifty of them. */
  lemma CappedKeepsLatest(h: seq<Message>)
    ensures |Capped(h)| == if |h| < HistoryLimit then |h| else HistoryLimit
    ensures Capped(h) == h[|h| - |Capped(h)|..]
  {
  }

  /** `getConversationHistory(limit)`: the last `limit` messages when `limit` is given
      and positive, otherwise a copy of the whole history. */
  function HistoryView(h: seq<Message>, limit: Option<int>): (r: seq<Message>)
    ensures limit.Some? && limit.value > 0 ==>
      (|r| == if |h| < limit.value then |h| else limit.value)
    ensures |r| <= |h| && r == h[|h| - |r|..]
    ensures limit.None? || limit.value <= 0 ==> r == h
  {
    if limit.Some? && limit.value > 0 then SliceLast(h, limit.value) else h
  }

  /** One line `role: content` per message, in order. */
  function HistoryLines(h: seq<Message>): (ls: seq<string>)
    ensures |ls| == |h|
  {
    seq(|h|, i requires 0 <= i < |h| => h[i].role + ": " + h[i].content)
  }

  /** The prompt sent by `queryLLM` for the caller's `prompt`. */
  function FullPrompt(role: string, h: seq<Message>, prompt: string, includeHistory: bool): string
  {
    if includeHistory && |h| > 0 then
      "历史对话:\n" + Join(HistoryLines(h)) + "\n\n你是一个" + role + "，基于以上对话历史，" + prompt
    else "你是一个" + role + "，" + prompt
  }

  /** The caller's prompt always ends the full prompt. */
  lemma PromptEndsWithRequest(role: string, h: seq<Message>, prompt: string, includeHistory: bool)
    ensures var f := FullPrompt(role, h, prompt, includeHistory);
      |prompt| <= |f| && f[|f| - |prompt|..] == prompt
  {
    var f := FullPrompt(role, h, prompt, includeHistory);
    if includeHistory && |h| > 0 {
      assert f == ("历史对话:\n" + Join(HistoryLines(h)) + "\n\n你是一个" + role + "，基于以上对话历史，") + prompt;
    }
  }

  /** Without `includeHistory`, or with an empty history, the history does not enter
      the prompt: two histories give the same prompt. */
  lemma PromptIgnoresHistory(role: string, h1: seq<Message>, h2: seq<Message>, prompt: string, includeHistory: bool)
    requires !includeHistory || (|h1| == 0 && |h2| == 0)
    ensures FullPrompt(role, h1, prompt, includeHistory) == FullPrompt(role, h2, prompt, includeHistory)
  {
  }

  /** With `includeHistory` and a history, the prompt holds each message's line. */
  lemma {:induction false} PromptHoldsHistory(role: string, h: seq<Message>, prompt: string, i: nat)
    requires i < |h|
    ensures Contains(FullPrompt(role, h, prompt, true), h[i].role + ": " + h[i].content)
  {
    var ls := HistoryLines(h);
    JoinContains(ls, i);
    var j := Join(ls);
    var pre := "历史对话:\n";
    var post := "\n\n你是一个" + role + "，基于以上对话历史，" + prompt;
    assert FullPrompt(role, h, prompt, true) == pre + j + post;
    ContainsConcatRight(pre, j, ls[i]);
    ContainsConcatLeft(pre + j, post, ls[i]);
  }

  /** Whether a memory entry mentions the query in its key or its value. */
  predicate Mentions(e: (string, string), query: string)
  {
    Contains(e.0, query) || Contains(e.1, query)
  }

  /** The entries `semanticRecall` returns, in the order of the memory. */
  function Relevant(m: Entries<string, string>, query: string): Entries<string, string>
  {
    if |m| == 0 then []
    else Relevant(m[..|m| - 1], query) + (if Mentions(m[|m| - 1], query) then [m[|m| - 1]] else [])
  }

  /** An entry is returned exactly when it is in the memory and mentions the query. */
  lemma {:induction false} RelevantIff(m: Entries<string, string>, query: string, e: (string, string))
    ensures e in Relevant(m, query) <==> e in m && Mentions(e, query)
  {
    if |m| > 0 {
      RelevantIff(m[..|m| - 1], query, e);
      assert m == m[..|m| - 1] + [m[|m| - 1]];
    }
  }

  /** Every key contains the empty text, so the empty query returns the whole memory. */
  lemma {:induction false} EmptyQueryRecallsAll(m: Entries<string, string>)
    ensures Relevant(m, "") == m
  {
    if |m| > 0 {
      EmptyQueryRecallsAll(m[..|m| - 1]);
      assert OccursAt(m[|m| - 1].0, "", 0);
      assert m == m[..|m| - 1] + [m[|m| - 1]];
    }
  }

  /** The message `useTool` throws for a tool that failed with `message`. */
  function ToolFailure(toolName: string, message: string): string
  {
    "使用工具" + toolName + "失败: " + message
  }

  /** The message of the error thrown for a name without a tool. */
  function ToolMissing(toolName: string): string
  {
    "Tool " + toolName + " not found"
  }

  // ---------------------------------------------------------------------------
  // The agent

  class AIAgent {
    const id: string
    const name: string
    const role: string
    var memory: Entries<string, string>
    var conversationHistory: seq<Message>
    var status: Status
    var tools: Entries<string, Tool>

    ghost predicate Valid()
      reads this
    {
      UniqueKeys(memory) && UniqueKeys(tools) && |conversationHistory| <= HistoryLimit
    }

    /** A new agent remembers nothing, has said nothing, has no tools and is idle. */
    constructor (id: string, name: string, role: string)
      ensures Valid()
      ensures this.id == id && this.name == name && this.role == role
      ensures memory == [] && conversationHistory == [] && tools == [] && status == Idle
    {
      this.id := id;
      this.name := name;
      this.role := role;
      memory := [];
      conversationHistory := [];
      status := Idle;
      tools := [];
    }

    method GetInfo() returns (info: Info)
      ensures info == Info(id, name, role, StatusName(status))
    {
      info := Info(id, name, role, StatusName(status));
    }

    /** `memory.set(key, value)`. */
    method Remember(key: string, value: string)
      requires Valid()
      modifies this
      ensures Valid()
      ensures memory == Put(old(memory), key, value)
      ensures Get(memory, key) == Some(value)
      ensures forall k :: k != key ==> Get(memory, k) == Get(old(memory), k)
      ensures conversationHistory == old(conversationHistory) && status == old(status) && tools == old(tools)
    {
      PutKeepsUnique(memory, key, value);
      forall k | true
        ensures Get(Put(memory, key, value), key) == Some(value)
        ensures k != key ==> Get(Put(memory, key, value), k) == Get(memory, k)
      {
        GetPut(memory, key, value, k);
      }
      memory := Put(memory, key, value);
    }

    /** `memory.get(key) ?? null`, `None` standing for `null`. */
    method Recall(key: string) returns (r: Option<string>)
      requires Valid()
      ensures r == Get(memory, key)
      ensures r.None? <==> key !in Keys(memory)
      ensures r.Some? ==> (key, r.value) in memory
    {
      r := Get(memory, key);
    }

    /** Appends the message and drops the oldest ones beyond fifty. */
    method AddToConversation(role: string, content: string)
      requires Valid()
      modifies this
      ensures Valid()
      ensures conversationHistory == Capped(old(conversationHistory) + [Message(role, content)])
      ensures conversationHistory[|conversationHistory| - 1] == Message(role, content)
      ensures memory == old(memory) && status == old(status) && tools == old(tools)
    {
      conversationHistory := conversationHistory + [Message(role, content)];
      if |conversationHistory| > HistoryLimit {
        conversationHistory := conversationHistory[|conversationHistory| - HistoryLimit..];
      }
    }

    method GetConversationHistory(limit: Option<int>) returns (h: seq<Message>)
      ensures h == HistoryView(conversationHistory, limit)
    {
      if limit.Some? && limit.value > 0 {
        h := SliceLast(conversationHistory, limit.value);
      } else {
        h := conversationHistory;
      }
    }

    method ClearConversationHistory()
      requires Valid()
      modifies this
      ensures Valid()
      ensures conversationHistory == []
      ensures memory == old(memory) && status == old(status) && tools == old(tools)
    {
      conversationHistory := [];
    }

    /** `tools.set(toolName, toolFn)`: a tool of the same name is replaced. */
    method RegisterTool(toolName: string, tool: Tool)
      requires Valid()
      modifies this
      ensures Valid()
      ensures tools == Put(old(tools), toolName, tool)
      ensures Get(tools, toolName) == Some(tool)
      ensures memory == old(memory) && conversationHistory == old(conversationHistory) && status == old(status)
    {
      PutKeepsUnique(tools, toolName, tool);
      GetPut(tools, toolName, tool, toolName);
      tools := Put(tools, toolName, tool);
    }

    /** `useTool`: `outcome` is what the registered tool resolves to or the message it
        throws. The status is busy during the call, idle after a result and error after
        any failure, an unknown name included. */
    method UseTool(toolName: string, outcome: Result<string, string>) returns (r: Result<string, string>)
      requires Valid()
      modifies this
      ensures Valid()
      ensures Get(tools, toolName).None? ==>
        status == Error && r == Failure(ToolFailure(toolName, ToolMissing(toolName)))
      ensures Get(tools, toolName).Some? && outcome.Success? ==> status == Idle && r == outcome
      ensures Get(tools, toolName).Some? && outcome.Failure? ==>
        status == Error && r == Failure(ToolFailure(toolName, outcome.error))
      ensures memory == old(memory) && conversationHistory == old(conversationHistory) && tools == old(tools)
    {
      status := Busy;
      var tool := Get(tools, toolName);
      if tool.None? {
        status := Error;
        return Failure(ToolFailure(toolName, ToolMissing(toolName)));
      }
      match outcome
      case Success(result) =>
        status := Idle;
        r := Success(result);
      case Failure(message) =>
        status := Error;
        r := Failure(ToolFailure(toolName, message));
    }

    /** `queryLLM`: composes the prompt, and `response` is what the model answers for
        it or the error it throws, which is thrown on. */
    method QueryLLM(prompt: string, includeHistory: bool, response: Result<string, string>)
      returns (fullPrompt: string, r: Result<string, string>)
      requires Valid()
      modifies this
      ensures Valid()
      ensures fullPrompt == FullPrompt(role, conversationHistory, prompt, includeHistory)
      ensures r == response
      ensures status == if response.Success? then Idle else Error
      ensures memory == old(memory) && conversationHistory == old(conversationHistory) && tools == old(tools)
    {
      status := Busy;
      fullPrompt := prompt;
      if includeHistory && |conversationHistory| > 0 {
        var historyText := Join(HistoryLines(conversationHistory));
        fullPrompt := "历史对话:\n" + historyText + "\n\n你是一个" + role + "，基于以上对话历史，" + prompt;
      } else {
        fullPrompt := "你是一个" + role + "，" + prompt;
      }
      r := response;
      status := if response.Success? then Idle else Error;
    }

    /** `semanticRecall`: the entries whose key or value contains the query, in the
        memory's order. */
    method SemanticRecall(query: string) returns (results: Entries<string, string>)
      ensures results == Relevant(memory, query)
      ensures forall e :: e in results <==> e in memory && Mentions(e, query)
    {
      results := [];
      var i := 0;
      while i < |memory|
        invariant 0 <= i <= |memory|
        invariant results == Relevant(memory[..i], query)
      {
        var entry := memory[i];
        assert memory[..i + 1][..i] == memory[..i];
        if Contains(entry.0, query) || Contains(entry.1, query) {
          results := results + [entry];
        }
        i := i + 1;
      }
      assert memory[..i] == memory;
      forall e
        ensures e in results <==> e in memory && Mentions(e, query)
      {
        RelevantIff(memory, query, e);
      }
    }
  }
}
