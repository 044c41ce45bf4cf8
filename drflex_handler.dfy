/** The chat handler of api/drflex.js (lines 116-179): the request checks, the message list sent
    to the chat-completion service, and the reply built from the completion text by extracting
    the actions and cleaning the text. The completion service is the parameter `complete`. */
module DrFlexHandler {
  import opened Wrappers
  import opened JsStrings
  import opened DrFlexActions
  import ActionScanner

  /** An entry of `req.body.history`: `null` (reading `h.role` throws) or an object whose
      `role` and `content` are strings or absent. */
  datatype HistoryEntry = NullEntry | Entry(role: Option<string>, content: Option<string>)

  /** `req.body.history`: falsy, a truthy value that is not an array (it has no `map`, so the
      call throws), or an array. */
  datatype HistoryField = NoHistory | NotAnArray | History(entries: seq<HistoryEntry>)

  /** `req.body`: `undefined` (destructuring it throws) or an object. */
  datatype ChatBody = NoBody | ChatBody(personality: Option<string>, history: HistoryField)

  /** An element of `messages`. */
  datatype Message = Message(role: Option<string>, content: Option<string>)

  /** The default system prompt. */
  const DefaultPersonality := "You are Dr Flex."

  /** `history.map(h => ({ role: h.role, content: h.content }))`; `None` when an entry is `null`. */
  function MapEntries(hs: seq<HistoryEntry>): (r: Option<seq<Message>>)
    ensures r.None? <==> exists i :: 0 <= i < |hs| && hs[i].NullEntry?
    ensures r.Some? ==> |r.value| == |hs|
                        && forall i :: 0 <= i < |hs| ==> r.value[i] == Message(hs[i].role, hs[i].content)
  {
    if hs == [] then Some([])
    else if hs[0].NullEntry? then None
    else match MapEntries(hs[1..])
      case None =>
        assert exists i :: 0 <= i < |hs[1..]| && hs[1..][i].NullEntry?;
        var i :| 0 <= i < |hs[1..]| && hs[1..][i].NullEntry?;
        assert hs[i + 1] == hs[1..][i];
        None
      case Some(rest) =>
        var r := [Message(hs[0].role, hs[0].content)] + rest;
        assert forall i :: 0 < i < |hs| ==> hs[i] == hs[1..][i - 1] && r[i] == rest[i - 1];
        Some(r)
  }

  /** The `messages` array: the system prompt (`personality || 'You are Dr Flex.'`), then the
      history entries reduced to `role` and `content`; `None` when building it throws. */
  function BuildMessages(personality: Option<string>, history: HistoryField): (r: Option<seq<Message>>)
    ensures history.NoHistory? ==> r == Some([Message(Some("system"), Some(OrDefault(personality)))])
    ensures history.NotAnArray? ==> r.None?
    ensures history.History? ==>
              (r.None? <==> exists i :: 0 <= i < |history.entries| && history.entries[i].NullEntry?)
    ensures r.Some? ==> |r.value| >= 1 && r.value[0] == Message(Some("system"), Some(OrDefault(personality)))
    ensures r.Some? && history.History? ==>
              |r.value| == 1 + |history.entries|
              && forall i :: 0 <= i < |history.entries| ==>
                   r.value[i + 1] == Message(history.entries[i].role, history.entries[i].content)
  {
    var system := Message(Some("system"), Some(OrDefault(personality)));
    match history
    case NoHistory => Some([system])
    case NotAnArray => None
    case History(hs) =>
      match MapEntries(hs)
      case None => None
      case Some(ms) => Some([system] + ms)
  }

  /** `personality || 'You are Dr Flex.'`. */
  function OrDefault(personality: Option<string>): (p: string)
    ensures p != ""
    ensures personality.Some? && personality.value != "" ==> p == personality.value
  {
    if personality.Some? && personality.value != "" then personality.value else DefaultPersonality
  }

  /** What the chat-completion request gives the handler: an exception from `fetch` or `json()`,
      a response that is not `ok`, or the data of an `ok` response. For the data, only
      `choices[0]?.message?.content` matters: `NoChoices` when `data.choices` is absent (indexing
      it throws), otherwise the content, `None` where the first choice, its message or its
      content is missing. */
  datatype Completion = CompletionThrew | CompletionNotOk | NoChoices | Content(text: Option<string>)

  /** `data.choices[0]?.message?.content || ''`. */
  function CompletionText(text: Option<string>): (raw: string)
    ensures text.Some? ==> raw == text.value
    ensures text.None? ==> raw == ""
  {
    if text.Some? && text.value != "" then text.value else ""
  }

  /** The responses of the chat handler. */
  datatype ChatReply<A> =
    | Preflight                              // 200, empty body
    | NotAllowed                             // 405 {error: 'Method not allowed'}
    | MissingKey                             // 500 {error: 'Missing API key'}
    | UpstreamError                          // 500 {error: 'OpenAI error', details}
    | ServerError                            // 500 {error: 'Server error', details}
    | Chat(reply: string, actions: seq<A>)   // 200 {reply, actions}
  {
    function Status(): (code: nat)
      ensures code in {200, 405, 500}
    {
      match this
      case Preflight => 200
      case NotAllowed => 405
      case Chat(_, _) => 200
      case _ => 500
    }
  }

  /** The reply the handler sends. */
  function ChatResponse<A>(httpMethod: string, body: ChatBody, apiKey: Option<string>,
                           complete: seq<Message> -> Completion,
                           parse: string -> Option<A>, stringify: A -> string): (r: ChatReply<A>)
    ensures httpMethod == "OPTIONS" ==> r == Preflight
    ensures httpMethod != "OPTIONS" && httpMethod != "POST" ==> r == NotAllowed
    ensures httpMethod == "POST" && body.NoBody? ==> r == ServerError
    ensures httpMethod == "POST" && body.ChatBody? && !(apiKey.Some? && apiKey.value != "") ==> r == MissingKey
    ensures r.Chat? ==> httpMethod == "POST" && body.ChatBody? && apiKey.Some? && apiKey.value != ""
  {
    if httpMethod == "OPTIONS" then Preflight
    else if httpMethod != "POST" then NotAllowed
    else if body.NoBody? then ServerError
    else if !(apiKey.Some? && apiKey.value != "") then MissingKey
    else ServiceReply(body.personality, body.history, complete, parse, stringify)
  }

  /** The reply once the request checks have passed: the message list is built, the completion
      service is called, and its text is cut into actions and cleaned prose. */
  function ServiceReply<A>(personality: Option<string>, history: HistoryField,
                           complete: seq<Message> -> Completion,
                           parse: string -> Option<A>, stringify: A -> string): (r: ChatReply<A>)
    ensures BuildMessages(personality, history).None? ==> r == ServerError
    ensures (BuildMessages(personality, history).Some?
             && complete(BuildMessages(personality, history).value).CompletionNotOk?) ==> r == UpstreamError
    ensures r.Chat? ==> BuildMessages(personality, history).Some?
                        && complete(BuildMessages(personality, history).value).Content?
  {
    match BuildMessages(personality, history)
    case None => ServerError
    case Some(messages) =>
      match complete(messages)
      case CompletionThrew => ServerError
      case CompletionNotOk => UpstreamError
      case NoChoices => ServerError
      case Content(text) =>
        var actions := Extracted(CompletionText(text), parse);
        Chat(Cleaned(CompletionText(text), actions, stringify), actions)
  }

  /** The handler (api/drflex.js:116-179). */
  method HandleChat<A>(httpMethod: string, body: ChatBody, apiKey: Option<string>,
                       complete: seq<Message> -> Completion,
                       parse: string -> Option<A>, stringify: A -> string)
    returns (reply: ChatReply<A>)
    ensures reply == ChatResponse(httpMethod, body, apiKey, complete, parse, stringify)
  {
    if httpMethod == "OPTIONS" {
      return Preflight;
    }
    if httpMethod != "POST" {
      return NotAllowed;
    }
    if body.NoBody? {
      return ServerError;
    }
    if !(apiKey.Some? && apiKey.value != "") {
      return MissingKey;
    }
    var messages := BuildMessages(body.personality, body.history);
    if messages.None? {
      return ServerError;
    }
    var data := complete(messages.value);
    if data.CompletionThrew? {
      return ServerError;
    }
    if data.CompletionNotOk? {
      return UpstreamError;
    }
    if data.NoChoices? {
      return ServerError;
    }
    var raw := CompletionText(data.text);
    var actions := ExtractActions(raw, parse);
    var cleaned := CleanReply(raw, actions, stringify);
    return Chat(cleaned, actions);
  }

  /** A successful chat reply carries the actions extracted from the completion text and that
      text cleaned of them; a completion with no text gives an empty reply and no action. */
  lemma ChatReplyContents<A>(personality: Option<string>, history: HistoryField, apiKey: Option<string>,
                             complete: seq<Message> -> Completion,
                             parse: string -> Option<A>, stringify: A -> string)
    requires apiKey.Some? && apiKey.value != ""
    requires BuildMessages(personality, history).Some?
    requires complete(BuildMessages(personality, history).value).Content?
    ensures ChatResponse("POST", ChatBody(personality, history), apiKey, complete, parse, stringify)
            == Chat(Cleaned(CompletionText(complete(BuildMessages(personality, history).value).text),
                            Extracted(CompletionText(complete(BuildMessages(personality, history).value).text), parse),
                            stringify),
                    Extracted(CompletionText(complete(BuildMessages(personality, history).value).text), parse))
    ensures CompletionText(complete(BuildMessages(personality, history).value).text) == "" ==>
              ChatResponse("POST", ChatBody(personality, history), apiKey, complete, parse, stringify) == Chat("", [])
  {
    var text := CompletionText(complete(BuildMessages(personality, history).value).text);
    var actions := Extracted(text, parse);
    assert ChatResponse("POST", ChatBody(personality, history), apiKey, complete, parse, stringify)
        == ServiceReply(personality, history, complete, parse, stringify);
    assert ServiceReply(personality, history, complete, parse, stringify)
        == Chat(Cleaned(text, actions, stringify), actions);
    if text == "" {
      EmptyTextNoAction(parse, stringify);
    }
  }

  /** The empty text has no action and cleans to itself. */
  lemma EmptyTextNoAction<A>(parse: string -> Option<A>, stringify: A -> string)
    ensures Extracted("", parse) == []
    ensures Cleaned("", [], stringify) == ""
  {
    CleanNoActions("", stringify);
    TrimAllSpace("");
  }

  /** When the model answers in the prompt's own `request_events` or `request_learning` format
      and the text the pattern cuts out of it does not parse, the reply carries no action and
      shows the format to the user as it is. */
  lemma FormatReplyShownVerbatim<A>(personality: Option<string>, history: HistoryField, apiKey: Option<string>,
                                    complete: seq<Message> -> Completion,
                                    parse: string -> Option<A>, stringify: A -> string, format: string)
    requires format == ActionScanner.RequestEventsFormat || format == ActionScanner.RequestLearningFormat
    requires apiKey.Some? && apiKey.value != ""
    requires BuildMessages(personality, history).Some?
    requires complete(BuildMessages(personality, history).value) == Content(Some(format))
    requires parse(format[..|format| - 1]).None?
    ensures ChatResponse("POST", ChatBody(personality, history), apiKey, complete, parse, stringify)
            == Chat(format, [])
  {
    ChatReplyContents(personality, history, apiKey, complete, parse, stringify);
    if format == ActionScanner.RequestEventsFormat {
      RequestEventsFormatLost(parse, stringify);
    } else {
      RequestLearningFormatLost(parse, stringify);
    }
  }
}
