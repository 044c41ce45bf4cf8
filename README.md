# Dr Flex proxy: action extraction, chat handler and resource search

A Dafny model of the core of the Dr Flex proxy, with proofs about that model. The model covers three files:

- **api/drflex.js**, in two parts:
  - The client draft (lines 44-98). It loads the stored chat history and keeps its last 8 entries. It sends the history to the proxy. It uses the proxy's actions, or extracts actions from the reply text itself. It cleans the reply and saves the history.
  - The chat handler (lines 116-179). It checks the request, builds the message list for the chat-completion service, and extracts the action objects from the completion text with a global regular expression. It parses each match with `JSON.parse`. It removes each action's `JSON.stringify` form from the text, then trims what is left.
- **api/search-events.js** and **api/search-learning.js**: the two search handlers.
  - For every requested event or topic, they try a fixed list of queries in order against a web-search service.
  - Inside each query's results, a filter decides acceptance. The first accepted result wins, and the next event or topic starts.
  - They collect at most 20 items.

The project has these modules:

| module | file | what it holds |
|---|---|---|
| `Wrappers` | `wrappers.dfy` | `Option` |
| `JsStrings` | `js_strings.dfy` | The JavaScript string operations the handlers use: the `\s` class, `trim()`, `indexOf`, `includes`, `replace` with a string pattern, `toLowerCase()`, and `${n}` for a number. |
| `ActionScanner` | `action_scanner.dfy` | The action regular expression, described twice: as a staged scanner (`MatchAt`, `Exec`, `MatchesFrom`) and as a grammar over the matched span (`WellFormed`). It proves that the scanner accepts exactly the spans the grammar describes. |
| `DrFlexActions` | `drflex_actions.dfy` | The extraction loop and the cleaning loop, as methods proved against specification functions, plus their properties. |
| `DrFlexHandler` | `drflex_handler.dfy` | The chat handler. |
| `DrFlexClient` | `drflex_client.dfy` | The client draft. |
| `WebSearch` | `web_search.dfy` | What both search handlers share. This covers the shape of a search answer, the walk over one query's results, and the first-match-wins walk over the queries. It also covers the capped collection loop and the HTTP replies. |
| `SearchEvents` | `search_events.dfy` | The event search: query texts, filter, item and handler. |
| `SearchLearning` | `search_learning.dfy` | The learning-resource search: query texts, filter, item and handler. |

The handlers appear twice: as functions (`ChatResponse`, `Respond`), which the lemmas reason about, and as methods (`HandleChat`, `HandleSearchEvents`, `HandleSearchLearning`). The methods run the loop methods (`ExtractActions`, `CleanReply`, `CollectEvents`, `CollectLearning`), which a function cannot call. Each method is proved to return what its function describes.

Everything outside the program is a parameter:

| outside the program | parameter |
|---|---|
| `JSON.parse` on a matched text | `parse: string -> Option<A>` (`None` where it throws) |
| `JSON.stringify` | `stringify: A -> string` |
| The chat-completion service | `complete` |
| The proxy, as seen from the client | `proxy` |
| The web-search service, given the query text | `search`, which answers `Answered(results)`, `NotOk` or `Threw` |
| Stored history | `stored` |
| Parsing the stored history | `parseHistory` |
| The current year | `year` |
| The server's API key | `apiKey` |

## Model

| member | source | states |
|---|---|---|
| `JsStrings.SkipSpaceSpec` | api/drflex.js:160 | `\s*` skips a run of white space and stops at the first character that is not white space. |
| `JsStrings.SkipSpace` | api/drflex.js:160 | The `\s*` scan ends inside the text, never before where it started. |
| `JsStrings.SkipSpaceUnique` | api/drflex.js:160 | A white-space run that ends at a non-space character is exactly what `\s*` consumes. Greedy matching never gives characters back. |
| `JsStrings.SkipSpaceBackSpec` | api/drflex.js:174 | The backward scan of `trim()` stops at the start of the trailing white-space run. |
| `JsStrings.Trim` | api/drflex.js:174 | `trim()` never makes a text longer. |
| `JsStrings.TrimSpec` | api/drflex.js:174 | `trim()` returns the middle of the text. White space surrounds it on both sides, and it neither starts nor ends with white space. |
| `JsStrings.TrimOfTrimmed` | api/drflex.js:68 | Text with no white space at either end trims to itself. |
| `JsStrings.TrimIdempotent` | api/drflex.js:68 | `trim()` is idempotent. |
| `JsStrings.TrimAllSpace` | api/drflex.js:68 | Text made only of white space trims to `''`. |
| `JsStrings.IndexFrom` | api/drflex.js:66 | The found index is the leftmost occurrence at or after the start. `None` means the pattern does not occur there. |
| `JsStrings.IndexOf` | api/drflex.js:171 | `indexOf` finds the leftmost occurrence, or reports that none exists. |
| `JsStrings.Contains` | api/search-events.js:78 | `includes` is `IndexOf` finding the pattern. A found pattern is no longer than the text, and the empty pattern is always found. |
| `JsStrings.ContainsAt` | api/search-events.js:78 | An occurrence at any index makes `includes` true. |
| `JsStrings.ContainsRight` | api/search-events.js:39 | A pattern that occurs in the right part of a concatenation occurs in the whole. |
| `JsStrings.Concat2` | api/search-learning.js:37 | A template literal of two pieces is their concatenation. |
| `JsStrings.ConcatPrefix` | api/search-events.js:39-43 | A template literal starts with its first piece. |
| `JsStrings.ConcatContains` | api/search-events.js:39 | Every piece of a template literal occurs in it. |
| `JsStrings.MissingCharNotContained` | api/search-learning.js:37 | A pattern with a character the text lacks does not occur in the text. |
| `JsStrings.RemoveFirst` | api/drflex.js:66 | `replace(p, '')` with a string pattern leaves the text alone when `p` does not occur. Otherwise it cuts out exactly the leftmost occurrence. |
| `JsStrings.ToLower` | api/search-events.js:66 | The lower-cased text has no ASCII capital left, and it is at least as long as the original. |
| `JsStrings.ToLowerAppend` | api/search-events.js:82 | `toLowerCase()` distributes over concatenation. |
| `JsStrings.ToLowerOfLower` | api/search-events.js:66 | Text with no ASCII capital, no U+0130 and no U+212A is its own lower-case form. |
| `JsStrings.ToLowerIdempotent` | api/search-learning.js:60 | `toLowerCase()` is idempotent. |
| `JsStrings.ToLowerNoSpecials` | api/search-learning.js:60 | No lower-cased character is one of the two non-ASCII characters that lower-case to ASCII. |
| `JsStrings.DecimalString` | api/search-events.js:39 | `${n}` is a non-empty string of decimal digits without a leading zero. |
| `JsStrings.DecimalRoundTrip` | api/search-events.js:27-28 | Reading back the digits of `${n}` gives `n`. |
| `ActionScanner.ActionNameIn` | api/drflex.js:160 | The character test of the alternation accepts exactly the six action names. |
| `ActionScanner.ActionNameShift` | api/drflex.js:160 | Testing the name inside the reply is the same as testing the sliced name. |
| `ActionScanner.ActionNamePlain` | api/drflex.js:160 | No action name contains `"` or `}`. |
| `ActionScanner.WellFormed` | api/drflex.js:160 | A span the pattern describes lies inside the text, opens with `{` and closes with `}`. |
| `ActionScanner.WellFormedName` | api/drflex.js:160 | A well-formed match names one of the six action types. |
| `ActionScanner.FirstOf` | api/drflex.js:160 | A found character lies at or after the start and is the character searched for. |
| `ActionScanner.FirstOfSpec` | api/drflex.js:160 | The lazy `[\s\S]*?\}` stops at the first `}`, and no `}` lies before it. `None` means no `}` follows. |
| `ActionScanner.FirstOfComplete` | api/drflex.js:160 | A `}` with no earlier `}` after the start is the one found. |
| `ActionScanner.MatchAt` | api/drflex.js:160 | A successful attempt at index `p` starts at `p` and ends inside the text. |
| `ActionScanner.MatchClose` | api/drflex.js:160 | A match ends just past a `}` that lies after the name, and the name is the text between the quotes. |
| `ActionScanner.Exec` | api/drflex.js:163 | `regex.exec` with `lastIndex == from` returns a match that starts at or after `from`. |
| `ActionScanner.ExecSpec` | api/drflex.js:163 | `exec` reports the attempt at its start index, and no earlier attempt from `from` on succeeds. `null` means no attempt from `from` to the end succeeds. |
| `ActionScanner.ExecLeftmost` | api/drflex.js:163 | `exec` finds the leftmost match at or after `lastIndex`. It returns `null` only when the pattern matches nowhere from there. |
| `ActionScanner.MatchesFrom` | api/drflex.js:54 | The matches of a global regex are in text order and do not overlap. |
| `ActionScanner.MatchesFromSound` | api/drflex.js:54 | Each reported match is what the attempt at its start index yields. |
| `ActionScanner.MatchAtComplete` | api/drflex.js:160 | Completeness: at the brace that opens a span the pattern describes, the scanner reports exactly that span. |
| `ActionScanner.MatchAtSound` | api/drflex.js:160 | Soundness: every span the scanner reports is one the pattern describes. |
| `ActionScanner.CloseOnlyAtEnd` | api/drflex.js:160 | A match contains exactly one `}`, its last character. |
| `ActionScanner.MatchesCover` | api/drflex.js:163 | No start is skipped. Every index where the pattern would match lies inside a reported match. |
| `ActionScanner.CompactTagScans` | api/drflex.js:160 | On the compact opening `{"type":"…"`, the scanner reaches the name without skipping anything. |
| `ActionScanner.OtherTypeNotMatched` | api/drflex.js:160 | An object with the compact opening `{"type":"` and a quote-free type outside the six names is not matched at its brace. |
| `ActionScanner.MatchedNameIsAction` | api/drflex.js:160 | Whatever the pattern matches, however it is spaced, names one of the six action types. |
| `ActionScanner.CompactTagMatched` | api/drflex.js:160 | A compact object of one of the six types is matched up to the first `}` after its tag. |
| `ActionScanner.NestedObjectTruncated` | api/drflex.js:160 | On an action object whose payload ends with a nested object, the only match stops at the inner `}`. The final `}` is left out. |
| `ActionScanner.LastBraceEndsScan` | api/drflex.js:163 | Nothing matches from the last character on when that character is `}`. |
| `ActionScanner.RequestEventsFormatTruncated` | api/drflex.js:28 | The prompt's own `request_events` format yields one match, and that match lacks the object's closing brace. |
| `ActionScanner.RequestLearningFormatTruncated` | api/drflex.js:36 | Likewise for the prompt's `request_learning` format. |
| `DrFlexActions.TextsOf` | api/drflex.js:56 | One `match[0]` per match, in order. |
| `DrFlexActions.ExtractedFrom` | api/drflex.js:162-167 | From any `lastIndex`, there are never more actions than the matches that remain. |
| `DrFlexActions.Extracted` | api/drflex.js:162-167 | A reply yields at most one action per match of the pattern. |
| `DrFlexActions.ExtractActions` | api/drflex.js:49-61 | The extraction loop: `exec` from `lastIndex` until `null`, pushing every match that parses. It returns exactly `Extracted(text, parse)`. |
| `DrFlexActions.ExtractedStep` | api/drflex.js:54-59 | One round of the loop adds the parsed value of the match `exec` returned, if it parses. The scan then resumes at the match's end. |
| `DrFlexActions.ExtractedEnd` | api/drflex.js:54 | The loop adds nothing once `exec` returns `null`. |
| `DrFlexActions.ExtractedIsParseAll` | api/drflex.js:162-167 | The actions are the parsed values of the texts of all the global regex's matches, in order. |
| `DrFlexActions.ParseAll` | api/drflex.js:55-58 | There are never more actions than matched texts. |
| `DrFlexActions.ParsedSound` | api/drflex.js:164-166 | Every index listed as parsed is that of a text that `JSON.parse` accepts. |
| `DrFlexActions.ParsedIncreasing` | api/drflex.js:164-166 | The parsed indices increase, so the actions keep the order of their texts. |
| `DrFlexActions.ParsedLength` | api/drflex.js:164-166 | There is one action per text that parses. |
| `DrFlexActions.ParsedAt` | api/drflex.js:165 | The i-th action is the value of the i-th text that parses. |
| `DrFlexActions.ParseAllIndexed` | api/drflex.js:164-166 | Every text that parses contributes exactly one action, in order. |
| `DrFlexActions.ParsedComplete` | api/drflex.js:164-166 | No text that parses is dropped. Each one gives the action numbered by the count of parsing texts before it. |
| `DrFlexActions.ParseAllNone` | api/drflex.js:58 | Texts that fail to parse are dropped silently. |
| `DrFlexActions.ParseAllAppend` | api/drflex.js:55-58 | Parsing distributes over the two parts of a split list of texts. |
| `DrFlexActions.ExtractedFromMatches` | api/drflex.js:49-61 | Every action is the parsed text of a match the pattern describes. There are at most as many actions as matches. |
| `DrFlexActions.NoMatchNoAction` | api/drflex.js:54 | A text in which the pattern matches nowhere yields no action. |
| `DrFlexActions.RemoveEach` | api/drflex.js:65-67 | Removing patterns never makes the text longer. |
| `DrFlexActions.Stringified` | api/drflex.js:66 | There is one `JSON.stringify` form per action. |
| `DrFlexActions.CleanReply` | api/drflex.js:63-69 | The cleaning loop returns exactly `Cleaned`: the text with the first occurrence of each action's form removed, in action order, then trimmed. |
| `DrFlexActions.Cleaned` | api/drflex.js:169-174 | Cleaning never makes the reply longer. |
| `DrFlexActions.CleanNoActions` | api/drflex.js:68 | With no action, cleaning only trims. |
| `DrFlexActions.RemoveEachAbsent` | api/drflex.js:66 | Patterns that do not occur leave the text unchanged. |
| `DrFlexActions.CleanWithoutOccurrence` | api/drflex.js:169-174 | When no action's form occurs in the text, cleaning only trims it. |
| `DrFlexActions.RemoveEachAppend` | api/drflex.js:170-172 | The removals apply in action order. |
| `DrFlexActions.CleanCutsVerbatimAction` | api/drflex.js:169-174 | Take an action whose form appears verbatim in the reply with no earlier occurrence. The action is cut out, and the trimmed prose around it is what is left. |
| `DrFlexActions.TruncatedMatchLost` | api/drflex.js:160-174 | A braced text whose only match stops just before its final `}` yields no action when that match does not parse, and cleaning keeps the text as it is. |
| `DrFlexActions.RequestEventsFormatLost` | api/drflex.js:28 | The prompt's `request_events` format, if its cut-short match does not parse, yields no action and is kept verbatim in the reply. |
| `DrFlexActions.RequestLearningFormatLost` | api/drflex.js:36 | Likewise for the prompt's `request_learning` format. |
| `DrFlexHandler.MapEntries` | api/drflex.js:135 | `history.map` throws exactly when an entry is `null`. Otherwise entry i becomes message i, with its `role` and `content` only. |
| `DrFlexHandler.BuildMessages` | api/drflex.js:133-136 | The system message comes first, with `personality \|\| 'You are Dr Flex.'`. It is followed by the history entries in order, or by nothing when the history is falsy. Building fails when the history is not an array or holds `null`. |
| `DrFlexHandler.OrDefault` | api/drflex.js:134 | The system prompt is never empty, and a non-empty personality is used as given. |
| `DrFlexHandler.CompletionText` | api/drflex.js:157 | `content \|\| ''`. |
| `DrFlexHandler.ChatReply.Status` | api/drflex.js:122-177 | Every reply has status 200, 405 or 500. |
| `DrFlexHandler.ChatResponse` | api/drflex.js:116-179 | The request checks give `OPTIONS` 200, another method 405, a missing body 500, and a missing key 500. A chat reply implies a `POST` with a body and a key. |
| `DrFlexHandler.ServiceReply` | api/drflex.js:133-174 | Past the request checks, a history that cannot be built gives 500, and a non-`ok` answer of the completion service gives the 500 `'OpenAI error'` reply. A chat reply needs a built message list and a completion with content. |
| `DrFlexHandler.HandleChat` | api/drflex.js:116-179 | The handler's reply is exactly `ChatResponse`. |
| `DrFlexHandler.ChatReplyContents` | api/drflex.js:157-174 | A successful reply carries the actions extracted from the completion text, and that text cleaned of them. An empty completion gives `''` and no action. |
| `DrFlexHandler.EmptyTextNoAction` | api/drflex.js:157 | The empty text has no action and cleans to `''`. |
| `DrFlexHandler.FormatReplyShownVerbatim` | api/drflex.js:157-178 | When the completion is one of the prompt's two formats and its cut-short match does not parse, the chat reply is that format as text, with no action. |
| `DrFlexClient.LastN` | api/drflex.js:46 | For `n >= 1`, `slice(-n)` keeps `min(n, length)` elements, and they are the last ones. |
| `DrFlexClient.LastNProperties` | api/drflex.js:46 | For cut lengths of at least 1: cutting twice keeps the shorter cut. What is appended last survives a cut at least as long as itself, and a long enough appendix is all that a cut keeps. |
| `DrFlexClient.LoadHistory` | api/drflex.js:44-47 | Absent or empty stored text gives `[]`. Otherwise the result is the last `min(8, length)` entries of the parsed history, and it fails where `JSON.parse` throws. |
| `DrFlexClient.ChosenActions` | api/drflex.js:85-87 | A non-empty `actions` list from the proxy is used as it is. Otherwise the actions are extracted from the reply text. |
| `DrFlexClient.SendWithActions` | api/drflex.js:71-98 | A failure to load or an exception from the proxy gives `'Error. Try again.'`, no action and nothing saved. Otherwise the actions come from `ChosenActions`, the reply is the cleaned text, and the saved history is the loaded one plus the user's turn and the reply. |
| `DrFlexClient.SavedHistoryBound` | api/drflex.js:44-47 | The saved history holds at most 10 entries and ends with the user turn and the reply. Those two survive the next load's cut to 8. |
| `WebSearch.OrElse` | api/search-events.js:33-34 | `v \|\| d` keeps a non-empty string and replaces a missing or empty one. |
| `WebSearch.LowerUrl` | api/search-events.js:66 | A missing URL becomes `''`. |
| `WebSearch.ContainsAnySpec` | api/search-events.js:78 | `some(p => s.includes(p))` holds exactly when one of the patterns occurs. |
| `WebSearch.NoneInEmpty` | api/search-events.js:66-78 | No non-empty pattern occurs in `''`, so a result without a URL names no site. |
| `WebSearch.WalkFrom` | api/search-events.js:65-93 | The walk over one query's results ends at a hit only on a real result the filter accepts. |
| `WebSearch.WalkFromSpec` | api/search-events.js:65-93 | A hit is the first accepted result, and every earlier result was rejected. Reaching the end means every result was rejected. A crash is a `null` result after rejected ones. |
| `WebSearch.QueriesFrom` | api/search-events.js:48-97 | No more queries are sent than are left. A found result is a real result the filter accepts. |
| `WebSearch.QueriesFromSpec` | api/search-events.js:46-97 | First match wins. The queries sent form a prefix of the list, and every one but the last passed without result. A found result comes from the last query sent. Nothing found means every query passed. A failure is an exception on the last query sent. |
| `WebSearch.SearchQueries` | api/search-events.js:46-97 | The nested query and result loops compute exactly `Queries`. |
| `WebSearch.Added` | api/search-events.js:85-89 | One step pushes at most one item, and only when it adds. |
| `WebSearch.CollectFrom` | api/search-events.js:30-102 | The loop never drops the items it already holds. When no element throws outside the inner `try`, the loop finishes. |
| `WebSearch.Collect` | api/search-learning.js:26-94 | When no element throws outside the inner `try`, the loop returns its items. |
| `WebSearch.Gathered` | api/search-events.js:30-102 | Without the cap, there is at most one item per element. |
| `WebSearch.StopAt` | api/search-events.js:31 | The loop stops inside the list. |
| `WebSearch.CollectFromSpec` | api/search-events.js:30-102 | The loop collects exactly what the steps before its stopping point add, in element order. It stops at the end or at the 20-item cap. It aborts only at an exception outside the inner `try`, with fewer than 20 items. |
| `WebSearch.CollectFromBound` | api/search-events.js:31 | From at most 20 items, the loop ends with at most 20 and adds at most one per element. |
| `WebSearch.CollectBound` | api/search-learning.js:29 | At most `min(20, length)` items. |
| `WebSearch.GatheredFrom` | api/search-events.js:85-91 | Every collected item is one that some element's step added. |
| `WebSearch.GatheredComplete` | api/search-learning.js:78-83 | No item from before the stopping point is dropped. |
| `WebSearch.Reply.Status` | api/search-events.js:7-109 | Every reply has status 200, 400, 405 or 500. |
| `WebSearch.Respond` | api/search-events.js:7-110 | The request checks give `OPTIONS` 200 and another method 405. A missing key gives 200 with no items, before the body is read. A missing body gives 500 and a field that is not an array gives 400. The items are capped at 20. |
| `SearchEvents.EventQueryParts` | api/search-events.js:38-44 | There are five queries, each starting with the topic. |
| `SearchEvents.EventQueries` | api/search-events.js:38-44 | There are five query strings. |
| `SearchEvents.EventQueryShape` | api/search-events.js:38-44 | Every query starts with the topic, and the first names the current year and the next. |
| `SearchEvents.TopicOf` | api/search-events.js:33 | `event.topic \|\| 'event'` is never empty: it is the topic when the topic is non-empty, and `'event'` otherwise. |
| `SearchEvents.LocationOf` | api/search-events.js:34 | `event.location \|\| 'London'` is never empty: it is the location when that is non-empty, and `'London'` otherwise. |
| `SearchEvents.EventAccepts` | api/search-events.js:78-84 | Only a real result with a URL is ever accepted. |
| `SearchEvents.KeywordHitSpec` | api/search-events.js:81-82 | The keyword test finds a keyword in the lower-cased URL or in the lower-cased title. |
| `SearchEvents.EventAcceptsSpec` | api/search-events.js:66-84 | A real result is accepted exactly when its lower-cased URL names an event site, and its URL or lower-cased title names a keyword. |
| `SearchEvents.EventItemOf` | api/search-events.js:85-89 | The item's title is the result's title, or `${topic} Event in ${location}` when it has none. The item keeps the original URL. |
| `SearchEvents.EventStep` | api/search-events.js:33-91 | Only a `null` event aborts the loop. A real event adds an item exactly when its queries find a result, and that item is made from the found result and carries a URL. |
| `SearchEvents.CollectEvents` | api/search-events.js:26-102 | The event loop computes exactly `Collect` over the events. |
| `SearchEvents.HandleSearchEvents` | api/search-events.js:2-111 | The handler is exactly `Respond` with `'Invalid events format'`. |
| `SearchEvents.EventCountBound` | api/search-events.js:31 | At most one item per event, and at most 20. |
| `SearchEvents.EventReplyBound` | api/search-events.js:105 | The reply's items number at most `min(20, length)`. |
| `SearchEvents.EventItemsAccepted` | api/search-events.js:84-89 | Every item was made from the result that one event's queries found and accepted, with that event's topic and location defaults. |
| `SearchEvents.EventItemsInOrder` | api/search-events.js:30-102 | The items follow the event order, with one per event whose queries found a result, up to where the loop stopped. |
| `SearchLearning.LearningQueryParts` | api/search-learning.js:33-38 | There are four queries, each starting with the topic. |
| `SearchLearning.LearningQueries` | api/search-learning.js:33-38 | There are four query strings. |
| `SearchLearning.LearningQueryShape` | api/search-learning.js:33-38 | Every query starts with the topic. The first three are site-scoped, and the last carries no `site:` restriction. |
| `SearchLearning.LearningAccepts` | api/search-learning.js:64-77 | Only a real result with a URL is ever accepted. |
| `SearchLearning.LearningAcceptsSpec` | api/search-learning.js:60-77 | A result is accepted exactly when no blocked fragment occurs in its lower-cased URL and a good site, `article` or `blog` does. |
| `SearchLearning.TitleIrrelevant` | api/search-learning.js:59-77 | The title plays no part in the decision. |
| `SearchLearning.LearningItemOf` | api/search-learning.js:78-81 | The item's title is the result's title, or the topic when it has none. The item keeps the original URL. |
| `SearchLearning.LearningStep` | api/search-learning.js:39-91 | No topic aborts the loop. A topic adds an item exactly when its queries find a result, and that item is made from the found result and carries a URL. |
| `SearchLearning.CollectLearning` | api/search-learning.js:26-94 | The topic loop computes exactly `Collect` over the topics, and it never aborts. |
| `SearchLearning.HandleSearchLearning` | api/search-learning.js:2-103 | The handler is exactly `Respond` with `'Invalid topics'`. |
| `SearchLearning.LearningReplyBound` | api/search-learning.js:28-97 | With a key and an array of topics, the reply is 200 with at most `min(20, length)` items. |
| `SearchLearning.LearningItemsAccepted` | api/search-learning.js:77-81 | Every item was made from the result that one topic's queries found and accepted. |
| `SearchLearning.NoBlockedItem` | api/search-learning.js:64-65 | No item's lower-cased URL contains a blocked fragment. |
| `SearchLearning.LearningItemsInOrder` | api/search-learning.js:28-94 | The items follow the topic order, with one per topic whose queries found a result, up to the cap. |

## Left out

- Left out entirely:
  - I/O: `fetch`, `AsyncStorage`, `setTimeout`, `console.log`, `process.env`, and the response headers.
  - The HTTP bodies, URLs and request options sent to the chat-completion and search services (for example `encodeURIComponent`, `count=5` and the model parameters).
- Replaced by parameters: the services' answers, `new Date().getFullYear()`, the stored history, and `JSON.parse` / `JSON.stringify`. JSON's grammar and the form `JSON.stringify` writes are not modelled.
- Only string or absent field values are modelled (`topic`, `location`, `url`, `title`, `description`, `personality`, `role`, `content`, `reply`). There are three exceptions:
  - `null` entries in `events`, `history` and `web.results`, whose `TypeError` is modelled.
  - Any truthy non-array `history`, which throws.
  - Any non-array `events` or `topics`, which gives 400.
  Non-string topics in `${topic}` and a non-array `web.results` are not modelled.
- The `details` of the 500 replies, and `err.toString()`, are left out.
- The prompt text `DRFLEX_PERSONALITY` is not modelled. The two formats it prescribes are, as `RequestEventsFormat` and `RequestLearningFormat`.
- `sendToDrFlex` and `clearChatHistory` (api/drflex.js:100-107) are not modelled. One only projects the reply and the other only removes a stored key.
- A failing `AsyncStorage.setItem` is not modelled.
- `SendWithActions` returns what it would save, rather than saving it.
- JavaScript strings are sequences of UTF-16 code units, while Dafny's `string` is a sequence of Unicode scalar values. A lone surrogate cannot be represented, and indices differ on characters outside the Basic Multilingual Plane. None of the substring tests modelled here depends on those indices.
- `LastN`: `slice(-0)` returns the whole array, unlike a cut to 0 elements, so the model requires `n >= 1`. The client only cuts to 8.
- The lower-case mapping is exact for the questions asked of it, which are occurrences of ASCII lower-case patterns. Other non-ASCII characters are kept as they are.
- drflex.js at the top of the repository is an older client and is not part of this model. The rest of the repository (calendar, keep, notes) is not part of this model either.
- What the code does not do, which the model therefore does not do either:
  - The search handlers do not check that a URL is reachable.
  - They do not remove duplicate URLs.
  - They do not expand `request_*` actions into further searches.
  - The chat handler does not cut the history. Only the client keeps the last 8 entries.
- Two error paths the model follows as the code writes them: a chat history that is not an array gives 500, and a missing search key gives 200 with no items.
  - The action regex ends a match at the first `}`. A nested payload such as the prompt's own formats is therefore cut short: the matched text is not a complete object, and the action is lost (`NestedObjectTruncated`). When that text does not parse, the prompt's two formats reach the user as raw text with no action (`RequestEventsFormatLost`, `RequestLearningFormatLost`, `FormatReplyShownVerbatim`).
