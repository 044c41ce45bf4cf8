/** The client draft of api/drflex.js (lines 44-98): the stored chat history cut to its last 8
    entries, one round trip through the proxy, the choice between the proxy's actions and those
    extracted locally, and the history saved afterwards. Storage and the proxy are parameters. */
module DrFlexClient {
  import opened Wrappers
  import opened JsStrings
  import opened DrFlexActions

  /** How many stored entries `loadHistory` keeps. */
  const HistoryWindow: nat := 8

  /** The reply when anything in the round trip throws. */
  const ErrorReply := "Error. Try again."

  /** A history entry the client stores: `{ role, content }`. */
  datatype Turn = Turn(role: string, content: string)

  /** `xs.slice(-n)` for an array and `n >= 1`: its last `n` elements, or all of them when there
      are fewer. (`slice(-0)` would be the whole array, which this does not model.) */
  function LastN<T>(xs: seq<T>, n: nat): (r: seq<T>)
    requires n > 0
    ensures |r| == if |xs| < n then |xs| else n
    ensures r == xs[|xs| - |r|..]
  {
    if |xs| <= n then xs else xs[|xs| - n..]
  }

  /** Cutting twice keeps the shorter cut, and what is appended last survives a cut at least as
      long as it. */
  lemma LastNProperties<T>(xs: seq<T>, ys: seq<T>, n: nat, m: nat)
    requires n > 0 && m > 0
    ensures m <= n ==> LastN(LastN(xs, n), m) == LastN(xs, m)
    ensures |ys| <= n ==> LastN(xs + ys, n)[|LastN(xs + ys, n)| - |ys|..] == ys
    ensures |ys| >= n ==> LastN(xs + ys, n) == LastN(ys, n)
  {
    if |ys| >= n {
      assert (xs + ys)[|xs + ys| - n..] == ys[|ys| - n..];
    }
    if |ys| <= n {
      var k := LastN(xs + ys, n);
      assert k[|k| - |ys|..] == (xs + ys)[|xs + ys| - |ys|..] == ys;
    }
  }

  /** `loadHistory()`: no stored text or the empty text gives `[]`; otherwise the parsed history
      (`None` where `JSON.parse` throws) cut to its last 8 entries. */
  function LoadHistory(stored: Option<string>, parseHistory: string -> Option<seq<Turn>>): (r: Option<seq<Turn>>)
    ensures !(stored.Some? && stored.value != "") ==> r == Some([])
    ensures stored.Some? && stored.value != "" && parseHistory(stored.value).Some? ==>
              r.Some?
              && |r.value| == (if |parseHistory(stored.value).value| < HistoryWindow
                               then |parseHistory(stored.value).value| else HistoryWindow)
              && r.value == parseHistory(stored.value).value[|parseHistory(stored.value).value| - |r.value|..]
    ensures stored.Some? && stored.value != "" && parseHistory(stored.value).None? ==> r.None?
  {
    if !(stored.Some? && stored.value != "") then Some([])
    else match parseHistory(stored.value)
      case None => None
      case Some(h) => Some(LastN(h, HistoryWindow))
  }

  /** What the proxy request gives the client: an exception from `fetch` or `json()`, or the JSON
      body, of which `reply` and `actions` are read. */
  datatype ProxyOutcome<A> = ProxyThrew | ProxyBody(reply: Option<string>, actions: Option<seq<A>>)

  /** `json.actions && json.actions.length ? json.actions : extractActionsFromText(replyText)`. */
  function ChosenActions<A>(served: Option<seq<A>>, replyText: string, parse: string -> Option<A>): (r: seq<A>)
    ensures served.Some? && served.value != [] ==> r == served.value
    ensures !(served.Some? && served.value != []) ==> r == Extracted(replyText, parse)
  {
    if served.Some? && served.value != [] then served.value else Extracted(replyText, parse)
  }

  /** `sendToDrFlexWithActions(userMessage)`: load the history, append the user's turn, ask the
      proxy, choose the actions, clean the reply, append the assistant's turn and save. Returns
      the reply, the actions and the history written back (`None` when nothing is written). */
  method SendWithActions<A>(userMessage: string, stored: Option<string>,
                            parseHistory: string -> Option<seq<Turn>>,
                            proxy: seq<Turn> -> ProxyOutcome<A>,
                            parse: string -> Option<A>, stringify: A -> string)
    returns (reply: string, actions: seq<A>, saved: Option<seq<Turn>>)
    ensures LoadHistory(stored, parseHistory).None? ==> reply == ErrorReply && actions == [] && saved.None?
    ensures LoadHistory(stored, parseHistory).Some? ==>
              var sent := LoadHistory(stored, parseHistory).value + [Turn("user", userMessage)];
              match proxy(sent)
              case ProxyThrew => reply == ErrorReply && actions == [] && saved.None?
              case ProxyBody(r, served) =>
                var replyText := if r.Some? && r.value != "" then r.value else "";
                actions == ChosenActions(served, replyText, parse)
                && reply == Cleaned(replyText, actions, stringify)
                && saved == Some(sent + [Turn("assistant", reply)])
  {
    var loaded := LoadHistory(stored, parseHistory);
    if loaded.None? {
      return ErrorReply, [], None;
    }
    var history := loaded.value;
    history := history + [Turn("user", userMessage)];
    var json := proxy(history);
    if json.ProxyThrew? {
      return ErrorReply, [], None;
    }
    var replyText := if json.reply.Some? && json.reply.value != "" then json.reply.value else "";
    if json.actions.Some? && json.actions.value != [] {
      actions := json.actions.value;
    } else {
      actions := ExtractActions(replyText, parse);
    }
    reply := CleanReply(replyText, actions, stringify);
    history := history + [Turn("assistant", reply)];
    saved := Some(history);
  }

  /** The history the client saves after a round trip holds at most 10 entries, the last two of
      which are the user's message and the cleaned reply; the next load keeps the last 8. */
  lemma SavedHistoryBound(loaded: seq<Turn>, userMessage: string, reply: string)
    requires |loaded| <= HistoryWindow
    ensures var saved := loaded + [Turn("user", userMessage)] + [Turn("assistant", reply)];
            |saved| <= HistoryWindow + 2
            && saved[|saved| - 2..] == [Turn("user", userMessage), Turn("assistant", reply)]
            && LastN(saved, HistoryWindow)[|LastN(saved, HistoryWindow)| - 2..]
               == [Turn("user", userMessage), Turn("assistant", reply)]
  {
    var saved := loaded + [Turn("user", userMessage)] + [Turn("assistant", reply)];
    assert saved == loaded + [Turn("user", userMessage), Turn("assistant", reply)];
    LastNProperties(loaded, [Turn("user", userMessage), Turn("assistant", reply)], HistoryWindow, HistoryWindow);
  }
}
