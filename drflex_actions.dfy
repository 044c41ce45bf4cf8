/**
  Action extraction and reply cleaning, as `extractActionsFromText` and `cleanReplyText` in the
  client (api/drflex.js:49-69) and the same two steps inlined in the chat handler
  (api/drflex.js:159-174). `JSON.parse` is the parameter `parse` (`None` where it throws) and
  `JSON.stringify` the parameter `stringify`; the parsed action values have the abstract type `A`.
*/
module DrFlexActions {
  import opened Wrappers
  import opened JsStrings
  import opened ActionScanner

  // ---------------------------------------------------------------------------------------------
  // Extraction

  /** Every match in `ms` lies inside `s`. */
  predicate InText(s: string, ms: seq<Match>) {
    forall i :: 0 <= i < |ms| ==> ms[i].start <= ms[i].end <= |s|
  }

  /** `match[0]` of every match in `ms`, in order. */
  function TextsOf(s: string, ms: seq<Match>): (ts: seq<string>)
    requires InText(s, ms)
    ensures |ts| == |ms|
    ensures forall i :: 0 <= i < |ms| ==> ts[i] == MatchText(s, ms[i])
  {
    if ms == [] then [] else [MatchText(s, ms[0])] + TextsOf(s, ms[1..])
  }

  /** `try { actions.push(JSON.parse(t)) } catch (e) {}` for each text `t` of `ts` in turn. */
  function ParseAll<A>(ts: seq<string>, parse: string -> Option<A>): (r: seq<A>)
    ensures |r| <= |ts|
  {
    if ts == [] then [] else parse(ts[0]).ToSeq() + ParseAll(ts[1..], parse)
  }

  /** The actions `regex.exec` and `JSON.parse` yield from index `from` on: the parsed text of
      the next match, if it parses, then the actions after the end of that match. */
  function ExtractedFrom<A>(text: string, from: nat, parse: string -> Option<A>): (r: seq<A>)
    ensures |r| <= |MatchesFrom(text, from)|
    decreases |text| - from
  {
    match Exec(text, from)
    case None => []
    case Some(m) => parse(MatchText(text, m)).ToSeq() + ExtractedFrom(text, m.end, parse)
  }

  /** The actions extracted from the whole of `text`. */
  function Extracted<A>(text: string, parse: string -> Option<A>): (r: seq<A>)
    ensures |r| <= |Matches(text)|
  {
    ExtractedFrom(text, 0, parse)
  }

  /** The loop of `extractActionsFromText` (api/drflex.js:53-59) and of the handler
      (api/drflex.js:162-167): `regex.exec` from `lastIndex` until it returns `null`. */
  method ExtractActions<A>(text: string, parse: string -> Option<A>) returns (actions: seq<A>)
    ensures actions == Extracted(text, parse)
  {
    actions := [];
    var lastIndex := 0;
    var found := Exec(text, lastIndex);
    while found.Some?
      invariant lastIndex <= |text|
      invariant found == Exec(text, lastIndex)
      invariant actions + ExtractedFrom(text, lastIndex, parse) == Extracted(text, parse)
      decreases |text| - lastIndex
    {
      var m := found.value;
      var parsed := parse(MatchText(text, m));
      ExtractedStep(text, lastIndex, m, parse, actions);
      actions := actions + parsed.ToSeq();
      lastIndex := m.end;
      found := Exec(text, lastIndex);
    }
    ExtractedEnd(text, lastIndex, parse, actions);
  }

  /** One round of the loop: the match `exec` returns contributes its parsed value, if any, and
      the scan resumes at its end. */
  lemma ExtractedStep<A>(text: string, from: nat, m: Match, parse: string -> Option<A>, done: seq<A>)
    requires Exec(text, from) == Some(m)
    ensures done + ExtractedFrom(text, from, parse)
         == (done + parse(MatchText(text, m)).ToSeq()) + ExtractedFrom(text, m.end, parse)
  {
  }

  /** The loop ends when `exec` finds nothing more. */
  lemma ExtractedEnd<A>(text: string, from: nat, parse: string -> Option<A>, done: seq<A>)
    requires Exec(text, from).None?
    ensures done + ExtractedFrom(text, from, parse) == done
  {
  }

  /** The same actions, read as a pipeline: take every match of the global regex, its text, and
      the values of the texts that parse. */
  lemma {:induction false} ExtractedIsParseAll<A>(text: string, from: nat, parse: string -> Option<A>)
    ensures ExtractedFrom(text, from, parse) == ParseAll(TextsOf(text, MatchesFrom(text, from)), parse)
    decreases |text| - from
  {
    match Exec(text, from)
    case None =>
    case Some(m) =>
      var rest := MatchesFrom(text, m.end);
      var ts := TextsOf(text, rest);
      ExtractedIsParseAll(text, m.end, parse);
      assert MatchesFrom(text, from) == [m] + rest;
      assert TextsOf(text, [m] + rest) == [MatchText(text, m)] + ts;
      assert ([MatchText(text, m)] + ts)[1..] == ts;
  }

  /** Each index of `xs` plus one. */
  function Shift(xs: seq<nat>): (r: seq<nat>)
    ensures |r| == |xs| && forall i :: 0 <= i < |xs| ==> r[i] == xs[i] + 1
  {
    if xs == [] then [] else [xs[0] + 1] + Shift(xs[1..])
  }

  /** The indices of the texts in `ts` that parse, in increasing order. */
  function Parsed<A>(ts: seq<string>, parse: string -> Option<A>): (idx: seq<nat>)
    ensures |idx| <= |ts|
  {
    if ts == [] then []
    else if parse(ts[0]).Some? then [0] + Shift(Parsed(ts[1..], parse))
    else Shift(Parsed(ts[1..], parse))
  }

  /** The indices are those of texts that parse. */
  lemma {:induction false} ParsedSound<A>(ts: seq<string>, parse: string -> Option<A>)
    ensures forall i :: 0 <= i < |Parsed(ts, parse)| ==>
              Parsed(ts, parse)[i] < |ts| && parse(ts[Parsed(ts, parse)[i]]).Some?
  {
    if ts != [] {
      var tail := Parsed(ts[1..], parse);
      ParsedSound(ts[1..], parse);
      var sh := Shift(tail);
      assert forall i :: 0 <= i < |sh| ==> sh[i] < |ts| && parse(ts[sh[i]]).Some? by {
        forall i | 0 <= i < |sh| ensures sh[i] < |ts| && parse(ts[sh[i]]).Some? {
          assert ts[sh[i]] == ts[1..][tail[i]];
        }
      }
    }
  }

  /** The indices increase: the order of the texts is kept. */
  lemma {:induction false} ParsedIncreasing<A>(ts: seq<string>, parse: string -> Option<A>)
    ensures forall i :: 0 <= i < |Parsed(ts, parse)| - 1 ==> Parsed(ts, parse)[i] < Parsed(ts, parse)[i + 1]
  {
    if ts != [] {
      var tail := Parsed(ts[1..], parse);
      ParsedIncreasing(ts[1..], parse);
      var sh := Shift(tail);
      assert forall i :: 0 <= i < |sh| - 1 ==> sh[i] < sh[i + 1];
      if parse(ts[0]).Some? {
        var idx := [0] + sh;
        assert Parsed(ts, parse) == idx;
        forall i | 0 <= i < |idx| - 1 ensures idx[i] < idx[i + 1] {
          assert idx[i + 1] == sh[i];
          if i > 0 {
            assert idx[i] == sh[i - 1];
          }
        }
      }
    }
  }

  /** One action per text that parses. */
  lemma {:induction false} ParsedLength<A>(ts: seq<string>, parse: string -> Option<A>)
    ensures |ParseAll(ts, parse)| == |Parsed(ts, parse)|
  {
    if ts != [] {
      ParsedLength(ts[1..], parse);
    }
  }

  /** The i-th action is the value of the i-th text that parses. */
  lemma {:induction false} ParsedAt<A>(ts: seq<string>, parse: string -> Option<A>, i: nat)
    requires i < |Parsed(ts, parse)|
    ensures i < |ParseAll(ts, parse)| && Parsed(ts, parse)[i] < |ts|
    ensures parse(ts[Parsed(ts, parse)[i]]) == Some(ParseAll(ts, parse)[i])
  {
    ParsedLength(ts, parse);
    var tail := Parsed(ts[1..], parse);
    if parse(ts[0]).Some? {
      if i > 0 {
        ParsedAt(ts[1..], parse, i - 1);
        assert Parsed(ts, parse)[i] == tail[i - 1] + 1;
        assert ParseAll(ts, parse)[i] == ParseAll(ts[1..], parse)[i - 1];
        assert ts[tail[i - 1] + 1] == ts[1..][tail[i - 1]];
      }
    } else {
      ParsedAt(ts[1..], parse, i);
      assert Parsed(ts, parse)[i] == tail[i] + 1;
      assert ParseAll(ts, parse) == ParseAll(ts[1..], parse);
      assert ts[tail[i] + 1] == ts[1..][tail[i]];
    }
  }

  /** Each text that parses contributes exactly one action, and the actions keep the order of
      their texts. */
  lemma ParseAllIndexed<A>(ts: seq<string>, parse: string -> Option<A>)
    ensures |ParseAll(ts, parse)| == |Parsed(ts, parse)|
    ensures forall i :: 0 <= i < |Parsed(ts, parse)| ==>
              Parsed(ts, parse)[i] < |ts| && parse(ts[Parsed(ts, parse)[i]]) == Some(ParseAll(ts, parse)[i])
  {
    ParsedLength(ts, parse);
    forall i | 0 <= i < |Parsed(ts, parse)|
      ensures Parsed(ts, parse)[i] < |ts| && parse(ts[Parsed(ts, parse)[i]]) == Some(ParseAll(ts, parse)[i])
    {
      ParsedAt(ts, parse, i);
    }
  }

  /** No text that parses is skipped: text `j` gives the action numbered by how many texts
      before it parse. */
  lemma {:induction false} ParsedComplete<A>(ts: seq<string>, parse: string -> Option<A>, j: nat)
    requires j < |ts| && parse(ts[j]).Some?
    ensures |Parsed(ts[..j], parse)| < |Parsed(ts, parse)|
    ensures Parsed(ts, parse)[|Parsed(ts[..j], parse)|] == j
  {
    var tail := Parsed(ts[1..], parse);
    var sh := Shift(tail);
    if j == 0 {
      assert ts[..j] == [];
    } else {
      var before := ts[1..][..j - 1];
      assert ts[1..][j - 1] == ts[j];
      ParsedComplete(ts[1..], parse, j - 1);
      var c := |Parsed(before, parse)|;
      assert sh[c] == j;
      assert ts[..j][1..] == before;
      assert ts[..j][0] == ts[0];
      if parse(ts[0]).Some? {
        assert |Parsed(ts[..j], parse)| == 1 + c;
        assert Parsed(ts, parse) == [0] + sh;
      } else {
        assert |Parsed(ts[..j], parse)| == c;
        assert Parsed(ts, parse) == sh;
      }
    }
  }

  /** Texts that fail to parse are dropped silently: with no text parsing there is no action. */
  lemma {:induction false} ParseAllNone<A>(ts: seq<string>, parse: string -> Option<A>)
    requires forall i :: 0 <= i < |ts| ==> parse(ts[i]).None?
    ensures ParseAll(ts, parse) == []
  {
    if ts != [] {
      ParseAllNone(ts[1..], parse);
    }
  }

  /** Parsing distributes over the texts before and after any point. */
  lemma {:induction false} ParseAllAppend<A>(a: seq<string>, b: seq<string>, parse: string -> Option<A>)
    ensures ParseAll(a + b, parse) == ParseAll(a, parse) + ParseAll(b, parse)
  {
    if a == [] {
      assert a + b == b;
    } else {
      assert (a + b)[1..] == a[1..] + b;
      ParseAllAppend(a[1..], b, parse);
    }
  }

  /** Every extracted action is the parsed text of a match the pattern describes, and there are
      at most as many actions as matches. */
  lemma ExtractedFromMatches<A>(text: string, parse: string -> Option<A>, i: nat)
    requires i < |Extracted(text, parse)|
    ensures |Extracted(text, parse)| <= |Matches(text)|
    ensures exists j :: 0 <= j < |Matches(text)| && WellFormed(text, Matches(text)[j])
                        && parse(MatchText(text, Matches(text)[j])) == Some(Extracted(text, parse)[i])
  {
    var ms := Matches(text);
    var ts := TextsOf(text, ms);
    ExtractedIsParseAll(text, 0, parse);
    ParsedLength(ts, parse);
    var j := Parsed(ts, parse)[i];
    ParsedAt(ts, parse, i);
    MatchesFromSound(text, 0, j);
    MatchAtSound(text, ms[j].start, ms[j]);
  }

  /** A text with no match yields no action. */
  lemma NoMatchNoAction<A>(text: string, parse: string -> Option<A>)
    requires forall p :: MatchAt(text, p).None?
    ensures Extracted(text, parse) == []
  {
    ExecLeftmost(text, 0);
  }

  // ---------------------------------------------------------------------------------------------
  // Cleaning

  /** `cleaned = cleaned.replace(p, '')` for each pattern `p` of `ps` in turn. */
  function RemoveEach(s: string, ps: seq<string>): (r: string)
    ensures |r| <= |s|
  {
    if ps == [] then s else RemoveEach(RemoveFirst(s, ps[0]), ps[1..])
  }

  /** `JSON.stringify(a)` for each action. */
  function Stringified<A>(actions: seq<A>, stringify: A -> string): (ps: seq<string>)
    ensures |ps| == |actions|
  {
    seq(|actions|, i requires 0 <= i < |actions| => stringify(actions[i]))
  }

  /** The reply `cleanReplyText` returns and the handler sends: the text with the first occurrence
      of each action's `JSON.stringify` form removed, in action order, then trimmed. */
  function Cleaned<A>(text: string, actions: seq<A>, stringify: A -> string): (r: string)
    ensures |r| <= |text|
  {
    Trim(RemoveEach(text, Stringified(actions, stringify)))
  }

  /** `cleanReplyText` (api/drflex.js:63-69) and the handler's cleaning (api/drflex.js:169-174). */
  method CleanReply<A>(text: string, actions: seq<A>, stringify: A -> string) returns (cleaned: string)
    ensures cleaned == Cleaned(text, actions, stringify)
  {
    ghost var ps := Stringified(actions, stringify);
    cleaned := text;
    for i := 0 to |actions|
      invariant RemoveEach(cleaned, ps[i..]) == RemoveEach(text, ps)
    {
      assert ps[i..][1..] == ps[i + 1..];
      cleaned := RemoveFirst(cleaned, stringify(actions[i]));
    }
    cleaned := Trim(cleaned);
  }

  /** With no actions the reply is the text, trimmed. */
  lemma CleanNoActions<A>(text: string, stringify: A -> string)
    ensures Cleaned(text, [], stringify) == Trim(text)
  {
    assert Stringified([], stringify) == [];
  }

  /** Patterns that do not occur leave the text unchanged. */
  lemma {:induction false} RemoveEachAbsent(s: string, ps: seq<string>)
    requires forall i :: 0 <= i < |ps| ==> !Contains(s, ps[i])
    ensures RemoveEach(s, ps) == s
  {
    if ps != [] {
      RemoveEachAbsent(s, ps[1..]);
    }
  }

  /** When no action's `JSON.stringify` form occurs in the text, cleaning only trims it. */
  lemma CleanWithoutOccurrence<A>(text: string, actions: seq<A>, stringify: A -> string)
    requires forall i :: 0 <= i < |actions| ==> !Contains(text, stringify(actions[i]))
    ensures Cleaned(text, actions, stringify) == Trim(text)
  {
    RemoveEachAbsent(text, Stringified(actions, stringify));
  }

  /** The removals are applied in action order: the first actions' forms go first. */
  lemma {:induction false} RemoveEachAppend(s: string, ps: seq<string>, qs: seq<string>)
    ensures RemoveEach(s, ps + qs) == RemoveEach(RemoveEach(s, ps), qs)
    decreases |ps|
  {
    if ps == [] {
      assert ps + qs == qs;
    } else {
      assert (ps + qs)[1..] == ps[1..] + qs;
      RemoveEachAppend(RemoveFirst(s, ps[0]), ps[1..], qs);
    }
  }

  /** An action whose `JSON.stringify` form is written verbatim in the reply, with no earlier
      occurrence, is cut out of it: what is left is the prose around it, trimmed. */
  lemma CleanCutsVerbatimAction<A>(pre: string, post: string, a: A, stringify: A -> string)
    requires IndexOf(pre + stringify(a) + post, stringify(a)) == Some(|pre|)
    ensures Cleaned(pre + stringify(a) + post, [a], stringify) == Trim(pre + post)
  {
    var t := stringify(a);
    var s := pre + t + post;
    var r := RemoveFirst(s, t);
    assert r[..|pre|] + t + r[|pre|..] == s;
    assert r[..|pre|] == pre by {
      assert s[..|pre|] == pre;
    }
    assert r[|pre|..] == post by {
      assert s[|pre| + |t|..] == post;
    }
    assert r == r[..|pre|] + r[|pre|..];
    assert Stringified([a], stringify) == [t];
    assert RemoveEach(s, [t]) == RemoveEach(r, []);
  }

  // ---------------------------------------------------------------------------------------------
  // The prompt's own formats

  /** A text that starts with `{`, ends with `}` and whose only match is the whole text but its
      last `}` yields no action when that match fails to parse, and cleaning leaves the text as
      it is. */
  lemma TruncatedMatchLost<A>(s: string, parse: string -> Option<A>, stringify: A -> string)
    requires |s| >= 2 && s[0] == '{' && s[|s| - 1] == '}'
    requires |Matches(s)| == 1 && Matches(s)[0].start == 0 && Matches(s)[0].end == |s| - 1
    requires parse(s[..|s| - 1]).None?
    ensures Extracted(s, parse) == []
    ensures Cleaned(s, Extracted(s, parse), stringify) == s
  {
    var m := Matches(s)[0];
    assert Exec(s, 0) == Some(m) && MatchesFrom(s, m.end) == [];
    assert Exec(s, m.end) == None;
    assert ExtractedFrom(s, m.end, parse) == [];
    assert MatchText(s, m) == s[..|s| - 1];
    CleanNoActions(s, stringify);
    TrimOfTrimmed(s);
  }

  /** The prompt's `request_events` format yields no action, and the reply keeps it verbatim,
      whenever its truncated text fails to parse. */
  lemma RequestEventsFormatLost<A>(parse: string -> Option<A>, stringify: A -> string)
    requires parse(RequestEventsFormat[..|RequestEventsFormat| - 1]).None?
    ensures Extracted(RequestEventsFormat, parse) == []
    ensures Cleaned(RequestEventsFormat, Extracted(RequestEventsFormat, parse), stringify) == RequestEventsFormat
  {
    RequestEventsFormatTruncated();
    assert RequestEventsFormat[0] == '{' && RequestEventsFormat[|RequestEventsFormat| - 1] == '}';
    TruncatedMatchLost(RequestEventsFormat, parse, stringify);
  }

  /** Likewise for the prompt's `request_learning` format. */
  lemma RequestLearningFormatLost<A>(parse: string -> Option<A>, stringify: A -> string)
    requires parse(RequestLearningFormat[..|RequestLearningFormat| - 1]).None?
    ensures Extracted(RequestLearningFormat, parse) == []
    ensures Cleaned(RequestLearningFormat, Extracted(RequestLearningFormat, parse), stringify) == RequestLearningFormat
  {
    RequestLearningFormatTruncated();
    assert RequestLearningFormat[0] == '{' && RequestLearningFormat[|RequestLearningFormat| - 1] == '}';
    TruncatedMatchLost(RequestLearningFormat, parse, stringify);
  }
}
