/**
  The regular expression both copies of the action extractor run over the model's reply:

      /\{\s*"type"\s*:\s*"(request_events|request_learning|add_events|add_learning|add_goals|add_todos)"[\s\S]*?\}/g

  `MatchAt` is a scanner for one attempt of that pattern at a fixed index, `Exec` is one call of
  `regex.exec` (the leftmost attempt that succeeds at or after `lastIndex`), and `MatchesFrom` is
  the whole sequence of matches a global regex yields. `WellFormed` reads the pattern as a grammar
  over the matched span; the scanner accepts exactly the spans the grammar describes.

  Why a deterministic scanner is exact: every `\s*` is followed by a character that is not white
  space (`"` or `:`), so greedy matching never needs to give characters back; no alternative
  contains `"`, so the alternation followed by `"` succeeds exactly when the text between the
  opening quote and the next quote is one of the six names; and the lazy `[\s\S]*?\}` stops at
  the first `}` after the tag, or the attempt at that start index fails.
*/
module ActionScanner {
  import opened Wrappers
  import opened JsStrings

  /** The six action names the pattern's alternation accepts, in the order it tries them. */
  const ActionTypes: seq<string> :=
    ["request_events", "request_learning", "add_events", "add_learning", "add_goals", "add_todos"]

  /** `"request_"`, `"add_"`, `"events"`, `"learning"`, `"goals"` and `"todos"` starting at index
      `i`, each tested character by character: the pieces the six names are made of. */
  predicate RequestAt(s: string, i: nat) {
    && i + 8 <= |s|
    && s[i] == 'r' && s[i + 1] == 'e' && s[i + 2] == 'q' && s[i + 3] == 'u'
    && s[i + 4] == 'e' && s[i + 5] == 's' && s[i + 6] == 't' && s[i + 7] == '_'
  }

  predicate AddAt(s: string, i: nat) {
    i + 4 <= |s| && s[i] == 'a' && s[i + 1] == 'd' && s[i + 2] == 'd' && s[i + 3] == '_'
  }

  predicate EventsAt(s: string, i: nat) {
    && i + 6 <= |s|
    && s[i] == 'e' && s[i + 1] == 'v' && s[i + 2] == 'e' && s[i + 3] == 'n' && s[i + 4] == 't' && s[i + 5] == 's'
  }

  predicate LearningAt(s: string, i: nat) {
    && i + 8 <= |s|
    && s[i] == 'l' && s[i + 1] == 'e' && s[i + 2] == 'a' && s[i + 3] == 'r'
    && s[i + 4] == 'n' && s[i + 5] == 'i' && s[i + 6] == 'n' && s[i + 7] == 'g'
  }

  predicate GoalsAt(s: string, i: nat) {
    i + 5 <= |s| && s[i] == 'g' && s[i + 1] == 'o' && s[i + 2] == 'a' && s[i + 3] == 'l' && s[i + 4] == 's'
  }

  predicate TodosAt(s: string, i: nat) {
    i + 5 <= |s| && s[i] == 't' && s[i + 1] == 'o' && s[i + 2] == 'd' && s[i + 3] == 'o' && s[i + 4] == 's'
  }

  /** `s[i..j]` is one of the six names: the alternation of the pattern. */
  predicate ActionNameAt(s: string, i: nat, j: nat) {
    || (j == i + 14 && RequestAt(s, i) && EventsAt(s, i + 8))
    || (j == i + 16 && RequestAt(s, i) && LearningAt(s, i + 8))
    || (j == i + 10 && AddAt(s, i) && EventsAt(s, i + 4))
    || (j == i + 12 && AddAt(s, i) && LearningAt(s, i + 4))
    || (j == i + 9 && AddAt(s, i) && GoalsAt(s, i + 4))
    || (j == i + 9 && AddAt(s, i) && TodosAt(s, i + 4))
  }

  /** `n` is one of the six names. */
  predicate IsActionName(n: string) {
    ActionNameAt(n, 0, |n|)
  }

  /** The character test accepts exactly the names of `ActionTypes`. */
  lemma ActionNameIn(n: string)
    ensures IsActionName(n) <==> n in ActionTypes
  {
    if IsActionName(n) {
      assert n == "request_events" || n == "request_learning" || n == "add_events"
          || n == "add_learning" || n == "add_goals" || n == "add_todos";
    }
  }

  /** Testing the name inside `s` is testing the slice on its own. */
  lemma ActionNameShift(s: string, i: nat, j: nat)
    requires i <= j <= |s|
    ensures ActionNameAt(s, i, j) <==> IsActionName(s[i..j])
  {
  }

  /** No action name contains a quote or a closing brace. */
  lemma ActionNamePlain(s: string, i: nat, j: nat)
    requires ActionNameAt(s, i, j)
    ensures forall k :: i <= k < j ==> s[k] != '"' && s[k] != '}'
  {
  }

  /** The six characters of `"type"` start at index `i`, tested one by one. */
  predicate TypeKeyAt(s: string, i: nat) {
    && i + 6 <= |s|
    && s[i] == '"' && s[i + 1] == 't' && s[i + 2] == 'y'
    && s[i + 3] == 'p' && s[i + 4] == 'e' && s[i + 5] == '"'
  }

  /** One match: the index of the opening `{`, of `"type"`, of `:`, of the quote that opens the
      name, the name itself, and the index just past the closing `}`. */
  datatype Match = Match(start: nat, typeAt: nat, colonAt: nat, quoteAt: nat, name: string, end: nat) {
    /** The index just past the quote that closes the name. */
    function TagEnd(): nat {
      quoteAt + |name| + 2
    }
  }

  /** The pattern as a grammar: `s[m.start..m.end]` is `{`, white space, `"type"`, white space,
      `:`, white space, `"`, one of the six names, `"`, then any text free of `}`, then `}`. */
  predicate WellFormed(s: string, m: Match): (b: bool)
    ensures b ==> m.start < m.end <= |s| && s[m.start] == '{' && s[m.end - 1] == '}'
  {
    Opening(s, m) && Tagged(s, m) && Closed(s, m)
  }

  /** `\{\s*"type"\s*:\s*"` from `m.start` to `m.quoteAt`. */
  predicate Opening(s: string, m: Match) {
    && m.start < m.typeAt
    && m.typeAt + 6 <= m.colonAt
    && m.colonAt < m.quoteAt < |s|
    && s[m.start] == '{'
    && SpaceBetween(s, m.start + 1, m.typeAt)
    && TypeKeyAt(s, m.typeAt)
    && SpaceBetween(s, m.typeAt + 6, m.colonAt)
    && s[m.colonAt] == ':'
    && SpaceBetween(s, m.colonAt + 1, m.quoteAt)
    && s[m.quoteAt] == '"'
  }

  /** One of the six names right after `m.quoteAt`, then the closing quote. */
  predicate Tagged(s: string, m: Match) {
    && m.TagEnd() <= |s|
    && s[m.quoteAt + 1..m.TagEnd() - 1] == m.name
    && s[m.TagEnd() - 1] == '"'
    && IsActionName(m.name)
  }

  /** `[\s\S]*?\}`: text free of `}` from the end of the tag, then the `}` before `m.end`. */
  predicate Closed(s: string, m: Match) {
    && m.TagEnd() < m.end <= |s|
    && (forall k :: m.TagEnd() <= k < m.end - 1 ==> s[k] != '}')
    && s[m.end - 1] == '}'
  }

  /** The name of a well-formed match is one of the six. */
  lemma WellFormedName(s: string, m: Match)
    requires WellFormed(s, m)
    ensures m.name in ActionTypes
  {
    ActionNameIn(m.name);
  }

  /** The text a match covers, `match[0]`. */
  function MatchText(s: string, m: Match): string
    requires m.start <= m.end <= |s|
  {
    s[m.start..m.end]
  }

  // ---------------------------------------------------------------------------------------------
  // The scanner

  /** The index of the first `c` at or after `i`; with `c == '}'` this is the lazy
      `[\s\S]*?\}` from index `i`. */
  function FirstOf(s: string, i: nat, c: char): (r: Option<nat>)
    requires i <= |s|
    ensures r.Some? ==> i <= r.value < |s| && s[r.value] == c
    decreases |s| - i
  {
    if i == |s| then None
    else if s[i] == c then Some(i)
    else FirstOf(s, i + 1, c)
  }

  lemma {:induction false} FirstOfSpec(s: string, i: nat, c: char)
    requires i <= |s|
    ensures FirstOf(s, i, c).Some? ==> forall k :: i <= k < FirstOf(s, i, c).value ==> s[k] != c
    ensures FirstOf(s, i, c).None? ==> forall k :: i <= k < |s| ==> s[k] != c
    decreases |s| - i
  {
    if i < |s| && s[i] != c {
      FirstOfSpec(s, i + 1, c);
    }
  }

  lemma {:induction false} FirstOfComplete(s: string, i: nat, k: nat, c: char)
    requires i <= k < |s| && s[k] == c
    requires forall j :: i <= j < k ==> s[j] != c
    ensures FirstOf(s, i, c) == Some(k)
    decreases k - i
  {
    if i < k {
      FirstOfComplete(s, i + 1, k, c);
    }
  }

  /** One attempt of the pattern at index `p`: the match that starts there, if any. The attempt
      runs in stages, one per piece of the pattern, each handed the index the previous one found. */
  function MatchAt(s: string, p: nat): (r: Option<Match>)
    ensures r.Some? ==> r.value.start == p < r.value.end <= |s|
  {
    if p < |s| && s[p] == '{' then AfterBrace(s, p, SkipSpace(s, p + 1)) else None
  }

  /** `"type"` where the white space after the brace ends. */
  function AfterBrace(s: string, p: nat, typeAt: nat): (r: Option<Match>)
    requires p < typeAt <= |s|
    ensures r.Some? ==> r.value.start == p < r.value.end <= |s| && r.value.typeAt == typeAt
  {
    if TypeKeyAt(s, typeAt) then AfterKey(s, p, typeAt, SkipSpace(s, typeAt + 6)) else None
  }

  /** `:` where the white space after `"type"` ends. */
  function AfterKey(s: string, p: nat, typeAt: nat, colonAt: nat): (r: Option<Match>)
    requires p < typeAt && typeAt + 6 <= colonAt <= |s|
    ensures r.Some? ==> r.value.start == p < r.value.end <= |s| && r.value.typeAt == typeAt
    ensures r.Some? ==> r.value.colonAt == colonAt
  {
    if colonAt < |s| && s[colonAt] == ':' then AfterColon(s, p, typeAt, colonAt, SkipSpace(s, colonAt + 1))
    else None
  }

  /** The quote that opens the name, where the white space after `:` ends. */
  function AfterColon(s: string, p: nat, typeAt: nat, colonAt: nat, quoteAt: nat): (r: Option<Match>)
    requires p < typeAt && typeAt + 6 <= colonAt < quoteAt <= |s|
    ensures r.Some? ==> r.value.start == p < r.value.end <= |s| && r.value.typeAt == typeAt
    ensures r.Some? ==> r.value.colonAt == colonAt && r.value.quoteAt == quoteAt
  {
    if quoteAt < |s| && s[quoteAt] == '"' then MatchName(s, p, typeAt, colonAt, quoteAt) else None
  }

  /** The name runs to the next quote and must be one of the six. */
  function MatchName(s: string, p: nat, typeAt: nat, colonAt: nat, quoteAt: nat): (r: Option<Match>)
    requires p <= quoteAt < |s|
    ensures r.Some? ==> r.value.start == p < r.value.end <= |s|
    ensures r.Some? ==> r.value.typeAt == typeAt && r.value.colonAt == colonAt && r.value.quoteAt == quoteAt
  {
    match FirstOf(s, quoteAt + 1, '"')
    case None => None
    case Some(nameEnd) =>
      if ActionNameAt(s, quoteAt + 1, nameEnd) then MatchClose(s, p, typeAt, colonAt, quoteAt, nameEnd)
      else None
  }

  /** The match ends at the first `}` after the quote that closes the name at `nameEnd`. */
  function MatchClose(s: string, p: nat, typeAt: nat, colonAt: nat, quoteAt: nat, nameEnd: nat): (r: Option<Match>)
    requires p <= quoteAt < nameEnd < |s|
    ensures r.Some? ==> r.value.start == p && nameEnd < r.value.end - 1 < |s| && s[r.value.end - 1] == '}'
    ensures r.Some? ==> r.value.typeAt == typeAt && r.value.colonAt == colonAt && r.value.quoteAt == quoteAt
    ensures r.Some? ==> r.value.name == s[quoteAt + 1..nameEnd]
  {
    match FirstOf(s, nameEnd + 1, '}')
    case None => None
    case Some(k) => Some(Match(p, typeAt, colonAt, quoteAt, s[quoteAt + 1..nameEnd], k + 1))
  }

  /** `regex.exec(s)` with `regex.lastIndex == from`: the first attempt at or after `from` that succeeds. */
  function Exec(s: string, from: nat): (r: Option<Match>)
    ensures r.Some? ==> from <= r.value.start < r.value.end <= |s|
    decreases |s| - from
  {
    if from >= |s| then None
    else if MatchAt(s, from).Some? then MatchAt(s, from)
    else Exec(s, from + 1)
  }

  /** No attempt succeeds at any index from `lo` up to (not including) `hi`. */
  predicate NoMatchIn(s: string, lo: nat, hi: nat)
    decreases hi - lo
  {
    lo >= hi || (MatchAt(s, lo).None? && NoMatchIn(s, lo + 1, hi))
  }

  lemma {:induction false} NoMatchInAt(s: string, lo: nat, hi: nat, p: nat)
    requires NoMatchIn(s, lo, hi) && lo <= p < hi
    ensures MatchAt(s, p).None?
    decreases hi - lo
  {
    if lo < p {
      NoMatchInAt(s, lo + 1, hi, p);
    }
  }

  /** `exec` reports the attempt at its start index, no attempt between `from` and that index
      succeeds, and `null` means that no attempt from `from` to the end of the text succeeds. */
  lemma {:induction false} ExecSpec(s: string, from: nat)
    ensures Exec(s, from).Some? ==> MatchAt(s, Exec(s, from).value.start) == Exec(s, from)
    ensures Exec(s, from).Some? ==> NoMatchIn(s, from, Exec(s, from).value.start)
    ensures Exec(s, from).None? ==> NoMatchIn(s, from, |s|)
    decreases |s| - from
  {
    if from < |s| && MatchAt(s, from).None? {
      ExecSpec(s, from + 1);
    }
  }

  /** `exec` finds the leftmost match at or after `from`, and returns `null` only when the pattern
      matches nowhere from `from` on. */
  lemma ExecLeftmost(s: string, from: nat)
    ensures Exec(s, from).Some? ==> MatchAt(s, Exec(s, from).value.start) == Exec(s, from)
    ensures Exec(s, from).Some? ==> forall p :: from <= p < Exec(s, from).value.start ==> MatchAt(s, p).None?
    ensures Exec(s, from).None? ==> forall p :: from <= p ==> MatchAt(s, p).None?
  {
    ExecSpec(s, from);
    var hi := if Exec(s, from).Some? then Exec(s, from).value.start else |s|;
    forall p | from <= p < hi
      ensures MatchAt(s, p).None?
    {
      NoMatchInAt(s, from, hi, p);
    }
  }

  /** The matches a global regex yields from `from` on: each `exec` resumes at the end of the
      previous match, so they are in text order and pairwise disjoint. */
  function MatchesFrom(s: string, from: nat): (ms: seq<Match>)
    ensures forall i :: 0 <= i < |ms| ==> from <= ms[i].start < ms[i].end <= |s|
    ensures forall i :: 0 <= i < |ms| - 1 ==> ms[i].end <= ms[i + 1].start
    decreases |s| - from
  {
    match Exec(s, from)
    case None => []
    case Some(m) => [m] + MatchesFrom(s, m.end)
  }

  /** All matches of the pattern in `s`. */
  function Matches(s: string): seq<Match> {
    MatchesFrom(s, 0)
  }

  /** Each reported match is what the attempt at its start index yields. */
  lemma {:induction false} MatchesFromSound(s: string, from: nat, i: nat)
    requires i < |MatchesFrom(s, from)|
    ensures MatchAt(s, MatchesFrom(s, from)[i].start) == Some(MatchesFrom(s, from)[i])
    decreases |s| - from
  {
    var m := Exec(s, from).value;
    var ms := MatchesFrom(s, from);
    ExecSpec(s, from);
    assert ms == [m] + MatchesFrom(s, m.end);
    if i > 0 {
      MatchesFromSound(s, m.end, i - 1);
      assert ms[i] == MatchesFrom(s, m.end)[i - 1];
    }
  }

  // ---------------------------------------------------------------------------------------------
  // The scanner accepts exactly the spans the grammar describes

  /** A quote-free name followed by a quote at index `i` is what the scanner reads as the name. */
  lemma NameEndsAtQuote(s: string, i: nat, n: string)
    requires '"' !in n && i + |n| < |s| && s[i..i + |n|] == n && s[i + |n|] == '"'
    ensures FirstOf(s, i, '"') == Some(i + |n|)
  {
    forall j | i <= j < i + |n|
      ensures s[j] != '"'
    {
      assert s[j] == n[j - i];
      assert n[j - i] in n;
    }
    FirstOfComplete(s, i, i + |n|, '"');
  }

  /** The three white-space runs of an opening are exactly what the scanner skips. */
  lemma OpeningScans(s: string, m: Match)
    requires Opening(s, m)
    ensures SkipSpace(s, m.start + 1) == m.typeAt
    ensures SkipSpace(s, m.typeAt + 6) == m.colonAt
    ensures SkipSpace(s, m.colonAt + 1) == m.quoteAt
  {
    SkipSpaceUnique(s, m.start + 1, m.typeAt);
    SkipSpaceUnique(s, m.typeAt + 6, m.colonAt);
    SkipSpaceUnique(s, m.colonAt + 1, m.quoteAt);
  }

  /** The name stage hands on to the close stage when the name is one of the six. */
  lemma NameStage(s: string, p: nat, typeAt: nat, colonAt: nat, quoteAt: nat, nameEnd: nat)
    requires p <= quoteAt < |s|
    requires FirstOf(s, quoteAt + 1, '"') == Some(nameEnd) && ActionNameAt(s, quoteAt + 1, nameEnd)
    ensures MatchName(s, p, typeAt, colonAt, quoteAt) == MatchClose(s, p, typeAt, colonAt, quoteAt, nameEnd)
  {
  }

  /** The close stage reports the match that ends just past the first `}` after the name. */
  lemma CloseStage(s: string, p: nat, typeAt: nat, colonAt: nat, quoteAt: nat, nameEnd: nat, k: nat)
    requires p <= quoteAt < nameEnd < |s|
    requires FirstOf(s, nameEnd + 1, '}') == Some(k)
    ensures MatchClose(s, p, typeAt, colonAt, quoteAt, nameEnd)
         == Some(Match(p, typeAt, colonAt, quoteAt, s[quoteAt + 1..nameEnd], k + 1))
  {
  }

  lemma MatchNameComplete(s: string, m: Match)
    requires m.start <= m.quoteAt < |s|
    requires Tagged(s, m) && Closed(s, m)
    ensures MatchName(s, m.start, m.typeAt, m.colonAt, m.quoteAt) == Some(m)
  {
    var nameEnd := m.TagEnd() - 1;
    ActionNameShift(s, m.quoteAt + 1, nameEnd);
    ActionNamePlain(s, m.quoteAt + 1, nameEnd);
    FirstOfComplete(s, m.quoteAt + 1, nameEnd, '"');
    FirstOfComplete(s, m.TagEnd(), m.end - 1, '}');
    NameStage(s, m.start, m.typeAt, m.colonAt, m.quoteAt, nameEnd);
    CloseStage(s, m.start, m.typeAt, m.colonAt, m.quoteAt, nameEnd, m.end - 1);
  }

  /** Once the opening has been scanned the attempt is decided by the name and what follows it. */
  lemma StagesAgree(s: string, p: nat, typeAt: nat, colonAt: nat, quoteAt: nat)
    requires p < |s| && s[p] == '{'
    requires typeAt == SkipSpace(s, p + 1) && TypeKeyAt(s, typeAt)
    requires colonAt == SkipSpace(s, typeAt + 6) && colonAt < |s| && s[colonAt] == ':'
    requires quoteAt == SkipSpace(s, colonAt + 1) && quoteAt < |s| && s[quoteAt] == '"'
    ensures MatchAt(s, p) == MatchName(s, p, typeAt, colonAt, quoteAt)
  {
    UnfoldBrace(s, p, typeAt);
    UnfoldKey(s, p, typeAt, colonAt);
    UnfoldColon(s, p, typeAt, colonAt, quoteAt);
  }

  /** An attempt at a brace goes on at `"type"` where the white space after it ends. */
  lemma UnfoldBrace(s: string, p: nat, typeAt: nat)
    requires p < |s| && s[p] == '{' && typeAt == SkipSpace(s, p + 1)
    ensures MatchAt(s, p) == AfterBrace(s, p, typeAt)
  {
  }

  /** After `"type"`, the attempt goes on at the `:` where the white space ends. */
  lemma UnfoldKey(s: string, p: nat, typeAt: nat, colonAt: nat)
    requires p < typeAt <= |s| && TypeKeyAt(s, typeAt) && colonAt == SkipSpace(s, typeAt + 6)
    ensures AfterBrace(s, p, typeAt) == AfterKey(s, p, typeAt, colonAt)
  {
  }

  /** After `:`, the attempt goes on at the quote where the white space ends. */
  lemma UnfoldColon(s: string, p: nat, typeAt: nat, colonAt: nat, quoteAt: nat)
    requires p < typeAt && typeAt + 6 <= colonAt < |s| && s[colonAt] == ':'
    requires quoteAt == SkipSpace(s, colonAt + 1)
    ensures AfterKey(s, p, typeAt, colonAt) == AfterColon(s, p, typeAt, colonAt, quoteAt)
  {
  }

  /** Completeness: the scanner, started at the opening brace of a span the grammar describes,
      reports exactly that span. */
  lemma MatchAtComplete(s: string, m: Match)
    requires WellFormed(s, m)
    ensures MatchAt(s, m.start) == Some(m)
  {
    OpeningScans(s, m);
    MatchNameComplete(s, m);
    StagesAgree(s, m.start, m.typeAt, m.colonAt, m.quoteAt);
  }

  lemma MatchNameSound(s: string, p: nat, typeAt: nat, colonAt: nat, quoteAt: nat, m: Match)
    requires p <= quoteAt < |s|
    requires MatchName(s, p, typeAt, colonAt, quoteAt) == Some(m)
    ensures Tagged(s, m) && Closed(s, m)
  {
    var nameEnd := FirstOf(s, quoteAt + 1, '"').value;
    assert MatchClose(s, p, typeAt, colonAt, quoteAt, nameEnd) == Some(m);
    ActionNameShift(s, quoteAt + 1, nameEnd);
    FirstOfSpec(s, nameEnd + 1, '}');
  }

  /** Indices the scanner computes form an opening. */
  lemma OpeningOfScan(s: string, m: Match)
    requires m.start < |s| && s[m.start] == '{'
    requires m.typeAt == SkipSpace(s, m.start + 1) && TypeKeyAt(s, m.typeAt)
    requires m.colonAt == SkipSpace(s, m.typeAt + 6) && m.colonAt < |s| && s[m.colonAt] == ':'
    requires m.quoteAt == SkipSpace(s, m.colonAt + 1) && m.quoteAt < |s| && s[m.quoteAt] == '"'
    ensures Opening(s, m)
  {
    SkipSpaceSpec(s, m.start + 1);
    SkipSpaceSpec(s, m.typeAt + 6);
    SkipSpaceSpec(s, m.colonAt + 1);
  }

  /** What each stage of a successful attempt has checked before it hands on. */
  lemma BraceStage(s: string, p: nat, m: Match)
    requires MatchAt(s, p) == Some(m)
    ensures m.start == p < |s| && s[p] == '{'
    ensures m.typeAt == SkipSpace(s, p + 1) && AfterBrace(s, p, m.typeAt) == Some(m)
  {
  }

  lemma KeyStage(s: string, m: Match)
    requires m.start < m.typeAt <= |s| && AfterBrace(s, m.start, m.typeAt) == Some(m)
    ensures TypeKeyAt(s, m.typeAt)
    ensures m.colonAt == SkipSpace(s, m.typeAt + 6) && AfterKey(s, m.start, m.typeAt, m.colonAt) == Some(m)
  {
  }

  lemma ColonStage(s: string, m: Match)
    requires m.start < m.typeAt && m.typeAt + 6 <= m.colonAt <= |s|
    requires AfterKey(s, m.start, m.typeAt, m.colonAt) == Some(m)
    ensures m.colonAt < |s| && s[m.colonAt] == ':'
    ensures m.quoteAt == SkipSpace(s, m.colonAt + 1) && AfterColon(s, m.start, m.typeAt, m.colonAt, m.quoteAt) == Some(m)
  {
  }

  lemma QuoteStage(s: string, m: Match)
    requires m.start < m.typeAt && m.typeAt + 6 <= m.colonAt < m.quoteAt <= |s|
    requires AfterColon(s, m.start, m.typeAt, m.colonAt, m.quoteAt) == Some(m)
    ensures m.quoteAt < |s| && s[m.quoteAt] == '"'
    ensures MatchName(s, m.start, m.typeAt, m.colonAt, m.quoteAt) == Some(m)
  {
  }

  /** What a successful attempt has checked, stage by stage. */
  lemma MatchAtShape(s: string, p: nat, m: Match)
    requires MatchAt(s, p) == Some(m)
    ensures m.start == p < |s| && s[p] == '{'
    ensures m.typeAt == SkipSpace(s, p + 1) && TypeKeyAt(s, m.typeAt)
    ensures m.colonAt == SkipSpace(s, m.typeAt + 6) && m.colonAt < |s| && s[m.colonAt] == ':'
    ensures m.quoteAt == SkipSpace(s, m.colonAt + 1) && m.quoteAt < |s| && s[m.quoteAt] == '"'
    ensures MatchName(s, p, m.typeAt, m.colonAt, m.quoteAt) == Some(m)
  {
    BraceStage(s, p, m);
    KeyStage(s, m);
    ColonStage(s, m);
    QuoteStage(s, m);
  }

  /** A match whose opening the scanner found and whose name and close it accepted is well formed. */
  lemma ScannedIsWellFormed(s: string, m: Match)
    requires m.start < |s| && s[m.start] == '{'
    requires m.typeAt == SkipSpace(s, m.start + 1) && TypeKeyAt(s, m.typeAt)
    requires m.colonAt == SkipSpace(s, m.typeAt + 6) && m.colonAt < |s| && s[m.colonAt] == ':'
    requires m.quoteAt == SkipSpace(s, m.colonAt + 1) && m.quoteAt < |s| && s[m.quoteAt] == '"'
    requires MatchName(s, m.start, m.typeAt, m.colonAt, m.quoteAt) == Some(m)
    ensures WellFormed(s, m)
  {
    OpeningOfScan(s, m);
    MatchNameSound(s, m.start, m.typeAt, m.colonAt, m.quoteAt, m);
  }

  /** Soundness: whatever the scanner reports is a span the grammar describes. */
  lemma MatchAtSound(s: string, p: nat, m: Match)
    requires MatchAt(s, p) == Some(m)
    ensures WellFormed(s, m)
  {
    MatchAtShape(s, p, m);
    ScannedIsWellFormed(s, m);
  }

  /** Whatever the pattern matches names one of the six actions: an object of any other type,
      however it is spaced, is never matched. */
  lemma MatchedNameIsAction(s: string, p: nat)
    ensures MatchAt(s, p).Some? ==> MatchAt(s, p).value.name in ActionTypes
  {
    if MatchAt(s, p).Some? {
      MatchAtSound(s, p, MatchAt(s, p).value);
      WellFormedName(s, MatchAt(s, p).value);
    }
  }

  // ---------------------------------------------------------------------------------------------
  // Properties of the matches

  /** Every match contains exactly one `}`: its last character. */
  lemma CloseOnlyAtEnd(s: string, m: Match)
    requires WellFormed(s, m)
    ensures s[m.end - 1] == '}'
    ensures forall k :: m.start <= k < m.end - 1 ==> s[k] != '}'
  {
    ActionNameShift(s, m.quoteAt + 1, m.TagEnd() - 1);
    ActionNamePlain(s, m.quoteAt + 1, m.TagEnd() - 1);
    forall k | m.start <= k < m.end - 1
      ensures s[k] != '}'
    {
      if m.start < k < m.typeAt || m.typeAt + 6 <= k < m.colonAt || m.colonAt < k < m.quoteAt {
        assert IsSpace(s[k]);
      }
    }
  }

  /** Index `p` lies inside one of the matches `ms`. */
  predicate Covered(ms: seq<Match>, p: nat) {
    exists i :: 0 <= i < |ms| && ms[i].start <= p < ms[i].end
  }

  /** No start is skipped: every index at which the pattern would match lies inside one of the
      reported matches (it is that match's start, or it is covered by an earlier match). */
  lemma {:induction false} MatchesCover(s: string, from: nat, p: nat)
    requires from <= p && MatchAt(s, p).Some?
    ensures Covered(MatchesFrom(s, from), p)
    decreases |s| - from
  {
    ExecLeftmost(s, from);
    var m := Exec(s, from).value;
    var ms := MatchesFrom(s, from);
    assert ms == [m] + MatchesFrom(s, m.end);
    if p >= m.end {
      MatchesCover(s, m.end, p);
      var rest := MatchesFrom(s, m.end);
      var i :| 0 <= i < |rest| && rest[i].start <= p < rest[i].end;
      assert ms[i + 1] == rest[i];
    } else {
      assert ms[0] == m;
    }
  }

  /** The compact opening `{"type":"`, then the type `t`, then `"`, at index `p`. */
  predicate CompactTag(s: string, p: nat, t: string) {
    && p + |t| + 10 <= |s|
    && s[p] == '{' && TypeKeyAt(s, p + 1) && s[p + 7] == ':' && s[p + 8] == '"'
    && s[p + 9..p + 9 + |t|] == t && s[p + 9 + |t|] == '"'
  }

  /** On a compact opening of a quote-free type the scanner reaches the name without skipping anything. */
  lemma CompactTagScans(s: string, p: nat, t: string)
    requires CompactTag(s, p, t) && '"' !in t
    ensures MatchAt(s, p) == MatchName(s, p, p + 1, p + 7, p + 8)
    ensures FirstOf(s, p + 9, '"') == Some(p + 9 + |t|)
  {
    assert SkipSpace(s, p + 1) == p + 1;
    assert SkipSpace(s, p + 7) == p + 7;
    assert SkipSpace(s, p + 8) == p + 8;
    StagesAgree(s, p, p + 1, p + 7, p + 8);
    NameEndsAtQuote(s, p + 9, t);
  }

  /** Objects whose type is any other quote-free string are never matched at their brace. */
  lemma OtherTypeNotMatched(s: string, p: nat, t: string)
    requires CompactTag(s, p, t)
    requires t !in ActionTypes && '"' !in t
    ensures MatchAt(s, p).None?
  {
    CompactTagScans(s, p, t);
    ActionNameIn(t);
    ActionNameShift(s, p + 9, p + 9 + |t|);
  }

  /** A compact opening of one of the six names is matched up to the first `}` after the tag. */
  lemma CompactTagMatched(s: string, p: nat, t: string, k: nat)
    requires CompactTag(s, p, t) && t in ActionTypes
    requires p + |t| + 10 <= k < |s| && s[k] == '}'
    requires forall j :: p + |t| + 10 <= j < k ==> s[j] != '}'
    ensures MatchAt(s, p) == Some(Match(p, p + 1, p + 7, p + 8, t, k + 1))
  {
    var nameEnd := p + 9 + |t|;
    ActionNameIn(t);
    ActionNamePlain(t, 0, |t|);
    assert '"' !in t;
    CompactTagScans(s, p, t);
    assert s[p + 9..nameEnd] == t;
    ActionNameShift(s, p + 9, nameEnd);
    FirstOfComplete(s, nameEnd + 1, k, '}');
    NameStage(s, p, p + 1, p + 7, p + 8, nameEnd);
    CloseStage(s, p, p + 1, p + 7, p + 8, nameEnd, k);
  }

  // ---------------------------------------------------------------------------------------------
  // The formats the chat prompt asks the model to use

  /** The text the compact form of every action object starts with. */
  const CompactOpening: string := "{\"type\":\""

  /** The `request_events` format the client's prompt prescribes, with empty topics and location:
      {"type":"request_events","query":{"topics":[],"location":""}} */
  const RequestEventsFormat: string :=
    CompactOpening + "request_events" + "\"" + ",\"query\":" + "{" + "\"topics\":[],\"location\":\"\"" + "}" + "}"

  /** The `request_learning` format the client's prompt prescribes, with empty topics:
      {"type":"request_learning","query":{"topics":[]}} */
  const RequestLearningFormat: string :=
    CompactOpening + "request_learning" + "\"" + ",\"query\":" + "{" + "\"topics\":[]" + "}" + "}"

  /** An action object written compactly whose payload ends with a nested object: the lazy `}`
      stops at the nested object's brace, so the only match leaves out the final `}` and its
      text is an object that is never closed. */
  lemma NestedObjectTruncated(s: string, name: string, a: string, b: string)
    requires s == CompactOpening + name + "\"" + a + "{" + b + "}" + "}"
    requires name in ActionTypes
    requires '}' !in a && '}' !in b
    ensures Matches(s) == [Match(0, 1, 7, 8, name, |s| - 1)]
    ensures MatchText(s, Matches(s)[0]) == s[..|s| - 1]
  {
    var tag := CompactOpening + name + "\"";
    var k := |s| - 2;
    assert s == tag + a + "{" + b + "}" + "}";
    assert s[..|tag|] == tag;
    assert s[..9] == CompactOpening;
    assert s[0] == CompactOpening[0] && s[1] == CompactOpening[1] && s[2] == CompactOpening[2];
    assert s[3] == CompactOpening[3] && s[4] == CompactOpening[4] && s[5] == CompactOpening[5];
    assert s[6] == CompactOpening[6] && s[7] == CompactOpening[7] && s[8] == CompactOpening[8];
    assert s[9..9 + |name|] == name;
    assert s[9 + |name|] == tag[9 + |name|];
    forall j | |tag| <= j < k
      ensures s[j] != '}'
    {
      if j < |tag| + |a| {
        assert s[j] == a[j - |tag|];
        assert a[j - |tag|] in a;
      } else if j > |tag| + |a| {
        assert s[j] == b[j - |tag| - |a| - 1];
        assert b[j - |tag| - |a| - 1] in b;
      }
    }
    CompactTagMatched(s, 0, name, k);
    LastBraceEndsScan(s);
  }

  /** Nothing matches from the last index on when the text ends with `}`. */
  lemma LastBraceEndsScan(s: string)
    requires s != [] && s[|s| - 1] == '}'
    ensures MatchesFrom(s, |s| - 1) == []
  {
    assert MatchAt(s, |s| - 1).None?;
    assert Exec(s, |s|).None?;
    assert Exec(s, |s| - 1).None?;
  }

  /** The prompt's own `request_events` format yields one match that stops at the inner `}`:
      the matched text lacks the object's closing brace, so `JSON.parse` rejects it. */
  lemma RequestEventsFormatTruncated()
    ensures Matches(RequestEventsFormat) == [Match(0, 1, 7, 8, "request_events", |RequestEventsFormat| - 1)]
    ensures MatchText(RequestEventsFormat, Matches(RequestEventsFormat)[0])
         == RequestEventsFormat[..|RequestEventsFormat| - 1]
  {
    NestedObjectTruncated(RequestEventsFormat, "request_events", ",\"query\":", "\"topics\":[],\"location\":\"\"");
  }

  /** Likewise for the prompt's `request_learning` format. */
  lemma RequestLearningFormatTruncated()
    ensures Matches(RequestLearningFormat) == [Match(0, 1, 7, 8, "request_learning", |RequestLearningFormat| - 1)]
    ensures MatchText(RequestLearningFormat, Matches(RequestLearningFormat)[0])
         == RequestLearningFormat[..|RequestLearningFormat| - 1]
  {
    NestedObjectTruncated(RequestLearningFormat, "request_learning", ",\"query\":", "\"topics\":[]");
  }
}
