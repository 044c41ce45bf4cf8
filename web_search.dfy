/** What the two search handlers of api/search-events.js and api/search-learning.js share: the
    shape of a web-search answer, the `||` defaults, the first-match-wins walk over the queries
    and their results, the 20-item collection loop and the HTTP replies. */
module WebSearch {
  import opened Wrappers
  import opened JsStrings

  /** `if (results.length >= 20) break;` */
  const MaxItems: nat := 20

  // ---------------------------------------------------------------------------------------------
  // Answers of the search service

  /** One entry of `searchData.web.results`: `null`, or an object whose `url`, `title` and
      `description` fields are strings or absent. */
  datatype WebResult =
    | NullResult
    | WebResult(url: Option<string>, title: Option<string>, description: Option<string>)

  /** What one `fetch` of a query gives the handler: the results of an `ok` response
      (`searchData.web?.results || []`), a response that is not `ok`, or an exception from
      `fetch` or `json()`. */
  datatype SearchOutcome = Answered(results: seq<WebResult>) | NotOk | Threw

  /** `v || d` for a string field: the default replaces a missing and an empty string. */
  function OrElse(v: Option<string>, d: string): (r: string)
    ensures v.Some? && v.value != "" ==> r == v.value
    ensures v.None? || v.value == "" ==> r == d
  {
    if v.Some? && v.value != "" then v.value else d
  }

  /** A string is truthy when it is present and not empty. */
  predicate Truthy(v: Option<string>) {
    v.Some? && v.value != ""
  }

  /** `result.url?.toLowerCase() || ''`. */
  function LowerUrl(r: WebResult): (u: string)
    requires r.WebResult?
    ensures r.url.None? ==> u == ""
  {
    ToLower(OrElse(r.url, ""))
  }

  /** `ps.some(p => s.includes(p))`. */
  predicate ContainsAny(s: string, ps: seq<string>)
    decreases |ps|
  {
    ps != [] && (Contains(s, ps[0]) || ContainsAny(s, ps[1..]))
  }

  /** `some` holds exactly when one of the patterns occurs in the text. */
  lemma {:induction false} ContainsAnySpec(s: string, ps: seq<string>)
    ensures ContainsAny(s, ps) <==> exists i :: 0 <= i < |ps| && Contains(s, ps[i])
    decreases |ps|
  {
    if ps != [] {
      ContainsAnySpec(s, ps[1..]);
      if ContainsAny(s, ps[1..]) {
        var i :| 0 <= i < |ps[1..]| && Contains(s, ps[1..][i]);
        assert ps[i + 1] == ps[1..][i];
      }
      if exists i :: 0 <= i < |ps| && Contains(s, ps[i]) {
        var i :| 0 <= i < |ps| && Contains(s, ps[i]);
        if i > 0 {
          assert ps[1..][i - 1] == ps[i];
        }
      }
    }
  }

  /** No non-empty pattern occurs in the empty text: a result without a URL matches no site. */
  lemma {:induction false} NoneInEmpty(ps: seq<string>)
    requires forall i :: 0 <= i < |ps| ==> ps[i] != ""
    ensures !ContainsAny("", ps)
  {
    ContainsAnySpec("", ps);
  }

  // ---------------------------------------------------------------------------------------------
  // The walk over one query's results

  /** How the `for (const result of webResults)` loop of one query ends: at the first accepted
      result (`found = true; break;`), by running off the end, or with the `TypeError` that
      reading `result.url` of a `null` entry raises. */
  datatype Walk = Hit(result: WebResult) | NoHit | Crash

  /** The walk over `rs` from index `j` on. */
  function WalkFrom(rs: seq<WebResult>, j: nat, accept: WebResult -> bool): (w: Walk)
    ensures w.Hit? ==> w.result.WebResult? && accept(w.result)
    decreases |rs| - j
  {
    if j >= |rs| then NoHit
    else if rs[j].NullResult? then Crash
    else if accept(rs[j]) then Hit(rs[j])
    else WalkFrom(rs, j + 1, accept)
  }

  /** A hit is the first accepted result, and every result before it was a real result that was
      rejected; a walk without a hit or crash rejected every result. */
  lemma {:induction false} WalkFromSpec(rs: seq<WebResult>, j: nat, accept: WebResult -> bool)
    ensures WalkFrom(rs, j, accept).Hit? ==>
              exists k :: j <= k < |rs| && rs[k] == WalkFrom(rs, j, accept).result && rs[k].WebResult?
                          && accept(rs[k]) && Rejected(rs, j, k, accept)
    ensures WalkFrom(rs, j, accept).NoHit? ==> Rejected(rs, j, |rs|, accept)
    ensures WalkFrom(rs, j, accept).Crash? ==>
              exists k :: j <= k < |rs| && rs[k].NullResult? && Rejected(rs, j, k, accept)
    decreases |rs| - j
  {
    if j < |rs| && rs[j].WebResult? && !accept(rs[j]) {
      WalkFromSpec(rs, j + 1, accept);
    }
  }

  /** Every result in `rs[lo..hi]` is a real result the filter rejects. */
  predicate Rejected(rs: seq<WebResult>, lo: nat, hi: nat, accept: WebResult -> bool)
    requires hi <= |rs|
  {
    forall k :: lo <= k < hi ==> rs[k].WebResult? && !accept(rs[k])
  }

  // ---------------------------------------------------------------------------------------------
  // The walk over one event's or topic's queries

  /** How one event or topic ends inside its `try`: with the accepted result, with every query
      tried and nothing accepted, or with an exception caught by the `catch` around the queries. */
  datatype Outcome = Found(result: WebResult) | NothingFound | Failed

  /** The outcome of one event or topic and the number of queries sent to the search service. */
  datatype Attempt = Attempt(outcome: Outcome, sent: nat)

  /** The queries from index `i` on: a non-`ok` answer moves to the next query, an exception ends
      the attempt, and the first accepted result ends it with `found = true`. */
  function QueriesFrom(queries: seq<string>, i: nat, accept: WebResult -> bool,
                       search: string -> SearchOutcome): (a: Attempt)
    ensures i <= |queries| ==> i + a.sent <= |queries|
    ensures a.outcome.Found? ==> a.outcome.result.WebResult? && accept(a.outcome.result)
    decreases |queries| - i
  {
    if i >= |queries| then Attempt(NothingFound, 0)
    else match search(queries[i])
      case Threw => Attempt(Failed, 1)
      case NotOk => Sent1(QueriesFrom(queries, i + 1, accept, search))
      case Answered(rs) =>
        match WalkFrom(rs, 0, accept)
        case Hit(r) => Attempt(Found(r), 1)
        case Crash => Attempt(Failed, 1)
        case NoHit => Sent1(QueriesFrom(queries, i + 1, accept, search))
  }

  /** One more query sent before `a`. */
  function Sent1(a: Attempt): Attempt {
    Attempt(a.outcome, a.sent + 1)
  }

  /** The attempt for a whole query list. */
  function Queries(queries: seq<string>, accept: WebResult -> bool, search: string -> SearchOutcome): Attempt {
    QueriesFrom(queries, 0, accept, search)
  }

  /** Query `k` was sent and neither ended the attempt. */
  predicate Passed(q: string, accept: WebResult -> bool, search: string -> SearchOutcome) {
    search(q).NotOk? || (search(q).Answered? && WalkFrom(search(q).results, 0, accept).NoHit?)
  }

  /** First match wins: the queries sent are a prefix of the list; every one but the last one
      sent passed without result; a found result is accepted and came from the last query sent,
      after which no other query is sent; nothing found means every query passed. */
  lemma {:induction false} QueriesFromSpec(queries: seq<string>, i: nat, accept: WebResult -> bool,
                                           search: string -> SearchOutcome)
    requires i <= |queries|
    ensures forall k :: i <= k < i + QueriesFrom(queries, i, accept, search).sent - 1 ==>
              Passed(queries[k], accept, search)
    ensures QueriesFrom(queries, i, accept, search).outcome.NothingFound? ==>
              i + QueriesFrom(queries, i, accept, search).sent == |queries|
              && (i < |queries| ==> Passed(queries[|queries| - 1], accept, search))
    ensures QueriesFrom(queries, i, accept, search).outcome.Found? ==>
              var q := queries[i + QueriesFrom(queries, i, accept, search).sent - 1];
              QueriesFrom(queries, i, accept, search).sent >= 1
              && search(q).Answered?
              && WalkFrom(search(q).results, 0, accept) == Hit(QueriesFrom(queries, i, accept, search).outcome.result)
    ensures QueriesFrom(queries, i, accept, search).outcome.Failed? ==>
              QueriesFrom(queries, i, accept, search).sent >= 1
              && !Passed(queries[i + QueriesFrom(queries, i, accept, search).sent - 1], accept, search)
    decreases |queries| - i
  {
    if i < |queries| {
      QueriesFromSpec(queries, i + 1, accept, search);
      var q := queries[i];
      if search(q).Answered? {
        WalkFromSpec(search(q).results, 0, accept);
      }
    }
  }

  /** The inner two loops of both handlers: `for (const query of queries) { if (found) break; … }`
      with the `for (const result of webResults)` walk inside, and the `catch` that ends the
      attempt on an exception. */
  method SearchQueries(queries: seq<string>, accept: WebResult -> bool, search: string -> SearchOutcome)
    returns (outcome: Outcome, sent: nat)
    ensures Attempt(outcome, sent) == Queries(queries, accept, search)
  {
    var found := false;
    outcome := NothingFound;
    sent := 0;
    var i := 0;
    while i < |queries|
      invariant i <= |queries| && sent == i
      invariant !found ==> outcome == NothingFound
      invariant !found ==> Queries(queries, accept, search)
                           == Attempt(QueriesFrom(queries, i, accept, search).outcome,
                                      i + QueriesFrom(queries, i, accept, search).sent)
      invariant found ==> outcome.Found? && Queries(queries, accept, search) == Attempt(outcome, sent)
    {
      if found {
        break;
      }
      var answer := search(queries[i]);
      sent := sent + 1;
      match answer {
        case Threw =>
          return Failed, sent;
        case NotOk =>
        case Answered(rs) =>
          var j := 0;
          while j < |rs|
            invariant j <= |rs|
            invariant WalkFrom(rs, j, accept) == WalkFrom(rs, 0, accept)
          {
            if rs[j].NullResult? {
              return Failed, sent;
            }
            if accept(rs[j]) {
              outcome := Found(rs[j]);
              found := true;
              break;
            }
            j := j + 1;
          }
      }
      i := i + 1;
    }
  }

  // ---------------------------------------------------------------------------------------------
  // The collection loop over events or topics

  /** What one event or topic adds: an exception outside the inner `try` (which ends the whole
      handler), nothing, or one item. */
  datatype Step<I> = Abort | Skip | Add(item: I)

  /** The items `findings` holds after one step. */
  function Added<I>(st: Step<I>): (r: seq<I>)
    ensures |r| <= 1 && (st.Add? <==> |r| == 1) && (st.Add? ==> r[0] == st.item)
  {
    if st.Add? then [st.item] else []
  }

  /** `for (const e of es) { if (results.length >= 20) break; … }` from index `i` on, with the
      items collected so far in `acc`; `None` is an exception that leaves the loop. */
  function CollectFrom<E, I>(es: seq<E>, i: nat, acc: seq<I>, step: E -> Step<I>): (r: Option<seq<I>>)
    ensures r.Some? ==> acc <= r.value
    ensures (forall j :: i <= j < |es| ==> !step(es[j]).Abort?) ==> r.Some?
    decreases |es| - i
  {
    if i >= |es| || |acc| >= MaxItems then Some(acc)
    else match step(es[i])
      case Abort => None
      case Skip => CollectFrom(es, i + 1, acc, step)
      case Add(x) => CollectFrom(es, i + 1, acc + [x], step)
  }

  /** The whole loop, from an empty `results` array. */
  function Collect<E, I>(es: seq<E>, step: E -> Step<I>): (r: Option<seq<I>>)
    ensures (forall j :: 0 <= j < |es| ==> !step(es[j]).Abort?) ==> r.Some?
  {
    CollectFrom(es, 0, [], step)
  }

  /** The items the steps of `es[i..k]` add, in order, with no cap: the reference the capped
      loop is compared with. */
  function Gathered<E, I>(es: seq<E>, i: nat, k: nat, step: E -> Step<I>): (r: seq<I>)
    requires i <= k <= |es|
    ensures |r| <= k - i
    decreases k - i
  {
    if i == k then [] else Added(step(es[i])) + Gathered(es, i + 1, k, step)
  }

  /** The index of the element at which the loop stops: the first one at which the cap is
      reached or that aborts, or the end. */
  function StopAt<E, I>(es: seq<E>, i: nat, acc: seq<I>, step: E -> Step<I>): (k: nat)
    ensures i <= |es| ==> i <= k <= |es|
    decreases |es| - i
  {
    if i >= |es| || |acc| >= MaxItems then (if i <= |es| then i else |es|)
    else if step(es[i]).Abort? then i
    else StopAt(es, i + 1, acc + Added(step(es[i])), step)
  }

  /** No step of `es[i..k]` aborts. */
  predicate NoAbort<E, I>(es: seq<E>, i: nat, k: nat, step: E -> Step<I>)
    requires k <= |es|
  {
    forall j :: i <= j < k ==> !step(es[j]).Abort?
  }

  /** The loop collects exactly what the steps before its stopping point add, in element order:
      it stops at the end or at the cap, or it aborts at an element after collecting fewer items
      than the cap. */
  lemma {:induction false} CollectFromSpec<E, I>(es: seq<E>, i: nat, acc: seq<I>, step: E -> Step<I>)
    requires i <= |es|
    ensures NoAbort(es, i, StopAt(es, i, acc, step), step)
    ensures CollectFrom(es, i, acc, step).Some? ==>
              CollectFrom(es, i, acc, step).value == acc + Gathered(es, i, StopAt(es, i, acc, step), step)
              && (StopAt(es, i, acc, step) == |es| || |CollectFrom(es, i, acc, step).value| >= MaxItems)
    ensures CollectFrom(es, i, acc, step).None? ==>
              StopAt(es, i, acc, step) < |es| && step(es[StopAt(es, i, acc, step)]).Abort?
              && |acc + Gathered(es, i, StopAt(es, i, acc, step), step)| < MaxItems
    decreases |es| - i
  {
    if i < |es| && |acc| < MaxItems && !step(es[i]).Abort? {
      var acc' := acc + Added(step(es[i]));
      CollectFromSpec(es, i + 1, acc', step);
      var k := StopAt(es, i + 1, acc', step);
      assert acc' + Gathered(es, i + 1, k, step) == acc + Gathered(es, i, k, step);
      assert CollectFrom(es, i, acc, step) == CollectFrom(es, i + 1, acc', step);
    } else if i < |es| && |acc| >= MaxItems {
      assert acc + [] == acc;
    } else if i == |es| {
      assert acc + [] == acc;
    }
  }

  /** The cap: starting from at most 20 items, the loop ends with at most 20, and with at most
      one more item per element processed. */
  lemma {:induction false} CollectFromBound<E, I>(es: seq<E>, i: nat, acc: seq<I>, step: E -> Step<I>)
    requires i <= |es| && |acc| <= MaxItems
    ensures CollectFrom(es, i, acc, step).Some? ==>
              |CollectFrom(es, i, acc, step).value| <= MaxItems
              && |CollectFrom(es, i, acc, step).value| <= |acc| + |es| - i
    decreases |es| - i
  {
    if i < |es| && |acc| < MaxItems && !step(es[i]).Abort? {
      var acc' := acc + Added(step(es[i]));
      assert step(es[i]).Skip? ==> acc' == acc;
      CollectFromBound(es, i + 1, acc', step);
      assert CollectFrom(es, i, acc, step) == CollectFrom(es, i + 1, acc', step);
    }
  }

  /** At most `min(20, |es|)` items. */
  lemma CollectBound<E, I>(es: seq<E>, step: E -> Step<I>)
    ensures Collect(es, step).Some? ==>
              |Collect(es, step).value| <= MaxItems && |Collect(es, step).value| <= |es|
  {
    CollectFromBound(es, 0, [], step);
  }

  /** Every collected item is the item some element's step added. */
  lemma {:induction false} GatheredFrom<E, I>(es: seq<E>, i: nat, k: nat, step: E -> Step<I>, n: nat)
    requires i <= k <= |es| && n < |Gathered(es, i, k, step)|
    ensures exists j :: i <= j < k && step(es[j]) == Add(Gathered(es, i, k, step)[n])
    decreases k - i
  {
    var head := Added(step(es[i]));
    var rest := Gathered(es, i + 1, k, step);
    if n < |head| {
      assert Gathered(es, i, k, step)[n] == step(es[i]).item;
    } else {
      GatheredFrom(es, i + 1, k, step, n - |head|);
      assert Gathered(es, i, k, step)[n] == rest[n - |head|];
    }
  }

  /** An item from every element whose step adds one, up to the stopping point: the loop drops
      no item before the cap. */
  lemma {:induction false} GatheredComplete<E, I>(es: seq<E>, i: nat, k: nat, step: E -> Step<I>, j: nat)
    requires i <= j < k <= |es| && step(es[j]).Add?
    ensures step(es[j]).item in Gathered(es, i, k, step)
    decreases k - i
  {
    if j > i {
      GatheredComplete(es, i + 1, k, step, j);
    }
  }

  // ---------------------------------------------------------------------------------------------
  // Requests and replies

  /** A JSON array field of the request body: absent or falsy, some other value, or an array. */
  datatype Field<T> = Missing | NotAList | List(entries: seq<T>)

  /** `req.body`: `undefined` (destructuring it throws) or an object with one array field. */
  datatype Body<T> = NoBody | Body(field: Field<T>)

  /** The responses a search handler sends. */
  datatype Reply<I> =
    | Preflight                      // 200, empty body
    | NotAllowed                     // 405 {error: 'Method not allowed'}
    | Items(items: seq<I>)           // 200 {items}
    | Invalid(message: string)       // 400 {error: message}
    | SearchError                    // 500 {error: 'Search error', items: []}
  {
    function Status(): (code: nat)
      ensures code in {200, 400, 405, 500}
    {
      match this
      case Preflight => 200
      case NotAllowed => 405
      case Items(_) => 200
      case Invalid(_) => 400
      case SearchError => 500
    }
  }

  /** The shared request handling around the collection loop: `OPTIONS`, a method other than
      `POST`, a missing key (200 with no items, before the body is read), a missing body (500),
      a field that is not an array (400, with `message`), and the items otherwise (500 when an
      exception left the loop). */
  function Respond<E, I>(httpMethod: string, apiKey: Option<string>, body: Body<E>, message: string,
                         step: E -> Step<I>): (r: Reply<I>)
    ensures httpMethod == "OPTIONS" ==> r == Preflight
    ensures httpMethod != "OPTIONS" && httpMethod != "POST" ==> r == NotAllowed
    ensures httpMethod == "POST" && !Truthy(apiKey) ==> r == Items([])
    ensures httpMethod == "POST" && Truthy(apiKey) && (body.NoBody? || !body.field.List?) ==>
              r.Status() == (if body.NoBody? then 500 else 400)
    ensures r.Items? ==> |r.items| <= MaxItems
  {
    if httpMethod == "OPTIONS" then Preflight
    else if httpMethod != "POST" then NotAllowed
    else if !Truthy(apiKey) then Items([])
    else match body
      case NoBody => SearchError
      case Body(field) =>
        match field
        case List(es) =>
          CollectBound(es, step);
          (match Collect(es, step)
           case Some(items) => Items(items)
           case None => SearchError)
        case _ => Invalid(message)
  }
}
