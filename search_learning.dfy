/** The learning-resource search handler of api/search-learning.js: four queries per topic, the
    last without a site restriction; a result accepted when its URL is not on the deny list and
    is on a good site or looks like an article or blog; at most one item per topic and at most
    20 items. */
module SearchLearning {
  import opened Wrappers
  import opened JsStrings
  import opened WebSearch

  /** An entry of the `items` reply: a title and the original URL, and nothing else. */
  datatype LearningItem = LearningItem(title: string, url: Option<string>)

  /** The `blocked` list: URL fragments of shops and course sales. */
  const Blocked: seq<string> := ["amazon", "ebay", "walmart", "shop", "/buy", "/product", "udemy.com/course"]

  /** The `goodSites` list. */
  const GoodSites: seq<string> := [
    "tinybuddha.com", "psychologytoday.com", "personalityjunkie.com",
    "hbr.org", "huffpost.com", "forbes.com", "personalexcellence.co",
    "psyche.co", "medium.com", "theguardian.com", "bbc.co.uk"
  ]

  /** The text of the last query after the topic. */
  const UnscopedSuffix := " article personal development"

  /** The pieces of the four queries `${topic} …` for one topic, in the order they are tried. */
  function LearningQueryParts(topic: string): (ps: seq<seq<string>>)
    ensures |ps| == 4 && forall i :: 0 <= i < 4 ==> ps[i] != [] && ps[i][0] == topic
  {
    [
      [topic, " site:", "tinybuddha.com OR site:psychologytoday.com OR site:personalityjunkie.com"],
      [topic, " site:", "hbr.org OR site:huffpost.com OR site:forbes.com"],
      [topic, " site:", "personalexcellence.co OR site:psyche.co"],
      [topic, UnscopedSuffix]
    ]
  }

  /** The four query strings. */
  function LearningQueries(topic: string): (qs: seq<string>)
    ensures |qs| == 4
  {
    var ps := LearningQueryParts(topic);
    seq(4, i requires 0 <= i < 4 => Concat(ps[i]))
  }

  /** Every query starts with the topic; the first three are restricted to sites, and the last is
      the topic followed by text with no `site:` restriction. */
  lemma LearningQueryShape(topic: string)
    ensures forall i :: 0 <= i < 4 ==>
              |topic| <= |LearningQueries(topic)[i]| && LearningQueries(topic)[i][..|topic|] == topic
    ensures forall i :: 0 <= i < 3 ==> Contains(LearningQueries(topic)[i], " site:")
    ensures LearningQueries(topic)[3] == topic + UnscopedSuffix && !Contains(UnscopedSuffix, "site:")
  {
    var ps := LearningQueryParts(topic);
    forall i | 0 <= i < 4
      ensures |topic| <= |LearningQueries(topic)[i]| && LearningQueries(topic)[i][..|topic|] == topic
    {
      ConcatPrefix(ps[i]);
    }
    forall i | 0 <= i < 3
      ensures Contains(LearningQueries(topic)[i], " site:")
    {
      ConcatContains(ps[i], 1);
    }
    Concat2(topic, UnscopedSuffix);
    MissingCharNotContained(UnscopedSuffix, "site:", 4);
  }

  /** The filter of one real result: not blocked, and on a good site or with `article` or `blog`
      in its lower-cased URL; `null` is never accepted (reading its `url` throws). */
  predicate LearningAccepts(r: WebResult): (b: bool)
    ensures b ==> r.WebResult? && r.url.Some?
  {
    NoneInEmpty(GoodSites);
    assert !Contains("", "article") && !Contains("", "blog");
    r.WebResult? && !ContainsAny(LowerUrl(r), Blocked)
    && (ContainsAny(LowerUrl(r), GoodSites) || Contains(LowerUrl(r), "article") || Contains(LowerUrl(r), "blog"))
  }

  /** Acceptance, pattern by pattern: no blocked fragment occurs in the lower-cased URL, and a good
      site, `article` or `blog` does. */
  lemma LearningAcceptsSpec(r: WebResult)
    requires r.WebResult?
    ensures LearningAccepts(r) <==>
              (forall i :: 0 <= i < |Blocked| ==> !Contains(LowerUrl(r), Blocked[i]))
              && ((exists i :: 0 <= i < |GoodSites| && Contains(LowerUrl(r), GoodSites[i]))
                  || Contains(LowerUrl(r), "article") || Contains(LowerUrl(r), "blog"))
  {
    ContainsAnySpec(LowerUrl(r), Blocked);
    ContainsAnySpec(LowerUrl(r), GoodSites);
  }

  /** The title plays no part in the decision. */
  lemma TitleIrrelevant(r: WebResult, title: Option<string>)
    requires r.WebResult?
    ensures LearningAccepts(r) <==> LearningAccepts(r.(title := title))
  {
    assert LowerUrl(r) == LowerUrl(r.(title := title));
  }

  /** The item pushed for an accepted result: its title, or the topic when it has none, and its
      original URL. */
  function LearningItemOf(topic: string, r: WebResult): (x: LearningItem)
    requires r.WebResult?
    ensures Truthy(r.title) ==> x.title == r.title.value
    ensures !Truthy(r.title) ==> x.title == topic
    ensures x.url == r.url
  {
    LearningItem(OrElse(r.title, topic), r.url)
  }

  /** What one topic contributes to `results`; no topic can throw outside the inner `try`. */
  function LearningStep(topic: string, search: string -> SearchOutcome): (st: Step<LearningItem>)
    ensures !st.Abort?
    ensures var o := Queries(LearningQueries(topic), LearningAccepts, search).outcome;
            (st.Add? <==> o.Found?)
            && (o.Found? ==> st.item == LearningItemOf(topic, o.result) && st.item.url.Some?)
  {
    match Queries(LearningQueries(topic), LearningAccepts, search).outcome
    case Found(r) => Add(LearningItemOf(topic, r))
    case _ => Skip
  }

  /** The step as a function of the topic alone. */
  function LearningSteps(search: string -> SearchOutcome): string -> Step<LearningItem> {
    topic => LearningStep(topic, search)
  }

  /** The `for (const topic of topics)` loop (api/search-learning.js:26-94). */
  method CollectLearning(topics: seq<string>, search: string -> SearchOutcome) returns (items: seq<LearningItem>)
    ensures Collect(topics, LearningSteps(search)) == Some(items)
  {
    items := [];
    var i := 0;
    while i < |topics|
      invariant i <= |topics|
      invariant CollectFrom(topics, i, items, LearningSteps(search)) == Collect(topics, LearningSteps(search))
    {
      if |items| >= MaxItems {
        break;
      }
      var topic := topics[i];
      var outcome, _ := SearchQueries(LearningQueries(topic), LearningAccepts, search);
      if outcome.Found? {
        items := items + [LearningItemOf(topic, outcome.result)];
      }
      i := i + 1;
    }
  }

  /** The handler: the request checks, then the loop. */
  method HandleSearchLearning(httpMethod: string, apiKey: Option<string>, body: Body<string>,
                              search: string -> SearchOutcome)
    returns (reply: Reply<LearningItem>)
    ensures reply == Respond(httpMethod, apiKey, body, "Invalid topics", LearningSteps(search))
  {
    if httpMethod == "OPTIONS" {
      return Preflight;
    }
    if httpMethod != "POST" {
      return NotAllowed;
    }
    if !Truthy(apiKey) {
      return Items([]);
    }
    if body.NoBody? {
      return SearchError;
    }
    if !body.field.List? {
      return Invalid("Invalid topics");
    }
    var items := CollectLearning(body.field.entries, search);
    return Items(items);
  }

  // ---------------------------------------------------------------------------------------------
  // Properties of the reply

  /** With a key and an array of topics the handler always answers 200 with at most
      `min(20, |topics|)` items. */
  lemma LearningReplyBound(apiKey: Option<string>, topics: seq<string>, search: string -> SearchOutcome)
    requires Truthy(apiKey)
    ensures Respond("POST", apiKey, Body(List(topics)), "Invalid topics", LearningSteps(search)).Items?
    ensures |Respond("POST", apiKey, Body(List(topics)), "Invalid topics", LearningSteps(search)).items| <= MaxItems
    ensures |Respond("POST", apiKey, Body(List(topics)), "Invalid topics", LearningSteps(search)).items| <= |topics|
  {
    var step := LearningSteps(search);
    CollectFromSpec(topics, 0, [], step);
    CollectBound(topics, step);
  }

  /** Every item was made from an accepted, hence unblocked, result of one topic's queries. */
  lemma LearningItemsAccepted(topics: seq<string>, search: string -> SearchOutcome, n: nat)
    requires Collect(topics, LearningSteps(search)).Some?
    requires n < |Collect(topics, LearningSteps(search)).value|
    ensures exists j, r :: 0 <= j < |topics| && LearningAccepts(r)
              && Queries(LearningQueries(topics[j]), LearningAccepts, search).outcome == Found(r)
              && Collect(topics, LearningSteps(search)).value[n] == LearningItemOf(topics[j], r)
  {
    var step := LearningSteps(search);
    CollectFromSpec(topics, 0, [], step);
    var k := StopAt(topics, 0, [], step);
    assert [] + Gathered(topics, 0, k, step) == Gathered(topics, 0, k, step);
    GatheredFrom(topics, 0, k, step, n);
    var j :| 0 <= j < k && step(topics[j]) == Add(Gathered(topics, 0, k, step)[n]);
    var r := Queries(LearningQueries(topics[j]), LearningAccepts, search).outcome.result;
    assert LearningAccepts(r);
  }

  /** No item's lower-cased URL contains a blocked fragment. */
  lemma NoBlockedItem(topics: seq<string>, search: string -> SearchOutcome, n: nat)
    requires Collect(topics, LearningSteps(search)).Some?
    requires n < |Collect(topics, LearningSteps(search)).value|
    ensures forall i :: 0 <= i < |Blocked| ==>
              !Contains(ToLower(OrElse(Collect(topics, LearningSteps(search)).value[n].url, "")), Blocked[i])
  {
    LearningItemsAccepted(topics, search, n);
    var j, r :| 0 <= j < |topics| && LearningAccepts(r)
                && Queries(LearningQueries(topics[j]), LearningAccepts, search).outcome == Found(r)
                && Collect(topics, LearningSteps(search)).value[n] == LearningItemOf(topics[j], r);
    LearningAcceptsSpec(r);
  }

  /** The items follow the order of the topics, one per topic whose queries found a result, up to
      the topic at which the cap stopped the loop. */
  lemma LearningItemsInOrder(topics: seq<string>, search: string -> SearchOutcome)
    ensures Collect(topics, LearningSteps(search)).Some?
    ensures Collect(topics, LearningSteps(search)).value
            == Gathered(topics, 0, StopAt(topics, 0, [], LearningSteps(search)), LearningSteps(search))
  {
    var step := LearningSteps(search);
    CollectFromSpec(topics, 0, [], step);
    assert [] + Gathered(topics, 0, StopAt(topics, 0, [], step), step)
        == Gathered(topics, 0, StopAt(topics, 0, [], step), step);
  }
}
