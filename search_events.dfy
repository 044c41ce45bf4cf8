/** The event search handler of api/search-events.js: five site-scoped queries per requested
    event, a result accepted when its URL is on an event site and the URL or title carries an
    event keyword, at most one item per event and at most 20 items. */
module SearchEvents {
  import opened Wrappers
  import opened JsStrings
  import opened WebSearch

  /** An entry of `req.body.events`: `null` (reading `event.topic` throws), or an object whose
      `topic` and `location` are strings or absent. */
  datatype EventRequest = NullEvent | EventRequest(topic: Option<string>, location: Option<string>)

  /** An entry of the `items` reply. */
  datatype EventItem = EventItem(title: string, url: Option<string>, description: string)

  /** The `eventSites` list. */
  const EventSites: seq<string> := [
    "eventbrite.co.uk", "eventbrite.com", "meetup.com",
    "skiddle.com", "dice.fm", "feverup.com", "timeout.com",
    "londonist.com", "ticketmaster.co.uk", "ticketmaster.com",
    "residentadvisor.net", "designmynight.com"
  ]

  /** The event keywords. */
  const EventKeywords: seq<string> := ["event", "ticket", "meetup", "show", "gig", "festival"]

  /** `event.topic || 'event'`. */
  function TopicOf(e: EventRequest): (r: string)
    requires e.EventRequest?
    ensures r != ""
    ensures Truthy(e.topic) ==> r == e.topic.value
    ensures !Truthy(e.topic) ==> r == "event"
  {
    OrElse(e.topic, "event")
  }

  /** `event.location || 'London'`. */
  function LocationOf(e: EventRequest): (r: string)
    requires e.EventRequest?
    ensures r != ""
    ensures Truthy(e.location) ==> r == e.location.value
    ensures !Truthy(e.location) ==> r == "London"
  {
    OrElse(e.location, "London")
  }

  /** The pieces of the five queries for one event, in the order they are tried. */
  function EventQueryParts(topic: string, location: string, year: nat): (ps: seq<seq<string>>)
    ensures |ps| == 5 && forall i :: 0 <= i < 5 ==> ps[i] != [] && ps[i][0] == topic
  {
    [
      [topic, " events ", location, " ", DecimalString(year), " ", DecimalString(year + 1),
       " site:eventbrite.co.uk OR site:eventbrite.com"],
      [topic, " ", location, " site:meetup.com OR site:skiddle.com"],
      [topic, " ", location, " site:dice.fm OR site:feverup.com"],
      [topic, " ", location, " events site:timeout.com OR site:londonist.com"],
      [topic, " ", location, " site:ticketmaster.co.uk"]
    ]
  }

  /** The five query strings. */
  function EventQueries(topic: string, location: string, year: nat): (qs: seq<string>)
    ensures |qs| == 5
  {
    var ps := EventQueryParts(topic, location, year);
    seq(5, i requires 0 <= i < 5 => Concat(ps[i]))
  }

  /** Every query starts with the topic, and the first names the current year and the next. */
  lemma EventQueryShape(topic: string, location: string, year: nat)
    ensures forall i :: 0 <= i < 5 ==>
              |topic| <= |EventQueries(topic, location, year)[i]|
              && EventQueries(topic, location, year)[i][..|topic|] == topic
    ensures Contains(EventQueries(topic, location, year)[0], DecimalString(year))
    ensures Contains(EventQueries(topic, location, year)[0], DecimalString(year + 1))
  {
    var ps := EventQueryParts(topic, location, year);
    forall i | 0 <= i < 5
      ensures |topic| <= |EventQueries(topic, location, year)[i]|
              && EventQueries(topic, location, year)[i][..|topic|] == topic
    {
      ConcatPrefix(ps[i]);
    }
    ConcatContains(ps[0], 4);
    ConcatContains(ps[0], 6);
  }

  /** `['event', …].some(kw => url.includes(kw) || title.toLowerCase().includes(kw))`. */
  predicate KeywordHit(url: string, title: string, kws: seq<string>)
    decreases |kws|
  {
    kws != [] && (Contains(url, kws[0]) || Contains(ToLower(title), kws[0]) || KeywordHit(url, title, kws[1..]))
  }

  /** The keyword test is a keyword in the URL or one in the lower-cased title. */
  lemma {:induction false} KeywordHitSpec(url: string, title: string, kws: seq<string>)
    ensures KeywordHit(url, title, kws) <==> ContainsAny(url, kws) || ContainsAny(ToLower(title), kws)
    decreases |kws|
  {
    if kws != [] {
      KeywordHitSpec(url, title, kws[1..]);
    }
  }

  /** `isEventSite && hasEventKeyword` for a real result; `null` is never accepted (reading its
      `url` throws before the test). */
  predicate EventAccepts(r: WebResult): (b: bool)
    ensures b ==> r.WebResult? && r.url.Some?
  {
    NoneInEmpty(EventSites);
    r.WebResult? && ContainsAny(LowerUrl(r), EventSites)
    && KeywordHit(LowerUrl(r), OrElse(r.title, ""), EventKeywords)
  }

  /** A real result is accepted exactly when its lower-cased URL names an event site, and its
      lower-cased URL or title names an event keyword. */
  lemma EventAcceptsSpec(r: WebResult)
    requires r.WebResult?
    ensures EventAccepts(r) <==>
              (exists i :: 0 <= i < |EventSites| && Contains(LowerUrl(r), EventSites[i]))
              && ((exists i :: 0 <= i < |EventKeywords| && Contains(LowerUrl(r), EventKeywords[i]))
                  || (exists i :: 0 <= i < |EventKeywords| && Contains(ToLower(OrElse(r.title, "")), EventKeywords[i])))
  {
    ContainsAnySpec(LowerUrl(r), EventSites);
    KeywordHitSpec(LowerUrl(r), OrElse(r.title, ""), EventKeywords);
    ContainsAnySpec(LowerUrl(r), EventKeywords);
    ContainsAnySpec(ToLower(OrElse(r.title, "")), EventKeywords);
  }

  /** The item pushed for an accepted result: its title, or `${topic} Event in ${location}` when
      it has none; its original (not lower-cased) URL; its description or `''`. */
  function EventItemOf(topic: string, location: string, r: WebResult): (x: EventItem)
    requires r.WebResult?
    ensures Truthy(r.title) ==> x.title == r.title.value
    ensures !Truthy(r.title) ==> x.title == topic + " Event in " + location
    ensures x.url == r.url
  {
    EventItem(OrElse(r.title, topic + " Event in " + location), r.url, OrElse(r.description, ""))
  }

  /** What one event contributes to `results`. */
  function EventStep(e: EventRequest, year: nat, search: string -> SearchOutcome): (st: Step<EventItem>)
    ensures e.NullEvent? <==> st.Abort?
    ensures e.EventRequest? ==>
              var o := Queries(EventQueries(TopicOf(e), LocationOf(e), year), EventAccepts, search).outcome;
              (st.Add? <==> o.Found?)
              && (o.Found? ==> st.item == EventItemOf(TopicOf(e), LocationOf(e), o.result) && st.item.url.Some?)
  {
    match e
    case NullEvent => Abort
    case EventRequest(_, _) =>
      match Queries(EventQueries(TopicOf(e), LocationOf(e), year), EventAccepts, search).outcome
      case Found(r) => Add(EventItemOf(TopicOf(e), LocationOf(e), r))
      case _ => Skip
  }

  /** The step as a function of the event alone. */
  function EventSteps(year: nat, search: string -> SearchOutcome): EventRequest -> Step<EventItem> {
    e => EventStep(e, year, search)
  }

  /** The `for (const event of events)` loop (api/search-events.js:26-102); `None` when a `null`
      event throws outside the inner `try`. */
  method CollectEvents(events: seq<EventRequest>, year: nat, search: string -> SearchOutcome)
    returns (results: Option<seq<EventItem>>)
    ensures results == Collect(events, EventSteps(year, search))
  {
    var items: seq<EventItem> := [];
    var i := 0;
    while i < |events|
      invariant i <= |events|
      invariant CollectFrom(events, i, items, EventSteps(year, search)) == Collect(events, EventSteps(year, search))
    {
      if |items| >= MaxItems {
        break;
      }
      var e := events[i];
      if e.NullEvent? {
        return None;
      }
      var topic := OrElse(e.topic, "event");
      var location := OrElse(e.location, "London");
      var outcome, _ := SearchQueries(EventQueries(topic, location, year), EventAccepts, search);
      if outcome.Found? {
        items := items + [EventItemOf(topic, location, outcome.result)];
      }
      i := i + 1;
    }
    return Some(items);
  }

  /** The handler: the request checks, then the loop. */
  method HandleSearchEvents(httpMethod: string, apiKey: Option<string>, body: Body<EventRequest>,
                            year: nat, search: string -> SearchOutcome)
    returns (reply: Reply<EventItem>)
    ensures reply == Respond(httpMethod, apiKey, body, "Invalid events format", EventSteps(year, search))
  {
    if httpMethod == "OPTIONS" {
      return Preflight;
    }
    if httpMethod != "POST" {
      return NotAllowed;
    }
    if !Truthy(apiKey) {
      return Items([]);
    }
    if body.NoBody? {
      return SearchError;
    }
    if !body.field.List? {
      return Invalid("Invalid events format");
    }
    var results := CollectEvents(body.field.entries, year, search);
    if results.None? {
      return SearchError;
    }
    return Items(results.value);
  }

  // ---------------------------------------------------------------------------------------------
  // Properties of the reply

  /** At most one item per event and at most 20 in all. */
  lemma EventCountBound(events: seq<EventRequest>, year: nat, search: string -> SearchOutcome)
    ensures Collect(events, EventSteps(year, search)).Some? ==>
              |Collect(events, EventSteps(year, search)).value| <= MaxItems
              && |Collect(events, EventSteps(year, search)).value| <= |events|
  {
    CollectBound(events, EventSteps(year, search));
  }

  /** The handler's items are at most `min(20, |events|)`. */
  lemma EventReplyBound(httpMethod: string, apiKey: Option<string>, events: seq<EventRequest>,
                        year: nat, search: string -> SearchOutcome)
    ensures var reply := Respond(httpMethod, apiKey, Body(List(events)), "Invalid events format", EventSteps(year, search));
            reply.Items? ==> |reply.items| <= MaxItems && |reply.items| <= |events|
  {
    CollectBound(events, EventSteps(year, search));
  }

  /** Every item was made from an accepted result of the queries of one of the events, with that
      event's topic and location defaults. */
  lemma EventItemsAccepted(events: seq<EventRequest>, year: nat, search: string -> SearchOutcome, n: nat)
    ensures Collect(events, EventSteps(year, search)).Some? && n < |Collect(events, EventSteps(year, search)).value|
            ==> exists j, r :: 0 <= j < |events| && events[j].EventRequest? && EventAccepts(r)
                  && Queries(EventQueries(TopicOf(events[j]), LocationOf(events[j]), year), EventAccepts, search).outcome
                     == Found(r)
                  && Collect(events, EventSteps(year, search)).value[n]
                     == EventItemOf(TopicOf(events[j]), LocationOf(events[j]), r)
  {
    if !(Collect(events, EventSteps(year, search)).Some? && n < |Collect(events, EventSteps(year, search)).value|) {
      return;
    }
    var step := EventSteps(year, search);
    CollectFromSpec(events, 0, [], step);
    var k := StopAt(events, 0, [], step);
    assert [] + Gathered(events, 0, k, step) == Gathered(events, 0, k, step);
    GatheredFrom(events, 0, k, step, n);
    var j :| 0 <= j < k && step(events[j]) == Add(Gathered(events, 0, k, step)[n]);
    var e := events[j];
    var r := Queries(EventQueries(TopicOf(e), LocationOf(e), year), EventAccepts, search).outcome.result;
    assert EventAccepts(r);
  }

  /** The items follow the order of the events, one per event whose queries found a result, up to
      the event at which the loop stopped. */
  lemma EventItemsInOrder(events: seq<EventRequest>, year: nat, search: string -> SearchOutcome)
    ensures Collect(events, EventSteps(year, search)).Some? ==>
              Collect(events, EventSteps(year, search)).value
              == Gathered(events, 0, StopAt(events, 0, [], EventSteps(year, search)), EventSteps(year, search))
  {
    var step := EventSteps(year, search);
    CollectFromSpec(events, 0, [], step);
    assert [] + Gathered(events, 0, StopAt(events, 0, [], step), step)
        == Gathered(events, 0, StopAt(events, 0, [], step), step);
  }
}
