/**
 * One run of the poll-and-forward job: walk the live-events snapshot,
 * fetch the mock score of every entry marked live, and forward every
 * non-null response to the message sink under a fixed topic. A null
 * response or a client error skips that entry only.
 *
 * The HTTP fetch is an oracle `fetch` from URL to outcome; the sink is a
 * log of the messages it was handed, and the fetches are logged as URLs.
 */
module Scheduler {
  import opened Dto
  import opened Service

  const LiveEventTopic := "live_event_updates"
  const MockApiBaseUrl := "http://localhost:8080/events/mockapi/event/"

  /** What one call of the mock API yields. */
  datatype FetchOutcome =
    | Fetched(response: MockApiResponse)   // a non-null response body
    | NullBody                             // the call succeeded but returned null
    | RestClientError(message: string)     // the client threw RestClientException

  /** A message handed to the sink. */
  datatype Message = Message(topic: string, payload: MockApiResponse)

  /** The mock API URL of an event; the id can be read back from it, so distinct ids get distinct URLs. */
  function EventUrl(eventId: string): (url: string)
    ensures |url| == |MockApiBaseUrl| + |eventId|
    ensures url[..|MockApiBaseUrl|] == MockApiBaseUrl
    ensures url[|MockApiBaseUrl|..] == eventId
  {
    MockApiBaseUrl + eventId
  }

  /** `order` lists every key of `snapshot` exactly once: a possible iteration order of its entry set. */
  ghost predicate IsEnumeration(order: seq<string>, snapshot: map<string, bool>)
  {
    && (forall i, j :: 0 <= i < j < |order| ==> order[i] != order[j])
    && (forall id :: id in order <==> id in snapshot)
  }

  /** The fetches one entry causes: one, at its URL, when its flag is true; none otherwise. */
  function EntryFetches(snapshot: map<string, bool>, eventId: string): (urls: seq<string>)
    requires eventId in snapshot
    ensures |urls| <= 1
    ensures urls != [] <==> snapshot[eventId]
    ensures urls != [] ==> urls[0] == EventUrl(eventId)
  {
    if snapshot[eventId] then [EventUrl(eventId)] else []
  }

  /** The sends one entry causes: one when it is live and its fetch returned a body; none otherwise. */
  function EntrySends(snapshot: map<string, bool>, fetch: string -> FetchOutcome, eventId: string): (sent: seq<Message>)
    requires eventId in snapshot
    ensures |sent| <= 1
    ensures sent != [] <==> snapshot[eventId] && fetch(EventUrl(eventId)).Fetched?
    ensures sent != [] ==> sent[0] == Message(LiveEventTopic, fetch(EventUrl(eventId)).response)
  {
    if snapshot[eventId] then
      match fetch(EventUrl(eventId))
      case Fetched(response) => [Message(LiveEventTopic, response)]
      case NullBody => []
      case RestClientError(_) => []
    else []
  }

  /** The fetch log of a run that visits the entries in `order`; it does not depend on any fetch's outcome. */
  function Fetches(snapshot: map<string, bool>, order: seq<string>): (urls: seq<string>)
    requires forall id :: id in order ==> id in snapshot
    ensures |urls| <= |order|
    decreases |order|
  {
    if order == [] then []
    else EntryFetches(snapshot, order[0]) + Fetches(snapshot, order[1..])
  }

  /** The send log of a run that visits the entries in `order`. */
  function Sends(snapshot: map<string, bool>, fetch: string -> FetchOutcome, order: seq<string>): (sent: seq<Message>)
    requires forall id :: id in order ==> id in snapshot
    ensures |sent| <= |order|
    decreases |order|
  {
    if order == [] then []
    else EntrySends(snapshot, fetch, order[0]) + Sends(snapshot, fetch, order[1..])
  }

  /** A run sends at most one message per fetch it makes. */
  lemma {:induction false} SendsBoundedByFetches(snapshot: map<string, bool>, fetch: string -> FetchOutcome, order: seq<string>)
    requires forall id :: id in order ==> id in snapshot
    ensures |Sends(snapshot, fetch, order)| <= |Fetches(snapshot, order)|
    decreases |order|
  {
    if order != [] {
      SendsBoundedByFetches(snapshot, fetch, order[1..]);
    }
  }

  /** A run over `o1 + o2` fetches what a run over `o1` fetches, then what a run over `o2` fetches. */
  lemma {:induction false} FetchesSplit(snapshot: map<string, bool>, o1: seq<string>, o2: seq<string>)
    requires forall id :: id in o1 ==> id in snapshot
    requires forall id :: id in o2 ==> id in snapshot
    ensures Fetches(snapshot, o1 + o2) == Fetches(snapshot, o1) + Fetches(snapshot, o2)
    decreases |o1|
  {
    if o1 == [] {
      assert o1 + o2 == o2;
    } else {
      var whole := o1 + o2;
      assert whole[0] == o1[0] && whole[1..] == o1[1..] + o2;
      var first := EntryFetches(snapshot, o1[0]);
      FetchesSplit(snapshot, o1[1..], o2);
      calc {
        Fetches(snapshot, whole);
        first + Fetches(snapshot, o1[1..] + o2);
        first + (Fetches(snapshot, o1[1..]) + Fetches(snapshot, o2));
        (first + Fetches(snapshot, o1[1..])) + Fetches(snapshot, o2);
      }
    }
  }

  /** A run over `o1 + o2` sends what a run over `o1` sends, then what a run over `o2` sends. */
  lemma {:induction false} SendsSplit(snapshot: map<string, bool>, fetch: string -> FetchOutcome, o1: seq<string>, o2: seq<string>)
    requires forall id :: id in o1 ==> id in snapshot
    requires forall id :: id in o2 ==> id in snapshot
    ensures Sends(snapshot, fetch, o1 + o2) == Sends(snapshot, fetch, o1) + Sends(snapshot, fetch, o2)
    decreases |o1|
  {
    if o1 == [] {
      assert o1 + o2 == o2;
    } else {
      var whole := o1 + o2;
      assert whole[0] == o1[0] && whole[1..] == o1[1..] + o2;
      var first := EntrySends(snapshot, fetch, o1[0]);
      SendsSplit(snapshot, fetch, o1[1..], o2);
      calc {
        Sends(snapshot, fetch, whole);
        first + Sends(snapshot, fetch, o1[1..] + o2);
        first + (Sends(snapshot, fetch, o1[1..]) + Sends(snapshot, fetch, o2));
        (first + Sends(snapshot, fetch, o1[1..])) + Sends(snapshot, fetch, o2);
      }
    }
  }

  /** A run over a single entry logs just that entry's fetches and sends. */
  lemma SingleEntryRun(snapshot: map<string, bool>, fetch: string -> FetchOutcome, eventId: string)
    requires eventId in snapshot
    ensures Fetches(snapshot, [eventId]) == EntryFetches(snapshot, eventId)
    ensures Sends(snapshot, fetch, [eventId]) == EntrySends(snapshot, fetch, eventId)
  {
    assert [eventId][1..] == [];
  }

  /** An enumeration of a snapshot has exactly as many elements as the snapshot has entries. */
  lemma {:induction false} EnumerationLength(order: seq<string>, snapshot: map<string, bool>)
    requires IsEnumeration(order, snapshot)
    ensures |order| == |snapshot|
    decreases |order|
  {
    if order == [] {
      assert snapshot.Keys == {};
    } else {
      var rest := snapshot - {order[0]};
      forall id ensures id in order[1..] <==> id in rest {
        if id in order[1..] {
          var j :| 0 <= j < |order[1..]| && order[1..][j] == id;
          assert order[j + 1] == id;
        }
        if id in rest {
          var j :| 0 <= j < |order| && order[j] == id;
          assert j != 0;
          assert order[1..][j - 1] == id;
        }
      }
      EnumerationLength(order[1..], rest);
      assert rest.Keys == snapshot.Keys - {order[0]};
      assert snapshot.Keys == rest.Keys + {order[0]};
    }
  }

  /**
   * Fetching is isolated per entry: entry i causes one fetch at its URL
   * when live and none otherwise, and the entries before and after it
   * fetch the same regardless.
   */
  lemma FetchIsolation(snapshot: map<string, bool>, order: seq<string>, i: nat)
    requires forall id :: id in order ==> id in snapshot
    requires i < |order|
    ensures Fetches(snapshot, order) ==
      Fetches(snapshot, order[..i])
      + (if snapshot[order[i]] then [EventUrl(order[i])] else [])
      + Fetches(snapshot, order[i + 1..])
  {
    var before, after := order[..i], order[i + 1..];
    var rest := [order[i]] + after;
    assert order == before + rest;
    assert rest[0] == order[i] && rest[1..] == after;
    assert Fetches(snapshot, rest) == EntryFetches(snapshot, order[i]) + Fetches(snapshot, after);
    FetchesSplit(snapshot, before, rest);
  }

  /**
   * Failures are isolated: entry i sends one message only when it is live
   * and its own fetch returned a body, nothing on a null body or a client
   * error, and the entries before and after it send the same regardless.
   */
  lemma SendIsolation(snapshot: map<string, bool>, fetch: string -> FetchOutcome, order: seq<string>, i: nat)
    requires forall id :: id in order ==> id in snapshot
    requires i < |order|
    ensures Sends(snapshot, fetch, order) ==
      Sends(snapshot, fetch, order[..i])
      + (if snapshot[order[i]] && fetch(EventUrl(order[i])).Fetched?
         then [Message(LiveEventTopic, fetch(EventUrl(order[i])).response)] else [])
      + Sends(snapshot, fetch, order[i + 1..])
  {
    var before, after := order[..i], order[i + 1..];
    var rest := [order[i]] + after;
    assert order == before + rest;
    assert rest[0] == order[i] && rest[1..] == after;
    assert Sends(snapshot, fetch, rest) == EntrySends(snapshot, fetch, order[i]) + Sends(snapshot, fetch, after);
    SendsSplit(snapshot, fetch, before, rest);
  }

  /** Over a list without repeats, the URL of `eventId` is fetched once if it is listed and live, else never. */
  lemma {:induction false} FetchCountDistinct(snapshot: map<string, bool>, order: seq<string>, eventId: string)
    requires forall id :: id in order ==> id in snapshot
    requires forall i, j :: 0 <= i < j < |order| ==> order[i] != order[j]
    ensures multiset(Fetches(snapshot, order))[EventUrl(eventId)] ==
      if eventId in order && snapshot[eventId] then 1 else 0
    decreases |order|
  {
    if order != [] {
      var head := order[0];
      FetchCountDistinct(snapshot, order[1..], eventId);
      assert multiset(Fetches(snapshot, order)) ==
        multiset(EntryFetches(snapshot, head)) + multiset(Fetches(snapshot, order[1..]));
      if head != eventId {
        assert EventUrl(head)[|MockApiBaseUrl|..] != EventUrl(eventId)[|MockApiBaseUrl|..];
        assert eventId in order <==> eventId in order[1..];
      } else {
        assert eventId !in order[1..] by {
          forall j | 0 <= j < |order[1..]| ensures order[1..][j] != eventId {
            assert order[1..][j] == order[j + 1];
          }
        }
      }
    }
  }

  /** In every run, each live entry's URL is fetched exactly once, and the URL of any other id never. */
  lemma FetchedOnceIffLive(snapshot: map<string, bool>, order: seq<string>, eventId: string)
    requires IsEnumeration(order, snapshot)
    ensures multiset(Fetches(snapshot, order))[EventUrl(eventId)] ==
      if eventId in snapshot && snapshot[eventId] then 1 else 0
  {
    FetchCountDistinct(snapshot, order, eventId);
  }

  /** When every entry of the list is live, the run fetches once per entry. */
  lemma {:induction false} FetchesAllLive(snapshot: map<string, bool>, order: seq<string>)
    requires forall id :: id in order ==> id in snapshot && snapshot[id]
    ensures |Fetches(snapshot, order)| == |order|
    decreases |order|
  {
    if order != [] {
      FetchesAllLive(snapshot, order[1..]);
    }
  }

  /** Every URL a run fetches is the URL of some entry it visited that is marked live. */
  lemma {:induction false} FetchesOnlyLiveUrls(snapshot: map<string, bool>, order: seq<string>)
    requires forall id :: id in order ==> id in snapshot
    ensures forall u :: u in Fetches(snapshot, order) ==>
      exists id :: id in order && snapshot[id] && u == EventUrl(id)
    decreases |order|
  {
    if order != [] {
      FetchesOnlyLiveUrls(snapshot, order[1..]);
      forall u | u in Fetches(snapshot, order)
        ensures exists id :: id in order && snapshot[id] && u == EventUrl(id)
      {
        if u in EntryFetches(snapshot, order[0]) {
          assert order[0] in order;
        } else {
          assert u in Fetches(snapshot, order[1..]);
          var id :| id in order[1..] && snapshot[id] && u == EventUrl(id);
          assert id in order;
        }
      }
    }
  }

  /** The sends of a run depend only on the fetch outcomes at the URLs of the entries it visits. */
  lemma {:induction false} SendsLocal(snapshot: map<string, bool>, f1: string -> FetchOutcome, f2: string -> FetchOutcome, order: seq<string>)
    requires forall id :: id in order ==> id in snapshot
    requires forall id :: id in order ==> f1(EventUrl(id)) == f2(EventUrl(id))
    ensures Sends(snapshot, f1, order) == Sends(snapshot, f2, order)
    decreases |order|
  {
    if order != [] {
      assert order[0] in order;
      SendsLocal(snapshot, f1, f2, order[1..]);
    }
  }

  /**
   * Failures are isolated across entries: two runs over the same entries,
   * whose fetches answer alike everywhere except at entry i's URL, send
   * the same before entry i and the same after it.
   */
  lemma OtherEntriesUnaffected(snapshot: map<string, bool>, f1: string -> FetchOutcome, f2: string -> FetchOutcome, order: seq<string>, i: nat)
    requires IsEnumeration(order, snapshot)
    requires i < |order|
    requires forall u :: u != EventUrl(order[i]) ==> f1(u) == f2(u)
    ensures Sends(snapshot, f1, order[..i]) == Sends(snapshot, f2, order[..i])
    ensures Sends(snapshot, f1, order[i + 1..]) == Sends(snapshot, f2, order[i + 1..])
  {
    forall id | id in order[..i] ensures f1(EventUrl(id)) == f2(EventUrl(id)) {
      var j :| 0 <= j < i && order[j] == id;
      assert EventUrl(id)[|MockApiBaseUrl|..] != EventUrl(order[i])[|MockApiBaseUrl|..];
    }
    forall id | id in order[i + 1..] ensures f1(EventUrl(id)) == f2(EventUrl(id)) {
      var j :| i < j < |order| && order[j] == id;
      assert EventUrl(id)[|MockApiBaseUrl|..] != EventUrl(order[i])[|MockApiBaseUrl|..];
    }
    SendsLocal(snapshot, f1, f2, order[..i]);
    SendsLocal(snapshot, f1, f2, order[i + 1..]);
  }

  /**
   * A message is sent exactly when some live entry's fetch returned its
   * payload, and always under the fixed topic: null bodies and client
   * errors never reach the sink.
   */
  lemma {:induction false} SentIffFetched(snapshot: map<string, bool>, fetch: string -> FetchOutcome, order: seq<string>, m: Message)
    requires forall id :: id in order ==> id in snapshot
    ensures m in Sends(snapshot, fetch, order) <==>
      m.topic == LiveEventTopic &&
      exists i :: 0 <= i < |order| && snapshot[order[i]] && fetch(EventUrl(order[i])) == Fetched(m.payload)
    decreases |order|
  {
    if order != [] {
      SentIffFetched(snapshot, fetch, order[1..], m);
      if m.topic == LiveEventTopic && !(snapshot[order[0]] && fetch(EventUrl(order[0])) == Fetched(m.payload)) {
        if i :| 0 <= i < |order| && snapshot[order[i]] && fetch(EventUrl(order[i])) == Fetched(m.payload) {
          assert order[1..][i - 1] == order[i];
        }
      }
      if i :| 0 <= i < |order[1..]| && snapshot[order[1..][i]] && fetch(EventUrl(order[1..][i])) == Fetched(m.payload) {
        assert order[i + 1] == order[1..][i];
      }
    }
  }

  /** A snapshot with no entry marked live causes no fetch and no send (in particular an empty one). */
  lemma {:induction false} NothingLiveNothingDone(snapshot: map<string, bool>, fetch: string -> FetchOutcome, order: seq<string>)
    requires forall id :: id in order ==> id in snapshot && !snapshot[id]
    ensures Fetches(snapshot, order) == []
    ensures Sends(snapshot, fetch, order) == []
    decreases |order|
  {
    if order != [] {
      NothingLiveNothingDone(snapshot, fetch, order[1..]);
    }
  }

  /**
   * A snapshot {"event1": true, "event2": false}: whatever the iteration
   * order, one fetch for "event1", none for "event2", and one send of
   * event1's response when its fetch returns one.
   */
  lemma OneLiveOneNotLive(fetch: string -> FetchOutcome, order: seq<string>)
    requires IsEnumeration(order, map["event1" := true, "event2" := false])
    ensures Fetches(map["event1" := true, "event2" := false], order) == [EventUrl("event1")]
    ensures Sends(map["event1" := true, "event2" := false], fetch, order) ==
      if fetch(EventUrl("event1")).Fetched?
      then [Message(LiveEventTopic, fetch(EventUrl("event1")).response)] else []
  {
    var snapshot := map["event1" := true, "event2" := false];
    assert "event1" in order && "event2" in order;
    EnumerationLength(order, snapshot);
    assert order == ["event1", "event2"] || order == ["event2", "event1"];
    assert order == [order[0]] + [order[1]];
    FetchesSplit(snapshot, [order[0]], [order[1]]);
    SendsSplit(snapshot, fetch, [order[0]], [order[1]]);
    SingleEntryRun(snapshot, fetch, order[0]);
    SingleEntryRun(snapshot, fetch, order[1]);
  }

  /**
   * Runs the loop over one snapshot's entry set, in an unspecified order
   * reported as `order`. Every entry whose flag is true is fetched; a
   * fetched body is forwarded; a null body or a client error is skipped
   * and the loop goes on.
   */
  method ForwardLiveEvents(liveEvents: map<string, bool>, fetch: string -> FetchOutcome)
    returns (fetchLog: seq<string>, sendLog: seq<Message>, ghost order: seq<string>)
    ensures IsEnumeration(order, liveEvents)
    ensures fetchLog == Fetches(liveEvents, order)
    ensures sendLog == Sends(liveEvents, fetch, order)
    ensures |sendLog| <= |fetchLog| <= |liveEvents|
  {
    fetchLog, sendLog, order := [], [], [];
    var pending := liveEvents.Keys;
    while pending != {}
      invariant pending <= liveEvents.Keys
      invariant forall i, j :: 0 <= i < j < |order| ==> order[i] != order[j]
      invariant forall id :: id in order ==> id in liveEvents && id !in pending
      invariant forall id :: id in liveEvents ==> id in order || id in pending
      invariant |order| + |pending| == |liveEvents.Keys|
      invariant fetchLog == Fetches(liveEvents, order)
      invariant sendLog == Sends(liveEvents, fetch, order)
      invariant |sendLog| <= |fetchLog|
      decreases pending
    {
      var eventId :| eventId in pending;
      if liveEvents[eventId] {
        var url := EventUrl(eventId);
        fetchLog := fetchLog + [url];
        match fetch(url)
        case Fetched(response) =>
          sendLog := sendLog + [Message(LiveEventTopic, response)];
        case NullBody =>
        case RestClientError(_) =>
      }
      FetchesSplit(liveEvents, order, [eventId]);
      SendsSplit(liveEvents, fetch, order, [eventId]);
      SingleEntryRun(liveEvents, fetch, eventId);
      assert fetchLog == Fetches(liveEvents, order) + EntryFetches(liveEvents, eventId);
      assert sendLog == Sends(liveEvents, fetch, order) + EntrySends(liveEvents, fetch, eventId);
      order := order + [eventId];
      pending := pending - {eventId};
    }
  }

  /**
   * The scheduled job. It keeps the store it snapshots. The HTTP client's
   * answers are given per run as the fetch oracle `fetch`, since the mock
   * endpoint draws a fresh score on every call and a client error in one
   * run says nothing about the next.
   */
  class EventScheduler {
    const eventService: EventService

    constructor (eventService: EventService)
      ensures this.eventService == eventService
    {
      this.eventService := eventService;
    }

    /** One run: snapshot the live events, then forward them; the store is not changed. */
    method FetchLiveEventData(fetch: string -> FetchOutcome) returns (fetchLog: seq<string>, sendLog: seq<Message>, ghost order: seq<string>)
      ensures IsEnumeration(order, LiveView(eventService.eventStatuses))
      ensures fetchLog == Fetches(LiveView(eventService.eventStatuses), order)
      ensures sendLog == Sends(LiveView(eventService.eventStatuses), fetch, order)
      ensures |sendLog| <= |fetchLog| <= |LiveView(eventService.eventStatuses)|
    {
      var liveEvents := eventService.GetLiveEvents();
      fetchLog, sendLog, order := ForwardLiveEvents(liveEvents, fetch);
    }
  }
}
