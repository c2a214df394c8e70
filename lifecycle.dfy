/**
 * The process as a whole: the store starts empty, the seeder runs, and
 * then the scheduler makes a run.
 */
module Lifecycle {
  import opened Service
  import opened Scheduler
  import opened Startup

  /**
   * A run after startup seeding fetches each of the two ids seeded as live
   * exactly once, never fetches the id seeded as not live, and sends at
   * most one message per fetch.
   */
  method StartupThenRun(fetch: string -> FetchOutcome) returns (fetchLog: seq<string>, sendLog: seq<Message>)
    ensures multiset(fetchLog)[EventUrl(Event1Id)] == 1
    ensures multiset(fetchLog)[EventUrl(Event2Id)] == 1
    ensures multiset(fetchLog)[EventUrl(Event3Id)] == 0
    ensures |fetchLog| == 2 && |sendLog| <= 2
  {
    var eventService := new EventService();
    Run(eventService);
    SeededFromEmpty();
    var scheduler := new EventScheduler(eventService);
    ghost var order;
    fetchLog, sendLog, order := scheduler.FetchLiveEventData(fetch);
    ghost var live := LiveView(Seeded(map[]));
    FetchedOnceIffLive(live, order, Event1Id);
    FetchedOnceIffLive(live, order, Event2Id);
    FetchedOnceIffLive(live, order, Event3Id);
    EnumerationLength(order, live);
    FetchesAllLive(live, order);
  }
}
