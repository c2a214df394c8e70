# rest-calls: event liveness store, poll-and-forward job, request handlers

This project models the core of a small Spring service in Dafny.

- **Liveness store** (`Service`). The store is a map from event id to a liveness flag. Writes insert or overwrite an entry and nothing is ever removed. Reads default to "not live". The live view is a fresh map of the entries whose flag is true. The class keeps a ghost history of every write. Its invariant `Valid()` says the map is exactly the replay of that history on an empty map.
- **Poll-and-forward run** (`Scheduler`). The scheduler keeps only the store. One run takes the live view as a snapshot and walks its entry set in an unspecified order. For every entry marked true it fetches `http://localhost:8080/events/mockapi/event/<id>`. A non-null body goes to the sink under topic `live_event_updates`. A null body or a `RestClientException` skips only that entry. The HTTP client's answers are an oracle from URL to outcome, given afresh to each run, since the mock endpoint draws a new score on every call. The sink is the log of messages it was handed. The fetches are logged as URLs. The method is proved against the specification functions `Fetches` and `Sends`. Lemmas then prove what those functions promise.
- **Request handlers** (`Controller`). The mock score endpoint refuses a null or empty id with 400 and no body. Otherwise it answers 200 with the id and the score `a + ":" + b`. Here `a` and `b` are the two `nextInt(5)` draws, passed in as parameters in 0..4. The liveness-update endpoint refuses a missing body, or a missing or empty id, with 400 and leaves the store untouched. Otherwise it makes exactly one store write and answers 200.
- **Startup seeding** (`Startup`). Three writes, in order: `mockEventSTARTUP001` live, `mockEventSTARTUP002` live, `mockEventSTARTUP003` not live. `Lifecycle` follows the seeder with a scheduler run.

The store accepts any id, including the empty one (EventService.java:17-20); only the update handler rejects an empty id (EventController.java:56-59). The live view is a map whose values are all true.

## Model

| member | source | states |
|---|---|---|
| Service.StatusOf | src/main/java/com/example/restcalls/service/EventService.java:30-35 | the flag read for an id is true exactly when the id is stored with true; an id never stored reads false |
| Service.LiveView | src/main/java/com/example/restcalls/service/EventService.java:22-28 | the live view holds exactly the ids whose stored flag is true, each mapped to true, and no key the store lacks |
| Service.Replay | src/main/java/com/example/restcalls/service/EventService.java:15-20 | the store built by a sequence of writes from empty holds only ids that some write named |
| Service.UpdateThenRead | src/main/java/com/example/restcalls/service/EventService.java:17-20 | after writing (id, b) the id is present and reads b; every other id keeps its presence and its flag |
| Service.UpdateIdempotent | src/main/java/com/example/restcalls/service/EventService.java:19 | writing the same (id, b) twice leaves the same store as writing it once |
| Service.LiveViewAfterUpdate | src/main/java/com/example/restcalls/service/EventService.java:17-28 | a write of true adds the id to the live view, a write of false takes it out, and the rest of the view is unchanged |
| Service.SetFalseDropsLiveCount | src/main/java/com/example/restcalls/service/EventService.java:17-28 | setting a live id to false keeps its key in the store and drops the live count by exactly one |
| Service.SetTrueRaisesLiveCount | src/main/java/com/example/restcalls/service/EventService.java:17-28 | setting an id that is not live to true makes it live and raises the live count by exactly one |
| Service.ReplayMostRecent | src/main/java/com/example/restcalls/service/EventService.java:17-31 | the most recent write naming an id decides its flag, whatever came before |
| Service.ReplayNeverSet | src/main/java/com/example/restcalls/service/EventService.java:30-31 | an id no write named is absent from the store and reads as not live |
| Service.EventService.constructor | src/main/java/com/example/restcalls/service/EventService.java:15 | a new store is empty, has no history and has no live events |
| Service.EventService.UpdateEventStatus | src/main/java/com/example/restcalls/service/EventService.java:17-20 | the store becomes the old store with the id set to the flag, the write is appended to the history, and the invariant holds |
| Service.EventService.GetLiveEvents | src/main/java/com/example/restcalls/service/EventService.java:22-28 | returns exactly the entries stored with true, each mapped to true, and changes nothing |
| Service.EventService.IsEventLive | src/main/java/com/example/restcalls/service/EventService.java:30-35 | returns true exactly when the id is stored with true, false for an unknown id, and changes nothing |
| Scheduler.EventUrl | src/main/java/com/example/restcalls/scheduler/EventScheduler.java:42 | the URL is the fixed mock API prefix followed by the id, and the id can be read back from it, so distinct ids get distinct URLs |
| Scheduler.EntryFetches | src/main/java/com/example/restcalls/scheduler/EventScheduler.java:40-44 | an entry causes at most one fetch, one exactly when its flag is true, and that fetch is at the entry's own URL |
| Scheduler.EntrySends | src/main/java/com/example/restcalls/scheduler/EventScheduler.java:40-57 | an entry causes at most one send, one exactly when it is live and its own fetch returned a body, and that send carries topic live_event_updates and that body |
| Scheduler.Sends | src/main/java/com/example/restcalls/scheduler/EventScheduler.java:36-58 | the send log of a run visiting the entries in a given order holds at most one message per entry visited |
| Scheduler.Fetches | src/main/java/com/example/restcalls/scheduler/EventScheduler.java:36-44 | a run makes at most one fetch per entry visited |
| Scheduler.SendsBoundedByFetches | src/main/java/com/example/restcalls/scheduler/EventScheduler.java:40-53 | a run sends at most one message per fetch it makes |
| Scheduler.FetchesSplit | src/main/java/com/example/restcalls/scheduler/EventScheduler.java:36-58 | the fetches of a run over two consecutive parts of the entry set are those of the first part followed by those of the second |
| Scheduler.SendsSplit | src/main/java/com/example/restcalls/scheduler/EventScheduler.java:36-58 | the sends of a run over two consecutive parts of the entry set are those of the first part followed by those of the second |
| Scheduler.FetchIsolation | src/main/java/com/example/restcalls/scheduler/EventScheduler.java:40-57 | entry i causes one fetch at its URL when marked true and none otherwise, and the entries before and after it fetch the same regardless of it |
| Scheduler.SendIsolation | src/main/java/com/example/restcalls/scheduler/EventScheduler.java:40-57 | the send log is the sends of the entries before i, then one message with entry i's body only when it is live and its own fetch returned a body (nothing for a null body or a client error), then the sends of the entries after i |
| Scheduler.SendsLocal | src/main/java/com/example/restcalls/scheduler/EventScheduler.java:40-57 | the sends of a run depend only on the fetch outcomes at the URLs of the entries it visits |
| Scheduler.OtherEntriesUnaffected | src/main/java/com/example/restcalls/scheduler/EventScheduler.java:43-53 | two runs whose fetches answer alike everywhere except at entry i's URL send the same before entry i and the same after it, so a null body or a client error at entry i changes nothing else |
| Scheduler.FetchesOnlyLiveUrls | src/main/java/com/example/restcalls/scheduler/EventScheduler.java:36-44 | every URL a run fetches is the URL of an entry it visited that is marked true |
| Scheduler.SingleEntryRun | src/main/java/com/example/restcalls/scheduler/EventScheduler.java:40-57 | a run over one entry fetches and sends exactly what that entry's own rules give |
| Scheduler.FetchCountDistinct | src/main/java/com/example/restcalls/scheduler/EventScheduler.java:36-44 | over entries without repeats, an id's URL is fetched once if the id is listed and live, else never |
| Scheduler.FetchedOnceIffLive | src/main/java/com/example/restcalls/scheduler/EventScheduler.java:33-44 | in every run each entry marked true is fetched exactly once at its URL; an entry marked false or an id not in the snapshot is never fetched, whatever the other fetches returned |
| Scheduler.FetchesAllLive | src/main/java/com/example/restcalls/scheduler/EventScheduler.java:36-44 | when every entry visited is live, the run fetches once per entry |
| Scheduler.SentIffFetched | src/main/java/com/example/restcalls/scheduler/EventScheduler.java:43-53 | a message is sent exactly when some live entry's fetch returned its payload, always with topic live_event_updates; null bodies and client errors never reach the sink |
| Scheduler.NothingLiveNothingDone | src/main/java/com/example/restcalls/scheduler/EventScheduler.java:33-57 | a snapshot that is empty, or has no entry marked true, causes no fetch and no send |
| Scheduler.OneLiveOneNotLive | src/test/java/com/example/restcalls/scheduler/EventSchedulerTest.java:62-83 | for snapshot {event1: true, event2: false}, in either order, event1 is fetched once, event2 never, and event1's body (if any) is sent once |
| Scheduler.EnumerationLength | src/main/java/com/example/restcalls/scheduler/EventScheduler.java:36 | walking the entry set visits exactly as many entries as the snapshot has |
| Scheduler.ForwardLiveEvents | src/main/java/com/example/restcalls/scheduler/EventScheduler.java:36-58 | the loop visits every entry exactly once in some order, and its fetch and send logs are those the specification functions give for that order; sends ≤ fetches ≤ entries |
| Scheduler.EventScheduler.constructor | src/main/java/com/example/restcalls/scheduler/EventScheduler.java:24-28 | the scheduler keeps the store it is given |
| Scheduler.EventScheduler.FetchLiveEventData | src/main/java/com/example/restcalls/scheduler/EventScheduler.java:31-60 | one run, with that run's fetch answers, snapshots the live view and forwards it as ForwardLiveEvents does; the store is not changed |
| Controller.NatToString | src/main/java/com/example/restcalls/controller/EventController.java:38 | the decimal text of a draw is a non-empty string of digits, one digit for a value below 10 |
| Controller.ParseNatToString | src/main/java/com/example/restcalls/controller/EventController.java:38 | reading back the decimal text of a number gives the number |
| Controller.Score | src/main/java/com/example/restcalls/controller/EventController.java:38 | for draws below 10 the score is three characters: a digit, ':', a digit |
| Controller.ScoreRoundTrip | src/main/java/com/example/restcalls/controller/EventController.java:38 | splitting a score at its first ':' gives back the two draws it was built from |
| Controller.GetMockEventData | src/main/java/com/example/restcalls/controller/EventController.java:27-43 | 400 with no body exactly when the id is null or empty; otherwise 200 with the same id and a three-character score that splits back into the two draws |
| Controller.ValidateStatusUpdate | src/main/java/com/example/restcalls/controller/EventController.java:47-59 | a request yields a store write exactly when its body is present and its id is present and non-empty, and the write is that id with the request's flag |
| Controller.EventController.constructor | src/main/java/com/example/restcalls/controller/EventController.java:21-23 | the controller keeps the store it is given |
| Controller.EventController.UpdateEventStatus | src/main/java/com/example/restcalls/controller/EventController.java:46-64 | 200 exactly when the body is present with a non-empty id; a 400 leaves the store and its history unchanged; a 200 makes exactly one write of (id, flag) |
| Startup.Seeded | src/main/java/com/example/restcalls/startup/DataInitializer.java:21-31 | seeding adds the three seed ids to the keys and no other key |
| Startup.SeededState | src/main/java/com/example/restcalls/startup/DataInitializer.java:21-31 | after seeding 001 and 002 are live, 003 is present with false and not live, and every other id reads as before |
| Startup.SeededFromEmpty | src/main/java/com/example/restcalls/startup/DataInitializer.java:21-31 | from an empty store the live view after seeding is exactly {001, 002} |
| Startup.SeedReplay | src/main/java/com/example/restcalls/startup/DataInitializer.java:21-31 | replaying the three seed writes on an empty history gives the seeded empty store |
| Startup.Run | src/main/java/com/example/restcalls/startup/DataInitializer.java:18-35 | exactly three writes are made, in the order 001, 002, 003, and the store becomes the seeded old store |
| Lifecycle.StartupThenRun | src/main/java/com/example/restcalls/startup/DataInitializer.java:18-35 | a run made after startup seeding from an empty store fetches 001 and 002 once each, never 003, and sends at most two messages |

## Left out

- The message producer is only a sink that records (topic, response). Its null check cannot fire, because the run only forwards non-null bodies. Its JSON conversion and the swallowed conversion error change nothing observable. Its retry loop is commented out in the source.
- The 10-second timer that triggers a run is not modelled; one run is one method call.
- The HTTP transport is replaced by a fetch oracle with three outcomes: a body, null, or `RestClientException`. Other exceptions would escape the run and are not modelled.
- The iteration order of the snapshot's entry set is unspecified, as with a hash map. The loop picks entries nondeterministically and reports the order it used as a ghost output.
- Thread safety of the concurrent map, and requests racing a scheduler run, are not modelled. Calls are single-threaded and sequential.
- The distribution of `java.util.Random` is not modelled. The two draws are inputs in 0..4.
- Logging is left out everywhere.
- Spring request binding, dependency injection and `ResponseEntity` details other than the status and the body are left out.
- A null key in the store would throw. Dafny strings cannot be null, so that case does not arise.
- The command-line arguments of the seeder are ignored by the source and are not modelled.
- `EventStatusUpdate` is modelled from how the controller and its tests use it: an id that may be null and a primitive boolean flag.
- The order of startup seeding and the scheduler's first tick is not fixed: the timer has no initial delay and the seeder is a separate startup callback, so a first run may see an empty store. `Lifecycle` covers only a run made after seeding.
