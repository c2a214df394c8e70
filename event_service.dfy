/**
 * The in-memory liveness store: a map from event id to a liveness flag.
 * Entries are inserted or overwritten, never removed; an id that was
 * never set reads as not live.
 */
module Service {

  /** The flag stored for `eventId`, or false when there is none. */
  function StatusOf(statuses: map<string, bool>, eventId: string): (isLive: bool)
    ensures isLive <==> eventId in statuses && statuses[eventId]
    ensures eventId !in statuses ==> !isLive
  {
    if eventId in statuses then statuses[eventId] else false
  }

  /** The live view: a fresh map holding only the entries whose flag is true. */
  function LiveView(statuses: map<string, bool>): (live: map<string, bool>)
    ensures live.Keys <= statuses.Keys
    ensures forall id :: id in live <==> StatusOf(statuses, id)
    ensures forall id :: id in live ==> live[id]
  {
    map id | id in statuses && statuses[id] :: statuses[id]
  }

  /** The store a sequence of updates builds from an empty map, oldest first. */
  function Replay(updates: seq<(string, bool)>): (statuses: map<string, bool>)
    ensures forall id :: id in statuses ==> exists i :: 0 <= i < |updates| && updates[i].0 == id
    decreases |updates|
  {
    if updates == [] then map[]
    else
      var last := updates[|updates| - 1];
      Replay(updates[..|updates| - 1])[last.0 := last.1]
  }

  /** Reading an id after writing it gives back the written flag; other ids read as before. */
  lemma UpdateThenRead(statuses: map<string, bool>, eventId: string, isLive: bool)
    ensures eventId in statuses[eventId := isLive]
    ensures StatusOf(statuses[eventId := isLive], eventId) == isLive
    ensures forall other :: other != eventId ==>
      (other in statuses[eventId := isLive] <==> other in statuses) &&
      StatusOf(statuses[eventId := isLive], other) == StatusOf(statuses, other)
  {
  }

  /** Writing the same flag twice leaves the same store as writing it once. */
  lemma UpdateIdempotent(statuses: map<string, bool>, eventId: string, isLive: bool)
    ensures statuses[eventId := isLive][eventId := isLive] == statuses[eventId := isLive]
  {
  }

  /** How one write changes the live view: it adds the id or takes it out, and nothing else. */
  lemma LiveViewAfterUpdate(statuses: map<string, bool>, eventId: string, isLive: bool)
    ensures LiveView(statuses[eventId := isLive]) ==
      if isLive then LiveView(statuses)[eventId := true] else LiveView(statuses) - {eventId}
  {
    var after := LiveView(statuses[eventId := isLive]);
    var expected := if isLive then LiveView(statuses)[eventId := true] else LiveView(statuses) - {eventId};
    assert after.Keys == expected.Keys;
  }

  /** Setting a live id to false keeps its key but drops the live count by one. */
  lemma SetFalseDropsLiveCount(statuses: map<string, bool>, eventId: string)
    requires StatusOf(statuses, eventId)
    ensures eventId in statuses[eventId := false]
    ensures !StatusOf(statuses[eventId := false], eventId)
    ensures |LiveView(statuses[eventId := false])| == |LiveView(statuses)| - 1
  {
    var before := LiveView(statuses);
    LiveViewAfterUpdate(statuses, eventId, false);
    assert before.Keys == (before.Keys - {eventId}) + {eventId};
    assert (before - {eventId}).Keys == before.Keys - {eventId};
  }

  /** Setting an id that is not live to true raises the live count by one. */
  lemma SetTrueRaisesLiveCount(statuses: map<string, bool>, eventId: string)
    requires !StatusOf(statuses, eventId)
    ensures StatusOf(statuses[eventId := true], eventId)
    ensures |LiveView(statuses[eventId := true])| == |LiveView(statuses)| + 1
  {
    var before := LiveView(statuses);
    LiveViewAfterUpdate(statuses, eventId, true);
    assert before[eventId := true].Keys == before.Keys + {eventId};
  }

  /**
   * The most recent update of an id decides its flag: if update i is the
   * last one naming `eventId`, the replayed store holds exactly its flag.
   */
  lemma {:induction false} ReplayMostRecent(updates: seq<(string, bool)>, eventId: string, i: nat)
    requires i < |updates| && updates[i].0 == eventId
    requires forall j :: i < j < |updates| ==> updates[j].0 != eventId
    ensures eventId in Replay(updates) && Replay(updates)[eventId] == updates[i].1
    decreases |updates|
  {
    if i < |updates| - 1 {
      ReplayMostRecent(updates[..|updates| - 1], eventId, i);
    }
  }

  /** An id that no update names is absent from the replayed store, so it is not live. */
  lemma {:induction false} ReplayNeverSet(updates: seq<(string, bool)>, eventId: string)
    requires forall j :: 0 <= j < |updates| ==> updates[j].0 != eventId
    ensures eventId !in Replay(updates)
    ensures !StatusOf(Replay(updates), eventId)
    decreases |updates|
  {
    if updates != [] {
      ReplayNeverSet(updates[..|updates| - 1], eventId);
    }
  }

  /** The liveness store. `updates` records every write, oldest first. */
  class EventService {
    var eventStatuses: map<string, bool>
    ghost var updates: seq<(string, bool)>

    /** The store is exactly what its writes, replayed in order on an empty map, produce. */
    ghost predicate Valid()
      reads this
    {
      eventStatuses == Replay(updates)
    }

    constructor ()
      ensures Valid()
      ensures eventStatuses == map[] && updates == []
      ensures LiveView(eventStatuses) == map[]
    {
      eventStatuses := map[];
      updates := [];
    }

    /** Inserts or overwrites the flag of `eventId`. */
    method UpdateEventStatus(eventId: string, isLive: bool)
      requires Valid()
      modifies this
      ensures Valid()
      ensures eventStatuses == old(eventStatuses)[eventId := isLive]
      ensures updates == old(updates) + [(eventId, isLive)]
    {
      eventStatuses := eventStatuses[eventId := isLive];
      updates := updates + [(eventId, isLive)];
      assert updates[..|updates| - 1] == old(updates);
    }

    /** A snapshot of the entries whose flag is true; the store is left as it is. */
    method GetLiveEvents() returns (live: map<string, bool>)
      ensures live == LiveView(eventStatuses)
    {
      live := LiveView(eventStatuses);
    }

    /** The flag of `eventId`, false for an id that was never set; the store is left as it is. */
    method IsEventLive(eventId: string) returns (isLive: bool)
      ensures isLive == StatusOf(eventStatuses, eventId)
    {
      isLive := StatusOf(eventStatuses, eventId);
    }
  }
}
