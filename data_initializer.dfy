/**
 * Startup seeding: three fixed writes to the store, two ids live and one
 * not live, in a fixed order.
 */
module Startup {
  import opened Service

  const Event1Id := "mockEventSTARTUP001"
  const Event2Id := "mockEventSTARTUP002"
  const Event3Id := "mockEventSTARTUP003"

  /** The writes the seeder makes, in order. */
  function SeedUpdates(): seq<(string, bool)>
  {
    [(Event1Id, true), (Event2Id, true), (Event3Id, false)]
  }

  /** The store the seeder leaves behind, starting from `statuses`. */
  function Seeded(statuses: map<string, bool>): (seeded: map<string, bool>)
    ensures seeded.Keys == statuses.Keys + {Event1Id, Event2Id, Event3Id}
  {
    statuses[Event1Id := true][Event2Id := true][Event3Id := false]
  }

  /**
   * After seeding, the first two ids are live, the third is present but not
   * live, and every other id reads exactly as before.
   */
  lemma SeededState(statuses: map<string, bool>)
    ensures StatusOf(Seeded(statuses), Event1Id) && Event1Id in LiveView(Seeded(statuses))
    ensures StatusOf(Seeded(statuses), Event2Id) && Event2Id in LiveView(Seeded(statuses))
    ensures Event3Id in Seeded(statuses) && !Seeded(statuses)[Event3Id]
    ensures Event3Id !in LiveView(Seeded(statuses))
    ensures forall id :: id !in {Event1Id, Event2Id, Event3Id} ==>
      (id in Seeded(statuses) <==> id in statuses) && StatusOf(Seeded(statuses), id) == StatusOf(statuses, id)
  {
  }

  /** From an empty store, the live view after seeding is exactly the first two ids. */
  lemma SeededFromEmpty()
    ensures LiveView(Seeded(map[])) == map[Event1Id := true, Event2Id := true]
  {
    var live := LiveView(Seeded(map[]));
    assert Event3Id !in live;
    assert live.Keys == {Event1Id, Event2Id};
  }

  /** Replaying the seed writes on an empty history gives the seeded empty store. */
  lemma SeedReplay()
    ensures Replay(SeedUpdates()) == Seeded(map[])
  {
    var u := SeedUpdates();
    assert u[..2][..1] == [(Event1Id, true)];
    assert u[..2] == [(Event1Id, true), (Event2Id, true)];
    assert [(Event1Id, true)][..0] == [];
  }

  /** The seeder: three writes, in order 001, 002, 003. */
  method Run(eventService: EventService)
    requires eventService.Valid()
    modifies eventService
    ensures eventService.Valid()
    ensures eventService.updates == old(eventService.updates) + SeedUpdates()
    ensures eventService.eventStatuses == Seeded(old(eventService.eventStatuses))
  {
    eventService.UpdateEventStatus(Event1Id, true);
    eventService.UpdateEventStatus(Event2Id, true);
    eventService.UpdateEventStatus(Event3Id, false);
  }
}
