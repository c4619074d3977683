/** Accounting for messages while a bag is written: each accepted one is in a batch already sent, in
    a topic's buffer, or lost with a failed decoder, and in one of them only. */
module Ledgers {
  import opened Basics
  import opened Recording
  import opened Forms
  import opened Topics

  /** What a recording was asked to keep, and when it is to flush. */
  datatype Config = Config(asked: set<Representation>, unmatched: Unmatched, policy: FlushPolicy)

  function SlotFor(config: Config, info: TopicInfo, matched: bool): Slot {
    Slot(info, Raw in config.asked, LensesFor(config.asked, config.unmatched), matched)
  }

  ghost predicate Configured(config: Config, slot: Slot) {
    slot == SlotFor(config, slot.info, slot.matched)
  }

  datatype Item = Item(slot: Slot, entry: Entry)

  function Items(slot: Slot, entries: seq<Entry>): seq<Item> {
    seq(|entries|, i requires 0 <= i < |entries| => Item(slot, entries[i]))
  }

  /** The rows of the batches sent, in the order they were sent. */
  function Flat(events: seq<Event>): seq<Item> {
    if events == [] then []
    else
      var last := events[|events| - 1];
      Flat(events[..|events| - 1]) + if last.Batch? then Items(last.slot, last.entries) else []
  }

  lemma FlatAppends(events: seq<Event>, event: Event)
    ensures Flat(events + [event]) == Flat(events) + if event.Batch? then Items(event.slot, event.entries) else []
  {
    assert (events + [event])[..|events|] == events;
  }

  /** The rows of some buffers. */
  function Pending(slots: seq<Slot>, held: seq<seq<Entry>>): multiset<Item>
    requires |slots| == |held|
  {
    if slots == [] then multiset{} else multiset(Items(slots[0], held[0])) + Pending(slots[1..], held[1..])
  }

  lemma {:induction false} PendingUpdate(slots: seq<Slot>, held: seq<seq<Entry>>, i: nat, entries: seq<Entry>)
    requires |slots| == |held| && i < |held|
    ensures Pending(slots, held[i := entries]) + multiset(Items(slots[i], held[i]))
         == Pending(slots, held) + multiset(Items(slots[i], entries))
  {
    var updated := held[i := entries];
    var rest, updatedRest := Pending(slots[1..], held[1..]), Pending(slots[1..], updated[1..]);
    assert Pending(slots, held) == multiset(Items(slots[0], held[0])) + rest;
    assert Pending(slots, updated) == multiset(Items(slots[0], updated[0])) + updatedRest;
    if i == 0 {
      assert updated[1..] == held[1..];
    } else {
      assert updated[1..] == held[1..][i - 1 := entries];
      PendingUpdate(slots[1..], held[1..], i - 1, entries);
      Prepends(multiset(Items(slots[0], held[0])), updatedRest, multiset(Items(slots[i], held[i])), rest,
               multiset(Items(slots[i], entries)));
    }
  }

  lemma {:induction false} PendingAppends(slots: seq<Slot>, held: seq<seq<Entry>>, slot: Slot)
    requires |slots| == |held|
    ensures Pending(slots + [slot], held + [[]]) == Pending(slots, held)
  {
    if slots == [] {
      assert Items(slot, []) == [];
      assert slots + [slot] == [slot] && held + [[]] == [[]];
    } else {
      PendingAppends(slots[1..], held[1..], slot);
      assert (slots + [slot])[1..] == slots[1..] + [slot] && (held + [[]])[1..] == held[1..] + [[]];
    }
  }

  lemma {:induction false} PendingNothing(slots: seq<Slot>, held: seq<seq<Entry>>)
    requires |slots| == |held| && forall i :: 0 <= i < |held| ==> held[i] == []
    ensures Pending(slots, held) == multiset{}
  {
    if slots != [] {
      assert Items(slots[0], held[0]) == [];
      PendingNothing(slots[1..], held[1..]);
    }
  }

  datatype Ledger = Ledger(
    slots: seq<Slot>, held: seq<seq<Entry>>, events: seq<Event>, accepted: seq<Item>, lost: multiset<Item>)
  {
    ghost predicate Balanced() {
      && |slots| == |held|
      && multiset(Flat(events)) + Pending(slots, held) + lost == multiset(accepted)
    }

    /** Sequence numbers grow with acceptance, and have not caught up with the next. */
    ghost predicate Sequenced(next: int) {
      && (forall i, j :: 0 <= i < j < |accepted| ==> accepted[i].entry.sequence < accepted[j].entry.sequence)
      && (forall i :: 0 <= i < |accepted| ==> accepted[i].entry.sequence < next)
      && (forall i, k :: 0 <= i < |held| && 0 <= k < |held[i]| ==> held[i][k].sequence < next)
    }

    /** Everything a recording's books must say: they balance, batches keep within the limits and
        have what they are to be replayed from, only rows without raw copies are ever lost, and every
        topic keeps what was asked for. */
    ghost predicate Sound(config: Config, next: int) {
      && Balanced()
      && Sequenced(next)
      && (forall item :: item in lost ==> !item.slot.keepRaw)
      && (forall event :: event in events ==> WellBatched(config.policy, event))
      && (forall event :: event in events && event.Batch? ==> event.slot in slots)
      && (forall item :: item in accepted ==> item.slot in slots)
      && (forall slot :: slot in slots ==> Configured(config, slot))
    }

    /** Buffer `i` leaves as a batch. */
    function Flushing(i: nat, live: bool): Ledger
      requires i < |held| && |slots| == |held|
    {
      if held[i] == [] then this
      else this.(held := held[i := []], events := events + [Batch(slots[i], live, held[i])])
    }

    /** A message joins buffer `i`, or replaces what a failing decoder takes with it. */
    function Accepting(i: nat, entry: Entry, losing: bool): Ledger
      requires i < |held| && |slots| == |held|
    {
      this.(
        held := held[i := (if losing then [] else held[i]) + [entry]],
        accepted := accepted + [Item(slots[i], entry)],
        lost := lost + if losing then multiset(Items(slots[i], held[i])) else multiset{})
    }

    /** A topic is created. */
    function Creating(slot: Slot): Ledger {
      this.(slots := slots + [slot], held := held + [[]], events := events + [Declared(slot.info.name)])
    }

    lemma FlushingBalances(i: nat, live: bool)
      requires Balanced() && i < |held|
      ensures Flushing(i, live).Balanced()
    {
      if held[i] != [] {
        var leaving := Items(slots[i], held[i]);
        PendingUpdate(slots, held, i, []);
        assert Items(slots[i], []) == [];
        FlatAppends(events, Batch(slots[i], live, held[i]));
        Joins(Flat(events), leaving);
        Moves(multiset(Flat(events)), multiset(leaving), Pending(slots, held[i := []]), Pending(slots, held), lost);
      }
    }

    lemma AcceptingBalances(i: nat, entry: Entry, losing: bool)
      requires Balanced() && i < |held|
      ensures Accepting(i, entry, losing).Balanced()
    {
      var item := Item(slots[i], entry);
      var was := multiset(Items(slots[i], held[i]));
      var kept := if losing then [] else held[i];
      PendingUpdate(slots, held, i, kept + [entry]);
      assert Items(slots[i], kept + [entry]) == Items(slots[i], kept) + [item];
      Joins(Items(slots[i], kept), [item]);
      Joins(accepted, [item]);
      var after := Pending(slots, held[i := kept + [entry]]);
      assert Items(slots[i], []) == [];
      var gone := if losing then was else multiset{};
      assert was == multiset(Items(slots[i], kept)) + gone;
      Replaces(after, Pending(slots, held), multiset(Items(slots[i], kept)), gone, multiset{item});
      Gains(multiset(Flat(events)), after, Pending(slots, held), lost, gone, multiset{item});
    }
  }

  /** Some buffers have left as batches, and nothing else has happened. */
  ghost predicate Sheds(before: Ledger, after: Ledger) {
    && after.slots == before.slots && after.accepted == before.accepted && after.lost == before.lost
    && |after.held| == |before.held|
    && (forall i :: 0 <= i < |before.held| ==> after.held[i] == before.held[i] || after.held[i] == [])
    && before.events <= after.events
  }

  /** A flush of one buffer, or nothing at all. */
  lemma ShedsSelf(before: Ledger, i: nat, live: bool)
    requires i < |before.held| == |before.slots|
    ensures Sheds(before, before) && Sheds(before, before.Flushing(i, live))
  {}

  lemma ShedsNothing(ledger: Ledger)
    ensures Sheds(ledger, ledger)
  {}

  lemma ShedsKeeps(before: Ledger, after: Ledger)
    requires Sheds(before, after)
    ensures after.slots == before.slots && after.accepted == before.accepted && after.lost == before.lost
  {}

  lemma ShedsMore(a: Ledger, b: Ledger, c: Ledger)
    requires Sheds(a, b) && Sheds(b, c)
    ensures Sheds(a, c)
  {}

  lemma FlushingIsSound(ledger: Ledger, config: Config, next: int, i: nat, live: bool)
    requires ledger.Sound(config, next) && i < |ledger.held| == |ledger.slots|
    requires WellBatched(config.policy, Batch(ledger.slots[i], live, ledger.held[i])) || ledger.held[i] == []
    ensures ledger.Flushing(i, live).Sound(config, next)
  {
    hide WellBatched, Configured, Ledger.Balanced, Ledger.Sequenced;
    ledger.FlushingBalances(i, live);
    FlushingStaysSequenced(ledger, next, i, live);
    if ledger.held[i] != [] { EventsAppend(ledger.events, Batch(ledger.slots[i], live, ledger.held[i])); }
  }

  lemma EventsAppend(events: seq<Event>, event: Event)
    ensures forall e :: e in events + [event] <==> e in events || e == event
  {}

  lemma FlushingStaysSequenced(ledger: Ledger, next: int, i: nat, live: bool)
    requires ledger.Sequenced(next) && i < |ledger.held| == |ledger.slots|
    ensures ledger.Flushing(i, live).Sequenced(next)
  {}

  lemma AcceptingStaysSequenced(ledger: Ledger, next: int, i: nat, entry: Entry, losing: bool)
    requires ledger.Sequenced(next) && i < |ledger.held| == |ledger.slots| && entry.sequence == next
    ensures ledger.Accepting(i, entry, losing).Sequenced(next + 1)
  {}

  lemma AcceptingIsSound(ledger: Ledger, config: Config, next: int, i: nat, entry: Entry, losing: bool)
    requires ledger.Sound(config, next) && i < |ledger.held| == |ledger.slots| && entry.sequence == next
    requires losing ==> !ledger.slots[i].keepRaw
    ensures ledger.Accepting(i, entry, losing).Sound(config, next + 1)
  {
    hide WellBatched, Configured, Ledger.Balanced, Ledger.Sequenced;
    ledger.AcceptingBalances(i, entry, losing);
    AcceptingStaysSequenced(ledger, next, i, entry, losing);
  }

  /** A batch stands in the stream as one chunk or none, and as what was asked for has it. */
  ghost predicate RendersAsAsked(config: Config, event: Event) {
    event.Batch? ==>
      exists chunks ::
        && Render(event) == Messages(chunks)
        && Sends(config.asked, config.unmatched, event.slot.info, event.slot.matched, event.live, event.entries, chunks)
  }

  lemma BatchesRenderAsAsked(ledger: Ledger, config: Config, next: int)
    requires ledger.Sound(config, next)
    ensures forall event :: event in ledger.events ==> RendersAsAsked(config, event)
  {
    hide Sends, Messages, Forwarded, ChunkOf, LensesFor, Ledger.Balanced, Ledger.Sequenced;
    forall event | event in ledger.events && event.Batch? ensures RendersAsAsked(config, event) {
      var slot := event.slot;
      assert slot in ledger.slots && Configured(config, slot) && WellBatched(config.policy, event);
      ForwardsAsAsked(config.asked, config.unmatched, slot.info, slot.matched, event.live, event.entries);
      var chunks := Forwarded(slot, ChunkOf(slot, event.live, event.entries));
      assert Render(event) == Messages(chunks);
    }
  }

  lemma SoundLater(ledger: Ledger, config: Config, next: int)
    requires ledger.Sound(config, next)
    ensures ledger.Sound(config, next + 1)
  {}

  lemma HeldBefore(ledger: Ledger, config: Config, next: int, i: nat)
    requires ledger.Sound(config, next) && i < |ledger.held|
    ensures forall k :: 0 <= k < |ledger.held[i]| ==> ledger.held[i][k].sequence < next
  {}

  lemma DeclaringIsSound(ledger: Ledger, config: Config, next: int, entity: Entity)
    requires ledger.Sound(config, next)
    ensures ledger.(events := ledger.events + [Declared(entity)]).Sound(config, next)
  {
    FlatAppends(ledger.events, Declared(entity));
    assert Flat(ledger.events) + [] == Flat(ledger.events);
  }

  lemma CreatingIsSound(ledger: Ledger, config: Config, next: int, slot: Slot)
    requires ledger.Sound(config, next) && Configured(config, slot)
    ensures ledger.Creating(slot).Sound(config, next)
  {
    DeclaringIsSound(ledger, config, next, slot.info.name);
    PendingAppends(ledger.slots, ledger.held, slot);
  }

  lemma Prepends<T>(first: multiset<T>, a: multiset<T>, b: multiset<T>, c: multiset<T>, d: multiset<T>)
    requires a + b == c + d
    ensures (first + a) + b == (first + c) + d
  {
    assert (first + a) + b == first + (a + b);
  }

  lemma Joins<T>(a: seq<T>, b: seq<T>)
    ensures multiset(a + b) == multiset(a) + multiset(b)
  {}

  lemma Moves<T>(sent: multiset<T>, leaving: multiset<T>, after: multiset<T>, before: multiset<T>, lost: multiset<T>)
    requires after + leaving == before
    ensures (sent + leaving) + after + lost == sent + before + lost
  {}

  lemma Replaces<T>(after: multiset<T>, before: multiset<T>, kept: multiset<T>, losing: multiset<T>, item: multiset<T>)
    requires after + (kept + losing) == before + (kept + item)
    ensures after + losing == before + item
  {
    forall x ensures (after + losing)[x] == (before + item)[x] {
      assert (after + (kept + losing))[x] == (before + (kept + item))[x];
    }
  }

  lemma Gains<T>(sent: multiset<T>, after: multiset<T>, before: multiset<T>, lost: multiset<T>, losing: multiset<T>,
                 item: multiset<T>)
    requires after + losing == before + item
    ensures sent + after + (lost + losing) == (sent + before + lost) + item
  {
    assert sent + after + (lost + losing) == sent + lost + (after + losing);
  }
}
