/** The write path and the read path joined: a closed bag replays what was accepted, in order of
    receive time and then of writing. */
module EndToEnd {
  import opened Basics
  import opened Ordering
  import opened Recording
  import opened Forms
  import opened Topics
  import opened Ledgers
  import opened Footers
  import opened Opening
  import opened Playback
  import opened PlaybackRuns
  import Cdr
  import RoundTrip
  import StoredColumns

  // ---------------------------------------------------------------- which recordings can be replayed

  /** A recording keeps every topic replayable unless it hands its messages to the lenses with
      nothing else asked for, or drops what no lens takes. */
  predicate KeepsMessages(config: Config) {
    || Lenses !in config.asked
    || Reflected in config.asked
    || (Raw in config.asked && config.unmatched.Keep?)
  }

  lemma KeepsSlot(config: Config, info: TopicInfo, matched: bool)
    requires KeepsMessages(config)
    ensures Keeping(SlotFor(config, info, matched))
  {}

  /** That is exactly when every topic there could be of a type that reflects keeps every batch it is given,
      whether or not a lens takes it and whether or not its definition was reflected. */
  lemma KeepsMessagesExactly(config: Config, info: TopicInfo, sample: Cdr.Value)
    requires info.reflects && info.plan.Some?
    requires Cdr.WellTyped(info.plan.value, Cdr.MessageLayout(Cdr.ROOT_ID), sample)
    ensures KeepsMessages(config) <==>
              forall matched, reflected ::
                (reflected ==> Reflected in config.asked || Lenses in config.asked)
                ==> KeepsEveryBatch(SlotFor(config, info, matched), reflected)
  {
    hide KeepsEveryBatch, Cdr.WellTyped;
    forall matched, reflected | reflected ==> Reflected in config.asked || Lenses in config.asked
      ensures KeepsEveryBatch(SlotFor(config, info, matched), reflected) <==>
                && IsReplayable(Stored(config.asked, reflected, LensesFor(config.asked, config.unmatched), matched))
                && LensesFor(config.asked, config.unmatched) != Some(DropUnmatched)
    {
      KeepsEveryBatchExactly(config.asked, config.unmatched, info, reflected, matched, sample);
    }
    if !KeepsMessages(config) {
      assert !KeepsEveryBatch(SlotFor(config, info, true), true);
    }
  }

  // ---------------------------------------------------------------- rows and entries

  /** Whether a place in the file is a row some batch brought there. */
  predicate IsEntry(events: seq<Event>, id: RowId) {
    id.chunk < |events| && events[id.chunk].Batch? && id.row < |events[id.chunk].entries|
  }

  function ItemAt(events: seq<Event>, id: RowId): Item
    requires IsEntry(events, id)
  {
    Item(events[id.chunk].slot, events[id.chunk].entries[id.row])
  }

  /** The places of the rows sent, in the order they were sent. */
  function Places(events: seq<Event>): seq<RowId> {
    if events == [] then []
    else
      var c := |events| - 1;
      Places(events[..c])
      + if !events[c].Batch? then []
        else seq(|events[c].entries|, k requires 0 <= k < |events[c].entries| => RowId(c, k))
  }

  lemma {:induction false} PlacesAreEntries(events: seq<Event>)
    ensures |Places(events)| == |Flat(events)|
    ensures forall n :: 0 <= n < |Flat(events)| ==>
              IsEntry(events, Places(events)[n]) && Flat(events)[n] == ItemAt(events, Places(events)[n])
    ensures forall id :: IsEntry(events, id) ==> id in Places(events)
  {
    if events != [] {
      var c := |events| - 1;
      var before := events[..c];
      PlacesAreEntries(before);
      forall id | IsEntry(events, id) ensures id in Places(events) {
        if id.chunk == c {
          assert Places(events)[|Places(before)| + id.row] == id;
        } else {
          assert IsEntry(before, id);
        }
      }
      forall n | 0 <= n < |Flat(before)|
        ensures IsEntry(events, Places(events)[n]) && Flat(events)[n] == ItemAt(events, Places(events)[n])
      {
        assert IsEntry(before, Places(before)[n]);
      }
    }
  }

  lemma InTwice<T>(s: seq<T>, i: nat, j: nat)
    requires i < j < |s| && s[i] == s[j]
    ensures multiset(s)[s[i]] >= 2
  {
    assert s == s[..j] + s[j..];
    assert s[i] in s[..j] && s[i] in s[j..];
  }

  lemma {:induction false} InOnce(items: seq<Item>)
    requires forall i, j :: 0 <= i < j < |items| ==> items[i].entry.sequence < items[j].entry.sequence
    ensures forall item :: item in items ==> multiset(items)[item] == 1
  {
    if items != [] {
      var last := |items| - 1;
      InOnce(items[..last]);
      assert items == items[..last] + [items[last]];
      assert items[last] !in items[..last];
    }
  }

  /** What is left of the accepted messages once those lost are taken out, by place. */
  ghost function Survivors(ledger: Ledger): set<nat> {
    set i: nat | i < |ledger.accepted| && ledger.accepted[i] !in ledger.lost
  }

  /** The rows sent are the messages that survived, each once. */
  lemma SentSurvives(ledger: Ledger, config: Config, next: int, id: RowId)
    requires ledger.Sound(config, next) && IsEntry(ledger.events, id)
    ensures exists i :: i in Survivors(ledger) && ledger.accepted[i] == ItemAt(ledger.events, id)
    ensures forall other :: IsEntry(ledger.events, other) && other != id
              ==> ItemAt(ledger.events, other) != ItemAt(ledger.events, id)
  {
    hide WellBatched, Configured, Places, Flat, Pending;
    var events, item := ledger.events, ItemAt(ledger.events, id);
    PlacesAreEntries(events);
    var n :| 0 <= n < |Places(events)| && Places(events)[n] == id;
    assert Flat(events)[n] == item;
    InOnce(ledger.accepted);
    assert item in multiset(Flat(events)) && item in multiset(ledger.accepted);
    assert multiset(ledger.accepted)[item] == 1;
    var i :| 0 <= i < |ledger.accepted| && ledger.accepted[i] == item;
    assert i in Survivors(ledger);
    forall other | IsEntry(events, other) && other != id ensures ItemAt(events, other) != item {
      var m :| 0 <= m < |Places(events)| && Places(events)[m] == other;
      if Flat(events)[m] == item { InTwice(Flat(events), if m < n then m else n, if m < n then n else m); }
    }
  }

  /** With nothing left in the buffers, every message that survived was sent. */
  lemma SurvivorSent(ledger: Ledger, config: Config, next: int, i: nat) returns (id: RowId)
    requires ledger.Sound(config, next) && (forall j :: 0 <= j < |ledger.held| ==> ledger.held[j] == [])
    requires i in Survivors(ledger)
    ensures IsEntry(ledger.events, id) && ItemAt(ledger.events, id) == ledger.accepted[i]
  {
    var events, item := ledger.events, ledger.accepted[i];
    PendingNothing(ledger.slots, ledger.held);
    assert item in multiset(ledger.accepted);
    assert item in multiset(Flat(events));
    var n :| 0 <= n < |Flat(events)| && Flat(events)[n] == item;
    PlacesAreEntries(events);
    id := Places(events)[n];
  }

  // ---------------------------------------------------------------- the bag

  /** A closed recording and the bag a reader makes of it: topics are as they were declared, and no
      two declarations of one name differ. */
  ghost predicate Published(ledger: Ledger, config: Config, next: int, bag: Bag) {
    && ledger.Sound(config, next)
    && (forall i :: 0 <= i < |ledger.held| ==> ledger.held[i] == [])
    && bag.file == RenderAll(ledger.events)
    && (forall entity :: entity in bag.topicIndex ==> bag.topicIndex[entity] < |bag.topics|)
    && (forall slot :: slot in ledger.slots ==>
          slot.info.name in bag.topicIndex && bag.topics[bag.topicIndex[slot.info.name]] == slot.info)
  }

  lemma {:induction false} OneChunkEach(events: seq<Event>)
    requires forall event :: event in events ==> |Render(event)| == 1
    ensures |RenderAll(events)| == |events|
    ensures forall c :: 0 <= c < |events| ==> RenderAll(events)[c] == Render(events[c])[0]
  {
    hide Render;
    if events != [] {
      var c := |events| - 1;
      OneChunkEach(events[..c]);
      assert events[c] in events;
    }
  }

  /** The chunk a batch leaves in the file, when the lenses keep it. */
  function SentChunk(event: Event): Chunk
    requires event.Batch? && Keeping(event.slot)
  {
    Forwarded(event.slot, ChunkOf(event.slot, event.live, event.entries))[0]
  }

  /** What a batch that is kept looks like in the file. */
  lemma SentBatch(config: Config, event: Event)
    requires event.Batch? && Keeping(event.slot) && WellBatched(config.policy, event)
    ensures Render(event) == [Data(SentChunk(event))]
    ensures var chunk := SentChunk(event);
            && chunk.WellFormed() && !chunk.isStatic && chunk.entity == event.slot.info.name
            && HoldsMessages(event.slot.info, chunk) && chunk.recv.Some? && chunk.numRows == |event.entries|
            && forall k :: 0 <= k < |event.entries| ==>
                 && chunk.Key(k) == SortKey(event.entries[k].recv, event.entries[k].sequence)
                 && chunk.Send(k) == event.entries[k].send
                 && Payload(event.slot.info, chunk, k) == Replayed(event.slot, event.entries[k])
                 && Replayed(event.slot, event.entries[k]).Ok?
  {
    KeepingSurvives(event.slot, event.live, event.entries);
  }

  lemma KeptSlot(ledger: Ledger, config: Config, next: int, event: Event)
    requires ledger.Sound(config, next) && KeepsMessages(config) && event in ledger.events && event.Batch?
    ensures Keeping(event.slot) && WellBatched(config.policy, event) && event.slot in ledger.slots
  {
    hide WellBatched, Ledger.Balanced, Ledger.Sequenced, LensesFor;
    assert event.slot in ledger.slots;
    KeepsSlot(config, event.slot.info, event.slot.matched);
  }

  /** Message `c` of the file is what event `c` put there. */
  lemma FileIsEvents(ledger: Ledger, config: Config, next: int, bag: Bag, c: nat)
    requires Published(ledger, config, next, bag) && KeepsMessages(config)
    ensures |bag.file| == |ledger.events|
    ensures c < |bag.file| ==>
              var event := ledger.events[c];
              match event
              case Declared(entity) => bag.file[c] == Data(Declaration(entity))
              case Batch(slot, _, _) =>
                && Keeping(slot) && WellBatched(config.policy, event) && slot in ledger.slots
                && bag.file[c] == Data(SentChunk(event))
  {
    forall event | event in ledger.events
      ensures |Render(event)| == 1
      ensures event.Batch? ==> Keeping(event.slot) && WellBatched(config.policy, event) && event.slot in ledger.slots
      ensures event.Batch? ==> Render(event) == [Data(SentChunk(event))]
    {
      if event.Batch? {
        KeptSlot(ledger, config, next, event);
        SentBatch(config, event);
      }
    }
    hide Ledger.Sound, WellBatched, Keeping, SentChunk, Render;
    OneChunkEach(ledger.events);
    if c < |bag.file| {
      assert ledger.events[c] in ledger.events;
      assert bag.file[c] == Render(ledger.events[c])[0];
      RenderDeclared(ledger.events[c]);
    }
  }

  lemma RenderDeclared(event: Event)
    ensures event.Declared? ==> Render(event) == [Data(Declaration(event.entity))]
  {}

  /** A row of the bag is a row of a batch. */
  lemma RowIsEntry(ledger: Ledger, config: Config, next: int, bag: Bag, id: RowId)
    requires Published(ledger, config, next, bag) && KeepsMessages(config)
    ensures bag.IsRow(id) <==> IsEntry(ledger.events, id)
    ensures bag.IsRow(id) ==>
              var item := ItemAt(ledger.events, id);
              && bag.KeyAt(id) == SortKey(item.entry.recv, item.entry.sequence)
              && bag.TopicAt(id) == item.slot.info
              && bag.file[id.chunk].chunk.Send(id.row) == item.entry.send
              && bag.file[id.chunk].chunk.WellFormed() && bag.file[id.chunk].chunk.recv.Some?
              && Payload(item.slot.info, bag.file[id.chunk].chunk, id.row) == Replayed(item.slot, item.entry)
              && Replayed(item.slot, item.entry).Ok?
  {
    FileIsEvents(ledger, config, next, bag, id.chunk);
    if id.chunk < |bag.file| && ledger.events[id.chunk].Batch? {
      SentBatch(config, ledger.events[id.chunk]);
    }
    hide Ledger.Sound, WellBatched, Keeping, SentChunk, Payload, Replayed, RenderAll;
  }

  lemma PayloadHasForm(info: TopicInfo, chunk: Chunk, row: nat)
    requires chunk.WellFormed() && row < chunk.numRows && Payload(info, chunk, row).Ok?
    ensures Fills(chunk, ChunkIndexes.Blobs, row) || (info.reflects && Fills(chunk, ChunkIndexes.Structs, row))
  {}

  /** Whatever was written, the bag is one the reader can open, every row of it has a form, and every
      row can be played. */
  lemma BagIsSound(ledger: Ledger, config: Config, next: int, bag: Bag)
    requires Published(ledger, config, next, bag) && KeepsMessages(config)
    ensures bag.Valid() && Formed(bag) && Timed(bag) && Playable(bag, bag.AllRows())
  {
    forall c: nat | c < |bag.file| && bag.file[c].Data?
      ensures bag.file[c].chunk.WellFormed()
      ensures bag.IsMessageChunk(c) ==> bag.file[c].chunk.recv.Some?
    {
      FileIsEvents(ledger, config, next, bag, c);
      if ledger.events[c].Batch? { SentBatch(config, ledger.events[c]); }
    }
    assert bag.Valid();
    forall id | bag.IsRow(id)
      ensures bag.PayloadAt(id).Ok?
      ensures Fills(bag.file[id.chunk].chunk, ChunkIndexes.Blobs, id.row)
           || (bag.TopicAt(id).reflects && Fills(bag.file[id.chunk].chunk, ChunkIndexes.Structs, id.row))
    {
      RowIsEntry(ledger, config, next, bag, id);
      PayloadHasForm(bag.TopicAt(id), bag.file[id.chunk].chunk, id.row);
    }
  }

  /** The structs of a written bag are of their topic's type, so the columnar encoder takes every one of
      them: what `StoredColumns.ReadPayload` asks for. */
  lemma StructsAreTyped(ledger: Ledger, config: Config, next: int, bag: Bag, id: RowId)
    requires Published(ledger, config, next, bag) && KeepsMessages(config) && bag.IsRow(id)
    requires var plan := bag.TopicAt(id).plan;
             plan.Some? ==> plan.value.Valid() && StoredColumns.Storable(plan.value)
    ensures StoredColumns.TypedStructs(bag.TopicAt(id), bag.file[id.chunk].chunk)
  {
    FileIsEvents(ledger, config, next, bag, id.chunk);
    RowIsEntry(ledger, config, next, bag, id);
    SentStructs(config, ledger.events[id.chunk]);
    hide Ledger.Sound, WellBatched, Keeping, SentChunk, RenderAll;
  }

  lemma SentStructs(config: Config, event: Event)
    requires event.Batch? && Keeping(event.slot) && WellBatched(config.policy, event)
    ensures var chunk, plan := SentChunk(event), event.slot.info.plan;
            chunk.structs.Some? && plan.Some? ==>
              forall i :: 0 <= i < |chunk.structs.value| && chunk.structs.value[i].Some? ==>
                Cdr.WellTyped(plan.value, Cdr.MessageLayout(Cdr.ROOT_ID), chunk.structs.value[i].value)
  {
    var chunk := SentChunk(event);
    if chunk.structs.Some? {
      assert chunk.structs.value == ValueColumn(event.entries);
      assert forall i :: 0 <= i < |event.entries| ==> Plausible(event.slot, event.entries[i]);
    }
  }

  /** Messages as rosbag2 receives them: each topic's in order of receive time, none at a sentinel. */
  ghost predicate Timely(accepted: seq<Item>) {
    && (forall i :: 0 <= i < |accepted| ==> I64_MIN < accepted[i].entry.recv < I64_MAX)
    && (forall i, j :: 0 <= i < j < |accepted| && accepted[i].slot.info.name == accepted[j].slot.info.name
          ==> accepted[i].entry.recv <= accepted[j].entry.recv)
  }

  /** Two rows of the bag, by the messages they hold. */
  lemma RowsCompare(ledger: Ledger, config: Config, next: int, bag: Bag, a: RowId, b: RowId)
    requires Published(ledger, config, next, bag) && KeepsMessages(config) && Timely(ledger.accepted)
    requires bag.IsRow(a) && bag.IsRow(b) && a != b
    ensures bag.KeyAt(a) != bag.KeyAt(b) && I64_MIN < bag.KeyAt(a).recv < I64_MAX
    ensures a.chunk == b.chunk && a.row < b.row ==> KeyLess(bag.KeyAt(a), bag.KeyAt(b))
  {
    RowIsEntry(ledger, config, next, bag, a);
    RowIsEntry(ledger, config, next, bag, b);
    var i := HeldBy(ledger, config, next, bag, a);
    var j := HeldBy(ledger, config, next, bag, b);
    SentSurvives(ledger, config, next, a);
    SequencesDiffer(ledger, config, next, i, j);
    SequencesDiffer(ledger, config, next, j, i);
    if a.chunk == b.chunk && a.row < b.row { BatchInOrder(ledger, config, next, a, b); }
    hide Published, Bag.KeyAt, Bag.IsRow, Ledger.Sound, Survivors, Bag.TopicAt;
  }

  lemma HeldBy(ledger: Ledger, config: Config, next: int, bag: Bag, id: RowId) returns (i: nat)
    requires Published(ledger, config, next, bag) && IsEntry(ledger.events, id)
    ensures i in Survivors(ledger) && i < |ledger.accepted| && ledger.accepted[i] == ItemAt(ledger.events, id)
  {
    SentSurvives(ledger, config, next, id);
    i :| i in Survivors(ledger) && ledger.accepted[i] == ItemAt(ledger.events, id);
  }

  lemma BatchInOrder(ledger: Ledger, config: Config, next: int, a: RowId, b: RowId)
    requires ledger.Sound(config, next) && IsEntry(ledger.events, a) && IsEntry(ledger.events, b)
    requires a.chunk == b.chunk && a.row < b.row
    ensures ItemAt(ledger.events, a).entry.sequence < ItemAt(ledger.events, b).entry.sequence
    ensures ItemAt(ledger.events, a).slot == ItemAt(ledger.events, b).slot
  {
    hide Ledger.Balanced, Ledger.Sequenced, Configured, Covered, Bounded;
    assert WellBatched(config.policy, ledger.events[a.chunk]);
  }

  lemma SequencesDiffer(ledger: Ledger, config: Config, next: int, i: nat, j: nat)
    requires ledger.Sound(config, next) && i < |ledger.accepted| && j < |ledger.accepted|
    ensures i < j <==> ledger.accepted[i].entry.sequence < ledger.accepted[j].entry.sequence
  {}

  lemma BagIsOrdered(ledger: Ledger, config: Config, next: int, bag: Bag)
    requires Published(ledger, config, next, bag) && KeepsMessages(config) && Timely(ledger.accepted)
    ensures bag.Ordered()
  {
    forall a, b | bag.IsRow(a) && bag.IsRow(b) && a != b
      ensures bag.KeyAt(a) != bag.KeyAt(b)
      ensures a.chunk == b.chunk && a.row < b.row ==> KeyLess(bag.KeyAt(a), bag.KeyAt(b))
    {
      RowsCompare(ledger, config, next, bag, a, b);
    }
    forall a | bag.IsRow(a) ensures I64_MIN < bag.KeyAt(a).recv < I64_MAX {
      RowIsEntry(ledger, config, next, bag, a);
      SentSurvives(ledger, config, next, a);
    }
  }

  // ---------------------------------------------------------------- replay

  ghost function AcceptedKeys(accepted: seq<Item>): map<nat, SortKey> {
    map i: nat | i < |accepted| :: SortKey(accepted[i].entry.recv, accepted[i].entry.sequence)
  }

  /** A message as it is to be replayed. */
  function MessageOf(item: Item): Message {
    Message(item.slot.info.name, item.entry.recv, item.entry.send,
            match Replayed(item.slot, item.entry) case Ok(data) => data case Err(_) => [])
  }

  /** The messages that survived, by place, in order of receive time and then of writing. */
  ghost function Arranged(ledger: Ledger): seq<nat> {
    if Distinct(AcceptedKeys(ledger.accepted))
    then Playlist(AcceptedKeys(ledger.accepted), false, Survivors(ledger))
    else []
  }

  /** What a drain is to deliver. Neither the batches nor the times of the flushes come into it. */
  ghost function Expected(ledger: Ledger): seq<Response> {
    var order := Arranged(ledger);
    seq(|order|, n requires 0 <= n < |order| =>
      if order[n] < |ledger.accepted| then Got(MessageOf(ledger.accepted[order[n]])) else Exhausted)
  }

  lemma AcceptedKeysDiffer(ledger: Ledger, config: Config, next: int)
    requires ledger.Sound(config, next)
    ensures Distinct(AcceptedKeys(ledger.accepted))
  {
    hide WellBatched, Configured, Ledger.Balanced;
    forall i, j | i in AcceptedKeys(ledger.accepted) && j in AcceptedKeys(ledger.accepted) && i != j
      ensures AcceptedKeys(ledger.accepted)[i] != AcceptedKeys(ledger.accepted)[j]
    {
      SequencesDiffer(ledger, config, next, i, j);
      SequencesDiffer(ledger, config, next, j, i);
    }
  }

  /** The message a row holds, by place. */
  ghost function PlaceOf(ledger: Ledger, id: RowId): nat {
    if IsEntry(ledger.events, id) && exists i :: i in Survivors(ledger)
                                         && ledger.accepted[i] == ItemAt(ledger.events, id)
    then var i :| i in Survivors(ledger) && ledger.accepted[i] == ItemAt(ledger.events, id); i
    else 0
  }

  lemma RowsMatchSurvivors(ledger: Ledger, config: Config, next: int, bag: Bag) returns (partner: map<RowId, nat>)
    requires Published(ledger, config, next, bag) && KeepsMessages(config)
    ensures Matched(bag.Keys(), AcceptedKeys(ledger.accepted), bag.AllRows(), Survivors(ledger), partner)
    ensures forall id :: bag.IsRow(id) ==> partner[id] == PlaceOf(ledger, id)
  {
    partner := map id | id in bag.AllRows() :: PlaceOf(ledger, id);
    forall id | bag.IsRow(id)
      ensures PlaceOf(ledger, id) in Survivors(ledger)
      ensures bag.KeyAt(id) == AcceptedKeys(ledger.accepted)[PlaceOf(ledger, id)]
    {
      RowIsEntry(ledger, config, next, bag, id);
      SentSurvives(ledger, config, next, id);
    }
    forall i | i in Survivors(ledger) ensures exists id :: id in bag.AllRows() && partner[id] == i {
      var id := SurvivorSent(ledger, config, next, i);
      RowIsEntry(ledger, config, next, bag, id);
      SentSurvives(ledger, config, next, id);
      SamePlace(ledger, config, next, i, PlaceOf(ledger, id));
      assert id in bag.AllRows() && partner[id] == i;
    }
  }

  lemma SamePlace(ledger: Ledger, config: Config, next: int, i: nat, j: nat)
    requires ledger.Sound(config, next) && i < |ledger.accepted| && j < |ledger.accepted|
    requires ledger.accepted[i] == ledger.accepted[j]
    ensures i == j
  {
    SequencesDiffer(ledger, config, next, i, j);
    SequencesDiffer(ledger, config, next, j, i);
  }

  lemma RowHoldsMessage(ledger: Ledger, config: Config, next: int, bag: Bag, id: RowId)
    requires Published(ledger, config, next, bag) && KeepsMessages(config) && bag.IsRow(id) && bag.Valid()
    ensures PlaceOf(ledger, id) < |ledger.accepted|
    ensures Reading(bag, id) == Got(MessageOf(ledger.accepted[PlaceOf(ledger, id)]))
  {
    RowIsEntry(ledger, config, next, bag, id);
    SentSurvives(ledger, config, next, id);
  }

  /** Draining a closed bag delivers exactly the messages accepted, but for those lost, in order of
      receive time and then of writing, with or without a footer. */
  lemma ReplayIsAccepted(ledger: Ledger, config: Config, next: int, bag: Bag, indexed: bool)
    requires Published(ledger, config, next, bag) && KeepsMessages(config) && Timely(ledger.accepted)
    ensures bag.Valid() && bag.Ordered()
    ensures |bag.AllRows()| == |Survivors(ledger)|
    ensures Run(bag, indexed, Cursor(false, [], Start), Reads(|Survivors(ledger)|) + [ReadNext]).1
         == Expected(ledger) + [Exhausted]
  {
    hide *;
    BagIsSound(ledger, config, next, bag);
    BagIsOrdered(ledger, config, next, bag);
    AllAhead(bag);
    ListsMatch(ledger, config, next, bag);
    DrainDelivers(bag, indexed, Cursor(false, [], Start));
  }

  lemma AllAhead(bag: Bag)
    requires bag.Ordered()
    ensures var start := Cursor(false, [], Start);
            Ahead(bag, start) == bag.AllRows() && Upcoming(bag, start) == Playlist(bag.Keys(), false, bag.AllRows())
    ensures forall n :: 0 <= n < |Upcoming(bag, Cursor(false, [], Start))|
                ==> bag.IsRow(Upcoming(bag, Cursor(false, [], Start))[n])
  {
    var start := Cursor(false, [], Start);
    assert Ahead(bag, start) == bag.AllRows();
    var list := Upcoming(bag, start);
    forall n | 0 <= n < |list| ensures bag.IsRow(list[n]) { assert list[n] in list; }
  }

  /** The list of rows ahead of a fresh reader, and the list of messages to be delivered. */
  lemma ListsMatch(ledger: Ledger, config: Config, next: int, bag: Bag)
    requires Published(ledger, config, next, bag) && KeepsMessages(config)
    requires bag.Valid() && bag.Ordered()
    ensures |bag.AllRows()| == |Upcoming(bag, Cursor(false, [], Start))| == |Survivors(ledger)|
    ensures Delivered(bag, Upcoming(bag, Cursor(false, [], Start))) == Expected(ledger)
  {
    hide *;
    PublishedIsSound(ledger, config, next, bag);
    AcceptedKeysDiffer(ledger, config, next);
    KeysOfAll(bag, ledger);
    AllAhead(bag);
    var partner := RowsMatchSurvivors(ledger, config, next, bag);
    PlaylistsMatch(bag.Keys(), AcceptedKeys(ledger.accepted), false, bag.AllRows(), Survivors(ledger), partner);
    ArrangedIsPlaylist(ledger);
    var list := Upcoming(bag, Cursor(false, [], Start));
    forall n | 0 <= n < |list| ensures Delivered(bag, list)[n] == Expected(ledger)[n] {
      RowHoldsMessage(ledger, config, next, bag, list[n]);
      ExpectedAt(ledger, n);
    }
  }

  lemma KeysOfAll(bag: Bag, ledger: Ledger)
    ensures bag.AllRows() <= bag.Keys().Keys && (bag.Ordered() ==> Distinct(bag.Keys()))
    ensures Survivors(ledger) <= AcceptedKeys(ledger.accepted).Keys
  {}

  lemma ArrangedIsPlaylist(ledger: Ledger)
    requires Distinct(AcceptedKeys(ledger.accepted)) && Survivors(ledger) <= AcceptedKeys(ledger.accepted).Keys
    ensures Arranged(ledger) == Playlist(AcceptedKeys(ledger.accepted), false, Survivors(ledger))
    ensures |Expected(ledger)| == |Arranged(ledger)| == |Survivors(ledger)|
  {}

  lemma ExpectedAt(ledger: Ledger, n: nat)
    requires n < |Arranged(ledger)| && Arranged(ledger)[n] < |ledger.accepted|
    ensures n < |Expected(ledger)| && Expected(ledger)[n] == Got(MessageOf(ledger.accepted[Arranged(ledger)[n]]))
  {
    hide Arranged, MessageOf;
  }

  lemma PublishedIsSound(ledger: Ledger, config: Config, next: int, bag: Bag)
    requires Published(ledger, config, next, bag)
    ensures ledger.Sound(config, next)
  {}

  // ---------------------------------------------------------------- what it takes to replay the same

  /** The two recordings were given the same messages in the same order. */
  ghost predicate SameMessages(a: seq<Item>, b: seq<Item>) {
    && |a| == |b|
    && forall i :: 0 <= i < |a| ==>
         a[i].entry.sequence == b[i].entry.sequence && MessageOf(a[i]) == MessageOf(b[i])
  }

  /** Flush limits, the clock, the sweeps, the forms kept and whether there is a footer are all
      unobservable: recordings of the same messages that lost the same ones replay the same. */
  lemma ScheduleIsUnobservable(
      a: Ledger, configA: Config, nextA: int, bagA: Bag, indexedA: bool,
      b: Ledger, configB: Config, nextB: int, bagB: Bag, indexedB: bool)
    requires Published(a, configA, nextA, bagA) && KeepsMessages(configA) && Timely(a.accepted)
    requires Published(b, configB, nextB, bagB) && KeepsMessages(configB) && Timely(b.accepted)
    requires SameMessages(a.accepted, b.accepted) && Survivors(a) == Survivors(b)
    ensures bagA.Valid() && bagA.Ordered() && bagB.Valid() && bagB.Ordered()
    ensures var calls := Reads(|Survivors(a)|) + [ReadNext];
            Run(bagA, indexedA, Cursor(false, [], Start), calls).1
                == Run(bagB, indexedB, Cursor(false, [], Start), calls).1
  {
    SameExpected(a, b);
    hide *;
    ReplayIsAccepted(a, configA, nextA, bagA, indexedA);
    ReplayIsAccepted(b, configB, nextB, bagB, indexedB);
  }

  lemma SameExpected(a: Ledger, b: Ledger)
    requires SameMessages(a.accepted, b.accepted) && Survivors(a) == Survivors(b)
    ensures Expected(a) == Expected(b)
  {
    hide Survivors, Replayed;
    forall i | 0 <= i < |a.accepted| ensures AcceptedKeys(a.accepted)[i] == AcceptedKeys(b.accepted)[i] {
      assert MessageOf(a.accepted[i]).recv == MessageOf(b.accepted[i]).recv;
    }
    assert AcceptedKeys(a.accepted) == AcceptedKeys(b.accepted);
    assert Arranged(a) == Arranged(b);
  }

  /** A recording that keeps raw bytes loses no message, whatever its decoders do. */
  lemma KeepingRawLosesNothing(ledger: Ledger, config: Config, next: int)
    requires ledger.Sound(config, next) && Raw in config.asked
    ensures ledger.lost == multiset{}
    ensures forall i: nat :: i in Survivors(ledger) <==> i < |ledger.accepted|
  {
    hide WellBatched, Ledger.Sequenced;
    forall item | item in ledger.accepted ensures item !in ledger.lost {
      assert Configured(config, item.slot);
    }
    assert forall item :: item in ledger.lost ==> item in multiset(ledger.accepted);
  }

  /** A decoder that reads what the mirror decoder reads, and only canonical messages. */
  predicate Faithful(item: Item) {
    item.entry.value.Some? ==>
      && item.slot.info.plan.Some? && item.slot.info.plan.value.Valid()
      && Cdr.Canonical(item.slot.info.plan.value, item.entry.cdr)
      && item.entry.value == Cdr.DecodeRow(item.slot.info.plan.value, item.entry.cdr)
  }

  /** A message replays byte for byte as it arrived, from its own bytes or from its struct. */
  lemma ReplaysOwnBytes(item: Item)
    requires Faithful(item) || item.slot.keepRaw
    ensures MessageOf(item).data == item.entry.cdr
  {
    if !item.slot.keepRaw && item.entry.value.Some? {
      RoundTrip.EncodeInvertsDecode(item.slot.info.plan.value, item.entry.cdr);
    }
  }
}
