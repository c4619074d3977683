/** Writing a bag: its topics, and the stream they share (`writer.rs`). */
module Writers {
  import opened Basics
  import opened Recording
  import opened Forms
  import opened Pipelines
  import opened Topics
  import opened Ledgers
  import Cdr

  const METADATA := "metadata"

  ghost function PipelinesOf(topics: seq<Topic>): set<Pipeline> {
    set i | 0 <= i < |topics| :: topics[i].pipeline
  }

  ghost function RowsOf(topics: seq<Topic>): set<Rows> {
    set i | 0 <= i < |topics| :: topics[i].pipeline.rows
  }

  /** No two topics share a buffer. */
  ghost predicate Apart(topics: seq<Topic>) {
    forall i, j :: 0 <= i < j < |topics| ==>
      && topics[i] != topics[j] && topics[i].pipeline != topics[j].pipeline
      && topics[i].pipeline.rows != topics[j].pipeline.rows
  }

  /** A topic stands where the ledger has it. */
  ghost predicate Fits(topic: Topic, policy: FlushPolicy, slot: Slot, held: seq<Entry>, now: nat)
    reads topic, topic.pipeline, topic.pipeline.rows
  {
    && topic.Valid()
    && topic.policy == policy
    && topic.pipeline.slot == slot
    && topic.pipeline.buffered == held
    && topic.lastFlush <= now
  }

  ghost predicate AllFit(topics: seq<Topic>, policy: FlushPolicy, slots: seq<Slot>, held: seq<seq<Entry>>, now: nat)
    requires |topics| == |slots| == |held|
    reads topics, PipelinesOf(topics), RowsOf(topics)
  {
    forall i :: 0 <= i < |topics| ==> Fits(topics[i], policy, slots[i], held[i], now)
  }

  /** Every row of a buffer arrived within `limit` before `time`, or after it. */
  ghost predicate Recent(held: seq<Entry>, time: int, limit: nat) {
    forall k :: 0 <= k < |held| ==> time < held[k].arrived + limit
  }

  ghost predicate OnTime(policy: FlushPolicy, held: seq<seq<Entry>>, time: int) {
    policy.maxLatency.Some? ==>
      forall i :: 0 <= i < |held| ==>
        Recent(held[i], time, policy.maxLatency.value) && (policy.maxLatency.value == 0 ==> held[i] == [])
  }

  /** By `checked`, no row had waited more than twice one tick less than the limit. */
  ghost predicate UnderTwice(held: seq<Entry>, checked: int, limit: nat) {
    forall k :: 0 <= k < |held| ==> limit > 0 && checked - held[k].arrived <= 2 * (limit - 1)
  }

  lemma RecentIsUnderTwice(held: seq<Entry>, sweep: int, checked: int, limit: nat)
    requires Recent(held, sweep, limit) && (limit == 0 ==> held == [])
    requires checked <= sweep || checked - sweep < limit
    ensures UnderTwice(held, checked, limit)
  {}

  /** A buffer is as it was, or was flushed once its latency limit had passed. */
  predicate Stays(policy: FlushPolicy, held: seq<Entry>, flushed: nat, later: seq<Entry>, reflushed: nat) {
    || (later == held && reflushed == flushed)
    || (later == [] && policy.maxLatency.Some? && reflushed >= flushed + policy.maxLatency.value)
  }

  /** The rows a buffer holds once it has one more reach a limit, or its latency limit has passed. */
  predicate Due(policy: FlushPolicy, held: seq<Entry>, flushed: nat, reflushed: nat) {
    !Within(policy, held) || (policy.maxLatency.Some? && reflushed >= flushed + policy.maxLatency.value)
  }

  /** No buffer has changed but one. */
  predicate SameBut(held: seq<seq<Entry>>, later: seq<seq<Entry>>, i: nat) {
    |later| == |held| && forall j :: 0 <= j < |held| && j != i ==> later[j] == held[j]
  }

  lemma StillDue(policy: FlushPolicy, held: seq<Entry>, flushed: nat, now: seq<Entry>, reflushed: nat,
                 later: seq<Entry>, last: nat)
    requires (now == held && reflushed == flushed) || (now == [] && Due(policy, held, flushed, reflushed))
    requires Stays(policy, now, reflushed, later, last)
    ensures (later == held && last == flushed) || Due(policy, held, flushed, last)
  {}

  /** The books once a message is written, and its topic possibly flushed on the spot. */
  lemma AfterWriting(ledger: Ledger, config: Config, sequence: int, i: nat, entry: Entry, losing: bool, flushed: bool,
                     live: bool, sweep: nat)
    returns (after: Ledger)
    requires ledger.Sound(config, sequence) && OnTime(config.policy, ledger.held, sweep)
    requires i < |ledger.held| == |ledger.slots| && entry.sequence == sequence && sweep <= entry.arrived
    requires losing ==> !ledger.slots[i].keepRaw
    requires var kept := (if losing then [] else ledger.held[i]) + [entry];
             if flushed then WellBatched(config.policy, Batch(ledger.slots[i], live, kept))
             else config.policy.maxLatency.Some? ==> config.policy.maxLatency.value > 0
    ensures after.Sound(config, sequence + 1) && OnTime(config.policy, after.held, sweep)
    ensures var accepting := ledger.Accepting(i, entry, losing);
            Sheds(accepting, after) && after == if flushed then accepting.Flushing(i, live) else accepting
    ensures var kept := (if losing then [] else ledger.held[i]) + [entry];
            && ledger.Accepting(i, entry, losing).held == ledger.held[i := kept]
            && after.slots == ledger.slots
            && after.held == ledger.held[i := if flushed then [] else kept]
            && after.events == ledger.events + if flushed then [Batch(ledger.slots[i], live, kept)] else []
  {
    hide Ledger.Sound, WellBatched;
    AcceptingIsSound(ledger, config, sequence, i, entry, losing);
    ShedsSelf(ledger.Accepting(i, entry, losing), i, live);
    after := ledger.Accepting(i, entry, losing);
    if flushed {
      FlushingIsSound(after, config, sequence + 1, i, live);
      after := after.Flushing(i, live);
    }
  }

  lemma AfterCreating(ledger: Ledger, config: Config, next: int, slot: Slot, sweep: nat) returns (after: Ledger)
    requires ledger.Sound(config, next) && OnTime(config.policy, ledger.held, sweep) && Configured(config, slot)
    ensures after == ledger.Creating(slot)
    ensures after.Sound(config, next) && OnTime(config.policy, after.held, sweep)
    ensures after.slots == ledger.slots + [slot] && after.held == ledger.held + [[]]
    ensures after.events == ledger.events + [Declared(slot.info.name)]
  {
    CreatingIsSound(ledger, config, next, slot);
    hide Ledger.Sound, Configured;
    after := ledger.Creating(slot);
  }

  lemma AfterFlushing(ledger: Ledger, config: Config, next: int, i: nat, live: bool) returns (after: Ledger)
    requires ledger.Sound(config, next) && i < |ledger.held| == |ledger.slots|
    requires ledger.held[i] != [] ==> WellBatched(config.policy, Batch(ledger.slots[i], live, ledger.held[i]))
    ensures after == ledger.Flushing(i, live) && after.Sound(config, next)
    ensures after.slots == ledger.slots && after.held == ledger.held[i := []]
    ensures after.events ==
              ledger.events + if ledger.held[i] == [] then [] else [Batch(ledger.slots[i], live, ledger.held[i])]
    ensures Sheds(ledger, after)
  {
    hide Ledger.Sound, WellBatched;
    FlushingIsSound(ledger, config, next, i, live);
    after := ledger.Flushing(i, live);
    assert ledger.held[i] == [] ==> ledger.held == ledger.held[i := []];
  }

  class Writer {
    const rec: Sink
    const clock: Clock
    const config: Config

    /** Topics in creation order; they are addressed by index. */
    var topics: seq<Topic>

    var topicIds: map<string, nat>

    /** What the next message is numbered, on whichever topic it comes. */
    var nextSequence: int

    /** When all topics were last looked through. */
    var lastSweep: nat

    var metadata: Option<string>

    ghost var ledger: Ledger

    /** The topics and the recording stand where the ledger has them, and its books are in order. */
    ghost predicate Accounted()
      reads `topics, `nextSequence, `lastSweep, `ledger, rec, clock, topics, PipelinesOf(topics), RowsOf(topics)
    {
      && Apart(topics)
      && |topics| == |ledger.slots| == |ledger.held|
      && AllFit(topics, config.policy, ledger.slots, ledger.held, clock.now)
      && rec.Valid() && rec.events == ledger.events
      && ledger.Sound(config, nextSequence)
      && lastSweep <= clock.now
    }

    /** What every call keeps, together with `Punctual`. */
    ghost predicate Valid()
      reads this, rec, clock, topics, PipelinesOf(topics), RowsOf(topics)
    {
      Accounted() && forall name :: name in topicIds ==> topicIds[name] < |topics|
    }

    /** No row still buffered had waited as long as the latency limit at the last sweep. */
    ghost predicate Punctual()
      reads `ledger, `lastSweep
    {
      OnTime(config.policy, ledger.held, lastSweep)
    }

    /** A recording with nothing in it. */
    constructor Open(rec: Sink, clock: Clock, config: Config)
      requires rec.Valid() && rec.events == []
      modifies clock
      ensures Valid() && Punctual()
      ensures this.rec == rec && this.clock == clock && this.config == config
      ensures topics == [] && topicIds == map[] && nextSequence == 0 && metadata == None
      ensures ledger == Ledger([], [], [], [], multiset{})
      ensures lastSweep == clock.now && clock.Passed()
    {
      this.rec, this.clock, this.config := rec, clock, config;
      topics, topicIds, nextSequence, metadata := [], map[], 0, None;
      var now := clock.Now();
      lastSweep := now;
      ledger := Ledger([], [], [], [], multiset{});
    }

    /** The index of a topic by that name, which is a new one unless it is being recorded already. */
    method CreateTopic(info: TopicInfo, matched: bool) returns (id: nat)
      requires Valid() && Punctual()
      modifies this, rec, clock
      ensures Valid() && Punctual()
      ensures nextSequence == old(nextSequence) && metadata == old(metadata) && lastSweep == old(lastSweep)
              && clock.Passed()
      ensures info.name in old(topicIds) ==>
                && id == old(topicIds)[info.name] && topicIds == old(topicIds)
                && ledger == old(ledger) && topics == old(topics)
      ensures info.name !in old(topicIds) ==>
                && topicIds == old(topicIds)[info.name := id]
                && id == |old(topics)|
                && |topics| == id + 1 && topics[..id] == old(topics) && !topics[id].retired
                && fresh(topics[id]) && fresh(topics[id].pipeline) && fresh(topics[id].pipeline.rows)
                && old(clock.now) <= topics[id].lastFlush <= clock.now
                && (topics[id].Decoding() <==>
                      (Reflected in config.asked || Lenses in config.asked) && info.reflects && info.plan.Some?)
                && topics[id].pipeline.slot.info == info && topics[id].pipeline.slot.matched == matched
                && (topics[id].pipeline.slot.keepRaw <==> Raw in config.asked)
                && ledger == old(ledger).Creating(SlotFor(config, info, matched))
    {
      hide Fits, Apart, Ledger.Sound, Sink.Valid, Punctual, Ledger.Creating, SlotFor, Configured;
      if info.name in topicIds {
        id := topicIds[info.name];
        return;
      }
      id := |topics|;
      AsConfigured(config, info, matched);
      AddTopic(SlotFor(config, info, matched));
      topicIds := topicIds[info.name := id];
    }

    method AddTopic(slot: Slot)
      requires Accounted() && Punctual() && Configured(config, slot)
      modifies `topics, `ledger, rec, clock
      ensures Accounted() && Punctual() && clock.Passed()
      ensures |topics| == |old(topics)| + 1 && topics[..|old(topics)|] == old(topics)
      ensures var topic := topics[|old(topics)|];
              && !topic.retired && old(clock.now) <= topic.lastFlush <= clock.now
              && fresh(topic) && fresh(topic.pipeline) && fresh(topic.pipeline.rows) && topic.pipeline.slot == slot
              && (topic.Decoding() <==> (Reflected in config.asked || Lenses in config.asked)
                                        && slot.info.reflects && slot.info.plan.Some?)
      ensures ledger == old(ledger).Creating(slot)
    {
      hide Topic.Valid, Ledger.Sound, Sink.Valid, RenderAll, Configured, OnTime, LensesFor, Fits, Ledger.Creating;
      ghost var was, books := topics, ledger;
      var reflected := (Reflected in config.asked || Lenses in config.asked) && slot.info.reflects
          && slot.info.plan.Some?;
      var topic := new Topic(rec, clock, slot, reflected, config.policy);
      topics := topics + [topic];
      FitsNow(topic, clock.now);
      forall i | 0 <= i < |was| ensures Fits(was[i], config.policy, books.slots[i], books.held[i], clock.now) {
        assert old(Fits(was[i], config.policy, books.slots[i], books.held[i], clock.now));
        FitsLater(was[i], config.policy, books.slots[i], books.held[i], old(clock.now), clock.now);
      }
      ledger := AfterCreating(books, config, nextSequence, slot, lastSweep);
    }

    /** What the decoder of a topic can make of a message. */
    ghost predicate Decodes(i: nat, outcome: Outcome)
      reads `topics, PipelinesOf(topics)
      requires i < |topics|
    {
      topics[i].pipeline.decoder.Some? && outcome.Decoded? ==>
        && topics[i].pipeline.slot.info.plan.Some?
        && Cdr.WellTyped(topics[i].pipeline.slot.info.plan.value, Cdr.MessageLayout(Cdr.ROOT_ID), outcome.value)
    }

    /** The books once a topic that is still recorded has a message. */
    ghost function Accepted(i: nat, cdr: bytes, recv: i64, send: i64, sequence: int, outcome: Outcome): Ledger
      reads `topics, `ledger, clock, PipelinesOf(topics)
      requires i < |topics| == |ledger.slots| == |ledger.held|
    {
      var pipeline := topics[i].pipeline;
      ledger.Accepting(i, pipeline.Arrival(cdr, recv, send, sequence, outcome, clock.now),
                       pipeline.Casualties(outcome) != [])
    }

    /** Passes a message on to its topic. */
    method WriteTopic(i: nat, cdr: bytes, recv: i64, send: i64, sequence: int, outcome: Outcome)
      requires Accounted() && Punctual() && i < |topics| && Decodes(i, outcome)
      requires ledger.Sound(config, sequence) && nextSequence == sequence + 1
      modifies `ledger, topics[i], topics[i].pipeline, topics[i].pipeline.rows, rec, clock
      ensures Accounted() && Punctual()
      ensures clock.Passed() && topics[i].retired == old(topics[i].retired)
      ensures topics[i].Decoding() <==> old(topics[i].Decoding()) && (old(topics[i].retired) || !outcome.Unrecoverable?)
      ensures forall j :: 0 <= j < |topics| && j != i ==>
                && ledger.held[j] == old(ledger.held[j]) && topics[j].lastFlush == old(topics[j].lastFlush)
                && topics[j].Decoding() == old(topics[j].Decoding())
      ensures var after := old(Accepted(i, cdr, recv, send, sequence, outcome));
              if old(topics[i].retired) then ledger == old(ledger)
              else
                && Sheds(after, ledger)
                && (ledger == after || ledger == after.Flushing(i, topics[i].pipeline.decoder.Some?))
      ensures var held := if old(topics[i].retired) then old(ledger.held[i])
                          else old(Accepted(i, cdr, recv, send, sequence, outcome)).held[i];
              || (ledger.held[i] == held && topics[i].lastFlush == old(topics[i].lastFlush))
              || (ledger.held[i] == [] && Due(config.policy, held, old(topics[i].lastFlush), topics[i].lastFlush))
    {
      hide Topic.Valid, Ledger.Sound, Sink.Valid, RenderAll, Recent, Fits, Pipeline.Valid, Within, WellBatched,
          Cdr.WellTyped,
        Ledger.Accepting, Ledger.Flushing, OnTime;
      ghost var topic, books, events, before := topics[i], ledger, rec.events, clock.now;
      ghost var losing := topic.pipeline.Casualties(outcome) != [];
      ghost var entry := topic.pipeline.Arrival(cdr, recv, send, sequence, outcome, before);
      FitMeans(topic, config.policy, books.slots[i], books.held[i], before);
      HeldBefore(books, config, sequence, i);
      topics[i].Write(rec, clock, cdr, recv, send, sequence, outcome);
      FitsNow(topic, clock.now);
      OthersStand(i);
      if !topic.retired {
        ledger := AfterWriting(books, config, sequence, i, entry, losing, rec.events != events,
                               topic.pipeline.decoder.Some?, lastSweep);
      }
    }

    /** The other topics stand where they stood. */
    twostate lemma OthersStand(i: nat)
      requires old(Accounted()) && i < |topics| && topics == old(topics) && old(clock.now) <= clock.now
      requires forall j :: 0 <= j < |topics| && j != i ==>
                 unchanged(topics[j]) && unchanged(topics[j].pipeline) && unchanged(topics[j].pipeline.rows)
      ensures forall j :: 0 <= j < |topics| && j != i ==>
                Fits(topics[j], config.policy, old(ledger).slots[j], old(ledger).held[j], clock.now)
    {
      hide Fits, Ledger.Sound, Sink.Valid;
      forall j | 0 <= j < |topics| && j != i
        ensures Fits(topics[j], config.policy, old(ledger).slots[j], old(ledger).held[j], clock.now)
      {
        assert old(Fits(topics[j], config.policy, ledger.slots[j], ledger.held[j], clock.now));
        FitsLater(topics[j], config.policy, old(ledger).slots[j], old(ledger).held[j], old(clock.now), clock.now);
      }
    }

    /** Whatever else has changed, topics left alone still stand. */
    twostate lemma StandsLater()
      requires old(Accounted()) && unchanged(`topics) && old(clock.now) <= clock.now
      requires ledger.slots == old(ledger.slots) && ledger.held == old(ledger.held)
      requires forall j :: 0 <= j < |topics| ==>
                 unchanged(topics[j]) && unchanged(topics[j].pipeline) && unchanged(topics[j].pipeline.rows)
      ensures Apart(topics) && AllFit(topics, config.policy, ledger.slots, ledger.held, clock.now)
    {
      hide Fits, Apart, Ledger.Sound;
      forall j | 0 <= j < |topics| ensures Fits(topics[j], config.policy, ledger.slots[j], ledger.held[j], clock.now) {
        assert old(Fits(topics[j], config.policy, ledger.slots[j], ledger.held[j], clock.now));
        FitsLater(topics[j], config.policy, ledger.slots[j], ledger.held[j], old(clock.now), clock.now);
      }
    }

    /** Flushes one topic. */
    method FlushTopic(i: nat)
      requires Accounted() && i < |topics|
      modifies `ledger, topics[i], topics[i].pipeline, topics[i].pipeline.rows, rec, clock
      ensures Accounted() && clock.Passed() && topics[i].retired == old(topics[i].retired)
      ensures forall j :: 0 <= j < |topics| ==> topics[j].Decoding() == old(topics[j].Decoding())
      ensures Sheds(old(ledger), ledger) && ledger.held == old(ledger.held)[i := []]
    {
      hide Topic.Valid, Ledger.Sound, Sink.Valid, RenderAll, Fits, Pipeline.Valid, Within, WellBatched, Ledger.Flushing;
      ghost var topic, books := topics[i], ledger;
      FitMeans(topic, config.policy, books.slots[i], books.held[i], clock.now);
      ReadyToLeave(topic);
      ghost var live := topic.pipeline.decoder.Some?;
      topics[i].Flush(rec, clock);
      FitsNow(topic, clock.now);
      OthersStand(i);
      ledger := AfterFlushing(books, config, nextSequence, i, live);
    }

    /** Looks through one topic. */
    method SweepTopic(i: nat)
      requires Accounted() && i < |topics|
      modifies `ledger, topics[i], topics[i].pipeline, topics[i].pipeline.rows, rec, clock
      ensures Accounted() && clock.Passed() && topics[i].retired == old(topics[i].retired)
      ensures forall j :: 0 <= j < |topics| ==> topics[j].Decoding() == old(topics[j].Decoding())
      ensures Stays(config.policy, old(ledger.held[i]), old(topics[i].lastFlush), ledger.held[i], topics[i].lastFlush)
      ensures forall j :: 0 <= j < |topics| && j != i ==> topics[j].lastFlush == old(topics[j].lastFlush)
      ensures Sheds(old(ledger), ledger)
      ensures forall j :: 0 <= j < |topics| && j != i ==> ledger.held[j] == old(ledger.held[j])
      ensures config.policy.maxLatency.Some? ==> Recent(ledger.held[i], lastSweep, config.policy.maxLatency.value)
    {
      hide Topic.Valid, Ledger.Sound, Sink.Valid, RenderAll, Fits, Pipeline.Valid, Within, WellBatched, Ledger.Flushing;
      ghost var topic, books, events := topics[i], ledger, rec.events;
      FitMeans(topic, config.policy, books.slots[i], books.held[i], clock.now);
      ReadyToLeave(topic);
      ghost var live := topic.pipeline.decoder.Some?;
      topics[i].FlushIfStale(rec, clock);
      FitsNow(topic, clock.now);
      OthersStand(i);
      if rec.events != events || topic.pipeline.buffered == [] {
        ledger := AfterFlushing(books, config, nextSequence, i, live);
      }
    }

    /** Looks through all topics, unless that was done less than the latency limit ago. `checked` is when
        it looked at the clock; nothing left in a buffer had by then waited twice the limit. */
    method SweepStaleTopics() returns (ghost checked: nat)
      requires Accounted() && Punctual()
      modifies `lastSweep, `ledger, rec, clock, topics, PipelinesOf(topics), RowsOf(topics)
      ensures Accounted() && Punctual() && Sheds(old(ledger), ledger)
      ensures forall i :: 0 <= i < |topics| ==>
                topics[i].retired == old(topics[i].retired) && topics[i].Decoding() == old(topics[i].Decoding())
      ensures forall i :: 0 <= i < |topics| ==>
                Stays(config.policy, old(ledger.held[i]), old(topics[i].lastFlush), ledger.held[i], topics[i].lastFlush)
      ensures old(clock.now) <= checked <= clock.now && clock.Passed()
      ensures if config.policy.maxLatency.Some? && checked - old(lastSweep) >= config.policy.maxLatency.value
              then lastSweep >= checked else lastSweep == old(lastSweep) && ledger == old(ledger)
      ensures config.policy.maxLatency.Some? ==>
                forall i :: 0 <= i < |topics| ==> UnderTwice(ledger.held[i], checked, config.policy.maxLatency.value)
    {
      hide Apart, AllFit, Ledger.Sound, Sink.Valid, UnderTwice;
      if config.policy.maxLatency.None? { return clock.now; }
      var limit := config.policy.maxLatency.value;
      var now := clock.Now();
      checked := now;
      if now - lastSweep < limit {
        StandsLater();
        AllUnderTwice(checked);
        return;
      }
      var start := clock.Now();
      lastSweep := start;
      StandsLater();

      SweepAll();
      AllUnderTwice(checked);
    }

    /** Looks through all topics, one after the other. */
    method SweepAll()
      requires Accounted() && config.policy.maxLatency.Some?
      modifies `ledger, rec, clock, topics, PipelinesOf(topics), RowsOf(topics)
      ensures Accounted() && Sheds(old(ledger), ledger) && clock.Passed()
      ensures forall i :: 0 <= i < |topics| ==>
                && topics[i].retired == old(topics[i].retired)
                && topics[i].Decoding() == old(topics[i].Decoding())
                && Stays(config.policy, old(ledger.held[i]), old(topics[i].lastFlush), ledger.held[i],
                         topics[i].lastFlush)
                && Recent(ledger.held[i], lastSweep, config.policy.maxLatency.value)
    {
      hide Apart, AllFit, Ledger.Sound, Sink.Valid, Recent;
      var i := 0;
      while i < |topics|
        invariant i <= |topics| && Accounted() && Sheds(old(ledger), ledger) && clock.Passed()
        invariant forall j :: 0 <= j < |topics| ==>
            topics[j].retired == old(topics[j].retired) && topics[j].Decoding() == old(topics[j].Decoding())
        invariant forall j :: 0 <= j < i ==>
            && Stays(config.policy, old(ledger.held[j]), old(topics[j].lastFlush), ledger.held[j], topics[j].lastFlush)
            && Recent(ledger.held[j], lastSweep, config.policy.maxLatency.value)
        invariant forall j :: i <= j < |topics| ==>
            ledger.held[j] == old(ledger.held[j]) && topics[j].lastFlush == old(topics[j].lastFlush)
      {
        ghost var before := ledger;
        SweepTopic(i);
        ShedsMore(old(ledger), before, ledger);
        i := i + 1;
      }
    }

    lemma AllUnderTwice(checked: int)
      requires Punctual()
      requires || checked <= lastSweep
               || (config.policy.maxLatency.Some? && checked - lastSweep < config.policy.maxLatency.value)
      ensures config.policy.maxLatency.Some? ==>
                forall i :: 0 <= i < |ledger.held|
                    ==> UnderTwice(ledger.held[i], checked, config.policy.maxLatency.value)
    {
      if config.policy.maxLatency.Some? {
        forall i | 0 <= i < |ledger.held| ensures UnderTwice(ledger.held[i], checked, config.policy.maxLatency.value) {
          RecentIsUnderTwice(ledger.held[i], lastSweep, checked, config.policy.maxLatency.value);
        }
      }
    }

    /** Passes a message on to its topic, then sweeps the others. */
    method WriteAndSweep(i: nat, cdr: bytes, recv: i64, send: i64, sequence: int, outcome: Outcome)
      returns (ghost checked: nat)
      requires Accounted() && Punctual() && i < |topics| && Decodes(i, outcome)
      requires ledger.Sound(config, sequence) && nextSequence == sequence + 1
      modifies `lastSweep, `ledger, rec, clock, topics, PipelinesOf(topics), RowsOf(topics)
      ensures Accounted() && Punctual()
      ensures forall j :: 0 <= j < |topics| ==>
                && topics[j].retired == old(topics[j].retired)
                && (topics[j].Decoding() <==>
                      old(topics[j].Decoding()) && !(j == i && !old(topics[j].retired) && outcome.Unrecoverable?))
      ensures Sheds(if old(topics[i].retired) then old(ledger)
                    else old(Accepted(i, cdr, recv, send, sequence, outcome)), ledger)
      ensures forall j :: 0 <= j < |topics| && j != i ==>
                Stays(config.policy, old(ledger.held[j]), old(topics[j].lastFlush), ledger.held[j], topics[j].lastFlush)
      ensures !old(topics[i].retired) ==>
                var held := old(Accepted(i, cdr, recv, send, sequence, outcome)).held[i];
                || (ledger.held[i] == held && topics[i].lastFlush == old(topics[i].lastFlush))
                || Due(config.policy, held, old(topics[i].lastFlush), topics[i].lastFlush)
      ensures clock.Passed() && old(clock.now) <= checked <= clock.now
      ensures if config.policy.maxLatency.Some? && checked - old(lastSweep) >= config.policy.maxLatency.value
              then lastSweep >= checked
              else lastSweep == old(lastSweep) && SameBut(old(ledger.held), ledger.held, i)
      ensures config.policy.maxLatency.Some? ==>
                forall j :: 0 <= j < |topics| ==> UnderTwice(ledger.held[j], checked, config.policy.maxLatency.value)
    {
      hide Apart, AllFit, Fits, Ledger.Sound, Sink.Valid, Decodes, OnTime, UnderTwice, Within, Stays, Due, Sheds,
        Ledger.Accepting, Ledger.Flushing;
      ghost var accepting := Accepted(i, cdr, recv, send, sequence, outcome);
      ShedsNothing(ledger);
      WriteTopic(i, cdr, recv, send, sequence, outcome);
      ghost var written, reflushed := ledger, topics[i].lastFlush;
      checked := SweepStaleTopics();
      if !topics[i].retired {
        ShedsMore(accepting, written, ledger);
        StillDue(config.policy, accepting.held[i], old(topics[i].lastFlush), written.held[i], reflushed,
                 ledger.held[i], topics[i].lastFlush);
      }
    }

    /** Records one serialized message. The sequence number is taken even if there is no such topic.
        A message on a topic still recorded is accepted, and no other leaves its buffer before a limit is
        reached. On return nothing in any buffer had waited more than two ticks short of twice the latency
        limit when the sweep last looked. */
    method Write(topic: nat, cdr: bytes, recv: i64, send: i64, outcome: Outcome)
      returns (r: Result<()>, ghost checked: nat)
      requires Valid() && Punctual() && (topic < |topics| ==> Decodes(topic, outcome))
      modifies this, rec, clock, topics, PipelinesOf(topics), RowsOf(topics)
      ensures Valid() && Punctual() && topics == old(topics) && topicIds == old(topicIds) && metadata == old(metadata)
      ensures nextSequence == old(nextSequence) + 1
      ensures forall i :: 0 <= i < |topics| ==>
                && topics[i].retired == old(topics[i].retired)
                && (topics[i].Decoding() <==>
                      old(topics[i].Decoding()) && !(i == topic && !old(topics[i].retired) && outcome.Unrecoverable?))
      ensures r == if topic < |topics| then Ok(()) else Err(NoTopic)
      ensures r.Err? ==> ledger == old(ledger) && lastSweep == old(lastSweep)
      ensures r.Ok? ==>
                Sheds(if old(topics[topic].retired) then old(ledger)
                      else old(Accepted(topic, cdr, recv, send, nextSequence, outcome)), ledger)
      ensures r.Ok? ==> forall i :: 0 <= i < |topics| && i != topic ==>
                Stays(config.policy, old(ledger.held[i]), old(topics[i].lastFlush), ledger.held[i], topics[i].lastFlush)
      ensures r.Ok? && !old(topics[topic].retired) ==>
                var held := old(Accepted(topic, cdr, recv, send, nextSequence, outcome)).held[topic];
                || (ledger.held[topic] == held && topics[topic].lastFlush == old(topics[topic].lastFlush))
                || Due(config.policy, held, old(topics[topic].lastFlush), topics[topic].lastFlush)
      ensures clock.Passed() && (r.Ok? ==> old(clock.now) <= checked <= clock.now)
      ensures r.Ok? ==>
                if config.policy.maxLatency.Some? && checked - old(lastSweep) >= config.policy.maxLatency.value
                then lastSweep >= checked
                else lastSweep == old(lastSweep) && SameBut(old(ledger.held), ledger.held, topic)
      ensures r.Ok? && config.policy.maxLatency.Some? ==>
                forall i :: 0 <= i < |topics| ==> UnderTwice(ledger.held[i], checked, config.policy.maxLatency.value)
    {
      hide Apart, AllFit, Fits, Ledger.Sound, Sink.Valid, Decodes, OnTime, UnderTwice, Within, Stays, Due, Sheds,
        Ledger.Accepting;
      var sequence := nextSequence;
      SoundLater(ledger, config, sequence);
      nextSequence := nextSequence + 1;
      StandsLater();
      if topic >= |topics| { return Err(NoTopic), clock.now; }
      checked := WriteAndSweep(topic, cdr, recv, send, sequence, outcome);
      r := Ok(());
    }

    /** Nothing happens for a while. */
    method Idle(ticks: nat)
      requires Valid() && Punctual()
      modifies clock
      ensures Valid() && Punctual() && clock.now == old(clock.now) + ticks
    {
      hide Apart, AllFit, Fits, Ledger.Sound, Sink.Valid, OnTime;
      clock.Wait(ticks);
      StandsLater();
    }

    lemma FlushedBy(i: nat)
      requires Valid() && i < |topics|
      ensures |ledger.held| == |ledger.slots| == |topics| && topics[i].lastFlush <= clock.now && lastSweep <= clock.now
    {
      assert Fits(topics[i], config.policy, ledger.slots[i], ledger.held[i], clock.now);
    }

    /** Retires a topic after a last flush. It keeps its place, so that no other topic's index changes. */
    method RemoveTopic(name: string)
      requires Valid() && Punctual()
      modifies this, rec, clock, topics, PipelinesOf(topics), RowsOf(topics)
      ensures Valid() && Punctual() && topics == old(topics) && nextSequence == old(nextSequence)
              && metadata == old(metadata)
      ensures topicIds == old(topicIds) - {name}
      ensures forall i :: 0 <= i < |topics| ==>
                && topics[i].retired == (old(topics[i].retired) || (name in old(topicIds) && i == old(topicIds)[name]))
                && topics[i].Decoding() == old(topics[i].Decoding())
      ensures Sheds(old(ledger), ledger)
      ensures ledger.held ==
                if name in old(topicIds) then old(ledger.held)[old(topicIds)[name] := []] else old(ledger.held)
    {
      hide Apart, AllFit, Fits, Ledger.Sound, Sink.Valid, Recent, Sheds;
      ShedsNothing(ledger);
      if name !in topicIds {
        assert topicIds == topicIds - {name};
        return;
      }
      var id := topicIds[name];
      topicIds := topicIds - {name};
      StandsLater();
      FlushTopic(id);
      RetireTopic(id);
      NothingRecent(lastSweep, if config.policy.maxLatency.Some? then config.policy.maxLatency.value else 0);
    }

    method RetireTopic(i: nat)
      requires Accounted() && i < |topics|
      modifies topics[i]
      ensures Accounted()
      ensures forall j :: 0 <= j < |topics| ==> topics[j].retired == (j == i || old(topics[j].retired))
    {
      hide Topic.Valid, Ledger.Sound, Sink.Valid, Fits;
      FitMeans(topics[i], config.policy, ledger.slots[i], ledger.held[i], clock.now);
      topics[i].Retire();
      FitsNow(topics[i], clock.now);
      OthersStand(i);
    }

    /** Keeps a metadata document for the close. */
    method SetMetadata(yaml: string)
      requires Valid() && Punctual()
      modifies `metadata
      ensures Valid() && Punctual() && metadata == Some(yaml)
    {
      metadata := Some(yaml);
      StandsLater();
    }

    /** Flushes every topic and writes the metadata. Every message accepted is then in the file, but
        for those that were lost. */
    method Close()
      requires Valid() && Punctual()
      modifies `ledger, rec, clock, topics, PipelinesOf(topics), RowsOf(topics)
      ensures Accounted() && Sheds(old(ledger), ledger)
      ensures forall i :: 0 <= i < |ledger.held| ==> ledger.held[i] == []
      ensures rec.file == RenderAll(ledger.events)
      ensures metadata.Some? ==> ledger.events != [] && ledger.events[|ledger.events| - 1] == Declared(METADATA)
      ensures multiset(Flat(ledger.events)) + ledger.lost == multiset(ledger.accepted)
    {
      hide Apart, AllFit, Fits, Ledger.Sound, Sink.Valid, Recent;
      var i := 0;
      while i < |topics|
        invariant i <= |topics| && Accounted() && Sheds(old(ledger), ledger)
        invariant forall j :: 0 <= j < i ==> ledger.held[j] == []
      {
        ghost var before := ledger;
        FlushTopic(i);
        ShedsMore(old(ledger), before, ledger);
        i := i + 1;
      }
      if metadata.Some? { SendMetadata(); }
      AllSent();
    }

    method SendMetadata()
      requires Accounted() && metadata.Some?
      modifies `ledger, rec
      ensures Accounted() && ledger == old(ledger).(events := old(ledger.events) + [Declared(METADATA)])
    {
      hide Apart, AllFit, Fits, Ledger.Sound, Sink.Valid, RenderAll;
      ghost var after := ledger.(events := ledger.events + [Declared(METADATA)]);
      DeclaringIsSound(ledger, config, nextSequence, METADATA);
      rec.SendAll([Declaration(METADATA)], Declared(METADATA));
      ledger := after;
      StandsLater();
    }

    lemma AllSent()
      requires Accounted() && forall i :: 0 <= i < |ledger.held| ==> ledger.held[i] == []
      ensures rec.file == RenderAll(ledger.events)
      ensures multiset(Flat(ledger.events)) + ledger.lost == multiset(ledger.accepted)
    {
      PendingNothing(ledger.slots, ledger.held);
    }
  }

  lemma NothingRecent(time: int, limit: nat)
    ensures Recent([], time, limit)
  {}

  lemma ReadyToLeave(topic: Topic)
    requires topic.Valid()
    ensures var held := topic.pipeline.buffered;
            held != [] ==> WellBatched(topic.policy, Batch(topic.pipeline.slot, topic.pipeline.decoder.Some?, held))
  {
    FewerAreWithin(topic.policy, topic.pipeline.buffered);
    BufferedForms(topic.pipeline);
  }

  lemma FitsNow(topic: Topic, now: nat)
    requires topic.Valid() && topic.lastFlush <= now
    ensures Fits(topic, topic.policy, topic.pipeline.slot, topic.pipeline.buffered, now)
  {}

  lemma FitMeans(topic: Topic, policy: FlushPolicy, slot: Slot, held: seq<Entry>, now: nat)
    requires Fits(topic, policy, slot, held, now)
    ensures topic.Valid() && topic.policy == policy && topic.pipeline.slot == slot && topic.pipeline.buffered == held
    ensures topic.lastFlush <= now
  {}

  lemma AsConfigured(config: Config, info: TopicInfo, matched: bool)
    ensures var slot := SlotFor(config, info, matched);
            && Configured(config, slot)
            && slot.info == info && slot.matched == matched && (slot.keepRaw <==> Raw in config.asked)
  {}

  lemma FitsLater(topic: Topic, policy: FlushPolicy, slot: Slot, held: seq<Entry>, now: nat, later: nat)
    requires Fits(topic, policy, slot, held, now) && now <= later
    ensures Fits(topic, policy, slot, held, later)
  {}

  /** A recording with a quiet topic and a busy one, a tick after it was opened, on a steady clock. */
  ghost predicate Prepared(writer: Writer, limit: nat)
    reads writer, writer.clock, writer.topics
  {
    && writer.clock.steady && writer.config.policy == FlushPolicy(0, 0, Some(limit))
    && |writer.topics| == 2 == |writer.ledger.held| == |writer.ledger.slots|
    && !writer.topics[0].retired && writer.topics[0].lastFlush == 1
  }

  /** The row the quiet topic has held since that tick. */
  ghost predicate Holding(writer: Writer)
    reads writer
  {
    |writer.ledger.held| > 0 && |writer.ledger.held[0]| == 1 && writer.ledger.held[0][0].arrived == 1
  }

  method Prepare(limit: nat) returns (writer: Writer)
    requires limit > 0
    ensures writer.Valid() && writer.Punctual() && Prepared(writer, limit)
    ensures writer.clock.now == 1 && writer.lastSweep == 0 && writer.ledger.held[0] == []
    ensures fresh(writer) && fresh(writer.rec) && fresh(writer.clock)
    ensures fresh(set t | t in writer.topics) && fresh(PipelinesOf(writer.topics)) && fresh(RowsOf(writer.topics))
  {
    hide Writer.Valid, Writer.Punctual, Ledger.Sound, Sink.Valid;
    var rec := new Sink();
    var clock := new Clock(true);
    writer := new Writer.Open(rec, clock, Config({Raw}, Keep, FlushPolicy(0, 0, Some(limit))));
    writer.Idle(1);
    var quiet := writer.CreateTopic(TopicInfo("/quiet", false, None), false);
    var busy := writer.CreateTopic(TopicInfo("/busy", false, None), false);
    writer.FlushedBy(0);
  }

  /** The quiet topic's one message. */
  method WriteQuiet(writer: Writer, limit: nat)
    requires writer.Valid() && writer.Punctual() && Prepared(writer, limit) && limit > 0
    requires writer.clock.now == 1 && writer.lastSweep == 0 && writer.ledger.held[0] == []
    modifies writer, writer.rec, writer.clock, writer.topics, PipelinesOf(writer.topics), RowsOf(writer.topics)
    ensures writer.Valid() && writer.Punctual() && Prepared(writer, limit) && Holding(writer)
    ensures writer.topics == old(writer.topics) && writer.clock.now == 1
    ensures writer.lastSweep == if limit == 1 then 1 else 0
  {
    hide Writer.Valid, Writer.Punctual, Sheds, Ledger.Sound, UnderTwice, Sink.Valid;
    ghost var held := writer.Accepted(0, [], 0, 0, writer.nextSequence, Cancelled).held[0];
    assert |held| == 1 && held[0].arrived == 1 && Within(writer.config.policy, held);
    ghost var flushed := writer.topics[0].lastFlush;
    var _, checked := writer.Write(0, [], 0, 0, Cancelled);
    writer.FlushedBy(0);
    assert !Due(writer.config.policy, held, flushed, writer.topics[0].lastFlush);
  }

  /** A message on the busy topic, before the quiet one's latency limit has passed or without a sweep. */
  method WriteBusy(writer: Writer, limit: nat) returns (ghost checked: nat)
    requires writer.Valid() && writer.Punctual() && Prepared(writer, limit) && Holding(writer) && limit > 0
    requires writer.clock.now < 1 + limit || writer.clock.now - writer.lastSweep < limit
    modifies writer, writer.rec, writer.clock, writer.topics, PipelinesOf(writer.topics), RowsOf(writer.topics)
    ensures writer.Valid() && writer.Punctual() && Prepared(writer, limit) && Holding(writer)
    ensures writer.topics == old(writer.topics) && checked == writer.clock.now == old(writer.clock.now)
    ensures writer.lastSweep == if checked - old(writer.lastSweep) >= limit then checked else old(writer.lastSweep)
  {
    hide Writer.Valid, Writer.Punctual, Sheds, Ledger.Sound, UnderTwice, Sink.Valid;
    var r;
    r, checked := writer.Write(1, [], 0, 0, Cancelled);
    writer.FlushedBy(0);
  }

  /** The bound on waiting is attained. A row arrives one tick after a sweep; the next sweep finds it one
      tick too young, and by the last look before the one after that it has waited all but two ticks of
      twice the limit. */
  method WaitsLongest(limit: nat) returns (writer: Writer, ghost checked: nat)
    requires limit > 0
    ensures writer.Valid() && writer.Punctual() && writer.config.policy.maxLatency == Some(limit)
    ensures |writer.ledger.held| > 0 && |writer.ledger.held[0]| > 0
    ensures checked - writer.ledger.held[0][0].arrived == 2 * (limit - 1)
  {
    hide Writer.Valid, Writer.Punctual;
    writer := Prepare(limit);
    WriteQuiet(writer, limit);
    writer.Idle(limit - 1);
    var _ := WriteBusy(writer, limit);
    writer.Idle(limit - 1);
    checked := WriteBusy(writer, limit);
  }
}
