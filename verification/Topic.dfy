/** One topic of a recording being written (`record.rs`): when its rows are flushed. */
module Topics {
  import opened Basics
  import opened Recording
  import opened Forms
  import opened Pipelines
  import Cdr

  /** When a buffer is to be flushed. Zero rows, zero bytes or no latency sets no limit. */
  datatype FlushPolicy = FlushPolicy(maxRows: nat, maxBytes: nat, maxLatency: Option<nat>)

  /** A monotone clock in ticks. Any amount of time may pass before each reading; or none, of a clock so
      coarse that it only moves when waited for. */
  class Clock {
    const steady: bool
    var now: nat

    constructor (steady: bool)
      ensures this.steady == steady && now == 0
    {
      this.steady := steady;
      now := 0;
    }

    twostate predicate Passed()
      reads this
    {
      old(now) <= now && (steady ==> now == old(now))
    }

    method Now() returns (t: nat)
      modifies this
      ensures t == now && Passed()
    {
      if !steady {
        var passed: nat :| 0 <= passed;
        now := now + passed;
      }
      t := now;
    }

    method Wait(ticks: nat)
      modifies this
      ensures now == old(now) + ticks
    {
      now := now + ticks;
    }
  }

  /** What was sent to the recording stream: what a topic is, and its batches. */
  datatype Event = Declared(entity: Entity) | Batch(slot: Slot, live: bool, entries: seq<Entry>)

  function Messages(chunks: seq<Chunk>): seq<LogMsg> {
    seq(|chunks|, i requires 0 <= i < |chunks| => Data(chunks[i]))
  }

  function Declaration(entity: Entity): Chunk {
    Chunk(entity, true, 0, None, None, None, None, None, map[])
  }

  function Render(event: Event): seq<LogMsg> {
    match event
    case Declared(entity) => [Data(Declaration(entity))]
    case Batch(slot, live, entries) => Messages(Forwarded(slot, ChunkOf(slot, live, entries)))
  }

  function RenderAll(events: seq<Event>): seq<LogMsg> {
    if events == [] then [] else RenderAll(events[..|events| - 1]) + Render(events[|events| - 1])
  }

  lemma RenderAppends(events: seq<Event>, event: Event)
    ensures RenderAll(events + [event]) == RenderAll(events) + Render(event)
  {
    assert (events + [event])[..|events|] == events;
  }

  /** The stream a bag is recorded into. */
  class Sink {
    var file: seq<LogMsg>
    ghost var events: seq<Event>

    constructor ()
      ensures Valid() && events == []
    {
      file, events := [], [];
    }

    ghost predicate Valid()
      reads this
    {
      file == RenderAll(events)
    }

    method SendChunk(chunk: Chunk)
      modifies `file
      ensures file == old(file) + [Data(chunk)]
    {
      file := file + [Data(chunk)];
    }

    method SendAll(chunks: seq<Chunk>, ghost event: Event)
      requires Valid() && Messages(chunks) == Render(event)
      modifies this
      ensures Valid() && events == old(events) + [event] && file == old(file) + Messages(chunks)
    {
      hide RenderAll, Render;
      var i := 0;
      while i < |chunks|
        invariant i <= |chunks| && file == old(file) + Messages(chunks[..i]) && events == old(events)
      {
        SendChunk(chunks[i]);
        assert Messages(chunks[..i + 1]) == Messages(chunks[..i]) + [Data(chunks[i])];
        i := i + 1;
      }
      assert chunks[..i] == chunks;
      RenderAppends(events, event);
      events := events + [event];
    }
  }

  // ---------------------------------------------------------------- limits

  /** Below every limit on rows and bytes. */
  predicate Within(policy: FlushPolicy, entries: seq<Entry>) {
    && (policy.maxRows > 0 ==> |entries| < policy.maxRows)
    && (policy.maxBytes > 0 ==> Size(entries) < policy.maxBytes)
  }

  /** At a limit, or past it: zero sets none. */
  predicate Full(policy: FlushPolicy, entries: seq<Entry>) {
    || (policy.maxRows > 0 && |entries| >= policy.maxRows)
    || (policy.maxBytes > 0 && Size(entries) >= policy.maxBytes)
  }

  /** At most one row too many: without its last row the batch was below every limit. */
  predicate Bounded(policy: FlushPolicy, entries: seq<Entry>) {
    entries != [] ==> Within(policy, entries[..|entries| - 1])
  }

  ghost predicate Increasing(entries: seq<Entry>) {
    forall i, j :: 0 <= i < j < |entries| ==> entries[i].sequence < entries[j].sequence
  }

  /** No row arrived before a time. */
  ghost predicate Since(entries: seq<Entry>, time: nat) {
    forall i :: 0 <= i < |entries| ==> time <= entries[i].arrived
  }

  /** A batch as it leaves a topic. */
  ghost predicate WellBatched(policy: FlushPolicy, event: Event) {
    event.Batch? ==>
      && event.entries != []
      && Bounded(policy, event.entries)
      && Increasing(event.entries)
      && Covered(event.slot, event.live, event.entries)
      && forall i :: 0 <= i < |event.entries| ==> Plausible(event.slot, event.entries[i])
  }

  lemma FewerAreWithin(policy: FlushPolicy, entries: seq<Entry>)
    requires Within(policy, entries)
    ensures Bounded(policy, entries)
  {}

  class Topic {
    const pipeline: Pipeline
    const policy: FlushPolicy
    var lastFlush: nat

    /** Set for a topic that was removed, which takes nothing any more. */
    var retired: bool

    ghost predicate Valid()
      reads this, pipeline, pipeline.rows
    {
      && pipeline.Valid()
      && Within(policy, pipeline.buffered)
      && Increasing(pipeline.buffered)
      && Since(pipeline.buffered, lastFlush)
    }

    /** Whether messages are still being decoded. */
    ghost predicate Decoding()
      reads pipeline
    {
      pipeline.decoder.Some?
    }

    /** A new topic, announced in the stream and holding nothing. */
    constructor (rec: Sink, clock: Clock, slot: Slot, reflected: bool, policy: FlushPolicy)
      requires rec.Valid()
      requires reflected ==> slot.info.reflects && slot.info.plan.Some?
      modifies rec, clock
      ensures Valid() && rec.Valid() && rec.events == old(rec.events) + [Declared(slot.info.name)]
      ensures rec.file == old(rec.file) + [Data(Chunk(slot.info.name, true, 0, None, None, None, None, None, map[]))]
      ensures pipeline.slot == slot && this.policy == policy && pipeline.buffered == [] && !retired
      ensures fresh(pipeline) && fresh(pipeline.rows)
      ensures Decoding() <==> reflected
      ensures old(clock.now) <= lastFlush <= clock.now && clock.Passed()
    {
      pipeline := new Pipeline(slot, reflected);
      this.policy := policy;
      rec.SendAll([Declaration(slot.info.name)], Declared(slot.info.name));
      var now := clock.Now();
      lastFlush := now;
      retired := false;
      new;
      StartsWithin(policy);
    }

    /** Stops accepting messages. */
    method Retire()
      requires Valid()
      modifies `retired
      ensures Valid() && retired
    {
      retired := true;
    }

    /** Whether the rows buffered reach a limit; the clock is read only if the counters do not. */
    method ShouldFlush(clock: Clock) returns (flush: bool)
      requires pipeline.Valid()
      modifies clock
      ensures clock.Passed() && (Full(policy, pipeline.buffered) ==> clock.now == old(clock.now))
      ensures flush <==>
                && pipeline.buffered != []
                && (|| Full(policy, pipeline.buffered)
                    || (policy.maxLatency.Some? && clock.now >= lastFlush + policy.maxLatency.value))
    {
      var rows := pipeline.Len();
      if rows == 0 { return false; }
      if policy.maxRows > 0 && rows >= policy.maxRows { return true; }
      if policy.maxBytes > 0 && pipeline.bytes >= policy.maxBytes { return true; }
      if policy.maxLatency.None? { return false; }
      var now := clock.Now();
      return now >= lastFlush + policy.maxLatency.value;
    }

    /** Sends what is buffered, whether or not a limit says so. */
    method Flush(rec: Sink, clock: Clock)
      requires pipeline.Valid() && rec.Valid() && lastFlush <= clock.now
      modifies `lastFlush, pipeline, pipeline.rows, rec, clock
      ensures Valid() && rec.Valid() && pipeline.buffered == []
      ensures pipeline.decoder.Some? == old(pipeline.decoder).Some?
      ensures old(clock.now) <= lastFlush <= clock.now && clock.Passed()
      ensures rec.events == old(rec.events) + Departure(old(pipeline.decoder).Some?, old(pipeline.buffered))
      ensures old(pipeline.buffered) != [] ==>
                rec.events == old(rec.events) + [Batch(pipeline.slot, pipeline.decoder.Some?, old(pipeline.buffered))]
    {
      lastFlush := clock.Now();
      ghost var batch := Batch(pipeline.slot, pipeline.decoder.Some?, pipeline.buffered);
      var some := pipeline.Len() > 0;
      var chunks := pipeline.Flush();
      if some {
        rec.SendAll(chunks, batch);
      }
      StartsWithin(policy);
    }

    /** The event a flush of some rows makes, if there are any. */
    ghost function Departure(live: bool, entries: seq<Entry>): seq<Event> {
      if entries == [] then [] else [Batch(pipeline.slot, live, entries)]
    }

    /** The rows held once a message has been pushed, before any flush. */
    ghost function Held(cdr: bytes, recv: i64, send: i64, sequence: int, outcome: Outcome, now: nat): seq<Entry>
      reads pipeline
    {
      (if pipeline.Casualties(outcome) != [] then [] else pipeline.buffered)
      + [pipeline.Arrival(cdr, recv, send, sequence, outcome, now)]
    }

    /** Buffers one message of a topic still recorded, then flushes if `ShouldFlush` says so. */
    method Buffer(rec: Sink, clock: Clock, cdr: bytes, recv: i64, send: i64, sequence: int, outcome: Outcome)
      returns (ghost held: seq<Entry>)
      requires Valid() && rec.Valid() && lastFlush <= clock.now
      requires pipeline.decoder.Some? && outcome.Decoded? ==>
                 Cdr.WellTyped(pipeline.slot.info.plan.value, Cdr.MessageLayout(Cdr.ROOT_ID), outcome.value)
      requires forall i :: 0 <= i < |pipeline.buffered| ==> pipeline.buffered[i].sequence < sequence
      modifies `lastFlush, pipeline, pipeline.rows, rec, clock
      ensures Valid() && rec.Valid()
      ensures clock.Passed() && lastFlush <= clock.now
      ensures pipeline.decoder.Some? <==> old(pipeline.decoder).Some? && !outcome.Unrecoverable?
      ensures held == old(Held(cdr, recv, send, sequence, outcome, clock.now))
      ensures || (pipeline.buffered == held && rec.events == old(rec.events) && lastFlush == old(lastFlush)
                  && (policy.maxLatency.Some? ==> clock.now < lastFlush + policy.maxLatency.value))
              || (pipeline.buffered == []
                  && rec.events == old(rec.events) + [Batch(pipeline.slot, pipeline.decoder.Some?, held)]
                  && WellBatched(policy, Batch(pipeline.slot, pipeline.decoder.Some?, held))
                  && (|| !Within(policy, held)
                      || (policy.maxLatency.Some? && lastFlush >= old(lastFlush) + policy.maxLatency.value)))
    {
      hide Topic.Valid, Topic.Held, Topic.Departure, Pipeline.Valid, Pipeline.Casualties, Pipeline.Arrival, Within,
        Full, Increasing, Bounded, Since, WellBatched, Sink.Valid, Cdr.WellTyped, Size;
      held := Holds(cdr, recv, send, sequence, outcome, clock.now);
      pipeline.Push(cdr, recv, send, sequence, outcome, clock.now);
      Leaves(policy, pipeline);
      var flush := ShouldFlush(clock);
      if flush {
        Flush(rec, clock);
      } else {
        Stands();
      }
    }

    /** What is held after a message keeps to the limits but for its last row. */
    lemma Holds(cdr: bytes, recv: i64, send: i64, sequence: int, outcome: Outcome, now: nat) returns (held: seq<Entry>)
      requires Valid() && lastFlush <= now
      requires forall i :: 0 <= i < |pipeline.buffered| ==> pipeline.buffered[i].sequence < sequence
      ensures pipeline.Valid()
      ensures held == Held(cdr, recv, send, sequence, outcome, now) != []
      ensures held == (if pipeline.Casualties(outcome) != [] then [] else pipeline.buffered)
                      + [pipeline.Arrival(cdr, recv, send, sequence, outcome, now)]
      ensures Increasing(held) && Bounded(policy, held) && Since(held, lastFlush)
      ensures Full(policy, held) <==> !Within(policy, held)
    {
      hide Pipeline.Valid, Within, Increasing, Bounded, Since;
      StartsWithin(policy);
      var kept := if pipeline.Casualties(outcome) != [] then [] else pipeline.buffered;
      var entry := pipeline.Arrival(cdr, recv, send, sequence, outcome, now);
      HeldBounded(policy, kept, entry, lastFlush);
      held := kept + [entry];
      FullOrWithin(policy, held);
    }

    lemma Stands()
      requires pipeline.Valid() && Increasing(pipeline.buffered) && Since(pipeline.buffered, lastFlush)
      requires Within(policy, pipeline.buffered)
      ensures Valid()
    {}

    /** Buffers one message, then flushes if that reached a limit on rows or bytes, or if the last
        flush was long enough ago, and not otherwise. */
    method Write(rec: Sink, clock: Clock, cdr: bytes, recv: i64, send: i64, sequence: int, outcome: Outcome)
      requires Valid() && rec.Valid() && lastFlush <= clock.now
      requires pipeline.decoder.Some? && outcome.Decoded? ==>
                 Cdr.WellTyped(pipeline.slot.info.plan.value, Cdr.MessageLayout(Cdr.ROOT_ID), outcome.value)
      requires forall i :: 0 <= i < |pipeline.buffered| ==> pipeline.buffered[i].sequence < sequence
      modifies `lastFlush, pipeline, pipeline.rows, rec, clock
      ensures Valid() && rec.Valid()
      ensures clock.Passed() && lastFlush <= clock.now
      ensures old(retired) ==>
                && pipeline.buffered == old(pipeline.buffered) && rec.events == old(rec.events)
                && lastFlush == old(lastFlush)
      ensures !old(retired) ==>
                var held := old(Held(cdr, recv, send, sequence, outcome, clock.now));
                || (pipeline.buffered == held && rec.events == old(rec.events) && lastFlush == old(lastFlush)
                    && (policy.maxLatency.Some? ==> clock.now < lastFlush + policy.maxLatency.value))
                || (pipeline.buffered == []
                    && rec.events == old(rec.events) + [Batch(pipeline.slot, pipeline.decoder.Some?, held)]
                    && WellBatched(policy, Batch(pipeline.slot, pipeline.decoder.Some?, held))
                    && (|| !Within(policy, held)
                        || (policy.maxLatency.Some? && lastFlush >= old(lastFlush) + policy.maxLatency.value)))
      ensures Decoding() <==> old(Decoding()) && (old(retired) || !outcome.Unrecoverable?)
      // The limits by their numbers: what is left is below them, what was sent reached one of them with its
      // last row and none before, and nothing is sent that reached none.
      ensures policy.maxRows > 0 ==> |pipeline.buffered| < policy.maxRows
      ensures policy.maxBytes > 0 ==> Size(pipeline.buffered) < policy.maxBytes
      ensures !old(retired) ==>
                var held := old(Held(cdr, recv, send, sequence, outcome, clock.now));
                var full := || (policy.maxRows > 0 && |held| >= policy.maxRows)
                            || (policy.maxBytes > 0 && Size(held) >= policy.maxBytes);
                && |held| > 0
                && (full ==> pipeline.buffered == [] && rec.events != old(rec.events))
                && (!full && (policy.maxLatency.None? || clock.now < old(lastFlush) + policy.maxLatency.value) ==>
                      pipeline.buffered == held && rec.events == old(rec.events))
                && (policy.maxRows > 0 && rec.events != old(rec.events) ==> |held| <= policy.maxRows)
                && (policy.maxBytes > 0 && rec.events != old(rec.events) ==>
                      Size(held[..|held| - 1]) < policy.maxBytes)
    {
      hide Pipeline.Valid, Pipeline.Casualties, Within, Increasing, Bounded, Covered, Plausible, RenderAll,
          Cdr.WellTyped, Size;
      LimitsInNumbers(policy, pipeline.buffered);
      if retired { return; }
      LimitsInNumbers(policy, Held(cdr, recv, send, sequence, outcome, clock.now));
      LimitsInNumbers(policy, []);
      var _ := Buffer(rec, clock, cdr, recv, send, sequence, outcome);
    }

    /** Sends what is buffered if the last flush was as long ago as the latency limit. */
    method FlushIfStale(rec: Sink, clock: Clock)
      requires Valid() && rec.Valid() && lastFlush <= clock.now
      modifies `lastFlush, pipeline, pipeline.rows, rec, clock
      ensures Valid() && rec.Valid()
      ensures clock.Passed() && lastFlush <= clock.now
      ensures || (&& pipeline.buffered == old(pipeline.buffered) && rec.events == old(rec.events)
                  && lastFlush == old(lastFlush))
              || (&& pipeline.buffered == []
                  && rec.events == old(rec.events) + Departure(old(pipeline.decoder).Some?, old(pipeline.buffered))
                  && policy.maxLatency.Some? && lastFlush >= old(lastFlush) + policy.maxLatency.value)
      ensures Decoding() == old(Decoding())
      ensures policy.maxLatency.Some? ==> forall i :: 0 <= i < |pipeline.buffered| ==>
                old(clock.now) < pipeline.buffered[i].arrived + policy.maxLatency.value
    {
      if policy.maxLatency.None? { return; }
      var now := clock.Now();
      var stale := now >= lastFlush + policy.maxLatency.value;
      if stale && pipeline.Len() > 0 {
        Flush(rec, clock);
      }
    }
  }

  lemma StartsWithin(policy: FlushPolicy)
    ensures Within(policy, []) && Increasing([]) && forall time :: Since([], time)
  {}

  lemma FullOrWithin(policy: FlushPolicy, entries: seq<Entry>)
    ensures Full(policy, entries) <==> !Within(policy, entries)
  {}

  /** The limits by their numbers. */
  lemma LimitsInNumbers(policy: FlushPolicy, entries: seq<Entry>)
    ensures Within(policy, entries) <==>
              && (policy.maxRows > 0 ==> |entries| < policy.maxRows)
              && (policy.maxBytes > 0 ==> Size(entries) < policy.maxBytes)
    ensures entries != [] && Bounded(policy, entries) ==>
              && (policy.maxRows > 0 ==> |entries| <= policy.maxRows)
              && (policy.maxBytes > 0 ==> Size(entries[..|entries| - 1]) < policy.maxBytes)
  {}

  /** One more row, and later than the others, puts a batch at most one row over. */
  lemma HeldBounded(policy: FlushPolicy, kept: seq<Entry>, entry: Entry, lastFlush: nat)
    requires kept == [] || Within(policy, kept)
    requires Increasing(kept) && forall i :: 0 <= i < |kept| ==> kept[i].sequence < entry.sequence
    requires lastFlush <= entry.arrived && Since(kept, lastFlush)
    ensures var held := kept + [entry];
            Increasing(held) && Bounded(policy, held) && Since(held, lastFlush)
  {
    StartsWithin(policy);
    assert (kept + [entry])[..|kept|] == kept;
  }

  /** What a topic holds after a message may leave as a batch. */
  lemma Leaves(policy: FlushPolicy, pipeline: Pipeline)
    requires pipeline.Valid() && pipeline.buffered != []
    requires Bounded(policy, pipeline.buffered) && Increasing(pipeline.buffered)
    ensures WellBatched(policy, Batch(pipeline.slot, pipeline.decoder.Some?, pipeline.buffered))
  {
    BufferedForms(pipeline);
  }

  lemma BufferedForms(pipeline: Pipeline)
    requires pipeline.Valid()
    ensures Covered(pipeline.slot, pipeline.decoder.Some?, pipeline.buffered)
    ensures forall i :: 0 <= i < |pipeline.buffered| ==> Plausible(pipeline.slot, pipeline.buffered[i])
  {}
}
