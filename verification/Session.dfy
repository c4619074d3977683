/** Whole sessions: any script of calls to the writer, closed, opened again and drained. */
module Sessions {
  import opened Basics
  import opened Ordering
  import opened Recording
  import opened Forms
  import opened Pipelines
  import opened Topics
  import opened Ledgers
  import opened Writers
  import opened Footers
  import opened Opening
  import opened Playback
  import opened PlaybackRuns
  import opened Readers
  import ChunkIndexes
  import opened EndToEnd
  import Cdr

  datatype Command =
    | Declare(info: TopicInfo, matched: bool)
    | Record(topic: nat, cdr: bytes, recv: i64, send: i64, outcome: Outcome)
    | Remove(name: string)

  /** A message accepted: its number, and the struct it is kept as, if it was decoded. */
  datatype Numbered = Numbered(message: Message, sequence: int, value: Option<Cdr.Value>)

  /** Messages of a type that reflects are decoded, for structs or for lenses, if its definition could be read. */
  predicate Reflects(config: Config, info: TopicInfo) {
    (Reflected in config.asked || Lenses in config.asked) && info.reflects && info.plan.Some?
  }

  /** What a script amounts to, without buffers, limits or clocks. */
  datatype Session = Session(infos: seq<TopicInfo>, retired: seq<bool>, decoding: seq<bool>, ids: map<string, nat>,
                             next: int, accepted: seq<Numbered>)
  {
    predicate Valid() {
      |retired| == |decoding| == |infos| && forall name :: name in ids ==> ids[name] < |infos|
    }

    function Next(config: Config, command: Command): (session: Session)
      requires Valid()
      ensures session.Valid() && infos <= session.infos && accepted <= session.accepted
    {
      match command
      case Declare(info, _) =>
        if info.name in ids then this
        else this.(infos := infos + [info], retired := retired + [false],
                   decoding := decoding + [Reflects(config, info)], ids := ids[info.name := |infos|])
      case Record(topic, cdr, recv, send, outcome) =>
        if topic < |infos| && !retired[topic]
        then
          var message := Message(infos[topic].name, recv, send, cdr);
          var value := if decoding[topic] && outcome.Decoded? then Some(outcome.value) else None;
          this.(next := next + 1, accepted := accepted + [Numbered(message, next, value)],
                decoding := decoding[topic := decoding[topic] && !outcome.Unrecoverable?])
        else this.(next := next + 1)
      case Remove(name) =>
        if name in ids then this.(retired := retired[ids[name] := true], ids := ids - {name}) else this
    }
  }

  function Performed(config: Config, script: seq<Command>): (session: Session)
    ensures session.Valid()
  {
    if script == [] then Session([], [], [], map[], 0, [])
    else Performed(config, script[..|script| - 1]).Next(config, script[|script| - 1])
  }

  lemma {:induction false} PerformedGrows(config: Config, script: seq<Command>, i: nat)
    requires i <= |script|
    ensures Performed(config, script[..i]).infos <= Performed(config, script).infos
    ensures Performed(config, script[..i]).accepted <= Performed(config, script).accepted
    decreases |script|
  {
    if i == |script| {
      assert script[..i] == script;
    } else {
      PerformedGrows(config, script[..|script| - 1], i);
      assert script[..|script| - 1][..i] == script[..i];
    }
  }

  /** A command that records on a topic there is, and that was not removed. */
  predicate Takes(config: Config, script: seq<Command>, i: nat, topic: nat) {
    && i < |script| && script[i].Record? && script[i].topic == topic
    && var before := Performed(config, script[..i]);
    topic < |before.infos| && !before.retired[topic]
  }

  lemma TakesEarlier(config: Config, script: seq<Command>, n: nat, topic: nat)
    requires n <= |script|
    ensures forall j :: 0 <= j < n ==> (Takes(config, script, j, topic) <==> Takes(config, script[..n], j, topic))
  {
    forall j | 0 <= j < n ensures Takes(config, script, j, topic) <==> Takes(config, script[..n], j, topic) {
      assert script[..n][..j] == script[..j];
    }
  }

  lemma TakesNothing(config: Config, script: seq<Command>, topic: nat)
    requires topic >= |Performed(config, script).infos|
    ensures forall j :: 0 <= j < |script| ==> !Takes(config, script, j, topic)
  {
    forall j | 0 <= j < |script| ensures !Takes(config, script, j, topic) {
      PerformedGrows(config, script, j);
    }
  }

  /** A topic is decoding exactly while what was asked for and its type call for it, and no message has
      made its decoder fail for good. */
  lemma {:induction false} DecodingExactly(config: Config, script: seq<Command>, topic: nat)
    requires topic < |Performed(config, script).infos|
    ensures var info := Performed(config, script).infos[topic];
            Performed(config, script).decoding[topic] <==>
              && (Reflected in config.asked || Lenses in config.asked) && info.reflects && info.plan.Some?
              && forall j :: 0 <= j < |script| && Takes(config, script, j, topic) ==> !script[j].outcome.Unrecoverable?
    decreases |script|
  {
    if script != [] {
      var last := |script| - 1;
      var before := Performed(config, script[..last]);
      TakesEarlier(config, script, last, topic);
      if topic < |before.infos| {
        DecodingExactly(config, script[..last], topic);
      } else {
        TakesNothing(config, script[..last], topic);
      }
      assert Performed(config, script) == before.Next(config, script[last]);
      assert Takes(config, script, last, topic) <==>
          script[last].Record? && script[last].topic == topic && topic < |before.infos| && !before.retired[topic];
    }
  }

  /** What is kept of a message: the struct it decoded to, on a topic that decodes, as long as no earlier
      message has made the decoder fail for good; and otherwise no struct. */
  lemma KeptAs(config: Config, script: seq<Command>, i: nat, topic: nat)
    requires Takes(config, script, i, topic)
    ensures var info := Performed(config, script[..i]).infos[topic];
            var k := |Performed(config, script[..i]).accepted|;
            && k < |Performed(config, script).accepted|
            && var kept := Performed(config, script).accepted[k];
            && kept.message == Message(info.name, script[i].recv, script[i].send, script[i].cdr)
            && (kept.value.Some? <==>
                  && (Reflected in config.asked || Lenses in config.asked) && info.reflects && info.plan.Some?
                  && script[i].outcome.Decoded?
                  && forall j :: 0 <= j < i && Takes(config, script, j, topic) ==> !script[j].outcome.Unrecoverable?)
            && (kept.value.Some? ==> kept.value.value == script[i].outcome.value)
  {
    PerformedGrows(config, script, i + 1);
    assert script[..i + 1][..i] == script[..i];
    DecodingExactly(config, script[..i], topic);
    TakesEarlier(config, script, i, topic);
  }

  /** What a decoder makes of a message has the type its plan says. Where no raw copies are kept it also
      reads canonical messages only, as the mirror decoder does, and never fails for good. */
  predicate Decodable(config: Config, info: TopicInfo, cdr: bytes, outcome: Outcome) {
    match outcome
    case Cancelled => true
    case Unrecoverable => Raw in config.asked
    case Decoded(value) =>
      info.plan.Some? ==>
        && Cdr.WellTyped(info.plan.value, Cdr.MessageLayout(Cdr.ROOT_ID), value)
        && (Raw !in config.asked ==>
              && info.plan.value.Valid()
              && Cdr.Canonical(info.plan.value, cdr)
              && Cdr.DecodeRow(info.plan.value, cdr) == Some(value))
  }

  predicate Feasible(config: Config, session: Session, command: Command) {
    command.Record? && command.topic < |session.infos| ==>
      Decodable(config, session.infos[command.topic], command.cdr, command.outcome)
  }

  ghost predicate FeasibleScript(config: Config, script: seq<Command>) {
    forall i :: 0 <= i < |script| ==> Feasible(config, Performed(config, script[..i]), script[i])
  }

  /** The messages accepted, by the books and by the script. */
  ghost predicate Agrees(items: seq<Item>, accepted: seq<Numbered>) {
    && |items| == |accepted|
    && forall i :: 0 <= i < |items| ==>
         Numbered(MessageOf(items[i]), items[i].entry.sequence, items[i].entry.value) == accepted[i]
  }

  ghost predicate Tracks(writer: Writer, session: Session)
    reads writer, writer.topics, PipelinesOf(writer.topics)
  {
    && session.Valid()
    && |writer.topics| == |writer.ledger.slots| == |session.infos|
    && (forall i :: 0 <= i < |writer.topics| ==> writer.topics[i].retired == session.retired[i])
    && (forall i :: 0 <= i < |writer.topics| ==> writer.topics[i].Decoding() == session.decoding[i])
    && (forall i :: 0 <= i < |writer.topics| ==> writer.ledger.slots[i].info == session.infos[i])
    && writer.topicIds == session.ids
    && writer.nextSequence == session.next
    && Agrees(writer.ledger.accepted, session.accepted)
    && writer.ledger.lost == multiset{}
  }

  /** The decoder of a topic makes of a message what the script says it does. */
  lemma WillDecode(writer: Writer, session: Session, topic: nat, cdr: bytes, outcome: Outcome)
    requires writer.Valid() && Tracks(writer, session) && topic < |writer.topics|
    requires Decodable(writer.config, session.infos[topic], cdr, outcome)
    ensures writer.Decodes(topic, outcome)
    ensures writer.ledger.slots[topic] == writer.topics[topic].pipeline.slot
    ensures writer.topics[topic].pipeline.slot.keepRaw <==> Raw in writer.config.asked
    ensures writer.topics[topic].pipeline.decoder.Some? ==> writer.topics[topic].pipeline.slot.info.plan.Some?
  {
    hide Agrees, Ledger.Balanced, Ledger.Sequenced, WellBatched, Apart, Sink.Valid;
    var i := topic;
    assert Fits(writer.topics[i], writer.config.policy, writer.ledger.slots[i], writer.ledger.held[i],
                writer.clock.now);
    assert Configured(writer.config, writer.ledger.slots[i]);
  }

  /** A message that is accepted adds to both accounts alike. */
  lemma AcceptedAlike(config: Config, items: seq<Item>, accepted: seq<Numbered>, slot: Slot, entry: Forms.Entry,
                      outcome: Outcome)
    requires Agrees(items, accepted) && Decodable(config, slot.info, entry.cdr, outcome)
    requires slot.keepRaw <==> Raw in config.asked
    requires entry.value == None || (outcome.Decoded? && entry.value == Some(outcome.value) && slot.info.plan.Some?)
    ensures var message := Message(slot.info.name, entry.recv, entry.send, entry.cdr);
            Agrees(items + [Item(slot, entry)], accepted + [Numbered(message, entry.sequence, entry.value)])
  {
    ReplaysOwnBytes(Item(slot, entry));
  }

  method RecordOne(writer: Writer, topic: nat, cdr: bytes, recv: i64, send: i64, outcome: Outcome,
                   ghost session: Session)
    requires writer.Valid() && writer.Punctual() && Tracks(writer, session)
    requires Feasible(writer.config, session, Record(topic, cdr, recv, send, outcome))
    modifies writer, writer.rec, writer.clock, writer.topics, PipelinesOf(writer.topics), RowsOf(writer.topics)
    ensures writer.Valid() && writer.Punctual() && writer.topics == old(writer.topics)
    ensures Tracks(writer, session.Next(writer.config, Record(topic, cdr, recv, send, outcome)))
  {
    hide Writer.Valid, Writer.Punctual, Writer.Decodes, Writer.Accepted, Agrees, Decodable, MessageOf, Sheds, Recent;
    ghost var before, accepting := writer.ledger, writer.ledger;
    if topic < |writer.topics| {
      WillDecode(writer, session, topic, cdr, outcome);
      if !writer.topics[topic].retired {
        accepting := AcceptedOne(writer, session, topic, cdr, recv, send, outcome);
      }
    }
    var _, _ := writer.Write(topic, cdr, recv, send, outcome);
    if topic < |writer.topics| {
      ShedsKeeps(accepting, writer.ledger);
    }
  }

  /** The books with one more message, against the script with one more command. */
  lemma AcceptedOne(writer: Writer, session: Session, topic: nat, cdr: bytes, recv: i64, send: i64, outcome: Outcome)
    returns (after: Ledger)
    requires writer.Valid() && Tracks(writer, session) && topic < |writer.topics| && !writer.topics[topic].retired
    requires Decodable(writer.config, session.infos[topic], cdr, outcome)
    ensures |writer.topics| == |writer.ledger.held|
    ensures after == writer.Accepted(topic, cdr, recv, send, writer.nextSequence, outcome)
    ensures after.slots == writer.ledger.slots && after.lost == multiset{}
    ensures Agrees(after.accepted, session.Next(writer.config, Record(topic, cdr, recv, send, outcome)).accepted)
  {
    WillDecode(writer, session, topic, cdr, outcome);
    LengthsAgree(writer);
    hide Writer.Valid, Agrees, MessageOf;
    var pipeline, books := writer.topics[topic].pipeline, writer.ledger;
    var entry := pipeline.Arrival(cdr, recv, send, session.next, outcome, writer.clock.now);
    AcceptedAlike(writer.config, books.accepted, session.accepted, books.slots[topic], entry, outcome);
    after := books.Accepting(topic, entry, pipeline.Casualties(outcome) != []);
  }

  lemma LengthsAgree(writer: Writer)
    requires writer.Valid()
    ensures |writer.topics| == |writer.ledger.slots| == |writer.ledger.held|
  {}

  /** One call, and one step of the script. */
  method Perform(writer: Writer, command: Command, ghost session: Session)
    requires writer.Valid() && writer.Punctual() && Tracks(writer, session) && Feasible(writer.config, session, command)
    modifies writer, writer.rec, writer.clock, writer.topics, PipelinesOf(writer.topics), RowsOf(writer.topics)
    ensures writer.Valid() && writer.Punctual() && Tracks(writer, session.Next(writer.config, command))
    ensures fresh((set t | t in writer.topics) - (set t | t in old(writer.topics)))
    ensures fresh(PipelinesOf(writer.topics) - PipelinesOf(old(writer.topics)))
    ensures fresh(RowsOf(writer.topics) - RowsOf(old(writer.topics)))
  {
    hide Writer.Valid, Writer.Punctual, Agrees;
    match command {
      case Declare(info, matched) =>
        var _ := writer.CreateTopic(info, matched);
      case Record(topic, cdr, recv, send, outcome) =>
        RecordOne(writer, topic, cdr, recv, send, outcome, session);
      case Remove(name) =>
        writer.RemoveTopic(name);
    }
  }

  /** A new writer has performed the empty script. */
  lemma TracksNothing(config: Config, writer: Writer)
    requires writer.topics == [] && writer.topicIds == map[] && writer.nextSequence == 0
    requires writer.ledger == Ledger([], [], [], [], multiset{})
    ensures Tracks(writer, Performed(config, []))
  {}

  lemma TracksMeans(writer: Writer, session: Session)
    requires Tracks(writer, session)
    ensures writer.ledger.lost == multiset{} && Agrees(writer.ledger.accepted, session.accepted)
    ensures forall slot :: slot in writer.ledger.slots ==> slot.info in session.infos
  {
    hide Agrees;
    forall slot | slot in writer.ledger.slots ensures slot.info in session.infos {
      var i :| 0 <= i < |writer.ledger.slots| && writer.ledger.slots[i] == slot;
      assert session.infos[i] == slot.info;
    }
  }

  lemma AccountedMeans(writer: Writer)
    requires writer.Accounted()
    ensures writer.ledger.Sound(writer.config, writer.nextSequence)
  {}

  /** The books of a closed recording whose script was performed. */
  ghost predicate Closed(config: Config, script: seq<Command>, file: seq<LogMsg>, ledger: Ledger, next: int) {
    && ledger.Sound(config, next)
    && file == RenderAll(ledger.events)
    && (forall event :: event in ledger.events ==> RendersAsAsked(config, event))
    && (forall i :: 0 <= i < |ledger.held| ==> ledger.held[i] == [])
    && ledger.lost == multiset{}
    && Agrees(ledger.accepted, Performed(config, script).accepted)
    && (forall slot :: slot in ledger.slots ==> slot.info in Performed(config, script).infos)
  }

  /** Writes a whole bag: every call of a script, then the close. What is in the file is accounted for
      by books that accept what the script says. */
  method WriteBag(config: Config, script: seq<Command>) returns (file: seq<LogMsg>)
    requires FeasibleScript(config, script)
    ensures exists ledger, next :: Closed(config, script, file, ledger, next)
  {
    hide Tracks, Agrees, Performed, RendersAsAsked, Session.Next, Session.Valid, Feasible, FeasibleScript, Writer.Valid,
        Writer.Punctual,
      Writer.Accounted, Ledger.Sound, Flat, Sheds, Sink.Valid, RenderAll;
    var rec := new Sink();
    var clock := new Clock(false);
    var writer := new Writer.Open(rec, clock, config);
    TracksNothing(config, writer);
    var i := 0;
    assert script[..0] == [];
    while i < |script|
      invariant i <= |script| && writer.Valid() && writer.Punctual() && writer.config == config
      invariant fresh(writer) && fresh(writer.rec) && fresh(writer.clock)
      invariant fresh(set t | t in writer.topics) && fresh(PipelinesOf(writer.topics)) && fresh(RowsOf(writer.topics))
      invariant Tracks(writer, Performed(config, script[..i]))
    {
      PerformedMore(config, script, i);
      Perform(writer, script[i], Performed(config, script[..i]));
      i := i + 1;
    }
    assert script[..i] == script;
    TracksMeans(writer, Performed(config, script));
    ghost var before := writer.ledger;
    writer.Close();
    ShedsKeeps(before, writer.ledger);
    AccountedMeans(writer);
    BatchesRenderAsAsked(writer.ledger, config, writer.nextSequence);
    file := writer.rec.file;
    assert Closed(config, script, file, writer.ledger, writer.nextSequence);
  }

  lemma PerformedMore(config: Config, script: seq<Command>, i: nat)
    requires FeasibleScript(config, script) && i < |script|
    ensures Feasible(config, Performed(config, script[..i]), script[i])
    ensures Performed(config, script[..i]).Valid()
    ensures Performed(config, script[..i + 1]) == Performed(config, script[..i]).Next(config, script[i])
  {
    hide Feasible;
    assert script[..i + 1][..i] == script[..i];
  }

  // ---------------------------------------------------------------- reading it back

  ghost function Keyed(accepted: seq<Numbered>): map<nat, SortKey> {
    map i: nat | i < |accepted| :: SortKey(accepted[i].message.recv, accepted[i].sequence)
  }

  /** The accepted messages in order of receive time, and of writing where those are the same. */
  ghost function Sorted(accepted: seq<Numbered>): seq<Response> {
    if Distinct(Keyed(accepted)) then
      var order: seq<nat> := Playlist<nat>(Keyed(accepted), false, Keyed(accepted).Keys);
      seq(|order|, n requires 0 <= n < |order| =>
        if order[n] < |accepted| then Got(accepted[order[n]].message) else Exhausted)
    else []
  }

  /** The responses are the messages accepted, each once, in the order of when they were received, those
      received at the same time in the order they were accepted in; and then that there are no more. */
  ghost predicate Replays(accepted: seq<Numbered>, responses: seq<Response>, order: seq<nat>) {
    && |order| == |accepted| && |responses| == |accepted| + 1
    && (forall n :: 0 <= n < |order| ==>
          order[n] < |accepted| && responses[n] == Got(accepted[order[n]].message))
    && (forall n, m :: 0 <= n < m < |order| ==>
          var a, b := accepted[order[n]].message, accepted[order[m]].message;
          a.recv < b.recv || (a.recv == b.recv && order[n] < order[m]))
    && responses[|accepted|] == Exhausted
  }

  /** The messages sorted by receive time and number are those. */
  lemma SortedReplays(accepted: seq<Numbered>) returns (order: seq<nat>)
    requires Growing(accepted)
    ensures Replays(accepted, Sorted(accepted) + [Exhausted], order)
  {
    hide Growing, Playlist, Keyed;
    KeysDiffer(accepted);
    order := Playlist<nat>(Keyed(accepted), false, Keyed(accepted).Keys);
    KeysCount(accepted);
    forall n | 0 <= n < |order| ensures order[n] < |accepted| {
      assert order[n] in order;
      KeyedAt(accepted, order[n]);
    }
    PlaylistSorts(accepted, order);
  }

  /** Later messages have larger numbers. */
  ghost predicate Growing(accepted: seq<Numbered>) {
    forall i, j :: 0 <= i < j < |accepted| ==> accepted[i].sequence < accepted[j].sequence
  }

  lemma KeysDiffer(accepted: seq<Numbered>)
    requires Growing(accepted)
    ensures Distinct(Keyed(accepted))
  {
    var keys := Keyed(accepted);
    forall i, j | i in keys && j in keys && i != j ensures keys[i] != keys[j] {
      var first, second := if i < j then i else j, if i < j then j else i;
      assert accepted[first].sequence < accepted[second].sequence;
    }
  }

  lemma PlaylistSorts(accepted: seq<Numbered>, order: seq<nat>)
    requires Growing(accepted) && Distinct(Keyed(accepted))
    requires order == Playlist<nat>(Keyed(accepted), false, Keyed(accepted).Keys)
    requires forall n :: 0 <= n < |order| ==> order[n] < |accepted|
    ensures forall n, m :: 0 <= n < m < |order| ==>
              var a, b := accepted[order[n]].message, accepted[order[m]].message;
              a.recv < b.recv || (a.recv == b.recv && order[n] < order[m])
  {
    hide Playlist, Growing, Keyed;
    PlaylistInOrder(Keyed(accepted), false, Keyed(accepted).Keys);
    forall n, m | 0 <= n < m < |order|
      ensures var a, b := accepted[order[n]].message, accepted[order[m]].message;
              a.recv < b.recv || (a.recv == b.recv && order[n] < order[m])
    {
      assert order[n] in order && order[m] in order;
      KeyedAt(accepted, order[n]);
      KeyedAt(accepted, order[m]);
      EarlierIsSmaller(accepted, order[n], order[m]);
    }
  }

  lemma EarlierIsSmaller(accepted: seq<Numbered>, i: nat, j: nat)
    requires Growing(accepted) && i < |accepted| && j < |accepted|
    ensures accepted[i].sequence < accepted[j].sequence <==> i < j
  {
    if j < i { assert accepted[j].sequence < accepted[i].sequence; }
  }

  ghost function KeyOfNumbered(accepted: seq<Numbered>, i: nat): SortKey
    requires i < |accepted|
  {
    SortKey(accepted[i].message.recv, accepted[i].sequence)
  }

  lemma KeyedAt(accepted: seq<Numbered>, i: nat)
    requires i in Keyed(accepted)
    ensures i < |accepted| && Keyed(accepted)[i] == KeyOfNumbered(accepted, i)
  {}

  lemma {:induction false} KeysCount(accepted: seq<Numbered>)
    ensures |Keyed(accepted).Keys| == |accepted|
  {
    if accepted == [] {
      assert Keyed(accepted).Keys == {};
    } else {
      var last := |accepted| - 1;
      KeysCount(accepted[..last]);
      assert Keyed(accepted).Keys == Keyed(accepted[..last]).Keys + {last};
    }
  }

  lemma SequencesGrow(ledger: Ledger, config: Config, next: int, accepted: seq<Numbered>)
    requires ledger.Sound(config, next) && Agrees(ledger.accepted, accepted)
    ensures Growing(accepted)
  {
    hide MessageOf, WellBatched, Ledger.Balanced;
    forall i, j | 0 <= i < j < |accepted| ensures accepted[i].sequence < accepted[j].sequence {
      assert ledger.accepted[i].entry.sequence == accepted[i].sequence;
      assert ledger.accepted[j].entry.sequence == accepted[j].sequence;
    }
  }

  /** Each topic's messages arrive in order of receive time, and none at a sentinel. */
  ghost predicate InTime(accepted: seq<Numbered>) {
    && (forall i :: 0 <= i < |accepted| ==> I64_MIN < accepted[i].message.recv < I64_MAX)
    && (forall i, j :: 0 <= i < j < |accepted| && accepted[i].message.topic == accepted[j].message.topic
          ==> accepted[i].message.recv <= accepted[j].message.recv)
  }

  lemma InTimeIsTimely(ledger: Ledger, accepted: seq<Numbered>)
    requires Agrees(ledger.accepted, accepted) && InTime(accepted)
    ensures Timely(ledger.accepted)
  {
    hide Replayed;
    forall i | 0 <= i < |accepted|
      ensures ledger.accepted[i].slot.info.name == accepted[i].message.topic
      ensures ledger.accepted[i].entry.recv as int == accepted[i].message.recv
    {
      assert MessageOf(ledger.accepted[i]) == accepted[i].message;
    }
  }

  lemma ExpectedIsSorted(ledger: Ledger, accepted: seq<Numbered>)
    requires Agrees(ledger.accepted, accepted) && ledger.lost == multiset{}
    requires Distinct(AcceptedKeys(ledger.accepted))
    ensures Expected(ledger) == Sorted(accepted)
  {
    SameKeys(ledger, accepted);
    hide Keyed, AcceptedKeys, Survivors, MessageOf, Playlist;
    assert Arranged(ledger) == Playlist(Keyed(accepted), false, Keyed(accepted).Keys);
  }

  lemma SameKeys(ledger: Ledger, accepted: seq<Numbered>)
    requires Agrees(ledger.accepted, accepted) && ledger.lost == multiset{}
    ensures AcceptedKeys(ledger.accepted) == Keyed(accepted) && Survivors(ledger) == Keyed(accepted).Keys
    ensures forall i :: 0 <= i < |accepted| ==> MessageOf(ledger.accepted[i]) == accepted[i].message
  {
    hide Replayed;
    forall i | 0 <= i < |accepted|
      ensures AcceptedKeys(ledger.accepted)[i] == Keyed(accepted)[i]
              && MessageOf(ledger.accepted[i]) == accepted[i].message
    {
      assert MessageOf(ledger.accepted[i]) == accepted[i].message;
    }
  }

  /** The topic table a reader builds: every topic as it was declared. */
  ghost predicate TableFits(topics: seq<TopicInfo>, topicIndex: map<Entity, nat>, infos: seq<TopicInfo>) {
    && (forall entity :: entity in topicIndex ==> topicIndex[entity] < |topics|)
    && (forall info :: info in infos ==> info.name in topicIndex && topics[topicIndex[info.name]] == info)
  }

  /** Opens a closed bag, with its footer or without, and reads until there is nothing more. */
  method ReadBag(bag: Bag, footer: Option<ChunkIndexes.Manifest>, ghost ledger: Ledger, ghost config: Config,
                 ghost next: int)
    returns (responses: seq<Response>)
    requires Published(ledger, config, next, bag) && KeepsMessages(config) && Timely(ledger.accepted) && bag.Valid()
    requires footer.Some? ==> Describes(footer.value, bag)
    ensures responses == Expected(ledger) + [Exhausted]
  {
    BagIsSound(ledger, config, next, bag);
    ReplayIsAccepted(ledger, config, next, bag, footer.Some?);
    hide *;
    var reader := new Reader.Open(bag, footer);
    responses := Play(reader, Reads(reader.messageCount) + [ReadNext]);
  }

  /** Whatever is asked for that keeps messages, whatever the limits on flushing, however time passes
      and whichever topics come and go: writing a bag and reading it back, by its footer or without one,
      gives every message that was accepted, byte for byte, in order of receive time and then of writing. */
  method WriteThenRead(config: Config, script: seq<Command>, topics: seq<TopicInfo>, topicIndex: map<Entity, nat>)
    returns (indexed: seq<Response>, scanned: seq<Response>)
    requires FeasibleScript(config, script) && KeepsMessages(config) && InTime(Performed(config, script).accepted)
    requires TableFits(topics, topicIndex, Performed(config, script).infos)
    ensures indexed == Sorted(Performed(config, script).accepted) + [Exhausted]
    ensures scanned == Sorted(Performed(config, script).accepted) + [Exhausted]
    ensures exists order :: Replays(Performed(config, script).accepted, indexed, order)
  {
    hide FeasibleScript, InTime, Sorted, RendersAsAsked, Expected, Agrees, Performed, Ledger.Sound, Timely,
      KeepsMessages, RenderAll, Bag.Valid, Describes, Replays;
    var file := WriteBag(config, script);
    ghost var ledger, next :| Closed(config, script, file, ledger, next);
    var bag := Bag(file, topics, topicIndex);
    InTimeIsTimely(ledger, Performed(config, script).accepted);
    AcceptedKeysDiffer(ledger, config, next);
    ExpectedIsSorted(ledger, Performed(config, script).accepted);
    BagIsSound(ledger, config, next, bag);
    var footer := FooterOf(bag);
    indexed := ReadBag(bag, Some(footer), ledger, config, next);
    scanned := ReadBag(bag, None, ledger, config, next);
    SequencesGrow(ledger, config, next, Performed(config, script).accepted);
    var _ := SortedReplays(Performed(config, script).accepted);
  }
}
