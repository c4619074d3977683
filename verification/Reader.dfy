/** The read path (`reader.rs`): a streaming merge over the chunks of a recording. */
module Readers {
  import opened Basics
  import opened Ordering
  import opened Recording
  import opened Playback
  import opened ChunkIndexes
  import opened Footers
  import opened Merge
  import opened ReadAhead
  import opened Residency
  import opened Opening

  datatype TakenRow = TakenRow(topic: nat, recv: int, send: int, data: bytes)

  /** Every row of a fresh pass is ahead of it. */
  lemma FreshPass(bag: Bag, refs: seq<ChunkRef>, filter: seq<string>, reverse: bool)
    requires bag.Valid() && Indexes(bag, refs)
    ensures Held(bag, IndexUnread(bag, refs, filter, reverse, 0), []) == Ahead(bag, Cursor(reverse, filter, Start))
  {
    IndexUnreadHoldsMessages(bag, refs, filter, reverse, 0);
    forall id | bag.IsRow(id)
      ensures id.chunk in IndexUnread(bag, refs, filter, reverse, 0) <==> Wanted(filter, bag.TopicAt(id))
    {
      if Wanted(filter, bag.TopicAt(id)) {
        var _, _ := WantedRowsAreUnread(bag, refs, filter, reverse, 0, id);
      }
    }
  }

  /** What a pass over the index holds after skipping chunks that end before `time`, or start after
      it going backwards: nothing at or past `time` was skipped. */
  lemma SkippedPass(bag: Bag, refs: seq<ChunkRef>, filter: seq<string>, reverse: bool, at: nat, time: int)
    requires bag.Valid() && Indexes(bag, refs) && at <= |refs|
    requires forall p :: 0 <= p < at ==>
               if reverse then refs[Place(refs, reverse, p)].start > time else refs[Place(refs, reverse, p)].end < time
    ensures Ahead(bag, Cursor(reverse, filter, From(time)))
         <= Held(bag, IndexUnread(bag, refs, filter, reverse, at), [])
    ensures Held(bag, IndexUnread(bag, refs, filter, reverse, at), []) <= Ahead(bag, Cursor(reverse, filter, Start))
  {
    IndexUnreadHoldsMessages(bag, refs, filter, reverse, at);
    forall id | id in Ahead(bag, Cursor(reverse, filter, From(time)))
      ensures id.chunk in IndexUnread(bag, refs, filter, reverse, at)
    {
      var _, p := WantedRowsAreUnread(bag, refs, filter, reverse, at, id);
    }
  }

  /** Past a row is past its time. */
  lemma AfterIsFrom(bag: Bag, reverse: bool, filter: seq<string>, key: SortKey)
    ensures Ahead(bag, Cursor(reverse, filter, After(key))) <= Ahead(bag, Cursor(reverse, filter, From(key.recv)))
  {}

  /** A filter no narrower than another. */
  predicate Admits(pass: seq<string>, filter: seq<string>) { pass == [] || pass == filter }

  /** Playing the first row of a pass moves its boundary past it. */
  lemma Played(bag: Bag, pass: Cursor, first: RowId)
    requires bag.Ordered() && IsFirst(bag.Keys(), pass.reverse, Ahead(bag, pass), first)
    ensures Ahead(bag, pass.(boundary := After(bag.KeyAt(first)))) == Ahead(bag, pass) - {first}
  {
    forall id | bag.IsRow(id) && id != first ensures bag.Keys()[id] != bag.Keys()[first] {}
  }

  /** Playing a row the caller does not want leaves what the caller wants where it was. */
  lemma PassedOver(bag: Bag, pass: Cursor, filter: seq<string>, first: RowId)
    requires bag.Ordered() && IsFirst(bag.Keys(), pass.reverse, Ahead(bag, pass), first)
    requires Admits(pass.filter, filter) && !Wanted(filter, bag.TopicAt(first))
    ensures Ahead(bag, pass.(filter := filter, boundary := After(bag.KeyAt(first))))
            == Ahead(bag, pass.(filter := filter))
  {
    Played(bag, pass, first);
    var after := pass.(boundary := After(bag.KeyAt(first)));
    forall id | bag.IsRow(id) && Wanted(filter, bag.TopicAt(id))
      ensures id in Ahead(bag, after.(filter := filter)) <==> id in Ahead(bag, pass.(filter := filter))
    {
      assert id in Ahead(bag, after) <==> id in Ahead(bag, pass);
    }
  }

  /** The first row of a pass that the caller wants is the first row the caller wants. */
  lemma WantedFirst(bag: Bag, pass: Cursor, filter: seq<string>, first: RowId)
    requires bag.Ordered() && IsFirst(bag.Keys(), pass.reverse, Ahead(bag, pass), first)
    requires Admits(pass.filter, filter) && Wanted(filter, bag.TopicAt(first))
    ensures var ahead := Ahead(bag, pass.(filter := filter));
            first in ahead && First(bag.Keys(), pass.reverse, ahead) == first
  {
    var ahead := Ahead(bag, pass.(filter := filter));
    assert ahead <= Ahead(bag, pass) && first in ahead;
    var other := First(bag.Keys(), pass.reverse, ahead);
    assert other != first ==> Precedes(pass.reverse, bag.Keys()[first], bag.Keys()[other]);
  }

  /** A pass whose first row cannot be played stands just before it. */
  lemma StuckBefore(bag: Bag, pass: Cursor, first: RowId)
    requires bag.Ordered() && IsFirst(bag.Keys(), pass.reverse, Ahead(bag, pass), first)
    ensures Ahead(bag, pass.(boundary := Before(bag.KeyAt(first)))) == Ahead(bag, pass)
  {
    forall id | bag.IsRow(id) && id != first ensures bag.Keys()[id] != bag.Keys()[first] {}
  }

  /** The step a read takes, seen from a pass whose first row is one the caller wants. */
  lemma ReadStep(bag: Bag, indexed: bool, cursor: Cursor, pass: Cursor, first: RowId)
    requires bag.Valid() && bag.Ordered() && IsFirst(bag.Keys(), pass.reverse, Ahead(bag, pass), first)
    requires Admits(pass.filter, cursor.filter) && Wanted(cursor.filter, bag.TopicAt(first))
    requires pass.reverse == cursor.reverse && Ahead(bag, pass.(filter := cursor.filter)) == Ahead(bag, cursor)
    ensures var key := bag.KeyAt(first);
            Step(bag, indexed, cursor, Call.ReadNext) ==
              if bag.PayloadAt(first).Ok? then (cursor.(boundary := After(key)), Got(bag.MessageAt(first)))
              else (if indexed then cursor else cursor.(boundary := Before(key)), Failed(bag.PayloadAt(first).error))
    ensures Ahead(bag, pass.(boundary := After(bag.KeyAt(first)))) == Ahead(bag, pass) - {first}
    ensures Ahead(bag, pass.(boundary := Before(bag.KeyAt(first)))) == Ahead(bag, pass)
  {
    WantedFirst(bag, pass, cursor.filter, first);
    Played(bag, pass, first);
    StuckBefore(bag, pass, first);
  }

  /** How the result of a read reads to the caller. */
  function Answer(r: Result<Option<Message>>): Response {
    match r
    case Ok(None) => Exhausted
    case Ok(Some(message)) => Got(message)
    case Err(error) => Failed(error)
  }

  /** Builds the index of the chunks that hold messages, counting them on the way. */
  method OpenIndex(bag: Bag, manifest: Manifest) returns (index: ChunkIndex, tally: Tally)
    requires bag.Valid() && Formed(bag) && Describes(manifest, bag)
    ensures fresh(index) && Indexes(bag, index.chunks) && PrefixMaxima(index.chunks, index.maxEndThrough)
    ensures Spans(bag, bag.AllRows(), tally.timeRange)
    ensures tally.messageCount == Sum(tally.counts) == |bag.AllRows()|
    ensures |tally.counts| == |bag.topics|
    ensures forall t :: 0 <= t < |tally.counts| ==> tally.counts[t] == |TopicRows(bag, t)|
  {
    index := new ChunkIndex.Open(manifest);
    ghost var listed := index.chunks;
    var before := index.chunks;
    index.Retain((ref: ChunkRef) => Keeps(bag, ref));
    KeptIndexes(bag, manifest, listed, index.chunks);
    var counts := CountIndexed(bag, before);
    AllIndexed(bag, listed);
    AllCounted(bag, IdsOf(listed), counts);
    TotalIsRows(bag, index.chunks);
    RowsOfIndex(bag, index.chunks);
    IndexSpans(bag, index.chunks, index.TimeRange());
    tally := Tally(counts, index.MessageCount(), index.TimeRange());
  }

  lemma RowsOfIndex(bag: Bag, refs: seq<ChunkRef>)
    requires Indexes(bag, refs)
    ensures RowsIn(bag, IdsOf(refs)) == bag.AllRows()
  {}

  lemma NamesItsTopic(bag: Bag, id: RowId)
    requires bag.Valid() && bag.IsRow(id) && bag.PayloadAt(id).Ok?
    ensures bag.MessageAt(id).topic == bag.TopicAt(id).name
  {}

  class Reader {
    const bag: Bag

    /** `null` for a recording without a footer, which is scanned. */
    const index: ChunkIndex?

    /** How many chunks of the index this pass has handed out or passed. */
    var at: nat

    /** Where a scan has got to in the file; `None` when it is over. */
    var source: Option<nat>

    /** The chunks being merged. */
    var window: seq<Window>

    /** The time of the row last consumed, or the time last sought. */
    var position: i64

    /** The names of the topics wanted; see `Wanted`. */
    var filter: seq<string>

    /** What the last row delivered was sorted by, until the next seek. */
    var cursor: Option<SortKey>

    /** `earliestRemaining[i]` bounds every chunk from the `i`th scanned one onwards. */
    const earliestRemaining: seq<i64>

    /** How many chunks a scan has met that were on a topic. */
    var nextChunk: nat

    /** Replay newest-first. */
    var reverse: bool

    /** What the recording reports of itself; the counts are per topic. */
    const messageCount: nat
    const timeRange: Option<(int, int)>
    const counts: seq<nat>

    /** How far the caller has got: what the calls so far amount to. */
    ghost var boundary: Boundary

    // -------------------------------------------------------------- abstraction

    ghost predicate Environment()
      reads index
    {
      && bag.Valid()
      && (index != null ==> Indexes(bag, index.chunks) && PrefixMaxima(index.chunks, index.maxEndThrough))
      && (index == null ==> SuffixBounds(bag, earliestRemaining))
    }

    /** The message chunks this pass has still to read. */
    ghost function Unread(): set<nat>
      reads `at, `source, `filter, `reverse, index
    {
      if index != null then IndexUnread(bag, index.chunks, filter, reverse, at) else ScanUnread(bag, source)
    }

    /** The rows this pass has still to play. */
    ghost function Remaining(): (rows: set<RowId>)
      reads `at, `source, `filter, `reverse, `window, index
      ensures forall id :: id in rows ==> bag.IsRow(id)
    {
      Held(bag, Unread(), window)
    }

    /** The cursor the caller sees. */
    ghost function View(): Cursor
      reads `filter, `reverse, `boundary
    {
      Cursor(reverse, filter, boundary)
    }

    /** The cursor of the merge: an indexed pass leaves filtered-out chunks on disk, a scanning one
        merges every row and filters as it delivers. */
    ghost function Pass(to: Boundary): Cursor
      reads `filter, `reverse
    {
      Cursor(reverse, if index != null then filter else [], to)
    }

    /** Nothing is lost or held twice, whatever the order of the rows. */
    ghost predicate Sound()
      reads `at, `source, `filter, `reverse, `window, `nextChunk, index
    {
      && Environment()
      && Consistent(bag, reverse, Unread(), window)
      && Progress()
      && (Streams() ==> Resident(index.chunks, filter, at, window))
    }

    /** The counter of a scanning pass never runs ahead of it. */
    ghost predicate Progress()
      reads `source, `nextChunk
    {
      index == null && source.Some? ==>
        source.value <= |bag.file| && nextChunk <= ScannedBefore(bag, source.value)
    }

    lemma JoinSound()
      requires Environment() && Consistent(bag, reverse, Unread(), window) && Progress()
      requires Streams() ==> Resident(index.chunks, filter, at, window)
      ensures Sound() && Remaining() == Held(bag, Unread(), window)
    {}

    lemma SplitSound()
      requires Sound()
      ensures bag.Valid() && Environment() && Consistent(bag, reverse, Unread(), window) && Progress()
      ensures Streams() ==> Resident(index.chunks, filter, at, window)
      ensures Remaining() == Held(bag, Unread(), window)
    {}

    /** A forward pass over the index holds no more than it needs; see `Straddling`. */
    ghost predicate Streams()
      reads `reverse
    {
      bag.Ordered() && index != null && !reverse
    }

    /** On the indexed path the boundary can be read off `cursor` and `position`; in particular a
        set cursor implies `position == cursor.recv`. */
    ghost predicate Tracks()
      reads `boundary, `cursor, `position
    {
      match boundary
      case Start => cursor.None? && position == I64_MIN
      case From(time) => cursor.None? && position == time
      case After(key) => cursor == Some(key) && position == key.recv
      case _ => false
    }

    ghost predicate Valid()
      reads this, index
    {
      && Sound()
      && (bag.Ordered() ==> Remaining() == Ahead(bag, Pass(boundary)))
      && (bag.Ordered() && index != null ==> Tracks())
    }

    // -------------------------------------------------------------- opening

    /** Opens a recording through its footer, or by scanning it if it has none. */
    constructor Open(bag: Bag, footer: Option<Manifest>)
      requires bag.Valid()
      requires footer.Some? ==> Formed(bag) && Describes(footer.value, bag)
      ensures Valid() && this.bag == bag && View() == Cursor(false, [], Start) && Remaining() == bag.AllRows()
      ensures (index != null) == footer.Some? && (index != null ==> fresh(index))
      ensures Spans(bag, bag.AllRows(), timeRange)
      ensures footer.Some? || Timed(bag) ==>
                && messageCount == Sum(counts) == |bag.AllRows()|
                && |counts| == |bag.topics| && forall t :: 0 <= t < |counts| ==> counts[t] == |TopicRows(bag, t)|
    {
      hide Formed, Describes, Indexes, PrefixMaxima, SuffixBounds, ScanOf, Spans, Counted, Timed, ChunksOf, TopicRows,
          Sum, RowsIn,
        Bag.Valid, Bag.Ordered, Sound, Remaining, Pass, Ahead;
      var index: ChunkIndex? := null;
      var earliest: seq<i64> := [];
      var tally: Tally;
      if footer.Some? {
        index, tally := OpenIndex(bag, footer.value);
      } else {
        var scanned := ScanFile(bag);
        tally := CountScanned(bag, scanned);
        if Timed(bag) { AllCounted(bag, ChunksOf(scanned), tally.counts); }
        earliest := SuffixMinima(bag, scanned);
      }
      this.bag := bag;
      this.index := index;
      this.earliestRemaining := earliest;
      this.counts, this.messageCount, this.timeRange := tally.counts, tally.messageCount, tally.timeRange;
      at, source, window, position, filter, cursor, nextChunk, reverse := 0, None, [], I64_MIN, [], None, 0, false;
      boundary := Start;
      new;
      Restart();
      AllAhead();
    }

    lemma AllAhead()
      requires filter == []
      ensures Ahead(bag, Pass(Start)) == bag.AllRows()
    {}

    // -------------------------------------------------------------- starting over

    /** Begins a new pass, with every row still to be played. */
    method Restart()
      requires Environment()
      modifies `window, `nextChunk, `position, `cursor, `at, `source, `boundary
      ensures Valid() && boundary == Start && window == [] && position == I64_MIN && cursor.None?
      ensures Remaining() == Ahead(bag, Pass(Start))
      ensures index != null ==> at == 0
    {
      window := [];
      nextChunk := 0;
      position := I64_MIN;
      cursor := None;
      boundary := Start;
      if index != null {
        at := 0;
      } else {
        source := Some(0);
      }
      FreshIsSound();
      hide Sound, Remaining, Ahead;
    }

    lemma FreshIsSound()
      requires Environment() && window == []
      requires if index != null then at == 0 else source == Some(0) && nextChunk == 0
      ensures Sound() && Remaining() == Ahead(bag, Pass(Start))
    {
      if index != null {
        FreshPass(bag, index.chunks, filter, reverse);
        IndexUnreadHoldsMessages(bag, index.chunks, filter, reverse, 0);
      }
    }

    /** Turns playback around, which begins a new pass. */
    method SetReverse(reverse: bool)
      requires Valid()
      modifies this
      ensures Valid()
      ensures bag.Ordered() ==> (View(), Done) == Step(bag, index != null, old(View()), Call.SetReverse(reverse))
    {
      if this.reverse != reverse {
        this.reverse := reverse;
        Restart();
      }
    }

    // -------------------------------------------------------------- reading chunks

    /** Steps through the index until a chunk is loaded or none is left. */
    method PullIndexed() returns (r: Option<Window>)
      requires Sound() && index != null
      modifies `at
      ensures PulledFrom(old(Unread()), r)
      ensures if r.Some? then PulledAt(old(at), r.value) else at >= |index.chunks|
      decreases |index.chunks| - at
    {
      SplitSound();
      hide *;
      ghost var before, from := Unread(), at;
      while at < |index.chunks|
        invariant Environment() && Unread() == before
        invariant from <= at && (filter == [] ==> at == from)
        decreases |index.chunks| - at
      {
        ghost var here := at;
        r := LoadNext();
        if r.Some? {
          PulledLater(from, here, r.value);
          return;
        }
      }
      NoneUnread(before);
      return None;
    }

    /** Moves past one chunk of the index, and loads it if the filter admits it. */
    method LoadNext() returns (r: Option<Window>)
      requires Environment() && index != null && at < |index.chunks|
      modifies `at
      ensures Environment() && at == old(at) + 1
      ensures r.Some? ==> PulledFrom(old(Unread()), r) && PulledAt(old(at), r.value)
      ensures r.None? ==> Unread() == old(Unread()) && filter != []
    {
      hide *;
      ghost var before := Unread();
      var place := if reverse then |index.chunks| - 1 - at else at;
      var ref := index.chunks[place];
      NamedByIndex(ref);
      ReadOnceByIndex(ref);
      at := at + 1;
      UnreadIsIndexed();
      r := LoadIndexed(ref);
      if r.Some? { PulledOne(at - 1, before, r.value); }
    }

    lemma PulledLater(from: nat, here: nat, w: Window)
      requires index != null && PulledAt(here, w) && from <= here && (filter == [] ==> from == here)
      ensures PulledAt(from, w)
    {}

    /** Loads a chunk the index names, if it is on a topic the filter admits. */
    method LoadIndexed(ref: ChunkRef) returns (r: Option<Window>)
      requires bag.IsMessageChunk(ref.id) && ref.entity == bag.file[ref.id].chunk.entity
      ensures r == if Wanted(filter, bag.topics[bag.Topic(ref.id)]) then Some(Opened(bag, reverse, ref.id)) else None
    {
      if ref.entity !in bag.topicIndex { return None; }
      var topic := bag.topicIndex[ref.entity];
      if !Wanted(filter, bag.topics[topic]) { return None; }
      var loaded := LoadWindow(ref.id, bag.file[ref.id].chunk, topic, bag.topics[topic]);
      if loaded.None? { return None; }
      r := Some(if reverse then loaded.value.BackToFront() else loaded.value);
    }

    lemma NoneUnread(before: set<nat>)
      requires index != null && at >= |index.chunks| && Unread() == before
      ensures PulledFrom(before, None)
    {}

    lemma UnreadIsIndexed()
      requires index != null
      ensures Unread() == IndexUnread(bag, index.chunks, filter, reverse, at)
    {}

    lemma PulledOne(from: nat, before: set<nat>, w: Window)
      requires index != null && from < at <= |index.chunks| && (filter == [] ==> at == from + 1)
      requires index.chunks[if reverse then |index.chunks| - at else at - 1].id == w.chunk
      requires w.chunk in before && bag.IsMessageChunk(w.chunk) && Unread() == before - {w.chunk}
      requires w == Opened(bag, reverse, w.chunk)
      ensures PulledFrom(before, Some(w)) && PulledAt(from, w)
    {}

    /** What the index names is a chunk of messages. */
    lemma NamedByIndex(ref: ChunkRef)
      requires Environment() && index != null && ref in index.chunks
      ensures bag.IsMessageChunk(ref.id) && ref.entity == bag.file[ref.id].chunk.entity
      ensures Opened(bag, reverse, ref.id).chunk == ref.id
    {
      assert Covers(bag, ref);
    }

    /** What the index names next is read once if it is wanted, and otherwise passed. */
    lemma ReadOnceByIndex(ref: ChunkRef)
      requires Environment() && index != null && at < |index.chunks| && bag.IsMessageChunk(ref.id)
      requires ref == index.chunks[if reverse then |index.chunks| - 1 - at else at]
      ensures var later, info := IndexUnread(bag, index.chunks, filter, reverse, at + 1), bag.topics[bag.Topic(ref.id)];
              && (if Wanted(filter, info) then ref.id in Unread() && later == Unread() - {ref.id}
                  else later == Unread())
              && (filter == [] ==> Wanted(filter, info))
    {
      assert ref in index.chunks && Covers(bag, ref);
      ReadOnce(bag, index.chunks, filter, reverse, at);
    }

    /** One chunk was read, or there was none left. */
    ghost predicate PulledFrom(before: set<nat>, r: Option<Window>)
      reads `at, `source, `filter, `reverse, index
    {
      match r
      case None => before == {} && Unread() == {}
      case Some(w) => w.chunk in before && bag.IsMessageChunk(w.chunk) && Unread() == before - {w.chunk}
                      && w == Opened(bag, reverse, w.chunk)
    }

    /** The chunk read is the last one the index position has passed, and only chunks the filter
        leaves out lie between. */
    ghost predicate PulledAt(before: nat, w: Window)
      requires index != null
      reads `at, `reverse, `filter, index
    {
      && before < at <= |index.chunks|
      && (filter == [] ==> at == before + 1)
      && index.chunks[Place(index.chunks, reverse, at - 1)].id == w.chunk
    }

    /** Opens one more chunk of messages, from the index or by scanning on. */
    method Pull() returns (r: Option<Window>)
      requires Sound()
      modifies `at, `source, `nextChunk
      ensures PulledFrom(old(Unread()), r)
      ensures index != null ==> if r.Some? then PulledAt(old(at), r.value) else at >= |index.chunks|
      ensures Environment() && Progress()
    {
      if index != null {
        r := PullIndexed();
        return;
      }
      if source.None? { return None; }
      var next := source.value;
      source := None;
      while next < |bag.file|
        invariant next <= |bag.file| && source.None?
        invariant ScanUnread(bag, Some(next)) == old(Unread())
        invariant nextChunk <= ScannedBefore(bag, next)
      {
        var c := next;
        next := next + 1;
        if !bag.file[c].Data? || bag.file[c].chunk.isStatic { continue; }
        if bag.file[c].chunk.entity !in bag.topicIndex { continue; }
        var topic := bag.topicIndex[bag.file[c].chunk.entity];

        nextChunk := nextChunk + 1;

        var loaded := LoadWindow(c, bag.file[c].chunk, topic, bag.topics[topic]);
        if loaded.Some? {
          source := Some(next);
          assert ScanUnread(bag, source) == old(Unread()) - {c};
          return Some(if reverse then loaded.value.BackToFront() else loaded.value);
        }
      }
      return None;
    }

    /** A bound on the times of the rows not resident: from below, or from above going backwards. */
    function EarliestUnread(): i64
      requires Environment()
      reads `at, `reverse, `nextChunk, index
    {
      if index == null then
        if nextChunk < |earliestRemaining| then earliestRemaining[nextChunk] else I64_MAX
      else if at >= |index.chunks| then
        if reverse then I64_MIN else I64_MAX
      else if reverse then index.maxEndThrough[|index.chunks| - 1 - at]
      else index.chunks[at].start
    }

    /** The bound holds in every mode that uses it. */
    lemma EarliestUnreadBounds(id: RowId)
      requires Sound() && (index == null ==> !reverse)
      requires bag.IsRow(id) && id.chunk in Unread()
      ensures if reverse then bag.KeyAt(id).recv <= EarliestUnread() else EarliestUnread() <= bag.KeyAt(id).recv
    {
      if index == null {
        ScanBounds(bag, earliestRemaining, source, nextChunk, id);
      } else {
        IndexBounds(bag, index.chunks, filter, reverse, at, id);
      }
    }

    /** Pulls one more chunk into the window, if there is one. */
    method ReadOne() returns (more: bool)
      requires Sound() && (Streams() ==> !PastBound())
      modifies `at, `source, `nextChunk, `window
      ensures Sound() && Remaining() == old(Remaining())
      ensures if more then Unread() < old(Unread()) else Unread() == {} && window == old(window)
    {
      ghost var before, from := Unread(), at;
      assert Streams() && BestHead(window, reverse).Some? && at < |index.chunks| ==>
          index.chunks[at].start <= BestHead(window, reverse).value.0;
      SplitSound();
      hide *;
      var pulled := Pull();
      if pulled.None? {
        if Streams() { ExhaustedStaysResident(index.chunks, filter, from, at, window); }
        NonePulled(before);
        JoinSound();
        return false;
      }
      OnePulled(before, pulled.value);
      PullKeepsRows(bag, reverse, before, window, pulled.value.chunk);
      if Streams() { StreamsOn(from, pulled.value); }
      window := window + [pulled.value];
      JoinSound();
      return true;
    }

    lemma NonePulled(before: set<nat>)
      requires PulledFrom(before, None)
      ensures before == {} && Unread() == {}
    {}

    lemma OnePulled(before: set<nat>, w: Window)
      requires PulledFrom(before, Some(w))
      ensures w.chunk in before && bag.IsMessageChunk(w.chunk) && Unread() == before - {w.chunk}
      ensures w == Opened(bag, reverse, w.chunk)
    {}

    lemma StreamsOn(before: nat, w: Window)
      requires Environment() && Streams() && PulledAt(before, w) && bag.IsMessageChunk(w.chunk)
               && w == Opened(bag, reverse, w.chunk)
      requires Resident(index.chunks, filter, before, window)
      requires BestHead(window, reverse).Some? ==> index.chunks[before].start <= BestHead(window, reverse).value.0
      ensures Resident(index.chunks, filter, at, window + [w])
    {
      hide Environment, Resident, Covers, Indexes, Opened, BestHead, Bag.Ordered, Bag.Valid, Bag.IsMessageChunk;
      IndexCovers(at - 1);
      PullStaysResident(bag, index.chunks, filter, before, at, window);
    }

    lemma IndexCovers(i: nat)
      requires Environment() && index != null && i < |index.chunks|
      ensures bag.Valid() && Indexes(bag, index.chunks) && Covers(bag, index.chunks[i])
    {
      assert index.chunks[i] in index.chunks;
    }

    /** Nothing more needs to be read before the next row is chosen. */
    ghost predicate Filled()
      requires Environment()
      reads `at, `source, `filter, `reverse, `window, `nextChunk, index
    {
      Unread() == {} || (!(reverse && index == null) && PastBound())
    }

    /** No unread chunk can hold a row that comes before the best one in the window. */
    predicate PastBound()
      requires Environment()
      reads `at, `source, `filter, `reverse, `window, `nextChunk, index
    {
      var candidate, unread := BestHead(window, reverse), EarliestUnread();
      && candidate.Some?
      && (|| (if reverse then unread < candidate.value.0 else unread > candidate.value.0)
          || unread == if reverse then I64_MIN else I64_MAX)
    }

    /** Reads until the bound says that the next row must be resident, or nothing is left to read. */
    method Fill()
      requires Sound()
      modifies `at, `source, `nextChunk, `window
      ensures Sound() && Remaining() == old(Remaining())
      ensures Filled() && (old(Filled()) ==> window == old(window))
      ensures BestHead(window, reverse).None? ==> Unread() == {}
      ensures bag.Ordered() ==> Settled(bag, reverse, Unread(), window)
    {
      var more := true;
      if reverse && index == null {
        while more
          invariant Sound() && Remaining() == old(Remaining())
          invariant old(Filled()) ==> Unread() == {} && window == old(window)
          invariant !more ==> Unread() == {}
          decreases Unread(), more
        {
          more := ReadOne();
        }
        return;
      }

      while true
        invariant Sound() && Remaining() == old(Remaining())
        invariant old(Filled()) ==> Filled() && window == old(window)
        decreases Unread()
      {
        if PastBound() {
          BoundSettles();
          return;
        }
        more := ReadOne();
        if !more { return; }
      }
    }

    /** Past the bound, or with a bound no row can reach, nothing unread comes first. */
    lemma BoundSettles()
      requires Sound() && (index == null ==> !reverse)
      requires PastBound()
      ensures bag.Ordered() ==> Settled(bag, reverse, Unread(), window)
    {
      forall id | bag.IsRow(id) && id.chunk in Unread()
        ensures if reverse then bag.KeyAt(id).recv <= EarliestUnread() else EarliestUnread() <= bag.KeyAt(id).recv
      {
        EarliestUnreadBounds(id);
      }
    }

    /** The row of the file a window's cursor is at. */
    ghost function RowUnder(i: nat): RowId
      requires i < |window| && window[i].next < |window[i].recv|
      reads `window
    {
      RowId(window[i].chunk, window[i].DataRow(window[i].next))
    }

    ghost function Chosen(): Option<RowId>
      reads `window, `reverse
    {
      var chosen := Choose(window, reverse, 0);
      if chosen.None? then None else Some(RowUnder(chosen.value))
    }

    lemma NothingLeft()
      requires Sound() && Unread() == {} && Choose(window, reverse, 0).None?
      ensures Remaining() == {}
    {
      NothingChosenNothingHeld(bag, reverse, Unread(), window);
    }

    lemma ChosenLeads(i: nat)
      requires Sound() && bag.Ordered() && Settled(bag, reverse, Unread(), window)
               && Choose(window, reverse, 0) == Some(i)
      ensures IsFirst(bag.Keys(), reverse, Remaining(), RowUnder(i))
    {
      ChosenIsFirst(bag, reverse, Unread(), window, i);
    }

    lemma HeadIsHeld(i: nat)
      requires Sound() && i < |window| && window[i].next < |window[i].recv|
      ensures RowUnder(i) in Remaining()
    {
      PositionIsRow(bag, reverse, window[i], window[i].next);
      assert window[i].Covers(RowUnder(i));
    }

    /** Picks the next row to play: which resident chunk it is in, and where. */
    method NextRow() returns (r: Option<(nat, nat)>)
      requires Sound()
      modifies `at, `source, `nextChunk, `window
      ensures Sound() && Remaining() == old(Remaining())
      ensures Filled() && (old(Filled()) ==> window == old(window))
      ensures r.None? ==> Remaining() == {} && Chosen().None?
      ensures r.Some? ==>
                && r.value.0 < |window|
                && r.value.1 == window[r.value.0].next < |window[r.value.0].recv|
                && Chosen() == Some(RowUnder(r.value.0)) && RowUnder(r.value.0) in Remaining()
                && (bag.Ordered() ==> IsFirst(bag.Keys(), reverse, Remaining(), RowUnder(r.value.0)))
      ensures r.Some? && Streams() ==> Straddling(window[r.value.0].recv[r.value.1])
    {
      hide Remaining, Unread, Indexes, SuffixBounds, Straddling;
      Fill();
      var chosen := Choose(window, reverse, 0);
      if chosen.None? {
        NothingLeft();
        return None;
      }
      HeadIsHeld(chosen.value);
      if bag.Ordered() {
        ChosenLeads(chosen.value);
        if Streams() { WindowStraddles(chosen.value); }
      }
      return Some((chosen.value, window[chosen.value].next));
    }

    /** Every resident chunk ends at or after `t`, and at most one starts after it, none at all with an
        empty filter. */
    ghost predicate Straddling(t: int)
      reads `window, `filter
    {
      && (forall w :: w in window ==> w.recv != [] && w.recv[|w.recv| - 1] >= t)
      && (forall v, w :: v in window && w in window && v.chunk != w.chunk ==>
            v.recv != [] && w.recv != [] && (v.recv[0] <= t || w.recv[0] <= t))
      && (filter == [] ==> forall w :: w in window ==> w.recv != [] && w.recv[0] <= t)
    }

    /** What is resident whenever a forward pass over the index chooses a row. */
    lemma WindowStraddles(chosen: nat)
      requires Sound() && Streams() && Choose(window, false, 0) == Some(chosen)
      ensures chosen < |window| && window[chosen].next < |window[chosen].recv|
      ensures Straddling(window[chosen].recv[window[chosen].next])
    {
      hide Sound, Environment, Consistent, Resident, Remaining, Unread, Held, Choose, Bag.Valid, Bag.Ordered, Progress;
      SplitSound();
      ResidentsStraddle(bag, index.chunks, filter, at, Unread(), window, chosen);
    }

    /** Consumes the row chunk `i` of the window stands at, and with its last row the chunk. */
    method Advance(i: nat) returns (ghost played: RowId)
      requires Sound() && i < |window| && window[i].next < |window[i].recv|
      modifies `window, `position
      ensures played == old(RowUnder(i))
      ensures Sound()
      ensures played in old(Remaining()) && Remaining() == old(Remaining()) - {played}
      ensures bag.IsRow(played) && position == bag.KeyAt(played).recv
    {
      hide *;
      played := RowUnder(i);
      SplitSound();
      AdvancePlays(i);
      position := window[i].recv[window[i].next];
      window := Advanced(window, i);
      JoinSound();
    }

    lemma AdvancePlays(i: nat)
      requires Sound() && i < |window| && window[i].next < |window[i].recv|
      ensures bag.IsRow(RowUnder(i)) && RowUnder(i) in Remaining()
      ensures bag.KeyAt(RowUnder(i)).recv == window[i].recv[window[i].next]
      ensures Consistent(bag, reverse, Unread(), Advanced(window, i))
      ensures Held(bag, Unread(), Advanced(window, i)) == Remaining() - {RowUnder(i)}
      ensures Streams() ==> Resident(index.chunks, filter, at, Advanced(window, i))
    {
      if Streams() { AdvanceStaysResident(bag, index.chunks, filter, at, Unread(), window, i); }
      PositionIsRow(bag, reverse, window[i], window[i].next);
      AdvanceDropsRow(bag, reverse, Unread(), window, i);
    }

    // -------------------------------------------------------------- repositioning

    /** Passes the chunks of the index that lie wholly before `time` in playback order. */
    method SkipIndexTo(time: i64)
      requires Valid() && boundary == Start && window == []
      modifies `at
      ensures Sound()
      ensures bag.Ordered() ==> Ahead(bag, Pass(From(time))) <= Remaining() <= Ahead(bag, Pass(Start))
    {
      hide Valid, Sound, Environment, Remaining, Unread, Tracks, Ahead, Bag.Ordered, Pass;
      Starts(time);
      if index == null { return; }
      at := 0;
      while at < |index.chunks| &&
            if reverse then index.chunks[|index.chunks| - 1 - at].start > time else index.chunks[at].end < time
        invariant at <= |index.chunks|
        invariant forall p :: 0 <= p < at ==>
            if reverse then index.chunks[Place(index.chunks, reverse, p)].start > time
            else index.chunks[Place(index.chunks, reverse, p)].end < time
      {
        at := at + 1;
      }
      SkippedIsSound(time);
    }

    lemma Starts(time: int)
      requires Valid() && boundary == Start
      ensures Sound() && Environment()
      ensures bag.Ordered() ==> Ahead(bag, Pass(From(time))) <= Remaining() <= Ahead(bag, Pass(Start))
    {}

    /** The pass `SkipIndexTo` leaves. */
    lemma SkippedIsSound(time: int)
      requires Environment() && index != null && window == [] && at <= |index.chunks|
      requires forall p :: 0 <= p < at ==>
          if reverse then index.chunks[Place(index.chunks, reverse, p)].start > time
          else index.chunks[Place(index.chunks, reverse, p)].end < time
      ensures Sound() && Ahead(bag, Pass(From(time))) <= Remaining() <= Ahead(bag, Pass(Start))
    {
      IndexUnreadHoldsMessages(bag, index.chunks, filter, reverse, at);
      SkippedPass(bag, index.chunks, filter, reverse, at, time);
    }

    /** Steps over the next row unless it is past `to`, or there is none. */
    method StepOver(to: Boundary) returns (arrived: bool, ghost played: RowId)
      requires Sound() && (to.From? || to.After?)
      modifies `at, `source, `nextChunk, `window, `position
      ensures Sound()
      ensures !arrived ==>
                && played in old(Remaining()) && Remaining() == old(Remaining()) - {played}
                && bag.IsRow(played) && !Beyond(to, reverse, bag.KeyAt(played))
      ensures arrived ==> Remaining() == old(Remaining())
      ensures bag.Ordered() && arrived ==> forall id :: id in Remaining() ==> Beyond(to, reverse, bag.KeyAt(id))
    {
      hide *;
      played := RowId(0, 0);
      var next := NextRow();
      if next.None? { return true, played; }
      var i := next.value.0;
      HeadKey(i);
      arrived := Beyond(to, reverse, window[i].Key().value);
      if arrived {
        if bag.Ordered() { AllBeyond(to, RowUnder(i)); }
      } else {
        played := Advance(i);
      }
    }

    lemma HeadKey(i: nat)
      requires Sound() && i < |window| && window[i].next < |window[i].recv|
      ensures bag.IsRow(RowUnder(i)) && window[i].Key() == Some(bag.KeyAt(RowUnder(i)))
    {
      PositionIsRow(bag, reverse, window[i], window[i].next);
    }

    lemma AllBeyond(to: Boundary, first: RowId)
      requires bag.Ordered() && (to.From? || to.After?)
      requires IsFirst(bag.Keys(), reverse, Remaining(), first) && Beyond(to, reverse, bag.KeyAt(first))
      ensures forall id :: id in Remaining() ==> Beyond(to, reverse, bag.KeyAt(id))
    {
      forall id | id in Remaining() ensures Beyond(to, reverse, bag.KeyAt(id)) {
        assert id == first || Precedes(reverse, bag.Keys()[first], bag.Keys()[id]);
      }
    }

    /** Winds a pass that has skipped nothing past `to` until its next row is past `to`. */
    method WindTo(to: Boundary)
      requires Sound() && (to.From? || to.After?)
      requires bag.Ordered() ==> Ahead(bag, Pass(to)) <= Remaining() <= Ahead(bag, Pass(Start))
      modifies `at, `source, `nextChunk, `window, `position
      ensures Sound()
      ensures bag.Ordered() ==> Remaining() == Ahead(bag, Pass(to))
    {
      hide *;
      var arrived := false;
      while !arrived
        invariant Sound()
        invariant bag.Ordered() ==> Ahead(bag, Pass(to)) <= Remaining() <= Ahead(bag, Pass(Start))
        invariant bag.Ordered() && arrived ==> Remaining() == Ahead(bag, Pass(to))
        decreases Remaining(), !arrived
      {
        ghost var played;
        arrived, played := StepOver(to);
        if !arrived { NotAhead(to, played); } else if bag.Ordered() { NothingElse(to); }
      }
    }

    lemma NotAhead(to: Boundary, played: RowId)
      requires bag.IsRow(played) && !Beyond(to, reverse, bag.KeyAt(played))
      ensures played !in Ahead(bag, Pass(to))
    {}

    lemma NothingElse(to: Boundary)
      requires Ahead(bag, Pass(to)) <= Remaining() <= Ahead(bag, Pass(Start))
      requires forall id :: id in Remaining() ==> Beyond(to, reverse, bag.KeyAt(id))
      ensures Remaining() == Ahead(bag, Pass(to))
    {}

    /** Begins a new pass at `time`: what comes before it in playback order is not played. */
    method Seek(time: i64)
      requires Valid()
      modifies this
      ensures Valid()
      ensures bag.Ordered() ==> (View(), Done) == Step(bag, index != null, old(View()), Call.Seek(time))
    {
      hide Valid, Sound, Remaining, Unread, Environment, Consistent, Ahead, Bag.Ordered;
      HasEnvironment();
      Restart();
      SkipIndexTo(time);
      WindTo(From(time));
      position := time;
      cursor := None;
      boundary := From(time);
      Stands();
    }

    lemma HasEnvironment()
      requires Valid()
      ensures Environment()
    {}

    lemma Stands()
      requires Sound() && (bag.Ordered() ==> Remaining() == Ahead(bag, Pass(boundary)) && (index != null ==> Tracks()))
      ensures Valid()
    {}

    /** Begins a new pass where the caller left off: past the row last delivered, or at the time last
        sought if there has been none since. */
    method Resume()
      requires Environment() && index != null
      requires bag.Ordered() ==> Tracks()
      modifies this
      ensures Valid() && reverse == old(reverse) && filter == old(filter)
      ensures bag.Ordered() ==> boundary == if old(boundary) == From(I64_MIN) then Start else old(boundary)
    {
      hide Sound, Remaining, Unread, Environment, Ahead, Bag.Ordered;
      var cursor, position := this.cursor, this.position;

      // What looks like a pass not yet begun is begun again.
      if cursor.None? && position == I64_MIN {
        Restart();
        return;
      }

      Restart();
      SkipIndexTo(position);
      var to := if cursor.Some? then After(cursor.value) else From(position);
      if cursor.Some? {
        AfterIsFrom(bag, reverse, if index != null then filter else [], cursor.value);
      }
      WindTo(to);
      this.position := position;
      this.cursor := cursor;
      boundary := to;
    }

    /** Changes which topics are wanted. A scan needs no new pass for that, since it holds every topic. */
    method SetFilter(topics: seq<string>)
      requires Valid()
      modifies this
      ensures Valid() && filter == topics && reverse == old(reverse)
      ensures bag.Ordered() ==> (View(), Done) == Step(bag, index != null, old(View()), Call.SetFilter(topics))
    {
      if topics == filter { return; }
      filter := topics;
      if index != null {
        Resume();
      }
    }

    // -------------------------------------------------------------- reading messages

    /** Delivers the next row, wanted or not. Reading the same row's payload and times out of
        the window as out of the file is what the row mapping is for. */
    method Take() returns (r: Result<Option<TakenRow>>, ghost played: RowId)
      requires Sound()
      modifies `at, `source, `nextChunk, `window, `position, `cursor
      ensures Sound()
      ensures r == Ok(None) ==>
                Remaining() == old(Remaining()) == {} && cursor == old(cursor) && position == old(position)
      ensures r != Ok(None) ==>
                && bag.IsRow(played) && played in old(Remaining())
                && (old(Filled()) ==> old(Chosen()) == Some(played))
                && (bag.Ordered() ==> IsFirst(bag.Keys(), reverse, old(Remaining()), played))
      ensures r.Err? ==>
                && bag.PayloadAt(played) == Err(r.error)
                && Remaining() == old(Remaining()) && cursor == old(cursor) && position == old(position)
      ensures r.Ok? && r.value.Some? ==>
                && bag.PayloadAt(played).Ok?
                && var taken := r.value.value;
                && taken.topic < |bag.topics|
                && Message(bag.topics[taken.topic].name, taken.recv, taken.send, taken.data) == bag.MessageAt(played)
                && Remaining() == old(Remaining()) - {played}
                && cursor == Some(bag.KeyAt(played)) && position == bag.KeyAt(played).recv
    {
      hide *;
      played := RowId(0, 0);
      var next := NextRow();
      if next.None? { return Ok(None), played; }
      var (i, row) := next.value;
      played := RowUnder(i);
      RowReads(i);
      var w := window[i];
      ReadsMeans(bag, w, played);
      var recv := w.recv[row];
      var send := if row < |w.send| then w.send[row] else recv;
      var key := SortKey(recv, w.SequenceNumber(row));
      var data := WindowPayload(bag.topics[w.topic], w, w.DataRow(row));
      if data.Err? { return Err(data.error), played; }
      var _ := Advance(i);
      cursor := Some(key);
      return Ok(Some(TakenRow(w.topic, recv, send, data.value))), played;
    }

    lemma RowReads(i: nat)
      requires Sound() && i < |window| && window[i].next < |window[i].recv|
      ensures bag.Valid() && Reads(bag, window[i], RowUnder(i))
    {
      PositionReads(bag, reverse, window[i]);
    }

    /** Passes over rows the filter does not admit, which cost a cursor step and no more. On the
        indexed path there are none. `frontier` is where that leaves the merge. */
    method PassOverUnwanted() returns (found: bool, ghost frontier: Boundary)
      requires Valid()
      modifies `at, `source, `nextChunk, `window, `position
      ensures Sound() && Filled() && Remaining() <= old(Remaining())
      ensures forall id :: id in old(Remaining()) && id !in Remaining() ==> !Wanted(filter, bag.TopicAt(id))
      ensures if found
              then Chosen().Some? && Chosen().value in Remaining() && Wanted(filter, bag.TopicAt(Chosen().value))
              else Remaining() == {}
      ensures bag.Ordered() ==>
                && Remaining() == Ahead(bag, Pass(frontier))
                && Ahead(bag, Cursor(reverse, filter, frontier)) == Ahead(bag, View())
      ensures bag.Ordered() && index != null ==> frontier == boundary && Tracks()
    {
      hide Sound, Remaining, Unread, Environment, Consistent, Held, Filled, Chosen, RowUnder, Tracks;
      hide Bag.Ordered, Bag.Valid, Bag.IsRow, Bag.AllRows, Bag.Keys, Bag.KeyAt, Bag.TopicAt, Ahead, IsFirst, Wanted;
      frontier := boundary;
      while true
        invariant Sound() && Remaining() <= old(Remaining())
        invariant forall id :: id in old(Remaining()) && id !in Remaining() ==> !Wanted(filter, bag.TopicAt(id))
        invariant bag.Ordered() ==>
            && Remaining() == Ahead(bag, Pass(frontier))
            && Ahead(bag, Cursor(reverse, filter, frontier)) == Ahead(bag, View())
        invariant bag.Ordered() && index != null ==> frontier == boundary && Tracks()
        decreases Remaining()
      {
        var next := NextRow();
        if next.None? { return false, frontier; }
        var i := next.value.0;
        WindowOnTopic(i);
        if Wanted(filter, bag.topics[window[i].topic]) { return true, frontier; }
        ghost var pass := Pass(frontier);
        ghost var passed := Advance(i);
        if bag.Ordered() {
          Played(bag, pass, passed);
          PassedOver(bag, pass, filter, passed);
          if index != null { NeverUnwanted(pass, passed); }
          frontier := After(bag.KeyAt(passed));
        }
      }
    }

    /** Delivers the next row that is wanted, if there is one. */
    method ReadNext() returns (r: Result<Option<Message>>, ghost played: RowId)
      requires Valid()
      modifies this
      ensures Valid()
      ensures reverse == old(reverse) && filter == old(filter)
      ensures bag.Ordered() ==> (View(), Answer(r)) == Step(bag, index != null, old(View()), Call.ReadNext)
      // exactly once, whatever the order of the rows:
      ensures Remaining() <= old(Remaining()) && (r == Ok(None) ==> Remaining() == {})
      ensures r != Ok(None) ==>
                played in old(Remaining()) && (filter == [] || bag.TopicAt(played).name in filter)
      ensures r.Err? ==> bag.PayloadAt(played) == Err(r.error)
      ensures r.Ok? && r.value.Some? ==>
                && played !in Remaining()
                && bag.PayloadAt(played).Ok? && r.value.value == bag.MessageAt(played)
                && (filter == [] || r.value.value.topic in filter)
      ensures forall id :: id in old(Remaining()) && id !in Remaining() && !(r.Ok? && r.value.Some? && id == played)
                ==> filter != [] && bag.TopicAt(id).name !in filter
    {
      hide Sound, Remaining, Unread, Environment, Consistent, Held, Filled, Chosen, RowUnder, Tracks;
      hide Bag.Ordered, Bag.Valid, Bag.IsRow, Bag.AllRows, Bag.Keys, Bag.KeyAt, Bag.TopicAt, Bag.PayloadAt,
          Bag.MessageAt;
      hide Ahead, Step, PromisedStep, IsFirst;
      var found;
      ghost var frontier;
      found, frontier := PassOverUnwanted();
      SoundBag();
      if !found {
        if bag.Ordered() { EmptyStep(frontier); }
        if index == null { boundary := End; }
        return Ok(None), RowId(0, 0);
      }

      ghost var pass := Pass(frontier);
      var taken;
      taken, played := Take();
      if taken == Ok(None) { assert false; }
      if bag.Ordered() { ReadStep(bag, index != null, old(View()), pass, played); }
      if taken.Err? {
        if index == null { boundary := Before(bag.KeyAt(played)); }
        return Err(taken.error), played;
      }
      boundary := After(bag.KeyAt(played));
      TracksKey(bag.KeyAt(played));
      var row := taken.value.value;
      NamesItsTopic(bag, played);
      return Ok(Some(Message(bag.topics[row.topic].name, row.recv, row.send, row.data))), played;
    }

    /** An indexed pass meets no row its filter does not admit. */
    lemma NeverUnwanted(pass: Cursor, first: RowId)
      requires pass.filter == filter && first in Ahead(bag, pass)
      ensures Wanted(filter, bag.TopicAt(first))
    {}

    /** The step a read takes when the pass has nothing left. */
    lemma EmptyStep(frontier: Boundary)
      requires bag.Valid() && bag.Ordered() && Ahead(bag, Pass(frontier)) == {}
      requires Ahead(bag, Cursor(reverse, filter, frontier)) == Ahead(bag, View())
      ensures Step(bag, index != null, View(), Call.ReadNext)
           == (if index != null then View() else View().(boundary := End), Exhausted)
      ensures Ahead(bag, Pass(End)) == {}
    {
      assert Ahead(bag, Cursor(reverse, filter, frontier)) <= Ahead(bag, Pass(frontier));
    }

    lemma SoundBag()
      requires Sound()
      ensures bag.Valid()
    {}

    lemma TracksKey(key: SortKey)
      requires boundary == After(key) && cursor == Some(key) && position == key.recv
      ensures Tracks()
    {}

    lemma WindowOnTopic(i: nat)
      requires Sound() && i < |window| && window[i].next < |window[i].recv|
      ensures window[i].topic < |bag.topics| && bag.IsRow(RowUnder(i))
      ensures bag.TopicAt(RowUnder(i)) == bag.topics[window[i].topic]
    {
      PositionIsRow(bag, reverse, window[i], window[i].next);
    }
  }
}
