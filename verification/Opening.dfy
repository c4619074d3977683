/** What opening a recording learns about it: its message counts, its time range, and, without a
    footer, the bounds that read-ahead stops at. */
module Opening {
  import opened Basics
  import opened Ordering
  import opened Recording
  import opened ChunkIndexes
  import opened Footers
  import opened ReadAhead

  // ---------------------------------------------------------------- counting rows

  /** The rows of some chunks, and those of them on one topic. */
  ghost function RowsIn(bag: Bag, chunks: set<nat>): (rows: set<RowId>)
    ensures forall id :: id in rows <==> bag.IsRow(id) && id.chunk in chunks
  {
    set id | id in bag.AllRows() && id.chunk in chunks
  }

  ghost function TopicRowsIn(bag: Bag, chunks: set<nat>, topic: nat): set<RowId> {
    set id | id in RowsIn(bag, chunks) && bag.Topic(id.chunk) == topic
  }

  /** The rows to play on one topic. */
  ghost function TopicRows(bag: Bag, topic: nat): set<RowId> {
    set id | id in bag.AllRows() && bag.Topic(id.chunk) == topic
  }

  /** Every row counted, the counts are the rows on each topic. */
  lemma AllCounted(bag: Bag, chunks: set<nat>, counts: seq<nat>)
    requires Counted(bag, chunks, counts) && RowsIn(bag, chunks) == bag.AllRows()
    ensures Sum(counts) == |bag.AllRows()|
    ensures |counts| == |bag.topics| && forall t :: 0 <= t < |counts| ==> counts[t] == |TopicRows(bag, t)|
  {
    forall t | 0 <= t < |counts| ensures counts[t] == |TopicRows(bag, t)| {
      assert TopicRowsIn(bag, chunks, t) == TopicRows(bag, t);
    }
  }

  lemma AllIndexed(bag: Bag, refs: seq<ChunkRef>)
    requires forall c: nat :: bag.RowCount(c) > 0 ==> exists ref :: ref in refs && ref.id == c && Keeps(bag, ref)
    ensures RowsIn(bag, IdsOf(refs)) == bag.AllRows()
  {}

  /** The first `n` rows of a chunk. */
  ghost function ChunkRows(c: nat, n: nat): (rows: set<RowId>)
    ensures |rows| == n
    ensures forall id :: id in rows <==> id.chunk == c && id.row < n
  {
    if n == 0 then {} else ChunkRows(c, n - 1) + {RowId(c, n - 1)}
  }

  /** One more chunk adds its rows. */
  lemma RowsAdd(bag: Bag, chunks: set<nat>, c: nat)
    requires c !in chunks
    ensures |RowsIn(bag, chunks + {c})| == |RowsIn(bag, chunks)| + bag.RowCount(c)
  {
    var added := ChunkRows(c, bag.RowCount(c));
    var before, after := RowsIn(bag, chunks), RowsIn(bag, chunks + {c});
    hide RowsIn;
    forall id ensures id in after <==> id in before || id in added {}
    assert after == before + added && before !! added;
  }

  /** And all of them to its own topic. */
  lemma TopicRowsAdd(bag: Bag, chunks: set<nat>, c: nat, t: nat)
    requires c !in chunks
    ensures |TopicRowsIn(bag, chunks + {c}, t)|
         == |TopicRowsIn(bag, chunks, t)| + if bag.RowCount(c) > 0 && t == bag.Topic(c) then bag.RowCount(c) else 0
  {
    var added := ChunkRows(c, bag.RowCount(c));
    if bag.RowCount(c) > 0 && t == bag.Topic(c) {
      assert TopicRowsIn(bag, chunks + {c}, t) == TopicRowsIn(bag, chunks, t) + added;
      assert TopicRowsIn(bag, chunks, t) !! added;
    } else {
      assert TopicRowsIn(bag, chunks + {c}, t) == TopicRowsIn(bag, chunks, t);
    }
  }

  function Sum(counts: seq<nat>): nat {
    if counts == [] then 0 else counts[0] + Sum(counts[1..])
  }

  lemma {:induction false} SumAdds(counts: seq<nat>, t: nat, n: nat)
    requires t < |counts|
    ensures Sum(counts[t := counts[t] + n]) == Sum(counts) + n
  {
    if t > 0 {
      SumAdds(counts[1..], t - 1, n);
      assert counts[t := counts[t] + n][1..] == counts[1..][t - 1 := counts[1..][t - 1] + n];
    } else {
      assert counts[t := counts[t] + n][1..] == counts[1..];
    }
  }

  lemma {:induction false} SumOfZeros(n: nat)
    ensures Sum(seq(n, _ => 0)) == 0
  {
    if n > 0 {
      SumOfZeros(n - 1);
      assert seq(n, _ => 0)[1..] == seq(n - 1, _ => 0);
    }
  }

  // ---------------------------------------------------------------- with a footer

  /** The counts of some chunks, topic by topic and in all. */
  ghost predicate Counted(bag: Bag, chunks: set<nat>, counts: seq<nat>) {
    && |counts| == |bag.topics|
    && Sum(counts) == |RowsIn(bag, chunks)|
    && forall t :: 0 <= t < |counts| ==> counts[t] == |TopicRowsIn(bag, chunks, t)|
  }

  lemma NothingCounted(bag: Bag)
    ensures Counted(bag, {}, seq(|bag.topics|, _ => 0))
  {
    SumOfZeros(|bag.topics|);
    assert RowsIn(bag, {}) == {};
    forall t: nat ensures TopicRowsIn(bag, {}, t) == {} {}
  }

  /** Counting a chunk of messages on its topic. */
  lemma CountedMore(bag: Bag, chunks: set<nat>, counts: seq<nat>, c: nat, topic: nat)
    requires Counted(bag, chunks, counts) && c !in chunks
    requires bag.IsMessageChunk(c) && topic == bag.Topic(c) < |counts|
    ensures Counted(bag, chunks + {c}, counts[topic := counts[topic] + bag.RowCount(c)])
  {
    RowsAdd(bag, chunks, c);
    SumAdds(counts, topic, bag.RowCount(c));
    forall t: nat {
      TopicRowsAdd(bag, chunks, c, t);
    }
  }

  /** Passing over a chunk with nothing to play. */
  lemma CountedSame(bag: Bag, chunks: set<nat>, counts: seq<nat>, c: nat)
    requires Counted(bag, chunks, counts) && c !in chunks && bag.RowCount(c) == 0
    ensures Counted(bag, chunks + {c}, counts)
  {
    RowsAdd(bag, chunks, c);
    forall t: nat {
      TopicRowsAdd(bag, chunks, c, t);
    }
  }

  /** Counts the messages of each topic from the index; every row of a kept chunk is one. */
  method CountIndexed(bag: Bag, refs: seq<ChunkRef>) returns (counts: seq<nat>)
    requires bag.Valid() && DistinctIds(refs)
    requires forall ref :: ref in refs && Keeps(bag, ref) ==> Covers(bag, ref)
    requires forall c: nat :: bag.RowCount(c) > 0 ==> exists ref :: ref in refs && ref.id == c && Keeps(bag, ref)
    ensures Counted(bag, IdsOf(refs), counts)
  {
    hide Covers, DistinctIds, Bag.Valid, IdsOf, Counted, Keeps;
    counts := seq(|bag.topics|, _ => 0);
    NothingCounted(bag);
    var i := 0;
    NoIds(refs);
    while i < |refs|
      invariant i <= |refs| && |counts| == |bag.topics|
      invariant Counted(bag, IdsOf(refs[..i]), counts)
    {
      var ref := refs[i];
      NextId(refs, i);
      assert ref in refs;
      if Keeps(bag, ref) {
        KeepsTopic(bag, ref);
        var topic := bag.topicIndex[ref.entity];
        CoversTopic(bag, ref, counts);
        CountedMore(bag, IdsOf(refs[..i]), counts, ref.id, topic);
        counts := counts[topic := counts[topic] + ref.numRows];
      } else {
        Rejected(bag, refs, i);
        CountedSame(bag, IdsOf(refs[..i]), counts, ref.id);
      }
      i := i + 1;
    }
    assert refs[..i] == refs;
  }

  lemma NoIds(refs: seq<ChunkRef>)
    ensures IdsOf(refs[..0]) == {}
  {}

  lemma KeepsTopic(bag: Bag, ref: ChunkRef)
    requires Keeps(bag, ref)
    ensures ref.entity in bag.topicIndex && bag.topicIndex[ref.entity] < |bag.topics|
  {}

  lemma CoversTopic(bag: Bag, ref: ChunkRef, counts: seq<nat>)
    requires Covers(bag, ref) && |counts| == |bag.topics|
    ensures bag.IsMessageChunk(ref.id) && bag.Topic(ref.id) == bag.topicIndex[ref.entity] < |counts|
    ensures ref.numRows == bag.RowCount(ref.id)
  {}

  lemma NextId(refs: seq<ChunkRef>, i: nat)
    requires i < |refs| && DistinctIds(refs)
    ensures refs[i].id !in IdsOf(refs[..i])
    ensures IdsOf(refs[..i + 1]) == IdsOf(refs[..i]) + {refs[i].id}
  {
    assert refs[..i + 1] == refs[..i] + [refs[i]];
    Appended(refs[..i], refs[i]);
  }

  lemma Rejected(bag: Bag, refs: seq<ChunkRef>, i: nat)
    requires i < |refs| && DistinctIds(refs) && !Keeps(bag, refs[i])
    requires forall c: nat :: bag.RowCount(c) > 0 ==> exists ref :: ref in refs && ref.id == c && Keeps(bag, ref)
    ensures bag.RowCount(refs[i].id) == 0
  {
    forall ref | ref in refs && ref.id == refs[i].id ensures ref == refs[i] {
      var j :| 0 <= j < |refs| && refs[j] == ref;
    }
  }

  /** The total the index reports is the number of rows there are to play. */
  lemma {:induction false} TotalIsRows(bag: Bag, refs: seq<ChunkRef>)
    requires DistinctIds(refs) && forall ref :: ref in refs ==> Covers(bag, ref)
    ensures TotalRows(refs) == |RowsIn(bag, IdsOf(refs))|
  {
    if refs == [] {
      assert RowsIn(bag, IdsOf(refs)) == {};
    } else {
      var rest := refs[1..];
      TotalIsRows(bag, rest);
      assert refs[0].id !in IdsOf(rest);
      RowsAdd(bag, IdsOf(rest), refs[0].id);
      assert IdsOf(refs) == IdsOf(rest) + {refs[0].id} by {
        assert forall ref :: ref in refs <==> ref == refs[0] || ref in rest;
      }
    }
  }

  /** A reported time range spans the rows and is attained at both ends. */
  ghost predicate Spans(bag: Bag, rows: set<RowId>, range: Option<(int, int)>)
    requires forall id :: id in rows ==> bag.IsRow(id)
  {
    match range
    case None => rows == {}
    case Some((start, end)) =>
      && (forall id :: id in rows ==> start <= bag.KeyAt(id).recv <= end)
      && (exists id :: id in rows && bag.KeyAt(id).recv == start)
      && (exists id :: id in rows && bag.KeyAt(id).recv == end)
  }

  /** The range the index reports is the range of the rows there are to play. */
  lemma IndexSpans(bag: Bag, refs: seq<ChunkRef>, range: Option<(int, int)>)
    requires Indexes(bag, refs)
    requires range.None? <==> refs == []
    requires range.Some? ==>
               && (forall ref :: ref in refs ==> range.value.0 <= ref.start && ref.end <= range.value.1)
               && (exists ref :: ref in refs && ref.start == range.value.0)
               && (exists ref :: ref in refs && ref.end == range.value.1)
    ensures Spans(bag, bag.AllRows(), range)
  {
    if range.Some? {
      forall id | bag.IsRow(id) ensures range.value.0 <= bag.KeyAt(id).recv <= range.value.1 {
        RowInRange(bag, refs, id);
      }
      var first :| first in refs && first.start == range.value.0;
      var id, _ := RangeAttained(bag, first);
      assert id in bag.AllRows();
      var last :| last in refs && last.end == range.value.1;
      var _, id' := RangeAttained(bag, last);
      assert id' in bag.AllRows();
    } else {
      forall id ensures !bag.IsRow(id) {
        if bag.IsRow(id) { RowInRange(bag, refs, id); }
      }
    }
  }

  lemma RowInRange(bag: Bag, refs: seq<ChunkRef>, id: RowId)
    requires Indexes(bag, refs) && bag.IsRow(id)
    ensures exists ref :: ref in refs && ref.start <= bag.KeyAt(id).recv <= ref.end
  {
    assert id.chunk in IdsOf(refs);
    var ref :| ref in refs && ref.id == id.chunk;
    assert Covers(bag, ref) && RowId(ref.id, id.row) == id;
  }

  lemma RangeAttained(bag: Bag, ref: ChunkRef) returns (first: RowId, last: RowId)
    requires Covers(bag, ref)
    ensures bag.IsRow(first) && bag.KeyAt(first).recv == ref.start
    ensures bag.IsRow(last) && bag.KeyAt(last).recv == ref.end
  {
    var row :| 0 <= row < bag.RowCount(ref.id) && bag.KeyAt(RowId(ref.id, row)).recv == ref.start;
    var row' :| 0 <= row' < bag.RowCount(ref.id) && bag.KeyAt(RowId(ref.id, row')).recv == ref.end;
    first, last := RowId(ref.id, row), RowId(ref.id, row');
  }

  // ---------------------------------------------------------------- without one

  /** The record a scan leaves of a chunk. `chunk` is its place in the file. */
  datatype ScannedChunk = ScannedChunk(
    chunk: nat, entity: Entity, blobs: bool, structs: bool, numRows: nat,
    earliest: i64, timeRange: Option<(i64, i64)>)

  predicate ScannedMessages(info: TopicInfo, scanned: ScannedChunk) {
    scanned.blobs || (info.reflects && scanned.structs)
  }

  /** The earliest of some times, the latest there is if there are none, and their range. */
  ghost predicate RangeOf(times: seq<i64>, earliest: i64, range: Option<(i64, i64)>) {
    && (forall i :: 0 <= i < |times| ==> earliest <= times[i])
    && (if times == [] then earliest == I64_MAX else earliest in times)
    && (range.None? <==> times == [])
    && (range.Some? ==>
          && (forall i :: 0 <= i < |times| ==> range.value.0 <= times[i] <= range.value.1)
          && range.value.0 in times && range.value.1 in times)
  }

  ghost predicate Scans(bag: Bag, scanned: ScannedChunk)
  {
    && IsScanned(bag, scanned.chunk)
    && var chunk := bag.file[scanned.chunk].chunk;
    && scanned.entity == chunk.entity
    && scanned.blobs == chunk.blobs.Some?
    && scanned.structs == chunk.structs.Some?
    && scanned.numRows == chunk.numRows
    && RangeOf(chunk.RecvTimes(), scanned.earliest, scanned.timeRange)
  }

  method ScanChunk(c: nat, chunk: Chunk) returns (s: ScannedChunk)
    ensures s == ScannedChunk(c, chunk.entity, chunk.blobs.Some?, chunk.structs.Some?, chunk.numRows, s.earliest,
                              s.timeRange)
    ensures RangeOf(chunk.RecvTimes(), s.earliest, s.timeRange)
  {
    var earliest: i64 := I64_MAX;
    var range: Option<(i64, i64)> := None;
    var times := chunk.RecvTimes();
    var i := 0;
    while i < |times|
      invariant i <= |times|
      invariant RangeOf(times[..i], earliest, range)
    {
      var time := times[i];
      if time < earliest { earliest := time; }
      range := match range
        case None => Some((time, time))
        case Some((start, end)) => Some((if time < start then time else start, if time > end then time else end));
      assert times[..i + 1] == times[..i] + [time];
      i := i + 1;
    }
    assert times[..i] == times;
    return ScannedChunk(c, chunk.entity, chunk.blobs.Some?, chunk.structs.Some?, chunk.numRows, earliest, range);
  }

  /** One record per scanned chunk, in file order. */
  ghost predicate ScanOf(bag: Bag, upTo: nat, scanned: seq<ScannedChunk>) {
    if upTo == 0 then scanned == []
    else if IsScanned(bag, upTo - 1) then
      && scanned != []
      && var last := |scanned| - 1;
      && scanned[last].chunk == upTo - 1 && Scans(bag, scanned[last])
      && ScanOf(bag, upTo - 1, scanned[..last])
    else ScanOf(bag, upTo - 1, scanned)
  }

  lemma {:induction false} ScanInOrder(bag: Bag, upTo: nat, scanned: seq<ScannedChunk>)
    requires ScanOf(bag, upTo, scanned)
    ensures |scanned| == ScannedBefore(bag, upTo)
    ensures forall n :: 0 <= n < |scanned| ==> scanned[n].chunk < upTo && Scans(bag, scanned[n])
    ensures forall m, n :: 0 <= m < n < |scanned| ==> scanned[m].chunk < scanned[n].chunk
  {
    if upTo > 0 {
      var last := |scanned| - 1;
      if IsScanned(bag, upTo - 1) {
        ScanInOrder(bag, upTo - 1, scanned[..last]);
        assert forall n :: 0 <= n < last ==> scanned[n] == scanned[..last][n];
      } else {
        ScanInOrder(bag, upTo - 1, scanned);
      }
    }
  }

  lemma {:induction false} ScanFinds(bag: Bag, upTo: nat, scanned: seq<ScannedChunk>, c: nat)
    requires ScanOf(bag, upTo, scanned) && c < upTo && IsScanned(bag, c)
    ensures ScannedBefore(bag, c) < |scanned| && scanned[ScannedBefore(bag, c)].chunk == c
  {
    ScanInOrder(bag, upTo, scanned);
    if c < upTo - 1 {
      var last := |scanned| - 1;
      ScanFinds(bag, upTo - 1, if IsScanned(bag, upTo - 1) then scanned[..last] else scanned, c);
    }
  }

  method ScanFile(bag: Bag) returns (scanned: seq<ScannedChunk>)
    ensures ScanOf(bag, |bag.file|, scanned)
  {
    scanned := [];
    var c := 0;
    while c < |bag.file|
      invariant c <= |bag.file| && ScanOf(bag, c, scanned)
    {
      ghost var before := scanned;
      if bag.file[c].Data? && !bag.file[c].chunk.isStatic {
        var s := ScanChunk(c, bag.file[c].chunk);
        scanned := scanned + [s];
        assert scanned[..|scanned| - 1] == before;
      }
      c := c + 1;
    }
  }

  /** `least` is the earliest time in some scanned chunks, or the latest there is if none has one. */
  ghost predicate IsEarliest(scanned: seq<ScannedChunk>, least: i64) {
    && (forall s :: s in scanned ==> least <= s.earliest)
    && (least == I64_MAX || exists s :: s in scanned && s.earliest == least)
  }

  lemma EarliestGrows(scanned: seq<ScannedChunk>, i: nat, later: i64, least: i64)
    requires i < |scanned| && IsEarliest(scanned[i + 1..], later)
    requires least == if scanned[i].earliest < later then scanned[i].earliest else later
    ensures IsEarliest(scanned[i..], least)
  {
    assert scanned[i..] == [scanned[i]] + scanned[i + 1..];
  }

  /** The earliest time in the scanned chunks from each of them onwards, which no row there precedes. */
  method SuffixMinima(bag: Bag, scanned: seq<ScannedChunk>) returns (earliest: seq<i64>)
    requires ScanOf(bag, |bag.file|, scanned)
    ensures |earliest| == |scanned| + 1 && forall n :: 0 <= n <= |scanned| ==> IsEarliest(scanned[n..], earliest[n])
    ensures SuffixBounds(bag, earliest)
  {
    var max: i64 := I64_MAX;
    earliest := seq(|scanned| + 1, _ => max);
    var i := |scanned|;
    while i > 0
      invariant 0 <= i <= |scanned| && |earliest| == |scanned| + 1
      invariant forall n :: i <= n <= |scanned| ==> IsEarliest(scanned[n..], earliest[n])
    {
      i := i - 1;
      EarliestGrows(scanned, i, earliest[i + 1],
                    if scanned[i].earliest < earliest[i + 1] then scanned[i].earliest else earliest[i + 1]);
      earliest := earliest[i := if scanned[i].earliest < earliest[i + 1] then scanned[i].earliest else earliest[i + 1]];
    }
    ScanInOrder(bag, |bag.file|, scanned);
    forall n: nat, id | n < |earliest| && bag.IsRow(id) && n <= ScannedBefore(bag, id.chunk)
      ensures earliest[n] <= bag.KeyAt(id).recv
    {
      ScanFinds(bag, |bag.file|, scanned, id.chunk);
      var b := ScannedBefore(bag, id.chunk);
      assert Scans(bag, scanned[b]);
      assert scanned[n..][b - n] == scanned[b];
      assert earliest[n] <= scanned[b].earliest;
    }
  }

  /** Every message of the recording has a receive time, as the writer sees to. */
  ghost predicate Timed(bag: Bag) {
    forall c: nat :: bag.IsMessageChunk(c) ==> bag.file[c].chunk.recv.Some?
  }

  ghost function ChunksOf(scanned: seq<ScannedChunk>): set<nat> {
    set s | s in scanned :: s.chunk
  }

  datatype Tally = Tally(counts: seq<nat>, messageCount: nat, timeRange: Option<(int, int)>)

  /** What has been learned from some of the scanned chunks. */
  ghost predicate Tallied(bag: Bag, chunks: set<nat>, tally: Tally) {
    && |tally.counts| == |bag.topics|
    && Spans(bag, RowsIn(bag, chunks), tally.timeRange)
    && (Timed(bag) ==> tally.messageCount == |RowsIn(bag, chunks)| && Counted(bag, chunks, tally.counts))
  }

  /** One more scanned chunk counts if it holds messages. */
  function Tallying(bag: Bag, tally: Tally, s: ScannedChunk): Tally
    requires |tally.counts| == |bag.topics|
    requires s.entity in bag.topicIndex ==> bag.topicIndex[s.entity] < |bag.topics|
  {
    if s.entity in bag.topicIndex && ScannedMessages(bag.topics[bag.topicIndex[s.entity]], s) then
      var topic := bag.topicIndex[s.entity];
      Tally(tally.counts[topic := tally.counts[topic] + s.numRows],
            tally.messageCount + s.numRows,
            Widened(tally.timeRange, s.timeRange))
    else tally
  }

  lemma TalliedMore(bag: Bag, scanned: seq<ScannedChunk>, n: nat, tally: Tally)
    requires bag.Valid() && ScanOf(bag, |bag.file|, scanned) && n < |scanned|
    requires Tallied(bag, ChunksOf(scanned[..n]), tally)
    ensures Tallied(bag, ChunksOf(scanned[..n + 1]), Tallying(bag, tally, scanned[n]))
  {
    NextScanned(bag, scanned, n);
    SpansMore(bag, ChunksOf(scanned[..n]), tally.timeRange, scanned[n]);
    if Timed(bag) {
      TotalMore(bag, scanned, n, tally);
      CountsMore(bag, scanned, n, tally);
    }
    hide ScanOf, Scans, Spans, RowsIn, Timed, Counted, Widened, ChunksOf, Bag.Valid, Bag.IsMessageChunk;
  }

  lemma TotalMore(bag: Bag, scanned: seq<ScannedChunk>, n: nat, tally: Tally)
    requires bag.Valid() && ScanOf(bag, |bag.file|, scanned) && n < |scanned|
    requires Timed(bag) && Tallied(bag, ChunksOf(scanned[..n]), tally)
    ensures Tallying(bag, tally, scanned[n]).messageCount == |RowsIn(bag, ChunksOf(scanned[..n + 1]))|
  {
    NextScanned(bag, scanned, n);
    RowsAdd(bag, ChunksOf(scanned[..n]), scanned[n].chunk);
  }

  lemma CountsMore(bag: Bag, scanned: seq<ScannedChunk>, n: nat, tally: Tally)
    requires bag.Valid() && ScanOf(bag, |bag.file|, scanned) && n < |scanned|
    requires Timed(bag) && Tallied(bag, ChunksOf(scanned[..n]), tally)
    ensures Counted(bag, ChunksOf(scanned[..n + 1]), Tallying(bag, tally, scanned[n]).counts)
  {
    hide Counted, ScanOf, RowsIn, TopicRowsIn, Timed, Spans, Widened, ChunksOf;
    NextScanned(bag, scanned, n);
    var c := scanned[n].chunk;
    if bag.IsMessageChunk(c) {
      CountedMore(bag, ChunksOf(scanned[..n]), tally.counts, c, bag.Topic(c));
    } else {
      CountedSame(bag, ChunksOf(scanned[..n]), tally.counts, c);
    }
  }

  /** Counts the messages of each topic, and their time range, from the scan. */
  method CountScanned(bag: Bag, scanned: seq<ScannedChunk>) returns (tally: Tally)
    requires bag.Valid() && ScanOf(bag, |bag.file|, scanned)
    ensures Tallied(bag, ChunksOf(scanned), tally) && RowsIn(bag, ChunksOf(scanned)) == bag.AllRows()
  {
    tally := Tally(seq(|bag.topics|, _ => 0), 0, None);
    NothingCounted(bag);
    assert RowsIn(bag, {}) == {};
    assert ChunksOf(scanned[..0]) == {};
    var n := 0;
    while n < |scanned|
      invariant n <= |scanned|
      invariant Tallied(bag, ChunksOf(scanned[..n]), tally)
    {
      TalliedMore(bag, scanned, n, tally);
      tally := Tallying(bag, tally, scanned[n]);
      n := n + 1;
    }
    assert scanned[..n] == scanned;
    AllScanned(bag, scanned);
  }

  function Widened(range: Option<(int, int)>, more: Option<(i64, i64)>): Option<(int, int)> {
    match more
    case None => range
    case Some((start, end)) =>
      match range
      case None => Some((start as int, end as int))
      case Some((s, e)) => Some((Min(s, start), Max(e, end)))
  }

  /** One more chunk widens the range to span its rows, if it holds any to play. */
  lemma SpansMore(bag: Bag, chunks: set<nat>, range: Option<(int, int)>, s: ScannedChunk)
    requires bag.Valid() && Scans(bag, s) && Spans(bag, RowsIn(bag, chunks), range)
    ensures Spans(bag, RowsIn(bag, chunks + {s.chunk}),
                  if bag.IsMessageChunk(s.chunk) then Widened(range, s.timeRange) else range)
  {
    var rows, more := RowsIn(bag, chunks), RowsIn(bag, chunks + {s.chunk});
    assert forall id :: id in more <==> id in rows || (id.chunk == s.chunk && bag.IsRow(id));
    if bag.IsMessageChunk(s.chunk) && s.timeRange.Some? {
      var times := bag.file[s.chunk].chunk.RecvTimes();
      var i :| 0 <= i < |times| && times[i] == s.timeRange.value.0;
      var j :| 0 <= j < |times| && times[j] == s.timeRange.value.1;
      assert RowId(s.chunk, i) in more && RowId(s.chunk, j) in more;
    }
  }

  lemma NextScanned(bag: Bag, scanned: seq<ScannedChunk>, n: nat)
    requires bag.Valid() && ScanOf(bag, |bag.file|, scanned) && n < |scanned|
    ensures var s := scanned[n];
            && Scans(bag, s)
            && s.chunk !in ChunksOf(scanned[..n])
            && ChunksOf(scanned[..n + 1]) == ChunksOf(scanned[..n]) + {s.chunk}
            && (bag.IsMessageChunk(s.chunk) <==>
                  s.entity in bag.topicIndex && ScannedMessages(bag.topics[bag.topicIndex[s.entity]], s))
            && (Timed(bag) && bag.IsMessageChunk(s.chunk) ==> s.numRows == bag.RowCount(s.chunk))
  {
    var s := scanned[n];
    ScanInOrder(bag, |bag.file|, scanned);
    assert Scans(bag, s);
    forall t | t in scanned[..n] ensures t.chunk != s.chunk {
      var k :| 0 <= k < n && scanned[k] == t;
    }
    assert forall t :: t in scanned[..n + 1] <==> t == s || t in scanned[..n];
  }

  lemma AllScanned(bag: Bag, scanned: seq<ScannedChunk>)
    requires ScanOf(bag, |bag.file|, scanned)
    ensures RowsIn(bag, ChunksOf(scanned)) == bag.AllRows()
  {
    forall id | bag.IsRow(id) ensures id.chunk in ChunksOf(scanned) {
      ScanFinds(bag, |bag.file|, scanned, id.chunk);
      assert scanned[ScannedBefore(bag, id.chunk)] in scanned;
    }
  }
}
