/** What a footer says of the chunks of a recording, as the reader plans by it (`index.rs`). */
module ChunkIndexes {
  import opened Basics
  import opened Recording

  /** The columns of a chunk that are not times. */
  datatype Component = Blobs | Structs | Derived(name: string)

  const RECV_TIMESTAMP := "recv_timestamp"

  /** One per-component range of the manifest: on one timeline, over the rows the component
      fills in chunk `id`. */
  datatype Entry = Entry(timeline: string, component: Component, id: nat, start: i64, end: i64)

  /** The footer. A chunk's id is its place in the file; `temporal` holds the entries in whatever
      order its maps are walked. */
  datatype Manifest = Manifest(
    ids: seq<nat>, entities: seq<Entity>, isStatic: seq<bool>, numRows: seq<nat>, temporal: seq<Entry>)

  datatype ChunkSummary = ChunkSummary(start: i64, end: i64, components: seq<Component>)

  /** One chunk by its place in the file, with the times and the components a footer gives it. */
  datatype ChunkRef = ChunkRef(id: nat, entity: Entity, numRows: nat, start: i64, end: i64, components: seq<Component>)

  predicate HasMessages(info: TopicInfo, components: seq<Component>) {
    exists c :: c in components && (c.Blobs? || (c.Structs? && info.reflects))
  }

  // ---------------------------------------------------------------- summaries

  ghost predicate Concerns(entry: Entry, id: nat) {
    entry.timeline == RECV_TIMESTAMP && entry.id == id
  }

  /** What some entries say of a chunk: a range that spans theirs and no more, and exactly their
      components. Said of the entries as a set, so their order is immaterial. */
  ghost predicate Summarizes(entries: seq<Entry>, id: nat, start: int, end: int, components: seq<Component>) {
    && (forall e :: e in entries && Concerns(e, id) ==> start <= e.start && e.end <= end && e.component in components)
    && (exists e :: e in entries && Concerns(e, id) && e.start == start)
    && (exists e :: e in entries && Concerns(e, id) && e.end == end)
    && (forall c :: c in components ==> exists e :: e in entries && Concerns(e, id) && e.component == c)
  }

  /** Joins what is said of a chunk component by component, on the timeline of receive times. */
  method Summarize(entries: seq<Entry>) returns (summaries: map<nat, ChunkSummary>)
    ensures forall e :: e in entries && e.timeline == RECV_TIMESTAMP ==> e.id in summaries
    ensures forall id :: id in summaries ==>
              Summarizes(entries, id, summaries[id].start, summaries[id].end, summaries[id].components)
  {
    summaries := map[];
    var i := 0;
    while i < |entries|
      invariant i <= |entries|
      invariant forall e :: e in entries[..i] && e.timeline == RECV_TIMESTAMP ==> e.id in summaries
      invariant forall id :: id in summaries ==>
          Summarizes(entries[..i], id, summaries[id].start, summaries[id].end, summaries[id].components)
    {
      var entry := entries[i];
      ghost var before := summaries;
      assert entries[..i + 1] == entries[..i] + [entry];
      if entry.timeline == RECV_TIMESTAMP {
        var summary := if entry.id in summaries then summaries[entry.id] else ChunkSummary(entry.start, entry.end, []);
        summaries := summaries[entry.id := ChunkSummary(
          if entry.start < summary.start then entry.start else summary.start,
          if entry.end > summary.end then entry.end else summary.end,
          summary.components + [entry.component])];
      }
      forall id | id in summaries
        ensures Summarizes(entries[..i + 1], id, summaries[id].start, summaries[id].end, summaries[id].components)
      {
        SummaryGrows(entries[..i], entry, id, id in before, if id in before then before[id] else summaries[id],
                     summaries[id]);
      }
      i := i + 1;
    }
    assert entries[..i] == entries;
  }

  /** One more entry widens the summary of the chunk it concerns and leaves the others alone. */
  lemma SummaryGrows(entries: seq<Entry>, entry: Entry, id: nat, known: bool, old': ChunkSummary, new': ChunkSummary)
    requires known ==> Summarizes(entries, id, old'.start, old'.end, old'.components)
    requires !known ==> Concerns(entry, id) && forall e :: e in entries ==> !Concerns(e, id)
    requires !known ==> new' == ChunkSummary(entry.start, entry.end, [entry.component])
    requires known && Concerns(entry, id) ==>
               && new'.start as int == Min(entry.start, old'.start)
               && new'.end as int == Max(entry.end, old'.end)
               && new'.components == old'.components + [entry.component]
    requires known && !Concerns(entry, id) ==> new' == old'
    ensures Summarizes(entries + [entry], id, new'.start, new'.end, new'.components)
  {
    var more := entries + [entry];
    assert entry in more && forall e :: e in entries ==> e in more;
    if known {
      var s :| s in entries && Concerns(s, id) && s.start == old'.start;
      var e :| e in entries && Concerns(e, id) && e.end == old'.end;
      assert s in more && e in more;
    }
  }

  // ---------------------------------------------------------------- the index

  predicate RangeLeq(a: ChunkRef, b: ChunkRef) {
    a.start < b.start || (a.start == b.start && a.end <= b.end)
  }

  ghost predicate SortedByRange(refs: seq<ChunkRef>) {
    forall i, j :: 0 <= i < j < |refs| ==> RangeLeq(refs[i], refs[j])
  }

  ghost predicate DistinctIds(refs: seq<ChunkRef>) {
    forall i, j :: 0 <= i < j < |refs| ==> refs[i].id != refs[j].id
  }

  /** The latest end in any of `refs[..=i]`. */
  function LatestThrough(refs: seq<ChunkRef>, i: nat): i64
    requires i < |refs|
  {
    if i == 0 then refs[0].end
    else if refs[i].end > LatestThrough(refs, i - 1) then refs[i].end
    else LatestThrough(refs, i - 1)
  }

  lemma {:induction false} LatestThroughIsLatest(refs: seq<ChunkRef>, i: nat)
    requires i < |refs|
    ensures forall j :: 0 <= j <= i ==> refs[j].end <= LatestThrough(refs, i)
    ensures exists j :: 0 <= j <= i && refs[j].end == LatestThrough(refs, i)
  {
    assert refs[i].end <= LatestThrough(refs, i);
    if i > 0 {
      LatestThroughIsLatest(refs, i - 1);
    }
  }

  ghost predicate PrefixMaxima(refs: seq<ChunkRef>, maxima: seq<i64>) {
    && |maxima| == |refs|
    && forall i :: 0 <= i < |refs| ==> maxima[i] == LatestThrough(refs, i)
  }

  function InsertByRange(ref: ChunkRef, refs: seq<ChunkRef>): (r: seq<ChunkRef>)
    ensures |r| == |refs| + 1
    ensures forall x :: x in r <==> x == ref || x in refs
  {
    if refs == [] then [ref]
    else if RangeLeq(ref, refs[0]) then [ref] + refs
    else [refs[0]] + InsertByRange(ref, refs[1..])
  }

  /** Sorting by `(start, end)`. */
  function SortByRange(refs: seq<ChunkRef>): (r: seq<ChunkRef>)
    ensures |r| == |refs|
    ensures forall x :: x in r <==> x in refs
  {
    if refs == [] then [] else InsertByRange(refs[0], SortByRange(refs[1..]))
  }

  lemma {:induction false} InsertKeepsOrder(ref: ChunkRef, refs: seq<ChunkRef>)
    requires SortedByRange(refs) && DistinctIds(refs) && forall x :: x in refs ==> x.id != ref.id
    ensures SortedByRange(InsertByRange(ref, refs)) && DistinctIds(InsertByRange(ref, refs))
  {
    if refs != [] && !RangeLeq(ref, refs[0]) {
      InsertKeepsOrder(ref, refs[1..]);
      var rest := InsertByRange(ref, refs[1..]);
      forall j | 0 <= j < |rest| ensures RangeLeq(refs[0], rest[j]) && refs[0].id != rest[j].id {
        assert rest[j] in rest;
      }
    }
  }

  /** The chunks of one range, in the order they are listed. */
  function OfRange(refs: seq<ChunkRef>, start: int, end: int): seq<ChunkRef> {
    if refs == [] then []
    else (if refs[0].start == start && refs[0].end == end then [refs[0]] else []) + OfRange(refs[1..], start, end)
  }

  lemma {:induction false} InsertKeepsRanges(ref: ChunkRef, refs: seq<ChunkRef>, start: int, end: int)
    ensures OfRange(InsertByRange(ref, refs), start, end) == OfRange([ref] + refs, start, end)
  {
    assert ([ref] + refs)[1..] == refs;
    if refs != [] && !RangeLeq(ref, refs[0]) {
      InsertKeepsRanges(ref, refs[1..], start, end);
      assert ([ref] + refs[1..])[1..] == refs[1..];
    }
  }

  /** The sort orders by range, and is stable: of each range it keeps every chunk, in the order given. */
  lemma {:induction false} SortSorts(refs: seq<ChunkRef>)
    requires DistinctIds(refs)
    ensures SortedByRange(SortByRange(refs)) && DistinctIds(SortByRange(refs))
    ensures var r := SortByRange(refs);
            forall i, j :: 0 <= i < j < |r| ==>
              r[i].start < r[j].start || (r[i].start == r[j].start && r[i].end <= r[j].end)
    ensures forall start, end :: OfRange(SortByRange(refs), start, end) == OfRange(refs, start, end)
  {
    if refs != [] {
      SortSorts(refs[1..]);
      forall start, end ensures OfRange(SortByRange(refs), start, end) == OfRange(refs, start, end) {
        InsertKeepsRanges(refs[0], SortByRange(refs[1..]), start, end);
        assert ([refs[0]] + SortByRange(refs[1..]))[1..] == SortByRange(refs[1..]);
      }
      InsertKeepsOrder(refs[0], SortByRange(refs[1..]));
    }
  }

  /** The manifest lists a temporal chunk by this id, on this entity, with this many rows. */
  ghost predicate Placed(manifest: Manifest, ref: ChunkRef) {
    exists i :: && 0 <= i < |manifest.ids| && manifest.ids[i] == ref.id && !StaticAt(manifest, i)
                && i < |manifest.entities| && manifest.entities[i] == ref.entity
                && ref.numRows == RowsAt(manifest, i)
  }

  ghost predicate Lists(manifest: Manifest, ref: ChunkRef) {
    Placed(manifest, ref) && Summarizes(manifest.temporal, ref.id, ref.start, ref.end, ref.components)
  }

  predicate StaticAt(manifest: Manifest, i: nat) { i < |manifest.isStatic| && manifest.isStatic[i] }

  function RowsAt(manifest: Manifest, i: nat): nat { if i < |manifest.numRows| then manifest.numRows[i] else 0 }

  /** A chunk of the manifest that belongs in the index. */
  ghost predicate Temporal(manifest: Manifest, i: nat) {
    && i < |manifest.ids|
    && !StaticAt(manifest, i)
    && i < |manifest.entities|
    && exists e :: e in manifest.temporal && Concerns(e, manifest.ids[i])
  }

  /** The chunks that are static among the first `n` of the manifest, in its order. */
  function StaticIds(manifest: Manifest, n: nat): seq<nat>
    requires n <= |manifest.ids|
  {
    if n == 0 then []
    else
      StaticIds(manifest, n - 1)
      + if n - 1 < |manifest.isStatic| && manifest.isStatic[n - 1] then [manifest.ids[n - 1]] else []
  }

  /** Where the other chunks among the first `n` stand. */
  ghost function TemporalPlaces(manifest: Manifest, n: nat): set<nat> {
    set i: nat | i < n && !(i < |manifest.isStatic| && manifest.isStatic[i])
  }

  lemma NoPlaces(manifest: Manifest)
    ensures StaticIds(manifest, 0) == [] && |TemporalPlaces(manifest, 0)| == 0
  {
    assert TemporalPlaces(manifest, 0) == {};
  }

  lemma OnePlaceMore(manifest: Manifest, n: nat)
    requires n < |manifest.ids|
    ensures StaticIds(manifest, n + 1)
         == StaticIds(manifest, n) + if StaticAt(manifest, n) then [manifest.ids[n]] else []
    ensures |TemporalPlaces(manifest, n + 1)|
         == |TemporalPlaces(manifest, n)| + if StaticAt(manifest, n) then 0 else 1
  {
    assert TemporalPlaces(manifest, n + 1) == TemporalPlaces(manifest, n) + if StaticAt(manifest, n) then {} else {n};
  }

  ghost function IdsOf(refs: seq<ChunkRef>): set<nat> {
    set ref | ref in refs :: ref.id
  }

  /** Pairs every temporal chunk of the manifest with its summary. A chunk with none carries no
      receive times; a summary is used once. */
  method Collect(manifest: Manifest, found: map<nat, ChunkSummary>)
    returns (refs: seq<ChunkRef>, statics: seq<nat>, temporal: nat)
    ensures DistinctIds(refs)
    ensures forall ref :: ref in refs ==> Placed(manifest, ref) && TakenFrom(found, ref)
    ensures forall i :: 0 <= i < |manifest.ids| && i < |manifest.entities| && !StaticAt(manifest, i)
                && manifest.ids[i] in found
              ==> manifest.ids[i] in IdsOf(refs)
    ensures statics == StaticIds(manifest, |manifest.ids|)
    ensures temporal == |TemporalPlaces(manifest, |manifest.ids|)|
  {
    hide StaticIds, TemporalPlaces;
    NoPlaces(manifest);
    var summaries := found;
    refs, statics, temporal := [], [], 0;
    var i := 0;
    while i < |manifest.ids|
      invariant i <= |manifest.ids|
      invariant statics == StaticIds(manifest, i) && temporal == |TemporalPlaces(manifest, i)|
      invariant DistinctIds(refs)
      invariant forall ref :: ref in refs ==> Placed(manifest, ref) && TakenFrom(found, ref)
      invariant IdsOf(refs) !! summaries.Keys
      invariant forall id :: id in summaries ==> id in found && summaries[id] == found[id]
      invariant forall k ::
          0 <= k < i && k < |manifest.entities| && !StaticAt(manifest, k) && manifest.ids[k] in found
          ==> manifest.ids[k] in IdsOf(refs)
      invariant i <= |manifest.entities| ==> found.Keys <= IdsOf(refs) + summaries.Keys
    {
      var id := manifest.ids[i];
      OnePlaceMore(manifest, i);
      if StaticAt(manifest, i) {
        statics := statics + [id];
      } else {
        temporal := temporal + 1;
        if id in summaries {
          var summary := summaries[id];
          summaries := summaries - {id};
          if i < |manifest.entities| {
            var ref := ChunkRef(id, manifest.entities[i], RowsAt(manifest, i), summary.start, summary.end,
                                summary.components);
            assert Placed(manifest, ref);
            Appended(refs, ref);
            refs := refs + [ref];
          }
        }
      }
      i := i + 1;
    }
  }

  predicate TakenFrom(found: map<nat, ChunkSummary>, ref: ChunkRef) {
    ref.id in found && found[ref.id] == ChunkSummary(ref.start, ref.end, ref.components)
  }

  lemma Appended(refs: seq<ChunkRef>, ref: ChunkRef)
    requires DistinctIds(refs)
    ensures IdsOf(refs + [ref]) == IdsOf(refs) + {ref.id}
    ensures ref.id !in IdsOf(refs) ==> DistinctIds(refs + [ref])
  {
    assert ref in refs + [ref];
    assert forall r :: r in refs ==> r in refs + [ref];
    if ref.id !in IdsOf(refs) {
      forall i | 0 <= i < |refs| ensures refs[i].id != ref.id {
        assert refs[i] in refs;
      }
    }
  }

  class ChunkIndex {
    /** Ascending by `(start, end)`. */
    var chunks: seq<ChunkRef>

    /** The number of chunks that are not static, with receive times or without. */
    var temporalChunks: nat
    var maxEndThrough: seq<i64>
    var statics: seq<nat>

    ghost predicate Valid()
      reads this
    {
      SortedByRange(chunks) && DistinctIds(chunks) && PrefixMaxima(chunks, maxEndThrough)
    }

    /** Builds the index from a footer. */
    constructor Open(manifest: Manifest)
      ensures Valid()
      ensures forall ref :: ref in chunks ==> Lists(manifest, ref)
      ensures forall i: nat :: Temporal(manifest, i) ==> manifest.ids[i] in IdsOf(chunks)
      ensures statics == StaticIds(manifest, |manifest.ids|)
      ensures temporalChunks == |TemporalPlaces(manifest, |manifest.ids|)|
      ensures forall i, j :: 0 <= i < j < |chunks| ==>
                || chunks[i].start < chunks[j].start
                || (chunks[i].start == chunks[j].start && chunks[i].end <= chunks[j].end)
    {
      var summaries := Summarize(manifest.temporal);
      var refs, constants, temporal := Collect(manifest, summaries);
      SortSorts(refs);
      chunks := SortByRange(refs);
      temporalChunks := temporal;
      statics := constants;
      maxEndThrough := [];
      new;
      RecomputeMaxEndThrough();
    }

    /** Filters the index in place by `keep`, and brings the maxima up to date. */
    method Retain(keep: ChunkRef -> bool)
      requires Valid()
      modifies `chunks, `maxEndThrough
      ensures Valid()
      ensures forall ref :: ref in chunks <==> ref in old(chunks) && keep(ref)
    {
      var kept: seq<ChunkRef> := [];
      var i := 0;
      while i < |chunks|
        invariant i <= |chunks|
        invariant chunks == old(chunks)
        invariant forall ref :: ref in kept <==> ref in chunks[..i] && keep(ref)
        invariant SortedByRange(kept) && DistinctIds(kept)
        invariant forall a :: 0 <= a < |kept| ==> exists b :: 0 <= b < i && kept[a] == chunks[b]
      {
        if keep(chunks[i]) {
          kept := kept + [chunks[i]];
        }
        i := i + 1;
      }
      chunks := kept;
      RecomputeMaxEndThrough();
    }

    method RecomputeMaxEndThrough()
      modifies `maxEndThrough
      ensures PrefixMaxima(chunks, maxEndThrough)
    {
      var maxEnd: i64 := I64_MIN;
      maxEndThrough := [];
      var i := 0;
      while i < |chunks|
        invariant i == |maxEndThrough| <= |chunks|
        invariant forall k :: 0 <= k < i ==> maxEndThrough[k] == LatestThrough(chunks, k)
        invariant maxEnd == if i == 0 then I64_MIN else maxEndThrough[i - 1]
      {
        if chunks[i].end > maxEnd {
          maxEnd := chunks[i].end;
        }
        maxEndThrough := maxEndThrough + [maxEnd];
        i := i + 1;
      }
    }

    /** The rows of all the chunks listed, taken together. */
    function MessageCount(): nat
      reads this
    {
      TotalRows(chunks)
    }

    /** From the first start to the latest end; there is no range without a chunk. */
    function TimeRange(): (r: Option<(int, int)>)
      reads this
      requires Valid()
      ensures r.None? <==> chunks == []
      ensures r.Some? ==>
                && (forall ref :: ref in chunks ==> r.value.0 <= ref.start && ref.end <= r.value.1)
                && (exists ref :: ref in chunks && ref.start == r.value.0)
                && (exists ref :: ref in chunks && ref.end == r.value.1)
    {
      if chunks == [] then None
      else
        LatestThroughIsLatest(chunks, |chunks| - 1);
        var end := LatestThrough(chunks, |chunks| - 1);
        assert forall ref :: ref in chunks ==> exists j :: 0 <= j < |chunks| && chunks[j] == ref;
        Some((chunks[0].start, end))
    }
  }

  function TotalRows(refs: seq<ChunkRef>): nat {
    if refs == [] then 0 else refs[0].numRows + TotalRows(refs[1..])
  }
}
