/**
 From the footer to the index: a manifest that describes a recording component by component
 yields an index that describes it chunk by chunk.
 */
module Footers {
  import opened Basics
  import opened Ordering
  import opened Recording
  import opened ChunkIndexes

  /** Whether a component has a value at a row. */
  predicate Fills(chunk: Chunk, component: Component, row: nat)
    requires chunk.WellFormed() && row < chunk.numRows
  {
    match component
    case Blobs => chunk.blobs.Some? && chunk.blobs.value[row].Some?
    case Structs => chunk.structs.Some? && chunk.structs.value[row].Some?
    case Derived(name) => name in chunk.derived && chunk.derived[name][row]
  }

  /** Every row to be replayed has its bytes or its struct. */
  ghost predicate Formed(bag: Bag)
    requires bag.Valid()
  {
    forall id :: bag.IsRow(id) ==>
      || Fills(bag.file[id.chunk].chunk, Blobs, id.row)
      || (bag.TopicAt(id).reflects && Fills(bag.file[id.chunk].chunk, Structs, id.row))
  }

  /** `entry` is the exact range of its component over the rows it fills. */
  ghost predicate Exact(bag: Bag, entry: Entry)
    requires bag.Valid()
  {
    && entry.id < |bag.file| && bag.file[entry.id].Data?
    && var chunk := bag.file[entry.id].chunk;
    && chunk.recv.Some?
    && (forall row: nat :: row < chunk.numRows && Fills(chunk, entry.component, row)
          ==> entry.start <= chunk.recv.value[row] <= entry.end)
    && (exists row: nat :: row < chunk.numRows && Fills(chunk, entry.component, row)
            && chunk.recv.value[row] == entry.start)
    && (exists row: nat :: row < chunk.numRows && Fills(chunk, entry.component, row)
            && chunk.recv.value[row] == entry.end)
  }

  ghost predicate Recorded(entries: seq<Entry>, id: nat, component: Component) {
    exists e :: e in entries && Concerns(e, id) && e.component == component
  }

  /** What the recording library writes in a footer. */
  ghost predicate Describes(manifest: Manifest, bag: Bag)
    requires bag.Valid()
  {
    && |manifest.entities| == |manifest.isStatic| == |manifest.numRows| == |manifest.ids|
    && (forall i :: 0 <= i < |manifest.ids| ==>
          && manifest.ids[i] < |bag.file|
          && bag.file[manifest.ids[i]].Data?
          && var chunk := bag.file[manifest.ids[i]].chunk;
          && manifest.entities[i] == chunk.entity
          && manifest.isStatic[i] == chunk.isStatic
          && manifest.numRows[i] == chunk.numRows)
    && (forall c :: 0 <= c < |bag.file| && bag.file[c].Data? ==> c in manifest.ids)
    && (forall e :: e in manifest.temporal && e.timeline == RECV_TIMESTAMP ==> Exact(bag, e))
    && (forall c: nat, row: nat, component ::
          (row < bag.RowCount(c) && Fills(bag.file[c].chunk, component, row))
          ==> Recorded(manifest.temporal, c, component))
  }

  /** `ref` says of a chunk of messages exactly what it covers. */
  ghost predicate Covers(bag: Bag, ref: ChunkRef) {
    && bag.IsMessageChunk(ref.id)
    && ref.entity == bag.file[ref.id].chunk.entity
    && ref.numRows == bag.RowCount(ref.id) > 0
    && (forall row :: 0 <= row < bag.RowCount(ref.id) ==> ref.start <= bag.KeyAt(RowId(ref.id, row)).recv <= ref.end)
    && (exists row :: 0 <= row < bag.RowCount(ref.id) && bag.KeyAt(RowId(ref.id, row)).recv == ref.start)
    && (exists row :: 0 <= row < bag.RowCount(ref.id) && bag.KeyAt(RowId(ref.id, row)).recv == ref.end)
  }

  /** The index names every chunk with rows to replay, once, in order of where it starts. */
  ghost predicate Indexes(bag: Bag, refs: seq<ChunkRef>) {
    && SortedByRange(refs)
    && DistinctIds(refs)
    && (forall ref :: ref in refs ==> Covers(bag, ref))
    && (forall c :: bag.RowCount(c) > 0 ==> c in IdsOf(refs))
  }

  /** What `Reader::open` keeps of the index. */
  predicate Keeps(bag: Bag, ref: ChunkRef) {
    && ref.entity in bag.topicIndex
    && bag.topicIndex[ref.entity] < |bag.topics|
    && HasMessages(bag.topics[bag.topicIndex[ref.entity]], ref.components)
  }

  lemma RangeSpansRow(bag: Bag, manifest: Manifest, ref: ChunkRef, row: nat)
    requires bag.Valid() && Formed(bag) && Describes(manifest, bag)
    requires Summarizes(manifest.temporal, ref.id, ref.start, ref.end, ref.components)
    requires row < bag.RowCount(ref.id)
    ensures ref.start <= bag.KeyAt(RowId(ref.id, row)).recv <= ref.end
    ensures HasMessages(bag.topics[bag.Topic(ref.id)], ref.components)
  {
    assert bag.IsRow(RowId(ref.id, row));
    var form := if Fills(bag.file[ref.id].chunk, Blobs, row) then Blobs else Structs;
    assert Fills(bag.file[ref.id].chunk, form, row);
    assert Recorded(manifest.temporal, ref.id, form);
    var e :| e in manifest.temporal && Concerns(e, ref.id) && e.component == form;
    assert Exact(bag, e);
    assert e.start <= bag.KeyAt(RowId(ref.id, row)).recv <= e.end;
    assert e.component in ref.components;
  }

  /** The range folded from the per-component entries is the range of the whole chunk: each column
      may be sparse, but every row fills one of them. */
  lemma FoldedRangeIsExact(bag: Bag, manifest: Manifest, ref: ChunkRef)
    requires bag.Valid() && Formed(bag) && Describes(manifest, bag)
    requires Lists(manifest, ref) && Keeps(bag, ref)
    ensures Covers(bag, ref)
  {
    KeptHoldsMessages(bag, manifest, ref);
    forall row: nat | row < bag.RowCount(ref.id) ensures ref.start <= bag.KeyAt(RowId(ref.id, row)).recv <= ref.end {
      RangeSpansRow(bag, manifest, ref, row);
    }
    var first, last := RangeIsAttained(bag, manifest, ref);
    assert bag.KeyAt(RowId(ref.id, first)).recv == ref.start;
    assert bag.KeyAt(RowId(ref.id, last)).recv == ref.end;
  }

  lemma RangeIsAttained(bag: Bag, manifest: Manifest, ref: ChunkRef) returns (first: nat, last: nat)
    requires bag.Valid() && Describes(manifest, bag)
    requires Summarizes(manifest.temporal, ref.id, ref.start, ref.end, ref.components)
    requires ref.id < |bag.file| && bag.file[ref.id].Data? && bag.file[ref.id].chunk.recv.Some?
    ensures var recv := bag.file[ref.id].chunk.recv.value;
            first < |recv| && recv[first] == ref.start && last < |recv| && recv[last] == ref.end
  {
    var s :| s in manifest.temporal && Concerns(s, ref.id) && s.start == ref.start;
    var l :| l in manifest.temporal && Concerns(l, ref.id) && l.end == ref.end;
    var first', _ := EntryIsAttained(bag, s);
    var _, last' := EntryIsAttained(bag, l);
    first, last := first', last';
  }

  lemma KeptHoldsMessages(bag: Bag, manifest: Manifest, ref: ChunkRef)
    requires bag.Valid() && Describes(manifest, bag)
    requires Lists(manifest, ref) && Keeps(bag, ref)
    ensures bag.IsMessageChunk(ref.id) && ref.entity == bag.file[ref.id].chunk.entity
    ensures bag.file[ref.id].chunk.recv.Some?
    ensures ref.numRows == bag.RowCount(ref.id) == bag.file[ref.id].chunk.numRows > 0
  {
    hide Describes, Lists, Keeps, Exact;
    var i := ListedAt(manifest, ref);
    DescribedAt(bag, manifest, i);
    var e := MessageEntry(bag, manifest, ref);
    EntryIsExact(bag, manifest, e);
    var row, _ := EntryIsAttained(bag, e);
  }

  lemma ListedAt(manifest: Manifest, ref: ChunkRef) returns (i: nat)
    requires Lists(manifest, ref)
    ensures i < |manifest.ids| && manifest.ids[i] == ref.id && !StaticAt(manifest, i)
    ensures i < |manifest.entities| && manifest.entities[i] == ref.entity && ref.numRows == RowsAt(manifest, i)
  {
    var k :| && 0 <= k < |manifest.ids| && manifest.ids[k] == ref.id && !StaticAt(manifest, k)
             && k < |manifest.entities| && manifest.entities[k] == ref.entity && ref.numRows == RowsAt(manifest, k);
    i := k;
  }

  lemma DescribedAt(bag: Bag, manifest: Manifest, i: nat)
    requires bag.Valid() && Describes(manifest, bag) && i < |manifest.ids|
    ensures manifest.ids[i] < |bag.file| && bag.file[manifest.ids[i]].Data?
    ensures var chunk := bag.file[manifest.ids[i]].chunk;
            && i < |manifest.entities| && manifest.entities[i] == chunk.entity
            && StaticAt(manifest, i) == chunk.isStatic && RowsAt(manifest, i) == chunk.numRows
  {
    hide Exact, Recorded;
  }

  /** What makes a listed chunk one of messages is an entry for its bytes or its structs. */
  lemma MessageEntry(bag: Bag, manifest: Manifest, ref: ChunkRef) returns (e: Entry)
    requires Lists(manifest, ref) && Keeps(bag, ref)
    ensures e in manifest.temporal && Concerns(e, ref.id)
    ensures ref.entity in bag.topicIndex && bag.topicIndex[ref.entity] < |bag.topics|
    ensures e.component.Blobs? || (e.component.Structs? && bag.topics[bag.topicIndex[ref.entity]].reflects)
  {
    var c :| c in ref.components && (c.Blobs? || (c.Structs? && bag.topics[bag.topicIndex[ref.entity]].reflects));
    e :| e in manifest.temporal && Concerns(e, ref.id) && e.component == c;
  }

  lemma EntryIsExact(bag: Bag, manifest: Manifest, e: Entry)
    requires bag.Valid() && Describes(manifest, bag) && e in manifest.temporal && e.timeline == RECV_TIMESTAMP
    ensures Exact(bag, e) && bag.file[e.id].Data? && bag.file[e.id].chunk.recv.Some?
  {
    hide Recorded;
  }

  lemma EntryIsAttained(bag: Bag, entry: Entry) returns (first: nat, last: nat)
    requires bag.Valid() && Exact(bag, entry)
    ensures var chunk := bag.file[entry.id].chunk;
            && first < chunk.numRows && Fills(chunk, entry.component, first) && chunk.recv.value[first] == entry.start
            && last < chunk.numRows && Fills(chunk, entry.component, last) && chunk.recv.value[last] == entry.end
  {
    var chunk := bag.file[entry.id].chunk;
    first :| first < chunk.numRows && Fills(chunk, entry.component, first) && chunk.recv.value[first] == entry.start;
    last :| last < chunk.numRows && Fills(chunk, entry.component, last) && chunk.recv.value[last] == entry.end;
  }

  /** A chunk with rows to replay has a place in the footer, and an entry for some form of its rows. */
  lemma HasPlace(bag: Bag, manifest: Manifest, c: nat) returns (i: nat)
    requires bag.Valid() && Formed(bag) && Describes(manifest, bag) && bag.RowCount(c) > 0
    ensures Temporal(manifest, i) && manifest.ids[i] == c
  {
    assert c in manifest.ids;
    i :| 0 <= i < |manifest.ids| && manifest.ids[i] == c;
    DescribedAt(bag, manifest, i);
    hide Exact;
    assert bag.IsRow(RowId(c, 0));
    var form := if Fills(bag.file[c].chunk, Blobs, 0) then Blobs else Structs;
    assert Fills(bag.file[c].chunk, form, 0);
    assert Recorded(manifest.temporal, c, form);
  }

  /** The footer lists every chunk with rows to replay. */
  lemma EveryChunkIsListed(bag: Bag, manifest: Manifest, listed: seq<ChunkRef>, c: nat)
    requires bag.Valid() && Formed(bag) && Describes(manifest, bag)
    requires forall ref :: ref in listed ==> Lists(manifest, ref)
    requires forall i: nat :: Temporal(manifest, i) ==> manifest.ids[i] in IdsOf(listed)
    requires bag.RowCount(c) > 0
    ensures exists ref :: ref in listed && ref.id == c && Keeps(bag, ref)
  {
    hide Formed, Describes, Lists, Keeps, Temporal;
    var i := HasPlace(bag, manifest, c);
    var ref :| ref in listed && ref.id == c;
    ListedIsKept(bag, manifest, ref);
  }

  lemma ListedIsKept(bag: Bag, manifest: Manifest, ref: ChunkRef)
    requires bag.Valid() && Formed(bag) && Describes(manifest, bag) && Lists(manifest, ref)
    requires bag.RowCount(ref.id) > 0
    ensures Keeps(bag, ref)
  {
    var i := ListedAt(manifest, ref);
    DescribedAt(bag, manifest, i);
    RangeSpansRow(bag, manifest, ref, 0);
    hide Formed, Describes, Lists, Summarizes;
  }

  /** The index opened from a footer and stripped of what holds no messages indexes the bag. */
  lemma KeptIndexes(bag: Bag, manifest: Manifest, listed: seq<ChunkRef>, refs: seq<ChunkRef>)
    requires bag.Valid() && Formed(bag) && Describes(manifest, bag)
    requires forall ref :: ref in listed ==> Lists(manifest, ref)
    requires forall i: nat :: Temporal(manifest, i) ==> manifest.ids[i] in IdsOf(listed)
    requires SortedByRange(refs) && DistinctIds(refs)
    requires forall ref :: ref in refs <==> ref in listed && Keeps(bag, ref)
    ensures Indexes(bag, refs)
    ensures forall ref :: ref in listed && Keeps(bag, ref) ==> Covers(bag, ref)
    ensures forall c: nat :: bag.RowCount(c) > 0 ==> exists ref :: ref in listed && ref.id == c && Keeps(bag, ref)
  {
    forall ref | ref in listed && Keeps(bag, ref) ensures Covers(bag, ref) {
      FoldedRangeIsExact(bag, manifest, ref);
    }
    forall c: nat | bag.RowCount(c) > 0 ensures exists ref :: ref in listed && ref.id == c && Keeps(bag, ref) {
      EveryChunkIsListed(bag, manifest, listed, c);
    }
    hide Keeps, Covers, Describes, Formed, Lists, Temporal;
    forall c: nat | bag.RowCount(c) > 0 ensures c in IdsOf(refs) {
      var ref :| ref in listed && ref.id == c && Keeps(bag, ref);
      assert ref in refs;
    }
  }

  // ---------------------------------------------------------------- a footer for any recording

  /** The range of one component over the rows it fills, if it fills any. */
  method RangeOfComponent(bag: Bag, c: nat, component: Component) returns (entry: Option<Entry>)
    requires bag.Valid() && c < |bag.file| && bag.file[c].Data? && bag.file[c].chunk.recv.Some?
    ensures entry.Some? ==>
              && entry.value.timeline == RECV_TIMESTAMP && entry.value.component == component && entry.value.id == c
              && Exact(bag, entry.value)
    ensures entry.None? ==> forall row: nat :: row < bag.file[c].chunk.numRows
                                ==> !Fills(bag.file[c].chunk, component, row)
  {
    var chunk := bag.file[c].chunk;
    entry := None;
    ghost var first, last: nat := 0, 0;
    var row := 0;
    while row < chunk.numRows
      invariant row <= chunk.numRows
      invariant entry.None? ==> forall r: nat :: r < row ==> !Fills(chunk, component, r)
      invariant entry.Some? ==>
          && entry.value == Entry(RECV_TIMESTAMP, component, c, entry.value.start, entry.value.end)
          && (forall r: nat :: r < row && Fills(chunk, component, r)
                  ==> entry.value.start <= chunk.recv.value[r] <= entry.value.end)
          && first < row && Fills(chunk, component, first) && chunk.recv.value[first] == entry.value.start
          && last < row && Fills(chunk, component, last) && chunk.recv.value[last] == entry.value.end
    {
      if Fills(chunk, component, row) {
        var time := chunk.recv.value[row];
        if entry.None? || time < entry.value.start { first := row; }
        if entry.None? || time > entry.value.end { last := row; }
        entry := Some(Entry(RECV_TIMESTAMP, component, c,
                            if entry.None? || time < entry.value.start then time else entry.value.start,
                            if entry.None? || time > entry.value.end then time else entry.value.end));
      }
      row := row + 1;
    }
  }

  /** An entry for every component that fills some row of chunk `c`. */
  ghost predicate DescribesChunk(bag: Bag, entries: seq<Entry>, c: nat)
    requires bag.Valid()
  {
    forall row: nat, component ::
      row < bag.RowCount(c) && Fills(bag.file[c].chunk, component, row) ==> Recorded(entries, c, component)
  }

  predicate Stores(chunk: Chunk, component: Component) {
    component.Derived? ==> component.name in chunk.derived
  }

  ghost predicate RecordsAll(chunk: Chunk, entries: seq<Entry>, c: nat, components: set<Component>)
    requires chunk.WellFormed()
  {
    forall component, row: nat ::
      component in components && row < chunk.numRows && Fills(chunk, component, row) ==> Recorded(entries, c, component)
  }

  /** The entries of one chunk. */
  method EntriesOf(bag: Bag, c: nat) returns (entries: seq<Entry>)
    requires bag.Valid() && c < |bag.file| && bag.file[c].Data? && bag.file[c].chunk.recv.Some?
    ensures forall e :: e in entries ==> e.timeline == RECV_TIMESTAMP && Exact(bag, e)
    ensures DescribesChunk(bag, entries, c)
  {
    var chunk := bag.file[c].chunk;
    entries := [];
    var components: set<Component> := {Blobs, Structs} + set name | name in chunk.derived :: Derived(name);
    ghost var done: set<Component> := {};
    while components != {}
      invariant forall e :: e in entries ==> e.timeline == RECV_TIMESTAMP && Exact(bag, e)
      invariant forall component :: Stores(chunk, component) ==> component in components || component in done
      invariant RecordsAll(chunk, entries, c, done)
      decreases components
    {
      var component :| component in components;
      var entry := RangeOfComponent(bag, c, component);
      if entry.Some? {
        RecordedStill(entries, entry.value, c);
        entries := entries + [entry.value];
      }
      components, done := components - {component}, done + {component};
    }
  }

  lemma RecordedStill(entries: seq<Entry>, entry: Entry, c: nat)
    ensures forall component :: Recorded(entries, c, component) ==> Recorded(entries + [entry], c, component)
    ensures Concerns(entry, c) ==> Recorded(entries + [entry], c, entry.component)
  {
    RecordedJoins(entries, [entry], c);
    assert entry in [entry];
  }

  /** A footer that describes the first messages of a file. */
  ghost predicate DescribesUpTo(manifest: Manifest, bag: Bag, n: nat)
    requires bag.Valid() && n <= |bag.file|
  {
    && |manifest.entities| == |manifest.isStatic| == |manifest.numRows| == |manifest.ids|
    && (forall i :: 0 <= i < |manifest.ids| ==>
          && manifest.ids[i] < n
          && bag.file[manifest.ids[i]].Data?
          && var chunk := bag.file[manifest.ids[i]].chunk;
          && manifest.entities[i] == chunk.entity
          && manifest.isStatic[i] == chunk.isStatic
          && manifest.numRows[i] == chunk.numRows)
    && (forall c :: 0 <= c < n && bag.file[c].Data? ==> c in manifest.ids)
    && (forall e :: e in manifest.temporal ==> e.timeline == RECV_TIMESTAMP && Exact(bag, e))
    && (forall c: nat :: c < n ==> DescribesChunk(bag, manifest.temporal, c))
  }

  /** Every recording has a footer that describes it. */
  method FooterOf(bag: Bag) returns (manifest: Manifest)
    requires bag.Valid()
    ensures Describes(manifest, bag)
  {
    hide Describes, Exact, DescribesChunk;
    manifest := Manifest([], [], [], [], []);
    var c := 0;
    while c < |bag.file|
      invariant c <= |bag.file| && DescribesUpTo(manifest, bag, c)
    {
      if bag.file[c].Data? {
        var chunk := bag.file[c].chunk;
        var entries := [];
        if chunk.recv.Some? { entries := EntriesOf(bag, c); } else { NothingToDescribe(bag, entries, c); }
        DescribesMore(manifest, bag, c, entries);
        manifest := Manifest(manifest.ids + [c], manifest.entities + [chunk.entity],
                             manifest.isStatic + [chunk.isStatic], manifest.numRows + [chunk.numRows],
                             manifest.temporal + entries);
      } else {
        NothingToDescribe(bag, manifest.temporal, c);
      }
      c := c + 1;
    }
    DescribesWhole(manifest, bag);
  }

  lemma NothingToDescribe(bag: Bag, entries: seq<Entry>, c: nat)
    requires bag.Valid() && bag.RowCount(c) == 0
    ensures DescribesChunk(bag, entries, c)
  {}

  lemma DescribesMore(manifest: Manifest, bag: Bag, c: nat, entries: seq<Entry>)
    requires bag.Valid() && c < |bag.file| && bag.file[c].Data? && DescribesUpTo(manifest, bag, c)
    requires DescribesChunk(bag, entries, c)
    requires forall e :: e in entries ==> e.timeline == RECV_TIMESTAMP && Exact(bag, e)
    ensures var chunk := bag.file[c].chunk;
            DescribesUpTo(Manifest(manifest.ids + [c], manifest.entities + [chunk.entity],
                                   manifest.isStatic + [chunk.isStatic], manifest.numRows + [chunk.numRows],
                                   manifest.temporal + entries), bag, c + 1)
  {
    hide Exact;
    forall b: nat | b <= c ensures DescribesChunk(bag, manifest.temporal + entries, b) {
      RecordedJoins(manifest.temporal, entries, b);
      if b < c { assert DescribesChunk(bag, manifest.temporal, b); }
    }
  }

  lemma DescribesWhole(manifest: Manifest, bag: Bag)
    requires bag.Valid() && DescribesUpTo(manifest, bag, |bag.file|)
    ensures Describes(manifest, bag)
  {
    hide Exact, Recorded;
    forall c: nat, row: nat, component | row < bag.RowCount(c) && Fills(bag.file[c].chunk, component, row)
      ensures Recorded(manifest.temporal, c, component)
    {
      assert DescribesChunk(bag, manifest.temporal, c);
    }
  }

  lemma RecordedJoins(some: seq<Entry>, others: seq<Entry>, c: nat)
    ensures forall component :: Recorded(some, c, component) || Recorded(others, c, component)
              ==> Recorded(some + others, c, component)
  {
    assert forall e :: e in some || e in others ==> e in some + others;
  }
}
