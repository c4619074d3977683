/**
 The chunks a pass has not read yet, found through the index or by scanning, and the bounds that
 tell when reading ahead may stop.
 */
module ReadAhead {
  import opened Basics
  import opened Ordering
  import opened Recording
  import opened Playback
  import opened ChunkIndexes
  import opened Footers

  // ---------------------------------------------------------------- through the index

  /** Where in the index a pass is after `at` steps: counted from either end, by its direction. */
  function Place(refs: seq<ChunkRef>, reverse: bool, at: nat): nat
    requires at < |refs|
  {
    if reverse then |refs| - 1 - at else at
  }

  predicate WantedRef(bag: Bag, filter: seq<string>, ref: ChunkRef) {
    && ref.entity in bag.topicIndex
    && bag.topicIndex[ref.entity] < |bag.topics|
    && Wanted(filter, bag.topics[bag.topicIndex[ref.entity]])
  }

  /** The chunks the rest of a pass over the index will read. */
  ghost function IndexUnread(bag: Bag, refs: seq<ChunkRef>, filter: seq<string>, reverse: bool, at: nat): set<nat>
    decreases |refs| - at
  {
    if at >= |refs| then {}
    else
      var ref := refs[Place(refs, reverse, at)];
      (if WantedRef(bag, filter, ref) then {ref.id} else {}) + IndexUnread(bag, refs, filter, reverse, at + 1)
  }

  lemma {:induction false} IndexUnreadIsWanted(bag: Bag, refs: seq<ChunkRef>, filter: seq<string>, reverse: bool,
                                               at: nat, c: nat)
    requires c in IndexUnread(bag, refs, filter, reverse, at)
    ensures exists p :: at <= p < |refs| && refs[Place(refs, reverse, p)].id == c
                && WantedRef(bag, filter, refs[Place(refs, reverse, p)])
    decreases |refs| - at
  {
    var ref := refs[Place(refs, reverse, at)];
    if !(WantedRef(bag, filter, ref) && ref.id == c) {
      IndexUnreadIsWanted(bag, refs, filter, reverse, at + 1, c);
    }
  }

  lemma {:induction false} WantedIsIndexUnread(bag: Bag, refs: seq<ChunkRef>, filter: seq<string>, reverse: bool,
                                               at: nat, p: nat)
    requires at <= p < |refs| && WantedRef(bag, filter, refs[Place(refs, reverse, p)])
    ensures refs[Place(refs, reverse, p)].id in IndexUnread(bag, refs, filter, reverse, at)
    decreases |refs| - at
  {
    if at < p {
      WantedIsIndexUnread(bag, refs, filter, reverse, at + 1, p);
    }
  }

  /** The chunk at hand is read once. */
  lemma ReadOnce(bag: Bag, refs: seq<ChunkRef>, filter: seq<string>, reverse: bool, at: nat)
    requires Indexes(bag, refs) && at < |refs|
    ensures refs[Place(refs, reverse, at)].id !in IndexUnread(bag, refs, filter, reverse, at + 1)
  {
    var id := refs[Place(refs, reverse, at)].id;
    if id in IndexUnread(bag, refs, filter, reverse, at + 1) {
      IndexUnreadIsWanted(bag, refs, filter, reverse, at + 1, id);
    }
  }

  lemma IndexUnreadHoldsMessages(bag: Bag, refs: seq<ChunkRef>, filter: seq<string>, reverse: bool, at: nat)
    requires bag.Valid() && Indexes(bag, refs)
    ensures forall c :: c in IndexUnread(bag, refs, filter, reverse, at) ==>
              bag.IsMessageChunk(c) && Wanted(filter, bag.topics[bag.Topic(c)])
  {
    forall c | c in IndexUnread(bag, refs, filter, reverse, at)
      ensures bag.IsMessageChunk(c) && Wanted(filter, bag.topics[bag.Topic(c)])
    {
      IndexUnreadIsWanted(bag, refs, filter, reverse, at, c);
      var p :| at <= p < |refs| && refs[Place(refs, reverse, p)].id == c
          && WantedRef(bag, filter, refs[Place(refs, reverse, p)]);
      assert refs[Place(refs, reverse, p)] in refs;
    }
  }

  /** The index bounds every unread row: by the start of the next chunk going forwards, by the
      prefix maximum of ends going backwards. */
  lemma IndexBounds(bag: Bag, refs: seq<ChunkRef>, filter: seq<string>, reverse: bool, at: nat, id: RowId)
    requires Indexes(bag, refs) && at < |refs|
    requires bag.IsRow(id) && id.chunk in IndexUnread(bag, refs, filter, reverse, at)
    ensures if reverse then bag.KeyAt(id).recv <= LatestThrough(refs, |refs| - 1 - at)
            else refs[at].start <= bag.KeyAt(id).recv
  {
    IndexUnreadIsWanted(bag, refs, filter, reverse, at, id.chunk);
    var p :| at <= p < |refs| && refs[Place(refs, reverse, p)].id == id.chunk
        && WantedRef(bag, filter, refs[Place(refs, reverse, p)]);
    var ref := refs[Place(refs, reverse, p)];
    assert ref in refs && Covers(bag, ref) && RowId(ref.id, id.row) == id;
    if reverse {
      LatestThroughIsLatest(refs, |refs| - 1 - at);
    } else {
      assert RangeLeq(refs[at], ref) || p == at;
    }
  }

  /** A wanted row is in an unread chunk, or in one the pass has put behind it. */
  lemma WantedRowsAreUnread(bag: Bag, refs: seq<ChunkRef>, filter: seq<string>, reverse: bool, at: nat, id: RowId)
    returns (ref: ChunkRef, p: nat)
    requires bag.Valid() && Indexes(bag, refs) && bag.IsRow(id) && Wanted(filter, bag.TopicAt(id))
    ensures p < |refs| && ref == refs[Place(refs, reverse, p)] && ref.id == id.chunk && Covers(bag, ref)
    ensures ref.start <= bag.KeyAt(id).recv <= ref.end
    ensures at <= p ==> id.chunk in IndexUnread(bag, refs, filter, reverse, at)
  {
    assert id.chunk in IdsOf(refs);
    ref :| ref in refs && ref.id == id.chunk;
    assert Covers(bag, ref) && RowId(ref.id, id.row) == id;
    var i :| 0 <= i < |refs| && refs[i] == ref;
    p := if reverse then |refs| - 1 - i else i;
    if at <= p {
      WantedIsIndexUnread(bag, refs, filter, reverse, at, p);
    }
  }

  // ---------------------------------------------------------------- by scanning

  /** A chunk the opening scan recorded. */
  predicate IsScanned(bag: Bag, c: nat) {
    c < |bag.file| && bag.file[c].Data? && !bag.file[c].chunk.isStatic
  }

  /** How many of those come before place `c` of the file. */
  function ScannedBefore(bag: Bag, c: nat): nat {
    if c == 0 then 0 else ScannedBefore(bag, c - 1) + if IsScanned(bag, c - 1) then 1 else 0
  }

  lemma {:induction false} ScannedBeforeGrows(bag: Bag, b: nat, c: nat)
    requires b <= c
    ensures ScannedBefore(bag, b) <= ScannedBefore(bag, c)
    decreases c
  {
    if b < c {
      ScannedBeforeGrows(bag, b, c - 1);
    }
  }

  ghost function ScanUnread(bag: Bag, source: Option<nat>): (unread: set<nat>)
    ensures forall c :: c in unread ==> bag.IsMessageChunk(c)
  {
    if source.None? then {} else set c | source.value <= c < |bag.file| && bag.IsMessageChunk(c)
  }

  /** `earliest[n]` is no later than any row of any scanned chunk but the first `n`. */
  ghost predicate SuffixBounds(bag: Bag, earliest: seq<i64>) {
    && |earliest| == ScannedBefore(bag, |bag.file|) + 1
    && forall n: nat, id :: n < |earliest| && bag.IsRow(id) && n <= ScannedBefore(bag, id.chunk)
         ==> earliest[n] <= bag.KeyAt(id).recv
  }

  /** The counter may lag behind the pass, since it passes over strangers' chunks that the bounds
      include; it never runs ahead, so the bound it picks is a lower bound. */
  lemma ScanBounds(bag: Bag, earliest: seq<i64>, source: Option<nat>, nextChunk: nat, id: RowId)
    requires SuffixBounds(bag, earliest)
    requires source.Some? ==> source.value <= |bag.file| && nextChunk <= ScannedBefore(bag, source.value)
    requires bag.IsRow(id) && id.chunk in ScanUnread(bag, source)
    ensures nextChunk < |earliest| && earliest[nextChunk] <= bag.KeyAt(id).recv
  {
    ScannedBeforeGrows(bag, source.value, id.chunk);
    ScannedBeforeGrows(bag, source.value, |bag.file|);
  }
}
