/**
 What a forward pass over the index keeps in memory: chunks that straddle the playback position,
 and at most one that lies ahead of it.
 */
module Residency {
  import opened Basics
  import opened Ordering
  import opened Recording
  import opened ChunkIndexes
  import opened Footers
  import opened Merge

  /** The chunk starts no later than the next row to be played. */
  ghost predicate Straddles(window: seq<Window>, w: Window)
    requires w.recv != []
  {
    BestHead(window, false).Some? ==> w.recv[0] <= BestHead(window, false).value.0
  }

  /** Every resident chunk has rows left and starts no later than what the index names next; of any
      two, one straddles the position; and all do unless a filter made the pass skip chunks. */
  ghost predicate Resident(refs: seq<ChunkRef>, filter: seq<string>, at: nat, window: seq<Window>) {
    && (forall w :: w in window ==> w.next < |w.recv| && (at < |refs| ==> w.recv[0] <= refs[at].start))
    && (forall v, w :: v in window && w in window && v.chunk != w.chunk
            ==> Straddles(window, v) || Straddles(window, w))
    && (filter == [] ==> forall w :: w in window ==> Straddles(window, w))
  }

  lemma {:induction false} BestHeadOfMore(window: seq<Window>, w: Window)
    requires w.next < |w.recv|
    ensures var best, more := BestHead(window, false), BestHead(window + [w], false);
            more.Some? && more.value.0 == if best.None? then w.recv[w.next] else Min(best.value.0, w.recv[w.next])
  {
    hide BestHead;
    var longer := window + [w];
    var best, more := BestHead(window, false), BestHead(longer, false);
    assert longer[|window|] == w && w.Head().Some?;
    assert forall k :: 0 <= k < |window| ==> longer[k] == window[k];
    var j :| 0 <= j < |longer| && longer[j].Head() == more;
    if best.Some? {
      var k :| 0 <= k < |window| && window[k].Head() == best;
      assert longer[k].Head() == best;
    }
  }

  lemma CoversMessages(bag: Bag, ref: ChunkRef)
    requires Covers(bag, ref)
    ensures bag.IsMessageChunk(ref.id)
  {}

  /** A chunk starts with its first row, which is where the index says it starts. */
  lemma StartIsFirstRow(bag: Bag, ref: ChunkRef)
    requires bag.Valid() && bag.Ordered() && Covers(bag, ref)
    ensures var w := Opened(bag, false, ref.id);
            w.recv != [] && w.recv[0] == ref.start && w.next == 0
  {
    var first := RowId(ref.id, 0);
    var row :| 0 <= row < bag.RowCount(ref.id) && bag.KeyAt(RowId(ref.id, row)).recv == ref.start;
    if row > 0 {
      assert KeyLess(bag.KeyAt(first), bag.KeyAt(RowId(ref.id, row)));
    }
    assert ref.start <= bag.KeyAt(first).recv;
  }

  /** Reading ahead while the bound does not exceed the best row keeps the window straddling. */
  lemma PullStaysResident(bag: Bag, refs: seq<ChunkRef>, filter: seq<string>, at: nat, to: nat, window: seq<Window>)
    requires bag.Valid() && bag.Ordered() && Indexes(bag, refs)
    requires Resident(refs, filter, at, window)
    requires at < to <= |refs| && (filter == [] ==> to == at + 1)
    requires BestHead(window, false).Some? ==> refs[at].start <= BestHead(window, false).value.0
    requires Covers(bag, refs[to - 1])
    ensures Resident(refs, filter, to, window + [Opened(bag, false, refs[to - 1].id)])
  {
    hide Covers, Opened, Indexes, BestHead, Resident, Straddles, Bag.Ordered, Bag.Valid, Bag.IsMessageChunk;
    CoversMessages(bag, refs[to - 1]);
    var w := Opened(bag, false, refs[to - 1].id);
    StartIsFirstRow(bag, refs[to - 1]);
    StartsInOrder(bag, refs, at, to - 1);
    if to < |refs| { StartsInOrder(bag, refs, to - 1, to); }
    NoBestNoWindow(refs, filter, at, window);
    BestHeadOfMore(window, w);
    WindowGrows(refs, filter, at, to, window, w);
  }

  /** One more chunk, starting no earlier than where the index stood and no later than where it goes. */
  lemma WindowGrows(refs: seq<ChunkRef>, filter: seq<string>, at: nat, to: nat, window: seq<Window>, w: Window)
    requires Resident(refs, filter, at, window) && at < to <= |refs|
    requires w.next < |w.recv| && refs[at].start <= w.recv[0]
    requires to < |refs| ==> w.recv[0] <= refs[to].start
    requires filter == [] ==> w.recv[0] == refs[at].start
    requires BestHead(window + [w], false).Some? && refs[at].start <= BestHead(window + [w], false).value.0
    ensures Resident(refs, filter, to, window + [w])
  {
    hide BestHead;
    var more := window + [w];
    forall v | v in more
      ensures v.next < |v.recv| && (to < |refs| ==> v.recv[0] <= refs[to].start)
      ensures v != w || filter == [] ==> Straddles(more, v)
    {
      assert v in window || v == w;
    }
    assert forall v, u :: v in more && u in more && v.chunk != u.chunk ==> v != w || u != w;
  }

  lemma StartsInOrder(bag: Bag, refs: seq<ChunkRef>, i: nat, j: nat)
    requires Indexes(bag, refs) && i <= j < |refs|
    ensures refs[i].start <= refs[j].start
  {
    assert i < j ==> RangeLeq(refs[i], refs[j]);
  }

  lemma NoBestNoWindow(refs: seq<ChunkRef>, filter: seq<string>, at: nat, window: seq<Window>)
    requires Resident(refs, filter, at, window)
    ensures BestHead(window, false).None? ==> window == []
  {
    if window != [] { assert window[0] in window && window[0].Head().Some?; }
  }

  /** With the index exhausted nothing lies ahead of the window. */
  lemma ExhaustedStaysResident(refs: seq<ChunkRef>, filter: seq<string>, at: nat, to: nat, window: seq<Window>)
    requires Resident(refs, filter, at, window) && to >= |refs|
    ensures Resident(refs, filter, to, window)
  {}

  /** Where a chunk was before `Advanced`. */
  ghost function Origin(window: seq<Window>, i: nat, w: Window): Window
    requires i < |window|
  {
    if w.chunk == window[i].chunk then window[i] else w
  }

  lemma AdvancedOrigin(bag: Bag, unread: set<nat>, window: seq<Window>, i: nat, w: Window)
    requires bag.Valid() && Consistent(bag, false, unread, window)
    requires i < |window| && window[i].next < |window[i].recv|
    requires forall v :: v in window ==> v.next < |v.recv|
    requires w in Advanced(window, i)
    ensures var v := Origin(window, i, w);
            v in window && v.chunk == w.chunk && v.recv == w.recv && v.next <= w.next < |w.recv|
  {
    var moved := window[i].(next := window[i].next + 1);
    assert window[i] in window;
    var k :| 0 <= k < |Advanced(window, i)| && Advanced(window, i)[k] == w;
    if w != moved || moved.Head().None? {
      var origin := if k == i then |window| - 1 else k;
      assert w == window[origin] && origin != i;
    }
  }

  /** The position only moves forwards. */
  lemma AdvanceMovesOn(bag: Bag, unread: set<nat>, window: seq<Window>, i: nat)
    requires bag.Valid() && bag.Ordered() && Consistent(bag, false, unread, window)
    requires i < |window| && forall v :: v in window ==> v.next < |v.recv|
    ensures var after := Advanced(window, i);
            BestHead(after, false).Some? ==>
              BestHead(window, false).Some? && BestHead(window, false).value.0 <= BestHead(after, false).value.0
  {
    var after := Advanced(window, i);
    assert window[i] in window;
    if BestHead(after, false).Some? {
      var k :| 0 <= k < |after| && after[k].Head() == BestHead(after, false);
      AdvancedOrigin(bag, unread, window, i, after[k]);
      var j :| 0 <= j < |window| && window[j] == Origin(window, i, after[k]);
      RowsAscend(bag, unread, window, j, after[k].next);
      assert window[j].Head().Some?;
    }
  }

  /** Playing a row keeps the window straddling. */
  lemma AdvanceStaysResident(bag: Bag, refs: seq<ChunkRef>, filter: seq<string>, at: nat, unread: set<nat>,
                             window: seq<Window>, i: nat)
    requires bag.Valid() && bag.Ordered() && Consistent(bag, false, unread, window)
    requires Resident(refs, filter, at, window)
    requires i < |window|
    ensures Resident(refs, filter, at, Advanced(window, i))
  {
    hide Consistent, Advanced, Bag.Ordered, Bag.Valid;
    var after := Advanced(window, i);
    assert window[i] in window;
    AdvanceMovesOn(bag, unread, window, i);
    forall w | w in after
      ensures w.next < |w.recv| && (at < |refs| ==> w.recv[0] <= refs[at].start)
      ensures Straddles(window, Origin(window, i, w)) ==> Straddles(after, w)
      ensures Origin(window, i, w) in window && Origin(window, i, w).chunk == w.chunk
    {
      AdvancedOrigin(bag, unread, window, i, w);
    }
    forall v, w | v in after && w in after && v.chunk != w.chunk ensures Straddles(after, v) || Straddles(after, w) {
      assert Straddles(window, Origin(window, i, v)) || Straddles(window, Origin(window, i, w));
    }
  }

  lemma RowsAscend(bag: Bag, unread: set<nat>, window: seq<Window>, k: nat, row: nat)
    requires bag.Valid() && bag.Ordered() && Consistent(bag, false, unread, window)
    requires k < |window| && window[k].next <= row < |window[k].recv|
    ensures window[k].recv[window[k].next] <= window[k].recv[row]
  {
    PositionIsRow(bag, false, window[k], window[k].next);
    PositionIsRow(bag, false, window[k], row);
  }

  /** When a row at time `t` is chosen, every resident chunk ends at or after `t`, and of any two at
      least one starts at or before it: all of them, with an empty filter. */
  lemma ResidentsStraddle(bag: Bag, refs: seq<ChunkRef>, filter: seq<string>, at: nat, unread: set<nat>,
                          window: seq<Window>, chosen: nat)
    requires bag.Valid() && bag.Ordered() && Consistent(bag, false, unread, window)
    requires Resident(refs, filter, at, window)
    requires Choose(window, false, 0) == Some(chosen)
    ensures forall w :: w in window ==> w.recv != []
    ensures var t := window[chosen].recv[window[chosen].next];
            && (forall w :: w in window ==> w.recv[|w.recv| - 1] >= t)
            && (forall v, w :: v in window && w in window && v.chunk != w.chunk ==> v.recv[0] <= t || w.recv[0] <= t)
            && (filter == [] ==> forall w :: w in window ==> w.recv[0] <= t)
  {
    hide Consistent, Bag.Ordered, Bag.Valid;
    ChosenIsEarliest(window, chosen);
    forall w | w in window ensures w.recv[|w.recv| - 1] >= BestHead(window, false).value.0 {
      EndsLater(bag, unread, window, w);
    }
    hide BestHead, Choose;
    forall v, w | v in window && w in window && v.chunk != w.chunk
      ensures v.recv[0] <= BestHead(window, false).value.0 || w.recv[0] <= BestHead(window, false).value.0
    {
      assert Straddles(window, v) || Straddles(window, w);
    }
  }

  lemma EndsLater(bag: Bag, unread: set<nat>, window: seq<Window>, w: Window)
    requires bag.Valid() && bag.Ordered() && Consistent(bag, false, unread, window)
    requires w in window && w.next < |w.recv|
    ensures BestHead(window, false).Some? && BestHead(window, false).value.0 <= w.recv[|w.recv| - 1]
  {
    hide Consistent, Bag.Ordered, Bag.Valid;
    var k :| 0 <= k < |window| && window[k] == w;
    assert window[k].Head().Some?;
    RowsAscend(bag, unread, window, k, |w.recv| - 1);
  }

  lemma ChosenIsEarliest(window: seq<Window>, chosen: nat)
    requires Choose(window, false, 0) == Some(chosen)
    ensures BestHead(window, false).Some?
    ensures BestHead(window, false).value.0 == window[chosen].recv[window[chosen].next]
  {
    assert window[chosen].Head().Some?;
    assert BestHead(window, false).Some?;
    var b :| 0 <= b < |window| && window[b].Head() == BestHead(window, false);
    assert window[b].Head().Some?;
    assert window[b].Key().Some?;
    assert !KeyLess(window[b].Key().value, window[chosen].Key().value);
  }
}
