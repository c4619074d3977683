/**
 The merge window: chunks with a cursor over their rows, and what it means for them and the
 chunks not yet read to hold the rows still to be played. Nothing here depends on whether the
 unread chunks are found through an index or by scanning.
 */
module Merge {
  import opened Basics
  import opened Ordering
  import opened Recording
  import Cdr

  /** The two forms the rows of a chunk can have, column by column. */
  datatype ChunkData = ChunkData(blobs: Option<seq<Option<bytes>>>, messages: Option<seq<Option<Cdr.Value>>>)

  /** A chunk being merged. The row vectors are in playback order, the data in file
      order. `chunk` is where in the file the columns came from. */
  datatype Window = Window(
    chunk: nat,
    topic: nat,
    recv: seq<i64>,
    send: seq<i64>,
    sequence: seq<int>,
    data: ChunkData,
    next: nat,
    rowsReversed: bool)
  {
    /** The times of the row that `next` points at, if it still points at one. */
    function Head(): Option<(int, int)> {
      if next < |recv| then Some((recv[next], if next < |send| then send[next] else recv[next])) else None
    }

    function SequenceNumber(row: nat): int {
      if row < |sequence| then sequence[row] else 0
    }

    /** What that row is sorted by. */
    function Key(): Option<SortKey> {
      if next < |recv| then Some(SortKey(recv[next], SequenceNumber(next))) else None
    }

    /** The same chunk, to be played from its last row to its first. */
    function BackToFront(): Window {
      this.(recv := Reversed(recv), send := Reversed(send), sequence := Reversed(sequence), rowsReversed := true)
    }

    /** The row of the chunk's data at a playback position, and the other way around. */
    function DataRow(row: nat): nat
      requires row < |recv|
    {
      if rowsReversed then |recv| - 1 - row else row
    }

    /** The row is in this chunk and still to be played. */
    predicate Covers(id: RowId) {
      id.chunk == chunk && id.row < |recv| && next <= DataRow(id.row)
    }
  }

  /** A cursor over a chunk just read, standing at its first row; chunks of lens output get none. */
  function LoadWindow(c: nat, chunk: Chunk, topic: nat, info: TopicInfo): (w: Option<Window>)
    ensures w.Some? <==> HoldsMessages(info, chunk)
  {
    var messages := if info.reflects then chunk.structs else None;
    if chunk.blobs.None? && messages.None? then None
    else Some(Window(c, topic, chunk.RecvTimes(), chunk.SendTimes(), chunk.SequenceNumbers(),
                     ChunkData(chunk.blobs, messages), 0, false))
  }

  /** A chunk as it enters the window. */
  function Opened(bag: Bag, reverse: bool, c: nat): Window
    requires bag.IsMessageChunk(c)
  {
    var w := LoadWindow(c, bag.file[c].chunk, bag.Topic(c), bag.topics[bag.Topic(c)]).value;
    if reverse then w.BackToFront() else w
  }

  ghost predicate Fits(bag: Bag, reverse: bool, w: Window) {
    && bag.IsMessageChunk(w.chunk)
    && w == Opened(bag, reverse, w.chunk).(next := w.next)
    && w.next <= |w.recv|
  }

  ghost predicate Consistent(bag: Bag, reverse: bool, unread: set<nat>, window: seq<Window>) {
    && (forall c :: c in unread ==> bag.IsMessageChunk(c))
    && (forall k :: 0 <= k < |window| ==> Fits(bag, reverse, window[k]) && window[k].chunk !in unread)
    && (forall j, k :: 0 <= j < k < |window| ==> window[j].chunk != window[k].chunk)
  }

  predicate InWindow(window: seq<Window>, id: RowId) {
    exists k :: 0 <= k < |window| && window[k].Covers(id)
  }

  /** The rows still to be played. */
  ghost function Held(bag: Bag, unread: set<nat>, window: seq<Window>): set<RowId> {
    set id | id in bag.AllRows() && (id.chunk in unread || InWindow(window, id))
  }

  /** A playback position of a window is a row of the file, under its key, on its topic. */
  lemma PositionIsRow(bag: Bag, reverse: bool, w: Window, position: nat)
    requires bag.Valid() && Fits(bag, reverse, w) && position < |w.recv|
    ensures var id := RowId(w.chunk, w.DataRow(position));
            && bag.IsRow(id)
            && bag.KeyAt(id) == SortKey(w.recv[position], w.SequenceNumber(position))
            && w.topic < |bag.topics| && bag.TopicAt(id) == bag.topics[w.topic]
            && w.DataRow(id.row) == position
  {}

  /** What one row of a window's data replays as. */
  function WindowPayload(info: TopicInfo, w: Window, row: nat): Result<bytes> {
    if w.data.blobs.Some? && row < |w.data.blobs.value| && w.data.blobs.value[row].Some?
    then Ok(w.data.blobs.value[row].value)
    else if w.data.messages.None? then Err(NoForm)
    else if info.plan.None? then Err(NoPlan)
    else if row >= |w.data.messages.value| || w.data.messages.value[row].None? then Err(NoForm)
    else Cdr.EncodeRow(info.plan.value, w.data.messages.value[row].value)
  }

  /** The next row of a window reads as row `id` of the file: its key, its times and its payload. */
  ghost predicate Reads(bag: Bag, w: Window, id: RowId)
    requires bag.Valid() && w.next < |w.recv|
  {
    var recv := w.recv[w.next];
    var send := if w.next < |w.send| then w.send[w.next] else recv;
    && bag.IsRow(id) && w.topic < |bag.topics|
    && bag.KeyAt(id) == SortKey(recv, w.SequenceNumber(w.next))
    && WindowPayload(bag.topics[w.topic], w, w.DataRow(w.next)) == bag.PayloadAt(id)
    && (bag.PayloadAt(id).Ok? ==>
          Message(bag.topics[w.topic].name, recv, send, bag.PayloadAt(id).value) == bag.MessageAt(id))
  }

  /** The times are reversed with the window and the data is not; the row mapping makes up for it. */
  lemma PositionReads(bag: Bag, reverse: bool, w: Window)
    requires bag.Valid() && Fits(bag, reverse, w) && w.next < |w.recv|
    ensures Reads(bag, w, RowId(w.chunk, w.DataRow(w.next)))
  {
    PositionIsRow(bag, reverse, w, w.next);
    assert bag.file[w.chunk].chunk.WellFormed();
  }

  lemma ReadsMeans(bag: Bag, w: Window, id: RowId)
    requires bag.Valid() && w.next < |w.recv| && Reads(bag, w, id)
    ensures var recv := w.recv[w.next];
            var send := if w.next < |w.send| then w.send[w.next] else recv;
            && bag.IsRow(id) && w.topic < |bag.topics|
            && bag.KeyAt(id) == SortKey(recv, w.SequenceNumber(w.next))
            && WindowPayload(bag.topics[w.topic], w, w.DataRow(w.next)) == bag.PayloadAt(id)
            && (bag.PayloadAt(id).Ok? ==>
                  Message(bag.topics[w.topic].name, recv, send, bag.PayloadAt(id).value) == bag.MessageAt(id))
  {}

  /** Reading a chunk moves its rows from the file to the window. */
  lemma PullKeepsRows(bag: Bag, reverse: bool, unread: set<nat>, window: seq<Window>, c: nat)
    requires bag.Valid() && Consistent(bag, reverse, unread, window) && c in unread
    ensures Consistent(bag, reverse, unread - {c}, window + [Opened(bag, reverse, c)])
    ensures Held(bag, unread - {c}, window + [Opened(bag, reverse, c)]) == Held(bag, unread, window)
  {
    var w := Opened(bag, reverse, c);
    var more := window + [w];
    forall id | bag.IsRow(id)
      ensures id.chunk in unread - {c} || InWindow(more, id) <==> id.chunk in unread || InWindow(window, id)
    {
      if InWindow(window, id) {
        var k :| 0 <= k < |window| && window[k].Covers(id);
        assert more[k].Covers(id);
      }
      if id.chunk == c {
        assert more[|window|].Covers(id);
      }
    }
  }

  // ---------------------------------------------------------------- advancing

  function SwapRemove(window: seq<Window>, i: nat): seq<Window>
    requires i < |window|
  {
    window[i := window[|window| - 1]][..|window| - 1]
  }

  /** The window with the next row of chunk `i` consumed, and the chunk dropped if that drained it. */
  function Advanced(window: seq<Window>, i: nat): seq<Window>
    requires i < |window|
  {
    var w := window[i].(next := window[i].next + 1);
    if w.Head().None? then SwapRemove(window, i) else window[i := w]
  }

  /** What `Advanced` makes of each chunk: the one at `i` loses a row, the others keep theirs. */
  lemma AdvancedCovers(window: seq<Window>, i: nat, id: RowId)
    requires i < |window| && window[i].next < |window[i].recv|
    requires forall j, k :: 0 <= j < k < |window| ==> window[j].chunk != window[k].chunk
    ensures InWindow(Advanced(window, i), id)
       <==> InWindow(window, id) && id != RowId(window[i].chunk, window[i].DataRow(window[i].next))
  {
    var after := Advanced(window, i);
    var w := window[i].(next := window[i].next + 1);
    if InWindow(after, id) {
      var k :| 0 <= k < |after| && after[k].Covers(id);
      var origin := if k == i && w.Head().None? then |window| - 1 else k;
      assert window[origin].Covers(id);
    }
    if InWindow(window, id) && id != RowId(window[i].chunk, window[i].DataRow(window[i].next)) {
      var k :| 0 <= k < |window| && window[k].Covers(id);
      var target := if w.Head().None? && k == |window| - 1 then i else k;
      assert after[target].Covers(id);
    }
  }

  lemma AdvanceStaysConsistent(bag: Bag, reverse: bool, unread: set<nat>, window: seq<Window>, i: nat)
    requires Consistent(bag, reverse, unread, window)
    requires i < |window| && window[i].next < |window[i].recv|
    ensures Consistent(bag, reverse, unread, Advanced(window, i))
  {
    var w := window[i].(next := window[i].next + 1);
    assert Fits(bag, reverse, w);
    var after := Advanced(window, i);
    forall k | 0 <= k < |after| ensures Fits(bag, reverse, after[k]) && after[k].chunk !in unread {
      var origin := if k == i && w.Head().None? then |window| - 1 else k;
      assert Fits(bag, reverse, window[origin]);
    }
  }

  /** Advancing plays exactly one row. */
  lemma AdvanceDropsRow(bag: Bag, reverse: bool, unread: set<nat>, window: seq<Window>, i: nat)
    requires bag.Valid() && Consistent(bag, reverse, unread, window)
    requires i < |window| && window[i].next < |window[i].recv|
    ensures Consistent(bag, reverse, unread, Advanced(window, i))
    ensures var id := RowId(window[i].chunk, window[i].DataRow(window[i].next));
            && id in Held(bag, unread, window)
            && Held(bag, unread, Advanced(window, i)) == Held(bag, unread, window) - {id}
  {
    AdvanceStaysConsistent(bag, reverse, unread, window, i);
    var id := RowId(window[i].chunk, window[i].DataRow(window[i].next));
    PositionIsRow(bag, reverse, window[i], window[i].next);
    assert window[i].Covers(id);
    forall other ensures InWindow(Advanced(window, i), other) <==> InWindow(window, other) && other != id {
      AdvancedCovers(window, i, other);
    }
    HeldLoses(bag, unread, window, Advanced(window, i), id);
  }

  lemma HeldLoses(bag: Bag, unread: set<nat>, window: seq<Window>, after: seq<Window>, id: RowId)
    requires bag.IsRow(id) && InWindow(window, id) && id.chunk !in unread
    requires forall other :: InWindow(after, other) <==> InWindow(window, other) && other != id
    ensures id in Held(bag, unread, window)
    ensures Held(bag, unread, after) == Held(bag, unread, window) - {id}
  {}

  // ---------------------------------------------------------------- choosing

  predicate TupleLess(a: (int, int), b: (int, int)) { a.0 < b.0 || (a.0 == b.0 && a.1 < b.1) }

  /** The earliest head in the window, or the latest going backwards. */
  function BestHead(window: seq<Window>, reverse: bool): (best: Option<(int, int)>)
    ensures best.None? <==> forall k :: 0 <= k < |window| ==> window[k].Head().None?
    ensures best.Some? ==>
              && (exists k :: 0 <= k < |window| && window[k].Head() == best)
              && (forall k :: 0 <= k < |window| && window[k].Head().Some? ==>
                    if reverse then window[k].Head().value.0 <= best.value.0
                    else best.value.0 <= window[k].Head().value.0)
  {
    if window == [] then None
    else
      var head, rest := window[0].Head(), BestHead(window[1..], reverse);
      if head.None? then rest
      else if rest.None? then head
      else if (if reverse then TupleLess(rest.value, head.value) else TupleLess(head.value, rest.value)) then head
      else rest
  }

  /** The chunk of `window[i..]` whose next row is to be played next. */
  function Choose(window: seq<Window>, reverse: bool, i: nat): (chosen: Option<nat>)
    requires i <= |window|
    ensures chosen.None? <==> forall k :: i <= k < |window| ==> window[k].Key().None?
    ensures chosen.Some? ==>
              && i <= chosen.value < |window|
              && window[chosen.value].Key().Some?
              && (forall k :: i <= k < |window| && window[k].Key().Some? ==>
                    !Precedes(reverse, window[k].Key().value, window[chosen.value].Key().value))
    decreases |window| - i
  {
    if i == |window| then None
    else
      var rest := Choose(window, reverse, i + 1);
      var key := window[i].Key();
      if key.None? then rest
      else if rest.None? then Some(i)
      else
        var other := window[rest.value].Key().value;
        if (if reverse then KeyLess(other, key.value) else !KeyLess(other, key.value)) then Some(i) else rest
  }

  /** No unread row is as early as the best row in the window; with none there, nothing is unread. */
  ghost predicate Settled(bag: Bag, reverse: bool, unread: set<nat>, window: seq<Window>) {
    var best := BestHead(window, reverse);
    if best.None? then unread == {}
    else forall id :: bag.IsRow(id) && id.chunk in unread ==>
      if reverse then bag.KeyAt(id).recv < best.value.0 else bag.KeyAt(id).recv > best.value.0
  }

  /** With nothing left to choose, nothing is left to play. */
  lemma NothingChosenNothingHeld(bag: Bag, reverse: bool, unread: set<nat>, window: seq<Window>)
    requires bag.Valid() && Consistent(bag, reverse, unread, window) && unread == {}
    requires Choose(window, reverse, 0).None?
    ensures Held(bag, unread, window) == {}
  {
    forall k, id | 0 <= k < |window| ensures !window[k].Covers(id) {
      assert window[k].Key().None?;
    }
  }

  /** Read-ahead is sound: no row still to be played, in the window or out of it, precedes the
      chosen one. */
  lemma ChosenIsFirst(bag: Bag, reverse: bool, unread: set<nat>, window: seq<Window>, i: nat)
    requires bag.Valid() && bag.Ordered() && Consistent(bag, reverse, unread, window)
    requires Settled(bag, reverse, unread, window) && Choose(window, reverse, 0) == Some(i)
    ensures IsFirst(bag.Keys(), reverse, Held(bag, unread, window),
                    RowId(window[i].chunk, window[i].DataRow(window[i].next)))
  {
    var id := RowId(window[i].chunk, window[i].DataRow(window[i].next));
    PositionIsRow(bag, reverse, window[i], window[i].next);
    assert window[i].Covers(id);
    forall other | other in Held(bag, unread, window) && other != id
      ensures Precedes(reverse, bag.Keys()[id], bag.Keys()[other])
    {
      assert bag.IsRow(other);
      if other.chunk in unread {
        UnreadComesLater(bag, reverse, unread, window, i, other);
      } else {
        assert bag.Keys()[id] != bag.Keys()[other];
        ResidentComesLater(bag, reverse, unread, window, i, other);
      }
    }
  }

  lemma UnreadComesLater(bag: Bag, reverse: bool, unread: set<nat>, window: seq<Window>, i: nat, other: RowId)
    requires Settled(bag, reverse, unread, window) && Choose(window, reverse, 0) == Some(i)
    requires bag.IsRow(other) && other.chunk in unread
    ensures Precedes(reverse, window[i].Key().value, bag.KeyAt(other))
  {
    assert window[i].Head().Some?;
    var best := BestHead(window, reverse);
    var k :| 0 <= k < |window| && window[k].Head() == best;
    assert window[k].Key().Some?;
    assert !Precedes(reverse, window[k].Key().value, window[i].Key().value);
  }

  lemma ResidentComesLater(bag: Bag, reverse: bool, unread: set<nat>, window: seq<Window>, i: nat, other: RowId)
    requires bag.Valid() && bag.Ordered() && Consistent(bag, reverse, unread, window)
    requires Choose(window, reverse, 0) == Some(i)
    requires InWindow(window, other)
    ensures bag.IsRow(other)
    ensures bag.KeyAt(other) == window[i].Key().value || Precedes(reverse, window[i].Key().value, bag.KeyAt(other))
  {
    var k :| 0 <= k < |window| && window[k].Covers(other);
    HeadIsFirst(bag, reverse, window[k], other);
    assert !Precedes(reverse, window[k].Key().value, window[i].Key().value);
  }

  /** Within a chunk the head comes first. */
  lemma HeadIsFirst(bag: Bag, reverse: bool, w: Window, id: RowId)
    requires bag.Valid() && bag.Ordered() && Fits(bag, reverse, w) && w.Covers(id)
    ensures bag.IsRow(id) && w.Key().Some?
    ensures bag.KeyAt(id) == w.Key().value || Precedes(reverse, w.Key().value, bag.KeyAt(id))
  {
    PositionIsRow(bag, reverse, w, w.next);
    var head := RowId(w.chunk, w.DataRow(w.next));
    if head != id {
      assert if reverse then id.row < head.row else head.row < id.row;
    }
  }
}
