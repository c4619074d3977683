/** Inputs on which the code does other than it says. The conditions under which it does as it says
    are `Promises.IndexedKeepsPromise`, `Promises.ScanKeepsPromise` and
    `Forms.ReplayableIsTruthful`. */
module Counterexamples {
  import opened Basics
  import opened Ordering
  import opened Recording
  import opened Forms
  import opened Playback
  import opened PlaybackRuns
  import opened Promises
  import Cdr

  const ROW := RowId(0, 0)

  /** One message on `/a`, received at time 5. */
  function OneMessage(): Bag {
    Bag([Data(Chunk("/a", false, 1, Some([5]), None, Some([0]), Some([Some([7])]), None, map[]))],
        [TopicInfo("/a", false, None)], map["/a" := 0])
  }

  lemma OneRow()
    ensures var bag := OneMessage();
            && bag.Valid() && bag.Ordered() && bag.AllRows() == {ROW}
            && bag.KeyAt(ROW) == SortKey(5, 0) && bag.TopicAt(ROW).name == "/a"
            && bag.PayloadAt(ROW) == Ok([7]) && bag.MessageAt(ROW) == Message("/a", 5, 5, [7])
  {
    var bag := OneMessage();
    assert bag.IsRow(ROW);
    forall id | bag.IsRow(id) ensures id == ROW {}
  }

  /** What a read of that bag answers: the message if it is ahead, and otherwise that there is none. */
  lemma OneRead(indexed: bool, cursor: Cursor)
    requires OneMessage().Valid() && OneMessage().Ordered()
    ensures var bag := OneMessage();
            var ahead := && Wanted(cursor.filter, TopicInfo("/a", false, None))
                         && Beyond(cursor.boundary, cursor.reverse, SortKey(5, 0));
            && Step(bag, indexed, cursor, ReadNext).1 == (if ahead then Got(Message("/a", 5, 5, [7])) else Exhausted)
            && PromisedStep(bag, cursor, ReadNext).1 == (if ahead then Got(Message("/a", 5, 5, [7])) else Exhausted)
            && Step(bag, indexed, cursor, ReadNext).0 ==
                 cursor.(boundary := if ahead then After(SortKey(5, 0)) else if indexed then cursor.boundary else End)
            && PromisedStep(bag, cursor, ReadNext).0 ==
                 cursor.(boundary := if ahead then After(SortKey(5, 0)) else cursor.boundary)
  {
    OneRow();
    var bag := OneMessage();
    hide OneMessage, Bag.Ordered, Bag.Valid;
    var ahead := Ahead(bag, cursor);
    assert ahead <= {ROW};
    if Wanted(cursor.filter, bag.TopicAt(ROW)) && Beyond(cursor.boundary, cursor.reverse, bag.KeyAt(ROW)) {
      assert ROW in ahead;
      assert First(bag.Keys(), cursor.reverse, ahead) in ahead;
    } else {
      assert ROW !in ahead;
    }
  }

  /** Backwards from the lowest time there is nothing to play; change the filter, and there is. */
  lemma LowestSeekReplaysEverything()
    ensures var bag, calls := OneMessage(), [Seek(I64_MIN), SetFilter(["/a"]), ReadNext];
            && bag.Valid() && bag.Ordered()
            && PromisedRun(bag, Cursor(true, [], Start), calls).1 == [Done, Done, Exhausted]
            && Run(bag, true, Cursor(true, [], Start), calls).1 == [Done, Done, Got(Message("/a", 5, 5, [7]))]
  {
    OneRow();
    var bag := OneMessage();
    hide OneMessage, Bag.Valid, Bag.Ordered, Bag.Keys, Bag.KeyAt, Bag.PayloadAt, Bag.MessageAt, Ahead, Run, PromisedRun;
    var sought := Cursor(true, [], From(I64_MIN));
    assert [Seek(I64_MIN), SetFilter(["/a"]), ReadNext] == [Seek(I64_MIN)] + ([SetFilter(["/a"])] + [ReadNext]);
    CallThenRun(bag, true, Cursor(true, [], Start), Seek(I64_MIN), [SetFilter(["/a"])] + [ReadNext]);
    CallThenRun(bag, true, sought, SetFilter(["/a"]), [ReadNext]);
    OneCall(bag, true, Cursor(true, ["/a"], Start), ReadNext);
    OneCall(bag, true, sought.(filter := ["/a"]), ReadNext);
    OneRead(true, Cursor(true, ["/a"], Start));
    OneRead(true, sought.(filter := ["/a"]));
  }

  /** Without a footer, a read that finds nothing for the filter passes over what a wider filter would
      have admitted. */
  lemma WideningComesTooLate()
    ensures var bag, calls := OneMessage(), [ReadNext, SetFilter([]), ReadNext];
            && bag.Valid() && bag.Ordered()
            && PromisedRun(bag, Cursor(false, ["/b"], Start), calls).1
                == [Exhausted, Done, Got(Message("/a", 5, 5, [7]))]
            && Run(bag, false, Cursor(false, ["/b"], Start), calls).1 == [Exhausted, Done, Exhausted]
  {
    OneRow();
    var bag := OneMessage();
    hide OneMessage, Bag.Valid, Bag.Ordered, Bag.Keys, Bag.KeyAt, Bag.PayloadAt, Bag.MessageAt, Ahead, Run, PromisedRun;
    var narrow := Cursor(false, ["/b"], Start);
    assert "/b"[1] != "/a"[1];
    assert [ReadNext, SetFilter([]), ReadNext] == [ReadNext] + ([SetFilter([])] + [ReadNext]);
    OneRead(false, narrow);
    CallThenRun(bag, false, narrow, ReadNext, [SetFilter([])] + [ReadNext]);
    CallThenRun(bag, false, narrow.(boundary := End), SetFilter([]), [ReadNext]);
    CallThenRun(bag, false, narrow, SetFilter([]), [ReadNext]);
    OneCall(bag, false, Cursor(false, [], End), ReadNext);
    OneCall(bag, false, Cursor(false, [], Start), ReadNext);
    OneRead(false, Cursor(false, [], End));
    OneRead(false, Cursor(false, [], Start));
  }

  /** The filter change that trips need not be the next one: the first leaves nothing to tell the two
      apart by, and the second does. */
  lemma LowestSeekTripsUnseen()
    ensures var bag, calls := OneMessage(), [Seek(I64_MIN), SetFilter(["/b"]), SetFilter(["/a"]), ReadNext];
            && bag.Valid() && bag.Ordered()
            && PromisedRun(bag, Cursor(true, [], Start), calls).1 == [Done, Done, Done, Exhausted]
            && Run(bag, true, Cursor(true, [], Start), calls).1 == [Done, Done, Done, Got(Message("/a", 5, 5, [7]))]
  {
    OneRow();
    var bag := OneMessage();
    hide OneMessage, Bag.Valid, Bag.Ordered, Bag.Keys, Bag.KeyAt, Bag.PayloadAt, Bag.MessageAt, Ahead, Run, PromisedRun;
    var sought := Cursor(true, [], From(I64_MIN));
    var first, second := SetFilter(["/b"]), SetFilter(["/a"]);
    assert "/b"[1] != "/a"[1] && ["/b"][0] != ["/a"][0];
    assert [Seek(I64_MIN), first, second, ReadNext] == [Seek(I64_MIN)] + ([first] + ([second] + [ReadNext]));
    CallThenRun(bag, true, Cursor(true, [], Start), Seek(I64_MIN), [first] + ([second] + [ReadNext]));
    CallThenRun(bag, true, sought, first, [second] + [ReadNext]);
    CallThenRun(bag, true, Cursor(true, ["/b"], Start), second, [ReadNext]);
    CallThenRun(bag, true, sought.(filter := ["/b"]), second, [ReadNext]);
    OneCall(bag, true, Cursor(true, ["/a"], Start), ReadNext);
    OneCall(bag, true, sought.(filter := ["/a"]), ReadNext);
    OneRead(true, Cursor(true, ["/a"], Start));
    OneRead(true, sought.(filter := ["/a"]));
  }

  const LATER := RowId(1, 0)

  const A := TopicInfo("/a", false, None)

  const B := TopicInfo("/b", true, None)

  /** A message on `/a` at time 5, and one on `/b` at time 6 that was kept as a struct and that nothing
      says how to encode. */
  function OneStuck(): Bag {
    var stuck := Chunk("/b", false, 1, Some([6]), None, Some([1]), None, Some([Some(Cdr.BoolValue(true))]), map[]);
    Bag(OneMessage().file + [Data(stuck)], [A, B], map["/a" := 0, "/b" := 1])
  }

  lemma TwoRows()
    ensures var bag := OneStuck();
            && bag.Valid() && bag.Ordered() && bag.AllRows() == {ROW, LATER}
            && bag.KeyAt(ROW) == SortKey(5, 0) && bag.TopicAt(ROW) == A
            && bag.PayloadAt(ROW) == Ok([7]) && bag.MessageAt(ROW) == Message("/a", 5, 5, [7])
            && bag.KeyAt(LATER) == SortKey(6, 1) && bag.TopicAt(LATER) == B && bag.PayloadAt(LATER) == Err(NoPlan)
  {
    var bag := OneStuck();
    assert "/b"[1] != "/a"[1];
    assert bag.IsRow(ROW) && bag.IsRow(LATER);
    forall id | bag.IsRow(id) ensures id == ROW || id == LATER {}
  }

  /** A read of that bag stops at the second message while the first is not ahead. */
  lemma StuckRead(indexed: bool, cursor: Cursor)
    requires OneStuck().Valid() && OneStuck().Ordered()
    requires !cursor.reverse && Beyond(cursor.boundary, false, SortKey(6, 1)) && Wanted(cursor.filter, B)
    ensures var ahead := Wanted(cursor.filter, A) && Beyond(cursor.boundary, false, SortKey(5, 0));
            && Step(OneStuck(), indexed, cursor, ReadNext).1 == PromisedStep(OneStuck(), cursor, ReadNext).1
            && PromisedStep(OneStuck(), cursor, ReadNext).1
                == (if ahead then Got(Message("/a", 5, 5, [7])) else Failed(NoPlan))
            && (!ahead ==>
                  && PromisedStep(OneStuck(), cursor, ReadNext).0 == cursor
                  && Step(OneStuck(), false, cursor, ReadNext).0 == cursor.(boundary := Before(SortKey(6, 1))))
  {
    hide OneStuck, OneMessage, Bag.Ordered, Bag.Valid;
    TwoRows();
    var bag := OneStuck();
    var ahead := Ahead(bag, cursor);
    assert LATER in ahead && ahead <= {ROW, LATER};
    var first := First(bag.Keys(), false, ahead);
    if ROW in ahead {
      assert first != LATER by { assert first == LATER ==> Precedes(false, bag.Keys()[LATER], bag.Keys()[ROW]); }
    }
  }

  /** Without a footer, a read that fails has passed over what its filter left out. */
  lemma FailedReadPassesOver()
    ensures var bag, calls := OneStuck(), [ReadNext, SetFilter([]), ReadNext];
            && bag.Valid() && bag.Ordered()
            && PromisedRun(bag, Cursor(false, ["/b"], Start), calls).1
                == [Failed(NoPlan), Done, Got(Message("/a", 5, 5, [7]))]
            && Run(bag, false, Cursor(false, ["/b"], Start), calls).1 == [Failed(NoPlan), Done, Failed(NoPlan)]
  {
    hide OneStuck, Bag.Valid, Bag.Ordered, Bag.Keys, Bag.KeyAt, Bag.PayloadAt, Bag.MessageAt, Ahead, Run, PromisedRun;
    TwoRows();
    var bag := OneStuck();
    var narrow := Cursor(false, ["/b"], Start);
    assert "/b"[1] != "/a"[1];
    assert [ReadNext, SetFilter([]), ReadNext] == [ReadNext] + ([SetFilter([])] + [ReadNext]);
    StuckRead(false, narrow);
    CallThenRun(bag, false, narrow, ReadNext, [SetFilter([])] + [ReadNext]);
    CallThenRun(bag, false, narrow.(boundary := Before(SortKey(6, 1))), SetFilter([]), [ReadNext]);
    CallThenRun(bag, false, narrow, SetFilter([]), [ReadNext]);
    OneCall(bag, false, Cursor(false, [], Before(SortKey(6, 1))), ReadNext);
    OneCall(bag, false, Cursor(false, [], Start), ReadNext);
    StuckRead(false, Cursor(false, [], Before(SortKey(6, 1))));
    StuckRead(false, Cursor(false, [], Start));
  }

  /** A topic that keeps raw bytes next to lenses, where what no lens takes is dropped: it counts itself
      replayable, and nothing of it is sent. */
  lemma RawIsDropped()
    ensures var asked := {Raw, Lenses};
            var slot := Slot(TopicInfo("/a", true, None), true, LensesFor(asked, Drop), false);
            && IsReplayable(Stored(asked, true, slot.lenses, slot.matched))
            && Forwarded(slot, ChunkOf(slot, true, [Forms.Entry(5, 5, 0, [7], None, 0)])) == []
  {}

  /** Lenses alone, on a topic one of them takes: the message that failed to decode keeps its bytes,
      and the one that decoded has lost its struct, so the reader fails on it. */
  lemma DecodedRowLosesItsForm(value: Cdr.Value)
    ensures var slot := Slot(TopicInfo("/a", true, None), false, LensesFor({Lenses}, Keep), true);
            var entries := [Forms.Entry(5, 5, 0, [7], None, 0), Forms.Entry(6, 6, 1, [8], Some(value), 0)];
            var sent := Forwarded(slot, ChunkOf(slot, true, entries));
            && |sent| == 1 && sent[0].WellFormed() && HoldsMessages(slot.info, sent[0])
            && Payload(slot.info, sent[0], 0) == Ok([7])
            && Payload(slot.info, sent[0], 1) == Err(NoForm)
  {
    var entries := [Forms.Entry(5, 5, 0, [7], None, 0), Forms.Entry(6, 6, 1, [8], Some(value), 0)];
    CompactNonEmpty(BlobColumn(false, entries), 0);
    CompactNonEmpty(ValueColumn(entries), 1);
  }
}
