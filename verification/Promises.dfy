/** The reader against what rosbag2 is promised: exactly when a call departs from it, what a run may do
    without departing, and the two paths against each other. */
module Promises {
  import opened Basics
  import opened Ordering
  import opened Recording
  import opened Playback
  import opened Readers
  import opened PlaybackRuns

  // ---------------------------------------------------------------- being in step

  /** The same rows lie beyond two cursors, whatever filter is set on them later. */
  ghost predicate Agree(bag: Bag, a: Cursor, b: Cursor) {
    && a.reverse == b.reverse
    && a.filter == b.filter
    && forall id :: bag.IsRow(id) ==>
         (Beyond(a.boundary, a.reverse, bag.KeyAt(id)) <==> Beyond(b.boundary, b.reverse, bag.KeyAt(id)))
  }

  lemma AgreeAhead(bag: Bag, a: Cursor, b: Cursor)
    requires Agree(bag, a, b)
    ensures Ahead(bag, a) == Ahead(bag, b)
  {}

  /** Cursors in step stay in step and answer alike, whatever is asked of them. */
  lemma PromiseKeepsStep(bag: Bag, a: Cursor, b: Cursor, call: Call)
    requires bag.Valid() && bag.Ordered() && Agree(bag, a, b)
    ensures PromisedStep(bag, a, call).1 == PromisedStep(bag, b, call).1
    ensures Agree(bag, PromisedStep(bag, a, call).0, PromisedStep(bag, b, call).0)
  {
    hide Ahead, Bag.Valid, Bag.Ordered, Bag.Keys, Bag.KeyAt, Bag.IsRow, Bag.PayloadAt, Bag.MessageAt, First, Beyond;
    AgreeAhead(bag, a, b);
  }

  /** A row that does not come before one beyond a boundary is beyond it too. */
  lemma BeyondIsUpward(boundary: Boundary, reverse: bool, a: SortKey, b: SortKey)
    requires Beyond(boundary, reverse, a) && !Precedes(reverse, b, a)
    ensures Beyond(boundary, reverse, b)
  {}

  // ---------------------------------------------------------------- single calls

  /** The filter changes while the cursor stands at a backwards seek to the lowest time, which the code
      takes for a fresh pass. */
  ghost predicate MistakesSeek(bag: Bag, cursor: Cursor, call: Call) {
    && call.SetFilter? && call.filter != cursor.filter
    && cursor.reverse && cursor.boundary == From(I64_MIN)
    && exists id :: bag.IsRow(id)
  }

  /** A read without a footer that delivers nothing, with rows it does not want between the cursor and
      where it stops: at a row that cannot be encoded, or at the end. */
  ghost predicate PassesOver(bag: Bag, cursor: Cursor, call: Call)
    requires bag.Valid() && bag.Ordered()
  {
    && call.ReadNext?
    && exists id :: bag.IsRow(id) && Beyond(cursor.boundary, cursor.reverse, bag.KeyAt(id))
           && StopsPast(bag, cursor, id)
  }

  ghost predicate StopsPast(bag: Bag, cursor: Cursor, id: RowId)
    requires bag.Valid() && bag.Ordered() && bag.IsRow(id)
  {
    var ahead := Ahead(bag, cursor);
    ahead == {} ||
    var first := First(bag.Keys(), cursor.reverse, ahead);
    bag.PayloadAt(first).Err? && Precedes(cursor.reverse, bag.KeyAt(id), bag.KeyAt(first))
  }

  /** A call after which the reader no longer stands where it was promised to. */
  ghost predicate Departs(bag: Bag, indexed: bool, cursor: Cursor, call: Call)
    requires bag.Valid() && bag.Ordered()
  {
    if indexed then MistakesSeek(bag, cursor, call) else PassesOver(bag, cursor, call)
  }

  lemma IndexedDeparts(bag: Bag, cursor: Cursor, call: Call)
    requires bag.Valid() && bag.Ordered()
    ensures Step(bag, true, cursor, call).1 == PromisedStep(bag, cursor, call).1
    ensures Agree(bag, Step(bag, true, cursor, call).0, PromisedStep(bag, cursor, call).0)
            <==> !MistakesSeek(bag, cursor, call)
  {
    if call.SetFilter? && call.filter != cursor.filter && cursor.boundary == From(I64_MIN) {
      forall id | bag.IsRow(id)
        ensures Beyond(Start, cursor.reverse, bag.KeyAt(id))
        ensures Beyond(From(I64_MIN), cursor.reverse, bag.KeyAt(id)) <==> !cursor.reverse
      {
        assert I64_MIN < bag.KeyAt(id).recv;
      }
    }
  }

  lemma ScanDeparts(bag: Bag, cursor: Cursor, call: Call)
    requires bag.Valid() && bag.Ordered()
    ensures Step(bag, false, cursor, call).1 == PromisedStep(bag, cursor, call).1
    ensures Agree(bag, Step(bag, false, cursor, call).0, PromisedStep(bag, cursor, call).0)
            <==> !PassesOver(bag, cursor, call)
  {
    hide Ahead, Bag.Valid, Bag.Ordered, Bag.Keys, Bag.KeyAt, Bag.IsRow, Bag.PayloadAt, Bag.MessageAt, First, Precedes;
    if call.ReadNext? && Ahead(bag, cursor) != {} {
      FirstIsBeyond(bag, cursor);
      StopsAt(bag, cursor, First(bag.Keys(), cursor.reverse, Ahead(bag, cursor)));
    }
  }

  lemma FirstIsBeyond(bag: Bag, cursor: Cursor)
    requires bag.Ordered() && Ahead(bag, cursor) != {}
    ensures Distinct(bag.Keys())
    ensures var first := First(bag.Keys(), cursor.reverse, Ahead(bag, cursor));
            bag.IsRow(first) && Beyond(cursor.boundary, cursor.reverse, bag.KeyAt(first))
  {
    assert First(bag.Keys(), cursor.reverse, Ahead(bag, cursor)) in Ahead(bag, cursor);
  }

  /** Standing just before a row beyond the cursor leaves beyond what does not come before it. */
  lemma StopsAt(bag: Bag, cursor: Cursor, first: RowId)
    requires bag.IsRow(first) && Beyond(cursor.boundary, cursor.reverse, bag.KeyAt(first))
    ensures forall id :: bag.IsRow(id) ==>
              (Beyond(Before(bag.KeyAt(first)), cursor.reverse, bag.KeyAt(id)) <==>
                 && Beyond(cursor.boundary, cursor.reverse, bag.KeyAt(id))
                 && !Precedes(cursor.reverse, bag.KeyAt(id), bag.KeyAt(first)))
  {
    forall id | bag.IsRow(id) && !Precedes(cursor.reverse, bag.KeyAt(id), bag.KeyAt(first))
      ensures Beyond(cursor.boundary, cursor.reverse, bag.KeyAt(id))
    {
      BeyondIsUpward(cursor.boundary, cursor.reverse, bag.KeyAt(first), bag.KeyAt(id));
    }
  }

  /** Cursors in step with a third are in step with each other. */
  lemma AgreeTransitive(bag: Bag, a: Cursor, b: Cursor, c: Cursor)
    requires Agree(bag, b, c)
    ensures Agree(bag, a, b) <==> Agree(bag, a, c)
  {
    hide Bag.IsRow, Bag.KeyAt, Beyond;
  }

  /** Exactly when a call to a reader with a footer does what is promised. A cursor that stands where it
      was promised to answers as promised, and goes on standing there unless the call changes the filter
      after a backwards seek to the lowest time. */
  lemma IndexedKeepsPromise(bag: Bag, mine: Cursor, promised: Cursor, call: Call)
    requires bag.Valid() && bag.Ordered() && Agree(bag, mine, promised)
    ensures Step(bag, true, mine, call).1 == PromisedStep(bag, promised, call).1
    ensures Agree(bag, Step(bag, true, mine, call).0, PromisedStep(bag, promised, call).0)
            <==> !MistakesSeek(bag, mine, call)
  {
    hide Step, PromisedStep, Agree, MistakesSeek, Bag.Valid, Bag.Ordered;
    IndexedDeparts(bag, mine, call);
    PromiseKeepsStep(bag, mine, promised, call);
    AgreeTransitive(bag, Step(bag, true, mine, call).0, PromisedStep(bag, mine, call).0,
                    PromisedStep(bag, promised, call).0);
  }

  /** Exactly when a call to a reader without one does: unless it is a read that delivers nothing and
      passes over rows on its way to the end, or to a row that cannot be encoded. The source says that
      filtering row by row satisfies the promise for free. */
  lemma ScanKeepsPromise(bag: Bag, mine: Cursor, promised: Cursor, call: Call)
    requires bag.Valid() && bag.Ordered() && Agree(bag, mine, promised)
    ensures Step(bag, false, mine, call).1 == PromisedStep(bag, promised, call).1
    ensures Agree(bag, Step(bag, false, mine, call).0, PromisedStep(bag, promised, call).0)
            <==> !PassesOver(bag, mine, call)
  {
    hide Step, PromisedStep, Agree, PassesOver, Bag.Valid, Bag.Ordered;
    ScanDeparts(bag, mine, call);
    PromiseKeepsStep(bag, mine, promised, call);
    AgreeTransitive(bag, Step(bag, false, mine, call).0, PromisedStep(bag, mine, call).0,
                    PromisedStep(bag, promised, call).0);
  }

  // ---------------------------------------------------------------- runs

  /** Every call of a run is answered as promised and leaves the reader where it was promised to be. */
  ghost predicate InStep(bag: Bag, indexed: bool, mine: Cursor, promised: Cursor, calls: seq<Call>)
    requires bag.Valid() && bag.Ordered()
    decreases |calls|
  {
    calls == [] ||
    var (here, answer) := Step(bag, indexed, mine, calls[0]);
    var (there, due) := PromisedStep(bag, promised, calls[0]);
    answer == due && Agree(bag, here, there) && InStep(bag, indexed, here, there, calls[1..])
  }

  ghost predicate NeverDeparts(bag: Bag, indexed: bool, cursor: Cursor, calls: seq<Call>)
    requires bag.Valid() && bag.Ordered()
    decreases |calls|
  {
    calls == [] ||
    (!Departs(bag, indexed, cursor, calls[0])
     && NeverDeparts(bag, indexed, Step(bag, indexed, cursor, calls[0]).0, calls[1..]))
  }

  /** A run keeps in step exactly when none of its calls departs. */
  lemma {:induction false} RunKeepsPromise(bag: Bag, indexed: bool, mine: Cursor, promised: Cursor, calls: seq<Call>)
    requires bag.Valid() && bag.Ordered() && Agree(bag, mine, promised)
    ensures InStep(bag, indexed, mine, promised, calls) <==> NeverDeparts(bag, indexed, mine, calls)
    decreases |calls|
  {
    hide Step, PromisedStep, Agree, MistakesSeek, PassesOver, Bag.Valid, Bag.Ordered;
    if calls != [] {
      if indexed {
        IndexedKeepsPromise(bag, mine, promised, calls[0]);
      } else {
        ScanKeepsPromise(bag, mine, promised, calls[0]);
      }
      var here, there := Step(bag, indexed, mine, calls[0]).0, PromisedStep(bag, promised, calls[0]).0;
      if Agree(bag, here, there) { RunKeepsPromise(bag, indexed, here, there, calls[1..]); }
    }
  }

  /** What it is worth to be in step: the answers are the promised ones. */
  lemma {:induction false} InStepAnswers(bag: Bag, indexed: bool, mine: Cursor, promised: Cursor, calls: seq<Call>)
    requires bag.Valid() && bag.Ordered() && Agree(bag, mine, promised) && InStep(bag, indexed, mine, promised, calls)
    ensures Run(bag, indexed, mine, calls).1 == PromisedRun(bag, promised, calls).1
    ensures Agree(bag, Run(bag, indexed, mine, calls).0, PromisedRun(bag, promised, calls).0)
    decreases |calls|
  {
    hide Step, PromisedStep, Agree, Bag.Valid, Bag.Ordered;
    if calls != [] {
      InStepAnswers(bag, indexed, Step(bag, indexed, mine, calls[0]).0, PromisedStep(bag, promised, calls[0]).0,
                    calls[1..]);
    }
  }

  /** Whether a run changes the filter after a backwards seek to the lowest time, with no other seek and
      no turn between. `lowest` says that it starts at such a seek. */
  predicate FiltersAtLowest(reverse: bool, filter: seq<string>, lowest: bool, calls: seq<Call>)
    decreases |calls|
  {
    calls != [] &&
    match calls[0]
    case ReadNext => FiltersAtLowest(reverse, filter, lowest, calls[1..])
    case Seek(time) => FiltersAtLowest(reverse, filter, reverse && time == I64_MIN, calls[1..])
    case SetFilter(changed) => (lowest && changed != filter) || FiltersAtLowest(reverse, changed, lowest, calls[1..])
    case SetReverse(turned) => FiltersAtLowest(turned, filter, lowest && turned == reverse, calls[1..])
  }

  predicate AtLowest(cursor: Cursor) { cursor.reverse && cursor.boundary == From(I64_MIN) }

  /** With a footer, an interleaving of calls keeps in step exactly when the recording is empty or no
      filter changes at a backwards seek to the lowest time. The calls alone tell. */
  lemma IndexedRunKeepsPromise(bag: Bag, mine: Cursor, promised: Cursor, calls: seq<Call>)
    requires bag.Valid() && bag.Ordered() && Agree(bag, mine, promised)
    ensures InStep(bag, true, mine, promised, calls) <==>
              bag.AllRows() == {} || !FiltersAtLowest(mine.reverse, mine.filter, AtLowest(mine), calls)
    ensures InStep(bag, true, mine, promised, calls)
            ==> Run(bag, true, mine, calls).1 == PromisedRun(bag, promised, calls).1
  {
    hide InStep, NeverDeparts, Run, PromisedRun, Agree, AtLowest, FiltersAtLowest, Bag.Valid, Bag.Ordered;
    RunKeepsPromise(bag, true, mine, promised, calls);
    IndexedNeverDeparts(bag, mine, calls);
    if InStep(bag, true, mine, promised, calls) { InStepAnswers(bag, true, mine, promised, calls); }
  }

  lemma {:induction false} IndexedNeverDeparts(bag: Bag, cursor: Cursor, calls: seq<Call>)
    requires bag.Valid() && bag.Ordered()
    ensures NeverDeparts(bag, true, cursor, calls) <==>
              bag.AllRows() == {} || !FiltersAtLowest(cursor.reverse, cursor.filter, AtLowest(cursor), calls)
    decreases |calls|
  {
    if calls != [] {
      StaysAtLowest(bag, cursor, calls[0]);
      IndexedNeverDeparts(bag, Step(bag, true, cursor, calls[0]).0, calls[1..]);
      hide Step, AtLowest, Bag.Valid, Bag.Ordered;
    }
  }

  /** What a call makes of standing at a backwards seek to the lowest time. */
  lemma StaysAtLowest(bag: Bag, cursor: Cursor, call: Call)
    requires bag.Valid() && bag.Ordered()
    ensures MistakesSeek(bag, cursor, call) <==>
              AtLowest(cursor) && call.SetFilter? && call.filter != cursor.filter && bag.AllRows() != {}
    ensures var next := Step(bag, true, cursor, call).0;
            && next.reverse == (if call.SetReverse? then call.reverse else cursor.reverse)
            && next.filter == (if call.SetFilter? then call.filter else cursor.filter)
            && (AtLowest(next) <==>
                  match call
                  case ReadNext => AtLowest(cursor)
                  case Seek(time) => cursor.reverse && time == I64_MIN
                  case SetFilter(filter) => AtLowest(cursor) && filter == cursor.filter
                  case SetReverse(reverse) => AtLowest(cursor) && reverse == cursor.reverse)
  {
    if AtLowest(cursor) {
      forall id ensures id !in Ahead(bag, cursor) {}
    }
  }

  // ---------------------------------------------------------------- nothing less will do

  /** If a row lies beyond one cursor and not beyond another, fewer lie beyond the other. */
  lemma FewerBeyond(bag: Bag, a: Cursor, b: Cursor, id: RowId)
    requires bag.Ordered() && a.reverse == b.reverse && a.filter == b.filter == [] && bag.IsRow(id)
    requires Beyond(a.boundary, a.reverse, bag.KeyAt(id)) && !Beyond(b.boundary, b.reverse, bag.KeyAt(id))
    ensures |Ahead(bag, b)| < |Ahead(bag, a)|
  {
    forall other | other in Ahead(bag, b) ensures other in Ahead(bag, a) {
      if Precedes(a.reverse, bag.KeyAt(other), bag.KeyAt(id)) {
        BeyondIsUpward(b.boundary, b.reverse, bag.KeyAt(other), bag.KeyAt(id));
      } else {
        BeyondIsUpward(a.boundary, a.reverse, bag.KeyAt(id), bag.KeyAt(other));
      }
    }
    FewerInSubset(Ahead(bag, b), Ahead(bag, a), id);
  }

  lemma FewerInSubset<T>(some: set<T>, all: set<T>, x: T)
    requires some <= all && x in all && x !in some
    ensures |some| < |all|
  {
    assert all == some + (all - some);
    assert x in all - some;
  }

  lemma {:induction false} OneMoreRead(n: nat)
    ensures Reads(n) + [ReadNext] == Reads(n + 1)
  {
    if n > 0 { OneMoreRead(n - 1); }
  }

  /** Reading once more than there are rows ahead of one tells it from a cursor with more. */
  lemma CountingTells(bag: Bag, a: Cursor, b: Cursor)
    requires bag.Valid() && bag.Ordered() && Playable(bag, bag.AllRows()) && |Ahead(bag, b)| < |Ahead(bag, a)|
    ensures var calls := Reads(|Ahead(bag, b)|) + [ReadNext];
            PromisedRun(bag, a, calls).1 != PromisedRun(bag, b, calls).1
  {
    var n := |Ahead(bag, b)|;
    AheadPlays(bag, a);
    AheadPlays(bag, b);
    hide PromisedRun, Run, Upcoming, Ahead, Playable, Bag.Valid, Bag.Ordered, Bag.IsRow, Reads;
    DrainDelivers(bag, true, b);
    OneMoreRead(n);
    ReadsDeliver(bag, true, a, n + 1);
    assert Delivered(bag, Upcoming(bag, a)[..n + 1])[n] == Reading(bag, Upcoming(bag, a)[n]);
    assert (Delivered(bag, Upcoming(bag, b)) + [Exhausted])[n] == Exhausted;
  }

  lemma AheadPlays(bag: Bag, cursor: Cursor)
    requires bag.Valid() && bag.Ordered() && Playable(bag, bag.AllRows())
    ensures |Upcoming(bag, cursor)| == |Ahead(bag, cursor)| && Playable(bag, Ahead(bag, cursor))
    ensures forall n :: 0 <= n <= |Ahead(bag, cursor)| ==> PlayableFirst(bag, Upcoming(bag, cursor), n)
    ensures forall n :: 0 <= n < |Upcoming(bag, cursor)| ==> Reading(bag, Upcoming(bag, cursor)[n]) != Exhausted
  {
    AllPlayable(bag, cursor);
  }

  /** Two cursors agree exactly when no run of calls tells them apart: what `Agree` asks for is what it
      takes for a reader to go on answering as promised, and no more. */
  lemma AgreeIsExact(bag: Bag, a: Cursor, b: Cursor)
    requires bag.Valid() && bag.Ordered() && Playable(bag, bag.AllRows()) && a.reverse == b.reverse
             && a.filter == b.filter
    ensures Agree(bag, a, b) <==> forall calls :: PromisedRun(bag, a, calls).1 == PromisedRun(bag, b, calls).1
  {
    if Agree(bag, a, b) {
      forall calls ensures PromisedRun(bag, a, calls).1 == PromisedRun(bag, b, calls).1 {
        AgreeingRuns(bag, a, b, calls);
      }
    } else {
      var id :| && bag.IsRow(id)
                && Beyond(a.boundary, a.reverse, bag.KeyAt(id)) != Beyond(b.boundary, b.reverse, bag.KeyAt(id));
      if Beyond(a.boundary, a.reverse, bag.KeyAt(id)) {
        var calls := ToldApart(bag, a, b, id);
      } else {
        var calls := ToldApart(bag, b, a, id);
      }
    }
  }

  lemma ToldApart(bag: Bag, a: Cursor, b: Cursor, id: RowId) returns (calls: seq<Call>)
    requires bag.Valid() && bag.Ordered() && Playable(bag, bag.AllRows())
    requires a.reverse == b.reverse && a.filter == b.filter && bag.IsRow(id)
    requires Beyond(a.boundary, a.reverse, bag.KeyAt(id)) && !Beyond(b.boundary, b.reverse, bag.KeyAt(id))
    ensures PromisedRun(bag, a, calls).1 != PromisedRun(bag, b, calls).1
  {
    hide PromisedRun, Ahead, Bag.Valid, Bag.Ordered, Playable, Bag.IsRow, Bag.KeyAt;
    var wideA, wideB := a.(filter := []), b.(filter := []);
    FewerBeyond(bag, wideA, wideB, id);
    CountingTells(bag, wideA, wideB);
    var more := Reads(|Ahead(bag, wideB)|) + [ReadNext];
    CallThenRun(bag, true, a, SetFilter([]), more);
    CallThenRun(bag, true, b, SetFilter([]), more);
    calls := [SetFilter([])] + more;
    assert ([Done] + PromisedRun(bag, wideA, more).1)[1..] == PromisedRun(bag, wideA, more).1;
    assert ([Done] + PromisedRun(bag, wideB, more).1)[1..] == PromisedRun(bag, wideB, more).1;
  }

  lemma {:induction false} AgreeingRuns(bag: Bag, a: Cursor, b: Cursor, calls: seq<Call>)
    requires bag.Valid() && bag.Ordered() && Agree(bag, a, b)
    ensures PromisedRun(bag, a, calls).1 == PromisedRun(bag, b, calls).1
    decreases |calls|
  {
    hide PromisedStep, Agree, Bag.Valid, Bag.Ordered;
    if calls != [] {
      PromiseKeepsStep(bag, a, b, calls[0]);
      AgreeingRuns(bag, PromisedStep(bag, a, calls[0]).0, PromisedStep(bag, b, calls[0]).0, calls[1..]);
    }
  }

  // ---------------------------------------------------------------- changing the filter

  /** Where a cursor stands after some reads and before a change of filter. */
  ghost function Standing(bag: Bag, cursor: Cursor, n: nat, filter: seq<string>): Boundary
    requires bag.Ordered() && n <= |Upcoming(bag, cursor)|
  {
    if n > 0 then After(KeyOf(bag, Upcoming(bag, cursor)[n - 1]))
    else if MistakesSeek(bag, cursor, SetFilter(filter)) then Start
    else cursor.boundary
  }

  ghost predicate Admitted(bag: Bag, filter: seq<string>, id: RowId) {
    bag.IsRow(id) && (filter == [] || bag.TopicAt(id).name in filter)
  }

  /** With a footer, changing the filter after some reads leaves ahead precisely the rows the new filter
      admits past the last one delivered: rows sharing its time and rows the old filter excluded among
      them, rows already delivered not. Before any read it is past where the cursor stood, a backwards
      seek to the lowest time reading as a fresh start. */
  lemma FilterChangesInPlace(bag: Bag, cursor: Cursor, n: nat, filter: seq<string>)
    requires bag.Valid() && bag.Ordered() && PlayableFirst(bag, Upcoming(bag, cursor), n)
    ensures var list, last := Upcoming(bag, cursor), Run(bag, true, cursor, Reads(n) + [SetFilter(filter)]).0;
            && (forall id :: id in Ahead(bag, last) <==>
                  Admitted(bag, filter, id) && Beyond(Standing(bag, cursor, n, filter), cursor.reverse, KeyOf(bag, id)))
            && (forall i :: 0 <= i < n ==> list[i] !in Ahead(bag, last))
            && (forall i :: n <= i < |list| && Admitted(bag, filter, list[i]) ==> list[i] in Ahead(bag, last))
  {
    hide Run, Step, PromisedStep, Upcoming, Bag.Valid, Bag.Ordered, Reads, Delivered, Ahead, Admitted, MistakesSeek,
        Standing;
    var list := Upcoming(bag, cursor);
    var mid := if n == 0 then cursor else cursor.(boundary := After(KeyOf(bag, list[n - 1])));
    ReadsDeliver(bag, true, cursor, n);
    RunSplits(bag, true, cursor, Reads(n), [SetFilter(filter)]);
    OneCall(bag, true, mid, SetFilter(filter));
    FilterLeaves(bag, cursor, mid, n, filter);
    UpcomingSplits(bag, cursor, n, filter);
  }

  lemma FilterLeaves(bag: Bag, cursor: Cursor, mid: Cursor, n: nat, filter: seq<string>)
    requires bag.Valid() && bag.Ordered() && n <= |Upcoming(bag, cursor)|
    requires mid == if n == 0 then cursor else cursor.(boundary := After(KeyOf(bag, Upcoming(bag, cursor)[n - 1])))
    ensures forall id :: id in Ahead(bag, Step(bag, true, mid, SetFilter(filter)).0) <==>
              Admitted(bag, filter, id) && Beyond(Standing(bag, cursor, n, filter), cursor.reverse, KeyOf(bag, id))
  {
    hide Upcoming, Bag.Valid, Bag.Ordered, Ahead, Beyond, Step, Admitted, KeyOf;
    FilterStands(bag, mid, filter);
    AheadMeans(bag, Step(bag, true, mid, SetFilter(filter)).0);
  }

  lemma AheadMeans(bag: Bag, cursor: Cursor)
    ensures forall id :: id in Ahead(bag, cursor) <==>
              Admitted(bag, cursor.filter, id) && Beyond(cursor.boundary, cursor.reverse, KeyOf(bag, id))
    ensures forall id :: Admitted(bag, cursor.filter, id) ==> bag.IsRow(id)
  {}

  lemma FilterStands(bag: Bag, cursor: Cursor, filter: seq<string>)
    requires bag.Valid() && bag.Ordered()
    ensures var next := Step(bag, true, cursor, SetFilter(filter)).0;
            && next.reverse == cursor.reverse && next.filter == filter
            && forall id :: bag.IsRow(id) ==>
                 (Beyond(next.boundary, next.reverse, KeyOf(bag, id)) <==>
                  Beyond(if MistakesSeek(bag, cursor, SetFilter(filter)) then Start else cursor.boundary,
                         cursor.reverse, KeyOf(bag, id)))
  {
    IndexedDeparts(bag, cursor, SetFilter(filter));
    hide Bag.Valid, Bag.Ordered;
  }

  /** The rows read are no longer beyond where that leaves the cursor, and those after them still are. */
  lemma UpcomingSplits(bag: Bag, cursor: Cursor, n: nat, filter: seq<string>)
    requires bag.Ordered() && n <= |Upcoming(bag, cursor)|
    ensures var list := Upcoming(bag, cursor);
            forall i :: 0 <= i < |list| ==>
              (Beyond(Standing(bag, cursor, n, filter), cursor.reverse, KeyOf(bag, list[i])) <==> n <= i)
  {
    hide Upcoming, Bag.Ordered, Ahead, MistakesSeek, Precedes;
    var list := Upcoming(bag, cursor);
    forall i | 0 <= i < |list|
      ensures Beyond(Standing(bag, cursor, n, filter), cursor.reverse, KeyOf(bag, list[i])) <==> n <= i
    {
      UpcomingPrecedes(bag, cursor, if n == 0 then i else n - 1, i);
      UpcomingIsBeyond(bag, cursor, i);
    }
  }

  lemma UpcomingIsBeyond(bag: Bag, cursor: Cursor, i: nat)
    requires bag.Ordered() && i < |Upcoming(bag, cursor)|
    ensures Beyond(cursor.boundary, cursor.reverse, KeyOf(bag, Upcoming(bag, cursor)[i]))
  {
    assert Upcoming(bag, cursor)[i] in Ahead(bag, cursor);
  }

  lemma UpcomingPrecedes(bag: Bag, cursor: Cursor, i: nat, j: nat)
    requires bag.Ordered() && i < |Upcoming(bag, cursor)| && j < |Upcoming(bag, cursor)|
    ensures var list := Upcoming(bag, cursor);
            && bag.IsRow(list[i]) && bag.IsRow(list[j])
            && (Precedes(cursor.reverse, KeyOf(bag, list[i]), KeyOf(bag, list[j])) <==> i < j)
  {
    var keys, ahead := bag.Keys(), Ahead(bag, cursor);
    var list := Playlist(keys, cursor.reverse, ahead);
    PlaylistInOrder(keys, cursor.reverse, ahead);
    assert list[i] in ahead && list[j] in ahead;
    PrecedesIsLater(keys, cursor.reverse, list, i, j);
    assert keys[list[i]] == KeyOf(bag, list[i]) && keys[list[j]] == KeyOf(bag, list[j]);
  }

  // ---------------------------------------------------------------- the two paths

  /** The two cursors deliver the same for as long as the filter stays as it is. */
  ghost predicate SameAhead(bag: Bag, a: Cursor, b: Cursor) {
    a.reverse == b.reverse && a.filter == b.filter && Ahead(bag, a) == Ahead(bag, b)
  }

  lemma StepsAgree(bag: Bag, mine: Cursor, promised: Cursor, call: Call)
    requires bag.Valid() && bag.Ordered() && SameAhead(bag, mine, promised) && !call.SetFilter?
    ensures Step(bag, false, mine, call).1 == PromisedStep(bag, promised, call).1
    ensures SameAhead(bag, Step(bag, false, mine, call).0, PromisedStep(bag, promised, call).0)
  {
    hide Bag.Valid, Bag.Ordered, Ahead;
    match call
    case ReadNext =>
      if Ahead(bag, mine) == {} {
        NothingAtEnd(bag, mine);
      } else {
        ReadsAgree(bag, mine, promised);
      }
    case Seek(_) =>
    case SetReverse(_) =>
  }

  lemma NothingAtEnd(bag: Bag, cursor: Cursor)
    ensures Ahead(bag, cursor.(boundary := End)) == {}
  {}

  lemma ReadsAgree(bag: Bag, mine: Cursor, promised: Cursor)
    requires bag.Valid() && bag.Ordered() && SameAhead(bag, mine, promised) && Ahead(bag, mine) != {}
    ensures Step(bag, false, mine, ReadNext).1 == PromisedStep(bag, promised, ReadNext).1
    ensures SameAhead(bag, Step(bag, false, mine, ReadNext).0, PromisedStep(bag, promised, ReadNext).0)
  {
    hide Bag.Valid, Bag.Ordered, Bag.Keys, Bag.KeyAt, Bag.PayloadAt, Bag.MessageAt, Bag.IsRow, Ahead, Precedes, IsFirst;
    FirstIsBeyond(bag, mine);
    var first := First(bag.Keys(), mine.reverse, Ahead(bag, mine));
    Played(bag, mine, first);
    Played(bag, promised, first);
    StuckBefore(bag, mine, first);
  }

  /** A recording without a footer plays the same as one with it, in both directions, over every run
      that keeps its filter, whatever its reads pass over. */
  lemma {:induction false} PathsAgree(bag: Bag, scanning: Cursor, indexed: Cursor, calls: seq<Call>)
    requires bag.Valid() && bag.Ordered() && SameAhead(bag, scanning, indexed)
    requires forall call :: call in calls ==> !call.SetFilter?
    ensures Run(bag, false, scanning, calls).1 == Run(bag, true, indexed, calls).1 == PromisedRun(bag, indexed, calls).1
    decreases |calls|
  {
    if calls != [] {
      StepsAgree(bag, scanning, indexed, calls[0]);
      assert Step(bag, true, indexed, calls[0]) == PromisedStep(bag, indexed, calls[0]);
      PathsAgree(bag, Step(bag, false, scanning, calls[0]).0, PromisedStep(bag, indexed, calls[0]).0, calls[1..]);
    }
  }

  /** Over a run that changes its filter they still do, as long as neither departs. */
  lemma PathsAgreeInStep(bag: Bag, scanning: Cursor, indexed: Cursor, calls: seq<Call>)
    requires bag.Valid() && bag.Ordered() && Agree(bag, scanning, indexed)
    requires NeverDeparts(bag, false, scanning, calls)
    requires bag.AllRows() == {} || !FiltersAtLowest(indexed.reverse, indexed.filter, AtLowest(indexed), calls)
    ensures Run(bag, false, scanning, calls).1 == Run(bag, true, indexed, calls).1
  {
    hide *;
    SelfAgrees(bag, indexed);
    RunKeepsPromise(bag, false, scanning, indexed, calls);
    InStepAnswers(bag, false, scanning, indexed, calls);
    IndexedRunKeepsPromise(bag, indexed, indexed, calls);
  }

  lemma SelfAgrees(bag: Bag, cursor: Cursor)
    ensures Agree(bag, cursor, cursor)
  {}
}
