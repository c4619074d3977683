/** What whole runs of calls amount to: draining, seeking and turning around. */
module PlaybackRuns {
  import opened Basics
  import opened Ordering
  import opened Recording
  import opened Playback
  import opened Readers
  import ChunkIndexes
  import Footers

  ghost function Run(bag: Bag, indexed: bool, cursor: Cursor, calls: seq<Call>): (Cursor, seq<Response>)
    requires bag.Valid() && bag.Ordered()
    decreases |calls|
  {
    if calls == [] then (cursor, [])
    else
      var (next, response) := Step(bag, indexed, cursor, calls[0]);
      var (last, responses) := Run(bag, indexed, next, calls[1..]);
      (last, [response] + responses)
  }

  ghost function PromisedRun(bag: Bag, cursor: Cursor, calls: seq<Call>): (Cursor, seq<Response>)
    requires bag.Valid() && bag.Ordered()
    decreases |calls|
  {
    if calls == [] then (cursor, [])
    else
      var (next, response) := PromisedStep(bag, cursor, calls[0]);
      var (last, responses) := PromisedRun(bag, next, calls[1..]);
      (last, [response] + responses)
  }

  method Apply(reader: Reader, call: Call) returns (response: Response)
    requires reader.Valid()
    modifies reader
    ensures reader.Valid()
    ensures reader.bag.Ordered() ==>
              (reader.View(), response) == Step(reader.bag, reader.index != null, old(reader.View()), call)
  {
    hide *;
    response := Done;
    match call {
      case ReadNext =>
        ghost var played;
        var r;
        r, played := reader.ReadNext();
        response := Answer(r);
      case Seek(time) => reader.Seek(time);
      case SetFilter(filter) => reader.SetFilter(filter);
      case SetReverse(reverse) => reader.SetReverse(reverse);
    }
  }

  /** The reader refines the cursor over every interleaving of calls. */
  method Play(reader: Reader, calls: seq<Call>) returns (responses: seq<Response>)
    requires reader.Valid()
    modifies reader
    ensures reader.Valid()
    ensures reader.bag.Ordered() ==>
              var run := Run(reader.bag, reader.index != null, old(reader.View()), calls);
              reader.View() == run.0 && responses == run.1
  {
    hide *;
    ValidBag(reader);
    responses := [];
    var i := 0;
    ghost var start := reader.View();
    assert calls[0..] == calls;
    if reader.bag.Ordered() { RemainsAll(reader.bag, reader.index != null, start, calls); }
    while i < |calls|
      invariant i <= |calls| && reader.Valid() && reader.bag.Valid()
      invariant reader.bag.Ordered()
                ==> Remains(reader.bag, reader.index != null, start, calls, reader.View(), calls[i..], responses)
    {
      ghost var before, was := reader.View(), responses;
      var response := Apply(reader, calls[i]);
      responses := responses + [response];
      if reader.bag.Ordered() {
        RemainsOne(reader.bag, reader.index != null, start, calls, before, i, was, reader.View(), response);
      }
      i := i + 1;
    }
    if reader.bag.Ordered() {
      assert calls[i..] == [];
      RemainsNone(reader.bag, reader.index != null, start, calls, reader.View(), responses);
    }
  }

  /** A run of some calls is the responses so far and the run of those that remain. */
  ghost predicate Remains(bag: Bag, indexed: bool, start: Cursor, calls: seq<Call>, now: Cursor, rest: seq<Call>,
                          responses: seq<Response>)
    requires bag.Valid() && bag.Ordered()
  {
    var run, more := Run(bag, indexed, start, calls), Run(bag, indexed, now, rest);
    run.0 == more.0 && run.1 == responses + more.1
  }

  lemma RemainsAll(bag: Bag, indexed: bool, start: Cursor, calls: seq<Call>)
    requires bag.Valid() && bag.Ordered()
    ensures Remains(bag, indexed, start, calls, start, calls, [])
  {
    hide Run;
    assert [] + Run(bag, indexed, start, calls).1 == Run(bag, indexed, start, calls).1;
  }

  lemma RemainsOne(bag: Bag, indexed: bool, start: Cursor, calls: seq<Call>, before: Cursor, i: nat,
                   responses: seq<Response>,
                   now: Cursor, response: Response)
    requires bag.Valid() && bag.Ordered() && i < |calls|
    requires Remains(bag, indexed, start, calls, before, calls[i..], responses)
    requires (now, response) == Step(bag, indexed, before, calls[i])
    ensures Remains(bag, indexed, start, calls, now, calls[i + 1..], responses + [response])
  {
    hide Step, Bag.Valid, Bag.Ordered;
    assert calls[i..][1..] == calls[i + 1..];
    var rest := Run(bag, indexed, now, calls[i + 1..]);
    assert Run(bag, indexed, before, calls[i..]) == (rest.0, [response] + rest.1);
    assert responses + ([response] + rest.1) == (responses + [response]) + rest.1;
  }

  lemma RemainsNone(bag: Bag, indexed: bool, start: Cursor, calls: seq<Call>, now: Cursor, responses: seq<Response>)
    requires bag.Valid() && bag.Ordered() && Remains(bag, indexed, start, calls, now, [], responses)
    ensures Run(bag, indexed, start, calls).0 == now && Run(bag, indexed, start, calls).1 == responses
  {}

  lemma ValidBag(reader: Reader)
    requires reader.Valid()
    ensures reader.bag.Valid()
  {}

  lemma {:induction false} RunSplits(bag: Bag, indexed: bool, cursor: Cursor, first: seq<Call>, second: seq<Call>)
    requires bag.Valid() && bag.Ordered()
    ensures var some := Run(bag, indexed, cursor, first);
            var more := Run(bag, indexed, some.0, second);
            var all := Run(bag, indexed, cursor, first + second);
            all.0 == more.0 && all.1 == some.1 + more.1
    decreases |first|
  {
    hide Step, Bag.Valid, Bag.Ordered;
    if first == [] {
      assert first + second == second;
    } else {
      var (next, response) := Step(bag, indexed, cursor, first[0]);
      RunSplits(bag, indexed, next, first[1..], second);
      assert (first + second)[1..] == first[1..] + second;
    }
  }

  lemma {:induction false} PromisedRunSplits(bag: Bag, cursor: Cursor, first: seq<Call>, second: seq<Call>)
    requires bag.Valid() && bag.Ordered()
    ensures var some := PromisedRun(bag, cursor, first);
            var more := PromisedRun(bag, some.0, second);
            var all := PromisedRun(bag, cursor, first + second);
            all.0 == more.0 && all.1 == some.1 + more.1
    decreases |first|
  {
    hide PromisedStep, Bag.Valid, Bag.Ordered;
    if first == [] {
      assert first + second == second;
    } else {
      var (next, response) := PromisedStep(bag, cursor, first[0]);
      PromisedRunSplits(bag, next, first[1..], second);
      assert (first + second)[1..] == first[1..] + second;
    }
  }

  // ---------------------------------------------------------------- draining

  ghost predicate Playable(bag: Bag, rows: set<RowId>)
    requires bag.Valid()
  {
    forall id :: id in rows ==> bag.IsRow(id) && bag.PayloadAt(id).Ok?
  }

  function Reads(n: nat): (calls: seq<Call>)
    ensures |calls| == n
  {
    if n == 0 then [] else [ReadNext] + Reads(n - 1)
  }

  /** What reading a row gives the caller. */
  ghost function Reading(bag: Bag, id: RowId): Response
    requires bag.Valid()
  {
    if !bag.IsRow(id) then Exhausted
    else if bag.PayloadAt(id).Err? then Failed(bag.PayloadAt(id).error)
    else Got(bag.MessageAt(id))
  }

  ghost function Delivered(bag: Bag, ids: seq<RowId>): (responses: seq<Response>)
    requires bag.Valid()
    ensures |responses| == |ids|
    ensures forall i :: 0 <= i < |ids| ==> responses[i] == Reading(bag, ids[i])
  {
    if ids == [] then [] else [Reading(bag, ids[0])] + Delivered(bag, ids[1..])
  }

  ghost function KeyOf(bag: Bag, id: RowId): SortKey {
    if bag.IsRow(id) then bag.KeyAt(id) else SortKey(0, 0)
  }

  /** What is ahead of a cursor, as one list in playback order. */
  ghost function Upcoming(bag: Bag, cursor: Cursor): seq<RowId>
    requires bag.Ordered()
  {
    Playlist(bag.Keys(), cursor.reverse, Ahead(bag, cursor))
  }

  /** The first `n` rows of a list can be played. */
  ghost predicate PlayableFirst(bag: Bag, list: seq<RowId>, n: nat)
    requires bag.Valid()
  {
    n <= |list| && forall i :: 0 <= i < n ==> bag.IsRow(list[i]) && bag.PayloadAt(list[i]).Ok?
  }

  /** One read delivers the front of the list. */
  lemma ReadDelivers(bag: Bag, indexed: bool, cursor: Cursor)
    requires bag.Valid() && bag.Ordered() && PlayableFirst(bag, Upcoming(bag, cursor), 1)
    ensures var list := Upcoming(bag, cursor);
            var next := cursor.(boundary := After(KeyOf(bag, list[0])));
            && Step(bag, indexed, cursor, ReadNext) == (next, Reading(bag, list[0]))
            && PromisedStep(bag, cursor, ReadNext) == (next, Reading(bag, list[0]))
            && Upcoming(bag, next) == list[1..]
  {
    var list := Upcoming(bag, cursor);
    var first := First(bag.Keys(), cursor.reverse, Ahead(bag, cursor));
    assert list[0] == first && first in Ahead(bag, cursor);
    Played(bag, cursor, first);
  }

  /** Reading delivers the list ahead from its front, each row once, and leaves the rest ahead. */
  lemma {:induction false} ReadsDeliver(bag: Bag, indexed: bool, cursor: Cursor, n: nat)
    requires bag.Valid() && bag.Ordered() && PlayableFirst(bag, Upcoming(bag, cursor), n)
    ensures var list := Upcoming(bag, cursor);
            var (last, responses) := Run(bag, indexed, cursor, Reads(n));
            && responses == Delivered(bag, list[..n])
            && Upcoming(bag, last) == list[n..]
            && last == (if n == 0 then cursor else cursor.(boundary := After(KeyOf(bag, list[n - 1]))))
    ensures PromisedRun(bag, cursor, Reads(n)) == Run(bag, indexed, cursor, Reads(n))
    decreases n
  {
    hide Step, PromisedStep, Ahead, Upcoming, Reading, KeyOf, Bag.Valid, Bag.Ordered, Bag.IsRow, Bag.PayloadAt;
    if n > 0 {
      var list := Upcoming(bag, cursor);
      ReadDelivers(bag, indexed, cursor);
      var next := cursor.(boundary := After(KeyOf(bag, list[0])));
      assert forall i :: 0 <= i < n - 1 ==> list[1..][i] == list[i + 1];
      ReadsDeliver(bag, indexed, next, n - 1);
      assert Reads(n)[1..] == Reads(n - 1);
      assert list[..n][1..] == list[1..][..n - 1];
      assert list[1..][n - 1..] == list[n..];
    }
  }

  lemma AllPlayable(bag: Bag, cursor: Cursor)
    requires bag.Valid() && bag.Ordered() && Playable(bag, Ahead(bag, cursor))
    ensures PlayableFirst(bag, Upcoming(bag, cursor), |Upcoming(bag, cursor)|)
  {
    var list := Upcoming(bag, cursor);
    assert forall i :: 0 <= i < |list| ==> list[i] in list;
  }

  /** Draining from any cursor delivers everything ahead of it, in order, and then nothing. */
  lemma DrainDelivers(bag: Bag, indexed: bool, cursor: Cursor)
    requires bag.Valid() && bag.Ordered() && Playable(bag, Ahead(bag, cursor))
    ensures var list := Upcoming(bag, cursor);
            && Run(bag, indexed, cursor, Reads(|list|) + [ReadNext]).1 == Delivered(bag, list) + [Exhausted]
            && PromisedRun(bag, cursor, Reads(|list|) + [ReadNext]).1 == Delivered(bag, list) + [Exhausted]
  {
    hide Run, PromisedRun, Step, PromisedStep, Upcoming, Ahead, Playable, Bag.Valid, Bag.Ordered;
    var list := Upcoming(bag, cursor);
    AllPlayable(bag, cursor);
    ReadsDeliver(bag, indexed, cursor, |list|);
    RunSplits(bag, indexed, cursor, Reads(|list|), [ReadNext]);
    PromisedRunSplits(bag, cursor, Reads(|list|), [ReadNext]);
    assert list[..|list|] == list;
    var last := Run(bag, indexed, cursor, Reads(|list|)).0;
    NothingUpcoming(bag, indexed, last);
    OneCall(bag, indexed, last, ReadNext);
  }

  lemma NothingUpcoming(bag: Bag, indexed: bool, cursor: Cursor)
    requires bag.Valid() && bag.Ordered() && Upcoming(bag, cursor) == []
    ensures Step(bag, indexed, cursor, ReadNext).1 == Exhausted == PromisedStep(bag, cursor, ReadNext).1
  {
    assert |Ahead(bag, cursor)| == 0;
  }

  lemma OneCall(bag: Bag, indexed: bool, cursor: Cursor, call: Call)
    requires bag.Valid() && bag.Ordered()
    ensures var step, run := Step(bag, indexed, cursor, call), Run(bag, indexed, cursor, [call]);
            run.0 == step.0 && run.1 == [step.1]
    ensures var step, run := PromisedStep(bag, cursor, call), PromisedRun(bag, cursor, [call]);
            run.0 == step.0 && run.1 == [step.1]
  {
    hide Step, PromisedStep;
    assert [call][1..] == [];
  }

  /** What is ahead of a cursor is picked out of the one list of all rows. */
  lemma UpcomingIsSelected(bag: Bag, cursor: Cursor)
    requires bag.Ordered()
    ensures Upcoming(bag, cursor) == Select(Playlist(bag.Keys(), cursor.reverse, bag.AllRows()), Ahead(bag, cursor))
  {
    PlaylistSelects(bag.Keys(), cursor.reverse, bag.AllRows(), Ahead(bag, cursor));
  }

  /** Whether a row lies past a boundary, by its numbers. */
  predicate Past(boundary: Boundary, reverse: bool, recv: int, sequence: int) {
    match boundary
    case Start => true
    case From(time) => if reverse then recv <= time else time <= recv
    case After(key) =>
      if reverse then recv < key.recv || (recv == key.recv && sequence < key.sequence)
      else key.recv < recv || (key.recv == recv && key.sequence < sequence)
    case Before(key) =>
      if reverse then recv < key.recv || (recv == key.recv && sequence <= key.sequence)
      else key.recv < recv || (key.recv == recv && key.sequence <= sequence)
    case End => false
  }

  /** A row lies ahead of a cursor when its topic is one the filter names, if it names any, and it lies
      past the boundary. */
  lemma AheadByNumbers(bag: Bag, cursor: Cursor, id: RowId)
    ensures id in Ahead(bag, cursor) <==>
              && bag.IsRow(id)
              && (cursor.filter == [] || bag.TopicAt(id).name in cursor.filter)
              && Past(cursor.boundary, cursor.reverse, bag.KeyAt(id).recv, bag.KeyAt(id).sequence)
  {
    hide Bag.IsRow, Bag.KeyAt, Bag.TopicAt;
  }

  /** Whether one row is to be played before another, by their numbers. */
  predicate Earlier(reverse: bool, a: SortKey, b: SortKey) {
    if reverse then a.recv > b.recv || (a.recv == b.recv && a.sequence > b.sequence)
    else a.recv < b.recv || (a.recv == b.recv && a.sequence < b.sequence)
  }

  /** The list ahead of a cursor, row by row: the rows past the boundary whose topics the filter names, if
      it names any, by receive time and then by sequence number. */
  lemma UpcomingByNumbers(bag: Bag, cursor: Cursor)
    requires bag.Ordered()
    ensures forall id :: id in Upcoming(bag, cursor) <==>
              && bag.IsRow(id)
              && (cursor.filter == [] || bag.TopicAt(id).name in cursor.filter)
              && Past(cursor.boundary, cursor.reverse, bag.KeyAt(id).recv, bag.KeyAt(id).sequence)
    ensures forall i, j :: 0 <= i < j < |Upcoming(bag, cursor)| ==>
              var a, b := KeyOf(bag, Upcoming(bag, cursor)[i]), KeyOf(bag, Upcoming(bag, cursor)[j]);
              Earlier(cursor.reverse, a, b)
  {
    hide Past, Ahead, Bag.IsRow, Bag.KeyAt, Bag.TopicAt, Bag.Ordered;
    forall id
      ensures id in Upcoming(bag, cursor) <==>
                && bag.IsRow(id)
                && (cursor.filter == [] || bag.TopicAt(id).name in cursor.filter)
                && Past(cursor.boundary, cursor.reverse, bag.KeyAt(id).recv, bag.KeyAt(id).sequence)
    {
      AheadByNumbers(bag, cursor, id);
    }
    UpcomingInOrder(bag, cursor);
  }

  lemma UpcomingInOrder(bag: Bag, cursor: Cursor)
    requires bag.Ordered()
    ensures forall i, j :: 0 <= i < j < |Upcoming(bag, cursor)| ==>
              var a, b := KeyOf(bag, Upcoming(bag, cursor)[i]), KeyOf(bag, Upcoming(bag, cursor)[j]);
              Earlier(cursor.reverse, a, b)
  {
    hide Playlist, Bag.KeyAt, Beyond, Wanted, Bag.TopicAt;
    var list := Upcoming(bag, cursor);
    PlaylistInOrder(bag.Keys(), cursor.reverse, Ahead(bag, cursor));
    forall i, j | 0 <= i < j < |list| ensures Precedes(cursor.reverse, KeyOf(bag, list[i]), KeyOf(bag, list[j])) {
      assert list[i] in Ahead(bag, cursor) && list[j] in Ahead(bag, cursor);
    }
  }

  // ---------------------------------------------------------------- seeking

  /** The admitted rows at or past a time. */
  ghost function RowsFrom(bag: Bag, reverse: bool, filter: seq<string>, time: int): set<RowId> {
    set id | id in bag.AllRows()
             && (filter == [] || bag.TopicAt(id).name in filter)
             && (if reverse then bag.KeyAt(id).recv <= time else bag.KeyAt(id).recv >= time)
  }

  /** The list of the admitted rows at or past a time. */
  ghost function ListFrom(bag: Bag, reverse: bool, filter: seq<string>, time: int): seq<RowId>
    requires bag.Ordered()
  {
    Playlist(bag.Keys(), reverse, RowsFrom(bag, reverse, filter, time))
  }

  lemma Seeks(bag: Bag, indexed: bool, cursor: Cursor, time: i64)
    requires bag.Valid() && bag.Ordered()
    ensures Step(bag, indexed, cursor, Seek(time)) == (cursor.(boundary := From(time)), Done)
    ensures Ahead(bag, cursor.(boundary := From(time))) == RowsFrom(bag, cursor.reverse, cursor.filter, time)
    ensures Upcoming(bag, cursor.(boundary := From(time))) == ListFrom(bag, cursor.reverse, cursor.filter, time)
  {}

  /** After a seek, whatever came before it, draining delivers exactly the admitted rows at or past
      the target, in order. */
  lemma SeekThenDrain(bag: Bag, indexed: bool, cursor: Cursor, before: seq<Call>, time: i64)
    requires bag.Valid() && bag.Ordered()
    requires var last := Run(bag, indexed, cursor, before).0;
             Playable(bag, RowsFrom(bag, last.reverse, last.filter, time))
    ensures var last := Run(bag, indexed, cursor, before).0;
            var list := ListFrom(bag, last.reverse, last.filter, time);
            Run(bag, indexed, last, [Seek(time)] + (Reads(|list|) + [ReadNext])).1
              == [Done] + (Delivered(bag, list) + [Exhausted])
  {
    hide *;
    var last := Run(bag, indexed, cursor, before).0;
    Seeks(bag, indexed, last, time);
    DrainDelivers(bag, indexed, last.(boundary := From(time)));
    CallThenRun(bag, indexed, last, Seek(time), Reads(|ListFrom(bag, last.reverse, last.filter, time)|) + [ReadNext]);
  }

  /** A call, and the run that follows it. */
  lemma CallThenRun(bag: Bag, indexed: bool, cursor: Cursor, call: Call, more: seq<Call>)
    requires bag.Valid() && bag.Ordered()
    ensures var (next, response) := Step(bag, indexed, cursor, call);
            Run(bag, indexed, cursor, [call] + more).1 == [response] + Run(bag, indexed, next, more).1
    ensures var (next, response) := PromisedStep(bag, cursor, call);
            PromisedRun(bag, cursor, [call] + more).1 == [response] + PromisedRun(bag, next, more).1
  {
    hide Step, PromisedStep;
    assert ([call] + more)[1..] == more;
  }

  // ---------------------------------------------------------------- exactly once, in whatever order

  /** Different rows, each one of `rows` that the filter admits. */
  ghost predicate OnceEach(bag: Bag, filter: seq<string>, rows: set<RowId>, played: seq<RowId>) {
    && (forall i, j :: 0 <= i < j < |played| ==> played[i] != played[j])
    && (forall i :: 0 <= i < |played|
            ==> && played[i] in rows && bag.IsRow(played[i])
                && (filter == [] || bag.TopicAt(played[i]).name in filter))
  }

  /** Some messages are those of some rows. */
  ghost predicate Tells(bag: Bag, messages: seq<Message>, played: seq<RowId>)
    requires bag.Valid()
  {
    && |messages| == |played|
    && forall i :: 0 <= i < |played| ==>
         bag.IsRow(played[i]) && bag.PayloadAt(played[i]).Ok? && messages[i] == bag.MessageAt(played[i])
  }

  /** Of `rows`, all are still left but for those played and for others the filter does not admit. */
  ghost predicate Accounts(bag: Bag, filter: seq<string>, rows: set<RowId>, left: set<RowId>, played: seq<RowId>) {
    && OnceEach(bag, filter, rows, played)
    && left <= rows && (forall id :: id in rows ==> bag.IsRow(id))
    && (forall id :: id in played ==> id !in left)
    && forall id :: id in rows && id !in left && (filter == [] || bag.TopicAt(id).name in filter) ==> id in played
  }

  lemma AccountsNothing(bag: Bag, filter: seq<string>, rows: set<RowId>)
    requires forall id :: id in rows ==> bag.IsRow(id)
    ensures Accounts(bag, filter, rows, rows, [])
  {}

  lemma AccountsLess(bag: Bag, filter: seq<string>, rows: set<RowId>, left: set<RowId>, played: seq<RowId>,
                     fewer: set<RowId>)
    requires Accounts(bag, filter, rows, left, played) && fewer <= left
    requires forall id :: id in left && id !in fewer ==> filter != [] && bag.TopicAt(id).name !in filter
    ensures Accounts(bag, filter, rows, fewer, played)
  {}

  lemma AccountsMore(bag: Bag, filter: seq<string>, rows: set<RowId>, left: set<RowId>, played: seq<RowId>,
                     fewer: set<RowId>,
                     next: RowId)
    requires Accounts(bag, filter, rows, left, played) && fewer <= left && next in left && next !in fewer
    requires filter == [] || bag.TopicAt(next).name in filter
    requires forall id :: id in left && id !in fewer && id != next ==> filter != [] && bag.TopicAt(id).name !in filter
    ensures Accounts(bag, filter, rows, fewer, played + [next])
  {
    forall i | 0 <= i < |played| ensures played[i] != next { assert played[i] in played; }
  }

  lemma TellsMore(bag: Bag, messages: seq<Message>, played: seq<RowId>, message: Message, id: RowId)
    requires bag.Valid() && Tells(bag, messages, played)
    requires bag.IsRow(id) && bag.PayloadAt(id).Ok? && message == bag.MessageAt(id)
    ensures Tells(bag, messages + [message], played + [id])
  {}

  /** Reading until there is nothing more, or until a row cannot be encoded. However the rows lie in their
      chunks, every message is that of another admitted row still to be played; and with nothing more to
      read, every such row has been played. */
  method ReadAll(reader: Reader) returns (messages: seq<Message>, error: Option<Error>, ghost played: seq<RowId>)
    requires reader.Valid() && reader.bag.Valid()
    modifies reader
    ensures reader.Valid() && reader.filter == old(reader.filter) && Tells(reader.bag, messages, played)
    ensures Accounts(reader.bag, reader.filter, old(reader.Remaining()), reader.Remaining(), played)
    ensures error.None? ==> reader.Remaining() == {}
    ensures error.Some? ==>
              exists id :: && id in reader.Remaining()
                           && (reader.filter == [] || reader.bag.TopicAt(id).name in reader.filter)
                           && reader.bag.PayloadAt(id) == Err(error.value)
  {
    hide Reader.Valid, Reader.Remaining, Reader.View, Step, Bag.Valid, Bag.Ordered, Bag.IsRow, Bag.TopicAt,
        Bag.PayloadAt,
      Bag.MessageAt, Accounts, Tells;
    messages, error, played := [], None, [];
    ghost var start := reader.Remaining();
    AccountsNothing(reader.bag, reader.filter, start);
    assert Tells(reader.bag, [], []) by { TellsNothing(reader.bag); }
    while true
      invariant reader.Valid() && reader.filter == old(reader.filter) && Tells(reader.bag, messages, played)
      invariant error.None? && Accounts(reader.bag, reader.filter, start, reader.Remaining(), played)
      decreases reader.Remaining()
    {
      ghost var left := reader.Remaining();
      var r;
      ghost var id;
      r, id := reader.ReadNext();
      if r.Err? {
        AccountsLess(reader.bag, reader.filter, start, left, played, reader.Remaining());
        error := Some(r.error);
        return;
      }
      if r.value.None? {
        AccountsLess(reader.bag, reader.filter, start, left, played, {});
        return;
      }
      AccountsMore(reader.bag, reader.filter, start, left, played, reader.Remaining(), id);
      TellsMore(reader.bag, messages, played, r.value.value, id);
      messages, played := messages + [r.value.value], played + [id];
    }
  }

  lemma TellsNothing(bag: Bag)
    requires bag.Valid()
    ensures Tells(bag, [], [])
  {}

  /** Some messages are those of some rows, which are all the rows there are, each once. */
  ghost predicate TellsWhole(bag: Bag, messages: seq<Message>, played: seq<RowId>)
    requires bag.Valid()
  {
    && Tells(bag, messages, played)
    && OnceEach(bag, [], bag.AllRows(), played)
    && forall id :: bag.IsRow(id) <==> id in played
  }

  /** A recording all of whose rows can be encoded is played whole, each row once, whether or not its
      rows are in order. */
  method ReadWhole(bag: Bag, footer: Option<ChunkIndexes.Manifest>) returns (messages: seq<Message>)
    requires bag.Valid() && Playable(bag, bag.AllRows())
    requires footer.Some? ==> Footers.Formed(bag) && Footers.Describes(footer.value, bag)
    ensures |messages| == |bag.AllRows()| && exists played :: TellsWhole(bag, messages, played)
  {
    var reader := new Reader.Open(bag, footer);
    var error;
    ghost var played;
    messages, error, played := ReadAll(reader);
    assert error.None?;
    OnceIsCounted(played, bag.AllRows());
    assert TellsWhole(bag, messages, played);
  }

  lemma OnceIsCounted(played: seq<RowId>, rows: set<RowId>)
    requires forall i, j :: 0 <= i < j < |played| ==> played[i] != played[j]
    requires forall id :: id in played <==> id in rows
    ensures |played| == |rows|
    decreases |played|
  {
    if played == [] {
      assert rows == {};
    } else {
      var rest := rows - {played[0]};
      forall id ensures id in played[1..] <==> id in rest {
        if id in rest { assert id in played && id != played[0]; }
      }
      OnceIsCounted(played[1..], rest);
    }
  }

  // ---------------------------------------------------------------- turning around

  /** Reverse playback is the mirror image of forward playback, payloads included. */
  lemma ReverseMirrorsForward(bag: Bag, indexed: bool, filter: seq<string>)
    requires bag.Valid() && bag.Ordered() && Playable(bag, bag.AllRows())
    ensures var forwards, backwards := Cursor(false, filter, Start), Cursor(true, filter, Start);
            var n := |Ahead(bag, forwards)|;
            && Run(bag, indexed, forwards, [SetReverse(true)]).0 == backwards
            && Run(bag, indexed, backwards, Reads(n)).1 == Reversed(Run(bag, indexed, forwards, Reads(n)).1)
  {
    var forwards, backwards := Cursor(false, filter, Start), Cursor(true, filter, Start);
    TurnsAround(bag, indexed, filter);
    hide *;
    OneCall(bag, indexed, forwards, SetReverse(true));
    MirroredReads(bag, indexed, forwards, backwards);
  }

  lemma MirroredReads(bag: Bag, indexed: bool, a: Cursor, b: Cursor)
    requires bag.Valid() && bag.Ordered() && Playable(bag, Ahead(bag, a)) && Playable(bag, Ahead(bag, b))
    requires Upcoming(bag, b) == Reversed(Upcoming(bag, a))
    ensures var n := |Upcoming(bag, a)|;
            Run(bag, indexed, b, Reads(n)).1 == Reversed(Run(bag, indexed, a, Reads(n)).1)
  {
    hide *;
    var there, back := Upcoming(bag, a), Upcoming(bag, b);
    AllPlayable(bag, a);
    AllPlayable(bag, b);
    ReadsDeliver(bag, indexed, a, |there|);
    ReadsDeliver(bag, indexed, b, |back|);
    assert there[..|there|] == there && back[..|back|] == back;
    MirroredMessages(bag, there);
  }

  lemma TurnsAround(bag: Bag, indexed: bool, filter: seq<string>)
    requires bag.Valid() && bag.Ordered() && Playable(bag, bag.AllRows())
    ensures var forwards, backwards := Cursor(false, filter, Start), Cursor(true, filter, Start);
            && Step(bag, indexed, forwards, SetReverse(true)).0 == backwards
            && Upcoming(bag, backwards) == Reversed(Upcoming(bag, forwards))
            && |Upcoming(bag, forwards)| == |Ahead(bag, forwards)|
            && Playable(bag, Ahead(bag, forwards)) && Playable(bag, Ahead(bag, backwards))
  {
    var forwards, backwards := Cursor(false, filter, Start), Cursor(true, filter, Start);
    assert Ahead(bag, forwards) == Ahead(bag, backwards);
    BackwardsMirrors(bag.Keys(), Ahead(bag, forwards));
  }

  lemma MirroredMessages(bag: Bag, ids: seq<RowId>)
    requires bag.Valid()
    ensures Delivered(bag, Reversed(ids)) == Reversed(Delivered(bag, ids))
  {
    hide Reading, Bag.Valid;
    forall i | 0 <= i < |ids| ensures Delivered(bag, Reversed(ids))[i] == Reversed(Delivered(bag, ids))[i] {}
  }
}
