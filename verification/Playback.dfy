/**
 What playback means, apart from how it is done: a cursor over one list of rows in
 `(recv, sequence)` order. The reader refines this machine call by call; the theorems about
 whole runs of calls are proved of it in `PlaybackRuns`.
 */
module Playback {
  import opened Basics
  import opened Ordering
  import opened Recording

  /** How much of the list is behind the cursor. */
  datatype Boundary =
    | Start                  // nothing
    | From(time: int)        // whatever lies before a seek target
    | After(key: SortKey)    // everything up to and including a row
    | Before(key: SortKey)   // everything up to and excluding a row
    | End                    // everything

  predicate Beyond(boundary: Boundary, reverse: bool, key: SortKey) {
    match boundary
    case Start => true
    case From(time) => if reverse then key.recv <= time else key.recv >= time
    case After(last) => Precedes(reverse, last, key)
    case Before(next) => !Precedes(reverse, key, next)
    case End => false
  }

  datatype Cursor = Cursor(reverse: bool, filter: seq<string>, boundary: Boundary)

  /** The rows still to be delivered. */
  ghost function Ahead(bag: Bag, cursor: Cursor): (rows: set<RowId>)
    ensures rows <= bag.Keys().Keys
  {
    set id | id in bag.AllRows()
             && Wanted(cursor.filter, bag.TopicAt(id))
             && Beyond(cursor.boundary, cursor.reverse, bag.KeyAt(id))
  }

  // ---------------------------------------------------------------- the machine

  datatype Call =
    | ReadNext
    | Seek(time: i64)
    | SetFilter(filter: seq<string>)
    | SetReverse(reverse: bool)

  datatype Response = Got(message: Message) | Exhausted | Failed(error: Error) | Done

  /** What rosbag2 is promised: a cursor that only moves past what it delivers. */
  ghost function PromisedStep(bag: Bag, cursor: Cursor, call: Call): (Cursor, Response)
    requires bag.Valid() && bag.Ordered()
  {
    match call
    case ReadNext =>
      var ahead := Ahead(bag, cursor);
      if ahead == {} then (cursor, Exhausted)
      else
        var first := First(bag.Keys(), cursor.reverse, ahead);
        if bag.PayloadAt(first).Err? then (cursor, Failed(bag.PayloadAt(first).error))
        else (cursor.(boundary := After(bag.KeyAt(first))), Got(bag.MessageAt(first)))
    case Seek(time) => (cursor.(boundary := From(time)), Done)
    case SetFilter(filter) => (cursor.(filter := filter), Done)
    case SetReverse(reverse) =>
      (if reverse == cursor.reverse then cursor else cursor.(reverse := reverse, boundary := Start), Done)
  }

  /** What the reader does. With a footer it departs from the promise in one place: a changed
      filter takes a seek to the lowest time for a fresh start. Without one, the rows a read
      passes over are behind it even when it delivers nothing. */
  ghost function Step(bag: Bag, indexed: bool, cursor: Cursor, call: Call): (Cursor, Response)
    requires bag.Valid() && bag.Ordered()
  {
    var (next, response) := PromisedStep(bag, cursor, call);
    if indexed then
      if call.SetFilter? && call.filter != cursor.filter && cursor.boundary == From(I64_MIN)
      then (next.(boundary := Start), response)
      else (next, response)
    else
      match response
      case Exhausted => (next.(boundary := End), response)
      case Failed(_) => (next.(boundary := Before(bag.KeyAt(First(bag.Keys(), cursor.reverse, Ahead(bag, cursor))))),
                         response)
      case _ => (next, response)
  }
}
