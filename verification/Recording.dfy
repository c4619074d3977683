/**
 A recording as the reader finds it: messages carrying chunks, and the topics they belong to.

 Rows are named by where they lie in the file, so that "exactly once" can be said of rows
 rather than of whatever they hold.
 */
module Recording {
  import opened Basics
  import opened Ordering
  import Cdr

  type Entity = string

  /** Columns of equal length. `structs` is the column under the topic's own reflected
      component; anything else, lens output included, is `derived`, of which only the rows it
      fills matter. */
  datatype Chunk = Chunk(
    entity: Entity,
    isStatic: bool,
    numRows: nat,
    recv: Option<seq<i64>>,
    send: Option<seq<i64>>,
    sequence: Option<seq<int>>,
    blobs: Option<seq<Option<bytes>>>,
    structs: Option<seq<Option<Cdr.Value>>>,
    derived: map<string, seq<bool>>)
  {
    predicate WellFormed() {
      && (recv.Some? ==> |recv.value| == numRows)
      && (send.Some? ==> |send.value| == numRows)
      && (sequence.Some? ==> |sequence.value| == numRows)
      && (blobs.Some? ==> |blobs.value| == numRows)
      && (structs.Some? ==> |structs.value| == numRows)
      && forall name :: name in derived ==> |derived[name]| == numRows
    }

    function RecvTimes(): seq<i64> { if recv.Some? then recv.value else [] }

    function SendTimes(): seq<i64> { if send.Some? then send.value else RecvTimes() }

    function SequenceNumbers(): seq<int> { if sequence.Some? then sequence.value else [] }

    function Key(row: nat): SortKey
      requires row < |RecvTimes()|
    {
      SortKey(RecvTimes()[row], if row < |SequenceNumbers()| then SequenceNumbers()[row] else 0)
    }

    function Send(row: nat): i64
      requires row < |RecvTimes()|
    {
      if row < |SendTimes()| then SendTimes()[row] else RecvTimes()[row]
    }
  }

  datatype LogMsg = Other | Data(chunk: Chunk)

  /** `reflects` says whether the type has a struct component of its own; `plan`, if there is one, how
      its structs are laid out. */
  datatype TopicInfo = TopicInfo(name: string, reflects: bool, plan: Option<Cdr.Plan>)

  datatype Message = Message(topic: string, recv: int, send: int, data: bytes)

  datatype RowId = RowId(chunk: nat, row: nat)

  /** Whether a chunk has a column of either form a message can be replayed from. */
  predicate HoldsMessages(info: TopicInfo, chunk: Chunk) {
    chunk.blobs.Some? || (info.reflects && chunk.structs.Some?)
  }

  /** The bytes a row comes to: its own if it has any, and those of its struct if not. */
  function Payload(info: TopicInfo, chunk: Chunk, row: nat): Result<bytes>
    requires chunk.WellFormed() && row < chunk.numRows
  {
    if chunk.blobs.Some? && chunk.blobs.value[row].Some? then Ok(chunk.blobs.value[row].value)
    else if !(info.reflects && chunk.structs.Some?) then Err(NoForm)
    else if info.plan.None? then Err(NoPlan)
    else if chunk.structs.value[row].None? then Err(NoForm)
    else Cdr.EncodeRow(info.plan.value, chunk.structs.value[row].value)
  }

  datatype Bag = Bag(file: seq<LogMsg>, topics: seq<TopicInfo>, topicIndex: map<Entity, nat>) {
    ghost predicate Valid() {
      && (forall entity :: entity in topicIndex ==> topicIndex[entity] < |topics|)
      && (forall c :: 0 <= c < |file| && file[c].Data? ==> file[c].chunk.WellFormed())
    }

    /** Whether message `c` of the file is data on a topic's entity. */
    predicate OnTopic(c: nat) {
      && c < |file|
      && file[c].Data?
      && file[c].chunk.entity in topicIndex
      && topicIndex[file[c].chunk.entity] < |topics|
    }

    function Topic(c: nat): nat
      requires OnTopic(c)
    {
      topicIndex[file[c].chunk.entity]
    }

    /** A chunk of rows to replay, rather than static data, lens output or a stranger's. */
    predicate IsMessageChunk(c: nat) {
      && OnTopic(c)
      && !file[c].chunk.isStatic
      && HoldsMessages(topics[Topic(c)], file[c].chunk)
    }

    /** How many rows the reader plays out of chunk `c`. */
    function RowCount(c: nat): nat {
      if IsMessageChunk(c) then |file[c].chunk.RecvTimes()| else 0
    }

    predicate IsRow(id: RowId) {
      id.row < RowCount(id.chunk)
    }

    /** The rows of the first chunks. */
    ghost function RowsBefore(c: nat): (rows: set<RowId>)
      ensures forall id :: id in rows <==> id.chunk < c && IsRow(id)
    {
      set b: nat, i: nat | b < c && i < RowCount(b) :: RowId(b, i)
    }

    /** Every row there is to replay. */
    ghost function AllRows(): (rows: set<RowId>)
      ensures forall id :: id in rows <==> IsRow(id)
    {
      RowsBefore(|file|)
    }

    ghost function KeyAt(id: RowId): SortKey
      requires IsRow(id)
    {
      file[id.chunk].chunk.Key(id.row)
    }

    ghost function Keys(): map<RowId, SortKey> {
      map id | id in AllRows() :: KeyAt(id)
    }

    ghost function TopicAt(id: RowId): TopicInfo
      requires IsRow(id)
    {
      topics[Topic(id.chunk)]
    }

    ghost function PayloadAt(id: RowId): Result<bytes>
      requires Valid() && IsRow(id)
    {
      Payload(TopicAt(id), file[id.chunk].chunk, id.row)
    }

    ghost function MessageAt(id: RowId): Message
      requires Valid() && IsRow(id) && PayloadAt(id).Ok?
    {
      var chunk := file[id.chunk].chunk;
      Message(TopicAt(id).name, chunk.RecvTimes()[id.row], chunk.Send(id.row), PayloadAt(id).value)
    }

    /** What ordered playback needs of a recording, and the writer provides: receive times clear
        of the sentinels, no two rows with one key, and the rows of a chunk in key order. */
    ghost predicate Ordered() {
      && Distinct(Keys())
      && (forall id :: IsRow(id) ==> I64_MIN < KeyAt(id).recv < I64_MAX)
      && (forall a, b :: IsRow(a) && IsRow(b) && a.chunk == b.chunk && a.row < b.row
            ==> KeyLess(KeyAt(a), KeyAt(b)))
    }
  }

  /** What a row of a chunk with receive times has in each column. Where a column is missing, the row was sent
      when it was received, and is number zero. */
  lemma RowByColumns(chunk: Chunk, row: nat)
    requires chunk.WellFormed() && chunk.recv.Some? && row < chunk.numRows
    ensures chunk.Key(row).recv == chunk.recv.value[row]
    ensures chunk.Key(row).sequence == if chunk.sequence.Some? then chunk.sequence.value[row] else 0
    ensures chunk.Send(row) == if chunk.send.Some? then chunk.send.value[row] else chunk.recv.value[row]
  {}

  /** Whether a filter admits a topic. The empty one admits all. */
  predicate Wanted(filter: seq<string>, info: TopicInfo) {
    filter == [] || info.name in filter
  }
}
