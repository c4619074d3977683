/** A topic's buffer: messages go in, chunks come out (`pipeline.rs`). */
module Pipelines {
  import opened Basics
  import opened Recording
  import opened Forms
  import Cdr

  /** What the decoder makes of one message. After a row it cancels it takes the next one as usual;
      after an unrecoverable failure it takes none, and has lost what it held. */
  datatype Outcome = Decoded(value: Cdr.Value) | Cancelled | Unrecoverable

  datatype Columns = Columns(
    recv: seq<i64>, send: seq<i64>, sequence: seq<int>, blobs: seq<Option<bytes>>, blobRows: nat, decoded: seq<bool>)

  /** The columns a batch fills. */
  function ColumnsOf(keepRaw: bool, entries: seq<Entry>): Columns {
    Columns(
      seq(|entries|, i requires 0 <= i < |entries| => entries[i].recv),
      seq(|entries|, i requires 0 <= i < |entries| => entries[i].send),
      seq(|entries|, i requires 0 <= i < |entries| => entries[i].sequence),
      BlobColumn(keepRaw, entries),
      |Compact(BlobColumn(keepRaw, entries))|,
      seq(|entries|, i requires 0 <= i < |entries| => entries[i].value.Some?))
  }

  /** What has arrived and not left, a row for each message. */
  class Rows {
    var recv: seq<i64>
    var send: seq<i64>
    var sequence: seq<int>
    var blobs: seq<Option<bytes>>
    var blobRows: nat

    /** For each row, whether it was decoded. */
    var decoded: seq<bool>

    constructor ()
      ensures Contents() == Columns([], [], [], [], 0, [])
    {
      recv, send, sequence, blobs, blobRows, decoded := [], [], [], [], 0, [];
    }

    function Contents(): Columns
      reads this
    {
      Columns(recv, send, sequence, blobs, blobRows, decoded)
    }

    /** One more row at the end of every column; `blob` is null where no bytes are to be kept. */
    method Push(blob: Option<bytes>, decoded: bool, recv: i64, send: i64, sequence: int)
      modifies this
      ensures var before := old(Contents());
              Contents() == Columns(before.recv + [recv], before.send + [send], before.sequence + [sequence],
                                    before.blobs + [blob], before.blobRows + if blob.Some? then 1 else 0,
                                    before.decoded + [decoded])
    {
      this.recv, this.send, this.sequence := this.recv + [recv], this.send + [send], this.sequence + [sequence];
      this.decoded := this.decoded + [decoded];
      blobs := blobs + [blob];
      if blob.Some? { blobRows := blobRows + 1; }
    }

    /** Hands the rows over, leaving none. */
    method Drain() returns (columns: Columns)
      modifies this
      ensures columns == old(Contents()) && Contents() == Columns([], [], [], [], 0, [])
    {
      columns := Contents();
      recv, send, sequence, blobs, blobRows, decoded := [], [], [], [], 0, [];
    }
  }

  /** One more message fills one more row of every column. */
  lemma ColumnsAppend(keepRaw: bool, entries: seq<Entry>, entry: Entry)
    ensures var before, blob := ColumnsOf(keepRaw, entries), Blob(keepRaw, entry);
            ColumnsOf(keepRaw, entries + [entry]) ==
              Columns(before.recv + [entry.recv], before.send + [entry.send], before.sequence + [entry.sequence],
                      before.blobs + [blob], before.blobRows + if blob.Some? then 1 else 0,
                      before.decoded + [entry.value.Some?])
  {
    assert BlobColumn(keepRaw, entries + [entry]) == BlobColumn(keepRaw, entries) + [Blob(keepRaw, entry)];
    CompactAppends(BlobColumn(keepRaw, entries), Blob(keepRaw, entry));
  }

  lemma ValuesAppend(entries: seq<Entry>, entry: Entry)
    ensures Compact(ValueColumn(entries + [entry]))
         == Compact(ValueColumn(entries)) + if entry.value.Some? then [entry.value.value] else []
  {
    assert ValueColumn(entries + [entry]) == ValueColumn(entries) + [entry.value];
    CompactAppends(ValueColumn(entries), entry.value);
  }

  /** The decoder holds one dense row per row marked decoded. */
  lemma {:induction false} DecodedCounts<T>(sparse: seq<Option<T>>, flags: seq<bool>)
    requires |flags| == |sparse| && forall i :: 0 <= i < |sparse| ==> flags[i] == sparse[i].Some?
    ensures CountTrue(flags) == |Compact(sparse)|
  {
    if sparse != [] { DecodedCounts(sparse[1..], flags[1..]); }
  }

  lemma NoColumns(keepRaw: bool)
    ensures ColumnsOf(keepRaw, []) == Columns([], [], [], [], 0, [])
    ensures Compact(ValueColumn([])) == [] && Size([]) == 0
  {
    assert BlobColumn(keepRaw, []) == [] && ValueColumn([]) == [];
  }

  lemma SizeAppends(entries: seq<Entry>, entry: Entry)
    ensures Size(entries + [entry]) == Size(entries) + |entry.cdr|
  {
    assert (entries + [entry])[..|entries|] == entries;
  }

  lemma SentAsAsked(slot: Slot, live: bool, entries: seq<Entry>)
    ensures forall asked, unmatched ::
              slot == Slot(slot.info, Raw in asked, LensesFor(asked, unmatched), slot.matched) ==>
              Sends(asked, unmatched, slot.info, slot.matched, live, entries,
                    if entries == [] then [] else Forwarded(slot, ChunkOf(slot, live, entries)))
  {
    forall asked, unmatched | slot == Slot(slot.info, Raw in asked, LensesFor(asked, unmatched), slot.matched)
      ensures Sends(asked, unmatched, slot.info, slot.matched, live, entries,
                    if entries == [] then [] else Forwarded(slot, ChunkOf(slot, live, entries)))
    {
      if entries != [] { ForwardsAsAsked(asked, unmatched, slot.info, slot.matched, live, entries); }
    }
  }

  class Pipeline {
    const slot: Slot

    /** The dense rows of the decoder, while there is one: it may never have been wanted or possible, and
        it may have died. */
    var decoder: Option<seq<Cdr.Value>>
    const rows: Rows
    var bytes: nat

    /** The messages buffered, in arrival order. */
    ghost var buffered: seq<Entry>

    ghost predicate Valid()
      reads this, rows
    {
      && rows.Contents() == ColumnsOf(slot.keepRaw, buffered)
      && bytes == Size(buffered)
      && Covered(slot, decoder.Some?, buffered)
      && (decoder.Some? ==> decoder.value == Compact(ValueColumn(buffered)))
      && (decoder.Some? ==> slot.info.reflects && slot.info.plan.Some?)
      && (forall i :: 0 <= i < |buffered| ==> Plausible(slot, buffered[i]))
    }

    constructor (slot: Slot, reflected: bool)
      requires reflected ==> slot.info.reflects && slot.info.plan.Some?
      ensures Valid() && this.slot == slot && buffered == [] && fresh(rows) && decoder.Some? == reflected
    {
      this.slot := slot;
      decoder := if reflected then Some([]) else None;
      rows := new Rows();
      bytes, buffered := 0, [];
      new;
      NoColumns(slot.keepRaw);
    }

    function Len(): nat
      reads rows
    {
      |rows.recv|
    }

    /** The rows lost when a message arrives: those held without raw copies by a decoder that fails
        unrecoverably on it. */
    ghost function Casualties(outcome: Outcome): seq<Entry>
      reads this
    {
      if decoder.Some? && outcome.Unrecoverable? && !slot.keepRaw then buffered else []
    }

    ghost function Arrival(cdr: bytes, recv: i64, send: i64, sequence: int, outcome: Outcome, now: nat): Entry
      reads this
    {
      Entry(recv, send, sequence, cdr, if decoder.Some? && outcome.Decoded? then Some(outcome.value) else None, now)
    }

    /** Takes in one message: through the decoder if there is one, and into a row with what that leaves. */
    method Push(cdr: Basics.bytes, recv: i64, send: i64, sequence: int, outcome: Outcome, ghost now: nat)
      requires Valid()
      requires decoder.Some? && outcome.Decoded? ==>
                 Cdr.WellTyped(slot.info.plan.value, Cdr.MessageLayout(Cdr.ROOT_ID), outcome.value)
      modifies this, rows
      ensures Valid()
      ensures decoder.Some? <==> old(decoder).Some? && !outcome.Unrecoverable?
      ensures var kept := if old(Casualties(outcome)) != [] then [] else old(buffered);
              buffered == kept + [old(Arrival(cdr, recv, send, sequence, outcome, now))]
    {
      ghost var entry := Arrival(cdr, recv, send, sequence, outcome, now);
      NoColumns(slot.keepRaw);
      hide ColumnsOf, ValueColumn, BlobColumn, Compact, Size, Cdr.WellTyped;
      var decoded := false;
      if decoder.Some? {
        match outcome {
          case Decoded(value) =>
            ValuesAppend(buffered, entry);
            decoder := Some(decoder.value + [value]);
            decoded := true;
          case Cancelled =>
            ValuesAppend(buffered, entry);
          case Unrecoverable =>
            decoder := None;
            if !slot.keepRaw {
              bytes := 0;
              var _ := rows.Drain();
              buffered := [];
            }
        }
      }

      var blob := if slot.keepRaw || !decoded then Some(cdr) else None;
      ColumnsAppend(slot.keepRaw, buffered, entry);
      rows.Push(blob, decoded, recv, send, sequence);
      bytes := bytes + |cdr|;
      SizeAppends(buffered, entry);
      buffered := buffered + [entry];
    }

    /** Empties the buffer into a chunk. There is no chunk of no rows. */
    method Take() returns (r: Option<Chunk>)
      requires Valid()
      modifies this, rows
      ensures Valid() && buffered == [] && decoder.Some? == old(decoder).Some?
      ensures r == if old(buffered) == [] then None else Some(ChunkOf(slot, old(decoder).Some?, old(buffered)))
    {
      if Len() == 0 { return None; }
      ghost var entries := buffered;
      var columns := rows.Drain();
      bytes, buffered := 0, [];

      var blobs := if columns.blobRows > 0 then Some(columns.blobs) else None;
      var structs: Option<seq<Option<Cdr.Value>>> := None;
      if decoder.Some? {
        var dense := decoder.value;
        decoder := Some([]);
        if dense != [] {
          DecodedCounts(ValueColumn(entries), columns.decoded);
          var sparse := Scatter(dense, columns.decoded);
          SparseIsDetermined(sparse, ValueColumn(entries));
          structs := Some(sparse);
        }
      }
      NoColumns(slot.keepRaw);
      r := Some(Chunk(slot.info.name, false, |columns.recv|, Some(columns.recv), Some(columns.send),
                      Some(columns.sequence), blobs, structs, map[]));
    }

    /** Empties the buffer, through the lenses. */
    method Flush() returns (chunks: seq<Chunk>)
      requires Valid()
      modifies this, rows
      ensures Valid() && buffered == [] && decoder.Some? == old(decoder).Some?
      ensures chunks ==
                if old(buffered) == [] then [] else Forwarded(slot, ChunkOf(slot, old(decoder).Some?, old(buffered)))
      // Whatever was asked for, if the slot is as that has it:
      ensures forall asked, unmatched ::
                slot == Slot(slot.info, Raw in asked, LensesFor(asked, unmatched), slot.matched) ==>
                Sends(asked, unmatched, slot.info, slot.matched, old(decoder).Some?, old(buffered), chunks)
    {
      hide ChunkOf, Derivation;
      SentAsAsked(slot, decoder.Some?, buffered);
      var taken := Take();
      chunks := if taken.Some? then Forwarded(slot, taken.value) else [];
    }
  }
}
