/**
 What a recording keeps of each message (`pipeline.rs`): the rows a topic buffers, the chunk they
 are taken out as, and what the lenses let through of it.
 */
module Forms {
  import opened Basics
  import opened Recording
  import Cdr

  datatype Representation = Raw | Reflected | Lenses

  datatype Unmatched = Keep | Drop

  datatype OutputMode = ForwardAll | ForwardUnmatched | DropUnmatched

  /** A topic's settings, which never change. `lenses` is `None` for a recording without them;
      `matched` says whether one takes this topic's type. */
  datatype Slot = Slot(info: TopicInfo, keepRaw: bool, lenses: Option<OutputMode>, matched: bool)

  /** One message as it arrived: `value` is what the decoder made of it, if it decoded it, and
      `arrived` is when. */
  datatype Entry = Entry(recv: i64, send: i64, sequence: int, cdr: bytes, value: Option<Cdr.Value>, arrived: nat)

  // ---------------------------------------------------------------- dense and sparse

  function Compact<T>(sparse: seq<Option<T>>): seq<T> {
    if sparse == [] then []
    else (if sparse[0].Some? then [sparse[0].value] else []) + Compact(sparse[1..])
  }

  function CountTrue(flags: seq<bool>): nat {
    if flags == [] then 0 else (if flags[0] then 1 else 0) + CountTrue(flags[1..])
  }

  lemma {:induction false} CompactAppends<T>(sparse: seq<Option<T>>, last: Option<T>)
    ensures Compact(sparse + [last]) == Compact(sparse) + if last.Some? then [last.value] else []
  {
    if sparse == [] {
      assert sparse + [last] == [last];
    } else {
      CompactAppends(sparse[1..], last);
      assert (sparse + [last])[1..] == sparse[1..] + [last];
    }
  }

  lemma {:induction false} CountAppends(flags: seq<bool>, last: bool)
    ensures CountTrue(flags + [last]) == CountTrue(flags) + if last then 1 else 0
  {
    if flags == [] {
      assert flags + [last] == [last];
    } else {
      CountAppends(flags[1..], last);
      assert (flags + [last])[1..] == flags[1..] + [last];
    }
  }

  /** A sparse column is its flags and its dense values. */
  lemma {:induction false} SparseIsDetermined<T>(a: seq<Option<T>>, b: seq<Option<T>>)
    requires |a| == |b| && forall i :: 0 <= i < |a| ==> a[i].Some? == b[i].Some?
    requires Compact(a) == Compact(b)
    ensures a == b
  {
    if a != [] {
      if a[0].Some? {
        assert Compact(a)[0] == a[0].value && Compact(b)[0] == b[0].value;
        assert Compact(a)[1..] == Compact(a[1..]) && Compact(b)[1..] == Compact(b[1..]);
      } else {
        assert Compact(a) == Compact(a[1..]) && Compact(b) == Compact(b[1..]);
      }
      SparseIsDetermined(a[1..], b[1..]);
      assert a == [a[0]] + a[1..] && b == [b[0]] + b[1..];
    }
  }

  /** Spreads a dense column out again, with a null wherever the decoder holds nothing. */
  method Scatter<T>(dense: seq<T>, decoded: seq<bool>) returns (sparse: seq<Option<T>>)
    requires |dense| == CountTrue(decoded)
    ensures |sparse| == |decoded| && forall i :: 0 <= i < |decoded| ==> sparse[i].Some? == decoded[i]
    ensures Compact(sparse) == dense
  {
    if forall i :: 0 <= i < |decoded| ==> decoded[i] {
      sparse := AllPresent(dense, decoded);
      return;
    }

    var indices: seq<Option<nat>> := [];
    var next := 0;
    var i := 0;
    assert decoded[..0] == [];
    while i < |decoded|
      invariant |indices| == i <= |decoded| && next == CountTrue(decoded[..i]) <= |dense|
      invariant forall k :: 0 <= k < i
                    ==> indices[k].Some? == decoded[k] && (indices[k].Some? ==> indices[k].value < |dense|)
      invariant Compact(Gather(dense, indices)) == dense[..next]
    {
      assert decoded[..i + 1] == decoded[..i] + [decoded[i]];
      CountAppends(decoded[..i], decoded[i]);
      CountPrefix(decoded, i + 1);
      var index := if decoded[i] then Some(next) else None;
      GatherAppends(dense, indices, index);
      indices := indices + [index];
      if decoded[i] { next := next + 1; }
      i := i + 1;
    }
    assert decoded[..i] == decoded && dense[..next] == dense;
    sparse := Gather(dense, indices);
  }

  /** The dense values at some indices, null where there is none. */
  function Gather<T>(dense: seq<T>, indices: seq<Option<nat>>): seq<Option<T>> {
    seq(|indices|, k requires 0 <= k < |indices| =>
      if indices[k].Some? && indices[k].value < |dense| then Some(dense[indices[k].value]) else None)
  }

  lemma GatherAppends<T>(dense: seq<T>, indices: seq<Option<nat>>, index: Option<nat>)
    requires index.Some? ==> index.value < |dense|
    ensures Compact(Gather(dense, indices + [index]))
         == Compact(Gather(dense, indices)) + if index.Some? then [dense[index.value]] else []
  {
    var value := if index.Some? then Some(dense[index.value]) else None;
    assert Gather(dense, indices + [index]) == Gather(dense, indices) + [value];
    CompactAppends(Gather(dense, indices), value);
  }

  method AllPresent<T>(dense: seq<T>, decoded: seq<bool>) returns (sparse: seq<Option<T>>)
    requires |dense| == CountTrue(decoded) && forall i :: 0 <= i < |decoded| ==> decoded[i]
    ensures |sparse| == |decoded| && forall i :: 0 <= i < |decoded| ==> sparse[i].Some?
    ensures Compact(sparse) == dense
  {
    AllTrue(decoded);
    sparse := seq(|dense|, i requires 0 <= i < |dense| => Some(dense[i]));
    CompactOfPresent(dense, sparse);
  }

  lemma {:induction false} AllTrue(flags: seq<bool>)
    requires forall i :: 0 <= i < |flags| ==> flags[i]
    ensures CountTrue(flags) == |flags|
  {
    if flags != [] { AllTrue(flags[1..]); }
  }

  lemma {:induction false} CompactOfPresent<T>(dense: seq<T>, sparse: seq<Option<T>>)
    requires |sparse| == |dense| && forall i :: 0 <= i < |dense| ==> sparse[i] == Some(dense[i])
    ensures Compact(sparse) == dense
  {
    if dense != [] {
      CompactOfPresent(dense[1..], sparse[1..]);
      assert dense == [dense[0]] + dense[1..];
    }
  }

  lemma {:induction false} CountPrefix(flags: seq<bool>, n: nat)
    requires n <= |flags|
    ensures CountTrue(flags[..n]) <= CountTrue(flags)
  {
    if n > 0 {
      CountPrefix(flags[1..], n - 1);
      assert flags[..n][1..] == flags[1..][..n - 1];
    }
  }

  // ---------------------------------------------------------------- rows and chunks

  function Blob(keepRaw: bool, entry: Entry): Option<bytes> {
    if keepRaw || entry.value.None? then Some(entry.cdr) else None
  }

  function BlobColumn(keepRaw: bool, entries: seq<Entry>): seq<Option<bytes>> {
    seq(|entries|, i requires 0 <= i < |entries| => Blob(keepRaw, entries[i]))
  }

  function ValueColumn(entries: seq<Entry>): seq<Option<Cdr.Value>> {
    seq(|entries|, i requires 0 <= i < |entries| => entries[i].value)
  }

  function Size(entries: seq<Entry>): nat {
    if entries == [] then 0 else Size(entries[..|entries| - 1]) + |entries[|entries| - 1].cdr|
  }

  /** The bytes of some rows are those of each of them, added up. */
  lemma {:induction false} SizeAdds(entry: Entry, a: seq<Entry>, b: seq<Entry>)
    ensures Size([]) == 0 && Size([entry]) == |entry.cdr| && Size(a + b) == Size(a) + Size(b)
  {
    assert Size([entry]) == Size([entry][..0]) + |entry.cdr|;
    if b == [] {
      assert a + b == a;
    } else {
      var last := |b| - 1;
      SizeAdds(entry, a, b[..last]);
      assert (a + b)[..|a| + last] == a + b[..last];
    }
  }

  /** The chunk a batch of rows is taken out as, while the decoder lives or after. A column no row
      fills is left out. */
  function ChunkOf(slot: Slot, live: bool, entries: seq<Entry>): Chunk {
    Chunk(
      slot.info.name, false, |entries|,
      Some(seq(|entries|, i requires 0 <= i < |entries| => entries[i].recv)),
      Some(seq(|entries|, i requires 0 <= i < |entries| => entries[i].send)),
      Some(seq(|entries|, i requires 0 <= i < |entries| => entries[i].sequence)),
      if Compact(BlobColumn(slot.keepRaw, entries)) != [] then Some(BlobColumn(slot.keepRaw, entries)) else None,
      if live && Compact(ValueColumn(entries)) != [] then Some(ValueColumn(entries)) else None,
      map[])
  }

  /** What the lenses make of the struct column, row by row. */
  function Derivation(chunk: Chunk): map<string, seq<bool>> {
    if chunk.structs.None? then map[]
    else map["derived" := seq(|chunk.structs.value|,
                              i requires 0 <= i < |chunk.structs.value| => chunk.structs.value[i].Some?)]
  }

  /** What of a chunk is sent on. Without lenses, all of it; with them, the struct column survives
      if it was asked for or no lens took it, and the blob column in every mode but the dropping one. */
  function Forwarded(slot: Slot, chunk: Chunk): seq<Chunk> {
    if slot.lenses.None? then [chunk]
    else
      var takes := slot.matched && chunk.structs.Some?;
      var derived := if takes then Derivation(chunk) else map[];
      match slot.lenses.value
      case ForwardAll => [chunk.(derived := derived)]
      case ForwardUnmatched => [chunk.(derived := derived, structs := if takes then None else chunk.structs)]
      case DropUnmatched => if takes then [chunk.(derived := derived, structs := None, blobs := None)] else []
  }

  /** The bytes a row is to replay as: its own where they were kept, its struct's otherwise. */
  function Replayed(slot: Slot, entry: Entry): Result<bytes> {
    if slot.keepRaw || entry.value.None? then Ok(entry.cdr)
    else if slot.info.plan.None? then Err(NoPlan)
    else Cdr.EncodeRow(slot.info.plan.value, entry.value.value)
  }

  /** What a decoder for the topic can have produced. */
  predicate Plausible(slot: Slot, entry: Entry) {
    entry.value.Some? ==>
      && slot.info.reflects && slot.info.plan.Some?
      && Cdr.WellTyped(slot.info.plan.value, Cdr.MessageLayout(Cdr.ROOT_ID), entry.value.value)
  }

  /** Every row buffered has its bytes or is in a live decoder. */
  predicate Covered(slot: Slot, live: bool, entries: seq<Entry>) {
    live || slot.keepRaw || forall i :: 0 <= i < |entries| ==> entries[i].value.None?
  }

  lemma {:induction false} CompactNonEmpty<T>(sparse: seq<Option<T>>, i: nat)
    requires i < |sparse| && sparse[i].Some?
    ensures Compact(sparse) != []
  {
    if i > 0 { CompactNonEmpty(sparse[1..], i - 1); }
  }

  /** Every row of the chunk a batch is taken out as has a form, and replays as promised. */
  lemma EveryRowHasAForm(slot: Slot, live: bool, entries: seq<Entry>, i: nat)
    requires Covered(slot, live, entries) && i < |entries| && Plausible(slot, entries[i])
    ensures var chunk := ChunkOf(slot, live, entries);
            && (|| (chunk.blobs.Some? && chunk.blobs.value[i].Some?)
                || (chunk.structs.Some? && chunk.structs.value[i].Some?))
            && HoldsMessages(slot.info, chunk)
            && Payload(slot.info, chunk, i) == Replayed(slot, entries[i])
            && Payload(slot.info, chunk, i).Ok?
  {
    if Blob(slot.keepRaw, entries[i]).Some? {
      CompactNonEmpty(BlobColumn(slot.keepRaw, entries), i);
    } else {
      CompactNonEmpty(ValueColumn(entries), i);
    }
  }

  // ---------------------------------------------------------------- what survives the lenses

  /** The modes a recording's configuration leads to. */
  function LensesFor(asked: set<Representation>, unmatched: Unmatched): Option<OutputMode> {
    if Lenses !in asked then None
    else if Reflected in asked then Some(ForwardAll)
    else if unmatched.Keep? then Some(ForwardUnmatched)
    else Some(DropUnmatched)
  }

  /** The forms a topic says it keeps of its messages. */
  function Stored(asked: set<Representation>, reflected: bool, lenses: Option<OutputMode>, matched: bool)
    : set<Representation>
  {
    if !reflected then {Raw}
    else
      (if Raw in asked then {Raw} else {})
      + (if Reflected in asked then {Reflected} else {})
      + (if lenses.None? then {}
         else if matched then {Lenses}
         else if lenses.value != DropUnmatched then {Reflected}
         else {})
  }

  /** Whether a topic says that it can be played back. */
  predicate IsReplayable(stored: set<Representation>) {
    Raw in stored || Reflected in stored
  }

  /** What leaves of a batch, said of its rows and of what was asked for. There are structs while a live
      decoder holds a row. Lenses take them if one matches the topic, and then each row has a derived flag,
      set if it was decoded; otherwise nothing is derived. Structs that are there for the lenses alone go
      no further once a lens has taken them. Where what no lens takes is dropped, nothing leaves that was
      not taken, and no bytes do. Otherwise each row keeps the bytes it was asked or is left to keep. */
  ghost predicate Sends(asked: set<Representation>, unmatched: Unmatched, info: TopicInfo, matched: bool,
                        live: bool, entries: seq<Entry>, chunks: seq<Chunk>)
  {
    var holding := live && exists i :: 0 <= i < |entries| && entries[i].value.Some?;
    var taken := Lenses in asked && matched && holding;
    var lensesAlone := Lenses in asked && Reflected !in asked;
    var dropping := lensesAlone && unmatched.Drop?;
    if entries == [] || (dropping && !taken) then chunks == []
    else
      && |chunks| == 1
      && var chunk := chunks[0];
      && chunk.entity == info.name && !chunk.isStatic && chunk.numRows == |entries|
      && chunk.WellFormed()
      && chunk.recv.Some? && chunk.send.Some? && chunk.sequence.Some?
      && (forall i :: 0 <= i < |entries| ==>
            && chunk.recv.value[i] == entries[i].recv
            && chunk.send.value[i] == entries[i].send
            && chunk.sequence.value[i] == entries[i].sequence)
      && (chunk.structs.Some? <==> holding && !(taken && lensesAlone))
      && (chunk.structs.Some? ==> forall i :: 0 <= i < |entries| ==> chunk.structs.value[i] == entries[i].value)
      && (chunk.blobs.Some? <==>
            !dropping && (Raw in asked || exists i :: 0 <= i < |entries| && entries[i].value.None?))
      && (chunk.blobs.Some? ==> forall i :: 0 <= i < |entries| ==>
            chunk.blobs.value[i] == if Raw in asked || entries[i].value.None? then Some(entries[i].cdr) else None)
      && chunk.derived.Keys == (if taken then {"derived"} else {})
      && (taken ==> forall i :: 0 <= i < |entries| ==> chunk.derived["derived"][i] == entries[i].value.Some?)
  }

  lemma {:induction false} CompactFills<T>(sparse: seq<Option<T>>)
    ensures Compact(sparse) != [] <==> exists i :: 0 <= i < |sparse| && sparse[i].Some?
  {
    if sparse != [] {
      CompactFills(sparse[1..]);
      if Compact(sparse[1..]) != [] {
        var i :| 0 <= i < |sparse[1..]| && sparse[1..][i].Some?;
        assert sparse[i + 1].Some?;
      }
    }
  }

  /** A column of a chunk is there if some row fills it. */
  lemma ColumnsFill(keepRaw: bool, entries: seq<Entry>)
    ensures Compact(ValueColumn(entries)) != [] <==> exists i :: 0 <= i < |entries| && entries[i].value.Some?
    ensures entries != [] ==>
              (Compact(BlobColumn(keepRaw, entries)) != []
               <==> keepRaw || exists i :: 0 <= i < |entries| && entries[i].value.None?)
  {
    CompactFills(ValueColumn(entries));
    CompactFills(BlobColumn(keepRaw, entries));
    hide Compact;
    var values, blobs := ValueColumn(entries), BlobColumn(keepRaw, entries);
    assert forall i :: 0 <= i < |entries| ==> values[i] == entries[i].value;
    assert forall i :: 0 <= i < |entries| ==> (blobs[i].Some? <==> keepRaw || entries[i].value.None?);
    if entries != [] && keepRaw { assert blobs[0].Some?; }
  }

  /** The lenses do that in every configuration. */
  lemma ForwardsAsAsked(asked: set<Representation>, unmatched: Unmatched, info: TopicInfo, matched: bool,
                        live: bool, entries: seq<Entry>)
    requires entries != []
    ensures var slot := Slot(info, Raw in asked, LensesFor(asked, unmatched), matched);
            Sends(asked, unmatched, info, matched, live, entries, Forwarded(slot, ChunkOf(slot, live, entries)))
  {
    ColumnsFill(Raw in asked, entries);
    hide Compact;
  }

  /** Every row of a batch is still there, in a form it replays from, after the lenses. */
  predicate SurvivesLenses(slot: Slot, live: bool, entries: seq<Entry>) {
    var sent := Forwarded(slot, ChunkOf(slot, live, entries));
    && |sent| == 1
    && sent[0].WellFormed()
    && HoldsMessages(slot.info, sent[0])
    && forall i :: 0 <= i < |entries| ==> Payload(slot.info, sent[0], i) == Replayed(slot, entries[i])
  }

  /** A topic of this configuration loses no batch to the lenses. */
  predicate Keeping(slot: Slot) {
    match slot.lenses
    case None => true
    case Some(ForwardAll) => true
    case Some(ForwardUnmatched) => slot.keepRaw || !slot.matched
    case Some(DropUnmatched) => false
  }

  lemma KeepingSurvives(slot: Slot, live: bool, entries: seq<Entry>)
    requires Keeping(slot) && entries != [] && Covered(slot, live, entries)
    requires forall i :: 0 <= i < |entries| ==> Plausible(slot, entries[i])
    ensures SurvivesLenses(slot, live, entries)
    ensures forall i :: 0 <= i < |entries| ==> Replayed(slot, entries[i]).Ok?
  {
    forall i | 0 <= i < |entries|
      ensures Payload(slot.info, Forwarded(slot, ChunkOf(slot, live, entries))[0], i) == Replayed(slot, entries[i])
      ensures Replayed(slot, entries[i]).Ok?
              && HoldsMessages(slot.info, Forwarded(slot, ChunkOf(slot, live, entries))[0])
    {
      EveryRowHasAForm(slot, live, entries, i);
    }
  }

  /** What can be taken from a topic: only one that reflects has rows that decoded. */
  ghost predicate Takeable(slot: Slot, reflected: bool, live: bool, entries: seq<Entry>) {
    && entries != []
    && Covered(slot, live, entries)
    && (forall i :: 0 <= i < |entries| ==> Plausible(slot, entries[i]))
    && (!reflected ==> !live && forall i :: 0 <= i < |entries| ==> entries[i].value.None?)
  }

  ghost predicate KeepsEveryBatch(slot: Slot, reflected: bool) {
    forall live, entries :: Takeable(slot, reflected, live, entries) ==> SurvivesLenses(slot, live, entries)
  }

  /** A topic keeps every batch exactly when it says it can be replayed and the recording does not drop
      what no lens takes. `sample` is some message of the topic's type. */
  lemma KeepsEveryBatchExactly(asked: set<Representation>, unmatched: Unmatched, info: TopicInfo, reflected: bool,
                               matched: bool, sample: Cdr.Value)
    requires reflected ==> Reflected in asked || Lenses in asked
    requires reflected ==>
               && info.reflects && info.plan.Some?
               && Cdr.WellTyped(info.plan.value, Cdr.MessageLayout(Cdr.ROOT_ID), sample)
    ensures var lenses := LensesFor(asked, unmatched);
            KeepsEveryBatch(Slot(info, Raw in asked, lenses, matched), reflected)
            <==> IsReplayable(Stored(asked, reflected, lenses, matched)) && lenses != Some(DropUnmatched)
  {
    var lenses := LensesFor(asked, unmatched);
    var slot := Slot(info, Raw in asked, lenses, matched);
    if lenses == Some(DropUnmatched) {
      var raw := [Entry(0, 0, 0, [], None, 0)];
      assert Takeable(slot, reflected, false, raw);
      CompactNonEmpty(BlobColumn(slot.keepRaw, raw), 0);
      assert !SurvivesLenses(slot, false, raw);
    } else if Keeping(slot) || !reflected {
      forall live, entries | Takeable(slot, reflected, live, entries) ensures SurvivesLenses(slot, live, entries) {
        if Keeping(slot) {
          KeepingSurvives(slot, live, entries);
        } else {
          assert ValueColumn(entries) == seq(|entries|, _ => None);
          KeepingSurvives(slot.(lenses := None), live, entries);
        }
      }
    } else {
      var decoded := [Entry(0, 0, 0, [], Some(sample), 0)];
      assert Takeable(slot, reflected, true, decoded);
      CompactNonEmpty(ValueColumn(decoded), 0);
      assert Compact(BlobColumn(slot.keepRaw, decoded)) == [];
      assert !SurvivesLenses(slot, true, decoded);
    }
  }

  /** So a topic's own account is right exactly unless that mode is set and the topic keeps raw bytes,
      asked for or for want of a struct. The configuration check exempts raw bytes as never passing
      through the lenses; they do, and that mode does not forward them. */
  lemma ReplayableIsTruthful(asked: set<Representation>, unmatched: Unmatched, info: TopicInfo, reflected: bool,
                             matched: bool, sample: Cdr.Value)
    requires reflected ==> Reflected in asked || Lenses in asked
    requires reflected ==>
               && info.reflects && info.plan.Some?
               && Cdr.WellTyped(info.plan.value, Cdr.MessageLayout(Cdr.ROOT_ID), sample)
    ensures var lenses := LensesFor(asked, unmatched);
            var slot := Slot(info, Raw in asked, lenses, matched);
            (IsReplayable(Stored(asked, reflected, lenses, matched)) <==> KeepsEveryBatch(slot, reflected))
            <==> !(lenses == Some(DropUnmatched) && (Raw in asked || !reflected))
  {
    hide KeepsEveryBatch;
    KeepsEveryBatchExactly(asked, unmatched, info, reflected, matched, sample);
  }
}
