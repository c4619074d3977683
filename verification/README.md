# Verified model of the rosbag2 RRD storage plugin

The plugin under `crates/rosbag2_storage_rrd_ffi/src` records ROS 2 messages into Rerun recordings and plays
them back. This project models its recorder and player as one system and proves what they promise: messages
are buffered per topic, flushed as chunks under row, byte and latency limits, indexed by time, and merged back
into one stream ordered by receive time and then by writing. `dafny verify dfyconfig.toml` checks everything.

The main theorems:

* **Write, then read** (`Sessions.WriteThenRead`, `EndToEnd.ReplayIsAccepted`, `EndToEnd.ScheduleIsUnobservable`).
  Whatever the flush limits, the clock and the sweeps, draining a closed bag gives exactly what was accepted, sorted
  by `(recv, write order)`.
* **The reader is a cursor over one sorted list** (`PlaybackRuns.Play`). The merge, its read-ahead and its window
  refine an abstract cursor call by call, over every interleaving of reading, seeking, filtering and turning around.
  `Playback.PromisedStep` is what rosbag2 is promised and `Playback.Step` is what the code does; `Promises` states
  exactly when the two part, call by call and over runs. Rows out of order in their chunks are still played once each
  (`PlaybackRuns.ReadAll`).
* **The two paths and the two directions agree** (`Promises.PathsAgree`, `PlaybackRuns.ReverseMirrorsForward`).
* **Nothing is lost and nothing waits** (`Writers.Writer.Write`, `Ledgers`). Accepted messages are sent, buffered or lost
  with a failed decoder, and in one of them only; what is buffered had waited less than twice `max_latency`, by two
  ticks, and `Writers.WaitsLongest` waits that long.
* **CDR round trip** (`RoundTrip`), for every plan, value and alignment, and through columns (`StoredColumns`); and where
  each byte lies (`Wires`), said apart from the printer.
* **What is recorded is what was asked for** (`Forms.ForwardsAsAsked`, `Sessions.KeptAs`), batch by batch and over whole
  scripts.

| file | source | about |
|---|---|---|
| `Basics`, `Ordering`, `Recording`, `Playback` | | vocabulary: sorting by key, a recording as chunks in a file, the abstract cursor |
| `Cdr`, `Wire`, `RoundTrip`, `Replay`, `StoredColumns` | `replay.rs` | the printer, every byte by its offset, the decoder that mirrors it, the columnar encoder, and columns of values |
| `ChunkIndex`, `Footer` | `index.rs` | the index and why what it says of a chunk is exact |
| `Merge`, `ReadAhead`, `Residency`, `Opening`, `Reader` | `reader.rs` | the merge window, its bounds, its size, and the reader |
| `PlaybackRuns`, `Promises` | `reader.rs` | theorems about runs of calls, and about what they are promised |
| `Forms`, `Pipeline`, `Topic`, `Ledger`, `Writer` | `pipeline.rs`, `record.rs`, `writer.rs` | the write path |
| `EndToEnd`, `Session` | | the two joined |
| `Counterexamples` | | inputs on which the code does other than it says |

## What is assumed

* Ordered playback needs what `Recording.Bag.Ordered` says: receive times strictly between `i64::MIN` and
  `i64::MAX`, which the reader uses as sentinels; unique `(recv, sequence)` keys; rows of a chunk in key order.
  `EndToEnd.BagIsOrdered` proves it of every bag written from per-topic non-decreasing receive times. The
  exactly-once clauses of `Readers.Reader.ReadNext` assume none of it.
* A footer describes its file (`Footers.Describes`): per chunk its entity, rows and staticness, and per component
  the exact range over the rows the component fills. Every recording has such a footer (`Footers.FooterOf`).
* Topics declared under one name are the same topic, and the reader's table has them as they were declared.
* A decoder produces values its plan types. Where no raw copies are kept, `Sessions` also takes it to decode canonical
  messages as the mirror decoder does, and never to fail for good; `EndToEnd.ReplayIsAccepted` does not.
* `StoredColumns` needs plans whose fixed arrays an Arrow list can hold and that have no `wstring` in them.

## How the source is modelled

* The reader, the chunk index, the pipeline with its rows, the topic, the writer and the CDR writer are classes updated in
  place. Values owned by a vector (windows, chunk references, scanned chunks) are datatypes. A chunk's id is its
  place in the file.
* The manifest's nested maps are one sequence of entries in any order. A chunk's struct column is a sequence of
  values. `Replay` encodes columns, `Cdr` values, and `StoredColumns` shows that a column made of values encodes as they
  do. A column not made of values need not: an empty array stored under another type fails in a row whose value is fine.
* Two loops the source writes twice, winding in `seek` and in `resume`, are `StepOver` and `WindTo`; one turn of
  `fill`'s loop is `ReadOne`, one turn of `pull_indexed`'s loop is `LoadNext` with `LoadIndexed`, and the skipping
  half of `read_next` is `PassOverUnwanted`.
* The clock is monotone and counts ticks, and any amount of time passes before a reading of it; or none, on a clock so
  coarse that it only moves when waited for. What a decoder makes of a message
  (a value, a cancelled row, an unrecoverable failure) is given with the message.
* Strings in messages are bytes, and floating-point values are bit patterns.

## Where the code and its documentation part

The code is followed in each.

* `reader.rs:445-455`: after a backwards seek to `i64::MIN` the position looks like a fresh pass, so a filter change
  replays everything the new filter admits. `Promises.IndexedKeepsPromise` and `Promises.IndexedRunKeepsPromise` give
  the exact condition.
* `reader.rs:420-424` says that the scan path satisfies the in-place filter change for free. Rows passed over by a
  read that found nothing, or that failed, are gone (`Promises.ScanKeepsPromise`).
* `replay.rs:112-121`: one pass over a built-in array is not quite looping the scalar encoder, which never sees an
  empty array's type (`Replay.OnePassIsOneByOne`).
* `config.rs:239-241` calls raw bytes exempt from `unmatched: drop` because they never pass through the lenses. They
  do (`pipeline.rs:402-421`), and that mode does not forward them (`Forms.ReplayableIsTruthful`).
* `pipeline.rs:505-523`: with lenses alone on a topic one of them takes, a row that decoded loses its struct while one
  that failed keeps its bytes (`Counterexamples.DecodedRowLosesItsForm`); the reader then fails on the first.
* `record.rs:106` says that a topic flushes first if a message would exceed the policy. It flushes after, so a batch may
  exceed `max_bytes` by its last row, which is what `Topics.Bounded` says.

## Model

| member | source | states |
|---|---|---|
| `Sessions.WriteThenRead` | crates/rosbag2_storage_rrd_ffi/src/writer.rs:222-297 | for any script of topics declared, messages written and topics removed, any configuration that keeps messages, any flush limits and any passage of time: writing the bag, closing it, opening it and reading until there is nothing more, by a footer that describes it or by scanning, gives every accepted message once, byte for byte, by receive time and, where that is the same, in the order of writing, and then nothing |
| `Sessions.WriteBag` | crates/rosbag2_storage_rrd_ffi/src/writer.rs:190-297 | after any script and the close, the file is the rendering of the batches, each as what was asked for has it, nothing is left in a buffer, nothing was lost, and what the books call accepted is what the script alone says was accepted, with the struct each message is kept as, if any |
| `Sessions.ReadBag` | crates/rosbag2_storage_rrd_ffi/src/reader.rs:769-792 | a closed bag opened with its footer or without and read to the end answers exactly the surviving messages in order, then that there is nothing more |
| `EndToEnd.ReplayIsAccepted` | crates/rosbag2_storage_rrd_ffi/src/writer.rs:229-237 | draining a closed bag delivers exactly the accepted messages, less those lost with a decoder, ordered by `(recv, sequence)`, on either path; there are as many rows as such messages |
| `EndToEnd.ScheduleIsUnobservable` | crates/rosbag2_storage_rrd_ffi/src/record.rs:107-169 | two recordings given the same messages that lost the same ones replay the same, whatever their flush limits, clocks, sweeps, representations and footers |
| `EndToEnd.BagIsSound` | crates/rosbag2_storage_rrd_ffi/src/pipeline.rs:340-396 | every row of a written bag has a form and can be played, and every chunk is well formed and timed |
| `EndToEnd.BagIsOrdered` | crates/rosbag2_storage_rrd_ffi/src/reader.rs:94-98 | per-topic non-decreasing receive times suffice for what ordered playback needs: distinct keys, and rows of a chunk in key order |
| `EndToEnd.SentSurvives` | crates/rosbag2_storage_rrd_ffi/src/pipeline.rs:346-352 | each row in the file is an accepted message that was not lost, and no two rows are the same one |
| `EndToEnd.KeepingRawLosesNothing` | crates/rosbag2_storage_rrd_ffi/src/pipeline.rs:322-338 | a recording that keeps raw bytes loses no message whatever its decoders do |
| `EndToEnd.KeepsMessagesExactly` | crates/rosbag2_storage_rrd_ffi/src/pipeline.rs:505-530 | every topic there could be of a type that reflects keeps every batch it is given exactly when the configuration asks for no lenses, or for the reflected form, or for raw bytes with unmatched ones kept |
| `EndToEnd.StructsAreTyped` | crates/rosbag2_storage_rrd_ffi/src/pipeline.rs:301-320 | every struct in a written bag is of its topic's type, so the columnar encoder takes it |
| `EndToEnd.ReplaysOwnBytes` | crates/rosbag2_storage_rrd_ffi/src/reader.rs:739-757 | a message replays byte for byte as it arrived, from its own bytes or, where the decoder is faithful and the message canonical, from its struct |
| `Sessions.KeptAs` | crates/rosbag2_storage_rrd_ffi/src/pipeline.rs:301-344 | in any script, a message on a topic that is to be decoded and still can be is kept with the struct it decoded to, and any other without one |
| `Sessions.DecodingExactly` | crates/rosbag2_storage_rrd_ffi/src/pipeline.rs:232-249 | a topic is decoding exactly if structs or lens output were asked for, its type reflects, its definition could be read, and no message has made its decoder fail for good |
| `Sessions.SortedReplays` | crates/rosbag2_storage_rrd_ffi/src/reader.rs:94-98 | sorting by receive time and number is the stable order by receive time |
| `Readers.Reader.Open` | crates/rosbag2_storage_rrd_ffi/src/reader.rs:206-353 | on both paths the message count is the number of rows and the sum of the per-topic counts, each topic's count is its rows, the time range is attained and spans them, and every row of the recording is still to be played, in whatever order rows lie |
| `Readers.OpenIndex` | crates/rosbag2_storage_rrd_ffi/src/reader.rs:265-293 | the retained index names every chunk with rows to replay once, in `(start, end)` order, with exact ranges; the counts add up |
| `Readers.Reader.Restart` | crates/rosbag2_storage_rrd_ffi/src/reader.rs:365-384 | a fresh pass holds every row it is to play, in whatever order rows lie, and the view is the start |
| `Readers.Reader.SetReverse` | crates/rosbag2_storage_rrd_ffi/src/reader.rs:409-415 | refines the abstract cursor: turning around starts over, and asking for the present direction does nothing |
| `Readers.Reader.SetFilter` | crates/rosbag2_storage_rrd_ffi/src/reader.rs:424-433 | sets the filter and refines the abstract cursor: the boundary stays, except that a seek to the lowest time reads as a fresh start on the indexed path |
| `Readers.Reader.Resume` | crates/rosbag2_storage_rrd_ffi/src/reader.rs:440-474 | rebuilding the pass under another filter leaves ahead exactly the rows past the last one delivered, or at or past the last seek target |
| `Readers.Reader.Seek` | crates/rosbag2_storage_rrd_ffi/src/reader.rs:482-504 | refines the abstract cursor: ahead are exactly the admitted rows at or past the target, whatever came before |
| `Readers.Reader.SkipIndexTo` | crates/rosbag2_storage_rrd_ffi/src/reader.rs:510-529 | the chunks jumped over hold no row at or past the target |
| `Readers.Reader.WindTo` | crates/rosbag2_storage_rrd_ffi/src/reader.rs:459-470 | winding stops with exactly the rows past the target still to play |
| `Readers.Reader.Pull` | crates/rosbag2_storage_rrd_ffi/src/reader.rs:532-569 | takes exactly one unread chunk of messages out of the file, oriented to the playback direction, or there was none |
| `Readers.Reader.PullIndexed` | crates/rosbag2_storage_rrd_ffi/src/reader.rs:572-611 | takes the next chunk the index names on an admitted topic, and says how far the index position moved |
| `Readers.Reader.EarliestUnreadBounds` | crates/rosbag2_storage_rrd_ffi/src/reader.rs:614-635 | the bound is sound in every mode that uses it: no unread row lies below it, or above it backwards |
| `Readers.Reader.Fill` | crates/rosbag2_storage_rrd_ffi/src/reader.rs:643-684 | reading ahead moves rows into the window and loses none; it stops with the bound past the best row or nothing unread |
| `Readers.Reader.NextRow` | crates/rosbag2_storage_rrd_ffi/src/reader.rs:687-703 | the row chosen is the first of all the rows still to play, resident or not, equal times across chunks included; going forward over the index every resident chunk then straddles its time but for at most one |
| `Readers.Reader.WindowStraddles` | crates/rosbag2_storage_rrd_ffi/src/reader.rs:7-11 | when a row at time t is chosen every resident chunk ends at or after t and at most one starts after it, none with an empty filter |
| `Readers.Reader.Advance` | crates/rosbag2_storage_rrd_ffi/src/reader.rs:708-720 | drops exactly the row under the cursor, and the position becomes its time |
| `Readers.Reader.Take` | crates/rosbag2_storage_rrd_ffi/src/reader.rs:723-763 | delivers the topic, times and payload that the file holds for the first row to play, and consumes that row; a row that cannot be encoded is left where it is |
| `Readers.Reader.PassOverUnwanted` | crates/rosbag2_storage_rrd_ffi/src/reader.rs:769-779 | consumes only rows the filter does not admit |
| `Readers.Reader.ReadNext` | crates/rosbag2_storage_rrd_ffi/src/reader.rs:769-792 | refines the abstract cursor; and, whatever the order of rows in chunks, plays or fails on a row still to be played whose topic the filter names, if it names any, plays none twice, and passes over only rows whose topics a nonempty filter does not name |
| `PlaybackRuns.Play` | crates/rosbag2_storage_rrd_ffi/src/reader.rs:386-529 | over every interleaving of calls the reader answers as the cursor machine does |
| `PlaybackRuns.ReadAll` | crates/rosbag2_storage_rrd_ffi/src/reader.rs:766-792 | in whatever order rows lie, reading to the end gives the message of every admitted row still to be played, each once; reading stops short only at an admitted row that cannot be encoded |
| `PlaybackRuns.ReadWhole` | crates/rosbag2_storage_rrd_ffi/src/reader.rs:206-353 | a recording all of whose rows can be encoded, opened by a footer or without, is played whole: as many messages as rows, each row once |
| `Promises.PromiseKeepsStep` | crates/rosbag2_storage_rrd_ffi/src/reader.rs:417-424 | two cursors with the same rows beyond them answer alike and stay so under every call, filter changes included |
| `Promises.AgreeIsExact` | crates/rosbag2_storage_rrd_ffi/src/reader.rs:417-424 | having the same rows beyond them is exactly what it takes for two cursors not to be told apart by any run of calls |
| `Promises.IndexedKeepsPromise` | crates/rosbag2_storage_rrd_ffi/src/reader.rs:440-455 | exactly when a call with a footer leaves the reader where it was promised to be: unless it changes the filter after a backwards seek to `i64::MIN`, in a recording with any row |
| `Promises.IndexedRunKeepsPromise` | crates/rosbag2_storage_rrd_ffi/src/reader.rs:417-455 | exactly when a run with a footer keeps in step with the promise, told from the calls alone, and that its answers are then the promised ones |
| `Promises.ScanKeepsPromise` | crates/rosbag2_storage_rrd_ffi/src/reader.rs:420-433 | exactly when a call without a footer leaves the reader where it was promised to be: unless it is a read that delivers nothing and has rows between the cursor and the end, or the row it fails on |
| `Promises.RunKeepsPromise` | crates/rosbag2_storage_rrd_ffi/src/reader.rs:417-433 | on either path a run keeps in step exactly when none of its calls departs |
| `Promises.FilterChangesInPlace` | crates/rosbag2_storage_rrd_ffi/src/reader.rs:420-433 | after any number of reads a filter change leaves ahead precisely the admitted rows past the last one delivered, sharers of its time included, nothing repeated; before any, those past where the cursor stood |
| `PlaybackRuns.SeekThenDrain` | crates/rosbag2_storage_rrd_ffi/src/reader.rs:481-504 | after a seek, whatever preceded it, draining delivers exactly the rows at or past the target whose topics the filter names, if it names any, in order |
| `PlaybackRuns.ReadsDeliver` | crates/rosbag2_storage_rrd_ffi/src/reader.rs:766-792 | n reads deliver the first n rows of the list ahead and leave the rest ahead |
| `PlaybackRuns.DrainDelivers` | crates/rosbag2_storage_rrd_ffi/src/reader.rs:766-792 | draining delivers the list ahead and then nothing |
| `Promises.PathsAgree` | crates/rosbag2_storage_rrd_ffi/src/reader.rs:532-611 | the scanning and the indexed path give the same answers, in both directions, to every run that keeps its filter, and they are the promised ones |
| `Promises.PathsAgreeInStep` | crates/rosbag2_storage_rrd_ffi/src/reader.rs:532-611 | so they do over runs that change it, as long as neither departs from the promise |
| `PlaybackRuns.ReverseMirrorsForward` | crates/rosbag2_storage_rrd_ffi/src/reader.rs:94-98 | reverse playback delivers the forward messages reversed, payloads included |
| `PlaybackRuns.UpcomingIsSelected` | crates/rosbag2_storage_rrd_ffi/src/reader.rs:476-479 | what is ahead of a cursor is picked in place out of the one list of all rows |
| `PlaybackRuns.UpcomingByNumbers` | crates/rosbag2_storage_rrd_ffi/src/reader.rs:476-479 | the list ahead of any cursor holds exactly the rows past its boundary whose topics the filter names, if it names any, by receive time and then by sequence number, or backwards |
| `PlaybackRuns.AheadByNumbers` | crates/rosbag2_storage_rrd_ffi/src/reader.rs:459-470 | a row is ahead of a cursor exactly when its receive time and number are past the boundary and its topic is admitted |
| `Ordering.Playlist` | crates/rosbag2_storage_rrd_ffi/src/reader.rs:94-98 | sorting by `(recv, sequence)` keeps exactly the rows given |
| `Ordering.PlaylistUnique` | crates/rosbag2_storage_rrd_ffi/src/reader.rs:94-98 | with distinct keys there is one way to list rows in order |
| `Ordering.BackwardsMirrors` | crates/rosbag2_storage_rrd_ffi/src/reader.rs:96-97 | the reverse list is the mirror of the forward list |
| `Ordering.PlaylistsMatch` | crates/rosbag2_storage_rrd_ffi/src/reader.rs:94-98 | lists of things matched one for one and key for key match |
| `Merge.PositionIsRow` | crates/rosbag2_storage_rrd_ffi/src/reader.rs:129-147 | in either direction a window position is the row the file holds there, key and all |
| `Merge.PositionReads` | crates/rosbag2_storage_rrd_ffi/src/reader.rs:732-757 | what is read out of a window at its cursor is what the file holds for that row |
| `Merge.PullKeepsRows` | crates/rosbag2_storage_rrd_ffi/src/reader.rs:680-683 | moving a chunk from unread to resident keeps the rows still to play |
| `Merge.AdvanceDropsRow` | crates/rosbag2_storage_rrd_ffi/src/reader.rs:708-720 | `next += 1` and `swap_remove` drop one row and no other |
| `Merge.BestHead` | crates/rosbag2_storage_rrd_ffi/src/reader.rs:656-660 | the candidate time is attained and bounds every resident chunk's next row |
| `Merge.Choose` | crates/rosbag2_storage_rrd_ffi/src/reader.rs:690-702 | no resident row precedes the chosen one |
| `Merge.ChosenIsFirst` | crates/rosbag2_storage_rrd_ffi/src/reader.rs:640-703 | once the bound has settled, the best resident row precedes every other row still to play |
| `ReadAhead.IndexBounds` | crates/rosbag2_storage_rrd_ffi/src/reader.rs:623-634 | forward the next start, backward the prefix maximum of ends, bounds every chunk the index has not handed out |
| `ReadAhead.ScanBounds` | crates/rosbag2_storage_rrd_ffi/src/reader.rs:614-621 | without a footer the suffix minimum bounds every unread row, though the counter may lag behind the array |
| `ReadAhead.ReadOnce` | crates/rosbag2_storage_rrd_ffi/src/reader.rs:572-597 | an index position reads its chunk once if admitted and otherwise passes it |
| `ReadAhead.WantedRowsAreUnread` | crates/rosbag2_storage_rrd_ffi/src/reader.rs:592-597 | every admitted row past the index position is in an unread chunk |
| `Residency.PullStaysResident` | crates/rosbag2_storage_rrd_ffi/src/reader.rs:643-684 | reading ahead keeps the window to chunks that straddle the position, but for at most one |
| `Residency.AdvanceStaysResident` | crates/rosbag2_storage_rrd_ffi/src/reader.rs:708-720 | consuming a row keeps it so |
| `Residency.ResidentsStraddle` | crates/rosbag2_storage_rrd_ffi/src/reader.rs:7-11 | the residency bound, from the invariant |
| `Opening.CountIndexed` | crates/rosbag2_storage_rrd_ffi/src/reader.rs:272-293 | counting from the index gives each topic exactly its rows |
| `Opening.CountScanned` | crates/rosbag2_storage_rrd_ffi/src/reader.rs:295-307 | counting from the scan gives the rows, in total and per topic, and their exact time range |
| `Opening.ScanChunk` | crates/rosbag2_storage_rrd_ffi/src/reader.rs:62-81 | the earliest time and range of one chunk are exact |
| `Opening.ScanFile` | crates/rosbag2_storage_rrd_ffi/src/reader.rs:226-236 | the scan lists every non-static chunk in file order |
| `Opening.SuffixMinima` | crates/rosbag2_storage_rrd_ffi/src/reader.rs:310-317 | entry i of the array is the least time in the scanned chunks from the i-th on, and no row there precedes it |
| `Opening.TotalIsRows` | crates/rosbag2_storage_rrd_ffi/src/index.rs:175-179 | the sum of row counts over the index is the number of rows to replay |
| `Opening.IndexSpans` | crates/rosbag2_storage_rrd_ffi/src/index.rs:181-186 | the first start and the latest end span every row and are attained |
| `ChunkIndexes.Summarize` | crates/rosbag2_storage_rrd_ffi/src/index.rs:203-229 | the summary of a chunk spans its entries and no more and lists exactly their components, whatever the order of the entries |
| `ChunkIndexes.Collect` | crates/rosbag2_storage_rrd_ffi/src/index.rs:100-125 | each chunk is listed once with its summary; one without a summary is left out; the static ids are those of the static chunks, in order, and the count is of all the others |
| `ChunkIndexes.SortSorts` | crates/rosbag2_storage_rrd_ffi/src/index.rs:127 | the sort orders by `(start, end)` and is stable: of every range it keeps all chunks, in the order given |
| `ChunkIndexes.LatestThroughIsLatest` | crates/rosbag2_storage_rrd_ffi/src/index.rs:54-59 | the prefix maximum is attained and bounds every end so far |
| `ChunkIndexes.ChunkIndex.Open` | crates/rosbag2_storage_rrd_ffi/src/index.rs:67-142 | the index opened from a footer is sorted by start and then by end, lists each temporal chunk once and carries the prefix maxima; the static ids are those of the static chunks, in order, and the temporal chunks counted are all the others |
| `ChunkIndexes.ChunkIndex.Retain` | crates/rosbag2_storage_rrd_ffi/src/index.rs:145-148 | keeps exactly the chunks asked for, in order, and recomputes the prefix maxima |
| `ChunkIndexes.ChunkIndex.RecomputeMaxEndThrough` | crates/rosbag2_storage_rrd_ffi/src/index.rs:150-160 | the array holds the prefix maxima of ends |
| `ChunkIndexes.ChunkIndex.TimeRange` | crates/rosbag2_storage_rrd_ffi/src/index.rs:181-186 | the range is attained and spans every chunk |
| `Footers.FoldedRangeIsExact` | crates/rosbag2_storage_rrd_ffi/src/index.rs:196-229 | the range folded from per-component ranges is the range over all the chunk's rows, each row filling at least one message column |
| `Footers.EveryChunkIsListed` | crates/rosbag2_storage_rrd_ffi/src/index.rs:105-125 | a chunk with rows to replay is listed and kept |
| `Footers.FooterOf` | crates/rosbag2_storage_rrd_ffi/src/index.rs:196-229 | every recording has a footer that describes it, with the exact range of every component |
| `Footers.KeptIndexes` | crates/rosbag2_storage_rrd_ffi/src/reader.rs:285-293 | stripped of what holds no messages, the footer's index indexes the bag |
| `Forms.Scatter` | crates/rosbag2_storage_rrd_ffi/src/pipeline.rs:425-450 | one entry per flag, null exactly where the flag is false, and dropping the nulls gives back the dense column |
| `Forms.SparseIsDetermined` | crates/rosbag2_storage_rrd_ffi/src/pipeline.rs:425-427 | flags and dense values determine a sparse column |
| `Forms.EveryRowHasAForm` | crates/rosbag2_storage_rrd_ffi/src/pipeline.rs:355-396 | each row of the chunk a batch becomes has bytes or a struct and replays as promised |
| `Forms.KeepingSurvives` | crates/rosbag2_storage_rrd_ffi/src/pipeline.rs:402-423 | a topic that keeps its messages loses no row and no form to the lenses |
| `Forms.KeepsEveryBatchExactly` | crates/rosbag2_storage_rrd_ffi/src/pipeline.rs:505-530 | a topic keeps every batch exactly when it says it can be replayed and the recording does not drop what no lens takes |
| `Forms.ReplayableIsTruthful` | crates/rosbag2_storage_rrd_ffi/src/pipeline.rs:275-278 | a topic's own account of being replayable is right exactly unless what no lens takes is dropped and the topic keeps raw bytes |
| `Pipelines.Rows.Push` | crates/rosbag2_storage_rrd_ffi/src/pipeline.rs:125-137 | one message fills one more row of every column |
| `Pipelines.DecodedCounts` | crates/rosbag2_storage_rrd_ffi/src/pipeline.rs:371-386 | the decoder's row count is the number of rows marked decoded |
| `Pipelines.Pipeline.constructor` | crates/rosbag2_storage_rrd_ffi/src/pipeline.rs:223-265 | a new topic holds nothing, and it decodes exactly if told to |
| `Pipelines.Pipeline.Push` | crates/rosbag2_storage_rrd_ffi/src/pipeline.rs:301-344 | a message becomes the last row, `bytes` stays the sum of payload lengths, and only rows without raw copies in a decoder that fails for good are lost |
| `Pipelines.Pipeline.Take` | crates/rosbag2_storage_rrd_ffi/src/pipeline.rs:355-396 | the chunk taken holds every buffered row once, in arrival order, struct column realigned |
| `Pipelines.Pipeline.Flush` | crates/rosbag2_storage_rrd_ffi/src/pipeline.rs:346-423 | nothing stays behind, and what leaves is told by the rows and by what was asked for: one chunk or none, when it has derived flags, structs and bytes, and what is in each row of them |
| `Forms.ForwardsAsAsked` | crates/rosbag2_storage_rrd_ffi/src/pipeline.rs:402-423 | in every configuration one chunk leaves, or none if what no lens takes is dropped; derived flags are there exactly if a lens takes a struct, structs unless they were for the lenses alone, and bytes as asked or for want of a struct |
| `Forms.SizeAdds` | crates/rosbag2_storage_rrd_ffi/src/pipeline.rs:341-343 | the bytes counted are the sum of the payload lengths |
| `Topics.Topic.constructor` | crates/rosbag2_storage_rrd_ffi/src/record.rs:34-96 | a new topic is declared in the recording, holds nothing, and decodes exactly if told to |
| `Topics.Topic.ShouldFlush` | crates/rosbag2_storage_rrd_ffi/src/record.rs:127-142 | flushes exactly when there are rows and they are as many as the row limit, or come to the byte limit, or the last flush was the latency limit ago; the clock is not read once a counter has decided |
| `Topics.Topic.Flush` | crates/rosbag2_storage_rrd_ffi/src/record.rs:160-169 | every buffered row leaves as one batch |
| `Topics.Topic.Write` | crates/rosbag2_storage_rrd_ffi/src/record.rs:107-125 | after the call fewer rows and bytes are buffered than the limits; a message that makes up the row or the byte limit sends everything held, in write order, each row with a form, and that was below both limits before it; one that reaches no limit sends nothing; a retired topic changes nothing; the decoder survives all but an unrecoverable failure |
| `Topics.Topic.FlushIfStale` | crates/rosbag2_storage_rrd_ffi/src/record.rs:148-157 | what stays has waited less than the limit, and nothing fresh is flushed |
| `Topics.HeldBounded` | crates/rosbag2_storage_rrd_ffi/src/record.rs:127-142 | one more row puts a batch at most one row over |
| `Ledgers.Ledger.FlushingBalances` | crates/rosbag2_storage_rrd_ffi/src/record.rs:160-169 | a flush moves rows from a buffer to the stream and conserves them |
| `Ledgers.Ledger.AcceptingBalances` | crates/rosbag2_storage_rrd_ffi/src/pipeline.rs:301-344 | an accepted message is sent, buffered or lost, and in one of them only |
| `Ledgers.AcceptingIsSound` | crates/rosbag2_storage_rrd_ffi/src/writer.rs:229-237 | accepting keeps the books in order: balance, unique growing sequence numbers, bounded batches |
| `Ledgers.FlushingIsSound` | crates/rosbag2_storage_rrd_ffi/src/record.rs:160-169 | flushing keeps them in order |
| `Ledgers.BatchesRenderAsAsked` | crates/rosbag2_storage_rrd_ffi/src/record.rs:160-169 | every batch in the stream has the form that was asked for |
| `Writers.Writer.Open` | crates/rosbag2_storage_rrd_ffi/src/writer.rs:172-187 | an empty recording, last swept at this moment |
| `Writers.Writer.CreateTopic` | crates/rosbag2_storage_rrd_ffi/src/writer.rs:190-219 | a topic already declared keeps its index; a new one takes the next, is declared in the stream, and decodes exactly if structs or lens output were asked for, its type reflects and its definition could be read |
| `Writers.Writer.WriteTopic` | crates/rosbag2_storage_rrd_ffi/src/writer.rs:232-237 | the topic's books gain the message, or gain it and flush; every other topic stands |
| `Writers.Writer.Write` | crates/rosbag2_storage_rrd_ffi/src/writer.rs:222-238 | the sequence number advances even on an unknown topic, which is the only error; an accepted message is accounted for; no buffer is flushed before a limit of its own is reached; and after it no row buffered on any topic had waited more than two ticks short of twice `max_latency` when the sweep last looked |
| `Writers.WaitsLongest` | crates/rosbag2_storage_rrd_ffi/src/writer.rs:240-246 | the bound is attained, for every limit, by a row that arrives one tick after a sweep |
| `Writers.Writer.SweepStaleTopics` | crates/rosbag2_storage_rrd_ffi/src/writer.rs:240-260 | sweeps exactly when a latency window has passed since the last sweep and otherwise changes nothing; it flushes only buffers last flushed a latency limit ago, and leaves no row that had waited twice the limit |
| `Writers.Writer.RemoveTopic` | crates/rosbag2_storage_rrd_ffi/src/writer.rs:265-273 | flushes and retires that topic and no other; indices stay valid |
| `Writers.Writer.Close` | crates/rosbag2_storage_rrd_ffi/src/writer.rs:281-297 | every accepted message is in the file but those lost |
| `Replay.Encode` | crates/rosbag2_storage_rrd_ffi/src/replay.rs:27-42 | succeeds exactly on rows whose columns match the plan, and then the bytes are 0, 1, 0, 0 and every field at its offset |
| `Replay.EncodeMessage` | crates/rosbag2_storage_rrd_ffi/src/replay.rs:44-65 | prints every field in order, or fails exactly when a column does not match |
| `Replay.EncodeValue` | crates/rosbag2_storage_rrd_ffi/src/replay.rs:68-110 | the bytes are those of the value at that row, each where its offset from the body start puts it; fails exactly on a mismatch |
| `Replay.EncodeItems` | crates/rosbag2_storage_rrd_ffi/src/replay.rs:106-109 | prints the elements in order, or fails exactly when one does not match |
| `Replay.EncodeBuiltInArray` | crates/rosbag2_storage_rrd_ffi/src/replay.rs:121-156 | prints the elements in order, or fails on the column as a whole, writing nothing |
| `Replay.EncodeBuiltIn` | crates/rosbag2_storage_rrd_ffi/src/replay.rs:159-198 | writes the scalar at its offset, or fails on a column of another type, writing nothing |
| `Replay.OnePassIsOneByOne` | crates/rosbag2_storage_rrd_ffi/src/replay.rs:112-198 | one pass over a built-in array and element-by-element encoding give the same result at every alignment exactly unless the array is empty and of the wrong type |
| `StoredColumns.ColumnHolds` | crates/rosbag2_storage_rrd_ffi/src/replay.rs:68-110 | every sequence of values of a layout has a column that holds them, and that the encoder takes at every row |
| `StoredColumns.EncodeStored` | crates/rosbag2_storage_rrd_ffi/src/replay.rs:27-42 | encoding a row of such a column succeeds, with the encoding of the value it holds |
| `StoredColumns.ReadPayload` | crates/rosbag2_storage_rrd_ffi/src/reader.rs:739-757 | reading a row out of the columns of its chunk gives what the row is said to replay as, or the same error |
| `RoundTrip.DecodeInvertsEncode` | crates/rosbag2_storage_rrd_ffi/src/replay.rs:27-42 | decoding along the same plan gives back the value encoded, for every plan and well-typed value |
| `RoundTrip.EncodeInvertsDecode` | crates/rosbag2_storage_rrd_ffi/src/replay.rs:3-8 | a canonical message decoded and re-encoded comes back byte for byte |
| `RoundTrip.CanonicalAreTheEncodings` | crates/rosbag2_storage_rrd_ffi/src/replay.rs:18-24 | the canonical messages are exactly what the encoder can produce |
| `RoundTrip.ReadsBack` | crates/rosbag2_storage_rrd_ffi/src/replay.rs:68-110 | reading at any alignment gives back what was printed there and stops where it ended |
| `RoundTrip.PrintsBack` | crates/rosbag2_storage_rrd_ffi/src/replay.rs:68-110 | what was read at any alignment prints to the bytes it was read from |
| `Replay.CdrWriter.WriteNumber` | crates/rosbag2_storage_rrd_ffi/src/replay.rs:159-198 | a number starts at the next multiple of its width, behind zeros only, and its i-th byte is its two's complement over 256 to the i, modulo 256 |
| `Replay.CdrWriter.WriteString` | crates/rosbag2_storage_rrd_ffi/src/replay.rs:159-198 | a string is its length and one more as four bytes, its bytes, and a zero |
| `Wires.PrintIsPlaced` | crates/rosbag2_storage_rrd_ffi/src/replay.rs:68-110 | printing any value of any layout behind any body appends the bytes that stand at that offset: booleans as one byte, numbers padded to their width, counts before strings and before arrays that are not fixed |
| `Wires.EncodedIsPlaced` | crates/rosbag2_storage_rrd_ffi/src/replay.rs:18-42 | a message is encoded exactly when it is of its type, and then as the little-endian header and its fields by offset |
| `Wires.RangesAgree` | crates/rosbag2_storage_rrd_ffi/src/replay.rs:159-198 | the numbers of a kind are the two's complement or unsigned ones of its 1, 2, 4 or 8 bytes |
| `Counterexamples.LowestSeekReplaysEverything` | crates/rosbag2_storage_rrd_ffi/src/reader.rs:444-455 | one message, backwards from `i64::MIN`: nothing is promised, a filter change brings it |
| `Counterexamples.LowestSeekTripsUnseen` | crates/rosbag2_storage_rrd_ffi/src/reader.rs:444-455 | after such a seek a filter change can go unnoticed until a second one |
| `Counterexamples.WideningComesTooLate` | crates/rosbag2_storage_rrd_ffi/src/reader.rs:420-424 | one message, no footer: a read that finds nothing for a narrow filter loses it for a wider one |
| `Counterexamples.FailedReadPassesOver` | crates/rosbag2_storage_rrd_ffi/src/reader.rs:420-424 | without a footer, a read that fails on a row it cannot encode has lost what its filter left out before it |
| `Counterexamples.RawIsDropped` | crates/rosbag2_storage_rrd_ffi/src/config.rs:239-241 | raw bytes next to lenses with unmatched messages dropped: counted replayable, and nothing is sent |
| `Counterexamples.DecodedRowLosesItsForm` | crates/rosbag2_storage_rrd_ffi/src/pipeline.rs:505-523 | lenses alone: the row that decoded has lost its struct and the reader fails on it |
| `Replay.EmptyWrongColumnDiffers` | crates/rosbag2_storage_rrd_ffi/src/replay.rs:112-156 | an empty array stored as another type is refused in one pass and not element by element |

## Left out

* The C++ plugin, the foreign function interface with its prefetch, logging and error types.
* Opening, reading and decoding files, the footer's bytes, and the errors these can raise; the live stream to a
  server; the SDK batcher's own delay.
* Building the topic table from static chunks, the metadata document and the fields of a topic that playback does not
  use; refusing a recording that holds data but describes no topics (`reader.rs:240-253`); that a decode plan is built
  only for a topic with struct rows (`reader.rs:275-282`).
* The text of the metadata document: the close is shown to send a document if one was set.
* The `header_stamp` timeline and timelines other than the three that are replayed.
* What lenses compute and how they fail: one derived column stands for their output.
* Arrow failures while a struct column is realigned or a chunk is built, after which the rows taken are gone.
* Parsing and checking of the configuration and of message definitions.
* A row null in both columns: the reader model answers that it has no form, where the code encodes whatever the null
  slot holds. No written bag has such a row (`EndToEnd.BagIsSound`).
* Reading by a decoder more lenient than the mirror decoder, which takes canonical messages only; big-endian messages.
* The upper bounds of bounded arrays and strings, which neither direction enforces.
* Overflow of the `i64` sequence number and of the counters.
* How far a bound without a footer can lag: the reader's counter leaves out chunks on entities that are no topic, while
  the array includes them, so `ReadAhead.ScanBounds` has the bound from below only.
