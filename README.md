# Clock-drift measurement for ROS 2 message streams, in Dafny

This project models the two tools of a small ROS 2 debugging repository. Both compare
the time a message was received or recorded with the `header.stamp` inside the message.

- **The live node `TimeDiffCalculator`** (`time_diff.py`). It subscribes to a
  *reference* topic and a *target* topic and keeps one field, `reference_delay_time`:
  the offset, in seconds, of the last reference message, or none.
  - A reference message publishes its offset on `/timediff/reference_diff`.
  - If an offset was already stored, the reference message also publishes the jitter
    `(previous − current)·1000` on `/timediff/reference_diff_diff_ms`.
  - The reference message then stores its own offset.
  - A target message publishes its offset on `/timediff/target_diff`.
  - If a reference offset is stored, the target message also publishes the skew
    `(target − reference)·1000` on `/timediff/target_delay_ms`.
  - A message without `header.stamp` raises inside the callback. The error is only
    logged: nothing is published and nothing is stored.

  The node is the class `TimeDiff.TimeDiffCalculator`, with its field and the two
  callbacks as methods. The clock reading `nowNs` is a parameter. The functions `Step`
  and `Run` replay a sequence of callbacks, and the lemmas about them cover jitter and
  skew across many messages.
- **The batch exporter `export_time_differences`** (`ros2bag_timediff.py`). It picks the
  storage plugin from the path suffix (`sqlite3` for `.db3`, otherwise `mcap`) and opens
  the bag. It keeps the catalogue topics that were requested, and exits with status 1 if
  there are none. It resolves each kept topic's message type, then reads the records in
  storage order. A record is skipped if:
  - its topic was not requested,
  - its topic has no resolved type,
  - its payload does not deserialise, or
  - the decoded message has no `header.stamp`.

  Every other record adds the CSV row `topic, type, reception_ns, sec·10⁹+nanosec,
  (reception_ns − message_ns)/10⁶`. The function `BagTimeDiff.Export` is the
  specification. The method `BagTimeDiff.ExportTimeDifferences` is the implementation:
  its read loop is `BagTimeDiff.WriteTable`. The method is proved equal to the function.

Times are integer nanoseconds. Seconds and milliseconds are exact `real`s.

External capabilities are inputs:
- `open: (path, storage id) -> Option<Bag>` stands for `SequentialReader.open`. `None`
  is the `RuntimeError` path.
- `importable: set<string>` holds the type names that `get_message` can import.
- `deserialize: (bytes, type name) -> Option<Msg>` stands for `deserialize_message`.
  `None` is any exception it raises.

Behaviour of the source that the model follows:
- Only the reference topic gets a jitter value.
- The target callback never stores its offset.
- Live offsets are published in seconds, not milliseconds.
- The batch loop checks the topic again itself.
- A path whose file name does not end in `.db3` is not rejected: it selects `mcap`.

## Model

| member | source | states |
|---|---|---|
| `Messages.StampNanosSplits` | ros2bag_timediff.py:104 | for `nanosec < 10⁹`, composing `sec·10⁹ + nanosec` loses nothing: `/10⁹` and `%10⁹` give back `sec` and `nanosec` |
| `TimeDiff.OffsetSeconds` | time_diff.py:75-81 | the offset in seconds times 10⁹ is reception time minus the header time in ns, and it is non-negative exactly when the message is received no earlier than its stamp |
| `TimeDiff.TimeDiffCalculator.constructor` | time_diff.py:68 | a new node has no stored reference offset |
| `TimeDiff.TimeDiffCalculator.ReferenceCallback` | time_diff.py:73-95 | a missing stamp publishes nothing and leaves the stored offset unchanged; otherwise the first publication is `reference_diff` = now − stamp, a second one (`reference_diff_diff_ms` = (stored − new)·1000) exists iff an offset was stored, and the new offset is then stored |
| `TimeDiff.TimeDiffCalculator.TargetCallback` | time_diff.py:97-119 | has no `modifies` clause, so the stored offset cannot change; a missing stamp publishes nothing; otherwise `target_diff` = now − stamp, plus `target_delay_ms` = (target − stored)·1000 iff a reference offset is stored |
| `TimeDiff.StepSeries` | time_diff.py:73-119 | one callback adds exactly one offset to the `reference_diff` series if it is a stamped reference message, and adds a jitter only if an offset was stored; any other callback adds nothing and keeps the stored offset |
| `TimeDiff.LastReferenceOffset` | time_diff.py:88-92 | no reference offset is known exactly when no stamped reference message has arrived |
| `TimeDiff.RunPublishesReferenceOffsets` | time_diff.py:80-86 | over any sequence of callbacks, the values published on `reference_diff` are exactly the offsets of the stamped reference messages, in arrival order |
| `TimeDiff.StoredIsLastPublishedOffset` | time_diff.py:92 | after any sequence of callbacks, the stored offset is the last published `reference_diff` value, or the initial one if there is none |
| `TimeDiff.RunJitterIsSuccessiveDrops` | time_diff.py:88-92 | over any sequence of callbacks, interleaved target messages included, the `reference_diff_diff_ms` values are the successive differences `(o(n−1) − o(n))·1000` of the stored offset followed by the published offsets |
| `TimeDiff.JitterFromFreshNode` | time_diff.py:68-92 | from a new node, the jitters are the successive differences of the reference offsets; there is one fewer jitter than offsets, and none after the first reference message |
| `TimeDiff.StoredIsLastReferenceOffset` | time_diff.py:92 | from a new node, the stored offset is the offset of the most recent stamped reference message |
| `TimeDiff.SkewUsesMostRecentReference` | time_diff.py:112-116 | a stamped target message publishes its offset, plus `(target − most recent reference offset)·1000` exactly when a stamped reference message came before it; a target message before any reference message publishes no `target_delay_ms` |
| `TimeDiff.LiveJitterExample` | time_diff.py:88-91 | reference offsets 0.010, 0.012, 0.009 s give the jitters −2.0 and 3.0 ms |
| `BagTimeDiff.StorageIdIsSqliteIffDb3` | ros2bag_timediff.py:20-27 | the storage id is `sqlite3` exactly when the path's file name ends in `.db3` with at least one character before the dot (pathlib `suffix`), and `mcap` otherwise |
| `BagTimeDiff.KeepRequestedTopics` | ros2bag_timediff.py:45-48 | a catalogue entry is kept exactly when its name is in the requested list, and no entry is invented |
| `BagTimeDiff.TypeMapCoversKept` | ros2bag_timediff.py:55 | every kept topic name has a resolved type |
| `BagTimeDiff.TypeMapFromKept` | ros2bag_timediff.py:55 | every resolved (name, type) pair is a kept catalogue entry |
| `BagTimeDiff.TypeMapLastWins` | ros2bag_timediff.py:55 | if a name appears more than once, the type of its last entry wins |
| `BagTimeDiff.ResolvedTypeIsLastCatalogueEntry` | ros2bag_timediff.py:45-55 | filtering the catalogue in order and then building the dict: a requested topic that the catalogue lists more than once resolves to the type of its last catalogue entry |
| `BagTimeDiff.RowFor` | ros2bag_timediff.py:84-116 | a row produced for a record is on a requested topic, carries that topic's resolved type, and has ms column × 10⁶ = reception ns − message ns |
| `BagTimeDiff.RowForSkipsExactly` | ros2bag_timediff.py:84-104 | a record gives no row exactly when it is off-topic, its type is unresolved, it fails to decode, or it has no `header.stamp`; otherwise its row has the record's topic, the topic's type, the bag reception time and `sec·10⁹ + nanosec` |
| `BagTimeDiff.Rows` | ros2bag_timediff.py:80-116 | there are never more rows than records, and every row is well formed |
| `BagTimeDiff.RowsFollowValidRecords` | ros2bag_timediff.py:80-116 | the k-th row comes from the k-th record that passes every check, so the row count equals the number of such records |
| `BagTimeDiff.ValidIndicesComplete` | ros2bag_timediff.py:80-99 | the positions of the records that give rows are listed in increasing order and none is dropped |
| `BagTimeDiff.RowsAppend` | ros2bag_timediff.py:80-116 | the rows of two consecutive record runs are the rows of the first run followed by the rows of the second |
| `BagTimeDiff.SkippedRecordChangesNothingElse` | ros2bag_timediff.py:84-99 | a skipped record does not stop the loop: the rows equal those of the bag without that record |
| `BagTimeDiff.ImportFailsIffUnimportableEntry` | ros2bag_timediff.py:55-65 | the import check over the resolved type map fails exactly when some requested topic's last catalogue entry names a type that cannot be imported |
| `BagTimeDiff.RowsOnlyForCatalogueTopics` | ros2bag_timediff.py:45-55 | every row is on a requested topic that the bag's catalogue lists with the row's type, so requested topics absent from the bag give no rows |
| `BagTimeDiff.ExportExits` | ros2bag_timediff.py:33-65 | every early exit has status 1; an open failure is reported exactly when the reader cannot open the bag; if it can, the no-matching-topics exit happens exactly when no catalogue topic is requested; past that, the import exit happens exactly when the last catalogue entry of some requested topic names a type that cannot be imported, and otherwise the run finishes |
| `BagTimeDiff.ExportTable` | ros2bag_timediff.py:72-116 | a completed run writes the header line first; every later line is a data row on a requested catalogue topic with its type, and ms × 10⁶ = reception ns − message ns |
| `BagTimeDiff.WriteTable` | ros2bag_timediff.py:72-116 | the read loop writes the header line and then exactly the rows of the records in storage order |
| `BagTimeDiff.ExportTimeDifferences` | ros2bag_timediff.py:19-121 | the exporter's outcome, whether an exit or the written table, equals the specification `Export` |

## Left out

- The ROS 2 plumbing of the live node is not modelled: node creation, the
  `use_sim_time` parameter, the four publishers and two subscriptions
  (time_diff.py:22-66), `rclpy.spin` and shutdown, and the clock itself. The clock
  reading is the `nowNs` parameter.
- Executor scheduling is not modelled. The callbacks run one at a time, in the order of
  the callback sequence. Locks and concurrency are not modelled.
- Library errors inside the callbacks' `try` blocks are not modelled. These are rclpy's
  own checks when it builds `Time` and `Duration` values, and publish failures. Only the
  missing `header.stamp` is modelled as an error.
- Logging and console messages are left out. Both tools only print or log them.
- Floating-point rounding is not modelled. The model uses exact reals and does not claim
  bit-exact results for the `/1e9`, `*1000.0` and `/1_000_000.0` conversions.
- `StorageFilter` is not a separate step: the loop checks the topic again itself, so the
  rows are the same. The bag reader, `get_message` and `deserialize_message` are
  abstract inputs.
- Exceptions the source does not catch are left out. These are a `get_message` error
  other than `ImportError`, and a failure to open or write the CSV file.
- CSV formatting of the values is left out. The table is a sequence of header and data
  lines.
- `Name` models pathlib's `name` for POSIX paths only.
- Re-running the exporter on the same inputs gives the same table, because `Export` is a
  function. No separate lemma states this.
- plot_csv.py is not part of this model. It only plots with pandas and matplotlib and
  computes float statistics.
