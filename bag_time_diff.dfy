/** The batch exporter `export_time_differences`: it opens a rosbag2 bag,
    keeps the requested topics that the bag's catalogue lists, and writes
    one CSV row per stamped message on those topics, giving the bag's
    reception time, the header time and their difference in milliseconds.

    The bag reader, message-class import and CDR deserialisation are
    abstract inputs: `open` stands for `SequentialReader.open` with a
    storage plugin, `importable` for the type names `get_message` can
    import, and `deserialize` for `deserialize_message`, which fails with
    `None`. */
module BagTimeDiff {
  import opened Messages

  datatype StorageId = Sqlite3 | Mcap

  /** One entry of `get_all_topics_and_types()`. */
  datatype TopicMetadata = TopicMetadata(name: string, typeName: string)

  /** What `read_next()` returns: topic, CDR bytes, reception time in ns. */
  datatype SerializedRecord = SerializedRecord(topicName: string, data: seq<bv8>, timestampNs: int)

  /** An opened bag: its topic catalogue and its records in storage order. */
  datatype Bag = Bag(topics: seq<TopicMetadata>, records: seq<SerializedRecord>)

  /** One data row of the CSV file. */
  datatype Row = Row(topicName: string, topicType: string, receptionNs: int, messageNs: int, differenceMs: real)

  datatype CsvLine = HeaderLine(fieldnames: seq<string>) | DataLine(row: Row)

  /** The three ways the run ends with `sys.exit(1)` before the CSV is opened. */
  datatype ExportError = OpenFailed | NoMatchingTopics | ImportFailed

  datatype ExportOutcome = Exited(status: int, error: ExportError) | Finished(lines: seq<CsvLine>)

  type Opener = (string, StorageId) -> Option<Bag>
  type Deserializer = (seq<bv8>, string) -> Option<Msg>

  const FieldNames: seq<string> :=
    ["topic_name", "topic_type", "reception_timestamp_ns", "message_timestamp_ns", "time_difference_ms"]

  // ---------------------------------------------------------------------
  // Storage id from the bag path (pathlib's `name` and `suffix`).

  /** Index of the last `c` in `s`, or -1 when there is none. */
  function LastIndexOf(s: string, c: char): (i: int)
    ensures -1 <= i < |s|
    ensures i >= 0 ==> s[i] == c
    ensures forall j :: i < j < |s| ==> s[j] != c
    decreases |s|
  {
    if s == [] then -1
    else if s[|s| - 1] == c then |s| - 1
    else LastIndexOf(s[..|s| - 1], c)
  }

  /** `PurePath(p).name` on POSIX: the last component, where empty and `.`
      components do not count; empty when there is no component. */
  function Name(p: string): string
    decreases |p|
  {
    var slash := LastIndexOf(p, '/');
    var last := p[slash + 1..];
    if slash < 0 then (if last == "." then "" else last)
    else if last == "" || last == "." then Name(p[..slash])
    else last
  }

  /** `PurePath.suffix` of a name: from its last dot, provided that dot is
      neither the first nor the last character. */
  function Suffix(name: string): string
  {
    var i := LastIndexOf(name, '.');
    if 0 < i < |name| - 1 then name[i..] else ""
  }

  function StorageIdFor(bagPath: string): StorageId
  {
    if Suffix(Name(bagPath)) == ".db3" then Sqlite3 else Mcap
  }

  /** The sqlite3 plugin is chosen exactly when the bag's file name ends in
      `.db3` with at least one character before it; every other path,
      `.db3` alone included, goes to mcap. */
  lemma StorageIdIsSqliteIffDb3(bagPath: string)
    ensures var n := Name(bagPath);
      StorageIdFor(bagPath) == Sqlite3 <==> |n| > 4 && n[|n| - 4..] == ".db3"
    ensures StorageIdFor(bagPath) != Sqlite3 ==> StorageIdFor(bagPath) == Mcap
  {
    var n := Name(bagPath);
    var i := LastIndexOf(n, '.');
    if |n| > 4 && n[|n| - 4..] == ".db3" {
      assert n[|n| - 4] == '.';
      assert n[|n| - 3] == 'd' && n[|n| - 2] == 'b' && n[|n| - 1] == '3';
      assert i == |n| - 4;
    }
  }

  // ---------------------------------------------------------------------
  // Topic catalogue.

  /** `[t for t in all_topic_types if t.name in target_topics_list]`. */
  function KeepRequestedTopics(catalogue: seq<TopicMetadata>, targets: seq<string>): (kept: seq<TopicMetadata>)
    ensures forall t :: t in kept <==> t in catalogue && t.name in targets
    ensures |kept| <= |catalogue|
    decreases |catalogue|
  {
    if catalogue == [] then []
    else
      var rest := KeepRequestedTopics(catalogue[1..], targets);
      if catalogue[0].name in targets then [catalogue[0]] + rest else rest
  }

  /** `{topic.name: topic.type for topic in topic_types}`: later entries
      overwrite earlier ones with the same name. */
  function TypeMap(kept: seq<TopicMetadata>): map<string, string>
    decreases |kept|
  {
    if kept == [] then map[]
    else TypeMap(kept[..|kept| - 1])[kept[|kept| - 1].name := kept[|kept| - 1].typeName]
  }

  /** Every kept topic name is a key of the type map. */
  lemma {:induction false} TypeMapCoversKept(kept: seq<TopicMetadata>)
    ensures forall t :: t in kept ==> t.name in TypeMap(kept)
    decreases |kept|
  {
    if kept != [] {
      var k := |kept| - 1;
      TypeMapCoversKept(kept[..k]);
      assert kept == kept[..k] + [kept[k]];
    }
  }

  /** Every key of the type map is mapped to the type of a kept entry with
      that name, so the map invents no topic and no type. */
  lemma {:induction false} TypeMapFromKept(kept: seq<TopicMetadata>)
    ensures forall n :: n in TypeMap(kept) ==> TopicMetadata(n, TypeMap(kept)[n]) in kept
    decreases |kept|
  {
    if kept != [] {
      var k := |kept| - 1;
      TypeMapFromKept(kept[..k]);
      assert kept == kept[..k] + [kept[k]];
    }
  }

  /** Of several kept entries with one name, the LAST one's type wins. */
  lemma {:induction false} TypeMapLastWins(kept: seq<TopicMetadata>)
    ensures forall i :: 0 <= i < |kept| && (forall j :: i < j < |kept| ==> kept[j].name != kept[i].name)
                        ==> kept[i].name in TypeMap(kept) && TypeMap(kept)[kept[i].name] == kept[i].typeName
    decreases |kept|
  {
    TypeMapCoversKept(kept);
    if kept != [] {
      var k := |kept| - 1;
      var prefix := kept[..k];
      TypeMapLastWins(prefix);
      TypeMapCoversKept(prefix);
      forall i | 0 <= i < |kept| && (forall j :: i < j < |kept| ==> kept[j].name != kept[i].name)
        ensures kept[i].name in TypeMap(kept) && TypeMap(kept)[kept[i].name] == kept[i].typeName
      {
        assert kept[i] in kept;
        if i < k {
          assert kept[k].name != kept[i].name;
          assert prefix[i] == kept[i];
          forall j | i < j < k ensures prefix[j].name != prefix[i].name {
            assert prefix[j] == kept[j];
          }
        }
      }
    }
  }

  /** Composing the filter and the dict: a requested topic that the
      catalogue lists more than once gets the type of its LAST catalogue
      entry. */
  lemma ResolvedTypeIsLastCatalogueEntry(catalogue: seq<TopicMetadata>, targets: seq<string>, i: nat)
    requires i < |catalogue| && catalogue[i].name in targets
    requires forall j :: i < j < |catalogue| ==> catalogue[j].name != catalogue[i].name
    ensures catalogue[i].name in TypeMap(KeepRequestedTopics(catalogue, targets))
    ensures TypeMap(KeepRequestedTopics(catalogue, targets))[catalogue[i].name] == catalogue[i].typeName
  {
    var kept := KeepRequestedTopics(catalogue, targets);
    var m := KeptIndex(catalogue, targets, i);
    TypeMapLastWins(kept);
    assert kept[m] == catalogue[i];
  }

  /** The position in the kept list of catalogue entry `i`, when `i` is
      requested; every kept entry after it comes from a later catalogue
      entry. */
  lemma {:induction false} KeptIndex(catalogue: seq<TopicMetadata>, targets: seq<string>, i: nat) returns (m: nat)
    requires i < |catalogue| && catalogue[i].name in targets
    ensures m < |KeepRequestedTopics(catalogue, targets)|
    ensures KeepRequestedTopics(catalogue, targets)[m] == catalogue[i]
    ensures forall j :: m < j < |KeepRequestedTopics(catalogue, targets)| ==>
              KeepRequestedTopics(catalogue, targets)[j] in catalogue[i + 1..]
    decreases |catalogue|
  {
    var kept := KeepRequestedTopics(catalogue, targets);
    var rest := KeepRequestedTopics(catalogue[1..], targets);
    if i == 0 {
      assert kept == [catalogue[0]] + rest;
      m := 0;
    } else {
      var m' := KeptIndex(catalogue[1..], targets, i - 1);
      assert catalogue[1..][i..] == catalogue[i + 1..];
      if catalogue[0].name in targets {
        assert kept == [catalogue[0]] + rest;
        m := m' + 1;
      } else {
        m := m';
      }
    }
  }

  /** Some resolved type cannot be imported: `get_message` raises. */
  predicate ImportFails(typeMap: map<string, string>, importable: set<string>)
  {
    exists n :: n in typeMap && typeMap[n] !in importable
  }

  // ---------------------------------------------------------------------
  // Per-record rule and the rows of a whole bag.

  /** A row as every written row is: on a requested topic with its resolved
      type, and with the millisecond column equal to the nanosecond
      difference divided by 10^6. */
  predicate WellFormedRow(row: Row, targets: seq<string>, typeMap: map<string, string>)
  {
    && row.topicName in targets
    && row.topicName in typeMap
    && row.topicType == typeMap[row.topicName]
    && row.differenceMs * 1_000_000.0 == (row.receptionNs - row.messageNs) as real
  }

  /** The row one record yields, or `None` when the loop `continue`s. */
  function RowFor(rec: SerializedRecord, targets: seq<string>, typeMap: map<string, string>,
                  deserialize: Deserializer): (r: Option<Row>)
    ensures r.Some? ==> WellFormedRow(r.value, targets, typeMap)
  {
    if rec.topicName !in targets then None
    else if rec.topicName !in typeMap then None
    else
      match deserialize(rec.data, typeMap[rec.topicName])
      case None => None
      case Some(msg) =>
        match HeaderStamp(msg)
        case None => None
        case Some(stamp) =>
          var messageNs := StampNanos(stamp);
          Some(Row(rec.topicName, typeMap[rec.topicName], rec.timestampNs, messageNs,
                   (rec.timestampNs - messageNs) as real / 1_000_000.0))
  }

  /** The skip rules: a record yields no row exactly when its topic is not
      requested, has no resolved type, its payload does not deserialise, or
      the message has no `header.stamp`. Otherwise its row carries the
      record's topic, the topic's type, the bag's reception time and the
      header time `sec * 10^9 + nanosec`. */
  lemma RowForSkipsExactly(rec: SerializedRecord, targets: seq<string>, typeMap: map<string, string>,
                           deserialize: Deserializer)
    ensures RowFor(rec, targets, typeMap, deserialize).None? <==>
      || rec.topicName !in targets
      || rec.topicName !in typeMap
      || deserialize(rec.data, typeMap[rec.topicName]).None?
      || HeaderStamp(deserialize(rec.data, typeMap[rec.topicName]).value).None?
    ensures RowFor(rec, targets, typeMap, deserialize).Some? ==>
      var row := RowFor(rec, targets, typeMap, deserialize).value;
      && row.topicName == rec.topicName
      && row.topicType == typeMap[rec.topicName]
      && row.receptionNs == rec.timestampNs
      && row.messageNs == StampNanos(HeaderStamp(deserialize(rec.data, typeMap[rec.topicName]).value).value)
  {
  }

  /** The rows of `records`, in storage order. */
  function Rows(records: seq<SerializedRecord>, targets: seq<string>, typeMap: map<string, string>,
                deserialize: Deserializer): (rows: seq<Row>)
    ensures |rows| <= |records|
    ensures forall row :: row in rows ==> WellFormedRow(row, targets, typeMap)
    decreases |records|
  {
    if records == [] then []
    else
      var n := |records| - 1;
      Rows(records[..n], targets, typeMap, deserialize)
        + match RowFor(records[n], targets, typeMap, deserialize)
          case None => []
          case Some(row) => [row]
  }

  /** Positions, in storage order, of the records that yield a row. */
  function ValidIndices(records: seq<SerializedRecord>, targets: seq<string>, typeMap: map<string, string>,
                        deserialize: Deserializer): seq<nat>
    decreases |records|
  {
    if records == [] then []
    else
      var n := |records| - 1;
      ValidIndices(records[..n], targets, typeMap, deserialize)
        + if RowFor(records[n], targets, typeMap, deserialize).Some? then [n] else []
  }

  /** One row per record that passes every check, in the bag's read order:
      the k-th row comes from the k-th such record (by position), so the
      row count is the number of those records. */
  lemma {:induction false} RowsFollowValidRecords(records: seq<SerializedRecord>, targets: seq<string>,
                                                 typeMap: map<string, string>, deserialize: Deserializer)
    ensures |ValidIndices(records, targets, typeMap, deserialize)| == |Rows(records, targets, typeMap, deserialize)|
    ensures forall k :: 0 <= k < |ValidIndices(records, targets, typeMap, deserialize)| ==>
              && ValidIndices(records, targets, typeMap, deserialize)[k] < |records|
              && RowFor(records[ValidIndices(records, targets, typeMap, deserialize)[k]], targets, typeMap, deserialize)
                 == Some(Rows(records, targets, typeMap, deserialize)[k])
    decreases |records|
  {
    if records != [] {
      var n := |records| - 1;
      var prefix := records[..n];
      RowsFollowValidRecords(prefix, targets, typeMap, deserialize);
      var idx0 := ValidIndices(prefix, targets, typeMap, deserialize);
      var rows0 := Rows(prefix, targets, typeMap, deserialize);
      var idx := ValidIndices(records, targets, typeMap, deserialize);
      var rows := Rows(records, targets, typeMap, deserialize);
      var out := RowFor(records[n], targets, typeMap, deserialize);
      assert out.Some? ==> idx == idx0 + [n] && rows == rows0 + [out.value];
      assert out.None? ==> idx == idx0 && rows == rows0;
      forall k | 0 <= k < |idx0|
        ensures idx[k] == idx0[k] && rows[k] == rows0[k] && records[idx0[k]] == prefix[idx0[k]]
      {
      }
    }
  }

  /** The valid positions are listed in increasing order, and every record
      that yields a row is listed: no valid record is dropped. */
  lemma {:induction false} ValidIndicesComplete(records: seq<SerializedRecord>, targets: seq<string>,
                                               typeMap: map<string, string>, deserialize: Deserializer)
    ensures forall k :: 0 <= k < |ValidIndices(records, targets, typeMap, deserialize)| ==>
              ValidIndices(records, targets, typeMap, deserialize)[k] < |records|
    ensures forall k, l :: 0 <= k < l < |ValidIndices(records, targets, typeMap, deserialize)| ==>
              ValidIndices(records, targets, typeMap, deserialize)[k]
              < ValidIndices(records, targets, typeMap, deserialize)[l]
    ensures forall i :: 0 <= i < |records| && RowFor(records[i], targets, typeMap, deserialize).Some? ==>
              i in ValidIndices(records, targets, typeMap, deserialize)
    decreases |records|
  {
    if records != [] {
      var n := |records| - 1;
      var prefix := records[..n];
      ValidIndicesComplete(prefix, targets, typeMap, deserialize);
      var idx0 := ValidIndices(prefix, targets, typeMap, deserialize);
      var idx := ValidIndices(records, targets, typeMap, deserialize);
      if RowFor(records[n], targets, typeMap, deserialize).Some? {
        assert idx == idx0 + [n];
        forall k | 0 <= k < |idx0| ensures idx[k] == idx0[k] && idx[k] < n {
        }
      } else {
        assert idx == idx0;
      }
      forall i | 0 <= i < |records| && RowFor(records[i], targets, typeMap, deserialize).Some?
        ensures i in idx
      {
        if i < n {
          assert records[i] == prefix[i];
        }
      }
    }
  }

  /** Rows of a concatenation are the concatenation of the rows. */
  lemma {:induction false} RowsAppend(a: seq<SerializedRecord>, b: seq<SerializedRecord>, targets: seq<string>,
                                     typeMap: map<string, string>, deserialize: Deserializer)
    ensures Rows(a + b, targets, typeMap, deserialize)
         == Rows(a, targets, typeMap, deserialize) + Rows(b, targets, typeMap, deserialize)
    decreases |b|
  {
    if b == [] {
      assert a + b == a;
    } else {
      var n := |b| - 1;
      assert (a + b)[..|a + b| - 1] == a + b[..n];
      assert (a + b)[|a + b| - 1] == b[n];
      RowsAppend(a, b[..n], targets, typeMap, deserialize);
    }
  }

  /** A record that is skipped (off-topic, unknown type, undecodable or
      unstamped) removes nothing else: the loop goes on with the next record
      and the rows are those of the bag without it. */
  lemma SkippedRecordChangesNothingElse(before: seq<SerializedRecord>, rec: SerializedRecord,
                                        after: seq<SerializedRecord>, targets: seq<string>,
                                        typeMap: map<string, string>, deserialize: Deserializer)
    requires RowFor(rec, targets, typeMap, deserialize).None?
    ensures Rows(before + [rec] + after, targets, typeMap, deserialize)
         == Rows(before + after, targets, typeMap, deserialize)
  {
    RowsAppend(before + [rec], after, targets, typeMap, deserialize);
    RowsAppend(before, [rec], targets, typeMap, deserialize);
    RowsAppend(before, after, targets, typeMap, deserialize);
    assert [rec][..0] == [];
    assert Rows([rec], targets, typeMap, deserialize) == [];
    assert Rows(before, targets, typeMap, deserialize) + [] == Rows(before, targets, typeMap, deserialize);
  }

  // ---------------------------------------------------------------------
  // The whole run.

  /** One data line per row, in order. */
  function DataLines(rows: seq<Row>): seq<CsvLine>
  {
    seq(|rows|, k requires 0 <= k < |rows| => DataLine(rows[k]))
  }

  /** What `export_time_differences` ends with. */
  function Export(bagPath: string, targets: seq<string>, open: Opener, importable: set<string>,
                  deserialize: Deserializer): ExportOutcome
  {
    match open(bagPath, StorageIdFor(bagPath))
    case None => Exited(1, OpenFailed)
    case Some(bag) =>
      var kept := KeepRequestedTopics(bag.topics, targets);
      if kept == [] then Exited(1, NoMatchingTopics)
      else
        var typeMap := TypeMap(kept);
        if ImportFails(typeMap, importable) then Exited(1, ImportFailed)
        else Finished([HeaderLine(FieldNames)] + DataLines(ExportedRows(bag, targets, deserialize)))
  }

  /** The exits: each failure exits with status 1 before the CSV file is
      written; the fail-fast exit happens exactly when no topic of the
      bag's catalogue is among the requested ones; past it, the import exit
      happens exactly when some requested topic's resolved type (that of
      its last catalogue entry) cannot be imported, and otherwise the run
      finishes. */
  lemma ExportExits(bagPath: string, targets: seq<string>, open: Opener, importable: set<string>,
                    deserialize: Deserializer)
    ensures var r := Export(bagPath, targets, open, importable, deserialize);
      && (r.Exited? ==> r.status == 1)
      && (open(bagPath, StorageIdFor(bagPath)).None? <==> r == Exited(1, OpenFailed))
      && (open(bagPath, StorageIdFor(bagPath)).Some? ==>
            ((forall t :: t in open(bagPath, StorageIdFor(bagPath)).value.topics ==> t.name !in targets)
             <==> r == Exited(1, NoMatchingTopics)))
    ensures var r := Export(bagPath, targets, open, importable, deserialize);
      open(bagPath, StorageIdFor(bagPath)).Some? && r != Exited(1, NoMatchingTopics) ==>
        var cat := open(bagPath, StorageIdFor(bagPath)).value.topics;
        && (r == Exited(1, ImportFailed) <==> UnimportableLastEntry(cat, targets, importable))
        && (r.Finished? <==> r != Exited(1, ImportFailed))
  {
    var res := open(bagPath, StorageIdFor(bagPath));
    if res.Some? {
      var kept := KeepRequestedTopics(res.value.topics, targets);
      if kept != [] {
        assert kept[0] in res.value.topics && kept[0].name in targets;
      }
      ImportFailsIffUnimportableEntry(res.value.topics, targets, importable);
    }
  }

  /** Some requested catalogue entry, the last one with its name, has a
      type that cannot be imported. */
  predicate UnimportableLastEntry(cat: seq<TopicMetadata>, targets: seq<string>, importable: set<string>)
  {
    exists i :: 0 <= i < |cat| && cat[i].name in targets
      && (forall j :: i < j < |cat| ==> cat[j].name != cat[i].name)
      && cat[i].typeName !in importable
  }

  /** The import check fails exactly when the last catalogue entry of some
      requested topic names a type that cannot be imported. */
  lemma ImportFailsIffUnimportableEntry(cat: seq<TopicMetadata>, targets: seq<string>, importable: set<string>)
    ensures ImportFails(TypeMap(KeepRequestedTopics(cat, targets)), importable)
            <==> UnimportableLastEntry(cat, targets, importable)
  {
    var kept := KeepRequestedTopics(cat, targets);
    var typeMap := TypeMap(kept);
    if ImportFails(typeMap, importable) {
      var n :| n in typeMap && typeMap[n] !in importable;
      TypeMapFromKept(kept);
      assert TopicMetadata(n, typeMap[n]) in cat;
      var p :| 0 <= p < |cat| && cat[p] == TopicMetadata(n, typeMap[n]);
      var j := LastWithName(cat, p);
      ResolvedTypeIsLastCatalogueEntry(cat, targets, j);
      assert cat[j].typeName == typeMap[n];
    }
    if UnimportableLastEntry(cat, targets, importable) {
      var i :| 0 <= i < |cat| && cat[i].name in targets
        && (forall j :: i < j < |cat| ==> cat[j].name != cat[i].name)
        && cat[i].typeName !in importable;
      ResolvedTypeIsLastCatalogueEntry(cat, targets, i);
    }
  }

  /** The last catalogue position at or after `p` with `cat[p]`'s name. */
  lemma {:induction false} LastWithName(cat: seq<TopicMetadata>, p: nat) returns (j: nat)
    requires p < |cat|
    ensures p <= j < |cat| && cat[j].name == cat[p].name
    ensures forall k :: j < k < |cat| ==> cat[k].name != cat[p].name
    decreases |cat| - p
  {
    if forall k :: p < k < |cat| ==> cat[k].name != cat[p].name {
      j := p;
    } else {
      var q :| p < q < |cat| && cat[q].name == cat[p].name;
      j := LastWithName(cat, q);
    }
  }

  /** Every row comes from a requested topic that the catalogue lists with
      the row's type: a requested topic absent from the bag yields nothing. */
  lemma RowsOnlyForCatalogueTopics(catalogue: seq<TopicMetadata>, targets: seq<string>,
                                   records: seq<SerializedRecord>, deserialize: Deserializer)
    ensures var typeMap := TypeMap(KeepRequestedTopics(catalogue, targets));
      forall row :: row in Rows(records, targets, typeMap, deserialize) ==>
        && row.topicName in targets
        && TopicMetadata(row.topicName, row.topicType) in catalogue
        && row.differenceMs * 1_000_000.0 == (row.receptionNs - row.messageNs) as real
  {
    var kept := KeepRequestedTopics(catalogue, targets);
    TypeMapFromKept(kept);
    var typeMap := TypeMap(kept);
    forall row | row in Rows(records, targets, typeMap, deserialize)
      ensures TopicMetadata(row.topicName, row.topicType) in catalogue
    {
      assert WellFormedRow(row, targets, typeMap);
      assert TopicMetadata(row.topicName, typeMap[row.topicName]) in kept;
    }
  }

  /** The table: the header comes first and every other line is a data row
      on a requested topic that the bag's catalogue lists with that type,
      its millisecond column being the nanosecond difference over 10^6. */
  lemma ExportTable(bagPath: string, targets: seq<string>, open: Opener, importable: set<string>,
                    deserialize: Deserializer)
    ensures var r := Export(bagPath, targets, open, importable, deserialize);
      r.Finished? ==>
        var bag := open(bagPath, StorageIdFor(bagPath)).value;
        && |r.lines| >= 1
        && r.lines[0] == HeaderLine(FieldNames)
        && forall k :: 1 <= k < |r.lines| ==>
             && r.lines[k].DataLine?
             && r.lines[k].row.topicName in targets
             && TopicMetadata(r.lines[k].row.topicName, r.lines[k].row.topicType) in bag.topics
             && r.lines[k].row.differenceMs * 1_000_000.0
                == (r.lines[k].row.receptionNs - r.lines[k].row.messageNs) as real
  {
    var r := Export(bagPath, targets, open, importable, deserialize);
    if r.Finished? {
      var bag := open(bagPath, StorageIdFor(bagPath)).value;
      var rows := ExportedRows(bag, targets, deserialize);
      ExportFinishedLines(bagPath, targets, open, importable, deserialize);
      RowsOnlyForCatalogueTopics(bag.topics, targets, bag.records, deserialize);
      TableLines(r.lines, rows, targets, bag.topics);
    }
  }

  function ExportedRows(bag: Bag, targets: seq<string>, deserialize: Deserializer): seq<Row>
  {
    Rows(bag.records, targets, TypeMap(KeepRequestedTopics(bag.topics, targets)), deserialize)
  }

  lemma ExportFinishedLines(bagPath: string, targets: seq<string>, open: Opener, importable: set<string>,
                            deserialize: Deserializer)
    ensures var r := Export(bagPath, targets, open, importable, deserialize);
      r.Finished? ==>
        && open(bagPath, StorageIdFor(bagPath)).Some?
        && r.lines == [HeaderLine(FieldNames)]
                      + DataLines(ExportedRows(open(bagPath, StorageIdFor(bagPath)).value, targets, deserialize))
  {
  }

  lemma TableLines(lines: seq<CsvLine>, rows: seq<Row>, targets: seq<string>, catalogue: seq<TopicMetadata>)
    requires lines == [HeaderLine(FieldNames)] + DataLines(rows)
    requires forall row :: row in rows ==>
        && row.topicName in targets
        && TopicMetadata(row.topicName, row.topicType) in catalogue
        && row.differenceMs * 1_000_000.0 == (row.receptionNs - row.messageNs) as real
    ensures |lines| >= 1 && lines[0] == HeaderLine(FieldNames)
    ensures forall k :: 1 <= k < |lines| ==>
             && lines[k].DataLine?
             && lines[k].row.topicName in targets
             && TopicMetadata(lines[k].row.topicName, lines[k].row.topicType) in catalogue
             && lines[k].row.differenceMs * 1_000_000.0
                == (lines[k].row.receptionNs - lines[k].row.messageNs) as real
  {
    forall k | 1 <= k < |lines|
      ensures lines[k] == DataLine(rows[k - 1]) && rows[k - 1] in rows
    {
    }
  }

  /** The exporter: storage id, open, catalogue filter, fail-fast check,
      type resolution, then the read loop that appends one data row per
      record that passes every check. */
  method ExportTimeDifferences(bagPath: string, targets: seq<string>, open: Opener, importable: set<string>,
                               deserialize: Deserializer) returns (outcome: ExportOutcome)
    ensures outcome == Export(bagPath, targets, open, importable, deserialize)
  {
    var storageId := StorageIdFor(bagPath);
    var openResult := open(bagPath, storageId);
    if openResult.None? {
      return Exited(1, OpenFailed);
    }
    var bag := openResult.value;
    var topicTypes := KeepRequestedTopics(bag.topics, targets);
    if topicTypes == [] {
      return Exited(1, NoMatchingTopics);
    }
    var typeMap := TypeMap(topicTypes);
    if ImportFails(typeMap, importable) {
      return Exited(1, ImportFailed);
    }

    var lines := WriteTable(bag.records, targets, typeMap, deserialize);
    outcome := Finished(lines);
  }

  /** The `with open(output_filename)` block: the header line, then the read
      loop over the records in storage order, skipping with `continue`. */
  method WriteTable(records: seq<SerializedRecord>, targets: seq<string>, typeMap: map<string, string>,
                    deserialize: Deserializer) returns (lines: seq<CsvLine>)
    ensures lines == [HeaderLine(FieldNames)] + DataLines(Rows(records, targets, typeMap, deserialize))
  {
    lines := [HeaderLine(FieldNames)];
    var i := 0;
    while i < |records|
      invariant 0 <= i <= |records|
      invariant lines == [HeaderLine(FieldNames)] + DataLines(Rows(records[..i], targets, typeMap, deserialize))
    {
      var rec := records[i];
      ghost var done := Rows(records[..i], targets, typeMap, deserialize);
      ghost var next := RowFor(rec, targets, typeMap, deserialize);
      assert records[..i + 1][..i] == records[..i];
      assert Rows(records[..i + 1], targets, typeMap, deserialize)
          == done + match next case None => [] case Some(row) => [row];
      assert done + [] == done;
      i := i + 1;
      if rec.topicName !in targets {
        continue;
      }
      var receptionNs := rec.timestampNs;
      if rec.topicName !in typeMap {
        continue;
      }
      var topicType := typeMap[rec.topicName];
      var msg := deserialize(rec.data, topicType);
      if msg.None? {
        continue;
      }
      var stamp := HeaderStamp(msg.value);
      if stamp.None? {
        continue;
      }
      var messageNs := stamp.value.sec * 1_000_000_000 + stamp.value.nanosec;
      var differenceMs := (receptionNs - messageNs) as real / 1_000_000.0;
      var row := Row(rec.topicName, topicType, receptionNs, messageNs, differenceMs);
      assert next == Some(row);
      lines := lines + [DataLine(row)];
      assert DataLines(done + [row]) == DataLines(done) + [DataLine(row)];
    }
    assert records[..i] == records;
  }
}
