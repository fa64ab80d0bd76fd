// One helper's command history over a log root that nobody else touches
// meanwhile (command/history.go). Interleavings with other helpers are the
// subject of LogProtocol.
module History {
  import opened Wrappers
  import opened Blanks
  import opened IndexRows
  import opened LogProtocol
  import opened LogInvariant
  import opened LogIndex

  const MAX_RECORD_BYTES := 16 * 0x10_0000
  const MAX_ROW_BYTES := 0x10_0000
  const UNSET := 0

  /** The directory several helpers share: index files, and record files by path. */
  class LogRoot {
    var index: map<string, seq<Row>>
    var files: map<string, Record>

    constructor ()
      ensures index == map[] && files == map[]
    {
      index, files := map[], map[];
    }

    /** Rows know the index file they are read from. */
    ghost predicate Tagged()
      reads this
    {
      forall path :: path in index ==> forall r :: r in index[path] ==> r.index == path
    }
  }

  /** Encoded sizes; the encoding itself is not part of this model. */
  datatype Sizes = Sizes(record: Record -> nat, row: Row -> nat)

  datatype PutError = MissingId | RecordTooLarge | RowTooLarge

  predicate Blank(id: string) {
    TrimSpace(id) == ""
  }

  /** The record as it is stored: a missing creation time is now. */
  function Dated(record: Record, now: int): Record {
    record.(row := record.row.(createdAt := if record.row.createdAt == UNSET then now else record.row.createdAt))
  }

  function Verdict(sizes: Sizes, persistent: bool, record: Record, now: int): Result<Record, PutError> {
    var stored := Dated(record, now);
    if Blank(record.row.id) then Err(MissingId)
    else if persistent && sizes.record(stored) > MAX_RECORD_BYTES then Err(RecordTooLarge)
    else if persistent && sizes.row(stored.row) + 1 > MAX_ROW_BYTES then Err(RowTooLarge)
    else Ok(stored)
  }

  /** The record files after a put: written once the record fits its cap. */
  function FilesAfter(sizes: Sizes, files: map<string, Record>, record: Record, now: int): map<string, Record> {
    var stored := Dated(record, now);
    if Blank(record.row.id) || sizes.record(stored) > MAX_RECORD_BYTES then files
    else files[record.row.file := stored]
  }

  /** The index files after a put: the append opens its file, and so creates it,
      before the row is measured. */
  function IndexAfter(sizes: Sizes, index: map<string, seq<Row>>, record: Record, now: int): map<string, seq<Row>> {
    var stored := Dated(record, now);
    var path := record.row.index;
    match Verdict(sizes, true, record, now)
    case Ok(_) => index[path := RowsAt(index, path) + [stored.row]]
    case Err(RowTooLarge) => index[path := RowsAt(index, path)]
    case Err(_) => index
  }

  /** What an accepted put means to a reader: its own command absorbs the new
      row, every other command shows the row it showed before, however the files
      are listed. A command's rows are all in its home file. */
  lemma AcceptedPutShowsOneMoreRow(
    cfg: Config, before: map<string, seq<Row>>, listed: seq<string>,
    after: map<string, seq<Row>>, relisted: seq<string>, row: Row, id: string)
    requires Lists(listed, before) && Lists(relisted, after)
    requires row.index == cfg.home(row.id) && forall path :: path in before ==> Placed(cfg, path, before[path])
    requires RowsAt(after, row.index) == RowsAt(before, row.index) + [row]
    requires forall path :: path != row.index ==> RowsAt(after, path) == RowsAt(before, path)
    ensures Best(Scan(after, relisted), id)
         == if id == row.id then Absorb(Best(Scan(before, listed), id), row, id) else Best(Scan(before, listed), id)
  {
    ScanShowsHomeFile(cfg, before, listed, id);
    forall path | path in after ensures Placed(cfg, path, after[path]) {
      assert RowsAt(after, path) == after[path];
      if path in before { assert Placed(cfg, path, before[path]); }
    }
    ScanShowsHomeFile(cfg, after, relisted, id);
    var rows := RowsAt(before, row.index);
    assert (rows + [row])[..|rows|] == rows;
  }

  lemma ScanShowsHomeFile(cfg: Config, index: map<string, seq<Row>>, paths: seq<string>, id: string)
    requires Lists(paths, index) && forall path :: path in index ==> Placed(cfg, path, index[path])
    ensures Best(Scan(index, paths), id) == Best(RowsAt(index, cfg.home(id)), id)
  {
    var read := seq(|paths|, i requires 0 <= i < |paths| => RowsAt(index, paths[i]));
    forall i | 0 <= i < |paths| ensures Placed(cfg, paths[i], read[i]) { assert paths[i] in paths; }
    BestAcrossFiles(cfg, paths, read, id);
    if cfg.home(id) in paths {
      var i :| 0 <= i < |paths| && paths[i] == cfg.home(id);
      assert read[i] == RowsAt(index, cfg.home(id));
    }
  }

  /** A refused put shows in no listing: it leaves every file's rows alone, and
      creates an index file exactly if the row is refused and there was none. */
  lemma RefusedPutLeavesRowsAlone(sizes: Sizes, index: map<string, seq<Row>>, record: Record, now: int)
    requires Verdict(sizes, true, record, now).Err?
    ensures forall path :: RowsAt(IndexAfter(sizes, index, record, now), path) == RowsAt(index, path)
    ensures IndexAfter(sizes, index, record, now) == index
       <==> Verdict(sizes, true, record, now) != Err(RowTooLarge) || record.row.index in index
  {
    var after := IndexAfter(sizes, index, record, now);
    if Verdict(sizes, true, record, now) == Err(RowTooLarge) {
      assert record.row.index in after;
    }
  }

  /** A caller expects a refused put to have changed nothing. The record file
      that was there keeps its content exactly unless the record fits, its row
      does not, and the file held anything else. */
  lemma RefusedPutLeavesNoTraceExactly(sizes: Sizes, files: map<string, Record>, record: Record, now: int)
    requires Verdict(sizes, true, record, now).Err?
    ensures var stored := Dated(record, now);
            FilesAfter(sizes, files, record, now) == files
            <==> || Blank(record.row.id)
                 || sizes.record(stored) > MAX_RECORD_BYTES
                 || (record.row.file in files && files[record.row.file] == stored)
  {
    var stored := Dated(record, now);
    var after := FilesAfter(sizes, files, record, now);
    if !Blank(record.row.id) && sizes.record(stored) <= MAX_RECORD_BYTES {
      assert record.row.file in after && after[record.row.file] == stored;
    }
  }

  /** A running record whose command line is as long as the line cap, and sizes
      that count the command line and the output. */
  function LongCommand(): Record {
    Record(Row("id", "running", 1, "index", "file", seq(MAX_ROW_BYTES, i => 'x')), "")
  }

  function PlainSizes(): Sizes {
    Sizes((record: Record) => |record.row.details| + |record.output|, (row: Row) => |row.details|)
  }

  /** Its put is refused, and leaves its record file behind. */
  lemma OversizedRowLeavesItsFile()
    ensures Verdict(PlainSizes(), true, LongCommand(), 1) == Err(RowTooLarge)
    ensures FilesAfter(PlainSizes(), map[], LongCommand(), 1) == map["file" := LongCommand()]
  {
    assert !Blank("id") by { assert "id"[0] == 'i'; }
    assert |LongCommand().row.details| == MAX_ROW_BYTES;
    assert Dated(LongCommand(), 1) == LongCommand();
  }

  /** Every index file's rows, in the order a scan lists the files. */
  function Scan(index: map<string, seq<Row>>, paths: seq<string>): seq<Row> {
    Flatten(seq(|paths|, i requires 0 <= i < |paths| => RowsAt(index, paths[i])))
  }

  class History {
    const disk: LogRoot?  // null keeps the history in memory only
    const sizes: Sizes
    const retention: int
    const maxRecords: int
    var records: map<string, Record>

    constructor (disk: LogRoot?, sizes: Sizes, retention: int, maxRecords: int)
      ensures this.disk == disk && this.sizes == sizes && records == map[]
      ensures this.retention == retention && this.maxRecords == maxRecords
    {
      this.disk, this.sizes, this.retention, this.maxRecords := disk, sizes, retention, maxRecords;
      records := map[];
    }

    /** Stores a record, or refuses it for exactly one of three reasons. A
        record over the size cap leaves no trace; a row over the line cap is
        refused only after its record file was written. */
    method Put(record: Record, now: int) returns (r: Result<Record, PutError>)
      requires disk != null ==> disk.Tagged()
      modifies this`records, disk
      ensures disk != null ==> disk.Tagged()
      ensures r == Verdict(sizes, disk != null, record, now)
      ensures r.Ok? ==>
                r.value == record.(row := r.value.row) && r.value.row == record.row.(createdAt := r.value.row.createdAt)
      ensures r.Ok? ==> r.value.row.createdAt == if record.row.createdAt == UNSET then now else record.row.createdAt
      ensures r == Err(MissingId) <==> TrimSpace(record.row.id) == ""
      ensures disk == null ==> r.Ok? || r == Err(MissingId)
      ensures disk != null && r.Ok? ==> sizes.record(r.value) <= 16 * 0x10_0000 && sizes.row(r.value.row) < 0x10_0000
      ensures records == if r.Ok? then old(records)[record.row.id := r.value] else old(records)
      ensures disk != null ==> disk.files == FilesAfter(sizes, old(disk.files), record, now)
      ensures disk != null && r.Ok? ==> record.row.file in disk.files && disk.files[record.row.file] == r.value
      ensures disk != null ==>
                forall file :: file != record.row.file ==>
                  && (file in disk.files <==> file in old(disk.files))
                  && (file in disk.files ==> disk.files[file] == old(disk.files)[file])
      ensures disk != null ==> disk.index == IndexAfter(sizes, old(disk.index), record, now)
      ensures disk != null && r.Ok? ==>
                RowsAt(disk.index, record.row.index) == RowsAt(old(disk.index), record.row.index) + [r.value.row]
      ensures disk != null ==>
                forall path :: path != record.row.index || r.Err? ==>
                  RowsAt(disk.index, path) == RowsAt(old(disk.index), path)
    {
      if Blank(record.row.id) {
        return Err(MissingId);
      }
      var stored := record;
      if stored.row.createdAt == UNSET {
        stored := stored.(row := stored.row.(createdAt := now));
      }
      if disk == null {
        records := records[stored.row.id := stored];
        return Ok(stored);
      }
      if sizes.record(stored) > MAX_RECORD_BYTES {
        return Err(RecordTooLarge);
      }
      disk.files := disk.files[stored.row.file := stored];
      var path := stored.row.index;
      disk.index := disk.index[path := RowsAt(disk.index, path)];
      if sizes.row(stored.row) + 1 > MAX_ROW_BYTES {
        return Err(RowTooLarge);
      }
      disk.index := disk.index[path := RowsAt(disk.index, path) + [stored.row]];
      records := records[stored.row.id := stored];
      return Ok(stored);
    }

    /** Refreshes the streamed output of a command this process believes to be
        running; a finished record is never touched. */
    method UpdateRunningOutput(id: string, output: string) returns (known: bool)
      modifies this`records
      ensures known <==> id in old(records)
      ensures records.Keys == old(records).Keys
      ensures forall other :: other in records ==>
                records[other] == if other == id && old(records)[id].row.status == "running"
                                  then old(records)[id].(output := output) else old(records)[other]
    {
      if id !in records {
        return false;
      }
      var record := records[id];
      if record.row.status != "running" {
        return true;
      }
      records := records[id := record.(output := output)];
      return true;
    }

    /** All index rows, file by file in some order. */
    method ReadEntries() returns (entries: seq<Row>, ghost paths: seq<string>)
      requires disk != null
      ensures Lists(paths, disk.index) && entries == Scan(disk.index, paths)
    {
      var pending := disk.index.Keys;
      ghost var parts: seq<seq<Row>> := [];
      entries, paths := [], [];
      while pending != {}
        invariant pending <= disk.index.Keys
        invariant forall path :: path in disk.index <==> path in paths || path in pending
        invariant forall path :: path in paths ==> path !in pending
        invariant forall i, j :: 0 <= i < j < |paths| ==> paths[i] != paths[j]
        invariant |parts| == |paths|
        invariant forall i :: 0 <= i < |paths| ==> parts[i] == RowsAt(disk.index, paths[i])
        invariant entries == Flatten(parts)
      {
        var path :| path in pending;
        pending := pending - {path};
        entries := entries + disk.index[path];
        assert (parts + [disk.index[path]])[..|parts|] == parts;
        parts, paths := parts + [disk.index[path]], paths + [path];
      }
      var index := disk.index;
      assert parts == seq(|paths|, i requires 0 <= i < |paths| => RowsAt(index, paths[i]));
    }

    /** The best record known: a cached terminal record as it stands, otherwise
        a terminal record from disk, which is then cached, otherwise the live
        snapshot, otherwise whatever the disk holds. */
    method GetRecord(id: string) returns (found: Option<Record>, ghost paths: seq<string>)
      modifies this`records
      ensures var cached := if id in old(records) then Some(old(records)[id]) else None;
              disk == null || (cached.Some? && cached.value.row.status !in {"", "running"}) ==>
                found == cached && records == old(records)
      ensures var cached := if id in old(records) then Some(old(records)[id]) else None;
              disk != null && !(cached.Some? && cached.value.row.status !in {"", "running"}) ==>
                && Lists(paths, disk.index)
                && var best := Best(Scan(disk.index, paths), id);
                var durable :=
                  if best.Some? && best.value.file in disk.files then Some(disk.files[best.value.file]) else None;
                if durable.Some? && durable.value.row.status !in {"", "running"} then
                  found == durable && records == old(records)[id := durable.value]
                else
                  found == (if cached.Some? then cached else durable) && records == old(records)
    {
      var cached := if id in records then Some(records[id]) else None;
      paths := [];
      if disk == null || (cached.Some? && Terminal(cached.value)) {
        return cached, paths;
      }
      var entries;
      entries, paths := ReadEntries();
      var best := ResolveEntry(entries, id);
      var durable := None;
      if best.Some? && best.value.file in disk.files {
        durable := Some(disk.files[best.value.file]);
      }
      if durable.Some? && Terminal(durable.value) {
        records := records[id := durable.value];
        return durable, paths;
      }
      if cached.Some? {
        return cached, paths;
      }
      return durable, paths;
    }

    /** Drops what the retention policy no longer keeps. The index afterwards
        holds the kept rows and nothing else; exactly the dropped rows' files
        and cache entries are gone. */
    method Cleanup(now: int)
      returns (ghost commands: seq<Row>, ghost kept: seq<Row>, ghost dropped: seq<Row>, ghost paths: seq<string>)
      requires disk != null && disk.Tagged()
      modifies this`records, disk
      ensures disk.Tagged()
      ensures Lists(paths, old(disk.index)) && commands == Collapse(Scan(old(disk.index), paths))
      ensures Retention(commands, now - retention, maxRecords, kept, dropped)
      ensures disk.index.Keys == old(disk.index).Keys
      ensures forall path :: path in disk.index ==> disk.index[path] == KeptIn(kept, path)
      ensures forall file ::
                file in disk.files <==> file in old(disk.files) && forall d :: d in dropped ==> d.file != file
      ensures forall file :: file in disk.files ==> disk.files[file] == old(disk.files)[file]
      ensures forall id :: id in records <==> id in old(records) && forall d :: d in dropped ==> d.id != id
      ensures forall id :: id in records ==> records[id] == old(records)[id]
    {
      var entries;
      entries, paths := ReadEntries();
      commands := LatestEntries(entries);
      var latest := LatestEntries(entries);
      var keep, drop := ApplyRetention(latest, now - retention, maxRecords);
      kept, dropped := keep, drop;
      RowsComeFromListedFiles(disk.index, paths, latest, keep, drop, now - retention, maxRecords);
      RemoveEntries(drop);
      RewriteIndexes(entries, keep);
      forall path | path in disk.index ensures forall r :: r in disk.index[path] ==> r.index == path {
        KeptInHolds(keep, path);
      }
    }

    method RemoveEntries(dropped: seq<Row>)
      requires disk != null
      modifies this`records, disk`files
      ensures forall file ::
                file in disk.files <==> file in old(disk.files) && forall d :: d in dropped ==> d.file != file
      ensures forall file :: file in disk.files ==> disk.files[file] == old(disk.files)[file]
      ensures forall id :: id in records <==> id in old(records) && forall d :: d in dropped ==> d.id != id
      ensures forall id :: id in records ==> records[id] == old(records)[id]
    {
      for n := 0 to |dropped|
        invariant forall file ::
                    file in disk.files <==> file in old(disk.files) && forall d :: d in dropped[..n] ==> d.file != file
        invariant forall file :: file in disk.files ==> disk.files[file] == old(disk.files)[file]
        invariant forall id :: id in records <==> id in old(records) && forall d :: d in dropped[..n] ==> d.id != id
        invariant forall id :: id in records ==> records[id] == old(records)[id]
      {
        assert dropped[..n + 1] == dropped[..n] + [dropped[n]];
        disk.files := disk.files - {dropped[n].file};
        records := records - {dropped[n].id};
      }
      assert dropped[..|dropped|] == dropped;
    }

    /** Replaces every index file that had rows by its kept rows. */
    method RewriteIndexes(entries: seq<Row>, kept: seq<Row>)
      requires disk != null
      requires forall r :: r in entries ==> r.index in disk.index
      requires forall k :: k in kept ==> k in entries
      modifies disk`index
      ensures disk.index.Keys == old(disk.index).Keys
      ensures forall path :: path in disk.index ==>
                disk.index[path]
                == if exists r :: r in entries && r.index == path then KeptIn(kept, path) else old(disk.index)[path]
    {
      var grouped: map<string, seq<Row>> := map[];
      for n := 0 to |entries|
        invariant forall path :: path in grouped <==> exists r :: r in entries[..n] && r.index == path
        invariant forall path :: path in grouped ==> grouped[path] == []
      {
        assert entries[..n + 1] == entries[..n] + [entries[n]];
        grouped := grouped[entries[n].index := []];
      }
      assert entries[..|entries|] == entries;
      for n := 0 to |kept|
        invariant forall path :: path in grouped <==> exists r :: r in entries && r.index == path
        invariant forall path :: path in grouped ==> grouped[path] == KeptIn(kept[..n], path)
      {
        assert kept[..n + 1][..n] == kept[..n];
        assert kept[n] in entries;
        grouped := grouped[kept[n].index := grouped[kept[n].index] + [kept[n]]];
      }
      assert kept[..|kept|] == kept;
      disk.index := disk.index + grouped;
    }
  }

  /** A file without rows keeps none, and every rewritten file exists. */
  lemma RowsComeFromListedFiles(
    index: map<string, seq<Row>>, paths: seq<string>, commands: seq<Row>, kept: seq<Row>, dropped: seq<Row>,
    cutoff: int, maxRecords: int)
    requires Lists(paths, index) && commands == Collapse(Scan(index, paths))
    requires forall path :: path in index ==> forall r :: r in index[path] ==> r.index == path
    requires Retention(commands, cutoff, maxRecords, kept, dropped)
    ensures forall r :: r in Scan(index, paths) ==> r.index in index
    ensures forall k :: k in kept ==> k in Scan(index, paths)
    ensures forall path :: path in index && (forall r :: r in Scan(index, paths) ==> r.index != path) ==>
              index[path] == KeptIn(kept, path)
  {
    var rows := Scan(index, paths);
    forall r | r in rows ensures r.index in index { ScanHolds(index, paths, r); }
    KeptRowsAreShown(commands, rows, Plan(cutoff, maxRecords, kept, dropped));
    forall path | path in index && (forall r :: r in rows ==> r.index != path)
        ensures index[path] == KeptIn(kept, path) {
      KeptInHolds(kept, path);
      if index[path] != [] {
        ScanHolds(index, paths, index[path][0]);
      }
      SomeRowOrNone(KeptIn(kept, path));
    }
  }

  lemma SomeRowOrNone(rows: seq<Row>)
    ensures rows == [] || exists r :: r in rows
  {
    if rows != [] { assert rows[0] in rows; }
  }

  lemma ScanHolds(index: map<string, seq<Row>>, paths: seq<string>, row: Row)
    requires Lists(paths, index)
    ensures row in Scan(index, paths) <==> exists path :: path in index && row in index[path]
  {
    var read := seq(|paths|, i requires 0 <= i < |paths| => RowsAt(index, paths[i]));
    FlattenHolds(read, row);
    if row in Scan(index, paths) {
      var i :| 0 <= i < |read| && row in read[i];
      assert paths[i] in paths && row in index[paths[i]];
    }
    if path :| path in index && row in index[path] {
      var i :| 0 <= i < |paths| && paths[i] == path;
      assert row in read[i];
    }
  }

  /** What a cleanup means to a reader: a kept command shows the row it showed
      before, a dropped one is gone, however the files are listed. */
  lemma CleanupShowsKeptRows(
    before: map<string, seq<Row>>, listed: seq<string>, after: map<string, seq<Row>>, relisted: seq<string>,
    cutoff: int, maxRecords: int, kept: seq<Row>, dropped: seq<Row>, id: string)
    requires Lists(listed, before) && Lists(relisted, after)
    requires forall path :: path in before ==> forall r :: r in before[path] ==> r.index == path
    requires after.Keys == before.Keys && forall path :: path in after ==> after[path] == KeptIn(kept, path)
    requires Retention(Collapse(Scan(before, listed)), cutoff, maxRecords, kept, dropped)
    ensures var believed := Best(Scan(before, listed), id);
            Best(Scan(after, relisted), id) == if believed.Some? && believed.value in kept then believed else None
  {
    var rows, remaining := Scan(before, listed), Scan(after, relisted);
    KeptRowsAreShown(Collapse(rows), rows, Plan(cutoff, maxRecords, kept, dropped));
    forall r ensures r in remaining <==> r in kept {
      ScanHolds(after, relisted, r);
      KeptInHolds(kept, r.index);
      if r in kept {
        ScanHolds(before, listed, r);
        assert r in after[r.index];
      }
      forall path | path in after && r in after[path] ensures r in kept { KeptInHolds(kept, path); }
    }
    BestNamesItsCommand(remaining, id);
    BestNamesItsCommand(rows, id);
    if Best(rows, id).Some? && Best(rows, id).value in kept {
      var k := Best(rows, id).value;
      assert k in remaining;
      var i :| 0 <= i < |remaining| && remaining[i] == k;
      BestIsTheFirstUndominatedRow(remaining, id);
      assert remaining[i].id == id;
    }
  }

  /** The record file of a kept command outlives the cleanup, because record
      files are named by command id. */
  lemma CleanupSparesKeptFiles(
    before: map<string, seq<Row>>, listed: seq<string>, cutoff: int, maxRecords: int, kept: seq<Row>, dropped: seq<Row>)
    requires Lists(listed, before)
    requires forall r, q :: r in Scan(before, listed) && q in Scan(before, listed) && r.file == q.file ==> r.id == q.id
    requires Retention(Collapse(Scan(before, listed)), cutoff, maxRecords, kept, dropped)
    ensures forall k, d :: k in kept && d in dropped ==> k.file != d.file && k.id != d.id && d.createdAt <= k.createdAt
    ensures maxRecords > 0 ==> |kept| <= maxRecords
  {
    var rows := Scan(before, listed);
    CollapseHasOneRowPerCommand(rows);
    RetentionPartitionsCommands(Collapse(rows), cutoff, maxRecords, kept, dropped);
    forall r | r in Collapse(rows) ensures r in rows { BestNamesItsCommand(rows, r.id); }
  }
}
