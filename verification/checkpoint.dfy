/**
 The checkpoint file of the root-distance runs: the options record the
 run was started with, followed by one checksummed record per finished
 root. The checksummed record codec is not part of this model: the
 record region is given as what each successive checksummed read at the
 cursor returns, and a record written with its checksum is read back as
 a full-size read of the same result.
 */
module Checkpoint {
  import opened Results
  import opened ByteStream
  import opened OptionsCodec

  /** A finished root's result; only its root id is inspected here. */
  datatype RdResult = RdResult(rootId: nat, rest: Bytes)

  /**
   One checksummed read: the byte count it reports and the result it
   filled in, or a checksum mismatch (`checkpoint_read_success_failure`).
   */
  datatype RecordRead =
    | Read(bytesRead: nat, value: RdResult)
    | ChecksumFailure

  /** The file: the bytes of the options header, then the record region read by read. */
  datatype CheckpointFile = CheckpointFile(header: Bytes, records: seq<RecordRead>)

  /** A checkpoint object: whether the file existed when it was opened, and the file. */
  datatype Checkpoint = Checkpoint(existing: bool, file: CheckpointFile)

  datatype CheckpointError =
    | UnexpectedReadSize   // a record read returned neither a full record nor 0 bytes
    | WriteFailure(left: CheckpointFile) // the options could not be written; the file as the failed write left it
    | OpenFailure          // the backup file of `clean` could not be created
    | BackupLeft(backup: CheckpointFile) // `clean`'s scan failed after the backup was created; it stays on disk holding this

  /** A read that returned a whole record: `expected` is `expected_read_size<rd_result_t>()`. */
  predicate IsFull(rr: RecordRead, expected: nat) {
    rr.Read? && rr.bytesRead == expected
  }

  /**
   The results the scan of the record region returns, read by read: a
   full read is kept and the scan goes on, a 0-byte read or a checksum
   mismatch ends it with what was kept, and any other byte count is an
   error. The scan also ends where the region ends.
   */
  function Progress(records: seq<RecordRead>, expected: nat): (r: Result<seq<RdResult>, CheckpointError>)
    ensures r.Ok? ==> |r.value| <= |records|
    ensures r.Err? ==> r.error == UnexpectedReadSize
    ensures r.Ok? ==> forall i :: 0 <= i < |r.value| ==> IsFull(records[i], expected) && records[i].value == r.value[i]
  {
    if |records| == 0 then Ok([])
    else
      match records[0]
      case ChecksumFailure => Ok([])
      case Read(n, v) =>
        if n == expected then
          assert forall i :: 0 <= i < |records| - 1 ==> records[1..][i] == records[i + 1];
          var rest :- Progress(records[1..], expected);
          Ok([v] + rest)
        else if n == 0 then Ok([])
        else Err(UnexpectedReadSize)
  }

  /** The number of full reads at the start of the record region. */
  function FullRun(records: seq<RecordRead>, expected: nat): (k: nat)
    ensures k <= |records|
    ensures forall i :: 0 <= i < k ==> IsFull(records[i], expected)
    ensures k < |records| ==> !IsFull(records[k], expected)
  {
    if |records| == 0 || !IsFull(records[0], expected) then 0
    else 1 + FullRun(records[1..], expected)
  }

  /**
   The scan in terms of the full run at the start of the region: it fails
   exactly when the run is ended by a read of some other nonzero size, and
   otherwise returns the results of the run in file order.
   */
  lemma {:induction false} ProgressIsFullRun(records: seq<RecordRead>, expected: nat)
    ensures var k := FullRun(records, expected);
            Progress(records, expected).Err? <==>
              k < |records| && records[k].Read? && records[k].bytesRead != 0
    ensures var k := FullRun(records, expected);
            var r := Progress(records, expected);
            r.Ok? ==> |r.value| == k && forall i :: 0 <= i < k ==> r.value[i] == records[i].value
  {
    if |records| > 0 && IsFull(records[0], expected) {
      ProgressIsFullRun(records[1..], expected);
      assert forall i :: 0 <= i < |records| - 1 ==> records[1..][i] == records[i + 1];
    }
  }

  /** `r` with `prefix` put before its results. */
  function Prefixed(prefix: seq<RdResult>, r: Result<seq<RdResult>, CheckpointError>): Result<seq<RdResult>, CheckpointError> {
    if r.Ok? then Ok(prefix + r.value) else r
  }

  /**
   `current_progress`: skips the options header and scans the record
   region, keeping the full records in order.
   */
  method CurrentProgress(file: CheckpointFile, expected: nat) returns (r: Result<seq<RdResult>, CheckpointError>)
    ensures r == Progress(file.records, expected)
  {
    var records := file.records;
    var results: seq<RdResult> := [];
    var i := 0;
    assert records[0..] == records;
    assert Prefixed([], Progress(records, expected)) == Progress(records, expected) by {
      if Progress(records, expected).Ok? {
        assert [] + Progress(records, expected).value == Progress(records, expected).value;
      }
    }
    while i < |records|
      invariant 0 <= i <= |records|
      invariant Progress(records, expected) == Prefixed(results, Progress(records[i..], expected))
    {
      var rest := records[i..];
      assert rest[0] == records[i] && rest[1..] == records[i + 1..];
      assert results + [] == results;
      match records[i]
      case ChecksumFailure =>
        return Ok(results);
      case Read(n, v) =>
        if n == expected {
          PrefixedAppend(results, v, Progress(records[i + 1..], expected));
          results := results + [v];
          i := i + 1;
        } else if n == 0 {
          return Ok(results);
        } else {
          return Err(UnexpectedReadSize);
        }
    }
    assert records[i..] == [];
    assert results + [] == results;
    return Ok(results);
  }

  lemma PrefixedAppend(prefix: seq<RdResult>, v: RdResult, r: Result<seq<RdResult>, CheckpointError>)
    ensures Prefixed(prefix, Prefixed([v], r)) == Prefixed(prefix + [v], r)
  {
    if r.Ok? {
      assert prefix + ([v] + r.value) == prefix + [v] + r.value;
    }
  }

  /** `completed_indicies`: the root id of every result of the scan, in the same order. */
  method CompletedIndices(file: CheckpointFile, expected: nat) returns (r: Result<seq<nat>, CheckpointError>)
    ensures r.Err? <==> Progress(file.records, expected).Err?
    ensures r.Ok? ==> |r.value| == |Progress(file.records, expected).value|
    ensures r.Ok? ==> forall i :: 0 <= i < |r.value| ==> r.value[i] == Progress(file.records, expected).value[i].rootId
  {
    var progress := CurrentProgress(file, expected);
    if progress.Err? {
      return Err(progress.error);
    }
    var results := progress.value;
    var completed: seq<nat> := seq(|results|, _ => 0);
    for i := 0 to |results|
      invariant |completed| == |results|
      invariant forall j :: 0 <= j < i ==> completed[j] == results[j].rootId
    {
      completed := completed[i := results[i].rootId];
    }
    return Ok(completed);
  }

  /** `save_options`: only a new checkpoint gets the options written to it. */
  function SaveOptions(c: Checkpoint, o: CliOptions, room: nat): (r: Result<Checkpoint, CheckpointError>)
    requires WellFormed(o)
    ensures c.existing ==> r == Ok(c)
    ensures r.Ok? ==> r.value.existing == c.existing && r.value.file.records == c.file.records
    ensures r.Ok? ==> c.file.header <= r.value.file.header
    ensures r.Err? ==> r.error.WriteFailure? && r.error.left.records == c.file.records && c.file.header <= r.error.left.header
  {
    if c.existing then Ok(c)
    else
      match WriteOptions(Sink(c.file.header, room), o)
      case Err(e) => Err(WriteFailure(c.file.(header := e.written.data)))
      case Ok((s, _)) => Ok(c.(file := c.file.(header := s.data)))
  }

  /** On a new checkpoint with room for them, the options are appended to the header. */
  lemma SaveOptionsWithRoom(c: Checkpoint, o: CliOptions, room: nat)
    requires WellFormed(o) && !c.existing && |EncodeOptions(o)| <= room
    ensures SaveOptions(c, o, room) == Ok(c.(file := c.file.(header := c.file.header + EncodeOptions(o))))
  {
    WriteFieldsWithRoom(Sink(c.file.header, room), o, PersistedFields, 0);
  }

  /**
   Saving to a new checkpoint, whether it succeeds or fails, leaves the old
   header followed by the longest prefix of the options' encoding that the
   device had room for; the save fails only when the encoding does not fit,
   and then the truncated header stays in the file.
   */
  lemma SaveOptionsLeavesPrefix(c: Checkpoint, o: CliOptions, room: nat)
    requires WellFormed(o) && !c.existing
    ensures var e := EncodeOptions(o);
            var written := c.file.header + e[..if |e| <= room then |e| else room];
            var r := SaveOptions(c, o, room);
            (r.Ok? ==> r.value.file.header == written) &&
            (r.Err? ==> room < |e| && r.error == WriteFailure(c.file.(header := written)))
  {
    WriteOptionsFills(Sink(c.file.header, room), o);
  }

  /** `load_options`: only an existing checkpoint replaces `dst` with the options read from the start of the file. */
  function LoadOptions(c: Checkpoint, dst: CliOptions): (d: CliOptions)
    requires WellFormed(dst)
    ensures WellFormed(d)
    ensures !c.existing ==> d == dst
  {
    if c.existing then ReadOptions(Source(c.file.header, 0), dst).1 else dst
  }

  /**
   Saving to a new, empty checkpoint and loading when it is opened again
   gives every persisted field back as the options decoder makes it, and
   leaves `states` as it was.
   */
  lemma SaveThenLoad(o: CliOptions, dst: CliOptions, room: nat)
    requires WellFormed(o) && WellFormed(dst) && |EncodeOptions(o)| <= room
    ensures var c := Checkpoint(false, CheckpointFile([], []));
            var saved := SaveOptions(c, o, room);
            saved.Ok? && LoadOptions(Checkpoint(true, saved.value.file), dst) == DecodeOptions(o, dst)
  {
    var c := Checkpoint(false, CheckpointFile([], []));
    SaveOptionsWithRoom(c, o, room);
    var e := EncodeOptions(o);
    assert [] + e == e;
    assert e[0..|e|] == e;
    ReadWrittenOptions(e, 0, o, dst);
  }

  /** The record region as `clean` rewrites it: each result written with its checksum. */
  function Rewritten(results: seq<RdResult>, expected: nat): (records: seq<RecordRead>)
    ensures |records| == |results|
    ensures forall i :: 0 <= i < |results| ==> records[i] == Read(expected, results[i])
  {
    if |results| == 0 then [] else [Read(expected, results[0])] + Rewritten(results[1..], expected)
  }

  /** A rewritten region scans back to the results it was written from. */
  lemma {:induction false} ProgressOfRewritten(results: seq<RdResult>, expected: nat)
    ensures Progress(Rewritten(results, expected), expected) == Ok(results)
  {
    if |results| > 0 {
      var records := Rewritten(results, expected);
      assert records[1..] == Rewritten(results[1..], expected);
      ProgressOfRewritten(results[1..], expected);
      assert [results[0]] + results[1..] == results;
    }
  }

  /**
   `clean`: without an existing checkpoint nothing happens; otherwise the
   options are read from the header into a default-constructed record
   `defaults` and the file is replaced by those options followed by the
   results of the scan. A backup file that already exists is an error. The
   backup is created and the options written to it before the scan, so a
   scan that fails leaves the checkpoint alone but leaves the backup behind,
   holding just the options: the error carries it.
   */
  function Clean(c: Checkpoint, defaults: CliOptions, backupExists: bool, expected: nat): (r: Result<Checkpoint, CheckpointError>)
    requires WellFormed(defaults)
    ensures !c.existing ==> r == Ok(c)
    ensures c.existing && backupExists ==> r == Err(OpenFailure)
    ensures r.Ok? ==> r.value.existing == c.existing
    ensures c.existing && !backupExists && Progress(c.file.records, expected).Err? ==>
              r == Err(BackupLeft(CheckpointFile(EncodeOptions(LoadOptions(c, defaults)), [])))
  {
    if !c.existing then Ok(c)
    else if backupExists then Err(OpenFailure)
    else
      var options := ReadOptions(Source(c.file.header, 0), defaults).1;
      match Progress(c.file.records, expected)
      case Err(_) => Err(BackupLeft(CheckpointFile(EncodeOptions(options), [])))
      case Ok(results) => Ok(c.(file := CheckpointFile(EncodeOptions(options), Rewritten(results, expected))))
  }

  /** Whether a clean left its backup file on disk. */
  predicate LeftBackup(r: Result<Checkpoint, CheckpointError>) {
    r.Err? && r.error.BackupLeft?
  }

  /**
   A clean whose scan fails leaves the backup behind, and from then on
   every clean of an existing checkpoint is refused because that backup
   exists; a clean that finds no backup leaves none when it succeeds.
   */
  lemma CleanAfterFailedScan(c: Checkpoint, defaults: CliOptions, expected: nat, later: Checkpoint, laterDefaults: CliOptions)
    requires WellFormed(defaults) && WellFormed(laterDefaults) && later.existing
    ensures var r := Clean(c, defaults, false, expected);
            LeftBackup(r) <==> c.existing && Progress(c.file.records, expected).Err?
    ensures var r := Clean(c, defaults, false, expected);
            LeftBackup(r) ==> Clean(later, laterDefaults, LeftBackup(r), expected) == Err(OpenFailure)
  {
  }

  /**
   A successful clean of an existing checkpoint writes the options it read
   followed by exactly the scanned results, so the scan of the new file
   gives the same results as the scan of the old one.
   */
  lemma CleanKeepsProgress(c: Checkpoint, defaults: CliOptions, backupExists: bool, expected: nat)
    requires WellFormed(defaults)
    ensures var r := Clean(c, defaults, backupExists, expected);
            r.Ok? ==> Progress(r.value.file.records, expected) == Progress(c.file.records, expected)
    ensures var r := Clean(c, defaults, backupExists, expected);
            c.existing && !backupExists ==>
              (r.Ok? <==> Progress(c.file.records, expected).Ok?)
  {
    if c.existing && !backupExists && Progress(c.file.records, expected).Ok? {
      ProgressOfRewritten(Progress(c.file.records, expected).value, expected);
    }
  }

  /**
   Cleaning a checkpoint whose header holds the options `o` rewrites the
   header with `o` as the options decoder makes it.
   */
  lemma CleanRewritesHeader(c: Checkpoint, o: CliOptions, defaults: CliOptions, backupExists: bool, expected: nat)
    requires WellFormed(o) && WellFormed(defaults) && c.file.header == EncodeOptions(o)
    ensures var r := Clean(c, defaults, backupExists, expected);
            r.Ok? && c.existing ==> r.value.file.header == EncodeOptions(DecodeOptions(o, defaults))
  {
    CleanHeader(c, defaults, backupExists, expected);
    ReadEncodedOptions(o, defaults);
  }

  /**
   Loading a cleaned checkpoint gives the options that loading the old one
   into `defaults` gave, decoded once more into `dst`.
   */
  lemma CleanThenLoad(c: Checkpoint, defaults: CliOptions, dst: CliOptions, backupExists: bool, expected: nat)
    requires WellFormed(defaults) && WellFormed(dst)
    ensures var r := Clean(c, defaults, backupExists, expected);
            r.Ok? && c.existing ==> LoadOptions(r.value, dst) == DecodeOptions(LoadOptions(c, defaults), dst)
  {
    CleanHeader(c, defaults, backupExists, expected);
    ReadEncodedOptions(LoadOptions(c, defaults), dst);
  }

  /** The header of a cleaned checkpoint is the encoding of what loading the old one gives. */
  lemma CleanHeader(c: Checkpoint, defaults: CliOptions, backupExists: bool, expected: nat)
    requires WellFormed(defaults)
    ensures var r := Clean(c, defaults, backupExists, expected);
            r.Ok? && c.existing ==> r.value.existing && r.value.file.header == EncodeOptions(LoadOptions(c, defaults))
  {
  }

  /** `checkpoint_t::write`: a result appended with its checksum. */
  function AppendResult(c: Checkpoint, v: RdResult, expected: nat): (r: Checkpoint)
    ensures r.existing == c.existing && r.file.header == c.file.header
    ensures c.file.records <= r.file.records && |r.file.records| == |c.file.records| + 1
    ensures r.file.records[|c.file.records|] == Read(expected, v)
  {
    c.(file := c.file.(records := c.file.records + [Read(expected, v)]))
  }

  /**
   After a run of full reads, the result `checkpoint_t::write` appends is
   the next one the scan returns, after all those before it.
   */
  lemma AppendResultExtendsProgress(c: Checkpoint, v: RdResult, expected: nat)
    requires FullRun(c.file.records, expected) == |c.file.records|
    ensures Progress(c.file.records, expected).Ok?
    ensures Progress(AppendResult(c, v, expected).file.records, expected) == Ok(Progress(c.file.records, expected).value + [v])
  {
    AppendExtendsProgress(c.file.records, v, expected);
  }

  /** When every read so far is full, an appended result is the next one the scan returns. */
  lemma {:induction false} AppendExtendsProgress(records: seq<RecordRead>, v: RdResult, expected: nat)
    requires FullRun(records, expected) == |records|
    ensures Progress(records, expected).Ok?
    ensures Progress(records + [Read(expected, v)], expected) == Ok(Progress(records, expected).value + [v])
  {
    if |records| == 0 {
      assert [Read(expected, v)][1..] == [];
      assert [v] + [] == [] + [v];
    } else {
      assert (records + [Read(expected, v)])[1..] == records[1..] + [Read(expected, v)];
      AppendExtendsProgress(records[1..], v, expected);
      var rest := Progress(records[1..], expected).value;
      assert [records[0].value] + (rest + [v]) == [records[0].value] + rest + [v];
    }
  }
}
