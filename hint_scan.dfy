/** The two scans of a hint file: replay into the index at startup
    (scanHintFile) and the staleness audit against the live index
    (count_deleted_record), src/hint.c:208-258. Each walks the decoded bytes
    with a pointer, stopping at the end or at the first record that overruns
    it; both are proved against Parse, Replay and Audit. */
module HintScan {
  import opened HintCodec
  import opened HintIndex
  import opened HintFile

  /** How a scan ended: there was no hint file, the process would have
      exited on a corrupt compressed file, or the records were walked and
      the first overrunning record lacked shortfall bytes (0 if none). */
  datatype ScanOutcome = NoHintFile | Aborted | Scanned(shortfall: nat)

  /** The loop of scanHintFile (src/hint.c:213-226): each complete record
      with version > 0 is added with its rebuilt locator, any other is
      removed. */
  method ReplayRecords(tree: HTree, data: seq<byte>, bucket: int) returns (shortfall: nat)
    modifies tree
    ensures tree.entries == Replay(Parse(data).records, bucket, old(tree.entries))
    ensures shortfall == Parse(data).shortfall
  {
    var p := 0;
    shortfall := 0;
    while p < |data|
      invariant 0 <= p <= |data|
      invariant Replay(Parse(data[p..]).records, bucket, tree.entries)
             == Replay(Parse(data).records, bucket, old(tree.entries))
      invariant Parse(data[p..]).shortfall == Parse(data).shortfall
      decreases |data| - p
    {
      var next := p + RecordLength(data[p]);
      if next > |data| {
        shortfall := next - |data|;
        break;
      }
      var r := DecodeHead(data[p..]);
      assert data[p..][RecordLength(data[p])..] == data[next..];
      if r.version > 0 {
        tree.Add2(r.key, Locator(r.pos, bucket), r.hash, r.version);
      } else {
        tree.Remove2(r.key);
      }
      p := next;
    }
  }

  /** The loop of count_deleted_record (src/hint.c:239-254): every complete
      record adds one to total, and one to deleted when it is stale against
      the live index. */
  method AuditRecords(tree: HTree, data: seq<byte>, bucket: int)
    returns (deleted: nat, total: nat, shortfall: nat)
    requires 0 <= bucket < 256
    ensures AuditCount(deleted, total) == Audit(Parse(data).records, bucket, tree.entries)
    ensures total == |Parse(data).records| && deleted <= total
    ensures shortfall == Parse(data).shortfall
  {
    var p := 0;
    deleted, total, shortfall := 0, 0, 0;
    while p < |data|
      invariant 0 <= p <= |data|
      invariant deleted + Audit(Parse(data[p..]).records, bucket, tree.entries).deleted
             == Audit(Parse(data).records, bucket, tree.entries).deleted
      invariant total + Audit(Parse(data[p..]).records, bucket, tree.entries).total
             == Audit(Parse(data).records, bucket, tree.entries).total
      invariant Parse(data[p..]).shortfall == Parse(data).shortfall
      decreases |data| - p
    {
      var next := p + RecordLength(data[p]);
      if next > |data| {
        shortfall := next - |data|;
        break;
      }
      var r := DecodeHead(data[p..]);
      assert data[p..][RecordLength(data[p])..] == data[next..];
      total := total + 1;
      var found := tree.Get2(r.key);
      if found.None? || found.value.pos != Locator(r.pos, bucket) || found.value.ver <= 0 {
        deleted := deleted + 1;
      }
      p := next;
    }
  }

  /** scanHintFile: open the hint file (rewriting it to newPath when one is
      given), replay its records into the index, close it. */
  method ScanHintFile(fs: FileSystem, tree: HTree, bucket: int, path: Path, newPath: Option<Path>,
                      mapOk: bool, qlz: Qlz, rewrite: WriteOutcome)
    returns (outcome: ScanOutcome)
    requires newPath.Some? ==> FitsTmpBuffer(newPath.value)
    modifies fs, tree
    ensures outcome.NoHintFile? <==> OpenMFile(old(fs.files), path, mapOk).None?
    ensures outcome.Aborted? <==>
      (OpenMFile(old(fs.files), path, mapOk).Some? && DecodedData(path, old(fs.files)[path], qlz).None?)
    ensures outcome.NoHintFile? ==> fs.files == old(fs.files)
    ensures outcome.Aborted? ==> fs.files == old(fs.files) - {path}
    ensures !outcome.Scanned? ==> tree.entries == old(tree.entries)
    ensures outcome.Scanned? ==>
      && OpenMFile(old(fs.files), path, mapOk).Some?
      && DecodedData(path, old(fs.files)[path], qlz).Some?
      && var data := DecodedData(path, old(fs.files)[path], qlz).value;
         && tree.entries == Replay(Parse(data).records, bucket, old(tree.entries))
         && outcome.shortfall == Parse(data).shortfall
         && fs.files == (if newPath.None? then old(fs.files)
                         else WriteEffect(old(fs.files), RewritePayload(newPath.value, data, qlz),
                                          newPath.value, rewrite))
  {
    var handle := fs.OpenHint(path, newPath, mapOk, qlz, rewrite);
    match handle
    case NoHint => return NoHintFile;
    case Corrupt => return Aborted;
    case Opened(hint) =>
      var shortfall := ReplayRecords(tree, hint.data, bucket);
      // close_hint releases what CloseHint lists; none of it is modelled state
      return Scanned(shortfall);
  }

  /** count_deleted_record: total and stale records of the hint file against
      the live index; both are 0 when there is no hint file. */
  method CountDeletedRecord(fs: FileSystem, tree: HTree, bucket: int, path: Path,
                            mapOk: bool, qlz: Qlz)
    returns (deleted: nat, total: nat, outcome: ScanOutcome)
    requires 0 <= bucket < 256
    modifies fs
    ensures outcome.NoHintFile? <==> OpenMFile(old(fs.files), path, mapOk).None?
    ensures outcome.Aborted? <==>
      (OpenMFile(old(fs.files), path, mapOk).Some? && DecodedData(path, old(fs.files)[path], qlz).None?)
    ensures fs.files == if outcome.Aborted? then old(fs.files) - {path} else old(fs.files)
    ensures !outcome.Scanned? ==> deleted == 0 && total == 0
    ensures deleted <= total
    ensures outcome.Scanned? ==>
      && OpenMFile(old(fs.files), path, mapOk).Some?
      && DecodedData(path, old(fs.files)[path], qlz).Some?
      && var data := DecodedData(path, old(fs.files)[path], qlz).value;
         AuditCount(deleted, total) == Audit(Parse(data).records, bucket, tree.entries)
         && outcome.shortfall == Parse(data).shortfall
  {
    deleted, total := 0, 0;
    var handle := fs.OpenHint(path, None, mapOk, qlz, TmpOpenFailed);
    match handle
    case NoHint => return 0, 0, NoHintFile;
    case Corrupt => return 0, 0, Aborted;
    case Opened(hint) =>
      var shortfall;
      deleted, total, shortfall := AuditRecords(tree, hint.data, bucket);
      // close_hint releases what CloseHint lists; none of it is modelled state
      return deleted, total, Scanned(shortfall);
  }
}
