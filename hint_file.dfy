/** Hint files on disk: the atomic write-then-rename, opening a hint file
    (with its optional QuickLZ decompression and rewrite) and closing it
    (src/hint.c:65-83, 110-206).

    The file system is a map from path to contents. What the operating
    system decides (whether the temporary file opens, how many bytes fwrite
    accepts, whether mmap succeeds) and the QuickLZ library (whose code is
    not part of this model) are inputs of the operations. */
module HintFile {
  import opened HintCodec

  type Path = string

  const QLZ_SUFFIX: string := ".qlz"
  const TMP_SUFFIX: string := ".tmp"
  /** write_file formats `path.tmp` into `char tmp[255]`, terminator included. */
  const TMP_PATH_CAPACITY: nat := 255


  /** The result of qlz_size_decompressed (the size the stream's header
      claims) and of qlz_decompress (the bytes it produced). */
  datatype Decompressed = Decompressed(claimed: nat, output: seq<byte>)

  /** The QuickLZ entry points the hint code calls. */
  datatype Qlz = Qlz(compress: seq<byte> -> seq<byte>, decompress: seq<byte> -> Decompressed)

  /** How the write of the temporary file went: fopen failed, or fwrite
      reported count bytes. fwrite never reports more than it was asked to
      write, so a larger count stands for a complete write. */
  datatype WriteOutcome = TmpOpenFailed | Wrote(count: nat)

  /** Where a hint file's decoded buffer lives: in the mapping itself, or in
      a separately allocated copy (close_hint frees only the latter). */
  datatype BufferRef = MappedRegion | HeapCopy

  /** An open hint file: the mapped bytes, where the decoded buffer is, and
      the decoded bytes the scanners walk. */
  datatype HintFile = HintFile(mapped: seq<byte>, buf: BufferRef, data: seq<byte>)

  datatype OpenResult = NoHint | Corrupt | Opened(hint: HintFile)

  /** What close_hint releases, in order: the decoded copy, then through
      close_mfile the mapping, the descriptor and the MFile record, then the
      HintFile handle itself. */
  datatype Release = FreeBuffer | Unmap | CloseFd | FreeMFile | FreeHandle

  /** `strcmp(path + strlen(path) - 4, ".qlz") == 0` (src/hint.c:96, 169, 184). */
  function IsCompressedPath(path: Path): (b: bool)
    ensures |path| < |QLZ_SUFFIX| ==> !b
    ensures b ==> path == path[..|path| - |QLZ_SUFFIX|] + QLZ_SUFFIX
  {
    |path| >= |QLZ_SUFFIX| && path[|path| - |QLZ_SUFFIX|..] == QLZ_SUFFIX
  }

  /** Every name followed by .qlz selects compression (the converse is
      IsCompressedPath's second postcondition). */
  lemma {:induction false} SuffixRules(base: Path)
    ensures IsCompressedPath(base + QLZ_SUFFIX)
  {
    assert (base + QLZ_SUFFIX)[|base|..] == QLZ_SUFFIX;
  }

  function TmpPath(path: Path): (t: Path)
    ensures t != path && |t| == |path| + |TMP_SUFFIX|
  {
    path + TMP_SUFFIX
  }

  /** Paths whose temporary name fits write_file's buffer. */
  predicate FitsTmpBuffer(path: Path)
  {
    |path| + |TMP_SUFFIX| + 1 <= TMP_PATH_CAPACITY
  }

  function BytesWritten(outcome: WriteOutcome, size: nat): (n: nat)
    requires outcome.Wrote?
    ensures n <= size
    ensures n == size <==> outcome.count >= size
  {
    if outcome.count < size then outcome.count else size
  }

  /** The file system after write_file (src/hint.c:65-83). The destination
      changes only after a complete write, and then holds exactly data; after
      a failed open or a short write it keeps its previous contents, or stays
      absent. Nothing but the destination and its temporary file changes. */
  function WriteEffect(files: map<Path, seq<byte>>, data: seq<byte>, path: Path, outcome: WriteOutcome)
    : (r: map<Path, seq<byte>>)
    ensures outcome.Wrote? && BytesWritten(outcome, |data|) == |data| ==>
      path in r && r[path] == data && TmpPath(path) !in r
    ensures !(outcome.Wrote? && BytesWritten(outcome, |data|) == |data|) ==>
      (path in r <==> path in files) && (path in files ==> r[path] == files[path])
    ensures outcome.Wrote? && BytesWritten(outcome, |data|) < |data| ==>
      TmpPath(path) in r && r[TmpPath(path)] == data[..outcome.count]
    ensures forall p :: p != path && p != TmpPath(path) ==>
      (p in r <==> p in files) && (p in r ==> r[p] == files[p])
  {
    match outcome
    case TmpOpenFailed => files
    case Wrote(_) =>
      var n := BytesWritten(outcome, |data|);
      if n == |data| then (files - {TmpPath(path)})[path := data]
      else files[TmpPath(path) := data[..n]]
  }

  /** open_mfile (src/hint.c:110-142): no handle for a missing file, a
      zero-length file, or a failed mapping; otherwise the whole contents. */
  function OpenMFile(files: map<Path, seq<byte>>, path: Path, mapOk: bool): (r: Option<seq<byte>>)
    ensures r.Some? ==> mapOk && path in files && r.value == files[path] && |r.value| > 0
    ensures r.None? ==> path !in files || files[path] == [] || !mapOk
  {
    if path in files && files[path] != [] && mapOk then Some(files[path]) else None
  }

  /** The decoded bytes of a mapped hint file (src/hint.c:166-181): the
      mapping itself for a raw file; for a .qlz file the decompressed bytes,
      or None when fewer came out than the stream's header claims. */
  function DecodedData(path: Path, mapped: seq<byte>, qlz: Qlz): (r: Option<seq<byte>>)
    ensures !IsCompressedPath(path) ==> r == Some(mapped)
    ensures IsCompressedPath(path) ==>
      (r.None? <==> |qlz.decompress(mapped).output| < qlz.decompress(mapped).claimed)
    ensures IsCompressedPath(path) && r.Some? ==>
      |r.value| == qlz.decompress(mapped).claimed
      && r.value <= qlz.decompress(mapped).output
  {
    if !IsCompressedPath(path) then Some(mapped)
    else
      var d := qlz.decompress(mapped);
      if |d.output| < d.claimed then None else Some(d.output[..d.claimed])
  }

  /** The bytes open_hint writes to its rewrite path (src/hint.c:183-194):
      recompressed when that path ends in .qlz, the decoded bytes otherwise. */
  function RewritePayload(newPath: Path, data: seq<byte>, qlz: Qlz): (r: seq<byte>)
    ensures !IsCompressedPath(newPath) ==> r == data
    ensures IsCompressedPath(newPath) ==> r == qlz.compress(data)
  {
    if IsCompressedPath(newPath) then qlz.compress(data) else data
  }

  /** close_hint (src/hint.c:199-206) with close_mfile (src/hint.c:144-149):
      the decoded buffer is freed only when it is a separate copy, never when
      it aliases the mapping; the mapping, the descriptor, the MFile record
      and the handle are each released once, the handle last. */
  function CloseHint(h: HintFile): (rs: seq<Release>)
    ensures (FreeBuffer in rs) <==> h.buf == HeapCopy
    ensures Unmap in rs && CloseFd in rs && FreeMFile in rs && FreeHandle in rs
    ensures forall i, j :: 0 <= i < j < |rs| ==> rs[i] != rs[j]
    ensures rs[|rs| - 1] == FreeHandle
  {
    (if h.buf == HeapCopy then [FreeBuffer] else []) + [Unmap, CloseFd, FreeMFile, FreeHandle]
  }

  class FileSystem {
    var files: map<Path, seq<byte>>

    constructor (initial: map<Path, seq<byte>>)
      ensures files == initial
    {
      files := initial;
    }

    /** write_file: write data to `path.tmp`; only when fwrite took every
        byte, unlink the destination and rename the temporary file onto it. */
    method WriteFile(data: seq<byte>, path: Path, outcome: WriteOutcome)
      requires FitsTmpBuffer(path)
      modifies this
      ensures files == WriteEffect(old(files), data, path, outcome)
    {
      var tmp := TmpPath(path);
      if outcome.TmpOpenFailed? {
        return;
      }
      files := files[tmp := []];                 // fopen(tmp, "wb")
      var n := BytesWritten(outcome, |data|);
      files := files[tmp := data[..n]];          // fwrite
      if n == |data| {
        files := files - {path};                 // unlink(path)
        files := (files - {tmp})[path := data];  // rename(tmp, path)
      }
    }

    /** open_hint (src/hint.c:157-197). A missing or empty file gives no hint
        file. A .qlz file whose decompression comes up short is removed and
        reported as corrupt (the source then exits the process). Otherwise
        the decoded bytes alias the mapping for a raw file and are a separate
        copy for a compressed one, and when a rewrite path is given they are
        written there through write_file. */
    method OpenHint(path: Path, newPath: Option<Path>, mapOk: bool, qlz: Qlz, rewrite: WriteOutcome)
      returns (r: OpenResult)
      requires newPath.Some? ==> FitsTmpBuffer(newPath.value)
      modifies this
      ensures r.NoHint? <==> OpenMFile(old(files), path, mapOk).None?
      ensures r.NoHint? ==> files == old(files)
      ensures r.Corrupt? <==>
        (OpenMFile(old(files), path, mapOk).Some? && DecodedData(path, old(files)[path], qlz).None?)
      ensures r.Corrupt? ==> files == old(files) - {path}
      ensures r.Opened? ==>
        && OpenMFile(old(files), path, mapOk) == Some(r.hint.mapped)
        && DecodedData(path, r.hint.mapped, qlz) == Some(r.hint.data)
        && (r.hint.buf == HeapCopy <==> IsCompressedPath(path))
        && (r.hint.buf == MappedRegion ==> r.hint.data == r.hint.mapped)
      ensures r.Opened? && newPath.None? ==> files == old(files)
      ensures r.Opened? && newPath.Some? ==>
        files == WriteEffect(old(files), RewritePayload(newPath.value, r.hint.data, qlz), newPath.value, rewrite)
    {
      var mf := OpenMFile(files, path, mapOk);
      if mf.None? {
        return NoHint;
      }
      var mapped := mf.value;
      var buf, data := MappedRegion, mapped;
      if IsCompressedPath(path) {
        var d := qlz.decompress(mapped);
        if |d.output| < d.claimed {
          files := files - {path};               // unlink(path); exit(1)
          return Corrupt;
        }
        buf, data := HeapCopy, d.output[..d.claimed];
      }
      if newPath.Some? {
        if IsCompressedPath(newPath.value) {
          WriteFile(qlz.compress(data), newPath.value, rewrite);
        } else {
          WriteFile(data, newPath.value, rewrite);
        }
      }
      r := Opened(HintFile(mapped, buf, data));
    }
  }
}
