/** Building a hint file from a bucket's index (collect_items and
    build_hint, src/hint.c:39-63, 85-108). */
module HintBuild {
  import opened HintCodec
  import opened HintFile

  /** The first capacity of the build buffer: 1 MiB (src/hint.c:88). */
  const INITIAL_BUFFER_SIZE: nat := 1024 * 1024

  /** `struct param`: the growable buffer collect_items appends records to. */
  class BuildBuffer {
    var buf: array<byte>
    var size: nat
    var curr: nat

    /** curr never passes the capacity, and the capacity always has room for
        the largest record, so a single doubling always makes room. */
    ghost predicate Valid()
      reads this
    {
      buf.Length == size && curr <= size && MAX_RECORD_LEN <= size
    }

    /** The bytes encoded so far. */
    ghost function Contents(): seq<byte>
      reads this, buf
      requires Valid()
    {
      buf[..curr]
    }

    constructor ()
      ensures Valid() && fresh(buf)
      ensures size == INITIAL_BUFFER_SIZE && Contents() == []
    {
      size := INITIAL_BUFFER_SIZE;
      curr := 0;
      buf := new byte[INITIAL_BUFFER_SIZE];
    }

    /** collect_items: when the record does not fit in what is left, double
        the capacity (realloc keeps the bytes), then append the record. */
    method Collect(it: Item)
      requires Valid() && ValidKey(it.key)
      modifies this, buf
      ensures Valid()
      ensures buf == old(buf) || fresh(buf)
      ensures size == if old(size) - old(curr) < |EncodeRecord(it)| then 2 * old(size) else old(size)
      ensures Contents() == old(Contents()) + EncodeRecord(it)
    {
      var rec := EncodeRecord(it);
      var b := buf;
      if size - curr < |rec| {
        b := Realloc(buf, curr);
      }
      CopyInto(b, curr, rec);
      buf, size, curr := b, b.Length, curr + |rec|;
    }
  }

  /** realloc to twice the capacity: a new buffer keeping the first n bytes. */
  method Realloc(a: array<byte>, n: nat) returns (b: array<byte>)
    requires n <= a.Length
    ensures fresh(b) && b.Length == 2 * a.Length
    ensures b[..n] == a[..n]
  {
    b := new byte[2 * a.Length];
    forall i | 0 <= i < a.Length {
      b[i] := a[i];
    }
  }

  /** memcpy of rec to offset at: the bytes before at are kept and rec
      follows them. */
  method CopyInto(b: array<byte>, at: nat, rec: seq<byte>)
    requires at + |rec| <= b.Length
    modifies b
    ensures b[..at + |rec|] == old(b[..at]) + rec
  {
    ghost var before := b[..at];
    var j := 0;
    while j < |rec|
      invariant 0 <= j <= |rec|
      invariant b[..at + j] == before + rec[..j]
    {
      b[at + j] := rec[j];
      j := j + 1;
      assert rec[..j] == rec[..j - 1] + [rec[j - 1]];
    }
    assert rec[..|rec|] == rec;
  }

  /** What build_hint hands to write_file: the encoded records, compressed
      when the destination ends in .qlz (src/hint.c:95-104). */
  function HintPayload(items: seq<Item>, hintPath: Path, qlz: Qlz): (r: seq<byte>)
    requires forall i :: 0 <= i < |items| ==> ValidKey(items[i].key)
    ensures !IsCompressedPath(hintPath) ==> Parse(r) == Parsed(RecordsOf(items), 0)
    ensures IsCompressedPath(hintPath) ==> r == qlz.compress(EncodeAll(items))
  {
    ParseEncodeAll(items);
    if IsCompressedPath(hintPath) then qlz.compress(EncodeAll(items)) else EncodeAll(items)
  }

  /** Opening what build_hint wrote gives back the encoded records whether
      or not the destination was compressed, provided QuickLZ restores what
      it compressed and its header states the original size. */
  lemma {:induction false} CompressionTransparent(items: seq<Item>, hintPath: Path, qlz: Qlz)
    requires forall i :: 0 <= i < |items| ==> ValidKey(items[i].key)
    requires var raw := EncodeAll(items); qlz.decompress(qlz.compress(raw)) == Decompressed(|raw|, raw)
    ensures DecodedData(hintPath, HintPayload(items, hintPath, qlz), qlz) == Some(EncodeAll(items))
  {
    var raw := EncodeAll(items);
    assert raw[..|raw|] == raw;
  }

  /** What the next startup finds after build_hint's write completed: the
      file opens exactly when the payload is non-empty and the mapping
      succeeds, and then decodes to the encoded records. A raw payload is
      empty exactly for an empty index, which thus leaves a zero-length hint
      file that open_mfile refuses (src/hint.c:77-79, 119). */
  lemma {:induction false} BuiltHintReopens(files: map<Path, seq<byte>>, items: seq<Item>, hintPath: Path,
                                            qlz: Qlz, outcome: WriteOutcome, mapOk: bool)
    requires forall i :: 0 <= i < |items| ==> ValidKey(items[i].key)
    requires var raw := EncodeAll(items); qlz.decompress(qlz.compress(raw)) == Decompressed(|raw|, raw)
    requires outcome.Wrote? && outcome.count >= |HintPayload(items, hintPath, qlz)|
    ensures !IsCompressedPath(hintPath) ==> (HintPayload(items, hintPath, qlz) == [] <==> items == [])
    ensures var after := WriteEffect(files, HintPayload(items, hintPath, qlz), hintPath, outcome);
      && (OpenMFile(after, hintPath, mapOk).Some? <==> mapOk && HintPayload(items, hintPath, qlz) != [])
      && (OpenMFile(after, hintPath, mapOk).Some? ==>
            DecodedData(hintPath, OpenMFile(after, hintPath, mapOk).value, qlz) == Some(EncodeAll(items)))
  {
    var payload := HintPayload(items, hintPath, qlz);
    assert BytesWritten(outcome, |payload|) == |payload|;
    CompressionTransparent(items, hintPath, qlz);
  }

  /** build_hint: encode every item in the index's visit order, compress for
      a .qlz destination, and write the result atomically. */
  method BuildHint(fs: FileSystem, visit: seq<Item>, hintPath: Path, qlz: Qlz, outcome: WriteOutcome)
    requires forall i :: 0 <= i < |visit| ==> ValidKey(visit[i].key)
    requires FitsTmpBuffer(hintPath)
    modifies fs
    ensures fs.files == WriteEffect(old(fs.files), HintPayload(visit, hintPath, qlz), hintPath, outcome)
  {
    var p := new BuildBuffer();
    for i := 0 to |visit|
      invariant p.Valid() && fresh(p) && fresh(p.buf)
      invariant p.Contents() == EncodeAll(visit[..i])
      invariant fs.files == old(fs.files)
    {
      assert visit[..i + 1] == visit[..i] + [visit[i]];
      EncodeAllAppend(visit[..i], visit[i]);
      p.Collect(visit[i]);
    }
    assert visit[..|visit|] == visit;
    var payload := p.buf[..p.curr];
    assert payload == EncodeAll(visit);
    if IsCompressedPath(hintPath) {
      payload := qlz.compress(payload);
    }
    fs.WriteFile(payload, hintPath, outcome);
  }
}
