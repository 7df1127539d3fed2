# Beansdb hint log and event table, modelled in Dafny

This project models two parts of the Beansdb storage server.

The main part is the **hint log** (`src/hint.c`). A hint file is a compact snapshot of one bucket's in-memory index. The server reads it at startup instead of rescanning the bucket's value file. The model covers:

- the packed record layout, a 10-byte header followed by the key and a 0 byte;
- locator packing: only the upper 24 bits of a position are stored, and the low byte is rebuilt from the bucket;
- the growable build buffer, which starts at 1 MiB and doubles when the next record does not fit;
- the atomic write-then-rename of a hint file;
- opening a hint file, with optional QuickLZ decompression, a fatal size check and an optional rewrite;
- closing a hint file, which frees the decoded buffer only when it is a separate copy;
- the two scans:
  - replay into the index: a record with version > 0 upserts its key, any other removes it;
  - the staleness audit against the live index.

The second part is the **descriptor table** of the shared event loop (`src/thread.c`, `src/thread.h`). The model covers:

- `add_event`, `update_event` and `delete_event`, with their range check and their rollback when the backend refuses;
- the poll result;
- the claim step of `worker_main`, which runs under the leader lock;
- re-registration after the connection's state machine has run.

Files:

| file | module | contents |
|---|---|---|
| `hint_codec.dfy` | `HintCodec` | byte layout, little-endian fields, locator, `EncodeRecord`, `Parse`, round-trip and truncation lemmas |
| `hint_index.dfy` | `HintIndex` | the index as a map (`HTree`), `Replay` and `Audit` folds, last-record-wins and snapshot lemmas |
| `hint_file.dfy` | `HintFile` | file system as a map, `WriteFile`, `OpenHint`, `CloseHint`, the `.qlz` suffix rule |
| `hint_build.dfy` | `HintBuild` | `BuildBuffer` (array, doubling), `BuildHint` |
| `hint_scan.dfy` | `HintScan` | the two scan loops, proved against `Parse`/`Replay`/`Audit`, and the two entry points |
| `event_loop.dfy` | `Dispatch` | `EventLoop` class over the `conns` and `fired` arrays |

The record header is stored as explicit bytes, in the order the C bit-field struct has on a little-endian machine:

- byte 0 is `ksize`;
- bytes 1-3 are `pos >> 8`;
- bytes 4-7 are the version, in two's complement;
- bytes 8-9 are the hash.

The record length is `sizeof(HintRecord) - NAME_IN_RECORD + ksize + 1`, which is `12 - 2 + ksize + 1`.

Notes on the code's behaviour:

- The open path treats a compressed file as corrupt only when decompression yields *fewer* bytes than the stream's header claims (`vsize < size`). A larger output is not an error; the model keeps the first `size` bytes.
- `update_event` has no range check. The model therefore requires the descriptor to be inside the table.
- The build buffer doubles at most once per record. This is enough because the capacity never drops below the largest record (266 bytes). `BuildBuffer.Valid` states that invariant.
- The audit rebuilds the locator as `(pos << 8) | bucket` without masking the bucket. The replay masks it with `& 0xff`. The two agree for buckets 0-255.

## Model

| member | source | states |
|---|---|---|
| `HintCodec.RecordLength` | src/hint.c:48 | a record takes a 10-byte header plus `ksize + 1` key bytes, and at most 266 bytes when `ksize` fits its 8-bit field |
| `HintCodec.EncodeRecord` | src/hint.c:55-60 | the encoded record has the declared length, byte 0 is the key length, the key follows the header, and a 0 byte ends it |
| `HintCodec.DecodeHead` | src/hint.c:215-216 | the decoded key has `ksize` bytes and is the bytes right after the header |
| `HintCodec.Locator` | src/hint.c:221 | the rebuilt locator divided by 256 is the stored 24-bit position, and its low byte is `bucket & 0xff` |
| `HintCodec.LocatorKeepsUpperBits` | src/hint.c:57 | storing `pos >> 8` and rebuilding keeps the upper 24 bits, replaces only the low byte, and gives back `pos` exactly when its low byte is the bucket |
| `HintCodec.LittleEndianRoundTrip` | src/hint.c:57-59 | a field written as n little-endian bytes reads back as the same value |
| `HintCodec.RecordRoundTrip` | src/hint.c:55-60 | one encoded record, whatever follows it, decodes to its key, `pos >> 8`, version and hash |
| `HintCodec.Parse` | src/hint.c:213-220 | a scan yields at least 11 bytes per record, and its shortfall is below 266 and non-zero only for a non-empty buffer |
| `HintCodec.ParseRecordThen` | src/hint.c:216 | the scanner advances past an encoded record by exactly its length |
| `HintCodec.ParseAfterRecords` | src/hint.c:214-226 | complete records in front of any bytes scan as themselves, followed by whatever those bytes scan as |
| `HintCodec.ParseEncodeAll` | src/hint.c:62 | scanning a fully encoded buffer yields every item's record in visit order, with no shortfall |
| `HintCodec.ParseCutRecord` | src/hint.c:217-220 | a buffer cut inside its first record yields no record and a shortfall equal to the missing bytes |
| `HintCodec.ParseTruncated` | src/hint.c:241-247 | a buffer cut strictly inside record k yields exactly the k records before the cut and a positive shortfall equal to the missing bytes |
| `HintCodec.EncodeAll` | src/hint.c:92 | the buffer after the visit holds at least 11 bytes per item, and is empty exactly for an empty index |
| `HintCodec.EncodeAllAppend` | src/hint.c:62 | appending an item to the visit appends exactly its record to the buffer |
| `HintIndex.HTree.Add2` | src/hint.c:223 | the key is inserted or overwritten with the given position, hash and version |
| `HintIndex.HTree.Remove2` | src/hint.c:225 | the key is removed, and no other entry changes |
| `HintIndex.HTree.Get2` | src/hint.c:249 | the lookup finds an entry exactly when the key is present, and returns that entry |
| `HintIndex.Apply` | src/hint.c:222-225 | after one record, its key holds the rebuilt entry for version > 0 and is absent otherwise; no other key changes |
| `HintIndex.Replay` | src/hint.c:214-226 | every entry the replay adds or changes is live (version > 0), has the bucket as its low byte, and belongs to a key some record names |
| `HintIndex.ReplayAppend` | src/hint.c:214-226 | replaying one more record applies it to the result of replaying the earlier ones |
| `HintIndex.ReplayUntouched` | src/hint.c:222-225 | a key no record names keeps what the index had |
| `HintIndex.ReplayLastWins` | src/hint.c:222-225 | the last record naming a key decides that key's final state: its entry if version > 0, absent otherwise |
| `HintIndex.ReplayRecordsOf` | src/hint.c:208-229 | replaying a snapshot of distinct keys gives each key its item's effect and leaves every other key as it was |
| `HintIndex.SnapshotRecovers` | src/hint.c:85-108 | replaying the encoding of an index into an empty index gives exactly its live items, with the bucket as the low byte; tombstones and unknown keys are absent |
| `HintIndex.Audit` | src/hint.c:248-252 | total is the number of records, `deleted <= total`, and `deleted == 0` exactly when no record is stale (absent key, different locator, or version <= 0) |
| `HintIndex.AuditAppend` | src/hint.c:248-252 | auditing one more record adds one to total, and one to deleted exactly when that record is stale, so deleted counts the stale records |
| `HintIndex.Stale` | src/hint.c:250 | a record is not stale exactly when the index holds a live entry for its key at the record's rebuilt locator (upper 24 bits from the record, the bucket as low byte); a record whose key the index lacks is stale |
| `HintIndex.AuditOfOwnSnapshot` | src/hint.c:250 | auditing a fresh snapshot against its own index counts only the index's tombstones as deleted |
| `HintFile.IsCompressedPath` | src/hint.c:96 | a path selects compression only if it is some name followed by `.qlz`; a path shorter than four characters never does |
| `HintFile.SuffixRules` | src/hint.c:96 | every name followed by `.qlz` selects compression |
| `HintFile.TmpPath` | src/hint.c:68 | the temporary name is four characters longer and differs from the destination |
| `HintFile.BytesWritten` | src/hint.c:74-77 | the count fwrite reports is at most the size, and it equals the size only for a complete write |
| `HintFile.WriteEffect` | src/hint.c:65-83 | after a complete write the destination holds exactly the data and no temporary file is left; after a failed open or a short write the destination keeps its old contents (or stays absent); only the destination and its temporary file change |
| `HintFile.FileSystem.WriteFile` | src/hint.c:69-82 | the step-by-step open, write, unlink and rename leave the file system as `WriteEffect` describes |
| `HintFile.OpenMFile` | src/hint.c:110-142 | a handle exists only for a present, non-empty file whose mapping succeeded, and then holds its whole contents; a missing file, a zero-length file or a failed mapping gives none |
| `HintFile.DecodedData` | src/hint.c:169-181 | a raw file's decoded bytes are the mapped bytes; a `.qlz` file fails when fewer bytes come out than its header claims, and otherwise yields exactly the claimed number of bytes |
| `HintFile.RewritePayload` | src/hint.c:183-194 | a rewrite to a `.qlz` path writes QuickLZ's compression of the decoded bytes; any other path gets the decoded bytes unchanged |
| `HintFile.CloseHint` | src/hint.c:199-206 | the decoded buffer is freed exactly when it is a separate copy; the mapping, the descriptor and the MFile record (through `close_mfile`) and the handle are each released once, the handle last |
| `HintFile.FileSystem.OpenHint` | src/hint.c:157-197 | no hint file exactly when `open_mfile` gives no handle (missing, empty or unmappable file); a short decompression removes the file and reports corruption; otherwise the decoded buffer aliases the mapping for a raw file and is a copy for a `.qlz` file, and a rewrite path gets the payload through `WriteEffect` |
| `HintBuild.BuildBuffer.constructor` | src/hint.c:87-90 | the buffer starts empty with a 1 MiB capacity |
| `HintBuild.BuildBuffer.Collect` | src/hint.c:46-63 | the capacity stays or exactly doubles, doubling only when the record does not fit; the contents gain exactly the record; `curr <= size` and room for the largest record are kept |
| `HintBuild.Realloc` | src/hint.c:50-53 | the grown buffer is new, twice as large, and keeps the bytes written so far |
| `HintBuild.CopyInto` | src/hint.c:55-60 | the record's bytes land at the write offset, and the bytes before it are kept |
| `HintBuild.HintPayload` | src/hint.c:95-104 | an uncompressed payload scans back to every record in visit order; a compressed one is QuickLZ's output for the encoded records |
| `HintBuild.CompressionTransparent` | src/hint.c:96-104 | given that QuickLZ restores what it compressed, decoding the payload build_hint produces gives back the encoded records, for compressed and raw destinations alike |
| `HintBuild.BuiltHintReopens` | src/hint.c:77-79 | after a complete write of the built payload, the file opens exactly when the mapping succeeds and the payload is non-empty, and then decodes to the encoded records; a raw payload is empty exactly for an empty index |
| `HintBuild.BuildHint` | src/hint.c:85-108 | the file system afterwards is the atomic write of the encoded (and, for `.qlz`, compressed) index |
| `HintScan.ReplayRecords` | src/hint.c:213-226 | the index afterwards is the replay of the complete records onto the old index, and the reported shortfall is the scan's |
| `HintScan.AuditRecords` | src/hint.c:239-254 | the counters equal the audit of the complete records, `deleted <= total`, and the shortfall is the scan's |
| `HintScan.ScanHintFile` | src/hint.c:208-229 | no hint file exactly when it cannot be opened, and then nothing changes; an abort exactly when decompression comes up short, and then only the hint file is removed; otherwise the index is the replay of the decoded bytes and the file system is unchanged or has the rewrite's `WriteEffect` |
| `HintScan.CountDeletedRecord` | src/hint.c:231-258 | no hint file exactly when it cannot be opened, an abort exactly when decompression comes up short (removing the file), and in both cases both counts are 0; otherwise the counts are the audit of the decoded bytes, with `deleted <= total`, and no file changes |
| `Dispatch.EventLoop.constructor` | src/thread.c:91 | the table starts with every slot empty and no ready descriptor |
| `Dispatch.EventLoop.AddEvent` | src/thread.c:97-112 | a descriptor beyond the table gives `AE_ERR` and no change; otherwise the empty slot holds `c` on backend success, and is empty again on failure; no other slot changes |
| `Dispatch.EventLoop.UpdateEvent` | src/thread.c:114-122 | the slot holds `c` on backend success and is empty on failure; no other slot changes |
| `Dispatch.EventLoop.DeleteEvent` | src/thread.c:124-132 | returns -1 out of range; returns 0 for an empty slot, whatever the backend would say; returns -1 and keeps the entry on backend failure; otherwise empties the slot and returns 0 |
| `Dispatch.EventLoop.Poll` | src/thread.c:142-143 | the ready descriptors the backend reports become `fired[0..nready)` |
| `Dispatch.EventLoop.Claim` | src/thread.c:149-157 | a claim takes `fired[nready]` after decrementing `nready`; the connection it returns was registered (non-null), and its slot is now empty; every ready descriptor skipped had no connection; when none is left, `nready` is 0 and the table is unchanged |
| `Dispatch.EventLoop.Reregister` | src/thread.c:161-163 | a connection with `ev_flags > 0` is registered again through update_event; any other leaves its slot empty |
| `Dispatch.ClaimsAreExclusive` | src/thread.c:149-158 | two claims without re-registration between them never return the same descriptor |

## Left out

- File descriptors, `mmap`, `fstat`, `munmap` and `close` are not modelled. Opening a file is reduced to the rule that a missing file, a zero-length file or a failed mapping gives no handle; `mapOk` is an input that also stands for a failed `malloc`.
- QuickLZ is not part of this model. `qlz_compress`, `qlz_decompress` and `qlz_size_decompressed` are function inputs. The size of the output buffer (`size + 400`) is not modelled.
- `exit(1)` after a failed decompression becomes the `Corrupt` / `Aborted` result. The removal of the file that happens before it is modelled.
- `HintFile.WriteEffect`: treats the count `fwrite` reports as the bytes on disk. The result of `fclose` is not checked by the source, so a failed flush after a full `fwrite` still renames a truncated file into place; that outcome is not modelled, and neither is the missing `fsync`.
- The return values of `unlink` and `rename` are not checked by the source. The model treats both calls as succeeding.
- The index (HTree) is not part of this model. It is a map from key to entry. `ht_visit` becomes the visit order, passed in as a sequence. `ht_destroy` after the visit is not modelled.
- `HintCodec.EncodeRecord`: requires keys of at most 255 bytes with no 0 byte. The key is a C string, and `ksize` is an 8-bit field. For a longer key the source stores the truncated `ksize` and copies only that many bytes (src/hint.c:56, 60), but advances the buffer by the full length (src/hint.c:48, 62). That leaves unwritten bytes in the buffer and puts the scanner out of step; the model does not cover that case.
- `HintCodec.Locator` and the field layout: the C struct's in-memory layout is replaced by explicit little-endian bytes. Big-endian bit-field layout is not modelled.
- `HintIndex.Audit`: requires a bucket in 0..255. The source ORs the unmasked bucket into the locator. That differs from the masked form only for buckets outside this range.
- `HintScan.AuditRecords`: requires a bucket in 0..255, for the same reason.
- `HintScan.CountDeletedRecord`: requires a bucket in 0..255, for the same reason.
- `HintBuild.BuildBuffer.Collect`: does not model the overflow of the C `int` size beyond 2 GiB, nor a failing `realloc`.
- `HintFile.FileSystem.WriteFile`: requires the path to fit the 255-byte temporary-name buffer. A longer path overflows that buffer in the source.
- `HintFile.IsCompressedPath`: for a path shorter than four characters the source compares bytes before the start of the string. The model answers "not compressed".
- `fprintf` logging is not modelled. That includes the shortfall message; the shortfall is returned instead.
- Replay idempotence is not stated as a lemma. `Replay` is a function, so two replays of one file into equal indexes agree.
- The worker loop is not modelled: the leader mutex, `daemon_quit`, the poll-retry loop with its one-second timeout, `loop_run` and `pthread_create`/`pthread_join`. Only its sequential steps are modelled (`Poll`, `Claim`, `Reregister`). `drive_machine` is external; its effect is the connection's `evFlags`.
- `thread_init`'s `aeApiCreate` failure (process exit) is not modelled.
- The freelist wrappers (`mt_conn_from_freelist` and the rest) are not modelled. They only lock around `do_*` functions that are not part of this model.
- `Claim`: closing a skipped descriptor with no connection is not modelled.
- `Dispatch.EventLoop.Poll`: requires every reported descriptor to be inside the table, which the backend guarantees for descriptors registered through `add_event`.
- `AE_SETSIZE`, `AE_OK` and `AE_ERR` come from `ae.h`, which is not part of this model. The table size is the length of the arrays. `AE_OK` is 0 and `AE_ERR` is -1, matching the -1 the backend calls are compared against.
