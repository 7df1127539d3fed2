/** The bucket's in-memory index as the hint log sees it, and what replaying
    or auditing a sequence of hint records means for it (src/hint.c:208-258).

    The index itself (HTree) is a collaborator whose code is not part of this
    model; it is a map from key to entry, mutated through the three calls the
    hint code makes: ht_add2, ht_remove2 and ht_get2. */
module HintIndex {
  import opened HintCodec

  /** What the index keeps for a key. */
  datatype Entry = Entry(pos: uint32, ver: int32, hash: uint16)


  /** The staleness audit's two counters (count_deleted_record). */
  datatype AuditCount = AuditCount(deleted: nat, total: nat)

  /** The entry a map holds for a key, if any. */
  function Lookup(m: map<Key, Entry>, k: Key): Option<Entry>
  {
    if k in m then Some(m[k]) else None
  }

  class HTree {
    var entries: map<Key, Entry>

    constructor ()
      ensures entries == map[]
    {
      entries := map[];
    }

    /** ht_add2: insert or overwrite the key's entry. */
    method Add2(key: Key, pos: uint32, hash: uint16, ver: int32)
      modifies this
      ensures entries == old(entries)[key := Entry(pos, ver, hash)]
    {
      entries := entries[key := Entry(pos, ver, hash)];
    }

    /** ht_remove2: drop the key, if present. */
    method Remove2(key: Key)
      modifies this
      ensures entries == old(entries) - {key}
    {
      entries := entries - {key};
    }

    /** ht_get2: look the key up. */
    function Get2(key: Key): (r: Option<Entry>)
      reads this
      ensures r.Some? <==> key in entries
      ensures r.Some? ==> r.value == entries[key]
    {
      Lookup(entries, key)
    }
  }

  // ---------------------------------------------------------------------
  // Replay (scanHintFile, src/hint.c:221-225)

  /** What a record leaves behind for its key: a live entry whose locator is
      rebuilt from the bucket, or nothing for a tombstone (version <= 0). */
  function Effect(r: HintRecord, bucket: int): Option<Entry>
  {
    if r.version > 0 then Some(Entry(Locator(r.pos, bucket), r.version, r.hash)) else None
  }

  /** Applying one record to the index. */
  function Apply(m: map<Key, Entry>, r: HintRecord, bucket: int): (m': map<Key, Entry>)
    ensures Lookup(m', r.key) == Effect(r, bucket)
    ensures forall k :: k != r.key ==> Lookup(m', k) == Lookup(m, k)
  {
    if r.version > 0 then m[r.key := Entry(Locator(r.pos, bucket), r.version, r.hash)]
    else m - {r.key}
  }

  /** Applying the records in file order. Every entry the replay adds or
      changes is live, carries the bucket as its low byte, and belongs to a
      key some record names. */
  function Replay(recs: seq<HintRecord>, bucket: int, m: map<Key, Entry>): (r: map<Key, Entry>)
    ensures forall k :: k in r && !(k in m && r[k] == m[k]) ==>
      && r[k].ver > 0 && r[k].pos % 256 == bucket % 256
      && exists j :: 0 <= j < |recs| && recs[j].key == k
  {
    if recs == [] then m else Replay(recs[1..], bucket, Apply(m, recs[0], bucket))
  }

  lemma {:induction false} ReplayAppend(recs: seq<HintRecord>, r: HintRecord, bucket: int, m: map<Key, Entry>)
    ensures Replay(recs + [r], bucket, m) == Apply(Replay(recs, bucket, m), r, bucket)
  {
    if recs == [] {
      assert [r][1..] == [];
    } else {
      assert (recs + [r])[1..] == recs[1..] + [r];
      ReplayAppend(recs[1..], r, bucket, Apply(m, recs[0], bucket));
    }
  }

  /** A key no record mentions keeps what the index had. */
  lemma {:induction false} ReplayUntouched(recs: seq<HintRecord>, bucket: int, m: map<Key, Entry>, k: Key)
    requires forall j :: 0 <= j < |recs| ==> recs[j].key != k
    ensures Lookup(Replay(recs, bucket, m), k) == Lookup(m, k)
  {
    if recs != [] {
      ReplayUntouched(recs[1..], bucket, Apply(m, recs[0], bucket), k);
    }
  }

  /** For each key, the last record in the file that names it decides the
      final state: an upsert leaves that record's entry, a tombstone leaves
      the key absent. */
  lemma {:induction false} ReplayLastWins(recs: seq<HintRecord>, i: nat, bucket: int, m: map<Key, Entry>)
    requires i < |recs|
    requires forall j :: i < j < |recs| ==> recs[j].key != recs[i].key
    ensures Lookup(Replay(recs, bucket, m), recs[i].key) == Effect(recs[i], bucket)
  {
    var m' := Apply(m, recs[0], bucket);
    if i == 0 {
      ReplayUntouched(recs[1..], bucket, m', recs[0].key);
    } else {
      ReplayLastWins(recs[1..], i - 1, bucket, m');
    }
  }

  // ---------------------------------------------------------------------
  // Snapshot then recover

  predicate DistinctKeys(items: seq<Item>)
  {
    forall i, j :: 0 <= i < j < |items| ==> items[i].key != items[j].key
  }

  function KeysOf(items: seq<Item>): set<Key>
  {
    set i | 0 <= i < |items| :: items[i].key
  }

  /** Replaying the records of an index with distinct keys into any index m:
      every snapshotted key ends with its item's effect, every other key
      keeps what m had. */
  lemma {:induction false} ReplayRecordsOf(items: seq<Item>, bucket: int, m: map<Key, Entry>)
    requires DistinctKeys(items)
    ensures forall i :: 0 <= i < |items| ==>
      Lookup(Replay(RecordsOf(items), bucket, m), items[i].key) == Effect(RecordOf(items[i]), bucket)
    ensures forall k :: k !in KeysOf(items) ==>
      Lookup(Replay(RecordsOf(items), bucket, m), k) == Lookup(m, k)
  {
    var recs := RecordsOf(items);
    forall i | 0 <= i < |items|
      ensures Lookup(Replay(recs, bucket, m), items[i].key) == Effect(RecordOf(items[i]), bucket)
    {
      forall j | i < j < |recs| ensures recs[j].key != recs[i].key {
        RecordsOfAt(items, i);
        RecordsOfAt(items, j);
      }
      RecordsOfAt(items, i);
      ReplayLastWins(recs, i, bucket, m);
    }
    forall k | k !in KeysOf(items)
      ensures Lookup(Replay(recs, bucket, m), k) == Lookup(m, k)
    {
      forall j | 0 <= j < |recs| ensures recs[j].key != k {
        RecordsOfAt(items, j);
        assert items[j].key in KeysOf(items);
      }
      ReplayUntouched(recs, bucket, m, k);
    }
  }

  /** Snapshot then recover: scanning the encoding of an index with distinct
      keys into an empty index leaves exactly the live items, each with its
      position's upper 24 bits, the bucket as its low byte, and its version
      and hash; tombstoned and unknown keys are absent. */
  lemma {:induction false} SnapshotRecovers(items: seq<Item>, bucket: int)
    requires forall i :: 0 <= i < |items| ==> ValidKey(items[i].key)
    requires DistinctKeys(items)
    ensures Parse(EncodeAll(items)).shortfall == 0
    ensures forall i :: 0 <= i < |items| ==>
      Lookup(Replay(Parse(EncodeAll(items)).records, bucket, map[]), items[i].key)
        == Effect(RecordOf(items[i]), bucket)
    ensures forall k :: k in Replay(Parse(EncodeAll(items)).records, bucket, map[]) ==>
      k in KeysOf(items)
  {
    ParseEncodeAll(items);
    ReplayRecordsOf(items, bucket, map[]);
  }

  // ---------------------------------------------------------------------
  // Staleness audit (count_deleted_record, src/hint.c:248-252)

  /** A record is stale when the live index has no entry for its key, holds
      a different locator for it, or holds a tombstone. */
  function Stale(r: HintRecord, bucket: int, m: map<Key, Entry>): (b: bool)
    requires 0 <= bucket < 256
    ensures r.key !in m ==> b
    ensures !b ==> && r.key in m && m[r.key].ver > 0
                   && m[r.key].pos / 256 == r.pos && m[r.key].pos % 256 == bucket
    ensures r.key in m && m[r.key].ver > 0 && m[r.key].pos == r.pos * 256 + bucket ==> !b
  {
    r.key !in m || m[r.key].pos != Locator(r.pos, bucket) || m[r.key].ver <= 0
  }

  function Audit(recs: seq<HintRecord>, bucket: int, m: map<Key, Entry>): (c: AuditCount)
    requires 0 <= bucket < 256
    ensures c.total == |recs|
    ensures c.deleted <= c.total
    ensures c.deleted == 0 <==> forall j :: 0 <= j < |recs| ==> !Stale(recs[j], bucket, m)
  {
    if recs == [] then AuditCount(0, 0)
    else
      var rest := Audit(recs[1..], bucket, m);
      assert forall j :: 1 <= j < |recs| ==> recs[j] == recs[1..][j - 1];
      AuditCount(rest.deleted + (if Stale(recs[0], bucket, m) then 1 else 0), rest.total + 1)
  }

  /** Auditing one more record adds one to total, and one to deleted exactly
      when that record is stale. */
  lemma {:induction false} AuditAppend(recs: seq<HintRecord>, r: HintRecord, bucket: int, m: map<Key, Entry>)
    requires 0 <= bucket < 256
    ensures Audit(recs + [r], bucket, m)
         == AuditCount(Audit(recs, bucket, m).deleted + (if Stale(r, bucket, m) then 1 else 0), |recs| + 1)
  {
    if recs == [] {
      assert recs + [r] == [r] && [r][1..] == [];
    } else {
      assert (recs + [r])[0] == recs[0];
      assert (recs + [r])[1..] == recs[1..] + [r];
      AuditAppend(recs[1..], r, bucket, m);
    }
  }

  function CountTombstones(items: seq<Item>): (n: nat)
    ensures n <= |items|
  {
    if items == [] then 0 else (if items[0].ver <= 0 then 1 else 0) + CountTombstones(items[1..])
  }

  /** Auditing a fresh snapshot against the index it was taken from: when
      every position's low byte is the bucket, the only records counted as
      deleted are the index's own tombstones. */
  lemma {:induction false} AuditOfOwnSnapshot(items: seq<Item>, bucket: int, m: map<Key, Entry>)
    requires 0 <= bucket < 256
    requires forall i :: 0 <= i < |items| ==> items[i].pos % 256 == bucket
    requires forall i :: 0 <= i < |items| ==>
      items[i].key in m && m[items[i].key] == Entry(items[i].pos, items[i].ver, items[i].hash)
    ensures Audit(RecordsOf(items), bucket, m) == AuditCount(CountTombstones(items), |items|)
  {
    if items != [] {
      var it := items[0];
      var recs := RecordsOf(items);
      assert recs == [RecordOf(it)] + RecordsOf(items[1..]);
      assert recs[1..] == RecordsOf(items[1..]);
      LocatorKeepsUpperBits(it.pos, bucket);
      assert Stale(RecordOf(it), bucket, m) <==> it.ver <= 0;
      AuditOfOwnSnapshot(items[1..], bucket, m);
    }
  }
}
