/** The packed hint record of a bucket's hint file (src/hint.c).

    The C code overlays a bit-field struct on the buffer; here the record is an
    explicit byte layout, little-endian as the struct lies in memory on the
    platforms the source targets:

      byte 0       ksize           (8 bits)
      bytes 1..3   pos >> 8        (24 bits)
      bytes 4..7   version         (signed 32 bits, two's complement)
      bytes 8..9   hash            (16 bits)
      bytes 10..   key (ksize bytes), then one 0 byte

    sizeof(HintRecord) is 12, of which NAME_IN_RECORD = 2 bytes are the start
    of the key, so a record occupies 12 - 2 + ksize + 1 bytes. */
module HintCodec {

  type byte = x: int | 0 <= x < 256
  type uint16 = x: int | 0 <= x < 0x1_0000
  type uint24 = x: int | 0 <= x < 0x100_0000
  type uint32 = x: int | 0 <= x < 0x1_0000_0000
  type int32 = x: int | -0x8000_0000 <= x < 0x8000_0000

  /** The bytes of a key. */
  type Key = seq<byte>

  const HINT_RECORD_SIZE: nat := 12   // sizeof(HintRecord)
  const NAME_IN_RECORD: nat := 2      // bytes of the key counted in the struct
  const HEADER_LEN: nat := 10         // HINT_RECORD_SIZE - NAME_IN_RECORD
  const MAX_KEY_LEN: nat := 255       // ksize is an 8-bit field
  const MAX_RECORD_LEN: nat := 266    // HEADER_LEN + MAX_KEY_LEN + 1

  datatype Option<T> = None | Some(value: T)

  /** An item of the in-memory index, as the visitor hands it to the encoder. */
  datatype Item = Item(key: Key, pos: uint32, ver: int32, hash: uint16)

  /** A record as the scanner reads it back: the key, the stored upper 24
      bits of the position, the version and the hash. */
  datatype HintRecord = HintRecord(key: Key, pos: uint24, version: int32, hash: uint16)

  /** What a scan of a whole buffer yields: the complete records in file
      order, and how many bytes the first overrunning record lacked (0 when
      the buffer ends exactly on a record boundary). */
  datatype Parsed = Parsed(records: seq<HintRecord>, shortfall: nat)

  /** A key the encoder accepts: a C string, so no 0 byte inside, whose
      length fits the 8-bit ksize field. */
  predicate ValidKey(k: Key)
  {
    |k| <= MAX_KEY_LEN && forall i :: 0 <= i < |k| ==> k[i] != 0
  }

  /** Bytes a record with a key of ksize bytes occupies (src/hint.c:48, 216, 243). */
  function RecordLength(ksize: nat): (n: nat)
    ensures n == HEADER_LEN + ksize + 1
    ensures ksize <= MAX_KEY_LEN ==> n <= MAX_RECORD_LEN
  {
    HINT_RECORD_SIZE - NAME_IN_RECORD + ksize + 1
  }

  // ---------------------------------------------------------------------
  // Little-endian unsigned fields

  function Pow256(n: nat): (r: nat)
    ensures r >= 1
  {
    if n == 0 then 1 else 256 * Pow256(n - 1)
  }

  /** The n low-order bytes of x, least significant first. */
  function LittleEndian(x: nat, n: nat): (r: seq<byte>)
    requires x < Pow256(n)
    ensures |r| == n
  {
    if n == 0 then [] else [x % 256] + LittleEndian(x / 256, n - 1)
  }

  function FromLittleEndian(s: seq<byte>): (x: nat)
    ensures x < Pow256(|s|)
  {
    if s == [] then 0 else s[0] + 256 * FromLittleEndian(s[1..])
  }

  lemma {:induction false} LittleEndianRoundTrip(x: nat, n: nat)
    requires x < Pow256(n)
    ensures FromLittleEndian(LittleEndian(x, n)) == x
  {
    if n > 0 {
      var s := LittleEndian(x, n);
      assert s[1..] == LittleEndian(x / 256, n - 1);
      LittleEndianRoundTrip(x / 256, n - 1);
    }
  }

  // ---------------------------------------------------------------------
  // Signed 32-bit version as an unsigned bit pattern

  function ToUnsigned32(v: int32): (u: uint32)
    ensures u % 0x1_0000_0000 == v % 0x1_0000_0000
  {
    if v < 0 then v + 0x1_0000_0000 else v
  }

  function FromUnsigned32(u: uint32): (v: int32)
    ensures v % 0x1_0000_0000 == u % 0x1_0000_0000
  {
    if u >= 0x8000_0000 then u - 0x1_0000_0000 else u
  }

  lemma SignedRoundTrip(v: int32)
    ensures FromUnsigned32(ToUnsigned32(v)) == v
  {
  }

  // ---------------------------------------------------------------------
  // Locator packing

  /** The item locator rebuilt from a record: `(pos << 8) | (bucket & 0xff)`
      (src/hint.c:221). The low byte of `pos << 8` is zero, so the OR is an
      addition, and for a two's-complement int `bucket & 0xff` is Dafny's
      Euclidean `bucket % 256`. */
  function Locator(pos24: uint24, bucket: int): (loc: uint32)
    ensures loc / 256 == pos24
    ensures loc % 256 == bucket % 256
  {
    pos24 * 256 + bucket % 256
  }

  /** Storing `pos >> 8` and rebuilding with the bucket keeps the upper 24
      bits of the position and replaces only its low byte (src/hint.c:57, 221). */
  lemma LocatorKeepsUpperBits(pos: uint32, bucket: int)
    ensures pos / 256 < 0x100_0000
    ensures Locator(pos / 256, bucket) / 256 == pos / 256
    ensures Locator(pos / 256, bucket) % 256 == bucket % 256
    ensures pos % 256 == bucket % 256 ==> Locator(pos / 256, bucket) == pos
  {
  }

  // ---------------------------------------------------------------------
  // Encoding (collect_items, src/hint.c:46-63)

  /** The bytes collect_items writes for one item. */
  function EncodeRecord(it: Item): (r: seq<byte>)
    requires ValidKey(it.key)
    ensures |r| == RecordLength(|it.key|)
    ensures r[0] == |it.key|
    ensures r[HEADER_LEN..HEADER_LEN + |it.key|] == it.key
    ensures r[HEADER_LEN + |it.key|] == 0
  {
    assert Pow256(3) == 0x100_0000 && Pow256(4) == 0x1_0000_0000 && Pow256(2) == 0x1_0000;
    var header := [|it.key| as byte] + LittleEndian(it.pos / 256, 3)
                  + LittleEndian(ToUnsigned32(it.ver), 4) + LittleEndian(it.hash, 2);
    assert |header| == HEADER_LEN;
    var r := header + it.key + [0];
    assert r[HEADER_LEN..HEADER_LEN + |it.key|] == it.key;
    r
  }

  /** Concatenation of the records of the items in visit order: the build
      buffer's contents after the visit (src/hint.c:92). */
  function EncodeAll(items: seq<Item>): (r: seq<byte>)
    requires forall i :: 0 <= i < |items| ==> ValidKey(items[i].key)
    ensures |r| >= (HEADER_LEN + 1) * |items|
    ensures r == [] <==> items == []
  {
    if items == [] then [] else EncodeRecord(items[0]) + EncodeAll(items[1..])
  }

  /** The record the scanner is expected to read back for an item. */
  function RecordOf(it: Item): HintRecord
  {
    HintRecord(it.key, it.pos / 256, it.ver, it.hash)
  }

  function RecordsOf(items: seq<Item>): (rs: seq<HintRecord>)
    ensures |rs| == |items|
  {
    if items == [] then [] else [RecordOf(items[0])] + RecordsOf(items[1..])
  }

  lemma {:induction false} RecordsOfAt(items: seq<Item>, i: nat)
    requires i < |items|
    ensures RecordsOf(items)[i] == RecordOf(items[i])
  {
    if i > 0 {
      RecordsOfAt(items[1..], i - 1);
    }
  }

  // ---------------------------------------------------------------------
  // Decoding (the two scan loops, src/hint.c:213-226 and 239-254)

  /** Reads the record at the start of data; the caller has checked that the
      length its ksize byte declares fits (src/hint.c:216-220). */
  function DecodeHead(data: seq<byte>): (r: HintRecord)
    requires |data| >= 1 && RecordLength(data[0]) <= |data|
    ensures |r.key| == data[0]
    ensures r.key == data[HEADER_LEN..HEADER_LEN + data[0]]
  {
    assert Pow256(3) == 0x100_0000 && Pow256(4) == 0x1_0000_0000 && Pow256(2) == 0x1_0000;
    HintRecord(data[HEADER_LEN..HEADER_LEN + data[0]],
               FromLittleEndian(data[1..4]),
               FromUnsigned32(FromLittleEndian(data[4..8])),
               FromLittleEndian(data[8..10]))
  }

  /** Walks data record by record, as both scan loops do: stop at the end of
      the buffer, or at the first record whose declared end lies beyond it,
      reporting how many bytes that record lacks. */
  function Parse(data: seq<byte>): (r: Parsed)
    ensures r.shortfall < MAX_RECORD_LEN
    ensures |r.records| * (HEADER_LEN + 1) <= |data|
    ensures r.shortfall > 0 ==> |data| > 0
    decreases |data|
  {
    if |data| == 0 then Parsed([], 0)
    else if |data| < RecordLength(data[0]) then Parsed([], RecordLength(data[0]) - |data|)
    else
      var rest := Parse(data[RecordLength(data[0])..]);
      Parsed([DecodeHead(data)] + rest.records, rest.shortfall)
  }

  // ---------------------------------------------------------------------
  // Round trips

  /** One record decodes to the fields it was built from, whatever follows
      it in the buffer. */
  lemma {:induction false} RecordRoundTrip(it: Item, rest: seq<byte>)
    requires ValidKey(it.key)
    ensures var data := EncodeRecord(it) + rest;
      RecordLength(data[0]) <= |data| && DecodeHead(data) == RecordOf(it)
  {
    var enc := EncodeRecord(it);
    var data := enc + rest;
    assert Pow256(3) == 0x100_0000 && Pow256(4) == 0x1_0000_0000 && Pow256(2) == 0x1_0000;
    assert data[1..4] == LittleEndian(it.pos / 256, 3);
    assert data[4..8] == LittleEndian(ToUnsigned32(it.ver), 4);
    assert data[8..10] == LittleEndian(it.hash, 2);
    assert data[HEADER_LEN..HEADER_LEN + data[0]] == it.key;
    LittleEndianRoundTrip(it.pos / 256, 3);
    LittleEndianRoundTrip(ToUnsigned32(it.ver), 4);
    LittleEndianRoundTrip(it.hash, 2);
    SignedRoundTrip(it.ver);
  }

  /** A buffer that starts with an encoded record scans as that record
      followed by the scan of the rest. */
  lemma {:induction false} ParseRecordThen(it: Item, rest: seq<byte>)
    requires ValidKey(it.key)
    ensures Parse(EncodeRecord(it) + rest)
         == Parsed([RecordOf(it)] + Parse(rest).records, Parse(rest).shortfall)
  {
    var data := EncodeRecord(it) + rest;
    RecordRoundTrip(it, rest);
    assert data[RecordLength(data[0])..] == rest;
  }

  lemma {:induction false} EncodeAllConcat(a: seq<Item>, b: seq<Item>)
    requires forall i :: 0 <= i < |a| ==> ValidKey(a[i].key)
    requires forall i :: 0 <= i < |b| ==> ValidKey(b[i].key)
    ensures EncodeAll(a + b) == EncodeAll(a) + EncodeAll(b)
  {
    if a == [] {
      assert a + b == b;
    } else {
      var ab := a + b;
      assert ab[0] == a[0] && ab[1..] == a[1..] + b;
      assert EncodeAll(ab) == EncodeRecord(a[0]) + EncodeAll(a[1..] + b);
      EncodeAllConcat(a[1..], b);
    }
  }

  /** Complete records in front of any bytes t scan as themselves, followed
      by whatever t scans as. */
  lemma {:induction false} ParseAfterRecords(pre: seq<Item>, t: seq<byte>)
    requires forall i :: 0 <= i < |pre| ==> ValidKey(pre[i].key)
    ensures Parse(EncodeAll(pre) + t)
         == Parsed(RecordsOf(pre) + Parse(t).records, Parse(t).shortfall)
  {
    if pre == [] {
      assert EncodeAll(pre) + t == t;
    } else {
      var rest := EncodeAll(pre[1..]) + t;
      assert EncodeAll(pre) + t == EncodeRecord(pre[0]) + rest;
      ParseRecordThen(pre[0], rest);
      ParseAfterRecords(pre[1..], t);
      var tail := Parse(t).records;
      assert RecordsOf(pre) + tail == [RecordOf(pre[0])] + (RecordsOf(pre[1..]) + tail);
    }
  }

  /** Scanning a complete encoded buffer yields every item's record, in visit
      order, with no shortfall: the encoder and the scanner advance by the
      same amount. */
  lemma {:induction false} ParseEncodeAll(items: seq<Item>)
    requires forall i :: 0 <= i < |items| ==> ValidKey(items[i].key)
    ensures Parse(EncodeAll(items)) == Parsed(RecordsOf(items), 0)
  {
    ParseAfterRecords(items, []);
    assert EncodeAll(items) + [] == EncodeAll(items);
  }

  lemma {:induction false} EncodeAllAppend(items: seq<Item>, it: Item)
    requires forall i :: 0 <= i < |items| ==> ValidKey(items[i].key)
    requires ValidKey(it.key)
    ensures EncodeAll(items + [it]) == EncodeAll(items) + EncodeRecord(it)
  {
    var single := [it];
    assert EncodeAll(single) == EncodeRecord(it) by {
      assert single[1..] == [];
    }
    EncodeAllConcat(items, single);
  }

  /** A cut strictly inside a single record leaves nothing to decode and
      reports the bytes the record still lacks. */
  lemma {:induction false} ParseCutRecord(it: Item, cut: nat)
    requires ValidKey(it.key)
    requires 0 < cut < |EncodeRecord(it)|
    ensures Parse(EncodeRecord(it)[..cut]) == Parsed([], |EncodeRecord(it)| - cut)
  {
    var data := EncodeRecord(it)[..cut];
    assert data[0] == |it.key|;
  }

  /** The encoding of a visit, split around record k. */
  lemma {:induction false} EncodeAllAround(items: seq<Item>, k: nat)
    requires forall i :: 0 <= i < |items| ==> ValidKey(items[i].key)
    requires k < |items|
    ensures EncodeAll(items[..k + 1]) == EncodeAll(items[..k]) + EncodeRecord(items[k])
    ensures EncodeAll(items) == EncodeAll(items[..k + 1]) + EncodeAll(items[k + 1..])
  {
    var upto, post := items[..k + 1], items[k + 1..];
    assert upto == items[..k] + [items[k]];
    EncodeAllAppend(items[..k], items[k]);
    assert items == upto + post;
    EncodeAllConcat(upto, post);
  }

  /** Truncation tolerance: cutting an encoded buffer at any byte strictly
      inside record k leaves a scan that yields exactly the k records before
      the cut and reports the missing byte count, which is positive. */
  lemma {:induction false} ParseTruncated(items: seq<Item>, k: nat, cut: nat)
    requires forall i :: 0 <= i < |items| ==> ValidKey(items[i].key)
    requires k < |items|
    requires |EncodeAll(items[..k])| < cut < |EncodeAll(items[..k + 1])|
    ensures cut <= |EncodeAll(items)|
    ensures Parse(EncodeAll(items)[..cut])
         == Parsed(RecordsOf(items[..k]), |EncodeAll(items[..k + 1])| - cut)
  {
    var pre := items[..k];
    var head := EncodeAll(pre);
    var enc := EncodeRecord(items[k]);
    EncodeAllAround(items, k);
    var c := cut - |head|;
    assert EncodeAll(items)[..cut] == head + enc[..c];
    ParseCutRecord(items[k], c);
    ParseAfterRecords(pre, enc[..c]);
    assert RecordsOf(pre) + [] == RecordsOf(pre);
  }
}
