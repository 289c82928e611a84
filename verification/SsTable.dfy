/**
 The sorted string table of 10-database-internals/src/sstable.rs:
 [data][index][footer], written once, opened through its footer, read by binary search.
 */
module SsTables {
  import opened Bytes
  import opened Encoding
  import opened KeyOrder
  import opened WalFormat

  const SST_MAGIC: nat := 0x4C53_4D31
  const FOOTER_SIZE: nat := 36

  /** Panic is an out-of-range slice in the original; Corrupt is its error value. */
  datatype Outcome<+T> = Ok(value: T) | Corrupt | Panic

  datatype IndexEntry = IndexEntry(key: bytes, offset: nat, len: nat)

  datatype SsTable = SsTable(id: nat, file: bytes, index: seq<IndexEntry>, dataLen: nat, maxSeq: nat)

  // ---- the file image -----------------------------------------------------------------

  function DataOf(rs: seq<Record>): bytes {
    if rs == [] then [] else Encode(rs[0]) + DataOf(rs[1..])
  }

  /** One slot per record: its key, where its encoding starts and how long it is. */
  function IndexOf(rs: seq<Record>, offset: nat): (index: seq<IndexEntry>)
    ensures |index| == |rs|
  {
    if rs == [] then []
    else [IndexEntry(rs[0].key, offset, |Encode(rs[0])|)] + IndexOf(rs[1..], offset + |Encode(rs[0])|)
  }

  function EntryBytes(e: IndexEntry): bytes {
    Le32(|e.key|) + e.key + Le64(e.offset) + Le32(e.len)
  }

  function IndexBytes(index: seq<IndexEntry>): bytes {
    if index == [] then [] else EntryBytes(index[0]) + IndexBytes(index[1..])
  }

  function MaxSeq(rs: seq<Record>): nat {
    if rs == [] then 0 else Max(rs[0].seqno, MaxSeq(rs[1..]))
  }

  function Max(a: nat, b: nat): nat {
    if a >= b then a else b
  }

  function Footer(indexOffset: nat, indexLen: nat, count: nat, maxSeq: nat): (f: bytes)
    ensures |f| == FOOTER_SIZE
  {
    Le64(indexOffset) + Le64(indexLen) + Le64(count) + Le64(maxSeq) + Le32(SST_MAGIC)
  }

  function FileImage(rs: seq<Record>): bytes {
    var data := DataOf(rs);
    var index := IndexBytes(IndexOf(rs, 0));
    data + index + Footer(|data|, |index|, |rs|, MaxSeq(rs))
  }

  // ---- reading --------------------------------------------------------------------------

  /** read_exact_at: exactly len bytes at offset, or an error. */
  function ReadAt(file: bytes, offset: nat, len: nat): Outcome<bytes> {
    if offset + len <= |file| then Ok(file[offset..offset + len]) else Corrupt
  }

  /** The index entry at the front of b and its length, or None where slicing would run off the end. */
  function FirstEntry(b: bytes): (r: Option<(IndexEntry, nat)>)
    ensures r.Some? ==> 0 < r.value.1 <= |b|
  {
    if |b| < 4 then None
    else
      var k := 4 + FromLe(b[..4]);
      if |b| < k + 12 then None
      else Some((IndexEntry(b[4..k], FromLe(b[k..k + 8]), FromLe(b[k + 8..k + 12])), k + 12))
  }

  function ParseIndex(b: bytes): Option<seq<IndexEntry>>
    decreases |b|
  {
    if b == [] then Some([])
    else match FirstEntry(b)
      case None => None
      case Some((entry, n)) =>
        match ParseIndex(b[n..])
        case Some(rest) => Some([entry] + rest)
        case None => None
  }

  function Open(file: bytes, id: nat): Outcome<SsTable> {
    if |file| < FOOTER_SIZE then Corrupt else
    var footer := file[|file| - FOOTER_SIZE..];
    if FromLe(footer[32..36]) != SST_MAGIC then Corrupt else
    var indexOffset := FromLe(footer[..8]);
    match ReadAt(file, indexOffset, FromLe(footer[8..16]))
    case Ok(indexBytes) =>
      (match ParseIndex(indexBytes)
       case Some(index) => Ok(SsTable(id, file, index, indexOffset, FromLe(footer[24..32])))
       case None => Panic)
    case _ => Corrupt
  }

  /** Every record of a data region, or None where one does not decode. */
  function DecodeAll(data: bytes): Option<seq<Record>>
    decreases |data|
  {
    if data == [] then Some([]) else
    match Decode(data)
    case None => None
    case Some((record, n)) =>
      match DecodeAll(data[n..])
      case Some(rest) => Some([record] + rest)
      case None => None
  }

  function Iter(t: SsTable): Outcome<seq<Record>> {
    match ReadAt(t.file, 0, t.dataLen)
    case Ok(data) =>
      (match DecodeAll(data)
       case Some(records) => Ok(records)
       case None => Corrupt)
    case _ => Corrupt
  }

  function FindEntry(index: seq<IndexEntry>, k: bytes): Option<IndexEntry> {
    if index == [] then None
    else if index[0].key == k then Some(index[0])
    else FindEntry(index[1..], k)
  }

  function Get(t: SsTable, k: bytes): Outcome<Option<Record>> {
    match FindEntry(t.index, k)
    case None => Ok(None)
    case Some(entry) =>
      match ReadAt(t.file, entry.offset, entry.len)
      case Ok(b) =>
        (match Decode(b)
         case Some((record, _)) => Ok(Some(record))
         case None => Corrupt)
      case _ => Corrupt
  }

  // ---- the code ----------------------------------------------------------------------------

  method BuildData(records: seq<Record>) returns (data: bytes, index: seq<IndexEntry>, maxSeq: nat)
    ensures data == DataOf(records) && index == IndexOf(records, 0) && maxSeq == MaxSeq(records)
  {
    hide Encode;
    data, index, maxSeq := [], [], 0;
    assert records[0..] == records;
    for i := 0 to |records|
      invariant data + DataOf(records[i..]) == DataOf(records)
      invariant index + IndexOf(records[i..], |data|) == IndexOf(records, 0)
      invariant Max(maxSeq, MaxSeq(records[i..])) == MaxSeq(records)
    {
      var encoded := EncodeRecord(records[i]);
      assert records[i..][1..] == records[i + 1..];
      index := index + [IndexEntry(records[i].key, |data|, |encoded|)];
      maxSeq := Max(maxSeq, records[i].seqno);
      data := data + encoded;
    }
  }

  method AppendIndex(data: bytes, index: seq<IndexEntry>) returns (image: bytes)
    ensures image == data + IndexBytes(index)
  {
    hide Le32, Le64;
    image := data;
    assert index[0..] == index;
    for i := 0 to |index|
      invariant image + IndexBytes(index[i..]) == data + IndexBytes(index)
    {
      assert index[i..][1..] == index[i + 1..];
      image := image + (Le32(|index[i].key|) + index[i].key + Le64(index[i].offset) + Le32(index[i].len));
    }
  }

  method BuildImage(records: seq<Record>) returns (image: bytes)
    ensures image == FileImage(records)
  {
    hide DataOf, IndexOf, IndexBytes, MaxSeq, Le32, Le64;
    var data, index, maxSeq := BuildData(records);
    var indexOffset := |data|;
    image := AppendIndex(data, index);
    var indexLen := |image| - indexOffset;
    image := image + (Le64(indexOffset) + Le64(indexLen) + Le64(|index|) + Le64(maxSeq) + Le32(SST_MAGIC));
  }

  method ParseEntryAt(b: bytes, start: nat) returns (r: Option<(IndexEntry, nat)>)
    requires start <= |b|
    ensures r == FirstEntry(b[start..])
  {
    hide FromLe;
    var pos := start;
    if |b| < pos + 4 { return None; }
    SliceOfSlice(b, start, 0, 4);
    var klen := FromLe(b[pos..pos + 4]);
    pos := pos + 4;
    if |b| < pos + klen + 12 { return None; }
    var key := b[pos..pos + klen];
    SliceOfSlice(b, start, 4, 4 + klen);
    pos := pos + klen;
    var offset := FromLe(b[pos..pos + 8]);
    SliceOfSlice(b, start, 4 + klen, 12 + klen);
    pos := pos + 8;
    var len := FromLe(b[pos..pos + 4]);
    SliceOfSlice(b, start, 12 + klen, 16 + klen);
    pos := pos + 4;
    return Some((IndexEntry(key, offset, len), pos - start));
  }

  method ParseIndexLoop(b: bytes) returns (r: Option<seq<IndexEntry>>)
    ensures r == ParseIndex(b)
  {
    hide FirstEntry;
    var index: seq<IndexEntry> := [];
    var pos := 0;
    assert b[0..] == b;
    while pos < |b|
      invariant 0 <= pos <= |b|
      invariant ParseIndex(b).Some? <==> ParseIndex(b[pos..]).Some?
      invariant ParseIndex(b).Some? ==> ParseIndex(b).value == index + ParseIndex(b[pos..]).value
    {
      var entry := ParseEntryAt(b, pos);
      if entry.None? { return None; }
      index := index + [entry.value.0];
      SliceOfSlice(b, pos, 0, entry.value.1);
      pos := pos + entry.value.1;
    }
    assert index + [] == index;
    return Some(index);
  }

  method OpenTable(file: bytes, id: nat) returns (r: Outcome<SsTable>)
    ensures r == Open(file, id)
  {
    if |file| < FOOTER_SIZE { return Corrupt; }
    var footer := file[|file| - FOOTER_SIZE..];
    var indexOffset := FromLe(footer[..8]);
    var indexLen := FromLe(footer[8..16]);
    var maxSeq := FromLe(footer[24..32]);
    var magic := FromLe(footer[32..36]);
    if magic != SST_MAGIC { return Corrupt; }
    var indexBytes := ReadAt(file, indexOffset, indexLen);
    if !indexBytes.Ok? { return Corrupt; }
    var index := ParseIndexLoop(indexBytes.value);
    if index.None? { return Panic; }
    return Ok(SsTable(id, file, index.value, indexOffset, maxSeq));
  }

  method DecodeAllLoop(data: bytes) returns (r: Option<seq<Record>>)
    ensures r == DecodeAll(data)
  {
    hide Decode;
    var records: seq<Record> := [];
    var pos := 0;
    assert data[0..] == data;
    while pos < |data|
      invariant 0 <= pos <= |data|
      invariant DecodeAll(data).Some? <==> DecodeAll(data[pos..]).Some?
      invariant DecodeAll(data).Some? ==> DecodeAll(data).value == records + DecodeAll(data[pos..]).value
    {
      var decoded := DecodeRecord(data[pos..]);
      if decoded.None? { return None; }
      records := records + [decoded.value.0];
      SliceOfSlice(data, pos, 0, decoded.value.1);
      pos := pos + decoded.value.1;
    }
    assert records + [] == records;
    return Some(records);
  }

  method IterTable(t: SsTable) returns (r: Outcome<seq<Record>>)
    ensures r == Iter(t)
  {
    var data := ReadAt(t.file, 0, t.dataLen);
    if !data.Ok? { return Corrupt; }
    var records := DecodeAllLoop(data.value);
    if records.None? { return Corrupt; }
    return Ok(records.value);
  }

  predicate IndexSorted(index: seq<IndexEntry>) {
    forall i, j :: 0 <= i < j < |index| ==> Less(index[i].key, index[j].key)
  }

  lemma {:induction false} FindEntryAt(index: seq<IndexEntry>, i: nat)
    requires IndexSorted(index) && i < |index|
    ensures FindEntry(index, index[i].key) == Some(index[i])
  {
    if i > 0 {
      LessAsymmetric(index[0].key, index[i].key);
      FindEntryAt(index[1..], i - 1);
    }
  }

  lemma {:induction false} FindEntryNone(index: seq<IndexEntry>, k: bytes)
    requires forall i :: 0 <= i < |index| ==> index[i].key != k
    ensures FindEntry(index, k) == None
  {
    if index != [] { FindEntryNone(index[1..], k); }
  }

  method BinarySearch(index: seq<IndexEntry>, key: bytes) returns (slot: Option<IndexEntry>)
    requires IndexSorted(index)
    ensures slot == FindEntry(index, key)
  {
    var lo, hi := 0, |index|;
    while lo < hi
      invariant 0 <= lo <= hi <= |index|
      invariant forall i :: 0 <= i < lo ==> index[i].key != key
      invariant forall i :: hi <= i < |index| ==> index[i].key != key
    {
      var mid := (lo + hi) / 2;
      if index[mid].key == key {
        FindEntryAt(index, mid);
        return Some(index[mid]);
      }
      LessTotal(index[mid].key, key);
      if Less(index[mid].key, key) {
        forall i | lo <= i < mid
          ensures index[i].key != key
        {
          LessAsymmetric(index[mid].key, key);
        }
        lo := mid + 1;
      } else {
        forall i | mid < i < hi
          ensures index[i].key != key
        {
          LessAsymmetric(key, index[mid].key);
        }
        hi := mid;
      }
    }
    FindEntryNone(index, key);
    return None;
  }

  method GetRecord(t: SsTable, key: bytes) returns (r: Outcome<Option<Record>>)
    requires IndexSorted(t.index)
    ensures r == Get(t, key)
  {
    hide Decode;
    var slot := BinarySearch(t.index, key);
    if slot.None? { return Ok(None); }
    var b := ReadAt(t.file, slot.value.offset, slot.value.len);
    if !b.Ok? { return Corrupt; }
    var decoded := DecodeRecord(b.value);
    if decoded.None? { return Corrupt; }
    return Ok(Some(decoded.value.0));
  }

  // ---- what the format promises ----------------------------------------------------------

  /** The in-memory table that a record list stands for. */
  function TableOf(id: nat, rs: seq<Record>): SsTable {
    SsTable(id, FileImage(rs), IndexOf(rs, 0), |DataOf(rs)|, MaxSeq(rs))
  }

  /** Sorted by key, every length within its field. */
  predicate Writable(rs: seq<Record>) {
    Sorted(rs) && AllFit(rs) && |FileImage(rs)| < U64_LIMIT
  }

  lemma RoundTripFits(r: Record, tail: bytes)
    requires FrameFits(r)
    ensures Decode(Encode(r) + tail) == Some((r, |Encode(r)|))
  {
    hide Decode, Encode;
    RoundTrip(r, tail);
  }

  lemma {:induction false} DecodeAllOfData(rs: seq<Record>)
    requires AllFit(rs)
    ensures DecodeAll(DataOf(rs)) == Some(rs)
  {
    if rs != [] {
      hide Decode, Encode, FrameFits;
      var rest := DataOf(rs[1..]);
      assert FrameFits(rs[0]);
      RoundTripFits(rs[0], rest);
      assert DataOf(rs) == Encode(rs[0]) + rest;
      assert DataOf(rs)[|Encode(rs[0])|..] == rest;
      DecodeAllOfData(rs[1..]);
      assert rs == [rs[0]] + rs[1..];
    }
  }

  lemma ParseEntry(e: IndexEntry, tail: bytes)
    requires |e.key| < U32_LIMIT && e.offset < U64_LIMIT && e.len < U32_LIMIT
    ensures ParseIndex(EntryBytes(e) + tail) ==
            match ParseIndex(tail) case Some(rest) => Some([e] + rest) case None => None
  {
    hide FromLe, Le32, Le64;
    var b := EntryBytes(e) + tail;
    var k := 4 + |e.key|;
    LeFields(|e.key|);
    LeFields(e.offset);
    LeFields(e.len);
    assert b[..4] == Le32(|e.key|) && b[4..k] == e.key;
    assert b[k..k + 8] == Le64(e.offset) && b[k + 8..k + 12] == Le32(e.len) && b[k + 12..] == tail;
  }

  lemma {:induction false} ParseIndexOf(rs: seq<Record>, offset: nat)
    requires AllFit(rs) && offset + |DataOf(rs)| < U64_LIMIT
    ensures ParseIndex(IndexBytes(IndexOf(rs, offset))) == Some(IndexOf(rs, offset))
  {
    if rs != [] {
      hide Encode, EntryBytes;
      assert FrameFits(rs[0]);
      var index := IndexOf(rs, offset);
      var next := offset + |Encode(rs[0])|;
      assert |DataOf(rs)| == |Encode(rs[0])| + |DataOf(rs[1..])|;
      assert index[1..] == IndexOf(rs[1..], next);
      ParseEntry(index[0], IndexBytes(IndexOf(rs[1..], next)));
      ParseIndexOf(rs[1..], next);
    }
  }

  lemma {:induction false} MaxSeqBounds(rs: seq<Record>)
    ensures forall r :: r in rs ==> r.seqno <= MaxSeq(rs)
    ensures rs != [] ==> exists r :: r in rs && r.seqno == MaxSeq(rs)
  {
    if rs != [] {
      MaxSeqBounds(rs[1..]);
      assert rs == [rs[0]] + rs[1..];
      if MaxSeq(rs) == rs[0].seqno {
        assert rs[0] in rs;
      } else {
        var r :| r in rs[1..] && r.seqno == MaxSeq(rs[1..]);
        assert r in rs;
      }
    }
  }

  lemma {:induction false} CountBound(rs: seq<Record>)
    ensures |rs| <= |DataOf(rs)|
  {
    if rs != [] { CountBound(rs[1..]); }
  }

  lemma FooterFields(file: bytes, body: bytes, a: nat, b: nat, c: nat, d: nat)
    requires a < U64_LIMIT && b < U64_LIMIT && c < U64_LIMIT && d < U64_LIMIT
    requires file == body + Footer(a, b, c, d)
    ensures var f := file[|file| - FOOTER_SIZE..];
            && FromLe(f[..8]) == a && FromLe(f[8..16]) == b && FromLe(f[16..24]) == c
            && FromLe(f[24..32]) == d && FromLe(f[32..36]) == SST_MAGIC
  {
    hide FromLe, Le32, Le64;
    var f := file[|file| - FOOTER_SIZE..];
    assert f == Footer(a, b, c, d);
    LeFields(a);
    LeFields(b);
    LeFields(c);
    LeFields(d);
    LeFields(SST_MAGIC);
    assert f[..8] == Le64(a) && f[8..16] == Le64(b) && f[16..24] == Le64(c);
    assert f[24..32] == Le64(d) && f[32..36] == Le32(SST_MAGIC);
  }

  /** Opening a written image recovers the index, the data length and the highest seq. */
  lemma OpenWritten(id: nat, rs: seq<Record>)
    requires Writable(rs)
    ensures Open(FileImage(rs), id) == Ok(TableOf(id, rs))
  {
    hide FromLe, Le32, Le64, Encode, ParseIndex, Footer, DataOf, IndexOf, IndexBytes, MaxSeq, Sorted;
    var data, index := DataOf(rs), IndexBytes(IndexOf(rs, 0));
    var file := FileImage(rs);
    CountBound(rs);
    MaxSeqFits(rs);
    FooterFields(file, data + index, |data|, |index|, |rs|, MaxSeq(rs));
    assert file[|data|..|data| + |index|] == index;
    ParseIndexOf(rs, 0);
  }

  lemma MaxSeqFits(rs: seq<Record>)
    requires AllFit(rs)
    ensures MaxSeq(rs) < U64_LIMIT
  {
    MaxSeqBounds(rs);
  }

  /** Walking the data region gives back every record, in key order. */
  lemma IterWritten(id: nat, rs: seq<Record>)
    requires Writable(rs)
    ensures Iter(TableOf(id, rs)) == Ok(rs)
  {
    hide DecodeAll, DataOf, IndexOf, IndexBytes, MaxSeq, Footer, Sorted;
    var file := FileImage(rs);
    assert file[0..|DataOf(rs)|] == DataOf(rs);
    DecodeAllOfData(rs);
  }

  /** The slot locates the encoding of r in data that starts at file offset `start`. */
  predicate PointsAt(data: bytes, start: nat, slot: IndexEntry, r: Record) {
    && start <= slot.offset && slot.offset - start + slot.len <= |data|
    && data[slot.offset - start..slot.offset - start + slot.len] == Encode(r)
  }

  lemma PointsPast(e: bytes, rest: bytes, start: nat, slot: IndexEntry, r: Record)
    requires PointsAt(rest, start + |e|, slot, r)
    ensures PointsAt(e + rest, start, slot, r)
  {
    hide Encode;
    var a := slot.offset - start - |e|;
    assert (e + rest)[|e| + a..|e| + a + slot.len] == rest[a..a + slot.len];
  }

  /** Every index slot points at the encoding of its record. */
  lemma {:induction false} IndexPointsAt(rs: seq<Record>, start: nat, k: bytes)
    ensures var slot := FindEntry(IndexOf(rs, start), k);
            match Lookup(rs, k)
            case None => slot == None
            case Some(r) => slot.Some? && PointsAt(DataOf(rs), start, slot.value, r)
  {
    if rs != [] {
      hide Encode;
      var e, rest := Encode(rs[0]), DataOf(rs[1..]);
      assert DataOf(rs) == e + rest;
      assert IndexOf(rs, start)[1..] == IndexOf(rs[1..], start + |e|);
      if rs[0].key == k {
        assert (e + rest)[0..|e|] == e;
      } else {
        IndexPointsAt(rs[1..], start + |e|, k);
        if Lookup(rs[1..], k).Some? {
          PointsPast(e, rest, start, FindEntry(IndexOf(rs[1..], start + |e|), k).value, Lookup(rs[1..], k).value);
        }
      }
    }
  }

  /** Look-up through the index finds exactly what a linear scan of the records finds. */
  lemma GetWritten(id: nat, rs: seq<Record>, k: bytes)
    requires Writable(rs)
    ensures Get(TableOf(id, rs), k) == Ok(Lookup(rs, k))
  {
    hide Decode, Encode, DataOf, IndexOf, IndexBytes, MaxSeq, Footer, Sorted, FindEntry;
    var t := TableOf(id, rs);
    IndexPointsAt(rs, 0, k);
    if Lookup(rs, k).Some? {
      var r, slot := Lookup(rs, k).value, FindEntry(t.index, k).value;
      var data, tail := DataOf(rs), t.file[|DataOf(rs)|..];
      assert t.file == data + tail;
      assert (data + tail)[slot.offset..slot.offset + slot.len] == data[slot.offset..slot.offset + slot.len];
      RoundTripFits(r, []);
      assert Encode(r) + [] == Encode(r);
    }
  }

  lemma {:induction false} IndexKeys(rs: seq<Record>, offset: nat, i: nat)
    requires i < |rs|
    ensures IndexOf(rs, offset)[i].key == rs[i].key
  {
    if i > 0 { IndexKeys(rs[1..], offset + |Encode(rs[0])|, i - 1); }
  }

  /** The index of a written table is sorted, as binary search needs. */
  lemma IndexOfSorted(rs: seq<Record>, offset: nat)
    requires Sorted(rs)
    ensures IndexSorted(IndexOf(rs, offset))
  {
    var index := IndexOf(rs, offset);
    forall i, j | 0 <= i < j < |index|
      ensures Less(index[i].key, index[j].key)
    {
      IndexKeys(rs, offset, i);
      IndexKeys(rs, offset, j);
    }
  }

  lemma FooterSlices(file: bytes)
    requires |file| >= 36
    ensures var footer := file[|file| - 36..];
      && footer[32..36] == file[|file| - 4..] && footer[..8] == file[|file| - 36..|file| - 28]
      && footer[8..16] == file[|file| - 28..|file| - 20] && footer[24..32] == file[|file| - 12..|file| - 4]
  {
  }

  lemma OpenedFields(file: bytes, id: nat)
    requires Open(file, id).Ok?
    ensures |file| >= 36 && FromLe(file[|file| - 36..][32..36]) == SST_MAGIC
    ensures var t, footer := Open(file, id).value, file[|file| - 36..];
      var start, len := FromLe(footer[..8]), FromLe(footer[8..16]);
      && t.id == id && t.file == file && t.dataLen == start && t.maxSeq == FromLe(footer[24..32])
      && start + len <= |file| && ParseIndex(file[start..start + len]) == Some(t.index)
  {
    hide FromLe, ParseIndex;
  }

  /** A file opens only if it ends in the magic number, and then its index region is exactly the index in memory. */
  lemma OpenedIsExact(file: bytes, id: nat)
    requires Open(file, id).Ok?
    ensures var t := Open(file, id).value;
      && |file| >= 36 && file[|file| - 4..] == [0x31, 0x4D, 0x53, 0x4C]
      && t.id == id && t.file == file
      && var start, len := FromLe(file[|file| - 36..|file| - 28]), FromLe(file[|file| - 28..|file| - 20]);
         && start + len <= |file| && t.dataLen == start && IndexBytes(t.index) == file[start..start + len]
         && t.maxSeq == FromLe(file[|file| - 12..|file| - 4])
  {
    hide FromLe, ParseIndex, IndexBytes, Open;
    OpenedFields(file, id);
    FooterSlices(file);
    MagicBytes(file[|file| - 4..]);
    var start, len := FromLe(file[|file| - 36..|file| - 28]), FromLe(file[|file| - 28..|file| - 20]);
    ParseIndexExact(file[start..start + len]);
  }

  lemma MagicBytes(b: bytes)
    requires |b| == 4 && FromLe(b) == SST_MAGIC
    ensures b == [0x31, 0x4D, 0x53, 0x4C]
  {
    FromLe32(b[0], b[1], b[2], b[3]);
    assert b == [b[0], b[1], b[2], b[3]];
    hide FromLe;
  }

  /** What is read as an index is that index as it would be written. */
  lemma {:induction false} ParseIndexExact(b: bytes)
    ensures ParseIndex(b).Some? ==> IndexBytes(ParseIndex(b).value) == b
    decreases |b|
  {
    if b != [] && ParseIndex(b).Some? {
      var (entry, n) := FirstEntry(b).value;
      FirstEntryExact(b);
      ParseIndexExact(b[n..]);
      hide FirstEntry, EntryBytes;
      assert ParseIndex(b).value[1..] == ParseIndex(b[n..]).value;
      assert b == b[..n] + b[n..];
    }
  }

  lemma FirstEntryExact(b: bytes)
    requires FirstEntry(b).Some?
    ensures var (entry, n) := FirstEntry(b).value; EntryBytes(entry) == b[..n]
  {
    var k := 4 + FromLe(b[..4]);
    LeFieldsInverse(b[..4]);
    LeFieldsInverse(b[k..k + 8]);
    LeFieldsInverse(b[k + 8..k + 12]);
    hide FromLe, Le32, Le64;
    assert |b[4..k]| == FromLe(b[..4]);
    assert b[..k + 12] == b[..4] + b[4..k] + b[k..k + 8] + b[k + 8..k + 12];
  }
}
