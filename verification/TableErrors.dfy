/**
 Tables and directories of arbitrary bytes: which files open, what reading an opened one
 can report, and when the whole store opens.
 */
module TableErrors {
  import opened Bytes
  import opened Encoding
  import opened WalFormat
  import opened KeyOrder
  import opened SsTables
  import opened Disks
  import opened Lsm

  // ---- the file -------------------------------------------------------------------------------

  /** Where everything stands in a written file: data, index, and 36 bytes that say where they are. */
  lemma FileLayout(rs: seq<Record>)
    requires Writable(rs)
    ensures var file, data, index := FileImage(rs), DataOf(rs), IndexBytes(IndexOf(rs, 0));
      var f := |data| + |index|;
      && |file| == f + 36 && file[..|data|] == data && file[|data|..f] == index
      && FromLe(file[f..f + 8]) == |data| && FromLe(file[f + 8..f + 16]) == |index| && FromLe(file[f + 16..f + 24]) == |rs|
      && FromLe(file[f + 24..f + 32]) == MaxSeq(rs) && file[f + 32..] == [0x31, 0x4D, 0x53, 0x4C]
  {
    hide FromLe, Le32, Le64, Encode, Footer, DataOf, IndexOf, IndexBytes, MaxSeq, Sorted;
    var data, index, file := DataOf(rs), IndexBytes(IndexOf(rs, 0)), FileImage(rs);
    CountBound(rs);
    MaxSeqFits(rs);
    FooterFields(file, data + index, |data|, |index|, |rs|, MaxSeq(rs));
    var footer, n := file[|file| - 36..], |data| + |index|;
    assert footer[..8] == file[n..n + 8] && footer[8..16] == file[n + 8..n + 16] && footer[16..24] == file[n + 16..n + 24];
    assert footer[24..32] == file[n + 24..n + 32] && footer[32..36] == file[n + 32..];
    MagicBytes(footer[32..36]);
  }

  predicate SlotFits(e: IndexEntry) {
    |e.key| < U32_LIMIT && e.offset < U64_LIMIT && e.len < U32_LIMIT
  }

  /** b is the written form of an index. */
  ghost predicate IsIndex(b: bytes) {
    exists index: seq<IndexEntry> :: (forall i :: 0 <= i < |index| ==> SlotFits(index[i])) && b == IndexBytes(index)
  }

  lemma {:induction false} WrittenIndexParses(index: seq<IndexEntry>)
    requires forall i :: 0 <= i < |index| ==> SlotFits(index[i])
    ensures ParseIndex(IndexBytes(index)) == Some(index)
  {
    if index != [] {
      WrittenIndexParses(index[1..]);
      ParseEntry(index[0], IndexBytes(index[1..]));
      hide EntryBytes, ParseIndex;
      assert index == [index[0]] + index[1..];
    }
  }

  lemma {:induction false} ParsedSlotsFit(b: bytes)
    ensures ParseIndex(b).Some? ==> forall i :: 0 <= i < |ParseIndex(b).value| ==> SlotFits(ParseIndex(b).value[i])
    decreases |b|
  {
    if b != [] && ParseIndex(b).Some? {
      FirstSlotFits(b);
      ParsedSlotsFit(b[FirstEntry(b).value.1..]);
      hide FirstEntry;
    }
  }

  lemma FirstSlotFits(b: bytes)
    requires FirstEntry(b).Some?
    ensures SlotFits(FirstEntry(b).value.0)
  {
    var k := 4 + FromLe(b[..4]);
    FromLeRange(b[..4]);
    FromLeRange(b[k..k + 8]);
    FromLeRange(b[k + 8..k + 12]);
    hide FromLe;
  }

  lemma ParsesIff(b: bytes)
    ensures ParseIndex(b).Some? <==> IsIndex(b)
  {
    if ParseIndex(b).Some? {
      ParsedSlotsFit(b);
      ParseIndexExact(b);
    }
    if IsIndex(b) {
      var index: seq<IndexEntry> :| (forall i :: 0 <= i < |index| ==> SlotFits(index[i])) && b == IndexBytes(index);
      WrittenIndexParses(index);
    }
    hide ParseIndex, IndexBytes;
  }

  /** The file ends in a footer with the magic number, whose index region lies inside the file. */
  predicate HasFooter(file: bytes) {
    && |file| >= 36 && file[|file| - 4..] == [0x31, 0x4D, 0x53, 0x4C]
    && FromLe(file[|file| - 36..|file| - 28]) + FromLe(file[|file| - 28..|file| - 20]) <= |file|
  }

  function IndexRegion(file: bytes): bytes
    requires HasFooter(file)
  {
    var start := FromLe(file[|file| - 36..|file| - 28]);
    file[start..start + FromLe(file[|file| - 28..|file| - 20])]
  }

  lemma MagicIff(b: bytes)
    requires |b| == 4
    ensures FromLe(b) == SST_MAGIC <==> b == [0x31, 0x4D, 0x53, 0x4C]
  {
    FromLe32(b[0], b[1], b[2], b[3]);
    assert b == [b[0], b[1], b[2], b[3]];
    if FromLe(b) == SST_MAGIC { MagicBytes(b); }
    hide FromLe;
  }

  /** Opening fails cleanly without a footer, slices out of range on an index that is none, and succeeds otherwise. */
  lemma OpensIff(file: bytes, id: nat)
    ensures Open(file, id) == Corrupt <==> !HasFooter(file)
    ensures Open(file, id) == Panic <==> HasFooter(file) && !IsIndex(IndexRegion(file))
    ensures Open(file, id).Ok? <==> HasFooter(file) && IsIndex(IndexRegion(file))
  {
    hide FromLe, ParseIndex, IsIndex;
    if |file| >= 36 {
      FooterSlices(file);
      MagicIff(file[|file| - 4..]);
      if HasFooter(file) { ParsesIff(IndexRegion(file)); }
    }
  }

  // ---- reading ----------------------------------------------------------------------------------

  lemma {:induction false} FoundIff(index: seq<IndexEntry>, k: bytes)
    ensures FindEntry(index, k) == None <==> forall i :: 0 <= i < |index| ==> index[i].key != k
    ensures FindEntry(index, k).Some? ==> FindEntry(index, k).value in index && FindEntry(index, k).value.key == k
  {
    if index != [] {
      FoundIff(index[1..], k);
      assert index == [index[0]] + index[1..];
      assert forall i :: 0 < i < |index| ==> index[i] == index[1..][i - 1];
      assert forall i :: 0 <= i < |index[1..]| ==> index[1..][i] == index[i + 1];
    }
  }

  /** The bytes a slot points at, if they lie inside the file, hold a record. */
  predicate SlotHolds(file: bytes, slot: IndexEntry, r: Record) {
    && slot.offset + slot.len <= |file|
    && Decode(file[slot.offset..slot.offset + slot.len]).Some?
    && Decode(file[slot.offset..slot.offset + slot.len]).value.0 == r
  }

  /** Get on any table: nothing when no slot has the key, what the slot points at, or an error when that is no record. */
  lemma GetsIff(t: SsTable, k: bytes)
    ensures Get(t, k) == Ok(None) <==> forall i :: 0 <= i < |t.index| ==> t.index[i].key != k
    ensures forall r :: Get(t, k) == Ok(Some(r)) ==> exists slot :: slot in t.index && slot.key == k && SlotHolds(t.file, slot, r)
    ensures Get(t, k) == Corrupt ==> exists slot :: slot in t.index && slot.key == k && forall r :: !SlotHolds(t.file, slot, r)
    ensures Get(t, k) != Panic
  {
    FoundIff(t.index, k);
    hide Decode, FindEntry;
    if FindEntry(t.index, k).Some? {
      var slot := FindEntry(t.index, k).value;
      assert slot in t.index && slot.key == k;
      if Get(t, k) == Corrupt {
        forall r
          ensures !SlotHolds(t.file, slot, r)
        {
        }
      }
    }
  }

  /** Each piece decodes, whole, to its record. */
  predicate DecodeTo(pieces: seq<bytes>, rs: seq<Record>) {
    |pieces| == |rs| && forall i :: 0 <= i < |rs| ==> Decode(pieces[i]) == Some((rs[i], |pieces[i]|))
  }

  /** The data falls into pieces that decode, whole, to these records. */
  ghost predicate Holds(data: bytes, rs: seq<Record>) {
    exists pieces :: DecodeTo(pieces, rs) && Concat(pieces) == data
  }

  lemma FirstDecodes(piece: bytes, rest: bytes, r: Record, rs: seq<Record>)
    requires Decode(piece + rest) == Some((r, |piece|)) && DecodeAll(rest) == Some(rs)
    ensures DecodeAll(piece + rest) == Some([r] + rs)
  {
    assert (piece + rest)[|piece|..] == rest;
    hide Decode;
  }

  lemma {:induction false} PiecesDecode(pieces: seq<bytes>, rs: seq<Record>)
    requires DecodeTo(pieces, rs)
    ensures DecodeAll(Concat(pieces)) == Some(rs)
    decreases |rs|
  {
    assert DecodeAll([]) == Some([]);
    assert rs != [] ==> DecodeTo(pieces[1..], rs[1..]) && Decode(pieces[0]) == Some((rs[0], |pieces[0]|));
    hide Decode, DecodeAll, DecodeTo;
    if rs != [] {
      var rest := Concat(pieces[1..]);
      DecodeIgnoresTail(pieces[0], rest);
      PiecesDecode(pieces[1..], rs[1..]);
      FirstDecodes(pieces[0], rest, rs[0], rs[1..]);
      assert rs == [rs[0]] + rs[1..];
    }
  }

  lemma DecodeOwnBytes(data: bytes)
    requires Decode(data).Some?
    ensures var n := Decode(data).value.1; n <= |data| && Decode(data[..n]) == Decode(data)
  {
    var n := Decode(data).value.1;
    var k := 13 + FromLe(data[9..13]);
    hide FromLe;
    var own := data[..n];
    assert own[..8] == data[..8] && own[9..13] == data[9..13] && own[13..k] == data[13..k];
    assert own[k..k + 4] == data[k..k + 4] && own[k + 4..n] == data[k + 4..n];
  }

  lemma {:induction false} DecodedPieces(data: bytes) returns (pieces: seq<bytes>)
    requires DecodeAll(data).Some?
    ensures DecodeTo(pieces, DecodeAll(data).value) && Concat(pieces) == data
    decreases |data|
  {
    if data == [] {
      pieces := [];
    } else {
      var n := Decode(data).value.1;
      DecodeOwnBytes(data);
      hide Decode;
      assert data == data[..n] + data[n..];
      assert DecodeAll(data).value == [Decode(data).value.0] + DecodeAll(data[n..]).value;
      var rest := DecodedPieces(data[n..]);
      hide DecodeAll;
      pieces := [data[..n]] + rest;
      assert pieces[1..] == rest;
    }
  }

  /** Iterating a table gives records exactly when the data region falls into them, and an error otherwise. */
  lemma IteratesIff(t: SsTable, rs: seq<Record>)
    ensures Iter(t) == Ok(rs) <==> t.dataLen <= |t.file| && Holds(t.file[..t.dataLen], rs)
    ensures Iter(t).Ok? || Iter(t) == Corrupt
  {
    hide Decode, DecodeAll;
    if t.dataLen <= |t.file| {
      var data := t.file[..t.dataLen];
      assert t.file[0..t.dataLen] == data;
      if DecodeAll(data) == Some(rs) { var pieces := DecodedPieces(data); }
      if Holds(data, rs) {
        var pieces :| DecodeTo(pieces, rs) && Concat(pieces) == data;
        PiecesDecode(pieces, rs);
      }
    }
  }

  // ---- the directory --------------------------------------------------------------------------------

  lemma {:induction false} AllOpenIff(ssts: map<nat, bytes>, ids: seq<nat>)
    requires forall i :: 0 <= i < |ids| ==> ids[i] in ssts
    ensures OpenTables(ssts, ids).Ok? <==> forall i :: 0 <= i < |ids| ==> Open(ssts[ids[i]], ids[i]).Ok?
    ensures OpenTables(ssts, ids) == Panic ==> exists i :: 0 <= i < |ids| && Open(ssts[ids[i]], ids[i]) == Panic
  {
    hide Open;
    if ids != [] {
      AllOpenIff(ssts, ids[1..]);
      assert forall i :: 0 <= i < |ids[1..]| ==> ids[1..][i] == ids[i + 1];
      assert forall i :: 0 < i < |ids| ==> ids[i] == ids[1..][i - 1];
      if OpenTables(ssts, ids[1..]) == Panic {
        var i :| 0 <= i < |ids[1..]| && Open(ssts[ids[1..][i]], ids[1..][i]) == Panic;
        assert Open(ssts[ids[i + 1]], ids[i + 1]) == Panic;
      }
    }
  }

  /** The store opens on a directory of any bytes exactly when every table file in it opens, whatever the log holds. */
  lemma StoreOpensIff(c: Image)
    ensures Recover(c).Ok? <==> forall id :: id in c.ssts ==> Open(c.ssts[id], id).Ok?
    ensures Recover(c) == Panic ==> exists id :: id in c.ssts && Open(c.ssts[id], id) == Panic
  {
    hide Open, OpenTables, Replay, MaxSeq, MaxTableSeq;
    DescendingMembers(c.ssts.Keys);
    var ids := Descending(c.ssts.Keys);
    AllOpenIff(c.ssts, ids);
    forall id | id in c.ssts
      ensures exists i :: 0 <= i < |ids| && ids[i] == id
    {
      assert id in ids;
    }
  }
}
