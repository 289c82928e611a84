/**
 The record codec of 10-database-internals/src/encoding.rs:
 [seq u64][kind u8][klen u32][key][vlen u32][value], little-endian.
 */
module Encoding {
  import opened Bytes

  datatype ValueKind = Put(bytes: bytes) | Delete

  datatype Record = Record(seqno: nat, key: bytes, value: ValueKind)

  const KIND_PUT: byte := 0
  const KIND_DELETE: byte := 1

  function Kind(v: ValueKind): byte {
    match v
    case Put(_) => KIND_PUT
    case Delete => KIND_DELETE
  }

  function Payload(v: ValueKind): bytes {
    match v
    case Put(b) => b
    case Delete => []
  }

  /** The wire image of a record's fields; a length wider than u32 is cut by the `as u32` cast. */
  function Image(seqno: nat, kind: byte, key: bytes, value: bytes): bytes {
    Le64(seqno) + [kind] + Le32(|key|) + key + Le32(|value|) + value
  }

  function Encode(r: Record): bytes {
    Image(r.seqno, Kind(r.value), r.key, Payload(r.value))
  }

  /** Every field of the record is within its width on the wire. */
  predicate Fits(r: Record) {
    r.seqno < U64_LIMIT && |r.key| < U32_LIMIT && |Payload(r.value)| < U32_LIMIT
  }

  /** The record at the front of buf and the bytes it takes, or None for a short or foreign buffer. */
  function Decode(buf: bytes): (r: Option<(Record, nat)>)
    ensures r.Some? ==> 17 <= r.value.1 <= |buf|
  {
    if |buf| < 13 then None else
    var seqno, kind, klen := FromLe(buf[..8]), buf[8], FromLe(buf[9..13]);
    var k := 13 + klen;
    if |buf| < k + 4 then None else
    var vlen := FromLe(buf[k..k + 4]);
    var end := k + 4 + vlen;
    if |buf| < end then None
    else if kind == KIND_PUT then Some((Record(seqno, buf[13..k], Put(buf[k + 4..end])), end))
    else if kind == KIND_DELETE then Some((Record(seqno, buf[13..k], Delete), end))
    else None
  }

  // ---- the code ----------------------------------------------------------------

  method EncodeRecord(r: Record) returns (buf: bytes)
    ensures buf == Encode(r)
  {
    var kind, value := KIND_DELETE, [];
    match r.value {
      case Put(b) => kind, value := KIND_PUT, b;
      case Delete =>
    }
    buf := Le64(r.seqno);
    buf := buf + [kind];
    buf := buf + Le32(|r.key|);
    buf := buf + r.key;
    buf := buf + Le32(|value|);
    buf := buf + value;
  }

  method DecodeRecord(buf: bytes) returns (result: Option<(Record, nat)>)
    ensures result == Decode(buf)
  {
    var pos := 0;
    if |buf| < pos + 8 { return None; }
    var seqno := FromLe(buf[pos..pos + 8]);
    pos := pos + 8;
    if |buf| <= pos { return None; }
    var kind := buf[pos];
    pos := pos + 1;
    if |buf| < pos + 4 { return None; }
    var klen := FromLe(buf[pos..pos + 4]);
    pos := pos + 4;
    if |buf| < pos + klen { return None; }
    var key := buf[pos..pos + klen];
    pos := pos + klen;
    if |buf| < pos + 4 { return None; }
    var vlen := FromLe(buf[pos..pos + 4]);
    pos := pos + 4;
    if |buf| < pos + vlen { return None; }
    var valueBytes := buf[pos..pos + vlen];
    pos := pos + vlen;
    if kind == KIND_PUT {
      return Some((Record(seqno, key, Put(valueBytes)), pos));
    } else if kind == KIND_DELETE {
      return Some((Record(seqno, key, Delete), pos));
    } else {
      return None;
    }
  }

  // ---- what the codec promises ---------------------------------------------------

  /** What decoding makes of a wire image whose lengths were not cut, whatever follows it. */
  lemma DecodeImage(seqno: nat, kind: byte, key: bytes, value: bytes, tail: bytes)
    requires seqno < U64_LIMIT && |key| < U32_LIMIT && |value| < U32_LIMIT
    requires kind == KIND_PUT || kind == KIND_DELETE
    ensures Decode(Image(seqno, kind, key, value) + tail) ==
            Some((Record(seqno, key, if kind == KIND_PUT then Put(value) else Delete), 17 + |key| + |value|))
  {
    hide Le32, Le64, FromLe;
    var buf := Image(seqno, kind, key, value) + tail;
    LeFields(seqno);
    LeFields(|key|);
    LeFields(|value|);
    var k := 13 + |key|;
    assert buf[..8] == Le64(seqno);
    assert buf[8] == kind;
    assert buf[9..13] == Le32(|key|);
    assert buf[13..k] == key;
    assert buf[k..k + 4] == Le32(|value|);
    assert buf[k + 4..k + 4 + |value|] == value;
  }

  /** decode(encode(r)) returns r and its exact length, with any bytes behind it. */
  lemma RoundTrip(r: Record, tail: bytes)
    requires Fits(r)
    ensures Decode(Encode(r) + tail) == Some((r, |Encode(r)|))
  {
    hide Decode, Le32, Le64;
    DecodeImage(r.seqno, Kind(r.value), r.key, Payload(r.value), tail);
  }

  /** The codec is lossless exactly on the records whose lengths fit the u32 fields. */
  lemma RoundTripIff(r: Record)
    requires r.seqno < U64_LIMIT
    ensures Decode(Encode(r)) == Some((r, |Encode(r)|)) <==> |r.key| < U32_LIMIT && |Payload(r.value)| < U32_LIMIT
  {
    hide Le32, Le64, FromLe;
    var buf := Encode(r);
    assert buf + [] == buf;
    if |r.key| < U32_LIMIT && |Payload(r.value)| < U32_LIMIT {
      RoundTrip(r, []);
    } else if |r.key| >= U32_LIMIT {
      assert buf[9..13] == Le32(|r.key|);
      FromLeRange(buf[9..13]);
    } else if Decode(buf).Some? {
      var k := 13 + |r.key|;
      LeFields(|r.key|);
      assert buf[9..13] == Le32(|r.key|);
      assert buf[k..k + 4] == Le32(|Payload(r.value)|);
      FromLeRange(buf[k..k + 4]);
    }
  }

  /** Bytes appended behind a complete record never change what is decoded. */
  lemma DecodeIgnoresTail(buf: bytes, tail: bytes)
    requires Decode(buf).Some?
    ensures Decode(buf + tail) == Decode(buf)
  {
    var k := 13 + FromLe(buf[9..13]);
    assert (buf + tail)[..8] == buf[..8] && (buf + tail)[9..13] == buf[9..13];
    assert (buf + tail)[k..k + 4] == buf[k..k + 4] && (buf + tail)[13..k] == buf[13..k];
    var end := k + 4 + FromLe(buf[k..k + 4]);
    assert (buf + tail)[k + 4..end] == buf[k + 4..end];
  }

  /** A record cut anywhere short of its end is a clean None. */
  lemma DecodeRejectsShortTail(r: Record, n: nat)
    requires Fits(r) && n < |Encode(r)|
    ensures Decode(Encode(r)[..n]) == None
  {
    hide Encode, Decode, Fits;
    var buf, cut := Encode(r), Encode(r)[..n];
    if Decode(cut).Some? {
      DecodeIgnoresTail(cut, buf[n..]);
      assert cut + buf[n..] == buf == buf + [];
      RoundTrip(r, []);
    }
  }

  lemma DecodeFits(buf: bytes, r: Record, n: nat)
    requires Decode(buf) == Some((r, n))
    ensures Fits(r)
  {
    var k := 13 + FromLe(buf[9..13]);
    FromLeRange(buf[..8]);
    FromLeRange(buf[9..13]);
    FromLeRange(buf[k..k + 4]);
  }

  lemma PutFields(buf: bytes, r: Record, n: nat)
    requires Decode(buf) == Some((r, n)) && r.value.Put?
    ensures n == 17 + |r.key| + |r.value.bytes| <= |buf|
    ensures buf[8] == KIND_PUT && r.key == buf[13..13 + |r.key|] && r.value.bytes == buf[17 + |r.key|..n]
    ensures r.seqno == FromLe(buf[..8]) && |r.key| == FromLe(buf[9..13])
    ensures |r.value.bytes| == FromLe(buf[13 + |r.key|..17 + |r.key|])
  {
  }

  /** Whatever decodes as a put is exactly that put's encoding: the format is canonical. */
  lemma DecodeIsCanonical(buf: bytes, r: Record, n: nat)
    requires Decode(buf) == Some((r, n)) && r.value.Put?
    ensures Encode(r) == buf[..n]
  {
    PutFields(buf, r, n);
    var k := 13 + |r.key|;
    LeFieldsInverse(buf[..8]);
    LeFieldsInverse(buf[9..13]);
    LeFieldsInverse(buf[k..k + 4]);
    assert buf[..n] == buf[..8] + [buf[8]] + buf[9..13] + buf[13..k] + buf[k..k + 4] + buf[k + 4..n];
  }

  /** Where every field of a written record stands; kind 0 is a put and 1 a tombstone without value. */
  lemma RecordLayout(r: Record)
    requires Fits(r)
    ensures var b, v := Encode(r), match r.value case Put(bytes) => bytes case Delete => [];
      && |b| == 17 + |r.key| + |v|
      && FromLe(b[0..8]) == r.seqno && b[8] == (if r.value.Put? then 0 else 1)
      && FromLe(b[9..13]) == |r.key| && b[13..13 + |r.key|] == r.key
      && FromLe(b[13 + |r.key|..17 + |r.key|]) == |v| && b[17 + |r.key|..] == v
  {
    hide Le32, Le64, FromLe;
    LeFields(r.seqno);
    LeFields(|r.key|);
    LeFields(|Payload(r.value)|);
    var b, k := Encode(r), 13 + |r.key|;
    assert b[0..8] == Le64(r.seqno) && b[9..13] == Le32(|r.key|) && b[13..k] == r.key;
    assert b[k..k + 4] == Le32(|Payload(r.value)|) && b[k + 4..] == Payload(r.value);
  }

  /** A buffer of another kind is no record. */
  lemma ForeignKind(buf: bytes)
    requires |buf| > 8 && buf[8] != 0 && buf[8] != 1
    ensures Decode(buf) == None
  {
  }
}
