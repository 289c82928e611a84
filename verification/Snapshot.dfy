/**
 The snapshot file of 07-systems-programming/src/persistence.rs: magic, then one
 [klen u32][key][vlen u32][value][expires_at u64] record per live key, 0 meaning no expiry.
 */
module Snapshots {
  import opened Bytes
  import opened Keyspace

  const MAGIC: bytes := [82, 85, 68, 73, 83, 68, 66, 49]

  datatype LoadStatus = Loaded | BadMagic | Truncated

  // ---- writing ---------------------------------------------------------------------------

  /** snapshot_iter's expires_at: 0 stands for "never". */
  function Marker(e: Entry): nat {
    if e.expiresAt.Some? then e.expiresAt.value else 0
  }

  function RecordBytes(key: bytes, e: Entry): bytes {
    Le32(|key|) + key + Le32(|e.value|) + e.value + Le64(Marker(e))
  }

  predicate Listed(v: Keys, order: seq<bytes>) {
    forall i :: 0 <= i < |order| ==> order[i] in v
  }

  /** The records of the listed keys, in that order. */
  function Records(v: Keys, order: seq<bytes>): bytes
    requires Listed(v, order)
  {
    if order == [] then [] else RecordBytes(order[0], v[order[0]]) + Records(v, order[1..])
  }

  /** order is some iteration order of the map's keys. */
  ghost predicate IterationOrder(v: Keys, order: seq<bytes>) {
    && (forall k :: k in order <==> k in v)
    && (forall i, j :: 0 <= i < j < |order| ==> order[i] != order[j])
  }

  lemma OrderIsListed(v: Keys, order: seq<bytes>)
    requires IterationOrder(v, order)
    ensures Listed(v, order)
  {
    forall i | 0 <= i < |order|
      ensures order[i] in v
    {
      assert order[i] in order;
    }
  }

  function SaveImage(m: Keys, order: seq<bytes>, now: nat): bytes
    requires IterationOrder(Live(m, now), order)
  {
    assert Listed(Live(m, now), order) by { OrderIsListed(Live(m, now), order); }
    MAGIC + Records(Live(m, now), order)
  }

  method AppendRecord(buf: bytes, key: bytes, e: Entry) returns (out: bytes)
    ensures out == buf + RecordBytes(key, e)
  {
    hide Le32, Le64;
    out := buf + Le32(|key|);
    out := out + key;
    out := out + Le32(|e.value|);
    out := out + e.value;
    out := out + Le64(Marker(e));
  }

  method Save(m: Keys, order: seq<bytes>, now: nat) returns (buf: bytes)
    requires IterationOrder(Live(m, now), order)
    ensures buf == SaveImage(m, order, now)
  {
    hide RecordBytes, Live;
    var v := Live(m, now);
    OrderIsListed(v, order);
    buf := MAGIC;
    assert order[0..] == order;
    for i := 0 to |order|
      invariant buf + Records(v, order[i..]) == SaveImage(m, order, now)
    {
      assert order[i..][1..] == order[i + 1..];
      buf := AppendRecord(buf, order[i], v[order[i]]);
    }
  }

  // ---- reading ---------------------------------------------------------------------------

  /** bytes.get(off..off + len): None instead of a read past the end. */
  function GetBytes(b: bytes, off: nat, len: nat): Option<bytes> {
    if off + len <= |b| then Some(b[off..off + len]) else None
  }

  function GetInt(b: bytes, off: nat, width: nat): Option<nat> {
    match GetBytes(b, off, width)
    case Some(field) => Some(FromLe(field))
    case None => None
  }

  datatype Raw = Raw(key: bytes, value: bytes, expiresAt: nat, used: nat)

  /** The record at off, or None if the file ends inside it. */
  function ReadRecord(b: bytes, off: nat): (r: Option<Raw>)
    ensures r.Some? ==> 0 < r.value.used && off + r.value.used <= |b|
  {
    match GetInt(b, off, 4)
    case None => None
    case Some(keyLen) =>
      match (GetBytes(b, off + 4, keyLen), GetInt(b, off + 4 + keyLen, 4))
      case (Some(key), Some(valLen)) =>
        (var v := off + 8 + keyLen;
         match (GetBytes(b, v, valLen), GetInt(b, v + valLen, 8))
         case (Some(value), Some(t)) => Some(Raw(key, value, t, 16 + keyLen + valLen))
         case _ => None)
      case _ => None
  }

  /** Store::load_entry: entries already dead are skipped. */
  function LoadEntry(m: Keys, raw: Raw, now: nat): Keys {
    var expiresAt := if raw.expiresAt == 0 then None else Some(raw.expiresAt);
    if expiresAt.Some? && now >= expiresAt.value then m else m[raw.key := Entry(raw.value, expiresAt)]
  }

  function LoadRecords(m: Keys, b: bytes, off: nat, now: nat): (Keys, LoadStatus)
    requires off <= |b|
    decreases |b| - off
  {
    if off == |b| then (m, Loaded)
    else match ReadRecord(b, off)
      case None => (m, Truncated)
      case Some(raw) => LoadRecords(LoadEntry(m, raw, now), b, off + raw.used, now)
  }

  function Load(m: Keys, file: bytes, now: nat): (Keys, LoadStatus) {
    if |file| < 8 || file[..8] != MAGIC then (m, BadMagic) else LoadRecords(m, file, 8, now)
  }

  method LoadInto(store: Store, file: bytes, now: nat) returns (status: LoadStatus)
    modifies store`entries
    ensures (store.entries, status) == Load(old(store.entries), file, now)
  {
    hide ReadRecord, LoadEntry;
    if |file| < 8 || file[..8] != MAGIC { return BadMagic; }
    var off := 8;
    while off < |file|
      invariant 8 <= off <= |file|
      invariant LoadRecords(store.entries, file, off, now) == LoadRecords(old(store.entries), file, 8, now)
    {
      var raw := ReadRecord(file, off);
      if raw.None? { return Truncated; }
      store.entries := LoadEntry(store.entries, raw.value, now);
      off := off + raw.value.used;
    }
    return Loaded;
  }

  // ---- what the format promises -------------------------------------------------------------

  /** Lengths and deadlines fit their fields. */
  predicate Storable(v: Keys) {
    forall k :: k in v ==> |k| < U32_LIMIT && |v[k].value| < U32_LIMIT && Marker(v[k]) < U64_LIMIT
  }

  lemma RecordLength(key: bytes, e: Entry)
    ensures |RecordBytes(key, e)| == 16 + |key| + |e.value|
  {
  }

  /** The bytes of part stand in the file at off. */
  predicate At(file: bytes, off: nat, part: bytes) {
    off + |part| <= |file| && file[off..off + |part|] == part
  }

  lemma AtSplit(file: bytes, off: nat, a: bytes, b: bytes)
    requires At(file, off, a + b)
    ensures At(file, off, a) && At(file, off + |a|, b)
  {
    assert (a + b)[..|a|] == a && (a + b)[|a|..] == b;
    assert file[off..off + |a|] == file[off..off + |a + b|][..|a|];
    assert file[off + |a|..off + |a + b|] == file[off..off + |a + b|][|a|..];
  }

  lemma RecordFields(file: bytes, off: nat, key: bytes, e: Entry)
    requires At(file, off, RecordBytes(key, e))
    ensures var v := off + 8 + |key|;
            && At(file, off, Le32(|key|)) && At(file, off + 4, key) && At(file, v - 4, Le32(|e.value|))
            && At(file, v, e.value) && At(file, v + |e.value|, Le64(Marker(e)))
  {
    hide Le32, Le64, At;
    var a, b, c, d, t := Le32(|key|), key, Le32(|e.value|), e.value, Le64(Marker(e));
    AtSplit(file, off, a + b + c + d, t);
    AtSplit(file, off, a + b + c, d);
    AtSplit(file, off, a + b, c);
    AtSplit(file, off, a, b);
  }

  lemma ReadWritten(file: bytes, off: nat, key: bytes, e: Entry)
    requires |key| < U32_LIMIT && |e.value| < U32_LIMIT && Marker(e) < U64_LIMIT
    requires At(file, off, RecordBytes(key, e))
    ensures ReadRecord(file, off) == Some(Raw(key, e.value, Marker(e), |RecordBytes(key, e)|))
  {
    hide Le32, Le64, FromLe;
    LeFields(|key|);
    LeFields(|e.value|);
    LeFields(Marker(e));
    RecordFields(file, off, key, e);
  }

  /** A record cut short at the end of the file is never read. */
  lemma ReadCut(front: bytes, key: bytes, e: Entry, n: nat)
    requires |key| < U32_LIMIT && |e.value| < U32_LIMIT && n < |RecordBytes(key, e)|
    ensures ReadRecord(front + RecordBytes(key, e)[..n], |front|) == None
  {
    hide Le32, Le64, FromLe;
    LeFields(|key|);
    LeFields(|e.value|);
    RecordLengths(key, e);
    var r := RecordBytes(key, e);
    hide RecordBytes;
    if n >= 4 { FieldOfPrefix(front, r, n, 0, 4); }
    if n >= 8 + |key| { FieldOfPrefix(front, r, n, 4 + |key|, 8 + |key|); }
  }

  /** The two length fields of a record. */
  lemma RecordLengths(key: bytes, e: Entry)
    ensures var r := RecordBytes(key, e);
      && |r| == 16 + |key| + |e.value|
      && r[0..4] == Le32(|key|) && r[4 + |key|..8 + |key|] == Le32(|e.value|)
  {
    hide Le32, Le64;
  }

  lemma FieldOfPrefix(front: bytes, r: bytes, n: nat, i: nat, j: nat)
    requires i <= j <= n <= |r|
    ensures (front + r[..n])[|front| + i..|front| + j] == r[i..j]
  {
    var b := front + r[..n];
    forall k | 0 <= k < j - i ensures b[|front| + i..|front| + j][k] == r[i..j][k] {
      assert b[|front| + i + k] == r[..n][i + k] == r[i + k];
    }
  }

  /** A live entry's marker is never mistaken for "no expiry": a zero deadline is already dead. */
  lemma MarkerIsUnambiguous(e: Entry, now: nat)
    requires !Expired(e, now)
    ensures e.expiresAt == if Marker(e) == 0 then None else Some(Marker(e))
  {
  }

  /** The map after loading the first entries of an iteration order. */
  function Restored(v: Keys, order: seq<bytes>, now: nat): Keys {
    map k | k in v && k in order && !Expired(v[k], now) :: v[k]
  }

  lemma RestoredHead(v: Keys, todo: seq<bytes>, now: nat)
    requires todo != [] && todo[0] in v
    ensures var (k, rest) := (todo[0], Restored(v, todo[1..], now));
      && Restored(v, todo, now) == (if Expired(v[k], now) then rest else rest[k := v[k]])
      && (k in rest ==> rest[k] == v[k])
  {
    hide Expired;
    assert todo == [todo[0]] + todo[1..];
  }

  lemma Overlay(m: Keys, k: bytes, e: Entry, rest: Keys)
    requires k in rest ==> rest[k] == e
    ensures m[k := e] + rest == m + rest[k := e]
  {
  }

  lemma RestoredStep(m: Keys, v: Keys, todo: seq<bytes>, saved: nat, now: nat, used: nat)
    requires todo != [] && todo[0] in v && !Expired(v[todo[0]], saved)
    ensures var k := todo[0];
            LoadEntry(m, Raw(k, v[k].value, Marker(v[k]), used), now) + Restored(v, todo[1..], now) == m + Restored(v, todo, now)
  {
    var k, more := todo[0], todo[1..];
    MarkerIsUnambiguous(v[k], saved);
    RestoredHead(v, todo, now);
    hide Restored;
    if !Expired(v[k], now) { Overlay(m, k, v[k], Restored(v, more, now)); }
  }

  lemma {:induction false} RecordsConcat(v: Keys, a: seq<bytes>, b: seq<bytes>)
    requires Listed(v, a) && Listed(v, b)
    ensures Listed(v, a + b) && Records(v, a + b) == Records(v, a) + Records(v, b)
  {
    hide RecordBytes;
    if a == [] {
      assert a + b == b;
    } else {
      var first := RecordBytes(a[0], v[a[0]]);
      assert (a + b)[1..] == a[1..] + b && (a + b)[0] == a[0];
      RecordsConcat(v, a[1..], b);
      assert first + (Records(v, a[1..]) + Records(v, b)) == first + Records(v, a[1..]) + Records(v, b);
    }
  }

  predicate AllLive(v: Keys, saved: nat) {
    forall k :: k in v ==> !Expired(v[k], saved)
  }

  lemma ListedHead(v: Keys, order: seq<bytes>, saved: nat)
    requires Listed(v, order) && AllLive(v, saved) && order != []
    ensures Listed(v, order[1..]) && order[0] in v && !Expired(v[order[0]], saved)
  {
  }

  lemma LoadOne(m: Keys, v: Keys, k: bytes, now: nat, file: bytes, off: nat)
    requires Storable(v) && k in v && At(file, off, RecordBytes(k, v[k]))
    ensures var r := RecordBytes(k, v[k]);
            LoadRecords(m, file, off, now) ==
            LoadRecords(LoadEntry(m, Raw(k, v[k].value, Marker(v[k]), |r|), now), file, off + |r|, now)
  {
    hide Restored, LoadEntry, ReadRecord, RecordBytes, Storable;
    StorableAt(v, k);
    RecordLength(k, v[k]);
    ReadWritten(file, off, k, v[k]);
  }

  /** Loading walks over complete records, restoring their entries, and goes on from there. */
  lemma {:induction false} LoadOver(m: Keys, v: Keys, todo: seq<bytes>, saved: nat, now: nat, file: bytes, off: nat)
    requires Storable(v) && AllLive(v, saved) && Listed(v, todo)
    requires At(file, off, Records(v, todo))
    ensures LoadRecords(m, file, off, now) == LoadRecords(m + Restored(v, todo, now), file, off + |Records(v, todo)|, now)
    decreases |todo|
  {
    hide Restored, LoadRecords, RecordBytes, Storable, Expired, At, AllLive, Listed, LoadEntry;
    if todo == [] {
      RestoredNothing(v, now);
      EmptyOverlay(m);
    } else {
      ListedHead(v, todo, saved);
      var k, more := todo[0], todo[1..];
      var r, others := RecordBytes(k, v[k]), Records(v, more);
      RestoredStep(m, v, todo, saved, now, |r|);
      AtSplit(file, off, r, others);
      LoadOne(m, v, k, now, file, off);
      LoadOver(LoadEntry(m, Raw(k, v[k].value, Marker(v[k]), |r|), now), v, more, saved, now, file, off + |r|);
    }
  }

  lemma StorableAt(v: Keys, k: bytes)
    requires Storable(v) && k in v
    ensures |k| < U32_LIMIT && |v[k].value| < U32_LIMIT && Marker(v[k]) < U64_LIMIT
  {
  }

  lemma LiveIsNotExpired(m: Keys, saved: nat)
    ensures AllLive(Live(m, saved), saved)
  {
  }

  lemma RestoredAll(m: Keys, order: seq<bytes>, saved: nat, now: nat)
    requires IterationOrder(Live(m, saved), order) && saved <= now
    ensures Restored(Live(m, saved), order, now) == Live(m, now)
  {
  }

  /**
   Saving at one time in any map iteration order and loading later into an empty store
   gives exactly the entries still live, deadlines included.
   */
  lemma SnapshotRoundTrip(m: Keys, order: seq<bytes>, saved: nat, now: nat)
    requires IterationOrder(Live(m, saved), order) && Storable(Live(m, saved)) && saved <= now
    ensures Load(map[], SaveImage(m, order, saved), now) == (Live(m, now), Loaded)
  {
    OrderIsListed(Live(m, saved), order);
    LiveIsNotExpired(m, saved);
    RestoredAll(m, order, saved, now);
    hide Live, Load, Restored, Storable, AllLive, Listed, IterationOrder, Records;
    LoadImage(Live(m, saved), order, saved, now);
  }

  lemma LoadImage(v: Keys, order: seq<bytes>, saved: nat, now: nat)
    requires Storable(v) && AllLive(v, saved) && Listed(v, order)
    ensures Load(map[], MAGIC + Records(v, order), now) == (Restored(v, order, now), Loaded)
  {
    hide Restored, Storable, AllLive, Listed, LoadRecords, Records, Expired;
    var file := MAGIC + Records(v, order);
    BehindMagic(Records(v, order));
    LoadOver(map[], v, order, saved, now, file, 8);
    EmptyOverlay(Restored(v, order, now));
    LoadEnd(Restored(v, order, now), file, now);
  }

  lemma LoadEnd(m: Keys, file: bytes, now: nat)
    ensures LoadRecords(m, file, |file|, now) == (m, Loaded)
  {
  }

  lemma LoadSkipsMagic(records: bytes, now: nat)
    ensures |MAGIC + records| >= 8 && Load(map[], MAGIC + records, now) == LoadRecords(map[], MAGIC + records, 8, now)
  {
    hide LoadRecords;
    assert (MAGIC + records)[..8] == MAGIC;
  }

  lemma BehindMagic(records: bytes)
    ensures var file := MAGIC + records;
            |file| == 8 + |records| && file[..8] == MAGIC && At(file, 8, records)
  {
  }

  lemma RestoredNothing(v: Keys, now: nat)
    ensures Restored(v, [], now) == map[]
  {
  }

  lemma EmptyOverlay(m: Keys)
    ensures map[] + m == m && m + map[] == m
  {
  }

  /** The first j records of a snapshot and the first n bytes of the next one. */
  function CutImage(v: Keys, order: seq<bytes>, j: nat, n: nat): bytes
    requires Listed(v, order) && j < |order| && n <= |RecordBytes(order[j], v[order[j]])|
  {
    MAGIC + (Records(v, order[..j]) + RecordBytes(order[j], v[order[j]])[..n])
  }

  lemma CutIsPrefix(v: Keys, order: seq<bytes>, j: nat, n: nat)
    requires Listed(v, order) && j < |order| && n <= |RecordBytes(order[j], v[order[j]])|
    ensures CutImage(v, order, j, n) <= MAGIC + Records(v, order)
  {
    hide RecordBytes;
    var r := RecordBytes(order[j], v[order[j]]);
    assert order == order[..j] + order[j..];
    RecordsConcat(v, order[..j], order[j..]);
    var a, b := Records(v, order[..j]), Records(v, order[j..][1..]);
    assert Records(v, order[j..]) == r + b;
    assert MAGIC + Records(v, order) == CutImage(v, order, j, n) + (r[n..] + b);
  }

  /**
   A snapshot cut n bytes into its j-th record: the j complete records are loaded, and the
   file is rejected exactly when the cut is not between two records.
   */
  lemma CutSnapshot(m: Keys, order: seq<bytes>, saved: nat, now: nat, j: nat, n: nat)
    requires IterationOrder(Live(m, saved), order) && Storable(Live(m, saved)) && Listed(Live(m, saved), order)
    requires j < |order| && n < |RecordBytes(order[j], Live(m, saved)[order[j]])|
    ensures var v := Live(m, saved);
            && CutImage(v, order, j, n) <= SaveImage(m, order, saved)
            && Load(map[], CutImage(v, order, j, n), now) ==
               (Restored(v, order[..j], now), if n == 0 then Loaded else Truncated)
  {
    var v := Live(m, saved);
    LiveIsNotExpired(m, saved);
    CutIsPrefix(v, order, j, n);
    hide Live, Restored, Storable, AllLive, IterationOrder, LoadRecords, RecordBytes, Records, Listed, CutImage;
    LoadCut(v, order, saved, now, j, n);
  }

  lemma LoadCut(v: Keys, order: seq<bytes>, saved: nat, now: nat, j: nat, n: nat)
    requires Storable(v) && AllLive(v, saved) && Listed(v, order)
    requires j < |order| && n < |RecordBytes(order[j], v[order[j]])|
    ensures Load(map[], CutImage(v, order, j, n), now) ==
            (Restored(v, order[..j], now), if n == 0 then Loaded else Truncated)
  {
    assert Listed(v, order[..j]);
    hide Restored, Storable, AllLive, LoadRecords, RecordBytes, Records, Listed, Load;
    LoadUpTo(v, order[..j], order[j], saved, now, n);
  }

  /** The complete records are restored, then the cut one ends the load. */
  lemma LoadUpTo(v: Keys, whole: seq<bytes>, k: bytes, saved: nat, now: nat, n: nat)
    requires Storable(v) && AllLive(v, saved) && Listed(v, whole) && k in v && n < |RecordBytes(k, v[k])|
    ensures Load(map[], MAGIC + (Records(v, whole) + RecordBytes(k, v[k])[..n]), now) ==
            (Restored(v, whole, now), if n == 0 then Loaded else Truncated)
  {
    StorableAt(v, k);
    hide Restored, Storable, AllLive, LoadRecords, RecordBytes, Records, Listed, Expired, At, Load;
    var records, rest := Records(v, whole), RecordBytes(k, v[k])[..n];
    var file := MAGIC + (records + rest);
    assert |records + rest| == |records| + n;
    LoadSkipsMagic(records + rest, now);
    BehindMagic(records + rest);
    AtSplit(file, 8, records, rest);
    LoadOver(map[], v, whole, saved, now, file, 8);
    EmptyOverlay(Restored(v, whole, now));
    CutEnd(Restored(v, whole, now), file, 8 + |records|, k, v[k], n, now);
  }

  lemma CutEnd(m: Keys, file: bytes, off: nat, k: bytes, e: Entry, n: nat, now: nat)
    requires |k| < U32_LIMIT && |e.value| < U32_LIMIT && n < |RecordBytes(k, e)|
    requires |file| == off + n && At(file, off, RecordBytes(k, e)[..n])
    ensures LoadRecords(m, file, off, now) == (m, if n == 0 then Loaded else Truncated)
  {
    hide RecordBytes, ReadRecord;
    assert file == file[..off] + RecordBytes(k, e)[..n];
    if n > 0 { ReadCut(file[..off], k, e, n); }
  }

  /** A file is read only if it starts with "RUDISDB1"; otherwise the store stays as it was. */
  lemma MagicIsNeeded(m: Keys, file: bytes, now: nat)
    ensures Load(m, file, now).1 == BadMagic <==> !([82, 85, 68, 73, 83, 68, 66, 49] <= file)
    ensures Load(m, file, now).1 == BadMagic ==> Load(m, file, now).0 == m
  {
    NeverBadMagic(m, file, 8, now);
    hide LoadRecords;
  }

  lemma {:induction false} NeverBadMagic(m: Keys, b: bytes, off: nat, now: nat)
    ensures off <= |b| ==> LoadRecords(m, b, off, now).1 != BadMagic
    decreases |b| - off
  {
    if off < |b| {
      hide ReadRecord, LoadEntry;
      match ReadRecord(b, off)
      case None =>
      case Some(raw) => NeverBadMagic(LoadEntry(m, raw, now), b, off + raw.used, now);
    }
  }

  /** Where every field of a written record stands; a key that never expires has deadline 0. */
  lemma RecordLayout(key: bytes, e: Entry)
    requires |key| < U32_LIMIT && |e.value| < U32_LIMIT && Marker(e) < U64_LIMIT
    ensures var b, v := RecordBytes(key, e), 8 + |key|;
      && |b| == 16 + |key| + |e.value|
      && FromLe(b[0..4]) == |key| && b[4..4 + |key|] == key && FromLe(b[v - 4..v]) == |e.value| && b[v..v + |e.value|] == e.value
      && FromLe(b[v + |e.value|..]) == match e.expiresAt case Some(t) => t case None => 0
  {
    hide Le32, Le64, FromLe;
    LeFields(|key|);
    LeFields(|e.value|);
    LeFields(Marker(e));
    var b, v := RecordBytes(key, e), 8 + |key|;
    assert b[0..4] == Le32(|key|) && b[4..4 + |key|] == key && b[v - 4..v] == Le32(|e.value|);
    assert b[v..v + |e.value|] == e.value && b[v + |e.value|..] == Le64(Marker(e));
  }
}
