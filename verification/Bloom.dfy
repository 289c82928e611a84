/** The packed Bloom filter and its byte format: 09-unsafe-ffi/src/bloom.rs. */
module BloomFilters {
  import opened Bytes
  import opened Division
  import opened WordBits
  import opened Hashing

  const MAGIC: bytes := [67, 66, 76, 77]
  const VERSION: byte := 1

  /** What a filter holds: the struct's four fields. */
  datatype Filter = Filter(words: seq<word>, numBits: nat, numHashes: nat, inserted: word)

  /** The struct's documented invariant, within the ranges of its field types. */
  predicate WellFormed(f: Filter) {
    && 0 < f.numBits < U64_LIMIT
    && |f.words| * 64 == f.numBits
    && f.numHashes < U32_LIMIT
  }

  // ---- packed bits ---------------------------------------------------------------------------

  /** bits[index / 64] |= 1 << (index % 64) */
  function WithBit(words: seq<word>, index: nat): (r: seq<word>)
    requires index < 64 * |words|
    ensures |r| == |words|
  {
    OrInWord(words[index / 64], index % 64);
    words[index / 64 := Or(words[index / 64], Pow2(index % 64))]
  }

  lemma OrInWord(w: word, k: nat)
    requires k < 64
    ensures Or(w, Pow2(k)) < U64_LIMIT
  {
    Pow2Of64();
    Pow2StrictlyMonotone(k, 64);
    OrBelow(w, Pow2(k), 64);
  }

  /** (bits[index / 64] >> (index % 64)) & 1 == 1 */
  predicate HasBit(words: seq<word>, index: nat)
    requires index < 64 * |words|
  {
    Bit(words[index / 64], index % 64)
  }

  ghost predicate InBits(words: seq<word>, index: nat) {
    index < 64 * |words| && HasBit(words, index)
  }

  /** Setting a bit sets that bit and touches no other, in any word. */
  lemma WithBitSetsOne(words: seq<word>, index: nat, b: nat)
    requires index < 64 * |words|
    ensures InBits(WithBit(words, index), b) <==> b == index || InBits(words, b)
  {
    if b < 64 * |words| && b / 64 == index / 64 {
      BitOfOr(words[index / 64], Pow2(index % 64), b % 64);
      BitOfPow2(index % 64, b % 64);
    }
  }

  /** Two bit arrays of one length with the same bits set are the same array. */
  lemma BitsDetermineWords(a: seq<word>, b: seq<word>)
    requires |a| == |b|
    requires forall i :: InBits(a, i) <==> InBits(b, i)
    ensures a == b
  {
    forall j | 0 <= j < |a| ensures a[j] == b[j] {
      forall k: nat | 0 <= k < 64 ensures Bit(a[j], k) <==> Bit(b[j], k) {
        assert InBits(a, 64 * j + k) <==> InBits(b, 64 * j + k);
        assert (64 * j + k) / 64 == j && (64 * j + k) % 64 == k;
      }
      Pow2Of64();
      SameBits(a[j], b[j], 64);
    }
  }

  // ---- add and contains ----------------------------------------------------------------------

  /** The words after the first n probes of an item. */
  function Probed(words: seq<word>, h: (word, word), n: nat, numBits: nat): (r: seq<word>)
    requires 0 < numBits <= 64 * |words|
    ensures |r| == |words|
  {
    if n == 0 then words
    else WithBit(Probed(words, h, n - 1, numBits), BitIndex(h.0, h.1, n - 1, numBits))
  }

  function Added(f: Filter, item: bytes): (r: Filter)
    requires WellFormed(f)
    ensures WellFormed(r) && r.numBits == f.numBits && r.numHashes == f.numHashes
  {
    f.(words := Probed(f.words, HashPair(item), f.numHashes, f.numBits),
       inserted := (f.inserted + 1) % U64_LIMIT)
  }

  /** A whole history of adds. */
  function AddedAll(f: Filter, items: seq<bytes>): (r: Filter)
    requires WellFormed(f)
    ensures WellFormed(r) && r.numBits == f.numBits && r.numHashes == f.numHashes
  {
    if items == [] then f else Added(AddedAll(f, items[..|items| - 1]), items[|items| - 1])
  }

  predicate Reported(f: Filter, item: bytes)
    requires WellFormed(f)
  {
    var h := HashPair(item);
    forall i :: 0 <= i < f.numHashes ==> HasBit(f.words, BitIndex(h.0, h.1, i, f.numBits))
  }

  /** Bit b is one of the first n probes of the item. */
  ghost predicate IsProbe(item: bytes, n: nat, numBits: nat, b: nat)
    requires numBits > 0
  {
    exists i :: 0 <= i < n && BitIndex(HashPair(item).0, HashPair(item).1, i, numBits) == b
  }

  ghost predicate IsProbeOfAny(items: seq<bytes>, n: nat, numBits: nat, b: nat)
    requires numBits > 0
  {
    exists item :: item in items && IsProbe(item, n, numBits, b)
  }

  lemma {:induction false} ProbedBits(words: seq<word>, item: bytes, n: nat, numBits: nat, b: nat)
    requires 0 < numBits <= 64 * |words|
    ensures InBits(Probed(words, HashPair(item), n, numBits), b) <==> InBits(words, b) || IsProbe(item, n, numBits, b)
    decreases n
  {
    hide InBits, WithBit, BitIndex, HashPair;
    if n > 0 {
      var h := HashPair(item);
      ProbedBits(words, item, n - 1, numBits, b);
      var index := BitIndex(h.0, h.1, n - 1, numBits);
      WithBitSetsOne(Probed(words, h, n - 1, numBits), index, b);
      ProbeSplit(item, n, numBits, b);
    }
  }

  lemma ProbeSplit(item: bytes, n: nat, numBits: nat, b: nat)
    requires n > 0 && numBits > 0
    ensures IsProbe(item, n, numBits, b)
       <==> IsProbe(item, n - 1, numBits, b) || BitIndex(HashPair(item).0, HashPair(item).1, n - 1, numBits) == b
  {
    hide BitIndex, HashPair;
  }

  /** After any history the set bits are exactly the old ones and the probes of the added items. */
  lemma {:induction false} HistoryBits(f: Filter, items: seq<bytes>, b: nat)
    requires WellFormed(f)
    ensures InBits(AddedAll(f, items).words, b)
       <==> InBits(f.words, b) || IsProbeOfAny(items, f.numHashes, f.numBits, b)
    decreases |items|
  {
    hide InBits, IsProbe, Probed;
    if items != [] {
      var front, last := items[..|items| - 1], items[|items| - 1];
      HistoryBits(f, front, b);
      ProbedBits(AddedAll(f, front).words, last, f.numHashes, f.numBits, b);
      AnySplit(front, last, f.numHashes, f.numBits, b);
      assert items == front + [last];
    }
  }

  lemma AnySplit(front: seq<bytes>, last: bytes, n: nat, numBits: nat, b: nat)
    requires numBits > 0
    ensures IsProbeOfAny(front + [last], n, numBits, b)
       <==> IsProbeOfAny(front, n, numBits, b) || IsProbe(last, n, numBits, b)
  {
    hide IsProbe;
    var all := front + [last];
    if IsProbe(last, n, numBits, b) { assert last in all; }
    if IsProbeOfAny(front, n, numBits, b) {
      var item :| item in front && IsProbe(item, n, numBits, b);
      assert item in all;
    }
  }

  /** contains answers true exactly when every probe of the item is set. */
  lemma ReportedIff(f: Filter, item: bytes)
    requires WellFormed(f)
    ensures Reported(f, item) <==> forall b :: IsProbe(item, f.numHashes, f.numBits, b) ==> InBits(f.words, b)
  {
    hide BitIndex, HashPair, HasBit;
    var h := HashPair(item);
    if forall b :: IsProbe(item, f.numHashes, f.numBits, b) ==> InBits(f.words, b) {
      forall i | 0 <= i < f.numHashes ensures HasBit(f.words, BitIndex(h.0, h.1, i, f.numBits)) {
        assert IsProbe(item, f.numHashes, f.numBits, BitIndex(h.0, h.1, i, f.numBits));
        assert InBits(f.words, BitIndex(h.0, h.1, i, f.numBits));
      }
    }
  }

  /** No false negatives, after any history and whatever the filter held before. */
  lemma NoFalseNegatives(f: Filter, items: seq<bytes>, item: bytes)
    requires WellFormed(f) && item in items
    ensures Reported(AddedAll(f, items), item)
  {
    hide InBits, IsProbe, Reported, AddedAll;
    var after := AddedAll(f, items);
    forall b | IsProbe(item, f.numHashes, f.numBits, b) ensures InBits(after.words, b) {
      HistoryBits(f, items, b);
    }
    ReportedIff(after, item);
  }

  /** What was reported stays reported. */
  lemma ReportsOnlyGrow(f: Filter, items: seq<bytes>, item: bytes)
    requires WellFormed(f) && Reported(f, item)
    ensures Reported(AddedAll(f, items), item)
  {
    hide InBits, IsProbe, Reported, AddedAll;
    var after := AddedAll(f, items);
    ReportedIff(f, item);
    forall b | IsProbe(item, f.numHashes, f.numBits, b) ensures InBits(after.words, b) {
      HistoryBits(f, items, b);
    }
    ReportedIff(after, item);
  }

  /** A new filter reports an item exactly when every one of its probes is a probe of some added item. */
  lemma ReportedAfterHistoryIff(numBits: nat, numHashes: nat, items: seq<bytes>, item: bytes)
    requires numBits <= U64_LIMIT - 64 && numHashes < U32_LIMIT
    ensures var f := Empty(numBits, numHashes);
      Reported(AddedAll(f, items), item)
      <==> forall b :: IsProbe(item, f.numHashes, f.numBits, b) ==> IsProbeOfAny(items, f.numHashes, f.numBits, b)
  {
    var f := Empty(numBits, numHashes);
    hide IsProbe, IsProbeOfAny, Reported, AddedAll;
    forall b: nat ensures InBits(AddedAll(f, items).words, b) <==> IsProbeOfAny(items, f.numHashes, f.numBits, b) {
      HistoryBits(f, items, b);
      if b < f.numBits { ZeroHasNoBit(b % 64); }
    }
    ReportedIff(AddedAll(f, items), item);
  }

  /** Order and repetition do not matter: the same items give the same bit array. */
  lemma SameItemsSameBits(f: Filter, a: seq<bytes>, b: seq<bytes>)
    requires WellFormed(f)
    requires forall item :: item in a <==> item in b
    ensures AddedAll(f, a).words == AddedAll(f, b).words
  {
    hide InBits, IsProbe, AddedAll;
    forall i ensures InBits(AddedAll(f, a).words, i) <==> InBits(AddedAll(f, b).words, i) {
      HistoryBits(f, a, i);
      HistoryBits(f, b, i);
    }
    BitsDetermineWords(AddedAll(f, a).words, AddedAll(f, b).words);
  }

  /** with_params: bits rounded up to whole words, at least one word and one probe. */
  function Empty(numBits: nat, numHashes: nat): (f: Filter)
    requires numBits <= U64_LIMIT - 64 && numHashes < U32_LIMIT
    ensures WellFormed(f) && f.numHashes >= 1
    ensures numBits <= f.numBits && (numBits > 0 ==> f.numBits < numBits + 64)
  {
    var count := if (numBits + 63) / 64 > 1 then (numBits + 63) / 64 else 1;
    Filter(seq(count, _ => 0), count * 64, if numHashes > 1 then numHashes else 1, 0)
  }

  // ---- the byte format -----------------------------------------------------------------------

  function WordsBytes(words: seq<word>): (b: bytes)
    ensures |b| == 8 * |words|
  {
    if words == [] then [] else WordsBytes(words[..|words| - 1]) + Le64(words[|words| - 1])
  }

  function ReadWords(b: bytes): (words: seq<word>)
    requires |b| % 8 == 0
    ensures |words| == |b| / 8
  {
    if b == [] then []
    else
      FromLeRange(b[|b| - 8..]);
      ReadWords(b[..|b| - 8]) + [FromLe(b[|b| - 8..])]
  }

  function Header(f: Filter): (b: bytes)
    ensures |b| == 25
  {
    MAGIC + [VERSION] + Le32(f.numHashes) + Le64(f.inserted) + Le64(f.numBits)
  }

  function Serialize(f: Filter): bytes {
    Header(f) + WordsBytes(f.words)
  }

  function Deserialize(data: bytes): (r: Option<Filter>)
    ensures r.Some? ==> r.value.numHashes < U32_LIMIT && r.value.numBits < U64_LIMIT
    ensures r.Some? ==> |r.value.words| == r.value.numBits / 64
  {
    if |data| < 25 || data[0..4] != MAGIC || data[4] != VERSION then None
    else
      FromLeRange(data[5..9]);
      FromLeRange(data[9..17]);
      FromLeRange(data[17..25]);
      var numBits := FromLe(data[17..25]);
      if |data| != 25 + (numBits / 64) * 8 then None
      else Some(Filter(ReadWords(data[25..]), numBits, FromLe(data[5..9]), FromLe(data[9..17])))
  }

  lemma {:induction false} WordsRoundTrip(words: seq<word>)
    ensures ReadWords(WordsBytes(words)) == words
  {
    if words != [] {
      var front, last := words[..|words| - 1], words[|words| - 1];
      var b := WordsBytes(words);
      WordsRoundTrip(front);
      LeFields(last);
      hide Le64, FromLe;
      assert b[..|b| - 8] == WordsBytes(front) && b[|b| - 8..] == Le64(last);
      assert words == front + [last];
    }
  }

  lemma WordsBytesPush(words: seq<word>, w: word)
    ensures WordsBytes(words + [w]) == WordsBytes(words) + Le64(w)
  {
    hide Le64;
    assert (words + [w])[..|words|] == words;
  }

  lemma ReadWordsPush(front: bytes, last: bytes)
    requires |front| % 8 == 0 && |last| == 8
    ensures FromLe(last) < U64_LIMIT && ReadWords(front + last) == ReadWords(front) + [FromLe(last)]
  {
    FromLeRange(last);
    hide FromLe;
    assert (front + last)[..|front|] == front && (front + last)[|front|..] == last;
  }

  lemma {:induction false} BytesRoundTrip(b: bytes)
    requires |b| % 8 == 0
    ensures WordsBytes(ReadWords(b)) == b
    decreases |b|
  {
    hide Le64, FromLe, ReadWords, WordsBytes;
    if b != [] {
      var front, last := b[..|b| - 8], b[|b| - 8..];
      assert b == front + last;
      BytesRoundTrip(front);
      LeFieldsInverse(last);
      ReadWordsPush(front, last);
      WordsBytesPush(ReadWords(front), FromLe(last));
    }
  }

  lemma HeaderFields(f: Filter, tail: bytes)
    ensures var data := Header(f) + tail;
      && data[0..4] == MAGIC && data[4] == VERSION && data[25..] == tail
      && data[5..9] == Le32(f.numHashes) && data[9..17] == Le64(f.inserted) && data[17..25] == Le64(f.numBits)
  {
    hide Le32, Le64;
  }

  /** A filter rebuilt from its own bytes is the same filter. */
  lemma SerializeRoundTrip(f: Filter)
    requires WellFormed(f)
    ensures Deserialize(Serialize(f)) == Some(f)
  {
    HeaderFields(f, WordsBytes(f.words));
    LeFields(f.numHashes);
    LeFields(f.inserted);
    LeFields(f.numBits);
    WordsRoundTrip(f.words);
    hide Header, Le32, Le64, FromLe, ReadWords, WordsBytes;
  }

  /** Hence it gives every query the same answer, now and after any further history of adds. */
  lemma RebuiltAnswersAlike(f: Filter, items: seq<bytes>, item: bytes)
    requires WellFormed(f)
    ensures var r := Deserialize(Serialize(f));
      r.Some? && WellFormed(r.value) && (Reported(AddedAll(r.value, items), item) <==> Reported(AddedAll(f, items), item))
  {
    SerializeRoundTrip(f);
  }

  /** Accepted bytes are the serialization of what they were read as: nothing is ignored. */
  lemma DeserializeIsExact(data: bytes)
    requires Deserialize(data).Some?
    ensures Serialize(Deserialize(data).value) == data
  {
    var f := Deserialize(data).value;
    BytesRoundTrip(data[25..]);
    LeFieldsInverse(data[5..9]);
    LeFieldsInverse(data[9..17]);
    LeFieldsInverse(data[17..25]);
    hide Le32, Le64, FromLe, ReadWords, WordsBytes;
    assert data == data[0..4] + [data[4]] + data[5..9] + data[9..17] + data[17..25] + data[25..];
  }

  // ---- panics on deserialized filters ------------------------------------------------------------

  /** The bit of probe i, or None where bit_index divides by zero or the word index is out of range. */
  function ProbeAt(f: Filter, h: (word, word), i: nat): (index: Option<nat>)
    ensures index.Some? ==> index.value < 64 * |f.words|
  {
    if f.numBits == 0 then None
    else
      var index := BitIndex(h.0, h.1, i, f.numBits);
      if index / 64 < |f.words| then Some(index) else None
  }

  /** contains from probe i on; None is a panic. */
  function Query(f: Filter, h: (word, word), i: nat): Option<bool>
    decreases f.numHashes - i
  {
    if i >= f.numHashes then Some(true)
    else match ProbeAt(f, h, i)
      case None => None
      case Some(index) => if HasBit(f.words, index) then Query(f, h, i + 1) else Some(false)
  }

  /** The filter after its first n probes are set; None is a panic. */
  function TryProbes(f: Filter, h: (word, word), n: nat): (r: Option<Filter>)
    ensures r.Some? ==> |r.value.words| == |f.words| && r.value == f.(words := r.value.words)
  {
    if n == 0 then Some(f)
    else match TryProbes(f, h, n - 1)
      case None => None
      case Some(g) =>
        match ProbeAt(f, h, n - 1)
        case None => None
        case Some(index) => Some(g.(words := WithBit(g.words, index)))
  }

  /** add; None is a panic. */
  function TryAdd(f: Filter, h: (word, word)): Option<Filter> {
    match TryProbes(f, h, f.numHashes)
    case None => None
    case Some(g) => Some(g.(inserted := (f.inserted + 1) % U64_LIMIT))
  }

  /** On a well-formed filter neither panics, and they are the operations above. */
  lemma WellFormedQueries(f: Filter, item: bytes)
    requires WellFormed(f)
    ensures Query(f, HashPair(item), 0) == Some(Reported(f, item))
    ensures TryAdd(f, HashPair(item)) == Some(Added(f, item))
  {
    hide HashPair, BitIndex, HasBit, WithBit;
    QueryReports(f, item, 0);
    WellFormedProbes(f, HashPair(item), f.numHashes);
  }

  lemma {:induction false} QueryReports(f: Filter, item: bytes, i: nat)
    requires WellFormed(f) && i <= f.numHashes
    ensures var h := HashPair(item);
      Query(f, h, i) == Some(forall j :: i <= j < f.numHashes ==> HasBit(f.words, BitIndex(h.0, h.1, j, f.numBits)))
    decreases f.numHashes - i
  {
    hide HashPair, BitIndex, HasBit;
    if i < f.numHashes { QueryReports(f, item, i + 1); }
  }

  lemma {:induction false} WellFormedProbes(f: Filter, h: (word, word), n: nat)
    requires WellFormed(f)
    ensures TryProbes(f, h, n) == Some(f.(words := Probed(f.words, h, n, f.numBits)))
  {
    hide BitIndex, WithBit;
    if n > 0 { WellFormedProbes(f, h, n - 1); }
  }

  /** add panics exactly when some probe does. */
  lemma {:induction false} AddPanicsIff(f: Filter, h: (word, word), n: nat)
    ensures TryProbes(f, h, n) == None <==> exists i :: 0 <= i < n && ProbeAt(f, h, i) == None
  {
    hide ProbeAt, WithBit;
    if n > 0 { AddPanicsIff(f, h, n - 1); }
  }

  /** Every probe before i finds its bit set. */
  ghost predicate SetUpTo(f: Filter, h: (word, word), from: nat, i: nat) {
    forall j :: from <= j < i ==> ProbeAt(f, h, j).Some? && HasBit(f.words, ProbeAt(f, h, j).value)
  }

  lemma SetUpToTail(f: Filter, h: (word, word), from: nat, i: nat)
    requires SetUpTo(f, h, from, i)
    ensures SetUpTo(f, h, from + 1, i)
  {
  }

  /** contains panics exactly when a probe does before one finds its bit clear. */
  lemma {:induction false} QueryPanicsIff(f: Filter, h: (word, word), from: nat)
    ensures Query(f, h, from) == None
      <==> exists i: nat :: from <= i < f.numHashes && ProbeAt(f, h, i) == None && SetUpTo(f, h, from, i)
    decreases f.numHashes - from
  {
    hide ProbeAt, HasBit;
    if from < f.numHashes {
      QueryPanicsIff(f, h, from + 1);
      if ProbeAt(f, h, from) == None {
        assert SetUpTo(f, h, from, from);
      } else if Query(f, h, from) == None {
        var i: nat :| from + 1 <= i < f.numHashes && ProbeAt(f, h, i) == None && SetUpTo(f, h, from + 1, i);
        assert SetUpTo(f, h, from, i);
      } else if HasBit(f.words, ProbeAt(f, h, from).value) {
        forall i: nat | from <= i < f.numHashes && ProbeAt(f, h, i) == None ensures !SetUpTo(f, h, from, i) {
          if SetUpTo(f, h, from, i) { SetUpToTail(f, h, from, i); }
        }
      }
    }
  }

  /** No query and no add can panic, whatever the item hashes to. */
  ghost predicate NeverPanics(f: Filter) {
    forall h1: word, h2: word :: h2 % 2 == 1 ==>
      Query(f, (h1, h2), 0).Some? && TryProbes(f, (h1, h2), f.numHashes).Some?
  }

  /** A filter without words, whatever bit count it claims, panics on every item as soon as it has a probe. */
  lemma NoWordsAlwaysPanics(f: Filter, h: (word, word))
    requires f.words == [] && f.numHashes > 0
    ensures Query(f, h, 0) == None && TryProbes(f, h, f.numHashes) == None
  {
    AddPanicsIff(f, h, f.numHashes);
    assert ProbeAt(f, h, 0) == None;
  }

  lemma FirstProbe(h1: word, h2: word, numBits: nat)
    requires h1 < numBits
    ensures BitIndex(h1, h2, 0, numBits) == h1
  {
  }

  /** A deserialized filter never panics exactly when it has no probes, or a positive multiple of 64 bits. */
  lemma NeverPanicsIff(f: Filter)
    requires |f.words| == f.numBits / 64 && f.numBits < U64_LIMIT
    ensures NeverPanics(f) <==> f.numHashes == 0 || (f.numBits > 0 && f.numBits % 64 == 0)
  {
    hide BitIndex, HasBit, WithBit;
    if f.numHashes == 0 || (f.numBits > 0 && f.numBits % 64 == 0) {
      forall h1: word, h2: word
        ensures Query(f, (h1, h2), 0).Some? && TryProbes(f, (h1, h2), f.numHashes).Some?
      {
        QueryPanicsIff(f, (h1, h2), 0);
        AddPanicsIff(f, (h1, h2), f.numHashes);
      }
    } else if f.numBits == 0 {
      NoWordsAlwaysPanics(f, (0, 1));
    } else {
      FirstProbe(64 * |f.words|, 1, f.numBits);
      assert ProbeAt(f, (64 * |f.words|, 1), 0) == None;
    }
  }

  /** In terms of the accepted bytes. */
  lemma AcceptedNeverPanicsIff(data: bytes)
    requires Deserialize(data).Some?
    ensures var numHashes, numBits := FromLe(data[5..9]), FromLe(data[17..25]);
      NeverPanics(Deserialize(data).value) <==> numHashes == 0 || (numBits > 0 && numBits % 64 == 0)
  {
    NeverPanicsIff(Deserialize(data).value);
    hide FromLe, ReadWords, NeverPanics;
  }

  /** Such a buffer exists: a header that claims no bits is accepted. */
  lemma ZeroBitsAccepted()
    ensures var f := Filter([], 0, 1, 0); Deserialize(Serialize(f)) == Some(f) && !NeverPanics(f)
  {
    var f := Filter([], 0, 1, 0);
    HeaderFields(f, WordsBytes(f.words));
    LeFields(1);
    LeFields(0);
    NeverPanicsIff(f);
    hide Header, Le32, Le64, FromLe, NeverPanics;
  }

  // ---- the code ------------------------------------------------------------------------------

  class Bloom {
    var bits: array<word>
    var numBits: nat
    var numHashes: nat
    var inserted: word

    ghost function State(): Filter
      reads this, bits
    {
      Filter(bits[..], numBits, numHashes, inserted)
    }

    ghost predicate Valid()
      reads this, bits
    {
      WellFormed(State())
    }

    constructor WithParams(wanted: nat, hashes: nat)
      requires wanted <= U64_LIMIT - 64 && hashes < U32_LIMIT
      ensures fresh(bits) && Valid() && State() == Empty(wanted, hashes)
    {
      var count := if (wanted + 63) / 64 > 1 then (wanted + 63) / 64 else 1;
      bits := new word[count](_ => 0);
      numBits := count * 64;
      numHashes := if hashes > 1 then hashes else 1;
      inserted := 0;
      new;
      assert bits[..] == seq(count, _ => 0);
    }

    constructor FromParts(words: array<word>, m: nat, k: nat, n: word)
      ensures bits == words && numBits == m && numHashes == k && inserted == n
    {
      bits, numBits, numHashes, inserted := words, m, k, n;
    }

    method SetBit(index: nat)
      requires index < 64 * bits.Length
      modifies bits
      ensures bits[..] == WithBit(old(bits[..]), index)
    {
      OrInWord(bits[index / 64], index % 64);
      bits[index / 64] := Or(bits[index / 64], Pow2(index % 64));
    }

    predicate GetBit(index: nat)
      requires index < 64 * bits.Length
      reads this, bits
      ensures GetBit(index) == HasBit(bits[..], index)
    {
      Bit(bits[index / 64], index % 64)
    }

    /** ok is false where the original panics; the call is then not counted. */
    method Add(item: bytes) returns (ok: bool)
      modifies `inserted, bits
      ensures ok <==> TryAdd(old(State()), HashPair(item)).Some?
      ensures ok ==> State() == TryAdd(old(State()), HashPair(item)).value
      ensures !ok ==> inserted == old(inserted)
      ensures old(Valid()) ==> ok && State() == Added(old(State()), item)
    {
      hide HashPair, BitIndex, WithBit, Serialize;
      ghost var f := State();
      if Valid() { WellFormedQueries(f, item); }
      var h := HashPair(item);
      for i := 0 to numHashes
        invariant TryProbes(f, h, i) == Some(State())
      {
        AddPanicsIff(f, h, numHashes);
        var index := ProbeIndex(h, i);
        assert index == ProbeAt(f, h, i);
        if index.None? { return false; }
        SetBit(index.value);
      }
      inserted := (inserted + 1) % U64_LIMIT;
      return true;
    }

    /** bit_index, and the bounds check of the word it falls into. */
    method ProbeIndex(h: (word, word), i: nat) returns (index: Option<nat>)
      ensures index == ProbeAt(State(), h, i)
    {
      hide BitIndex;
      if numBits == 0 { return None; }
      var b := BitIndex(h.0, h.1, i, numBits);
      return if b / 64 < bits.Length then Some(b) else None;
    }

    method Contains(item: bytes) returns (present: Option<bool>)
      ensures present == Query(State(), HashPair(item), 0)
      ensures Valid() ==> present == Some(Reported(State(), item))
    {
      hide HashPair, BitIndex, HasBit;
      if Valid() { WellFormedQueries(State(), item); }
      var h := HashPair(item);
      for i := 0 to numHashes
        invariant Query(State(), h, i) == Query(State(), h, 0)
      {
        var index := ProbeIndex(h, i);
        if index.None? { return None; }
        if !GetBit(index.value) { return Some(false); }
      }
      return Some(true);
    }

    method ToBytes() returns (buf: bytes)
      ensures buf == Serialize(State())
    {
      hide Le32, Le64;
      buf := MAGIC + [VERSION];
      buf := buf + Le32(numHashes);
      buf := buf + Le64(inserted);
      buf := buf + Le64(numBits);
      for i := 0 to bits.Length
        invariant buf == Header(State()) + WordsBytes(bits[..i])
      {
        assert bits[..i + 1][..i] == bits[..i];
        Appended(Header(State()), WordsBytes(bits[..i]), Le64(bits[i]));
        buf := buf + Le64(bits[i]);
      }
      assert bits[..bits.Length] == bits[..];
    }

    static method FromBytes(data: bytes) returns (r: Option<Bloom>)
      ensures r.None? <==> Deserialize(data).None?
      ensures r.Some? ==> fresh(r.value) && fresh(r.value.bits) && r.value.State() == Deserialize(data).value
    {
      hide FromLe;
      if |data| < 25 { return None; }
      if data[0..4] != MAGIC || data[4] != VERSION { return None; }
      FromLeRange(data[5..9]);
      FromLeRange(data[9..17]);
      FromLeRange(data[17..25]);
      var hashes := FromLe(data[5..9]);
      var count := FromLe(data[9..17]);
      var size := FromLe(data[17..25]);
      var wordCount := size / 64;
      if |data| != 25 + wordCount * 8 { return None; }
      var words := ReadBody(data[25..]);
      var bloom := new Bloom.FromParts(words, size, hashes, count);
      return Some(bloom);
    }
  }

  lemma Appended(a: bytes, b: bytes, c: bytes)
    ensures (a + b) + c == a + (b + c)
  {
  }

  lemma NoWords()
    ensures ReadWords([]) == []
  {
  }

  lemma ReadWordsStep(body: bytes, i: nat)
    requires 8 * i + 8 <= |body|
    ensures FromLe(body[8 * i..8 * i + 8]) < U64_LIMIT
    ensures ReadWords(body[..8 * i + 8]) == ReadWords(body[..8 * i]) + [FromLe(body[8 * i..8 * i + 8])]
  {
    hide FromLe;
    var b, chunk := body[..8 * i + 8], body[8 * i..8 * i + 8];
    FromLeRange(chunk);
    assert b[..|b| - 8] == body[..8 * i] && b[|b| - 8..] == chunk;
  }

  /** chunks_exact(8), each read as a little-endian u64. */
  method ReadBody(body: bytes) returns (words: array<word>)
    requires |body| % 8 == 0
    ensures fresh(words) && words[..] == ReadWords(body)
  {
    hide FromLe, ReadWords;
    words := new word[|body| / 8](_ => 0);
    assert ReadWords([]) == [] by { NoWords(); }
    for i := 0 to words.Length
      invariant words[..i] == ReadWords(body[..8 * i])
    {
      var chunk := body[8 * i..8 * i + 8];
      FromLeRange(chunk);
      ReadWordsStep(body, i);
      words[i] := FromLe(chunk);
    }
    assert words[..words.Length] == words[..] && body[..|body|] == body;
  }

  // ---- the counter --------------------------------------------------------------------------

  lemma OneMoreWrapped(x: nat, n: nat)
    ensures ((x + n) % 0x1_0000_0000_0000_0000 + 1) % 0x1_0000_0000_0000_0000 == (x + (n + 1)) % 0x1_0000_0000_0000_0000
    ensures x < 0x1_0000_0000_0000_0000 ==> (x + 0) % 0x1_0000_0000_0000_0000 == x
  {
  }

  /** The counter has counted every add, up to its wrap at 2^64. */
  lemma {:induction false} EveryAddIsCounted(f: Filter, items: seq<bytes>)
    requires WellFormed(f)
    ensures AddedAll(f, items).inserted == (f.inserted + |items|) % 0x1_0000_0000_0000_0000
  {
    hide Added, WellFormed;
    if items == [] {
      OneMoreWrapped(f.inserted, 0);
    } else {
      var n := |items| - 1;
      EveryAddIsCounted(f, items[..n]);
      AddIsCounted(AddedAll(f, items[..n]), items[n]);
      assert AddedAll(f, items) == Added(AddedAll(f, items[..n]), items[n]);
      hide AddedAll;
      OneMoreWrapped(f.inserted, n);
    }
  }

  lemma AddIsCounted(f: Filter, item: bytes)
    requires WellFormed(f)
    ensures Added(f, item).inserted == (f.inserted + 1) % 0x1_0000_0000_0000_0000
  {
    hide Probed, HashPair;
  }

  /** Where everything stands in a serialized filter: "CBLM", version 1, and the fields in order. */
  lemma SerializedLayout(f: Filter)
    requires f.numHashes < U32_LIMIT && f.numBits < U64_LIMIT
    ensures var b := Serialize(f);
      && |b| == 25 + 8 * |f.words| && b[..5] == [67, 66, 76, 77, 1]
      && FromLe(b[5..9]) == f.numHashes && FromLe(b[9..17]) == f.inserted && FromLe(b[17..25]) == f.numBits
      && forall i :: 0 <= i < |f.words| ==> FromLe(b[25 + 8 * i..33 + 8 * i]) == f.words[i]
  {
    HeaderFields(f, WordsBytes(f.words));
    WordsLength(f.words);
    LeFields(f.numHashes);
    LeFields(f.inserted);
    LeFields(f.numBits);
    var b, words := Serialize(f), WordsBytes(f.words);
    hide Header, Le32, Le64, FromLe, WordsBytes;
    assert b[..5] == b[0..4] + [b[4]];
    forall i | 0 <= i < |f.words|
      ensures FromLe(b[25 + 8 * i..33 + 8 * i]) == f.words[i]
    {
      WordAt(f.words, i);
      assert b[25..] == words;
      SliceOfSlice(b, 25, 8 * i, 8 * i + 8);
    }
  }

  lemma {:induction false} WordsLength(words: seq<word>)
    ensures |WordsBytes(words)| == 8 * |words|
  {
    if words != [] { WordsLength(words[..|words| - 1]); }
  }

  lemma {:induction false} WordAt(words: seq<word>, i: nat)
    requires i < |words|
    ensures 8 * i + 8 <= |WordsBytes(words)| && FromLe(WordsBytes(words)[8 * i..8 * i + 8]) == words[i]
    decreases |words|
  {
    var n := |words| - 1;
    var front, b := WordsBytes(words[..n]), WordsBytes(words);
    WordsLength(words);
    WordsLength(words[..n]);
    LeFields(words[n]);
    hide Le64, FromLe;
    assert b == front + Le64(words[n]);
    if i == n {
      assert b[8 * n..8 * n + 8] == Le64(words[n]);
    } else {
      WordAt(words[..n], i);
      assert b[8 * i..8 * i + 8] == front[8 * i..8 * i + 8];
    }
  }
}
