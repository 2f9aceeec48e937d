/** Writing a GNU hash table, and the proof that counting its symbols gives their number. */
module GnuHashLayouts {
  import opened Types
  import opened Bits
  import opened Placements
  import opened ByteReaders
  import opened SymbolCounts

  /** A bloom filter of 64-bit words, and for every bucket the hashes of its symbols, numbered from
      `symOffset` on in the order of the buckets. */
  datatype GnuTable = GnuTable(symOffset: nat, shift: nat, bloom: seq<Byte>, buckets: seq<seq<nat>>)

  /** The symbols of the first `b` buckets. */
  function Before(buckets: seq<seq<nat>>, b: nat): nat
    requires b <= |buckets|
  {
    if b == 0 then 0 else Before(buckets, b - 1) + |buckets[b - 1]|
  }

  /** A bucket states its first symbol; an empty one, zero. */
  function BucketWords(t: GnuTable, b: nat): seq<nat>
    requires b <= |t.buckets|
  {
    if b == 0 then [] else
      BucketWords(t, b - 1) + [if t.buckets[b - 1] == [] then 0 else t.symOffset + Before(t.buckets, b - 1)]
  }

  /** The hashes of a bucket, the low bit set on the last one and clear on the others. */
  function ChainWords(hashes: seq<nat>): seq<nat> {
    seq(|hashes|, i requires 0 <= i < |hashes| => hashes[i] / 2 * 2 + if i == |hashes| - 1 then 1 else 0)
  }

  function AllChainWords(buckets: seq<seq<nat>>, b: nat): (r: seq<nat>)
    requires b <= |buckets|
    ensures |r| == Before(buckets, b)
  {
    if b == 0 then [] else AllChainWords(buckets, b - 1) + ChainWords(buckets[b - 1])
  }

  function WordBytes(words: seq<nat>): (r: seq<Byte>)
    ensures |r| == 4 * |words|
  {
    if words == [] then [] else ToLittleEndian(words[0], 4) + WordBytes(words[1..])
  }

  function Header(t: GnuTable): seq<nat> { [|t.buckets|, t.symOffset, |t.bloom| / 8, t.shift] }

  function TableBytes(t: GnuTable): seq<Byte> {
    WordBytes(Header(t))
    + (t.bloom + (WordBytes(BucketWords(t, |t.buckets|)) + WordBytes(AllChainWords(t.buckets, |t.buckets|))))
  }

  function Total(t: GnuTable): nat { t.symOffset + Before(t.buckets, |t.buckets|) }

  ghost predicate FitsWords(words: seq<nat>) { forall i :: 0 <= i < |words| ==> words[i] < 0x1_0000_0000 }

  /** At least one bucket and one filter word, a dummy symbol before the hashed ones, and 32-bit numbers. */
  ghost predicate TableOk(t: GnuTable) {
    && |t.buckets| > 0 && |t.bloom| > 0 && |t.bloom| % 8 == 0 && t.symOffset > 0
    && FitsWords(Header(t)) && Total(t) < 0x1_0000_0000
    && forall b :: 0 <= b < |t.buckets| ==> FitsWords(t.buckets[b])
  }

  // ------------------------------------------------------------------ reading words back

  lemma {:induction false} AtWord(data: seq<Byte>, pos: nat, words: seq<nat>, k: nat)
    requires At(data, pos, WordBytes(words)) && FitsWords(words) && k < |words|
    ensures NumberAt(data, pos + 4 * k, 4) == Some(words[k])
    decreases k
  {
    hide NumberAt, At, ToLittleEndian, Pow2;
    Powers();
    AtSplits(data, pos, ToLittleEndian(words[0], 4), WordBytes(words[1..]));
    if k == 0 {
      AtNumber(data, pos, words[0], 4);
    } else {
      AtWord(data, pos + 4, words[1..], k - 1);
    }
  }

  lemma {:induction false} BucketWordIs(t: GnuTable, n: nat, b: nat)
    requires b < n <= |t.buckets|
    ensures |BucketWords(t, n)| == n
    ensures BucketWords(t, n)[b] == if t.buckets[b] == [] then 0 else t.symOffset + Before(t.buckets, b)
    decreases n
  {
    hide Before;
    BucketWordsLength(t, n - 1);
    if b < n - 1 {
      BucketWordIs(t, n - 1, b);
    }
  }

  lemma {:induction false} BucketWordsLength(t: GnuTable, n: nat)
    requires n <= |t.buckets|
    ensures |BucketWords(t, n)| == n
  {
    if n > 0 {
      BucketWordsLength(t, n - 1);
    }
  }

  lemma {:induction false} BeforeGrows(buckets: seq<seq<nat>>, b: nat, c: nat)
    requires b <= c <= |buckets|
    ensures Before(buckets, b) <= Before(buckets, c)
  {
    if b < c {
      BeforeGrows(buckets, b, c - 1);
    }
  }

  /** Where the `k`-th hashed symbol is: which bucket, and which place in it. */
  lemma {:induction false} Locate(buckets: seq<seq<nat>>, n: nat, k: nat) returns (b: nat, i: nat)
    requires n <= |buckets| && k < Before(buckets, n)
    ensures b < n && i < |buckets[b]| && k == Before(buckets, b) + i
    ensures AllChainWords(buckets, n)[k] == ChainWords(buckets[b])[i]
    decreases n
  {
    hide ChainWords;
    if k < Before(buckets, n - 1) {
      b, i := Locate(buckets, n - 1, k);
    } else {
      b, i := n - 1, k - Before(buckets, n - 1);
      ChainLength(buckets[b]);
    }
  }

  lemma ChainLength(hashes: seq<nat>)
    ensures |ChainWords(hashes)| == |hashes|
  {
  }

  lemma ChainWordIs(hashes: seq<nat>, i: nat)
    requires i < |hashes| && FitsWords(hashes)
    ensures ChainWords(hashes)[i] < 0x1_0000_0000
    ensures ChainWords(hashes)[i] % 2 == 1 <==> i == |hashes| - 1
  {
    assert hashes[i] / 2 * 2 <= 0xffff_fffe;
  }

  // ------------------------------------------------------------------ the table as read

  /** What the reader sees of the written table, whatever follows it. */
  ghost predicate Reads(t: GnuTable, data: seq<Byte>) {
    && |data| >= 16 && BucketCount(data) == |t.buckets| && SymOffset(data) == t.symOffset
    && BucketsAt(data) == 16 + |t.bloom| && ChainsAt(data) == 16 + |t.bloom| + 4 * |t.buckets|
    && ChainsAt(data) + 4 * (Total(t) - t.symOffset) <= |data|
    && (forall b :: 0 <= b < |t.buckets| ==>
          Bucket(data, b) == if t.buckets[b] == [] then 0 else t.symOffset + Before(t.buckets, b))
    && (forall k :: 0 <= k < Before(t.buckets, |t.buckets|) ==>
          ChainWord(data, t.symOffset + k) == Some(AllChainWords(t.buckets, |t.buckets|)[k]))
  }

  lemma TableReads(t: GnuTable, tail: seq<Byte>)
    requires TableOk(t)
    ensures Reads(t, TableBytes(t) + tail)
  {
    hide NumberAt, ToLittleEndian, At, WordBytes, BucketWords, AllChainWords, Before;
    var data, n := TableBytes(t) + tail, |t.buckets|;
    var chains := WordBytes(AllChainWords(t.buckets, n));
    var words := WordBytes(BucketWords(t, n));
    AtStart(TableBytes(t), tail);
    AtFits(data, 0, TableBytes(t));
    AtSplits(data, 0, WordBytes(Header(t)), t.bloom + (words + chains));
    AtSplits(data, 16, t.bloom, words + chains);
    BucketWordsLength(t, n);
    AtSplits(data, 16 + |t.bloom|, words, chains);
    AtWord(data, 0, Header(t), 0);
    AtWord(data, 0, Header(t), 1);
    AtWord(data, 0, Header(t), 2);
    BucketsFit(t);
    ChainsFit(t);
    forall b | 0 <= b < n
      ensures Bucket(data, b) == if t.buckets[b] == [] then 0 else t.symOffset + Before(t.buckets, b)
    {
      BucketWordIs(t, n, b);
      AtWord(data, 16 + |t.bloom|, BucketWords(t, n), b);
    }
    forall k | 0 <= k < Before(t.buckets, n)
      ensures ChainWord(data, t.symOffset + k) == Some(AllChainWords(t.buckets, n)[k])
    {
      AtWord(data, 16 + |t.bloom| + 4 * n, AllChainWords(t.buckets, n), k);
    }
  }

  lemma AtStart(form: seq<Byte>, tail: seq<Byte>)
    ensures At(form + tail, 0, form)
  {
  }

  lemma BucketsFit(t: GnuTable)
    requires TableOk(t)
    ensures FitsWords(BucketWords(t, |t.buckets|))
  {
    var n := |t.buckets|;
    hide BucketWords, Before;
    BucketWordsLength(t, n);
    forall b | 0 <= b < n ensures BucketWords(t, n)[b] < 0x1_0000_0000 {
      BucketWordIs(t, n, b);
      BeforeGrows(t.buckets, b, n);
    }
  }

  lemma ChainsFit(t: GnuTable)
    requires TableOk(t)
    ensures FitsWords(AllChainWords(t.buckets, |t.buckets|))
  {
    var n := |t.buckets|;
    hide AllChainWords, ChainWords, FitsWords;
    var words := AllChainWords(t.buckets, n);
    forall k | 0 <= k < |words| ensures words[k] < 0x1_0000_0000 {
      var b, i := Locate(t.buckets, n, k);
      ChainWordIs(t.buckets[b], i);
    }
    WordsFit(words);
  }

  lemma WordsFit(words: seq<nat>)
    requires forall k :: 0 <= k < |words| ==> words[k] < 0x1_0000_0000
    ensures FitsWords(words)
  {
  }

  /** A chain ends at the last symbol of a bucket. */
  lemma EndIs(t: GnuTable, data: seq<Byte>, b: nat, i: nat)
    requires TableOk(t) && Reads(t, data) && b < |t.buckets| && i < |t.buckets[b]|
    ensures Before(t.buckets, b) + i < Before(t.buckets, |t.buckets|)
    ensures EndsChain(data, t.symOffset + Before(t.buckets, b) + i) <==> i == |t.buckets[b]| - 1
  {
    hide ChainWord, ChainWords, AllChainWords, FitsWords, Reads, TableOk;
    var k, n := Before(t.buckets, b) + i, |t.buckets|;
    BeforeGrows(t.buckets, b + 1, n);
    var c, j := Locate(t.buckets, n, k);
    PlaceIsUnique(t.buckets, b, i, c, j);
    HashesFit(t, b);
    ChainLength(t.buckets[b]);
    ChainWordIs(t.buckets[b], i);
    ChainIsRead(t, data, k);
  }

  lemma HashesFit(t: GnuTable, b: nat)
    requires TableOk(t) && b < |t.buckets|
    ensures FitsWords(t.buckets[b])
  {
    hide FitsWords;
  }

  lemma ChainIsRead(t: GnuTable, data: seq<Byte>, k: nat)
    requires Reads(t, data) && k < Before(t.buckets, |t.buckets|)
    ensures ChainWord(data, t.symOffset + k) == Some(AllChainWords(t.buckets, |t.buckets|)[k])
  {
    hide ChainWord, AllChainWords, Before;
  }

  lemma PlaceIsUnique(buckets: seq<seq<nat>>, b: nat, i: nat, c: nat, j: nat)
    requires b < |buckets| && i < |buckets[b]| && c < |buckets| && j < |buckets[c]|
    requires Before(buckets, b) + i == Before(buckets, c) + j
    ensures b == c && i == j
  {
    if b < c {
      BeforeGrows(buckets, b + 1, c);
    }
    if c < b {
      BeforeGrows(buckets, c + 1, b);
    }
  }

  /** A chain starts at the first symbol of a bucket. */
  lemma StartIs(t: GnuTable, data: seq<Byte>, b: nat, i: nat)
    requires TableOk(t) && Reads(t, data) && b < |t.buckets| && i < |t.buckets[b]|
    ensures StartsChain(data, Total(t), t.symOffset + Before(t.buckets, b) + i) <==> i == 0
  {
    hide EndsChain, Reads, TableOk, AllChainWords;
    var k, n := Before(t.buckets, b) + i, |t.buckets|;
    EndIs(t, data, b, i);
    OffsetIs(t, data);
    if i > 0 {
      EndIs(t, data, b, i - 1);
    } else if k > 0 {
      var c, j := Locate(t.buckets, n, k - 1);
      EndIs(t, data, c, j);
      if j < |t.buckets[c]| - 1 {
        PlaceIsUnique(t.buckets, b, 0, c, j + 1);
        assert false;
      }
    }
  }

  lemma OffsetIs(t: GnuTable, data: seq<Byte>)
    requires TableOk(t) && Reads(t, data)
    ensures SymOffset(data) == t.symOffset > 0
  {
  }

  lemma ReadsTable(t: GnuTable, data: seq<Byte>)
    requires TableOk(t) && Reads(t, data)
    ensures IsTable(data, Total(t))
  {
    var n, total := |t.buckets|, Total(t);
    hide StartsChain, EndsChain, ChainWord, AllChainWords, FitsWords, Before, Bucket;
    forall b | 0 <= b < n ensures Bucket(data, b) == 0 || StartsChain(data, total, Bucket(data, b)) {
      if t.buckets[b] != [] {
        StartIs(t, data, b, 0);
      }
    }
    forall s: nat | StartsChain(data, total, s) ensures exists b :: 0 <= b < n && Bucket(data, b) == s {
      StartInRange(data, total, s);
      var b, i := Locate(t.buckets, n, s - t.symOffset);
      StartIs(t, data, b, i);
      assert Bucket(data, b) == s;
    }
    if total > t.symOffset {
      var b, i := Locate(t.buckets, n, total - 1 - t.symOffset);
      EndIs(t, data, b, i);
      if i < |t.buckets[b]| - 1 {
        EndIs(t, data, b, i + 1);
        assert false;
      }
    }
  }

  lemma StartInRange(data: seq<Byte>, total: nat, s: nat)
    requires StartsChain(data, total, s)
    ensures SymOffset(data) <= s < total
  {
  }

  /** Counting a written table's symbols gives their number, whatever follows the table. */
  lemma CountUndoesLayout(t: GnuTable, tail: seq<Byte>)
    requires TableOk(t)
    ensures FromGnuHash(Some(TableBytes(t) + tail)) == Some(Total(t))
  {
    hide Reads, IsTable, FromGnuHash, TableBytes, Total;
    TableReads(t, tail);
    ReadsTable(t, TableBytes(t) + tail);
    GnuHashCountsSymbols(TableBytes(t) + tail, Total(t));
  }

  // ------------------------------------------------------------------ the other sources

  /** A DT_HASH table states the number of its buckets and then the number of chains, one a symbol. */
  lemma HashTableStatesCount(buckets: nat, chains: nat, rest: seq<Byte>)
    requires buckets < 0x1_0000_0000 && chains < 0x1_0000_0000
    ensures FromHash(Some(WordBytes([buckets, chains]) + rest)) == if chains > 0 then Some(chains) else None
  {
    hide NumberAt, ToLittleEndian, At, WordBytes;
    var data := WordBytes([buckets, chains]) + rest;
    AtStart(WordBytes([buckets, chains]), rest);
    AtWord(data, 0, [buckets, chains], 1);
  }

  /** A symbol table that the string table follows is counted by its size. */
  lemma TableSizeStatesCount(symtab: Address, count: nat, entrySize: Address)
    requires count > 0 && entrySize > 0 && symtab + count * entrySize < WORD_MODULUS
    ensures FromLayout(symtab, symtab + count * entrySize, entrySize) == count
  {
    Divides(count, entrySize);
  }

  lemma Divides(count: nat, size: nat)
    requires size > 0
    ensures count * size / size == count && (count > 0 ==> count * size > 0)
  {
    var q, r := count * size / size, count * size % size;
    assert count * size == q * size + r;
    if count > q {
      MulAtMost(q + 1, count, size);
      NextMultiple(q, size);
    }
    if count < q {
      MulAtMost(count + 1, q, size);
      NextMultiple(count, size);
    }
  }

  lemma NextMultiple(q: nat, size: nat)
    ensures (q + 1) * size == q * size + size
  {
  }
}
