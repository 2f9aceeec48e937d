/**
 How many dynamic symbols there are, which ELF does not state: from a DT_HASH table, from the chains of
 a GNU hash table, or from where the string table starts.
 */
module SymbolCounts {
  import opened Types
  import opened Bits
  import opened ByteReaders
  import opened EhFrameParsers
  import opened ElfImages

  /** The 32-bit word at `pos`, zero past the end. */
  function WordOrZero(data: seq<Byte>, pos: nat): nat { NumberAt(data, pos, 4).GetOr(0) }

  /** The header of a GNU hash table and where its parts start. */
  function BucketCount(data: seq<Byte>): nat { WordOrZero(data, 0) }

  function SymOffset(data: seq<Byte>): nat { WordOrZero(data, 4) }

  function BucketsAt(data: seq<Byte>): nat { 16 + 8 * WordOrZero(data, 8) }

  function ChainsAt(data: seq<Byte>): nat { BucketsAt(data) + 4 * BucketCount(data) }

  function Bucket(data: seq<Byte>, b: nat): nat { WordOrZero(data, BucketsAt(data) + 4 * b) }

  /** The chain word of symbol `s`; its low bit marks the end of a chain. */
  function ChainWord(data: seq<Byte>, s: nat): Option<nat> {
    if s < SymOffset(data) then None else NumberAt(data, ChainsAt(data) + 4 * (s - SymOffset(data)), 4)
  }

  predicate EndsChain(data: seq<Byte>, s: nat) {
    ChainWord(data, s).Some? && ChainWord(data, s).value % 2 == 1
  }

  function MaxBucket(data: seq<Byte>, n: nat): nat {
    if n == 0 then 0 else Max(MaxBucket(data, n - 1), Bucket(data, n - 1))
  }

  /** One past the end of the chain through symbol `s`, if the table holds it. */
  function ChainEnd(data: seq<Byte>, s: nat): Option<nat>
    decreases |data| + 4 * SymOffset(data) - 4 * s
  {
    if ChainWord(data, s).None? then None
    else if EndsChain(data, s) then Some(s + 1)
    else ChainEnd(data, s + 1)
  }

  function FromHash(table: Option<seq<Byte>>): Option<nat> {
    if table.None? || |table.value| < 8 || WordOrZero(table.value, 4) == 0 then None
    else Some(WordOrZero(table.value, 4))
  }

  function FromGnuHash(table: Option<seq<Byte>>): Option<nat> {
    if table.None? || |table.value| < 16 then None else
      var data := table.value;
      if BucketCount(data) == 0 || BucketsAt(data) == 16 || ChainsAt(data) > |data| then None else
        var last := MaxBucket(data, BucketCount(data));
        if last < SymOffset(data) then Some(SymOffset(data)) else ChainEnd(data, last)
  }

  function FromLayout(symtab: Address, strtab: Address, entrySize: Address): nat {
    if entrySize > 0 && strtab > symtab then (strtab - symtab) / entrySize else 0
  }

  // ------------------------------------------------------------------ a well-formed table

  ghost predicate StartsChain(data: seq<Byte>, total: nat, s: nat) {
    SymOffset(data) <= s < total && (s == SymOffset(data) || EndsChain(data, s - 1))
  }

  /** Chains tile the hashed symbols back to back, each in some bucket; other buckets are empty. */
  ghost predicate IsTable(data: seq<Byte>, total: nat) {
    && |data| >= 16 && BucketCount(data) > 0 && BucketsAt(data) > 16
    && 0 < SymOffset(data) <= total
    && ChainsAt(data) + 4 * (total - SymOffset(data)) <= |data|
    && (forall b :: 0 <= b < BucketCount(data) ==> Bucket(data, b) == 0 || StartsChain(data, total, Bucket(data, b)))
    && (forall s: nat :: StartsChain(data, total, s) ==> exists b :: 0 <= b < BucketCount(data) && Bucket(data, b) == s)
    && (total > SymOffset(data) ==> EndsChain(data, total - 1))
  }

  lemma {:induction false} MaxBucketIs(data: seq<Byte>, n: nat)
    ensures forall b :: 0 <= b < n ==> Bucket(data, b) <= MaxBucket(data, n)
    ensures MaxBucket(data, n) == 0 || exists b :: 0 <= b < n && Bucket(data, b) == MaxBucket(data, n)
  {
    hide Bucket;
    if n > 0 {
      MaxBucketIs(data, n - 1);
      if MaxBucket(data, n) == Bucket(data, n - 1) {
      } else {
        var b :| 0 <= b < n - 1 && Bucket(data, b) == MaxBucket(data, n - 1);
      }
    }
  }

  /** From the last chain's start, no earlier word ends a chain. */
  lemma {:induction false} LastChainEnds(data: seq<Byte>, total: nat, s: nat)
    requires IsTable(data, total) && SymOffset(data) <= s < total
    requires forall q: nat :: StartsChain(data, total, q) ==> q <= s
    ensures ChainEnd(data, s) == Some(total)
    decreases total - s
  {
    hide IsTable;
    WordsArePresent(data, total, s);
    assert !StartsChain(data, total, s + 1);
    if s + 1 < total {
      LastChainEnds(data, total, s + 1);
    }
  }

  lemma WordsArePresent(data: seq<Byte>, total: nat, s: nat)
    requires IsTable(data, total) && SymOffset(data) <= s < total
    ensures ChainWord(data, s).Some?
    ensures s == total - 1 ==> EndsChain(data, s)
  {
    hide WordOrZero;
  }

  /** On a well-formed table the walk from the largest bucket finds the number of symbols exactly. */
  lemma GnuHashCountsSymbols(data: seq<Byte>, total: nat)
    requires IsTable(data, total)
    ensures FromGnuHash(Some(data)) == Some(total)
  {
    hide WordOrZero, EndsChain;
    var n := BucketCount(data);
    var last := MaxBucket(data, n);
    MaxBucketIs(data, n);
    hide MaxBucket, Bucket;
    if total == SymOffset(data) {
      assert forall s: nat :: !StartsChain(data, total, s);
      assert last == 0;
    } else {
      assert StartsChain(data, total, SymOffset(data));
      LastChainEnds(data, total, last);
    }
  }

  // ------------------------------------------------------------------ the program's count

  /** The number of dynamic symbols; every read stays inside its table. */
  method DynamicSymbolCount(image: ElfImage, symtab: Address, strtab: Address, hash: Address, gnuHash: Address,
                            entrySize: Address)
    returns (count: nat)
    requires image.NoWrap()
    ensures var fromHash := if hash == 0 then None else FromHash(image.Lookup(hash));
      var fromGnu := if gnuHash == 0 then None else FromGnuHash(image.Lookup(gnuHash));
      count == if fromHash.Some? then fromHash.value
               else if fromGnu.Some? then fromGnu.value
               else FromLayout(symtab, strtab, entrySize)
  {
    hide FromGnuHash;
    if hash != 0 {
      var p := image.DataAt(hash);
      if p.Some? && |p.value| >= 8 {
        image.LookupIsSmall(hash);
        var r := new ByteReader(p.value);
        var nchain := r.U32(4);
        if nchain.value > 0 {
          return nchain.value;
        }
      }
    }
    if gnuHash != 0 {
      var p := image.DataAt(gnuHash);
      image.LookupIsSmall(gnuHash);
      var found := CountGnuHash(p);
      if found.Some? {
        return found.value;
      }
    }
    if entrySize > 0 && strtab > symtab {
      return (strtab - symtab) / entrySize;
    }
    return 0;
  }

  lemma NoBuckets(data: seq<Byte>)
    ensures MaxBucket(data, 0) == 0
  {
  }

  lemma NextBucket(data: seq<Byte>, b: nat)
    ensures MaxBucket(data, b + 1) == Max(MaxBucket(data, b), Bucket(data, b))
  {
  }

  method LargestBucket(r: ByteReader, nbuckets: nat) returns (lastSym: nat)
    requires nbuckets == BucketCount(r.data) && ChainsAt(r.data) <= |r.data| < MAX_OBJECT_SIZE
    ensures lastSym == MaxBucket(r.data, nbuckets)
  {
    hide LittleEndian, MaxBucket;
    var bloomSize := r.U32(8);
    var bucketsOff: Address := 16 + bloomSize.value * 8;
    lastSym := 0;
    NoBuckets(r.data);
    for b := 0 to nbuckets
      invariant lastSym == MaxBucket(r.data, b)
    {
      var v := r.U32(bucketsOff + b * 4);
      NextBucket(r.data, b);
      if v.value > lastSym {
        lastSym := v.value;
      }
    }
  }

  /** Follow a chain from symbol `s` to the word that ends it. */
  method FollowChain(r: ByteReader, chainOff: Address, symOffset: nat, s: nat) returns (end: Option<nat>)
    requires chainOff == ChainsAt(r.data) && symOffset == SymOffset(r.data) <= s < 0x1_0000_0000
    requires chainOff <= |r.data| < MAX_OBJECT_SIZE
    ensures end == ChainEnd(r.data, s)
  {
    hide LittleEndian, BucketsAt, BucketCount;
    var chainIndex: nat := s - symOffset;
    while true
      invariant ChainEnd(r.data, symOffset + chainIndex) == ChainEnd(r.data, s)
      invariant chainIndex < 0x1_0000_0000 || chainOff + chainIndex * 4 <= |r.data|
      decreases |r.data| - 4 * chainIndex
    {
      var at: Address := chainOff + chainIndex * 4;
      if !r.InBounds(at, 4) {
        return None;
      }
      var word := r.U32(at);
      chainIndex := chainIndex + 1;
      if word.value % 2 != 0 {
        return Some(symOffset + chainIndex);
      }
    }
  }

  lemma {:induction false} MaxBucketIsWord(data: seq<Byte>, n: nat)
    ensures MaxBucket(data, n) < 0x1_0000_0000
  {
    hide BucketsAt;
    if n > 0 {
      NumberBounds(data, BucketsAt(data) + 4 * (n - 1));
      MaxBucketIsWord(data, n - 1);
    }
  }

  /** Find the largest bucket, then follow its chain to the end. */
  method CountGnuHash(table: Option<seq<Byte>>) returns (count: Option<nat>)
    requires table.Some? ==> |table.value| < MAX_OBJECT_SIZE
    ensures count == FromGnuHash(table)
  {
    hide LittleEndian, MaxBucket, ChainEnd;
    if table.None? || |table.value| < 16 {
      return None;
    }
    var data := table.value;
    var r := new ByteReader(data);
    NumberBounds(data, 0);
    NumberBounds(data, 4);
    NumberBounds(data, 8);
    var nbuckets := r.U32(0);
    var symOffset := r.U32(4);
    var bloomSize := r.U32(8);
    if nbuckets.value == 0 || bloomSize.value == 0 {
      return None;
    }
    var bucketsOff: Address := 16 + bloomSize.value * 8;
    var chainOff: Address := bucketsOff + nbuckets.value * 4;
    if !r.InBounds(bucketsOff, nbuckets.value * 4) {
      return None;
    }
    var lastSym := LargestBucket(r, nbuckets.value);
    if lastSym < symOffset.value {
      return Some(symOffset.value);
    }
    MaxBucketIsWord(data, nbuckets.value);
    count := FollowChain(r, chainOff, symOffset.value, lastSym);
  }
}
