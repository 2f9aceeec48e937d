/** A bounds-checked cursor over bytes.  A read that would leave the buffer answers None, where the
    program throws. */
module ByteReaders {
  import opened Types
  import opened Bits
  import opened Placements
  import opened Leb128

  /** The `n` bytes at `pos` as a little-endian number. */
  function NumberAt(data: seq<Byte>, pos: nat, n: nat): Option<nat> {
    if pos + n <= |data| then Some(LittleEndian(data[pos..pos + n])) else None
  }

  lemma AtNumber(data: seq<Byte>, pos: nat, v: nat, n: nat)
    requires At(data, pos, ToLittleEndian(v, n)) && v < Pow2(8 * n)
    ensures NumberAt(data, pos, n) == Some(v)
  {
    LittleEndianInverse(v, n);
  }

  /** The bytes from `pos` up to a NUL or the end of the buffer. */
  function StringAt(data: seq<Byte>, pos: nat): seq<Byte>
    decreases |data| - pos
  {
    if pos >= |data| || data[pos] == 0 then [] else [data[pos]] + StringAt(data, pos + 1)
  }

  /** The position after that string, past its NUL if there is one. */
  function AfterString(data: seq<Byte>, pos: nat): nat {
    var end := pos + |StringAt(data, pos)|;
    if end < |data| && data[end] == 0 then end + 1 else end
  }

  lemma {:induction false} StringIs(data: seq<Byte>, start: nat, end: nat)
    requires start <= end <= |data| && (end < |data| ==> data[end] == 0)
    requires forall i :: start <= i < end ==> data[i] != 0
    ensures StringAt(data, start) == data[start..end]
    decreases end - start
  {
    if start < end {
      StringIs(data, start + 1, end);
    }
  }

  // ------------------------------------------------------------------ LEB128 accumulation in 64 bits

  /** What the reading loop holds after some bytes; the shift stops growing once past 63. */
  ghost predicate Accumulated(bytes: seq<Byte>, result: int, shift: nat) {
    && result == Unsigned(bytes) % WORD_MODULUS
    && shift == if |bytes| < 10 then 7 * |bytes| else 70
  }

  /** `<<` on a 64-bit word. */
  function Shl64(x: nat, shift: nat): Address { Shl(x, shift) % WORD_MODULUS }

  lemma AddMultiple(x: int, k: int)
    ensures (x + k * WORD_MODULUS) % WORD_MODULUS == x % WORD_MODULUS
  {
  }

  /** Bits shifted out of the word are a multiple of it. */
  lemma TruncatedShift(x: nat, shift: nat)
    requires shift <= 64
    ensures Shl64(x, shift) == Shl(x % Pow2(64 - shift), shift)
  {
    Powers();
    Pow2Adds(64 - shift, shift);
    hide Pow2;
    ScaledRemainder(x, Pow2(64 - shift), Pow2(shift));
  }

  lemma ScaledRemainder(x: nat, q: nat, p: nat)
    requires q > 0 && q * p == WORD_MODULUS
    ensures (x * p) % WORD_MODULUS == (x % q) * p
  {
    var low, high := x % q, x / q;
    assert x == high * q + low;
    Distribute(low, high, q, p);
    MulAtMost(low + 1, q, p);
    Spread(low, p);
    RemainderIs(x * p, low * p, high);
  }

  lemma RemainderIs(v: nat, low: nat, high: nat)
    requires low < WORD_MODULUS && v == low + high * WORD_MODULUS
    ensures v % WORD_MODULUS == low
  {
    AddMultiple(low, high);
  }

  lemma Spread(low: nat, p: nat)
    ensures (low + 1) * p == low * p + p
  {
  }

  lemma Distribute(low: nat, high: nat, q: nat, p: nat)
    ensures (high * q + low) * p == low * p + high * (q * p)
  {
  }

  lemma OrTruncated(x: nat, b: nat, shift: nat)
    requires shift <= 64 && x < Pow2(shift)
    ensures Or(x, Shl64(b, shift)) == (x + Shl(b, shift)) % WORD_MODULUS
  {
    hide Or, Pow2, Shl, Shl64;
    TruncatedShift(b, shift);
    OrDisjoint(x, b % Pow2(64 - shift), shift);
    FitsAbove(x, b % Pow2(64 - shift), shift);
    SumTruncated(x, b, shift);
  }

  lemma FitsAbove(x: nat, b: nat, shift: nat)
    requires shift <= 64 && x < Pow2(shift) && b < Pow2(64 - shift)
    ensures x + Shl(b, shift) < WORD_MODULUS
  {
    Powers();
    Pow2Adds(64 - shift, shift);
    hide Pow2;
    MulAtMost(b + 1, Pow2(64 - shift), Pow2(shift));
  }

  lemma SumTruncated(x: nat, b: nat, shift: nat)
    ensures (x + Shl64(b, shift)) % WORD_MODULUS == (x + Shl(b, shift)) % WORD_MODULUS
  {
    hide Shl;
    var whole := Shl(b, shift);
    AddMultiple(x + whole % WORD_MODULUS, whole / WORD_MODULUS);
  }

  lemma HighBitsVanish(b: nat, shift: nat)
    requires shift >= 64
    ensures Shl64(b, shift) == 0
  {
    hide Pow2;
    Powers();
    Pow2Adds(shift - 64, 64);
    WholeWords(b, Pow2(shift - 64));
  }

  lemma WholeWords(b: nat, k: nat)
    ensures (b * (k * WORD_MODULUS)) % WORD_MODULUS == 0
  {
    var n := b * k;
    assert b * (k * WORD_MODULUS) == n * WORD_MODULUS;
    AddMultiple(0, n);
  }

  /** One more byte, in either regime of the shift. */
  lemma AccumulateStep(bytes: seq<Byte>, b: Byte, result: nat, shift: nat)
    requires Accumulated(bytes, result, shift)
    ensures if shift < 64 then Accumulated(bytes + [b], Or(result, Shl64(b % 128, shift)), shift + 7)
            else Accumulated(bytes + [b], result, shift)
  {
    hide Or, Shl, Shl64, Pow2, Unsigned;
    UnsignedAppends(bytes, b);
    if shift < 64 {
      SmallSum(|bytes|);
      OrTruncated(result, b % 128, shift);
    } else {
      HighBitsVanish(b % 128, 7 * |bytes|);
      SumTruncated(Unsigned(bytes), b % 128, 7 * |bytes|);
    }
  }

  /** Nine bytes of payload still fit in a word. */
  lemma SmallSum(n: nat)
    requires n < 10
    ensures Pow2(7 * n) <= WORD_MODULUS
  {
    hide Pow2;
    Powers();
    Pow2Grows(7 * n, 64);
  }

  /** Setting the bits above the payload subtracts its weight. */
  lemma SignExtend(bytes: seq<Byte>, result: nat, shift: nat)
    requires bytes != [] && Accumulated(bytes, result, shift)
    ensures var negative := bytes[|bytes| - 1] % 128 >= 64;
      Signed(bytes) % WORD_MODULUS ==
      if shift < 64 && negative then Or(result, Shl64(0xffff_ffff_ffff_ffff, shift)) else result
  {
    hide Or, Shl, Shl64, Pow2, Unsigned, Signed;
    SignedIsShifted(bytes);
    UnsignedAppends(bytes, 0);
    var n := 7 * |bytes|;
    if bytes[|bytes| - 1] % 128 >= 64 {
      if shift < 64 {
        SmallSum(|bytes|);
        OrTruncated(result, 0xffff_ffff_ffff_ffff, shift);
        AllOnes(result, shift);
      } else {
        HighBitsVanish(1, n);
        WeightVanishes(Unsigned(bytes), n);
      }
    }
  }

  lemma AllOnes(x: nat, shift: nat)
    ensures (x + Shl(0xffff_ffff_ffff_ffff, shift)) % WORD_MODULUS ==
            (x - Pow2(shift)) % WORD_MODULUS
  {
    hide Pow2;
    AddMultiple(x - Pow2(shift), Pow2(shift));
  }

  lemma WeightVanishes(x: nat, n: nat)
    requires Shl64(1, n) == 0
    ensures (x - Pow2(n)) % WORD_MODULUS == x % WORD_MODULUS
  {
    hide Pow2;
    var k := Pow2(n) / WORD_MODULUS;
    AddMultiple(x - Pow2(n), k);
  }

  // ------------------------------------------------------------------ the reader

  class ByteReader {
    const data: seq<Byte>
    var position: nat

    constructor (data: seq<Byte>)
      requires |data| < WORD_MODULUS
      ensures this.data == data && position == 0 && Valid()
    {
      this.data := data;
      position := 0;
    }

    ghost predicate Valid()
      reads this
    {
      position <= |data| < WORD_MODULUS
    }

    predicate InBounds(offset: Address, length: Address) {
      offset <= |data| && length <= |data| - offset
    }

    method U8(offset: Address) returns (r: Option<Byte>)
      ensures r == if offset < |data| then Some(data[offset]) else None
    {
      if !InBounds(offset, 1) {
        return None;
      }
      return Some(data[offset]);
    }

    method U16(offset: Address) returns (r: Option<nat>)
      ensures r == NumberAt(data, offset, 2)
    {
      if !InBounds(offset, 2) {
        return None;
      }
      OrOfTwo(data[offset..]);
      assert data[offset..][..2] == data[offset..offset + 2];
      return Some(Or(data[offset], Shl(data[offset + 1], 8)));
    }

    method U32(offset: Address) returns (r: Option<nat>)
      ensures r == NumberAt(data, offset, 4)
    {
      hide LittleEndian, Or, Shl;
      if !InBounds(offset, 4) {
        return None;
      }
      OrOfFour(data[offset..]);
      assert data[offset..][..4] == data[offset..offset + 4];
      return Some(Or(Or(Or(data[offset],
                           Shl(data[offset + 1], 8)),
                        Shl(data[offset + 2], 16)),
                     Shl(data[offset + 3], 24)));
    }

    /** Shift in the eight bytes from the last to the first. */
    method U64(offset: Address) returns (r: Option<nat>)
      ensures r == NumberAt(data, offset, 8)
    {
      hide LittleEndian, Or, Shl64;
      if !InBounds(offset, 8) {
        return None;
      }
      var value: Address := 0;
      NoBytes(data[offset + 8..offset + 8]);
      for i := 8 downto 0
        invariant value == LittleEndian(data[offset + i..offset + 8])
      {
        ShiftInByte(data[offset + i], data[offset + i + 1..offset + 8]);
        assert [data[offset + i]] + data[offset + i + 1..offset + 8] == data[offset + i..offset + 8];
        value := Or(Shl64(value, 8), data[offset + i]);
      }
      return Some(value);
    }

    method Seek(target: Address) returns (ok: bool)
      requires Valid()
      modifies this`position
      ensures Valid()
      ensures ok <==> target <= |data|
      ensures position == if ok then target else old(position)
    {
      if target > |data| {
        return false;
      }
      position := target;
      return true;
    }

    method ReadU8() returns (r: Option<Byte>)
      requires Valid()
      modifies this`position
      ensures Valid()
      ensures r == if old(position) < |data| then Some(data[old(position)]) else None
      ensures position == if r.Some? then old(position) + 1 else old(position)
    {
      r := U8(position);
      if r.Some? {
        position := position + 1;
      }
    }

    method ReadU16() returns (r: Option<nat>)
      requires Valid()
      modifies this`position
      ensures Valid()
      ensures r == NumberAt(data, old(position), 2)
      ensures position == if r.Some? then old(position) + 2 else old(position)
    {
      r := U16(position);
      if r.Some? {
        position := position + 2;
      }
    }

    method ReadU32() returns (r: Option<nat>)
      requires Valid()
      modifies this`position
      ensures Valid()
      ensures r == NumberAt(data, old(position), 4)
      ensures position == if r.Some? then old(position) + 4 else old(position)
    {
      r := U32(position);
      if r.Some? {
        position := position + 4;
      }
    }

    method ReadU64() returns (r: Option<nat>)
      requires Valid()
      modifies this`position
      ensures Valid()
      ensures r == NumberAt(data, old(position), 8)
      ensures position == if r.Some? then old(position) + 8 else old(position)
    {
      r := U64(position);
      if r.Some? {
        position := position + 8;
      }
    }

    /** The 64-bit value of the encoding at the cursor, however many bytes it takes. */
    method ReadUleb128() returns (r: Option<Address>)
      requires Valid()
      modifies this`position
      ensures Valid()
      ensures var read := UnsignedAt(data, old(position));
        if read.None? then r.None? else r == Some(read.value.0) && position == read.value.1
    {
      hide Or, Shl64, Accumulated, Length, Unsigned;
      var result: nat, shift: nat := 0, 0;
      NothingAccumulated(data, position);
      while true
        invariant Valid() && old(position) <= position
        invariant forall i :: old(position) <= i < position ==> data[i] >= 128
        invariant Accumulated(data[old(position)..position], result, shift)
        decreases |data| - position
      {
        var at := position;
        var byte := ReadU8();
        if byte.None? {
          NeverTerminated(data, old(position));
          return None;
        }
        AccumulateStep(data[old(position)..at], byte.value, result, shift);
        assert data[old(position)..at] + [byte.value] == data[old(position)..position];
        if shift < 64 {
          result := Or(result, Shl64(byte.value % 128, shift));
          shift := shift + 7;
        }
        if byte.value < 128 {
          break;
        }
      }
      FoundWhole(data, old(position), position);
      AccumulatedIs(data[old(position)..position], result, shift);
      return Some(result);
    }

    /** The signed 64-bit value of the encoding at the cursor. */
    method ReadSleb128() returns (r: Option<int>)
      requires Valid()
      modifies this`position
      ensures Valid()
      ensures var read := SignedAt(data, old(position));
        if read.None? then r.None? else r == Some(read.value.0) && position == read.value.1
    {
      hide Or, Shl64, Accumulated, Length, Unsigned, Signed;
      var result: nat, shift: nat := 0, 0;
      var last: Byte := 0;
      NothingAccumulated(data, position);
      while true
        invariant Valid() && old(position) <= position
        invariant forall i :: old(position) <= i < position ==> data[i] >= 128
        invariant Accumulated(data[old(position)..position], result, shift)
        decreases |data| - position
      {
        var at := position;
        var byte := ReadU8();
        if byte.None? {
          NeverTerminated(data, old(position));
          return None;
        }
        last := byte.value;
        AccumulateStep(data[old(position)..at], last, result, shift);
        assert data[old(position)..at] + [last] == data[old(position)..position];
        if shift < 64 {
          result := Or(result, Shl64(last % 128, shift));
          shift := shift + 7;
        }
        if last < 128 {
          break;
        }
      }
      FoundWhole(data, old(position), position);
      SignExtend(data[old(position)..position], result, shift);
      if shift < 64 && last % 128 >= 64 {
        result := Or(result, Shl64(0xffff_ffff_ffff_ffff, shift));
      }
      return Some(ToSigned64(result));
    }

    /** The string at the cursor; the cursor moves past it and its NUL, if it has one. */
    method ReadCString() returns (s: seq<Byte>)
      requires Valid()
      modifies this`position
      ensures Valid()
      ensures s == StringAt(data, old(position)) && position == AfterString(data, old(position))
    {
      hide StringAt;
      var start, end := position, position;
      while end < |data| && data[end] != 0
        invariant start <= end <= |data|
        invariant forall i :: start <= i < end ==> data[i] != 0
      {
        end := end + 1;
      }
      StringIs(data, start, end);
      s := data[start..end];
      position := position + |s|;
      if position < |data| && data[position] == 0 {
        position := position + 1;
      }
    }
  }

  lemma NoBytes(bytes: seq<Byte>)
    requires bytes == []
    ensures LittleEndian(bytes) == 0
  {
  }

  lemma NothingAccumulated(data: seq<Byte>, pos: nat)
    requires pos <= |data|
    ensures Accumulated(data[pos..pos], 0, 0)
  {
  }

  lemma AccumulatedIs(bytes: seq<Byte>, result: int, shift: nat)
    requires Accumulated(bytes, result, shift)
    ensures result == Unsigned(bytes) % WORD_MODULUS
  {
  }

  lemma {:induction false} NeverTerminated(data: seq<Byte>, pos: nat)
    requires forall i :: pos <= i < |data| ==> data[i] >= 128
    ensures Length(data, pos) == None
    decreases |data| - pos
  {
    if pos < |data| {
      NeverTerminated(data, pos + 1);
    }
  }

  lemma FoundWhole(data: seq<Byte>, start: nat, end: nat)
    requires start < end <= |data| && data[end - 1] < 128
    requires forall i :: start <= i < end - 1 ==> data[i] >= 128
    ensures Length(data, start) == Some(end - start)
  {
    LengthOfTerminated(data, start, data[start..end]);
  }

  lemma ShiftInByte(b: Byte, rest: seq<Byte>)
    requires |rest| < 8
    ensures Or(Shl64(LittleEndian(rest), 8), b) == LittleEndian([b] + rest) < WORD_MODULUS
  {
    hide Or, Pow2, LittleEndian;
    var value := LittleEndian(rest);
    PrependByte(b, rest);
    ByteRange();
    LittleEndianBound([b] + rest);
    SmallNumber(|rest| + 1);
    OrDisjoint(b, value, 8);
    OrCommutes(b, Shl(value, 8));
  }

  lemma PrependByte(b: Byte, rest: seq<Byte>)
    ensures LittleEndian([b] + rest) == b + 0x100 * LittleEndian(rest)
  {
    assert ([b] + rest)[1..] == rest;
  }

  lemma SmallNumber(n: nat)
    requires n <= 8
    ensures Pow2(8 * n) <= WORD_MODULUS
  {
    hide Pow2;
    Powers();
    Pow2Grows(8 * n, 64);
  }
}
