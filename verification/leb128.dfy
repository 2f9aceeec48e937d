/** The LEB128 variable-length integers of section 7.6 of the DWARF Version 5 standard. */
module Leb128 {
  import opened Types
  import opened Bits

  /** The number of bytes of the encoding at `pos`: up to the first one without a continuation bit. */
  function Length(data: seq<Byte>, pos: nat): (n: Option<nat>)
    ensures n.Some? ==> n.value > 0 && pos + n.value <= |data|
    decreases |data| - pos
  {
    if pos >= |data| then None
    else if data[pos] < 128 then Some(1)
    else
      var rest := Length(data, pos + 1);
      if rest.None? then None else Some(rest.value + 1)
  }

  /** The base-128 sum of the low seven bits of every byte. */
  function Unsigned(bytes: seq<Byte>): nat {
    if bytes == [] then 0 else bytes[0] % 128 + 128 * Unsigned(bytes[1..])
  }

  /** The same with bit 6 of the last byte carrying a negative weight. */
  function Signed(bytes: seq<Byte>): int
    requires bytes != []
  {
    var low := bytes[0] % 128;
    if |bytes| == 1 then (if low < 64 then low else low - 128) else low + 128 * Signed(bytes[1..])
  }

  function ToSigned64(u: Address): int {
    if u < 0x8000_0000_0000_0000 then u else u - WORD_MODULUS
  }

  /** What reading at `pos` must give: a 64-bit value and the position after it. */
  function UnsignedAt(data: seq<Byte>, pos: nat): Option<(Address, nat)> {
    var n := Length(data, pos);
    if n.None? then None
    else Some((Unsigned(data[pos..pos + n.value]) % WORD_MODULUS, pos + n.value))
  }

  function SignedAt(data: seq<Byte>, pos: nat): Option<(int, nat)> {
    var n := Length(data, pos);
    if n.None? then None
    else Some((ToSigned64(Signed(data[pos..pos + n.value]) % WORD_MODULUS), pos + n.value))
  }

  // ------------------------------------------------------------------ the canonical encoders

  function EncodeUnsigned(v: nat): (bytes: seq<Byte>)
    ensures bytes != []
  {
    if v < 128 then [v] else [v % 128 + 128] + EncodeUnsigned(v / 128)
  }

  function EncodeSigned(v: int): (bytes: seq<Byte>)
    ensures bytes != []
    decreases if v < 0 then -v else v
  {
    if -64 <= v < 64 then [v % 128] else [v % 128 + 128] + EncodeSigned(v / 128)
  }

  lemma {:induction false} EncodeUnsignedSums(v: nat)
    ensures Unsigned(EncodeUnsigned(v)) == v
  {
    if v >= 128 {
      EncodeUnsignedSums(v / 128);
      assert EncodeUnsigned(v)[1..] == EncodeUnsigned(v / 128);
    } else {
      assert EncodeUnsigned(v)[1..] == [];
    }
  }

  lemma {:induction false} EncodeSignedSums(v: int)
    ensures Signed(EncodeSigned(v)) == v
    decreases if v < 0 then -v else v
  {
    if !(-64 <= v < 64) {
      EncodeSignedSums(v / 128);
      assert EncodeSigned(v)[1..] == EncodeSigned(v / 128);
    }
  }

  /** Only the last byte of an encoding ends it. */
  ghost predicate IsTerminated(bytes: seq<Byte>) {
    && bytes != []
    && bytes[|bytes| - 1] < 128
    && forall i :: 0 <= i < |bytes| - 1 ==> bytes[i] >= 128
  }

  lemma {:induction false} EncodeUnsignedTerminates(v: nat)
    ensures IsTerminated(EncodeUnsigned(v))
  {
    if v >= 128 {
      EncodeUnsignedTerminates(v / 128);
    }
  }

  lemma {:induction false} EncodeSignedTerminates(v: int)
    ensures IsTerminated(EncodeSigned(v))
    decreases if v < 0 then -v else v
  {
    if !(-64 <= v < 64) {
      EncodeSignedTerminates(v / 128);
    }
  }

  /** A terminated sequence, whatever surrounds it, is found whole. */
  lemma {:induction false} LengthOfTerminated(data: seq<Byte>, pos: nat, bytes: seq<Byte>)
    requires IsTerminated(bytes) && pos + |bytes| <= |data| && data[pos..pos + |bytes|] == bytes
    ensures Length(data, pos) == Some(|bytes|)
    decreases |bytes|
  {
    assert data[pos] == bytes[0];
    if |bytes| > 1 {
      assert data[pos + 1..pos + |bytes|] == bytes[1..];
      LengthOfTerminated(data, pos + 1, bytes[1..]);
    }
  }

  /** Reading undoes writing for every 64-bit value, wherever it was written. */
  lemma UnsignedRoundTrip(data: seq<Byte>, pos: nat, v: Address)
    requires var bytes := EncodeUnsigned(v);
      pos + |bytes| <= |data| && data[pos..pos + |bytes|] == bytes
    ensures UnsignedAt(data, pos) == Some((v, pos + |EncodeUnsigned(v)|))
  {
    hide IsTerminated, Length, EncodeUnsigned, Unsigned, Pow2;
    EncodeUnsignedTerminates(v);
    EncodeUnsignedSums(v);
    LengthOfTerminated(data, pos, EncodeUnsigned(v));
  }

  lemma SignedRoundTrip(data: seq<Byte>, pos: nat, v: int)
    requires -0x8000_0000_0000_0000 <= v < 0x8000_0000_0000_0000
    requires var bytes := EncodeSigned(v);
      pos + |bytes| <= |data| && data[pos..pos + |bytes|] == bytes
    ensures SignedAt(data, pos) == Some((v, pos + |EncodeSigned(v)|))
  {
    hide IsTerminated, Length, EncodeSigned, Signed, Pow2;
    EncodeSignedTerminates(v);
    EncodeSignedSums(v);
    LengthOfTerminated(data, pos, EncodeSigned(v));
  }

  // ------------------------------------------------------------------ accumulation

  lemma {:induction false} UnsignedAppends(bytes: seq<Byte>, b: Byte)
    ensures Unsigned(bytes + [b]) == Unsigned(bytes) + Shl(b % 128, 7 * |bytes|)
    ensures Unsigned(bytes) < Pow2(7 * |bytes|)
  {
    if bytes == [] {
      assert bytes + [b] == [b];
      assert [b][1..] == [];
    } else {
      hide Pow2, Shl;
      var rest := bytes[1..];
      UnsignedAppends(rest, b);
      assert (bytes + [b])[1..] == rest + [b];
      SevenBitsUp(b % 128, 7 * |rest|);
    }
  }

  lemma SevenBitsUp(x: nat, shift: nat)
    ensures Shl(x, 7 + shift) == 128 * Shl(x, shift) && Pow2(7 + shift) == 128 * Pow2(shift)
  {
    Pow2Adds(7, shift);
    assert Pow2(7) == 128;
    hide Pow2;
    TimesCommutes(x, 128, Pow2(shift));
  }

  lemma TimesCommutes(x: int, y: int, z: int)
    ensures x * (y * z) == y * (x * z)
  {
  }

  /** The signed reading differs from the unsigned one by the weight of the sign. */
  lemma {:induction false} SignedIsShifted(bytes: seq<Byte>)
    requires bytes != []
    ensures Signed(bytes) == Unsigned(bytes) - if bytes[|bytes| - 1] % 128 >= 64 then Pow2(7 * |bytes|) else 0
  {
    if |bytes| == 1 {
      assert Pow2(7) == 128;
      assert bytes[1..] == [];
    } else {
      hide Pow2;
      SignedIsShifted(bytes[1..]);
      SevenBitsUp(0, 7 * (|bytes| - 1));
    }
  }
}
