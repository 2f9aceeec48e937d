/** Bitwise or and little-endian byte order on unbounded naturals. */
module Bits {
  import opened Types

  function Pow2(n: nat): (p: nat)
    ensures p >= 1
  {
    if n == 0 then 1 else 2 * Pow2(n - 1)
  }

  /** `|`, bit by bit. */
  function Or(x: nat, y: nat): nat {
    if x == 0 && y == 0 then 0 else 2 * Or(x / 2, y / 2) + Max(x % 2, y % 2)
  }

  lemma {:induction false} OrCommutes(x: nat, y: nat)
    ensures Or(x, y) == Or(y, x)
  {
    if x != 0 || y != 0 {
      OrCommutes(x / 2, y / 2);
    }
  }

  /** `<<`, without truncation. */
  function Shl(x: nat, shift: nat): nat { x * Pow2(shift) }

  /** Or-ing in a value whose low `shift` bits are clear adds it. */
  lemma {:induction false} OrDisjoint(x: nat, k: nat, shift: nat)
    requires x < Pow2(shift)
    ensures Or(x, Shl(k, shift)) == x + Shl(k, shift)
    decreases shift, k
  {
    var y := k * Pow2(shift);
    if shift == 0 {
      assert y == k;
      if k > 0 {
        OrDisjoint(0, k / 2, 0);
      }
    } else {
      assert y == 2 * (k * Pow2(shift - 1)) by {
        assert Pow2(shift) == 2 * Pow2(shift - 1);
      }
      OrDisjoint(x / 2, k, shift - 1);
    }
  }

  lemma {:induction false} Pow2Adds(m: nat, n: nat)
    ensures Pow2(m + n) == Pow2(m) * Pow2(n)
  {
    if m > 0 {
      Pow2Adds(m - 1, n);
    }
  }

  lemma {:induction false} Pow2Grows(m: nat, n: nat)
    requires m <= n
    ensures Pow2(m) <= Pow2(n)
  {
    if m < n {
      Pow2Grows(m, n - 1);
    }
  }

  lemma ByteRange()
    ensures Pow2(8) == 0x100
  {
  }

  lemma Powers()
    ensures Pow2(16) == 0x1_0000 && Pow2(32) == 0x1_0000_0000 && Pow2(64) == WORD_MODULUS
  {
    ByteRange();
    hide Pow2;
    Pow2Adds(8, 8);
    Pow2Adds(16, 16);
    Pow2Adds(32, 32);
  }

  /** Or-ing a byte in above `shift` occupied bits appends it. */
  lemma OrByte(x: nat, b: Byte, shift: nat)
    requires x < Pow2(shift)
    ensures Or(x, Shl(b, shift)) == x + Shl(b, shift) < Pow2(shift + 8)
  {
    hide Or, Shl, Pow2;
    OrDisjoint(x, b, shift);
    ByteAbove(x, b, shift);
  }

  lemma ByteAbove(x: nat, b: Byte, shift: nat)
    requires x < Pow2(shift)
    ensures x + Shl(b, shift) < Pow2(shift + 8)
  {
    Pow2Adds(8, shift);
    assert Pow2(8) == 0x100;
    hide Pow2;
    MulAtMost(b, 0xff, Pow2(shift));
  }

  lemma MulAtMost(x: nat, y: nat, k: nat)
    requires x <= y
    ensures x * k <= y * k
  {
  }

  function LittleEndian(bytes: seq<Byte>): nat {
    if bytes == [] then 0 else bytes[0] + 0x100 * LittleEndian(bytes[1..])
  }

  /** The `n`-byte little-endian form of a value. */
  function ToLittleEndian(value: nat, n: nat): (bytes: seq<Byte>)
    ensures |bytes| == n
  {
    if n == 0 then [] else [value % 0x100] + ToLittleEndian(value / 0x100, n - 1)
  }

  lemma {:induction false} LittleEndianInverse(value: nat, n: nat)
    requires value < Pow2(8 * n)
    ensures LittleEndian(ToLittleEndian(value, n)) == value
  {
    if n > 0 {
      Pow2Adds(8, 8 * (n - 1));
      assert Pow2(8) == 0x100;
      LittleEndianInverse(value / 0x100, n - 1);
      assert ToLittleEndian(value, n)[1..] == ToLittleEndian(value / 0x100, n - 1);
    }
  }

  lemma {:induction false} LittleEndianAppends(a: seq<Byte>, b: seq<Byte>)
    ensures LittleEndian(a + b) == LittleEndian(a) + Shl(LittleEndian(b), 8 * |a|)
  {
    if a == [] {
      assert a + b == b;
    } else {
      assert (a + b)[1..] == a[1..] + b;
      LittleEndianAppends(a[1..], b);
      ByteUp(LittleEndian(b), 8 * |a[1..]|);
    }
  }

  lemma ByteUp(x: nat, shift: nat)
    ensures Shl(x, shift + 8) == 0x100 * Shl(x, shift)
  {
    ByteRange();
    hide Pow2;
    Pow2Adds(shift, 8);
    assert x * (Pow2(shift) * 0x100) == 0x100 * (x * Pow2(shift));
  }

  lemma {:induction false} LittleEndianIsInjective(a: seq<Byte>, b: seq<Byte>)
    requires |a| == |b|
    ensures LittleEndian(a) == LittleEndian(b) <==> a == b
  {
    if a != [] && LittleEndian(a) == LittleEndian(b) {
      LittleEndianIsInjective(a[1..], b[1..]);
      assert a == [a[0]] + a[1..] && b == [b[0]] + b[1..];
    }
  }

  lemma {:induction false} LittleEndianIsZero(b: seq<Byte>)
    ensures LittleEndian(b) == 0 <==> forall i :: 0 <= i < |b| ==> b[i] == 0
  {
    if b != [] {
      var rest := b[1..];
      LittleEndianIsZero(rest);
      assert forall i :: 0 < i < |b| ==> b[i] == rest[i - 1];
    }
  }

  lemma {:induction false} LittleEndianBound(bytes: seq<Byte>)
    ensures LittleEndian(bytes) < Pow2(8 * |bytes|)
  {
    if bytes != [] {
      Pow2Adds(8, 8 * (|bytes| - 1));
      assert Pow2(8) == 0x100;
      LittleEndianBound(bytes[1..]);
    }
  }

  /** Assembling four bytes by shifting and or-ing reads them in little-endian order. */
  lemma OrOfFour(b: seq<Byte>)
    requires |b| >= 4
    ensures Or(Or(Or(b[0], Shl(b[1], 8)), Shl(b[2], 16)), Shl(b[3], 24)) == LittleEndian(b[..4])
  {
    hide *;
    ByteRange();
    OrByte(b[0], b[1], 8);
    OrByte(b[0] + Shl(b[1], 8), b[2], 16);
    OrByte(b[0] + Shl(b[1], 8) + Shl(b[2], 16), b[3], 24);
    LittleEndianOfFour(b[..4]);
  }

  lemma LittleEndianOfFour(b: seq<Byte>)
    requires |b| == 4
    ensures LittleEndian(b) == b[0] + Shl(b[1], 8) + Shl(b[2], 16) + Shl(b[3], 24)
  {
    assert Pow2(8) == 0x100;
    assert Pow2(16) == 0x1_0000 by { Pow2Adds(8, 8); }
    assert Pow2(24) == 0x100_0000 by { Pow2Adds(8, 16); }
    assert b[1..][1..] == b[2..] && b[2..][1..] == b[3..] && b[3..][1..] == [];
    assert LittleEndian(b[3..]) == b[3];
    assert LittleEndian(b[2..]) == b[2] + 0x100 * LittleEndian(b[3..]);
    assert LittleEndian(b[1..]) == b[1] + 0x100 * LittleEndian(b[2..]);
  }

  lemma OrOfTwo(b: seq<Byte>)
    requires |b| >= 2
    ensures Or(b[0], Shl(b[1], 8)) == LittleEndian(b[..2])
  {
    ByteRange();
    assert LittleEndian(b[..2]) == b[0] + Shl(b[1], 8) by {
      assert b[..2][1..] == [b[1]];
      assert [b[1]][1..] == [];
      assert LittleEndian([b[1]]) == b[1];
    }
    hide *;
    OrByte(b[0], b[1], 8);
  }
}
