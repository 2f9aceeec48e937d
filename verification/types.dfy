/**
 Scalar types shared by every module.

 Addresses and file offsets are 64-bit unsigned in the program.  They are a subset type here, so
 Dafny checks at every assignment that no sum the model stores has wrapped; the few places where the
 program relies on wrap-around reduce modulo WORD_MODULUS explicitly.
 */
module Types {
  const WORD_MODULUS: int := 0x1_0000_0000_0000_0000

  /** No object takes up more than half of the address space. */
  const MAX_OBJECT_SIZE: int := 0x8000_0000_0000_0000

  const INSTRUCTION_SIZE: int := 4

  type Address = a: int | 0 <= a < WORD_MODULUS
  type Byte = b: int | 0 <= b < 256

  const INVALID_ADDRESS: Address := 0xffff_ffff_ffff_ffff

  datatype Option<+T> = None | Some(value: T)
  {
    function GetOr(default: T): T { if Some? then value else default }

    predicate IsFailure() { None? }

    function PropagateFailure<U>(): Option<U>
      requires None?
    {
      None
    }

    function Extract(): T
      requires Some?
    {
      value
    }
  }

  ghost predicate Distinct<T>(xs: seq<T>) { forall i, j :: 0 <= i < j < |xs| ==> xs[i] != xs[j] }

  function Elements<T>(xs: seq<T>): set<T> { set x | x in xs }

  /** Instructions occupy whole words at addresses divisible by their size. */
  predicate Aligned(a: int) { a % 4 == 0 }

  function Min(x: int, y: int): int { if x <= y then x else y }

  function Max(x: int, y: int): int { if x <= y then y else x }
}
