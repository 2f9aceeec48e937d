/**
 What walking an .eh_frame section yields, as a function of its bytes and load address.

 The layout is that of section 10.6.1 of the Linux Standard Base Core Specification.  None stands for
 the overrun exception that ends a walk early, with whatever was recovered before it.
 */
module EhFrames {
  import opened Types
  import opened Leb128
  import opened ByteReaders

  const PE_OMIT: Byte := 0xff
  const PE_ABSPTR: Byte := 0x00
  const PE_ULEB128: Byte := 0x01
  const PE_UDATA2: Byte := 0x02
  const PE_UDATA4: Byte := 0x03
  const PE_UDATA8: Byte := 0x04
  const PE_SLEB128: Byte := 0x09
  const PE_SDATA2: Byte := 0x0a
  const PE_SDATA4: Byte := 0x0b
  const PE_SDATA8: Byte := 0x0c
  const PE_ABSOLUTE: Byte := 0x00
  const PE_PCREL: Byte := 0x10
  const PE_DATAREL: Byte := 0x30
  const DWARF64_MARKER := 0xffff_ffff

  const AUG_Z: Byte := 0x7a
  const AUG_R: Byte := 0x52
  const AUG_P: Byte := 0x50
  const AUG_L: Byte := 0x4c
  const AUG_S: Byte := 0x53

  datatype EhFrameFunction = EhFrameFunction(start: Address, size: Address)

  // ------------------------------------------------------------------ encoded pointers

  /** The low four bits, bits 4 to 6, and the top bit of a pointer encoding. */
  function Format(encoding: Byte): Byte { encoding % 16 }

  function Application(encoding: Byte): Byte { encoding / 16 % 8 * 16 }

  predicate IsIndirect(encoding: Byte) { encoding >= 128 }

  /** Widening a `bits`-bit two's complement number to 64 bits. */
  function Widen16(v: nat): Address
    requires v < 0x1_0000
  {
    if v < 0x8000 then v else v + 0xffff_ffff_ffff_0000
  }

  function Widen32(v: nat): Address
    requires v < 0x1_0000_0000
  {
    if v < 0x8000_0000 then v else v + 0xffff_ffff_0000_0000
  }

  function Unsigned64(v: int): Address { v % WORD_MODULUS }

  datatype Raw = Overrun | Unsupported | Value(raw: Address, next: nat)

  function Sized(read: Option<nat>, next: nat): Raw {
    if read.None? then Overrun else Value(Unsigned64(read.value), next)
  }

  /** The stored number of a format, before any base is applied. */
  function RawAt(data: seq<Byte>, pos: nat, format: Byte): Raw {
    if format == PE_ABSPTR || format == PE_UDATA8 || format == PE_SDATA8 then Sized(NumberAt(data, pos, 8), pos + 8)
    else if format == PE_ULEB128 then
      var read := UnsignedAt(data, pos);
      if read.None? then Overrun else Value(read.value.0, read.value.1)
    else if format == PE_UDATA2 then Sized(NumberAt(data, pos, 2), pos + 2)
    else if format == PE_UDATA4 then Sized(NumberAt(data, pos, 4), pos + 4)
    else if format == PE_SLEB128 then
      var read := SignedAt(data, pos);
      if read.None? then Overrun else Value(Unsigned64(read.value.0), read.value.1)
    else if format == PE_SDATA2 then
      var read := NumberAt(data, pos, 2);
      if read.None? then Overrun else Value(Widen16(read.value % 0x1_0000), pos + 2)
    else if format == PE_SDATA4 then
      var read := NumberAt(data, pos, 4);
      if read.None? then Overrun else Value(Widen32(read.value % 0x1_0000_0000), pos + 4)
    else Unsupported
  }

  /** What an encoded pointer is relative to. */
  function Base(encoding: Byte, vaddr: Address, fieldPos: nat): Address {
    if Application(encoding) == PE_PCREL then Unsigned64(vaddr + fieldPos)
    else if Application(encoding) == PE_DATAREL then vaddr
    else 0
  }

  /** A decoded pointer: whether it is usable, its value, and where reading goes on. */
  datatype Pointer = Pointer(usable: bool, value: Address, next: nat)

  function PointerAt(data: seq<Byte>, pos: nat, encoding: Byte, vaddr: Address, applyBase: bool): Option<Pointer> {
    if encoding == PE_OMIT then Some(Pointer(false, 0, pos)) else
      match RawAt(data, pos, Format(encoding))
      case Overrun => None
      case Unsupported => Some(Pointer(false, 0, pos))
      case Value(raw, next) =>
        if IsIndirect(encoding) then Some(Pointer(false, 0, next))
        else if !applyBase then Some(Pointer(true, raw, next))
        else Some(Pointer(true, Unsigned64(Base(encoding, vaddr, pos) + raw), next))
  }

  // ------------------------------------------------------------------ entries

  function ByteAt(data: seq<Byte>, pos: nat): Option<Byte> {
    if pos < |data| then Some(data[pos]) else None
  }

  /** The FDE pointer encoding the augmentation letters from index `k` on settle on. */
  function Augmented(data: seq<Byte>, pos: nat, vaddr: Address, letters: seq<Byte>, k: nat,
                     encoding: Byte): Option<Byte>
    decreases |letters| - k
  {
    if k >= |letters| then Some(encoding)
    else if letters[k] == AUG_R then
      var e :- ByteAt(data, pos);
      Augmented(data, pos + 1, vaddr, letters, k + 1, e)
    else if letters[k] == AUG_P then
      var e :- ByteAt(data, pos);
      var personality :- PointerAt(data, pos + 1, e, vaddr, true);
      Augmented(data, personality.next, vaddr, letters, k + 1, encoding)
    else if letters[k] == AUG_L then
      var _ :- ByteAt(data, pos);
      Augmented(data, pos + 1, vaddr, letters, k + 1, encoding)
    else if letters[k] == AUG_S then Augmented(data, pos, vaddr, letters, k + 1, encoding)
    else Some(encoding)
  }

  /** The position after the fixed fields of a CIE that starts, past its id, at `pos`. */
  function AfterCieFields(data: seq<Byte>, pos: nat): Option<nat> {
    var version :- ByteAt(data, pos);
    var named := AfterString(data, pos + 1);
    var _ :- if version >= 4 then ByteAt(data, named) else Some(0);
    var _ :- if version >= 4 then ByteAt(data, named + 1) else Some(0);
    var codeAlign :- UnsignedAt(data, if version >= 4 then named + 2 else named);
    var dataAlign :- SignedAt(data, codeAlign.1);
    if version == 1 then
      var _ :- ByteAt(data, dataAlign.1);
      Some(dataAlign.1 + 1)
    else
      var register :- UnsignedAt(data, dataAlign.1);
      Some(register.1)
  }

  /** The encoding a CIE gives its FDEs. */
  function CieEncoding(data: seq<Byte>, pos: nat, vaddr: Address): Option<Byte> {
    var after :- AfterCieFields(data, pos);
    var letters := StringAt(data, pos + 1);
    if letters == [] || letters[0] != AUG_Z then Some(PE_ABSPTR) else
      var length :- UnsignedAt(data, after);
      var encoding :- Augmented(data, length.1, vaddr, letters, 1, PE_ABSPTR);
      if Unsigned64(length.1 + length.0) > |data| then None else Some(encoding)
  }

  /** The function range an FDE states: none when a pointer is unusable or the range is empty. */
  function FdeFunction(data: seq<Byte>, pos: nat, vaddr: Address, encoding: Byte): Option<seq<EhFrameFunction>> {
    var begin :- PointerAt(data, pos, encoding, vaddr, true);
    if !begin.usable then Some([]) else
      var range :- PointerAt(data, begin.next, encoding, vaddr, false);
      Some(if range.usable && range.value > 0 then [EhFrameFunction(begin.value, range.value)] else [])
  }

  /** Where an entry's id field is, where it ends, and the id, when its length is plausible. */
  datatype Header = Header(idPos: nat, id: nat, body: nat, end: nat)

  function HeaderAt(data: seq<Byte>, pos: nat): Option<Header> {
    var short :- NumberAt(data, pos, 4);
    var dwarf64 := short == DWARF64_MARKER;
    var length :- if dwarf64 then NumberAt(data, pos + 4, 8) else Some(short);
    var idPos := if dwarf64 then pos + 12 else pos + 4;
    var end := Unsigned64(idPos + length);
    if length == 0 || length > |data| || end > |data| || end < idPos then None else
      var id :- NumberAt(data, idPos, if dwarf64 then 8 else 4);
      Some(Header(idPos, id, if dwarf64 then idPos + 8 else idPos + 4, end))
  }

  /** The functions of the entries from `pos` on, given the encodings of the CIEs before it. */
  function Walk(data: seq<Byte>, vaddr: Address, pos: nat, cies: map<nat, Byte>): seq<EhFrameFunction>
    decreases |data| - pos
  {
    var header := HeaderAt(data, pos);
    if header.None? then [] else
      var h := header.value;
      if h.id == 0 then
        var encoding := CieEncoding(data, h.body, vaddr);
        if encoding.None? then [] else Walk(data, vaddr, h.end, cies[pos := encoding.value])
      else
        var cie := Unsigned64(h.idPos - h.id);
        var fns := FdeFunction(data, h.body, vaddr, if cie in cies then cies[cie] else PE_ABSPTR);
        if fns.None? then [] else fns.value + Walk(data, vaddr, h.end, cies)
  }
}
