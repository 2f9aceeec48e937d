/**
 Writing an .eh_frame section, and the proof that walking what was written gives back exactly the function
 ranges that went in.  Entries are in the 32-bit length form, or in the 64-bit one as the program reads it:
 with an 8-byte id, where the standard has a 4-byte one.
 */
module EhFrameLayout {
  import opened Types
  import opened Bits
  import opened Placements
  import opened Leb128
  import opened ByteReaders
  import opened EhFrames
  import opened ElfImages
  import opened EhFrameParsers

  /** One augmentation letter of a CIE with its data. */
  datatype AugItem =
    | FdeEncoding(encoding: Byte)
    | Personality(encoding: Byte, raw: Address)
    | LsdaEncoding(encoding: Byte)
    | SignalFrame

  /** A CIE with z augmentation has items, then letters no reader knows and their data; one without has a
      name of any other kind. */
  datatype Entry =
    | Cie(wide: bool, version: Byte, sizes: seq<Byte>, codeAlign: Address, dataAlign: int, register: Address,
          augmented: bool, items: seq<AugItem>, others: seq<Byte>, otherData: seq<Byte>, instructions: seq<Byte>)
    | Fde(wide: bool, cie: nat, start: Address, size: Address, instructions: seq<Byte>)

  // ------------------------------------------------------------------ bytes at a position

  lemma AtByte(data: seq<Byte>, pos: nat, b: Byte)
    requires At(data, pos, [b])
    ensures ByteAt(data, pos) == Some(b)
  {
    assert data[pos..pos + 1][0] == b;
  }

  lemma {:induction false} AtString(data: seq<Byte>, pos: nat, s: seq<Byte>)
    requires At(data, pos, s + [0]) && forall i :: 0 <= i < |s| ==> s[i] != 0
    ensures StringAt(data, pos) == s && AfterString(data, pos) == pos + |s| + 1
    decreases |s|
  {
    if s == [] {
      AtByte(data, pos, 0);
    } else {
      assert s + [0] == [s[0]] + (s[1..] + [0]);
      AtSplits(data, pos, [s[0]], s[1..] + [0]);
      AtByte(data, pos, s[0]);
      AtString(data, pos + 1, s[1..]);
    }
  }

  // ------------------------------------------------------------------ encoded pointers

  /** The formats of section 10.5.1 of the Linux Standard Base Core Specification. */
  predicate IsFormat(format: Byte) { format in {0x00, 0x01, 0x02, 0x03, 0x04, 0x09, 0x0a, 0x0b, 0x0c} }

  /** The value is one the format can hold: unsigned or signed, of two, four or eight bytes or any number. */
  ghost predicate Fits(format: Byte, raw: Address) {
    match format
    case 0x02 => raw < 0x1_0000
    case 0x03 => raw < 0x1_0000_0000
    case 0x0a => exists i :: -0x8000 <= i < 0x8000 && IsSigned(raw, i)
    case 0x0b => exists i :: -0x8000_0000 <= i < 0x8000_0000 && IsSigned(raw, i)
    case _ => IsFormat(format)
  }

  /** The 64-bit two's complement of `i`. */
  ghost predicate IsSigned(raw: Address, i: int) { raw == if i < 0 then i + WORD_MODULUS else i }

  function EncodeRaw(format: Byte, raw: Address): seq<Byte> {
    match format
    case 0x01 => EncodeUnsigned(raw)
    case 0x09 => EncodeSigned(ToSigned64(raw))
    case 0x02 => ToLittleEndian(raw, 2)
    case 0x0a => ToLittleEndian(raw % 0x1_0000, 2)
    case 0x03 => ToLittleEndian(raw, 4)
    case 0x0b => ToLittleEndian(raw % 0x1_0000_0000, 4)
    case _ => ToLittleEndian(raw, 8)
  }

  /** Widening a stored number to 64 bits keeps its sign. */
  lemma WideningKeepsSign(raw: Address, i: int)
    requires IsSigned(raw, i)
    ensures -0x8000 <= i < 0x8000 ==> Widen16(raw % 0x1_0000) == raw
    ensures -0x8000_0000 <= i < 0x8000_0000 ==> Widen32(raw % 0x1_0000_0000) == raw
  {
  }

  lemma RawRoundTrip(data: seq<Byte>, pos: nat, format: Byte, raw: Address)
    requires Fits(format, raw) && At(data, pos, EncodeRaw(format, raw))
    ensures RawAt(data, pos, format) == Value(raw, pos + |EncodeRaw(format, raw)|)
  {
    hide Pow2, Length, UnsignedAt, SignedAt, NumberAt, ToLittleEndian, EncodeUnsigned, EncodeSigned, At;
    hide Widen16, Widen32, IsSigned;
    Powers();
    match format {
      case 0x01 => AtUnsigned(data, pos, raw);
      case 0x09 => AtSigned(data, pos, ToSigned64(raw));
      case 0x02 => AtNumber(data, pos, raw, 2);
      case 0x0a =>
        var i :| -0x8000 <= i < 0x8000 && IsSigned(raw, i);
        WideningKeepsSign(raw, i);
        AtNumber(data, pos, raw % 0x1_0000, 2);
      case 0x03 => AtNumber(data, pos, raw, 4);
      case 0x0b =>
        var i :| -0x8000_0000 <= i < 0x8000_0000 && IsSigned(raw, i);
        WideningKeepsSign(raw, i);
        AtNumber(data, pos, raw % 0x1_0000_0000, 4);
      case _ => AtNumber(data, pos, raw, 8);
    }
  }

  /** An encoding FDE addresses can use: a direct pointer in a known format. */
  predicate Usable(encoding: Byte) { encoding < 0x80 && IsFormat(encoding % 16) }

  /** What a pointer stored at `pos` is relative to: itself, the section, or nothing. */
  function Origin(encoding: Byte, vaddr: Address, pos: nat): int {
    match encoding / 16 % 8
    case 1 => vaddr + pos
    case 3 => vaddr
    case _ => 0
  }

  /** What is stored at `pos` to mean the address `value`. */
  function Relative(encoding: Byte, vaddr: Address, pos: nat, value: Address): Address {
    (value - Origin(encoding, vaddr, pos)) % WORD_MODULUS
  }

  /** The parts of an encoding byte. */
  lemma EncodingParts(encoding: Byte)
    ensures Format(encoding) == encoding % 16 && (IsIndirect(encoding) <==> encoding >= 0x80)
    ensures forall vaddr: Address, pos: nat :: Base(encoding, vaddr, pos) == Origin(encoding, vaddr, pos) % WORD_MODULUS
  {
    forall vaddr: Address, pos: nat
      ensures Base(encoding, vaddr, pos) == Origin(encoding, vaddr, pos) % WORD_MODULUS
    {
    }
  }

  lemma RelativeCancels(origin: int, value: Address)
    ensures Unsigned64(origin % WORD_MODULUS + (value - origin) % WORD_MODULUS) == value
  {
  }

  lemma PointerRoundTrip(data: seq<Byte>, pos: nat, encoding: Byte, vaddr: Address, applyBase: bool, value: Address)
    requires Usable(encoding)
    requires var raw := if applyBase then Relative(encoding, vaddr, pos, value) else value;
      Fits(encoding % 16, raw) && At(data, pos, EncodeRaw(encoding % 16, raw))
    ensures var raw := if applyBase then Relative(encoding, vaddr, pos, value) else value;
      PointerAt(data, pos, encoding, vaddr, applyBase)
      == Some(Pointer(true, value, pos + |EncodeRaw(encoding % 16, raw)|))
  {
    hide RawAt, EncodeRaw, Fits, Base, Origin, Format, IsIndirect, Unsigned64, At, IsFormat;
    var raw := if applyBase then Relative(encoding, vaddr, pos, value) else value;
    EncodingParts(encoding);
    RawRoundTrip(data, pos, encoding % 16, raw);
    RelativeCancels(Origin(encoding, vaddr, pos), value);
  }

  /** Omitted and indirect pointers and those in no known format give no function, if they can be read. */
  lemma UnusableGivesNothing(data: seq<Byte>, pos: nat, vaddr: Address, encoding: Byte)
    requires !Usable(encoding)
    ensures var fns := FdeFunction(data, pos, vaddr, encoding); fns.None? || fns == Some([])
    ensures encoding == 0xff || !IsFormat(encoding % 16) ==> FdeFunction(data, pos, vaddr, encoding) == Some([])
  {
    EncodingParts(encoding);
    UnknownFormat(data, pos, encoding % 16);
    hide RawAt, Base, Format, IsIndirect, IsFormat;
  }

  lemma UnknownFormat(data: seq<Byte>, pos: nat, format: Byte)
    ensures RawAt(data, pos, format).Unsupported? <==> !IsFormat(format)
  {
    hide UnsignedAt, SignedAt, NumberAt;
  }

  // ------------------------------------------------------------------ CIEs

  function Letter(item: AugItem): Byte {
    match item
    case FdeEncoding(_) => 'R' as int
    case Personality(_, _) => 'P' as int
    case LsdaEncoding(_) => 'L' as int
    case SignalFrame => 'S' as int
  }

  function Letters(items: seq<AugItem>): (s: seq<Byte>)
    ensures |s| == |items|
    ensures forall i :: 0 <= i < |items| ==> s[i] == Letter(items[i])
    ensures forall i :: 0 <= i < |items| ==> s[i] != 0
  {
    seq(|items|, i requires 0 <= i < |items| => Letter(items[i]))
  }

  function Name(cie: Entry): seq<Byte>
    requires cie.Cie?
  {
    (if cie.augmented then ['z' as int] + Letters(cie.items) else []) + cie.others
  }

  /** A personality routine may use any known format, indirect or not, or be omitted. */
  ghost predicate ItemOk(item: AugItem) {
    item.Personality? && item.encoding != 0xff ==>
      IsFormat(item.encoding % 16) && Fits(item.encoding % 16, item.raw)
  }

  function ItemData(item: AugItem): seq<Byte> {
    match item
    case FdeEncoding(e) => [e]
    case Personality(e, raw) => [e] + if e == 0xff then [] else EncodeRaw(e % 16, raw)
    case LsdaEncoding(e) => [e]
    case SignalFrame => []
  }

  function ItemsData(items: seq<AugItem>): seq<Byte> {
    if items == [] then [] else ItemData(items[0]) + ItemsData(items[1..])
  }

  /** The last R wins; without one, plain absolute pointers. */
  function ItemsEncoding(items: seq<AugItem>, encoding: Byte): Byte {
    if items == [] then encoding
    else ItemsEncoding(items[1..], if items[0].FdeEncoding? then items[0].encoding else encoding)
  }

  function EncodingOf(cie: Entry): Byte
    requires cie.Cie?
  {
    if cie.augmented then ItemsEncoding(cie.items, 0x00) else 0x00
  }

  function AddressSizes(cie: Entry): seq<Byte>
    requires cie.Cie?
  {
    if cie.version >= 4 then cie.sizes else []
  }

  function ReturnRegister(cie: Entry): seq<Byte>
    requires cie.Cie?
  {
    if cie.version == 1 then [cie.register % 0x100] else EncodeUnsigned(cie.register)
  }

  /** The fixed fields up to the version-dependent sizes, and then all of them. */
  function NamedFields(cie: Entry): seq<Byte>
    requires cie.Cie?
  {
    [cie.version] + (Name(cie) + [0]) + AddressSizes(cie)
  }

  function AlignedFields(cie: Entry): seq<Byte>
    requires cie.Cie?
  {
    NamedFields(cie) + EncodeUnsigned(cie.codeAlign) + EncodeSigned(cie.dataAlign)
  }

  function CieFields(cie: Entry): seq<Byte>
    requires cie.Cie?
  {
    AlignedFields(cie) + ReturnRegister(cie)
  }

  function CieBody(cie: Entry): seq<Byte>
    requires cie.Cie?
  {
    CieFields(cie) + (Augmentation(cie) + cie.instructions)
  }

  function Augmentation(cie: Entry): seq<Byte>
    requires cie.Cie?
  {
    if !cie.augmented then [] else
      var data := ItemsData(cie.items) + cie.otherData;
      EncodeUnsigned(|data|) + data
  }

  ghost predicate CieOk(cie: Entry)
    requires cie.Cie?
  {
    && |cie.sizes| == 2
    && -0x8000_0000_0000_0000 <= cie.dataAlign < 0x8000_0000_0000_0000
    && (cie.version == 1 ==> cie.register < 0x100)
    && ItemsOk(cie.items)
    && (forall i :: 0 <= i < |cie.others| ==> cie.others[i] != 0)
    && (cie.others != [] ==> IsUnknown(cie, cie.others[0]))
  }

  /** What may stand where the known letters end, or at the start of another kind of name. */
  predicate IsUnknown(cie: Entry, letter: Byte)
    requires cie.Cie?
  {
    if cie.augmented then letter !in {'R' as int, 'P' as int, 'L' as int, 'S' as int} else letter != 'z' as int
  }

  /** The letters from index `k` on spell the items, up to an unknown one. */
  ghost predicate Spells(letters: seq<Byte>, k: nat, items: seq<AugItem>) {
    && k + |items| <= |letters| && (forall i :: 0 <= i < |items| ==> letters[k + i] == Letter(items[i]))
    && (k + |items| < |letters| ==> letters[k + |items|] !in {'R' as int, 'P' as int, 'L' as int, 'S' as int})
  }

  ghost predicate ItemsOk(items: seq<AugItem>) {
    forall i :: 0 <= i < |items| ==> ItemOk(items[i])
  }

  lemma SpellsRest(letters: seq<Byte>, k: nat, items: seq<AugItem>)
    requires Spells(letters, k, items) && ItemsOk(items) && items != []
    ensures letters[k] == Letter(items[0]) && ItemOk(items[0])
    ensures Spells(letters, k + 1, items[1..]) && ItemsOk(items[1..])
  {
    hide Letter, ItemOk;
    forall i | 0 <= i < |items[1..]| ensures letters[k + 1 + i] == Letter(items[1..][i]) {
      assert letters[k + (i + 1)] == Letter(items[i + 1]);
    }
  }

  /** Reading the augmentation data of a run of items gives their encoding and consumes them all. */
  lemma {:induction false} AugmentedRoundTrip(data: seq<Byte>, pos: nat, vaddr: Address, letters: seq<Byte>, k: nat,
                                             items: seq<AugItem>, encoding: Byte)
    requires Spells(letters, k, items) && ItemsOk(items)
    requires At(data, pos, ItemsData(items))
    ensures Augmented(data, pos, vaddr, letters, k, encoding) == Some(ItemsEncoding(items, encoding))
    decreases |items|
  {
    hide Augmented, At, ItemData, ItemOk, Letter, Spells, ItemsOk;
    if items == [] {
      AugmentedDone(data, pos, vaddr, letters, k, items, encoding);
    } else {
      var item, rest := items[0], items[1..];
      SpellsRest(letters, k, items);
      AtSplits(data, pos, ItemData(item), ItemsData(rest));
      LetterInRange(letters, k, items);
      AugmentedStep(data, pos, vaddr, letters, k, item, encoding);
      var e := if item.FdeEncoding? then item.encoding else encoding;
      AugmentedRoundTrip(data, pos + |ItemData(item)|, vaddr, letters, k + 1, rest, e);
    }
  }

  lemma AugmentedDone(data: seq<Byte>, pos: nat, vaddr: Address, letters: seq<Byte>, k: nat,
                      items: seq<AugItem>, encoding: Byte)
    requires Spells(letters, k, items) && items == []
    ensures Augmented(data, pos, vaddr, letters, k, encoding) == Some(encoding)
  {
  }

  lemma LetterInRange(letters: seq<Byte>, k: nat, items: seq<AugItem>)
    requires Spells(letters, k, items) && items != []
    ensures k < |letters|
  {
  }

  lemma AugmentedStep(data: seq<Byte>, pos: nat, vaddr: Address, letters: seq<Byte>, k: nat, item: AugItem,
                      encoding: Byte)
    requires k < |letters| && letters[k] == Letter(item)
    requires ItemOk(item) && At(data, pos, ItemData(item))
    ensures Augmented(data, pos, vaddr, letters, k, encoding) ==
            Augmented(data, pos + |ItemData(item)|, vaddr, letters, k + 1,
                      if item.FdeEncoding? then item.encoding else encoding)
  {
    hide PointerAt, ByteAt, At, ItemOk, ItemData;
    var next := ItemRoundTrip(data, pos, vaddr, item);
    ItemLength(item);
  }

  lemma ItemLength(item: AugItem)
    ensures item.SignalFrame? ==> |ItemData(item)| == 0
    ensures item.FdeEncoding? || item.LsdaEncoding? ==> |ItemData(item)| == 1
  {
  }

  /** What the reader sees of one item, and where it goes on. */
  lemma ItemRoundTrip(data: seq<Byte>, pos: nat, vaddr: Address, item: AugItem) returns (next: nat)
    requires ItemOk(item) && At(data, pos, ItemData(item))
    ensures next == pos + |ItemData(item)|
    ensures !item.SignalFrame? ==> ByteAt(data, pos) == Some(item.encoding)
    ensures item.Personality? ==>
              var p := PointerAt(data, pos + 1, item.encoding, vaddr, true);
              p.Some? && p.value.next == next
  {
    next := pos + |ItemData(item)|;
    hide RawAt, EncodeRaw, Fits, Base, Origin, Format;
    if item.Personality? {
      var tail := if item.encoding == 0xff then [] else EncodeRaw(item.encoding % 16, item.raw);
      AtSplits(data, pos, [item.encoding], tail);
      AtByte(data, pos, item.encoding);
      if item.encoding != 0xff {
        EncodingParts(item.encoding);
        RawRoundTrip(data, pos + 1, item.encoding % 16, item.raw);
      }
    } else if !item.SignalFrame? {
      AtByte(data, pos, item.encoding);
    }
  }

  lemma NamedFieldsRoundTrip(data: seq<Byte>, pos: nat, cie: Entry)
    requires cie.Cie? && CieOk(cie) && At(data, pos, NamedFields(cie))
    ensures ByteAt(data, pos) == Some(cie.version) && StringAt(data, pos + 1) == Name(cie)
    ensures var named := AfterString(data, pos + 1);
      if cie.version >= 4 then ByteAt(data, named).Some? && ByteAt(data, named + 1).Some?
                               && pos + |NamedFields(cie)| == named + 2
      else pos + |NamedFields(cie)| == named
  {
    hide At, StringAt, AfterString, Letters;
    var named := [cie.version] + (Name(cie) + [0]);
    AtSplits(data, pos, named, AddressSizes(cie));
    AtSplits(data, pos, [cie.version], Name(cie) + [0]);
    AtByte(data, pos, cie.version);
    AtString(data, pos + 1, Name(cie));
    if cie.version >= 4 {
      var sizes := cie.sizes;
      assert sizes == [sizes[0]] + [sizes[1]];
      AtSplits(data, pos + |named|, [sizes[0]], [sizes[1]]);
      AtByte(data, pos + |named|, sizes[0]);
      AtByte(data, pos + |named| + 1, sizes[1]);
    }
  }

  lemma CieFieldsRoundTrip(data: seq<Byte>, pos: nat, cie: Entry)
    requires cie.Cie? && CieOk(cie) && At(data, pos, CieFields(cie))
    ensures AfterCieFields(data, pos) == Some(pos + |CieFields(cie)|)
    ensures StringAt(data, pos + 1) == Name(cie)
  {
    hide At, UnsignedAt, SignedAt, StringAt, AfterString, EncodeUnsigned, EncodeSigned, NamedFields, Name, ByteAt;
    var coded := NamedFields(cie) + EncodeUnsigned(cie.codeAlign);
    AtSplits(data, pos, AlignedFields(cie), ReturnRegister(cie));
    AtSplits(data, pos, coded, EncodeSigned(cie.dataAlign));
    AtSplits(data, pos, NamedFields(cie), EncodeUnsigned(cie.codeAlign));
    NamedFieldsRoundTrip(data, pos, cie);
    AtUnsigned(data, pos + |NamedFields(cie)|, cie.codeAlign);
    AtSigned(data, pos + |coded|, cie.dataAlign);
    var at := pos + |AlignedFields(cie)|;
    if cie.version == 1 {
      AtByte(data, at, cie.register % 0x100);
    } else {
      AtUnsigned(data, at, cie.register);
    }
  }

  lemma AtUnsigned(data: seq<Byte>, pos: nat, v: Address)
    requires At(data, pos, EncodeUnsigned(v))
    ensures UnsignedAt(data, pos) == Some((v, pos + |EncodeUnsigned(v)|))
  {
    UnsignedRoundTrip(data, pos, v);
  }

  lemma AtSigned(data: seq<Byte>, pos: nat, v: int)
    requires -0x8000_0000_0000_0000 <= v < 0x8000_0000_0000_0000 && At(data, pos, EncodeSigned(v))
    ensures SignedAt(data, pos) == Some((v, pos + |EncodeSigned(v)|))
  {
    SignedRoundTrip(data, pos, v);
  }

  /** Reading back a CIE gives the encoding its R item states. */
  lemma CieRoundTrip(data: seq<Byte>, pos: nat, vaddr: Address, cie: Entry)
    requires |data| < WORD_MODULUS
    requires cie.Cie? && CieOk(cie) && At(data, pos, CieBody(cie))
    ensures CieEncoding(data, pos, vaddr) == Some(EncodingOf(cie))
  {
    hide Length, UnsignedAt, StringAt, EncodeUnsigned, CieFields, ItemsData, Augmented, Letters, AfterCieFields, At;
    hide Name, Augmentation, IsUnknown, ItemsOk;
    AtSplits(data, pos, CieFields(cie), Augmentation(cie) + cie.instructions);
    var at := pos + |CieFields(cie)|;
    AtSplits(data, at, Augmentation(cie), cie.instructions);
    CieFieldsRoundTrip(data, pos, cie);
    NameStarts(cie);
    if cie.augmented {
      AugmentationRoundTrip(data, at, vaddr, cie);
    }
  }

  lemma NameStarts(cie: Entry)
    requires cie.Cie? && CieOk(cie)
    ensures cie.augmented <==> Name(cie) != [] && Name(cie)[0] == 'z' as int
    ensures forall i :: 0 <= i < |Name(cie)| ==> Name(cie)[i] != 0
    ensures cie.augmented ==> Spells(Name(cie), 1, cie.items)
  {
    hide ItemsOk;
  }

  lemma AugmentationRoundTrip(data: seq<Byte>, at: nat, vaddr: Address, cie: Entry)
    requires |data| < WORD_MODULUS && cie.Cie? && CieOk(cie) && cie.augmented && At(data, at, Augmentation(cie))
    ensures var length := UnsignedAt(data, at);
      && length.Some? && length.value.1 + length.value.0 <= |data|
      && Augmented(data, length.value.1, vaddr, Name(cie), 1, PE_ABSPTR) == Some(EncodingOf(cie))
  {
    NameStarts(cie);
    hide Length, UnsignedAt, EncodeUnsigned, ItemsData, Augmented, At, Name, ItemsEncoding, Spells;
    var more := ItemsData(cie.items) + cie.otherData;
    AtFits(data, at, Augmentation(cie));
    AtSplits(data, at, EncodeUnsigned(|more|), more);
    AtUnsigned(data, at, |more|);
    AtSplits(data, at + |EncodeUnsigned(|more|)|, ItemsData(cie.items), cie.otherData);
    AugmentedRoundTrip(data, at + |EncodeUnsigned(|more|)|, vaddr, Name(cie), 1, cie.items, PE_ABSPTR);
  }

  // ------------------------------------------------------------------ FDEs

  function FdeBody(fde: Entry, vaddr: Address, pos: nat, encoding: Byte): seq<Byte>
    requires fde.Fde?
  {
    EncodeRaw(encoding % 16, Relative(encoding, vaddr, pos, fde.start))
    + EncodeRaw(encoding % 16, fde.size) + fde.instructions
  }

  ghost predicate FdeOk(fde: Entry, vaddr: Address, pos: nat, encoding: Byte)
    requires fde.Fde?
  {
    && Usable(encoding)
    && Fits(encoding % 16, Relative(encoding, vaddr, pos, fde.start))
    && Fits(encoding % 16, fde.size)
  }

  function FunctionsOf(fde: Entry): seq<EhFrameFunction>
    requires fde.Fde?
  {
    if fde.size > 0 then [EhFrameFunction(fde.start, fde.size)] else []
  }

  lemma FdeRoundTrip(data: seq<Byte>, pos: nat, vaddr: Address, encoding: Byte, fde: Entry)
    requires fde.Fde? && FdeOk(fde, vaddr, pos, encoding) && At(data, pos, FdeBody(fde, vaddr, pos, encoding))
    ensures FdeFunction(data, pos, vaddr, encoding) == Some(FunctionsOf(fde))
  {
    hide At, EncodeRaw, Fits, PointerAt, Base, Usable, Relative;
    var begin := EncodeRaw(encoding % 16, Relative(encoding, vaddr, pos, fde.start));
    var range := EncodeRaw(encoding % 16, fde.size);
    AtSplits(data, pos, begin + range, fde.instructions);
    AtSplits(data, pos, begin, range);
    PointerRoundTrip(data, pos, encoding, vaddr, true, fde.start);
    PointerRoundTrip(data, pos + |begin|, encoding, vaddr, false, fde.size);
  }

  // ------------------------------------------------------------------ a section

  function IdOffset(wide: bool): nat { if wide then 12 else 4 }

  function BodyOffset(wide: bool): nat { if wide then 20 else 8 }

  /** What lengths and ids stay below. */
  function FrameLimit(wide: bool): nat { if wide then WORD_MODULUS else 0xffff_ffff }

  /** An entry in either length form. */
  function Frame(wide: bool, id: nat, body: seq<Byte>): seq<Byte> {
    if wide then WideLength(8 + |body|) + (ToLittleEndian(id, 8) + body)
    else ToLittleEndian(4 + |body|, 4) + (ToLittleEndian(id, 4) + body)
  }

  function WideLength(length: nat): seq<Byte> { [0xff, 0xff, 0xff, 0xff] + ToLittleEndian(length, 8) }

  lemma FrameHeader(data: seq<Byte>, pos: nat, wide: bool, id: nat, body: seq<Byte>)
    requires |data| < WORD_MODULUS && At(data, pos, Frame(wide, id, body))
    requires |Frame(wide, id, body)| < FrameLimit(wide) && id < FrameLimit(wide)
    ensures HeaderAt(data, pos) ==
            Some(Header(pos + IdOffset(wide), id, pos + BodyOffset(wide), pos + |Frame(wide, id, body)|))
    ensures At(data, pos + BodyOffset(wide), body)
  {
    hide Pow2, ToLittleEndian, NumberAt, At;
    Powers();
    FrameLength(wide, id, body);
    AtFits(data, pos, Frame(wide, id, body));
    if wide {
      AtSplits(data, pos, WideLength(8 + |body|), ToLittleEndian(id, 8) + body);
      AtSplits(data, pos + 12, ToLittleEndian(id, 8), body);
      AtWideLength(data, pos, 8 + |body|);
      AtNumber(data, pos + 12, id, 8);
    } else {
      AtSplits(data, pos, ToLittleEndian(4 + |body|, 4), ToLittleEndian(id, 4) + body);
      AtSplits(data, pos + 4, ToLittleEndian(id, 4), body);
      AtNumber(data, pos, 4 + |body|, 4);
      AtNumber(data, pos + 4, id, 4);
    }
  }

  lemma MarkerBytes()
    ensures ToLittleEndian(DWARF64_MARKER, 4) == [0xff, 0xff, 0xff, 0xff]
  {
    assert ToLittleEndian(0xff, 1) == [0xff];
    assert ToLittleEndian(0xffff, 2) == [0xff] + ToLittleEndian(0xff, 1);
    assert ToLittleEndian(0xff_ffff, 3) == [0xff] + ToLittleEndian(0xffff, 2);
  }

  lemma AtWideLength(data: seq<Byte>, pos: nat, length: nat)
    requires At(data, pos, WideLength(length)) && length < WORD_MODULUS
    ensures NumberAt(data, pos, 4) == Some(DWARF64_MARKER) && NumberAt(data, pos + 4, 8) == Some(length)
  {
    hide Pow2, ToLittleEndian, NumberAt, At;
    Powers();
    MarkerBytes();
    AtSplits(data, pos, ToLittleEndian(DWARF64_MARKER, 4), ToLittleEndian(length, 8));
    AtNumber(data, pos, DWARF64_MARKER, 4);
    AtNumber(data, pos + 4, length, 8);
  }

  // ------------------------------------------------------------------ the standard's 64-bit form

  /** An entry in the 64-bit length form with the standard's 4-byte id. */
  function StandardWideFrame(id: nat, body: seq<Byte>): seq<Byte> {
    WideLength(4 + |body|) + (ToLittleEndian(id, 4) + body)
  }

  /** The program takes the first four bytes of the body for the upper half of the id. */
  lemma StandardWideHeader(data: seq<Byte>, pos: nat, id: nat, body: seq<Byte>)
    requires |data| < WORD_MODULUS && At(data, pos, StandardWideFrame(id, body))
    requires id <= 0xffff_ffff && |body| >= 4
    ensures HeaderAt(data, pos) ==
            Some(Header(pos + 12, id + 0x1_0000_0000 * LittleEndian(body[..4]), pos + 20, pos + 16 + |body|))
    ensures HeaderAt(data, pos).value.id == 0 <==> id == 0 && body[..4] == [0, 0, 0, 0]
  {
    hide Pow2, ToLittleEndian, LittleEndian, NumberAt, At;
    Powers();
    AtFits(data, pos, StandardWideFrame(id, body));
    AtSplits(data, pos, WideLength(4 + |body|), ToLittleEndian(id, 4) + body);
    AtWideLength(data, pos, 4 + |body|);
    assert ToLittleEndian(id, 4) + body == (ToLittleEndian(id, 4) + body[..4]) + body[4..];
    AtSplits(data, pos + 12, ToLittleEndian(id, 4) + body[..4], body[4..]);
    AtEight(data, pos + 12, id, body[..4]);
    FourZeros(body[..4]);
  }

  lemma AtEight(data: seq<Byte>, pos: nat, id: nat, high: seq<Byte>)
    requires At(data, pos, ToLittleEndian(id, 4) + high) && id <= 0xffff_ffff && |high| == 4
    ensures NumberAt(data, pos, 8) == Some(id + 0x1_0000_0000 * LittleEndian(high))
  {
    hide Pow2, ToLittleEndian, LittleEndian;
    Powers();
    LittleEndianInverse(id, 4);
    LittleEndianAppends(ToLittleEndian(id, 4), high);
  }

  lemma FourZeros(b: seq<Byte>)
    requires |b| == 4
    ensures LittleEndian(b) == 0 <==> b == [0, 0, 0, 0]
  {
    hide LittleEndian;
    LittleEndianIsZero(b);
  }

  /**
   So a CIE in the standard's 64-bit form, whose body starts with its version, is never read as one: the
   walk takes it for an FDE, learns no encoding from it, and goes on behind it.
   */
  lemma StandardWideCieIsMisread(data: seq<Byte>, pos: nat, vaddr: Address, cies: map<nat, Byte>, body: seq<Byte>)
    requires |data| < WORD_MODULUS && At(data, pos, StandardWideFrame(0, body))
    requires |body| >= 4 && body[0] != 0
    ensures var id := 0x1_0000_0000 * LittleEndian(body[..4]);
      var cie := Unsigned64(pos + 12 - id);
      var fns := FdeFunction(data, pos + 20, vaddr, if cie in cies then cies[cie] else PE_ABSPTR);
      && id > 0
      && Walk(data, vaddr, pos, cies) ==
         if fns.None? then [] else fns.value + Walk(data, vaddr, pos + |StandardWideFrame(0, body)|, cies)
  {
    hide HeaderAt, FdeFunction, At, LittleEndian, ToLittleEndian;
    StandardWideHeader(data, pos, 0, body);
    assert body[..4][0] != 0;
  }

  // ------------------------------------------------------------------ entries one after another

  /** The bytes of the first `k` entries, laid out from the start of the section. */
  function Laid(entries: seq<Entry>, vaddr: Address, k: nat): seq<Byte>
    requires k <= |entries|
    decreases k, 0
  {
    if k == 0 then [] else Laid(entries, vaddr, k - 1) + EntryBytes(entries, vaddr, k - 1)
  }

  /** Entry `k` where it lands; an FDE points back at its CIE by distance. */
  function EntryBytes(entries: seq<Entry>, vaddr: Address, k: nat): seq<Byte>
    requires k < |entries|
    decreases k, 2
  {
    var e, pos := entries[k], |Laid(entries, vaddr, k)|;
    if e.Cie? then Frame(e.wide, 0, CieBody(e))
    else if e.cie < k && entries[e.cie].Cie? then
      var body := FdeBody(e, vaddr, pos + BodyOffset(e.wide), EncodingOf(entries[e.cie]));
      Frame(e.wide, Distance(entries, vaddr, k), body)
    else []
  }

  function Distance(entries: seq<Entry>, vaddr: Address, k: nat): nat
    requires k < |entries| && entries[k].Fde? && entries[k].cie < k
    decreases k, 1
  {
    var d := |Laid(entries, vaddr, k)| + IdOffset(entries[k].wide) - |Laid(entries, vaddr, entries[k].cie)|;
    if d < 0 then 0 else d
  }

  /** Every entry can be written: fields in range, FDEs after their CIE in an encoding that can hold
      their address and size, lengths below what their form can state. */
  ghost predicate EntryOk(entries: seq<Entry>, vaddr: Address, k: nat)
    requires k < |entries|
  {
    var e, pos := entries[k], |Laid(entries, vaddr, k)|;
    && |EntryBytes(entries, vaddr, k)| < FrameLimit(e.wide)
    && match e
       case Cie(_, _, _, _, _, _, _, _, _, _, _) => CieOk(e)
       case Fde(_, cie, _, _, _) =>
         && cie < k && entries[cie].Cie?
         && FdeOk(e, vaddr, pos + BodyOffset(e.wide), EncodingOf(entries[cie]))
         && Distance(entries, vaddr, k) < FrameLimit(e.wide)
  }

  ghost predicate WellFormed(entries: seq<Entry>, vaddr: Address) {
    forall k :: 0 <= k < |entries| ==> EntryOk(entries, vaddr, k)
  }

  /** The non-empty ranges of the first `k` entries, in order. */
  function Ranges(entries: seq<Entry>, k: nat): seq<EhFrameFunction>
    requires k <= |entries|
  {
    if k == 0 then [] else
      Ranges(entries, k - 1) + if entries[k - 1].Fde? then FunctionsOf(entries[k - 1]) else []
  }

  lemma {:induction false} RangesAreNonEmpty(entries: seq<Entry>, k: nat)
    requires k <= |entries|
    ensures forall r :: r in Ranges(entries, k) ==> r.size > 0
  {
    if k > 0 {
      RangesAreNonEmpty(entries, k - 1);
    }
  }

  /** What the walk remembers of the CIEs among the first `k` entries. */
  ghost function Remembered(entries: seq<Entry>, vaddr: Address, k: nat): map<nat, Byte>
    requires k <= |entries|
  {
    if k == 0 then map[] else
      var m := Remembered(entries, vaddr, k - 1);
      if entries[k - 1].Cie? then m[|Laid(entries, vaddr, k - 1)| := EncodingOf(entries[k - 1])] else m
  }

  lemma FrameLength(wide: bool, id: nat, body: seq<Byte>)
    ensures |Frame(wide, id, body)| == BodyOffset(wide) + |body|
  {
  }

  /** Entries take up room, so each starts further on than the last. */
  lemma {:induction false} LaidGrows(entries: seq<Entry>, vaddr: Address, j: nat, k: nat)
    requires WellFormed(entries, vaddr) && j <= k <= |entries|
    ensures |Laid(entries, vaddr, j)| + (k - j) <= |Laid(entries, vaddr, k)|
    decreases k
  {
    hide CieBody, FdeBody, Frame, CieOk, FdeOk, Distance;
    if j < k {
      LaidGrows(entries, vaddr, j, k - 1);
      assert EntryOk(entries, vaddr, k - 1);
      EntryTakesRoom(entries, vaddr, k - 1);
    }
  }

  lemma EntryTakesRoom(entries: seq<Entry>, vaddr: Address, k: nat)
    requires k < |entries| && EntryOk(entries, vaddr, k)
    ensures |EntryBytes(entries, vaddr, k)| > 0
  {
    hide CieBody, FdeBody, CieOk, FdeOk, Distance, Laid;
  }

  /** The walk finds the CIE an FDE points back at. */
  lemma {:induction false} CieIsRemembered(entries: seq<Entry>, vaddr: Address, j: nat, k: nat)
    requires WellFormed(entries, vaddr) && j < k <= |entries| && entries[j].Cie?
    ensures var m, at := Remembered(entries, vaddr, k), |Laid(entries, vaddr, j)|;
      at in m && m[at] == EncodingOf(entries[j])
    decreases k
  {
    hide WellFormed, Laid, EncodingOf;
    if j < k - 1 {
      CieIsRemembered(entries, vaddr, j, k - 1);
      LaidGrows(entries, vaddr, j, k - 1);
    }
  }

  lemma {:induction false} LaidSplits(data: seq<Byte>, entries: seq<Entry>, vaddr: Address, k: nat, n: nat)
    requires k < n <= |entries| && At(data, 0, Laid(entries, vaddr, n))
    ensures At(data, |Laid(entries, vaddr, k)|, EntryBytes(entries, vaddr, k))
    decreases n
  {
    hide At, EntryBytes;
    AtSplits(data, 0, Laid(entries, vaddr, n - 1), EntryBytes(entries, vaddr, n - 1));
    if k < n - 1 {
      LaidSplits(data, entries, vaddr, k, n - 1);
    }
  }

  /** Walking one laid-out entry. */
  lemma WalkEntry(data: seq<Byte>, entries: seq<Entry>, vaddr: Address, k: nat)
    requires |data| < WORD_MODULUS && WellFormed(entries, vaddr) && k < |entries|
    requires At(data, |Laid(entries, vaddr, k)|, EntryBytes(entries, vaddr, k))
    ensures Walk(data, vaddr, |Laid(entries, vaddr, k)|, Remembered(entries, vaddr, k)) ==
            (if entries[k].Fde? then FunctionsOf(entries[k]) else [])
            + Walk(data, vaddr, |Laid(entries, vaddr, k + 1)|, Remembered(entries, vaddr, k + 1))
  {
    if entries[k].Cie? {
      WalkCie(data, entries, vaddr, k);
    } else {
      WalkFde(data, entries, vaddr, k);
    }
  }

  lemma WalkCie(data: seq<Byte>, entries: seq<Entry>, vaddr: Address, k: nat)
    requires |data| < WORD_MODULUS && WellFormed(entries, vaddr) && k < |entries| && entries[k].Cie?
    requires At(data, |Laid(entries, vaddr, k)|, EntryBytes(entries, vaddr, k))
    ensures Walk(data, vaddr, |Laid(entries, vaddr, k)|, Remembered(entries, vaddr, k)) ==
            Walk(data, vaddr, |Laid(entries, vaddr, k + 1)|, Remembered(entries, vaddr, k + 1))
  {
    hide *;
    var e, pos := entries[k], |Laid(entries, vaddr, k)|;
    CieLands(entries, vaddr, k);
    FrameHeader(data, pos, e.wide, 0, CieBody(e));
    CieRoundTrip(data, pos + BodyOffset(e.wide), vaddr, e);
    var h := Header(pos + IdOffset(e.wide), 0, pos + BodyOffset(e.wide), pos + |Frame(e.wide, 0, CieBody(e))|);
    WalkPastCie(data, vaddr, pos, Remembered(entries, vaddr, k), h, EncodingOf(e));
  }

  lemma CieLands(entries: seq<Entry>, vaddr: Address, k: nat)
    requires WellFormed(entries, vaddr) && k < |entries| && entries[k].Cie?
    ensures var e, pos := entries[k], |Laid(entries, vaddr, k)|;
      && CieOk(e) && EntryBytes(entries, vaddr, k) == Frame(e.wide, 0, CieBody(e))
      && |Frame(e.wide, 0, CieBody(e))| < FrameLimit(e.wide)
      && |Laid(entries, vaddr, k + 1)| == pos + |Frame(e.wide, 0, CieBody(e))|
      && Remembered(entries, vaddr, k + 1) == Remembered(entries, vaddr, k)[pos := EncodingOf(e)]
    ensures 0 < FrameLimit(entries[k].wide)
  {
    hide Frame, CieBody, CieOk, EncodingOf;
    assert EntryOk(entries, vaddr, k);
  }

  lemma WalkPastCie(data: seq<Byte>, vaddr: Address, pos: nat, cies: map<nat, Byte>, h: Header, encoding: Byte)
    requires HeaderAt(data, pos) == Some(h) && h.id == 0 && CieEncoding(data, h.body, vaddr) == Some(encoding)
    ensures Walk(data, vaddr, pos, cies) == Walk(data, vaddr, h.end, cies[pos := encoding])
  {
    hide CieEncoding;
  }

  lemma WalkFde(data: seq<Byte>, entries: seq<Entry>, vaddr: Address, k: nat)
    requires |data| < WORD_MODULUS && WellFormed(entries, vaddr) && k < |entries| && entries[k].Fde?
    requires At(data, |Laid(entries, vaddr, k)|, EntryBytes(entries, vaddr, k))
    ensures Walk(data, vaddr, |Laid(entries, vaddr, k)|, Remembered(entries, vaddr, k)) ==
            FunctionsOf(entries[k])
            + Walk(data, vaddr, |Laid(entries, vaddr, k + 1)|, Remembered(entries, vaddr, k + 1))
  {
    hide *;
    var e, pos := entries[k], |Laid(entries, vaddr, k)|;
    FdeLands(entries, vaddr, k);
    var encoding, id := EncodingOf(entries[e.cie]), Distance(entries, vaddr, k);
    AtFits(data, pos, EntryBytes(entries, vaddr, k));
    DistanceLeadsBack(data, entries, vaddr, k);
    var body := FdeBody(e, vaddr, pos + BodyOffset(e.wide), encoding);
    FrameHeader(data, pos, e.wide, id, body);
    CieIsRemembered(entries, vaddr, e.cie, k);
    FdeRoundTrip(data, pos + BodyOffset(e.wide), vaddr, encoding, e);
    FdeAddsNoCie(entries, vaddr, k);
    var m := Remembered(entries, vaddr, k);
    var h := Header(pos + IdOffset(e.wide), id, pos + BodyOffset(e.wide), pos + |Frame(e.wide, id, body)|);
    WalkPastFde(data, vaddr, pos, m, h, |Laid(entries, vaddr, e.cie)|, FunctionsOf(e));
  }

  lemma FdeLands(entries: seq<Entry>, vaddr: Address, k: nat)
    requires WellFormed(entries, vaddr) && k < |entries| && entries[k].Fde?
    ensures entries[k].cie < k && entries[entries[k].cie].Cie?
    ensures var e, pos := entries[k], |Laid(entries, vaddr, k)|;
      var encoding, id := EncodingOf(entries[e.cie]), Distance(entries, vaddr, k);
      var body := FdeBody(e, vaddr, pos + BodyOffset(e.wide), encoding);
      && FdeOk(e, vaddr, pos + BodyOffset(e.wide), encoding)
      && EntryBytes(entries, vaddr, k) == Frame(e.wide, id, body)
      && |Frame(e.wide, id, body)| < FrameLimit(e.wide) && id < FrameLimit(e.wide)
      && |Laid(entries, vaddr, k + 1)| == pos + |Frame(e.wide, id, body)|
  {
    hide Frame, FdeBody, FdeOk, EncodingOf, Distance;
    assert EntryOk(entries, vaddr, k);
    var e, pos := entries[k], |Laid(entries, vaddr, k)|;
    var body := FdeBody(e, vaddr, pos + BodyOffset(e.wide), EncodingOf(entries[e.cie]));
    FrameLength(e.wide, Distance(entries, vaddr, k), body);
  }

  lemma DistanceLeadsBack(data: seq<Byte>, entries: seq<Entry>, vaddr: Address, k: nat)
    requires WellFormed(entries, vaddr) && k < |entries| && entries[k].Fde? && entries[k].cie < k
    requires |Laid(entries, vaddr, k)| <= |data| < WORD_MODULUS
    ensures var id, pos := Distance(entries, vaddr, k), |Laid(entries, vaddr, k)|;
      id > 0 && Unsigned64(pos + IdOffset(entries[k].wide) - id) == |Laid(entries, vaddr, entries[k].cie)|
  {
    hide WellFormed, Laid;
    LaidGrows(entries, vaddr, entries[k].cie, k);
  }

  lemma FdeAddsNoCie(entries: seq<Entry>, vaddr: Address, k: nat)
    requires k < |entries| && entries[k].Fde?
    ensures Remembered(entries, vaddr, k + 1) == Remembered(entries, vaddr, k)
  {
  }

  lemma WalkPastFde(data: seq<Byte>, vaddr: Address, pos: nat, cies: map<nat, Byte>, h: Header, cie: nat,
                    fns: seq<EhFrameFunction>)
    requires HeaderAt(data, pos) == Some(h) && h.id > 0 && Unsigned64(h.idPos - h.id) == cie && cie in cies
    requires FdeFunction(data, h.body, vaddr, cies[cie]) == Some(fns)
    ensures Walk(data, vaddr, pos, cies) == fns + Walk(data, vaddr, h.end, cies)
  {
    hide FdeFunction;
  }

  /**
   Walking data that starts with a laid-out section yields exactly the ranges that were written, in
   order, followed by whatever the rest of the data gives.
   */
  lemma {:induction false} WalkUndoesLayout(data: seq<Byte>, entries: seq<Entry>, vaddr: Address, k: nat)
    requires |data| < WORD_MODULUS && WellFormed(entries, vaddr) && k <= |entries|
    requires At(data, 0, Laid(entries, vaddr, k))
    ensures Walk(data, vaddr, 0, map[]) ==
            Ranges(entries, k) + Walk(data, vaddr, |Laid(entries, vaddr, k)|, Remembered(entries, vaddr, k))
    decreases k
  {
    hide At, Walk, WellFormed, EntryBytes, FunctionsOf;
    if k == 0 {
      assert Remembered(entries, vaddr, 0) == map[];
      assert [] + Walk(data, vaddr, 0, map[]) == Walk(data, vaddr, 0, map[]);
    } else {
      LaidSplits(data, entries, vaddr, k - 1, k);
      AtSplits(data, 0, Laid(entries, vaddr, k - 1), EntryBytes(entries, vaddr, k - 1));
      WalkUndoesLayout(data, entries, vaddr, k - 1);
      WalkEntry(data, entries, vaddr, k - 1);
      var here := if entries[k - 1].Fde? then FunctionsOf(entries[k - 1]) else [];
      var rest := Walk(data, vaddr, |Laid(entries, vaddr, k)|, Remembered(entries, vaddr, k));
      assert Ranges(entries, k - 1) + (here + rest) == (Ranges(entries, k - 1) + here) + rest;
    }
  }

  /** The round trip of a whole section: nothing after it, or a terminator and then anything at all. */
  lemma SectionRoundTrip(entries: seq<Entry>, vaddr: Address, tail: seq<Byte>)
    requires WellFormed(entries, vaddr)
    requires var data := Laid(entries, vaddr, |entries|) + tail; |data| < WORD_MODULUS
    requires |tail| < 4 || tail[..4] == [0, 0, 0, 0]
    ensures Walk(Laid(entries, vaddr, |entries|) + tail, vaddr, 0, map[]) == Ranges(entries, |entries|)
  {
    var laid := Laid(entries, vaddr, |entries|);
    var data := laid + tail;
    hide WellFormed, Laid, Ranges;
    WalkUndoesLayout(data, entries, vaddr, |entries|);
    WalkStopsAt(data, vaddr, |laid|, tail, Remembered(entries, vaddr, |entries|));
    assert Ranges(entries, |entries|) + [] == Ranges(entries, |entries|);
  }

  lemma WalkStopsAt(data: seq<Byte>, vaddr: Address, pos: nat, tail: seq<Byte>, cies: map<nat, Byte>)
    requires At(data, pos, tail) && pos + |tail| == |data|
    requires |tail| < 4 || tail[..4] == [0, 0, 0, 0]
    ensures Walk(data, vaddr, pos, cies) == []
  {
    if |tail| >= 4 {
      assert data[pos..pos + 4] == tail[..4];
      assert ToLittleEndian(0, 4) == [0, 0, 0, 0] by {
        assert ToLittleEndian(0, 1) == [0];
        assert ToLittleEndian(0, 2) == [0] + ToLittleEndian(0, 1);
        assert ToLittleEndian(0, 3) == [0] + ToLittleEndian(0, 2);
      }
      AtNumber(data, pos, 0, 4);
    }
  }

  /** Appending arbitrary bytes to a section keeps its ranges as a prefix of what is recovered. */
  lemma AppendedBytesKeepPrefix(entries: seq<Entry>, vaddr: Address, tail: seq<Byte>)
    requires WellFormed(entries, vaddr)
    requires var data := Laid(entries, vaddr, |entries|) + tail; |data| < WORD_MODULUS
    ensures Ranges(entries, |entries|) <= Walk(Laid(entries, vaddr, |entries|) + tail, vaddr, 0, map[])
  {
    var data := Laid(entries, vaddr, |entries|) + tail;
    hide WellFormed, Laid, Ranges, Walk;
    WalkUndoesLayout(data, entries, vaddr, |entries|);
  }

  /** An FDE whose CIE was not seen is read with plain absolute pointers. */
  lemma UnseenCieIsAbsolute(data: seq<Byte>, pos: nat, vaddr: Address, cies: map<nat, Byte>, h: Header)
    requires HeaderAt(data, pos) == Some(h) && h.id > 0 && (h.idPos - h.id) % WORD_MODULUS !in cies
    ensures var fns := FdeFunction(data, h.body, vaddr, 0x00);
      Walk(data, vaddr, pos, cies) == if fns.None? then [] else fns.value + Walk(data, vaddr, h.end, cies)
  {
    hide FdeFunction;
  }

  // ------------------------------------------------------------------ finding the section

  /** The first section named .eh_frame, if the file maps it, is the one that is walked. */
  lemma SectionIsFoundByName(image: ElfImage, i: nat)
    requires i < |image.sections| && image.sections[i].name == ".eh_frame"
    requires forall j :: 0 <= j < i ==> image.sections[j].name != ".eh_frame"
    requires image.sections[i].kind !in {0, 8} && image.Lookup(image.sections[i].address).Some?
    ensures var s := image.sections[i];
      var data := image.Lookup(s.address).value;
      EhFrameBlob(image) == Blob(s.address, if s.size < |data| then data[..s.size] else data)
  {
    hide ElfImage.Lookup, HeaderBlob, PointedBlob;
    FirstNamedAt(image.sections, ".eh_frame", i);
    var data := image.Lookup(image.sections[i].address).value;
    assert data[..|data|] == data;
  }

  /** So is the first section named .eh_frame_hdr the header ... */
  lemma HeaderIsFoundByName(image: ElfImage, i: nat)
    requires i < |image.sections| && image.sections[i].name == ".eh_frame_hdr"
    requires forall j :: 0 <= j < i ==> image.sections[j].name != ".eh_frame_hdr"
    requires image.sections[i].kind !in {0, 8} && image.Lookup(image.sections[i].address).Some?
    ensures var s := image.sections[i];
      var data := image.Lookup(s.address).value;
      HeaderBlob(image) == Blob(s.address, if s.size < |data| then data[..s.size] else data)
  {
    hide ElfImage.Lookup, FirstSegmentBlob;
    FirstNamedAt(image.sections, ".eh_frame_hdr", i);
    var data := image.Lookup(image.sections[i].address).value;
    assert data[..|data|] == data;
  }

  /** ... or else what the first segment of the GNU header type that maps anything does. */
  lemma HeaderIsFoundBySegment(image: ElfImage, i: nat)
    requires forall s :: s in image.sections ==> s.name != ".eh_frame_hdr"
    requires i < |image.segments| && image.segments[i].kind == 0x6474_e550
    requires image.Lookup(image.segments[i].virtualAddress).Some?
    requires forall j :: 0 <= j < i ==>
      image.segments[j].kind != 0x6474_e550 || image.Lookup(image.segments[j].virtualAddress).None?
    ensures var s := image.segments[i];
      var data := image.Lookup(s.virtualAddress).value;
      HeaderBlob(image) == Blob(s.virtualAddress, if s.fileSize < |data| then data[..s.fileSize] else data)
  {
    hide ElfImage.Lookup;
    FirstNamedAt(image.sections, ".eh_frame_hdr", |image.sections|);
    FirstSegmentBlobAt(image, image.segments, i);
    var data := image.Lookup(image.segments[i].virtualAddress).value;
    assert data[..|data|] == data;
  }

  /**
   Without a section of its name, the section is what stands where the header points: its second byte is the
   encoding of the pointer that follows the first four.
   */
  lemma SectionIsFoundByHeader(image: ElfImage, header: seq<Byte>, rest: seq<Byte>, target: Address)
    requires forall s :: s in image.sections ==> s.name != ".eh_frame"
    requires |header| == 4 && Usable(header[1])
    requires var hdr := HeaderBlob(image);
      var raw := Relative(header[1], hdr.vaddr, 4, target);
      Fits(header[1] % 16, raw) && hdr.data == header + (EncodeRaw(header[1] % 16, raw) + rest)
    requires image.Lookup(target).Some?
    ensures EhFrameBlob(image) == Blob(target, image.Lookup(target).value)
  {
    hide ElfImage.Lookup, HeaderBlob, PointerAt, Fits, EncodeRaw, Usable, Relative;
    FirstNamedAt(image.sections, ".eh_frame", |image.sections|);
    var hdr := HeaderBlob(image);
    var raw := Relative(header[1], hdr.vaddr, 4, target);
    assert At(hdr.data, 0, header + (EncodeRaw(header[1] % 16, raw) + rest));
    AtSplits(hdr.data, 0, header, EncodeRaw(header[1] % 16, raw) + rest);
    AtSplits(hdr.data, 4, EncodeRaw(header[1] % 16, raw), rest);
    PointerRoundTrip(hdr.data, 4, header[1], hdr.vaddr, true, target);
    assert hdr.data[1] == header[1];
  }
}
