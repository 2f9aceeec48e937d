/** The .eh_frame parser: a reader walked over CIEs and FDEs. */
module EhFrameParsers {
  import opened Types
  import opened Bits
  import opened Leb128
  import opened ByteReaders
  import opened EhFrames
  import opened ElfImages

  const SEC_EH_FRAME := ".eh_frame"
  const SEC_EH_FRAME_HDR := ".eh_frame_hdr"
  const PT_GNU_EH_FRAME := 0x6474_e550
  const EH_FRAME_HDR_PROLOGUE := 4

  /** The bytes of a section and the address they are loaded at; no bytes when there is no section. */
  datatype Blob = Blob(vaddr: Address, data: seq<Byte>)

  const NO_BLOB := Blob(0, [])

  // ------------------------------------------------------------------ where the section is

  /** The mapped bytes of the section of that name. */
  function NamedBlob(image: ElfImage, name: string): Option<Blob> {
    var s :- FirstNamed(image.sections, name);
    if !s.HasFileData() then None else
      var data :- image.Lookup(s.address);
      Some(Blob(s.address, data[..Min(s.size, |data|)]))
  }

  function SegmentBlob(image: ElfImage, s: ElfSegment): Option<Blob> {
    if s.kind != PT_GNU_EH_FRAME then None else
      var data :- image.Lookup(s.virtualAddress);
      Some(Blob(s.virtualAddress, data[..Min(s.fileSize, |data|)]))
  }

  /** What the first header segment with any bytes maps. */
  function FirstSegmentBlob(image: ElfImage, segments: seq<ElfSegment>): Option<Blob> {
    if segments == [] then None else
      var first := SegmentBlob(image, segments[0]);
      if first.Some? then first else FirstSegmentBlob(image, segments[1..])
  }

  /** The .eh_frame_hdr, by name or by segment type. */
  function HeaderBlob(image: ElfImage): Blob {
    NamedBlob(image, SEC_EH_FRAME_HDR).GetOr(FirstSegmentBlob(image, image.segments).GetOr(NO_BLOB))
  }

  /** Everything mapped from where a header points on. */
  function PointedBlob(image: ElfImage, header: Blob): Option<Blob> {
    if |header.data| < EH_FRAME_HDR_PROLOGUE then None else
      var p :- PointerAt(header.data, EH_FRAME_HDR_PROLOGUE, header.data[1], header.vaddr, true);
      if !p.usable then None else
        var data :- image.Lookup(p.value);
        Some(Blob(p.value, data))
  }

  /** The .eh_frame itself: by name, or else by the pointer in its header. */
  function EhFrameBlob(image: ElfImage): Blob {
    NamedBlob(image, SEC_EH_FRAME).GetOr(PointedBlob(image, HeaderBlob(image)).GetOr(NO_BLOB))
  }

  lemma {:induction false} FirstSegmentBlobAt(image: ElfImage, segments: seq<ElfSegment>, i: nat)
    requires i <= |segments|
    requires forall j :: 0 <= j < i ==> SegmentBlob(image, segments[j]).None?
    requires i < |segments| ==> SegmentBlob(image, segments[i]).Some?
    ensures FirstSegmentBlob(image, segments) == if i < |segments| then SegmentBlob(image, segments[i]) else None
  {
    hide SegmentBlob;
    if i > 0 {
      FirstSegmentBlobAt(image, segments[1..], i - 1);
    }
  }

  lemma BlobIsSmall(image: ElfImage)
    requires image.NoWrap()
    ensures |HeaderBlob(image).data| < WORD_MODULUS && |EhFrameBlob(image).data| < WORD_MODULUS
  {
    hide PointerAt, FirstNamed, ElfImage.Lookup, ElfImage.NoWrap;
    forall a: Address ensures image.Lookup(a).Some? ==> |image.Lookup(a).value| < MAX_OBJECT_SIZE {
      image.LookupIsSmall(a);
    }
    SegmentBlobIsSmall(image, image.segments);
  }

  lemma {:induction false} SegmentBlobIsSmall(image: ElfImage, segments: seq<ElfSegment>)
    requires image.NoWrap()
    ensures var b := FirstSegmentBlob(image, segments); b.Some? ==> |b.value.data| < MAX_OBJECT_SIZE
  {
    hide ElfImage.Lookup;
    if segments != [] {
      image.LookupIsSmall(segments[0].virtualAddress);
      SegmentBlobIsSmall(image, segments[1..]);
    }
  }

  // ------------------------------------------------------------------ the parser

  lemma NumberBound(data: seq<Byte>, pos: nat, n: nat)
    requires n <= 8
    ensures NumberAt(data, pos, n).Some? ==> NumberAt(data, pos, n).value < Pow2(8 * n) <= WORD_MODULUS
  {
    if pos + n <= |data| {
      LittleEndianBound(data[pos..pos + n]);
      SmallNumber(n);
    }
  }

  lemma NumberBounds(data: seq<Byte>, pos: nat)
    ensures NumberAt(data, pos, 2).Some? ==> NumberAt(data, pos, 2).value < 0x1_0000
    ensures NumberAt(data, pos, 4).Some? ==> NumberAt(data, pos, 4).value < 0x1_0000_0000
    ensures NumberAt(data, pos, 8).Some? ==> NumberAt(data, pos, 8).value < WORD_MODULUS
  {
    NumberBound(data, pos, 2);
    NumberBound(data, pos, 4);
    NumberBound(data, pos, 8);
    ByteRange();
    hide Pow2, LittleEndian;
    Pow2Adds(8, 8);
    Pow2Adds(16, 16);
  }

  class EhFrameParser {
    const image: ElfImage

    constructor (image: ElfImage)
      ensures this.image == image
    {
      this.image := image;
    }

    method LocateNamed(name: string) returns (blob: Option<Blob>)
      requires image.NoWrap()
      ensures blob == NamedBlob(image, name)
    {
      var section := image.FindSection(name);
      if section.None? || !section.value.HasFileData() {
        return None;
      }
      var data := image.DataAt(section.value.address);
      if data.None? {
        return None;
      }
      var size := Min(section.value.size, |data.value|);
      return Some(Blob(section.value.address, data.value[..size]));
    }

    /** The .eh_frame_hdr section, or the first segment of its type that maps anything. */
    method LocateEhFrameHdr() returns (blob: Blob)
      requires image.NoWrap()
      ensures blob == HeaderBlob(image)
    {
      hide NamedBlob, ElfImage.Lookup;
      var named := LocateNamed(SEC_EH_FRAME_HDR);
      if named.Some? {
        return named.value;
      }
      for i := 0 to |image.segments|
        invariant forall j :: 0 <= j < i ==> SegmentBlob(image, image.segments[j]).None?
      {
        var segment := image.segments[i];
        if segment.kind != PT_GNU_EH_FRAME {
          continue;
        }
        var data := image.DataAt(segment.virtualAddress);
        if data.Some? {
          FirstSegmentBlobAt(image, image.segments, i);
          var size := Min(segment.fileSize, |data.value|);
          return Blob(segment.virtualAddress, data.value[..size]);
        }
      }
      FirstSegmentBlobAt(image, image.segments, |image.segments|);
      return NO_BLOB;
    }

    /** The .eh_frame section, or what the header's pointer leads to. */
    method LocateEhFrame(header: Blob) returns (blob: Blob)
      requires image.NoWrap() && |header.data| < WORD_MODULUS
      ensures blob == NamedBlob(image, SEC_EH_FRAME).GetOr(PointedBlob(image, header).GetOr(NO_BLOB))
    {
      hide NamedBlob, ElfImage.Lookup, PointerAt;
      var named := LocateNamed(SEC_EH_FRAME);
      if named.Some? {
        return named.value;
      }
      if |header.data| < EH_FRAME_HDR_PROLOGUE {
        return NO_BLOB;
      }
      var reader := new ByteReader(header.data);
      var _ := reader.ReadU8();
      var encoding := reader.ReadU8();
      var _ := reader.ReadU8();
      var _ := reader.ReadU8();
      var pointer := DecodePointer(reader, encoding.value, header.vaddr, true);
      if pointer.None? || !pointer.value.0 {
        return NO_BLOB;
      }
      var data := image.DataAt(pointer.value.1);
      return if data.Some? then Blob(pointer.value.1, data.value) else NO_BLOB;
    }

    /** Read the stored number of a pointer format. */
    method ReadRaw(reader: ByteReader, format: Byte) returns (r: Raw)
      requires reader.Valid()
      modifies reader`position
      ensures reader.Valid()
      ensures r == RawAt(reader.data, old(reader.position), format)
      ensures reader.position == match r case Value(_, next) => next case Unsupported => old(reader.position)
                                        case Overrun => reader.position
    {
      hide UnsignedAt, SignedAt, LittleEndian;
      NumberBounds(reader.data, reader.position);
      var read: Option<nat>;
      if format == PE_ABSPTR || format == PE_UDATA8 || format == PE_SDATA8 {
        read := reader.ReadU64();
      } else if format == PE_ULEB128 {
        read := reader.ReadUleb128();
      } else if format == PE_UDATA2 {
        read := reader.ReadU16();
      } else if format == PE_UDATA4 {
        read := reader.ReadU32();
      } else if format == PE_SLEB128 {
        var signed := reader.ReadSleb128();
        read := if signed.None? then None else Some(Unsigned64(signed.value));
      } else if format == PE_SDATA2 {
        var short := reader.ReadU16();
        read := if short.None? then None else Some(Widen16(short.value));
      } else if format == PE_SDATA4 {
        var word := reader.ReadU32();
        read := if word.None? then None else Some(Widen32(word.value));
      } else {
        return Unsupported;
      }
      if read.None? {
        return Overrun;
      }
      return Value(read.value, reader.position);
    }

    /** Read an encoded pointer: None on an overrun, else whether it is usable and its value. */
    method DecodePointer(reader: ByteReader, encoding: Byte, vaddr: Address, applyBase: bool)
      returns (r: Option<(bool, Address)>)
      requires reader.Valid()
      modifies reader`position
      ensures reader.Valid()
      ensures var p := PointerAt(reader.data, old(reader.position), encoding, vaddr, applyBase);
        if p.None? then r.None?
        else r == Some((p.value.usable, p.value.value)) && reader.position == p.value.next
    {
      hide RawAt;
      if encoding == PE_OMIT {
        return Some((false, 0));
      }
      var application := Application(encoding);
      var fieldPos: Address := reader.position;
      var read := ReadRaw(reader, Format(encoding));
      if read.Overrun? {
        return None;
      }
      if read.Unsupported? {
        return Some((false, 0));
      }
      if IsIndirect(encoding) {
        return Some((false, 0));
      }
      if !applyBase {
        return Some((true, read.raw));
      }
      var base: Address := 0;
      if application == PE_PCREL {
        base := Unsigned64(vaddr + fieldPos);
      } else if application == PE_DATAREL {
        base := vaddr;
      }
      return Some((true, Unsigned64(base + read.raw)));
    }

    /** Read the augmentation data that the letters announce. */
    method ReadAugmentation(reader: ByteReader, vaddr: Address, letters: seq<Byte>) returns (r: Option<Byte>)
      requires reader.Valid() && letters != []
      modifies reader`position
      ensures reader.Valid()
      ensures r == Augmented(reader.data, old(reader.position), vaddr, letters, 1, PE_ABSPTR)
    {
      hide PointerAt;
      var encoding := PE_ABSPTR;
      for k := 1 to |letters|
        invariant reader.Valid()
        invariant Augmented(reader.data, reader.position, vaddr, letters, k, encoding)
                  == Augmented(reader.data, old(reader.position), vaddr, letters, 1, PE_ABSPTR)
      {
        var a := letters[k];
        if a == AUG_R {
          var e := reader.ReadU8();
          if e.None? { return None; }
          encoding := e.value;
        } else if a == AUG_P {
          var e := reader.ReadU8();
          if e.None? { return None; }
          var ignored := DecodePointer(reader, e.value, vaddr, true);
          if ignored.None? { return None; }
        } else if a == AUG_L {
          var e := reader.ReadU8();
          if e.None? { return None; }
        } else if a == AUG_S {
        } else {
          return Some(encoding);
        }
      }
      return Some(encoding);
    }

    /** Read a CIE past its id: the encoding its FDEs use. */
    method ReadCie(reader: ByteReader, vaddr: Address) returns (r: Option<Byte>)
      requires reader.Valid()
      modifies reader`position
      ensures reader.Valid()
      ensures r == CieEncoding(reader.data, old(reader.position), vaddr)
    {
      hide UnsignedAt, SignedAt, StringAt, Augmented;
      var version := reader.ReadU8();
      if version.None? { return None; }
      var letters := reader.ReadCString();
      if version.value >= 4 {
        var addressSize := reader.ReadU8();
        if addressSize.None? { return None; }
        var segmentSize := reader.ReadU8();
        if segmentSize.None? { return None; }
      }
      var codeAlign := reader.ReadUleb128();
      if codeAlign.None? { return None; }
      var dataAlign := reader.ReadSleb128();
      if dataAlign.None? { return None; }
      if version.value == 1 {
        var register := reader.ReadU8();
        if register.None? { return None; }
      } else {
        var register := reader.ReadUleb128();
        if register.None? { return None; }
      }
      var encoding := PE_ABSPTR;
      if letters != [] && letters[0] == AUG_Z {
        var length := reader.ReadUleb128();
        if length.None? { return None; }
        var augEnd := Unsigned64(reader.position + length.value);
        var found := ReadAugmentation(reader, vaddr, letters);
        if found.None? { return None; }
        encoding := found.value;
        var ok := reader.Seek(augEnd);
        if !ok { return None; }
      }
      return Some(encoding);
    }

    /** Read an FDE past its id: the function it describes, if any. */
    method ReadFde(reader: ByteReader, vaddr: Address, encoding: Byte) returns (r: Option<seq<EhFrameFunction>>)
      requires reader.Valid()
      modifies reader`position
      ensures reader.Valid()
      ensures r == FdeFunction(reader.data, old(reader.position), vaddr, encoding)
    {
      hide PointerAt;
      var begin := DecodePointer(reader, encoding, vaddr, true);
      if begin.None? { return None; }
      if !begin.value.0 {
        return Some([]);
      }
      var range := DecodePointer(reader, encoding, vaddr, false);
      if range.None? { return None; }
      if range.value.0 && range.value.1 > 0 {
        return Some([EhFrameFunction(begin.value.1, range.value.1)]);
      }
      return Some([]);
    }

    /** Read an entry's length and id; None when the walk must stop here. */
    method ReadHeader(reader: ByteReader) returns (r: Option<Header>)
      requires reader.Valid()
      modifies reader`position
      ensures reader.Valid()
      ensures r == HeaderAt(reader.data, old(reader.position))
      ensures r.Some? ==> reader.position == r.value.body
    {
      hide LittleEndian;
      if |reader.data| - reader.position < 4 {
        return None;
      }
      NumberBounds(reader.data, reader.position);
      var short := reader.ReadU32();
      var length: Address := short.value;
      var dwarf64 := false;
      if length == DWARF64_MARKER {
        NumberBounds(reader.data, reader.position);
        var long := reader.ReadU64();
        if long.None? { return None; }
        length := long.value;
        dwarf64 := true;
      }
      if length == 0 {
        return None;
      }
      var idPos := reader.position;
      var end := Unsigned64(idPos + length);
      if length > |reader.data| || end > |reader.data| || end < idPos {
        return None;
      }
      var id: Option<nat>;
      if dwarf64 {
        id := reader.ReadU64();
      } else {
        id := reader.ReadU32();
      }
      if id.None? { return None; }
      return Some(Header(idPos, id.value, reader.position, end));
    }

    /** The function ranges of the section, in order, up to the first entry that cannot be read. */
    method Parse() returns (functions: seq<EhFrameFunction>)
      requires image.NoWrap()
      ensures var blob := EhFrameBlob(image); functions == Walk(blob.data, blob.vaddr, 0, map[])
    {
      hide HeaderAt, CieEncoding, FdeFunction, HeaderBlob, NamedBlob, PointedBlob;
      BlobIsSmall(image);
      var header := LocateEhFrameHdr();
      var blob := LocateEhFrame(header);
      assert blob == EhFrameBlob(image);
      hide EhFrameBlob, ElfImage.NoWrap;
      functions := WalkEntries(blob.data, blob.vaddr);
    }

    /** The walk over CIEs and FDEs. */
    method WalkEntries(data: seq<Byte>, vaddr: Address) returns (functions: seq<EhFrameFunction>)
      requires |data| < WORD_MODULUS
      ensures functions == Walk(data, vaddr, 0, map[])
    {
      hide HeaderAt, CieEncoding, FdeFunction;
      functions := [];
      if data == [] {
        NothingToWalk(vaddr);
        return;
      }
      ghost var all := Walk(data, vaddr, 0, map[]);
      assert [] + all == all;
      var cieEncoding: map<nat, Byte> := map[];
      var reader := new ByteReader(data);
      while true
        invariant reader.Valid() && reader.data == data && fresh(reader)
        invariant functions + Walk(data, vaddr, reader.position, cieEncoding) == all
        decreases |data| - reader.position
      {
        var entryStart := reader.position;
        var header := ReadHeader(reader);
        if header.None? {
          assert functions + [] == functions;
          return;
        }
        HeaderAdvances(data, entryStart);
        var h := header.value;
        if h.id == 0 {
          var encoding := ReadCie(reader, vaddr);
          if encoding.None? {
            assert functions + [] == functions;
            return;
          }
          cieEncoding := cieEncoding[entryStart := encoding.value];
        } else {
          var cieStart: nat := Unsigned64(h.idPos - h.id);
          var encoding := if cieStart in cieEncoding then cieEncoding[cieStart] else PE_ABSPTR;
          var fns := ReadFde(reader, vaddr, encoding);
          if fns.None? {
            assert functions + [] == functions;
            return;
          }
          ghost var rest := Walk(data, vaddr, h.end, cieEncoding);
          assert (functions + fns.value) + rest == functions + (fns.value + rest);
          functions := functions + fns.value;
        }
        var _ := reader.Seek(h.end);
      }
    }
  }

  lemma NothingToWalk(vaddr: Address)
    ensures Walk([], vaddr, 0, map[]) == []
  {
  }

  lemma HeaderAdvances(data: seq<Byte>, pos: nat)
    ensures HeaderAt(data, pos).Some? ==>
              pos < HeaderAt(data, pos).value.end <= |data| && HeaderAt(data, pos).value.end < WORD_MODULUS
  {
  }
}
