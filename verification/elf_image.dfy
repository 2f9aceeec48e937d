/** A parsed ELF file and its address-to-bytes lookup, a scan over sections and then segments. */
module ElfImages {
  import opened Types
  import opened Code

  const SHT_NULL := 0
  const SHT_NOBITS := 8
  const SHF_ALLOC := 0x2
  const SHF_EXECINSTR := 0x4
  const PT_LOAD := 1
  const PF_EXEC := 0x1

  /** `word & bit` for a `bit` that is a power of two. */
  predicate HasBit(word: nat, bit: nat)
    requires bit > 0
  {
    word / bit % 2 == 1
  }

  datatype ElfSection = ElfSection(name: string, kind: nat, flags: nat, address: Address, fileOffset: Address,
                                   size: Address)
  {
    predicate IsAllocated() { HasBit(flags, SHF_ALLOC) }
    predicate IsExecutable() { HasBit(flags, SHF_EXECINSTR) }
    predicate HasFileData() { kind != SHT_NOBITS && kind != SHT_NULL }
    predicate IsCode() { IsAllocated() && IsExecutable() && HasFileData() && size > 0 }
    predicate IsMapped() { IsAllocated() && HasFileData() }
    predicate Spans(a: Address) { address <= a < address + size }
  }

  datatype ElfSegment = ElfSegment(kind: nat, flags: nat, fileOffset: Address, virtualAddress: Address,
                                   fileSize: Address)
  {
    predicate IsLoadable() { kind == PT_LOAD }
    predicate IsExecutable() { HasBit(flags, PF_EXEC) }
    predicate IsCode() { IsLoadable() && IsExecutable() && fileSize != 0 }
    predicate Spans(a: Address) { virtualAddress <= a < virtualAddress + fileSize }
  }

  datatype ElfSymbol = ElfSymbol(name: string, info: Byte, sectionIndex: nat, value: Address, size: Address)
  {
    predicate IsFunction() { info % 16 == 2 || info % 16 == 10 }
    predicate IsDefined() { sectionIndex != 0 && sectionIndex < 0xff00 }
    predicate HasName() { name != "" }
    function Binding(): nat { info / 16 }
  }

  function FirstNamed(sections: seq<ElfSection>, name: string): (r: Option<ElfSection>)
    ensures r.Some? ==> r.value in sections && r.value.name == name
    ensures r.None? ==> forall s :: s in sections ==> s.name != name
  {
    if sections == [] then None
    else if sections[0].name == name then Some(sections[0])
    else FirstNamed(sections[1..], name)
  }

  lemma {:induction false} FirstNamedAt(sections: seq<ElfSection>, name: string, i: nat)
    requires i <= |sections|
    requires forall j :: 0 <= j < i ==> sections[j].name != name
    requires i < |sections| ==> sections[i].name == name
    ensures FirstNamed(sections, name) == if i < |sections| then Some(sections[i]) else None
  {
    if i > 0 {
      FirstNamedAt(sections[1..], name, i - 1);
    }
  }

  /** The first section or segment, if any, that answers for an address. */
  function FirstSection(sections: seq<ElfSection>, a: Address): (r: Option<ElfSection>)
    ensures r.Some? ==> r.value in sections && r.value.IsMapped() && r.value.Spans(a)
    ensures r.None? ==> forall s :: s in sections && s.IsMapped() ==> !s.Spans(a)
  {
    if sections == [] then None
    else if sections[0].IsMapped() && sections[0].Spans(a) then Some(sections[0])
    else FirstSection(sections[1..], a)
  }

  function FirstSegment(segments: seq<ElfSegment>, a: Address): (r: Option<ElfSegment>)
    ensures r.Some? ==> r.value in segments && r.value.IsLoadable() && r.value.Spans(a)
  {
    if segments == [] then None
    else if segments[0].IsLoadable() && segments[0].Spans(a) then Some(segments[0])
    else FirstSegment(segments[1..], a)
  }

  lemma {:induction false} FirstSectionAt(sections: seq<ElfSection>, a: Address, i: nat)
    requires i <= |sections|
    requires forall j :: 0 <= j < i ==> !(sections[j].IsMapped() && sections[j].Spans(a))
    requires i < |sections| ==> sections[i].IsMapped() && sections[i].Spans(a)
    ensures FirstSection(sections, a) == if i < |sections| then Some(sections[i]) else None
  {
    hide HasBit;
    if i > 0 {
      FirstSectionAt(sections[1..], a, i - 1);
    }
  }

  lemma {:induction false} FirstSegmentAt(segments: seq<ElfSegment>, a: Address, i: nat)
    requires i <= |segments|
    requires forall j :: 0 <= j < i ==> !(segments[j].IsLoadable() && segments[j].Spans(a))
    requires i < |segments| ==> segments[i].IsLoadable() && segments[i].Spans(a)
    ensures FirstSegment(segments, a) == if i < |segments| then Some(segments[i]) else None
  {
    hide HasBit;
    if i > 0 {
      FirstSegmentAt(segments[1..], a, i - 1);
    }
  }

  class ElfImage {
    const bytes: seq<Byte>
    const sections: seq<ElfSection>
    const segments: seq<ElfSegment>

    constructor (bytes: seq<Byte>, sections: seq<ElfSection>, segments: seq<ElfSegment>)
      ensures this.bytes == bytes && this.sections == sections && this.segments == segments
    {
      this.bytes := bytes;
      this.sections := sections;
      this.segments := segments;
    }

    /** The file fits in memory, and no section or segment wraps around the address space or the file. */
    ghost predicate NoWrap() {
      && |bytes| < MAX_OBJECT_SIZE
      && (forall s :: s in sections ==>
            s.address + s.size <= MAX_REGION_END && s.fileOffset + s.size < WORD_MODULUS)
      && (forall s :: s in segments ==>
            s.virtualAddress + s.fileSize <= MAX_REGION_END && s.fileOffset + s.fileSize < WORD_MODULUS)
    }

    /** The sections a lookup may answer from do not overlap, and neither do the executable segments. */
    ghost predicate NoOverlap() {
      && (forall i, j :: 0 <= i < |sections| && 0 <= j < |sections| && i != j
                         && sections[i].IsMapped() && sections[j].IsMapped()
            ==> Apart(sections[i].address, sections[i].size, sections[j].address, sections[j].size))
      && (forall i, j :: 0 <= i < |segments| && 0 <= j < |segments| && i != j
                         && segments[i].IsCode() && segments[j].IsCode()
            ==> Apart(segments[i].virtualAddress, segments[i].fileSize,
                      segments[j].virtualAddress, segments[j].fileSize))
    }

    ghost predicate WellFormed() { NoWrap() && NoOverlap() }

    static predicate Apart(a: Address, m: Address, b: Address, n: Address) {
      m == 0 || n == 0 || a + m <= b || b + n <= a
    }

    /** The file bytes from `offset + (a - base)` on, at most to the end of a `size`-byte mapping. */
    function Backing(offset: Address, base: Address, size: Address, a: Address): Option<seq<Byte>>
      requires base <= a < base + size
    {
      var at := offset + (a - base);
      if at >= |bytes| then None
      else Some(bytes[at..at + Min(size - (a - base), |bytes| - at)])
    }

    /** What a lookup answers: the first mapped section that spans `a`, else the first segment. */
    function Lookup(a: Address): (data: Option<seq<Byte>>)
      ensures data.Some? ==> data.value != []
    {
      match FirstSection(sections, a)
      case Some(s) => Backing(s.fileOffset, s.address, s.size, a)
      case None =>
        match FirstSegment(segments, a)
        case Some(g) => Backing(g.fileOffset, g.virtualAddress, g.fileSize, a)
        case None => None
    }

    lemma LookupIsSmall(a: Address)
      requires NoWrap()
      ensures Lookup(a).Some? ==> |Lookup(a).value| < MAX_OBJECT_SIZE
    {
      hide FirstSection, FirstSegment;
    }

    /** The first section of that name. */
    method FindSection(name: string) returns (r: Option<ElfSection>)
      ensures r == FirstNamed(sections, name)
    {
      for i := 0 to |sections|
        invariant forall j :: 0 <= j < i ==> sections[j].name != name
      {
        if sections[i].name == name {
          FirstNamedAt(sections, name, i);
          return Some(sections[i]);
        }
      }
      FirstNamedAt(sections, name, |sections|);
      return None;
    }

    /** The bytes mapped at `a`; their number is what the program reports as `available`. */
    method DataAt(a: Address) returns (data: Option<seq<Byte>>)
      requires NoWrap()
      ensures data == Lookup(a)
    {
      hide HasBit, FirstSection, FirstSegment;
      for i := 0 to |sections|
        invariant forall j :: 0 <= j < i ==> !(sections[j].IsMapped() && sections[j].Spans(a))
      {
        var section := sections[i];
        if !section.IsAllocated() || !section.HasFileData() {
          continue;
        }
        var limit: Address := section.address + section.size;
        if a < section.address || a >= limit {
          continue;
        }
        FirstSectionAt(sections, a, i);
        var delta: Address := a - section.address;
        var fileOffset: Address := section.fileOffset + delta;
        if fileOffset >= |bytes| {
          return None;
        }
        var available := Min(section.size - delta, |bytes| - fileOffset);
        return Some(bytes[fileOffset..fileOffset + available]);
      }
      FirstSectionAt(sections, a, |sections|);
      for i := 0 to |segments|
        invariant forall j :: 0 <= j < i ==> !(segments[j].IsLoadable() && segments[j].Spans(a))
      {
        var segment := segments[i];
        if !segment.IsLoadable() {
          continue;
        }
        var limit: Address := segment.virtualAddress + segment.fileSize;
        if a < segment.virtualAddress || a >= limit {
          continue;
        }
        FirstSegmentAt(segments, a, i);
        var delta: Address := a - segment.virtualAddress;
        var fileOffset: Address := segment.fileOffset + delta;
        if fileOffset >= |bytes| {
          return None;
        }
        var available := Min(segment.fileSize - delta, |bytes| - fileOffset);
        return Some(bytes[fileOffset..fileOffset + available]);
      }
      FirstSegmentAt(segments, a, |segments|);
      return None;
    }
  }

  // ------------------------------------------------------------------ what a lookup reads

  /** Allocated (flag 2) with file data: of a type other than null (0) and nobits (8). */
  ghost predicate IsMappedSection(s: ElfSection) { s.flags / 2 % 2 == 1 && s.kind != 0 && s.kind != 8 }

  /** Also executable (flag 4) and not empty. */
  ghost predicate IsCodeSection(s: ElfSection) { IsMappedSection(s) && s.flags / 4 % 2 == 1 && s.size > 0 }

  /** A loadable segment (type 1) that is executable (flag 1) and not empty. */
  ghost predicate IsCodeSegment(g: ElfSegment) { g.kind == 1 && g.flags % 2 == 1 && g.fileSize > 0 }

  lemma SectionsAre(s: ElfSection)
    ensures s.IsMapped() <==> IsMappedSection(s)
    ensures s.IsCode() <==> IsCodeSection(s)
  {
  }

  lemma SegmentsAre(g: ElfSegment)
    ensures g.IsLoadable() <==> g.kind == 1
    ensures g.IsCode() <==> IsCodeSegment(g)
  {
  }

  /** The bytes of the file from `at` on, at most `limit` of them and as many as there are; none past its end. */
  ghost predicate IsFileBytes(bytes: seq<Byte>, at: nat, limit: nat, data: Option<seq<Byte>>) {
    if at >= |bytes| then data.None?
    else
      && data.Some? && |data.value| == (if limit < |bytes| - at then limit else |bytes| - at)
      && forall k :: 0 <= k < |data.value| ==> data.value[k] == bytes[at + k]
  }

  /** In a mapped section a lookup reads what the file holds at the section's offset. */
  lemma LookupReadsSection(image: ElfImage, s: ElfSection, a: Address)
    requires image.WellFormed()
    requires s in image.sections && IsMappedSection(s) && s.address <= a < s.address + s.size
    ensures IsFileBytes(image.bytes, s.fileOffset + (a - s.address), s.size - (a - s.address), image.Lookup(a))
  {
    SectionsAre(s);
    hide HasBit, IsMappedSection;
    SectionAnswersFor(image, s, a);
  }

  /** Outside all of them it reads the first loadable segment around the address, if any. */
  lemma LookupReadsSegment(image: ElfImage, i: nat, a: Address)
    requires forall s :: s in image.sections && IsMappedSection(s) ==> !(s.address <= a < s.address + s.size)
    requires i <= |image.segments|
    requires forall j :: 0 <= j < i ==> var g := image.segments[j];
      g.kind != 1 || !(g.virtualAddress <= a < g.virtualAddress + g.fileSize)
    requires i < |image.segments| ==> var g := image.segments[i];
      g.kind == 1 && g.virtualAddress <= a < g.virtualAddress + g.fileSize
    ensures if i == |image.segments| then image.Lookup(a).None? else
      var g := image.segments[i];
      var delta := a - g.virtualAddress;
      IsFileBytes(image.bytes, g.fileOffset + delta, g.fileSize - delta, image.Lookup(a))
  {
    forall s | s in image.sections ensures s.IsMapped() <==> IsMappedSection(s) {
      SectionsAre(s);
    }
    hide HasBit, IsMappedSection;
    assert FirstSection(image.sections, a).None?;
    FirstSegmentAt(image.segments, a, i);
  }

  lemma SectionAnswersFor(image: ElfImage, s: ElfSection, a: Address)
    requires image.WellFormed()
    requires s in image.sections && s.IsMapped() && s.Spans(a)
    ensures FirstSection(image.sections, a) == Some(s)
  {
    var q := FirstSection(image.sections, a);
    assert q.Some?;
    var i :| 0 <= i < |image.sections| && image.sections[i] == q.value;
    var k :| 0 <= k < |image.sections| && image.sections[k] == s;
    assert i == k;
  }
}
