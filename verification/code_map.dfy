/** The index of executable regions that answers address queries by binary search. */
module CodeMaps {
  import opened Types
  import opened Code
  import opened ElfImages
  import opened Sorting

  predicate StartsBefore(a: CodeRegion, b: CodeRegion) { a.start < b.start }

  /** The region a mapping of `size` bytes at `start` contributes when the file backs its first byte. */
  function BackedRegion(start: Address, size: Address, data: Option<seq<Byte>>): Option<CodeRegion> {
    if data.None? then None else
      var length := Min(size, |data.value|);
      if length == 0 || start + length > MAX_REGION_END then None
      else Some(Region(start, start + length, data.value[..length]))
  }

  function SectionRegion(image: ElfImage, s: ElfSection): Option<CodeRegion> {
    if s.IsCode() then BackedRegion(s.address, s.size, image.Lookup(s.address)) else None
  }

  function SegmentRegion(image: ElfImage, s: ElfSegment): Option<CodeRegion> {
    if s.IsCode() then BackedRegion(s.virtualAddress, s.fileSize, image.Lookup(s.virtualAddress)) else None
  }

  function SectionRegions(image: ElfImage): seq<Option<CodeRegion>> {
    seq(|image.sections|, i requires 0 <= i < |image.sections| => SectionRegion(image, image.sections[i]))
  }

  function SegmentRegions(image: ElfImage): seq<Option<CodeRegion>> {
    seq(|image.segments|, i requires 0 <= i < |image.segments| => SegmentRegion(image, image.segments[i]))
  }

  function Present(found: seq<Option<CodeRegion>>): (r: seq<CodeRegion>)
    ensures forall q :: q in r ==> Some(q) in found
    ensures forall q :: Some(q) in found ==> q in r
  {
    if found == [] then [] else
      var last := found[|found| - 1];
      var rest := Present(found[..|found| - 1]);
      assert found == found[..|found| - 1] + [last];
      if last.Some? then rest + [last.value] else rest
  }

  lemma PresentStep(found: seq<Option<CodeRegion>>, i: nat)
    requires i < |found|
    ensures Present(found[..i + 1]) ==
            Present(found[..i]) + if found[i].Some? then [found[i].value] else []
  {
    assert found[..i + 1][..i] == found[..i];
  }

  /** Executable segments count only when no code section is backed by the file. */
  function Regions(image: ElfImage): seq<CodeRegion> {
    var fromSections := Present(SectionRegions(image));
    Sort(if fromSections != [] then fromSections else Present(SegmentRegions(image)), StartsBefore)
  }

  predicate RegionsApart(q: CodeRegion, r: CodeRegion) { q.end <= r.start || r.end <= q.start }

  ghost predicate CandidatesApart(found: seq<Option<CodeRegion>>) {
    forall i, j :: 0 <= i < j < |found| && found[i].Some? && found[j].Some? ==>
      RegionsApart(found[i].value, found[j].value)
  }

  lemma {:induction false} PresentKeepsApart(found: seq<Option<CodeRegion>>)
    requires CandidatesApart(found)
    ensures Pairwise(Present(found), RegionsApart)
  {
    if found != [] {
      var init := found[..|found| - 1];
      PresentKeepsApart(init);
      var last := found[|found| - 1];
      if last.Some? {
        forall q | q in Present(init) ensures RegionsApart(q, last.value) {
          assert Some(q) in init;
        }
      }
    }
  }

  lemma SortedApartIsValid(regions: seq<CodeRegion>)
    requires Pairwise(regions, RegionsApart)
    ensures ValidRegions(Sort(regions, StartsBefore))
  {
    SortIsSorted(regions, StartsBefore);
    SortKeepsPairwise(regions, StartsBefore, RegionsApart);
    var sorted := Sort(regions, StartsBefore);
    forall i, j | 0 <= i < j < |sorted| ensures sorted[i].end <= sorted[j].start {
      assert !StartsBefore(sorted[j], sorted[i]);
      assert RegionsApart(sorted[i], sorted[j]);
    }
  }

  lemma SectionRegionsApart(image: ElfImage)
    requires image.WellFormed()
    ensures CandidatesApart(SectionRegions(image))
  {
  }

  lemma SegmentRegionsApart(image: ElfImage)
    requires image.WellFormed()
    ensures CandidatesApart(SegmentRegions(image))
  {
  }

  /** Regions of a well-formed image never overlap. */
  lemma RegionsAreValid(image: ElfImage)
    requires image.WellFormed()
    ensures ValidRegions(Regions(image))
  {
    SectionRegionsApart(image);
    SegmentRegionsApart(image);
    PresentKeepsApart(SectionRegions(image));
    PresentKeepsApart(SegmentRegions(image));
    SortedApartIsValid(Present(SectionRegions(image)));
    SortedApartIsValid(Present(SegmentRegions(image)));
  }

  class CodeMap {
    const regions: seq<CodeRegion>

    ghost predicate Valid() { ValidRegions(regions) }

    /** Append a region unless it is empty. */
    static method AddRegion(regions: seq<CodeRegion>, start: Address, size: Address, data: seq<Byte>)
      returns (r: seq<CodeRegion>)
      requires start + size <= MAX_REGION_END && size <= |data|
      ensures r == if size == 0 then regions else regions + [Region(start, start + size, data[..size])]
    {
      if size == 0 {
        return regions;
      }
      var end: Address := start + size;
      return regions + [Region(start, end, data[..size])];
    }

    static method RegionsFromSections(image: ElfImage) returns (found: seq<CodeRegion>, anySection: bool)
      requires image.NoWrap()
      ensures found == Present(SectionRegions(image))
      ensures anySection <==> found != []
    {
      hide HasBit, ElfImage.Lookup;
      found := [];
      anySection := false;
      for i := 0 to |image.sections|
        invariant found == Present(SectionRegions(image)[..i])
        invariant anySection <==> found != []
      {
        var section := image.sections[i];
        PresentStep(SectionRegions(image), i);
        if !section.IsCode() {
          continue;
        }
        var data := image.DataAt(section.address);
        if data.Some? {
          var size := Min(section.size, |data.value|);
          found := AddRegion(found, section.address, size, data.value);
          anySection := true;
        }
      }
      assert SectionRegions(image)[..|image.sections|] == SectionRegions(image);
    }

    static method RegionsFromSegments(image: ElfImage) returns (found: seq<CodeRegion>)
      requires image.NoWrap()
      ensures found == Present(SegmentRegions(image))
    {
      hide HasBit, ElfImage.Lookup;
      found := [];
      for i := 0 to |image.segments|
        invariant found == Present(SegmentRegions(image)[..i])
      {
        var segment := image.segments[i];
        PresentStep(SegmentRegions(image), i);
        if !segment.IsLoadable() || !segment.IsExecutable() || segment.fileSize == 0 {
          continue;
        }
        var data := image.DataAt(segment.virtualAddress);
        if data.Some? {
          var size := Min(segment.fileSize, |data.value|);
          found := AddRegion(found, segment.virtualAddress, size, data.value);
        }
      }
      assert SegmentRegions(image)[..|image.segments|] == SegmentRegions(image);
    }

    constructor (image: ElfImage)
      requires image.WellFormed()
      ensures Valid()
      ensures regions == Regions(image)
    {
      var found, anySection := RegionsFromSections(image);
      if !anySection {
        found := RegionsFromSegments(image);
      }
      RegionsAreValid(image);
      regions := Sort(found, StartsBefore);
    }

    /** Binary search finds exactly the region a scan from the front would. */
    method RegionContaining(a: Address) returns (r: Option<CodeRegion>)
      requires Valid()
      ensures r == FindRegion(regions, a)
    {
      var at := UpperBound(regions, (region: CodeRegion) => region.start, a);
      if at == 0 {
        return None;
      }
      var candidate := regions[at - 1];
      if candidate.Contains(a) {
        FindRegionIsUnique(regions, a, candidate);
        return Some(candidate);
      }
      return None;
    }

    method Contains(a: Address) returns (r: bool)
      requires Valid()
      ensures r <==> FindRegion(regions, a).Some?
    {
      var region := RegionContaining(a);
      return region.Some?;
    }

    /** The bytes from `a` to the end of its region. */
    method At(a: Address) returns (data: Option<seq<Byte>>)
      requires Valid()
      ensures data == BytesAt(regions, a)
    {
      var region := RegionContaining(a);
      if region.None? {
        return None;
      }
      return Some(region.value.data[a - region.value.start..]);
    }
  }

  /** The only region a code-section address can be in is the one its own section contributed. */
  lemma SectionOwnsItsAddresses(image: ElfImage, s: ElfSection, a: Address, r: CodeRegion)
    requires image.WellFormed()
    requires s in image.sections && s.IsCode() && s.Spans(a)
    requires r in Present(SectionRegions(image)) && r.Contains(a)
    ensures SectionRegion(image, s) == Some(r)
  {
    assert Some(r) in SectionRegions(image);
    var i :| 0 <= i < |image.sections| && SectionRegion(image, image.sections[i]) == Some(r);
    var k :| 0 <= k < |image.sections| && image.sections[k] == s;
    assert image.sections[i].IsMapped() && image.sections[i].Spans(a);
    assert i == k;
  }

  /** Within one section, the bytes at `a` are those at the section's start with a prefix dropped. */
  lemma BackingShifts(image: ElfImage, s: ElfSection, a: Address)
    requires s.Spans(a)
    ensures var first := image.Backing(s.fileOffset, s.address, s.size, s.address);
      var here := image.Backing(s.fileOffset, s.address, s.size, a);
      here == if first.Some? && a - s.address < |first.value| then Some(first.value[a - s.address..]) else None
  {
  }

  /** A code section whose first byte is past the end of the file has no bytes anywhere. */
  lemma UnbackedSectionIsSilent(image: ElfImage, s: ElfSection, a: Address)
    requires image.WellFormed()
    requires Present(SectionRegions(image)) == []
    requires s in image.sections && s.IsCode() && s.Spans(a)
    ensures image.Lookup(a).None?
  {
    SectionAnswersFor(image, s, a);
    SectionAnswersFor(image, s, s.address);
    BackingShifts(image, s, a);
    var k :| 0 <= k < |image.sections| && image.sections[k] == s;
    assert SectionRegions(image)[k] == SectionRegion(image, s);
    assert SectionRegion(image, s).None?;
  }

  lemma SectionRegionIsFound(image: ElfImage, s: ElfSection, a: Address)
    requires image.WellFormed()
    requires Present(SectionRegions(image)) != []
    requires s in image.sections && s.IsCode() && s.Spans(a)
    ensures var mine := SectionRegion(image, s);
      FindRegion(Regions(image), a) == if mine.Some? && mine.value.Contains(a) then mine else None
  {
    SortIsSorted(Present(SectionRegions(image)), StartsBefore);
    hide Sort, Present, IsSorted, SectionRegion;
    var mine := SectionRegion(image, s);
    var found := FindRegion(Regions(image), a);
    if found.Some? {
      SectionOwnsItsAddresses(image, s, a, found.value);
    } else if mine.Some? {
      var k :| 0 <= k < |image.sections| && image.sections[k] == s;
      assert SectionRegions(image)[k] == mine;
      assert mine.value in Regions(image);
    }
  }

  lemma IndexFromSectionsAgrees(image: ElfImage, s: ElfSection, a: Address)
    requires image.WellFormed()
    requires Present(SectionRegions(image)) != []
    requires s in image.sections && s.IsCode() && s.Spans(a)
    ensures BytesAt(Regions(image), a) == image.Lookup(a)
  {
    hide Regions, FindRegion;
    SectionRegionIsFound(image, s, a);
    SectionAnswersFor(image, s, a);
    SectionAnswersFor(image, s, s.address);
    BackingShifts(image, s, a);
    var first := image.Lookup(s.address);
    assert first.Some? ==> first.value[..|first.value|] == first.value;
  }

  /** Some code section's first byte is in the file. */
  ghost predicate SomeCodeBacked(image: ElfImage) {
    exists s :: s in image.sections && IsCodeSection(s) && s.fileOffset < |image.bytes|
  }

  /** The bytes an executable segment is given reach over `a`. */
  ghost predicate SegmentClaims(image: ElfImage, g: ElfSegment, a: Address) {
    IsCodeSegment(g) &&
    match image.Lookup(g.virtualAddress)
    case None => false
    case Some(data) => g.virtualAddress <= a < g.virtualAddress + Min(g.fileSize, |data|)
  }

  lemma BackedSectionsHaveRegions(image: ElfImage)
    requires image.WellFormed()
    ensures Present(SectionRegions(image)) != [] <==> SomeCodeBacked(image)
  {
    hide HasBit, Present, ElfImage.Lookup, IsCodeSection;
    forall i | 0 <= i < |image.sections|
      ensures SectionRegions(image)[i].Some? <==>
              IsCodeSection(image.sections[i]) && image.sections[i].fileOffset < |image.bytes|
    {
      SectionIsBacked(image, image.sections[i]);
    }
    var regions := SectionRegions(image);
    if Present(regions) != [] {
      assert Some(Present(regions)[0]) in regions;
      var i :| 0 <= i < |regions| && regions[i] == Some(Present(regions)[0]);
      assert image.sections[i] in image.sections;
    }
    if s :| s in image.sections && IsCodeSection(s) && s.fileOffset < |image.bytes| {
      var i :| 0 <= i < |image.sections| && image.sections[i] == s;
      assert regions[i] in regions;
    }
  }

  lemma SectionIsBacked(image: ElfImage, s: ElfSection)
    requires image.WellFormed() && s in image.sections
    ensures SectionRegion(image, s).Some? <==> IsCodeSection(s) && s.fileOffset < |image.bytes|
  {
    SectionsAre(s);
    hide HasBit, IsCodeSection;
    if s.IsCode() {
      SectionAnswersFor(image, s, s.address);
    }
  }

  lemma ClaimsAreRegions(image: ElfImage, a: Address)
    requires image.WellFormed()
    ensures (exists r :: r in Present(SegmentRegions(image)) && r.Contains(a)) <==>
            (exists g :: g in image.segments && SegmentClaims(image, g, a))
  {
    forall g: ElfSegment ensures g.IsCode() <==> IsCodeSegment(g) {
      SegmentsAre(g);
    }
    hide HasBit, IsCodeSegment, Present, ElfImage.Lookup;
    var regions := SegmentRegions(image);
    if r :| r in Present(regions) && r.Contains(a) {
      var i :| 0 <= i < |regions| && regions[i] == Some(r);
      assert SegmentClaims(image, image.segments[i], a);
    }
    if g :| g in image.segments && SegmentClaims(image, g, a) {
      var i :| 0 <= i < |image.segments| && image.segments[i] == g;
      assert regions[i] == SegmentRegion(image, g) && regions[i] in regions;
      assert regions[i].value.Contains(a);
    }
  }

  /**
   For an address of a code section, the index answers with exactly the bytes (and so exactly the
   available length) that the section scan of the image does, if and only if the file holds the first
   byte of some code section or no executable segment claims the address.
   */
  lemma IndexAgreesWithImage(image: ElfImage, s: ElfSection, a: Address)
    requires image.WellFormed()
    requires s in image.sections && IsCodeSection(s) && s.address <= a < s.address + s.size
    ensures BytesAt(Regions(image), a) == image.Lookup(a) <==>
            SomeCodeBacked(image) || forall g :: g in image.segments ==> !SegmentClaims(image, g, a)
  {
    SectionsAre(s);
    hide HasBit, SegmentClaims, SomeCodeBacked, IsCodeSection, ElfImage.Lookup;
    BackedSectionsHaveRegions(image);
    if SomeCodeBacked(image) {
      IndexFromSectionsAgrees(image, s, a);
    } else {
      UnbackedSectionIsSilent(image, s, a);
      ClaimsAreRegions(image, a);
      SortIsSorted(Present(SegmentRegions(image)), StartsBefore);
    }
  }

  /** An address is in code when some code section's file data reaches it, or, if the file holds the first
      byte of none, when some executable segment's does. */
  lemma IndexCovers(image: ElfImage, a: Address)
    requires image.WellFormed()
    ensures InSomeRegion(Regions(image), a) <==>
      if SomeCodeBacked(image) then
        exists s :: s in image.sections && IsCodeSection(s) && s.address <= a < s.address + s.size
                    && s.fileOffset + (a - s.address) < |image.bytes|
      else exists g :: g in image.segments && SegmentClaims(image, g, a)
  {
    hide HasBit, SegmentClaims, SomeCodeBacked, ElfImage.Lookup, Present, SectionRegions, SegmentRegions, IsCodeSection;
    BackedSectionsHaveRegions(image);
    SortIsSorted(Present(SectionRegions(image)), StartsBefore);
    SortIsSorted(Present(SegmentRegions(image)), StartsBefore);
    hide IsSorted, Sort;
    if SomeCodeBacked(image) {
      SectionsReach(image, a);
    } else {
      ClaimsAreRegions(image, a);
    }
  }

  lemma SectionsReach(image: ElfImage, a: Address)
    requires image.WellFormed()
    ensures (exists r :: r in Present(SectionRegions(image)) && r.Contains(a)) <==>
            exists s :: s in image.sections && IsCodeSection(s) && s.address <= a < s.address + s.size
                        && s.fileOffset + (a - s.address) < |image.bytes|
  {
    hide HasBit, Present, ElfImage.Lookup, IsCodeSection;
    var regions := SectionRegions(image);
    if r :| r in Present(regions) && r.Contains(a) {
      var i :| 0 <= i < |regions| && regions[i] == Some(r);
      SectionReaches(image, image.sections[i], a);
    }
    if s :| s in image.sections && IsCodeSection(s) && s.address <= a < s.address + s.size
            && s.fileOffset + (a - s.address) < |image.bytes| {
      var i :| 0 <= i < |image.sections| && image.sections[i] == s;
      SectionReaches(image, s, a);
      assert regions[i] in regions;
      assert regions[i].value.Contains(a);
    }
  }

  lemma SectionReaches(image: ElfImage, s: ElfSection, a: Address)
    requires image.WellFormed() && s in image.sections
    ensures (SectionRegion(image, s).Some? && SectionRegion(image, s).value.Contains(a)) <==>
            IsCodeSection(s) && s.address <= a < s.address + s.size && s.fileOffset + (a - s.address) < |image.bytes|
  {
    SectionsAre(s);
    hide HasBit, IsCodeSection;
    if s.IsCode() {
      SectionAnswersFor(image, s, s.address);
    }
  }

  /** Built from segments, the index reads an executable segment's bytes as they are at its start. */
  lemma IndexReadsSegment(image: ElfImage, g: ElfSegment, a: Address)
    requires image.WellFormed() && !SomeCodeBacked(image)
    requires g in image.segments && SegmentClaims(image, g, a)
    ensures var data := image.Lookup(g.virtualAddress).value;
      BytesAt(Regions(image), a) ==
      Some(data[a - g.virtualAddress..if g.fileSize < |data| then g.fileSize else |data|])
  {
    hide Regions, FindRegion, SomeCodeBacked, ElfImage.Lookup, IsCodeSegment, ElfImage.WellFormed;
    var r := SegmentIsRegion(image, g);
    RegionsAreValid(image);
    FindRegionIsUnique(Regions(image), a, r);
  }

  lemma SegmentIsRegion(image: ElfImage, g: ElfSegment) returns (r: CodeRegion)
    requires image.WellFormed() && !SomeCodeBacked(image)
    requires g in image.segments && IsCodeSegment(g) && image.Lookup(g.virtualAddress).Some?
    ensures r in Regions(image) && r.start == g.virtualAddress
    ensures var data := image.Lookup(g.virtualAddress).value;
      var length := if g.fileSize < |data| then g.fileSize else |data|;
      r.end == r.start + length && r.data == data[..length]
  {
    SegmentsAre(g);
    hide HasBit, SomeCodeBacked, ElfImage.Lookup, Present, IsCodeSegment, SectionRegions;
    BackedSectionsHaveRegions(image);
    SortIsSorted(Present(SegmentRegions(image)), StartsBefore);
    hide IsSorted, Sort;
    var i :| 0 <= i < |image.segments| && image.segments[i] == g;
    var regions := SegmentRegions(image);
    assert regions[i] == SegmentRegion(image, g) && regions[i] in regions;
    r := regions[i].value;
  }

  /**
   The other case happens: in any file below a page long with room for its headers, a code section
   placed past the end of the file, inside a segment that maps the whole file and starts before it.
   */
  lemma IndexCanAnswerForUnbackedSection(image: ElfImage, name: string)
    requires 184 <= |image.bytes| < 0x1000
    requires image.sections == [ElfSection(name, 1, 6, 0x1000, 0x1_0000, 4)]
    requires image.segments == [ElfSegment(PT_LOAD, 5, 0, 0xffc, |image.bytes|)]
    ensures image.WellFormed()
    ensures image.Lookup(0x1000).None?
    ensures BytesAt(Regions(image), 0x1000) == Some(image.bytes[4..])
  {
    var section, segment := image.sections[0], image.segments[0];
    SectionAnswersFor(image, section, 0x1000);
    assert SectionRegion(image, section).None?;
    assert SectionRegions(image) == [None];
    assert Present(SectionRegions(image)) == [];
    assert image.bytes[0..|image.bytes|] == image.bytes;
    var r: CodeRegion := Region(0xffc, 0xffc + |image.bytes|, image.bytes);
    assert segment.IsCode();
    assert FirstSection(image.sections, 0xffc).None?;
    assert FirstSegment(image.segments, 0xffc) == Some(segment);
    assert image.Lookup(0xffc) == Some(image.bytes);
    assert SegmentRegion(image, segment) == Some(r);
    assert SegmentRegions(image) == [Some(r)];
    assert Present([Some(r)]) == [r] by {
      assert [Some(r)][..0] == [];
    }
    var regions: seq<CodeRegion> := [r];
    assert regions[1..] == [];
    assert Sort(regions, StartsBefore) == regions;
    assert Regions(image) == regions;
  }
}
