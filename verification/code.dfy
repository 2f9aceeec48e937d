/**
 What the control-flow passes can observe of a program: its executable regions and a decoder.

 The vendored disassembler is represented by a decoding function that is fixed for a run and obeys
 `IsDecoder`; nothing else about instructions is assumed.
 */
module Code {
  import opened Types
  import opened Bits

  const ZERO_WORD := 0x0000_0000
  const NOP_WORD := 0xd503_201f

  /** Regions end this far below 2^64, so stepping one word past one of them does not wrap. */
  const MAX_REGION_END := WORD_MODULUS - 8

  datatype FlowType =
    | Sequential
    | ConditionalBranch
    | UnconditionalBranch
    | DirectCall
    | IndirectBranch
    | IndirectCall
    | Return

  datatype Instruction = Instruction(address: Address, size: Address, flow: FlowType, hasTarget: bool, target: Address)
  {
    function EndAddress(): int { address + size }

    predicate IsBlockTerminator() {
      flow.ConditionalBranch? || flow.UnconditionalBranch? || flow.IndirectBranch? || flow.Return?
    }

    predicate HasFallThrough() {
      flow.Sequential? || flow.ConditionalBranch? || flow.DirectCall? || flow.IndirectCall?
    }

    predicate IsBranch() { flow.ConditionalBranch? || flow.UnconditionalBranch? }
  }

  type Decoder = (seq<Byte>, Address) -> Option<Instruction>

  /** A decoded instruction sits where it was asked for, is one word long, and any relative target is
      a whole number of words away. */
  ghost predicate IsDecoder(decode: Decoder) {
    && (forall code: seq<Byte>, a: Address :: |code| < INSTRUCTION_SIZE ==> decode(code, a).None?)
    && (forall code: seq<Byte>, a: Address :: decode(code, a).Some? ==>
          var insn := decode(code, a).value;
          && insn.address == a
          && insn.size == INSTRUCTION_SIZE
          && (insn.hasTarget ==> insn.target % 4 == a % 4))
  }

  datatype Region = Region(start: Address, end: Address, data: seq<Byte>)
  {
    predicate Contains(a: Address) { start <= a < end }

    predicate Valid() { start < end <= MAX_REGION_END && |data| == end - start }
  }

  /** A non-empty stretch of executable bytes. */
  type CodeRegion = r: Region | r.Valid() witness Region(0, 1, [0])

  /** Sorted by start and pairwise disjoint. */
  ghost predicate ValidRegions(regions: seq<CodeRegion>) {
    forall i, j :: 0 <= i < j < |regions| ==> regions[i].end <= regions[j].start
  }

  /** The region holding an address, found by scanning from the front. */
  function FindRegion(regions: seq<CodeRegion>, a: Address): (r: Option<CodeRegion>)
    ensures r.Some? ==> r.value in regions && r.value.Contains(a)
    ensures r.None? ==> forall q :: q in regions ==> !q.Contains(a)
  {
    if regions == [] then None
    else if regions[0].Contains(a) then Some(regions[0])
    else FindRegion(regions[1..], a)
  }

  /** The bytes from `a` to the end of its region. */
  function BytesAt(regions: seq<CodeRegion>, a: Address): Option<seq<Byte>> {
    var r := FindRegion(regions, a);
    if r.None? then None else Some(r.value.data[a - r.value.start..])
  }

  /** The little-endian word at `a`, when four bytes of its region are left. */
  function WordAt(regions: seq<CodeRegion>, a: Address): Option<nat> {
    var bytes := BytesAt(regions, a);
    if bytes.None? || |bytes.value| < INSTRUCTION_SIZE then None
    else Some(LittleEndian(bytes.value[..INSTRUCTION_SIZE]))
  }

  predicate IsHardStopWord(regions: seq<CodeRegion>, a: Address) {
    var word := WordAt(regions, a);
    word.None? || word.value == ZERO_WORD
  }

  predicate IsPaddingWord(regions: seq<CodeRegion>, a: Address) {
    var word := WordAt(regions, a);
    word.None? || word.value == ZERO_WORD || word.value == NOP_WORD
  }

  lemma FindRegionIsUnique(regions: seq<CodeRegion>, a: Address, r: CodeRegion)
    requires ValidRegions(regions) && r in regions && r.Contains(a)
    ensures FindRegion(regions, a) == Some(r)
  {
    assert FindRegion(regions, a).Some?;
    var q := FindRegion(regions, a).value;
    var i :| 0 <= i < |regions| && regions[i] == q;
    var j :| 0 <= j < |regions| && regions[j] == r;
    assert !(i < j) && !(j < i);
  }

  datatype CodeImage = CodeImage(regions: seq<CodeRegion>, decode: Decoder)
  {
    ghost predicate Valid() { ValidRegions(regions) && IsDecoder(decode) }

    predicate Contains(a: Address) { FindRegion(regions, a).Some? }

    /** The end of the region holding `a`, or `a` itself when no region does. */
    function RegionEnd(a: Address): Address {
      var r := FindRegion(regions, a);
      if r.Some? then r.value.end else a
    }

    /** A fresh decode of the aligned word at `a`. */
    function Insn(a: Address): Option<Instruction> {
      if !Aligned(a) then None else
        var bytes := BytesAt(regions, a);
        if bytes.None? || |bytes.value| < INSTRUCTION_SIZE then None else decode(bytes.value, a)
    }

    /** An address the passes will start from: aligned and inside a region. */
    predicate Usable(a: Address) { Aligned(a) && Contains(a) }
  }

  /** A decoded word is aligned, whole inside its region, and shaped as the decoder promises. */
  lemma InsnShape(code: CodeImage, a: Address)
    requires code.Valid() && code.Insn(a).Some?
    ensures var insn := code.Insn(a).value;
      && Aligned(a)
      && code.Contains(a)
      && a + INSTRUCTION_SIZE <= code.RegionEnd(a) <= MAX_REGION_END
      && insn.address == a
      && insn.size == INSTRUCTION_SIZE
      && insn.EndAddress() == a + INSTRUCTION_SIZE
      && (insn.hasTarget ==> Aligned(insn.target))
  {
  }

  // ------------------------------------------------------------------ what words and flow are

  /** Where control goes after an instruction, within the function. */
  predicate FlowsTo(insn: Instruction, t: int) {
    || (insn.IsBranch() && insn.hasTarget && t == insn.target)
    || (insn.HasFallThrough() && t == insn.EndAddress())
  }

  /** A direct call to `t` stands at `a`. */
  ghost predicate Calls(code: CodeImage, a: Address, t: Address) {
    code.Insn(a).Some? &&
    var insn := code.Insn(a).value;
    insn.flow == DirectCall && insn.hasTarget && insn.target == t
  }

  ghost predicate InSomeRegion(regions: seq<CodeRegion>, a: Address) {
    exists r: CodeRegion :: r in regions && r.start <= a < r.end
  }

  /** The whole word at `a` lies in one region and is made of the four bytes. */
  ghost predicate HasWord(regions: seq<CodeRegion>, a: Address, word: seq<Byte>) {
    exists r: CodeRegion :: r in regions && r.start <= a && a + 4 <= r.end
                            && r.data[a - r.start..a - r.start + 4] == word
  }

  ghost predicate HasSomeWord(regions: seq<CodeRegion>, a: Address) {
    exists r: CodeRegion :: r in regions && r.start <= a && a + 4 <= r.end
  }

  lemma WordIs(regions: seq<CodeRegion>, a: Address, r: CodeRegion)
    requires ValidRegions(regions) && r in regions && r.start <= a && a + 4 <= r.end
    ensures WordAt(regions, a) == Some(LittleEndian(r.data[a - r.start..a - r.start + 4]))
  {
    FindRegionIsUnique(regions, a, r);
    hide FindRegion;
    assert r.data[a - r.start..][..4] == r.data[a - r.start..a - r.start + 4];
  }

  lemma NoWord(regions: seq<CodeRegion>, a: Address)
    requires !HasSomeWord(regions, a)
    ensures WordAt(regions, a).None?
  {
    hide LittleEndian;
  }

  /** A hard stop is no word at all or four zero bytes; padding, those or the no-op 1f 20 03 d5. */
  lemma StopsArePadding(regions: seq<CodeRegion>, a: Address)
    requires ValidRegions(regions)
    ensures IsHardStopWord(regions, a) <==> !HasSomeWord(regions, a) || HasWord(regions, a, [0, 0, 0, 0])
    ensures IsPaddingWord(regions, a) <==>
      || !HasSomeWord(regions, a) || HasWord(regions, a, [0, 0, 0, 0])
      || HasWord(regions, a, [0x1f, 0x20, 0x03, 0xd5])
  {
    hide WordAt, LittleEndian;
    if HasSomeWord(regions, a) {
      var r: CodeRegion :| r in regions && r.start <= a && a + 4 <= r.end;
      forall q: CodeRegion | q in regions && q.start <= a && a + 4 <= q.end ensures q == r {
        SameRegion(regions, a, q, r);
      }
      WordIs(regions, a, r);
      var word := r.data[a - r.start..a - r.start + 4];
      ZeroAndNop(word);
      assert HasWord(regions, a, word);
    } else {
      NoWord(regions, a);
    }
  }

  lemma UsableIs(code: CodeImage, a: Address)
    ensures code.Contains(a) <==> InSomeRegion(code.regions, a)
    ensures code.Usable(a) <==> a % 4 == 0 && InSomeRegion(code.regions, a)
  {
  }

  lemma SameRegion(regions: seq<CodeRegion>, a: Address, q: CodeRegion, r: CodeRegion)
    requires ValidRegions(regions) && q in regions && q.Contains(a) && r in regions && r.Contains(a)
    ensures q == r
  {
    FindRegionIsUnique(regions, a, q);
    FindRegionIsUnique(regions, a, r);
  }

  lemma ZeroAndNop(word: seq<Byte>)
    requires |word| == 4
    ensures LittleEndian(word) == 0 <==> word == [0, 0, 0, 0]
    ensures LittleEndian(word) == 0xd503_201f <==> word == [0x1f, 0x20, 0x03, 0xd5]
  {
    LittleEndianIsInjective(word, [0, 0, 0, 0]);
    LittleEndianIsInjective(word, [0x1f, 0x20, 0x03, 0xd5]);
    LittleEndianOfLiterals();
  }

  lemma LittleEndianOfLiterals()
    ensures LittleEndian([0, 0, 0, 0]) == 0
    ensures LittleEndian([0x1f, 0x20, 0x03, 0xd5]) == 0xd503_201f
  {
    assert LittleEndian([0]) == 0 && LittleEndian([0, 0]) == 0 && LittleEndian([0, 0, 0]) == 0;
    assert [0x03, 0xd5][1..] == [0xd5] && [0x20, 0x03, 0xd5][1..] == [0x03, 0xd5];
    assert [0x1f, 0x20, 0x03, 0xd5][1..] == [0x20, 0x03, 0xd5];
    assert LittleEndian([0xd5]) == 0xd5;
    assert LittleEndian([0x03, 0xd5]) == 0xd503;
    assert LittleEndian([0x20, 0x03, 0xd5]) == 0xd5_0320;
  }

  /** An instruction is a successful decode, at an aligned address, of a region's bytes from there on. */
  lemma InsnIsDecode(code: CodeImage, a: Address)
    requires code.Valid()
    ensures code.Insn(a).Some? ==> a % 4 == 0 && HasSomeWord(code.regions, a)
    ensures forall r: CodeRegion ::
      a % 4 == 0 && r in code.regions && r.start <= a && a + 4 <= r.end ==>
        code.Insn(a) == code.decode(r.data[a - r.start..], a)
  {
    hide IsDecoder;
    forall r: CodeRegion | r in code.regions && r.start <= a && a + 4 <= r.end
      ensures a % 4 == 0 ==> code.Insn(a) == code.decode(r.data[a - r.start..], a)
    {
      FindRegionIsUnique(code.regions, a, r);
    }
    if code.Insn(a).Some? {
      var r := FindRegion(code.regions, a).value;
      assert r in code.regions && r.start <= a && a + 4 <= r.end;
    }
  }
}
