/**
 What an extent analysis has to report, said without the steps that compute it, and that there is exactly
 one such report: the one the analysis gives.
 */
module ExtentMeanings {
  import opened Types
  import opened Code
  import opened Sorting
  import opened ControlFlowGraphs
  import opened FunctionExtents
  import opened ExtentTheorems

  // ------------------------------------------------------------------ entries

  /** An aligned address in code that was given as an entry. */
  ghost predicate IsStrongEntry(t: Task, e: Address) {
    e in t.strong && e % 4 == 0 && InSomeRegion(t.code.regions, e)
  }

  ghost predicate IsEntry(t: Task, e: Address) {
    (e in t.strong || e in t.soft) && e % 4 == 0 && InSomeRegion(t.code.regions, e)
  }

  ghost predicate HasStatedSize(t: Task, e: Address) {
    IsStrongEntry(t, e) && e in t.sizes && t.sizes[e] > 0
  }

  lemma EntriesAre(t: Task, e: Address)
    ensures e in StrongEntries(t) <==> IsStrongEntry(t, e)
    ensures e in Entries(t) <==> IsEntry(t, e)
    ensures IsAuthoritative(t, e) <==> HasStatedSize(t, e)
  {
    UsableIs(t.code, e);
    hide CodeImage.Usable, InSomeRegion;
  }

  // ------------------------------------------------------------------ graphs

  /** What a graph at `a` covers below `upper`, all entries being boundaries. */
  ghost function GraphAt(t: Task, a: Address, upper: Address): set<Address> {
    var boundaries := set e | e in t.strong + t.soft && IsEntry(t, e);
    var req := Request(a, upper, boundaries, t.options.maxInstructions, t.options.linearPastIndirectBranch, false);
    Explore(t.code, req).visited
  }

  lemma GraphIsCovered(t: Task, a: Address, upper: Address)
    ensures GraphAt(t, a, upper) == Covered(t, a, upper)
  {
    hide Explore, Entries, IsEntry;
    var boundaries := set e | e in t.strong + t.soft && IsEntry(t, e);
    forall e ensures e in boundaries <==> e in Entries(t) {
      EntriesAre(t, e);
      EntryIsGiven(t, e);
    }
    assert boundaries == Entries(t);
  }

  lemma EntryIsGiven(t: Task, e: Address)
    ensures IsEntry(t, e) ==> e in t.strong + t.soft
  {
  }

  /** `end` is behind the last covered instruction. */
  ghost predicate EndsBehind(covered: set<Address>, end: int) {
    (exists a :: a in covered && a + 4 == end) && forall a :: a in covered ==> a + 4 <= end
  }

  /** Something is covered, and it returns or is long enough. */
  ghost predicate IsPlausible(t: Task, covered: set<Address>) {
    && covered != {}
    && (|| |covered| >= t.options.minGapFunctionInstructions
        || exists a :: a in covered && t.code.Insn(a).Some? && t.code.Insn(a).value.flow == Return)
  }

  /** The word at `a` starts no function: it is padding, undecodable, or its graph is not plausible. */
  ghost predicate StartsNothing(t: Task, a: Address, upper: Address) {
    || !HasSomeWord(t.code.regions, a)
    || HasWord(t.code.regions, a, [0, 0, 0, 0])
    || HasWord(t.code.regions, a, [0x1f, 0x20, 0x03, 0xd5])
    || t.code.Insn(a).None?
    || !IsPlausible(t, GraphAt(t, a, upper))
  }

  lemma RejectedStartsNothing(t: Task, a: Address, upper: Address)
    requires t.code.Valid()
    ensures Rejected(t, a, upper) <==> StartsNothing(t, a, upper)
  {
    StopsArePadding(t.code.regions, a);
    GraphIsCovered(t, a, upper);
    hide GraphAt, Covered, CodeImage.Insn, IsPaddingWord, HasWord, HasSomeWord;
  }

  // ------------------------------------------------------------------ ends

  /** The next strong entry behind `a`, or `limit` when that comes first. */
  ghost predicate IsUpper(t: Task, a: Address, limit: Address, upper: Address) {
    && upper <= limit
    && (upper == limit || (a < upper && IsStrongEntry(t, upper)))
    && (forall s: Address :: IsStrongEntry(t, s) && a < s ==> upper <= s)
  }

  /** Where the function of an entry ends, inside its region: at its stated size, else behind its graph below
      the next strong entry, else behind one word. */
  ghost predicate IsEntryEnd(t: Task, region: CodeRegion, e: Address, end: int) {
    if HasStatedSize(t, e) then end == Min(region.end, e + t.sizes[e])
    else exists upper: Address :: IsUpper(t, e, region.end, upper) && IsGraphEnd(t, region, e, upper, end)
  }

  ghost predicate IsGraphEnd(t: Task, region: CodeRegion, e: Address, upper: Address, end: int) {
    var covered := GraphAt(t, e, upper);
    if covered == {} then end == Min(region.end, e + 4) else EndsBehind(covered, end)
  }

  lemma UpperIs(t: Task, a: Address, limit: Address, upper: Address)
    ensures IsUpper(t, a, limit, upper) <==> upper == Min(NextStrong(t, a), limit)
  {
    hide IsStrongEntry, StrongEntries;
    forall s: Address ensures s in StrongEntries(t) <==> IsStrongEntry(t, s) {
      EntriesAre(t, s);
    }
  }

  lemma EndOfIs(t: Task, region: CodeRegion, e: Address, end: int)
    requires t.code.Valid() && e in Entries(t) && region in t.code.regions && region.Contains(e)
    ensures IsEntryEnd(t, region, e, end) <==> end == EndOf(t, e)
  {
    RegionEndIs(t.code, region, e);
    EntriesAre(t, e);
    EndOfShape(t, e);
    hide NextStrong, CodeImage.RegionEnd, IsUpper, HasStatedSize, IsAuthoritative, Entries, CodeImage.Valid;
    hide IsGraphEnd, CfgEnd, FindRegion;
    if !HasStatedSize(t, e) {
      var upper: Address := Min(NextStrong(t, e), region.end);
      GraphEndIs(t, region, e, upper, end);
      OnlyUpper(t, region, e, upper, end);
    }
  }

  lemma OnlyUpper(t: Task, region: CodeRegion, e: Address, upper: Address, end: int)
    requires upper == Min(NextStrong(t, e), region.end)
    ensures (exists u: Address :: IsUpper(t, e, region.end, u) && IsGraphEnd(t, region, e, u, end)) <==>
            IsGraphEnd(t, region, e, upper, end)
  {
    hide NextStrong, IsUpper, IsGraphEnd;
    forall u: Address ensures IsUpper(t, e, region.end, u) <==> u == upper {
      UpperIs(t, e, region.end, u);
    }
  }

  lemma RegionEndIs(code: CodeImage, region: CodeRegion, a: Address)
    requires code.Valid() && region in code.regions && region.Contains(a)
    ensures code.RegionEnd(a) == region.end
  {
    FindRegionIsUnique(code.regions, a, region);
  }

  lemma GraphEndIs(t: Task, region: CodeRegion, e: Address, upper: Address, end: int)
    requires t.code.Valid() && region in t.code.regions && region.Contains(e) && upper <= region.end
    ensures IsGraphEnd(t, region, e, upper, end) <==> end == Min(CfgEnd(t, e, upper), region.end)
  {
    RegionEndIs(t.code, region, e);
    GraphIsCovered(t, e, upper);
    CoveredFits(t, e, upper);
    hide GraphAt, Covered, CodeImage.RegionEnd, CodeImage.Valid;
    assert Extent(t, e, upper) == e || Extent(t, e, upper) <= upper;
    if Covered(t, e, upper) != {} {
      EndsBehindOnce(Covered(t, e, upper), e, Extent(t, e, upper), end);
    }
  }

  lemma EndsBehindOnce(covered: set<Address>, entry: Address, end: Address, other: int)
    requires IsExtentEnd(entry, covered, end) && covered != {} && forall a :: a in covered ==> entry <= a
    ensures EndsBehind(covered, other) <==> other == end
  {
    var a :| a in covered;
  }

  // ------------------------------------------------------------------ the report

  ghost predicate IsEntryFunction(t: Task, f: FunctionBounds) { IsEntry(t, f.start) }

  /** The gap `a` is in ends at the next function of an entry, or with the region. */
  ghost predicate IsGapBefore(t: Task, fns: seq<FunctionBounds>, region: CodeRegion, a: Address, gapEnd: Address) {
    && a < gapEnd <= region.end
    && (gapEnd == region.end || exists f :: f in fns && IsEntryFunction(t, f) && f.start == gapEnd)
    && (forall f :: f in fns && IsEntryFunction(t, f) && a < f.start < region.end ==> gapEnd <= f.start)
  }

  /** The function of an entry ends where that entry's does. */
  ghost predicate EntryFunctionFits(t: Task, f: FunctionBounds) {
    exists region: CodeRegion ::
      region in t.code.regions && region.Contains(f.start) && IsEntryEnd(t, region, f.start, f.end)
  }

  /** A function in a gap starts where something can, and ends behind its graph below the end of the gap. */
  ghost predicate GapFunctionFits(t: Task, fns: seq<FunctionBounds>, f: FunctionBounds) {
    exists region: CodeRegion, gapEnd: Address ::
      && region in t.code.regions && region.Contains(f.start)
      && IsGapBefore(t, fns, region, f.start, gapEnd)
      && !StartsNothing(t, f.start, gapEnd) && EndsBehind(GraphAt(t, f.start, gapEnd), f.end)
  }

  /** An aligned word of a region outside all functions starts nothing. */
  ghost predicate WordFits(t: Task, fns: seq<FunctionBounds>, region: CodeRegion, a: Address) {
    Covers(fns, a) || exists gapEnd: Address :: IsGapBefore(t, fns, region, a, gapEnd) && StartsNothing(t, a, gapEnd)
  }

  ghost predicate IsWholeWord(region: CodeRegion, a: Address) {
    a % 4 == 0 && region.start <= a && a + 4 <= region.end
  }

  /**
   A report: ascending disjoint functions, each inside one region; every entry lies in the function of an
   entry; functions of entries end where they should; and with gap discovery on the others are those that
   can start in the gaps, none being left out, while with it off there are no others.
   */
  ghost predicate IsReportOf(t: Task, fns: seq<FunctionBounds>) {
    && Chain(fns, 0, MAX_REGION_END)
    && AllInRegions(t.code, fns)
    && (forall e: Address :: IsEntry(t, e) ==> exists f :: f in fns && IsEntryFunction(t, f) && f.Contains(e))
    && (forall f :: f in fns && IsEntryFunction(t, f) ==> EntryFunctionFits(t, f))
    && (forall f :: f in fns && !IsEntryFunction(t, f) ==>
          t.options.discoverGapFunctions && GapFunctionFits(t, fns, f))
    && (forall region: CodeRegion, a: Address {:trigger WordFits(t, fns, region, a)} ::
          t.options.discoverGapFunctions && region in t.code.regions && IsWholeWord(region, a) ==>
            WordFits(t, fns, region, a))
  }

  // ------------------------------------------------------------------ the analysis reports that

  lemma SweptAreEntryFunctions(t: Task, f: FunctionBounds)
    requires t.code.Valid()
    ensures f in Swept(t) <==> f in Extents(t) && IsEntryFunction(t, f)
  {
    hide Swept, Found, Extents, EndOf, Entries, Chain, InOneRegion, IsEntry, FindRegion;
    EntriesAre(t, f.start);
    SweptShape(t);
    SweptIsFound(t);
    ExtentsPartition(t);
    if f in Extents(t) && f.start in Entries(t) {
      assert Covers(Swept(t), f.start);
      var g :| g in Swept(t) && g.Contains(f.start);
      StartIsInside(Extents(t), f);
      ChainContainsOnce(Extents(t), 0, MAX_REGION_END, f.start);
    }
  }

  lemma GapEndsAgree(t: Task, region: CodeRegion, a: Address, gapEnd: Address)
    requires t.code.Valid()
    ensures IsGapBefore(t, Extents(t), region, a, gapEnd) <==> IsGapEnd(region, Swept(t), a, gapEnd)
  {
    hide Swept, Extents, IsEntryFunction;
    forall f ensures f in Swept(t) <==> f in Extents(t) && IsEntryFunction(t, f) {
      SweptAreEntryFunctions(t, f);
    }
  }

  lemma EntryFunctionsFit(t: Task, f: FunctionBounds)
    requires t.code.Valid() && f in Extents(t) && IsEntryFunction(t, f)
    ensures EntryFunctionFits(t, f)
  {
    hide Swept, Extents, EndOf, Chain, InOneRegion, IsEntryEnd, Entries, IsEntry;
    SweptAreEntryFunctions(t, f);
    SweptShape(t);
    EntriesAre(t, f.start);
    var region := RegionOfEntry(t, f.start);
    EndOfIs(t, region, f.start, f.end);
  }

  lemma RegionOfEntry(t: Task, e: Address) returns (region: CodeRegion)
    requires e in Entries(t)
    ensures region in t.code.regions && region.Contains(e)
  {
    region := FindRegion(t.code.regions, e).value;
  }

  lemma GapFunctionsFit(t: Task, f: FunctionBounds)
    requires t.code.Valid() && f in Extents(t) && !IsEntryFunction(t, f)
    ensures t.options.discoverGapFunctions && GapFunctionFits(t, Extents(t), f)
  {
    hide Swept, Extents, EndOf, Chain, InOneRegion, Covers, IsGapEnd, IsGapBefore, StartsNothing, GraphAt, Rejected;
    hide Entries, IsEntry, Covered, Extent, Gaps;
    SweptAreEntryFunctions(t, f);
    EntriesAre(t, f.start);
    FoundElsewhere(t, f);
    ReportedFunctionsAreJustified(t, f);
    var region: CodeRegion, gapEnd: Address :|
      region in t.code.regions && region.start <= f.start && !Covers(Swept(t), f.start)
      && IsGapEnd(region, Swept(t), f.start, gapEnd) && f.end <= gapEnd && IsCarved(t, f, gapEnd);
    GapEndsAgree(t, region, f.start, gapEnd);
    RejectedStartsNothing(t, f.start, gapEnd);
    CarvedEndsBehind(t, f, gapEnd);
    GapIsBeforeEnd(t, region, f.start, gapEnd);
  }

  lemma GapIsBeforeEnd(t: Task, region: CodeRegion, a: Address, gapEnd: Address)
    requires t.code.Valid() && IsGapBefore(t, Extents(t), region, a, gapEnd)
    ensures a < region.end
  {
    hide Extents;
  }

  lemma CarvedEndsBehind(t: Task, f: FunctionBounds, upper: Address)
    requires t.code.Valid() && IsCarved(t, f, upper)
    ensures EndsBehind(GraphAt(t, f.start, upper), f.end)
  {
    GraphIsCovered(t, f.start, upper);
    CoveredFits(t, f.start, upper);
    hide GraphAt, Covered, CodeImage.Insn, IsPaddingWord, CodeImage.Valid;
    assert Plausible(t, f.start, upper);
    EndsBehindOnce(Covered(t, f.start, upper), f.start, Extent(t, f.start, upper), f.end);
  }

  lemma WordsFit(t: Task, region: CodeRegion, a: Address)
    requires t.code.Valid() && t.options.discoverGapFunctions && region in t.code.regions && IsWholeWord(region, a)
    ensures WordFits(t, Extents(t), region, a)
  {
    hide Swept, Extents, Covers, IsGapEnd, IsGapBefore, StartsNothing, Rejected;
    if !Covers(Extents(t), a) {
      GapWordsAreRejected(t, region, a);
      var gapEnd: Address :| IsGapEnd(region, Swept(t), a, gapEnd) && Rejected(t, a, gapEnd);
      GapEndsAgree(t, region, a, gapEnd);
      RejectedStartsNothing(t, a, gapEnd);
    }
  }

  lemma EntriesAreInside(t: Task, e: Address)
    requires t.code.Valid() && IsEntry(t, e)
    ensures exists f :: f in Extents(t) && IsEntryFunction(t, f) && f.Contains(e)
  {
    hide Swept, Extents, IsEntry, Entries, Chain, InOneRegion, EndOf;
    EntriesAre(t, e);
    SweptShape(t);
    var f :| f in Swept(t) && f.Contains(e);
    SweptAreEntryFunctions(t, f);
  }

  lemma ExtentsAreReport(t: Task)
    requires t.code.Valid()
    ensures IsReportOf(t, Extents(t))
  {
    hide Extents, Chain, InOneRegion, IsEntry, IsEntryFunction, EntryFunctionFits, GapFunctionFits, WordFits, Found;
    hide IsWholeWord;
    ExtentsPartition(t);
    forall e: Address | IsEntry(t, e)
      ensures exists f :: f in Extents(t) && IsEntryFunction(t, f) && f.Contains(e)
    {
      EntriesAreInside(t, e);
    }
    forall f | f in Extents(t) && IsEntryFunction(t, f) ensures EntryFunctionFits(t, f) {
      EntryFunctionsFit(t, f);
    }
    forall f | f in Extents(t) && !IsEntryFunction(t, f)
      ensures t.options.discoverGapFunctions && GapFunctionFits(t, Extents(t), f)
    {
      GapFunctionsFit(t, f);
    }
    forall region: CodeRegion, a: Address
      | t.options.discoverGapFunctions && region in t.code.regions && IsWholeWord(region, a)
      ensures WordFits(t, Extents(t), region, a)
    {
      WordsFit(t, region, a);
    }
  }

  // ------------------------------------------------------------------ and nothing else would do

  lemma FunctionIsInside(t: Task, fns: seq<FunctionBounds>, f: FunctionBounds)
    requires Chain(fns, 0, MAX_REGION_END) && f in fns
    ensures f.Contains(f.start) && 0 <= f.start
  {
  }

  lemma OnlyOneContains(fns: seq<FunctionBounds>, f: FunctionBounds, g: FunctionBounds, a: Address)
    requires Chain(fns, 0, MAX_REGION_END) && f in fns && g in fns && f.Contains(a) && g.Contains(a)
    ensures f == g
  {
    ChainContainsOnce(fns, 0, MAX_REGION_END, a);
  }

  lemma EntryEndIsUnique(t: Task, f: FunctionBounds, g: FunctionBounds)
    requires t.code.Valid() && IsEntryFunction(t, f) && f.start == g.start
    requires EntryFunctionFits(t, f) && EntryFunctionFits(t, g)
    ensures f == g
  {
    hide IsEntryEnd, EndOf, Entries, IsEntry, CodeImage.Valid;
    EntriesAre(t, f.start);
    var q: CodeRegion :| q in t.code.regions && q.Contains(f.start) && IsEntryEnd(t, q, f.start, f.end);
    var r: CodeRegion :| r in t.code.regions && r.Contains(g.start) && IsEntryEnd(t, r, g.start, g.end);
    EndOfIs(t, q, f.start, f.end);
    EndOfIs(t, r, g.start, g.end);
  }

  /** Functions of entries are the same in any two reports: by the address they start at. */
  lemma {:induction false} EntryFunctionsAgree(t: Task, fns: seq<FunctionBounds>, gns: seq<FunctionBounds>,
                                               f: FunctionBounds)
    requires t.code.Valid() && IsReportOf(t, fns) && IsReportOf(t, gns)
    requires f in fns && IsEntryFunction(t, f)
    ensures f in gns
    decreases f.start
  {
    hide Chain, EntryFunctionFits, GapFunctionFits, WordFits, AllInRegions, IsWholeWord, CodeImage.Valid;
    FunctionIsInside(t, fns, f);
    var g :| g in gns && IsEntryFunction(t, g) && g.Contains(f.start);
    if g.start < f.start {
      EntryFunctionsAgree(t, gns, fns, g);
      OnlyOneContains(fns, f, g, f.start);
    }
    assert g.start == f.start;
    EntryEndIsUnique(t, f, g);
  }

  lemma GapsAgree(t: Task, fns: seq<FunctionBounds>, gns: seq<FunctionBounds>, region: CodeRegion, a: Address,
                  gapEnd: Address)
    requires t.code.Valid() && IsReportOf(t, fns) && IsReportOf(t, gns)
    requires IsGapBefore(t, fns, region, a, gapEnd)
    ensures IsGapBefore(t, gns, region, a, gapEnd)
    ensures forall other: Address :: IsGapBefore(t, gns, region, a, other) ==> other == gapEnd
  {
    hide IsReportOf, IsEntryFunction, CodeImage.Valid;
    forall f | IsEntryFunction(t, f) ensures f in fns <==> f in gns {
      if f in fns {
        EntryFunctionsAgree(t, fns, gns, f);
      }
      if f in gns {
        EntryFunctionsAgree(t, gns, fns, f);
      }
    }
  }

  lemma EndsBehindSame(covered: set<Address>, e: int, f: int)
    requires EndsBehind(covered, e) && EndsBehind(covered, f)
    ensures e == f
  {
  }

  lemma SameRegionOf(t: Task, q: CodeRegion, r: CodeRegion, a: Address)
    requires t.code.Valid() && q in t.code.regions && r in t.code.regions && q.Contains(a) && r.Contains(a)
    ensures q == r
  {
    SameRegion(t.code.regions, a, q, r);
  }

  lemma InstructionIsWholeWord(t: Task, region: CodeRegion, a: Address)
    requires t.code.Valid() && region in t.code.regions && region.Contains(a) && t.code.Insn(a).Some?
    ensures IsWholeWord(region, a)
  {
    InsnShape(t.code, a);
    RegionEndIs(t.code, region, a);
  }

  /** Gap functions that start at one address are one. */
  lemma GapFunctionIsUnique(t: Task, fns: seq<FunctionBounds>, gns: seq<FunctionBounds>, f: FunctionBounds,
                            g: FunctionBounds)
    requires t.code.Valid() && IsReportOf(t, fns) && IsReportOf(t, gns) && f.start == g.start
    requires GapFunctionFits(t, fns, f) && GapFunctionFits(t, gns, g)
    ensures f == g
  {
    hide IsReportOf, IsGapBefore, StartsNothing, GraphAt, EndsBehind, CodeImage.Valid;
    var q: CodeRegion, gapEnd: Address :|
      && q in t.code.regions && q.Contains(f.start) && IsGapBefore(t, fns, q, f.start, gapEnd)
      && !StartsNothing(t, f.start, gapEnd) && EndsBehind(GraphAt(t, f.start, gapEnd), f.end);
    var r: CodeRegion, other: Address :|
      && r in t.code.regions && r.Contains(g.start) && IsGapBefore(t, gns, r, g.start, other)
      && !StartsNothing(t, g.start, other) && EndsBehind(GraphAt(t, g.start, other), g.end);
    SameRegionOf(t, q, r, f.start);
    GapsAgree(t, fns, gns, q, f.start, gapEnd);
    EndsBehindSame(GraphAt(t, f.start, gapEnd), f.end, g.end);
  }

  /** Where one report has a gap function, every other has some function. */
  lemma GapFunctionIsCovered(t: Task, fns: seq<FunctionBounds>, gns: seq<FunctionBounds>, f: FunctionBounds)
    requires t.code.Valid() && IsReportOf(t, fns) && IsReportOf(t, gns)
    requires t.options.discoverGapFunctions && GapFunctionFits(t, fns, f)
    ensures Covers(gns, f.start)
  {
    var q: CodeRegion, gapEnd: Address :|
      && q in t.code.regions && q.Contains(f.start) && IsGapBefore(t, fns, q, f.start, gapEnd)
      && !StartsNothing(t, f.start, gapEnd) && EndsBehind(GraphAt(t, f.start, gapEnd), f.end);
    assert t.code.Insn(f.start).Some?;
    hide CodeImage.Valid, CodeImage.Insn, Chain, IsEntryFunction, EntryFunctionFits, IsGapBefore, StartsNothing;
    hide GraphAt, Covers, IsWholeWord;
    InstructionIsWholeWord(t, q, f.start);
    assert WordFits(t, gns, q, f.start);
    GapsAgree(t, fns, gns, q, f.start, gapEnd);
  }

  /** So any two reports have the same functions, again by the address they start at. */
  lemma {:induction false} FunctionsAgree(t: Task, fns: seq<FunctionBounds>, gns: seq<FunctionBounds>,
                                          f: FunctionBounds)
    requires t.code.Valid() && IsReportOf(t, fns) && IsReportOf(t, gns) && f in fns
    ensures f in gns
    decreases f.start
  {
    hide Chain, IsEntryFunction, EntryFunctionFits, GapFunctionFits, WordFits, AllInRegions, IsWholeWord;
    hide CodeImage.Valid;
    if IsEntryFunction(t, f) {
      EntryFunctionsAgree(t, fns, gns, f);
    } else {
      FunctionIsInside(t, fns, f);
      GapFunctionIsCovered(t, fns, gns, f);
      var g :| g in gns && g.Contains(f.start);
      if g.start < f.start {
        FunctionsAgree(t, gns, fns, g);
        OnlyOneContains(fns, f, g, f.start);
      }
      assert g.start == f.start;
      SameStartSameKind(t, f, g);
      GapFunctionIsUnique(t, fns, gns, f, g);
    }
  }

  lemma SameStartSameKind(t: Task, f: FunctionBounds, g: FunctionBounds)
    requires f.start == g.start
    ensures IsEntryFunction(t, f) <==> IsEntryFunction(t, g)
  {
  }

  lemma SameEmptiness(fns: seq<FunctionBounds>, gns: seq<FunctionBounds>)
    requires forall f :: f in fns <==> f in gns
    ensures fns == [] <==> gns == []
  {
    if fns != [] {
      assert fns[0] in gns;
    }
    if gns != [] {
      assert gns[0] in fns;
    }
  }

  /** Ascending lists with the same functions are the same list. */
  lemma {:induction false} ChainsAreEqual(fns: seq<FunctionBounds>, gns: seq<FunctionBounds>, lo: int)
    requires Chain(fns, lo, MAX_REGION_END) && Chain(gns, lo, MAX_REGION_END)
    requires forall f :: f in fns <==> f in gns
    ensures fns == gns
    decreases |fns|
  {
    SameEmptiness(fns, gns);
    if fns != [] {
      FirstIsLeast(fns, gns, lo);
      FirstIsLeast(gns, fns, lo);
      assert fns[0] == gns[0];
      RestAgrees(fns, gns, lo);
      ChainsAreEqual(fns[1..], gns[1..], fns[0].end);
      assert fns == [fns[0]] + fns[1..] && gns == [gns[0]] + gns[1..];
    }
  }

  /**
   There is exactly one report, and the analysis gives it: whatever list meets the description is the one
   returned.
   */
  lemma ReportIsDetermined(t: Task, fns: seq<FunctionBounds>)
    requires t.code.Valid()
    ensures IsReportOf(t, fns) <==> fns == Extents(t)
  {
    hide Extents, IsReportOf, CodeImage.Valid;
    ExtentsAreReport(t);
    if IsReportOf(t, fns) {
      forall f ensures f in fns <==> f in Extents(t) {
        if f in fns {
          FunctionsAgree(t, fns, Extents(t), f);
        }
        if f in Extents(t) {
          FunctionsAgree(t, Extents(t), fns, f);
        }
      }
      ReportsAreChains(t, fns);
      ReportsAreChains(t, Extents(t));
      ChainsAreEqual(fns, Extents(t), 0);
    }
  }

  lemma ReportsAreChains(t: Task, fns: seq<FunctionBounds>)
    requires t.code.Valid() && IsReportOf(t, fns)
    ensures Chain(fns, 0, MAX_REGION_END)
  {
  }

  lemma FirstIsLeast(fns: seq<FunctionBounds>, gns: seq<FunctionBounds>, lo: int)
    requires Chain(fns, lo, MAX_REGION_END) && fns != [] && gns != [] && forall f :: f in gns ==> f in fns
    ensures fns[0].start <= gns[0].start && (fns[0].start == gns[0].start ==> fns[0] == gns[0])
  {
    assert gns[0] in fns;
    var i :| 0 <= i < |fns| && fns[i] == gns[0];
  }

  lemma RestAgrees(fns: seq<FunctionBounds>, gns: seq<FunctionBounds>, lo: int)
    requires Chain(fns, lo, MAX_REGION_END) && Chain(gns, lo, MAX_REGION_END) && fns != [] && gns != []
    requires fns[0] == gns[0] && forall f :: f in fns <==> f in gns
    ensures Chain(fns[1..], fns[0].end, MAX_REGION_END) && Chain(gns[1..], fns[0].end, MAX_REGION_END)
    ensures forall f :: f in fns[1..] <==> f in gns[1..]
  {
    assert fns == [fns[0]] + fns[1..] && gns == [gns[0]] + gns[1..];
    forall f | f in fns[1..] ensures f in gns[1..] {
      assert f in fns && f != fns[0];
    }
    forall f | f in gns[1..] ensures f in fns[1..] {
      assert f in gns && f != gns[0];
    }
  }
}
