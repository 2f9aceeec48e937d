/**
 Where functions start and end: the greedy sweep over entries, the carving of the gaps it leaves, and
 the final merge, as functions of what the analysis may depend on.
 */
module FunctionExtents {
  import opened Types
  import opened Code
  import opened Sorting
  import opened ControlFlowGraphs

  datatype FunctionBounds = FunctionBounds(start: Address, end: Address)
  {
    predicate Contains(a: int) { start <= a < end }
  }

  datatype Options = Options(
    maxInstructions: nat,
    discoverGapFunctions: bool,
    linearPastIndirectBranch: bool,
    minGapFunctionInstructions: nat)

  /** Everything an analysis depends on: entries as sets, not in the order they were listed. */
  datatype Task = Task(
    code: CodeImage,
    strong: set<Address>,
    soft: set<Address>,
    sizes: map<Address, Address>,
    options: Options)

  function StrongEntries(t: Task): set<Address> { set a | a in t.strong && t.code.Usable(a) }

  function Entries(t: Task): set<Address> { StrongEntries(t) + set a | a in t.soft && t.code.Usable(a) }

  /** A strong entry whose size the symbol table or unwind information states. */
  predicate IsAuthoritative(t: Task, a: Address) {
    a in StrongEntries(t) && a in t.sizes && t.sizes[a] > 0
  }

  function NextStrong(t: Task, a: Address): (next: Address)
    ensures a < INVALID_ADDRESS ==> a < next
    ensures forall s :: s in StrongEntries(t) && a < s ==> next <= s
    ensures next == INVALID_ADDRESS || next in StrongEntries(t)
  {
    var later := set s | s in StrongEntries(t) && a < s;
    assert forall s :: s in StrongEntries(t) && a < s ==> s in later;
    if later == {} then INVALID_ADDRESS else Least(later)
  }

  function AlignUp(a: int): (r: int)
    ensures Aligned(r) && a <= r < a + INSTRUCTION_SIZE
    ensures forall b :: Aligned(b) && a <= b ==> r <= b
  {
    (a + 3) / 4 * 4
  }

  // ------------------------------------------------------------------ one function's extent

  function BuildRequest(t: Task, entry: Address, upper: Address): Request {
    Request(entry, upper, Entries(t), t.options.maxInstructions, t.options.linearPastIndirectBranch, false)
  }

  ghost function Covered(t: Task, entry: Address, upper: Address): set<Address> {
    Explore(t.code, BuildRequest(t, entry, upper)).visited
  }

  /** The end of the control-flow graph built at `entry` below `upper`. */
  ghost function Extent(t: Task, entry: Address, upper: Address): (end: Address)
    requires t.code.Valid()
    ensures IsExtentEnd(entry, Covered(t, entry, upper), end)
    ensures end == entry || end <= upper
    ensures end == entry <==> Covered(t, entry, upper) == {}
  {
    CoveredFits(t, entry, upper);
    ExtentEndExists(entry, upper, Covered(t, entry, upper));
    var end: Address :| IsExtentEnd(entry, Covered(t, entry, upper), end);
    end
  }

  lemma CoveredFits(t: Task, entry: Address, upper: Address)
    requires t.code.Valid()
    ensures forall a :: a in Covered(t, entry, upper) ==> entry <= a && a + INSTRUCTION_SIZE <= upper
  {
    forall a | a in Covered(t, entry, upper) ensures entry <= a && a + INSTRUCTION_SIZE <= upper {
      CoveredShape(t.code, BuildRequest(t, entry, upper), a);
    }
  }

  /** The graph's extent, or one word (at most to the end of the region) when nothing is covered. */
  ghost function CfgEnd(t: Task, entry: Address, upper: Address): int
    requires t.code.Valid()
  {
    var end := Extent(t, entry, upper);
    if end <= entry then Min(t.code.RegionEnd(entry), entry + INSTRUCTION_SIZE) else end
  }

  /** Where a function that starts at a usable entry ends. */
  ghost function EndOf(t: Task, a: Address): (end: int)
    requires t.code.Valid() && a in Entries(t)
  {
    var regionEnd := t.code.RegionEnd(a);
    if IsAuthoritative(t, a) then
      Min(regionEnd, a + t.sizes[a])
    else
      Min(CfgEnd(t, a, Min(NextStrong(t, a), regionEnd)), regionEnd)
  }

  lemma UsableRegion(code: CodeImage, a: Address)
    requires code.Contains(a)
    ensures a < code.RegionEnd(a) <= MAX_REGION_END
    ensures exists r :: r in code.regions && r.Contains(a) && r.end == code.RegionEnd(a)
  {
  }

  /** Every function is non-empty and stays in its region; only a stated size lets it cross the next
      strong entry. */
  lemma EndOfShape(t: Task, a: Address)
    requires t.code.Valid() && a in Entries(t)
    ensures a < EndOf(t, a) <= t.code.RegionEnd(a) <= MAX_REGION_END
    ensures !IsAuthoritative(t, a) ==> EndOf(t, a) <= NextStrong(t, a)
  {
    UsableRegion(t.code, a);
    hide CodeImage.RegionEnd, CodeImage.Contains, FindRegion;
    if !IsAuthoritative(t, a) {
      var next := NextStrong(t, a);
      NextStrongIsFar(t, a);
    }
  }

  lemma NextStrongIsFar(t: Task, a: Address)
    requires a in Entries(t) && a < MAX_REGION_END
    ensures a + INSTRUCTION_SIZE <= NextStrong(t, a)
  {
    hide FindRegion;
  }

  // ------------------------------------------------------------------ the sweep

  /** Take the entries in ascending order, skipping those an earlier function already covers. */
  ghost function Sweep(t: Task, todo: set<Address>, coverEnd: int): seq<FunctionBounds>
    requires t.code.Valid() && todo <= Entries(t)
    decreases |todo|
  {
    if todo == {} then [] else
      var a := Least(todo);
      if a < coverEnd then Sweep(t, todo - {a}, coverEnd) else
        EndOfShape(t, a);
        [FunctionBounds(a, EndOf(t, a))] + Sweep(t, todo - {a}, EndOf(t, a))
  }

  lemma SweepStep(t: Task, todo: set<Address>, coverEnd: int)
    requires t.code.Valid() && todo <= Entries(t) && todo != {}
    ensures var a := Least(todo);
      && |todo - {a}| < |todo|
      && a < EndOf(t, a) <= MAX_REGION_END
      && Sweep(t, todo, coverEnd) ==
         if a < coverEnd then Sweep(t, todo - {a}, coverEnd)
         else [FunctionBounds(a, EndOf(t, a))] + Sweep(t, todo - {a}, EndOf(t, a))
  {
    EndOfShape(t, Least(todo));
    hide EndOf, Entries;
  }

  lemma SweepNothing(t: Task, coverEnd: int)
    requires t.code.Valid()
    ensures Sweep(t, {}, coverEnd) == []
  {
  }

  ghost function Swept(t: Task): seq<FunctionBounds>
    requires t.code.Valid()
  {
    Sweep(t, Entries(t), 0)
  }

  // ------------------------------------------------------------------ the gaps

  /** The graph built at `a` covers something and either returns or is long enough. */
  ghost predicate Plausible(t: Task, a: Address, upper: Address) {
    var covered := Covered(t, a, upper);
    && covered != {}
    && (ReachesReturn(t.code, covered) || |covered| >= t.options.minGapFunctionInstructions)
  }

  /** A gap word that does not start a function: padding, undecodable, or no plausible graph. */
  ghost predicate Rejected(t: Task, a: Address, upper: Address) {
    IsPaddingWord(t.code.regions, a) || t.code.Insn(a).None? || !Plausible(t, a, upper)
  }

  /** The functions found in a gap by stepping a word at a time from `cursor`. */
  ghost function Carve(t: Task, cursor: int, gapEnd: Address): seq<FunctionBounds>
    requires t.code.Valid() && 0 <= cursor
    decreases gapEnd - cursor
  {
    if cursor + INSTRUCTION_SIZE > gapEnd then []
    else
      var upper := Min(NextStrong(t, cursor), gapEnd);
      if Rejected(t, cursor, upper) then Carve(t, cursor + INSTRUCTION_SIZE, gapEnd)
      else
        var end := Extent(t, cursor, upper);
        [FunctionBounds(cursor, end)] + Carve(t, AlignUp(end), gapEnd)
  }

  lemma CarveEnds(t: Task, cursor: int, gapEnd: Address)
    requires t.code.Valid() && 0 <= cursor && cursor + INSTRUCTION_SIZE > gapEnd
    ensures Carve(t, cursor, gapEnd) == []
  {
  }

  /** One step of the gap cursor. */
  lemma CarveStep(t: Task, cursor: Address, gapEnd: Address)
    requires t.code.Valid() && cursor + INSTRUCTION_SIZE <= gapEnd
    ensures var upper := Min(NextStrong(t, cursor), gapEnd);
      if Rejected(t, cursor, upper) then Carve(t, cursor, gapEnd) == Carve(t, cursor + INSTRUCTION_SIZE, gapEnd)
      else
        var end := Extent(t, cursor, upper);
        && cursor < end <= gapEnd
        && Carve(t, cursor, gapEnd) == [FunctionBounds(cursor, end)] + Carve(t, AlignUp(end), gapEnd)
  {
    var upper := Min(NextStrong(t, cursor), gapEnd);
    if !Rejected(t, cursor, upper) {
      assert cursor < Extent(t, cursor, upper);
    }
    hide Rejected, Extent, NextStrong, AlignUp, Aligned;
  }

  /** The functions found in one region, between `pos` and its end, around the swept functions from
      index `i` on. */
  ghost function GapsIn(t: Task, region: CodeRegion, swept: seq<FunctionBounds>, i: nat,
                        pos: Address): seq<FunctionBounds>
    requires t.code.Valid() && i <= |swept|
    decreases |swept| - i
  {
    if i == |swept| then
      if pos < region.end then Carve(t, AlignUp(pos), region.end) else []
    else
      var fn := swept[i];
      if fn.end <= region.start || fn.start >= region.end then GapsIn(t, region, swept, i + 1, pos)
      else
        (if fn.start > pos then Carve(t, AlignUp(pos), fn.start) else [])
        + GapsIn(t, region, swept, i + 1, Max(pos, Min(fn.end, region.end)))
  }

  ghost function Gaps(t: Task, swept: seq<FunctionBounds>, k: nat): seq<FunctionBounds>
    requires t.code.Valid() && k <= |t.code.regions|
    decreases |t.code.regions| - k
  {
    if k == |t.code.regions| then [] else
      var region := t.code.regions[k];
      GapsIn(t, region, swept, 0, region.start) + Gaps(t, swept, k + 1)
  }

  // ------------------------------------------------------------------ the merge

  predicate BoundsBefore(a: FunctionBounds, b: FunctionBounds) {
    if a.start != b.start then a.start < b.start else a.end < b.end
  }

  /** Drop empty functions and those that start inside the last one kept. */
  function KeepApart(kept: seq<FunctionBounds>, fns: seq<FunctionBounds>): seq<FunctionBounds>
    decreases |fns|
  {
    if fns == [] then kept
    else if fns[0].end <= fns[0].start || (kept != [] && fns[0].start < kept[|kept| - 1].end) then
      KeepApart(kept, fns[1..])
    else KeepApart(kept + [fns[0]], fns[1..])
  }

  /** The functions before the final filter. */
  ghost function Found(t: Task): seq<FunctionBounds>
    requires t.code.Valid()
  {
    var swept := Swept(t);
    swept + if t.options.discoverGapFunctions then Gaps(t, swept, 0) else []
  }

  ghost function Extents(t: Task): seq<FunctionBounds>
    requires t.code.Valid()
  {
    KeepApart([], Sort(Found(t), BoundsBefore))
  }
}
