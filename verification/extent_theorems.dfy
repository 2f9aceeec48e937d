/** What the recovered function extents guarantee. */
module ExtentTheorems {
  import opened Types
  import opened Code
  import opened Sorting
  import opened ControlFlowGraphs
  import opened FunctionExtents

  /** Non-empty, ascending and disjoint, between two addresses. */
  ghost predicate Chain(fns: seq<FunctionBounds>, lo: int, hi: int) {
    && (forall i :: 0 <= i < |fns| ==> lo <= fns[i].start < fns[i].end <= hi)
    && (forall i, j :: 0 <= i < j < |fns| ==> fns[i].end <= fns[j].start)
  }

  lemma ChainAppends(a: seq<FunctionBounds>, b: seq<FunctionBounds>, lo: int, mid: int, hi: int)
    requires Chain(a, lo, mid) && Chain(b, mid, hi) && lo <= mid <= hi
    ensures Chain(a + b, lo, hi)
  {
  }

  ghost predicate Covers(fns: seq<FunctionBounds>, a: int) {
    exists f :: f in fns && f.Contains(a)
  }

  ghost predicate StartsAt(fns: seq<FunctionBounds>, a: Address) {
    exists f :: f in fns && f.start == a
  }

  // ------------------------------------------------------------------ the sweep

  ghost predicate FromEntries(t: Task, todo: set<Address>, fns: seq<FunctionBounds>)
    requires t.code.Valid() && todo <= Entries(t)
  {
    forall f :: f in fns ==> f.start in todo && f.end == EndOf(t, f.start)
  }

  lemma {:induction false} SweepShape(t: Task, todo: set<Address>, coverEnd: int)
    requires t.code.Valid() && todo <= Entries(t) && coverEnd <= MAX_REGION_END
    ensures Chain(Sweep(t, todo, coverEnd), coverEnd, MAX_REGION_END)
    ensures FromEntries(t, todo, Sweep(t, todo, coverEnd))
    decreases |todo|
  {
    hide EndOf, Entries, Sweep;
    if todo == {} {
      SweepNothing(t, coverEnd);
    } else {
      SweepStep(t, todo, coverEnd);
      var a := Least(todo);
      var rest := todo - {a};
      if a < coverEnd {
        SweepShape(t, rest, coverEnd);
      } else {
        var fn := FunctionBounds(a, EndOf(t, a));
        SweepShape(t, rest, fn.end);
        ChainAppends([fn], Sweep(t, rest, fn.end), coverEnd, fn.end, MAX_REGION_END);
      }
    }
  }

  lemma {:induction false} SweepCovers(t: Task, todo: set<Address>, coverEnd: int, e: Address)
    requires t.code.Valid() && todo <= Entries(t) && e in todo && coverEnd <= e
    ensures Covers(Sweep(t, todo, coverEnd), e)
    decreases |todo|
  {
    hide EndOf, Entries, Sweep;
    SweepStep(t, todo, coverEnd);
    var a := Least(todo);
    var rest := todo - {a};
    if a < coverEnd {
      SweepCovers(t, rest, coverEnd, e);
    } else {
      var fn := FunctionBounds(a, EndOf(t, a));
      var fns := Sweep(t, todo, coverEnd);
      assert fns[0] == fn;
      if e < fn.end {
        assert fn.Contains(e);
      } else {
        SweepCovers(t, rest, fn.end, e);
        var f :| f in Sweep(t, rest, fn.end) && f.Contains(e);
        assert f in fns;
      }
    }
  }

  ghost predicate InOneRegion(code: CodeImage, f: FunctionBounds) {
    exists r :: r in code.regions && r.start <= f.start < f.end <= r.end
  }

  lemma EntryStaysInRegion(t: Task, f: FunctionBounds)
    requires t.code.Valid() && f.start in Entries(t) && f.end == EndOf(t, f.start)
    ensures InOneRegion(t.code, f)
  {
    hide EndOf, FindRegion;
    EndOfShape(t, f.start);
    UsableRegion(t.code, f.start);
  }

  lemma SweptShape(t: Task)
    requires t.code.Valid()
    ensures Chain(Swept(t), 0, MAX_REGION_END)
    ensures FromEntries(t, Entries(t), Swept(t))
    ensures forall f :: f in Swept(t) ==> InOneRegion(t.code, f)
    ensures forall e :: e in Entries(t) ==> Covers(Swept(t), e)
  {
    hide EndOf, FindRegion, Sweep, Chain, Covers, Entries;
    SweepShape(t, Entries(t), 0);
    forall e | e in Entries(t) ensures Covers(Swept(t), e) {
      SweepCovers(t, Entries(t), 0, e);
    }
    forall f | f in Swept(t) ensures InOneRegion(t.code, f) {
      EntryStaysInRegion(t, f);
    }
  }

  // ------------------------------------------------------------------ carving

  lemma {:induction false} CarveShape(t: Task, cursor: int, gapEnd: Address)
    requires t.code.Valid() && 0 <= cursor
    ensures Chain(Carve(t, cursor, gapEnd), cursor, Max(cursor, gapEnd))
    decreases gapEnd - cursor
  {
    hide Rejected, Extent, NextStrong, Carve, AlignUp, Aligned, IsExtentEnd;
    if cursor + INSTRUCTION_SIZE > gapEnd {
      CarveEnds(t, cursor, gapEnd);
    } else {
      CarveStep(t, cursor, gapEnd);
      var upper := Min(NextStrong(t, cursor), gapEnd);
      if Rejected(t, cursor, upper) {
        CarveShape(t, cursor + INSTRUCTION_SIZE, gapEnd);
      } else {
        var end := Extent(t, cursor, upper);
        CarveShape(t, AlignUp(end), gapEnd);
        var tail := Carve(t, AlignUp(end), gapEnd);
        assert tail == [] || Chain(tail, end, gapEnd);
        ChainAppends([FunctionBounds(cursor, end)], tail, cursor, end, gapEnd);
      }
    }
  }

  /** Every aligned word of a gap ends up inside a carved function or was looked at and rejected. */
  lemma {:induction false} CarveIsComplete(t: Task, cursor: int, gapEnd: Address, a: Address)
    requires t.code.Valid() && 0 <= cursor && Aligned(cursor)
    requires Aligned(a) && cursor <= a && a + INSTRUCTION_SIZE <= gapEnd
    ensures Covers(Carve(t, cursor, gapEnd), a) || Rejected(t, a, Min(NextStrong(t, a), gapEnd))
    decreases gapEnd - cursor
  {
    hide Rejected, Extent, NextStrong, Carve, AlignUp, IsExtentEnd;
    CarveStep(t, cursor, gapEnd);
    var upper := Min(NextStrong(t, cursor), gapEnd);
    if Rejected(t, cursor, upper) {
      if a != cursor {
        CarveIsComplete(t, cursor + INSTRUCTION_SIZE, gapEnd, a);
      }
    } else {
      var end := Extent(t, cursor, upper);
      var fns := Carve(t, cursor, gapEnd);
      assert fns[0] == FunctionBounds(cursor, end);
      if a < end {
        assert fns[0] in fns && fns[0].Contains(a);
      } else {
        assert AlignUp(end) <= a;
        CarveIsComplete(t, AlignUp(end), gapEnd, a);
        if Covers(Carve(t, AlignUp(end), gapEnd), a) {
          var f :| f in Carve(t, AlignUp(end), gapEnd) && f.Contains(a);
          assert f in fns;
        }
      }
    }
  }

  // ------------------------------------------------------------------ the gaps of one region

  predicate Apart(f: FunctionBounds, g: FunctionBounds) { f.end <= g.start || g.end <= f.start }

  /** What the sweep hands to the gap search. */
  ghost predicate SweptOk(code: CodeImage, swept: seq<FunctionBounds>) {
    && Chain(swept, 0, MAX_REGION_END)
    && (forall f :: f in swept ==> InOneRegion(code, f) && Aligned(f.start))
  }

  /** The functions before index `i` end before `pos` or lie past the region. */
  ghost predicate Behind(swept: seq<FunctionBounds>, i: nat, region: CodeRegion, pos: int)
    requires i <= |swept|
  {
    forall j :: 0 <= j < i ==> swept[j].end <= pos || swept[j].start >= region.end
  }

  lemma OverlapIsInside(code: CodeImage, region: CodeRegion, f: FunctionBounds)
    requires ValidRegions(code.regions) && region in code.regions && InOneRegion(code, f)
    ensures f.end <= region.start || f.start >= region.end || region.start <= f.start < f.end <= region.end
  {
    var r :| r in code.regions && r.start <= f.start < f.end <= r.end;
    var i :| 0 <= i < |code.regions| && code.regions[i] == r;
    var j :| 0 <= j < |code.regions| && code.regions[j] == region;
    if i < j {
      assert code.regions[i].end <= code.regions[j].start;
    } else if j < i {
      assert code.regions[j].end <= code.regions[i].start;
    }
  }

  /** How the gap search moves past the next swept function. */
  lemma PastNext(code: CodeImage, region: CodeRegion, swept: seq<FunctionBounds>, i: nat, pos: Address)
    requires ValidRegions(code.regions) && region in code.regions && SweptOk(code, swept)
    requires i < |swept| && region.start <= pos <= region.end && Behind(swept, i, region, pos)
    ensures var fn := swept[i];
      if fn.end <= region.start || fn.start >= region.end then Behind(swept, i + 1, region, pos)
      else
        && region.start <= fn.start < fn.end <= region.end
        && Min(fn.end, region.end) == fn.end
        && Behind(swept, i + 1, region, Max(pos, fn.end))
  {
    OverlapIsInside(code, region, swept[i]);
  }

  ghost predicate FreeOf(fns: seq<FunctionBounds>, swept: seq<FunctionBounds>) {
    forall g, f :: g in fns && f in swept ==> Apart(f, g)
  }

  /** A stretch between `pos` and the next swept function touches no swept function. */
  lemma GapIsFree(code: CodeImage, region: CodeRegion, swept: seq<FunctionBounds>, i: nat, pos: Address,
                  gapEnd: Address, fns: seq<FunctionBounds>)
    requires SweptOk(code, swept) && i <= |swept| && Behind(swept, i, region, pos)
    requires gapEnd <= region.end && (i < |swept| ==> gapEnd <= swept[i].start)
    requires Chain(fns, pos, gapEnd)
    ensures FreeOf(fns, swept)
  {
    hide InOneRegion, Aligned;
    forall g, f | g in fns && f in swept ensures Apart(f, g) {
      var j :| 0 <= j < |swept| && swept[j] == f;
      if j >= i {
        assert swept[i].start <= f.start;
      }
    }
  }

  lemma CarveBetween(t: Task, pos: Address, gapEnd: Address)
    requires t.code.Valid() && pos <= gapEnd
    ensures Chain(Carve(t, AlignUp(pos), gapEnd), pos, gapEnd)
  {
    hide Carve, AlignUp, Aligned;
    CarveShape(t, AlignUp(pos), gapEnd);
    if AlignUp(pos) > gapEnd {
      CarveEnds(t, AlignUp(pos), gapEnd);
    }
  }

  lemma {:induction false} GapsInShape(t: Task, region: CodeRegion, swept: seq<FunctionBounds>, i: nat, pos: Address)
    requires t.code.Valid() && region in t.code.regions && SweptOk(t.code, swept)
    requires i <= |swept| && region.start <= pos <= region.end && Behind(swept, i, region, pos)
    ensures Chain(GapsIn(t, region, swept, i, pos), pos, region.end)
    ensures FreeOf(GapsIn(t, region, swept, i, pos), swept)
    decreases |swept| - i
  {
    hide Carve, AlignUp, SweptOk, Behind, Chain, FreeOf;
    if i == |swept| {
      CarveBetween(t, pos, region.end);
      GapIsFree(t.code, region, swept, i, pos, region.end, Carve(t, AlignUp(pos), region.end));
      NothingIsFree(pos, region.end, swept);
    } else {
      PastNext(t.code, region, swept, i, pos);
      var fn := swept[i];
      if fn.end <= region.start || fn.start >= region.end {
        GapsInShape(t, region, swept, i + 1, pos);
      } else {
        var next := Max(pos, fn.end);
        GapsInShape(t, region, swept, i + 1, next);
        var tail := GapsIn(t, region, swept, i + 1, next);
        if fn.start > pos {
          var head := Carve(t, AlignUp(pos), fn.start);
          CarveBetween(t, pos, fn.start);
          GapIsFree(t.code, region, swept, i, pos, fn.start, head);
          ChainWidens(head, pos, fn.start, pos, next);
          ChainAppends(head, tail, pos, next, region.end);
          FreeAppends(head, tail, swept);
        } else {
          ChainWidens(tail, next, region.end, pos, region.end);
          assert [] + tail == tail;
        }
      }
    }
  }

  lemma NothingIsFree(lo: int, hi: int, swept: seq<FunctionBounds>)
    ensures Chain([], lo, hi) && FreeOf([], swept)
  {
  }

  lemma ChainWidens(fns: seq<FunctionBounds>, lo: int, hi: int, lower: int, higher: int)
    requires Chain(fns, lo, hi) && lower <= lo && hi <= higher
    ensures Chain(fns, lower, higher)
  {
  }

  lemma FreeAppends(a: seq<FunctionBounds>, b: seq<FunctionBounds>, swept: seq<FunctionBounds>)
    requires FreeOf(a, swept) && FreeOf(b, swept)
    ensures FreeOf(a + b, swept)
  {
  }

  /** Where the gap holding `a` ends: the next swept start in the region, else the region's end. */
  ghost predicate IsGapEnd(region: CodeRegion, swept: seq<FunctionBounds>, a: Address, gapEnd: Address) {
    && a < gapEnd <= region.end
    && (gapEnd == region.end || StartsAt(swept, gapEnd))
    && (forall f :: f in swept && a < f.start < region.end ==> gapEnd <= f.start)
  }

  lemma GapEndIsUnique(region: CodeRegion, swept: seq<FunctionBounds>, a: Address, e: Address, f: Address)
    requires IsGapEnd(region, swept, a, e) && IsGapEnd(region, swept, a, f)
    ensures e == f
  {
  }

  lemma NextStartIsGapEnd(code: CodeImage, region: CodeRegion, swept: seq<FunctionBounds>, i: nat, pos: Address,
                          a: Address)
    requires SweptOk(code, swept) && i <= |swept| && Behind(swept, i, region, pos)
    requires pos <= a < region.end
    requires i < |swept| ==> a < swept[i].start < region.end
    ensures IsGapEnd(region, swept, a, if i < |swept| then swept[i].start else region.end)
  {
    hide InOneRegion, Aligned;
    forall f | f in swept && a < f.start < region.end
      ensures i < |swept| && swept[i].start <= f.start
    {
      var j :| 0 <= j < |swept| && swept[j] == f;
    }
    if i < |swept| {
      assert swept[i] in swept;
    }
  }

  lemma AlignedFits(a: int, start: int)
    requires Aligned(a) && Aligned(start) && a < start
    ensures a + INSTRUCTION_SIZE <= start
  {
  }

  /** An aligned word of the region that no swept function covers was carved or rejected in its gap. */
  lemma {:induction false} GapsInComplete(t: Task, region: CodeRegion, swept: seq<FunctionBounds>, i: nat, pos: Address,
                                          a: Address, gapEnd: Address)
    requires t.code.Valid() && region in t.code.regions && SweptOk(t.code, swept)
    requires i <= |swept| && region.start <= pos <= region.end && Behind(swept, i, region, pos)
    requires Aligned(a) && pos <= a && a + INSTRUCTION_SIZE <= region.end && !Covers(swept, a)
    requires IsGapEnd(region, swept, a, gapEnd)
    ensures Covers(GapsIn(t, region, swept, i, pos), a) || Rejected(t, a, Min(NextStrong(t, a), gapEnd))
    decreases |swept| - i
  {
    hide Carve, AlignUp, Behind, Chain, Rejected, Covers, IsGapEnd, InOneRegion, NextStrong, Aligned;
    if i == |swept| {
      NextStartIsGapEnd(t.code, region, swept, i, pos, a);
      GapEndIsUnique(region, swept, a, gapEnd, region.end);
      CarveIsComplete(t, AlignUp(pos), region.end, a) by { AlignedPos(pos, a); }
    } else {
      PastNext(t.code, region, swept, i, pos);
      var fn := swept[i];
      assert fn in swept;
      if fn.end <= region.start || fn.start >= region.end {
        GapsInComplete(t, region, swept, i + 1, pos, a, gapEnd);
      } else if a < fn.start {
        NextStartIsGapEnd(t.code, region, swept, i, pos, a);
        GapEndIsUnique(region, swept, a, gapEnd, fn.start);
        AlignedFits(a, fn.start);
        CarveIsComplete(t, AlignUp(pos), fn.start, a) by { AlignedPos(pos, a); }
        var head, tail := Carve(t, AlignUp(pos), fn.start), GapsIn(t, region, swept, i + 1, Max(pos, fn.end));
        CoversLeft(head, tail, a);
      } else {
        NotInside(swept, fn, a);
        var next := Max(pos, fn.end);
        GapsInComplete(t, region, swept, i + 1, next, a, gapEnd);
        var head := if fn.start > pos then Carve(t, AlignUp(pos), fn.start) else [];
        CoversRight(head, GapsIn(t, region, swept, i + 1, next), a);
      }
    }
  }

  lemma AlignedPos(pos: int, a: int)
    requires Aligned(a) && pos <= a
    ensures Aligned(AlignUp(pos)) && AlignUp(pos) <= a
  {
  }

  lemma NotInside(fns: seq<FunctionBounds>, f: FunctionBounds, a: Address)
    requires !Covers(fns, a) && f in fns
    ensures !f.Contains(a)
  {
  }

  lemma CoversLeft(x: seq<FunctionBounds>, y: seq<FunctionBounds>, a: Address)
    ensures Covers(x, a) ==> Covers(x + y, a)
  {
    if Covers(x, a) {
      var f :| f in x && f.Contains(a);
      assert f in x + y;
    }
  }

  lemma CoversRight(x: seq<FunctionBounds>, y: seq<FunctionBounds>, a: Address)
    ensures Covers(y, a) ==> Covers(x + y, a)
  {
    if Covers(y, a) {
      var f :| f in y && f.Contains(a);
      assert f in x + y;
    }
  }

  // ------------------------------------------------------------------ the gaps of all regions

  ghost predicate AllInRegions(code: CodeImage, fns: seq<FunctionBounds>) {
    forall f :: f in fns ==> InOneRegion(code, f)
  }

  lemma ChainInRegion(code: CodeImage, region: CodeRegion, fns: seq<FunctionBounds>)
    requires region in code.regions && Chain(fns, region.start, region.end)
    ensures AllInRegions(code, fns)
  {
  }

  ghost function StartOf(code: CodeImage, k: nat): int
    requires k <= |code.regions|
  {
    if k < |code.regions| then code.regions[k].start else MAX_REGION_END
  }

  lemma {:induction false} GapsShape(t: Task, swept: seq<FunctionBounds>, k: nat)
    requires t.code.Valid() && SweptOk(t.code, swept) && k <= |t.code.regions|
    ensures Chain(Gaps(t, swept, k), StartOf(t.code, k), MAX_REGION_END)
    ensures FreeOf(Gaps(t, swept, k), swept)
    ensures AllInRegions(t.code, Gaps(t, swept, k))
    decreases |t.code.regions| - k
  {
    hide GapsIn, SweptOk, FreeOf, Chain, InOneRegion;
    if k == |t.code.regions| {
      NothingIsFree(MAX_REGION_END, MAX_REGION_END, swept);
    } else {
      var region := t.code.regions[k];
      GapsInShape(t, region, swept, 0, region.start);
      GapsShape(t, swept, k + 1);
      var head, tail := GapsIn(t, region, swept, 0, region.start), Gaps(t, swept, k + 1);
      ChainInRegion(t.code, region, head);
      ChainWidens(tail, StartOf(t.code, k + 1), MAX_REGION_END, region.end, MAX_REGION_END);
      ChainAppends(head, tail, region.start, region.end, MAX_REGION_END);
      FreeAppends(head, tail, swept);
    }
  }

  lemma {:induction false} GapsComplete(t: Task, swept: seq<FunctionBounds>, k: nat, m: nat, a: Address,
                                        gapEnd: Address)
    requires t.code.Valid() && SweptOk(t.code, swept) && k <= m < |t.code.regions|
    requires var region := t.code.regions[m];
      && Aligned(a) && region.start <= a && a + INSTRUCTION_SIZE <= region.end
      && IsGapEnd(region, swept, a, gapEnd)
    requires !Covers(swept, a)
    ensures Covers(Gaps(t, swept, k), a) || Rejected(t, a, Min(NextStrong(t, a), gapEnd))
    decreases m - k
  {
    hide GapsIn, SweptOk, Covers, Rejected, NextStrong, IsGapEnd, Aligned;
    var region := t.code.regions[k];
    var head, tail := GapsIn(t, region, swept, 0, region.start), Gaps(t, swept, k + 1);
    if k == m {
      GapsInComplete(t, region, swept, 0, region.start, a, gapEnd);
      CoversLeft(head, tail, a);
    } else {
      GapsComplete(t, swept, k + 1, m, a, gapEnd);
      CoversRight(head, tail, a);
    }
  }

  /** No usable strong entry lies in a gap, so the next-strong bound never cuts one short. */
  lemma ClampIsIdle(t: Task, region: CodeRegion, swept: seq<FunctionBounds>, a: Address, gapEnd: Address)
    requires t.code.Valid() && forall e :: e in Entries(t) ==> Covers(swept, e)
    requires IsGapEnd(region, swept, a, gapEnd) && !Covers(swept, a)
    ensures Min(NextStrong(t, a), gapEnd) == gapEnd
  {
    hide FindRegion;
    var s := NextStrong(t, a);
    if s in StrongEntries(t) {
      var f :| f in swept && f.Contains(s);
      NotInside(swept, f, a);
    }
  }

  // ------------------------------------------------------------------ gap functions are justified

  /** A function found at a gap word that was not rejected, ending where its control-flow graph ends. */
  ghost predicate IsCarved(t: Task, g: FunctionBounds, upper: Address)
    requires t.code.Valid()
  {
    !Rejected(t, g.start, upper) && g.end == Extent(t, g.start, upper)
  }

  ghost predicate AllCarved(t: Task, fns: seq<FunctionBounds>, gapEnd: Address)
    requires t.code.Valid()
  {
    forall g :: g in fns ==> IsCarved(t, g, Min(NextStrong(t, g.start), gapEnd))
  }

  lemma {:induction false} CarveIsSound(t: Task, cursor: int, gapEnd: Address)
    requires t.code.Valid() && 0 <= cursor
    ensures AllCarved(t, Carve(t, cursor, gapEnd), gapEnd)
    decreases gapEnd - cursor
  {
    hide Rejected, Extent, NextStrong, Carve, AlignUp, Aligned, IsExtentEnd;
    if cursor + INSTRUCTION_SIZE > gapEnd {
      CarveEnds(t, cursor, gapEnd);
    } else {
      CarveStep(t, cursor, gapEnd);
      var upper := Min(NextStrong(t, cursor), gapEnd);
      if Rejected(t, cursor, upper) {
        CarveIsSound(t, cursor + INSTRUCTION_SIZE, gapEnd);
      } else {
        CarveIsSound(t, AlignUp(Extent(t, cursor, upper)), gapEnd);
      }
    }
  }

  ghost predicate IsGapFunction(t: Task, swept: seq<FunctionBounds>, g: FunctionBounds)
    requires t.code.Valid()
  {
    exists region: CodeRegion, gapEnd: Address ::
      region in t.code.regions && region.start <= g.start
      && IsGapEnd(region, swept, g.start, gapEnd) && IsCarved(t, g, Min(NextStrong(t, g.start), gapEnd))
  }

  ghost predicate AllGapFunctions(t: Task, swept: seq<FunctionBounds>, fns: seq<FunctionBounds>)
    requires t.code.Valid()
  {
    forall g :: g in fns ==> IsGapFunction(t, swept, g)
  }

  lemma CarvedInGap(t: Task, region: CodeRegion, swept: seq<FunctionBounds>, i: nat, pos: Address, gapEnd: Address)
    requires t.code.Valid() && region in t.code.regions && SweptOk(t.code, swept)
    requires i <= |swept| && region.start <= pos <= gapEnd <= region.end && Behind(swept, i, region, pos)
    requires if i < |swept| then gapEnd == swept[i].start < region.end else gapEnd == region.end
    ensures AllGapFunctions(t, swept, Carve(t, AlignUp(pos), gapEnd))
  {
    hide Carve, AlignUp, Behind, IsCarved, NextStrong, SweptOk, IsGapEnd;
    CarveBetween(t, pos, gapEnd);
    CarveIsSound(t, AlignUp(pos), gapEnd);
    forall g | g in Carve(t, AlignUp(pos), gapEnd) ensures IsGapFunction(t, swept, g) {
      NextStartIsGapEnd(t.code, region, swept, i, pos, g.start);
      assert IsGapEnd(region, swept, g.start, gapEnd);
    }
  }

  lemma {:induction false} GapsInSound(t: Task, region: CodeRegion, swept: seq<FunctionBounds>, i: nat, pos: Address)
    requires t.code.Valid() && region in t.code.regions && SweptOk(t.code, swept)
    requires i <= |swept| && region.start <= pos <= region.end && Behind(swept, i, region, pos)
    ensures AllGapFunctions(t, swept, GapsIn(t, region, swept, i, pos))
    decreases |swept| - i
  {
    hide Carve, AlignUp, SweptOk, Behind, IsGapFunction;
    if i == |swept| {
      CarvedInGap(t, region, swept, i, pos, region.end);
    } else {
      PastNext(t.code, region, swept, i, pos);
      var fn := swept[i];
      if fn.end <= region.start || fn.start >= region.end {
        GapsInSound(t, region, swept, i + 1, pos);
      } else {
        GapsInSound(t, region, swept, i + 1, Max(pos, fn.end));
        if fn.start > pos {
          CarvedInGap(t, region, swept, i, pos, fn.start);
        }
      }
    }
  }

  lemma {:induction false} GapsSound(t: Task, swept: seq<FunctionBounds>, k: nat)
    requires t.code.Valid() && SweptOk(t.code, swept) && k <= |t.code.regions|
    ensures AllGapFunctions(t, swept, Gaps(t, swept, k))
    decreases |t.code.regions| - k
  {
    hide GapsIn, SweptOk, IsGapFunction;
    if k < |t.code.regions| {
      GapsInSound(t, t.code.regions[k], swept, 0, t.code.regions[k].start);
      GapsSound(t, swept, k + 1);
    }
  }

  // ------------------------------------------------------------------ the merge drops nothing

  lemma SweptIsOk(t: Task)
    requires t.code.Valid()
    ensures SweptOk(t.code, Swept(t))
    ensures forall e :: e in Entries(t) ==> Covers(Swept(t), e)
  {
    hide EndOf, FindRegion, Sweep, Chain, Covers, InOneRegion;
    SweptShape(t);
    forall f | f in Swept(t) ensures Aligned(f.start) {
      assert f.start in Entries(t);
    }
  }

  lemma {:induction false} ChainIsKept(kept: seq<FunctionBounds>, fns: seq<FunctionBounds>, lo: int, hi: int)
    requires Chain(kept + fns, lo, hi)
    ensures KeepApart(kept, fns) == kept + fns
    decreases |fns|
  {
    if fns == [] {
      assert kept + fns == kept;
    } else {
      assert (kept + fns)[|kept|] == fns[0];
      assert kept != [] ==> (kept + fns)[|kept| - 1] == kept[|kept| - 1];
      assert kept + [fns[0]] + fns[1..] == kept + fns;
      ChainIsKept(kept + [fns[0]], fns[1..], lo, hi);
    }
  }

  ghost predicate NonEmpty(fns: seq<FunctionBounds>) {
    forall f :: f in fns ==> f.start < f.end <= MAX_REGION_END
  }

  lemma SortedApartIsChain(fns: seq<FunctionBounds>)
    requires Pairwise(fns, Apart) && NonEmpty(fns)
    ensures Chain(Sort(fns, BoundsBefore), 0, MAX_REGION_END)
  {
    hide Sort, IsSorted, Pairwise, Chain;
    assert IsStrictWeakOrder(BoundsBefore);
    SortIsSorted(fns, BoundsBefore);
    SortKeepsPairwise(fns, BoundsBefore, Apart);
    var sorted := Sort(fns, BoundsBefore);
    forall i | 0 <= i < |sorted| ensures 0 <= sorted[i].start < sorted[i].end <= MAX_REGION_END {
      assert sorted[i] in fns;
    }
    InOrderIsChain(sorted);
  }

  lemma InOrderIsChain(sorted: seq<FunctionBounds>)
    requires IsSorted(sorted, BoundsBefore) && Pairwise(sorted, Apart)
    requires forall i :: 0 <= i < |sorted| ==> 0 <= sorted[i].start < sorted[i].end <= MAX_REGION_END
    ensures Chain(sorted, 0, MAX_REGION_END)
  {
    forall i, j | 0 <= i < j < |sorted| ensures sorted[i].end <= sorted[j].start {
      assert !BoundsBefore(sorted[j], sorted[i]);
      assert Apart(sorted[i], sorted[j]);
    }
  }

  lemma ChainsArePairwise(swept: seq<FunctionBounds>, gaps: seq<FunctionBounds>, lo: int, hi: int)
    requires 0 <= lo && hi <= MAX_REGION_END
    requires Chain(swept, 0, MAX_REGION_END) && Chain(gaps, lo, hi) && FreeOf(gaps, swept)
    ensures Pairwise(swept + gaps, Apart) && NonEmpty(swept + gaps)
  {
    var all := swept + gaps;
    forall i, j | 0 <= i < j < |all| ensures Apart(all[i], all[j]) {
      if i < |swept| <= j {
        assert all[i] in swept && all[j] in gaps;
      }
    }
  }

  lemma FoundIsApart(t: Task)
    requires t.code.Valid()
    ensures Pairwise(Found(t), Apart) && NonEmpty(Found(t)) && AllInRegions(t.code, Found(t))
  {
    hide Swept, Gaps, Chain, FreeOf, InOneRegion, Pairwise, NonEmpty;
    SweptIsOk(t);
    var swept := Swept(t);
    if t.options.discoverGapFunctions {
      if t.code.regions == [] {
        NothingIsFree(0, MAX_REGION_END, swept);
      }
      GapsShape(t, swept, 0);
      ChainsArePairwise(swept, Gaps(t, swept, 0), StartOf(t.code, 0), MAX_REGION_END);
    } else {
      NothingIsFree(0, MAX_REGION_END, swept);
      ChainsArePairwise(swept, [], 0, MAX_REGION_END);
    }
  }

  // ------------------------------------------------------------------ the theorems

  /**
   The reported functions are ascending, non-empty, disjoint and each inside one region, and they are
   exactly the swept and gap functions, sorted: the final filter never drops anything.
   */
  lemma ExtentsPartition(t: Task)
    requires t.code.Valid()
    ensures Chain(Extents(t), 0, MAX_REGION_END)
    ensures AllInRegions(t.code, Extents(t))
    ensures multiset(Extents(t)) == multiset(Found(t))
    ensures forall f :: f in Extents(t) <==> f in Found(t)
  {
    FoundIsApart(t);
    hide Found, Chain, InOneRegion;
    SortedApartIsChain(Found(t));
    SortIsSorted(Found(t), BoundsBefore);
    var sorted := Sort(Found(t), BoundsBefore);
    assert [] + sorted == sorted;
    ChainIsKept([], sorted, 0, MAX_REGION_END);
  }

  lemma SweptIsFound(t: Task)
    requires t.code.Valid()
    ensures forall f :: f in Swept(t) ==> f in Found(t)
  {
    hide Swept, Gaps;
  }

  /** Every usable entry, strong or soft, lies in exactly one reported function. */
  lemma EntriesAreCoveredOnce(t: Task, e: Address)
    requires t.code.Valid() && e in Entries(t)
    ensures Covers(Extents(t), e)
    ensures forall f, g :: f in Extents(t) && g in Extents(t) && f.Contains(e) && g.Contains(e) ==> f == g
  {
    SweptIsOk(t);
    SweptIsFound(t);
    ExtentsPartition(t);
    hide Swept, Found, Extents, Entries, SweptOk;
    var f :| f in Swept(t) && f.Contains(e);
    assert f in Extents(t);
    ChainContainsOnce(Extents(t), 0, MAX_REGION_END, e);
  }

  lemma ChainContainsOnce(fns: seq<FunctionBounds>, lo: int, hi: int, a: Address)
    requires Chain(fns, lo, hi)
    ensures forall f, g :: f in fns && g in fns && f.Contains(a) && g.Contains(a) ==> f == g
  {
    forall f, g | f in fns && g in fns && f.Contains(a) && g.Contains(a) ensures f == g {
      var i :| 0 <= i < |fns| && fns[i] == f;
      var j :| 0 <= j < |fns| && fns[j] == g;
    }
  }

  /** A function reported earlier that `a` falls strictly inside. */
  ghost predicate SwallowedBy(f: FunctionBounds, a: Address) { f.start < a < f.end }

  /** A usable entry, strong or soft, fails to start a function exactly when another entry's function
      strictly contains it. */
  lemma EntryIsDemotedOnlyInside(t: Task, e: Address)
    requires t.code.Valid() && e in Entries(t)
    ensures !StartsAt(Extents(t), e) <==> exists f :: f in Swept(t) && SwallowedBy(f, e)
  {
    SweptIsOk(t);
    SweptIsFound(t);
    ExtentsPartition(t);
    hide Swept, Found, Extents, Entries, SweptOk;
    ChainContainsOnce(Extents(t), 0, MAX_REGION_END, e);
    var f :| f in Swept(t) && f.Contains(e);
    assert f in Extents(t);
    assert f.start == e ==> StartsAt(Extents(t), e);
    if StartsAt(Extents(t), e) {
      var g :| g in Extents(t) && g.start == e;
      forall h | h in Swept(t) ensures !SwallowedBy(h, e) {
        StartIsNotSwallowed(Extents(t), g, h);
      }
    } else {
      assert SwallowedBy(f, e);
    }
  }

  lemma StartIsNotSwallowed(fns: seq<FunctionBounds>, g: FunctionBounds, h: FunctionBounds)
    requires Chain(fns, 0, MAX_REGION_END) && g in fns && h in fns
    ensures !SwallowedBy(h, g.start)
  {
    StartIsInside(fns, g);
    ChainContainsOnce(fns, 0, MAX_REGION_END, g.start);
  }

  lemma StartIsInside(fns: seq<FunctionBounds>, g: FunctionBounds)
    requires Chain(fns, 0, MAX_REGION_END) && g in fns
    ensures g.Contains(g.start)
  {
  }

  /**
   A usable strong entry starts a reported function unless, and only unless, it lies strictly inside a
   function whose end was taken from a stated size: no extent found by control flow crosses it.
   */
  lemma StrongEntryFate(t: Task, e: Address)
    requires t.code.Valid() && e in StrongEntries(t)
    ensures !StartsAt(Extents(t), e) <==>
            exists f :: f in Extents(t) && IsAuthoritative(t, f.start) && SwallowedBy(f, e)
  {
    hide Swept, Found, Extents, InOneRegion, Covers, FindRegion, EndOf;
    assert e in Entries(t);
    EntryIsDemotedOnlyInside(t, e);
    ExtentsPartition(t);
    ChainContainsOnce(Extents(t), 0, MAX_REGION_END, e);
    if StartsAt(Extents(t), e) {
      var g :| g in Extents(t) && g.start == e;
      StartIsInside(Extents(t), g);
    } else {
      var f :| f in Swept(t) && SwallowedBy(f, e);
      SwallowerHasStatedSize(t, f, e);
    }
  }

  lemma SwallowerHasStatedSize(t: Task, f: FunctionBounds, e: Address)
    requires t.code.Valid() && f in Swept(t) && e in StrongEntries(t) && SwallowedBy(f, e)
    ensures f in Extents(t) && IsAuthoritative(t, f.start)
  {
    hide Swept, Found, Extents, InOneRegion, Covers, FindRegion, EndOf, Chain;
    SweptIsFound(t);
    ExtentsPartition(t);
    SweptShape(t);
    EndOfShape(t, f.start);
  }

  /** An entry that starts a function starts the one its own extent specifies. */
  lemma StartedEntryHasItsExtent(t: Task, e: Address)
    requires t.code.Valid() && e in Entries(t)
    ensures StartsAt(Extents(t), e) <==> FunctionBounds(e, EndOf(t, e)) in Extents(t)
  {
    hide Swept, Found, Extents, InOneRegion, FindRegion, EndOf, Entries, Chain;
    SweptShape(t);
    SweptIsFound(t);
    ExtentsPartition(t);
    if StartsAt(Extents(t), e) {
      var g :| g in Extents(t) && g.start == e;
      var f :| f in Swept(t) && f.Contains(e);
      StartIsInside(Extents(t), g);
      ChainContainsOnce(Extents(t), 0, MAX_REGION_END, e);
    }
  }

  /**
   A stated size is reported as it stands, cut off only at the end of the region, if and only if no
   function with a stated size strictly contains the entry.
   */
  lemma StatedSizeFate(t: Task, e: Address)
    requires t.code.Valid() && IsAuthoritative(t, e)
    ensures FunctionBounds(e, Min(t.code.RegionEnd(e), e + t.sizes[e])) in Extents(t) <==>
            !exists f :: f in Extents(t) && IsAuthoritative(t, f.start) && SwallowedBy(f, e)
  {
    hide Swept, Found, Extents, InOneRegion, FindRegion, CodeImage.RegionEnd;
    StrongEntryFate(t, e);
    StartedEntryHasItsExtent(t, e);
  }

  /**
   With gap discovery on, every aligned word of a region outside all reported functions was looked at
   and rejected: it is padding, does not decode, or the graph built there, bounded by the end of its
   gap, is not a plausible function.
   */
  lemma GapWordsAreRejected(t: Task, region: CodeRegion, a: Address)
    requires t.code.Valid() && t.options.discoverGapFunctions && region in t.code.regions
    requires Aligned(a) && region.start <= a && a + INSTRUCTION_SIZE <= region.end
    requires !Covers(Extents(t), a)
    ensures exists gapEnd: Address :: IsGapEnd(region, Swept(t), a, gapEnd) && Rejected(t, a, gapEnd)
  {
    var m :| 0 <= m < |t.code.regions| && t.code.regions[m] == region;
    var swept, gaps := Swept(t), Gaps(t, Swept(t), 0);
    assert Found(t) == swept + gaps;
    hide Swept, Gaps, Found, Extents, SweptOk, Rejected, NextStrong, IsGapEnd, Entries, Chain;
    SweptIsOk(t);
    ExtentsPartition(t);
    CoversFound(t, swept, gaps, a);
    var gapEnd := GapEndExists(region, swept, a);
    GapsComplete(t, swept, 0, m, a, gapEnd);
    ClampIsIdle(t, region, swept, a, gapEnd);
  }

  lemma GapEndExists(region: CodeRegion, swept: seq<FunctionBounds>, a: Address) returns (gapEnd: Address)
    requires region.start <= a < region.end
    ensures IsGapEnd(region, swept, a, gapEnd)
  {
    var starts := set f | f in swept && a < f.start < region.end :: f.start;
    gapEnd := Least(starts + {region.end});
    forall f | f in swept && a < f.start < region.end ensures gapEnd <= f.start {
      assert f.start in starts;
    }
  }

  lemma CoversFound(t: Task, swept: seq<FunctionBounds>, gaps: seq<FunctionBounds>, a: Address)
    requires t.code.Valid() && forall f :: f in Extents(t) <==> f in swept + gaps
    requires !Covers(Extents(t), a)
    ensures !Covers(swept, a) && !Covers(gaps, a)
  {
    hide Extents;
    forall f | f in swept || f in gaps ensures !f.Contains(a) {
      assert f in swept + gaps;
      NotInside(Extents(t), f, a);
    }
  }

  /**
   Every reported function either starts at a usable entry and ends where that entry's function ends,
   or lies in a gap of its region, starts at a word that was not rejected, and ends exactly where the control-flow
   graph bounded by its gap ends: the next strong entry never cuts it short.
   */
  lemma ReportedFunctionsAreJustified(t: Task, f: FunctionBounds)
    requires t.code.Valid() && f in Extents(t)
    ensures || (f.start in Entries(t) && f.end == EndOf(t, f.start))
            || (t.options.discoverGapFunctions && exists region: CodeRegion, gapEnd: Address ::
                  region in t.code.regions && region.start <= f.start && !Covers(Swept(t), f.start)
                  && IsGapEnd(region, Swept(t), f.start, gapEnd) && f.end <= gapEnd && IsCarved(t, f, gapEnd))
  {
    hide Swept, Extents, InOneRegion, EndOf, Covers, IsCarved, IsGapEnd, Entries, Chain;
    if f in Swept(t) {
      SweptShape(t);
    } else {
      FoundElsewhere(t, f);
      GapsAreSound(t, f);
      var region: CodeRegion, gapEnd: Address :| region in t.code.regions && region.start <= f.start
                            && IsGapEnd(region, Swept(t), f.start, gapEnd)
                            && IsCarved(t, f, Min(NextStrong(t, f.start), gapEnd));
      GapStartIsUncovered(t, f);
      SweptIsOk(t);
      ClampIsIdle(t, region, Swept(t), f.start, gapEnd);
      hide NextStrong;
      assert IsCarved(t, f, gapEnd);
      CarvedFits(t, f, gapEnd);
    }
  }

  lemma CarvedFits(t: Task, f: FunctionBounds, upper: Address)
    requires t.code.Valid() && IsCarved(t, f, upper)
    ensures f.end <= upper
  {
    hide Extent, Covered, IsPaddingWord, CodeImage.Insn;
    assert Plausible(t, f.start, upper);
  }

  lemma FoundElsewhere(t: Task, f: FunctionBounds)
    requires t.code.Valid() && f in Extents(t) && f !in Swept(t)
    ensures t.options.discoverGapFunctions && f in Gaps(t, Swept(t), 0)
  {
    ExtentsPartition(t);
    hide Swept, Gaps, Extents, Chain, InOneRegion;
  }

  lemma GapsAreSound(t: Task, f: FunctionBounds)
    requires t.code.Valid() && f in Gaps(t, Swept(t), 0)
    ensures IsGapFunction(t, Swept(t), f)
  {
    hide Swept, Gaps, IsGapFunction, SweptOk;
    SweptIsOk(t);
    GapsSound(t, Swept(t), 0);
  }

  lemma GapStartIsUncovered(t: Task, f: FunctionBounds)
    requires t.code.Valid() && f in Extents(t) && f !in Swept(t)
    ensures !Covers(Swept(t), f.start)
  {
    SweptIsFound(t);
    ExtentsPartition(t);
    hide Swept, Extents, Found;
    StartIsInside(Extents(t), f);
    ChainContainsOnce(Extents(t), 0, MAX_REGION_END, f.start);
  }
}
