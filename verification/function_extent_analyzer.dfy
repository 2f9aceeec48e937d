/** The extent analysis as the program runs it: a sweep, gap carving and a merge over one decode cache. */
module FunctionExtentAnalyzers {
  import opened Types
  import opened Code
  import opened Sorting
  import opened ControlFlowGraphs
  import opened FunctionExtents
  import opened CodeMaps
  import opened InstructionCaches
  import opened CfgBuilders
  import opened ExtentTheorems
  import Meaning = ExtentMeanings

  datatype Input = Input(strongEntries: seq<Address>, softEntries: seq<Address>,
                         authoritativeSizes: map<Address, Address>)

  datatype Candidate = Candidate(addr: Address, strong: bool)

  predicate CandidateBefore(a: Candidate, b: Candidate) {
    if a.addr != b.addr then a.addr < b.addr else a.strong && !b.strong
  }

  /** What the analysis prepares from its input once: the sorted strong entries and the set no other
      function's control flow may enter. */
  datatype Context = Context(strongSorted: seq<Address>, entryBoundaries: set<Address>, options: Options)

  ghost predicate Matches(ctx: Context, t: Task) {
    && Increasing(ctx.strongSorted)
    && (forall a :: a in ctx.strongSorted <==> a in StrongEntries(t))
    && ctx.entryBoundaries == Entries(t)
    && ctx.options == t.options
  }

  /** The candidates are the usable entries, each marked by the list it came from. */
  ghost predicate AreCandidates(candidates: seq<Candidate>, t: Task) {
    forall c :: c in candidates <==>
      if c.strong then c.addr in StrongEntries(t) else c.addr in t.soft && t.code.Usable(c.addr)
  }

  // ------------------------------------------------------------------ the sweep's order

  ghost function AddressesFrom(candidates: seq<Candidate>, i: nat): set<Address>
    requires i <= |candidates|
  {
    set c | c in candidates[i..] :: c.addr
  }

  lemma AddressesStep(candidates: seq<Candidate>, i: nat)
    requires i < |candidates|
    ensures AddressesFrom(candidates, i) == AddressesFrom(candidates, i + 1) + {candidates[i].addr}
  {
    assert candidates[i..] == [candidates[i]] + candidates[i + 1..];
    forall a | a in AddressesFrom(candidates, i + 1) + {candidates[i].addr} ensures a in AddressesFrom(candidates, i) {
      if a == candidates[i].addr {
        assert candidates[i] in candidates[i..];
      } else {
        var c :| c in candidates[i + 1..] && c.addr == a;
        assert c in candidates[i..];
      }
    }
  }

  /** The entries still to sweep before candidate `i`: their addresses, less the one just handled. */
  ghost function Todo(candidates: seq<Candidate>, i: nat, lastAddr: Address): set<Address>
    requires i <= |candidates|
  {
    AddressesFrom(candidates, i) - {lastAddr}
  }

  ghost predicate LastIs(candidates: seq<Candidate>, i: nat, lastAddr: Address)
    requires i <= |candidates|
  {
    lastAddr == if i == 0 then INVALID_ADDRESS else candidates[i - 1].addr
  }

  lemma LaterAreNotBefore(candidates: seq<Candidate>, i: nat, a: Address)
    requires IsSorted(candidates, CandidateBefore) && i < |candidates| && a in AddressesFrom(candidates, i)
    ensures candidates[i].addr <= a
  {
    var c :| c in candidates[i..] && c.addr == a;
    var j :| 0 <= j < |candidates| - i && candidates[i..][j] == c;
    if j > 0 {
      assert !CandidateBefore(candidates[i + j], candidates[i]);
    }
  }

  /** A repeated address changes nothing; a new one is the least left. */
  lemma TodoStep(candidates: seq<Candidate>, i: nat, lastAddr: Address)
    requires IsSorted(candidates, CandidateBefore) && i < |candidates| && LastIs(candidates, i, lastAddr)
    requires INVALID_ADDRESS !in AddressesFrom(candidates, 0)
    ensures var c, todo := candidates[i], Todo(candidates, i, lastAddr);
      && Todo(candidates, i + 1, c.addr) == todo - {c.addr}
      && (c.addr == lastAddr ==> todo - {c.addr} == todo)
      && (c.addr != lastAddr ==> c.addr in todo && Least(todo) == c.addr)
  {
    hide AddressesFrom, IsSorted;
    AddressesStep(candidates, i);
    var c, todo := candidates[i], Todo(candidates, i, lastAddr);
    if c.addr != lastAddr {
      assert lastAddr !in AddressesFrom(candidates, i) by {
        NeverInvalid(candidates, i);
        if i > 0 && lastAddr in AddressesFrom(candidates, i) {
          LaterAreNotBefore(candidates, i, lastAddr);
          InOrder(candidates, i);
        }
      }
      forall a | a in todo ensures c.addr <= a {
        LaterAreNotBefore(candidates, i, a);
      }
    }
  }

  lemma InOrder(candidates: seq<Candidate>, i: nat)
    requires IsSorted(candidates, CandidateBefore) && 0 < i < |candidates|
    ensures candidates[i - 1].addr <= candidates[i].addr
  {
    assert !CandidateBefore(candidates[i], candidates[i - 1]);
  }

  lemma Ascends(candidates: seq<Candidate>, j: nat, i: nat)
    requires IsSorted(candidates, CandidateBefore) && j <= i < |candidates|
    ensures candidates[j].addr <= candidates[i].addr
  {
    if j < i {
      assert !CandidateBefore(candidates[i], candidates[j]);
    }
  }

  lemma NeverInvalid(candidates: seq<Candidate>, i: nat)
    requires i <= |candidates| && INVALID_ADDRESS !in AddressesFrom(candidates, 0)
    ensures INVALID_ADDRESS !in AddressesFrom(candidates, i)
  {
    forall c | c in candidates[i..] ensures c.addr != INVALID_ADDRESS {
      assert c in candidates[0..];
    }
  }

  /** The first candidate at an address is marked strong exactly when the address is a strong entry. */
  lemma FirstIsStrong(t: Task, candidates: seq<Candidate>, i: nat, lastAddr: Address)
    requires IsSorted(candidates, CandidateBefore) && AreCandidates(candidates, t) && i < |candidates|
    requires LastIs(candidates, i, lastAddr) && candidates[i].addr != lastAddr
    ensures candidates[i].addr in Entries(t)
    ensures candidates[i].strong <==> candidates[i].addr in StrongEntries(t)
  {
    hide FindRegion;
    var c := candidates[i];
    assert c in candidates;
    if c.addr in StrongEntries(t) {
      var s := Candidate(c.addr, true);
      assert s in candidates;
      var j :| 0 <= j < |candidates| && candidates[j] == s;
      if i > 0 {
        InOrder(candidates, i);
        if j < i {
          Ascends(candidates, j, i - 1);
        }
      }
      if i < j {
        assert !CandidateBefore(candidates[j], candidates[i]);
      }
    }
  }

  lemma CandidatesAreEntries(t: Task, candidates: seq<Candidate>)
    requires AreCandidates(candidates, t)
    ensures Todo(candidates, 0, INVALID_ADDRESS) == Entries(t)
    ensures INVALID_ADDRESS !in AddressesFrom(candidates, 0)
  {
    hide FindRegion;
    assert candidates[0..] == candidates;
    forall a | a in Entries(t) ensures a in AddressesFrom(candidates, 0) {
      assert Candidate(a, a in StrongEntries(t)) in candidates;
    }
    forall a | a in AddressesFrom(candidates, 0) ensures a in Entries(t) && Aligned(a) {
      var c :| c in candidates && c.addr == a;
    }
  }

  class FunctionExtentAnalyzer {
    const codeMap: CodeMap
    const decode: Decoder

    constructor (codeMap: CodeMap, decode: Decoder)
      ensures this.codeMap == codeMap && this.decode == decode
    {
      this.codeMap := codeMap;
      this.decode := decode;
    }

    ghost function Image(): CodeImage { CodeImage(codeMap.regions, decode) }

    method RegionEndFor(a: Address) returns (end: Address)
      requires codeMap.Valid()
      ensures end == Image().RegionEnd(a)
    {
      var region := codeMap.RegionContaining(a);
      return if region.Some? then region.value.end else a;
    }

    method IsUsable(a: Address) returns (r: bool)
      requires codeMap.Valid()
      ensures r <==> Image().Usable(a)
    {
      if !Aligned(a) {
        return false;
      }
      r := codeMap.Contains(a);
    }

    method UsableOf(entries: seq<Address>) returns (usable: seq<Address>)
      requires codeMap.Valid()
      ensures forall a :: a in usable <==> a in entries && Image().Usable(a)
    {
      hide FindRegion;
      usable := [];
      for i := 0 to |entries|
        invariant forall a :: a in usable <==> a in entries[..i] && Image().Usable(a)
      {
        var ok := IsUsable(entries[i]);
        assert entries[..i + 1] == entries[..i] + [entries[i]];
        if ok {
          usable := usable + [entries[i]];
        }
      }
      assert entries[..|entries|] == entries;
    }

    method NextStrongAfter(ctx: Context, ghost t: Task, a: Address) returns (next: Address)
      requires Matches(ctx, t)
      ensures next == NextStrong(t, a)
    {
      hide FindRegion;
      var at := UpperBound(ctx.strongSorted, (s: Address) => s, a);
      if at == |ctx.strongSorted| {
        return INVALID_ADDRESS;
      }
      assert ctx.strongSorted[at] in ctx.strongSorted;
      return ctx.strongSorted[at];
    }

    /** The decode cache in use is consistent with the image under analysis, warm or cold. */
    ghost predicate Ready(builder: CfgBuilder, ctx: Context, t: Task)
      reads builder.cache
    {
      && codeMap.Valid()
      && builder.cache.Valid()
      && builder.cache.Image() == Image() == t.code
      && Matches(ctx, t)
    }

    lemma ReadyIsValid(builder: CfgBuilder, ctx: Context, t: Task)
      requires Ready(builder, ctx, t)
      ensures t.code.Valid() && codeMap.Valid() && builder.cache.Valid() && Matches(ctx, t)
      ensures builder.cache.Image() == Image() == t.code
    {
    }

    /** Build the graph at `entry`, kept out of every other usable entry. */
    method BuildAt(builder: CfgBuilder, ctx: Context, ghost t: Task, entry: Address, upper: Address)
      returns (cfg: ControlFlowGraph)
      requires Ready(builder, ctx, t) && t.code.Valid()
      modifies builder.cache
      ensures Ready(builder, ctx, t)
      ensures cfg.covered == Covered(t, entry, upper)
      ensures cfg.extentEnd == Extent(t, entry, upper)
      ensures cfg.reachesReturn <==> ReachesReturn(t.code, cfg.covered)
    {
      hide InstructionCache.Valid, Explore, ReachesReturn;
      var request := Request(entry, upper, ctx.entryBoundaries, ctx.options.maxInstructions,
                             ctx.options.linearPastIndirectBranch, false);
      var built, _ := builder.Build(request, None);
      cfg := built;
      ExtentEndIsUnique(entry, cfg.covered, cfg.extentEnd, Extent(t, entry, upper));
    }

    /** The end of the control-flow graph at `entry`, or one word when it covers nothing. */
    method CfgExtentEnd(builder: CfgBuilder, ctx: Context, ghost t: Task, entry: Address, upper: Address)
      returns (end: int)
      requires Ready(builder, ctx, t) && t.code.Valid()
      modifies builder.cache
      ensures Ready(builder, ctx, t)
      ensures end == CfgEnd(t, entry, upper)
    {
      hide Extent, Ready;
      var cfg := BuildAt(builder, ctx, t, entry, upper);
      end := cfg.extentEnd;
      if end <= entry {
        ReadyIsValid(builder, ctx, t);
        var regionEnd := RegionEndFor(entry);
        end := Min(regionEnd, entry + INSTRUCTION_SIZE);
      }
    }

    /** Where the function at a candidate ends: by its stated size if it has one, else by control flow. */
    method EndFor(builder: CfgBuilder, ctx: Context, sizes: map<Address, Address>, ghost t: Task, c: Candidate)
      returns (end: Address)
      requires Ready(builder, ctx, t) && t.code.Valid() && sizes == t.sizes
      requires c.addr in Entries(t) && (c.strong <==> c.addr in StrongEntries(t))
      modifies builder.cache
      ensures Ready(builder, ctx, t)
      ensures end == EndOf(t, c.addr)
    {
      hide CfgEnd, Ready, FindRegion, NextStrong;
      EndOfShape(t, c.addr);
      ReadyIsValid(builder, ctx, t);
      var regionEnd := RegionEndFor(c.addr);
      if regionEnd <= c.addr {
        assert false;  // a usable entry lies inside its region
      }
      if c.strong && c.addr in sizes && sizes[c.addr] > 0 {
        var room: Address := regionEnd - c.addr;
        end := if sizes[c.addr] >= room then regionEnd else c.addr + sizes[c.addr];
      } else {
        var next := NextStrongAfter(ctx, t, c.addr);
        var upper := Min(next, regionEnd);
        var cfgEnd := CfgExtentEnd(builder, ctx, t, c.addr, upper);
        end := Min(cfgEnd, regionEnd);
      }
    }

    /** Emit a function at every candidate not covered by an earlier one. */
    method SweepCandidates(builder: CfgBuilder, ctx: Context, sizes: map<Address, Address>, ghost t: Task,
                           candidates: seq<Candidate>)
      returns (emitted: seq<FunctionBounds>)
      requires Ready(builder, ctx, t) && t.code.Valid() && sizes == t.sizes
      requires IsSorted(candidates, CandidateBefore) && AreCandidates(candidates, t)
      modifies builder.cache
      ensures Ready(builder, ctx, t)
      ensures emitted == Swept(t)
    {
      hide Ready, Sweep, EndOf, Entries, StrongEntries, Todo, AddressesFrom, IsSorted, AreCandidates;
      CandidatesAreEntries(t, candidates);
      emitted := [];
      var coverEnd: Address := 0;
      var lastAddr := INVALID_ADDRESS;
      assert [] + Swept(t) == Swept(t);
      for i := 0 to |candidates|
        invariant Ready(builder, ctx, t)
        invariant LastIs(candidates, i, lastAddr)
        invariant Todo(candidates, i, lastAddr) <= Entries(t)
        invariant emitted + Sweep(t, Todo(candidates, i, lastAddr), coverEnd) == Swept(t)
      {
        var c := candidates[i];
        TodoStep(candidates, i, lastAddr);
        if c.addr == lastAddr {
          continue;
        }
        FirstIsStrong(t, candidates, i, lastAddr);
        SweepStep(t, Todo(candidates, i, lastAddr), coverEnd);
        lastAddr := c.addr;
        if c.addr < coverEnd {
          continue;
        }
        var end := EndFor(builder, ctx, sizes, t, c);
        if end <= c.addr {
          assert false;  // every function is non-empty
        }
        ghost var rest := Sweep(t, Todo(candidates, i + 1, lastAddr), end);
        assert (emitted + [FunctionBounds(c.addr, end)]) + rest == emitted + ([FunctionBounds(c.addr, end)] + rest);
        emitted := emitted + [FunctionBounds(c.addr, end)];
        coverEnd := Max(coverEnd, end);
      }
      NothingTodo(candidates, lastAddr);
      SweepNothing(t, coverEnd);
      assert emitted + [] == emitted;
    }

    /** Step through a gap a word at a time, carving out every plausible function. */
    method CarveGap(builder: CfgBuilder, ctx: Context, ghost t: Task, gapStart: Address, gapEnd: Address,
                    found: seq<FunctionBounds>)
      returns (gapFunctions: seq<FunctionBounds>)
      requires Ready(builder, ctx, t) && t.code.Valid()
      requires gapStart <= gapEnd <= MAX_REGION_END
      modifies builder.cache
      ensures Ready(builder, ctx, t)
      ensures gapFunctions == found + Carve(t, AlignUp(gapStart), gapEnd)
    {
      hide Ready, Matches, Carve, Extent, Covered, NextStrong, ReachesReturn, IsPaddingWord;
      hide CodeImage.Insn, InstructionCache.Valid;
      ReadyIsValid(builder, ctx, t);
      gapFunctions := found;
      var cursor: Address := AlignUp(gapStart);
      ghost var all := Carve(t, cursor, gapEnd);
      while cursor + INSTRUCTION_SIZE <= gapEnd
        invariant Ready(builder, ctx, t)
        invariant cursor <= gapEnd + 3
        invariant gapFunctions + Carve(t, cursor, gapEnd) == found + all
        decreases gapEnd - cursor
      {
        ReadyIsValid(builder, ctx, t);
        CarveStep(t, cursor, gapEnd);
        var padding := IsPadding(codeMap, cursor);
        if padding {
          cursor := cursor + INSTRUCTION_SIZE;
          continue;
        }
        var insn := builder.cache.At(cursor);
        KeepReady(builder, ctx, t);
        if insn.None? {
          cursor := cursor + INSTRUCTION_SIZE;
          continue;
        }
        var next := NextStrongAfter(ctx, t, cursor);
        var upper := Min(next, gapEnd);
        var cfg := BuildAt(builder, ctx, t, cursor, upper);
        var end := Min(cfg.extentEnd, gapEnd);
        var plausible := cfg.reachesReturn || |cfg.covered| >= ctx.options.minGapFunctionInstructions;
        if end <= cursor || cfg.covered == {} || !plausible {
          cursor := cursor + INSTRUCTION_SIZE;
          continue;
        }
        ghost var rest := Carve(t, AlignUp(end), gapEnd);
        assert (gapFunctions + [FunctionBounds(cursor, end)]) + rest ==
               gapFunctions + ([FunctionBounds(cursor, end)] + rest);
        gapFunctions := gapFunctions + [FunctionBounds(cursor, end)];
        cursor := AlignUp(end);
      }
      CarveEnds(t, cursor, gapEnd);
      assert gapFunctions + [] == gapFunctions;
    }

    lemma KeepReady(builder: CfgBuilder, ctx: Context, t: Task)
      requires codeMap.Valid() && builder.cache.Valid() && builder.cache.Image() == Image() == t.code && Matches(ctx, t)
      ensures Ready(builder, ctx, t)
    {
    }

    /** Carve every gap the swept functions leave in one region. */
    method CarveRegion(builder: CfgBuilder, ctx: Context, ghost t: Task, region: CodeRegion,
                       emitted: seq<FunctionBounds>, found: seq<FunctionBounds>)
      returns (gapFunctions: seq<FunctionBounds>)
      requires Ready(builder, ctx, t) && t.code.Valid()
      modifies builder.cache
      ensures Ready(builder, ctx, t)
      ensures gapFunctions == found + GapsIn(t, region, emitted, 0, region.start)
    {
      hide Ready, Carve, AlignUp;
      gapFunctions := found;
      var pos := region.start;
      ghost var all := GapsIn(t, region, emitted, 0, pos);
      for i := 0 to |emitted|
        invariant Ready(builder, ctx, t)
        invariant region.start <= pos <= region.end
        invariant gapFunctions + GapsIn(t, region, emitted, i, pos) == found + all
      {
        var fn := emitted[i];
        if fn.end <= region.start || fn.start >= region.end {
          continue;
        }
        var covStart := if fn.start < region.start then region.start else fn.start;
        var covEnd := if fn.end < region.end then fn.end else region.end;
        ghost var before := gapFunctions;
        if covStart > pos {
          gapFunctions := CarveGap(builder, ctx, t, pos, covStart, gapFunctions);
        }
        pos := if pos < covEnd then covEnd else pos;
        ghost var rest := GapsIn(t, region, emitted, i + 1, pos);
        assert gapFunctions + rest == before + ((gapFunctions[|before|..]) + rest);
      }
      if pos < region.end {
        gapFunctions := CarveGap(builder, ctx, t, pos, region.end, gapFunctions);
      }
    }

    /** Carve the gaps of every region in turn. */
    method CarveRegions(builder: CfgBuilder, ctx: Context, ghost t: Task, emitted: seq<FunctionBounds>)
      returns (gapFunctions: seq<FunctionBounds>)
      requires Ready(builder, ctx, t) && t.code.Valid()
      modifies builder.cache
      ensures Ready(builder, ctx, t)
      ensures gapFunctions == Gaps(t, emitted, 0)
    {
      hide GapsIn, Matches, InstructionCache.Valid;
      gapFunctions := [];
      ghost var all := Gaps(t, emitted, 0);
      assert [] + all == all;
      for k := 0 to |codeMap.regions|
        invariant Ready(builder, ctx, t)
        invariant gapFunctions + Gaps(t, emitted, k) == all
      {
        ghost var before, gaps := gapFunctions, GapsIn(t, codeMap.regions[k], emitted, 0, codeMap.regions[k].start);
        gapFunctions := CarveRegion(builder, ctx, t, codeMap.regions[k], emitted, gapFunctions);
        assert (before + gaps) + Gaps(t, emitted, k + 1) == before + (gaps + Gaps(t, emitted, k + 1));
      }
      assert gapFunctions + [] == gapFunctions;
    }

    /** Keep, in order, the functions that do not start inside the one kept before. */
    method Merge(fns: seq<FunctionBounds>) returns (result: seq<FunctionBounds>)
      ensures result == KeepApart([], fns)
    {
      result := [];
      assert fns[0..] == fns;
      for i := 0 to |fns|
        invariant KeepApart(result, fns[i..]) == KeepApart([], fns)
      {
        assert fns[i..][0] == fns[i] && fns[i..][1..] == fns[i + 1..];
        if fns[i].end <= fns[i].start {
          continue;
        }
        if result != [] && fns[i].start < result[|result| - 1].end {
          continue;
        }
        result := result + [fns[i]];
      }
    }

    /** The usable entries of both lists as sorted candidates. */
    method MakeCandidates(strong: seq<Address>, soft: seq<Address>, ghost t: Task) returns (candidates: seq<Candidate>)
      requires forall a :: a in strong <==> a in StrongEntries(t)
      requires forall a :: a in soft <==> a in t.soft && t.code.Usable(a)
      ensures IsSorted(candidates, CandidateBefore) && AreCandidates(candidates, t)
    {
      hide FindRegion, StrongEntries;
      candidates := [];
      for i := 0 to |strong|
        invariant forall c :: c in candidates <==> c.strong && c.addr in strong[..i]
      {
        assert strong[..i + 1] == strong[..i] + [strong[i]];
        candidates := candidates + [Candidate(strong[i], true)];
      }
      assert strong[..|strong|] == strong;
      for i := 0 to |soft|
        invariant forall c :: c in candidates <==> if c.strong then c.addr in strong else c.addr in soft[..i]
      {
        assert soft[..i + 1] == soft[..i] + [soft[i]];
        candidates := candidates + [Candidate(soft[i], false)];
      }
      assert soft[..|soft|] == soft;
      SortIsSorted(candidates, CandidateBefore);
      candidates := Sort(candidates, CandidateBefore);
    }

    /** The whole analysis over a given cache, whatever consistent decodes it already holds. */
    method AnalyzeWith(builder: CfgBuilder, input: Input, options: Options) returns (result: seq<FunctionBounds>)
      requires codeMap.Valid() && builder.cache.Valid() && builder.cache.Image() == Image()
      modifies builder.cache
      ensures builder.cache.Valid()
      ensures Image().Valid()
      ensures var t := Task(Image(), Elements(input.strongEntries), Elements(input.softEntries),
                            input.authoritativeSizes, options);
        result == Extents(t) && Meaning.IsReportOf(t, result)
    {
      hide InstructionCache.Valid, FindRegion, Swept, Gaps, Sort, AreCandidates, IsSorted, Meaning.IsReportOf;
      ghost var t := Task(Image(), Elements(input.strongEntries), Elements(input.softEntries),
                          input.authoritativeSizes, options);
      builder.cache.ImageIsValid();
      var strong := UsableOf(input.strongEntries);
      var soft := UsableOf(input.softEntries);
      var strongSorted := SortAddresses(strong);
      var entryBoundaries := (set a | a in strong) + (set a | a in soft);
      var ctx := Context(strongSorted, entryBoundaries, options);
      KeepReady(builder, ctx, t);

      var candidates := MakeCandidates(strong, soft, t);
      var emitted := SweepCandidates(builder, ctx, input.authoritativeSizes, t, candidates);
      if options.discoverGapFunctions {
        SweptIsSorted(t);
        emitted := Sort(emitted, StartsEarlier);
        var gapFunctions := CarveRegions(builder, ctx, t, emitted);
        emitted := emitted + gapFunctions;
      } else {
        assert emitted + [] == emitted;
      }
      ReadyIsValid(builder, ctx, t);
      emitted := Sort(emitted, BoundsBefore);
      result := Merge(emitted);
      Meaning.ExtentsAreReport(t);
    }

    method SortAddresses(addresses: seq<Address>) returns (sorted: seq<Address>)
      ensures Increasing(sorted)
      ensures forall a :: a in sorted <==> a in addresses
    {
      SortIsSorted(addresses, AddressBefore);
      sorted := Sort(addresses, AddressBefore);
      forall i, j | 0 <= i < j < |sorted| ensures sorted[i] <= sorted[j] {
        assert !AddressBefore(sorted[j], sorted[i]);
      }
      sorted := Unique(sorted);
    }

    method Analyze(input: Input, options: Options) returns (result: seq<FunctionBounds>)
      requires codeMap.Valid() && IsDecoder(decode)
      ensures Image().Valid()
      ensures var t := Task(Image(), Elements(input.strongEntries), Elements(input.softEntries),
                            input.authoritativeSizes, options);
        result == Extents(t) && Meaning.IsReportOf(t, result)
    {
      var cache := new InstructionCache(codeMap, decode);
      var builder := new CfgBuilder(cache);
      result := AnalyzeWith(builder, input, options);
    }
  }

  lemma NothingTodo(candidates: seq<Candidate>, lastAddr: Address)
    ensures Todo(candidates, |candidates|, lastAddr) == {}
  {
  }

  predicate StartsEarlier(a: FunctionBounds, b: FunctionBounds) { a.start < b.start }

  predicate AddressBefore(a: Address, b: Address) { a < b }

  /** The sweep already emits in order of start. */
  lemma SweptIsSorted(t: Task)
    requires t.code.Valid()
    ensures Sort(Swept(t), StartsEarlier) == Swept(t)
  {
    hide Swept, Entries, EndOf;
    SweptShape(t);
    SortOfSorted(Swept(t), StartsEarlier);
  }
}
