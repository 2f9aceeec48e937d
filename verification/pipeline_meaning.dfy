/** What the pipeline asks the extent analysis, said of the file's contents and the options alone. */
module PipelineMeanings {
  import opened Types
  import opened Code
  import opened Sorting
  import opened ElfImages
  import opened EhFrames
  import opened EhFrameParsers
  import opened NameResolvers
  import opened FunctionExtents
  import opened FunctionAnalyzers
  import ExtentTheorems
  import Discovery = RecursiveDisassemblers

  /** A defined function symbol: of type function or indirect function, in a section that is none of the
      reserved ones. */
  ghost predicate DefinesFunction(s: ElfSymbol) {
    s.info % 16 in {2, 10} && 0 < s.sectionIndex < 0xff00
  }

  /** What the options say may be trusted to start a function. */
  ghost predicate IsTrusted(options: AnalysisOptions, symbols: seq<ElfSymbol>, entryPoint: Address,
                            ranges: seq<EhFrameFunction>, a: Address) {
    || (options.useSymbols && exists s :: s in symbols && DefinesFunction(s) && s.value == a)
    || (options.useEntryPoint && a != 0 && a == entryPoint)
    || (options.useEhFrame && exists r :: r in ranges && r.start == a)
  }

  // ------------------------------------------------------------------ stated sizes

  /** The first symbol of a function at `a` that states a size states this one. */
  ghost predicate FirstSymbolSize(symbols: seq<ElfSymbol>, a: Address, size: Address) {
    size > 0 && exists i: nat :: FirstSymbolAt(symbols, a, size, i)
  }

  ghost predicate FirstSymbolAt(symbols: seq<ElfSymbol>, a: Address, size: Address, i: nat) {
    && i < |symbols| && DefinesFunction(symbols[i]) && symbols[i].value == a && symbols[i].size == size
    && forall j :: 0 <= j < i && DefinesFunction(symbols[j]) && symbols[j].value == a ==> symbols[j].size == 0
  }

  /** The first range that starts at `a` and is not empty is this long. */
  ghost predicate FirstRangeSize(ranges: seq<EhFrameFunction>, a: Address, size: Address) {
    size > 0 && exists i: nat :: FirstRangeAt(ranges, a, size, i)
  }

  ghost predicate FirstRangeAt(ranges: seq<EhFrameFunction>, a: Address, size: Address, i: nat) {
    && i < |ranges| && ranges[i].start == a && ranges[i].size == size
    && forall j :: 0 <= j < i && ranges[j].start == a ==> ranges[j].size == 0
  }

  ghost predicate NoRangeSize(ranges: seq<EhFrameFunction>, a: Address) {
    forall r :: r in ranges && r.start == a ==> r.size == 0
  }

  ghost predicate NoSymbolSize(symbols: seq<ElfSymbol>, a: Address) {
    forall s :: s in symbols && DefinesFunction(s) && s.value == a ==> s.size == 0
  }

  /** A symbol's size stands before an unwind range's. */
  ghost predicate IsStatedSize(options: AnalysisOptions, symbols: seq<ElfSymbol>, ranges: seq<EhFrameFunction>,
                               a: Address, size: Address) {
    || (options.useSymbols && FirstSymbolSize(symbols, a, size))
    || ((!options.useSymbols || NoSymbolSize(symbols, a)) && options.useEhFrame && FirstRangeSize(ranges, a, size))
  }

  ghost predicate Maps(sizes: map<Address, Address>, a: Address, size: Address) { a in sizes && sizes[a] == size }

  lemma SizesOfOneMore(sources: seq<Source>, s: Source)
    ensures StatedSizes(sources + [s]) ==
            if s.size == 0 || s.addr in StatedSizes(sources) then StatedSizes(sources)
            else StatedSizes(sources)[s.addr := s.size]
  {
    assert (sources + [s])[..|sources|] == sources;
  }

  lemma {:induction false} SymbolSizesAre(symbols: seq<ElfSymbol>, a: Address, size: Address)
    ensures Maps(StatedSizes(SymbolSources(symbols)), a, size) <==> FirstSymbolSize(symbols, a, size)
    ensures a !in StatedSizes(SymbolSources(symbols)) <==> NoSymbolSize(symbols, a)
  {
    hide StatedSizes, FirstSymbolSize, NoSymbolSize, DefinesFunction;
    if symbols == [] {
      NothingIsFirst(a, size);
    } else {
      var init, last := symbols[..|symbols| - 1], symbols[|symbols| - 1];
      assert symbols == init + [last];
      SymbolSizesAre(init, a, size);
      SymbolSourcesStep(init, last);
      SizesOfOneMore(SymbolSources(init), Source(last.value, last.size));
      hide SymbolSources;
      FirstSymbolStep(init, last, a, size);
    }
  }

  lemma NothingIsFirst(a: Address, size: Address)
    ensures StatedSizes([]) == map[]
    ensures !FirstSymbolSize([], a, size) && NoSymbolSize([], a)
    ensures !FirstRangeSize([], a, size) && NoRangeSize([], a)
  {
  }

  lemma SymbolSourcesStep(init: seq<ElfSymbol>, last: ElfSymbol)
    ensures SymbolSources(init + [last]) ==
            if DefinesFunction(last) then SymbolSources(init) + [Source(last.value, last.size)] else SymbolSources(init)
  {
    assert (init + [last])[..|init|] == init;
    assert SymbolSources(init) + [] == SymbolSources(init);
  }

  lemma FirstSymbolStep(init: seq<ElfSymbol>, last: ElfSymbol, a: Address, size: Address)
    ensures FirstSymbolSize(init + [last], a, size) <==>
      FirstSymbolSize(init, a, size)
      || (NoSymbolSize(init, a) && DefinesFunction(last) && last.value == a && last.size == size && size > 0)
    ensures NoSymbolSize(init + [last], a) <==>
      NoSymbolSize(init, a) && (DefinesFunction(last) && last.value == a ==> last.size == 0)
    ensures FirstSymbolSize(init, a, size) ==> !NoSymbolSize(init, a)
  {
    hide DefinesFunction;
    var all, n := init + [last], |init|;
    assert forall j :: 0 <= j < n ==> all[j] == init[j];
    assert all[n] == last;
    if size > 0 {
      if i: nat :| FirstSymbolAt(init, a, size, i) {
        assert FirstSymbolAt(all, a, size, i);
        assert init[i] in init;
      }
      if i: nat :| FirstSymbolAt(all, a, size, i) {
        if i < n {
          assert FirstSymbolAt(init, a, size, i);
        } else {
          forall s | s in init && DefinesFunction(s) && s.value == a ensures s.size == 0 {
            var j :| 0 <= j < n && init[j] == s;
            assert all[j] == s;
          }
        }
      }
      if NoSymbolSize(init, a) && DefinesFunction(last) && last.value == a && last.size == size {
        forall j | 0 <= j < n && DefinesFunction(all[j]) && all[j].value == a ensures all[j].size == 0 {
          assert init[j] in init;
        }
        assert FirstSymbolAt(all, a, size, n);
      }
    }
    assert forall s :: s in all <==> s in init || s == last;
  }

  lemma {:induction false} RangeSizesAre(ranges: seq<EhFrameFunction>, a: Address, size: Address)
    ensures Maps(StatedSizes(RangeSources(ranges)), a, size) <==> FirstRangeSize(ranges, a, size)
    ensures a !in StatedSizes(RangeSources(ranges)) <==> NoRangeSize(ranges, a)
  {
    hide StatedSizes, FirstRangeSize, NoRangeSize;
    if ranges == [] {
      NothingIsFirst(a, size);
      assert RangeSources(ranges) == [];
    } else {
      var init, last := ranges[..|ranges| - 1], ranges[|ranges| - 1];
      assert ranges == init + [last];
      RangeSizesAre(init, a, size);
      assert RangeSources(ranges) == RangeSources(init) + [Source(last.start, last.size)];
      SizesOfOneMore(RangeSources(init), Source(last.start, last.size));
      hide RangeSources;
      FirstRangeStep(init, last, a, size);
    }
  }

  lemma FirstRangeStep(init: seq<EhFrameFunction>, last: EhFrameFunction, a: Address, size: Address)
    ensures FirstRangeSize(init + [last], a, size) <==>
      FirstRangeSize(init, a, size) || (NoRangeSize(init, a) && last.start == a && last.size == size && size > 0)
    ensures NoRangeSize(init + [last], a) <==> NoRangeSize(init, a) && (last.start == a ==> last.size == 0)
    ensures FirstRangeSize(init, a, size) ==> !NoRangeSize(init, a)
  {
    var all, n := init + [last], |init|;
    assert forall j :: 0 <= j < n ==> all[j] == init[j];
    assert all[n] == last;
    if size > 0 {
      if i: nat :| FirstRangeAt(init, a, size, i) {
        assert FirstRangeAt(all, a, size, i);
        assert init[i] in init;
      }
      if i: nat :| FirstRangeAt(all, a, size, i) {
        if i < n {
          assert FirstRangeAt(init, a, size, i);
        } else {
          forall r | r in init && r.start == a ensures r.size == 0 {
            var j :| 0 <= j < n && init[j] == r;
            assert all[j] == r;
          }
        }
      }
      if NoRangeSize(init, a) && last.start == a && last.size == size {
        forall j | 0 <= j < n && all[j].start == a ensures all[j].size == 0 {
          assert init[j] in init;
        }
        assert FirstRangeAt(all, a, size, n);
      }
    }
    assert forall r :: r in all <==> r in init || r == last;
  }

  /** What earlier sources state stands before what later ones do. */
  lemma {:induction false} SizesAppend(a: seq<Source>, b: seq<Source>, addr: Address)
    ensures addr in StatedSizes(a + b) <==> addr in StatedSizes(a) || addr in StatedSizes(b)
    ensures addr in StatedSizes(a + b) ==>
      StatedSizes(a + b)[addr] == if addr in StatedSizes(a) then StatedSizes(a)[addr] else StatedSizes(b)[addr]
  {
    if b == [] {
      assert a + b == a;
    } else {
      var init, last := b[..|b| - 1], b[|b| - 1];
      SizesAppend(a, init, addr);
      assert a + b == (a + init) + [last] && b == init + [last];
      SizesOfOneMore(a + init, last);
      SizesOfOneMore(init, last);
      hide StatedSizes;
      if last.addr != addr {
      } else {
        SizesAppend(a, init, last.addr);
      }
    }
  }

  lemma SizesAre(options: AnalysisOptions, symbols: seq<ElfSymbol>, entryPoint: Address, ehFrame: Blob, a: Address,
                 size: Address)
    ensures var ranges := Walk(ehFrame.data, ehFrame.vaddr, 0, map[]);
      Maps(StatedSizes(Sources(options, symbols, entryPoint, ehFrame)), a, size) <==>
      IsStatedSize(options, symbols, ranges, a, size)
  {
    var ranges := Walk(ehFrame.data, ehFrame.vaddr, 0, map[]);
    var first := if options.useSymbols then SymbolSources(symbols) else [];
    var second := if options.useEntryPoint && entryPoint != 0 then [Source(entryPoint, 0)] else [];
    var third := if options.useEhFrame then RangeSources(ranges) else [];
    assert Sources(options, symbols, entryPoint, ehFrame) == (first + second) + third;
    EntryPointHasNoSize(entryPoint);
    hide Walk, Sources, StatedSizes, SymbolSources, RangeSources;
    SizesAppend(first + second, third, a);
    SizesAppend(first, second, a);
    SymbolSizesAre(symbols, a, size);
    RangeSizesAre(ranges, a, size);
    hide FirstSymbolSize, FirstRangeSize, NoSymbolSize;
  }

  lemma EntryPointHasNoSize(entryPoint: Address)
    ensures StatedSizes([Source(entryPoint, 0)]) == map[] && StatedSizes([]) == map[]
  {
    assert [Source(entryPoint, 0)][..0] == [];
  }

  // ------------------------------------------------------------------ starts

  lemma {:induction false} SymbolSourcesAre(symbols: seq<ElfSymbol>, a: Address)
    ensures (exists s :: s in SymbolSources(symbols) && s.addr == a) <==>
            exists s :: s in symbols && DefinesFunction(s) && s.value == a
  {
    if symbols != [] {
      var init, last := symbols[..|symbols| - 1], symbols[|symbols| - 1];
      assert symbols == init + [last];
      SymbolSourcesAre(init, a);
      var more := if DefinesFunction(last) then [Source(last.value, last.size)] else [];
      assert SymbolSources(symbols) == SymbolSources(init) + more;
      hide SymbolSources, DefinesFunction;
      if s :| s in init && DefinesFunction(s) && s.value == a {
        assert s in symbols;
      }
      if DefinesFunction(last) && last.value == a {
        assert last in symbols && Source(last.value, last.size) in SymbolSources(init) + more;
      }
      if q :| q in SymbolSources(init) && q.addr == a {
        assert q in SymbolSources(init) + more;
      }
    }
  }

  lemma RangeSourcesAre(ranges: seq<EhFrameFunction>, a: Address)
    ensures (exists s :: s in RangeSources(ranges) && s.addr == a) <==> exists r :: r in ranges && r.start == a
  {
    if r :| r in ranges && r.start == a {
      RangeIsSource(ranges, r);
    }
  }

  lemma SourcesAre(options: AnalysisOptions, symbols: seq<ElfSymbol>, entryPoint: Address, ehFrame: Blob, a: Address)
    ensures var ranges := Walk(ehFrame.data, ehFrame.vaddr, 0, map[]);
      (exists s :: s in Sources(options, symbols, entryPoint, ehFrame) && s.addr == a) <==>
      IsTrusted(options, symbols, entryPoint, ranges, a)
  {
    hide Walk, SymbolSources, RangeSources, DefinesFunction;
    var ranges := Walk(ehFrame.data, ehFrame.vaddr, 0, map[]);
    SymbolSourcesAre(symbols, a);
    RangeSourcesAre(ranges, a);
    var sources := Sources(options, symbols, entryPoint, ehFrame);
    if options.useSymbols {
      forall s | s in SymbolSources(symbols) ensures s in sources {
      }
    }
    if options.useEhFrame {
      forall s | s in RangeSources(ranges) ensures s in sources {
      }
    }
    if options.useEntryPoint && entryPoint != 0 {
      assert Source(entryPoint, 0) in sources;
    }
  }

  // ------------------------------------------------------------------ the task

  /** Where recursive descent begins: all trusted addresses in code, or every region when there are none. */
  ghost function SeedSet(code: CodeImage, strong: set<Address>): set<Address> {
    if strong != {} then strong else set r | r in code.regions :: r.start
  }

  lemma SeedsAre(code: CodeImage, strong: set<Address>)
    ensures Elements(Seeds(code, strong)) == SeedSet(code, strong)
  {
    var seeds := Seeds(code, strong);
    if strong == {} {
      forall r | r in code.regions ensures r.start in seeds {
        var i :| 0 <= i < |code.regions| && code.regions[i] == r;
        assert seeds[i] == r.start;
      }
    }
  }

  /**
   What the pipeline asks: strong entries are the trusted addresses in code; the sizes are the first ones
   stated, symbols' before ranges'; soft entries are the in-code seeds and callees of what recursive descent
   decodes that are not strong; and gaps are searched, past indirect branches, for functions that return or
   are two instructions long.
   */
  lemma TaskIs(code: CodeImage, options: AnalysisOptions, symbols: seq<ElfSymbol>, entryPoint: Address, ehFrame: Blob,
               strong: set<Address>, closure: set<Address>)
    requires code.Valid()
    requires var ranges := Walk(ehFrame.data, ehFrame.vaddr, 0, map[]);
      forall a: Address :: a in strong <==>
        InSomeRegion(code.regions, a) && IsTrusted(options, symbols, entryPoint, ranges, a)
    requires Discovery.IsDescentClosure(code, SeedSet(code, strong), closure)
    ensures var t := AnalysisTask(code, options, Sources(options, symbols, entryPoint, ehFrame));
      var ranges := Walk(ehFrame.data, ehFrame.vaddr, 0, map[]);
      && t.code == code && t.strong == strong
      && (forall a: Address, size: Address :: Maps(t.sizes, a, size) <==>
            IsStatedSize(options, symbols, ranges, a, size))
      && (forall a :: a in t.soft ==> a !in strong && options.useRecursive && IsFound(code, strong, closure, a))
      && (|closure| <= options.maxInstructions ==> forall a: Address ::
            a !in strong && options.useRecursive && IsFound(code, strong, closure, a) ==> a in t.soft)
      && t.options.maxInstructions == options.maxInstructions
      && t.options.discoverGapFunctions && t.options.linearPastIndirectBranch
      && t.options.minGapFunctionInstructions == 2
  {
    hide Sources, Walk, StatedSizes, IsTrusted, IsStatedSize, CodeImage.Valid, Discovery.IsDescentClosure, SeedSet;
    hide Seeds, StrongStarts, DiscoveredStarts, IsFound, FindRegion, InSomeRegion, Maps;
    var sources := Sources(options, symbols, entryPoint, ehFrame);
    var t := AnalysisTask(code, options, sources);
    var ranges := Walk(ehFrame.data, ehFrame.vaddr, 0, map[]);
    forall a: Address ensures a in t.strong <==> a in strong {
      SourcesAre(options, symbols, entryPoint, ehFrame, a);
      StrongStartsAre(code, sources, a);
    }
    assert t.strong == strong;
    forall a: Address, size: Address
      ensures Maps(t.sizes, a, size) <==> IsStatedSize(options, symbols, ranges, a, size)
    {
      SizesAre(options, symbols, entryPoint, ehFrame, a, size);
    }
    SoftAre(code, options, strong, closure);
  }

  /** A seed in code, or the in-code target of a direct call in the closure. */
  ghost predicate IsFound(code: CodeImage, strong: set<Address>, closure: set<Address>, a: Address) {
    && InSomeRegion(code.regions, a)
    && (a in SeedSet(code, strong) || exists b :: b in closure && Calls(code, b, a))
  }

  lemma StrongStartsAre(code: CodeImage, sources: seq<Source>, a: Address)
    ensures a in StrongStarts(code, sources) <==>
            InSomeRegion(code.regions, a) && exists s :: s in sources && s.addr == a
  {
    UsableIs(code, a);
    hide FindRegion, InSomeRegion;
  }

  lemma SoftAre(code: CodeImage, options: AnalysisOptions, strong: set<Address>, closure: set<Address>)
    requires code.Valid() && Discovery.IsDescentClosure(code, SeedSet(code, strong), closure)
    ensures var found := DiscoveredStarts(code, options.maxInstructions, Seeds(code, strong));
      && (forall a :: a in found ==> IsFound(code, strong, closure, a))
      && (|closure| <= options.maxInstructions ==>
            forall a: Address :: IsFound(code, strong, closure, a) ==> a in found)
  {
    hide CodeImage.Valid, Discovery.IsDescentClosed, SeedSet, Seeds, Discovery.Traverse, Discovery.Closure, Calls;
    hide FindRegion, InSomeRegion, Discovery.CallsInto, DiscoveredStarts, CodeImage.Insn;
    var seeds, cap := Seeds(code, strong), options.maxInstructions;
    SeedsAre(code, strong);
    Discovery.ClosureIsDescent(code, SeedSet(code, strong));
    assert closure <= Discovery.Closure(code, Elements(seeds)) <= closure;
    assert closure == Discovery.Closure(code, Elements(seeds));
    Discovery.TraverseIsClosure(code, cap, seeds);
    var decoded := Discovery.Traverse(code, cap, seeds).visited;
    forall a: Address ensures a in DiscoveredStarts(code, cap, seeds) <==> IsFound(code, strong, decoded, a) {
      DiscoveredAreStarts(code, cap, seeds, a);
      assert a in seeds <==> a in Elements(seeds);
      UsableIs(code, a);
      forall b: Address ensures Discovery.CallsInto(code, b, a) <==> Calls(code, b, a) && code.Contains(a) {
        Discovery.CallsAre(code, b, a);
      }
    }
  }

  /** Every trusted start that is aligned code, symbols', the ELF header's or unwind data's, lies in exactly
      one reported function. */
  lemma TrustedAreCovered(code: CodeImage, options: AnalysisOptions, symbols: seq<ElfSymbol>, entryPoint: Address,
                          ehFrame: Blob, a: Address)
    requires code.Valid() && a % 4 == 0 && InSomeRegion(code.regions, a)
    requires IsTrusted(options, symbols, entryPoint, Walk(ehFrame.data, ehFrame.vaddr, 0, map[]), a)
    ensures var fns := Extents(AnalysisTask(code, options, Sources(options, symbols, entryPoint, ehFrame)));
      && ExtentTheorems.Covers(fns, a)
      && forall f, g :: f in fns && g in fns && f.Contains(a) && g.Contains(a) ==> f == g
  {
    UsableIs(code, a);
    SourcesAre(options, symbols, entryPoint, ehFrame, a);
    hide IsTrusted, Sources, AnalysisTask, Extents, InSomeRegion, FindRegion;
    var sources := Sources(options, symbols, entryPoint, ehFrame);
    var s :| s in sources && s.addr == a;
    TrustedStartsAreCovered(code, options, sources, s);
  }

  // ------------------------------------------------------------------ the report

  /** What is reported of each interval. */
  lemma ReportIs(functions: seq<Function>, bounds: seq<FunctionBounds>, naming: Naming, i: nat)
    requires IsReport(functions, bounds, naming) && i < |functions|
    ensures |functions| == |bounds|
    ensures var f, b := functions[i], bounds[i];
      && f.start == b.start && f.end == b.end && f.size == b.end - b.start
      && (f.size >= 4 ==> f.lastInstruction + 4 == f.end) && (f.size < 4 ==> f.lastInstruction == f.start)
      && f.name == naming.NameFor(f.start) && (f.hasSymbol <==> naming.HasSymbol(f.start))
  {
    hide Naming.NameFor, Naming.HasSymbol;
  }
}
