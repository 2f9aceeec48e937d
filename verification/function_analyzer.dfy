/** The pipeline as a whole: entries from symbols, entry point and unwind data, recursive discovery, and
    extent analysis. */
module FunctionAnalyzers {
  import opened Types
  import opened Code
  import opened Sorting
  import opened ElfImages
  import opened CodeMaps
  import opened EhFrames
  import opened EhFrameParsers
  import opened NameResolvers
  import opened FunctionExtents
  import opened FunctionExtentAnalyzers
  import ExtentTheorems
  import Discovery = RecursiveDisassemblers
  import Layout = EhFrameLayout

  datatype AnalysisOptions = AnalysisOptions(
    useSymbols: bool, useEhFrame: bool, useEntryPoint: bool, useRecursive: bool, demangle: bool, maxInstructions: nat)

  datatype Function = Function(
    start: Address, end: Address, lastInstruction: Address, size: Address, name: string, hasSymbol: bool)

  /** Somewhere a function is known to start, with its stated size or zero. */
  datatype Source = Source(addr: Address, size: Address)

  function SymbolSources(symbols: seq<ElfSymbol>): seq<Source> {
    if symbols == [] then [] else
      var s := symbols[|symbols| - 1];
      SymbolSources(symbols[..|symbols| - 1])
      + if s.IsFunction() && s.IsDefined() then [Source(s.value, s.size)] else []
  }

  function RangeSources(ranges: seq<EhFrameFunction>): seq<Source> {
    seq(|ranges|, i requires 0 <= i < |ranges| => Source(ranges[i].start, ranges[i].size))
  }

  /** Every trusted start, in the order the program consults them. */
  function Sources(options: AnalysisOptions, symbols: seq<ElfSymbol>, entryPoint: Address, ehFrame: Blob): seq<Source> {
    (if options.useSymbols then SymbolSources(symbols) else [])
    + (if options.useEntryPoint && entryPoint != 0 then [Source(entryPoint, 0)] else [])
    + (if options.useEhFrame then RangeSources(Walk(ehFrame.data, ehFrame.vaddr, 0, map[])) else [])
  }

  function StrongStarts(code: CodeImage, sources: seq<Source>): set<Address> {
    set s | s in sources && code.Contains(s.addr) :: s.addr
  }

  /** The first non-zero size stated for an address holds. */
  function StatedSizes(sources: seq<Source>): map<Address, Address> {
    if sources == [] then map[] else
      var sizes, s := StatedSizes(sources[..|sources| - 1]), sources[|sources| - 1];
      if s.size == 0 || s.addr in sizes then sizes else sizes[s.addr := s.size]
  }

  /** Where recursive descent begins: the strong starts, or every region when there are none. */
  function Seeds(code: CodeImage, strong: set<Address>): seq<Address> {
    if strong == {} then seq(|code.regions|, i requires 0 <= i < |code.regions| => code.regions[i].start)
    else Ascending(strong)
  }

  /** The starts recursive descent adds to its seeds and their callees. */
  ghost function DiscoveredStarts(code: CodeImage, cap: nat, seeds: seq<Address>): set<Address> {
    var decoded := Discovery.Traverse(code, cap, seeds).visited;
    (set s | s in seeds && code.Contains(s))
    + (set a | a in decoded && CallsSomewhere(code, a) :: code.Insn(a).value.target)
  }

  predicate CallsSomewhere(code: CodeImage, a: Address) {
    code.Insn(a).Some? && Discovery.CallsInto(code, a, code.Insn(a).value.target)
  }

  lemma DiscoveredAreStarts(code: CodeImage, cap: nat, seeds: seq<Address>, t: Address)
    ensures t in DiscoveredStarts(code, cap, seeds) <==>
            Discovery.IsStart(code, seeds, Discovery.Traverse(code, cap, seeds).visited, t)
  {
    hide FindRegion, CodeImage.Insn, Discovery.Traverse;
    var decoded := Discovery.Traverse(code, cap, seeds).visited;
    if a: Address :| a in decoded && Discovery.CallsInto(code, a, t) {
      assert CallsSomewhere(code, a);
    }
  }

  /** What the extent analysis is asked, given the trusted starts. */
  ghost function AnalysisTask(code: CodeImage, options: AnalysisOptions, sources: seq<Source>): Task {
    var strong := StrongStarts(code, sources);
    var found :=
      if options.useRecursive then DiscoveredStarts(code, options.maxInstructions, Seeds(code, strong)) else {};
    Task(code, strong, found - strong, StatedSizes(sources), Options(options.maxInstructions, true, true, 2))
  }

  /** A reported function: its last instruction is its last whole word, its size the distance between
      its ends, its name the one resolved for its start. */
  function FunctionFor(b: FunctionBounds, naming: Naming): Function
    requires b.start <= b.end
  {
    Function(b.start, b.end, if b.end - b.start >= 4 then b.end - 4 else b.start, b.end - b.start,
             naming.NameFor(b.start), naming.HasSymbol(b.start))
  }

  ghost predicate IsReport(functions: seq<Function>, bounds: seq<FunctionBounds>, naming: Naming) {
    && |functions| == |bounds|
    && forall i :: 0 <= i < |bounds| ==>
         bounds[i].start <= bounds[i].end && functions[i] == FunctionFor(bounds[i], naming)
  }

  // ------------------------------------------------------------------ theorems

  /** Every trusted start that is aligned code lies in exactly one reported function. */
  lemma TrustedStartsAreCovered(code: CodeImage, options: AnalysisOptions, sources: seq<Source>, s: Source)
    requires code.Valid() && s in sources && code.Usable(s.addr)
    ensures var fns := Extents(AnalysisTask(code, options, sources));
      && ExtentTheorems.Covers(fns, s.addr)
      && forall f, g :: f in fns && g in fns && f.Contains(s.addr) && g.Contains(s.addr) ==> f == g
  {
    var t := AnalysisTask(code, options, sources);
    assert s.addr in StrongStarts(code, sources);
    assert s.addr in Entries(t);
    hide AnalysisTask, Extents, FindRegion;
    ExtentTheorems.EntriesAreCoveredOnce(t, s.addr);
  }

  /** Every in-code target of a direct call that discovery decoded lies in exactly one reported function. */
  lemma DecodedCalleesAreCovered(code: CodeImage, options: AnalysisOptions, sources: seq<Source>, a: Address,
                                 callee: Address)
    requires code.Valid() && options.useRecursive
    requires a in Discovery.Traverse(code, options.maxInstructions, Seeds(code, StrongStarts(code, sources))).visited
    requires Discovery.CallsInto(code, a, callee)
    ensures var fns := Extents(AnalysisTask(code, options, sources));
      && ExtentTheorems.Covers(fns, callee)
      && forall f, g :: f in fns && g in fns && f.Contains(callee) && g.Contains(callee) ==> f == g
  {
    var t := AnalysisTask(code, options, sources);
    hide Extents, FindRegion, Discovery.Traverse, CodeImage.Insn, StrongStarts, Seeds;
    var seeds := Seeds(code, StrongStarts(code, sources));
    DiscoveredAreStarts(code, options.maxInstructions, seeds, callee);
    InsnShape(code, a);
    assert callee in t.strong || callee in t.soft;
    assert callee in Entries(t);
    ExtentTheorems.EntriesAreCoveredOnce(t, callee);
  }

  /**
   When the closure of the usable seeds is no larger than the cap, that is every in-code callee of the
   whole closure: nothing reachable calls into code that no reported function holds.
   */
  lemma ReachableCalleesAreCovered(code: CodeImage, options: AnalysisOptions, sources: seq<Source>, a: Address,
                                   callee: Address)
    requires code.Valid() && options.useRecursive
    requires var seeds := Seeds(code, StrongStarts(code, sources));
      && |Discovery.Closure(code, Elements(seeds))| <= options.maxInstructions
      && a in Discovery.Closure(code, Elements(seeds))
    requires Discovery.CallsInto(code, a, callee)
    ensures var fns := Extents(AnalysisTask(code, options, sources));
      && ExtentTheorems.Covers(fns, callee)
      && forall f, g :: f in fns && g in fns && f.Contains(callee) && g.Contains(callee) ==> f == g
  {
    var seeds := Seeds(code, StrongStarts(code, sources));
    hide Extents, FindRegion, CodeImage.Insn, StrongStarts, Seeds, Discovery.Closure, AnalysisTask;
    Discovery.TraverseIsClosure(code, options.maxInstructions, seeds);
    DecodedCalleesAreCovered(code, options, sources, a, callee);
  }

  /** Of the sizes stated for one address, the first non-zero one holds. */
  lemma {:induction false} FirstSizeHolds(sources: seq<Source>, i: nat)
    requires i < |sources| && sources[i].size > 0
    requires forall j :: 0 <= j < i && sources[j].addr == sources[i].addr ==> sources[j].size == 0
    ensures sources[i].addr in StatedSizes(sources) && StatedSizes(sources)[sources[i].addr] == sources[i].size
    decreases |sources|
  {
    var init := sources[..|sources| - 1];
    if i < |init| {
      FirstSizeHolds(init, i);
    } else {
      UnstatedHasNoSize(init, sources[i].addr);
    }
  }

  lemma {:induction false} UnstatedHasNoSize(sources: seq<Source>, addr: Address)
    requires forall j :: 0 <= j < |sources| && sources[j].addr == addr ==> sources[j].size == 0
    ensures addr !in StatedSizes(sources)
  {
    if sources != [] {
      UnstatedHasNoSize(sources[..|sources| - 1], addr);
    }
  }

  lemma {:induction false} SizesAreStated(sources: seq<Source>, addr: Address)
    ensures addr in StatedSizes(sources) <==> exists s :: s in sources && s.addr == addr && s.size > 0
    ensures addr in StatedSizes(sources) ==>
      StatedSizes(sources)[addr] > 0 && Source(addr, StatedSizes(sources)[addr]) in sources
  {
    if sources != [] {
      var init, last := sources[..|sources| - 1], sources[|sources| - 1];
      assert sources == init + [last];
      SizesAreStated(init, addr);
    }
  }

  /** The sizes stated are those of ranges that do not overlap. */
  ghost predicate StatedApart(sources: seq<Source>) {
    forall p, q :: p in sources && q in sources && p.size > 0 && q.size > 0 ==>
      p == q || p.addr + p.size <= q.addr || q.addr + q.size <= p.addr
  }

  /** Ranges that do not overlap are all reported as stated, cut off only at the end of their region. */
  lemma StatedRangesHold(code: CodeImage, options: AnalysisOptions, sources: seq<Source>, s: Source)
    requires code.Valid() && StatedApart(sources)
    requires s in sources && s.size > 0 && code.Usable(s.addr)
    ensures FunctionBounds(s.addr, Min(code.RegionEnd(s.addr), s.addr + s.size)) in
            Extents(AnalysisTask(code, options, sources))
  {
    hide Extents, FindRegion, DiscoveredStarts, StatedSizes, CodeImage.RegionEnd;
    var t := AnalysisTask(code, options, sources);
    SizesAreStated(sources, s.addr);
    assert t.sizes[s.addr] == s.size;
    assert IsAuthoritative(t, s.addr);
    forall f | f in Extents(t) && IsAuthoritative(t, f.start) ensures !ExtentTheorems.SwallowedBy(f, s.addr) {
      SizesAreStated(sources, f.start);
      StatedEndFits(t, f);
    }
    ExtentTheorems.StatedSizeFate(t, s.addr);
  }

  lemma StatedEndFits(t: Task, f: FunctionBounds)
    requires t.code.Valid() && f in Extents(t) && IsAuthoritative(t, f.start)
    ensures f.end <= f.start + t.sizes[f.start]
  {
    hide Extents, FindRegion, CodeImage.RegionEnd;
    assert f.start in Entries(t);
    ExtentTheorems.StartedEntryHasItsExtent(t, f.start);
    ExtentTheorems.ExtentsPartition(t);
    ExtentTheorems.StartIsInside(Extents(t), f);
    var g := FunctionBounds(f.start, EndOf(t, f.start));
    ExtentTheorems.StartIsInside(Extents(t), g);
    ExtentTheorems.ChainContainsOnce(Extents(t), 0, MAX_REGION_END, f.start);
  }

  lemma RangeIsSource(ranges: seq<EhFrameFunction>, r: EhFrameFunction)
    requires r in ranges
    ensures Source(r.start, r.size) in RangeSources(ranges)
  {
    var i :| 0 <= i < |ranges| && ranges[i] == r;
    assert RangeSources(ranges)[i] == Source(r.start, r.size);
  }

  /**
   End to end: when the file's unwind section is one that was laid out from a list of entries, and neither its
   ranges nor the sized symbols consulted overlap, every usable non-empty range is reported, whole up to
   the end of its region.
   */
  lemma UnwindRangesAreReported(image: ElfImage, code: CodeImage, options: AnalysisOptions,
                                symbols: seq<ElfSymbol>, entryPoint: Address,
                                entries: seq<Layout.Entry>, vaddr: Address, tail: seq<Byte>, r: EhFrameFunction,
                                functions: seq<Function>, naming: Naming)
    requires code.Valid() && options.useEhFrame
    requires Layout.WellFormed(entries, vaddr) && (|tail| < 4 || tail[..4] == [0, 0, 0, 0])
    requires |Layout.Laid(entries, vaddr, |entries|) + tail| < WORD_MODULUS
    requires var ranges := Layout.Ranges(entries, |entries|);
      && StatedApart((if options.useSymbols then SymbolSources(symbols) else []) + RangeSources(ranges))
      && r in ranges && code.Usable(r.start)
    requires EhFrameBlob(image) == Blob(vaddr, Layout.Laid(entries, vaddr, |entries|) + tail)
    requires var sources := Sources(options, symbols, entryPoint, EhFrameBlob(image));
      IsReport(functions, Extents(AnalysisTask(code, options, sources)), naming)
    ensures exists f :: f in functions && f.start == r.start && f.end == Min(code.RegionEnd(r.start), r.start + r.size)
  {
    hide Extents, FindRegion, Walk, EhFrameBlob, Layout.Laid, Layout.Ranges, Layout.WellFormed, SymbolSources;
    hide CodeImage.RegionEnd, StrongStarts, DiscoveredStarts, StatedSizes;
    Layout.SectionRoundTrip(entries, vaddr, tail);
    var ranges := Layout.Ranges(entries, |entries|);
    var sources := Sources(options, symbols, entryPoint, EhFrameBlob(image));
    Layout.RangesAreNonEmpty(entries, |entries|);
    RangeIsSource(ranges, r);
    assert Source(r.start, r.size) in sources;
    assert StatedApart(sources);
    hide StatedApart, Sources;
    StatedRangesHold(code, options, sources, Source(r.start, r.size));
    var bounds := Extents(AnalysisTask(code, options, sources));
    var bound := FunctionBounds(r.start, Min(code.RegionEnd(r.start), r.start + r.size));
    var j :| 0 <= j < |bounds| && bounds[j] == bound;
    assert functions[j] in functions;
  }

  // ------------------------------------------------------------------ the pipeline

  /** The trusted starts and sizes gathered from a prefix of the sources. */
  ghost predicate Gathered(code: CodeImage, sources: seq<Source>, starts: set<Address>, sizes: map<Address, Address>) {
    starts == StrongStarts(code, sources) && sizes == StatedSizes(sources)
  }

  lemma GatherOne(code: CodeImage, sources: seq<Source>, s: Source)
    ensures StrongStarts(code, sources + [s]) ==
            StrongStarts(code, sources) + if code.Contains(s.addr) then {s.addr} else {}
    ensures StatedSizes(sources + [s]) ==
            if s.size == 0 || s.addr in StatedSizes(sources) then StatedSizes(sources)
            else StatedSizes(sources)[s.addr := s.size]
  {
    hide FindRegion;
    assert (sources + [s])[..|sources|] == sources;
    forall a | a in StrongStarts(code, sources) + (if code.Contains(s.addr) then {s.addr} else {})
      ensures a in StrongStarts(code, sources + [s])
    {
      if a in StrongStarts(code, sources) {
        var q :| q in sources && code.Contains(q.addr) && q.addr == a;
        assert q in sources + [s];
      } else {
        assert s in sources + [s];
      }
    }
  }

  class FunctionAnalyzer {
    const image: ElfImage
    const symbols: seq<ElfSymbol>
    const entryPoint: Address
    const decode: Decoder
    const demangle: string -> string

    constructor (image: ElfImage, symbols: seq<ElfSymbol>, entryPoint: Address, decode: Decoder,
                 demangle: string -> string)
      ensures this.image == image && this.symbols == symbols && this.entryPoint == entryPoint
      ensures this.decode == decode && this.demangle == demangle
    {
      this.image := image;
      this.symbols := symbols;
      this.entryPoint := entryPoint;
      this.decode := decode;
      this.demangle := demangle;
    }

    ghost function Code(): CodeImage { CodeImage(Regions(image), decode) }

    /** Everything trusted to start a function under the options. */
    ghost function Trusted(options: AnalysisOptions): seq<Source> {
      Sources(options, symbols, entryPoint, EhFrameBlob(image))
    }

    /** Note one trusted start and the size stated for it. */
    method AddSource(codeMap: CodeMap, s: Source, ghost before: seq<Source>, starts: set<Address>,
                     sizes: map<Address, Address>)
      returns (starts': set<Address>, sizes': map<Address, Address>)
      requires codeMap.Valid() && codeMap.regions == Code().regions && Gathered(Code(), before, starts, sizes)
      ensures Gathered(Code(), before + [s], starts', sizes')
    {
      hide StrongStarts, StatedSizes, FindRegion;
      GatherOne(Code(), before, s);
      var contained := codeMap.Contains(s.addr);
      starts' := if contained then starts + {s.addr} else starts;
      sizes' := if s.size == 0 || s.addr in sizes then sizes else sizes[s.addr := s.size];
    }

    /** Collect every trusted start and stated size. */
    method GatherSources(codeMap: CodeMap, options: AnalysisOptions)
      returns (starts: set<Address>, sizes: map<Address, Address>)
      requires codeMap.Valid() && codeMap.regions == Code().regions
      requires image.NoWrap()
      ensures Gathered(Code(), Trusted(options), starts, sizes)
    {
      hide Gathered, Walk, SymbolSources, EhFrameBlob, ElfImage.NoWrap;
      starts, sizes := {}, map[];
      ghost var noted: seq<Source> := [];
      NothingGathered(Code());
      if options.useSymbols {
        NoSymbols();
        for i := 0 to |symbols|
          invariant noted == SymbolSources(symbols[..i])
          invariant Gathered(Code(), noted, starts, sizes)
        {
          var sym := symbols[i];
          SymbolStep(symbols, i);
          if !sym.IsFunction() || !sym.IsDefined() {
            continue;
          }
          starts, sizes := AddSource(codeMap, Source(sym.value, sym.size), noted, starts, sizes);
          noted := noted + [Source(sym.value, sym.size)];
        }
        assert symbols[..|symbols|] == symbols;
      }
      if options.useEntryPoint && entryPoint != 0 {
        starts, sizes := AddSource(codeMap, Source(entryPoint, 0), noted, starts, sizes);
        noted := noted + [Source(entryPoint, 0)];
      }
      if options.useEhFrame {
        var parser := new EhFrameParser(image);
        var ranges := parser.Parse();
        ghost var before, from := noted, RangeSources(ranges);
        assert before + from[..0] == before;
        for i := 0 to |ranges|
          invariant noted == before + from[..i]
          invariant Gathered(Code(), noted, starts, sizes)
        {
          starts, sizes := AddSource(codeMap, Source(ranges[i].start, ranges[i].size), noted, starts, sizes);
          assert before + from[..i + 1] == (before + from[..i]) + [from[i]];
          noted := noted + [Source(ranges[i].start, ranges[i].size)];
        }
        assert from[..|ranges|] == from;
      }
      assert noted == Trusted(options);
    }

    /** Run recursive descent from the trusted starts, or from every region when there are none. */
    method DiscoverMore(codeMap: CodeMap, strong: set<Address>, cap: nat)
      returns (found: set<Address>, sizes: map<Address, Address>)
      requires codeMap.Valid() && codeMap.regions == Code().regions && Code().Valid()
      ensures found == DiscoveredStarts(Code(), cap, Seeds(Code(), strong))
      ensures forall a :: a in sizes ==> sizes[a] == INSTRUCTION_SIZE
    {
      hide FindRegion, Discovery.Traverse, Discovery.IsStart, DiscoveredStarts, Ascending;
      var seeds := Ascending(strong);
      if seeds == [] {
        seeds := seq(|codeMap.regions|, i requires 0 <= i < |codeMap.regions| => codeMap.regions[i].start);
      }
      EmptyOrNot(strong);
      assert seeds == Seeds(Code(), strong);
      hide Seeds;
      var recursive := new Discovery.RecursiveDisassembler(codeMap, decode, cap);
      var discovered := recursive.Discover(seeds);
      found := discovered.functionStarts;
      sizes := discovered.instructionSizes;
      forall t: Address ensures t in found <==> t in DiscoveredStarts(Code(), cap, seeds) {
        DiscoveredAreStarts(Code(), cap, seeds, t);
      }
    }

    /** The start of the decoded instruction that ends at `end`, or failing that the last whole word. */
    method LastInstructionOf(sizes: map<Address, Address>, start: Address, end: Address) returns (last: Address)
      requires start <= end
      requires forall a :: a in sizes ==> sizes[a] == INSTRUCTION_SIZE
      ensures last == if end - start >= 4 then end - 4 else start
    {
      hide Ascending;
      var keys := Ascending(sizes.Keys);
      var at := UpperBound(keys, (a: Address) => a, end);
      if at > 0 && keys[at - 1] == end {
        at := at - 1;
      }
      if at > 0 {
        var first := keys[at - 1];
        assert first in sizes.Keys;
        if first >= start && first + sizes[first] == end {
          return first;
        }
      }
      return if end - start >= INSTRUCTION_SIZE then end - INSTRUCTION_SIZE else start;
    }

    method Report(bounds: seq<FunctionBounds>, sizes: map<Address, Address>, resolver: NameResolver,
                  ghost naming: Naming)
      returns (functions: seq<Function>)
      requires forall b :: b in bounds ==> b.start <= b.end
      requires forall a :: a in sizes ==> sizes[a] == INSTRUCTION_SIZE
      requires resolver.Resolves(naming)
      ensures IsReport(functions, bounds, naming)
    {
      hide NameResolver.Resolves, Naming.NameFor, Naming.HasSymbol;
      functions := [];
      for i := 0 to |bounds|
        invariant |functions| == i
        invariant forall j :: 0 <= j < i ==> functions[j] == FunctionFor(bounds[j], naming)
      {
        var b := bounds[i];
        var last := LastInstructionOf(sizes, b.start, b.end);
        var name := resolver.NameFor(b.start, naming);
        var hasSymbol := resolver.HasSymbol(b.start, naming);
        functions := functions + [Function(b.start, b.end, last, b.end - b.start, name, hasSymbol)];
      }
    }

    /** Recover the functions of the image: the extents of the task its entries make, in order. */
    method Analyze(options: AnalysisOptions) returns (functions: seq<Function>)
      requires image.WellFormed() && IsDecoder(decode)
      ensures Code().Valid()
      ensures IsReport(functions, Extents(AnalysisTask(Code(), options, Trusted(options))),
                       Naming(symbols, demangle, options.demangle))
    {
      hide Regions, Extents, FindRegion, Trusted, StrongStarts, StatedSizes, DiscoveredStarts, Seeds, Sort;
      hide NameResolver.Resolves, FunctionFor;
      ghost var sources := Trusted(options);
      ghost var task := AnalysisTask(Code(), options, sources);
      ghost var naming := Naming(symbols, demangle, options.demangle);
      var codeMap := new CodeMap(image);
      if codeMap.regions == [] {
        NoCodeNoFunctions(task);
        return [];
      }
      var resolver := new NameResolver(symbols, demangle, options.demangle);
      var strong, sizes := GatherSources(codeMap, options);
      var starts, instructionSizes := strong, map[];
      if options.useRecursive {
        var found;
        found, instructionSizes := DiscoverMore(codeMap, strong, options.maxInstructions);
        starts := starts + found;
      }
      var soft := starts - strong;
      var input := Input(Ascending(strong), Ascending(soft), sizes);
      var extentAnalyzer := new FunctionExtentAnalyzer(codeMap, decode);
      var bounds := extentAnalyzer.Analyze(input, Options(options.maxInstructions, true, true, 2));
      AscendingElements(strong);
      AscendingElements(soft);
      assert soft == task.soft;
      ExtentsAreOrdered(task);
      functions := Report(bounds, instructionSizes, resolver, naming);
      ReportIsSorted(functions, bounds, naming);
      functions := Sort(functions, FunctionBefore);
    }
  }

  predicate FunctionBefore(f: Function, g: Function) { f.start < g.start }

  lemma NothingGathered(code: CodeImage)
    ensures Gathered(code, [], {}, map[])
  {
  }

  lemma NoSymbols()
    ensures SymbolSources([]) == []
  {
  }

  lemma SymbolStep(symbols: seq<ElfSymbol>, i: nat)
    requires i < |symbols|
    ensures symbols[..0] == []
    ensures var s := symbols[i];
      SymbolSources(symbols[..i + 1]) ==
      SymbolSources(symbols[..i]) + if s.IsFunction() && s.IsDefined() then [Source(s.value, s.size)] else []
  {
    assert symbols[..i + 1][..i] == symbols[..i];
  }

  lemma EmptyOrNot(s: set<Address>)
    ensures Ascending(s) == [] <==> s == {}
  {
    hide Ascending;
    assert |Ascending(s)| == |s|;
  }

  lemma AscendingElements(s: set<Address>)
    ensures Elements(Ascending(s)) == s
  {
    hide Ascending;
  }

  lemma NoCodeNoFunctions(t: Task)
    requires t.code.Valid() && t.code.regions == []
    ensures Extents(t) == []
  {
    hide AlignUp, EndOf, Extent;
    assert Entries(t) == {};
    SweepNothing(t, 0);
    assert Gaps(t, [], 0) == [];
  }

  lemma ExtentsAreOrdered(t: Task)
    requires t.code.Valid()
    ensures ExtentTheorems.Chain(Extents(t), 0, MAX_REGION_END)
    ensures forall b :: b in Extents(t) ==> b.start <= b.end
  {
    hide Extents, Found, FindRegion;
    ExtentTheorems.ExtentsPartition(t);
  }

  lemma ReportIsSorted(functions: seq<Function>, bounds: seq<FunctionBounds>, naming: Naming)
    requires IsReport(functions, bounds, naming) && ExtentTheorems.Chain(bounds, 0, MAX_REGION_END)
    ensures Sort(functions, FunctionBefore) == functions
  {
    hide Sort;
    SortOfSorted(functions, FunctionBefore);
  }
}
