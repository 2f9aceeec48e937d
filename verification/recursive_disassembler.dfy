/** Recursive-descent discovery: which addresses decode from a set of seeds, and which start functions. */
module RecursiveDisassemblers {
  import opened Types
  import opened Code
  import opened Worklist
  import opened CodeMaps

  datatype RecursiveResult = RecursiveResult(functionStarts: set<Address>, instructionSizes: map<Address, Address>)

  function Offer(code: CodeImage, t: int): seq<Address> {
    if 0 <= t < WORD_MODULUS && code.Usable(t) then [t] else []
  }

  /** What a decoded instruction schedules, in order.  Unlike the CFG builder this follows calls. */
  function Follow(code: CodeImage, insn: Instruction): seq<Address> {
    var fallThrough := Offer(code, insn.EndAddress());
    var taken := if insn.hasTarget then Offer(code, insn.target) else [];
    match insn.flow
    case DirectCall => taken + fallThrough
    case IndirectCall => fallThrough
    case ConditionalBranch => taken + fallThrough
    case UnconditionalBranch => taken
    case IndirectBranch => []
    case Return => []
    case Sequential => fallThrough
  }

  function Next(code: CodeImage, a: Address): seq<Address> {
    var insn := code.Insn(a);
    if insn.Some? then Follow(code, insn.value) else []
  }

  function DiscoveryGraph(code: CodeImage): Graph {
    Graph((a: Address) => code.Insn(a).Some?, (a: Address) => Next(code, a))
  }

  /** The seeds traversal can start from, in order. */
  function UsableSeeds(code: CodeImage, seeds: seq<Address>): seq<Address> {
    if seeds == [] then [] else
      UsableSeeds(code, seeds[..|seeds| - 1]) + Offer(code, seeds[|seeds| - 1])
  }

  function Traverse(code: CodeImage, cap: nat, seeds: seq<Address>): Outcome {
    Drain(DiscoveryGraph(code), cap, Start(UsableSeeds(code, seeds)))
  }

  /** The in-code target of a decoded direct call. */
  predicate CallsInto(code: CodeImage, a: Address, t: Address) {
    var insn := code.Insn(a);
    insn.Some? && insn.value.flow.DirectCall? && insn.value.hasTarget && insn.value.target == t && code.Contains(t)
  }

  ghost predicate IsStart(code: CodeImage, seeds: seq<Address>, decoded: set<Address>, t: Address) {
    (t in seeds && code.Contains(t)) || exists a :: a in decoded && CallsInto(code, a, t)
  }

  ghost predicate IsDiscovery(code: CodeImage, cap: nat, seeds: seq<Address>, r: RecursiveResult) {
    var o := Traverse(code, cap, seeds);
    && r.instructionSizes.Keys == o.visited
    && (forall a :: a in r.instructionSizes ==> r.instructionSizes[a] == INSTRUCTION_SIZE)
    && (forall t :: t in r.functionStarts <==> IsStart(code, seeds, o.visited, t))
  }

  lemma {:induction false} UsableSeedsAre(code: CodeImage, seeds: seq<Address>)
    ensures forall a :: a in UsableSeeds(code, seeds) <==> a in seeds && code.Usable(a)
  {
    hide FindRegion;
    if seeds != [] {
      UsableSeedsAre(code, seeds[..|seeds| - 1]);
      assert seeds == seeds[..|seeds| - 1] + [seeds[|seeds| - 1]];
    }
  }

  ghost function Sown(code: CodeImage, seeds: set<Address>): set<Address> { set a | a in seeds && code.Usable(a) }

  /** Control goes on from `a` to `t`, calls included. */
  ghost predicate LeadsTo(code: CodeImage, a: Address, t: Address) {
    code.Insn(a).Some? &&
    var insn := code.Insn(a).value;
    FlowsTo(insn, t) || (insn.flow == DirectCall && insn.hasTarget && insn.target == t)
  }

  /** The seeds that decode, and whatever decodes that control leads to from there. */
  ghost predicate IsDescentClosed(code: CodeImage, seeds: set<Address>, s: set<Address>) {
    && (forall a :: a in seeds && code.Insn(a).Some? ==> a in s)
    && (forall a, t: Address :: a in s && LeadsTo(code, a, t) && code.Insn(t).Some? ==> t in s)
  }

  /** The least such set. */
  ghost predicate IsDescentClosure(code: CodeImage, seeds: set<Address>, s: set<Address>) {
    IsDescentClosed(code, seeds, s) && forall r :: IsDescentClosed(code, seeds, r) ==> s <= r
  }

  /** What recursive descent should decode is the least set that holds the seeds and is closed under control
      flow and calls. */
  lemma ClosureIsDescent(code: CodeImage, seeds: set<Address>)
    requires code.Valid()
    ensures IsDescentClosure(code, seeds, Closure(code, seeds))
  {
    hide CodeImage.Valid;
    var g, roots := DiscoveryGraph(code), Sown(code, seeds);
    ReachableIsClosed(g, roots);
    ClosedIsDescent(code, seeds, Closure(code, seeds));
    forall s | IsDescentClosed(code, seeds, s) ensures Closure(code, seeds) <= s {
      DescentIsClosed(code, seeds, s);
      ReachableIsLeast(g, roots, s);
    }
  }

  lemma ClosedIsDescent(code: CodeImage, seeds: set<Address>, s: set<Address>)
    requires code.Valid() && Closed(DiscoveryGraph(code), Sown(code, seeds), s)
    ensures IsDescentClosed(code, seeds, s)
  {
    hide CodeImage.Valid, CodeImage.Insn, LeadsTo, Next, FindRegion;
    forall a | a in seeds && code.Insn(a).Some? ensures a in s {
      InsnShape(code, a);
    }
    forall a, t: Address | a in s && LeadsTo(code, a, t) && code.Insn(t).Some? ensures t in s {
      LeadIsFollowed(code, a, t);
      InsnShape(code, t);
    }
  }

  lemma DescentIsClosed(code: CodeImage, seeds: set<Address>, s: set<Address>)
    requires code.Valid() && IsDescentClosed(code, seeds, s)
    ensures Closed(DiscoveryGraph(code), Sown(code, seeds), s)
  {
    hide CodeImage.Valid, CodeImage.Insn, LeadsTo, Next, FindRegion;
    forall a, b | a in s && b in Next(code, a) && code.Insn(b).Some? ensures b in s {
      LeadIsFollowed(code, a, b);
    }
  }

  lemma LeadIsFollowed(code: CodeImage, a: Address, t: Address)
    requires code.Valid()
    ensures t in Next(code, a) <==> LeadsTo(code, a, t) && code.Usable(t)
  {
    hide CodeImage.Valid, CodeImage.Insn, FindRegion;
    if code.Insn(a).Some? {
      InsnShape(code, a);
    }
  }

  /** The addresses recursive descent should decode, from a set of seeds. */
  ghost function Closure(code: CodeImage, seeds: set<Address>): set<Address> {
    ReachableSet(DiscoveryGraph(code), Sown(code, seeds))
  }

  lemma TraverseIsClosure(code: CodeImage, cap: nat, seeds: seq<Address>)
    ensures var o, closure := Traverse(code, cap, seeds), Closure(code, Elements(seeds));
      && o.visited <= closure
      && |o.visited| <= cap
      && (o.visited == closure <==> |closure| <= cap)
      && (!o.truncated || |o.visited| < cap ==> o.visited == closure)
  {
    var g, roots := DiscoveryGraph(code), UsableSeeds(code, seeds);
    UsableSeedsAre(code, seeds);
    assert Elements(roots) == Sown(code, Elements(seeds));
    StartInv(g, roots);
    hide DiscoveryGraph, UsableSeeds;
    DrainIsReachable(g, Elements(roots), cap, Start(roots));
  }

  /**
   Discovery decodes part of the closure of the usable seeds, never more than the cap, and all of it if
   and only if the closure is no larger than the cap, as it is whenever fewer instructions came back.
   */
  lemma DiscoveryIsClosure(code: CodeImage, cap: nat, seeds: seq<Address>, r: RecursiveResult)
    requires IsDiscovery(code, cap, seeds, r)
    ensures r.instructionSizes.Keys <= Closure(code, Elements(seeds))
    ensures |r.instructionSizes| <= cap
    ensures r.instructionSizes.Keys == Closure(code, Elements(seeds)) <==> |Closure(code, Elements(seeds))| <= cap
    ensures |r.instructionSizes| < cap ==> r.instructionSizes.Keys == Closure(code, Elements(seeds))
  {
    hide Traverse, Closure, IsStart;
    TraverseIsClosure(code, cap, seeds);
    assert |r.instructionSizes| == |r.instructionSizes.Keys|;
  }

  lemma DecodedByRun(code: CodeImage, cap: nat, seeds: seq<Address>, a: Address)
    requires a in Traverse(code, cap, seeds).visited
    ensures ReachableWithin(DiscoveryGraph(code), Elements(UsableSeeds(code, seeds)),
                            Traverse(code, cap, seeds).visited, a)
  {
    hide DiscoveryGraph, UsableSeeds, ReachableWithin;
    var g, roots := DiscoveryGraph(code), UsableSeeds(code, seeds);
    StartInv(g, roots);
    DrainIsReachable(g, Elements(roots), cap, Start(roots));
  }

  /** Even a capped traversal only decodes seeds and what decoded instructions lead to. */
  lemma DecodedIsLedTo(code: CodeImage, cap: nat, seeds: seq<Address>, a: Address)
    requires code.Valid() && a in Traverse(code, cap, seeds).visited
    ensures a in seeds || exists b: Address :: b in Traverse(code, cap, seeds).visited && LeadsTo(code, b, a)
  {
    hide Traverse, UsableSeeds, CodeImage.Insn, CodeImage.Valid, Next, LeadsTo, FindRegion;
    var g, roots := DiscoveryGraph(code), UsableSeeds(code, seeds);
    UsableSeedsAre(code, seeds);
    DecodedByRun(code, cap, seeds, a);
    var visited := Traverse(code, cap, seeds).visited;
    var path: seq<Address> :|
      IsRun(g, Elements(roots), path) && path[|path| - 1] == a && Elements(path) <= visited;
    if |path| > 1 {
      var b := path[|path| - 2];
      assert b in Elements(path);
      LeadIsFollowed(code, b, a);
    }
  }

  /**
   What discovery reports: it decodes part of the least set that holds the seeds and is closed under control
   flow and calls, all of it if and only if that fits the cap; it decodes nothing else, capped or not; and
   its starts are the seeds in code and the in-code targets of the direct calls it decoded.
   */
  lemma DiscoveryIsDescent(code: CodeImage, cap: nat, seeds: seq<Address>, r: RecursiveResult, closure: set<Address>)
    requires code.Valid() && IsDiscovery(code, cap, seeds, r)
    requires IsDescentClosure(code, Elements(seeds), closure)
    ensures r.instructionSizes.Keys <= closure && |r.instructionSizes| <= cap
    ensures r.instructionSizes.Keys == closure <==> |closure| <= cap
    ensures forall a :: a in r.instructionSizes ==>
      r.instructionSizes[a] == 4 && (a in seeds || exists b :: b in r.instructionSizes && LeadsTo(code, b, a))
    ensures forall t :: t in r.functionStarts <==>
      InSomeRegion(code.regions, t) && (t in seeds || exists a :: a in r.instructionSizes && Calls(code, a, t))
  {
    hide Traverse, IsDescentClosed, Closure, LeadsTo, CodeImage.Valid, CodeImage.Insn, CallsInto, Calls, FindRegion;
    DiscoveryIsClosure(code, cap, seeds, r);
    ClosureIsDescent(code, Elements(seeds));
    assert closure <= Closure(code, Elements(seeds)) <= closure;
    assert closure == Closure(code, Elements(seeds));
    forall a | a in r.instructionSizes
      ensures a in seeds || exists b :: b in r.instructionSizes && LeadsTo(code, b, a)
    {
      DecodedIsLedTo(code, cap, seeds, a);
    }
    forall t ensures t in r.functionStarts <==>
      InSomeRegion(code.regions, t) && (t in seeds || exists a :: a in r.instructionSizes && Calls(code, a, t))
    {
      UsableIs(code, t);
      forall a: Address ensures CallsInto(code, a, t) <==> Calls(code, a, t) && code.Contains(t) {
        CallsAre(code, a, t);
      }
    }
  }

  lemma CallsAre(code: CodeImage, a: Address, t: Address)
    ensures CallsInto(code, a, t) <==> Calls(code, a, t) && code.Contains(t)
  {
    hide CodeImage.Insn, FindRegion;
  }

  lemma StartsAgree(code: CodeImage, seeds: seq<Address>, others: seq<Address>, decoded: set<Address>, t: Address)
    requires Elements(seeds) == Elements(others)
    ensures IsStart(code, seeds, decoded, t) <==> IsStart(code, others, decoded, t)
  {
    hide FindRegion, CallsInto;
    assert t in seeds <==> t in Elements(seeds);
    assert t in others <==> t in Elements(others);
  }

  /** Unless the closure outgrows the cap, discovery from the same set of seeds, however ordered or
      repeated, finds the same things. */
  lemma DiscoveryIgnoresSeedOrder(code: CodeImage, cap: nat, seeds: seq<Address>, others: seq<Address>,
                                  r: RecursiveResult, q: RecursiveResult)
    requires IsDiscovery(code, cap, seeds, r) && IsDiscovery(code, cap, others, q)
    requires Elements(seeds) == Elements(others)
    requires |Closure(code, Elements(seeds))| <= cap
    ensures r == q
  {
    hide Traverse, Closure, IsStart, Elements;
    DiscoveryIsClosure(code, cap, seeds, r);
    DiscoveryIsClosure(code, cap, others, q);
    assert r.instructionSizes == q.instructionSizes;
    forall t ensures t in r.functionStarts <==> t in q.functionStarts {
      StartsAgree(code, seeds, others, r.instructionSizes.Keys, t);
    }
  }

  class RecursiveDisassembler {
    const codeMap: CodeMap
    const decode: Decoder
    const maxInstructions: nat

    constructor (codeMap: CodeMap, decode: Decoder, maxInstructions: nat)
      ensures this.codeMap == codeMap && this.decode == decode && this.maxInstructions == maxInstructions
    {
      this.codeMap := codeMap;
      this.decode := decode;
      this.maxInstructions := maxInstructions;
    }

    ghost function Image(): CodeImage { CodeImage(codeMap.regions, decode) }

    /** Push an aligned in-code address that has not been scheduled before. */
    method Schedule(a: Address, ghost visited: set<Address>, scheduled: set<Address>, worklist: seq<Address>)
      returns (e: set<Address>, w: seq<Address>)
      requires codeMap.Valid()
      ensures State(visited, e, w) == ScheduleAll(State(visited, scheduled, worklist), Offer(Image(), a))
    {
      if !Aligned(a) {
        return scheduled, worklist;
      }
      var contained := codeMap.Contains(a);
      if !contained || a in scheduled {
        return scheduled, worklist;
      }
      return scheduled + {a}, worklist + [a];
    }

    /** Schedule wherever a decoded instruction leads, calls included. */
    method ScheduleSuccessors(insn: Instruction, ghost visited: set<Address>, scheduled: set<Address>,
                              worklist: seq<Address>)
      returns (e: set<Address>, w: seq<Address>)
      requires codeMap.Valid() && insn.EndAddress() < WORD_MODULUS
      ensures State(visited, e, w) == ScheduleAll(State(visited, scheduled, worklist), Follow(Image(), insn))
    {
      hide Offer;
      e, w := scheduled, worklist;
      var fallThrough: Address := insn.EndAddress();
      match insn.flow {
        case DirectCall =>
          if insn.hasTarget {
            e, w := Schedule(insn.target, visited, e, w);
          }
          e, w := Schedule(fallThrough, visited, e, w);
        case IndirectCall =>
          e, w := Schedule(fallThrough, visited, e, w);
        case ConditionalBranch =>
          if insn.hasTarget {
            e, w := Schedule(insn.target, visited, e, w);
          }
          e, w := Schedule(fallThrough, visited, e, w);
        case UnconditionalBranch =>
          if insn.hasTarget {
            e, w := Schedule(insn.target, visited, e, w);
          }
        case IndirectBranch =>
        case Return =>
        case Sequential =>
          e, w := Schedule(fallThrough, visited, e, w);
      }
      ScheduleAllAppend(State(visited, scheduled, worklist),
                        if insn.hasTarget then Offer(Image(), insn.target) else [],
                        Offer(Image(), fallThrough));
    }

    /** Take every in-code seed as a function start and schedule the usable ones. */
    method Sow(seeds: seq<Address>) returns (starts: set<Address>, scheduled: set<Address>, worklist: seq<Address>)
      requires codeMap.Valid()
      ensures forall t :: t in starts <==> t in seeds && Image().Contains(t)
      ensures State({}, scheduled, worklist) == Start(UsableSeeds(Image(), seeds))
    {
      hide FindRegion, Offer;
      starts, scheduled, worklist := {}, {}, [];
      for i := 0 to |seeds|
        invariant forall t :: t in starts <==> t in seeds[..i] && Image().Contains(t)
        invariant State({}, scheduled, worklist) == Start(UsableSeeds(Image(), seeds[..i]))
      {
        var seed := seeds[i];
        assert seeds[..i + 1][..i] == seeds[..i];
        var contained := codeMap.Contains(seed);
        if contained {
          starts := starts + {seed};
        }
        scheduled, worklist := Schedule(seed, {}, scheduled, worklist);
        ScheduleAllAppend(State({}, {}, []), UsableSeeds(Image(), seeds[..i]), Offer(Image(), seed));
      }
      assert seeds[..|seeds|] == seeds;
    }

    /** Decode the word at an aligned in-code address. */
    method DecodeAt(a: Address) returns (found: Option<Instruction>)
      requires codeMap.Valid() && IsDecoder(decode) && Aligned(a)
      ensures found == Image().Insn(a)
    {
      hide FindRegion;
      var bytes := codeMap.At(a);
      return if bytes.None? then None else decode(bytes.value, a);
    }

    method Discover(seeds: seq<Address>) returns (result: RecursiveResult)
      requires codeMap.Valid() && IsDecoder(decode)
      ensures IsDiscovery(Image(), maxInstructions, seeds, result)
    {
      hide Searching, AfterPop, Drain, Start, Due, DiscoveryGraph, UsableSeeds, CodeImage.Insn, AllAddresses;
      hide ScheduleAll, Follow, Next, FindRegion, IsStart, BytesAt, IsDecoder, ValidRegions;
      ghost var code := Image();
      ghost var g, roots := DiscoveryGraph(code), UsableSeeds(code, seeds);
      var starts, scheduled, worklist := Sow(seeds);
      var sizes: map<Address, Address> := map[];
      assert sizes.Keys == {};
      SearchStarts(g, roots, maxInstructions);
      StartsFromSeeds(code, seeds);
      while worklist != []
        invariant Searching(g, roots, maxInstructions, State(sizes.Keys, scheduled, worklist))
        invariant forall a :: a in sizes ==> sizes[a] == INSTRUCTION_SIZE
        invariant forall t :: t in starts <==> IsStart(code, seeds, sizes.Keys, t)
        decreases AllAddresses() - scheduled, |worklist|
      {
        if |sizes| >= maxInstructions {
          break;
        }
        ghost var s := State(sizes.Keys, scheduled, worklist);
        SearchStep(g, roots, maxInstructions, s);
        var a := worklist[|worklist| - 1];
        DueIsUsable(code, seeds, sizes.Keys, a);
        GraphMeaning(code, a);
        worklist := worklist[..|worklist| - 1];
        var found := DecodeAt(a);
        if found.None? {
          PopRejects(g, s);
          continue;
        }
        PopAccepts(g, s);
        var insn := found.value;
        DecodedShape(code, a);
        ghost var decoded := sizes.Keys;
        sizes := sizes[a := insn.size];
        assert sizes.Keys == decoded + {a};
        if insn.flow.DirectCall? && insn.hasTarget {
          var contained := codeMap.Contains(insn.target);
          if contained {
            starts := starts + {insn.target};
          }
        }
        StartsGrow(code, seeds, decoded, a);
        scheduled, worklist := ScheduleSuccessors(insn, sizes.Keys, scheduled, worklist);
      }
      SearchEnds(g, roots, maxInstructions, State(sizes.Keys, scheduled, worklist));
      result := RecursiveResult(starts, sizes);
    }
  }

  // ------------------------------------------------------------------ the loop's invariant

  lemma GraphMeaning(code: CodeImage, a: Address)
    ensures DiscoveryGraph(code).accepts(a) <==> code.Insn(a).Some?
    ensures DiscoveryGraph(code).next(a) == Next(code, a)
  {
    hide CodeImage.Insn, Next;
  }

  /** Only aligned code is ever scheduled. */
  lemma DueIsUsable(code: CodeImage, seeds: seq<Address>, visited: set<Address>, a: Address)
    requires Due(DiscoveryGraph(code), Elements(UsableSeeds(code, seeds)), visited, a)
    ensures code.Usable(a)
  {
    hide FindRegion, UsableSeeds;
    var g := DiscoveryGraph(code);
    UsableSeedsAre(code, seeds);
    if a !in UsableSeeds(code, seeds) {
      var b :| b in visited && a in g.next(b);
      FollowedIsUsable(code, b, a);
    }
  }

  lemma FollowedIsUsable(code: CodeImage, b: Address, a: Address)
    requires a in Next(code, b)
    ensures code.Usable(a)
  {
    hide FindRegion, CodeImage.Insn;
  }

  lemma DecodedShape(code: CodeImage, a: Address)
    requires code.Valid() && code.Insn(a).Some?
    ensures var insn := code.Insn(a).value;
      && insn.size == INSTRUCTION_SIZE && insn.EndAddress() == a + INSTRUCTION_SIZE < WORD_MODULUS
      && Next(code, a) == Follow(code, insn)
  {
    InsnShape(code, a);
    hide FindRegion, Follow, CodeImage.Insn;
  }

  lemma StartsFromSeeds(code: CodeImage, seeds: seq<Address>)
    ensures forall t :: IsStart(code, seeds, {}, t) <==> t in seeds && code.Contains(t)
  {
    hide FindRegion, CallsInto;
  }

  lemma StartsGrow(code: CodeImage, seeds: seq<Address>, decoded: set<Address>, a: Address)
    requires code.Insn(a).Some?
    ensures forall t :: IsStart(code, seeds, decoded + {a}, t) <==>
                        IsStart(code, seeds, decoded, t) || CallsInto(code, a, t)
  {
    hide FindRegion, CodeImage.Insn;
    forall t ensures IsStart(code, seeds, decoded + {a}, t) <==>
                     IsStart(code, seeds, decoded, t) || CallsInto(code, a, t)
    {
      if CallsInto(code, a, t) {
        assert a in decoded + {a};
      }
      if b: Address :| b in decoded && CallsInto(code, b, t) {
        assert b in decoded + {a};
      }
    }
  }
}
