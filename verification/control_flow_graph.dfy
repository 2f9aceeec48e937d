/**
 The control-flow graph of one function: which instructions it covers, where it ends, and how the
 covered instructions fall into basic blocks.
 */
module ControlFlowGraphs {
  import opened Types
  import opened Code
  import opened Worklist

  datatype Request = Request(
    entry: Address,
    upperBound: Address,
    boundaries: set<Address>,
    maxInstructions: nat,
    linearPastIndirectBranch: bool,
    buildBasicBlocks: bool)

  datatype EdgeKind = FallThrough | BranchTaken | CallReturn

  datatype SuccessorEdge = SuccessorEdge(target: Address, kind: EdgeKind)

  datatype BasicBlock = BasicBlock(start: Address, end: Address, terminatorFlow: FlowType,
                                   successors: seq<SuccessorEdge>)
  {
    predicate Contains(a: Address) { start <= a < end }
  }

  datatype ControlFlowGraph = ControlFlowGraph(
    entry: Address,
    blocks: map<Address, BasicBlock>,
    covered: set<Address>,
    extentEnd: Address,
    truncated: bool,
    reachesReturn: bool)

  // ------------------------------------------------------------------ which addresses are explored

  /** Control may be followed to `t`: aligned executable code between the entry and the bound, and not
      another function's entry. */
  predicate Schedulable(code: CodeImage, req: Request, t: int) {
    req.entry <= t < req.upperBound && code.Usable(t) && t !in req.boundaries
  }

  /** A scheduled address is kept when a whole, non-zero, decodable word fits below the bound. */
  predicate Coverable(code: CodeImage, req: Request, a: Address) {
    && !IsHardStopWord(code.regions, a)
    && code.Insn(a).Some?
    && a + code.Insn(a).value.size <= req.upperBound
  }

  function Offer(code: CodeImage, req: Request, t: int): seq<Address> {
    if Schedulable(code, req, t) then [t] else []
  }

  /** What a kept instruction schedules, in order. */
  function Scheduled(code: CodeImage, req: Request, insn: Instruction): seq<Address> {
    var fallThrough := Offer(code, req, insn.EndAddress());
    var taken := if insn.hasTarget then Offer(code, req, insn.target) else [];
    match insn.flow
    case Sequential => fallThrough
    case DirectCall => fallThrough
    case IndirectCall => fallThrough
    case ConditionalBranch => taken + fallThrough
    case UnconditionalBranch => taken
    case IndirectBranch => if req.linearPastIndirectBranch then fallThrough else []
    case Return => []
  }

  function Next(code: CodeImage, req: Request, a: Address): seq<Address> {
    var insn := code.Insn(a);
    if insn.Some? then Scheduled(code, req, insn.value) else []
  }

  function CfgGraph(code: CodeImage, req: Request): Graph {
    Graph((a: Address) => Coverable(code, req, a), (a: Address) => Next(code, req, a))
  }

  function Roots(code: CodeImage, req: Request): seq<Address> {
    if code.Usable(req.entry) && req.entry < req.upperBound then [req.entry] else []
  }

  /** The addresses a build covers and whether the instruction cap cut it short. */
  function Explore(code: CodeImage, req: Request): Outcome {
    Drain(CfgGraph(code, req), req.maxInstructions, Start(Roots(code, req)))
  }

  // ------------------------------------------------------------------ what is read off the covered set

  /** The end of the last covered instruction, or the entry when nothing is covered. */
  ghost predicate IsExtentEnd(entry: Address, covered: set<Address>, end: Address) {
    && entry <= end
    && (forall a :: a in covered ==> a + INSTRUCTION_SIZE <= end)
    && (end == entry || exists a :: a in covered && a + INSTRUCTION_SIZE == end)
  }

  ghost predicate ReachesReturn(code: CodeImage, covered: set<Address>) {
    exists a :: a in covered && code.Insn(a).Some? && code.Insn(a).value.flow.Return?
  }

  ghost function CallTargets(code: CodeImage, covered: set<Address>): set<Address> {
    set a | a in covered && IsDirectCall(code, a) :: code.Insn(a).value.target
  }

  predicate IsDirectCall(code: CodeImage, a: Address) {
    var insn := code.Insn(a);
    insn.Some? && insn.value.flow.DirectCall? && insn.value.hasTarget
  }

  lemma ExtentEndIsUnique(entry: Address, covered: set<Address>, e: Address, f: Address)
    requires IsExtentEnd(entry, covered, e) && IsExtentEnd(entry, covered, f)
    ensures e == f
  {
  }

  lemma {:induction false} ExtentEndExists(entry: Address, bound: Address, covered: set<Address>)
    requires forall a :: a in covered ==> a + INSTRUCTION_SIZE <= bound
    ensures exists end: Address :: IsExtentEnd(entry, covered, end)
    decreases |covered|
  {
    if covered == {} {
      assert IsExtentEnd(entry, covered, entry);
    } else {
      var a :| a in covered;
      ExtentEndExists(entry, bound, covered - {a});
      var end: Address :| IsExtentEnd(entry, covered - {a}, end);
      var reach: Address := a + INSTRUCTION_SIZE;
      assert forall b :: b in covered ==> b == a || b in covered - {a};
      if reach <= end {
        assert IsExtentEnd(entry, covered, end);
      } else {
        assert IsExtentEnd(entry, covered, reach);
      }
    }
  }

  // ------------------------------------------------------------------ what a build covers

  lemma RootsInv(code: CodeImage, req: Request)
    ensures Inv(CfgGraph(code, req), Elements(Roots(code, req)), Start(Roots(code, req)))
    ensures Start(Roots(code, req)).visited == {}
  {
    StartInv(CfgGraph(code, req), Roots(code, req));
  }

  /**
   A build covers only addresses reachable from the entry through scheduled, coverable instructions,
   each by a run inside what it covers, and all of them if and only if there are no more than the cap.
   */
  lemma ExploreIsReachable(code: CodeImage, req: Request)
    ensures var o := Explore(code, req);
      var g, roots := CfgGraph(code, req), Elements(Roots(code, req));
      && o.visited <= ReachableSet(g, roots)
      && |o.visited| <= req.maxInstructions
      && (!o.truncated ==> o.visited == ReachableSet(g, roots))
      && (o.truncated ==> |o.visited| == req.maxInstructions)
      && (o.visited == ReachableSet(g, roots) <==> |ReachableSet(g, roots)| <= req.maxInstructions)
      && (|ReachableSet(g, roots)| < req.maxInstructions ==> !o.truncated)
      && (|ReachableSet(g, roots)| > req.maxInstructions ==> o.truncated)
      && (forall a :: a in o.visited ==> ReachableWithin(g, roots, o.visited, a))
  {
    RootsInv(code, req);
    hide CfgGraph, Roots, Start, Drain;
    DrainIsReachable(CfgGraph(code, req), Elements(Roots(code, req)), req.maxInstructions, Start(Roots(code, req)));
  }

  /** What a build may cover at all, whether or not control gets there. */
  ghost predicate MayCover(code: CodeImage, req: Request, t: Address) {
    && req.entry <= t && t + 4 <= req.upperBound
    && code.Insn(t).Some? && !HasWord(code.regions, t, [0, 0, 0, 0])
  }

  /** Control goes on from `a` to `t`, or is taken to past an indirect branch. */
  ghost predicate GoesOnTo(code: CodeImage, req: Request, a: Address, t: Address) {
    code.Insn(a).Some? &&
    var insn := code.Insn(a).value;
    || FlowsTo(insn, t)
    || (req.linearPastIndirectBranch && insn.flow.IndirectBranch? && t == a + 4)
  }

  /** The entry if it may be covered, and whatever may be covered that control goes on to, unless another
      function starts there. */
  ghost predicate IsFlowClosed(code: CodeImage, req: Request, s: set<Address>) {
    && (MayCover(code, req, req.entry) ==> req.entry in s)
    && (forall a, t: Address ::
          a in s && GoesOnTo(code, req, a, t) && t !in req.boundaries && MayCover(code, req, t) ==> t in s)
  }

  /** The least such set. */
  ghost predicate IsFlowClosure(code: CodeImage, req: Request, s: set<Address>) {
    IsFlowClosed(code, req, s) && forall r :: IsFlowClosed(code, req, r) ==> s <= r
  }

  /**
   A build covers part of the least set closed under control flow from its entry, and all of it if and only
   if that set is no larger than the cap.
   */
  lemma CoveredIsFlowClosure(code: CodeImage, req: Request, closure: set<Address>)
    requires code.Valid() && IsFlowClosure(code, req, closure)
    ensures Explore(code, req).visited <= closure
    ensures Explore(code, req).visited == closure <==> |closure| <= req.maxInstructions
    ensures !Explore(code, req).truncated ==> Explore(code, req).visited == closure
  {
    hide IsFlowClosed, Explore, ReachableSet, CfgGraph, Roots, CodeImage.Valid;
    ExploreIsReachable(code, req);
    ReachableIsFlowClosure(code, req);
    var reach := ReachableSet(CfgGraph(code, req), Elements(Roots(code, req)));
    assert closure <= reach && reach <= closure;
    assert closure == reach;
  }

  /** There always is such a set. */
  lemma ReachableIsFlowClosure(code: CodeImage, req: Request)
    requires code.Valid()
    ensures IsFlowClosure(code, req, ReachableSet(CfgGraph(code, req), Elements(Roots(code, req))))
  {
    var g, roots := CfgGraph(code, req), Elements(Roots(code, req));
    ReachableIsClosed(g, roots);
    ClosedIsFlowClosed(code, req, ReachableSet(g, roots));
    forall s | IsFlowClosed(code, req, s) ensures ReachableSet(g, roots) <= s {
      FlowClosedIsClosed(code, req, s);
      ReachableIsLeast(g, roots, s);
    }
  }

  lemma ClosedIsFlowClosed(code: CodeImage, req: Request, s: set<Address>)
    requires code.Valid() && Closed(CfgGraph(code, req), Elements(Roots(code, req)), s)
    ensures IsFlowClosed(code, req, s)
  {
    hide CodeImage.Insn, Coverable, GoesOnTo, MayCover, Next, CodeImage.Valid;
    if MayCover(code, req, req.entry) {
      MayCoverIs(code, req, req.entry);
      assert req.entry in Roots(code, req) by { EntryIsSowed(code, req); }
    }
    forall a, t: Address | a in s && GoesOnTo(code, req, a, t) && t !in req.boundaries && MayCover(code, req, t)
      ensures t in s
    {
      MayCoverIs(code, req, t);
      FlowIsScheduled(code, req, a, t);
    }
  }

  lemma FlowClosedIsClosed(code: CodeImage, req: Request, s: set<Address>)
    requires code.Valid() && IsFlowClosed(code, req, s)
    ensures Closed(CfgGraph(code, req), Elements(Roots(code, req)), s)
  {
    hide CodeImage.Insn, Coverable, GoesOnTo, MayCover, Next, CodeImage.Valid;
    forall a | a in Roots(code, req) && Coverable(code, req, a) ensures a in s {
      MayCoverIs(code, req, a);
    }
    forall a, b | a in s && b in Next(code, req, a) && Coverable(code, req, b) ensures b in s {
      FlowIsScheduled(code, req, a, b);
      MayCoverIs(code, req, b);
    }
  }

  lemma EntryIsSowed(code: CodeImage, req: Request)
    requires code.Valid() && MayCover(code, req, req.entry)
    ensures req.entry in Roots(code, req)
  {
    InsnShape(code, req.entry);
    hide CodeImage.Insn, HasWord;
  }

  lemma MayCoverIs(code: CodeImage, req: Request, t: Address)
    requires code.Valid()
    ensures MayCover(code, req, t) <==> req.entry <= t && Coverable(code, req, t)
    ensures MayCover(code, req, t) ==> code.Usable(t) && t < req.upperBound
  {
    StopsArePadding(code.regions, t);
    InsnIsDecode(code, t);
    if code.Insn(t).Some? {
      InsnShape(code, t);
    }
    hide CodeImage.Insn, HasWord, HasSomeWord, IsHardStopWord;
  }

  lemma FlowIsScheduled(code: CodeImage, req: Request, a: Address, t: Address)
    requires code.Valid()
    ensures t in Next(code, req, a) <==> GoesOnTo(code, req, a, t) && Schedulable(code, req, t)
  {
    hide CodeImage.Insn, Schedulable, CodeImage.Valid;
    if code.Insn(a).Some? {
      InsnShape(code, a);
    }
  }

  /** Truncation can only make the extent end earlier. */
  lemma TruncatedExtentIsLowerBound(code: CodeImage, req: Request, end: Address, full: Address)
    requires IsExtentEnd(req.entry, Explore(code, req).visited, end)
    requires IsExtentEnd(req.entry, ReachableSet(CfgGraph(code, req), Elements(Roots(code, req))), full)
    ensures end <= full
    ensures !Explore(code, req).truncated ==> end == full
    ensures |ReachableSet(CfgGraph(code, req), Elements(Roots(code, req)))| <= req.maxInstructions ==> end == full
  {
    ExploreIsReachable(code, req);
    hide Explore;
  }

  /** Every covered address is a decodable aligned word between the entry and the bound. */
  lemma CoveredShape(code: CodeImage, req: Request, a: Address)
    requires code.Valid() && a in Explore(code, req).visited
    ensures req.entry <= a && a + INSTRUCTION_SIZE <= req.upperBound
    ensures code.Usable(a) && code.Insn(a).Some? && !IsHardStopWord(code.regions, a)
    ensures a == req.entry || a !in req.boundaries
  {
    ExploreIsReachable(code, req);
    hide Explore;
    assert Reachable(CfgGraph(code, req), Elements(Roots(code, req)), a);
    ReachableShape(code, req, a);
  }

  lemma ReachableShape(code: CodeImage, req: Request, a: Address)
    requires code.Valid() && Reachable(CfgGraph(code, req), Elements(Roots(code, req)), a)
    ensures req.entry <= a && a + INSTRUCTION_SIZE <= req.upperBound
    ensures code.Usable(a) && code.Insn(a).Some? && !IsHardStopWord(code.regions, a)
    ensures a == req.entry || a !in req.boundaries
  {
    var g, roots := CfgGraph(code, req), Elements(Roots(code, req));
    var path :| IsRun(g, roots, path) && path[|path| - 1] == a;
    assert g.accepts(a);
    if |path| == 1 {
      assert a in Roots(code, req);
    } else {
      assert a in g.next(path[|path| - 2]);
      ScheduledIsSchedulable(code, req, path[|path| - 2], a);
    }
    InsnShape(code, a);
  }

  lemma ScheduledIsSchedulable(code: CodeImage, req: Request, b: Address, a: Address)
    requires a in Next(code, req, b)
    ensures Schedulable(code, req, a)
  {
    hide Schedulable, CodeImage.Insn;
  }

  /** A build that covers anything covers its entry. */
  lemma EntryIsCovered(code: CodeImage, req: Request)
    ensures Explore(code, req).visited != {} ==> req.entry in Explore(code, req).visited
  {
    var g, roots := CfgGraph(code, req), Elements(Roots(code, req));
    var s := Start(Roots(code, req));
    if Roots(code, req) != [] && req.maxInstructions != 0 {
      RootsInv(code, req);
      assert s.work == [req.entry];
      DrainStep(g, req.maxInstructions, s);
      VisitInv(g, roots, s, 0);
      var s' := VisitAt(g, s, 0);
      DrainIsReachable(g, roots, req.maxInstructions, s');
      if !g.accepts(req.entry) {
        assert s'.work == [];
      }
    }
  }
}
