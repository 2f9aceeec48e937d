/** The control-flow graph builder: a worklist over instructions, then basic-block formation. */
module CfgBuilders {
  import opened Types
  import opened Code
  import opened Sorting
  import opened Worklist
  import opened ControlFlowGraphs
  import opened BasicBlocks
  import opened InstructionCaches

  /** What a build must return for a request. */
  ghost predicate IsCfgOf(code: CodeImage, req: Request, cfg: ControlFlowGraph) {
    var o := Explore(code, req);
    && cfg.entry == req.entry
    && cfg.covered == o.visited
    && cfg.truncated == o.truncated
    && IsExtentEnd(req.entry, o.visited, cfg.extentEnd)
    && (cfg.reachesReturn <==> ReachesReturn(code, o.visited))
    && if req.buildBasicBlocks then IsBlockGraph(ListingOf(code, o.visited), req.entry, cfg.blocks)
       else cfg.blocks == map[]
  }

  /**
   A build covers part of the least set closed under control flow from its entry, all of it unless that
   exceeds the cap, and is truncated if it does and never below the cap.
   */
  lemma BuildIsFaithful(code: CodeImage, req: Request, cfg: ControlFlowGraph, closure: set<Address>)
    requires code.Valid() && IsCfgOf(code, req, cfg) && IsFlowClosure(code, req, closure)
    ensures cfg.entry == req.entry && cfg.covered <= closure
    ensures cfg.covered == closure <==> |closure| <= req.maxInstructions
    ensures cfg.truncated ==> |cfg.covered| == req.maxInstructions
    ensures |closure| > req.maxInstructions ==> cfg.truncated
  {
    hide Explore, IsFlowClosure, CodeImage.Valid, IsBlockGraph, IsExtentEnd, ReachesReturn, ListingOf;
    hide CfgGraph, Roots, ReachableSet, ReachableWithin;
    CoveredIsFlowClosure(code, req, closure);
    ExploreIsReachable(code, req);
    SubsetSize(cfg.covered, closure);
  }

  /**
   What is read off the covered instructions: the graph ends behind the last of them, or at the entry when
   there is none; it reaches a return if one of them is; and the targets collected are those of the direct
   calls among them.
   */
  lemma ReadingsAreOfCovered(code: CodeImage, req: Request, cfg: ControlFlowGraph)
    requires code.Valid() && IsCfgOf(code, req, cfg)
    ensures if cfg.covered == {} then cfg.extentEnd == req.entry
            else (exists a :: a in cfg.covered && a + 4 == cfg.extentEnd)
                 && forall a :: a in cfg.covered ==> a + 4 <= cfg.extentEnd
    ensures cfg.reachesReturn <==>
            exists a :: a in cfg.covered && code.Insn(a).Some? && code.Insn(a).value.flow == Return
    ensures forall t: Address ::
      t in CallTargets(code, cfg.covered) <==> exists a :: a in cfg.covered && Calls(code, a, t)
  {
    hide Explore, CodeImage.Insn, CodeImage.Valid, IsBlockGraph, ListingOf, Calls;
    CoveredStartsLater(code, req);
    forall t: Address
      ensures t in CallTargets(code, cfg.covered) <==> exists a :: a in cfg.covered && Calls(code, a, t)
    {
      CallTargetsAre(code, cfg.covered, t);
    }
  }

  lemma CallTargetsAre(code: CodeImage, covered: set<Address>, t: Address)
    ensures t in CallTargets(code, covered) <==> exists a :: a in covered && Calls(code, a, t)
  {
    hide CodeImage.Insn;
    if a :| a in covered && Calls(code, a, t) {
      assert IsDirectCall(code, a);
    }
  }

  lemma CoveredStartsLater(code: CodeImage, req: Request)
    requires code.Valid()
    ensures forall a :: a in Explore(code, req).visited ==> req.entry <= a
  {
    forall a | a in Explore(code, req).visited ensures req.entry <= a {
      CoveredShape(code, req, a);
    }
  }

  lemma GraphMeaning(code: CodeImage, req: Request, a: Address)
    ensures CfgGraph(code, req).accepts(a) <==> Coverable(code, req, a)
    ensures CfgGraph(code, req).next(a) == Next(code, req, a)
  {
    hide Coverable, Next;
  }

  lemma CoverableShape(code: CodeImage, req: Request, a: Address)
    requires code.Valid() && code.Insn(a).Some?
    ensures code.Insn(a).value.size == INSTRUCTION_SIZE
    ensures code.Insn(a).value.EndAddress() == a + INSTRUCTION_SIZE < WORD_MODULUS
    ensures Next(code, req, a) == Scheduled(code, req, code.Insn(a).value)
  {
    InsnShape(code, a);
    hide Scheduled, CodeImage.Insn;
  }

  /** Nothing before the entry is ever scheduled. */
  lemma DueFromEntry(code: CodeImage, req: Request, visited: set<Address>, a: Address)
    requires code.Valid()
    requires Due(CfgGraph(code, req), Elements(Roots(code, req)), visited, a)
    ensures req.entry <= a
  {
    var g := CfgGraph(code, req);
    if a !in Roots(code, req) {
      var b :| b in visited && a in g.next(b);
      ScheduledIsSchedulable(code, req, b, a);
    }
  }

  /** An optional output set: null, or a set that is added to. */
  ghost function Collected(out: Option<set<Address>>, targets: set<Address>): Option<set<Address>> {
    if out.None? then None else Some(out.value + targets)
  }

  lemma VisitExtendsExtent(entry: Address, visited: set<Address>, end: Address, a: Address, insnEnd: Address)
    requires IsExtentEnd(entry, visited, end) && entry <= a && insnEnd == a + INSTRUCTION_SIZE
    ensures IsExtentEnd(entry, visited + {a}, if end < insnEnd then insnEnd else end)
  {
    assert a in visited + {a};
  }

  lemma VisitExtendsReturns(code: CodeImage, visited: set<Address>, a: Address)
    requires code.Insn(a).Some?
    ensures ReachesReturn(code, visited + {a}) <==> ReachesReturn(code, visited) || code.Insn(a).value.flow.Return?
  {
    hide CodeImage.Insn;
    if code.Insn(a).value.flow.Return? {
      assert a in visited + {a};
    }
  }

  lemma VisitExtendsCalls(code: CodeImage, visited: set<Address>, a: Address, out: Option<set<Address>>)
    requires code.Insn(a).Some?
    ensures Collected(out, CallTargets(code, visited + {a})) ==
            if out.Some? && IsDirectCall(code, a)
            then Some(Collected(out, CallTargets(code, visited)).value + {code.Insn(a).value.target})
            else Collected(out, CallTargets(code, visited))
  {
    hide CodeImage.Insn;
    var after, before := CallTargets(code, visited + {a}), CallTargets(code, visited);
    if IsDirectCall(code, a) {
      assert a in visited + {a};
      assert code.Insn(a).value.target in after;
    }
    forall b | b in visited && IsDirectCall(code, b) ensures code.Insn(b).value.target in after {
      assert b in visited + {a};
    }
    var added := if IsDirectCall(code, a) then {code.Insn(a).value.target} else {};
    assert after == before + added;
    assert added == {} ==> after == before;
    assert out.Some? ==> out.value + after == out.value + before + added;
  }

  lemma ExploreIs(code: CodeImage, req: Request)
    ensures Explore(code, req) == Drain(CfgGraph(code, req), req.maxInstructions, Start(Roots(code, req)))
  {
  }

  lemma EntryIsRoot(code: CodeImage, req: Request)
    ensures Start(Roots(code, req)) ==
            if Aligned(req.entry) && req.entry < req.upperBound && code.Contains(req.entry)
            then State({}, {req.entry}, [req.entry]) else State({}, {}, [])
  {
  }

  /** What a build has read off the instructions visited so far. */
  ghost predicate Progress(code: CodeImage, req: Request, out: Option<set<Address>>, visited: set<Address>,
                           coveredEnd: Address, reachesReturn: bool, callTargets: Option<set<Address>>) {
    && IsExtentEnd(req.entry, visited, coveredEnd)
    && (reachesReturn <==> ReachesReturn(code, visited))
    && callTargets == Collected(out, CallTargets(code, visited))
  }

  lemma ProgressMeaning(code: CodeImage, req: Request, out: Option<set<Address>>, visited: set<Address>,
                        coveredEnd: Address, reachesReturn: bool, callTargets: Option<set<Address>>)
    requires Progress(code, req, out, visited, coveredEnd, reachesReturn, callTargets)
    ensures IsExtentEnd(req.entry, visited, coveredEnd)
    ensures reachesReturn <==> ReachesReturn(code, visited)
    ensures callTargets == if out.None? then None else Some(out.value + CallTargets(code, visited))
  {
  }

  lemma GraphIsComplete(code: CodeImage, req: Request, cfg: ControlFlowGraph)
    requires cfg.entry == req.entry
    requires Drain(CfgGraph(code, req), req.maxInstructions, Start(Roots(code, req))) ==
             Outcome(cfg.covered, cfg.truncated)
    requires IsExtentEnd(req.entry, cfg.covered, cfg.extentEnd)
    requires cfg.reachesReturn <==> ReachesReturn(code, cfg.covered)
    requires if req.buildBasicBlocks then IsBlockGraph(ListingOf(code, cfg.covered), req.entry, cfg.blocks)
             else cfg.blocks == map[]
    ensures IsCfgOf(code, req, cfg)
  {
    hide Drain, CfgGraph, Start, Roots, IsExtentEnd, ReachesReturn, IsBlockGraph, ListingOf;
  }

  lemma NoProgressYet(code: CodeImage, req: Request, out: Option<set<Address>>)
    ensures Progress(code, req, out, {}, req.entry, false, out)
  {
    assert CallTargets(code, {}) == {};
    assert out.Some? ==> out.value + {} == out.value;
  }

  lemma VisitProgress(code: CodeImage, req: Request, out: Option<set<Address>>, visited: set<Address>,
                      coveredEnd: Address, reachesReturn: bool, callTargets: Option<set<Address>>, a: Address)
    requires code.Valid() && code.Insn(a).Some? && req.entry <= a
    requires Progress(code, req, out, visited, coveredEnd, reachesReturn, callTargets)
    ensures var insn := code.Insn(a).value;
      && 0 <= insn.EndAddress() < WORD_MODULUS
      && Progress(code, req, out, visited + {a},
                  if coveredEnd < insn.EndAddress() then insn.EndAddress() else coveredEnd,
                  reachesReturn || insn.flow.Return?,
                  if insn.flow.DirectCall? && insn.hasTarget && callTargets.Some?
                  then Some(callTargets.value + {insn.target}) else callTargets)
  {
    CoverableShape(code, req, a);
    hide CodeImage.Insn, IsExtentEnd, ReachesReturn, CallTargets;
    VisitExtendsExtent(req.entry, visited, coveredEnd, a, code.Insn(a).value.EndAddress());
    VisitExtendsReturns(code, visited, a);
    VisitExtendsCalls(code, visited, a, out);
  }

  // ------------------------------------------------------------------ leaders

  /** A leader found among the instructions at the given addresses. */
  ghost predicate LeaderDueTo(insns: Listing, order: seq<Address>, a: Address) {
    exists b :: b in order && b in insns && MakesLeader(insns[b], a)
  }

  predicate MakesLeader(insn: Instruction, a: Address) {
    insn.IsBlockTerminator() && (a == insn.EndAddress() || (insn.IsBranch() && insn.hasTarget && a == insn.target))
  }

  lemma NoLeaderYet(insns: Listing, order: seq<Address>)
    ensures forall a: Address :: !LeaderDueTo(insns, order[..0], a)
  {
  }

  lemma ListingValue(code: CodeImage, covered: set<Address>, a: Address)
    requires a in covered
    ensures a in ListingOf(code, covered) <==> code.Insn(a).Some?
    ensures code.Insn(a).Some? ==> ListingOf(code, covered)[a] == code.Insn(a).value
  {
  }

  lemma LeaderDueToStep(insns: Listing, order: seq<Address>, i: nat, a: Address)
    requires i < |order| && order[i] in insns
    ensures LeaderDueTo(insns, order[..i + 1], a) <==>
            LeaderDueTo(insns, order[..i], a) || MakesLeader(insns[order[i]], a)
  {
    hide MakesLeader;
    assert order[..i + 1] == order[..i] + [order[i]];
    if MakesLeader(insns[order[i]], a) {
      assert order[i] in order[..i + 1];
    }
  }

  /** What does not decode makes no leaders. */
  lemma UndecodedMakesNoLeader(insns: Listing, order: seq<Address>, i: nat, a: Address)
    requires i < |order| && order[i] !in insns
    ensures LeaderDueTo(insns, order[..i + 1], a) <==> LeaderDueTo(insns, order[..i], a)
  {
    hide MakesLeader;
    assert order[..i + 1] == order[..i] + [order[i]];
  }

  lemma LeadersFound(insns: Listing, order: seq<Address>, a: Address)
    requires Shaped(insns) && forall b :: b in insns ==> b in order
    ensures LeaderDueTo(insns, order, a) <==> IsLeader(insns, a)
  {
    if IsLeader(insns, a) {
      if a - INSTRUCTION_SIZE in insns && insns[a - INSTRUCTION_SIZE].IsBlockTerminator() {
        assert MakesLeader(insns[a - INSTRUCTION_SIZE], a);
      } else {
        var b :| b in insns && BranchesTo(insns[b], a);
        assert MakesLeader(insns[b], a);
      }
    }
  }

  // ------------------------------------------------------------------ undecodable addresses

  function Kept(edges: seq<SuccessorEdge>, targets: set<Address>): seq<SuccessorEdge> {
    if edges == [] then []
    else (if edges[0].target in targets then [edges[0]] else []) + Kept(edges[1..], targets)
  }

  /** A block without its edges to addresses outside `targets`. */
  function Pruned(b: BasicBlock, targets: set<Address>): BasicBlock {
    b.(successors := Kept(b.successors, targets))
  }

  function AllPruned(blocks: map<Address, BasicBlock>, targets: set<Address>): map<Address, BasicBlock> {
    map k | k in blocks :: Pruned(blocks[k], targets)
  }

  lemma KeptSuccessors(insn: Instruction, covered: set<Address>, targets: set<Address>)
    requires targets <= covered
    ensures Kept(Successors(insn, covered), targets) == Successors(insn, targets)
  {
    var t, next := insn.target, insn.EndAddress();
    match insn.flow
    case Sequential => KeptEdges(next, FallThrough, covered, targets);
    case DirectCall => KeptEdges(next, CallReturn, covered, targets);
    case IndirectCall => KeptEdges(next, CallReturn, covered, targets);
    case ConditionalBranch =>
      KeptEdges(t, BranchTaken, covered, targets);
      KeptEdges(next, FallThrough, covered, targets);
      var taken := if insn.hasTarget then EdgesTo(covered, t, BranchTaken) else [];
      KeptAppend(taken, EdgesTo(covered, next, FallThrough), targets);
    case UnconditionalBranch => KeptEdges(t, BranchTaken, covered, targets);
    case IndirectBranch =>
    case Return =>
  }

  lemma KeptEdges(t: int, kind: EdgeKind, covered: set<Address>, targets: set<Address>)
    requires targets <= covered
    ensures Kept(EdgesTo(covered, t, kind), targets) == EdgesTo(targets, t, kind)
  {
  }

  lemma KeptAppend(a: seq<SuccessorEdge>, b: seq<SuccessorEdge>, targets: set<Address>)
    requires |a| <= 1
    ensures Kept(a + b, targets) == Kept(a, targets) + Kept(b, targets)
  {
    if a != [] {
      assert (a + b)[1..] == b;
      assert a[1..] == [];
    } else {
      assert a + b == b;
    }
  }

  /** Every block's edges are the covered flows of its last instruction. */
  ghost predicate EdgesFlow(insns: Listing, covered: set<Address>, blocks: map<Address, BasicBlock>) {
    forall k :: k in blocks ==>
      var last := blocks[k].end - INSTRUCTION_SIZE;
      last in insns && blocks[k].successors == Successors(insns[last], covered)
  }

  /**
   What splitting any covered set gives: a block graph of the covered addresses that decode, whose
   edges also name the covered addresses that do not.
   */
  ghost predicate IsSplitting(insns: Listing, covered: set<Address>, entry: Address, blocks: map<Address, BasicBlock>) {
    IsBlockGraph(insns, entry, AllPruned(blocks, insns.Keys)) && EdgesFlow(insns, covered, blocks)
  }

  lemma DecodedSplitting(insns: Listing, entry: Address, blocks: map<Address, BasicBlock>)
    requires IsSplitting(insns, insns.Keys, entry, blocks)
    ensures IsBlockGraph(insns, entry, blocks)
  {
    hide IsBlockGraph, Successors, Kept;
    forall k | k in blocks ensures Pruned(blocks[k], insns.Keys) == blocks[k] {
      KeptSuccessors(insns[blocks[k].end - INSTRUCTION_SIZE], insns.Keys, insns.Keys);
    }
    assert AllPruned(blocks, insns.Keys) == blocks;
  }

  lemma AddBlock(insns: Listing, covered: set<Address>, blocks: map<Address, BasicBlock>, k: Address,
                 b: BasicBlock, a: Address)
    requires EdgesFlow(insns, covered, blocks) && insns.Keys <= covered
    requires a in insns && b.end == a + INSTRUCTION_SIZE && b.successors == Successors(insns[a], covered)
    ensures EdgesFlow(insns, covered, blocks[k := b])
    ensures AllPruned(blocks[k := b], insns.Keys) == AllPruned(blocks, insns.Keys)[k := Pruned(b, insns.Keys)]
    ensures Pruned(b, insns.Keys).successors == Successors(insns[a], insns.Keys)
  {
    hide Successors, Kept;
    KeptSuccessors(insns[a], covered, insns.Keys);
  }

  /** The first `j` decoded addresses are those among the first `i` covered ones. */
  ghost predicate Decoded(insns: Listing, order: seq<Address>, i: nat, decoded: seq<Address>, j: nat) {
    && i <= |order| && j <= |decoded|
    && forall x :: x in decoded[..j] <==> x in order[..i] && x in insns
  }

  ghost predicate OrdersOf(insns: Listing, order: seq<Address>, decoded: seq<Address>) {
    && Increasing(order) && Increasing(decoded)
    && (forall x :: x in decoded <==> x in insns)
    && (forall x :: x in insns ==> x in order)
  }

  lemma DecodedStep(insns: Listing, order: seq<Address>, i: nat, decoded: seq<Address>, j: nat)
    requires OrdersOf(insns, order, decoded) && i < |order| && Decoded(insns, order, i, decoded, j)
    ensures if order[i] in insns
            then j < |decoded| && decoded[j] == order[i] && Decoded(insns, order, i + 1, decoded, j + 1)
            else Decoded(insns, order, i + 1, decoded, j)
  {
    var a := order[i];
    assert order[..i + 1] == order[..i] + [a];
    if a in insns {
      var n :| 0 <= n < |decoded| && decoded[n] == a;
      NotYet(insns, order, i, decoded, j, n);
      if j < n {
        EarlierIsDone(insns, order, i, decoded, j);
      }
      assert decoded[..j + 1] == decoded[..j] + [a];
    }
  }

  lemma NotYet(insns: Listing, order: seq<Address>, i: nat, decoded: seq<Address>, j: nat, n: nat)
    requires OrdersOf(insns, order, decoded) && i < |order| && Decoded(insns, order, i, decoded, j)
    requires n < |decoded| && decoded[n] == order[i]
    ensures j <= n
  {
    forall m | 0 <= m < j ensures decoded[m] < order[i] {
      assert decoded[m] in decoded[..j];
    }
  }

  lemma EarlierIsDone(insns: Listing, order: seq<Address>, i: nat, decoded: seq<Address>, j: nat)
    requires OrdersOf(insns, order, decoded) && i < |order| && Decoded(insns, order, i, decoded, j) && j < |decoded|
    ensures order[i] <= decoded[j]
  {
    assert decoded[j] in insns;
    NotBefore(decoded, j);
    var m :| 0 <= m < |order| && order[m] == decoded[j];
    forall n | 0 <= n < i ensures order[n] != order[m] {
      assert order[n] in order[..i];
    }
    assert m >= i;
  }

  lemma NotBefore(xs: seq<Address>, j: nat)
    requires Increasing(xs) && j < |xs|
    ensures xs[j] !in xs[..j]
  {
  }

  lemma AllDecoded(insns: Listing, order: seq<Address>, decoded: seq<Address>, j: nat)
    requires OrdersOf(insns, order, decoded) && Decoded(insns, order, |order|, decoded, j)
    ensures j == |decoded|
  {
    assert order[..|order|] == order;
    if j < |decoded| {
      NotBefore(decoded, j);
      assert false;
    }
  }

  lemma NothingDecoded(insns: Listing, order: seq<Address>, decoded: seq<Address>)
    ensures Decoded(insns, order, 0, decoded, 0)
  {
  }

  // ------------------------------------------------------------------ block formation

  /** The block after its last instruction has been set to the one at `a`. */
  ghost predicate IsExtendedTo(insns: Listing, b: BasicBlock, start: Address, a: Address) {
    && a in insns
    && b == BasicBlock(start, b.end, insns[a].flow, Successors(insns[a], insns.Keys))
    && b.end == a + INSTRUCTION_SIZE
  }

  lemma FreshRun(insns: Listing, entry: Address, b: BasicBlock, a: Address)
    requires Shaped(insns) && StartsBlock(insns, entry, a) && IsExtendedTo(insns, b, a, a)
    ensures IsRunOf(insns, entry, b)
  {
    hide StartsBlock, Successors;
    assert a in insns;
    forall x | x in insns && a <= x < b.end ensures x == a {
      if x != a {
        AlignedApart(a, x);
      }
    }
  }

  lemma LongerRun(insns: Listing, entry: Address, was: BasicBlock, b: BasicBlock, a: Address)
    requires Shaped(insns) && IsRunOf(insns, entry, was) && was.end == a
    requires a in insns && !StartsBlock(insns, entry, a) && IsExtendedTo(insns, b, was.start, a)
    ensures IsRunOf(insns, entry, b)
  {
    hide StartsBlock, Successors;
    forall x | x in insns && b.start <= x < b.end ensures x < was.end || x == a {
      if a < x {
        AlignedApart(a, x);
      }
    }
    forall x | x in insns && b.start <= x < a ensures GoesOn(insns, x) {
      if x < was.end - INSTRUCTION_SIZE {
        assert GoesOn(insns, x);
      }
    }
  }

  /** In ascending order, what precedes an instruction in memory is what precedes it in the listing. */
  lemma PrecedingWord(insns: Listing, order: seq<Address>, i: nat)
    requires Shaped(insns) && Increasing(order) && (forall a :: a in insns <==> a in order) && i < |order|
    ensures order[i] - INSTRUCTION_SIZE in insns <==> i > 0 && order[i - 1] + INSTRUCTION_SIZE == order[i]
    ensures i > 0 && order[i - 1] + INSTRUCTION_SIZE != order[i] ==> order[i - 1] + INSTRUCTION_SIZE !in insns
  {
    var a := order[i];
    if a - INSTRUCTION_SIZE in insns {
      var j :| 0 <= j < |order| && order[j] == a - INSTRUCTION_SIZE;
      if j < i - 1 {
        assert order[i - 1] in insns;
        AlignedApart(order[i - 1], a);
      }
    }
    if i > 0 && order[i - 1] + INSTRUCTION_SIZE in insns {
      var j :| 0 <= j < |order| && order[j] == order[i - 1] + INSTRUCTION_SIZE;
      if i < j {
        assert order[i] in insns && order[i - 1] in insns;
        AlignedApart(order[i - 1], order[i]);
      }
    }
    if i > 0 && order[i - 1] + INSTRUCTION_SIZE == a {
      assert order[i - 1] in insns;
    }
  }

  lemma NothingFollowsLast(insns: Listing, order: seq<Address>)
    requires Increasing(order) && (forall a :: a in insns <==> a in order) && order != []
    ensures order[|order| - 1] + INSTRUCTION_SIZE !in insns
  {
    if order[|order| - 1] + INSTRUCTION_SIZE in insns {
      var j :| 0 <= j < |order| && order[j] == order[|order| - 1] + INSTRUCTION_SIZE;
    }
  }

  /** Every block but the one still growing is finished. */
  ghost predicate FinishedBut(insns: Listing, entry: Address, blocks: map<Address, BasicBlock>,
                              current: Option<Address>) {
    forall k :: k in blocks ==>
      && blocks[k].start == k
      && IsRunOf(insns, entry, blocks[k])
      && (Some(k) == current || IsMaximal(insns, entry, blocks[k]))
  }

  /** Where block formation stands after the first `i` instructions. */
  ghost predicate Forming(insns: Listing, entry: Address, order: seq<Address>, i: nat,
                          blocks: map<Address, BasicBlock>, current: Option<Address>, previousEnd: Address) {
    && i <= |order|
    && (current.None? <==> i == 0)
    && (i > 0 ==>
          current.value in blocks && blocks[current.value].end == previousEnd == order[i - 1] + INSTRUCTION_SIZE)
    && FinishedBut(insns, entry, blocks, current)
    && (forall k :: k in blocks ==> i > 0 && k <= order[i - 1])
    && (forall j :: 0 <= j < i && StartsBlock(insns, entry, order[j]) ==> order[j] in blocks)
  }

  lemma NoStartHasPredecessor(insns: Listing, entry: Address, a: Address)
    requires a in insns && !StartsBlock(insns, entry, a)
    ensures a - INSTRUCTION_SIZE in insns
  {
  }

  lemma FinishedThenGrowing(insns: Listing, entry: Address, blocks: map<Address, BasicBlock>,
                            current: Option<Address>, b: BasicBlock)
    requires FinishedBut(insns, entry, blocks, current)
    requires current == Some(b.start)
             || (current.Some? && current.value in blocks ==> IsMaximal(insns, entry, blocks[current.value]))
    requires IsRunOf(insns, entry, b)
    ensures FinishedBut(insns, entry, blocks[b.start := b], Some(b.start))
  {
    hide IsRunOf, IsMaximal;
  }

  lemma FormNewBlock(insns: Listing, entry: Address, order: seq<Address>, i: nat,
                     blocks: map<Address, BasicBlock>, current: Option<Address>, previousEnd: Address, b: BasicBlock)
    requires Shaped(insns) && Increasing(order) && (forall a :: a in insns <==> a in order) && i < |order|
    requires Forming(insns, entry, order, i, blocks, current, previousEnd)
    requires StartsBlock(insns, entry, order[i])
    requires IsExtendedTo(insns, b, order[i], order[i])
    ensures Forming(insns, entry, order, i + 1, blocks[order[i] := b], Some(order[i]), order[i] + INSTRUCTION_SIZE)
  {
    hide StartsBlock, IsRunOf, Successors, Shaped;
    var a := order[i];
    PrecedingWord(insns, order, i);
    FreshRun(insns, entry, b, a);
    assert current.Some? ==> IsMaximal(insns, entry, blocks[current.value]);
    hide IsMaximal, FinishedBut;
    FinishedThenGrowing(insns, entry, blocks, current, b);
  }

  lemma FormSameBlock(insns: Listing, entry: Address, order: seq<Address>, i: nat,
                      blocks: map<Address, BasicBlock>, current: Option<Address>, previousEnd: Address, b: BasicBlock)
    requires Shaped(insns) && Increasing(order) && (forall a :: a in insns <==> a in order) && i < |order|
    requires Forming(insns, entry, order, i, blocks, current, previousEnd)
    requires !StartsBlock(insns, entry, order[i])
    requires IsExtendedTo(insns, b, current.GetOr(0), order[i])
    ensures current.Some? && previousEnd == order[i]
    ensures Forming(insns, entry, order, i + 1, blocks[current.value := b], current, order[i] + INSTRUCTION_SIZE)
  {
    hide StartsBlock, IsRunOf, IsMaximal, Successors, Shaped;
    var a := order[i];
    NoStartHasPredecessor(insns, entry, a);
    PrecedingWord(insns, order, i);
    var k := current.value;
    LongerRun(insns, entry, blocks[k], b, a);
    hide FinishedBut;
    FinishedThenGrowing(insns, entry, blocks, current, b);
  }

  /** The builder's test for a new block is exact. */
  lemma StartTest(insns: Listing, entry: Address, order: seq<Address>, i: nat)
    requires Shaped(insns) && Increasing(order) && (forall a :: a in insns <==> a in order) && i < |order|
    ensures StartsBlock(insns, entry, order[i]) <==>
            || i == 0 || order[i - 1] + INSTRUCTION_SIZE != order[i]
            || order[i] == entry || IsLeader(insns, order[i])
  {
    hide IsLeader;
    PrecedingWord(insns, order, i);
  }

  lemma FormedAll(insns: Listing, entry: Address, order: seq<Address>,
                  blocks: map<Address, BasicBlock>, current: Option<Address>, previousEnd: Address)
    requires Shaped(insns) && Increasing(order) && (forall a :: a in insns <==> a in order)
    requires Forming(insns, entry, order, |order|, blocks, current, previousEnd)
    ensures IsBlockGraph(insns, entry, blocks)
  {
    hide IsRunOf, StartsBlock;
    if order != [] {
      NothingFollowsLast(insns, order);
    }
    forall a: Address | StartsBlock(insns, entry, a) ensures a in blocks {
      StartIsCovered(insns, entry, a);
      assert a in order;
    }
  }

  lemma StartIsCovered(insns: Listing, entry: Address, a: Address)
    requires StartsBlock(insns, entry, a)
    ensures a in insns
  {
  }

  lemma InsnEnd(insns: Listing, a: Address)
    requires Shaped(insns) && a in insns
    ensures insns[a].EndAddress() == a + INSTRUCTION_SIZE < WORD_MODULUS
  {
  }

  lemma FormNothing(insns: Listing, covered: set<Address>, entry: Address, order: seq<Address>)
    ensures Forming(insns, entry, order, 0, AllPruned(map[], insns.Keys), None, 0)
    ensures EdgesFlow(insns, covered, map[])
  {
  }

  lemma PrunedStarts(blocks: map<Address, BasicBlock>, targets: set<Address>)
    ensures AllPruned(blocks, targets).Keys == blocks.Keys
    ensures forall k :: k in blocks ==> AllPruned(blocks, targets)[k].start == blocks[k].start
  {
  }

  lemma TwoOrders(insns: Listing, covered: set<Address>)
    requires insns.Keys <= covered
    ensures OrdersOf(insns, Ascending(covered), Ascending(insns.Keys))
  {
    hide Ascending, Increasing;
  }

  lemma ListingIsCovered(code: CodeImage, covered: set<Address>)
    ensures ListingOf(code, covered).Keys <= covered
  {
    hide CodeImage.Insn;
  }

  lemma CurrentIsKnown(insns: Listing, entry: Address, order: seq<Address>, i: nat,
                       blocks: map<Address, BasicBlock>, current: Option<Address>, previousEnd: Address)
    requires Forming(insns, entry, order, i, blocks, current, previousEnd)
    ensures i == 0 <==> current.None?
    ensures i > 0 ==> current.value in blocks && blocks[current.value].start == current.value
    ensures i > 0 ==> previousEnd == order[i - 1] + INSTRUCTION_SIZE
  {
    hide IsRunOf, IsMaximal, StartsBlock;
  }

  lemma EmptyGraph(code: CodeImage, entry: Address)
    ensures IsSplitting(ListingOf(code, {}), {}, entry, map[])
  {
    hide IsLeader, CodeImage.Insn;
  }

  class CfgBuilder {
    const cache: InstructionCache

    constructor (cache: InstructionCache)
      ensures this.cache == cache
    {
      this.cache := cache;
    }

    method IsSchedulable(req: Request, target: Address) returns (r: bool)
      requires cache.Valid()
      ensures r <==> Schedulable(cache.Image(), req, target)
    {
      if target < req.entry || target >= req.upperBound {
        return false;
      }
      if !Aligned(target) {
        return false;
      }
      var executable := cache.IsExecutable(target);
      if !executable {
        return false;
      }
      return target !in req.boundaries;
    }

    /** Push an address that may be followed and has not been scheduled before. */
    method Schedule(req: Request, target: Address, ghost visited: set<Address>, enqueued: set<Address>,
                    worklist: seq<Address>)
      returns (e: set<Address>, w: seq<Address>)
      requires cache.Valid()
      ensures State(visited, e, w) ==
              ScheduleAll(State(visited, enqueued, worklist), Offer(cache.Image(), req, target))
    {
      var ok := IsSchedulable(req, target);
      if !ok || target in enqueued {
        return enqueued, worklist;
      }
      return enqueued + {target}, worklist + [target];
    }

    /** Schedule wherever control may go after a covered instruction. */
    method ScheduleSuccessors(req: Request, insn: Instruction, ghost visited: set<Address>,
                              enqueued: set<Address>, worklist: seq<Address>)
      returns (e: set<Address>, w: seq<Address>)
      requires cache.Valid() && insn.EndAddress() < WORD_MODULUS
      ensures State(visited, e, w) ==
              ScheduleAll(State(visited, enqueued, worklist), Scheduled(cache.Image(), req, insn))
    {
      hide InstructionCache.Valid, Offer, CodeImage.Contains;
      e, w := enqueued, worklist;
      var fallThrough: Address := insn.EndAddress();
      match insn.flow {
        case Sequential =>
          e, w := Schedule(req, fallThrough, visited, e, w);
        case DirectCall =>
          e, w := Schedule(req, fallThrough, visited, e, w);
        case IndirectCall =>
          e, w := Schedule(req, fallThrough, visited, e, w);
        case ConditionalBranch =>
          if insn.hasTarget {
            e, w := Schedule(req, insn.target, visited, e, w);
          }
          e, w := Schedule(req, fallThrough, visited, e, w);
          ScheduleAllAppend(State(visited, enqueued, worklist),
                            if insn.hasTarget then Offer(cache.Image(), req, insn.target) else [],
                            Offer(cache.Image(), req, fallThrough));
        case UnconditionalBranch =>
          if insn.hasTarget {
            e, w := Schedule(req, insn.target, visited, e, w);
          }
        case IndirectBranch =>
          if req.linearPastIndirectBranch {
            e, w := Schedule(req, fallThrough, visited, e, w);
          }
        case Return =>
      }
    }

    /** Append the successor edges of a block ending in `insn` that stay inside the covered set. */
    method AppendSuccessors(out: seq<SuccessorEdge>, insn: Instruction, covered: set<Address>)
      returns (r: seq<SuccessorEdge>)
      ensures r == out + Successors(insn, covered)
    {
      r := out;
      var fallThrough := insn.EndAddress();
      match insn.flow {
        case Sequential =>
          if fallThrough in covered { r := r + [SuccessorEdge(fallThrough, FallThrough)]; }
        case DirectCall =>
          if fallThrough in covered { r := r + [SuccessorEdge(fallThrough, CallReturn)]; }
        case IndirectCall =>
          if fallThrough in covered { r := r + [SuccessorEdge(fallThrough, CallReturn)]; }
        case ConditionalBranch =>
          if insn.hasTarget && insn.target in covered { r := r + [SuccessorEdge(insn.target, BranchTaken)]; }
          if fallThrough in covered { r := r + [SuccessorEdge(fallThrough, FallThrough)]; }
        case UnconditionalBranch =>
          if insn.hasTarget && insn.target in covered { r := r + [SuccessorEdge(insn.target, BranchTaken)]; }
        case IndirectBranch =>
        case Return =>
      }
    }

    /** After a terminator, the next covered word and the branch target start blocks. */
    method NoteLeaders(insn: Instruction, covered: set<Address>, leaders: set<Address>) returns (r: set<Address>)
      ensures forall a :: a in r <==> a in leaders || (a in covered && MakesLeader(insn, a))
    {
      r := leaders;
      if insn.IsBlockTerminator() {
        var fallThrough := insn.EndAddress();
        if fallThrough in covered {
          r := r + {fallThrough};
        }
        if insn.IsBranch() && insn.hasTarget && insn.target in covered {
          r := r + {insn.target};
        }
      }
    }

    /** The addresses that must start a block because of what another instruction does. */
    method FindLeaders(covered: set<Address>, entry: Address, ghost insns: Listing) returns (leaders: set<Address>)
      requires cache.Valid()
      requires insns == ListingOf(cache.Image(), covered)
      modifies cache
      ensures cache.Valid()
      ensures forall a :: a in leaders <==> a == entry || (a in covered && IsLeader(insns, a))
    {
      hide *;
      ListingIsShaped(cache.Image(), covered) by { cache.ImageIsValid(); }
      leaders := {entry};
      var order := Ascending(covered);
      assert forall a :: !LeaderDueTo(insns, order[..0], a) by { NoLeaderYet(insns, order); }
      for i := 0 to |order|
        invariant cache.Valid()
        invariant forall a: Address ::
          a in leaders <==> a == entry || (a in covered && LeaderDueTo(insns, order[..i], a))
      {
        var found := cache.At(order[i]);
        ListingValue(cache.Image(), covered, order[i]);
        if found.None? {
          forall a: Address ensures LeaderDueTo(insns, order[..i + 1], a) <==> LeaderDueTo(insns, order[..i], a) {
            UndecodedMakesNoLeader(insns, order, i, a);
          }
          continue;
        }
        var insn := found.value;
        leaders := NoteLeaders(insn, covered, leaders);
        forall a: Address ensures LeaderDueTo(insns, order[..i + 1], a) <==>
                                  LeaderDueTo(insns, order[..i], a) || MakesLeader(insn, a) {
          LeaderDueToStep(insns, order, i, a);
        }
      }
      assert order[..|order|] == order;
      ListingIsCovered(cache.Image(), covered);
      forall a: Address ensures LeaderDueTo(insns, order, a) <==> IsLeader(insns, a) {
        LeadersFound(insns, order, a);
      }
    }

    /** Split the covered instructions, in address order, into blocks. */
    method FormBlocks(covered: set<Address>, entry: Address, leaders: set<Address>, ghost insns: Listing)
      returns (blocks: map<Address, BasicBlock>)
      requires cache.Valid()
      requires insns == ListingOf(cache.Image(), covered)
      requires forall a :: a in leaders <==> a == entry || (a in covered && IsLeader(insns, a))
      modifies cache
      ensures cache.Valid()
      ensures IsSplitting(insns, covered, entry, blocks)
    {
      hide IsRunOf, StartsBlock, IsLeader, IsBlockGraph, Forming, Successors, Ascending, Increasing, Shaped;
      hide ListingOf, CodeImage.Insn, InstructionCache.Valid, Remember, AllPruned, Kept, EdgesFlow, Decoded, OrdersOf;
      ListingIsShaped(cache.Image(), covered) by { cache.ImageIsValid(); }
      ListingIsCovered(cache.Image(), covered);
      blocks := map[];
      var current: Option<Address> := None;
      var previousEnd: Address := 0;
      var order := Ascending(covered);
      ghost var decoded, j := Ascending(insns.Keys), 0;
      assert OrdersOf(insns, order, decoded) by { TwoOrders(insns, covered); }
      FormNothing(insns, covered, entry, decoded);
      NothingDecoded(insns, order, decoded);
      for i := 0 to |order|
        invariant cache.Valid()
        invariant Decoded(insns, order, i, decoded, j)
        invariant EdgesFlow(insns, covered, blocks)
        invariant Forming(insns, entry, decoded, j, AllPruned(blocks, insns.Keys), current, previousEnd)
      {
        ghost var formed, growing, formedEnd := blocks, current, previousEnd;
        var a := order[i];
        var found := cache.At(a);
        ListingValue(cache.Image(), covered, a);
        DecodedStep(insns, order, i, decoded, j);
        if found.None? {
          continue;
        }
        InsnEnd(insns, a);
        CurrentIsKnown(insns, entry, decoded, j, AllPruned(blocks, insns.Keys), current, previousEnd);
        PrunedStarts(blocks, insns.Keys);
        StartTest(insns, entry, decoded, j);
        var insn := found.value;
        var discontinuous := current.Some? && a != previousEnd;
        if current.None? || a in leaders || discontinuous {
          blocks := blocks[a := BasicBlock(a, 0, Sequential, [])];
          current := Some(a);
        }
        var successors := AppendSuccessors([], insn, covered);
        var end: Address := insn.EndAddress();
        var block := BasicBlock(blocks[current.value].start, end, insn.flow, successors);
        blocks := blocks[current.value := block];
        previousEnd := end;
        ghost var was, now := AllPruned(formed, insns.Keys), Pruned(block, insns.Keys);
        AddBlock(insns, covered, formed, current.value, block, a);
        assert blocks == formed[current.value := block];
        if StartsBlock(insns, entry, a) {
          FormNewBlock(insns, entry, decoded, j, was, growing, formedEnd, now);
        } else {
          FormSameBlock(insns, entry, decoded, j, was, growing, formedEnd, now);
        }
        j := j + 1;
      }
      AllDecoded(insns, order, decoded, j);
      FormedAll(insns, entry, decoded, AllPruned(blocks, insns.Keys), current, previousEnd);
    }

    /** The basic blocks of the decodable addresses of a covered set. */
    method BuildBlocks(covered: set<Address>, entry: Address) returns (blocks: map<Address, BasicBlock>)
      requires cache.Valid()
      modifies cache
      ensures cache.Valid()
      ensures IsSplitting(ListingOf(cache.Image(), covered), covered, entry, blocks)
    {
      hide *;
      ghost var insns := ListingOf(cache.Image(), covered);
      if covered == {} {
        EmptyGraph(cache.Image(), entry);
        return map[];
      }
      var leaders := FindLeaders(covered, entry, insns);
      blocks := FormBlocks(covered, entry, leaders, insns);
    }

    /** The instruction at `a` if a build may cover it: no hard stop, decodable, and below the bound. */
    method CoverableAt(req: Request, a: Address) returns (found: Option<Instruction>)
      requires cache.Valid()
      modifies cache
      ensures cache.Valid()
      ensures found.Some? <==> Coverable(cache.Image(), req, a)
      ensures found.Some? ==> found == cache.Image().Insn(a)
    {
      hide FindRegion, IsHardStopWord, CodeImage.Insn, InstructionCache.Valid, Remember;
      cache.ImageIsValid();
      var hardStop := IsHardStop(cache.codeMap, a);
      if hardStop {
        return None;
      }
      found := cache.At(a);
      if found.Some? && a + found.value.size > req.upperBound {
        return None;
      }
    }

    /** Build the graph of the function at `req.entry`, collecting the targets of its direct calls. */
    method Build(req: Request, callTargetsOut: Option<set<Address>>)
      returns (cfg: ControlFlowGraph, callTargets: Option<set<Address>>)
      requires cache.Valid()
      modifies cache
      ensures cache.Valid()
      ensures IsCfgOf(cache.Image(), req, cfg)
      ensures callTargets ==
              if callTargetsOut.None? then None
              else Some(callTargetsOut.value + CallTargets(cache.Image(), cfg.covered))
    {
      hide *;
      ghost var code := cache.Image();
      ghost var g, roots := CfgGraph(code, req), Roots(code, req);
      cache.ImageIsValid();
      var visited: set<Address>, enqueued: set<Address>, worklist: seq<Address> := {}, {}, [];
      var coveredEnd: Address := req.entry;
      var truncated, reachesReturn := false, false;
      callTargets := callTargetsOut;

      var executable := cache.IsExecutable(req.entry);
      if Aligned(req.entry) && req.entry < req.upperBound && executable {
        enqueued := {req.entry};
        worklist := [req.entry];
      }
      EntryIsRoot(code, req);
      SearchStarts(g, roots, req.maxInstructions);
      NoProgressYet(code, req, callTargetsOut);

      while worklist != []
        invariant cache.Valid()
        invariant Searching(g, roots, req.maxInstructions, State(visited, enqueued, worklist))
        invariant Progress(code, req, callTargetsOut, visited, coveredEnd, reachesReturn, callTargets)
        invariant !truncated
        decreases AllAddresses() - enqueued, |worklist|
      {
        if |visited| >= req.maxInstructions {
          truncated := true;
          break;
        }
        ghost var s := State(visited, enqueued, worklist);
        SearchStep(g, roots, req.maxInstructions, s);
        var a := worklist[|worklist| - 1];
        DueFromEntry(code, req, visited, a);
        GraphMeaning(code, req, a);
        worklist := worklist[..|worklist| - 1];
        if a in visited {
          assert false;  // every address is scheduled only once
        }

        var found := CoverableAt(req, a);
        if found.None? {
          PopRejects(g, s);
          continue;
        }
        PopAccepts(g, s);
        var insn := found.value;
        CoverableShape(code, req, a);
        VisitProgress(code, req, callTargetsOut, visited, coveredEnd, reachesReturn, callTargets, a);
        visited := visited + {a};
        coveredEnd := if coveredEnd < insn.EndAddress() then insn.EndAddress() else coveredEnd;
        if insn.flow.DirectCall? && insn.hasTarget && callTargets.Some? {
          callTargets := Some(callTargets.value + {insn.target});
        }
        if insn.flow.Return? {
          reachesReturn := true;
        }
        enqueued, worklist := ScheduleSuccessors(req, insn, visited, enqueued, worklist);
      }

      SearchEnds(g, roots, req.maxInstructions, State(visited, enqueued, worklist));
      ProgressMeaning(code, req, callTargetsOut, visited, coveredEnd, reachesReturn, callTargets);
      var blocks: map<Address, BasicBlock> := map[];
      if req.buildBasicBlocks {
        ExploreIs(code, req);
        CoveredIsListed(code, req);
        blocks := BuildBlocks(visited, req.entry);
        DecodedSplitting(ListingOf(code, visited), req.entry, blocks);
      }
      cfg := ControlFlowGraph(req.entry, blocks, visited, coveredEnd, truncated, reachesReturn);
      GraphIsComplete(code, req, cfg);
    }
  }
}
