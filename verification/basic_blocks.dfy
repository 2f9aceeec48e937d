/** What the basic blocks of a covered set are, and why they keep its control flow. */
module BasicBlocks {
  import opened Types
  import opened Code
  import opened Sorting
  import opened Worklist
  import opened ControlFlowGraphs

  /** The covered instructions, by address. */
  type Listing = map<Address, Instruction>

  ghost function ListingOf(code: CodeImage, covered: set<Address>): Listing {
    map a | a in covered && code.Insn(a).Some? :: code.Insn(a).value
  }

  /** Aligned instructions, one word long. */
  ghost predicate Shaped(insns: Listing) {
    forall a :: a in insns ==> Aligned(a) && insns[a].EndAddress() == a + INSTRUCTION_SIZE < WORD_MODULUS
  }

  lemma AlignedApart(a: int, b: int)
    requires Aligned(a) && Aligned(b) && a < b
    ensures a + INSTRUCTION_SIZE <= b
  {
  }

  lemma ListingIsShaped(code: CodeImage, covered: set<Address>)
    requires code.Valid()
    ensures Shaped(ListingOf(code, covered))
  {
    var insns := ListingOf(code, covered);
    forall a | a in insns
      ensures Aligned(a) && insns[a].EndAddress() == a + INSTRUCTION_SIZE < WORD_MODULUS
    {
      InsnShape(code, a);
    }
  }

  // ------------------------------------------------------------------ control flow inside a covered set

  predicate BranchesTo(insn: Instruction, t: int) {
    insn.IsBranch() && insn.hasTarget && t == insn.target
  }

  function EdgesTo(covered: set<Address>, t: int, kind: EdgeKind): seq<SuccessorEdge> {
    if t in covered then [SuccessorEdge(t, kind)] else []
  }

  /** The outgoing edges of a block that ends with `insn`. */
  function Successors(insn: Instruction, covered: set<Address>): seq<SuccessorEdge> {
    var taken := if insn.hasTarget then EdgesTo(covered, insn.target, BranchTaken) else [];
    match insn.flow
    case Sequential => EdgesTo(covered, insn.EndAddress(), FallThrough)
    case DirectCall => EdgesTo(covered, insn.EndAddress(), CallReturn)
    case IndirectCall => EdgesTo(covered, insn.EndAddress(), CallReturn)
    case ConditionalBranch => taken + EdgesTo(covered, insn.EndAddress(), FallThrough)
    case UnconditionalBranch => taken
    case IndirectBranch => []
    case Return => []
  }

  predicate HasEdge(edges: seq<SuccessorEdge>, t: Address) {
    exists i :: 0 <= i < |edges| && edges[i].target == t
  }

  /** The edges lead exactly to the covered addresses control can flow to. */
  lemma SuccessorsAreFlows(insn: Instruction, covered: set<Address>, t: Address)
    ensures HasEdge(Successors(insn, covered), t) <==> t in covered && FlowsTo(insn, t)
  {
    var edges := Successors(insn, covered);
    if t in covered && FlowsTo(insn, t) {
      if BranchesTo(insn, t) {
        assert edges[0].target == t;
      } else {
        assert edges[|edges| - 1].target == t;
      }
    }
  }

  /** Why a block that ends in `insn` has an edge of a kind to `t`. */
  ghost predicate IsEdge(insn: Instruction, t: int, kind: EdgeKind) {
    match kind
    case BranchTaken => insn.flow in {ConditionalBranch, UnconditionalBranch} && insn.hasTarget && t == insn.target
    case FallThrough => insn.flow in {Sequential, ConditionalBranch} && t == insn.address + insn.size
    case CallReturn => insn.flow in {DirectCall, IndirectCall} && t == insn.address + insn.size
  }

  /** Every edge has its kind for a reason, and there is one of a kind. */
  lemma SuccessorsAreEdges(insn: Instruction, covered: set<Address>, t: Address, kind: EdgeKind)
    ensures SuccessorEdge(t, kind) in Successors(insn, covered) <==> t in covered && IsEdge(insn, t, kind)
    ensures Distinct(Successors(insn, covered))
  {
  }

  // ------------------------------------------------------------------ the block structure

  /** A block starts at the entry, after a hole, after a terminator, and at every branch target. */
  ghost predicate StartsBlock(insns: Listing, entry: Address, a: int) {
    && a in insns
    && (a == entry || a - INSTRUCTION_SIZE !in insns || IsLeader(insns, a))
  }

  ghost predicate IsLeader(insns: Listing, a: int) {
    || (a - INSTRUCTION_SIZE in insns && insns[a - INSTRUCTION_SIZE].IsBlockTerminator())
    || (exists b :: b in insns && BranchesTo(insns[b], a))
  }

  ghost predicate GoesOn(insns: Listing, a: int) { a + INSTRUCTION_SIZE in insns }

  /** A contiguous run of whole covered words that starts a block at its first one and nowhere else. */
  ghost predicate IsRunOf(insns: Listing, entry: Address, b: BasicBlock) {
    && b.start < b.end
    && StartsBlock(insns, entry, b.start)
    && (forall a :: a in insns && b.start <= a < b.end ==> a + INSTRUCTION_SIZE <= b.end)
    && (forall a {:trigger GoesOn(insns, a)} ::
          a in insns && b.start <= a < b.end - INSTRUCTION_SIZE ==> GoesOn(insns, a))
    && (forall a {:trigger StartsBlock(insns, entry, a)} ::
          a in insns && b.start < a < b.end ==> !StartsBlock(insns, entry, a))
    && EndsLike(insns, b, b.end - INSTRUCTION_SIZE)
  }

  ghost predicate EndsLike(insns: Listing, b: BasicBlock, last: int) {
    && last in insns
    && b.terminatorFlow == insns[last].flow
    && b.successors == Successors(insns[last], insns.Keys)
  }

  /** The run ends because the next word starts another block or is not covered. */
  ghost predicate IsMaximal(insns: Listing, entry: Address, b: BasicBlock) {
    b.end in insns ==> StartsBlock(insns, entry, b.end)
  }

  /** One maximal run for every block start, and nothing else. */
  ghost predicate IsBlockGraph(insns: Listing, entry: Address, blocks: map<Address, BasicBlock>) {
    && (forall k :: k in blocks ==>
          blocks[k].start == k && IsRunOf(insns, entry, blocks[k]) && IsMaximal(insns, entry, blocks[k]))
    && (forall a: Address {:trigger StartsBlock(insns, entry, a)} :: StartsBlock(insns, entry, a) ==> a in blocks)
  }

  // ------------------------------------------------------------------ what that means

  lemma LastIsInside(insns: Listing, entry: Address, blocks: map<Address, BasicBlock>, k: Address)
    requires Shaped(insns) && IsBlockGraph(insns, entry, blocks) && k in blocks
    ensures blocks[k].start == k && k in insns && StartsBlock(insns, entry, k)
    ensures blocks[k].end - INSTRUCTION_SIZE in insns
    ensures blocks[k].Contains(k) && blocks[k].Contains(blocks[k].end - INSTRUCTION_SIZE)
  {
    hide IsLeader;
    assert IsRunOf(insns, entry, blocks[k]) && StartsBlock(insns, entry, k);
  }

  lemma InsideIsNoStart(insns: Listing, entry: Address, blocks: map<Address, BasicBlock>, k: Address, a: Address)
    requires IsBlockGraph(insns, entry, blocks) && k in blocks
    requires blocks[k].Contains(a) && a in insns && a != k
    ensures !StartsBlock(insns, entry, a)
  {
    hide StartsBlock, EndsLike;
  }

  /** Blocks cover every covered instruction ... */
  lemma {:induction false} EveryInstructionInABlock(insns: Listing, entry: Address,
                                                    blocks: map<Address, BasicBlock>, a: Address)
    requires Shaped(insns) && IsBlockGraph(insns, entry, blocks) && a in insns
    ensures exists k :: k in blocks && blocks[k].Contains(a)
    decreases a
  {
    hide EndsLike, IsLeader;
    if StartsBlock(insns, entry, a) {
      assert a in blocks && blocks[a].Contains(a);
    } else {
      var b: Address := a - INSTRUCTION_SIZE;
      EveryInstructionInABlock(insns, entry, blocks, b);
      var k :| k in blocks && blocks[k].Contains(b);
      assert IsRunOf(insns, entry, blocks[k]) && IsMaximal(insns, entry, blocks[k]);
      assert blocks[k].end >= a && blocks[k].end != a;
    }
  }

  /** ... exactly once, ... */
  lemma BlocksAreDisjoint(insns: Listing, entry: Address, blocks: map<Address, BasicBlock>,
                          k: Address, l: Address, a: Address)
    requires IsBlockGraph(insns, entry, blocks)
    requires k in blocks && l in blocks && blocks[k].Contains(a) && blocks[l].Contains(a)
    ensures k == l
  {
    hide EndsLike, IsLeader;
    assert StartsBlock(insns, entry, k) && StartsBlock(insns, entry, l);
  }

  /** ... and are contiguous runs of covered words. */
  lemma {:induction false} BlocksAreContiguous(insns: Listing, entry: Address, blocks: map<Address, BasicBlock>,
                                               k: Address, i: nat)
    requires IsBlockGraph(insns, entry, blocks) && k in blocks
    requires k + 4 * i < blocks[k].end
    ensures k + 4 * i in insns
    ensures k + 4 * i + INSTRUCTION_SIZE <= blocks[k].end
  {
    hide EndsLike, IsLeader;
    assert IsRunOf(insns, entry, blocks[k]) && StartsBlock(insns, entry, k);
    if i > 0 {
      BlocksAreContiguous(insns, entry, blocks, k, i - 1);
      assert GoesOn(insns, k + 4 * (i - 1));
    }
  }

  /** A terminator can only be the last instruction of its block. */
  lemma TerminatorIsLast(insns: Listing, entry: Address, blocks: map<Address, BasicBlock>, k: Address, a: Address)
    requires IsBlockGraph(insns, entry, blocks)
    requires k in blocks && a in insns && blocks[k].Contains(a)
    ensures a + INSTRUCTION_SIZE <= blocks[k].end
    ensures a + INSTRUCTION_SIZE < blocks[k].end ==>
      a + INSTRUCTION_SIZE in insns
      && insns[a].flow !in {ConditionalBranch, UnconditionalBranch, IndirectBranch, Return}
  {
    hide EndsLike;
    assert IsRunOf(insns, entry, blocks[k]);
    if a + INSTRUCTION_SIZE < blocks[k].end {
      assert GoesOn(insns, a);
      assert !StartsBlock(insns, entry, a + INSTRUCTION_SIZE);
    }
  }

  /** A block starts at the entry, behind a hole or a terminator, and at branch targets, and nowhere else:
      blocks are no shorter than they have to be. */
  lemma BlockStartsAre(insns: Listing, entry: Address, blocks: map<Address, BasicBlock>, a: Address)
    requires IsBlockGraph(insns, entry, blocks)
    ensures a in blocks <==>
      a in insns &&
      (|| a == entry
       || a - 4 !in insns
       || insns[a - 4].flow in {ConditionalBranch, UnconditionalBranch, IndirectBranch, Return}
       || exists b :: b in insns && BranchesTo(insns[b], a))
  {
    hide IsMaximal, EndsLike;
    assert a in blocks ==> IsRunOf(insns, entry, blocks[a]);
    assert a in blocks <==> StartsBlock(insns, entry, a);
    hide IsBlockGraph, IsRunOf;
  }

  /** Every covered branch target starts a block. */
  lemma BranchTargetsStartBlocks(insns: Listing, entry: Address, blocks: map<Address, BasicBlock>, b: Address,
                                 t: Address)
    requires IsBlockGraph(insns, entry, blocks)
    requires b in insns && BranchesTo(insns[b], t) && t in insns
    ensures t in blocks
  {
    hide IsRunOf, IsMaximal;
    assert StartsBlock(insns, entry, t);
  }

  /** The edges out of a block lead exactly where its last instruction can flow, always to blocks. */
  lemma EdgesLeadToBlocks(insns: Listing, entry: Address, blocks: map<Address, BasicBlock>, k: Address, t: Address)
    requires Shaped(insns) && IsBlockGraph(insns, entry, blocks) && k in blocks
    ensures blocks[k].end - INSTRUCTION_SIZE in insns
    ensures HasEdge(blocks[k].successors, t) <==>
            t in insns && FlowsTo(insns[blocks[k].end - INSTRUCTION_SIZE], t)
    ensures HasEdge(blocks[k].successors, t) ==> t in blocks
    ensures blocks[k].terminatorFlow == insns[blocks[k].end - INSTRUCTION_SIZE].flow
    ensures forall kind :: SuccessorEdge(t, kind) in blocks[k].successors <==>
      t in insns && IsEdge(insns[blocks[k].end - INSTRUCTION_SIZE], t, kind)
  {
    hide StartsBlock, Successors;
    assert EndsLike(insns, blocks[k], blocks[k].end - INSTRUCTION_SIZE) && IsMaximal(insns, entry, blocks[k]);
    assert blocks[k].end in insns ==> blocks[k].end in blocks;
    hide IsBlockGraph;
    var last: Address := blocks[k].end - INSTRUCTION_SIZE;
    SuccessorsAreFlows(insns[last], insns.Keys, t);
    forall kind ensures SuccessorEdge(t, kind) in blocks[k].successors <==> t in insns && IsEdge(insns[last], t, kind) {
      SuccessorsAreEdges(insns[last], insns.Keys, t, kind);
    }
    hide IsEdge;
    if t in insns && BranchesTo(insns[last], t) {
      BranchTargetsStartBlocks(insns, entry, blocks, last, t);
    }
  }

  // ------------------------------------------------------------------ reachability is preserved

  /** Covered instructions under control flow. */
  ghost function InsnGraph(insns: Listing): Graph {
    Graph((a: Address) => a in insns, (a: Address) => InsnNext(insns, a))
  }

  ghost function InsnNext(insns: Listing, a: Address): (next: seq<Address>)
    ensures forall t :: t in next <==> a in insns && t in insns && FlowsTo(insns[a], t)
  {
    if a in insns then Ascending(set t | t in insns && FlowsTo(insns[a], t)) else []
  }

  /** Blocks under their successor edges. */
  ghost function BlockGraph(blocks: map<Address, BasicBlock>): Graph {
    Graph((k: Address) => k in blocks, (k: Address) => BlockNext(blocks, k))
  }

  ghost function BlockNext(blocks: map<Address, BasicBlock>, k: Address): (next: seq<Address>)
    ensures forall t: Address :: t in next <==> k in blocks && HasEdge(blocks[k].successors, t)
  {
    if k in blocks then Targets(blocks[k].successors) else []
  }

  ghost function Targets(edges: seq<SuccessorEdge>): (ts: seq<Address>)
    ensures forall t: Address :: t in ts <==> HasEdge(edges, t)
  {
    var ts := seq(|edges|, i requires 0 <= i < |edges| => edges[i].target);
    assert forall i :: 0 <= i < |edges| ==> ts[i] == edges[i].target;
    ts
  }

  /** From the start of a block, control reaches every instruction of that block. */
  lemma {:induction false} BlockRunsThrough(insns: Listing, entry: Address, blocks: map<Address, BasicBlock>,
                                           from: Address, k: Address, a: Address)
    requires Shaped(insns) && IsBlockGraph(insns, entry, blocks)
    requires k in blocks && blocks[k].Contains(a) && a in insns
    requires Reachable(InsnGraph(insns), {from}, k)
    ensures Reachable(InsnGraph(insns), {from}, a)
    decreases a
  {
    if a != k {
      var b: Address := PreviousInBlock(insns, entry, blocks, k, a);
      hide IsBlockGraph, Reachable;
      BlockRunsThrough(insns, entry, blocks, from, k, b);
      ReachableNext(InsnGraph(insns), {from}, b, a);
    }
  }

  lemma PreviousInBlock(insns: Listing, entry: Address, blocks: map<Address, BasicBlock>, k: Address, a: Address)
    returns (b: Address)
    requires Shaped(insns) && IsBlockGraph(insns, entry, blocks)
    requires k in blocks && blocks[k].Contains(a) && a in insns && a != k
    ensures b == a - INSTRUCTION_SIZE && b in insns && blocks[k].Contains(b)
    ensures FlowsTo(insns[b], a)
  {
    hide IsBlockGraph, IsLeader;
    LastIsInside(insns, entry, blocks, k);
    InsideIsNoStart(insns, entry, blocks, k, a);
    b := a - INSTRUCTION_SIZE;
    assert b in insns;
    hide StartsBlock;
    AlignedApart(k, a);
    TerminatorIsLast(insns, entry, blocks, k, b);
  }

  lemma EdgeRunsThrough(insns: Listing, entry: Address, blocks: map<Address, BasicBlock>,
                        from: Address, m: Address, n: Address)
    requires Shaped(insns) && IsBlockGraph(insns, entry, blocks)
    requires m in blocks && HasEdge(blocks[m].successors, n)
    requires Reachable(InsnGraph(insns), {from}, m)
    ensures Reachable(InsnGraph(insns), {from}, n)
  {
    hide IsBlockGraph, Shaped, Reachable, StartsBlock, FlowsTo, HasEdge;
    EdgesLeadToBlocks(insns, entry, blocks, m, n);
    LastIsInside(insns, entry, blocks, m);
    var last: Address := blocks[m].end - INSTRUCTION_SIZE;
    BlockRunsThrough(insns, entry, blocks, from, m, last);
    ReachableNext(InsnGraph(insns), {from}, last, n);
  }

  lemma BlockReachesAsInsns(insns: Listing, entry: Address, blocks: map<Address, BasicBlock>, from: Address)
    requires Shaped(insns) && IsBlockGraph(insns, entry, blocks) && from in blocks
    ensures ReachableSet(BlockGraph(blocks), {from}) <= ReachableSet(InsnGraph(insns), {from})
  {
    hide Reachable, IsBlockGraph, Shaped, StartsBlock, HasEdge, FlowsTo;
    var g, reach := InsnGraph(insns), ReachableSet(InsnGraph(insns), {from});
    LastIsInside(insns, entry, blocks, from);
    ReachableRoot(g, {from}, from);
    forall m, n | m in reach && n in BlockGraph(blocks).next(m) ensures n in reach {
      EdgeRunsThrough(insns, entry, blocks, from, m, n);
    }
    ReachableIsLeast(BlockGraph(blocks), {from}, reach);
  }

  /** The instructions of the blocks reached from `from`. */
  ghost predicate InReachedBlock(blocks: map<Address, BasicBlock>, from: Address, a: Address) {
    exists m :: m in blocks && Reachable(BlockGraph(blocks), {from}, m) && blocks[m].Contains(a)
  }

  lemma FollowEdge(blocks: map<Address, BasicBlock>, from: Address, m: Address, n: Address)
    requires m in blocks && Reachable(BlockGraph(blocks), {from}, m)
    requires HasEdge(blocks[m].successors, n) && n in blocks
    ensures Reachable(BlockGraph(blocks), {from}, n)
  {
    hide Reachable, HasEdge;
    ReachableNext(BlockGraph(blocks), {from}, m, n);
  }

  lemma FlowStaysInReachedBlocks(insns: Listing, entry: Address, blocks: map<Address, BasicBlock>,
                                 from: Address, a: Address, b: Address)
    requires Shaped(insns) && IsBlockGraph(insns, entry, blocks)
    requires a in insns && b in insns && FlowsTo(insns[a], b)
    requires InReachedBlock(blocks, from, a)
    ensures InReachedBlock(blocks, from, b)
  {
    hide Reachable, IsBlockGraph, BlockGraph, HasEdge;
    var m :| m in blocks && Reachable(BlockGraph(blocks), {from}, m) && blocks[m].Contains(a);
    TerminatorIsLast(insns, entry, blocks, m, a);
    if a + INSTRUCTION_SIZE < blocks[m].end {
      assert b == a + INSTRUCTION_SIZE;
      assert blocks[m].Contains(b);
    } else {
      EdgesLeadToBlocks(insns, entry, blocks, m, b);
      LastIsInside(insns, entry, blocks, b);
      FollowEdge(blocks, from, m, b);
    }
  }

  lemma InsnReachesAsBlocks(insns: Listing, entry: Address, blocks: map<Address, BasicBlock>, from: Address,
                            to: Address)
    requires Shaped(insns) && IsBlockGraph(insns, entry, blocks) && from in blocks && to in blocks
    requires Reachable(InsnGraph(insns), {from}, to)
    ensures Reachable(BlockGraph(blocks), {from}, to)
  {
    hide Reachable, IsBlockGraph, Shaped, StartsBlock;
    LastIsInside(insns, entry, blocks, from);
    LastIsInside(insns, entry, blocks, to);
    ReachableRoot(BlockGraph(blocks), {from}, from);
    hide BlockGraph;
    var inside := set a | a in insns && InReachedBlock(blocks, from, a);
    assert InReachedBlock(blocks, from, from);
    forall a, b | a in inside && b in InsnGraph(insns).next(a) ensures b in inside {
      FlowStaysInReachedBlocks(insns, entry, blocks, from, a, b);
    }
    ReachableIsLeast(InsnGraph(insns), {from}, inside);
    assert to in ReachableSet(InsnGraph(insns), {from});
    var m :| m in blocks && Reachable(BlockGraph(blocks), {from}, m) && blocks[m].Contains(to);
    BlocksAreDisjoint(insns, entry, blocks, m, to, to);
  }

  /**
   Forming blocks keeps reachability: between any two block starts, there is a path of block edges
   exactly when there is a path of instruction edges through covered instructions.
   */
  lemma BlocksKeepReachability(insns: Listing, entry: Address, blocks: map<Address, BasicBlock>, from: Address,
                               to: Address)
    requires Shaped(insns) && IsBlockGraph(insns, entry, blocks) && from in blocks && to in blocks
    ensures Reachable(BlockGraph(blocks), {from}, to) <==> Reachable(InsnGraph(insns), {from}, to)
  {
    hide Reachable, IsBlockGraph, Shaped;
    BlockReachesAsInsns(insns, entry, blocks, from);
    if Reachable(BlockGraph(blocks), {from}, to) {
      assert to in ReachableSet(BlockGraph(blocks), {from});
    }
    if Reachable(InsnGraph(insns), {from}, to) {
      InsnReachesAsBlocks(insns, entry, blocks, from, to);
    }
  }

  // ------------------------------------------------------------------ blocks of a built graph

  /** Without linear decoding past indirect branches, everything scheduled is a real flow. */
  lemma ScheduledIsFlow(code: CodeImage, req: Request, a: Address, b: Address)
    requires !req.linearPastIndirectBranch
    requires b in Next(code, req, a)
    ensures code.Insn(a).Some? && FlowsTo(code.Insn(a).value, b)
  {
    hide Schedulable, CodeImage.Insn;
  }

  lemma CoveredIsListed(code: CodeImage, req: Request)
    requires code.Valid()
    ensures ListingOf(code, Explore(code, req).visited).Keys == Explore(code, req).visited
  {
    hide Explore, CodeImage.Insn;
    forall a | a in Explore(code, req).visited ensures code.Insn(a).Some? {
      CoveredShape(code, req, a);
    }
  }

  /**
   With linear decoding past indirect branches off, every block of a built graph, truncated or not,
   is reachable from the entry's block along successor edges.
   */
  lemma EveryBlockReachable(code: CodeImage, req: Request, blocks: map<Address, BasicBlock>, k: Address)
    requires code.Valid() && !req.linearPastIndirectBranch
    requires IsBlockGraph(ListingOf(code, Explore(code, req).visited), req.entry, blocks)
    requires k in blocks
    ensures req.entry in blocks
    ensures Reachable(BlockGraph(blocks), {req.entry}, k)
  {
    var covered := Explore(code, req).visited;
    var insns := ListingOf(code, covered);
    ListingIsShaped(code, covered);
    CoveredIsListed(code, req);
    EntryIsCovered(code, req);
    ExploreIsReachable(code, req);
    hide Explore;
    LastIsInside(insns, req.entry, blocks, k);
    assert StartsBlock(insns, req.entry, req.entry);
    RunIsFlow(code, req, covered, k);
    BlocksKeepReachability(insns, req.entry, blocks, req.entry, k);
  }

  lemma RunIsFlow(code: CodeImage, req: Request, covered: set<Address>, k: Address)
    requires !req.linearPastIndirectBranch
    requires ListingOf(code, covered).Keys == covered
    requires ReachableWithin(CfgGraph(code, req), Elements(Roots(code, req)), covered, k)
    ensures Reachable(InsnGraph(ListingOf(code, covered)), {req.entry}, k)
  {
    hide ListingOf, Roots, CodeImage.Insn;
    var g, insns := CfgGraph(code, req), ListingOf(code, covered);
    assert Elements(Roots(code, req)) <= {req.entry} by { RootIsEntry(code, req); }
    var path: seq<Address> :|
      IsRun(g, Elements(Roots(code, req)), path) && path[|path| - 1] == k && Elements(path) <= covered;
    forall i | 0 <= i < |path| ensures path[i] in insns {
      assert path[i] in Elements(path);
    }
    forall i | 0 < i < |path| ensures path[i] in InsnGraph(insns).next(path[i - 1]) {
      ScheduledIsFlow(code, req, path[i - 1], path[i]);
      ListingAt(code, covered, path[i - 1]);
    }
    assert IsRun(InsnGraph(insns), {req.entry}, path);
  }

  lemma RootIsEntry(code: CodeImage, req: Request)
    ensures Elements(Roots(code, req)) <= {req.entry}
  {
  }

  lemma ListingAt(code: CodeImage, covered: set<Address>, a: Address)
    requires a in covered && code.Insn(a).Some?
    ensures a in ListingOf(code, covered) && ListingOf(code, covered)[a] == code.Insn(a).value
  {
  }
}
