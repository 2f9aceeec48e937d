/**
 The worklist traversal that the CFG builder and the recursive disassembler share.

 Both keep a stack of scheduled addresses, a set of addresses ever scheduled and a set of visited
 ones, and stop early when the visited set reaches a cap.  A `Graph` gives what differs between the
 two: which popped addresses are kept, and what a kept address schedules, in order.
 */
module Worklist {
  import opened Types

  datatype Graph = Graph(accepts: Address -> bool, next: Address -> seq<Address>)

  datatype State = State(visited: set<Address>, enqueued: set<Address>, work: seq<Address>)

  datatype Outcome = Outcome(visited: set<Address>, truncated: bool)

  predicate FitsWord(a: int) { 0 <= a < WORD_MODULUS }

  function AllAddresses(): set<Address> { set a: Address | 0 <= a < WORD_MODULUS && FitsWord(a) }

  // ------------------------------------------------------------------ the algorithm

  function Schedule(s: State, t: Address): State {
    if t in s.enqueued then s else State(s.visited, s.enqueued + {t}, s.work + [t])
  }

  function ScheduleAll(s: State, ts: seq<Address>): (r: State)
    ensures r.visited == s.visited
    ensures r.enqueued == s.enqueued + Elements(ts)
    ensures r.enqueued == s.enqueued ==> r.work == s.work
    decreases |ts|
  {
    if ts == [] then s else
      assert ts == [ts[0]] + ts[1..];
      ScheduleAll(Schedule(s, ts[0]), ts[1..])
  }

  lemma {:induction false} ScheduleAllAppend(s: State, ts: seq<Address>, us: seq<Address>)
    ensures ScheduleAll(s, ts + us) == ScheduleAll(ScheduleAll(s, ts), us)
    decreases |ts|
  {
    if ts == [] {
      assert ts + us == us;
    } else {
      assert (ts + us)[0] == ts[0] && (ts + us)[1..] == ts[1..] + us;
      ScheduleAllAppend(Schedule(s, ts[0]), ts[1..], us);
    }
  }

  function Start(roots: seq<Address>): State {
    ScheduleAll(State({}, {}, []), roots)
  }

  /** Process the pending address at index `i`. */
  function VisitAt(g: Graph, s: State, i: nat): State
    requires i < |s.work|
  {
    var a := s.work[i];
    var rest := s.work[..i] + s.work[i + 1..];
    if a in s.visited || !g.accepts(a) then
      s.(work := rest)
    else
      ScheduleAll(State(s.visited + {a}, s.enqueued, rest), g.next(a))
  }

  /** Popping the most recently scheduled address. */
  lemma VisitTop(g: Graph, s: State)
    requires s.work != []
    ensures var a, below := s.work[|s.work| - 1], s.work[..|s.work| - 1];
      VisitAt(g, s, |s.work| - 1) ==
      if a in s.visited || !g.accepts(a) then State(s.visited, s.enqueued, below)
      else ScheduleAll(State(s.visited + {a}, s.enqueued, below), g.next(a))
  {
    assert s.work[..|s.work| - 1] + s.work[|s.work|..] == s.work[..|s.work| - 1];
  }

  /** Pop the most recently scheduled address until none is left or the cap is reached. */
  function Drain(g: Graph, cap: nat, s: State): Outcome
    decreases AllAddresses() - s.enqueued, |s.work|
  {
    if s.work == [] then
      Outcome(s.visited, false)
    else if |s.visited| >= cap then
      Outcome(s.visited, true)
    else
      var s' := VisitAt(g, s, |s.work| - 1);
      assert s'.enqueued != s.enqueued ==> exists t :: t in s'.enqueued && t !in s.enqueued;
      Drain(g, cap, s')
  }

  // ------------------------------------------------------------------ what it should compute

  /** A sequence of kept addresses that starts at a root and follows `next`. */
  ghost predicate IsRun(g: Graph, roots: set<Address>, path: seq<Address>) {
    && path != []
    && path[0] in roots
    && (forall i :: 0 <= i < |path| ==> g.accepts(path[i]))
    && (forall i :: 0 < i < |path| ==> path[i] in g.next(path[i - 1]))
  }

  ghost predicate Reachable(g: Graph, roots: set<Address>, a: Address) {
    exists path :: IsRun(g, roots, path) && path[|path| - 1] == a
  }

  /** Reachable by a run that never leaves `within`. */
  ghost predicate ReachableWithin(g: Graph, roots: set<Address>, within: set<Address>, a: Address) {
    exists path :: IsRun(g, roots, path) && path[|path| - 1] == a && Elements(path) <= within
  }

  ghost predicate Closed(g: Graph, roots: set<Address>, s: set<Address>) {
    && (forall a :: a in roots && g.accepts(a) ==> a in s)
    && (forall a, b :: a in s && b in g.next(a) && g.accepts(b) ==> b in s)
  }

  ghost function ReachableSet(g: Graph, roots: set<Address>): set<Address> {
    set a: Address | 0 <= a < WORD_MODULUS && Reachable(g, roots, a)
  }

  lemma ReachableRoot(g: Graph, roots: set<Address>, a: Address)
    requires a in roots && g.accepts(a)
    ensures Reachable(g, roots, a)
  {
    assert IsRun(g, roots, [a]);
  }

  lemma ReachableNext(g: Graph, roots: set<Address>, a: Address, b: Address)
    requires Reachable(g, roots, a) && b in g.next(a) && g.accepts(b)
    ensures Reachable(g, roots, b)
  {
    var path :| IsRun(g, roots, path) && path[|path| - 1] == a;
    assert IsRun(g, roots, path + [b]);
  }

  /** Reachability is the least set closed under the traversal rules: it is closed ... */
  lemma ReachableIsClosed(g: Graph, roots: set<Address>)
    ensures Closed(g, roots, ReachableSet(g, roots))
  {
    forall a | a in roots && g.accepts(a) ensures Reachable(g, roots, a) {
      ReachableRoot(g, roots, a);
    }
    forall a, b | Reachable(g, roots, a) && b in g.next(a) && g.accepts(b)
      ensures Reachable(g, roots, b)
    {
      ReachableNext(g, roots, a, b);
    }
  }

  /** ... and every closed set contains it. */
  lemma ReachableIsLeast(g: Graph, roots: set<Address>, s: set<Address>)
    requires Closed(g, roots, s)
    ensures ReachableSet(g, roots) <= s
  {
    forall a | Reachable(g, roots, a) ensures a in s {
      var path :| IsRun(g, roots, path) && path[|path| - 1] == a;
      RunStaysInside(g, roots, s, path, |path| - 1);
    }
  }

  lemma {:induction false} RunStaysInside(g: Graph, roots: set<Address>, s: set<Address>, path: seq<Address>, i: nat)
    requires Closed(g, roots, s) && IsRun(g, roots, path) && i < |path|
    ensures path[i] in s
  {
    if i > 0 {
      RunStaysInside(g, roots, s, path, i - 1);
    }
  }

  // ------------------------------------------------------------------ the invariant of every step

  /** An address is due when a root or an already visited address schedules it. */
  ghost predicate Due(g: Graph, roots: set<Address>, visited: set<Address>, a: Address) {
    a in roots || exists b :: b in visited && a in g.next(b)
  }

  ghost predicate Inv(g: Graph, roots: set<Address>, s: State) {
    && Distinct(s.work)
    && roots <= s.enqueued
    && (forall a :: a in s.work ==> a in s.enqueued && a !in s.visited)
    && (forall a :: a in s.visited ==> a in s.enqueued && ReachableWithin(g, roots, s.visited, a))
    && (forall a :: a in s.enqueued ==> Due(g, roots, s.visited, a))
    && (forall a :: a in s.enqueued ==> a in s.visited || a in s.work || !g.accepts(a))
    && (forall a, t :: a in s.visited && t in g.next(a) ==> t in s.enqueued)
  }

  lemma DueIsReachable(g: Graph, roots: set<Address>, visited: set<Address>, a: Address)
    requires forall b :: b in visited ==> ReachableWithin(g, roots, visited, b)
    requires Due(g, roots, visited, a) && g.accepts(a)
    ensures ReachableWithin(g, roots, visited + {a}, a)
  {
    if a in roots {
      assert IsRun(g, roots, [a]);
    } else {
      var b :| b in visited && a in g.next(b);
      var path :| IsRun(g, roots, path) && path[|path| - 1] == b && Elements(path) <= visited;
      assert IsRun(g, roots, path + [a]);
      assert Elements(path + [a]) <= visited + {a};
    }
  }

  lemma ReachableWithinGrows(g: Graph, roots: set<Address>, within: set<Address>, wider: set<Address>, a: Address)
    requires ReachableWithin(g, roots, within, a) && within <= wider
    ensures ReachableWithin(g, roots, wider, a)
  {
    var path :| IsRun(g, roots, path) && path[|path| - 1] == a && Elements(path) <= within;
    assert Elements(path) <= wider;
  }

  /** What scheduling does to the stack: nothing is lost, and new entries are new and distinct. */
  lemma {:induction false} ScheduleAllStack(s: State, ts: seq<Address>)
    requires Distinct(s.work)
    requires forall a :: a in s.work ==> a in s.enqueued
    ensures var r := ScheduleAll(s, ts);
      && Distinct(r.work)
      && |r.enqueued| == |s.enqueued| + |r.work| - |s.work|
      && (forall a :: a in r.work <==> a in s.work || (a in ts && a !in s.enqueued))
    decreases |ts|
  {
    if ts != [] {
      ScheduleAllStack(Schedule(s, ts[0]), ts[1..]);
    }
  }

  lemma StartInv(g: Graph, roots: seq<Address>)
    ensures Inv(g, Elements(roots), Start(roots))
    ensures |Start(roots).work| == |Start(roots).enqueued|
  {
    hide ScheduleAll, Reachable;
    var empty := State({}, {}, []);
    ScheduleAllStack(empty, roots);
    var s := Start(roots);
    assert s.visited == {} && s.enqueued == Elements(roots);
    assert forall a :: a in s.work <==> a in s.enqueued;
  }

  lemma RemoveKeepsRest(work: seq<Address>, i: nat)
    requires Distinct(work) && i < |work|
    ensures var rest := work[..i] + work[i + 1..];
      && Distinct(rest)
      && |rest| == |work| - 1
      && (forall a :: a in rest <==> a in work && a != work[i])
  {
    var rest := work[..i] + work[i + 1..];
    forall a ensures a in rest <==> a in work && a != work[i] {
      if a in work && a != work[i] {
        var k :| 0 <= k < |work| && work[k] == a;
        assert rest[if k < i then k else k - 1] == a;
      }
    }
  }

  /** One step, whichever pending address it takes, keeps the invariant and retires one address. */
  lemma VisitInv(g: Graph, roots: set<Address>, s: State, i: nat)
    requires Inv(g, roots, s) && i < |s.work|
    ensures var s' := VisitAt(g, s, i);
      && Inv(g, roots, s')
      && s.visited <= s'.visited <= s.visited + {s.work[i]}
      && s.enqueued <= s'.enqueued
      && |s'.visited| <= |s.visited| + 1
      && |s'.enqueued| - |s'.work| == |s.enqueued| - |s.work| + 1
  {
    var a := s.work[i];
    var rest := s.work[..i] + s.work[i + 1..];
    RemoveKeepsRest(s.work, i);
    if g.accepts(a) {
      assert a in s.work;
      DueIsReachable(g, roots, s.visited, a);
      VisitAccepted(g, roots, s, i);
    }
  }

  lemma VisitAccepted(g: Graph, roots: set<Address>, s: State, i: nat)
    requires Inv(g, roots, s) && i < |s.work| && s.work[i] !in s.visited && g.accepts(s.work[i])
    requires ReachableWithin(g, roots, s.visited + {s.work[i]}, s.work[i])
    ensures var s' := VisitAt(g, s, i);
      && Inv(g, roots, s')
      && s'.visited == s.visited + {s.work[i]}
      && s.enqueued <= s'.enqueued
      && |s'.enqueued| - |s'.work| == |s.enqueued| - |s.work| + 1
  {
    hide ScheduleAll, ReachableWithin;
    var a := s.work[i];
    RemoveKeepsRest(s.work, i);
    var kept := State(s.visited + {a}, s.enqueued, s.work[..i] + s.work[i + 1..]);
    ScheduleAllStack(kept, g.next(a));
    var s' := VisitAt(g, s, i);
    assert s' == ScheduleAll(kept, g.next(a));
    forall t | t in s'.enqueued ensures Due(g, roots, s'.visited, t) {
      if t in s.enqueued {
        assert Due(g, roots, s.visited, t);
      } else {
        assert t in g.next(a);
      }
    }
    forall t | t in s'.visited ensures ReachableWithin(g, roots, s'.visited, t) {
      if t in s.visited {
        ReachableWithinGrows(g, roots, s.visited, s'.visited, t);
      }
    }
  }

  lemma VisitedIsReachable(g: Graph, roots: set<Address>, s: State)
    requires Inv(g, roots, s)
    ensures s.visited <= ReachableSet(g, roots)
  {
    forall a | a in s.visited ensures Reachable(g, roots, a) {
      assert ReachableWithin(g, roots, s.visited, a);
    }
  }

  /** With nothing pending, exactly the reachable addresses have been visited. */
  lemma EmptyIsReachable(g: Graph, roots: set<Address>, s: State)
    requires Inv(g, roots, s) && s.work == []
    ensures s.visited == ReachableSet(g, roots)
  {
    assert Closed(g, roots, s.visited);
    ReachableIsLeast(g, roots, s.visited);
    VisitedIsReachable(g, roots, s);
  }

  // ------------------------------------------------------------------ the theorems

  ghost predicate IsDrained(g: Graph, roots: set<Address>, cap: nat, from: set<Address>, o: Outcome) {
    var reach := ReachableSet(g, roots);
    && from <= o.visited <= reach
    && |o.visited| <= cap
    && (forall a :: a in o.visited ==> ReachableWithin(g, roots, o.visited, a))
    && if o.truncated then |o.visited| == cap else o.visited == reach
  }

  lemma DrainStep(g: Graph, cap: nat, s: State)
    requires s.work != [] && |s.visited| < cap
    ensures Drain(g, cap, s) == Drain(g, cap, VisitAt(g, s, |s.work| - 1))
    ensures var s' := VisitAt(g, s, |s.work| - 1);
      (AllAddresses() - s.enqueued, |s.work| decreases to AllAddresses() - s'.enqueued, |s'.work|)
  {
    var s' := VisitAt(g, s, |s.work| - 1);
    assert s'.enqueued != s.enqueued ==> exists t :: t in s'.enqueued && t !in s.enqueued;
  }

  lemma DrainStops(g: Graph, cap: nat, s: State)
    requires s.work == [] || |s.visited| >= cap
    ensures Drain(g, cap, s) == Outcome(s.visited, s.work != [])
  {
  }

  lemma PendingIsFresh(g: Graph, roots: set<Address>, s: State)
    requires Inv(g, roots, s) && s.work != []
    ensures var a := s.work[|s.work| - 1]; a !in s.visited && Due(g, roots, s.visited, a)
  {
    hide ReachableWithin, Due;
    assert s.work[|s.work| - 1] in s.work;
  }

  lemma {:induction false} DrainKeeps(g: Graph, roots: set<Address>, cap: nat, s: State)
    requires Inv(g, roots, s) && |s.visited| <= cap
    ensures IsDrained(g, roots, cap, s.visited, Drain(g, cap, s))
    decreases AllAddresses() - s.enqueued, |s.work|
  {
    hide Drain, VisitAt, Inv, ReachableSet, AllAddresses, ReachableWithin;
    if s.work == [] || |s.visited| >= cap {
      DrainStops(g, cap, s);
      StoppedIsDrained(g, roots, cap, s);
    } else {
      DrainStep(g, cap, s);
      VisitInv(g, roots, s, |s.work| - 1);
      DrainKeeps(g, roots, cap, VisitAt(g, s, |s.work| - 1));
    }
  }

  lemma StoppedIsDrained(g: Graph, roots: set<Address>, cap: nat, s: State)
    requires Inv(g, roots, s) && |s.visited| <= cap
    requires s.work == [] || |s.visited| >= cap
    ensures IsDrained(g, roots, cap, s.visited, Outcome(s.visited, s.work != []))
  {
    hide ReachableWithin, Reachable, Due, Distinct;
    VisitedIsReachable(g, roots, s);
    if s.work == [] {
      EmptyIsReachable(g, roots, s);
    }
  }

  /**
   The stack-driven loop: it only visits reachable addresses, never more than the cap allows, and it
   visits all of them if and only if there are no more than the cap.  Truncation is reported when there
   are more and not when there are fewer; at exactly the cap it only says whether rejected addresses
   were left, and all have been visited either way.
   */
  lemma DrainIsReachable(g: Graph, roots: set<Address>, cap: nat, s: State)
    requires Inv(g, roots, s) && |s.visited| <= cap
    ensures var o := Drain(g, cap, s);
      && IsDrained(g, roots, cap, s.visited, o)
      && (o.visited == ReachableSet(g, roots) <==> |ReachableSet(g, roots)| <= cap)
      && (|ReachableSet(g, roots)| < cap ==> !o.truncated)
      && (|ReachableSet(g, roots)| > cap ==> o.truncated)
  {
    hide Drain, Inv, ReachableSet;
    DrainKeeps(g, roots, cap, s);
    SubsetSize(Drain(g, cap, s).visited, ReachableSet(g, roots));
  }

  lemma SubsetSize(a: set<Address>, b: set<Address>)
    requires a <= b
    ensures |a| <= |b| && (|a| == |b| ==> a == b)
  {
    assert b == a + (b - a);
  }

  // ------------------------------------------------------------------ a loop that drains

  /** A state a worklist loop may be in: it will still drain to what it set out for. */
  ghost predicate Searching(g: Graph, roots: seq<Address>, cap: nat, s: State) {
    Inv(g, Elements(roots), s) && Drain(g, cap, s) == Drain(g, cap, Start(roots))
  }

  /** The state once the most recently scheduled address, not visited before, was processed. */
  ghost function AfterPop(g: Graph, s: State): State
    requires s.work != []
  {
    var a, below := s.work[|s.work| - 1], s.work[..|s.work| - 1];
    if g.accepts(a) then ScheduleAll(State(s.visited + {a}, s.enqueued, below), g.next(a))
    else State(s.visited, s.enqueued, below)
  }

  lemma PopRejects(g: Graph, s: State)
    requires s.work != [] && !g.accepts(s.work[|s.work| - 1])
    ensures AfterPop(g, s) == State(s.visited, s.enqueued, s.work[..|s.work| - 1])
  {
  }

  lemma PopAccepts(g: Graph, s: State)
    requires s.work != [] && g.accepts(s.work[|s.work| - 1])
    ensures var a, below := s.work[|s.work| - 1], s.work[..|s.work| - 1];
      AfterPop(g, s) == ScheduleAll(State(s.visited + {a}, s.enqueued, below), g.next(a))
  {
  }

  lemma SearchStarts(g: Graph, roots: seq<Address>, cap: nat)
    ensures Searching(g, roots, cap, Start(roots))
  {
    StartInv(g, roots);
  }

  lemma SearchStep(g: Graph, roots: seq<Address>, cap: nat, s: State)
    requires Searching(g, roots, cap, s) && s.work != [] && |s.visited| < cap
    ensures var a, s' := s.work[|s.work| - 1], AfterPop(g, s);
      && a !in s.visited
      && Due(g, Elements(roots), s.visited, a)
      && Searching(g, roots, cap, s')
      && (AllAddresses() - s.enqueued, |s.work| decreases to AllAddresses() - s'.enqueued, |s'.work|)
  {
    hide Inv, Drain, VisitAt, ScheduleAll, Due, Start;
    DrainStep(g, cap, s);
    VisitInv(g, Elements(roots), s, |s.work| - 1);
    PendingIsFresh(g, Elements(roots), s);
    VisitTop(g, s);
  }

  lemma SearchEnds(g: Graph, roots: seq<Address>, cap: nat, s: State)
    requires Searching(g, roots, cap, s) && (s.work == [] || |s.visited| >= cap)
    ensures Drain(g, cap, Start(roots)) == Outcome(s.visited, s.work != [])
  {
    hide Inv;
    DrainStops(g, cap, s);
  }

  // ------------------------------------------------------------------ any order

  ghost predicate IsStep(g: Graph, s: State, s': State) {
    exists i :: 0 <= i < |s.work| && s' == VisitAt(g, s, i)
  }

  /** A run of the traversal that may take any pending address at each step. */
  ghost predicate IsTrace(g: Graph, roots: seq<Address>, trace: seq<State>) {
    && trace != []
    && trace[0] == Start(roots)
    && (forall k :: 0 < k < |trace| ==>
          IsStep(g, trace[k - 1], trace[k]))
  }

  lemma {:induction false} TraceInv(g: Graph, roots: seq<Address>, trace: seq<State>, k: nat)
    requires IsTrace(g, roots, trace) && k < |trace|
    ensures Inv(g, Elements(roots), trace[k])
    ensures |trace[k].enqueued| == |trace[k].work| + k
  {
    if k == 0 {
      StartInv(g, roots);
    } else {
      TraceInv(g, roots, trace, k - 1);
      var i: nat :| i < |trace[k - 1].work| && trace[k] == VisitAt(g, trace[k - 1], i);
      VisitInv(g, Elements(roots), trace[k - 1], i);
    }
  }

  /**
   Whatever order the worklist is drained in, the visited set is the reachable set, and the run takes
   exactly one step for every address ever scheduled: none is processed twice.
   */
  lemma AnyOrderIsReachable(g: Graph, roots: seq<Address>, trace: seq<State>)
    requires IsTrace(g, roots, trace) && trace[|trace| - 1].work == []
    ensures trace[|trace| - 1].visited == ReachableSet(g, Elements(roots))
    ensures |trace| == 1 + |trace[|trace| - 1].enqueued|
  {
    TraceInv(g, roots, trace, |trace| - 1);
    EmptyIsReachable(g, Elements(roots), trace[|trace| - 1]);
  }
}
