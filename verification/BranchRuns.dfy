/** The engine's branch cursor against the convergence walk. A branch starts with an
    empty stack and knows nothing of the groups around its block; the walk starts with
    the block's whole group chain. No run of an accepted branch goes wrong; that some run joins takes
    more than the walk looks for, because a branch passes a nested join only after its own fork.

    Sources: internal/workflow/engine/branch.go:72-127, internal/workflow/engine/engine.go:987-1069,
    internal/workflow/engine/fork.go:41-53, internal/workflow/engine/join.go:134-180 and 232-255. */
module BranchRuns {
  import opened Wrappers
  import opened WorkflowTree
  import opened WorkflowGraph
  import opened Kernel
  import opened Worklist
  import opened Convergence

  /** What one committed transition leaves behind. `fork` is the block whose execution, forked by this
      branch and not completed yet, joins where the cursor stands: the cursor does not move before
      it joined. `Hidden` is a run that came to a node whose definition hides its routing: what follows cannot be
      told. `Ended` is traversal finishing before the join and `Lost` a cursor on an unknown node or
      group: both are what validation must exclude. */
  datatype BranchState = At(c: Cursor, fork: Option<Id>) | Joined | Failed | Hidden | Ended | Lost

  function Arrive(end: Id, c: Cursor): BranchState {
    if c.node == end then Joined else At(c, None)
  }

  /** kernel.Advance on the branch's own frame, then the branch checkpoint. */
  function Advanced(loc: Index, end: Id, next: Id, stack: seq<Id>): BranchState {
    match Climb(loc, next, stack, 0)
    case Landed(node, st, _) => if node == "" then Ended else Arrive(end, Cursor(node, st))
    case UnknownGroup(_, _) => Lost
  }

  /** Outcomes of running the executor of a task-like node. */
  predicate Executed(loc: Index, end: Id, n: Node, stack: seq<Id>, r: BranchState) {
    r == Advanced(loc, end, n.next, stack) || FailureRouted(loc, end, n, stack, r)
  }

  predicate FailureRouted(loc: Index, end: Id, n: Node, stack: seq<Id>, r: BranchState) {
    n.onFailure.Some? && r == Advanced(loc, end, n.onFailure.value, stack)
  }

  /** A condition without a key finishes with no target; a key picks its scope's target. */
  function Matched(loc: Index, end: Id, l: Located, key: string, stack: seq<Id>): BranchState {
    if key == "" then Advanced(loc, end, "", stack)
    else if key in l.keys then Advanced(loc, end, l.keys[key], stack)
    else Failed
  }

  /** One committed transition of a branch whose block joins at `end`; `ready` are the nested blocks
      whose executions become ready to join. Any node may fail for reasons of its own; a waiting node
      may first park where it is. A parallel_end without an open execution of the branch's own only
      fails, and one with an open execution waits for it. */
  predicate BranchMove(loc: Index, end: Id, ready: set<Id>, c: Cursor, fork: Option<Id>, r: BranchState) {
    if c.node == end then r == Joined
    else if c.node !in loc then r == Lost
    else if Opaque(loc[c.node].node) then r == Hidden
    else
      var l := loc[c.node];
      var n := l.node;
      || r == Failed
      || (n.waits && r == At(c, fork))
      || match n.typ
         case Group => n.group.Some? && r == Arrive(end, Cursor(n.group.value.start, c.stack + [n.id]))
         case Input => r == At(c, fork) || r == Advanced(loc, end, n.next, c.stack)
         case ParallelStart => r == At(Cursor(n.endNode, c.stack), Some(n.id))
         case ParallelEnd =>
           fork.Some? && (r == At(c, fork) || (fork.value in ready && r == Advanced(loc, end, n.next, c.stack)))
         case Conditions =>
           (exists key :: key in n.conditions && r == Matched(loc, end, l, key, c.stack))
           || FailureRouted(loc, end, n, c.stack, r)
         case _ => Executed(loc, end, n, c.stack, r)
  }

  ghost predicate IsRun(loc: Index, end: Id, ready: set<Id>, target: Id, run: seq<BranchState>) {
    && run != [] && run[0] == At(Cursor(target, []), None)
    && forall i | 0 <= i < |run| - 1 :: run[i].At? && BranchMove(loc, end, ready, run[i].c, run[i].fork, run[i + 1])
  }

  /** A branch cursor as the walk sees it: the groups around the block come first. */
  function Whole(s: Located, c: Cursor): Cursor {
    Cursor(c.node, s.stack + c.stack)
  }

  // Parsing only accepts on_failure on calls, pollers and registered custom types.
  predicate FailureRoutesAllowed(loc: Index) {
    forall id | id in loc && loc[id].node.onFailure.Some? ::
      loc[id].node.typ.ExternalCall? || loc[id].node.typ.Poller? || loc[id].node.typ.Custom?
  }

  // ---- The walk, with the joins a branch cannot pass ----

  /** A walk cursor with the block, if any, whose start it just jumped from. */
  datatype Stance = Stance(c: Cursor, fork: Option<Id>)

  /** At a parallel_end that was not entered from the start of a block that becomes ready. */
  predicate Barred(loc: Index, ready: set<Id>, t: Stance)
    requires t.c.node in loc
  {
    loc[t.c.node].node.typ.ParallelEnd? && !(t.fork.Some? && t.fork.value in ready)
  }

  function ForkAfter(loc: Index, c: Cursor): Option<Id>
    requires c.node in loc
  {
    if loc[c.node].node.typ.ParallelStart? then Some(loc[c.node].node.id) else None
  }

  function Onward(loc: Index, s: Located, ready: set<Id>, t: Stance): set<Stance> {
    if t.c.node !in loc || Barred(loc, ready, t) then {}
    else set d | d in Next(loc, s, t.c) :: Stance(d, ForkAfter(loc, t.c))
  }

  function OnwardSteps(loc: Index, s: Located, ready: set<Id>): Stance -> set<Stance> {
    t => Onward(loc, s, ready, t)
  }

  function Outset(s: Located, target: Id): Stance {
    Stance(BranchEntry(s, target), None)
  }

  /** `t` lies on a path of the walk on which every foreign join is entered from its own start. */
  ghost predicate Passable(loc: Index, s: Located, ready: set<Id>, target: Id, t: Stance) {
    Reachable(OnwardSteps(loc, s, ready), Outset(s, target), t)
  }

  predicate CleanOrBarred(loc: Index, s: Located, ready: set<Id>, t: Stance) {
    Clean(loc, s, t.c) || (t.c.node in loc && Barred(loc, ready, t))
  }

  ghost predicate AllPassableClean(loc: Index, s: Located, ready: set<Id>, target: Id) {
    forall t | Passable(loc, s, ready, target, t) :: CleanOrBarred(loc, s, ready, t)
  }

  /** The join lies on such a path. */
  ghost predicate JoinPassable(loc: Index, s: Located, ready: set<Id>, target: Id) {
    exists t :: Passable(loc, s, ready, target, t) && t.c.node == s.node.endNode
  }

  /** The walk visits every cursor of such a path. */
  lemma {:induction false} PassableIsInBranch(loc: Index, s: Located, ready: set<Id>, target: Id, p: seq<Stance>)
    requires IsPath(OnwardSteps(loc, s, ready), p) && p[0] == Outset(s, target)
    ensures InBranch(loc, s, target, p[|p| - 1].c)
    decreases |p|
  {
    if |p| == 1 {
      ReachesItself(Steps(loc, s), BranchEntry(s, target));
    } else {
      var init := p[..|p| - 1];
      PathPrefix(OnwardSteps(loc, s, ready), p);
      PassableIsInBranch(loc, s, ready, target, init);
      ReachesNext(Steps(loc, s), BranchEntry(s, target), init[|init| - 1].c, p[|p| - 1].c);
    }
  }

  lemma AcceptedPassableIsClean(loc: Index, s: Located, ready: set<Id>, target: Id)
    requires AllClean(loc, s, target)
    ensures AllPassableClean(loc, s, ready, target)
  {
    forall t | Passable(loc, s, ready, target, t)
      ensures CleanOrBarred(loc, s, ready, t)
    {
      var p :| IsPath(OnwardSteps(loc, s, ready), p) && p[0] == Outset(s, target) && p[|p| - 1] == t;
      PassableIsInBranch(loc, s, ready, target, p);
    }
  }

  // ---- Soundness ----

  ghost predicate Safe(loc: Index, s: Located, ready: set<Id>, target: Id, r: BranchState) {
    match r
    case At(c, fork) => Passable(loc, s, ready, target, Stance(Whole(s, c), fork)) && OnChain(loc, Whole(s, c))
    case Joined => JoinPassable(loc, s, ready, target)
    case Failed => true
    case Hidden => true
    case _ => false
  }

  /** The cursor may move: it is known, transparent, not at the join and not barred. */
  predicate Free(loc: Index, s: Located, ready: set<Id>, c: Cursor, fork: Option<Id>) {
    c.node in loc && c.node != s.node.endNode && !Opaque(loc[c.node].node) && !Barred(loc, ready, Stance(Whole(s, c), fork))
  }

  /** A route the walk can follow is one the branch's own frame follows to the same place. */
  lemma RouteIsSafe(loc: Index, s: Located, ready: set<Id>, target: Id, c: Cursor, fork: Option<Id>, next: Id)
    requires Consistent(loc) && AllPassableClean(loc, s, ready, target)
    requires Safe(loc, s, ready, target, At(c, fork)) && Free(loc, s, ready, c, fork)
    requires Some(next) in Routes(loc[c.node]) && !loc[c.node].node.typ.ParallelStart?
    ensures Safe(loc, s, ready, target, Advanced(loc, s.node.endNode, next, c.stack))
  {
    var w := Whole(s, c);
    assert CleanOrBarred(loc, s, ready, Stance(w, fork));
    LandsAboveBase(loc, s, c, next);
    var r := Climb(loc, next, c.stack, 0);
    StepIsSafe(loc, s, ready, target, c, fork, Cursor(r.next, r.stack));
  }

  lemma LandsAboveBase(loc: Index, s: Located, c: Cursor, next: Id)
    requires c.node in loc && AllLand(loc, s, Whole(s, c)) && Some(next) in Routes(loc[c.node])
    ensures var r := Climb(loc, next, c.stack, 0);
            r.Landed? && r.next != "" && Whole(s, Cursor(r.next, r.stack)) in Landings(loc, s, Whole(s, c))
  {
    ClimbAboveBase(loc, next, s.stack, c.stack);
    assert Landing(loc, Some(next), Whole(s, c).stack, |s.stack|).Some?;
  }

  lemma StepIsSafe(loc: Index, s: Located, ready: set<Id>, target: Id, c: Cursor, fork: Option<Id>, d: Cursor)
    requires Consistent(loc) && Safe(loc, s, ready, target, At(c, fork)) && Free(loc, s, ready, c, fork)
    requires Whole(s, d) in Next(loc, s, Whole(s, c))
    ensures Safe(loc, s, ready, target, At(d, ForkAfter(loc, c)))
    ensures !loc[c.node].node.typ.ParallelStart? ==> Safe(loc, s, ready, target, Arrive(s.node.endNode, d))
  {
    var t, u := Stance(Whole(s, c), fork), Stance(Whole(s, d), ForkAfter(loc, c));
    assert u in Onward(loc, s, ready, t);
    ReachesNext(OnwardSteps(loc, s, ready), Outset(s, target), t, u);
    NextStaysOnChain(loc, s, Whole(s, c), Whole(s, d));
  }

  lemma MatchIsSafe(loc: Index, s: Located, ready: set<Id>, target: Id, c: Cursor, fork: Option<Id>, key: string)
    requires Consistent(loc) && AllPassableClean(loc, s, ready, target)
    requires Safe(loc, s, ready, target, At(c, fork)) && Free(loc, s, ready, c, fork)
    requires loc[c.node].node.typ.Conditions? && key in loc[c.node].node.conditions
    ensures Safe(loc, s, ready, target, Matched(loc, s.node.endNode, loc[c.node], key, c.stack))
  {
    var l := loc[c.node];
    assert CleanOrBarred(loc, s, ready, Stance(Whole(s, c), fork));
    var i :| 0 <= i < |l.node.conditions| && l.node.conditions[i] == key;
    assert Routes(l)[i] == KeyRoute(l, key);
    assert Routes(l)[i] in Routes(l);
    RouteIsSafe(loc, s, ready, target, c, fork, KeyRoute(l, key).value);
  }

  lemma FailureIsSafe(loc: Index, s: Located, ready: set<Id>, target: Id, c: Cursor, fork: Option<Id>)
    requires Consistent(loc) && AllPassableClean(loc, s, ready, target)
    requires Safe(loc, s, ready, target, At(c, fork)) && Free(loc, s, ready, c, fork)
    requires loc[c.node].node.onFailure.Some? && !loc[c.node].node.typ.ParallelStart?
    ensures Safe(loc, s, ready, target, Advanced(loc, s.node.endNode, loc[c.node].node.onFailure.value, c.stack))
  {
    var l := loc[c.node];
    assert Routes(l)[|Finishes(l)|] == Some(l.node.onFailure.value);
    RouteIsSafe(loc, s, ready, target, c, fork, l.node.onFailure.value);
  }

  lemma DescentIsSafe(loc: Index, s: Located, ready: set<Id>, target: Id, c: Cursor, fork: Option<Id>)
    requires Consistent(loc) && AllPassableClean(loc, s, ready, target)
    requires Safe(loc, s, ready, target, At(c, fork)) && Free(loc, s, ready, c, fork)
    ensures var n := loc[c.node].node;
            && (n.typ.Group? && n.group.Some? ==>
                  Safe(loc, s, ready, target, Arrive(s.node.endNode, Cursor(n.group.value.start, c.stack + [n.id]))))
            && (n.typ.ParallelStart? ==> Safe(loc, s, ready, target, At(Cursor(n.endNode, c.stack), Some(n.id))))
  {
    var w, n := Whole(s, c), loc[c.node].node;
    assert CleanOrBarred(loc, s, ready, Stance(w, fork)) && NodeConsistent(loc, c.node);
    if n.typ.Group? && n.group.Some? {
      var d := Cursor(n.group.value.start, c.stack + [n.id]);
      assert s.stack + (c.stack + [n.id]) == w.stack + [n.id];
      StepIsSafe(loc, s, ready, target, c, fork, d);
    } else if n.typ.ParallelStart? {
      StepIsSafe(loc, s, ready, target, c, fork, Cursor(n.endNode, c.stack));
    }
  }

  lemma MoveIsSafe(loc: Index, s: Located, ready: set<Id>, target: Id, c: Cursor, fork: Option<Id>, r: BranchState)
    requires Consistent(loc) && AllPassableClean(loc, s, ready, target)
    requires Safe(loc, s, ready, target, At(c, fork)) && BranchMove(loc, s.node.endNode, ready, c, fork, r)
    ensures Safe(loc, s, ready, target, r)
  {
    var end, t := s.node.endNode, Stance(Whole(s, c), fork);
    assert CleanOrBarred(loc, s, ready, t);
    if c.node != end && r != Failed && r != Hidden && r != At(c, fork) {
      var l := loc[c.node];
      var n := l.node;
      assert Free(loc, s, ready, c, fork);
      if n.typ.Group? || n.typ.ParallelStart? {
        DescentIsSafe(loc, s, ready, target, c, fork);
      } else if n.onFailure.Some? && r == Advanced(loc, end, n.onFailure.value, c.stack) {
        FailureIsSafe(loc, s, ready, target, c, fork);
      } else if n.typ.Conditions? {
        var key :| key in n.conditions && r == Matched(loc, end, l, key, c.stack);
        MatchIsSafe(loc, s, ready, target, c, fork, key);
      } else {
        assert Routes(l)[0] == Some(n.next);
        RouteIsSafe(loc, s, ready, target, c, fork, n.next);
      }
    }
  }

  lemma {:induction false} RunsArePassable(loc: Index, s: Located, ready: set<Id>, target: Id, run: seq<BranchState>)
    requires Consistent(loc) && SameScope(loc, s, target)
    requires AllPassableClean(loc, s, ready, target) && IsRun(loc, s.node.endNode, ready, target, run)
    ensures forall i | 0 <= i < |run| :: Safe(loc, s, ready, target, run[i])
    decreases |run|
  {
    if |run| == 1 {
      ReachesItself(OnwardSteps(loc, s, ready), Outset(s, target));
      assert Whole(s, Cursor(target, [])) == BranchEntry(s, target);
    } else {
      var init := run[..|run| - 1];
      assert forall i | 0 <= i < |init| :: init[i] == run[i];
      RunsArePassable(loc, s, ready, target, init);
      var k := |run| - 2;
      assert run[k].At? && BranchMove(loc, s.node.endNode, ready, run[k].c, run[k].fork, run[k + 1]);
      assert init[k] == run[k];
      MoveIsSafe(loc, s, ready, target, run[k].c, run[k].fork, run[k + 1]);
    }
  }

  /** What the walk promises about a state of a branch. */
  ghost predicate OnWalk(loc: Index, s: Located, target: Id, r: BranchState) {
    match r
    case At(c, _) => InBranch(loc, s, target, Whole(s, c)) && OnChain(loc, Whole(s, c))
    case Joined => JoinInBranch(loc, s, target)
    case Failed => true
    case Hidden => true
    case _ => false
  }

  /** Convergence is sound: in every run of an accepted branch, whatever nested blocks become ready,
      the cursor's stack is the walk's stack without the block's own chain, the node is known, and
      traversal never ends before the join. */
  lemma RunsAreSafe(loc: Index, s: Located, ready: set<Id>, target: Id, run: seq<BranchState>)
    requires Consistent(loc) && SameScope(loc, s, target)
    requires AllClean(loc, s, target) && IsRun(loc, s.node.endNode, ready, target, run)
    ensures forall i | 0 <= i < |run| :: OnWalk(loc, s, target, run[i])
  {
    AcceptedPassableIsClean(loc, s, ready, target);
    RunsArePassable(loc, s, ready, target, run);
    forall i | 0 <= i < |run|
      ensures OnWalk(loc, s, target, run[i])
    {
      assert Safe(loc, s, ready, target, run[i]);
      SafeIsOnWalk(loc, s, ready, target, run[i]);
    }
  }

  lemma SafeIsOnWalk(loc: Index, s: Located, ready: set<Id>, target: Id, r: BranchState)
    requires Safe(loc, s, ready, target, r)
    ensures OnWalk(loc, s, target, r)
  {
    if r.At? || r.Joined? {
      var t :| Passable(loc, s, ready, target, t) &&
               (if r.At? then t == Stance(Whole(s, r.c), r.fork) else t.c.node == s.node.endNode);
      var p :| IsPath(OnwardSteps(loc, s, ready), p) && p[0] == Outset(s, target) && p[|p| - 1] == t;
      PassableIsInBranch(loc, s, ready, target, p);
    }
  }

  // ---- Completeness ----

  /** No run ends early, gets lost or starts the block inside itself, and some run joins. */
  ghost predicate AllRunsSafe(loc: Index, s: Located, ready: set<Id>, target: Id) {
    && (forall run | IsRun(loc, s.node.endNode, ready, target, run) :: Harmless(loc, s, run[|run| - 1]))
    && RunTo(loc, s, ready, target, Joined)
  }

  predicate Harmless(loc: Index, s: Located, r: BranchState) {
    && !r.Ended? && !r.Lost?
    && (r.At? && r.c.node != s.node.endNode && r.c.node in loc ==>
          Opaque(loc[r.c.node].node) || !OwnStart(s, loc[r.c.node].node))
  }

  ghost predicate RunTo(loc: Index, s: Located, ready: set<Id>, target: Id, r: BranchState) {
    exists run :: IsRun(loc, s.node.endNode, ready, target, run) && run[|run| - 1] == r
  }

  /** The state a run has reached when it stands at `c` after `fork`, or has joined there. */
  function Reached(end: Id, c: Cursor, fork: Option<Id>): BranchState {
    if c.node == end then Joined else At(c, fork)
  }

  lemma Extend(loc: Index, s: Located, ready: set<Id>, target: Id, c: Cursor, fork: Option<Id>, r: BranchState)
    requires RunTo(loc, s, ready, target, At(c, fork)) && BranchMove(loc, s.node.endNode, ready, c, fork, r)
    ensures RunTo(loc, s, ready, target, r)
  {
    var run :| IsRun(loc, s.node.endNode, ready, target, run) && run[|run| - 1] == At(c, fork);
    var longer := run + [r];
    assert forall i | 0 <= i < |run| :: longer[i] == run[i];
    assert IsRun(loc, s.node.endNode, ready, target, longer);
  }

  /** Every route of a node that is not barred is one the engine can take. */
  lemma RouteIsTaken(loc: Index, s: Located, ready: set<Id>, c: Cursor, fork: Option<Id>, r: Option<Id>)
    requires Closed(loc) && FailureRoutesAllowed(loc)
    requires Free(loc, s, ready, c, fork) && r in Routes(loc[c.node])
    ensures r.Some? && BranchMove(loc, s.node.endNode, ready, c, fork, Advanced(loc, s.node.endNode, r.value, c.stack))
  {
    var l := loc[c.node];
    assert NodeClosed(loc, c.node);
    if r in Finishes(l) && l.node.typ.Conditions? {
      var i :| 0 <= i < |l.node.conditions| && r == KeyRoute(l, l.node.conditions[i]);
      var key := l.node.conditions[i];
      assert key in l.node.conditions;
      assert Matched(loc, s.node.endNode, l, key, c.stack) == Advanced(loc, s.node.endNode, r.value, c.stack);
    }
  }

  lemma StepIsTaken(loc: Index, s: Located, ready: set<Id>, target: Id, b: Cursor, fork: Option<Id>, d: Cursor) returns (c: Cursor)
    requires Closed(loc) && FailureRoutesAllowed(loc)
    requires RunTo(loc, s, ready, target, At(b, fork)) && Free(loc, s, ready, b, fork) && d in Next(loc, s, Whole(s, b))
    ensures Whole(s, c) == d && RunTo(loc, s, ready, target, Reached(s.node.endNode, c, ForkAfter(loc, b)))
  {
    var l, end := loc[b.node], s.node.endNode;
    var n := l.node;
    if d in Jumps(n, s.stack + b.stack) {
      if n.typ.ParallelStart? {
        c := Cursor(n.endNode, b.stack);
        Extend(loc, s, ready, target, b, fork, At(c, Some(n.id)));
        if c.node == end {
          Extend(loc, s, ready, target, c, Some(n.id), Joined);
        }
      } else {
        c := Cursor(n.group.value.start, b.stack + [n.id]);
        assert s.stack + (b.stack + [n.id]) == s.stack + b.stack + [n.id];
        Extend(loc, s, ready, target, b, fork, Arrive(end, c));
      }
    } else {
      var r :| r in Routes(l) && Landing(loc, r, s.stack + b.stack, |s.stack|) == Some(d);
      ClimbAboveBase(loc, r.value, s.stack, b.stack);
      var out := Climb(loc, r.value, b.stack, 0);
      c := Cursor(out.next, out.stack);
      RouteIsTaken(loc, s, ready, b, fork, r);
      Extend(loc, s, ready, target, b, fork, Arrive(end, c));
    }
  }

  /** Every stance on a passable path is, minus the block's own chain, one that some run reaches. */
  lemma {:induction false} WalksAreRuns(loc: Index, s: Located, ready: set<Id>, target: Id, p: seq<Stance>) returns (c: Cursor)
    requires Closed(loc) && FailureRoutesAllowed(loc)
    requires IsPath(OnwardSteps(loc, s, ready), p) && p[0] == Outset(s, target)
    ensures Whole(s, c) == p[|p| - 1].c
    ensures RunTo(loc, s, ready, target, Reached(s.node.endNode, c, p[|p| - 1].fork))
    decreases |p|
  {
    if |p| == 1 {
      c := Cursor(target, []);
      assert IsRun(loc, s.node.endNode, ready, target, [At(c, None)]);
      if target == s.node.endNode {
        Extend(loc, s, ready, target, c, None, Joined);
      }
    } else {
      PathPrefix(OnwardSteps(loc, s, ready), p);
      var b := WalksAreRuns(loc, s, ready, target, p[..|p| - 1]);
      var t := p[|p| - 2];
      assert p[|p| - 1] in Onward(loc, s, ready, t);
      c := StepIsTaken(loc, s, ready, target, b, t.fork, p[|p| - 1].c);
    }
  }

  /** A stance where the walk would stop with an error, and which is passable, is one from which a run
      goes wrong. */
  lemma UncleanIsUnsafe(loc: Index, s: Located, ready: set<Id>, target: Id, t: Stance)
    requires Closed(loc) && FailureRoutesAllowed(loc)
    requires AllRunsSafe(loc, s, ready, target) && Passable(loc, s, ready, target, t)
    ensures CleanOrBarred(loc, s, ready, t)
  {
    var p :| IsPath(OnwardSteps(loc, s, ready), p) && p[0] == Outset(s, target) && p[|p| - 1] == t;
    var c := WalksAreRuns(loc, s, ready, target, p);
    var end := s.node.endNode;
    if c.node != end {
      if c.node !in loc {
        Extend(loc, s, ready, target, c, t.fork, Lost);
        assert false;
      }
      if !Opaque(loc[c.node].node) && !Barred(loc, ready, t) {
        forall r | r in Routes(loc[c.node])
          ensures Landing(loc, r, t.c.stack, |s.stack|).Some?
        {
          RouteIsTaken(loc, s, ready, c, t.fork, r);
          Extend(loc, s, ready, target, c, t.fork, Advanced(loc, end, r.value, c.stack));
          ClimbAboveBase(loc, r.value, s.stack, c.stack);
        }
      }
    }
  }

  /** All runs of a branch are safe and one joins exactly when every passable stance is clean and the
      join is passable. */
  lemma RunsAreSafeExactly(loc: Index, s: Located, ready: set<Id>, target: Id)
    requires Consistent(loc) && Closed(loc) && FailureRoutesAllowed(loc)
    requires SameScope(loc, s, target)
    ensures AllRunsSafe(loc, s, ready, target) <==>
            AllPassableClean(loc, s, ready, target) && JoinPassable(loc, s, ready, target)
  {
    if AllPassableClean(loc, s, ready, target) && JoinPassable(loc, s, ready, target) {
      forall run | IsRun(loc, s.node.endNode, ready, target, run)
        ensures Harmless(loc, s, run[|run| - 1])
      {
        PassableIsHarmless(loc, s, ready, target, run);
      }
      JoinIsReached(loc, s, ready, target);
    }
    if AllRunsSafe(loc, s, ready, target) {
      forall t | Passable(loc, s, ready, target, t)
        ensures CleanOrBarred(loc, s, ready, t)
      {
        UncleanIsUnsafe(loc, s, ready, target, t);
      }
      var run :| IsRun(loc, s.node.endNode, ready, target, run) && run[|run| - 1] == Joined;
      RunsArePassable(loc, s, ready, target, run);
      assert Safe(loc, s, ready, target, run[|run| - 1]);
    }
  }

  lemma PassableIsHarmless(loc: Index, s: Located, ready: set<Id>, target: Id, run: seq<BranchState>)
    requires Consistent(loc) && SameScope(loc, s, target)
    requires AllPassableClean(loc, s, ready, target) && IsRun(loc, s.node.endNode, ready, target, run)
    ensures Harmless(loc, s, run[|run| - 1])
  {
    RunsArePassable(loc, s, ready, target, run);
    var r := run[|run| - 1];
    assert Safe(loc, s, ready, target, r);
    if r.At? {
      assert CleanOrBarred(loc, s, ready, Stance(Whole(s, r.c), r.fork));
    }
  }

  lemma JoinIsReached(loc: Index, s: Located, ready: set<Id>, target: Id)
    requires Closed(loc) && FailureRoutesAllowed(loc) && JoinPassable(loc, s, ready, target)
    ensures RunTo(loc, s, ready, target, Joined)
  {
    var t :| Passable(loc, s, ready, target, t) && t.c.node == s.node.endNode;
    var p :| IsPath(OnwardSteps(loc, s, ready), p) && p[0] == Outset(s, target) && p[|p| - 1] == t;
    var c := WalksAreRuns(loc, s, ready, target, p);
  }

  /** Acceptance against what runs do. An accepted branch is safe and has a run that joins if and only
      if the join is passable; a branch whose runs are safe is accepted if and only if the walk finds
      no error behind a join that no run passes. */
  lemma ConvergesExactly(loc: Index, s: Located, ready: set<Id>, target: Id)
    requires Consistent(loc) && Closed(loc) && FailureRoutesAllowed(loc)
    requires SameScope(loc, s, target)
    ensures Converges(loc, s, target) ==>
              (AllRunsSafe(loc, s, ready, target) <==> JoinPassable(loc, s, ready, target))
    ensures AllRunsSafe(loc, s, ready, target) ==>
              (Converges(loc, s, target) <==> ImpassableIsClean(loc, s, ready, target))
  {
    RunsAreSafeExactly(loc, s, ready, target);
    if Converges(loc, s, target) {
      AcceptedPassableIsClean(loc, s, ready, target);
    }
    if AllRunsSafe(loc, s, ready, target) {
      SafeIsOnWalk(loc, s, ready, target, Joined);
    }
  }

  /** Cursors that the walk visits but no run can stand on, or stands on without passing, are clean. */
  ghost predicate ImpassableIsClean(loc: Index, s: Located, ready: set<Id>, target: Id) {
    forall w | InBranch(loc, s, target, w) && !PassedAt(loc, s, ready, target, w) :: Clean(loc, s, w)
  }

  ghost predicate PassedAt(loc: Index, s: Located, ready: set<Id>, target: Id, w: Cursor) {
    exists t :: Passable(loc, s, ready, target, t) && t.c == w && (w.node in loc ==> !Barred(loc, ready, t))
  }

  // ---- Branches that enter no foreign join directly ----

  /** Every foreign join on the branch is entered from a start only. */
  ghost predicate JoinsEnteredByForks(loc: Index, s: Located, target: Id) {
    && !ForeignJoin(loc, s, target)
    && forall c, d | InBranch(loc, s, target, c) && d in Next(loc, s, c) && ForeignJoin(loc, s, d.node) ::
         loc[c.node].node.typ.ParallelStart?
  }

  predicate ForeignJoin(loc: Index, s: Located, id: Id) {
    id in loc && id != s.node.endNode && loc[id].node.typ.ParallelEnd?
  }

  /** Every block that the branch starts becomes ready to join. */
  ghost predicate NestedReady(loc: Index, s: Located, ready: set<Id>, target: Id) {
    forall q :: Nests(loc, s, target, q) ==> q in ready
  }

  /** On such a branch the walk is exact when the nested blocks become ready. */
  lemma {:induction false} WalkIsPassable(loc: Index, s: Located, ready: set<Id>, target: Id, p: seq<Cursor>) returns (fork: Option<Id>)
    requires Consistent(loc) && JoinsEnteredByForks(loc, s, target) && NestedReady(loc, s, ready, target)
    requires IsPath(Steps(loc, s), p) && p[0] == BranchEntry(s, target)
    ensures Passable(loc, s, ready, target, Stance(p[|p| - 1], fork))
    ensures ForeignJoin(loc, s, p[|p| - 1].node) ==> fork.Some? && fork.value in ready
    decreases |p|
  {
    if |p| == 1 {
      fork := None;
      ReachesItself(OnwardSteps(loc, s, ready), Outset(s, target));
    } else {
      var init := p[..|p| - 1];
      PathPrefix(Steps(loc, s), p);
      var before := WalkIsPassable(loc, s, ready, target, init);
      var c, d := init[|init| - 1], p[|p| - 1];
      assert d in Next(loc, s, c);
      assert InBranch(loc, s, target, c);
      assert NodeConsistent(loc, c.node);
      assert loc[c.node].node.typ.ParallelStart? ==> Nests(loc, s, target, c.node) by {
        assert loc[c.node].node.typ.ParallelStart? ==> StartsBlock(loc, s, c);
      }
      fork := ForkAfter(loc, c);
      assert Stance(d, fork) in Onward(loc, s, ready, Stance(c, before));
      ReachesNext(OnwardSteps(loc, s, ready), Outset(s, target), Stance(c, before), Stance(d, fork));
    }
  }

  /** Where no foreign join is entered directly and the nested blocks become ready, acceptance is exactly
      safety: no run ends or gets lost before the join, and some run joins. */
  lemma ConvergesAsRuns(loc: Index, s: Located, ready: set<Id>, target: Id)
    requires Consistent(loc) && Closed(loc) && FailureRoutesAllowed(loc)
    requires SameScope(loc, s, target) && JoinsEnteredByForks(loc, s, target) && NestedReady(loc, s, ready, target)
    ensures Converges(loc, s, target) <==> AllRunsSafe(loc, s, ready, target)
  {
    ConvergesExactly(loc, s, ready, target);
    forall w | InBranch(loc, s, target, w)
      ensures PassedAt(loc, s, ready, target, w) || w.node == s.node.endNode
      ensures w.node == s.node.endNode ==> JoinPassable(loc, s, ready, target)
    {
      var p :| IsPath(Steps(loc, s), p) && p[0] == BranchEntry(s, target) && p[|p| - 1] == w;
      var fork := WalkIsPassable(loc, s, ready, target, p);
      assert Stance(w, fork).c == w;
    }
  }
}
