/** The parent scope's cursor: it always stands on a known node with exactly that node's
    group chain, and a run without inputs and parallel blocks commits boundedly often.

    Sources: internal/workflow/engine/engine.go:140-223, 299-302, 387-447, 517-647 and 723-746,
    internal/workflow/engine/join.go:59, internal/workflow/engine/fork.go:52-53,
    internal/workflow/model/state.go:52-73, internal/workflow/service/instance.go:1641-1673 and 2263-2264. */
module ParentRuns {
  import opened WorkflowTree
  import opened WorkflowGraph
  import opened Kernel
  import opened Wrappers
  import BranchRuns

  /** What happened to the current node: how its executor, hooks, scripts and operators behaved. */
  datatype Outcome =
    | Parked                     // an arrival wait, an input wait, or a join not ready yet
    | Broken                     // a limit, hook, script or executor failure without a route
    | Succeeded                  // the node finished, an input was delivered, or a join was combined
    | Matched(key: string)       // a condition matched with this key
    | CallFailed                 // an execution failure on a node with a failure route
    | Moved(to: Id)              // input recovery or a rollback moved the cursor

  /** A failed instance keeps the cursor it was claimed with. */
  datatype ParentState = At(c: Cursor) | Finished | Failed(c: Cursor) | Lost

  function Advanced(loc: Index, next: Id, stack: seq<Id>): ParentState {
    match Climb(loc, next, stack, 0)
    case Landed(node, st, _) => if node == "" then Finished else At(Cursor(node, st))
    case UnknownGroup(_, _) => Lost
  }

  function PositionOf(loc: Index, c: Cursor, id: Id): ParentState {
    if id in loc then At(Cursor(id, loc[id].stack)) else Failed(c)
  }

  /** One committed transition of the parent scope, given what happened. */
  function Transition(loc: Index, c: Cursor, o: Outcome): ParentState {
    if o.Moved? then PositionOf(loc, c, o.to)
    else if c.node !in loc then Lost
    else
      var l := loc[c.node];
      var n := l.node;
      match o
      case Parked => At(c)
      case Broken => Failed(c)
      case CallFailed => if n.onFailure.Some? then Advanced(loc, n.onFailure.value, c.stack) else Failed(c)
      case Matched(key) =>
        if key == "" then Advanced(loc, "", c.stack)
        else if key in l.keys then Advanced(loc, l.keys[key], c.stack)
        else Failed(c)
      case _ =>
        match n.typ
        case Group => if n.group.Some? then At(Cursor(n.group.value.start, c.stack + [c.node])) else Failed(c)
        case ParallelStart => At(Cursor(n.endNode, c.stack))
        case Conditions => Failed(c)
        case _ => Advanced(loc, n.next, c.stack)
  }

  /** Outcomes the engine can meet at a node: conditions match, everything else succeeds. */
  predicate Possible(loc: Index, c: Cursor, o: Outcome) {
    o.Matched? ==> c.node in loc && loc[c.node].node.typ.Conditions?
  }

  // ---- Where an outcome leads ----

  /** Advancing along `link` from `stack`, read off the stack: to the link's own target, or to the link of the
      innermost group that has one, or to the end. */
  ghost predicate LeadsTo(loc: Index, link: Id, stack: seq<Id>, st: ParentState) {
    && (link != "" ==> st == At(Cursor(link, stack)))
    && (link == "" && AllPassed(loc, stack, 0) ==> st == Finished)
    && forall k: nat | link == "" && StopsAt(loc, stack, 0, k) ::
         st == if stack[k] in loc then At(Cursor(loc[stack[k]].node.next, stack[..k])) else Lost
  }

  lemma AdvancedLeads(loc: Index, link: Id, stack: seq<Id>)
    ensures LeadsTo(loc, link, stack, Advanced(loc, link, stack))
  {
    ClimbLands(loc, link, stack, 0);
  }

  /** A parked or failed node keeps its cursor, a failed call leads along its failure route, a condition along
      its key's target, a finished node along its link, into its group, or to its block's join. */
  ghost predicate OutcomeLeads(loc: Index, c: Cursor, o: Outcome, st: ParentState)
    requires c.node in loc && !o.Moved?
  {
    var l := loc[c.node];
    var n := l.node;
    && (o.Parked? ==> st == At(c)) && (o.Broken? ==> st == Failed(c))
    && (o.CallFailed? && n.onFailure.Some? ==> LeadsTo(loc, n.onFailure.value, c.stack, st))
    && (o.CallFailed? && n.onFailure.None? ==> st == Failed(c))
    && (o.Matched? && o.key == "" ==> LeadsTo(loc, "", c.stack, st))
    && (o.Matched? && o.key != "" && o.key in l.keys ==> LeadsTo(loc, l.keys[o.key], c.stack, st))
    && (o.Matched? && o.key != "" && o.key !in l.keys ==> st == Failed(c))
    && (o.Succeeded? && n.typ.Group? && n.group.Some? ==> st == At(Cursor(n.group.value.start, c.stack + [c.node])))
    && (o.Succeeded? && n.typ.ParallelStart? ==> st == At(Cursor(n.endNode, c.stack)))
    && (o.Succeeded? && !n.typ.Group? && !n.typ.ParallelStart? && !n.typ.Conditions? ==> LeadsTo(loc, n.next, c.stack, st))
  }

  lemma TransitionLeads(loc: Index, c: Cursor, o: Outcome)
    requires c.node in loc && !o.Moved? && Possible(loc, c, o)
    ensures OutcomeLeads(loc, c, o, Transition(loc, c, o))
  {
    var l := loc[c.node];
    if l.node.onFailure.Some? {
      AdvancedLeads(loc, l.node.onFailure.value, c.stack);
    }
    if o.Matched? && o.key in l.keys {
      AdvancedLeads(loc, l.keys[o.key], c.stack);
    }
    AdvancedLeads(loc, "", c.stack);
    AdvancedLeads(loc, l.node.next, c.stack);
  }

  /** The parent's state as that of a branch whose join is elsewhere. */
  function AsBranch(st: ParentState): BranchRuns.BranchState {
    match st
    case At(c) => BranchRuns.At(c, None)
    case Finished => BranchRuns.Ended
    case Failed(_) => BranchRuns.Failed
    case Lost => BranchRuns.Lost
  }

  /** At every node that is no boundary of a block, the parent moves as a branch on the same frame would for
      the same outcome: a failure along the failure route, a key to its target, a success along the link or into
      the group, a park in place. */
  lemma MovesLikeBranch(loc: Index, c: Cursor, o: Outcome)
    requires c.node in loc && "" !in loc && !o.Moved? && Possible(loc, c, o)
    requires var n := loc[c.node].node;
             n.id == c.node && !Opaque(n) && !n.typ.ParallelStart? && !n.typ.ParallelEnd? && NodeClosed(loc, c.node)
    ensures var l, r := loc[c.node], AsBranch(Transition(loc, c, o));
            && (o.Broken? ==> r == BranchRuns.Failed)
            && (o.CallFailed? && l.node.onFailure.Some? ==> BranchRuns.FailureRouted(loc, "", l.node, c.stack, r))
            && (o.Matched? ==> r == BranchRuns.Matched(loc, "", l, o.key, c.stack))
            && (o.Succeeded? && l.node.typ.Group? ==>
                  r == BranchRuns.Arrive("", Cursor(l.node.group.value.start, c.stack + [c.node])))
            && (o.Succeeded? && !l.node.typ.Group? && !l.node.typ.Conditions? ==>
                  r == BranchRuns.Advanced(loc, "", l.node.next, c.stack))
    ensures var n := loc[c.node].node;
            BranchRuns.FailureRoutesAllowed(loc) && (o.Parked? ==> n.waits || n.typ.Input?) && (o.Matched? ==> o.key in n.conditions) ==>
              BranchRuns.BranchMove(loc, "", {}, c, None, AsBranch(Transition(loc, c, o)))
  {
  }

  /** The same transition on the mutable frame. */
  method Step(frame: Frame, loc: Index, o: Outcome) returns (st: ParentState)
    requires Possible(loc, Cursor(frame.current, frame.stack), o)
    modifies frame
    ensures st == Transition(loc, Cursor(old(frame.current), old(frame.stack)), o)
    ensures !o.Moved? && old(frame.current) in loc ==>
              OutcomeLeads(loc, Cursor(old(frame.current), old(frame.stack)), o, st)
    ensures o.Moved? && o.to in loc ==> st == At(Cursor(o.to, loc[o.to].stack))
    ensures st.At? ==> st.c == Cursor(frame.current, frame.stack)
    ensures st.Finished? ==> frame.current == "" && frame.stack == []
  {
    var was := Cursor(frame.current, frame.stack);
    if !o.Moved? && frame.current in loc {
      TransitionLeads(loc, was, o);
    }
    if o.Moved? {
      if o.to !in loc {
        return Failed(was);
      }
      frame.current, frame.stack := o.to, loc[o.to].stack;
      return At(Cursor(frame.current, frame.stack));
    }
    if frame.current !in loc {
      return Lost;
    }
    var l := loc[frame.current];
    var n := l.node;
    var next := n.next;
    if o.Parked? {
      return At(Cursor(frame.current, frame.stack));
    } else if o.Broken? {
      return Failed(was);
    } else if o.CallFailed? {
      if n.onFailure.None? {
        return Failed(was);
      }
      next := n.onFailure.value;
    } else if o.Matched? {
      if o.key != "" && o.key !in l.keys {
        return Failed(was);
      }
      next := if o.key == "" then "" else l.keys[o.key];
    } else if n.typ.Group? {
      var entered := frame.EnterGroup(loc, frame.current);
      return if entered then At(Cursor(frame.current, frame.stack)) else Failed(was);
    } else if n.typ.ParallelStart? {
      frame.current := n.endNode;
      return At(Cursor(frame.current, frame.stack));
    } else if n.typ.Conditions? {
      return Failed(was);
    }
    ClimbEmpties(loc, next, frame.stack);
    var ok, done, _ := frame.Advance(loc, next);
    if !ok {
      return Lost;
    }
    return if done then Finished else At(Cursor(frame.current, frame.stack));
  }

  lemma {:induction false} ClimbEmpties(loc: Index, next: Id, stack: seq<Id>)
    ensures var r := Climb(loc, next, stack, 0); r.Landed? && r.next == "" ==> r.stack == []
    decreases |stack|
  {
    if next == "" && stack != [] && stack[|stack| - 1] in loc {
      ClimbEmpties(loc, loc[stack[|stack| - 1]].node.next, stack[..|stack| - 1]);
    }
  }

  // ---- The cursor invariant ----

  predicate WellPlaced(loc: Index, st: ParentState) {
    match st
    case At(c) => c.node in loc && c.stack == loc[c.node].stack
    case Failed(c) => c.node in loc && c.stack == loc[c.node].stack
    case Lost => false
    case _ => true
  }

  ghost predicate IsParentRun(wf: Workflow, run: seq<ParentState>) {
    && run != [] && run[0] == At(Cursor(wf.start, []))
    && forall i | 0 <= i < |run| - 1 :: Follows(GraphOf(wf), run[i], run[i + 1])
  }

  /** A running instance moves by whatever happens; a failed one only by a rollback. */
  ghost predicate Follows(loc: Index, a: ParentState, b: ParentState) {
    (a.At? || a.Failed?) && exists o :: Possible(loc, a.c, o) && (a.Failed? ==> o.Moved?) && b == Transition(loc, a.c, o)
  }

  lemma LinkIsPlaced(loc: Index, id: Id, next: Id)
    requires Consistent(loc) && Closed(loc) && id in loc
    requires next != "" ==> next in loc && loc[next].stack == loc[id].stack
    ensures WellPlaced(loc, Advanced(loc, next, loc[id].stack))
  {
    assert NodeConsistent(loc, id) && NodeClosed(loc, id);
    assert "" !in loc;
    ClimbStaysOnChain(loc, next, loc[id].stack, 0);
    ClimbResolves(loc, next, loc[id].stack, 0);
  }

  lemma TransitionIsPlaced(loc: Index, c: Cursor, o: Outcome)
    requires Consistent(loc) && Closed(loc) && Transparent(loc)
    requires WellPlaced(loc, At(c)) && Possible(loc, c, o)
    ensures WellPlaced(loc, Transition(loc, c, o))
  {
    var l := loc[c.node];
    var n := l.node;
    assert NodeConsistent(loc, c.node) && NodeClosed(loc, c.node);
    if o.CallFailed? && n.onFailure.Some? {
      LinkIsPlaced(loc, c.node, n.onFailure.value);
    } else if o.Matched? {
      if o.key in l.keys {
        LinkIsPlaced(loc, c.node, l.keys[o.key]);
      }
      LinkIsPlaced(loc, c.node, "");
    } else if o.Succeeded? && !n.typ.Group? && !n.typ.ParallelStart? {
      LinkIsPlaced(loc, c.node, n.next);
    }
  }

  lemma FollowerIsPlaced(loc: Index, a: ParentState, b: ParentState)
    requires Consistent(loc) && Closed(loc) && Transparent(loc) && WellPlaced(loc, a) && Follows(loc, a, b)
    ensures WellPlaced(loc, b)
  {
    var o :| Possible(loc, a.c, o) && (a.Failed? ==> o.Moved?) && b == Transition(loc, a.c, o);
    TransitionIsPlaced(loc, a.c, o);
  }

  /** In every run of an accepted definition without opaque nodes, through group entry, advance, conditions, failure
      routes, forks, joins, recovery, failure and rollback, also of a failed instance, the persisted
      cursor is on a known node and carries exactly that node's enclosing groups. */
  lemma {:induction false} CursorStaysPlaced(wf: Workflow, run: seq<ParentState>)
    requires WellParsed(wf.nodes) && ScopesAccepted(wf) && Transparent(GraphOf(wf))
    requires IsParentRun(wf, run)
    ensures forall i | 0 <= i < |run| :: WellPlaced(GraphOf(wf), run[i])
    decreases |run|
  {
    var loc := GraphOf(wf);
    AcceptedGraphIsScoped(wf);
    if |run| > 1 {
      var k := |run| - 2;
      var init := run[..k + 1];
      assert IsParentRun(wf, init) by {
        forall i | 0 <= i < |init| - 1
          ensures Follows(loc, init[i], init[i + 1])
        {
          assert Follows(loc, run[i], run[i + 1]);
        }
      }
      CursorStaysPlaced(wf, init);
      assert init[k] == run[k] && Follows(loc, run[k], run[k + 1]);
      FollowerIsPlaced(loc, run[k], run[k + 1]);
    }
  }

  // ---- Execution counters and bounded runs ----

  /** Execution counts of a scope; a limit of 0 is off. */
  class Counters {
    var total: nat
    var nodes: map<Id, nat>

    constructor ()
      ensures total == 0 && nodes == map[]
    {
      total, nodes := 0, map[];
    }

    function Count(id: Id): nat
      reads this
    {
      if id in nodes then nodes[id] else 0
    }

    /** Counts one execution of `id`, or refuses and changes nothing when a limit is reached. */
    method Record(id: Id, maxPerNode: int, maxTotal: int) returns (ok: bool)
      modifies this
      ensures ok <==> (maxPerNode <= 0 || old(Count(id)) < maxPerNode) && (maxTotal <= 0 || old(total) < maxTotal)
      ensures ok ==> total == old(total) + 1 && nodes == old(nodes)[id := old(Count(id)) + 1]
      ensures !ok ==> unchanged(this)
    {
      if maxPerNode > 0 && Count(id) + 1 > maxPerNode {
        return false;
      }
      if maxTotal > 0 && total + 1 > maxTotal {
        return false;
      }
      total := total + 1;
      nodes := nodes[id := Count(id) + 1];
      return true;
    }
  }

  /** Where a run without recovery stands between commits: the cursor, whether the node's arrival
      wait is already served, and how many executions were counted. */
  datatype Progress = Live(c: Cursor, parked: bool, total: nat) | Stopped

  /** One commit: a first arrival parks, a group is entered without being counted, and any other
      node is counted before it runs. Every commit may also be the last one. */
  ghost predicate Commits(loc: Index, maxTotal: nat, p: Progress, q: Progress) {
    && p.Live? && p.c.node in loc
    && var n := loc[p.c.node].node;
       if n.waits && !p.parked then q == Live(p.c, true, p.total)
       else if n.typ.Group? then q == Stopped || q == Resumed(Transition(loc, p.c, Succeeded), p.total)
       else
         || q == Stopped
         || ((maxTotal == 0 || p.total < maxTotal) && exists o: Outcome ::
               (o.Succeeded? || o.Matched? || o.CallFailed?) && Possible(loc, p.c, o)
               && q == Resumed(Transition(loc, p.c, o), p.total + 1))
  }

  function Resumed(st: ParentState, total: nat): Progress {
    if st.At? then Live(st.c, false, total) else Stopped
  }

  ghost predicate IsCommitRun(wf: Workflow, maxTotal: nat, run: seq<Progress>) {
    && run != [] && run[0] == Live(Cursor(wf.start, []), false, 0)
    && forall i | 0 <= i < |run| - 1 :: Commits(GraphOf(wf), maxTotal, run[i], run[i + 1])
  }

  predicate Sequential(loc: Index) {
    forall id | id in loc :: var t := loc[id].node.typ; !t.Input? && !t.ParallelStart? && !t.ParallelEnd?
  }

  predicate NestsAtMost(loc: Index, d: nat) {
    forall id | id in loc :: |loc[id].stack| <= d
  }

  /** Commits left at most: executions still allowed, then groups still enterable, then the park. */
  function Remaining(d: nat, maxTotal: nat, p: Progress): int {
    match p
    case Stopped => 0
    case Live(c, parked, total) =>
      Budget(d, if total <= maxTotal then maxTotal - total else 0) + 2 * (d - |c.stack|) + (if parked then 1 else 2)
  }

  /** The commits of `k` executions: each may be parked once, after a park and an entry per group. */
  function Budget(d: nat, k: nat): nat {
    if k == 0 then 0 else Budget(d, k - 1) + 2 * (d + 1)
  }

  lemma {:induction false} BudgetIsProduct(d: nat, k: nat)
    ensures Budget(d, k) == 2 * (d + 1) * k
  {
    if k > 0 {
      BudgetIsProduct(d, k - 1);
      OneMoreTime(2 * (d + 1), k - 1);
    }
  }

  lemma OneMoreTime(u: nat, k: nat)
    ensures u * (k + 1) == u * k + u
  {
  }

  predicate Accounted(loc: Index, maxTotal: nat, p: Progress) {
    p.Live? ==> WellPlaced(loc, At(p.c)) && p.total <= maxTotal && maxTotal > 0
  }

  lemma CommitDecreases(loc: Index, d: nat, maxTotal: nat, p: Progress, q: Progress)
    requires Consistent(loc) && Closed(loc) && Transparent(loc) && Sequential(loc) && NestsAtMost(loc, d)
    requires Accounted(loc, maxTotal, p) && Commits(loc, maxTotal, p, q)
    ensures Accounted(loc, maxTotal, q)
    ensures 0 <= Remaining(d, maxTotal, q) < Remaining(d, maxTotal, p)
  {
    var n := loc[p.c.node].node;
    assert p.total <= maxTotal && |p.c.stack| <= d;
    if n.waits && !p.parked {
    } else if n.typ.Group? {
      TransitionIsPlaced(loc, p.c, Succeeded);
    } else if q != Stopped {
      ExecutionDecreases(loc, d, maxTotal, p, q);
    }
  }

  lemma ExecutionDecreases(loc: Index, d: nat, maxTotal: nat, p: Progress, q: Progress)
    requires Consistent(loc) && Closed(loc) && Transparent(loc) && Sequential(loc) && NestsAtMost(loc, d)
    requires Accounted(loc, maxTotal, p) && p.Live? && q.Live? && p.total < maxTotal
    requires exists o: Outcome :: (o.Succeeded? || o.Matched? || o.CallFailed?) && Possible(loc, p.c, o)
                                  && q == Resumed(Transition(loc, p.c, o), p.total + 1)
    ensures Accounted(loc, maxTotal, q)
    ensures 0 <= Remaining(d, maxTotal, q) < Remaining(d, maxTotal, p)
  {
    var o :| Possible(loc, p.c, o) && q == Resumed(Transition(loc, p.c, o), p.total + 1);
    TransitionIsPlaced(loc, p.c, o);
    var st := Transition(loc, p.c, o);
    assert q == Resumed(st, p.total + 1) && st.At?;
    assert WellPlaced(loc, st) && q == Live(st.c, false, p.total + 1);
    BudgetUsed(d, maxTotal, p, q);
  }

  lemma BudgetUsed(d: nat, maxTotal: nat, p: Progress, q: Progress)
    requires p.Live? && q.Live? && !q.parked && q.total == p.total + 1 && p.total < maxTotal
    requires |p.c.stack| <= d && |q.c.stack| <= d
    ensures 0 <= Remaining(d, maxTotal, q) < Remaining(d, maxTotal, p)
  {
    assert Budget(d, maxTotal - p.total) == Budget(d, maxTotal - q.total) + 2 * (d + 1);
  }

  /** A definition without inputs and parallel blocks whose groups nest at most `d` deep commits at
      most 2(d+1)(M+1) transitions when executions are limited to M. */
  lemma RunsAreBounded(wf: Workflow, d: nat, maxTotal: nat, run: seq<Progress>)
    requires WellParsed(wf.nodes) && ScopesAccepted(wf) && Transparent(GraphOf(wf))
    requires Sequential(GraphOf(wf)) && NestsAtMost(GraphOf(wf), d) && maxTotal > 0
    requires IsCommitRun(wf, maxTotal, run)
    ensures |run| - 1 <= 2 * (d + 1) * (maxTotal + 1)
  {
    AcceptedGraphIsScoped(wf);
    CommitsUsedUp(wf, d, maxTotal, run);
    BudgetIsProduct(d, maxTotal);
    OneMoreTime(2 * (d + 1), maxTotal);
    assert Remaining(d, maxTotal, run[0]) == 2 * (d + 1) * (maxTotal + 1);
  }

  lemma {:induction false} CommitsUsedUp(wf: Workflow, d: nat, maxTotal: nat, run: seq<Progress>)
    requires Consistent(GraphOf(wf)) && Closed(GraphOf(wf)) && Transparent(GraphOf(wf))
    requires wf.start in GraphOf(wf) && GraphOf(wf)[wf.start].stack == []
    requires Sequential(GraphOf(wf)) && NestsAtMost(GraphOf(wf), d) && maxTotal > 0
    requires IsCommitRun(wf, maxTotal, run)
    ensures Accounted(GraphOf(wf), maxTotal, run[|run| - 1])
    ensures |run| - 1 + Remaining(d, maxTotal, run[|run| - 1]) <= Remaining(d, maxTotal, run[0])
    ensures Remaining(d, maxTotal, run[|run| - 1]) >= 0
    decreases |run|
  {
    var loc := GraphOf(wf);
    if |run| > 1 {
      var k := |run| - 2;
      var init := run[..k + 1];
      assert IsCommitRun(wf, maxTotal, init) by {
        forall i | 0 <= i < |init| - 1
          ensures Commits(loc, maxTotal, init[i], init[i + 1])
        {
          assert Commits(loc, maxTotal, run[i], run[i + 1]);
        }
      }
      CommitsUsedUp(wf, d, maxTotal, init);
      assert Commits(loc, maxTotal, run[k], run[k + 1]);
      CommitDecreases(loc, d, maxTotal, run[k], run[k + 1]);
    }
  }
}
