/** The nodes strictly inside parallel regions, collected with the convergence walk's
    cursor but without ever failing.

    Source: internal/workflow/model/parallel.go:266-375. */
module Interior {
  import opened Wrappers
  import opened WorkflowTree
  import opened WorkflowGraph
  import opened Kernel
  import opened Worklist
  import opened Convergence
  import opened Nesting
  import opened BranchRuns

  /** A known node some branch cursor stands on before the join. */
  ghost predicate OnBranch(loc: Index, s: Located, target: Id, id: Id) {
    id in loc && id != s.node.endNode && exists c :: InBranch(loc, s, target, c) && c.node == id
  }

  ghost predicate OnBlock(loc: Index, s: Located, id: Id) {
    exists name :: name in Targets(s) && OnBranch(loc, s, Targets(s)[name], id)
  }

  ghost predicate OnSomeBranch(loc: Index, starts: seq<Located>, id: Id) {
    exists s :: s in starts && OnBlock(loc, s, id)
  }

  predicate IsBoundary(nodes: seq<Located>, id: Id) {
    exists l | l in nodes ::
      (ResolvedStart(l.node) && (id == l.node.id || id == l.node.endNode)) || (l.node.typ.ParallelEnd? && id == l.node.id)
  }

  function StartsAmong(nodes: seq<Located>): (r: seq<Located>)
    ensures forall l :: l in r <==> l in nodes && ResolvedStart(l.node)
  {
    if nodes == [] then []
    else (if ResolvedStart(nodes[0].node) then [nodes[0]] else []) + StartsAmong(nodes[1..])
  }

  // ---- The collecting walk ----

  /** Successors of a known node; routes that lead nowhere are dropped. */
  method ExpandLeniently(loc: Index, s: Located, c: Cursor) returns (pushed: seq<Cursor>)
    requires c.node in loc && c.node != s.node.endNode
    requires !Opaque(loc[c.node].node) && !OwnStart(s, loc[c.node].node)
    requires loc[c.node].node.typ.Group? ==> loc[c.node].node.group.Some?
    ensures forall d :: d in pushed <==> d in Next(loc, s, c)
  {
    var l := loc[c.node];
    var n := l.node;
    var routes := Routes(l);
    var landed: seq<Cursor> := [];
    for i := 0 to |routes|
      invariant forall d :: d in landed <==> exists r :: r in routes[..i] && Landing(loc, r, c.stack, |s.stack|) == Some(d)
    {
      var d := None;
      if routes[i].Some? {
        d := AdvanceWithin(loc, routes[i].value, c.stack, |s.stack|);
      }
      assert d == Landing(loc, routes[i], c.stack, |s.stack|);
      ghost var before := landed;
      if d.Some? {
        landed := landed + [d.value];
      }
      forall e
        ensures e in landed <==> exists r :: r in routes[..i + 1] && Landing(loc, r, c.stack, |s.stack|) == Some(e)
      {
        assert routes[..i + 1] == routes[..i] + [routes[i]];
        if e in before {
          var r :| r in routes[..i] && Landing(loc, r, c.stack, |s.stack|) == Some(e);
          assert r in routes[..i + 1];
        }
        if d == Some(e) {
          assert routes[i] in routes[..i + 1];
        }
      }
    }
    assert routes[..|routes|] == routes;
    pushed := landed;
    if n.typ.ParallelStart? {
      pushed := [Cursor(n.endNode, c.stack)] + landed;
    } else if n.typ.Group? {
      pushed := [Cursor(n.group.value.start, c.stack + [n.id])] + landed;
    }
  }

  /** What the collecting walk knows half way. */
  ghost predicate Collected(loc: Index, s: Located, work: seq<Cursor>, seen: set<Cursor>, visited: set<Cursor>,
                            before: set<Id>, interior: set<Id>) {
    && (forall c | c in work :: OnChain(loc, c))
    && (forall c | c in seen :: OnChain(loc, c))
    && (forall c :: c in visited <==> c in seen && c.node != s.node.endNode)
    && (forall id :: id in interior <==> id in before || (id in loc && exists c :: c in visited && c.node == id))
  }

  lemma CollectVisit(loc: Index, s: Located, work: seq<Cursor>, seen: set<Cursor>, visited: set<Cursor>,
                     before: set<Id>, interior: set<Id>, c: Cursor, pushed: seq<Cursor>)
    requires Consistent(loc) && Collected(loc, s, work + [c], seen, visited, before, interior)
    requires c.node != s.node.endNode && forall d | d in pushed :: d in Next(loc, s, c)
    ensures Collected(loc, s, work + pushed, seen + {c}, visited + {c}, before,
                      if c.node in loc then interior + {c.node} else interior)
  {
    assert forall d | d in work :: d in work + [c];
    assert c in work + [c];
    PushedOnChain(loc, s, c, pushed);
    forall id | id in loc
      ensures (exists d :: d in visited + {c} && d.node == id) <==> (exists d :: d in visited && d.node == id) || id == c.node
    {
      if exists d :: d in visited && d.node == id {
        var d :| d in visited && d.node == id;
        assert d in visited + {c};
      }
      assert c in visited + {c};
    }
  }

  lemma CollectJoin(loc: Index, s: Located, work: seq<Cursor>, seen: set<Cursor>, visited: set<Cursor>,
                    before: set<Id>, interior: set<Id>, c: Cursor)
    requires Collected(loc, s, work + [c], seen, visited, before, interior) && c.node == s.node.endNode
    ensures Collected(loc, s, work, seen + {c}, visited, before, interior)
  {
    assert forall d | d in work :: d in work + [c];
    assert c in work + [c];
  }

  lemma CollectDone(loc: Index, s: Located, target: Id, seen: set<Cursor>, visited: set<Cursor>, before: set<Id>, interior: set<Id>)
    requires forall c :: InBranch(loc, s, target, c) <==> c in seen
    requires Collected(loc, s, [], seen, visited, before, interior)
    ensures forall id :: id in interior <==> id in before || OnBranch(loc, s, target, id)
  {
    forall id
      ensures OnBranch(loc, s, target, id) <==> id in loc && exists c :: c in visited && c.node == id
    {
      if id in loc && exists c :: c in visited && c.node == id {
        var c :| c in visited && c.node == id;
        assert InBranch(loc, s, target, c);
      }
    }
  }

  /** Adds to `interior` exactly the known nodes one branch stands on before the join. */
  method CollectBranch(loc: Index, s: Located, target: Id, interior: set<Id>) returns (after: set<Id>)
    requires Consistent(loc) && SameScope(loc, s, target)
    ensures forall id :: id in after <==> id in interior || OnBranch(loc, s, target, id)
  {
    var from := BranchEntry(s, target);
    ghost var step := Steps(loc, s);
    var work, visited: set<Cursor> := [from], {};
    ghost var seen: set<Cursor> := {};
    after := interior;
    Start(step, from);
    ghost var all := set id | id in loc :: Cursor(id, loc[id].stack);
    while work != []
      invariant Explored(step, from, work, seen)
      invariant Collected(loc, s, work, seen, visited, interior, after)
      decreases all - visited, |work|
    {
      var c := work[|work| - 1];
      assert c in work && OnChain(loc, c);
      assert work == work[..|work| - 1] + [c];
      work := work[..|work| - 1];
      if c.node == s.node.endNode {
        Visit(step, from, work, seen, c, []);
        CollectJoin(loc, s, work, seen, visited, interior, after, c);
        assert work + [] == work;
        seen := seen + {c};
        continue;
      }
      if c in visited {
        Skip(step, from, work, seen, c);
        continue;
      }
      var pushed: seq<Cursor> := [];
      ghost var prior := after;
      if c.node in loc {
        assert c == Cursor(c.node, loc[c.node].stack) && c in all;
        var n := loc[c.node].node;
        assert NodeConsistent(loc, c.node);
        after := after + {c.node};
        if !Opaque(n) && !OwnStart(s, n) {
          pushed := ExpandLeniently(loc, s, c);
        }
      } else {
        assert all - (visited + {c}) == all - visited;
      }
      Visit(step, from, work, seen, c, pushed);
      CollectVisit(loc, s, work, seen, visited, interior, prior, c, pushed);
      visited, seen := visited + {c}, seen + {c};
      work := work + pushed;
    }
    Exhausted(step, from, seen);
    CollectDone(loc, s, target, seen, visited, interior, after);
  }

  lemma OneMoreBlock(loc: Index, starts: seq<Located>, s: Located, id: Id)
    ensures OnSomeBranch(loc, starts + [s], id) <==> OnSomeBranch(loc, starts, id) || OnBlock(loc, s, id)
  {
    if OnSomeBranch(loc, starts + [s], id) {
      var t :| t in starts + [s] && OnBlock(loc, t, id);
      assert t in starts || t == s;
    }
    if OnSomeBranch(loc, starts, id) {
      var t :| t in starts && OnBlock(loc, t, id);
      assert t in starts + [s];
    }
    if OnBlock(loc, s, id) {
      assert s in starts + [s];
    }
  }

  /** The interior is exactly the nodes some branch stands on before its join, without any block's
      boundary nodes, whatever order branches are visited in. */
  method ParallelInterior(wf: Workflow) returns (interior: set<Id>)
    requires Consistent(GraphOf(wf)) && DistinctIds(LocateAll(wf))
    ensures forall id :: id in interior <==>
              OnSomeBranch(GraphOf(wf), StartsAmong(LocateAll(wf)), id)
              && forall l | l in LocateAll(wf) ::
                   (ResolvedStart(l.node) ==> id != l.node.id && id != l.node.endNode) && (l.node.typ.ParallelEnd? ==> id != l.node.id)
  {
    var nodes := LocateAll(wf);
    var loc := IndexOf(nodes);
    IndexMembers(nodes);
    var starts := StartsAmong(nodes);
    var boundary := BoundaryOf(nodes);
    interior := CollectBlocks(loc, starts);
    interior := interior - boundary;
  }

  /** The starts and ends of all blocks. */
  method BoundaryOf(nodes: seq<Located>) returns (boundary: set<Id>)
    ensures forall id :: id in boundary <==> IsBoundary(nodes, id)
  {
    boundary := {};
    for i := 0 to |nodes|
      invariant forall id :: id in boundary <==> IsBoundary(nodes[..i], id)
    {
      var n := nodes[i].node;
      assert nodes[..i + 1] == nodes[..i] + [nodes[i]];
      if ResolvedStart(n) {
        boundary := boundary + {n.id, n.endNode};
      } else if n.typ.ParallelEnd? {
        boundary := boundary + {n.id};
      }
    }
    assert nodes[..|nodes|] == nodes;
  }

  method CollectBlocks(loc: Index, starts: seq<Located>) returns (interior: set<Id>)
    requires Consistent(loc) && StartsOf(loc, starts)
    ensures forall id :: id in interior <==> OnSomeBranch(loc, starts, id)
  {
    interior := {};
    for i := 0 to |starts|
      invariant forall id :: id in interior <==> OnSomeBranch(loc, starts[..i], id)
    {
      assert starts[i] in starts;
      interior := CollectBlock(loc, starts[i], interior);
      assert starts[..i + 1] == starts[..i] + [starts[i]];
      forall id
        ensures OnSomeBranch(loc, starts[..i + 1], id) <==> OnSomeBranch(loc, starts[..i], id) || OnBlock(loc, starts[i], id)
      {
        OneMoreBlock(loc, starts[..i], starts[i], id);
      }
    }
    assert starts[..|starts|] == starts;
  }

  method CollectBlock(loc: Index, s: Located, interior: set<Id>) returns (after: set<Id>)
    requires Consistent(loc) && s.node.id in loc && loc[s.node.id] == s && ResolvedStart(s.node)
    ensures forall id :: id in after <==> id in interior || OnBlock(loc, s, id)
  {
    assert NodeConsistent(loc, s.node.id);
    after := interior;
    var todo := Targets(s).Keys;
    while todo != {}
      invariant todo <= Targets(s).Keys
      invariant forall id :: id in after <==>
                  id in interior || exists name :: name in Targets(s) && name !in todo && OnBranch(loc, s, Targets(s)[name], id)
      decreases todo
    {
      var name :| name in todo;
      after := CollectBranch(loc, s, Targets(s)[name], after);
      todo := todo - {name};
    }
  }

  /** Some run of the branch stands on the node. */
  ghost predicate RunStandsOn(loc: Index, s: Located, ready: set<Id>, target: Id, id: Id) {
    exists c: Cursor, fork :: c.node == id && RunTo(loc, s, ready, target, At(c, fork))
  }

  ghost predicate PassableAt(loc: Index, s: Located, ready: set<Id>, target: Id, id: Id) {
    exists t :: Passable(loc, s, ready, target, t) && t.c.node == id
  }

  /** Where the runs of an accepted branch stand: exactly on the nodes of passable stances, all of
      which are on the branch. What is on the branch besides lies behind a foreign join that is
      entered directly; without such joins, and when nested blocks become ready,
      on the branch is exactly where runs stand. */
  lemma OnBranchIsWhereRunsStand(loc: Index, s: Located, ready: set<Id>, target: Id, id: Id)
    requires Consistent(loc) && Closed(loc) && FailureRoutesAllowed(loc)
    requires SameScope(loc, s, target) && Converges(loc, s, target) && id != s.node.endNode
    ensures RunStandsOn(loc, s, ready, target, id) <==> PassableAt(loc, s, ready, target, id)
    ensures RunStandsOn(loc, s, ready, target, id) ==> OnBranch(loc, s, target, id)
    ensures JoinsEnteredByForks(loc, s, target) && NestedReady(loc, s, ready, target) ==>
              (OnBranch(loc, s, target, id) <==> RunStandsOn(loc, s, ready, target, id))
  {
    if PassableAt(loc, s, ready, target, id) {
      var t :| Passable(loc, s, ready, target, t) && t.c.node == id;
      var p :| IsPath(OnwardSteps(loc, s, ready), p) && p[0] == Outset(s, target) && p[|p| - 1] == t;
      var c := WalksAreRuns(loc, s, ready, target, p);
      assert c.node == id;
    }
    if RunStandsOn(loc, s, ready, target, id) {
      StandsOnBranch(loc, s, ready, target, id);
    }
    if JoinsEnteredByForks(loc, s, target) && NestedReady(loc, s, ready, target) && OnBranch(loc, s, target, id) {
      var w :| InBranch(loc, s, target, w) && w.node == id;
      var p :| IsPath(Steps(loc, s), p) && p[0] == BranchEntry(s, target) && p[|p| - 1] == w;
      var fork := WalkIsPassable(loc, s, ready, target, p);
    }
  }

  lemma StandsOnBranch(loc: Index, s: Located, ready: set<Id>, target: Id, id: Id)
    requires Consistent(loc) && SameScope(loc, s, target) && Converges(loc, s, target)
    requires RunStandsOn(loc, s, ready, target, id) && id != s.node.endNode
    ensures PassableAt(loc, s, ready, target, id) && OnBranch(loc, s, target, id)
  {
    var c: Cursor, fork :| c.node == id && RunTo(loc, s, ready, target, At(c, fork));
    var run :| IsRun(loc, s.node.endNode, ready, target, run) && run[|run| - 1] == At(c, fork);
    AcceptedPassableIsClean(loc, s, ready, target);
    RunsArePassable(loc, s, ready, target, run);
    assert Safe(loc, s, ready, target, At(c, fork));
    SafeIsOnWalk(loc, s, ready, target, At(c, fork));
    assert Clean(loc, s, Whole(s, c));
  }
}
