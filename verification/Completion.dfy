/** Which blocks can ever be joined. A block is joined once every branch has reached its end, and a
    branch passes a nested block only once that block was joined. Acceptance does not promise it.

    Sources: internal/workflow/engine/join.go:134-160 and 232-255, internal/workflow/engine/branch.go:72-127,
    internal/workflow/model/parallel.go:178-264. */
module Completion {
  import opened Wrappers
  import opened WorkflowTree
  import opened WorkflowGraph
  import opened Kernel
  import opened Worklist
  import opened Convergence
  import opened BranchRuns
  import opened Nesting
  import opened Validation

  /** Every branch of the block has a run that joins, if the blocks in `ready` do. */
  ghost predicate BranchesJoin(loc: Index, ready: set<Id>, s: Located) {
    forall name | name in Targets(s) :: RunTo(loc, s, ready, Targets(s)[name], Joined)
  }

  /** Each branch of the block has a path to the join on which every foreign join is entered from its
      own start, of a block in `ready`. */
  ghost predicate BranchesPass(loc: Index, ready: set<Id>, s: Located) {
    forall name | name in Targets(s) :: JoinPassable(loc, s, ready, Targets(s)[name])
  }

  ghost function Joinable(loc: Index, ready: set<Id>): set<Id> {
    set q | q in loc && ResolvedStart(loc[q].node) && BranchesJoin(loc, ready, loc[q])
  }

  ghost function PassableBlocks(loc: Index, ready: set<Id>): set<Id> {
    set q | q in loc && ResolvedStart(loc[q].node) && BranchesPass(loc, ready, loc[q])
  }

  ghost function Iterated(f: set<Id> -> set<Id>, n: nat): set<Id> {
    if n == 0 then {} else f(Iterated(f, n - 1))
  }

  /** The blocks that can become ready to join, with at most `n` of them inside one another. */
  ghost function JoinableWithin(loc: Index, n: nat): set<Id> {
    Iterated(ready => Joinable(loc, ready), n)
  }

  ghost function PassStep(loc: Index): set<Id> -> set<Id> {
    ready => PassableBlocks(loc, ready)
  }

  /** The same, read off the definition. */
  ghost function PassableWithin(loc: Index, n: nat): set<Id> {
    Iterated(PassStep(loc), n)
  }

  /** In an accepted definition, the blocks that can be joined are exactly those
      with such paths, at every level of nesting. */
  lemma JoinableExactly(wf: Workflow, maxDepth: int, n: nat)
    requires WellParsed(wf.nodes) && Accepted(wf, maxDepth)
    requires FailureRoutesAllowed(GraphOf(wf))
    ensures JoinableWithin(GraphOf(wf), n) == PassableWithin(GraphOf(wf), n)
  {
    forall ready
      ensures Joinable(GraphOf(wf), ready) == PassableBlocks(GraphOf(wf), ready)
    {
      BlocksExactly(wf, maxDepth, ready);
    }
    SameIterated(ready => Joinable(GraphOf(wf), ready), PassStep(GraphOf(wf)), n);
  }

  lemma {:induction false} SameIterated(f: set<Id> -> set<Id>, g: set<Id> -> set<Id>, n: nat)
    requires forall ready :: f(ready) == g(ready)
    ensures Iterated(f, n) == Iterated(g, n)
  {
    if n > 0 {
      SameIterated(f, g, n - 1);
    }
  }

  lemma BlocksExactly(wf: Workflow, maxDepth: int, ready: set<Id>)
    requires WellParsed(wf.nodes) && Accepted(wf, maxDepth)
    requires FailureRoutesAllowed(GraphOf(wf))
    ensures Joinable(GraphOf(wf), ready) == PassableBlocks(GraphOf(wf), ready)
  {
    var loc := GraphOf(wf);
    forall q | q in loc && ResolvedStart(loc[q].node)
      ensures BranchesJoin(loc, ready, loc[q]) <==> BranchesPass(loc, ready, loc[q])
    {
      BranchesExactly(wf, maxDepth, ready, q);
    }
  }

  lemma BranchesExactly(wf: Workflow, maxDepth: int, ready: set<Id>, q: Id)
    requires WellParsed(wf.nodes) && Accepted(wf, maxDepth)
    requires FailureRoutesAllowed(GraphOf(wf))
    requires q in GraphOf(wf) && ResolvedStart(GraphOf(wf)[q].node)
    ensures BranchesJoin(GraphOf(wf), ready, GraphOf(wf)[q]) <==> BranchesPass(GraphOf(wf), ready, GraphOf(wf)[q])
  {
    var loc := GraphOf(wf);
    var s := loc[q];
    AcceptedGraphIsScoped(wf);
    IndexMembers(LocateAll(wf));
    assert s in Starts(wf) && BlockConverges(loc, s) && NodeConsistent(loc, q);
    forall name | name in Targets(s)
      ensures RunTo(loc, s, ready, Targets(s)[name], Joined) <==> JoinPassable(loc, s, ready, Targets(s)[name])
    {
      JoinsExactly(loc, s, ready, Targets(s)[name]);
    }
  }

  /** An accepted branch has a run that joins if and only if the join is passable. */
  lemma JoinsExactly(loc: Index, s: Located, ready: set<Id>, target: Id)
    requires Consistent(loc) && Closed(loc) && FailureRoutesAllowed(loc)
    requires SameScope(loc, s, target) && Converges(loc, s, target)
    ensures RunTo(loc, s, ready, target, Joined) <==> JoinPassable(loc, s, ready, target)
  {
    if JoinPassable(loc, s, ready, target) {
      JoinIsReached(loc, s, ready, target);
    }
    if RunTo(loc, s, ready, target, Joined) {
      var run :| IsRun(loc, s.node.endNode, ready, target, run) && run[|run| - 1] == Joined;
      AcceptedPassableIsClean(loc, s, ready, target);
      RunsArePassable(loc, s, ready, target, run);
      assert Safe(loc, s, ready, target, run[|run| - 1]);
    }
  }

  // ---- Definitions whose every block can be joined ----

  /** No branch of any block enters a foreign join directly. */
  ghost predicate EnteredByForks(wf: Workflow) {
    forall s, name | s in Starts(wf) && name in Targets(s) :: JoinsEnteredByForks(GraphOf(wf), s, Targets(s)[name])
  }

  /** Every chain of nested blocks that starts at `s` has at most `h` of them. */
  ghost predicate HeightAtMost(wf: Workflow, s: Located, h: nat) {
    forall c: seq<Located> | NestChain(wf, c) && c[0] == s :: |c| <= h
  }

  lemma NestedIsLower(wf: Workflow, s: Located, q: Located, h: nat)
    requires HeightAtMost(wf, s, h) && s in Starts(wf) && ParentEdge(GraphOf(wf), s, q.node.id)
    ensures h > 0 && HeightAtMost(wf, q, h - 1)
  {
    AloneIsOne(wf, s, h);
    forall c: seq<Located> | NestChain(wf, c) && c[0] == q
      ensures |c| <= h - 1
    {
      ChainBelow(wf, s, c);
      assert ([s] + c)[0] == s;
    }
  }

  lemma ChainBelow(wf: Workflow, s: Located, c: seq<Located>)
    requires s in Starts(wf) && NestChain(wf, c) && ParentEdge(GraphOf(wf), s, c[0].node.id)
    ensures NestChain(wf, [s] + c)
  {
    var longer := [s] + c;
    forall i | 0 <= i < |longer| - 1
      ensures ParentEdge(GraphOf(wf), longer[i], longer[i + 1].node.id)
    {
      if i > 0 {
        assert ParentEdge(GraphOf(wf), c[i - 1], c[(i - 1) + 1].node.id);
      }
    }
  }

  ghost predicate Descends(starts: set<Id>, edge: (Id, Id) -> bool, low: (Id, int) -> bool) {
    forall p, n | p in starts && low(p, n) :: DescendsFrom(starts, edge, low, p, n)
  }

  ghost predicate DescendsFrom(starts: set<Id>, edge: (Id, Id) -> bool, low: (Id, int) -> bool, p: Id, n: int) {
    n > 0 && forall q | edge(p, q) :: q in starts && low(q, n - 1)
  }

  ghost predicate TakesOver(starts: set<Id>, edge: (Id, Id) -> bool, step: set<Id> -> set<Id>) {
    forall p, ready | p in starts && (forall q | edge(p, q) :: q in ready) :: p in step(ready)
  }

  /** A block of bounded height is in the iteration of any step that takes a block once what is nested
      in it is taken. */
  lemma {:induction false} LowIsTaken(starts: set<Id>, edge: (Id, Id) -> bool, low: (Id, int) -> bool, step: set<Id> -> set<Id>,
                                      s: Id, h: nat)
    requires Descends(starts, edge, low) && TakesOver(starts, edge, step) && s in starts && low(s, h)
    ensures s in Iterated(step, h)
    decreases h
  {
    assert DescendsFrom(starts, edge, low, s, h);
    forall q | edge(s, q)
      ensures q in Iterated(step, h - 1)
    {
      LowIsTaken(starts, edge, low, step, q, h - 1);
    }
    assert s in step(Iterated(step, h - 1));
  }

  ghost function StartIds(wf: Workflow): set<Id> {
    set p | p in GraphOf(wf) && GraphOf(wf)[p] in Starts(wf)
  }

  ghost function Edge(wf: Workflow): (Id, Id) -> bool {
    (p, q) => p in GraphOf(wf) && ParentEdge(GraphOf(wf), GraphOf(wf)[p], q)
  }

  ghost function Low(wf: Workflow): (Id, int) -> bool {
    (p, n) => p in GraphOf(wf) && n >= 0 && HeightAtMost(wf, GraphOf(wf)[p], n)
  }

  lemma LowIsLower(wf: Workflow, p: Id, n: nat, q: Id)
    requires DistinctIds(LocateAll(wf))
    requires p in StartIds(wf) && HeightAtMost(wf, GraphOf(wf)[p], n) && ParentEdge(GraphOf(wf), GraphOf(wf)[p], q)
    ensures q in StartIds(wf) && n > 0 && HeightAtMost(wf, GraphOf(wf)[q], n - 1)
  {
    var s := GraphOf(wf)[p];
    var name :| name in Targets(s) && Nests(GraphOf(wf), s, Targets(s)[name], q);
    NestedStart(wf, s, name, q);
    NestedIsLower(wf, s, GraphOf(wf)[q], n);
  }

  lemma AloneIsOne(wf: Workflow, s: Located, n: nat)
    requires s in Starts(wf) && HeightAtMost(wf, s, n)
    ensures n > 0
  {
    assert NestChain(wf, [s]) && [s][0] == s;
  }

  lemma BlocksDescend(wf: Workflow)
    requires DistinctIds(LocateAll(wf))
    ensures Descends(StartIds(wf), Edge(wf), Low(wf))
  {
    forall p, n | p in StartIds(wf) && Low(wf)(p, n)
      ensures DescendsFrom(StartIds(wf), Edge(wf), Low(wf), p, n)
    {
      DescendsAt(wf, p, n);
    }
  }

  lemma DescendsAt(wf: Workflow, p: Id, n: nat)
    requires DistinctIds(LocateAll(wf))
    requires p in StartIds(wf) && HeightAtMost(wf, GraphOf(wf)[p], n)
    ensures DescendsFrom(StartIds(wf), Edge(wf), Low(wf), p, n)
  {
    AloneIsOne(wf, GraphOf(wf)[p], n);
    forall q | Edge(wf)(p, q)
      ensures q in StartIds(wf) && Low(wf)(q, n - 1)
    {
      EdgeIsLower(wf, p, n, q);
    }
  }

  lemma EdgeIsLower(wf: Workflow, p: Id, n: nat, q: Id)
    requires DistinctIds(LocateAll(wf))
    requires p in StartIds(wf) && HeightAtMost(wf, GraphOf(wf)[p], n) && Edge(wf)(p, q)
    ensures q in StartIds(wf) && Low(wf)(q, n - 1)
  {
    LowIsLower(wf, p, n, q);
  }

  lemma BlocksTakeOver(wf: Workflow, maxDepth: int)
    requires WellParsed(wf.nodes) && Accepted(wf, maxDepth) && EnteredByForks(wf)
    ensures TakesOver(StartIds(wf), Edge(wf), PassStep(GraphOf(wf)))
  {
    StartsAreIndexed(wf);
    forall p, ready | p in StartIds(wf) && forall q | Edge(wf)(p, q) :: q in ready
      ensures p in PassStep(GraphOf(wf))(ready)
    {
      TakesOne(wf, maxDepth, p, ready);
    }
  }

  lemma TakesOne(wf: Workflow, maxDepth: int, p: Id, ready: set<Id>)
    requires WellParsed(wf.nodes) && Accepted(wf, maxDepth) && EnteredByForks(wf)
    requires p in StartIds(wf) && forall q | Edge(wf)(p, q) :: q in ready
    ensures p in PassableBlocks(GraphOf(wf), ready)
  {
    IndexMembers(LocateAll(wf));
    forall q | ParentEdge(GraphOf(wf), GraphOf(wf)[p], q)
      ensures q in ready
    {
      assert Edge(wf)(p, q);
    }
    BlockPasses(wf, maxDepth, GraphOf(wf)[p], ready);
  }

  /** A block whose nesting is at most `h` high is passable within `h` levels. */
  lemma LowBlocksPass(wf: Workflow, maxDepth: int, s: Located, h: nat)
    requires WellParsed(wf.nodes) && Accepted(wf, maxDepth) && EnteredByForks(wf)
    requires s in Starts(wf) && HeightAtMost(wf, s, h)
    ensures s.node.id in PassableWithin(GraphOf(wf), h)
  {
    StartsAreIndexed(wf);
    BlocksDescend(wf);
    BlocksTakeOver(wf, maxDepth);
    LowIsTaken(StartIds(wf), Edge(wf), Low(wf), PassStep(GraphOf(wf)), s.node.id, h);
  }

  lemma BlockPasses(wf: Workflow, maxDepth: int, s: Located, ready: set<Id>)
    requires WellParsed(wf.nodes) && Accepted(wf, maxDepth) && EnteredByForks(wf) && s in Starts(wf)
    requires forall q | ParentEdge(GraphOf(wf), s, q) :: q in ready
    ensures s.node.id in PassableBlocks(GraphOf(wf), ready)
  {
    AcceptedGraphIsScoped(wf);
    StartsAreIndexed(wf);
    forall name | name in Targets(s)
      ensures JoinPassable(GraphOf(wf), s, ready, Targets(s)[name])
    {
      assert NestedReady(GraphOf(wf), s, ready, Targets(s)[name]) by {
        forall q | Nests(GraphOf(wf), s, Targets(s)[name], q)
          ensures q in ready
        {
          assert ParentEdge(GraphOf(wf), s, q);
        }
      }
      BranchPasses(GraphOf(wf), s, ready, Targets(s)[name]);
    }
  }

  lemma NestedStart(wf: Workflow, s: Located, name: string, q: Id)
    requires DistinctIds(LocateAll(wf))
    requires name in Targets(s) && Nests(GraphOf(wf), s, Targets(s)[name], q)
    ensures q in GraphOf(wf) && GraphOf(wf)[q] in Starts(wf) && GraphOf(wf)[q].node.id == q
    ensures ParentEdge(GraphOf(wf), s, q)
  {
    IndexMembers(LocateAll(wf));
  }

  lemma BranchPasses(loc: Index, s: Located, ready: set<Id>, target: Id)
    requires Consistent(loc) && Converges(loc, s, target)
    requires JoinsEnteredByForks(loc, s, target) && NestedReady(loc, s, ready, target)
    ensures JoinPassable(loc, s, ready, target)
  {
    var w :| InBranch(loc, s, target, w) && w.node == s.node.endNode;
    var p :| IsPath(Steps(loc, s), p) && p[0] == BranchEntry(s, target) && p[|p| - 1] == w;
    var fork := WalkIsPassable(loc, s, ready, target, p);
    assert Stance(w, fork).c.node == s.node.endNode;
  }

  /** In an accepted definition whose branches enter no foreign join directly, every block can be joined:
      the depth limit bounds how many blocks must be joined inside one another for it. */
  lemma AllBlocksJoinable(wf: Workflow, maxDepth: int, s: Located)
    requires WellParsed(wf.nodes) && Accepted(wf, maxDepth) && EnteredByForks(wf)
    requires FailureRoutesAllowed(GraphOf(wf)) && s in Starts(wf)
    ensures s.node.id in JoinableWithin(GraphOf(wf), EffectiveMaxDepth(maxDepth))
  {
    forall c: seq<Located> | NestChain(wf, c) && c[0] == s
      ensures |c| <= EffectiveMaxDepth(maxDepth)
    {
      assert c[|c| - 1] in c && DepthLimited(wf, c[|c| - 1], EffectiveMaxDepth(maxDepth));
    }
    LowBlocksPass(wf, maxDepth, s, EffectiveMaxDepth(maxDepth));
    JoinableExactly(wf, maxDepth, EffectiveMaxDepth(maxDepth));
  }

  // ---- An accepted definition with a block that is never joined ----

  function Task(id: Id, next: Id): Node {
    Node(id, "", Script, next, None, [], None, None, "", "", false)
  }

  function Fork(id: Id, branches: map<string, Id>, end: Id): Node {
    Node(id, "", ParallelStart, "", None, [], None, Some(branches), end, "", false)
  }

  function Barrier(id: Id, next: Id): Node {
    Node(id, "", ParallelEnd, next, None, [], None, None, "", "merge", false)
  }

  datatype Names = Names(s: Id, t: Id, x: Id, e: Id, f: Id)

  predicate Apart(n: Names) {
    && n.s != "" && n.t != "" && n.x != "" && n.e != "" && n.f != ""
    && n.s != n.t && n.s != n.x && n.s != n.e && n.s != n.f && n.t != n.x
    && n.t != n.e && n.t != n.f && n.x != n.e && n.x != n.f && n.e != n.f
  }

  function CrossedNodes(n: Names): seq<Node> {
    [Fork(n.s, map["a" := n.x, "b" := n.e], n.e), Task(n.x, n.f), Barrier(n.e, ""),
     Fork(n.t, map["c" := n.f, "d" := n.f], n.f), Barrier(n.f, n.e)]
  }

  /** Block s forks x beside an empty branch and joins at e; block t forks two empty branches and joins
      at f. Branch x of s leads through f, where t joins, without ever having forked t. */
  function Crossed(n: Names): Workflow {
    Workflow(n.s, map[], CrossedNodes(n))
  }

  /** A node of a definition without groups, as the graph holds it. */
  function Flat(n: Node): Located {
    Located(n, "", map[], [])
  }

  lemma {:induction false} FlatLocate(nodes: seq<Node>)
    requires forall n | n in nodes :: n.group.None?
    ensures |Locate(nodes, "", map[], [])| == |nodes|
    ensures forall i | 0 <= i < |nodes| :: Locate(nodes, "", map[], [])[i] == Flat(nodes[i])
  {
    if nodes != [] {
      FlatLocate(nodes[1..]);
    }
  }

  lemma FlatGraph(wf: Workflow)
    requires wf.keys == map[] && forall n | n in wf.nodes :: n.group.None?
    requires forall i, j | 0 <= i < j < |wf.nodes| :: wf.nodes[i].id != wf.nodes[j].id
    ensures DistinctIds(LocateAll(wf)) && GraphOf(wf).Keys == Ids(wf.nodes)
    ensures forall n | n in wf.nodes :: n.id in GraphOf(wf) && GraphOf(wf)[n.id] == Flat(n)
    ensures forall l :: l in LocateAll(wf) <==> l.node in wf.nodes && l == Flat(l.node)
  {
    var ls := LocateAll(wf);
    FlatLocate(wf.nodes);
    IndexMembers(ls);
    forall n | n in wf.nodes
      ensures Flat(n) in ls
    {
      var i :| 0 <= i < |wf.nodes| && wf.nodes[i] == n;
      assert ls[i] == Flat(n);
    }
    forall l | l in ls
      ensures l.node in wf.nodes && l == Flat(l.node)
    {
      var i :| 0 <= i < |ls| && ls[i] == l;
      assert wf.nodes[i] in wf.nodes;
    }
    forall n | n in wf.nodes
      ensures n.id in GraphOf(wf) && GraphOf(wf)[n.id] == Flat(n)
    {
      assert Flat(n).node.id == n.id;
    }
    assert forall id | id in GraphOf(wf) :: GraphOf(wf)[id].node in wf.nodes && GraphOf(wf)[id].node.id == id;
  }

  lemma CrossedIds(n: Names)
    requires Apart(n)
    ensures var nodes := CrossedNodes(n);
            && (forall i, j | 0 <= i < j < |nodes| :: nodes[i].id != nodes[j].id)
            && (forall node | node in nodes :: node.group.None? && node.id != "")
            && n.s in Ids(nodes) && n.t in Ids(nodes) && n.x in Ids(nodes) && n.e in Ids(nodes) && n.f in Ids(nodes)
  {
    var nodes := CrossedNodes(n);
    assert nodes[0] in nodes && nodes[1] in nodes && nodes[2] in nodes && nodes[3] in nodes && nodes[4] in nodes;
  }

  lemma CrossedLinks(n: Names)
    requires Apart(n)
    ensures ScopeLinksOk(CrossedNodes(n), Ids(CrossedNodes(n)), map[])
  {
    CrossedIds(n);
  }

  lemma CrossedBlocks(n: Names)
    requires Apart(n)
    ensures ParallelScopeOk(CrossedNodes(n))
  {
    CrossedIds(n);
    var nodes := CrossedNodes(n);
    assert nodes[0] in nodes && nodes[2] in nodes && nodes[3] in nodes && nodes[4] in nodes;
    forall node | node in nodes && ResolvedStart(node)
      ensures TargetsOk(node, nodes)
    {
      var e := if node == nodes[0] then nodes[2] else nodes[4];
      assert e in nodes && e.id == node.endNode && e.typ.ParallelEnd?;
    }
    forall node | node in nodes && ResolvedEnd(node)
      ensures exists s | s in nodes :: ResolvedStart(s) && s.endNode == node.id
    {
      var s := if node == nodes[2] then nodes[0] else nodes[3];
      assert s in nodes && ResolvedStart(s) && s.endNode == node.id;
    }
  }

  /** The nodes that the branches of both blocks pass, as the graph holds them. */
  lemma CrossedGraph(n: Names)
    requires Apart(n)
    ensures var wf := Crossed(n);
            var loc := GraphOf(wf);
            && n.s in loc && n.t in loc && n.x in loc && n.f in loc
            && loc[n.s] == Flat(Fork(n.s, map["a" := n.x, "b" := n.e], n.e))
            && loc[n.t] == Flat(Fork(n.t, map["c" := n.f, "d" := n.f], n.f))
            && loc[n.x] == Flat(Task(n.x, n.f)) && loc[n.f] == Flat(Barrier(n.f, n.e))
            && (forall id | id in loc :: loc[id] == Flat(loc[id].node) && loc[id].node in CrossedNodes(n))
  {
    var wf, nodes := Crossed(n), CrossedNodes(n);
    CrossedIds(n);
    FlatGraph(wf);
    assert nodes[0] in nodes && nodes[1] in nodes && nodes[3] in nodes && nodes[4] in nodes;
    forall id | id in GraphOf(wf)
      ensures GraphOf(wf)[id].node in nodes
    {
      var node :| node in nodes && node.id == id;
    }
  }

  lemma CrossedParsed(n: Names)
    requires Apart(n)
    ensures WellParsed(CrossedNodes(n))
  {
    forall node | node in CrossedNodes(n)
      ensures node.id != "" && node.group.None? && !node.typ.Group? && (node.typ.ParallelStart? ==> node.branches.Some?)
    {
    }
  }

  lemma CrossedScopes(n: Names)
    requires Apart(n)
    ensures ScopesAccepted(Crossed(n))
  {
    CrossedIds(n);
    CrossedLinks(n);
    CrossedBlocks(n);
    FlatGraph(Crossed(n));
  }

  lemma CrossedStarts(n: Names, s: Located)
    requires Apart(n) && s in Starts(Crossed(n))
    ensures s == Flat(CrossedNodes(n)[0]) || s == Flat(CrossedNodes(n)[3])
  {
    CrossedIds(n);
    FlatGraph(Crossed(n));
    CrossedForks(n, s.node);
  }

  lemma CrossedForks(n: Names, node: Node)
    requires node in CrossedNodes(n) && node.typ.ParallelStart?
    ensures node == CrossedNodes(n)[0] || node == CrossedNodes(n)[3]
  {
  }

  // ---- Branches that run straight to their join ----

  /** Each node of the line is plain and leads to the next; the last is the join. */
  predicate Straight(loc: Index, s: Located, line: seq<Id>) {
    && s.stack == [] && line != [] && line[|line| - 1] == s.node.endNode
    && forall i | 0 <= i < |line| - 1 :: LeadsTo(loc, s, line[i], line[i + 1])
  }

  predicate LeadsTo(loc: Index, s: Located, id: Id, next: Id) {
    && id in loc && id != s.node.endNode && next != ""
    && var n := loc[id].node;
       (n.typ.Script? || n.typ.ParallelEnd?) && n.next == next && n.onFailure.None?
  }

  lemma LineStep(loc: Index, s: Located, id: Id, next: Id)
    requires s.stack == [] && LeadsTo(loc, s, id, next)
    ensures Next(loc, s, Cursor(id, [])) == {Cursor(next, [])} && Clean(loc, s, Cursor(id, []))
  {
    assert Routes(loc[id]) == [Some(next)];
    assert Landing(loc, Some(next), [], 0) == Some(Cursor(next, []));
  }

  lemma {:induction false} StraightWalk(loc: Index, s: Located, line: seq<Id>, p: seq<Cursor>)
    requires Straight(loc, s, line) && IsPath(Steps(loc, s), p) && p[0] == BranchEntry(s, line[0])
    ensures |p| <= |line| && p[|p| - 1] == Cursor(line[|p| - 1], [])
    decreases |p|
  {
    if |p| > 1 {
      PathPrefix(Steps(loc, s), p);
      StraightWalk(loc, s, line, p[..|p| - 1]);
      var i := |p| - 2;
      if i < |line| - 1 {
        LineStep(loc, s, line[i], line[i + 1]);
      }
    }
  }

  lemma {:induction false} StraightReaches(loc: Index, s: Located, line: seq<Id>, i: nat)
    requires Straight(loc, s, line) && i < |line|
    ensures InBranch(loc, s, line[0], Cursor(line[i], []))
  {
    if i == 0 {
      ReachesItself(Steps(loc, s), BranchEntry(s, line[0]));
    } else {
      StraightReaches(loc, s, line, i - 1);
      LineStep(loc, s, line[i - 1], line[(i - 1) + 1]);
      ReachesNext(Steps(loc, s), BranchEntry(s, line[0]), Cursor(line[i - 1], []), Cursor(line[i], []));
    }
  }

  lemma StraightConverges(loc: Index, s: Located, line: seq<Id>)
    requires Straight(loc, s, line)
    ensures Converges(loc, s, line[0]) && forall q :: !Nests(loc, s, line[0], q)
  {
    forall c | InBranch(loc, s, line[0], c)
      ensures Clean(loc, s, c) && !StartsBlock(loc, s, c)
    {
      var p :| IsPath(Steps(loc, s), p) && p[0] == BranchEntry(s, line[0]) && p[|p| - 1] == c;
      StraightWalk(loc, s, line, p);
      if |p| < |line| {
        LineStep(loc, s, line[|p| - 1], line[(|p| - 1) + 1]);
      }
    }
    StraightReaches(loc, s, line, |line| - 1);
  }

  predicate StraightFrom(loc: Index, s: Located, target: Id, line: seq<Id>) {
    Straight(loc, s, line) && line[0] == target
  }

  lemma StraightBlock(loc: Index, s: Located)
    requires forall name | name in Targets(s) :: exists line :: StraightFrom(loc, s, Targets(s)[name], line)
    ensures BlockConverges(loc, s) && forall q :: !ParentEdge(loc, s, q)
  {
    forall name | name in Targets(s)
      ensures Converges(loc, s, Targets(s)[name]) && forall q :: !Nests(loc, s, Targets(s)[name], q)
    {
      var line :| StraightFrom(loc, s, Targets(s)[name], line);
      StraightConverges(loc, s, line);
    }
  }

  lemma CrossedBlockConverges(n: Names, s: Located)
    requires Apart(n) && s in Starts(Crossed(n))
    ensures BlockConverges(GraphOf(Crossed(n)), s) && forall q :: !ParentEdge(GraphOf(Crossed(n)), s, q)
  {
    CrossedStarts(n, s);
    forall name | name in Targets(s)
      ensures exists line :: StraightFrom(GraphOf(Crossed(n)), s, Targets(s)[name], line)
    {
      CrossedBranch(n, s, name);
    }
    StraightBlock(GraphOf(Crossed(n)), s);
  }

  lemma CrossedBranch(n: Names, s: Located, name: string)
    requires Apart(n) && name in Targets(s)
    requires s == Flat(CrossedNodes(n)[0]) || s == Flat(CrossedNodes(n)[3])
    ensures exists line :: StraightFrom(GraphOf(Crossed(n)), s, Targets(s)[name], line)
  {
    CrossedGraph(n);
    var target := Targets(s)[name];
    var line := if target == n.x then [n.x, n.f, n.e] else [target];
    assert StraightFrom(GraphOf(Crossed(n)), s, target, line);
  }

  lemma LoneBlocks(wf: Workflow, c: seq<Located>)
    requires NestChain(wf, c) && forall s, q | s in Starts(wf) :: !ParentEdge(GraphOf(wf), s, q)
    ensures |c| <= 1
  {
    if |c| > 1 {
      FirstEdge(wf, c);
    }
  }

  lemma FirstEdge(wf: Workflow, c: seq<Located>)
    requires NestChain(wf, c) && |c| > 1
    ensures c[0] in Starts(wf) && ParentEdge(GraphOf(wf), c[0], c[1].node.id)
  {
    assert c[0] in c && ParentEdge(GraphOf(wf), c[0], c[0 + 1].node.id);
  }

  lemma CrossedIsAccepted(n: Names, maxDepth: int)
    requires Apart(n)
    ensures WellParsed(Crossed(n).nodes) && Accepted(Crossed(n), maxDepth)
  {
    var wf := Crossed(n);
    CrossedParsed(n);
    CrossedScopes(n);
    forall s | s in Starts(wf)
      ensures BlockConverges(GraphOf(wf), s) && forall q :: !ParentEdge(GraphOf(wf), s, q)
    {
      CrossedBlockConverges(n, s);
    }
    forall c: seq<Located> | NestChain(wf, c)
      ensures |c| <= 1
    {
      LoneBlocks(wf, c);
    }
  }

  /** Acceptance does not promise that a block can be joined: this definition is accepted, whatever the
      depth limit, every run of branch "a" of its first block stops at the other block's join, where
      the engine fails it, and so the first block is never ready to join. */
  lemma CrossedNeverJoins(n: Names, maxDepth: int, ready: set<Id>, run: seq<BranchState>, level: nat)
    requires Apart(n)
    ensures WellParsed(Crossed(n).nodes) && Accepted(Crossed(n), maxDepth)
    ensures IsRun(GraphOf(Crossed(n)), n.e, ready, n.x, run) ==>
              run[|run| - 1] in {At(Cursor(n.x, []), None), At(Cursor(n.f, []), None), Failed}
    ensures n.s !in JoinableWithin(GraphOf(Crossed(n)), level)
  {
    CrossedIsAccepted(n, maxDepth);
    if IsRun(GraphOf(Crossed(n)), n.e, ready, n.x, run) {
      CrossedRunsStop(n, ready, run);
    }
    if level > 0 && n.s in JoinableWithin(GraphOf(Crossed(n)), level) {
      CrossedGraph(n);
      var loc := GraphOf(Crossed(n));
      var inner := JoinableWithin(loc, level - 1);
      assert n.s in Joinable(loc, inner);
      assert "a" in Targets(loc[n.s]) && RunTo(loc, loc[n.s], inner, n.x, Joined);
      var joins :| IsRun(loc, n.e, inner, n.x, joins) && joins[|joins| - 1] == Joined;
      CrossedRunsStop(n, inner, joins);
    }
  }

  lemma {:induction false} CrossedRunsStop(n: Names, ready: set<Id>, run: seq<BranchState>)
    requires Apart(n) && IsRun(GraphOf(Crossed(n)), n.e, ready, n.x, run)
    ensures run[|run| - 1] in {At(Cursor(n.x, []), None), At(Cursor(n.f, []), None), Failed}
    decreases |run|
  {
    CrossedGraph(n);
    var loc := GraphOf(Crossed(n));
    if |run| > 1 {
      var k := |run| - 2;
      assert run[k].At? && BranchMove(loc, n.e, ready, run[k].c, run[k].fork, run[k + 1]);
      assert IsRun(loc, n.e, ready, n.x, run[..k + 1]);
      CrossedRunsStop(n, ready, run[..k + 1]);
    }
  }
}
