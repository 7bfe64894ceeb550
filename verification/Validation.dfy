/** The definition validator as it runs: ids, links, parallel scopes, then convergence and
    depth. It accepts exactly the trees the declarative rules describe.

    Sources: internal/workflow/model/workflowcontent.go:102-214, internal/workflow/model/parallel.go:17-80. */
module Validation {
  import opened WorkflowTree
  import opened WorkflowGraph
  import opened Convergence
  import opened BranchRuns
  import opened Nesting
  import opened Interior

  const DEFAULT_MAX_DEPTH: nat := 4

  function EffectiveMaxDepth(maxDepth: int): int {
    if maxDepth <= 0 then DEFAULT_MAX_DEPTH else maxDepth
  }

  function Starts(wf: Workflow): seq<Located> {
    StartsAmong(LocateAll(wf))
  }

  /** The rules of a definition: its scopes are well linked, every branch of every block
      converges, and no chain of nested blocks is longer than the limit. */
  ghost predicate Accepted(wf: Workflow, maxDepth: int) {
    && ScopesAccepted(wf)
    && (forall s | s in Starts(wf) :: BlockConverges(GraphOf(wf), s))
    && (forall s | s in Starts(wf) :: DepthLimited(wf, s, EffectiveMaxDepth(maxDepth)))
  }

  ghost predicate NestChain(wf: Workflow, c: seq<Located>) {
    && c != [] && (forall s | s in c :: s in Starts(wf))
    && forall i | 0 <= i < |c| - 1 :: ParentEdge(GraphOf(wf), c[i], c[i + 1].node.id)
  }

  /** Every chain of blocks, each started in a branch of the one before, that ends at `s` fits the limit. */
  ghost predicate DepthLimited(wf: Workflow, s: Located, d: int) {
    forall c | NestChain(wf, c) && c[|c| - 1] == s :: |c| <= d
  }

  // ---- Ids (workflowcontent.go:149-163) ----

  function NodeIds(n: Node): seq<Id>
    decreases n, 1
  {
    [n.id] + if n.group.Some? then TreeIds(n.group.value.nodes) else []
  }

  function TreeIds(nodes: seq<Node>): seq<Id>
    decreases nodes, 0
  {
    if nodes == [] then [] else NodeIds(nodes[0]) + TreeIds(nodes[1..])
  }

  lemma {:induction false} LocatedIds(nodes: seq<Node>, scope: Id, keys: map<string, Id>, stack: seq<Id>)
    ensures SameIds(Locate(nodes, scope, keys, stack), TreeIds(nodes))
    decreases nodes
  {
    if nodes != [] {
      var n := nodes[0];
      if n.group.Some? {
        LocatedIds(n.group.value.nodes, n.id, n.group.value.keys, stack + [n.id]);
      }
      LocatedIds(nodes[1..], scope, keys, stack);
      assert SameIds([Located(n, scope, keys, stack)], [n.id]);
      assert SameIds(Below(n, stack), if n.group.Some? then TreeIds(n.group.value.nodes) else []);
      SameIdsConcat([Located(n, scope, keys, stack)], [n.id], Below(n, stack), NodeIds(n)[1..]);
      SameIdsConcat([Located(n, scope, keys, stack)] + Below(n, stack), NodeIds(n),
                    Locate(nodes[1..], scope, keys, stack), TreeIds(nodes[1..]));
    }
  }

  predicate SameIds(ls: seq<Located>, ids: seq<Id>) {
    |ls| == |ids| && forall i | 0 <= i < |ls| :: ls[i].node.id == ids[i]
  }

  lemma SameIdsConcat(a: seq<Located>, x: seq<Id>, b: seq<Located>, y: seq<Id>)
    requires SameIds(a, x) && SameIds(b, y)
    ensures SameIds(a + b, x + y)
  {
  }

  predicate Fresh(known: set<Id>, ids: seq<Id>) {
    && (forall i | 0 <= i < |ids| :: ids[i] !in known)
    && (forall i, j | 0 <= i < j < |ids| :: ids[i] != ids[j])
  }

  function Elements(ids: seq<Id>): set<Id> {
    set i | i in ids
  }

  lemma FreshConcat(known: set<Id>, a: seq<Id>, b: seq<Id>)
    ensures Fresh(known, a + b) <==> Fresh(known, a) && Fresh(known + Elements(a), b)
    ensures Elements(a + b) == Elements(a) + Elements(b)
  {
    if Fresh(known, a + b) {
      assert forall i | 0 <= i < |a| :: (a + b)[i] == a[i];
      forall j | 0 <= j < |b|
        ensures b[j] !in known + Elements(a)
      {
        assert (a + b)[|a| + j] == b[j];
      }
      forall i, j | 0 <= i < j < |b|
        ensures b[i] != b[j]
      {
        assert (a + b)[|a| + i] == b[i] && (a + b)[|a| + j] == b[j];
      }
    }
    if Fresh(known, a) && Fresh(known + Elements(a), b) {
      forall i, j | 0 <= i < j < |a + b|
        ensures (a + b)[i] != (a + b)[j]
      {
        if i < |a| <= j {
          assert a[i] in Elements(a);
        }
      }
    }
  }

  lemma {:induction false} TreeIdsConcat(a: seq<Node>, b: seq<Node>)
    ensures TreeIds(a + b) == TreeIds(a) + TreeIds(b)
    decreases |a|
  {
    if a == [] {
      assert a + b == b;
    } else {
      assert (a + b)[1..] == a[1..] + b;
      TreeIdsConcat(a[1..], b);
    }
  }

  /** Records every id of the tree under `n`; fails exactly on a duplicate. */
  method WalkIds(n: Node, owner: Id, seen: map<Id, Id>) returns (ok: bool, after: map<Id, Id>)
    ensures ok <==> Fresh(seen.Keys, NodeIds(n))
    ensures ok ==> after.Keys == seen.Keys + Elements(NodeIds(n))
    decreases n, 1
  {
    after := seen;
    if n.group.Some? {
      FreshConcat(seen.Keys, [n.id], TreeIds(n.group.value.nodes));
    }
    if n.id in seen {
      assert NodeIds(n)[0] == n.id;
      return false, seen;
    }
    after := after[n.id := owner];
    if n.group.Some? {
      ok, after := WalkScopeIds(n.group.value.nodes, n.id, after);
      assert seen.Keys + Elements([n.id]) == seen[n.id := owner].Keys;
    } else {
      ok := true;
    }
  }

  method WalkScopeIds(nodes: seq<Node>, owner: Id, seen: map<Id, Id>) returns (ok: bool, after: map<Id, Id>)
    ensures ok <==> Fresh(seen.Keys, TreeIds(nodes))
    ensures ok ==> after.Keys == seen.Keys + Elements(TreeIds(nodes))
    decreases nodes, 0
  {
    after := seen;
    for i := 0 to |nodes|
      invariant Fresh(seen.Keys, TreeIds(nodes[..i]))
      invariant after.Keys == seen.Keys + Elements(TreeIds(nodes[..i]))
    {
      assert nodes[..i + 1] == nodes[..i] + [nodes[i]];
      assert nodes == nodes[..i + 1] + nodes[i + 1..];
      assert TreeIds([nodes[i]]) == NodeIds(nodes[i]);
      TreeIdsConcat(nodes[..i], [nodes[i]]);
      TreeIdsConcat(nodes[..i + 1], nodes[i + 1..]);
      FreshConcat(seen.Keys, TreeIds(nodes[..i]), NodeIds(nodes[i]));
      FreshConcat(seen.Keys, TreeIds(nodes[..i + 1]), TreeIds(nodes[i + 1..]));
      var unique;
      unique, after := WalkIds(nodes[i], owner, after);
      if !unique {
        return false, after;
      }
    }
    assert nodes[..|nodes|] == nodes;
    ok := true;
  }

  // ---- Parallel blocks of every scope (parallel.go:33-80) ----

  predicate DistinctNodes(nodes: seq<Node>) {
    forall i, j | 0 <= i < j < |nodes| :: nodes[i].id != nodes[j].id
  }

  method ByIdOf(nodes: seq<Node>) returns (byId: map<Id, Node>)
    requires DistinctNodes(nodes)
    ensures byId.Keys == Ids(nodes)
    ensures forall n | n in nodes :: n.id in byId && byId[n.id] == n
  {
    byId := map[];
    for i := 0 to |nodes|
      invariant byId.Keys == Ids(nodes[..i])
      invariant forall n | n in nodes[..i] :: n.id in byId && byId[n.id] == n
    {
      assert nodes[..i + 1] == nodes[..i] + [nodes[i]];
      byId := byId[nodes[i].id := nodes[i]];
    }
    assert nodes[..|nodes|] == nodes;
  }

  /** Checks the targets and the join of one resolved start. */
  method CheckTargets(s: Node, nodes: seq<Node>, byId: map<Id, Node>) returns (ok: bool)
    requires byId.Keys == Ids(nodes) && forall n | n in nodes :: n.id in byId && byId[n.id] == n
    ensures ok <==> TargetsOk(s, nodes)
  {
    if s.branches.Some? {
      var todo := s.branches.value.Keys;
      while todo != {}
        invariant todo <= s.branches.value.Keys
        invariant forall name | name in s.branches.value && name !in todo ::
                    s.branches.value[name] != s.id && s.branches.value[name] in Ids(nodes)
        decreases todo
      {
        var name :| name in todo;
        var target := s.branches.value[name];
        if target == s.id || target !in byId {
          return false;
        }
        todo := todo - {name};
      }
    }
    if s.endNode !in byId {
      return false;
    }
    return byId[s.endNode].typ.ParallelEnd?;
  }

  /** The joins of the first `i` nodes' resolved starts, each of them once. */
  ghost predicate Pairing(nodes: seq<Node>, i: nat, paired: map<Id, Id>)
    requires i <= |nodes|
  {
    && JoinsDistinct(nodes[..i])
    && (forall j | 0 <= j < i && ResolvedStart(nodes[j]) :: nodes[j].endNode in paired)
    && (forall e | e in paired :: exists j :: 0 <= j < i && ResolvedStart(nodes[j]) && nodes[j].endNode == e)
  }

  lemma PairOneMore(nodes: seq<Node>, i: nat, paired: map<Id, Id>)
    requires i < |nodes| && Pairing(nodes, i, paired) && ResolvedStart(nodes[i]) && nodes[i].endNode !in paired
    ensures Pairing(nodes, i + 1, paired[nodes[i].endNode := nodes[i].id])
  {
  }

  method CheckStarts(nodes: seq<Node>) returns (ok: bool)
    requires DistinctNodes(nodes)
    ensures ok <==> forall s | s in nodes && ResolvedStart(s) :: TargetsOk(s, nodes)
  {
    var byId := ByIdOf(nodes);
    for i := 0 to |nodes|
      invariant forall j | 0 <= j < i && ResolvedStart(nodes[j]) :: TargetsOk(nodes[j], nodes)
    {
      if ResolvedStart(nodes[i]) {
        var fine := CheckTargets(nodes[i], nodes, byId);
        if !fine {
          return false;
        }
      }
    }
    ok := true;
  }

  /** Pairs every resolved start of a scope with its join; fails when two share one. */
  method PairJoins(nodes: seq<Node>) returns (ok: bool, paired: map<Id, Id>)
    ensures ok <==> JoinsDistinct(nodes)
    ensures ok ==> Pairing(nodes, |nodes|, paired)
  {
    paired := map[];
    for i := 0 to |nodes|
      invariant Pairing(nodes, i, paired)
    {
      if ResolvedStart(nodes[i]) {
        if nodes[i].endNode in paired {
          return false, paired;
        }
        PairOneMore(nodes, i, paired);
        paired := paired[nodes[i].endNode := nodes[i].id];
      }
    }
    ok := true;
  }

  /** Accepts a scope, and every scope below it, exactly when its blocks are well formed and paired. */
  method ValidateParallelScope(nodes: seq<Node>) returns (ok: bool)
    requires Fresh({}, TreeIds(nodes))
    ensures ok <==> ParallelScopeOk(nodes)
    decreases nodes
  {
    ScopeIsDistinct(nodes);
    var starts := CheckStarts(nodes);
    if !starts {
      return false;
    }
    var distinct, paired := PairJoins(nodes);
    if !distinct {
      return false;
    }
    for i := 0 to |nodes|
      invariant forall e | e in nodes[..i] && ResolvedEnd(e) :: e.id in paired
    {
      if ResolvedEnd(nodes[i]) && nodes[i].id !in paired {
        return false;
      }
    }
    for i := 0 to |nodes|
      invariant forall n | n in nodes[..i] && n.group.Some? :: ParallelScopeOk(n.group.value.nodes)
    {
      var n := nodes[i];
      assert n in nodes;
      if n.group.Some? {
        NestedIsFresh(nodes, i);
        var fine := ValidateParallelScope(n.group.value.nodes);
        if !fine {
          return false;
        }
      }
    }
    assert nodes[..|nodes|] == nodes;
    ok := true;
  }

  lemma FreshSlice(ids: seq<Id>, lo: nat, hi: nat)
    requires lo <= hi <= |ids| && Fresh({}, ids)
    ensures Fresh({}, ids[lo..hi])
  {
  }

  lemma NestedIsFresh(nodes: seq<Node>, i: nat)
    requires i < |nodes| && nodes[i].group.Some? && Fresh({}, TreeIds(nodes))
    ensures Fresh({}, TreeIds(nodes[i].group.value.nodes))
  {
    var n := nodes[i];
    var before, inner, after := TreeIds(nodes[..i]), TreeIds(n.group.value.nodes), TreeIds(nodes[i + 1..]);
    assert nodes == nodes[..i] + nodes[i..];
    TreeIdsConcat(nodes[..i], nodes[i..]);
    assert TreeIds(nodes[i..]) == ([n.id] + inner) + after by {
      assert nodes[i..][1..] == nodes[i + 1..];
    }
    FreshSlice(TreeIds(nodes), |before| + 1, |before| + 1 + |inner|);
    assert TreeIds(nodes)[|before| + 1..|before| + 1 + |inner|] == inner;
  }

  lemma {:induction false} ScopeIsDistinct(nodes: seq<Node>)
    requires Fresh({}, TreeIds(nodes))
    ensures DistinctNodes(nodes)
  {
    forall i, j | 0 <= i < j < |nodes|
      ensures nodes[i].id != nodes[j].id
    {
      var a, b, c := nodes[..i], nodes[i..j], nodes[j..];
      assert nodes == a + (b + c);
      TreeIdsConcat(a, b + c);
      TreeIdsConcat(b, c);
      FreshConcat({}, TreeIds(a), TreeIds(b + c));
      FreshConcat({} + Elements(TreeIds(a)), TreeIds(b), TreeIds(c));
      assert TreeIds(b)[0] == nodes[i].id;
      assert TreeIds(c)[0] == nodes[j].id;
      assert TreeIds(b)[0] in Elements(TreeIds(b));
    }
  }

  // ---- The whole validator ----

  lemma DistinctIffFresh(wf: Workflow)
    ensures DistinctIds(LocateAll(wf)) <==> Fresh({}, TreeIds(wf.nodes))
  {
    LocatedIds(wf.nodes, "", wf.keys, []);
    var ls, ids := LocateAll(wf), TreeIds(wf.nodes);
    assert forall i | 0 <= i < |ls| :: ls[i].node.id == ids[i];
  }

  lemma StartsAreIndexed(wf: Workflow)
    requires DistinctIds(LocateAll(wf))
    ensures StartsOf(GraphOf(wf), Starts(wf))
  {
    IndexMembers(LocateAll(wf));
  }

  /** Chains of recorded parent edges are chains of nested blocks. */
  lemma DepthAgrees(wf: Workflow, parents: Parents, s: Located, d: int)
    requires DistinctIds(LocateAll(wf)) && EdgesFrom(GraphOf(wf), Starts(wf), parents) && s in Starts(wf)
    ensures DepthAtMost(parents, s.node.id, d) <==> DepthLimited(wf, s, d)
  {
    if DepthAtMost(parents, s.node.id, d) {
      forall c: seq<Located> | NestChain(wf, c) && c[|c| - 1] == s
        ensures |c| <= d
      {
        var ids := IdsOfChain(wf, parents, c);
      }
    }
    if DepthLimited(wf, s, d) {
      forall ids | ChainTo(parents, ids, s.node.id)
        ensures |ids| <= d
      {
        var c := ChainOfStarts(wf, parents, ids, s);
      }
    }
  }

  lemma IdsOfChain(wf: Workflow, parents: Parents, c: seq<Located>) returns (ids: seq<Id>)
    requires EdgesFrom(GraphOf(wf), Starts(wf), parents) && NestChain(wf, c)
    ensures ChainTo(parents, ids, c[|c| - 1].node.id) && |ids| == |c|
  {
    ids := seq(|c|, i requires 0 <= i < |c| => c[i].node.id);
    forall i | 0 <= i < |ids| - 1
      ensures ids[i] in ParentsOf(parents, ids[i + 1])
    {
      assert ParentEdge(GraphOf(wf), c[i], c[i + 1].node.id) && c[i] in c;
    }
  }

  lemma ParentIsStart(wf: Workflow, parents: Parents, p: Id, q: Id)
    requires DistinctIds(LocateAll(wf)) && EdgesFrom(GraphOf(wf), Starts(wf), parents)
    requires p in ParentsOf(parents, q)
    ensures p in GraphOf(wf) && GraphOf(wf)[p] in Starts(wf) && ParentEdge(GraphOf(wf), GraphOf(wf)[p], q)
  {
    var t :| t in Starts(wf) && t.node.id == p && ParentEdge(GraphOf(wf), t, q);
    IndexMembers(LocateAll(wf));
  }

  lemma {:induction false} ChainOfStarts(wf: Workflow, parents: Parents, ids: seq<Id>, s: Located) returns (c: seq<Located>)
    requires DistinctIds(LocateAll(wf)) && EdgesFrom(GraphOf(wf), Starts(wf), parents) && s in Starts(wf)
    requires ChainTo(parents, ids, s.node.id)
    ensures NestChain(wf, c) && |c| == |ids| && c[|c| - 1] == s
    decreases |ids|
  {
    if |ids| == 1 {
      c := [s];
    } else {
      ChainParts(parents, ids);
      var p := ids[|ids| - 2];
      ParentIsStart(wf, parents, p, s.node.id);
      IndexMembers(LocateAll(wf));
      var init := ChainOfStarts(wf, parents, ids[..|ids| - 1], GraphOf(wf)[p]);
      c := init + [s];
      NestOneMore(wf, init, s);
    }
  }

  lemma NestOneMore(wf: Workflow, init: seq<Located>, s: Located)
    requires NestChain(wf, init) && s in Starts(wf) && ParentEdge(GraphOf(wf), init[|init| - 1], s.node.id)
    ensures NestChain(wf, init + [s])
  {
    EdgesSnoc(GraphOf(wf), init, s);
  }

  lemma EdgesSnoc(loc: Index, init: seq<Located>, s: Located)
    requires init != [] && ParentEdge(loc, init[|init| - 1], s.node.id)
    requires forall i | 0 <= i < |init| - 1 :: ParentEdge(loc, init[i], init[i + 1].node.id)
    ensures var c := init + [s]; forall i | 0 <= i < |c| - 1 :: ParentEdge(loc, c[i], c[i + 1].node.id)
  {
    var c := init + [s];
    forall i | 0 <= i < |c| - 1
      ensures ParentEdge(loc, c[i], c[i + 1].node.id)
    {
      if i < |init| - 1 {
        assert ParentEdge(loc, init[i], init[i + 1].node.id);
      }
    }
  }

  /** The validator accepts a parsed definition exactly when it follows the rules. */
  method ValidateWorkflow(wf: Workflow, maxDepth: int) returns (ok: bool)
    requires WellParsed(wf.nodes)
    ensures ok <==> Accepted(wf, maxDepth)
  {
    var siblings := Ids(wf.nodes);
    DistinctIffFresh(wf);
    if wf.start !in siblings || !KeysOk(wf.keys, siblings) {
      return false;
    }
    var unique, seen := WalkScopeIds(wf.nodes, "workflow", map[]);
    if !unique || !ScopeLinksOk(wf.nodes, siblings, wf.keys) {
      return false;
    }
    var scoped := ValidateParallelScope(wf.nodes);
    if !scoped {
      return false;
    }
    AcceptedGraphIsScoped(wf);
    StartsAreIndexed(wf);
    var loc, starts := GraphOf(wf), Starts(wf);
    var converges, parents := WalkBlocks(loc, starts);
    if !converges {
      return false;
    }
    forall s | s in starts
      ensures DepthAtMost(parents, s.node.id, EffectiveMaxDepth(maxDepth)) <==> DepthLimited(wf, s, EffectiveMaxDepth(maxDepth))
    {
      DepthAgrees(wf, parents, s, EffectiveMaxDepth(maxDepth));
    }
    ok := ValidateDepth(starts, parents, EffectiveMaxDepth(maxDepth));
  }

  // ---- What acceptance promises at run time ----

  /** In an accepted definition, no run of any branch of any block ends before
      the block's join or loses its place, and its stack is its node's chain without the block's. */
  lemma AcceptedBranchesAreSafe(wf: Workflow, maxDepth: int, s: Located, ready: set<Id>, name: string, run: seq<BranchState>)
    requires WellParsed(wf.nodes) && Accepted(wf, maxDepth)
    requires s in Starts(wf) && name in Targets(s)
    requires IsRun(GraphOf(wf), s.node.endNode, ready, Targets(s)[name], run)
    ensures forall i | 0 <= i < |run| ::
              && !run[i].Ended? && !run[i].Lost?
              && (run[i].At? ==> run[i].c.node in GraphOf(wf) &&
                                 GraphOf(wf)[run[i].c.node].stack == s.stack + run[i].c.stack)
  {
    var loc := GraphOf(wf);
    AcceptedGraphIsScoped(wf);
    StartsAreIndexed(wf);
    assert NodeConsistent(loc, s.node.id) && NodeClosed(loc, s.node.id);
    RunsAreSafe(loc, s, ready, Targets(s)[name], run);
    forall i | 0 <= i < |run|
      ensures !run[i].Ended? && !run[i].Lost?
      ensures run[i].At? ==> run[i].c.node in loc && loc[run[i].c.node].stack == s.stack + run[i].c.stack
    {
      assert OnWalk(loc, s, Targets(s)[name], run[i]);
      if run[i].At? {
        assert Clean(loc, s, Whole(s, run[i].c));
      }
    }
  }

  /** The fork check never refuses a block of an accepted definition when its limit is the validator's. */
  lemma AcceptedForksFit(wf: Workflow, maxDepth: int, forked: seq<Located>)
    requires WellParsed(wf.nodes) && Accepted(wf, maxDepth)
    requires IsForkStack(GraphOf(wf), Starts(wf), forked)
    ensures |forked| <= EffectiveMaxDepth(maxDepth)
    ensures !ForkRefused(EffectiveMaxDepth(maxDepth), |forked| - 1)
  {
    var loc := GraphOf(wf);
    AcceptedGraphIsScoped(wf);
    StartsAreIndexed(wf);
    forall i | 0 <= i < |forked| - 1
      ensures ParentEdge(loc, forked[i], forked[i + 1].node.id)
    {
      assert forked[i] in forked && forked[i + 1] in forked;
      assert ForkedBy(loc, forked[i], forked[i + 1]);
      ForkLeavesEdge(loc, forked[i], forked[i + 1]);
    }
    assert NestChain(wf, forked);
    assert forked[|forked| - 1] in forked;
    assert DepthLimited(wf, forked[|forked| - 1], EffectiveMaxDepth(maxDepth));
  }
}
