/** Parallel nesting: every block's branches are walked, the walks leave parent edges, and
    the longest parent chain bounds how deep blocks can fork at run time.

    Sources: internal/workflow/model/parallel.go:135-171 and 405-443,
    internal/workflow/engine/fork.go:23-26, internal/workflow/engine/scope.go:25-28. */
module Nesting {
  import opened Wrappers
  import opened WorkflowTree
  import opened WorkflowGraph
  import opened Kernel
  import opened Convergence
  import opened BranchRuns

  type Parents = map<Id, set<Id>>

  function Targets(s: Located): map<string, Id> {
    if s.node.branches.Some? then s.node.branches.value else map[]
  }

  ghost predicate BlockConverges(loc: Index, s: Located) {
    forall name | name in Targets(s) :: Converges(loc, s, Targets(s)[name])
  }

  /** Some branch of block `s` starts block `q`. */
  ghost predicate ParentEdge(loc: Index, s: Located, q: Id) {
    exists name :: name in Targets(s) && Nests(loc, s, Targets(s)[name], q)
  }

  // ---- Walking every branch of every block ----

  ghost function EdgeAmong(loc: Index, s: Located, names: set<string>, q: Id): set<Id>
    requires names <= Targets(s).Keys
  {
    if exists m :: m in names && Nests(loc, s, Targets(s)[m], q) then {s.node.id} else {}
  }

  method WalkBlock(loc: Index, s: Located, parents: Parents) returns (ok: bool, after: Parents)
    requires Consistent(loc) && s.node.id in loc && loc[s.node.id] == s && ResolvedStart(s.node)
    ensures ok <==> BlockConverges(loc, s)
    ensures ok ==> forall q :: ParentsOf(after, q) ==
                     ParentsOf(parents, q) + (if ParentEdge(loc, s, q) then {s.node.id} else {})
  {
    assert NodeConsistent(loc, s.node.id);
    after := parents;
    var todo := Targets(s).Keys;
    while todo != {}
      invariant todo <= Targets(s).Keys
      invariant forall name | name in Targets(s) && name !in todo :: Converges(loc, s, Targets(s)[name])
      invariant forall q :: ParentsOf(after, q) == ParentsOf(parents, q) + EdgeAmong(loc, s, Targets(s).Keys - todo, q)
      decreases todo
    {
      var name :| name in todo;
      var clean;
      ghost var done := Targets(s).Keys - todo;
      ghost var prior := after;
      clean, after := WalkBranch(loc, s, Targets(s)[name], after);
      if !clean {
        return false, after;
      }
      todo := todo - {name};
      assert Targets(s).Keys - todo == done + {name};
      EdgesGrow(loc, s, done, name);
    }
    ok := true;
    assert Targets(s).Keys - {} == Targets(s).Keys;
  }

  lemma EdgesGrow(loc: Index, s: Located, done: set<string>, name: string)
    requires done <= Targets(s).Keys && name in Targets(s)
    ensures forall q :: EdgeAmong(loc, s, done + {name}, q) ==
                        EdgeAmong(loc, s, done, q) + (if Nests(loc, s, Targets(s)[name], q) then {s.node.id} else {})
  {
    forall q
      ensures EdgeAmong(loc, s, done + {name}, q) ==
              EdgeAmong(loc, s, done, q) + (if Nests(loc, s, Targets(s)[name], q) then {s.node.id} else {})
    {
      EdgeGrows(loc, s, done, name, q);
    }
  }

  lemma EdgeGrows(loc: Index, s: Located, done: set<string>, name: string, q: Id)
    requires done <= Targets(s).Keys && name in Targets(s)
    ensures EdgeAmong(loc, s, done + {name}, q) ==
            EdgeAmong(loc, s, done, q) + (if Nests(loc, s, Targets(s)[name], q) then {s.node.id} else {})
  {
    if Nests(loc, s, Targets(s)[name], q) {
      assert name in done + {name};
    }
    if exists m :: m in done && Nests(loc, s, Targets(s)[m], q) {
      var m :| m in done && Nests(loc, s, Targets(s)[m], q);
      assert m in done + {name};
    }
  }

  ghost predicate EdgesFrom(loc: Index, starts: seq<Located>, parents: Parents) {
    forall p, q :: p in ParentsOf(parents, q) <==> exists s :: s in starts && s.node.id == p && ParentEdge(loc, s, q)
  }

  ghost predicate StartsOf(loc: Index, starts: seq<Located>) {
    forall s | s in starts :: s.node.id in loc && loc[s.node.id] == s && ResolvedStart(s.node)
  }

  /** Every block is accepted exactly when all its branches converge; the edges left are exactly
      "a branch of p starts q". */
  method WalkBlocks(loc: Index, starts: seq<Located>) returns (ok: bool, parents: Parents)
    requires Consistent(loc) && StartsOf(loc, starts)
    ensures ok <==> forall s | s in starts :: BlockConverges(loc, s)
    ensures ok ==> EdgesFrom(loc, starts, parents)
  {
    parents := map[];
    for i := 0 to |starts|
      invariant forall s | s in starts[..i] :: BlockConverges(loc, s)
      invariant EdgesFrom(loc, starts[..i], parents)
    {
      var clean;
      ghost var prior := parents;
      clean, parents := WalkBlock(loc, starts[i], parents);
      if !clean {
        return false, parents;
      }
      assert starts[..i + 1] == starts[..i] + [starts[i]];
      forall p, q
        ensures p in ParentsOf(parents, q) <==> exists s :: s in starts[..i + 1] && s.node.id == p && ParentEdge(loc, s, q)
      {
        if p in ParentsOf(prior, q) {
          var s :| s in starts[..i] && s.node.id == p && ParentEdge(loc, s, q);
          assert s in starts[..i + 1];
        } else if p in ParentsOf(parents, q) {
          assert starts[i] in starts[..i + 1];
        }
      }
    }
    assert starts[..|starts|] == starts;
    ok := true;
  }

  // ---- Parent chains and their length ----

  /** Blocks listed outermost first, each a parent of the next. */
  ghost predicate IsChain(parents: Parents, c: seq<Id>) {
    c != [] && forall i | 0 <= i < |c| - 1 :: c[i] in ParentsOf(parents, c[i + 1])
  }

  ghost predicate ChainTo(parents: Parents, c: seq<Id>, id: Id) {
    IsChain(parents, c) && c[|c| - 1] == id
  }

  ghost predicate DepthAtMost(parents: Parents, id: Id, d: int) {
    forall c | ChainTo(parents, c, id) :: |c| <= d
  }

  /** `d` is the length of the longest chain of parents ending at `id`. */
  ghost predicate DepthIs(parents: Parents, id: Id, d: int) {
    DepthAtMost(parents, id, d) && exists c :: ChainTo(parents, c, id) && |c| == d
  }

  ghost predicate Unbounded(parents: Parents, id: Id) {
    forall n: nat :: ChainOfLength(parents, id, n)
  }

  ghost predicate ChainOfLength(parents: Parents, id: Id, n: nat) {
    exists c :: ChainTo(parents, c, id) && |c| >= n
  }

  lemma ChainParts(parents: Parents, c: seq<Id>)
    requires IsChain(parents, c) && |c| > 1
    ensures ChainTo(parents, c[..|c| - 1], c[|c| - 2]) && c[|c| - 2] in ParentsOf(parents, c[|c| - 1])
  {
    var init := c[..|c| - 1];
    forall i | 0 <= i < |init| - 1
      ensures init[i] in ParentsOf(parents, init[i + 1])
    {
      assert c[i] in ParentsOf(parents, c[i + 1]);
    }
    assert c[|c| - 2] in ParentsOf(parents, c[(|c| - 2) + 1]);
  }

  lemma ChainGrows(parents: Parents, c: seq<Id>, p: Id, id: Id)
    requires ChainTo(parents, c, p) && p in ParentsOf(parents, id)
    ensures ChainTo(parents, c + [id], id)
  {
    var e := c + [id];
    forall i | 0 <= i < |e| - 1
      ensures e[i] in ParentsOf(parents, e[i + 1])
    {
      if i < |c| - 1 {
        assert c[i] in ParentsOf(parents, c[i + 1]);
      }
    }
  }

  /** The longest chain to a block is one more than the longest to any of its parents. */
  lemma DepthFromParents(parents: Parents, id: Id, depth: map<Id, nat>, d: nat)
    requires forall p | p in ParentsOf(parents, id) :: p in depth && DepthIs(parents, p, depth[p]) && depth[p] + 1 <= d
    requires d == 1 || exists p :: p in ParentsOf(parents, id) && p in depth && depth[p] + 1 == d
    requires d >= 1
    ensures DepthIs(parents, id, d)
  {
    forall c | ChainTo(parents, c, id)
      ensures |c| <= d
    {
      if |c| > 1 {
        ChainParts(parents, c);
      }
    }
    if d == 1 {
      assert ChainTo(parents, [id], id);
    } else {
      var p :| p in ParentsOf(parents, id) && p in depth && depth[p] + 1 == d;
      var c :| ChainTo(parents, c, p) && |c| == depth[p];
      ChainGrows(parents, c, p, id);
    }
  }

  /** A chain that comes back to where it starts can be made as long as one likes. */
  lemma {:induction false} Pump(parents: Parents, c: seq<Id>, j: nat, n: nat) returns (long: seq<Id>)
    requires IsChain(parents, c) && 0 < j < |c| && c[0] == c[j]
    ensures ChainTo(parents, long, c[|c| - 1]) && |long| >= n && long[0] == c[0]
    decreases n
  {
    if n == 0 {
      long := c;
    } else {
      var rest := Pump(parents, c, j, n - 1);
      long := c[..j] + rest;
      forall i | 0 <= i < |long| - 1
        ensures long[i] in ParentsOf(parents, long[i + 1])
      {
        if i < j {
          assert c[i] in ParentsOf(parents, c[i + 1]);
        } else {
          assert rest[i - j] in ParentsOf(parents, rest[(i - j) + 1]);
        }
      }
    }
  }

  lemma CycleIsUnbounded(parents: Parents, c: seq<Id>, j: nat)
    requires IsChain(parents, c) && 0 < j < |c| && c[0] == c[j]
    ensures Unbounded(parents, c[|c| - 1])
  {
    var last := c[|c| - 1];
    forall n: nat
      ensures ChainOfLength(parents, last, n)
    {
      var l := Pump(parents, c, j, n);
    }
  }

  // ---- The depth check ----

  ghost predicate MemoOk(parents: Parents, depth: map<Id, nat>) {
    forall id | id in depth :: DepthIs(parents, id, depth[id])
  }

  lemma ChainFromParent(parents: Parents, p: Id, c: seq<Id>)
    requires IsChain(parents, c) && p in ParentsOf(parents, c[0])
    ensures IsChain(parents, [p] + c)
  {
    var longer := [p] + c;
    forall i | 0 <= i < |longer| - 1
      ensures longer[i] in ParentsOf(parents, longer[i + 1])
    {
      if i > 0 {
        assert c[i - 1] in ParentsOf(parents, c[(i - 1) + 1]);
      }
    }
  }

  /** Memoized depth of `id`, reached through the blocks of `trail` (innermost first) which are being
      visited. None means a block is nested in its own branches. */
  method ComputeDepth(parents: Parents, id: Id, depth: map<Id, nat>, visiting: set<Id>, ghost trail: seq<Id>, ghost all: set<Id>)
      returns (d: Option<nat>, after: map<Id, nat>)
    requires MemoOk(parents, depth) && IsChain(parents, [id] + trail)
    requires visiting == set t | t in trail
    requires id in all && forall q :: ParentsOf(parents, q) <= all
    ensures MemoOk(parents, after) && forall k | k in depth :: k in after && after[k] == depth[k]
    ensures d.Some? ==> DepthIs(parents, id, d.value) && id in after && after[id] == d.value
    ensures d.None? ==> Unbounded(parents, ([id] + trail)[|trail|])
    decreases all - visiting
  {
    after := depth;
    if id in depth {
      return Some(depth[id]), depth;
    }
    if id in visiting {
      ghost var j :| 0 <= j < |trail| && trail[j] == id;
      CycleIsUnbounded(parents, [id] + trail, j + 1);
      return None, depth;
    }
    var best: nat := 1;
    var todo := ParentsOf(parents, id);
    ghost var whole := todo;
    while todo != {}
      invariant todo <= whole && MemoOk(parents, after)
      invariant forall k | k in depth :: k in after && after[k] == depth[k]
      invariant forall p | p in whole - todo :: p in after && after[p] + 1 <= best
      invariant best == 1 || exists p :: p in whole && p in after && after[p] + 1 == best
      invariant best >= 1
      decreases todo
    {
      var p :| p in todo;
      todo := todo - {p};
      ChainFromParent(parents, p, [id] + trail);
      var pd;
      pd, after := ComputeDepth(parents, p, after, visiting + {id}, [id] + trail, all);
      if pd.None? {
        return None, after;
      }
      if pd.value + 1 > best {
        best := pd.value + 1;
      }
    }
    DepthFromParents(parents, id, after, best);
    after := after[id := best];
    d := Some(best);
  }

  /** The depth check accepts exactly when no chain of parents ending at a block is longer than the limit. */
  method ValidateDepth(starts: seq<Located>, parents: Parents, maxDepth: int) returns (ok: bool)
    ensures ok <==> forall s | s in starts :: DepthAtMost(parents, s.node.id, maxDepth)
  {
    var depth: map<Id, nat> := map[];
    for i := 0 to |starts|
      invariant MemoOk(parents, depth)
      invariant forall s | s in starts[..i] :: DepthAtMost(parents, s.node.id, maxDepth)
    {
      var id := starts[i].node.id;
      ghost var all := {id} + AllParents(parents);
      EveryParent(parents);
      var d;
      ghost var trail: seq<Id> := [];
      assert [id] + trail == [id];
      d, depth := ComputeDepth(parents, id, depth, {}, trail, all);
      if d.None? {
        TooDeep(parents, id, maxDepth);
        assert starts[i] in starts;
        return false;
      }
      if d.value > maxDepth {
        assert starts[i] in starts;
        return false;
      }
    }
    assert starts[..|starts|] == starts;
    ok := true;
  }

  ghost function AllParents(parents: Parents): set<Id> {
    set q, p | q in parents && p in parents[q] :: p
  }

  lemma EveryParent(parents: Parents)
    ensures forall q :: ParentsOf(parents, q) <= AllParents(parents)
  {
  }

  lemma TooDeep(parents: Parents, id: Id, maxDepth: int)
    requires Unbounded(parents, id)
    ensures !DepthAtMost(parents, id, maxDepth)
  {
    var n: nat := if maxDepth < 0 then 0 else maxDepth + 1;
    assert ChainOfLength(parents, id, n);
  }

  /** A depth bound leaves no block nested in its own branches, at any distance. */
  lemma BoundedIsAcyclic(parents: Parents, c: seq<Id>, maxDepth: int)
    requires IsChain(parents, c) && DepthAtMost(parents, c[|c| - 1], maxDepth)
    ensures forall i, j | 0 <= i < j < |c| :: c[i] != c[j]
  {
    forall i, j | 0 <= i < j < |c|
      ensures c[i] != c[j]
    {
      if c[i] == c[j] {
        var tail := c[i..];
        assert IsChain(parents, tail) by {
          forall k | 0 <= k < |tail| - 1
            ensures tail[k] in ParentsOf(parents, tail[k + 1])
          {
            assert c[i + k] in ParentsOf(parents, c[(i + k) + 1]);
          }
        }
        CycleIsUnbounded(parents, tail, j - i);
        TooDeep(parents, c[|c| - 1], maxDepth);
      }
    }
  }

  // ---- Nesting at run time ----

  /** A stack of live executions, outermost first: each block was forked by a run of some branch
      of the block before it. The parent scope forks the first one, at depth 1. */
  ghost predicate IsForkStack(loc: Index, starts: seq<Located>, forked: seq<Located>) {
    && forked != [] && (forall s | s in forked :: s in starts)
    && forall i | 0 <= i < |forked| - 1 :: ForkedBy(loc, forked[i], forked[i + 1])
  }

  ghost predicate ForkedBy(loc: Index, s: Located, q: Located) {
    exists name, ready, run, c: Cursor, fork ::
      && name in Targets(s) && IsRun(loc, s.node.endNode, ready, Targets(s)[name], run)
      && run[|run| - 1] == At(c, fork) && c.node == q.node.id && c.node != s.node.endNode
  }

  /** The check made when a scope at nesting level `scopeDepth` forks; a limit of 0 is off. */
  predicate ForkRefused(limit: int, scopeDepth: nat) {
    limit > 0 && scopeDepth + 1 > limit
  }

  lemma ForkLeavesEdge(loc: Index, s: Located, q: Located)
    requires Consistent(loc)
    requires s.node.id in loc && loc[s.node.id] == s && ResolvedStart(s.node)
    requires q.node.id in loc && loc[q.node.id] == q && ResolvedStart(q.node)
    requires BlockConverges(loc, s) && ForkedBy(loc, s, q)
    ensures ParentEdge(loc, s, q.node.id)
  {
    var name, ready, run, c: Cursor, fork :|
      && name in Targets(s) && IsRun(loc, s.node.endNode, ready, Targets(s)[name], run)
      && run[|run| - 1] == At(c, fork) && c.node == q.node.id && c.node != s.node.endNode;
    assert NodeConsistent(loc, s.node.id);
    RunsAreSafe(loc, s, ready, Targets(s)[name], run);
    assert OnWalk(loc, s, Targets(s)[name], run[|run| - 1]);
    assert StartsBlock(loc, s, Whole(s, c));
    assert Nests(loc, s, Targets(s)[name], q.node.id);
  }
}
