/** What the checks before the convergence walk accept, stated once for all nodes of the flattened tree
    instead of scope by scope.

    Sources: internal/workflow/model/workflowcontent.go:106-214, internal/workflow/model/parallel.go:33-80. */
module ScopeRules {
  import opened WorkflowTree
  import opened WorkflowGraph
  import opened Validation
  import Strings

  // ---- Which nodes the flattened tree holds ----

  predicate InList(nodes: seq<Node>, scope: Id, keys: map<string, Id>, stack: seq<Id>, l: Located) {
    l.node in nodes && l == Located(l.node, scope, keys, stack)
  }

  predicate ChildOf(p: Located, l: Located) {
    p.node.group.Some? && InList(p.node.group.value.nodes, p.node.id, p.node.group.value.keys, p.stack + [p.node.id], l)
  }

  /** The flattened tree holds exactly the nodes of its outermost scope and the children of every group it
      holds, each with its group's id, keys and chain. */
  lemma {:induction false} LocatesExactly(nodes: seq<Node>, scope: Id, keys: map<string, Id>, stack: seq<Id>, l: Located)
    ensures l in Locate(nodes, scope, keys, stack) <==>
            InList(nodes, scope, keys, stack, l) || exists p :: p in Locate(nodes, scope, keys, stack) && ChildOf(p, l)
    decreases nodes
  {
    var ls := Locate(nodes, scope, keys, stack);
    LocateMembers(nodes, scope, keys, stack);
    if l in ls && !InList(nodes, scope, keys, stack, l) {
      var i :| 0 <= i < |nodes| && l in Below(nodes[i], stack);
      LocatedBelow(nodes, scope, keys, stack, i, l);
    }
    if p :| p in ls && ChildOf(p, l) {
      if InList(nodes, scope, keys, stack, p) {
        var i :| 0 <= i < |nodes| && nodes[i] == p.node;
        LocateMembers(p.node.group.value.nodes, p.node.id, p.node.group.value.keys, stack + [p.node.id]);
        assert l in Below(nodes[i], stack);
      } else {
        var i :| 0 <= i < |nodes| && p in Below(nodes[i], stack);
        var g := nodes[i].group.value;
        LocatesExactly(g.nodes, nodes[i].id, g.keys, stack + [nodes[i].id], l);
        assert l in Below(nodes[i], stack);
      }
    }
  }

  lemma {:induction false} LocatedBelow(nodes: seq<Node>, scope: Id, keys: map<string, Id>, stack: seq<Id>, i: nat, l: Located)
    requires i < |nodes| && l in Below(nodes[i], stack)
    ensures exists p :: p in Locate(nodes, scope, keys, stack) && ChildOf(p, l)
    decreases nodes, 0
  {
    LocateMembers(nodes, scope, keys, stack);
    var n := nodes[i];
    var g := n.group.value;
    LocatesExactly(g.nodes, n.id, g.keys, stack + [n.id], l);
    if InList(g.nodes, n.id, g.keys, stack + [n.id], l) {
      assert ChildOf(Located(n, scope, keys, stack), l);
    } else {
      var p :| p in Below(n, stack) && ChildOf(p, l);
      assert p in Locate(nodes, scope, keys, stack);
    }
  }

  // ---- The rules ----

  ghost function ScopeIds(ls: seq<Located>, scope: Id): set<Id> {
    set l | l in ls && l.scope == scope :: l.node.id
  }

  /** Each key has a character that is not white space, and leads to a node of the scope or nowhere. */
  predicate KeyRules(keys: map<string, Id>, here: set<Id>) {
    forall k | k in keys :: (exists c | c in k :: !Strings.SpaceChar(c)) && (keys[k] != "" ==> keys[k] in here)
  }

  /** Links stay in the node's scope, conditions name keys of it, and a group's own keys lead into the group.
      The keys of a reference that brings no nodes are not looked at. */
  ghost predicate LinkRules(ls: seq<Located>, l: Located) {
    var n, here := l.node, ScopeIds(ls, l.scope);
    && (n.next != "" ==> n.next in here)
    && (n.onFailure.Some? ==> n.onFailure.value in here)
    && (n.typ.Conditions? ==> forall k | k in n.conditions && k != "" :: k in l.keys)
    && (n.group.Some? && (n.definition == "" || |n.group.value.nodes| > 0) ==>
          KeyRules(n.group.value.keys, ScopeIds(ls, n.id)))
  }

  predicate IsStart(n: Node) {
    n.typ.ParallelStart? && (n.definition == "" || n.branches.Some?)
  }

  predicate IsEnd(n: Node) {
    n.typ.ParallelEnd? && (n.definition == "" || n.combining != "")
  }

  /** A block's branches start in its scope and not at the block, it joins at an end of its scope where no
      other block of the scope joins, and every end is joined by a block of its scope. */
  ghost predicate BlockRules(ls: seq<Located>, l: Located) {
    var n, here := l.node, ScopeIds(ls, l.scope);
    && (IsStart(n) ==>
          && (n.branches.Some? ==> forall name | name in n.branches.value :: n.branches.value[name] != n.id && n.branches.value[name] in here)
          && (exists e :: e in ls && e.scope == l.scope && e.node.id == n.endNode && e.node.typ.ParallelEnd?)
          && forall m | m in ls && m.scope == l.scope && IsStart(m.node) && m.node.endNode == n.endNode :: m == l)
    && (IsEnd(n) ==> exists s :: s in ls && s.scope == l.scope && IsStart(s.node) && s.node.endNode == n.id)
  }

  ghost predicate FlatRules(wf: Workflow) {
    var ls := LocateAll(wf);
    && DistinctIds(ls) && wf.start in ScopeIds(ls, "") && KeyRules(wf.keys, ScopeIds(ls, ""))
    && forall l | l in ls :: LinkRules(ls, l) && BlockRules(ls, l)
  }

  // ---- Scopes of the flattened tree ----

  ghost predicate NamedTree(wf: Workflow) {
    DistinctIds(LocateAll(wf)) && WellParsed(wf.nodes)
  }

  lemma {:induction false} NamesBelow(nodes: seq<Node>, scope: Id, keys: map<string, Id>, stack: seq<Id>, l: Located)
    requires WellParsed(nodes) && l in Locate(nodes, scope, keys, stack)
    ensures l.node.id != ""
    decreases nodes
  {
    LocateMembers(nodes, scope, keys, stack);
    if !InList(nodes, scope, keys, stack, l) {
      var i :| 0 <= i < |nodes| && l in Below(nodes[i], stack);
      var g := nodes[i].group.value;
      NamesBelow(g.nodes, nodes[i].id, g.keys, stack + [nodes[i].id], l);
    }
  }

  /** The ids of a scope in the flattened tree are those of its list of nodes. */
  lemma TopScope(wf: Workflow)
    requires NamedTree(wf)
    ensures ScopeIds(LocateAll(wf), "") == Ids(wf.nodes)
    ensures forall l | l in LocateAll(wf) && l.scope == "" :: InList(wf.nodes, "", wf.keys, [], l)
    ensures forall n | n in wf.nodes :: Located(n, "", wf.keys, []) in LocateAll(wf)
  {
    var ls := LocateAll(wf);
    LocateMembers(wf.nodes, "", wf.keys, []);
    forall l | l in ls && l.scope == ""
      ensures InList(wf.nodes, "", wf.keys, [], l)
    {
      LocatesExactly(wf.nodes, "", wf.keys, [], l);
      if p :| p in ls && ChildOf(p, l) {
        NamesBelow(wf.nodes, "", wf.keys, [], p);
      }
    }
    forall id | id in Ids(wf.nodes)
      ensures id in ScopeIds(ls, "")
    {
      var n :| n in wf.nodes && n.id == id;
      assert Located(n, "", wf.keys, []).node.id == id;
    }
  }

  lemma GroupScope(wf: Workflow, p: Located)
    requires NamedTree(wf) && p in LocateAll(wf) && p.node.group.Some?
    ensures ScopeIds(LocateAll(wf), p.node.id) == Ids(p.node.group.value.nodes)
    ensures forall l | l in LocateAll(wf) && l.scope == p.node.id :: ChildOf(p, l)
    ensures forall n | n in p.node.group.value.nodes ::
              Located(n, p.node.id, p.node.group.value.keys, p.stack + [p.node.id]) in LocateAll(wf)
  {
    var ls := LocateAll(wf);
    var g := p.node.group.value;
    NamesBelow(wf.nodes, "", wf.keys, [], p);
    IndexMembers(ls);
    forall l | l in ls && l.scope == p.node.id
      ensures ChildOf(p, l)
    {
      LocatesExactly(wf.nodes, "", wf.keys, [], l);
      var q :| q in ls && ChildOf(q, l);
      assert IndexOf(ls)[q.node.id] == q && IndexOf(ls)[p.node.id] == p;
    }
    forall n | n in g.nodes
      ensures Located(n, p.node.id, g.keys, p.stack + [p.node.id]) in ls
    {
      var l := Located(n, p.node.id, g.keys, p.stack + [p.node.id]);
      assert ChildOf(p, l);
      LocatesExactly(wf.nodes, "", wf.keys, [], l);
    }
    forall id | id in Ids(g.nodes)
      ensures id in ScopeIds(ls, p.node.id)
    {
      var n :| n in g.nodes && n.id == id;
      assert Located(n, p.node.id, g.keys, p.stack + [p.node.id]).node.id == id;
    }
  }

  // ---- Links ----

  lemma KeyRulesAgree(keys: map<string, Id>, here: set<Id>)
    ensures KeyRules(keys, here) <==> KeysOk(keys, here)
  {
  }

  /** From the flat rules down: every node of the tree satisfies the recursive check. */
  lemma {:induction false} LinksDown(wf: Workflow, n: Node, l: Located)
    requires NamedTree(wf) && l in LocateAll(wf) && l.node == n
    requires forall m | m in LocateAll(wf) :: LinkRules(LocateAll(wf), m)
    ensures LinksOk(n, ScopeIds(LocateAll(wf), l.scope), l.keys)
    decreases n
  {
    assert LinkRules(LocateAll(wf), l);
    if n.group.Some? {
      var g := n.group.value;
      GroupScope(wf, l);
      KeyRulesAgree(g.keys, Ids(g.nodes));
      forall i | 0 <= i < |g.nodes|
        ensures LinksOk(g.nodes[i], Ids(g.nodes), g.keys)
      {
        LinksDown(wf, g.nodes[i], Located(g.nodes[i], n.id, g.keys, l.stack + [n.id]));
      }
      assert ScopeLinksOk(g.nodes, Ids(g.nodes), g.keys);
    }
  }

  /** From the recursive check up: every located node satisfies it with the ids of its own scope. */
  lemma {:induction false} LinksUp(wf: Workflow, l: Located)
    requires NamedTree(wf) && l in LocateAll(wf) && ScopeLinksOk(wf.nodes, Ids(wf.nodes), wf.keys)
    ensures LinksOk(l.node, ScopeIds(LocateAll(wf), l.scope), l.keys) && LinkRules(LocateAll(wf), l)
    decreases |l.stack|
  {
    LocatesExactly(wf.nodes, "", wf.keys, [], l);
    if InList(wf.nodes, "", wf.keys, [], l) {
      TopScope(wf);
    } else {
      var p :| p in LocateAll(wf) && ChildOf(p, l);
      LinksUp(wf, p);
      GroupScope(wf, p);
    }
    if l.node.group.Some? {
      GroupScope(wf, l);
      KeyRulesAgree(l.node.group.value.keys, Ids(l.node.group.value.nodes));
    }
  }

  // ---- Blocks ----

  /** The block rules of one scope, over its list of nodes. */
  ghost predicate ScopeBlockRules(ls: seq<Located>, nodes: seq<Node>, scope: Id, keys: map<string, Id>, stack: seq<Id>) {
    forall n | n in nodes :: BlockRules(ls, Located(n, scope, keys, stack))
  }

  /** The flattened tree holds the list of nodes as the scope, and the list names no node twice. */
  ghost predicate IsScope(ls: seq<Located>, nodes: seq<Node>, scope: Id, keys: map<string, Id>, stack: seq<Id>) {
    && DistinctNodes(nodes) && ScopeIds(ls, scope) == Ids(nodes)
    && (forall l | l in ls && l.scope == scope :: InList(nodes, scope, keys, stack, l))
    && forall n | n in nodes :: Located(n, scope, keys, stack) in ls
  }

  lemma RulesOfTargets(ls: seq<Located>, nodes: seq<Node>, scope: Id, keys: map<string, Id>, stack: seq<Id>, n: Node)
    requires IsScope(ls, nodes, scope, keys, stack) && n in nodes && IsStart(n)
    ensures TargetsOk(n, nodes) <==>
            (n.branches.Some? ==> forall name | name in n.branches.value :: n.branches.value[name] != n.id && n.branches.value[name] in ScopeIds(ls, scope))
            && exists e :: e in ls && e.scope == scope && e.node.id == n.endNode && e.node.typ.ParallelEnd?
  {
    if e :| e in nodes && e.id == n.endNode && e.typ.ParallelEnd? {
      var l := Located(e, scope, keys, stack);
      assert l in ls && l.scope == scope && l.node.id == n.endNode && l.node.typ.ParallelEnd?;
    }
    if e :| e in ls && e.scope == scope && e.node.id == n.endNode && e.node.typ.ParallelEnd? {
      assert InList(nodes, scope, keys, stack, e);
      assert e.node in nodes && e.node.id == n.endNode && e.node.typ.ParallelEnd?;
    }
  }

  lemma RulesOfEnds(ls: seq<Located>, nodes: seq<Node>, scope: Id, keys: map<string, Id>, stack: seq<Id>, n: Node)
    requires IsScope(ls, nodes, scope, keys, stack) && n in nodes
    ensures (exists s | s in nodes :: ResolvedStart(s) && s.endNode == n.id) <==>
            exists s :: s in ls && s.scope == scope && IsStart(s.node) && s.node.endNode == n.id
  {
    if s :| s in nodes && ResolvedStart(s) && s.endNode == n.id {
      var l := Located(s, scope, keys, stack);
      assert l in ls && l.scope == scope && IsStart(l.node) && l.node.endNode == n.id;
    }
    if s :| s in ls && s.scope == scope && IsStart(s.node) && s.node.endNode == n.id {
      assert InList(nodes, scope, keys, stack, s);
    }
  }

  ghost predicate JoinsAlone(ls: seq<Located>, l: Located) {
    forall m | m in ls && m.scope == l.scope && IsStart(m.node) && m.node.endNode == l.node.endNode :: m == l
  }

  lemma RulesOfJoins(ls: seq<Located>, nodes: seq<Node>, scope: Id, keys: map<string, Id>, stack: seq<Id>)
    requires IsScope(ls, nodes, scope, keys, stack)
    ensures JoinsDistinct(nodes) <==> forall n | n in nodes && IsStart(n) :: JoinsAlone(ls, Located(n, scope, keys, stack))
  {
    if JoinsDistinct(nodes) {
      forall n, m | n in nodes && IsStart(n) && m in ls && m.scope == scope && IsStart(m.node) && m.node.endNode == n.endNode
        ensures m == Located(n, scope, keys, stack)
      {
        assert InList(nodes, scope, keys, stack, m);
        var i :| 0 <= i < |nodes| && nodes[i] == n;
        var j :| 0 <= j < |nodes| && nodes[j] == m.node;
        assert ResolvedStart(nodes[i]) && ResolvedStart(nodes[j]);
      }
    }
    if forall n | n in nodes && IsStart(n) :: JoinsAlone(ls, Located(n, scope, keys, stack)) {
      forall i, j | 0 <= i < j < |nodes| && ResolvedStart(nodes[i]) && ResolvedStart(nodes[j])
        ensures nodes[i].endNode != nodes[j].endNode
      {
        var a, b := Located(nodes[i], scope, keys, stack), Located(nodes[j], scope, keys, stack);
        assert nodes[i] in nodes && nodes[j] in nodes && a in ls && b in ls && a.node.id != b.node.id;
        assert IsStart(nodes[i]) && JoinsAlone(ls, a);
      }
    }
  }

  /** One scope passes the recursive check exactly when its nodes satisfy the flat rules. */
  lemma BlocksAgree(ls: seq<Located>, nodes: seq<Node>, scope: Id, keys: map<string, Id>, stack: seq<Id>)
    requires IsScope(ls, nodes, scope, keys, stack)
    ensures BlocksOk(nodes) <==> ScopeBlockRules(ls, nodes, scope, keys, stack)
  {
    RulesOfJoins(ls, nodes, scope, keys, stack);
    forall n | n in nodes
      ensures IsStart(n) <==> ResolvedStart(n)
      ensures IsEnd(n) <==> ResolvedEnd(n)
      ensures BlockRules(ls, Located(n, scope, keys, stack)) <==>
              (IsStart(n) ==> TargetsOk(n, nodes) && JoinsAlone(ls, Located(n, scope, keys, stack)))
              && (IsEnd(n) ==> exists s | s in nodes :: ResolvedStart(s) && s.endNode == n.id)
    {
      if IsStart(n) {
        RulesOfTargets(ls, nodes, scope, keys, stack, n);
      }
      RulesOfEnds(ls, nodes, scope, keys, stack, n);
    }
  }

  lemma {:induction false} FreshScopes(wf: Workflow, p: Located)
    requires DistinctIds(LocateAll(wf)) && p in LocateAll(wf) && p.node.group.Some?
    ensures Fresh({}, TreeIds(p.node.group.value.nodes))
    decreases |p.stack|
  {
    LocatesExactly(wf.nodes, "", wf.keys, [], p);
    if InList(wf.nodes, "", wf.keys, [], p) {
      DistinctIffFresh(wf);
      var i :| 0 <= i < |wf.nodes| && wf.nodes[i] == p.node;
      NestedIsFresh(wf.nodes, i);
    } else {
      var q :| q in LocateAll(wf) && ChildOf(q, p);
      FreshScopes(wf, q);
      var nodes := q.node.group.value.nodes;
      var i :| 0 <= i < |nodes| && nodes[i] == p.node;
      NestedIsFresh(nodes, i);
    }
  }

  lemma TopIsScope(wf: Workflow)
    requires NamedTree(wf)
    ensures IsScope(LocateAll(wf), wf.nodes, "", wf.keys, [])
  {
    TopScope(wf);
    DistinctIffFresh(wf);
    ScopeIsDistinct(wf.nodes);
  }

  lemma GroupIsScope(wf: Workflow, p: Located)
    requires NamedTree(wf) && p in LocateAll(wf) && p.node.group.Some?
    ensures IsScope(LocateAll(wf), p.node.group.value.nodes, p.node.id, p.node.group.value.keys, p.stack + [p.node.id])
  {
    GroupScope(wf, p);
    FreshScopes(wf, p);
    ScopeIsDistinct(p.node.group.value.nodes);
  }

  /** From the flat rules down: the scope of every group passes the recursive check. */
  lemma {:induction false} BlocksDown(wf: Workflow, nodes: seq<Node>, scope: Id, keys: map<string, Id>, stack: seq<Id>)
    requires NamedTree(wf) && IsScope(LocateAll(wf), nodes, scope, keys, stack)
    requires forall m | m in LocateAll(wf) :: BlockRules(LocateAll(wf), m)
    ensures ParallelScopeOk(nodes)
    decreases nodes
  {
    BlocksAgree(LocateAll(wf), nodes, scope, keys, stack);
    forall i | 0 <= i < |nodes| && nodes[i].group.Some?
      ensures ParallelScopeOk(nodes[i].group.value.nodes)
    {
      var p := Located(nodes[i], scope, keys, stack);
      assert nodes[i] in nodes;
      GroupIsScope(wf, p);
      BlocksDown(wf, nodes[i].group.value.nodes, nodes[i].id, nodes[i].group.value.keys, stack + [nodes[i].id]);
    }
  }

  /** From the recursive check up: every group's scope passes it, so every located node satisfies the rules. */
  lemma {:induction false} BlocksUp(wf: Workflow, l: Located)
    requires NamedTree(wf) && l in LocateAll(wf) && ParallelScopeOk(wf.nodes)
    ensures BlockRules(LocateAll(wf), l) && (l.node.group.Some? ==> ParallelScopeOk(l.node.group.value.nodes))
    decreases |l.stack|
  {
    LocatesExactly(wf.nodes, "", wf.keys, [], l);
    if InList(wf.nodes, "", wf.keys, [], l) {
      TopIsScope(wf);
      BlocksAgree(LocateAll(wf), wf.nodes, "", wf.keys, []);
    } else {
      var p :| p in LocateAll(wf) && ChildOf(p, l);
      BlocksUp(wf, p);
      GroupIsScope(wf, p);
      BlocksAgree(LocateAll(wf), p.node.group.value.nodes, p.node.id, p.node.group.value.keys, p.stack + [p.node.id]);
    }
  }

  /** The recursive checks accept exactly the definitions whose flattened tree satisfies the rules. */
  lemma ScopesAcceptedExactly(wf: Workflow)
    requires WellParsed(wf.nodes)
    ensures ScopesAccepted(wf) <==> FlatRules(wf)
  {
    if DistinctIds(LocateAll(wf)) {
      TopIsScope(wf);
      KeyRulesAgree(wf.keys, Ids(wf.nodes));
      if FlatRules(wf) {
        FlatIsAccepted(wf);
      }
      if ScopesAccepted(wf) {
        forall l | l in LocateAll(wf)
          ensures LinkRules(LocateAll(wf), l) && BlockRules(LocateAll(wf), l)
        {
          LinksUp(wf, l);
          BlocksUp(wf, l);
        }
      }
    }
  }

  lemma FlatIsAccepted(wf: Workflow)
    requires NamedTree(wf) && FlatRules(wf)
    ensures ScopeLinksOk(wf.nodes, Ids(wf.nodes), wf.keys) && ParallelScopeOk(wf.nodes)
  {
    TopIsScope(wf);
    BlocksDown(wf, wf.nodes, "", wf.keys, []);
    forall n | n in wf.nodes
      ensures LinksOk(n, Ids(wf.nodes), wf.keys)
    {
      LinksDown(wf, n, Located(n, "", wf.keys, []));
    }
  }
}
