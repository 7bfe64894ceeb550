/** The flattened view of a workflow tree: every node with the keys of its scope
    and its enclosing group chain, and why links never leave a scope.

    Sources: internal/workflow/engine/graph.go, internal/workflow/model/parallel.go:98-129. */
module WorkflowGraph {
  import opened WorkflowTree

  /** A node together with where it sits: the id of the group holding it ("" at
      top level), the keys of that scope and the group chain, outermost first. */
  datatype Located = Located(node: Node, scope: Id, keys: map<string, Id>, stack: seq<Id>)

  type Index = map<Id, Located>

  // ---- Flattening ----

  function Below(n: Node, stack: seq<Id>): seq<Located>
    decreases n, 1
  {
    match n.group
    case None => []
    case Some(g) => Locate(g.nodes, n.id, g.keys, stack + [n.id])
  }

  /** Every node below `nodes`, in the pre-order both index builders walk. */
  function Locate(nodes: seq<Node>, scope: Id, keys: map<string, Id>, stack: seq<Id>): seq<Located>
    decreases nodes, 0
  {
    if nodes == [] then []
    else [Located(nodes[0], scope, keys, stack)] + Below(nodes[0], stack)
         + Locate(nodes[1..], scope, keys, stack)
  }

  function LocateAll(wf: Workflow): seq<Located> {
    Locate(wf.nodes, "", wf.keys, [])
  }

  predicate DistinctIds(ls: seq<Located>) {
    forall i, j | 0 <= i < j < |ls| :: ls[i].node.id != ls[j].node.id
  }

  /** Both builders fill maps in order, so a later node would win over an earlier one. */
  function IndexOf(ls: seq<Located>): Index {
    if ls == [] then map[]
    else IndexOf(ls[..|ls| - 1])[ls[|ls| - 1].node.id := ls[|ls| - 1]]
  }

  function GraphOf(wf: Workflow): Index {
    IndexOf(LocateAll(wf))
  }

  lemma {:induction false} IndexMembers(ls: seq<Located>)
    ensures forall id | id in IndexOf(ls) :: IndexOf(ls)[id] in ls && IndexOf(ls)[id].node.id == id
    ensures forall l | l in ls :: l.node.id in IndexOf(ls)
    ensures DistinctIds(ls) ==> forall l | l in ls :: IndexOf(ls)[l.node.id] == l
  {
    if ls != [] {
      var init, last := ls[..|ls| - 1], ls[|ls| - 1];
      IndexMembers(init);
      assert ls == init + [last];
      if DistinctIds(ls) {
        assert forall l | l in init :: l.node.id != last.node.id;
      }
    }
  }

  // ---- What the scope rules say about one located node ----

  ghost predicate PlacedAt(ls: seq<Located>, id: Id, stack: seq<Id>) {
    exists m | m in ls :: m.node.id == id && m.stack == stack
  }

  /** Every link of `l` names a node of `ls` in the same scope; a group start
      names a node one level down; the stack lists the enclosing groups. */
  ghost predicate LinksPlaced(l: Located, ls: seq<Located>) {
    var n := l.node;
    && (n.next != "" ==> PlacedAt(ls, n.next, l.stack))
    && (n.onFailure.Some? ==> PlacedAt(ls, n.onFailure.value, l.stack))
    && (n.typ.Conditions? ==> forall k | k in n.conditions && k != "" :: k in l.keys)
    && (forall k | k in l.keys && l.keys[k] != "" :: PlacedAt(ls, l.keys[k], l.stack))
    && (n.typ.Group? && !Opaque(n) ==>
          n.group.Some? && PlacedAt(ls, n.group.value.start, l.stack + [n.id]))
    && (n.typ.ParallelStart? && !Opaque(n) ==>
          && n.branches.Some?
          && PlacedAt(ls, n.endNode, l.stack)
          && forall b | b in n.branches.value :: PlacedAt(ls, n.branches.value[b], l.stack))
  }

  ghost predicate ChainPlaced(l: Located, base: seq<Id>, ls: seq<Located>) {
    && base <= l.stack
    && forall i | |base| <= i < |l.stack| :: PlacedAt(ls, l.stack[i], l.stack[..i])
  }

  lemma {:induction false} LocateMembers(nodes: seq<Node>, scope: Id, keys: map<string, Id>, stack: seq<Id>)
    ensures forall n | n in nodes :: Located(n, scope, keys, stack) in Locate(nodes, scope, keys, stack)
    ensures forall n, l | n in nodes && l in Below(n, stack) :: l in Locate(nodes, scope, keys, stack)
    ensures forall l | l in Locate(nodes, scope, keys, stack) ::
              (l.node in nodes && l == Located(l.node, scope, keys, stack)) || exists n | n in nodes :: l in Below(n, stack)
    decreases |nodes|
  {
    if nodes != [] {
      LocateMembers(nodes[1..], scope, keys, stack);
      var rest := Locate(nodes[1..], scope, keys, stack);
      var ls := Locate(nodes, scope, keys, stack);
      assert nodes == [nodes[0]] + nodes[1..];
      forall l | l in ls
        ensures (l.node in nodes && l == Located(l.node, scope, keys, stack)) || exists n | n in nodes :: l in Below(n, stack)
      {
        assert l == Located(nodes[0], scope, keys, stack) || l in Below(nodes[0], stack) || l in rest;
        if l in Below(nodes[0], stack) {
          assert nodes[0] in nodes;
        } else if l in rest && !(l.node in nodes[1..] && l == Located(l.node, scope, keys, stack)) {
          var n :| n in nodes[1..] && l in Below(n, stack);
          assert n in nodes;
        }
      }
    }
  }

  lemma SiblingsPlaced(nodes: seq<Node>, scope: Id, keys: map<string, Id>, stack: seq<Id>)
    ensures forall id | id in Ids(nodes) :: PlacedAt(Locate(nodes, scope, keys, stack), id, stack)
  {
    LocateMembers(nodes, scope, keys, stack);
    forall id | id in Ids(nodes)
      ensures PlacedAt(Locate(nodes, scope, keys, stack), id, stack)
    {
      var n :| n in nodes && n.id == id;
      assert Located(n, scope, keys, stack) in Locate(nodes, scope, keys, stack);
    }
  }

  ghost predicate Sound(ls: seq<Located>, stack: seq<Id>) {
    forall l | l in ls :: l.node.id != "" && LinksPlaced(l, ls) && ChainPlaced(l, stack, ls)
  }

  /** The scope rules, checked scope by scope, hold of the whole flattened tree. */
  lemma {:induction false} ScopesAreSound(nodes: seq<Node>, scope: Id, keys: map<string, Id>, stack: seq<Id>)
    requires WellParsed(nodes) && KeysOk(keys, Ids(nodes))
    requires ScopeLinksOk(nodes, Ids(nodes), keys) && ParallelScopeOk(nodes)
    ensures Sound(Locate(nodes, scope, keys, stack), stack)
    decreases nodes
  {
    var ls := Locate(nodes, scope, keys, stack);
    LocateMembers(nodes, scope, keys, stack);
    SiblingsPlaced(nodes, scope, keys, stack);
    forall l | l in ls
      ensures l.node.id != "" && LinksPlaced(l, ls) && ChainPlaced(l, stack, ls)
    {
      if l.node in nodes && l == Located(l.node, scope, keys, stack) {
        TopNodePlaced(l.node, nodes, scope, keys, stack);
      } else {
        var n :| n in nodes && l in Below(n, stack);
        NestedPlaced(n, l, nodes, scope, keys, stack);
      }
    }
  }

  lemma TopNodePlaced(n: Node, nodes: seq<Node>, scope: Id, keys: map<string, Id>, stack: seq<Id>)
    requires n in nodes && WellParsed(nodes) && KeysOk(keys, Ids(nodes))
    requires ScopeLinksOk(nodes, Ids(nodes), keys) && BlocksOk(nodes)
    ensures LinksPlaced(Located(n, scope, keys, stack), Locate(nodes, scope, keys, stack))
  {
    var ls := Locate(nodes, scope, keys, stack);
    SiblingsPlaced(nodes, scope, keys, stack);
    assert LinksOk(n, Ids(nodes), keys);
    if n.typ.Group? && !Opaque(n) {
      var g := n.group.value;
      var below := Below(n, stack);
      SiblingsPlaced(g.nodes, n.id, g.keys, stack + [n.id]);
      assert PlacedAt(below, g.start, stack + [n.id]);
      LocateMembers(nodes, scope, keys, stack);
      assert PlacedAt(ls, g.start, stack + [n.id]);
    }
    if n.typ.ParallelStart? && !Opaque(n) {
      assert ResolvedStart(n) && TargetsOk(n, nodes);
      var e :| e in nodes && e.id == n.endNode && e.typ.ParallelEnd?;
      assert e.id in Ids(nodes);
    }
  }

  lemma {:induction false} NestedPlaced(n: Node, l: Located, nodes: seq<Node>, scope: Id, keys: map<string, Id>, stack: seq<Id>)
    requires n in nodes && l in Below(n, stack)
    requires WellParsed(nodes) && ScopeLinksOk(nodes, Ids(nodes), keys) && ParallelScopeOk(nodes)
    ensures l.node.id != ""
    ensures LinksPlaced(l, Locate(nodes, scope, keys, stack)) && ChainPlaced(l, stack, Locate(nodes, scope, keys, stack))
    decreases nodes, 0
  {
    var ls := Locate(nodes, scope, keys, stack);
    LocateMembers(nodes, scope, keys, stack);
    var g := n.group.value;
    var inner := stack + [n.id];
    assert LinksOk(n, Ids(nodes), keys);
    assert g.nodes != [];
    ScopesAreSound(g.nodes, n.id, g.keys, inner);
    var below := Below(n, stack);
    PlacedMonotone(l, below, ls);
    assert ChainPlaced(l, inner, below);
    assert PlacedAt(ls, n.id, stack) by { assert Located(n, scope, keys, stack) in ls; }
    forall i | |stack| <= i < |l.stack|
      ensures PlacedAt(ls, l.stack[i], l.stack[..i])
    {
      if i == |stack| {
        assert l.stack[..i] == stack && l.stack[i] == inner[i];
      } else {
        assert PlacedAt(below, l.stack[i], l.stack[..i]);
      }
    }
  }

  lemma PlacedMonotone(l: Located, part: seq<Located>, whole: seq<Located>)
    requires LinksPlaced(l, part)
    requires forall m | m in part :: m in whole
    ensures LinksPlaced(l, whole)
  {
    assert forall id, stack :: PlacedAt(part, id, stack) ==> PlacedAt(whole, id, stack);
  }

  // ---- The index of a validated tree ----

  predicate SameScope(loc: Index, l: Located, target: Id) {
    target in loc ==> loc[target].stack == l.stack
  }

  /** Links that resolve stay in their scope. Dangling links and undefined keys are allowed. */
  predicate NodeConsistent(loc: Index, id: Id)
    requires id in loc
  {
    var l := loc[id];
    var n := l.node;
    && n.id == id && id != ""
    && SameScope(loc, l, n.next)
    && (n.onFailure.Some? ==> SameScope(loc, l, n.onFailure.value))
    && (forall k | k in l.keys :: SameScope(loc, l, l.keys[k]))
    && (n.typ.Group? && !Opaque(n) ==>
          n.group.Some? && (n.group.value.start in loc ==> loc[n.group.value.start].stack == l.stack + [id]))
    && (n.typ.ParallelStart? && !Opaque(n) ==>
          n.branches.Some? && SameScope(loc, l, n.endNode)
          && forall b | b in n.branches.value :: SameScope(loc, l, n.branches.value[b]))
    && (forall i | 0 <= i < |l.stack| :: l.stack[i] in loc ==> loc[l.stack[i]].stack == l.stack[..i])
  }

  predicate Consistent(loc: Index) {
    forall id | id in loc :: NodeConsistent(loc, id)
  }

  /** No link of a known node dangles and no condition names an undefined key. */
  predicate NodeClosed(loc: Index, id: Id)
    requires id in loc
  {
    var l := loc[id];
    var n := l.node;
    && (n.next != "" ==> n.next in loc)
    && (n.onFailure.Some? ==> n.onFailure.value in loc)
    && (n.typ.Conditions? ==> forall k | k in n.conditions && k != "" :: k in l.keys)
    && (forall k | k in l.keys && l.keys[k] != "" :: l.keys[k] in loc)
    && (n.typ.Group? && !Opaque(n) ==> n.group.Some? && n.group.value.start in loc)
    && (n.typ.ParallelStart? && !Opaque(n) ==>
          n.branches.Some? && n.endNode in loc
          && forall b | b in n.branches.value :: n.branches.value[b] in loc)
    && (forall i | 0 <= i < |l.stack| :: l.stack[i] in loc)
  }

  predicate Closed(loc: Index) {
    forall id | id in loc :: NodeClosed(loc, id)
  }

  /** No node hides its routing, as after materialization. */
  predicate Transparent(loc: Index) {
    forall id | id in loc :: !Opaque(loc[id].node)
  }

  lemma PlacedIsIndexed(ls: seq<Located>, id: Id, stack: seq<Id>)
    requires DistinctIds(ls) && PlacedAt(ls, id, stack)
    ensures id in IndexOf(ls) && IndexOf(ls)[id].stack == stack
  {
    IndexMembers(ls);
    var m :| m in ls && m.node.id == id && m.stack == stack;
  }

  lemma SoundIndex(ls: seq<Located>)
    requires DistinctIds(ls) && Sound(ls, [])
    ensures Consistent(IndexOf(ls)) && Closed(IndexOf(ls))
  {
    var loc := IndexOf(ls);
    IndexMembers(ls);
    assert "" !in loc;
    assert forall id, stack | PlacedAt(ls, id, stack) :: id in loc && loc[id].stack == stack by {
      forall id, stack | PlacedAt(ls, id, stack)
        ensures id in loc && loc[id].stack == stack
      {
        PlacedIsIndexed(ls, id, stack);
      }
    }
    forall id | id in loc
      ensures NodeConsistent(loc, id) && NodeClosed(loc, id)
    {
      var l := loc[id];
      assert LinksPlaced(l, ls) && ChainPlaced(l, [], ls);
    }
  }

  // The checks of a definition that come before the convergence walk.
  predicate ScopesAccepted(wf: Workflow) {
    && wf.start in Ids(wf.nodes)
    && KeysOk(wf.keys, Ids(wf.nodes))
    && DistinctIds(LocateAll(wf))
    && ScopeLinksOk(wf.nodes, Ids(wf.nodes), wf.keys)
    && ParallelScopeOk(wf.nodes)
  }

  /** A parsed definition that passes the scope checks has a graph whose links all
      resolve, inside their own scope, with the right group chain. */
  lemma AcceptedGraphIsScoped(wf: Workflow)
    requires WellParsed(wf.nodes) && ScopesAccepted(wf)
    ensures Consistent(GraphOf(wf)) && Closed(GraphOf(wf))
    ensures wf.start in GraphOf(wf) && GraphOf(wf)[wf.start].stack == []
  {
    ScopesAreSound(wf.nodes, "", wf.keys, []);
    SoundIndex(LocateAll(wf));
    SiblingsPlaced(wf.nodes, "", wf.keys, []);
    PlacedIsIndexed(LocateAll(wf), wf.start, []);
  }
}
