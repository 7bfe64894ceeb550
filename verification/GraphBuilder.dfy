/** The engine's graph index: three maps filled by one recursive walk of the tree.

    Source: internal/workflow/engine/graph.go:17-86. */
module GraphBuilder {
  import opened Wrappers
  import opened WorkflowTree
  import opened WorkflowGraph

  lemma {:induction false} LocateSnoc(nodes: seq<Node>, i: nat, scope: Id, keys: map<string, Id>, stack: seq<Id>)
    requires i < |nodes|
    ensures Locate(nodes[..i + 1], scope, keys, stack) ==
            Locate(nodes[..i], scope, keys, stack) + ([Located(nodes[i], scope, keys, stack)] + Below(nodes[i], stack))
    decreases i
  {
    if i == 0 {
      assert nodes[..1] == [nodes[0]];
    } else {
      LocateSnoc(nodes[1..], i - 1, scope, keys, stack);
      assert nodes[..i + 1][1..] == nodes[1..][..i] && nodes[..i][1..] == nodes[1..][..i - 1];
    }
  }

  lemma IndexSnoc(ls: seq<Located>, l: Located)
    ensures IndexOf(ls + [l]) == IndexOf(ls)[l.node.id := l]
  {
    assert (ls + [l])[..|ls|] == ls;
  }

  /** Walking one more node adds the node and everything below it. */
  lemma Appended(nodes: seq<Node>, i: nat, scope: Id, keys: map<string, Id>, stack: seq<Id>, before: seq<Located>)
    requires i < |nodes|
    ensures var so := before + Locate(nodes[..i], scope, keys, stack);
            before + Locate(nodes[..i + 1], scope, keys, stack) ==
            so + [Located(nodes[i], scope, keys, stack)] + Below(nodes[i], stack)
  {
    LocateSnoc(nodes, i, scope, keys, stack);
  }

  class Graph {
    var byId: map<Id, Node>
    var keysByNode: map<Id, map<string, Id>>
    var stackByNode: map<Id, seq<Id>>

    /** The three maps are the columns of `loc`. */
    ghost predicate Holds(loc: Index)
      reads this
    {
      && (forall id :: id in byId <==> id in loc)
      && (forall id :: id in keysByNode <==> id in loc)
      && (forall id :: id in stackByNode <==> id in loc)
      && (forall id | id in loc :: byId[id] == loc[id].node)
      && (forall id | id in loc :: keysByNode[id] == loc[id].keys)
      && (forall id | id in loc :: stackByNode[id] == loc[id].stack)
    }

    constructor (wf: Workflow)
      ensures Holds(GraphOf(wf))
    {
      byId, keysByNode, stackByNode := map[], map[], map[];
      new;
      assert [] + LocateAll(wf) == LocateAll(wf);
      Walk(wf.nodes, "", wf.keys, [], []);
    }

    /** Record one node; an id seen again replaces the earlier entry. */
    method Put(n: Node, ghost scope: Id, keys: map<string, Id>, ancestors: seq<Id>, ghost loc: Index)
      requires Holds(loc)
      modifies this
      ensures Holds(loc[n.id := Located(n, scope, keys, ancestors)])
    {
      byId := byId[n.id := n];
      keysByNode := keysByNode[n.id := keys];
      stackByNode := stackByNode[n.id := ancestors];
    }

    /** Records `nodes` and everything below them after the nodes of `before`. */
    method Walk(nodes: seq<Node>, ghost scope: Id, keys: map<string, Id>, ancestors: seq<Id>, ghost before: seq<Located>)
      requires Holds(IndexOf(before))
      modifies this
      ensures Holds(IndexOf(before + Locate(nodes, scope, keys, ancestors)))
      decreases nodes, 0
    {
      assert before + Locate(nodes[..0], scope, keys, ancestors) == before;
      for i := 0 to |nodes|
        invariant Holds(IndexOf(before + Locate(nodes[..i], scope, keys, ancestors)))
      {
        Appended(nodes, i, scope, keys, ancestors, before);
        WalkNode(nodes[i], scope, keys, ancestors, before + Locate(nodes[..i], scope, keys, ancestors));
      }
      assert nodes[..|nodes|] == nodes;
    }

    method WalkNode(n: Node, ghost scope: Id, keys: map<string, Id>, ancestors: seq<Id>, ghost before: seq<Located>)
      requires Holds(IndexOf(before))
      modifies this
      ensures Holds(IndexOf(before + [Located(n, scope, keys, ancestors)] + Below(n, ancestors)))
      decreases n, 1
    {
      ghost var l := Located(n, scope, keys, ancestors);
      IndexSnoc(before, l);
      Put(n, scope, keys, ancestors, IndexOf(before));
      if n.group.Some? {
        Walk(n.group.value.nodes, n.id, n.group.value.keys, ancestors + [n.id], before + [l]);
      } else {
        assert before + [l] + [] == before + [l];
      }
    }

    /** The target a condition key has in the scope of a node, as the index gives it. */
    method KeyTarget(id: Id, key: string, ghost loc: Index) returns (r: Option<Id>)
      requires Holds(loc)
      ensures r == if id in loc && key in loc[id].keys then Some(loc[id].keys[key]) else None
    {
      return if id in keysByNode && key in keysByNode[id] then Some(keysByNode[id][key]) else None;
    }

    /** The enclosing groups of a node, outermost first; None for an unknown node. */
    method GroupStack(id: Id, ghost loc: Index) returns (r: Option<seq<Id>>)
      requires Holds(loc)
      ensures r == if id in loc then Some(loc[id].stack) else None
    {
      return if id in stackByNode then Some(stackByNode[id]) else None;
    }
  }
}
