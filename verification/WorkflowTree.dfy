/** The workflow definition tree and the scope rules its validator enforces.

    Sources: internal/workflow/model/nodecontent.go (the node record),
    internal/workflow/model/workflowcontent.go (ids, links, keys) and
    internal/workflow/model/parallel.go (parallel blocks). */
module WorkflowTree {
  import opened Wrappers
  import Strings

  // Node ids are opaque non-empty strings; "" means "no target".
  type Id = string

  datatype NodeType =
    | Script | Conditions | Input | Group | ExternalCall | Output | Poller
    | ParallelStart | ParallelEnd | Delay | Custom(name: string)
    | Unresolved  // a definition reference whose type is not known yet

  datatype GroupContent = GroupContent(start: Id, keys: map<string, Id>, nodes: seq<Node>)

  /** The routing view of a node. `conditions` holds the key of every condition
      ("" for a condition without one), `branches` is None for Go's nil map and
      `waits` says whether the node has a positive arrival wait. */
  datatype Node = Node(
    id: Id,
    definition: Id,
    typ: NodeType,
    next: Id,
    onFailure: Option<Id>,
    conditions: seq<string>,
    group: Option<GroupContent>,
    branches: Option<map<string, Id>>,
    endNode: Id,
    combining: string,
    waits: bool)

  datatype Workflow = Workflow(start: Id, keys: map<string, Id>, nodes: seq<Node>)

  // Nodes that hide their routing until a definition is materialized.
  predicate Opaque(n: Node) {
    n.definition != "" &&
    match n.typ
    case Conditions => |n.conditions| == 0
    case Group => n.group.None? || |n.group.value.nodes| == 0
    case ParallelStart => n.branches.None?
    case _ => false
  }

  predicate ParallelUnresolved(n: Node) {
    n.definition != "" &&
    match n.typ
    case ParallelStart => n.branches.None?
    case ParallelEnd => n.combining == ""
    case _ => false
  }

  predicate ResolvedStart(n: Node) {
    n.typ.ParallelStart? && !ParallelUnresolved(n)
  }

  predicate ResolvedEnd(n: Node) {
    n.typ.ParallelEnd? && !ParallelUnresolved(n)
  }

  function Ids(nodes: seq<Node>): set<Id> {
    set n | n in nodes :: n.id
  }

  /** What node parsing guarantees before any cross-node check runs. */
  predicate WellParsed(nodes: seq<Node>) {
    forall n | n in nodes ::
      && n.id != ""
      && (n.typ.ParallelStart? && n.definition == "" ==> n.branches.Some?)
      && (n.typ.Group? && !Opaque(n) ==> n.group.Some? && n.group.value.start in Ids(n.group.value.nodes))
      && (n.group.Some? ==> WellParsed(n.group.value.nodes))
  }

  // ---- Links and keys (workflowcontent.go:167-214) ----

  predicate KeysOk(keys: map<string, Id>, siblings: set<Id>) {
    forall k | k in keys :: !Strings.Blank(k) && (keys[k] != "" ==> keys[k] in siblings)
  }

  predicate LinksOk(n: Node, siblings: set<Id>, keys: map<string, Id>) {
    && (n.next != "" ==> n.next in siblings)
    && (n.onFailure.Some? ==> n.onFailure.value in siblings)
    && (n.typ.Conditions? ==> forall k | k in n.conditions && k != "" :: k in keys)
    && (n.group.Some? ==>
          var g := n.group.value;
          (n.definition != "" && |g.nodes| == 0)
          || (KeysOk(g.keys, Ids(g.nodes)) && ScopeLinksOk(g.nodes, Ids(g.nodes), g.keys)))
  }

  predicate ScopeLinksOk(nodes: seq<Node>, siblings: set<Id>, keys: map<string, Id>) {
    forall n | n in nodes :: LinksOk(n, siblings, keys)
  }

  // ---- Parallel blocks of one scope and of every scope below it (parallel.go:33-80) ----

  predicate TargetsOk(s: Node, nodes: seq<Node>) {
    && (s.branches.Some? ==>
          forall name | name in s.branches.value ::
            s.branches.value[name] != s.id && s.branches.value[name] in Ids(nodes))
    && exists e | e in nodes :: e.id == s.endNode && e.typ.ParallelEnd?
  }

  predicate JoinsDistinct(nodes: seq<Node>) {
    forall i, j | 0 <= i < j < |nodes| && ResolvedStart(nodes[i]) && ResolvedStart(nodes[j]) ::
      nodes[i].endNode != nodes[j].endNode
  }

  predicate BlocksOk(nodes: seq<Node>) {
    && (forall s | s in nodes && ResolvedStart(s) :: TargetsOk(s, nodes))
    && JoinsDistinct(nodes)
    && (forall e | e in nodes && ResolvedEnd(e) ::
          exists s | s in nodes :: ResolvedStart(s) && s.endNode == e.id)
  }

  predicate ParallelScopeOk(nodes: seq<Node>) {
    && BlocksOk(nodes)
    && (forall n | n in nodes && n.group.Some? :: ParallelScopeOk(n.group.value.nodes))
  }
}
