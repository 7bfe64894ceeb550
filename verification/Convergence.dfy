/** The convergence walk: an abstract cursor explores every path of one branch of a
    parallel block, and accepts exactly when no path can end outside the join.

    Source: internal/workflow/model/parallel.go:131-264. */
module Convergence {
  import opened Wrappers
  import opened WorkflowTree
  import opened WorkflowGraph
  import opened Kernel
  import opened Worklist

  // ---- One step of the abstract cursor ----

  /** The links a node may finish along; None is a condition key its scope does not define. */
  function Routes(l: Located): seq<Option<Id>> {
    Finishes(l) + (if l.node.onFailure.Some? then [Some(l.node.onFailure.value)] else [])
  }

  function Finishes(l: Located): seq<Option<Id>> {
    match l.node.typ
    case ParallelStart => []
    case Group => []
    case Conditions => seq(|l.node.conditions|, i requires 0 <= i < |l.node.conditions| => KeyRoute(l, l.node.conditions[i]))
    case _ => [Some(l.node.next)]
  }

  function KeyRoute(l: Located, key: string): Option<Id> {
    if key == "" then Some("") else if key in l.keys then Some(l.keys[key]) else None
  }

  /** Where a route leads without leaving the first `floor` groups; None when it leads nowhere. */
  function Landing(loc: Index, route: Option<Id>, stack: seq<Id>, floor: nat): Option<Cursor> {
    if route.None? then None
    else
      var r := Climb(loc, route.value, stack, floor);
      if r.Landed? && r.next != "" then Some(Cursor(r.next, r.stack)) else None
  }

  /** Moves that do not finish the node: a nested block jumps to its join, a group is entered. */
  function Jumps(n: Node, stack: seq<Id>): set<Cursor> {
    if n.typ.ParallelStart? then {Cursor(n.endNode, stack)}
    else if n.typ.Group? && n.group.Some? then {Cursor(n.group.value.start, stack + [n.id])}
    else {}
  }

  predicate OwnStart(s: Located, n: Node) {
    n.typ.ParallelStart? && n.id == s.node.id
  }

  /** Cursors one step after `c` inside the block started at `s`. */
  function Next(loc: Index, s: Located, c: Cursor): set<Cursor> {
    if c.node == s.node.endNode || c.node !in loc then {}
    else
      var l := loc[c.node];
      if Opaque(l.node) || OwnStart(s, l.node) then {}
      else Jumps(l.node, c.stack) + Landings(loc, s, c)
  }

  function Landings(loc: Index, s: Located, c: Cursor): set<Cursor>
    requires c.node in loc
  {
    set r | r in Routes(loc[c.node]) && Landing(loc, r, c.stack, |s.stack|).Some? ::
      Landing(loc, r, c.stack, |s.stack|).value
  }

  /** `c` is at the join, or is a known node none of whose routes leaves the block. */
  predicate Clean(loc: Index, s: Located, c: Cursor) {
    c.node == s.node.endNode ||
    (c.node in loc &&
     (Opaque(loc[c.node].node) ||
      (!OwnStart(s, loc[c.node].node) && AllLand(loc, s, c))))
  }

  predicate AllLand(loc: Index, s: Located, c: Cursor)
    requires c.node in loc
  {
    forall r | r in Routes(loc[c.node]) :: Landing(loc, r, c.stack, |s.stack|).Some?
  }

  // ---- Reachability ----

  function Steps(loc: Index, s: Located): Cursor -> set<Cursor> {
    c => Next(loc, s, c)
  }

  function BranchEntry(s: Located, target: Id): Cursor {
    Cursor(target, s.stack)
  }

  /** `c` is a cursor of the branch of block `s` that starts at `target`. */
  ghost predicate InBranch(loc: Index, s: Located, target: Id, c: Cursor) {
    Reachable(Steps(loc, s), BranchEntry(s, target), c)
  }

  /** What acceptance of a branch means: every cursor is clean and some cursor is at the join. */
  ghost predicate Converges(loc: Index, s: Located, target: Id) {
    AllClean(loc, s, target) && JoinInBranch(loc, s, target)
  }

  ghost predicate AllClean(loc: Index, s: Located, target: Id) {
    forall c | InBranch(loc, s, target, c) :: Clean(loc, s, c)
  }

  ghost predicate JoinInBranch(loc: Index, s: Located, target: Id) {
    exists c :: InBranch(loc, s, target, c) && c.node == s.node.endNode
  }

  predicate StartsBlock(loc: Index, s: Located, c: Cursor) {
    c.node != s.node.endNode && c.node in loc && loc[c.node].node.typ.ParallelStart? && !Opaque(loc[c.node].node)
  }

  /** Some cursor of this branch starts block `q`. */
  ghost predicate Nests(loc: Index, s: Located, target: Id, q: Id) {
    exists c :: InBranch(loc, s, target, c) && c.node == q && StartsBlock(loc, s, c)
  }

  /** Every step keeps the cursor's stack equal to its node's group chain. */
  lemma NextStaysOnChain(loc: Index, s: Located, c: Cursor, d: Cursor)
    requires Consistent(loc) && OnChain(loc, c) && d in Next(loc, s, c)
    ensures OnChain(loc, d)
  {
    var l := loc[c.node];
    assert NodeConsistent(loc, c.node);
    if d !in Jumps(l.node, c.stack) {
      var r :| r in Routes(l) && Landing(loc, r, c.stack, |s.stack|) == Some(d);
      RouteStaysInScope(loc, c.node, r);
      ClimbStaysOnChain(loc, r.value, c.stack, |s.stack|);
    }
  }

  lemma RouteStaysInScope(loc: Index, id: Id, r: Option<Id>)
    requires Consistent(loc) && id in loc && r in Routes(loc[id]) && r.Some?
    ensures SameScope(loc, loc[id], r.value)
  {
    var l := loc[id];
    assert NodeConsistent(loc, id);
    if r in Finishes(l) && l.node.typ.Conditions? {
      var i :| 0 <= i < |l.node.conditions| && r == KeyRoute(l, l.node.conditions[i]);
    }
  }

  // ---- The walk ----

  function ParentsOf(parents: map<Id, set<Id>>, q: Id): set<Id> {
    if q in parents then parents[q] else {}
  }

  /** The walker's copy of the cursor machine's advance. */
  method AdvanceWithin(loc: Index, next: Id, stack: seq<Id>, floor: nat) returns (r: Option<Cursor>)
    ensures r == Landing(loc, Some(next), stack, floor)
    ensures next != "" ==> r == Some(Cursor(next, stack))
    ensures next == "" && AllPassed(loc, stack, floor) ==> r == None
    ensures forall k: nat | next == "" && StopsAt(loc, stack, floor, k) ::
              r == if stack[k] in loc then Some(Cursor(loc[stack[k]].node.next, stack[..k])) else None
  {
    if |stack| >= floor {
      ClimbLands(loc, next, stack, floor);
    }
    var link, st := next, stack;
    while link == "" && |st| > floor
      invariant Landing(loc, Some(link), st, floor) == Landing(loc, Some(next), stack, floor)
      decreases |st|
    {
      var group := st[|st| - 1];
      st := st[..|st| - 1];
      if group !in loc {
        return None;
      }
      link := loc[group].node.next;
    }
    return if link == "" then None else Some(Cursor(link, st));
  }

  /** Successors of one known, transparent node; fails as soon as a route leads nowhere. */
  method Expand(loc: Index, s: Located, c: Cursor) returns (ok: bool, pushed: seq<Cursor>)
    requires c.node in loc && c.node != s.node.endNode
    requires !Opaque(loc[c.node].node) && !OwnStart(s, loc[c.node].node)
    requires loc[c.node].node.typ.Group? ==> loc[c.node].node.group.Some?
    ensures ok <==> AllLand(loc, s, c)
    ensures ok ==> forall d :: d in pushed <==> d in Next(loc, s, c)
  {
    var l := loc[c.node];
    var n := l.node;
    var routes: seq<Option<Id>> := [];
    pushed := [];
    match n.typ {
      case ParallelStart =>
        pushed := [Cursor(n.endNode, c.stack)];
      case Group =>
        pushed := [Cursor(n.group.value.start, c.stack + [n.id])];
      case Conditions =>
        var landed;
        landed, pushed := ExpandKeys(loc, s, c);
        if !landed {
          return false, [];
        }
        routes := Finishes(l);
      case _ =>
        var d := AdvanceWithin(loc, n.next, c.stack, |s.stack|);
        assert Some(n.next) in Routes(l);
        if d.None? {
          return false, [];
        }
        routes, pushed := [Some(n.next)], [d.value];
    }
    assert routes == Finishes(l);
    if n.onFailure.Some? {
      var d := AdvanceWithin(loc, n.onFailure.value, c.stack, |s.stack|);
      assert Some(n.onFailure.value) in Routes(l);
      if d.None? {
        return false, [];
      }
      routes, pushed := routes + [Some(n.onFailure.value)], pushed + [d.value];
    }
    assert routes == Routes(l);
    ok := true;
  }

  /** The landings of every declared key of a condition node. */
  method ExpandKeys(loc: Index, s: Located, c: Cursor) returns (ok: bool, pushed: seq<Cursor>)
    requires c.node in loc && loc[c.node].node.typ.Conditions?
    ensures ok ==> Pushed(loc, s, c, Finishes(loc[c.node]), pushed)
    ensures ok ==> forall r | r in Finishes(loc[c.node]) :: Landing(loc, r, c.stack, |s.stack|).Some?
    ensures !ok ==> exists r :: r in Routes(loc[c.node]) && Landing(loc, r, c.stack, |s.stack|).None?
  {
    var l := loc[c.node];
    ghost var routes: seq<Option<Id>> := [];
    pushed := [];
    for i := 0 to |l.node.conditions|
      invariant routes == Finishes(l)[..i]
      invariant forall r | r in routes :: Landing(loc, r, c.stack, |s.stack|).Some?
      invariant Pushed(loc, s, c, routes, pushed)
    {
      var r := KeyRoute(l, l.node.conditions[i]);
      assert r == Finishes(l)[i];
      if r.None? {
        assert r in Routes(l) && Landing(loc, r, c.stack, |s.stack|).None?;
        return false, [];
      }
      var d := AdvanceWithin(loc, r.value, c.stack, |s.stack|);
      if d.None? {
        assert r in Routes(l) && Landing(loc, r, c.stack, |s.stack|).None?;
        return false, [];
      }
      routes, pushed := routes + [r], pushed + [d.value];
    }
    ok := true;
  }

  ghost predicate Pushed(loc: Index, s: Located, c: Cursor, routes: seq<Option<Id>>, pushed: seq<Cursor>) {
    && |pushed| == |routes|
    && forall i | 0 <= i < |routes| :: Landing(loc, routes[i], c.stack, |s.stack|) == Some(pushed[i])
  }

  /** Cursors taken off the worklist: on chain, clean, and split into the visited ones and the join. */
  ghost predicate Sifted(loc: Index, s: Located, work: seq<Cursor>, seen: set<Cursor>, visited: set<Cursor>, reached: bool) {
    && (forall c | c in work :: OnChain(loc, c))
    && (forall c | c in seen :: Clean(loc, s, c))
    && (forall c :: c in visited <==> c in seen && c.node != s.node.endNode)
    && (forall c | c in visited :: c.node in loc && OnChain(loc, c))
    && (reached <==> exists c :: c in seen && c.node == s.node.endNode)
  }

  /** The parent edges recorded so far: exactly the visited block starts gained this block. */
  ghost predicate Recorded(loc: Index, s: Located, visited: set<Cursor>, before: map<Id, set<Id>>, after: map<Id, set<Id>>) {
    forall q :: ParentsOf(after, q) == ParentsOf(before, q) +
      (if exists c :: c in visited && c.node == q && StartsBlock(loc, s, c) then {s.node.id} else {})
  }

  lemma PushedOnChain(loc: Index, s: Located, c: Cursor, pushed: seq<Cursor>)
    requires Consistent(loc) && OnChain(loc, c)
    requires forall d | d in pushed :: d in Next(loc, s, c)
    ensures forall d | d in pushed :: OnChain(loc, d)
  {
    forall d | d in pushed
      ensures OnChain(loc, d)
    {
      NextStaysOnChain(loc, s, c, d);
    }
  }

  lemma SiftJoin(loc: Index, s: Located, work: seq<Cursor>, seen: set<Cursor>, visited: set<Cursor>, reached: bool, c: Cursor)
    requires Sifted(loc, s, work + [c], seen, visited, reached) && c.node == s.node.endNode
    ensures Sifted(loc, s, work, seen + {c}, visited, true)
  {
    assert forall d | d in work :: d in work + [c];
    assert c in seen + {c};
  }

  lemma SiftVisit(loc: Index, s: Located, work: seq<Cursor>, seen: set<Cursor>, visited: set<Cursor>, reached: bool,
                  c: Cursor, pushed: seq<Cursor>)
    requires Sifted(loc, s, work + [c], seen, visited, reached)
    requires c.node in loc && c.node != s.node.endNode && Clean(loc, s, c)
    requires forall d | d in pushed :: OnChain(loc, d)
    ensures Sifted(loc, s, work + pushed, seen + {c}, visited + {c}, reached)
  {
    assert forall d | d in work :: d in work + [c];
    assert c in work + [c];
    if reached {
      var e :| e in seen && e.node == s.node.endNode;
      assert e in seen + {c};
    }
  }

  lemma RecordVisit(loc: Index, s: Located, visited: set<Cursor>, before: map<Id, set<Id>>, after: map<Id, set<Id>>,
                    c: Cursor, now: map<Id, set<Id>>)
    requires Recorded(loc, s, visited, before, after)
    requires now == if StartsBlock(loc, s, c) then after[c.node := ParentsOf(after, c.node) + {s.node.id}] else after
    ensures Recorded(loc, s, visited + {c}, before, now)
  {
    forall q
      ensures ParentsOf(now, q) == ParentsOf(before, q) +
              (if exists d :: d in visited + {c} && d.node == q && StartsBlock(loc, s, d) then {s.node.id} else {})
    {
      if exists d :: d in visited && d.node == q && StartsBlock(loc, s, d) {
        var d :| d in visited && d.node == q && StartsBlock(loc, s, d);
        assert d in visited + {c};
      } else if c.node == q && StartsBlock(loc, s, c) {
        assert c in visited + {c};
      }
    }
  }

  /** Look at one cursor off the join: reject it, or return its successors and record a nested start. */
  method VisitNode(loc: Index, s: Located, c: Cursor, parents: map<Id, set<Id>>)
      returns (clean: bool, pushed: seq<Cursor>, after: map<Id, set<Id>>)
    requires Consistent(loc) && c.node != s.node.endNode
    ensures clean <==> Clean(loc, s, c)
    ensures clean ==> forall d :: d in pushed <==> d in Next(loc, s, c)
    ensures clean && StartsBlock(loc, s, c) ==> after == parents[c.node := ParentsOf(parents, c.node) + {s.node.id}]
    ensures clean && !StartsBlock(loc, s, c) ==> after == parents
  {
    after, pushed := parents, [];
    if c.node !in loc {
      return false, [], parents;
    }
    var n := loc[c.node].node;
    assert NodeConsistent(loc, c.node);
    if Opaque(n) {
      return true, [], parents;
    }
    if n.typ.ParallelStart? {
      if n.id == s.node.id {
        return false, [], parents;
      }
      after := parents[n.id := ParentsOf(parents, n.id) + {s.node.id}];
    }
    clean, pushed := Expand(loc, s, c);
  }

  lemma WalkDone(loc: Index, s: Located, target: Id, seen: set<Cursor>, visited: set<Cursor>, reached: bool,
                 before: map<Id, set<Id>>, after: map<Id, set<Id>>)
    requires forall c :: InBranch(loc, s, target, c) <==> c in seen
    requires Sifted(loc, s, [], seen, visited, reached) && Recorded(loc, s, visited, before, after)
    ensures Converges(loc, s, target) <==> reached
    ensures forall q :: ParentsOf(after, q) == ParentsOf(before, q) + (if Nests(loc, s, target, q) then {s.node.id} else {})
  {
    if reached {
      var e :| e in seen && e.node == s.node.endNode;
      assert InBranch(loc, s, target, e);
    }
    forall q
      ensures Nests(loc, s, target, q) <==> exists c :: c in visited && c.node == q && StartsBlock(loc, s, c)
    {
      if exists c :: c in visited && c.node == q && StartsBlock(loc, s, c) {
        var c :| c in visited && c.node == q && StartsBlock(loc, s, c);
        assert InBranch(loc, s, target, c);
      }
    }
  }

  /** Walk one branch. It accepts exactly the branches that converge, and then records
      this block as a parent of exactly the blocks its cursors start. */
  method WalkBranch(loc: Index, s: Located, target: Id, parents: map<Id, set<Id>>)
      returns (ok: bool, after: map<Id, set<Id>>)
    requires Consistent(loc) && SameScope(loc, s, target)
    ensures ok <==> Converges(loc, s, target)
    ensures ok ==> forall q :: ParentsOf(after, q) ==
                     ParentsOf(parents, q) + (if Nests(loc, s, target, q) then {s.node.id} else {})
  {
    var from := BranchEntry(s, target);
    ghost var step := Steps(loc, s);
    var work, visited: set<Cursor>, reached := [from], {}, false;
    ghost var seen: set<Cursor> := {};
    after := parents;
    Start(step, from);
    ghost var all := set id | id in loc :: Cursor(id, loc[id].stack);
    while work != []
      invariant Explored(step, from, work, seen)
      invariant Sifted(loc, s, work, seen, visited, reached)
      invariant Recorded(loc, s, visited, parents, after)
      decreases all - visited, |work|
    {
      var c := work[|work| - 1];
      assert c in work && OnChain(loc, c) && InBranch(loc, s, target, c);
      assert work == work[..|work| - 1] + [c];
      work := work[..|work| - 1];
      if c.node == s.node.endNode {
        Visit(step, from, work, seen, c, []);
        SiftJoin(loc, s, work, seen, visited, reached, c);
        assert work + [] == work;
        reached, seen := true, seen + {c};
        continue;
      }
      if c in visited {
        Skip(step, from, work, seen, c);
        continue;
      }
      ghost var prior := after;
      var clean, pushed;
      clean, pushed, after := VisitNode(loc, s, c, after);
      if !clean {
        return false, after;
      }
      Visit(step, from, work, seen, c, pushed);
      PushedOnChain(loc, s, c, pushed);
      SiftVisit(loc, s, work, seen, visited, reached, c, pushed);
      RecordVisit(loc, s, visited, parents, prior, c, after);
      visited, seen := visited + {c}, seen + {c};
      work := work + pushed;
    }
    Exhausted(step, from, seen);
    WalkDone(loc, s, target, seen, visited, reached, parents, after);
    ok := reached;
  }
}
