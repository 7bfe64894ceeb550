/** The cursor machine: entering a group and advancing past a finished node.

    Source: internal/workflow/kernel/machine.go; the frame is internal/workflow/model/state.go:13-21. */
module Kernel {
  import opened WorkflowTree
  import opened WorkflowGraph

  datatype Cursor = Cursor(node: Id, stack: seq<Id>)

  /** Where a cursor lands when a node finishes: `Landed` carries the resolved link
      ("" when nothing is left at the floor) and the groups left, innermost first. */
  datatype Climbed =
    | Landed(next: Id, stack: seq<Id>, exited: seq<Id>)
    | UnknownGroup(stack: seq<Id>, exited: seq<Id>)

  /** Follow `next`, leaving groups while there is no target and more than `floor` groups are entered. */
  function Climb(loc: Index, next: Id, stack: seq<Id>, floor: nat): Climbed
    decreases |stack|
  {
    if next != "" || |stack| <= floor then Landed(next, stack, [])
    else
      var g, outer := stack[|stack| - 1], stack[..|stack| - 1];
      if g !in loc then UnknownGroup(outer, [g])
      else
        match Climb(loc, loc[g].node.next, outer, floor)
        case Landed(n, st, ex) => Landed(n, st, [g] + ex)
        case UnknownGroup(st, ex) => UnknownGroup(st, [g] + ex)
  }

  // ---- Where advancing leads, read off the stack ----

  /** The group is known and has no link of its own. */
  predicate Passed(loc: Index, g: Id) {
    g in loc && loc[g].node.next == ""
  }

  /** Leaving groups stops at position `k`: every group further in is passed, the one there is not. */
  predicate StopsAt(loc: Index, stack: seq<Id>, floor: nat, k: nat) {
    floor <= k < |stack| && !Passed(loc, stack[k]) && forall j | k < j < |stack| :: Passed(loc, stack[j])
  }

  predicate AllPassed(loc: Index, stack: seq<Id>, floor: nat) {
    forall j | floor <= j < |stack| :: Passed(loc, stack[j])
  }

  /** The groups from position `k` on, innermost first. */
  predicate LeftFrom(stack: seq<Id>, k: nat, exited: seq<Id>) {
    k <= |stack| && |exited| == |stack| - k && forall i | 0 <= i < |exited| :: exited[i] == stack[|stack| - 1 - i]
  }

  /** Without a link and past every group, nothing is left at the floor. */
  lemma {:induction false} ClimbEnds(loc: Index, stack: seq<Id>, floor: nat)
    requires floor <= |stack| && AllPassed(loc, stack, floor)
    ensures var r := Climb(loc, "", stack, floor);
            r.Landed? && r.next == "" && r.stack == stack[..floor] && LeftFrom(stack, floor, r.exited)
    decreases |stack|
  {
    if |stack| > floor {
      var outer := stack[..|stack| - 1];
      ClimbEnds(loc, outer, floor);
      assert outer[..floor] == stack[..floor] && Passed(loc, stack[|stack| - 1]);
    } else {
      assert stack[..floor] == stack;
    }
  }

  /** Without a link, the groups are left to the first that is not passed, and its link is followed there. */
  lemma {:induction false} ClimbStops(loc: Index, stack: seq<Id>, floor: nat, k: nat)
    requires StopsAt(loc, stack, floor, k)
    ensures var r := Climb(loc, "", stack, floor);
            && r.stack == stack[..k] && LeftFrom(stack, k, r.exited)
            && (r.Landed? <==> stack[k] in loc) && (r.Landed? ==> r.next == loc[stack[k]].node.next && r.next != "")
    decreases |stack|
  {
    var n := |stack| - 1;
    var outer := stack[..n];
    if k < n {
      assert Passed(loc, stack[n]) && StopsAt(loc, outer, floor, k) && outer[..k] == stack[..k];
      ClimbStops(loc, outer, floor, k);
    }
  }

  /** Where advancing leads: a link is followed where it points, and no group is left. Without one, the
      groups are left from the inside out to the first with a link of its own, or to the floor. */
  lemma ClimbLands(loc: Index, next: Id, stack: seq<Id>, floor: nat)
    requires floor <= |stack|
    ensures next != "" ==> Climb(loc, next, stack, floor) == Landed(next, stack, [])
    ensures next == "" && AllPassed(loc, stack, floor) ==>
              var r := Climb(loc, next, stack, floor);
              r.Landed? && r.next == "" && r.stack == stack[..floor] && LeftFrom(stack, floor, r.exited)
    ensures forall k: nat | next == "" && StopsAt(loc, stack, floor, k) ::
              var r := Climb(loc, next, stack, floor);
              && r.stack == stack[..k] && LeftFrom(stack, k, r.exited)
              && (r.Landed? <==> stack[k] in loc) && (r.Landed? ==> r.next == loc[stack[k]].node.next && r.next != "")
  {
    if next == "" && AllPassed(loc, stack, floor) {
      ClimbEnds(loc, stack, floor);
    }
    forall k: nat | next == "" && StopsAt(loc, stack, floor, k)
      ensures var r := Climb(loc, next, stack, floor);
              && r.stack == stack[..k] && LeftFrom(stack, k, r.exited)
              && (r.Landed? <==> stack[k] in loc) && (r.Landed? ==> r.next == loc[stack[k]].node.next && r.next != "")
    {
      ClimbStops(loc, stack, floor, k);
    }
  }

  /** Either all groups are passed or there is one at which leaving stops. */
  lemma {:induction false} StopsOrPasses(loc: Index, stack: seq<Id>, floor: nat)
    ensures AllPassed(loc, stack, floor) || exists k: nat :: StopsAt(loc, stack, floor, k)
    decreases |stack|
  {
    if |stack| > floor {
      var n := |stack| - 1;
      if Passed(loc, stack[n]) {
        StopsOrPasses(loc, stack[..n], floor);
        if k: nat :| StopsAt(loc, stack[..n], floor, k) {
          assert StopsAt(loc, stack, floor, k);
        }
      } else {
        assert StopsAt(loc, stack, floor, n);
      }
    }
  }

  function After(exited: seq<Id>, r: Climbed): Climbed {
    match r
    case Landed(n, st, ex) => Landed(n, st, exited + ex)
    case UnknownGroup(st, ex) => UnknownGroup(st, exited + ex)
  }

  /** One turn of the loop that leaves groups. */
  lemma ClimbStep(loc: Index, stack: seq<Id>, floor: nat, exited: seq<Id>)
    requires |stack| > floor
    ensures var g, outer := stack[|stack| - 1], stack[..|stack| - 1];
            After(exited, Climb(loc, "", stack, floor)) ==
            if g in loc then After(exited + [g], Climb(loc, loc[g].node.next, outer, floor))
            else UnknownGroup(outer, exited + [g])
  {
    var g, outer := stack[|stack| - 1], stack[..|stack| - 1];
    if g in loc {
      var r := Climb(loc, loc[g].node.next, outer, floor);
      assert (exited + [g]) + r.exited == exited + ([g] + r.exited);
    }
  }

  /** The durable cursor of an instance or of a branch. */
  class Frame {
    var current: Id
    var stack: seq<Id>

    constructor (start: Id)
      ensures current == start && stack == []
    {
      current, stack := start, [];
    }

    /** Enter group `group`; fails without touching the frame when it is not a known group. */
    method EnterGroup(loc: Index, group: Id) returns (ok: bool)
      modifies this
      ensures ok <==> group in loc && loc[group].node.group.Some?
      ensures ok ==> current == loc[group].node.group.value.start && stack == old(stack) + [group]
      ensures !ok ==> unchanged(this)
    {
      if group !in loc || loc[group].node.group.None? {
        return false;
      }
      stack := stack + [group];
      current := loc[group].node.group.value.start;
      return true;
    }

    /** Move past the current node along `next`. Reports the groups left and whether
        traversal ended; an unknown group leaves the node in place with the stack popped. */
    method Advance(loc: Index, next: Id) returns (ok: bool, done: bool, exited: seq<Id>)
      modifies this
      ensures ok <==> Climb(loc, next, old(stack), 0).Landed?
      ensures stack == Climb(loc, next, old(stack), 0).stack
      ensures exited == Climb(loc, next, old(stack), 0).exited
      ensures ok ==> current == Climb(loc, next, old(stack), 0).next
      ensures !ok ==> current == old(current)
      ensures done <==> ok && current == ""
      ensures next != "" ==> ok && current == next && stack == old(stack) && exited == []
      ensures next == "" && AllPassed(loc, old(stack), 0) ==> done && stack == [] && LeftFrom(old(stack), 0, exited)
      ensures forall k: nat | next == "" && StopsAt(loc, old(stack), 0, k) ::
                && stack == old(stack)[..k] && LeftFrom(old(stack), k, exited) && !done
                && (ok <==> old(stack)[k] in loc) && (ok ==> current == loc[old(stack)[k]].node.next)
    {
      ClimbLands(loc, next, stack, 0);
      var link := next;
      exited := [];
      assert After([], Climb(loc, link, stack, 0)) == Climb(loc, link, stack, 0);
      while link == "" && |stack| > 0
        invariant current == old(current)
        invariant After(exited, Climb(loc, link, stack, 0)) == Climb(loc, next, old(stack), 0)
        decreases |stack|
      {
        ClimbStep(loc, stack, 0, exited);
        var group := stack[|stack| - 1];
        stack := stack[..|stack| - 1];
        exited := exited + [group];
        if group !in loc {
          return false, false, exited;
        }
        link := loc[group].node.next;
      }
      assert Climb(loc, link, stack, 0) == Landed(link, stack, []);
      current := link;
      return true, link == "", exited;
    }
  }

  // ---- Facts about climbing ----

  /** The node and its stack agree with where the tree puts the node. */
  predicate OnChain(loc: Index, c: Cursor) {
    c.node in loc ==> c.stack == loc[c.node].stack
  }

  /** Climbing from a scope's own chain lands on the chain of the node reached. */
  lemma {:induction false} ClimbStaysOnChain(loc: Index, next: Id, stack: seq<Id>, floor: nat)
    requires Consistent(loc)
    requires next in loc ==> loc[next].stack == stack
    requires forall i | 0 <= i < |stack| :: stack[i] in loc ==> loc[stack[i]].stack == stack[..i]
    ensures var r := Climb(loc, next, stack, floor);
            && r.stack <= stack
            && (r.Landed? ==> OnChain(loc, Cursor(r.next, r.stack)))
    decreases |stack|
  {
    if next == "" && |stack| > floor {
      var g, outer := stack[|stack| - 1], stack[..|stack| - 1];
      if g in loc {
        assert NodeConsistent(loc, g);
        forall i | 0 <= i < |outer|
          ensures outer[i] in loc ==> loc[outer[i]].stack == outer[..i]
        {
          assert outer[..i] == stack[..i];
        }
        ClimbStaysOnChain(loc, loc[g].node.next, outer, floor);
      }
    }
  }

  lemma {:induction false} ClimbResolves(loc: Index, next: Id, stack: seq<Id>, floor: nat)
    requires Closed(loc)
    requires next != "" ==> next in loc
    requires forall i | 0 <= i < |stack| :: stack[i] in loc
    ensures var r := Climb(loc, next, stack, floor); r.Landed? && (r.next != "" ==> r.next in loc)
    decreases |stack|
  {
    if next == "" && |stack| > floor {
      var g, outer := stack[|stack| - 1], stack[..|stack| - 1];
      assert NodeClosed(loc, g);
      ClimbResolves(loc, loc[g].node.next, outer, floor);
    }
  }

  /** A cursor that never sees the groups below its base climbs like one whose floor is the base. */
  lemma {:induction false} ClimbAboveBase(loc: Index, next: Id, base: seq<Id>, rel: seq<Id>)
    ensures var whole, part := Climb(loc, next, base + rel, |base|), Climb(loc, next, rel, 0);
            && (whole.Landed? <==> part.Landed?)
            && whole.stack == base + part.stack && whole.exited == part.exited
            && (part.Landed? ==> whole.next == part.next)
    decreases |rel|
  {
    if next == "" && rel != [] {
      var g, outer := rel[|rel| - 1], rel[..|rel| - 1];
      assert (base + rel)[|base + rel| - 1] == g;
      assert (base + rel)[..|base + rel| - 1] == base + outer;
      if g in loc {
        ClimbAboveBase(loc, loc[g].node.next, base, outer);
      }
    }
  }
}
