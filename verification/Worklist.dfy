/** Exploring a step relation with a worklist, independent of what the states are. */
module Worklist {

  ghost predicate IsPath<T(!new)>(step: T -> set<T>, p: seq<T>) {
    p != [] && forall i | 0 <= i < |p| - 1 :: p[i + 1] in step(p[i])
  }

  ghost predicate Reachable<T(!new)>(step: T -> set<T>, from: T, c: T) {
    exists p :: IsPath(step, p) && p[0] == from && p[|p| - 1] == c
  }

  /** `seen` holds reachable states only, and every state one step from `seen` is in `seen` or in `work`. */
  ghost predicate Explored<T(!new)>(step: T -> set<T>, from: T, work: seq<T>, seen: set<T>) {
    && (forall c | c in work :: Reachable(step, from, c))
    && (forall c | c in seen :: Reachable(step, from, c))
    && (forall c, d | c in seen && d in step(c) :: d in seen || d in work)
    && (from in seen || from in work)
  }

  lemma ReachesItself<T(!new)>(step: T -> set<T>, c: T)
    ensures Reachable(step, c, c)
  {
    assert IsPath(step, [c]);
  }

  lemma ReachesNext<T(!new)>(step: T -> set<T>, from: T, c: T, d: T)
    requires Reachable(step, from, c) && d in step(c)
    ensures Reachable(step, from, d)
  {
    var p :| IsPath(step, p) && p[0] == from && p[|p| - 1] == c;
    assert IsPath(step, p + [d]);
  }

  lemma Start<T(!new)>(step: T -> set<T>, from: T)
    ensures Explored(step, from, [from], {})
  {
    ReachesItself(step, from);
  }

  lemma Skip<T(!new)>(step: T -> set<T>, from: T, work: seq<T>, seen: set<T>, c: T)
    requires Explored(step, from, work + [c], seen) && c in seen
    ensures Explored(step, from, work, seen)
  {
    assert forall d | d in work :: d in work + [c];
  }

  lemma Visit<T(!new)>(step: T -> set<T>, from: T, work: seq<T>, seen: set<T>, c: T, pushed: seq<T>)
    requires Explored(step, from, work + [c], seen)
    requires forall d :: d in pushed <==> d in step(c)
    ensures Explored(step, from, work + pushed, seen + {c})
  {
    assert forall d | d in work :: d in work + [c];
    assert c in work + [c];
    forall d | d in pushed
      ensures Reachable(step, from, d)
    {
      ReachesNext(step, from, c, d);
    }
  }

  lemma PathPrefix<T(!new)>(step: T -> set<T>, p: seq<T>)
    requires IsPath(step, p) && |p| > 1
    ensures IsPath(step, p[..|p| - 1]) && p[|p| - 1] in step(p[|p| - 2])
  {
    var init := p[..|p| - 1];
    forall i | 0 <= i < |init| - 1
      ensures init[i + 1] in step(init[i])
    {
      assert p[i + 1] in step(p[i]);
    }
    assert p[(|p| - 2) + 1] in step(p[|p| - 2]);
  }

  lemma {:induction false} PathIsCovered<T(!new)>(step: T -> set<T>, p: seq<T>, seen: set<T>)
    requires IsPath(step, p) && p[0] in seen
    requires forall c, d | c in seen && d in step(c) :: d in seen
    ensures p[|p| - 1] in seen
    decreases |p|
  {
    if |p| > 1 {
      PathPrefix(step, p);
      PathIsCovered(step, p[..|p| - 1], seen);
    }
  }

  /** An empty worklist means the states seen are exactly the reachable ones. */
  lemma Exhausted<T(!new)>(step: T -> set<T>, from: T, seen: set<T>)
    requires Explored(step, from, [], seen)
    ensures forall c :: Reachable(step, from, c) <==> c in seen
  {
    forall c | Reachable(step, from, c)
      ensures c in seen
    {
      var p :| IsPath(step, p) && p[0] == from && p[|p| - 1] == c;
      PathIsCovered(step, p, seen);
    }
  }
}
