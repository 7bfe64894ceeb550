/** Which parallel execution a join finds, and what a rollback leaves it to find.

    Sources: internal/workflow/engine/join.go:21-42 and 227-255, internal/workflow/model/parallel.go:448-490,
    internal/workflow/repository/parallel.go:285-297, internal/workflow/service/instance.go:1576-1580 and 1890-1901. */
module Joins {
  import opened Wrappers

  type Id = string

  datatype Status = WaitingForBranches | ReadyToJoin | Completed | Failed | Cancelled

  /** An execution that joins at `end`, forked by a branch or, without one, by the instance itself. */
  datatype Execution = Execution(end: Id, owner: Option<Id>, status: Status)

  predicate Active(e: Execution) {
    e.status.WaitingForBranches? || e.status.ReadyToJoin?
  }

  predicate Joins(e: Execution, owner: Option<Id>, end: Id) {
    e.owner == owner && e.end == end
  }

  predicate Candidate(e: Execution, owner: Option<Id>, end: Id) {
    Joins(e, owner, end) && !e.status.Completed?
  }

  /** The first candidate in the order of creation. */
  predicate IsFirst(exs: seq<Execution>, owner: Option<Id>, end: Id, i: nat) {
    i < |exs| && Candidate(exs[i], owner, end) && forall j | 0 <= j < i :: !Candidate(exs[j], owner, end)
  }

  /** Looks through the executions in the order of creation. */
  method JoinableExecution(exs: seq<Execution>, owner: Option<Id>, end: Id) returns (r: Option<Execution>)
    ensures r.None? <==> forall e | e in exs :: !Candidate(e, owner, end)
    ensures r.Some? ==> exists i: nat :: IsFirst(exs, owner, end, i) && exs[i] == r.value
  {
    for i := 0 to |exs|
      invariant forall j | 0 <= j < i :: !Candidate(exs[j], owner, end)
    {
      if exs[i].end != end || exs[i].owner != owner || exs[i].status.Completed? {
        continue;
      }
      assert IsFirst(exs, owner, end, i);
      return Some(exs[i]);
    }
    return None;
  }

  // ---- The executions of an instance over time ----

  datatype Event =
    | ForkAt(end: Id, owner: Option<Id>)
    | Arm(i: nat)       // every branch has completed
    | Complete(i: nat)  // the join committed
    | Fail(i: nat)
    | Cancel(i: nat)

  /** Only active executions change; the other statuses are final. */
  function Next(exs: seq<Execution>, e: Event): seq<Execution> {
    match e
    case ForkAt(end, owner) => exs + [Execution(end, owner, WaitingForBranches)]
    case Arm(i) => if i < |exs| && exs[i].status.WaitingForBranches? then exs[i := exs[i].(status := ReadyToJoin)] else exs
    case Complete(i) => if i < |exs| && exs[i].status.ReadyToJoin? then exs[i := exs[i].(status := Completed)] else exs
    case Fail(i) => if i < |exs| && Active(exs[i]) then exs[i := exs[i].(status := Failed)] else exs
    case Cancel(i) => if i < |exs| && Active(exs[i]) then exs[i := exs[i].(status := Cancelled)] else exs
  }

  function Run(exs: seq<Execution>, events: seq<Event>): seq<Execution>
    decreases |events|
  {
    if events == [] then exs else Next(Run(exs, events[..|events| - 1]), events[|events| - 1])
  }

  /** The guard of a rollback: nothing is active. */
  predicate NothingActive(exs: seq<Execution>) {
    forall i | 0 <= i < |exs| :: !Active(exs[i])
  }

  predicate AllJoined(exs: seq<Execution>, owner: Option<Id>, end: Id) {
    forall i | 0 <= i < |exs| && Joins(exs[i], owner, end) :: exs[i].status.Completed?
  }

  lemma {:induction false} FinalStays(exs: seq<Execution>, events: seq<Event>)
    requires NothingActive(exs)
    ensures exs <= Run(exs, events)
    decreases |events|
  {
    if events != [] {
      var init := Run(exs, events[..|events| - 1]);
      FinalStays(exs, events[..|events| - 1]);
      assert forall i | 0 <= i < |exs| :: exs[i] == init[i];
    }
  }

  /** After a rollback, whatever happens next, a join can find an active execution if and only if every
      earlier execution that joined there was completed. One that failed stays the first candidate for
      good: each new fork is joined to it, and fails. */
  lemma JoinsAfterRollbackExactly(exs: seq<Execution>, owner: Option<Id>, end: Id)
    requires NothingActive(exs)
    ensures (exists events, i: nat :: IsFirst(Run(exs, events), owner, end, i) && Active(Run(exs, events)[i])) <==> AllJoined(exs, owner, end)
  {
    if AllJoined(exs, owner, end) {
      var events := [ForkAt(end, owner)];
      assert events[..0] == [] && Run(exs, events) == exs + [Execution(end, owner, WaitingForBranches)];
      assert IsFirst(Run(exs, events), owner, end, |exs|) && Active(Run(exs, events)[|exs|]);
    } else {
      forall events, i: nat | IsFirst(Run(exs, events), owner, end, i)
        ensures !Active(Run(exs, events)[i])
      {
        OldFailureIsFound(exs, owner, end, events, i);
      }
    }
  }

  lemma OldFailureIsFound(exs: seq<Execution>, owner: Option<Id>, end: Id, events: seq<Event>, i: nat)
    requires NothingActive(exs) && !AllJoined(exs, owner, end) && IsFirst(Run(exs, events), owner, end, i)
    ensures i < |exs| && Run(exs, events)[i] == exs[i] && (exs[i].status.Failed? || exs[i].status.Cancelled?)
  {
    FinalStays(exs, events);
    var f :| 0 <= f < |exs| && Joins(exs[f], owner, end) && !exs[f].status.Completed?;
    assert Run(exs, events)[f] == exs[f] && Candidate(exs[f], owner, end);
  }

  /** A join is promised the active execution. With one there, that is what it finds if and only if every
      earlier one that joined there was completed. */
  lemma FindsActiveExactly(exs: seq<Execution>, owner: Option<Id>, end: Id, a: nat, i: nat)
    requires a < |exs| && Joins(exs[a], owner, end) && Active(exs[a]) && IsFirst(exs, owner, end, i)
    ensures i == a <==> AllJoined(exs[..a], owner, end)
  {
    assert i <= a;
    if i < a {
      assert exs[..a][i] == exs[i];
    }
  }
}
