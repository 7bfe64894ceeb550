/** The commit-only retry of a parent checkpoint against concurrent control writes. The
    instance row is one atomic cell, fenced by revision and lease holder.

    Sources: internal/workflow/engine/engine.go:881-985 and 1080-1086 and 1150-1159,
    internal/workflow/repository/instance.go:744-861, 883-1060 and 1101-1114. */
module Checkpoint {
  import opened Wrappers

  datatype Status = Waiting | Running | Paused | Finished | Failed | Stopped

  type Worker = string

  /** The columns the protocol reads and writes; `payload` stands for cursor, counters and context. */
  datatype Cell = Cell(status: Status, leasedBy: Worker, revision: nat, pauseRequested: bool, payload: int)

  // ---- What other parties may do to the row between two of our statements ----

  /** `Claim` is any claim that succeeds, whether the row waited or its lease had expired. */
  datatype Control = Pause | Resume | Stop | Claim(claimant: Worker) | Release(holder: Worker)

  function Controlled(c: Cell, op: Control): Cell {
    match op
    case Pause =>
      if c.status.Waiting? then c.(status := Paused, pauseRequested := false, revision := c.revision + 1)
      else if c.status.Running? then c.(pauseRequested := true, revision := c.revision + 1)
      else c
    case Resume =>
      if c.status.Paused? then c.(status := Waiting, pauseRequested := false, revision := c.revision + 1)
      else if c.status.Running? then c.(pauseRequested := false, revision := c.revision + 1)
      else c
    case Stop =>
      if c.status.Waiting? || c.status.Running? || c.status.Paused?
        then c.(status := Stopped, leasedBy := "", revision := c.revision + 1)
      else c
    case Claim(claimant) =>
      if c.status.Waiting? || c.status.Running? then c.(status := Running, leasedBy := claimant, revision := c.revision + 1) else c
    case Release(holder) => Released(c, holder)
  }

  function Released(c: Cell, holder: Worker): Cell {
    if c.leasedBy == holder && c.status.Running? then c.(leasedBy := "", revision := c.revision + 1) else c
  }

  function Interfered(c: Cell, ops: seq<Control>): Cell
    decreases |ops|
  {
    if ops == [] then c else Controlled(Interfered(c, ops[..|ops| - 1]), ops[|ops| - 1])
  }

  // ---- The protocol as a function of everything that can happen ----

  /** One database call of ours: what happens before it, and whether it fails without effect. */
  datatype Call = Call(before: seq<Control>, fails: bool)

  /** The write a checkpoint attempts. */
  datatype Write = Write(worker: Worker, revision: nat, status: Status, pauseRequested: bool, payload: int)

  /** What a whole checkpoint did: the row at return, whether it returned an error, and the commit, if any. */
  datatype Outcome = Outcome(cell: Cell, error: bool, commit: Option<Commit>)

  datatype Commit = Commit(before: Cell, after: Cell)

  const MAX_ATTEMPTS: nat := 3

  function NextStatus(pauseRequested: bool, debug: bool): Status {
    if pauseRequested || debug then Paused else Waiting
  }

  predicate IsPark(s: Status) {
    s.Waiting? || s.Paused?
  }

  function Written(c: Cell, w: Write): Cell {
    Cell(w.status, "", c.revision + 1, w.pauseRequested, w.payload)
  }

  /** The same write against a fresh row: its revision and pause flag, and for a park the status they imply. */
  function Refreshed(w: Write, c: Cell, debug: bool): Write {
    w.(revision := c.revision, pauseRequested := c.pauseRequested,
       status := if IsPark(w.status) then NextStatus(c.pauseRequested, debug) else w.status)
  }

  /** Attempts `attempt`, `attempt` + 1, ... of the same write. Each uses one call for the fenced
      update and one for the reload, or for giving the lease back after the last attempt. */
  function Attempts(c: Cell, w: Write, debug: bool, attempt: nat, calls: seq<Call>): Outcome
    requires 1 <= attempt <= MAX_ATTEMPTS && |calls| == 2 * (MAX_ATTEMPTS + 1 - attempt)
    decreases MAX_ATTEMPTS - attempt
  {
    var c0 := Interfered(c, calls[0].before);
    if calls[0].fails then Outcome(c0, true, None)
    else if c0.leasedBy != w.worker then Outcome(c0, false, None)
    else if c0.revision == w.revision then Outcome(Written(c0, w), false, Some(Commit(c0, Written(c0, w))))
    else
      var c1 := Interfered(c0, calls[1].before);
      if attempt == MAX_ATTEMPTS then Outcome(if calls[1].fails then c1 else Released(c1, w.worker), false, None)
      else if calls[1].fails then Outcome(c1, true, None)
      else if c1.leasedBy != w.worker || !c1.status.Running? then Outcome(c1, false, None)
      else Attempts(c1, Refreshed(w, c1, debug), debug, attempt + 1, calls[2..])
  }

  function CheckpointOutcome(c: Cell, w: Write, debug: bool, calls: seq<Call>): Outcome
    requires |calls| == 2 * MAX_ATTEMPTS
  {
    Attempts(c, w, debug, 1, calls)
  }

  // ---- The protocol as it runs ----

  datatype Fence = Done | LeaseLost | RevisionConflict | Unavailable

  class InstanceRow {
    var cell: Cell
    ghost var commits: seq<Commit>  // every checkpoint that took effect
    ghost var updates: nat          // fenced updates issued

    method Interfere(ops: seq<Control>)
      modifies this`cell
      ensures cell == Interfered(old(cell), ops)
    {
      for i := 0 to |ops|
        invariant cell == Interfered(old(cell), ops[..i])
      {
        assert ops[..i + 1][..i] == ops[..i];
        cell := Controlled(cell, ops[i]);
      }
      assert ops[..|ops|] == ops;
    }

    /** The fenced update: takes effect only at the expected revision under the worker's own lease. */
    method Update(w: Write, call: Call) returns (r: Fence)
      modifies this
      ensures var c := Interfered(old(cell), call.before);
              && (r.Unavailable? <==> call.fails)
              && (r.Done? <==> !call.fails && c.leasedBy == w.worker && c.revision == w.revision)
              && (r.LeaseLost? <==> !call.fails && c.leasedBy != w.worker)
              && cell == (if r.Done? then Written(c, w) else c)
              && commits == (if r.Done? then old(commits) + [Commit(c, Written(c, w))] else old(commits))
      ensures updates == old(updates) + 1
    {
      Interfere(call.before);
      updates := updates + 1;
      if call.fails {
        return Unavailable;
      }
      if cell.revision == w.revision && cell.leasedBy == w.worker {
        commits := commits + [Commit(cell, Written(cell, w))];
        cell := Written(cell, w);
        return Done;
      }
      return if cell.leasedBy != w.worker then LeaseLost else RevisionConflict;
    }

    /** Commits `write`; on a revision conflict re-issues the same commit against the fresh row, at
        most twice, and finally gives the lease back. */
    method CheckpointAt(write: Write, debug: bool, calls: seq<Call>) returns (error: bool)
      requires |calls| == 2 * MAX_ATTEMPTS
      modifies this
      ensures var o := CheckpointOutcome(old(cell), write, debug, calls);
              && cell == o.cell && error == o.error
              && commits == old(commits) + (if o.commit.Some? then [o.commit.value] else [])
      ensures updates <= old(updates) + MAX_ATTEMPTS
    {
      var w, attempt, rest := write, 1, calls;
      var r := Update(w, rest[0]);
      while r.RevisionConflict? && attempt < MAX_ATTEMPTS
        invariant 1 <= attempt <= MAX_ATTEMPTS && |rest| == 2 * (MAX_ATTEMPTS + 1 - attempt)
        invariant updates == old(updates) + attempt
        invariant Pending(old(cell), old(commits), write, debug, calls, w, attempt, rest, r)
        decreases MAX_ATTEMPTS - attempt
      {
        Interfere(rest[1].before);
        if rest[1].fails {
          return true;
        }
        if cell.leasedBy != w.worker || cell.status != Running {
          return false;
        }
        w := Refreshed(w, cell, debug);
        attempt, rest := attempt + 1, rest[2..];
        r := Update(w, rest[0]);
      }
      if r.RevisionConflict? {
        Interfere(rest[1].before);
        if !rest[1].fails {
          cell := Released(cell, w.worker);
        }
        return false;
      }
      return r.Unavailable?;
    }

    /** The result of the latest update, and what the whole checkpoint will amount to from here. */
    ghost predicate Pending(cell0: Cell, commits0: seq<Commit>, write: Write, debug: bool, calls: seq<Call>,
                            w: Write, attempt: nat, rest: seq<Call>, r: Fence)
      requires |calls| == 2 * MAX_ATTEMPTS && 1 <= attempt <= MAX_ATTEMPTS && |rest| == 2 * (MAX_ATTEMPTS + 1 - attempt)
      reads this
    {
      var o := CheckpointOutcome(cell0, write, debug, calls);
      match r
      case Done => o == Outcome(cell, false, o.commit) && o.commit.Some? && commits == commits0 + [o.commit.value]
      case LeaseLost => o == Outcome(cell, false, None) && commits == commits0
      case Unavailable => o == Outcome(cell, true, None) && commits == commits0
      case RevisionConflict =>
        && commits == commits0
        && var c1 := Interfered(cell, rest[1].before);
           o == (if attempt == MAX_ATTEMPTS then Outcome(if rest[1].fails then c1 else Released(c1, w.worker), false, None)
                 else if rest[1].fails then Outcome(c1, true, None)
                 else if c1.leasedBy != w.worker || !c1.status.Running? then Outcome(c1, false, None)
                 else Attempts(c1, Refreshed(w, c1, debug), debug, attempt + 1, rest[2..]))
    }
  }

  // ---- What the row keeps under control writes ----

  /** Only a running row is leased. */
  predicate LeasedRuns(c: Cell) {
    c.leasedBy != "" ==> c.status.Running?
  }

  /** A revision and pause flag read together stay together: a later pause flag has a later revision. */
  predicate ReadTogether(c: Cell, revision: nat, pauseRequested: bool) {
    && c.revision >= revision
    && (c.revision == revision ==> c.pauseRequested == pauseRequested)
  }

  lemma {:induction false} InterferenceKeeps(c: Cell, ops: seq<Control>, revision: nat, pauseRequested: bool)
    ensures LeasedRuns(c) ==> LeasedRuns(Interfered(c, ops))
    ensures ReadTogether(c, revision, pauseRequested) ==> ReadTogether(Interfered(c, ops), revision, pauseRequested)
    decreases |ops|
  {
    if ops != [] {
      InterferenceKeeps(c, ops[..|ops| - 1], revision, pauseRequested);
    }
  }

  predicate NeverClaims(ops: seq<Control>, worker: Worker) {
    forall op | op in ops :: op != Claim(worker)
  }

  predicate Held(c: Cell, ops: seq<Control>, worker: Worker) {
    forall i | 0 <= i <= |ops| :: HeldAfter(c, ops, worker, i)
  }

  predicate HeldAfter(c: Cell, ops: seq<Control>, worker: Worker, i: nat)
    requires i <= |ops|
  {
    Interfered(c, ops[..i]).leasedBy == worker
  }

  /** The worker claims a row that it does not hold, and gets it. */
  predicate Reclaims(c: Cell, ops: seq<Control>, worker: Worker) {
    exists i :: 0 <= i < |ops| && ReclaimsAt(c, ops, worker, i)
  }

  predicate ReclaimsAt(c: Cell, ops: seq<Control>, worker: Worker, i: nat)
    requires i < |ops|
  {
    var before := Interfered(c, ops[..i]);
    ops[i] == Claim(worker) && (before.status.Waiting? || before.status.Running?) && before.leasedBy != worker
  }

  /** A lease held at the end was held throughout if and only if the worker did not claim it again. */
  lemma {:induction false} HeldExactly(c: Cell, ops: seq<Control>, worker: Worker)
    requires worker != "" && Interfered(c, ops).leasedBy == worker
    ensures Held(c, ops, worker) <==> !Reclaims(c, ops, worker)
    decreases |ops|
  {
    if ops == [] {
      assert ops[..0] == ops;
    } else {
      var n := |ops| - 1;
      var init := ops[..n];
      if Interfered(c, init).leasedBy == worker {
        HeldExactly(c, init, worker);
        LastKeepsHolding(c, ops, worker);
        LastReclaimsNothing(c, ops, worker);
      } else {
        assert ReclaimsAt(c, ops, worker, n) && !HeldAfter(c, ops, worker, n);
      }
    }
  }

  lemma LastKeepsHolding(c: Cell, ops: seq<Control>, worker: Worker)
    requires ops != [] && Interfered(c, ops).leasedBy == worker && Interfered(c, ops[..|ops| - 1]).leasedBy == worker
    ensures Held(c, ops, worker) <==> Held(c, ops[..|ops| - 1], worker)
  {
    var n := |ops| - 1;
    assert ops[..|ops|] == ops;
    assert HeldAfter(c, ops, worker, |ops|);
    forall i | 0 <= i <= n
      ensures HeldAfter(c, ops[..n], worker, i) <==> HeldAfter(c, ops, worker, i)
    {
      assert ops[..n][..i] == ops[..i];
    }
  }

  lemma LastReclaimsNothing(c: Cell, ops: seq<Control>, worker: Worker)
    requires ops != [] && Interfered(c, ops[..|ops| - 1]).leasedBy == worker
    ensures Reclaims(c, ops, worker) <==> Reclaims(c, ops[..|ops| - 1], worker)
  {
    var n := |ops| - 1;
    forall i | 0 <= i < n
      ensures ReclaimsAt(c, ops, worker, i) <==> ReclaimsAt(c, ops[..n], worker, i)
    {
      SamePrefix(c, ops, worker, i);
    }
    if Reclaims(c, ops, worker) {
      var i :| 0 <= i < |ops| && ReclaimsAt(c, ops, worker, i);
      assert ReclaimsAt(c, ops[..n], worker, i);
    }
    if Reclaims(c, ops[..n], worker) {
      var i :| 0 <= i < n && ReclaimsAt(c, ops[..n], worker, i);
      assert ReclaimsAt(c, ops, worker, i);
    }
  }

  lemma SamePrefix(c: Cell, ops: seq<Control>, worker: Worker, i: nat)
    requires i < |ops| - 1
    ensures ReclaimsAt(c, ops, worker, i) <==> ReclaimsAt(c, ops[..|ops| - 1], worker, i)
  {
    assert ops[..|ops| - 1][..i] == ops[..i];
  }

  // ---- Safety of the whole protocol, for every interleaving ----

  /** The first attempt meets the revision it expects. */
  predicate FirstFits(c: Cell, w: Write, calls: seq<Call>)
    requires calls != []
  {
    Interfered(c, calls[0].before).revision == w.revision
  }

  /** A commit happens under the worker's own lease, releases it and keeps the row's pause flag.
      Terminal statuses pass through unchanged; a park keeps its status when the first attempt
      commits, and takes the one that the row's flag and debug mode imply when a retry does. */
  lemma {:induction false} CommitIsFenced(c: Cell, w: Write, debug: bool, attempt: nat, calls: seq<Call>)
    requires 1 <= attempt <= MAX_ATTEMPTS && |calls| == 2 * (MAX_ATTEMPTS + 1 - attempt)
    requires ReadTogether(c, w.revision, w.pauseRequested)
    requires Attempts(c, w, debug, attempt, calls).commit.Some?
    ensures var k := Attempts(c, w, debug, attempt, calls).commit.value;
            && k.before.leasedBy == w.worker && k.after.leasedBy == "" && k.after.revision == k.before.revision + 1
            && k.after.pauseRequested == k.before.pauseRequested && k.after.payload == w.payload
            && (!IsPark(w.status) ==> k.after.status == w.status)
            && (IsPark(w.status) ==>
                  k.after.status == if FirstFits(c, w, calls) then w.status else NextStatus(k.before.pauseRequested, debug))
            && (w.status == NextStatus(w.pauseRequested, debug) ==>
                  k.after.status == NextStatus(k.before.pauseRequested, debug))
    decreases MAX_ATTEMPTS - attempt
  {
    InterferenceKeeps(c, calls[0].before, w.revision, w.pauseRequested);
    var c0 := Interfered(c, calls[0].before);
    if c0.revision != w.revision {
      var c1 := Interfered(c0, calls[1].before);
      CommitIsFenced(c1, Refreshed(w, c1, debug), debug, attempt + 1, calls[2..]);
    }
  }

  /** The status a park is first issued with: input parks look at the pause flag only, every other
      park also at debug mode. */
  function InputParkStatus(pauseRequested: bool): Status {
    if pauseRequested then Paused else Waiting
  }

  /** Outside debug mode every park, of an input or of anything else, is committed paused exactly
      when the row's pause flag is set at the commit: no pause or resume request is lost. */
  lemma ParkFollowsPauseFlag(c: Cell, w: Write, calls: seq<Call>)
    requires |calls| == 2 * MAX_ATTEMPTS && ReadTogether(c, w.revision, w.pauseRequested)
    requires w.status == InputParkStatus(w.pauseRequested)
    requires CheckpointOutcome(c, w, false, calls).commit.Some?
    ensures var k := CheckpointOutcome(c, w, false, calls).commit.value;
            k.after.status == if k.before.pauseRequested then Paused else Waiting
  {
    CommitIsFenced(c, w, false, 1, calls);
  }

  /** An input park never takes debug mode's status if and only if debug is off, the row asks for a
      pause anyway, or no conflict is met. */
  lemma InputParkExactly(c: Cell, w: Write, debug: bool, calls: seq<Call>)
    requires |calls| == 2 * MAX_ATTEMPTS && ReadTogether(c, w.revision, w.pauseRequested)
    requires w.status == InputParkStatus(w.pauseRequested)
    requires CheckpointOutcome(c, w, debug, calls).commit.Some?
    ensures var k := CheckpointOutcome(c, w, debug, calls).commit.value;
            k.after.status == InputParkStatus(k.before.pauseRequested) <==>
              !debug || k.before.pauseRequested || FirstFits(c, w, calls)
  {
    CommitIsFenced(c, w, debug, 1, calls);
    InterferenceKeeps(c, calls[0].before, w.revision, w.pauseRequested);
  }

  /** In debug mode an input park that meets a conflict is committed paused though nobody asked for a
      pause; without the conflict it is committed waiting. */
  lemma DebugInputParkTurnsPaused(payload: int)
    ensures var c, w := Cell(Running, "w", 1, false, 0), Write("w", 1, InputParkStatus(false), false, payload);
            var quiet := Call([], false);
            var raced := [Call([Resume], false), quiet, quiet, quiet, quiet, quiet];
            && ReadTogether(c, w.revision, w.pauseRequested)
            && CheckpointOutcome(c, w, true, seq(6, _ => quiet)).cell.status == Waiting
            && CheckpointOutcome(c, w, true, raced).cell.status == Paused
            && !CheckpointOutcome(c, w, true, raced).cell.pauseRequested
  {
    var c, w := Cell(Running, "w", 1, false, 0), Write("w", 1, InputParkStatus(false), false, payload);
    var quiet := Call([], false);
    var raced := [Call([Resume], false), quiet, quiet, quiet, quiet, quiet];
    assert [Resume][..0] == [];
    var c0 := Interfered(c, [Resume]);
    assert c0 == c.(revision := 2);
    var later := raced[2..];
    assert later[0] == quiet;
    assert Attempts(c0, Refreshed(w, c0, true), true, 2, later).commit.Some?;
  }

  /** An error return committed nothing. A return without error leaves no row leased to this worker,
      provided giving the lease back does not fail. */
  lemma {:induction false} ReturnReleases(c: Cell, w: Write, debug: bool, attempt: nat, calls: seq<Call>)
    requires 1 <= attempt <= MAX_ATTEMPTS && |calls| == 2 * (MAX_ATTEMPTS + 1 - attempt)
    requires w.worker != "" && LeasedRuns(c)
    ensures var o := Attempts(c, w, debug, attempt, calls);
            && (o.error ==> o.commit.None?)
            && (!o.error && !calls[|calls| - 1].fails ==> o.cell.leasedBy != w.worker)
    decreases MAX_ATTEMPTS - attempt
  {
    InterferenceKeeps(c, calls[0].before, 0, false);
    var c0 := Interfered(c, calls[0].before);
    InterferenceKeeps(c0, calls[1].before, 0, false);
    var c1 := Interfered(c0, calls[1].before);
    if attempt < MAX_ATTEMPTS {
      assert calls[2..][|calls[2..]| - 1] == calls[|calls| - 1];
      ReturnReleases(c1, Refreshed(w, c1, debug), debug, attempt + 1, calls[2..]);
    }
  }

  /** The lease was held at every moment up to the commit. */
  ghost predicate HeldToCommit(c: Cell, w: Write, debug: bool, attempt: nat, calls: seq<Call>)
    requires 1 <= attempt <= MAX_ATTEMPTS && |calls| == 2 * (MAX_ATTEMPTS + 1 - attempt)
    decreases MAX_ATTEMPTS - attempt
  {
    var c0 := Interfered(c, calls[0].before);
    && Held(c, calls[0].before, w.worker)
    && (c0.revision == w.revision ||
        (attempt < MAX_ATTEMPTS &&
         var c1 := Interfered(c0, calls[1].before);
         Held(c0, calls[1].before, w.worker) && HeldToCommit(c1, Refreshed(w, c1, debug), debug, attempt + 1, calls[2..])))
  }

  /** The worker claims the row again somewhere on the way to the commit. */
  ghost predicate ReclaimsToCommit(c: Cell, w: Write, debug: bool, attempt: nat, calls: seq<Call>)
    requires 1 <= attempt <= MAX_ATTEMPTS && |calls| == 2 * (MAX_ATTEMPTS + 1 - attempt)
    decreases MAX_ATTEMPTS - attempt
  {
    var c0 := Interfered(c, calls[0].before);
    || Reclaims(c, calls[0].before, w.worker)
    || (c0.revision != w.revision && attempt < MAX_ATTEMPTS &&
        var c1 := Interfered(c0, calls[1].before);
        Reclaims(c0, calls[1].before, w.worker) || ReclaimsToCommit(c1, Refreshed(w, c1, debug), debug, attempt + 1, calls[2..]))
  }

  /** A checkpoint takes effect after its lease was lost, even for a moment, if and only if the lease was
      claimed again under the same worker name. */
  lemma {:induction false} CommitsAfterLossExactly(c: Cell, w: Write, debug: bool, attempt: nat, calls: seq<Call>)
    requires 1 <= attempt <= MAX_ATTEMPTS && |calls| == 2 * (MAX_ATTEMPTS + 1 - attempt)
    requires w.worker != "" && Attempts(c, w, debug, attempt, calls).commit.Some?
    ensures HeldToCommit(c, w, debug, attempt, calls) <==> !ReclaimsToCommit(c, w, debug, attempt, calls)
    decreases MAX_ATTEMPTS - attempt
  {
    var c0 := Interfered(c, calls[0].before);
    HeldExactly(c, calls[0].before, w.worker);
    if c0.revision != w.revision {
      var c1 := Interfered(c0, calls[1].before);
      HeldExactly(c0, calls[1].before, w.worker);
      CommitsAfterLossExactly(c1, Refreshed(w, c1, debug), debug, attempt + 1, calls[2..]);
    }
  }

  /** In particular, a worker that makes no new claim never commits after losing its lease. */
  lemma {:induction false} NeverAfterLeaseLost(c: Cell, w: Write, debug: bool, attempt: nat, calls: seq<Call>)
    requires 1 <= attempt <= MAX_ATTEMPTS && |calls| == 2 * (MAX_ATTEMPTS + 1 - attempt)
    requires w.worker != "" && forall call | call in calls :: NeverClaims(call.before, w.worker)
    requires Attempts(c, w, debug, attempt, calls).commit.Some?
    ensures HeldToCommit(c, w, debug, attempt, calls)
    decreases MAX_ATTEMPTS - attempt
  {
    var c0 := Interfered(c, calls[0].before);
    HeldExactly(c, calls[0].before, w.worker);
    assert calls[0] in calls && calls[1] in calls;
    NoReclaim(c, calls[0].before, w.worker);
    if c0.revision != w.revision {
      var c1 := Interfered(c0, calls[1].before);
      HeldExactly(c0, calls[1].before, w.worker);
      NoReclaim(c0, calls[1].before, w.worker);
      assert forall call | call in calls[2..] :: call in calls;
      NeverAfterLeaseLost(c1, Refreshed(w, c1, debug), debug, attempt + 1, calls[2..]);
    }
  }

  lemma NoReclaim(c: Cell, ops: seq<Control>, worker: Worker)
    requires NeverClaims(ops, worker)
    ensures !Reclaims(c, ops, worker)
  {
    forall i | 0 <= i < |ops|
      ensures !ReclaimsAt(c, ops, worker, i)
    {
      assert ops[i] in ops;
    }
  }

  /** The fence cannot tell a worker from its own later claim: a row lost to another worker and
      claimed back under the same name still takes the first transition's commit. */
  lemma SameNameReclaimCommits(payload: int)
    ensures var c, w := Cell(Running, "w", 1, false, 0), Write("w", 1, Finished, false, payload);
            var quiet := Call([], false);
            var calls := [Call([Claim("v"), Claim("w")], false), quiet, quiet, quiet, quiet, quiet];
            var o := CheckpointOutcome(c, w, false, calls);
            && !Held(c, calls[0].before, "w")
            && o.commit.Some? && o.cell.payload == payload && o.cell.status == Finished
  {
    var c, w := Cell(Running, "w", 1, false, 0), Write("w", 1, Finished, false, payload);
    var quiet := Call([], false);
    var ops := [Claim("v"), Claim("w")];
    var calls := [Call(ops, false), quiet, quiet, quiet, quiet, quiet];
    assert ops[..1] == [Claim("v")] && [Claim("v")][..0] == [];
    assert Interfered(c, ops[..1]) == c.(leasedBy := "v", revision := 2);
    assert !HeldAfter(c, ops, "w", 1);
    var c0 := Interfered(c, ops);
    assert c0 == c.(revision := 3);
    var later := calls[2..];
    assert later[0] == quiet;
    assert Attempts(c0, Refreshed(w, c0, false), false, 2, later).commit.Some?;
  }

  predicate OnlyPauses(ops: seq<Control>) {
    forall op | op in ops :: op.Pause? || op.Resume?
  }

  /** Some attempt's update follows its read with nothing in between. */
  predicate SomeQuiet(calls: seq<Call>)
    decreases |calls|
  {
    |calls| >= 2 && (calls[0].before == [] || SomeQuiet(calls[2..]))
  }

  lemma {:induction false} PausesCount(c: Cell, ops: seq<Control>)
    requires c.status.Running? && OnlyPauses(ops)
    ensures var r := Interfered(c, ops);
            r.status.Running? && r.leasedBy == c.leasedBy && r.revision == c.revision + |ops|
    decreases |ops|
  {
    if ops != [] {
      assert ops[|ops| - 1] in ops && forall op | op in ops[..|ops| - 1] :: op in ops;
      PausesCount(c, ops[..|ops| - 1]);
    }
  }

  /** Pauses and resumes alone keep a checkpoint from committing if and only if one lands between
      every read of the row and the update that relies on it. */
  lemma {:induction false} CommitsExactlyWhenQuiet(c: Cell, w: Write, debug: bool, attempt: nat, calls: seq<Call>)
    requires 1 <= attempt <= MAX_ATTEMPTS && |calls| == 2 * (MAX_ATTEMPTS + 1 - attempt)
    requires c.status.Running? && c.leasedBy == w.worker && c.revision >= w.revision
    requires forall call | call in calls :: !call.fails && OnlyPauses(call.before)
    ensures Attempts(c, w, debug, attempt, calls).commit.Some? <==>
            (c.revision == w.revision && calls[0].before == []) || SomeQuiet(calls[2..])
    decreases MAX_ATTEMPTS - attempt
  {
    assert calls[0] in calls && calls[1] in calls;
    PausesCount(c, calls[0].before);
    var c0 := Interfered(c, calls[0].before);
    if c0.revision != w.revision && attempt < MAX_ATTEMPTS {
      PausesCount(c0, calls[1].before);
      var c1 := Interfered(c0, calls[1].before);
      assert forall call | call in calls[2..] :: call in calls;
      CommitsExactlyWhenQuiet(c1, Refreshed(w, c1, debug), debug, attempt + 1, calls[2..]);
    }
  }

  // ---- What an error return leaves behind ----

  function AllBefore(calls: seq<Call>): seq<Control> {
    if calls == [] then [] else calls[0].before + AllBefore(calls[1..])
  }

  lemma {:induction false} InterferedTwice(c: Cell, a: seq<Control>, b: seq<Control>)
    ensures Interfered(c, a + b) == Interfered(Interfered(c, a), b)
    decreases |b|
  {
    if b == [] {
      assert a + b == a;
    } else {
      assert (a + b)[..|a + b| - 1] == a + b[..|b| - 1];
      InterferedTwice(c, a, b[..|b| - 1]);
    }
  }

  /** The call at `j` is the first to fail. */
  predicate FirstFailure(calls: seq<Call>, j: nat) {
    j < |calls| && calls[j].fails && forall i | 0 <= i < j :: !calls[i].fails
  }

  lemma LaterFailure(calls: seq<Call>, k: nat)
    requires |calls| >= 2 && !calls[0].fails && !calls[1].fails && FirstFailure(calls[2..], k)
    ensures FirstFailure(calls, k + 2)
  {
    assert calls[2..][k] == calls[k + 2];
    assert forall i | 2 <= i < k + 2 :: calls[i] == calls[2..][i - 2];
  }

  /** An error return is the first failing update or reload, and the checkpoint itself wrote nothing. */
  lemma {:induction false} ErrorWritesNothing(c: Cell, w: Write, debug: bool, attempt: nat, calls: seq<Call>) returns (j: nat)
    requires 1 <= attempt <= MAX_ATTEMPTS && |calls| == 2 * (MAX_ATTEMPTS + 1 - attempt)
    requires Attempts(c, w, debug, attempt, calls).error
    ensures j < |calls| - 1 && FirstFailure(calls, j)
    ensures Attempts(c, w, debug, attempt, calls).cell == Moment(c, calls, j + 1)
    decreases MAX_ATTEMPTS - attempt
  {
    var c0 := Interfered(c, calls[0].before);
    var c1 := Interfered(c0, calls[1].before);
    if calls[0].fails {
      j := 0;
      FirstMoments(c, calls);
    } else if calls[1].fails {
      j := 1;
      FirstMoments(c, calls);
    } else {
      var k := ErrorWritesNothing(c1, Refreshed(w, c1, debug), debug, attempt + 1, calls[2..]);
      j := k + 2;
      LaterFailure(calls, k);
      LaterMoment(c, calls, k + 1);
    }
  }

  /** Under pauses and resumes alone, a checkpoint returns with the row still leased to the worker if and only if
      it returns an error, the conflict of a failed reload included, or fails to give the lease back. */
  lemma {:induction false} LeaseKeptExactly(c: Cell, w: Write, debug: bool, attempt: nat, calls: seq<Call>)
    requires 1 <= attempt <= MAX_ATTEMPTS && |calls| == 2 * (MAX_ATTEMPTS + 1 - attempt)
    requires w.worker != "" && c.status.Running? && c.leasedBy == w.worker
    requires forall call | call in calls :: OnlyPauses(call.before)
    ensures var o := Attempts(c, w, debug, attempt, calls);
            o.cell.leasedBy == w.worker <==> o.error || (o.commit.None? && calls[|calls| - 1].fails)
    decreases MAX_ATTEMPTS - attempt
  {
    assert calls[0] in calls && calls[1] in calls;
    PausesCount(c, calls[0].before);
    var c0 := Interfered(c, calls[0].before);
    PausesCount(c0, calls[1].before);
    var c1 := Interfered(c0, calls[1].before);
    if !calls[0].fails && c0.revision != w.revision && attempt < MAX_ATTEMPTS && !calls[1].fails {
      assert forall call | call in calls[2..] :: call in calls;
      assert calls[2..][|calls[2..]| - 1] == calls[|calls| - 1];
      LeaseKeptExactly(c1, Refreshed(w, c1, debug), debug, attempt + 1, calls[2..]);
    }
  }

  // ---- What a return without a commit leaves behind ----

  /** Same columns except those of the lease and the revision. */
  predicate SameWork(a: Cell, b: Cell) {
    a.status == b.status && a.pauseRequested == b.pauseRequested && a.payload == b.payload
  }

  /** The row `o` is `i`, or `i` with the worker's lease given back. */
  predicate Leaves(o: Cell, i: Cell, worker: Worker) {
    SameWork(o, i) && (o == i || (i.leasedBy == worker && i.status.Running? && o.leasedBy == "" && o.revision == i.revision + 1))
  }

  /** The row as control writes alone leave it before call `j`. */
  function Moment(c: Cell, calls: seq<Call>, j: nat): Cell
    requires j <= |calls|
  {
    Interfered(c, AllBefore(calls[..j]))
  }

  /** A checkpoint that does not commit leaves status, pause flag and payload as control writes left them at
      some moment, and at most gives the worker's lease back. */
  lemma {:induction false} NothingButTheLease(c: Cell, w: Write, debug: bool, attempt: nat, calls: seq<Call>) returns (j: nat)
    requires 1 <= attempt <= MAX_ATTEMPTS && |calls| == 2 * (MAX_ATTEMPTS + 1 - attempt)
    requires Attempts(c, w, debug, attempt, calls).commit.None?
    ensures 0 < j <= |calls| && Leaves(Attempts(c, w, debug, attempt, calls).cell, Moment(c, calls, j), w.worker)
    decreases MAX_ATTEMPTS - attempt
  {
    var c0 := Interfered(c, calls[0].before);
    var c1 := Interfered(c0, calls[1].before);
    if calls[0].fails || c0.leasedBy != w.worker {
      j := 1;
      FirstMoments(c, calls);
    } else if attempt == MAX_ATTEMPTS || calls[1].fails || c1.leasedBy != w.worker || !c1.status.Running? {
      j := 2;
      FirstMoments(c, calls);
    } else {
      var k := NothingButTheLease(c1, Refreshed(w, c1, debug), debug, attempt + 1, calls[2..]);
      j := k + 2;
      LaterMoment(c, calls, k);
    }
  }

  lemma FirstMoments(c: Cell, calls: seq<Call>)
    requires |calls| >= 2
    ensures Moment(c, calls, 1) == Interfered(c, calls[0].before)
    ensures Moment(c, calls, 2) == Interfered(Interfered(c, calls[0].before), calls[1].before)
  {
    TwoCalls(c, calls);
  }

  lemma TwoCalls(c: Cell, calls: seq<Call>)
    requires |calls| >= 2
    ensures Interfered(c, AllBefore(calls[..1])) == Interfered(c, calls[0].before)
    ensures Interfered(c, AllBefore(calls[..2])) == Interfered(Interfered(c, calls[0].before), calls[1].before)
  {
    assert AllBefore([]) == [];
    assert calls[..1] == [calls[0]] && calls[..1][1..] == [] && calls[0].before + [] == calls[0].before;
    assert calls[..2][1..] == [calls[1]] && [calls[1]][1..] == [] && calls[1].before + [] == calls[1].before;
    InterferedTwice(c, calls[0].before, calls[1].before);
  }

  lemma LaterMoment(c: Cell, calls: seq<Call>, k: nat)
    requires |calls| >= k + 2
    ensures Moment(c, calls, k + 2) == Moment(Interfered(Interfered(c, calls[0].before), calls[1].before), calls[2..], k)
  {
    var later := AllBefore(calls[2..][..k]);
    assert calls[..k + 2][1..][1..] == calls[2..][..k];
    assert AllBefore(calls[..k + 2]) == calls[0].before + (calls[1].before + later);
    InterferedTwice(c, calls[0].before, calls[1].before + later);
    InterferedTwice(Interfered(c, calls[0].before), calls[1].before, later);
  }

  /** The pause flag that pauses and resumes leave on a running row: the last of them decides. */
  function LastFlag(flag: bool, ops: seq<Control>): bool {
    if ops == [] then flag else ops[|ops| - 1].Pause?
  }

  lemma {:induction false} PausesSetFlag(c: Cell, ops: seq<Control>)
    requires c.status.Running? && OnlyPauses(ops)
    ensures var r := Interfered(c, ops);
            r.status.Running? && r.payload == c.payload && r.pauseRequested == LastFlag(c.pauseRequested, ops)
    decreases |ops|
  {
    if ops != [] {
      assert ops[|ops| - 1] in ops && forall op | op in ops[..|ops| - 1] :: op in ops;
      PausesSetFlag(c, ops[..|ops| - 1]);
    }
  }

  lemma {:induction false} OnlyPausesBefore(calls: seq<Call>)
    requires forall call | call in calls :: OnlyPauses(call.before)
    ensures OnlyPauses(AllBefore(calls))
    decreases |calls|
  {
    if calls != [] {
      assert calls[0] in calls && forall call | call in calls[1..] :: call in calls;
      OnlyPausesBefore(calls[1..]);
    }
  }

  /** Under pauses and resumes alone, a checkpoint that does not commit leaves the row running, with its work
      untouched and the flag of the last pause or resume, so that any worker can claim it. */
  lemma UncommittedStaysClaimable(c: Cell, w: Write, debug: bool, calls: seq<Call>, worker: Worker) returns (j: nat)
    requires |calls| == 2 * MAX_ATTEMPTS && c.status.Running? && forall call | call in calls :: OnlyPauses(call.before)
    requires CheckpointOutcome(c, w, debug, calls).commit.None?
    ensures 0 < j <= |calls|
    ensures var o := CheckpointOutcome(c, w, debug, calls).cell;
            && o.status.Running? && o.payload == c.payload
            && o.pauseRequested == LastFlag(c.pauseRequested, AllBefore(calls[..j]))
            && Controlled(o, Claim(worker)) == o.(leasedBy := worker, revision := o.revision + 1)
  {
    j := NothingButTheLease(c, w, debug, 1, calls);
    assert forall call | call in calls[..j] :: call in calls;
    OnlyPausesBefore(calls[..j]);
    PausesSetFlag(c, AllBefore(calls[..j]));
  }
}
