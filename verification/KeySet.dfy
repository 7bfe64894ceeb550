/** How often the provider's key set is read.

    Source: internal/workflow/auth/keyset.go:15-79 and 151-224. */
module KeySet {
  import opened Wrappers

  /** Nanoseconds on the key set's clock. */
  type Time = int

  /** A key, named by its id. */
  type Key = string

  const MIN_TTL: Time := 60_000_000_000

  /** A read of the provider's document, from the check that led to it to the answer. */
  datatype Fetch = Fetch(start: Time, end: Time, rotation: bool, ok: bool)

  datatype State = State(ttl: Time, keys: seq<Key>, fetchedAt: Option<Time>, rereadAt: Option<Time>, log: seq<Fetch>)

  /** One passage through the refresh lock: entered at `now` on an expired or on an unknown key, with
      the provider's answer, if it is asked and gives one, at `end`. */
  datatype Passage = Passage(rotation: bool, now: Time, end: Time, answer: Option<seq<Key>>)

  predicate Within(at: Option<Time>, now: Time, ttl: Time) {
    at.Some? && now - at.value < ttl
  }

  predicate Fetches(s: State, p: Passage) {
    !Within(if p.rotation then s.rereadAt else s.fetchedAt, p.now, s.ttl)
  }

  function Next(s: State, p: Passage): State {
    if !Fetches(s, p) then s
    else
      var t := s.(log := s.log + [Fetch(p.now, p.end, p.rotation, p.answer.Some?)]);
      if p.answer.None? then t
      else t.(keys := p.answer.value, fetchedAt := Some(p.end), rereadAt := if p.rotation then Some(p.end) else s.rereadAt)
  }

  function Initial(ttl: Time): State {
    State(if ttl < MIN_TTL then MIN_TTL else ttl, [], None, None, [])
  }

  function Run(s: State, passages: seq<Passage>): State
    decreases |passages|
  {
    if passages == [] then s else Next(Run(s, passages[..|passages| - 1]), passages[|passages| - 1])
  }

  /** Passages exclude each other, and the clock does not run back. */
  predicate Ordered(passages: seq<Passage>) {
    && (forall i | 0 <= i < |passages| :: passages[i].now <= passages[i].end)
    && forall i, j | 0 <= i < j < |passages| :: passages[i].end <= passages[j].now
  }

  // ---- The key set as it is updated in place ----

  class TtlKeySet {
    const ttl: Time
    var keys: seq<Key>
    var fetchedAt: Option<Time>
    var rereadAt: Option<Time>
    ghost var log: seq<Fetch>

    ghost function Now(): State
      reads this
    {
      State(ttl, keys, fetchedAt, rereadAt, log)
    }

    constructor (ttl: Time)
      ensures Now() == Initial(ttl)
    {
      this.ttl := if ttl < MIN_TTL then MIN_TTL else ttl;
      this.keys, this.fetchedAt, this.rereadAt, this.log := [], None, None, [];
    }

    predicate Stale(now: Time)
      reads this
    {
      fetchedAt.None? || now - fetchedAt.value >= ttl
    }

    predicate Spent(now: Time)
      reads this
    {
      rereadAt.Some? && now - rereadAt.value < ttl
    }

    /** The part of refresh that runs under the lock. */
    method Refresh(now: Time, end: Time, answer: Option<seq<Key>>)
      modifies this
      ensures Now() == Next(old(Now()), Passage(false, now, end, answer))
    {
      if !Stale(now) {
        return;
      }
      Replace(now, end, answer, false);
    }

    /** The checks before the lock: a token that names no key, or one that is held, never leads to a
        re-read, whatever the clock says; any other does unless the window is spent. */
    method WantsReread(kid: string, now: Time) returns (wants: bool)
      ensures kid == "" || kid in keys ==> !wants
      ensures kid != "" && kid !in keys ==> (wants <==> Fetches(Now(), Passage(true, now, now, None)))
    {
      if kid == "" {
        return false;
      }
      var known := false;
      for i := 0 to |keys|
        invariant known <==> kid in keys[..i]
      {
        if keys[i] == kid {
          known := true;
          break;
        }
      }
      wants := !(known || Spent(now));
    }

    method Reread(now: Time, end: Time, answer: Option<seq<Key>>)
      modifies this
      ensures Now() == Next(old(Now()), Passage(true, now, end, answer))
    {
      if Spent(now) {
        return;
      }
      Replace(now, end, answer, true);
    }

    method Replace(now: Time, end: Time, answer: Option<seq<Key>>, rotation: bool)
      modifies this
      ensures log == old(log) + [Fetch(now, end, rotation, answer.Some?)]
      ensures answer.None? ==> keys == old(keys) && fetchedAt == old(fetchedAt) && rereadAt == old(rereadAt)
      ensures answer.Some? ==> keys == answer.value && fetchedAt == Some(end)
      ensures answer.Some? ==> rereadAt == if rotation then Some(end) else old(rereadAt)
    {
      log := log + [Fetch(now, end, rotation, answer.Some?)];
      if answer.None? {
        return;
      }
      keys := answer.value;
      fetchedAt := Some(end);
      if rotation {
        rereadAt := fetchedAt;
      }
    }
  }

  // ---- The rate ----

  /** The passages made so far are in order up to `clock`, each stamp is no older than the reads it
      counts, and no read was made within the TTL of one that forbids it. */
  ghost predicate Inv(s: State, clock: Time) {
    && s.ttl >= MIN_TTL
    && (forall i | 0 <= i < |s.log| :: s.log[i].start <= s.log[i].end <= clock)
    && (forall i, j | 0 <= i < j < |s.log| :: s.log[i].end <= s.log[j].start)
    && (forall i | 0 <= i < |s.log| && s.log[i].ok :: s.fetchedAt.Some? && s.log[i].end <= s.fetchedAt.value)
    && (forall i | 0 <= i < |s.log| && s.log[i].ok && s.log[i].rotation :: s.rereadAt.Some? && s.log[i].end <= s.rereadAt.value)
    && forall i, j | 0 <= i < j < |s.log| && s.log[i].ok && (s.log[j].rotation ==> s.log[i].rotation) ::
         s.log[j].start - s.log[i].end >= s.ttl
  }

  lemma PassageKeeps(s: State, clock: Time, p: Passage)
    requires Inv(s, clock) && clock <= p.now <= p.end
    ensures Inv(Next(s, p), p.end)
  {
  }

  lemma {:induction false} RunsKeepRate(ttl: Time, passages: seq<Passage>)
    requires Ordered(passages)
    ensures var s := Run(Initial(ttl), passages);
            if passages == [] then s == Initial(ttl) else Inv(s, passages[|passages| - 1].end)
    decreases |passages|
  {
    if passages != [] {
      var n := |passages| - 1;
      RunsKeepRate(ttl, passages[..n]);
      PassageKeeps(Run(Initial(ttl), passages[..n]), if n == 0 then passages[0].now else passages[n - 1].end, passages[n]);
    }
  }

  /** The successful reads begun, and those answered, in the window of one TTL that opens at `from`. */
  ghost function BegunIn(s: State, from: Time): set<nat> {
    set i: nat | i < |s.log| && s.log[i].ok && from <= s.log[i].start < from + s.ttl
  }

  ghost function AnsweredIn(s: State, from: Time): set<nat> {
    set i: nat | i < |s.log| && s.log[i].ok && from <= s.log[i].end < from + s.ttl
  }

  lemma ThreeMembers(a: set<nat>)
    requires |a| > 2
    ensures exists i, j, k :: i in a && j in a && k in a && i < j < k
  {
    var i :| i in a;
    assert |a - {i}| > 1;
    var j :| j in a - {i};
    assert |a - {i} - {j}| > 0;
    var k :| k in a - {i} - {j};
    assert i < j < k || i < k < j || j < i < k || j < k < i || k < i < j || k < j < i;
  }

  lemma AtMostTwo(a: set<nat>)
    requires forall i, j, k | i in a && j in a && k in a :: !(i < j < k)
    ensures |a| <= 2
  {
    if |a| > 2 {
      ThreeMembers(a);
    }
  }

  /** However verifications interleave, no window of one TTL sees more than two successful reads, and
      the second of two is the re-read for an unknown key. */
  lemma AtMostTwoReadsPerWindow(ttl: Time, passages: seq<Passage>, from: Time)
    requires Ordered(passages)
    ensures var s := Run(Initial(ttl), passages);
            && |BegunIn(s, from)| <= 2 && |AnsweredIn(s, from)| <= 2
            && (forall i, j | i in BegunIn(s, from) && j in BegunIn(s, from) && i < j :: s.log[j].rotation && !s.log[i].rotation)
            && s.ttl >= MIN_TTL && s.ttl >= ttl
  {
    RunsKeepRate(ttl, passages);
    var s := Run(Initial(ttl), passages);
    TtlStays(ttl, passages);
    forall i, j, k | i in BegunIn(s, from) && j in BegunIn(s, from) && k in BegunIn(s, from)
      ensures !(i < j < k)
    {
    }
    forall i, j, k | i in AnsweredIn(s, from) && j in AnsweredIn(s, from) && k in AnsweredIn(s, from)
      ensures !(i < j < k)
    {
    }
    AtMostTwo(BegunIn(s, from));
    AtMostTwo(AnsweredIn(s, from));
  }

  lemma {:induction false} TtlStays(ttl: Time, passages: seq<Passage>)
    ensures Run(Initial(ttl), passages).ttl == Initial(ttl).ttl
    decreases |passages|
  {
    if passages != [] {
      TtlStays(ttl, passages[..|passages| - 1]);
    }
  }

  /** A stamp is the time of the last successful read, or of the last successful re-read. */
  ghost predicate Stamped(s: State) {
    IsLast(s, s.fetchedAt, false) && IsLast(s, s.rereadAt, true)
  }

  ghost predicate IsLast(s: State, at: Option<Time>, rereads: bool) {
    && (at.Some? ==> exists i :: 0 <= i < |s.log| && Counts(s.log[i], rereads) && s.log[i].end == at.value)
    && forall i | 0 <= i < |s.log| && Counts(s.log[i], rereads) :: at.Some? && s.log[i].end <= at.value
  }

  predicate Counts(f: Fetch, rereads: bool) {
    f.ok && (rereads ==> f.rotation)
  }

  lemma {:induction false} RunsStamp(ttl: Time, passages: seq<Passage>)
    requires Ordered(passages)
    ensures Stamped(Run(Initial(ttl), passages))
    decreases |passages|
  {
    if passages != [] {
      var n := |passages| - 1;
      RunsStamp(ttl, passages[..n]);
      RunsKeepRate(ttl, passages[..n]);
      var s, p := Run(Initial(ttl), passages[..n]), passages[n];
      assert forall i | 0 <= i < |s.log| :: s.log[i].end <= p.now by {
        if n > 0 {
          assert passages[..n][n - 1] == passages[n - 1];
        }
      }
      StampKept(s, p);
    }
  }

  lemma StampKept(s: State, p: Passage)
    requires Stamped(s) && p.now <= p.end && forall i | 0 <= i < |s.log| :: s.log[i].end <= p.now
    ensures Stamped(Next(s, p))
  {
    var t := Next(s, p);
    if t != s {
      LastKept(s, t, s.fetchedAt, t.fetchedAt, false);
      LastKept(s, t, s.rereadAt, t.rereadAt, true);
    }
  }

  lemma LastKept(s: State, t: State, at: Option<Time>, at': Option<Time>, rereads: bool)
    requires IsLast(s, at, rereads) && |t.log| == |s.log| + 1 && t.log[..|s.log|] == s.log
    requires at' == if Counts(t.log[|s.log|], rereads) then Some(t.log[|s.log|].end) else at
    requires forall i | 0 <= i < |s.log| :: s.log[i].end <= t.log[|s.log|].end
    ensures IsLast(t, at', rereads)
  {
    var n := |s.log|;
    assert forall i | 0 <= i < n :: t.log[i] == t.log[..n][i];
    if Counts(t.log[n], rereads) {
      assert t.log[n].end == at'.value;
    } else if at.Some? {
      var i :| 0 <= i < n && Counts(s.log[i], rereads) && s.log[i].end == at.value;
      assert Counts(t.log[i], rereads) && t.log[i].end == at'.value;
    }
  }

  /** After any passages, an expiry passage reads if and only if no read succeeded within the TTL, and a
      re-read is made if and only if no re-read succeeded within it. */
  lemma ReadsExactly(ttl: Time, passages: seq<Passage>, p: Passage)
    requires Ordered(passages)
    ensures var s := Run(Initial(ttl), passages);
            Fetches(s, p) <==> forall i | 0 <= i < |s.log| && Counts(s.log[i], p.rotation) :: p.now - s.log[i].end >= s.ttl
  {
    RunsStamp(ttl, passages);
  }

  /** After any passages, the next successful read comes within the TTL of an earlier one exactly when it is
      a re-read for an unknown key and the held keys are not stale when it is answered. So once per
      TTL holds for expiry reads, and fails exactly for re-reads of fresh keys. */
  lemma SecondReadExactly(ttl: Time, passages: seq<Passage>, p: Passage)
    requires Ordered(passages + [p]) && Fetches(Run(Initial(ttl), passages), p) && p.answer.Some?
    ensures var s := Run(Initial(ttl), passages);
            (exists i :: 0 <= i < |s.log| && s.log[i].ok && p.end - s.log[i].end < s.ttl) <==>
            p.rotation && Within(s.fetchedAt, p.end, s.ttl)
  {
    assert forall i | 0 <= i < |passages| :: (passages + [p])[i] == passages[i];
    assert (passages + [p])[|passages|] == p;
    RunsStamp(ttl, passages);
  }

  /** Two is reached: an expiry read and a re-read at the same instant. */
  lemma TwoReadsHappen(ttl: Time, now: Time, keys: seq<Key>)
    ensures var passages := [Passage(false, now, now, Some(keys)), Passage(true, now, now, Some(keys))];
            Ordered(passages) && |BegunIn(Run(Initial(ttl), passages), now)| == 2
  {
    var passages := [Passage(false, now, now, Some(keys)), Passage(true, now, now, Some(keys))];
    var s0 := Initial(ttl);
    assert passages[..1] == [passages[0]] && passages[..1][..0] == [];
    assert Run(s0, passages[..1]) == Next(s0, passages[0]);
    var s := Run(s0, passages);
    assert s.log == [Fetch(now, now, false, true), Fetch(now, now, true, true)];
    assert BegunIn(s, now) == {0, 1};
  }

  /** Failed reads are not limited: while the provider does not answer, every verification on a stale
      key set asks it, any number of times at one instant. */
  lemma {:induction false} FailuresAreNotThrottled(ttl: Time, now: Time, n: nat)
    ensures var passages := seq(n, _ => Passage(false, now, now, None));
            Ordered(passages) && |Run(Initial(ttl), passages).log| == n && Run(Initial(ttl), passages).fetchedAt.None?
  {
    var passages := seq(n, _ => Passage(false, now, now, None));
    if n > 0 {
      assert passages[..n - 1] == seq(n - 1, _ => Passage(false, now, now, None));
      FailuresAreNotThrottled(ttl, now, n - 1);
    }
  }
}
