/** The two-level bulkhead around outbound HTTP calls, as its callers interleave.

    Source: internal/workflow/executor/httpbulkhead.go:14-111. */
module Bulkhead {
  import opened Wrappers

  const MAX_HOST_BUCKETS: nat := 4096

  const DEFAULT_GLOBAL: nat := 128

  const DEFAULT_PER_HOST: nat := 16

  type Caller = nat

  datatype Bucket = HostBucket(host: string) | Overflow

  /** Where one caller stands in acquiring and releasing its slots. */
  datatype Phase =
    | WaitingGlobal(host: string)
    | Choosing(host: string)
    | WaitingBucket(host: string, bucket: Bucket)
    | Admitted(host: string, bucket: Bucket)
    | Returning(host: string, bucket: Bucket)  // the bucket slot is back, the global one not yet
    | Left

  datatype State = State(globalCap: nat, perHost: nat, global: int, hosts: map<string, int>, overflow: int, callers: map<Caller, Phase>)

  datatype Event =
    | Arrive(caller: Caller, host: string)
    | TakeGlobal(caller: Caller)
    | Choose(caller: Caller)
    | TakeBucket(caller: Caller)
    | Expire(caller: Caller)
    | Release(caller: Caller)
    | ReturnGlobal(caller: Caller)

  function Lower(s: string): string {
    seq(|s|, i requires 0 <= i < |s| => if 'A' <= s[i] <= 'Z' then (s[i] as int + 32) as char else s[i])
  }

  function Tokens(s: State, b: Bucket): int {
    match b
    case HostBucket(host) => if host in s.hosts then s.hosts[host] else 0
    case Overflow => s.overflow
  }

  function WithTokens(s: State, b: Bucket, n: int): State {
    match b
    case HostBucket(host) => s.(hosts := s.hosts[host := n])
    case Overflow => s.(overflow := n)
  }

  /** The bucket that a host is bound to, if it is bound. */
  function BoundBucket(hosts: map<string, int>, host: string): Option<Bucket> {
    if Lower(host) in hosts then Some(HostBucket(Lower(host)))
    else if |hosts| >= MAX_HOST_BUCKETS then Some(Overflow)
    else None
  }

  function At(s: State, c: Caller): Phase {
    if c in s.callers then s.callers[c] else Left
  }

  function Moved(s: State, c: Caller, p: Phase): State {
    s.(callers := s.callers[c := p])
  }

  /** One step of one caller; a step that is not possible changes nothing. */
  function Next(s: State, e: Event): State {
    var c := e.caller;
    match e
    case Arrive(_, host) => if c in s.callers then s else Moved(s, c, WaitingGlobal(host))
    case TakeGlobal(_) =>
      if At(s, c).WaitingGlobal? && s.global < s.globalCap then Moved(s.(global := s.global + 1), c, Choosing(At(s, c).host)) else s
    case Choose(_) =>
      if !At(s, c).Choosing? then s
      else
        var host := At(s, c).host;
        var bound := BoundBucket(s.hosts, host);
        if bound.Some? then Moved(s, c, WaitingBucket(host, bound.value))
        else Moved(s.(hosts := s.hosts[Lower(host) := 0]), c, WaitingBucket(host, HostBucket(Lower(host))))
    case TakeBucket(_) =>
      if At(s, c).WaitingBucket? && Tokens(s, At(s, c).bucket) < s.perHost
        then Moved(WithTokens(s, At(s, c).bucket, Tokens(s, At(s, c).bucket) + 1), c, Admitted(At(s, c).host, At(s, c).bucket))
      else s
    case Expire(_) =>
      if At(s, c).WaitingGlobal? then Moved(s, c, Left)
      else if At(s, c).WaitingBucket? then Moved(s.(global := s.global - 1), c, Left)
      else s
    case Release(_) =>
      if At(s, c).Admitted?
        then Moved(WithTokens(s, At(s, c).bucket, Tokens(s, At(s, c).bucket) - 1), c, Returning(At(s, c).host, At(s, c).bucket))
      else s
    case ReturnGlobal(_) =>
      if At(s, c).Returning? then Moved(s.(global := s.global - 1), c, Left) else s
  }

  function Run(s: State, events: seq<Event>): State
    decreases |events|
  {
    if events == [] then s else Next(Run(s, events[..|events| - 1]), events[|events| - 1])
  }

  function Initial(global: int, perHost: int): State {
    State(if global <= 0 then DEFAULT_GLOBAL else global, if perHost <= 0 then DEFAULT_PER_HOST else perHost, 0, map[], 0, map[])
  }

  // ---- The bulkhead as it is updated in place ----

  class HTTPBulkhead {
    const globalCap: nat
    const perHost: nat
    var global: int
    var hosts: map<string, int>
    var overflow: int
    ghost var callers: map<Caller, Phase>

    ghost function Now(): State
      reads this
    {
      State(globalCap, perHost, global, hosts, overflow, callers)
    }

    constructor (global: int, perHost: int)
      ensures Now() == Initial(global, perHost)
    {
      this.globalCap := if global <= 0 then DEFAULT_GLOBAL else global;
      this.perHost := if perHost <= 0 then DEFAULT_PER_HOST else perHost;
      this.global, this.overflow, this.hosts, this.callers := 0, 0, map[], map[];
    }

    /** The first wait of Acquire, when it does not expire. */
    method TryGlobal(ghost c: Caller) returns (taken: bool)
      requires At(Now(), c).WaitingGlobal?
      modifies this
      ensures Now() == Next(old(Now()), TakeGlobal(c)) && (taken <==> Now() != old(Now()))
      ensures (taken <==> old(global) < globalCap) && global == old(global) + if taken then 1 else 0
    {
      taken := global < globalCap;
      if taken {
        global := global + 1;
        callers := callers[c := Choosing(callers[c].host)];
      }
    }

    method BucketFor(ghost c: Caller, host: string) returns (bucket: Bucket)
      requires At(Now(), c) == Choosing(host)
      modifies this
      ensures Now() == Next(old(Now()), Choose(c)) && At(Now(), c) == WaitingBucket(host, bucket)
      ensures bucket == if Lower(host) in old(hosts) || |old(hosts)| < MAX_HOST_BUCKETS then HostBucket(Lower(host)) else Overflow
    {
      var key := Lower(host);
      if key in hosts {
        bucket := HostBucket(key);
      } else if |hosts| >= MAX_HOST_BUCKETS {
        bucket := Overflow;
      } else {
        hosts := hosts[key := 0];
        bucket := HostBucket(key);
      }
      callers := callers[c := WaitingBucket(host, bucket)];
    }

    /** The second wait of Acquire, when it does not expire. */
    method TryBucket(ghost c: Caller, bucket: Bucket) returns (taken: bool)
      requires At(Now(), c).WaitingBucket? && At(Now(), c).bucket == bucket && (bucket.HostBucket? ==> bucket.host in hosts)
      modifies this
      ensures Now() == Next(old(Now()), TakeBucket(c)) && (taken <==> Now() != old(Now()))
      ensures (taken <==> Tokens(old(Now()), bucket) < perHost)
      ensures Tokens(Now(), bucket) == Tokens(old(Now()), bucket) + if taken then 1 else 0
    {
      taken := (if bucket.Overflow? then overflow else hosts[bucket.host]) < perHost;
      if taken {
        if bucket.Overflow? {
          overflow := overflow + 1;
        } else {
          hosts := hosts[bucket.host := hosts[bucket.host] + 1];
        }
        callers := callers[c := Admitted(callers[c].host, bucket)];
        assert callers[c] != old(callers)[c];
      }
    }

    /** Acquire gives up: a caller that waits for its bucket first hands its global slot back. */
    method GiveUp(ghost c: Caller, holdsGlobal: bool)
      requires if holdsGlobal then At(Now(), c).WaitingBucket? else At(Now(), c).WaitingGlobal?
      modifies this
      ensures Now() == Next(old(Now()), Expire(c))
      ensures global == old(global) - (if holdsGlobal then 1 else 0) && hosts == old(hosts) && overflow == old(overflow)
    {
      if holdsGlobal {
        global := global - 1;
      }
      callers := callers[c := Left];
    }

    /** The release function: `once` says that it has not run before. */
    method ReleaseSlots(ghost c: Caller, bucket: Bucket, once: bool)
      requires once <==> At(Now(), c).Admitted?
      requires once ==> At(Now(), c).bucket == bucket && (bucket.HostBucket? ==> bucket.host in hosts)
      modifies this
      ensures Now() == Next(Next(old(Now()), Release(c)), if once then ReturnGlobal(c) else Release(c))
      ensures !once ==> unchanged(this)
      ensures once ==> global == old(global) - 1 && Tokens(Now(), bucket) == Tokens(old(Now()), bucket) - 1
    {
      if once {
        match bucket {
          case HostBucket(host) => hosts := hosts[host := hosts[host] - 1];
          case Overflow => overflow := overflow - 1;
        }
        global := global - 1;
        callers := callers[c := Left];
      }
    }
  }

  // ---- The invariant ----

  predicate HoldsGlobal(p: Phase) {
    p.Choosing? || p.WaitingBucket? || p.Admitted? || p.Returning?
  }

  predicate Occupies(p: Phase, b: Bucket) {
    p.Admitted? && p.bucket == b
  }

  predicate HasBucket(p: Phase) {
    p.WaitingBucket? || p.Admitted? || p.Returning?
  }

  ghost function Holders(callers: map<Caller, Phase>): set<Caller> {
    set c | c in callers && HoldsGlobal(callers[c])
  }

  ghost function Occupants(callers: map<Caller, Phase>, b: Bucket): set<Caller> {
    set c | c in callers && Occupies(callers[c], b)
  }

  /** Every token is held by exactly one caller, no level exceeds its cap, and every caller past the
      choice stands at the bucket its host is bound to. */
  ghost predicate Inv(s: State) {
    && s.global == |Holders(s.callers)| <= s.globalCap
    && (forall b :: Tokens(s, b) == |Occupants(s.callers, b)| <= s.perHost)
    && |s.hosts| <= MAX_HOST_BUCKETS
    && forall c | c in s.callers && HasBucket(s.callers[c]) :: BoundBucket(s.hosts, s.callers[c].host) == Some(s.callers[c].bucket)
  }

  lemma HoldersAfter(callers: map<Caller, Phase>, c: Caller, p: Phase)
    ensures Holders(callers[c := p]) == (Holders(callers) - {c}) + (if HoldsGlobal(p) then {c} else {})
  {
    forall d
      ensures d in Holders(callers[c := p]) <==> (if d == c then HoldsGlobal(p) else d in Holders(callers))
    {
    }
  }

  lemma HoldersMove(callers: map<Caller, Phase>, c: Caller, p: Phase)
    ensures |Holders(callers[c := p])| == |Holders(callers)| - (if c in Holders(callers) then 1 else 0) + (if HoldsGlobal(p) then 1 else 0)
  {
    HoldersAfter(callers, c, p);
  }

  lemma OccupantsAfter(callers: map<Caller, Phase>, c: Caller, p: Phase, b: Bucket)
    ensures Occupants(callers[c := p], b) == (Occupants(callers, b) - {c}) + (if Occupies(p, b) then {c} else {})
  {
    forall d
      ensures d in Occupants(callers[c := p], b) <==> (if d == c then Occupies(p, b) else d in Occupants(callers, b))
    {
    }
  }

  lemma OccupantsMove(callers: map<Caller, Phase>, c: Caller, p: Phase, b: Bucket)
    ensures |Occupants(callers[c := p], b)| ==
            |Occupants(callers, b)| - (if c in Occupants(callers, b) then 1 else 0) + (if Occupies(p, b) then 1 else 0)
  {
    OccupantsAfter(callers, c, p, b);
  }

  /** Binding is final: no step changes the bucket of a host that has one, be it its own or the shared one. */
  lemma StepKeepsBinding(s: State, e: Event, host: string)
    requires |s.hosts| <= MAX_HOST_BUCKETS
    requires forall c | c in s.callers && HasBucket(s.callers[c]) :: BoundBucket(s.hosts, s.callers[c].host) == Some(s.callers[c].bucket)
    ensures BoundBucket(s.hosts, host).Some? ==> BoundBucket(Next(s, e).hosts, host) == BoundBucket(s.hosts, host)
    ensures |Next(s, e).hosts| <= MAX_HOST_BUCKETS
  {
    var c := e.caller;
    if (e.TakeBucket? || e.Release?) && HasBucket(At(s, c)) {
      assert BoundBucket(s.hosts, s.callers[c].host) == Some(s.callers[c].bucket);
      assert Next(s, e).hosts.Keys == s.hosts.Keys;
      assert |Next(s, e).hosts| == |Next(s, e).hosts.Keys| && |s.hosts| == |s.hosts.Keys|;
    }
  }

  lemma StepKeepsInv(s: State, e: Event)
    requires Inv(s)
    ensures Inv(Next(s, e))
  {
    var c, t := e.caller, Next(s, e);
    if t != s {
      HoldersMove(s.callers, c, t.callers[c]);
      forall b
        ensures Tokens(t, b) == |Occupants(t.callers, b)| <= t.perHost
      {
        OccupantsMove(s.callers, c, t.callers[c], b);
      }
      forall d | d in t.callers && HasBucket(t.callers[d])
        ensures BoundBucket(t.hosts, t.callers[d].host) == Some(t.callers[d].bucket)
      {
        StepKeepsBinding(s, e, t.callers[d].host);
      }
      StepKeepsBinding(s, e, "");
    }
  }

  // ---- What holds over every run ----

  lemma {:induction false} RunsKeepInv(s: State, events: seq<Event>)
    requires Inv(s)
    ensures Inv(Run(s, events))
    decreases |events|
  {
    if events != [] {
      RunsKeepInv(s, events[..|events| - 1]);
      StepKeepsInv(Run(s, events[..|events| - 1]), events[|events| - 1]);
    }
  }

  lemma InitialInv(global: int, perHost: int)
    ensures Inv(Initial(global, perHost))
  {
    var s := Initial(global, perHost);
    assert Holders(s.callers) == {} && forall b :: Occupants(s.callers, b) == {};
  }

  ghost function InFlight(s: State, host: string): set<Caller> {
    set c | c in s.callers && s.callers[c].Admitted? && Lower(s.callers[c].host) == Lower(host)
  }

  ghost function AllInFlight(s: State): set<Caller> {
    set c | c in s.callers && s.callers[c].Admitted?
  }

  /** In every interleaving of arrivals, waits, expiries and repeated releases, the calls in flight
      stay within the global cap and those of any one host within the cap per host. */
  lemma CapsHold(global: int, perHost: int, events: seq<Event>, host: string)
    ensures var s := Run(Initial(global, perHost), events);
            |InFlight(s, host)| <= s.perHost && |AllInFlight(s)| <= s.globalCap
  {
    InitialInv(global, perHost);
    RunsKeepInv(Initial(global, perHost), events);
    var s := Run(Initial(global, perHost), events);
    CapsHoldIn(s, host);
  }

  lemma CapsHoldIn(s: State, host: string)
    requires Inv(s)
    ensures |InFlight(s, host)| <= s.perHost && |AllInFlight(s)| <= s.globalCap
  {
    Fewer(AllInFlight(s), Holders(s.callers));
    if InFlight(s, host) != {} {
      var d :| d in InFlight(s, host);
      var b := s.callers[d].bucket;
      forall c | c in InFlight(s, host)
        ensures c in Occupants(s.callers, b)
      {
        assert HasBucket(s.callers[c]) && HasBucket(s.callers[d]);
      }
      Fewer(InFlight(s, host), Occupants(s.callers, b));
    }
  }

  lemma {:induction false} Fewer(a: set<Caller>, b: set<Caller>)
    requires a <= b
    ensures |a| <= |b|
    decreases |a|
  {
    if a != {} {
      var c :| c in a;
      Fewer(a - {c}, b - {c});
    }
  }

  /** A host keeps the bucket it was first bound to, through any further run. */
  lemma {:induction false} BindingIsFinal(s: State, events: seq<Event>, host: string)
    requires Inv(s) && BoundBucket(s.hosts, host).Some?
    ensures BoundBucket(Run(s, events).hosts, host) == BoundBucket(s.hosts, host)
    decreases |events|
  {
    if events != [] {
      BindingIsFinal(s, events[..|events| - 1], host);
      RunsKeepInv(s, events[..|events| - 1]);
      StepKeepsBinding(Run(s, events[..|events| - 1]), events[|events| - 1], host);
    }
  }

  /** While there is room for buckets, a host shares its bucket with no other; hosts meet only in the shared
      bucket, and only once there is no room. */
  lemma HostsMeetOnlyWhenFull(global: int, perHost: int, events: seq<Event>, a: string, b: string)
    ensures var s := Run(Initial(global, perHost), events);
            && |s.hosts| <= MAX_HOST_BUCKETS
            && (BoundBucket(s.hosts, a).Some? && BoundBucket(s.hosts, a) == BoundBucket(s.hosts, b) && Lower(a) != Lower(b) ==>
                  |s.hosts| == MAX_HOST_BUCKETS && BoundBucket(s.hosts, a) == Some(Overflow)
                  && Lower(a) !in s.hosts && Lower(b) !in s.hosts)
  {
    InitialInv(global, perHost);
    RunsKeepInv(Initial(global, perHost), events);
  }

  /** Once a caller has chosen, every later caller to the same host, in whatever run, gets the same bucket. */
  lemma ChoiceIsFinal(s: State, c: Caller, events: seq<Event>, d: Caller)
    requires Inv(s) && At(s, c).Choosing?
    ensures var t := Run(Next(s, Choose(c)), events);
            At(t, d).Choosing? && Lower(At(t, d).host) == Lower(At(s, c).host) ==>
              At(Next(t, Choose(d)), d) == WaitingBucket(At(t, d).host, At(Next(s, Choose(c)), c).bucket)
  {
    StepKeepsInv(s, Choose(c));
    BindingIsFinal(Next(s, Choose(c)), events, At(s, c).host);
  }

  /** Giving slots back never waits: each receive finds a token. */
  lemma ReleaseNeverWaits(s: State, c: Caller)
    requires Inv(s)
    ensures HoldsGlobal(At(s, c)) ==> s.global > 0
    ensures At(s, c).Admitted? ==> Tokens(s, At(s, c).bucket) > 0
  {
    if HoldsGlobal(At(s, c)) {
      assert c in Holders(s.callers);
    }
    if At(s, c).Admitted? {
      assert c in Occupants(s.callers, At(s, c).bucket);
    }
  }

  /** The caller has released, at least its bucket slot. */
  predicate Released(s: State, c: Caller) {
    c in s.callers && (s.callers[c].Left? || s.callers[c].Returning?)
  }

  lemma ReleasedStays(s: State, c: Caller, e: Event)
    requires Released(s, c)
    ensures Released(Next(s, e), c)
  {
  }

  /** Releasing again, at any later time, changes nothing. */
  lemma {:induction false} ReleaseHappensOnce(s: State, c: Caller, events: seq<Event>)
    requires At(s, c).Admitted?
    ensures var t := Run(Next(s, Release(c)), events);
            Released(t, c) && Next(t, Release(c)) == t
    decreases |events|
  {
    if events != [] {
      var init := events[..|events| - 1];
      ReleaseHappensOnce(s, c, init);
      ReleasedStays(Run(Next(s, Release(c)), init), c, events[|events| - 1]);
    }
  }

  /** Whenever every caller has left, no token is taken. */
  lemma NothingLeaks(global: int, perHost: int, events: seq<Event>, b: Bucket)
    requires forall c | c in Run(Initial(global, perHost), events).callers :: Run(Initial(global, perHost), events).callers[c].Left?
    ensures var s := Run(Initial(global, perHost), events); s.global == 0 && Tokens(s, b) == 0
  {
    InitialInv(global, perHost);
    RunsKeepInv(Initial(global, perHost), events);
    var s := Run(Initial(global, perHost), events);
    assert Holders(s.callers) == {} && Occupants(s.callers, b) == {};
  }

  /** The fixed order of the two waits rules out deadlock: while anyone waits, some caller can move on
      without expiring. */
  lemma NeverStuck(s: State)
    requires Inv(s) && s.globalCap > 0 && s.perHost > 0
    requires exists c :: c in s.callers && !s.callers[c].Left?
    ensures exists e: Event :: Next(s, e) != s && !e.Expire? && !e.Arrive? && !At(s, e.caller).Left?
  {
    if c :| c in s.callers && s.callers[c].Admitted? {
      Witness(s, Release(c));
    } else if c :| c in s.callers && s.callers[c].Returning? {
      Witness(s, ReturnGlobal(c));
    } else if c :| c in s.callers && s.callers[c].Choosing? {
      Witness(s, Choose(c));
    } else if c :| c in s.callers && s.callers[c].WaitingBucket? {
      assert Occupants(s.callers, s.callers[c].bucket) == {};
      Witness(s, TakeBucket(c));
    } else {
      var c :| c in s.callers && !s.callers[c].Left?;
      assert Holders(s.callers) == {};
      Witness(s, TakeGlobal(c));
    }
  }

  lemma Witness(s: State, e: Event)
    requires e.caller in s.callers && Next(s, e).callers[e.caller] != s.callers[e.caller]
    ensures Next(s, e) != s
  {
  }
}
