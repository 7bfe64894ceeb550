/** The bounded cache of immutable definitions, first in first out.

    Source: internal/workflow/defcache/defcache.go. */
module DefCache {
  import opened Wrappers

  // ---- The cache as calls see it ----

  /** One call as it takes effect: its key, and whether its computation succeeds if it is needed. */
  datatype Call<K> = Call(key: K, succeeds: bool)

  /** Every key ever stored, in order, and the two counters. */
  datatype State<K> = State(max: nat, stored: seq<K>, hits: nat, misses: nat)

  /** The last `n` entries, or all when there are fewer. */
  function LastOf<K>(log: seq<K>, n: nat): seq<K> {
    if |log| <= n then log else log[|log| - n..]
  }

  /** The keys held: the latest insertions. */
  function Held<K>(s: State<K>): seq<K> {
    LastOf(s.stored, s.max)
  }

  function Called<K(==)>(s: State<K>, c: Call<K>): State<K> {
    if c.key in Held(s) then s.(hits := s.hits + 1)
    else if !c.succeeds then s.(misses := s.misses + 1)
    else s.(misses := s.misses + 1, stored := s.stored + [c.key])
  }

  function Run<K(==)>(s: State<K>, calls: seq<Call<K>>): State<K>
    decreases |calls|
  {
    if calls == [] then s else Called(Run(s, calls[..|calls| - 1]), calls[|calls| - 1])
  }

  function Initial<K>(maxEntries: int): State<K> {
    State(if maxEntries <= 0 then 1 else maxEntries, [], 0, 0)
  }

  ghost predicate Distinct<K>(order: seq<K>) {
    forall i, j | 0 <= i < j < |order| :: order[i] != order[j]
  }

  // ---- The cache as it is updated in place ----

  class Cache<K(==,!new), V> {
    const max: nat
    var items: map<K, V>
    var order: seq<K>
    var hits: nat
    var misses: nat
    ghost var stored: seq<K>

    ghost function Now(): State<K>
      reads this
    {
      State(max, stored, hits, misses)
    }

    /** The cache holds exactly the keys that calls see, each once, with their meaning. */
    ghost predicate Valid(meaning: K -> V)
      reads this
    {
      && max > 0
      && order == Held(Now())
      && Distinct(order) && (forall k :: k in order <==> k in items)
      && forall k | k in items :: items[k] == meaning(k)
    }

    constructor (maxEntries: int, ghost meaning: K -> V)
      ensures Valid(meaning) && Now() == Initial(maxEntries)
    {
      max := if maxEntries <= 0 then 1 else maxEntries;
      items, order, hits, misses, stored := map[], [], 0, 0, [];
    }

    /** The value of `key`. `others` are the calls that take effect between the look-up under the read
        lock and the second one under the write lock; `computed` is what the computation gives. */
    method GetOrCompute(key: K, computed: Option<V>, others: seq<(K, Option<V>)>, ghost meaning: K -> V) returns (r: Option<V>)
      requires Valid(meaning) && (computed.Some? ==> computed.value == meaning(key))
      requires forall o | o in others && o.1.Some? :: o.1.value == meaning(o.0)
      modifies this
      ensures Valid(meaning)
      ensures var s := if key in Held(old(Now())) then old(Now()) else Run(old(Now()), CallsOf(others));
              && Now() == Called(s, Call(key, computed.Some?))
              && r == if key in Held(s) || computed.Some? then Some(meaning(key)) else None
    {
      if key in items {
        hits := hits + 1;
        return Some(items[key]);
      }
      for i := 0 to |others|
        invariant Valid(meaning) && Now() == Run(old(Now()), CallsOf(others)[..i])
      {
        assert others[i] in others && CallsOf(others)[..i + 1][..i] == CallsOf(others)[..i];
        var _ := Complete(others[i].0, others[i].1, meaning);
      }
      assert CallsOf(others)[..|others|] == CallsOf(others);
      r := Complete(key, computed, meaning);
    }

    /** Drops the oldest entry. */
    method Evict()
      requires order != [] && Distinct(order) && forall k :: k in order <==> k in items
      modifies this`order, this`items
      ensures order == old(order)[1..] && items == old(items) - {old(order)[0]}
      ensures Distinct(order) && forall k :: k in order <==> k in items
    {
      var oldest := order[0];
      order := order[1..];
      items := items - {oldest};
      assert forall k :: k in old(order) <==> k == oldest || k in order;
    }

    /** What happens under the write lock: look again, compute, make room and store. */
    method Complete(key: K, computed: Option<V>, ghost meaning: K -> V) returns (r: Option<V>)
      requires Valid(meaning) && (computed.Some? ==> computed.value == meaning(key))
      modifies this
      ensures Valid(meaning) && Now() == Called(old(Now()), Call(key, computed.Some?))
      ensures r == if key in Held(old(Now())) || computed.Some? then Some(meaning(key)) else None
    {
      if key in items {
        hits := hits + 1;
        return Some(items[key]);
      }
      misses := misses + 1;
      if computed.None? {
        return None;
      }
      Store(key, computed.value, meaning);
      return computed;
    }

    method Store(key: K, value: V, ghost meaning: K -> V)
      requires Valid(meaning) && key !in items && value == meaning(key)
      modifies this`items, this`order, this`stored
      ensures Valid(meaning) && stored == old(stored) + [key]
    {
      OrderCounts(order, items);
      LastOfMore(stored, max, key);
      if |items| >= max {
        Evict();
      }
      StillDistinct(order, key);
      items := items[key := value];
      order := order + [key];
      stored := stored + [key];
    }
  }

  function CallsOf<K, V>(others: seq<(K, Option<V>)>): seq<Call<K>> {
    seq(|others|, i requires 0 <= i < |others| => Call(others[i].0, others[i].1.Some?))
  }

  lemma LastOfMore<K>(log: seq<K>, n: nat, key: K)
    requires n > 0
    ensures var last := LastOf(log, n);
            LastOf(log + [key], n) == (if |last| >= n then last[1..] else last) + [key]
  {
  }

  lemma StillDistinct<K(!new)>(order: seq<K>, key: K)
    requires Distinct(order) && key !in order
    ensures Distinct(order + [key]) && forall k :: k in order + [key] <==> k in order || k == key
  {
  }

  lemma {:induction false} OrderCounts<K(!new), V>(order: seq<K>, items: map<K, V>)
    requires Distinct(order) && forall k :: k in order <==> k in items
    ensures |order| == |items|
    decreases |order|
  {
    if order != [] {
      var rest := items - {order[0]};
      assert forall k | k in order[1..] :: k != order[0];
      assert forall k :: k in order <==> k == order[0] || k in order[1..];
      OrderCounts(order[1..], rest);
      assert items.Keys == rest.Keys + {order[0]};
      assert |items| == |items.Keys| && |rest| == |rest.Keys|;
    } else {
      assert items.Keys == {};
    }
  }

  // ---- Over any sequence of calls ----

  /** However many calls take effect, each is one hit or one miss, at most `max` keys are held, none twice,
      and they are the keys stored last; a key is stored at most as often as calls missed. */
  lemma {:induction false} RunsAreBounded<K>(maxEntries: int, calls: seq<Call<K>>)
    ensures var s := Run(Initial(maxEntries), calls);
            && s.max == Initial<K>(maxEntries).max && s.hits + s.misses == |calls|
            && |Held(s)| <= s.max && Distinct(Held(s)) && |s.stored| <= s.misses
    decreases |calls|
  {
    if calls != [] {
      RunsAreBounded(maxEntries, calls[..|calls| - 1]);
    }
  }

  /** After a call, its key is held unless its computation failed; nothing else comes in, and at most the
      oldest key goes, when there was no room. */
  lemma CalledHolds<K>(s: State<K>, c: Call<K>)
    requires s.max > 0
    ensures var t := Called(s, c);
            && (c.key in Held(t) <==> c.key in Held(s) || c.succeeds)
            && Held(t) == (if c.key in Held(s) || !c.succeeds then Held(s)
                           else (if |Held(s)| < s.max then Held(s) else Held(s)[1..]) + [c.key])
            && t.hits + t.misses == s.hits + s.misses + 1 && (t.hits > s.hits <==> c.key in Held(s))
  {
    LastOfMore(s.stored, s.max, c.key);
  }

  /** A key stays held through every run that stores fewer than `max` other keys, so calls for it hit. */
  lemma {:induction false} KeyStaysHeld<K>(s: State<K>, key: K, calls: seq<Call<K>>)
    requires s.max > 0 && s.stored != [] && s.stored[|s.stored| - 1] == key
    requires |Run(s, calls).stored| - |s.stored| < s.max
    ensures key in Held(Run(s, calls)) && s.stored <= Run(s, calls).stored && Run(s, calls).max == s.max
    decreases |calls|
  {
    if calls != [] {
      KeyStaysHeld(s, key, calls[..|calls| - 1]);
    }
    var t := Run(s, calls);
    var at := |s.stored| - 1;
    assert t.stored[at] == key;
    assert Held(t)[if |t.stored| <= t.max then at else at - (|t.stored| - t.max)] == key;
  }
}
