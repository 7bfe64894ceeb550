/** Path-level diffs of contexts: what a diff records, how it is computed, and that applying
    it gives back the later context, exactly when that is so.

    Source: pkg/contextdiff/diff.go. */
module ContextDiff {
  import opened Wrappers
  import opened Strings
  import opened ContextPath

  datatype Diff = Diff(set_: map<string, Json>, unset: seq<string>)

  /** What a diff says about one path. */
  datatype Change = Same | Put(v: Json) | Drop

  predicate PlainKey(key: string) {
    forall c | c in key :: c != '.' && c != '[' && c != ']'
  }

  function Field(v: Json, key: string): Option<Json>
    requires v.Obj?
  {
    if key in v.fields then Some(v.fields[key]) else None
  }

  predicate BothMaps(b: Option<Json>, a: Option<Json>) {
    b.Some? && a.Some? && b.value.Obj? && a.value.Obj?
  }

  /** The change a diff of `b` to `a` must record at `p`, read off the two values alone:
      maps are compared key by key, everything else is replaced as a whole. */
  function ChangeAt(b: Option<Json>, a: Option<Json>, p: seq<string>): Change
    decreases |p|
  {
    if BothMaps(b, a) then
      if p == [] then Same else ChangeAt(Field(b.value, p[0]), Field(a.value, p[0]), p[1..])
    else if p != [] || b == a then Same
    else if a.None? then Drop
    else Put(a.value)
  }

  /** Keys below the top level must be bare path keys wherever maps are compared. */
  predicate NestedKeysOk(b: Option<Json>, a: Option<Json>)
    decreases if a.Some? then 1 else 0, if a.Some? then a.value else Null
  {
    BothMaps(b, a) ==>
      forall k | k in b.value.fields.Keys + a.value.fields.Keys ::
        ValidKey(k) && NestedKeysOk(Field(b.value, k), Field(a.value, k))
  }

  /** When computing a diff succeeds. */
  predicate Diffable(b: Context, a: Context) {
    forall k | k in b.Keys + a.Keys :: PlainKey(k) && NestedKeysOk(Field(Obj(b), k), Field(Obj(a), k))
  }

  // ---- When computing a diff succeeds, read off the two contexts ----

  /** The object at a path of keys, if there is one. */
  function ObjectAt(v: Json, q: seq<string>): Option<Context> {
    match GetPath(v, Keys(q))
    case Some(Obj(fields)) => Some(fields)
    case _ => None
  }

  /** Wherever both values hold an object at the same path, every key of either is a bare path key. */
  ghost predicate BareBelow(b: Json, a: Json) {
    forall q: seq<string>, k | ObjectAt(b, q).Some? && ObjectAt(a, q).Some? ::
      k in ObjectAt(b, q).value || k in ObjectAt(a, q).value ==> ValidKey(k)
  }

  /** Both contexts have only keys without path syntax at the top, and only bare path keys wherever objects
      meet below it, changed or not. */
  ghost predicate KeysCanBeDiffed(b: Context, a: Context) {
    && (forall k | k in b || k in a :: PlainKey(k))
    && forall q: seq<string>, k | q != [] && ObjectAt(Obj(b), q).Some? && ObjectAt(Obj(a), q).Some? ::
         k in ObjectAt(Obj(b), q).value || k in ObjectAt(Obj(a), q).value ==> ValidKey(k)
  }

  lemma ObjectBelow(v: Json, q: seq<string>)
    requires q != []
    ensures ObjectAt(v, q) == if v.Obj? && q[0] in v.fields then ObjectAt(v.fields[q[0]], q[1..]) else None
  {
    assert Keys(q)[0] == Key(q[0]) && Keys(q)[1..] == Keys(q[1..]);
  }

  lemma {:induction false} BareBelowExactly(b: Json, a: Json)
    ensures NestedKeysOk(Some(b), Some(a)) <==> BareBelow(b, a)
    decreases a
  {
    if b.Obj? && a.Obj? {
      assert Keys([]) == [];
      assert ObjectAt(b, []) == Some(b.fields) && ObjectAt(a, []) == Some(a.fields);
      forall k | k in b.fields && k in a.fields
        ensures NestedKeysOk(Some(b.fields[k]), Some(a.fields[k])) <==> BareBelow(b.fields[k], a.fields[k])
      {
        BareBelowExactly(b.fields[k], a.fields[k]);
      }
      if BareBelow(b, a) {
        BareInside(b, a);
      }
      if NestedKeysOk(Some(b), Some(a)) {
        BareOutside(b, a);
      }
    } else {
      NoMeeting(b, a);
    }
  }

  lemma NoMeeting(b: Json, a: Json)
    requires !b.Obj? || !a.Obj?
    ensures BareBelow(b, a)
  {
    forall q: seq<string>
      ensures ObjectAt(b, q).None? || ObjectAt(a, q).None?
    {
      if q != [] {
        ObjectBelow(b, q);
        ObjectBelow(a, q);
      } else {
        assert Keys(q) == [];
      }
    }
  }

  lemma BareInside(b: Json, a: Json)
    requires b.Obj? && a.Obj? && BareBelow(b, a)
    ensures forall k | k in b.fields && k in a.fields :: BareBelow(b.fields[k], a.fields[k])
  {
    forall k, q: seq<string>, j | k in b.fields && k in a.fields
                                  && ObjectAt(b.fields[k], q).Some? && ObjectAt(a.fields[k], q).Some?
                                  && (j in ObjectAt(b.fields[k], q).value || j in ObjectAt(a.fields[k], q).value)
      ensures ValidKey(j)
    {
      ObjectBelow(b, [k] + q);
      ObjectBelow(a, [k] + q);
      assert ([k] + q)[1..] == q;
    }
  }

  lemma BareOutside(b: Json, a: Json)
    requires b.Obj? && a.Obj? && forall k | k in b.fields.Keys + a.fields.Keys :: ValidKey(k)
    requires forall k | k in b.fields && k in a.fields :: BareBelow(b.fields[k], a.fields[k])
    ensures BareBelow(b, a)
  {
    forall q: seq<string>, k | ObjectAt(b, q).Some? && ObjectAt(a, q).Some?
                               && (k in ObjectAt(b, q).value || k in ObjectAt(a, q).value)
      ensures ValidKey(k)
    {
      if q == [] {
        assert Keys(q) == [];
      } else {
        ObjectBelow(b, q);
        ObjectBelow(a, q);
      }
    }
  }

  /** Two contexts have a diff if and only if their keys allow it. */
  lemma DiffableExactly(b: Context, a: Context)
    ensures Diffable(b, a) <==> KeysCanBeDiffed(b, a)
  {
    forall k | k in b.Keys + a.Keys
      ensures NestedKeysOk(Field(Obj(b), k), Field(Obj(a), k)) <==> (k in b && k in a ==> BareBelow(b[k], a[k]))
    {
      if k in b && k in a {
        BareBelowExactly(b[k], a[k]);
      }
    }
    forall q: seq<string> | q != []
      ensures ObjectAt(Obj(b), q) == (if q[0] in b then ObjectAt(b[q[0]], q[1..]) else None)
      ensures ObjectAt(Obj(a), q) == (if q[0] in a then ObjectAt(a[q[0]], q[1..]) else None)
    {
      ObjectBelow(Obj(b), q);
      ObjectBelow(Obj(a), q);
    }
    if KeysCanBeDiffed(b, a) {
      forall k | k in b && k in a
        ensures BareBelow(b[k], a[k])
      {
        MeetingBelow(b, a, k);
      }
    }
  }

  lemma MeetingBelow(b: Context, a: Context, k: string)
    requires KeysCanBeDiffed(b, a) && k in b && k in a
    ensures BareBelow(b[k], a[k])
  {
    forall q: seq<string>, j | ObjectAt(b[k], q).Some? && ObjectAt(a[k], q).Some?
                               && (j in ObjectAt(b[k], q).value || j in ObjectAt(a[k], q).value)
      ensures ValidKey(j)
    {
      ObjectBelow(Obj(b), [k] + q);
      ObjectBelow(Obj(a), [k] + q);
      assert ([k] + q)[1..] == q;
    }
  }

  // ---- What a diff records ----

  /** Both values hold an object at every proper prefix of the path. */
  predicate MeetAbove(b: Json, a: Json, p: seq<string>) {
    forall i | 0 <= i < |p| :: ObjectAt(b, p[..i]).Some? && ObjectAt(a, p[..i]).Some?
  }

  lemma MeetBelow(b: Json, a: Json, p: seq<string>)
    requires p != []
    ensures MeetAbove(b, a, p) <==>
            b.Obj? && a.Obj? && (|p| == 1 || (p[0] in b.fields && p[0] in a.fields && MeetAbove(b.fields[p[0]], a.fields[p[0]], p[1..])))
  {
    assert p[..0] == [] && Keys([]) == [];
    assert ObjectAt(b, p[..0]).Some? <==> b.Obj?;
    assert ObjectAt(a, p[..0]).Some? <==> a.Obj?;
    forall i | 1 <= i < |p|
      ensures p[..i][1..] == p[1..][..i - 1] && p[..i][0] == p[0]
      ensures ObjectAt(b, p[..i]) == if b.Obj? && p[0] in b.fields then ObjectAt(b.fields[p[0]], p[1..][..i - 1]) else None
      ensures ObjectAt(a, p[..i]) == if a.Obj? && p[0] in a.fields then ObjectAt(a.fields[p[0]], p[1..][..i - 1]) else None
    {
      ObjectBelow(b, p[..i]);
      ObjectBelow(a, p[..i]);
    }
    if MeetAbove(b, a, p) && |p| > 1 {
      assert ObjectAt(b, p[..1]).Some? && ObjectAt(a, p[..1]).Some?;
      forall i | 0 <= i < |p[1..]|
        ensures ObjectAt(b.fields[p[0]], p[1..][..i]).Some? && ObjectAt(a.fields[p[0]], p[1..][..i]).Some?
      {
        assert ObjectAt(b, p[..i + 1]).Some? && ObjectAt(a, p[..i + 1]).Some?;
      }
    }
  }

  /** A diff records a path exactly when objects meet all the way to it, they do not meet at it, and the two
      contexts read differently there: the later value, or its absence. */
  lemma {:induction false} ChangeExactly(b: Json, a: Json, p: seq<string>)
    ensures ChangeAt(Some(b), Some(a), p) ==
            if !MeetAbove(b, a, p) || (ObjectAt(b, p).Some? && ObjectAt(a, p).Some?) || GetPath(b, Keys(p)) == GetPath(a, Keys(p)) then Same
            else if GetPath(a, Keys(p)).None? then Drop
            else Put(GetPath(a, Keys(p)).value)
    decreases |p|
  {
    if p == [] {
      assert Keys(p) == [];
    } else {
      MeetBelow(b, a, p);
      ObjectBelow(b, p);
      ObjectBelow(a, p);
      assert Keys(p)[0] == Key(p[0]) && Keys(p)[1..] == Keys(p[1..]);
      if b.Obj? && a.Obj? {
        if p[0] in b.fields && p[0] in a.fields {
          ChangeExactly(b.fields[p[0]], a.fields[p[0]], p[1..]);
        }
        if |p| == 1 {
          assert Keys(p[1..]) == [];
        }
      }
    }
  }

  /** The change at the path a string spells, below the path `parts`. */
  function Hit(parts: seq<string>, b: Option<Json>, a: Option<Json>, s: string): Change {
    if parts <= Split(s) then ChangeAt(b, a, Split(s)[|parts|..]) else Same
  }

  ghost predicate Represents(d: Diff, b: Context, a: Context) {
    && (forall s :: s in d.set_ <==> Hit([], Some(Obj(b)), Some(Obj(a)), s).Put?)
    && (forall s | s in d.set_ :: Hit([], Some(Obj(b)), Some(Obj(a)), s) == Put(d.set_[s]))
    && (forall s :: s in d.unset <==> Hit([], Some(Obj(b)), Some(Obj(a)), s).Drop?)
    && Distinct(d.unset)
  }

  // ---- Computing a diff ----

  function HitsOf(parts: seq<string>, b: Option<Json>, a: Option<Json>): string -> Change {
    s => Hit(parts, b, a, s)
  }

  /** The changes below `parts` whose next key is in `done`. */
  function HitsAmong(parts: seq<string>, b: Option<Json>, a: Option<Json>, done: set<string>): string -> Change {
    s => if |parts| < |Split(s)| && Split(s)[|parts|] in done then Hit(parts, b, a, s) else Same
  }

  lemma SplitIsInjective(s: string, t: string)
    requires Split(s) == Split(t)
    ensures s == t
  {
    JoinSplit(s);
    JoinSplit(t);
  }

  lemma HitChild(parts: seq<string>, b: Option<Json>, a: Option<Json>, k: string, s: string)
    requires BothMaps(b, a)
    ensures parts + [k] <= Split(s) <==> parts <= Split(s) && |parts| < |Split(s)| && Split(s)[|parts|] == k
    ensures parts + [k] <= Split(s) ==> Hit(parts, b, a, s) == Hit(parts + [k], Field(b.value, k), Field(a.value, k), s)
  {
    var q := Split(s);
    if parts <= q && |parts| < |q| && q[|parts|] == k {
      assert parts + [k] == q[..|parts| + 1];
      assert q[|parts|..][1..] == q[|parts + [k]|..];
    }
  }

  /** Two builds one after the other record both sets of changes when the second adds only new paths. */
  ghost predicate Recorded(sets: map<string, Json>, unset: seq<string>,
                           sets0: map<string, Json>, unset0: seq<string>, hits: string -> Change) {
    && (forall s :: s in sets <==> s in sets0 || hits(s).Put?)
    && (forall s | s in sets0 && !hits(s).Put? :: sets[s] == sets0[s])
    && (forall s | hits(s).Put? :: sets[s] == hits(s).v)
    && (forall s :: s in unset <==> s in unset0 || hits(s).Drop?)
    && Distinct(unset)
  }

  /** Nothing recorded yet lies at or below `parts`. */
  ghost predicate Untouched(sets: map<string, Json>, unset: seq<string>, parts: seq<string>) {
    && (forall s | s in sets :: !(parts <= Split(s)))
    && (forall s | s in unset :: !(parts <= Split(s)))
  }

  lemma Compose(sets0: map<string, Json>, unset0: seq<string>, sets1: map<string, Json>, unset1: seq<string>,
                sets2: map<string, Json>, unset2: seq<string>, h1: string -> Change, h2: string -> Change, h: string -> Change)
    requires Recorded(sets1, unset1, sets0, unset0, h1) && Recorded(sets2, unset2, sets1, unset1, h2)
    requires forall s :: h(s) == if h2(s) == Same then h1(s) else h2(s)
    requires forall s :: h2(s) == Same || h1(s) == Same
    ensures Recorded(sets2, unset2, sets0, unset0, h)
  {
  }

  lemma NextChild(parts: seq<string>, b: Option<Json>, a: Option<Json>, done: set<string>, k: string,
                  sets0: map<string, Json>, unset0: seq<string>, sets1: map<string, Json>, unset1: seq<string>,
                  sets2: map<string, Json>, unset2: seq<string>)
    requires BothMaps(b, a) && k !in done
    requires Recorded(sets1, unset1, sets0, unset0, HitsAmong(parts, b, a, done))
    requires Recorded(sets2, unset2, sets1, unset1, HitsOf(parts + [k], Field(b.value, k), Field(a.value, k)))
    ensures Recorded(sets2, unset2, sets0, unset0, HitsAmong(parts, b, a, done + {k}))
  {
    var h1, h2 := HitsAmong(parts, b, a, done), HitsOf(parts + [k], Field(b.value, k), Field(a.value, k));
    var h := HitsAmong(parts, b, a, done + {k});
    ChildHits(parts, b, a, done, k);
    Compose(sets0, unset0, sets1, unset1, sets2, unset2, h1, h2, h);
  }

  lemma ChildHits(parts: seq<string>, b: Option<Json>, a: Option<Json>, done: set<string>, k: string)
    requires BothMaps(b, a) && k !in done
    ensures var h1, h2 := HitsAmong(parts, b, a, done), HitsOf(parts + [k], Field(b.value, k), Field(a.value, k));
            var h := HitsAmong(parts, b, a, done + {k});
            forall s :: h(s) == (if h2(s) == Same then h1(s) else h2(s)) && (h2(s) == Same || h1(s) == Same)
  {
    forall s
      ensures var h1, h2 := HitsAmong(parts, b, a, done), HitsOf(parts + [k], Field(b.value, k), Field(a.value, k));
              var h := HitsAmong(parts, b, a, done + {k});
              h(s) == (if h2(s) == Same then h1(s) else h2(s)) && (h2(s) == Same || h1(s) == Same)
    {
      HitChild(parts, b, a, k, s);
    }
  }

  lemma UntouchedChild(parts: seq<string>, b: Option<Json>, a: Option<Json>, done: set<string>, k: string,
                       sets0: map<string, Json>, unset0: seq<string>, sets1: map<string, Json>, unset1: seq<string>)
    requires BothMaps(b, a) && k !in done && Untouched(sets0, unset0, parts)
    requires Recorded(sets1, unset1, sets0, unset0, HitsAmong(parts, b, a, done))
    ensures Untouched(sets1, unset1, parts + [k])
  {
    forall s | parts + [k] <= Split(s)
      ensures s !in sets1 && s !in unset1
    {
      HitChild(parts, b, a, k, s);
      assert HitsAmong(parts, b, a, done)(s) == Same;
    }
  }

  predicate ChildOk(b: Context, a: Context, k: string) {
    ValidKey(k) && NestedKeysOk(Field(Obj(b), k), Field(Obj(a), k))
  }

  lemma KeysOkByKey(b: Context, a: Context, k: string)
    requires k in b.Keys + a.Keys && !ChildOk(b, a, k)
    ensures !NestedKeysOk(Some(Obj(b)), Some(Obj(a)))
  {
  }

  lemma KeysOkByKeys(b: Context, a: Context)
    requires forall k | k in b.Keys + a.Keys :: ChildOk(b, a, k)
    ensures NestedKeysOk(Some(Obj(b)), Some(Obj(a)))
  {
  }

  lemma NoChildren(parts: seq<string>, b: Option<Json>, a: Option<Json>, sets: map<string, Json>, unset: seq<string>)
    requires Distinct(unset)
    ensures Recorded(sets, unset, sets, unset, HitsAmong(parts, b, a, {}))
  {
  }

  lemma AllChildren(parts: seq<string>, b: Option<Json>, a: Option<Json>, done: set<string>,
                    sets0: map<string, Json>, unset0: seq<string>, sets: map<string, Json>, unset: seq<string>)
    requires BothMaps(b, a) && done == b.value.fields.Keys + a.value.fields.Keys
    requires Recorded(sets, unset, sets0, unset0, HitsAmong(parts, b, a, done))
    ensures Recorded(sets, unset, sets0, unset0, HitsOf(parts, b, a))
  {
    forall s
      ensures HitsAmong(parts, b, a, done)(s) == HitsOf(parts, b, a)(s)
    {
      if parts <= Split(s) && |parts| < |Split(s)| && Split(s)[|parts|] !in done {
        HitChild(parts, b, a, Split(s)[|parts|], s);
      }
    }
  }

  /** A value that is not compared key by key changes at its own path only. */
  lemma WholeValue(path: string, b: Option<Json>, a: Option<Json>)
    requires !BothMaps(b, a)
    ensures forall s :: Hit(Split(path), b, a, s) == if s == path then ChangeAt(b, a, []) else Same
  {
    forall s
      ensures Hit(Split(path), b, a, s) == if s == path then ChangeAt(b, a, []) else Same
    {
      if Split(path) <= Split(s) && Split(s)[|Split(path)|..] == [] {
        assert Split(path) == Split(s);
        SplitIsInjective(s, path);
      }
    }
  }

  /** The diff under construction. */
  class Builder {
    var sets: map<string, Json>
    var unset: seq<string>

    constructor ()
      ensures sets == map[] && unset == []
    {
      sets, unset := map[], [];
    }

    /** Records the changes from `b` to `a` below `path`; fails exactly on a key that is no bare path key. */
    method DiffValue(path: string, b: Option<Json>, a: Option<Json>) returns (ok: bool)
      requires b.Some? || a.Some?
      requires Untouched(sets, unset, Split(path)) && Distinct(unset)
      modifies this
      ensures ok <==> NestedKeysOk(b, a)
      ensures ok <==> (b.Some? && a.Some? ==> BareBelow(b.value, a.value))
      ensures ok ==> Recorded(sets, unset, old(sets), old(unset), HitsOf(Split(path), b, a))
      decreases if a.Some? then 1 else 0, if a.Some? then a.value else Null, 2
    {
      WholeValueOf(path, b, a);
      if b.Some? && a.Some? {
        BareBelowExactly(b.value, a.value);
      }
      if a.None? {
        unset := unset + [path];
        return true;
      }
      if b.Some? && b.value.Obj? && a.value.Obj? {
        ok := DiffMap(path, b.value.fields, a.value.fields);
        return;
      }
      if b == a {
        return true;
      }
      sets := sets[path := a.value];
      return true;
    }

    /** Records the changes under key `k`, after those of the keys in `done`. */
    method DiffChild(path: string, k: string, b: Context, a: Context,
                     ghost done: set<string>, ghost sets0: map<string, Json>, ghost unset0: seq<string>) returns (ok: bool)
      requires k in b.Keys + a.Keys && k !in done && Untouched(sets0, unset0, Split(path))
      requires Recorded(sets, unset, sets0, unset0, HitsAmong(Split(path), Some(Obj(b)), Some(Obj(a)), done))
      modifies this
      ensures ok <==> ChildOk(b, a, k)
      ensures ok ==> Recorded(sets, unset, sets0, unset0, HitsAmong(Split(path), Some(Obj(b)), Some(Obj(a)), done + {k}))
      decreases 1, Obj(a), 0
    {
      if !ValidKey(k) {
        return false;
      }
      TokenOfKey(k);
      SplitAppend(path, k);
      ghost var parts, bo, ao, sets1, unset1 := Split(path), Some(Obj(b)), Some(Obj(a)), sets, unset;
      UntouchedChild(parts, bo, ao, done, k, sets0, unset0, sets1, unset1);
      ok := DiffValue(path + "." + k, Field(Obj(b), k), Field(Obj(a), k));
      if ok {
        NextChild(parts, bo, ao, done, k, sets0, unset0, sets1, unset1, sets, unset);
      }
    }

    method DiffMap(path: string, b: Context, a: Context) returns (ok: bool)
      requires Untouched(sets, unset, Split(path)) && Distinct(unset)
      modifies this
      ensures ok <==> NestedKeysOk(Some(Obj(b)), Some(Obj(a)))
      ensures ok ==> Recorded(sets, unset, old(sets), old(unset), HitsOf(Split(path), Some(Obj(b)), Some(Obj(a))))
      decreases 1, Obj(a), 1
    {
      ghost var parts, bo, ao := Split(path), Some(Obj(b)), Some(Obj(a));
      ghost var sets0, unset0, done: set<string> := sets, unset, {};
      var keys := SortedKeys(b.Keys + a.Keys);
      NoChildren(parts, bo, ao, sets, unset);
      for i := 0 to |keys|
        invariant forall k :: k in done <==> k in keys[..i]
        invariant forall k | k in done :: ChildOk(b, a, k)
        invariant Recorded(sets, unset, sets0, unset0, HitsAmong(parts, bo, ao, done))
      {
        var k := keys[i];
        PrefixStep(keys, i);
        var fine := DiffChild(path, k, b, a, done, sets0, unset0);
        if !fine {
          KeysOkByKey(b, a, k);
          return false;
        }
        done := done + {k};
      }
      assert keys[..|keys|] == keys;
      AllKeysDone(path, b, a, done, sets0, unset0, sets, unset);
      ok := true;
    }
  }

  lemma AllKeysDone(path: string, b: Context, a: Context, done: set<string>,
                    sets0: map<string, Json>, unset0: seq<string>, sets: map<string, Json>, unset: seq<string>)
    requires (forall k :: k in done <==> k in b.Keys + a.Keys) && forall k | k in done :: ChildOk(b, a, k)
    requires Recorded(sets, unset, sets0, unset0, HitsAmong(Split(path), Some(Obj(b)), Some(Obj(a)), done))
    ensures NestedKeysOk(Some(Obj(b)), Some(Obj(a)))
    ensures Recorded(sets, unset, sets0, unset0, HitsOf(Split(path), Some(Obj(b)), Some(Obj(a))))
  {
    assert done == b.Keys + a.Keys;
    KeysOkByKeys(b, a);
    AllChildren(Split(path), Some(Obj(b)), Some(Obj(a)), done, sets0, unset0, sets, unset);
  }

  lemma WholeValueOf(path: string, b: Option<Json>, a: Option<Json>)
    ensures !BothMaps(b, a) ==> forall s :: HitsOf(Split(path), b, a)(s) == if s == path then ChangeAt(b, a, []) else Same
  {
    if !BothMaps(b, a) {
      WholeValue(path, b, a);
    }
  }

  predicate TopChildOk(b: Context, a: Context, k: string) {
    PlainKey(k) && NestedKeysOk(Field(Obj(b), k), Field(Obj(a), k))
  }

  /** One top-level key of a diff. */
  method DiffTopKey(builder: Builder, k: string, b: Context, a: Context, ghost done: set<string>) returns (ok: bool)
    requires k in b.Keys + a.Keys && k !in done
    requires Recorded(builder.sets, builder.unset, map[], [], HitsAmong([], Some(Obj(b)), Some(Obj(a)), done))
    modifies builder
    ensures ok <==> TopChildOk(b, a, k)
    ensures ok ==> Recorded(builder.sets, builder.unset, map[], [], HitsAmong([], Some(Obj(b)), Some(Obj(a)), done + {k}))
  {
    if !PlainKey(k) {
      return false;
    }
    SinglePart(k);
    ghost var bo, ao, sets1, unset1 := Some(Obj(b)), Some(Obj(a)), builder.sets, builder.unset;
    assert [] + [k] == Split(k);
    UntouchedChild([], bo, ao, done, k, map[], [], sets1, unset1);
    ok := builder.DiffValue(k, Field(Obj(b), k), Field(Obj(a), k));
    if ok {
      NextChild([], bo, ao, done, k, map[], [], sets1, unset1, builder.sets, builder.unset);
    }
  }

  /** Computes a diff. It succeeds exactly when no key is ambiguous, and then records exactly the changes. */
  method DiffMaps(b: Context, a: Context) returns (r: Option<Diff>)
    ensures r.Some? <==> KeysCanBeDiffed(b, a)
    ensures r.Some? <==> Diffable(b, a)
    ensures r.Some? ==> Represents(r.value, b, a) && Ascending(r.value.unset)
  {
    DiffableExactly(b, a);
    var builder := new Builder();
    var ok := DiffTopKeys(builder, b, a);
    if !ok {
      return None;
    }
    var unset := SortStrings(builder.unset);
    return Some(Diff(builder.sets, unset));
  }

  /** The changes under every top-level key, in ascending order of keys. */
  method DiffTopKeys(builder: Builder, b: Context, a: Context) returns (ok: bool)
    requires builder.sets == map[] && builder.unset == []
    modifies builder
    ensures ok <==> Diffable(b, a)
    ensures ok ==> Recorded(builder.sets, builder.unset, map[], [], HitsOf([], Some(Obj(b)), Some(Obj(a))))
  {
    var keys := SortedKeys(b.Keys + a.Keys);
    ghost var done: set<string> := {};
    NoChildren([], Some(Obj(b)), Some(Obj(a)), map[], []);
    for i := 0 to |keys|
      invariant forall k :: k in done <==> k in keys[..i]
      invariant forall k | k in done :: TopChildOk(b, a, k)
      invariant Recorded(builder.sets, builder.unset, map[], [], HitsAmong([], Some(Obj(b)), Some(Obj(a)), done))
    {
      PrefixStep(keys, i);
      var fine := DiffTopKey(builder, keys[i], b, a, done);
      if !fine {
        return false;
      }
      done := done + {keys[i]};
    }
    assert keys[..|keys|] == keys;
    AllChildren([], Some(Obj(b)), Some(Obj(a)), done, map[], [], builder.sets, builder.unset);
    ok := true;
  }

  // ---- Applying a diff ----

  /** `v` without the key at the end of `p`; every step must exist and the last must be a key. */
  function DeleteParsed(v: Json, p: Path): Option<Json>
    requires p != []
    decreases |p|
  {
    match v
    case Obj(fields) =>
      if p[0].Index? || p[0].key !in fields then None
      else if |p| == 1 then Some(Obj(fields - {p[0].key}))
      else
        (match DeleteParsed(fields[p[0].key], p[1..])
         case None => None
         case Some(w) => Some(Obj(fields[p[0].key := w])))
    case Arr(items) =>
      if p[0].Key? || p[0].i >= |items| || |p| == 1 then None
      else
        (match DeleteParsed(items[p[0].i], p[1..])
         case None => None
         case Some(w) => Some(Arr(items[p[0].i := w])))
    case _ => None
  }

  /** Deleting succeeds if and only if the path reads something and ends in a key; the path and what lies
      below it then read nothing, and every unrelated path reads as before. */
  lemma {:induction false} DeleteExactly(v: Json, p: Path, q: Path)
    requires p != []
    ensures DeleteParsed(v, p).Some? <==> GetPath(v, p).Some? && p[|p| - 1].Key?
    ensures DeleteParsed(v, p).Some? && p <= q ==> GetPath(DeleteParsed(v, p).value, q) == None
    ensures DeleteParsed(v, p).Some? && Unrelated(p, q) ==> GetPath(DeleteParsed(v, p).value, q) == GetPath(v, q)
    decreases |p|
  {
    assert p == [p[0]] + p[1..];
    if q != [] {
      assert q == [q[0]] + q[1..];
    }
    if |p| > 1 && Step(v, p[0]).Some? {
      if q != [] && q[0] == p[0] {
        assert p <= q <==> p[1..] <= q[1..];
        assert q <= p <==> q[1..] <= p[1..];
        DeleteExactly(Step(v, p[0]).value, p[1..], q[1..]);
      } else {
        DeleteExactly(Step(v, p[0]).value, p[1..], []);
      }
    }
  }

  function FieldsOf(v: Option<Json>): Option<Context> {
    if v.Some? && v.value.Obj? then Some(v.value.fields) else None
  }

  function DeletePath(ctx: Context, path: string): Option<Context> {
    if PlainKey(path) then
      if path in ctx then Some(ctx - {path}) else None
    else
      match Parsed(path)
      case Err => None
      case Ok(p) => if p == [] then None else FieldsOf(DeleteParsed(Obj(ctx), p))
  }

  function PutPath(ctx: Context, path: string, v: Json): Option<Context> {
    if PlainKey(path) then Some(ctx[path := v])
    else
      match Parsed(path)
      case Err => None
      case Ok(p) => if p == [] || p[0].Index? then None else FieldsOf(SetPath(Obj(ctx), p, v))
  }

  function Deletes(ctx: Option<Context>, paths: seq<string>): Option<Context>
    decreases |paths|
  {
    if paths == [] || ctx.None? then ctx
    else
      var prior := Deletes(ctx, paths[..|paths| - 1]);
      if prior.None? then None else DeletePath(prior.value, paths[|paths| - 1])
  }

  function Puts(ctx: Option<Context>, paths: seq<string>, values: map<string, Json>): Option<Context>
    requires forall s | s in paths :: s in values
    decreases |paths|
  {
    if paths == [] || ctx.None? then ctx
    else
      var prior := Puts(ctx, paths[..|paths| - 1], values);
      if prior.None? then None else PutPath(prior.value, paths[|paths| - 1], values[paths[|paths| - 1]])
  }

  /** The unset paths in turn, then the set paths in the given order; None as soon as one fails. */
  function ApplyInOrder(base: Context, d: Diff, order: seq<string>): Option<Context>
    requires forall s | s in order :: s in d.set_
  {
    Puts(Deletes(Some(base), d.unset), order, d.set_)
  }

  // ---- What applying any diff does ----

  /** The path that a string of a diff stands for: a key of the context itself, or a parsed path. */
  function PathOf(s: string): Path {
    if PlainKey(s) then [Key(s)] else match Parsed(s) case Ok(p) => p case Err => []
  }

  lemma PutIsSet(ctx: Context, s: string, v: Json)
    requires PutPath(ctx, s, v).Some?
    ensures PathOf(s) != [] && SetPath(Obj(ctx), PathOf(s), v) == Some(Obj(PutPath(ctx, s, v).value))
  {
  }

  lemma DeleteIsParsed(ctx: Context, s: string)
    requires DeletePath(ctx, s).Some?
    ensures PathOf(s) != [] && DeleteParsed(Obj(ctx), PathOf(s)) == Some(Obj(DeletePath(ctx, s).value))
  {
  }

  /** A value that is set is what its path reads in the end, unless a later set path is related to it. */
  lemma {:induction false} SetsPrevail(ctx: Option<Context>, paths: seq<string>, values: map<string, Json>, i: nat)
    requires (forall s | s in paths :: s in values) && Puts(ctx, paths, values).Some? && i < |paths|
    requires forall j | i < j < |paths| :: Unrelated(PathOf(paths[j]), PathOf(paths[i]))
    ensures GetPath(Obj(Puts(ctx, paths, values).value), PathOf(paths[i])) == Some(values[paths[i]])
    decreases |paths|
  {
    var n := |paths| - 1;
    var prior := Puts(ctx, paths[..n], values).value;
    PutIsSet(prior, paths[n], values[paths[n]]);
    if i == n {
      SetThenGet(Obj(prior), PathOf(paths[n]), values[paths[n]]);
    } else {
      SetsPrevail(ctx, paths[..n], values, i);
      SetFrames(Obj(prior), PathOf(paths[n]), PathOf(paths[i]), values[paths[n]]);
    }
  }

  lemma {:induction false} PutsKeepOthers(ctx: Option<Context>, paths: seq<string>, values: map<string, Json>, q: Path)
    requires (forall s | s in paths :: s in values) && Puts(ctx, paths, values).Some?
    requires forall s | s in paths :: Unrelated(PathOf(s), q)
    ensures GetPath(Obj(ctx.value), q).Some? ==> GetPath(Obj(Puts(ctx, paths, values).value), q) == GetPath(Obj(ctx.value), q)
    decreases |paths|
  {
    if paths != [] {
      var n := |paths| - 1;
      var prior := Puts(ctx, paths[..n], values).value;
      PutsKeepOthers(ctx, paths[..n], values, q);
      PutIsSet(prior, paths[n], values[paths[n]]);
      assert paths[n] in paths;
      if GetPath(Obj(prior), q).Some? {
        SetFrames(Obj(prior), PathOf(paths[n]), q, values[paths[n]]);
      }
    }
  }

  lemma {:induction false} DeletesKeepOthers(ctx: Option<Context>, paths: seq<string>, q: Path)
    requires Deletes(ctx, paths).Some? && forall s | s in paths :: Unrelated(PathOf(s), q)
    ensures GetPath(Obj(Deletes(ctx, paths).value), q) == GetPath(Obj(ctx.value), q)
    decreases |paths|
  {
    if paths != [] {
      var n := |paths| - 1;
      DeletesKeepOthers(ctx, paths[..n], q);
      DeleteIsParsed(Deletes(ctx, paths[..n]).value, paths[n]);
      assert paths[n] in paths;
      DeleteExactly(Obj(Deletes(ctx, paths[..n]).value), PathOf(paths[n]), q);
    }
  }

  /** Whatever diff is applied: set values prevail over all deletions and over related values set before them,
      and paths unrelated to every path of the diff read as before. */
  lemma ApplyDoes(base: Context, d: Diff, order: seq<string>, i: nat, q: Path)
    requires (forall s | s in order :: s in d.set_) && ApplyInOrder(base, d, order).Some?
    ensures i < |order| && (forall j | i < j < |order| :: Unrelated(PathOf(order[j]), PathOf(order[i]))) ==>
              GetPath(Obj(ApplyInOrder(base, d, order).value), PathOf(order[i])) == Some(d.set_[order[i]])
    ensures (forall s | s in order || s in d.unset :: Unrelated(PathOf(s), q)) && GetPath(Obj(base), q).Some? ==>
              GetPath(Obj(ApplyInOrder(base, d, order).value), q) == GetPath(Obj(base), q)
  {
    var cleared := Deletes(Some(base), d.unset);
    assert cleared.Some?;
    if i < |order| && forall j | i < j < |order| :: Unrelated(PathOf(order[j]), PathOf(order[i])) {
      SetsPrevail(cleared, order, d.set_, i);
    }
    if (forall s | s in order || s in d.unset :: Unrelated(PathOf(s), q)) && GetPath(Obj(base), q).Some? {
      DeletesKeepOthers(Some(base), d.unset, q);
      PutsKeepOthers(cleared, order, d.set_, q);
    }
  }

  lemma {:induction false} DeletesFail(ctx: Option<Context>, paths: seq<string>, i: nat)
    requires i <= |paths| && Deletes(ctx, paths[..i]) == None
    ensures Deletes(ctx, paths) == None
    decreases |paths|
  {
    if i == |paths| {
      assert paths[..i] == paths;
    } else {
      assert paths[..|paths| - 1][..i] == paths[..i];
      DeletesFail(ctx, paths[..|paths| - 1], i);
    }
  }

  lemma {:induction false} PutsFail(ctx: Option<Context>, paths: seq<string>, values: map<string, Json>, i: nat)
    requires forall s | s in paths :: s in values
    requires i <= |paths| && Puts(ctx, paths[..i], values) == None
    ensures Puts(ctx, paths, values) == None
    decreases |paths|
  {
    if i == |paths| {
      assert paths[..i] == paths;
    } else {
      assert paths[..|paths| - 1][..i] == paths[..i];
      PutsFail(ctx, paths[..|paths| - 1], values, i);
    }
  }

  ghost function ApplyDiff(base: Context, d: Diff): Option<Context> {
    ApplyInOrder(base, d, Order(d.set_.Keys))
  }

  /** Applies a diff to a copy of `base`: unset paths first, then set paths in ascending order. */
  method Apply(base: Context, d: Diff) returns (r: Option<Context>)
    ensures r == ApplyDiff(base, d)
  {
    var paths := SortedKeys(d.set_.Keys);
    AscendingIsUnique(paths, Order(d.set_.Keys));
    var cleared := ApplyUnsets(base, d.unset);
    if cleared.None? {
      PutsFail(cleared, paths, d.set_, 0);
      return None;
    }
    r := ApplySets(cleared.value, paths, d.set_);
  }

  method ApplyUnsets(base: Context, unset: seq<string>) returns (r: Option<Context>)
    ensures r == Deletes(Some(base), unset)
  {
    var out := base;
    for i := 0 to |unset|
      invariant Deletes(Some(base), unset[..i]) == Some(out)
    {
      assert unset[..i + 1][..i] == unset[..i];
      var next := DeletePath(out, unset[i]);
      if next.None? {
        DeletesFail(Some(base), unset, i + 1);
        return None;
      }
      out := next.value;
    }
    assert unset[..|unset|] == unset;
    return Some(out);
  }

  method ApplySets(base: Context, paths: seq<string>, values: map<string, Json>) returns (r: Option<Context>)
    requires forall path | path in paths :: path in values
    ensures r == Puts(Some(base), paths, values)
  {
    var out := base;
    for i := 0 to |paths|
      invariant Puts(Some(base), paths[..i], values) == Some(out)
    {
      assert paths[..i + 1][..i] == paths[..i];
      var next := PutPath(out, paths[i], values[paths[i]]);
      if next.None? {
        PutsFail(Some(base), paths, values, i + 1);
        return None;
      }
      out := next.value;
    }
    assert paths[..|paths|] == paths;
    return Some(out);
  }
}
