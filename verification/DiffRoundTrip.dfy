/** Applying a diff to the earlier context gives the later one, whatever order paths are taken in,
    except for one family of keys, which is described exactly.

    Source: pkg/contextdiff/diff.go:25-147, against pkg/contextpath/contextpath.go:38-62. */
module DiffRoundTrip {
  import opened Wrappers
  import opened Strings
  import opened ContextPath
  import opened ContextDiff

  // ---- The context half way: some changes applied, the others not ----

  /** The changes below key `k`. */
  ghost function Tails(done: set<seq<string>>, k: string): set<seq<string>> {
    set p | p in done && p != [] && p[0] == k :: p[1..]
  }

  ghost function MixAt(b: Json, a: Json, done: set<seq<string>>, k: string): Option<Json>
    requires b.Obj? && a.Obj?
    decreases a, 0
  {
    if k in b.fields && k in a.fields && b.fields[k].Obj? && a.fields[k].Obj?
      then Some(Mix(b.fields[k], a.fields[k], Tails(done, k)))
    else if [k] in done then Field(a, k)
    else Field(b, k)
  }

  /** `b` with the changes in `done` already taken from `a`. */
  ghost function Mix(b: Json, a: Json, done: set<seq<string>>): Json
    requires b.Obj? && a.Obj?
    ensures Mix(b, a, done).Obj?
    decreases a, 1
  {
    Obj(map k | k in b.fields.Keys + a.fields.Keys && MixAt(b, a, done, k).Some? :: MixAt(b, a, done, k).value)
  }

  ghost predicate Changes(b: Json, a: Json, p: seq<string>) {
    ChangeAt(Some(b), Some(a), p) != Same
  }

  lemma FieldOfMix(b: Json, a: Json, done: set<seq<string>>, k: string)
    requires b.Obj? && a.Obj?
    ensures Field(Mix(b, a, done), k) == MixAt(b, a, done, k)
  {
  }

  lemma SameFields(v: Json, w: Json)
    requires v.Obj? && w.Obj? && forall k :: Field(v, k) == Field(w, k)
    ensures v == w
  {
    forall k
      ensures k in v.fields <==> k in w.fields
      ensures k in v.fields ==> v.fields[k] == w.fields[k]
    {
      assert Field(v, k) == Field(w, k);
    }
    assert v.fields == w.fields;
  }

  lemma {:induction false} MixOfNothing(b: Json, a: Json)
    requires b.Obj? && a.Obj?
    ensures Mix(b, a, {}) == b
    decreases a
  {
    forall k
      ensures Field(Mix(b, a, {}), k) == Field(b, k)
    {
      FieldOfMix(b, a, {}, k);
      if k in b.fields && k in a.fields && b.fields[k].Obj? && a.fields[k].Obj? {
        assert Tails({}, k) == {};
        MixOfNothing(b.fields[k], a.fields[k]);
      }
    }
    SameFields(Mix(b, a, {}), b);
  }

  lemma {:induction false} MixOfAll(b: Json, a: Json, done: set<seq<string>>)
    requires b.Obj? && a.Obj?
    requires forall p | Changes(b, a, p) :: p in done
    ensures Mix(b, a, done) == a
    decreases a
  {
    forall k
      ensures Field(Mix(b, a, done), k) == Field(a, k)
    {
      FieldOfMix(b, a, done, k);
      if k in b.fields && k in a.fields && b.fields[k].Obj? && a.fields[k].Obj? {
        forall p | Changes(b.fields[k], a.fields[k], p)
          ensures p in Tails(done, k)
        {
          assert ([k] + p)[1..] == p && ([k] + p)[0] == k;
          assert Changes(b, a, [k] + p);
        }
        MixOfAll(b.fields[k], a.fields[k], Tails(done, k));
      } else if [k] !in done {
        assert [k][1..] == [] && [k][0] == k;
        assert !Changes(b, a, [k]);
        assert ChangeAt(Some(b), Some(a), [k]) == ChangeAt(Field(b, k), Field(a, k), []);
        assert !BothMaps(Field(b, k), Field(a, k));
      }
    }
    SameFields(Mix(b, a, done), a);
  }

  lemma TailsStep(done: set<seq<string>>, p: seq<string>, k: string)
    requires p != []
    ensures Tails(done + {p}, k) == if p[0] == k then Tails(done, k) + {p[1..]} else Tails(done, k)
  {
    if p[0] == k {
      assert p in done + {p};
    }
    forall q
      ensures q in Tails(done + {p}, k) <==> q in (if p[0] == k then Tails(done, k) + {p[1..]} else Tails(done, k))
    {
      if q in Tails(done, k) {
        var r :| r in done && r != [] && r[0] == k && r[1..] == q;
        assert r in done + {p};
      }
    }
  }

  lemma TailsMember(done: set<seq<string>>, p: seq<string>)
    requires p != [] && p[1..] in Tails(done, p[0])
    ensures p in done
  {
    var r :| r in done && r != [] && r[0] == p[0] && r[1..] == p[1..];
    assert r == [r[0]] + r[1..] && p == [p[0]] + p[1..];
  }

  /** Taking one more change only touches the first key of its path. */
  lemma MixElsewhere(b: Json, a: Json, done: set<seq<string>>, p: seq<string>, k: string)
    requires b.Obj? && a.Obj? && p != [] && k != p[0]
    ensures MixAt(b, a, done + {p}, k) == MixAt(b, a, done, k)
  {
    TailsStep(done, p, k);
    assert [k] != p;
  }

  /** Applying one recorded change to the half-way context takes exactly that change. */
  lemma {:induction false} PutTakesChange(b: Json, a: Json, done: set<seq<string>>, p: seq<string>, v: Json)
    requires b.Obj? && a.Obj? && p != [] && ChangeAt(Some(b), Some(a), p) == Put(v)
    ensures SetPath(Mix(b, a, done), Keys(p), v) == Some(Mix(b, a, done + {p}))
    decreases |p|
  {
    var k, m, n := p[0], Mix(b, a, done), Mix(b, a, done + {p});
    assert Keys(p)[0] == Key(k) && Keys(p)[1..] == Keys(p[1..]);
    FieldOfMix(b, a, done, k);
    FieldOfMix(b, a, done + {p}, k);
    if |p| == 1 {
      assert p == [k] && p in done + {p};
      forall j
        ensures Field(Obj(m.fields[k := v]), j) == Field(n, j)
      {
        ElsewhereAgain(b, a, done, p, j);
      }
      SameFields(Obj(m.fields[k := v]), n);
    } else {
      var bk, ak := b.fields[k], a.fields[k];
      PutTakesChange(bk, ak, Tails(done, k), p[1..], v);
      TailsStep(done, p, k);
      var w := Mix(bk, ak, Tails(done + {p}, k));
      forall j
        ensures Field(Obj(m.fields[k := w]), j) == Field(n, j)
      {
        ElsewhereAgain(b, a, done, p, j);
      }
      SameFields(Obj(m.fields[k := w]), n);
    }
  }

  lemma ElsewhereAgain(b: Json, a: Json, done: set<seq<string>>, p: seq<string>, j: string)
    requires b.Obj? && a.Obj? && p != []
    ensures j != p[0] ==> Field(Mix(b, a, done + {p}), j) == Field(Mix(b, a, done), j)
    ensures Field(Mix(b, a, done + {p}), p[0]) == MixAt(b, a, done + {p}, p[0])
  {
    FieldOfMix(b, a, done, j);
    FieldOfMix(b, a, done + {p}, j);
    FieldOfMix(b, a, done + {p}, p[0]);
    if j != p[0] {
      MixElsewhere(b, a, done, p, j);
    }
  }

  lemma {:induction false} DropTakesChange(b: Json, a: Json, done: set<seq<string>>, p: seq<string>)
    requires b.Obj? && a.Obj? && p != [] && p !in done && ChangeAt(Some(b), Some(a), p) == Drop
    ensures DeleteParsed(Mix(b, a, done), Keys(p)) == Some(Mix(b, a, done + {p}))
    decreases |p|
  {
    var k, m, n := p[0], Mix(b, a, done), Mix(b, a, done + {p});
    assert Keys(p)[0] == Key(k) && Keys(p)[1..] == Keys(p[1..]);
    FieldOfMix(b, a, done, k);
    FieldOfMix(b, a, done + {p}, k);
    if |p| == 1 {
      assert p == [k] && p in done + {p};
      forall j
        ensures Field(Obj(m.fields - {k}), j) == Field(n, j)
      {
        ElsewhereAgain(b, a, done, p, j);
      }
      SameFields(Obj(m.fields - {k}), n);
    } else {
      var bk, ak := b.fields[k], a.fields[k];
      if p[1..] in Tails(done, k) {
        TailsMember(done, p);
      }
      DropTakesChange(bk, ak, Tails(done, k), p[1..]);
      TailsStep(done, p, k);
      var w := Mix(bk, ak, Tails(done + {p}, k));
      forall j
        ensures Field(Obj(m.fields[k := w]), j) == Field(n, j)
      {
        ElsewhereAgain(b, a, done, p, j);
      }
      SameFields(Obj(m.fields[k := w]), n);
    }
  }

  // ---- Recorded paths ----

  lemma {:induction false} EqualHasNoChange(v: Option<Json>, p: seq<string>)
    ensures ChangeAt(v, v, p) == Same
    decreases |p|
  {
    if BothMaps(v, v) && p != [] {
      EqualHasNoChange(Field(v.value, p[0]), p[1..]);
    }
  }

  /** Every key on a recorded path below the top level is a bare path key. */
  lemma {:induction false} ChangedKeys(b: Option<Json>, a: Option<Json>, p: seq<string>)
    requires NestedKeysOk(b, a) && ChangeAt(b, a, p) != Same
    ensures forall part | part in p :: ValidKey(part)
    ensures p != [] ==> BothMaps(b, a)
    decreases |p|
  {
    if p != [] {
      var k := p[0];
      if k !in b.value.fields.Keys + a.value.fields.Keys {
        EqualHasNoChange(None, p[1..]);
      }
      ChangedKeys(Field(b.value, k), Field(a.value, k), p[1..]);
    }
  }

  ghost predicate Recorded(b: Context, a: Context, s: string) {
    Changes(Obj(b), Obj(a), Split(s))
  }

  lemma RecordedPath(b: Context, a: Context, s: string)
    requires Diffable(b, a) && Recorded(b, a, s)
    ensures var p := Split(s);
            && PlainKey(p[0]) && (|p| == 1 <==> PlainKey(s))
            && (|p| > 1 ==> BothMaps(Field(Obj(b), p[0]), Field(Obj(a), p[0])) && b[p[0]] != a[p[0]])
            && forall i | 1 <= i < |p| :: ValidKey(p[i])
  {
    var p := Split(s);
    var bk, ak := Field(Obj(b), p[0]), Field(Obj(a), p[0]);
    assert ChangeAt(Some(Obj(b)), Some(Obj(a)), p) == ChangeAt(bk, ak, p[1..]);
    if bk == ak {
      EqualHasNoChange(bk, p[1..]);
    }
    ChangedKeys(bk, ak, p[1..]);
    SinglePart(s);
    forall i | 1 <= i < |p|
      ensures ValidKey(p[i])
    {
      assert p[i] == p[1..][i - 1];
    }
  }

  /** The keys for which a recorded path can be applied: where maps are compared below a
      top-level key, that key must itself be a bare path key, or nothing changed there. */
  predicate PathSafe(b: Context, a: Context) {
    forall k | k in b && k in a && b[k].Obj? && a[k].Obj? && !ValidKey(k) :: b[k] == a[k]
  }

  ghost function Half(b: Context, a: Context, done: set<seq<string>>): Context {
    Mix(Obj(b), Obj(a), done).fields
  }

  lemma SafePathParses(b: Context, a: Context, s: string)
    requires Diffable(b, a) && PathSafe(b, a) && Recorded(b, a, s) && !PlainKey(s)
    ensures Parsed(s) == Ok(Keys(Split(s)))
  {
    RecordedPath(b, a, s);
    var p := Split(s);
    forall part | part in p
      ensures ValidKey(part)
    {
      var i :| 0 <= i < |p| && p[i] == part;
    }
    ParsedKeys(s);
  }

  lemma PutStep(b: Context, a: Context, done: set<seq<string>>, s: string, v: Json)
    requires Diffable(b, a) && PathSafe(b, a) && ChangeAt(Some(Obj(b)), Some(Obj(a)), Split(s)) == Put(v)
    ensures PutPath(Half(b, a, done), s, v) == Some(Half(b, a, done + {Split(s)}))
  {
    RecordedPath(b, a, s);
    PutTakesChange(Obj(b), Obj(a), done, Split(s), v);
    if PlainKey(s) {
      SinglePart(s);
      assert Keys(Split(s)) == [Key(s)];
    } else {
      SafePathParses(b, a, s);
    }
  }

  lemma DropStep(b: Context, a: Context, done: set<seq<string>>, s: string)
    requires Diffable(b, a) && PathSafe(b, a) && ChangeAt(Some(Obj(b)), Some(Obj(a)), Split(s)) == Drop
    requires Split(s) !in done
    ensures DeletePath(Half(b, a, done), s) == Some(Half(b, a, done + {Split(s)}))
  {
    RecordedPath(b, a, s);
    DropTakesChange(Obj(b), Obj(a), done, Split(s));
    if PlainKey(s) {
      SinglePart(s);
      assert Keys(Split(s)) == [Key(s)];
    } else {
      SafePathParses(b, a, s);
    }
  }

  ghost function PathsOf(strings: seq<string>): set<seq<string>> {
    set s | s in strings :: Split(s)
  }

  lemma PathsSnoc(strings: seq<string>)
    requires strings != [] && Distinct(strings)
    ensures var n := |strings| - 1;
            PathsOf(strings) == PathsOf(strings[..n]) + {Split(strings[n])} && Split(strings[n]) !in PathsOf(strings[..n])
  {
    var n := |strings| - 1;
    assert strings == strings[..n] + [strings[n]];
    if Split(strings[n]) in PathsOf(strings[..n]) {
      var s :| s in strings[..n] && Split(s) == Split(strings[n]);
      SplitIsInjective(s, strings[n]);
    }
  }

  lemma {:induction false} DeletesTake(b: Context, a: Context, paths: seq<string>)
    requires Diffable(b, a) && PathSafe(b, a) && Distinct(paths)
    requires forall s | s in paths :: ChangeAt(Some(Obj(b)), Some(Obj(a)), Split(s)) == Drop
    ensures Deletes(Some(b), paths) == Some(Half(b, a, PathsOf(paths)))
    decreases |paths|
  {
    if paths == [] {
      assert PathsOf(paths) == {};
      MixOfNothing(Obj(b), Obj(a));
    } else {
      var n := |paths| - 1;
      DeletesTake(b, a, paths[..n]);
      PathsSnoc(paths);
      DropStep(b, a, PathsOf(paths[..n]), paths[n]);
    }
  }

  lemma {:induction false} PutsTake(b: Context, a: Context, done: set<seq<string>>, paths: seq<string>, values: map<string, Json>)
    requires Diffable(b, a) && PathSafe(b, a) && Distinct(paths)
    requires forall s | s in paths :: s in values && ChangeAt(Some(Obj(b)), Some(Obj(a)), Split(s)) == Put(values[s])
    ensures Puts(Some(Half(b, a, done)), paths, values) == Some(Half(b, a, done + PathsOf(paths)))
    decreases |paths|
  {
    if paths == [] {
      assert done + PathsOf(paths) == done;
    } else {
      var n := |paths| - 1;
      PutsTake(b, a, done, paths[..n], values);
      PathsSnoc(paths);
      PutStep(b, a, done + PathsOf(paths[..n]), paths[n], values[paths[n]]);
      assert done + PathsOf(paths[..n]) + {Split(paths[n])} == done + PathsOf(paths);
    }
  }

  lemma HitAtTop(b: Context, a: Context, s: string)
    ensures Hit([], Some(Obj(b)), Some(Obj(a)), s) == ChangeAt(Some(Obj(b)), Some(Obj(a)), Split(s))
  {
    assert Split(s)[0..] == Split(s);
  }

  /** Every change of a diffable pair is spelled by some string of the diff. */
  lemma ChangeIsSpelled(b: Context, a: Context, d: Diff, p: seq<string>)
    requires Diffable(b, a) && Represents(d, b, a) && p != [] && Changes(Obj(b), Obj(a), p)
    ensures Split(Join(p)) == p && (Join(p) in d.set_ || Join(p) in d.unset)
  {
    var bk, ak := Field(Obj(b), p[0]), Field(Obj(a), p[0]);
    if p[0] !in b.Keys + a.Keys {
      EqualHasNoChange(None, p[1..]);
    }
    ChangedKeys(bk, ak, p[1..]);
    forall part | part in p
      ensures DotFree(part)
    {
      var i :| 0 <= i < |p| && p[i] == part;
      if i > 0 {
        assert p[1..][i - 1] == part;
        TokenOfKey(part);
      }
    }
    SplitJoin(p);
    HitAtTop(b, a, Join(p));
  }

  // ---- The round trip ----

  lemma SafeDiffApplies(b: Context, a: Context, d: Diff, order: seq<string>)
    requires Diffable(b, a) && Represents(d, b, a) && PathSafe(b, a) && Enumerates(order, d.set_.Keys)
    ensures ApplyInOrder(b, d, order) == Some(a)
  {
    forall s
      ensures Hit([], Some(Obj(b)), Some(Obj(a)), s) == ChangeAt(Some(Obj(b)), Some(Obj(a)), Split(s))
    {
      HitAtTop(b, a, s);
    }
    DeletesTake(b, a, d.unset);
    PutsTake(b, a, PathsOf(d.unset), order, d.set_);
    var all := PathsOf(d.unset) + PathsOf(order);
    forall p | Changes(Obj(b), Obj(a), p)
      ensures p in all
    {
      ChangeIsSpelled(b, a, d, p);
      assert Join(p) in order || Join(p) in d.unset;
    }
    MixOfAll(Obj(b), Obj(a), all);
  }

  /** Two values that differ have a change somewhere. */
  lemma {:induction false} DifferentHasChange(b: Json, a: Json) returns (p: seq<string>)
    requires b != a
    ensures ChangeAt(Some(b), Some(a), p) != Same
    ensures b.Obj? && a.Obj? ==> p != []
    decreases a
  {
    if b.Obj? && a.Obj? {
      if forall k :: Field(b, k) == Field(a, k) {
        SameFields(b, a);
      }
      var k :| Field(b, k) != Field(a, k);
      if k in b.fields && k in a.fields {
        var q := DifferentHasChange(b.fields[k], a.fields[k]);
        p := [k] + q;
        assert p[1..] == q;
      } else {
        p := [k];
        assert p[1..] == [];
      }
    } else {
      p := [];
    }
  }

  lemma UnsafePathFails(b: Context, a: Context, k: string, s: string, ctx: Context, v: Json)
    requires PlainKey(k) && !ValidKey(k) && |Split(s)| > 1 && Split(s)[0] == k
    ensures DeletePath(ctx, s) == None && PutPath(ctx, s, v) == None
  {
    SinglePart(s);
    TokenOfKey(k);
    ParseFails(Split(s), 0);
    assert '.' in s;
  }

  lemma UnsafeDiffFails(b: Context, a: Context, d: Diff, order: seq<string>)
    requires Diffable(b, a) && Represents(d, b, a) && !PathSafe(b, a) && Enumerates(order, d.set_.Keys)
    ensures ApplyInOrder(b, d, order) == None
  {
    var k :| k in b && k in a && b[k].Obj? && a[k].Obj? && !ValidKey(k) && b[k] != a[k];
    var q := DifferentHasChange(b[k], a[k]);
    var p := [k] + q;
    assert p[1..] == q && k in b.Keys + a.Keys;
    ChangeIsSpelled(b, a, d, p);
    if Join(p) in d.unset {
      UnsafeDeleteFails(b, a, d, k, Join(p));
    } else {
      UnsafePutFails(b, a, d, order, k, Join(p));
    }
  }

  lemma UnsafeDeleteFails(b: Context, a: Context, d: Diff, k: string, s: string)
    requires PlainKey(k) && !ValidKey(k) && |Split(s)| > 1 && Split(s)[0] == k && s in d.unset
    ensures Deletes(Some(b), d.unset) == None
  {
    var i :| 0 <= i < |d.unset| && d.unset[i] == s;
    assert d.unset[..i + 1][..i] == d.unset[..i];
    var prior := Deletes(Some(b), d.unset[..i]);
    if prior.Some? {
      UnsafePathFails(b, a, k, s, prior.value, Null);
    }
    DeletesFail(Some(b), d.unset, i + 1);
  }

  lemma UnsafePutFails(b: Context, a: Context, d: Diff, order: seq<string>, k: string, s: string)
    requires PlainKey(k) && !ValidKey(k) && |Split(s)| > 1 && Split(s)[0] == k
    requires s in order && forall t | t in order :: t in d.set_
    ensures ApplyInOrder(b, d, order) == None
  {
    var i :| 0 <= i < |order| && order[i] == s;
    assert order[..i + 1][..i] == order[..i];
    var cleared := Deletes(Some(b), d.unset);
    if cleared.Some? {
      var prior := Puts(cleared, order[..i], d.set_);
      if prior.Some? {
        UnsafePathFails(b, a, k, s, prior.value, d.set_[s]);
      }
      PutsFail(cleared, order, d.set_, i + 1);
    }
  }

  /** Applying a diff to the earlier context, in any order of its set paths, gives the later context
      exactly when maps differ only under bare path keys; otherwise it fails and changes nothing. */
  lemma RoundTrip(b: Context, a: Context, d: Diff, order: seq<string>)
    requires Diffable(b, a) && Represents(d, b, a) && Enumerates(order, d.set_.Keys)
    ensures ApplyInOrder(b, d, order) == (if PathSafe(b, a) then Some(a) else None)
  {
    if PathSafe(b, a) {
      SafeDiffApplies(b, a, d, order);
    } else {
      UnsafeDiffFails(b, a, d, order);
    }
  }

  /** The round trip in the order replay uses. */
  lemma DiffRestores(b: Context, a: Context, d: Diff)
    requires Diffable(b, a) && Represents(d, b, a)
    ensures ApplyDiff(b, d) == (if PathSafe(b, a) then Some(a) else None)
  {
    RoundTrip(b, a, d, Order(d.set_.Keys));
  }

  /** Any two contexts that hold different maps under a dashed key, such as a uuid: whenever they can be
      diffed, no diff that represents the change can be applied. */
  lemma DashedKeyIsLost(b: Context, a: Context, key: string, d: Diff, order: seq<string>)
    requires Diffable(b, a) && '-' in key && key in b && key in a && b[key].Obj? && a[key].Obj? && b[key] != a[key]
    requires Represents(d, b, a) && Enumerates(order, d.set_.Keys)
    ensures ApplyInOrder(b, d, order) == None
  {
    assert !ValidKey(key);
    RoundTrip(b, a, d, order);
  }

  /** Such contexts do have a diff: a dashed key under which a bare key is added. */
  lemma DashedKeyIsDiffable(key: string, x: string, value: Json)
    requires PlainKey(key) && '-' in key && ValidKey(x)
    ensures var b, a := map[key := Obj(map[])], map[key := Obj(map[x := value])];
            Diffable(b, a) && b[key] != a[key] && Represents(Diff(map[key + "." + x := value], []), b, a)
  {
    var b, a := map[key := Obj(map[])], map[key := Obj(map[x := value])];
    assert x in a[key].fields;
    assert TopChildOk(b, a, key);
    var path := key + "." + x;
    SplitAppend(key, x);
    SinglePart(key);
    TokenOfKey(x);
    forall s
      ensures Hit([], Some(Obj(b)), Some(Obj(a)), s) == if s == path then Put(value) else Same
    {
      JoinSplit(s);
      JoinSplit(path);
      HitAtTop(b, a, s);
      OnlyChange(key, x, value, Split(s));
    }
  }

  lemma OnlyChange(key: string, x: string, value: Json, p: seq<string>)
    ensures ChangeAt(Some(Obj(map[key := Obj(map[])])), Some(Obj(map[key := Obj(map[x := value])])), p) ==
            if p == [key, x] then Put(value) else Same
  {
    if p != [] {
      assert p == [p[0]] + p[1..];
      if p[0] == key {
        OnlyAddition(x, value, p[1..]);
      }
    }
  }

  lemma OnlyAddition(x: string, value: Json, q: seq<string>)
    ensures ChangeAt(Some(Obj(map[])), Some(Obj(map[x := value])), q) == if q == [x] then Put(value) else Same
  {
    if q != [] {
      assert q == [q[0]] + q[1..];
    }
  }

  /** No recorded path continues another, so a diff never writes the same place twice. */
  lemma {:induction false} PathsAreUnrelated(b: Option<Json>, a: Option<Json>, p: seq<string>, q: seq<string>)
    requires ChangeAt(b, a, p) != Same && ChangeAt(b, a, q) != Same && p <= q
    ensures p == q
    decreases |p|
  {
    if BothMaps(b, a) {
      assert q == p + q[|p|..];
      PathsAreUnrelated(Field(b.value, p[0]), Field(a.value, p[0]), p[1..], q[1..]);
      assert p == [p[0]] + p[1..] && q == [q[0]] + q[1..];
    }
  }

  /** A diff is empty exactly when nothing changed. */
  lemma EmptyIffEqual(b: Context, a: Context, d: Diff)
    requires Diffable(b, a) && Represents(d, b, a)
    ensures d.set_ == map[] && d.unset == [] <==> b == a
  {
    assert |d.unset| > 0 ==> d.unset[0] in d.unset;
    if b == a {
      forall s
        ensures s !in d.set_ && s !in d.unset
      {
        HitAtTop(b, a, s);
        EqualHasNoChange(Some(Obj(b)), Split(s));
      }
      assert d.set_.Keys == {};
    } else {
      var p := DifferentHasChange(Obj(b), Obj(a));
      ChangeIsSpelled(b, a, d, p);
    }
  }
}
