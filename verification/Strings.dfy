/** The string operations paths and diffs are made of: splitting at dots, and Go's string order. */
module Strings {

  // ---- Splitting at dots ----

  /** White space as Unicode defines it, which trimming a string removes. */
  predicate SpaceChar(c: char) {
    var n := c as int;
    || 0x9 <= n <= 0xD || n == 0x20 || n == 0x85 || n == 0xA0 || n == 0x1680 || 0x2000 <= n <= 0x200A
    || n == 0x2028 || n == 0x2029 || n == 0x202F || n == 0x205F || n == 0x3000
  }

  predicate Blank(s: string) {
    forall c | c in s :: SpaceChar(c)
  }

  predicate DotFree(s: string) {
    '.' !in s
  }

  /** The parts of `s` between dots; always at least one part. */
  function Split(s: string): (r: seq<string>)
    ensures r != [] && forall part | part in r :: DotFree(part)
    ensures DotFree(s) ==> r == [s]
  {
    if s == "" then [""]
    else
      var rest := Split(s[1..]);
      if s[0] == '.' then [""] + rest
      else
        var r := [[s[0]] + rest[0]] + rest[1..];
        assert rest[0] in rest && forall part | part in r :: part == r[0] || part in rest;
        assert s == [s[0]] + s[1..];
        r
  }

  function Join(parts: seq<string>): string
    requires parts != []
  {
    if |parts| == 1 then parts[0] else parts[0] + "." + Join(parts[1..])
  }

  lemma {:induction false} SplitAtDot(a: string, b: string)
    requires DotFree(a)
    ensures Split(a + "." + b) == [a] + Split(b)
    decreases |a|
  {
    if a == "" {
      assert "" + "." + b == "." + b;
    } else {
      assert (a + "." + b)[1..] == a[1..] + "." + b;
      SplitAtDot(a[1..], b);
      assert [a[0]] + a[1..] == a;
    }
  }

  lemma {:induction false} SplitAppend(s: string, key: string)
    requires DotFree(key)
    ensures Split(s + "." + key) == Split(s) + [key]
    decreases |s|
  {
    if s == "" {
      assert "" + "." + key == "." + key;
    } else {
      assert (s + "." + key)[1..] == s[1..] + "." + key;
      SplitAppend(s[1..], key);
    }
  }

  lemma {:induction false} SplitJoin(parts: seq<string>)
    requires parts != [] && forall part | part in parts :: DotFree(part)
    ensures Split(Join(parts)) == parts
    decreases |parts|
  {
    if |parts| > 1 {
      SplitJoin(parts[1..]);
      SplitAtDot(parts[0], Join(parts[1..]));
    }
  }

  lemma SplitStep(s: string)
    requires s != ""
    ensures var rest := Split(s[1..]);
            Split(s) == if s[0] == '.' then [""] + rest else [[s[0]] + rest[0]] + rest[1..]
  {
  }

  lemma {:induction false} JoinSplit(s: string)
    ensures Join(Split(s)) == s
    decreases |s|
  {
    if s != "" {
      JoinSplit(s[1..]);
      SplitStep(s);
      if s[0] == '.' {
        JoinEmpty(Split(s[1..]));
      } else {
        JoinCons(s[0], Split(s[1..]));
      }
      assert s == [s[0]] + s[1..];
    }
  }

  lemma JoinEmpty(parts: seq<string>)
    requires parts != []
    ensures Join([""] + parts) == "." + Join(parts)
  {
    assert ([""] + parts)[1..] == parts;
  }

  lemma JoinCons(c: char, parts: seq<string>)
    requires parts != []
    ensures Join([[c] + parts[0]] + parts[1..]) == [c] + Join(parts)
  {
    var longer := [[c] + parts[0]] + parts[1..];
    assert longer[1..] == parts[1..];
    if |parts| > 1 {
      assert Join(longer) == ([c] + parts[0]) + "." + Join(parts[1..]);
    }
  }

  // A string without dots is its own only part.
  lemma SinglePart(s: string)
    ensures |Split(s)| == 1 <==> DotFree(s)
    ensures |Split(s)| == 1 ==> Split(s) == [s]
  {
    JoinSplit(s);
  }

  // ---- Go's string order ----

  predicate Less(a: string, b: string) {
    b != "" && (a == "" || a[0] < b[0] || (a[0] == b[0] && Less(a[1..], b[1..])))
  }

  lemma {:induction false} LessIsTransitive(a: string, b: string, c: string)
    requires Less(a, b) && Less(b, c)
    ensures Less(a, c)
    decreases |a|
  {
    if a != "" && a[0] == b[0] && b[0] == c[0] {
      LessIsTransitive(a[1..], b[1..], c[1..]);
    }
  }

  lemma {:induction false} LessIsTotal(a: string, b: string)
    ensures a != b ==> Less(a, b) || Less(b, a)
    ensures !Less(a, a)
    decreases |a|
  {
    if a != "" {
      LessIsTotal(a[1..], if b == "" then "" else b[1..]);
      if b != "" && a[0] == b[0] && a[1..] == b[1..] {
        assert a == [a[0]] + a[1..] && b == [b[0]] + b[1..];
      }
    }
  }

  predicate Ascending(r: seq<string>) {
    forall i, j | 0 <= i < j < |r| :: Less(r[i], r[j])
  }

  predicate Distinct(r: seq<string>) {
    forall i, j | 0 <= i < j < |r| :: r[i] != r[j]
  }

  lemma AscendingIsDistinct(r: seq<string>)
    requires Ascending(r)
    ensures Distinct(r)
  {
    forall i, j | 0 <= i < j < |r|
      ensures r[i] != r[j]
    {
      LessIsTotal(r[i], r[j]);
    }
  }

  lemma PrefixStep(r: seq<string>, i: nat)
    requires Distinct(r) && i < |r|
    ensures r[i] in r && r[i] !in r[..i]
    ensures forall x :: x in r[..i + 1] <==> x in r[..i] || x == r[i]
  {
    assert r[..i + 1] == r[..i] + [r[i]];
  }

  /** `r` lists the elements of `s`, each once. */
  ghost predicate Enumerates(r: seq<string>, s: set<string>) {
    (forall x :: x in r <==> x in s) && Distinct(r)
  }

  method InsertSorted(r: seq<string>, x: string) returns (out: seq<string>)
    requires Ascending(r) && x !in r
    ensures Ascending(out) && forall y :: y in out <==> y in r || y == x
  {
    var i := 0;
    while i < |r| && Less(r[i], x)
      invariant 0 <= i <= |r|
      invariant forall j | 0 <= j < i :: Less(r[j], x)
    {
      i := i + 1;
    }
    out := r[..i] + [x] + r[i..];
    forall j | i <= j < |r|
      ensures Less(x, r[j])
    {
      LessIsTotal(r[i], x);
      if j > i {
        LessIsTransitive(x, r[i], r[j]);
      }
    }
    forall y
      ensures y in out <==> y in r || y == x
    {
      assert r == r[..i] + r[i..];
    }
  }

  /** Sorts distinct strings ascending. */
  method SortStrings(xs: seq<string>) returns (r: seq<string>)
    requires Distinct(xs)
    ensures Ascending(r) && Distinct(r) && forall x :: x in r <==> x in xs
  {
    r := [];
    for i := 0 to |xs|
      invariant Ascending(r) && forall x :: x in r <==> x in xs[..i]
    {
      assert xs[..i + 1] == xs[..i] + [xs[i]];
      r := InsertSorted(r, xs[i]);
    }
    assert xs[..|xs|] == xs;
    AscendingIsDistinct(r);
  }

  /** The elements of a set in ascending order. */
  method SortedKeys(keys: set<string>) returns (r: seq<string>)
    ensures Ascending(r) && Enumerates(r, keys)
  {
    var todo := keys;
    r := [];
    while todo != {}
      invariant todo <= keys && Ascending(r)
      invariant forall x :: x in r <==> x in keys && x !in todo
      decreases todo
    {
      var x :| x in todo;
      r := InsertSorted(r, x);
      todo := todo - {x};
    }
    AscendingIsDistinct(r);
  }

  // ---- The ascending order of a set, as a value ----

  function Insert(r: seq<string>, x: string): (out: seq<string>)
    requires Ascending(r) && x !in r
    ensures Ascending(out) && forall y :: y in out <==> y in r || y == x
  {
    if r == [] then [x]
    else if Less(x, r[0]) then
      InsertFirst(r, x);
      [x] + r
    else
      InsertLater(r, x);
      [r[0]] + Insert(r[1..], x)
  }

  lemma InsertFirst(r: seq<string>, x: string)
    requires Ascending(r) && r != [] && Less(x, r[0])
    ensures Ascending([x] + r)
  {
    forall j | 0 <= j < |r|
      ensures Less(x, r[j])
    {
      if j > 0 {
        LessIsTransitive(x, r[0], r[j]);
      }
    }
  }

  lemma InsertLater(r: seq<string>, x: string)
    requires Ascending(r) && r != [] && !Less(x, r[0]) && x !in r
    ensures x !in r[1..] && Less(r[0], x) && forall y | y in r[1..] :: Less(r[0], y)
    ensures forall y :: y in r <==> y == r[0] || y in r[1..]
  {
    LessIsTotal(x, r[0]);
    assert r == [r[0]] + r[1..];
  }

  ghost function Order(keys: set<string>): (r: seq<string>)
    ensures Ascending(r) && Enumerates(r, keys)
  {
    if keys == {} then []
    else
      var x :| x in keys;
      var r := Insert(Order(keys - {x}), x);
      AscendingIsDistinct(r);
      r
  }

  /** A set has only one ascending enumeration. */
  lemma {:induction false} AscendingIsUnique(r: seq<string>, t: seq<string>)
    requires Ascending(r) && Ascending(t) && forall x :: x in r <==> x in t
    ensures r == t
    decreases |r|
  {
    assert |t| > 0 ==> t[0] in t;
    if r != [] {
      assert r[0] in t;
      assert |t| > 0 && t[0] in r;
      SameHead(r, t);
      AscendingIsDistinct(r);
      AscendingIsDistinct(t);
      assert r == [r[0]] + r[1..] && t == [t[0]] + t[1..];
      forall x
        ensures x in r[1..] <==> x in t[1..]
      {
        assert x in r <==> x in t;
      }
      AscendingIsUnique(r[1..], t[1..]);
    }
  }

  lemma SameHead(r: seq<string>, t: seq<string>)
    requires Ascending(r) && Ascending(t) && r != [] && t != [] && r[0] in t && t[0] in r
    ensures r[0] == t[0]
  {
    var i, j :| 0 <= i < |t| && t[i] == r[0] && 0 <= j < |r| && r[j] == t[0];
    if i > 0 && j > 0 {
      LessIsTransitive(r[0], t[0], r[0]);
      LessIsTotal(r[0], r[0]);
    }
  }
}
