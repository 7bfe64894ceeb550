/** JSON values, context paths such as "items[0].name", and reading and writing along them.

    Source: pkg/contextpath/contextpath.go. */
module ContextPath {
  import opened Wrappers
  import opened Strings

  /** A decoded JSON value. Numbers are kept as their literal. */
  datatype Json = Null | Bool(b: bool) | Num(literal: string) | Str(s: string) | Arr(items: seq<Json>) | Obj(fields: map<string, Json>)

  type Context = map<string, Json>

  datatype Segment = Key(key: string) | Index(i: nat)

  type Path = seq<Segment>

  // ---- Parsing ----

  predicate KeyChar(c: char) {
    'A' <= c <= 'Z' || 'a' <= c <= 'z' || '0' <= c <= '9' || c == '_'
  }

  predicate Digit(c: char) {
    '0' <= c <= '9'
  }

  predicate ValidKey(s: string) {
    s != "" && forall c | c in s :: KeyChar(c)
  }

  predicate Digits(s: string) {
    s != "" && forall c | c in s :: Digit(c)
  }

  const MAX_INT: nat := 0x7FFF_FFFF_FFFF_FFFF

  function Decimal(s: string): nat
    requires forall c | c in s :: Digit(c)
  {
    if s == "" then 0
    else
      assert Digit(s[|s| - 1]);
      Decimal(s[..|s| - 1]) * 10 + (s[|s| - 1] as int - '0' as int)
  }

  function KeyPrefix(s: string): (n: nat)
    ensures n <= |s| && forall c | c in s[..n] :: KeyChar(c)
    ensures n < |s| ==> !KeyChar(s[n])
  {
    if s == "" || !KeyChar(s[0]) then 0
    else
      var n := KeyPrefix(s[1..]) + 1;
      assert s[..n] == [s[0]] + s[1..][..n - 1];
      n
  }

  /** One dot-separated part: a key, optionally followed by one bracketed index. */
  function ParseToken(part: string): Result<Path> {
    var n := KeyPrefix(part);
    if n == 0 then Err
    else if n == |part| then Ok([Key(part)])
    else if |part| >= n + 3 && part[n] == '[' && part[|part| - 1] == ']' && Digits(part[n + 1..|part| - 1]) then
      var i := Decimal(part[n + 1..|part| - 1]);
      if i <= MAX_INT then Ok([Key(part[..n]), Index(i)]) else Err
    else Err
  }

  function ParseParts(parts: seq<string>): Result<Path> {
    if parts == [] then Ok([])
    else
      match ParseToken(parts[0])
      case Err => Err
      case Ok(p) =>
        match ParseParts(parts[1..])
        case Err => Err
        case Ok(q) => Ok(p + q)
  }

  function Parsed(path: string): Result<Path> {
    if Blank(path) then Err else ParseParts(Split(path))
  }

  lemma {:induction false} ParseSnoc(parts: seq<string>, i: nat)
    requires i < |parts|
    ensures ParseParts(parts[..i]).Ok? && ParseToken(parts[i]).Ok? ==>
              ParseParts(parts[..i + 1]) == Ok(ParseParts(parts[..i]).value + ParseToken(parts[i]).value)
    decreases i
  {
    if i == 0 {
      assert parts[..1] == [parts[0]] && parts[..0] == [];
      if ParseToken(parts[0]).Ok? {
        assert ParseToken(parts[0]).value + [] == [] + ParseToken(parts[0]).value;
      }
    } else {
      ParseSnoc(parts[1..], i - 1);
      assert parts[..i + 1][1..] == parts[1..][..i] && parts[..i][1..] == parts[1..][..i - 1];
      if ParseParts(parts[..i]).Ok? && ParseToken(parts[i]).Ok? {
        var a, b, c := ParseToken(parts[0]).value, ParseParts(parts[1..][..i - 1]).value, ParseToken(parts[i]).value;
        assert a + (b + c) == (a + b) + c;
      }
    }
  }

  lemma {:induction false} ParseFails(parts: seq<string>, i: nat)
    requires i < |parts| && ParseToken(parts[i]).Err?
    ensures ParseParts(parts) == Err
    decreases i
  {
    if i > 0 {
      ParseFails(parts[1..], i - 1);
    }
  }

  /** Splits a path into segments. */
  method Parse(path: string) returns (r: Result<Path>)
    ensures r == Parsed(path)
  {
    if Blank(path) {
      return Err;
    }
    var parts := Split(path);
    var out: Path := [];
    for i := 0 to |parts|
      invariant ParseParts(parts[..i]) == Ok(out)
    {
      ParseSnoc(parts, i);
      var token := ParseToken(parts[i]);
      if token.Err? {
        ParseFails(parts, i);
        return Err;
      }
      out := out + token.value;
    }
    assert parts[..|parts|] == parts;
    return Ok(out);
  }

  function Keys(parts: seq<string>): Path {
    seq(|parts|, i requires 0 <= i < |parts| => Key(parts[i]))
  }

  lemma TokenOfKey(part: string)
    ensures ValidKey(part) ==> ParseToken(part) == Ok([Key(part)])
    ensures '[' !in part && !ValidKey(part) ==> ParseToken(part) == Err
    ensures ValidKey(part) ==> DotFree(part) && !Blank(part)
  {
    var n := KeyPrefix(part);
    if ValidKey(part) {
      assert part[0] in part && KeyChar(part[0]);
      assert forall i | 0 <= i < |part| :: part[i] in part && KeyChar(part[i]);
    } else if n == |part| {
      assert part[..n] == part;
    }
  }

  /** Bare keys parse to themselves. */
  lemma {:induction false} PartsOfKeys(parts: seq<string>)
    requires forall part | part in parts :: ValidKey(part)
    ensures ParseParts(parts) == Ok(Keys(parts))
    decreases |parts|
  {
    if parts != [] {
      TokenOfKey(parts[0]);
      PartsOfKeys(parts[1..]);
      assert [Key(parts[0])] + Keys(parts[1..]) == Keys(parts);
    }
  }

  lemma NotBlank(path: string)
    requires forall part | part in Split(path) :: ValidKey(part)
    ensures !Blank(path)
  {
    if '.' !in path {
      SinglePart(path);
      TokenOfKey(Split(path)[0]);
    }
  }

  lemma ParsedKeys(path: string)
    requires forall part | part in Split(path) :: ValidKey(part)
    ensures Parsed(path) == Ok(Keys(Split(path)))
  {
    PartsOfKeys(Split(path));
    NotBlank(path);
  }

  // ---- Which paths there are ----

  /** A part is a bare key, or a bare key with one index that fits a machine integer. */
  ghost predicate IsToken(part: string) {
    ValidKey(part) || exists key, digits :: IndexedToken(part, key, digits)
  }

  predicate IndexedToken(part: string, key: string, digits: string) {
    ValidKey(key) && Digits(digits) && Decimal(digits) <= MAX_INT && part == key + "[" + digits + "]"
  }

  lemma {:induction false} KeyThenBracket(key: string, rest: string)
    requires forall c | c in key :: KeyChar(c)
    ensures KeyPrefix(key + "[" + rest) == |key|
    decreases |key|
  {
    var part := key + "[" + rest;
    if key == "" {
      assert part[0] == '[';
    } else {
      assert key[0] in key && part[1..] == key[1..] + "[" + rest;
      KeyThenBracket(key[1..], rest);
    }
  }

  lemma IndexedTokenParses(part: string, key: string, digits: string)
    requires IndexedToken(part, key, digits)
    ensures ParseToken(part) == Ok([Key(key), Index(Decimal(digits))])
  {
    assert part == key + "[" + (digits + "]");
    KeyThenBracket(key, digits + "]");
    assert part[..|key|] == key && part[|key| + 1..|part| - 1] == digits;
  }

  /** A part parses exactly when it is a token. */
  lemma TokenParsesExactly(part: string)
    ensures ParseToken(part).Ok? <==> IsToken(part)
  {
    var n := KeyPrefix(part);
    if ParseToken(part).Ok? {
      if n == |part| {
        assert part[..n] == part;
      } else {
        var key, digits := part[..n], part[n + 1..|part| - 1];
        assert part == key + "[" + digits + "]";
        assert IndexedToken(part, key, digits);
      }
    }
    if ValidKey(part) {
      TokenOfKey(part);
    } else if exists key, digits :: IndexedToken(part, key, digits) {
      var key, digits :| IndexedToken(part, key, digits);
      IndexedTokenParses(part, key, digits);
    }
  }

  lemma {:induction false} PartsParseExactly(parts: seq<string>)
    ensures ParseParts(parts).Ok? <==> forall part | part in parts :: ParseToken(part).Ok?
    decreases |parts|
  {
    if parts != [] {
      PartsParseExactly(parts[1..]);
      assert forall part :: part in parts <==> part == parts[0] || part in parts[1..];
    }
  }

  lemma BlankIsNoToken(path: string)
    requires Blank(path)
    ensures ParseToken(Split(path)[0]) == Err && Split(path)[0] in Split(path)
  {
    assert forall c | c in path :: !KeyChar(c) && c != '.';
    SinglePart(path);
    if path != "" {
      assert path[0] in path;
    }
  }

  /** A path parses if and only if each of its parts is a token. */
  lemma ParsesExactly(path: string)
    ensures Parsed(path).Ok? <==> forall part | part in Split(path) :: IsToken(part)
  {
    PartsParseExactly(Split(path));
    forall part | part in Split(path)
      ensures ParseToken(part).Ok? <==> IsToken(part)
    {
      TokenParsesExactly(part);
    }
    if Blank(path) {
      BlankIsNoToken(path);
    }
  }

  function Numeral(n: nat): (s: string)
    ensures Digits(s)
  {
    (if n < 10 then "" else Numeral(n / 10)) + [('0' as int + n % 10) as char]
  }

  lemma {:induction false} NumeralIsDecimal(n: nat)
    ensures Decimal(Numeral(n)) == n
  {
    var s := Numeral(n);
    if n >= 10 {
      NumeralIsDecimal(n / 10);
      assert s[..|s| - 1] == Numeral(n / 10);
    } else {
      assert s[..|s| - 1] == "";
    }
  }

  /** What parsing yields: keys, each with at most one index behind it. */
  predicate WellFormed(p: Path)
    decreases |p|
  {
    p == [] || (p[0].Key? && ValidKey(p[0].key) &&
      if Indexed(p) then p[1].i <= MAX_INT && WellFormed(p[2..]) else WellFormed(p[1..]))
  }

  predicate Indexed(p: Path) {
    |p| > 1 && p[1].Index?
  }

  function Printed(p: Path): seq<string>
    requires WellFormed(p)
    decreases |p|
  {
    if p == [] then []
    else if Indexed(p) then [p[0].key + "[" + Numeral(p[1].i) + "]"] + Printed(p[2..])
    else [p[0].key] + Printed(p[1..])
  }

  function Print(p: Path): string
    requires WellFormed(p) && p != []
  {
    Join(Printed(p))
  }

  predicate Reads(part: string, p: Path) {
    DotFree(part) && ParseToken(part) == Ok(p)
  }

  lemma IndexedReads(key: string, i: nat)
    requires ValidKey(key) && i <= MAX_INT
    ensures Reads(key + "[" + Numeral(i) + "]", [Key(key), Index(i)])
  {
    TokenOfKey(key);
    NumeralIsDecimal(i);
    var digits := Numeral(i);
    IndexedTokenParses(key + "[" + digits + "]", key, digits);
    assert forall c | c in digits :: Digit(c);
  }

  lemma ParseCons(part: string, p: Path, parts: seq<string>)
    requires ParseToken(part) == Ok(p) && ParseParts(parts).Ok?
    ensures ParseParts([part] + parts) == Ok(p + ParseParts(parts).value)
  {
    assert ([part] + parts)[1..] == parts;
  }

  lemma {:induction false} PrintedParses(p: Path)
    requires WellFormed(p)
    ensures ParseParts(Printed(p)) == Ok(p) && forall part | part in Printed(p) :: DotFree(part)
    decreases |p|
  {
    if p == [] {
    } else if Indexed(p) {
      PrintedParses(p[2..]);
      IndexedReads(p[0].key, p[1].i);
      ParseCons(p[0].key + "[" + Numeral(p[1].i) + "]", [Key(p[0].key), Index(p[1].i)], Printed(p[2..]));
      assert p == [Key(p[0].key), Index(p[1].i)] + p[2..];
    } else {
      PrintedParses(p[1..]);
      TokenOfKey(p[0].key);
      ParseCons(p[0].key, [Key(p[0].key)], Printed(p[1..]));
      assert p == [Key(p[0].key)] + p[1..];
    }
  }

  /** Printing a path and parsing it back gives the path. */
  lemma PrintThenParse(p: Path)
    requires WellFormed(p) && p != []
    ensures Parsed(Print(p)) == Ok(p)
  {
    PrintedParses(p);
    SplitJoin(Printed(p));
    if Blank(Print(p)) {
      BlankIsNoToken(Print(p));
      ParseFails(Split(Print(p)), 0);
    }
  }

  lemma {:induction false} PartsAreWellFormed(parts: seq<string>)
    requires ParseParts(parts).Ok?
    ensures WellFormed(ParseParts(parts).value) && (parts != [] ==> ParseParts(parts).value != [])
    ensures parts != [] ==> ParseParts(parts).value[0].Key?
    decreases |parts|
  {
    if parts != [] {
      PartsAreWellFormed(parts[1..]);
      var a, b := ParseToken(parts[0]).value, ParseParts(parts[1..]).value;
      TokenIsWellFormed(parts[0]);
      assert a + b == ParseParts(parts).value && (a + b)[|a|..] == b;
      if |a| == 1 && |b| > 0 {
        assert (a + b)[1] == b[0];
      }
    }
  }

  lemma TokenIsWellFormed(part: string)
    requires ParseToken(part).Ok?
    ensures var a := ParseToken(part).value;
            (|a| == 1 || (|a| == 2 && a[1].Index? && a[1].i <= MAX_INT)) && a[0].Key? && ValidKey(a[0].key)
  {
  }

  /** Every path that parses yields a well-formed one, so printing reaches every parse result. */
  lemma ParsedIsWellFormed(path: string)
    requires Parsed(path).Ok?
    ensures WellFormed(Parsed(path).value) && Parsed(path).value != []
    ensures Parsed(Print(Parsed(path).value)) == Parsed(path)
  {
    PartsAreWellFormed(Split(path));
    PrintThenParse(Parsed(path).value);
  }

  // ---- Reading and writing ----

  /** The value at `p`, if every step resolves. */
  function GetPath(v: Json, p: Path): Option<Json> {
    if p == [] then Some(v)
    else
      match v
      case Obj(fields) =>
        if p[0].Key? && p[0].key in fields then GetPath(fields[p[0].key], p[1..]) else None
      case Arr(items) =>
        if p[0].Index? && p[0].i < |items| then GetPath(items[p[0].i], p[1..]) else None
      case _ => None
  }

  /** What a missing key is created as, given the segment that follows it. */
  function Created(next: Segment): Json {
    if next.Index? then Arr(seq(next.i + 1, _ => Null)) else Obj(map[])
  }

  /** `v` with `x` written at `p`. Missing keys are created; an array index must exist. */
  function SetPath(v: Json, p: Path, x: Json): Option<Json>
    requires p != []
    decreases |p|
  {
    match v
    case Obj(fields) =>
      if p[0].Index? then None
      else
        var k := p[0].key;
        if |p| == 1 then Some(Obj(fields[k := x]))
        else
          (match SetPath(if k in fields then fields[k] else Created(p[1]), p[1..], x)
           case None => None
           case Some(w) => Some(Obj(fields[k := w])))
    case Arr(items) =>
      if p[0].Key? || p[0].i >= |items| then None
      else if |p| == 1 then Some(Arr(items[p[0].i := x]))
      else
        (match SetPath(items[p[0].i], p[1..], x)
         case None => None
         case Some(w) => Some(Arr(items[p[0].i := w])))
    case _ => None
  }

  /** A successful write is what the same path then reads. */
  lemma {:induction false} SetThenGet(v: Json, p: Path, x: Json)
    requires p != [] && SetPath(v, p, x).Some?
    ensures GetPath(SetPath(v, p, x).value, p) == Some(x)
    decreases |p|
  {
    if |p| > 1 {
      match v {
        case Obj(fields) =>
          var k := p[0].key;
          SetThenGet(if k in fields then fields[k] else Created(p[1]), p[1..], x);
        case Arr(items) =>
          SetThenGet(items[p[0].i], p[1..], x);
        case _ =>
      }
    }
  }

  predicate Unrelated(p: Path, q: Path) {
    !(p <= q) && !(q <= p)
  }

  /** A write leaves every other resolvable path alone, unless one path continues the other. */
  lemma {:induction false} SetFrames(v: Json, p: Path, q: Path, x: Json)
    requires p != [] && SetPath(v, p, x).Some? && Unrelated(p, q) && GetPath(v, q).Some?
    ensures GetPath(SetPath(v, p, x).value, q) == GetPath(v, q)
    decreases |p|
  {
    if p[0] == q[0] {
      assert |p| > 1 && |q| > 1 by {
        assert p == [p[0]] + p[1..] && q == [q[0]] + q[1..];
      }
      assert Unrelated(p[1..], q[1..]) by {
        assert p == [p[0]] + p[1..] && q == [q[0]] + q[1..];
      }
      match v {
        case Obj(fields) => SetFrames(fields[p[0].key], p[1..], q[1..], x);
        case Arr(items) => SetFrames(items[p[0].i], p[1..], q[1..], x);
        case _ =>
      }
    }
  }

  const ENV_ROOT := "env"

  // ---- Exactly what reading and writing do ----

  /** Reading along a path is reading along its parts, one after the other; a key reads an object's field, an
      index an array's item, and nothing else reads anything. */
  lemma {:induction false} GetAlong(v: Json, p: Path, q: Path)
    ensures GetPath(v, p + q) == (if GetPath(v, p).Some? then GetPath(GetPath(v, p).value, q) else None)
    ensures GetPath(v, []) == Some(v)
    ensures p != [] && |p| == 1 ==> GetPath(v, p) == Step(v, p[0])
    decreases |p|
  {
    if p == [] {
      assert p + q == q;
    } else {
      assert (p + q)[1..] == p[1..] + q;
      if Step(v, p[0]).Some? {
        GetAlong(Step(v, p[0]).value, p[1..], q);
      }
    }
  }

  function Step(v: Json, seg: Segment): Option<Json> {
    if v.Obj? && seg.Key? && seg.key in v.fields then Some(v.fields[seg.key])
    else if v.Arr? && seg.Index? && seg.i < |v.items| then Some(v.items[seg.i])
    else None
  }

  /** A value in which the segment can be written: an object takes any key, an array only an index it has. */
  predicate Takes(v: Json, seg: Segment) {
    (v.Obj? && seg.Key?) || (v.Arr? && seg.Index? && seg.i < |v.items|)
  }

  /** Whatever stands on the way of the path takes its next segment, and where nothing stands any more, an
      index can only come last: the items of a created array are null and take nothing. */
  predicate Writable(v: Json, p: Path) {
    forall i | 0 <= i < |p| ::
      if GetPath(v, p[..i]).Some? then Takes(GetPath(v, p[..i]).value, p[i]) else p[i].Key? || i == |p| - 1
  }

  predicate Missing(p: Path) {
    forall i | 0 <= i < |p| :: p[i].Key? || i == |p| - 1
  }

  lemma WritableBelow(v: Json, p: Path)
    requires p != []
    ensures Writable(v, p) <==>
            Takes(v, p[0]) && (|p| > 1 ==> if Step(v, p[0]).Some? then Writable(Step(v, p[0]).value, p[1..]) else Missing(p[1..]))
  {
    assert GetPath(v, p[..0]) == Some(v);
    forall i | 1 <= i < |p|
      ensures GetPath(v, p[..i]) == if Step(v, p[0]).Some? then GetPath(Step(v, p[0]).value, p[1..][..i - 1]) else None
      ensures p[i] == p[1..][i - 1]
    {
      assert p[..i][1..] == p[1..][..i - 1];
    }
    if Writable(v, p) {
      forall i | 0 <= i < |p[1..]|
        ensures if Step(v, p[0]).None? then p[1..][i].Key? || i == |p[1..]| - 1
                else if GetPath(Step(v, p[0]).value, p[1..][..i]).Some? then Takes(GetPath(Step(v, p[0]).value, p[1..][..i]).value, p[1..][i])
                else p[1..][i].Key? || i == |p[1..]| - 1
      {
        assert GetPath(v, p[..i + 1]).Some? ==> Takes(GetPath(v, p[..i + 1]).value, p[i + 1]);
      }
    }
  }

  lemma {:induction false} CreatedIsWritable(p: Path)
    requires p != []
    ensures Writable(Created(p[0]), p) <==> Missing(p)
    decreases |p|
  {
    WritableBelow(Created(p[0]), p);
    if |p| > 1 && p[0].Index? {
      assert Step(Created(p[0]), p[0]) == Some(Null);
      WritableBelow(Null, p[1..]);
      assert !Missing(p);
    } else {
      assert Missing(p) <==> |p| == 1 || Missing(p[1..]) by {
        assert forall i | 1 <= i < |p| :: p[i] == p[1..][i - 1];
      }
    }
  }

  /** A write succeeds if and only if its path is writable. */
  lemma {:induction false} SetSucceedsExactly(v: Json, p: Path, x: Json)
    requires p != []
    ensures SetPath(v, p, x).Some? <==> Writable(v, p)
    decreases |p|
  {
    WritableBelow(v, p);
    if Takes(v, p[0]) && |p| > 1 {
      if Step(v, p[0]).Some? {
        SetSucceedsExactly(Step(v, p[0]).value, p[1..], x);
      } else {
        CreatedIsWritable(p[1..]);
        SetSucceedsExactly(Created(p[1]), p[1..], x);
      }
    }
  }

  /** The first place where two unrelated paths part. */
  predicate PartAt(p: Path, q: Path, i: nat) {
    i < |p| && i < |q| && p[..i] == q[..i] && p[i] != q[i]
  }

  /** What a write leaves at a path that parts from its own at `i`: what was there, if something stood there;
      in an array that the write created, null below its index; otherwise nothing. */
  lemma {:induction false} SetElsewhereExactly(v: Json, p: Path, q: Path, i: nat, x: Json)
    requires p != [] && SetPath(v, p, x).Some? && PartAt(p, q, i)
    ensures GetPath(SetPath(v, p, x).value, q) ==
            if GetPath(v, p[..i]).Some? then GetPath(v, q)
            else if p[i].Index? && q[i].Index? && q[i].i < p[i].i && |q| == i + 1 then Some(Null)
            else None
    decreases |p|
  {
    if i == 0 {
      assert p[..0] == [];
    } else {
      assert p[0] == p[..i][0] && q[0] == q[..i][0] && p[..i][1..] == p[1..][..i - 1] && q[..i][1..] == q[1..][..i - 1];
      assert PartAt(p[1..], q[1..], i - 1);
      if Step(v, p[0]).Some? {
        SetElsewhereExactly(Step(v, p[0]).value, p[1..], q[1..], i - 1, x);
      } else {
        SetElsewhereExactly(Created(p[1]), p[1..], q[1..], i - 1, x);
        CreatedReads(p[1..], q[1..], i - 1);
      }
    }
  }

  /** What a created container reads along a path that parts from the one it was created for. */
  lemma CreatedReads(p: Path, q: Path, i: nat)
    requires PartAt(p, q, i)
    ensures GetPath(Created(p[0]), p[..i]).Some? ==>
              i == 0 || (i == 1 && p[0].Index? && GetPath(Created(p[0]), p[..i]) == Some(Null))
    ensures i == 0 ==>
              GetPath(Created(p[0]), q) == if p[0].Index? && q[0].Index? && q[0].i < p[0].i && |q| == 1 then Some(Null) else None
    ensures i == 1 && p[0].Index? ==> GetPath(Created(p[0]), q) == None
  {
    if i > 0 {
      var head := p[..i];
      assert head[0] == p[0] && q[..i][0] == q[0];
      assert GetPath(Created(p[0]), head) == if p[0].Index? then GetPath(Null, head[1..]) else None;
      if i == 1 {
        assert head[1..] == [];
      } else {
        assert head[1..] != [];
      }
    }
  }

  /** A read that names a denied variable of the env snapshot; `denied` is the deny list. */
  predicate Refused(p: Path, denied: string -> bool) {
    |p| >= 2 && p[0] == Key(ENV_ROOT) && p[1].Key? && denied(p[1].key)
  }

  function Get(ctx: Context, path: string, denied: string -> bool): Option<Json> {
    match Parsed(path)
    case Err => None
    case Ok(p) => if Refused(p, denied) then None else GetPath(Obj(ctx), p)
  }

  function Set(ctx: Context, path: string, x: Json): Option<Context> {
    match Parsed(path)
    case Err => None
    case Ok(p) =>
      if p == [] then None
      else
        match SetPath(Obj(ctx), p, x)
        case Some(Obj(fields)) => Some(fields)
        case _ => None
  }

  /** Reading back a written path outside the env snapshot gives the value; unrelated paths
      that resolved before still resolve to the same value. */
  lemma SetAndGet(ctx: Context, path: string, x: Json, other: string, denied: string -> bool)
    requires Set(ctx, path, x).Some? && Parsed(path).value[0] != Key(ENV_ROOT)
    ensures Get(Set(ctx, path, x).value, path, denied) == Some(x)
    ensures Get(ctx, other, denied).Some? && Unrelated(Parsed(path).value, Parsed(other).value) ==>
              Get(Set(ctx, path, x).value, other, denied) == Get(ctx, other, denied)
  {
    var p := Parsed(path).value;
    SetThenGet(Obj(ctx), p, x);
    if Get(ctx, other, denied).Some? && Unrelated(p, Parsed(other).value) {
      SetFrames(Obj(ctx), p, Parsed(other).value, x);
    }
  }
}
