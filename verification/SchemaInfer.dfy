/** Inferring a JSON Schema from a sample value.

    Source: pkg/contextschema/schema.go:15-117. */
module SchemaInfer {
  import opened Strings
  import opened ContextPath

  const MAX_DEPTH: nat := 8

  const MAX_KEYS: nat := 50

  // ---- What a schema accepts (JSON Schema 2020-12, the keywords that inference uses) ----

  predicate HasType(v: Json, name: string) {
    match v
    case Null => name == "null"
    case Bool(_) => name == "boolean"
    case Num(_) => name == "number"
    case Str(_) => name == "string"
    case Arr(_) => name == "array"
    case Obj(_) => name == "object"
  }

  predicate Validates(schema: Json, v: Json) {
    schema.Obj? &&
    var m := schema.fields;
    && ("type" in m ==> m["type"].Str? && HasType(v, m["type"].s))
    && ("items" in m && v.Arr? ==> forall i | 0 <= i < |v.items| :: Validates(m["items"], v.items[i]))
    && ("anyOf" in m ==> m["anyOf"].Arr? && exists i | 0 <= i < |m["anyOf"].items| :: Validates(m["anyOf"].items[i], v))
    && ("properties" in m && v.Obj? ==>
          m["properties"].Obj? && forall k | k in m["properties"].fields && k in v.fields :: Validates(m["properties"].fields[k], v.fields[k]))
    && ("required" in m && v.Obj? ==>
          m["required"].Arr? && forall k | k in m["required"].items :: k.Str? && k.s in v.fields)
  }

  // ---- Inference ----

  /** The text a schema is identified and sorted by. */
  type Encoding = Json -> string

  ghost predicate Injective(encode: Encoding) {
    forall s, t :: encode(s) == encode(t) ==> s == t
  }

  function TypeOnly(name: string): Json {
    Obj(map["type" := Str(name)])
  }

  function ArrayOf(items: Json): Json {
    Obj(map["type" := Str("array"), "items" := items])
  }

  function OneOf(choices: seq<Json>): Json {
    if |choices| == 1 then choices[0] else Obj(map["anyOf" := Arr(choices)])
  }

  function Strs(keys: seq<string>): seq<Json> {
    seq(|keys|, i requires 0 <= i < |keys| => Str(keys[i]))
  }

  function ObjectOf(properties: map<string, Json>, keys: seq<string>): Json {
    Obj(map["type" := Str("object"), "properties" := Obj(properties), "required" := Arr(Strs(keys))])
  }

  function Truncated(keys: seq<string>): seq<string> {
    if |keys| > MAX_KEYS then keys[..MAX_KEYS] else keys
  }

  /** The keys that inference looks at: the first fifty in order. */
  ghost function Kept(m: map<string, Json>): seq<string> {
    Truncated(Order(m.Keys))
  }

  function WithText(schemas: seq<Json>, encode: Encoding, text: string): (r: Json)
    requires exists s | s in schemas :: encode(s) == text
    ensures r in schemas && encode(r) == text
  {
    if encode(schemas[0]) == text then schemas[0]
    else
      assert forall s | s in schemas :: s == schemas[0] || s in schemas[1..];
      WithText(schemas[1..], encode, text)
  }

  ghost function Texts(schemas: seq<Json>, encode: Encoding): set<string> {
    set s | s in schemas :: encode(s)
  }

  /** Each schema once, sorted by its text. */
  ghost function Choices(schemas: seq<Json>, encode: Encoding): seq<Json> {
    var texts := Order(Texts(schemas, encode));
    seq(|texts|, i requires 0 <= i < |texts| =>
      assert texts[i] in texts;
      WithText(schemas, encode, texts[i]))
  }

  ghost function Inferred(v: Json, depth: nat, encode: Encoding): Json {
    match v
    case Null => TypeOnly("null")
    case Str(_) => TypeOnly("string")
    case Bool(_) => TypeOnly("boolean")
    case Num(_) => TypeOnly("number")
    case Arr(items) =>
      if |items| == 0 || depth >= MAX_DEPTH then ArrayOf(Obj(map[]))
      else ArrayOf(OneOf(Choices(seq(|items|, i requires 0 <= i < |items| => Inferred(items[i], depth + 1, encode)), encode)))
    case Obj(m) =>
      if depth >= MAX_DEPTH || |m| == 0 then TypeOnly("object")
      else ObjectOf(map k | k in m && k in Kept(m) :: Inferred(m[k], depth + 1, encode), Kept(m))
  }

  method InferType(v: Json, depth: nat, encode: Encoding) returns (schema: Json)
    ensures schema == Inferred(v, depth, encode)
    decreases v, 1
  {
    match v
    case Null => return TypeOnly("null");
    case Str(_) => return TypeOnly("string");
    case Bool(_) => return TypeOnly("boolean");
    case Num(_) => return TypeOnly("number");
    case Arr(items) =>
      if |items| == 0 || depth >= MAX_DEPTH {
        return ArrayOf(Obj(map[]));
      }
      var choices := InferItems(v, depth, encode);
      return ArrayOf(OneOf(choices));
    case Obj(m) =>
      if depth >= MAX_DEPTH || |m| == 0 {
        return TypeOnly("object");
      }
      schema := InferProperties(v, depth, encode);
  }

  ghost function ItemSchemas(items: seq<Json>, depth: nat, encode: Encoding): seq<Json> {
    seq(|items|, i requires 0 <= i < |items| => Inferred(items[i], depth + 1, encode))
  }

  method InferItems(v: Json, depth: nat, encode: Encoding) returns (choices: seq<Json>)
    requires v.Arr?
    ensures choices == Choices(ItemSchemas(v.items, depth, encode), encode)
    decreases v, 0
  {
    var seen: map<string, Json> := map[];
    var order: seq<string> := [];
    ghost var schemas := ItemSchemas(v.items, depth, encode);
    for n := 0 to |v.items|
      invariant SeenFirst(schemas[..n], encode, seen, order)
    {
      var s := InferType(v.items[n], depth + 1, encode);
      assert schemas[..n + 1] == schemas[..n] + [s];
      SeenOneMore(schemas[..n], encode, seen, order, s);
      if encode(s) !in seen {
        order := order + [encode(s)];
        seen := seen[encode(s) := s];
      }
    }
    assert schemas[..|v.items|] == schemas;
    choices := Sorted(seen, order, schemas, encode);
  }

  method Sorted(seen: map<string, Json>, order: seq<string>, ghost schemas: seq<Json>, encode: Encoding) returns (choices: seq<Json>)
    requires SeenFirst(schemas, encode, seen, order)
    ensures choices == Choices(schemas, encode)
  {
    var texts := SortStrings(order);
    AscendingIsUnique(texts, Order(Texts(schemas, encode)));
    choices := [];
    for n := 0 to |texts|
      invariant |choices| == n && forall i | 0 <= i < n :: texts[i] in seen && choices[i] == seen[texts[i]]
    {
      assert texts[n] in texts;
      choices := choices + [seen[texts[n]]];
    }
  }

  /** `seen` holds, under each text, the first schema with that text; `order` lists the texts once. */
  ghost predicate SeenFirst(schemas: seq<Json>, encode: Encoding, seen: map<string, Json>, order: seq<string>) {
    && seen.Keys == Texts(schemas, encode)
    && Distinct(order) && (forall text :: text in order <==> text in seen)
    && forall text | text in seen :: (exists s | s in schemas :: encode(s) == text) && seen[text] == WithText(schemas, encode, text)
  }

  lemma SeenOneMore(schemas: seq<Json>, encode: Encoding, seen: map<string, Json>, order: seq<string>, s: Json)
    requires SeenFirst(schemas, encode, seen, order)
    ensures encode(s) in seen ==> SeenFirst(schemas + [s], encode, seen, order)
    ensures encode(s) !in seen ==> SeenFirst(schemas + [s], encode, seen[encode(s) := s], order + [encode(s)])
  {
    assert Texts(schemas + [s], encode) == Texts(schemas, encode) + {encode(s)};
    var seen' := if encode(s) in seen then seen else seen[encode(s) := s];
    forall text | text in seen'
      ensures (exists t | t in schemas + [s] :: encode(t) == text) && seen'[text] == WithText(schemas + [s], encode, text)
    {
      assert s in schemas + [s];
      FirstStays(schemas, encode, text, s);
    }
  }

  lemma {:induction false} FirstStays(schemas: seq<Json>, encode: Encoding, text: string, s: Json)
    ensures (exists t | t in schemas :: encode(t) == text) ==>
              (exists t | t in schemas + [s] :: encode(t) == text) && WithText(schemas + [s], encode, text) == WithText(schemas, encode, text)
    ensures !(exists t | t in schemas :: encode(t) == text) && encode(s) == text ==>
              s in schemas + [s] && WithText(schemas + [s], encode, text) == s
    decreases |schemas|
  {
    assert s in schemas + [s];
    if schemas != [] {
      assert (schemas + [s])[1..] == schemas[1..] + [s];
      FirstStays(schemas[1..], encode, text, s);
      assert schemas[0] in schemas && forall t :: t in schemas <==> t == schemas[0] || t in schemas[1..];
    }
  }

  method KeptKeys(m: map<string, Json>) returns (keys: seq<string>)
    ensures keys == Kept(m) && forall k | k in keys :: k in m
  {
    keys := SortedKeys(m.Keys);
    AscendingIsUnique(keys, Order(m.Keys));
    KeptAreKeys(m);
    keys := Truncated(keys);
  }

  ghost function SchemasOf(m: map<string, Json>, keys: seq<string>, depth: nat, encode: Encoding): map<string, Json> {
    map k | k in m && k in keys :: Inferred(m[k], depth + 1, encode)
  }

  lemma OneMoreKey(m: map<string, Json>, keys: seq<string>, n: nat, depth: nat, encode: Encoding)
    requires n < |keys| && keys[n] in m
    ensures SchemasOf(m, keys[..n + 1], depth, encode) ==
            SchemasOf(m, keys[..n], depth, encode)[keys[n] := Inferred(m[keys[n]], depth + 1, encode)]
  {
    assert keys[..n + 1] == keys[..n] + [keys[n]];
  }

  method InferProperties(v: Json, depth: nat, encode: Encoding) returns (schema: Json)
    requires v.Obj? && depth < MAX_DEPTH && |v.fields| > 0
    ensures schema == Inferred(v, depth, encode)
    decreases v, 0
  {
    var keys := KeptKeys(v.fields);
    var props: map<string, Json> := map[];
    for n := 0 to |keys|
      invariant props == SchemasOf(v.fields, keys[..n], depth, encode)
    {
      assert keys[n] in keys;
      var s := InferType(v.fields[keys[n]], depth + 1, encode);
      OneMoreKey(v.fields, keys, n, depth, encode);
      props := props[keys[n] := s];
    }
    assert keys[..|keys|] == keys;
    schema := ObjectOf(props, keys);
  }

  /** The schema of a whole snapshot: unconstrained unless the snapshot is an object with keys. */
  method InferJSONSchema(v: Json, encode: Encoding) returns (schema: Json)
    ensures schema == if v.Obj? && |v.fields| > 0 then Inferred(v, 0, encode) else Obj(map[])
  {
    var out := InferType(v, 0, encode);
    if !out.Obj? || "properties" !in out.fields {
      return Obj(map[]);
    }
    schema := out;
  }

  // ---- What the inferred schema means ----

  /** `w` has the shape of the sample `v`: the same scalar type; an array whose elements each look
      like some element of the sample; an object with the sample's kept keys, each alike. */
  ghost predicate Resembles(v: Json, w: Json, depth: nat)
    decreases v, 1
  {
    match v
    case Null => w.Null?
    case Str(_) => w.Str?
    case Bool(_) => w.Bool?
    case Num(_) => w.Num?
    case Arr(items) =>
      w.Arr? && (|items| == 0 || depth >= MAX_DEPTH ||
        forall j | 0 <= j < |w.items| :: ResemblesSome(v, w.items[j], depth))
    case Obj(m) =>
      w.Obj? && (depth >= MAX_DEPTH || forall k | k in m && k in Kept(m) :: k in w.fields && Resembles(m[k], w.fields[k], depth + 1))
  }

  ghost predicate ResemblesSome(v: Json, w: Json, depth: nat)
    requires v.Arr?
    decreases v, 0
  {
    exists i | 0 <= i < |v.items| :: Resembles(v.items[i], w, depth + 1)
  }

  lemma OneOfAccepts(choices: seq<Json>, w: Json)
    requires choices != []
    ensures Validates(OneOf(choices), w) <==> exists i | 0 <= i < |choices| :: Validates(choices[i], w)
  {
    if |choices| > 1 {
      var schema := OneOf(choices);
      assert schema.fields["anyOf"].items == choices;
    }
  }

  lemma ChoicesAreTheSchemas(schemas: seq<Json>, encode: Encoding)
    requires Injective(encode)
    ensures forall s :: s in Choices(schemas, encode) <==> s in schemas
    ensures schemas != [] ==> Choices(schemas, encode) != []
    ensures forall i, j | 0 <= i < j < |Choices(schemas, encode)| :: Choices(schemas, encode)[i] != Choices(schemas, encode)[j]
  {
    var texts := Order(Texts(schemas, encode));
    var choices := Choices(schemas, encode);
    forall s | s in schemas
      ensures s in choices
    {
      assert encode(s) in texts;
      var i :| 0 <= i < |texts| && texts[i] == encode(s);
      assert choices[i] == s;
    }
    if schemas != [] {
      assert schemas[0] in choices;
    }
    forall i, j | 0 <= i < j < |choices|
      ensures choices[i] != choices[j]
    {
      assert texts[i] in texts && texts[j] in texts;
      assert encode(choices[i]) == texts[i] && encode(choices[j]) == texts[j];
    }
  }

  /** The inferred schema accepts exactly the values that have the sample's shape. */
  lemma {:induction false} AcceptsExactlyTheShape(v: Json, w: Json, depth: nat, encode: Encoding)
    requires Injective(encode)
    ensures Validates(Inferred(v, depth, encode), w) <==> Resembles(v, w, depth)
    decreases v, 2
  {
    match v
    case Arr(_) => ArrayShape(v, w, depth, encode);
    case Obj(_) => ObjectShape(v, w, depth, encode);
    case _ =>
  }

  lemma {:induction false} ArrayShape(v: Json, w: Json, depth: nat, encode: Encoding)
    requires Injective(encode) && v.Arr?
    ensures Validates(Inferred(v, depth, encode), w) <==> Resembles(v, w, depth)
    decreases v, 1
  {
    if |v.items| > 0 && depth < MAX_DEPTH && w.Arr? {
      var choices := Choices(ItemSchemas(v.items, depth, encode), encode);
      forall j | 0 <= j < |w.items|
        ensures Validates(OneOf(choices), w.items[j]) <==> ResemblesSome(v, w.items[j], depth)
      {
        ItemAccepted(v, w.items[j], depth, encode);
      }
      ArrayAccepted(choices, w);
      assert Inferred(v, depth, encode) == ArrayOf(OneOf(choices));
    }
  }

  lemma {:induction false} ObjectShape(v: Json, w: Json, depth: nat, encode: Encoding)
    requires Injective(encode) && v.Obj?
    ensures Validates(Inferred(v, depth, encode), w) <==> Resembles(v, w, depth)
    decreases v, 0
  {
    var m := v.fields;
    if depth < MAX_DEPTH && |m| > 0 && w.Obj? {
      forall k | k in m && k in w.fields
        ensures Validates(Inferred(m[k], depth + 1, encode), w.fields[k]) <==> Resembles(m[k], w.fields[k], depth + 1)
      {
        AcceptsExactlyTheShape(m[k], w.fields[k], depth + 1, encode);
      }
      KeptAreKeys(m);
      ObjectAccepted(SchemasOf(m, Kept(m), depth, encode), Kept(m), w);
      assert Inferred(v, depth, encode) == ObjectOf(SchemasOf(m, Kept(m), depth, encode), Kept(m));
    }
  }

  lemma {:induction false} ItemAccepted(v: Json, w: Json, depth: nat, encode: Encoding)
    requires Injective(encode) && v.Arr? && v.items != []
    ensures Validates(OneOf(Choices(ItemSchemas(v.items, depth, encode), encode)), w) <==> ResemblesSome(v, w, depth)
    decreases v, 0
  {
    var schemas := ItemSchemas(v.items, depth, encode);
    ChoicesAreTheSchemas(schemas, encode);
    OneOfAccepts(Choices(schemas, encode), w);
    forall i | 0 <= i < |v.items|
      ensures schemas[i] in schemas && (Validates(schemas[i], w) <==> Resembles(v.items[i], w, depth + 1))
    {
      AcceptsExactlyTheShape(v.items[i], w, depth + 1, encode);
    }
    SomeMember(Choices(schemas, encode), schemas, w);
  }

  lemma SomeMember(choices: seq<Json>, schemas: seq<Json>, w: Json)
    requires forall s :: s in choices <==> s in schemas
    ensures (exists i | 0 <= i < |choices| :: Validates(choices[i], w)) <==> (exists i | 0 <= i < |schemas| :: Validates(schemas[i], w))
  {
    forall i | 0 <= i < |choices| ensures choices[i] in schemas { assert choices[i] in choices; }
    forall i | 0 <= i < |schemas| ensures schemas[i] in choices { assert schemas[i] in schemas; }
  }

  lemma ArrayAccepted(choices: seq<Json>, w: Json)
    requires w.Arr?
    ensures Validates(ArrayOf(OneOf(choices)), w) <==> forall j | 0 <= j < |w.items| :: Validates(OneOf(choices), w.items[j])
  {
  }

  lemma ObjectAccepted(props: map<string, Json>, keys: seq<string>, w: Json)
    requires w.Obj? && forall k :: k in props <==> k in keys
    ensures Validates(ObjectOf(props, keys), w) <==> forall k | k in props :: k in w.fields && Validates(props[k], w.fields[k])
  {
    var required := ObjectOf(props, keys).fields["required"];
    assert required.items == Strs(keys);
    forall k | k in keys
      ensures Str(k) in Strs(keys)
    {
      var i :| 0 <= i < |keys| && keys[i] == k;
      assert Strs(keys)[i] == Str(k);
    }
    forall s | s in Strs(keys)
      ensures s.Str? && s.s in keys
    {
    }
  }

  lemma KeptAreKeys(m: map<string, Json>)
    ensures forall k | k in Kept(m) :: k in m
    ensures |Kept(m)| <= MAX_KEYS && (|Order(m.Keys)| <= MAX_KEYS ==> forall k | k in m :: k in Kept(m))
  {
    assert forall k | k in Kept(m) :: k in Order(m.Keys);
  }

  /** The kept keys are the first fifty of an object in ascending order, or all when there are no more. */
  lemma KeptAreTheFirst(m: map<string, Json>)
    ensures |Kept(m)| == (if |m| < MAX_KEYS then |m| else MAX_KEYS) && Ascending(Kept(m))
    ensures forall k, j | k in Kept(m) && j in m && j !in Kept(m) :: Less(k, j)
  {
    var keys := Order(m.Keys);
    OrderCounts(keys, m.Keys);
    forall i | 0 <= i < |Kept(m)|
      ensures keys[i] == Kept(m)[i] && keys[i] in Kept(m)
    {
    }
    forall k, j | k in Kept(m) && j in m && j !in Kept(m)
      ensures Less(k, j)
    {
      var a :| 0 <= a < |Kept(m)| && Kept(m)[a] == k;
      assert j in keys;
      var b :| 0 <= b < |keys| && keys[b] == j;
      assert Less(keys[a], keys[b]);
    }
  }

  lemma {:induction false} OrderCounts(keys: seq<string>, s: set<string>)
    requires Enumerates(keys, s)
    ensures |keys| == |s|
    decreases |keys|
  {
    if keys != [] {
      var n := |keys| - 1;
      assert keys == keys[..n] + [keys[n]];
      assert forall x | x in keys[..n] :: x != keys[n];
      OrderCounts(keys[..n], s - {keys[n]});
    } else {
      assert s == {};
    }
  }

  lemma {:induction false} ResemblesItself(v: Json, depth: nat)
    ensures Resembles(v, v, depth)
    decreases v
  {
    match v
    case Arr(items) =>
      forall j | 0 <= j < |items| ensures ResemblesSome(v, items[j], depth) { ResemblesItself(items[j], depth + 1); }
    case Obj(m) =>
      forall k | k in m ensures Resembles(m[k], m[k], depth + 1) { ResemblesItself(m[k], depth + 1); }
    case _ =>
  }

  /** Every value validates against the schema inferred from it. */
  lemma InferenceIsSound(v: Json, depth: nat, encode: Encoding)
    requires Injective(encode)
    ensures Validates(Inferred(v, depth, encode), v)
  {
    ResemblesItself(v, depth);
    AcceptsExactlyTheShape(v, v, depth, encode);
  }
}
