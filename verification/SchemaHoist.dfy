/** Moving an author schema's own $defs into the node envelope and repointing its references.

    Source: internal/workflow/model/nodeschema.go:53-102, 235-324 and 352-368. */
module SchemaHoist {
  import opened Wrappers
  import opened ContextPath

  const ROOT := "#/$defs/"

  const PREFIX := "config_"

  /** The names every envelope defines on its own account. */
  const SHARED_NAMES: set<string> := {"nodeId", "duration", "contextKey", "keys", "hook", "failureRoute"}

  // ---- What a reference means ----

  function TokenEnd(p: string): (n: nat)
    ensures n <= |p|
  {
    if p == "" || p[0] == '/' then 0 else 1 + TokenEnd(p[1..])
  }

  function Unescaped(token: string): string {
    if |token| < 2 || token[0] != '~' then if token == "" then "" else [token[0]] + Unescaped(token[1..])
    else if token[1] == '0' then "~" + Unescaped(token[2..])
    else if token[1] == '1' then "/" + Unescaped(token[2..])
    else [token[0]] + Unescaped(token[1..])
  }

  /** The value a JSON Pointer leads to (RFC 6901), through objects. */
  function At(doc: Json, pointer: string): Option<Json>
    decreases |pointer|
  {
    if pointer == "" then Some(doc)
    else if pointer[0] != '/' || !doc.Obj? then None
    else
      var n := TokenEnd(pointer[1..]);
      var token := Unescaped(pointer[1..n + 1]);
      if token in doc.fields then At(doc.fields[token], pointer[n + 1..]) else None
  }

  /** A reference inside the document: "#" followed by a pointer from the document's root. */
  function Resolve(doc: Json, ref: string): Option<Json> {
    if ref != "" && ref[0] == '#' then At(doc, ref[1..]) else None
  }

  /** What a schema says once references have been followed `n` deep. */
  datatype Meaning =
    | Leaf(value: Json)
    | Elements(elements: seq<Meaning>)
    | Members(members: map<string, Meaning>)
    | Dangling
    | Deeper
    | Target(target: Meaning)

  function Unfold(doc: Json, node: Json, n: nat): Meaning
    decreases n, node, 0
  {
    match node
    case Arr(items) => Elements(seq(|items|, i requires 0 <= i < |items| => Unfold(doc, items[i], n)))
    case Obj(m) => Members(map k | k in m :: Member(doc, k, m[k], n))
    case _ => Leaf(node)
  }

  function Member(doc: Json, k: string, value: Json, n: nat): Meaning
    decreases n, value, 1
  {
    if k != "$ref" || !value.Str? then Unfold(doc, value, n)
    else match Resolve(doc, value.s)
      case None => Dangling
      case Some(t) => if n == 0 then Deeper else Target(Unfold(doc, t, n - 1))
  }

  // ---- Rewriting and hoisting ----

  function RewrittenRef(value: Json, own: set<string>): Json {
    if value.Str? && ROOT <= value.s && value.s[|ROOT|..] in own then Str(ROOT + PREFIX + value.s[|ROOT|..])
    else value
  }

  function Rewritten(node: Json, own: set<string>): Json {
    match node
    case Arr(items) => Arr(seq(|items|, i requires 0 <= i < |items| => Rewritten(items[i], own)))
    case Obj(m) => Obj(map k | k in m :: if k == "$ref" then RewrittenRef(m[k], own) else Rewritten(m[k], own))
    case _ => node
  }

  function OwnDefs(cfg: Context): Context {
    if "$defs" in cfg && cfg["$defs"].Obj? then cfg["$defs"].fields else map[]
  }

  function Body(cfg: Context): Context {
    cfg - {"$defs"}
  }

  predicate HoistedName(k: string, defs: Context) {
    PREFIX <= k && k[|PREFIX|..] in defs
  }

  /** A definition as it ends up in the envelope. The walk does not descend below a key "$ref", so a
      definition of that name is moved but not rewritten. */
  function HoistedDef(name: string, def: Json, own: set<string>): Json {
    if name == "$ref" then def else Rewritten(def, own)
  }

  /** The definitions of an envelope that has received `moved`, out of an author's definitions `own`. */
  function EnvelopeDefs(shared: Context, moved: Context, own: set<string>): Context {
    map k | k in shared.Keys + (set name | name in moved :: PREFIX + name) ::
      if HoistedName(k, moved) then HoistedDef(k[|PREFIX|..], moved[k[|PREFIX|..]], own) else shared[k]
  }

  function HoistedConfig(cfg: Context): Context {
    if OwnDefs(cfg) == map[] then cfg else Rewritten(Obj(Body(cfg)), OwnDefs(cfg).Keys).fields
  }

  method HoistConfigDefs(cfg: Context, shared: Context) returns (config: Context, defs: Context)
    ensures config == HoistedConfig(cfg) && defs == EnvelopeDefs(shared, OwnDefs(cfg), OwnDefs(cfg).Keys)
  {
    NothingMoved(shared, {});
    if "$defs" !in cfg || !cfg["$defs"].Obj? || |cfg["$defs"].fields| == 0 {
      return cfg, shared;
    }
    var authored := cfg["$defs"].fields;
    defs := MoveDefs(authored, shared);
    config := Rewritten(Obj(cfg - {"$defs"}), authored.Keys).fields;
  }

  method MoveDefs(authored: Context, shared: Context) returns (defs: Context)
    ensures defs == EnvelopeDefs(shared, authored, authored.Keys)
  {
    defs := shared;
    var todo := authored.Keys;
    ghost var moved: Context := map[];
    NothingMoved(shared, authored.Keys);
    while todo != {}
      invariant todo <= authored.Keys && moved.Keys == authored.Keys - todo
      invariant forall name | name in moved :: moved[name] == authored[name]
      invariant defs == EnvelopeDefs(shared, moved, authored.Keys)
    {
      var name :| name in todo;
      MovedOne(shared, moved, authored.Keys, name, authored[name]);
      defs := defs[PREFIX + name := HoistedDef(name, authored[name], authored.Keys)];
      moved := moved[name := authored[name]];
      todo := todo - {name};
    }
    assert moved == authored;
  }

  lemma NothingMoved(shared: Context, own: set<string>)
    ensures EnvelopeDefs(shared, map[], own) == shared
  {
  }

  lemma MovedOne(shared: Context, moved: Context, own: set<string>, name: string, def: Json)
    ensures EnvelopeDefs(shared, moved[name := def], own) ==
            EnvelopeDefs(shared, moved, own)[PREFIX + name := HoistedDef(name, def, own)]
  {
    assert (PREFIX + name)[|PREFIX|..] == name;
    var before, after := EnvelopeDefs(shared, moved, own), EnvelopeDefs(shared, moved[name := def], own);
    assert after.Keys == before.Keys + {PREFIX + name};
    forall k | k in after
      ensures after[k] == before[PREFIX + name := HoistedDef(name, def, own)][k]
    {
      if k != PREFIX + name && HoistedName(k, moved[name := def]) {
        assert k == PREFIX + k[|PREFIX|..];
      }
    }
  }

  /** The node schema served for a custom type; `common` are the properties every node shares. */
  function Envelope(nodeType: string, title: string, description: string, common: Context, config: Context, defs: Context): Json {
    Obj(map["$schema" := Str("https://json-schema.org/draft/2020-12/schema"),
            "type" := Str("object"), "title" := Str(title), "description" := Str(description),
            "properties" := Obj(common["type" := Obj(map["const" := Str(nodeType)])]["config" := Obj(config)]),
            "required" := Arr([Str("type"), Str("config")]),
            "additionalProperties" := Bool(false),
            "$defs" := Obj(defs)])
  }

  // ---- When hoisting preserves meaning ----

  /** A definition name that a pointer token spells as itself. */
  predicate Plain(name: string) {
    '/' !in name && '~' !in name && '%' !in name
  }

  predicate IsDefRef(value: Json) {
    value.Str? && ROOT <= value.s && Plain(value.s[|ROOT|..])
  }

  function Referred(value: Json): string
    requires IsDefRef(value)
  {
    value.s[|ROOT|..]
  }

  /** How a reference reads in the envelope, where the walk reaches it or not. */
  function RefAfter(ref: Json, own: set<string>, reached: bool): string
    requires ref.Str?
  {
    if reached then RewrittenRef(ref, own).s else ref.s
  }

  /** Every reference that is not to a plain root definition passes `test`, as it reads before and after.
      The walk reaches nothing below a key "$ref" whose value is no string, such as a property of that name. */
  predicate OtherRefs(node: Json, own: set<string>, reached: bool, test: (string, string) -> bool) {
    match node
    case Arr(items) => forall i | 0 <= i < |items| :: OtherRefs(items[i], own, reached, test)
    case Obj(m) => forall k | k in m ::
      if k == "$ref" && m[k].Str? then IsDefRef(m[k]) || test(m[k].s, RefAfter(m[k], own, reached))
      else OtherRefs(m[k], own, reached && k != "$ref", test)
    case _ => true
  }

  /** A reference that leads nowhere in either document; to something in both or in neither; in one at most. */
  function Dangle(doc: Json, env: Json): (string, string) -> bool {
    (ref, after) => Resolve(doc, ref).None? && Resolve(env, after).None?
  }

  function Agree(doc: Json, env: Json): (string, string) -> bool {
    (ref, after) => Resolve(doc, ref).None? <==> Resolve(env, after).None?
  }

  function Apart(doc: Json, env: Json): (string, string) -> bool {
    (ref, after) => Resolve(doc, ref).None? || Resolve(env, after).None?
  }

  lemma {:induction false} UnreachedIsTheSame(node: Json, own: set<string>, test: (string, string) -> bool)
    requires RefersToNone(node, own)
    ensures OtherRefs(node, own, true, test) <==> OtherRefs(node, own, false, test)
  {
    match node
    case Arr(items) =>
      forall i | 0 <= i < |items| ensures OtherRefs(items[i], own, true, test) <==> OtherRefs(items[i], own, false, test) {
        UnreachedIsTheSame(items[i], own, test);
      }
    case Obj(m) =>
      forall k | k in m && !(k == "$ref" && m[k].Str?)
        ensures OtherRefs(m[k], own, true, test) <==> OtherRefs(m[k], own, false, test)
      {
        UnreachedIsTheSame(m[k], own, test);
      }
    case _ =>
  }

  lemma {:induction false} OthersDangle(node: Json, own: set<string>, reached: bool, doc: Json, env: Json)
    ensures OtherRefs(node, own, reached, Agree(doc, env)) && OtherRefs(node, own, reached, Apart(doc, env)) ==>
              OtherRefs(node, own, reached, Dangle(doc, env))
  {
    match node
    case Arr(items) =>
      forall i | 0 <= i < |items| { OthersDangle(items[i], own, reached, doc, env); }
    case Obj(m) =>
      forall k | k in m { OthersDangle(m[k], own, reached && k != "$ref", doc, env); }
    case _ =>
  }

  /** No name the author refers to without defining it is one that the envelope defines. */
  predicate Uncaptured(node: Json, own: set<string>, provided: set<string>) {
    match node
    case Arr(items) => forall i | 0 <= i < |items| :: Uncaptured(items[i], own, provided)
    case Obj(m) => forall k | k in m ::
      if k == "$ref" && m[k].Str? then (IsDefRef(m[k]) ==> Referred(m[k]) in own || Referred(m[k]) !in provided)
      else Uncaptured(m[k], own, provided)
    case _ => true
  }

  predicate IsOwnRef(value: Json, own: set<string>) {
    value.Str? && ROOT <= value.s && value.s[|ROOT|..] in own
  }

  /** No reference to a name in `names`, at any depth. */
  predicate RefersToNone(node: Json, names: set<string>) {
    match node
    case Arr(items) => forall i | 0 <= i < |items| :: RefersToNone(items[i], names)
    case Obj(m) => forall k | k in m ::
      if k == "$ref" && m[k].Str? then !IsOwnRef(m[k], names) else RefersToNone(m[k], names)
    case _ => true
  }

  /** No reference to a name in `names` stands below a key "$ref" whose value is not a string. */
  predicate Unshadowed(node: Json, names: set<string>) {
    match node
    case Arr(items) => forall i | 0 <= i < |items| :: Unshadowed(items[i], names)
    case Obj(m) => forall k | k in m ::
      if k == "$ref" then m[k].Str? || RefersToNone(m[k], names) else Unshadowed(m[k], names)
    case _ => true
  }

  // ---- When every reference is repointed ----

  /** `after` has `node`'s shape, and each reference of `node` to an own definition, at any depth, points to
      the hoisted definition in `after`. */
  predicate Repointed(node: Json, after: Json, own: set<string>) {
    match node
    case Arr(items) => after.Arr? && |after.items| == |items| && forall i | 0 <= i < |items| :: Repointed(items[i], after.items[i], own)
    case Obj(m) => after.Obj? && after.fields.Keys == m.Keys && forall k | k in m ::
      if k == "$ref" && m[k].Str? then (IsOwnRef(m[k], own) ==> after.fields[k] == Str(ROOT + PREFIX + m[k].s[|ROOT|..]))
      else Repointed(m[k], after.fields[k], own)
    case _ => true
  }

  lemma {:induction false} UnchangedIsRepointed(node: Json, own: set<string>)
    ensures Repointed(node, node, own) <==> RefersToNone(node, own)
  {
    match node
    case Arr(items) =>
      forall i | 0 <= i < |items|
        ensures Repointed(items[i], items[i], own) <==> RefersToNone(items[i], own)
      {
        UnchangedIsRepointed(items[i], own);
      }
    case Obj(m) =>
      forall k | k in m
        ensures k == "$ref" && m[k].Str? && IsOwnRef(m[k], own) ==> m[k] != Str(ROOT + PREFIX + m[k].s[|ROOT|..])
        ensures !(k == "$ref" && m[k].Str?) ==> (Repointed(m[k], m[k], own) <==> RefersToNone(m[k], own))
      {
        if k == "$ref" && m[k].Str? {
          assert IsOwnRef(m[k], own) ==> |ROOT + PREFIX + m[k].s[|ROOT|..]| != |m[k].s|;
        } else {
          UnchangedIsRepointed(m[k], own);
        }
      }
    case _ =>
  }

  /** The rewriting walk repoints every reference to an own definition if and only if none stands below a
      key "$ref" whose value is not a string. */
  lemma {:induction false} RepointsExactly(node: Json, own: set<string>)
    ensures Repointed(node, Rewritten(node, own), own) <==> Unshadowed(node, own)
  {
    var after := Rewritten(node, own);
    match node
    case Arr(items) =>
      forall i | 0 <= i < |items|
        ensures Repointed(items[i], after.items[i], own) <==> Unshadowed(items[i], own)
      {
        RepointsExactly(items[i], own);
      }
    case Obj(m) =>
      forall k | k in m
        ensures k != "$ref" ==> (Repointed(m[k], after.fields[k], own) <==> Unshadowed(m[k], own))
        ensures k == "$ref" && !m[k].Str? ==> (Repointed(m[k], after.fields[k], own) <==> RefersToNone(m[k], own))
      {
        if k != "$ref" {
          RepointsExactly(m[k], own);
        } else {
          UnchangedIsRepointed(m[k], own);
        }
      }
    case _ =>
  }

  /** The definition `name` is repointed: the one called "$ref" is not rewritten at all. */
  predicate DefUnshadowed(name: string, def: Json, own: set<string>) {
    if name == "$ref" then RefersToNone(def, own) else Unshadowed(def, own)
  }

  predicate NothingShadowed(cfg: Context) {
    && Unshadowed(Obj(Body(cfg)), OwnDefs(cfg).Keys)
    && forall name | name in OwnDefs(cfg) :: DefUnshadowed(name, OwnDefs(cfg)[name], OwnDefs(cfg).Keys)
  }

  /** Hoisting repoints every reference to an own definition, in the schema and in each definition, if and
      only if nothing is shadowed. */
  lemma HoistingRepointsExactly(cfg: Context)
    ensures var own := OwnDefs(cfg);
            (Repointed(Obj(Body(cfg)), Obj(Body(HoistedConfig(cfg))), own.Keys)
             && forall name | name in own :: Repointed(own[name], HoistedDef(name, own[name], own.Keys), own.Keys))
            <==> NothingShadowed(cfg)
  {
    var own := OwnDefs(cfg);
    HoistedBody(cfg);
    RepointsExactly(Obj(Body(cfg)), own.Keys);
    forall name | name in own
      ensures Repointed(own[name], HoistedDef(name, own[name], own.Keys), own.Keys) <==> DefUnshadowed(name, own[name], own.Keys)
    {
      RepointsExactly(own[name], own.Keys);
      UnchangedIsRepointed(own[name], own.Keys);
    }
  }

  // ---- How references resolve ----

  lemma {:induction false} PlainToken(name: string)
    requires Plain(name)
    ensures TokenEnd(name) == |name| && Unescaped(name) == name
    decreases |name|
  {
    if name != "" {
      assert name == [name[0]] + name[1..];
      PlainToken(name[1..]);
    }
  }

  lemma PointerStep(doc: Context, token: string, rest: string)
    requires Plain(token) && (rest == "" || rest[0] == '/')
    ensures At(Obj(doc), "/" + token + rest) == if token in doc then At(doc[token], rest) else None
  {
    var p := "/" + token + rest;
    assert p[1..] == token + rest;
    if rest == "" {
      assert token + rest == token;
    } else {
      assert token + rest == token + "/" + rest[1..];
      TokenAtSlash(token, rest[1..]);
    }
    PlainToken(token);
    assert p[1..|token| + 1] == token && p[|token| + 1..] == rest;
  }

  /** A reference to a plain root definition resolves exactly to that definition. */
  lemma DefResolves(doc: Context, name: string)
    requires Plain(name)
    ensures Resolve(Obj(doc), ROOT + name) == if name in OwnDefs(doc) then Some(OwnDefs(doc)[name]) else None
  {
    assert (ROOT + name)[1..] == "/" + "$defs" + ("/" + name + "");
    PointerStep(doc, "$defs", "/" + name + "");
    if "$defs" in doc && doc["$defs"].Obj? {
      PointerStep(doc["$defs"].fields, name, "");
    }
  }

  lemma {:induction false} TokenAtSlash(token: string, rest: string)
    requires Plain(token)
    ensures TokenEnd(token + "/" + rest) == |token|
    decreases |token|
  {
    var p := token + "/" + rest;
    if token != "" {
      assert p[1..] == token[1..] + "/" + rest;
      TokenAtSlash(token[1..], rest);
    }
  }

  lemma {:induction false} NothingToRewrite(node: Json, own: set<string>)
    requires RefersToNone(node, own)
    ensures Rewritten(node, own) == node && Unshadowed(node, own)
  {
    match node
    case Arr(items) =>
      forall i | 0 <= i < |items| ensures Rewritten(items[i], own) == items[i] && Unshadowed(items[i], own) {
        NothingToRewrite(items[i], own);
      }
    case Obj(m) =>
      forall k | k in m ensures k != "$ref" ==> Rewritten(m[k], own) == m[k] && Unshadowed(m[k], own) {
        if k != "$ref" {
          NothingToRewrite(m[k], own);
        }
      }
      assert Rewritten(node, own).fields == m;
    case _ =>
  }

  /** How references to plain root definitions resolve before (`doc`) and after (`env`) hoisting. */
  ghost predicate Hoisting(doc: Json, env: Json, defs: Context, provided: set<string>) {
    forall name | Plain(name) ::
      && Resolve(doc, ROOT + name) == (if name in defs then Some(defs[name]) else None)
      && (name in defs ==> Resolve(env, ROOT + PREFIX + name) == Some(HoistedDef(name, defs[name], defs.Keys)))
      && (Resolve(env, ROOT + name).Some? <==> name in provided)
  }

  predicate IsClean(doc: Json, env: Json, node: Json, own: set<string>, provided: set<string>) {
    OtherRefs(node, own, true, Dangle(doc, env)) && Uncaptured(node, own, provided) && Unshadowed(node, own)
  }

  predicate DefIsClean(doc: Json, env: Json, name: string, def: Json, own: set<string>, provided: set<string>) {
    OtherRefs(def, own, name != "$ref", Dangle(doc, env)) && Uncaptured(def, own, provided) && DefUnshadowed(name, def, own)
  }

  ghost predicate DefsAreClean(doc: Json, env: Json, defs: Context, provided: set<string>) {
    forall name | name in defs :: DefIsClean(doc, env, name, defs[name], defs.Keys, provided)
  }

  // ---- Clean schemas keep their meaning ----

  lemma {:induction false} OwnRefKept(doc: Json, env: Json, defs: Context, provided: set<string>, ref: Json, n: nat)
    requires Hoisting(doc, env, defs, provided) && DefsAreClean(doc, env, defs, provided)
    requires IsDefRef(ref) && Referred(ref) in defs && n > 0
    ensures Member(doc, "$ref", ref, n) == Member(env, "$ref", RewrittenRef(ref, defs.Keys), n)
    decreases n, ref, 0
  {
    DefKept(doc, env, defs, provided, Referred(ref), n - 1);
    assert ref.s == ROOT + Referred(ref);
    assert RewrittenRef(ref, defs.Keys).s == ROOT + PREFIX + Referred(ref);
  }

  lemma OwnRefEnds(doc: Json, env: Json, defs: Context, provided: set<string>, ref: Json)
    requires Hoisting(doc, env, defs, provided) && IsDefRef(ref) && Referred(ref) in defs
    ensures Member(doc, "$ref", ref, 0) == Member(env, "$ref", RewrittenRef(ref, defs.Keys), 0)
  {
    assert ref.s == ROOT + Referred(ref);
    assert RewrittenRef(ref, defs.Keys).s == ROOT + PREFIX + Referred(ref);
  }

  lemma LostRefKept(doc: Json, env: Json, defs: Context, provided: set<string>, ref: Json, n: nat)
    requires Hoisting(doc, env, defs, provided) && IsDefRef(ref) && Referred(ref) !in defs && Referred(ref) !in provided
    ensures Member(doc, "$ref", ref, n) == Member(env, "$ref", RewrittenRef(ref, defs.Keys), n)
  {
    assert ref.s == ROOT + Referred(ref);
  }

  lemma {:induction false} ReferenceKept(doc: Json, env: Json, defs: Context, provided: set<string>, ref: Json, n: nat)
    requires Hoisting(doc, env, defs, provided) && DefsAreClean(doc, env, defs, provided)
    requires IsDefRef(ref) && (Referred(ref) in defs || Referred(ref) !in provided)
    ensures Member(doc, "$ref", ref, n) == Member(env, "$ref", RewrittenRef(ref, defs.Keys), n)
    decreases n, ref, 1
  {
    if Referred(ref) in defs && n > 0 {
      OwnRefKept(doc, env, defs, provided, ref, n);
    } else if Referred(ref) in defs {
      OwnRefEnds(doc, env, defs, provided, ref);
    } else {
      LostRefKept(doc, env, defs, provided, ref, n);
    }
  }

  lemma {:induction false} DefKept(doc: Json, env: Json, defs: Context, provided: set<string>, name: string, n: nat)
    requires Hoisting(doc, env, defs, provided) && DefsAreClean(doc, env, defs, provided) && name in defs
    ensures Unfold(doc, defs[name], n) == Unfold(env, HoistedDef(name, defs[name], defs.Keys), n)
    decreases n, defs[name], 4
  {
    assert DefIsClean(doc, env, name, defs[name], defs.Keys, provided);
    if name == "$ref" {
      NothingToRewrite(defs[name], defs.Keys);
      UnreachedIsTheSame(defs[name], defs.Keys, Dangle(doc, env));
    }
    MeaningKept(doc, env, defs, provided, defs[name], n);
  }

  lemma {:induction false} MeaningKept(doc: Json, env: Json, defs: Context, provided: set<string>, node: Json, n: nat)
    requires Hoisting(doc, env, defs, provided) && DefsAreClean(doc, env, defs, provided)
    requires IsClean(doc, env, node, defs.Keys, provided)
    ensures Unfold(doc, node, n) == Unfold(env, Rewritten(node, defs.Keys), n)
    decreases n, node, 3
  {
    match node
    case Arr(_) => ElementsKept(doc, env, defs, provided, node, n);
    case Obj(_) => MembersKept(doc, env, defs, provided, node, n);
    case _ =>
  }

  lemma {:induction false} ElementsKept(doc: Json, env: Json, defs: Context, provided: set<string>, node: Json, n: nat)
    requires Hoisting(doc, env, defs, provided) && DefsAreClean(doc, env, defs, provided)
    requires node.Arr? && IsClean(doc, env, node, defs.Keys, provided)
    ensures Unfold(doc, node, n) == Unfold(env, Rewritten(node, defs.Keys), n)
    decreases n, node, 0
  {
    forall i | 0 <= i < |node.items|
      ensures Unfold(doc, node.items[i], n) == Unfold(env, Rewritten(node.items[i], defs.Keys), n)
    {
      MeaningKept(doc, env, defs, provided, node.items[i], n);
    }
  }

  lemma {:induction false} MembersKept(doc: Json, env: Json, defs: Context, provided: set<string>, node: Json, n: nat)
    requires Hoisting(doc, env, defs, provided) && DefsAreClean(doc, env, defs, provided)
    requires node.Obj? && IsClean(doc, env, node, defs.Keys, provided)
    ensures Unfold(doc, node, n) == Unfold(env, Rewritten(node, defs.Keys), n)
    decreases n, node, 1
  {
    var node' := Rewritten(node, defs.Keys);
    forall k | k in node.fields
      ensures Member(doc, k, node.fields[k], n) == Member(env, k, node'.fields[k], n)
    {
      MemberKept(doc, env, defs, provided, node, k, n);
    }
    SameMembers(doc, env, node, node', n);
  }

  lemma SameMembers(doc: Json, env: Json, node: Json, node': Json, n: nat)
    requires node.Obj? && node'.Obj? && node.fields.Keys == node'.fields.Keys
    requires forall k | k in node.fields :: Member(doc, k, node.fields[k], n) == Member(env, k, node'.fields[k], n)
    ensures Unfold(doc, node, n) == Unfold(env, node', n)
  {
    var m, m' := Unfold(doc, node, n).members, Unfold(env, node', n).members;
    assert m.Keys == m'.Keys;
    forall k | k in m
      ensures m[k] == m'[k]
    {
      assert m[k] == Member(doc, k, node.fields[k], n);
    }
    assert m == m';
  }

  lemma {:induction false} MemberKept(doc: Json, env: Json, defs: Context, provided: set<string>, node: Json, k: string, n: nat)
    requires Hoisting(doc, env, defs, provided) && DefsAreClean(doc, env, defs, provided)
    requires node.Obj? && IsClean(doc, env, node, defs.Keys, provided) && k in node.fields
    ensures Member(doc, k, node.fields[k], n) == Member(env, k, Rewritten(node, defs.Keys).fields[k], n)
    decreases n, node, 0
  {
    var value := node.fields[k];
    if k == "$ref" && value.Str? {
      if IsDefRef(value) {
        ReferenceKept(doc, env, defs, provided, value, n);
      } else {
        OtherRefKept(doc, env, value, defs.Keys, n);
      }
    } else if k == "$ref" {
      NothingToRewrite(value, defs.Keys);
      UnreachedIsTheSame(value, defs.Keys, Dangle(doc, env));
      MeaningKept(doc, env, defs, provided, value, n);
    } else {
      MeaningKept(doc, env, defs, provided, value, n);
    }
  }

  lemma OtherRefKept(doc: Json, env: Json, ref: Json, own: set<string>, n: nat)
    requires ref.Str? && Dangle(doc, env)(ref.s, RefAfter(ref, own, true))
    ensures Member(doc, "$ref", ref, n) == Member(env, "$ref", RewrittenRef(ref, own), n)
  {
  }

  // ---- What is not clean shows ----

  function PlainNames(own: set<string>): set<string> {
    set name | name in own && Plain(name)
  }

  /** What equal meanings tell about a node that the walk reaches or not. */
  predicate Shows(doc: Json, env: Json, node: Json, own: set<string>, provided: set<string>, reached: bool) {
    && Uncaptured(node, own, provided) && OtherRefs(node, own, reached, Agree(doc, env))
    && (if reached then Unshadowed(node, PlainNames(own) - provided) else RefersToNone(node, PlainNames(own) - provided))
  }

  predicate RefShows(doc: Json, env: Json, ref: Json, own: set<string>, provided: set<string>, reached: bool)
    requires ref.Str?
  {
    if !IsDefRef(ref) then Agree(doc, env)(ref.s, RefAfter(ref, own, reached))
    else if reached then Referred(ref) in own || Referred(ref) !in provided
    else Referred(ref) in own <==> Referred(ref) in provided
  }

  lemma MeetingRefShows(doc: Json, env: Json, defs: Context, provided: set<string>, ref: Json, reached: bool)
    requires Hoisting(doc, env, defs, provided) && ref.Str?
    requires Member(doc, "$ref", ref, 0) == Member(env, "$ref", Str(RefAfter(ref, defs.Keys, reached)), 0)
    ensures RefShows(doc, env, ref, defs.Keys, provided, reached)
  {
    if IsDefRef(ref) {
      assert ref.s == ROOT + Referred(ref);
    }
  }

  function NodeAfter(node: Json, own: set<string>, reached: bool): Json {
    if reached then Rewritten(node, own) else node
  }

  /** One look at where references lead already tells a captured or a shadowed name, and a reference that
      dangles on one side only. */
  lemma {:induction false} CaptureShows(doc: Json, env: Json, defs: Context, provided: set<string>, node: Json, reached: bool)
    requires Hoisting(doc, env, defs, provided)
    requires Unfold(doc, node, 0) == Unfold(env, NodeAfter(node, defs.Keys, reached), 0)
    ensures Shows(doc, env, node, defs.Keys, provided, reached)
    decreases node, 2
  {
    match node
    case Arr(items) =>
      forall i | 0 <= i < |items|
        ensures Shows(doc, env, items[i], defs.Keys, provided, reached)
      {
        assert Unfold(doc, node, 0).elements[i] == Unfold(env, NodeAfter(node, defs.Keys, reached), 0).elements[i];
        CaptureShows(doc, env, defs, provided, items[i], reached);
      }
    case Obj(_) => MembersShow(doc, env, defs, provided, node, reached);
    case _ =>
  }

  lemma {:induction false} MembersShow(doc: Json, env: Json, defs: Context, provided: set<string>, node: Json, reached: bool)
    requires Hoisting(doc, env, defs, provided) && node.Obj?
    requires Unfold(doc, node, 0) == Unfold(env, NodeAfter(node, defs.Keys, reached), 0)
    ensures Shows(doc, env, node, defs.Keys, provided, reached)
    decreases node, 1
  {
    forall k | k in node.fields
      ensures if k == "$ref" && node.fields[k].Str? then RefShows(doc, env, node.fields[k], defs.Keys, provided, reached)
              else Shows(doc, env, node.fields[k], defs.Keys, provided, reached && k != "$ref")
    {
      assert Unfold(doc, node, 0).members[k] == Unfold(env, NodeAfter(node, defs.Keys, reached), 0).members[k];
      MemberShows(doc, env, defs, provided, node, k, reached);
    }
    ObjectShows(doc, env, node, defs.Keys, provided, reached);
  }

  lemma {:induction false} MemberShows(doc: Json, env: Json, defs: Context, provided: set<string>, node: Json, k: string, reached: bool)
    requires Hoisting(doc, env, defs, provided) && node.Obj? && k in node.fields
    requires Member(doc, k, node.fields[k], 0) == Member(env, k, NodeAfter(node, defs.Keys, reached).fields[k], 0)
    ensures var value := node.fields[k];
            if k == "$ref" && value.Str? then RefShows(doc, env, value, defs.Keys, provided, reached)
            else Shows(doc, env, value, defs.Keys, provided, reached && k != "$ref")
    decreases node, 0
  {
    var value := node.fields[k];
    if k == "$ref" && value.Str? {
      MeetingRefShows(doc, env, defs, provided, value, reached);
    } else {
      CaptureShows(doc, env, defs, provided, value, reached && k != "$ref");
    }
  }

  lemma ObjectShows(doc: Json, env: Json, node: Json, own: set<string>, provided: set<string>, reached: bool)
    requires node.Obj? && forall k | k in node.fields ::
      if k == "$ref" && node.fields[k].Str? then RefShows(doc, env, node.fields[k], own, provided, reached)
      else Shows(doc, env, node.fields[k], own, provided, reached && k != "$ref")
    ensures Shows(doc, env, node, own, provided, reached)
  {
  }

  // ---- Whole schemas ----

  /** The schema and each of its definitions mean the same, to any depth, in both documents. */
  ghost predicate SameMeaning(cfg: Context, env: Json, config: Context, defs: Context) {
    forall n: nat ::
      && Unfold(Obj(cfg), Obj(Body(cfg)), n) == Unfold(env, Obj(Body(config)), n)
      && forall name | name in OwnDefs(cfg) :: SameDef(cfg, env, defs, name, n)
  }

  ghost predicate SameDef(cfg: Context, env: Json, defs: Context, name: string, n: nat)
    requires name in OwnDefs(cfg)
  {
    PREFIX + name in defs && Unfold(Obj(cfg), OwnDefs(cfg)[name], n) == Unfold(env, defs[PREFIX + name], n)
  }

  /** All references of the schema and its definitions that are not to a plain root definition pass `test`. */
  predicate AllOtherRefs(cfg: Context, test: (string, string) -> bool) {
    && OtherRefs(Obj(Body(cfg)), OwnDefs(cfg).Keys, true, test)
    && forall name | name in OwnDefs(cfg) :: OtherRefs(OwnDefs(cfg)[name], OwnDefs(cfg).Keys, name != "$ref", test)
  }

  function Provided(cfg: Context): set<string> {
    SHARED_NAMES + set name | name in OwnDefs(cfg) :: PREFIX + name
  }

  ghost predicate CapturesNothing(cfg: Context) {
    && Uncaptured(Obj(Body(cfg)), OwnDefs(cfg).Keys, Provided(cfg))
    && forall name | name in OwnDefs(cfg) :: Uncaptured(OwnDefs(cfg)[name], OwnDefs(cfg).Keys, Provided(cfg))
  }

  lemma NoSharedPrefix()
    ensures forall k | k in SHARED_NAMES :: !(PREFIX <= k)
  {
    assert PREFIX[0] == 'c' && PREFIX[3] == 'f';
    assert "contextKey"[3] == 't';
  }

  /** Hoisting adds to the envelope's definitions and never touches a shared one. */
  lemma SharedDefsSurvive(shared: Context, defs: Context, k: string)
    requires shared.Keys == SHARED_NAMES
    ensures k in shared ==> k in EnvelopeDefs(shared, defs, defs.Keys) && EnvelopeDefs(shared, defs, defs.Keys)[k] == shared[k]
    ensures k in defs ==> PREFIX + k !in shared && EnvelopeDefs(shared, defs, defs.Keys)[PREFIX + k] == HoistedDef(k, defs[k], defs.Keys)
  {
    assert (PREFIX + k)[|PREFIX|..] == k;
    NoSharedPrefix();
  }

  lemma EnvelopeHoists(cfg: Context, shared: Context, env: Json)
    requires shared.Keys == SHARED_NAMES
    requires env.Obj? && OwnDefs(env.fields) == EnvelopeDefs(shared, OwnDefs(cfg), OwnDefs(cfg).Keys)
    ensures Hoisting(Obj(cfg), env, OwnDefs(cfg), Provided(cfg))
  {
    var defs := OwnDefs(cfg);
    forall name | Plain(name)
      ensures Resolve(Obj(cfg), ROOT + name) == if name in defs then Some(defs[name]) else None
      ensures name in defs ==> Resolve(env, ROOT + PREFIX + name) == Some(HoistedDef(name, defs[name], defs.Keys))
      ensures Resolve(env, ROOT + name).Some? <==> name in Provided(cfg)
    {
      DefResolves(cfg, name);
      DefResolves(env.fields, name);
      assert Plain(PREFIX + name);
      DefResolves(env.fields, PREFIX + name);
      assert ROOT + (PREFIX + name) == ROOT + PREFIX + name;
      SharedDefsSurvive(shared, defs, name);
    }
  }

  /** Own names that pointer tokens spell as themselves and that the envelope does not define, and no other
      reference that leads somewhere in both documents: then no reference changes its target by accident. */
  ghost predicate NothingMeets(cfg: Context, env: Json) {
    OwnDefs(cfg).Keys !! Provided(cfg) && PlainNames(OwnDefs(cfg).Keys) == OwnDefs(cfg).Keys && AllOtherRefs(cfg, Apart(Obj(cfg), env))
  }

  /** For every author schema: hoisting preserves its meaning if it refers to no undefined name that the
      envelope defines, its references to own definitions are all repointed, and every other reference
      dangles before and after; and, unless references meet by accident, only then. */
  lemma HoistingPreservesMeaning(cfg: Context, shared: Context, common: Context, nodeType: string, title: string, description: string)
    requires shared.Keys == SHARED_NAMES
    ensures var defs := EnvelopeDefs(shared, OwnDefs(cfg), OwnDefs(cfg).Keys);
            var env := Envelope(nodeType, title, description, common, HoistedConfig(cfg), defs);
            var kept := CapturesNothing(cfg) && NothingShadowed(cfg) && AllOtherRefs(cfg, Dangle(Obj(cfg), env));
            && (kept ==> SameMeaning(cfg, env, HoistedConfig(cfg), defs))
            && (SameMeaning(cfg, env, HoistedConfig(cfg), defs) ==> CapturesNothing(cfg) && AllOtherRefs(cfg, Agree(Obj(cfg), env)))
            && (NothingMeets(cfg, env) ==> (SameMeaning(cfg, env, HoistedConfig(cfg), defs) <==> kept))
  {
    var defs := EnvelopeDefs(shared, OwnDefs(cfg), OwnDefs(cfg).Keys);
    var env := Envelope(nodeType, title, description, common, HoistedConfig(cfg), defs);
    EnvelopeHoists(cfg, shared, env);
    if CapturesNothing(cfg) && NothingShadowed(cfg) && AllOtherRefs(cfg, Dangle(Obj(cfg), env)) {
      CleanKeepsMeaning(cfg, shared, env);
    }
    if SameMeaning(cfg, env, HoistedConfig(cfg), defs) {
      SameMeaningShows(cfg, shared, env);
      ShownIsClean(cfg, env);
      AllDangle(cfg, env);
    }
  }

  lemma AllDangle(cfg: Context, env: Json)
    ensures AllOtherRefs(cfg, Agree(Obj(cfg), env)) && AllOtherRefs(cfg, Apart(Obj(cfg), env)) ==>
              AllOtherRefs(cfg, Dangle(Obj(cfg), env))
  {
    OthersDangle(Obj(Body(cfg)), OwnDefs(cfg).Keys, true, Obj(cfg), env);
    forall name | name in OwnDefs(cfg) {
      OthersDangle(OwnDefs(cfg)[name], OwnDefs(cfg).Keys, name != "$ref", Obj(cfg), env);
    }
  }

  lemma CleanKeepsMeaning(cfg: Context, shared: Context, env: Json)
    requires shared.Keys == SHARED_NAMES && CapturesNothing(cfg) && NothingShadowed(cfg)
    requires AllOtherRefs(cfg, Dangle(Obj(cfg), env)) && Hoisting(Obj(cfg), env, OwnDefs(cfg), Provided(cfg))
    ensures SameMeaning(cfg, env, HoistedConfig(cfg), EnvelopeDefs(shared, OwnDefs(cfg), OwnDefs(cfg).Keys))
  {
    var own := OwnDefs(cfg);
    HoistedBody(cfg);
    assert DefsAreClean(Obj(cfg), env, own, Provided(cfg));
    forall n: nat
      ensures Unfold(Obj(cfg), Obj(Body(cfg)), n) == Unfold(env, Obj(Body(HoistedConfig(cfg))), n)
    {
      MeaningKept(Obj(cfg), env, own, Provided(cfg), Obj(Body(cfg)), n);
    }
    forall n: nat, name | name in own
      ensures SameDef(cfg, env, EnvelopeDefs(shared, own, own.Keys), name, n)
    {
      SharedDefsSurvive(shared, own, name);
      DefKept(Obj(cfg), env, own, Provided(cfg), name, n);
    }
  }

  lemma SameMeaningShows(cfg: Context, shared: Context, env: Json)
    requires shared.Keys == SHARED_NAMES
    requires Hoisting(Obj(cfg), env, OwnDefs(cfg), Provided(cfg))
    requires SameMeaning(cfg, env, HoistedConfig(cfg), EnvelopeDefs(shared, OwnDefs(cfg), OwnDefs(cfg).Keys))
    ensures Shows(Obj(cfg), env, Obj(Body(cfg)), OwnDefs(cfg).Keys, Provided(cfg), true)
    ensures forall name | name in OwnDefs(cfg) ::
              Shows(Obj(cfg), env, OwnDefs(cfg)[name], OwnDefs(cfg).Keys, Provided(cfg), name != "$ref")
  {
    var own, provided := OwnDefs(cfg), Provided(cfg);
    HoistedBody(cfg);
    CaptureShows(Obj(cfg), env, own, provided, Obj(Body(cfg)), true);
    forall name | name in own
      ensures Shows(Obj(cfg), env, own[name], own.Keys, provided, name != "$ref")
    {
      assert SameDef(cfg, env, EnvelopeDefs(shared, own, own.Keys), name, 0);
      DefShows(cfg, shared, env, name);
    }
  }

  lemma ShownIsClean(cfg: Context, env: Json)
    requires Shows(Obj(cfg), env, Obj(Body(cfg)), OwnDefs(cfg).Keys, Provided(cfg), true)
    requires forall name | name in OwnDefs(cfg) ::
               Shows(Obj(cfg), env, OwnDefs(cfg)[name], OwnDefs(cfg).Keys, Provided(cfg), name != "$ref")
    ensures CapturesNothing(cfg) && AllOtherRefs(cfg, Agree(Obj(cfg), env))
    ensures OwnDefs(cfg).Keys !! Provided(cfg) && PlainNames(OwnDefs(cfg).Keys) == OwnDefs(cfg).Keys ==> NothingShadowed(cfg)
  {
    var own := OwnDefs(cfg).Keys;
    assert own !! Provided(cfg) && PlainNames(own) == own ==> PlainNames(own) - Provided(cfg) == own;
  }

  lemma DefShows(cfg: Context, shared: Context, env: Json, name: string)
    requires shared.Keys == SHARED_NAMES && name in OwnDefs(cfg)
    requires Hoisting(Obj(cfg), env, OwnDefs(cfg), Provided(cfg))
    requires SameDef(cfg, env, EnvelopeDefs(shared, OwnDefs(cfg), OwnDefs(cfg).Keys), name, 0)
    ensures Shows(Obj(cfg), env, OwnDefs(cfg)[name], OwnDefs(cfg).Keys, Provided(cfg), name != "$ref")
  {
    SharedDefsSurvive(shared, OwnDefs(cfg), name);
    CaptureShows(Obj(cfg), env, OwnDefs(cfg), Provided(cfg), OwnDefs(cfg)[name], name != "$ref");
  }

  lemma HoistedBody(cfg: Context)
    ensures Obj(Body(HoistedConfig(cfg))) == Rewritten(Obj(Body(cfg)), OwnDefs(cfg).Keys)
  {
    var hoisted := Rewritten(Obj(Body(cfg)), OwnDefs(cfg).Keys);
    if OwnDefs(cfg) == map[] {
      assert OwnDefs(cfg).Keys == {};
      RefersToNoneOfNone(Obj(Body(cfg)));
      NothingToRewrite(Obj(Body(cfg)), {});
    } else {
      assert Body(hoisted.fields) == hoisted.fields;
    }
  }

  lemma {:induction false} RefersToNoneOfNone(node: Json)
    ensures RefersToNone(node, {})
  {
    match node
    case Arr(items) => forall i | 0 <= i < |items| ensures RefersToNone(items[i], {}) { RefersToNoneOfNone(items[i]); }
    case Obj(m) => forall k | k in m ensures RefersToNone(m[k], {}) { RefersToNoneOfNone(m[k]); }
    case _ =>
  }

  /** References to the root or to a property of it are not rewritten and are redirected: the root of the
      envelope is not the author's schema, which sits below it, and a property of the root is the node's
      property of that name, or nothing. */
  lemma RootReferencesAreRedirected(cfg: Context, own: set<string>, env: Context, x: string)
    requires Plain(x) && "properties" in env && env["properties"].Obj?
    ensures var ref := "#/properties/" + x;
            && RewrittenRef(Str("#"), own) == Str("#") && RewrittenRef(Str(ref), own) == Str(ref)
            && Resolve(Obj(cfg), "#") == Some(Obj(cfg)) && Resolve(Obj(env), "#") == Some(Obj(env))
            && (x in env["properties"].fields ==> Resolve(Obj(env), ref) == Some(env["properties"].fields[x]))
            && (x !in env["properties"].fields ==> Resolve(Obj(env), ref) == None)
            && ("properties" in cfg && cfg["properties"].Obj? && x in cfg["properties"].fields ==>
                  Resolve(Obj(cfg), ref) == Some(cfg["properties"].fields[x]))
  {
    var ref := "#/properties/" + x;
    assert ref[2] == 'p' && ROOT[2] == '$';
    assert ref[1..] == "/" + "properties" + ("/" + x + "");
    PointerStep(env, "properties", "/" + x + "");
    PointerStep(env["properties"].fields, x, "");
    PointerStep(cfg, "properties", "/" + x + "");
    if "properties" in cfg && cfg["properties"].Obj? {
      PointerStep(cfg["properties"].fields, x, "");
    }
  }

  /** A reference to a place inside a definition is not rewritten, unless its whole suffix happens to be a
      name. It leads into the author's definition before; in the envelope, into the definition of that
      name if the envelope has one, and nowhere otherwise. */
  lemma ReferencesIntoDefsAreLost(cfg: Context, env: Context, name: string, rest: string)
    requires Plain(name) && name + "/" + rest !in OwnDefs(cfg)
    ensures var ref := ROOT + name + "/" + rest;
            && RewrittenRef(Str(ref), OwnDefs(cfg).Keys) == Str(ref)
            && Resolve(Obj(cfg), ref) == (if name in OwnDefs(cfg) then At(OwnDefs(cfg)[name], "/" + rest) else None)
            && Resolve(Obj(env), ref) == (if name in OwnDefs(env) then At(OwnDefs(env)[name], "/" + rest) else None)
  {
    var ref := ROOT + name + "/" + rest;
    assert ref[|ROOT|..] == name + "/" + rest;
    assert ref[1..] == "/" + "$defs" + ("/" + name + ("/" + rest));
    InsideDef(cfg, name, rest);
    InsideDef(env, name, rest);
  }

  lemma InsideDef(doc: Context, name: string, rest: string)
    requires Plain(name)
    ensures At(Obj(doc), "/" + "$defs" + ("/" + name + ("/" + rest))) ==
            if name in OwnDefs(doc) then At(OwnDefs(doc)[name], "/" + rest) else None
  {
    PointerStep(doc, "$defs", "/" + name + ("/" + rest));
    if "$defs" in doc && doc["$defs"].Obj? {
      PointerStep(doc["$defs"].fields, name, "/" + rest);
    }
  }

  /** References below a property or definition that is itself named "$ref" are left behind: they
      resolve in the author's document and dangle in the envelope. */
  lemma BelowRefNothingIsRewritten(name: string, def: Json, shared: Context)
    requires shared.Keys == SHARED_NAMES && Plain(name) && name !in SHARED_NAMES
    ensures var properties := Obj(map["$ref" := Obj(map["$ref" := Str(ROOT + name)])]);
            var cfg := map["$defs" := Obj(map[name := def]), "properties" := properties];
            && HoistedConfig(cfg) == map["properties" := properties]
            && Resolve(Obj(cfg), ROOT + name) == Some(def)
            && forall env: Json | env.Obj? && OwnDefs(env.fields) == EnvelopeDefs(shared, OwnDefs(cfg), OwnDefs(cfg).Keys) ::
                 Resolve(env, ROOT + name) == None
  {
    var properties := Obj(map["$ref" := Obj(map["$ref" := Str(ROOT + name)])]);
    var cfg := map["$defs" := Obj(map[name := def]), "properties" := properties];
    DefResolves(cfg, name);
    assert OwnDefs(cfg) == map[name := def] && OwnDefs(cfg).Keys == {name};
    assert Body(cfg) == map["properties" := properties];
    assert Rewritten(properties, {name}).fields == properties.fields;
    assert HoistedConfig(cfg) == map["properties" := properties];
    forall env: Json | env.Obj? && OwnDefs(env.fields) == EnvelopeDefs(shared, OwnDefs(cfg), OwnDefs(cfg).Keys)
      ensures Resolve(env, ROOT + name) == None
    {
      DefResolves(env.fields, name);
      assert |PREFIX + name| != |name|;
    }
  }
}
