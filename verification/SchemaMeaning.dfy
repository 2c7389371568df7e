/**
 What a schema accepts, read by the rules of OpenAPI 3.1 (JSON Schema 2020-12) and by those of
 OpenAPI 3.0.3, and the theorem that the rewriter carries one reading into the other.
 */
module SchemaMeaning {
  import opened Json
  import opened Downgrade
  import opened DowngradeShapes
  import opened NormalForm

  /**
   What a reader needs besides the schema: the components a `$ref` resolves to, by name, the verdict of each
   keyword not spelled out below, and the verdict once a chain of references has run out of fuel.
   */
  datatype Reader = Reader(components: map<string, Value>, assertion: (string, Value, Value) -> bool, exhausted: bool)

  /** Keywords that document a schema and accept or reject nothing. */
  const ANNOTATIONS: set<string> :=
    {"description", "summary", "title", "default", "example", "examples", "deprecated", "readOnly", "writeOnly", "externalDocs"}

  /** Keywords both readings spell out. */
  const APPLICATORS: set<string> :=
    {"allOf", "anyOf", "oneOf", "not", "items", "properties", "additionalProperties"}

  /** Assertion keywords that 3.0 takes over unchanged (OpenAPI 3.0.3 section 4.7.24), and vendor extensions. */
  predicate SameInBoth(keyword: string) {
    || keyword in {"enum", "required", "format", "pattern", "minLength", "maxLength", "minimum", "maximum"}
    || keyword in {"multipleOf", "minItems", "maxItems", "uniqueItems", "minProperties", "maxProperties"}
    || "x-" <= keyword
  }

  const TYPING: set<string> := {"type", "nullable", "$ref"}

  // ---------------------------------------------------------------------------------------
  // The two readings
  // ---------------------------------------------------------------------------------------

  predicate HasType(name: string, v: Value) {
    match name
    case "null" => v.Null?
    case "boolean" => v.Bool?
    case "number" => v.Number?
    case "integer" => v.Number? && v.number == v.number.Floor as real
    case "string" => v.String?
    case "array" => v.Array?
    case "object" => v.Object?
    case _ => false
  }

  /** 3.1: `type` is a name or an array of names (JSON Schema Validation section 6.1.1). */
  predicate TypeAllows31(m: Fields, v: Value) {
    "type" in m ==>
      match m["type"]
      case String(name) => HasType(name, v)
      case Array(names) => exists i | 0 <= i < |names| :: names[i].String? && HasType(names[i].text, v)
      case _ => false
  }

  /** 3.0: `type` is one name, and `nullable` beside it admits null (OpenAPI 3.0.3 section 4.7.24). */
  predicate TypeAllows30(m: Fields, v: Value) {
    "type" in m ==>
      && m["type"].String?
      && (HasType(m["type"].text, v) || (v.Null? && "nullable" in m && m["nullable"] == Bool(true)))
  }

  const SCHEMA_PREFIX := "#/components/schemas/"

  /** The component a `$ref` names, as a sequence of at most one name. */
  function ComponentName(target: Value): (r: seq<string>) {
    if target.String? && SCHEMA_PREFIX <= target.text then [target.text[|SCHEMA_PREFIX|..]] else []
  }

  predicate Every(verdicts: seq<bool>) { forall i | 0 <= i < |verdicts| :: verdicts[i] }

  predicate Some(verdicts: seq<bool>) { exists i | 0 <= i < |verdicts| :: verdicts[i] }

  predicate ExactlyOne(verdicts: seq<bool>) {
    exists i | 0 <= i < |verdicts| :: verdicts[i] && forall j | 0 <= j < |verdicts| && j != i :: !verdicts[j]
  }

  /** The property names `additionalProperties` leaves to its siblings. */
  function Declared(m: Fields): set<string> {
    if "properties" in m && m["properties"].Object? then m["properties"].fields.Keys else {}
  }

  /**
   Every other keyword has the verdict the reader gives it, in both readings. 3.0 says that only of the
   keywords `SameInBoth`, so a faithful schema has no others.
   */
  predicate Asserted(r: Reader, m: Fields, v: Value) {
    forall k | k in m && k !in ANNOTATIONS && k !in APPLICATORS && k !in TYPING :: r.assertion(k, m[k], v)
  }

  /** The 3.1 reading: every keyword of the object must accept, a `$ref`'s siblings included. */
  predicate Accepts31(r: Reader, fuel: nat, schema: Value, v: Value)
    decreases fuel, schema, 1
  {
    match schema
    case Bool(b) => b
    case Object(m) =>
      && TypeAllows31(m, v)
      && Conjoined31(r, fuel, schema, v)
      && Combined31(r, fuel, schema, v)
      && Shaped31(r, fuel, schema, v)
      && Asserted(r, m, v)
    case _ => false
  }

  predicate Conjoined31(r: Reader, fuel: nat, schema: Value, v: Value)
    requires schema.Object?
    decreases fuel, schema, 0
  {
    && ("$ref" in schema.fields ==> Resolved31(r, fuel, schema.fields["$ref"], v))
    && ("allOf" in schema.fields ==> Every(Verdicts31(r, fuel, schema.fields["allOf"], v)))
  }

  predicate Combined31(r: Reader, fuel: nat, schema: Value, v: Value)
    requires schema.Object?
    decreases fuel, schema, 0
  {
    var m := schema.fields;
    && ("anyOf" in m ==> Some(Verdicts31(r, fuel, m["anyOf"], v)))
    && ("oneOf" in m ==> ExactlyOne(Verdicts31(r, fuel, m["oneOf"], v)))
    && ("not" in m ==> !Accepts31(r, fuel, m["not"], v))
  }

  predicate Shaped31(r: Reader, fuel: nat, schema: Value, v: Value)
    requires schema.Object?
    decreases fuel, schema, 0
  {
    var m := schema.fields;
    && ("items" in m ==> Elements31(r, fuel, m["items"], v))
    && ("properties" in m ==> Properties31(r, fuel, m["properties"], v))
    && ("additionalProperties" in m ==> Additional31(r, fuel, m["additionalProperties"], Declared(m), v))
  }

  predicate Resolved31(r: Reader, fuel: nat, target: Value, v: Value)
    decreases fuel, target, 2
  {
    if fuel == 0 then r.exhausted
    else
      var name := ComponentName(target);
      name != [] && name[0] in r.components && Accepts31(r, fuel - 1, r.components[name[0]], v)
  }

  function Verdicts31(r: Reader, fuel: nat, members: Value, v: Value): seq<bool>
    decreases fuel, members, 2
  {
    if members.Array?
    then seq(|members.items|, i requires 0 <= i < |members.items| => Accepts31(r, fuel, members.items[i], v))
    else []
  }

  predicate Elements31(r: Reader, fuel: nat, item: Value, v: Value)
    decreases fuel, item, 2
  {
    v.Array? ==> forall i | 0 <= i < |v.items| :: Accepts31(r, fuel, item, v.items[i])
  }

  predicate Properties31(r: Reader, fuel: nat, properties: Value, v: Value)
    decreases fuel, properties, 2
  {
    properties.Object? && v.Object? ==>
      forall p | p in properties.fields && p in v.fields :: Accepts31(r, fuel, properties.fields[p], v.fields[p])
  }

  predicate Additional31(r: Reader, fuel: nat, rest: Value, declared: set<string>, v: Value)
    decreases fuel, rest, 2
  {
    v.Object? ==> forall p | p in v.fields && p !in declared :: Accepts31(r, fuel, rest, v.fields[p])
  }

  /** The 3.0 reading: a `$ref` speaks alone, its siblings ignored (OpenAPI 3.0.3 section 4.7.23). */
  predicate Accepts30(r: Reader, fuel: nat, schema: Value, v: Value)
    decreases fuel, schema, 1
  {
    match schema
    case Bool(b) => b
    case Object(m) =>
      if "$ref" in m then Resolved30(r, fuel, m["$ref"], v)
      else
        && TypeAllows30(m, v)
        && Conjoined30(r, fuel, schema, v)
        && Combined30(r, fuel, schema, v)
        && Shaped30(r, fuel, schema, v)
        && Asserted(r, m, v)
    case _ => false
  }

  predicate Conjoined30(r: Reader, fuel: nat, schema: Value, v: Value)
    requires schema.Object?
    decreases fuel, schema, 0
  {
    && ("allOf" in schema.fields ==> Every(Verdicts30(r, fuel, schema.fields["allOf"], v)))
  }

  predicate Combined30(r: Reader, fuel: nat, schema: Value, v: Value)
    requires schema.Object?
    decreases fuel, schema, 0
  {
    var m := schema.fields;
    && ("anyOf" in m ==> Some(Verdicts30(r, fuel, m["anyOf"], v)))
    && ("oneOf" in m ==> ExactlyOne(Verdicts30(r, fuel, m["oneOf"], v)))
    && ("not" in m ==> !Accepts30(r, fuel, m["not"], v))
  }

  predicate Shaped30(r: Reader, fuel: nat, schema: Value, v: Value)
    requires schema.Object?
    decreases fuel, schema, 0
  {
    var m := schema.fields;
    && ("items" in m ==> Elements30(r, fuel, m["items"], v))
    && ("properties" in m ==> Properties30(r, fuel, m["properties"], v))
    && ("additionalProperties" in m ==> Additional30(r, fuel, m["additionalProperties"], Declared(m), v))
  }

  predicate Resolved30(r: Reader, fuel: nat, target: Value, v: Value)
    decreases fuel, target, 2
  {
    if fuel == 0 then r.exhausted
    else
      var name := ComponentName(target);
      name != [] && name[0] in r.components && Accepts30(r, fuel - 1, r.components[name[0]], v)
  }

  function Verdicts30(r: Reader, fuel: nat, members: Value, v: Value): seq<bool>
    decreases fuel, members, 2
  {
    if members.Array?
    then seq(|members.items|, i requires 0 <= i < |members.items| => Accepts30(r, fuel, members.items[i], v))
    else []
  }

  predicate Elements30(r: Reader, fuel: nat, item: Value, v: Value)
    decreases fuel, item, 2
  {
    v.Array? ==> forall i | 0 <= i < |v.items| :: Accepts30(r, fuel, item, v.items[i])
  }

  predicate Properties30(r: Reader, fuel: nat, properties: Value, v: Value)
    decreases fuel, properties, 2
  {
    properties.Object? && v.Object? ==>
      forall p | p in properties.fields && p in v.fields :: Accepts30(r, fuel, properties.fields[p], v.fields[p])
  }

  predicate Additional30(r: Reader, fuel: nat, rest: Value, declared: set<string>, v: Value)
    decreases fuel, rest, 2
  {
    v.Object? ==> forall p | p in v.fields && p !in declared :: Accepts30(r, fuel, rest, v.fields[p])
  }

  // ---------------------------------------------------------------------------------------
  // The schemas the rewriter carries over faithfully
  // ---------------------------------------------------------------------------------------

  /** One type name, alone or in an array, possibly with "null" beside it. */
  predicate FaithfulType(t: Value) {
    match t
    case String(name) => name != "null"
    case Array(names) =>
      || (|names| == 1 && names[0].String? && names[0] != NULL_NAME)
      || (|names| == 2 && NULL_NAME in names && names[0].String? && names[1].String? && names[0] != names[1])
    case _ => false
  }

  /** The reference names one of these components, if it names a component at all. */
  predicate RefersWithin(target: Value, names: set<string>) {
    forall c | c in ComponentName(target) :: c in names
  }

  /** No property is named after a keyword the rewriter removes. */
  predicate OrdinaryNames(properties: Fields) {
    "type" !in properties && "examples" !in properties && !NeedsWrap(properties)
  }

  /** What a faithful schema may use: nullable unions if `arms`, and references to the components `names`. */
  datatype Scope = Scope(arms: bool, names: set<string>)

  predicate Faithful(schema: Value, scope: Scope)
    decreases schema, 1
  {
    && schema.Object?
    && var m := schema.fields;
    && ("type" in m ==> FaithfulType(m["type"]))
    && ("$ref" in m ==> m["$ref"].String? && "allOf" !in m && RefersWithin(m["$ref"], scope.names))
    && "nullable" !in m && "openapi" !in m
    && ("allOf" in m ==> FaithfulMembers(m["allOf"], scope))
    && ("anyOf" in m ==> FaithfulMembers(m["anyOf"], scope))
    && ("oneOf" in m ==>
          if NullableUnion(m["oneOf"])
          then scope.arms && m.Keys - {"oneOf"} <= ANNOTATIONS && FaithfulArms(m["oneOf"], scope)
          else FaithfulMembers(m["oneOf"], scope))
    && ("not" in m ==> Faithful(m["not"], scope))
    && ("items" in m ==> Faithful(m["items"], scope))
    && ("properties" in m ==> FaithfulProperties(m["properties"], scope))
    && ("additionalProperties" in m ==> m["additionalProperties"].Bool? || Faithful(m["additionalProperties"], scope))
    && forall k | k in m && k !in ANNOTATIONS && k !in APPLICATORS && k !in TYPING ::
         SameInBoth(k) && Normal(m[k])
  }

  predicate FaithfulMembers(members: Value, scope: Scope)
    decreases members, 2
  {
    members.Array? && forall i | 0 <= i < |members.items| :: Faithful(members.items[i], scope)
  }

  /** The members of a nullable union beside the null schema. */
  predicate FaithfulArms(members: Value, scope: Scope)
    decreases members, 2
  {
    members.Array? && forall i | 0 <= i < |members.items| && !IsNullSchema(members.items[i]) :: Faithful(members.items[i], scope)
  }

  lemma FaithfulUnion(x: Fields, scope: Scope)
    requires Faithful(Object(x), scope) && "oneOf" in x
    ensures Collapsible(x) ==> scope.arms && x.Keys - {"oneOf"} <= ANNOTATIONS && Faithful(NonNullArm(x["oneOf"].items), scope)
    ensures !Collapsible(x) ==> FaithfulMembers(x["oneOf"], scope)
  {
    NullableUnionIff(x);
    if Collapsible(x) {
      var arm := NonNullArm(x["oneOf"].items);
      assert !IsNullSchema(arm);
    }
  }

  predicate FaithfulProperties(properties: Value, scope: Scope)
    decreases properties, 2
  {
    && properties.Object?
    && OrdinaryNames(properties.fields)
    && forall p | p in properties.fields :: Faithful(properties.fields[p], scope)
  }

  /** The components that may be referred to are faithful; any other component may be anything. */
  predicate FaithfulReader(r: Reader, scope: Scope) {
    forall c | c in r.components && c in scope.names :: Faithful(r.components[c], scope)
  }

  function DowngradedReader(r: Reader): Reader {
    r.(components := map c | c in r.components :: Downgraded(r.components[c]))
  }

  /** No null anywhere in the value. */
  predicate NullFree(v: Value) {
    match v
    case Null => false
    case Array(items) => forall i | 0 <= i < |items| :: NullFree(items[i])
    case Object(m) => forall k | k in m :: NullFree(m[k])
    case _ => true
  }

  /** A map of property schemas comes through with its names intact exactly when they are ordinary. */
  lemma PropertyNamesKeptIff(properties: Fields)
    requires forall p | p in properties :: properties[p].Object?
    ensures Downgraded(Object(properties)).fields.Keys == properties.Keys <==> OrdinaryNames(properties)
    ensures OrdinaryNames(properties) ==>
              forall p | p in properties :: Downgraded(Object(properties)).fields[p] == Downgraded(properties[p])
  {
    assert Reversioned(properties) == properties && Collapsed(properties) == properties;
    var p := Prepared(properties);
    assert Downgraded(Object(properties)).fields.Keys == p.Keys;
    if OrdinaryNames(properties) {
      assert p == properties;
    } else if NeedsWrap(properties) {
      assert "$ref" !in p;
    } else if "type" in properties {
      assert "type" !in p;
    } else {
      assert "examples" !in p;
    }
  }

  // ---------------------------------------------------------------------------------------
  // What the pass makes of one object
  // ---------------------------------------------------------------------------------------

  /** The flattened `type` and the `nullable` beside it allow what the 3.1 `type` allowed. */
  lemma TypeAgrees(m: Fields, v: Value)
    requires "type" in m ==> FaithfulType(m["type"])
    requires "nullable" !in m
    ensures var t := TypeFlattened(m);
            ("type" in t ==> t["type"].String?) && (TypeAllows30(t, v) <==> TypeAllows31(m, v))
  {
    if "type" in m && m["type"].Array? {
      var names := m["type"].items;
      if |names| == 1 {
        assert FirstNonNull(names) == [names[0]];
      } else {
        var name := if names[0] == NULL_NAME then names[1] else names[0];
        assert name in names && name != NULL_NAME;
        assert FirstNonNull(names) == [name];
        assert HasType("null", v) <==> v.Null?;
        if TypeAllows31(m, v) {
          var i :| 0 <= i < 2 && HasType(names[i].text, v);
        }
        assert HasType(name.text, v) ==> TypeAllows31(m, v);
        assert v.Null? ==> HasType(NULL_NAME.text, v);
      }
    }
  }

  function Steps(m: Fields): Fields { ExamplePicked(TypeFlattened(Wrapped(m))) }

  /** The steps after the collapse touch only the keywords they own. */
  lemma StepsKeepOthers(m: Fields, k: string)
    requires k !in {"$ref", "type", "nullable", "examples", "example"} && (k == "allOf" ==> !NeedsWrap(m))
    ensures (k in Steps(m) <==> k in m) && (k in m ==> Steps(m)[k] == m[k])
  {
  }

  /** They settle `type` and `nullable` as the flattening alone would. */
  lemma StepsFlatten(m: Fields, k: string)
    requires k == "type" || k == "nullable"
    ensures (k in Steps(m) <==> k in TypeFlattened(m)) && (k in Steps(m) ==> Steps(m)[k] == TypeFlattened(m)[k])
  {
    assert "type" in Wrapped(m) <==> "type" in m;
  }

  lemma StepsReference(m: Fields)
    ensures NeedsWrap(m) ==> "allOf" in Steps(m) && Steps(m)["allOf"] == Array([Object(map["$ref" := m["$ref"]])])
    ensures NeedsWrap(m) || "$ref" !in m ==> "$ref" !in Steps(m)
    ensures "$ref" in m && !NeedsWrap(m) ==> Steps(m) == m
  {
  }

  /** A schema under annotations reaches those steps unchanged, unless it collapses. */
  lemma PlainReachesSteps(a: Fields, x: Fields)
    requires a.Keys <= ANNOTATIONS && "openapi" !in x && !Collapsible(x)
    ensures Prepared(a + x) == Steps(a + x)
  {
    var m := a + x;
    assert Reversioned(m) == m;
    assert "oneOf" in m ==> "oneOf" in x && m["oneOf"] == x["oneOf"];
    assert Collapsed(m) == m;
  }

  /** `out` is what the pass makes of the keyword `k` of `x`. */
  ghost predicate Carried(x: Fields, out: Fields, k: string) {
    (k in out <==> k in x) && (k in x ==> out[k] == Downgraded(x[k]))
  }

  lemma PlainCarries(a: Fields, x: Fields, k: string)
    requires a.Keys <= ANNOTATIONS && "openapi" !in x && !Collapsible(x)
    requires k !in ANNOTATIONS && k !in TYPING && (k == "allOf" ==> "$ref" !in x)
    ensures Carried(x, Downgraded(Object(a + x)).fields, k)
  {
    PlainReachesSteps(a, x);
    StepsKeepOthers(a + x, k);
  }

  lemma PlainCarriesApplicators(a: Fields, x: Fields)
    requires a.Keys <= ANNOTATIONS && "openapi" !in x && !Collapsible(x)
    ensures var out := Downgraded(Object(a + x)).fields;
      && Carried(x, out, "anyOf") && Carried(x, out, "oneOf") && Carried(x, out, "not")
      && Carried(x, out, "items") && Carried(x, out, "properties") && Carried(x, out, "additionalProperties")
  {
    PlainCarries(a, x, "anyOf");
    PlainCarries(a, x, "oneOf");
    PlainCarries(a, x, "not");
    PlainCarries(a, x, "items");
    PlainCarries(a, x, "properties");
    PlainCarries(a, x, "additionalProperties");
  }

  lemma PlainType(a: Fields, x: Fields, v: Value)
    requires a.Keys <= ANNOTATIONS && "openapi" !in x && !Collapsible(x) && "nullable" !in x
    requires "type" in x ==> FaithfulType(x["type"])
    ensures TypeAllows30(Downgraded(Object(a + x)).fields, v) <==> TypeAllows31(x, v)
  {
    var m := a + x;
    PlainReachesSteps(a, x);
    StepsFlatten(m, "type");
    StepsFlatten(m, "nullable");
    TypeAgrees(m, v);
    var t := TypeFlattened(m);
    assert "nullable" in t ==> t["nullable"] == Bool(true);
  }

  lemma PlainAssertions(r: Reader, a: Fields, x: Fields, v: Value)
    requires a.Keys <= ANNOTATIONS && "openapi" !in x && !Collapsible(x)
    requires forall k | k in x && k !in ANNOTATIONS && k !in APPLICATORS && k !in TYPING :: Normal(x[k])
    ensures Asserted(DowngradedReader(r), Downgraded(Object(a + x)).fields, v) <==> Asserted(r, x, v)
  {
    var out := Downgraded(Object(a + x)).fields;
    forall k | k !in ANNOTATIONS && k !in APPLICATORS && k !in TYPING
      ensures (k in out <==> k in x) && (k in x ==> out[k] == x[k])
    {
      PlainCarries(a, x, k);
      if k in x { NormalIsFixed(x[k]); }
    }
  }

  // ---------------------------------------------------------------------------------------
  // Meaning is preserved
  // ---------------------------------------------------------------------------------------

  lemma {:induction false} MembersAgree(r: Reader, fuel: nat, members: Value, v: Value, scope: Scope)
    requires FaithfulReader(r, scope) && (scope.arms ==> NullFree(v)) && FaithfulMembers(members, scope)
    ensures Verdicts30(DowngradedReader(r), fuel, Downgraded(members), v) == Verdicts31(r, fuel, members, v)
    decreases fuel, members, 6
  {
    forall i | 0 <= i < |members.items| { Meaning(r, fuel, members.items[i], v, scope); }
  }

  lemma {:induction false} ElementsAgree(r: Reader, fuel: nat, item: Value, v: Value, scope: Scope)
    requires FaithfulReader(r, scope) && (scope.arms ==> NullFree(v)) && Faithful(item, scope)
    ensures Elements30(DowngradedReader(r), fuel, Downgraded(item), v) <==> Elements31(r, fuel, item, v)
    decreases fuel, item, 6
  {
    if v.Array? {
      forall i | 0 <= i < |v.items| { Meaning(r, fuel, item, v.items[i], scope); }
    }
  }

  lemma {:induction false} PropertiesAgree(r: Reader, fuel: nat, properties: Value, v: Value, scope: Scope)
    requires FaithfulReader(r, scope) && (scope.arms ==> NullFree(v)) && FaithfulProperties(properties, scope)
    ensures Properties30(DowngradedReader(r), fuel, Downgraded(properties), v) <==> Properties31(r, fuel, properties, v)
    decreases fuel, properties, 6
  {
    if v.Object? {
      PropertyNamesKeptIff(properties.fields);
      forall p | p in properties.fields && p in v.fields {
        Meaning(r, fuel, properties.fields[p], v.fields[p], scope);
      }
    }
  }

  lemma {:induction false} AdditionalAgree(r: Reader, fuel: nat, rest: Value, declared: set<string>, v: Value, scope: Scope)
    requires FaithfulReader(r, scope) && (scope.arms ==> NullFree(v)) && (rest.Bool? || Faithful(rest, scope))
    ensures Additional30(DowngradedReader(r), fuel, Downgraded(rest), declared, v) ==
            Additional31(r, fuel, rest, declared, v)
    decreases fuel, rest, 6
  {
    if v.Object? && rest.Object? {
      forall p | p in v.fields { Meaning(r, fuel, rest, v.fields[p], scope); }
    }
  }

  lemma {:induction false} ReferenceAgrees(r: Reader, fuel: nat, target: Value, v: Value, scope: Scope)
    requires FaithfulReader(r, scope) && (scope.arms ==> NullFree(v)) && RefersWithin(target, scope.names)
    ensures Resolved30(DowngradedReader(r), fuel, target, v) == Resolved31(r, fuel, target, v)
    decreases fuel, target, 0
  {
    var name := ComponentName(target);
    if fuel > 0 && name != [] && name[0] in r.components {
      assert name[0] in name;
      FollowedAgrees(r, fuel, target, v, scope, name[0]);
    } else {
      ReaderKeys(r);
      Unresolved(DowngradedReader(r), fuel, target, v);
      Unresolved(r, fuel, target, v);
    }
  }

  /** A reference to a component that exists is what the component is, one hop on. */
  lemma {:induction false} FollowedAgrees(r: Reader, fuel: nat, target: Value, v: Value, scope: Scope, name: string)
    requires FaithfulReader(r, scope) && (scope.arms ==> NullFree(v))
    requires fuel > 0 && ComponentName(target) == [name] && name in r.components && name in scope.names
    ensures Resolved30(DowngradedReader(r), fuel, target, v) == Resolved31(r, fuel, target, v)
    decreases fuel - 1, r.components[name], 6
  {
    Meaning(r, fuel - 1, r.components[name], v, scope);
  }

  lemma ReaderKeys(r: Reader)
    ensures DowngradedReader(r).components.Keys == r.components.Keys && DowngradedReader(r).exhausted == r.exhausted
  {}

  /** A reference that leads nowhere accepts nothing; one that may not be followed has the reader's verdict. */
  lemma Unresolved(r: Reader, fuel: nat, target: Value, v: Value)
    requires fuel == 0 || ComponentName(target) == [] || ComponentName(target)[0] !in r.components
    ensures Resolved30(r, fuel, target, v) == (fuel == 0 && r.exhausted)
    ensures Resolved31(r, fuel, target, v) == (fuel == 0 && r.exhausted)
  {}

  lemma EveryOne(verdict: bool)
    ensures Every([verdict]) <==> verdict
  {
    assert [verdict][0] == verdict;
  }

  lemma ExactlyOneOfTwo(verdicts: seq<bool>, verdict: bool)
    requires verdicts == [false, verdict] || verdicts == [verdict, false]
    ensures ExactlyOne(verdicts) <==> verdict
  {
    if verdict { assert verdicts[if verdicts[0] then 0 else 1]; }
  }

  /** The wrapped reference says in `allOf` what the bare one said. */
  lemma {:induction false} WrappedAgrees(r: Reader, fuel: nat, target: Value, v: Value, scope: Scope)
    requires FaithfulReader(r, scope) && (scope.arms ==> NullFree(v))
    requires target.String? && RefersWithin(target, scope.names)
    ensures var wrapped := Downgraded(Array([Object(map["$ref" := target])]));
            Every(Verdicts30(DowngradedReader(r), fuel, wrapped, v)) <==> Resolved31(r, fuel, target, v)
    decreases fuel, target, 1
  {
    var inner := Object(map["$ref" := target]);
    var wrapped := Array([inner]);
    assert Normal(inner) && Normal(wrapped);
    NormalIsFixed(wrapped);
    ReferenceAgrees(r, fuel, target, v, scope);
    assert Verdicts30(DowngradedReader(r), fuel, wrapped, v) == [Accepts30(DowngradedReader(r), fuel, inner, v)];
    EveryOne(Accepts30(DowngradedReader(r), fuel, inner, v));
  }

  lemma {:induction false} CombinedAgree(r: Reader, fuel: nat, x: Fields, out: Fields, v: Value, scope: Scope)
    requires FaithfulReader(r, scope) && (scope.arms ==> NullFree(v))
    requires Faithful(Object(x), scope) && !Collapsible(x)
    requires Carried(x, out, "anyOf") && Carried(x, out, "oneOf") && Carried(x, out, "not")
    ensures Combined30(DowngradedReader(r), fuel, Object(out), v) <==> Combined31(r, fuel, Object(x), v)
    decreases fuel, Object(x), 2
  {
    if "anyOf" in x { MembersAgree(r, fuel, x["anyOf"], v, scope); }
    if "oneOf" in x { FaithfulUnion(x, scope); MembersAgree(r, fuel, x["oneOf"], v, scope); }
    if "not" in x { Meaning(r, fuel, x["not"], v, scope); }
  }

  lemma {:induction false} ShapedAgree(r: Reader, fuel: nat, x: Fields, out: Fields, v: Value, scope: Scope)
    requires FaithfulReader(r, scope) && (scope.arms ==> NullFree(v))
    requires Faithful(Object(x), scope)
    requires Carried(x, out, "items") && Carried(x, out, "properties") && Carried(x, out, "additionalProperties")
    ensures Shaped30(DowngradedReader(r), fuel, Object(out), v) <==> Shaped31(r, fuel, Object(x), v)
    decreases fuel, Object(x), 2
  {
    if "items" in x { ElementsAgree(r, fuel, x["items"], v, scope); }
    if "properties" in x {
      PropertiesAgree(r, fuel, x["properties"], v, scope);
      DeclaredKept(x["properties"], scope);
    }
    assert Declared(out) == Declared(x);
    if "additionalProperties" in x {
      AdditionalAgree(r, fuel, x["additionalProperties"], Declared(x), v, scope);
    }
  }

  lemma DeclaredKept(properties: Value, scope: Scope)
    requires FaithfulProperties(properties, scope)
    ensures Downgraded(properties).Object? && Downgraded(properties).fields.Keys == properties.fields.Keys
  {
    PropertyNamesKeptIff(properties.fields);
  }

  lemma ReferenceWrapped(a: Fields, x: Fields)
    requires a.Keys <= ANNOTATIONS && "openapi" !in x && !Collapsible(x)
    requires "$ref" in x ==> NeedsWrap(a + x)
    ensures var out := Downgraded(Object(a + x)).fields;
      && "$ref" !in out
      && ("$ref" in x ==> "allOf" in out && out["allOf"] == Downgraded(Array([Object(map["$ref" := x["$ref"]])])))
  {
    PlainReachesSteps(a, x);
    StepsReference(a + x);
    if "$ref" in x {
      assert (a + x)["$ref"] == x["$ref"];
    }
  }

  /** The reference and the `allOf`: a faithful schema has at most one, and a wrap turns the first into the second. */
  lemma {:induction false} ConjunctsAgree(r: Reader, fuel: nat, a: Fields, x: Fields, v: Value, scope: Scope)
    requires FaithfulReader(r, scope) && (scope.arms ==> NullFree(v))
    requires a.Keys <= ANNOTATIONS && Faithful(Object(x), scope) && !Collapsible(x)
    requires "$ref" in x ==> NeedsWrap(a + x)
    ensures var out := Downgraded(Object(a + x)).fields;
      && "$ref" !in out
      && (Conjoined30(DowngradedReader(r), fuel, Object(out), v) <==> Conjoined31(r, fuel, Object(x), v))
    decreases fuel, Object(x), 2
  {
    var out := Downgraded(Object(a + x)).fields;
    ReferenceWrapped(a, x);
    if "$ref" in x {
      WrappedAgrees(r, fuel, x["$ref"], v, scope);
    } else {
      PlainCarries(a, x, "allOf");
      if "allOf" in x { MembersAgree(r, fuel, x["allOf"], v, scope); }
    }
  }

  /** The schema `x` under annotations `a`, when no collapse applies. */
  lemma {:induction false} MeaningPlain(r: Reader, fuel: nat, a: Fields, x: Fields, v: Value, scope: Scope)
    requires FaithfulReader(r, scope) && (scope.arms ==> NullFree(v))
    requires a.Keys <= ANNOTATIONS && Faithful(Object(x), scope) && !Collapsible(x)
    requires "$ref" in x ==> NeedsWrap(a + x)
    ensures Accepts30(DowngradedReader(r), fuel, Downgraded(Object(a + x)), v) <==> Accepts31(r, fuel, Object(x), v)
    decreases fuel, Object(x), 3
  {
    var out := Downgraded(Object(a + x)).fields;
    PlainCarriesApplicators(a, x);
    CombinedAgree(r, fuel, x, out, v, scope);
    ShapedAgree(r, fuel, x, out, v, scope);
    ConjunctsAgree(r, fuel, a, x, v, scope);
    PlainType(a, x, v);
    PlainAssertions(r, a, x, v);
  }

  /** One turn of the collapse changes nothing about what the pass yields. */
  lemma CollapseFirst(m: Fields)
    requires Collapsible(m) && "openapi" !in m && "openapi" !in CollapseOnce(m)
    ensures Downgraded(Object(m)) == Downgraded(Object(CollapseOnce(m)))
  {
    assert Prepared(m) == Prepared(CollapseOnce(m));
  }

  lemma NullSchemaRejects(r: Reader, fuel: nat, v: Value)
    ensures Accepts31(r, fuel, NULL_SCHEMA, v) <==> v.Null?
  {
    assert NULL_SCHEMA.fields.Keys == {"type"};
    assert TypeAllows31(NULL_SCHEMA.fields, v) <==> v.Null?;
  }

  /** A nullable union among annotations means its other arm, on any value but null. */
  lemma UnionMeansArm(r: Reader, fuel: nat, x: Fields, f: Fields, v: Value)
    requires UnionWith(x, f) && x.Keys - {"oneOf"} <= ANNOTATIONS
    requires !v.Null?
    ensures Accepts31(r, fuel, Object(x), v) <==> Accepts31(r, fuel, Object(f), v)
  {
    var arm := Object(f);
    NullSchemaRejects(r, fuel, v);
    var verdicts := Verdicts31(r, fuel, x["oneOf"], v);
    var verdict := Accepts31(r, fuel, arm, v);
    assert verdicts == [false, verdict] || verdicts == [verdict, false];
    ExactlyOneOfTwo(verdicts, verdict);
    OnlyUnion(r, fuel, x, v);
  }

  lemma OnlyUnion(r: Reader, fuel: nat, x: Fields, v: Value)
    requires "oneOf" in x && x.Keys - {"oneOf"} <= ANNOTATIONS
    ensures Accepts31(r, fuel, Object(x), v) <==> ExactlyOne(Verdicts31(r, fuel, x["oneOf"], v))
  {
    forall k | k in x && k != "oneOf" ensures k in ANNOTATIONS {
      assert k in x.Keys - {"oneOf"};
    }
    assert Asserted(r, x, v);
    assert TypeAllows31(x, v) && Conjoined31(r, fuel, Object(x), v);
  }

  lemma OnlyReference(r: Reader, fuel: nat, x: Fields, v: Value)
    requires "$ref" in x && x.Keys - {"$ref"} <= ANNOTATIONS
    ensures Accepts31(r, fuel, Object(x), v) <==> Resolved31(r, fuel, x["$ref"], v)
  {
    forall k | k in x && k != "$ref" ensures k in ANNOTATIONS {
      assert k in x.Keys - {"$ref"};
    }
    assert Asserted(r, x, v);
    assert TypeAllows31(x, v) && Combined31(r, fuel, Object(x), v) && Shaped31(r, fuel, Object(x), v);
  }

  lemma CollapsedArm(x: Fields)
    requires Collapsible(x)
    ensures UnionWith(x, NonNullArm(x["oneOf"].items).fields)
  {
    var members := x["oneOf"].items;
    assert members == [members[0], members[1]];
  }

  lemma CollapseUnder(a: Fields, x: Fields)
    requires a.Keys <= ANNOTATIONS && Collapsible(x)
    ensures Collapsible(a + x) && CollapseOnce(a + x) == a + (x - {"oneOf"}) + NonNullArm(x["oneOf"].items).fields
  {
    assert (a + x)["oneOf"] == x["oneOf"];
    assert (a + x) - {"oneOf"} == a + (x - {"oneOf"});
  }

  /** A nullable union goes through as its other arm, with the union's annotations beside it. */
  lemma {:induction false} MeaningUnion(r: Reader, fuel: nat, a: Fields, x: Fields, v: Value, scope: Scope)
    requires FaithfulReader(r, scope) && (scope.arms ==> NullFree(v))
    requires a.Keys <= ANNOTATIONS && Faithful(Object(x), scope) && Collapsible(x)
    ensures Accepts30(DowngradedReader(r), fuel, Downgraded(Object(a + x)), v) <==> Accepts31(r, fuel, Object(x), v)
    decreases fuel, Object(x), 3
  {
    FaithfulUnion(x, scope);
    var y := NonNullArm(x["oneOf"].items).fields;
    var m := a + x;
    var outer := a + (x - {"oneOf"});
    CollapseUnder(a, x);
    CollapseFirst(m);
    MeaningUnder(r, fuel, outer, y, v, scope);
    CollapsedArm(x);
    UnionMeansArm(r, fuel, x, y, v);
  }

  /** A reference beside nothing but reference annotations is left as it is. */
  lemma {:induction false} MeaningReference(r: Reader, fuel: nat, a: Fields, x: Fields, v: Value, scope: Scope)
    requires FaithfulReader(r, scope) && (scope.arms ==> NullFree(v))
    requires a.Keys <= ANNOTATIONS && Faithful(Object(x), scope) && !Collapsible(x)
    requires "$ref" in x && !NeedsWrap(a + x)
    ensures Accepts30(DowngradedReader(r), fuel, Downgraded(Object(a + x)), v) <==> Accepts31(r, fuel, Object(x), v)
    decreases fuel, Object(x), 3
  {
    var m := a + x;
    PlainReachesSteps(a, x);
    StepsReference(m);
    assert m["$ref"] == x["$ref"];
    ReferenceAgrees(r, fuel, x["$ref"], v, scope);
    assert x.Keys <= m.Keys;
    OnlyReference(r, fuel, x, v);
  }

  /** The general step: a faithful schema `x` whose object also carries annotations `a`. */
  lemma {:induction false} MeaningUnder(r: Reader, fuel: nat, a: Fields, x: Fields, v: Value, scope: Scope)
    requires FaithfulReader(r, scope) && (scope.arms ==> NullFree(v))
    requires a.Keys <= ANNOTATIONS && Faithful(Object(x), scope)
    ensures Accepts30(DowngradedReader(r), fuel, Downgraded(Object(a + x)), v) <==> Accepts31(r, fuel, Object(x), v)
    decreases fuel, Object(x), 4
  {
    if Collapsible(x) {
      MeaningUnion(r, fuel, a, x, v, scope);
    } else if "$ref" in x && !NeedsWrap(a + x) {
      MeaningReference(r, fuel, a, x, v, scope);
    } else {
      MeaningPlain(r, fuel, a, x, v, scope);
    }
  }

  /**
   Meaning preservation. A faithful schema, downgraded and read by 3.0 rules against the downgraded
   components, accepts exactly what it accepted by 3.1 rules against the original ones: on every
   null-free value when nullable unions occur, and on every value, null included, when they do not.
   Only the components its references lead to have to be faithful.
   The fuel is any bound on the number of references followed.
   */
  lemma {:induction false} Meaning(r: Reader, fuel: nat, schema: Value, v: Value, scope: Scope)
    requires FaithfulReader(r, scope) && Faithful(schema, scope)
    requires scope.arms ==> NullFree(v)
    ensures Accepts30(DowngradedReader(r), fuel, Downgraded(schema), v) <==> Accepts31(r, fuel, schema, v)
    decreases fuel, schema, 5
  {
    assert map[] + schema.fields == schema.fields;
    assert schema == Object(schema.fields);
    MeaningUnder(r, fuel, map[], schema.fields, v, scope);
  }
}
