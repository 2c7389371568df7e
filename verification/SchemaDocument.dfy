/** The whole document, and the limits of what the rewriter keeps. */
module SchemaDocument {
  import opened Json
  import opened Downgrade
  import opened DowngradeShapes
  import opened SchemaMeaning

  // ---------------------------------------------------------------------------------------
  // Document level
  // ---------------------------------------------------------------------------------------

  function Child(value: Value, k: string): Value {
    if value.Object? && k in value.fields then value.fields[k] else Null
  }

  /** `/components/schemas` of a document. */
  function Schemas(document: Value): map<string, Value> {
    var schemas := Child(Child(document, "components"), "schemas");
    if schemas.Object? then schemas.fields else map[]
  }

  function DocumentReader(document: Value, assertion: (string, Value, Value) -> bool, exhausted: bool): Reader {
    Reader(Schemas(document), assertion, exhausted)
  }

  /** No union stands where the document keeps its components. */
  predicate PlainPath(document: Value) {
    && (document.Object? ==> !Collapsible(document.fields))
    && (Child(document, "components").Object? ==> !Collapsible(Child(document, "components").fields))
  }

  lemma ChildDowngraded(value: Value, k: string)
    requires value.Object? ==> !Collapsible(value.fields)
    requires k !in {"$ref", "type", "nullable", "examples", "example", "allOf", "openapi"}
    ensures Child(Downgraded(value), k) == Downgraded(Child(value, k))
  {
    if value.Object? {
      var m := value.fields;
      var v := Reversioned(m);
      assert !Collapsible(v);
      assert Prepared(m) == Steps(v);
      StepsKeepOthers(v, k);
    }
  }

  lemma SchemasChildDowngraded(document: Value)
    requires PlainPath(document)
    ensures Child(Child(Downgraded(document), "components"), "schemas") == Downgraded(Child(Child(document, "components"), "schemas"))
  {
    ChildDowngraded(document, "components");
    ChildDowngraded(Child(document, "components"), "schemas");
  }

  lemma NamedSchemasDowngraded(schemas: Fields)
    requires OrdinaryNames(schemas) && forall n | n in schemas :: schemas[n].Object?
    ensures Downgraded(Object(schemas)) == Object(map n | n in schemas :: Downgraded(schemas[n]))
  {
    PropertyNamesKeptIff(schemas);
    var out := Downgraded(Object(schemas)).fields;
    assert out.Keys == schemas.Keys;
    assert out == map n | n in schemas :: Downgraded(schemas[n]);
  }

  /** The rewritten document's components are the rewritten components, under the same names. */
  lemma ComponentsDowngraded(document: Value)
    requires PlainPath(document) && OrdinaryNames(Schemas(document))
    requires forall n | n in Schemas(document) :: Schemas(document)[n].Object?
    ensures Schemas(Downgraded(document)) == map n | n in Schemas(document) :: Downgraded(Schemas(document)[n])
  {
    SchemasChildDowngraded(document);
    NamedSchemasDowngraded(Schemas(document));
  }

  /** The document's components, of which those in scope are faithful. */
  predicate FaithfulDocument(document: Value, scope: Scope) {
    && PlainPath(document) && OrdinaryNames(Schemas(document))
    && (forall c | c in Schemas(document) :: Schemas(document)[c].Object?)
    && forall c | c in Schemas(document) && c in scope.names :: Faithful(Schemas(document)[c], scope)
  }

  /**
   A component of a document means in the rewritten document, read by 3.0 rules, what it meant in the
   original, read by 3.1 rules, when it and the components its references lead to are faithful,
   whatever the others are.
   */
  lemma DocumentMeaning(document: Value, n: string, fuel: nat, v: Value, scope: Scope,
                        assertion: (string, Value, Value) -> bool, exhausted: bool)
    requires FaithfulDocument(document, scope)
    requires n in Schemas(document) && n in scope.names && (scope.arms ==> NullFree(v))
    ensures n in Schemas(Downgraded(document))
    ensures Accepts30(DocumentReader(Downgraded(document), assertion, exhausted), fuel, Schemas(Downgraded(document))[n], v)
         == Accepts31(DocumentReader(document, assertion, exhausted), fuel, Schemas(document)[n], v)
  {
    ComponentsDowngraded(document);
    var r := DocumentReader(document, assertion, exhausted);
    assert DocumentReader(Downgraded(document), assertion, exhausted) == DowngradedReader(r);
    Meaning(r, fuel, Schemas(document)[n], v, scope);
  }

  // ---------------------------------------------------------------------------------------
  // Schemas anywhere in the document
  // ---------------------------------------------------------------------------------------

  /** One step down a document, as in a JSON pointer. */
  datatype Step = Key(key: string) | Index(index: nat)

  /** Below a value, by one step; `Null` where there is nothing. */
  function Below(value: Value, step: Step): Value {
    match step
    case Key(k) => Child(value, k)
    case Index(i) => if value.Array? && i < |value.items| then value.items[i] else Null
  }

  function At(value: Value, path: seq<Step>): Value
    decreases |path|
  {
    if path == [] then value else At(Below(value, path[0]), path[1..])
  }

  /** Keys that the pass reads or writes itself. */
  const TOUCHED_KEYS: set<string> := {"$ref", "type", "nullable", "examples", "example", "allOf", "openapi"}

  /** The path leads through no union that collapses, and by no key the pass takes for itself. */
  predicate Plain(value: Value, path: seq<Step>)
    decreases |path|
  {
    path == [] ||
    (&& (value.Object? ==> !Collapsible(value.fields))
     && (path[0].Key? ==> path[0].key !in TOUCHED_KEYS)
     && Plain(Below(value, path[0]), path[1..]))
  }

  lemma BelowDowngraded(value: Value, step: Step)
    requires value.Object? ==> !Collapsible(value.fields)
    requires step.Key? ==> step.key !in TOUCHED_KEYS
    ensures Below(Downgraded(value), step) == Downgraded(Below(value, step))
  {
    if step.Key? { ChildDowngraded(value, step.key); }
  }

  /** What stands at a plain path of the rewritten document is what stood there, rewritten. */
  lemma {:induction false} AtDowngraded(value: Value, path: seq<Step>)
    requires Plain(value, path)
    ensures At(Downgraded(value), path) == Downgraded(At(value, path))
    decreases |path|
  {
    if path != [] {
      BelowDowngraded(value, path[0]);
      AtDowngraded(Below(value, path[0]), path[1..]);
    }
  }

  /**
   A faithful schema at any plain path, of a request, a response or a parameter as well as a component,
   means in the rewritten document what it meant in the original.
   */
  lemma MeaningAt(document: Value, path: seq<Step>, fuel: nat, v: Value, scope: Scope,
                  assertion: (string, Value, Value) -> bool, exhausted: bool)
    requires FaithfulDocument(document, scope) && Plain(document, path)
    requires Faithful(At(document, path), scope) && (scope.arms ==> NullFree(v))
    ensures Accepts30(DocumentReader(Downgraded(document), assertion, exhausted), fuel, At(Downgraded(document), path), v)
         == Accepts31(DocumentReader(document, assertion, exhausted), fuel, At(document, path), v)
  {
    ComponentsDowngraded(document);
    AtDowngraded(document, path);
    var r := DocumentReader(document, assertion, exhausted);
    assert DocumentReader(Downgraded(document), assertion, exhausted) == DowngradedReader(r);
    Meaning(r, fuel, At(document, path), v, scope);
  }

  // ---------------------------------------------------------------------------------------
  // What a property named after a keyword loses
  // ---------------------------------------------------------------------------------------

  const LOST_NAMES: set<string> := {"type", "examples"}

  /** Schemas of properties, of which the pass takes none for a reference to wrap. */
  predicate PropertySchemas(properties: Value) {
    && properties.Object? && !NeedsWrap(properties.fields)
    && forall p | p in properties.fields :: properties.fields[p].Object?
  }

  /** The schema without what it says of the properties that have a lost name. */
  function Stripped(m: Fields): Fields
    requires "properties" in m && m["properties"].Object?
  {
    m["properties" := Object(m["properties"].fields - LOST_NAMES)]
  }

  /** The pass treats a map of property schemas as if the lost names were not there. */
  lemma LostNamesDropped(properties: Value)
    requires PropertySchemas(properties)
    ensures Downgraded(properties) == Downgraded(Object(properties.fields - LOST_NAMES))
    ensures OrdinaryNames(properties.fields - LOST_NAMES)
  {
    var p := properties.fields;
    var rest := p - LOST_NAMES;
    assert Reversioned(p) == p && Collapsed(p) == p && Wrapped(p) == p;
    assert TypeFlattened(p) == p - {"type"};
    assert ExamplePicked(p - {"type"}) == rest;
    assert Prepared(p) == rest && Prepared(rest) == rest;
  }

  /** No step looks at `properties`. */
  lemma WrappedApart(m: Fields, p: Value)
    requires "properties" in m
    ensures "properties" in Wrapped(m) && Wrapped(m)["properties"] == m["properties"]
    ensures Wrapped(m["properties" := p]) == Wrapped(m)["properties" := p]
  {
    assert m["properties" := p].Keys == m.Keys;
  }

  lemma FlattenedApart(m: Fields, p: Value)
    requires "properties" in m
    ensures "properties" in TypeFlattened(m) && TypeFlattened(m)["properties"] == m["properties"]
    ensures TypeFlattened(m["properties" := p]) == TypeFlattened(m)["properties" := p]
  {
    assert m["properties" := p] - {"type"} == (m - {"type"})["properties" := p];
  }

  lemma ExamplePickedApart(m: Fields, p: Value)
    requires "properties" in m
    ensures "properties" in ExamplePicked(m) && ExamplePicked(m)["properties"] == m["properties"]
    ensures ExamplePicked(m["properties" := p]) == ExamplePicked(m)["properties" := p]
  {
    assert m["properties" := p] - {"examples"} == (m - {"examples"})["properties" := p];
  }

  lemma PreparedApart(m: Fields, p: Value)
    requires "properties" in m && !Collapsible(m) && "openapi" !in m
    ensures "properties" in Prepared(m) && Prepared(m)["properties"] == m["properties"]
    ensures Prepared(m["properties" := p]) == Prepared(m)["properties" := p]
  {
    var w := Wrapped(m);
    var t := TypeFlattened(w);
    WrappedApart(m, p);
    FlattenedApart(w, p);
    ExamplePickedApart(t, p);
    assert Reversioned(m) == m && Collapsed(m) == m;
    assert Reversioned(m["properties" := p]) == m["properties" := p] && Collapsed(m["properties" := p]) == m["properties" := p];
  }

  lemma StrippedAlike(m: Fields)
    requires "properties" in m && PropertySchemas(m["properties"]) && !Collapsible(m) && "openapi" !in m
    ensures Downgraded(Object(m)) == Downgraded(Object(Stripped(m)))
  {
    var p := Stripped(m)["properties"];
    LostNamesDropped(m["properties"]);
    PreparedApart(m, p);
    var before, after := Downgraded(Object(m)).fields, Downgraded(Object(Stripped(m))).fields;
    assert before.Keys == after.Keys;
    assert forall k | k in before :: before[k] == after[k];
  }

  /** What a schema with such properties means once it is rewritten: what it meant without them. */
  lemma LostPropertiesMeaning(r: Reader, fuel: nat, m: Fields, v: Value, scope: Scope)
    requires "properties" in m && PropertySchemas(m["properties"])
    requires FaithfulReader(r, scope) && Faithful(Object(Stripped(m)), scope) && (scope.arms ==> NullFree(v))
    ensures Accepts30(DowngradedReader(r), fuel, Downgraded(Object(m)), v) <==> Accepts31(r, fuel, Object(Stripped(m)), v)
  {
    var x := Stripped(m);
    assert "properties" in x.Keys - {"oneOf"} && "properties" !in ANNOTATIONS;
    assert !Collapsible(x);
    assert "oneOf" in m ==> m["oneOf"] == x["oneOf"];
    StrippedAlike(m);
    Meaning(r, fuel, Object(x), v, scope);
  }

  /** Some property with a lost name has a value that its schema rejects. */
  ghost predicate Loses(r: Reader, fuel: nat, m: Fields, v: Value)
    requires "properties" in m && m["properties"].Object?
  {
    v.Object? && exists p :: p in LOST_NAMES && p in m["properties"].fields && p in v.fields
                          && !Accepts31(r, fuel, m["properties"].fields[p], v.fields[p])
  }

  lemma PropertiesStripped(r: Reader, fuel: nat, m: Fields, v: Value)
    requires "properties" in m && m["properties"].Object?
    ensures Properties31(r, fuel, m["properties"], v) <==> Properties31(r, fuel, Stripped(m)["properties"], v) && !Loses(r, fuel, m, v)
  {
    var all, kept := m["properties"].fields, Stripped(m)["properties"].fields;
    assert forall p :: p in all <==> p in kept || (p in all && p in LOST_NAMES);
  }

  /** By 3.1 rules a schema says what it says without those properties, and what it says of them. */
  lemma StrippedSays(r: Reader, fuel: nat, m: Fields, v: Value)
    requires "properties" in m && m["properties"].Object? && "additionalProperties" !in m
    ensures Accepts31(r, fuel, Object(m), v) <==> Accepts31(r, fuel, Object(Stripped(m)), v) && !Loses(r, fuel, m, v)
  {
    var x := Stripped(m);
    PropertiesStripped(r, fuel, m, v);
    assert forall k | k != "properties" :: (k in m <==> k in x) && (k in m ==> m[k] == x[k]);
    assert TypeAllows31(x, v) == TypeAllows31(m, v) && Asserted(r, x, v) == Asserted(r, m, v);
    assert Conjoined31(r, fuel, Object(x), v) == Conjoined31(r, fuel, Object(m), v);
    assert Combined31(r, fuel, Object(x), v) == Combined31(r, fuel, Object(m), v);
  }

  /**
   The exact loss at properties named `type` or `examples`, beside any other keywords: the verdict changes
   on a value if and only if the rest of the schema accepts it and such a property's own schema does not;
   then it is accepted.
   */
  lemma PropertyLossIff(r: Reader, fuel: nat, m: Fields, v: Value, scope: Scope)
    requires "properties" in m && PropertySchemas(m["properties"]) && "additionalProperties" !in m
    requires FaithfulReader(r, scope) && Faithful(Object(Stripped(m)), scope) && (scope.arms ==> NullFree(v))
    ensures Accepts30(DowngradedReader(r), fuel, Downgraded(Object(m)), v) != Accepts31(r, fuel, Object(m), v)
       <==> Accepts31(r, fuel, Object(Stripped(m)), v) && Loses(r, fuel, m, v)
    ensures Accepts31(r, fuel, Object(m), v) ==> Accepts30(DowngradedReader(r), fuel, Downgraded(Object(m)), v)
  {
    LostPropertiesMeaning(r, fuel, m, v, scope);
    StrippedSays(r, fuel, m, v);
  }

  /** The same of a component that has such properties, in a document whose components in scope are faithful. */
  lemma DocumentLossIff(document: Value, n: string, fuel: nat, v: Value, scope: Scope,
                        assertion: (string, Value, Value) -> bool, exhausted: bool)
    requires FaithfulDocument(document, scope) && n in Schemas(document)
    requires var m := Schemas(document)[n].fields;
      && "properties" in m && PropertySchemas(m["properties"]) && "additionalProperties" !in m
      && Faithful(Object(Stripped(m)), scope) && (scope.arms ==> NullFree(v))
    ensures n in Schemas(Downgraded(document))
    ensures var r, m := DocumentReader(document, assertion, exhausted), Schemas(document)[n].fields;
      Accepts30(DocumentReader(Downgraded(document), assertion, exhausted), fuel, Schemas(Downgraded(document))[n], v)
        != Accepts31(r, fuel, Schemas(document)[n], v)
      <==> Accepts31(r, fuel, Object(Stripped(m)), v) && Loses(r, fuel, m, v)
  {
    ComponentsDowngraded(document);
    var r, m := DocumentReader(document, assertion, exhausted), Schemas(document)[n].fields;
    assert DocumentReader(Downgraded(document), assertion, exhausted) == DowngradedReader(r);
    assert Schemas(document)[n] == Object(m);
    PropertyLossIff(r, fuel, m, v, scope);
  }

  // ---------------------------------------------------------------------------------------
  // What a nullable union loses
  // ---------------------------------------------------------------------------------------

  /** On null itself a collapsed union answers the opposite of what the union answered. */
  lemma NullVerdictFlips(r: Reader, fuel: nat, x: Fields, f: Fields, names: set<string>)
    requires FaithfulReader(r, Scope(false, names)) && UnionWith(x, f)
    requires x.Keys - {"oneOf"} <= ANNOTATIONS && Faithful(Object(f), Scope(false, names))
    ensures Accepts30(DowngradedReader(r), fuel, Downgraded(Object(x)), Null) <==> !Accepts31(r, fuel, Object(x), Null)
  {
    SplicedIs(x, f);
    var outer := x - {"oneOf"};
    assert "openapi" !in x by {
      assert "openapi" !in x.Keys - {"oneOf"};
    }
    CollapseFirst(x);
    MeaningUnder(r, fuel, outer, f, Null, Scope(false, names));
    UnionAtNull(r, fuel, x, f);
  }

  lemma UnionAtNull(r: Reader, fuel: nat, x: Fields, f: Fields)
    requires UnionWith(x, f) && x.Keys - {"oneOf"} <= ANNOTATIONS
    ensures Accepts31(r, fuel, Object(x), Null) <==> !Accepts31(r, fuel, Object(f), Null)
  {
    var arm := Object(f);
    NullSchemaRejects(r, fuel, Null);
    OnlyUnion(r, fuel, x, Null);
    var verdicts := Verdicts31(r, fuel, x["oneOf"], Null);
    var verdict := Accepts31(r, fuel, arm, Null);
    assert verdicts == [true, verdict] || verdicts == [verdict, true];
    OneTrueOfTwo(verdicts, verdict);
  }

  lemma OneTrueOfTwo(verdicts: seq<bool>, verdict: bool)
    requires verdicts == [true, verdict] || verdicts == [verdict, true]
    ensures ExactlyOne(verdicts) <==> !verdict
  {
    if verdict {
      assert verdicts[0] && verdicts[1];
    } else {
      var i := if verdicts == [true, verdict] then 0 else 1;
      assert verdicts[i] && !verdicts[1 - i];
    }
  }

  // ---------------------------------------------------------------------------------------
  // What a list of types loses
  // ---------------------------------------------------------------------------------------

  const TYPE_NAMES: set<string> := {"boolean", "number", "integer", "string", "array", "object"}

  /** Whether every value of the one type has the other. */
  predicate Covers(name: string, other: string) {
    other !in TYPE_NAMES || name == other || (name == "number" && other == "integer")
  }

  /**
   Whether flattening a list of names keeps the values it allows: some name is not "null", the first
   such name covers all the others, and "null" occurs only in a list of two.
   */
  ghost predicate KeepsTypes(names: seq<Value>)
    requires forall i | 0 <= i < |names| :: names[i].String?
  {
    && (exists i :: FirstNamed(names, i) &&
          forall j | 0 <= j < |names| && names[j] != String("null") :: Covers(names[i].text, names[j].text))
    && (String("null") in names ==> |names| == 2)
  }

  lemma KeepsTypesIs(names: seq<Value>)
    requires forall i | 0 <= i < |names| :: names[i].String?
    ensures KeepsTypes(names) <==> FirstCoversAll(names)
  {
    if FirstNonNull(names) != [] {
      var i := NamedIsFound(names, 0);
      FirstNonNullIs(names, i);
      assert FirstCoversAll(names) ==> KeepsTypes(names);
    }
    if i :| FirstNamed(names, i) && forall j | 0 <= j < |names| && names[j] != String("null") :: Covers(names[i].text, names[j].text) {
      FirstNonNullIs(names, i);
    }
  }

  /** The same, by the function that picks the name. */
  predicate FirstCoversAll(names: seq<Value>)
    requires forall i | 0 <= i < |names| :: names[i].String?
  {
    && FirstNonNull(names) != []
    && (forall n | n in names && n != NULL_NAME :: Covers(FirstNonNull(names)[0].text, n.text))
    && (NULL_NAME in names ==> |names| == 2)
  }

  /** A value of the named type that has no other type, save that an integer is a number. */
  function Sample(name: string): Value {
    match name
    case "boolean" => Bool(true)
    case "number" => Number(0.5)
    case "integer" => Number(1.0)
    case "string" => String("")
    case "array" => Array([])
    case _ => Object(map[])
  }

  lemma SampleTells(name: string, other: string)
    requires other in TYPE_NAMES
    ensures HasType(other, Sample(other))
    ensures HasType(name, Sample(other)) <==> Covers(name, other)
  {
    assert 0.5 as real != 0.0 && (0.5).Floor == 0;
  }

  lemma CoversSound(name: string, other: string, v: Value)
    requires Covers(name, other) && other != "null" && HasType(other, v)
    ensures HasType(name, v)
  {
  }

  function FlattenedAllows(names: seq<Value>, v: Value): bool {
    TypeAllows30(TypeFlattened(map["type" := Array(names)]), v)
  }

  function ListAllows(names: seq<Value>, v: Value): bool {
    TypeAllows31(map["type" := Array(names)], v)
  }

  lemma FlattenedNames(names: seq<Value>, v: Value)
    requires forall i | 0 <= i < |names| :: names[i].String?
    ensures FirstNonNull(names) == [] ==> FlattenedAllows(names, v)
    ensures FirstNonNull(names) != [] ==>
      (FlattenedAllows(names, v) <==>
        HasType(FirstNonNull(names)[0].text, v) || (v.Null? && NULL_NAME in names && |names| == 2))
  {
    var m := map["type" := Array(names)];
    assert m["type"] == Array(names);
    var found := FirstNonNull(names);
    if found == [] {
      assert "type" !in TypeFlattened(m);
    } else {
      assert TypeFlattened(m)["type"] == found[0];
      assert "nullable" in TypeFlattened(m) <==> (|names| == 2 && NULL_NAME in names);
    }
  }

  /** A list of type names keeps its meaning exactly when its first name can speak for the rest. */
  lemma TypeListIff(names: seq<Value>)
    requires forall i | 0 <= i < |names| :: names[i].String?
    ensures (forall v :: FlattenedAllows(names, v) <==> ListAllows(names, v)) <==> KeepsTypes(names)
  {
    KeepsTypesIs(names);
    if FirstCoversAll(names) {
      forall v ensures FlattenedAllows(names, v) <==> ListAllows(names, v) { TypeListKept(names, v); }
    } else {
      var v := TypeListLost(names);
      assert FlattenedAllows(names, v) != ListAllows(names, v);
    }
  }

  lemma TypeListKept(names: seq<Value>, v: Value)
    requires forall i | 0 <= i < |names| :: names[i].String?
    requires FirstCoversAll(names)
    ensures FlattenedAllows(names, v) <==> ListAllows(names, v)
  {
    FlattenedNames(names, v);
    var first := FirstNonNull(names)[0];
    var j :| 0 <= j < |names| && names[j] == first;
    assert HasType(first.text, v) ==> ListAllows(names, v);
    if v.Null? && NULL_NAME in names {
      var k :| 0 <= k < |names| && names[k] == NULL_NAME;
      assert HasType(names[k].text, v);
    }
    if ListAllows(names, v) {
      var i :| 0 <= i < |names| && HasType(names[i].text, v);
      if names[i] != NULL_NAME {
        assert names[i] in names;
        CoversSound(first.text, names[i].text, v);
      }
    }
  }

  /** A value on which the flattened list and the list disagree. */
  lemma TypeListLost(names: seq<Value>) returns (v: Value)
    requires forall i | 0 <= i < |names| :: names[i].String?
    requires !FirstCoversAll(names)
    ensures FlattenedAllows(names, v) != ListAllows(names, v)
  {
    var found := FirstNonNull(names);
    if found == [] {
      v := Bool(true);
      FlattenedNames(names, v);
      forall i | 0 <= i < |names| ensures !HasType(names[i].text, v) {
        assert names[i] in names;
      }
    } else if n :| n in names && n != NULL_NAME && !Covers(found[0].text, n.text) {
      v := Sample(n.text);
      SampleTells(found[0].text, n.text);
      FlattenedNames(names, v);
      var i :| 0 <= i < |names| && names[i] == n;
      assert HasType(names[i].text, v);
    } else {
      v := Null;
      FlattenedNames(names, v);
      var i :| 0 <= i < |names| && names[i] == NULL_NAME;
      assert HasType(names[i].text, v);
      assert found[0].text != "null";
    }
  }
}
