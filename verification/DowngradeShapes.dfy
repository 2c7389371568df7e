/**
 The rewriter on the shapes it is written for, each spelled out as it stands in a document: what becomes
 of a nullable union, of a reference with siblings, of every form of `type`, and of everything else.
 */
module DowngradeShapes {
  import opened Json
  import opened Downgrade

  // ---------------------------------------------------------------------------------------
  // Nullable unions
  // ---------------------------------------------------------------------------------------

  /** `m` has a `oneOf` of the null schema and the object `f`, in either order. */
  predicate UnionWith(m: Fields, f: Fields) {
    && "oneOf" in m && f != map["type" := String("null")]
    && (m["oneOf"] == Array([Object(map["type" := String("null")]), Object(f)]) ||
        m["oneOf"] == Array([Object(f), Object(map["type" := String("null")])]))
  }

  /** The collapse takes a turn on exactly the objects with such a union, and splices the other arm in. */
  lemma CollapsesIff(m: Fields)
    ensures Collapsible(m) <==> exists f :: UnionWith(m, f)
    ensures forall f | UnionWith(m, f) :: CollapseOnce(m) == m - {"oneOf"} + f
  {
    if Collapsible(m) {
      var members := m["oneOf"].items;
      var f := NonNullArm(members).fields;
      assert members == [members[0], members[1]];
      assert Object(f) == NonNullArm(members);
      assert UnionWith(m, f);
    }
    forall f | UnionWith(m, f) ensures Collapsible(m) && CollapseOnce(m) == m - {"oneOf"} + f {
      SplicedIs(m, f);
    }
  }

  lemma SplicedIs(m: Fields, f: Fields)
    requires UnionWith(m, f)
    ensures Collapsible(m) && CollapseOnce(m) == m - {"oneOf"} + f
  {
    var members := m["oneOf"].items;
    assert NULL_SCHEMA == Object(map["type" := String("null")]) && Object(f) != NULL_SCHEMA;
    assert NULL_SCHEMA in members by { assert members[0] == NULL_SCHEMA || members[1] == NULL_SCHEMA; }
    assert NonNullArm(members) == Object(f);
  }

  predicate IsNullSchema(v: Value) { v == Object(map["type" := String("null")]) }

  /** The same union, seen from the `oneOf` alone: one of two members is the null schema, the other an object but not it. */
  predicate NullableUnion(union: Value) {
    && union.Array? && |union.items| == 2
    && exists i | 0 <= i < 2 :: IsNullSchema(union.items[i]) && union.items[1 - i].Object? && !IsNullSchema(union.items[1 - i])
  }

  lemma NullableUnionIff(m: Fields)
    ensures "oneOf" in m && NullableUnion(m["oneOf"]) <==> exists f :: UnionWith(m, f)
    ensures "oneOf" in m && NullableUnion(m["oneOf"]) <==> Collapsible(m)
  {
    CollapsesIff(m);
    if "oneOf" in m && NullableUnion(m["oneOf"]) {
      var i :| 0 <= i < 2 && IsNullSchema(m["oneOf"].items[i]) && m["oneOf"].items[1 - i].Object? && !IsNullSchema(m["oneOf"].items[1 - i]);
      assert m["oneOf"].items == [m["oneOf"].items[0], m["oneOf"].items[1]];
      assert UnionWith(m, m["oneOf"].items[1 - i].fields);
    }
    forall f | UnionWith(m, f) ensures NullableUnion(m["oneOf"]) {
      assert IsNullSchema(m["oneOf"].items[if m["oneOf"].items[0] == Object(f) then 1 else 0]);
    }
  }

  /** A nullable union is rewritten as the one schema it stands for, its siblings kept. */
  lemma UnionRewritten(m: Fields, f: Fields)
    requires UnionWith(m, f) && "openapi" !in m && "openapi" !in f
    ensures Downgraded(Object(m)) == Downgraded(Object(m - {"oneOf"} + f))
  {
    SplicedIs(m, f);
    assert Prepared(m) == Prepared(CollapseOnce(m));
  }

  // ---------------------------------------------------------------------------------------
  // Everything else, key by key
  // ---------------------------------------------------------------------------------------

  /** A reference with more beside it than what 3.0 reads there. */
  predicate ReferenceWithSiblings(m: Fields) {
    "$ref" in m && exists k :: k in m && k != "$ref" && k != "description" && k != "summary"
  }

  /** Such a reference moves into an `allOf` of its own; any other stays where it is. */
  lemma ReferenceRewritten(m: Fields)
    requires forall f :: !UnionWith(m, f)
    ensures var out := Downgraded(Object(m));
      && out.Object?
      && ("$ref" in out.fields <==> "$ref" in m && !ReferenceWithSiblings(m))
      && ("$ref" in out.fields ==> out.fields["$ref"] == Downgraded(m["$ref"]))
      && (ReferenceWithSiblings(m) ==>
            "allOf" in out.fields && out.fields["allOf"] == Array([Object(map["$ref" := Downgraded(m["$ref"])])]))
      && (!ReferenceWithSiblings(m) && "allOf" in m ==>
            "allOf" in out.fields && out.fields["allOf"] == Downgraded(m["allOf"]))
      && ("allOf" in out.fields ==> ReferenceWithSiblings(m) || "allOf" in m)
  {
    NeedsWrapIff(m);
    NotCollapsed(m);
    ReferenceKept(m);
    if ReferenceWithSiblings(m) { WrapRewritten(m["$ref"]); }
  }

  lemma NeedsWrapIff(m: Fields)
    ensures NeedsWrap(m) <==> ReferenceWithSiblings(m)
  {
    if NeedsWrap(m) {
      var k :| k in m.Keys && k !in REFERENCE_ANNOTATIONS;
      assert k in m;
    }
  }

  lemma NotCollapsed(m: Fields)
    requires forall f :: !UnionWith(m, f)
    ensures Prepared(m) == ExamplePicked(TypeFlattened(Wrapped(Reversioned(m))))
    ensures NeedsWrap(Reversioned(m)) == NeedsWrap(m)
  {
    CollapsesIff(m);
    assert Reversioned(m).Keys == m.Keys;
    assert !Collapsible(Reversioned(m));
  }

  lemma TypeStepKeeps(w: Fields, k: string)
    requires k != "type" && k != "nullable"
    ensures (k in TypeFlattened(w) <==> k in w) && (k in w ==> TypeFlattened(w)[k] == w[k])
  {}

  lemma ExampleStepKeeps(t: Fields, k: string)
    requires k != "examples" && k != "example"
    ensures (k in ExamplePicked(t) <==> k in t) && (k in t ==> ExamplePicked(t)[k] == t[k])
  {}

  lemma ReferenceKept(m: Fields)
    requires Prepared(m) == ExamplePicked(TypeFlattened(Wrapped(Reversioned(m)))) && NeedsWrap(Reversioned(m)) == NeedsWrap(m)
    ensures "$ref" in Prepared(m) <==> "$ref" in m && !NeedsWrap(m)
    ensures "$ref" in Prepared(m) ==> Prepared(m)["$ref"] == m["$ref"]
    ensures NeedsWrap(m) ==> "allOf" in Prepared(m) && Prepared(m)["allOf"] == Array([Object(map["$ref" := m["$ref"]])])
    ensures !NeedsWrap(m) ==> ("allOf" in Prepared(m) <==> "allOf" in m) && ("allOf" in m ==> Prepared(m)["allOf"] == m["allOf"])
  {
    var w := Wrapped(Reversioned(m));
    TypeStepKeeps(w, "$ref");
    TypeStepKeeps(w, "allOf");
    ExampleStepKeeps(TypeFlattened(w), "$ref");
    ExampleStepKeeps(TypeFlattened(w), "allOf");
  }

  /** A reference on its own is entered as any value is. */
  lemma WrapRewritten(target: Value)
    ensures Downgraded(Array([Object(map["$ref" := target])])) == Array([Object(map["$ref" := Downgraded(target)])])
  {
    var inner := map["$ref" := target];
    assert Prepared(inner) == inner;
    assert Downgraded(Object(inner)).fields == map["$ref" := Downgraded(target)];
  }

  /** Item `i` is the first of `types` that is not the name "null". */
  predicate FirstNamed(types: seq<Value>, i: int) {
    && 0 <= i < |types| && types[i] != String("null")
    && forall j | 0 <= j < i :: types[j] == String("null")
  }

  lemma {:induction false} FirstNonNullIs(types: seq<Value>, i: int)
    requires FirstNamed(types, i)
    ensures FirstNonNull(types) == [types[i]]
  {
    if i > 0 {
      assert types[0] == NULL_NAME;
      FirstNonNullIs(types[1..], i - 1);
    }
  }

  /** Whether `type` says null in a way that 3.0 writes as a flag: alone, in a list of two, or in a list of nulls. */
  ghost predicate SaysNullable(t: Value) {
    match t
    case String(name) => name == "null"
    case Array(types) =>
      if exists i :: FirstNamed(types, i) then |types| == 2 && (types[0] == String("null") || types[1] == String("null"))
      else |types| == 1 || |types| > 2
    case _ => false
  }

  /** What every form of `type` becomes. */
  lemma TypeRewritten(m: Fields)
    requires "type" in m && forall f :: !UnionWith(m, f)
    ensures Downgraded(Object(m)).Object?
    ensures var out, t := Downgraded(Object(m)).fields, m["type"];
      && (t.String? ==> ("type" in out <==> t.text != "null") && ("type" in out ==> out["type"] == t))
      && (t.Array? ==> forall i | FirstNamed(t.items, i) :: "type" in out && out["type"] == Downgraded(t.items[i]))
      && (t.Array? && (forall i :: !FirstNamed(t.items, i)) ==> "type" !in out)
      && (!t.String? && !t.Array? ==> "type" !in out)
  {
    NotCollapsed(m);
    var w := Wrapped(Reversioned(m));
    assert "type" in w && w["type"] == m["type"];
    TypeSurvives(m, w);
    if m["type"].Array? {
      FlattenedList(w, m["type"].items);
    }
  }

  lemma TypeSurvives(m: Fields, w: Fields)
    requires Prepared(m) == ExamplePicked(TypeFlattened(w))
    ensures "type" in Prepared(m) <==> "type" in TypeFlattened(w)
    ensures "type" in Prepared(m) ==> Prepared(m)["type"] == TypeFlattened(w)["type"]
    ensures "nullable" in Prepared(m) <==> "nullable" in TypeFlattened(w)
    ensures "nullable" in Prepared(m) ==> Prepared(m)["nullable"] == TypeFlattened(w)["nullable"]
  {}

  lemma FlattenedList(w: Fields, types: seq<Value>)
    requires "type" in w && w["type"] == Array(types)
    ensures forall i | FirstNamed(types, i) :: "type" in TypeFlattened(w) && TypeFlattened(w)["type"] == types[i]
    ensures (forall i :: !FirstNamed(types, i)) ==> "type" !in TypeFlattened(w) && FirstNonNull(types) == []
  {
    forall i | FirstNamed(types, i) ensures FirstNonNull(types) == [types[i]] { FirstNonNullIs(types, i); }
    if FirstNonNull(types) != [] { var i := NamedIsFound(types, 0); }
  }

  /** A list with a member other than null has a first one. */
  lemma {:induction false} NamedIsFound(types: seq<Value>, n: nat) returns (i: nat)
    requires n <= |types| && forall j | 0 <= j < n :: types[j] == String("null")
    requires FirstNonNull(types) != []
    ensures FirstNamed(types, i)
    decreases |types| - n
  {
    if n < |types| && types[n] == String("null") {
      i := NamedIsFound(types, n + 1);
    } else {
      i := n;
      assert n == |types| ==> forall t | t in types :: t == NULL_NAME;
    }
  }

  /** The `nullable` flag: set where `type` says null, else as it was. */
  lemma NullableRewritten(m: Fields)
    requires forall f :: !UnionWith(m, f)
    ensures var out := Downgraded(Object(m)).fields;
      && ("nullable" in out <==> "nullable" in m || ("type" in m && SaysNullable(m["type"])))
      && ("nullable" in out ==>
            out["nullable"] == if "type" in m && SaysNullable(m["type"]) then Bool(true) else Downgraded(m["nullable"]))
  {
    NotCollapsed(m);
    var w := Wrapped(Reversioned(m));
    assert ("type" in w <==> "type" in m) && ("nullable" in w <==> "nullable" in m);
    TypeSurvives(m, w);
    FlagFlattened(w);
  }

  lemma FlagFlattened(w: Fields)
    ensures var flag := "type" in w && SaysNullable(w["type"]);
      && ("nullable" in TypeFlattened(w) <==> "nullable" in w || flag)
      && ("nullable" in TypeFlattened(w) ==> TypeFlattened(w)["nullable"] == if flag then Bool(true) else w["nullable"])
  {
    if "type" in w && w["type"].Array? {
      var types := w["type"].items;
      FlattenedList(w, types);
      if i :| FirstNamed(types, i) {
        FirstNonNullIs(types, i);
        assert |types| == 2 ==> types == [types[0], types[1]];
      }
    }
  }

  /** `examples` gives way to its first entry, or to nothing; an `example` beside it stays only then. */
  lemma ExampleRewritten(m: Fields)
    requires forall f :: !UnionWith(m, f)
    ensures var out := Downgraded(Object(m)).fields;
      && "examples" !in out
      && (if "examples" in m && m["examples"].Array? && |m["examples"].items| > 0
          then "example" in out && out["example"] == Downgraded(m["examples"].items[0])
          else ("example" in out <==> "example" in m) && ("example" in m ==> out["example"] == Downgraded(m["example"])))
  {
    NotCollapsed(m);
    var w := Wrapped(Reversioned(m));
    var t := TypeFlattened(w);
    TypeStepKeeps(w, "examples");
    TypeStepKeeps(w, "example");
    assert forall k | k == "examples" || k == "example" :: (k in w <==> k in m) && (k in m ==> w[k] == m[k]);
  }

  /** Version 3.1.0 becomes 3.0.3; every other key is kept, and its value is rewritten in turn. */
  lemma OthersRewritten(m: Fields, k: string)
    requires forall f :: !UnionWith(m, f)
    requires k !in {"$ref", "allOf", "type", "nullable", "examples", "example"}
    ensures var out := Downgraded(Object(m)).fields;
      && (k in out <==> k in m)
      && (k in m ==> out[k] == if k == "openapi" && m[k] == String("3.1.0") then String("3.0.3") else Downgraded(m[k]))
  {
    NotCollapsed(m);
    var v := Reversioned(m);
    var w := Wrapped(v);
    var t := TypeFlattened(w);
    assert (k in w <==> k in v) && (k in v ==> w[k] == v[k]);
    TypeStepKeeps(w, k);
    ExampleStepKeeps(t, k);
  }

  /** Lists keep their length and order, each member rewritten; anything else is left alone. */
  lemma ListsRewritten(items: seq<Value>, i: nat)
    requires i < |items|
    ensures Downgraded(Array(items)).Array? && |Downgraded(Array(items)).items| == |items|
    ensures Downgraded(Array(items)).items[i] == Downgraded(items[i])
    ensures !items[i].Array? && !items[i].Object? ==> Downgraded(items[i]) == items[i]
  {}
}
