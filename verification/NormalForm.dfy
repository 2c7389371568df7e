/**
 When the 3.0 rewriter is idempotent. `openapi --check` compares documents through the rewriter and
 relies on that; it fails on some inputs, and this module says exactly which.
 */
module NormalForm {
  import opened Json
  import opened Downgrade

  /** Nothing in this object's own keys is left for the rewriter to do. */
  predicate OwnKeysNormal(m: Fields) {
    && ("openapi" in m ==> m["openapi"] != String("3.1.0"))
    && !Collapsible(m)
    && !NeedsWrap(m)
    && ("type" in m ==> m["type"].String? && m["type"] != NULL_NAME)
    && "examples" !in m
  }

  predicate Normal(value: Value) {
    match value
    case Object(m) => OwnKeysNormal(m) && forall k | k in m :: Normal(m[k])
    case Array(items) => forall i | 0 <= i < |items| :: Normal(items[i])
    case _ => true
  }

  /** A `type` the pass flattens to a name, or drops: in a list, the first member but "null" is a string. */
  predicate PicksName(t: Value) {
    t.Array? && FirstNonNull(t.items) != [] ==> FirstNonNull(t.items)[0].String?
  }

  /** Some arm that the collapse splices in carries an `openapi` key. */
  predicate SplicesVersion(m: Fields)
    decreases if "oneOf" in m then Height(m["oneOf"]) else 0
  {
    Collapsible(m) &&
    (UnionShrinks(m);
     "openapi" in NonNullArm(m["oneOf"].items).fields || SplicesVersion(CollapseOnce(m)))
  }

  /** The last arm spliced in with an `openapi` key carries the version that the pass has already looked for. */
  predicate SplicesOldVersion(m: Fields)
    decreases if "oneOf" in m then Height(m["oneOf"]) else 0
  {
    Collapsible(m) &&
    (UnionShrinks(m);
     var arm := NonNullArm(m["oneOf"].items).fields;
     if SplicesVersion(CollapseOnce(m)) then SplicesOldVersion(CollapseOnce(m))
     else "openapi" in arm && arm["openapi"] == String("3.1.0"))
  }

  /** Whether `value` is what the pass goes on to under the key `k` of an object that has collapsed to `c`. */
  predicate Survives(c: Fields, k: string, value: Value) {
    || (k in c && value == c[k] && k !in {"type", "examples"} && (k == "allOf" ==> !NeedsWrap(c)))
    || (k == "type" && "type" in c && (value == c["type"] || (c["type"].Array? && FirstNonNull(c["type"].items) == [value])))
    || (k == "nullable" && "type" in c && value == Bool(true))
    || (k == "allOf" && NeedsWrap(c) && value == Array([Object(map["$ref" := c["$ref"]])]))
    || (k == "example" && "examples" in c && c["examples"].Array? && c["examples"].items != [] && value == c["examples"].items[0])
  }

  /** The values the pass goes on to, named after the keys they stood under. */
  lemma PreparedSurvives(m: Fields, k: string)
    requires k in Prepared(m)
    ensures Survives(Collapsed(Reversioned(m)), k, Prepared(m)[k])
  {
    var c := Collapsed(Reversioned(m));
    var w := Wrapped(c);
    var t := TypeFlattened(w);
    assert k in t ==> k in w || k == "nullable";
    assert "type" in w <==> "type" in c;
  }

  /**
   The condition under which one pass is enough: at every object the pass visits, the `type` it finds
   after the collapse flattens to a name or nothing, and no arm leaves `openapi: 3.1.0` behind. It follows
   the pass down, because what stands below a dropped or overwritten key does not matter;
   `PreparedSurvives` says which values are left to go on to.
   */
  predicate Settles(value: Value)
    decreases Height(value)
  {
    match value
    case Object(m) =>
      PreparedIsLower(m);
      var v := Reversioned(m);
      && ("type" in Collapsed(v) ==> PicksName(Collapsed(v)["type"]))
      && !SplicesOldVersion(v)
      && forall k | k in Prepared(m) :: Settles(Prepared(m)[k])
    case Array(items) =>
      ItemsAreLower(items);
      forall i | 0 <= i < |items| :: Settles(items[i])
    case _ => true
  }

  lemma {:induction false} CollapsedVersion(m: Fields)
    ensures SplicesVersion(m) ==>
              "openapi" in Collapsed(m) && (Collapsed(m)["openapi"] == String("3.1.0") <==> SplicesOldVersion(m))
    ensures !SplicesVersion(m) ==>
              && !SplicesOldVersion(m)
              && ("openapi" in Collapsed(m) <==> "openapi" in m)
              && ("openapi" in m ==> Collapsed(m)["openapi"] == m["openapi"])
    decreases if "oneOf" in m then Height(m["oneOf"]) else 0
  {
    if Collapsible(m) {
      UnionShrinks(m);
      CollapsedVersion(CollapseOnce(m));
    }
  }

  /** The steps after the collapse leave `openapi` alone, and make a name of a `type` that has one. */
  lemma LaterSteps(c: Fields)
    ensures var p := ExamplePicked(TypeFlattened(Wrapped(c)));
      && ("openapi" in p <==> "openapi" in c) && ("openapi" in c ==> p["openapi"] == c["openapi"])
      && (("type" in p ==> p["type"].String?) <==> ("type" in c ==> PicksName(c["type"])))
  {
    var w := Wrapped(c);
    assert "type" in w <==> "type" in c;
    assert "type" in c ==> w["type"] == c["type"];
    assert "openapi" in w <==> "openapi" in c;
  }

  /** What the pass leaves in an object's own keys shows whether the condition held there. */
  lemma SettlesHere(m: Fields)
    ensures var p, v := Prepared(m), Reversioned(m);
      && (("type" in p ==> p["type"].String?) <==> ("type" in Collapsed(v) ==> PicksName(Collapsed(v)["type"])))
      && (("openapi" in p ==> p["openapi"] != String("3.1.0")) <==> !SplicesOldVersion(v))
  {
    CollapsedVersion(Reversioned(m));
    LaterSteps(Collapsed(Reversioned(m)));
  }

  lemma NormalIsFixed(value: Value)
    requires Normal(value)
    ensures Downgraded(value) == value
  {
    match value
    case Object(m) =>
      assert Prepared(m) == m;
      forall k | k in m { NormalIsFixed(m[k]); }
    case Array(items) =>
      forall i | 0 <= i < |items| { NormalIsFixed(items[i]); }
    case _ =>
  }

  lemma {:induction false} CollapseEnds(m: Fields)
    ensures !Collapsible(Collapsed(m))
    decreases if "oneOf" in m then Height(m["oneOf"]) else 0
  {
    if Collapsible(m) {
      UnionShrinks(m);
      CollapseEnds(CollapseOnce(m));
    }
  }

  lemma WrappedKeys(c: Fields)
    requires !Collapsible(c)
    ensures !Collapsible(Wrapped(c)) && !NeedsWrap(Wrapped(c))
  {}

  /** What one pass leaves in an object's own keys, before it enters the values. */
  lemma PreparedKeys(m: Fields)
    ensures var p := Prepared(m);
            && !Collapsible(p) && !NeedsWrap(p) && "examples" !in p
            && ("type" in p ==> p["type"] != NULL_NAME)
  {
    CollapseEnds(Reversioned(m));
    var c := Collapsed(Reversioned(m));
    var w := Wrapped(c);
    var t := TypeFlattened(w);
    var p := ExamplePicked(t);
    WrappedKeys(c);
    assert !Collapsible(t) && !NeedsWrap(t);
    assert !Collapsible(p) && !NeedsWrap(p);
    if "$ref" in w {
      assert "type" !in w && "examples" !in w && p == w;
    }
  }

  lemma NeverNullSchema(value: Value)
    ensures Downgraded(value) != NULL_SCHEMA
    ensures Downgraded(value) == NULL_NAME ==> value == NULL_NAME
  {
    match value
    case Object(m) =>
      PreparedKeys(m);
      var p := Prepared(m);
      if "type" in p {
        PreparedIsLower(m);
        assert Downgraded(value).fields["type"] == Downgraded(p["type"]);
        assert NULL_SCHEMA.fields["type"] == NULL_NAME;
        if p["type"].Object? || p["type"].Array? {
          assert !Downgraded(p["type"]).String?;
        }
      } else {
        assert "type" in NULL_SCHEMA.fields;
      }
    case Array(items) =>
    case _ =>
  }

  /** After the pass over an object, its own keys are normal exactly when it settles there. */
  lemma OwnKeysAfter(m: Fields)
    ensures var p := Prepared(m);
            OwnKeysNormal(Downgraded(Object(m)).fields) <==>
            ("type" in p ==> p["type"].String?) && ("openapi" in p ==> p["openapi"] != String("3.1.0"))
  {
    var p := Prepared(m);
    var out := Downgraded(Object(m)).fields;
    PreparedKeys(m);
    assert out.Keys == p.Keys;
    if Collapsible(out) {
      assert out["oneOf"] == Downgraded(p["oneOf"]);
      var members := p["oneOf"].items;
      var i :| 0 <= i < |members| && Downgraded(members[i]) == NULL_SCHEMA;
      NeverNullSchema(members[i]);
    }
    if "type" in p { NeverNullSchema(p["type"]); }
  }

  /** One pass yields a normal form exactly when the input settles. */
  lemma {:induction false} NormalIffSettles(value: Value)
    ensures Normal(Downgraded(value)) <==> Settles(value)
    decreases Height(value)
  {
    match value
    case Object(m) =>
      var p := Prepared(m);
      var out := Downgraded(value).fields;
      OwnKeysAfter(m);
      SettlesHere(m);
      PreparedIsLower(m);
      forall k | k in p ensures Normal(out[k]) <==> Settles(p[k]) {
        assert Height(p[k]) <= Height(value) - 1;
        NormalIffSettles(p[k]);
      }
    case Array(items) =>
      ItemsAreLower(items);
      var out := Downgraded(value).items;
      forall i | 0 <= i < |items| ensures Normal(out[i]) <==> Settles(items[i]) {
        NormalIffSettles(items[i]);
      }
    case _ =>
  }

  /** How deeply arrays nest, not counting below an object. The pass keeps it. */
  ghost function ArrayDepth(value: Value): nat {
    match value
    case Array(items) => 1 + Greatest(set i | 0 <= i < |items| :: ArrayDepth(items[i]))
    case _ => 0
  }

  lemma MemberIsShallower(items: seq<Value>, t: Value)
    requires t in items
    ensures ArrayDepth(t) < ArrayDepth(Array(items))
  {
    var depths := set i | 0 <= i < |items| :: ArrayDepth(items[i]);
    var i :| 0 <= i < |items| && items[i] == t;
    assert ArrayDepth(items[i]) in depths;
  }

  lemma ArrayDepthKept(value: Value)
    ensures ArrayDepth(Downgraded(value)) == ArrayDepth(value)
  {
    if value.Array? {
      var items := value.items;
      var out := Downgraded(value).items;
      forall i | 0 <= i < |items| ensures ArrayDepth(out[i]) == ArrayDepth(items[i]) {
        ArrayDepthKept(items[i]);
      }
      assert (set i | 0 <= i < |items| :: ArrayDepth(items[i])) == (set i | 0 <= i < |out| :: ArrayDepth(out[i]));
    }
  }

  /** A value the pass leaves alone holds no null schema as a union member. */
  lemma FixedHasNoNullArm(m: Fields)
    requires Downgraded(Object(m)) == Object(m)
    ensures !Collapsible(m)
  {
    if Collapsible(m) {
      var members := m["oneOf"].items;
      var out := Downgraded(Object(m)).fields;
      var p := Prepared(m);
      assert out["oneOf"] == Downgraded(p["oneOf"]);
      var i :| 0 <= i < |members| && members[i] == NULL_SCHEMA;
      NeverNullSchema(p["oneOf"].items[i]);
    }
  }

  lemma FixedTypeIsString(m: Fields)
    requires Downgraded(Object(m)) == Object(m)
    requires Wrapped(Collapsed(Reversioned(m))) == m
    ensures "type" in m ==> m["type"].String? && m["type"] != NULL_NAME
  {
    if "type" in m {
      var p := Prepared(m);
      var out := Downgraded(Object(m)).fields;
      assert out.Keys == p.Keys && out["type"] == Downgraded(p["type"]);
      PreparedKeys(m);
      NeverNullSchema(p["type"]);
      if m["type"].Array? {
        assert p["type"] in m["type"].items;
        MemberIsShallower(m["type"].items, p["type"]);
        ArrayDepthKept(p["type"]);
      }
    }
  }

  lemma {:induction false} FixedIsNormal(value: Value)
    requires Downgraded(value) == value
    ensures Normal(value)
  {
    match value
    case Object(m) =>
      var p := Prepared(m);
      var out := Downgraded(value).fields;
      assert out == m && p.Keys == m.Keys;
      if "openapi" in m && m["openapi"] == String("3.1.0") {
        OpenapiRewritten(m);
      }
      FixedHasNoNullArm(m);
      PreparedKeys(m);
      assert Wrapped(m) == m;
      FixedTypeIsString(m);
      assert p == m;
      forall k | k in m ensures Normal(m[k]) {
        assert out[k] == Downgraded(p[k]);
        FixedIsNormal(m[k]);
      }
    case Array(items) =>
      forall i | 0 <= i < |items| ensures Normal(items[i]) {
        assert Downgraded(value).items[i] == Downgraded(items[i]);
        FixedIsNormal(items[i]);
      }
    case _ =>
  }

  /** A fixed object cannot carry the old version: the pass would have rewritten it. */
  lemma OpenapiRewritten(m: Fields)
    requires "openapi" in m && m["openapi"] == String("3.1.0")
    ensures Downgraded(Object(m)) != Object(m)
  {
    if !Collapsible(m) {
      assert !Collapsible(Reversioned(m));
      assert Prepared(m)["openapi"] == String("3.0.3");
    } else if Downgraded(Object(m)) == Object(m) {
      FixedHasNoNullArm(m);
    }
  }

  /** The values the rewriter leaves alone are the normal forms. */
  lemma FixedIff(value: Value)
    ensures Downgraded(value) == value <==> Normal(value)
  {
    if Normal(value) { NormalIsFixed(value); }
    if Downgraded(value) == value { FixedIsNormal(value); }
  }

  /** A second pass changes nothing exactly when the input settles. */
  lemma IdempotentIff(value: Value)
    ensures Downgraded(Downgraded(value)) == Downgraded(value) <==> Settles(value)
  {
    FixedIff(Downgraded(value));
    NormalIffSettles(value);
  }

  // ---------------------------------------------------------------------------------------
  // A condition on the document as written
  // ---------------------------------------------------------------------------------------

  /** No `type` anywhere is a list whose first member but "null" is not a string. */
  predicate ProperTypes(value: Value) {
    match value
    case Object(m) => ("type" in m ==> PicksName(m["type"])) && forall k | k in m :: ProperTypes(m[k])
    case Array(items) => forall i | 0 <= i < |items| :: ProperTypes(items[i])
    case _ => true
  }

  /** No object anywhere has an `openapi` key. */
  predicate Unversioned(value: Value) {
    match value
    case Object(m) => "openapi" !in m && forall k | k in m :: Unversioned(m[k])
    case Array(items) => forall i | 0 <= i < |items| :: Unversioned(items[i])
    case _ => true
  }

  predicate Tame(m: Fields) {
    ("type" in m ==> PicksName(m["type"])) && forall k | k in m :: ProperTypes(m[k]) && Unversioned(m[k])
  }

  lemma {:induction false} CollapseStaysTame(m: Fields)
    requires Tame(m)
    ensures Tame(Collapsed(m))
    ensures "openapi" in Collapsed(m) <==> "openapi" in m
    ensures "openapi" in m ==> Collapsed(m)["openapi"] == m["openapi"]
    decreases if "oneOf" in m then Height(m["oneOf"]) else 0
  {
    if Collapsible(m) {
      UnionShrinks(m);
      var arm := NonNullArm(m["oneOf"].items);
      assert ProperTypes(m["oneOf"]) && Unversioned(m["oneOf"]);
      assert ProperTypes(arm) && Unversioned(arm);
      CollapseStaysTame(CollapseOnce(m));
    }
  }

  lemma WrapStaysTame(m: Fields)
    requires Tame(m)
    ensures Tame(Wrapped(m))
  {
    if NeedsWrap(m) {
      var inner := Object(map["$ref" := m["$ref"]]);
      var wrapped := Array([inner]);
      assert ProperTypes(inner) && Unversioned(inner);
      assert ProperTypes(wrapped) && Unversioned(wrapped);
      assert Wrapped(m) == (m - {"$ref"})["allOf" := wrapped];
    }
  }

  lemma TypeStaysTame(m: Fields)
    requires Tame(m)
    ensures Tame(TypeFlattened(m))
    ensures "type" in TypeFlattened(m) ==> TypeFlattened(m)["type"].String?
  {
    if "type" in m && m["type"].Array? {
      var types := m["type"].items;
      var found := FirstNonNull(types);
      if found != [] {
        var i :| 0 <= i < |types| && types[i] == found[0];
        assert found[0].String?;
      }
    }
  }

  lemma ExampleStaysTame(m: Fields)
    requires Tame(m)
    ensures Tame(ExamplePicked(m))
  {
    if "examples" in m && m["examples"].Array? && m["examples"].items != [] {
      assert ProperTypes(m["examples"].items[0]) && Unversioned(m["examples"].items[0]);
    }
  }

  lemma VersionStaysTame(m: Fields)
    requires Tame(m)
    ensures Tame(Reversioned(m))
    ensures "openapi" in Reversioned(m) ==> Reversioned(m)["openapi"] != String("3.1.0")
  {
  }

  /** The last three steps neither add nor change an `openapi` key. */
  lemma VersionKept(m: Fields)
    ensures var p := ExamplePicked(TypeFlattened(Wrapped(m)));
            "openapi" in p ==> "openapi" in m && p["openapi"] == m["openapi"]
  {
  }

  lemma PreparedStaysTame(m: Fields)
    requires Tame(m)
    ensures Tame(Prepared(m))
    ensures "type" in Prepared(m) ==> Prepared(m)["type"].String?
    ensures "openapi" in Prepared(m) ==> Prepared(m)["openapi"] != String("3.1.0")
  {
    var v := Reversioned(m);
    VersionStaysTame(m);
    CollapseStaysTame(v);
    VersionKept(Collapsed(v));
    WrapStaysTame(Collapsed(v));
    TypeStaysTame(Wrapped(Collapsed(v)));
    ExampleStaysTame(TypeFlattened(Wrapped(Collapsed(v))));
  }

  lemma {:induction false} TameSettles(value: Value)
    requires ProperTypes(value)
    requires value.Object? ==> Tame(value.fields)
    requires !value.Object? ==> Unversioned(value)
    ensures Settles(value)
    decreases Height(value)
  {
    match value
    case Object(m) =>
      PreparedIsLower(m);
      PreparedStaysTame(m);
      SettlesHere(m);
      forall k | k in Prepared(m) ensures Settles(Prepared(m)[k]) {
        assert Height(Prepared(m)[k]) <= Height(value) - 1;
        TameSettles(Prepared(m)[k]);
      }
    case Array(items) =>
      ItemsAreLower(items);
      forall i | 0 <= i < |items| ensures Settles(items[i]) { TameSettles(items[i]); }
    case _ =>
  }

  /**
   A document whose `type` lists begin with a string, "null" aside, and in which only the root may have
   an `openapi` key, is in normal form after one pass and unchanged by a second.
   */
  lemma DocumentIdempotent(document: Fields)
    requires ProperTypes(Object(document))
    requires forall k :: k in document ==> Unversioned(document[k])
    ensures Normal(Downgraded(Object(document)))
    ensures Downgraded(Downgraded(Object(document))) == Downgraded(Object(document))
  {
    TameSettles(Object(document));
    NormalIffSettles(Object(document));
    IdempotentIff(Object(document));
  }

  /**
   The version check runs before the collapse, so an `openapi` key spliced out of a nullable union
   keeps its old version until a second pass.
   */
  lemma SplicedVersionNeedsSecondPass()
    ensures var document := Object(map["oneOf" := Array([NULL_SCHEMA, Object(map["openapi" := String("3.1.0")])])]);
            Downgraded(Downgraded(document)) != Downgraded(document)
  {
    var arm := map["openapi" := String("3.1.0")];
    assert Object(arm).fields == arm && "openapi" in arm;
    assert "type" in NULL_SCHEMA.fields && "type" !in arm;
    var m := map["oneOf" := Array([NULL_SCHEMA, Object(arm)])];
    assert m["oneOf"].items[0] == NULL_SCHEMA && NonNullArm(m["oneOf"].items) == Object(arm);
    assert Collapsible(m) && CollapseOnce(m) == arm;
    assert Collapsed(m) == Collapsed(arm) == arm;
    assert Prepared(m) == arm;
    IdempotentIff(Object(m));
  }

  /** A `type` array whose first member is not a string survives one pass and not the next. */
  lemma NonStringTypeNeedsSecondPass(t: Value)
    requires !t.String?
    ensures var document := Object(map["type" := Array([t])]);
            Downgraded(Downgraded(document)) != Downgraded(document)
  {
    var m := map["type" := Array([t])];
    assert FirstNonNull([t]) == [t];
    assert Prepared(m)["type"] == t;
    IdempotentIff(Object(m));
  }
}
