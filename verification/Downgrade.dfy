/**
 The OpenAPI 3.1 to 3.0 rewriter: the three routines that edit a JSON object in place, each proved
 against a function on the object's fields, and the recursion over the whole document.
 */
module Downgrade {
  import opened Json

  /** What a 3.0 reader may read beside a `$ref`, the `$ref` included. */
  const REFERENCE_ANNOTATIONS: set<string> := {"$ref", "description", "summary"}

  const NULL_NAME := String("null")
  const NULL_SCHEMA := Object(map["type" := NULL_NAME])

  // ---------------------------------------------------------------------------------------
  // What each routine computes
  // ---------------------------------------------------------------------------------------

  /** The member of a two-member union that is not the null schema, when the union is nullable. */
  function NonNullArm(members: seq<Value>): (arm: Value)
    requires |members| == 2 && NULL_SCHEMA in members
    ensures arm in members
    ensures arm == NULL_SCHEMA <==> members == [NULL_SCHEMA, NULL_SCHEMA]
  {
    if members[0] != NULL_SCHEMA then members[0] else members[1]
  }

  /** Whether the collapse loop would take another turn on `m`. */
  predicate Collapsible(m: Fields) {
    && "oneOf" in m
    && m["oneOf"].Array?
    && |m["oneOf"].items| == 2
    && NULL_SCHEMA in m["oneOf"].items
    && NonNullArm(m["oneOf"].items).Object?
    && NonNullArm(m["oneOf"].items) != NULL_SCHEMA
  }

  function CollapseOnce(m: Fields): Fields
    requires Collapsible(m)
  {
    m - {"oneOf"} + NonNullArm(m["oneOf"].items).fields
  }

  function Collapsed(m: Fields): Fields
    decreases if "oneOf" in m then Height(m["oneOf"]) else 0
  {
    if Collapsible(m) then
      UnionShrinks(m);
      Collapsed(CollapseOnce(m))
    else m
  }

  predicate NeedsWrap(m: Fields) {
    "$ref" in m && !(m.Keys <= REFERENCE_ANNOTATIONS)
  }

  function Wrapped(m: Fields): Fields {
    if NeedsWrap(m)
    then (m - {"$ref"})["allOf" := Array([Object(map["$ref" := m["$ref"]])])]
    else m
  }

  /** The first member of `types` that is not the string "null". */
  function FirstNonNull(types: seq<Value>): (r: seq<Value>)
    ensures |r| <= 1
    ensures r != [] ==> r[0] in types && r[0] != NULL_NAME
    ensures r == [] <==> forall t :: t in types ==> t == NULL_NAME
  {
    if types == [] then []
    else if types[0] != NULL_NAME then [types[0]]
    else
      assert types == [types[0]] + types[1..];
      FirstNonNull(types[1..])
  }

  function WithNullable(m: Fields): Fields { m["nullable" := Bool(true)] }

  function TypeFlattened(m: Fields): Fields {
    if "type" !in m then m
    else
      var rest := m - {"type"};
      match m["type"]
      case String(s) => if s == "null" then WithNullable(rest) else rest["type" := String(s)]
      case Array(types) =>
        var found := FirstNonNull(types);
        if |types| == 2 && NULL_NAME in types then
          if found == [] then rest else WithNullable(rest["type" := found[0]])
        else if types == [] then rest
        else if found == [] then WithNullable(rest)
        else rest["type" := found[0]]
      case _ => rest
  }

  function ExamplePicked(m: Fields): Fields {
    if "examples" !in m then m
    else if m["examples"].Array? && m["examples"].items != []
    then (m - {"examples"})["example" := m["examples"].items[0]]
    else m - {"examples"}
  }

  function Reversioned(m: Fields): Fields {
    if "openapi" in m && m["openapi"] == String("3.1.0") then m["openapi" := String("3.0.3")] else m
  }

  /** One object's own keys after the pass, before the pass enters its values. */
  function Prepared(m: Fields): Fields {
    ExamplePicked(TypeFlattened(Wrapped(Collapsed(Reversioned(m)))))
  }

  /** The whole pass. */
  function Downgraded(value: Value): Value
    decreases Height(value)
  {
    match value
    case Object(m) =>
      PreparedIsLower(m);
      Object(map k | k in Prepared(m) :: Downgraded(Prepared(m)[k]))
    case Array(items) =>
      ItemsAreLower(items);
      Array(seq(|items|, i requires 0 <= i < |items| => Downgraded(items[i])))
    case _ => value
  }

  // ---------------------------------------------------------------------------------------
  // Termination: wrapping a `$ref` deepens the tree, so depth alone does not decrease
  // ---------------------------------------------------------------------------------------

  /**
   Depth, with an object that holds anything but reference annotations standing three levels high.
   Only such an object is ever wrapped, and the two levels `allOf` adds fit below it.
   */
  ghost function Height(value: Value): nat {
    match value
    case Object(m) =>
      (if m.Keys <= REFERENCE_ANNOTATIONS then 1 else 3) + Greatest(set k | k in m :: Height(m[k]))
    case Array(items) => 1 + Greatest(set i | 0 <= i < |items| :: Height(items[i]))
    case _ => 0
  }

  ghost predicate AllWithin(m: Fields, bound: int) {
    forall k :: k in m ==> Height(m[k]) <= bound
  }

  lemma FieldsAreLower(m: Fields)
    ensures AllWithin(m, Height(Object(m)) - if m.Keys <= REFERENCE_ANNOTATIONS then 1 else 3)
  {
    var heights := set k | k in m :: Height(m[k]);
    forall k | k in m ensures Height(m[k]) <= Greatest(heights) {
      assert Height(m[k]) in heights;
    }
  }

  lemma ItemsAreLower(items: seq<Value>)
    ensures forall i :: 0 <= i < |items| ==> Height(items[i]) < Height(Array(items))
  {
    var heights := set i | 0 <= i < |items| :: Height(items[i]);
    forall i | 0 <= i < |items| ensures Height(items[i]) <= Greatest(heights) {
      assert Height(items[i]) in heights;
    }
  }

  lemma UnionShrinks(m: Fields)
    requires Collapsible(m)
    ensures var arm := NonNullArm(m["oneOf"].items).fields;
            AllWithin(arm, Height(m["oneOf"]) - 2)
  {
    var members := m["oneOf"].items;
    ItemsAreLower(members);
    FieldsAreLower(NonNullArm(members).fields);
  }

  lemma {:induction false} CollapseStaysWithin(m: Fields, bound: int)
    requires AllWithin(m, bound)
    ensures AllWithin(Collapsed(m), bound)
    decreases if "oneOf" in m then Height(m["oneOf"]) else 0
  {
    if Collapsible(m) {
      UnionShrinks(m);
      CollapseStaysWithin(CollapseOnce(m), bound);
    }
  }

  lemma WrapAddsTwo(target: Value)
    ensures Height(Array([Object(map["$ref" := target])])) == 2 + Height(target)
  {
    var reference := map["$ref" := target];
    var heights := set k | k in reference :: Height(reference[k]);
    assert "$ref" in reference && Height(reference["$ref"]) in heights;
    assert heights == {Height(target)};
    var arm := Object(reference);
    assert Height(arm) == 1 + Height(target);
    var outer := set i | 0 <= i < |[arm]| :: Height([arm][i]);
    assert Height([arm][0]) in outer;
    assert outer == {Height(arm)};
  }

  lemma WrapStaysWithin(m: Fields, bound: int)
    requires AllWithin(m, bound) && 0 <= bound
    ensures AllWithin(Wrapped(m), bound + 2)
  {
    if NeedsWrap(m) {
      WrapAddsTwo(m["$ref"]);
    }
  }

  lemma TypeStaysWithin(m: Fields, bound: int)
    requires AllWithin(m, bound) && 0 <= bound
    ensures AllWithin(TypeFlattened(m), bound)
  {
    if "type" in m && m["type"].Array? {
      ItemsAreLower(m["type"].items);
    }
  }

  lemma ExampleStaysWithin(m: Fields, bound: int)
    requires AllWithin(m, bound) && 0 <= bound
    ensures AllWithin(ExamplePicked(m), bound)
  {
    if "examples" in m && m["examples"].Array? {
      ItemsAreLower(m["examples"].items);
    }
  }

  lemma PreparedIsLower(m: Fields)
    ensures AllWithin(Prepared(m), Height(Object(m)) - 1)
  {
    FieldsAreLower(m);
    var h := Height(Object(m));
    var m1 := Reversioned(m);
    if m.Keys <= REFERENCE_ANNOTATIONS {
      assert m1 == m && Collapsed(m) == m && Wrapped(m) == m;
      assert Prepared(m) == m;
    } else {
      CollapseStaysWithin(m1, h - 3);
      WrapStaysWithin(Collapsed(m1), h - 3);
      TypeStaysWithin(Wrapped(Collapsed(m1)), h - 1);
      ExampleStaysWithin(TypeFlattened(Wrapped(Collapsed(m1))), h - 1);
    }
  }

  // ---------------------------------------------------------------------------------------
  // The routines, editing one object in place
  // ---------------------------------------------------------------------------------------

  /** A `serde_json::Map`: the fields of one object, edited in place. */
  class JsonMap {
    var fields: Fields

    constructor (fields: Fields)
      ensures this.fields == fields
    {
      this.fields := fields;
    }

    method CollapseNullableUnion()
      modifies this
      ensures fields == Collapsed(old(fields))
    {
      while "oneOf" in fields && fields["oneOf"].Array?
        invariant Collapsed(fields) == Collapsed(old(fields))
        decreases if "oneOf" in fields then Height(fields["oneOf"]) else 0
      {
        var members := fields["oneOf"].items;
        if |members| != 2 || NULL_SCHEMA !in members {
          return;
        }
        var other := if members[0] != NULL_SCHEMA then members[0] else members[1];
        if other == NULL_SCHEMA || !other.Object? {
          return;
        }
        UnionShrinks(fields);
        fields := fields - {"oneOf"};
        fields := fields + other.fields;
      }
    }

    method WrapAnnotatedReference()
      modifies this
      ensures fields == Wrapped(old(fields))
    {
      if "$ref" !in fields || fields.Keys <= REFERENCE_ANNOTATIONS {
        return;
      }
      var reference := fields["$ref"];
      fields := fields - {"$ref"};
      fields := fields["allOf" := Array([Object(map["$ref" := reference])])];
    }

    method FlattenType()
      modifies this
      ensures fields == TypeFlattened(old(fields))
    {
      if "type" !in fields {
        return;
      }
      var removed := fields["type"];
      fields := fields - {"type"};
      match removed {
        case String(s) =>
          if s == "null" {
            fields := fields["nullable" := Bool(true)];
          } else {
            fields := fields["type" := String(s)];
          }
        case Array(types) =>
          var found := FirstNonNull(types);
          if |types| == 2 && NULL_NAME in types {
            if found != [] {
              fields := fields["type" := found[0]];
              fields := fields["nullable" := Bool(true)];
            }
          } else if types != [] {
            var first := if found != [] then found[0] else types[0];
            if first == NULL_NAME {
              fields := fields["nullable" := Bool(true)];
            } else {
              fields := fields["type" := first];
            }
          }
        case _ =>
      }
    }

    method KeepFirstExample()
      modifies this
      ensures fields == ExamplePicked(old(fields))
    {
      if "examples" in fields {
        var removed := fields["examples"];
        fields := fields - {"examples"};
        if removed.Array? && removed.items != [] {
          fields := fields["example" := removed.items[0]];
        }
      }
    }

    method RewriteVersion()
      modifies this
      ensures fields == Reversioned(old(fields))
    {
      if "openapi" in fields && fields["openapi"] == String("3.1.0") {
        fields := fields["openapi" := String("3.0.3")];
      }
    }
  }

  /** `downgrade_to_3_0`: edits one object, then every value under it. */
  method DowngradeTo30(value: Value) returns (out: Value)
    ensures out == Downgraded(value)
    decreases Height(value), 1
  {
    match value {
      case Object(m) =>
        var entry := new JsonMap(m);
        entry.RewriteVersion();
        entry.CollapseNullableUnion();
        entry.WrapAnnotatedReference();
        entry.FlattenType();
        entry.KeepFirstExample();
        PreparedIsLower(m);
        DowngradeValues(entry, Height(value));
        out := Object(entry.fields);
      case Array(items) =>
        ItemsAreLower(items);
        out := DowngradeItems(items, Height(value));
      case _ =>
        out := value;
    }
  }

  /** The loop over `values_mut`. */
  method DowngradeValues(entry: JsonMap, ghost bound: nat)
    requires AllWithin(entry.fields, bound - 1)
    modifies entry
    ensures entry.fields == map k | k in old(entry.fields) :: Downgraded(old(entry.fields)[k])
    decreases bound, 0
  {
    ghost var before := entry.fields;
    var todo := entry.fields.Keys;
    while todo != {}
      invariant todo <= before.Keys == entry.fields.Keys
      invariant forall k :: k in todo ==> entry.fields[k] == before[k]
      invariant forall k :: k in before && k !in todo ==> entry.fields[k] == Downgraded(before[k])
      decreases todo
    {
      var k :| k in todo;
      assert Height(before[k]) <= bound - 1;
      var v := DowngradeTo30(entry.fields[k]);
      entry.fields := entry.fields[k := v];
      todo := todo - {k};
    }
  }

  /** The loop over an array's elements. */
  method DowngradeItems(items: seq<Value>, ghost bound: nat) returns (out: Value)
    requires forall i :: 0 <= i < |items| ==> Height(items[i]) < bound
    ensures out == Array(seq(|items|, i requires 0 <= i < |items| => Downgraded(items[i])))
    decreases bound, 0
  {
    var rewritten := items;
    for i := 0 to |items|
      invariant |rewritten| == |items|
      invariant forall j :: 0 <= j < i ==> rewritten[j] == Downgraded(items[j])
      invariant forall j :: i <= j < |items| ==> rewritten[j] == items[j]
    {
      var v := DowngradeTo30(rewritten[i]);
      rewritten := rewritten[i := v];
    }
    out := Array(rewritten);
  }
}
