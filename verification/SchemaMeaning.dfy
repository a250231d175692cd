/** What a schema accepts, what a written document accepts, and that these are the same values. */
module SchemaMeaning {
  import opened Wrappers
  import opened JsonValues
  import opened SchemaExpansion

  /** Left open: what keywords without structure mean, which numbers are integers, and which
      values are equal. */
  datatype Rules = Rules(holds: (string, Json, Json) -> bool, integral: string -> bool, same: (Json, Json) -> bool)

  type Test = Json -> bool

  // ----- written documents

  const STRUCTURE: set<string> :=
    {"type", "properties", "required", "additionalProperties", "items", "oneOf", "anyOf", "allOf", "not"}

  ghost predicate HasType(rules: Rules, name: string, value: Json) {
    || (name == "null" && value.Null?)
    || (name == "boolean" && value.Bool?)
    || (name == "integer" && value.Number? && rules.integral(value.digits))
    || (name == "number" && value.Number?)
    || (name == "string" && value.String?)
    || (name == "array" && value.Array?)
    || (name == "object" && value.Object?)
  }

  ghost predicate Satisfies(rules: Rules, document: Json, value: Json)
    decreases document, 1
  {
    match document
    case Bool(b) => b
    case Object(fields) => Structured(rules, document, value) && Unstructured(rules, fields, value)
    case _ => false
  }

  ghost predicate Structured(rules: Rules, document: Json, value: Json)
    requires document.Object?
    decreases document, 0
  {
    var fields := document.fields;
    && ("type" in fields ==> fields["type"].String? && HasType(rules, fields["type"].text, value))
    && ("properties" in fields && value.Object? ==>
          && fields["properties"].Object?
          && forall name :: name in fields["properties"].fields && name in value.fields ==>
               Satisfies(rules, fields["properties"].fields[name], value.fields[name]))
    && ("required" in fields && value.Object? ==>
          fields["required"].Array? && forall name :: String(name) in fields["required"].items ==> name in value.fields)
    && ("additionalProperties" in fields && value.Object? ==>
          forall name :: name in value.fields && !("properties" in fields && fields["properties"].Object? && name in fields["properties"].fields) ==>
            Satisfies(rules, fields["additionalProperties"], value.fields[name]))
    && ("items" in fields && value.Array? ==>
          forall i :: 0 <= i < |value.items| ==> Satisfies(rules, fields["items"], value.items[i]))
    && ("oneOf" in fields ==>
          && fields["oneOf"].Array?
          && (exists i :: 0 <= i < |fields["oneOf"].items| && Satisfies(rules, fields["oneOf"].items[i], value))
          && forall i, j :: 0 <= i < j < |fields["oneOf"].items| && Satisfies(rules, fields["oneOf"].items[i], value) ==>
               !Satisfies(rules, fields["oneOf"].items[j], value))
    && ("anyOf" in fields ==>
          && fields["anyOf"].Array?
          && exists i :: 0 <= i < |fields["anyOf"].items| && Satisfies(rules, fields["anyOf"].items[i], value))
    && ("allOf" in fields ==>
          && fields["allOf"].Array?
          && forall i :: 0 <= i < |fields["allOf"].items| ==> Satisfies(rules, fields["allOf"].items[i], value))
    && ("not" in fields ==> !Satisfies(rules, fields["not"], value))
  }

  ghost predicate KeywordHolds(rules: Rules, keyword: string, argument: Json, value: Json) {
    if keyword == "enum" then argument.Array? && exists i :: 0 <= i < |argument.items| && rules.same(argument.items[i], value)
    else if keyword == "const" then rules.same(argument, value)
    else rules.holds(keyword, argument, value)
  }

  ghost predicate Unstructured(rules: Rules, fields: Fields, value: Json) {
    forall keyword :: keyword in fields && keyword !in STRUCTURE ==> KeywordHolds(rules, keyword, fields[keyword], value)
  }

  // ----- schemas

  /** This is the last field of its name. */
  ghost predicate LastOfName(fields: seq<Field>, i: nat) {
    i < |fields| && forall j :: i < j < |fields| ==> fields[j].name != fields[i].name
  }

  /** `tests` decide the parts of the kind, those of the fields before that of further fields. */
  ghost predicate Meets(rules: Rules, kind: Kind, tests: seq<Test>, value: Json)
    requires |tests| == |Children(kind)|
  {
    match kind
    case Any => true
    case NullKind => value.Null?
    case Boolean => value.Bool?
    case Integer => value.Number? && rules.integral(value.digits)
    case NumberKind => value.Number?
    case Text => value.String?
    case ArrayOf(_) => value.Array? && forall i :: 0 <= i < |value.items| ==> tests[0](value.items[i])
    case ObjectOf(fields, additional) => value.Object? && MeetsFields(fields, additional, tests, value.fields)
    case OneOf(_) =>
      && (exists i :: 0 <= i < |tests| && tests[i](value))
      && forall i, j :: 0 <= i < j < |tests| && tests[i](value) ==> !tests[j](value)
    case AnyOf(_) => exists i :: 0 <= i < |tests| && tests[i](value)
    case AllOf(_) => forall i :: 0 <= i < |tests| ==> tests[i](value)
    case Not(_) => !tests[0](value)
    case Reference(_) => true
  }

  ghost predicate IsField(fields: seq<Field>, name: string) {
    exists i :: 0 <= i < |fields| && fields[i].name == name
  }

  /** Required fields are there, every field has a value of its own, and further ones as allowed. */
  ghost predicate MeetsFields(fields: seq<Field>, additional: Additional, tests: seq<Test>, values: Fields)
    requires |tests| == |fields| + (if additional.Of? then 1 else 0)
  {
    && (forall i :: 0 <= i < |fields| && fields[i].required ==> fields[i].name in values)
    && (forall i: nat :: LastOfName(fields, i) && fields[i].name in values ==> tests[i](values[fields[i].name]))
    && (forall name :: name in values && !IsField(fields, name) ==>
          match additional
          case Forbidden => false
          case AnyMore => true
          case Of(_) => tests[|fields|](values[name])
          case Unspecified => true)
  }

  /** What a schema states for a keyword beside its kind; constraints go first. */
  ghost function Argument(schema: Schema, keyword: string): Option<Json> {
    if keyword in schema.constraints then Some(schema.constraints[keyword])
    else if keyword == "format" && schema.format.Some? then Some(String(schema.format.value))
    else if keyword == "description" && schema.description.Some? then Some(String(schema.description.value))
    else if keyword == "enum" && schema.enumValues != [] then Some(Array(schema.enumValues))
    else if keyword == "const" then schema.constValue
    else None
  }

  ghost function Stated(schema: Schema): (keywords: set<string>)
    ensures forall keyword :: keyword in keywords <==> Argument(schema, keyword).Some?
  {
    set keyword | keyword in {"format", "description", "enum", "const"} + schema.constraints.Keys && Argument(schema, keyword).Some?
  }

  /** The keywords of a schema hold, apart from those that are replaced. */
  ghost predicate KeywordsHold(rules: Rules, schema: Schema, replaced: set<string>, value: Json) {
    forall keyword :: keyword in Stated(schema) && keyword !in replaced ==>
      KeywordHolds(rules, keyword, Argument(schema, keyword).value, value)
  }

  ghost predicate EndsIn(reference: string, name: string) {
    && '/' !in name
    && (reference == name || exists path :: reference == path + "/" + name)
  }

  /** This is the schema that the reference names. */
  ghost predicate IsTarget(catalog: Catalog, reference: string, i: nat) {
    && i < |catalog| && EndsIn(reference, catalog[i].0)
    && forall j :: 0 <= j < i ==> catalog[j].0 != catalog[i].0
  }

  /** Following references at most `k` levels deep. Keywords beside a reference replace those of
      its target; a reference that names nothing accepts everything. */
  ghost predicate Accepts(rules: Rules, catalog: Catalog, schema: Schema, replaced: set<string>, k: nat, value: Json)
    decreases k, 1, schema, 1
  {
    if schema.nullable then
      value.Null? || (KeywordsHold(rules, schema, {}, value) && AcceptsKind(rules, catalog, schema.kind, Stated(schema), k, value))
    else
      KeywordsHold(rules, schema, replaced, value) && AcceptsKind(rules, catalog, schema.kind, replaced + Stated(schema), k, value)
  }

  ghost predicate AcceptsKind(rules: Rules, catalog: Catalog, kind: Kind, replaced: set<string>, k: nat, value: Json)
    decreases k, 1, kind, 1
  {
    if kind.Reference? then
      k == 0 || forall i: nat :: IsTarget(catalog, kind.reference, i) ==> Accepts(rules, catalog, catalog[i].1, replaced, k - 1, value)
    else
      Meets(rules, kind, Tests(rules, catalog, kind, k), value)
  }

  ghost function Tests(rules: Rules, catalog: Catalog, kind: Kind, k: nat): (tests: seq<Test>)
    ensures |tests| == |Children(kind)|
    decreases k, 1, kind, 0
  {
    match kind
    case ArrayOf(items) => [v => Accepts(rules, catalog, items, {}, k, v)]
    case ObjectOf(fields, additional) =>
      seq(|fields|, i requires 0 <= i < |fields| => v => Accepts(rules, catalog, fields[i].value, {}, k, v))
      + (if additional.Of? then [v => Accepts(rules, catalog, additional.value, {}, k, v)] else [])
    case OneOf(variants) => seq(|variants|, i requires 0 <= i < |variants| => v => Accepts(rules, catalog, variants[i], {}, k, v))
    case AnyOf(variants) => seq(|variants|, i requires 0 <= i < |variants| => v => Accepts(rules, catalog, variants[i], {}, k, v))
    case AllOf(variants) => seq(|variants|, i requires 0 <= i < |variants| => v => Accepts(rules, catalog, variants[i], {}, k, v))
    case Not(schema) => [v => Accepts(rules, catalog, schema, {}, k, v)]
    case _ => []
  }

  // ----- references

  lemma {:induction false} EndsInExactly(reference: string, name: string)
    ensures EndsIn(reference, name) <==> NameOf(reference) == name
  {
    if '/' in reference {
      EndsInExactly(reference[1..], name);
      if EndsIn(reference, name) && reference[1..] != name {
        var path :| reference == path + "/" + name;
        assert path != [];
        assert reference[1..] == path[1..] + "/" + name;
      }
      if EndsIn(reference[1..], name) {
        if reference[1..] == name {
          assert reference[0] == '/';
          assert reference == [] + "/" + name;
        } else {
          var path :| reference[1..] == path + "/" + name;
          assert reference == reference[..1] + path + "/" + name;
        }
      }
    }
  }

  /** The expander finds the schema that the reference names, and only that. */
  lemma {:induction false} TargetExactly(catalog: Catalog, reference: string)
    ensures Find(catalog, NameOf(reference)).None? ==> forall i: nat :: !IsTarget(catalog, reference, i)
    ensures Find(catalog, NameOf(reference)).Some? ==> exists i: nat :: IsTarget(catalog, reference, i)
    ensures forall i: nat :: IsTarget(catalog, reference, i) ==> Find(catalog, NameOf(reference)) == Some(catalog[i].1)
  {
    hide EndsIn, NameOf;
    forall name ensures EndsIn(reference, name) <==> NameOf(reference) == name {
      EndsInExactly(reference, name);
    }
    if catalog != [] {
      var rest := catalog[1..];
      TargetExactly(rest, reference);
      if catalog[0].0 == NameOf(reference) {
        assert IsTarget(catalog, reference, 0);
      } else {
        assert forall i: nat :: IsTarget(catalog, reference, i) ==> i > 0 && IsTarget(rest, reference, i - 1);
        assert forall i: nat :: IsTarget(rest, reference, i) ==> IsTarget(catalog, reference, i + 1);
      }
    }
  }

  // ----- keywords beside the kind

  /** Constraints leave the structure alone. */
  ghost predicate Validates(schema: Schema) {
    schema.constraints.Keys !! STRUCTURE
  }

  lemma SameStructure(rules: Rules, a: Fields, b: Fields, value: Json)
    requires forall word :: word in STRUCTURE ==> (word in a <==> word in b) && (word in a ==> a[word] == b[word])
    ensures Structured(rules, Object(a), value) == Structured(rules, Object(b), value)
  {
    hide Satisfies, HasType;
  }

  lemma DecoratedWords(schema: Schema, fields: Fields, keyword: string)
    requires !schema.nullable
    ensures keyword in Stated(schema) ==> keyword in Decorate(schema, fields) && Argument(schema, keyword) == Some(Decorate(schema, fields)[keyword])
    ensures keyword !in Stated(schema) ==>
      (keyword in Decorate(schema, fields) <==> keyword in fields) && (keyword in fields ==> Decorate(schema, fields)[keyword] == fields[keyword])
  {
  }

  lemma UnstructuredMeans(rules: Rules, schema: Schema, fields: Fields, replaced: set<string>, value: Json)
    requires !schema.nullable && Validates(schema)
    ensures Unstructured(rules, Decorate(schema, fields) - replaced, value) <==>
      KeywordsHold(rules, schema, replaced, value) && Unstructured(rules, fields - (replaced + Stated(schema)), value)
  {
    hide Decorate, Argument, KeywordHolds;
    var decorated := Decorate(schema, fields);
    StatedIsUnstructured(schema);
    forall keyword
      ensures keyword in Stated(schema) ==> keyword in decorated && Argument(schema, keyword) == Some(decorated[keyword])
      ensures keyword !in Stated(schema) ==> (keyword in decorated <==> keyword in fields) && (keyword in fields ==> decorated[keyword] == fields[keyword])
    {
      DecoratedWords(schema, fields, keyword);
    }
  }

  lemma StatedIsUnstructured(schema: Schema)
    requires Validates(schema)
    ensures Stated(schema) !! STRUCTURE
  {
  }

  lemma DecoratedMeans(rules: Rules, schema: Schema, fields: Fields, replaced: set<string>, value: Json)
    requires !schema.nullable && Validates(schema) && replaced !! STRUCTURE
    ensures Satisfies(rules, Object(Decorate(schema, fields) - replaced), value) <==>
      KeywordsHold(rules, schema, replaced, value) && Satisfies(rules, Object(fields - (replaced + Stated(schema))), value)
  {
    hide Decorate, Structured, Unstructured, KeywordsHold, Stated;
    var a, b := Decorate(schema, fields) - replaced, fields - (replaced + Stated(schema));
    UnstructuredMeans(rules, schema, fields, replaced, value);
    StatedIsUnstructured(schema);
    forall word | word in STRUCTURE ensures (word in a <==> word in b) && (word in a ==> a[word] == b[word]) {
      DecoratedWords(schema, fields, word);
    }
    SameStructure(rules, a, b, value);
  }

  lemma NullableMeans(rules: Rules, schema: Schema, fields: Fields, replaced: set<string>, value: Json)
    requires schema.nullable && Validates(schema) && replaced !! STRUCTURE
    ensures Satisfies(rules, Object(Decorate(schema, fields) - replaced), value) <==>
      value.Null? || (KeywordsHold(rules, schema, {}, value) && Satisfies(rules, Object(fields - Stated(schema)), value))
  {
    hide Satisfies, Decorate, KeywordsHold;
    var inner := schema.(nullable := false);
    var document := Object(Decorate(inner, fields));
    NullableDocument(schema, fields);
    assert Decorate(schema, fields) - replaced == Decorate(schema, fields);
    assert Decorate(inner, fields) - {} == Decorate(inner, fields);
    assert {} + Stated(inner) == Stated(inner) == Stated(schema) by {
      assert forall keyword :: Argument(inner, keyword) == Argument(schema, keyword);
    }
    DecoratedMeans(rules, inner, fields, {}, value);
    assert KeywordsHold(rules, inner, {}, value) == KeywordsHold(rules, schema, {}, value) by {
      SameKeywords(rules, schema, inner, value);
    }
    EitherOf(rules, document, value);
  }

  lemma SameKeywords(rules: Rules, a: Schema, b: Schema, value: Json)
    requires a.(nullable := true) == b.(nullable := true)
    ensures KeywordsHold(rules, a, {}, value) == KeywordsHold(rules, b, {}, value)
  {
    hide KeywordHolds;
    assert forall keyword :: Argument(a, keyword) == Argument(b, keyword);
  }

  lemma NullableDocument(schema: Schema, fields: Fields)
    requires schema.nullable
    ensures Decorate(schema, fields) == map["anyOf" := Array([Object(Decorate(schema.(nullable := false), fields)), Object(TypeOnly("null"))])]
  {
  }

  lemma OnlyNull(rules: Rules, value: Json)
    ensures Satisfies(rules, Object(TypeOnly("null")), value) <==> value.Null?
  {
    TypeMeans(rules, "null", value);
  }

  lemma EitherOf(rules: Rules, document: Json, value: Json)
    ensures Satisfies(rules, Object(map["anyOf" := Array([document, Object(TypeOnly("null"))])]), value) <==>
      value.Null? || Satisfies(rules, document, value)
  {
    hide Satisfies;
    OnlyNull(rules, value);
    var documents := [document, Object(TypeOnly("null"))];
    AnyOfMeans(rules, documents, value);
    assert documents[0] == document && documents[1] == Object(TypeOnly("null"));
  }

  /** Of a document with structure alone. */
  lemma OnlyStructure(rules: Rules, fields: Fields, value: Json)
    requires fields.Keys <= STRUCTURE
    ensures Satisfies(rules, Object(fields), value) <==> Structured(rules, Object(fields), value)
  {
    hide Structured;
  }

  lemma AnyOfMeans(rules: Rules, documents: seq<Json>, value: Json)
    ensures Satisfies(rules, Object(map["anyOf" := Array(documents)]), value) <==>
      exists i :: 0 <= i < |documents| && Satisfies(rules, documents[i], value)
  {
    hide Satisfies, HasType;
    OnlyStructure(rules, map["anyOf" := Array(documents)], value);
  }

  lemma OneOfMeans(rules: Rules, documents: seq<Json>, value: Json)
    ensures Satisfies(rules, Object(map["oneOf" := Array(documents)]), value) <==>
      && (exists i :: 0 <= i < |documents| && Satisfies(rules, documents[i], value))
      && forall i, j :: 0 <= i < j < |documents| && Satisfies(rules, documents[i], value) ==> !Satisfies(rules, documents[j], value)
  {
    hide Satisfies, HasType;
    OnlyStructure(rules, map["oneOf" := Array(documents)], value);
  }

  lemma AllOfMeans(rules: Rules, documents: seq<Json>, value: Json)
    ensures Satisfies(rules, Object(map["allOf" := Array(documents)]), value) <==>
      forall i :: 0 <= i < |documents| ==> Satisfies(rules, documents[i], value)
  {
    hide Satisfies, HasType;
    OnlyStructure(rules, map["allOf" := Array(documents)], value);
  }

  lemma NotMeans(rules: Rules, document: Json, value: Json)
    ensures Satisfies(rules, Object(map["not" := document]), value) <==> !Satisfies(rules, document, value)
  {
    hide Satisfies, HasType;
    OnlyStructure(rules, map["not" := document], value);
  }

  lemma ItemsMean(rules: Rules, document: Json, value: Json)
    ensures Satisfies(rules, Object(map["type" := String("array"), "items" := document]), value) <==>
      value.Array? && forall i :: 0 <= i < |value.items| ==> Satisfies(rules, document, value.items[i])
  {
    hide Satisfies;
    OnlyStructure(rules, map["type" := String("array"), "items" := document], value);
  }

  lemma TypeMeans(rules: Rules, name: string, value: Json)
    ensures Satisfies(rules, Object(TypeOnly(name)), value) <==> HasType(rules, name, value)
  {
    hide Satisfies, HasType;
    OnlyStructure(rules, TypeOnly(name), value);
  }

  // ----- kinds

  ghost function DocumentTests(rules: Rules, results: seq<Fields>): (tests: seq<Test>)
    ensures |tests| == |results|
    ensures forall i, value :: 0 <= i < |tests| ==> tests[i](value) == Satisfies(rules, Object(results[i]), value)
  {
    seq(|results|, i requires 0 <= i < |results| => v => Satisfies(rules, Object(results[i]), v))
  }

  lemma OneOfKind(rules: Rules, kind: Kind, results: seq<Fields>, value: Json)
    requires kind.OneOf? && |results| == |kind.variants|
    ensures Satisfies(rules, Object(Build(kind, results)), value) <==> Meets(rules, kind, DocumentTests(rules, results), value)
  {
    hide Satisfies, DocumentTests;
    var documents, tests := Objects(results).items, DocumentTests(rules, results);
    assert forall i :: 0 <= i < |results| ==> documents[i] == Object(results[i]) && tests[i](value) == Satisfies(rules, documents[i], value);
    OneOfMeans(rules, documents, value);
  }

  lemma AnyOfKind(rules: Rules, kind: Kind, results: seq<Fields>, value: Json)
    requires kind.AnyOf? && |results| == |kind.variants|
    ensures Satisfies(rules, Object(Build(kind, results)), value) <==> Meets(rules, kind, DocumentTests(rules, results), value)
  {
    hide Satisfies, DocumentTests;
    var documents, tests := Objects(results).items, DocumentTests(rules, results);
    assert forall i :: 0 <= i < |results| ==> documents[i] == Object(results[i]) && tests[i](value) == Satisfies(rules, documents[i], value);
    AnyOfMeans(rules, documents, value);
  }

  lemma AllOfKind(rules: Rules, kind: Kind, results: seq<Fields>, value: Json)
    requires kind.AllOf? && |results| == |kind.variants|
    ensures Satisfies(rules, Object(Build(kind, results)), value) <==> Meets(rules, kind, DocumentTests(rules, results), value)
  {
    hide Satisfies, DocumentTests;
    var documents, tests := Objects(results).items, DocumentTests(rules, results);
    assert forall i :: 0 <= i < |results| ==> documents[i] == Object(results[i]) && tests[i](value) == Satisfies(rules, documents[i], value);
    AllOfMeans(rules, documents, value);
  }

  lemma ArrayMeans(rules: Rules, kind: Kind, results: seq<Fields>, value: Json)
    requires kind.ArrayOf? && |results| == 1
    ensures Satisfies(rules, Object(Build(kind, results)), value) <==> Meets(rules, kind, DocumentTests(rules, results), value)
  {
    hide Satisfies;
    ItemsMean(rules, Object(results[0]), value);
  }

  /** The required names are those of the required fields. */
  lemma {:induction false} RequiredExactly(fields: seq<Field>, name: string)
    ensures String(name) in Required(fields) <==> exists i :: 0 <= i < |fields| && fields[i].required && fields[i].name == name
  {
    if fields != [] {
      RequiredExactly(fields[1..], name);
      assert forall i :: 0 < i < |fields| ==> fields[i] == fields[1..][i - 1];
      assert forall i :: 0 <= i < |fields| - 1 ==> fields[1..][i] == fields[i + 1];
    }
  }

  ghost predicate IsLastOf(fields: seq<Field>, name: string, i: nat) {
    LastOfName(fields, i) && fields[i].name == name
  }

  /** The properties are those of the fields, each with the document of its last field. */
  lemma {:induction false} PropertiesExactly(fields: seq<Field>, results: seq<Fields>, name: string)
    requires |fields| == |results|
    ensures name in Properties(fields, results) <==> IsField(fields, name)
    ensures name in Properties(fields, results) <==> exists i: nat :: IsLastOf(fields, name, i)
    ensures forall i: nat :: IsLastOf(fields, name, i) ==> Properties(fields, results)[name] == Object(results[i])
  {
    if fields != [] {
      var n := |fields| - 1;
      if fields[n].name == name {
        assert IsLastOf(fields, name, n);
        assert forall i: nat :: IsLastOf(fields, name, i) ==> i == n;
      } else {
        PropertiesExactly(fields[..n], results[..n], name);
        assert forall i :: 0 <= i < n ==> fields[..n][i] == fields[i];
        assert forall i: nat :: IsLastOf(fields, name, i) <==> IsLastOf(fields[..n], name, i);
        assert IsField(fields, name) <==> IsField(fields[..n], name);
      }
    }
  }

  ghost predicate PropertiesHold(rules: Rules, properties: Fields, values: Fields) {
    forall name :: name in properties && name in values ==> Satisfies(rules, properties[name], values[name])
  }

  ghost predicate NamesHold(names: seq<Json>, values: Fields) {
    forall name :: String(name) in names ==> name in values
  }

  ghost predicate OthersHold(rules: Rules, properties: Fields, document: Json, values: Fields) {
    forall name :: name in values && name !in properties ==> Satisfies(rules, document, values[name])
  }

  /** What an object document says, keyword by keyword. */
  lemma ObjectWords(rules: Rules, document: Fields, value: Json)
    requires document.Keys <= {"type", "properties", "required", "additionalProperties"}
    requires "type" in document && document["type"] == String("object")
    requires "properties" in document && document["properties"].Object?
    requires "required" in document ==> document["required"].Array?
    ensures Satisfies(rules, Object(document), value) <==>
      && value.Object?
      && PropertiesHold(rules, document["properties"].fields, value.fields)
      && ("required" in document ==> NamesHold(document["required"].items, value.fields))
      && ("additionalProperties" in document ==>
            OthersHold(rules, document["properties"].fields, document["additionalProperties"], value.fields))
  {
    hide Satisfies;
    OnlyStructure(rules, document, value);
  }

  ghost predicate OwnHold(rules: Rules, fields: seq<Field>, results: seq<Fields>, values: Fields)
    requires |fields| <= |results|
  {
    forall i: nat :: LastOfName(fields, i) && fields[i].name in values ==> Satisfies(rules, Object(results[i]), values[fields[i].name])
  }

  ghost predicate RequiredHold(fields: seq<Field>, values: Fields) {
    forall i :: 0 <= i < |fields| && fields[i].required ==> fields[i].name in values
  }

  ghost predicate FurtherHold(rules: Rules, kind: Kind, results: seq<Fields>, values: Fields)
    requires kind.ObjectOf? && |results| == |Children(kind)|
  {
    forall name :: name in values && !IsField(kind.fields, name) ==>
      match kind.additional
      case Forbidden => false
      case AnyMore => true
      case Of(_) => Satisfies(rules, Object(results[|kind.fields|]), values[name])
      case Unspecified => true
  }

  lemma PropertiesMean(rules: Rules, fields: seq<Field>, results: seq<Fields>, values: Fields)
    requires |fields| <= |results|
    ensures PropertiesHold(rules, Properties(fields, results[..|fields|]), values) <==> OwnHold(rules, fields, results, values)
  {
    hide Satisfies, Properties;
    var own := results[..|fields|];
    var properties := Properties(fields, own);
    forall i: nat | LastOfName(fields, i) ensures fields[i].name in properties && properties[fields[i].name] == Object(results[i]) {
      PropertiesExactly(fields, own, fields[i].name);
      assert IsLastOf(fields, fields[i].name, i);
    }
    forall name | name in properties ensures exists i: nat :: IsLastOf(fields, name, i) {
      PropertiesExactly(fields, own, name);
    }
  }

  lemma RequiredMean(fields: seq<Field>, values: Fields)
    ensures NamesHold(Required(fields), values) <==> RequiredHold(fields, values)
  {
    hide Required;
    forall name
      ensures String(name) in Required(fields) <==> exists i :: 0 <= i < |fields| && fields[i].required && fields[i].name == name
    {
      RequiredExactly(fields, name);
    }
  }

  lemma FurtherMean(rules: Rules, kind: Kind, results: seq<Fields>, values: Fields)
    requires kind.ObjectOf? && |results| == |Children(kind)|
    ensures FurtherHold(rules, kind, results, values) <==>
      ("additionalProperties" in Build(kind, results) ==>
        OthersHold(rules, Properties(kind.fields, results[..|kind.fields|]), Build(kind, results)["additionalProperties"], values))
  {
    hide Structured, Unstructured, Required, Properties;
    forall name ensures name in Properties(kind.fields, results[..|kind.fields|]) <==> IsField(kind.fields, name) {
      PropertiesExactly(kind.fields, results[..|kind.fields|], name);
    }
  }

  lemma TestsHold(rules: Rules, kind: Kind, results: seq<Fields>, values: Fields)
    requires kind.ObjectOf? && |results| == |Children(kind)|
    ensures MeetsFields(kind.fields, kind.additional, DocumentTests(rules, results), values) <==>
      RequiredHold(kind.fields, values) && OwnHold(rules, kind.fields, results, values) && FurtherHold(rules, kind, results, values)
  {
    hide Satisfies, IsField;
  }

  lemma ObjectMeans(rules: Rules, kind: Kind, results: seq<Fields>, value: Json)
    requires kind.ObjectOf? && |results| == |Children(kind)|
    ensures Satisfies(rules, Object(Build(kind, results)), value) <==> Meets(rules, kind, DocumentTests(rules, results), value)
  {
    hide Satisfies, Required, Properties, OwnHold, RequiredHold, PropertiesHold, OthersHold, FurtherHold, MeetsFields;
    var document := Build(kind, results);
    ObjectWords(rules, document, value);
    if value.Object? {
      PropertiesMean(rules, kind.fields, results, value.fields);
      RequiredMean(kind.fields, value.fields);
      FurtherMean(rules, kind, results, value.fields);
      TestsHold(rules, kind, results, value.fields);
    }
  }

  lemma SimpleMeans(rules: Rules, kind: Kind, value: Json)
    requires Children(kind) == [] && (kind.Any? || kind.NullKind? || kind.Boolean? || kind.Integer? || kind.NumberKind? || kind.Text?)
    ensures Satisfies(rules, Object(Build(kind, [])), value) <==> Meets(rules, kind, [], value)
  {
    hide Satisfies;
    NothingMeans(rules, value);
    if !kind.Any? {
      var name := Build(kind, [])["type"].text;
      TypeMeans(rules, name, value);
    }
  }

  lemma NothingMeans(rules: Rules, value: Json)
    ensures Satisfies(rules, Object(map[]), value)
  {
  }

  /** The document of a kind accepts what the kind does, when the parts' documents decide the parts. */
  lemma KindMeans(rules: Rules, kind: Kind, results: seq<Fields>, value: Json)
    requires !kind.Reference? && |results| == |Children(kind)|
    ensures Satisfies(rules, Object(Build(kind, results)), value) <==> Meets(rules, kind, DocumentTests(rules, results), value)
  {
    hide Satisfies, Meets, Build;
    match kind
    case ArrayOf(_) => ArrayMeans(rules, kind, results, value);
    case ObjectOf(_, _) => ObjectMeans(rules, kind, results, value);
    case OneOf(_) => OneOfKind(rules, kind, results, value);
    case AnyOf(_) => AnyOfKind(rules, kind, results, value);
    case AllOf(_) => AllOfKind(rules, kind, results, value);
    case Not(_) => NotKind(rules, kind, results, value);
    case _ => SimpleMeans(rules, kind, value);
  }

  lemma NotKind(rules: Rules, kind: Kind, results: seq<Fields>, value: Json)
    requires kind.Not? && |results| == 1
    ensures Satisfies(rules, Object(Build(kind, results)), value) <==> Meets(rules, kind, DocumentTests(rules, results), value)
  {
    hide Satisfies, DocumentTests;
    NotMeans(rules, Object(results[0]), value);
  }

  lemma KindIsStructure(kind: Kind, results: seq<Fields>, replaced: set<string>)
    requires !kind.Reference? && |results| == |Children(kind)| && replaced !! STRUCTURE
    ensures Build(kind, results) - replaced == Build(kind, results)
  {
    hide Required, Properties;
  }

  // ----- whole schemas

  ghost predicate AllValidate(schema: Schema) {
    Validates(schema) && forall i :: 0 <= i < |Children(schema.kind)| ==> AllValidate(Children(schema.kind)[i])
  }

  ghost predicate CatalogValidates(catalog: Catalog) {
    forall i :: 0 <= i < |catalog| ==> AllValidate(catalog[i].1)
  }

  lemma TestsAccept(rules: Rules, catalog: Catalog, kind: Kind, k: nat)
    ensures forall i, value :: 0 <= i < |Children(kind)| ==>
      Tests(rules, catalog, kind, k)[i](value) == Accepts(rules, catalog, Children(kind)[i], {}, k, value)
  {
    hide Accepts;
  }

  lemma SameTests(rules: Rules, kind: Kind, a: seq<Test>, b: seq<Test>, value: Json)
    requires |a| == |b| == |Children(kind)| && forall i, v :: 0 <= i < |a| ==> a[i](v) == b[i](v)
    ensures Meets(rules, kind, a, value) == Meets(rules, kind, b, value)
  {
  }

  /** One level: what the keywords decide and what is left to the rest of the document. */
  lemma DocumentMeans(rules: Rules, schema: Schema, fields: Fields, replaced: set<string>, value: Json)
    requires Validates(schema) && replaced !! STRUCTURE
    ensures Satisfies(rules, Object(Decorate(schema, fields) - replaced), value) <==>
      if schema.nullable then value.Null? || (KeywordsHold(rules, schema, {}, value) && Satisfies(rules, Object(fields - Stated(schema)), value))
      else KeywordsHold(rules, schema, replaced, value) && Satisfies(rules, Object(fields - (replaced + Stated(schema))), value)
  {
    hide Satisfies, Decorate, KeywordsHold, Stated;
    if schema.nullable {
      NullableMeans(rules, schema, fields, replaced, value);
    } else {
      DecoratedMeans(rules, schema, fields, replaced, value);
    }
  }

  /** An unfolded document accepts what the schema does, also without the keywords that are replaced. */
  lemma {:induction false} UnfoldingMeans(rules: Rules, catalog: Catalog, schema: Schema, k: nat, replaced: set<string>, value: Json)
    requires Unfolded(catalog, schema, k).Some? && replaced !! STRUCTURE
    requires AllValidate(schema) && CatalogValidates(catalog)
    ensures Satisfies(rules, Object(Unfolded(catalog, schema, k).value - replaced), value) <==> Accepts(rules, catalog, schema, replaced, k, value)
    decreases k, 1, schema, 1
  {
    hide Satisfies, Decorate, KeywordsHold, Stated, Build, Children, AcceptsKind, Find, CatalogValidates;
    StatedIsUnstructured(schema);
    var left := if schema.nullable then Stated(schema) else replaced + Stated(schema);
    if schema.kind.Reference? {
      var reference := schema.kind.reference;
      DocumentMeans(rules, schema, UnfoldedName(catalog, NameOf(reference), k).value, replaced, value);
      UnfoldedTargetMeans(rules, catalog, reference, k, left, value);
    } else {
      DocumentMeans(rules, schema, Build(schema.kind, UnfoldedAll(catalog, schema.kind, k).value), replaced, value);
      UnfoldedKindMeans(rules, catalog, schema, k, left, value);
    }
  }

  lemma {:induction false} UnfoldedTargetMeans(rules: Rules, catalog: Catalog, reference: string, k: nat, replaced: set<string>, value: Json)
    requires UnfoldedName(catalog, NameOf(reference), k).Some? && replaced !! STRUCTURE
    requires CatalogValidates(catalog)
    ensures Satisfies(rules, Object(UnfoldedName(catalog, NameOf(reference), k).value - replaced), value) <==>
      AcceptsKind(rules, catalog, Reference(reference), replaced, k, value)
    decreases k, 0
  {
    hide Satisfies, Accepts, Find, NameOf, IsTarget, AllValidate;
    TargetExactly(catalog, reference);
    if Find(catalog, NameOf(reference)).Some? {
      var i: nat :| IsTarget(catalog, reference, i);
      assert i < |catalog| by { TargetIsThere(catalog, reference, i); }
      UnfoldingMeans(rules, catalog, catalog[i].1, k - 1, replaced, value);
    } else {
      NothingMeans(rules, value);
      var nothing: Fields := map[];
      assert nothing - replaced == nothing;
    }
  }

  lemma {:induction false} UnfoldedKindMeans(rules: Rules, catalog: Catalog, schema: Schema, k: nat, replaced: set<string>, value: Json)
    requires !schema.kind.Reference? && UnfoldedAll(catalog, schema.kind, k).Some? && replaced !! STRUCTURE
    requires AllValidate(schema) && CatalogValidates(catalog)
    ensures Satisfies(rules, Object(Build(schema.kind, UnfoldedAll(catalog, schema.kind, k).value) - replaced), value) <==>
      AcceptsKind(rules, catalog, schema.kind, replaced, k, value)
    decreases k, 1, schema, 0
  {
    hide Satisfies, Accepts, Unfolded, Build, Meets, Tests, DocumentTests, CatalogValidates;
    var kind := schema.kind;
    var results := UnfoldedAll(catalog, kind, k).value;
    KindIsStructure(kind, results, replaced);
    KindMeans(rules, kind, results, value);
    TestsAccept(rules, catalog, kind, k);
    forall i, v | 0 <= i < |results| ensures DocumentTests(rules, results)[i](v) == Tests(rules, catalog, kind, k)[i](v) {
      UnfoldingMeans(rules, catalog, Children(kind)[i], k, {}, v);
      assert results[i] - {} == results[i];
    }
    SameTests(rules, kind, DocumentTests(rules, results), Tests(rules, catalog, kind, k), value);
  }

  lemma TargetIsThere(catalog: Catalog, reference: string, i: nat)
    requires IsTarget(catalog, reference, i)
    ensures i < |catalog|
  {
  }

  /** The document written for a schema without recursion accepts exactly what the schema does. */
  lemma ExpansionKeepsMeaning(rules: Rules, catalog: Catalog, schema: Schema, value: Json)
    requires !Cuts(catalog, schema, {})
    requires AllValidate(schema) && CatalogValidates(catalog)
    ensures Satisfies(rules, Object(Expanded(catalog, schema, {})), value) <==> Accepts(rules, catalog, schema, {}, |Names(catalog)| + 1, value)
  {
    hide Satisfies, Accepts, Expanded, Unfolded, Cuts, AllValidate, CatalogValidates, Names;
    CutsExactlyRecursion(catalog, schema);
    UnfoldingMeans(rules, catalog, schema, |Names(catalog)| + 1, {}, value);
    assert Expanded(catalog, schema, {}) - {} == Expanded(catalog, schema, {});
  }

  /** A reference adds its keywords to its target when they state different ones. */
  lemma ReferenceAddsKeywords(rules: Rules, catalog: Catalog, schema: Schema, k: nat, i: nat, value: Json)
    requires schema.kind.Reference? && IsTarget(catalog, schema.kind.reference, i)
    requires !catalog[i].1.kind.Reference? && Stated(schema) !! Stated(catalog[i].1)
    ensures Accepts(rules, catalog, schema, {}, k + 1, value) <==>
      || (schema.nullable && value.Null?)
      || (KeywordsHold(rules, schema, {}, value) && Accepts(rules, catalog, catalog[i].1, {}, k, value))
  {
    hide Stated, KeywordsHold, Find, NameOf;
    var target := catalog[i].1;
    TargetExactly(catalog, schema.kind.reference);
    assert {} + Stated(schema) == Stated(schema);
    NothingReplaced(rules, catalog, target, Stated(schema), k, value);
    assert forall j: nat :: IsTarget(catalog, schema.kind.reference, j) ==> catalog[j].1 == target;
  }

  lemma NothingReplaced(rules: Rules, catalog: Catalog, schema: Schema, replaced: set<string>, k: nat, value: Json)
    requires !schema.kind.Reference? && replaced !! Stated(schema)
    ensures Accepts(rules, catalog, schema, replaced, k, value) == Accepts(rules, catalog, schema, {}, k, value)
  {
    hide KeywordHolds, Meets, Tests, Argument;
  }

  // ----- cut schemas

  /** Parts only ever narrow or widen the whole in their own direction. */
  ghost predicate Monotone(schema: Schema) {
    && !schema.kind.OneOf? && !schema.kind.Not?
    && forall i :: 0 <= i < |Children(schema.kind)| ==> Monotone(Children(schema.kind)[i])
  }

  ghost predicate CatalogIsMonotone(catalog: Catalog) {
    forall i :: 0 <= i < |catalog| ==> Monotone(catalog[i].1)
  }

  lemma MoreTests(rules: Rules, kind: Kind, a: seq<Test>, b: seq<Test>, value: Json)
    requires !kind.OneOf? && !kind.Not?
    requires |a| == |b| == |Children(kind)| && forall i, v :: 0 <= i < |a| && a[i](v) ==> b[i](v)
    requires Meets(rules, kind, a, value)
    ensures Meets(rules, kind, b, value)
  {
  }

  /** The document of a recursive schema accepts at least what the schema does. */
  lemma {:induction false} ExpansionAcceptsAll(rules: Rules, catalog: Catalog, schema: Schema, active: set<string>, k: nat,
                                               replaced: set<string>, value: Json)
    requires replaced !! STRUCTURE && k >= |Names(catalog) - active|
    requires AllValidate(schema) && CatalogValidates(catalog) && Monotone(schema) && CatalogIsMonotone(catalog)
    requires Accepts(rules, catalog, schema, replaced, k, value)
    ensures Satisfies(rules, Object(Expanded(catalog, schema, active) - replaced), value)
    decreases Names(catalog) - active, schema, 1
  {
    hide Satisfies, Decorate, KeywordsHold, Stated, Build, Children, AcceptsKind, Find, Names, CatalogValidates, CatalogIsMonotone;
    StatedIsUnstructured(schema);
    var left := if schema.nullable then Stated(schema) else replaced + Stated(schema);
    if AcceptsKind(rules, catalog, schema.kind, left, k, value) {
      if schema.kind.Reference? {
        TargetAcceptsAll(rules, catalog, schema.kind.reference, active, k, left, value);
      } else {
        KindAcceptsAll(rules, catalog, schema, active, k, left, value);
      }
    }
    DocumentMeans(rules, schema, ExpandedFields(catalog, schema.kind, active), replaced, value);
  }

  /** What is written before the keywords beside the kind. */
  ghost function ExpandedFields(catalog: Catalog, kind: Kind, active: set<string>): (fields: Fields)
    ensures forall schema: Schema :: schema.kind == kind ==> Expanded(catalog, schema, active) == Decorate(schema, fields)
  {
    if kind.Reference? then
      var name := NameOf(kind.reference);
      if name in active || Find(catalog, name).None? then map[] else Expanded(catalog, Find(catalog, name).value, active + {name})
    else Build(kind, ExpandedAll(catalog, kind, active))
  }

  lemma {:induction false} TargetAcceptsAll(rules: Rules, catalog: Catalog, reference: string, active: set<string>, k: nat,
                                            replaced: set<string>, value: Json)
    requires replaced !! STRUCTURE && k >= |Names(catalog) - active|
    requires CatalogValidates(catalog) && CatalogIsMonotone(catalog)
    requires AcceptsKind(rules, catalog, Reference(reference), replaced, k, value)
    ensures Satisfies(rules, Object(ExpandedFields(catalog, Reference(reference), active) - replaced), value)
    decreases Names(catalog) - active, Reference(reference)
  {
    hide Satisfies, Accepts, Find, NameOf, IsTarget, AllValidate, Monotone, Names, Expanded;
    var name := NameOf(reference);
    TargetExactly(catalog, reference);
    if name in active || Find(catalog, name).None? {
      NothingMeans(rules, value);
      var nothing: Fields := map[];
      assert nothing - replaced == nothing;
    } else {
      var i: nat :| IsTarget(catalog, reference, i);
      TargetIsThere(catalog, reference, i);
      FoundIsNamed(catalog, name);
      assert Names(catalog) - active == (Names(catalog) - (active + {name})) + {name};
      ExpansionAcceptsAll(rules, catalog, catalog[i].1, active + {name}, k - 1, replaced, value);
    }
  }

  lemma {:induction false} KindAcceptsAll(rules: Rules, catalog: Catalog, schema: Schema, active: set<string>, k: nat,
                                          replaced: set<string>, value: Json)
    requires replaced !! STRUCTURE && k >= |Names(catalog) - active|
    requires AllValidate(schema) && CatalogValidates(catalog) && Monotone(schema) && CatalogIsMonotone(catalog)
    requires !schema.kind.Reference? && AcceptsKind(rules, catalog, schema.kind, replaced, k, value)
    ensures Satisfies(rules, Object(ExpandedFields(catalog, schema.kind, active) - replaced), value)
    decreases Names(catalog) - active, schema, 0
  {
    hide Satisfies, Accepts, Expanded, Build, Meets, Tests, DocumentTests, CatalogValidates, CatalogIsMonotone, Names;
    var kind := schema.kind;
    var results := ExpandedAll(catalog, kind, active);
    KindIsStructure(kind, results, replaced);
    KindMeans(rules, kind, results, value);
    TestsAccept(rules, catalog, kind, k);
    forall i, v | 0 <= i < |results| && Tests(rules, catalog, kind, k)[i](v) ensures DocumentTests(rules, results)[i](v) {
      ExpansionAcceptsAll(rules, catalog, Children(kind)[i], active, k, {}, v);
      assert results[i] - {} == results[i];
    }
    MoreTests(rules, kind, Tests(rules, catalog, kind, k), DocumentTests(rules, results), value);
  }

  // ----- a negated cut

  ghost function Plain(kind: Kind): Schema {
    Schema(kind, None, None, [], None, map[], false)
  }

  const AGAIN: Schema := Schema(Reference("A"), None, None, [], None, map[], false)

  /** An object whose field `b` is no such object. */
  ghost function UnlikeItself(): Catalog {
    [("A", Plain(ObjectOf([Field("b", Plain(Not(AGAIN)), false)], Unspecified)))]
  }

  lemma PlainAccepts(rules: Rules, catalog: Catalog, kind: Kind, replaced: set<string>, k: nat, value: Json)
    ensures Accepts(rules, catalog, Plain(kind), replaced, k, value) <==> AcceptsKind(rules, catalog, kind, replaced, k, value)
  {
    hide AcceptsKind, KeywordHolds;
    assert Stated(Plain(kind)) == {};
    assert replaced + {} == replaced;
  }

  lemma PlainTarget(rules: Rules, k: nat, replaced: set<string>, value: Json)
    ensures AcceptsKind(rules, UnlikeItself(), Reference("A"), replaced, k + 1, value) <==>
      AcceptsKind(rules, UnlikeItself(), UnlikeItself()[0].1.kind, replaced, k, value)
  {
    hide Accepts, Meets, Tests;
    var catalog := UnlikeItself();
    assert IsTarget(catalog, "A", 0);
    assert forall i: nat :: IsTarget(catalog, "A", i) ==> i == 0;
    PlainAccepts(rules, catalog, catalog[0].1.kind, replaced, k, value);
  }

  /** Under a negation a cut accepts too little: nothing at all is accepted for `b`. */
  lemma NegatedCutRefuses(rules: Rules, k: nat)
    ensures Accepts(rules, UnlikeItself(), AGAIN, {}, k + 2, Object(map["b" := Null]))
    ensures !Satisfies(rules, Object(Expanded(UnlikeItself(), AGAIN, {})), Object(map["b" := Null]))
  {
    NegationAccepts(rules, k);
    NegationRefuses(rules);
  }

  lemma NegationAccepts(rules: Rules, k: nat)
    ensures Accepts(rules, UnlikeItself(), AGAIN, {}, k + 2, Object(map["b" := Null]))
  {
    hide Accepts, AcceptsKind;
    var catalog := UnlikeItself();
    var value := Object(map["b" := Null]);
    PlainAccepts(rules, catalog, Reference("A"), {}, k + 2, value);
    PlainTarget(rules, k + 1, {}, value);
    PlainAccepts(rules, catalog, Not(AGAIN), {}, k + 1, Null);
    PlainAccepts(rules, catalog, Reference("A"), {}, k + 1, Null);
    PlainTarget(rules, k, {}, Null);
    KindAccepts(rules, catalog, Not(AGAIN), k + 1, Null);
    forall l: nat, v ensures AcceptsKind(rules, catalog, catalog[0].1.kind, {}, l, v) <==> Meets(rules, catalog[0].1.kind, Tests(rules, catalog, catalog[0].1.kind, l), v) {
      KindAccepts(rules, catalog, catalog[0].1.kind, l, v);
    }
  }

  lemma KindAccepts(rules: Rules, catalog: Catalog, kind: Kind, k: nat, value: Json)
    requires !kind.Reference?
    ensures AcceptsKind(rules, catalog, kind, {}, k, value) <==> Meets(rules, kind, Tests(rules, catalog, kind, k), value)
    ensures forall i, v :: 0 <= i < |Children(kind)| ==> Tests(rules, catalog, kind, k)[i](v) == Accepts(rules, catalog, Children(kind)[i], {}, k, v)
  {
    TestsAccept(rules, catalog, kind, k);
  }

  lemma PlainDecorates(kind: Kind, fields: Fields)
    ensures Decorate(Plain(kind), fields) == fields
  {
  }

  lemma NegationRefuses(rules: Rules)
    ensures !Satisfies(rules, Object(Expanded(UnlikeItself(), AGAIN, {})), Object(map["b" := Null]))
  {
    hide Satisfies, Decorate, Names;
    var catalog := UnlikeItself();
    var kind := catalog[0].1.kind;
    var negation := kind.fields[0].value;
    PlainDecorates(AGAIN.kind, map[]);
    assert Expanded(catalog, AGAIN, {"A"}) == map[];
    PlainDecorates(negation.kind, map["not" := Object(map[])]);
    assert Children(negation.kind) == [AGAIN];
    assert ExpandedAll(catalog, negation.kind, {"A"}) == [map[]];
    assert Expanded(catalog, negation, {"A"}) == map["not" := Object(map[])];
    assert Children(kind) == [negation];
    assert ExpandedAll(catalog, kind, {"A"}) == [map["not" := Object(map[])]];
    var document := Expanded(catalog, catalog[0].1, {"A"});
    PlainDecorates(kind, Build(kind, [map["not" := Object(map[])]]));
    PlainDecorates(AGAIN.kind, document);
    assert {} + {"A"} == {"A"};
    assert Expanded(catalog, AGAIN, {}) == document;
    var results: seq<Fields> := [map["not" := Object(map[])]];
    assert document == Build(kind, results);
    assert Required(kind.fields) == [];
    assert Properties(kind.fields, results) == map["b" := Object(results[0])] by {
      assert Properties(kind.fields[..0], results[..0]) == map[];
    }
    assert results[..1] == results;
    assert document == map["type" := String("object"), "properties" := Object(map["b" := Object(map["not" := Object(map[])])])];
    NothingMeans(rules, Null);
    NotMeans(rules, Object(map[]), Null);
    ObjectWords(rules, document, Object(map["b" := Null]));
    assert document["properties"].fields["b"] == Object(map["not" := Object(map[])]);
  }

  /** A constraint on the structure replaces the kind: texts are accepted for an integer. */
  lemma StructuralConstraintMisleads(rules: Rules, k: nat)
    requires forall keyword, argument, value :: rules.holds(keyword, argument, value)
    ensures
      var schema := Plain(Integer).(constraints := map["type" := String("string")]);
      && Satisfies(rules, Object(Expanded([], schema, {})), String(""))
      && !Accepts(rules, [], schema, {}, k, String(""))
  {
    TypeMeans(rules, "string", String(""));
    assert Decorate(Plain(Integer).(constraints := map["type" := String("string")]), TypeOnly("integer")) == TypeOnly("string");
  }
}
