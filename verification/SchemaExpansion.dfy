/** Writing a schema without references: every reference is replaced by what it names, except
    inside its own expansion, where it becomes the schema that accepts everything. */
module SchemaExpansion {
  import opened Wrappers
  import opened JsonValues

  datatype Kind =
    | Any | NullKind | Boolean | Integer | NumberKind | Text
    | ArrayOf(items: Schema)
    | ObjectOf(fields: seq<Field>, additional: Additional)
    | Reference(reference: string)
    | OneOf(variants: seq<Schema>)
    | AnyOf(variants: seq<Schema>)
    | AllOf(variants: seq<Schema>)
    | Not(schema: Schema)

  datatype Field = Field(name: string, value: Schema, required: bool)

  datatype Additional = Forbidden | AnyMore | Of(value: Schema) | Unspecified

  datatype Schema = Schema(kind: Kind, format: Option<string>, description: Option<string>, enumValues: seq<Json>,
    constValue: Option<Json>, constraints: Fields, nullable: bool)

  /** The named schemas; of several with one name the first. */
  type Catalog = seq<(string, Schema)>

  function Find(catalog: Catalog, name: string): Option<Schema> {
    if catalog == [] then None
    else if catalog[0].0 == name then Some(catalog[0].1)
    else Find(catalog[1..], name)
  }

  function Names(catalog: Catalog): set<string> {
    set i | 0 <= i < |catalog| :: catalog[i].0
  }

  lemma {:induction false} FoundIsNamed(catalog: Catalog, name: string)
    ensures Find(catalog, name).Some? ==> name in Names(catalog)
  {
    if catalog != [] && catalog[0].0 != name {
      FoundIsNamed(catalog[1..], name);
      assert forall i :: 0 <= i < |catalog| - 1 ==> catalog[1..][i] == catalog[i + 1];
    }
  }

  /** The part of a reference behind the last slash. */
  function NameOf(reference: string): string {
    if '/' in reference then NameOf(reference[1..]) else reference
  }

  // ----- one level of a schema

  function FieldValues(fields: seq<Field>): seq<Schema> {
    seq(|fields|, i requires 0 <= i < |fields| => fields[i].value)
  }

  function Children(kind: Kind): (children: seq<Schema>)
    ensures forall i :: 0 <= i < |children| ==> (kind decreases to children[i])
  {
    match kind
    case ArrayOf(items) => [items]
    case ObjectOf(fields, additional) => FieldValues(fields) + (if additional.Of? then [additional.value] else [])
    case OneOf(variants) => variants
    case AnyOf(variants) => variants
    case AllOf(variants) => variants
    case Not(schema) => [schema]
    case _ => []
  }

  function TypeOnly(name: string): Fields {
    map["type" := String(name)]
  }

  function Objects(results: seq<Fields>): Json {
    Array(seq(|results|, i requires 0 <= i < |results| => Object(results[i])))
  }

  /** Of several fields with one name the last. */
  function Properties(fields: seq<Field>, results: seq<Fields>): Fields
    requires |fields| == |results|
  {
    if fields == [] then map[]
    else
      var n := |fields| - 1;
      Properties(fields[..n], results[..n])[fields[n].name := Object(results[n])]
  }

  function Required(fields: seq<Field>): seq<Json> {
    if fields == [] then []
    else (if fields[0].required then [String(fields[0].name)] else []) + Required(fields[1..])
  }

  /** The schema document, given those of the children. */
  function Build(kind: Kind, results: seq<Fields>): Fields
    requires !kind.Reference? && |results| == |Children(kind)|
  {
    match kind
    case Any => map[]
    case NullKind => TypeOnly("null")
    case Boolean => TypeOnly("boolean")
    case Integer => TypeOnly("integer")
    case NumberKind => TypeOnly("number")
    case Text => TypeOnly("string")
    case ArrayOf(_) => map["type" := String("array"), "items" := Object(results[0])]
    case ObjectOf(fields, additional) =>
      var typed := map["type" := String("object"), "properties" := Object(Properties(fields, results[..|fields|]))];
      var required := if Required(fields) == [] then typed else typed["required" := Array(Required(fields))];
      (match additional
       case Forbidden => required["additionalProperties" := Bool(false)]
       case AnyMore => required["additionalProperties" := Bool(true)]
       case Of(_) => required["additionalProperties" := Object(results[|fields|])]
       case Unspecified => required)
    case OneOf(_) => map["oneOf" := Objects(results)]
    case AnyOf(_) => map["anyOf" := Objects(results)]
    case AllOf(_) => map["allOf" := Objects(results)]
    case Not(_) => map["not" := Object(results[0])]
  }

  function With(fields: Fields, key: string, value: Option<Json>): Fields {
    match value
    case Some(json) => fields[key := json]
    case None => fields
  }

  function Quoted(text: Option<string>): Option<Json> {
    match text
    case Some(t) => Some(String(t))
    case None => None
  }

  /** The keywords beside the kind; constraints come last. */
  function Decorate(schema: Schema, fields: Fields): Fields {
    var formatted := With(With(fields, "format", Quoted(schema.format)), "description", Quoted(schema.description));
    var enumerated := if schema.enumValues == [] then formatted else formatted["enum" := Array(schema.enumValues)];
    var constrained := With(enumerated, "const", schema.constValue) + schema.constraints;
    if schema.nullable then map["anyOf" := Array([Object(constrained), Object(TypeOnly("null"))])] else constrained
  }

  // ----- expansion

  /** `active` are the names whose expansion is in progress. */
  function ExpandedAll(catalog: Catalog, kind: Kind, active: set<string>): seq<Fields>
    decreases Names(catalog) - active, kind
  {
    seq(|Children(kind)|, i requires 0 <= i < |Children(kind)| => Expanded(catalog, Children(kind)[i], active))
  }

  function Expanded(catalog: Catalog, schema: Schema, active: set<string>): Fields
    decreases Names(catalog) - active, schema
  {
    Decorate(schema,
      if schema.kind.Reference? then
        var name := NameOf(schema.kind.reference);
        FoundIsNamed(catalog, name);
        if name in active || Find(catalog, name).None? then map[]
        else
          assert name in Names(catalog) - active && name !in Names(catalog) - (active + {name});
          Expanded(catalog, Find(catalog, name).value, active + {name})
      else Build(schema.kind, ExpandedAll(catalog, schema.kind, active)))
  }

  lemma AllExpanded(catalog: Catalog, kind: Kind, active: set<string>, results: seq<Fields>)
    requires |results| == |Children(kind)|
    requires forall i :: 0 <= i < |results| ==> results[i] == Expanded(catalog, Children(kind)[i], active)
    ensures results == ExpandedAll(catalog, kind, active)
  {
  }

  class Expander {
    const catalog: Catalog
    var active: set<string>

    constructor (catalog: Catalog)
      ensures this.catalog == catalog && active == {}
    {
      this.catalog := catalog;
      active := {};
    }

    /** The names in progress are as before afterwards. */
    method Expand(schema: Schema) returns (result: Fields)
      modifies this
      ensures active == old(active)
      ensures result == Expanded(catalog, schema, active)
      decreases Names(catalog) - active, schema
    {
      hide Build, Decorate, Find, Names, Children, ExpandedAll;
      var inner: Fields := map[];
      if schema.kind.Reference? {
        var name := NameOf(schema.kind.reference);
        if name !in active {
          FoundIsNamed(catalog, name);
          ghost var before := active;
          active := active + {name};
          var found := Find(catalog, name);
          if found.Some? {
            assert name in Names(catalog) - before && name !in Names(catalog) - active;
            inner := Expand(found.value);
          }
          active := active - {name};
          assert active == before;
        }
      } else {
        var children := Children(schema.kind);
        var results: seq<Fields> := [];
        for i := 0 to |children|
          invariant active == old(active) && |results| == i
          invariant forall j :: 0 <= j < i ==> results[j] == Expanded(catalog, children[j], active)
        {
          var result := Expand(children[i]);
          results := results + [result];
        }
        AllExpanded(catalog, schema.kind, active, results);
        inner := Build(schema.kind, results);
      }
      result := Decorate(schema, inner);
    }
  }

  // ----- unfolding

  /** Replacing references `k` levels deep without cutting any; undefined when that is not enough. */
  function Unfolded(catalog: Catalog, schema: Schema, k: nat): Option<Fields>
    decreases k, 1, schema
  {
    if schema.kind.Reference? then
      match UnfoldedName(catalog, NameOf(schema.kind.reference), k)
      case Some(fields) => Some(Decorate(schema, fields))
      case None => None
    else
      match UnfoldedAll(catalog, schema.kind, k)
      case Some(results) => Some(Decorate(schema, Build(schema.kind, results)))
      case None => None
  }

  function UnfoldedAll(catalog: Catalog, kind: Kind, k: nat): (results: Option<seq<Fields>>)
    ensures results.Some? ==> |results.value| == |Children(kind)|
    decreases k, 1, kind
  {
    if forall i :: 0 <= i < |Children(kind)| ==> Unfolded(catalog, Children(kind)[i], k).Some? then
      Some(seq(|Children(kind)|, i requires 0 <= i < |Children(kind)| => Unfolded(catalog, Children(kind)[i], k).value))
    else None
  }

  function UnfoldedName(catalog: Catalog, name: string, k: nat): Option<Fields>
    decreases k, 0
  {
    if k == 0 then None
    else if Find(catalog, name).None? then Some(map[])
    else Unfolded(catalog, Find(catalog, name).value, k - 1)
  }

  lemma {:induction false} UnfoldedFurther(catalog: Catalog, schema: Schema, k: nat, l: nat)
    requires k <= l && Unfolded(catalog, schema, k).Some?
    ensures Unfolded(catalog, schema, l) == Unfolded(catalog, schema, k)
    decreases k, 1, schema
  {
    hide Build, Decorate, Find, Children;
    if schema.kind.Reference? {
      NameFurther(catalog, NameOf(schema.kind.reference), k, l);
    } else {
      var children := Children(schema.kind);
      forall i | 0 <= i < |children| ensures Unfolded(catalog, children[i], l) == Unfolded(catalog, children[i], k) {
        UnfoldedFurther(catalog, children[i], k, l);
      }
      assert UnfoldedAll(catalog, schema.kind, l).value == UnfoldedAll(catalog, schema.kind, k).value;
    }
  }

  lemma {:induction false} NameFurther(catalog: Catalog, name: string, k: nat, l: nat)
    requires k <= l && UnfoldedName(catalog, name, k).Some?
    ensures UnfoldedName(catalog, name, l) == UnfoldedName(catalog, name, k)
    decreases k, 0
  {
    if Find(catalog, name).Some? {
      UnfoldedFurther(catalog, Find(catalog, name).value, k - 1, l - 1);
    }
  }

  /** The least depth at which a name can be unfolded. */
  lemma LeastDepth(catalog: Catalog, name: string, k: nat) returns (least: nat)
    requires UnfoldedName(catalog, name, k).Some?
    ensures 0 < least <= k && UnfoldedName(catalog, name, least) == UnfoldedName(catalog, name, k)
    ensures UnfoldedName(catalog, name, least - 1).None?
  {
    hide Unfolded;
    least := k;
    while UnfoldedName(catalog, name, least - 1).Some?
      invariant 0 < least <= k && UnfoldedName(catalog, name, least) == UnfoldedName(catalog, name, k)
      decreases least
    {
      NameFurther(catalog, name, least - 1, least);
      least := least - 1;
    }
  }

  /** A schema that can be unfolded is expanded to exactly its unfolding. */
  lemma {:induction false} ExpansionIsUnfolding(catalog: Catalog, schema: Schema, active: set<string>, k: nat)
    requires Unfolded(catalog, schema, k).Some?
    requires forall name :: name in active ==> UnfoldedName(catalog, name, k).None?
    ensures Expanded(catalog, schema, active) == Unfolded(catalog, schema, k).value
    decreases k, 1, schema
  {
    hide Build, Decorate, Find, Children;
    if schema.kind.Reference? {
      var name := NameOf(schema.kind.reference);
      if Find(catalog, name).Some? {
        var body := Find(catalog, name).value;
        var least := LeastDepth(catalog, name, k);
        forall other | other in active + {name} ensures UnfoldedName(catalog, other, least - 1).None? {
          if UnfoldedName(catalog, other, least - 1).Some? {
            NameFurther(catalog, other, least - 1, k);
          }
        }
        ExpansionIsUnfolding(catalog, body, active + {name}, least - 1);
      }
    } else {
      var children := Children(schema.kind);
      forall i | 0 <= i < |children|
        ensures Expanded(catalog, children[i], active) == Unfolded(catalog, children[i], k).value
      {
        ExpansionIsUnfolding(catalog, children[i], active, k);
      }
      assert UnfoldedAll(catalog, schema.kind, k).value == ExpandedAll(catalog, schema.kind, active);
    }
  }

  // ----- cuts

  /** Somewhere a reference occurs inside its own expansion. */
  ghost predicate Cuts(catalog: Catalog, schema: Schema, active: set<string>)
    decreases Names(catalog) - active, schema
  {
    if schema.kind.Reference? then
      var name := NameOf(schema.kind.reference);
      FoundIsNamed(catalog, name);
      if name in active then true
      else if Find(catalog, name).None? then false
      else
        assert name in Names(catalog) - active && name !in Names(catalog) - (active + {name});
        Cuts(catalog, Find(catalog, name).value, active + {name})
    else exists i :: 0 <= i < |Children(schema.kind)| && Cuts(catalog, Children(schema.kind)[i], active)
  }

  lemma {:induction false} UncutUnfolds(catalog: Catalog, schema: Schema, active: set<string>)
    requires !Cuts(catalog, schema, active)
    ensures Unfolded(catalog, schema, |Names(catalog) - active| + 1).Some?
    decreases Names(catalog) - active, schema
  {
    hide Build, Decorate, Find, Children, Names;
    if schema.kind.Reference? {
      var name := NameOf(schema.kind.reference);
      FoundIsNamed(catalog, name);
      if Find(catalog, name).Some? {
        assert Names(catalog) - active == (Names(catalog) - (active + {name})) + {name};
        UncutUnfolds(catalog, Find(catalog, name).value, active + {name});
      }
    } else {
      var children := Children(schema.kind);
      forall i | 0 <= i < |children| ensures Unfolded(catalog, children[i], |Names(catalog) - active| + 1).Some? {
        UncutUnfolds(catalog, children[i], active);
      }
    }
  }

  lemma {:induction false} UnfoldingIsUncut(catalog: Catalog, schema: Schema, active: set<string>, k: nat)
    requires Unfolded(catalog, schema, k).Some?
    requires forall name :: name in active ==> UnfoldedName(catalog, name, k).None?
    ensures !Cuts(catalog, schema, active)
    decreases k, 1, schema
  {
    hide Build, Decorate, Find, Children;
    if schema.kind.Reference? {
      var name := NameOf(schema.kind.reference);
      if Find(catalog, name).Some? {
        var least := LeastDepth(catalog, name, k);
        forall other | other in active + {name} ensures UnfoldedName(catalog, other, least - 1).None? {
          if UnfoldedName(catalog, other, least - 1).Some? {
            NameFurther(catalog, other, least - 1, k);
          }
        }
        UnfoldingIsUncut(catalog, Find(catalog, name).value, active + {name}, least - 1);
      }
    } else {
      var children := Children(schema.kind);
      forall i | 0 <= i < |children| ensures !Cuts(catalog, children[i], active) {
        UnfoldingIsUncut(catalog, children[i], active, k);
      }
    }
  }

  /** A reference is cut exactly in schemas without a finite unfolding, and all others are
      written out completely. */
  lemma CutsExactlyRecursion(catalog: Catalog, schema: Schema)
    ensures Cuts(catalog, schema, {}) <==> forall k: nat :: Unfolded(catalog, schema, k).None?
    ensures !Cuts(catalog, schema, {}) ==> Unfolded(catalog, schema, |Names(catalog)| + 1) == Some(Expanded(catalog, schema, {}))
  {
    hide Cuts, Unfolded, Expanded, UnfoldedName;
    assert Names(catalog) - {} == Names(catalog);
    if !Cuts(catalog, schema, {}) {
      UncutUnfolds(catalog, schema, {});
      ExpansionIsUnfolding(catalog, schema, {}, |Names(catalog)| + 1);
    }
    forall k: nat | Unfolded(catalog, schema, k).Some? ensures !Cuts(catalog, schema, {}) {
      UnfoldingIsUncut(catalog, schema, {}, k);
    }
  }
}
