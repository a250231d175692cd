/** Adding the lifted components to a normalized root document. */
module Assembly {
  import opened Wrappers
  import opened Yaml
  import opened References
  import opened Normalization
  import opened Ordering

  function AddComponents(catalogue: Node, names: seq<string>, schemas: map<string, Node>): Node
    requires forall name :: name in names ==> name in schemas
  {
    if names == [] then catalogue
    else
      var last := names[|names| - 1];
      SetMappingValue(AddComponents(catalogue, names[..|names| - 1], schemas), last, schemas[last])
  }

  function OrEmpty(node: Option<Node>): Node {
    if node.Some? then node.value else Mapping([])
  }

  function Assemble(root: Node, schemas: map<string, Node>): Node {
    var components := OrEmpty(MappingValue(root, "components"));
    var catalogue := OrEmpty(MappingValue(components, "schemas"));
    SetMappingValue(root, "components",
      SetMappingValue(components, "schemas", AddComponents(catalogue, Sorted(schemas.Keys), schemas)))
  }

  method AddSchemas(root: Node, schemas: map<string, Node>) returns (out: Node)
    ensures out == Assemble(root, schemas)
  {
    hide MappingValue, SetMappingValue, OrEmpty, Sorted;
    var components := OrEmpty(MappingValue(root, "components"));
    var catalogue := OrEmpty(MappingValue(components, "schemas"));
    var names := Sorted(schemas.Keys);
    ghost var before := catalogue;
    for i := 0 to |names|
      invariant catalogue == AddComponents(before, names[..i], schemas)
    {
      assert names[..i + 1][..i] == names[..i];
      catalogue := SetMappingValue(catalogue, names[i], schemas[names[i]]);
    }
    assert names[..|names|] == names;
    out := SetMappingValue(root, "components", SetMappingValue(components, "schemas", catalogue));
  }

  lemma {:induction false} AddedComponents(catalogue: Node, names: seq<string>, schemas: map<string, Node>, key: string)
    requires catalogue.Mapping? && Increasing(names)
    requires forall name :: name in names ==> name in schemas
    ensures var added := AddComponents(catalogue, names, schemas);
      && added.Mapping?
      && MappingValue(added, key) == if key in names then Some(schemas[key]) else MappingValue(catalogue, key)
  {
    if names != [] {
      var front, last := names[..|names| - 1], names[|names| - 1];
      AddedComponents(catalogue, front, schemas, key);
      SetThenGet(AddComponents(catalogue, front, schemas), last, schemas[last], key);
      assert names == front + [last];
    }
  }

  /** The added components are found exactly when the places they are added to are
      mappings or missing: nothing can be added to a scalar or found in a list. */
  predicate HoldsComponents(root: Node) {
    && root.Mapping?
    && OrEmpty(MappingValue(root, "components")).Mapping?
    && OrEmpty(MappingValue(OrEmpty(MappingValue(root, "components")), "schemas")).Mapping?
  }

  lemma PlainToken(token: string)
    requires '~' !in token
    ensures Unescape(token) == token
  {
    NoEscape(token, '1', '/');
    NoEscape(token, '0', '~');
  }

  lemma NoEscape(token: string, code: char, plain: char)
    requires '~' !in token
    ensures ReplaceEscape(token, code, plain) == token
  {
    if |token| >= 2 {
      assert '~' == token[0] ==> '~' in token;
      NoEscape(token[1..], code, plain);
    }
  }

  lemma {:induction false} NotANumber(key: string)
    requires key != [] && key[0] != '+' && key[0] != '-' && !('0' <= key[0] <= '9')
    ensures Index(key).None?
  {
    NotDecimal(key);
  }

  lemma {:induction false} NotDecimal(digits: string)
    requires digits != [] && !('0' <= digits[0] <= '9')
    ensures DecimalValue(digits).None?
  {
    if |digits| > 1 {
      NotDecimal(digits[..|digits| - 1]);
    }
  }

  function ComponentTokens(name: string): seq<string> {
    ["components", "schemas", name]
  }

  lemma WalkToComponent(root: Node, name: string)
    requires '~' !in name
    ensures Walk(root, ComponentTokens(name)) ==
      var components := PointerValue(root, "components");
      if components.None? then None
      else
        var catalogue := PointerValue(components.value, "schemas");
        if catalogue.None? then None else PointerValue(catalogue.value, name)
  {
    hide Unescape, PointerValue;
    PlainToken("components");
    PlainToken("schemas");
    PlainToken(name);
    var tokens := ComponentTokens(name);
    assert tokens[1..] == ["schemas", name] && tokens[1..][1..] == [name];
    var components := PointerValue(root, "components");
    if components.Some? {
      var catalogue := PointerValue(components.value, "schemas");
      assert Walk(components.value, ["schemas", name])
          == if catalogue.None? then None else Walk(catalogue.value, [name]);
      if catalogue.Some? && PointerValue(catalogue.value, name).Some? {
        assert Walk(PointerValue(catalogue.value, name).value, [name][1..]).Some?;
      }
    }
  }

  ghost predicate AllResolve(root: Node, schemas: map<string, Node>) {
    forall name :: name in schemas ==> Walk(Assemble(root, schemas), ComponentTokens(name)) == Some(schemas[name])
  }

  lemma ComponentsResolve(root: Node, schemas: map<string, Node>)
    requires schemas != map[]
    requires forall name :: name in schemas ==> '~' !in name && "Local_" <= name
    ensures HoldsComponents(root) <==> AllResolve(root, schemas)
  {
    hide Walk, AddComponents, Index, IndexOf, SetEntry, Sorted;
    var components := OrEmpty(MappingValue(root, "components"));
    var catalogue := OrEmpty(MappingValue(components, "schemas"));
    var names := Sorted(schemas.Keys);
    var added := AddComponents(catalogue, names, schemas);
    var extended := SetMappingValue(components, "schemas", added);
    NotANumber("components");
    NotANumber("schemas");
    if HoldsComponents(root) {
      forall name | name in schemas
        ensures Walk(Assemble(root, schemas), ComponentTokens(name)) == Some(schemas[name])
      {
        WalkToComponent(Assemble(root, schemas), name);
        SetThenGet(root, "components", extended, "components");
        SetThenGet(components, "schemas", added, "schemas");
        AddedComponents(catalogue, names, schemas, name);
      }
    } else {
      var name :| name in schemas;
      WalkToComponent(Assemble(root, schemas), name);
      NotANumber(name);
      if root.Mapping? {
        SetThenGet(root, "components", extended, "components");
        if components.Mapping? {
          SetThenGet(components, "schemas", added, "schemas");
          AddedToOther(catalogue, names, schemas);
        }
      }
      assert Walk(Assemble(root, schemas), ComponentTokens(name)).None?;
    }
  }

  lemma AddedToOther(catalogue: Node, names: seq<string>, schemas: map<string, Node>)
    requires !catalogue.Mapping?
    requires forall name :: name in names ==> name in schemas
    ensures !AddComponents(catalogue, names, schemas).Mapping?
  {
  }

  /** For instance, nothing can be added below components that are a sequence. */
  lemma SequenceHoldsNothing(schema: Node)
    ensures var root, schemas := Mapping([Entry("components", Sequence([]))]), map["Local_A" := schema];
      !HoldsComponents(root) && Walk(Assemble(root, schemas), ComponentTokens("Local_A")) != Some(schema)
  {
    hide Walk, Assemble;
    var root, schemas := Mapping([Entry("components", Sequence([]))]), map["Local_A" := schema];
    assert root.entries[0] == Entry("components", Sequence([])) && IndexOf(root.entries, "components") == 0;
    assert "Local_A" in schemas;
    ComponentsResolve(root, schemas);
    assert forall name :: name in schemas ==> name == "Local_A";
  }
}
