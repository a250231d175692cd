/** The bundled document against its sources. */
module BundleTheorem {
  import opened Wrappers
  import opened Yaml
  import opened References
  import opened Normalization
  import opened Ordering
  import opened Assembly
  import opened Meaning
  import opened Preservation
  import opened Bundling
  import opened Siblings

  /** The places where components are added are written out in the root document. */
  predicate PlainRoot(root: Node) {
    && HoldsComponents(root)
    && RefOf(root).None?
    && RefOf(OrEmpty(MappingValue(root, "components"))).None?
    && RefOf(OrEmpty(MappingValue(OrEmpty(MappingValue(root, "components")), "schemas"))).None?
  }

  function Output(s: Sources, out: Node): Sources {
    Sources(map[s.root := out], s.root, s.resolve)
  }

  // ----- declarations keep their place

  lemma {:induction false} PositionForms(b: Bundle, node: Node, mode: Mode, tokens: seq<string>)
    requires Fits(b, {}, b.s.root, node, mode)
    requires Position(node, mode, tokens).Some?
    ensures var (target, at) := Position(node, mode, tokens).value;
      && Fits(b, {}, b.s.root, target, at)
      && Position(Form(b, {}, b.s.root, node, mode).value, mode, tokens)
         == Some((Form(b, {}, b.s.root, target, at).value, at))
    decreases tokens
  {
    if tokens != [] {
      var key := Unescape(tokens[0]);
      var out := Form(b, {}, b.s.root, node, mode).value;
      if node.Sequence? {
        var i := Index(key).value;
        assert Form(b, {}, b.s.root, node.items[i], Mode(mode.schema, false)).Some?;
        PositionForms(b, node.items[i], Mode(mode.schema, false), tokens[1..]);
      } else {
        var child, next := MappingValue(node, key).value, Step(mode, key).value;
        ChildForm(b, node, mode, key);
        SameReference(b, {}, b.s.root, node, mode);
        PositionForms(b, child, next, tokens[1..]);
      }
    }
  }

  /** An entry is normalized in the mode in which it is read. */
  lemma ReadAsNormalized(b: Bundle, e: Entry, mode: Mode)
    requires Step(mode, e.key).Some? && (mode.entries ==> !Misread(e.key, mode.schema))
    ensures NormalEntry(b.s, b.names, {}, mode.schema, b.s.root, e, mode.entries) == Form(b, {}, b.s.root, e.value, Step(mode, e.key).value)
  {
    hide NormalSchema, NormalPlain;
  }

  lemma ChildFits(b: Bundle, node: Node, mode: Mode, i: nat)
    requires Fits(b, {}, b.s.root, node, mode) && node.Mapping? && RefOf(node).None?
    requires i < |node.entries| && Step(mode, node.entries[i].key).Some?
    ensures var e := node.entries[i]; var next := Step(mode, e.key).value;
      && Regular(b.s, {}, b.s.root, e.value, next)
      && (next.entries ==> PlainCatalogue(e.value, next.schema))
      && (mode.entries ==> !Misread(e.key, mode.schema))
  {
    hide Form, Step, Misread;
    assert RegularEntry(b.s, {}, b.s.root, node.entries[i], mode);
  }

  lemma ChildForm(b: Bundle, node: Node, mode: Mode, key: string)
    requires Fits(b, {}, b.s.root, node, mode) && node.Mapping? && RefOf(node).None?
    requires Step(mode, key).Some? && MappingValue(node, key).Some?
    ensures var out := Form(b, {}, b.s.root, node, mode).value;
      var child, next := MappingValue(node, key).value, Step(mode, key).value;
      && Fits(b, {}, b.s.root, child, next)
      && MappingValue(out, key) == Some(Form(b, {}, b.s.root, child, next).value)
  {
    hide Form, NormalEntry, Regular, Step, Misread, PlainCatalogue;
    EntryForms(b, {}, b.s.root, node, mode);
    var es, done := node.entries, Form(b, {}, b.s.root, node, mode).value.entries;
    IndexOfSameKeys(es, done, key);
    var i := IndexOf(es, key);
    ChildFits(b, node, mode, i);
    ReadAsNormalized(b, es[i], mode);
  }

  // ----- adding components moves nothing

  function ComponentsOf(root: Node): Node {
    OrEmpty(MappingValue(root, "components"))
  }

  function CatalogueOf(root: Node): Node {
    OrEmpty(MappingValue(ComponentsOf(root), "schemas"))
  }

  predicate FreshComponents(root: Node, schemas: map<string, Node>) {
    forall name :: name in schemas ==> ComponentName(name) && MappingValue(CatalogueOf(root), name).None?
  }

  lemma AddedKeepsReference(root: Node, schemas: map<string, Node>)
    requires HoldsComponents(root) && FreshComponents(root, schemas)
    ensures RefOf(Assemble(root, schemas)) == RefOf(root)
    ensures var added := AddComponents(CatalogueOf(root), Sorted(schemas.Keys), schemas);
      && RefOf(added) == RefOf(CatalogueOf(root))
      && RefOf(SetMappingValue(ComponentsOf(root), "schemas", added)) == RefOf(ComponentsOf(root))
  {
    var names := Sorted(schemas.Keys);
    var added := AddComponents(CatalogueOf(root), names, schemas);
    assert !ComponentName("$ref") by {
      assert "$ref"[0] != "Local_"[0];
    }
    AddedComponents(CatalogueOf(root), names, schemas, "$ref");
    SetThenGet(ComponentsOf(root), "schemas", added, "$ref");
    SetThenGet(root, "components", SetMappingValue(ComponentsOf(root), "schemas", added), "$ref");
  }

  /** A position below a mapping depends only on the child that its first token selects. */
  lemma PositionStep(node: Node, other: Node, mode: Mode, tokens: seq<string>)
    requires tokens != [] && node.Mapping? && other.Mapping? && RefOf(node) == RefOf(other)
    requires MappingValue(node, Unescape(tokens[0])) == MappingValue(other, Unescape(tokens[0]))
    ensures Position(node, mode, tokens) == Position(other, mode, tokens)
  {
  }

  lemma PositionBelow(node: Node, mode: Mode, tokens: seq<string>, child: Node)
    requires tokens != [] && node.Mapping? && RefOf(node).None? && Step(mode, Unescape(tokens[0])).Some?
    requires MappingValue(node, Unescape(tokens[0])) == Some(child)
    ensures Position(node, mode, tokens) == Position(child, Step(mode, Unescape(tokens[0])).value, tokens[1..])
  {
  }

  lemma AssembleKeepsPositions(root: Node, schemas: map<string, Node>, tokens: seq<string>)
    requires HoldsComponents(root) && FreshComponents(root, schemas)
    requires !AboveComponents(tokens) && Position(root, PLAIN, tokens).Some?
    ensures Position(Assemble(root, schemas), PLAIN, tokens) == Position(root, PLAIN, tokens)
  {
    hide Position, Unescape, RefOf;
    AddedKeepsReference(root, schemas);
    var components, catalogue := ComponentsOf(root), CatalogueOf(root);
    var added := AddComponents(catalogue, Sorted(schemas.Keys), schemas);
    var extended := SetMappingValue(components, "schemas", added);
    var out := Assemble(root, schemas);
    var key := Unescape(tokens[0]);
    PositionSome(root, PLAIN, tokens);
    SetThenGet(root, "components", extended, key);
    AddedComponents(catalogue, Sorted(schemas.Keys), schemas, "");
    if key != "components" {
      PositionStep(root, out, PLAIN, tokens);
    } else {
      var inner, rest := Step(PLAIN, key).value, tokens[1..];
      PositionBelow(root, PLAIN, tokens, components);
      PositionBelow(out, PLAIN, tokens, extended);
      PositionSome(components, inner, rest);
      SetThenGet(components, "schemas", added, Unescape(rest[0]));
      if Unescape(rest[0]) != "schemas" {
        PositionStep(components, extended, inner, rest);
      } else {
        PositionBelow(components, inner, rest, catalogue);
        PositionBelow(extended, inner, rest, added);
        PositionSome(catalogue, Step(inner, "schemas").value, rest[1..]);
        AddedComponents(catalogue, Sorted(schemas.Keys), schemas, Unescape(rest[1..][0]));
        PositionStep(catalogue, added, Step(inner, "schemas").value, rest[1..]);
      }
    }
  }

  lemma PositionSome(node: Node, mode: Mode, tokens: seq<string>)
    requires tokens != [] && node.Mapping? && Position(node, mode, tokens).Some?
    ensures RefOf(node).None? && Step(mode, Unescape(tokens[0])).Some? && MappingValue(node, Unescape(tokens[0])).Some?
  {
  }

  lemma ComponentSteps()
    ensures Step(PLAIN, "components") == Some(PLAIN)
    ensures Step(PLAIN, "schemas") == Some(Mode(false, true))
  {
    assert "components"[0] == 'c' && "schemas"[0] == 's' && "x-"[0] == 'x';
    assert |"components"| == 10 && |"schemas"| == 7 && |"schema"| == 6 && |"itemSchema"| == 10;
    assert "itemSchema"[0] == 'i';
  }

  /** The normal form of a plain root holds components, under the names it had before. */
  lemma PlainRootForm(b: Bundle, root: Node)
    requires Fits(b, {}, b.s.root, root, PLAIN) && PlainRoot(root)
    ensures var out := Form(b, {}, b.s.root, root, PLAIN).value;
      && HoldsComponents(out)
      && forall name :: MappingValue(CatalogueOf(out), name).Some? ==> name in RootNames(root)
  {
    hide NormalPlain, NormalSchema, Regular, Step;
    var out := Form(b, {}, b.s.root, root, PLAIN).value;
    var components := ComponentsOf(root);
    ComponentSteps();
    EntryForms(b, {}, b.s.root, root, PLAIN);
    IndexOfSameKeys(root.entries, out.entries, "components");
    if MappingValue(root, "components").Some? {
      ChildForm(b, root, PLAIN, "components");
      EntryForms(b, {}, b.s.root, components, PLAIN);
      IndexOfSameKeys(components.entries, ComponentsOf(out).entries, "schemas");
      if MappingValue(components, "schemas").Some? {
        var catalogue := CatalogueOf(root);
        ChildForm(b, components, PLAIN, "schemas");
        EntryForms(b, {}, b.s.root, catalogue, Mode(false, true));
        forall name | MappingValue(CatalogueOf(out), name).Some? ensures name in RootNames(root) {
          IndexOfSameKeys(catalogue.entries, CatalogueOf(out).entries, name);
          assert catalogue.entries[IndexOf(catalogue.entries, name)].key == name;
        }
      }
    }
  }

  // ----- the hypotheses

  /** What is asked of siblings and of names in catalogues is exactly what normalization needs. */
  lemma HypothesesAreExact(key: string)
    requires key != "$ref"
    ensures Ordinary(key, true) <==> SchemaSiblingKept(key)
    ensures Ordinary(key, false) <==> PlainSiblingKept(key)
    ensures !Misread(key, true) <==> PropertyKept(key)
    ensures !Misread(key, false) <==> ComponentKept(key)
  {
    hide SchemaSiblingKept, PlainSiblingKept, PropertyKept, ComponentKept;
    SchemaSiblingsExactly(key);
    PlainSiblingsExactly(key);
    NamedSchemasExactly(key);
  }

  // ----- the theorem

  lemma BundledComponents(s: Sources, names: Names, schemas: map<string, Node>, out: Node)
    requires RegularSources(s, names) && PlainRoot(s.documents[s.root])
    requires Bundled(s, names, schemas, out)
    ensures var b := Bundle(s, names, Output(s, out));
      var root := s.documents[s.root];
      && Fits(b, {}, s.root, root, PLAIN)
      && var normalized := Form(b, {}, s.root, root, PLAIN).value;
      && out == Assemble(normalized, schemas)
      && HoldsComponents(normalized)
      && FreshComponents(normalized, schemas)
  {
    var b := Bundle(s, names, Output(s, out));
    var root := s.documents[s.root];
    PlainRootForm(b, root);
    var normalized := Form(b, {}, s.root, root, PLAIN).value;
    forall name | name in schemas
      ensures ComponentName(name) && MappingValue(CatalogueOf(normalized), name).None?
    {
      assert name in names.Values;
    }
  }

  lemma BundleIsLinked(s: Sources, names: Names, schemas: map<string, Node>, out: Node)
    requires RegularSources(s, names) && PlainRoot(s.documents[s.root])
    requires Bundled(s, names, schemas, out)
    ensures Linked(Bundle(s, names, Output(s, out)))
  {
    var b := Bundle(s, names, Output(s, out));
    var root := s.documents[s.root];
    BundledComponents(s, names, schemas, out);
    var normalized := Form(b, {}, s.root, root, PLAIN).value;
    forall at | at in names ensures LiftedAlike(b, at) {
      LiftedIsAlike(s, names, schemas, out, normalized, at);
    }
    forall fragment | Declared(s, fragment) ensures DeclaredAlike(b, fragment) {
      PositionForms(b, root, PLAIN, fragment.tokens);
      AssembleKeepsPositions(normalized, schemas, fragment.tokens);
    }
  }

  lemma LocateComponent(s: Sources, out: Node, name: string)
    ensures Locate(Output(s, out), s.root, ComponentReference(name)) ==
      match Walk(out, ComponentTokens(name))
      case None => Err(MissingTarget)
      case Some(node) => Ok((Locator(s.root, Pointer(ComponentTokens(name))), node))
  {
    hide Walk;
  }

  lemma BundledNames(s: Sources, names: Names, schemas: map<string, Node>, out: Node)
    requires Bundled(s, names, schemas, out)
    ensures forall name :: name in schemas ==> '~' !in name && "Local_" <= name
    ensures forall name :: name in schemas ==> exists at :: at in names && names[at] == name
    ensures forall at :: at in names ==> names[at] in schemas && Published(s, names, schemas, at)
  {
    hide Published;
    forall name | name in schemas ensures ComponentName(name) && exists at :: at in names && names[at] == name {
      assert name in names.Values;
    }
    forall at | at in names ensures names[at] in schemas {
      assert names[at] in names.Values;
    }
  }

  lemma LiftedIsAlike(s: Sources, names: Names, schemas: map<string, Node>, out: Node, normalized: Node, at: Locator)
    requires Bundled(s, names, schemas, out) && at in names
    requires out == Assemble(normalized, schemas)
    requires HoldsComponents(normalized)
    ensures LiftedAlike(Bundle(s, names, Output(s, out)), at)
  {
    BundledNames(s, names, schemas, out);
    hide Walk, Locate, NormalSchema, Bundled, HoldsComponents, Assemble;
    ComponentsResolve(normalized, schemas);
    assert Walk(out, ComponentTokens(names[at])) == Some(schemas[names[at]]);
    LocateComponent(s, out, names[at]);
  }

  /** Every declaration of the root document is found at the same place in the bundled
      document, read in the same way, and unfolds to the same tree at every depth. */
  lemma BundlingPreservesMeaning(s: Sources, names: Names, schemas: map<string, Node>, out: Node, fragment: Fragment, k: nat)
    requires RegularSources(s, names) && PlainRoot(s.documents[s.root])
    requires Bundled(s, names, schemas, out)
    requires Declared(s, fragment)
    ensures var o := Output(s, out);
      && FragmentPosition(o, fragment).Some?
      && var (before, mode) := FragmentPosition(s, fragment).value;
      && var (after, mode') := FragmentPosition(o, fragment).value;
      && mode == mode'
      && Unfold(s, k, {}, s.root, before, mode) == Unfold(o, k, {}, o.root, after, mode)
  {
    var b := Bundle(s, names, Output(s, out));
    BundleIsLinked(s, names, schemas, out);
    assert DeclaredAlike(b, fragment);
    var (before, mode) := FragmentPosition(s, fragment).value;
    SameUnfolding(b, k, {}, s.root, before, mode);
  }

  /** The component of a lifted schema unfolds like the target it was lifted from, wherever
      in the documents that target is. */
  lemma LiftedSchemasKeepMeaning(s: Sources, names: Names, schemas: map<string, Node>, out: Node, at: Locator, k: nat)
    requires RegularSources(s, names) && PlainRoot(s.documents[s.root])
    requires Bundled(s, names, schemas, out)
    requires at in names
    ensures Target(s, at).Some?
    ensures var o := Output(s, out);
      var found := Locate(o, o.root, ComponentReference(names[at]));
      && found.Ok?
      && Unfold(s, k, {}, at.document, Target(s, at).value, SCHEMA) == Unfold(o, k, {}, o.root, found.value.1, SCHEMA)
  {
    var b := Bundle(s, names, Output(s, out));
    BundleIsLinked(s, names, schemas, out);
    assert LiftedAlike(b, at);
    SameUnfolding(b, k, {}, at.document, Target(s, at).value, SCHEMA);
  }

  /** The reference to a lifted schema leads to its normal form. */
  ghost predicate Resolves(s: Sources, names: Names, out: Node, at: Locator)
    requires at in names && Target(s, at).Some?
  {
    var found := Locate(Output(s, out), s.root, ComponentReference(names[at]));
    found.Ok? && NormalSchema(s, names, at.document, Target(s, at).value, false) == Some(found.value.1)
  }

  /** Whether or not the documents are regular: the references to lifted schemas resolve in
      the bundled document exactly when it has a place that holds components. */
  lemma ReferencesResolveExactly(s: Sources, names: Names, schemas: map<string, Node>, out: Node)
    requires Bundled(s, names, schemas, out) && names != map[]
    ensures forall at :: at in names ==> Target(s, at).Some?
    ensures
      HoldsComponents(NormalPlain(s, names, {}, s.root, s.documents[s.root], false).value)
      <==> forall at :: at in names ==> Resolves(s, names, out, at)
  {
    var normalized := NormalPlain(s, names, {}, s.root, s.documents[s.root], false).value;
    assert out == Assemble(normalized, schemas);
    BundledNames(s, names, schemas, out);
    hide Walk, Locate, NormalSchema, NormalPlain, Bundled, HoldsComponents, Assemble;
    var some :| some in names;
    assert names[some] in schemas;
    ComponentsResolve(normalized, schemas);
    forall at | at in names
      ensures Resolves(s, names, out, at) <==> Walk(out, ComponentTokens(names[at])) == Some(schemas[names[at]])
    {
      LocateComponent(s, out, names[at]);
      assert Published(s, names, schemas, at);
    }
  }
}
