/** Bundling preserves meaning: at every depth, a declaration of the bundled document
    unfolds to the same tree as the declaration it came from. */
module Preservation {
  import opened Wrappers
  import opened Yaml
  import opened References
  import opened Normalization
  import opened Meaning
  import opened Pointers

  // ----- the documents the theorem is about

  predicate DistinctKeys(es: seq<Entry>) {
    forall i, j :: 0 <= i < j < |es| ==> es[i].key != es[j].key
  }

  /** A keyword whose value is read like the entry's own surroundings. */
  predicate Ordinary(key: string, schema: bool) {
    Step(Mode(schema, false), key) == Some(Mode(schema, false))
  }

  /** The keyword, as an entry name, would be taken for a keyword in such a catalogue. */
  predicate Misread(key: string, schema: bool) {
    if schema then SchemaCatalogue(key) else key == "schemas"
  }

  /** A catalogue is written out, and no schema in it has a name that is misread. */
  predicate PlainCatalogue(node: Node, schema: bool) {
    node.Mapping? ==>
      && RefOf(node).None?
      && forall i :: 0 <= i < |node.entries| ==> !Misread(node.entries[i].key, schema)
  }

  /** The places whose contents bundling extends: the root, its components, its schemas. */
  predicate AboveComponents(tokens: seq<string>) {
    && |tokens| <= 2
    && (|tokens| >= 1 ==> Unescape(tokens[0]) == "components")
    && (|tokens| == 2 ==> Unescape(tokens[1]) == "schemas")
  }

  /** The reference names a declaration; a reference to a component names a schema. */
  predicate Declared(s: Sources, fragment: Fragment) {
    && FragmentPosition(s, fragment).Some?
    && fragment.Pointer?
    && !AboveComponents(fragment.tokens)
    && (DirectSchemaFragment(fragment) ==> FragmentPosition(s, fragment).value.1 == SCHEMA)
  }

  function Rank(mode: Mode): nat {
    if mode.schema then 1 else 2
  }

  /** Beside a reference that is replaced there are only annotations. */
  predicate Annotations(es: seq<Entry>, schema: bool) {
    forall i :: 0 <= i < |es| && es[i].key != "$ref" ==> es[i].value.Scalar? || Ordinary(es[i].key, schema)
  }

  /** The node is regular as it is read in this mode. Data is not looked at. */
  ghost predicate Regular(s: Sources, active: set<Locator>, origin: string, node: Node, mode: Mode)
    decreases Rank(mode), Universe(s) - active, node, 1
  {
    match node
    case Scalar(_) => true
    case Sequence(items) => forall i :: 0 <= i < |items| ==> Regular(s, active, origin, items[i], Mode(mode.schema, false))
    case Mapping(es) =>
      && (MappingValue(node, "$ref").Some? ==> RefOf(MappingValue(node, "$ref").value).None?)
      && if KeepsReference(s, mode.schema, origin, node) then
           && (RefOf(node).Some? ==> DistinctKeys(es) && Declared(s, RefOf(node).value.fragment))
           && forall i :: 0 <= i < |es| ==> RegularEntry(s, active, origin, es[i], mode)
         else
           && Annotations(es, mode.schema)
           && (forall i :: 0 <= i < |es| && es[i].key != "$ref" ==> Regular(s, active, origin, es[i].value, Mode(mode.schema, false)))
           && (!mode.schema ==> RegularTarget(s, active, origin, node))
  }

  ghost predicate RegularEntry(s: Sources, active: set<Locator>, origin: string, e: Entry, mode: Mode)
    decreases Rank(mode), Universe(s) - active, e.value, 2
  {
    Step(mode, e.key).Some? ==>
      var next := Step(mode, e.key).value;
      && (next.entries ==> PlainCatalogue(e.value, next.schema))
      && Regular(s, if next.schema && !mode.schema then {} else active, origin, e.value, next)
  }

  /** So is what an inlined reference is replaced by. */
  ghost predicate RegularTarget(s: Sources, active: set<Locator>, origin: string, node: Node)
    requires RefOf(node).Some?
    decreases 2, Universe(s) - active, node, 0
  {
    match Locate(s, origin, RefOf(node).value)
    case Err(_) => true
    case Ok((at, target)) =>
      at !in active && at in Universe(s) ==> Regular(s, active + {at}, at.document, target, PLAIN)
  }

  /** The root is regular, and so are the schemas that get a component. */
  ghost predicate RegularSources(s: Sources, names: Names) {
    && s.root in s.documents
    && Regular(s, {}, s.root, s.documents[s.root], PLAIN)
    && forall at :: at in names && Target(s, at).Some? ==> Regular(s, {}, at.document, Target(s, at).value, SCHEMA)
  }

  lemma LocatedTarget(s: Sources, origin: string, uri: Value)
    ensures var found := Locate(s, origin, uri);
      found.Ok? ==> Target(s, found.value.0) == Some(found.value.1)
  {
  }

  // ----- how the bundled documents relate to the sources

  /** The sources, the names of the lifted schemas, and the bundled document. */
  datatype Bundle = Bundle(s: Sources, names: Names, o: Sources)

  ghost function Form(b: Bundle, active: set<Locator>, origin: string, node: Node, mode: Mode): Option<Node> {
    Normal(b.s, b.names, active, mode.schema, origin, node, mode.entries)
  }

  /** A node as the normal form is taken of it: regular, and in a mode that fits it. */
  ghost predicate Fits(b: Bundle, active: set<Locator>, origin: string, node: Node, mode: Mode) {
    && Regular(b.s, active, origin, node, mode)
    && (mode.entries ==> PlainCatalogue(node, mode.schema))
    && (mode.schema ==> active == {})
    && Form(b, active, origin, node, mode).Some?
  }

  /** The component of a lifted schema is the normal form of its target. */
  ghost predicate LiftedAlike(b: Bundle, at: Locator)
    requires at in b.names
  {
    && Target(b.s, at).Some?
    && Form(b, {}, at.document, Target(b.s, at).value, SCHEMA).Some?
    && Locate(b.o, b.o.root, ComponentReference(b.names[at])) ==
       Ok((Locator(b.o.root, Pointer(["components", "schemas", b.names[at]])),
           Form(b, {}, at.document, Target(b.s, at).value, SCHEMA).value))
  }

  /** A declaration stays where it is, and becomes its normal form. */
  ghost predicate DeclaredAlike(b: Bundle, fragment: Fragment)
    requires Declared(b.s, fragment)
  {
    var (node, mode) := FragmentPosition(b.s, fragment).value;
    && Fits(b, {}, b.s.root, node, mode)
    && FragmentPosition(b.o, fragment) == Some((Form(b, {}, b.s.root, node, mode).value, mode))
  }

  ghost predicate Linked(b: Bundle) {
    && RegularSources(b.s, b.names)
    && b.o.root == b.s.root
    && (forall at :: at in b.names ==> LiftedAlike(b, at))
    && (forall fragment :: Declared(b.s, fragment) ==> DeclaredAlike(b, fragment))
  }

  // ----- what normal forms look like

  lemma SchemaKind(s: Sources, names: Names, origin: string, node: Node, entries: bool)
    requires NormalSchema(s, names, origin, node, entries).Some?
    ensures var out := NormalSchema(s, names, origin, node, entries).value;
      && out.Scalar? == node.Scalar? && out.Mapping? == node.Mapping?
  {
  }

  lemma PlainKind(s: Sources, names: Names, active: set<Locator>, origin: string, node: Node, entries: bool)
    requires RefOf(node).None?
    requires NormalPlain(s, names, active, origin, node, entries).Some?
    ensures var out := NormalPlain(s, names, active, origin, node, entries).value;
      && out.Scalar? == node.Scalar? && out.Mapping? == node.Mapping?
  {
  }

  lemma IndexOfSameKeys(es: seq<Entry>, other: seq<Entry>, key: string)
    requires |es| == |other| && forall i :: 0 <= i < |es| ==> es[i].key == other[i].key
    ensures IndexOf(es, key) == IndexOf(other, key)
  {
    IndexOfUnique(other, key, IndexOf(es, key));
  }

  /** What is left of a reference in a normal form stays within the root document. */
  ghost predicate Settled(b: Bundle, out: Node) {
    RefOf(out).Some? ==> !LeavesRoot(b.o, b.o.root, RefOf(out).value) && DistinctKeys(out.entries)
  }

  /** The children of a mapping that is not itself replaced. */
  ghost predicate ChildForms(b: Bundle, active: set<Locator>, origin: string, mode: Mode, es: seq<Entry>, done: seq<Entry>) {
    && |es| == |done|
    && forall i :: 0 <= i < |es| ==>
      && es[i].key == done[i].key
      && NormalEntry(b.s, b.names, active, mode.schema, origin, es[i], mode.entries) == Some(done[i].value)
  }

  ghost predicate Stays(b: Bundle, origin: string, node: Node, mode: Mode) {
    KeepsReference(b.s, mode.schema, origin, node)
  }

  lemma EntryForms(b: Bundle, active: set<Locator>, origin: string, node: Node, mode: Mode)
    requires node.Mapping? && Stays(b, origin, node, mode)
    requires Form(b, active, origin, node, mode).Some?
    ensures var out := Form(b, active, origin, node, mode).value;
      out.Mapping? && ChildForms(b, active, origin, mode, node.entries, out.entries)
  {
    var es := node.entries;
    assert forall i :: 0 <= i < |es| ==> NormalEntry(b.s, b.names, active, mode.schema, origin, es[i], mode.entries).Some?;
  }

  lemma SameReference(b: Bundle, active: set<Locator>, origin: string, node: Node, mode: Mode)
    requires node.Mapping? && Stays(b, origin, node, mode)
    requires Regular(b.s, active, origin, node, mode)
    requires Form(b, active, origin, node, mode).Some?
    ensures RefOf(Form(b, active, origin, node, mode).value) == RefOf(node)
  {
    EntryForms(b, active, origin, node, mode);
    var es, done := node.entries, Form(b, active, origin, node, mode).value.entries;
    IndexOfSameKeys(es, done, "$ref");
    var i := IndexOf(es, "$ref");
    if i < |es| {
      assert NormalEntry(b.s, b.names, active, mode.schema, origin, es[i], mode.entries) == Some(done[i].value);
      KeepsKind(b, active, mode, origin, es[i], done[i].value);
    }
  }

  lemma ReferenceIsOrdinary()
    ensures !Extension("$ref") && !Literal("$ref") && !SchemaCatalogue("$ref") && "$ref" != "schemas" && "$ref" != "schema" && "$ref" != "itemSchema"
  {
    assert "$ref"[0] == '$';
    assert |"$defs"| == 5;
  }

  /** The value of a `$ref` key is a scalar after normalization exactly if it was before. */
  lemma KeepsKind(b: Bundle, active: set<Locator>, mode: Mode, origin: string, e: Entry, out: Node)
    requires e.key == "$ref" && RefOf(e.value).None?
    requires NormalEntry(b.s, b.names, active, mode.schema, origin, e, mode.entries) == Some(out)
    ensures out.Scalar? == e.value.Scalar?
    ensures e.value.Scalar? ==> out == e.value
  {
    ReferenceIsOrdinary();
    if mode.schema || mode.entries {
      SchemaKind(b.s, b.names, origin, e.value, false);
    } else {
      PlainKind(b.s, b.names, active, origin, e.value, false);
    }
  }

  lemma SettledSets(b: Bundle, out: Node, key: string, value: Node)
    requires out.Mapping? && Settled(b, out) && key != "$ref"
    ensures Settled(b, SetMappingValue(out, key, value))
    ensures RefOf(SetMappingValue(out, key, value)) == RefOf(out)
  {
    SetThenGet(out, key, value, "$ref");
    IndexOfUnique(out.entries, key, IndexOf(out.entries, key));
  }

  lemma {:induction false} PlainSettled(b: Bundle, active: set<Locator>, origin: string, node: Node, entries: bool)
    requires Regular(b.s, active, origin, node, Mode(false, entries)) && b.o.root == b.s.root
    requires NormalPlain(b.s, b.names, active, origin, node, entries).Some?
    ensures Settled(b, NormalPlain(b.s, b.names, active, origin, node, entries).value)
    decreases Universe(b.s) - active, node
  {
    if node.Mapping? {
      var reference := RefOf(node);
      if reference.Some? && LeavesRoot(b.s, origin, reference.value) {
        var (at, target) := Locate(b.s, origin, reference.value).value;
        assert RegularTarget(b.s, active, origin, node);
        PlainSettled(b, active + {at}, at.document, target, false);
        var inlined := NormalPlain(b.s, b.names, active + {at}, at.document, target, false).value;
        if inlined.Mapping? {
          OverlaySettled(b, active, origin, inlined, node.entries);
        }
      } else {
        var mode := Mode(false, entries);
        SameReference(b, active, origin, node, mode);
        EntryForms(b, active, origin, node, mode);
      }
    }
  }

  lemma {:induction false} OverlaySettled(b: Bundle, active: set<Locator>, origin: string, base: Node, es: seq<Entry>)
    requires base.Mapping? && Settled(b, base)
    requires Overlay(b.s, b.names, active, origin, base, es).Some?
    ensures var out := Overlay(b.s, b.names, active, origin, base, es).value;
      out.Mapping? && Settled(b, out)
  {
    if es != [] {
      var last := es[|es| - 1];
      OverlaySettled(b, active, origin, base, es[..|es| - 1]);
      if last.key != "$ref" {
        var below := Overlay(b.s, b.names, active, origin, base, es[..|es| - 1]).value;
        SettledSets(b, below, last.key, NormalPlain(b.s, b.names, active, origin, last.value, false).value);
      }
    }
  }

  // ----- overriding fields

  lemma FieldIndexUnique(fields: seq<Field>, key: string, i: nat)
    requires i <= |fields|
    requires i < |fields| ==> fields[i].key == key
    requires forall j :: 0 <= j < i ==> fields[j].key != key
    ensures FieldIndex(fields, key) == i
  {
  }

  predicate HasField(tree: Tree, key: string) {
    tree.Object? ==> FieldIndex(tree.fields, key) < |tree.fields|
  }

  lemma SetFieldHas(tree: Tree, key: string, value: Tree, other: string)
    ensures HasField(SetField(tree, key, value), key)
    ensures HasField(tree, other) ==> HasField(SetField(tree, key, value), other)
  {
    hide FieldIndex;
    if tree.Object? {
      var i := FieldIndex(tree.fields, key);
      FieldIndexUnique(SetField(tree, key, value).fields, key, i);
      if HasField(tree, other) && other != key {
        FieldIndexUnique(SetField(tree, key, value).fields, other, FieldIndex(tree.fields, other));
      }
    }
  }

  lemma SetFieldTwice(tree: Tree, key: string, first: Tree, second: Tree)
    ensures SetField(SetField(tree, key, first), key, second) == SetField(tree, key, second)
  {
    hide FieldIndex;
    if tree.Object? {
      FieldIndexUnique(SetField(tree, key, first).fields, key, FieldIndex(tree.fields, key));
    }
  }

  lemma SetFieldSwap(tree: Tree, key: string, value: Tree, other: string, otherValue: Tree)
    requires key != other && HasField(tree, key)
    ensures SetField(SetField(tree, key, value), other, otherValue)
         == SetField(SetField(tree, other, otherValue), key, value)
  {
    hide FieldIndex;
    if tree.Object? {
      var i, j := FieldIndex(tree.fields, key), FieldIndex(tree.fields, other);
      var first, second := SetField(tree, key, value), SetField(tree, other, otherValue);
      if j < |tree.fields| {
        FieldIndexUnique(first.fields, other, j);
        FieldIndexUnique(second.fields, key, i);
        assert SetField(first, other, otherValue).fields == SetField(second, key, value).fields;
      } else {
        FieldIndexUnique(first.fields, other, |first.fields|);
        FieldIndexUnique(second.fields, key, i);
        assert SetField(first, other, otherValue).fields == SetField(second, key, value).fields;
      }
    }
  }

  lemma {:induction false} OverrideHas(o: Sources, k: nat, mode: Mode, base: Tree, es: seq<Entry>, i: nat)
    requires i < |es| && es[i].key != "$ref"
    ensures HasField(Override(o, k, {}, o.root, mode, base, es), es[i].key)
  {
    var front, last := es[..|es| - 1], es[|es| - 1];
    var below := Override(o, k, {}, o.root, mode, base, front);
    if i < |front| {
      OverrideHas(o, k, mode, base, front, i);
    }
    if last.key != "$ref" {
      SetFieldHas(below, last.key, UnfoldChild(o, k, {}, o.root, mode, last), es[i].key);
    }
  }

  lemma {:induction false} OverrideSet(o: Sources, k: nat, mode: Mode, base: Tree, es: seq<Entry>, key: string, value: Node)
    requires DistinctKeys(es) && key != "$ref"
    ensures Override(o, k, {}, o.root, mode, base, SetEntry(es, key, value))
         == SetField(Override(o, k, {}, o.root, mode, base, es), key,
                     UnfoldChild(o, k, {}, o.root, mode, Entry(key, value)))
  {
    hide FieldIndex, SetField, IndexOf, UnfoldChild, HasField;
    var i := IndexOf(es, key);
    var e := Entry(key, value);
    var after := SetEntry(es, key, value);
    if i == |es| {
      assert after[..|es|] == es;
    } else {
      var front, last := es[..|es| - 1], es[|es| - 1];
      var below := Override(o, k, {}, o.root, mode, base, front);
      var child := UnfoldChild(o, k, {}, o.root, mode, e);
      if i == |front| {
        assert after[..|front|] == front;
        SetFieldTwice(below, key, UnfoldChild(o, k, {}, o.root, mode, last), child);
      } else {
        IndexOfUnique(front, key, i);
        assert after[..|front|] == SetEntry(front, key, value);
        OverrideSet(o, k, mode, base, front, key, value);
        OverrideHas(o, k, mode, base, front, i);
        if last.key != "$ref" {
          SetFieldSwap(below, key, child, last.key, UnfoldChild(o, k, {}, o.root, mode, last));
        }
      }
    }
  }

  /** Setting an entry of a settled mapping sets the field it unfolds to. */
  lemma UnfoldSet(b: Bundle, k: nat, out: Node, key: string, value: Node)
    requires out.Mapping? && Settled(b, out) && key != "$ref"
    ensures Unfold(b.o, k, {}, b.o.root, SetMappingValue(out, key, value), PLAIN)
         == SetField(Unfold(b.o, k, {}, b.o.root, out, PLAIN), key,
                     UnfoldChild(b.o, k, {}, b.o.root, PLAIN, Entry(key, value)))
  {
    hide FieldIndex, IndexOf;
    SettledSets(b, out, key, value);
    var es, after := out.entries, SetEntry(out.entries, key, value);
    if RefOf(out).Some? {
      OverrideSet(b.o, k, PLAIN, UnfoldDeclared(b.o, k, RefOf(out).value), es, key, value);
    } else {
      var fields := Unfold(b.o, k, {}, b.o.root, out, PLAIN).fields;
      FieldIndexUnique(fields, key, IndexOf(es, key));
      assert Unfold(b.o, k, {}, b.o.root, SetMappingValue(out, key, value), PLAIN).fields
          == SetField(Object(fields), key, UnfoldChild(b.o, k, {}, b.o.root, PLAIN, Entry(key, value))).fields;
    }
  }

  // ----- what references unfold to

  lemma TargetLocated(s: Sources, k: nat, origin: string, uri: Value)
    ensures UnfoldTarget(s, k, origin, uri) ==
      match Locate(s, origin, uri)
      case Err(_) => Broken
      case Ok((at, target)) => if k == 0 then Cut else Unfold(s, k - 1, {}, at.document, target, SCHEMA)
  {
    hide Locate, Named, Unfold;
    NamedExactly(s, origin, uri);
  }

  lemma InlinedLocated(s: Sources, k: nat, active: set<Locator>, origin: string, node: Node, uri: Value)
    ensures UnfoldInlined(s, k, active, origin, node, uri) ==
      match Locate(s, origin, uri)
      case Err(_) => Broken
      case Ok((at, target)) =>
        if at in active || at !in Universe(s) then Broken else Unfold(s, k, active + {at}, at.document, target, PLAIN)
  {
    hide Locate, Named, Unfold, Universe;
    NamedExactly(s, origin, uri);
  }

  // ----- the induction

  lemma {:induction false} SameUnfolding(b: Bundle, k: nat, active: set<Locator>, origin: string, node: Node, mode: Mode)
    requires Linked(b) && Fits(b, active, origin, node, mode)
    ensures Unfold(b.s, k, active, origin, node, mode)
         == Unfold(b.o, k, {}, b.o.root, Form(b, active, origin, node, mode).value, mode)
    decreases k, Rank(mode), Universe(b.s) - active, node, 3
  {
    match node
    case Scalar(_) =>
    case Sequence(items) =>
      SameItems(b, k, active, origin, node, mode);
    case Mapping(es) =>
      var reference := RefOf(node);
      if !Stays(b, origin, node, mode) {
        if mode.schema {
          SameLifted(b, k, origin, node, mode);
        } else {
          SameInlined(b, k, active, origin, node);
        }
      } else if reference.Some? && !mode.schema {
        SameDeclared(b, k, active, origin, node);
      } else {
        SameFields(b, k, active, origin, node, mode);
      }
  }

  lemma {:induction false} SameItems(b: Bundle, k: nat, active: set<Locator>, origin: string, node: Node, mode: Mode)
    requires Linked(b) && Fits(b, active, origin, node, mode) && node.Sequence?
    ensures Unfold(b.s, k, active, origin, node, mode)
         == Unfold(b.o, k, {}, b.o.root, Form(b, active, origin, node, mode).value, mode)
    decreases k, Rank(mode), Universe(b.s) - active, node, 2
  {
    var items, inner := node.items, Mode(mode.schema, false);
    var out := Form(b, active, origin, node, mode).value;
    forall i | 0 <= i < |items|
      ensures Unfold(b.s, k, active, origin, items[i], inner) == Unfold(b.o, k, {}, b.o.root, out.items[i], inner)
    {
      assert Form(b, active, origin, items[i], inner).Some?;
      SameUnfolding(b, k, active, origin, items[i], inner);
    }
    assert Unfold(b.s, k, active, origin, node, mode).items == Unfold(b.o, k, {}, b.o.root, out, mode).items;
  }

  lemma {:induction false} SameChild(b: Bundle, k: nat, active: set<Locator>, origin: string, mode: Mode, e: Entry, out: Node)
    requires Linked(b) && RegularEntry(b.s, active, origin, e, mode)
    requires mode.schema ==> active == {}
    requires mode.entries ==> !Misread(e.key, mode.schema)
    requires NormalEntry(b.s, b.names, active, mode.schema, origin, e, mode.entries) == Some(out)
    ensures UnfoldChild(b.s, k, active, origin, mode, e) == UnfoldChild(b.o, k, {}, b.o.root, mode, Entry(e.key, out))
    decreases k, Rank(mode), Universe(b.s) - active, e.value, 4
  {
    if Step(mode, e.key).Some? {
      var next := Step(mode, e.key).value;
      var inner := if next.schema && !mode.schema then {} else active;
      assert Form(b, inner, origin, e.value, next) == Some(out);
      SameUnfolding(b, k, inner, origin, e.value, next);
    }
  }

  lemma {:induction false} SameFields(b: Bundle, k: nat, active: set<Locator>, origin: string, node: Node, mode: Mode)
    requires Linked(b) && Fits(b, active, origin, node, mode)
    requires node.Mapping? && Stays(b, origin, node, mode) && (RefOf(node).Some? ==> mode.schema)
    ensures Unfold(b.s, k, active, origin, node, mode)
         == Unfold(b.o, k, {}, b.o.root, Form(b, active, origin, node, mode).value, mode)
    decreases k, Rank(mode), Universe(b.s) - active, node, 2
  {
    EntryForms(b, active, origin, node, mode);
    SameReference(b, active, origin, node, mode);
    var es, out := node.entries, Form(b, active, origin, node, mode).value;
    var reference := RefOf(node);
    forall i | 0 <= i < |es|
      ensures UnfoldField(b.s, k, active, origin, mode, reference, es[i])
           == UnfoldField(b.o, k, {}, b.o.root, mode, reference, out.entries[i])
    {
      if reference.Some? && es[i].key == "$ref" {
        SameKept(b, k, origin, node, reference.value);
      } else {
        SameChild(b, k, active, origin, mode, es[i], out.entries[i].value);
        assert out.entries[i] == Entry(es[i].key, out.entries[i].value);
      }
    }
    assert Unfold(b.s, k, active, origin, node, mode).fields == Unfold(b.o, k, {}, b.o.root, out, mode).fields;
  }

  /** A schema reference that is kept names a declared component. */
  lemma {:induction false} SameKept(b: Bundle, k: nat, origin: string, node: Node, uri: Value)
    requires Linked(b) && uri.Uri? && Declared(b.s, uri.fragment) && DirectSchemaFragment(uri.fragment) && node.Mapping?
    requires RefOf(node) == Some(uri) && !Lifts(b.s, origin, uri)
    ensures UnfoldTarget(b.s, k, origin, uri) == UnfoldTarget(b.o, k, b.o.root, uri)
    decreases k, 0
  {
    hide Named, Denotes, UnfoldTarget, Unfold, FragmentPosition, Form, DirectSchemaFragment, Locate;
    var fragment := uri.fragment;
    KeptUri(b.s, origin, uri);
    assert Declared(b.s, fragment) && DeclaredAlike(b, fragment);
    TargetLocated(b.s, k, origin, uri);
    TargetLocated(b.o, k, b.o.root, uri);
    DeclaredTarget(b.s, fragment);
    DeclaredTarget(b.o, fragment);
    if k > 0 {
      SameUnfolding(b, k - 1, {}, b.s.root, FragmentPosition(b.s, fragment).value.0, SCHEMA);
    }
  }

  lemma KeptUri(s: Sources, origin: string, uri: Value)
    requires uri.Uri? && !Lifts(s, origin, uri)
    ensures origin == s.root && uri == Uri(None, uri.fragment)
  {
  }

  /** A declaration is where its pointer leads. */
  lemma DeclaredTarget(s: Sources, fragment: Fragment)
    requires fragment.Pointer? && FragmentPosition(s, fragment).Some?
    ensures Locate(s, s.root, Uri(None, fragment)) ==
      Ok((Locator(s.root, fragment), FragmentPosition(s, fragment).value.0))
  {
    PositionWalk(s.documents[s.root], PLAIN, fragment.tokens);
  }

  lemma {:induction false} PositionWalk(node: Node, mode: Mode, tokens: seq<string>)
    ensures Position(node, mode, tokens).Some? ==> Walk(node, tokens) == Some(Position(node, mode, tokens).value.0)
    decreases tokens
  {
    if tokens != [] {
      var key := Unescape(tokens[0]);
      if node.Mapping? && Step(mode, key).Some? && MappingValue(node, key).Some? {
        PositionWalk(MappingValue(node, key).value, Step(mode, key).value, tokens[1..]);
      } else if node.Sequence? && Index(key).Some? && 0 <= Index(key).value < |node.items| {
        PositionWalk(node.items[Index(key).value], Mode(mode.schema, false), tokens[1..]);
      }
    }
  }

  lemma LiftedForms(b: Bundle, origin: string, node: Node, mode: Mode)
    requires node.Mapping? && mode.schema && !Stays(b, origin, node, mode)
    requires Form(b, {}, origin, node, mode).Some?
    ensures Locate(b.s, origin, RefOf(node).value).Ok?
    ensures var at := Locate(b.s, origin, RefOf(node).value).value.0;
      var out := Form(b, {}, origin, node, mode).value;
      && at in b.names
      && out.Mapping? && |out.entries| == |node.entries|
      && forall i :: 0 <= i < |node.entries| ==>
        && out.entries[i].key == node.entries[i].key
        && RewrittenEntry(b.s, b.names, origin, b.names[at], node.entries[i]) == Some(out.entries[i].value)
  {
    var at := Locate(b.s, origin, RefOf(node).value).value.0;
    assert forall i :: 0 <= i < |node.entries| ==>
      RewrittenEntry(b.s, b.names, origin, b.names[at], node.entries[i]).Some?;
  }

  lemma {:induction false} SameLifted(b: Bundle, k: nat, origin: string, node: Node, mode: Mode)
    requires Linked(b) && Fits(b, {}, origin, node, mode)
    requires node.Mapping? && mode.schema && !Stays(b, origin, node, mode)
    ensures Unfold(b.s, k, {}, origin, node, mode)
         == Unfold(b.o, k, {}, b.o.root, Form(b, {}, origin, node, mode).value, mode)
    decreases k, Rank(mode), Universe(b.s), node, 2
  {
    LiftedForms(b, origin, node, mode);
    var es, out := node.entries, Form(b, {}, origin, node, mode).value;
    var uri := RefOf(node).value;
    var at := Locate(b.s, origin, uri).value.0;
    var component := ComponentReference(b.names[at]);
    IndexOfSameKeys(es, out.entries, "$ref");
    assert RefOf(out) == Some(component);
    SameLiftedTarget(b, k, origin, uri);
    forall i | 0 <= i < |es|
      ensures UnfoldField(b.s, k, {}, origin, mode, Some(uri), es[i])
           == UnfoldField(b.o, k, {}, b.o.root, mode, Some(component), out.entries[i])
    {
      if es[i].key != "$ref" {
        assert es[i].value.Scalar? || Ordinary(es[i].key, true);
        SameSibling(b, k, {}, origin, mode, es[i], out.entries[i].value);
        assert out.entries[i] == Entry(es[i].key, out.entries[i].value);
      }
    }
    SameObject(b, k, origin, node, out, mode);
  }

  lemma LiftedTarget(b: Bundle, origin: string, uri: Value)
    requires Linked(b)
    requires Locate(b.s, origin, uri).Ok? && Locate(b.s, origin, uri).value.0 in b.names
    ensures var (at, target) := Locate(b.s, origin, uri).value;
      && Fits(b, {}, at.document, target, SCHEMA)
      && var found := Locate(b.o, b.o.root, ComponentReference(b.names[at]));
        found.Ok? && found.value.0.document == b.o.root
        && found.value.1 == Form(b, {}, at.document, target, SCHEMA).value
  {
    assert LiftedAlike(b, Locate(b.s, origin, uri).value.0);
    LocatedTarget(b.s, origin, uri);
  }

  lemma {:induction false} SameLiftedTarget(b: Bundle, k: nat, origin: string, uri: Value)
    requires Linked(b)
    requires Locate(b.s, origin, uri).Ok? && Locate(b.s, origin, uri).value.0 in b.names
    ensures UnfoldTarget(b.s, k, origin, uri)
         == UnfoldTarget(b.o, k, b.o.root, ComponentReference(b.names[Locate(b.s, origin, uri).value.0]))
    decreases k, 0
  {
    hide Linked, Fits, Form, Unfold, Locate, UnfoldTarget;
    LiftedTarget(b, origin, uri);
    TargetLocated(b.s, k, origin, uri);
    TargetLocated(b.o, k, b.o.root, ComponentReference(b.names[Locate(b.s, origin, uri).value.0]));
    if k > 0 {
      var (at, target) := Locate(b.s, origin, uri).value;
      SameUnfolding(b, k - 1, {}, at.document, target, SCHEMA);
    }
  }

  lemma SameObject(b: Bundle, k: nat, origin: string, node: Node, out: Node, mode: Mode)
    requires node.Mapping? && out.Mapping? && |node.entries| == |out.entries| && mode.schema
    requires forall i :: 0 <= i < |node.entries| ==>
      && node.entries[i].key == out.entries[i].key
      && UnfoldField(b.s, k, {}, origin, mode, RefOf(node), node.entries[i])
         == UnfoldField(b.o, k, {}, b.o.root, mode, RefOf(out), out.entries[i])
    ensures Unfold(b.s, k, {}, origin, node, mode) == Unfold(b.o, k, {}, b.o.root, out, mode)
  {
    assert Unfold(b.s, k, {}, origin, node, mode).fields == Unfold(b.o, k, {}, b.o.root, out, mode).fields;
  }

  /** A sibling of a reference is normalized as a schema or as plain content, whatever its
      keyword: the meaning is the same for scalars and under ordinary keywords. */
  lemma {:induction false} SameSibling(b: Bundle, k: nat, active: set<Locator>, origin: string, mode: Mode, e: Entry, out: Node)
    requires Linked(b) && Regular(b.s, active, origin, e.value, Mode(mode.schema, false))
    requires mode.schema ==> active == {}
    requires mode.entries ==> mode.schema
    requires e.value.Scalar? || Ordinary(e.key, mode.schema)
    requires Form(b, active, origin, e.value, Mode(mode.schema, false)) == Some(out)
    ensures UnfoldChild(b.s, k, active, origin, mode, e) == UnfoldChild(b.o, k, {}, b.o.root, mode, Entry(e.key, out))
    decreases k, Rank(mode), Universe(b.s) - active, e.value, 4
  {
    if !e.value.Scalar? {
      SameUnfolding(b, k, active, origin, e.value, Mode(mode.schema, false));
    }
  }

  lemma {:induction false} SameDeclared(b: Bundle, k: nat, active: set<Locator>, origin: string, node: Node)
    requires Linked(b) && Fits(b, active, origin, node, PLAIN)
    requires node.Mapping? && RefOf(node).Some? && Stays(b, origin, node, PLAIN)
    ensures Unfold(b.s, k, active, origin, node, PLAIN)
         == Unfold(b.o, k, {}, b.o.root, Form(b, active, origin, node, PLAIN).value, PLAIN)
    decreases k, 2, Universe(b.s) - active, node, 2
  {
    hide Override, NormalSchema, NormalPlain, Quote;
    var uri := RefOf(node).value;
    assert Declared(b.s, uri.fragment) && DeclaredAlike(b, uri.fragment);
    var (target, mode) := FragmentPosition(b.s, uri.fragment).value;
    if k > 0 {
      SameUnfolding(b, k - 1, {}, b.s.root, target, mode);
    }
    EntryForms(b, active, origin, node, PLAIN);
    SameReference(b, active, origin, node, PLAIN);
    SameOverride(b, k, active, origin, UnfoldDeclared(b.s, k, uri), node, node.entries,
      Form(b, active, origin, node, PLAIN).value.entries);
  }

  lemma {:induction false} SameOverride(b: Bundle, k: nat, active: set<Locator>, origin: string, base: Tree, node: Node, es: seq<Entry>, done: seq<Entry>)
    requires Linked(b) && node.Mapping? && Regular(b.s, active, origin, node, PLAIN) && Stays(b, origin, node, PLAIN)
    requires es <= node.entries && ChildForms(b, active, origin, PLAIN, es, done)
    ensures Override(b.s, k, active, origin, PLAIN, base, es) == Override(b.o, k, {}, b.o.root, PLAIN, base, done)
    decreases k, 2, Universe(b.s) - active, node, 1, es
  {
    if es != [] {
      var n := |es| - 1;
      assert es[n] == node.entries[n];
      SameOverride(b, k, active, origin, base, node, es[..n], done[..n]);
      if es[n].key != "$ref" {
        SameChild(b, k, active, origin, PLAIN, es[n], done[n].value);
        assert done[n] == Entry(es[n].key, done[n].value);
      }
    }
  }

  lemma {:induction false} SameInlined(b: Bundle, k: nat, active: set<Locator>, origin: string, node: Node)
    requires Linked(b) && Fits(b, active, origin, node, PLAIN)
    requires node.Mapping? && !Stays(b, origin, node, PLAIN)
    ensures Unfold(b.s, k, active, origin, node, PLAIN)
         == Unfold(b.o, k, {}, b.o.root, Form(b, active, origin, node, PLAIN).value, PLAIN)
    decreases k, 2, Universe(b.s) - active, node, 2
  {
    var uri := RefOf(node).value;
    var (at, target) := Locate(b.s, origin, uri).value;
    InlinedLocated(b.s, k, active, origin, node, uri);
    assert RegularTarget(b.s, active, origin, node);
    SameUnfolding(b, k, active + {at}, at.document, target, PLAIN);
    PlainSettled(b, active + {at}, at.document, target, false);
    var inlined := Form(b, active + {at}, at.document, target, PLAIN).value;
    if inlined.Mapping? {
      SameOverlay(b, k, active, origin, inlined, node, node.entries);
    } else {
      var es := node.entries;
      assert |es| == 1 && es[0].key == "$ref" && es[..|es| - 1] == [];
      var base := UnfoldInlined(b.s, k, active, origin, node, uri);
      assert Override(b.s, k, active, origin, PLAIN, base, es[..|es| - 1]) == base;
    }
  }

  lemma {:induction false} SameOverlay(b: Bundle, k: nat, active: set<Locator>, origin: string, base: Node, node: Node, es: seq<Entry>)
    requires Linked(b) && node.Mapping? && Regular(b.s, active, origin, node, PLAIN) && !Stays(b, origin, node, PLAIN)
    requires base.Mapping? && Settled(b, base) && es <= node.entries
    requires Overlay(b.s, b.names, active, origin, base, es).Some?
    ensures Override(b.s, k, active, origin, PLAIN, Unfold(b.o, k, {}, b.o.root, base, PLAIN), es)
         == Unfold(b.o, k, {}, b.o.root, Overlay(b.s, b.names, active, origin, base, es).value, PLAIN)
    decreases k, 2, Universe(b.s) - active, node, 1, es
  {
    if es != [] {
      var front, last := es[..|es| - 1], es[|es| - 1];
      assert last == node.entries[|es| - 1];
      SameOverlay(b, k, active, origin, base, node, front);
      OverlaySettled(b, active, origin, base, front);
      if last.key != "$ref" {
        var below := Overlay(b.s, b.names, active, origin, base, front).value;
        var value := NormalPlain(b.s, b.names, active, origin, last.value, false).value;
        SameSibling(b, k, active, origin, PLAIN, last, value);
        UnfoldSet(b, k, below, last.key, value);
      }
    }
  }
}
