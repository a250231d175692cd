/** The normal form of a document, as a function of the names given to lifted schemas.
    Normalization walks a tree in one of two modes. Below a schema every reference is
    rewritten to the component that its target is lifted to; elsewhere a reference that
    leaves the root document is replaced by its normalized target. */
module Normalization {
  import opened Wrappers
  import opened Yaml
  import opened References

  predicate Extension(key: string) {
    "x-" <= key
  }

  /** Schema keywords whose values are data. */
  predicate Literal(key: string) {
    key == "default" || key == "const" || key == "enum" || key == "example" || key == "examples"
  }

  /** Schema keywords whose values are catalogues: every entry of the value is a schema. */
  predicate SchemaCatalogue(key: string) {
    key == "properties" || key == "patternProperties" || key == "$defs" || key == "definitions"
  }

  predicate DirectSchemaFragment(fragment: Fragment) {
    fragment.Pointer? && |fragment.tokens| == 3 && fragment.tokens[..2] == ["components", "schemas"]
  }

  /** The reference of a Reference Object. */
  function RefOf(node: Node): Option<Value> {
    var reference := MappingValue(node, "$ref");
    if reference.Some? && reference.value.Scalar? then Some(reference.value.value) else None
  }

  predicate LeavesRoot(s: Sources, origin: string, uri: Value) {
    uri.Text? || origin != s.root || uri.document.Some?
  }

  predicate Lifts(s: Sources, origin: string, uri: Value) {
    LeavesRoot(s, origin, uri) || !DirectSchemaFragment(uri.fragment)
  }

  /** The reference of this node, if it has one, stays where it is: it is replaced neither by
      a reference to a component nor by its target. */
  predicate KeepsReference(s: Sources, isSchema: bool, origin: string, node: Node) {
    RefOf(node).Some? ==>
      if isSchema then !Lifts(s, origin, RefOf(node).value) else !LeavesRoot(s, origin, RefOf(node).value)
  }

  function ComponentReference(name: string): Value {
    Uri(None, Pointer(["components", "schemas", name]))
  }

  type Names = map<Locator, string>

  // ----- schemas

  /** The normal form of a schema, or of a catalogue of schemas when `entries` holds.
      It is undefined when a reference has no target or its target no name. */
  ghost function NormalSchema(s: Sources, names: Names, origin: string, node: Node, entries: bool): Option<Node>
    decreases node, 0
  {
    match node
    case Scalar(_) => Some(node)
    case Sequence(items) =>
      if forall i :: 0 <= i < |items| ==> NormalSchema(s, names, origin, items[i], false).Some? then
        Some(Sequence(seq(|items|, i requires 0 <= i < |items| =>
          NormalSchema(s, names, origin, items[i], false).value)))
      else None
    case Mapping(es) =>
      var reference := RefOf(node);
      if reference.Some? && Lifts(s, origin, reference.value) then
        var found := Locate(s, origin, reference.value);
        if found.Err? || found.value.0 !in names then None
        else if forall i :: 0 <= i < |es| ==>
          RewrittenEntry(s, names, origin, names[found.value.0], es[i]).Some? then
          Some(Mapping(seq(|es|, i requires 0 <= i < |es| =>
            Entry(es[i].key, RewrittenEntry(s, names, origin, names[found.value.0], es[i]).value))))
        else None
      else if forall i :: 0 <= i < |es| ==> SchemaEntry(s, names, origin, es[i], entries).Some? then
        Some(Mapping(seq(|es|, i requires 0 <= i < |es| =>
          Entry(es[i].key, SchemaEntry(s, names, origin, es[i], entries).value))))
      else None
  }

  /** An entry of a Reference Object whose target is lifted to the component `name`. */
  ghost function RewrittenEntry(s: Sources, names: Names, origin: string, name: string, e: Entry): Option<Node>
    decreases e.value, 1
  {
    if e.key == "$ref" then Some(Scalar(ComponentReference(name)))
    else NormalSchema(s, names, origin, e.value, false)
  }

  ghost function SchemaEntry(s: Sources, names: Names, origin: string, e: Entry, entries: bool): Option<Node>
    decreases e.value, 1
  {
    if !entries && (Extension(e.key) || Literal(e.key)) then Some(e.value)
    else NormalSchema(s, names, origin, e.value, SchemaCatalogue(e.key))
  }

  // ----- everything else

  /** The normal form outside schemas, while the targets in `active` are being inlined;
      `entries` marks the value of a `schemas` key. It is undefined on an inline cycle. */
  ghost function NormalPlain(s: Sources, names: Names, active: set<Locator>, origin: string, node: Node, entries: bool): Option<Node>
    decreases Universe(s) - active, node, 0
  {
    match node
    case Scalar(_) => Some(node)
    case Sequence(items) =>
      if forall i :: 0 <= i < |items| ==> NormalPlain(s, names, active, origin, items[i], false).Some? then
        Some(Sequence(seq(|items|, i requires 0 <= i < |items| =>
          NormalPlain(s, names, active, origin, items[i], false).value)))
      else None
    case Mapping(es) =>
      var reference := RefOf(node);
      if reference.Some? && LeavesRoot(s, origin, reference.value) then
        var found := Locate(s, origin, reference.value);
        if found.Err? || found.value.0 in active || found.value.0 !in Universe(s) then None
        else
          var (at, target) := found.value;
          var inlined := NormalPlain(s, names, active + {at}, at.document, target, false);
          if inlined.None? then None
          else if inlined.value.Mapping? then Overlay(s, names, active, origin, inlined.value, es)
          else if |es| > 1 then None
          else inlined
      else if forall i :: 0 <= i < |es| ==> PlainEntry(s, names, active, origin, es[i], entries).Some? then
        Some(Mapping(seq(|es|, i requires 0 <= i < |es| =>
          Entry(es[i].key, PlainEntry(s, names, active, origin, es[i], entries).value))))
      else None
  }

  ghost function PlainEntry(s: Sources, names: Names, active: set<Locator>, origin: string, e: Entry, entries: bool): Option<Node>
    decreases Universe(s) - active, e.value, 1
  {
    if !entries && Extension(e.key) then Some(e.value)
    else if entries || e.key == "schema" || e.key == "itemSchema" then
      NormalSchema(s, names, origin, e.value, e.key == "schemas")
    else NormalPlain(s, names, active, origin, e.value, e.key == "schemas")
  }

  /** The siblings of an inlined reference override the target's entries, in order. */
  ghost function Overlay(s: Sources, names: Names, active: set<Locator>, origin: string, base: Node, es: seq<Entry>): Option<Node>
    decreases Universe(s) - active, es
  {
    if es == [] then Some(base)
    else
      var last := es[|es| - 1];
      var below := Overlay(s, names, active, origin, base, es[..|es| - 1]);
      if below.None? || last.key == "$ref" then below
      else
        match NormalPlain(s, names, active, origin, last.value, false)
        case None => None
        case Some(value) => Some(SetMappingValue(below.value, last.key, value))
  }

  // ----- names may be added

  ghost predicate Extends(names: Names, more: Names) {
    forall at :: at in names ==> at in more && more[at] == names[at]
  }

  lemma {:induction false} NormalSchemaExtends(s: Sources, names: Names, more: Names, origin: string, node: Node, entries: bool)
    requires Extends(names, more)
    requires NormalSchema(s, names, origin, node, entries).Some?
    ensures NormalSchema(s, more, origin, node, entries) == NormalSchema(s, names, origin, node, entries)
    decreases node, 0
  {
    match node
    case Scalar(_) =>
    case Sequence(items) =>
      forall i | 0 <= i < |items|
        ensures NormalSchema(s, more, origin, items[i], false) == NormalSchema(s, names, origin, items[i], false)
      {
        NormalSchemaExtends(s, names, more, origin, items[i], false);
      }
      assert NormalSchema(s, more, origin, node, entries).value.items
          == NormalSchema(s, names, origin, node, entries).value.items;
    case Mapping(es) =>
      var reference := RefOf(node);
      if reference.Some? && Lifts(s, origin, reference.value) {
        var name := names[Locate(s, origin, reference.value).value.0];
        forall i | 0 <= i < |es|
          ensures RewrittenEntry(s, more, origin, name, es[i]) == RewrittenEntry(s, names, origin, name, es[i])
        {
          assert RewrittenEntry(s, names, origin, name, es[i]).Some?;
          if es[i].key != "$ref" {
            NormalSchemaExtends(s, names, more, origin, es[i].value, false);
          }
        }
        assert NormalSchema(s, more, origin, node, entries).value.entries
            == NormalSchema(s, names, origin, node, entries).value.entries;
      } else {
        forall i | 0 <= i < |es|
          ensures SchemaEntry(s, more, origin, es[i], entries) == SchemaEntry(s, names, origin, es[i], entries)
        {
          SchemaEntryExtends(s, names, more, origin, es[i], entries);
        }
        assert NormalSchema(s, more, origin, node, entries).value.entries
            == NormalSchema(s, names, origin, node, entries).value.entries;
      }
  }

  lemma {:induction false} SchemaEntryExtends(s: Sources, names: Names, more: Names, origin: string, e: Entry, entries: bool)
    requires Extends(names, more)
    requires SchemaEntry(s, names, origin, e, entries).Some?
    ensures SchemaEntry(s, more, origin, e, entries) == SchemaEntry(s, names, origin, e, entries)
    decreases e.value, 1
  {
    if entries || !(Extension(e.key) || Literal(e.key)) {
      NormalSchemaExtends(s, names, more, origin, e.value, SchemaCatalogue(e.key));
    }
  }

  lemma {:induction false} NormalPlainExtends(s: Sources, names: Names, more: Names, active: set<Locator>, origin: string, node: Node, entries: bool)
    requires Extends(names, more)
    requires NormalPlain(s, names, active, origin, node, entries).Some?
    ensures NormalPlain(s, more, active, origin, node, entries) == NormalPlain(s, names, active, origin, node, entries)
    decreases Universe(s) - active, node, 0
  {
    match node
    case Scalar(_) =>
    case Sequence(items) =>
      forall i | 0 <= i < |items|
        ensures NormalPlain(s, more, active, origin, items[i], false) == NormalPlain(s, names, active, origin, items[i], false)
      {
        NormalPlainExtends(s, names, more, active, origin, items[i], false);
      }
      assert NormalPlain(s, more, active, origin, node, entries).value.items
          == NormalPlain(s, names, active, origin, node, entries).value.items;
    case Mapping(es) =>
      var reference := RefOf(node);
      if reference.Some? && LeavesRoot(s, origin, reference.value) {
        var (at, target) := Locate(s, origin, reference.value).value;
        NormalPlainExtends(s, names, more, active + {at}, at.document, target, false);
        var inlined := NormalPlain(s, names, active + {at}, at.document, target, false).value;
        if inlined.Mapping? {
          OverlayExtends(s, names, more, active, origin, inlined, es);
        }
      } else {
        forall i | 0 <= i < |es|
          ensures PlainEntry(s, more, active, origin, es[i], entries) == PlainEntry(s, names, active, origin, es[i], entries)
        {
          PlainEntryExtends(s, names, more, active, origin, es[i], entries);
        }
        assert NormalPlain(s, more, active, origin, node, entries).value.entries
            == NormalPlain(s, names, active, origin, node, entries).value.entries;
      }
  }

  lemma {:induction false} PlainEntryExtends(s: Sources, names: Names, more: Names, active: set<Locator>, origin: string, e: Entry, entries: bool)
    requires Extends(names, more)
    requires PlainEntry(s, names, active, origin, e, entries).Some?
    ensures PlainEntry(s, more, active, origin, e, entries) == PlainEntry(s, names, active, origin, e, entries)
    decreases Universe(s) - active, e.value, 1
  {
    if !entries && Extension(e.key) {
    } else if entries || e.key == "schema" || e.key == "itemSchema" {
      NormalSchemaExtends(s, names, more, origin, e.value, e.key == "schemas");
    } else {
      NormalPlainExtends(s, names, more, active, origin, e.value, e.key == "schemas");
    }
  }

  lemma {:induction false} OverlayExtends(s: Sources, names: Names, more: Names, active: set<Locator>, origin: string, base: Node, es: seq<Entry>)
    requires Extends(names, more)
    requires Overlay(s, names, active, origin, base, es).Some?
    ensures Overlay(s, more, active, origin, base, es) == Overlay(s, names, active, origin, base, es)
    decreases Universe(s) - active, es
  {
    if es != [] {
      var last := es[|es| - 1];
      OverlayExtends(s, names, more, active, origin, base, es[..|es| - 1]);
      if last.key != "$ref" {
        NormalPlainExtends(s, names, more, active, origin, last.value, false);
      }
    }
  }

  // ----- either mode

  ghost function Normal(s: Sources, names: Names, active: set<Locator>, isSchema: bool,
                        origin: string, node: Node, entries: bool): Option<Node>
  {
    if isSchema then NormalSchema(s, names, origin, node, entries)
    else NormalPlain(s, names, active, origin, node, entries)
  }

  ghost function NormalEntry(s: Sources, names: Names, active: set<Locator>, isSchema: bool,
                             origin: string, e: Entry, entries: bool): Option<Node>
  {
    if isSchema then SchemaEntry(s, names, origin, e, entries)
    else PlainEntry(s, names, active, origin, e, entries)
  }

  lemma NormalExtends(s: Sources, names: Names, more: Names, active: set<Locator>, isSchema: bool,
                      origin: string, node: Node, entries: bool)
    requires Extends(names, more)
    requires Normal(s, names, active, isSchema, origin, node, entries).Some?
    ensures Normal(s, more, active, isSchema, origin, node, entries)
         == Normal(s, names, active, isSchema, origin, node, entries)
  {
    if isSchema {
      NormalSchemaExtends(s, names, more, origin, node, entries);
    } else {
      NormalPlainExtends(s, names, more, active, origin, node, entries);
    }
  }

  lemma NormalEntryExtends(s: Sources, names: Names, more: Names, active: set<Locator>, isSchema: bool,
                           origin: string, e: Entry, entries: bool)
    requires Extends(names, more)
    requires NormalEntry(s, names, active, isSchema, origin, e, entries).Some?
    ensures NormalEntry(s, more, active, isSchema, origin, e, entries)
         == NormalEntry(s, names, active, isSchema, origin, e, entries)
  {
    if isSchema {
      SchemaEntryExtends(s, names, more, origin, e, entries);
    } else {
      PlainEntryExtends(s, names, more, active, origin, e, entries);
    }
  }
}
