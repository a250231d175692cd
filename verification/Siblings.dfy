/** Entries beside a reference are normalized without regard to their keys, and names in a
    catalogue of schemas as if they were keywords. This is harmless exactly for keys that do
    not change how their value is read. */
module Siblings {
  import opened Wrappers
  import opened Yaml
  import opened References
  import opened Normalization

  /** A reference that cannot be resolved: its text has a cut-off escape. */
  const BROKEN := Mapping([Entry("$ref", Scalar(Text("%")))])

  /** Beside a schema reference the value is normalized as it is in any other schema. */
  ghost predicate SchemaSiblingKept(key: string) {
    forall s: Sources, names: Names, origin: string, name: string, value: Node ::
      RewrittenEntry(s, names, origin, name, Entry(key, value)) == SchemaEntry(s, names, origin, Entry(key, value), false)
  }

  /** Beside an inlined reference the value is normalized as it is in any other object. */
  ghost predicate PlainSiblingKept(key: string) {
    forall s: Sources, names: Names, active: set<Locator>, origin: string, value: Node ::
      NormalPlain(s, names, active, origin, value, false) == PlainEntry(s, names, active, origin, Entry(key, value), false)
  }

  lemma BrokenIsUndefined(s: Sources, names: Names, active: set<Locator>, origin: string, entries: bool)
    ensures NormalSchema(s, names, origin, BROKEN, entries).None?
    ensures NormalPlain(s, names, active, origin, BROKEN, entries).None?
  {
    assert BROKEN.entries[0] == Entry("$ref", Scalar(Text("%")));
    assert IndexOf(BROKEN.entries, "$ref") == 0;
    assert Locate(s, origin, Text("%")).Err?;
  }

  /** A single entry is copied, or decides whether the mapping has a normal form. */
  lemma SingleEntry(s: Sources, names: Names, active: set<Locator>, origin: string, key: string, value: Node, entries: bool)
    requires key != "$ref"
    ensures NormalSchema(s, names, origin, Mapping([Entry(key, value)]), entries).Some?
      <==> SchemaEntry(s, names, origin, Entry(key, value), entries).Some?
    ensures NormalPlain(s, names, active, origin, Mapping([Entry(key, value)]), entries).Some?
      <==> PlainEntry(s, names, active, origin, Entry(key, value), entries).Some?
  {
    var node := Mapping([Entry(key, value)]);
    assert node.entries[0] == Entry(key, value);
    assert RefOf(node).None?;
  }

  /** The unresolvable reference itself, or below a key that decides how it is read. */
  function Witness(nested: bool, key: string): Node {
    if nested then Mapping([Entry(key, BROKEN)]) else BROKEN
  }

  lemma SchemaSiblingDiffers(key: string, s: Sources, names: Names)
    requires key != "$ref" && (Extension(key) || Literal(key) || SchemaCatalogue(key))
    ensures var e := Entry(key, Witness(SchemaCatalogue(key) && !Literal(key) && !Extension(key), "default"));
      RewrittenEntry(s, names, "", "", e) != SchemaEntry(s, names, "", e, false)
  {
    hide NormalSchema;
    BrokenIsUndefined(s, names, {}, "", false);
    SingleEntry(s, names, {}, "", "default", BROKEN, false);
    SingleEntry(s, names, {}, "", "default", BROKEN, true);
  }

  lemma PlainSiblingDiffers(key: string, s: Sources, names: Names)
    requires key != "$ref" && (Extension(key) || key == "schema" || key == "itemSchema" || key == "schemas")
    ensures var value := Witness(!Extension(key), if key == "schemas" then "x-data" else "default");
      NormalPlain(s, names, {}, "", value, false) != PlainEntry(s, names, {}, "", Entry(key, value), false)
  {
    hide NormalSchema, NormalPlain;
    BrokenIsUndefined(s, names, {}, "", false);
    SingleEntry(s, names, {}, "", "default", BROKEN, false);
    SingleEntry(s, names, {}, "", "x-data", BROKEN, false);
    SingleEntry(s, names, {}, "", "x-data", BROKEN, true);
  }

  const NO_SOURCES := Sources(map[], "", (a, b) => None)

  /** Schema siblings are normalized correctly exactly when they are neither data nor a
      catalogue of schemas. */
  lemma SchemaSiblingsExactly(key: string)
    requires key != "$ref"
    ensures SchemaSiblingKept(key) <==> !Extension(key) && !Literal(key) && !SchemaCatalogue(key)
  {
    hide NormalSchema, Literal, SchemaCatalogue, Extension;
    if Extension(key) || Literal(key) || SchemaCatalogue(key) {
      SchemaSiblingDiffers(key, NO_SOURCES, map[]);
    }
  }

  /** Other siblings exactly when they are not data and do not hold schemas. */
  lemma PlainSiblingsExactly(key: string)
    requires key != "$ref"
    ensures PlainSiblingKept(key) <==> !Extension(key) && key != "schema" && key != "itemSchema" && key != "schemas"
  {
    hide NormalSchema, NormalPlain, Extension;
    if Extension(key) || key == "schema" || key == "itemSchema" || key == "schemas" {
      PlainSiblingDiffers(key, NO_SOURCES, map[]);
    }
  }

  // ----- names in catalogues

  /** As a property name the key does not change how its schema is normalized. */
  ghost predicate PropertyKept(key: string) {
    forall s: Sources, names: Names, origin: string, value: Node ::
      SchemaEntry(s, names, origin, Entry(key, value), true) == NormalSchema(s, names, origin, value, false)
  }

  /** Nor as the name of a component schema. */
  ghost predicate ComponentKept(key: string) {
    forall s: Sources, names: Names, active: set<Locator>, origin: string, value: Node ::
      PlainEntry(s, names, active, origin, Entry(key, value), true) == NormalSchema(s, names, origin, value, false)
  }

  /** A schema with a default is read as two schemas when its name is taken for a keyword. */
  lemma NamedSchemaDiffers(s: Sources, names: Names)
    ensures var value := Witness(true, "default");
      NormalSchema(s, names, "", value, true) != NormalSchema(s, names, "", value, false)
  {
    hide NormalSchema, NormalPlain;
    BrokenIsUndefined(s, names, {}, "", false);
    SingleEntry(s, names, {}, "", "default", BROKEN, false);
    SingleEntry(s, names, {}, "", "default", BROKEN, true);
  }

  /** Exactly the names of catalogue keywords are misread: in a catalogue within a schema
      those of schema catalogues, among the components only "schemas". */
  lemma NamedSchemasExactly(key: string)
    ensures PropertyKept(key) <==> !SchemaCatalogue(key)
    ensures ComponentKept(key) <==> key != "schemas"
  {
    hide NormalSchema, NormalPlain;
    NamedSchemaDiffers(NO_SOURCES, map[]);
    var e := Entry(key, Witness(true, "default"));
    if SchemaCatalogue(key) {
      assert SchemaEntry(NO_SOURCES, map[], "", e, true) != NormalSchema(NO_SOURCES, map[], "", e.value, false);
    }
    if key == "schemas" {
      assert PlainEntry(NO_SOURCES, map[], {}, "", e, true) != NormalSchema(NO_SOURCES, map[], "", e.value, false);
    }
  }
}
