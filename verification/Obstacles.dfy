/** What makes bundling impossible: nodes without a normal form, whatever names the lifted
    schemas are given. */
module Obstacles {
  import opened Wrappers
  import opened Yaml
  import opened References
  import opened Normalization
  import opened Inlining

  /** Every named target exists and has a normal form as a schema. */
  ghost predicate Sufficient(s: Sources, names: Names) {
    forall at :: at in names ==>
      Target(s, at).Some? && NormalSchema(s, names, at.document, Target(s, at).value, false).Some?
  }

  ghost predicate Hopeless(s: Sources, active: set<Locator>, isSchema: bool, origin: string, node: Node, entries: bool) {
    forall names :: Sufficient(s, names) ==> Normal(s, names, active, isSchema, origin, node, entries).None?
  }

  /** No choice of names can include this target. */
  ghost predicate Unnameable(s: Sources, at: Locator) {
    forall names :: Sufficient(s, names) ==> at !in names
  }

  lemma TargetHopeless(s: Sources, active: set<Locator>, at: Locator, target: Node)
    requires Target(s, at) == Some(target) && Hopeless(s, active, true, at.document, target, false)
    ensures Unnameable(s, at)
  {
    hide NormalSchema, NormalPlain;
    forall names | Sufficient(s, names) ensures at !in names {
      assert Normal(s, names, active, true, at.document, target, false).None?;
    }
  }

  lemma TextHopeless(s: Sources, active: set<Locator>, isSchema: bool, origin: string, node: Node, entries: bool)
    requires RefOf(node).Some? && RefOf(node).value.Text?
    ensures Hopeless(s, active, isSchema, origin, node, entries)
  {
  }

  lemma ItemHopeless(s: Sources, active: set<Locator>, isSchema: bool, origin: string, node: Node, i: nat)
    requires node.Sequence? && i < |node.items| && Hopeless(s, active, isSchema, origin, node.items[i], false)
    ensures forall entries :: Hopeless(s, active, isSchema, origin, node, entries)
  {
    hide Sufficient;
    forall entries, names | Sufficient(s, names) ensures Normal(s, names, active, isSchema, origin, node, entries).None? {
      assert Normal(s, names, active, isSchema, origin, node.items[i], false).None?;
    }
  }

  lemma EntryHopeless(s: Sources, active: set<Locator>, isSchema: bool, origin: string, node: Node, entries: bool, i: nat)
    requires node.Mapping? && KeepsReference(s, isSchema, origin, node) && i < |node.entries|
    requires forall names :: Sufficient(s, names) ==> NormalEntry(s, names, active, isSchema, origin, node.entries[i], entries).None?
    ensures Hopeless(s, active, isSchema, origin, node, entries)
  {
    hide Sufficient;
    forall names | Sufficient(s, names) ensures Normal(s, names, active, isSchema, origin, node, entries).None? {
      assert NormalEntry(s, names, active, isSchema, origin, node.entries[i], entries).None?;
    }
  }

  /** How the value of an entry is normalized when it is not copied. */
  lemma ValueHopeless(s: Sources, active: set<Locator>, isSchema: bool, origin: string, e: Entry, entries: bool)
    requires (entries || !Extension(e.key)) && (!isSchema || entries || !Literal(e.key))
    requires Hopeless(s, active, isSchema || entries || e.key == "schema" || e.key == "itemSchema", origin, e.value,
      (e.key == "schemas" && !isSchema) || (isSchema && SchemaCatalogue(e.key)))
    ensures forall names :: Sufficient(s, names) ==> NormalEntry(s, names, active, isSchema, origin, e, entries).None?
  {
    hide Sufficient, NormalSchema, NormalPlain;
    var schema := isSchema || entries || e.key == "schema" || e.key == "itemSchema";
    var catalogue := (e.key == "schemas" && !isSchema) || (isSchema && SchemaCatalogue(e.key));
    forall names | Sufficient(s, names) ensures NormalEntry(s, names, active, isSchema, origin, e, entries).None? {
      assert Normal(s, names, active, schema, origin, e.value, catalogue).None?;
    }
  }

  lemma UnlocatedHopeless(s: Sources, active: set<Locator>, isSchema: bool, origin: string, node: Node, entries: bool)
    requires node.Mapping? && RefOf(node).Some? && Locate(s, origin, RefOf(node).value).Err?
    requires if isSchema then Lifts(s, origin, RefOf(node).value) else LeavesRoot(s, origin, RefOf(node).value)
    ensures Hopeless(s, active, isSchema, origin, node, entries)
  {
    hide Locate, Sufficient;
  }

  lemma UnnameableHopeless(s: Sources, active: set<Locator>, origin: string, node: Node, entries: bool, at: Locator, target: Node)
    requires node.Mapping? && RefOf(node).Some? && Locate(s, origin, RefOf(node).value) == Ok((at, target))
    requires Lifts(s, origin, RefOf(node).value) && Unnameable(s, at)
    ensures Hopeless(s, active, true, origin, node, entries)
  {
    hide Locate, Sufficient, Lifts;
  }

  lemma SchemaSiblingHopeless(s: Sources, active: set<Locator>, origin: string, node: Node, entries: bool, i: nat)
    requires node.Mapping? && RefOf(node).Some? && Lifts(s, origin, RefOf(node).value)
    requires i < |node.entries| && node.entries[i].key != "$ref"
    requires Hopeless(s, active, true, origin, node.entries[i].value, false)
    ensures Hopeless(s, active, true, origin, node, entries)
  {
    hide Locate, Sufficient, Lifts;
    forall names | Sufficient(s, names) ensures NormalSchema(s, names, origin, node, entries).None? {
      assert Normal(s, names, active, true, origin, node.entries[i].value, false).None?;
      var found := Locate(s, origin, RefOf(node).value);
      if found.Ok? && found.value.0 in names {
        assert RewrittenEntry(s, names, origin, names[found.value.0], node.entries[i]).None?;
      }
    }
  }

  lemma ActiveHopeless(s: Sources, active: set<Locator>, origin: string, node: Node, entries: bool, at: Locator, target: Node)
    requires node.Mapping? && RefOf(node).Some? && Locate(s, origin, RefOf(node).value) == Ok((at, target))
    requires LeavesRoot(s, origin, RefOf(node).value) && at in active
    ensures Hopeless(s, active, false, origin, node, entries)
  {
    hide Locate, Sufficient, LeavesRoot;
  }

  lemma InlinedHopeless(s: Sources, active: set<Locator>, origin: string, node: Node, entries: bool, at: Locator, target: Node)
    requires node.Mapping? && RefOf(node).Some? && Locate(s, origin, RefOf(node).value) == Ok((at, target))
    requires LeavesRoot(s, origin, RefOf(node).value)
    requires Hopeless(s, active + {at}, false, at.document, target, false)
    ensures Hopeless(s, active, false, origin, node, entries)
  {
    hide Locate, Sufficient, LeavesRoot, Overlay;
    forall names | Sufficient(s, names) ensures NormalPlain(s, names, active, origin, node, entries).None? {
      assert Normal(s, names, active + {at}, false, at.document, target, false).None?;
    }
  }

  // ----- siblings of inlined references

  /** Some sibling has no normal form. */
  ghost predicate SiblingFails(s: Sources, active: set<Locator>, origin: string, es: seq<Entry>) {
    exists i :: 0 <= i < |es| && es[i].key != "$ref" && Hopeless(s, active, false, origin, es[i].value, false)
  }

  lemma {:induction false} OverlayFails(s: Sources, names: Names, active: set<Locator>, origin: string, base: Node, es: seq<Entry>)
    requires Sufficient(s, names) && SiblingFails(s, active, origin, es)
    ensures Overlay(s, names, active, origin, base, es).None?
    decreases |es|
  {
    hide Sufficient, NormalPlain, NormalSchema;
    var i :| 0 <= i < |es| && es[i].key != "$ref" && Hopeless(s, active, false, origin, es[i].value, false);
    if i < |es| - 1 {
      assert SiblingFails(s, active, origin, es[..|es| - 1]) by {
        assert es[..|es| - 1][i] == es[i];
      }
      OverlayFails(s, names, active, origin, base, es[..|es| - 1]);
    } else {
      assert Normal(s, names, active, false, origin, es[i].value, false).None?;
    }
  }

  lemma {:induction false} OverlayIsMapping(s: Sources, names: Names, active: set<Locator>, origin: string, base: Node, es: seq<Entry>)
    requires base.Mapping? && Overlay(s, names, active, origin, base, es).Some?
    ensures Overlay(s, names, active, origin, base, es).value.Mapping?
    decreases |es|
  {
    hide NormalPlain;
    if es != [] {
      OverlayIsMapping(s, names, active, origin, base, es[..|es| - 1]);
    }
  }

  /** Whether a normal form is a mapping does not depend on the names. */
  lemma {:induction false} SameKind(s: Sources, names: Names, other: Names, active: set<Locator>, origin: string, node: Node, entries: bool)
    requires NormalPlain(s, names, active, origin, node, entries).Some? && NormalPlain(s, other, active, origin, node, entries).Some?
    ensures NormalPlain(s, names, active, origin, node, entries).value.Mapping? == NormalPlain(s, other, active, origin, node, entries).value.Mapping?
    decreases Universe(s) - active, node
  {
    hide Locate, LeavesRoot, Overlay, NormalSchema, Universe;
    if node.Mapping? && RefOf(node).Some? && LeavesRoot(s, origin, RefOf(node).value) {
      var (at, target) := Locate(s, origin, RefOf(node).value).value;
      SameKind(s, names, other, active + {at}, at.document, target, false);
      var a := NormalPlain(s, names, active + {at}, at.document, target, false).value;
      var b := NormalPlain(s, other, active + {at}, at.document, target, false).value;
      if a.Mapping? {
        OverlayIsMapping(s, names, active, origin, a, node.entries);
        OverlayIsMapping(s, other, active, origin, b, node.entries);
      }
    }
  }

  lemma NonObjectHopeless(s: Sources, names: Names, active: set<Locator>, origin: string, node: Node, entries: bool, at: Locator, target: Node)
    requires node.Mapping? && RefOf(node).Some? && Locate(s, origin, RefOf(node).value) == Ok((at, target))
    requires LeavesRoot(s, origin, RefOf(node).value)
    requires NormalPlain(s, names, active + {at}, at.document, target, false).Some?
    requires !NormalPlain(s, names, active + {at}, at.document, target, false).value.Mapping? && |node.entries| > 1
    ensures Hopeless(s, active, false, origin, node, entries)
  {
    hide Locate, Sufficient, LeavesRoot, Overlay;
    forall other | Sufficient(s, other) ensures NormalPlain(s, other, active, origin, node, entries).None? {
      if NormalPlain(s, other, active + {at}, at.document, target, false).Some? {
        SameKind(s, names, other, active + {at}, at.document, target, false);
      }
    }
  }

  lemma OverlayHopeless(s: Sources, names: Names, active: set<Locator>, origin: string, node: Node, entries: bool, at: Locator, target: Node)
    requires node.Mapping? && RefOf(node).Some? && Locate(s, origin, RefOf(node).value) == Ok((at, target))
    requires LeavesRoot(s, origin, RefOf(node).value)
    requires NormalPlain(s, names, active + {at}, at.document, target, false).Some?
    requires NormalPlain(s, names, active + {at}, at.document, target, false).value.Mapping?
    requires SiblingFails(s, active, origin, node.entries)
    ensures Hopeless(s, active, false, origin, node, entries)
  {
    hide Locate, Sufficient, LeavesRoot, Overlay, SiblingFails;
    forall other | Sufficient(s, other) ensures NormalPlain(s, other, active, origin, node, entries).None? {
      if NormalPlain(s, other, active + {at}, at.document, target, false).Some? {
        SameKind(s, names, other, active + {at}, at.document, target, false);
        OverlayFails(s, other, active, origin, NormalPlain(s, other, active + {at}, at.document, target, false).value, node.entries);
      }
    }
  }
}
