/** Which references of a document count, told by the way that leads to them. */
module ReferencePaths {
  import opened Wrappers
  import opened Yaml
  import opened SourceClosure

  /** A step down: into an entry of a mapping, or into an item of a sequence. */
  datatype Step = Key(mapping: Node, key: string) | Item

  ghost predicate LeadsTo(start: Node, path: seq<Step>, end: Node) {
    if path == [] then start == end
    else
      match path[0]
      case Key(mapping, key) =>
        mapping == start && start.Mapping? && exists i :: 0 <= i < |start.entries| && start.entries[i].key == key && LeadsTo(start.entries[i].value, path[1..], end)
      case Item =>
        start.Sequence? && exists i :: 0 <= i < |start.items| && LeadsTo(start.items[i], path[1..], end)
  }

  ghost predicate HasKey(node: Node, key: string) {
    node.Mapping? && exists i :: 0 <= i < |node.entries| && node.entries[i].key == key
  }

  ghost predicate LooksLikeSchema(node: Node) {
    HasKey(node, "type") || HasKey(node, "properties") || HasKey(node, "allOf") || HasKey(node, "oneOf") || HasKey(node, "anyOf")
  }

  /** What stands here lists schemas by name. */
  ghost predicate Lists(path: seq<Step>)
    decreases |path|, 0
  {
    && path != [] && path[|path| - 1].Key?
    && var front, last := path[..|path| - 1], path[|path| - 1];
      if InSchema(front, last.mapping) then last.key in ["properties", "patternProperties", "$defs", "definitions"] else last.key == "schemas"
  }

  /** Some step so far led into a schema. */
  ghost predicate BelowSchema(path: seq<Step>)
    decreases |path|, 0
  {
    exists i :: 0 <= i < |path| && path[i].Key? &&
      (path[i].key == "schema" || path[i].key == "itemSchema" || Lists(path[..i]) || LooksLikeSchema(path[i].mapping))
  }

  ghost predicate InSchema(path: seq<Step>, node: Node)
    decreases |path|, 1
  {
    BelowSchema(path) || (!Lists(path) && LooksLikeSchema(node))
  }

  /** Neither an extension nor the data of a schema, as far as this step goes. */
  ghost predicate Passes(path: seq<Step>, i: nat) {
    i < |path| && path[i].Key? && !Lists(path[..i]) ==>
      && !("x-" <= path[i].key)
      && !(InSchema(path[..i], path[i].mapping) && path[i].key in ["default", "const", "enum", "example", "examples"])
  }

  /** This is the value of the first entry with this key. */
  ghost predicate IsEntry(node: Node, key: string, value: Node) {
    && node.Mapping?
    && exists i :: 0 <= i < |node.entries| && node.entries[i] == Entry(key, value) && forall j :: 0 <= j < i ==> node.entries[j].key != key
  }

  ghost predicate IsMapped(mapping: Node, value: Value) {
    || (mapping.Mapping? && exists i :: 0 <= i < |mapping.entries| && mapping.entries[i].value == Scalar(value))
    || (mapping.Sequence? && exists i :: 0 <= i && 2 * i + 1 < |mapping.items| && mapping.items[2 * i + 1] == Scalar(value))
  }

  /** A `$ref` entry or, in a schema, a value of the discriminator's mapping. */
  ghost predicate Names(w: World, value: Value, node: Node, schema: bool) {
    && node.Mapping?
    && ((exists i :: 0 <= i < |node.entries| && node.entries[i] == Entry("$ref", Scalar(value)))
        || (schema && w.marked(value) && exists property, mapping ::
              IsEntry(node, "propertyName", Scalar(property)) && IsEntry(node, "mapping", mapping) && IsMapped(mapping, value)))
  }

  // ----- one node

  lemma HasKeyExactly(node: Node, key: string)
    ensures MappingValue(node, key).Some? <==> HasKey(node, key)
    ensures forall value :: MappingValue(node, key) == Some(value) <==> IsEntry(node, key, value)
  {
    if node.Mapping? && IndexOf(node.entries, key) < |node.entries| {
      var i := IndexOf(node.entries, key);
      assert node.entries[i] == Entry(key, node.entries[i].value);
    }
  }

  lemma HereExactly(path: seq<Step>, node: Node)
    ensures SchemaHere(node, BelowSchema(path), Lists(path)) <==> InSchema(path, node)
  {
    hide BelowSchema, Lists, HasKey, MappingValue;
    HasKeyExactly(node, "type");
    HasKeyExactly(node, "properties");
    HasKeyExactly(node, "allOf");
    HasKeyExactly(node, "oneOf");
    HasKeyExactly(node, "anyOf");
  }

  lemma MappedExactly(mapping: Node, value: Value)
    ensures Scalar(value) in Mapped(mapping) <==> IsMapped(mapping, value)
  {
    if mapping.Mapping? {
      assert forall i :: 0 <= i < |mapping.entries| ==> Mapped(mapping)[i] == mapping.entries[i].value;
    } else if mapping.Sequence? {
      var mapped := Mapped(mapping);
      assert forall i :: 0 <= i < |mapped| ==> mapped[i] == mapping.items[2 * i + 1];
      if IsMapped(mapping, value) {
        var i :| 0 <= i && 2 * i + 1 < |mapping.items| && mapping.items[2 * i + 1] == Scalar(value);
        assert i < |mapped| && mapped[i] == Scalar(value);
      }
      if i :| 0 <= i < |mapped| && mapped[i] == Scalar(value) {
        assert 2 * i + 1 < |mapping.items| && mapping.items[2 * i + 1] == Scalar(value);
      }
    }
  }

  lemma NamesExactly(w: World, value: Value, node: Node, schema: bool)
    requires node.Mapping?
    ensures OwnReference(w, value, node, schema) <==> Names(w, value, node, schema)
  {
    hide IsEntry, IsMapped, Mapped, MappingValue;
    HasKeyExactly(node, "propertyName");
    HasKeyExactly(node, "mapping");
    forall mapping ensures Scalar(value) in Mapped(mapping) <==> IsMapped(mapping, value) {
      MappedExactly(mapping, value);
    }
    assert Scalar(value) in Discriminated(node, schema) <==> exists i :: 0 <= i < |Discriminated(node, schema)| && Discriminated(node, schema)[i] == Scalar(value);
    var property, mapping := MappingValue(node, "propertyName"), MappingValue(node, "mapping");
    if property.Some? && property.value.Scalar? && mapping.Some? {
      assert IsEntry(node, "propertyName", Scalar(property.value.value)) && IsEntry(node, "mapping", mapping.value);
    }
  }

  // ----- one step

  lemma KeyStep(path: seq<Step>, node: Node, key: string)
    ensures var longer := path + [Key(node, key)]; var here := InSchema(path, node);
      && NextSchema(key, here, Lists(path)) == BelowSchema(longer)
      && NextEntries(key, here) == Lists(longer)
      && Descends(key, here, Lists(path)) == Passes(longer, |path|)
  {
    var longer := path + [Key(node, key)];
    assert longer[..|path|] == path;
    StillBelow(path, Key(node, key));
  }

  lemma ItemStep(path: seq<Step>)
    ensures BelowSchema(path + [Item]) == BelowSchema(path) && !Lists(path + [Item])
  {
    StillBelow(path, Item);
  }

  lemma StillBelow(path: seq<Step>, step: Step)
    ensures BelowSchema(path + [step]) <==>
      || BelowSchema(path)
      || (step.Key? && (step.key == "schema" || step.key == "itemSchema" || Lists(path) || LooksLikeSchema(step.mapping)))
  {
    hide Lists, LooksLikeSchema;
    var longer := path + [step];
    assert longer[..|path|] == path;
    assert forall i :: 0 <= i < |path| ==> longer[..i] == path[..i] && longer[i] == path[i];
  }

  // ----- whole ways

  ghost predicate Allows(path: seq<Step>, from: nat) {
    forall i: nat :: from <= i < |path| ==> Passes(path, i)
  }

  /** From this node a way that passes leads to such a reference. */
  ghost predicate Reaches(w: World, value: Value, before: seq<Step>, node: Node, path: seq<Step>, end: Node) {
    && LeadsTo(node, path, end)
    && Allows(before + path, |before|)
    && Names(w, value, end, InSchema(before + path, end))
  }

  lemma ReachesOn(w: World, value: Value, before: seq<Step>, node: Node, step: Step, child: Node, path: seq<Step>, end: Node)
    requires Reaches(w, value, before + [step], child, path, end)
    requires Passes(before + [step], |before|) && LeadsTo(node, [step] + path, end)
    ensures Reaches(w, value, before, node, [step] + path, end)
  {
    hide Lists, InSchema, Names, LeadsTo;
    assert before + [step] + path == before + ([step] + path);
    SamePass(before, step, path);
  }

  lemma SamePass(before: seq<Step>, step: Step, path: seq<Step>)
    ensures Passes(before + [step] + path, |before|) == Passes(before + [step], |before|)
  {
    hide Lists, InSchema;
    assert (before + [step] + path)[..|before|] == before == (before + [step])[..|before|];
  }

  lemma {:induction false} WayOf(w: World, value: Value, before: seq<Step>, node: Node) returns (path: seq<Step>, end: Node)
    requires Follows(w, value, node, BelowSchema(before), Lists(before))
    ensures Reaches(w, value, before, node, path, end)
    decreases node
  {
    hide BelowSchema, Lists, InSchema, SchemaHere, OwnReference, Names, NextSchema, NextEntries, Descends, Passes;
    match node
    case Sequence(items) =>
      var i :| 0 <= i < |items| && Follows(w, value, items[i], BelowSchema(before), false);
      ItemStep(before);
      path, end := WayOf(w, value, before + [Item], items[i]);
      assert ([Item] + path)[1..] == path;
      PassesItem(before);
      ReachesOn(w, value, before, node, Item, items[i], path, end);
      path := [Item] + path;
    case Mapping(es) =>
      HereExactly(before, node);
      var here := InSchema(before, node);
      if OwnReference(w, value, node, here) {
        NamesExactly(w, value, node, here);
        path, end := [], node;
        assert before + [] == before;
      } else {
        var i :| 0 <= i < |es| && FollowsIn(w, value, es[i], here, Lists(before));
        var step := Key(node, es[i].key);
        KeyStep(before, node, es[i].key);
        path, end := WayOf(w, value, before + [step], es[i].value);
        assert ([step] + path)[1..] == path;
        ReachesOn(w, value, before, node, step, es[i].value, path, end);
        path := [step] + path;
      }
  }

  lemma PassesItem(before: seq<Step>)
    ensures Passes(before + [Item], |before|)
  {
  }

  lemma {:induction false} WayFollowed(w: World, value: Value, before: seq<Step>, node: Node, path: seq<Step>, end: Node)
    requires Reaches(w, value, before, node, path, end)
    ensures Follows(w, value, node, BelowSchema(before), Lists(before))
    decreases |path|
  {
    hide BelowSchema, Lists, InSchema, SchemaHere, OwnReference, Names, NextSchema, NextEntries, Descends, Passes;
    if path == [] {
      assert before + path == before;
      IsMappingNode(w, value, end, InSchema(before, end));
      HereExactly(before, node);
      NamesExactly(w, value, node, InSchema(before, node));
    } else {
      var step, rest := path[0], path[1..];
      assert path == [step] + rest && before + [step] + rest == before + path;
      SamePass(before, step, rest);
      if step.Item? {
        var i :| 0 <= i < |node.items| && LeadsTo(node.items[i], rest, end);
        ItemStep(before);
        WayFollowed(w, value, before + [step], node.items[i], rest, end);
      } else {
        var i :| 0 <= i < |node.entries| && node.entries[i].key == step.key && LeadsTo(node.entries[i].value, rest, end);
        HereExactly(before, node);
        KeyStep(before, node, step.key);
        WayFollowed(w, value, before + [step], node.entries[i].value, rest, end);
        assert FollowsIn(w, value, node.entries[i], InSchema(before, node), Lists(before));
      }
    }
  }

  lemma IsMappingNode(w: World, value: Value, node: Node, schema: bool)
    requires Names(w, value, node, schema)
    ensures node.Mapping?
  {
  }

  /** A document refers to what is named at the end of a way that leads through neither
      extensions nor the data of schemas, and to nothing else. */
  lemma RefersExactly(w: World, document: string, value: Value)
    ensures Refers(w, document, value) <==>
      document in w.documents && exists path, end :: Reaches(w, value, [], w.documents[document], path, end)
  {
    hide Follows, Reaches;
    assert !BelowSchema([]) && !Lists([]);
    if document in w.documents {
      var node := w.documents[document];
      if Follows(w, value, node, false, false) {
        var path, end := WayOf(w, value, [], node);
      }
      if path, end :| Reaches(w, value, [], node, path, end) {
        WayFollowed(w, value, [], node, path, end);
      }
    }
  }
}
