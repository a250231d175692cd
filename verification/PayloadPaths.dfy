/** Which keys belong to extension payloads, told by the way that leads to them. */
module PayloadPaths {
  import opened ExtensionReferences

  /** A step down: through a key cell, or into an item of a sequence. */
  datatype Step = Through(cell: nat) | Item

  ghost predicate LeadsTo(start: Tree, path: seq<Step>, end: Tree) {
    if path == [] then start == end
    else
      match path[0]
      case Through(cell) =>
        start.Mapping? && exists i :: 0 <= i < |start.entries| && start.entries[i].key == cell && LeadsTo(start.entries[i].value, path[1..], end)
      case Item =>
        start.Sequence? && exists i :: 0 <= i < |start.items| && LeadsTo(start.items[i], path[1..], end)
  }

  /** What stands here is a list of names, none of which is an extension. */
  ghost predicate Lists(v: Texts, path: seq<Step>) {
    && path != [] && path[|path| - 1].Through?
    && At(v, path[|path| - 1].cell) in ["schemas", "properties", "patternProperties", "$defs", "definitions"]
  }

  ghost predicate InExtension(v: Texts, path: seq<Step>) {
    exists i :: 0 <= i < |path| && path[i].Through? && "x-" <= At(v, path[i].cell) && !Lists(v, path[..i])
  }

  /** The way ends at the key and was in an extension before. */
  ghost predicate Reaches(key: nat, v: Texts, before: seq<Step>, tree: Tree, path: seq<Step>, end: Tree) {
    && LeadsTo(tree, path, end)
    && path != [] && path[|path| - 1] == Through(key)
    && InExtension(v, before + path[..|path| - 1])
  }

  lemma OneStep(v: Texts, path: seq<Step>, step: Step)
    ensures InExtension(v, path + [step]) <==>
      || InExtension(v, path)
      || (step.Through? && "x-" <= At(v, step.cell) && !Lists(v, path))
  {
    hide At, Lists;
    var longer := path + [step];
    assert longer[..|path|] == path;
    assert forall i :: 0 <= i < |path| ==> longer[..i] == path[..i] && longer[i] == path[i];
  }

  lemma KeyStep(v: Texts, path: seq<Step>, cell: nat)
    ensures Opens(InExtension(v, path), Lists(v, path), At(v, cell)) == InExtension(v, path + [Through(cell)])
    ensures Catalogue(At(v, cell)) == Lists(v, path + [Through(cell)])
  {
    hide At;
    OneStep(v, path, Through(cell));
    assert (path + [Through(cell)])[|path|] == Through(cell);
  }

  lemma ItemStep(v: Texts, path: seq<Step>)
    ensures InExtension(v, path + [Item]) == InExtension(v, path) && !Lists(v, path + [Item])
  {
    OneStep(v, path, Item);
  }

  lemma ReachesOn(key: nat, v: Texts, before: seq<Step>, tree: Tree, step: Step, child: Tree, path: seq<Step>, end: Tree)
    requires Reaches(key, v, before + [step], child, path, end) && LeadsTo(tree, [step] + path, end)
    ensures Reaches(key, v, before, tree, [step] + path, end)
  {
    hide InExtension, LeadsTo;
    var longer := [step] + path;
    assert before + longer[..|longer| - 1] == before + [step] + path[..|path| - 1];
  }

  lemma {:induction false} WayOf(key: nat, tree: Tree, v: Texts, before: seq<Step>) returns (path: seq<Step>, end: Tree)
    requires InPayload(key, tree, v, InExtension(v, before), Lists(v, before))
    ensures Reaches(key, v, before, tree, path, end)
    decreases tree
  {
    hide InExtension, Lists, At, Opens, Catalogue;
    match tree
    case Sequence(items) =>
      var i :| 0 <= i < |items| && InPayload(key, items[i], v, InExtension(v, before), false);
      ItemStep(v, before);
      path, end := WayOf(key, items[i], v, before + [Item]);
      assert ([Item] + path)[1..] == path;
      ReachesOn(key, v, before, tree, Item, items[i], path, end);
      path := [Item] + path;
    case Mapping(es) =>
      var i :| 0 <= i < |es| && EntryInPayload(key, es[i], v, InExtension(v, before), Lists(v, before));
      var step := Through(es[i].key);
      if InExtension(v, before) && key == es[i].key {
        path, end := [step], es[i].value;
        assert path[1..] == [] && before + path[..|path| - 1] == before;
        assert LeadsTo(es[i].value, path[1..], end);
      } else {
        KeyStep(v, before, es[i].key);
        path, end := WayOf(key, es[i].value, v, before + [step]);
        assert ([step] + path)[1..] == path;
        ReachesOn(key, v, before, tree, step, es[i].value, path, end);
        path := [step] + path;
      }
  }

  lemma {:induction false} WayFollowed(key: nat, tree: Tree, v: Texts, before: seq<Step>, path: seq<Step>, end: Tree)
    requires Reaches(key, v, before, tree, path, end)
    ensures InPayload(key, tree, v, InExtension(v, before), Lists(v, before))
    decreases |path|
  {
    hide InExtension, Lists, At, Opens, Catalogue;
    var step, rest := path[0], path[1..];
    if rest == [] {
      assert before + path[..0] == before;
      var i :| 0 <= i < |tree.entries| && tree.entries[i].key == key;
      assert EntryInPayload(key, tree.entries[i], v, InExtension(v, before), Lists(v, before));
    } else {
      assert before + path[..|path| - 1] == before + [step] + rest[..|rest| - 1];
      if step.Item? {
        var i :| 0 <= i < |tree.items| && LeadsTo(tree.items[i], rest, end);
        ItemStep(v, before);
        WayFollowed(key, tree.items[i], v, before + [step], rest, end);
      } else {
        var i :| 0 <= i < |tree.entries| && tree.entries[i].key == step.cell && LeadsTo(tree.entries[i].value, rest, end);
        KeyStep(v, before, step.cell);
        WayFollowed(key, tree.entries[i].value, v, before + [step], rest, end);
        assert EntryInPayload(key, tree.entries[i], v, InExtension(v, before), Lists(v, before));
      }
    }
  }

  /** A key of a document is part of a payload if and only if some key above it starts an
      extension. */
  lemma PayloadExactly(key: nat, tree: Tree, v: Texts)
    ensures InPayload(key, tree, v, false, false) <==> exists path, end :: Reaches(key, v, [], tree, path, end)
  {
    hide Reaches;
    assert !InExtension(v, []) && !Lists(v, []);
    if InPayload(key, tree, v, false, false) {
      var path, end := WayOf(key, tree, v, []);
    }
    if path, end :| Reaches(key, v, [], tree, path, end) {
      WayFollowed(key, tree, v, [], path, end);
    }
  }
}
