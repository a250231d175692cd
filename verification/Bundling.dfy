/** The bundler: it turns a set of documents into one, lifting the targets of schema
    references to named components and inlining every other reference. */
module Bundling {
  import opened Sequences
  import opened Wrappers
  import opened Yaml
  import opened References
  import opened Normalization
  import opened Inlining
  import opened Ordering
  import opened Assembly
  import opened Obstacles

  const NODE_LIMIT: nat := 2_000_000
  const DEPTH_LIMIT: nat := 256

  function Catalogue(root: Node): Option<Node> {
    var components := MappingValue(root, "components");
    if components.None? then None else MappingValue(components.value, "schemas")
  }

  /** The names the root document already gives to schemas. */
  function RootNames(root: Node): set<string> {
    match Catalogue(root)
    case Some(Mapping(entries)) => set i | 0 <= i < |entries| :: entries[i].key
    case _ => {}
  }

  /** The component named for each lifted locator is the normal form of its target. */
  ghost predicate Published(s: Sources, names: Names, schemas: map<string, Node>, at: Locator) {
    && at in names
    && names[at] in schemas
    && Target(s, at).Some?
    && NormalSchema(s, names, at.document, Target(s, at).value, false) == Some(schemas[names[at]])
  }

  ghost predicate Injective(names: Names) {
    forall a, b :: a in names && b in names && names[a] == names[b] ==> a == b
  }

  /** The readable part of a component's name, and the digest that follows it. */
  type Hint = hint: Locator -> string | forall at :: '~' !in hint(at) witness at => ""

  /** The shape of the names given to components: no pointer escape is needed for them. */
  predicate ComponentName(name: string) {
    "Local_" <= name && '~' !in name
  }

  /** Names are fresh and unique; every name that is not pending has its component and no
      other component exists; each was made once; `active` are the targets being inlined. */
  ghost predicate Consistent(s: Sources, lifted: Names, schemas: map<string, Node>, active: set<Locator>, used: set<string>,
                             pending: set<Locator>, trail: seq<Locator>, history: seq<Locator>) {
    && s.root in s.documents
    && (forall at :: at in lifted ==> ComponentName(lifted[at]))
    && lifted.Keys <= Universe(s)
    && active <= Universe(s)
    && Injective(lifted)
    && lifted.Values !! RootNames(s.documents[s.root])
    && used == lifted.Values + RootNames(s.documents[s.root])
    && pending <= lifted.Keys
    && schemas.Keys == (set at | at in lifted && at !in pending :: lifted[at])
    && (forall at :: at in lifted && at !in pending ==> Published(s, lifted, schemas, at))
    && !Repeats(history)
    && Elements(history) == lifted.Keys - pending
    && InlineTrail(s, trail)
    && Elements(trail) == active
  }

  function Underscores(n: nat): string {
    if n == 0 then "" else Underscores(n - 1) + "_"
  }

  /** The first name not in use, in order of appended underscores. */
  ghost predicate FewestUnderscores(used: set<string>, base: string, name: string) {
    name !in used && exists n: nat :: name == base + Underscores(n) && forall m: nat :: m < n ==> base + Underscores(m) in used
  }

  class Bundler {
    const sources: Sources
    const hint: Hint
    /** Whether the node and depth limits apply. */
    const limited: bool

    var lifted: Names
    var schemas: map<string, Node>
    var active: set<Locator>
    var used: set<string>
    var normalizedNodes: nat
    var depth: int

    /** How deep normalization has been at most. */
    ghost var deepest: int
    /** Locators that have a name but whose component is still being normalized. */
    ghost var pending: set<Locator>
    /** The targets being inlined, outermost first. */
    ghost var trail: seq<Locator>
    /** The locators whose component was normalized, in that order. */
    ghost var history: seq<Locator>

    ghost predicate Valid()
      reads this
    {
      Consistent(sources, lifted, schemas, active, used, pending, trail, history)
    }

    constructor (sources: Sources, hint: Hint, limited: bool)
      requires sources.root in sources.documents
      ensures Valid()
      ensures this.sources == sources && this.limited == limited && lifted == map[] && active == {} && pending == {} && trail == []
    {
      this.sources := sources;
      this.hint := hint;
      this.limited := limited;
      lifted, schemas, active := map[], map[], {};
      used := RootNames(sources.documents[sources.root]);
      normalizedNodes, depth, deepest := 0, 0, 0;
      pending, trail, history := {}, [], [];
    }

    /** The hint with as few underscores as needed to be new. */
    method FreshName(at: Locator) returns (name: string)
      ensures FewestUnderscores(used, "Local_" + hint(at), name)
      ensures name !in used
      ensures ComponentName(name)
    {
      var base := "Local_" + hint(at);
      name := base;
      ghost var n := 0;
      while name in used
        invariant name == base + Underscores(n)
        invariant forall m: nat :: m < n ==> base + Underscores(m) in used
        invariant ComponentName(name)
        decreases set u | u in used && |u| >= |name|
      {
        ghost var longer := name + "_";
        assert (set u | u in used && |u| >= |longer|) <= (set u | u in used && |u| >= |name|) - {name};
        assert base + Underscores(n + 1) == base + Underscores(n) + "_";
        name := name + "_";
        n := n + 1;
      }
    }

    /** The state after a successful call: names were only added, and whatever was being
        lifted or inlined still is. */
    twostate predicate Advanced()
      reads this
    {
      && Valid()
      && Extends(old(lifted), lifted)
      && old(lifted).Keys <= lifted.Keys
      && active == old(active)
      && pending == old(pending)
      && trail == old(trail)
      && depth == old(depth)
    }

    /** A limit applies and was exceeded: in the number of nodes or in depth. */
    ghost predicate Exceeded()
      reads this
    {
      limited && (normalizedNodes > NODE_LIMIT || deepest > DEPTH_LIMIT)
    }

    /** Registers a fresh name for a target that is about to be normalized. */
    method Register(at: Locator) returns (name: string)
      requires Valid() && at in Universe(sources) && at !in lifted
      modifies this`used, this`lifted, this`pending
      ensures Valid()
      ensures FewestUnderscores(old(used), "Local_" + hint(at), name) && ComponentName(name)
      ensures at !in old(pending)
      ensures lifted == old(lifted)[at := name] && pending == old(pending) + {at}
    {
      hide Consistent, Universe, ComponentName;
      name := FreshName(at);
      NowPending(sources, lifted, schemas, active, used, pending, trail, history, at, name);
      used := used + {name};
      lifted := lifted[at := name];
      pending := pending + {at};
    }

    method Publish(at: Locator, name: string, component: Node)
      requires Valid() && at in pending && lifted[at] == name
      requires Target(sources, at).Some?
      requires NormalSchema(sources, lifted, at.document, Target(sources, at).value, false) == Some(component)
      modifies this`schemas, this`pending, this`history
      ensures Valid() && pending == old(pending) - {at}
    {
      hide NormalSchema, RootNames, Universe, Frontier, InlineTrail, ComponentName, Repeats, Elements;
      ghost var waiting, published := pending, schemas;
      schemas := schemas[name := component];
      pending := pending - {at};
      HistoryGrows(history, at);
      history := history + [at];
      forall other | other in lifted && other !in pending
        ensures Published(sources, lifted, schemas, other)
      {
        if other != at {
          assert Published(sources, lifted, published, other);
        }
      }
      assert forall x :: x in lifted && x !in pending <==> x == at || (x in lifted && x !in waiting);
    }

    method LiftSchema(at: Locator, target: Node, ghost caller: Node) returns (r: Result<string, Failure>)
      requires Valid() && at in Universe(sources)
      requires Target(sources, at) == Some(target) && Known(sources, target)
      modifies this
      ensures r.Ok? ==> Advanced()
      ensures r.Ok? ==> at in lifted && lifted[at] == r.value
      ensures r != Err(Circular)
      ensures r.Err? && r.error != Limits ==> Unnameable(sources, at)
      ensures r == Err(Limits) ==> Exceeded()
      decreases Universe(sources) - lifted.Keys, Universe(sources) - active, caller, 0
    {
      hide Valid, Hopeless, Unnameable;
      if at in lifted {
        return Ok(lifted[at]);
      }
      var name := Register(at);
      assert at in Universe(sources) - old(lifted).Keys && at !in Universe(sources) - lifted.Keys;
      ghost var outer := active;
      var normalized := Normalize(target, at.document, true, false);
      if normalized.Err? {
        if normalized.error != Limits {
          TargetHopeless(sources, outer, at, target);
        }
        return Err(normalized.error);
      }
      Publish(at, name, normalized.value);
      return Ok(name);
    }

    method Normalize(node: Node, origin: string, isSchema: bool, entries: bool) returns (r: Result<Node, Failure>)
      requires Valid() && Known(sources, node)
      requires !isSchema ==> InlineTargets(sources, origin, node, entries) <= Frontier(sources, trail)
      modifies this
      ensures r.Ok? ==> Advanced()
      ensures r.Ok? ==> Normal(sources, lifted, active, isSchema, origin, node, entries) == Some(r.value)
      ensures r == Err(Circular) ==> !isSchema && InlineCycle(sources)
      ensures r.Err? && r.error != Limits ==> Hopeless(sources, old(active), isSchema, origin, node, entries)
      ensures r == Err(Limits) ==> Exceeded()
      decreases Universe(sources) - lifted.Keys, Universe(sources) - active, node, 3
    {
      hide Consistent, Hopeless, NormalPlain, NormalSchema, InlineTargets, Frontier, Universe, InlineCycle, RefOf, Locate;
      LeafForms(sources, lifted, active, isSchema, origin, node, entries);
      normalizedNodes := normalizedNodes + 1;
      depth := depth + 1;
      deepest := if depth > deepest then depth else deepest;
      if limited && (normalizedNodes > NODE_LIMIT || depth > DEPTH_LIMIT) {
        return Err(Limits);
      }
      match node {
        case Scalar(_) =>
          r := Ok(node);
        case Sequence(items) =>
          r := NormalizeItems(node, origin, isSchema);
        case Mapping(es) =>
          r := NormalizeMapping(node, origin, isSchema, entries);
      }
      depth := depth - 1;
    }

    method NormalizeMapping(node: Node, origin: string, isSchema: bool, entries: bool) returns (r: Result<Node, Failure>)
      requires Valid() && Known(sources, node) && node.Mapping?
      requires !isSchema ==> InlineTargets(sources, origin, node, entries) <= Frontier(sources, trail)
      modifies this
      ensures r.Ok? ==> Advanced()
      ensures r.Ok? ==> Normal(sources, lifted, active, isSchema, origin, node, entries) == Some(r.value)
      ensures r == Err(Circular) ==> !isSchema && InlineCycle(sources)
      ensures r.Err? && r.error != Limits ==> Hopeless(sources, old(active), isSchema, origin, node, entries)
      ensures r == Err(Limits) ==> Exceeded()
      decreases Universe(sources) - lifted.Keys, Universe(sources) - active, node, 2
    {
      hide Consistent, Hopeless, NormalPlain, NormalSchema, InlineTargets, Frontier, Universe, InlineCycle;
      var reference := RefOf(node);
      if reference.Some? && reference.value.Text? {
        TextHopeless(sources, active, isSchema, origin, node, entries);
        r := Err(BadReference);
      } else if reference.Some? && (LeavesRoot(sources, origin, reference.value)
                 || (isSchema && !DirectSchemaFragment(reference.value.fragment))) {
        if isSchema {
          r := NormalizeReference(node, origin, reference.value, entries);
        } else {
          r := Inline(node, origin, reference.value, entries);
        }
      } else {
        r := NormalizeEntries(node, origin, isSchema, entries);
      }
    }

    method NormalizeItems(node: Node, origin: string, isSchema: bool) returns (r: Result<Node, Failure>)
      requires Valid() && Known(sources, node) && node.Sequence?
      requires !isSchema ==> InlineTargets(sources, origin, node, false) <= Frontier(sources, trail)
      modifies this
      ensures r.Ok? ==> Advanced()
      ensures r.Ok? ==> forall entries :: Normal(sources, lifted, active, isSchema, origin, node, entries) == Some(r.value)
      ensures r == Err(Circular) ==> !isSchema && InlineCycle(sources)
      ensures r.Err? && r.error != Limits ==> forall entries :: Hopeless(sources, old(active), isSchema, origin, node, entries)
      ensures r == Err(Limits) ==> Exceeded()
      decreases Universe(sources) - lifted.Keys, Universe(sources) - active, node, 1
    {
      hide Valid, Hopeless;
      var done: seq<Node> := [];
      for i := 0 to |node.items|
        invariant Advanced()
        invariant |done| == i
        invariant forall j :: 0 <= j < i ==>
          Normal(sources, lifted, active, isSchema, origin, node.items[j], false) == Some(done[j])
      {
        ghost var names := lifted;
        ChildKnown(sources, node, node.items[i]);
        var item := Normalize(node.items[i], origin, isSchema, false);
        if item.Err? {
          if item.error != Limits {
            ItemHopeless(sources, old(active), isSchema, origin, node, i);
          }
          return Err(item.error);
        }
        forall j | 0 <= j < i
          ensures Normal(sources, lifted, active, isSchema, origin, node.items[j], false) == Some(done[j])
        {
          NormalExtends(sources, names, lifted, active, isSchema, origin, node.items[j], false);
        }
        done := done + [item.value];
      }
      r := Ok(Sequence(done));
      forall entries ensures Normal(sources, lifted, active, isSchema, origin, node, entries) == Some(r.value) {
        assert Normal(sources, lifted, active, isSchema, origin, node, entries).value.items == done;
      }
    }

    method NormalizeEntries(node: Node, origin: string, isSchema: bool, entries: bool) returns (r: Result<Node, Failure>)
      requires Valid() && Known(sources, node) && node.Mapping?
      requires !isSchema ==> InlineTargets(sources, origin, node, entries) <= Frontier(sources, trail)
      requires KeepsReference(sources, isSchema, origin, node)
      modifies this
      ensures r.Ok? ==> Advanced()
      ensures r.Ok? ==> Normal(sources, lifted, active, isSchema, origin, node, entries) == Some(r.value)
      ensures r == Err(Circular) ==> !isSchema && InlineCycle(sources)
      ensures r.Err? && r.error != Limits ==> Hopeless(sources, old(active), isSchema, origin, node, entries)
      ensures r == Err(Limits) ==> Exceeded()
      decreases Universe(sources) - lifted.Keys, Universe(sources) - active, node, 1
    {
      hide Valid, Hopeless, NormalEntry, Normal, SchemaEntry, PlainEntry, NormalSchema, NormalPlain, InlineTargets, Frontier, RefOf, Lifts, LeavesRoot, Universe, InlineCycle;
      var es := node.entries;
      var done: seq<Entry> := [];
      for i := 0 to |es|
        invariant Advanced()
        invariant |done| == i
        invariant forall j :: 0 <= j < i ==> done[j].key == es[j].key
        invariant forall j :: 0 <= j < i ==>
          NormalEntry(sources, lifted, active, isSchema, origin, es[j], entries) == Some(done[j].value)
      {
        var key, value := es[i].key, es[i].value;
        if !entries && Extension(key) {
          CopiedEntry(sources, lifted, active, isSchema, origin, es[i], entries);
          done := done + [Entry(key, value)];
          continue;
        }
        var nextSchema := isSchema || entries || key == "schema" || key == "itemSchema";
        var nextEntries := (key == "schemas" && !isSchema) || (isSchema && SchemaCatalogue(key));
        if isSchema && !entries && Literal(key) {
          CopiedEntry(sources, lifted, active, isSchema, origin, es[i], entries);
          done := done + [Entry(key, value)];
          continue;
        }
        ghost var names := lifted;
        ChildKnown(sources, node, value);
        if !nextSchema {
          EntryTargetsIncluded(sources, origin, node, entries, i);
        }
        var normalized := Normalize(value, origin, nextSchema, nextEntries);
        if normalized.Err? {
          if normalized.error != Limits {
            ValueHopeless(sources, old(active), isSchema, origin, es[i], entries);
            EntryHopeless(sources, old(active), isSchema, origin, node, entries, i);
          }
          return Err(normalized.error);
        }
        forall j | 0 <= j < i
          ensures NormalEntry(sources, lifted, active, isSchema, origin, es[j], entries) == Some(done[j].value)
        {
          NormalEntryExtends(sources, names, lifted, active, isSchema, origin, es[j], entries);
        }
        WalkedEntry(sources, lifted, active, isSchema, origin, es[i], entries);
        done := done + [Entry(key, normalized.value)];
      }
      r := Ok(Mapping(done));
      EntriesResult(sources, lifted, active, isSchema, origin, node, entries, done);
    }

    /** A schema reference: its target is lifted and the reference now names the component. */
    method NormalizeReference(node: Node, origin: string, uri: Value, entries: bool) returns (r: Result<Node, Failure>)
      requires Valid() && Known(sources, node) && node.Mapping?
      requires RefOf(node) == Some(uri) && Lifts(sources, origin, uri)
      modifies this
      ensures r.Ok? ==> Advanced()
      ensures r.Ok? ==> NormalSchema(sources, lifted, origin, node, entries) == Some(r.value)
      ensures r != Err(Circular)
      ensures r.Err? && r.error != Limits ==> Hopeless(sources, old(active), true, origin, node, entries)
      ensures r == Err(Limits) ==> Exceeded()
      decreases Universe(sources) - lifted.Keys, Universe(sources) - active, node, 1
    {
      hide Valid, Hopeless, Unnameable, Universe, NormalSchema, NormalPlain, InlineTargets, Lifts;
      var found := Locate(sources, origin, uri);
      if found.Err? {
        UnlocatedHopeless(sources, active, true, origin, node, entries);
        return Err(found.error);
      }
      var (at, target) := found.value;
      ChildKnown(sources, node, Scalar(uri));
      Located(sources, origin, uri);
      var name := LiftSchema(at, target, node);
      if name.Err? {
        if name.error != Limits {
          UnnameableHopeless(sources, old(active), origin, node, entries, at, target);
        }
        return Err(name.error);
      }
      var es := node.entries;
      var done: seq<Entry> := [];
      for i := 0 to |es|
        invariant Advanced()
        invariant at in lifted && lifted[at] == name.value
        invariant |done| == i
        invariant forall j :: 0 <= j < i ==> done[j].key == es[j].key
        invariant forall j :: 0 <= j < i ==>
          RewrittenEntry(sources, lifted, origin, name.value, es[j]) == Some(done[j].value)
      {
        var key, value := es[i].key, es[i].value;
        if key == "$ref" {
          done := done + [Entry(key, Scalar(ComponentReference(name.value)))];
        } else {
          ghost var names := lifted;
          ChildKnown(sources, node, value);
          var normalized := Normalize(value, origin, true, false);
          if normalized.Err? {
            if normalized.error != Limits {
              SchemaSiblingHopeless(sources, old(active), origin, node, entries, i);
            }
            return Err(normalized.error);
          }
          forall j | 0 <= j < i
            ensures RewrittenEntry(sources, lifted, origin, name.value, es[j]) == Some(done[j].value)
          {
            if es[j].key != "$ref" {
              NormalSchemaExtends(sources, names, lifted, origin, es[j].value, false);
            }
          }
          done := done + [Entry(key, normalized.value)];
        }
      }
      r := Ok(Mapping(done));
      ReferenceResult(sources, lifted, origin, node, entries, uri, at, done);
    }

    lemma TrailFacts()
      requires Valid()
      ensures InlineTrail(sources, trail) && Elements(trail) == active
    {
    }

    method Enter(at: Locator)
      requires Valid() && at in Universe(sources) && at in Frontier(sources, trail) && at !in active
      modifies this`active, this`trail
      ensures Valid()
      ensures active == old(active) + {at} && trail == old(trail) + [at]
    {
      TrailExtends(sources, trail, at);
      active := active + {at};
      trail := trail + [at];
    }

    method Leave(at: Locator, ghost outer: seq<Locator>)
      modifies this`active, this`trail
      ensures active == old(active) - {at} && trail == outer
      ensures old(Valid()) && old(trail) == outer + [at] && at !in outer ==> Valid()
    {
      hide Published, Universe, RootNames, Injective, ComponentName, Frontier;
      if Valid() && trail == outer + [at] && at !in outer {
        forall i | 0 <= i < |outer| ensures outer[i] in Frontier(sources, outer[..i]) {
          assert trail[..i] == outer[..i];
        }
        assert Elements(trail) == Elements(outer) + {at};
      }
      active := active - {at};
      trail := outer;
    }

    /** Any other reference: the normalized target takes its place, overridden by siblings. */
    method Inline(node: Node, origin: string, uri: Value, entries: bool) returns (r: Result<Node, Failure>)
      requires Valid() && Known(sources, node) && node.Mapping?
      requires RefOf(node) == Some(uri) && LeavesRoot(sources, origin, uri)
      requires InlineTargets(sources, origin, node, entries) <= Frontier(sources, trail)
      modifies this
      ensures r.Ok? ==> Advanced()
      ensures r.Ok? ==> NormalPlain(sources, lifted, active, origin, node, entries) == Some(r.value)
      ensures r == Err(Circular) ==> InlineCycle(sources)
      ensures r.Err? && r.error != Limits ==> Hopeless(sources, old(active), false, origin, node, entries)
      ensures r == Err(Limits) ==> Exceeded()
      decreases Universe(sources) - lifted.Keys, Universe(sources) - active, node, 1
    {
      hide Valid, Hopeless, SiblingFails, NormalPlain, InlineTargets, Frontier, Overlay, InlineTrail, InlineCycle, Known, Universe, Target;
      var found := Locate(sources, origin, uri);
      if found.Err? {
        UnlocatedHopeless(sources, active, false, origin, node, entries);
        return Err(found.error);
      }
      var (at, target) := found.value;
      ghost var outer := trail;
      InlineStep(sources, trail, origin, node, entries, uri, at, target);
      TrailFacts();
      if at in active {
        TrailExtends(sources, trail, at);
        ActiveHopeless(sources, active, origin, node, entries, at, target);
        return Err(Circular);
      }
      Enter(at);
      var inlined := Normalize(target, at.document, false, false);
      Leave(at, outer);
      if inlined.Err? {
        if inlined.error != Limits {
          InlinedHopeless(sources, old(active), origin, node, entries, at, target);
        }
        return inlined;
      }
      ghost var names := lifted;
      if !inlined.value.Mapping? {
        if |node.entries| > 1 {
          NonObjectHopeless(sources, names, active, origin, node, entries, at, target);
          return Err(Siblings);
        }
        r := inlined;
      } else {
        r := OverlaySiblings(node, origin, inlined.value);
        if r.Err? && r.error != Limits {
          OverlayHopeless(sources, names, old(active), origin, node, entries, at, target);
        }
        if r.Ok? {
          NormalPlainExtends(sources, names, lifted, active + {at}, at.document, target, false);
        }
      }
      if r.Ok? {
        InlineResult(sources, lifted, active, origin, node, entries, uri, at, target, inlined.value, r.value);
      }
    }

    method OverlaySiblings(node: Node, origin: string, base: Node) returns (r: Result<Node, Failure>)
      requires Valid() && Known(sources, node) && node.Mapping?
      requires forall e :: e in node.entries && e.key != "$ref" ==>
        InlineTargets(sources, origin, e.value, false) <= Frontier(sources, trail)
      modifies this
      ensures r.Ok? ==> Advanced()
      ensures r.Ok? ==> Overlay(sources, lifted, active, origin, base, node.entries) == Some(r.value)
      ensures r == Err(Circular) ==> InlineCycle(sources)
      ensures r.Err? && r.error != Limits ==> SiblingFails(sources, old(active), origin, node.entries)
      ensures r == Err(Limits) ==> Exceeded()
      decreases Universe(sources) - lifted.Keys, Universe(sources) - active, node, 0
    {
      hide Valid, Hopeless, NormalPlain, InlineTargets;
      var es := node.entries;
      var result := base;
      for i := 0 to |es|
        invariant Advanced()
        invariant Overlay(sources, lifted, active, origin, base, es[..i]) == Some(result)
      {
        assert es[..i + 1][..i] == es[..i];
        if es[i].key == "$ref" {
          continue;
        }
        ghost var names := lifted;
        ChildKnown(sources, node, es[i].value);
        var value := Normalize(es[i].value, origin, false, false);
        if value.Err? {
          return value;
        }
        OverlayExtends(sources, names, lifted, active, origin, base, es[..i]);
        result := SetMappingValue(result, es[i].key, value.value);
      }
      assert es[..|es|] == es;
      r := Ok(result);
    }
  }

  /** A scalar is its own normal form; for a sequence it does not matter whether it is an entry. */
  lemma LeafForms(s: Sources, names: Names, active: set<Locator>, isSchema: bool, origin: string, node: Node, entries: bool)
    ensures node.Scalar? ==> Normal(s, names, active, isSchema, origin, node, entries) == Some(node)
    ensures node.Sequence? ==> InlineTargets(s, origin, node, false) == InlineTargets(s, origin, node, entries)
  {
  }

  lemma InlineStep(s: Sources, trail: seq<Locator>, origin: string, node: Node, entries: bool, uri: Value, at: Locator, target: Node)
    requires Known(s, node) && node.Mapping?
    requires RefOf(node) == Some(uri) && LeavesRoot(s, origin, uri)
    requires Locate(s, origin, uri) == Ok((at, target))
    requires InlineTargets(s, origin, node, entries) <= Frontier(s, trail)
    ensures at in Universe(s) && Known(s, target)
    ensures at in Frontier(s, trail)
    ensures InlineTargets(s, at.document, target, false) <= Frontier(s, trail + [at])
    ensures forall e :: e in node.entries && e.key != "$ref" ==>
      InlineTargets(s, origin, e.value, false) <= Frontier(s, trail)
  {
    ChildKnown(s, node, Scalar(uri));
    Located(s, origin, uri);
    var es := node.entries;
    forall e | e in es && e.key != "$ref"
      ensures InlineTargets(s, origin, e.value, false) <= InlineTargets(s, origin, node, entries)
    {
      var i :| 0 <= i < |es| && es[i] == e;
      forall x | x in InlineTargets(s, origin, es[i].value, false)
        ensures x in InlineTargets(s, origin, node, entries)
      {
      }
    }
  }

  /** Extensions, and literals in schemas, are copied. */
  lemma CopiedEntry(s: Sources, names: Names, active: set<Locator>, isSchema: bool, origin: string, e: Entry, entries: bool)
    requires !entries && (Extension(e.key) || (isSchema && Literal(e.key)))
    ensures NormalEntry(s, names, active, isSchema, origin, e, entries) == Some(e.value)
  {
  }

  lemma WalkedEntry(s: Sources, names: Names, active: set<Locator>, isSchema: bool, origin: string, e: Entry, entries: bool)
    requires entries || !(Extension(e.key) || (isSchema && Literal(e.key)))
    ensures NormalEntry(s, names, active, isSchema, origin, e, entries) ==
      Normal(s, names, active, isSchema || entries || e.key == "schema" || e.key == "itemSchema", origin, e.value,
        (e.key == "schemas" && !isSchema) || (isSchema && SchemaCatalogue(e.key)))
  {
    hide NormalSchema, NormalPlain;
  }

  lemma EntryTargetsIncluded(s: Sources, origin: string, node: Node, entries: bool, i: nat)
    requires node.Mapping? && i < |node.entries|
    requires RefOf(node).Some? ==> !LeavesRoot(s, origin, RefOf(node).value)
    ensures EntryTargets(s, origin, node.entries[i], entries) <= InlineTargets(s, origin, node, entries)
  {
  }

  lemma EntriesResult(s: Sources, names: Names, active: set<Locator>, isSchema: bool, origin: string, node: Node, entries: bool, done: seq<Entry>)
    requires node.Mapping?
    requires KeepsReference(s, isSchema, origin, node)
    requires |done| == |node.entries|
    requires forall j :: 0 <= j < |done| ==> done[j].key == node.entries[j].key
    requires forall j :: 0 <= j < |done| ==>
      NormalEntry(s, names, active, isSchema, origin, node.entries[j], entries) == Some(done[j].value)
    ensures Normal(s, names, active, isSchema, origin, node, entries) == Some(Mapping(done))
  {
    assert forall j :: 0 <= j < |done| ==> NormalEntry(s, names, active, isSchema, origin, node.entries[j], entries).Some?;
    assert Normal(s, names, active, isSchema, origin, node, entries).value.entries == done;
  }

  lemma ReferenceResult(s: Sources, names: Names, origin: string, node: Node, entries: bool, uri: Value, at: Locator, done: seq<Entry>)
    requires node.Mapping? && RefOf(node) == Some(uri) && Lifts(s, origin, uri)
    requires Locate(s, origin, uri).Ok? && Locate(s, origin, uri).value.0 == at && at in names
    requires |done| == |node.entries|
    requires forall j :: 0 <= j < |done| ==> done[j].key == node.entries[j].key
    requires forall j :: 0 <= j < |done| ==>
      RewrittenEntry(s, names, origin, names[at], node.entries[j]) == Some(done[j].value)
    ensures NormalSchema(s, names, origin, node, entries) == Some(Mapping(done))
  {
    assert NormalSchema(s, names, origin, node, entries).value.entries == done;
  }

  lemma InlineResult(s: Sources, names: Names, active: set<Locator>, origin: string, node: Node, entries: bool,
                     uri: Value, at: Locator, target: Node, inlined: Node, result: Node)
    requires node.Mapping?
    requires RefOf(node) == Some(uri) && LeavesRoot(s, origin, uri)
    requires Locate(s, origin, uri) == Ok((at, target))
    requires at in Universe(s) && at !in active
    requires NormalPlain(s, names, active + {at}, at.document, target, false) == Some(inlined)
    requires if inlined.Mapping? then Overlay(s, names, active, origin, inlined, node.entries) == Some(result)
             else |node.entries| <= 1 && result == inlined
    ensures NormalPlain(s, names, active, origin, node, entries) == Some(result)
  {
  }

  lemma HistoryGrows(history: seq<Locator>, at: Locator)
    requires !Repeats(history) && at !in Elements(history)
    ensures !Repeats(history + [at])
    ensures Elements(history + [at]) == Elements(history) + {at}
  {
    var longer := history + [at];
    forall i, j | 0 <= i < j < |longer| ensures longer[i] != longer[j] {
      assert longer[i] == history[i];
      assert history[i] in Elements(history);
    }
  }

  lemma NowPending(s: Sources, lifted: Names, schemas: map<string, Node>, active: set<Locator>, used: set<string>,
                   pending: set<Locator>, trail: seq<Locator>, history: seq<Locator>, at: Locator, name: string)
    requires Consistent(s, lifted, schemas, active, used, pending, trail, history)
    requires at in Universe(s) && at !in lifted && name !in used && ComponentName(name)
    ensures at !in pending
    ensures Consistent(s, lifted[at := name], schemas, active, used + {name}, pending + {at}, trail, history)
  {
    hide Published, RootNames, Universe, Repeats, ComponentName, InlineTrail, Elements, Injective;
    var after := lifted[at := name];
    AddName(s, lifted, after, schemas, pending + {at}, at, name);
    assert forall x :: x in after && x !in pending + {at} <==> x in lifted && x !in pending;
  }

  lemma AddName(s: Sources, before: Names, after: Names, schemas: map<string, Node>, pending: set<Locator>, at: Locator, name: string)
    requires at !in before && at in pending && after == before[at := name]
    requires name !in before.Values
    requires forall x :: x in before && x !in pending ==> Published(s, before, schemas, x)
    requires Injective(before)
    ensures forall x :: x in after && x !in pending ==> Published(s, after, schemas, x)
    ensures Injective(after)
    ensures after.Values == before.Values + {name}
  {
    assert forall x :: x in before ==> before[x] in before.Values;
    forall x | x in after && x !in pending ensures Published(s, after, schemas, x) {
      assert Published(s, before, schemas, x);
      NormalSchemaExtends(s, before, after, x.document, Target(s, x).value, false);
    }
    assert after[at] == name && forall x :: x in before ==> after[x] == before[x];
  }

  // ----- the whole run

  /** What a bundled document is: the normal form of the root, with one fresh component
      for each lifted locator and nothing else added. */
  ghost predicate Bundled(s: Sources, names: Names, schemas: map<string, Node>, out: Node) {
    && s.root in s.documents && s.documents[s.root].Mapping?
    && var normalized := NormalPlain(s, names, {}, s.root, s.documents[s.root], false);
    && normalized.Some?
    && out == Assemble(normalized.value, schemas)
    && Injective(names)
    && schemas.Keys == names.Values
    && names.Values !! RootNames(s.documents[s.root])
    && (forall at :: at in names ==> ComponentName(names[at]) && Published(s, names, schemas, at))
  }

  lemma BundledIsSufficient(s: Sources, names: Names, schemas: map<string, Node>, out: Node)
    requires Bundled(s, names, schemas, out)
    ensures Sufficient(s, names)
    ensures NormalPlain(s, names, {}, s.root, s.documents[s.root], false).Some?
  {
    hide NormalPlain, NormalSchema;
    assert forall at :: at in names ==> Published(s, names, schemas, at);
  }

  /** There is no bundled document at all. */
  ghost predicate Impossible(s: Sources) {
    forall names, schemas, out :: !Bundled(s, names, schemas, out)
  }

  lemma NoRootIsImpossible(s: Sources)
    requires s.root !in s.documents || !s.documents[s.root].Mapping?
    ensures Impossible(s)
  {
  }

  lemma RootTargets(s: Sources)
    requires s.root in s.documents
    ensures InlineTargets(s, s.root, s.documents[s.root], false) <= Frontier(s, [])
  {
  }

  /** With nothing pending the components are those of the names: the document is bundled. */
  lemma IsBundled(s: Sources, names: Names, schemas: map<string, Node>, used: set<string>, history: seq<Locator>, normalized: Node, out: Node)
    requires Consistent(s, names, schemas, {}, used, {}, [], history)
    requires s.documents[s.root].Mapping? && NormalPlain(s, names, {}, s.root, s.documents[s.root], false) == Some(normalized)
    requires out == Assemble(normalized, schemas)
    ensures Bundled(s, names, schemas, out) && !Impossible(s)
  {
    hide NormalPlain, Published, RootNames, Universe, InlineTrail, Repeats, Assemble;
    assert schemas.Keys == names.Values;
    assert Bundled(s, names, schemas, out);
  }

  lemma HopelessIsImpossible(s: Sources)
    requires s.root in s.documents && Hopeless(s, {}, false, s.root, s.documents[s.root], false)
    ensures Impossible(s)
  {
    hide NormalPlain, NormalSchema, Bundled;
    forall names, schemas, out ensures !Bundled(s, names, schemas, out) {
      if Bundled(s, names, schemas, out) {
        BundledIsSufficient(s, names, schemas, out);
        assert false;
      }
    }
  }

  /** Bundling terminates on all documents, cyclic or not, with or without its limits. Without
      them it succeeds exactly when there is a bundled document; with them it may only give
      up in addition. It reports a circular reference only when inlining goes round in
      circles, and then never succeeds. */
  method Bundle(s: Sources, hint: Hint, limited: bool)
    returns (r: Result<Node, Failure>, ghost names: Names, ghost schemas: map<string, Node>)
    ensures r.Ok? ==> Bundled(s, names, schemas, r.value)
    ensures r.Ok? ==> !InlineCycle(s)
    ensures r == Err(Circular) ==> InlineCycle(s)
    ensures r.Err? && r.error != Limits ==> Impossible(s)
    ensures r == Err(Limits) ==> limited
    ensures !limited ==> (r.Ok? <==> !Impossible(s))
  {
    hide Bundled, Impossible, Hopeless, Consistent, NormalPlain, NormalSchema, InlineCycle, InlineTargets, InlineTrail, RootNames, Universe;
    names, schemas := map[], map[];
    if s.root !in s.documents || !s.documents[s.root].Mapping? {
      NoRootIsImpossible(s);
      return Err(RootNotObject), names, schemas;
    }
    var root := s.documents[s.root];
    var bundler := new Bundler(s, hint, limited);
    DocumentKnown(s, s.root);
    RootTargets(s);
    var normalized := bundler.Normalize(root, s.root, false, false);
    if normalized.Err? {
      if normalized.error != Limits {
        HopelessIsImpossible(s);
      }
      return normalized, names, schemas;
    }
    NormalFormsAreAcyclic(s, bundler.lifted);
    names, schemas := bundler.lifted, bundler.schemas;
    var out := AddSchemas(normalized.value, bundler.schemas);
    IsBundled(s, names, schemas, bundler.used, bundler.history, normalized.value, out);
    r := Ok(out);
  }
}
