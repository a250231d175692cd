/** Collecting the documents that a root document refers to, directly or through others. */
module SourceClosure {
  import opened Wrappers
  import opened Yaml
  import opened Normalization

  /** The documents that can be read or fetched, how a reference found in a document names
      another one, and whether a text looks like a reference (contains '/', '#' or '.'). */
  datatype World = World(root: string, documents: map<string, Node>, resolve: (string, Value) -> Option<string>, marked: Value -> bool)

  datatype Failure = Invalid(document: string, value: Value) | Missing(document: string)

  // ----- which references a document has

  function SchemaHere(node: Node, schema: bool, entries: bool): bool {
    schema || (!entries && (MappingValue(node, "type").Some? || MappingValue(node, "properties").Some?
      || MappingValue(node, "allOf").Some? || MappingValue(node, "oneOf").Some? || MappingValue(node, "anyOf").Some?))
  }

  predicate NextSchema(key: string, schema: bool, entries: bool) {
    schema || entries || key == "schema" || key == "itemSchema"
  }

  predicate NextEntries(key: string, schema: bool) {
    if schema then SchemaCatalogue(key) else key == "schemas"
  }

  /** The values of a discriminator mapping; of a sequence every second item. */
  function Mapped(node: Node): seq<Node> {
    match node
    case Mapping(es) => seq(|es|, i requires 0 <= i < |es| => es[i].value)
    case Sequence(items) => seq(|items| / 2, i requires 0 <= i < |items| / 2 => items[2 * i + 1])
    case Scalar(_) => []
  }

  function Discriminated(node: Node, schema: bool): seq<Node> {
    var property, mapping := MappingValue(node, "propertyName"), MappingValue(node, "mapping");
    if schema && property.Some? && property.value.Scalar? && mapping.Some? then Mapped(mapping.value) else []
  }

  predicate Skipped(key: string, entries: bool) {
    !entries && Extension(key)
  }

  predicate Descends(key: string, schema: bool, entries: bool) {
    !Skipped(key, entries) && !(schema && !entries && Literal(key))
  }

  /** The reference is one of the mapping's own. */
  ghost predicate OwnReference(w: World, value: Value, node: Node, here: bool)
    requires node.Mapping?
  {
    || (exists i :: 0 <= i < |Discriminated(node, here)| && Discriminated(node, here)[i] == Scalar(value) && w.marked(value))
    || (exists i :: 0 <= i < |node.entries| && node.entries[i] == Entry("$ref", Scalar(value)))
  }

  /** The reference occurs where references count. */
  ghost predicate Follows(w: World, value: Value, node: Node, schema: bool, entries: bool)
    decreases node, 0
  {
    match node
    case Scalar(_) => false
    case Sequence(items) => exists i :: 0 <= i < |items| && Follows(w, value, items[i], schema, false)
    case Mapping(es) =>
      var here := SchemaHere(node, schema, entries);
      || OwnReference(w, value, node, here)
      || exists i :: 0 <= i < |es| && FollowsIn(w, value, es[i], here, entries)
  }

  ghost predicate FollowsIn(w: World, value: Value, e: Entry, here: bool, entries: bool)
    decreases e.value, 1
  {
    Descends(e.key, here, entries) && Follows(w, value, e.value, NextSchema(e.key, here, entries), NextEntries(e.key, here))
  }

  ghost predicate Refers(w: World, document: string, value: Value) {
    document in w.documents && Follows(w, value, w.documents[document], false, false)
  }

  // ----- the closure

  /** With a document the set contains those it refers to. */
  ghost predicate ClosedSet(w: World, s: set<string>) {
    forall document, value :: document in s && Refers(w, document, value) && w.resolve(document, value).Some? ==>
      w.resolve(document, value).value in s
  }

  /** The document is in every closed set that contains the root. */
  ghost predicate Needed(w: World, document: string) {
    forall s :: ClosedSet(w, s) && w.root in s ==> document in s
  }

  lemma NeededNext(w: World, document: string, value: Value)
    requires Needed(w, document) && Refers(w, document, value) && w.resolve(document, value).Some?
    ensures Needed(w, w.resolve(document, value).value)
  {
  }

  /** All references of the document lead into the set. */
  ghost predicate Complete(w: World, document: string, s: set<string>) {
    document in w.documents && forall value :: Refers(w, document, value) ==> Leads(w, document, value, s)
  }

  ghost predicate Leads(w: World, document: string, value: Value, s: set<string>) {
    w.resolve(document, value).Some? && w.resolve(document, value).value in s
  }

  ghost predicate Explains(w: World, failure: Failure) {
    match failure
    case Invalid(document, value) => Needed(w, document) && Refers(w, document, value) && w.resolve(document, value).None?
    case Missing(document) => Needed(w, document) && document !in w.documents
  }

  /** Every needed document exists and has references that resolve. */
  ghost predicate Collectable(w: World) {
    forall document :: Needed(w, document) ==>
      document in w.documents && forall value :: Refers(w, document, value) ==> w.resolve(document, value).Some?
  }

  ghost predicate Grown(w: World, before: set<string>, after: set<string>) {
    before <= after && forall document :: document in after && document !in before ==> Complete(w, document, after)
  }

  lemma GrownFurther(w: World, a: set<string>, b: set<string>, c: set<string>)
    requires Grown(w, a, b) && Grown(w, b, c)
    ensures Grown(w, a, c)
  {
    hide Refers;
  }

  /** The references of a part of a document lead into the set. */
  ghost predicate PartLeads(w: World, document: string, node: Node, schema: bool, entries: bool, s: set<string>) {
    forall value :: Follows(w, value, node, schema, entries) ==> Leads(w, document, value, s)
  }

  ghost predicate PartRefers(w: World, document: string, node: Node, schema: bool, entries: bool) {
    forall value :: Follows(w, value, node, schema, entries) ==> Refers(w, document, value)
  }

  // ----- collecting

  class Collector {
    const world: World
    var documents: map<string, Node>

    ghost predicate Valid()
      reads this
    {
      forall document :: document in documents ==>
        document in world.documents && documents[document] == world.documents[document] && Needed(world, document)
    }

    constructor (world: World)
      ensures this.world == world && documents == map[] && Valid()
    {
      this.world := world;
      documents := map[];
    }

    method Visit(document: string, ghost caller: Node) returns (failure: Option<Failure>)
      requires Valid() && Needed(world, document) && document in world.documents
      modifies this
      ensures match failure
        case None => Valid() && document in documents && Grown(world, old(documents.Keys), documents.Keys)
        case Some(reason) => Explains(world, reason)
      decreases world.documents.Keys - documents.Keys, caller, 0
    {
      hide Needed, Follows, Explains;
      if document in documents {
        return None;
      }
      var node := world.documents[document];
      ghost var before := documents.Keys;
      documents := documents[document := node];
      ghost var between := documents.Keys;
      assert document in world.documents.Keys - before && document !in world.documents.Keys - between;
      failure := Walk(document, node, false, false);
      if failure.None? {
        CompleteNow(world, document, node, documents.Keys);
        GrownBy(world, before, document, between, documents.Keys);
      }
    }

    method Follow(document: string, value: Value, ghost caller: Node) returns (failure: Option<Failure>)
      requires Valid() && Needed(world, document) && Refers(world, document, value)
      modifies this
      ensures match failure
        case None => Valid() && Leads(world, document, value, documents.Keys) && Grown(world, old(documents.Keys), documents.Keys)
        case Some(reason) => Explains(world, reason)
      decreases world.documents.Keys - documents.Keys, caller, 1
    {
      hide Needed, Refers, Complete;
      var target := world.resolve(document, value);
      if target.None? {
        return Some(Invalid(document, value));
      }
      NeededNext(world, document, value);
      if target.value in documents {
        return None;
      }
      if target.value !in world.documents {
        return Some(Missing(target.value));
      }
      failure := Visit(target.value, caller);
    }

    method Walk(document: string, node: Node, schema: bool, entries: bool) returns (failure: Option<Failure>)
      requires Valid() && Needed(world, document) && PartRefers(world, document, node, schema, entries)
      modifies this
      ensures match failure
        case None => Valid() && PartLeads(world, document, node, schema, entries, documents.Keys) && Grown(world, old(documents.Keys), documents.Keys)
        case Some(reason) => Explains(world, reason)
      decreases world.documents.Keys - documents.Keys, node, 3
    {
      match node
      case Scalar(_) =>
        return None;
      case Sequence(items) =>
        failure := WalkItems(document, node, schema, entries);
      case Mapping(es) =>
        failure := WalkMapping(document, node, schema, entries);
    }

    method WalkItems(document: string, node: Node, schema: bool, ghost entries: bool) returns (failure: Option<Failure>)
      requires node.Sequence? && Valid() && Needed(world, document) && PartRefers(world, document, node, schema, entries)
      modifies this
      ensures match failure
        case None => Valid() && PartLeads(world, document, node, schema, entries, documents.Keys) && Grown(world, old(documents.Keys), documents.Keys)
        case Some(reason) => Explains(world, reason)
      decreases world.documents.Keys - documents.Keys, node, 2
    {
      hide Needed, PartLeads, PartRefers, Grown, Follows, Explains;
      var items := node.items;
      ghost var start, known := documents.Keys, documents.Keys;
      NothingGrown(world, start);
      for i := 0 to |items|
        invariant Valid() && known == documents.Keys && start <= known && Grown(world, start, known)
        invariant forall j :: 0 <= j < i ==> PartLeads(world, document, items[j], schema, false, known)
      {
        ItemRefers(world, document, node, i, schema, entries);
        failure := Walk(document, items[i], schema, false);
        if failure.Some? {
          return;
        }
        GrownLeads(world, document, known, documents.Keys);
        GrownFurther(world, start, known, documents.Keys);
        known := documents.Keys;
      }
      ItemsLead(world, document, node, schema, entries, known);
      return None;
    }

    method WalkMapping(document: string, node: Node, schema: bool, entries: bool) returns (failure: Option<Failure>)
      requires node.Mapping? && Valid() && Needed(world, document) && PartRefers(world, document, node, schema, entries)
      modifies this
      ensures match failure
        case None => Valid() && PartLeads(world, document, node, schema, entries, documents.Keys) && Grown(world, old(documents.Keys), documents.Keys)
        case Some(reason) => Explains(world, reason)
      decreases world.documents.Keys - documents.Keys, node, 2
    {
      hide Needed, PartLeads, PartRefers, Grown, Follows, Explains, EntryLeads, MappedLead, Discriminated, Refers, SchemaHere, Leads;
      var here := SchemaHere(node, schema, entries);
      ghost var start, known := documents.Keys, documents.Keys;
      NothingGrown(world, start);
      var mapped := Discriminated(node, here);
      MappedStart(world, document, mapped, known);
      for i := 0 to |mapped|
        invariant Valid() && known == documents.Keys && start <= known && Grown(world, start, known)
        invariant MappedLead(world, document, mapped, i, known)
      {
        if mapped[i].Scalar? && world.marked(mapped[i].value) {
          MappedRefers(world, document, node, i, schema, entries);
          failure := Follow(document, mapped[i].value, node);
          if failure.Some? {
            return;
          }
          GrownLeads(world, document, known, documents.Keys);
          GrownFurther(world, start, known, documents.Keys);
        }
        MappedNext(world, document, mapped, i, known, documents.Keys);
        known := documents.Keys;
      }
      var es := node.entries;
      for i := 0 to |es|
        invariant Valid() && known == documents.Keys && start <= known && Grown(world, start, known)
        invariant MappedLead(world, document, mapped, |mapped|, known)
        invariant forall j :: 0 <= j < i ==> EntryLeads(world, document, es[j], here, entries, known)
      {
        failure := WalkEntry(document, node, i, schema, entries, here);
        if failure.Some? {
          return;
        }
        GrownEntries(world, document, known, documents.Keys);
        MappedFurther(world, document, mapped, known, documents.Keys);
        GrownFurther(world, start, known, documents.Keys);
        known := documents.Keys;
      }
      MappingLeads(world, document, node, schema, entries, known);
      return None;
    }

    method WalkEntry(document: string, node: Node, i: nat, ghost schema: bool, entries: bool, here: bool) returns (failure: Option<Failure>)
      requires node.Mapping? && i < |node.entries| && here == SchemaHere(node, schema, entries)
      requires Valid() && Needed(world, document) && PartRefers(world, document, node, schema, entries)
      modifies this
      ensures match failure
        case None => Valid() && EntryLeads(world, document, node.entries[i], here, entries, documents.Keys)
          && old(documents.Keys) <= documents.Keys && Grown(world, old(documents.Keys), documents.Keys)
        case Some(reason) => Explains(world, reason)
      decreases world.documents.Keys - documents.Keys, node, 1
    {
      hide Needed, PartLeads, PartRefers, Grown, Follows, Explains, Refers, SchemaHere, Leads, Literal, Extension;
      var e := node.entries[i];
      ghost var start := documents.Keys;
      NothingGrown(world, start);
      EntryRefers(world, document, node, i, schema, entries);
      if Skipped(e.key, entries) {
        NotReference(e.key, entries);
        return None;
      }
      if e.key == "$ref" && e.value.Scalar? {
        failure := Follow(document, e.value.value, e.value);
        if failure.Some? {
          return;
        }
        GrownLeads(world, document, start, documents.Keys);
      }
      if here && !entries && Literal(e.key) {
        return None;
      }
      ghost var known := documents.Keys;
      failure := Walk(document, e.value, NextSchema(e.key, here, entries), NextEntries(e.key, here));
      if failure.None? {
        GrownLeads(world, document, known, documents.Keys);
        GrownFurther(world, start, known, documents.Keys);
      }
    }
  }

  lemma CompleteNow(w: World, document: string, node: Node, s: set<string>)
    requires document in w.documents && w.documents[document] == node && PartLeads(w, document, node, false, false, s)
    ensures Complete(w, document, s)
  {
  }

  lemma GrownBy(w: World, before: set<string>, document: string, between: set<string>, after: set<string>)
    requires between == before + {document} && Grown(w, between, after) && Complete(w, document, after)
    ensures Grown(w, before, after)
  {
    hide Complete;
  }

  lemma NothingGrown(w: World, s: set<string>)
    ensures Grown(w, s, s)
  {
  }

  /** What led into the smaller set leads into the larger one. */
  lemma GrownLeads(w: World, document: string, before: set<string>, after: set<string>)
    requires Grown(w, before, after)
    ensures before <= after
    ensures forall node, schema, entries :: PartLeads(w, document, node, schema, entries, before) ==> PartLeads(w, document, node, schema, entries, after)
    ensures forall value :: Leads(w, document, value, before) ==> Leads(w, document, value, after)
  {
    hide Follows;
  }

  lemma ItemRefers(w: World, document: string, node: Node, i: nat, schema: bool, entries: bool)
    requires node.Sequence? && i < |node.items| && PartRefers(w, document, node, schema, entries)
    ensures PartRefers(w, document, node.items[i], schema, false)
  {
    hide Refers;
  }

  lemma ItemsLead(w: World, document: string, node: Node, schema: bool, entries: bool, s: set<string>)
    requires node.Sequence? && forall i :: 0 <= i < |node.items| ==> PartLeads(w, document, node.items[i], schema, false, s)
    ensures PartLeads(w, document, node, schema, entries, s)
  {
    hide Leads;
  }

  /** The references of an entry lead into the set. */
  ghost predicate EntryLeads(w: World, document: string, e: Entry, here: bool, entries: bool, s: set<string>) {
    && (e.key == "$ref" && e.value.Scalar? ==> Leads(w, document, e.value.value, s))
    && (Descends(e.key, here, entries) ==> PartLeads(w, document, e.value, NextSchema(e.key, here, entries), NextEntries(e.key, here), s))
  }

  /** The first references of a discriminator mapping lead into the set. */
  ghost predicate MappedLead(w: World, document: string, mapped: seq<Node>, n: nat, s: set<string>) {
    forall j :: 0 <= j < n && j < |mapped| && mapped[j].Scalar? && w.marked(mapped[j].value) ==> Leads(w, document, mapped[j].value, s)
  }

  lemma MappedStart(w: World, document: string, mapped: seq<Node>, s: set<string>)
    ensures MappedLead(w, document, mapped, 0, s)
  {
  }

  lemma MappedNext(w: World, document: string, mapped: seq<Node>, n: nat, before: set<string>, after: set<string>)
    requires n < |mapped| && MappedLead(w, document, mapped, n, before) && before <= after
    requires mapped[n].Scalar? && w.marked(mapped[n].value) ==> Leads(w, document, mapped[n].value, after)
    ensures MappedLead(w, document, mapped, n + 1, after)
  {
  }

  lemma MappedFurther(w: World, document: string, mapped: seq<Node>, before: set<string>, after: set<string>)
    requires MappedLead(w, document, mapped, |mapped|, before) && before <= after
    ensures MappedLead(w, document, mapped, |mapped|, after)
  {
  }

  lemma GrownEntries(w: World, document: string, before: set<string>, after: set<string>)
    requires before <= after
    ensures forall e, here, entries :: EntryLeads(w, document, e, here, entries, before) ==> EntryLeads(w, document, e, here, entries, after)
  {
    hide Follows;
  }

  lemma MappedRefers(w: World, document: string, node: Node, i: nat, schema: bool, entries: bool)
    requires node.Mapping? && PartRefers(w, document, node, schema, entries)
    requires var mapped := Discriminated(node, SchemaHere(node, schema, entries)); i < |mapped| && mapped[i].Scalar? && w.marked(mapped[i].value)
    ensures Refers(w, document, Discriminated(node, SchemaHere(node, schema, entries))[i].value)
  {
    hide Refers, Discriminated, SchemaHere;
    var mapped := Discriminated(node, SchemaHere(node, schema, entries));
    assert mapped[i] == Scalar(mapped[i].value);
    assert OwnReference(w, mapped[i].value, node, SchemaHere(node, schema, entries));
    assert Follows(w, mapped[i].value, node, schema, entries);
  }

  lemma EntryRefers(w: World, document: string, node: Node, i: nat, schema: bool, entries: bool)
    requires node.Mapping? && i < |node.entries| && PartRefers(w, document, node, schema, entries)
    ensures var e := node.entries[i]; var here := SchemaHere(node, schema, entries);
      && (e.key == "$ref" && e.value.Scalar? ==> Refers(w, document, e.value.value))
      && (Descends(e.key, here, entries) ==> PartRefers(w, document, e.value, NextSchema(e.key, here, entries), NextEntries(e.key, here)))
  {
    hide Refers, Discriminated, SchemaHere, Descends, NextSchema, NextEntries;
    var e := node.entries[i];
    if e.key == "$ref" && e.value.Scalar? {
      assert e == Entry("$ref", Scalar(e.value.value));
      assert Follows(w, e.value.value, node, schema, entries);
    }
    forall value | FollowsIn(w, value, e, SchemaHere(node, schema, entries), entries) ensures Refers(w, document, value) {
      assert Follows(w, value, node, schema, entries);
    }
  }

  lemma NotReference(key: string, entries: bool)
    requires Skipped(key, entries)
    ensures key != "$ref"
  {
    assert key[0] == 'x';
  }

  lemma MappingLeads(w: World, document: string, node: Node, schema: bool, entries: bool, s: set<string>)
    requires node.Mapping?
    requires var mapped := Discriminated(node, SchemaHere(node, schema, entries)); MappedLead(w, document, mapped, |mapped|, s)
    requires forall i :: 0 <= i < |node.entries| ==> EntryLeads(w, document, node.entries[i], SchemaHere(node, schema, entries), entries, s)
    ensures PartLeads(w, document, node, schema, entries, s)
  {
    hide Leads, Discriminated, SchemaHere, Descends, NextSchema, NextEntries;
    var here := SchemaHere(node, schema, entries);
    forall value | Follows(w, value, node, schema, entries) ensures Leads(w, document, value, s) {
      if OwnReference(w, value, node, here) {
        if i :| 0 <= i < |node.entries| && node.entries[i] == Entry("$ref", Scalar(value)) {
          assert EntryLeads(w, document, node.entries[i], here, entries, s);
        }
      } else {
        var i :| 0 <= i < |node.entries| && FollowsIn(w, value, node.entries[i], here, entries);
        assert EntryLeads(w, document, node.entries[i], here, entries, s);
      }
    }
  }

  // ----- the result

  /** Collecting succeeds exactly when every needed document exists and all its references
      resolve; what is collected then is the least closed set that contains the root,
      whatever the order of the traversal. */
  method CollectSourceClosure(w: World) returns (result: Result<map<string, Node>, Failure>)
    requires w.root in w.documents
    ensures result.Ok? <==> Collectable(w)
    ensures result.Ok? ==> w.root in result.value && ClosedSet(w, result.value.Keys)
    ensures result.Ok? ==> forall s :: ClosedSet(w, s) && w.root in s ==> result.value.Keys <= s
    ensures result.Ok? ==> forall document :: document in result.value ==> document in w.documents && result.value[document] == w.documents[document]
    ensures result.Err? ==> Explains(w, result.error)
  {
    hide Needed, Explains, Collectable, ClosedSet, Refers, Complete;
    RootNeeded(w);
    var collector := new Collector(w);
    var failure := collector.Visit(w.root, w.documents[w.root]);
    if failure.Some? {
      NotCollectable(w, failure.value);
      return Err(failure.value);
    }
    CollectedIsLeast(w, collector.documents.Keys);
    return Ok(collector.documents);
  }

  lemma RootNeeded(w: World)
    ensures Needed(w, w.root)
  {
  }

  lemma NotCollectable(w: World, failure: Failure)
    requires Explains(w, failure)
    ensures !Collectable(w)
  {
    hide Needed, Follows;
  }

  lemma CollectedIsLeast(w: World, s: set<string>)
    requires w.root in s && forall document :: document in s ==> Needed(w, document) && Complete(w, document, s)
    ensures ClosedSet(w, s) && Collectable(w)
    ensures forall other :: ClosedSet(w, other) && w.root in other ==> s <= other
  {
    hide Follows;
    assert ClosedSet(w, s);
  }
}
