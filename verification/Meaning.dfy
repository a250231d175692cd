/** What a set of documents means, independently of how it is bundled: the tree that is
    seen when references are followed, cut after `k` of them. */
module Meaning {
  import opened Wrappers
  import opened Yaml
  import opened References
  import opened Pointers
  import opened Normalization

  /** How a node is read: as a schema or not, and whether its entries are named schemas. */
  datatype Mode = Mode(schema: bool, entries: bool)

  const PLAIN := Mode(false, false)
  const SCHEMA := Mode(true, false)

  /** Keywords of schemas whose values are data, and those whose values are schemas by name. */
  const DATA_KEYWORDS: set<string> := {"default", "const", "enum", "example", "examples"}
  const CATALOGUE_KEYWORDS: set<string> := {"properties", "patternProperties", "$defs", "definitions"}

  /** Specification extensions start with "x-". */
  predicate IsExtension(key: string) {
    |key| >= 2 && key[0] == 'x' && key[1] == '-'
  }

  /** How the value of an entry is read; none when it is data. Every named entry of a
      catalogue is a schema, whatever its name. */
  function Step(mode: Mode, key: string): Option<Mode> {
    if mode.entries then Some(SCHEMA)
    else if IsExtension(key) || (mode.schema && key in DATA_KEYWORDS) then None
    else if mode.schema then Some(Mode(true, key in CATALOGUE_KEYWORDS))
    else if key in {"schema", "itemSchema"} then Some(SCHEMA)
    else Some(Mode(false, key == "schemas"))
  }

  /** The reference is about another document than the root, or stands in another one. */
  predicate Foreign(s: Sources, origin: string, uri: Value) {
    !(origin == s.root && uri.Uri? && uri.document == None)
  }

  /** The declaration a pointer names: the node and how it is read there. A declaration is
      reached without passing through a reference or through data. */
  function Position(node: Node, mode: Mode, tokens: seq<string>): Option<(Node, Mode)>
    decreases tokens
  {
    if tokens == [] then Some((node, mode))
    else
      var key := Unescape(tokens[0]);
      match node
      case Scalar(_) => None
      case Sequence(items) =>
        var index := Index(key);
        if index.Some? && 0 <= index.value < |items| then
          Position(items[index.value], Mode(mode.schema, false), tokens[1..])
        else None
      case Mapping(_) =>
        var child := MappingValue(node, key);
        if RefOf(node).Some? || Step(mode, key).None? || child.None? then None
        else Position(child.value, Step(mode, key).value, tokens[1..])
  }

  function FragmentPosition(s: Sources, fragment: Fragment): Option<(Node, Mode)> {
    if s.root !in s.documents || fragment.Anchor? then None
    else Position(s.documents[s.root], PLAIN, if fragment.Whole? then [] else fragment.tokens)
  }

  datatype Tree =
    | Leaf(value: Value)
    | Object(fields: seq<Field>)
    | Array(items: seq<Tree>)
    | Cut
    | Broken

  datatype Field = Field(key: string, tree: Tree)

  function FieldIndex(fields: seq<Field>, key: string): (i: nat)
    ensures i <= |fields|
    ensures i < |fields| ==> fields[i].key == key
    ensures forall j :: 0 <= j < i ==> fields[j].key != key
  {
    if fields == [] || fields[0].key == key then 0 else 1 + FieldIndex(fields[1..], key)
  }

  /** An annotation beside a reference takes the place of the target's own. */
  function SetField(tree: Tree, key: string, value: Tree): Tree {
    match tree
    case Object(fields) =>
      var i := FieldIndex(fields, key);
      Object(if i < |fields| then fields[i := Field(key, value)] else fields + [Field(key, value)])
    case Cut => Cut
    case _ => Broken
  }

  function Quote(node: Node): Tree {
    match node
    case Scalar(value) => Leaf(value)
    case Mapping(es) => Object(seq(|es|, i requires 0 <= i < |es| => Field(es[i].key, Quote(es[i].value))))
    case Sequence(items) => Array(seq(|items|, i requires 0 <= i < |items| => Quote(items[i])))
  }

  /** A schema reference stays visible, as a field leading to its target. Elsewhere a
      reference stands for its target. Following a schema reference, or one that stays
      in the root document, uses up one of the `k` steps; following one that leaves it
      is free, so `active` guards against going round in circles. */
  ghost function Unfold(s: Sources, k: nat, active: set<Locator>, origin: string, node: Node, mode: Mode): Tree
    decreases k, if mode.schema then 1 else 2, Universe(s) - active, node, 1
  {
    match node
    case Scalar(value) => Leaf(value)
    case Sequence(items) =>
      Array(seq(|items|, i requires 0 <= i < |items| =>
        Unfold(s, k, active, origin, items[i], Mode(mode.schema, false))))
    case Mapping(es) =>
      var reference := RefOf(node);
      if reference.Some? && !mode.schema then
        Override(s, k, active, origin, mode,
          if Foreign(s, origin, reference.value) then UnfoldInlined(s, k, active, origin, node, reference.value)
          else UnfoldDeclared(s, k, reference.value),
          es)
      else
        Object(seq(|es|, i requires 0 <= i < |es| =>
          Field(es[i].key, UnfoldField(s, k, active, origin, mode, reference, es[i]))))
  }

  ghost function UnfoldField(s: Sources, k: nat, active: set<Locator>, origin: string, mode: Mode, reference: Option<Value>, e: Entry): Tree
    decreases k, if mode.schema then 1 else 2, Universe(s) - active, e.value, 3
  {
    if reference.Some? && e.key == "$ref" then UnfoldTarget(s, k, origin, reference.value)
    else UnfoldChild(s, k, active, origin, mode, e)
  }

  ghost function UnfoldChild(s: Sources, k: nat, active: set<Locator>, origin: string, mode: Mode, e: Entry): Tree
    decreases k, if mode.schema then 1 else 2, Universe(s) - active, e.value, 2
  {
    match Step(mode, e.key)
    case None => Quote(e.value)
    case Some(next) => Unfold(s, k, if next.schema && !mode.schema then {} else active, origin, e.value, next)
  }

  /** The target of a schema reference. */
  ghost function UnfoldTarget(s: Sources, k: nat, origin: string, uri: Value): Tree
    decreases k, 0
  {
    match Named(s, origin, uri)
    case None => Broken
    case Some((at, target)) => if k == 0 then Cut else Unfold(s, k - 1, {}, at.document, target, SCHEMA)
  }

  /** The declaration that a reference within the root document names. */
  ghost function UnfoldDeclared(s: Sources, k: nat, uri: Value): Tree
    decreases k, 0
  {
    if uri.Text? then Broken
    else
      match FragmentPosition(s, uri.fragment)
      case None => Broken
      case Some((node, mode)) => if k == 0 then Cut else Unfold(s, k - 1, {}, s.root, node, mode)
  }

  ghost function UnfoldInlined(s: Sources, k: nat, active: set<Locator>, origin: string, node: Node, uri: Value): Tree
    decreases k, 2, Universe(s) - active, node, 0
  {
    match Named(s, origin, uri)
    case None => Broken
    case Some((at, target)) =>
      if at in active || at !in Universe(s) then Broken
      else Unfold(s, k, active + {at}, at.document, target, PLAIN)
  }

  ghost function Override(s: Sources, k: nat, active: set<Locator>, origin: string, mode: Mode, base: Tree, es: seq<Entry>): Tree
    decreases k, if mode.schema then 1 else 2, Universe(s) - active, es
  {
    if es == [] then base
    else
      var last := es[|es| - 1];
      var below := Override(s, k, active, origin, mode, base, es[..|es| - 1]);
      if last.key == "$ref" then below
      else SetField(below, last.key, UnfoldChild(s, k, active, origin, mode, last))
  }
}
