/** YAML trees as the OpenAPI compiler sees them: ordered mappings (duplicate keys
    possible, the first one wins on lookup), sequences, and scalars. A scalar is
    either a URI reference, already split into its document and its fragment, or a
    text that is no URI reference. */
module Yaml {
  import opened Wrappers

  datatype Fragment = Whole | Pointer(tokens: seq<string>) | Anchor(name: string)

  datatype Value = Text(text: string) | Uri(document: Option<string>, fragment: Fragment)

  datatype Node =
    | Scalar(value: Value)
    | Mapping(entries: seq<Entry>)
    | Sequence(items: seq<Node>)

  datatype Entry = Entry(key: string, value: Node)

  /** The position of the first entry with this key, or the length when there is none. */
  function IndexOf(entries: seq<Entry>, key: string): (i: nat)
    ensures i <= |entries|
    ensures i < |entries| ==> entries[i].key == key
    ensures forall j :: 0 <= j < i ==> entries[j].key != key
  {
    if entries == [] then 0
    else if entries[0].key == key then 0
    else 1 + IndexOf(entries[1..], key)
  }

  function MappingValue(node: Node, key: string): Option<Node> {
    if !node.Mapping? then None
    else
      var i := IndexOf(node.entries, key);
      if i < |node.entries| then Some(node.entries[i].value) else None
  }

  function SetEntry(entries: seq<Entry>, key: string, value: Node): seq<Entry> {
    var i := IndexOf(entries, key);
    if i < |entries| then entries[i := Entry(entries[i].key, value)] else entries + [Entry(key, value)]
  }

  /** Go appends the new key and value to the node's children whatever its kind is:
      a sequence gains two items, and a scalar is serialized without its children. */
  function SetMappingValue(node: Node, key: string, value: Node): Node {
    match node
    case Mapping(entries) => Mapping(SetEntry(entries, key, value))
    case Sequence(items) => Sequence(items + [Scalar(Text(key)), value])
    case Scalar(_) => node
  }

  lemma IndexOfUnique(entries: seq<Entry>, key: string, i: nat)
    requires i <= |entries|
    requires i < |entries| ==> entries[i].key == key
    requires forall j :: 0 <= j < i ==> entries[j].key != key
    ensures IndexOf(entries, key) == i
  {
  }

  lemma SetThenGet(node: Node, key: string, value: Node, other: string)
    requires node.Mapping?
    ensures MappingValue(SetMappingValue(node, key, value), other)
         == if other == key then Some(value) else MappingValue(node, other)
  {
    var before := node.entries;
    var after := SetEntry(before, key, value);
    if other == key {
      IndexOfUnique(after, other, IndexOf(before, key));
    } else if IndexOf(before, other) < |before| {
      IndexOfUnique(after, other, IndexOf(before, other));
    } else {
      IndexOfUnique(after, other, |after|);
    }
  }

  /** Setting a key keeps all entries in their places; a new key comes last. */
  lemma SetKeepsOrder(node: Node, key: string, value: Node)
    requires node.Mapping?
    ensures var before, after := node.entries, SetMappingValue(node, key, value);
      && after.Mapping?
      && |after.entries| == (if MappingValue(node, key).Some? then |before| else |before| + 1)
      && (forall i :: 0 <= i < |before| ==> after.entries[i].key == before[i].key)
      && (forall i :: 0 <= i < |before| && (before[i].key != key || exists j :: 0 <= j < i && before[j].key == key) ==> after.entries[i] == before[i])
      && (MappingValue(node, key).None? ==> after.entries[|before|] == Entry(key, value))
  {
  }
}
