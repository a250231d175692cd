/** Local references: a document, and a JSON Pointer (RFC 6901, section 4) into it. */
module References {
  import opened Wrappers
  import opened Yaml

  /** A set of documents with a root. How a document name is resolved against the
      document that mentions it is left open. */
  datatype Sources = Sources(
    documents: map<string, Node>,
    root: string,
    resolve: (string, string) -> Option<string>)

  datatype Locator = Locator(document: string, fragment: Fragment)

  datatype Failure =
    | BadReference
    | OutsideClosure
    | NamedAnchor
    | MissingTarget
    | Circular
    | Siblings
    | Limits
    | RootNotObject

  // ----- JSON Pointer

  /** Every occurrence of '~' followed by `code` becomes `plain`. */
  function ReplaceEscape(token: string, code: char, plain: char): string {
    if |token| < 2 then token
    else if token[0] == '~' && token[1] == code then [plain] + ReplaceEscape(token[2..], code, plain)
    else [token[0]] + ReplaceEscape(token[1..], code, plain)
  }

  function Unescape(token: string): string {
    ReplaceEscape(ReplaceEscape(token, '1', '/'), '0', '~')
  }

  function DecimalValue(digits: string): Option<nat> {
    if digits == [] then Some(0)
    else
      var last := digits[|digits| - 1];
      var front := DecimalValue(digits[..|digits| - 1]);
      if front.None? || !('0' <= last <= '9') then None
      else Some(10 * front.value + (last as int - '0' as int))
  }

  /** The index a sequence key denotes: decimal digits with an optional sign. */
  function Index(key: string): Option<int> {
    var signed := key != [] && (key[0] == '+' || key[0] == '-');
    var digits := if signed then key[1..] else key;
    if digits == [] then None
    else
      match DecimalValue(digits)
      case None => None
      case Some(n) => Some(if signed && key[0] == '-' then 0 - n else n + 0)
  }

  function PointerValue(node: Node, key: string): Option<Node> {
    if node.Sequence? then
      var index := Index(key);
      if index.Some? && 0 <= index.value < |node.items| then Some(node.items[index.value]) else None
    else MappingValue(node, key)
  }

  function Walk(node: Node, tokens: seq<string>): Option<Node> {
    if tokens == [] then Some(node)
    else
      match PointerValue(node, Unescape(tokens[0]))
      case None => None
      case Some(child) => Walk(child, tokens[1..])
  }

  // ----- locating a reference

  function Locate(s: Sources, origin: string, uri: Value): Result<(Locator, Node), Failure> {
    if uri.Text? then Err(BadReference)
    else
      match (if uri.document.None? then Some(origin) else s.resolve(origin, uri.document.value))
      case None => Err(BadReference)
      case Some(document) =>
        if document !in s.documents then Err(OutsideClosure)
        else
          match uri.fragment
          case Whole => Ok((Locator(document, Whole), s.documents[document]))
          case Anchor(_) => Err(NamedAnchor)
          case Pointer(tokens) =>
            match Walk(s.documents[document], tokens)
            case None => Err(MissingTarget)
            case Some(node) => Ok((Locator(document, uri.fragment), node))
  }

  /** The node a locator names. */
  function Target(s: Sources, at: Locator): Option<Node> {
    if at.document !in s.documents then None
    else
      match at.fragment
      case Whole => Some(s.documents[at.document])
      case Anchor(_) => None
      case Pointer(tokens) => Walk(s.documents[at.document], tokens)
  }

  // ----- the finite universe of locators

  ghost function FragmentsOf(node: Node): set<Fragment> {
    match node
    case Scalar(Text(_)) => {}
    case Scalar(Uri(_, fragment)) => {fragment}
    case Mapping(entries) => set i, f | 0 <= i < |entries| && f in FragmentsOf(entries[i].value) :: f
    case Sequence(items) => set i, f | 0 <= i < |items| && f in FragmentsOf(items[i]) :: f
  }

  ghost function Fragments(s: Sources): set<Fragment> {
    set d, f | d in s.documents && f in FragmentsOf(s.documents[d]) :: f
  }

  /** Every locator a reference of these documents can denote. */
  ghost function Universe(s: Sources): set<Locator> {
    set d, f | d in s.documents && f in Fragments(s) :: Locator(d, f)
  }

  /** The node belongs to the documents: it mentions no fragment they do not. */
  ghost predicate Known(s: Sources, node: Node) {
    FragmentsOf(node) <= Fragments(s)
  }

  lemma {:induction false} WalkStaysKnown(s: Sources, node: Node, tokens: seq<string>)
    requires Known(s, node)
    ensures Walk(node, tokens).Some? ==> Known(s, Walk(node, tokens).value)
    decreases tokens
  {
    if tokens != [] && PointerValue(node, Unescape(tokens[0])).Some? {
      var child := PointerValue(node, Unescape(tokens[0])).value;
      ChildKnown(s, node, child);
      WalkStaysKnown(s, child, tokens[1..]);
    }
  }

  ghost predicate IsChild(node: Node, child: Node) {
    match node
    case Scalar(_) => false
    case Mapping(entries) => exists i :: 0 <= i < |entries| && entries[i].value == child
    case Sequence(items) => child in items
  }

  lemma ChildKnown(s: Sources, node: Node, child: Node)
    requires Known(s, node) && IsChild(node, child)
    ensures Known(s, child)
  {
    forall f | f in FragmentsOf(child) ensures f in FragmentsOf(node) {
      if node.Mapping? {
        var i :| 0 <= i < |node.entries| && node.entries[i].value == child;
        assert f in FragmentsOf(node.entries[i].value);
      } else {
        var i :| 0 <= i < |node.items| && node.items[i] == child;
        assert f in FragmentsOf(node.items[i]);
      }
    }
  }

  lemma DocumentKnown(s: Sources, document: string)
    requires document in s.documents
    ensures Known(s, s.documents[document])
  {
  }

  /** What a reference locates lies in the universe, and is what its locator names. */
  lemma Located(s: Sources, origin: string, uri: Value)
    requires uri.Uri? ==> uri.fragment in Fragments(s)
    ensures var found := Locate(s, origin, uri);
      found.Ok? ==>
        && found.value.0 in Universe(s)
        && Target(s, found.value.0) == Some(found.value.1)
        && Known(s, found.value.1)
  {
    var found := Locate(s, origin, uri);
    if found.Ok? {
      var document := found.value.0.document;
      DocumentKnown(s, document);
      if uri.fragment.Pointer? {
        WalkStaysKnown(s, s.documents[document], uri.fragment.tokens);
      }
    }
  }
}
