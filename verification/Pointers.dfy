/** What a reference names, as a relation: the document it is resolved against, and the node
    its JSON Pointer leads to (RFC 6901, section 4). Looking references up agrees with it. */
module Pointers {
  import opened Wrappers
  import opened Yaml
  import opened References
  import opened Normalization

  // ----- tokens

  /** The key that a token stands for, its escapes read from left to right. */
  ghost predicate Spells(token: string, key: string)
    decreases |token|
  {
    if token == [] then key == []
    else if |token| >= 2 && token[0] == '~' && token[1] == '0' then key != [] && key[0] == '~' && Spells(token[2..], key[1..])
    else if |token| >= 2 && token[0] == '~' && token[1] == '1' then key != [] && key[0] == '/' && Spells(token[2..], key[1..])
    else key != [] && key[0] == token[0] && Spells(token[1..], key[1..])
  }

  lemma ReplaceFirst(token: string, code: char, plain: char)
    requires token != []
    ensures |token| >= 2 && token[0] == '~' && token[1] == code ==>
      ReplaceEscape(token, code, plain) == [plain] + ReplaceEscape(token[2..], code, plain)
    ensures !(|token| >= 2 && token[0] == '~' && token[1] == code) ==>
      ReplaceEscape(token, code, plain) == [token[0]] + ReplaceEscape(token[1..], code, plain)
  {
  }

  /** Replacing one escape after the other is reading them from left to right. */
  lemma UnescapeFirst(token: string)
    requires token != []
    ensures |token| >= 2 && token[0] == '~' && token[1] == '0' ==> Unescape(token) == "~" + Unescape(token[2..])
    ensures |token| >= 2 && token[0] == '~' && token[1] == '1' ==> Unescape(token) == "/" + Unescape(token[2..])
    ensures !(|token| >= 2 && token[0] == '~' && (token[1] == '0' || token[1] == '1')) ==> Unescape(token) == [token[0]] + Unescape(token[1..])
  {
    hide ReplaceEscape;
    var once := ReplaceEscape(token, '1', '/');
    ReplaceFirst(token, '1', '/');
    ReplaceFirst(once, '0', '~');
    if |token| >= 2 {
      ReplaceFirst(token[1..], '1', '/');
      assert token[1..][1..] == token[2..];
    } else {
      NothingReplaced('1', '/');
      NothingReplaced('0', '~');
    }
    if |token| >= 2 && token[0] == '~' && token[1] == '0' {
      assert once == ['~'] + (['0'] + ReplaceEscape(token[2..], '1', '/'));
      assert once[2..] == ReplaceEscape(token[2..], '1', '/');
    } else {
      assert once[1..] == ReplaceEscape(if |token| >= 2 && token[0] == '~' && token[1] == '1' then token[2..] else token[1..], '1', '/');
    }
  }

  lemma NothingReplaced(code: char, plain: char)
    ensures ReplaceEscape([], code, plain) == []
  {
  }

  lemma {:induction false} UnescapeExactly(token: string, key: string)
    ensures Spells(token, key) <==> key == Unescape(token)
    decreases |token|
  {
    hide Unescape;
    if token == [] {
      EmptyToken();
    } else {
      UnescapeFirst(token);
      var rest := if |token| >= 2 && token[0] == '~' && (token[1] == '0' || token[1] == '1') then token[2..] else token[1..];
      if key != [] {
        UnescapeExactly(rest, key[1..]);
        assert key == [key[0]] + key[1..];
      }
      assert forall c: char :: key == [c] + Unescape(rest) ==> key[1..] == Unescape(rest);
    }
  }

  lemma EmptyToken()
    ensures Unescape([]) == []
  {
  }

  // ----- indices

  function Digits(i: nat): string {
    if i < 10 then ["0123456789"[i]] else Digits(i / 10) + ["0123456789"[i % 10]]
  }

  function Zeros(n: nat): string {
    if n == 0 then [] else Zeros(n - 1) + ['0']
  }

  /** A number, perhaps with leading zeros and a sign. */
  ghost predicate Writes(key: string, i: nat) {
    exists sign, zeros :: Numeral(key, sign, zeros, i)
  }

  ghost predicate Numeral(key: string, sign: string, zeros: nat, i: nat) {
    key == sign + Zeros(zeros) + Digits(i) && (sign == "" || sign == "+" || (sign == "-" && i == 0))
  }

  lemma {:induction false} DigitsAreDecimal(zeros: nat, i: nat)
    ensures DecimalValue(Zeros(zeros) + Digits(i)) == Some(i)
    decreases i
  {
    hide DecimalValue;
    var last := "0123456789"[i % 10];
    if i < 10 {
      ZerosAreZero(zeros);
      DecimalNext(Zeros(zeros), last);
    } else {
      DigitsAreDecimal(zeros, i / 10);
      DecimalNext(Zeros(zeros) + Digits(i / 10), last);
      assert Zeros(zeros) + Digits(i) == Zeros(zeros) + Digits(i / 10) + [last];
    }
  }

  lemma DecimalNext(front: string, last: char)
    requires DecimalValue(front).Some? && '0' <= last <= '9'
    ensures DecimalValue(front + [last]) == Some(10 * DecimalValue(front).value + (last as int - '0' as int))
  {
    assert (front + [last])[..|front|] == front;
  }

  lemma ZerosAreZero(n: nat)
    ensures DecimalValue(Zeros(n)) == Some(0)
  {
    if n > 0 {
      assert Zeros(n)[..n - 1 + |Zeros(n)| - n] == Zeros(n - 1);
    }
  }

  lemma DigitsAppend(m: nat, d: nat)
    requires d < 10
    ensures m > 0 ==> Digits(10 * m + d) == Digits(m) + ["0123456789"[d]]
    ensures Digits(d) == ["0123456789"[d]]
  {
    assert (10 * m + d) / 10 == m && (10 * m + d) % 10 == d;
  }

  lemma DecimalLast(front: string, last: char)
    requires DecimalValue(front + [last]).Some?
    ensures DecimalValue(front).Some? && '0' <= last <= '9'
    ensures DecimalValue(front + [last]).value == 10 * DecimalValue(front).value + (last as int - '0' as int)
    ensures "0123456789"[last as int - '0' as int] == last
  {
    assert (front + [last])[..|front|] == front;
  }

  lemma {:induction false} DecimalIsWritten(digits: string) returns (zeros: nat)
    requires digits != [] && DecimalValue(digits).Some?
    ensures digits == Zeros(zeros) + Digits(DecimalValue(digits).value)
    decreases |digits|
  {
    hide DecimalValue, Digits;
    var front, last := digits[..|digits| - 1], digits[|digits| - 1];
    assert digits == front + [last];
    DecimalLast(front, last);
    var m, d := DecimalValue(front).value, last as int - '0' as int;
    DigitsAppend(m, d);
    zeros := 0;
    if front == [] {
      NoDigits();
    } else {
      zeros := DecimalIsWritten(front);
      if m == 0 {
        DigitsAppend(0, 0);
        assert Zeros(zeros + 1) == Zeros(zeros) + ['0'];
        zeros := zeros + 1;
      } else {
        assert Zeros(zeros) + Digits(m) + [last] == Zeros(zeros) + (Digits(m) + [last]);
      }
    }
  }

  lemma NoDigits()
    ensures DecimalValue([]) == Some(0)
  {
  }

  lemma FirstIsDigit(zeros: nat, i: nat)
    ensures Zeros(zeros) + Digits(i) != [] && '0' <= (Zeros(zeros) + Digits(i))[0] <= '9'
  {
    if zeros > 1 {
      FirstIsDigit(zeros - 1, i);
    } else if i >= 10 {
      FirstIsDigit(zeros, i / 10);
    }
  }

  lemma IndexIsWritten(key: string, i: nat)
    requires Index(key) == Some(i)
    ensures Writes(key, i)
  {
    hide DecimalValue, Digits, Zeros;
    var signed := key[0] == '+' || key[0] == '-';
    var digits := if signed then key[1..] else key;
    var zeros := DecimalIsWritten(digits);
    var sign := if signed then [key[0]] else "";
    assert key == sign + digits;
    Parenthesized(sign, Zeros(zeros), Digits(i));
    assert Numeral(key, sign, zeros, i);
  }

  lemma Parenthesized(a: string, b: string, c: string)
    ensures a + (b + c) == a + b + c
  {
  }

  /** Without a sign the first character is a digit. */
  lemma UnsignedIndex(digits: string)
    requires digits != [] && '0' <= digits[0] <= '9'
    ensures Index(digits) == DecimalValue(digits)
  {
    hide DecimalValue;
  }

  lemma SignedIndex(sign: string, digits: string)
    requires digits != [] && DecimalValue(digits).Some?
    ensures sign == "+" ==> Index(sign + digits) == DecimalValue(digits)
    ensures sign == "-" ==> Index(sign + digits) == Some(0 - DecimalValue(digits).value)
  {
    hide DecimalValue;
    assert |sign| == 1 ==> (sign + digits)[1..] == digits;
  }

  lemma NumeralIsIndex(key: string, sign: string, zeros: nat, i: nat)
    requires Numeral(key, sign, zeros, i)
    ensures Index(key) == Some(i)
  {
    hide Index, DecimalValue, Digits, Zeros;
    var digits := Zeros(zeros) + Digits(i);
    Parenthesized(sign, Zeros(zeros), Digits(i));
    DigitsAreDecimal(zeros, i);
    FirstIsDigit(zeros, i);
    if sign == "" {
      assert key == digits;
      UnsignedIndex(digits);
    } else {
      SignedIndex(sign, digits);
    }
  }

  lemma IndexExactly(key: string, i: nat)
    ensures Index(key) == Some(i) <==> Writes(key, i)
  {
    hide Index, Numeral;
    if Index(key) == Some(i) {
      IndexIsWritten(key, i);
    }
    if sign, zeros: nat :| Numeral(key, sign, zeros, i) {
      NumeralIsIndex(key, sign, zeros, i);
    }
  }

  // ----- pointers

  /** One step into a node: the item with this index, or the first entry with this key. */
  ghost predicate Enters(node: Node, key: string, child: Node) {
    match node
    case Scalar(_) => false
    case Sequence(items) => exists i: nat :: i < |items| && Writes(key, i) && items[i] == child
    case Mapping(es) => exists i :: IsFirst(es, key, i) && es[i].value == child
  }

  ghost predicate IsFirst(es: seq<Entry>, key: string, i: int) {
    0 <= i < |es| && es[i].key == key && forall j :: 0 <= j < i ==> es[j].key != key
  }

  ghost predicate Leads(node: Node, tokens: seq<string>, target: Node) {
    if tokens == [] then target == node
    else exists key, child :: Spells(tokens[0], key) && Enters(node, key, child) && Leads(child, tokens[1..], target)
  }

  lemma MappingValueExactly(node: Node, key: string, child: Node)
    ensures MappingValue(node, key) == Some(child) <==> node.Mapping? && exists i :: IsFirst(node.entries, key, i) && node.entries[i].value == child
  {
    if node.Mapping? {
      var i := IndexOf(node.entries, key);
      if i < |node.entries| {
        assert IsFirst(node.entries, key, i);
      }
    }
  }

  lemma EntersExactly(node: Node, key: string, child: Node)
    ensures PointerValue(node, key) == Some(child) <==> Enters(node, key, child)
  {
    hide Index, Writes, MappingValue;
    MappingValueExactly(node, key, child);
    if node.Sequence? {
      forall i: nat ensures Index(key) == Some(i) <==> Writes(key, i) {
        IndexExactly(key, i);
      }
    }
  }

  lemma {:induction false} WalkExactly(node: Node, tokens: seq<string>, target: Node)
    ensures Walk(node, tokens) == Some(target) <==> Leads(node, tokens, target)
    decreases |tokens|
  {
    hide PointerValue, Enters, Unescape, Spells;
    if tokens != [] {
      var key := Unescape(tokens[0]);
      forall other ensures Spells(tokens[0], other) <==> other == key {
        UnescapeExactly(tokens[0], other);
      }
      forall child ensures PointerValue(node, key) == Some(child) <==> Enters(node, key, child) {
        EntersExactly(node, key, child);
      }
      if PointerValue(node, key).Some? {
        WalkExactly(PointerValue(node, key).value, tokens[1..], target);
      }
    }
  }

  // ----- references

  /** The document a reference is about: the one it stands in unless it names another. */
  ghost predicate About(s: Sources, origin: string, uri: Value, document: string) {
    && uri.Uri?
    && match uri.document
       case None => document == origin
       case Some(name) => s.resolve(origin, name) == Some(document)
  }

  /** This reference, found in this document, names this node of that document. */
  ghost predicate Denotes(s: Sources, origin: string, uri: Value, at: Locator, node: Node) {
    && About(s, origin, uri, at.document)
    && at.document in s.documents
    && at.fragment == uri.fragment
    && match uri.fragment
       case Whole => node == s.documents[at.document]
       case Pointer(tokens) => Leads(s.documents[at.document], tokens, node)
       case Anchor(_) => false
  }

  /** Looking a reference up finds exactly what it names. */
  lemma LocateExactly(s: Sources, origin: string, uri: Value, at: Locator, node: Node)
    ensures Locate(s, origin, uri) == Ok((at, node)) <==> Denotes(s, origin, uri, at, node)
  {
    hide Walk, Leads;
    if uri.Uri? && uri.fragment.Pointer? && at.document in s.documents {
      WalkExactly(s.documents[at.document], uri.fragment.tokens, node);
    }
  }

  /** A failure says what is missing, and then the reference names nothing. */
  lemma LocateFails(s: Sources, origin: string, uri: Value)
    requires Locate(s, origin, uri).Err?
    ensures forall at, node :: !Denotes(s, origin, uri, at, node)
    ensures
      match Locate(s, origin, uri).error
      case BadReference => uri.Text? || forall document :: !About(s, origin, uri, document)
      case OutsideClosure => exists document :: About(s, origin, uri, document) && document !in s.documents
      case NamedAnchor => uri.Uri? && uri.fragment.Anchor? && exists document :: About(s, origin, uri, document) && document in s.documents
      case MissingTarget =>
        && uri.Uri? && uri.fragment.Pointer?
        && exists document :: (About(s, origin, uri, document) && document in s.documents
          && forall node :: !Leads(s.documents[document], uri.fragment.tokens, node))
      case _ => false
  {
    hide Walk, Leads;
    forall at, node ensures !Denotes(s, origin, uri, at, node) {
      LocateExactly(s, origin, uri, at, node);
    }
    if uri.Uri? && (uri.document.None? || s.resolve(origin, uri.document.value).Some?) {
      var document := if uri.document.None? then origin else s.resolve(origin, uri.document.value).value;
      assert About(s, origin, uri, document);
      if document in s.documents && uri.fragment.Pointer? {
        forall node ensures !Leads(s.documents[document], uri.fragment.tokens, node) {
          WalkExactly(s.documents[document], uri.fragment.tokens, node);
        }
      }
    }
  }

  /** What a reference names, if it names anything. */
  ghost function Named(s: Sources, origin: string, uri: Value): Option<(Locator, Node)> {
    if exists at, node :: Denotes(s, origin, uri, at, node) then
      var at, node :| Denotes(s, origin, uri, at, node);
      Some((at, node))
    else None
  }

  lemma NamedExactly(s: Sources, origin: string, uri: Value)
    ensures Named(s, origin, uri) == match Locate(s, origin, uri) case Ok(found) => Some(found) case Err(_) => None
  {
    hide Locate, Denotes;
    if exists at, node :: Denotes(s, origin, uri, at, node) {
      var at, node :| Denotes(s, origin, uri, at, node) && Named(s, origin, uri) == Some((at, node));
      LocateExactly(s, origin, uri, at, node);
    } else if Locate(s, origin, uri).Ok? {
      LocateExactly(s, origin, uri, Locate(s, origin, uri).value.0, Locate(s, origin, uri).value.1);
    }
  }

  // ----- references of nodes

  /** The reference of a node is its first `$ref` entry, when that is a scalar. */
  lemma ReferenceExactly(node: Node, uri: Value)
    ensures RefOf(node) == Some(uri) <==> node.Mapping? && exists i :: IsFirst(node.entries, "$ref", i) && node.entries[i].value == Scalar(uri)
  {
    MappingValueExactly(node, "$ref", Scalar(uri));
  }

  /** A reference is kept only if it stands in the root and names no document; in a schema
      only if, moreover, it names a component schema. */
  lemma KeptExactly(s: Sources, isSchema: bool, origin: string, node: Node, uri: Value)
    requires RefOf(node) == Some(uri)
    ensures KeepsReference(s, isSchema, origin, node) <==>
      && origin == s.root && uri.Uri? && uri.document == None
      && (isSchema ==> exists name :: uri.fragment == Pointer(["components", "schemas", name]))
  {
    if uri.Uri? && DirectSchemaFragment(uri.fragment) {
      var tokens := uri.fragment.tokens;
      assert tokens == tokens[..2] + [tokens[2]];
      assert uri.fragment == Pointer(["components", "schemas", tokens[2]]);
    }
  }
}
