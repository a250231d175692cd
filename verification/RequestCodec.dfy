/** Building a request from arguments, and reading the arguments back from its target. */
module RequestCodec {
  import opened Wrappers
  import opened Texts

  // ----- percent-encoding (RFC 3986, sections 2.1 and 2.3)

  predicate Unreserved(c: Byte) {
    'A' <= c <= 'Z' || 'a' <= c <= 'z' || '0' <= c <= '9' || c == '-' || c == '.' || c == '_' || c == '~'
  }

  function HexDigit(value: nat): Byte
    requires value < 16
  {
    "0123456789ABCDEF"[value]
  }

  function HexValue(c: Byte): Option<nat> {
    if '0' <= c <= '9' then Some(c as int - '0' as int)
    else if 'a' <= c <= 'f' then Some(c as int - 'a' as int + 10)
    else if 'A' <= c <= 'F' then Some(c as int - 'A' as int + 10)
    else None
  }

  function EncodeByte(c: Byte): Text {
    if Unreserved(c) then [c] else ['%', HexDigit(c as int / 16), HexDigit(c as int % 16)]
  }

  function Encode(text: Text): Text {
    if text == [] then [] else EncodeByte(text[0]) + Encode(text[1..])
  }

  /** An escape that is cut off or malformed stands for itself. */
  function Escaped(text: Text): Option<Byte> {
    if |text| > 2 && text[0] == '%' && HexValue(text[1]).Some? && HexValue(text[2]).Some? then
      Some((HexValue(text[1]).value * 16 + HexValue(text[2]).value) as char)
    else None
  }

  /** The first decoded byte, and how many bytes it is written with. */
  function First(text: Text): (Byte, nat)
    requires text != []
    ensures 1 <= First(text).1 <= |text|
  {
    if text[0] == '+' then (' ', 1)
    else if Escaped(text).Some? then (Escaped(text).value, 3)
    else (text[0], 1)
  }

  function Decode(text: Text): Text
    decreases |text|
  {
    if text == [] then [] else [First(text).0] + Decode(text[First(text).1..])
  }

  method PercentEncode(value: Text) returns (encoded: Text)
    ensures encoded == Encode(value)
    ensures Decode(encoded) == value
  {
    hide Encode, Decode;
    encoded := [];
    EncodeNothing();
    assert value[0..] == value && value[|value|..] == [];
    for i := 0 to |value|
      invariant encoded + Encode(value[i..]) == Encode(value)
    {
      var c := value[i];
      ghost var before := encoded;
      if Unreserved(c) {
        encoded := encoded + [c];
      } else {
        encoded := encoded + ['%', HexDigit(c as int / 16), HexDigit(c as int % 16)];
      }
      assert encoded == before + EncodeByte(c);
      EncodeFirst(value, i, before);
    }
    DecodeEncode(value);
  }

  lemma EncodeNothing()
    ensures Encode([]) == []
  {
  }

  lemma EncodeFirst(value: Text, i: nat, before: Text)
    requires i < |value|
    ensures before + EncodeByte(value[i]) + Encode(value[i + 1..]) == before + Encode(value[i..])
  {
    assert value[i..][1..] == value[i + 1..];
  }

  method PercentDecode(value: Text) returns (decoded: Text)
    ensures decoded == Decode(value)
  {
    decoded := [];
    var index := 0;
    while index < |value|
      invariant index <= |value|
      invariant decoded + Decode(value[index..]) == Decode(value)
      decreases |value| - index
    {
      ghost var start, rest := index, value[index..];
      ghost var before := decoded;
      if value[index] == '+' {
        decoded := decoded + [' '];
      } else if value[index] == '%' && index + 2 < |value| {
        var high, low := HexValue(value[index + 1]), HexValue(value[index + 2]);
        if high.Some? && low.Some? {
          decoded := decoded + [(high.value * 16 + low.value) as char];
          index := index + 2;
        } else {
          decoded := decoded + [value[index]];
        }
      } else {
        decoded := decoded + [value[index]];
      }
      index := index + 1;
      assert decoded == before + [First(rest).0] && index == start + First(rest).1;
      DecodeFirst(value, start, index, before);
    }
  }

  lemma DecodeFirst(value: Text, start: nat, next: nat, before: Text)
    requires start < |value| && next == start + First(value[start..]).1
    ensures next <= |value|
    ensures before + [First(value[start..]).0] + Decode(value[next..]) == before + Decode(value[start..])
  {
    assert value[start..][First(value[start..]).1..] == value[next..];
  }

  lemma HexRoundTrip(value: nat)
    requires value < 16
    ensures HexValue(HexDigit(value)) == Some(value)
  {
  }

  lemma {:induction false} DecodeEncode(text: Text)
    ensures Decode(Encode(text)) == text
  {
    if text != [] {
      var c, rest := text[0], Encode(text[1..]);
      DecodeEncode(text[1..]);
      if Unreserved(c) {
        assert Encode(text)[1..] == rest;
      } else {
        HexRoundTrip(c as int / 16);
        HexRoundTrip(c as int % 16);
        assert Encode(text) == EncodeByte(c) + rest;
        assert Encode(text)[3..] == rest;
      }
    }
  }

  /** Encoding leaves only unreserved bytes and escapes. */
  predicate Safe(c: Byte) {
    Unreserved(c) || c == '%'
  }

  lemma {:induction false} EncodeIsSafe(text: Text)
    ensures forall c :: c in Encode(text) ==> Safe(c)
  {
    if text != [] {
      EncodeIsSafe(text[1..]);
    }
  }

  // ----- what the coding is

  const DIGITS: Text := "0123456789"
  const UPPER: Text := "ABCDEFGHIJKLMNOPQRSTUVWXYZ"
  const LOWER: Text := "abcdefghijklmnopqrstuvwxyz"

  /** The value a character has as a hexadecimal digit, in either case. */
  ghost predicate IsHex(c: Byte, value: nat) {
    || (value < 10 && c == DIGITS[value])
    || (10 <= value < 16 && (c == UPPER[value - 10] || c == LOWER[value - 10]))
  }

  lemma HexExactly(c: Byte, value: nat)
    ensures HexValue(c) == Some(value) <==> IsHex(c, value)
  {
  }

  lemma InUpper(c: Byte)
    ensures c in UPPER <==> 'A' <= c <= 'Z'
  {
    if 'A' <= c <= 'Z' {
      assert UPPER[c as int - 'A' as int] == c;
    }
  }

  lemma InLower(c: Byte)
    ensures c in LOWER <==> 'a' <= c <= 'z'
  {
    if 'a' <= c <= 'z' {
      assert LOWER[c as int - 'a' as int] == c;
    }
  }

  lemma InDigits(c: Byte)
    ensures c in DIGITS <==> '0' <= c <= '9'
  {
    if '0' <= c <= '9' {
      assert DIGITS[c as int - '0' as int] == c;
    }
  }

  /** The unreserved characters of RFC 3986, section 2.3. */
  lemma UnreservedExactly(c: Byte)
    ensures Unreserved(c) <==> c in UPPER || c in LOWER || c in DIGITS || c in {'-', '.', '_', '~'}
  {
    InUpper(c);
    InLower(c);
    InDigits(c);
  }

  /** Byte by byte: unreserved bytes stand for themselves, every other one becomes a percent
      sign and its value in two upper-case hexadecimal digits. */
  lemma EncodeExactly(c: Byte, rest: Text)
    ensures Encode([]) == []
    ensures Unreserved(c) ==> Encode([c] + rest) == [c] + Encode(rest)
    ensures !Unreserved(c) ==> exists high: nat, low: nat ::
      IsUpperHex(high) && IsUpperHex(low) && c as int == 16 * high + low
      && Encode([c] + rest) == ['%', UpperHex(high), UpperHex(low)] + Encode(rest)
  {
    assert ([c] + rest)[1..] == rest;
    if !Unreserved(c) {
      var high, low := c as int / 16, c as int % 16;
      assert HexDigit(high) == UpperHex(high) && HexDigit(low) == UpperHex(low);
      assert IsUpperHex(high) && IsUpperHex(low);
    }
  }

  predicate IsUpperHex(value: nat) {
    value < 16
  }

  function UpperHex(value: nat): Byte
    requires IsUpperHex(value)
  {
    if value < 10 then DIGITS[value] else UPPER[value - 10]
  }

  /** Left to right: a plus is a space, a percent sign with two hexadecimal digits is the byte
      of that value, and everything else stands for itself, so do cut-off escapes. */
  lemma DecodeExactly(c: Byte, rest: Text)
    ensures Decode([]) == []
    ensures c == '+' ==> Decode([c] + rest) == [' '] + Decode(rest)
    ensures forall high: nat, low: nat :: (c == '%' && |rest| >= 2 && IsHex(rest[0], high) && IsHex(rest[1], low)) ==>
      Decode([c] + rest) == [(16 * high + low) as char] + Decode(rest[2..])
    ensures c != '+' && (c == '%' ==> |rest| < 2 || (forall high :: !IsHex(rest[0], high)) || (forall low :: !IsHex(rest[1], low))) ==>
      Decode([c] + rest) == [c] + Decode(rest)
  {
    hide IsHex, HexValue, Decode;
    DecodeAlone(c, rest);
    if c == '%' && |rest| >= 2 {
      HexDigits(rest[0]);
      HexDigits(rest[1]);
      DecodeEscape(rest);
    }
  }

  lemma DecodeStep(text: Text)
    ensures Decode([]) == []
    ensures text != [] ==> Decode(text) == [First(text).0] + Decode(text[First(text).1..])
  {
  }

  lemma DecodeAlone(c: Byte, rest: Text)
    ensures Decode([]) == []
    ensures c == '+' ==> Decode([c] + rest) == [' '] + Decode(rest)
    ensures c != '+' && (c == '%' ==> |rest| < 2) ==> Decode([c] + rest) == [c] + Decode(rest)
  {
    hide HexValue, Decode;
    DecodeStep([c] + rest);
    assert ([c] + rest)[1..] == rest;
  }

  lemma DecodeEscape(rest: Text)
    requires |rest| >= 2
    ensures HexValue(rest[0]).Some? && HexValue(rest[1]).Some? ==>
      Decode(['%'] + rest) == [(16 * HexValue(rest[0]).value + HexValue(rest[1]).value) as char] + Decode(rest[2..])
    ensures HexValue(rest[0]).None? || HexValue(rest[1]).None? ==> Decode(['%'] + rest) == ['%'] + Decode(rest)
  {
    hide HexValue, Decode;
    var text := ['%'] + rest;
    DecodeStep(text);
    assert text[1..] == rest && text[3..] == rest[2..] && text[1] == rest[0] && text[2] == rest[1];
  }

  lemma HexDigits(c: Byte)
    ensures forall value: nat :: HexValue(c) == Some(value) <==> IsHex(c, value)
    ensures HexValue(c).None? <==> forall value: nat :: !IsHex(c, value)
  {
    hide IsHex, HexValue;
    forall value: nat ensures HexValue(c) == Some(value) <==> IsHex(c, value) {
      HexExactly(c, value);
    }
    if HexValue(c).Some? {
      assert IsHex(c, HexValue(c).value);
    }
  }

  // ----- path templates

  /** A template is a sequence of segments, each fixed or a whole placeholder. */
  datatype Segment = Fixed(text: Text) | Hole(name: Text)

  predicate PlainName(name: Text) {
    '{' !in name && '}' !in name && '/' !in name
  }

  predicate PlainSegment(segment: Segment) {
    match segment
    case Fixed(text) => '{' !in text && '}' !in text && '/' !in text && '?' !in text
    case Hole(name) => PlainName(name)
  }

  predicate PlainTemplate(segments: seq<Segment>) {
    segments != [] && forall segment :: segment in segments ==> PlainSegment(segment)
  }

  function Braced(name: Text): Text {
    ['{'] + name + ['}']
  }

  function Written(segment: Segment): Text {
    match segment
    case Fixed(text) => text
    case Hole(name) => Braced(name)
  }

  function Parts(segments: seq<Segment>): seq<Text> {
    seq(|segments|, i requires 0 <= i < |segments| => Written(segments[i]))
  }

  function TemplateText(segments: seq<Segment>): Text {
    Join(Parts(segments), '/')
  }

  type Arguments = map<Text, Text>

  /** The placeholders named in `done` filled in. */
  function Fill(segment: Segment, values: Arguments, done: set<Text>): Segment {
    if segment.Hole? && segment.name in done && segment.name in values then Fixed(Encode(values[segment.name])) else segment
  }

  function FillAll(segments: seq<Segment>, values: Arguments, done: set<Text>): seq<Segment> {
    seq(|segments|, i requires 0 <= i < |segments| => Fill(segments[i], values, done))
  }

  predicate AllFilled(segments: seq<Segment>, values: Arguments) {
    forall segment :: segment in segments && segment.Hole? ==> segment.name in values
  }

  lemma OtherHole(name: Text, other: Text, after: Text)
    requires name != other && '}' !in name && '}' !in other
    ensures !(Braced(name) <= Braced(other) + after)
  {
    var needle, text := Braced(name), Braced(other) + after;
    assert needle[|name| + 1] == '}' && text[|other| + 1] == '}';
    assert needle[1..|name| + 1] == name && text[1..|other| + 1] == other;
  }

  lemma ReplaceStep(text: Text, needle: Text, value: Text)
    requires needle != [] && text != [] && !(needle <= text)
    ensures Replace(text, needle, value) == [text[0]] + Replace(text[1..], needle, value)
  {
    if |text| < |needle| {
      assert Replace(text[1..], needle, value) == text[1..];
    }
  }

  lemma ReplaceOther(other: Text, name: Text, value: Text, after: Text)
    requires PlainName(other) && PlainName(name) && other != name
    ensures Replace(Braced(other) + after, Braced(name), value) == Braced(other) + Replace(after, Braced(name), value)
  {
    hide Replace;
    var needle, rest, text := Braced(name), other + ['}'], Braced(other) + after;
    OtherHole(name, other, after);
    assert text[1..] == rest + after && text[0] == '{';
    ReplaceStep(text, needle, value);
    ReplacePast(rest, after, needle, value);
    assert Braced(other) + Replace(after, needle, value) == ['{'] + (rest + Replace(after, needle, value));
  }

  /** Replacing a placeholder in a piece of a template that is followed by more text. */
  lemma ReplaceSegment(segment: Segment, name: Text, value: Text, after: Text)
    requires PlainSegment(segment) && PlainName(name)
    ensures Replace(Written(segment) + after, Braced(name), value)
         == (if segment == Hole(name) then value else Written(segment)) + Replace(after, Braced(name), value)
  {
    hide Replace;
    match segment
    case Fixed(text) => ReplacePast(text, after, Braced(name), value);
    case Hole(other) =>
      if other == name {
        ReplaceHere(after, Braced(name), value);
      } else {
        ReplaceOther(other, name, value, after);
      }
  }

  lemma {:induction false} ReplaceInTemplate(segments: seq<Segment>, values: Arguments, done: set<Text>, name: Text)
    requires segments != [] && name in values && name !in done && PlainName(name)
    requires forall segment :: segment in FillAll(segments, values, done) ==> PlainSegment(segment)
    ensures Replace(TemplateText(FillAll(segments, values, done)), Braced(name), Encode(values[name]))
         == TemplateText(FillAll(segments, values, done + {name}))
  {
    var needle, value := Braced(name), Encode(values[name]);
    var before, after := FillAll(segments, values, done), FillAll(segments, values, done + {name});
    var first := before[0];
    assert first in before;
    assert Written(after[0]) == if first == Hole(name) then value else Written(first);
    if |segments| == 1 {
      ReplaceSegment(first, name, value, []);
      assert Written(first) + [] == Written(first);
      assert TemplateText(before) == Written(first) && TemplateText(after) == Written(after[0]);
      assert Replace([], needle, value) == [];
      assert Written(after[0]) + [] == Written(after[0]);
    } else {
      var rest := segments[1..];
      assert before[1..] == FillAll(rest, values, done) && after[1..] == FillAll(rest, values, done + {name});
      forall segment | segment in FillAll(rest, values, done) ensures PlainSegment(segment) {
        assert segment in before;
      }
      ReplaceInTemplate(rest, values, done, name);
      var tail := ['/'] + TemplateText(before[1..]);
      TemplateStep(before);
      TemplateStep(after);
      ReplaceSegment(first, name, value, tail);
      ReplacePast(['/'], TemplateText(before[1..]), needle, value);
    }
  }

  lemma TemplateStep(segments: seq<Segment>)
    requires |segments| > 1
    ensures TemplateText(segments) == Written(segments[0]) + (['/'] + TemplateText(segments[1..]))
  {
    assert Parts(segments)[1..] == Parts(segments[1..]);
  }

  /** Filled-in placeholders are plain segments: encoding leaves no brace, slash or '?'. */
  lemma FilledIsPlain(segments: seq<Segment>, values: Arguments, done: set<Text>)
    requires PlainTemplate(segments)
    ensures PlainTemplate(FillAll(segments, values, done))
  {
    forall segment | segment in FillAll(segments, values, done) ensures PlainSegment(segment) {
      var i :| 0 <= i < |segments| && FillAll(segments, values, done)[i] == segment;
      assert segments[i] in segments;
      if segment != segments[i] {
        EncodeIsSafe(values[segments[i].name]);
      }
    }
  }

  lemma {:induction false} BracesAreHoles(segments: seq<Segment>)
    requires PlainTemplate(segments)
    ensures ('{' in TemplateText(segments) || '}' in TemplateText(segments)) <==> exists segment :: segment in segments && segment.Hole?
  {
    var text := TemplateText(segments);
    assert segments[0] in segments;
    if |segments| > 1 {
      BracesAreHoles(segments[1..]);
      TemplateStep(segments);
      assert forall c :: c in text <==> c in Written(segments[0]) || c == '/' || c in TemplateText(segments[1..]);
      assert forall segment :: segment in segments <==> segment == segments[0] || segment in segments[1..];
    } else {
      assert text == Written(segments[0]);
    }
    if segments[0].Hole? {
      assert Written(segments[0])[0] == '{';
    }
  }

  /** The route is filled in by replacing one placeholder after another, in any order; it is
      refused exactly when a placeholder is left. */
  method FillRoute(template: Text, path: Arguments, ghost segments: seq<Segment>) returns (route: Option<Text>)
    requires PlainTemplate(segments) && template == TemplateText(segments)
    requires forall name :: name in path ==> PlainName(name)
    ensures route.Some? <==> AllFilled(segments, path)
    ensures route.Some? ==> route.value == TemplateText(FillAll(segments, path, path.Keys))
  {
    hide FillAll, TemplateText, Replace, PlainName, Decode;
    var text, todo := template, path.Keys;
    ghost var done: set<Text> := {};
    NothingFilled(segments, path);
    while todo != {}
      invariant forall name :: name in path <==> name in done || name in todo
      invariant forall name :: name in todo ==> name !in done
      invariant text == TemplateText(FillAll(segments, path, done))
      decreases |todo|
    {
      var name :| name in todo;
      var encoded := PercentEncode(path[name]);
      FilledIsPlain(segments, path, done);
      ReplaceInTemplate(segments, path, done, name);
      text := Replace(text, Braced(name), encoded);
      todo := todo - {name};
      done := done + {name};
    }
    assert done == path.Keys;
    HolesLeft(segments, path);
    FilledIsPlain(segments, path, done);
    BracesAreHoles(FillAll(segments, path, done));
    route := if '{' in text || '}' in text then None else Some(text);
  }

  lemma NothingFilled(segments: seq<Segment>, values: Arguments)
    ensures FillAll(segments, values, {}) == segments
  {
  }

  lemma HolesLeft(segments: seq<Segment>, values: Arguments)
    ensures AllFilled(segments, values) <==> forall segment :: segment in FillAll(segments, values, values.Keys) ==> segment.Fixed?
  {
    var filled := FillAll(segments, values, values.Keys);
    if forall segment :: segment in filled ==> segment.Fixed? {
      forall segment | segment in segments && segment.Hole? ensures segment.name in values {
        var i :| 0 <= i < |segments| && segments[i] == segment;
        assert filled[i] in filled;
      }
    }
  }

  // ----- the query

  type Pairs = seq<(Text, Text)>

  function PairText(pair: (Text, Text)): Text {
    Encode(pair.0) + ['='] + Encode(pair.1)
  }

  function PairTexts(pairs: Pairs): seq<Text> {
    seq(|pairs|, i requires 0 <= i < |pairs| => PairText(pairs[i]))
  }

  /** A map from a list of pairs: the last value of a name counts. */
  function LastValues(pairs: Pairs): Arguments {
    if pairs == [] then map[]
    else LastValues(pairs[..|pairs| - 1])[pairs[|pairs| - 1].0 := pairs[|pairs| - 1].1]
  }

  function DecodedPair(part: Text): (Text, Text) {
    match SplitOnce(part, '=')
    case None => (Decode(part), Decode([]))
    case Some((name, value)) => (Decode(name), Decode(value))
  }

  function QueryParts(parts: seq<Text>): Arguments {
    if parts == [] then map[]
    else
      var earlier, last := QueryParts(parts[..|parts| - 1]), parts[|parts| - 1];
      if last == [] then earlier else earlier[DecodedPair(last).0 := DecodedPair(last).1]
  }

  /** How the mock server reads a query. */
  function QueryParameters(raw: Text): Arguments {
    QueryParts(Split(raw, '&'))
  }

  lemma DecodedPairText(pair: (Text, Text))
    ensures PairText(pair) != [] && '&' !in PairText(pair) && '?' !in PairText(pair)
    ensures DecodedPair(PairText(pair)) == pair
  {
    hide Encode, Decode, SplitOnce;
    EncodeIsSafe(pair.0);
    EncodeIsSafe(pair.1);
    assert '=' !in Encode(pair.0) && '&' !in Encode(pair.0) + Encode(pair.1) && '?' !in Encode(pair.0) + Encode(pair.1);
    SplitOncePast(Encode(pair.0), '=', Encode(pair.1));
    DecodeEncode(pair.0);
    DecodeEncode(pair.1);
  }

  lemma {:induction false} QueryPartsOfPairs(pairs: Pairs)
    ensures QueryParts(PairTexts(pairs)) == LastValues(pairs)
  {
    if pairs != [] {
      var n := |pairs| - 1;
      assert PairTexts(pairs)[..n] == PairTexts(pairs[..n]);
      QueryPartsOfPairs(pairs[..n]);
      DecodedPairText(pairs[n]);
    }
  }

  /** Reading back a query gives exactly the pairs it was built from; of several values of
      one name the last. */
  lemma QueryRoundTrip(pairs: Pairs)
    ensures QueryParameters(Join(PairTexts(pairs), '&')) == LastValues(pairs)
    ensures '?' !in Join(PairTexts(pairs), '&')
  {
    forall part | part in PairTexts(pairs) ensures '&' !in part && '?' !in part {
      var i :| 0 <= i < |pairs| && PairTexts(pairs)[i] == part;
      DecodedPairText(pairs[i]);
    }
    JoinContents(PairTexts(pairs), '&', '?');
    if pairs == [] {
      assert Split([], '&') == [[]];
      assert QueryParts([[]]) == QueryParts([[]][..0]);
      var nothing: seq<Text> := [[]];
      assert nothing[..0] == [];
    } else {
      SplitJoin(PairTexts(pairs), '&');
      QueryPartsOfPairs(pairs);
    }
  }

  /** A query argument: one value, or an array of them. */
  datatype QueryValue = One(value: Text) | Many(values: seq<Text>)

  function ValuesForQuery(name: Text, value: QueryValue): Pairs {
    match value
    case One(text) => [(name, text)]
    case Many(texts) => seq(|texts|, i requires 0 <= i < |texts| => (name, texts[i]))
  }

  /** The pairs of all arguments, in the order of the arguments. */
  function PairsOf(query: seq<(Text, QueryValue)>): Pairs {
    if query == [] then []
    else PairsOf(query[..|query| - 1]) + ValuesForQuery(query[|query| - 1].0, query[|query| - 1].1)
  }

  function LastOf(value: QueryValue): Option<Text> {
    match value
    case One(text) => Some(text)
    case Many(texts) => if texts == [] then None else Some(texts[|texts| - 1])
  }

  lemma {:induction false} LastValuesOfSame(pairs: Pairs, name: Text, texts: seq<Text>)
    ensures LastValues(pairs + ValuesForQuery(name, Many(texts))) ==
      if texts == [] then LastValues(pairs) else LastValues(pairs)[name := texts[|texts| - 1]]
  {
    var added := ValuesForQuery(name, Many(texts));
    if texts == [] {
      assert pairs + added == pairs;
    } else {
      var n := |texts| - 1;
      var front := ValuesForQuery(name, Many(texts[..n]));
      assert (pairs + added)[..|pairs + added| - 1] == pairs + front;
      LastValuesOfSame(pairs, name, texts[..n]);
    }
  }

  lemma LastValuesStep(pairs: Pairs, name: Text, value: QueryValue)
    ensures LastValues(pairs + ValuesForQuery(name, value)) ==
      if LastOf(value).None? then LastValues(pairs) else LastValues(pairs)[name := LastOf(value).value]
  {
    match value
    case One(text) => assert (pairs + [(name, text)])[..|pairs|] == pairs;
    case Many(texts) => LastValuesOfSame(pairs, name, texts);
  }

  predicate ReadAs(values: Arguments, name: Text, value: QueryValue) {
    match LastOf(value)
    case Some(text) => name in values && values[name] == text
    case None => name !in values
  }

  /** Every argument is read back as its last value; only empty arrays are lost, and nothing
      is read that was not sent. */
  lemma {:induction false} ArgumentsReadBack(query: seq<(Text, QueryValue)>)
    requires forall i, j :: 0 <= i < j < |query| ==> query[i].0 != query[j].0
    ensures forall i :: 0 <= i < |query| ==> ReadAs(LastValues(PairsOf(query)), query[i].0, query[i].1)
    ensures forall name :: name in LastValues(PairsOf(query)) ==> exists i :: 0 <= i < |query| && query[i].0 == name
  {
    hide LastValues, ValuesForQuery, LastOf;
    if query == [] {
      NoValues();
    } else {
      var n := |query| - 1;
      var front, last := query[..n], query[n];
      ArgumentsReadBack(front);
      LastValuesStep(PairsOf(front), last.0, last.1);
      var earlier, values := LastValues(PairsOf(front)), LastValues(PairsOf(query));
      assert last.0 !in earlier;
      forall i | 0 <= i < |query| ensures ReadAs(values, query[i].0, query[i].1) {
        if i < n {
          assert front[i] == query[i];
        }
      }
      forall name | name in values ensures exists i :: 0 <= i < |query| && query[i].0 == name {
        if name in earlier {
          var i :| 0 <= i < |front| && front[i].0 == name;
          assert query[i].0 == name;
        } else {
          assert query[n].0 == name;
        }
      }
    }
  }

  lemma NoValues()
    ensures LastValues([]) == map[]
  {
  }

  // ----- the mock server

  predicate Holder(segment: Text) {
    segment != [] && segment[0] == '{' && segment[|segment| - 1] == '}'
  }

  predicate PathMatches(template: Text, path: Text) {
    var expected, actual := Split(template, '/'), Split(path, '/');
    && |expected| == |actual|
    && forall i :: 0 <= i < |expected| ==> if Holder(expected[i]) then actual[i] != [] else expected[i] == actual[i]
  }

  function PathParts(expected: seq<Text>, actual: seq<Text>): Arguments {
    if expected == [] || actual == [] then map[]
    else
      var n := (if |expected| < |actual| then |expected| else |actual|) - 1;
      var earlier := PathParts(expected[..n], actual[..n]);
      if Holder(expected[n]) then earlier[expected[n][1..|expected[n]| - 1] := Decode(actual[n])] else earlier
  }

  function PathParameters(template: Text, path: Text): Arguments {
    PathParts(Split(template, '/'), Split(path, '/'))
  }

  function TargetParts(target: Text): (Text, Arguments) {
    match SplitOnce(target, '?')
    case None => (target, QueryParameters([]))
    case Some((path, raw)) => (path, QueryParameters(raw))
  }

  // ----- what the server reads, for any input

  /** The path is made of these parts. */
  ghost predicate MadeOf(path: Text, parts: seq<Text>) {
    parts != [] && path == Join(parts, '/') && forall part :: part in parts ==> '/' !in part
  }

  /** The part fits the segment: a fixed one literally, a placeholder with anything but nothing. */
  predicate FitsSegment(segment: Segment, part: Text) {
    match segment
    case Fixed(text) => part == text
    case Hole(_) => part != []
  }

  lemma PartsOfPath(path: Text)
    ensures MadeOf(path, Split(path, '/'))
    ensures forall parts :: MadeOf(path, parts) ==> parts == Split(path, '/')
  {
    JoinSplit(path, '/');
    forall parts | MadeOf(path, parts) ensures parts == Split(path, '/') {
      SplitJoin(parts, '/');
    }
  }

  lemma HolderFits(segment: Segment, part: Text)
    requires PlainSegment(segment)
    ensures FitsSegment(segment, part) <==> if Holder(Written(segment)) then part != [] else Written(segment) == part
  {
    HolderExactly(segment);
  }

  /** A path is accepted exactly when it is made of one fitting part for each segment. */
  lemma PathMatchesExactly(segments: seq<Segment>, path: Text, parts: seq<Text>)
    requires PlainTemplate(segments) && MadeOf(path, parts)
    ensures PathMatches(TemplateText(segments), path) <==>
      |parts| == |segments| && forall i :: 0 <= i < |segments| ==> FitsSegment(segments[i], parts[i])
  {
    hide TemplateText, FitsSegment, Holder, Written, PlainSegment, Split, Join;
    TemplateParts(segments);
    PartsOfPath(path);
    forall i | 0 <= i < |segments| && i < |parts|
      ensures FitsSegment(segments[i], parts[i]) <==> if Holder(Written(segments[i])) then parts[i] != [] else Written(segments[i]) == parts[i]
    {
      assert segments[i] in segments;
      HolderFits(segments[i], parts[i]);
    }
  }

  /** The parameter is read from this placeholder: the last of its name that has a part. */
  predicate ReadFrom(segments: seq<Segment>, parts: seq<Text>, name: Text, i: nat) {
    && i < |segments| && i < |parts| && segments[i] == Hole(name)
    && forall j :: i < j < |segments| && j < |parts| ==> segments[j] != Hole(name)
  }

  /** Exactly the placeholders that have a part are read, each decoded. */
  lemma PathParametersExactly(segments: seq<Segment>, path: Text, parts: seq<Text>, name: Text)
    requires PlainTemplate(segments) && MadeOf(path, parts)
    ensures var read := PathParameters(TemplateText(segments), path);
      && (name in read ==> exists i: nat :: ReadFrom(segments, parts, name, i))
      && (forall i: nat :: ReadFrom(segments, parts, name, i) ==> name in read && read[name] == Decode(parts[i]))
  {
    hide TemplateText, PathParts, Split, Join, Written, Decode;
    TemplateParts(segments);
    PartsOfPath(path);
    ReadParts(segments, parts, name);
  }

  lemma {:induction false} ReadParts(segments: seq<Segment>, parts: seq<Text>, name: Text)
    requires forall segment :: segment in segments ==> PlainSegment(segment)
    ensures var read := PathParts(Parts(segments), parts);
      && (name in read ==> exists i: nat :: ReadFrom(segments, parts, name, i))
      && (forall i: nat :: ReadFrom(segments, parts, name, i) ==> name in read && read[name] == Decode(parts[i]))
    decreases |segments|
  {
    hide Written, Decode, Holder, PlainSegment;
    if segments != [] && parts != [] {
      var n := (if |segments| < |parts| then |segments| else |parts|) - 1;
      var front, last := segments[..n], segments[n];
      assert last in segments && forall segment :: segment in front ==> segment in segments;
      assert Parts(segments)[..n] == Parts(front);
      ReadParts(front, parts[..n], name);
      HolderExactly(last);
      assert forall i: nat :: i < n ==> (ReadFrom(segments, parts, name, i) <==> ReadFrom(front, parts[..n], name, i) && last != Hole(name));
      assert last == Hole(name) ==> ReadFrom(segments, parts, name, n);
    }
  }

  /** This part of a query sets this parameter to this value. */
  ghost predicate Sets(part: Text, name: Text, value: Text) {
    || (exists before: Text, after: Text :: part == before + ['='] + after && '=' !in before && name == Decode(before) && value == Decode(after))
    || ('=' !in part && part != [] && name == Decode(part) && value == [])
  }

  lemma {:induction false} FindNone(text: Text, c: Byte)
    ensures Find(text, c) == |text| <==> c !in text
  {
    if text != [] {
      FindNone(text[1..], c);
    }
  }

  lemma SetsExactly(part: Text, name: Text, value: Text)
    ensures part != [] ==> (DecodedPair(part) == (name, value) <==> Sets(part, name, value))
    ensures part == [] ==> !Sets(part, name, value)
  {
    hide Decode;
    FindNone(part, '=');
    NothingDecoded();
    var i := Find(part, '=');
    if i < |part| {
      assert part == part[..i] + ['='] + part[i + 1..];
    }
    forall before: Text, after: Text | part == before + ['='] + after && '=' !in before
      ensures before == part[..Find(part, '=')] && after == part[Find(part, '=') + 1..]
    {
      FindPast(before, '=', after);
    }
  }

  lemma NothingDecoded()
    ensures Decode([]) == []
  {
  }

  ghost predicate LastToSet(parts: seq<Text>, name: Text, value: Text, i: nat) {
    && i < |parts| && Sets(parts[i], name, value)
    && forall j, other :: i < j < |parts| ==> !Sets(parts[j], name, other)
  }

  /** A parameter has the value that the last part sets it to, and none that no part sets. */
  lemma {:induction false} QueryExactly(parts: seq<Text>, name: Text, value: Text)
    ensures (name in QueryParts(parts) && QueryParts(parts)[name] == value) <==> exists i: nat :: LastToSet(parts, name, value, i)
    decreases |parts|
  {
    hide Sets, DecodedPair, Decode;
    if parts != [] {
      var n := |parts| - 1;
      var front, last := parts[..n], parts[n];
      QueryExactly(front, name, value);
      forall other ensures last != [] ==> (DecodedPair(last) == (name, other) <==> Sets(last, name, other))
        ensures last == [] ==> !Sets(last, name, other)
      {
        SetsExactly(last, name, other);
      }
      OnlyOne(last, name);
      assert forall i: nat :: i < n ==>
        (LastToSet(parts, name, value, i) <==> LastToSet(front, name, value, i) && forall other :: !Sets(last, name, other));
      assert LastToSet(parts, name, value, n) <==> Sets(last, name, value);
    }
  }

  lemma OnlyOne(part: Text, name: Text)
    ensures (forall other :: !Sets(part, name, other)) <==> part == [] || DecodedPair(part).0 != name
  {
    hide Sets, DecodedPair, Decode;
    forall other ensures part != [] ==> (DecodedPair(part) == (name, other) <==> Sets(part, name, other))
      ensures part == [] ==> !Sets(part, name, other)
    {
      SetsExactly(part, name, other);
    }
    if part != [] && DecodedPair(part).0 == name {
      assert Sets(part, name, DecodedPair(part).1);
    }
  }

  /** A target is split at its first question mark. */
  lemma TargetExactly(path: Text, raw: Text)
    requires '?' !in path
    ensures TargetParts(path + ['?'] + raw) == (path, QueryParameters(raw))
    ensures TargetParts(path) == (path, map[])
  {
    SplitOncePast(path, '?', raw);
    assert Split([], '&') == [[]];
    var nothing: seq<Text> := [[]];
    assert nothing[..0] == [];
  }

  /** The values that are sent under a name, in order. */
  function Sent(pairs: Pairs, name: Text): seq<Text> {
    if pairs == [] then []
    else Sent(pairs[..|pairs| - 1], name) + (if pairs[|pairs| - 1].0 == name then [pairs[|pairs| - 1].1] else [])
  }

  function AllOf(value: QueryValue): seq<Text> {
    match value
    case One(text) => [text]
    case Many(texts) => texts
  }

  lemma {:induction false} SentAdds(pairs: Pairs, more: Pairs, name: Text)
    ensures Sent(pairs + more, name) == Sent(pairs, name) + Sent(more, name)
    decreases |more|
  {
    if more == [] {
      assert pairs + more == pairs;
    } else {
      var n := |more| - 1;
      assert (pairs + more)[..|pairs + more| - 1] == pairs + more[..n];
      SentAdds(pairs, more[..n], name);
    }
  }

  lemma {:induction false} SentOfMany(name: Text, texts: seq<Text>, other: Text)
    ensures Sent(ValuesForQuery(name, Many(texts)), other) == if name == other then texts else []
    decreases |texts|
  {
    if texts != [] {
      var n := |texts| - 1;
      var all := ValuesForQuery(name, Many(texts));
      assert all[..|all| - 1] == ValuesForQuery(name, Many(texts[..n]));
      SentOfMany(name, texts[..n], other);
      assert texts == texts[..n] + [texts[n]];
    }
  }

  lemma SentOf(name: Text, value: QueryValue, other: Text)
    ensures Sent(ValuesForQuery(name, value), other) == if name == other then AllOf(value) else []
  {
    match value
    case One(text) =>
      var single: Pairs := [(name, text)];
      assert single[..0] == [];
    case Many(texts) => SentOfMany(name, texts, other);
  }

  /** Every argument is sent with all its values, in order, and nothing else is sent. */
  lemma {:induction false} EverythingIsSent(query: seq<(Text, QueryValue)>, name: Text)
    requires forall i, j :: 0 <= i < j < |query| ==> query[i].0 != query[j].0
    ensures forall i :: 0 <= i < |query| && query[i].0 == name ==> Sent(PairsOf(query), name) == AllOf(query[i].1)
    ensures (forall i :: 0 <= i < |query| ==> query[i].0 != name) ==> Sent(PairsOf(query), name) == []
    decreases |query|
  {
    hide ValuesForQuery, AllOf;
    if query != [] {
      var n := |query| - 1;
      var front, last := query[..n], query[n];
      EverythingIsSent(front, name);
      SentOf(last.0, last.1, name);
      SentAdds(PairsOf(front), ValuesForQuery(last.0, last.1), name);
      assert forall i :: 0 <= i < n ==> front[i] == query[i];
    }
  }

  // ----- the round trip

  /** The request target for a route and its query pairs. */
  function TargetText(route: Text, pairs: Pairs): Text {
    if pairs == [] then route else route + ['?'] + Join(PairTexts(pairs), '&')
  }

  datatype Place = InPath | InQuery | InHeader | InCookie | Elsewhere

  datatype Parameter = Parameter(name: Text, place: Place, required: bool)

  /** The arguments of a call, by place; of headers and cookies only the names matter here. */
  datatype Call = Call(path: Arguments, query: seq<(Text, QueryValue)>, headers: set<Text>, cookies: set<Text>, body: bool)

  predicate Given(call: Call, parameter: Parameter) {
    match parameter.place
    case InPath => parameter.name in call.path
    case InQuery => exists i :: 0 <= i < |call.query| && call.query[i].0 == parameter.name
    case InHeader => parameter.name in call.headers
    case InCookie => parameter.name in call.cookies
    case Elsewhere => true
  }

  predicate AllGiven(call: Call, parameters: seq<Parameter>) {
    forall parameter :: parameter in parameters && parameter.required ==> Given(call, parameter)
  }

  datatype Refusal = MissingParameter(parameter: Parameter) | MissingPlaceholder | MissingBody

  /** Builds the target of a request: the filled-in route, then the query. It is refused
      exactly when something required is missing, or a placeholder has no value. */
  method PrepareTarget(template: Text, parameters: seq<Parameter>, bodyRequired: bool, call: Call, ghost segments: seq<Segment>)
    returns (target: Result<Text, Refusal>)
    requires PlainTemplate(segments) && template == TemplateText(segments)
    requires forall name :: name in call.path ==> PlainName(name)
    ensures target.Ok? <==> AllGiven(call, parameters) && AllFilled(segments, call.path) && (bodyRequired ==> call.body)
    ensures target.Ok? ==> target.value == TargetText(TemplateText(FillAll(segments, call.path, call.path.Keys)), PairsOf(call.query))
    ensures target.Ok? && PairsOf(call.query) == [] ==> '?' !in target.value
    ensures target.Ok? ==>
      TargetParts(target.value) == (TemplateText(FillAll(segments, call.path, call.path.Keys)), LastValues(PairsOf(call.query)))
    ensures target.Err? ==>
      match target.error
      case MissingParameter(parameter) => parameter in parameters && parameter.required && !Given(call, parameter)
      case MissingPlaceholder => AllGiven(call, parameters) && !AllFilled(segments, call.path)
      case MissingBody => AllGiven(call, parameters) && AllFilled(segments, call.path) && bodyRequired && !call.body
  {
    hide Given, PlainTemplate, TemplateText, FillAll, TargetText, TargetParts, LastValues, PairsOf, ValuesForQuery;
    for i := 0 to |parameters|
      invariant forall j :: 0 <= j < i && parameters[j].required ==> Given(call, parameters[j])
    {
      if parameters[i].required && !Given(call, parameters[i]) {
        assert parameters[i] in parameters;
        return Err(MissingParameter(parameters[i]));
      }
    }
    var route := FillRoute(template, call.path, segments);
    if route.None? {
      return Err(MissingPlaceholder);
    }
    if bodyRequired && !call.body {
      return Err(MissingBody);
    }
    var pairs := Collect(call.query);
    FilledIsPlain(segments, call.path, call.path.Keys);
    HolesLeft(segments, call.path);
    TargetRoundTrip(FillAll(segments, call.path, call.path.Keys), pairs);
    PlainTemplateText(FillAll(segments, call.path, call.path.Keys));
    RouteAlone(route.value);
    return Ok(TargetText(route.value, pairs));
  }

  lemma RouteAlone(route: Text)
    ensures TargetText(route, []) == route
  {
  }

  method Collect(query: seq<(Text, QueryValue)>) returns (pairs: Pairs)
    ensures pairs == PairsOf(query)
  {
    hide ValuesForQuery;
    pairs := [];
    for i := 0 to |query|
      invariant pairs == PairsOf(query[..i])
    {
      assert query[..i + 1][..i] == query[..i];
      pairs := pairs + ValuesForQuery(query[i].0, query[i].1);
    }
    assert query[..|query|] == query;
  }

  lemma PlainTemplateText(segments: seq<Segment>)
    requires PlainTemplate(segments) && forall segment :: segment in segments ==> segment.Fixed?
    ensures '?' !in TemplateText(segments)
    ensures Split(TemplateText(segments), '/') == Parts(segments)
  {
    forall part | part in Parts(segments) ensures '?' !in part && '/' !in part {
      var i :| 0 <= i < |segments| && Parts(segments)[i] == part;
      assert segments[i] in segments;
    }
    JoinContents(Parts(segments), '/', '?');
    SplitJoin(Parts(segments), '/');
  }

  lemma TargetRoundTrip(segments: seq<Segment>, pairs: Pairs)
    requires PlainTemplate(segments) && forall segment :: segment in segments ==> segment.Fixed?
    ensures TargetParts(TargetText(TemplateText(segments), pairs)) == (TemplateText(segments), LastValues(pairs))
  {
    PlainTemplateText(segments);
    QueryRoundTrip(pairs);
    SplitOncePast(TemplateText(segments), '?', Join(PairTexts(pairs), '&'));
    if pairs == [] {
      assert Join(PairTexts(pairs), '&') == [];
    }
  }

  lemma TemplateParts(segments: seq<Segment>)
    requires PlainTemplate(segments)
    ensures Split(TemplateText(segments), '/') == Parts(segments)
  {
    forall part | part in Parts(segments) ensures '/' !in part {
      var i :| 0 <= i < |segments| && Parts(segments)[i] == part;
      assert segments[i] in segments;
    }
    SplitJoin(Parts(segments), '/');
  }

  lemma HolderExactly(segment: Segment)
    requires PlainSegment(segment)
    ensures Holder(Written(segment)) <==> segment.Hole?
    ensures segment.Hole? ==> Written(segment)[1..|Written(segment)| - 1] == segment.name
  {
    if segment.Fixed? && segment.text != [] {
      assert segment.text[0] in segment.text;
    }
  }

  lemma EncodeEmpty(text: Text)
    ensures Encode(text) == [] <==> text == []
  {
  }

  /** The names of the template's placeholders. */
  function Names(segments: seq<Segment>): set<Text> {
    set segment | segment in segments && segment.Hole? :: segment.name
  }

  /** The values of the template's placeholders. */
  function Filled(segments: seq<Segment>, path: Arguments): Arguments {
    map name | name in Names(segments) && name in path :: path[name]
  }

  lemma FilledStep(front: seq<Segment>, last: Segment, path: Arguments)
    requires last.Hole? ==> last.name in path
    ensures Filled(front + [last], path) == if last.Hole? then Filled(front, path)[last.name := path[last.name]] else Filled(front, path)
  {
    var segments := front + [last];
    assert forall segment :: segment in segments <==> segment in front || segment == last;
    if last.Hole? {
      assert Names(segments) == Names(front) + {last.name};
    } else {
      assert Names(segments) == Names(front);
    }
  }

  lemma PathPartsStep(expected: seq<Text>, actual: seq<Text>, e: Text, a: Text)
    requires |expected| == |actual|
    ensures PathParts(expected + [e], actual + [a]) ==
      if Holder(e) then PathParts(expected, actual)[e[1..|e| - 1] := Decode(a)] else PathParts(expected, actual)
  {
    assert (expected + [e])[..|expected|] == expected && (actual + [a])[..|actual|] == actual;
  }

  lemma PartsStep(front: seq<Segment>, last: Segment)
    ensures Parts(front + [last]) == Parts(front) + [Written(last)]
  {
  }

  lemma {:induction false} PathPartsReadBack(segments: seq<Segment>, path: Arguments)
    requires AllFilled(segments, path) && forall segment :: segment in segments ==> PlainSegment(segment)
    ensures PathParts(Parts(segments), Parts(FillAll(segments, path, path.Keys))) == Filled(segments, path)
  {
    hide PathParts, Decode, Encode, Filled, Written, PlainSegment, Holder, Names;
    if segments == [] {
      NothingRead(path);
    } else {
      var n := |segments| - 1;
      var front, last := segments[..n], segments[n];
      assert segments == front + [last];
      assert last in segments && forall segment :: segment in front ==> segment in segments;
      var filled := FillAll(front, path, path.Keys);
      assert FillAll(segments, path, path.Keys) == filled + [Fill(last, path, path.Keys)];
      PathPartsReadBack(front, path);
      PartsStep(front, last);
      PartsStep(filled, Fill(last, path, path.Keys));
      PathPartsStep(Parts(front), Parts(filled), Written(last), Written(Fill(last, path, path.Keys)));
      FilledStep(front, last, path);
      HolderExactly(last);
      if last.Hole? {
        DecodeEncode(path[last.name]);
        FixedText(Encode(path[last.name]));
      }
    }
  }

  lemma FixedText(text: Text)
    ensures Written(Fixed(text)) == text
  {
  }

  lemma NothingRead(path: Arguments)
    ensures PathParts([], []) == Filled([], path) == map[]
  {
  }

  /** The mock server reads back exactly what was put into the path; it accepts the path
      exactly when no placeholder was filled with the empty text. */
  lemma PathRoundTrip(segments: seq<Segment>, path: Arguments)
    requires PlainTemplate(segments) && AllFilled(segments, path)
    ensures var template, route := TemplateText(segments), TemplateText(FillAll(segments, path, path.Keys));
      && PathParameters(template, route) == Filled(segments, path)
      && (PathMatches(template, route) <==> forall name :: name in Names(segments) ==> path[name] != [])
  {
    var filled := FillAll(segments, path, path.Keys);
    FilledIsPlain(segments, path, path.Keys);
    TemplateParts(segments);
    TemplateParts(filled);
    PathPartsReadBack(segments, path);
    forall i | 0 <= i < |segments|
      ensures Holder(Parts(segments)[i]) <==> segments[i].Hole?
      ensures segments[i].Hole? ==> segments[i].name in path && (Parts(filled)[i] != [] <==> path[segments[i].name] != [])
      ensures segments[i].Fixed? ==> Parts(filled)[i] == Parts(segments)[i]
    {
      assert segments[i] in segments;
      HolderExactly(segments[i]);
      if segments[i].Hole? {
        EncodeEmpty(path[segments[i].name]);
      }
    }
    if forall name :: name in Names(segments) ==> path[name] != [] {
      forall i | 0 <= i < |segments| && segments[i].Hole? ensures path[segments[i].name] != [] {
        assert segments[i] in segments;
        assert segments[i].name in Names(segments);
      }
    } else {
      var name :| name in Names(segments) && path[name] == [];
      var segment :| segment in segments && segment.Hole? && segment.name == name;
      var i :| 0 <= i < |segments| && segments[i] == segment;
      assert Parts(filled)[i] == [] && Holder(Parts(segments)[i]);
    }
  }

  /** The whole way: splitting the prepared target, matching the route and reading the
      parameters gives back the values of the template's placeholders and, of each query
      argument, its (last) value. Path arguments without a placeholder play no part. */
  lemma RequestRoundTrip(segments: seq<Segment>, path: Arguments, query: seq<(Text, QueryValue)>)
    requires PlainTemplate(segments) && AllFilled(segments, path)
    requires forall i, j :: 0 <= i < j < |query| ==> query[i].0 != query[j].0
    ensures var template, route := TemplateText(segments), TemplateText(FillAll(segments, path, path.Keys));
      var (read, parameters) := TargetParts(TargetText(route, PairsOf(query)));
      && PathParameters(template, read) == Filled(segments, path)
      && (PathMatches(template, read) <==> forall name :: name in Names(segments) ==> path[name] != [])
      && (forall i :: 0 <= i < |query| ==> ReadAs(parameters, query[i].0, query[i].1))
      && (forall name :: name in parameters ==> exists i :: 0 <= i < |query| && query[i].0 == name)
    ensures path.Keys == Names(segments) ==> Filled(segments, path) == path
  {
    hide TargetText, TargetParts, TemplateText, PathMatches, PathParameters, PairsOf, LastValues, ReadAs, FillAll, PlainTemplate;
    FilledIsPlain(segments, path, path.Keys);
    HolesLeft(segments, path);
    TargetRoundTrip(FillAll(segments, path, path.Keys), PairsOf(query));
    PathRoundTrip(segments, path);
    ArgumentsReadBack(query);
  }
}
