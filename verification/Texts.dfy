/** Splitting, joining and replacing, on texts. A text is the sequence of its UTF-8 bytes;
    a byte is written as the character with that number. */
module Texts {
  import opened Wrappers

  type Byte = c: char | c as int < 256 witness 'a'
  type Text = seq<Byte>

  function Join(parts: seq<Text>, separator: Byte): Text {
    if parts == [] then []
    else if |parts| == 1 then parts[0]
    else parts[0] + [separator] + Join(parts[1..], separator)
  }

  /** The position of the first occurrence, or the length. */
  function Find(text: Text, c: Byte): (i: nat)
    ensures i <= |text|
    ensures i < |text| ==> text[i] == c
    ensures c !in text[..i]
  {
    if text == [] || text[0] == c then 0 else 1 + Find(text[1..], c)
  }

  function Split(text: Text, separator: Byte): (parts: seq<Text>)
    ensures parts != []
    decreases |text|
  {
    var i := Find(text, separator);
    if i == |text| then [text] else [text[..i]] + Split(text[i + 1..], separator)
  }

  /** Before and after the first separator. */
  function SplitOnce(text: Text, separator: Byte): Option<(Text, Text)> {
    var i := Find(text, separator);
    if i == |text| then None else Some((text[..i], text[i + 1..]))
  }

  function Replace(text: Text, needle: Text, replacement: Text): Text
    requires needle != []
    decreases |text|
  {
    if |text| < |needle| then text
    else if needle <= text then replacement + Replace(text[|needle|..], needle, replacement)
    else [text[0]] + Replace(text[1..], needle, replacement)
  }

  lemma {:induction false} FindPast(before: Text, c: Byte, after: Text)
    requires c !in before
    ensures Find(before + [c] + after, c) == |before|
    ensures Find(before, c) == |before|
  {
    if before != [] {
      assert (before + [c] + after)[1..] == before[1..] + [c] + after;
      FindPast(before[1..], c, after);
    } else {
      assert before + [c] + after == [c] + after;
    }
  }

  lemma SplitOncePast(before: Text, c: Byte, after: Text)
    requires c !in before
    ensures SplitOnce(before + [c] + after, c) == Some((before, after))
    ensures SplitOnce(before, c) == None
  {
    FindPast(before, c, after);
    assert (before + [c] + after)[..|before|] == before;
    assert (before + [c] + after)[|before| + 1..] == after;
  }

  /** Splitting undoes joining, as long as no part contains the separator. */
  lemma {:induction false} SplitJoin(parts: seq<Text>, separator: Byte)
    requires parts != [] && forall part :: part in parts ==> separator !in part
    ensures Split(Join(parts, separator), separator) == parts
  {
    var first := parts[0];
    FindPast(first, separator, Join(parts[1..], separator));
    if |parts| > 1 {
      var text := Join(parts, separator);
      assert text == first + [separator] + Join(parts[1..], separator);
      assert text[..|first|] == first && text[|first| + 1..] == Join(parts[1..], separator);
      SplitJoin(parts[1..], separator);
    }
  }

  lemma JoinContents(parts: seq<Text>, separator: Byte, c: Byte)
    requires c != separator && forall part :: part in parts ==> c !in part
    ensures c !in Join(parts, separator)
  {
    if |parts| > 1 {
      JoinContents(parts[1..], separator, c);
    }
  }

  /** Text without the needle's first byte is passed over. */
  lemma {:induction false} ReplacePast(before: Text, after: Text, needle: Text, replacement: Text)
    requires needle != [] && needle[0] !in before
    ensures Replace(before + after, needle, replacement) == before + Replace(after, needle, replacement)
  {
    if before == [] {
      assert before + after == after;
    } else {
      var text, rest := before + after, Replace(after, needle, replacement);
      assert text[0] != needle[0];
      if |text| < |needle| {
        assert rest == after;
      } else {
        assert text[1..] == before[1..] + after;
        ReplacePast(before[1..], after, needle, replacement);
        assert [before[0]] + (before[1..] + rest) == before + rest;
      }
    }
  }

  lemma ReplaceHere(after: Text, needle: Text, replacement: Text)
    requires needle != []
    ensures Replace(needle + after, needle, replacement) == replacement + Replace(after, needle, replacement)
  {
    assert (needle + after)[|needle|..] == after;
  }

  /** Joining undoes splitting, and no part contains the separator. */
  lemma {:induction false} JoinSplit(text: Text, separator: Byte)
    ensures Join(Split(text, separator), separator) == text
    ensures forall part :: part in Split(text, separator) ==> separator !in part
    decreases |text|
  {
    var i := Find(text, separator);
    if i < |text| {
      JoinSplit(text[i + 1..], separator);
      var parts := [text[..i]] + Split(text[i + 1..], separator);
      assert parts[1..] == Split(text[i + 1..], separator);
      assert text == text[..i] + [separator] + text[i + 1..];
    }
  }
}
