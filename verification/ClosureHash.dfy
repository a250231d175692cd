/** The byte stream that is hashed for a closure of several files: every path and every
    content is preceded by its length. */
module ClosureHash {

  type Byte = n: nat | n < 256
  type Bytes = seq<Byte>

  function Power(k: nat): nat {
    if k == 0 then 1 else 256 * Power(k - 1)
  }

  /** A text whose length fits into eight bytes. */
  type Chunk = text: Bytes | |text| < Power(8) witness []

  datatype File = File(path: Chunk, content: Chunk)

  function BigEndian(n: nat, k: nat): (digits: Bytes)
    ensures |digits| == k
  {
    if k == 0 then [] else BigEndian(n / 256, k - 1) + [n % 256]
  }

  function Framed(text: Chunk): Bytes {
    BigEndian(|text|, 8) + text
  }

  function Stream(files: seq<File>): Bytes {
    if files == [] then [] else Framed(files[0].path) + Framed(files[0].content) + Stream(files[1..])
  }

  method WriteFiles(files: seq<File>) returns (stream: Bytes)
    ensures stream == Stream(files) && Holds(stream, files)
  {
    hide Framed, Holds;
    StreamHolds(files);
    stream := [];
    assert files[0..] == files;
    for i := 0 to |files|
      invariant stream + Stream(files[i..]) == Stream(files)
    {
      assert files[i..][1..] == files[i + 1..];
      ghost var before := stream;
      stream := stream + Framed(files[i].path);
      stream := stream + Framed(files[i].content);
      assert stream + Stream(files[i + 1..]) == before + (Framed(files[i].path) + Framed(files[i].content) + Stream(files[i + 1..]));
    }
  }

  lemma {:induction false} BigEndianInjective(a: nat, b: nat, k: nat)
    requires a < Power(k) && b < Power(k) && BigEndian(a, k) == BigEndian(b, k)
    ensures a == b
  {
    if k > 0 {
      var x, y := BigEndian(a, k), BigEndian(b, k);
      assert x[k - 1] == a % 256 && y[k - 1] == b % 256;
      assert x[..k - 1] == BigEndian(a / 256, k - 1) && y[..k - 1] == BigEndian(b / 256, k - 1);
      BigEndianInjective(a / 256, b / 256, k - 1);
    }
  }

  /** A framed text at the front of a stream can be told from what follows it. */
  lemma FrameSplits(a: Chunk, b: Chunk, after: Bytes, behind: Bytes)
    requires Framed(a) + after == Framed(b) + behind
    ensures a == b && after == behind
  {
    hide Power, BigEndian;
    var stream := Framed(a) + after;
    assert stream[..8] == BigEndian(|a|, 8) && stream[..8] == BigEndian(|b|, 8);
    BigEndianInjective(|a|, |b|, 8);
    assert stream[8..8 + |a|] == a && stream[8..8 + |b|] == b;
    assert stream[8 + |a|..] == after && stream[8 + |b|..] == behind;
  }

  /** Equal streams come from equal files. */
  lemma {:induction false} StreamsTellFilesApart(a: seq<File>, b: seq<File>)
    requires Stream(a) == Stream(b)
    ensures a == b
  {
    hide Framed;
    if a == [] || b == [] {
      NotEmpty(a);
      NotEmpty(b);
    } else {
      assert Stream(a) == Framed(a[0].path) + (Framed(a[0].content) + Stream(a[1..]));
      assert Stream(b) == Framed(b[0].path) + (Framed(b[0].content) + Stream(b[1..]));
      FrameSplits(a[0].path, b[0].path, Framed(a[0].content) + Stream(a[1..]), Framed(b[0].content) + Stream(b[1..]));
      FrameSplits(a[0].content, b[0].content, Stream(a[1..]), Stream(b[1..]));
      StreamsTellFilesApart(a[1..], b[1..]);
      assert a == [a[0]] + a[1..] && b == [b[0]] + b[1..];
    }
  }

  lemma NotEmpty(files: seq<File>)
    ensures Stream(files) == [] <==> files == []
  {
    if files != [] {
      assert |Framed(files[0].path)| >= 8;
    }
  }

  // ----- reading a stream

  /** The number with these digits, the most significant first. */
  ghost function Number(digits: Bytes): nat {
    if digits == [] then 0 else digits[0] * Power(|digits| - 1) + Number(digits[1..])
  }

  lemma {:induction false} NumberOfMore(digits: Bytes, last: Byte)
    ensures Number(digits + [last]) == 256 * Number(digits) + last
  {
    var more := digits + [last];
    if digits == [] {
      assert more[1..] == [];
      assert Power(0) == 1;
    } else {
      assert more[1..] == digits[1..] + [last];
      NumberOfMore(digits[1..], last);
      assert Power(|digits|) == 256 * Power(|digits| - 1);
      assert digits[0] * (256 * Power(|digits| - 1)) == 256 * (digits[0] * Power(|digits| - 1));
    }
  }

  lemma {:induction false} BigEndianReads(n: nat, k: nat)
    requires n < Power(k)
    ensures Number(BigEndian(n, k)) == n
  {
    if k > 0 {
      BigEndianReads(n / 256, k - 1);
      NumberOfMore(BigEndian(n / 256, k - 1), n % 256);
    }
  }

  /** Eight digits give the length of the text that follows them. */
  ghost predicate StartsWith(stream: Bytes, text: Bytes, rest: Bytes) {
    && |stream| == 8 + |text| + |rest|
    && Number(stream[..8]) == |text|
    && stream[8..8 + |text|] == text
    && stream[8 + |text|..] == rest
  }

  /** File after file its path and its content, and nothing else. */
  ghost predicate Holds(stream: Bytes, files: seq<File>) {
    if files == [] then stream == []
    else exists middle, rest :: StartsWith(stream, files[0].path, middle) && StartsWith(middle, files[0].content, rest) && Holds(rest, files[1..])
  }

  lemma FramedStarts(text: Chunk, rest: Bytes)
    ensures StartsWith(Framed(text) + rest, text, rest)
  {
    hide BigEndian, Number, Power;
    BigEndianReads(|text|, 8);
    assert (Framed(text) + rest)[..8] == BigEndian(|text|, 8);
  }

  /** The stream is read back as the files. */
  lemma {:induction false} StreamHolds(files: seq<File>)
    ensures Holds(Stream(files), files)
  {
    hide Framed, StartsWith;
    if files != [] {
      var rest := Stream(files[1..]);
      var middle := Framed(files[0].content) + rest;
      StreamHolds(files[1..]);
      FramedStarts(files[0].path, middle);
      FramedStarts(files[0].content, rest);
      assert Stream(files) == Framed(files[0].path) + middle;
    }
  }
}
