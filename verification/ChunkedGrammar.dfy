/** Exactly which inputs the chunked decoder accepts, and which of them an encoder can have sent. */
module ChunkedGrammar {
  import opened Graphs
  import opened Sums
  import opened HexNumbers
  import opened ChunkedBody

  /** A chunk as the decoder takes it: any line that a number can be read from, and data. */
  datatype LaxChunk = LaxChunk(line: bytes, data: bytes)

  /** A line that ends with its first CR LF and is not too long. */
  ghost predicate IsLine(line: bytes, bufsize: nat) {
    LineLength(line) == Some(|line|) && |line| <= bufsize
  }

  function SizeOf(line: bytes): Option<int> {
    ParseInt(BeforeSemicolon(line))
  }

  /** The size is not 0; a negative size goes with no data. */
  ghost predicate IsLax(c: LaxChunk, bufsize: nat) {
    && IsLine(c.line, bufsize) && SizeOf(c.line).Some? && SizeOf(c.line).value != 0
    && |c.data| == (if SizeOf(c.line).value < 0 then 0 else SizeOf(c.line).value)
  }

  ghost predicate AreLax(chunks: seq<LaxChunk>, bufsize: nat) {
    forall i :: 0 <= i < |chunks| ==> IsLax(chunks[i], bufsize)
  }

  ghost predicate IsLaxLast(line: bytes, bufsize: nat) {
    IsLine(line, bufsize) && SizeOf(line) == Some(0)
  }

  function EncodeLax(chunks: seq<LaxChunk>): bytes {
    if chunks == [] then [] else chunks[0].line + chunks[0].data + [CR, LF] + EncodeLax(chunks[1..])
  }

  function LaxBody(chunks: seq<LaxChunk>): bytes {
    if chunks == [] then [] else chunks[0].data + LaxBody(chunks[1..])
  }

  /** s is a list of such chunks, a last line of size 0, and whatever follows. */
  ghost predicate Parses(s: bytes, bufsize: nat, chunks: seq<LaxChunk>, last: bytes, rest: bytes) {
    AreLax(chunks, bufsize) && IsLaxLast(last, bufsize) && s == EncodeLax(chunks) + last + rest
  }

  lemma LineOfPrefix(line: bytes, rest: bytes)
    requires LineLength(line) == Some(|line|)
    ensures LineLength(line + rest) == Some(|line|) && (line + rest)[..|line|] == line
      && (line + rest)[|line|..] == rest
  {
    var s, m := line + rest, |line|;
    LineLengthIsFirst(line, m);
    assert PairAt(s, m - 2);
    forall k | 0 <= k < m - 2 ensures !PairAt(s, k) { assert !PairAt(line, k); }
    LineLengthIsFirst(s, m);
  }

  lemma PrefixIsLine(s: bytes, m: nat)
    requires LineLength(s) == Some(m) && m <= |s|
    ensures LineLength(s[..m]) == Some(m)
  {
    LineLengthIsFirst(s, m);
    var line := s[..m];
    forall k | PairAt(line, k) ensures k >= m - 2 { assert PairAt(s, k); }
    assert PairAt(line, m - 2);
    LineLengthIsFirst(line, m);
  }

  lemma DecodeLaxChunk(c: LaxChunk, later: bytes, bufsize: nat)
    requires IsLax(c, bufsize)
    ensures Decode(c.line + (c.data + [CR, LF] + later), bufsize) == Prepend(c.data, Decode(later, bufsize))
  {
    var rest := c.data + [CR, LF] + later;
    LineOfPrefix(c.line, rest);
    assert rest[..|c.data|] == c.data && PairAt(rest, |c.data|) && rest[|c.data| + 2..] == later;
  }

  lemma EncodingSplits(chunks: seq<LaxChunk>, last: bytes, rest: bytes, c: LaxChunk, later: bytes)
    requires chunks != [] && c == chunks[0] && later == EncodeLax(chunks[1..]) + last + rest
    ensures EncodeLax(chunks) + last + rest == c.line + (c.data + [CR, LF] + later)
  {
    var a, b := c.line + c.data, EncodeLax(chunks[1..]);
    assert a + [CR, LF] + b + last + rest == a + [CR, LF] + (b + last + rest);
    assert a + [CR, LF] + later == c.line + (c.data + [CR, LF] + later);
  }

  lemma {:induction false} ParsedIsDecoded(s: bytes, bufsize: nat, chunks: seq<LaxChunk>, last: bytes, rest: bytes)
    requires Parses(s, bufsize, chunks, last, rest)
    ensures Decode(s, bufsize) == Decoded(true, LaxBody(chunks), rest)
    decreases |chunks|
  {
    if chunks == [] {
      assert s == last + rest;
      LineOfPrefix(last, rest);
    } else {
      var c, later := chunks[0], EncodeLax(chunks[1..]) + last + rest;
      EncodingSplits(chunks, last, rest, c, later);
      DecodeLaxChunk(c, later, bufsize);
      ParsedIsDecoded(later, bufsize, chunks[1..], last, rest);
    }
  }

  lemma AcceptedLine(s: bytes, bufsize: nat) returns (line: bytes, t: bytes)
    requires Decode(s, bufsize).ok
    ensures s == line + t && |line| > 0 && IsLine(line, bufsize) && SizeOf(line).Some?
    ensures SizeOf(line).value != 0 ==> AfterLine(t, SizeOf(line).value, bufsize).ok
  {
    var m := LineLength(s).value;
    line, t := s[..m], s[m..];
    LineLengthIsFirst(s, m);
    PrefixIsLine(s, m);
  }

  lemma AcceptedData(t: bytes, size: int, bufsize: nat) returns (data: bytes, u: bytes)
    requires AfterLine(t, size, bufsize).ok
    ensures t == data + [CR, LF] + u && |data| == (if size < 0 then 0 else size) && Decode(u, bufsize).ok
  {
    var n := if size < 0 then 0 else size;
    data, u := t[..n], t[n + 2..];
  }

  /** What an accepted input begins with, and what is accepted after it. */
  lemma AcceptedStep(s: bytes, bufsize: nat) returns (c: LaxChunk, t: bytes)
    requires Decode(s, bufsize).ok
    ensures |t| < |s|
    ensures if SizeOf(c.line) == Some(0) then IsLaxLast(c.line, bufsize) && s == c.line + t
      else IsLax(c, bufsize) && Decode(t, bufsize).ok && s == c.line + (c.data + [CR, LF] + t)
  {
    var line, u := AcceptedLine(s, bufsize);
    c, t := LaxChunk(line, []), u;
    if SizeOf(line).value != 0 {
      var data;
      data, t := AcceptedData(u, SizeOf(line).value, bufsize);
      c := LaxChunk(line, data);
    }
  }

  lemma ParsesOneMore(s: bytes, bufsize: nat, c: LaxChunk, t: bytes, later: seq<LaxChunk>, last: bytes, rest: bytes)
    requires IsLax(c, bufsize) && s == c.line + (c.data + [CR, LF] + t) && Parses(t, bufsize, later, last, rest)
    ensures Parses(s, bufsize, [c] + later, last, rest)
  {
    var chunks := [c] + later;
    assert chunks[1..] == later;
    EncodingSplits(chunks, last, rest, c, t);
  }

  lemma {:induction false} DecodedIsParsed(s: bytes, bufsize: nat)
    returns (chunks: seq<LaxChunk>, last: bytes, rest: bytes)
    requires Decode(s, bufsize).ok
    ensures Parses(s, bufsize, chunks, last, rest)
    decreases |s|
  {
    var c, t := AcceptedStep(s, bufsize);
    if SizeOf(c.line) == Some(0) {
      chunks, last, rest := [], c.line, t;
      assert EncodeLax(chunks) + last + rest == last + rest;
    } else {
      var later;
      later, last, rest := DecodedIsParsed(t, bufsize);
      chunks := [c] + later;
      ParsesOneMore(s, bufsize, c, t, later, last, rest);
    }
  }

  /** The decoder accepts exactly the inputs of this grammar, and hands out exactly their data. */
  lemma AcceptsIffParses(s: bytes, bufsize: nat)
    ensures Decode(s, bufsize).ok <==> exists chunks, last, rest :: Parses(s, bufsize, chunks, last, rest)
    ensures forall chunks, last, rest :: Parses(s, bufsize, chunks, last, rest) ==>
      Decode(s, bufsize) == Decoded(true, LaxBody(chunks), rest)
  {
    if Decode(s, bufsize).ok {
      var chunks, last, rest := DecodedIsParsed(s, bufsize);
    }
    forall chunks, last, rest | Parses(s, bufsize, chunks, last, rest)
      ensures Decode(s, bufsize) == Decoded(true, LaxBody(chunks), rest) {
      ParsedIsDecoded(s, bufsize, chunks, last, rest);
    }
  }

  // ----- the form an encoder sends -----

  function NoUnderscores(s: bytes): bytes {
    if s == [] then [] else NoUnderscores(s[..|s| - 1]) + if s[|s| - 1] == UNDERSCORE then [] else [s[|s| - 1]]
  }

  function Unsigned(s: bytes): bytes {
    if s != [] && (s[0] == 45 || s[0] == 43) then s[1..] else s
  }

  /** The digits of a number, without space around it, sign, prefix and underscores. */
  function Core(text: bytes): bytes {
    NoUnderscores(WithoutPrefix(Unsigned(StripRight(StripLeft(text)))))
  }

  /** What stands between the size and the end of the line. */
  function ExtensionOf(line: bytes): bytes
    requires |line| >= 2
  {
    var n := |BeforeSemicolon(line)|;
    if n < |line| - 2 then line[n..|line| - 2] else []
  }

  lemma OneMoreDigit(d: bytes, n: nat, c: byte)
    requires IsSize(d, n) && DigitOf(c).Some?
    ensures IsSize(d + [c], 16 * n + DigitOf(c).value)
  {
    SizeReads(d, n);
    assert (d + [c])[..|d|] == d && d[|d| - 1] != UNDERSCORE;
    SizeIffRead(d + [c], 16 * n + DigitOf(c).value);
  }

  lemma {:induction false} UnderscoresDoNotCount(s: bytes)
    requires DigitsValue(s).Some?
    ensures IsSize(NoUnderscores(s), DigitsValue(s).value)
    decreases |s|
  {
    var k := |s| - 1;
    var before := s[..k];
    if before == [] {
      assert NoUnderscores(s) == s;
      SizeIffRead(s, DigitsValue(s).value);
    } else {
      var shorter := if before[k - 1] == UNDERSCORE then before[..k - 1] else before;
      UnderscoresDoNotCount(shorter);
      OneMoreDigit(NoUnderscores(shorter), DigitsValue(shorter).value, s[k]);
      assert NoUnderscores(before) == NoUnderscores(shorter);
    }
  }

  lemma {:induction false} NoUnderscoresIsShorter(s: bytes)
    ensures |NoUnderscores(s)| <= |s|
    decreases |s|
  {
    if s != [] { NoUnderscoresIsShorter(s[..|s| - 1]); }
  }

  /** The core has the value of the number without its sign. */
  lemma CoreHasValue(text: bytes)
    requires ParseInt(text).Some?
    ensures var n := ParseInt(text).value; IsSize(Core(text), if n < 0 then -n else n)
  {
    UnderscoresDoNotCount(WithoutPrefix(Unsigned(StripRight(StripLeft(text)))));
  }

  lemma {:induction false} StripLeftIsShorter(s: bytes)
    ensures |StripLeft(s)| <= |s|
    ensures |StripLeft(s)| > 0 ==> StripLeft(s) == s[|s| - |StripLeft(s)|..]
  {
    if s != [] && IsSpace(s[0]) { StripLeftIsShorter(s[1..]); }
  }

  lemma {:induction false} StripRightIsShorter(s: bytes)
    ensures |StripRight(s)| <= |s|
    ensures |s| > 0 && IsSpace(s[|s| - 1]) ==> |StripRight(s)| <= |s| - 1
    ensures |s| > 1 && IsSpace(s[|s| - 1]) && IsSpace(s[|s| - 2]) ==> |StripRight(s)| <= |s| - 2
  {
    if s != [] && IsSpace(s[|s| - 1]) { StripRightIsShorter(s[..|s| - 1]); }
  }

  lemma CoreIsShorter(text: bytes)
    ensures |Core(text)| <= |text|
    ensures |text| >= 2 && text[|text| - 2..] == [CR, LF] ==> |Core(text)| <= |text| - 2
  {
    var l := StripLeft(text);
    StripLeftIsShorter(text);
    StripRightIsShorter(l);
    NoUnderscoresIsShorter(WithoutPrefix(Unsigned(StripRight(l))));
    if |text| >= 2 && text[|text| - 2..] == [CR, LF] {
      assert text[|text| - 2] == CR && text[|text| - 1] == LF;
    }
  }

  lemma {:induction false} BeforeSemicolonIsPrefix(s: bytes)
    ensures var n := |BeforeSemicolon(s)|; n <= |s| && BeforeSemicolon(s) == s[..n] && (n < |s| ==> s[n] == SEMICOLON)
  {
    if s != [] && s[0] != SEMICOLON { BeforeSemicolonIsPrefix(s[1..]); }
  }

  /** c is the same chunk in the form an encoder sends. */
  ghost predicate IsFormOf(c: Chunk, lax: LaxChunk)
    requires |lax.line| >= 2
  {
    c.digits == Core(BeforeSemicolon(lax.line)) && c.ext == ExtensionOf(lax.line) && c.data == lax.data
  }

  lemma SemicolonBeforeEnd(line: bytes)
    requires LineLength(line) == Some(|line|)
    ensures |line| >= 2 && line[|line| - 2..] == [CR, LF]
    ensures var n := |BeforeSemicolon(line)|; BeforeSemicolon(line) == line || n < |line| - 2
  {
    EndsWithPair(line);
    BeforeSemicolonIsPrefix(line);
    var n := |BeforeSemicolon(line)|;
    if n == |line| { assert line[..n] == line; }
  }

  lemma EndsWithPair(line: bytes)
    requires LineLength(line) == Some(|line|)
    ensures |line| >= 2 && line[|line| - 2] == CR && line[|line| - 1] == LF && line[|line| - 2..] == [CR, LF]
  {
    LineLengthIsFirst(line, |line|);
    assert PairAt(line, |line| - 2);
  }

  lemma ExtensionIsOne(line: bytes)
    requires LineLength(line) == Some(|line|) && |line| >= 2
    ensures IsExtension(ExtensionOf(line))
  {
    LineLengthIsFirst(line, |line|);
    BeforeSemicolonIsPrefix(line);
    var n, ext := |BeforeSemicolon(line)|, ExtensionOf(line);
    forall k | 0 <= k < |ext| - 1 ensures !PairAt(ext, k) {
      assert !PairAt(line, n + k);
    }
  }

  lemma LineSplits(line: bytes, bufsize: nat)
    requires IsLine(line, bufsize)
    ensures |line| >= 2 && IsExtension(ExtensionOf(line))
      && |Core(BeforeSemicolon(line))| + |ExtensionOf(line)| + 2 <= bufsize
  {
    SemicolonBeforeEnd(line);
    ExtensionIsOne(line);
    CoreIsShorter(BeforeSemicolon(line));
  }

  lemma NegativeIsNotSent(lax: LaxChunk, bufsize: nat, d: Chunk)
    requires IsLax(lax, bufsize) && |lax.line| >= 2 && IsFormOf(d, lax) && SizeOf(lax.line).value < 0
    ensures !IsChunk(d, bufsize)
  {
    CoreHasValue(BeforeSemicolon(lax.line));
    if IsChunk(d, bufsize) { OneSizeOnly(d.digits, -SizeOf(lax.line).value, 0); }
  }

  /** A chunk that the decoder accepts is one that an encoder can have sent, up to sign, prefix, spaces and
      underscores of its size, exactly if its size is not negative. */
  lemma SendableIffNotNegative(lax: LaxChunk, bufsize: nat)
    requires IsLax(lax, bufsize)
    ensures |lax.line| >= 2
    ensures (exists c :: IsChunk(c, bufsize) && IsFormOf(c, lax)) <==> SizeOf(lax.line).value >= 0
  {
    LineSplits(lax.line, bufsize);
    CoreHasValue(BeforeSemicolon(lax.line));
    var c := Chunk(Core(BeforeSemicolon(lax.line)), ExtensionOf(lax.line), lax.data);
    assert IsFormOf(c, lax);
    if SizeOf(lax.line).value >= 0 {
      assert IsChunk(c, bufsize);
    } else {
      forall d | IsFormOf(d, lax) ensures !IsChunk(d, bufsize) { NegativeIsNotSent(lax, bufsize, d); }
    }
  }

  /** So is the last line, always. */
  lemma LastIsSendable(line: bytes, bufsize: nat)
    requires IsLaxLast(line, bufsize)
    ensures |line| >= 2
    ensures IsChunk(Chunk(Core(BeforeSemicolon(line)), ExtensionOf(line), []), bufsize)
  {
    LineSplits(line, bufsize);
    CoreHasValue(BeforeSemicolon(line));
  }

  lemma NegativeLineReads()
    ensures SizeOf([45, 49, CR, LF]) == Some(-1) && LineLength([45, 49, CR, LF]) == Some(4)
  {
    var line: bytes, digits: bytes := [45, 49, CR, LF], [45, 49];
    assert line[1..] == [49, CR, LF] && [49, CR, LF][1..] == [CR, LF] && [CR, LF][1..] == [LF] && [LF][1..] == [];
    assert BeforeSemicolon([LF]) == [LF] && BeforeSemicolon([CR, LF]) == [CR, LF];
    assert BeforeSemicolon([49, CR, LF]) == [49, CR, LF] && BeforeSemicolon(line) == line;
    assert line[..3] == [45, 49, CR] && [45, 49, CR][..2] == digits;
    assert StripRight([45, 49, CR]) == digits && StripRight(line) == digits;
    assert digits[1..] == [49] && DigitsValue([49]) == Some(1);
    assert LineLength([CR, LF]) == Some(2) && LineLength([49, CR, LF]) == Some(3);
  }

  lemma ZeroLineReads()
    ensures SizeOf([48, CR, LF]) == Some(0) && LineLength([48, CR, LF]) == Some(3)
  {
    var line: bytes := [48, CR, LF];
    assert line[1..] == [CR, LF] && [CR, LF][1..] == [LF] && [LF][1..] == [];
    assert BeforeSemicolon([LF]) == [LF] && BeforeSemicolon([CR, LF]) == [CR, LF] && BeforeSemicolon(line) == line;
    assert line[..2] == [48, CR] && [48, CR][..1] == [48];
    assert StripRight([48, CR]) == [48] && StripRight(line) == [48];
    assert DigitsValue([48]) == Some(0) && LineLength([CR, LF]) == Some(2);
  }

  /** The input "-1 CR LF CR LF 0 CR LF" is accepted, as a body without data. */
  lemma NegativeSizeIsAccepted(bufsize: nat)
    requires bufsize >= 4
    ensures Decode([45, 49, CR, LF, CR, LF, 48, CR, LF], bufsize) == Decoded(true, [], [])
  {
    NegativeLineReads();
    ZeroLineReads();
    var c, last := LaxChunk([45, 49, CR, LF], []), [48, CR, LF];
    var s := [45, 49, CR, LF, CR, LF, 48, CR, LF];
    assert EncodeLax([c][1..]) == [] && s == EncodeLax([c]) + last + [];
    assert LaxBody([c][1..]) == [] && LaxBody([c]) == [];
    ParsedIsDecoded(s, bufsize, [c], last, []);
  }
}
