/** Reading a request body: plain, or in the chunked transfer coding. */
module ChunkedBody {
  import opened Graphs
  import opened Sums
  import opened HexNumbers

  // ----- the size line -----

  /** What precedes the first semicolon, or everything. */
  function BeforeSemicolon(s: bytes): bytes {
    if s == [] || s[0] == SEMICOLON then [] else [s[0]] + BeforeSemicolon(s[1..])
  }

  predicate PairAt(s: bytes, k: int) {
    0 <= k < |s| - 1 && s[k] == CR && s[k + 1] == LF
  }

  /** The number of bytes up to and with the first CR LF. */
  function LineLength(s: bytes): Option<nat> {
    if |s| < 2 then None
    else if s[0] == CR && s[1] == LF then Some(2)
    else
      var m := LineLength(s[1..]);
      if m.None? then None else Some(m.value + 1)
  }

  lemma {:induction false} LineLengthIsFirst(s: bytes, m: nat)
    ensures LineLength(s) == Some(m) <==> m >= 2 && PairAt(s, m - 2) && forall k :: PairAt(s, k) ==> k >= m - 2
    decreases |s|
  {
    if |s| >= 2 {
      if PairAt(s, 0) {
        if m > 2 && LineLength(s) != Some(m) { assert PairAt(s, 0); }
      } else if m > 0 {
        LineLengthIsFirst(s[1..], m - 1);
        forall k ensures PairAt(s, k) <==> PairAt(s[1..], k - 1) {}
        assert (forall k :: PairAt(s, k) ==> k >= m - 2) <==> (forall k :: PairAt(s[1..], k) ==> k >= m - 3) by {
          if forall k :: PairAt(s, k) ==> k >= m - 2 {
            forall k | PairAt(s[1..], k) ensures k >= m - 3 { assert PairAt(s, k + 1); }
          }
        }
      }
    }
  }

  lemma {:induction false} NoLine(s: bytes)
    ensures LineLength(s).None? <==> forall k :: !PairAt(s, k)
    decreases |s|
  {
    if LineLength(s).Some? {
      LineLengthIsFirst(s, LineLength(s).value);
    } else if |s| >= 2 {
      NoLine(s[1..]);
      forall k ensures !PairAt(s, k) {
        assert !PairAt(s[1..], k - 1);
      }
    }
  }

  // ----- what the input means -----

  /** ok tells whether the coding was kept to; body is what was handed out; rest is left unread. */
  datatype Decoded = Decoded(ok: bool, body: bytes, rest: bytes)

  function Prepend(data: bytes, d: Decoded): Decoded {
    Decoded(d.ok, data + d.body, d.rest)
  }

  /** The whole decoding, on the input as one string. The part after the last chunk's line is not read. */
  function Decode(s: bytes, bufsize: nat): Decoded
    decreases |s|
  {
    var line := LineLength(s);
    if line.None? || line.value > bufsize || |s| < line.value then Decoded(false, [], [])
    else
      var size := ParseInt(BeforeSemicolon(s[..line.value]));
      if size.None? then Decoded(false, [], [])
      else if size.value == 0 then Decoded(true, [], s[line.value..])
      else AfterLine(s[line.value..], size.value, bufsize)
  }

  /** The data of a chunk and what follows it. A negative size counts as no data. */
  function AfterLine(s: bytes, size: int, bufsize: nat): Decoded
    decreases |s|
  {
    var n := if size < 0 then 0 else size;
    if |s| < n then Decoded(false, s, [])
    else if !PairAt(s, n) then Decoded(false, s[..n], [])
    else Prepend(s[..n], Decode(s[n + 2..], bufsize))
  }

  // ----- the encoder of section 4.1 of RFC 7230 -----

  /** A chunk as it may be sent: a size in hexadecimal digits, extensions, and data. */
  datatype Chunk = Chunk(digits: bytes, ext: bytes, data: bytes)

  ghost predicate IsExtension(ext: bytes) {
    ext == [] || (ext[0] == SEMICOLON && forall k :: !PairAt(ext, k))
  }

  ghost predicate IsChunk(c: Chunk, bufsize: nat) {
    IsSize(c.digits, |c.data|) && IsExtension(c.ext) && |c.digits| + |c.ext| + 2 <= bufsize
  }

  function SizeLine(c: Chunk): bytes {
    c.digits + c.ext + [CR, LF]
  }

  function Encode(chunks: seq<Chunk>): bytes {
    if chunks == [] then [] else SizeLine(chunks[0]) + chunks[0].data + [CR, LF] + Encode(chunks[1..])
  }

  function BodyOf(chunks: seq<Chunk>): bytes {
    if chunks == [] then [] else chunks[0].data + BodyOf(chunks[1..])
  }

  lemma {:induction false} BeforeExtension(digits: bytes, rest: bytes)
    requires forall k :: 0 <= k < |digits| ==> DigitOf(digits[k]).Some?
    requires rest == [CR, LF] || (rest != [] && rest[0] == SEMICOLON)
    ensures BeforeSemicolon(digits + rest) == digits + if rest == [CR, LF] then rest else []
    decreases |digits|
  {
    var s := digits + rest;
    if digits == [] {
      assert s == rest;
      if rest == [CR, LF] {
        assert rest[1..] == [LF];
        assert BeforeSemicolon([LF]) == [LF] + BeforeSemicolon([LF][1..]);
      }
    } else {
      assert s[1..] == digits[1..] + rest;
      BeforeExtension(digits[1..], rest);
      assert [digits[0]] + digits[1..] == digits;
      assert digits + [] == digits;
    }
  }

  lemma SizeLineIsRead(c: Chunk, n: nat, rest: bytes)
    requires IsSize(c.digits, n) && IsExtension(c.ext)
    ensures var s := SizeLine(c) + rest; var m := |c.digits| + |c.ext| + 2;
      LineLength(s) == Some(m) && s[..m] == SizeLine(c) && s[m..] == rest
        && ParseInt(BeforeSemicolon(s[..m])) == Some(n)
  {
    var s, m := SizeLine(c) + rest, |c.digits| + |c.ext| + 2;
    DigitsOnly(c.digits, n);
    forall k | 0 <= k < m - 2 ensures !PairAt(s, k) {
      assert s[k] == (c.digits + c.ext)[k];
      assert !PairAt(c.ext, k - |c.digits|);
    }
    LineLengthIsFirst(s, m);
    assert s[..m] == SizeLine(c);
    if c.ext == [] {
      assert SizeLine(c) == c.digits + [CR, LF];
      BeforeExtension(c.digits, [CR, LF]);
      SizeIsParsed(c.digits, n, [CR, LF]);
    } else {
      assert SizeLine(c) == c.digits + (c.ext + [CR, LF]);
      BeforeExtension(c.digits, c.ext + [CR, LF]);
      assert c.digits + [] == c.digits;
      SizeIsParsed(c.digits, n, []);
    }
  }

  lemma DecodeOneChunk(c: Chunk, later: bytes, bufsize: nat)
    requires IsChunk(c, bufsize) && c.data != []
    ensures Decode(SizeLine(c) + (c.data + [CR, LF] + later), bufsize) == Prepend(c.data, Decode(later, bufsize))
  {
    var rest := c.data + [CR, LF] + later;
    SizeLineIsRead(c, |c.data|, rest);
    assert rest[..|c.data|] == c.data && PairAt(rest, |c.data|) && rest[|c.data| + 2..] == later;
  }

  /** Decoding inverts encoding: chunks that are not empty, a last chunk of size 0, and whatever follows. */
  lemma {:induction false} DecodeInvertsEncode(chunks: seq<Chunk>, last: Chunk, tail: bytes, bufsize: nat)
    requires forall i :: 0 <= i < |chunks| ==> IsChunk(chunks[i], bufsize) && chunks[i].data != []
    requires IsChunk(last, bufsize) && last.data == []
    ensures Decode(Encode(chunks) + SizeLine(last) + tail, bufsize) == Decoded(true, BodyOf(chunks), tail)
    decreases |chunks|
  {
    var s := Encode(chunks) + SizeLine(last) + tail;
    if chunks == [] {
      assert s == SizeLine(last) + tail;
      SizeLineIsRead(last, 0, tail);
    } else {
      var c := chunks[0];
      var later := Encode(chunks[1..]) + SizeLine(last) + tail;
      assert s == SizeLine(c) + (c.data + [CR, LF] + later);
      DecodeOneChunk(c, later, bufsize);
      DecodeInvertsEncode(chunks[1..], last, tail, bufsize);
    }
  }

  // ----- the program -----

  /** How many bytes a stream wants to give at a place of the input when so many are asked for. */
  type Answers = (nat, nat) -> nat

  /** What it gives, if so many are left: never nothing while something is left and asked for. */
  function Given(answers: Answers, at: nat, n: nat, left: nat): (k: nat)
    ensures k <= n && k <= left && (k == 0 <==> n == 0 || left == 0)
  {
    var most := MinInt(n, left);
    if answers(at, n) >= most then most else if answers(at, n) == 0 then MinInt(1, most) else answers(at, n)
  }

  /** The input stream, with the place it has come to. A read may come back short. */
  class Reader {
    const answers: Answers
    var rest: bytes
    var at: nat

    constructor (input: bytes, answers: Answers)
      ensures this.answers == answers && rest == input && at == 0
    {
      this.answers, rest, at := answers, input, 0;
    }

    method Read(n: nat) returns (part: bytes)
      modifies this
      ensures |part| == Given(answers, old(at), n, |old(rest)|)
      ensures part + rest == old(rest) && at == old(at) + |part|
    {
      var k := Given(answers, at, n, |rest|);
      part := rest[..k];
      rest := rest[k..];
      at := at + k;
    }
  }

  /** Whether the decoding comes to the end of a chunk whose two bytes the stream does not give at once. */
  predicate Torn(s: bytes, at: nat, bufsize: nat, answers: Answers)
    decreases |s|
  {
    var line := LineLength(s);
    if line.None? || line.value > bufsize || |s| < line.value then false
    else
      var size := ParseInt(BeforeSemicolon(s[..line.value]));
      if size.None? || size.value == 0 then false
      else TornAfterLine(s[line.value..], at + line.value, size.value, bufsize, answers)
  }

  predicate TornAfterLine(s: bytes, at: nat, size: int, bufsize: nat, answers: Answers)
    decreases |s|
  {
    var n := if size < 0 then 0 else size;
    if |s| < n + 2 then false
    else Given(answers, at + n, 2, |s| - n) < 2 || (PairAt(s, n) && Torn(s[n + 2..], at + n + 2, bufsize, answers))
  }

  /** The line read so far holds no CR LF but at its end. */
  ghost predicate Unfinished(header: bytes) {
    forall k :: PairAt(header, k) ==> k == |header| - 2
  }

  predicate EndsLine(header: bytes) {
    |header| >= 2 && PairAt(header, |header| - 2)
  }

  lemma LineIsRead(s: bytes, header: bytes, rest: bytes)
    requires s == header + rest && Unfinished(header)
    ensures EndsLine(header) ==> LineLength(s) == Some(|header|) && s[..|header|] == header && s[|header|..] == rest
    ensures !EndsLine(header) && rest == [] ==> LineLength(s).None?
    ensures LineLength(s).Some? && !EndsLine(header) ==> LineLength(s).value > |header|
  {
    NoLine(s);
    if EndsLine(header) {
      forall k ensures PairAt(s, k) ==> k >= |header| - 2 {
        if k < |header| - 2 { assert !PairAt(header, k); }
      }
      assert PairAt(s, |header| - 2);
      LineLengthIsFirst(s, |header|);
    } else {
      if rest == [] { assert s == header; }
      if LineLength(s).Some? {
        var m := LineLength(s).value;
        LineLengthIsFirst(s, m);
        assert !PairAt(header, m - 2);
      }
    }
  }

  /** Reads a size line byte by byte; it may not be longer than bufsize. */
  method ReadHeader(r: Reader, bufsize: nat) returns (ok: bool, header: bytes)
    modifies r
    ensures var line := LineLength(old(r.rest)); ok <==> line.Some? && line.value <= bufsize
    ensures ok ==>
      |header| == LineLength(old(r.rest)).value && header + r.rest == old(r.rest) && r.at == old(r.at) + |header|
  {
    ghost var s := r.rest;
    header := r.Read(1);
    while !EndsLine(header)
      invariant header + r.rest == s && r.at == old(r.at) + |header| && Unfinished(header)
        && (|header| >= 2 ==> |header| <= bufsize)
      invariant header == [] ==> r.rest == []
      decreases |r.rest|, if EndsLine(header) then 0 else 1
    {
      LineIsRead(s, header, r.rest);
      var c := r.Read(1);
      ghost var before := header;
      header := header + c;
      if c == [] { return false, header; }
      assert header + r.rest == s;
      assert Unfinished(header) by {
        forall k | PairAt(header, k) ensures k == |header| - 2 {
          if k < |header| - 2 { assert PairAt(before, k); }
        }
      }
      LineIsRead(s, header, r.rest);
      if |header| > bufsize { return false, header; }
    }
    LineIsRead(s, header, r.rest);
    ok := true;
  }

  /** All parts in the order in which they are handed out. */
  function Concat(parts: seq<bytes>): bytes {
    if parts == [] then [] else Concat(parts[..|parts| - 1]) + parts[|parts| - 1]
  }

  lemma ConcatOneMore(parts: seq<bytes>, part: bytes)
    ensures Concat(parts + [part]) == Concat(parts) + part
  {
    assert (parts + [part])[..|parts|] == parts;
  }

  lemma NextPart(s: bytes, n: nat, part: bytes)
    requires n <= |s| && part <= s[n..]
    ensures n + |part| <= |s| && s[..n] + part == s[..n + |part|] && s[n..][|part|..] == s[n + |part|..]
  {
    assert s[n..][..|part|] == part;
  }

  /** Reads the data of a chunk, in as many reads as it takes. */
  method ReadData(r: Reader, size: int, bufsize: nat, parts: seq<bytes>) returns (ok: bool, parts': seq<bytes>)
    requires bufsize > 0
    modifies r
    ensures ok <==> |old(r.rest)| >= size
    ensures var n := if size < 0 then 0 else MinInt(size, |old(r.rest)|);
      Concat(parts') == Concat(parts) + old(r.rest)[..n] && r.rest == old(r.rest)[n..] && r.at == old(r.at) + n
    ensures forall k :: 0 <= k < |parts| ==> k < |parts'| && parts'[k] == parts[k]
    ensures forall k :: |parts| <= k < |parts'| ==> 0 < |parts'[k]| <= bufsize
  {
    ghost var s := r.rest;
    parts' := parts;
    var maxread := size;
    var buff: bytes := [];
    ghost var n: nat := 0;
    assert Concat(parts') == Concat(parts) + s[..0];
    while maxread > 0
      invariant buff == [] && n <= |s| && r.rest == s[n..] && r.at == old(r.at) + n && maxread == size - n
        && (size < 0 ==> n == 0) && (size >= 0 ==> n <= size)
      invariant Concat(parts') == Concat(parts) + s[..n]
      invariant parts <= parts' && forall k :: |parts| <= k < |parts'| ==> 0 < |parts'[k]| <= bufsize
      decreases maxread
    {
      if buff == [] { buff := r.Read(MinInt(maxread, bufsize)); }
      var cut := MinInt(maxread, |buff|);
      var part := buff[..cut];
      buff := buff[cut..];
      if part == [] { return false, parts'; }
      ConcatOneMore(parts', part);
      NextPart(s, n, part);
      parts' := parts' + [part];
      maxread := maxread - |part|;
      n := n + |part|;
    }
    ok := true;
  }

  lemma PrependTwice(a: bytes, b: bytes, d: Decoded)
    ensures Prepend(a, Prepend(b, d)) == Prepend(a + b, d)
  {
    assert a + (b + d.body) == a + b + d.body;
  }

  /** Hands out the parts of a chunked body, or stops with an error after some of them. It does what Decode
      says however the stream cuts its answers, but refuses the body if the end of a chunk comes torn. */
  method IterChunked(r: Reader, bufsize: nat) returns (ok: bool, parts: seq<bytes>)
    modifies r
    ensures var d, torn := Decode(old(r.rest), bufsize), Torn(old(r.rest), old(r.at), bufsize, r.answers);
      && (ok <==> d.ok && !torn) && (ok ==> r.rest == d.rest)
      && (if torn then Concat(parts) <= d.body else Concat(parts) == d.body)
    ensures forall k :: 0 <= k < |parts| ==> 0 < |parts[k]| <= bufsize
  {
    parts := [];
    ghost var s, at := r.rest, r.at;
    while true
      invariant Decode(s, bufsize) == Prepend(Concat(parts), Decode(r.rest, bufsize))
      invariant Torn(s, at, bufsize, r.answers) == Torn(r.rest, r.at, bufsize, r.answers)
      invariant forall k :: 0 <= k < |parts| ==> 0 < |parts[k]| <= bufsize
      decreases |r.rest|
    {
      ghost var s1, at1, sofar := r.rest, r.at, Concat(parts);
      var found, header := ReadHeader(r, bufsize);
      if !found { return false, parts; }
      assert s1[..|header|] == header && s1[|header|..] == r.rest;
      var maxread := ParseInt(BeforeSemicolon(header));
      if maxread.None? { return false, parts; }
      if maxread.value == 0 { return true, parts; }
      ghost var s2, at2 := r.rest, r.at;
      assert Decode(s1, bufsize) == AfterLine(s2, maxread.value, bufsize);
      assert Torn(s1, at1, bufsize, r.answers) == TornAfterLine(s2, at2, maxread.value, bufsize, r.answers);
      ok, parts := ReadChunk(r, maxread.value, bufsize, parts);
      ChunkMeans(s2, at2, maxread.value, bufsize, r.answers, ok, sofar, Concat(parts), r.rest, r.at);
      assert Decode(s, bufsize) == Prepend(sofar, AfterLine(s2, maxread.value, bufsize));
      if !ok { return false, parts; }
    }
  }

  lemma ChunkMeans(s: bytes, at: nat, size: int, bufsize: nat, answers: Answers, ok: bool, before: bytes, after: bytes,
                   rest: bytes, at': nat)
    requires ChunkRead(s, at, size, answers, ok, before, after, rest, at')
    ensures var d, torn := Prepend(before, AfterLine(s, size, bufsize)), TornAfterLine(s, at, size, bufsize, answers);
      if ok then d == Prepend(after, Decode(rest, bufsize)) && torn == Torn(rest, at', bufsize, answers)
      else if torn then after <= d.body else !d.ok && after == d.body
  {
    var n := if size < 0 then 0 else size;
    if |s| < n {
      assert AfterLine(s, size, bufsize) == Decoded(false, s, []);
    } else if !PairAt(s, n) {
      assert AfterLine(s, size, bufsize) == Decoded(false, s[..n], []);
    } else {
      var later := Decode(s[n + 2..], bufsize);
      assert AfterLine(s, size, bufsize) == Prepend(s[..n], later);
      PrependTwice(before, s[..n], later);
      assert after == before + s[..n];
    }
  }

  /** What one chunk, its size line being read, leaves behind. */
  ghost predicate ChunkRead(s: bytes, at: nat, size: int, answers: Answers, ok: bool, before: bytes, after: bytes,
                            rest: bytes, at': nat) {
    var n := if size < 0 then 0 else size;
    if |s| < n then !ok && after == before + s
    else
      && after == before + s[..n]
      && (ok <==> PairAt(s, n) && Given(answers, at + n, 2, |s| - n) == 2)
      && (ok ==> rest == s[n + 2..] && at' == at + n + 2)
  }

  method ReadChunk(r: Reader, size: int, bufsize: nat, parts: seq<bytes>) returns (ok: bool, parts': seq<bytes>)
    requires bufsize > 0 && forall k :: 0 <= k < |parts| ==> 0 < |parts[k]| <= bufsize
    modifies r
    ensures ChunkRead(old(r.rest), old(r.at), size, r.answers, ok, Concat(parts), Concat(parts'), r.rest, r.at)
    ensures ok ==> |r.rest| < |old(r.rest)|
    ensures forall k :: 0 <= k < |parts'| ==> 0 < |parts'[k]| <= bufsize
  {
    ghost var s := r.rest;
    ok, parts' := ReadData(r, size, bufsize, parts);
    if !ok {
      assert s[..|s|] == s;
      return;
    }
    ghost var s3 := r.rest;
    var end := r.Read(2);
    assert s3 == end + r.rest;
    ok := end == [CR, LF];
    EndIsRead(s, if size < 0 then 0 else size, s3, end, r.rest, ok);
  }

  lemma EndIsRead(s: bytes, n: nat, s3: bytes, end: bytes, rest: bytes, ok: bool)
    requires n <= |s| && s3 == s[n..] && s3 == end + rest && |end| <= 2 && ok == (end == [CR, LF])
    ensures ok <==> |end| == 2 && PairAt(s, n)
    ensures ok ==> rest == s[n + 2..] && |rest| < |s|
  {
    assert forall k :: 0 <= k < |end| ==> end[k] == s[n + k];
    if ok { assert s3[2..] == rest && s[n..][2..] == s[n + 2..]; }
  }

  /** A body of known length: at most that many bytes, fewer if the stream ends. */
  method IterBody(r: Reader, contentLength: int, bufsize: nat) returns (parts: seq<bytes>)
    requires bufsize > 0
    modifies r
    ensures var n := if contentLength < 0 then 0 else MinInt(contentLength, |old(r.rest)|);
      Concat(parts) == old(r.rest)[..n] && r.rest == old(r.rest)[n..]
    ensures forall k :: 0 <= k < |parts| ==> 0 < |parts[k]| <= bufsize
  {
    ghost var s := r.rest;
    var maxread: nat := if contentLength < 0 then 0 else contentLength;
    parts := [];
    ghost var n: nat := 0;
    while maxread != 0
      invariant n <= |s| && r.rest == s[n..] && Concat(parts) == s[..n]
      invariant maxread + n == if contentLength < 0 then 0 else contentLength
      invariant forall k :: 0 <= k < |parts| ==> 0 < |parts[k]| <= bufsize
      decreases maxread
    {
      var part := r.Read(MinInt(maxread, bufsize));
      if part == [] { break; }
      ConcatOneMore(parts, part);
      assert s[n..][..|part|] == part && s[..n] + part == s[..n + |part|];
      parts := parts + [part];
      maxread := maxread - |part|;
      n := n + |part|;
    }
  }

  // ----- storing the body -----

  /** A byte buffer in memory or in a temporary file. */
  class File {
    const temporary: bool
    var content: bytes
    var pos: nat

    constructor (temporary: bool)
      ensures this.temporary == temporary && content == [] && pos == 0
    {
      this.temporary, content, pos := temporary, [], 0;
    }

    /** Writes at the end, where the position is. */
    method Write(part: bytes)
      requires pos == |content|
      modifies this
      ensures content == old(content) + part && pos == |content|
    {
      content := content + part;
      pos := |content|;
    }

    method Seek(to: nat)
      modifies this`pos
      ensures pos == to
    {
      pos := to;
    }
  }

  /** Stores parts one after another; past the limit the bytes move to a temporary file, once. */
  method Store(parts: seq<bytes>, memfileMax: nat) returns (body: File)
    ensures fresh(body) && body.content == Concat(parts) && body.pos == 0
    ensures body.temporary <==> |Concat(parts)| > memfileMax
  {
    body := new File(false);
    var bodySize, isTempFile := 0, false;
    for i := 0 to |parts|
      invariant fresh(body) && body.content == Concat(parts[..i]) && body.pos == |body.content| == bodySize
      invariant body.temporary == isTempFile == (bodySize > memfileMax)
    {
      ConcatOneMore(parts[..i], parts[i]);
      assert parts[..i + 1] == parts[..i] + [parts[i]];
      body.Write(parts[i]);
      bodySize := bodySize + |parts[i]|;
      if !isTempFile && bodySize > memfileMax {
        var tmp := body;
        body := new File(true);
        body.Write(tmp.content);
        isTempFile := true;
      }
    }
    assert parts[..|parts|] == parts;
    body.Seek(0);
  }

  datatype Body = BadRequest | Stored(file: File)

  /** The stored request body, read from its start: of a chunked request what Decode makes of the input. */
  method ReadBody(r: Reader, chunked: bool, contentLength: int, memfileMax: nat) returns (b: Body)
    requires memfileMax > 0
    modifies r
    ensures b.Stored? ==> fresh(b.file) && b.file.pos == 0 && (b.file.temporary <==> |b.file.content| > memfileMax)
    ensures chunked ==>
      (b.Stored? <==> Decode(old(r.rest), memfileMax).ok && !Torn(old(r.rest), old(r.at), memfileMax, r.answers))
    ensures chunked && b.Stored? ==> b.file.content == Decode(old(r.rest), memfileMax).body
    ensures !chunked ==>
      b.Stored?
        && b.file.content == old(r.rest)[..if contentLength < 0 then 0 else MinInt(contentLength, |old(r.rest)|)]
  {
    var parts;
    if chunked {
      var ok;
      ok, parts := IterChunked(r, memfileMax);
      if !ok { return BadRequest; }
    } else {
      parts := IterBody(r, contentLength, memfileMax);
    }
    var file := Store(parts, memfileMax);
    b := Stored(file);
  }

  /** A body encoded by section 4.1 of RFC 7230 is stored as it was sent, however its data is cut. */
  method ReadEncodedBody(chunks: seq<Chunk>, last: Chunk, tail: bytes, memfileMax: nat, answers: Answers)
    returns (b: Body)
    requires memfileMax > 0 && IsChunk(last, memfileMax) && last.data == []
    requires forall i :: 0 <= i < |chunks| ==> IsChunk(chunks[i], memfileMax) && chunks[i].data != []
    ensures b.Stored? <==> !Torn(Encode(chunks) + SizeLine(last) + tail, 0, memfileMax, answers)
    ensures b.Stored? ==> b.file.content == BodyOf(chunks)
  {
    DecodeInvertsEncode(chunks, last, tail, memfileMax);
    var r := new Reader(Encode(chunks) + SizeLine(last) + tail, answers);
    b := ReadBody(r, true, -1, memfileMax);
  }

  /** A stream that never cuts a read of two bytes tears no end of a chunk. */
  lemma {:induction false} WholePairsAreNotTorn(s: bytes, at: nat, bufsize: nat, answers: Answers)
    requires forall p :: answers(p, 2) >= 2
    ensures !Torn(s, at, bufsize, answers)
    decreases |s|
  {
    var line := LineLength(s);
    if line.Some? && line.value <= |s| {
      var size, t := ParseInt(BeforeSemicolon(s[..line.value])), s[line.value..];
      if size.Some? {
        var n := if size.value < 0 then 0 else size.value;
        if |t| >= n + 2 { WholePairsAreNotTorn(t[n + 2..], at + line.value + n + 2, bufsize, answers); }
      }
    }
  }
}
