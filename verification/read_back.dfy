/**
 Reading back what the response writer emits, as a client does: the status
 code from the status line, a field section through the same field-line
 parser the request side uses, and a chunked body (section 7.1 of RFC 9112).
 Each reader is the partner of a writer in module Response, and the lemmas
 here show that every message the writer produces reads back as what went in.
 */
module ReadBack {
  import opened Wrappers
  import opened Bytes
  import opened Numerals
  import Headers
  import Request
  import opened Response

  // ---------------------------------------------------------------- status line

  /** The status code of a status line: after `HTTP/1.1 `, the integer up to the next space. */
  function ReadStatusCode(line: Bytes): (code: Option<int>) {
    if |line| < |VersionPrefix| || line[..|VersionPrefix|] != VersionPrefix then None
    else
      var tail := line[|VersionPrefix|..];
      match IndexOf(tail, [' '])
      case None => None
      case Some(i) => Atoi(tail[..i])
  }

  /** A decimal numeral holds no space. */
  lemma DecimalHasNoSpace(n: int)
    ensures forall i | 0 <= i < |Decimal(n)| :: Decimal(n)[i] != ' '
  {
    var d := Decimal(n);
    forall i | 0 <= i < |d|
      ensures d[i] != ' '
    {
      if n >= 0 {
        assert DigitValue(d[i], 10).Some?;
      } else if i > 0 {
        assert d[1..][i - 1] == d[i];
        assert DigitValue(d[1..][i - 1], 10).Some?;
      }
    }
  }

  /** The code field of a line shaped like a status line is read up to the space after it. */
  lemma ReadCodeField(d: Bytes, reason: Bytes)
    requires forall i | 0 <= i < |d| :: d[i] != ' '
    ensures ReadStatusCode(VersionPrefix + (d + ([' '] + (reason + CRLF)))) == Atoi(d)
  {
    var after := reason + CRLF;
    var tail := d + ([' '] + after);
    var line := VersionPrefix + tail;
    assert tail == d + [' '] + after;
    assert line[..|VersionPrefix|] == VersionPrefix;
    assert line[|VersionPrefix|..] == tail;
    FirstByte(d, ' ', after);
    assert tail[..|d|] == d;
  }

  /** The status code a response is written with is the one a client reads from its status line. */
  lemma StatusCodeRoundTrip(code: StatusCode)
    ensures ReadStatusCode(StatusLine(code)) == Some(code)
  {
    StatusLineShape(code);
    DecimalHasNoSpace(code);
    ReadCodeField(Decimal(code), Reason(code));
    AtoiDecimal(code);
  }

  // ------------------------------------------------------------- field section

  /** The outcome of reading a field section: its fields and length, more data needed, or a rejected line. */
  datatype SectionRead = Section(headers: Headers.Headers, n: nat) | Incomplete | Bad(err: Headers.HeaderError)

  /**
   Feeds `data` to the field-line parser until it reports the empty line, as
   the request parser does in its header state; `h` holds the fields read so far.
   */
  function ReadFieldSection(h: Headers.Headers, data: Bytes): (s: SectionRead)
    ensures s.Section? ==> 2 <= s.n <= |data|
    decreases |data|
  {
    var r := Headers.Parse(h, data);
    if r.err.Some? then Bad(r.err.value)
    else if r.done then Section(h, 2)
    else if r.n == 0 then Incomplete
    else Later(r.n, ReadFieldSection(r.headers, data[r.n..]))
  }

  /** The reading of what follows a field line of `used` bytes, counted from the start of that line. */
  function Later(used: nat, rest: SectionRead): (s: SectionRead)
    ensures s.Section? <==> rest.Section?
  {
    match rest
    case Section(fields, m) => Section(fields, used + m)
    case other => other
  }

  /** A value a field can carry so that it reads back unchanged: no CR, and no white space at either end. */
  predicate PlainValue(v: Bytes) {
    && Lacks(v, '\r')
    && (|v| > 0 ==> !AsciiSpaces.Has(v[0]) && !AsciiSpaces.Has(v[|v| - 1]))
  }

  /** Fields a section can carry unchanged: lower-case token names and plain values. */
  predicate Writable(h: Headers.Headers) {
    forall k | k in h :: |k| > 0 && Headers.AllTokenChars(k) && IsLowerCase(k) && PlainValue(h[k])
  }

  /** The fields of `h` whose names `order` lists. */
  function Listed(h: Headers.Headers, order: seq<Bytes>): (listed: Headers.Headers) {
    map k | k in h && k in order :: h[k]
  }

  /** A written field value comes back from the field-line parser as it was. */
  lemma ValueReadBack(v: Bytes)
    requires PlainValue(v)
    ensures Free([' '] + v, CRLF)
    ensures TrimSpace([' '] + v) == v
  {
    assert Lacks([' '] + v, '\r');
    NoCrIsCrlfFree([' '] + v);
    TrimSpaceTrimmed(v);
    TrimSpaceLeading([' '], v);
  }

  /** One written field line is read as that field and consumed whole. */
  lemma FieldTextReadBack(acc: Headers.Headers, k: Bytes, v: Bytes, rest: Bytes)
    requires |k| > 0 && Headers.AllTokenChars(k) && IsLowerCase(k) && PlainValue(v) && k !in acc
    ensures Headers.Parse(acc, FieldText(k, v) + rest) == Headers.ParseResult(|FieldText(k, v)|, false, acc[k := v], None)
  {
    ValueReadBack(v);
    Headers.ParseFieldLine(acc, k, [' '] + v, rest);
    SetNew(acc, k, v);
  }

  /** Setting a new lower-case key adds exactly that entry. */
  lemma SetNew(acc: Headers.Headers, k: Bytes, v: Bytes)
    requires IsLowerCase(k) && k !in acc
    ensures Headers.Set(acc, k, v) == acc[k := v]
  {
    ToLowerFixes(k);
  }

  /** The field lines for `order` are the first line, then the lines for the rest of `order`. */
  lemma LinesUnfold(h: Headers.Headers, order: seq<Bytes>)
    requires |order| > 0 && forall i | 0 <= i < |order| :: order[i] in h
    ensures Concat(FieldLines(h, order)) == FieldText(order[0], h[order[0]]) + Concat(FieldLines(h, order[1..]))
  {
    assert FieldLines(h, order)[1..] == FieldLines(h, order[1..]);
  }

  /** The empty line alone is a complete, empty field section. */
  lemma EmptySectionReadBack(acc: Headers.Headers, rest: Bytes)
    ensures ReadFieldSection(acc, CRLF + rest) == Section(acc, 2)
  {
    assert Free([], CRLF);
    FirstCrlf([], rest);
    assert [] + CRLF + rest == CRLF + rest;
  }

  /** Adding the first listed field to what was read before, then the rest, gives all listed fields. */
  lemma ListedUnfold(acc: Headers.Headers, h: Headers.Headers, order: seq<Bytes>)
    requires |order| > 0 && order[0] in h
    requires forall i, j | 0 <= i < j < |order| :: order[i] != order[j]
    ensures acc[order[0] := h[order[0]]] + Listed(h, order[1..]) == acc + Listed(h, order)
  {
    forall k | k in h && k in order
      ensures k == order[0] || k in order[1..]
    {
    }
  }

  /** A field line the parser accepts is consumed, and reading carries on with what follows it. */
  lemma ReadStep(acc: Headers.Headers, data: Bytes, n: nat, fields: Headers.Headers, tail: Bytes)
    requires Headers.Parse(acc, data) == Headers.ParseResult(n, false, fields, None) && n > 0
    requires data[n..] == tail
    ensures ReadFieldSection(acc, data) == Later(n, ReadFieldSection(fields, tail))
  {
  }

  /** A written field line is read, and reading carries on with what follows it. */
  lemma SectionStep(acc: Headers.Headers, k: Bytes, v: Bytes, tail: Bytes)
    requires |k| > 0 && Headers.AllTokenChars(k) && IsLowerCase(k) && PlainValue(v) && k !in acc
    ensures ReadFieldSection(acc, FieldText(k, v) + tail) == Later(|FieldText(k, v)|, ReadFieldSection(acc[k := v], tail))
  {
    FieldTextReadBack(acc, k, v, tail);
    assert (FieldText(k, v) + tail)[|FieldText(k, v)|..] == tail;
    ReadStep(acc, FieldText(k, v) + tail, |FieldText(k, v)|, acc[k := v], tail);
  }

  /** The section written for `order` is the first field line, then the section for the rest of `order`. */
  lemma SectionUnfold(h: Headers.Headers, order: seq<Bytes>, rest: Bytes)
    requires |order| > 0 && forall i | 0 <= i < |order| :: order[i] in h
    ensures FieldSection(h, order) + rest == FieldText(order[0], h[order[0]]) + (FieldSection(h, order[1..]) + rest)
    ensures |FieldSection(h, order)| == |FieldText(order[0], h[order[0]])| + |FieldSection(h, order[1..])|
  {
    LinesUnfold(h, order);
  }

  /** With no field lines the section is the empty line alone, and nothing is added. */
  lemma NothingListed(acc: Headers.Headers, h: Headers.Headers, order: seq<Bytes>, rest: Bytes)
    requires |order| == 0
    ensures ReadFieldSection(acc, FieldSection(h, order) + rest) == Section(acc + Listed(h, order), |FieldSection(h, order)|)
  {
    assert Concat(FieldLines(h, order)) == [];
    assert acc + Listed(h, order) == acc;
    EmptySectionReadBack(acc, rest);
    assert FieldSection(h, order) + rest == CRLF + rest;
  }

  /** Reading the lines written for `order` on top of `acc` adds exactly the listed fields. */
  lemma {:induction false} SectionFrom(acc: Headers.Headers, h: Headers.Headers, order: seq<Bytes>, rest: Bytes)
    requires Writable(h)
    requires forall i | 0 <= i < |order| :: order[i] in h && order[i] !in acc
    requires forall i, j | 0 <= i < j < |order| :: order[i] != order[j]
    ensures ReadFieldSection(acc, FieldSection(h, order) + rest)
         == Section(acc + Listed(h, order), |FieldSection(h, order)|)
    decreases |order|
  {
    if |order| == 0 {
      NothingListed(acc, h, order, rest);
    } else {
      var k := order[0];
      assert |k| > 0 && Headers.AllTokenChars(k) && IsLowerCase(k) && PlainValue(h[k]);
      SectionUnfold(h, order, rest);
      SectionStep(acc, k, h[k], FieldSection(h, order[1..]) + rest);
      assert forall i | 0 <= i < |order[1..]| :: order[1..][i] == order[i + 1];
      SectionFrom(acc[k := h[k]], h, order[1..], rest);
      ListedUnfold(acc, h, order);
    }
  }

  /** When `order` lists every field of `h`, the listed fields are all of `h`. */
  lemma ListedAll(h: Headers.Headers, order: seq<Bytes>)
    requires IsOrder(h, order)
    ensures map[] + Listed(h, order) == h
  {
  }

  /**
   A header (or trailer) section the writer emits, in whatever order the map
   is iterated, reads back as the same fields, and the reader stops exactly
   where the section ends.
   */
  lemma FieldSectionRoundTrip(h: Headers.Headers, order: seq<Bytes>, rest: Bytes)
    requires Writable(h) && IsOrder(h, order)
    ensures ReadFieldSection(map[], FieldSection(h, order) + rest) == Section(h, |FieldSection(h, order)|)
  {
    SectionFrom(map[], h, order, rest);
    ListedAll(h, order);
  }

  /** `content-length`, `connection` and `content-type` are lower-case tokens. */
  lemma DefaultKeysWritable()
    ensures |ContentLengthKey| > 0 && Headers.AllTokenChars(ContentLengthKey) && IsLowerCase(ContentLengthKey)
    ensures |ConnectionKey| > 0 && Headers.AllTokenChars(ConnectionKey) && IsLowerCase(ConnectionKey)
    ensures |ContentTypeKey| > 0 && Headers.AllTokenChars(ContentTypeKey) && IsLowerCase(ContentTypeKey)
  {
    DefaultKeys();
  }

  /** A decimal numeral of a natural number is a plain value. */
  lemma DecimalIsPlain(n: nat)
    ensures PlainValue(Decimal(n))
  {
    var d := Decimal(n);
    assert DigitValue(d[0], 10).Some? && DigitValue(d[|d| - 1], 10).Some?;
    forall i | 0 <= i < |d|
      ensures d[i] != '\r'
    {
      assert DigitValue(d[i], 10).Some?;
    }
  }

  /** The fixed default values are plain values. */
  lemma FixedValuesPlain()
    ensures PlainValue(Close) && PlainValue(TextPlain)
  {
  }

  /** The default fields can be written and read back unchanged. */
  lemma DefaultHeadersWritable(n: nat)
    ensures Writable(GetDefaultHeaders(n))
  {
    DefaultKeysWritable();
    DecimalIsPlain(n);
    FixedValuesPlain();
    var h := GetDefaultHeaders(n);
    forall k | k in h
      ensures |k| > 0 && Headers.AllTokenChars(k) && IsLowerCase(k) && PlainValue(h[k])
    {
      assert k == ContentLengthKey || k == ConnectionKey || k == ContentTypeKey;
    }
  }

  /**
   The default header section of a response with an `n`-byte body reads back
   as the three default fields, and a request carrying those fields declares
   a body of exactly `n` bytes.
   */
  lemma DefaultHeadersRoundTrip(n: nat, order: seq<Bytes>, rest: Bytes, r: Request.Request)
    ensures IsOrder(GetDefaultHeaders(n), order) ==>
              ReadFieldSection(map[], FieldSection(GetDefaultHeaders(n), order) + rest)
              == Section(GetDefaultHeaders(n), |FieldSection(GetDefaultHeaders(n), order)|)
    ensures r.headers == GetDefaultHeaders(n) ==> Request.DeclaredLength(r) == Some(n)
  {
    DefaultHeadersWritable(n);
    if IsOrder(GetDefaultHeaders(n), order) {
      FieldSectionRoundTrip(GetDefaultHeaders(n), order, rest);
    }
    DefaultKeys();
    AtoiDecimal(n);
  }

  // -------------------------------------------------------------- chunked body

  /** The outcome of decoding a chunked body: its bytes and where the trailer section starts, more data needed, or bad framing. */
  datatype Dechunked = Body(data: Bytes, n: nat) | Short | Malformed

  /** A chunk-size line: the size and where the chunk data starts, no complete line yet, or a size that is not hexadecimal. */
  datatype SizeLine = Sized(size: nat, start: nat) | NoLine | BadSize

  /** CR LF starts at index `i` of `s`, compared byte by byte. */
  predicate CrlfAt(s: Bytes, i: nat) {
    i + 2 <= |s| && s[i] == '\r' && s[i + 1] == '\n'
  }

  /** The index of the first CR LF in `s` at or after `from`. */
  function LineEnd(s: Bytes, from: nat): (r: Option<nat>)
    ensures r.Some? ==> from <= r.value && CrlfAt(s, r.value)
    ensures r.Some? ==> forall j | from <= j < r.value :: !CrlfAt(s, j)
    ensures r.None? ==> forall j | from <= j :: !CrlfAt(s, j)
    decreases |s| - from
  {
    if from + 2 > |s| then None
    else if CrlfAt(s, from) then Some(from)
    else LineEnd(s, from + 1)
  }

  /** Reads the chunk-size line at the start of `data`. */
  function ReadSizeLine(data: Bytes): (l: SizeLine)
    ensures l.Sized? ==> 2 <= l.start <= |data|
  {
    match LineEnd(data, 0)
    case None => NoLine
    case Some(i) =>
      var size := data[..i];
      if |size| == 0 || !AllDigits(size, 16) then BadSize else Sized(Value(size, 16), i + 2)
  }

  /**
   Decodes chunks (size in hexadecimal, CR LF, data, CR LF) up to the last
   chunk `0` CR LF, per section 7.1 of RFC 9112 without chunk extensions.
   */
  function DecodeChunked(data: Bytes): (d: Dechunked)
    ensures d.Body? ==> d.n <= |data| && |d.data| <= d.n
    decreases |data|, 1
  {
    match ReadSizeLine(data)
    case NoLine => Short
    case BadSize => Malformed
    case Sized(k, start) => DecodeSized(data, k, start)
  }

  /** The chunk announced by a size line of `k` ending at `start`, and what follows it. */
  function DecodeSized(data: Bytes, k: nat, start: nat): (d: Dechunked)
    requires 2 <= start <= |data|
    ensures d.Body? ==> d.n <= |data| && |d.data| <= d.n
    decreases |data|, 0
  {
    if k == 0 then Body([], start)
    else if |data| < start + k + 2 then Short
    else if !CrlfAt(data, start + k) then Malformed
    else
      After(data[start..start + k], start + k + 2, DecodeChunked(data[start + k + 2..]))
  }

  /** The decoding of what follows a chunk of `used` bytes carrying `chunk`, with that chunk put in front. */
  function After(chunk: Bytes, used: nat, rest: Dechunked): (d: Dechunked)
    ensures d.Body? <==> rest.Body?
  {
    match rest
    case Body(b, m) => Body(chunk + b, used + m)
    case other => other
  }

  /** The frames of a sequence of chunks, one after another. */
  function Frames(chunks: seq<Bytes>): (fs: seq<Bytes>)
    ensures |fs| == |chunks|
    ensures forall i | 0 <= i < |chunks| :: fs[i] == ChunkFrame(chunks[i])
  {
    seq(|chunks|, i requires 0 <= i < |chunks| => ChunkFrame(chunks[i]))
  }

  /** A hexadecimal numeral holds no CR. */
  lemma HexHasNoCr(n: nat)
    ensures Lacks(Hex(n), '\r')
  {
    var s := Hex(n);
    forall i | 0 <= i < |s|
      ensures s[i] != '\r'
    {
      assert DigitValue(s[i], 16).Some?;
    }
  }

  /** A line with no CR before its CR LF ends at that CR LF. */
  lemma {:induction false} LineEndAfter(line: Bytes, rest: Bytes, from: nat)
    requires from <= |line| && Lacks(line, '\r')
    ensures LineEnd(line + CRLF + rest, from) == Some(|line|)
    decreases |line| - from
  {
    var s := line + CRLF + rest;
    if from < |line| {
      assert s[from] == line[from];
      LineEndAfter(line, rest, from + 1);
    } else {
      assert s[from] == '\r' && s[from + 1] == '\n';
    }
  }

  /** The size line the writer puts before a chunk reads back as the chunk's size. */
  lemma SizeLineReadBack(k: nat, rest: Bytes)
    ensures ReadSizeLine(Hex(k) + CRLF + rest) == Sized(k, |Hex(k)| + 2)
  {
    var size := Hex(k);
    HexHasNoCr(k);
    LineEndAfter(size, rest, 0);
    assert (size + CRLF + rest)[..|size|] == size;
  }

  /** A chunk whose size line and closing CR LF are well formed is decoded, and decoding carries on after it. */
  lemma DecodeStep(data: Bytes, k: nat, start: nat, chunk: Bytes, tail: Bytes)
    requires ReadSizeLine(data) == Sized(k, start) && k > 0
    requires CrlfAt(data, start + k)
    requires data[start..start + k] == chunk && data[start + k + 2..] == tail
    ensures DecodeChunked(data) == After(chunk, start + k + 2, DecodeChunked(tail))
  {
    assert DecodeChunked(data) == DecodeSized(data, k, start);
  }

  /** Where the pieces of a chunk frame sit in the bytes that carry it. */
  lemma FrameParts(p: Bytes, rest: Bytes)
    ensures ReadSizeLine(ChunkFrame(p) + rest) == Sized(|p|, |Hex(|p|)| + 2)
    ensures (ChunkFrame(p) + rest)[|Hex(|p|)| + 2..|Hex(|p|)| + 2 + |p|] == p
    ensures CrlfAt(ChunkFrame(p) + rest, |Hex(|p|)| + 2 + |p|)
    ensures (ChunkFrame(p) + rest)[|Hex(|p|)| + 2 + |p| + 2..] == rest
    ensures |ChunkFrame(p)| == |Hex(|p|)| + 2 + |p| + 2
  {
    var data := ChunkFrame(p) + rest;
    var start := |Hex(|p|)| + 2;
    assert data == Hex(|p|) + CRLF + (p + CRLF + rest);
    SizeLineReadBack(|p|, p + CRLF + rest);
    assert data[start..] == p + CRLF + rest;
  }

  /** One chunk frame of a non-empty chunk is decoded as that chunk, and the rest is decoded after it. */
  lemma FrameReadBack(p: Bytes, rest: Bytes)
    requires |p| > 0
    ensures DecodeChunked(ChunkFrame(p) + rest) == After(p, |ChunkFrame(p)|, DecodeChunked(rest))
  {
    FrameParts(p, rest);
    DecodeStep(ChunkFrame(p) + rest, |p|, |Hex(|p|)| + 2, p, rest);
  }

  /** The last chunk ends the body; what follows is the trailer section. */
  lemma LastChunkReadBack(rest: Bytes)
    ensures DecodeChunked(LastChunk + rest) == Body([], |LastChunk|)
  {
    SizeLineReadBack(0, rest);
    assert Hex(0) == "0";
    assert LastChunk + rest == Hex(0) + CRLF + rest;
  }

  /**
   Non-empty chunks written one by one, then the last chunk, decode as their
   concatenation, and decoding stops where the trailer section begins.
   */
  lemma {:induction false} ChunkedRoundTrip(chunks: seq<Bytes>, rest: Bytes)
    requires forall i | 0 <= i < |chunks| :: |chunks[i]| > 0
    ensures DecodeChunked(Concat(Frames(chunks)) + LastChunk + rest)
         == Body(Concat(chunks), |Concat(Frames(chunks))| + |LastChunk|)
    decreases |chunks|
  {
    if |chunks| == 0 {
      assert Concat(Frames(chunks)) + LastChunk + rest == LastChunk + rest;
      LastChunkReadBack(rest);
    } else {
      var tail := Concat(Frames(chunks[1..])) + LastChunk + rest;
      assert Frames(chunks)[1..] == Frames(chunks[1..]);
      assert Concat(Frames(chunks)) + LastChunk + rest == ChunkFrame(chunks[0]) + tail;
      ChunkedRoundTrip(chunks[1..], rest);
      FrameReadBack(chunks[0], tail);
    }
  }

  /**
   Writing a chunk of no bytes puts out the last chunk and an empty trailer
   section: the body ends there, whatever the handler meant to send after it.
   */
  lemma EmptyChunkEndsBody(rest: Bytes)
    ensures DecodeChunked(ChunkFrame([]) + rest) == Body([], |LastChunk|)
    ensures ReadFieldSection(map[], (ChunkFrame([]) + rest)[|LastChunk|..]) == Section(map[], 2)
  {
    EmptyChunkIsLast();
    assert ChunkFrame([]) + rest == LastChunk + (CRLF + rest);
    LastChunkReadBack(CRLF + rest);
    assert (LastChunk + (CRLF + rest))[|LastChunk|..] == CRLF + rest;
    EmptySectionReadBack(map[], rest);
  }
}
