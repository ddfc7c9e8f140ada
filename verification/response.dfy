/**
 The response writer of internal/response/response.go: the status line
 (section 4 of RFC 9112), a header or trailer section of `name: value` lines
 closed by an empty line, a raw body, and chunked framing with lower-case
 hexadecimal sizes (section 7.1 of RFC 9112). Every function writes to an
 `io.Writer`, modelled as the output so far and the number of bytes it will
 still accept.
 */
module Response {
  import opened Wrappers
  import opened Bytes
  import opened Numerals
  import Headers

  /** Go's `StatusCode int`: any integer can be passed. */
  type StatusCode = int

  const StatusOK: StatusCode := 200
  const StatusBadRequest: StatusCode := 400
  const StatusInternalServerError: StatusCode := 500

  /**
   An `io.Writer`: the bytes it has taken so far, and how many more it will
   take — `None` for a writer that never fails, `Some(k)` for one that fails
   once `k` more bytes have gone out (a connection closed by the peer, say).
   */
  datatype Conn = Conn(out: Bytes, room: Option<nat>)

  datatype WriteError = WriteFailed

  /** What a call that writes returns: the writer afterwards, the count `n` and the error. */
  datatype Written = Written(conn: Conn, n: nat, err: Option<WriteError>)

  /** `c` accepts `k` more bytes. */
  predicate Fits(c: Conn, k: nat) {
    c.room.None? || k <= c.room.value
  }

  /** The part of `p` that reaches the output of `c`: all of it if it fits, otherwise as much as there is room for. */
  function Accepted(c: Conn, p: Bytes): (a: Bytes)
    ensures a <= p
    ensures a == p <==> Fits(c, |p|)
    ensures !Fits(c, |p|) ==> |a| == c.room.value
  {
    if Fits(c, |p|) then p else p[..c.room.value]
  }

  /** The room left after `k` more bytes have been taken. */
  function Less(room: Option<nat>, k: nat): (left: Option<nat>) {
    match room
    case None => None
    case Some(r) => if k <= r then Some(r - k) else Some(0)
  }

  /**
   `Write` of the `io.Writer` contract: it appends a prefix of `p`, returns
   how much, and fails exactly when that is less than all of `p`.
   */
  function Write(c: Conn, p: Bytes): (w: Written)
    ensures w.conn.out == c.out + Accepted(c, p)
    ensures w.n == |Accepted(c, p)|
    ensures w.err.None? <==> w.n == |p|
    ensures w.conn.room == Less(c.room, |p|)
  {
    match c.room
    case None => Written(Conn(c.out + p, None), |p|, None)
    case Some(k) =>
      if |p| <= k then Written(Conn(c.out + p, Some(k - |p|)), |p|, None)
      else Written(Conn(c.out + p[..k], Some(0)), k, Some(WriteFailed))
  }

  /** The writer and the error after a sequence of writes. */
  datatype Outcome = Outcome(conn: Conn, err: Option<WriteError>)

  /** Writes `pieces` in order and stops at the first write that fails, returning its error. */
  function WriteAll(c: Conn, pieces: seq<Bytes>): (o: Outcome)
    decreases |pieces|
  {
    if |pieces| == 0 then Outcome(c, None)
    else
      var w := Write(c, pieces[0]);
      if w.err.Some? then Outcome(w.conn, w.err) else WriteAll(w.conn, pieces[1..])
  }

  /**
   Writing pieces one by one, stopping at the first failure, puts out what
   one write of their concatenation would: the whole of it, or the prefix
   that fits and an error.
   */
  lemma {:induction false} WriteAllAccepts(c: Conn, pieces: seq<Bytes>)
    ensures WriteAll(c, pieces).conn.out == c.out + Accepted(c, Concat(pieces))
    ensures WriteAll(c, pieces).err.None? <==> Fits(c, |Concat(pieces)|)
    decreases |pieces|
  {
    if |pieces| > 0 {
      var p := pieces[0];
      var rest := Concat(pieces[1..]);
      assert Concat(pieces) == p + rest;
      AcceptedAppend(c, p, rest);
      var w := Write(c, p);
      if w.err.None? {
        WriteAllAccepts(w.conn, pieces[1..]);
      }
    }
  }

  /**
   Writing `a` and then `b` puts out what one write of `a + b` would: when
   `a` fits, all of `a` and then what fits of `b`; otherwise the same prefix
   of `a` alone.
   */
  lemma AcceptedAppend(c: Conn, a: Bytes, b: Bytes)
    ensures Fits(c, |a|) ==> Accepted(c, a + b) == a + Accepted(Write(c, a).conn, b)
    ensures !Fits(c, |a|) ==> Accepted(c, a + b) == Accepted(c, a)
    ensures Fits(c, |a + b|) <==> Fits(c, |a|) && Fits(Write(c, a).conn, |b|)
  {
    if c.room.Some? {
      var k := c.room.value;
      if |a| <= k < |a + b| {
        assert (a + b)[..k] == a + b[..k - |a|];
      } else if k < |a| {
        assert (a + b)[..k] == a[..k];
      }
    }
  }

  /** The reason phrase sent with a status code; `WriteStatusLine` sends none for codes it does not name. */
  function Reason(code: StatusCode): (phrase: Bytes) {
    if code == StatusOK then "OK"
    else if code == StatusBadRequest then "Bad Request"
    else if code == StatusInternalServerError then "Internal Server Error"
    else []
  }

  /** The status line for a code, as the `switch` of `WriteStatusLine` spells it out. */
  function StatusLine(code: StatusCode): (line: Bytes) {
    if code == StatusOK then "HTTP/1.1 200 OK\r\n"
    else if code == StatusBadRequest then "HTTP/1.1 400 Bad Request\r\n"
    else if code == StatusInternalServerError then "HTTP/1.1 500 Internal Server Error\r\n"
    else "HTTP/1.1 " + Decimal(code) + " \r\n"
  }

  const VersionPrefix: Bytes := "HTTP/1.1 "

  /** A three-digit code is written as its three digits. */
  lemma ThreeDigits(code: StatusCode)
    requires 100 <= code < 1000
    ensures Decimal(code) == [DigitChar(code / 100), DigitChar(code / 10 % 10), DigitChar(code % 10)]
  {
    var q := code / 10;
    assert q / 10 == code / 100 < 10;
    assert Numeral(q, 10) == [DigitChar(code / 100)] + [DigitChar(q % 10)];
    assert Numeral(code, 10) == Numeral(q, 10) + [DigitChar(code % 10)];
  }

  /**
   Every status line has the shape of `status-line` in section 4 of RFC 9112:
   `HTTP/1.1`, a space, the code in decimal, a space, the reason phrase (empty
   for unnamed codes) and CR LF.
   */
  lemma StatusLineShape(code: StatusCode)
    ensures StatusLine(code) == VersionPrefix + (Decimal(code) + ([' '] + (Reason(code) + CRLF)))
  {
    if code == StatusOK {
      StatusLineOK();
    } else if code == StatusBadRequest {
      StatusLineBadRequest();
    } else if code == StatusInternalServerError {
      StatusLineServerError();
    } else {
      assert Reason(code) + CRLF == CRLF;
    }
  }

  lemma StatusLineOK()
    ensures StatusLine(StatusOK) == VersionPrefix + (Decimal(StatusOK) + ([' '] + (Reason(StatusOK) + CRLF)))
  {
    ThreeDigits(StatusOK);
    assert Decimal(StatusOK) == "200";
  }

  lemma StatusLineBadRequest()
    ensures StatusLine(StatusBadRequest) == VersionPrefix + (Decimal(StatusBadRequest) + ([' '] + (Reason(StatusBadRequest) + CRLF)))
  {
    ThreeDigits(StatusBadRequest);
    assert Decimal(StatusBadRequest) == "400";
  }

  lemma StatusLineServerError()
    ensures StatusLine(StatusInternalServerError)
         == VersionPrefix + (Decimal(StatusInternalServerError) + ([' '] + (Reason(StatusInternalServerError) + CRLF)))
  {
    ThreeDigits(StatusInternalServerError);
    assert Decimal(StatusInternalServerError) == "500";
    ServerErrorLiteral();
  }

  lemma ServerErrorLiteral()
    ensures StatusLine(StatusInternalServerError) == VersionPrefix + ("500" + (" " + ("Internal Server Error" + CRLF)))
  {
    ServerErrorReason();
    ServerErrorCode();
    assert StatusLine(StatusInternalServerError) == VersionPrefix + "500 Internal Server Error\r\n";
  }

  /** The end of the status line for 500: the reason phrase and CR LF. */
  lemma ServerErrorReason()
    ensures " " + ("Internal Server Error" + CRLF) == " Internal Server Error\r\n"
  {
    assert "Internal Server Error" + CRLF == "Internal Server Error\r\n";
  }

  /** The code in front of the reason phrase. */
  lemma ServerErrorCode()
    ensures "500" + " Internal Server Error\r\n" == "500 Internal Server Error\r\n"
  {
  }

  /** `WriteStatusLine`: one write of the status line. */
  function WriteStatusLine(c: Conn, code: StatusCode): (o: Outcome)
    ensures o.conn.out == c.out + Accepted(c, StatusLine(code))
    ensures o.err.None? <==> Fits(c, |StatusLine(code)|)
  {
    var w := Write(c, StatusLine(code));
    Outcome(w.conn, w.err)
  }

  const ConnectionName: Bytes := "Connection"
  const ContentTypeName: Bytes := "Content-Type"
  const Close: Bytes := "close"
  const TextPlain: Bytes := "text/plain"

  /** The names under which the default fields are stored. */
  const ContentLengthKey: Bytes := "content-length"
  const ConnectionKey: Bytes := "connection"
  const ContentTypeKey: Bytes := "content-type"

  /** `GetDefaultHeaders`: the three fields a plain-text response carries, stored under lower-cased names. */
  function GetDefaultHeaders(contentLen: int): (h: Headers.Headers)
    ensures h == map[ContentLengthKey := Decimal(contentLen), ConnectionKey := Close, ContentTypeKey := TextPlain]
    ensures h.Keys == {ContentLengthKey, ConnectionKey, ContentTypeKey}
    ensures Headers.KeysLowerCase(h)
  {
    DefaultKeys();
    var h := Headers.Set(Headers.NewHeaders(), Headers.ContentLength, Decimal(contentLen));
    Headers.SetAbsent(Headers.NewHeaders(), Headers.ContentLength, Decimal(contentLen));
    var h' := Headers.Set(h, ConnectionName, Close);
    Headers.SetAbsent(h, ConnectionName, Close);
    Headers.SetAbsent(h', ContentTypeName, TextPlain);
    Headers.Set(h', ContentTypeName, TextPlain)
  }

  /** The three names lower-case to distinct lower-case keys. */
  lemma DefaultKeys()
    ensures ToLower(Headers.ContentLength) == ContentLengthKey && IsLowerCase(ContentLengthKey)
    ensures ToLower(ConnectionName) == ConnectionKey && IsLowerCase(ConnectionKey)
    ensures ToLower(ContentTypeName) == ContentTypeKey && IsLowerCase(ContentTypeKey)
    ensures |ContentLengthKey| == 14 && |ConnectionKey| == 10 && |ContentTypeKey| == 12
  {
    LowerContentLength();
    LowerConnection();
    LowerContentType();
  }

  lemma LowerContentLength()
    ensures ToLower(Headers.ContentLength) == ContentLengthKey
  {
  }

  lemma LowerConnection()
    ensures ToLower(ConnectionName) == ConnectionKey
  {
  }

  lemma LowerContentType()
    ensures ToLower(ContentTypeName) == ContentTypeKey
  {
  }

  /** The line `WriteHeaders` writes for one field: `key: value` and CR LF. */
  function FieldText(key: Bytes, value: Bytes): (line: Bytes) {
    Headers.FieldLine(key, [' '] + value)
  }

  /**
   `order` lists every key of `h` exactly once: the order in which Go's map
   iteration happens to visit the entries, which Go does not fix.
   */
  predicate IsOrder(h: Headers.Headers, order: seq<Bytes>) {
    && (forall i | 0 <= i < |order| :: order[i] in h)
    && (forall k | k in h :: k in order)
    && (forall i, j | 0 <= i < j < |order| :: order[i] != order[j])
  }

  /** One field line per key, in `order`. */
  function FieldLines(h: Headers.Headers, order: seq<Bytes>): (lines: seq<Bytes>)
    requires forall i | 0 <= i < |order| :: order[i] in h
    ensures |lines| == |order|
    ensures forall i | 0 <= i < |order| :: lines[i] == FieldText(order[i], h[order[i]])
  {
    seq(|order|, i requires 0 <= i < |order| => FieldText(order[i], h[order[i]]))
  }

  /** A whole field section: the field lines, then the empty line. */
  function FieldSection(h: Headers.Headers, order: seq<Bytes>): (section: Bytes)
    requires forall i | 0 <= i < |order| :: order[i] in h
  {
    Concat(FieldLines(h, order)) + CRLF
  }

  /**
   `WriteHeaders`: one write per field line, in the order the map is
   iterated, stopping at the first failure; then the empty line. What goes
   out is the field section, or the prefix of it that the writer took
   before failing.
   */
  function WriteHeaders(c: Conn, h: Headers.Headers, order: seq<Bytes>): (o: Outcome)
    requires IsOrder(h, order)
    ensures o.conn.out == c.out + Accepted(c, FieldSection(h, order))
    ensures o.err.None? <==> Fits(c, |FieldSection(h, order)|)
  {
    var lines := FieldLines(h, order);
    var o := WriteAll(c, lines + [CRLF]);
    WriteAllAccepts(c, lines + [CRLF]);
    ConcatAppend(lines, [CRLF]);
    assert Concat([CRLF]) == CRLF;
    o
  }

  /** Each field line takes the name, `: `, the value and CR LF. */
  lemma FieldTextLength(key: Bytes, value: Bytes)
    ensures |FieldText(key, value)| == |key| + |value| + 4
  {
  }

  /** The length of a field section: every line's length, plus two for the empty line. */
  function SectionLength(h: Headers.Headers, order: seq<Bytes>): (len: nat)
    requires forall i | 0 <= i < |order| :: order[i] in h
    decreases |order|
  {
    if |order| == 0 then 2
    else |order[0]| + |h[order[0]]| + 4 + SectionLength(h, order[1..])
  }

  /** The field section is as long as its lines, plus two. */
  lemma {:induction false} FieldSectionLength(h: Headers.Headers, order: seq<Bytes>)
    requires forall i | 0 <= i < |order| :: order[i] in h
    ensures |FieldSection(h, order)| == SectionLength(h, order)
    decreases |order|
  {
    if |order| > 0 {
      var lines := FieldLines(h, order);
      assert lines[1..] == FieldLines(h, order[1..]);
      FieldTextLength(order[0], h[order[0]]);
      FieldSectionLength(h, order[1..]);
    }
  }

  /** `WriteTrailers`: the trailer section after the last chunk, written as `WriteHeaders` writes a header section. */
  function WriteTrailers(c: Conn, h: Headers.Headers, order: seq<Bytes>): (o: Outcome)
    requires IsOrder(h, order)
    ensures o.conn.out == c.out + Accepted(c, FieldSection(h, order))
    ensures o.err.None? <==> Fits(c, |FieldSection(h, order)|)
  {
    WriteHeaders(c, h, order)
  }

  /** `WriteBody`: the body bytes as they are, in one write. */
  function WriteBody(c: Conn, p: Bytes): (w: Written)
    ensures w.conn.out == c.out + Accepted(c, p)
    ensures w.err.None? <==> Fits(c, |p|)
    ensures w.n == |Accepted(c, p)|
  {
    Write(c, p)
  }

  /** One chunk on the wire: the size in lower-case hexadecimal, CR LF, the data, CR LF. */
  function ChunkFrame(p: Bytes): (frame: Bytes) {
    Hex(|p|) + CRLF + p + CRLF
  }

  /**
   `WriteChunkedBody`: the size line, the data and the closing CR LF, in three
   writes. A failed size line reports 0 bytes; otherwise the count is the
   number of data bytes written, even when the closing CR LF then fails.
   */
  function WriteChunkedBody(c: Conn, p: Bytes): (w: Written)
    ensures w.conn.out == c.out + Accepted(c, ChunkFrame(p))
    ensures w.err.None? <==> Fits(c, |ChunkFrame(p)|)
    ensures w.n <= |p|
    ensures w.err.None? ==> w.n == |p|
    ensures !Fits(c, |Hex(|p|)| + 2) ==> w.n == 0
    ensures Fits(c, |Hex(|p|)| + 2) ==> w.n == |Accepted(Write(c, Hex(|p|) + CRLF).conn, p)|
  {
    var sizeLine := Hex(|p|) + CRLF;
    var size := Write(c, sizeLine);
    assert ChunkFrame(p) == sizeLine + (p + CRLF);
    AcceptedAppend(c, sizeLine, p + CRLF);
    if size.err.Some? then Written(size.conn, 0, size.err)
    else
      var data := Write(size.conn, p);
      AcceptedAppend(size.conn, p, CRLF);
      if data.err.Some? then data
      else
        var end := Write(data.conn, CRLF);
        Written(end.conn, data.n, end.err)
  }

  const LastChunk: Bytes := "0\r\n"

  /** `WriteChunkedBodyDone`: the last chunk, a zero size line; the trailer section must follow. */
  function WriteChunkedBodyDone(c: Conn): (w: Written)
    ensures w.conn.out == c.out + Accepted(c, LastChunk)
    ensures w.err.None? <==> Fits(c, |LastChunk|)
    ensures w.n == |Accepted(c, LastChunk)|
  {
    Write(c, LastChunk)
  }

  /** The frame of an empty chunk is the last chunk followed by an empty trailer section. */
  lemma EmptyChunkIsLast()
    ensures ChunkFrame([]) == LastChunk + CRLF
  {
    assert Hex(0) == "0";
  }
}
