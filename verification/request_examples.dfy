/**
 Whole requests through the parser: a request without a body, a request with
 a `Content-Length` body, and how the outcome of a body that overruns its
 declared length depends on how the stream is cut into reads.
 */
module RequestExamples {
  import opened Wrappers
  import opened Bytes
  import opened Numerals
  import Headers
  import opened Request

  const Colon: Bytes := ":"

  /**
   A body byte beyond `Content-Length` is an error when it arrives in the
   same read as the last expected byte, but is never looked at when it
   arrives in a later read: the request is already `Done`.
   */
  lemma OverrunDependsOnReads(r: Request)
    requires r.state == ParsingBody && r.body == [] && DeclaredLength(r) == Some(1)
    ensures ReadLoop(r, InitialBufferSize, [], ["ab"], Eof) == Failure(BodyExceedsContentLength)
    ensures ReadLoop(r, InitialBufferSize, [], ["a", "b"], Eof) == Success(r.(body := "a", state := Done))
  {
    var cl := Headers.Get(r.headers, Headers.ContentLength);
    assert cl != [] by {
      assert Atoi(cl).Some?;
    }
    assert Take(["ab"], 8) == ("ab", []);
    assert Take(["a", "b"], 8) == ("a", ["b"]);
    assert r.body + "a" == "a";
    assert ParseSingle(r, "a") == Success(Step(r.(body := "a", state := Done), 1));
  }

  /** A request line with an allowed method and `HTTP/1.1` moves a fresh request to its header section. */
  lemma RequestLineStep(m: Bytes, t: Bytes, rest: Bytes)
    requires m in AllowedMethods && Word(t)
    ensures ParseSingle(NewRequest(), RequestHead(m, t) + rest)
         == Success(Step(Request(RequestLine("1.1", t, m), map[], [], ParsingHeaders), |RequestHead(m, t)|))
  {
    RequestLineAccepted(m, t, rest);
  }

  /** A well-formed field line adds its field and consumes the line with its CR LF. */
  lemma FieldLineStep(r: Request, name: Bytes, raw: Bytes, rest: Bytes)
    requires r.state == ParsingHeaders
    requires |name| > 0 && Headers.AllTokenChars(name) && Free(raw, CRLF)
    ensures ParseSingle(r, Headers.FieldLine(name, raw) + rest)
         == Success(Step(r.(headers := Headers.Set(r.headers, name, TrimSpace(raw))), |Headers.FieldLine(name, raw)|))
  {
    Headers.ParseFieldLine(r.headers, name, raw, rest);
  }

  /** The empty line ends the header section. */
  lemma SectionEndStep(r: Request, rest: Bytes)
    requires r.state == ParsingHeaders
    ensures ParseSingle(r, CRLF + rest) == Success(Step(r.(state := ParsingBody), 2))
  {
    assert Free([], CRLF);
    FirstCrlf([], rest);
    assert [] + CRLF == CRLF;
  }

  /** After a good request line, `parse` carries on with the header section. */
  lemma HeadThen(m: Bytes, t: Bytes, rest: Bytes)
    requires m in AllowedMethods && Word(t)
    ensures Parse(NewRequest(), RequestHead(m, t) + rest)
         == Shift(Parse(Request(RequestLine("1.1", t, m), map[], [], ParsingHeaders), rest), |RequestHead(m, t)|)
  {
    var n := |RequestHead(m, t)|;
    RequestLineStep(m, t, rest);
    ParseContinues(NewRequest(), RequestHead(m, t) + rest, Request(RequestLine("1.1", t, m), map[], [], ParsingHeaders), n);
    assert (RequestHead(m, t) + rest)[n..] == rest;
  }

  /** After the empty line, `parse` carries on with the body. */
  lemma SectionEndThen(r: Request, rest: Bytes)
    requires r.state == ParsingHeaders
    ensures Parse(r, CRLF + rest) == Shift(Parse(r.(state := ParsingBody), rest), 2)
  {
    SectionEndStep(r, rest);
    ParseContinues(r, CRLF + rest, r.(state := ParsingBody), 2);
    assert (CRLF + rest)[2..] == rest;
  }

  /** After a field line, `parse` carries on with the rest of the header section. */
  lemma FieldLineThen(r: Request, name: Bytes, raw: Bytes, rest: Bytes)
    requires r.state == ParsingHeaders
    requires |name| > 0 && Headers.AllTokenChars(name) && Free(raw, CRLF)
    ensures Parse(r, Headers.FieldLine(name, raw) + rest)
         == Shift(Parse(r.(headers := Headers.Set(r.headers, name, TrimSpace(raw))), rest), |Headers.FieldLine(name, raw)|)
  {
    var field := Headers.FieldLine(name, raw);
    FieldLineStep(r, name, raw, rest);
    ParseContinues(r, field + rest, r.(headers := Headers.Set(r.headers, name, TrimSpace(raw))), |field|);
    assert (field + rest)[|field|..] == rest;
  }

  /** The `Content-Length` field line a client sends for `n` body bytes. */
  function LengthField(n: nat): (line: Bytes) {
    Headers.FieldLine(Headers.ContentLength, [' '] + Decimal(n))
  }

  /** A decimal numeral of a natural number is made of digits only. */
  lemma DecimalDigits(n: nat)
    ensures forall i | 0 <= i < |Decimal(n)| :: '0' <= Decimal(n)[i] <= '9'
  {
    var d := Decimal(n);
    forall i | 0 <= i < |d|
      ensures '0' <= d[i] <= '9'
    {
      assert DigitValue(d[i], 10).Some?;
    }
  }

  /** The value of a `Content-Length` line holds no CR LF. */
  lemma LengthValueFree(n: nat)
    ensures Free([' '] + Decimal(n), CRLF)
  {
    DecimalDigits(n);
    assert Lacks([' '] + Decimal(n), '\r');
    NoCrIsCrlfFree([' '] + Decimal(n));
  }

  /** The value of a `Content-Length` line is read back, trimmed, as `Decimal(n)`. */
  lemma LengthValueTrim(n: nat)
    ensures TrimSpace([' '] + Decimal(n)) == Decimal(n)
  {
    DecimalDigits(n);
    var d := Decimal(n);
    assert !AsciiSpaces.Has(d[0]) && !AsciiSpaces.Has(d[|d| - 1]);
    TrimSpaceTrimmed(d);
    TrimSpaceLeading([' '], d);
  }

  /** `Content-Length` is a token. */
  lemma ContentLengthIsToken()
    ensures |Headers.ContentLength| > 0 && Headers.AllTokenChars(Headers.ContentLength)
  {
    assert Headers.ContentLength == "Content-Length";
  }

  /** In the body state under `Content-Length: |body|`, the body arrives whole and completes the request. */
  lemma BodyCompletes(r: Request, body: Bytes)
    requires r.state == ParsingBody && r.body == []
    requires Headers.Get(r.headers, Headers.ContentLength) == Decimal(|body|)
    ensures Parse(r, body) == Success(Step(r.(body := body, state := Done), |body|))
  {
    var q := r.(body := body, state := Done);
    AtoiDecimal(|body|);
    assert [] + body == body;
    assert ParseSingle(r, body) == Success(Step(q, |body|));
    if |body| > 0 {
      ParseContinues(r, body, q, |body|);
    } else {
      ParseStops(r, body, q);
    }
  }

  /** The `Content-Length` line a client writes for `n` bytes is stored, lower-cased, as the decimal numeral of `n`. */
  lemma LengthFieldStep(r: Request, n: nat, rest: Bytes)
    requires r.state == ParsingHeaders
    ensures ParseSingle(r, LengthField(n) + rest)
         == Success(Step(r.(headers := Headers.Set(r.headers, Headers.ContentLength, Decimal(n))), |LengthField(n)|))
  {
    LengthValueFree(n);
    LengthValueTrim(n);
    ContentLengthIsToken();
    FieldLineStep(r, Headers.ContentLength, [' '] + Decimal(n), rest);
  }

  /** A successful step moved further into the input. */
  lemma ShiftedSuccess(whole: Result<Step, RequestError>, part: Result<Step, RequestError>, q: Request, n: nat, k: nat, total: nat)
    requires whole == Shift(part, k) && part == Success(Step(q, n)) && total == k + n
    ensures whole == Success(Step(q, total))
  {
  }

  /** After the `Content-Length` line, `parse` carries on with the field stored under its lower-case name. */
  lemma LengthFieldThen(r: Request, n: nat, rest: Bytes)
    requires r.state == ParsingHeaders
    ensures Parse(r, LengthField(n) + rest)
         == Shift(Parse(r.(headers := Headers.Set(r.headers, Headers.ContentLength, Decimal(n))), rest), |LengthField(n)|)
  {
    LengthValueFree(n);
    LengthValueTrim(n);
    ContentLengthIsToken();
    FieldLineThen(r, Headers.ContentLength, [' '] + Decimal(n), rest);
  }

  /** A fresh `Content-Length` of `n` is what the body state reads back. */
  lemma LengthStored(h: Headers.Headers, n: nat)
    requires ToLower(Headers.ContentLength) !in h
    ensures Headers.Get(Headers.Set(h, Headers.ContentLength, Decimal(n)), Headers.ContentLength) == Decimal(n)
  {
  }

  /** The empty line under a `Content-Length` of `|body|`, then the body, complete the request. */
  lemma SectionEndThenBody(r: Request, body: Bytes)
    requires r.state == ParsingHeaders && r.body == []
    requires Headers.Get(r.headers, Headers.ContentLength) == Decimal(|body|)
    ensures Parse(r, CRLF + body) == Success(Step(r.(body := body, state := Done), 2 + |body|))
  {
    SectionEndThen(r, body);
    BodyCompletes(r.(state := ParsingBody), body);
  }

  /**
   In the header section, a `Content-Length` line for `|body|` bytes, the
   empty line and then the body complete the request with exactly that body.
   */
  lemma LengthThenBody(r: Request, body: Bytes)
    requires r.state == ParsingHeaders && r.body == []
    requires ToLower(Headers.ContentLength) !in r.headers
    ensures Parse(r, LengthField(|body|) + (CRLF + body))
         == Success(Step(r.(headers := Headers.Set(r.headers, Headers.ContentLength, Decimal(|body|)), body := body, state := Done),
                         |LengthField(|body|) + (CRLF + body)|))
  {
    var fielded := r.(headers := Headers.Set(r.headers, Headers.ContentLength, Decimal(|body|)));
    LengthStored(r.headers, |body|);
    LengthFieldThen(r, |body|, CRLF + body);
    SectionEndThenBody(fielded, body);
    var done := r.(headers := Headers.Set(r.headers, Headers.ContentLength, Decimal(|body|)), body := body, state := Done);
    assert fielded.(body := body, state := Done) == done;
    ShiftedSuccess(Parse(r, LengthField(|body|) + (CRLF + body)), Parse(fielded, CRLF + body), done,
                   2 + |body|, |LengthField(|body|)|, |LengthField(|body|) + (CRLF + body)|);
  }

  /**
   A whole request as a client writes it, request line, `Content-Length`
   line, empty line and body, parses in one call to a complete request that
   carries that one field and that body, consuming every byte.
   */
  lemma WholeRequest(m: Bytes, t: Bytes, body: Bytes)
    requires m in AllowedMethods && Word(t)
    ensures Parse(NewRequest(), RequestHead(m, t) + (LengthField(|body|) + (CRLF + body)))
         == Success(Step(Request(RequestLine("1.1", t, m), Headers.Set(map[], Headers.ContentLength, Decimal(|body|)), body, Done),
                         |RequestHead(m, t) + (LengthField(|body|) + (CRLF + body))|))
  {
    var rest := LengthField(|body|) + (CRLF + body);
    var headed := Request(RequestLine("1.1", t, m), map[], [], ParsingHeaders);
    var done := Request(RequestLine("1.1", t, m), Headers.Set(map[], Headers.ContentLength, Decimal(|body|)), body, Done);
    HeadThen(m, t, rest);
    LengthThenBody(headed, body);
    assert headed.(headers := Headers.Set(headed.headers, Headers.ContentLength, Decimal(|body|)), body := body, state := Done) == done;
    ShiftedSuccess(Parse(NewRequest(), RequestHead(m, t) + rest), Parse(headed, rest), done, |rest|, |RequestHead(m, t)|, |RequestHead(m, t) + rest|);
  }

  /**
   However a client's stream of a whole request, request line,
   `Content-Length` line, empty line and body, is cut into reads, and however
   the buffer grows, `RequestFromReader` returns the complete request with
   that one field and that body.
   */
  lemma WholeRequestRead(m: Bytes, t: Bytes, body: Bytes, chunks: seq<Bytes>)
    requires m in AllowedMethods && Word(t)
    ensures Concat(chunks) == RequestHead(m, t) + (LengthField(|body|) + (CRLF + body)) ==>
              RequestFromReader(Stream(chunks, Eof))
              == Success(Request(RequestLine("1.1", t, m), Headers.Set(map[], Headers.ContentLength, Decimal(|body|)), body, Done))
  {
    if Concat(chunks) == RequestHead(m, t) + (LengthField(|body|) + (CRLF + body)) {
      WholeRequest(m, t, body);
      ReaderParsesWhole(chunks);
    }
  }

  /** After one field line other than `Content-Length`, the empty line ends a request that has no body. */
  lemma FieldThenEnd(r: Request, name: Bytes, raw: Bytes)
    requires r.state == ParsingHeaders && r.body == []
    requires |name| > 0 && Headers.AllTokenChars(name) && Free(raw, CRLF)
    requires Headers.Get(Headers.Set(r.headers, name, TrimSpace(raw)), Headers.ContentLength) == []
    ensures Parse(r, Headers.FieldLine(name, raw) + CRLF)
         == Success(Step(r.(headers := Headers.Set(r.headers, name, TrimSpace(raw)), state := Done), |Headers.FieldLine(name, raw) + CRLF|))
  {
    var fielded := r.(headers := Headers.Set(r.headers, name, TrimSpace(raw)));
    var done := r.(headers := Headers.Set(r.headers, name, TrimSpace(raw)), state := Done);
    FieldLineThen(r, name, raw, CRLF);
    SectionEndNoBody(fielded);
    assert fielded.(state := Done) == done;
    ShiftedSuccess(Parse(r, Headers.FieldLine(name, raw) + CRLF), Parse(fielded, CRLF), done,
                   2, |Headers.FieldLine(name, raw)|, |Headers.FieldLine(name, raw) + CRLF|);
  }

  /** Without `Content-Length`, the empty line ends the request. */
  lemma SectionEndNoBody(r: Request)
    requires r.state == ParsingHeaders && Headers.Get(r.headers, Headers.ContentLength) == []
    ensures Parse(r, CRLF) == Success(Step(r.(state := Done), 2))
  {
    assert CRLF + [] == CRLF;
    SectionEndThen(r, []);
    NoLengthEnds(r.(state := ParsingBody));
  }

  /** In the body state without `Content-Length`, `parse` ends the request at once and consumes nothing. */
  lemma NoLengthEnds(r: Request)
    requires r.state == ParsingBody && Headers.Get(r.headers, Headers.ContentLength) == []
    ensures Parse(r, []) == Success(Step(r.(state := Done), 0))
  {
    BodyStep(r, []);
    ParseStops(r, [], r.(state := Done));
  }

  const Host: Bytes := "Host"
  const HostValue: Bytes := " x"

  /** `Host` is a token, and its lower-case name is not `content-length`. */
  lemma HostIsToken()
    ensures |Host| > 0 && Headers.AllTokenChars(Host)
    ensures ToLower(Host) != ToLower(Headers.ContentLength)
  {
    assert Host == "Host";
    assert |ToLower(Host)| == 4 && |ToLower(Headers.ContentLength)| == 14;
  }

  /**
   A request line, one field line other than `Content-Length` and the empty
   line parse in one call to a complete request with no body that carries
   that one field, consuming every byte.
   */
  lemma HeadWithField(m: Bytes, t: Bytes, name: Bytes, raw: Bytes)
    requires m in AllowedMethods && Word(t)
    requires |name| > 0 && Headers.AllTokenChars(name) && Free(raw, CRLF)
    requires Headers.Get(Headers.Set(map[], name, TrimSpace(raw)), Headers.ContentLength) == []
    ensures Parse(NewRequest(), RequestHead(m, t) + (Headers.FieldLine(name, raw) + CRLF))
         == Success(Step(Request(RequestLine("1.1", t, m), Headers.Set(map[], name, TrimSpace(raw)), [], Done),
                         |RequestHead(m, t) + (Headers.FieldLine(name, raw) + CRLF)|))
  {
    var rest := Headers.FieldLine(name, raw) + CRLF;
    var headed := Request(RequestLine("1.1", t, m), map[], [], ParsingHeaders);
    var done := Request(RequestLine("1.1", t, m), Headers.Set(map[], name, TrimSpace(raw)), [], Done);
    HeadThen(m, t, rest);
    FieldThenEnd(headed, name, raw);
    assert headed.(headers := Headers.Set(headed.headers, name, TrimSpace(raw)), state := Done) == done;
    ShiftedSuccess(Parse(NewRequest(), RequestHead(m, t) + rest), Parse(headed, rest), done,
                   |rest|, |RequestHead(m, t)|, |RequestHead(m, t) + rest|);
  }

  /**
   However a client's stream of a request line, one field line other than
   `Content-Length` and the empty line is cut into reads, `RequestFromReader`
   returns the complete request with no body that carries that one field.
   */
  lemma HeadWithFieldRead(m: Bytes, t: Bytes, name: Bytes, raw: Bytes, chunks: seq<Bytes>)
    requires m in AllowedMethods && Word(t)
    requires |name| > 0 && Headers.AllTokenChars(name) && Free(raw, CRLF)
    requires Headers.Get(Headers.Set(map[], name, TrimSpace(raw)), Headers.ContentLength) == []
    ensures Concat(chunks) == RequestHead(m, t) + (Headers.FieldLine(name, raw) + CRLF) ==>
              RequestFromReader(Stream(chunks, Eof))
              == Success(Request(RequestLine("1.1", t, m), Headers.Set(map[], name, TrimSpace(raw)), [], Done))
  {
    if Concat(chunks) == RequestHead(m, t) + (Headers.FieldLine(name, raw) + CRLF) {
      HeadWithField(m, t, name, raw);
      ReaderParsesWhole(chunks);
    }
  }

  /**
   `GET`, any target, `Host: x` and the empty line parse to a complete
   request with no body and one field, `host: x`.
   */
  lemma GetWithHost(t: Bytes)
    requires Word(t)
    ensures Parse(NewRequest(), RequestHead("GET", t) + (Headers.FieldLine(Host, HostValue) + CRLF))
         == Success(Step(Request(RequestLine("1.1", t, "GET"), map[ToLower(Host) := "x"], [], Done),
                         |RequestHead("GET", t) + (Headers.FieldLine(Host, HostValue) + CRLF)|))
  {
    HostIsToken();
    HostValueTrims();
    Headers.SetAbsent(map[], Host, "x");
    assert Headers.Get(map[ToLower(Host) := "x"], Headers.ContentLength) == [];
    HeadWithField("GET", t, Host, HostValue);
  }

  /** The value ` x` is free of CR LF and trims to `x`. */
  lemma HostValueTrims()
    ensures Free(HostValue, CRLF) && TrimSpace(HostValue) == "x"
  {
    var x: Bytes := "x";
    assert HostValue == [' '] + x;
    assert Lacks(HostValue, '\r');
    NoCrIsCrlfFree(HostValue);
    TrimSpaceTrimmed(x);
    TrimSpaceLeading([' '], x);
  }

  /**
   Under `Content-Length: 4`, three body bytes and then the end of the
   stream fail as a short body; four bytes in two reads complete the request.
   */
  lemma FourByteBody(r: Request)
    requires r.state == ParsingBody && r.body == [] && DeclaredLength(r) == Some(4)
    ensures ReadLoop(r, InitialBufferSize, [], ["abc"], Eof) == Failure(BodyShorterThanContentLength)
    ensures ReadLoop(r, InitialBufferSize, [], ["ab", "cd"], Eof) == Success(r.(body := "abcd", state := Done))
  {
    assert Concat(["abc"]) == "abc" by {
      assert Concat(["abc"][1..]) == [];
    }
    assert Concat(["ab", "cd"]) == "abcd" by {
      assert ["ab", "cd"][1..] == ["cd"] && ["cd"][1..] == [];
      assert Concat(["cd"]) == "cd";
    }
    BodyLoop(r, InitialBufferSize, ["abc"], Eof);
    BodyLoop(r, InitialBufferSize, ["ab", "cd"], Eof);
    assert r.body + Concat(["ab", "cd"]) == "abcd";
  }
}
