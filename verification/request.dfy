/**
 The incremental request parser of internal/request/request.go: a four-state
 machine `Initialized -> ParsingHeaders -> ParsingBody -> Done` that reads the
 request line (section 3 of RFC 9112), hands field lines to `Headers.Parse`,
 and collects a body of `Content-Length` bytes (section 8.6 of RFC 9110); and
 `RequestFromReader`, the loop that feeds it from a stream through a growing
 buffer.
 */
module Request {
  import opened Wrappers
  import opened Bytes
  import opened Numerals
  import Headers

  /** Parser states, in the only order they are visited. */
  datatype State = Initialized | ParsingHeaders | ParsingBody | Done {
    /** Position in the order of states. */
    function Rank(): nat {
      match this
      case Initialized => 0
      case ParsingHeaders => 1
      case ParsingBody => 2
      case Done => 3
    }
  }

  datatype RequestLine = RequestLine(httpVersion: Bytes, requestTarget: Bytes, httpMethod: Bytes)

  /** A request under construction; `state` is internal to the parser. */
  datatype Request = Request(requestLine: RequestLine, headers: Headers.Headers, body: Bytes, state: State)

  /** Everything that makes the parser give up on a request. */
  datatype RequestError =
    | WrongRequestLine                 // the request line does not split into three parts on single spaces
    | VersionIndexPanic                // only in the as-written request line: `strings.Split(parts[2], "/")[1]` out of range, a Go runtime panic
    | InvalidMethod(httpMethod: Bytes)     // not one of GET, POST, PUT, PATCH, DELETE
    | UnsupportedVersion               // the version after the first `/` is not `1.1`
    | BadHeader(cause: Headers.HeaderError)
    | InvalidContentLength(value: Bytes)
    | BodyExceedsContentLength
    | ReadInDoneState                  // a step was attempted after the request was complete
    | BodyShorterThanContentLength     // the stream ended inside the body
    | ReadFailed                       // the reader reported an error other than end of stream

  /** A fresh request: no request line, no headers, no body, in `Initialized`. */
  function NewRequest(): (r: Request)
    ensures r.state == Initialized && |r.headers| == 0 && r.body == []
    ensures Consistent(r)
  {
    Request(RequestLine([], [], []), Headers.NewHeaders(), [], Initialized)
  }

  /** The request's `Content-Length` as `strconv.Atoi` reads it; `None` also when the header is absent or empty. */
  function DeclaredLength(r: Request): (length: Option<int>) {
    Atoi(Headers.Get(r.headers, Headers.ContentLength))
  }

  /**
   What holds of every request the parser produces: lower-case header keys; no
   headers before the request line; no body before the header section ends;
   a body only under a valid `Content-Length` it does not exceed, and one
   that is complete once the request is `Done`.
   */
  predicate Consistent(r: Request) {
    && Headers.KeysLowerCase(r.headers)
    && (r.state == Initialized ==> r.headers == map[])
    && (r.state.Rank() < 2 ==> r.body == [])
    && (|r.body| > 0 ==> DeclaredLength(r).Some? && |r.body| <= DeclaredLength(r).value)
    && (r.state == Done && |r.body| > 0 ==> |r.body| == DeclaredLength(r).value)
  }

  /** In `ParsingBody` between reads: the declared length is valid and not yet reached. */
  predicate Settled(r: Request) {
    r.state == ParsingBody ==> DeclaredLength(r).Some? && |r.body| < DeclaredLength(r).value
  }

  const AllowedMethods: seq<Bytes> := ["GET", "POST", "PUT", "PATCH", "DELETE"]

  /** `verifyMethod`: the method must be one of the five the server knows. */
  function VerifyMethod(httpMethod: Bytes): (err: Option<RequestError>) {
    if httpMethod in AllowedMethods then None else Some(InvalidMethod(httpMethod))
  }

  /** `verifyHttpVersion`: only `1.1` is supported. */
  function VerifyHttpVersion(version: Bytes): (err: Option<RequestError>) {
    if version == "1.1" then None else Some(UnsupportedVersion)
  }

  /** The outcome of `parseRequestLine`: more bytes needed, a request line and the bytes it took, or an error. */
  datatype LineOutcome = Incomplete | Parsed(line: RequestLine, n: nat) | Rejected(err: RequestError)

  /**
   Reads `METHOD SP TARGET SP PROTOCOL/VERSION CRLF` from the front of
   `data`. The line is split on single spaces and must give exactly three
   parts. The version is the text between the first and second `/` of the
   third part; the protocol name before it is not checked, and a third part
   without `/` is rejected as an unsupported version (the guarded form of
   the line; `ParseRequestLineAsWritten` keeps the index panic). On success
   exactly the line and its CR LF are consumed.
   */
  function ParseRequestLine(data: Bytes): (r: LineOutcome)
    ensures r.Incomplete? <==> IndexOf(data, CRLF).None?
    ensures r.Parsed? ==> IndexOf(data, CRLF).Some? && r.n == IndexOf(data, CRLF).value + 2
    ensures r.Parsed? ==> r.line.httpMethod in AllowedMethods && r.line.httpVersion == "1.1"
    ensures r.Parsed? ==> Free(r.line.requestTarget, " ")
    ensures r != Rejected(VersionIndexPanic)
  {
    match IndexOf(data, CRLF)
    case None => Incomplete
    case Some(index) => CheckParts(Split(Split(data, CRLF)[0], " "), index + 2)
  }

  /** The request line is rejected as malformed exactly when it does not hold two spaces. */
  lemma WrongRequestLineIff(data: Bytes)
    ensures ParseRequestLine(data) == Rejected(WrongRequestLine) <==>
              IndexOf(data, CRLF).Some? && Count(data[..IndexOf(data, CRLF).value], ' ') != 2
  {
    match IndexOf(data, CRLF)
    case None =>
    case Some(index) =>
      SplitHead(data, CRLF, index);
      SplitByteCount(data[..index], ' ');
  }

  /**
   The checks on the space-separated parts of a request line that took `n`
   bytes, in the order `parseRequestLine` makes them. A third part without
   `/` has no version after a `/`, and is rejected as an unsupported version
   rather than indexed past the end of its split.
   */
  function CheckParts(parts: seq<Bytes>, n: nat): (r: LineOutcome)
    ensures !r.Incomplete?
    ensures r == Rejected(WrongRequestLine) <==> |parts| != 3
    ensures r.Parsed? ==> r.n == n && r.line.requestTarget == parts[1] && r.line.httpMethod == parts[0]
    ensures r.Parsed? ==> r.line.httpMethod in AllowedMethods && r.line.httpVersion == "1.1"
    ensures r != Rejected(VersionIndexPanic)
    ensures |parts| == 3 && |Split(parts[2], "/")| < 2 ==> r == Rejected(UnsupportedVersion)
  {
    if |parts| != 3 then Rejected(WrongRequestLine)
    else
      var versionParts := Split(parts[2], "/");
      if |versionParts| < 2 then Rejected(UnsupportedVersion)
      else
        var httpMethod, target, version := parts[0], parts[1], versionParts[1];
        match VerifyMethod(httpMethod)
        case Some(e) => Rejected(e)
        case None =>
          match VerifyHttpVersion(version)
          case Some(e) => Rejected(e)
          case None => Parsed(RequestLine(version, target, httpMethod), n)
  }

  /**
   `parseRequestLine` exactly as written: `strings.Split(parts[2], "/")[1]`
   is evaluated before anything else is checked, and without a `/` in the
   third part it indexes past the end of the split, a runtime panic.
   */
  function ParseRequestLineAsWritten(data: Bytes): (r: LineOutcome)
    ensures r == Rejected(VersionIndexPanic) || r == ParseRequestLine(data)
    ensures r == Rejected(VersionIndexPanic) <==>
              && IndexOf(data, CRLF).Some?
              && |Split(Split(data, CRLF)[0], " ")| == 3
              && |Split(Split(Split(data, CRLF)[0], " ")[2], "/")| < 2
  {
    match IndexOf(data, CRLF)
    case None => Incomplete
    case Some(index) =>
      var parts := Split(Split(data, CRLF)[0], " ");
      if |parts| == 3 && |Split(parts[2], "/")| < 2 then Rejected(VersionIndexPanic)
      else CheckParts(parts, index + 2)
  }

  /** One step of the parser and the bytes it consumed. */
  datatype Step = Step(req: Request, n: nat)

  /**
   `parseSingle`: one step in the current state. Initialized reads the
   request line; ParsingHeaders reads one field line; ParsingBody takes all
   of `data` into the body when a `Content-Length` is declared, and finishes
   at once with no body when it is not; Done is an error.
   */
  function ParseSingle(r: Request, data: Bytes): (res: Result<Step, RequestError>)
    ensures res.Success? ==> res.value.n <= |data|
    ensures res.Success? ==> r.state.Rank() <= res.value.req.state.Rank() <= r.state.Rank() + 1
    ensures r.state == Done ==> res == Failure(ReadInDoneState)
    ensures res.Success? && res.value.req.requestLine != r.requestLine ==> r.state == Initialized
    ensures res.Success? && res.value.req.headers != r.headers ==> r.state == ParsingHeaders
    ensures res.Success? ==> res.value.req.body == r.body + (if r.state == ParsingBody then data[..res.value.n] else [])
    ensures res.Success? && r.state == Initialized ==> (res.value.req.state == ParsingHeaders <==> res.value.n > 0)
    ensures res.Success? && r.state == ParsingHeaders && res.value.req.state == ParsingBody ==> res.value.n == 2
    ensures r.state == Initialized && ParseRequestLine(data).Rejected? ==> res == Failure(ParseRequestLine(data).err)
    ensures r.state == ParsingHeaders && Headers.Parse(r.headers, data).err.Some? ==>
              res == Failure(BadHeader(Headers.Parse(r.headers, data).err.value))
  {
    match r.state
    case Initialized =>
      (match ParseRequestLine(data)
       case Rejected(e) => Failure(e)
       case Incomplete => Success(Step(r, 0))
       case Parsed(line, n) => Success(Step(r.(requestLine := line, state := ParsingHeaders), n)))
    case ParsingHeaders =>
      var p := Headers.Parse(r.headers, data);
      if p.err.Some? then Failure(BadHeader(p.err.value))
      else Success(Step(r.(headers := p.headers, state := if p.done then State.ParsingBody else State.ParsingHeaders), p.n))
    case ParsingBody =>
      var contentLength := Headers.Get(r.headers, Headers.ContentLength);
      if contentLength == [] then
        assert data[..0] == [];
        Success(Step(r.(state := Done), 0))
      else
        (match Atoi(contentLength)
         case None => Failure(InvalidContentLength(contentLength))
         case Some(length) =>
           var body := r.body + data;
           if |body| > length then Failure(BodyExceedsContentLength)
           else
             assert data[..|data|] == data;
             Success(Step(r.(body := body, state := if |body| == length then State.Done else State.ParsingBody), |data|)))
    case Done => Failure(ReadInDoneState)
  }

  /**
   `parse`: steps until a step consumes nothing or the request is done, and
   reports the total consumed. Each further step reads the input after what
   the earlier ones consumed. An error discards the count.
   */
  function Parse(r: Request, data: Bytes): (res: Result<Step, RequestError>)
    ensures res.Success? ==> res.value.n <= |data|
    ensures res.Success? ==> r.state.Rank() <= res.value.req.state.Rank()
    ensures r.state == Done ==> res == Success(Step(r, 0))
    ensures r.state != Done && ParseSingle(r, data).Failure? ==> res == ParseSingle(r, data)
    decreases |data|
  {
    if r.state == Done then Success(Step(r, 0))
    else
      match ParseSingle(r, data)
      case Failure(e) => Failure(e)
      case Success(step) =>
        if step.n == 0 then Success(step)
        else Shift(Parse(step.req, data[step.n..]), step.n)
  }

  /** A step result moved `k` bytes further into the input. */
  function Shift(res: Result<Step, RequestError>, k: nat): (moved: Result<Step, RequestError>)
    ensures moved.Success? <==> res.Success?
    ensures moved.Success? ==> moved.value.req == res.value.req && moved.value.n == res.value.n + k
    ensures moved.Failure? ==> moved.error == res.error
  {
    match res
    case Success(step) => Success(Step(step.req, step.n + k))
    case Failure(e) => Failure(e)
  }

  /** Where the reader stopped: plain end of stream, or a failing read. */
  datatype StreamEnd = Eof | ReadError

  /** An `io.Reader` as the chunks its reads deliver, then how it ends. */
  datatype Stream = Stream(chunks: seq<Bytes>, end: StreamEnd)

  const InitialBufferSize: nat := 8

  /** The sizes the read buffer takes: 8, doubled any number of times. */
  predicate IsBufferSize(size: nat)
    decreases size
  {
    size == InitialBufferSize || (size > InitialBufferSize && size % 2 == 0 && IsBufferSize(size / 2))
  }

  /** Bytes still to be delivered, counting one extra per chunk so that an empty read also makes progress. */
  function Undelivered(chunks: seq<Bytes>): (k: nat) {
    if |chunks| == 0 then 0 else |chunks[0]| + 1 + Undelivered(chunks[1..])
  }

  /**
   `RequestFromReader`: reads into a buffer of 8 bytes that doubles whenever
   it is full, parses after every read, and moves the unconsumed bytes to the
   front. On success the request is `Done`.
   */
  function RequestFromReader(s: Stream): (res: Result<Request, RequestError>)
    ensures res.Success? ==> res.value.state == Done
  {
    ReadLoop(NewRequest(), InitialBufferSize, [], s.chunks, s.end)
  }

  /** One read of at most `room` bytes: what it delivers, and the chunks left behind (a partly read chunk stays in front). */
  function Take(chunks: seq<Bytes>, room: nat): (r: (Bytes, seq<Bytes>))
    requires |chunks| > 0 && room > 0
    ensures |r.0| <= room && |r.0| <= |chunks[0]|
    ensures Undelivered(r.1) < Undelivered(chunks)
    ensures Undelivered(r.1) + |r.0| <= Undelivered(chunks)
  {
    var chunk := chunks[0];
    if |chunk| <= room then (chunk, chunks[1..])
    else
      var rest := [chunk[room..]] + chunks[1..];
      assert rest[1..] == chunks[1..];
      assert Undelivered(rest) == |chunk| - room + 1 + Undelivered(chunks[1..]);
      (chunk[..room], rest)
  }

  /** A read delivers the front of the stream, and the chunks left behind deliver the rest. */
  lemma TakeConcat(chunks: seq<Bytes>, room: nat)
    requires |chunks| > 0 && room > 0
    ensures Take(chunks, room).0 + Concat(Take(chunks, room).1) == Concat(chunks)
  {
    var chunk, tail := chunks[0], Concat(chunks[1..]);
    ConcatFirst(chunks);
    if |chunk| > room {
      var rest := [chunk[room..]] + chunks[1..];
      assert rest[0] == chunk[room..] && rest[1..] == chunks[1..];
      ConcatFirst(rest);
      SplitJoins(chunk, room, tail);
    }
  }

  /** A list of pieces concatenates to its first piece followed by the rest. */
  lemma ConcatFirst(parts: seq<Bytes>)
    requires |parts| > 0
    ensures Concat(parts) == parts[0] + Concat(parts[1..])
  {
  }

  /** Cutting a piece in two and rejoining the halves in front of a tail gives the piece and the tail. */
  lemma SplitJoins(piece: Bytes, at: nat, tail: Bytes)
    requires at <= |piece|
    ensures piece[..at] + (piece[at..] + tail) == piece + tail
  {
    assert piece[..at] + piece[at..] == piece;
  }

  /** The buffer grows by doubling only when it is full. */
  function Grow(size: nat, used: nat): (s: nat)
    requires IsBufferSize(size) && used <= size
    ensures IsBufferSize(s) && used <= s
    ensures used < s
  {
    if used == size then 2 * size else size
  }

  /**
   The read loop with buffer capacity `size` holding `buffered` unconsumed
   bytes (`readToIndex` of them). One read takes as much of the next chunk as
   the free space allows; the rest of the chunk waits for the next read.
   */
  function ReadLoop(r: Request, size: nat, buffered: Bytes, chunks: seq<Bytes>, end: StreamEnd): (res: Result<Request, RequestError>)
    requires IsBufferSize(size) && |buffered| <= size
    ensures res.Success? ==> res.value.state == Done
    decreases Undelivered(chunks), 0
  {
    if r.state == Done then Success(r)
    else if |chunks| == 0 then AtEndOfStream(r, buffered, end)
    else
      var size' := Grow(size, |buffered|);
      var taken := Take(chunks, size' - |buffered|);
      AfterRead(Parse(r, buffered + taken.0), size', buffered + taken.0, taken.1, end)
  }

  /**
   What the loop does with the outcome of parsing the buffer after a read:
   stop on an error, or drop the consumed bytes and read on.
   */
  function AfterRead(parsed: Result<Step, RequestError>, size: nat, data: Bytes, chunks: seq<Bytes>, end: StreamEnd)
    : (res: Result<Request, RequestError>)
    requires IsBufferSize(size) && |data| <= size
    requires parsed.Success? ==> parsed.value.n <= |data|
    ensures parsed.Failure? ==> res == Failure(parsed.error)
    ensures res.Success? ==> res.value.state == Done
    decreases Undelivered(chunks), 1
  {
    match parsed
    case Failure(e) => Failure(e)
    case Success(step) => ReadLoop(step.req, size, data[step.n..], chunks, end)
  }

  /**
   The end-of-stream branch: a last parse of what is buffered, then the only
   completeness check, for a body shorter than its `Content-Length`
   (the conversion error ignored, as `contentLength, _ :=` does). Any other
   state, including a request cut off in its request line or headers, is
   accepted and forced to `Done`.
   */
  function AtEndOfStream(r: Request, buffered: Bytes, end: StreamEnd): (res: Result<Request, RequestError>)
    ensures end == ReadError ==> res == Failure(ReadFailed)
    ensures res.Success? ==> res.value.state == Done
    ensures res.Failure? && end == Eof && buffered == [] ==> res == Failure(BodyShorterThanContentLength)
    ensures res.Success? && buffered == [] ==> res.value == r.(state := Done)
  {
    if end == ReadError then Failure(ReadFailed)
    else
      var step :- if |buffered| > 0 then Parse(r, buffered) else Success(Step(r, 0));
      var last := step.req;
      var contentLength := Headers.Get(last.headers, Headers.ContentLength);
      if last.state == ParsingBody && contentLength != [] && |last.body| < AtoiOrZero(contentLength) then
        Failure(BodyShorterThanContentLength)
      else
        Success(last.(state := Done))
  }

  /** One step keeps a request consistent, and a step that stays in the body leaves it settled. */
  lemma StepKeeps(r: Request, data: Bytes)
    requires ParseSingle(r, data).Success?
    ensures Consistent(r) ==> Consistent(ParseSingle(r, data).value.req)
    ensures r.state == ParsingBody && ParseSingle(r, data).value.req.state == ParsingBody
            ==> Settled(ParseSingle(r, data).value.req)
  {
  }

  /**
   The body state of `parseSingle`, case by case: no `Content-Length` ends
   the request at once without consuming anything; a value `strconv.Atoi`
   rejects is an error; a body that would grow past the declared length is
   an error; otherwise all of `data` joins the body, and the request is done
   exactly when the body has reached the declared length.
   */
  lemma BodyStep(r: Request, data: Bytes)
    requires r.state == ParsingBody
    ensures Headers.Get(r.headers, Headers.ContentLength) == [] ==> ParseSingle(r, data) == Success(Step(r.(state := Done), 0))
    ensures Headers.Get(r.headers, Headers.ContentLength) != [] && DeclaredLength(r).None?
            ==> ParseSingle(r, data) == Failure(InvalidContentLength(Headers.Get(r.headers, Headers.ContentLength)))
    ensures DeclaredLength(r).Some? && |r.body| + |data| > DeclaredLength(r).value
            ==> ParseSingle(r, data) == Failure(BodyExceedsContentLength)
    ensures DeclaredLength(r).Some? && |r.body| + |data| <= DeclaredLength(r).value
            ==> && ParseSingle(r, data).Success?
                && ParseSingle(r, data).value.n == |data|
                && ParseSingle(r, data).value.req.body == r.body + data
                && ParseSingle(r, data).value.req.headers == r.headers
                && ParseSingle(r, data).value.req.requestLine == r.requestLine
                && ParseSingle(r, data).value.req.state in {ParsingBody, Done}
                && (ParseSingle(r, data).value.req.state == Done <==> |r.body| + |data| == DeclaredLength(r).value)
  {
  }

  /**
   With a valid declared length that `data` does not overrun, `parse` in the
   body state takes all of `data` into the body, and stops there.
   */
  lemma BodyParse(r: Request, data: Bytes)
    requires r.state == ParsingBody && DeclaredLength(r).Some?
    requires |r.body| + |data| <= DeclaredLength(r).value
    ensures Parse(r, data) == Success(Step(r.(body := r.body + data, state := if |r.body| + |data| == DeclaredLength(r).value then Done else ParsingBody), |data|))
  {
    var q := r.(body := r.body + data, state := if |r.body| + |data| == DeclaredLength(r).value then Done else ParsingBody);
    BodyStep(r, data);
    assert ParseSingle(r, data) == Success(Step(q, |data|));
    if |data| == 0 {
      ParseStops(r, data, q);
    } else {
      ParseContinues(r, data, q, |data|);
      assert data[|data|..] == [];
      if q.state != Done {
        BodyStep(q, []);
        assert q.body + [] == q.body;
        assert ParseSingle(q, []) == Success(Step(q, 0));
        ParseStops(q, [], q);
      }
    }
  }

  /**
   What `parse` returns is settled: it never stops in the body state with
   the declared length reached or undeclared, and it keeps a request
   consistent.
   */
  lemma {:induction false} ParseKeeps(r: Request, data: Bytes)
    ensures Parse(r, data).Success? ==> Settled(Parse(r, data).value.req)
    ensures Parse(r, data).Success? && Consistent(r) ==> Consistent(Parse(r, data).value.req)
    decreases |data|
  {
    if r.state == Done || Parse(r, data).Failure? {
      return;
    }
    var step := ParseSingle(r, data).value;
    StepKeeps(r, data);
    if step.n > 0 {
      ParseKeeps(step.req, data[step.n..]);
    }
  }

  /** A step that consumes nothing either finishes the request or leaves it exactly as it was. */
  lemma IdleStep(r: Request, data: Bytes, q: Request)
    requires ParseSingle(r, data) == Success(Step(q, 0))
    ensures q.state == Done || q == r
  {
    assert data[..0] == [] && r.body + [] == r.body;
  }

  /**
   `parse` stops at a fixed point: once it returns, the request is done or
   one more step on the bytes it left consumes nothing and changes nothing.
   So parsing what is left over again, as the reader does at end of stream,
   finds nothing new.
   */
  lemma {:induction false} ParseSettles(r: Request, data: Bytes)
    ensures Parse(r, data).Success? ==>
              var s := Parse(r, data).value;
              s.req.state == Done || ParseSingle(s.req, data[s.n..]) == Success(Step(s.req, 0))
    ensures Parse(r, data).Success? ==>
              var s := Parse(r, data).value;
              Parse(s.req, data[s.n..]) == Success(Step(s.req, 0))
    decreases |data|
  {
    if Parse(r, data).Success? {
      var s := Parse(r, data).value;
      if r.state != Done {
        var step := ParseSingle(r, data).value;
        if step.n == 0 {
          IdleStep(r, data, step.req);
          assert data[0..] == data;
        } else {
          ParseContinues(r, data, step.req, step.n);
          ParseSettles(step.req, data[step.n..]);
          var inner := Parse(step.req, data[step.n..]).value;
          assert data[step.n..][inner.n..] == data[s.n..];
        }
      }
      if s.req.state != Done {
        ParseStops(s.req, data[s.n..], s.req);
      }
    }
  }

  /**
   The last parse at end of stream, of what an earlier `parse` left over,
   changes nothing: the outcome is as if nothing had been buffered.
   */
  lemma EndReparseIdle(r: Request, data: Bytes)
    ensures Parse(r, data).Success? ==>
              var s := Parse(r, data).value;
              AtEndOfStream(s.req, data[s.n..], Eof) == AtEndOfStream(s.req, [], Eof)
  {
    ParseSettles(r, data);
  }

  /**
   At end of stream a settled request fails exactly when it is inside its
   body: the completeness check can only find the body short there.
   */
  lemma EndOfStreamInBody(r: Request)
    requires Settled(r)
    ensures AtEndOfStream(r, [], Eof).Failure? <==> r.state == ParsingBody
  {
  }

  /** The end-of-stream branch keeps a settled request consistent. */
  lemma AtEndKeeps(r: Request, buffered: Bytes, end: StreamEnd)
    requires Settled(r) && Consistent(r)
    requires AtEndOfStream(r, buffered, end).Success?
    ensures Consistent(AtEndOfStream(r, buffered, end).value)
  {
    if |buffered| > 0 {
      ParseKeeps(r, buffered);
    }
  }

  /** The read loop keeps a settled, consistent request consistent to the end. */
  lemma {:induction false} ReadLoopKeeps(r: Request, size: nat, buffered: Bytes, chunks: seq<Bytes>, end: StreamEnd)
    requires IsBufferSize(size) && |buffered| <= size
    requires Settled(r) && Consistent(r)
    requires ReadLoop(r, size, buffered, chunks, end).Success?
    ensures Consistent(ReadLoop(r, size, buffered, chunks, end).value)
    decreases Undelivered(chunks), 1
  {
    if r.state == Done {
    } else if |chunks| == 0 {
      AtEndKeeps(r, buffered, end);
    } else {
      RoundKeeps(r, size, buffered, chunks, end);
    }
  }

  /** One read and one parse keep the request consistent, and so does the rest of the loop. */
  lemma {:induction false} RoundKeeps(r: Request, size: nat, buffered: Bytes, chunks: seq<Bytes>, end: StreamEnd)
    requires IsBufferSize(size) && |buffered| <= size
    requires r.state != Done && |chunks| > 0
    requires Consistent(r)
    requires ReadLoop(r, size, buffered, chunks, end).Success?
    ensures Consistent(ReadLoop(r, size, buffered, chunks, end).value)
    decreases Undelivered(chunks), 0
  {
    var size', data, rest, parsed := KeptRound(r, size, buffered, chunks, end);
    AfterReadKeeps(parsed, size', data, rest, end);
  }

  /** A round of the loop that still has chunks to read: one read, one parse, then `AfterRead`. */
  lemma ReadLoopReads(r: Request, size: nat, buffered: Bytes, chunks: seq<Bytes>, end: StreamEnd)
    requires IsBufferSize(size) && |buffered| <= size
    requires r.state != Done && |chunks| > 0
    ensures var size' := Grow(size, |buffered|);
            var (read, rest) := Take(chunks, size' - |buffered|);
            ReadLoop(r, size, buffered, chunks, end) == AfterRead(Parse(r, buffered + read), size', buffered + read, rest, end)
  {
  }

  /**
   The same round, named piece by piece: the grown buffer, the bytes parsed,
   the chunks still to come and the parse outcome, which is one the loop can
   carry on from when the request was consistent.
   */
  lemma KeptRound(r: Request, size: nat, buffered: Bytes, chunks: seq<Bytes>, end: StreamEnd)
    returns (size': nat, data: Bytes, rest: seq<Bytes>, parsed: Result<Step, RequestError>)
    requires IsBufferSize(size) && |buffered| <= size
    requires r.state != Done && |chunks| > 0
    requires Consistent(r)
    ensures IsBufferSize(size') && |data| <= size' && Kept(parsed, data)
    ensures Undelivered(rest) < Undelivered(chunks)
    ensures ReadLoop(r, size, buffered, chunks, end) == AfterRead(parsed, size', data, rest, end)
  {
    size', data, rest := RoundPieces(size, buffered, chunks);
    ReadLoopRound(r, size, buffered, chunks, end, size', data, rest);
    parsed := Parse(r, data);
    ParseKept(r, data);
  }

  /** The pieces of one round: the grown buffer, the bytes parsed and the chunks still to come. */
  lemma RoundPieces(size: nat, buffered: Bytes, chunks: seq<Bytes>) returns (size': nat, data: Bytes, rest: seq<Bytes>)
    requires IsBufferSize(size) && |buffered| <= size && |chunks| > 0
    ensures size' == Grow(size, |buffered|) && |buffered| < size'
    ensures data == buffered + Take(chunks, size' - |buffered|).0 && rest == Take(chunks, size' - |buffered|).1
    ensures IsBufferSize(size') && |data| <= size' && Undelivered(rest) < Undelivered(chunks)
  {
    size' := Grow(size, |buffered|);
    var taken := Take(chunks, size' - |buffered|);
    data, rest := buffered + taken.0, taken.1;
  }

  /** A round of the loop, in terms of its pieces. */
  lemma ReadLoopRound(r: Request, size: nat, buffered: Bytes, chunks: seq<Bytes>, end: StreamEnd, size': nat, data: Bytes, rest: seq<Bytes>)
    requires IsBufferSize(size) && |buffered| <= size
    requires r.state != Done && |chunks| > 0
    requires size' == Grow(size, |buffered|) && |buffered| < size'
    requires data == buffered + Take(chunks, size' - |buffered|).0 && rest == Take(chunks, size' - |buffered|).1
    requires IsBufferSize(size') && |data| <= size'
    ensures ReadLoop(r, size, buffered, chunks, end) == AfterRead(Parse(r, data), size', data, rest, end)
  {
  }

  /** A parse outcome the read loop can carry on from: on success, within the buffer, settled and consistent. */
  predicate Kept(parsed: Result<Step, RequestError>, data: Bytes) {
    parsed.Success? ==> parsed.value.n <= |data| && Settled(parsed.value.req) && Consistent(parsed.value.req)
  }

  /** `ParseKeeps`, packaged for the read loop. */
  lemma ParseKept(r: Request, data: Bytes)
    requires Consistent(r)
    ensures Kept(Parse(r, data), data)
  {
    ParseKeeps(r, data);
  }

  /** The same, from the outcome of the parse after a read. */
  lemma {:induction false} AfterReadKeeps(parsed: Result<Step, RequestError>, size: nat, data: Bytes, chunks: seq<Bytes>, end: StreamEnd)
    requires IsBufferSize(size) && |data| <= size
    requires Kept(parsed, data)
    requires AfterRead(parsed, size, data, chunks, end).Success?
    ensures Consistent(AfterRead(parsed, size, data, chunks, end).value)
    decreases Undelivered(chunks), 2
  {
    var step := parsed.value;
    ReadLoopKeeps(step.req, size, data[step.n..], chunks, end);
  }

  /**
   A request read from a stream is complete and consistent: lower-case
   header keys, and a body only under a valid `Content-Length` that it
   matches exactly.
   */
  lemma RequestFromReaderConsistent(s: Stream)
    requires RequestFromReader(s).Success?
    ensures RequestFromReader(s).value.state == Done
    ensures Consistent(RequestFromReader(s).value)
  {
    ReadLoopKeeps(NewRequest(), InitialBufferSize, [], s.chunks, s.end);
  }

  /**
   The read loop in the body state, with nothing buffered: when the stream
   ends before the declared length is reached the request fails (as too short
   at end of stream, or with the read error), and when the stream holds
   exactly the missing bytes the request completes with them, however the
   stream is cut into reads.
   */
  lemma {:induction false} BodyLoop(r: Request, size: nat, chunks: seq<Bytes>, end: StreamEnd)
    requires IsBufferSize(size)
    requires r.state == ParsingBody && Settled(r)
    ensures |r.body| + |Concat(chunks)| < DeclaredLength(r).value
            ==> ReadLoop(r, size, [], chunks, end) == Failure(if end == Eof then BodyShorterThanContentLength else ReadFailed)
    ensures |r.body| + |Concat(chunks)| == DeclaredLength(r).value
            ==> ReadLoop(r, size, [], chunks, end) == Success(r.(body := r.body + Concat(chunks), state := Done))
    decreases Undelivered(chunks)
  {
    var length := DeclaredLength(r).value;
    if |r.body| + |Concat(chunks)| > length {
    } else if |chunks| == 0 {
      BodyAtEnd(r, size, end);
    } else {
      var (read, rest) := Take(chunks, size);
      TakeConcat(chunks, size);
      var q := r.(body := r.body + read, state := if |r.body| + |read| == length then Done else ParsingBody);
      BodyRead(r, size, chunks, end, length);
      BodyLoopStep(r, q, read, rest, length);
      if q.state != Done {
        BodyLoop(q, size, rest, end);
      } else {
        assert Concat(rest) == [];
        assert read + Concat(rest) == read;
        assert ReadLoop(q, size, [], rest, end) == Success(q);
      }
    }
  }

  /** The stream ends in the body state before the declared length is reached. */
  lemma BodyAtEnd(r: Request, size: nat, end: StreamEnd)
    requires IsBufferSize(size)
    requires r.state == ParsingBody && Settled(r)
    ensures ReadLoop(r, size, [], [], end) == Failure(if end == Eof then BodyShorterThanContentLength else ReadFailed)
  {
    assert ReadLoop(r, size, [], [], end) == AtEndOfStream(r, [], end);
  }

  /** One read in the body state: the bytes read join the body, and the loop goes on with an empty buffer. */
  lemma BodyRead(r: Request, size: nat, chunks: seq<Bytes>, end: StreamEnd, length: int)
    requires IsBufferSize(size) && |chunks| > 0
    requires r.state == ParsingBody && DeclaredLength(r) == Some(length)
    requires |r.body| + |Take(chunks, size).0| <= length
    ensures var (read, rest) := Take(chunks, size);
            ReadLoop(r, size, [], chunks, end)
              == ReadLoop(r.(body := r.body + read, state := if |r.body| + |read| == length then Done else ParsingBody), size, [], rest, end)
  {
    var (read, rest) := Take(chunks, size);
    ReadLoopReads(r, size, [], chunks, end);
    assert [] + read == read;
    BodyParse(r, read);
    assert read[|read|..] == [];
  }

  /** What one read in the body state leaves for the rest of the loop. */
  lemma BodyLoopStep(r: Request, q: Request, read: Bytes, rest: seq<Bytes>, length: int)
    requires r.state == ParsingBody && DeclaredLength(r) == Some(length)
    requires q == r.(body := r.body + read, state := if |r.body| + |read| == length then Done else ParsingBody)
    ensures DeclaredLength(q) == Some(length)
    ensures |q.body| + |Concat(rest)| == |r.body| + |read + Concat(rest)|
    ensures q.body + Concat(rest) == r.body + (read + Concat(rest))
    ensures q.(body := q.body + Concat(rest), state := Done) == r.(body := r.body + (read + Concat(rest)), state := Done)
  {
  }

  /** A token that may stand as one part of a request line: no space, no carriage return. */
  predicate Word(s: Bytes) {
    Lacks(s, ' ') && Lacks(s, '\r')
  }

  /** The allowed methods are words. */
  lemma AllowedMethodIsWord(m: Bytes)
    requires m in AllowedMethods
    ensures Word(m)
  {
    assert m == "GET" || m == "POST" || m == "PUT" || m == "PATCH" || m == "DELETE";
  }

  /** A line without CR ends at the first CR LF after it, and is the first piece of a split on CR LF. */
  lemma LineEnd(line: Bytes, rest: Bytes)
    requires Lacks(line, '\r')
    ensures IndexOf(line + CRLF + rest, CRLF) == Some(|line|)
    ensures Split(line + CRLF + rest, CRLF)[0] == line
  {
    var data := line + CRLF + rest;
    NoCrIsCrlfFree(line);
    FirstCrlf(line, rest);
    assert data[..|line|] == line;
    SplitHead(data, CRLF, |line|);
  }

  /** Three words joined by single spaces split back into those words. */
  lemma ThreeWords(m: Bytes, t: Bytes, v: Bytes)
    requires Word(m) && Word(t) && Word(v)
    ensures Split(m + " " + t + " " + v, " ") == [m, t, v]
  {
    assert m + " " + t + " " + v == m + [' '] + (t + [' '] + v);
    SplitByteCons(m, ' ', t + [' '] + v);
    SplitByteCons(t, ' ', v);
    FreeOfByte(v, ' ');
    SplitFree(v, " ");
  }

  /** The request line `m SP t SP v` ends at the first CR LF, and splits back into its three words. */
  lemma LineParts(m: Bytes, t: Bytes, v: Bytes, rest: Bytes)
    requires Word(m) && Word(t) && Word(v)
    ensures IndexOf(m + " " + t + " " + v + CRLF + rest, CRLF) == Some(|m + " " + t + " " + v|)
    ensures Split(m + " " + t + " " + v + CRLF + rest, CRLF)[0] == m + " " + t + " " + v
    ensures Split(m + " " + t + " " + v, " ") == [m, t, v]
  {
    var line := m + " " + t + " " + v;
    assert Lacks(line, '\r');
    LineEnd(line, rest);
    ThreeWords(m, t, v);
  }

  /** On a line of three words, the parser goes straight to the checks on those words. */
  lemma ParseThreeWords(m: Bytes, t: Bytes, v: Bytes, rest: Bytes)
    requires Word(m) && Word(t) && Word(v)
    ensures ParseRequestLine(m + " " + t + " " + v + CRLF + rest) == CheckParts([m, t, v], |m| + |t| + |v| + 4)
  {
    LineParts(m, t, v, rest);
    var line := m + " " + t + " " + v;
    assert Split(line + CRLF + rest, CRLF)[0] == line;
  }

  /** The version is the piece after the first `/` of the third word, up to the next `/` if any. */
  lemma VersionPart(proto: Bytes, x: Bytes, tail: Bytes)
    requires Lacks(proto, '/') && Lacks(x, '/')
    requires tail == [] || tail[0] == '/'
    ensures |Split(proto + "/" + x + tail, "/")| >= 2
    ensures Split(proto + "/" + x + tail, "/")[1] == x
  {
    Regroup(proto + "/", x, tail);
    PieceBeforeSlash(x, tail);
    SecondPiece(proto, x + tail, x);
  }

  /** Concatenation regrouped to the right. */
  lemma Regroup(a: Bytes, b: Bytes, c: Bytes)
    ensures a + b + c == a + (b + c)
  {
  }

  /** The piece after the first `/` is the first piece of what follows that `/`. */
  lemma SecondPiece(proto: Bytes, after: Bytes, x: Bytes)
    requires Lacks(proto, '/')
    requires |Split(after, "/")| >= 1 && Split(after, "/")[0] == x
    ensures |Split(proto + "/" + after, "/")| >= 2 && Split(proto + "/" + after, "/")[1] == x
  {
    SlashSplits(proto, after);
  }

  /** Splitting on `/` peels off a first piece without `/`. */
  lemma SlashSplits(proto: Bytes, after: Bytes)
    requires Lacks(proto, '/')
    ensures Split(proto + "/" + after, "/") == [proto] + Split(after, "/")
  {
    assert proto + "/" + after == proto + ['/'] + after;
    SplitByteCons(proto, '/', after);
  }

  /** The first piece of `x` followed by nothing or by a `/` is `x`. */
  lemma PieceBeforeSlash(x: Bytes, tail: Bytes)
    requires Lacks(x, '/')
    requires tail == [] || tail[0] == '/'
    ensures |Split(x + tail, "/")| >= 1 && Split(x + tail, "/")[0] == x
  {
    if tail == [] {
      assert x + tail == x;
      FreeOfByte(x, '/');
      SplitFree(x, "/");
    } else {
      assert x + tail == x + ['/'] + tail[1..];
      SplitByteCons(x, '/', tail[1..]);
    }
  }

  /**
   A third word without any `/` makes `parseRequestLine` as written index
   past the end of its split: the panic comes before the method is looked
   at, whatever the method and target are.
   */
  lemma RequestLinePanics(m: Bytes, t: Bytes, v: Bytes, rest: Bytes)
    requires Word(m) && Word(t) && Word(v) && Lacks(v, '/')
    ensures ParseRequestLineAsWritten(m + " " + t + " " + v + CRLF + rest) == Rejected(VersionIndexPanic)
  {
    LineParts(m, t, v, rest);
    FreeOfByte(v, '/');
    SplitFree(v, "/");
  }

  /** `GET / HTTP` is such a line: the version word has no `/`. */
  lemma PanicExample()
    ensures ParseRequestLineAsWritten(PanicLine + CRLF) == Rejected(VersionIndexPanic)
    ensures ParseRequestLine(PanicLine + CRLF) == Rejected(UnsupportedVersion)
  {
    var m, t, v: Bytes := "GET", "/", "HTTP";
    assert PanicLine == m + " " + t + " " + v;
    assert Word(m) && Word(t) && Word(v) && Lacks(v, '/');
    assert PanicLine + CRLF == m + " " + t + " " + v + CRLF + [];
    RequestLinePanics(m, t, v, []);
    RequestLineNoSlash(m, t, v, []);
  }

  const PanicLine: Bytes := "GET / HTTP"

  /**
   With the guard the request line needs, the same line is rejected as an
   unsupported version, the error a version other than `1.1` gets, and the
   two parsers agree on every line that does not reach the panic.
   */
  lemma RequestLineNoSlash(m: Bytes, t: Bytes, v: Bytes, rest: Bytes)
    requires Word(m) && Word(t) && Word(v) && Lacks(v, '/')
    ensures ParseRequestLine(m + " " + t + " " + v + CRLF + rest) == Rejected(UnsupportedVersion)
  {
    LineParts(m, t, v, rest);
    FreeOfByte(v, '/');
    SplitFree(v, "/");
  }

  /** A method outside the five allowed ones is reported, once the third word has a `/`. */
  lemma RequestLineBadMethod(m: Bytes, t: Bytes, proto: Bytes, x: Bytes, tail: Bytes, rest: Bytes)
    requires m !in AllowedMethods
    requires Word(m) && Word(t) && Word(proto + "/" + x + tail)
    requires Lacks(proto, '/') && Lacks(x, '/') && (tail == [] || tail[0] == '/')
    ensures ParseRequestLine(m + " " + t + " " + (proto + "/" + x + tail) + CRLF + rest) == Rejected(InvalidMethod(m))
  {
    LineParts(m, t, proto + "/" + x + tail, rest);
    VersionPart(proto, x, tail);
  }

  /**
   With an allowed method and a target free of spaces, a third word
   `proto/x` (optionally followed by more `/`-pieces) is accepted exactly when
   `x` is `1.1`, whatever the protocol name; the line and its CR LF are
   consumed.
   */
  lemma RequestLineVersion(m: Bytes, t: Bytes, proto: Bytes, x: Bytes, tail: Bytes, rest: Bytes)
    requires m in AllowedMethods
    requires Word(t) && Word(proto + "/" + x + tail)
    requires Lacks(proto, '/') && Lacks(x, '/') && (tail == [] || tail[0] == '/')
    ensures ParseRequestLine(m + " " + t + " " + (proto + "/" + x + tail) + CRLF + rest)
         == if x == "1.1" then Parsed(RequestLine(x, t, m), |m + " " + t + " " + (proto + "/" + x + tail) + CRLF|)
            else Rejected(UnsupportedVersion)
  {
    VersionPart(proto, x, tail);
    VersionWordDecides(m, t, proto + "/" + x + tail, x, rest);
  }

  /** The same, for any third word whose second `/`-piece is `x`. */
  lemma VersionWordDecides(m: Bytes, t: Bytes, v: Bytes, x: Bytes, rest: Bytes)
    requires m in AllowedMethods && Word(t) && Word(v)
    requires |Split(v, "/")| >= 2 && Split(v, "/")[1] == x
    ensures ParseRequestLine(m + " " + t + " " + v + CRLF + rest)
         == if x == "1.1" then Parsed(RequestLine(x, t, m), |m + " " + t + " " + v + CRLF|)
            else Rejected(UnsupportedVersion)
  {
    AllowedMethodIsWord(m);
    ParseThreeWords(m, t, v, rest);
    var n := |m| + |t| + |v| + 4;
    CheckVersion(m, t, v, x, n);
    assert |m + " " + t + " " + v + CRLF| == n;
  }

  /** Once the method is allowed, the version piece alone decides. */
  lemma CheckVersion(m: Bytes, t: Bytes, v: Bytes, x: Bytes, n: nat)
    requires m in AllowedMethods
    requires |Split(v, "/")| >= 2 && Split(v, "/")[1] == x
    ensures CheckParts([m, t, v], n) == if x == "1.1" then Parsed(RequestLine(x, t, m), n) else Rejected(UnsupportedVersion)
  {
  }

  /** A request line as a client sends it: `METHOD SP TARGET SP HTTP/1.1 CRLF`. */
  function RequestHead(m: Bytes, t: Bytes): (head: Bytes) {
    m + " " + t + " " + "HTTP/1.1" + CRLF
  }

  /** The usual request line is accepted and consumed exactly. */
  lemma RequestLineAccepted(m: Bytes, t: Bytes, rest: Bytes)
    requires m in AllowedMethods && Word(t)
    ensures ParseRequestLine(RequestHead(m, t) + rest) == Parsed(RequestLine("1.1", t, m), |RequestHead(m, t)|)
  {
    var v: Bytes := "HTTP/1.1";
    assert v == "HTTP" + "/" + "1.1" + [];
    assert Word(v);
    RequestLineVersion(m, t, "HTTP", "1.1", [], rest);
    assert RequestHead(m, t) + rest == m + " " + t + " " + v + CRLF + rest;
  }

  /**
   `parse` is a sequence of steps: after a step that consumed `n > 0` bytes it
   carries on with the rest of the input, and its count is `n` plus the count
   of the rest.
   */
  lemma ParseContinues(r: Request, data: Bytes, q: Request, n: nat)
    requires r.state != Done
    requires ParseSingle(r, data) == Success(Step(q, n)) && n > 0
    ensures Parse(r, data) == Shift(Parse(q, data[n..]), n)
  {
  }

  /** After a step that consumed nothing, `parse` stops and reports zero bytes. */
  lemma ParseStops(r: Request, data: Bytes, q: Request)
    requires r.state != Done
    requires ParseSingle(r, data) == Success(Step(q, 0))
    ensures Parse(r, data) == Success(Step(q, 0))
  {
  }

  /** Moving a result by `a` and then by `b` moves it by `a + b`. */
  lemma ShiftTwice(res: Result<Step, RequestError>, a: nat, b: nat)
    ensures Shift(Shift(res, a), b) == Shift(res, a + b)
  {
  }

  /** Moving a result by nothing leaves it as it is. */
  lemma ShiftZero(res: Result<Step, RequestError>)
    ensures Shift(res, 0) == res
  {
  }

  /** Before the first CR LF has arrived, a step in the request line or the headers consumes nothing and changes nothing. */
  lemma NoLineIdle(r: Request, data: Bytes)
    requires r.state == Initialized || r.state == ParsingHeaders
    requires IndexOf(data, CRLF).None?
    ensures ParseSingle(r, data) == Success(Step(r, 0))
  {
  }

  /**
   Once a CR LF has arrived, a step in the request line or the headers reads
   only the line before it, so bytes arriving later do not change the step.
   */
  lemma LineStepStable(r: Request, data: Bytes, more: Bytes)
    requires r.state == Initialized || r.state == ParsingHeaders
    requires IndexOf(data, CRLF).Some?
    ensures ParseSingle(r, data + more) == ParseSingle(r, data)
  {
    if r.state == Initialized {
      RequestLineStable(data, more);
    } else {
      FieldLineStable(r.headers, data, more);
    }
  }

  /** The request line is read from the bytes before the first CR LF alone. */
  lemma RequestLineStable(data: Bytes, more: Bytes)
    requires IndexOf(data, CRLF).Some?
    ensures ParseRequestLine(data + more) == ParseRequestLine(data)
  {
    var i := IndexOf(data, CRLF).value;
    IndexOfExtends(data, more, CRLF);
    assert (data + more)[..i] == data[..i];
    SplitHead(data, CRLF, i);
    SplitHead(data + more, CRLF, i);
  }

  /** A field line is read from the bytes before the first CR LF alone. */
  lemma FieldLineStable(h: Headers.Headers, data: Bytes, more: Bytes)
    requires IndexOf(data, CRLF).Some?
    ensures Headers.Parse(h, data + more) == Headers.Parse(h, data)
  {
    var i := IndexOf(data, CRLF).value;
    IndexOfExtends(data, more, CRLF);
    assert (data + more)[..i] == data[..i];
  }

  /**
   `parse` picks up where it stopped. Bytes that arrive after the buffer do
   not undo an error; they turn a finished request into an error or leave it
   as it was; and otherwise parsing the longer buffer is parsing, after what
   was consumed, the bytes left over followed by the new ones.
   */
  lemma {:induction false} ParseResumes(r: Request, data: Bytes, more: Bytes)
    ensures Parse(r, data).Failure? ==> Parse(r, data + more).Failure?
    ensures Parse(r, data).Success? && Parse(r, data).value.req.state == Done
            ==> Parse(r, data + more) == Parse(r, data) || Parse(r, data + more).Failure?
    ensures Parse(r, data).Success? && Parse(r, data).value.req.state != Done
            ==> var s := Parse(r, data).value;
                Parse(r, data + more) == Shift(Parse(s.req, data[s.n..] + more), s.n)
    decreases |data|, 1
  {
    if r.state == Done {
    } else if r.state == ParsingBody {
      BodyResumes(r, data, more);
    } else if IndexOf(data, CRLF).None? {
      IdleResumes(r, data, more);
    } else {
      LineResumes(r, data, more);
    }
  }

  /** `ParseResumes` before the first CR LF has arrived: nothing was consumed, so the longer buffer is parsed from the same request. */
  lemma IdleResumes(r: Request, data: Bytes, more: Bytes)
    requires r.state == Initialized || r.state == ParsingHeaders
    requires IndexOf(data, CRLF).None?
    ensures Parse(r, data) == Success(Step(r, 0))
    ensures Parse(r, data + more) == Shift(Parse(r, data[0..] + more), 0)
  {
    NoLineIdle(r, data);
    ParseStops(r, data, r);
    assert data[0..] == data;
    ShiftZero(Parse(r, data + more));
  }

  /** `ParseResumes` after a CR LF has arrived: the first step is the same on both buffers, and the rest follows by induction. */
  lemma {:induction false} LineResumes(r: Request, data: Bytes, more: Bytes)
    requires r.state == Initialized || r.state == ParsingHeaders
    requires IndexOf(data, CRLF).Some?
    ensures Parse(r, data).Failure? ==> Parse(r, data + more).Failure?
    ensures Parse(r, data).Success? && Parse(r, data).value.req.state == Done
            ==> Parse(r, data + more) == Parse(r, data) || Parse(r, data + more).Failure?
    ensures Parse(r, data).Success? && Parse(r, data).value.req.state != Done
            ==> var s := Parse(r, data).value;
                Parse(r, data + more) == Shift(Parse(s.req, data[s.n..] + more), s.n)
    decreases |data|, 0
  {
    LineStepStable(r, data, more);
    if ParseSingle(r, data).Success? {
      var step := ParseSingle(r, data).value;
      var n := step.n;
      LineStepConsumes(r, data);
      var rest := data[n..];
      ParseContinues(r, data, step.req, n);
      ContinuesAppended(r, data, more, step.req, n);
      ParseResumes(step.req, rest, more);
      var a := Parse(step.req, rest);
      var c := if a.Success? then Parse(a.value.req, rest[a.value.n..] + more) else a;
      ResumeShifted(a, Parse(step.req, rest + more), c, n);
      if a.Success? {
        SliceTwice(data, n, a.value.n);
        var s := Parse(r, data).value;
        assert s == Step(a.value.req, a.value.n + n);
        assert data[s.n..] + more == rest[a.value.n..] + more;
        if s.req.state != Done {
          assert Parse(r, data + more) == Shift(c, s.n);
        }
      }
    }
  }

  /** A step that consumed `n` bytes of `data` also consumed them of `data + more`, and `parse` carries on with the rest of both. */
  lemma ContinuesAppended(r: Request, data: Bytes, more: Bytes, q: Request, n: nat)
    requires r.state != Done && 0 < n <= |data|
    requires ParseSingle(r, data + more) == Success(Step(q, n))
    ensures Parse(r, data + more) == Shift(Parse(q, data[n..] + more), n)
  {
    DropAppended(data, more, n);
    ContinuesWith(r, data + more, data[n..] + more, q, n);
  }

  /** `ParseContinues`, with the rest of the input named. */
  lemma ContinuesWith(r: Request, whole: Bytes, rest: Bytes, q: Request, n: nat)
    requires r.state != Done && 0 < n <= |whole| && whole[n..] == rest
    requires ParseSingle(r, whole) == Success(Step(q, n))
    ensures Parse(r, whole) == Shift(Parse(q, rest), n)
  {
    ParseContinues(r, whole, q, n);
  }

  /** Dropping `n` bytes from the front of `data + more`, with `n` within `data`. */
  lemma DropAppended(data: Bytes, more: Bytes, n: nat)
    requires n <= |data|
    ensures (data + more)[n..] == data[n..] + more
  {
  }

  /** Dropping `a` bytes and then `b` more is dropping `a + b`. */
  lemma SliceTwice(s: Bytes, a: nat, b: nat)
    requires a + b <= |s|
    ensures s[a..][b..] == s[a + b..]
  {
  }

  /** The three cases of `ParseResumes` survive moving all the results `n` bytes further. */
  lemma ResumeShifted(a: Result<Step, RequestError>, b: Result<Step, RequestError>, c: Result<Step, RequestError>, n: nat)
    requires a.Failure? ==> b.Failure?
    requires a.Success? && a.value.req.state == Done ==> b == a || b.Failure?
    requires a.Success? && a.value.req.state != Done ==> b == Shift(c, a.value.n)
    ensures Shift(a, n).Failure? ==> Shift(b, n).Failure?
    ensures Shift(a, n).Success? && Shift(a, n).value.req.state == Done ==> Shift(b, n) == Shift(a, n) || Shift(b, n).Failure?
    ensures Shift(a, n).Success? && Shift(a, n).value.req.state != Done ==> Shift(b, n) == Shift(c, Shift(a, n).value.n)
  {
    if a.Success? && a.value.req.state != Done {
      ShiftTwice(c, a.value.n, n);
    }
  }

  /** Once a CR LF has arrived, a successful step in the request line or the headers consumes the line. */
  lemma LineStepConsumes(r: Request, data: Bytes)
    requires r.state == Initialized || r.state == ParsingHeaders
    requires IndexOf(data, CRLF).Some?
    requires ParseSingle(r, data).Success?
    ensures ParseSingle(r, data).value.n > 0
  {
  }

  /** `ParseResumes` in the body state, where a step takes the whole buffer. */
  lemma BodyResumes(r: Request, data: Bytes, more: Bytes)
    requires r.state == ParsingBody
    ensures Parse(r, data).Failure? ==> Parse(r, data + more).Failure?
    ensures Parse(r, data).Success? && Parse(r, data).value.req.state == Done
            ==> Parse(r, data + more) == Parse(r, data) || Parse(r, data + more).Failure?
    ensures Parse(r, data).Success? && Parse(r, data).value.req.state != Done
            ==> var s := Parse(r, data).value;
                Parse(r, data + more) == Shift(Parse(s.req, data[s.n..] + more), s.n)
  {
    if Headers.Get(r.headers, Headers.ContentLength) == [] {
      BodyResumesUnsized(r, data, more);
    } else if DeclaredLength(r).Some? && |r.body| + |data| <= DeclaredLength(r).value {
      BodyResumesWithin(r, data, more);
      assert data[|data|..] + more == more;
    } else {
      BodyResumesRejected(r, data, more);
    }
  }

  /** Without a Content-Length the body state finishes at once, whatever follows. */
  lemma BodyResumesUnsized(r: Request, data: Bytes, more: Bytes)
    requires r.state == ParsingBody && Headers.Get(r.headers, Headers.ContentLength) == []
    ensures Parse(r, data) == Parse(r, data + more) == Success(Step(r.(state := Done), 0))
  {
    BodyStep(r, data);
    BodyStep(r, data + more);
    ParseStops(r, data, r.(state := Done));
    ParseStops(r, data + more, r.(state := Done));
  }

  /** A Content-Length that is not a number, or a body already past it, fails however many bytes follow. */
  lemma BodyResumesRejected(r: Request, data: Bytes, more: Bytes)
    requires r.state == ParsingBody && Headers.Get(r.headers, Headers.ContentLength) != []
    requires DeclaredLength(r).Some? ==> |r.body| + |data| > DeclaredLength(r).value
    ensures Parse(r, data).Failure? && Parse(r, data + more).Failure?
  {
    BodyStep(r, data);
    BodyStep(r, data + more);
  }

  /** A body that still fits its Content-Length takes all of the data; more bytes either continue it or overflow it. */
  lemma BodyResumesWithin(r: Request, data: Bytes, more: Bytes)
    requires r.state == ParsingBody && DeclaredLength(r).Some?
    requires |r.body| + |data| <= DeclaredLength(r).value
    ensures var q := r.(body := r.body + data, state := if |r.body| + |data| == DeclaredLength(r).value then Done else ParsingBody);
            && Parse(r, data) == Success(Step(q, |data|))
            && (q.state == Done ==> Parse(r, data + more) == Parse(r, data) || Parse(r, data + more).Failure?)
            && (q.state != Done ==> Parse(r, data + more) == Shift(Parse(q, more), |data|))
  {
    var length := DeclaredLength(r).value;
    var q := r.(body := r.body + data, state := if |r.body| + |data| == length then Done else ParsingBody);
    BodyParse(r, data);
    if |r.body| + |data + more| > length {
      BodyStep(r, data + more);
      if q.state != Done {
        BodyStep(q, more);
      }
    } else {
      BodyParse(r, data + more);
      if q.state != Done {
        BodyParse(q, more);
        assert q.body + more == r.body + (data + more);
      } else {
        assert data + more == data;
      }
    }
  }

  /** At end of stream, a buffer that parses in one go into a finished request, consuming it all, gives that request. */
  lemma EndParsesWhole(r: Request, buffered: Bytes, done: Request)
    requires r.state != Done && done.state == Done
    requires Parse(r, buffered) == Success(Step(done, |buffered|))
    ensures AtEndOfStream(r, buffered, Eof) == Success(done)
  {
    if |buffered| == 0 {
      assert ParseSingle(r, buffered) == Success(Step(done, 0));
      BodyStep(r, buffered);
      assert r.body + [] == r.body;
    }
  }

  /**
   The read loop from where an earlier round left it: when the buffered bytes
   and all the chunks still to come parse in one go into a finished request,
   consuming every byte, the loop returns that request, however the chunks
   are cut and however the buffer grows. Each round moves the bytes the
   parse left unconsumed to the front and parses them again with the next read.
   */
  lemma {:induction false} LoopParsesWhole(r: Request, size: nat, buffered: Bytes, chunks: seq<Bytes>, done: Request)
    requires IsBufferSize(size) && |buffered| <= size
    requires done.state == Done
    requires Parse(r, buffered + Concat(chunks)) == Success(Step(done, |buffered + Concat(chunks)|))
    ensures ReadLoop(r, size, buffered, chunks, Eof) == Success(done)
    decreases Undelivered(chunks)
  {
    if r.state == Done {
    } else if |chunks| == 0 {
      assert buffered + Concat(chunks) == buffered;
      EndParsesWhole(r, buffered, done);
    } else {
      var size', data, rest := RoundPieces(size, buffered, chunks);
      ReadLoopRound(r, size, buffered, chunks, Eof, size', data, rest);
      TakeConcat(chunks, size' - |buffered|);
      ReadJoins(buffered, Take(chunks, size' - |buffered|).0, Concat(rest), Concat(chunks));
      ResumeWhole(r, data, Concat(rest), done);
      var s := Parse(r, data).value;
      if s.req.state != Done {
        LoopParsesWhole(s.req, size', data[s.n..], rest, done);
      }
    }
  }

  /**
   When `data` followed by `more` parses in one go into a finished request,
   consuming it all, `parse` of `data` alone succeeds: it either finishes the
   same request with nothing left over and nothing more to come, or leaves a
   request from which its leftover followed by `more` parses to the same end.
   */
  lemma ResumeWhole(r: Request, data: Bytes, more: Bytes, done: Request)
    requires done.state == Done
    requires Parse(r, data + more) == Success(Step(done, |data + more|))
    ensures Parse(r, data).Success? && Parse(r, data).value.n <= |data|
    ensures Parse(r, data).value.req.state == Done ==> Parse(r, data).value.req == done
    ensures Parse(r, data).value.req.state != Done ==>
              var s := Parse(r, data).value;
              Parse(s.req, data[s.n..] + more) == Success(Step(done, |data[s.n..] + more|))
  {
    ResumeSucceeds(r, data, more, done);
    if Parse(r, data).value.req.state != Done {
      ResumeLeftover(r, data, more, done, Parse(r, data).value);
    } else {
      ResumeFinished(r, data, more, done);
    }
  }

  /** A prefix of a request that parses whole parses without error. */
  lemma ResumeSucceeds(r: Request, data: Bytes, more: Bytes, done: Request)
    requires Parse(r, data + more) == Success(Step(done, |data + more|))
    ensures Parse(r, data).Success?
  {
    ParseResumes(r, data, more);
  }

  /** A prefix that already finishes a request that parses whole finishes the same request. */
  lemma ResumeFinished(r: Request, data: Bytes, more: Bytes, done: Request)
    requires Parse(r, data + more) == Success(Step(done, |data + more|))
    requires Parse(r, data).Success? && Parse(r, data).value.req.state == Done
    ensures Parse(r, data).value.req == done
  {
    ParseResumes(r, data, more);
  }

  /** What a prefix leaves unconsumed, followed by the rest, parses whole into the same finished request. */
  lemma ResumeLeftover(r: Request, data: Bytes, more: Bytes, done: Request, s: Step)
    requires Parse(r, data + more) == Success(Step(done, |data + more|))
    requires Parse(r, data) == Success(s) && s.req.state != Done
    ensures Parse(s.req, data[s.n..] + more) == Success(Step(done, |data[s.n..] + more|))
  {
    ResumeMoved(r, data, more, s);
    LeftoverFinishes(Parse(r, data + more), Parse(s.req, data[s.n..] + more), s.n, done, |data + more|, |data[s.n..] + more|);
  }

  /** A parse that, moved by `k`, finishes `done` at `m` finishes it at `m - k` unmoved. */
  lemma LeftoverFinishes(whole: Result<Step, RequestError>, next: Result<Step, RequestError>, k: nat, done: Request, m: nat, len: nat)
    requires whole == Shift(next, k) && whole == Success(Step(done, m)) && k + len == m
    ensures next == Success(Step(done, len))
  {
  }

  /** Parsing more bytes after an unfinished step is that step followed by parsing its leftover with the new bytes. */
  lemma ResumeMoved(r: Request, data: Bytes, more: Bytes, s: Step)
    requires Parse(r, data) == Success(s) && s.req.state != Done
    ensures s.n <= |data| && Parse(r, data + more) == Shift(Parse(s.req, data[s.n..] + more), s.n)
  {
    ParseResumes(r, data, more);
  }

  /** The buffered bytes, then a read, then the rest of the stream, are the buffered bytes and the whole stream. */
  lemma ReadJoins(buffered: Bytes, read: Bytes, rest: Bytes, all: Bytes)
    requires read + rest == all
    ensures buffered + read + rest == buffered + all
  {
  }

  /**
   How the stream is cut into reads does not matter for a request that ends
   where the stream ends: when all of its bytes parse in one buffer into a
   finished request, consuming every byte, `RequestFromReader` returns that
   request for every way of cutting them into reads.
   */
  lemma ReaderParsesWhole(chunks: seq<Bytes>)
    ensures var whole := Parse(NewRequest(), Concat(chunks));
            whole.Success? && whole.value.n == |Concat(chunks)| && whole.value.req.state == Done
            ==> RequestFromReader(Stream(chunks, Eof)) == Success(whole.value.req)
  {
    var whole := Parse(NewRequest(), Concat(chunks));
    if whole.Success? && whole.value.n == |Concat(chunks)| && whole.value.req.state == Done {
      assert [] + Concat(chunks) == Concat(chunks);
      LoopParsesWhole(NewRequest(), InitialBufferSize, [], chunks, whole.value.req);
    }
  }
}
