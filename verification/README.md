# http-from-tcp: the HTTP/1.1 message layer in Dafny

This project models the message layer of a small HTTP/1.1 server written in
Go. The model covers three parts:

- **Headers** (`headers.dfy`) models `internal/headers/headers.go`. It is a
  map from lower-cased field name to value, with case-insensitive `Get`,
  comma-joining `Set`, `Override` and `Delete`. It also has the incremental
  field-line parser `Parse`, which consumes one `name: value` CR LF line, or
  the empty line, from the front of a buffer. Field names are restricted to
  the `tchar` set of section 5.6.2 of RFC 9110.
- **Request** (`request.dfy`) models `internal/request/request.go`. The
  request parser is a four-state machine:
  `Initialized -> ParsingHeaders -> ParsingBody -> Done`.
  - `ParseRequestLine` reads the request line (section 3 of RFC 9112).
  - `ParseSingle` takes one step in the current state.
  - `Parse` steps until nothing more is consumed.
  - `RequestFromReader` is the driver loop. It reads a stream into a buffer
    of 8 bytes that doubles whenever it is full.

  The stream is a finite sequence of read chunks followed by end of stream
  or a read error. `request_examples.dfy` chains the step lemmas into whole
  requests.
- **Response** (`response.dfy`) models `internal/response/response.go`. It
  writes the status line, header and trailer sections, a raw body, and
  chunked framing with lower-case hexadecimal sizes (section 7.1 of
  RFC 9112). An `io.Writer` is a `Conn`: the output so far, plus how many
  more bytes it accepts before it fails.

Support modules:

- `bytes.dfy` models Go's `strings`/`bytes` helpers on octet strings:
  `Index`, `Split`, `TrimLeft`/`TrimRight`/`TrimSpace` and `ToLower`.
- `numerals.dfy` models `%d`, `%x` and `strconv.Atoi`.
- `wrappers.dfy` holds `Option` and `Result`.
- `read_back.dfy` holds the partner readers for the response writer: a
  status-code reader, a field-section reader built on `Headers.Parse`, and
  a chunked-body decoder. Their lemmas prove that what the writer emits
  reads back as what went in.

Two behaviours of the code are worth knowing:

- A body that overruns `Content-Length` is an error only when the extra
  bytes arrive in the same read as the last expected byte. After that read
  the request is `Done`, and later bytes are never looked at
  (`RequestExamples.OverrunDependsOnReads`). So when bytes follow the
  declared body, the outcome depends on how the stream is cut into reads.
  When the stream ends where the request ends, it does not
  (`Request.ReaderParsesWhole`).
- At end of stream, a request cut off in its request line or its headers
  is accepted and forced to `Done`.

## Model

| member | source | states |
|---|---|---|
| Headers.NewHeaders | internal/headers/headers.go:11-13 | a new collection is empty, so every stored key is (vacuously) lower-case |
| Headers.Get | internal/headers/headers.go:15-17 | lookup is by the lower-cased key; an absent key reads as the empty value |
| Headers.Set | internal/headers/headers.go:19-27 | the key set gains exactly the lower-cased key; an absent key gets the value, a present one gets `old + "," + value`; every other key keeps its value; lower-case keys stay lower-case |
| Headers.Override | internal/headers/headers.go:29-31 | the lower-cased key maps to the new value whether or not it was present; every other key keeps its value |
| Headers.Delete | internal/headers/headers.go:33-36 | exactly the lower-cased key is removed; every remaining key keeps its value |
| Headers.SetAbsent | internal/headers/headers.go:19-27 | `Set` on an absent key is a plain map insertion under the lower-cased key |
| Headers.GetIgnoresCase | internal/headers/headers.go:15-17 | two keys that lower-case alike read the same value |
| Headers.GetAfterSet | internal/headers/headers.go:15-27 | after `Set`, a lookup by any spelling of the key sees the joined or inserted value, and a lookup of any other key sees what it saw before |
| Headers.SetTwiceJoins | internal/headers/headers.go:19-27 | setting the same name twice, in any letter case, reads back as `a,b` |
| Headers.GetAfterOverrideDelete | internal/headers/headers.go:15-36 | after `Override` a lookup by any spelling sees the new value; after `Delete` it sees the empty value; other keys are unaffected |
| Headers.TokenCharIsTchar | internal/headers/headers.go:38-57 | the byte test accepts exactly the `tchar` set of section 5.6.2 of RFC 9110: ASCII letters, digits and the fifteen symbols Go lists |
| Headers.ValidateFieldName | internal/headers/headers.go:59-69 | a name is accepted exactly when it is non-empty and every byte is a token byte; the empty name gives the empty-name error |
| Headers.FirstInvalidChar | internal/headers/headers.go:63-67 | the scan from `i` finds no error exactly when every byte from `i` on is a token byte |
| Headers.Parse | internal/headers/headers.go:71-118 | no CR LF: nothing consumed, map unchanged; CR LF first: 2 bytes consumed and `done`; an error leaves `n = 0`, not done, map unchanged; otherwise exactly the line and its CR LF are consumed; a line before the CR LF fails exactly when `ParseLine` refuses it, with `ParseLine`'s error, and on success the map is what `ParseLine` stored; lower-case keys stay lower-case |
| Headers.ParseRejectsLine | internal/headers/headers.go:71-118 | a line with no colon (`NoColon`), an empty name (`EmptyFieldName`), a blank before the colon (`SpaceBeforeColon`) or a name that is not a token makes `Parse` fail, consuming nothing and leaving the map alone, and these are the only line failures |
| Headers.ParseLine | internal/headers/headers.go:82-115 | no colon is an error; otherwise the split is at the first colon; the line is accepted exactly when the name is acceptable, and then the left-trimmed name and the trimmed value are stored through `Set`; a blank before the colon and an empty name are each reported exactly when they occur |
| Headers.NameChecks | internal/headers/headers.go:89-107 | a name ending in a blank is rejected; otherwise trimming on the right changes nothing, and the trimmed name is empty exactly when the raw name is |
| Headers.ParseWellFormedLine | internal/headers/headers.go:71-118 | leading blanks, a token name, a colon and a CR-LF-free value followed by CR LF consume exactly that line, are not `done`, and store the trimmed value under the name |
| Headers.ParseFieldLine | internal/headers/headers.go:71-118 | a `name:value` CR LF line in front of any rest consumes exactly its own length and stores the trimmed value |
| Headers.ParseLineWellFormed | internal/headers/headers.go:82-115 | a line with leading blanks and a token name before the first colon is accepted and stored as the name with the trimmed value |
| Headers.ParseLineAt | internal/headers/headers.go:84-115 | a line whose first colon is at a known index and whose name is acceptable stores the left-trimmed name with the trimmed value |
| Headers.LineColon | internal/headers/headers.go:84 | in a well-formed field line the first colon is the one after the name |
| Headers.LineName | internal/headers/headers.go:103-111 | stripping the leading blanks of a well-formed line leaves exactly the name, and the name passes every check |
| Bytes.IndexOf | internal/request/request.go:101 | the result is the first position where the pattern occurs, and `None` exactly when it occurs nowhere, as `strings.Index` gives `-1` |
| Bytes.FirstCrlf | internal/headers/headers.go:73 | a CR-LF-free prefix followed by CR LF puts the first CR LF right after that prefix |
| Bytes.Split | internal/request/request.go:107-109 | the parts rejoin with the separator into the input, none of them contains the separator, and there is at least one part |
| Bytes.SplitByteCount | internal/request/request.go:109-111 | splitting on one byte gives one more part than the byte's occurrences, so a line has three parts exactly when it has two spaces |
| Bytes.SplitFree | internal/request/request.go:117 | a string without the separator splits into itself alone |
| Bytes.TrimLeft | internal/headers/headers.go:103 | the result is a suffix of the input; every removed byte is in the cut set and the first kept byte is not |
| Bytes.TrimRight | internal/headers/headers.go:105 | the result is a prefix of the input; every removed byte is in the cut set and the last kept byte is not |
| Bytes.TrimSpace | internal/headers/headers.go:113 | the result is no longer than the input, and it starts and ends with a byte that is not ASCII white space |
| Bytes.TrimSpaceWindow | internal/headers/headers.go:113 | the result is a window `s[i..j]` of the input with only ASCII white space before `i` and after `j`; with `TrimSpace`'s ends this fixes the result for every input |
| Bytes.TrimSpaceTrimmed | internal/headers/headers.go:113 | a value that neither starts nor ends with white space is left unchanged |
| Bytes.TrimSpaceLeading | internal/headers/headers.go:113 | leading white space does not change what `TrimSpace` gives |
| Bytes.ToLower | internal/headers/headers.go:16-20 | same length, every result byte is lower-case, `A`-`Z` move up by 32 and every other byte is kept |
| Bytes.ToLowerFixes | internal/headers/headers.go:20 | lower-casing a lower-case key changes nothing |
| Bytes.ToLowerIgnoresCase | internal/headers/headers.go:16 | strings that agree byte by byte up to letter case lower-case to the same key |
| Numerals.DigitValue | internal/request/request.go:182 | a byte is a digit of the base exactly when some digit value below the base is written as that byte |
| Numerals.Numeral | internal/response/response.go:38 | the numeral is non-empty, all digits, and starts with `0` only for zero, which is written `0` |
| Numerals.NumeralValue | internal/response/response.go:38 | reading a numeral back gives the number it was written from |
| Numerals.Hex | internal/response/response.go:101 | `%x` of a length is lower-case hexadecimal without leading zeros that reads back as that length |
| Numerals.Decimal | internal/response/response.go:47 | `%d` is the digits of the value, with a leading `-` for a negative one |
| Numerals.Atoi | internal/request/request.go:182 | `strconv.Atoi` succeeds exactly on an optional sign followed by one or more decimal digits, and the value is the digits' value with that sign |
| Numerals.Unsigned | internal/request/request.go:182 | digits alone are accepted exactly when there is at least one and all are digits, with their value |
| Numerals.Accumulate | internal/request/request.go:182 | the digit-by-digit reading succeeds exactly on all-digit input, with the value of the digits |
| Numerals.AtoiDecimal | internal/request/request.go:182 | `strconv.Atoi` reads back every decimal `%d` produces |
| Numerals.AtoiPlus | internal/request/request.go:182 | a leading `+` is accepted and gives the same value |
| Request.NewRequest | internal/request/request.go:38-43 | a new request is in `Initialized` with no headers and no body, and is consistent |
| Request.ParseRequestLine | internal/request/request.go:99-131 | the result is incomplete exactly when there is no CR LF; on success the line and its CR LF are consumed, the method is allowed, the version is `1.1` and the target holds no space; the index panic is never the result |
| Request.WrongRequestLineIff | internal/request/request.go:107-113 | the line is rejected as malformed exactly when it does not hold two spaces |
| Request.CheckParts | internal/request/request.go:111-129 | malformed exactly when there are not three parts; a third part without `/` is an unsupported version; on success the method and target are the first two parts and the method is allowed with version `1.1` |
| Request.ParseRequestLineAsWritten | internal/request/request.go:99-131 | the line as the Go code parses it: the index panic happens exactly when a CR LF is there, the line has three space-separated parts and the third has no `/`; on every other input the outcome is that of `ParseRequestLine` |
| Request.RequestLinePanics | internal/request/request.go:117 | three space-separated words whose last has no `/` make the as-written request line panic, whatever the method and target |
| Request.PanicExample | internal/request/request.go:117 | `GET / HTTP` CR LF panics as written, and the guarded parser rejects it as an unsupported version |
| Request.RequestLineNoSlash | internal/request/request.go:117-127 | the guarded parser rejects every line whose version word has no `/` as an unsupported version |
| Request.RequestLineBadMethod | internal/request/request.go:207-217 | a well-formed line with a method outside GET, POST, PUT, PATCH, DELETE is rejected with that method, whatever its version |
| Request.RequestLineVersion | internal/request/request.go:115-129 | with an allowed method, the text between the first and second `/` alone decides: `1.1` is parsed (the protocol name is not checked), anything else is unsupported |
| Request.VersionWordDecides | internal/request/request.go:115-129 | with an allowed method, the second `/`-piece of the third word decides between parsed and unsupported version |
| Request.CheckVersion | internal/request/request.go:115-129 | the checks on three parts accept exactly version `1.1` after an allowed method |
| Request.ThreeWords | internal/request/request.go:109 | three space-free words joined by single spaces split back into those words |
| Request.ParseThreeWords | internal/request/request.go:101-111 | a line of three words is handed to the part checks with the line and its CR LF as its length |
| Request.VersionPart | internal/request/request.go:117 | the piece after the first `/` of `proto/x...` is `x` |
| Request.RequestLineAccepted | internal/request/request.go:99-131 | `METHOD TARGET HTTP/1.1` CR LF with an allowed method is parsed into that line and consumes exactly itself |
| Request.ParseSingle | internal/request/request.go:150-205 | a step consumes no more than it is given and moves the state at most one place forward; `Done` is an error; only `Initialized` changes the request line and only `ParsingHeaders` changes the headers; the body grows only in `ParsingBody`, by exactly what was consumed; leaving `Initialized` consumes the line, and the empty line moves to the body after 2 bytes; a rejected request line fails with its error, and a header error fails as `BadHeader` with that error |
| Request.BodyStep | internal/request/request.go:174-197 | in `ParsingBody`: without `Content-Length`, `Done` with 0 bytes consumed; a non-integer length is an error carrying it; an overrun is an error; otherwise all of `data` is appended and consumed, and `Done` holds exactly when the declared length is reached |
| Request.BodyParse | internal/request/request.go:174-197 | within the declared length, `parse` in the body takes all of `data` in one step |
| Request.StepKeeps | internal/request/request.go:150-205 | one step keeps a request consistent, and a step that stays in the body leaves the declared length valid and not yet reached |
| Request.Parse | internal/request/request.go:133-148 | the total consumed is no more than the input; the state never goes back; in `Done` nothing is done and nothing is consumed; when the first step fails, `parse` fails with that step's error |
| Request.ParseResumes | internal/request/request.go:133-205 | parsing `data` followed by more bytes goes on from where `data` alone stopped: a failure stays a failure; a finished request stays the same unless the new bytes cause an error; an unfinished parse continues from its leftover bytes followed by the new ones |
| Request.RequestLineStable | internal/request/request.go:99-131 | once a CR LF is in the buffer, bytes appended after it do not change the request-line result |
| Request.FieldLineStable | internal/headers/headers.go:71-118 | once a CR LF is in the buffer, bytes appended after it do not change the field-line result |
| Request.LineStepStable | internal/request/request.go:150-172 | before the body, once a CR LF is in the buffer, bytes appended after it do not change the step |
| Request.NoLineIdle | internal/request/request.go:150-172 | before the body, without a CR LF in the buffer, a step consumes nothing and changes nothing |
| Request.ResumeWhole | internal/request/request.go:85-93 | when a buffer followed by the rest of the stream parses in one go into a finished request, consuming everything, `parse` of the buffer alone succeeds, and either finishes that request already or leaves bytes that, followed by the rest, parse to the same request |
| Request.ParseKeeps | internal/request/request.go:133-148 | `parse` keeps a request consistent, and leaves it settled between reads |
| Request.ParseSettles | internal/request/request.go:136-145 | where `parse` stops, the request is `Done` or a step on the rest consumes nothing and changes nothing; parsing the rest again is a no-op |
| Request.EndReparseIdle | internal/request/request.go:62-67 | the extra parse at end of stream of what is still buffered changes nothing |
| Request.Shift | internal/request/request.go:137-144 | moving a step result forward keeps its request and error and adds to its count |
| Request.Take | internal/request/request.go:58 | one read delivers at most the free space and at most the current chunk, and leaves strictly less to deliver |
| Request.TakeConcat | internal/request/request.go:58 | what a read delivers followed by what is left is the whole stream: no byte is lost or repeated |
| Request.Grow | internal/request/request.go:52-56 | the buffer size stays 8 times a power of two and is always larger than what is buffered, so a read always has room |
| Request.RequestFromReader | internal/request/request.go:45-97 | a request that comes back is `Done` |
| Request.ReaderParsesWhole | internal/request/request.go:45-97 | when all the bytes of a stream parse in one go into a finished request, consuming every byte, `RequestFromReader` returns that request however the stream is cut into reads |
| Request.RequestFromReaderConsistent | internal/request/request.go:45-97 | a request that comes back is `Done` and consistent: lower-case keys, and a body only under a valid `Content-Length` it matches |
| Request.ReadLoop | internal/request/request.go:50-94 | a request that leaves the loop is `Done` |
| Request.AfterRead | internal/request/request.go:85-93 | a parse error ends the loop with that error |
| Request.LoopParsesWhole | internal/request/request.go:50-94 | when the buffered bytes and all the chunks still to come parse in one go into a finished request, consuming every byte, the loop returns that request; each round moves the unconsumed bytes to the front of the buffer and reads after them |
| Request.EndParsesWhole | internal/request/request.go:59-79 | at end of stream, a buffer that parses in one go into a finished request, consuming it all, gives that request |
| Request.AtEndOfStream | internal/request/request.go:59-81 | a read error is reported as is; a success is `Done`, and with nothing buffered it is the request as it stood; with nothing buffered the only failure is a short body |
| Request.EndOfStreamInBody | internal/request/request.go:69-79 | at end of stream, a settled request fails exactly when it is still in the body |
| Request.AtEndKeeps | internal/request/request.go:59-79 | the end-of-stream branch keeps a request consistent |
| Request.ReadLoopKeeps | internal/request/request.go:50-94 | the read loop keeps a request consistent |
| Request.BodyLoop | internal/request/request.go:50-94 | from the body state, reads that together fall short of the declared length fail at end of stream (or with the read error), and reads that reach it exactly complete the request with their bytes as the rest of the body, however the stream is cut |
| Request.BodyAtEnd | internal/request/request.go:59-79 | in the body, end of stream with nothing more read is a short body, or the read error |
| Request.BodyRead | internal/request/request.go:58-93 | in the body, one read within the declared length appends what it delivered and carries on with the rest |
| RequestExamples.OverrunDependsOnReads | internal/request/request.go:174-197 | under `Content-Length: 1`, `ab` in one read is an overrun error, but `a` then `b` completes the request with body `a` |
| RequestExamples.RequestLineStep | internal/request/request.go:152-162 | from `Initialized`, a good request line is one step to `ParsingHeaders` consuming exactly that line |
| RequestExamples.FieldLineStep | internal/request/request.go:164-172 | in `ParsingHeaders`, a field line is one step that stores the trimmed value and consumes exactly the line |
| RequestExamples.SectionEndStep | internal/request/request.go:164-172 | in `ParsingHeaders`, the empty line is one step to `ParsingBody` consuming 2 bytes |
| RequestExamples.HeadThen | internal/request/request.go:133-162 | after a good request line, `parse` carries on with the header section |
| RequestExamples.FieldLineThen | internal/request/request.go:133-172 | after a field line, `parse` carries on with the rest of the section |
| RequestExamples.SectionEndThen | internal/request/request.go:133-172 | after the empty line, `parse` carries on with the body |
| RequestExamples.BodyCompletes | internal/request/request.go:174-197 | a body of exactly the declared length completes the request in one parse |
| RequestExamples.LengthFieldStep | internal/request/request.go:164-172 | a `Content-Length: n` line stores the decimal `n` |
| RequestExamples.LengthStored | internal/headers/headers.go:15-27 | a newly set `Content-Length` reads back as its value |
| RequestExamples.SectionEndThenBody | internal/request/request.go:133-197 | the empty line followed by a body of the declared length completes the request with that body |
| RequestExamples.LengthThenBody | internal/request/request.go:133-197 | a `Content-Length` line, the empty line and that many body bytes complete the request and consume everything |
| RequestExamples.WholeRequest | internal/request/request.go:133-205 | request line, `Content-Length` line, empty line and body parse in one call into that method, target, version `1.1`, the one field and the body, `Done`, consuming every byte |
| RequestExamples.FieldThenEnd | internal/request/request.go:133-180 | one field other than `Content-Length` and the empty line complete a request that has no body |
| RequestExamples.SectionEndNoBody | internal/request/request.go:169-180 | without `Content-Length`, the empty line ends the request |
| RequestExamples.NoLengthEnds | internal/request/request.go:176-180 | in the body without `Content-Length`, `parse` finishes at once and consumes nothing |
| RequestExamples.WholeRequestRead | internal/request/request.go:45-97 | however a stream of request line, `Content-Length` line, empty line and body is cut into reads, `RequestFromReader` returns the request with that method, target, version `1.1`, the one field and the body |
| RequestExamples.HeadWithFieldRead | internal/request/request.go:45-97 | however a stream of request line, one field other than `Content-Length` and the empty line is cut into reads, `RequestFromReader` returns the request with that field and no body |
| RequestExamples.HeadWithField | internal/request/request.go:133-205 | request line, one field other than `Content-Length` and the empty line parse in one call into a `Done` request with that field and no body, consuming every byte |
| RequestExamples.GetWithHost | internal/request/request.go:133-205 | `GET <target> HTTP/1.1`, `Host: x` and the empty line parse into a `Done` request with the field `host: x` |
| RequestExamples.FourByteBody | internal/request/request.go:45-97 | under `Content-Length: 4`, `abc` then end of stream is a short body, and `ab`, `cd` complete the request with body `abcd` |
| Response.Accepted | internal/response/response.go:41 | a writer takes a prefix of what it is given: all of it exactly when it fits, otherwise as much as there is room for |
| Response.Write | internal/response/response.go:41 | `Write` appends the accepted prefix, reports its length, and fails exactly when that is short of the whole |
| Response.WriteAllAccepts | internal/response/response.go:54-64 | writing pieces one by one and stopping at the first failure puts out what one write of their concatenation would, and fails exactly when that does not fit |
| Response.AcceptedAppend | internal/response/response.go:99-118 | writing `a` and then `b` puts out what writing `a + b` would |
| Response.StatusLineShape | internal/response/response.go:28-43 | every status line is `HTTP/1.1`, a space, the code in decimal, a space, the reason phrase (empty for unnamed codes) and CR LF, the `status-line` of section 4 of RFC 9112 |
| Response.StatusLineServerError | internal/response/response.go:35-36 | the 500 line has that shape with the reason `Internal Server Error` |
| Response.WriteStatusLine | internal/response/response.go:66-81 | the status line goes out in one write, or the prefix that fits and an error |
| Response.GetDefaultHeaders | internal/response/response.go:45-52 | exactly the keys `content-length` (decimal `n`), `connection` (`close`) and `content-type` (`text/plain`), all lower-case |
| Response.DefaultKeys | internal/response/response.go:47-49 | the three names lower-case to three distinct lower-case keys |
| Response.FieldLines | internal/response/response.go:83-88 | one `key: value` CR LF line per key, in iteration order |
| Response.WriteHeaders | internal/response/response.go:54-64 | the lines and then the empty line go out, or the prefix that fits and an error |
| Response.FieldSectionLength | internal/response/response.go:82-92 | the section is as long as each name, value and 4 per line, plus 2 |
| Response.WriteTrailers | internal/response/response.go:124-133 | the trailer section goes out exactly as a header section does |
| Response.WriteBody | internal/response/response.go:93-97 | the body goes out verbatim in one write, with its count and error |
| Response.WriteChunkedBody | internal/response/response.go:99-118 | the size line, data and CR LF go out; a failed size line reports 0 bytes; otherwise the count is the number of data bytes the writer took after the size line, even when the data or the closing CR LF fails, and all of `p` on success |
| Response.WriteChunkedBodyDone | internal/response/response.go:120-122 | `0` CR LF goes out as far as the writer accepts it; the error is set exactly when it does not fit; the count is the number of bytes accepted |
| Response.EmptyChunkIsLast | internal/response/response.go:99-122 | the frame of an empty chunk is the last chunk followed by the empty trailer line |
| ReadBack.ReadCodeField | internal/response/response.go:28-43 | the code field of a status line is read up to the next space |
| ReadBack.StatusCodeRoundTrip | internal/response/response.go:28-43 | the status code read from any status line written for a code is that code |
| ReadBack.FieldTextReadBack | internal/response/response.go:82-92 | a written field line for a new lower-case token key and a plain value is read back by `Headers.Parse` as exactly that entry, consuming the line |
| ReadBack.SectionFrom | internal/response/response.go:82-92 | the field-line parser, called repeatedly, reads a written section back into the entries written, consuming exactly the section |
| ReadBack.FieldSectionRoundTrip | internal/response/response.go:82-92 | any header section written for lower-case token keys and plain values, in any order, reads back as the same map |
| ReadBack.DefaultHeadersWritable | internal/response/response.go:45-52 | the default fields can be written and read back unchanged |
| ReadBack.DefaultHeadersRoundTrip | internal/response/response.go:45-92 | the default header section reads back as the same map, and its `Content-Length` declares a body of exactly `n` bytes to the request parser |
| ReadBack.ChunkedRoundTrip | internal/response/response.go:99-122 | non-empty chunks written one after another and then the last chunk decode back to their concatenation |
| ReadBack.FrameReadBack | internal/response/response.go:99-118 | one written chunk decodes as its data, followed by what comes after it |
| ReadBack.LastChunkReadBack | internal/response/response.go:120-122 | the last chunk ends the chunked body with no data |
| ReadBack.EmptyChunkEndsBody | internal/response/response.go:99-122 | writing an empty chunk ends the body, and the empty line after it reads as an empty trailer section |

## Left out

- `internal/server/server.go` and `cmd/`: the listener, the accept loop, the goroutine per connection, the shutdown flag and the demo handler are network, concurrency and foreign calls. `HandlerError.Write` only composes the response functions modelled here.
- Bytes.ToLower: ASCII only. Go's `strings.ToLower` also lower-cases non-ASCII letters, so `Set(h, "É", v)` stores the key `C3 A9` (`é`) in Go but `C3 89` unchanged here. `Headers.Get`, `Set`, `Override` and `Delete` inherit this for non-ASCII keys. `Headers.Parse` rejects such names anyway, so only direct calls are affected.
- Bytes.TrimSpace: ASCII white space only. From the first byte at or above 0x80, Go's `strings.TrimSpace` also trims Unicode white space. So the field line `X: a\xC2\xA0` stores `a` in Go but `a\xC2\xA0` here. `Headers.Parse` and `Headers.ParseLine` inherit this for non-ASCII field values.
- Numerals.Atoi: integers are unbounded. `strconv.Atoi` reports a range error for values outside 64 bits, and that error is not modelled.
- Request.RequestFromReader: a read never delivers bytes together with end of stream. Each chunk comes with no error, and the end comes after the last chunk. `ReadError` stands for any error other than `io.EOF` and is an addition for the `return nil, err` branch (request.go:81).
- Request.RequestFromReader: independence from how the stream is cut into reads is stated only for streams whose bytes parse in one go into a finished request, consuming every byte (`ReaderParsesWhole`). Streams with bytes past the declared body, streams that end early and streams that fail are not covered. For the first kind the cut provably matters (`RequestExamples.OverrunDependsOnReads`).
- Request.ParseRequestLine: this is the guarded parser. The index panic of request.go:117 is kept in `ParseRequestLineAsWritten` (see Findings). `Request.ParseSingle`, `Request.Parse`, `Request.ReadLoop` and `Request.RequestFromReader` all call the guarded parser, so for `GET / HTTP` CR LF they return `Failure(UnsupportedVersion)` where Go panics and the server process ends. The state machine models the corrected behaviour.
- Response.Write: the writer's failure model is one assumption about `io.Writer`. A writer takes bytes until its `room` runs out, writes the part that fits, fails, and then accepts nothing more. Other failure patterns of a real connection are not modelled.
- Response.WriteHeaders: one function stands for both the package function `WriteHeaders` (response.go:54-64) and the `Writer` method (response.go:82-92), which have the same body apart from the writer. Go's map iteration order is not fixed. The order is an `order` parameter that must list every key exactly once, so every property holds for all orders. `Response.WriteTrailers` takes the same parameter.
- Response.WriteStatusLine: one function stands for both the package function (response.go:28-43) and the `Writer` method (response.go:66-81). The two have the same body, apart from which writer they write to.
- ReadBack.DecodeChunked: chunk extensions and trailer fields inside the decoder are not read. The decoder is only the partner of the writer, which produces neither.

## Findings

| source | as written | input that shows it | evidently intended | confidence | as-written member | corrected member |
|---|---|---|---|---|---|---|
| internal/request/request.go:117 | `strings.Split(parts[2], "/")[1]` indexes without checking that the third word has a `/`. The index is out of range, a Go runtime panic. The goroutine of server.go:57-60 has no `recover`, so the panic ends the whole server process. | the request line `GET / HTTP` CR LF | reject the line with an error, such as the unsupported-version error every other bad version gets | not executed | Request.RequestLinePanics | Request.RequestLineNoSlash |
