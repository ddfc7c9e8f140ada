/**
 The header collection of internal/headers/headers.go: a map from lower-cased
 field name to one value, where repeated names are comma-joined, together with
 the incremental field-line parser `Parse` (section 5 of RFC 9112, field names
 restricted to the `tchar` set of section 5.6.2 of RFC 9110).
 */
module Headers {
  import opened Wrappers
  import opened Bytes

  /** Field name to field value. Keys are stored lower-cased. */
  type Headers = map<Bytes, Bytes>

  /** The collection invariant: every stored key is lower-case. */
  predicate KeysLowerCase(h: Headers) {
    forall k | k in h :: IsLowerCase(k)
  }

  /** An empty collection. */
  function NewHeaders(): (h: Headers)
    ensures |h| == 0 && KeysLowerCase(h)
  {
    map[]
  }

  /** Case-insensitive lookup; an absent key reads as the empty value, as Go's map index does. */
  function Get(h: Headers, key: Bytes): (v: Bytes)
    ensures ToLower(key) in h ==> v == h[ToLower(key)]
    ensures ToLower(key) !in h ==> v == []
  {
    if ToLower(key) in h then h[ToLower(key)] else []
  }

  /** Adds a value under the lower-cased key, comma-joining it to a value already there. */
  function Set(h: Headers, key: Bytes, value: Bytes): (r: Headers)
    ensures r.Keys == h.Keys + {ToLower(key)}
    ensures ToLower(key) !in h ==> r[ToLower(key)] == value
    ensures ToLower(key) in h ==> r[ToLower(key)] == h[ToLower(key)] + "," + value
    ensures forall k | k in h && k != ToLower(key) :: r[k] == h[k]
    ensures KeysLowerCase(h) ==> KeysLowerCase(r)
  {
    var k := ToLower(key);
    if k in h then h[k := h[k] + "," + value] else h[k := value]
  }

  /** Stores a value under the lower-cased key, replacing any value there. */
  function Override(h: Headers, key: Bytes, value: Bytes): (r: Headers)
    ensures r.Keys == h.Keys + {ToLower(key)}
    ensures r[ToLower(key)] == value
    ensures forall k | k in h && k != ToLower(key) :: r[k] == h[k]
    ensures KeysLowerCase(h) ==> KeysLowerCase(r)
  {
    h[ToLower(key) := value]
  }

  /** Removes the lower-cased key and nothing else. */
  function Delete(h: Headers, key: Bytes): (r: Headers)
    ensures r.Keys == h.Keys - {ToLower(key)}
    ensures forall k | k in r :: r[k] == h[k]
    ensures KeysLowerCase(h) ==> KeysLowerCase(r)
  {
    h - {ToLower(key)}
  }

  /** The field that declares the length of a message body. */
  const ContentLength: Bytes := "Content-Length"

  /** Setting a field that is not there yet stores the value under the lower-cased name. */
  lemma SetAbsent(h: Headers, key: Bytes, value: Bytes)
    requires ToLower(key) !in h
    ensures Set(h, key, value) == h[ToLower(key) := value]
  {
  }

  /** Lookups ignore ASCII case: keys that lower-case alike read the same value. */
  lemma GetIgnoresCase(h: Headers, a: Bytes, b: Bytes)
    requires ToLower(a) == ToLower(b)
    ensures Get(h, a) == Get(h, b)
  {
  }

  /** What `Get` sees after `Set`: the joined or inserted value under the same name, the old value under any other. */
  lemma GetAfterSet(h: Headers, key: Bytes, value: Bytes, other: Bytes)
    ensures ToLower(other) == ToLower(key) && ToLower(key) in h ==> Get(Set(h, key, value), other) == h[ToLower(key)] + "," + value
    ensures ToLower(other) == ToLower(key) && ToLower(key) !in h ==> Get(Set(h, key, value), other) == value
    ensures ToLower(other) != ToLower(key) ==> Get(Set(h, key, value), other) == Get(h, other)
  {
  }

  /** Setting `a` then `b` under one name (in any casing) on a fresh collection reads back as `a,b`. */
  lemma SetTwiceJoins(key1: Bytes, key2: Bytes, a: Bytes, b: Bytes)
    requires ToLower(key1) == ToLower(key2)
    ensures Get(Set(Set(NewHeaders(), key1, a), key2, b), key1) == a + "," + b
  {
  }

  /** What `Get` sees after `Override` and `Delete`. */
  lemma GetAfterOverrideDelete(h: Headers, key: Bytes, value: Bytes, other: Bytes)
    ensures Get(Override(h, key, value), other) == if ToLower(other) == ToLower(key) then value else Get(h, other)
    ensures Get(Delete(h, key), other) == if ToLower(other) == ToLower(key) then [] else Get(h, other)
  {
  }

  /** Go's `isValidTokenChar`: ASCII letters, digits and fifteen listed symbols. */
  predicate IsValidTokenChar(c: byte)
  {
    || 'A' <= c <= 'Z'
    || 'a' <= c <= 'z'
    || '0' <= c <= '9'
    || c in {'!', '#', '$', '%', '&', '\'', '*', '+', '-', '.', '^', '_', '`', '|', '~'}
  }

  /**
   `tchar` as section 5.6.2 of RFC 9110 defines it: fifteen symbols, `DIGIT`
   (%x30-39) and `ALPHA` (%x41-5A / %x61-7A) of RFC 5234.
   */
  predicate IsTchar(c: byte) {
    || c in "!#$%&'*+-.^_`|~"
    || 0x30 <= c as int <= 0x39
    || 0x41 <= c as int <= 0x5A
    || 0x61 <= c as int <= 0x7A
  }

  /** Go's `isValidTokenChar` accepts exactly the `tchar` bytes. */
  lemma TokenCharIsTchar(c: byte)
    ensures IsValidTokenChar(c) <==> IsTchar(c)
  {
  }

  /** Every byte of `s` is a token character. */
  predicate AllTokenChars(s: Bytes) {
    forall i | 0 <= i < |s| :: IsValidTokenChar(s[i])
  }

  /** Why a header line was rejected. */
  datatype HeaderError =
    | NoColon                 // the line has no `:`
    | SpaceBeforeColon        // white space between the name and the colon
    | EmptyFieldName          // nothing is left of the name
    | InvalidFieldNameChar    // a byte outside the token set in the name

  /** Go's `validateFieldName`: non-empty, then byte by byte. */
  function ValidateFieldName(name: Bytes): (r: Option<HeaderError>)
    ensures r.None? <==> |name| > 0 && AllTokenChars(name)
    ensures r == Some(EmptyFieldName) <==> |name| == 0
  {
    if |name| == 0 then Some(EmptyFieldName) else FirstInvalidChar(name, 0)
  }

  /** The loop over the bytes of a name from index `i`. */
  function FirstInvalidChar(name: Bytes, i: nat): (r: Option<HeaderError>)
    requires i <= |name|
    ensures r.None? <==> forall j | i <= j < |name| :: IsValidTokenChar(name[j])
    ensures r.Some? ==> r == Some(InvalidFieldNameChar)
    decreases |name| - i
  {
    if i == |name| then None
    else if !IsValidTokenChar(name[i]) then Some(InvalidFieldNameChar)
    else FirstInvalidChar(name, i + 1)
  }

  /** The outcome of one `Parse` call: bytes consumed, whether the header section ended, the collection, and the error. */
  datatype ParseResult = ParseResult(n: nat, done: bool, headers: Headers, err: Option<HeaderError>)

  /** `name` ends with a space or a tab. */
  predicate EndsBlank(name: Bytes) {
    |name| > 0 && Blanks.Has(name[|name| - 1])
  }

  /**
   A name is accepted exactly when, after its leading spaces and tabs are
   dropped, it is a non-empty run of token bytes.
   */
  predicate AcceptableName(rawName: Bytes) {
    var name := TrimLeft(rawName, Blanks);
    |name| > 0 && AllTokenChars(name)
  }

  /**
   Consumes one field line from the front of `data`. No CR LF: nothing is
   consumed. CR LF first: the blank line ends the section. Otherwise the
   line before the first CR LF is handed to `ParseLine`; on success the line
   and its CR LF are consumed, and on failure nothing is.
   */
  function Parse(h: Headers, data: Bytes): (r: ParseResult)
    ensures r.n <= |data|
    ensures r.err.Some? ==> r.n == 0 && !r.done && r.headers == h
    ensures r.done <==> IndexOf(data, CRLF) == Some(0)
    ensures r.done ==> r.n == 2 && r.headers == h && r.err.None?
    ensures IndexOf(data, CRLF).None? ==> r.n == 0 && !r.done && r.headers == h && r.err.None?
    ensures r.err.None? && !r.done && r.n > 0 ==> IndexOf(data, CRLF).Some? && r.n == IndexOf(data, CRLF).value + 2
    ensures r.err.None? ==> (r.n == 0 <==> IndexOf(data, CRLF).None?)
    ensures KeysLowerCase(h) ==> KeysLowerCase(r.headers)
    ensures IndexOf(data, CRLF).Some? && IndexOf(data, CRLF).value > 0 ==>
              var line := ParseLine(h, data[..IndexOf(data, CRLF).value]);
              && (r.err.Some? <==> line.Failure?)
              && (line.Failure? ==> r.err == Some(line.error))
              && (line.Success? ==> r.headers == line.value)
  {
    match IndexOf(data, CRLF)
    case None => ParseResult(0, false, h, None)
    case Some(crlf) =>
      if crlf == 0 then ParseResult(2, true, h, None)
      else
        match ParseLine(h, data[..crlf])
        case Failure(e) => ParseResult(0, false, h, Some(e))
        case Success(h') => ParseResult(crlf + 2, false, h', None)
  }

  /**
   One field line without its CR LF. It is split at its first colon; the name
   must have no space or tab before the colon, and after its leading spaces
   and tabs are dropped must be a non-empty token. The value is trimmed of
   white space and added with `Set`. The three separate "space before
   colon" tests of Go's `Parse` come down to the token check: the contract states the
   net rule.
   */
  function ParseLine(h: Headers, line: Bytes): (r: Result<Headers, HeaderError>)
    ensures IndexOf(line, ":").None? ==> r == Failure(NoColon)
    ensures IndexOf(line, ":").Some? ==>
              var colon := IndexOf(line, ":").value;
              && (r.Success? <==> AcceptableName(line[..colon]))
              && (r.Success? ==> r.value == Set(h, TrimLeft(line[..colon], Blanks), TrimSpace(line[colon + 1..])))
              && (r == Failure(SpaceBeforeColon) <==> EndsBlank(line[..colon]))
              && (r == Failure(EmptyFieldName) <==> colon == 0)
    ensures r.Success? && KeysLowerCase(h) ==> KeysLowerCase(r.value)
  {
    match IndexOf(line, ":")
    case None => Failure(NoColon)
    case Some(colon) =>
      var rawName := line[..colon];
      NameChecks(rawName);
      if EndsBlank(rawName) then Failure(SpaceBeforeColon)
      else if rawName != TrimSpace(rawName) && EndsBlank(rawName) then Failure(SpaceBeforeColon)
      else
        var name := TrimLeft(rawName, Blanks);
        if TrimRight(name, Blanks) != name then Failure(SpaceBeforeColon)
        else match ValidateFieldName(name)
          case Some(e) => Failure(e)
          case None => Success(Set(h, name, TrimSpace(line[colon + 1..])))
  }

  /** How the separate name checks of Go's `Parse` relate to `AcceptableName`. */
  lemma NameChecks(rawName: Bytes)
    ensures EndsBlank(rawName) ==> !AcceptableName(rawName)
    ensures !EndsBlank(rawName) ==> TrimRight(TrimLeft(rawName, Blanks), Blanks) == TrimLeft(rawName, Blanks)
    ensures !EndsBlank(rawName) ==> (|TrimLeft(rawName, Blanks)| == 0 <==> |rawName| == 0)
  {
    var name := TrimLeft(rawName, Blanks);
    if EndsBlank(rawName) && |name| > 0 {
      assert name[|name| - 1] == rawName[|rawName| - 1];
    }
    if !EndsBlank(rawName) && |rawName| > 0 {
      assert |name| > 0;
      assert name[|name| - 1] == rawName[|rawName| - 1];
    }
  }

  /**
   The grammar direction: optional leading spaces and tabs, a token name, a
   colon and a CR-LF-free raw value make one accepted line, which adds the
   trimmed value under the lower-cased name.
   */
  lemma ParseWellFormedLine(h: Headers, lead: Bytes, name: Bytes, raw: Bytes, rest: Bytes)
    requires forall i | 0 <= i < |lead| :: Blanks.Has(lead[i])
    requires |name| > 0 && AllTokenChars(name)
    requires Free(raw, CRLF)
    ensures Parse(h, lead + name + ":" + raw + CRLF + rest)
         == ParseResult(|lead| + |name| + 1 + |raw| + 2, false, Set(h, name, TrimSpace(raw)), None)
  {
    var line := lead + name + ":" + raw;
    var data := line + CRLF + rest;
    assert lead + name + ":" + raw + CRLF + rest == data;
    LineIsCrlfFree(lead, name, raw);
    FirstCrlf(line, rest);
    assert data[..|line|] == line;
    ParseLineWellFormed(h, lead, name, raw);
  }

  /** One field line as it is sent: the name, a colon, the raw value (with any surrounding white space) and CR LF. */
  function FieldLine(name: Bytes, raw: Bytes): (line: Bytes) {
    name + ":" + raw + CRLF
  }

  /** A field line with a token name and a CR-LF-free value is read back as that field, consuming exactly the line. */
  lemma ParseFieldLine(h: Headers, name: Bytes, raw: Bytes, rest: Bytes)
    requires |name| > 0 && AllTokenChars(name)
    requires Free(raw, CRLF)
    ensures Parse(h, FieldLine(name, raw) + rest) == ParseResult(|FieldLine(name, raw)|, false, Set(h, name, TrimSpace(raw)), None)
  {
    ParseWellFormedLine(h, [], name, raw, rest);
    assert [] + name == name;
    assert FieldLine(name, raw) + rest == name + ":" + raw + CRLF + rest;
  }

  /**
   A field line that `ParseLine` refuses makes `Parse` fail without consuming
   anything: a line with no colon, an empty name, a blank before the colon,
   or a name that is not a token after its leading blanks.
   */
  lemma ParseRejectsLine(h: Headers, line: Bytes, rest: Bytes)
    requires |line| > 0 && Free(line, CRLF)
    ensures var p := Parse(h, line + CRLF + rest);
            && (p.err.Some? <==> IndexOf(line, ":").None? || !AcceptableName(line[..IndexOf(line, ":").value]))
            && (p.err.Some? ==> p.n == 0 && !p.done && p.headers == h)
            && (IndexOf(line, ":").None? ==> p.err == Some(NoColon))
            && (IndexOf(line, ":") == Some(0) ==> p.err == Some(EmptyFieldName))
            && (IndexOf(line, ":").Some? && EndsBlank(line[..IndexOf(line, ":").value]) ==> p.err == Some(SpaceBeforeColon))
  {
    FirstCrlf(line, rest);
    assert (line + CRLF + rest)[..|line|] == line;
  }

  /** A well-formed line without its CR LF is accepted by `ParseLine`. */
  lemma ParseLineWellFormed(h: Headers, lead: Bytes, name: Bytes, raw: Bytes)
    requires forall i | 0 <= i < |lead| :: Blanks.Has(lead[i])
    requires |name| > 0 && AllTokenChars(name)
    ensures ParseLine(h, lead + name + ":" + raw) == Success(Set(h, name, TrimSpace(raw)))
  {
    var line := lead + name + ":" + raw;
    var colon := |lead| + |name|;
    LineColon(lead, name, raw);
    LineName(lead, name);
    assert line[..colon] == lead + name;
    assert line[colon + 1..] == raw;
    ParseLineAt(h, line, colon, lead + name, raw);
  }

  /** Where the first colon and the pieces around it are known, `ParseLine`'s contract gives its result. */
  lemma ParseLineAt(h: Headers, line: Bytes, colon: nat, rawName: Bytes, value: Bytes)
    requires IndexOf(line, ":") == Some(colon)
    requires line[..colon] == rawName && line[colon + 1..] == value
    requires AcceptableName(rawName)
    ensures ParseLine(h, line) == Success(Set(h, TrimLeft(rawName, Blanks), TrimSpace(value)))
  {
    var r := ParseLine(h, line);
    assert AcceptableName(line[..colon]);
    assert r.Success? && r.value == Set(h, TrimLeft(line[..colon], Blanks), TrimSpace(line[colon + 1..]));
  }

  /** A line built from blanks, a token, a colon and a CR-LF-free value holds no CR LF. */
  lemma LineIsCrlfFree(lead: Bytes, name: Bytes, raw: Bytes)
    requires forall i | 0 <= i < |lead| :: Blanks.Has(lead[i])
    requires AllTokenChars(name)
    requires Free(raw, CRLF)
    ensures Free(lead + name + ":" + raw, CRLF)
  {
    var prefix := lead + name;
    forall i | 0 <= i < |prefix + ":"|
      ensures (prefix + ":")[i] != '\r'
    {
      if |lead| <= i < |prefix| {
        assert prefix[i] == name[i - |lead|];
      }
    }
    NoCrIsCrlfFree(prefix + ":");
    CrlfFreeAppend(prefix + ":", raw);
  }

  /** The first colon of such a line is the one after the name. */
  lemma LineColon(lead: Bytes, name: Bytes, raw: Bytes)
    requires forall i | 0 <= i < |lead| :: Blanks.Has(lead[i])
    requires AllTokenChars(name)
    ensures IndexOf(lead + name + ":" + raw, ":") == Some(|lead| + |name|)
  {
    var prefix := lead + name;
    forall i | 0 <= i < |prefix|
      ensures prefix[i] != ':'
    {
      if i >= |lead| {
        assert prefix[i] == name[i - |lead|];
      }
    }
    FirstByte(prefix, ':', raw);
  }

  /** Leading blanks before a token name are dropped, leaving an acceptable name. */
  lemma LineName(lead: Bytes, name: Bytes)
    requires forall i | 0 <= i < |lead| :: Blanks.Has(lead[i])
    requires |name| > 0 && AllTokenChars(name)
    ensures TrimLeft(lead + name, Blanks) == name
    ensures AcceptableName(lead + name)
  {
    TrimLeftSkips(lead, name, Blanks);
    assert !Blanks.Has(name[0]);
    assert TrimLeft(name, Blanks) == name;
  }
}
