/**
 Octet strings and the Go `strings` / `bytes` helpers the HTTP layer is built on:
 searching (`Index`), splitting (`Split`), trimming (`TrimLeft`, `TrimRight`,
 `TrimSpace`) and ASCII lower-casing (`ToLower`).
 */
module Bytes {
  import opened Wrappers

  /** One octet. Go's `string` and `[]byte` both hold octets; a character below 256 stands for one. */
  type byte = c: char | c as int < 256

  type Bytes = seq<byte>

  const CRLF: Bytes := "\r\n"

  /**
   The two byte classes the header parser trims: `Blanks` is the cut set `" \t"`
   used on field names, `AsciiSpaces` the ASCII white space that Go's
   `strings.TrimSpace` removes (HT, LF, VT, FF, CR and SP).
   */
  datatype Cut = Blanks | AsciiSpaces {
    predicate Has(c: byte) {
      match this
      case Blanks => c == ' ' || c == '\t'
      case AsciiSpaces => c == ' ' || c == '\t' || c == '\n' || c == '\r' || c as int == 11 || c as int == 12
    }
  }

  /** `pat` occurs in `s` starting at index `i`. */
  predicate OccursAt(s: Bytes, pat: Bytes, i: nat) {
    i + |pat| <= |s| && s[i..i + |pat|] == pat
  }

  /** `pat` occurs nowhere in `s`. */
  ghost predicate Free(s: Bytes, pat: Bytes) {
    forall i: nat :: !OccursAt(s, pat, i)
  }

  /** The byte `c` does not occur in `s`. */
  predicate Lacks(s: Bytes, c: byte) {
    forall i | 0 <= i < |s| :: s[i] != c
  }

  /** Index of the first occurrence of `pat` in `s` (Go's `bytes.Index` and `strings.Index`, with `-1` as `None`). */
  function IndexOf(s: Bytes, pat: Bytes): (r: Option<nat>)
    ensures r.Some? ==> OccursAt(s, pat, r.value)
    ensures r.Some? ==> forall j: nat | j < r.value :: !OccursAt(s, pat, j)
    ensures r.None? <==> Free(s, pat)
  {
    IndexFrom(s, pat, 0)
  }

  /** The first occurrence of `pat` in `s` at or after `from`. */
  function IndexFrom(s: Bytes, pat: Bytes, from: nat): (r: Option<nat>)
    ensures r.Some? ==> from <= r.value && OccursAt(s, pat, r.value)
    ensures r.Some? ==> forall j: nat | from <= j < r.value :: !OccursAt(s, pat, j)
    ensures r.None? ==> forall j: nat | from <= j :: !OccursAt(s, pat, j)
    decreases |s| - from
  {
    if from + |pat| > |s| then None
    else if s[from..from + |pat|] == pat then Some(from)
    else IndexFrom(s, pat, from + 1)
  }

  /** An occurrence with none before it is the one `IndexOf` finds. */
  lemma IndexOfIs(s: Bytes, pat: Bytes, i: nat)
    requires OccursAt(s, pat, i)
    requires forall j: nat | j < i :: !OccursAt(s, pat, j)
    ensures IndexOf(s, pat) == Some(i)
  {
  }

  /** The first occurrence of `pat` in `s` stays the first one when more bytes follow. */
  lemma IndexOfExtends(s: Bytes, more: Bytes, pat: Bytes)
    requires IndexOf(s, pat).Some?
    ensures IndexOf(s + more, pat) == IndexOf(s, pat)
  {
    var i := IndexOf(s, pat).value;
    var t := s + more;
    assert t[i..i + |pat|] == s[i..i + |pat|];
    forall j: nat | j < i
      ensures !OccursAt(t, pat, j)
    {
      assert !OccursAt(s, pat, j);
      assert t[j..j + |pat|] == s[j..j + |pat|];
    }
    IndexOfIs(t, pat, i);
  }

  /** A CR LF placed after CR-LF-free bytes is the first one: it cannot straddle the seam, since LF is not CR. */
  lemma FirstCrlf(a: Bytes, b: Bytes)
    requires Free(a, CRLF)
    ensures IndexOf(a + CRLF + b, CRLF) == Some(|a|)
  {
    var s := a + CRLF + b;
    assert s[|a|..|a| + 2] == CRLF;
    forall j: nat | j < |a|
      ensures !OccursAt(s, CRLF, j)
    {
      if j + 2 <= |a| {
        assert s[j..j + 2] == a[j..j + 2];
        assert !OccursAt(a, CRLF, j);
      } else {
        assert s[j + 1] == '\r';
      }
    }
    IndexOfIs(s, CRLF, |a|);
  }

  /** Bytes without a CR hold no CR LF. */
  lemma NoCrIsCrlfFree(s: Bytes)
    requires forall i | 0 <= i < |s| :: s[i] != '\r'
    ensures Free(s, CRLF)
  {
    forall j: nat
      ensures !OccursAt(s, CRLF, j)
    {
      if j + 2 <= |s| {
        assert s[j..j + 2][0] == s[j];
      }
    }
  }

  /** Two CR-LF-free pieces stay CR-LF-free when joined, unless the first ends in CR. */
  lemma CrlfFreeAppend(a: Bytes, b: Bytes)
    requires Free(a, CRLF) && Free(b, CRLF)
    requires |a| > 0 ==> a[|a| - 1] != '\r'
    ensures Free(a + b, CRLF)
  {
    var s := a + b;
    forall j: nat
      ensures !OccursAt(s, CRLF, j)
    {
      if j + 2 <= |s| && s[j..j + 2] == CRLF {
        assert s[j] == '\r' && s[j + 1] == '\n';
        if j + 2 <= |a| {
          assert a[j..j + 2] == s[j..j + 2];
          assert OccursAt(a, CRLF, j);
        } else if j >= |a| {
          assert b[j - |a|..j - |a| + 2] == s[j..j + 2];
          assert OccursAt(b, CRLF, j - |a|);
        }
      }
    }
  }

  /** The first `c` in `a + [c] + b`, when `a` holds no `c`, is at index `|a|`. */
  lemma FirstByte(a: Bytes, c: byte, b: Bytes)
    requires forall i | 0 <= i < |a| :: a[i] != c
    ensures IndexOf(a + [c] + b, [c]) == Some(|a|)
  {
    var s := a + [c] + b;
    assert s[|a|..|a| + 1] == [c];
    forall j: nat | j < |a|
      ensures !OccursAt(s, [c], j)
    {
      assert s[j..j + 1] == [a[j]];
    }
    IndexOfIs(s, [c], |a|);
  }

  /** Bytes none of which is `c` hold no occurrence of the one-byte pattern `[c]`. */
  lemma FreeOfByte(s: Bytes, c: byte)
    requires forall i | 0 <= i < |s| :: s[i] != c
    ensures Free(s, [c])
  {
    forall i: nat
      ensures !OccursAt(s, [c], i)
    {
      if i + 1 <= |s| {
        assert s[i..i + 1] == [s[i]];
      }
    }
  }

  /** Concatenation of `parts` with `sep` between neighbours (the inverse of `Split`). */
  function Join(parts: seq<Bytes>, sep: Bytes): (joined: Bytes)
  {
    if |parts| == 0 then []
    else if |parts| == 1 then parts[0]
    else parts[0] + sep + Join(parts[1..], sep)
  }

  /** The pieces one after another. */
  function Concat(parts: seq<Bytes>): (whole: Bytes)
  {
    if |parts| == 0 then [] else parts[0] + Concat(parts[1..])
  }

  /** Concatenation distributes over appending piece lists. */
  lemma {:induction false} ConcatAppend(a: seq<Bytes>, b: seq<Bytes>)
    ensures Concat(a + b) == Concat(a) + Concat(b)
    decreases |a|
  {
    if |a| == 0 {
      assert a + b == b;
    } else {
      assert (a + b)[1..] == a[1..] + b;
      ConcatAppend(a[1..], b);
    }
  }

  /**
   Go's `strings.Split` for a non-empty separator: the pieces between
   successive first occurrences of `sep`. Joining them back with `sep` gives
   `s`, and no piece contains `sep`.
   */
  function Split(s: Bytes, sep: Bytes): (parts: seq<Bytes>)
    requires |sep| > 0
    ensures |parts| > 0
    ensures Join(parts, sep) == s
    ensures forall k | 0 <= k < |parts| :: Free(parts[k], sep)
    decreases |s|
  {
    match IndexOf(s, sep)
    case None => [s]
    case Some(i) =>
      var head := s[..i];
      BeforeFirst(s, sep, i);
      var tail := Split(s[i + |sep|..], sep);
      [head] + tail
  }

  /** At the first occurrence `i` of `sep`, `s` is the separator-free `s[..i]`, then `sep`, then the rest. */
  lemma BeforeFirst(s: Bytes, sep: Bytes, i: nat)
    requires |sep| > 0 && OccursAt(s, sep, i)
    requires forall j: nat | j < i :: !OccursAt(s, sep, j)
    ensures Free(s[..i], sep)
    ensures s == s[..i] + sep + s[i + |sep|..]
  {
    var head := s[..i];
    forall j: nat
      ensures !OccursAt(head, sep, j)
    {
      if j + |sep| <= |head| {
        assert head[j..j + |sep|] == s[j..j + |sep|];
        assert !OccursAt(s, sep, j);
      }
    }
  }

  /** The first piece of a split is everything before the first separator. */
  lemma SplitHead(s: Bytes, sep: Bytes, i: nat)
    requires |sep| > 0
    requires IndexOf(s, sep) == Some(i)
    ensures Split(s, sep)[0] == s[..i]
  {
  }

  /** Splitting `a + [c] + b` on `c`, where `a` holds no `c`, peels off `a`. */
  lemma SplitByteCons(a: Bytes, c: byte, b: Bytes)
    requires forall i | 0 <= i < |a| :: a[i] != c
    ensures Split(a + [c] + b, [c]) == [a] + Split(b, [c])
  {
    var s := a + [c] + b;
    FirstByte(a, c, b);
    assert s[..|a|] == a;
    assert s[|a| + 1..] == b;
  }

  /** Splitting separator-free bytes yields them unchanged as the only piece. */
  lemma SplitFree(s: Bytes, sep: Bytes)
    requires |sep| > 0
    requires Free(s, sep)
    ensures Split(s, sep) == [s]
  {
  }

  /** Number of occurrences of the byte `c` in `s`. */
  function Count(s: Bytes, c: byte): (k: nat)
  {
    multiset(s)[c]
  }

  /** A byte that occurs in `s` is found by `IndexOf`, at or after the first place it occurs. */
  lemma CountedIsFound(s: Bytes, c: byte, i: nat)
    requires i < |s| && s[i] == c
    ensures IndexOf(s, [c]).Some? && IndexOf(s, [c]).value <= i
  {
    assert s[i..i + 1] == [c];
    assert OccursAt(s, [c], i);
  }

  /** Bytes without `c` count no `c`. */
  lemma LacksCountsZero(s: Bytes, c: byte)
    requires IndexOf(s, [c]).None?
    ensures Count(s, c) == 0
  {
    if c in multiset(s) {
      var i :| 0 <= i < |s| && s[i] == c;
      CountedIsFound(s, c, i);
    }
  }

  /** At the first `c`, `s` falls apart into bytes without `c`, the `c`, and the rest. */
  lemma FirstByteSplits(s: Bytes, c: byte, i: nat)
    requires IndexOf(s, [c]) == Some(i)
    ensures s == s[..i] + [c] + s[i + 1..]
    ensures Count(s[..i], c) == 0
  {
    assert s[i..i + 1] == [c];
    var head := s[..i];
    if c in multiset(head) {
      var j :| 0 <= j < i && head[j] == c;
      CountedIsFound(s, c, j);
    }
  }

  /** Splitting on a one-byte separator gives one more piece than there are separators. */
  lemma {:induction false} SplitByteCount(s: Bytes, c: byte)
    ensures |Split(s, [c])| == Count(s, c) + 1
    decreases |s|
  {
    match IndexOf(s, [c])
    case None =>
      LacksCountsZero(s, c);
    case Some(i) =>
      var head: Bytes, rest: Bytes := s[..i], s[i + 1..];
      FirstByteSplits(s, c, i);
      var one: Bytes := [c];
      assert multiset(s) == multiset(head) + multiset(one) + multiset(rest);
      assert Split(s, [c]) == [head] + Split(rest, [c]);
      SplitByteCount(rest, c);
  }

  /** Strips the leading bytes that belong to `cut` (Go's `strings.TrimLeft`). */
  function TrimLeft(s: Bytes, cut: Cut): (r: Bytes)
    ensures |r| <= |s| && r == s[|s| - |r|..]
    ensures forall i | 0 <= i < |s| - |r| :: cut.Has(s[i])
    ensures |r| > 0 ==> !cut.Has(r[0])
    decreases |s|
  {
    if |s| > 0 && cut.Has(s[0]) then TrimLeft(s[1..], cut) else s
  }

  /** Strips the trailing bytes that belong to `cut` (Go's `strings.TrimRight`). */
  function TrimRight(s: Bytes, cut: Cut): (r: Bytes)
    ensures |r| <= |s| && r == s[..|r|]
    ensures forall i | |r| <= i < |s| :: cut.Has(s[i])
    ensures |r| > 0 ==> !cut.Has(r[|r| - 1])
    decreases |s|
  {
    if |s| > 0 && cut.Has(s[|s| - 1]) then TrimRight(s[..|s| - 1], cut) else s
  }

  /** Strips leading and trailing ASCII white space (Go's `strings.TrimSpace`). */
  function TrimSpace(s: Bytes): (r: Bytes)
    ensures |r| <= |s|
    ensures |r| > 0 ==> !AsciiSpaces.Has(r[0]) && !AsciiSpaces.Has(r[|r| - 1])
  {
    TrimRight(TrimLeft(s, AsciiSpaces), AsciiSpaces)
  }

  /**
   `TrimSpace` keeps the middle of `s`: a window `s[i..j]` with only ASCII
   white space before and after it. With the ends of the result not white
   space, this fixes the result for every input.
   */
  lemma TrimSpaceWindow(s: Bytes)
    ensures exists i, j | 0 <= i <= j <= |s| ::
              && TrimSpace(s) == s[i..j]
              && (forall k | 0 <= k < i :: AsciiSpaces.Has(s[k]))
              && (forall k | j <= k < |s| :: AsciiSpaces.Has(s[k]))
  {
    var left := TrimLeft(s, AsciiSpaces);
    var r := TrimRight(left, AsciiSpaces);
    TrimWindow(s, left, r, AsciiSpaces);
    var i := |s| - |left|;
    assert TrimSpace(s) == s[i..i + |r|];
  }

  /** Cutting `i` bytes from the front of `s` and some more from the back leaves a window of `s`, with only cut bytes outside it. */
  lemma TrimWindow(s: Bytes, left: Bytes, r: Bytes, cut: Cut)
    requires |left| <= |s| && left == s[|s| - |left|..]
    requires forall k | 0 <= k < |s| - |left| :: cut.Has(s[k])
    requires |r| <= |left| && r == left[..|r|]
    requires forall k | |r| <= k < |left| :: cut.Has(left[k])
    ensures var i := |s| - |left|;
            && r == s[i..i + |r|]
            && forall k | i + |r| <= k < |s| :: cut.Has(s[k])
  {
    var i := |s| - |left|;
    forall k | i + |r| <= k < |s|
      ensures cut.Has(s[k])
    {
      assert s[k] == left[k - i];
    }
  }

  /** Bytes that neither start nor end with ASCII white space are their own trim. */
  lemma TrimSpaceTrimmed(s: Bytes)
    requires |s| > 0 ==> !AsciiSpaces.Has(s[0]) && !AsciiSpaces.Has(s[|s| - 1])
    ensures TrimSpace(s) == s
  {
    if |s| > 0 {
      TrimLeftStops(s, AsciiSpaces);
      TrimRightStops(s, AsciiSpaces);
    }
  }

  /** `TrimLeft` leaves alone bytes that do not start with a cut byte. */
  lemma TrimLeftStops(s: Bytes, cut: Cut)
    requires |s| > 0 && !cut.Has(s[0])
    ensures TrimLeft(s, cut) == s
  {
  }

  /** `TrimRight` leaves alone bytes that do not end with a cut byte. */
  lemma TrimRightStops(s: Bytes, cut: Cut)
    requires |s| > 0 && !cut.Has(s[|s| - 1])
    ensures TrimRight(s, cut) == s
  {
  }

  /** Leading ASCII white space does not survive `TrimSpace`. */
  lemma TrimSpaceLeading(w: Bytes, s: Bytes)
    requires forall i | 0 <= i < |w| :: AsciiSpaces.Has(w[i])
    ensures TrimSpace(w + s) == TrimSpace(s)
  {
    TrimLeftSkips(w, s, AsciiSpaces);
  }

  /** `TrimLeft` skips a prefix made of cut bytes. */
  lemma {:induction false} TrimLeftSkips(w: Bytes, s: Bytes, cut: Cut)
    requires forall i | 0 <= i < |w| :: cut.Has(w[i])
    ensures TrimLeft(w + s, cut) == TrimLeft(s, cut)
    decreases |w|
  {
    if |w| == 0 {
      assert w + s == s;
    } else {
      assert (w + s)[0] == w[0];
      assert (w + s)[1..] == w[1..] + s;
      TrimLeftSkips(w[1..], s, cut);
    }
  }

  /** ASCII lower-casing of one octet. */
  function LowerByte(c: byte): (lower: byte)
  {
    if 'A' <= c <= 'Z' then (c as int + 32) as char else c
  }

  /** No ASCII upper-case letter occurs in `s`. */
  predicate IsLowerCase(s: Bytes) {
    forall i | 0 <= i < |s| :: !('A' <= s[i] <= 'Z')
  }

  /**
   Go's `strings.ToLower` on ASCII: every upper-case letter becomes its
   lower-case partner and every other octet is kept.
   */
  function ToLower(s: Bytes): (r: Bytes)
    ensures |r| == |s|
    ensures IsLowerCase(r)
    ensures forall i | 0 <= i < |s| :: if 'A' <= s[i] <= 'Z' then r[i] as int == s[i] as int + 32 else r[i] == s[i]
  {
    seq(|s|, i requires 0 <= i < |s| => LowerByte(s[i]))
  }

  /** Lower-case bytes are left alone by `ToLower`, so `ToLower` is idempotent. */
  lemma ToLowerFixes(s: Bytes)
    requires IsLowerCase(s)
    ensures ToLower(s) == s
  {
  }

  /** Two keys that differ only in ASCII case lower-case to the same bytes. */
  lemma ToLowerIgnoresCase(a: Bytes, b: Bytes)
    requires |a| == |b|
    requires forall i | 0 <= i < |a| :: LowerByte(a[i]) == LowerByte(b[i])
    ensures ToLower(a) == ToLower(b)
  {
  }
}
