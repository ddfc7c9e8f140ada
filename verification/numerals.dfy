/**
 Integer formatting and parsing as the HTTP layer uses it: Go's `%d` (and
 `strconv.Itoa`) for status codes and `Content-Length`, `%x` for chunk sizes,
 and `strconv.Atoi` for reading `Content-Length` back.
 */
module Numerals {
  import opened Wrappers
  import opened Bytes

  /** The digit for `d` in Go's `%d` and `%x` verbs: `0`-`9`, then lower-case `a`-`f`. */
  function DigitChar(d: nat): (c: byte)
    requires d < 16
    ensures '0' <= c <= '9' || 'a' <= c <= 'f'
  {
    if d < 10 then ('0' as int + d) as char else ('a' as int + d - 10) as char
  }

  /** The digit value of `c` in `base`, if `c` is a digit of that base (decimal or lower-case hexadecimal). */
  function DigitValue(c: byte, base: nat): (d: Option<nat>)
    requires base == 10 || base == 16
    ensures d.Some? ==> d.value < base && DigitChar(d.value) == c
    ensures d.None? ==> forall k | 0 <= k < base :: DigitChar(k) != c
  {
    if '0' <= c <= '9' then Some(c as int - '0' as int)
    else if base == 16 && 'a' <= c <= 'f' then Some(c as int - 'a' as int + 10)
    else None
  }

  /** Every byte of `s` is a digit of `base`. */
  predicate AllDigits(s: Bytes, base: nat)
    requires base == 10 || base == 16
  {
    forall i | 0 <= i < |s| :: DigitValue(s[i], base).Some?
  }

  /** The value of a digit string read most significant digit first. */
  function Value(s: Bytes, base: nat): (v: nat)
    requires base == 10 || base == 16
    requires AllDigits(s, base)
    decreases |s|
  {
    if |s| == 0 then 0
    else Value(s[..|s| - 1], base) * base + DigitValue(s[|s| - 1], base).value
  }

  /**
   The shortest numeral of `n` in `base`: digits from the alphabet only, no
   leading zero, and `"0"` for zero.
   */
  function Numeral(n: nat, base: nat): (s: Bytes)
    requires base == 10 || base == 16
    ensures |s| > 0
    ensures AllDigits(s, base)
    ensures s[0] == '0' <==> n == 0
    ensures n == 0 ==> s == "0"
    decreases n
  {
    if n < base then [DigitChar(n)]
    else Numeral(n / base, base) + [DigitChar(n % base)]
  }

  /** Reading a numeral back gives the number it was made from. */
  lemma {:induction false} NumeralValue(n: nat, base: nat)
    requires base == 10 || base == 16
    ensures Value(Numeral(n, base), base) == n
    decreases n
  {
    var s := Numeral(n, base);
    if n < base {
      assert s[..0] == [];
    } else {
      var p := Numeral(n / base, base);
      assert s[..|s| - 1] == p;
      assert DigitValue(s[|s| - 1], base) == Some(n % base);
      NumeralValue(n / base, base);
      assert (n / base) * base + n % base == n;
    }
  }

  /** Go's `%x` of a length: lower-case hexadecimal without leading zeros. */
  function Hex(n: nat): (s: Bytes)
    ensures |s| > 0 && AllDigits(s, 16)
    ensures forall i | 0 <= i < |s| :: !('A' <= s[i] <= 'Z')
    ensures s[0] == '0' ==> s == "0"
    ensures Value(s, 16) == n
  {
    NumeralValue(n, 16);
    Numeral(n, 16)
  }

  /** Go's `%d` (and `strconv.Itoa`): a minus sign for negative values, then the decimal numeral. */
  function Decimal(n: int): (s: Bytes)
    ensures |s| > 0
    ensures n >= 0 ==> AllDigits(s, 10) && Value(s, 10) == n
    ensures n < 0 ==> s[0] == '-' && AllDigits(s[1..], 10) && Value(s[1..], 10) == -n
  {
    if n < 0 then
      NumeralValue(-n, 10);
      var digits := Numeral(-n, 10);
      assert ("-" + digits)[1..] == digits;
      "-" + digits
    else
      NumeralValue(n, 10);
      Numeral(n, 10)
  }

  /** The syntax `strconv.Atoi` accepts: an optional `+` or `-`, then one or more decimal digits. */
  predicate IntegerSyntax(s: Bytes) {
    && |s| > 0
    && if s[0] == '+' || s[0] == '-' then |s| > 1 && AllDigits(s[1..], 10) else AllDigits(s, 10)
  }

  /**
   Go's `strconv.Atoi`, read digit by digit. Values are unbounded here, so
   the range error for numbers beyond 64 bits does not arise.
   */
  function Atoi(s: Bytes): (r: Option<int>)
    ensures r.Some? <==> IntegerSyntax(s)
    ensures r.Some? && s[0] == '-' ==> r.value == -(Value(s[1..], 10) as int)
    ensures r.Some? && s[0] == '+' ==> r.value == Value(s[1..], 10)
    ensures r.Some? && s[0] != '+' && s[0] != '-' ==> r.value == Value(s, 10)
  {
    if |s| == 0 then None
    else if s[0] == '-' then
      match Unsigned(s[1..]) case Some(v) => Some(-(v as int)) case None => None
    else if s[0] == '+' then Unsigned(s[1..])
    else Unsigned(s)
  }

  /** The value of a non-empty run of decimal digits, accumulated left to right as Go's loop does. */
  function Unsigned(s: Bytes): (r: Option<nat>)
    ensures r.Some? <==> |s| > 0 && AllDigits(s, 10)
    ensures r.Some? ==> r.value == Value(s, 10)
  {
    if |s| == 0 then None else Accumulate(s, 0, 0)
  }

  /** Go's `n = n*10 + d` loop from index `i` with the running value `acc` of `s[..i]`. */
  function Accumulate(s: Bytes, i: nat, acc: nat): (r: Option<nat>)
    requires i <= |s|
    requires AllDigits(s[..i], 10) && acc == Value(s[..i], 10)
    ensures r.Some? <==> AllDigits(s, 10)
    ensures r.Some? ==> r.value == Value(s, 10)
    decreases |s| - i
  {
    if i == |s| then
      assert s[..i] == s;
      Some(acc)
    else
      match DigitValue(s[i], 10)
      case None => None
      case Some(d) =>
        assert s[..i + 1][..i] == s[..i];
        Accumulate(s, i + 1, acc * 10 + d)
  }

  /** Go's `Atoi` result with the error discarded (`n, _ := strconv.Atoi(s)`): zero on a syntax error. */
  function AtoiOrZero(s: Bytes): (v: int)
  {
    match Atoi(s)
    case Some(v) => v
    case None => 0
  }

  /** `Atoi` reads back what `%d` writes: the `Content-Length` a server emits is the one a parser reads. */
  lemma AtoiDecimal(n: int)
    ensures Atoi(Decimal(n)) == Some(n)
  {
    var s := Decimal(n);
    assert DigitValue(s[0], 10).Some? || s[0] == '-';
  }

  /** `Atoi` also accepts an explicit plus sign in front of a decimal numeral. */
  lemma AtoiPlus(n: nat)
    ensures Atoi("+" + Decimal(n)) == Some(n)
  {
    var s := "+" + Decimal(n);
    assert s[1..] == Decimal(n);
  }
}
