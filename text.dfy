/** Stock optional value, used for lookups and for parsing that may fail. */
module Wrappers {
  datatype Option<+T> = None | Some(value: T)
}

/**
 * The character-level helpers the core relies on: the whitespace splitting
 * done by `fscanf("%s")` and by the query tokenizer, ASCII lower-casing
 * (`NormalizeWord`), and the decimal form of integers written by
 * `fprintf("%d")` and read back by `fscanf("%d")` and `atoi`.
 */
module Text {
  import opened Wrappers

  /** The characters `isspace` accepts in the C locale. */
  predicate IsSpace(c: char) {
    c == ' ' || c == '\t' || c == '\n' || c == '\r' || c == '\U{B}' || c == '\U{C}'
  }

  predicate IsDigit(c: char) {
    '0' <= c <= '9'
  }

  /** A token: a non-empty run of characters none of which is whitespace. */
  predicate IsWord(s: string) {
    |s| > 0 && forall i | 0 <= i < |s| :: !IsSpace(s[i])
  }

  predicate AllDigits(s: string) {
    forall i | 0 <= i < |s| :: IsDigit(s[i])
  }

  /** Number of leading characters of `s` that are not whitespace. */
  function Span(s: string): (n: nat)
    ensures n <= |s|
    ensures forall i | 0 <= i < n :: !IsSpace(s[i])
    ensures n < |s| ==> IsSpace(s[n])
  {
    if s == [] || IsSpace(s[0]) then 0 else 1 + Span(s[1..])
  }

  /** The whitespace-separated tokens of `s`, in order. */
  function Tokens(s: string): (ts: seq<string>)
    ensures forall k | 0 <= k < |ts| :: IsWord(ts[k])
    decreases |s|
  {
    if s == [] then []
    else if IsSpace(s[0]) then Tokens(s[1..])
    else
      var n := Span(s);
      [s[..n]] + Tokens(s[n..])
  }

  /** A token followed by a separator is read back as that token. */
  lemma TokensOfWord(w: string, sep: char, rest: string)
    requires IsWord(w) && IsSpace(sep)
    ensures Tokens(w + [sep] + rest) == [w] + Tokens(rest)
  {
    var s := w + [sep] + rest;
    SpanOfWord(w, sep, rest);
    assert s[..|w|] == w;
    assert s[|w|..] == [sep] + rest;
    assert ([sep] + rest)[1..] == rest;
  }

  lemma SpanOfWord(w: string, sep: char, rest: string)
    requires IsWord(w) && IsSpace(sep)
    ensures Span(w + [sep] + rest) == |w|
  {
    var s := w + [sep] + rest;
    assert s[|w|] == sep;
    assert forall i | 0 <= i < |w| :: s[i] == w[i];
  }

  /** Leading whitespace is skipped. */
  lemma TokensOfSpace(sep: char, rest: string)
    requires IsSpace(sep)
    ensures Tokens([sep] + rest) == Tokens(rest)
  {
    assert ([sep] + rest)[1..] == rest;
  }

  /** ASCII lower-casing of one character. */
  function LowerChar(c: char): char {
    if IsUpper(c) then (c as int + 32) as char else c
  }

  predicate IsUpper(c: char) {
    'A' <= c <= 'Z'
  }

  /**
   * `NormalizeWord`: no upper-case ASCII letter is left, each one having
   * become the letter 32 code points above it, and every other character
   * stays where it was.
   */
  function Lower(s: string): (r: string)
    ensures |r| == |s|
    ensures forall i | 0 <= i < |r| :: !IsUpper(r[i])
    ensures forall i | 0 <= i < |s| && !IsUpper(s[i]) :: r[i] == s[i]
    ensures forall i | 0 <= i < |s| && IsUpper(s[i]) :: r[i] as int == s[i] as int + 32
  {
    seq(|s|, i requires 0 <= i < |s| => LowerChar(s[i]))
  }

  /** A word already normalized is left as it is by a second normalization. */
  lemma {:induction false} LowerIdempotent(s: string)
    ensures Lower(Lower(s)) == Lower(s)
  {
    var l := Lower(s);
    forall i | 0 <= i < |l| ensures Lower(l)[i] == l[i] {
      assert !IsUpper(l[i]);
    }
  }

  /** The digit character of a value 0..9. */
  function DigitChar(d: nat): (c: char)
    requires d < 10
    ensures IsDigit(c)
  {
    ('0' as int + d) as char
  }

  function DigitValue(c: char): (d: nat)
    requires IsDigit(c)
    ensures d < 10
    ensures DigitChar(d) == c
  {
    c as int - '0' as int
  }

  /** The decimal numeral of `n`, most significant digit first, no leading zero. */
  function NatToDec(n: nat): (s: string)
    ensures |s| > 0 && AllDigits(s)
    decreases n
  {
    if n < 10 then [DigitChar(n)] else NatToDec(n / 10) + [DigitChar(n % 10)]
  }

  /** The value of a numeral; leading zeros are allowed, as for `%d` and `atoi`. */
  function DecToNat(s: string): nat
    requires AllDigits(s)
    decreases |s|
  {
    if s == [] then 0 else DecToNat(s[..|s| - 1]) * 10 + DigitValue(s[|s| - 1])
  }

  lemma {:induction false} DecNatRoundTrip(n: nat)
    ensures DecToNat(NatToDec(n)) == n
    decreases n
  {
    var s := NatToDec(n);
    if n < 10 {
      assert s[..0] == [];
    } else {
      DecNatRoundTrip(n / 10);
      assert s[..|s| - 1] == NatToDec(n / 10);
    }
  }

  /** What `%d` prints. */
  function IntToDec(i: int): (s: string)
    ensures IsWord(s)
  {
    if i < 0 then "-" + NatToDec(-i) else NatToDec(i)
  }

  /** What `%d` reads from a whole token: an optional sign and at least one digit. */
  function ParseInt(t: string): Option<int> {
    if |t| > 1 && t[0] == '-' && AllDigits(t[1..]) then Some(-(DecToNat(t[1..]) as int))
    else if |t| > 1 && t[0] == '+' && AllDigits(t[1..]) then Some(DecToNat(t[1..]))
    else if |t| > 0 && AllDigits(t) then Some(DecToNat(t))
    else None
  }

  /** Reading back what `%d` printed gives the same integer. */
  lemma IntRoundTrip(i: int)
    ensures ParseInt(IntToDec(i)) == Some(i)
  {
    if i < 0 {
      NegativeRoundTrip(i);
    } else {
      NaturalRoundTrip(i);
    }
  }

  lemma NegativeRoundTrip(i: int)
    requires i < 0
    ensures ParseInt(IntToDec(i)) == Some(i)
  {
    var d := NatToDec(-i);
    var s := "-" + d;
    assert s == IntToDec(i);
    assert |s| > 1 && s[0] == '-' && s[1..] == d;
    DecNatRoundTrip(-i);
  }

  lemma NaturalRoundTrip(i: int)
    requires i >= 0
    ensures ParseInt(IntToDec(i)) == Some(i)
  {
    var s := NatToDec(i);
    assert IsDigit(s[0]);
    DecNatRoundTrip(i);
  }
}
