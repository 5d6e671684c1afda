/**
  Decimal rendering and decoding of unsigned 64-bit values, as the channel's
  wire format uses them: `uint64_to_string` on the producer side (which formats
  with "%llu") and `std::stoull` on the consumer side, both specified here as
  plain base-10 positional notation.
*/
module Decimal {
  import opened Wrappers

  /** MAX_TOKEN_LENGTH: the decimal length of 2^64 - 1. */
  const MaxTokenLength: nat := 20

  /** The largest value of `uint64_t`. */
  const Uint64Max: nat := 0xFFFF_FFFF_FFFF_FFFF

  /** `isdigit` in the C locale. */
  predicate IsDigit(c: char) {
    '0' <= c <= '9'
  }

  predicate AllDigits(s: seq<char>) {
    forall i :: 0 <= i < |s| ==> IsDigit(s[i])
  }

  function DigitValue(c: char): (d: nat)
    requires IsDigit(c)
    ensures d < 10
  {
    c as int - '0' as int
  }

  function DigitChar(d: nat): (c: char)
    requires d < 10
    ensures IsDigit(c) && DigitValue(c) == d
  {
    (d + '0' as int) as char
  }

  function Pow10(e: nat): (p: nat)
    ensures p >= 1
  {
    if e == 0 then 1 else 10 * Pow10(e - 1)
  }

  /** The value a string of decimal digits denotes (most significant first). */
  function Value(s: seq<char>): nat
    requires AllDigits(s)
  {
    if s == [] then 0 else Value(s[..|s| - 1]) * 10 + DigitValue(s[|s| - 1])
  }

  /** The shortest decimal rendering of `v`, as "%llu" prints it. */
  function Render(v: nat): (s: seq<char>)
    ensures |s| >= 1 && AllDigits(s)
    ensures |s| > 1 ==> s[0] != '0'
  {
    if v < 10 then [DigitChar(v)] else Render(v / 10) + [DigitChar(v % 10)]
  }

  /** A digit string without superfluous leading zeros: what `Render` produces. */
  predicate Canonical(s: seq<char>) {
    |s| >= 1 && AllDigits(s) && (|s| > 1 ==> s[0] != '0')
  }

  /**
    `uint64_to_string`: render with "%llu" into a 21-byte buffer and fall back
    to "1" when the rendering is longer than MAX_TOKEN_LENGTH.
  */
  function Uint64ToString(num: nat): (s: seq<char>)
    requires num <= Uint64Max
    ensures Canonical(s) && |s| <= MaxTokenLength
  {
    var rendered := Render(num);
    if |rendered| > MaxTokenLength then "1" else rendered
  }

  /**
    The consumer's treatment of a closed token: the all-digit check, the
    length check against MAX_TOKEN_LENGTH, then `std::stoull`, which fails on
    an empty string and on a value above 2^64 - 1.
  */
  function ParseToken(token: seq<char>): (r: Option<nat>)
    ensures r.Some? ==> AllDigits(token) && 1 <= |token| <= MaxTokenLength && r.value <= Uint64Max
  {
    if !AllDigits(token) || |token| > MaxTokenLength then None
    else if token == [] || Value(token) > Uint64Max then None
    else Some(Value(token))
  }

  /** Decoding the rendering of any value gives back that value. */
  lemma {:induction false} ValueOfRender(v: nat)
    ensures Value(Render(v)) == v
  {
    if v >= 10 {
      var s := Render(v);
      assert s[..|s| - 1] == Render(v / 10);
      ValueOfRender(v / 10);
    }
  }

  /** A digit string of length e that does not start with '0' denotes at least 10^(e-1). */
  lemma {:induction false} LeadingDigitValue(s: seq<char>)
    requires AllDigits(s) && |s| >= 1 && s[0] != '0'
    ensures Value(s) >= Pow10(|s| - 1)
  {
    if |s| > 1 {
      var p := s[..|s| - 1];
      assert p[0] == s[0];
      LeadingDigitValue(p);
      assert Pow10(|s| - 1) == 10 * Pow10(|p| - 1);
    }
  }

  /** Rendering the value of a canonical digit string gives back that string. */
  lemma {:induction false} RenderOfValue(s: seq<char>)
    requires Canonical(s)
    ensures Render(Value(s)) == s
  {
    if |s| > 1 {
      var p := s[..|s| - 1];
      var d := DigitValue(s[|s| - 1]);
      assert p[0] == s[0];
      LeadingDigitValue(p);
      assert Value(s) == Value(p) * 10 + d;
      assert Value(s) / 10 == Value(p) && Value(s) % 10 == d;
      RenderOfValue(p);
      assert DigitChar(d) == s[|s| - 1];
      assert s == p + [s[|s| - 1]];
    } else {
      assert DigitChar(DigitValue(s[0])) == s[0];
    }
  }

  /** A digit string of length `e` denotes less than 10^e. */
  lemma {:induction false} ValueBelowPow10(s: seq<char>)
    requires AllDigits(s)
    ensures Value(s) < Pow10(|s|)
  {
    if s != [] {
      ValueBelowPow10(s[..|s| - 1]);
    }
  }

  /** A value below 10^e renders in at most e digits. */
  lemma {:induction false} RenderLength(v: nat, e: nat)
    requires 1 <= e && v < Pow10(e)
    ensures |Render(v)| <= e
  {
    if v >= 10 {
      assert e > 1;
      assert v / 10 < Pow10(e - 1);
      RenderLength(v / 10, e - 1);
    }
  }

  lemma Pow10Values()
    ensures Pow10(19) == 10_000_000_000_000_000_000
    ensures Pow10(20) == 100_000_000_000_000_000_000
  {
    assert Pow10(1) == 10;
    assert Pow10(2) == 100;
    assert Pow10(3) == 1000;
    assert Pow10(4) == 10000;
    assert Pow10(5) == 100000;
    assert Pow10(6) == 1000000;
    assert Pow10(7) == 10000000;
    assert Pow10(8) == 100000000;
    assert Pow10(9) == 1000000000;
    assert Pow10(10) == 10000000000;
    assert Pow10(11) == 100000000000;
    assert Pow10(12) == 1000000000000;
    assert Pow10(13) == 10000000000000;
    assert Pow10(14) == 100000000000000;
    assert Pow10(15) == 1000000000000000;
    assert Pow10(16) == 10000000000000000;
    assert Pow10(17) == 100000000000000000;
    assert Pow10(18) == 1000000000000000000;
    assert Pow10(19) == 10000000000000000000;
    assert Pow10(20) == 100000000000000000000;
  }

  /**
    Every 64-bit value renders in at most MAX_TOKEN_LENGTH digits, so the
    "1" fallback of `uint64_to_string` is never taken.
  */
  lemma RenderFitsToken(num: nat)
    requires num <= Uint64Max
    ensures |Render(num)| <= MaxTokenLength
    ensures Uint64ToString(num) == Render(num)
  {
    Pow10Values();
    RenderLength(num, 20);
  }

  /** Round trip: the consumer decodes every token a producer writes to its value. */
  lemma ParseUint64ToString(num: nat)
    requires num <= Uint64Max
    ensures ParseToken(Uint64ToString(num)) == Some(num)
  {
    RenderFitsToken(num);
    ValueOfRender(num);
  }

  /** Round trip the other way: an accepted canonical token is reproduced by rendering. */
  lemma Uint64ToStringOfParse(token: seq<char>)
    requires Canonical(token) && ParseToken(token).Some?
    ensures ParseToken(token).value <= Uint64Max
    ensures Uint64ToString(ParseToken(token).value) == token
  {
    RenderOfValue(token);
    RenderFitsToken(Value(token));
  }

  /**
    What `ParseToken` accepts: exactly the non-empty all-digit tokens of at
    most 20 digits whose value fits in 64 bits; every token of 1 to 19 digits
    fits, so only a 20-digit token can be refused for its value.
  */
  lemma ParseTokenAccepts(token: seq<char>)
    ensures ParseToken(token).Some? <==>
      (AllDigits(token) && 1 <= |token| <= MaxTokenLength && Value(token) <= Uint64Max)
    ensures ParseToken(token).Some? ==> ParseToken(token).value <= Uint64Max
    ensures AllDigits(token) && 1 <= |token| < MaxTokenLength ==> ParseToken(token).Some?
  {
    if AllDigits(token) && 1 <= |token| < MaxTokenLength {
      ValueBelowPow10(token);
      Pow10Values();
      assert Pow10(|token|) <= Pow10(19) by { Pow10Monotone(|token|, 19); }
    }
  }

  lemma {:induction false} Pow10Monotone(a: nat, b: nat)
    requires a <= b
    ensures Pow10(a) <= Pow10(b)
  {
    if a < b {
      Pow10Monotone(a, b - 1);
    }
  }
}
