/** Optional values, for the parsers that read the generated text back. */
module Wrappers {
  datatype Option<+T> = None | Some(value: T)
}

/**
 * Decimal rendering of integers as Python's format mini-language does it:
 * `f"{i}"` (no padding), `f"{n:02}"` (sign-aware zero padding to width 2)
 * and the zero-padded fields of `strftime`.  The parsing functions are the
 * partners the round-trip lemmas are stated against.
 */
module Decimal {
  import opened Wrappers

  predicate IsDigit(c: char) { '0' <= c <= '9' }

  predicate AllDigits(s: seq<char>) { forall k :: 0 <= k < |s| ==> IsDigit(s[k]) }

  function DigitChar(d: nat): (c: char)
    requires d < 10
    ensures IsDigit(c) && c as int - '0' as int == d
  {
    ('0' as int + d) as char
  }

  function DigitValue(c: char): (d: nat)
    requires IsDigit(c)
    ensures d < 10
  {
    c as int - '0' as int
  }

  /** `str(n)` for a natural number: the shortest decimal rendering. */
  function Digits(n: nat): (s: seq<char>)
    ensures |s| >= 1 && AllDigits(s)
  {
    if n < 10 then [DigitChar(n)] else Digits(n / 10) + [DigitChar(n % 10)]
  }

  /** The number a string of decimal digits denotes (most significant first). */
  function Value(s: seq<char>): nat
    requires AllDigits(s)
  {
    if s == [] then 0 else Value(s[..|s| - 1]) * 10 + DigitValue(s[|s| - 1])
  }

  function Pow10(k: nat): (p: nat)
    ensures p >= 1
  {
    if k == 0 then 1 else 10 * Pow10(k - 1)
  }

  function Max(a: nat, b: nat): nat { if a < b then b else a }

  /** Zero-pads the rendering of `n` on the left to at least `width` characters. */
  function ZeroPad(n: nat, width: nat): (s: seq<char>)
    ensures AllDigits(s) && |s| == Max(width, |Digits(n)|)
  {
    if width <= |Digits(n)| then Digits(n) else "0" + ZeroPad(n, width - 1)
  }

  /** `f"{n:02}"`: width 2 with sign-aware zero padding, so a negative number
      is its minus sign followed by its magnitude (already two characters). */
  function PadTwo(n: int): (s: seq<char>)
    ensures |s| >= 2
    ensures n >= 0 ==> AllDigits(s)
  {
    if n >= 0 then ZeroPad(n, 2) else "-" + Digits(-n)
  }

  /** Reads a non-empty run of decimal digits. */
  function ParseNat(s: seq<char>): (r: Option<nat>)
    ensures r.Some? <==> s != [] && AllDigits(s)
  {
    if s != [] && AllDigits(s) then Some(Value(s)) else None
  }

  /** Reads an optionally negative integer: a `-` followed by digits, or digits. */
  function ParseInt(s: seq<char>): (r: Option<int>)
    ensures r.Some? && r.value < 0 ==> s != [] && s[0] == '-'
  {
    if s != [] && s[0] == '-' then
      match ParseNat(s[1..])
      case Some(v) => Some(-(v as int))
      case None => None
    else
      match ParseNat(s)
      case Some(v) => Some(v)
      case None => None
  }

  lemma {:induction false} ValueOfDigits(n: nat)
    ensures Value(Digits(n)) == n
  {
    if n >= 10 {
      var d := Digits(n);
      assert d[..|d| - 1] == Digits(n / 10);
      ValueOfDigits(n / 10);
    }
  }

  /** A leading zero does not change the value of a digit string. */
  lemma {:induction false} ValueLeadingZero(s: seq<char>)
    requires AllDigits(s)
    ensures AllDigits("0" + s) && Value("0" + s) == Value(s)
  {
    if s != [] {
      var init := s[..|s| - 1];
      assert ("0" + s)[..|s|] == "0" + init;
      ValueLeadingZero(init);
    }
  }

  lemma {:induction false} ZeroPadValue(n: nat, width: nat)
    ensures Value(ZeroPad(n, width)) == n
  {
    if width <= |Digits(n)| {
      ValueOfDigits(n);
    } else {
      ZeroPadValue(n, width - 1);
      ValueLeadingZero(ZeroPad(n, width - 1));
    }
  }

  /** A rendering is at most `k` digits long exactly when the number is below 10^k. */
  lemma {:induction false} DigitsWidth(n: nat, k: nat)
    requires k >= 1
    ensures |Digits(n)| <= k <==> n < Pow10(k)
  {
    if n >= 10 {
      if k == 1 {
        assert |Digits(n)| == |Digits(n / 10)| + 1;
      } else {
        DigitsWidth(n / 10, k - 1);
      }
    } else if k > 1 {
      assert Pow10(k) == 10 * Pow10(k - 1);
    }
  }

  /** The `:02` rendering is read back by ParseInt, whatever the sign. */
  lemma PadTwoRoundTrip(n: int)
    ensures ParseInt(PadTwo(n)) == Some(n)
  {
    if n >= 0 {
      ZeroPadValue(n, 2);
      assert IsDigit(PadTwo(n)[0]);
    } else {
      ValueOfDigits(-n);
      assert PadTwo(n)[1..] == Digits(-n);
    }
  }

  /** A value below 100 renders as exactly two digits that read back to it. */
  lemma PadTwoSmall(n: nat)
    requires n < 100
    ensures |PadTwo(n)| == 2 && AllDigits(PadTwo(n))
    ensures ParseNat(PadTwo(n)) == Some(n)
  {
    DigitsWidth(n, 2);
    ZeroPadValue(n, 2);
  }
}
