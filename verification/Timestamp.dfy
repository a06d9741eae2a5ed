/**
 * The SRT timestamp of a segment boundary, built by app.py from a time in
 * seconds with Python's float floor division, float modulo and `int()`:
 *
 *   {int(t//3600):02}:{int((t%3600)//60):02}:{int(t%60):02},000
 *
 * Times are exact reals here.  For a positive divisor, Python's `//` is the
 * floor of the quotient and `%` the remainder that goes with it; `int()`
 * truncates toward zero.
 */
module Timestamp {
  import opened Wrappers
  import opened Decimal

  /** Python's `x // d` on floats, for a positive divisor (an integral float). */
  function FloorDiv(x: real, d: real): real
    requires d > 0.0
  {
    (x / d).Floor as real
  }

  /** Python's `x % d` on floats, for a positive divisor: `x - d * (x // d)`. */
  function Mod(x: real, d: real): real
    requires d > 0.0
  {
    x - d * FloorDiv(x, d)
  }

  /** Python's `int(x)` on a float: truncation toward zero. */
  function Int(x: real): int
  {
    if x >= 0.0 then x.Floor else -((-x).Floor)
  }

  function Hours(t: real): int { Int(FloorDiv(t, 3600.0)) }

  function Minutes(t: real): int { Int(FloorDiv(Mod(t, 3600.0), 60.0)) }

  function Seconds(t: real): int { Int(Mod(t, 60.0)) }

  /** One timestamp of the timing line, milliseconds always the literal `000`. */
  function Format(t: real): (s: string)
    ensures |s| >= 12
  {
    Layout(PadTwo(Hours(t)), PadTwo(Minutes(t)), PadTwo(Seconds(t)))
  }

  function Layout(hh: string, mm: string, ss: string): string
  {
    hh + ":" + mm + ":" + ss + ",000"
  }

  /** The string contains neither a space nor a line break. */
  predicate NoSpaceOrBreak(s: string)
  {
    forall k :: 0 <= k < |s| ==> s[k] != ' ' && s[k] != '\n'
  }

  /** Reads a timestamp back as whole seconds: an hours field of any width
      (possibly negative), two-digit minutes and seconds below 60, `,000`. */
  function Parse(s: string): Option<int>
  {
    if |s| < 11 then None
    else
      var n := |s|;
      if s[n - 10] != ':' || s[n - 7] != ':' || s[n - 4..] != ",000" then None
      else
        match (ParseInt(s[..n - 10]), ParseNat(s[n - 9..n - 7]), ParseNat(s[n - 6..n - 4]))
        case (Some(h), Some(m), Some(sec)) =>
          if m < 60 && sec < 60 then Some(h * 3600 + m * 60 + sec) else None
        case _ => None
  }

  lemma FloorUnique(y: real, k: int)
    requires k as real <= y < k as real + 1.0
    ensures y.Floor == k
  {
  }

  /** Flooring a quotient by a positive whole number only needs the floor of
      the dividend. */
  lemma FloorOfQuotient(x: real, d: int)
    requires d > 0
    ensures (x / d as real).Floor == x.Floor / d
  {
    var n := x.Floor;
    var q := n / d;
    var y := x / d as real;
    assert n == q * d + n % d;
    assert y * d as real == x;
    assert (q as real) * (d as real) <= x;
    assert x < (q as real + 1.0) * (d as real);
    MulMonotone(q as real, y, d as real);
    MulMonotoneStrict(y, q as real + 1.0, d as real);
    FloorUnique(y, q);
  }

  lemma MulMonotone(a: real, b: real, d: real)
    requires d > 0.0 && a * d <= b * d
    ensures a <= b
  {
  }

  lemma MulMonotoneStrict(a: real, b: real, d: real)
    requires d > 0.0 && a * d < b * d
    ensures a < b
  {
  }

  /** Each field of the timestamp depends only on the whole seconds of `t`:
      hours `⌊t⌋ div 3600`, minutes `(⌊t⌋ mod 3600) div 60`, seconds
      `⌊t⌋ mod 60` (Euclidean, which for a positive divisor is Python's). */
  lemma Fields(t: real)
    ensures Hours(t) == t.Floor / 3600
    ensures Minutes(t) == (t.Floor % 3600) / 60
    ensures Seconds(t) == t.Floor % 60
  {
    var n := t.Floor;
    FloorOfQuotient(t, 3600);
    var h := n / 3600;
    assert FloorDiv(t, 3600.0) == h as real;
    assert Mod(t, 3600.0) == t - (3600 * h) as real;
    assert Mod(t, 3600.0).Floor == n % 3600;
    FloorOfQuotient(Mod(t, 3600.0), 60);
    FloorOfQuotient(t, 60);
    assert Mod(t, 60.0) == t - (60 * (n / 60)) as real;
    assert Mod(t, 60.0).Floor == n % 60;
  }

  /** The fields are a mixed-radix decomposition of the whole seconds:
      minutes and seconds lie in 0..59 and recombine to `⌊t⌋`. */
  lemma Decomposition(t: real)
    ensures 0 <= Minutes(t) < 60 && 0 <= Seconds(t) < 60
    ensures Hours(t) * 3600 + Minutes(t) * 60 + Seconds(t) == t.Floor
    ensures t >= 0.0 ==> Hours(t) >= 0
  {
    Fields(t);
    MixedRadix(t.Floor);
  }

  lemma MixedRadix(n: int)
    ensures 0 <= (n % 3600) / 60 < 60
    ensures (n / 3600) * 3600 + ((n % 3600) / 60) * 60 + n % 60 == n
    ensures n >= 0 ==> n / 3600 >= 0
  {
    var q, r := n / 3600, n % 3600;
    var m, s := r / 60, r % 60;
    assert n == 3600 * q + r && 0 <= r < 3600;
    assert r == 60 * m + s && 0 <= s < 60;
    assert n == 60 * (60 * q + m) + s;
    assert n % 60 == s;
  }

  /** Two times format alike exactly when they have the same whole seconds:
      the sub-second part is dropped and nothing else is. */
  lemma FormatDependsOnlyOnFloor(t: real, u: real)
    ensures Format(t) == Format(u) <==> t.Floor == u.Floor
  {
    Fields(t);
    Fields(u);
    if Format(t) == Format(u) {
      RoundTrip(t);
      RoundTrip(u);
    }
  }

  /** Where the three fields sit in a laid-out timestamp: the hours are
      everything before the last ten characters. */
  lemma LayoutSlices(hh: string, mm: string, ss: string)
    requires |mm| == 2 && |ss| == 2
    ensures var s := Layout(hh, mm, ss); var n := |s|;
      && n == |hh| + 10 && s[..n - 10] == hh && s[n - 10] == ':'
      && s[n - 9..n - 7] == mm && s[n - 7] == ':' && s[n - 6..n - 4] == ss
      && s[n - 4..] == ",000"
  {
    var s := Layout(hh, mm, ss);
    assert s == hh + (":" + mm + ":" + ss + ",000");
  }

  lemma LayoutNoSpaceOrBreak(hh: string, mm: string, ss: string)
    requires NoSpaceOrBreak(hh) && NoSpaceOrBreak(mm) && NoSpaceOrBreak(ss)
    ensures NoSpaceOrBreak(Layout(hh, mm, ss))
  {
  }

  lemma PadTwoNoSpaceOrBreak(n: int)
    ensures NoSpaceOrBreak(PadTwo(n))
  {
    if n < 0 {
      var d := Digits(-n);
      assert PadTwo(n) == "-" + d;
      assert forall k :: 1 <= k < |PadTwo(n)| ==> PadTwo(n)[k] == d[k - 1];
    }
  }

  /** Parse reads the three fields of a laid-out timestamp. */
  lemma ParseLayout(hh: string, mm: string, ss: string, h: int, m: nat, sec: nat)
    requires |mm| == 2 && |ss| == 2 && m < 60 && sec < 60
    requires ParseInt(hh) == Some(h) && ParseNat(mm) == Some(m) && ParseNat(ss) == Some(sec)
    ensures Parse(Layout(hh, mm, ss)) == Some(h * 3600 + m * 60 + sec)
  {
    LayoutSlices(hh, mm, ss);
  }

  /** Parsing a formatted timestamp recovers the whole seconds of the time. */
  lemma RoundTrip(t: real)
    ensures Parse(Format(t)) == Some(t.Floor)
  {
    Decomposition(t);
    var h, m, sec := Hours(t), Minutes(t), Seconds(t);
    PadTwoRoundTrip(h);
    PadTwoSmall(m);
    PadTwoSmall(sec);
    ParseLayout(PadTwo(h), PadTwo(m), PadTwo(sec), h, m, sec);
  }

  /** The hours field of a laid-out timestamp with a non-negative hour count. */
  lemma HoursField(h: nat, mm: string, ss: string)
    requires |mm| == 2 && |ss| == 2
    ensures var s := Layout(PadTwo(h), mm, ss); var hh := s[..|s| - 10];
      && |hh| == Max(2, |Digits(h)|) && AllDigits(hh) && Value(hh) == h
      && (h >= 100 ==> |hh| >= 3)
  {
    LayoutSlices(PadTwo(h), mm, ss);
    ZeroPadValue(h, 2);
    if h >= 100 {
      DigitsWidth(h, 2);
    }
  }

  /** Minutes and seconds are always exactly two digits, holding
      `(⌊t⌋ mod 3600) div 60` and `⌊t⌋ mod 60`, and the milliseconds are
      always `000`: whatever fraction `t` has is dropped. */
  lemma MinutesSecondsTwoDigits(t: real)
    ensures var s := Format(t); var n := |s|;
      && ParseNat(s[n - 9..n - 7]) == Some((t.Floor % 3600) / 60)
      && ParseNat(s[n - 6..n - 4]) == Some(t.Floor % 60)
      && s[n - 4..] == ",000"
  {
    Decomposition(t);
    Fields(t);
    PadTwoSmall(Minutes(t));
    PadTwoSmall(Seconds(t));
    LayoutSlices(PadTwo(Hours(t)), PadTwo(Minutes(t)), PadTwo(Seconds(t)));
  }

  /** For a non-negative time the hours field is a run of at least two
      digits holding the full hour count: never cut to two digits, so it
      is three digits or more from 360000 seconds (100 hours) on. */
  lemma HoursNotTruncated(t: real)
    requires t >= 0.0
    ensures var s := Format(t); var hh := s[..|s| - 10];
      && |hh| == Max(2, |Digits(t.Floor / 3600)|)
      && AllDigits(hh) && Value(hh) == t.Floor / 3600
      && (t >= 360000.0 ==> |hh| >= 3)
  {
    Decomposition(t);
    Fields(t);
    PadTwoSmall(Minutes(t));
    PadTwoSmall(Seconds(t));
    HoursField(t.Floor / 3600, PadTwo(Minutes(t)), PadTwo(Seconds(t)));
  }

  /** A timestamp contains neither a space nor a line break, so the timing
      line splits at its first space and ends at its first line break. */
  lemma FormatNoSpaceOrBreak(t: real)
    ensures NoSpaceOrBreak(Format(t))
  {
    PadTwoNoSpaceOrBreak(Hours(t));
    PadTwoNoSpaceOrBreak(Minutes(t));
    PadTwoNoSpaceOrBreak(Seconds(t));
    LayoutNoSpaceOrBreak(PadTwo(Hours(t)), PadTwo(Minutes(t)), PadTwo(Seconds(t)));
  }
}
