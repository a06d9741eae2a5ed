/**
 * Python's argument-less `str.strip()`, which removes from both ends every
 * character for which `str.isspace()` holds.
 */
module Text {

  /** `str.isspace()` for one character: the ASCII controls TAB..CR and
      FS..US, SPACE, NEL, NO-BREAK SPACE and the Unicode space separators,
      line separator and paragraph separator. */
  predicate IsSpace(c: char) {
    var k := c as int;
    (0x09 <= k <= 0x0D) || (0x1C <= k <= 0x20) || k == 0x85 || k == 0xA0
    || k == 0x1680 || (0x2000 <= k <= 0x200A) || k == 0x2028 || k == 0x2029
    || k == 0x202F || k == 0x205F || k == 0x3000
  }

  /** Number of whitespace characters at the start of `s`. */
  function LeadingSpace(s: string): (n: nat)
    ensures n <= |s|
    ensures forall k :: 0 <= k < n ==> IsSpace(s[k])
    ensures n < |s| ==> !IsSpace(s[n])
  {
    if s != [] && IsSpace(s[0]) then 1 + LeadingSpace(s[1..]) else 0
  }

  /** Number of whitespace characters at the end of `s`. */
  function TrailingSpace(s: string): (n: nat)
    ensures n <= |s|
    ensures forall k :: |s| - n <= k < |s| ==> IsSpace(s[k])
    ensures n < |s| ==> !IsSpace(s[|s| - 1 - n])
  {
    if s != [] && IsSpace(s[|s| - 1]) then 1 + TrailingSpace(s[..|s| - 1]) else 0
  }

  /** `s.strip()`: the leading whitespace is dropped, then the trailing
      whitespace of what remains; neither end of the result is whitespace. */
  function Strip(s: string): (r: string)
    ensures |r| <= |s|
    ensures r == [] || (!IsSpace(r[0]) && !IsSpace(r[|r| - 1]))
  {
    var rest := s[LeadingSpace(s)..];
    rest[..|rest| - TrailingSpace(rest)]
  }

  /** The slice `s[i..j]` is a trim of `s`: everything outside it is
      whitespace and it neither starts nor ends with whitespace. */
  predicate IsTrim(s: string, i: nat, j: nat)
    requires i <= j <= |s|
  {
    && (forall k :: 0 <= k < i ==> IsSpace(s[k]))
    && (forall k :: j <= k < |s| ==> IsSpace(s[k]))
    && (i == j || (!IsSpace(s[i]) && !IsSpace(s[j - 1])))
  }

  /** Strip returns a trim of its input ... */
  lemma StripIsTrim(s: string) returns (i: nat, j: nat)
    ensures i <= j <= |s| && IsTrim(s, i, j) && Strip(s) == s[i..j]
  {
    i := LeadingSpace(s);
    var rest := s[i..];
    j := i + |rest| - TrailingSpace(rest);
    assert Strip(s) == s[i..j];
    forall k | j <= k < |s| ensures IsSpace(s[k]) {
      assert s[k] == rest[k - i];
    }
  }

  /** ... and every trim of `s` is the result of Strip, so Strip is the
      unique trim (the empty ones all coincide). */
  lemma TrimIsStrip(s: string, i: nat, j: nat)
    requires i <= j <= |s| && IsTrim(s, i, j)
    ensures Strip(s) == s[i..j]
  {
    var i', j' := StripIsTrim(s);
  }

  /** Stripping twice is the same as stripping once. */
  lemma StripIdempotent(s: string)
    ensures Strip(Strip(s)) == Strip(s)
  {
    var r := Strip(s);
    TrimIsStrip(r, 0, |r|);
    assert r[0..|r|] == r;
  }
}
