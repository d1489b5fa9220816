/** Character-level string operations the prose heuristic relies on:
    Python's `str.strip()` with no argument and `str.isalpha()`. */
module Text {

  /** Python's `str.isspace()`: the characters `str.strip()` removes
      (bidirectional class WS, B or S, or general category Zs). */
  predicate IsSpace(c: char)
  {
    ('\t' <= c <= '\r')                      // tab, line feed, vertical tab, form feed, carriage return
    || ('\U{1C}' <= c <= '\U{1F}')           // file, group, record and unit separators
    || c == ' '
    || c == '\U{85}' || c == '\U{A0}' || c == '\U{1680}'
    || ('\U{2000}' <= c <= '\U{200A}')
    || c == '\U{2028}' || c == '\U{2029}' || c == '\U{202F}' || c == '\U{205F}'
    || c == '\U{3000}'
  }

  /** True when neither end of `s` is whitespace. */
  predicate NoEdgeSpace(s: string)
  {
    s == [] || (!IsSpace(s[0]) && !IsSpace(s[|s| - 1]))
  }

  /** `s` with its leading whitespace removed. */
  function StripStart(s: string): (r: string)
    ensures |r| <= |s|
  {
    if s != [] && IsSpace(s[0]) then StripStart(s[1..]) else s
  }

  /** `StripStart` keeps a suffix of `s` that does not start with
      whitespace, and everything it cuts off is whitespace. */
  lemma {:induction false} StripStartShape(s: string)
    ensures StripStart(s) == s[|s| - |StripStart(s)|..]
    ensures StripStart(s) == [] || !IsSpace(StripStart(s)[0])
    ensures forall k | 0 <= k < |s| - |StripStart(s)| :: IsSpace(s[k])
  {
    if s != [] && IsSpace(s[0]) {
      StripStartShape(s[1..]);
      assert forall k | 1 <= k < |s| :: s[k] == s[1..][k - 1];
    }
  }

  /** `s` with its trailing whitespace removed. */
  function StripEnd(s: string): (r: string)
    ensures |r| <= |s|
  {
    if s != [] && IsSpace(s[|s| - 1]) then StripEnd(s[..|s| - 1]) else s
  }

  /** `StripEnd` keeps a prefix of `s` that does not end with whitespace,
      and everything it cuts off is whitespace. */
  lemma {:induction false} StripEndShape(s: string)
    ensures StripEnd(s) == s[..|StripEnd(s)|]
    ensures StripEnd(s) == [] || !IsSpace(StripEnd(s)[|StripEnd(s)| - 1])
    ensures forall k | |StripEnd(s)| <= k < |s| :: IsSpace(s[k])
  {
    if s != [] && IsSpace(s[|s| - 1]) {
      StripEndShape(s[..|s| - 1]);
    }
  }

  /** Python's `s.strip()`. */
  function Strip(s: string): (r: string)
    ensures |r| <= |s|
  {
    StripEnd(StripStart(s))
  }

  /** A prefix of a suffix is a slice. */
  lemma PrefixOfSuffix(s: string, i: nat, n: nat)
    requires i + n <= |s|
    ensures s[i..][..n] == s[i..i + n]
    ensures forall k | i + n <= k < |s| :: s[k] == s[i..][k - i]
  {
  }

  /** Strip cuts `s` into whitespace, the result, and whitespace, in that
      order. */
  lemma StripIsSlice(s: string) returns (i: nat)
    ensures i + |Strip(s)| <= |s|
    ensures Strip(s) == s[i..i + |Strip(s)|]
    ensures forall k | 0 <= k < i :: IsSpace(s[k])
    ensures forall k | i + |Strip(s)| <= k < |s| :: IsSpace(s[k])
  {
    var t := StripStart(s);
    i := |s| - |t|;
    var r := StripEnd(t);
    StripStartShape(s);
    StripEndShape(t);
    PrefixOfSuffix(s, i, |r|);
    forall k | i + |r| <= k < |s|
      ensures IsSpace(s[k])
    {
      assert |r| <= k - i < |t|;
    }
  }

  /** Neither end of a stripped string is whitespace. */
  lemma StripNoEdgeSpace(s: string)
    ensures NoEdgeSpace(Strip(s))
  {
    var t := StripStart(s);
    var r := StripEnd(t);
    assert Strip(s) == r;
    StripStartShape(s);
    StripEndShape(t);
    assert r != [] ==> r[0] == t[0];
  }

  /** Strip leaves nothing exactly when the string is all whitespace. */
  lemma StripEmpty(s: string)
    ensures Strip(s) == [] <==> forall k | 0 <= k < |s| :: IsSpace(s[k])
  {
    var i := StripIsSlice(s);
    StripNoEdgeSpace(s);
    if Strip(s) != [] {
      assert s[i] == Strip(s)[0];
    }
  }

  /** A string that neither starts nor ends with whitespace is its own strip. */
  lemma StripNoEdge(s: string)
    requires NoEdgeSpace(s)
    ensures Strip(s) == s
  {
    assert StripStart(s) == s;
    assert StripEnd(s) == s;
  }

  /** Stripping twice is stripping once. */
  lemma StripIdempotent(s: string)
    ensures Strip(Strip(s)) == Strip(s)
  {
    StripNoEdgeSpace(s);
    StripNoEdge(Strip(s));
  }

  /** Python's `str.isalpha()` on one character, restricted to ASCII letters. */
  predicate IsAlpha(c: char)
  {
    ('a' <= c <= 'z') || ('A' <= c <= 'Z')
  }

  /** `sum(c.isalpha() for c in s)`: the number of letters in `s`. */
  function CountAlpha(s: string): (n: nat)
    ensures n <= |s|
  {
    if s == [] then 0 else (if IsAlpha(s[0]) then 1 else 0) + CountAlpha(s[1..])
  }

  /** The letter count is the length exactly when every character is a
      letter, and zero exactly when none is. */
  lemma {:induction false} CountAlphaExtremes(s: string)
    ensures CountAlpha(s) == |s| <==> forall k | 0 <= k < |s| :: IsAlpha(s[k])
    ensures CountAlpha(s) == 0 <==> forall k | 0 <= k < |s| :: !IsAlpha(s[k])
  {
    if s != [] {
      CountAlphaExtremes(s[1..]);
      assert forall k | 1 <= k < |s| :: s[k] == s[1..][k - 1];
    }
  }
}
