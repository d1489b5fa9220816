/** The prose classifier `is_prose` and the regular expressions it uses.
    Each pattern is modelled as the set of strings Python's `re` accepts
    for it, as applied by the source: `URL_RE.search`, `CSS_HEX_RE.match`
    and `MIME_LIKE_RE.match`, all on the stripped string. */
module Prose {
  import opened Text

  /** `MIN_LEN`: the shortest stripped string still considered prose. */
  const MinLen: nat := 20

  /** The case folding Python's `re.IGNORECASE` applies before comparing a
      character with an ASCII letter of the pattern: upper-case ASCII letters
      fold to lower case, and four non-ASCII letters fold onto ASCII ones
      (U+0130 and U+0131 onto `i`, U+017F onto `s`, U+212A onto `k`). */
  function CaseFold(c: char): (f: char)
    ensures 'a' <= f <= 'z' <==>
              ('a' <= c <= 'z') || ('A' <= c <= 'Z')
              || c == '\U{130}' || c == '\U{131}' || c == '\U{17F}' || c == '\U{212A}'
  {
    if 'A' <= c <= 'Z' then (c as int + 32) as char
    else if c == '\U{130}' || c == '\U{131}' then 'i'
    else if c == '\U{17F}' then 's'
    else if c == '\U{212A}' then 'k'
    else c
  }

  // ---------------------------------------------------------------------
  // URL_RE = ^https?:// with re.I, used with search (anchored at the start)

  /** `URL_RE.search(t)`: `t` starts with `http` and an optional `s`
      (letters compared case-insensitively), then `://`. */
  predicate UrlMatch(t: string)
  {
    |t| >= 7
    && CaseFold(t[0]) == 'h' && CaseFold(t[1]) == 't'
    && CaseFold(t[2]) == 't' && CaseFold(t[3]) == 'p'
    && (t[4..7] == "://" || (|t| >= 8 && CaseFold(t[4]) == 's' && t[5..8] == "://"))
  }

  /** `u` spells `p` with any of its ASCII letters written in upper case. */
  predicate AsciiCaseVariant(u: string, p: string)
  {
    |u| == |p|
    && forall k | 0 <= k < |p| ::
         u[k] == p[k] || ('a' <= p[k] <= 'z' && u[k] as int == p[k] as int - 32)
  }

  /** Any upper/lower-case spelling of `http://` or `https://` at the start
      of `t` is a match of `URL_RE`. */
  lemma UrlSchemeMatches(t: string, u: string)
    requires AsciiCaseVariant(u, "http://") || AsciiCaseVariant(u, "https://")
    requires |u| <= |t| && t[..|u|] == u
    ensures UrlMatch(t)
  {
    assert forall k | 0 <= k < |u| :: t[k] == u[k];
    if AsciiCaseVariant(u, "http://") {
      assert t[4..7] == u[4..7] == "://";
    } else {
      assert t[5..8] == u[5..8] == "://";
    }
  }

  // ---------------------------------------------------------------------
  // CSS_HEX_RE = ^#[0-9A-Fa-f]{3,8}$, used with match

  predicate IsHexDigit(c: char)
  {
    ('0' <= c <= '9') || ('a' <= c <= 'f') || ('A' <= c <= 'F')
  }

  /** `#` followed by three to eight hexadecimal digits, and nothing else. */
  predicate HexLiteral(u: string)
  {
    4 <= |u| <= 9 && u[0] == '#' && forall k | 1 <= k < |u| :: IsHexDigit(u[k])
  }

  /** `CSS_HEX_RE.match(t)`: Python's `$` also matches just before a final
      line feed, so a hex literal followed by one `\n` matches too. */
  predicate HexMatch(t: string)
  {
    HexLiteral(t) || (|t| > 0 && t[|t| - 1] == '\n' && HexLiteral(t[..|t| - 1]))
  }

  /** A string that matches the hex pattern has at most ten characters, so
      once the length test has passed the hex test can never reject. */
  lemma HexMatchIsShort(t: string)
    requires |t| >= MinLen
    ensures !HexMatch(t)
  {
  }

  // ---------------------------------------------------------------------
  // MIME_LIKE_RE = ^[a-z]+/[a-z0-9+.-]+$ with re.I, used with match

  /** A character of `[a-z]` under `re.IGNORECASE`. */
  predicate IsTypeChar(c: char)
  {
    'a' <= CaseFold(c) <= 'z'
  }

  /** A character of `[a-z0-9+.-]` under `re.IGNORECASE`. */
  predicate IsSubtypeChar(c: char)
  {
    IsTypeChar(c) || ('0' <= c <= '9') || c == '+' || c == '.' || c == '-'
  }

  /** The length of the longest prefix of `t` made of `[a-z]` characters. */
  function TypeRun(t: string): (n: nat)
    ensures n <= |t|
    ensures n == |t| || !IsTypeChar(t[n])
  {
    if t != [] && IsTypeChar(t[0]) then 1 + TypeRun(t[1..]) else 0
  }

  /** Every character of the run is a letter. */
  lemma {:induction false} TypeRunLetters(t: string)
    ensures forall k | 0 <= k < TypeRun(t) :: IsTypeChar(t[k])
  {
    if t != [] && IsTypeChar(t[0]) {
      TypeRunLetters(t[1..]);
      assert forall k | 1 <= k < TypeRun(t) :: t[k] == t[1..][k - 1];
    }
  }

  /** The regular expression run as a scanner: the longest run of letters
      must be non-empty and be followed by `/` and one or more subtype
      characters up to the end. Since `/` is no letter, the greedy run is
      the only split the pattern can use. */
  predicate MimeScan(u: string)
  {
    var n := TypeRun(u);
    0 < n && n + 1 < |u| && u[n] == '/'
    && forall k | n < k < |u| :: IsSubtypeChar(u[k])
  }

  /** Declarative reading of the pattern: some position holds a `/` with
      one or more letters before it and one or more subtype characters after. */
  ghost predicate MimeShape(u: string)
  {
    exists i | 0 < i < |u| - 1 ::
      u[i] == '/'
      && (forall k | 0 <= k < i :: IsTypeChar(u[k]))
      && (forall k | i < k < |u| :: IsSubtypeChar(u[k]))
  }

  /** The scanner accepts exactly the strings of the pattern's shape. */
  lemma MimeScanIsShape(u: string)
    ensures MimeScan(u) <==> MimeShape(u)
  {
    var n := TypeRun(u);
    TypeRunLetters(u);
    if MimeScan(u) {
      assert u[n] == '/' && (forall k | 0 <= k < n :: IsTypeChar(u[k]));
    }
    if MimeShape(u) {
      var i :| 0 < i < |u| - 1 && u[i] == '/'
               && (forall k | 0 <= k < i :: IsTypeChar(u[k]))
               && (forall k | i < k < |u| :: IsSubtypeChar(u[k]));
      assert !IsTypeChar('/');
      assert n == i;
    }
  }

  /** `MIME_LIKE_RE.match(t)`, with Python's `$` before a final line feed. */
  predicate MimeMatch(t: string)
  {
    MimeScan(t) || (|t| > 0 && t[|t| - 1] == '\n' && MimeScan(t[..|t| - 1]))
  }

  // ---------------------------------------------------------------------
  // is_prose

  /** `alpha_ratio < 0.4`, where `alpha_ratio` is the letter count divided
      by `max(1, len)`, written as the exact integer inequality. */
  predicate FewLetters(t: string)
  {
    5 * CountAlpha(t) < 2 * (if |t| < 1 then 1 else |t|)
  }

  /** `is_prose(s)`: the checks of the source, in its order, on `strip(s)`. */
  predicate IsProse(s: string)
  {
    var t := Strip(s);
    if |t| < MinLen then false
    else if UrlMatch(t) then false
    else if HexMatch(t) then false
    else if MimeMatch(t) then false
    else if FewLetters(t) then false
    else true
  }

  /** A stripped string never ends in a line feed: the `$`-before-newline
      case of both anchored patterns is unreachable from `is_prose`. */
  lemma StrippedMatches(s: string)
    ensures HexMatch(Strip(s)) <==> HexLiteral(Strip(s))
    ensures MimeMatch(Strip(s)) <==> MimeScan(Strip(s))
  {
    var t := Strip(s);
    StripNoEdgeSpace(s);
    assert t != [] ==> t[|t| - 1] != '\n' by {
      assert IsSpace('\n');
    }
  }

  /** The whole classifier as one condition on the stripped string: long
      enough, no URL scheme, not shaped like a MIME type, and at least two
      letters in five. The hex test has dropped out. */
  lemma IsProseExactly(s: string)
    ensures var t := Strip(s);
            IsProse(s) <==>
              |t| >= MinLen && !UrlMatch(t) && !MimeShape(t) && 5 * CountAlpha(t) >= 2 * |t|
  {
    var t := Strip(s);
    StrippedMatches(s);
    MimeScanIsShape(t);
    if |t| >= MinLen {
      HexMatchIsShort(t);
    }
  }

  /** Too short after stripping: rejected. */
  lemma ShortIsNotProse(s: string)
    requires |Strip(s)| < MinLen
    ensures !IsProse(s)
  {
  }

  /** Starting with `http://` or `https://` in any letter case: rejected. */
  lemma UrlIsNotProse(s: string, u: string)
    requires AsciiCaseVariant(u, "http://") || AsciiCaseVariant(u, "https://")
    requires |u| <= |Strip(s)| && Strip(s)[..|u|] == u
    ensures !IsProse(s)
  {
    UrlSchemeMatches(Strip(s), u);
  }

  /** Shaped like a MIME type, letters `/` subtype characters: rejected. */
  lemma MimeIsNotProse(s: string)
    requires MimeShape(Strip(s))
    ensures !IsProse(s)
  {
    IsProseExactly(s);
  }

  /** Fewer than two letters in five: rejected. */
  lemma FewLettersIsNotProse(s: string)
    requires 5 * CountAlpha(Strip(s)) < 2 * |Strip(s)|
    ensures !IsProse(s)
  {
    IsProseExactly(s);
  }

  /** The classifier looks only at the stripped string. */
  lemma IsProseOfStrip(s: string)
    ensures IsProse(Strip(s)) == IsProse(s)
  {
    StripIdempotent(s);
  }

  /** What acceptance guarantees about the original string. */
  lemma ProseBounds(s: string)
    requires IsProse(s)
    ensures |s| >= MinLen
    ensures CountAlpha(Strip(s)) >= 8
    ensures !IsSpace(Strip(s)[0]) && !IsSpace(Strip(s)[|Strip(s)| - 1])
  {
    IsProseExactly(s);
    StripNoEdgeSpace(s);
  }
}
