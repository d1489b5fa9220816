# Prose extraction from a Wix page dump, modelled in Dafny

The script `scripts/extract_wix_prose.py` reads a Wix page saved as JSON and
collects its human-readable paragraphs. It has two parts.

- The classifier `is_prose` decides whether one string is prose. It strips
  the string and rejects it when any of these holds:
  - it is shorter than `MIN_LEN` (20) characters;
  - it starts with `http://` or `https://` in any letter case (`URL_RE`);
  - it is a `#` hex literal (`CSS_HEX_RE`);
  - it has the shape of a MIME type (`MIME_LIKE_RE`);
  - fewer than 40% of its characters are letters.
- The traversal `walk` visits the parsed JSON tree in pre-order. It skips
  the value of any key in `EXCLUDE_KEYS`. Every prose string not seen
  before is appended to the list `out` and added to the set `seen`.

The model has four modules.

- `Text` (text.dfy) models Python's `str.strip()` with its full whitespace
  set and `str.isalpha()` on ASCII letters.
- `Prose` (prose.dfy) models the three regular expressions as predicates,
  following Python's `re` semantics as `is_prose` applies them:
  - `search` and `match` are both anchored at the start;
  - `$` also matches before a final line feed;
  - `re.IGNORECASE` folds four non-ASCII letters onto ASCII ones.

  It also models `is_prose` itself as `IsProse`, whose checks run in the
  source's order. The letter-ratio test is the exact integer inequality
  `5 * letters < 2 * max(1, length)`.
- `JsonTree` (json.dfy) holds the JSON value as a datatype. An object is
  the sequence of its entries in `dict` iteration order. The module also
  defines the specification of what the traversal looks at:
  - `Leaves(j, keep)` lists, in pre-order, the string leaves outside
    excluded keys that pass the leaf test `keep`;
  - `Reachable(j, s)` is an independent description of the same leaves:
    some path of entry and item steps that crosses no excluded key leads
    to the string `s`.
- `Extraction` (extract.dfy) models the mutable state and the traversal:
  - `Fresh(xs, seen)` is a reference definition of first-seen
    de-duplication;
  - the class `Collector` holds `out` (a `seq`) and `seen` (a `set`), the
    list and set that `walk` mutates in place;
  - its recursive method `Walk` updates both fields. The dictionary loop
    and the list loop are the methods `WalkEntries` and `WalkItems`, which
    `Walk` calls.

`Walk` takes the leaf test as a parameter `keep`, so the traversal is
proved for any leaf test. `ExtractProse` models lines 84-86 of `main`: it
creates an empty collector and walks the document with `IsProse`, the test
`walk` calls.

The hex pattern accepts every digit count from three to eight, as written
at line 25. It is not limited to the 3, 4, 6 and 8 digits of CSS colour
notation, and the model follows the code. The model also shows that this
check can never reject a string in `is_prose`: a match has at most nine
characters, and the length test has already excluded those.

## Model

| member | source | states |
|---|---|---|
| Text.StripStartShape | scripts/extract_wix_prose.py:42 | the leading part of `strip` keeps a suffix of the string that does not start with whitespace, and everything it cuts off is whitespace |
| Text.StripEndShape | scripts/extract_wix_prose.py:42 | the trailing part of `strip` keeps a prefix that does not end with whitespace, and everything it cuts off is whitespace |
| Text.StripIsSlice | scripts/extract_wix_prose.py:42 | `strip(s)` is a slice of `s`; everything before the slice and everything after it is whitespace |
| Text.StripNoEdgeSpace | scripts/extract_wix_prose.py:42 | a stripped string neither starts nor ends with whitespace |
| Text.StripEmpty | scripts/extract_wix_prose.py:42 | `strip(s)` is empty exactly when every character of `s` is whitespace |
| Text.StripNoEdge | scripts/extract_wix_prose.py:42 | a string with no whitespace at either end is its own strip |
| Text.StripIdempotent | scripts/extract_wix_prose.py:42 | stripping twice is stripping once |
| Text.CountAlphaExtremes | scripts/extract_wix_prose.py:52 | the letter count equals the length exactly when every character is a letter, and is zero exactly when none is |
| Prose.CaseFold | scripts/extract_wix_prose.py:24 | under `re.I` a character folds to an ASCII lower-case letter exactly when it is an ASCII letter or one of U+0130, U+0131, U+017F and U+212A |
| Prose.UrlSchemeMatches | scripts/extract_wix_prose.py:24 | every upper/lower-case spelling of `http://` or `https://` at the start of a string matches `URL_RE` |
| Prose.HexMatchIsShort | scripts/extract_wix_prose.py:25 | no string of 20 or more characters matches `CSS_HEX_RE` |
| Prose.TypeRun | scripts/extract_wix_prose.py:26 | the scanner's leading run of `[a-z]` (under `re.I`) fits in the string and stops at the end or at a non-letter |
| Prose.TypeRunLetters | scripts/extract_wix_prose.py:26 | every character of that run is a letter under `re.I` |
| Prose.MimeScanIsShape | scripts/extract_wix_prose.py:26 | the greedy scanner accepts exactly the strings made of letters, `/`, and one or more `[a-z0-9+.-]` characters |
| Prose.StrippedMatches | scripts/extract_wix_prose.py:47-50 | on a stripped string, `$` matching before a final line feed never changes what `CSS_HEX_RE` and `MIME_LIKE_RE` accept |
| Prose.IsProseExactly | scripts/extract_wix_prose.py:41-55 | `is_prose(s)` holds exactly when the stripped string is at least 20 long, has no URL scheme, does not have the MIME shape, and has at least two letters in five; the hex test drops out |
| Prose.ShortIsNotProse | scripts/extract_wix_prose.py:43-44 | a string whose strip is shorter than 20 characters is rejected |
| Prose.UrlIsNotProse | scripts/extract_wix_prose.py:45-46 | a stripped string starting with `http://` or `https://` in any letter case is rejected |
| Prose.MimeIsNotProse | scripts/extract_wix_prose.py:49-50 | a stripped string of the MIME shape is rejected |
| Prose.FewLettersIsNotProse | scripts/extract_wix_prose.py:52-54 | a stripped string with fewer than two letters in five is rejected |
| Prose.IsProseOfStrip | scripts/extract_wix_prose.py:42 | the classifier gives the same answer on `s` and on `strip(s)` |
| Prose.ProseBounds | scripts/extract_wix_prose.py:41-55 | an accepted string has at least 20 characters, its strip has at least 8 letters, and its strip neither starts nor ends with whitespace |
| JsonTree.LeavesAreReachable | scripts/extract_wix_prose.py:58-72 | a string is a leaf the traversal considers exactly when it passes the leaf test and some path that crosses no excluded key reaches it |
| JsonTree.ReachedIsLeaf | scripts/extract_wix_prose.py:59-71 | every string that passes the leaf test and is reached by a path crossing no excluded key is among the leaves |
| JsonTree.ExcludedValueIgnored | scripts/extract_wix_prose.py:30-36 | replacing the value of an entry whose key is in `EXCLUDE_KEYS` leaves the leaves unchanged |
| JsonTree.ScalarHasNoLeaves | scripts/extract_wix_prose.py:72 | numbers, booleans and null contribute no leaves |
| Extraction.FreshSound | scripts/extract_wix_prose.py:69-71 | de-duplication appends only leaves not in `seen`, and none twice |
| Extraction.FreshComplete | scripts/extract_wix_prose.py:69-71 | every leaf ends up either already in `seen` or appended |
| Extraction.FreshElems | scripts/extract_wix_prose.py:69-71 | the appended strings are exactly the leaves not in `seen` |
| Extraction.FreshConcat | scripts/extract_wix_prose.py:60-67 | walking two runs of leaves one after the other appends what walking their concatenation appends |
| Extraction.FreshOrder | scripts/extract_wix_prose.py:69-71 | the appended strings are in the order of their first occurrence among the leaves |
| Extraction.FreshCharacterized | scripts/extract_wix_prose.py:69-71 | a sequence is what de-duplication appends exactly when it is duplicate-free, holds exactly the leaves not in `seen`, and is in first-occurrence order |
| Extraction.SecondPassAddsNothing | scripts/extract_wix_prose.py:69 | walking the same leaves again, with the updated `seen`, appends nothing |
| Extraction.FreshKeepsDistinct | scripts/extract_wix_prose.py:69-71 | if `out` is duplicate-free and `seen` is its element set, both still hold after appending |
| Extraction.Collector.constructor | scripts/extract_wix_prose.py:84-85 | a new collector starts with an empty list and an empty set |
| Extraction.Collector.Walk | scripts/extract_wix_prose.py:58-72 | `walk` appends to `out` exactly the leaves of the node not yet seen, in first-seen order, and adds them to `seen`; `out` stays duplicate-free with `seen` its element set |
| Extraction.Collector.WalkEntries | scripts/extract_wix_prose.py:59-64 | the dictionary branch walks the entries in order, skips excluded keys, and appends what the object's leaves prescribe |
| Extraction.Collector.WalkItems | scripts/extract_wix_prose.py:65-67 | the list branch walks the items in order and appends what the list's leaves prescribe |
| Extraction.WalkAppends | scripts/extract_wix_prose.py:58-72 | the strings `walk` appends are original, unstripped strings that pass the leaf test, are reachable without an excluded key and were not in `seen`; they are distinct and in first-seen order, and every such string is in `seen` or appended |
| Extraction.ExtractProse | scripts/extract_wix_prose.py:84-86 | the paragraphs of a document are the prose strings reachable without an excluded key, each once, in first-seen order, and all of them |
| Extraction.ExcludedKeyCase | scripts/extract_wix_prose.py:30-36 | a string under a `style` key never appears, while a sibling string under `body` does |
| Extraction.RepeatedStringCase | scripts/extract_wix_prose.py:69-71 | the leaves `a, b, a` yield `a, b` |

## Left out

- scripts/fetch_wix_page_json.py is not part of this model: it is browser automation over a remote debugging protocol, with timed polling and file writes.
- scripts/images/optimize.mjs and the scripts under scripts/js/ are not part of this model: they are image processing, asynchronous file I/O and page scripts driven by browser events.
- `main` (lines 75-94): argument parsing, reading and parsing the JSON file, creating the output directory, writing each paragraph as its strip followed by a blank line, and the final message are I/O and are not modelled; `ExtractProse` returns the list instead.
- JSON parsing is not modelled: the model starts from the parsed tree. An object's entries are taken in `dict` iteration order with distinct keys, as `json.load` leaves them; numbers keep only their text, which the traversal never looks at.
- `ID_LIKE_RE` and `MOSTLY_NON_ALPHA_RE` (lines 27-28) are defined but never used, so they are not modelled.
- The `parent_key` argument of `walk` is passed along but never read. The model drops it.
- The `isinstance(k, str)` guard at line 62 always holds, because JSON keys are strings.
- Text.IsAlpha: counts only ASCII letters. Python's `isalpha` also counts non-ASCII letters such as `é`, so the model can reject a mostly non-ASCII sentence that the source accepts.
- Prose.FewLetters: the source divides in floating point and compares with `0.4`. The model uses the exact rational comparison. The two agree on every string shorter than about 10^15 characters, because a ratio that differs from 2/5 differs by at least 1/(5n), which is far larger than the rounding error of the division.
- Python raises `RecursionError` on trees nested deeper than its recursion limit. The model has no depth limit.
- Text.StripStart: its contract only bounds the length. The shape of its result is proved separately by `StripStartShape`.
- Text.StripEnd: its contract only bounds the length. The shape of its result is proved separately by `StripEndShape`.
- Text.Strip: its contract only bounds the length. What it removes and keeps is proved by `StripIsSlice`, `StripNoEdgeSpace` and `StripEmpty`.
- Text.CountAlpha: its contract only bounds the count by the length. When it equals the length or zero is proved by `CountAlphaExtremes`.
