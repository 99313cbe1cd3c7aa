# Version parsing and back-end selection of MPh-CDA-Linux

A Dafny model of the version logic in `mph/discovery.py`. That file finds
the single Comsol installation on Chalmers CDA Linux machines. Three parts
of it are modelled here:

- `parse` reads the text that `comsol server --version` prints and returns
  `(name, major, minor, patch, build)`.
- The discovery step turns that text into a version record. When `parse`
  fails, it puts the fixed record `("6.2", 6, 2, None, 666)` in its place.
- `backend` picks a back-end from the discovered list, either by name or as
  the latest version.

The model uses functions and lemmas throughout, because the source works by
expressions and calls only.

Modules:

- `Wrappers`: `Option`, `Result` and `IndexOf`. `IndexOf` is Python's
  `list.index`.
- `CodeText`: text as a sequence of Unicode code points, with decimal
  digits, `int` and integer formatting. Names are code points, not Dafny
  `string`s, because the patch letter `chr(ord('a') + patch - 1)` can be any
  code point, including a lone surrogate, which a Dafny `char` cannot hold.
- `Version`: the version record, a scanner for the pattern
  `(?i)Comsol.*?(\d+(?:\.\d+)*)` under `re.match`, `str.split('.')`, the
  short-hand name, and `parse`.
- `Discovery`: the parse-or-fallback rule and the one-element back-end list
  of `search_chalmers_linux`.
- `Selection`: `backend`. It takes the discovered list as a parameter. It
  models Python's tuple comparison faithfully: a missing patch compared
  against a numeric patch is the `TypeError` that `max` would raise.
- `VersionCases` and `SelectionCases`: worked inputs, most derived from the
  general lemmas, the rest evaluated directly.

The scanner is not trusted on its own. `Candidate` describes every span the
pattern could capture. `Captures` picks the one Python's lazy-then-greedy
rules select: the leftmost start, then the longest number from there.
`MatchSpanCaptures` proves that the scanner returns exactly that span.

Where the code behaves differently from what one might expect, the model
follows the code:

- `"Comsol 1.x.3"` is not an error. The captured number stops before `.x`,
  so the text parses as version `1.0`, that is `("1.0", 1, 0, 0, 0)`.
- The `int` conversion error branch (lines 61-65) cannot be reached when
  `int` is taken as total on runs of digits: every piece of the captured
  number is a run of ASCII digits (see the 4300-digit limit under
  "Left out").
- A patch above 1114015 makes `chr` raise `ValueError`, so `parse` fails
  for it. Discovery then substitutes the fallback record.
- The back-end record has only the fields `name`, `major`, `minor`,
  `patch`, `build`, `root`, `jvm` and `server`. The Java, plug-in, library
  and graphics paths are computed but never stored in it.

## Model

| member | source | states |
|---|---|---|
| `Wrappers.IndexOf` | mph/discovery.py:161 | the position returned holds the item, and no earlier position does (`list.index`) |
| `CodeText.Decimal` | mph/discovery.py:70 | the decimal text of `n` is a non-empty run of digits, has no leading zero, and reads back as `n` |
| `CodeText.Value` | mph/discovery.py:62 | `int` of a run of digits; its contract is `Decimal`'s `Value(Decimal(n)) == n`, and `ToNats` uses it for each piece |
| `Version.FirstDigit` | mph/discovery.py:52 | the lazy `.*?` stops at the first digit after the token; no digit comes before it on the line; when there is none, every later digit has a newline in front of it |
| `Version.DigitsEnd` | mph/discovery.py:52 | the end of the maximal run of digits that starts at `i` |
| `Version.NumberEnd` | mph/discovery.py:52 | the greedy group ends on a well-formed dotted number, and the character after it is not a digit |
| `Version.NumberEndIsLongest` | mph/discovery.py:52 | no dotted number that starts at the same digit ends later than the scanner's |
| `Version.MatchSpan` | mph/discovery.py:52-55 | any span the scanner returns is one the pattern can capture when anchored at the start |
| `Version.MatchSpanIsPreferred` | mph/discovery.py:52-55 | whenever the pattern can match, the scanner finds a span, and no possible span starts earlier or, at the same start, ends later |
| `Version.MatchSpanCaptures` | mph/discovery.py:52-55 | the scanner returns `(p, q)` if and only if `s[p..q]` is the group `re.match` captures (leftmost start, then longest) |
| `Version.Split` | mph/discovery.py:58 | `str.split('.')`: at least one piece, no piece holds a dot, and the pieces joined with dots give back the text |
| `Version.SplitJoinDots` | mph/discovery.py:58 | splitting dot-joined dot-free pieces gives back exactly those pieces |
| `Version.SplitDottedNumber` | mph/discovery.py:58-62 | every piece of a captured number is a non-empty run of digits |
| `Version.ToNats` | mph/discovery.py:61-65 | the conversion succeeds exactly when every piece is a non-empty run of digits, and then the k-th value is `int` of the k-th piece |
| `Version.Pad` | mph/discovery.py:66-67 | padding gives exactly four components: the given ones in order, then zeros |
| `Version.PatchLetter` | mph/discovery.py:71-72 | no patch letter for patch 0, otherwise one character at or beyond `a`, never a digit or a dot; `NameInjective` states that it determines the patch |
| `Version.Name` | mph/discovery.py:70-72 | `f'{major}.{minor}'` and the patch letter; its contract is `NameInjective`: the name determines major, minor and patch |
| `Version.NameInjective` | mph/discovery.py:70-72 | equal names mean equal major, minor and patch, so the name `major.minor` plus the patch letter identifies those numbers |
| `Version.Parse` | mph/discovery.py:38-75 | every parsed record has a numeric patch small enough for `chr`, and its name is the short-hand of its own major, minor and patch |
| `Version.ParseInvalidFormat` | mph/discovery.py:52-54 | the invalid-format error happens exactly when the text does not start with `comsol` (any case) followed by a digit on the same line |
| `Version.ParseNeverNotAllNumbers` | mph/discovery.py:61-65 | the not-all-numbers error is never raised |
| `Version.JoinDotsIsNumber` | mph/discovery.py:52 | non-empty digit runs joined with dots form a dotted number |
| `Version.CapturedNumber` | mph/discovery.py:52-55 | for token, digit-free filler, number and a tail that cannot extend it, the captured group is exactly the number |
| `Version.Convert` | mph/discovery.py:57-75 | a converted record has a numeric patch and is named after its own major, minor and patch |
| `Version.ConvertDigits` | mph/discovery.py:57-75 | dot-joined digit runs: more than four is the too-many-parts error, a patch beyond the last letter is the out-of-range error, otherwise the record of the values padded with zeros to four |
| `Version.ParseDecomposed` | mph/discovery.py:52-75 | for such a text: more than four components is an error; a patch beyond the last letter is an error; otherwise the record holds the components padded with zeros to four, and the short-hand name |
| `Version.ParseFormatted` | mph/discovery.py:52-75 | round trip: `"Comsol "` followed by the dotted decimal form of any version parses back to that version's components, or fails exactly as above |
| `VersionCases.CasePatchLetter` | mph/discovery.py:38-75 | `"Comsol 5.3.1"` gives `("5.3a", 5, 3, 1, 0)` |
| `VersionCases.CaseUpperCaseToken` | mph/discovery.py:52-75 | `"COMSOL Multiphysics 6.0"` gives `("6.0", 6, 0, 0, 0)` |
| `VersionCases.CaseTooManyParts` | mph/discovery.py:58-60 | `"Comsol 1.2.3.4.5"` is rejected for having too many parts |
| `VersionCases.CaseNumberStopsAtLetter` | mph/discovery.py:52-75 | `"Comsol 1.x.3"` gives `("1.0", 1, 0, 0, 0)` |
| `VersionCases.CasePatchOutOfRange` | mph/discovery.py:71-72 | patch 1114016 has no letter, and parsing fails |
| `VersionCases.CaseAnchored` | mph/discovery.py:52-54 | `"NotComsol 5.3"` fails, because the match is anchored at the start |
| `VersionCases.CaseNewlineBeforeNumber` | mph/discovery.py:52-54 | a newline between the token and the number makes the match fail |
| `Discovery.VersionOfParsedOrFallback` | mph/discovery.py:106-110 | a parse failure gives exactly `("6.2", 6, 2, None, 666)`; a success gives the parsed record |
| `Discovery.FallbackLacksPatch` | mph/discovery.py:106-110 | the discovered record lacks a patch exactly when parsing failed |
| `Discovery.VersionOfWellNamed` | mph/discovery.py:106-110 | parsed or substituted, the record's name is the short-hand of its numbers |
| `Discovery.VersionOf` | mph/discovery.py:106-110 | the parse-or-fallback step; its contract is `VersionOfParsedOrFallback`, `FallbackLacksPatch` and `VersionOfWellNamed` |
| `Discovery.SearchChalmersLinux` | mph/discovery.py:113-126 | the list of the one installation with its version record and paths; `SelectDiscovered` states how `backend` selects from it |
| `Selection.MaxFold` | mph/discovery.py:161 | any result of `max` is one of the compared tuples |
| `Selection.Greater` | mph/discovery.py:161 | Python's `>` on `(major, minor, patch, build)`, `None` where it raises `TypeError`; `GreaterIsLexicographic` states it is the lexicographic order on numeric tuples |
| `Selection.Keys` | mph/discovery.py:159-160 | one `(major, minor, patch, build)` tuple per back-end, in list order |
| `Selection.Names` | mph/discovery.py:163 | one name per back-end, in list order |
| `Selection.GreaterIsLexicographic` | mph/discovery.py:159-161 | when both patches are numbers, Python's tuple `>` never raises and is the lexicographic order |
| `Selection.LexLessTransitive` | mph/discovery.py:161 | the lexicographic order is transitive |
| `Selection.LexLessTotal` | mph/discovery.py:161 | any two distinct tuples of one length are ordered one way or the other |
| `Selection.MaxFoldIsMaximum` | mph/discovery.py:161 | with numeric patches, `max` succeeds and returns a tuple that no compared tuple exceeds |
| `Selection.Select` | mph/discovery.py:145-168 | the no-installation error happens exactly for an empty list; any result is a member of the list; the `TypeError` only happens without a version, and the lookup error only with one |
| `Selection.SelectLatest` | mph/discovery.py:158-161 | without a version and with numeric patches, the result is the back-end at the first position whose tuple is greatest |
| `Selection.SelectSingle` | mph/discovery.py:158-161 | a one-element list yields its element even when the patch is missing |
| `Selection.SelectByName` | mph/discovery.py:162-168 | with a version, the lookup error happens exactly when no back-end has that name; otherwise the result is the first back-end with that name |
| `Selection.SelectByNumbers` | mph/discovery.py:162-168 | among records named by the short-hand rule, asking for the name of (major, minor, patch) selects the first back-end with those numbers, and succeeds exactly when one exists |
| `Selection.SelectDiscovered` | mph/discovery.py:113-126 | on the discovered one-element list, no version selects the installation, and a version selects it exactly when it is the record's name |
| `SelectionCases.CaseLatest` | mph/discovery.py:158-161 | of 5.3a and 6.0, in either order, the latest is 6.0 |
| `SelectionCases.CaseByName` | mph/discovery.py:162-168 | `"5.3a"` selects its back-end; `"9.9"` is a lookup error |
| `SelectionCases.CaseEmpty` | mph/discovery.py:154-157 | an empty list is an error, with or without a version |
| `SelectionCases.CaseFallbackIncomparable` | mph/discovery.py:159-161 | comparing the fallback record with a patched 6.2 record raises `TypeError` |

## Left out

- Running `comsol server --version`, the warning on a non-zero exit code,
  and the ASCII decoding and stripping of its output (lines 99-103) are
  process I/O. The decoded, stripped text is a parameter. The exit code
  never affects parsing in the source, so the model does not take it.
- `print` and `logger` calls, and the wording of the exception messages,
  are output only.
- The `lru_cache` memoisation and the operating-system check of
  `search_system` (lines 129-138) are runtime caching and host detection.
  `backend` takes the list that `search_system` would return.
- The installation paths are kept as the plain strings they are built
  from. `Path` normalisation is not modelled. `java`, `api`, `lib` and
  `gra` (lines 92, 94-96) are computed but never stored in the back-end
  record, so they are omitted.
- Version.Parse: requires ASCII text, since the caller decodes the tool's
  output as ASCII. On other text, Python's Unicode case folding (`ſ`
  matches `s`), Unicode digits in `\d`, and what `int` accepts are not
  modelled.
- Version.Parse: treats every patch above 1114015 as the `ValueError` of
  `chr`. On interpreters where `chr` takes a C `int`, a patch beyond that
  range raises `OverflowError` instead. Discovery does not catch that
  error, and the model does not represent it.
- Version.ParseNeverNotAllNumbers: models `int` as total on runs of digits.
  CPython 3.11 and later refuse integers longer than 4300 digits by
  default; such a component would take the not-all-numbers branch.
- Selection.SelectLatest: is proved only for lists where every patch is a
  number. A list that mixes the fallback record (patch `None`) with
  records that have a patch can raise `TypeError` inside `max`. The model
  represents that outcome (`Incomparable`), and `SelectSingle` and
  `CaseFallbackIncomparable` cover it. No general characterisation of
  mixed lists is given.
