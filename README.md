# julia_semver in Dafny

A model of the Python package `julia_semver`. The package translates Julia
package-compatibility specifiers (`^1.2.3`, `~0.2`, `>= 1.2`, `1.2 - 4.5.6`,
comma-separated lists of these) into npm-style version ranges. It also parses
Julia version strings (`v1.2.3-rc1+build.5`).

The model covers the following parts of `src/julia_semver/julia_semver.py`:

- the version fragment `_re_version`;
- the three clause patterns and the translators `semver_interval`,
  `semver_inequality` and `semver_hyphen`;
- the dispatcher `one_semver_spec` and the list builder `semver_spec`;
- the version parser, made of `VERSION_REGEX` and `version`.

Everything in the source is pure, so the model is functions and lemmas.

Modules, one file each:

- `Wrappers` (wrappers.dfy): `Option` and `Result`.
- `Text` (text.dfy): the character classes the patterns use, and
  `str.split`, `str.strip`. It also holds `Chomp`, the "end of string or
  before a final newline" reading of Python's `$`, plus digit runs and
  numerals.
- `Ranges` (ranges.dfy): the translator's output as data.
  - A comparator is an operator (`>=`, `≥`, `<`, `<=`, `=`) and a release
    triple. A clause is the conjunction of its comparators. A
    specification is the disjunction of its clauses.
  - `Holds` gives these the usual meaning of an npm-style range on
    release versions: lexicographic order on (major, minor, patch). That
    this is what the range library does with the emitted text is an
    assumption (see "## Left out").
- `Fragment` (fragment.dfy): `_re_version`.
  - Components are kept as the digit text that was written, present or
    absent, because the translators test them against the string `"0"`.
- `Clauses` (clauses.dfy): the three recognisers and their translators.
  - Each translator has a partner: an independent statement of Julia's
    rule (`Compatible`, `InequalityAdmits`, `HyphenAdmits`).
  - A lemma says that the clause admits exactly the versions the rule
    admits.
- `Specs` (specs.dfy):
  - `one_semver_spec` and `semver_spec`;
  - proofs that the three patterns never accept the same clause, so the
    order in which they are tried does not matter;
  - the meaning of a whole specification;
  - the clauses that are refused.
- `PkgRules` (pkgrules.dfy): the rules of Julia's notation, stated for
  every fragment. For example, caret is the default, tilde equals caret
  below 1.0.0, dropped numbers count as zero, and `^f` is `f - M`.
- `JuliaVersion` (version.dfy): `version()`. This covers the parser, its
  writer (`FormatVersion`), the round trip over every spelling the pattern
  accepts, the converse (every accepted string is such a spelling), and the
  strings it refuses.
- `Cases` (cases.dfy): the package's own examples, as facts about the
  model.

## Model

| member | source | states |
|---|---|---|
| Text.Split | src/julia_semver/julia_semver.py:114 | `split(",")` returns at least one piece, no piece holds the separator, and joining the pieces with it gives back the input |
| Text.SplitJoin | src/julia_semver/julia_semver.py:149-151 | splitting on `.` undoes joining identifiers with `.`, when no identifier holds a dot |
| Text.Strip | src/julia_semver/julia_semver.py:93 | `strip()` never lengthens the text, and a non-empty result starts and ends with non-whitespace |
| Text.StripShape | src/julia_semver/julia_semver.py:93 | what `strip()` removes is a run of whitespace at each end |
| Text.StripAround | src/julia_semver/julia_semver.py:93 | whitespace around a word that starts and ends with non-whitespace is removed, and nothing else is |
| Text.StripBlank | src/julia_semver/julia_semver.py:93 | an all-whitespace clause strips to the empty string |
| Text.Chomp | src/julia_semver/julia_semver.py:11 | `$` matches at the end or before one final newline: the matched text is the input or the input less a final `\n` |
| Text.ReadDigits | src/julia_semver/julia_semver.py:10 | a digit run is taken whole: a non-empty run of digits, and what follows does not start with a digit |
| Text.Numeral | src/julia_semver/julia_semver.py:143-145 | a number is written as digits that `int()` reads back as that number, with no leading zero |
| Fragment.ParseFragment | src/julia_semver/julia_semver.py:10 | a recognised fragment has digit-run components, a patch only after a minor, and its text is the rendering of the groups with or without `v` |
| Fragment.ParseRender | src/julia_semver/julia_semver.py:10 | every well-formed fragment is recognised from its rendering, with and without `v`, as exactly the same groups |
| Fragment.FragmentVPrefix | src/julia_semver/julia_semver.py:10 | the optional `v` does not change the groups |
| Fragment.ParseWithPatch | src/julia_semver/julia_semver.py:10 | appending `.0` to `M.m` captures a patch `"0"` and keeps the rest |
| Fragment.ParseWithMinorPatch | src/julia_semver/julia_semver.py:10 | appending `.0.0` to `M` captures minor and patch `"0"` |
| Fragment.FragmentText | src/julia_semver/julia_semver.py:10 | a fragment starts with `v` or a digit, has a digit after any `v`, and ends with a digit |
| Fragment.FragmentWord | src/julia_semver/julia_semver.py:10 | a fragment holds no whitespace and no hyphen |
| Clauses.MatchInterval | src/julia_semver/julia_semver.py:11 | a match is an optional `^`/`~` followed by a recognised fragment, and nothing else up to `$` |
| Clauses.MatchIntervalOf | src/julia_semver/julia_semver.py:11 | every modifier followed by every fragment is matched, with exactly those groups |
| Clauses.CaretKept | src/julia_semver/julia_semver.py:36-48 | the caret keeps the components up to and including the first one not written `"0"` |
| Clauses.IntervalClause | src/julia_semver/julia_semver.py:33-51 | the clause has one comparator exactly when the major is `"0"` and the minor is absent or `"0"`, and two otherwise |
| Clauses.IntervalMeaning | src/julia_semver/julia_semver.py:33-51 | the translated clause admits a version exactly when Julia's rule does: not below the zero-filled fragment, and equal to it on the components the modifier keeps |
| Clauses.SemverInterval | src/julia_semver/julia_semver.py:25-29 | `semver_interval` returns a clause exactly when the pattern matches |
| Clauses.SemverIntervalMeaning | src/julia_semver/julia_semver.py:25-51 | the returned clause admits exactly the versions compatible with the matched modifier and fragment |
| Clauses.ReadRelation | src/julia_semver/julia_semver.py:13 | the operator read is a prefix of the clause |
| Clauses.ReadRelationOf | src/julia_semver/julia_semver.py:13 | each of `≥`, `>=`, `=` and `<` is read back from the start of any clause |
| Clauses.InequalityParts | src/julia_semver/julia_semver.py:13 | the clause is operator, whitespace run, optional `v` and the rest, in that order |
| Clauses.InequalityPartsOf | src/julia_semver/julia_semver.py:13 | every such arrangement is split back into the same parts |
| Clauses.InequalityGroupsOf | src/julia_semver/julia_semver.py:12-14 | operator, any whitespace, an optional `v` and a fragment are matched with those groups, so `>=vv1` is accepted |
| Clauses.MatchInequalityOf | src/julia_semver/julia_semver.py:12-14 | the same at the level of the full pattern with its `$` |
| Clauses.InequalityClause | src/julia_semver/julia_semver.py:62-67 | an inequality translates to a single comparator |
| Clauses.InequalityMeaning | src/julia_semver/julia_semver.py:62-67 | the comparator admits exactly what its operator says about the zero-filled version, with `≥` read as `>=` and `=` as exact |
| Clauses.SemverInequality | src/julia_semver/julia_semver.py:54-58 | `semver_inequality` returns a clause exactly when the pattern matches |
| Clauses.SemverInequalityMeaning | src/julia_semver/julia_semver.py:54-67 | the returned clause admits exactly what the matched operator and fragment admit |
| Clauses.HyphenWords | src/julia_semver/julia_semver.py:16 | a match is leading whitespace, a word, non-empty whitespace, `-`, non-empty whitespace, a word and trailing whitespace, and reassembles to the clause |
| Clauses.HyphenWordsOf | src/julia_semver/julia_semver.py:16 | every such layout of two whitespace-free words is split back into the same parts |
| Clauses.MatchHyphen | src/julia_semver/julia_semver.py:15-17 | both words of the layout are recognised fragments, and they are the groups returned |
| Clauses.MatchHyphenOf | src/julia_semver/julia_semver.py:15-17 | every spaced layout of two fragments is matched, with those fragments |
| Clauses.HyphenClause | src/julia_semver/julia_semver.py:82-89 | the three cases on the upper bound are exhaustive: a match always translates, to two comparators |
| Clauses.HyphenMeaning | src/julia_semver/julia_semver.py:77-89 | the clause admits a version exactly when it is not below the zero-filled lower end and, on the components written in the upper end, it is at most the upper end |
| Clauses.LexPrefixes | src/julia_semver/julia_semver.py:84-89 | the three upper-bound forms `<(U+1).0.0`, `<U.(u+1).0` and `<=U.u.p` are lexicographic "at most" on one, two and three components |
| Clauses.SemverHyphen | src/julia_semver/julia_semver.py:70-74 | `semver_hyphen` returns a clause exactly when the pattern matches |
| Clauses.SemverHyphenMeaning | src/julia_semver/julia_semver.py:70-89 | the returned clause admits exactly the versions in the matched hyphen range |
| Specs.IntervalShape | src/julia_semver/julia_semver.py:11 | a caret/tilde/bare clause starts with `^`, `~`, `v` or a digit and holds no hyphen |
| Specs.InequalityShape | src/julia_semver/julia_semver.py:12-14 | an inequality clause starts with `≥`, `>`, `=` or `<` |
| Specs.HyphenShape | src/julia_semver/julia_semver.py:15-17 | a hyphen clause starts with whitespace, `v` or a digit and holds a hyphen |
| Specs.PatternsDisjoint | src/julia_semver/julia_semver.py:94-98 | no clause is accepted by two patterns, so the order in which they are tried never matters |
| Specs.OneSemverSpecMeaning | src/julia_semver/julia_semver.py:92-99 | a clause translates exactly when some pattern accepts it once stripped; the error names the stripped clause; the translation admits exactly what the accepting pattern means |
| Specs.SemverSpec | src/julia_semver/julia_semver.py:103-116 | on success there is one clause per comma-separated piece, in order, each the translation of its piece; on failure the error is that of the first piece that fails |
| Specs.Collect | src/julia_semver/julia_semver.py:115 | the list succeeds exactly when every translation does, and otherwise fails with the first error |
| Specs.Translations | src/julia_semver/julia_semver.py:115 | every piece is translated, in order |
| Specs.SpecMeaning | src/julia_semver/julia_semver.py:103-116 | a version is in the specification exactly when some comma-separated piece admits it |
| Specs.HoldingPiece | src/julia_semver/julia_semver.py:115 | a version in the specification is admitted by a piece, and the lemma names it |
| Specs.AdmittingPiece | src/julia_semver/julia_semver.py:115 | a version admitted by any piece is in the specification |
| Specs.IntervalSpecOf | src/julia_semver/julia_semver.py:92-99 | `^f`, `~f` and `f` translate to the interval clause of `f` |
| Specs.InequalitySpecOf | src/julia_semver/julia_semver.py:92-99 | an operator, whitespace, an optional `v` and a fragment translate to the inequality clause |
| Specs.HyphenSpecOf | src/julia_semver/julia_semver.py:92-99 | a spaced hyphen layout of two fragments translates to their hyphen clause, whatever whitespace surrounds it |
| Specs.BlankRejected | src/julia_semver/julia_semver.py:92-99 | an empty or blank clause is refused, naming the empty clause |
| Specs.BlankPieceRejected | src/julia_semver/julia_semver.py:114-115 | a blank piece, such as a stray comma leaves, makes the whole specification fail |
| Specs.SpecOfPieces | src/julia_semver/julia_semver.py:114-115 | clauses without commas, joined by commas, translate to the list of their translations in order |
| Specs.IntervalSpecAfterSpace | src/julia_semver/julia_semver.py:93 | whitespace before `^f`, `~f` or `f`, as left after a comma, is stripped and the clause translates as without it |
| Specs.EmptySpecRejected | src/julia_semver/julia_semver.py:114-115 | the empty specification is refused |
| Specs.HyphenWithoutSpaceRejected | src/julia_semver/tests/test_semver.py:124-126 | `a-b` is refused for every two fragments: the hyphen needs whitespace on both sides |
| Specs.SpaceSeparatedRejected | src/julia_semver/tests/test_semver.py:193 | `a b` is refused for every two fragments |
| Specs.ModifierTwiceRejected | src/julia_semver/tests/test_semver.py:191 | no pattern accepts a clause that starts with two modifiers |
| Specs.ModifierTwiceSpec | src/julia_semver/tests/test_semver.py:191 | such a clause is refused, naming it |
| Specs.UnsupportedOperatorRejected | src/julia_semver/tests/test_semver.py:103-109 | no pattern accepts a clause that starts with `>` (not `>=`), `<=` or `==` |
| Specs.UnsupportedOperatorSpec | src/julia_semver/tests/test_semver.py:103-109 | such a clause is refused, naming it |
| PkgRules.HyphenTextSpec | src/julia_semver/julia_semver.py:15-17 | `low - high` translates to the hyphen clause of its fragments |
| PkgRules.CaretSpec | src/julia_semver/julia_semver.py:46-48 | `^f` translates to the caret clause of `f` |
| PkgRules.TildeSpec | src/julia_semver/julia_semver.py:49-51 | `~f` translates to the tilde clause of `f` |
| PkgRules.BareSpec | src/julia_semver/julia_semver.py:46-48 | `f` translates to the bare clause of `f` |
| PkgRules.CaretIsDefault | src/julia_semver/tests/test_semver.py:7-9 | `^f` and `f` translate alike, for every fragment |
| PkgRules.ZeroMajorTildeIsDefault | src/julia_semver/tests/test_semver.py:18-51 | below 1.0.0, `~f` and `f` translate alike |
| PkgRules.TildeNarrowerThanCaret | src/julia_semver/tests/test_semver.py:10 | from 1.0.0 on, `^f` admits a version that `~f` does not |
| PkgRules.TildeCaretWitness | src/julia_semver/julia_semver.py:46-51 | that version is the next minor release |
| PkgRules.DroppedPatch | src/julia_semver/tests/test_semver.py:72-76 | `f` and `f.0` translate alike under every modifier when `f` has a minor, unless `f` is `0.0` |
| PkgRules.DroppedMinor | src/julia_semver/tests/test_semver.py:77 | `M` and `M.0.0` translate alike under every modifier for a major other than `0` |
| PkgRules.CaretAsHyphen | src/julia_semver/tests/test_semver.py:149-151 | from 1.0.0 on, `^f` and `f - M` translate alike |
| PkgRules.TildeAsHyphen | src/julia_semver/tests/test_semver.py:153 | `~f` and `f - M.m` translate alike when `f` has a minor, unless `f` starts `0.0` |
| PkgRules.TildeMajorOnly | src/julia_semver/julia_semver.py:49-51 | from 1.0.0 on, `~M` is narrower than `M - M`, so it differs from the range the tests at test_semver.py:155-156 expect |
| PkgRules.TildeMajorWitness | src/julia_semver/julia_semver.py:49-51 | M.1.0 is in `M - M` and not in `~M` |
| JuliaVersion.ParseVersion | src/julia_semver/julia_semver.py:139-141 | a refusal is an error naming the string |
| JuliaVersion.ReadIdentifiers | src/julia_semver/julia_semver.py:149-151 | the identifiers are non-empty and from `[0-9a-z-]`, and joined with `.` they give back the text |
| JuliaVersion.ReadIdentifiersOf | src/julia_semver/julia_semver.py:149-151 | every non-empty list of identifiers is read back from its dotted text |
| JuliaVersion.SpelledRoundTrip | src/julia_semver/julia_semver.py:120-154 | every spelling the pattern accepts of every version reads back as that version: one, two or three numbers, prerelease with or without `-`, a build, a bare `+`, a bare `-` |
| JuliaVersion.RoundTrip | src/julia_semver/julia_semver.py:120-154 | every version the parser can produce reads back from its canonical text |
| JuliaVersion.Canonical | src/julia_semver/julia_semver.py:120-154 | whatever the parser accepts, it also accepts in canonical form, with the same result |
| JuliaVersion.OmittedNumbersAreZero | src/julia_semver/julia_semver.py:143-145 | minor and patch left out read as 0 |
| JuliaVersion.LetterPrereleaseWithoutHyphen | src/julia_semver/julia_semver.py:126 | a prerelease that starts with a letter may follow the numbers without `-` |
| JuliaVersion.BareMarkersIgnored | src/julia_semver/julia_semver.py:125-127 | a bare `+` leaves the build absent, and a bare `-` the prerelease |
| JuliaVersion.PrefixOptional | src/julia_semver/julia_semver.py:121 | a leading `v` or `V` changes neither acceptance nor the result |
| JuliaVersion.SpellingAccepted | src/julia_semver/julia_semver.py:120-154 | every string in the pattern's language (optional `v`/`V`, one to three digit runs, leading zeros allowed, a spelled tail, an optional final newline) is accepted as the version it spells |
| JuliaVersion.AcceptedSpelling | src/julia_semver/julia_semver.py:120-154 | conversely, every string the parser accepts is such a spelling of the version it returns |
| JuliaVersion.TailSpelled | src/julia_semver/julia_semver.py:125-130 | a tail the parser accepts spells the prerelease and build it is read as |
| JuliaVersion.TailUnspelled | src/julia_semver/julia_semver.py:125-130 | a tail the parser refuses spells no prerelease and build |
| JuliaVersion.TailRejected | src/julia_semver/julia_semver.py:125-130 | numbers followed by a tail that spells no prerelease and build are refused, naming the string |
| JuliaVersion.MarkersTogetherRejected | src/julia_semver/julia_semver.py:125-129 | `M.m.p-+` is refused |
| JuliaVersion.FourNumbersRejected | src/julia_semver/julia_semver.py:122-124 | a fourth number is refused |
| JuliaVersion.NoNumberRejected | src/julia_semver/julia_semver.py:122 | the empty string, `v` and `V` are refused |
| Cases.CaretExample | src/julia_semver/tests/test_semver.py:7-14 | `^1.2.3` is [1.2.3, 2.0.0), as is `1.2.3` and unlike `~1.2.3`, with the test's memberships |
| Cases.ZeroMajorExample | src/julia_semver/tests/test_semver.py:18-25 | `^0.2.3`, `0.2.3` and `~0.2.3` are [0.2.3, 0.3.0), with the test's memberships |
| Cases.ZeroMinorExample | src/julia_semver/tests/test_semver.py:28-36 | `^0.0.3`, `0.0.3` and `~0.0.3` admit 0.0.3 alone |
| Cases.ZeroExample | src/julia_semver/tests/test_semver.py:39-45 | `^0`, `0` and `~0` are everything below 1.0.0 |
| Cases.ZeroZeroExample | src/julia_semver/tests/test_semver.py:48-58 | `^0.0`, `0.0` and `~0.0` are everything below 0.1.0 |
| Cases.TildeExample | src/julia_semver/tests/test_semver.py:61-69 | `~1.2.3` is [1.2.3, 1.3.0), with the test's memberships |
| Cases.DroppedExample | src/julia_semver/tests/test_semver.py:72-77 | `1.2` is `1.2.0` under every modifier and `1` is `1.0.0` |
| Cases.InequalityExample | src/julia_semver/tests/test_semver.py:80-100 | `= 1.2.3`, `>= 1.2.3` and `< 1.2.3` with the tests' memberships |
| Cases.HyphenExample | src/julia_semver/tests/test_semver.py:112-121 | `1.2 - 4.5.6` is `1.2.0 - 4.5.6`, and `1.2.3 - 4.5.6` includes both ends |
| Cases.HyphenRoundUpExample | src/julia_semver/tests/test_semver.py:184-186 | `0.1 - 0.2` is [0.1.0, 0.3.0) and `0.1 - 0` contains 0.3.0 |
| Cases.CommaSpec | src/julia_semver/tests/test_semver.py:129-137 | the text `1.2.3, ~9.1, 11` translates, piece by piece after splitting on commas and stripping, to the clauses [1.2.3, 2.0.0), [9.1.0, 9.2.0) and [11.0.0, 12.0.0) |
| Cases.CommaExample | src/julia_semver/tests/test_semver.py:129-137 | the translation of the text `1.2.3, ~9.1, 11` holds for 1.2.3, 1.9.9, 9.1.5 and 11.1.2, and not for 2.0.0, 9.2.0 and 10.0.0 |
| Cases.PkgHyphenExample | src/julia_semver/tests/test_semver.py:149-153 | `^1.2.3` is `1.2.3 - 1`, `~1.2.3` is `1.2.3 - 1.2` and `^0.2.3` is `0.2.3 - 0.2` |
| Cases.TildeMajorExample | src/julia_semver/tests/test_semver.py:155 | `~1` is [1.0.0, 1.1.0) and `1.0.0 - 1` also admits 1.5.0, so the two differ |
| Cases.ExactZeroExample | src/julia_semver/julia_semver.py:45 | `0.0.0` translates to the single version 0.0.0 |
| Cases.UnsupportedOperatorExample | src/julia_semver/tests/test_semver.py:103-109 | `> 1.2.3`, `<= 1.2.3` and `== 1.2.3` are refused |
| Cases.ModifierTwiceExample | src/julia_semver/tests/test_semver.py:190-191 | `^^0.2.3` is refused |
| Cases.ShortVersionExample | src/julia_semver/tests/test_semver.py:13 | `1.8` reads as 1.8.0 |
| Cases.PrereleaseExample | src/julia_semver/tests/test_semver.py:142 | `1.2.3-DEV` reads as release 1.2.3 with the prerelease `DEV` |

### Where the code and the documented behaviour differ

The model follows the code in each of these cases.

- `~M` with a major alone gives [M.0.0, M.1.0). This follows the tilde
  rule as coded (julia_semver.py:49-51), with the missing minor read as 0.
  Julia's Pkg and the tests at test_semver.py:155-156 expect `~1` to equal
  `1.0.0 - 1`, which is [1.0.0, 2.0.0).
  - `PkgRules.TildeMajorOnly` proves the two differ for every major from 1
    on, and `Cases.TildeMajorExample` gives 1.5.0 as a version only the
    hyphen range admits.
- `0.0.0` translates to `=0.0.0`. The code has no rejection of its own.
  The test at test_semver.py:188-189 expects an error, which can only come
  from the range library.
- A bare `-` after the numbers leaves the prerelease absent. The `(-)`
  group is captured and never used (julia_semver.py:142). It is not read
  as a present but empty prerelease.
- Every refusal is the same kind of error (`ValueError`). There is no
  separate error kind for an all-zero version.

## Left out

- The `semantic_version` library. Its parsing of the emitted range text,
  `NpmSpec`, its equality and its `Version` type are foreign code. The
  model replaces the range text with the structured `Spec`. `Holds` gives
  it the usual npm-style meaning on release versions; the source does not
  show what the library makes of the text, so two readings are assumed of
  it rather than derived:
  - `≥` is passed through by `semver_inequality` exactly as written
    (julia_semver.py:62-67), and `Holds` reads `Op.GEUnicode` as `>=`.
  - Bounds are passed through with their digits as written, leading zeros
    included (`01.2.0` in an interval or hyphen clause), and the model reads
    each number by its value (`Value`).
- Prerelease precedence, and the rule that excludes prerelease versions
  from a range match. These belong to the library. `Release` drops the
  prerelease and build before `Holds` is applied.
- The library's own checks on what `version()` hands it: leading zeros
  in numeric prerelease identifiers, and the rejection of a `0.0.0` bound.
- `julia_semver.match` and its `strict` flag. They are used by the tests
  but are not part of the module modelled here.
- The Python regular-expression engine. Each pattern is a hand-written
  recogniser of the same language.
  - Whitespace is the six ASCII characters space, tab, newline, vertical
    tab, form feed and carriage return. Python's `\s` and `str.strip()`
    also treat the four ASCII separators `\x1c`-`\x1f` and the Unicode
    whitespace characters as whitespace; those are left out.
  - Digits are ASCII `0`-`9`; Unicode digits, which `\d` would accept in
    `VERSION_REGEX`, are left out.
  - Letters are ASCII, in both cases, as `re.I` makes `[a-z]`. Unicode
    case folding is left out.
- The range text the translators build (f-strings with a space between
  comparators and ` || ` between clauses). The model keeps the same
  operators and numbers as data. It does not model the text.
- Cases.TildeMajorExample: proves that `~1` and `1.0.0 - 1` differ. The
  test at test_semver.py:155-156 asserts they are equal, and the code
  does not do that.
- Cases.ExactZeroExample: states the translation of `0.0.0`, not the
  error the test at test_semver.py:188-189 expects. That error comes
  from the range library.
- Literal-text versions of the refusals of `1.2.3-4.5.6` and `0.7 1.0`
  are not stated. The general `Specs.HyphenWithoutSpaceRejected` and
  `Specs.SpaceSeparatedRejected` cover them for every pair of fragments.
