# Input masking helper: character-set extractor and live filter

This project models the core of `validtion.js`, a browser helper that masks
form inputs carrying a `data-exp` regular-expression attribute.

- **The extractor** (`extractCharacters`) reads the text of a regular
  expression. It approximates the alphabet the expression accepts in three
  steps. It collects every character listed in the expression's bracket
  classes, expanding `x-y` ranges. It adds the fixed expansions of `\d`, `\s`
  and `\w` wherever those two-character tokens occur in the text. It returns
  the result as a duplicate-free string in insertion order.
- **The live filter** is the `keyup` listener of each masked input. It looks
  the input's pattern up in a per-input cache that was filled once at setup.
  It deletes every character of the input's value that lies outside the cached
  set, and calls `flash_error` exactly when it deleted something.

Files:

- `utf16.dfy` (module `Utf16`): JavaScript strings as sequences of UTF-16 code
  units, code runs, and `String.prototype.includes`.
- `character_set.dfy` (module `CharacterSet`): the bracket-class scanner, the
  class walk, the shorthand table, and the extractor. The imperative extractor
  is `ExtractCharacters` with its helper methods. Its loops build the set the
  way the source does. Each helper method is proved equal to adding a
  specification sequence to the set (`CodeRun`, `Visit`, the walk of a class
  body, a shorthand's expansion, and so on). `ExtractCharacters` is proved
  equal to the specification function `Extracted`, and the lemmas state what
  `Extracted` holds.
- `live_filter.dfy` (module `LiveFilter`): the strip operation `Strip`, the
  match of unsupported characters `Invalid`, the keyup step `Filter`, and the
  class `ValidatedInput`. That class holds the input's cache and value, and
  its constructor and `OnKeyUp` method update them in place.

Characters are UTF-16 code units (`CodeUnit`, 0 to 0xFFFF), because the
source reads them with `charCodeAt` and builds them with `String.fromCharCode`.
A JavaScript `Set` read back in insertion order is a duplicate-free sequence.
`charSet.add` appends a code only when it is absent.

The bracket scanner is the global match of `/\[([^\]]+)\]/g` at
validtion.js:57. A match starts at a `[` whose first following `]` is not the
next character. The match ends at that `]`, and the scan resumes after it.
`MatchesAtIff`, `SpansOrdered` and `SpansCover` show that the scan agrees with
that regular expression. Every span it reports is a match, the spans do not
overlap, and every index where a match could start is covered.

The source's quirks are kept and proved:

- A `^` at the head of a class is a literal (`CaretScenario`).
- A `[` inside a class is a literal (`NestedOpenScenario`).
- `[]` is no class (`EmptyClassSkipped`, `EmptyClassScenario`).
- A shorthand token counts wherever it occurs, even inside a negated class
  (`ShorthandAnywhere`).
- The `-` that the pattern `^[0-9]{3}-[0-9]{4}$` demands lies outside every
  class, so it is not supported and the live filter deletes it
  (`SeparatorScenario`, `SeparatorFieldScenario`).

## Model

| member | source | states |
|---|---|---|
| `Utf16.CodeRun` | validtion.js:68-70 | the codes `start+1 .. end-1` the range loop visits: its length, each element in ascending order, and membership exactly for codes in the half-open interval |
| `Utf16.Includes` | validtion.js:80 | `pattern.includes(seq)` holds exactly when the token occurs at some index of the text |
| `CharacterSet.FirstClose` | validtion.js:57 | the index of the first `]` at or after a position, with no `]` before it, or the text length when there is none |
| `CharacterSet.MatchesAtIff` | validtion.js:57 | the scanner's test at an index holds exactly when `\[([^\]]+)\]` can match there |
| `CharacterSet.MatchSpansFrom` | validtion.js:57 | every span the global scan reports is a match of `\[([^\]]+)\]` starting at or after the scan position |
| `CharacterSet.SpansOrdered` | validtion.js:57 | the matches are in text order and do not overlap |
| `CharacterSet.SpansCover` | validtion.js:57 | the scan misses no match: every index where a match can start opens a reported span or lies inside one |
| `CharacterSet.Matches` | validtion.js:57 | each element of `pattern.match(...)` is a `[`, at least one non-`]` character, and a `]` |
| `CharacterSet.Inner` | validtion.js:61 | `match.slice(1, -1)` drops the first and last character and keeps the rest in place; for a match of the scanner the body is non-empty and holds no `]` |
| `CharacterSet.Visit` | validtion.js:63-73 | visiting an index adds the codes strictly between the neighbours of an interior hyphen, or the character itself otherwise |
| `CharacterSet.WalkMembers` | validtion.js:61-74 | the walk of a class body adds exactly the codes that one of its indices contributes |
| `CharacterSet.ClassUnitsMembers` | validtion.js:59-76 | walking all matches adds exactly the codes some match's class body contributes |
| `CharacterSet.ExpansionTables` | validtion.js:50-54 | the digit, whitespace and word expansions have 10, 6 and 63 characters, none repeated |
| `CharacterSet.ExpansionMembers` | validtion.js:50-54 | the expansion of `\d` holds exactly the decimal digits, that of `\s` exactly space, tab, newline, carriage return, vertical tab and form feed, and that of `\w` exactly the Latin letters, digits and `_` |
| `CharacterSet.ShorthandMembers` | validtion.js:79-85 | the shorthand step adds exactly the expansions of the tokens `\d`, `\s`, `\w` that the text includes |
| `CharacterSet.Add` | validtion.js:72 | `charSet.add`: the set gains exactly the added code, keeps its old contents as a prefix, and stays duplicate-free |
| `CharacterSet.AddAll` | validtion.js:81-83 | adding a sequence of codes one by one: the set gains exactly those codes, keeps its prefix, and stays duplicate-free |
| `CharacterSet.AddAllConcat` | validtion.js:59-85 | adding two sequences one after the other is adding their concatenation |
| `CharacterSet.AddRange` | validtion.js:68-70 | the range loop leaves the set with the codes strictly between start and end added in ascending order |
| `CharacterSet.AddVisit` | validtion.js:63-73 | one iteration of the class walk adds what `Visit` prescribes for that index |
| `CharacterSet.AddClass` | validtion.js:60-75 | the callback on one match adds the whole walk of its class body |
| `CharacterSet.AddShorthand` | validtion.js:80-84 | one shorthand adds its whole expansion when the text includes its token, and nothing otherwise |
| `CharacterSet.AddClasses` | validtion.js:59-76 | `matches.forEach` adds the walks of all matches in order |
| `CharacterSet.AddShorthands` | validtion.js:79-85 | the shorthand loop adds the expansions of the present tokens in table order |
| `CharacterSet.Extracted` | validtion.js:43-88 | the returned string holds every code the class walk or the shorthand step contributed, each exactly once |
| `CharacterSet.ExtractCharacters` | validtion.js:43-88 | the returned string equals `Extracted`, has no duplicate, and holds a code exactly when a bracket class contributes it or a shorthand present in the text expands to it |
| `CharacterSet.ExtractedMembers` | validtion.js:43-88 | soundness and completeness of the extracted set, and no duplicates |
| `CharacterSet.LiteralKept` | validtion.js:71-73 | every class character that is not an interior hyphen is in the set, including `^`, `[` and boundary hyphens |
| `CharacterSet.RangeKept` | validtion.js:64-70 | for an interior hyphen, every code strictly between its neighbours is in the set |
| `CharacterSet.RangeInclusive` | validtion.js:61-73 | a range whose two ends are ordinary characters supports both ends and everything between them |
| `CharacterSet.EmptyRangeAddsNothing` | validtion.js:68 | an interior hyphen whose start is not below its end adds nothing, not even itself |
| `CharacterSet.HyphenOrigin` | validtion.js:64-72 | a class adds `-` exactly when `-` is its first or last character or some range straddles the code of `-` |
| `CharacterSet.HyphenEndpointDropped` | validtion.js:64-70 | in the class body `a--z` the range start `-` is itself a range operator, so `-` is not added |
| `CharacterSet.NoOpenNoSpans` | validtion.js:57-59 | a text with no `[` has no bracket match |
| `CharacterSet.EmptyClassSkipped` | validtion.js:57 | `[]` is no match, and the scan goes on after it |
| `CharacterSet.NothingExtracted` | validtion.js:47-87 | a text with no bracket-class match and none of the three tokens yields the empty string |
| `CharacterSet.NoBackslashNoShorthand` | validtion.js:79-80 | a text without a backslash includes none of the shorthand tokens |
| `CharacterSet.ShorthandAnywhere` | validtion.js:79-85 | a shorthand token placed anywhere in the text, whatever surrounds it, puts its whole expansion in the set |
| `CharacterSet.AddAllDistinct` | validtion.js:87 | adding distinct codes to an empty set lists them in the order they were added |
| `CharacterSet.ExtractedInOrder` | validtion.js:87 | when no code is contributed twice, the result lists the contributions in insertion order |
| `CharacterSet.DigitPatternScenario` | validtion.js:43-88 | `/^\d+$/` yields exactly `0123456789` |
| `CharacterSet.DigitRangeScenario` | validtion.js:57-73 | `/[0-9]/` yields exactly `0123456789` |
| `CharacterSet.NestedOpenScenario` | validtion.js:57-61 | in `[a[b]` the match ends at the first `]` and the inner `[` is a literal: the result is `a[b` |
| `CharacterSet.EmptyClassScenario` | validtion.js:57 | `/[]a]/` yields the empty string |
| `CharacterSet.CaretScenario` | validtion.js:61-73 | `/[^a-c]/` yields `^abc`: the caret of a negated class is a literal |
| `CharacterSet.SeparatorScenario` | validtion.js:43-88 | `/^[0-9]{3}-[0-9]{4}$/` yields the ten digits once each, and `-` is not among them |
| `LiveFilter.Invalid` | validtion.js:31-32 | `value.match(/[^set]/g)` reports at most as many characters as the value has, each outside the set |
| `LiveFilter.Strip` | validtion.js:37 | `value.replace(/[^set]/g, '')` is no longer than the value and holds only characters of the set |
| `LiveFilter.InvalidMembers` | validtion.js:31-32 | the match of unsupported characters reports exactly the characters of the value that the set lacks |
| `LiveFilter.StripMembers` | validtion.js:37 | the filtered value holds exactly the characters of the value that the set holds |
| `LiveFilter.StripSubsequence` | validtion.js:37 | the filtered value is a subsequence of the value: characters are only deleted, never inserted or reordered |
| `LiveFilter.StripCounts` | validtion.js:37 | each supported character keeps all its occurrences, and each unsupported one loses all of them |
| `LiveFilter.StripInvalidPartition` | validtion.js:31-37 | what is kept and what is reported as invalid together account for every character of the value |
| `LiveFilter.StripUnchangedIff` | validtion.js:37 | filtering leaves the value unchanged exactly when every character is supported |
| `LiveFilter.InvalidEmptyIff` | validtion.js:32-34 | the match finds nothing exactly when every character is supported |
| `LiveFilter.StripIdempotent` | validtion.js:37 | filtering twice equals filtering once |
| `LiveFilter.StripConcat` | validtion.js:37 | filtering works character by character: it distributes over concatenation |
| `LiveFilter.Filter` | validtion.js:25-39 | with no entry or an empty set the value is unchanged and nothing flashes; otherwise the value is filtered; it flashes exactly when some character is unsupported, which is exactly when the value changes |
| `LiveFilter.FilterFlashes` | validtion.js:34-38 | a non-empty set and an unsupported character: the value is filtered and the error flashes |
| `LiveFilter.FilterSupported` | validtion.js:37 | after a keyup with a non-empty set, every character of the value is supported |
| `LiveFilter.FilterSettles` | validtion.js:24-40 | a second keyup on the filtered value changes nothing and flashes nothing |
| `LiveFilter.TypeOneMore` | validtion.js:24-40 | typing one character into a clean value keeps it silently when supported, and removes it with a flash otherwise |
| `LiveFilter.StripDigitsScenario` | validtion.js:31-37 | against the ten digits, `12x3` filters to `123` and the match reports `x` |
| `LiveFilter.DigitFieldScenario` | validtion.js:16-38 | for the pattern `^\d+$`, typing `12x3` leaves `123` and flashes |
| `LiveFilter.SeparatorFieldScenario` | validtion.js:16-38 | for the pattern `^[0-9]{3}-[0-9]{4}$`, typing `12a3-45b6` leaves `123456` and flashes |
| `LiveFilter.ValidatedInput.constructor` | validtion.js:9-22 | a fresh per-input cache that maps a non-empty pattern that compiles to its extracted set, and holds nothing else; `regexCache.get(exp)` then gives that set, or nothing |
| `LiveFilter.ValidatedInput.ReadBack` | validtion.js:16-17 | while the input is valid, `regexCache.get(exp)` on any keyup (line 25) reads back the set stored once at setup: the extracted set of a non-empty pattern that compiles, and no entry otherwise |
| `LiveFilter.ValidatedInput.OnKeyUp` | validtion.js:24-40 | the keyup sets the value to what `Filter` prescribes, reports the flash, and leaves the cache as it was |

## Left out

- DOM plumbing: `querySelectorAll`, attribute reads, `addEventListener`, and
  the submit listener (validtion.js:1-7, 12, 138-149) are host I/O. The
  attribute values and the input's value are parameters of the model.
- `validateInputs` (validtion.js:91-135) is not modelled. Its substance is
  `new RegExp(exp).test(value)`, a test by the browser's regular-expression
  engine, which is foreign code.
- Compiling the pattern (`new RegExp(exp)`, validtion.js:17) and its
  `toString()` (validtion.js:45) are foreign. The constructor takes the text
  of the compiled expression as an `Option`, with `None` when compiling
  throws. The extractor takes that text as a plain input.
- The regular expression `[^...]` built at validtion.js:31 embeds the set
  without escaping `]`, `\`, `^` or `-`, so for some sets it throws or
  matches the wrong characters. The model gives the intended meaning: a
  character is invalid exactly when it is not in the set.
- The error message text, the `data-suggestion` attribute and the
  `console.error` log (validtion.js:20, 27) are side channels. The call to
  `flash_error` is the boolean `flashed`.
- LiveFilter.Filter: assumes `flash_error` is defined and returns normally.
  The call at validtion.js:35 has no `typeof` guard, unlike the one at
  validtion.js:118. When `flash_error` is undefined or throws, the listener
  stops at line 35, line 37 never runs, and the value keeps its unsupported
  characters. The model always strips them.
- LiveFilter.ValidatedInput.OnKeyUp: makes the same assumption about
  `flash_error` as `Filter`, so it does not capture a keyup that throws at
  validtion.js:35 and leaves `input.value` unchanged.
- Surrogate pairs: characters are single UTF-16 code units, as
  `charCodeAt` and `fromCharCode` treat them.
- The cache is one map per input, as at validtion.js:9. It is created empty,
  so the `has` test at validtion.js:16 always passes. A cache shared across
  inputs is not part of the source.
- For the pattern `^[0-9]{3}-[0-9]{4}$` the live filter deletes the `-`
  between the digit groups, because it lies outside both bracket classes:
  typing `12a3-45b6` leaves `123456` (`SeparatorFieldScenario`).
- A range `x-y` supports its ends only through their own literal visits.
  When an end is itself a range operator, as the first `-` in `a--z`, that
  end is not supported. `RangeInclusive` therefore requires ordinary ends, and
  `HyphenEndpointDropped` shows the exception.
