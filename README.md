# filter_metadata: the placeholder filter, modelled and proved in Dafny

filter_metadata is a Moodle text filter. Its method `filter_metadata::filter`
rewrites placeholders of the form `{{metadata::<category>::<field>}}` in a text
to `<category> = <field>`. It makes one `preg_replace_callback` pass with the
pattern `/{{metadata::([a-zA-Z_]+(?:=[0-9])*)::([a-zA-Z0-9_]+)}}/U` and the
callback `find_metadata_callback`, which joins the two capture groups with
`" = "`. When the result of the pass is empty in PHP's sense (`null` on a
regex failure, `""` or `"0"`), the original text is returned instead.

The project has four modules:

- `MetadataPattern` (`pattern.dfy`) defines the grammar of a token.
  - `IsCategory` is group 1: letters or underscores, then any number of
    `=` + one digit.
  - `IsField` is group 2: a non-empty run of `[a-zA-Z0-9_]`.
  - `Token(category, field)` is the text of a token.
  - `MatchAt(s, i)` is the pattern tried at one position. It returns the match
    there, or `None`. It is proved sound and complete against the grammar.
  - The ungreedy modifier `/U` does not change which text a match at a given
    start covers. None of the character classes contains `=`, `:` or `}`, so
    every lazy repetition can stop only at the end of its longest run.
    `MatchAt` therefore reads longest runs.
- `MetadataFilter` (`filter.dfy`) holds the filter itself.
  - `Callback` is `find_metadata_callback`.
  - `ReplaceFrom` and `MatchesFrom` are the left-to-right pass of
    `preg_replace_callback`. Where a match starts, the callback's result is
    emitted and the pass resumes after the match. Elsewhere one character is
    copied.
  - `Filter(text, regexFailed)` is `filter_metadata::filter`, including the
    `empty()` guard.
- `FilterProperties` (`properties.dfy`) states what the filter promises against
  the grammar alone.
  - A leftmost scan (`IsLeftmostScan`) is the list of tokens found from left
    to right, each the first token at or after the end of the previous one.
  - `Splice` rebuilds a text from such a list. It copies all text outside the
    tokens and writes `<category> = <field>` for each token.
  - These definitions are proved to describe the filter exactly. Further
    lemmas prove the identity, length, guard and idempotence properties.
- `FilterScenarios` (`scenarios.dfy`) proves what the filter returns on
  concrete texts: tokens it rewrites and near misses it leaves as they are.
  It also states, in terms of the grammar, each way a match at a position
  can fail: no category, no `::` after it, no field, or no closing `}}`.

The instance selector in the pattern is `(?:=[0-9])*`. Each `=` takes exactly
one digit, so `course=2` and `course=2=3` are categories and `course=234` is
not. The comment at filter.php:40 gives `{{metadata::course=234::credits}}` as
the shape of a placeholder and calls `=234` optional, as if a multi-digit
instance id were accepted. The model follows the code:
`InstanceDigitsAreSingle` and `MultiDigitInstanceStaysLiteral` prove that such
a token stays literal.

`filter` reads no state outside its arguments, and the callback depends on its
match alone. Both are therefore Dafny functions without `reads` clauses.

## Model

| member | source | states |
|---|---|---|
| MetadataPattern.IsLetter | filter.php:41 | definition of the class `[a-zA-Z_]`; `LetterRunEnd` and `LettersThenSuffix` state its behaviour |
| MetadataPattern.IsDigit | filter.php:41 | definition of the class `[0-9]`; `InstanceDigitsAreSingle` states its behaviour |
| MetadataPattern.IsWordChar | filter.php:41 | definition of the class `[a-zA-Z0-9_]`; `WordRunEnd` and `FieldScan` state its behaviour |
| MetadataPattern.IsInstanceSuffix | filter.php:41 | definition of `(?:=[0-9])*`: zero or more `=` + one digit; `SuffixEnd` and `InstanceDigitsAreSingle` state its behaviour |
| MetadataPattern.IsCategory | filter.php:41 | definition of group 1 `[a-zA-Z_]+(?:=[0-9])*`; `LettersThenSuffix`, `InstanceDigitsAreSingle` and `CategoryScan` state its behaviour |
| MetadataPattern.IsField | filter.php:41 | definition of group 2 `[a-zA-Z0-9_]+`; `FieldScan` states its behaviour |
| MetadataPattern.Token | filter.php:41 | definition of the text a match covers, `{{metadata::` + group 1 + `::` + group 2 + `}}`; `TokenShape`, `MatchAt` and `MatchAtComplete` state its behaviour |
| MetadataFilter.Callback | filter.php:57-59 | definition of `find_metadata_callback`: group 1, `" = "`, group 2; `CallbackInert` states its behaviour |
| MetadataFilter.ReplaceFrom | filter.php:41-42 | definition of the `preg_replace_callback` pass from a position; `ReplaceIsSplice` states its behaviour |
| MetadataFilter.MatchesFrom | filter.php:41-42 | definition of the matches the pass hands to the callback, in call order; `ScanIsLeftmost` states its behaviour |
| MetadataFilter.Substitute | filter.php:41-42 | definition of the pass over the whole text; `FilterIsLeftmostSplice` and `SpliceTokenFree` state its behaviour |
| MetadataFilter.IsPhpEmpty | filter.php:43 | definition of PHP's `empty()` on the pass's result: `null`, `""` or `"0"`; `GuardTransparent` states its behaviour |
| MetadataFilter.Filter | filter.php:38-49 | definition of `filter_metadata::filter` with its `empty()` guard; `GuardTransparent`, `FilterIsLeftmostSplice`, `FilterLength`, `IdentityIffTokenFree` and `FilterIdempotent` state its behaviour |
| MetadataPattern.LetterRunEnd | filter.php:41 | the run of `[a-zA-Z_]` that starts at i ends at the returned j: every character before j is in the class and the one at j is not (or j is the end) |
| MetadataPattern.WordRunEnd | filter.php:41 | the same for `[a-zA-Z0-9_]`, the class of the field |
| MetadataPattern.SuffixEnd | filter.php:41 | the longest `(?:=[0-9])*` at i: what it covers is an instance suffix, and no further `=` + digit follows it |
| MetadataPattern.LettersThenSuffix | filter.php:41 | a non-empty run of letters followed by an instance suffix is a category (group 1) |
| MetadataPattern.InstanceDigitsAreSingle | filter.php:40-41 | in any category every digit directly follows an `=`, so each instance selector is a single digit |
| MetadataPattern.MatchAt | filter.php:41 | soundness: a match at i starts at i, ends inside the text, its groups are a category and a field, and the text it covers is exactly the token of those groups |
| MetadataPattern.CategoryScan | filter.php:41 | a category followed by `:` is covered exactly by the letter run plus the instance suffix, so longest runs find the whole group 1 |
| MetadataPattern.FieldScan | filter.php:41 | a field followed by a character outside `[a-zA-Z0-9_]` is covered exactly by the word run |
| MetadataPattern.MatchAtOfPositions | filter.php:41 | the pattern matches at i whenever the opening, a category, `::`, a field and `}}` follow one another from i |
| MetadataPattern.MatchAtComplete | filter.php:41 | completeness: wherever the text holds a token with groups c and f at i..j, the pattern matches there with exactly that span and those groups |
| MetadataPattern.TokenAtStartUnique | filter.php:41 | at most one token of the grammar starts at a given position: span and groups are determined by the start |
| FilterProperties.TokenShape | filter.php:41 | a token is 16 characters longer than its two groups, starts with `{`, ends with `}` and holds no space |
| FilterProperties.CallbackInert | filter.php:57-59 | the callback's result is 13 characters shorter than the token it replaces and holds no brace |
| FilterProperties.NoTokenWhereNoMatch | filter.php:41-42 | where the pattern fails at a position, no token of the grammar starts there |
| FilterProperties.ScanIsLeftmost | filter.php:41-42 | the matches handed to the callback, in call order, form the leftmost non-overlapping scan of the text |
| FilterProperties.LeftmostScanUnique | filter.php:41-42 | any two leftmost scans of a text are equal (`ScanIsLeftmost` gives one, so there is exactly one) |
| FilterProperties.LeftmostIsPlaced | filter.php:41-42 | the spans of a leftmost scan lie in the text in order and do not overlap |
| FilterProperties.ReplaceIsSplice | filter.php:41-42 | the pass's output is the text with each match replaced by the callback's result and every other character copied |
| FilterProperties.SpliceLength | filter.php:41-59 | splicing a leftmost scan of n tokens shortens the text by exactly 13 × n |
| FilterProperties.GuardTransparent | filter.php:39-48 | the `empty()` guard returns the text on a regex failure and otherwise never changes the pass's result; the filter's output is empty exactly when its input is |
| FilterProperties.LoneToken | filter.php:38-60 | a text that is a single token becomes `<category> = <field>` |
| FilterProperties.FilterIsLeftmostSplice | filter.php:38-60 | the filter's output is the leftmost scan spliced: tokens replaced from left to right, text before, between and after copied |
| FilterProperties.FilterLength | filter.php:38-60 | the output is the input's length minus 13 for each token replaced |
| FilterProperties.IdentityIffTokenFree | filter.php:38-48 | the filter returns its input unchanged if and only if the input holds no token |
| FilterProperties.NoBraceNoToken | filter.php:41 | no token starts at a position that does not hold `{` |
| FilterProperties.OneTokenSplice | filter.php:38-60 | a text whose only token is at one span is rewritten at that span alone, the text on either side copied |
| FilterProperties.TokenInPlainText | filter.php:38-60 | a token between two runs of text without `{` is rewritten and both runs are copied unchanged |
| FilterProperties.PrefixTokenFree | filter.php:41-42 | a stretch of text where no token starts is, on its own, free of tokens |
| FilterProperties.JoinTokenFree | filter.php:57-59 | joining token-free text, a callback result and token-free text gives token-free text, because the result holds no brace and a token holds no space |
| FilterProperties.SpliceTokenFree | filter.php:41-42 | the output of a pass holds no token: replacement text is never matched again |
| FilterProperties.FilterIdempotent | filter.php:38-48 | filtering the filter's output changes nothing |
| FilterScenarios.RejectsEmptyCategory | filter.php:41 | no match where the text ends right after `{{metadata::` or the next character is not a letter |
| FilterScenarios.NoMatchWithoutSeparator | filter.php:41 | no match at i when no category written after `{{metadata::` at i is followed by `::` |
| FilterScenarios.NoMatchWithoutField | filter.php:41 | no match at i when every category written after `{{metadata::` at i and followed by `::` is followed by the end of the text or by a character outside `[a-zA-Z0-9_]` |
| FilterScenarios.NoMatchWithoutClose | filter.php:41 | no match at i when no category and field written after `{{metadata::` at i, with `::` between them, are followed by `}}` |
| FilterScenarios.UnchangedWhenFirstFails | filter.php:41-48 | a text of at least two characters, rejected at its start, with no `{` from position 2 on comes back unchanged |
| FilterScenarios.DigitAfterDigitRejected | filter.php:41 | a string with a digit not directly after `=` is not a category |
| FilterScenarios.MultiDigitInstanceRejected | filter.php:40-41 | `course=234`, the comment's example, is not a category |
| FilterScenarios.TwoInstanceSelectorsAccepted | filter.php:41 | `course=2=3` is a category |
| FilterScenarios.CourseInstanceTwo | filter.php:38-60 | `{{metadata::course=2::credits}}` becomes `course=2 = credits` |
| FilterScenarios.TwoInstanceSelectors | filter.php:38-60 | `{{metadata::course=2=3::x}}` becomes `course=2=3 = x` |
| FilterScenarios.TextAroundTokenCopied | filter.php:38-60 | `Credits: {{metadata::course::credits}}!` becomes `Credits: course = credits!` |
| FilterScenarios.MultiDigitInstanceStaysLiteral | filter.php:40-48 | `{{metadata::course=234::credits}}` is returned unchanged |
| FilterScenarios.HyphenStaysLiteral | filter.php:41-48 | `{{metadata::my-course::credits}}` is returned unchanged |
| FilterScenarios.EmptyCategoryStaysLiteral | filter.php:41-48 | `{{metadata::::credits}}` is returned unchanged |
| FilterScenarios.EmptyFieldStaysLiteral | filter.php:41-48 | `{{metadata::course::}}` is returned unchanged |
| FilterScenarios.MissingCloseStaysLiteral | filter.php:41-48 | `{{metadata::course::credits}` is returned unchanged |
| FilterScenarios.SpaceStaysLiteral | filter.php:41-48 | `{{metadata::course::credit points}}` is returned unchanged |

## Left out

- version.php only assigns plugin metadata (version numbers and the dependency on `local_metadata`). It has no behaviour.
- The `moodle_text_filter` base class and filter registration are framework code outside this repository.
- The `$options` parameter of `filter` is never read, so `Filter` does not take it.
- PCRE internals are not modelled. A failure of `preg_replace_callback` (for instance its backtrack limit), where it returns `null`, is the `regexFailed` parameter of `Filter`. When and why the engine fails is not modelled.
- Text is a sequence of characters, not of bytes. Every character the pattern names is ASCII, so the two views agree on where tokens are. Invalid byte sequences are not represented.
- The callback only echoes its two groups. No metadata value is looked up, cached or localized, and the model invents none.
