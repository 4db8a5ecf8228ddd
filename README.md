# kebab-case, modelled in Dafny

`kebabCase` (index.ts:61-69) turns any string into a kebab-case slug. It is
one chain of six string operations:

1. canonical decomposition (`normalize("NFD")`);
2. deletion of every combining diacritical mark, U+0300 to U+036F;
3. `trim()`;
4. `toLowerCase()`;
5. replacement of every maximal run of characters other than `a`-`z` and `0`-`9`
   by a single `-`;
6. deletion of the hyphens at the start and at the end.

The model states each step as a Dafny function over strings of Unicode scalar
values (`seq<char>`), and `Pipeline.KebabCase` composes them in the source's
order. Three steps depend on Unicode tables:

- Decomposition, and lower-casing outside ASCII, are parameters of the
  pipeline. Every property below holds whatever those two tables do. Three
  exceptions each name the one fact about decomposition they need: the
  fixed point `KebabProperties.StepsKeepKebab`, idempotence
  (`KebabProperties.KebabCaseIdempotent`), and the worked examples.
- `trim` removes the characters of the Unicode category Zs (space
  separator), together with the other ECMAScript white space and line
  terminators. `Chars.IsWhitespace` fixes that set as listed by Unicode 6.3
  and later, current through Unicode 15.0.

Modules:

- `Chars`: the character classes. These are marks, ECMAScript white space,
  ASCII, the `[a-z0-9]` class, the hyphen, and the ASCII lower-case mapping.
- `Seqs`: generic filtering and trimming. Steps 2 and 3 and step 6 are built
  from these.
- `Pipeline`: the six steps and their composition.
- `KebabProperties`: what the pipeline guarantees. This covers content, order,
  emptiness, fixed points and idempotence.
- `WordView`: an independent description of the result: the words of the
  lower-cased string joined by single hyphens. It includes the proof that
  steps 5 and 6 compute exactly that.
- `Examples`: the documented examples and a few edge cases.

## Model

| member | source | states |
|---|---|---|
| Pipeline.StripMarks | index.ts:64 | no combining mark U+0300-U+036F is left, and every other character keeps its number of occurrences |
| KebabProperties.StripMarksAppend | index.ts:64 | deleting the marks distributes over concatenation, so what is kept stays in its order |
| KebabProperties.StripMarksKeepsUnmarked | index.ts:64 | a string without marks is left unchanged |
| KebabProperties.StripMarksChar | index.ts:64 | a single character is deleted exactly when it is a combining mark |
| Chars.IsWhitespace | index.ts:65 | the characters `trim()` removes: TAB, LF, VT, FF, CR, space, U+00A0, U+1680, U+2000-U+200A, U+2028, U+2029, U+202F, U+205F, U+3000 and U+FEFF. It is a predicate with no contract of its own; `Pipeline.Trim` states what is removed in terms of it |
| Pipeline.Trim | index.ts:65 | the result is the piece after the leading white space, only white space follows it, it starts and ends with non-white-space, and it is empty exactly when the input is all white space |
| Pipeline.LowerFrom | index.ts:66 | on ASCII input from position `i` on, the length is kept and each character is mapped by the ASCII lower-case mapping |
| Pipeline.LowerAt | index.ts:66 | the lower-case form of one character: an ASCII character by the ASCII mapping, any other by the abstract table. It has no contract of its own; `Pipeline.LowerFrom` and `Pipeline.Lower` state its effect on ASCII strings |
| Pipeline.Lower | index.ts:66 | on ASCII input, `A`-`Z` become `a`-`z`, every other character is kept, and the length is unchanged |
| KebabProperties.LowerKeepsKebabChars | index.ts:66 | a string over `[a-z0-9-]` is unchanged by lower-casing, whatever the non-ASCII table |
| Pipeline.SeparatorRun | index.ts:67 | the length of the longest prefix outside `[a-z0-9]`, which is how far one match of `[^a-z0-9]+` reaches |
| Pipeline.SeparatorRunIsLeadingRun | index.ts:67 | the separator run is the generic longest leading run `Seqs.LeadingRun` for the separator class |
| WordView.WordLengthIsLeadingRun | index.ts:67 | the word length is the generic longest leading run `Seqs.LeadingRun` for the class `[a-z0-9]` |
| Pipeline.Collapse | index.ts:67 | the global replacement of `[^a-z0-9]+` by `-`. It has no contract of its own. Its properties are in `WordView.CollapseIsJoinOfWords`, `KebabProperties.CollapseKeepsAlnums`, `Pipeline.CollapseAlphabet`, `Pipeline.CollapseNoDoubleHyphen` and `Pipeline.CollapseEnds` |
| Pipeline.SeparatorRunOfPadded | index.ts:67 | a run of separators followed by a letter, a digit or nothing is matched in full |
| Pipeline.CollapseEnds | index.ts:67 | the result of step 5 is empty iff its input is, and starts (ends) with `-` iff the input starts (ends) with a separator |
| Pipeline.CollapseAlphabet | index.ts:67 | the result of step 5 is over `[a-z0-9-]` |
| Pipeline.CollapseNoDoubleHyphen | index.ts:67 | the result of step 5 never has two adjacent hyphens |
| KebabProperties.CollapseKeepsCollapsed | index.ts:67 | a string over `[a-z0-9-]` without adjacent hyphens is unchanged by step 5 |
| KebabProperties.CollapseAlnumPrefix | index.ts:67 | letters and digits at the front pass through step 5 unchanged |
| KebabProperties.CollapseSeparatorRun | index.ts:67 | a maximal run of separators of any length becomes exactly one hyphen |
| KebabProperties.CollapseKeepsAlnums | index.ts:67 | deleting the hyphens of step 5's result gives exactly the `[a-z0-9]` characters of its input, in order |
| Pipeline.StripEdgeHyphens | index.ts:68 | the result is the piece after the leading hyphens, only hyphens follow it, it starts and ends with a non-hyphen, and it is empty exactly when the input is all hyphens |
| KebabProperties.StripEdgeHyphensKeepsRest | index.ts:68 | step 6 deletes nothing but hyphens |
| Pipeline.StripEdgeHyphensMakesKebab | index.ts:67-68 | step 6 turns any output of step 5 into kebab case |
| Pipeline.Lowered | index.ts:63-66 | steps 1 to 4 composed, the string step 5 works on. It has no contract of its own; `KebabProperties.KebabCaseKeepsAlnums`, `KebabProperties.KebabCaseEmpty` and `WordView.KebabCaseIsJoinOfWords` describe the result in terms of it |
| Pipeline.KebabCase | index.ts:61-69 | the result is over `[a-z0-9-]`, has no `--`, and neither starts nor ends with `-` |
| KebabProperties.KebabCaseKeepsAlnums | index.ts:61-69 | deleting the hyphens of the result gives exactly the letters and digits of the lower-cased string, in order |
| KebabProperties.KebabCaseEmpty | index.ts:61-69 | the result is empty exactly when the lower-cased string has no `[a-z0-9]` character |
| KebabProperties.StepsKeepKebab | index.ts:61-69 | a kebab-case string is its own conversion, given that decomposition leaves it alone |
| KebabProperties.KebabCaseIdempotent | index.ts:61-69 | converting the result again gives the same result, given that decomposition leaves ASCII strings alone |
| WordView.WordsAreRuns | index.ts:67 | every word, i.e. every maximal run of `[a-z0-9]`, is non-empty and made of letters and digits |
| WordView.WordsEmpty | index.ts:67 | a string has no word exactly when it is all separators |
| WordView.JoinEdges | index.ts:68 | words joined by hyphens are empty only when there are no words, and never start or end with a hyphen |
| WordView.CollapseFirstWord | index.ts:67 | step 5 on a string that starts with a word gives that word followed by step 5 on the rest |
| WordView.CollapseIsJoinOfWords | index.ts:67 | step 5 gives the words joined by single hyphens, plus one hyphen at each end where the input has separators there |
| WordView.KebabCaseIsJoinOfWords | index.ts:61-69 | the result is exactly the words of the lower-cased string joined by single hyphens |
| Examples.AsciiExample | index.ts:65-68 | once the marks are gone, an input whose steps 3 to 5 are known gives that known result |
| Examples.HelloWorld | index.ts:15 | `"Hello World"` gives `"hello-world"` |
| Examples.ThisIsATest | index.ts:56 | `"This_is_a_test"` gives `"this-is-a-test"` |
| Examples.CestUnElephant | index.ts:57 | `"C'est un éléphant"` gives `"c-est-un-elephant"` when decomposition splits each `é` into `e` and U+0301 |
| Examples.Elephant | index.ts:18 | `"éléphant"` gives `"elephant"` when decomposition splits each `é` into `e` and U+0301 |
| Examples.Cafe | index.ts:63-64 | `"café"` gives `"cafe"` when decomposition splits the `é` |
| Examples.HelloSpacesWorld | index.ts:67 | `"Hello   World"` gives `"hello-world"`: three spaces become one hyphen |
| Examples.EmptyInput | index.ts:61-69 | the empty string gives the empty string |
| Examples.SpacesOnly | index.ts:65 | `"   "` gives the empty string |
| Examples.HyphensOnlyInput | index.ts:67-68 | `"---"` gives the empty string |
| Examples.AlreadyKebab | index.ts:61-69 | `"already-kebab-case"` is its own conversion |

## Left out

- Canonical decomposition (index.ts:63) is not modelled from the Unicode tables. It is the field `nfd` of `Pipeline.UnicodeTables`, and the properties hold for every such function.
- Lower-casing outside ASCII (index.ts:66) is not modelled from the Unicode tables either. It is the field `lowerNonAscii`, which gets the whole string and the position, so context-sensitive and length-changing mappings fit.
- Pipeline.Lower: states its result only for ASCII input, because the non-ASCII mapping is abstract. For other input, only the properties of the later steps apply.
- KebabProperties.KebabCaseIdempotent: requires that decomposition leaves every ASCII string unchanged. The Unicode Character Database guarantees this, but the abstract table does not.
- KebabProperties.StepsKeepKebab: requires that decomposition leaves the given kebab-case string unchanged, for the same reason.
- The examples with accented letters require that decomposition maps each composed `é` to `e` followed by U+0301, for the same reason.
- Chars.IsWhitespace: the space separators (Zs) are the list of Unicode 6.3 and later, current through Unicode 15.0. U+180E MONGOLIAN VOWEL SEPARATOR was Zs before Unicode 6.3 and is not white space here, and a later Unicode version that adds a Zs character is not followed.
- The regular-expression engine is not modelled. Steps 2, 5 and 6 are stated as the string functions the three global replacements compute.
- JavaScript strings are sequences of UTF-16 code units. The model works on Unicode scalar values, so lone surrogates cannot be expressed.
- The `CaseFunction` type alias (index.ts:34) only types `kebabCase`, so it has no counterpart.
- The module documentation (index.ts:1-21) is covered only through its two examples.
