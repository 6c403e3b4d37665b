# Case converters, modelled in Dafny

The repository holds three small JavaScript case converters. This project
models each of them as a pure Dafny function and proves what they return.

- `convertCase` (refined_prompt.js) checks that its input is a string. It
  splits the input on every maximal run of characters outside `[a-zA-Z0-9]`
  and rejects the input when every piece is empty. It lowercases the first
  piece, capitalises every later piece and concatenates them.
- `convertToDotCase` (refined_prompt.js) validates and splits the same way.
  It then lowercases every piece and joins the pieces with `.`.
- `toCamelCase` (chain_prompt.js) rejects non-strings and strings that are
  blank after `trim`. It splits the trimmed input on runs of white space or
  `-` and drops empty pieces. It capitalises every word, the first one
  included, and concatenates them.
- `convertCamelCase` (basic_prompt.js) validates nothing. It splits on runs
  of white space or `_` and keeps empty pieces. It lowercases the first piece,
  capitalises the others and concatenates them.

The modules:

- `Values`: the input value, which is a string or any other value, and the
  result type with its three error kinds.
- `Ascii`: character classes, JavaScript white space, case mapping and `trim`.
- `Tokens`: `split` by a regex made of one character class repeated with
  `+`, `split` by one character, `join` and `filter(Boolean)`.
- `Casing`: the per-piece casing rules and the joins built on them.
- `RefinedPrompt`, `ChainPrompt`, `BasicPrompt`: one module per source file.
- `Examples`: concrete inputs and outputs.

A regex split by `[S]+` is modelled so that a run of adjacent separators
always closes one piece. Empty pieces can therefore appear only first (when the
input starts with a separator) or last (when it ends with one). This is proved
in `Tokens.SplitRunsInteriorNonEmpty`.

Some examples in the doc comments disagree with the code. The model follows
the code:

- For `"  --lead-and--trail--  "` the split gives `["", "lead", "and", "trail", ""]`.
  So `convertCase` returns `"LeadAndTrail"`, not the `"leadAndTrail"` given at
  refined_prompt.js:30.
  `convertToDotCase` returns `".lead.and.trail."`, not the `"lead.and.trail"`
  given at refined_prompt.js:62.
  The model proves what the code returns, in `Examples.RefinedLeadAndTrail`.
- The comment at refined_prompt.js:110 says `convertToDotCase("823")` throws.
  The code returns `"823"`, as refined_prompt.js:64 says. See
  `Examples.Refined823`.
- basic_prompt.js:14 says `convertCamelCase("CustomFunction")` gives
  `"customFunction"`. The input has no separator, so it is a single first
  piece and is lowercased entirely: the code returns `"customfunction"`. See
  `Examples.BasicCustomFunction`.

The test `words.length === 0` at refined_prompt.js:75 and :98 can never
succeed. `split` can return an empty array only when its separator matches
the empty string or a limit of 0 is passed. Here the pattern
`/[^a-zA-Z0-9]+/` needs at least one character to match and no limit is
given, so the result always has at least one piece. The model keeps the test
and proves that the pieces are never an empty array.

## Model

| member | source | states |
|---|---|---|
| RefinedPrompt.ConvertCase | refined_prompt.js:66-86 | fails with the type error exactly for a non-string. Fails with "no valid words" exactly for a string without an ASCII letter or digit. Succeeds exactly otherwise. A result contains only letters and digits, and it equals the input with its separators removed, up to case |
| RefinedPrompt.ConvertToDotCase | refined_prompt.js:89-104 | the same three error conditions. A result contains only lower-case letters, digits and dots. It has exactly one dot per separator run of the input. Splitting it at the dots gives back the lowercased pieces |
| RefinedPrompt.Words | refined_prompt.js:72 | no contract. Defined as `input.split(/[^a-zA-Z0-9]+/)`, also at refined_prompt.js:95. `RefinedPrompt.WordsAlnum` and the `Tokens.SplitRuns...` lemmas state what the pieces are |
| RefinedPrompt.NoWords | refined_prompt.js:75 | no contract. Defined as the rejection test, also at refined_prompt.js:98. `RefinedPrompt.NoWordsIffNoAlnum` states when it holds |
| RefinedPrompt.NoWordsIffNoAlnum | refined_prompt.js:72-77 | the rejection test holds exactly when the input has no ASCII letter or digit |
| RefinedPrompt.WordsAlnum | refined_prompt.js:72 | every piece consists of ASCII letters and digits |
| RefinedPrompt.CamelOutput | refined_prompt.js:80-85 | the camel join has only letters and digits, and equals the input without separators up to case |
| RefinedPrompt.DotOutput | refined_prompt.js:103 | the dot join has only lower-case letters, digits and dots, with one dot per separator run, and splits back into the lowercased pieces |
| RefinedPrompt.ConvertCaseByPosition | refined_prompt.js:80-85 | a successful result is the first piece lowercased followed by every later piece capitalised |
| RefinedPrompt.ConvertCaseLeadingSeparator | refined_prompt.js:72-85 | for an input that starts with a separator, every piece is capitalised, the first one included |
| RefinedPrompt.ConvertCaseKeepsNonLetters | refined_prompt.js:80-85 | the result is as long as the input without separators, and every digit stays in its place |
| RefinedPrompt.ConvertCaseOk | refined_prompt.js:75-85 | an input with a letter or digit gives the camel join of its pieces |
| RefinedPrompt.ConvertToDotCaseOk | refined_prompt.js:98-103 | an input with a letter or digit gives its lowercased pieces joined by dots |
| ChainPrompt.ToCamelCase | chain_prompt.js:3-22 | fails with the type error exactly for a non-string. Fails as blank exactly for a string of white space only. Otherwise succeeds with every non-empty piece of the untrimmed input capitalised and concatenated. The result has no white space or hyphen, and equals the input without them up to case |
| ChainPrompt.Words | chain_prompt.js:13 | no contract. Defined as `split(/[\s-]+/).filter(Boolean)`. `ChainPrompt.TrimKeepsWords`, `ChainPrompt.WordsAroundSeparator` and `ChainPrompt.RepeatedSeparator` state its meaning |
| ChainPrompt.CapitalizeLowered | chain_prompt.js:17-20 | lowercasing a word and then uppercasing its first character is capitalisation |
| ChainPrompt.CapitalizeEach | chain_prompt.js:16-20 | the mapping over the words capitalises each of them |
| ChainPrompt.TrimKeepsWords | chain_prompt.js:7-13 | trimming before the split does not change the words |
| ChainPrompt.TrimStartKeepsWords | chain_prompt.js:7-13 | removing leading white space does not change the words |
| ChainPrompt.TrimEndKeepsWords | chain_prompt.js:7-13 | removing trailing white space does not change the words |
| ChainPrompt.PascalOutput | chain_prompt.js:13-21 | the concatenated capitalised words contain no separator and equal the input without separators up to case |
| ChainPrompt.WordsAroundSeparator | chain_prompt.js:13 | the words on the two sides of a separator are the words of the whole, so leading and trailing separators are ignored |
| ChainPrompt.RepeatedSeparator | chain_prompt.js:13 | a doubled separator splits like a single one |
| BasicPrompt.ConvertCamelCase | basic_prompt.js:1-11 | the result has no white space or underscore and equals the input without them up to case. It is empty exactly when the input consists of separators only |
| BasicPrompt.Words | basic_prompt.js:3 | no contract. Defined as `split(/[\s_]+/)`. `BasicPrompt.CamelOutput` and the `Tokens.SplitRuns...` lemmas state what the pieces are |
| BasicPrompt.CamelOutput | basic_prompt.js:3-10 | the camel join of the pieces has no separator, equals the input without separators up to case, and is empty exactly for a separator-only input |
| BasicPrompt.ConvertCamelCaseByPosition | basic_prompt.js:4-9 | the result is the first piece lowercased followed by every later piece capitalised |
| BasicPrompt.ConvertCamelCaseLeadingSeparator | basic_prompt.js:3-9 | for an input that starts with a separator, every piece is capitalised |
| BasicPrompt.ConvertCamelCaseKeepsNonLetters | basic_prompt.js:3-10 | characters that are not letters, such as `-`, keep their place in the result |
| Ascii.LowerChar | refined_prompt.js:82 | the result is not upper-case, is a letter exactly when the input is, and equals a non-upper-case input |
| Ascii.UpperChar | refined_prompt.js:84 | the result is not lower-case, is a letter exactly when the input is, and equals a non-lower-case input |
| Ascii.IsJsSpace | chain_prompt.js:7 | no contract. Defined as the ECMAScript WhiteSpace and LineTerminator code points: the set that `trim` removes here, and that `\s` matches at chain_prompt.js:13 and basic_prompt.js:3. `Ascii.TrimStart`, `Ascii.TrimEnd` and `ChainPrompt.TrimKeepsWords` state what it does there |
| Ascii.Lower | refined_prompt.js:82 | `toLowerCase`, also used at refined_prompt.js:84 and :103, chain_prompt.js:18 and basic_prompt.js:6. The result has the input's length, and each character is the input character mapped by `LowerChar` |
| Ascii.Capitalize | refined_prompt.js:84 | the result equals the word up to case, does not start with a lower-case letter and has no upper-case letter after the first character |
| Ascii.LowerIdempotent | refined_prompt.js:82 | lowercasing twice is lowercasing once, and leaves no upper-case letter |
| Ascii.LowerAppend | refined_prompt.js:84 | lowercasing distributes over concatenation |
| Ascii.SameUpToCase | refined_prompt.js:80-85 | two strings equal up to case have the same length, letters in the same places, and the same non-letters |
| Ascii.TrimStart | chain_prompt.js:7 | the result is a suffix, what was removed is white space, and the result does not start with white space |
| Ascii.TrimEnd | chain_prompt.js:7 | the result is a prefix, what was removed is white space, and the result does not end with white space |
| Ascii.Trim | chain_prompt.js:7-8 | the trimmed string is empty exactly when the input is all white space |
| Tokens.SplitRuns | refined_prompt.js:72 | the split has at least one piece |
| Tokens.RemoveSeps | refined_prompt.js:72 | the kept characters are exactly the non-separators of the input |
| Tokens.FilterNonEmpty | chain_prompt.js:13 | a string is kept exactly when it is a non-empty piece of the input. Nothing is dropped exactly when no piece is empty |
| Tokens.FilterAppend | chain_prompt.js:13 | filtering a concatenation filters each part and concatenates the results, so the kept pieces stay in their order |
| Tokens.SplitRunsCount | refined_prompt.js:72 | there is one more piece than there are separator runs |
| Tokens.SplitRunsNoSep | refined_prompt.js:72 | no piece contains a separator |
| Tokens.SplitRunsFirst | refined_prompt.js:72 | the first piece is empty exactly when the input is empty or starts with a separator |
| Tokens.SplitRunsLast | refined_prompt.js:72 | the last piece is empty exactly when the input is empty or ends with a separator |
| Tokens.SplitRunsSingle | basic_prompt.js:3 | there is one piece exactly when the input has no separator, and that piece is the input |
| Tokens.SplitRunsInteriorNonEmpty | refined_prompt.js:72 | no piece between the first and the last is empty |
| Tokens.SplitRunsJoin | refined_prompt.js:72 | concatenating the pieces gives the input without its separators |
| Tokens.SplitRunsInterleave | refined_prompt.js:72 | splitting undoes writing words between separator runs |
| Tokens.SplitRunsAllEmpty | refined_prompt.js:75 | all pieces are empty exactly when every character is a separator |
| Tokens.Join | refined_prompt.js:103 | no contract. Defined as `ts.join(sep)`, also used at refined_prompt.js:85, chain_prompt.js:21 and basic_prompt.js:10. Its meaning is stated by `Tokens.SplitCharJoin` (splitting at the separator gives back the pieces), `Tokens.JoinCount`, `Tokens.JoinChars` and `Tokens.JoinEmptyAllEmpty` |
| Tokens.JoinCount | refined_prompt.js:103 | a join with a one-character separator holds one separator fewer than there are pieces, when no piece contains it |
| Tokens.SplitCharJoin | refined_prompt.js:103 | splitting a dot join at the dots gives back the pieces, when no piece contains a dot |
| Tokens.FilterJoin | chain_prompt.js:13 | dropping empty pieces does not change their concatenation |
| Tokens.WordsAround | chain_prompt.js:13 | the non-empty pieces around a separator are those of the two sides |
| Tokens.SeparatorCons | chain_prompt.js:13 | a leading separator does not change the non-empty pieces |
| Tokens.SeparatorSnoc | chain_prompt.js:13 | a trailing separator does not change the non-empty pieces |
| Casing.CamelWords | refined_prompt.js:80-84 | no contract. Defined as the index-based `map`, which is also at basic_prompt.js:4-9. `Casing.CamelWord` states each element: the piece lowercased at index 0 and capitalised at later indices |
| Casing.CamelJoin | refined_prompt.js:80-85 | no contract. Defined as that `map` followed by `.join('')`, also at basic_prompt.js:4-10. `Casing.CamelJoinSplit`, `Casing.CamelJoinLower` and `Casing.CamelJoinChars` state its meaning |
| Casing.Lowered | refined_prompt.js:103 | `words.map(word => word.toLowerCase())`. The result has one element per piece; `RefinedPrompt.DotOutput` states what the dot join of it contains |
| Casing.CamelWord | refined_prompt.js:80-84 | a piece is kept up to case. Position 0 gets no upper-case letter. A later position gets the capitalised shape |
| Casing.CamelJoinSplit | refined_prompt.js:80-85 | the camel join is the first piece lowercased followed by the later pieces capitalised |
| Casing.CamelJoinLower | refined_prompt.js:80-85 | the camel join equals the plain concatenation up to case |
| Casing.CamelJoinSkipsEmpty | refined_prompt.js:14-15 | an empty piece after the first adds nothing to the camel join |
| Casing.CamelJoinEmptyFirst | refined_prompt.js:80-85 | with an empty first piece, every piece is capitalised |
| Casing.CamelJoinChars | refined_prompt.js:80-85 | a character class closed under case mapping that holds for the pieces holds for the camel join |
| Examples.RefinedTestFunction | refined_prompt.js:26 | `"test function"` gives `"testFunction"`, and `"test.function"` as at refined_prompt.js:58 |
| Examples.RefinedHelloWorldExample | refined_prompt.js:28 | `"Hello-WORLD_example"` gives `"helloWorldExample"`, and `"hello.world.example"` as at refined_prompt.js:60 |
| Examples.Refined823 | refined_prompt.js:32 | `"823"` gives `"823"` from both functions, as at refined_prompt.js:64 |
| Examples.RefinedV24 | refined_prompt.js:16 | `"v2 4"` gives `"v24"` |
| Examples.RefinedLeadAndTrail | refined_prompt.js:72-85 | `"  --lead-and--trail--  "` gives `"LeadAndTrail"` and `".lead.and.trail."` |
| Examples.RefinedRejects | refined_prompt.js:67-77 | the empty string and a separator-only string are rejected as having no valid words, and a non-string as the wrong type |
| Examples.ChainHelloWorld | chain_prompt.js:16-21 | `"hello world"` gives `"HelloWorld"` |
| Examples.ChainHyphensOnly | chain_prompt.js:7-13 | `"--"` passes the blank check and gives `""` |
| Examples.ChainRejectsEmpty | chain_prompt.js:4-10 | the empty string and a non-string are rejected |
| Examples.ChainRejectsBlank | chain_prompt.js:7-10 | a string of tabs, newlines and spaces is rejected as blank |
| Examples.BasicTestFunction | basic_prompt.js:15 | `"test function"` gives `"testFunction"` |
| Examples.BasicCustomFunction | basic_prompt.js:5-6 | `"CustomFunction"` gives `"customfunction"` |
| Examples.BasicLeadingSpace | basic_prompt.js:4-9 | `" test function"` gives `"TestFunction"` |
| Examples.BasicHyphenKept | basic_prompt.js:3-10 | `"a-b c"` gives `"a-bC"` |
| Examples.BasicEmpty | basic_prompt.js:3-10 | `""` and `" _ "` give `""` |

## Left out

- Unicode case mapping: `toLowerCase` and `toUpperCase` are modelled on ASCII letters only. JavaScript maps every Unicode letter, and some mappings change the length (`"ß".toUpperCase()` is `"SS"`). `Ascii.Lower`, `Ascii.Capitalize` and everything built on them state the ASCII behaviour.
- String representation: a Dafny `string` is a sequence of Unicode scalar values, while JavaScript strings are sequences of UTF-16 code units. `charAt(0)` on a character outside the Basic Multilingual Plane, and lone surrogates, are not modelled.
- Error values: the thrown `Error` and `TypeError` objects and their message texts are not modelled. Each failure is modelled as one of the `Values.Error` values `WrongType`, `NoValidWords` and `EmptyInput`. chain_prompt.js:5 and :9 throw the same `TypeError` with the same message, so the source itself does not tell its two failures apart; the model keeps them apart as `WrongType` and `EmptyInput`.
- Non-string inputs: every non-string value is modelled as the single value `NonString`. This is enough for the `typeof` tests at refined_prompt.js:67, :90 and chain_prompt.js:4.
- `BasicPrompt.ConvertCamelCase`: takes a string only. For other values the source fails inside `split` or calls whatever `split` the value has, and that behaviour is not modelled.
- Regular expressions: there is no general regex engine. The three patterns `/[^a-zA-Z0-9]+/`, `/[\s-]+/` and `/[\s_]+/` are modelled as character predicates passed to `Tokens.SplitRuns`.
- Console output and exports: the demonstration calls at refined_prompt.js:106-113 and basic_prompt.js:13-15, and `module.exports` at chain_prompt.js:24, are I/O and packaging, so they are not modelled.
