# CaseConverter text engine in Dafny

CaseConverter is a single-page React application. The user types some text,
picks one of thirteen conversions (upper, lower, title, sentence, camel, snake,
kebab, alternating, inverse, leetspeak, vaporwave, morse, morse-decode) and gets
the converted text back. Under the input it shows four counts: characters,
words, sentences and lines. Everything the application computes is in
`src/App.tsx`:

- the `convertCase` switch;
- the two Morse lookup tables;
- the statistics effect.

This project models those three parts as pure Dafny functions over strings and
proves their properties as lemmas. Each conversion in the source is a chain of
`toLowerCase`, `split`, `map`, `join`, `replace` and `filter` calls without
loops or mutable locals, so the model has no classes and no methods.

Modules, one per file:

| module | file | contents |
|---|---|---|
| `Ascii` | `ascii.dfy` | character classes as the regular expressions see them (`\s`, `\w`, `[a-zA-Z0-9]`, line terminators), and ASCII `toUpperCase`/`toLowerCase` |
| `Strings` | `strings.dfy` | `split` with a one-character separator, `join`, `filter(Boolean).length`, and their round trips |
| `Casing` | `casing.dfy` | `title`, `alternating`, `inverse`, `vaporwave`, `leetspeak` |
| `Sentences` | `sentence.dfy` | `sentence`: the global, multiline replacement of `/(^\w\|\.\s+\w)/gm` |
| `Camel` | `camel.dfy` | `camel`: the global replacement of `/[^a-zA-Z0-9]+(.)/g`, with the regular expression's backtracking |
| `Slug` | `slug.dfy` | `snake` and `kebab` |
| `MorseTables` | `morse_tables.dfy` | the two tables, entry for entry, with facts about them |
| `Morse` | `morse.dfy` | `morse` and `morse-decode`, stated for any pair of tables and then for the program's |
| `Stats` | `stats.dfy` | `trim`, `split(/\s+/)`, `split(/[.!?]+\s/)`, and the four counts |
| `Engine` | `engine.dfy` | the selector strings, the `Selector` datatype and the switch |

Several conversions also get an independent reference definition, and a lemma
proves the conversion equal to it, on all inputs unless stated:

- `Casing.TitleRef`: work character by character, upper-casing after a space.
- `Camel.CamelRef`: drop what is not a letter or digit, and upper-case what follows a dropped run
  (equal on input that is empty or ends in a letter or digit, `Camel.CamelFromRef`).
- `Sentences.Capitalized`: which positions are upper-cased.
- `Casing.LeetChar`: all seven substitutions at once.
- `Stats.NonSpaceRuns`: the number of words.
- `Stats.TerminatorSpaces`: the number of places where a terminator meets whitespace; the
  split has one piece more (`Stats.SentenceSplitCount`). It bounds the sentence count
  (`Stats.SentenceCount`) but is not equal to it.

### Behaviour worth knowing

- **leetspeak.** Every `a`, `s` and `t` is replaced, like the other four
  letters: `"i eat pasta"` becomes `"1 347 p4574"`. The seven passes act as
  one simultaneous substitution (`Casing.LeetspeakAt`).
- **camel.** When the input ends in a character that is not a letter or digit,
  part of that trailing run stays in the output. A one-character run stays as
  it is: `"hi-"` becomes `"hi-"`. In a longer run, the match keeps the run's
  last character that is not a line terminator (the run's first character does
  not count), together with any line terminators after it: `"hi yo  "` becomes
  `"hiYo "` (`Camel.CamelTrailing`, `Camel.CamelExample`). When no such
  character exists, the run is copied whole. On input that is empty or ends in
  a letter or digit, `camel` drops every other character and upper-cases what
  follows a dropped run (`Camel.CamelLetters`).
- **sentence.** Because of the `m` flag, a word character is capitalized at the
  start of every line, not only at the start of the text. Only a `.` capitalizes what
  follows it, and only a word character that directly follows the `.` and a run
  of whitespace: in `"a. (b"` the `b` stays lower-case. `!` and `?` capitalize
  nothing.
- **Sentence count.** The count can be 0 for text that is not blank:
  `". "` has no sentence (`Stats.SentenceExample`).
- **Whitespace.** `\s` and `trim` use the whole ECMAScript white-space and
  line-terminator set (tab to carriage return, space, U+00A0, U+1680,
  U+2000–U+200A, U+2028, U+2029, U+202F, U+205F, U+3000, U+FEFF). The model
  uses that whole set, not only ASCII whitespace. `split(' ')` in `title` and
  `morse-decode` splits at U+0020 only.

## Model

| member | source | states |
|---|---|---|
| Ascii.UpperChar | src/App.tsx:47-49 | upper-casing one character leaves no `a`-`z`, keeps whether it is a letter, digit or whitespace, and changes nothing but `a`-`z` |
| Ascii.LowerChar | src/App.tsx:50-52 | lower-casing one character leaves no `A`-`Z`, keeps its class, and changes nothing but `A`-`Z` |
| Ascii.CaseOfCase | src/App.tsx:47-52 | changing case twice keeps only the last change, and lower/upper undo each other on letters |
| Ascii.UpperAlphabet | src/App.tsx:47-49 | `upper` output contains no `a`-`z`; `upper` is the identity exactly on text without `a`-`z` |
| Ascii.LowerAlphabet | src/App.tsx:50-52 | `lower` output contains no `A`-`Z`; `lower` is the identity exactly on text without `A`-`Z` |
| Ascii.CaseIdempotent | src/App.tsx:47-52 | `upper` and `lower` are idempotent, and applying either after the other equals applying it alone |
| Ascii.LowerAppend | src/App.tsx:50-52 | lower-casing distributes over concatenation |
| Strings.SplitPieces | src/App.tsx:57 | `split(c)` gives one more piece than there are `c`, and no piece contains `c` |
| Strings.SplitJoin | src/App.tsx:129-145 | `split(c)` undoes `join(c)` on a non-empty list of parts, none containing `c` |
| Strings.JoinSplit | src/App.tsx:57-59 | `join(c)` undoes `split(c)` for every string |
| Strings.ConcatSplit | src/App.tsx:141-143 | `split(' ')` followed by `join('')` deletes every space |
| Strings.CountNonEmpty | src/App.tsx:19-20 | `filter(Boolean).length` is at most the number of parts, and 0 exactly when every part is empty |
| Strings.SplitRuns | src/App.tsx:20 | the number of non-empty pieces of `split(c)` equals the number of maximal runs without `c` |
| Strings.JoinSingletons | src/App.tsx:90-107 | joining one-character pieces with `''` gives their characters in order |
| Strings.JoinSpaced | src/App.tsx:121-128 | joining one-character pieces with one separator character interleaves the two; a non-empty list of `n` pieces gives length `2n-1` |
| Casing.TitleRefAt | src/App.tsx:53-61 | the reference title case upper-cases the first character and each one after a space, and copies the others |
| Casing.TitleIsRef | src/App.tsx:53-61 | the split/capitalize/join pipeline equals the reference title case of the lower-cased input |
| Casing.TitleAt | src/App.tsx:53-61 | `title` keeps the length, upper-cases position 0 and every character after a U+0020, and lower-cases the rest |
| Casing.TitleIdempotent | src/App.tsx:53-61 | `title` applied to its own output changes nothing |
| Casing.TitleExample | src/App.tsx:53-61 | `"hi yo"` becomes `"Hi Yo"` |
| Sentences.CapitalizeFromAt | src/App.tsx:62-66 | the left-to-right global replacement of `^\w` and `\.\s+\w` upper-cases exactly the matched word characters, from any position not inside a `\.\s+\w` match, position 0 included |
| Sentences.CapitalizedSame | src/App.tsx:62-66 | which positions are capitalized does not depend on letter case |
| Sentences.SentenceAt | src/App.tsx:62-66 | `sentence` keeps the length; a word character at a line start or after `.` and whitespace is upper-cased, and every other character is lower-cased |
| Sentences.SentenceIdempotent | src/App.tsx:62-66 | `sentence` applied to its own output changes nothing |
| Camel.CamelFrom | src/App.tsx:67-73 | the replacement never makes the text longer |
| Camel.CamelFromRef | src/App.tsx:67-73 | on text that is empty or ends in a letter or digit, the regular-expression replacement equals the reference camel case |
| Camel.CamelLetters | src/App.tsx:67-73 | on such input, `camel` outputs only letters and digits: exactly those of the input, in order, up to case |
| Camel.CamelOfWord | src/App.tsx:67-73 | on input of letters and digits only, `camel` is `lower` |
| Camel.CamelFromAppend | src/App.tsx:67-73 | text ending in a letter or digit is converted independently of what follows it |
| Camel.CamelTrailing | src/App.tsx:67-73 | a trailing run without letters or digits, ending in a character that is not a line terminator, leaves exactly its last character behind |
| Camel.CamelExample | src/App.tsx:67-73 | `"hi yo"` becomes `"hiYo"`, and `"hi yo  "` becomes `"hiYo "` |
| Slug.SlugAppend | src/App.tsx:74-89 | `snake`/`kebab` work piece by piece when the input is split anywhere outside a whitespace run |
| Slug.SlugChar | src/App.tsx:74-89 | one character: whitespace becomes the separator, a letter or digit is lower-cased, the separator stays, anything else is deleted |
| Slug.SlugSpaceRun | src/App.tsx:78 | a whole run of whitespace, however long, becomes one separator |
| Slug.SlugWord | src/App.tsx:74-89 | a word of letters and digits is only lower-cased |
| Slug.SlugAlphabet | src/App.tsx:74-89 | the output holds only `a`-`z`, `0`-`9` and the separator |
| Slug.SlugLetters | src/App.tsx:74-89 | the letters and digits of the output are those of the lower-cased input, in order |
| Slug.SlugIdempotent | src/App.tsx:74-89 | `snake` and `kebab` applied to their own output change nothing |
| Slug.SnakeExample | src/App.tsx:74-81 | `"Hi yo"` becomes `"hi_yo"` |
| Slug.KebabExample | src/App.tsx:82-89 | `"Hi, yo"` becomes `"hi-yo"` |
| Casing.AlternatingAt | src/App.tsx:90-97 | `alternating` keeps the length, lower-cases the character at each even index and upper-cases the one at each odd index |
| Casing.AlternatingCase | src/App.tsx:90-97 | no upper-case letter at an even index and no lower-case one at an odd index; the output ignores the input's case; `alternating` is idempotent |
| Casing.InverseAt | src/App.tsx:98-107 | `inverse` keeps the length, swaps the case of every ASCII letter and copies every other character |
| Casing.InverseInvolution | src/App.tsx:98-107 | `inverse` applied twice gives the input back |
| Casing.InverseExample | src/App.tsx:98-107 | `"Hello"` becomes `"hELLO"` |
| Casing.LeetspeakAt | src/App.tsx:108-120 | the seven passes in source order equal one simultaneous substitution of the lower-cased input; the length is kept |
| Casing.LeetspeakIdempotent | src/App.tsx:108-120 | the output has no upper-case letter and none of `a e i o s t l`; `leetspeak` is idempotent |
| Casing.LeetspeakExample | src/App.tsx:108-120 | `"Leet"` becomes `"1337"` |
| Casing.VaporwaveShape | src/App.tsx:121-128 | `vaporwave` maps empty to empty; otherwise the length is `2n-1`, position `2i` holds the upper case of `s[i]` and every odd position a space |
| Casing.VaporwaveCaseBlind | src/App.tsx:121-128 | `vaporwave` ignores the input's case |
| MorseTables.EncoderKeys | src/App.tsx:34-42 | the encoder has a code for exactly the 26 lower-case letters, the 10 digits and the space |
| MorseTables.EncoderInverse | src/App.tsx:24-42 | the decoder maps every code of the encoder back to its character |
| MorseTables.CodeIsSignal | src/App.tsx:34-42 | every code except the space's `/` has one to five dots and dashes |
| MorseTables.FigureCodes | src/App.tsx:34-42 | each digit's code is the one ITU-R M.1677-1 builds: `n` dots and then dashes for 1-5, dashes and then dots for 6-9, five dashes for 0 |
| MorseTables.OneSymbolCodes | src/App.tsx:24-32 | the only one-symbol codes are `.`, `-` and `/`, decoding to `e`, `t` and the space |
| Morse.StandardWellFormed | src/App.tsx:24-42 | the two tables are exact inverses over all their entries, every code is non-empty and space-free, and the encoder's keys are the letters, digits and the space |
| Morse.EncodeCharToken | src/App.tsx:133-135 | every token the encoder writes is non-empty and contains no space |
| Morse.EncodeTokens | src/App.tsx:129-137 | a non-empty input is encoded as exactly one space-separated token per character, in order; a character with no code appears as itself |
| Morse.EmptyMessage | src/App.tsx:129-145 | the empty input encodes and decodes to the empty string |
| Morse.DecodeTokenPassThrough | src/App.tsx:141-143 | a token that is no code is copied through; a code becomes one encodable character |
| Morse.DecodeWithoutCodes | src/App.tsx:138-145 | when no token is a code, decoding just deletes the spaces |
| Morse.RoundTripChar | src/App.tsx:129-145 | the round trip returns a character unchanged exactly when it is not a mistaken one: a character with no code whose one-character token is itself a code |
| Morse.DecodeEncodeAt | src/App.tsx:129-145 | decoding an encoding keeps the length and returns each lower-cased character through its one-character round trip |
| Morse.DecodeEncodeIff | src/App.tsx:129-145 | decoding an encoding gives the lower-cased input exactly when no character in it is mistaken |
| Morse.StandardConventional | src/App.tsx:24-42 | with the program's tables the mistaken characters are exactly `.`, `-` and `/` |
| Morse.RoundTripIff | src/App.tsx:129-145 | decoding an encoding gives the lower-cased input exactly when the input holds no `.`, `-` or `/` |
| Morse.RoundTrip | src/App.tsx:129-145 | on text of letters, digits and spaces (the empty text included), decoding an encoding gives the lower-cased input |
| Morse.MorseRoundTrip | src/App.tsx:129-145 | the same round trip with the program's tables |
| Morse.MorseSos | src/App.tsx:129-145 | `"sos"` and `"SOS"` encode to `"... --- ..."`, which decodes to `"sos"` |
| Morse.MorseDot | src/App.tsx:129-145 | `"."` has no code, passes through, and comes back as `"e"` |
| Engine.NameOf | src/App.tsx:46-145 | every conversion's selector string is one of the thirteen the switch knows |
| Engine.SelectorOf | src/App.tsx:44-149 | a selector string reaches the fallback exactly when it is none of the thirteen, and naming the resulting selector gives the string back |
| Engine.SelectorRoundTrip | src/App.tsx:44-149 | looking up a conversion's name gives that conversion back |
| Engine.OtherIsIdentity | src/App.tsx:146-147 | an unknown selector string leaves the input unchanged |
| Engine.EmptyInput | src/App.tsx:44-149 | every conversion maps the empty input to the empty output |
| Engine.StandardEmptyInput | src/App.tsx:44-149 | the same for `convertCase` with the program's tables, for every selector string |
| Engine.LengthKept | src/App.tsx:44-149 | upper, lower, title, sentence, alternating, inverse, leetspeak and the fallback keep the length; camel never lengthens |
| Engine.CaseBlindness | src/App.tsx:44-149 | every conversion except inverse, morse-decode and the fallback gives the same output for the lower-cased or upper-cased input |
| Engine.ApplyTwice | src/App.tsx:44-149 | upper, lower, title, sentence, snake, kebab, alternating, leetspeak and the fallback are idempotent; inverse applied twice is the identity |
| Engine.MorseThroughSwitch | src/App.tsx:129-145 | `convertCase('morse')` followed by `convertCase('morse-decode')` gives the lower-cased input for text of letters, digits and spaces |
| Stats.TrimShape | src/App.tsx:18 | `trim` removes a whitespace prefix and suffix and leaves text that is empty or starts and ends with non-whitespace |
| Stats.BlankIff | src/App.tsx:18-20 | the input trims to `''` exactly when it is all whitespace |
| Stats.BlankStats | src/App.tsx:17-20 | blank input has 0 words, 0 sentences and 0 lines |
| Stats.CharCount | src/App.tsx:17 | the character count is the input length |
| Stats.SplitSpacesCount | src/App.tsx:18 | on text ending in non-whitespace, `split(/\s+/)` gives one piece per word, plus one for leading whitespace |
| Stats.NonSpaceRunsTrim | src/App.tsx:18 | trimming loses no word |
| Stats.WordCount | src/App.tsx:18 | the word count of non-blank input is its number of maximal non-whitespace runs, at least 1 |
| Stats.SentenceSplitJoin | src/App.tsx:19 | putting the removed separators back between the pieces of `split(/[.!?]+\s/)` gives the input |
| Stats.SeparatorShape | src/App.tsx:19 | every removed separator is a run of `.`, `!`, `?` followed by one whitespace character |
| Stats.PiecesHaveNoSeparator | src/App.tsx:19 | no piece contains a terminator directly followed by whitespace |
| Stats.SentenceSplitCount | src/App.tsx:19 | there is one piece more than there are terminators directly followed by whitespace |
| Stats.SentenceSplitWhole | src/App.tsx:19 | text with no terminator followed by whitespace is one piece |
| Stats.SentenceCount | src/App.tsx:19 | the sentence count of non-blank input is at most one more than the number of places where a terminator meets whitespace, and exactly 1 when there are none |
| Stats.TwoSentences | src/App.tsx:19 | `"a. b"` has two sentences |
| Stats.SentenceExample | src/App.tsx:18-19 | `". "` has one word and no sentence |
| Stats.LineCount | src/App.tsx:20 | the line count of non-blank input is its number of maximal runs without `\n`, at least 1 |

## Left out

- React state, the effect hook and rendering (`useState`, `useEffect`,
  `activeCase`, JSX). The model computes what `setOutput` and `setStats`
  receive.
- Clipboard copy, file download and reset. These are browser I/O and
  UI-state resets.
- Unicode case mapping. `toUpperCase`/`toLowerCase` are modelled on ASCII
  letters only, and every other character is left alone. JavaScript also maps
  other letters, and can change the length (`ß` becomes `SS`).
- UTF-16. A Dafny `char` is a Unicode scalar value. A character outside the
  Basic Multilingual Plane therefore counts 1 here in `length` and `split('')`,
  where JavaScript counts 2 code units and splits the surrogate pair. The
  regular expressions have no `u` flag, so they also work on code units: camel's
  `[^a-zA-Z0-9]+(.)` and the `.`, `\s` and `\w` classes elsewhere see each half of a
  surrogate pair as a character of its own (camel's `(.)` can capture half of a
  pair at the end of a trailing run), while the model sees one character.
- Prototype keys. The tables are finite maps. A JavaScript object literal would
  also answer a lookup of an inherited key such as `constructor`, which the
  model does not.
- Empty table values. The `|| char` and `|| code` fallbacks would also apply to
  an empty string in a table. No entry is empty (`Morse.StandardWellFormed`),
  so the model only handles the missing key.
- Morse tables as a parameter. The Morse conversions take the tables as an
  argument. `Engine.ConvertCase` and the lemmas named `Standard…`/`Morse…`
  apply them to the program's tables.
- MorseTables.EncoderKeys: states which 37 characters the encoder covers, but
  not the number 37 as a map cardinality.
- Camel.CamelTrailing: describes a trailing run that ends in a character that
  is not a line terminator. A run that ends in line terminators (the regular
  expression then backs off further, or does not match) is defined by
  `Camel.CamelFrom` but has no lemma of its own.
- Stats.SentenceCount: bounds the count of non-empty pieces, and gives it
  exactly only when there is no separator. Empty pieces, as in `"a. . b"`,
  make the count smaller than the bound; the exact count has no closed form
  here.
- Engine.LengthKept: says nothing about the lengths of snake, kebab, morse and
  morse-decode output. Vaporwave's length is in `Casing.VaporwaveShape`.
