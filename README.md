# Liquid::Tag::Parser in Dafny

A model of `Liquid::Tag::Parser` (lib/liquid/tag/parser.rb), with proofs about it. The parser turns the argument text of a Liquid tag, such as `a @b c:d=1 e='x=y'`, into an ordered and possibly nested hash of typed values, and projects that hash as HTML attributes.

The modules follow the stages of the pipeline:

- **Text**: character classes (`\s`, `\w`, `\d`), the live-separator test (`\b(?<!\\)sep`), backslash removal, and decimal digits.
- **Values**: the parsed values, the insertion-ordered hash (an association list), and the three things Ruby raises.
- **Escaping**: the three `gsub` passes of `from_shellwords` and the two of `unescape`.
- **ShellWords**: `shellsplit`. The function `Scan` is one `SHELLSPLIT` match at a time; the method `ShellSplit` is the Ruby loop, proved equal to it.
- **Classify**: `rpartition` on the live separator, the `BOOL` test, `flip_kv_bool`, `convert`, and `split(KEY)` into key paths.
- **Hashes**: `build_hash` (`||= {}` down a key path) and `set_val`, on hash values.
- **Parsing**: `parse` as a fold of one step per token over the starting hash.
- **Projection**: `skip_in_html?`, `skippable_loop`, `to_html` and `to_h`.
- **TagParser**: the class `Parser`, whose methods run the same steps imperatively and are proved against the functions above.
- **Markup**: whole markups, tying the pre-escape pass, the tokenizer and `parse` together.
- **Vectors**: the examples of spec/tests/lib/liquid/tag/parser_spec.rb, derived from the general lemmas.

Some choices are modelled as the code does them, not as one might expect:

- A first word that `convert` turns into a number makes `unescape` call `gsub` on an Integer or Float. The model returns the error `NoGsub` there.
- A truthy slot that is not a hash, met on the way down a key path, cannot be indexed. The model returns the error `NotAHash` there.
- An unmatched quote returns the error `UnmatchedQuote`, and no hash.
- `convert` leaves `true`, `false` and `nil` alone, as the tests at spec/tests/lib/liquid/tag/parser_spec.rb:107-111 and 204-211 require.
- The `://` pass at line 214 is modelled as written, and is then proved to change nothing once line 213 has run.

## Model

| member | source | states |
|---|---|---|
| Text.Blanks | lib/liquid/tag/parser.rb:51 | `\G\s*` takes the longest run of blanks and stops at the first non-blank |
| Text.UnbackslashFree | lib/liquid/tag/parser.rb:163-164 | text with no backslash is unchanged by the `\\(x)` to `x` replacement |
| Text.UnbackslashChars | lib/liquid/tag/parser.rb:232-233 | unescaping only removes characters, never adds one |
| Text.UnbackslashAppend | lib/liquid/tag/parser.rb:163-164 | unescaping works piecewise over a concatenation whose first part does not end in a backslash |
| Text.DigitsRoundTrip | lib/liquid/tag/parser.rb:202 | the decimal text of every natural number reads back as that number |
| Values.Lookup | lib/liquid/tag/parser.rb:190-192 | `hash[k]` is absent exactly when `k` is not a key, and a found value is that key's entry |
| Values.Put | lib/liquid/tag/parser.rb:190-192 | after `hash[k] = v`, `k` holds `v` and every other key holds what it held before |
| Values.PutKeys | lib/liquid/tag/parser.rb:192 | assigning to an existing key keeps the key order; a new key goes at the end, as in Ruby's insertion order |
| Values.PutKeepsUnique | lib/liquid/tag/parser.rb:192 | assignment keeps every key unique |
| Values.LookupUnique | lib/liquid/tag/parser.rb:190 | in a hash with unique keys, each entry is what its key looks up |
| Escaping.EscapeSpecials | lib/liquid/tag/parser.rb:213 | the `SPECIAL` pass: a backslash goes before every `@ ! : =` that does not follow one; the text never gets shorter |
| Escaping.EscapeUrls | lib/liquid/tag/parser.rb:214 | the `UNQUOTED_SPECIAL` pass: a backslash goes before every `://` that does not follow one; the text never gets shorter |
| Escaping.EscapeSeparators | lib/liquid/tag/parser.rb:58-61 | the separator pass of line 215: a separator after a word character gets a backslash, unless the replacement `\sep` stands for the match itself (`+`, `&`, `\`); the text never gets shorter |
| Escaping.PreEscape | lib/liquid/tag/parser.rb:211-216 | `from_shellwords` before `shellsplit`: the three passes in order; the text never gets shorter |
| Escaping.Unescape | lib/liquid/tag/parser.rb:161-165 | `unescape`: `\sep` becomes `sep`, then `\@ \! \: \=` lose their backslash; the text never gets longer |
| Escaping.EscapeSpecialsInserted | lib/liquid/tag/parser.rb:213 | on backslash-free text, the `SPECIAL` pass only inserts a backslash before some of `@ ! : =` |
| Escaping.EscapeSpecialsGuards | lib/liquid/tag/parser.rb:213 | after the `SPECIAL` pass every `@ ! : =` has a backslash before it, and the last character is kept |
| Escaping.EscapeUrlsIdentity | lib/liquid/tag/parser.rb:214 | after the `SPECIAL` pass, `UNQUOTED_SPECIAL` finds no unescaped `://`, so its pass is the identity |
| Escaping.EscapeSeparatorsIdentity | lib/liquid/tag/parser.rb:215 | when the separator is one of `@ ! : =`, the separator pass adds nothing after the `SPECIAL` pass |
| Escaping.EscapeSeparatorsUnmarked | lib/liquid/tag/parser.rb:215 | for `+`, `&` and `\` the replacement is the match itself, so the separator pass changes nothing |
| Escaping.PreEscapeSpecialSep | lib/liquid/tag/parser.rb:213-215 | with such a separator, the whole pre-escape is the `SPECIAL` pass alone |
| Escaping.EscapeSeparatorsNoLive | lib/liquid/tag/parser.rb:215 | after the separator pass no live separator is left, and the last character is kept |
| Escaping.PreEscapeNoLiveSep | lib/liquid/tag/parser.rb:211-215 | the pre-escaped line has no live separator |
| Escaping.PreEscapeChars | lib/liquid/tag/parser.rb:211-215 | every character of the pre-escaped line is in the raw line or is a backslash |
| Escaping.EscapeSeparatorsInserted | lib/liquid/tag/parser.rb:215 | the separator pass only inserts backslashes before separators |
| Escaping.PreEscapeInserted | lib/liquid/tag/parser.rb:211-215 | on backslash-free text the pre-escape only inserts backslashes before `@ ! : =` and the separator |
| Escaping.UnbackslashInserted | lib/liquid/tag/parser.rb:163-164 | unescaping some inserted backslashes leaves the others inserted |
| Escaping.UnescapeUndoesPreEscape | lib/liquid/tag/parser.rb:161-165 | `unescape` undoes the pre-escape of backslash-free text exactly |
| Escaping.EscapeSpecialsAppend | lib/liquid/tag/parser.rb:213 | the `SPECIAL` pass works piecewise, given whether the first part ends in a backslash |
| Escaping.EscapeUrlsAppend | lib/liquid/tag/parser.rb:214 | the `://` pass works piecewise when no `://` straddles the seam |
| Escaping.EscapeSeparatorsAppend | lib/liquid/tag/parser.rb:215 | the separator pass works piecewise, given whether the first part ends in a word character |
| Escaping.PreEscapeAfterAppend | lib/liquid/tag/parser.rb:211-215 | the whole pre-escape works piecewise, given the last character before each part |
| Escaping.PreEscapeWord | lib/liquid/tag/parser.rb:211-215 | a run of word characters is left as it is |
| Escaping.PreEscapeUntouched | lib/liquid/tag/parser.rb:211-215 | text with none of `@ ! : =` and no separator is left as it is |
| Escaping.PreEscapeSeparator | lib/liquid/tag/parser.rb:215 | a separator right after a word character becomes backslash and separator |
| Escaping.PreEscapeQuote | lib/liquid/tag/parser.rb:211-215 | a single quote is never escaped |
| Escaping.PreEscapeNoSigil | lib/liquid/tag/parser.rb:211-215 | the pre-escaped line never starts with `@` or `!` |
| ShellWords.Scan | lib/liquid/tag/parser.rb:229-241 | the `scan` of `SHELLSPLIT` from a given field: match after match, a trailing blank or the end closes the field, and `(\S)` raises; its properties are the `Scan…` lemmas below |
| ShellWords.Tokens | lib/liquid/tag/parser.rb:226-242 | `shellsplit` of a line: the scan from an empty field, the tokens or the unmatched-quote error; `ShellSplit` is proved equal to it |
| ShellWords.BareRun | lib/liquid/tag/parser.rb:51 | `[^\s\\'"]+` is greedy: it takes the longest bare run and stops before a blank, backslash or quote |
| ShellWords.DoubleQuoteEnd | lib/liquid/tag/parser.rb:51-52 | a found end of a double-quoted run is a `"` inside the text |
| ShellWords.Atom | lib/liquid/tag/parser.rb:51-52 | a match consumes at least one character, and fails exactly when an opening quote has no closing quote |
| ShellWords.NextMatch | lib/liquid/tag/parser.rb:51-52 | every match, blanks included, consumes at least one character and stays within the line |
| ShellWords.ShellSplit | lib/liquid/tag/parser.rb:226-242 | the `scan` loop over `out` and `field` returns exactly the tokens, or the error, of `Tokens(line)` |
| ShellWords.ScanPiece | lib/liquid/tag/parser.rb:230-238 | a match followed by a blank or the end closes the field as a word; otherwise it extends the field |
| ShellWords.ScanAdvance | lib/liquid/tag/parser.rb:230-238 | the same step, with the words already finished in front |
| ShellWords.ScanBlank | lib/liquid/tag/parser.rb:51 | a leading blank changes nothing |
| ShellWords.ScanBlanks | lib/liquid/tag/parser.rb:226-241 | whitespace alone makes no token |
| ShellWords.ScanBare | lib/liquid/tag/parser.rb:232 | a bare run is appended to the field as it is |
| ShellWords.ScanSingleQuoted | lib/liquid/tag/parser.rb:232 | single-quoted text is appended to the field literally |
| ShellWords.ScanDoubleQuoted | lib/liquid/tag/parser.rb:232-233 | in double-quoted text only the backslash before `` $ ` " \ `` and newline is removed |
| ShellWords.ScanBackslash | lib/liquid/tag/parser.rb:233 | outside quotes, backslash and a character other than newline become that character |
| ShellWords.TokensOfPlain | lib/liquid/tag/parser.rb:226-241 | a line without quotes or backslashes splits into its blank-separated fields |
| ShellWords.FieldsUnwords | lib/liquid/tag/parser.rb:226-241 | words without blanks, joined by single blanks, split back into the same words |
| ShellWords.QuoteRoundTrip | lib/liquid/tag/parser.rb:226-241 | any list of strings, each written as a double-quoted run with `"` and `\` backslashed and joined by single blanks, tokenizes back to exactly that list |
| ShellWords.QuoteBodyIsBody | lib/liquid/tag/parser.rb:232-233 | any text with `"` and `\` backslashed is a valid double-quoted body, and the double-quote unescaping gives the text back |
| ShellWords.UnmatchedQuoteFails | lib/liquid/tag/parser.rb:231 | a quote with no closing partner after plain text fails the whole split |
| ShellWords.ErrorNeedsQuote | lib/liquid/tag/parser.rb:231 | the tokenizer fails only on a line that contains a quote |
| ShellWords.TokenChars | lib/liquid/tag/parser.rb:232-233 | every character of every token comes from the line |
| ShellWords.TokensNewlineFree | lib/liquid/tag/parser.rb:232-233 | a line without newlines gives tokens without newlines |
| Classify.LastLiveBelow | lib/liquid/tag/parser.rb:171 | finds the last live separator below a bound, or shows that there is none |
| Classify.RPartition | lib/liquid/tag/parser.rb:171 | with no live separator the whole token is the value; otherwise the token is key, separator and value, and the key ends in a word character |
| Classify.RPartitionAt | lib/liquid/tag/parser.rb:171 | `k` `sep` `v`, with `k` ending in a word character and no live separator in `v`, splits into `k` and `v` |
| Classify.RPartitionValue | lib/liquid/tag/parser.rb:171 | the value part never holds a live separator |
| Classify.RPartitionNone | lib/liquid/tag/parser.rb:171 | a token with no live separator has an empty key part |
| Classify.IsBoolText | lib/liquid/tag/parser.rb:43 | `BOOL`: a sigil, then one or more word characters or `:`, with `\Z` admitting one final newline |
| Classify.FlipKvBool | lib/liquid/tag/parser.rb:134-139 | the sigil is stripped, the rest is the key, and the value is `true` exactly for `@` |
| Classify.IsFloatText | lib/liquid/tag/parser.rb:40 | `FLOAT`: digits, a dot and digits, with `\Z` admitting one final newline |
| Classify.DigitLine | lib/liquid/tag/parser.rb:47 | `INT`: some line of the text is all digits (`^` and `$` match at line breaks) |
| Classify.ToI | lib/liquid/tag/parser.rb:202 | `to_i`: leading blanks, a sign, an optional `0d`, digits with single `_`, and 0 when there are none |
| Classify.ConvertText | lib/liquid/tag/parser.rb:200-204 | `convert` of a string gives a Float, an Integer or the string itself |
| Classify.Convert | lib/liquid/tag/parser.rb:200-204 | `convert` leaves every value that is not a string alone |
| Classify.ConvertOneLine | lib/liquid/tag/parser.rb:200-204 | on one line: `digits.digits` is a Float, all digits an Integer of that value, and anything else stays the string |
| Classify.ConvertKeepsText | lib/liquid/tag/parser.rb:200-204 | one line that does not start with a digit stays a string |
| Classify.ConvertNat | lib/liquid/tag/parser.rb:202 | the decimal text of a natural number converts to that Integer |
| Classify.DigitLineOneLine | lib/liquid/tag/parser.rb:47 | on one line, `^\d+$` matches exactly the nonempty all-digit text |
| Classify.ToIDigits | lib/liquid/tag/parser.rb:202 | `to_i` of all-digit text is its decimal value |
| Classify.SplitKey | lib/liquid/tag/parser.rb:177 | `split(KEY)`: cut at every live `:`, with trailing empty strings dropped; `SplitKeyJoin` and `SplitKeyNonEmpty` state what it gives |
| Classify.KeyPath | lib/liquid/tag/parser.rb:177 | every key path has at least one key |
| Classify.SplitAllJoin | lib/liquid/tag/parser.rb:177 | splitting on `KEY` undoes joining word-ended segments with `:` |
| Classify.SplitKeyJoin | lib/liquid/tag/parser.rb:177 | the same, after Ruby's `split` drops trailing empty strings |
| Classify.KeyPathSingle | lib/liquid/tag/parser.rb:177 | a key with no live `:` is a one-key path |
| Classify.SplitKeyNonEmpty | lib/liquid/tag/parser.rb:177 | no segment of a split key is empty |
| Hashes.Vivify | lib/liquid/tag/parser.rb:147-158 | `build_hash` on a key prefix: `\|\|= {}` at each key, or `NotAHash` on a truthy slot that is not a hash; `VivifyHashAt` states where it leads |
| Hashes.SetAt | lib/liquid/tag/parser.rb:189-193 | `set_val` on the hash under a key prefix, put back where it was found |
| Hashes.Store | lib/liquid/tag/parser.rb:177-193 | `build_hash` then `set_val` for one key path; `StoreSets`, `StoreFrame` and `StoreFails` state what it does |
| Hashes.Opened | lib/liquid/tag/parser.rb:151-153 | `slot \|\|= {}` fails exactly on a truthy slot that is not a hash, and hands back a hash slot as it is |
| Hashes.Merged | lib/liquid/tag/parser.rb:189-193 | a list slot gets `v` appended, another truthy slot becomes `[old, v]`, and an absent or falsy slot becomes `v` |
| Hashes.MergedList | lib/liquid/tag/parser.rb:190 | a list slot gets `v` appended, and stays truthy |
| Hashes.MergedScalar | lib/liquid/tag/parser.rb:191 | a truthy non-list slot becomes the list of the old value and `v` |
| Hashes.MergedFalsy | lib/liquid/tag/parser.rb:192 | an absent, `nil` or `false` slot becomes `v` |
| Hashes.MergeAllList | lib/liquid/tag/parser.rb:189-193 | storing truthy scalars one after another under one key collects them in a list, in order |
| Hashes.PutPut | lib/liquid/tag/parser.rb:192 | the second assignment to a key wins |
| Hashes.StoreSets | lib/liquid/tag/parser.rb:177-192 | after a store, the path holds the merge of what it held and the new value |
| Hashes.StoreFrame | lib/liquid/tag/parser.rb:147-192 | a store changes no path that diverges from its own |
| Hashes.StoreFails | lib/liquid/tag/parser.rb:147-158 | a store fails exactly when a truthy non-hash slot sits on a proper prefix of the path |
| Hashes.StoreKeys | lib/liquid/tag/parser.rb:151 | a store adds at most its first key to the top hash, at the end |
| Hashes.StoreUnique | lib/liquid/tag/parser.rb:147-192 | a store keeps the top keys unique |
| Hashes.VivifyHashAt | lib/liquid/tag/parser.rb:147-158 | after `build_hash` the key prefix leads to a hash |
| Hashes.SetAtPath | lib/liquid/tag/parser.rb:179-193 | `set_val` on the hash that `build_hash` returned, put back under its prefix, is the merge at the leaf |
| Hashes.SetAtGraft | lib/liquid/tag/parser.rb:179-193 | the same, for any prefix and leaf key |
| Parsing.Argv1Applies | lib/liquid/tag/parser.rb:123 | the test of `argv1`: index 0, no key part, not `BOOL`, no live separator in the value |
| Parsing.Step | lib/liquid/tag/parser.rb:170-183 | one pass of the loop body for token `t` at index `i`; `StepArgv1`, `StepKeyValue`, `StepSigil` and `StepBareKey` state its cases |
| Parsing.Fold | lib/liquid/tag/parser.rb:169-185 | `each_with_index` over the tokens: one step each, in order, the first raise ending the parse |
| Parsing.ParseArgs | lib/liquid/tag/parser.rb:55-66 | `Parser.new(raw, defaults:, sep:).args`: the fold over the tokens of the pre-escaped markup, starting from `defaults`, or the tokenizer's error |
| Parsing.Argv1Value | lib/liquid/tag/parser.rb:124 | `unescape(convert(v))` succeeds exactly when `convert` keeps a string, giving the unescaped text, and otherwise raises `NoGsub` |
| Parsing.StepArgv1 | lib/liquid/tag/parser.rb:122-126 | a first token with no live separator and no sigil sets only `argv1`, to its unescaped text, or raises on a number |
| Parsing.StepLater | lib/liquid/tag/parser.rb:172 | tokens after the first never take the `argv1` branch |
| Parsing.StepKeyValue | lib/liquid/tag/parser.rb:171-183 | `k` `sep` `v` stores the typed, unescaped `v` under the key path of `k`, which is not unescaped |
| Parsing.StepSigil | lib/liquid/tag/parser.rb:175 | `@k` and `!k` store `true` and `false` under the key path of `k`, even as the first token |
| Parsing.StepBareKey | lib/liquid/tag/parser.rb:176 | a later bare word becomes a key holding `nil` |
| Parsing.FoldSnoc | lib/liquid/tag/parser.rb:170 | parsing goes token by token, in order, each step seeing its index |
| Parsing.FoldOne | lib/liquid/tag/parser.rb:170 | a single token is a single step at index 0 |
| Parsing.FoldFailsOnce | lib/liquid/tag/parser.rb:170-185 | once a step raises, later tokens change nothing: the parse fails |
| Parsing.FoldPrefixStep | lib/liquid/tag/parser.rb:170 | one more token of the list is one more step |
| Parsing.FoldPrefixFails | lib/liquid/tag/parser.rb:170 | a failure on a prefix of the tokens is the failure of the whole parse |
| Parsing.StepUnique | lib/liquid/tag/parser.rb:172-183 | every step keeps the keys unique |
| Parsing.FoldUnique | lib/liquid/tag/parser.rb:170-185 | parsing keeps the keys unique |
| Parsing.StepKeysGrow | lib/liquid/tag/parser.rb:172-183 | keys never disappear or move; new keys only go at the end |
| Parsing.ParseQuoteFree | lib/liquid/tag/parser.rb:211-216 | a markup without quotes always tokenizes |
| Parsing.ParseUnmatched | lib/liquid/tag/parser.rb:231 | a markup that does not tokenize fails the whole parse with `UnmatchedQuote` |
| Parsing.UnmatchedOnly | lib/liquid/tag/parser.rb:231 | the only error `shellsplit` raises is the unmatched quote |
| Projection.SkipInHtml | lib/liquid/tag/parser.rb:110-113 | `skip_in_html?`: the key `argv1`, a list, a skipped key, a hash or `false` |
| Projection.Kept | lib/liquid/tag/parser.rb:72-76 | the entries `skippable_loop` hands to its block, never more than the hash holds |
| Projection.Html | lib/liquid/tag/parser.rb:83-87 | `to_html`: the kept entries rendered and joined by single blanks; `HtmlAppend`, `HtmlSingle` and `HtmlNothingKept` state what it gives |
| Projection.ToHash | lib/liquid/tag/parser.rb:95-100 | `to_h`: the hash itself, or with `html:` the kept entries collected into a new hash |
| Projection.KeptMember | lib/liquid/tag/parser.rb:72-76 | an entry reaches the block exactly when it is in the hash and is not skipped |
| Projection.KeptAppend | lib/liquid/tag/parser.rb:73 | the entries reach the block in insertion order |
| Projection.KeptNotSkipped | lib/liquid/tag/parser.rb:110-113 | no kept entry is `argv1`, a list, a hash, `false` or a skipped key |
| Projection.RenderKey | lib/liquid/tag/parser.rb:85 | every rendered entry starts with its key, and is the bare key exactly when the value is `true` |
| Projection.RenderAllAppend | lib/liquid/tag/parser.rb:84-86 | rendering works entry by entry |
| Projection.JoinSpacesAppend | lib/liquid/tag/parser.rb:86 | `join(" ")` puts exactly one blank between two nonempty parts |
| Projection.HtmlAppend | lib/liquid/tag/parser.rb:83-87 | the HTML of two hashes with shown entries is their HTML joined by one blank |
| Projection.HtmlNothingKept | lib/liquid/tag/parser.rb:83-87 | when every entry is skipped, the HTML is empty |
| Projection.HtmlSingle | lib/liquid/tag/parser.rb:83-87 | a single shown entry is rendered alone |
| Projection.ToHashKept | lib/liquid/tag/parser.rb:95-100 | `to_h(html: true)` of a hash with unique keys is the kept entries in order; `to_h` alone is the hash itself |
| Projection.KeptUnique | lib/liquid/tag/parser.rb:72-76 | the kept entries of a hash with unique keys have unique keys |
| Projection.CollectUnique | lib/liquid/tag/parser.rb:97-99 | `o[k] = v` over entries with unique keys rebuilds exactly those entries |
| Projection.PutAppends | lib/liquid/tag/parser.rb:98 | assigning a new key appends that entry |
| Markup.ScanInserted | lib/liquid/tag/parser.rb:213-233 | backslashes inserted before non-blank characters of text without quotes or backslashes are invisible to `shellsplit` |
| Markup.PlainTokens | lib/liquid/tag/parser.rb:211-216 | a markup without quotes or backslashes tokenizes into its blank-separated fields |
| Markup.PlainMarkup | lib/liquid/tag/parser.rb:169-185 | so such a markup parses as the fold over its fields |
| Markup.PlainWords | lib/liquid/tag/parser.rb:169-185 | words joined by blanks parse as the fold over those words |
| Markup.PlainPair | lib/liquid/tag/parser.rb:171-183 | an unquoted `k=v` stores the typed `v` under the key path of `k` |
| Markup.PlainArgv1 | lib/liquid/tag/parser.rb:122-126 | a lone unquoted word without separator or sigil is `argv1`, or raises if it is a number |
| Markup.PlainArgv1Text | lib/liquid/tag/parser.rb:122-126 | one that does not start with a digit is `argv1`, as written |
| Markup.PlainSigil | lib/liquid/tag/parser.rb:175 | a lone `@k` or `!k` stores `true` or `false` under the key path of `k` |
| Markup.QuotedPair | lib/liquid/tag/parser.rb:171-183 | `k='x'` stores `x` exactly as written, with its `@ ! : =` and separators, then typed |
| Markup.DoubleQuotedPair | lib/liquid/tag/parser.rb:171-183 | `k="x"` does the same for a double-quoted value |
| Markup.QuotedPairEscaped | lib/liquid/tag/parser.rb:211-215 | the pre-escape of `k` `sep` `'x'` escapes the key, the separator and the inside of the quotes separately |
| Markup.SingleQuotedTokens | lib/liquid/tag/parser.rb:226-241 | the pre-escaped `k='x'` is one token: key, separator and the quoted text with its backslashes |
| Markup.DoubleQuotedTokens | lib/liquid/tag/parser.rb:226-241 | the same for a double-quoted run that keeps its backslashes |
| Markup.DoubleQuotedRun | lib/liquid/tag/parser.rb:232-233 | the backslashes of the pre-escape survive a double-quoted run, since none stands before `` $ ` " \ `` |
| Markup.KeyThenEscapedSep | lib/liquid/tag/parser.rb:226-241 | the pre-escaped key and separator join, unescaped, the word of the quote that follows |
| Markup.UnbackslashKeeps | lib/liquid/tag/parser.rb:232-233 | backslashes inserted before characters a later pass does not unescape stay |
| Markup.QuotedArgv1 | lib/liquid/tag/parser.rb:122-126 | a lone quoted `'x'` is `argv1` exactly as written, or raises if `convert` makes a number of it |
| Markup.QuotedAloneTokens | lib/liquid/tag/parser.rb:211-241 | the pre-escaped `'x'` is the single token of the pre-escaped `x` |
| Markup.QuotedArgv1Text | lib/liquid/tag/parser.rb:122-126 | a lone quoted one-line word not starting with a digit is `argv1`, as written |
| TagParser.Parser.constructor | lib/liquid/tag/parser.rb:55-63 | the parser holds the markup, the separator and the defaults as its starting hash |
| TagParser.Parser.Create | lib/liquid/tag/parser.rb:55-66 | `Parser.new` succeeds exactly when `ParseArgs` does, with its hash as `args`, and otherwise raises its error |
| TagParser.Parser.FromShellwords | lib/liquid/tag/parser.rb:211-216 | the tokens of the pre-escaped markup |
| TagParser.Parser.Argv1 | lib/liquid/tag/parser.rb:122-126 | when the rule applies, sets `argv1` to `unescape(convert(v))` or raises `NoGsub` and changes nothing; otherwise changes nothing |
| TagParser.Parser.BuildHash | lib/liquid/tag/parser.rb:147-158 | walks down the key prefix making absent or falsy slots `{}` and returns the hash reached, or raises `NotAHash` and leaves `args` alone |
| TagParser.Parser.SetVal | lib/liquid/tag/parser.rb:189-193 | the three statements leave `args` as the merge of the slot and `v` at the key path |
| TagParser.Parser.ParseToken | lib/liquid/tag/parser.rb:171-183 | the loop body does exactly one `Step` on `args`, or raises its error |
| TagParser.Parser.Parse | lib/liquid/tag/parser.rb:169-185 | the loop leaves `args` as `ParseArgs` of the markup from the old hash, with unique keys, or raises its error |
| TagParser.Parser.SkippableLoop | lib/liquid/tag/parser.rb:72-76 | yields exactly the kept entries, in order |
| TagParser.Parser.ToHtml | lib/liquid/tag/parser.rb:83-87 | the rendered kept entries joined by single blanks |
| TagParser.Parser.ToH | lib/liquid/tag/parser.rb:95-100 | the hash itself, or with `html:` the kept entries in their order |
| Vectors.TwiceStep | lib/liquid/tag/parser.rb:189-193 | `k=x` then `k=y` for a new key store `X` and then the list `[X, Y]` |
| Vectors.RepeatedPairs | lib/liquid/tag/parser.rb:169-193 | `a=x a=y b=x b=y` gives two keys, each holding the list of both values |
| Vectors.NestedSigil | lib/liquid/tag/parser.rb:175-177 | `@k1:k2` and `!k1:k2` give the nested hash `{k1: {k2: bool}}` |
| Vectors.BareKeyFold | lib/liquid/tag/parser.rb:172-176 | a first word then a bare word give `argv1` and a key holding `nil` |
| Vectors.SigilFold | lib/liquid/tag/parser.rb:172-175 | a first word then `@k` give `argv1` and `k: true` |
| Vectors.NestedFold | lib/liquid/tag/parser.rb:147-193 | `a=x a=y b:c=z` gives a list under `a` and a nested hash under `b` |
| Vectors.SlashesArgv1 | spec/tests/lib/liquid/tag/parser_spec.rb:17-19 | `//hello.world` is `argv1` |
| Vectors.UrlArgv1 | spec/tests/lib/liquid/tag/parser_spec.rb:25-27 | `'https://hello.world'` is `argv1`, without quotes |
| Vectors.HtmlHash | spec/tests/lib/liquid/tag/parser_spec.rb:35-37 | `a @b` parses to `argv1` and `b: true`, and `to_h(html: true)` is `{b: true}` |
| Vectors.HtmlFalse | spec/tests/lib/liquid/tag/parser_spec.rb:43-45 | `!a` parses to `{a: false}`, and its HTML is empty |
| Vectors.HtmlNested | spec/tests/lib/liquid/tag/parser_spec.rb:51-53 | `a=1 a=2 b:c=3` parses to a list and a hash, and its HTML is empty |
| Vectors.PairVector | spec/tests/lib/liquid/tag/parser_spec.rb:185-189 | `a=1` parses to `{a: 1}`, with no `argv1` |
| Vectors.HtmlPair | spec/tests/lib/liquid/tag/parser_spec.rb:59-61 | the HTML of `{a: 1}` is `a="1"` |
| Vectors.HtmlArgv1 | spec/tests/lib/liquid/tag/parser_spec.rb:67-69 | the HTML of `{argv1: "a"}` is empty |
| Vectors.QuotedSepValue | spec/tests/lib/liquid/tag/parser_spec.rb:76-78 | `a='b=c'` parses to `{a: "b=c"}` |
| Vectors.QuotedSepArgv1 | spec/tests/lib/liquid/tag/parser_spec.rb:83-85 | `'a=b'` parses to `{argv1: "a=b"}` |
| Vectors.Lists | spec/tests/lib/liquid/tag/parser_spec.rb:92-94 | `a=1 a=2 b=1 b=2` parses to `{a: [1, 2], b: [1, 2]}` |
| Vectors.QuotedSigilValue | spec/tests/lib/liquid/tag/parser_spec.rb:101-103 | `a="@true"` parses to `{a: "@true"}` |
| Vectors.TrueSigil | spec/tests/lib/liquid/tag/parser_spec.rb:108-116 | `@true` parses to `{true: true}`, the sigil stripped |
| Vectors.NestedTrue | spec/tests/lib/liquid/tag/parser_spec.rb:121-125 | `@key1:key2` parses to `{key1: {key2: true}}` |
| Vectors.FalseSigil | spec/tests/lib/liquid/tag/parser_spec.rb:132-140 | `!false` parses to `{false: false}`, with no `argv1` |
| Vectors.NestedFalse | spec/tests/lib/liquid/tag/parser_spec.rb:145-149 | `!key1:key2` parses to `{key1: {key2: false}}` |
| Vectors.DeepHash | spec/tests/lib/liquid/tag/parser_spec.rb:156-160 | `a:b=c` parses to `{a: {b: "c"}}` |
| Vectors.CustomSeparator | spec/tests/lib/liquid/tag/parser_spec.rb:166-170 | `a:b:'c:d'` with the separator `:` parses to `{a: {b: "c:d"}}` |
| Vectors.WordArgv1 | spec/tests/lib/liquid/tag/parser_spec.rb:176-180 | `a` parses to `{argv1: "a"}` |
| Vectors.BareKey | spec/tests/lib/liquid/tag/parser_spec.rb:206-209 | `argv1 key` parses to `{argv1: "argv1", key: nil}` |
| Vectors.PlusSeparator | lib/liquid/tag/parser.rb:211-215 | with the separator `+`, line 215 adds no backslash, so `'a+b'` parses to `{a: "b"}` and not to `argv1` |

## Left out

- The `rb_delegate` forwarding list and `args_with_indifferent_access` (lines 14-36) are thin wrappers over Ruby's `Hash` from gems that are not part of this model. Only the hash `args` is exposed.
- The `require`s (lines 6-8) are foreign libraries.
- The `QUOTE` constant (line 41) is never used by the parser. `ShellWords.JoinQuoted` is not part of the source either: it writes words out double-quoted, so that `ShellWords.QuoteRoundTrip` can state that the tokenizer inverts it.
- The separator is one character. Line 215 writes a backslash and the separator as its replacement string, which `gsub` reads as a reference for `+` (the last group), `&` (the whole match) and `\` (one backslash): for these three the pass changes nothing, and the model follows that (`Escaping.EscapeSeparatorsUnmarked`, `Vectors.PlusSeparator`). The escaping, markup and vector lemmas are stated for the separators of `Text.ValidSep`, which line 215 does mark. Multi-character separators are left out.
- Parsing.ParseArgs: not faithful for a separator that is a word character, a single quote `'` or a backquote `` ` ``. Before a word character `\b` asks for a non-word character in front, and `\'` and ``\` `` in a replacement string stand for the text after and before the match. The model treats these like any other separator.
- TagParser.Parser.Create: the same separators as `Parsing.ParseArgs`, which it runs.
- Floats keep their digit text: `to_f` (line 201) is floating point, and `to_html` renders a Float by the digits it was parsed from, not by `to_f.to_s`.
- Hashes are values. Ruby changes `@args` and nested hashes in place, and the caller's `defaults` hash is the one being changed. The model returns the new hash, so aliasing of nested hashes and changes the caller could observe are not modelled.
- When parsing raises, Ruby has already changed `defaults` for the tokens before. The model returns only the error.
- Character classes are ASCII: `\w` is `[A-Za-z0-9_]` and `\s` is blank, tab, newline, vertical tab, form feed and carriage return. Non-ASCII word characters and encodings are left out.
- `v =~ BOOL` on a value that is not a string (line 175 after `convert`) cannot happen, since the value there is always a string. Ruby's behaviour of `=~` on other objects is not modelled.
- Defaults with string keys, as Jekyll passes them, are not modelled. Keys are symbols or `nil`.
- `Projection.ValueText` gives lists and hashes no text, since `skip_in_html?` always skips them before `to_html` renders.
- Markup.DoubleQuotedPair: stated only for separators other than `"`, `$` and blanks, and for values without backslashes. A `$` separator would be unmarked inside double quotes.
- Markup.QuotedPair: stated only for keys made of storable characters, values without backslashes and separators that are not blank. Markups with backslashes are covered only token by token, through `Parsing.Step`.
- Markup.PlainTokens: stated only for markups without quotes or backslashes. Quoted markups are covered by the quoted-pair and quoted-`argv1` lemmas. It also needs a separator that is not blank. With a blank separator, the pre-escape turns `a b` into `a\ b`, which `shellsplit` reads as the one token `a b`.
- Markup.PlainMarkup: stated only for a separator that is not blank, as `Markup.PlainTokens`.
- Markup.PlainWords: stated only for a separator that is not blank, as `Markup.PlainTokens`.
- Markup.PlainPair: stated only for a separator that is not blank, as `Markup.PlainTokens`.
- Markup.PlainArgv1: stated only for a separator that is not blank, as `Markup.PlainTokens`.
- Markup.PlainArgv1Text: stated only for a separator that is not blank, as `Markup.PlainTokens`.
- Markup.PlainSigil: stated only for a separator that is not blank, as `Markup.PlainTokens`.
- Markup.SingleQuotedTokens: stated only for a separator that is not blank, as `Markup.PlainTokens`.
- Markup.DoubleQuotedTokens: stated only for a separator that is not blank, as `Markup.PlainTokens`.
- Markup.KeyThenEscapedSep: stated only for a separator that is not blank, as `Markup.PlainTokens`.
