# dox: directive splitter and CLI11 string tools

dox reads a documentation template and cuts it into segments. Literal text and
embedded `@{ … }` Lua directives take turns: segment 0 is literal text, segment 1 is a
directive body, and so on. The literal text is printed and the directive bodies are run
as Lua. This project models that splitter, `parse` in `main.cpp`, as the loop that it
is. `Directives.Step` is one iteration of the loop body. `Directives.Run` and
`Directives.Segments` fold it over a document, and `Directives.Parse` is the loop itself,
proved to produce `Segments(doc)`. The lemmas state what the segmentation guarantees:
- literal and directive segments alternate;
- the first segment is the text before the first `@{`;
- the segments, read in order, are a subsequence of the document;
- brace depth and quoted regions behave as the code says.

The rest of the model is the string toolbox of the CLI11 library, which is vendored next
to dox as `external/CLI11/include/CLI/StringTools.hpp`. `main.cpp` does not include it:
it takes the template path straight from `argv[1]` (main.cpp:298). The header provides:
- `split` and `join`/`rjoin`;
- the trim family;
- option-name validation;
- `to_lower` and `remove_underscore`;
- `find_and_replace`;
- the default-flag-value helpers;
- `find_member`;
- `split_up`, the command-line tokenizer;
- `fix_newlines`;
- `escape_detect` together with `find_and_modify`;
- `add_quotes_if_needed`.

The modelling follows the code's own form:
- Functions that only compute are Dafny functions.
- Every loop is a method proved against a specification function. The properties the
  library promises are then proved about that function: round trips, idempotence,
  subsequence ("only erases"), first-match characterisations, and worked examples.
- Operations that change a `std::string&` in place are methods of
  `StringRef.MutableString`, a class whose one field is the referenced string.

Conventions:
- `std::string::npos` is `Option.None`.
- A `char` is a Dafny `char`.
- The locale-dependent character classes (`isspace`, `isalnum`, `tolower`) are those of
  the classic "C" locale, restricted to ASCII (module `Ascii`).

Where the code and the splitter's usual description disagree, the model follows the code:
- When a directive closes, the code pushes `output.substr(0, output.length() - 1)`
  (main.cpp:94). That removes the `@` of an `@}` closer. It also removes the last body
  character when a plain `}` closes the directive. So `"a@{b}c"` splits into
  `["a", "", "c"]`, and `@{x="}"}` gives the directive body `x="}`, without its closing
  quote (`Directives.ClosingDropsLastCharacter`, `Directives.QuotedBraceExample`).
- The closing `}` is never recorded as the previous character (the iteration ends with
  `continue`). So after `@}` the previous character is still `@`, and a `{` right after it
  opens a new directive with an empty literal segment between the two
  (`Directives.CloseKeepsLastChar`).

## Model

| member | source | states |
|---|---|---|
| StdString.FindFirstOf | external/CLI11/include/CLI/StringTools.hpp:224-226 | `find_first_of(chars, from)` returns the first index at or after `from` whose character is in `chars`, and None exactly when there is none |
| StdString.FindLastOf | external/CLI11/include/CLI/StringTools.hpp:345 | `find_last_of(chars, end - 1)` returns the last index below `end` whose character is in `chars`, and None exactly when there is none |
| StdString.Find | external/CLI11/include/CLI/StringTools.hpp:210 | `find(p, from)` returns the first position at or after `from` where `p` occurs, and None exactly when there is none |
| StdString.DropLast | main.cpp:94 | `substr(0, length() - 1)` removes exactly the last character, and gives "" on the empty string (where `length() - 1` wraps to npos) |
| Ascii.IsSpace | external/CLI11/include/CLI/StringTools.hpp:116 | `isspace` in the C locale: the space and the control characters `\t` to `\r`, and nothing else |
| Ascii.IsAlnum | external/CLI11/include/CLI/StringTools.hpp:174 | `isalnum` in the C locale: a digit, or a letter of either case |
| Ascii.LowerChar | external/CLI11/include/CLI/StringTools.hpp:194 | `tolower` in the C locale: an upper-case letter becomes the lower-case letter at the same place in the alphabet, anything else is kept, and the result is never upper case |
| Trim.FirstKept | external/CLI11/include/CLI/StringTools.hpp:123 | the `find_if` of `ltrim`: every character before the index is in the filter, and the one at it is not |
| Trim.EndKept | external/CLI11/include/CLI/StringTools.hpp:137-138 | the reverse `find_if` of `rtrim`: every character from the index on is in the filter, and the one before it is not |
| Trim.FirstKeptUnique | external/CLI11/include/CLI/StringTools.hpp:123 | any index with that property is the one `ltrim` finds |
| Trim.EndKeptUnique | external/CLI11/include/CLI/StringTools.hpp:137-138 | any index with that property is the one `rtrim` finds |
| Trim.Trimmed | external/CLI11/include/CLI/StringTools.hpp:147 | a trimmed string is no longer than the original, and neither end of a non-empty result is in the filter |
| Trim.TrimmedIsSpan | external/CLI11/include/CLI/StringTools.hpp:144-147 | `trim` leaves "" when every character is filtered, and otherwise the span from the first kept character to the last |
| Trim.TrimmedIdempotent | external/CLI11/include/CLI/StringTools.hpp:144-147 | trimming twice gives the same string as trimming once |
| Trim.TrimmedPadding | external/CLI11/include/CLI/StringTools.hpp:144-147 | filtered padding in front of a string whose two ends are kept is removed, and nothing else is |
| StringRef.MutableString.constructor | external/CLI11/include/CLI/StringTools.hpp:151 | the string holds the given copy |
| StringRef.MutableString.LTrim | external/CLI11/include/CLI/StringTools.hpp:122-126 | the string becomes the original from its first character outside the filter on |
| StringRef.MutableString.RTrim | external/CLI11/include/CLI/StringTools.hpp:136-141 | the string becomes the original up to and including its last character outside the filter |
| StringRef.MutableString.Trim | external/CLI11/include/CLI/StringTools.hpp:147 | the string becomes its trimmed form, `ltrim` after `rtrim` |
| StringRef.MutableString.LTrimSpace | external/CLI11/include/CLI/StringTools.hpp:115-119 | `ltrim` with white space as the filter |
| StringRef.MutableString.RTrimSpace | external/CLI11/include/CLI/StringTools.hpp:129-133 | `rtrim` with white space as the filter |
| StringRef.MutableString.TrimSpace | external/CLI11/include/CLI/StringTools.hpp:144 | `trim` with white space as the filter |
| StringRef.TrimCopy | external/CLI11/include/CLI/StringTools.hpp:156-159 | returns the trimmed copy and leaves the argument alone |
| StringRef.TrimCopySpace | external/CLI11/include/CLI/StringTools.hpp:150-153 | returns the white-space-trimmed copy |
| StringRef.MutableString.RemoveDefaultFlagValues | external/CLI11/include/CLI/StringTools.hpp:223-233 | the string becomes `RemovedDefaults` of the original: each `{…}` group closed before any `,` is erased, the scan resumes one past the group's `{`, and then every `!` is erased |
| StringRef.MutableString.EraseBraceGroups | external/CLI11/include/CLI/StringTools.hpp:224-231 | the brace loop turns the string into `ErasedBraces` of the original, started at its first `{` |
| StringRef.MutableString.EraseGroupAt | external/CLI11/include/CLI/StringTools.hpp:226-229 | one turn of the brace loop: the string becomes `ErasedGroup` of the original at `loc` |
| StringRef.MutableString.EscapeDetect | external/CLI11/include/CLI/StringTools.hpp:342-352 | the string becomes `EscapeDetected(old, offset)` and the search resumes at `offset + 1` |
| StringRef.MutableString.AddQuotesIfNeeded | external/CLI11/include/CLI/StringTools.hpp:355-364 | the string becomes `AddedQuotes` of the original |
| StringRef.FindAndModifyEscapes | external/CLI11/include/CLI/StringTools.hpp:267-273 | the result is `EscapesFixed(str, trigger, 0)`: the same length as `str`, and changed only at positions where an occurrence of the trigger begins, whose first character became a space |
| Names.ValidFirstChar | external/CLI11/include/CLI/StringTools.hpp:174 | a character may start a name exactly when it may appear later in one and is neither `.` nor `-` |
| Names.ValidLaterChar | external/CLI11/include/CLI/StringTools.hpp:177-179 | a character allowed inside a name is never white space, `=`, `,`, `{` or `!`, the separators and flag-default markers |
| Names.ValidNameString | external/CLI11/include/CLI/StringTools.hpp:182-189 | true exactly when the name is non-empty, its first character is alphanumeric or `_`, and each later character is alphanumeric or one of `_ . -` |
| Names.ToLower | external/CLI11/include/CLI/StringTools.hpp:192-197 | the same length, with each character lowered |
| Names.RemoveChar | external/CLI11/include/CLI/StringTools.hpp:201 | the erase–remove idiom: the character is gone, the result is a subsequence of the input, and every other character keeps its count |
| Names.RemoveUnderscore | external/CLI11/include/CLI/StringTools.hpp:200-203 | no `_` is left, the result is a subsequence of the input, and every other character keeps its count |
| Names.RemoveUnderscoreSnoc | external/CLI11/include/CLI/StringTools.hpp:201 | removing underscores works character by character: one more character is dropped when it is `_` and appended otherwise |
| Names.ToLowerIdempotent | external/CLI11/include/CLI/StringTools.hpp:192-197 | lowering twice is lowering once, and a lowered string has no upper-case letter |
| Names.ToLowerAppend | external/CLI11/include/CLI/StringTools.hpp:192-197 | lowering works character by character over a concatenation |
| Names.FoldingsCommute | external/CLI11/include/CLI/StringTools.hpp:243-245 | lowering and removing underscores commute, so the order `find_member` applies them in does not matter |
| Names.FoldingsCommuteSnoc | external/CLI11/include/CLI/StringTools.hpp:243-245 | when the two foldings commute on a string, they still commute after one more character |
| Names.FirstFoldedMatch | external/CLI11/include/CLI/StringTools.hpp:244-260 | the `find_if`: the first index from `from` whose folded name equals the key, or -1 when there is none |
| Names.FindMember | external/CLI11/include/CLI/StringTools.hpp:236-263 | the index of the first name equal to `name` after the chosen foldings, and -1 exactly when no name matches |
| Names.FoldingFindsExactMatch | external/CLI11/include/CLI/StringTools.hpp:236-263 | a name found exactly is still found with either folding on, at the same index or earlier |
| JoinSplit.JoinedSnoc | external/CLI11/include/CLI/StringTools.hpp:79-81 | joining one more element adds the delimiter and then that element |
| JoinSplit.Joined | external/CLI11/include/CLI/StringTools.hpp:73-83 | the join starts with the first element |
| JoinSplit.Join | external/CLI11/include/CLI/StringTools.hpp:73-83 | the elements with the delimiter between neighbours, "" for no elements and the element itself for one |
| JoinSplit.JoinMapped | external/CLI11/include/CLI/StringTools.hpp:89-99 | the join of the elements mapped through `func` |
| JoinSplit.RJoin | external/CLI11/include/CLI/StringTools.hpp:102-110 | the join of the elements in reverse order |
| JoinSplit.Pieces | external/CLI11/include/CLI/StringTools.hpp:54-56 | cutting at every delimiter yields at least one piece |
| JoinSplit.Getlines | external/CLI11/include/CLI/StringTools.hpp:54-56 | no line `getline` returns contains the delimiter, and there are none exactly when the string is empty |
| JoinSplit.GetlinesArePieces | external/CLI11/include/CLI/StringTools.hpp:54-56 | `getline` splitting of a non-empty string is cutting at every delimiter after one trailing delimiter is dropped |
| JoinSplit.PiecesCut | external/CLI11/include/CLI/StringTools.hpp:54-56 | cutting at the first delimiter, when more text follows it, commutes with dropping one trailing delimiter |
| JoinSplit.Split | external/CLI11/include/CLI/StringTools.hpp:45-59 | `[""]` for the empty string, and otherwise the pieces between delimiters, with no empty piece after a trailing delimiter |
| JoinSplit.PiecesAvoidDelim | external/CLI11/include/CLI/StringTools.hpp:45-59 | no piece contains the delimiter |
| JoinSplit.JoinedPieces | external/CLI11/include/CLI/StringTools.hpp:45-83 | joining the pieces with the delimiter rebuilds the string |
| JoinSplit.PiecesOfJoined | external/CLI11/include/CLI/StringTools.hpp:45-83 | splitting the join of delimiter-free elements gives the elements back |
| JoinSplit.SplitThenJoin | external/CLI11/include/CLI/StringTools.hpp:45-83 | `join(split(s, d), d)` is `s` without one trailing delimiter, and no element contains `d` |
| Replace.KeepOne | external/CLI11/include/CLI/StringTools.hpp:209 | where `from` does not start at a position, the left-to-right replacement keeps that character and goes on at the next one |
| Replace.ReplaceHere | external/CLI11/include/CLI/StringTools.hpp:210 | where `from` starts at a position, the left-to-right replacement puts `to` there and goes on after the occurrence |
| Replace.ReplaceFrom | external/CLI11/include/CLI/StringTools.hpp:209-211 | from the search position up to the occurrence that `find` reports, the text is kept; that occurrence is replaced and the rest continues after it |
| Replace.ReplaceNoneFrom | external/CLI11/include/CLI/StringTools.hpp:209 | when `find` reports no occurrence from the search position on, the rest of the string is kept as it is |
| Replace.ReplaceAt | external/CLI11/include/CLI/StringTools.hpp:209-211 | from the start of the string, the first occurrence `find` reports is the first one replaced |
| Replace.FindAndReplace | external/CLI11/include/CLI/StringTools.hpp:206-216 | the result is `ReplaceAll`: every occurrence found left to right is replaced, and inserted text is never searched again |
| Replace.ReplaceAll | external/CLI11/include/CLI/StringTools.hpp:206-216 | the result keeps the length when `to` and `from` have the same length, and grows or shrinks as `to` is longer or shorter than `from` |
| Replace.ReplaceAbsent | external/CLI11/include/CLI/StringTools.hpp:210 | with no occurrence of `from`, the string is unchanged |
| Replace.ReplaceBySelf | external/CLI11/include/CLI/StringTools.hpp:206-216 | replacing a pattern by itself changes nothing |
| Replace.ReplaceLength | external/CLI11/include/CLI/StringTools.hpp:211 | each replacement changes the length by `|to| - |from|` |
| Replace.ReplaceDoesNotRescan | external/CLI11/include/CLI/StringTools.hpp:212 | `find_and_replace("aa", "a", "aa")` is `"aaaa"`, because the search resumes after the inserted text |
| FlagValues.HasDefaultFlagValues | external/CLI11/include/CLI/StringTools.hpp:219-221 | true exactly when the flags contain `{` or `!` |
| FlagValues.ErasedGroup | external/CLI11/include/CLI/StringTools.hpp:226-228 | one turn of the brace loop never lengthens the flags and keeps everything before the `{` |
| FlagValues.ErasedBraces | external/CLI11/include/CLI/StringTools.hpp:225-231 | the brace loop never lengthens the flags |
| FlagValues.RemovedDefaults | external/CLI11/include/CLI/StringTools.hpp:223-233 | `remove_default_flag_values` leaves no `!` and never lengthens the flags |
| FlagValues.ErasedGroupOnlyErases | external/CLI11/include/CLI/StringTools.hpp:226-228 | one pass of the brace loop only erases, so its result is a subsequence of the flags |
| FlagValues.ErasedBracesStep | external/CLI11/include/CLI/StringTools.hpp:225-230 | one pass erases at most the group and shortens or keeps the flags; the loop then goes on from the next `{` after `loc + 1` in the string as it now is |
| FlagValues.ErasedBracesOnlyErases | external/CLI11/include/CLI/StringTools.hpp:225-231 | the brace-erasing loop only erases, so its result is a subsequence of the flags |
| FlagValues.RemovedDefaultsOnlyErases | external/CLI11/include/CLI/StringTools.hpp:223-233 | `remove_default_flag_values` only erases, and leaves no `!` |
| FlagValues.RemoveCharAbsent | external/CLI11/include/CLI/StringTools.hpp:232 | removing a character that does not occur changes nothing |
| FlagValues.PlainFlagsUnchanged | external/CLI11/include/CLI/StringTools.hpp:219-233 | flags for which `has_default_flag_values` is false are left unchanged |
| FlagValues.GroupOpensAt | external/CLI11/include/CLI/StringTools.hpp:224 | the scan starts at the first `{` |
| FlagValues.GroupClosesAt | external/CLI11/include/CLI/StringTools.hpp:226 | a group's `}` is found when no `}` or `,` comes before it |
| FlagValues.NoBraceAfterGroup | external/CLI11/include/CLI/StringTools.hpp:230 | the scan stops when no `{` follows |
| FlagValues.GroupErased | external/CLI11/include/CLI/StringTools.hpp:226-228 | the group `{value}` with no `}` or `,` inside is erased whole, braces included |
| FlagValues.OneDefaultGroupErased | external/CLI11/include/CLI/StringTools.hpp:223-233 | `pre{value}post`, with one group, becomes `pre post` with the `!`s erased |
| FlagValues.GroupErasedThenResumes | external/CLI11/include/CLI/StringTools.hpp:226-230 | erasing a group at `pre` leaves `pre + rest`, and the scan resumes at the first `{` after `pre`'s length plus one |
| FlagValues.GroupOpensAfter | external/CLI11/include/CLI/StringTools.hpp:230 | searching from one past `pre`, the next `{` found is the one that follows the non-empty, `{`-free text `between` |
| FlagValues.FirstOfSeparatedGroups | external/CLI11/include/CLI/StringTools.hpp:225-230 | erasing the first of two groups separated by non-empty text leaves the separator and goes on at the second group |
| FlagValues.LastGroupErased | external/CLI11/include/CLI/StringTools.hpp:225-231 | a group with no `{` after it is erased and the loop stops |
| FlagValues.SeparatedGroupsErased | external/CLI11/include/CLI/StringTools.hpp:225-231 | two groups separated by non-empty `{`-free text are both erased |
| FlagValues.SeparatedDefaults | external/CLI11/include/CLI/StringTools.hpp:223-233 | `pre{v}between{w}post` becomes `pre between post` with its `!`s erased |
| FlagValues.CommaSeparatedDefaults | external/CLI11/include/CLI/StringTools.hpp:223-233 | `-a{x},-b{y}` becomes `-a,-b` |
| FlagValues.NoBraceAfterOpener | external/CLI11/include/CLI/StringTools.hpp:230 | in `pre{w}post` with no other `{` after `pre`, the search from one past the `{` finds none |
| FlagValues.AdjacentGroupsKeepSecond | external/CLI11/include/CLI/StringTools.hpp:228-230 | for two adjacent groups `{v}{w}`, the first is erased, the scan resumes past the second group's `{` and so the second group is kept |
| FlagValues.AdjacentDefaults | external/CLI11/include/CLI/StringTools.hpp:223-233 | `pre{v}{w}post` becomes `pre{w}post` with its `!`s erased |
| FlagValues.AdjacentGroupsExample | external/CLI11/include/CLI/StringTools.hpp:223-233 | `{a}{b}` becomes `{b}` |
| FixNewlines.NewlinesLedAppend | external/CLI11/include/CLI/StringTools.hpp:326-336 | inserting the leader works piecewise over a concatenation |
| FixNewlines.NewlinesLed | external/CLI11/include/CLI/StringTools.hpp:326-336 | reference definition of `fix_newlines`: the leader after every `\n` of the input; `NewlinesLedAppend`, `NewlinesLedPlain`, `NewlinesLedJoinsLines` and `NewlinesLedLength` state its properties |
| FixNewlines.NewlinesLedPlain | external/CLI11/include/CLI/StringTools.hpp:328-330 | text without a newline is unchanged |
| FixNewlines.NewlinesLedJoinsLines | external/CLI11/include/CLI/StringTools.hpp:322-336 | the result is the input's lines joined by a newline followed by the leader, so nothing is added before the first line |
| FixNewlines.FirstLine | external/CLI11/include/CLI/StringTools.hpp:328-329 | the first newline that `find` reports splits the text into a newline-free first line, the newline and the rest |
| FixNewlines.LedUpToNewline | external/CLI11/include/CLI/StringTools.hpp:329-331 | the leader goes right after the first newline |
| FixNewlines.FixStep | external/CLI11/include/CLI/StringTools.hpp:331-332 | one insertion followed by a resumed search at the leader's last character keeps the final result |
| FixNewlines.NoMoreNewlines | external/CLI11/include/CLI/StringTools.hpp:328-330 | once no newline is left after the search position, the string is final |
| FixNewlines.FixStepProgress | external/CLI11/include/CLI/StringTools.hpp:331-332 | each insertion leaves fewer newlines ahead of the search, so the loop ends |
| FixNewlines.FixNewlines | external/CLI11/include/CLI/StringTools.hpp:326-336 | the result is the input with the leader inserted after every newline of the input |
| FixNewlines.NewlinesLedLength | external/CLI11/include/CLI/StringTools.hpp:326-336 | the leader is inserted once per newline, so the length grows by the newline count times the leader's length |
| Quoting.ArgStart | external/CLI11/include/CLI/StringTools.hpp:345 | the last argument-start character before the trigger, or anywhere in the string when the offset is 0 |
| Quoting.NextChar | external/CLI11/include/CLI/StringTools.hpp:343 | `str[offset + 1]` is the next character, or the terminating `\0` when the trigger is the last character |
| Quoting.TriggerIsSeparator | external/CLI11/include/CLI/StringTools.hpp:343-347 | the trigger is rewritten only when a quote follows it within the string and an argument start `-` or `/` comes before it, or anywhere when the offset is 0 |
| Quoting.EscapeDetected | external/CLI11/include/CLI/StringTools.hpp:342-352 | only the trigger may change. It becomes a space exactly when a quote follows it and the argument starts with `-` (for `=`) or `/` (otherwise) |
| Quoting.EscapeDetectedLongOption | external/CLI11/include/CLI/StringTools.hpp:338-348 | `--opt="a b"` becomes `--opt "a b"` |
| Quoting.EscapeDetectedSlashOption | external/CLI11/include/CLI/StringTools.hpp:347-348 | `/opt:'x'` becomes `/opt 'x'` |
| Quoting.EscapeDetectedPositional | external/CLI11/include/CLI/StringTools.hpp:346 | `a="b"`, where no argument start comes before the `=`, is left alone |
| Quoting.EscapeDetectedAtStart | external/CLI11/include/CLI/StringTools.hpp:345 | at offset 0, `offset - 1` wraps to npos, so a `-` after the trigger counts as the argument start |
| Quoting.EscapesFixed | external/CLI11/include/CLI/StringTools.hpp:267-273 | `find_and_modify` with `escape_detect`, read position by position, keeps the length |
| Quoting.EscapesFromFound | external/CLI11/include/CLI/StringTools.hpp:269-270 | from the search position up to the occurrence `find` reports, nothing changes; `escape_detect` runs there and the scan resumes one past it |
| Quoting.EscapesNoneFrom | external/CLI11/include/CLI/StringTools.hpp:269 | when `find` reports no trigger from the search position on, nothing changes |
| Quoting.SeparatorsCompose | external/CLI11/include/CLI/StringTools.hpp:269-270 | one `escape_detect` at an occurrence of the trigger, followed by changes only at later occurrences, changes only occurrences of the trigger, each into a space |
| Quoting.EscapesFixedOnlySeparators | external/CLI11/include/CLI/StringTools.hpp:267-273 | a character changes only at or after the search start, only at a position where the trigger occurs, and only from the trigger's first character into a space |
| Quoting.EscapesFixedAbsent | external/CLI11/include/CLI/StringTools.hpp:269 | without the trigger the string is unchanged |
| Quoting.QuoteFor | external/CLI11/include/CLI/StringTools.hpp:357 | the quote chosen is `'` or `"` |
| Quoting.QuoteForAbsent | external/CLI11/include/CLI/StringTools.hpp:357 | when the string holds at most one kind of quote, the chosen quote is the other kind |
| Quoting.AddedQuotes | external/CLI11/include/CLI/StringTools.hpp:355-364 | the result is never empty |
| Quoting.AddedQuotesChanges | external/CLI11/include/CLI/StringTools.hpp:356-361 | the string changes exactly when it holds a space and is not already quoted, and then it is wrapped in one quote character on each side |
| Quoting.AddedQuotesIdempotent | external/CLI11/include/CLI/StringTools.hpp:355-364 | quoting a string twice is quoting it once |
| SplitUp.ClosingQuote | external/CLI11/include/CLI/StringTools.hpp:289-293 | a closing quote it reports is a copy of the quote at or after `from` that does not follow a backslash |
| SplitUp.ClosingQuoteIsFirst | external/CLI11/include/CLI/StringTools.hpp:289-293 | every copy of the quote that it passes over follows a backslash, so the one it reports is the first unescaped copy, and None means there is none |
| SplitUp.ClosingQuoteHere | external/CLI11/include/CLI/StringTools.hpp:290 | a copy of the quote that does not follow a backslash closes the token |
| SplitUp.SkipToCandidate | external/CLI11/include/CLI/StringTools.hpp:289-292 | the search may jump straight to the next copy of the quote that `find_first_of` reports |
| SplitUp.SkipEscapedQuote | external/CLI11/include/CLI/StringTools.hpp:290-291 | a copy after a backslash is skipped, and the search goes on at the next copy |
| SplitUp.SeekClosingQuote | external/CLI11/include/CLI/StringTools.hpp:289-293 | the search loop ends at the closing quote, and when it never skipped a copy, that is the first copy of the quote after the opening one |
| SplitUp.ClosingQuoteSkips | external/CLI11/include/CLI/StringTools.hpp:290-291 | skipping escaped quotes does not change which quote closes the token |
| SplitUp.NextToken | external/CLI11/include/CLI/StringTools.hpp:287-316 | cutting a token that starts with a non-space shortens the string |
| SplitUp.NoQuoteNoEscape | external/CLI11/include/CLI/StringTools.hpp:313-314 | the unescaping replacement does nothing to a token without the quote, which is why applying it only after escaped quotes were seen is the same as always applying it |
| SplitUp.CutUnquoted | external/CLI11/include/CLI/StringTools.hpp:302-310 | an unquoted token runs up to the first white space, and the rest starts there |
| SplitUp.CutQuoted | external/CLI11/include/CLI/StringTools.hpp:287-300 | a quoted token is the text up to the closing quote with `\q` turned into `q`, and the rest follows the quote. Without a closing quote the token is everything after the opening quote |
| SplitUp.SplitUp | external/CLI11/include/CLI/StringTools.hpp:277-320 | the tokens of the trimmed command line, cut one after another |
| SplitUp.Tokens | external/CLI11/include/CLI/StringTools.hpp:286-318 | the cutting loop yields no token exactly when the string is empty |
| SplitUp.TokensBound | external/CLI11/include/CLI/StringTools.hpp:286-318 | a string that starts with a non-space yields at most one token per character |
| SplitUp.TokensOf | external/CLI11/include/CLI/StringTools.hpp:277-320 | a command line has no tokens exactly when it is blank |
| SplitUp.TokensStep | external/CLI11/include/CLI/StringTools.hpp:305-317 | one cut followed by `trim` keeps the final token list |
| SplitUp.BlankHasNoTokens | external/CLI11/include/CLI/StringTools.hpp:281-286 | a blank line has no tokens |
| SplitUp.UnquotedToken | external/CLI11/include/CLI/StringTools.hpp:302-310 | an unquoted token is non-empty, it and its rest rebuild the string, the token holds no white space, and the rest is empty or starts with white space |
| SplitUp.QuotedToken | external/CLI11/include/CLI/StringTools.hpp:289-296 | with a closing quote at `end`, the token is the unescaped text between the quotes and the rest starts after `end` |
| SplitUp.UnterminatedQuote | external/CLI11/include/CLI/StringTools.hpp:297-299 | without a closing quote, the token is the unescaped rest of the string and nothing is left |
| SplitUp.PlainQuotedToken | external/CLI11/include/CLI/StringTools.hpp:294-296 | `q body q tail` cuts into `body` and `tail` |
| SplitUp.QuotedThen | external/CLI11/include/CLI/StringTools.hpp:281-317 | leading white space, then a quoted token, gives that token followed by the tokens of the tail |
| SplitUp.TwoQuotedTokens | external/CLI11/include/CLI/StringTools.hpp:275-276 | `"one two" "three"`-shaped input splits into the two quoted texts |
| SplitUp.LastQuotedToken | external/CLI11/include/CLI/StringTools.hpp:275-276 | a blank followed by a quoted text at the end splits into that text alone |
| SplitUp.UnescapeOne | external/CLI11/include/CLI/StringTools.hpp:314 | one escaped quote is turned into the bare quote |
| SplitUp.EscapedQuoteCut | external/CLI11/include/CLI/StringTools.hpp:289-296 | an escaped quote does not end the token and comes out unescaped |
| SplitUp.EscapedQuoteToken | external/CLI11/include/CLI/StringTools.hpp:277-320 | `q a \q b q` splits into the single token `a q b` |
| Directives.StepsAppend | main.cpp:84-113 | running the loop over `a + b` is running it over `a` and then over `b` |
| Directives.Steps | main.cpp:84-113 | the loop body run on each character of a text in turn; `StepsAppend`, `StepsKeepInv`, `StepsOnlyPush` and `StepsBound` state its properties |
| Directives.Run | main.cpp:84-113 | the loop state after a whole document, `Steps` from the initial state; `RunInv`, `RunKeepsOrder` and `RunSnoc` state its properties |
| Directives.Step | main.cpp:85-112 | one character either leaves the segments alone or pushes the buffer without its last character as one new segment and empties the buffer |
| Directives.StepsBound | main.cpp:84-113 | each character adds at most one to the segment count plus the buffer length |
| Directives.Segments | main.cpp:84-117 | a document yields at most as many segments as it has characters |
| Directives.Parse | main.cpp:77-118 | the segments are `Segments(doc)`, the folded loop body plus the final flush of a non-empty buffer |
| Directives.StepKeepsInv | main.cpp:85-112 | one character keeps the depth non-negative, keeps an even segment count exactly at depth 0, and keeps quotes only inside directives |
| Directives.StepsKeepInv | main.cpp:84-113 | the same over any text |
| Directives.RunInv | main.cpp:77-113 | the invariant holds after every prefix of a document |
| Directives.StepPushesAlternately | main.cpp:93-108 | a character pushes at most one segment, and a push switches between literal text and a directive, so literal and directive segments alternate |
| Directives.FlushedSegmentKind | main.cpp:114-116 | the flushed buffer is a directive body exactly when the document ends inside a directive |
| Directives.StepsOnlyPush | main.cpp:84-113 | pushed segments are never taken back |
| Directives.SegmentsOnlyGrow | main.cpp:84-113 | the segments pushed for a prefix stay at the front of those for the whole document |
| Directives.RunWithoutOpener | main.cpp:103-112 | text without `@{` only accumulates in the buffer |
| Directives.PlainText | main.cpp:77-118 | a document without `@{` is a single literal segment, or none when it is empty |
| Directives.EmptyDocument | main.cpp:114-117 | the empty document has no segments |
| Directives.FirstSegmentIsLiteral | main.cpp:104-108 | the first segment is the text before the first `@{`, without the `@` |
| Directives.StepKeepsOrder | main.cpp:94-111 | the pushed segments plus the buffer stay a subsequence of the text read so far |
| Directives.RunKeepsOrder | main.cpp:84-113 | the same after every prefix |
| Directives.SegmentsAreSubsequence | main.cpp:77-118 | the segments, read in order, are a subsequence of the document, so the split never adds or reorders text |
| Directives.DirectiveEndsAtDepthZero | main.cpp:89-97 | inside a directive, a segment is pushed exactly when the depth returns to 0 |
| Directives.DirectiveDepth | main.cpp:88-99 | `{` raises the depth, `}` lowers it, `@}` closes the directive from any depth, and other characters leave it alone; `'` and `"` open a quoted region and no other character does, the backtick included |
| Directives.QuotedRegion | main.cpp:85-87 | inside quotes, every character is kept, braces do nothing, and only the same quote, not after a backslash, ends the region |
| Directives.LiteralQuotes | main.cpp:103-112 | quotes in literal text never open a quoted region |
| Directives.LiteralStep | main.cpp:103-112 | in literal text, a segment is pushed exactly at the `{` of `@{`: the buffer without its `@` is pushed, the buffer is emptied and the depth becomes 1. Any other character is appended and becomes the last character |
| Directives.StepsPlainBody | main.cpp:98-112 | a directive body without braces or quotes is collected as it is |
| Directives.StepsLiteralText | main.cpp:103-112 | literal text without `@{` is collected as it is |
| Directives.RunOpened | main.cpp:103-108 | after literal text without `@{` and the opener `@{`, the directive is open at depth 1 and the literal text is pushed without the `@` |
| Directives.RunClosed | main.cpp:88-101 | a plain directive body closed by `}` is pushed without its last character, and the depth returns to 0 |
| Directives.DirectiveBody | main.cpp:77-118 | `pre@{body}post` splits into `pre`, the body without its last character, and `post` when it is not empty |
| Directives.ClosingDropsLastCharacter | main.cpp:93-94 | `a@{bc}d` gives `a`, `b`, `d`, and `a@{b}c` gives `a`, "", `c` |
| Directives.CloseKeepsLastChar | main.cpp:90-96 | after `@}`, a `{` opens a new directive, pushing an empty literal segment |
| Directives.RunSnoc | main.cpp:84-113 | one more character is one more loop iteration |
| Directives.RunOpener | main.cpp:103-108 | after `@{` alone, the directive is open and an empty literal segment is pushed |
| Directives.QuoteOpened | main.cpp:85-101 | in `@{x="`, the `"` opens a quoted region inside the directive, after `@{x=` has been read as in `AssignmentOpened` |
| Directives.AssignmentOpened | main.cpp:85-112 | in `@{x=`, the directive is open at depth 1 with the buffer `x=` and one empty literal segment pushed |
| Directives.QuotedBraceExample | main.cpp:85-101 | in `@{x="}"}` the quoted `}` does not close the directive, whose segment is `x="}` |
| Directives.UnterminatedExample | main.cpp:114-116 | an unterminated directive `@{abc` is flushed as the segment `abc` |

## Left out

- The rest of `main.cpp` is not part of this model. It is I/O and foreign code:
  - `resolvePath` (main.cpp:39-56) calls `realpath`;
  - `print_entity` (main.cpp:145-203) prints a cppast entity;
  - `CppParser` (main.cpp:205-278) walks a C++ syntax tree through cppast;
  - `main` (main.cpp:280-309) reads the template file named by `argv[1]`, prints the even segments and runs the odd ones as Lua.
- The `Var`, `Method` and `Class` records (main.cpp:120-141) are not part of this model. They are declared, but nothing fills them: `CppParser`'s `classes`, `ns` and `className` (main.cpp:208-210) are never written.
- The enumeration stream operators `operator<<` and `operator>>` (StringTools.hpp:22-35) are not part of this model. They only convert an enumeration to and from its underlying integer through a stream, and none of the modelled operations uses them.
- `as_string` and `format_help` (StringTools.hpp:61-70, 161-171) are not part of this model. They are stream formatting, which none of the modelled operations uses.
- The locale: `isspace`, `isalnum` and `tolower` are those of the classic "C" locale over ASCII. Other locales and multi-byte text are not modelled.
- Integer widths: `curly` in `parse` is unbounded, so an `int` overflow past 2^31 nesting levels is not modelled. Unsigned `size_t` arithmetic is modelled only where it wraps in reachable code: `length() - 1` on an empty buffer in `parse` (`StdString.DropLast`), and `offset - 1` at offset 0 in `escape_detect` (`Quoting.ArgStart`).
- Default arguments: the default `","` delimiter of `join` and `rjoin`, and the default `false` flags of `find_member`, are ordinary parameters.
- `join` and `rjoin` work on any container that a stream can print. The model takes a sequence of strings, with a mapping function for the callable form.
- StringRef.FindAndModifyEscapes: `find_and_modify` takes any callable. The model fixes the callable to `escape_detect`, the only one used with it in this code.
- StringRef.FindAndModifyEscapes: requires a non-empty trigger. With an empty trigger, `find` matches at the end of the string, and `escape_detect` would index past the end.
- StringRef.MutableString.AddQuotesIfNeeded: requires a non-empty string, because `front()` and `back()` of an empty string are undefined.
- Quoting.AddedQuotes: requires a non-empty string, for the same reason.
- StringRef.MutableString.EscapeDetect: requires `offset` to be an index of the string. `str[offset + 1]` at `offset == size() - 1` reads the terminating `'\0'`, which `Quoting.NextChar` models.
- Replace.FindAndReplace: requires a non-empty `from`. With an empty `from`, `find` matches at the search position itself. The advance by `to.length()` then lands on the same original character, just after the inserted copy of `to`, so the loop inserts there again and never ends.
- FixNewlines.FixNewlines: requires a non-empty leader that does not end in a newline. Otherwise the next search finds the newline just handled or the one just inserted, and the loop does not end.
- Names.FindMember: `find_member` takes its arguments by value and folds a copy. The model has no aliasing to lose there.
- `std::string&` results: the trim family, `add_quotes_if_needed` and `escape_detect` return the reference they were given. The methods of `StringRef.MutableString` update the field in place and do not return it again.
