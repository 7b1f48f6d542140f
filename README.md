# Moses tokenizer, modelled in Dafny

This project models the core of a C++ port of the Moses tokenizer, the
`tokenizer.perl` script of the Moses machine translation toolkit. The
tokenizer takes one line of text and returns it with tokens separated by single
blanks. Punctuation is split off, dashes are split in aggressive mode, runs of
dots are kept together, commas are split except inside numbers, and
apostrophes are split by language-specific rules. A word's final period is
split off unless a per-language list of non-breaking prefixes (such as "Mr"
or "No") says the period belongs to the word. Finally the XML-special
characters are escaped, unless the `no_escape` option is set.

The model has one module per part of the program:

- `CharClasses` (classes.dfy): the Unicode character classes the regular
  expressions use. They form a record of predicates passed in as a parameter
  (`Classes`), because Unicode property data is not part of this model. It also
  holds `boost::algorithm::trim`.
- `Patterns` (patterns.dfy): each regular expression of the pipeline as a
  `Pattern` value. `MatchStart` says where and how a pattern matches. `Search` is
  `u32regex_search` and `Replace` is `u32regex_replace` with the default flags:
  it scans left to right, rewrites each leftmost match and resumes after it.
  The lemmas give general facts about `Replace`: locality, what it keeps, what
  it drops, and when it does nothing.
- `Regex` (regex.dfy): the combinators of src/regex.hh (`ChainOp`, `LoopOp`,
  `Noop`, `ReplaceOp`, `SearchOp`) as an `Op` datatype.
  - `Eval` is their meaning. It carries a fuel bound because `LoopOp` may loop.
  - `Buffers` is the pair of strings `text`/`out` that every operator works on
    in place, swapping them between steps. Each `Buffers` method runs an
    operator as the C++ does and is proved to leave `Eval`'s result in `out`.
- `Stages` (stages.dfy): the constant stages at the top of src/tokenizer.cc.
  For most stages a lemma says what the stage computes as an independent
  definition. For all of them a lemma says which characters it keeps.
- `Commas` (commas.dfy) and `Apostrophes` (apostrophes.dfy): what the comma
  stage and the apostrophe stages compute, rule by rule. Each rule is a
  left-to-right scan whose state is whether the previous character can still
  take part in a match. The lemmas then place the rules' examples ("5,300",
  "don't", "1990's", "l'homme") anywhere in a line.
- `Multidot` (multidot.dfy): the `ReplaceMultidot`/`RestoreMultidot` loops. It
  proves that they stop, what they compute, and that restoring after
  protecting gives back the line up to blanks.
- `Options` (options.dfy): the `Options` enum, with `operator|` and
  `operator|=` on a 32-bit word.
- `Prefixes` (prefixes.dfy): `NonbreakingPrefixSet`, which covers:
  - parsing a prefix list line by line (comments, blank lines, and
    `#NUMERIC_ONLY#` markers);
  - the two membership tests;
  - `get` with its fallback to English.
- `Periods` (periods.dfy): the helpers, `SplitIterator` (a class over a string
  and an offset), and `HandleNonbreakingPrefixes`. That method is proved
  against `Handled`, a function over the blank-separated words of the line.
- `MosesTokenizer` (tokenizer.dfy): the `Tokenizer` class.
  - Its constructor picks the padding and apostrophe stages by language code.
  - `Tokenize`, which is `operator()`, runs the stages on a `Buffers` pair as
    the source does. It is proved equal to `Tokenized`, the composition of the
    stage functions.
  - The lemmas relate the options to the output.

One behaviour is modelled as written. The second comma rule
(src/tokenizer.cc:49) replaces the comma and the following non-number with
`", $1"`, so a comma that follows a number and comes before a letter stays
attached to the number: "5,a" becomes "5, a" (`Stages.CommaAfterNumber`).

## Model

| member | source | states |
|---|---|---|
| CharClasses.TrimLeft | src/tokenizer.cc:229 | the result is a suffix of the input, every dropped character is trim white space, and the result does not start with one |
| CharClasses.TrimRight | src/tokenizer.cc:259 | the result is a prefix of the input, every dropped character is trim white space, and the result does not end with one |
| Patterns.MatchStart | src/tokenizer.cc:19-113 | a match at the start of a non-empty buffer consumes at least one and at most all of its characters |
| Patterns.ReplaceAppend | src/regex.cc:52-58 | replacing is local: when no match attempt in `a` looks past its end, `a + b` is rewritten as `a` and `b` separately |
| Patterns.ReplaceCharLocal | src/regex.cc:52-58 | a one-character pattern rewrites the buffer character by character, as a flat map of that character's image |
| Patterns.ReplaceKeeps | src/regex.cc:52-58 | when every replacement keeps the selected characters of what it replaces, the whole buffer keeps them, in order |
| Patterns.ReplaceWithoutMatch | src/regex.cc:52-58 | a buffer in which the pattern matches nowhere comes out unchanged |
| Patterns.GrowingLiteral | src/tokenizer.cc:95 | a literal rewritten to something longer never shortens the buffer, and lengthens it exactly when the literal occurs |
| Patterns.ShrinkingLiteral | src/tokenizer.cc:107-108 | a literal rewritten to something shorter never lengthens the buffer, and shortens it exactly when the literal occurs |
| Patterns.ReplaceDrops | src/tokenizer.cc:95-99 | a rewrite whose every match drops a character `c` never adds a `c`, and removes one whenever it matches |
| Regex.EvalMoreFuel | src/regex.hh:78-87 | a pipeline that finishes within some number of loop passes gives the same result with any larger bound |
| Regex.EvalChainAppend | src/regex.hh:46-61 | chaining composes: running `xs + ys` is running `xs` and then `ys` on its result, failing when either fails |
| Regex.NestedChain | src/regex.hh:104-107 | a chain nested as the first member of another chain behaves as if its members were spliced in |
| Regex.LoopFreeFinishes | src/regex.hh:39-61 | every operator built without `LoopOp` gives a result |
| Regex.Buffers.Swap | src/regex.hh:90-94 | `Noop`/`std::swap`: the two buffers trade contents |
| Regex.Buffers.RunReplace | src/regex.cc:52-58 | `out` receives the rewritten `text` and `text` is unchanged |
| Regex.Buffers.Run | src/regex.hh:39-94 | running any operator in place leaves in `out` the result `Eval` gives for the old `text`; `Noop` leaves the old `out` in `text` |
| Regex.Buffers.RunChain | src/regex.hh:39-61 | running a chain step by step with a swap after each member leaves the chain's result in `out` |
| Regex.Buffers.RunLoop | src/regex.hh:78-87 | `initial`, swap, the loop, then `finalize` leaves the loop operator's result in `out` |
| Regex.Buffers.RunWhile | src/regex.hh:82-85 | the `while` loop leaves in `text` the result of repeating the body while the condition holds |
| Stages.DeduplicateSpaceSqueezes | src/tokenizer.cc:19 | `DeduplicateSpace` equals the independent scan `Squeezed`: exactly one blank stands where each maximal white-space run was, and every other character is copied in place |
| Stages.DeduplicateSpaceCollapses | src/tokenizer.cc:19 | after `DeduplicateSpace` no two white-space characters are adjacent, every white-space character is a blank, and the line starts with white space exactly when it did before |
| Stages.DeduplicateSpaceKeepsWords | src/tokenizer.cc:19 | every character that is not white space is kept, in order |
| Stages.DeduplicateSpaceFixes | src/tokenizer.cc:19 | a collapsed buffer is left unchanged |
| Stages.DeduplicateSpaceIdempotent | src/tokenizer.cc:19 | de-duplicating twice gives the same as de-duplicating once |
| Stages.RemoveAsciiJunkFilters | src/tokenizer.cc:21 | `RemoveASCIIJunk` deletes exactly the code points 0-31 and keeps everything else in order |
| Stages.PadOtherPerChar | src/tokenizer.cc:23 | the padding rule surrounds each selected character with blanks and copies every other one |
| Stages.PadUnlessLowerMeaning | src/tokenizer.cc:30 | the look-ahead rule pads each mark that is not followed by a lower-case letter, including one at the end of the line |
| Stages.PadVariantMeaning | src/tokenizer.cc:25-38 | the Finnish/Swedish and Catalan paddings are the default padding that spares the mark, followed by the look-ahead rule |
| Stages.HyphenSplitMeaning | src/tokenizer.cc:40 | aggressive splitting turns each '-' that has an alphanumeric on both sides into " @-@ ", including in runs like "a-b-c" |
| Stages.PadOnlyInsertsBlanks | src/tokenizer.cc:23 | default padding only inserts blanks |
| Stages.FiSvPadOnlyInsertsBlanks | src/tokenizer.cc:25-31 | Finnish/Swedish padding only inserts blanks |
| Stages.CaPadOnlyInsertsBlanks | src/tokenizer.cc:33-38 | Catalan padding only inserts blanks |
| Stages.CommaOnlyInsertsBlanks | src/tokenizer.cc:42-52 | separating commas only inserts blanks |
| Stages.EnApostropheOnlyInsertsBlanks | src/tokenizer.cc:54-62 | the English apostrophe rules only insert blanks |
| Stages.FrItGaCaApostropheOnlyInsertsBlanks | src/tokenizer.cc:64-70 | the French/Italian/Irish/Catalan rules only insert blanks |
| Stages.SoApostropheOnlyInsertsBlanks | src/tokenizer.cc:72-77 | the Somali rules only insert blanks |
| Stages.OtherApostropheOnlyInsertsBlanks | src/tokenizer.cc:79 | the rule for other languages only inserts blanks |
| Stages.CommaAfterNumber | src/tokenizer.cc:42-52 | "5,a" becomes "5, a": the comma stays attached to the number |
| Stages.SoApostrophesInWordsKept | src/tokenizer.cc:72-77 | Somali leaves a line whose every apostrophe sits between two letters unchanged, also when apostrophes share a letter ("a'b'c") |
| Commas.PadAfterNonNumberMeaning | src/tokenizer.cc:48 | on any line, the first rule puts a blank on each side of exactly those commas whose previous character is not a number and was not consumed by the previous match |
| Commas.SpaceAfterCommaMeaning | src/tokenizer.cc:49 | on any line, the second rule puts a blank before exactly those non-numbers that follow a comma not consumed by the previous match |
| Commas.SplitFinalCommaMeaning | src/tokenizer.cc:51 | on any line, the third rule rewrites only a final comma after a number, to " , " |
| Commas.CommaStageMeaning | src/tokenizer.cc:42-52 | the comma stage is the three character-wise rewrites above, one after the other |
| Commas.CommaInNumberKept | src/tokenizer.cc:42-52 | a comma between two numbers ("5,300") is kept wherever it is in the line, and the text on each side of it is rewritten as if on its own |
| Apostrophes.RuleMeaning | src/tokenizer.cc:56-76 | on any line, an `(A)[']( B)` rule rewrites exactly the apostrophes between an `A` not consumed by the previous match and a `B`, gluing the apostrophe as the rule says |
| Apostrophes.EnMeaning | src/tokenizer.cc:54-62 | the English stage is its five apostrophe rules, each as `RuleMeaning` states it, in the source's order |
| Apostrophes.FrItGaCaMeaning | src/tokenizer.cc:64-70 | the French/Italian/Irish/Catalan stage is its four apostrophe rules in the source's order |
| Apostrophes.SoMeaning | src/tokenizer.cc:72-77 | the Somali stage is its three apostrophe rules in the source's order |
| Apostrophes.NonSpecificMeaning | src/tokenizer.cc:79 | every other language gets each apostrophe replaced by " ' " and every other character copied |
| Apostrophes.SplitAllAppend | src/tokenizer.cc:54-77 | a chain of apostrophe rules rewrites the two sides of a cut separately when neither side of the cut is an apostrophe |
| Apostrophes.EnAround | src/tokenizer.cc:54-62 | the English stage rewrites a part with no apostrophe at either cut on its own |
| Apostrophes.FrItGaCaAround | src/tokenizer.cc:64-70 | the French/Italian/Irish/Catalan stage rewrites a part with no apostrophe at either cut on its own |
| Apostrophes.SoAround | src/tokenizer.cc:72-77 | the Somali stage rewrites a part with no apostrophe at either cut on its own |
| Apostrophes.EnAttachesRightInContext | src/tokenizer.cc:59 | in English, an apostrophe between two letters goes with the right-hand part wherever it is in the line: "don't" becomes "don 't" |
| Apostrophes.EnSplitsNumberSInContext | src/tokenizer.cc:60-61 | in English, "'s" after a number is split off wherever it is in the line: "1990's" becomes "1990 's" |
| Apostrophes.FrItGaCaAttachesLeftInContext | src/tokenizer.cc:69 | in French/Italian/Irish/Catalan, an apostrophe between two letters goes with the left-hand part wherever it is in the line: "l'homme" becomes "l' homme" |
| Apostrophes.SoKeepsWordApostrophe | src/tokenizer.cc:72-77 | in Somali, an apostrophe between two letters stays as it is wherever it is in the line |
| Stages.EscapeMeaning | src/tokenizer.cc:83-92 | the eight escapes together replace each special character by its entity and copy every other character; no rewrite re-escapes another's output |
| Stages.EscapedHasNoSpecial | src/tokenizer.cc:83-92 | an escaped line contains no special character |
| Stages.UnescapeEscape | src/tokenizer.cc:83-92 | reading the entities back gives the line before escaping |
| Stages.TrailingDotApostropheMeaning | src/tokenizer.cc:81 | the rule rewrites only a final ".'" (with at most one blank after it) into " . ' " |
| Multidot.DotRunPass | src/tokenizer.cc:95 | the first step marks each run of two or more dots as " DOTMULTI" followed by the rest of the run |
| Multidot.ProtectLoop | src/tokenizer.cc:96-100 | from any pass on, the protecting loop ends with every marker complete, given as many passes as the line is long |
| Multidot.ProtectMeaning | src/tokenizer.cc:94-102 | on a line without the marker word, `ReplaceMultidot` gives the protected layout: each run of m+1 dots becomes m "DOT"s followed by "DOTMULTI", with a blank before it and, unless the run ends the line, one after it |
| Multidot.RestoreLoop | src/tokenizer.cc:106-107 | from any pass on, the restoring loop turns every "DOTDOTMULTI" back into "DOTMULTI." |
| Multidot.RestoreMeaning | src/tokenizer.cc:104-109 | `RestoreMultidot` after `ReplaceMultidot` turns every marker back into its run of dots, with the blanks protecting added |
| Multidot.RestoredKeepsText | src/tokenizer.cc:94-109 | the restored layout differs from the line only in blanks |
| Multidot.MultidotRoundTrip | src/tokenizer.cc:94-109 | both loops finish, and restoring after protecting gives the line back up to blanks |
| Multidot.DotRunDrops | src/tokenizer.cc:95 | the first step removes one dot from each run it marks |
| Multidot.ProtectBodyDrops | src/tokenizer.cc:97-100 | each pass of the protecting loop's body removes at least one dot |
| Multidot.ProtectStops | src/tokenizer.cc:96-100 | the protecting loop stops within as many passes as the text has dots |
| Multidot.RestoreStops | src/tokenizer.cc:106-107 | the restoring loop stops within as many passes as the text is long |
| Multidot.ReplaceMultidotStops | src/tokenizer.cc:94-102 | `ReplaceMultidot` stops on every line, whether or not it holds the marker word |
| Multidot.RestoreMultidotStops | src/tokenizer.cc:104-109 | `RestoreMultidot` stops on every line |
| Options.Or | src/tokenizer.hh:30-32 | `operator|` gives a 32-bit word whose bit i is set exactly when it is set in either operand |
| Options.OrBit | src/tokenizer.hh:30-32 | a bit of the bitwise OR of two naturals is set exactly when it is set in either of them |
| Options.AndBit | src/tokenizer.cc:236 | a bit of the bitwise AND is set exactly when it is set in both operands |
| Options.OrBelow | src/tokenizer.hh:30-32 | the OR of two n-bit numbers is an n-bit number, so `operator|` stays within `unsigned int` |
| Options.HasAggressive | src/tokenizer.cc:236 | `options_ & aggressive` is non-zero exactly when bit 0 is set |
| Options.HasNoEscape | src/tokenizer.cc:273 | `options_ & no_escape` is non-zero exactly when bit 1 is set |
| Options.FlagsAreDistinctBits | src/tokenizer.hh:13-16 | `aggressive` is bit 0 alone and `no_escape` is bit 1 alone |
| Options.DefaultHasNoFlag | src/tokenizer.hh:18 | the default options turn neither stage switch on |
| Options.OrHas | src/tokenizer.hh:30-32 | a combination of options has a flag exactly when one of its parts has it |
| Options.OptionsVar.OrAssign | src/tokenizer.hh:34-36 | `x \|= y` stores `x \| y` in `x` and returns the new value |
| Prefixes.LineEnd | src/nonbreaking_prefix_set.cc:17 | `getline` stops at the first '\n', or at the end of the data |
| Prefixes.LinesHaveNoNewline | src/nonbreaking_prefix_set.cc:17 | no line read holds a '\n' |
| Prefixes.LinesRoundTrip | src/nonbreaking_prefix_set.cc:17 | joining the lines with '\n' gives the data back, with a final '\n' added when it had none |
| Prefixes.Greedy | src/nonbreaking_prefix_set.cc:8 | the greedy `(.+)` picks the longest group that leaves only white space before the marker |
| Prefixes.MarkerUnique | src/nonbreaking_prefix_set.cc:8 | every match of the numeric-only pattern places the marker at the same position |
| Prefixes.NumericGroupMatches | src/nonbreaking_prefix_set.cc:21-22 | the extracted group is a prefix of the line and is group 1 of a match |
| Prefixes.NumericGroupLongest | src/nonbreaking_prefix_set.cc:8 | a line matches the numeric-only pattern exactly when a group is extracted, and no match has a longer group 1 |
| Prefixes.GroupKeepsSpaces | src/nonbreaking_prefix_set.cc:8 | group 1 keeps every white-space character before the marker except the last one |
| Prefixes.ParseText | src/nonbreaking_prefix_set.cc:17-24 | a word is a plain prefix exactly when it is a line of the list that is neither skipped nor numeric-only |
| Prefixes.ParseNumeric | src/nonbreaking_prefix_set.cc:17-24 | a word is a numeric-only prefix exactly when some line of the list marks it so |
| Prefixes.SameLinesSameSets | src/nonbreaking_prefix_set.cc:12-26 | the sets depend only on which lines occur, not on their order or repeats |
| Prefixes.IndentedHashIsText | src/nonbreaking_prefix_set.cc:10 | a '#' after leading blanks does not make the line a comment |
| Prefixes.NumericLineExample | src/nonbreaking_prefix_set.cc:21-22 | "No #NUMERIC_ONLY#" puts "No" in the numeric-only set |
| Prefixes.NonbreakingPrefixSet.constructor | src/nonbreaking_prefix_set.cc:12-26 | the loop reads every line of the data and leaves the two sets `Parse` gives for those lines |
| Prefixes.NonbreakingPrefixSet.IsNonbreakingPrefix | src/nonbreaking_prefix_set.cc:191-193 | true exactly for a line of the list that is neither skipped nor numeric-only |
| Prefixes.NonbreakingPrefixSet.IsNumericNonbreakingPrefix | src/nonbreaking_prefix_set.cc:195-197 | true exactly for a word that some line of the list marks numeric-only |
| Prefixes.ReadOneLine | src/nonbreaking_prefix_set.cc:17-25 | one pass of the loop moves one line from the data to the lines done, and inserts it into the sets |
| Prefixes.Get | src/nonbreaking_prefix_set.cc:199-205 | the set registered for the language, or the English set when the language has none |
| Periods.TokenEndsWithPeriod | src/tokenizer.cc:127-136 | true exactly when the word ends in '.' after a character that is not a blank or a tab. In that case `prefix` becomes the word without the '.'; otherwise `prefix` is unchanged |
| Periods.Find | src/tokenizer.cc:143 | `find` returns `npos` or a position at or after the start that holds the character |
| Periods.FindFirst | src/tokenizer.cc:143 | there is no occurrence between the start and the result of `find` |
| Periods.WordsCount | src/tokenizer.cc:138-186 | splitting at blanks gives one word more than there are blanks, and no word holds a blank |
| Periods.JoinWords | src/tokenizer.cc:138-186 | joining the words with blanks gives the text back |
| Periods.NextStart | src/tokenizer.cc:164-168 | restarting after the blank that ends the current word drops exactly that word |
| Periods.KeptWhole | src/tokenizer.cc:288-303 | a word with a final period that is not the last word keeps its period exactly in the four cases the source checks: the prefix has a dot and a letter, the prefix is a plain prefix, the next word starts lower-case, or the next word starts with a digit and the prefix is numeric-only |
| Periods.LastWordSplit | src/tokenizer.cc:290-291 | the line's last word always loses its period: the output ends with the word without its period, then " . " |
| Periods.PieceKeepsText | src/tokenizer.cc:305-310 | splitting a word only inserts a blank |
| Periods.HandledKeepsText | src/tokenizer.cc:282-313 | the period rule only inserts blanks |
| Periods.SplitIterator.constructor | src/tokenizer.cc:140-145 | an iterator at `offset` visits the blank-separated words of the text from that offset on |
| Periods.SplitIterator.End | src/tokenizer.cc:149-154 | the past-the-end iterator, which has `npos` as its offset and no words left |
| Periods.SplitIterator.Copy | src/tokenizer.cc:147 | the copy has the same text, offset and end and visits the same words |
| Periods.SplitIterator.Current | src/tokenizer.cc:156-158 | `operator*` is the current word: up to the next blank, or to the end of the text for the last word |
| Periods.SplitIterator.HasNext | src/tokenizer.cc:177-179 | another word follows exactly when a blank ends the current one |
| Periods.SplitIterator.Increment | src/tokenizer.cc:164-168 | `operator++` drops the current word; after the last word the offset is `npos` |
| Periods.SplitIterator.Plus | src/tokenizer.cc:170-175 | `operator+` gives a new iterator moved on by `amount` words, stopping past the end |
| Periods.HandleNonbreakingPrefixes | src/tokenizer.cc:282-313 | `out` becomes the specification `Handled` of the line's words: each word, split or not, followed by a blank |
| Periods.HandleWord | src/tokenizer.cc:286-311 | one iteration appends the current word's piece and a blank, and moves the iterator on |
| Periods.Decide | src/tokenizer.cc:288-303 | the chain of tests decides as `SplitsPeriod` does, and a split leaves the word without its period in `prefix` |
| MosesTokenizer.PadOpFor | src/tokenizer.cc:198-203 | fi and sv get the colon variant, ca the middle-dot variant, and every other language the default padding |
| MosesTokenizer.ApostropheOpFor | src/tokenizer.cc:205-212 | en gets the English rules, fr/it/ga/ca the left-attaching rules, so the Somali rules, and every other language the plain split |
| MosesTokenizer.LanguageStagesOnlyInsertBlanks | src/tokenizer.cc:194-213 | whatever the language, its padding and apostrophe stages only insert blanks |
| MosesTokenizer.Protect | src/tokenizer.cc:241-243 | on a line without the marker word, the multi-dot stage gives the protected layout |
| MosesTokenizer.ProtectRestore | src/tokenizer.cc:241-270 | restoring after protecting gives back every non-blank character, in order |
| MosesTokenizer.OnlyFlagBitsMatter | src/tokenizer.cc:236-276 | two option words that agree on bits 0 and 1 tokenize every line alike |
| MosesTokenizer.EscapingIsLast | src/tokenizer.cc:272-276 | switching escaping on only escapes the output that `no_escape` gives; the result has no special character and reads back as that output |
| MosesTokenizer.RunStage | src/tokenizer.cc:231-233 | one stage followed by the swap leaves the stage's result in `tmp` |
| MosesTokenizer.RunProtect | src/tokenizer.cc:241-243 | `ReplaceMultidot` followed by the swap leaves the protected line in `tmp` |
| MosesTokenizer.RunRestore | src/tokenizer.cc:268-270 | `RestoreMultidot` followed by the swap leaves the restored line in `tmp` |
| MosesTokenizer.Tokenizer.constructor | src/tokenizer.cc:194-213 | keeps the language and options, looks up the prefix set with the English fallback, and picks the two language stages |
| MosesTokenizer.Tokenizer.SeparateStages | src/tokenizer.cc:216-251 | the stages before the period handling, in the source's order, with hyphen splitting only in aggressive mode |
| MosesTokenizer.Tokenizer.FinishStages | src/tokenizer.cc:256-278 | the stages after the period handling, with escaping unless `no_escape` is set |
| MosesTokenizer.Tokenizer.Tokenize | src/tokenizer.cc:215-280 | `operator()` returns `Tokenized` of the line, the composition of the stage functions |

## Left out

- Unicode character data. The classes `[:alpha:]`, `[:alnum:]`, `[:Number:]`, `[:Ll:]`, `[:lower:]` and `\s` are a `Classes` parameter. The `u32regex` conversions between UTF-8 and UTF-32, `StrToUChar`, and the abort on invalid UTF-8 are not part of this model. `std::string` and `string_type` are both `seq<char>`.
- The embedded prefix lists and their `std::unordered_map` are not part of this model. They are a registry parameter that maps language codes to prefix sets and contains "en".
- tokenizer_main.cc (reading stdin and writing stdout) and all I/O are not part of this model.
- The "protected patterns" steps of `operator()` are TODO comments in the source and are not modelled.
- Multidot.MultidotRoundTrip and Multidot.ProtectMeaning: both require a line without the word "DOTMULTI". A line that already holds it is rewritten by the source as well, and the round trip does not hold for it.
- MosesTokenizer.Protect: states the protected layout only for lines without the marker word, as above. On other lines it gives whatever the loop gives, and the loop is proved to stop.
- Regex.Eval: `LoopOp` is bounded by fuel. `Tokenize` gives the multi-dot loops enough passes for any line: the number of dots, or the line length.
- Periods.SplitIterator.constructor: requires `offset <= |text|`. The source is only ever called with offset 0, and `substr` throws past the end.
- Prefixes: `std::regex` ECMAScript matching is modelled for the two patterns used. `.` excludes '\n' and '\r', and `\s` is the classic-locale white space.
- Options: the enum is a natural number below 2^32, the width of `unsigned int`, the type `operator|` converts through.
- Stages.SoApostrophesInWordsKept: only for lines whose every apostrophe sits between two letters. It covers apostrophes that share a letter, which `Apostrophes.SoKeepsWordApostrophe` excludes. `Apostrophes.SoMeaning` states the stage on every line.
- Stages.CommaAfterNumber is a worked example on a three-character line. It requires the natural character classes of its characters.
- Apostrophes.EnAttachesRightInContext: requires that no apostrophe is directly next to the example, and that ' ' is not a number. A match consumes the characters on both sides of an apostrophe, so a neighbouring apostrophe changes the outcome ("a'b'c"). `Apostrophes.EnMeaning` covers those lines.
- Apostrophes.EnSplitsNumberSInContext: the same requirement as the lemma above, for the same reason.
- Apostrophes.FrItGaCaAttachesLeftInContext: requires that no apostrophe is directly next to the example. `Apostrophes.FrItGaCaMeaning` covers the other lines.
- Apostrophes.SoKeepsWordApostrophe: requires that no apostrophe is directly next to the example. `Apostrophes.SoMeaning` and `Stages.SoApostrophesInWordsKept` cover the other lines.
- `$` is modelled as the end of the buffer and `^` (in `StartsLowerCase`) as its start. In Boost's default multi-line reading they also match at line separators. By then `DeduplicateSpace` has turned every `\s` character into a single blank.
  - The two readings agree for \n, \r, \f, U+0085, U+2028 and U+2029, which are `\s`; `CharClasses.AsciiAgrees` includes them.
  - Boost also treats every code point whose low 16 bits are 0x0085, 0x2028 or 0x2029 as a line separator, for example U+10085, U+12028 and U+F2029. Unicode does not class them as `\s`, so `DeduplicateSpace` leaves them in place and `AsciiAgrees` does not list them.
  - On a line holding one of them, the model differs from the source in two places. `StartsLowerCase` (src/tokenizer.cc:113) also matches when such a character is followed by a lower-case letter anywhere in the next word, and Boost then keeps the period that the model splits off ("Xyz. \u{12028}a"). `TrailingDotApostrophe` (src/tokenizer.cc:81) also matches a ".'" just before such a character.
