# SmartCompose text utilities, tokenizers and pipeline helper scripts, in Dafny

This project is a Dafny model of the core of a collection of Azure ML pipeline modules. It covers five Python files:

- **`sc_utils/generic.py`**: the SmartCompose utilities.
  - `char_tokenizer` splits a text into tokens and intertokens by a separator character class, then deletes a second class from every piece.
  - The token predicates `is_punct` and `is_space`.
  - `filter_tokens`, `remove_line_breaks` and `remove_punct`.
  - The reply-header body splitters.
  - The character-prefix trie `build_prefix_dict`.
  - E-mail address pretty printing and concatenation.
  - `histogram_sum` and the evaluation-id parsers.
- **`sc_tokenizer/tokenizer.py`**: the tokenizers.
  - The regex sentence splitter and `multi_replace` with its longest-key-first alternation.
  - The training, inference and spaCy tokenizers, and the choice among them by mode.
  - Sentence-then-word tokenization and `word_count`.
  - The command-line driver: `tokenizer_wrapper`, `run_tokenizer`, which writes one output line per input line, in plain or TSV form, and `run`, which processes a batch of files.
- **`eselect/invoker.py`**: the module invoker.
  - It recognises official modules.
  - It shell-quotes every argument; for a `--key=value` option only the value is quoted.
  - It joins the quoted arguments into one command, runs it and exits with its status.
- **`run_notebook.py`**: notebook preparation.
  - The kernelspec is replaced by the default Python 3 kernel.
  - Every code line that holds a credential or login line is blanked.
  - `Workspace.from_config()` calls are pointed at the notebook folder.
- **`merge_files/merge.py`**: the merge script cuts the input files into groups of `merge_count` and copies each group into one output named by its index.

Pure code is modelled as functions, with lemmas about them. The code that works step by step is modelled as methods with loops, each proved equal to the function that specifies it:

- the `char_tokenizer` scan and its deletion loop;
- the sentence loop;
- the trie loop;
- `histogram_sum`;
- the run loops;
- `replace_workspace`;
- the merge loop.

The state that `run_tokenizer` / `run` and the notebook functions change in place is kept in classes:

- `Driver.TokenizerRun` holds a file system, modelled as a map from path to text.
- `Notebook.NotebookData` holds the notebook's metadata and cells.

Python's exceptions and `exit(1)` are `Result` errors. Python's string built-ins are in the module `PyStr`:

- `strip`;
- `split(sep)` and `split()`;
- `find` and `join`;
- `replace` of one character;
- `os.path.basename`;
- `str(int)`.

`PyStr` also uses the exact set of characters that `str.isspace` accepts.

Files: `wrappers.dfy`, `pystr.dfy`, `char_tokenizer.dfy`, `generic.dfy`, `sentences.dfy`, `replace.dfy`, `tokenizers.dfy`, `driver.dfy`, `invoker.dfy`, `notebook.dfy` and `merge.dfy`. Each declares one module of the same name, written in CamelCase.

## Model

| member | source | states |
|---|---|---|
| PyStr.Strip | sc_utils/generic.py:281 | `strip()` leaves no whitespace at either end, never lengthens the text, and returns a text that has no whitespace at its ends unchanged |
| PyStr.StripSkipWhitespace | sc_utils/generic.py:281 | a leading whitespace character makes no difference to `strip()` |
| PyStr.StripInside | sc_utils/generic.py:281 | `strip()` only removes characters: every character of the result is one of the input's |
| PyStr.Find | sc_utils/generic.py:465 | `find` is -1 exactly when the needle does not occur; otherwise it is an index where it occurs, with no occurrence before it |
| PyStr.SplitJoinsBack | sc_utils/generic.py:292 | joining the pieces of `split(sep)` with `sep` gives the text back |
| PyStr.SplitPiecesClean | sc_utils/generic.py:292 | no piece of a split contains the separator, and the first piece is a prefix of the text |
| PyStr.SplitHead | sc_utils/generic.py:292-294 | the first piece is the text before the first occurrence of the separator, or the whole text when it does not occur |
| PyStr.SplitSecond | sc_utils/generic.py:307-310 | when the separator occurs, the second piece is the first piece of the text after its first occurrence |
| PyStr.SplitSingle | sc_utils/generic.py:309 | a split has exactly one piece if and only if the separator does not occur |
| PyStr.SplitJoin | sc_utils/generic.py:486 | splitting a join on a one-character separator that no piece holds gives the pieces back |
| PyStr.IndexOf | sc_utils/generic.py:465 | the index of a present character is where it first occurs |
| PyStr.FindIsIndexOf | sc_utils/generic.py:465-466 | for a one-character needle `find` succeeds exactly when the character is present, and then equals IndexOf |
| PyStr.SplitFirstChar | sc_utils/generic.py:585 | splitting at a one-character separator: the text before its first occurrence is the first piece, and the rest is split on |
| PyStr.SplitNoChar | sc_utils/generic.py:585 | a text without the separator character splits into itself alone |
| PyStr.WhitespaceSplit | sc_utils/generic.py:343 | every word of `split()` is non-empty and holds no whitespace |
| PyStr.WordThenRest | sc_utils/generic.py:343 | a word followed by nothing or by whitespace is the first word of `split()` |
| PyStr.WhitespaceSplitJoin | sc_utils/generic.py:343 | words joined by single spaces and split again on whitespace come back unchanged |
| PyStr.ConcatWhitespaceSplit | sc_utils/generic.py:52 | `"".join(s.split())` is `s` with every whitespace character removed |
| PyStr.RemoveWhitespaceMembers | sc_utils/generic.py:52 | a character is left after whitespace removal exactly when it is in the text and is not whitespace |
| PyStr.Delete | sc_utils/generic.py:214 | deleting a character class leaves none of its characters and never lengthens the text |
| PyStr.DeleteAppend | sc_utils/generic.py:214 | deletion works piece by piece, so the kept characters keep their order |
| PyStr.DeleteMembers | sc_utils/generic.py:214 | a character survives deletion exactly when it is in the text and not in the class |
| PyStr.DeleteNone | sc_utils/generic.py:214 | a text with none of the class's characters is returned unchanged |
| PyStr.DeleteJoin | sc_tokenizer/tokenizer.py:329 | joining with a one-character separator adds only that character |
| PyStr.FilterMembers | sc_utils/generic.py:275 | `filter` keeps an element exactly when it is in the list and passes the predicate |
| PyStr.FilterAppend | sc_utils/generic.py:275 | filtering a concatenation filters each part, so the kept elements keep their order |
| PyStr.FilterLength | sc_utils/generic.py:277 | filtering never lengthens; it keeps everything exactly when every element passes, and nothing exactly when none passes |
| PyStr.ReplaceChar | sc_tokenizer/tokenizer.py:386 | a text without the replaced character comes back unchanged; when the replacement does not hold that character, none is left |
| PyStr.ReplaceCharLaws | sc_tokenizer/tokenizer.py:386 | `replace` distributes over concatenation, turns the character into the replacement and keeps every other character, which together fix the result |
| PyStr.Basename | sc_tokenizer/tokenizer.py:439 | `basename` is the suffix after the last '/', which holds no '/' |
| PyStr.NatToString | merge_files/merge.py:36 | `str(n)` is a non-empty string of decimal digits with no leading zero whose decimal value is n |
| PyStr.NatToStringInjective | merge_files/merge.py:36 | two numbers have the same `str` exactly when they are equal |
| CharTokenizer.IsPunctCharacters | sc_utils/generic.py:42-57 | `is_punct` holds exactly when every character is whitespace or in `string.punctuation`, so it also holds for the empty text |
| CharTokenizer.SpaceIsPunct | sc_utils/generic.py:59-68 | an all-whitespace token is also punctuation; the empty token is punctuation but not space |
| CharTokenizer.RunEnd | sc_utils/generic.py:162 | the end of a maximal run of class characters (or of non-class characters): within the text, and the next character changes class |
| CharTokenizer.DeleteAll | sc_utils/generic.py:212-216 | the list keeps its length; piece for piece no character of the delete class is left, no piece grows, and a character is in a new piece exactly when it was in the old one and is not in the class |
| CharTokenizer.AlternateRebuilds | sc_utils/generic.py:184-205 | from a token start, the tokens and intertokens are equal in number and interleave to the rest of the text |
| CharTokenizer.AlternateTokens | sc_utils/generic.py:188 | every token is a non-empty run without separator characters |
| CharTokenizer.AlternateIntertokens | sc_utils/generic.py:188-205 | every intertoken is a run of separator characters, and only the last can be empty |
| CharTokenizer.AlternateNoSeparator | sc_utils/generic.py:203-205 | after the last match the leftover is one token with one empty intertoken, or nothing at the end of the text |
| CharTokenizer.AlternateUnique | sc_utils/generic.py:173-205 | any lists that lay out the text piece by piece from a token start are exactly the ones the split returns |
| CharTokenizer.RoundTrip | sc_utils/generic.py:147-218 | with separators and no delete class there is one more intertoken than tokens, and `inter[0]+tok[0]+inter[1]+…` rebuilds the input |
| CharTokenizer.TokenizationIsSplit | sc_utils/generic.py:173-205 | the result obeys every law of a split: it rebuilds the input, tokens are non-empty without separators, inner intertokens are non-empty separator runs |
| CharTokenizer.PieceShapes | sc_utils/generic.py:180-205 | tokens are non-empty and separator-free; inner intertokens are non-empty separator runs; the first and last intertokens are separator runs and may be empty |
| CharTokenizer.EmptyEndIntertokens | sc_utils/generic.py:180-205 | an input that starts with a token has an empty first intertoken; one that ends with a token has an empty last intertoken |
| CharTokenizer.EmptyInput | sc_utils/generic.py:198-200 | the empty input gives no token and one empty intertoken |
| CharTokenizer.NoSeparators | sc_utils/generic.py:207-209 | without separator characters the whole input is the single token and there are no intertokens |
| CharTokenizer.DeleteClass | sc_utils/generic.py:211-216 | the delete class keeps both list lengths and removes its characters from every piece |
| CharTokenizer.CharacterizationUnique | sc_utils/generic.py:173-205 | the split is unique: any two lists that obey its laws are the ones `char_tokenizer` returns |
| CharTokenizer.NextMatch | sc_utils/generic.py:175-178 | the next match of `[sep]+`: None when no separator follows, otherwise a maximal separator run with no separator before it |
| CharTokenizer.SplitOnSeparators | sc_utils/generic.py:173-205 | the scan (the first match, the loop over later matches, the leftover token) yields exactly the specified split |
| CharTokenizer.ScanMatches | sc_utils/generic.py:184-196 | the match loop: each match adds the token before it, except before a match at index 0, and adds itself as an intertoken |
| CharTokenizer.DeleteInPlace | sc_utils/generic.py:212-216 | the in-place deletion loop leaves every piece with the delete class removed |
| CharTokenizer.Tokenize | sc_utils/generic.py:147-218 | `char_tokenizer` as a whole, first the scan and then the deletion, equals the specified tokenization |
| Generic.RemoveLineBreaksLaws | sc_utils/generic.py:246-255 | no '\r' or '\n' survives, every other character does, text without line breaks is unchanged, and removal works piece by piece |
| Generic.KeepMembers | sc_utils/generic.py:274-277 | a token is kept exactly when it is an input token, differs from every literal, and is neither punctuation nor space |
| Generic.KeepAppend | sc_utils/generic.py:274-277 | filtering works piece by piece, so the kept tokens keep their order |
| Generic.FilterTokensStrip | sc_utils/generic.py:280-281 | with `remove_whitespace` the survivors come out stripped, one for one |
| Generic.BoundFilters | sc_utils/generic.py:274-275 | the lazy filters as written all compare against one literal, the last one |
| Generic.FilterTokensAgree | sc_utils/generic.py:274-277 | with at most one literal, the code as written and the corrected filter agree |
| Generic.LetterToken | sc_utils/generic.py:277 | a one-character token that is neither whitespace nor punctuation passes the punctuation/space filter |
| Generic.FilterTokensLateBinding | sc_utils/generic.py:274-277 | as written, filtering ["a", "b"] with the literals ["a", "b"] keeps "a"; the corrected filter keeps nothing |
| Generic.CurrentBodyLaws | sc_utils/generic.py:286-294 | the current body is a prefix of the text that holds neither reply header; it ends at the end of the text or where a header starts, and is the whole text when no header occurs |
| Generic.PriorBodyLaws | sc_utils/generic.py:297-318 | with no header there is no prior body; header 1 wins over header 2; the prior body is the current body of the segment after the first header, or None when that segment is empty |
| Generic.WordsWithContentMembers | sc_utils/generic.py:343 | a word is kept exactly when it is one of the words and not all punctuation |
| Generic.RemovePunctWords | sc_utils/generic.py:334-343 | splitting the result of `remove_punct` on whitespace gives exactly the kept words, in order |
| Generic.AddPrefixIncreasing | sc_utils/generic.py:424-429 | recording an index larger than every index listed under a key keeps every list strictly increasing, and loses no entry |
| Generic.PartialTrieStep | sc_utils/generic.py:424-429 | recording the prefix of length k of word n keeps the partial-trie invariant, one prefix further |
| Generic.TrieSkip | sc_utils/generic.py:422-423 | skipping a special `<…>` word keeps the trie invariant |
| Generic.WordStep | sc_utils/generic.py:421-429 | one word of the outer loop keeps the trie invariant, one word further |
| Generic.PrefixDictIsTrie | sc_utils/generic.py:417-437 | the dictionary built from the first n words maps each prefix of a non-special word to the increasing list of exactly those words' indices that have it |
| Generic.BuildPrefixDict | sc_utils/generic.py:417-429 | the nested loop builds the character-prefix trie of all the words |
| Generic.IntToString | sc_utils/generic.py:472 | `str(i)` starts with '-' exactly when i is negative, and the digits after the sign spell the magnitude of i |
| Generic.NamePartsLaws | sc_utils/generic.py:464-471 | both name parts come out stripped; the last name of "Last, First" holds no ','; the first name of "First Last" holds no ' '; a single word is a first name only |
| Generic.PrettyPrintNameOrders | sc_utils/generic.py:440-472 | "Last, First" and "First Last" print the same "First Last <address>", also when nested under "emailaddress" |
| Generic.PrettyPrintRecord | sc_utils/generic.py:449-472 | a record with a non-empty name prints as "First Last <address>" |
| Generic.PrettyPrintNested | sc_utils/generic.py:446-447 | a record nested under "emailaddress" prints as the record itself |
| Generic.NamePartsCommaOrder | sc_utils/generic.py:464-466 | "Last, First" splits into the first and the last name |
| Generic.NamePartsSpaceOrder | sc_utils/generic.py:467-469 | "First Last" splits into the first and the last name |
| Generic.KeptPieces | sc_utils/generic.py:481-484 | the kept pretty addresses are non-empty and at most as many as the inputs |
| Generic.PrettyResults | sc_utils/generic.py:482 | one pretty-printing result per address |
| Generic.ConcatenateMultipleAddresses | sc_utils/generic.py:475-486 | the loop result is the non-empty pretty addresses joined with ';', or the first pretty-printing error (a missing key, a name that is not text) |
| Generic.KeptPiecesOk | sc_utils/generic.py:481-484 | the loop succeeds exactly when every address pretty-prints without error |
| Generic.KeptPiecesStops | sc_utils/generic.py:481-484 | the first error ends the loop: later addresses change nothing |
| Generic.ConcatenationSplits | sc_utils/generic.py:486 | when no kept piece holds ';', splitting the concatenation at ';' gives the pieces back |
| Generic.HistogramSum | sc_utils/generic.py:555-568 | the accumulator loop computes the sum of key × count over the items |
| Generic.HistogramSumIsExpansionSum | sc_utils/generic.py:558-560 | with non-negative counts, the histogram sum is the sum of the list that spells out each key `count` times |
| Generic.WeightedSumAppend | sc_utils/generic.py:565-567 | the sum over two parts of a histogram is the sum of the parts' sums |
| Generic.ExtractJsonRoundTrip | sc_utils/generic.py:571-614 | an id built as "email-pos" yields the e-mail back, and the position when it is non-empty, else None |
| Generic.ExtractQcsRoundTrip | sc_utils/generic.py:571-614 | an id built as "dummyQuery-email-pos" yields the e-mail and the position in QCS mode |
| Generic.ExtractWithoutDash | sc_utils/generic.py:585-614 | an id without '-' is its own e-mail id and has no position, in either mode |
| Generic.QcsUniqueIdRoundTrip | sc_utils/generic.py:617-625 | the id is the text before the first tab, or the whole line when it has none |
| Sentences.SentenceMatch | sc_tokenizer/tokenizer.py:70-79 | the next match of the sentence pattern ends after where the search resumed, and exists exactly when an ender follows |
| Sentences.SentenceHasEnder | sc_utils/constants.py:181 | every matched sentence contains one of `.?!\r\n` |
| Sentences.MatchIsSentence | sc_tokenizer/tokenizer.py:75-77 | a match is a run of non-enders, then enders, then whitespace, and leaves no whitespace behind it |
| Sentences.NoMatchNoEnder | sc_tokenizer/tokenizer.py:83-84 | when nothing matches, the rest of the text holds no ender |
| Sentences.SentencesFromConcat | sc_tokenizer/tokenizer.py:72-86 | the sentences put together give the text back |
| Sentences.SegmentedPieces | sc_tokenizer/tokenizer.py:72-86 | the pieces are non-empty; all but the last are matched sentences; none after the first starts with whitespace; the last is a sentence or holds no ender |
| Sentences.SentencesSplit | sc_tokenizer/tokenizer.py:50-86 | `sentence_tokenizer` splits losslessly into non-empty pieces, each but the last a matched sentence |
| Sentences.NoEnderOnePiece | sc_tokenizer/tokenizer.py:83-84 | a text without an ender comes back whole, as the one remainder |
| Sentences.SentenceTokenizer | sc_tokenizer/tokenizer.py:50-86 | the match loop and the remainder step yield exactly the specified sentences |
| Replace.Lookup | sc_tokenizer/tokenizer.py:104 | `replacements[key]` has a value exactly when the key is one of the dict's keys |
| Replace.SortByLengthDescLaws | sc_tokenizer/tokenizer.py:215 | `sorted(replacements, key=len, reverse=True)` is a permutation of the keys with the longest first |
| Replace.FirstMatch | sc_tokenizer/tokenizer.py:217 | the alternative the regex takes at a position is a key that occurs there, and no empty match right after an empty match |
| Replace.FirstMatchLongest | sc_tokenizer/tokenizer.py:211-217 | with the keys longest first, the alternative taken is a longest key occurring there, and None means no key occurs |
| Replace.FirstMatchOrderIndependent | sc_tokenizer/tokenizer.py:215 | the order among keys of equal length does not change which alternative is taken |
| Replace.LongestKeyMatched | sc_tokenizer/tokenizer.py:211-217 | where the longest key occurring is k, the sorted pattern matches k |
| Replace.LongestKeyReplaced | sc_tokenizer/tokenizer.py:89-104 | where the longest key occurring is k, the replacement writes `replacements[k]` and carries on after k |
| Replace.ReplaceFromNoKey | sc_tokenizer/tokenizer.py:89-104 | where no key occurs, the rest of the text is kept |
| Replace.NoKeyUnchanged | sc_tokenizer/tokenizer.py:89-104 | input holding none of the keys is returned unchanged |
| Replace.ReplaceFromOk | sc_tokenizer/tokenizer.py:104 | when every alternative is a key, no lookup fails |
| Replace.TrainingReplaceFails | sc_tokenizer/tokenizer.py:215-217 | the replacement fails, with KeyError(''), exactly when the dict is empty |
| Replace.TrainingRuleReplaces | sc_utils/constants.py:174-176 | the default training rules never fail |
| Replace.LongestKeyExample | sc_tokenizer/tokenizer.py:211-213 | {'ab': 'AB', 'abc': 'ABC'} turns 'hey abc' into 'hey ABC' |
| Tokenizers.GetTokenizerInstance | sc_tokenizer/tokenizer.py:121-141 | a tokenizer exists exactly for "train", "inference" and "spacy", each with its default settings |
| Tokenizers.TrainingWords | sc_tokenizer/tokenizer.py:220-231 | the default training tokenizer never fails; its words and intertokens rebuild the replaced text; no word is empty or holds a space |
| Tokenizers.InterleaveFromDelete | sc_utils/generic.py:212-216 | deleting a class from every piece deletes it from the text the pieces rebuild |
| Tokenizers.InferenceWords | sc_tokenizer/tokenizer.py:260-270 | the default inference tokenizer gives one more intertoken than tokens, and its pieces rebuild the input without apostrophes |
| Tokenizers.InferencePieceChars | sc_tokenizer/tokenizer.py:255-270 | no inference token holds a separator or an apostrophe, and no intertoken holds an apostrophe |
| Tokenizers.SpaCyWords | sc_tokenizer/tokenizer.py:297-311 | one token and one trailing-whitespace intertoken per spaCy token |
| Tokenizers.TokenizeIntoSentencesAndWords | sc_tokenizer/tokenizer.py:175-191 | the word tokens of each sentence, in sentence order, or the first failing sentence's error |
| Tokenizers.WordCountLaws | sc_utils/generic.py:346-360 | `word_count` is at most the token count; it equals it exactly when every token is a word, and is 0 exactly when every token is punctuation or space |
| Tokenizers.TokenizerWrapper | sc_tokenizer/tokenizer.py:320-344 | any type other than "word" or "sentence", and any failure, ends in exit(1) |
| Tokenizers.WordLineSplits | sc_tokenizer/tokenizer.py:323-326 | a word line of a space-separating tokenizer splits at spaces back into the token texts |
| Tokenizers.SentenceLineKeepsText | sc_tokenizer/tokenizer.py:328-330 | a sentence line holds the input with newlines added between sentences and nothing else |
| Tokenizers.EscapeNewlines | sc_tokenizer/tokenizer.py:384-386 | no newline is left after escaping, and a text without a newline is unchanged |
| Tokenizers.EscapeNewlinesLaws | sc_tokenizer/tokenizer.py:384-386 | escaping works piece by piece: a newline becomes the two characters `\` and `n`, and every other character is kept, in order |
| Tokenizers.CellsFromLaws | sc_tokenizer/tokenizer.py:379-387 | the cells are each item's cell, in place, or the first failure among them |
| Tokenizers.CellsFromFirstError | sc_tokenizer/tokenizer.py:379-387 | the first failing cell decides the row's error |
| Tokenizers.TsvRowOk | sc_tokenizer/tokenizer.py:389 | a TSV row whose cells all succeed is the cells joined with the delimiter, then a newline |
| Tokenizers.TsvRowErr | sc_tokenizer/tokenizer.py:379-389 | a TSV row fails with the error of its first failing cell |
| Tokenizers.CellLaws | sc_tokenizer/tokenizer.py:380-387 | an ignored column is kept verbatim; any other column is its tokenized text, with newlines escaped in sentence mode |
| Tokenizers.TsvLine | sc_tokenizer/tokenizer.py:376-390 | a TSV line is split on the delimiter after stripping; it fails exactly when some cell fails, and otherwise is the cells joined, then a newline |
| Tokenizers.PlainLine | sc_tokenizer/tokenizer.py:391-392 | a plain line is the tokenized stripped line, then a newline, and fails exactly when the tokenization fails |
| Driver.LinesConcat | sc_tokenizer/tokenizer.py:374 | the lines of a file put together give the file text back |
| Driver.LinesShape | sc_tokenizer/tokenizer.py:374 | every line is non-empty, and every line but the last ends with its only newline |
| Driver.TokenizerRun.TsvItems | sc_tokenizer/tokenizer.py:377-389 | the `output_items` loop builds the specified TSV row |
| Driver.TokenizerRun.LineText | sc_tokenizer/tokenizer.py:376-392 | the output text of one line, in plain or TSV form |
| Driver.TokenizerRun.WriteLines | sc_tokenizer/tokenizer.py:373-392 | the line loop sets the output file to the rows of the lines up to the first failing line, and reports that failure |
| Driver.TokenizerRun.RunTokenizer | sc_tokenizer/tokenizer.py:347-395 | `run_tokenizer` changes the file system and returns exactly as the specification function does |
| Driver.TokenizerRun.Run | sc_tokenizer/tokenizer.py:430-446 | `run` applies `run_tokenizer` to each batch file in order, writing `output/<basename>`, and stops at the first failure |
| Driver.WrittenSnoc | sc_tokenizer/tokenizer.py:374-392 | one more line appends its row, or records its error |
| Driver.WrittenAfterError | sc_tokenizer/tokenizer.py:374-392 | once a prefix of the lines fails, the whole fails with the same output |
| Driver.WrittenStops | sc_tokenizer/tokenizer.py:374-392 | nothing is written after the first failing line |
| Driver.WrittenAllOk | sc_tokenizer/tokenizer.py:374-392 | all lines succeed exactly when each does, and the output is then every line's row, in order |
| Driver.UnknownModeTouchesNothing | sc_tokenizer/tokenizer.py:349-352 | an unknown mode exits with 1 and leaves every file as it was |
| Driver.RunWithOk | sc_tokenizer/tokenizer.py:373-394 | a successful run writes each input line's row, in order, to the output path, reports the line count, and changes no other file; an input that is the output itself reads as empty |
| Driver.RunWithErr | sc_tokenizer/tokenizer.py:373-392 | a failing run keeps the rows of the lines before the failing one and fails with that line's error |
| Driver.BatchStep | sc_tokenizer/tokenizer.py:437-443 | one more file either appends its name to the result or ends the batch with its error |
| Driver.BatchStops | sc_tokenizer/tokenizer.py:437-443 | once a prefix of the batch fails, the whole batch ends as that prefix did |
| Driver.BatchReturnsFiles | sc_tokenizer/tokenizer.py:437-446 | a successful batch returns exactly its file names, in order |
| Driver.RunEffectFrame | sc_tokenizer/tokenizer.py:373 | `run_tokenizer` writes no file but its output path |
| Driver.RunnerWritesOnlyOutput | sc_tokenizer/tokenizer.py:438-442 | each run writes no file but `output/<basename>` of its input |
| Driver.BatchTouchesOnlyOutputs | sc_tokenizer/tokenizer.py:430-446 | `run` changes no file other than the outputs of the batch's files |
| Invoker.OfficialDependsOnHead | eselect/invoker.py:18-19 | only the first three arguments decide whether a module is official |
| Invoker.OfficialExamples | eselect/invoker.py:18-19 | the module must start with "azureml.studio." including the dot, and the interpreter must be exactly "python" |
| Invoker.KeyEnd | eselect/invoker.py:15 | the end of a run of `(\w\|-)` characters: within the text, and the next character is not one |
| Invoker.OptionAtIsMatch | eselect/invoker.py:15 | the decided test for `--(\w\|-)+=([\n]\|.)+` at a line start agrees with the regex's own existential reading |
| Invoker.SearchFrom | eselect/invoker.py:25 | `re.search` with MULTILINE finds the first line-start position where the option pattern matches |
| Invoker.OptionHasEquals | eselect/invoker.py:25-27 | an argument the pattern matches contains the '=' that `split("=", 1)` uses |
| Invoker.QuoteAsWrittenSplitsArgument | eselect/invoker.py:15-28 | as written, the argument "a b=c\n--k=v" comes out as "a b=" unquoted, followed by the quoted rest |
| Invoker.QuoteKeepsMultilineArgumentWhole | eselect/invoker.py:22-29 | the corrected, anchored quote quotes that same argument whole |
| Invoker.QuoteOption | eselect/invoker.py:22-28 | an option `--key=value` with a non-empty value keeps `--key=` verbatim and quotes exactly the value, in `quote` as written and in the corrected quote |
| Invoker.QuoteNonOption | eselect/invoker.py:25-29 | as written: an argument the pattern matches on none of its lines is quoted whole |
| Invoker.QuoteMatchedOnSomeLine | eselect/invoker.py:25-28 | as written: when the pattern matches at the start of any line, the argument has an '=' and is cut at its first '='; only what follows is quoted |
| Invoker.QuoteAnchored | eselect/invoker.py:22-29 | the corrected quote: an argument that does not itself start with the option pattern is quoted whole |
| Invoker.QuoteAgrees | eselect/invoker.py:22-29 | `quote` as written and the corrected quote agree on an argument that starts with an option and on any argument without a newline |
| Invoker.QuoteSafe | eselect/invoker.py:22-29 | non-empty text made of shell-safe characters comes out of `quote` unchanged |
| Invoker.QuoteAll | eselect/invoker.py:33 | every argument is quoted by `quote` as written, in its original order |
| Invoker.GenerateRunCommandAppend | eselect/invoker.py:32-33 | the command for `a + b` is the command for `a`, a space, and the command for `b` |
| Invoker.GenerateRunCommandSmall | eselect/invoker.py:32-33 | no arguments give the empty command, and one argument gives its form under `quote` as written |
| Invoker.GenerateRunCommandSplitsArgument | eselect/invoker.py:15-33 | the command for the one argument "a b=c\n--k=v" holds "a b=" unquoted |
| Invoker.GenerateRunCommandSafe | eselect/invoker.py:32-33 | arguments that need no quoting give the command they spell, and splitting it at spaces gives the arguments back |
| Invoker.Run | eselect/invoker.py:7-11 | the result is None exactly when the command is empty; otherwise it is the launched process's status |
| Invoker.ExecuteNoArgs | eselect/invoker.py:36-44 | with no arguments nothing is launched, the banner names a custom module and version 0.0.5, and the exit status is 0 |
| Invoker.ExecuteRunsCommand | eselect/invoker.py:36-44 | with a non-empty command the program exits with the status of the command built by `quote` as written |
| Notebook.RewriteCell | run_notebook.py:50-59 | rewriting keeps a cell's type, its other fields and its number of lines |
| Notebook.RewriteCells | run_notebook.py:48-59 | rewriting keeps the number of cells |
| Notebook.RewriteCellsShape | run_notebook.py:49-59 | every cell keeps its line count, and non-code cells are kept as they are |
| Notebook.NotebookData.ReplaceKernel | run_notebook.py:35-45 | `metadata.kernelspec` becomes the python3 kernelspec; nothing else changes |
| Notebook.NotebookData.RewriteCode | run_notebook.py:53-59 | the loop over `exps` for one line gives the specified rewritten line |
| Notebook.NotebookData.ReplaceWorkspace | run_notebook.py:47-59 | every line of every code cell is rewritten in place, and the metadata is unchanged |
| Notebook.ExpsNonEmpty | run_notebook.py:13-22 | the credential lines and the two markers are all non-empty |
| Notebook.ApplyExpsFixed | run_notebook.py:53-59 | a line that every pass leaves alone comes out unchanged |
| Notebook.LineUntouched | run_notebook.py:53-59 | a line holding no credential line and no marker is kept as it is |
| Notebook.BlankStaysBlank | run_notebook.py:54-59 | a blanked line stays blank |
| Notebook.BlankedFrom | run_notebook.py:53-55 | the first credential line a line contains blanks it for good |
| Notebook.LineBlanked | run_notebook.py:53-59 | a line holding a credential line and no marker comes out blank |
| Notebook.WsLineRewritten | run_notebook.py:56-57 | a `ws = Workspace.from_config()` line becomes the call with the folder path |
| Notebook.WorkspaceLineRewritten | run_notebook.py:58-59 | a `workspace = Workspace.from_config()` line becomes the call with the folder path |
| Merge.TotalMerges | merge_files/merge.py:28 | `ceil(n / m)`: ZeroDivisionError exactly when m is 0; for m > 0 the least t with n <= t·m; at most 0 for m < 0 |
| Merge.MergeFiles | merge_files/merge.py:26-45 | the merge loop fails exactly when m is 0; it does nothing for m < 0; for m > 0 it yields the merge plan and counts every file |
| Merge.CopyGroup | merge_files/merge.py:39-41 | the inner loop copies every file of the group, in order, and counts each one |
| Merge.MergePlanLaws | merge_files/merge.py:27-37 | there are ceil(n / m) outputs, named "0", "1", …; each receives between 1 and m files, all but the last exactly m; in index order they hold the input files, each exactly once; no two outputs share a name |
| Merge.PlanCopied | merge_files/merge.py:35-41 | the first k outputs hold the first min(k·m, n) files, in order |
| Merge.GroupSize | merge_files/merge.py:37 | group i holds between 1 and m files, and exactly m unless it is the last |

## Left out

- `run_tokenizer` with `output_to_file` calls `os.makedirs(os.path.basename(output_dir_path))`: it creates a folder named after the last path component, relative to the working directory, not the output's parent folder. Folder creation is not modelled: the file system is a map and needs no folders.
- File I/O is not modelled byte for byte. The file system is a map from path to text. Left out: UTF-8 decoding, universal newlines, `os.makedirs`, and `pathlib` normalisation of `Path(args.output) / Path(file_name).name`, which is modelled as the output folder and the basename joined by one '/'.
- Logging, `print` and progress output are not modelled in any file.
- `exit(1)` is modelled as an error value. The interpreter's exit and the exit-status truncation to 8 bits are not modelled.
- `tokenizer_wrapper` catches every exception. The only failure the model produces is an empty replacement dict's KeyError. The spaCy pipeline's functions return plain values, so spaCy failures (such as `Span.string` at sc_tokenizer/tokenizer.py:315, which recent spaCy versions no longer have) are not modelled.
- spaCy is not modelled. Its tokens and sentences are functions passed in as parameters.
- `check_and_compile_regular_expression` cannot fail on the character classes used here, so compile errors are not modelled.
- Token.is_punct, PyStr.WhitespaceSplit: whitespace is the fixed set of characters `str.isspace` accepts. The Unicode database itself is not modelled.
- Generic.JValue: an address record holds only None, strings, ints and dicts. Booleans, floats and lists are not modelled, so the TypeError or AttributeError that `pretty_print_email_address` raises for a bool or list name cannot arise in the model.
- Generic.FormatValue: the f-string text of a non-empty dict used as an address is its `repr`. That is not modelled, and the model returns an error there.
- The numpy helpers (`average_or_zero`, `std_or_zero`, `var_or_zero`, `histogram_average`) work on floating point and are not modelled.
- `unicode_escape`, `get_unicode_category_dict` and `skip_lines_with_decode_error` are byte and codec level and are not modelled.
- `build_prefix_dict`: the conversion of each list to a numpy array is not modelled, and neither is the timing log.
- Invoker.KeyEnd: `\w` is read as the ASCII letters, digits and `_`. Python's str pattern also accepts other Unicode letters and digits.
- `shlex.quote` is not modelled. It is the parameter `shq`; lemmas about safe text assume only that `shq` returns such text unchanged.
- `shlex.split`, `subprocess.Popen(...).wait(timeout)` and the 60 000-second timeout are not modelled. Launching is the parameter `spawn`.
- `run_notebook.py`: JSON loading and dumping, missing keys, non-list `source` fields, temporary files, `glob` and papermill execution are not modelled.
- Notebook.WsLineRewritten, Notebook.WorkspaceLineRewritten: these require that the new line holds no credential line and no marker. A folder path can itself complete a credential line, e.g. `SUBSCRIPTION_ID = '<your subscription ID>` followed by `')`, and the later passes then blank the line.
- `merge.py` is not modelled at the byte level. Left out: argument parsing, the byte copy (`shutil.copyfileobj`), the `listdir` order (the file list is an input), absolute paths, and the float rounding of `math.ceil(total_files/merge_count)` for very large counts.

## Findings

| source | as written | input that shows it | evidently intended | confidence | as-written member | corrected member |
|---|---|---|---|---|---|---|
| sc_utils/generic.py:274-275 | each `filter(lambda tok: tok.text != str_match, answer)` is lazy and reads the loop variable when consumed, after the loop, so every filter compares against the last literal only | tokens ["a", "b"], filters ["a", "b"]: "a" is kept | remove tokens equal to any of the literals | high; not executed | Generic.FilterTokensLateBinding | Generic.KeepMembers |
| eselect/invoker.py:15-28 | `COMMAND_OPTION_PATTERN` is compiled with MULTILINE, so `^` also matches after a newline; `quote` then splits at the first '=' of the whole argument and leaves what precedes it unquoted | argument "a b=c\n--k=v": the command holds `a b=` unquoted, so the shell splits it at the space | treat only an argument that itself starts with `--key=` as an option | medium; not executed | Invoker.QuoteAsWrittenSplitsArgument | Invoker.QuoteAnchored |

The command of `generate_run_command` and `execute` is built from `quote` as written. Invoker.QuoteAgrees shows that the corrected quote gives the same result on every argument that starts with an option or holds no newline.
