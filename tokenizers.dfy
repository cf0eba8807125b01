/**
 * The tokenizers of the library: the training tokenizer (substring replacement, then a split
 * on spaces), the inference tokenizer (a split on a punctuation class, then the apostrophe
 * deleted), and the spaCy adapter; the choice among them by mode, sentence-then-word
 * tokenization, word_count, and the text each input line becomes in the command-line run.
 */
module Tokenizers {
  import opened Wrappers
  import opened PyStr
  import opened CharTokenizer
  import opened Generic
  import opened Replace
  import Sentences

  /** TOKENIZER_TRAINING_SEPERATOR: the space. */
  const TRAINING_SEPARATOR: set<char> := {' '}

  /** TOKENIZER_INFERENCE_SEPARATOR, read as the character class it is written for. */
  const INFERENCE_SEPARATOR: set<char> := {
    ' ', ',', '.', ':', ';', '!', '?', '`', '%', '^', '&', '#', '$', '*', '+', '/',
    '(', ')', '@', '>', '<', '"'
  }

  /** TOKENIZER_INFERENCE_DELETE: the apostrophe. */
  const INFERENCE_DELETE: set<char> := {'\''}

  /**
   * A loaded spaCy pipeline, which is not part of this model: for a text, the (text,
   * whitespace_) pair of each token it finds, and the text of each sentence.
   */
  datatype SpacyPipeline = SpacyPipeline(tokens: string -> seq<(string, string)>, sentences: string -> seq<string>)

  datatype Tokenizer =
    | Training(replacements: Rules, separators: set<char>)
    | Inference(separators: set<char>, deletes: set<char>)
    | SpaCy(nlp: SpacyPipeline)

  /** get_tokenizer_instance: a tokenizer with its default settings for the three known modes, else None. */
  function GetTokenizerInstance(mode: string, nlp: SpacyPipeline): (t: Option<Tokenizer>)
    ensures t.Some? <==> mode == "train" || mode == "inference" || mode == "spacy"
    ensures mode == "train" ==> t.value.Training? && t.value.replacements == TRAINING_RULE && t.value.separators == TRAINING_SEPARATOR
    ensures mode == "inference" ==> t.value.Inference? && t.value.separators == INFERENCE_SEPARATOR && t.value.deletes == INFERENCE_DELETE
    ensures mode == "spacy" ==> t.value.SpaCy?
  {
    if mode == "train" then Some(Training(TRAINING_RULE, TRAINING_SEPARATOR))
    else if mode == "inference" then Some(Inference(INFERENCE_SEPARATOR, INFERENCE_DELETE))
    else if mode == "spacy" then Some(SpaCy(nlp))
    else None
  }

  /** tokenize_into_words of each variant, as (tokens, intertokens). */
  function TokenizeIntoWords(t: Tokenizer, s: string): Result<(seq<Token>, seq<Token>)>
  {
    match t
    case Training(rules, sep) =>
      var replaced :- TrainingReplace(s, rules);
      Ok(Tokenization(replaced, sep, {}))
    case Inference(sep, del) => Ok(Tokenization(s, sep, del))
    case SpaCy(nlp) =>
      var pairs := nlp.tokens(s);
      Ok((seq(|pairs|, i requires 0 <= i < |pairs| => Token(pairs[i].0)),
          seq(|pairs|, i requires 0 <= i < |pairs| => Token(pairs[i].1))))
  }

  /** tokenize_into_sentences: the sentence splitter, or spaCy's sentences. */
  function TokenizeIntoSentences(t: Tokenizer, s: string): seq<string>
  {
    match t
    case SpaCy(nlp) => nlp.sentences(s)
    case _ => Sentences.Sentences(s)
  }

  // ---------------------------------------------------------------------------
  // The word tokenizers

  /**
   * The default training tokenizer never fails. Its words are char_tokenizer's split, on
   * spaces, of the replaced text: they interleave with the intertokens to give that text
   * back, and no word is empty or holds a space.
   */
  lemma TrainingWords(s: string)
    ensures TrainingReplace(s, TRAINING_RULE).Ok?
    ensures var replaced := TrainingReplace(s, TRAINING_RULE).value;
      var w := TokenizeIntoWords(Training(TRAINING_RULE, TRAINING_SEPARATOR), s);
      && w == Ok(Tokenization(replaced, TRAINING_SEPARATOR, {}))
      && |w.value.1| == |w.value.0| + 1
      && Interleave(w.value.1, w.value.0) == replaced
      && (forall k :: 0 <= k < |w.value.0| ==> w.value.0[k].text != [] && ' ' !in w.value.0[k].text)
  {
    TrainingRuleReplaces(s);
    var replaced := TrainingReplace(s, TRAINING_RULE).value;
    RoundTrip(replaced, TRAINING_SEPARATOR);
    PieceShapes(replaced, TRAINING_SEPARATOR);
    var toks := Tokenization(replaced, TRAINING_SEPARATOR, {}).0;
    forall k | 0 <= k < |toks|
      ensures ' ' !in toks[k].text
    {
      assert NoneIn(toks[k].text, TRAINING_SEPARATOR);
    }
  }

  /** Deleting characters from every piece deletes them from the interleaving. */
  lemma {:induction false} InterleaveFromDelete(ts: seq<Token>, gs: seq<Token>, del: set<char>)
    requires |ts| == |gs|
    ensures InterleaveFrom(DeleteAll(ts, del), DeleteAll(gs, del)) == Delete(InterleaveFrom(ts, gs), del)
    decreases |ts|
  {
    if ts != [] {
      InterleaveFromDelete(ts[1..], gs[1..], del);
      assert DeleteAll(ts, del)[1..] == DeleteAll(ts[1..], del);
      assert DeleteAll(gs, del)[1..] == DeleteAll(gs[1..], del);
      DeleteAppend(ts[0].text + gs[0].text, InterleaveFrom(ts[1..], gs[1..]), del);
      DeleteAppend(ts[0].text, gs[0].text, del);
    }
  }

  /**
   * The default inference tokenizer: one more intertoken than tokens, no token holding a
   * separator or an apostrophe, and the pieces interleave to the input with its apostrophes
   * removed and every other character kept in order.
   */
  lemma InferenceWords(s: string)
    ensures var w := TokenizeIntoWords(Inference(INFERENCE_SEPARATOR, INFERENCE_DELETE), s);
      && w == Ok(Tokenization(s, INFERENCE_SEPARATOR, INFERENCE_DELETE))
      && |w.value.1| == |w.value.0| + 1
      && Interleave(w.value.1, w.value.0) == Delete(s, INFERENCE_DELETE)
      && (forall k :: 0 <= k < |w.value.0| ==> NoneIn(w.value.0[k].text, INFERENCE_SEPARATOR + INFERENCE_DELETE))
      && (forall k :: 0 <= k < |w.value.1| ==> '\'' !in w.value.1[k].text)
  {
    var (toks0, inters0) := Tokenization(s, INFERENCE_SEPARATOR, {});
    var (toks, inters) := Tokenization(s, INFERENCE_SEPARATOR, INFERENCE_DELETE);
    RoundTrip(s, INFERENCE_SEPARATOR);
    DeleteClass(s, INFERENCE_SEPARATOR, INFERENCE_DELETE);
    assert toks == DeleteAll(toks0, INFERENCE_DELETE) && inters == DeleteAll(inters0, INFERENCE_DELETE);
    InterleaveFromDelete(toks0, inters0[1..], INFERENCE_DELETE);
    assert inters[1..] == DeleteAll(inters0[1..], INFERENCE_DELETE);
    DeleteAppend(inters0[0].text, InterleaveFrom(toks0, inters0[1..]), INFERENCE_DELETE);
    InferencePieceChars(s);
  }

  /** No inference token holds a separator or an apostrophe; no intertoken holds an apostrophe. */
  lemma InferencePieceChars(s: string)
    ensures var (toks, inters) := Tokenization(s, INFERENCE_SEPARATOR, INFERENCE_DELETE);
      && (forall k :: 0 <= k < |toks| ==> NoneIn(toks[k].text, INFERENCE_SEPARATOR + INFERENCE_DELETE))
      && (forall k :: 0 <= k < |inters| ==> '\'' !in inters[k].text)
  {
    var (toks0, inters0) := Tokenization(s, INFERENCE_SEPARATOR, {});
    var (toks, inters) := Tokenization(s, INFERENCE_SEPARATOR, INFERENCE_DELETE);
    PieceShapes(s, INFERENCE_SEPARATOR);
    DeleteClass(s, INFERENCE_SEPARATOR, INFERENCE_DELETE);
    forall k | 0 <= k < |toks|
      ensures NoneIn(toks[k].text, INFERENCE_SEPARATOR + INFERENCE_DELETE)
    {
      forall c | c in toks[k].text
        ensures c !in INFERENCE_SEPARATOR
      {
        DeleteMembers(toks0[k].text, INFERENCE_DELETE, c);
      }
    }
    forall k | 0 <= k < |inters|
      ensures '\'' !in inters[k].text
    {
      assert NoneIn(inters[k].text, INFERENCE_DELETE);
    }
  }

  /** The spaCy adapter: one token and one (trailing whitespace) intertoken per spaCy token. */
  lemma SpaCyWords(nlp: SpacyPipeline, s: string)
    ensures var w := TokenizeIntoWords(SpaCy(nlp), s);
      && w.Ok? && |w.value.0| == |w.value.1| == |nlp.tokens(s)|
      && forall k :: 0 <= k < |w.value.0| ==>
           w.value.0[k].text == nlp.tokens(s)[k].0 && w.value.1[k].text == nlp.tokens(s)[k].1
  {
  }

  // ---------------------------------------------------------------------------
  // tokenize_into_sentences_and_words

  /** The word tokens of each sentence, in sentence order; the first failing sentence's error otherwise. */
  method TokenizeIntoSentencesAndWords(t: Tokenizer, input: string) returns (r: Result<seq<seq<Token>>>)
    ensures var sentences := TokenizeIntoSentences(t, input);
      && (r.Ok? <==> forall i :: 0 <= i < |sentences| ==> TokenizeIntoWords(t, sentences[i]).Ok?)
      && (r.Ok? ==> |r.value| == |sentences|)
      && (r.Ok? ==> forall i :: 0 <= i < |sentences| ==> r.value[i] == TokenizeIntoWords(t, sentences[i]).value.0)
      && (r.Err? ==> exists i :: 0 <= i < |sentences| && TokenizeIntoWords(t, sentences[i]) == Err(r.error))
  {
    var sentences := TokenizeIntoSentences(t, input);
    var output: seq<seq<Token>> := [];
    var i := 0;
    while i < |sentences|
      invariant 0 <= i <= |sentences| && |output| == i
      invariant forall k :: 0 <= k < i ==>
        TokenizeIntoWords(t, sentences[k]).Ok? && output[k] == TokenizeIntoWords(t, sentences[k]).value.0
    {
      var words := TokenizeIntoWords(t, sentences[i]);
      if words.Err? {
        return Err(words.error);
      }
      output := output + [words.value.0];
      i := i + 1;
    }
    return Ok(output);
  }

  // ---------------------------------------------------------------------------
  // word_count

  /** The number of tokens left after filter_tokens with no literals. */
  function WordCount(t: Tokenizer, sentence: string): Result<nat>
  {
    var words :- TokenizeIntoWords(t, sentence);
    Ok(|FilterTokens(words.0, [], false)|)
  }

  /**
   * word_count never exceeds the number of tokens; it equals it exactly when every token is
   * a word, and it is 0 exactly when every token is punctuation or whitespace.
   */
  lemma WordCountLaws(t: Tokenizer, sentence: string)
    requires TokenizeIntoWords(t, sentence).Ok?
    ensures var toks := TokenizeIntoWords(t, sentence).value.0;
      var n := WordCount(t, sentence).value;
      && n <= |toks|
      && (n == |toks| <==> forall k :: 0 <= k < |toks| ==> !toks[k].IsPunct() && !toks[k].IsSpace())
      && (n == 0 <==> forall k :: 0 <= k < |toks| ==> toks[k].IsPunct() || toks[k].IsSpace())
  {
    var toks := TokenizeIntoWords(t, sentence).value.0;
    FilterLength(toks, (t: Token) => Survives(t, []));
  }

  // ---------------------------------------------------------------------------
  // tokenizer_wrapper

  /** The text of each token (str(token)). */
  function Texts(toks: seq<Token>): (r: seq<string>)
    ensures |r| == |toks| && forall k :: 0 <= k < |toks| ==> r[k] == toks[k].text
  {
    seq(|toks|, i requires 0 <= i < |toks| => toks[i].text)
  }

  /**
   * tokenizer_wrapper: "word" joins the word tokens with single spaces, "sentence" joins the
   * sentences with newlines; any other type, and any exception, ends in exit(1).
   */
  function TokenizerWrapper(t: Tokenizer, text: string, kind: string): (r: Result<string>)
    ensures kind != "word" && kind != "sentence" ==> r == Err(Exit(1))
    ensures r.Err? ==> r.error == Exit(1)
  {
    if kind == "word" then
      match TokenizeIntoWords(t, text)
      case Err(_) => Err(Exit(1))
      case Ok(words) => Ok(Join(Texts(words.0), " "))
    else if kind == "sentence" then Ok(Join(TokenizeIntoSentences(t, text), "\n"))
    else Err(Exit(1))
  }

  /** A word line of a space-separating tokenizer splits back on spaces into the token texts. */
  lemma WordLineSplits(t: Tokenizer, text: string)
    requires t.Training? || t.Inference?
    requires ' ' in t.separators
    requires TokenizeIntoWords(t, text).Ok? && TokenizeIntoWords(t, text).value.0 != []
    ensures Split(TokenizerWrapper(t, text, "word").value, " ") == Texts(TokenizeIntoWords(t, text).value.0)
  {
    var toks := TokenizeIntoWords(t, text).value.0;
    var source := if t.Training? then TrainingReplace(text, t.replacements).value else text;
    var del := if t.Training? then {} else t.deletes;
    assert TokenizeIntoWords(t, text).value == Tokenization(source, t.separators, del);
    PieceShapes(source, t.separators);
    DeleteClass(source, t.separators, del);
    var toks0 := Tokenization(source, t.separators, {}).0;
    forall k | 0 <= k < |toks|
      ensures ' ' !in Texts(toks)[k]
    {
      DeleteMembers(toks0[k].text, del, ' ');
      assert NoneIn(toks0[k].text, t.separators);
    }
    SplitJoin(Texts(toks), ' ');
  }

  /**
   * A sentence line of the splitting tokenizers holds the input with newlines added between
   * sentences and nothing else: dropping every newline from both gives the same text.
   */
  lemma SentenceLineKeepsText(t: Tokenizer, text: string)
    requires t.Training? || t.Inference?
    ensures TokenizerWrapper(t, text, "sentence").Ok?
    ensures Delete(TokenizerWrapper(t, text, "sentence").value, {'\n'}) == Delete(text, {'\n'})
  {
    Sentences.SentencesSplit(text);
    DeleteJoin(Sentences.Sentences(text), '\n');
  }

  // ---------------------------------------------------------------------------
  // The output of one input line in run_tokenizer

  /** The arguments that shape each output line. */
  datatype LineOptions = LineOptions(kind: string, inputIsTsv: bool, delimiter: string, ignoreCols: set<int>)

  /** text.replace('\n', '\\n'): each newline becomes a backslash and an `n`. */
  function EscapeNewlines(text: string): (r: string)
    ensures '\n' !in r
    ensures '\n' !in text ==> r == text
  {
    ReplaceChar(text, '\n', "\\n")
  }

  /** Escaping works piece by piece: a newline becomes the two characters `\` `n`, all else is kept. */
  lemma EscapeNewlinesLaws(a: string, b: string, x: char)
    ensures EscapeNewlines(a + b) == EscapeNewlines(a) + EscapeNewlines(b)
    ensures EscapeNewlines("\n") == ['\\', 'n']
    ensures x != '\n' ==> EscapeNewlines([x]) == [x]
  {
    ReplaceCharLaws(a, b, '\n', "\\n", x);
  }

  /** One TSV cell: verbatim when its index is ignored, else tokenized (newlines escaped in sentence mode). */
  function Cell(t: Tokenizer, o: LineOptions, i: nat, item: string): Result<string>
  {
    if i in o.ignoreCols then Ok(item)
    else
      var text :- TokenizerWrapper(t, item, o.kind);
      Ok(if o.kind == "sentence" then EscapeNewlines(text) else text)
  }

  /** The cell function of a tokenizer and options: the column index and item to the cell. */
  function CellOf(t: Tokenizer, o: LineOptions): (nat, string) -> Result<string> {
    (i: nat, item: string) => Cell(t, o, i, item)
  }

  /** The output cells for the items from index `i` on, stopping at the first failure. */
  function CellsFrom(cell: (nat, string) -> Result<string>, items: seq<string>, i: nat): Result<seq<string>>
    requires i <= |items|
    decreases |items| - i
  {
    if i == |items| then Ok([])
    else
      var c :- cell(i, items[i]);
      var rest :- CellsFrom(cell, items, i + 1);
      Ok([c] + rest)
  }

  /** The row of a TSV line from its delimited items: the items' cells, joined. */
  function TsvRow(cell: (nat, string) -> Result<string>, delimiter: string, items: seq<string>): Result<string>
  {
    var cells :- CellsFrom(cell, items, 0);
    Ok(Join(cells, delimiter) + "\n")
  }

  /** The row of a line outside TSV mode: the tokenized stripped line. */
  function PlainRow(t: Tokenizer, kind: string, line: string): Result<string>
  {
    var text :- TokenizerWrapper(t, Strip(line), kind);
    Ok(text + "\n")
  }

  /** The plain-row function of a tokenizer and output kind. */
  function PlainOf(t: Tokenizer, kind: string): string -> Result<string> {
    line => PlainRow(t, kind, line)
  }

  /**
   * The text written for one line, given how cells and plain lines are tokenized: a TSV line
   * with an empty delimiter fails as str.split('') does.
   */
  function LineOf(isTsv: bool, delimiter: string, cell: (nat, string) -> Result<string>, plain: string -> Result<string>, line: string): Result<string>
  {
    if isTsv then
      if delimiter == "" then Err(ValueError("empty separator"))
      else TsvRow(cell, delimiter, Split(Strip(line), delimiter))
    else plain(line)
  }

  /** The text written for one input line. */
  function ProcessLine(t: Tokenizer, o: LineOptions, line: string): Result<string>
  {
    LineOf(o.inputIsTsv, o.delimiter, CellOf(t, o), PlainOf(t, o.kind), line)
  }

  /** The cells from `i` on are each item's cell, in place, or the first failure among them. */
  lemma {:induction false} CellsFromLaws(cell: (nat, string) -> Result<string>, items: seq<string>, i: nat)
    requires i <= |items|
    ensures var r := CellsFrom(cell, items, i);
      && (r.Ok? <==> forall k :: i <= k < |items| ==> cell(k, items[k]).Ok?)
      && (r.Ok? ==> |r.value| == |items| - i && forall k :: i <= k < |items| ==> cell(k, items[k]) == Ok(r.value[k - i]))
    decreases |items| - i
  {
    if i < |items| {
      CellsFromLaws(cell, items, i + 1);
    }
  }

  /** The first cell that fails decides the row's error. */
  lemma {:induction false} CellsFromFirstError(cell: (nat, string) -> Result<string>, items: seq<string>, i: nat, j: nat)
    requires j <= i < |items|
    requires forall k :: j <= k < i ==> cell(k, items[k]).Ok?
    requires cell(i, items[i]).Err?
    ensures CellsFrom(cell, items, j) == Err(cell(i, items[i]).error)
    decreases i - j
  {
    if j < i {
      CellsFromFirstError(cell, items, i, j + 1);
    }
  }

  /** A TSV row whose cells all succeed: the cells joined with the delimiter, and a newline. */
  lemma TsvRowOk(cell: (nat, string) -> Result<string>, delimiter: string, items: seq<string>, cells: seq<string>)
    requires |cells| == |items|
    requires forall k :: 0 <= k < |cells| ==> cell(k, items[k]) == Ok(cells[k])
    ensures TsvRow(cell, delimiter, items) == Ok(Join(cells, delimiter) + "\n")
  {
    CellsFromLaws(cell, items, 0);
    assert CellsFrom(cell, items, 0).value == cells;
  }

  /** A TSV row fails with the error of its first failing cell. */
  lemma TsvRowErr(cell: (nat, string) -> Result<string>, delimiter: string, items: seq<string>, i: nat)
    requires i < |items|
    requires forall k :: 0 <= k < i ==> cell(k, items[k]).Ok?
    requires cell(i, items[i]).Err?
    ensures TsvRow(cell, delimiter, items) == Err(cell(i, items[i]).error)
  {
    CellsFromFirstError(cell, items, i, 0);
  }

  /**
   * One cell: an ignored column is kept verbatim; any other is the tokenizer_wrapper text
   * of the item, with newlines escaped (so none is left) in sentence mode.
   */
  lemma CellLaws(t: Tokenizer, o: LineOptions, i: nat, item: string)
    ensures i in o.ignoreCols ==> Cell(t, o, i, item) == Ok(item)
    ensures i !in o.ignoreCols ==>
      && (Cell(t, o, i, item).Ok? <==> TokenizerWrapper(t, item, o.kind).Ok?)
      && (o.kind != "sentence" && Cell(t, o, i, item).Ok? ==>
            Cell(t, o, i, item).value == TokenizerWrapper(t, item, o.kind).value)
      && (o.kind == "sentence" && Cell(t, o, i, item).Ok? ==>
            && Cell(t, o, i, item).value == EscapeNewlines(TokenizerWrapper(t, item, o.kind).value)
            && '\n' !in Cell(t, o, i, item).value)
  {
  }

  /**
   * A TSV line: the stripped line is split on the delimiter; each item becomes its Cell, in
   * place; the cells are joined with the delimiter and a newline ends the row. The line
   * fails exactly when some cell fails.
   */
  lemma TsvLine(t: Tokenizer, o: LineOptions, line: string, items: seq<string>)
    requires o.inputIsTsv && o.delimiter != ""
    requires items == Split(Strip(line), o.delimiter)
    ensures ProcessLine(t, o, line).Ok? <==> forall k :: 0 <= k < |items| ==> Cell(t, o, k, items[k]).Ok?
    ensures ProcessLine(t, o, line).Ok? ==>
      && CellsFrom(CellOf(t, o), items, 0).Ok?
      && ProcessLine(t, o, line).value == Join(CellsFrom(CellOf(t, o), items, 0).value, o.delimiter) + "\n"
      && |CellsFrom(CellOf(t, o), items, 0).value| == |items|
      && forall k :: 0 <= k < |items| ==> Cell(t, o, k, items[k]) == Ok(CellsFrom(CellOf(t, o), items, 0).value[k])
  {
    CellsFromLaws(CellOf(t, o), items, 0);
  }

  /** A line outside TSV mode: the tokenized stripped line and a newline. */
  lemma PlainLine(t: Tokenizer, o: LineOptions, line: string)
    requires !o.inputIsTsv
    ensures ProcessLine(t, o, line).Ok? <==> TokenizerWrapper(t, Strip(line), o.kind).Ok?
    ensures ProcessLine(t, o, line).Ok? ==>
      ProcessLine(t, o, line).value == TokenizerWrapper(t, Strip(line), o.kind).value + "\n"
  {
  }
}
