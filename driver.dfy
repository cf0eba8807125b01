/**
 * The command-line run of the tokenizer: run_tokenizer, which writes the tokenized lines of
 * one input file to one output file, and run, which does so for a batch of files. The file
 * system is a map from path to file text.
 */
module Driver {
  import opened Wrappers
  import opened PyStr
  import opened Tokenizers

  // ---------------------------------------------------------------------------
  // Reading lines

  /** `for line in reader`: the lines of a text, each with its newline (the last may lack one). */
  function Lines(s: string): seq<string>
    decreases |s|
  {
    if '\n' in s then
      var i := IndexOf(s, '\n');
      [s[..i + 1]] + Lines(s[i + 1..])
    else if s == [] then []
    else [s]
  }

  /** The lines put together give the text back. */
  lemma {:induction false} LinesConcat(s: string)
    ensures Concat(Lines(s)) == s
    decreases |s|
  {
    if '\n' in s {
      var i := IndexOf(s, '\n');
      var tail := s[i + 1..];
      LinesConcat(tail);
      assert Lines(s) == [s[..i + 1]] + Lines(tail);
      ConcatCons(s, s[..i + 1], tail, Lines(tail));
    } else if s != [] {
      assert Lines(s) == [s];
      ConcatCons(s, s, [], []);
    }
  }

  /** A text cut in two: its first part followed by pieces that make up the second. */
  lemma ConcatCons(s: string, head: string, tail: string, rest: seq<string>)
    requires |head| <= |s| && head == s[..|head|] && tail == s[|head|..]
    requires Concat(rest) == tail
    ensures Concat([head] + rest) == s
  {
    assert ([head] + rest)[1..] == rest;
  }

  /** One line of a text: not empty, and a newline, if any, only as its last character. */
  predicate IsLine(line: string) {
    line != [] && '\n' !in line[..|line| - 1]
  }

  /** Every line is one; every line but the last ends with a newline. */
  lemma {:induction false} LinesShape(s: string)
    ensures forall k :: 0 <= k < |Lines(s)| ==> IsLine(Lines(s)[k])
    ensures forall k :: 0 <= k < |Lines(s)| - 1 ==> Lines(s)[k] != [] && Lines(s)[k][|Lines(s)[k]| - 1] == '\n'
    decreases |s|
  {
    if '\n' in s {
      var i := IndexOf(s, '\n');
      var rest := Lines(s[i + 1..]);
      LinesShape(s[i + 1..]);
      var r := Lines(s);
      assert r[0] == s[..i + 1] && r[0][..i] == s[..i];
      forall k | 0 <= k < |r|
        ensures IsLine(r[k])
      {
        if k > 0 {
          assert r[k] == rest[k - 1];
        }
      }
      forall k | 0 <= k < |r| - 1
        ensures r[k][|r[k]| - 1] == '\n'
      {
        if k > 0 {
          assert r[k] == rest[k - 1];
        }
      }
    }
  }

  // ---------------------------------------------------------------------------
  // Arguments and paths

  /** The parsed command-line arguments, with the two fields that run sets per file. */
  datatype Args = Args(
    mode: string, kind: string, inputIsTsv: bool, delimiter: string, ignoreCols: set<int>,
    output: string, outputToFile: bool, inputFilePath: string, outputDirPath: string)

  function Options(a: Args): LineOptions {
    LineOptions(a.kind, a.inputIsTsv, a.delimiter, a.ignoreCols)
  }

  /** `dir / name` for a relative name. */
  function JoinPath(dir: string, name: string): string {
    if dir == [] then name
    else if dir[|dir| - 1] == '/' then dir + name
    else dir + "/" + name
  }

  /** The file run_tokenizer writes: the given path itself, or tokenized.txt inside it. */
  function OutputPath(a: Args): string {
    if a.outputToFile then a.outputDirPath else JoinPath(a.outputDirPath, "tokenized.txt")
  }

  /** The arguments run passes to run_tokenizer for one file of the batch. */
  function FileArgs(a: Args, fileName: string): Args {
    a.(outputToFile := true, inputFilePath := fileName, outputDirPath := JoinPath(a.output, Basename(fileName)))
  }

  // ---------------------------------------------------------------------------
  // What run_tokenizer writes

  /** The row function for given cell and plain-line tokenizations. */
  function LineFn(isTsv: bool, delimiter: string, cell: (nat, string) -> Result<string>, plain: string -> Result<string>): string -> Result<string> {
    line => LineOf(isTsv, delimiter, cell, plain, line)
  }

  /** The row function of a tokenizer and options: each input line to its output text. */
  function LineRow(t: Tokenizer, o: LineOptions): string -> Result<string> {
    LineFn(o.inputIsTsv, o.delimiter, CellOf(t, o), PlainOf(t, o.kind))
  }

  /** The text written for the lines, and the error of the first line that fails, if any. */
  function Written(row: string -> Result<string>, lines: seq<string>): (string, Option<PyError>)
  {
    if lines == [] then ("", None)
    else
      match row(lines[0])
      case Err(e) => ("", Some(e))
      case Ok(text) =>
        var rest := Written(row, lines[1..]);
        (text + rest.0, rest.1)
  }

  /**
   * Writing the rows of the input file to the output file: the output is emptied first, a
   * missing input then fails, and the output holds the rows of the lines up to the first
   * failing one; the result is the number of lines, or that line's error.
   */
  function RunWith(files: map<string, string>, row: string -> Result<string>, out: string, input: string): (map<string, string>, Result<nat>)
  {
    var emptied := files[out := ""];
    if input !in emptied then (emptied, Err(FileNotFound(input)))
    else
      var lines := Lines(emptied[input]);
      var w := Written(row, lines);
      (files[out := w.0], if w.1.Some? then Err(w.1.value) else Ok(|lines|))
  }

  /** run_tokenizer on a file system: exit(1) before touching any file when the mode is unknown. */
  function RunEffect(files: map<string, string>, nlp: SpacyPipeline, a: Args): (map<string, string>, Result<nat>)
  {
    match GetTokenizerInstance(a.mode, nlp)
    case None => (files, Err(Exit(1)))
    case Some(t) => RunWith(files, LineRow(t, Options(a)), OutputPath(a), a.inputFilePath)
  }

  /** One step of a batch: the files after processing one input file, and its outcome. */
  type FileRun = (map<string, string>, string) -> (map<string, string>, Result<nat>)

  /** run_tokenizer on one file of a batch, with a given spaCy pipeline and arguments. */
  function Runner(nlp: SpacyPipeline, a: Args): FileRun {
    (files: map<string, string>, fileName: string) => RunEffect(files, nlp, FileArgs(a, fileName))
  }

  /** run over the first files of a batch: each file in turn, stopping at the first failure. */
  function BatchEffect(files: map<string, string>, run: FileRun, batch: seq<string>): (map<string, string>, Result<seq<string>>)
  {
    if batch == [] then (files, Ok([]))
    else
      var before := BatchEffect(files, run, batch[..|batch| - 1]);
      if before.1.Err? then before
      else
        var fileName := batch[|batch| - 1];
        var step := run(before.0, fileName);
        if step.1.Err? then (step.0, Err(step.1.error))
        else (step.0, Ok(before.1.value + [fileName]))
  }

  // ---------------------------------------------------------------------------
  // The run, as a class over the file system

  class TokenizerRun {
    var files: map<string, string>
    var args: Args
    const nlp: SpacyPipeline

    constructor(files0: map<string, string>, args0: Args, nlp0: SpacyPipeline)
      ensures files == files0 && args == args0 && nlp == nlp0
    {
      files := files0;
      args := args0;
      nlp := nlp0;
    }

    /** The row of one TSV line, cell by cell, as the output_items loop builds it. */
    static method TsvItems(cell: (nat, string) -> Result<string>, delimiter: string, items: seq<string>) returns (r: Result<string>)
      ensures r == TsvRow(cell, delimiter, items)
    {
      var outputItems: seq<string> := [];
      var i := 0;
      while i < |items|
        invariant 0 <= i <= |items| && |outputItems| == i
        invariant forall k :: 0 <= k < i ==> cell(k, items[k]) == Ok(outputItems[k])
      {
        var c := cell(i, items[i]);
        if c.Err? {
          TsvRowErr(cell, delimiter, items, i);
          return Err(c.error);
        }
        outputItems := outputItems + [c.value];
        i := i + 1;
      }
      TsvRowOk(cell, delimiter, items, outputItems);
      r := Ok(Join(outputItems, delimiter) + "\n");
    }

    /** The output text of one line, TSV lines cell by cell. */
    static method LineText(isTsv: bool, delimiter: string, cell: (nat, string) -> Result<string>, plain: string -> Result<string>, line: string) returns (r: Result<string>)
      ensures r == LineOf(isTsv, delimiter, cell, plain, line)
    {
      if isTsv && delimiter != "" {
        var items := Split(Strip(line), delimiter);
        r := TsvItems(cell, delimiter, items);
      } else {
        r := LineOf(isTsv, delimiter, cell, plain, line);
      }
    }

    /**
     * The line loop of run_tokenizer: append the row of each line to the output file, up to
     * the first line that fails.
     */
    method WriteLines(ghost row: string -> Result<string>, isTsv: bool, delimiter: string, cell: (nat, string) -> Result<string>, plain: string -> Result<string>,
                      outputPath: string, lines: seq<string>) returns (failure: Option<PyError>)
      requires forall line {:trigger LineOf(isTsv, delimiter, cell, plain, line)} :: row(line) == LineOf(isTsv, delimiter, cell, plain, line)
      modifies this
      ensures files == old(files)[outputPath := Written(row, lines).0] && failure == Written(row, lines).1
      ensures args == old(args)
    {
      var lineCount := 0;
      assert lines[..lineCount] == [];
      files := files[outputPath := ""];
      while lineCount < |lines|
        invariant 0 <= lineCount <= |lines| && args == old(args)
        invariant Written(row, lines[..lineCount]).1 == None
        invariant files == old(files)[outputPath := Written(row, lines[..lineCount]).0]
      {
        var line := lines[lineCount];
        WrittenSnoc(row, lines, lineCount);
        var text := LineText(isTsv, delimiter, cell, plain, line);
        if text.Err? {
          WrittenStops(row, lines, lineCount);
          return Some(text.error);
        }
        lineCount := lineCount + 1;
        files := files[outputPath := files[outputPath] + text.value];
      }
      assert lines[..lineCount] == lines;
      return None;
    }

    /** run_tokenizer(a): tokenize the input file line by line into the output file. */
    method RunTokenizer(a: Args) returns (r: Result<nat>)
      modifies this
      ensures (files, r) == RunEffect(old(files), nlp, a)
      ensures args == old(args)
    {
      var tokenizer := GetTokenizerInstance(a.mode, nlp);
      if tokenizer.None? {
        return Err(Exit(1));
      }
      var t := tokenizer.value;
      var o := Options(a);
      var outputPath := OutputPath(a);
      files := files[outputPath := ""];
      if a.inputFilePath !in files {
        return Err(FileNotFound(a.inputFilePath));
      }
      var lines := Lines(files[a.inputFilePath]);
      var failure := WriteLines(LineRow(t, o), o.inputIsTsv, o.delimiter, CellOf(t, o), PlainOf(t, o.kind), outputPath, lines);
      assert files == old(files)[outputPath := files[outputPath]];
      if failure.Some? {
        return Err(failure.value);
      }
      return Ok(|lines|);
    }

    /** run(batch_files): run_tokenizer on each file, in order, writing output/<basename>. */
    method Run(batch: seq<string>) returns (r: Result<seq<string>>)
      modifies this
      ensures (files, r) == BatchEffect(old(files), Runner(nlp, args), batch)
      ensures args == old(args)
    {
      var result: seq<string> := [];
      var localArgs := args.(outputToFile := true);
      var i := 0;
      while i < |batch|
        invariant 0 <= i <= |batch| && args == old(args)
        invariant BatchEffect(old(files), Runner(nlp, args), batch[..i]) == (files, Ok(result))
        invariant localArgs == args.(outputToFile := true, inputFilePath := localArgs.inputFilePath, outputDirPath := localArgs.outputDirPath)
      {
        var fileName := batch[i];
        localArgs := localArgs.(inputFilePath := fileName, outputDirPath := JoinPath(args.output, Basename(fileName)));
        assert localArgs == FileArgs(args, fileName);
        ghost var before := files;
        var res := RunTokenizer(localArgs);
        BatchStep(old(files), Runner(nlp, args), batch, i, before, result, files, res);
        if res.Err? {
          return Err(res.error);
        }
        result := result + [fileName];
        i := i + 1;
      }
      assert batch[..i] == batch;
      return Ok(result);
    }
  }

  // ---------------------------------------------------------------------------
  // Properties of the run

  /** Writing one more line: its row is appended, or its error recorded. */
  lemma {:induction false} WrittenSnoc(row: string -> Result<string>, lines: seq<string>, n: nat)
    requires n < |lines| && Written(row, lines[..n]).1 == None
    ensures Written(row, lines[..n + 1]) ==
      match row(lines[n])
      case Err(e) => (Written(row, lines[..n]).0, Some(e))
      case Ok(text) => (Written(row, lines[..n]).0 + text, None)
    decreases n
  {
    assert lines[..n + 1][0] == lines[0];
    if n == 0 {
      assert lines[..1][1..] == [];
      if row(lines[0]).Ok? {
        assert row(lines[0]).value + "" == "" + row(lines[0]).value;
      }
    } else {
      assert lines[..n + 1][1..] == lines[1..][..n];
      assert lines[..n][1..] == lines[1..][..n - 1];
      assert lines[1..][n - 1] == lines[n];
      if row(lines[0]).Ok? {
        var first := row(lines[0]).value;
        WrittenSnoc(row, lines[1..], n - 1);
        var w := Written(row, lines[1..][..n - 1]).0;
        assert Written(row, lines[..n]).0 == first + w;
        if row(lines[n]).Ok? {
          var text := row(lines[n]).value;
          assert first + w + text == first + (w + text);
        }
      }
    }
  }

  /** Once a prefix of the lines fails, the whole does, with the same output. */
  lemma {:induction false} WrittenAfterError(row: string -> Result<string>, lines: seq<string>, n: nat)
    requires n <= |lines| && Written(row, lines[..n]).1.Some?
    ensures Written(row, lines) == Written(row, lines[..n])
    decreases n
  {
    assert n > 0 && lines[..n][0] == lines[0];
    if row(lines[0]).Ok? {
      assert lines[..n][1..] == lines[1..][..n - 1];
      WrittenAfterError(row, lines[1..], n - 1);
    }
  }

  /** After the first failing line nothing more is written. */
  lemma WrittenStops(row: string -> Result<string>, lines: seq<string>, n: nat)
    requires n < |lines| && Written(row, lines[..n]).1 == None && row(lines[n]).Err?
    ensures Written(row, lines) == (Written(row, lines[..n]).0, Some(row(lines[n]).error))
  {
    WrittenSnoc(row, lines, n);
    WrittenAfterError(row, lines, n + 1);
  }

  /** The rows of lines that all succeed. */
  function Rows(row: string -> Result<string>, lines: seq<string>): seq<string>
    requires forall k :: 0 <= k < |lines| ==> row(lines[k]).Ok?
  {
    seq(|lines|, k requires 0 <= k < |lines| => row(lines[k]).value)
  }

  /**
   * All lines succeed exactly when each of them does, and then the output is every line's
   * row, in order.
   */
  lemma {:induction false} WrittenAllOk(row: string -> Result<string>, lines: seq<string>)
    ensures Written(row, lines).1.None? <==> forall k :: 0 <= k < |lines| ==> row(lines[k]).Ok?
    ensures Written(row, lines).1.None? ==> Written(row, lines).0 == Concat(Rows(row, lines))
    decreases |lines|
  {
    if lines != [] {
      WrittenAllOk(row, lines[1..]);
      assert forall k :: 1 <= k < |lines| ==> lines[1..][k - 1] == lines[k];
      if Written(row, lines).1.None? {
        assert Rows(row, lines)[1..] == Rows(row, lines[1..]);
      }
    }
  }

  /** An unknown mode fails with exit status 1 and leaves every file as it was. */
  lemma UnknownModeTouchesNothing(files: map<string, string>, nlp: SpacyPipeline, a: Args)
    requires a.mode != "train" && a.mode != "inference" && a.mode != "spacy"
    ensures RunEffect(files, nlp, a) == (files, Err(Exit(1)))
  {
  }

  /**
   * A run that succeeds writes, to the output path, the row of every input line in order
   * (an input that is the output itself reads as empty), reports the number of lines, and
   * changes no other file.
   */
  lemma RunWithOk(files: map<string, string>, row: string -> Result<string>, out: string, input: string)
    requires RunWith(files, row, out, input).1.Ok?
    ensures input in files || input == out
    ensures var lines := Lines(if input == out then "" else files[input]);
      && RunWith(files, row, out, input).1 == Ok(|lines|)
      && (forall k :: 0 <= k < |lines| ==> row(lines[k]).Ok?)
      && RunWith(files, row, out, input).0 == files[out := Concat(Rows(row, lines))]
  {
    WrittenAllOk(row, Lines(if input == out then "" else files[input]));
  }

  /** A run that fails keeps the rows of the lines before the failing one, and fails with its error. */
  lemma RunWithErr(files: map<string, string>, row: string -> Result<string>, out: string, input: string) returns (n: nat)
    requires input in files && input != out
    requires RunWith(files, row, out, input).1.Err?
    ensures n < |Lines(files[input])|
    ensures forall k :: 0 <= k < n ==> row(Lines(files[input])[k]).Ok?
    ensures row(Lines(files[input])[n]).Err?
    ensures RunWith(files, row, out, input) ==
      (files[out := Concat(Rows(row, Lines(files[input])[..n]))], Err(row(Lines(files[input])[n]).error))
  {
    var lines := Lines(files[input]);
    assert Written(row, lines).1.Some?;
    n := FirstFailure(row, lines);
    var init := lines[..n];
    assert forall k :: 0 <= k < n ==> init[k] == lines[k];
    WrittenAllOk(row, init);
    WrittenStops(row, lines, n);
  }

  /** The index of the first failing line, when some line fails. */
  function FirstFailure(row: string -> Result<string>, lines: seq<string>): (n: nat)
    requires Written(row, lines).1.Some?
    ensures n < |lines| && row(lines[n]).Err? && forall k :: 0 <= k < n ==> row(lines[k]).Ok?
  {
    if row(lines[0]).Err? then 0
    else
      var n := FirstFailure(row, lines[1..]);
      assert forall k :: 1 <= k <= n ==> lines[1..][k - 1] == lines[k];
      n + 1
  }

  /**
   * One more file of the batch: its run's files and, on failure, its error (the rest of the
   * batch is then skipped), or its name appended to the processed ones.
   */
  lemma BatchStep(files: map<string, string>, run: FileRun, batch: seq<string>, i: nat,
                  before: map<string, string>, result: seq<string>, after: map<string, string>, res: Result<nat>)
    requires i < |batch|
    requires BatchEffect(files, run, batch[..i]) == (before, Ok(result))
    requires run(before, batch[i]) == (after, res)
    ensures res.Err? ==> BatchEffect(files, run, batch) == (after, Err(res.error))
    ensures res.Ok? ==> BatchEffect(files, run, batch[..i + 1]) == (after, Ok(result + [batch[i]]))
  {
    assert batch[..i + 1][..i] == batch[..i];
    if res.Err? {
      BatchStops(files, run, batch, i + 1);
    }
  }

  /** Once a prefix of the batch fails, the whole batch ends as that prefix did. */
  lemma {:induction false} BatchStops(files: map<string, string>, run: FileRun, batch: seq<string>, n: nat)
    requires n <= |batch| && BatchEffect(files, run, batch[..n]).1.Err?
    ensures BatchEffect(files, run, batch) == BatchEffect(files, run, batch[..n])
    decreases |batch|
  {
    if n == |batch| {
      assert batch[..n] == batch;
    } else {
      var init := batch[..|batch| - 1];
      assert init[..n] == batch[..n];
      BatchStops(files, run, init, n);
    }
  }

  /** A batch that succeeds returns exactly the batch's file names, in order. */
  lemma {:induction false} BatchReturnsFiles(files: map<string, string>, run: FileRun, batch: seq<string>)
    requires BatchEffect(files, run, batch).1.Ok?
    ensures BatchEffect(files, run, batch).1.value == batch
    decreases |batch|
  {
    if batch != [] {
      var init := batch[..|batch| - 1];
      var before := BatchEffect(files, run, init);
      assert before.1.Ok?;
      BatchReturnsFiles(files, run, init);
      assert batch == init + [batch[|batch| - 1]];
    }
  }

  /** The path run_tokenizer writes for a file of the batch: output/<basename of the file>. */
  function BatchOutput(a: Args, fileName: string): string {
    JoinPath(a.output, Basename(fileName))
  }

  /** A batch step that changes no file but `out` of its input file. */
  ghost predicate WritesOnlyOutput(run: FileRun, out: string -> string)
  {
    forall files: map<string, string>, fileName: string, p: string {:trigger run(files, fileName).0[p]} ::
      p in files && p != out(fileName) ==> p in run(files, fileName).0 && run(files, fileName).0[p] == files[p]
  }

  /** run_tokenizer writes no file but its output path. */
  lemma RunEffectFrame(files: map<string, string>, nlp: SpacyPipeline, a: Args, p: string)
    requires p in files && p != OutputPath(a)
    ensures p in RunEffect(files, nlp, a).0 && RunEffect(files, nlp, a).0[p] == files[p]
  {
    var r := RunEffect(files, nlp, a);
    if GetTokenizerInstance(a.mode, nlp).Some? {
      var t := GetTokenizerInstance(a.mode, nlp).value;
      assert r == RunWith(files, LineRow(t, Options(a)), OutputPath(a), a.inputFilePath);
      assert r.0 == files[OutputPath(a) := r.0[OutputPath(a)]];
    }
  }

  /** run_tokenizer, as run calls it, writes no file but output/<basename> of its input. */
  lemma RunnerWritesOnlyOutput(nlp: SpacyPipeline, a: Args)
    ensures WritesOnlyOutput(Runner(nlp, a), f => BatchOutput(a, f))
  {
    forall files: map<string, string>, fileName: string, p: string | p in files && p != BatchOutput(a, fileName)
      ensures p in Runner(nlp, a)(files, fileName).0 && Runner(nlp, a)(files, fileName).0[p] == files[p]
    {
      RunEffectFrame(files, nlp, FileArgs(a, fileName), p);
    }
  }

  /** run writes only to the outputs of the batch's files: every other file is unchanged. */
  lemma {:induction false} BatchTouchesOnlyOutputs(files: map<string, string>, run: FileRun, out: string -> string,
                                                   batch: seq<string>, p: string)
    requires WritesOnlyOutput(run, out)
    requires p in files
    requires forall i :: 0 <= i < |batch| ==> p != out(batch[i])
    ensures p in BatchEffect(files, run, batch).0 && BatchEffect(files, run, batch).0[p] == files[p]
    decreases |batch|
  {
    if batch == [] {
      assert BatchEffect(files, run, batch).0 == files;
    } else {
      var init := batch[..|batch| - 1];
      BatchTouchesOnlyOutputs(files, run, out, init, p);
      var before := BatchEffect(files, run, init);
      if before.1.Err? {
        assert BatchEffect(files, run, batch) == before;
      } else {
        var last := batch[|batch| - 1];
        WritesOnlyOutputAt(run, out, before.0, last, p);
        assert BatchEffect(files, run, batch).0 == run(before.0, last).0;
      }
    }
  }

  lemma WritesOnlyOutputAt(run: FileRun, out: string -> string, files: map<string, string>, fileName: string, p: string)
    requires WritesOnlyOutput(run, out)
    requires p in files && p != out(fileName)
    ensures p in run(files, fileName).0 && run(files, fileName).0[p] == files[p]
  {
  }
}
