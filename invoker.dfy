/**
 * The module invoker: it turns an argument list back into one command line,
 * shell-quoting each argument (for `--key=value` options only the value), and
 * runs that command, exiting with its status.
 *
 * `shlex.quote` and the process launch are not modelled: they are the
 * parameters `shq` and `spawn`.
 */
module Invoker {
  import opened Wrappers
  import opened PyStr

  const InvokerVersion: string := "0.0.5"

  // ---------------------------------------------------------------------------
  // Official modules

  /** `python -m azureml.studio.…`: a built-in module rather than a custom one. */
  predicate IsInvokingOfficialModule(args: seq<string>) {
    |args| >= 3 && args[0] == "python" && args[1] == "-m" && OccursAt(args[2], "azureml.studio.", 0)
  }

  /** Only the first three arguments decide whether a module is official. */
  lemma OfficialDependsOnHead(args: seq<string>, more: seq<string>)
    requires |args| >= 3
    ensures IsInvokingOfficialModule(args + more) <==> IsInvokingOfficialModule(args)
  {
    assert (args + more)[..3] == args[..3];
    assert (args + more)[0] == args[0] && (args + more)[1] == args[1] && (args + more)[2] == args[2];
  }

  /** The prefix must be followed by its dot, and the interpreter must be called `python` exactly. */
  lemma OfficialExamples()
    ensures IsInvokingOfficialModule(["python", "-m", "azureml.studio.modulehost.module_invoker", "--x=1"])
    ensures !IsInvokingOfficialModule(["python", "-m", "azureml.studio"])
    ensures !IsInvokingOfficialModule(["python3", "-m", "azureml.studio.modulehost"])
    ensures !IsInvokingOfficialModule(["python", "-m"])
  {
    assert "azureml.studio.modulehost.module_invoker"[..15] == "azureml.studio.";
  }

  // ---------------------------------------------------------------------------
  // The option pattern `^--(\w|-)+=([\n]|.)+` with re.MULTILINE

  /** `\w`, read as the ASCII word characters. */
  predicate IsWordChar(c: char) {
    'a' <= c <= 'z' || 'A' <= c <= 'Z' || '0' <= c <= '9' || c == '_'
  }

  /** `(\w|-)`: a character of an option's key. */
  predicate IsKeyChar(c: char) {
    IsWordChar(c) || c == '-'
  }

  /** Where the run of key characters that starts at `i` ends. */
  function KeyEnd(s: string, i: nat): (j: nat)
    requires i <= |s|
    ensures i <= j <= |s|
    ensures forall k :: i <= k < j ==> IsKeyChar(s[k])
    ensures j < |s| ==> !IsKeyChar(s[j])
    decreases |s| - i
  {
    if i < |s| && IsKeyChar(s[i]) then KeyEnd(s, i + 1) else i
  }

  /**
   * The pattern read literally at position `p`: a line start, `--`, one or more
   * key characters, `=`, then at least one character of any kind (`[\n]|.`).
   */
  ghost predicate MatchesAt(s: string, p: int) {
    0 <= p <= |s| && (p == 0 || s[p - 1] == '\n') &&
    exists j :: p + 2 < j && j + 1 < |s| && s[j] == '=' && s[p] == '-' && s[p + 1] == '-' &&
      forall k :: p + 2 <= k < j ==> IsKeyChar(s[k])
  }

  /** The pattern at `p`, decided: no key character is '=', so the key ends at the first other character. */
  predicate OptionAt(s: string, p: nat) {
    p <= |s| && (p == 0 || s[p - 1] == '\n') && p + 2 <= |s| && s[p] == '-' && s[p + 1] == '-' &&
    var j := KeyEnd(s, p + 2);
    p + 2 < j && j + 1 < |s| && s[j] == '='
  }

  lemma OptionAtIsMatch(s: string, p: nat)
    ensures OptionAt(s, p) <==> MatchesAt(s, p)
  {
    if MatchesAt(s, p) {
      var j :| p + 2 < j && j + 1 < |s| && s[j] == '=' && s[p] == '-' && s[p + 1] == '-' &&
        forall k :: p + 2 <= k < j ==> IsKeyChar(s[k]);
      assert KeyEnd(s, p + 2) == j;
    }
    if OptionAt(s, p) {
      var j := KeyEnd(s, p + 2);
      assert p + 2 < j && j + 1 < |s| && s[j] == '=';
    }
  }

  /** re.search: the first position, scanning from `p`, where the pattern matches. */
  function SearchFrom(s: string, p: nat): (r: Option<nat>)
    requires p <= |s|
    ensures r.Some? ==> p <= r.value <= |s| && OptionAt(s, r.value)
    ensures forall q: nat :: p <= q && (r.None? || q < r.value) ==> !OptionAt(s, q)
    decreases |s| - p
  {
    if OptionAt(s, p) then Some(p)
    else if p == |s| then None
    else SearchFrom(s, p + 1)
  }

  /** The '=' an option match ends its key with is an '=' of the argument. */
  lemma OptionHasEquals(s: string, p: nat)
    requires OptionAt(s, p)
    ensures '=' in s
  {
    assert s[KeyEnd(s, p + 2)] == '=';
  }

  // ---------------------------------------------------------------------------
  // quote and generate_run_command

  /**
   * `quote` as written: when the pattern matches on ANY line of the argument,
   * the argument is split at its first '=' and only the part after it is quoted.
   */
  function QuoteAsWritten(arg: string, shq: string -> string): string {
    match SearchFrom(arg, 0)
    case Some(p) =>
      OptionHasEquals(arg, p);
      var e := IndexOf(arg, '=');
      arg[..e] + "=" + shq(arg[e + 1..])
    case None => shq(arg)
  }

  /**
   * `quote` with the pattern anchored at the start of the argument: an argument
   * `--key=value` keeps `--key=` and has its value quoted, any other argument is
   * quoted whole.
   */
  function Quote(arg: string, shq: string -> string): string {
    if OptionAt(arg, 0) then
      OptionHasEquals(arg, 0);
      var e := IndexOf(arg, '=');
      arg[..e] + "=" + shq(arg[e + 1..])
    else shq(arg)
  }

  /** On a line that is not the first, a match leaves whatever precedes the first '=' unquoted. */
  lemma QuoteAsWrittenSplitsArgument(shq: string -> string)
    ensures QuoteAsWritten("a b=c\n--k=v", shq) == "a b=" + shq("c\n--k=v")
  {
    var s := "a b=c\n--k=v";
    SearchExample(s);
    FirstEqualsExample(s);
  }

  lemma FirstEqualsExample(s: string)
    requires s == "a b=c\n--k=v"
    ensures IndexOf(s, '=') == 3 && s[..3] == "a b" && s[4..] == "c\n--k=v"
  {
    assert s[..3] == "a b";
    assert s[4..] == "c\n--k=v";
    assert s[0] != '=' && s[1] != '=' && s[2] != '=' && s[3] == '=';
  }

  /** The anchored pattern quotes the same argument whole. */
  lemma QuoteKeepsMultilineArgumentWhole(shq: string -> string)
    ensures Quote("a b=c\n--k=v", shq) == shq("a b=c\n--k=v")
  {
    SearchExample("a b=c\n--k=v");
  }

  /** The pattern first matches at the start of the second line. */
  lemma SearchExample(s: string)
    requires s == "a b=c\n--k=v"
    ensures SearchFrom(s, 0) == Some(6) && !OptionAt(s, 0)
  {
    assert KeyEnd(s, 8) == 9;
    assert OptionAt(s, 6);
    assert !OptionAt(s, 0) && !OptionAt(s, 1) && !OptionAt(s, 2) && !OptionAt(s, 3);
    assert !OptionAt(s, 4) && !OptionAt(s, 5);
  }

  /** An option `--key=value` keeps `--key=` verbatim and quotes exactly its value. */
  lemma QuoteOption(arg: string, shq: string -> string, key: string, value: string)
    requires arg == "--" + key + "=" + value
    requires key != [] && forall k :: 0 <= k < |key| ==> IsKeyChar(key[k])
    requires value != []
    ensures Quote(arg, shq) == "--" + key + "=" + shq(value)
    ensures QuoteAsWritten(arg, shq) == "--" + key + "=" + shq(value)
  {
    var e := 2 + |key|;
    forall k | 2 <= k < e
      ensures IsKeyChar(arg[k])
    {
      assert arg[k] == key[k - 2];
    }
    assert arg[e] == '=';
    assert KeyEnd(arg, 2) == e;
    assert OptionAt(arg, 0);
    assert '=' !in arg[..e] by {
      forall k | 0 <= k < e
        ensures arg[..e][k] != '='
      {
        if k >= 2 { assert IsKeyChar(arg[k]); }
      }
    }
    assert IndexOf(arg, '=') == e;
    assert arg[..e] == "--" + key;
    assert arg[e + 1..] == value;
    QuoteAgrees(arg, shq);
  }

  /** As written: an argument the pattern matches on no line is quoted whole. */
  lemma QuoteNonOption(arg: string, shq: string -> string)
    requires forall p :: 0 <= p <= |arg| ==> !MatchesAt(arg, p)
    ensures QuoteAsWritten(arg, shq) == shq(arg)
  {
    if SearchFrom(arg, 0).Some? {
      OptionAtIsMatch(arg, SearchFrom(arg, 0).value);
    }
  }

  /**
   * As written: when the pattern matches on some line, the argument is cut at its first '='
   * (which need not be on that line) and only what follows it is quoted.
   */
  lemma QuoteMatchedOnSomeLine(arg: string, shq: string -> string, p: nat)
    requires p <= |arg| && MatchesAt(arg, p)
    ensures '=' in arg
    ensures QuoteAsWritten(arg, shq) == arg[..IndexOf(arg, '=')] + "=" + shq(arg[IndexOf(arg, '=') + 1..])
  {
    OptionAtIsMatch(arg, p);
    var r := SearchFrom(arg, 0);
    assert r.Some?;
    OptionHasEquals(arg, r.value);
  }

  /** The corrected quote: an argument that does not itself start with `--key=` is quoted whole. */
  lemma QuoteAnchored(arg: string, shq: string -> string)
    requires !MatchesAt(arg, 0)
    ensures Quote(arg, shq) == shq(arg)
  {
    OptionAtIsMatch(arg, 0);
  }

  /**
   * The two readings agree on an argument that starts with an option, and on an argument
   * of one line: they differ only where a later line starts with `--key=`.
   */
  lemma QuoteAgrees(arg: string, shq: string -> string)
    requires OptionAt(arg, 0) || '\n' !in arg
    ensures QuoteAsWritten(arg, shq) == Quote(arg, shq)
  {
    if !OptionAt(arg, 0) {
      assert SearchFrom(arg, 0).None?;
    }
  }

  /** The characters `shlex.quote` leaves unquoted: ASCII word characters and `@%+=:,./-`. */
  predicate IsShellSafe(c: char) {
    IsWordChar(c) || c in {'@', '%', '+', '=', ':', ',', '.', '/', '-'}
  }

  predicate ShellSafe(s: string) {
    forall i :: 0 <= i < |s| ==> IsShellSafe(s[i])
  }

  /** `shq` behaves like `shlex.quote` on text that needs no quoting: it returns it unchanged. */
  ghost predicate KeepsSafeText(shq: string -> string) {
    forall x {:trigger shq(x)} :: x != "" && ShellSafe(x) ==> shq(x) == x
  }

  /** Non-empty text made of safe characters comes out of quote unchanged. */
  lemma QuoteSafe(arg: string, shq: string -> string)
    requires KeepsSafeText(shq)
    requires arg != "" && ShellSafe(arg)
    ensures Quote(arg, shq) == arg
    ensures QuoteAsWritten(arg, shq) == arg
  {
    assert '\n' !in arg;
    QuoteAgrees(arg, shq);
    if OptionAt(arg, 0) {
      OptionHasEquals(arg, 0);
      var e := IndexOf(arg, '=');
      var j := KeyEnd(arg, 2);
      assert e == j by {
        assert arg[j] == '=';
      }
      var value := arg[e + 1..];
      assert ShellSafe(value) by {
        forall i | 0 <= i < |value| ensures IsShellSafe(value[i]) {
          assert value[i] == arg[e + 1 + i];
        }
      }
      assert shq(value) == value;
      assert arg[..e] + "=" + value == arg;
    }
  }

  /** Each argument quoted by `quote` as written, in the original order. */
  function QuoteAll(args: seq<string>, shq: string -> string): (r: seq<string>)
    ensures |r| == |args|
    ensures forall i :: 0 <= i < |args| ==> r[i] == QuoteAsWritten(args[i], shq)
  {
    if args == [] then [] else [QuoteAsWritten(args[0], shq)] + QuoteAll(args[1..], shq)
  }

  /** generate_run_command: the quoted arguments joined by single spaces. */
  function GenerateRunCommand(args: seq<string>, shq: string -> string): string {
    Join(QuoteAll(args, shq), " ")
  }

  lemma {:induction false} JoinAppend(a: seq<string>, b: seq<string>, sep: string)
    requires a != [] && b != []
    ensures Join(a + b, sep) == Join(a, sep) + sep + Join(b, sep)
    decreases |a|
  {
    if |a| == 1 {
      assert (a + b)[1..] == b;
    } else {
      assert (a + b)[1..] == a[1..] + b;
      JoinAppend(a[1..], b, sep);
    }
  }

  /** The command for `a + b` is the command for `a`, a space, and the command for `b`. */
  lemma GenerateRunCommandAppend(a: seq<string>, b: seq<string>, shq: string -> string)
    requires a != [] && b != []
    ensures GenerateRunCommand(a + b, shq) == GenerateRunCommand(a, shq) + " " + GenerateRunCommand(b, shq)
  {
    assert QuoteAll(a + b, shq) == QuoteAll(a, shq) + QuoteAll(b, shq);
    JoinAppend(QuoteAll(a, shq), QuoteAll(b, shq), " ");
  }

  lemma GenerateRunCommandSmall(arg: string, shq: string -> string)
    ensures GenerateRunCommand([], shq) == ""
    ensures GenerateRunCommand([arg], shq) == QuoteAsWritten(arg, shq)
  {
  }

  /** The command for the multi-line argument of the finding holds "a b=" unquoted. */
  lemma GenerateRunCommandSplitsArgument(shq: string -> string)
    ensures GenerateRunCommand(["a b=c\n--k=v"], shq) == "a b=" + shq("c\n--k=v")
  {
    QuoteAsWrittenSplitsArgument(shq);
  }

  /**
   * Arguments that need no quoting give the command they spell, and splitting
   * that command at its spaces gives the arguments back.
   */
  lemma GenerateRunCommandSafe(args: seq<string>, shq: string -> string)
    requires KeepsSafeText(shq)
    requires forall i :: 0 <= i < |args| ==> args[i] != "" && ShellSafe(args[i])
    ensures GenerateRunCommand(args, shq) == Join(args, " ")
    ensures args != [] ==> Split(GenerateRunCommand(args, shq), " ") == args
  {
    QuoteAllSafe(args, shq);
    if args != [] {
      forall k | 0 <= k < |args|
        ensures ' ' !in args[k]
      {
        SafeHasNoSpace(args[k]);
      }
      SplitJoin(args, ' ');
    }
  }

  lemma QuoteAllSafe(args: seq<string>, shq: string -> string)
    requires KeepsSafeText(shq)
    requires forall i :: 0 <= i < |args| ==> args[i] != "" && ShellSafe(args[i])
    ensures QuoteAll(args, shq) == args
  {
    forall i | 0 <= i < |args|
      ensures QuoteAll(args, shq)[i] == args[i]
    {
      QuoteSafe(args[i], shq);
    }
  }

  lemma SafeHasNoSpace(s: string)
    requires ShellSafe(s)
    ensures ' ' !in s
  {
  }

  // ---------------------------------------------------------------------------
  // run and execute

  /** run: an empty command launches nothing and gives None; otherwise the launched process's status. */
  function Run(command: string, spawn: string -> int): (r: Option<int>)
    ensures r.None? <==> command == ""
    ensures r.Some? ==> r.value == spawn(command)
  {
    if command == "" then None else Some(spawn(command))
  }

  /** The line printed before the command runs. */
  function Banner(args: seq<string>): string {
    "Invoking " + (if IsInvokingOfficialModule(args) then "official module" else "custom module")
    + " by invoker " + InvokerVersion + "."
  }

  /** `exit(ret)`: exit(None) ends with status 0. */
  function ExitStatus(ret: Option<int>): int {
    if ret.Some? then ret.value else 0
  }

  /** execute: the banner it prints and the status the program ends with. */
  function Execute(args: seq<string>, shq: string -> string, spawn: string -> int): (string, int) {
    (Banner(args), ExitStatus(Run(GenerateRunCommand(args, shq), spawn)))
  }

  /** With no arguments nothing is launched: whatever the launcher would do, the status is 0. */
  lemma ExecuteNoArgs(shq: string -> string, spawn: string -> int)
    ensures Run(GenerateRunCommand([], shq), spawn) == None
    ensures Execute([], shq, spawn) == ("Invoking custom module by invoker 0.0.5.", 0)
  {
    assert QuoteAll([], shq) == [];
    assert Banner([]) == "Invoking custom module by invoker 0.0.5.";
  }

  /** With a non-empty command the program ends with the launched process's status. */
  lemma ExecuteRunsCommand(args: seq<string>, shq: string -> string, spawn: string -> int)
    requires |args| >= 2 || (|args| == 1 && QuoteAsWritten(args[0], shq) != "")
    ensures Execute(args, shq, spawn).1 == spawn(GenerateRunCommand(args, shq))
  {
    if |args| >= 2 {
      GenerateRunCommandAppend(args[..1], args[1..], shq);
      assert args[..1] + args[1..] == args;
      var cmd := GenerateRunCommand(args, shq);
      assert cmd[|GenerateRunCommand(args[..1], shq)|] == ' ';
    } else {
      assert QuoteAll(args, shq) == [QuoteAsWritten(args[0], shq)];
    }
    assert GenerateRunCommand(args, shq) != "";
  }
}
