/** The JavaScript foreign functions of GleamyShell: `execute`, its helper
    `errorOutputToString`, and `cwd`.

    The host calls they wrap are parameters here. `child_process.execSync` is a
    function from the command string to a completion: either it returns the captured
    standard output buffer, or it throws an error object whose `stdout`, `stderr` and
    `status` fields may each be missing. `process.cwd()` is a completion that either
    returns a directory or throws. `Buffer.prototype.toString` is the parameter `text`. */
module GleamyShellFfi {
  import opened Wrappers
  import opened Strings

  newtype byte = x: int | 0 <= x < 256

  /** A Node.js `Buffer`: raw bytes captured from a child process stream. */
  type Buffer = seq<byte>

  /** How a host call ended: it returned a value, or it threw. */
  datatype Completion<+T, +X> = Normal(value: T) | Abrupt(thrown: X)

  /** The fields of the error that `execSync` throws that `execute` reads. For the two
      buffers, `None` is a field that is `null` or `undefined`, the case that the
      `!= null` tests of `errorOutputToString` skip. `status` is not tested: `execute`
      passes on the raw field, a number or `null`/`undefined`, and `Option<int>` stands
      for that nullable number (`None` for both `null` and `undefined`); it is not a
      Gleam `Option` value. */
  datatype ExecError = ExecError(stdout: Option<Buffer>, stderr: Option<Buffer>, status: Option<int>)

  /** What `execute` hands back to Gleam: `Ok(output)` or `Error(#(output, status))`,
      where `status` is the raw nullable number described at `ExecError`. */
  type ExecResult = Result<string, (string, Option<int>)>

  /** The one string given to `execSync`: the command, one space, then the arguments
      joined by single spaces. The separating space is always there. */
  function CommandLine(command: string, args: seq<string>): (line: string)
    ensures |line| > |command|
    ensures line[..|command| + 1] == command + " "
  {
    command + " " + Join(args, " ")
  }

  /** The text reported for a thrown error: the first present buffer among stdout and
      stderr, converted to text, and "" when neither is present. */
  function ErrorOutputToString(error: ExecError, text: Buffer -> string): (output: string)
    ensures output == match FirstPresent([error.stdout, error.stderr])
                      case Some(b) => text(b)
                      case None => ""
  {
    if error.stdout.Some? then text(error.stdout.value)
    else if error.stderr.Some? then text(error.stderr.value)
    else ""
  }

  /** Runs `execSync` on the command line built from `command` and `args`: a normal
      return is `Ok` with the output text, a throw is `Error` with the error's output
      text and its status as it was. */
  function Execute(command: string, args: seq<string>,
                   execSync: string -> Completion<Buffer, ExecError>,
                   text: Buffer -> string): (r: ExecResult)
    ensures r.Ok? <==> execSync(CommandLine(command, args)).Normal?
    ensures r.Ok? ==> r.value == text(execSync(CommandLine(command, args)).value)
    ensures r.Error? ==>
      var e := execSync(CommandLine(command, args)).thrown;
      r.error == (ErrorOutputToString(e, text), e.status)
  {
    var commandWithArgs := CommandLine(command, args);
    match execSync(commandWithArgs)
    case Normal(stdout) => Ok(text(stdout))
    case Abrupt(error) => Error((ErrorOutputToString(error, text), error.status))
  }

  /** `process.cwd()` wrapped so that it never throws: a returned directory is `Some`
      and unchanged, a throw of any kind is `None`. */
  function Cwd<X>(lookup: Completion<string, X>): (r: Option<string>)
    ensures r.Some? <==> lookup.Normal?
    ensures r.Some? ==> r.value == lookup.value
  {
    match lookup
    case Normal(dir) => Some(dir)
    case Abrupt(_) => None
  }

  // ----- The command line -----

  /** With no arguments the command line is the command followed by a trailing space. */
  lemma CommandLineNoArgs(command: string)
    ensures CommandLine(command, []) == command + " "
  {
  }

  /** Argument `i` stands verbatim right after the command and its space, at the
      position `Join` assigns it, and exactly one space follows it unless it is last,
      in which case the command line ends with it. */
  lemma CommandLineAt(command: string, args: seq<string>, i: nat)
    requires i < |args|
    ensures var start := |command| + 1 + Offset(args, " ", i);
      && start + |args[i]| <= |CommandLine(command, args)|
      && CommandLine(command, args)[start..start + |args[i]|] == args[i]
      && (i + 1 < |args| ==>
            start + |args[i]| < |CommandLine(command, args)| &&
            CommandLine(command, args)[start + |args[i]|] == ' ')
      && (i + 1 == |args| ==> |CommandLine(command, args)| == start + |args[i]|)
  {
    var line := CommandLine(command, args);
    var joined := Join(args, " ");
    var start := |command| + 1 + Offset(args, " ", i);
    JoinAt(args, " ", i);
    assert line[|command| + 1..] == joined;
    assert line[start..start + |args[i]|] == joined[Offset(args, " ", i)..Offset(args, " ", i) + |args[i]|];
    if i + 1 < |args| {
      assert line[start + |args[i]|] == joined[Offset(args, " ", i) + |args[i]|];
    }
  }

  /** The space-separated words of the command line are the command and then the
      arguments in their given order (or one empty word when there are none), provided
      no argument and not the command itself contains a space. */
  lemma CommandLineWords(command: string, args: seq<string>)
    requires ' ' !in command
    requires forall i | 0 <= i < |args| :: ' ' !in args[i]
    ensures Split(CommandLine(command, args), ' ') == [command] + (if args == [] then [""] else args)
  {
    SplitCons(command, Join(args, " "), ' ');
    if args == [] {
    } else {
      SplitJoin(args, ' ');
    }
  }

  /** No quoting is added: an argument that contains a space gives the same command
      line as the two arguments on either side of that space. */
  lemma CommandLineNoQuoting(command: string, before: string, after: string, rest: seq<string>)
    ensures CommandLine(command, [before + " " + after] + rest) == CommandLine(command, [before, after] + rest)
  {
    var word := before + " " + after;
    assert ([before, after] + rest)[1..] == [after] + rest;
    if rest == [] {
      assert [word] + rest == [word] && [before, after] + rest == [before, after];
      assert Join([before, after], " ") == word;
    } else {
      assert ([after] + rest)[1..] == rest;
      assert ([word] + rest)[1..] == rest;
      assert Join([before, after] + rest, " ") == before + " " + (after + " " + Join(rest, " "));
      assert Join([word] + rest, " ") == word + " " + Join(rest, " ");
    }
  }

  /** No arguments and one empty argument give the same command line: both end in
      the command and one space. */
  lemma CommandLineEmptyArgument(command: string)
    ensures CommandLine(command, []) == CommandLine(command, [""])
  {
  }

  // ----- Error output -----

  /** A present stdout buffer decides the output, even an empty one, whatever stderr holds. */
  lemma StdoutWins(error: ExecError, text: Buffer -> string, otherStderr: Option<Buffer>)
    requires error.stdout.Some?
    ensures ErrorOutputToString(error.(stderr := otherStderr), text) == text(error.stdout.value)
  {
  }

  /** stderr is the fallback: with stdout absent, a present stderr gives the output.
      (With stdout present, StdoutWins shows stderr is never consulted.) */
  lemma StderrFallback(error: ExecError, text: Buffer -> string)
    requires error.stdout.None? && error.stderr.Some?
    ensures ErrorOutputToString(error, text) == text(error.stderr.value)
  {
  }

  /** The output is always a defined string: "" when neither buffer is present. */
  lemma ErrorOutputTotal(error: ExecError, text: Buffer -> string)
    requires error.stdout.None? && error.stderr.None?
    ensures ErrorOutputToString(error, text) == ""
  {
  }

  // ----- Execute -----

  /** A normal return from `execSync` is `Ok` with the output text, never `Error`. */
  lemma ExecuteReturned(command: string, args: seq<string>,
                        execSync: string -> Completion<Buffer, ExecError>,
                        text: Buffer -> string, stdout: Buffer)
    requires execSync(CommandLine(command, args)) == Normal(stdout)
    ensures Execute(command, args, execSync, text) == Ok(text(stdout))
  {
  }

  /** A throw from `execSync` is `Error`, carrying the error output and the thrown
      status unchanged, absent or not. */
  lemma ExecuteThrew(command: string, args: seq<string>,
                     execSync: string -> Completion<Buffer, ExecError>,
                     text: Buffer -> string, error: ExecError)
    requires execSync(CommandLine(command, args)) == Abrupt(error)
    ensures Execute(command, args, execSync, text) == Error((ErrorOutputToString(error, text), error.status))
  {
  }

  /** `execSync` is modelled as a function of the command line alone, so for the same
      host state, an argument holding a space gives the same result as the two
      arguments on either side of that space (by CommandLineNoQuoting). */
  lemma ExecuteSeesOnlyCommandLine(command: string, before: string, after: string, rest: seq<string>,
                                   execSync: string -> Completion<Buffer, ExecError>,
                                   text: Buffer -> string)
    ensures Execute(command, [before + " " + after] + rest, execSync, text)
         == Execute(command, [before, after] + rest, execSync, text)
  {
    CommandLineNoQuoting(command, before, after, rest);
  }

  // ----- Cwd -----

  /** The completion a lookup with the given answer would have had. */
  function CwdLookup(answer: Option<string>): (lookup: Completion<string, ()>)
  {
    match answer
    case Some(dir) => Normal(dir)
    case None => Abrupt(())
  }

  /** Every answer is reached: wrapping the lookup that has a given answer gives back
      that answer. */
  lemma CwdRoundTrip(answer: Option<string>)
    ensures Cwd(CwdLookup(answer)) == answer
  {
  }

  /** Cwd loses nothing but the thrown value: two lookups get the same answer exactly
      when both throw (whatever they throw) or both return the same directory. */
  lemma CwdSameAnswer<X>(a: Completion<string, X>, b: Completion<string, X>)
    ensures Cwd(a) == Cwd(b) <==> (a.Normal? <==> b.Normal?) && (a.Normal? ==> a.value == b.value)
  {
  }
}
