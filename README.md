# GleamyShell JavaScript foreign functions, modelled in Dafny

GleamyShell runs shell commands from Gleam. On the JavaScript target, its
`execute` and `cwd` functions are implemented in `src/gleamyshell_ffi.mjs`. This
project models that file:

- **`execute(command, args)`** flattens the command and its arguments into one
  command string. The string is the command, one space, then the arguments
  joined with single spaces. It passes that string to `child_process.execSync`.
  A normal return becomes `Ok(stdout text)`. A throw becomes
  `Error(#(output text, status))`.
- **`errorOutputToString(error)`** picks the text of a thrown error. It takes
  stdout if present, else stderr if present, else `""`.
- **`cwd()`** wraps `process.cwd()`. A returned directory becomes `Some(dir)`,
  and a throw becomes `None`.

The model is three modules of pure functions:

- `Wrappers` holds Gleam's `Option` and `Result`. It also holds `FirstPresent`,
  the reference meaning of a chain of null checks.
- `Strings` holds `Join`, the model of `Array.prototype.join` on strings. It also
  holds `Split`, its reference inverse, which splits a string at a separator
  character.
- `GleamyShellFfi` holds the three foreign functions. Their host calls are
  parameters:
  - `execSync` is a function from the command string to a `Completion`. It
    either returns a stdout `Buffer`, or it throws an `ExecError` whose
    `stdout`, `stderr` and `status` fields may each be absent. For the two
    buffers, `None` is a field that is `null` or `undefined`, the case that
    `errorOutputToString`'s `!= null` tests skip. `status` is never tested:
    `execute` passes the raw field on, a number or `null`/`undefined`.
    `Option<int>` stands for that nullable number, not for a Gleam `Option`
    value.
  - `Buffer.prototype.toString` is the parameter `text`.
  - `process.cwd()` is a `Completion` of a directory string.

Facts about this code that a reader might not expect:

- The command does not run as a literal argument vector. The code hands
  `execSync` one joined string, which a shell interprets, and adds no quoting
  or escaping. `CommandLineNoQuoting` and `ExecuteSeesOnlyCommandLine`
  show that an argument containing a space cannot be told apart from two
  arguments.
- A non-zero exit is not a normal completion that reports stderr.
  `execSync` throws on a non-zero exit, so the result is `Error`. That `Error` carries stdout whenever the thrown error has a stdout
  buffer, even an empty one. stderr is reported only when no stdout buffer is
  present (`StdoutWins`, `StderrFallback`).
- This file has no table of abort reasons, no platform classification and no
  executable lookup, so none of them is modelled.

## Model

| member | source | states |
|---|---|---|
| `Wrappers.FirstPresent` | src/gleamyshell_ffi.mjs:24-34 | the result is absent exactly when every option is absent; otherwise it is the option at some index before which every option is absent (first present value wins) |
| `Strings.Join` | src/gleamyshell_ffi.mjs:7 | an empty list joins to ""; otherwise the joined string ends exactly where the last part ends at its `Offset` (partners: `JoinAt` places every part, `SplitJoin` and `JoinSplit` invert it) |
| `Strings.Split` | src/gleamyshell_ffi.mjs:7 | reference inverse of joining: always at least one word, no word contains the separator, and a single word exactly when the string has no separator |
| `Strings.OffsetStep` | src/gleamyshell_ffi.mjs:7 | consecutive joined parts start the earlier part's length plus the separator's length apart |
| `Strings.JoinAt` | src/gleamyshell_ffi.mjs:7 | each part appears verbatim at its offset in the joined string, in list order; exactly one separator stands between neighbours; the string ends with the last part |
| `Strings.SplitJoin` | src/gleamyshell_ffi.mjs:7 | splitting the joined string gives back the parts, for any non-empty list of parts free of the separator |
| `Strings.JoinSplit` | src/gleamyshell_ffi.mjs:7 | joining the words of any string with the separator gives back the string |
| `GleamyShellFfi.CommandLine` | src/gleamyshell_ffi.mjs:7 | the command line always begins with the command followed by one space, and is longer than the command |
| `GleamyShellFfi.CommandLineNoArgs` | src/gleamyshell_ffi.mjs:7 | with no arguments the command line is the command plus a trailing space |
| `GleamyShellFfi.CommandLineAt` | src/gleamyshell_ffi.mjs:7 | argument i stands verbatim after the command and its space, one space follows it unless it is last, and the line ends with the last argument |
| `GleamyShellFfi.CommandLineEmptyArgument` | src/gleamyshell_ffi.mjs:7 | no arguments and one empty argument give the same command line |
| `GleamyShellFfi.CommandLineWords` | src/gleamyshell_ffi.mjs:7 | for a space-free command and arguments, the space-separated words are the command and then the arguments in order (one empty word if there are none) |
| `GleamyShellFfi.CommandLineNoQuoting` | src/gleamyshell_ffi.mjs:7 | no quoting: `[b + " " + a] + rest` and `[b, a] + rest` give the same command line |
| `GleamyShellFfi.ErrorOutputToString` | src/gleamyshell_ffi.mjs:24-34 | the output is the text of the first present buffer among stdout and stderr, or "" when neither is present |
| `GleamyShellFfi.StdoutWins` | src/gleamyshell_ffi.mjs:25-27 | a present stdout, even an empty one, is the output whatever stderr holds |
| `GleamyShellFfi.StderrFallback` | src/gleamyshell_ffi.mjs:29-31 | with stdout absent and stderr present, the output is stderr's text |
| `GleamyShellFfi.ErrorOutputTotal` | src/gleamyshell_ffi.mjs:33 | with both buffers absent the output is the defined string "" |
| `GleamyShellFfi.Execute` | src/gleamyshell_ffi.mjs:6-14 | `Ok` exactly when `execSync` returns on the built command line, carrying the stdout text; otherwise `Error` with the error output text and the thrown status |
| `GleamyShellFfi.ExecuteReturned` | src/gleamyshell_ffi.mjs:9-10 | a normal return from `execSync` is `Ok(text(stdout))` and never `Error` |
| `GleamyShellFfi.ExecuteThrew` | src/gleamyshell_ffi.mjs:11-12 | a throw is `Error` whose second component is the error's status unchanged, absent or not |
| `GleamyShellFfi.ExecuteSeesOnlyCommandLine` | src/gleamyshell_ffi.mjs:7-10 | for the same host state, an argument holding a space gives the same result as the two arguments around that space |
| `GleamyShellFfi.Cwd` | src/gleamyshell_ffi.mjs:16-22 | `Some` exactly when the lookup returns, carrying the directory unchanged; any throw is `None` |
| `GleamyShellFfi.CwdRoundTrip` | src/gleamyshell_ffi.mjs:16-22 | every answer is reached: the lookup that has a given answer is wrapped back to that answer |
| `GleamyShellFfi.CwdSameAnswer` | src/gleamyshell_ffi.mjs:16-22 | two lookups get the same answer exactly when both throw, whatever they throw, or both return the same directory |

## Left out

- `child_process.execSync` (src/gleamyshell_ffi.mjs:10): process spawning, blocking and shell interpretation are a foreign, I/O-bound call. The model takes it as the parameter `execSync`.
- `Buffer.prototype.toString` (src/gleamyshell_ffi.mjs:10, 26, 30): character decoding is a host conversion. The model takes it as the parameter `text`.
- `process.cwd()` (src/gleamyshell_ffi.mjs:18): a host query. The model keeps only whether it returns or throws.
- `setEnv` and `unsetEnv` (test/gleamyshell_test_ffi.mjs:3-13): test helpers whose only effect is a write to or delete from the host's environment table, which is external.
- `ExecError.status`: the model merges `null` and `undefined` into one `None`, while `execute` passes them on to Gleam as two different JavaScript values.
- The abort-reason table, platform classification, `which`/PowerShell executable lookup, environment read-back and the working-directory option: GleamyShell's wider documentation mentions them, but this file does not contain them.
