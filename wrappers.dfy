/** Option and Result, shaped after Gleam's `Option` (Some/None) and `Result` (Ok/Error).
    `cwd` hands back a Gleam `Option` and `execute` a Gleam `Result`; elsewhere `Option`
    also stands for a JavaScript value that may be `null` or `undefined`. */
module Wrappers {

  datatype Option<+T> = None | Some(value: T)

  datatype Result<+T, +E> = Ok(value: T) | Error(error: E)

  /** Null-coalescing over a priority list: the first present value, if any.
      This is the reference meaning of a chain of `if (x != null) return x` checks. */
  function FirstPresent<T>(options: seq<Option<T>>): (r: Option<T>)
    ensures r.None? <==> forall i | 0 <= i < |options| :: options[i].None?
    ensures r.Some? ==>
      exists i | 0 <= i < |options| :: options[i] == r && forall j | 0 <= j < i :: options[j].None?
  {
    if |options| == 0 then None
    else if options[0].Some? then options[0]
    else
      var rest := FirstPresent(options[1..]);
      assert forall i | 1 <= i < |options| :: options[i] == options[1..][i - 1];
      rest
  }
}
