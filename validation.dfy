/** internal/validation: the positional-argument check. */
module Validation {
  import opened Wrappers

  datatype ArgsError = InvalidArgs

  /** `Validate`: no error exactly when there are two arguments, whatever they say. */
  function Validate(args: seq<string>): (err: Option<ArgsError>)
    ensures err.None? <==> |args| == 2
    ensures err.Some? ==> err.value == InvalidArgs
  {
    if |args| != 2 then Some(InvalidArgs) else None
  }

  /** The verdict depends on the number of arguments only. */
  lemma ValidateCountsOnly(args: seq<string>, args': seq<string>)
    requires |args| == |args'|
    ensures Validate(args) == Validate(args')
  {
  }
}
