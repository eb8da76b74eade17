/** Parameter validation of the auto-crop: `_validate_input`. */
module Validator {
  import opened Outcomes

  /**
   * The Python value passed as `margin`. `bool` is a subclass of `int`, so
   * `isinstance(True, int)` holds; every other type (float, str, None, numpy
   * integers) is not an `int`.
   */
  datatype MarginArg = IntArg(n: int) | BoolArg(b: bool) | OtherArg

  /**
   * `_validate_input`: the input must be an existing file, the output's parent
   * directory must exist when an output path is given, and the margin must be a
   * non-negative int. The checks run in that order; on success the margin's
   * integer value is returned. The two file-system answers are inputs.
   */
  function Validate(inputIsFile: bool, outputPath: Option<string>, outputDirExists: bool, margin: MarginArg): (r: Outcome<nat>)
    ensures !inputIsFile ==> r == Raised(FileNotFoundError)
    ensures inputIsFile && outputPath.Some? && !outputDirExists ==> r == Raised(FileNotFoundError)
    ensures r.Raised? && inputIsFile && (outputPath.None? || outputDirExists) ==> r.error == ValueError
    ensures margin.OtherArg? ==> r.Raised?
    ensures margin.IntArg? && margin.n < 0 ==> r.Raised?
    ensures inputIsFile && (outputPath.None? || outputDirExists) ==>
      && (margin.IntArg? && margin.n >= 0 ==> r == Ok(margin.n))
      && (margin.BoolArg? ==> r == Ok(if margin.b then 1 else 0))
  {
    if !inputIsFile then Raised(FileNotFoundError)
    else if outputPath.Some? && !outputDirExists then Raised(FileNotFoundError)
    else
      match margin
      case IntArg(n) => if n < 0 then Raised(ValueError) else Ok(n)
      case BoolArg(b) => Ok(if b then 1 else 0)
      case OtherArg => Raised(ValueError)
  }
}
