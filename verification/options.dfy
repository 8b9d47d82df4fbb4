/** The single failure-carrying result the model uses in place of the source's
    exceptions: `None` stands for "this call throws". */
module Options {

  datatype Option<+T> = None | Some(value: T)
  {
    /** Reads a successful result; a call that would have thrown reads as
        `fallback`, the way the safe cell read turns a failed lookup into
        the border value. */
    function GetOr(fallback: T): T
    {
      if Some? then value else fallback
    }
  }
}
