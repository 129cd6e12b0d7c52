/** Small result types shared by the model. */
module Wrappers {

  /** Python's `None` or a present value. */
  datatype Option<+T> = None | Some(value: T)

  /** The two Python exceptions the report script can raise on its own data. */
  datatype Fault =
    | IndexError   // a list index past the end (`file_lines[0]`, `.split()[1]`)
    | KeyError     // a dictionary lookup of a missing key

  /** Either the value a computation produced, or the exception that aborted it. */
  datatype Outcome<+T> = Done(value: T) | Crash(fault: Fault)
}
