/** The bounds on what the parser holds, and the report that one was crossed. */
module Limits {
  datatype Limits = Limits(maxLineBytes: nat, maxEventBytes: nat)

  datatype Overflow =
    | Line(max: nat)
    | Event(max: nat)
}
