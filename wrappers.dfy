/** Small result types shared by the record-keeping model. */
module Wrappers {

  datatype Option<+T> = None | Some(value: T)

  /** The outcome of a workflow that re-prompts until its input is acceptable.
      `Done(value)` is what the workflow returned; `Waiting` means the modelled
      console input ran out while the workflow was still asking again (the
      program itself would block on the next `input()` forever). */
  datatype Prompted<+T> = Done(value: T) | Waiting
}
