/** Option and Outcome values standing in for nullable references and thrown exceptions. */
module Wrappers {

  datatype Option<+T> = None | Some(value: T)

  /** The failures the pipeline reports to its caller instead of throwing. */
  datatype Error =
    | FileNotFound      // Open on a path with no file behind it
    | VideoNotOpened    // SeekTo(frame) before Open

  datatype Outcome = Pass | Fail(error: Error)
}
