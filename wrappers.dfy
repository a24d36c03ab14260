/** The optional value used for a transcription call that either returns text or fails. */
module Wrappers {

  datatype Option<+T> = None | Some(value: T)
}
