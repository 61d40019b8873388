/** Values that may be missing, and what a codec call reports. */
module Wrappers {
  datatype Option<+T> = None | Some(value: T)

  /** A count of what was written, or the error that left everything untouched. */
  datatype CodecResult =
    | Done(count: nat)
    | OutputTooSmall(needed: nat, have: nat)
    | BadFrameSize(expected: nat, got: nat)
    | Malformed
}
