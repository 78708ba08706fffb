/** The error values of the atom space layer (atom/src/space/error.rs and the
    alignment errors built in atom/src/space/aligned.rs).

    Type identifiers, static URIs and raw pointers carried by the Rust errors are
    reduced to the numbers the model tracks: pointers become addresses, URIDs
    become their u32 values. */
module Errors {
  import opened Bytes

  datatype AlignmentError =
    | CannotComputeAlignment(ptr: nat)
    | UnalignedBuffer(ptr: nat)
    | NotEnoughSpaceToRealign(ptr: nat, availableSize: nat, requiredPadding: nat)

  datatype AtomWriteError =
    | OutOfSpace(used: nat, capacity: nat, requested: nat)
    | AllocatorOverflow
    | ResizeFailed
    | CannotUpdateAtomHeader
    | AtomAlreadyWritten
    | RewindError(available: nat, requested: nat)
    | WritingOutOfBounds(available: nat, requested: nat)
    | WritingIllegalState
    | WriteAlignment(alignment: AlignmentError)
    | WriteUnknown
      /** Not a Rust error value: the Rust code panics (a failed `expect`, an
          out-of-range slice index, an arithmetic overflow in a debug build) or
          reaches undefined behaviour at this point. */
    | Panic

  datatype AtomReadError =
    | InvalidAtomUrid(expectedUrid: u32, foundUrid: u32)
    | InvalidUrid(expectedUrid: u32, foundUrid: u32)
    | ReadingOutOfBounds(available: nat, requested: nat)
    | InvalidAtomValue
    | ReadAlignment(alignment: AlignmentError)
    | ReadUnknown
}
