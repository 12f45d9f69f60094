/** Error taxonomy of the OTA library (src/error.rs) and the two wrapper
    datatypes every other module returns. */
module OtaErrors {

  datatype Option<+T> = None | Some(value: T)

  datatype Result<+T, +E> = Ok(value: T) | Err(error: E)

  /** The flash driver's own error type. The library treats it as opaque;
      the driver model only ever produces these two. */
  datatype FlashError = OutOfBounds | DeviceFault

  /** The partition-table crate's error: either the storage failed while the
      table was read, or the table itself could not be parsed. */
  datatype StorageOpError = StorageError(cause: FlashError) | PartitionTableError(code: nat)

  /** Errors of the metadata store and the partition lookup. */
  datatype InternalError =
    | OtaDataCorrupt
    | StorageOp(op: StorageOpError)
    | PartitionNotFound
    | PartitionFoundTwice

  /** Errors of an update; `R` is the image source's own error type. */
  datatype UpdateError<+R> =
    | PendingVerify
    | OutOfSpace
    | AlreadyUpdating
    | ReadError(readError: R)
    | Internal(internal: InternalError)

  /** Shorthand for a failed flash operation surfacing as an internal error. */
  function FlashFailure(e: FlashError): InternalError
  {
    StorageOp(StorageError(e))
  }
}
