/** Failure-carrying results of the embed and extract paths. */
module Outcomes {

  /** Errors the embed and extract paths raise or report. */
  datatype StegoError =
    | LengthOverflow      // `int.to_bytes(4, 'big')` on a length of 2^32 or more (OverflowError)
    | ImageTooSmall       // the stream does not fit the carrier
    | NoChannels          // `int('', 2)` on an image without any channel value (ValueError)
    | MetadataUnreadable  // the metadata bytes are not UTF-8 JSON, or lack a field extraction reads:
                          // `size`, `type` or `original_name` (json error/KeyError)

  datatype Result<T> = Ok(value: T) | Err(error: StegoError)

  datatype Option<T> = None | Some(value: T)
}
