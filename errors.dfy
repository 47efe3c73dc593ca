/** Every way the transcoder, the command-line tool and the event handler can stop.
    A panic in the source (`unwrap`, `expect`, `unimplemented!`, a slice out of
    range) is one of these errors here, as is a propagated `Err`. */
module Errors {

  datatype Error =
    | UnsupportedChannels(channels: int)       // `unimplemented!()` on the channel count
    | UnsupportedBitDepth(bits: int)           // `unimplemented!()` on bits per sample (command line)
    | EncodeFailed                             // encoder builder or `encode_to_vec` failure
    | WriteFailed(path: string)                // `std::fs::write(..).unwrap()`
    | MissingArgument                          // `std::env::args().nth(1).unwrap()`
    | OpenFailed(path: string)                 // `File::open` of a missing file
    | HeaderInvalid                            // `WavReader::new` refused the container header
    | TransferFailed                           // the background body-stream task failed
    | MissingObjectRef                         // an event record without bucket name or key
    | FetchFailed(bucket: string, key: string) // `get_object().send()` failed
    | NoFileName(path: string)                 // `file_name().unwrap()` on a path without one
    | DuplicateEntry(name: string)             // `start_file` with a name already in the archive
    | UploadFailed                             // `put_object().send()` failed
}
