/** The values the download routine exchanges with the network, and its errors. */
module Http {
  import opened Wrappers

  /** The ways a download can fail; each I/O step of the routine has its own. */
  datatype Error =
    | HeaderNotText                    // the header value is not visible ASCII
    | DispositionUnparsable(header: string)
    | NoFilenameInUrl
    | SendFailed
    | OpenFailed(name: string)
    | ReadFailed
    | WriteFailed(name: string)
    | FlushFailed(name: string)

  /**
    An HTTP response as far as the download routine looks at it: the raw
    `content-disposition` value, the path segments of the response URL
    (None for a URL that cannot be a base, such as `mailto:`), the
    `content-length` and whether an `accept-ranges` header is present.
   */
  datatype Response = Response(
    disposition: Option<string>,
    pathSegments: Option<seq<string>>,
    contentLength: Option<nat>,
    acceptRanges: bool)

  /** A byte of a file or of a response body. */
  newtype byte = b: int | 0 <= b < 256

  /** The local file system: file name to contents. */
  type FileSystem = map<string, seq<byte>>
}
