/** The `reqidstatus` codes of the releases table (the class constants of ReqIDLocal). */
module Status {
  /** Rechecked on the web a second time without a title; not processed again. */
  const REQID_OLD: int := -4
  /** The request ID was found neither locally nor by web lookup. */
  const REQID_NONE: int := -3
  /** The request ID was 0; also the extractor's "no request ID" sentinel. */
  const REQID_ZERO: int := -2
  /** The request ID was not found by the local lookup. */
  const REQID_NOLL: int := -1
  /** The release has not been processed. */
  const REQID_UPROC: int := 0
  /** The request ID was found and the release was updated. */
  const REQID_FOUND: int := 1
}
