/**
 * The fatal conditions of one extraction run. The extractor either panics or
 * returns an I/O error for each of them; both end the run, so the model keeps
 * a single failure outcome that names the stage and, where there is one, the
 * entry (its position in the table) at fault.
 */
module Errors {

  datatype Failure =
    | HeaderTruncated              // end of input inside the 60-byte header
    | IndexTruncated               // end of input inside the index table
    | FilenamesTruncated           // end of input inside the filename table
    | ZeroNameLength(entry: nat)   // a stored name length of 0 (the `- 1` underflows)
    | MalformedName(entry: nat)    // a stored name that is not well-formed UTF-8
    | EmptyPath(entry: nat)        // a name with no path components at all
    | PayloadTruncated(entry: nat) // the last chunk of a payload read short
    | PayloadStalled(entry: nat)   // a non-final chunk read nothing: the loop never ends
}
