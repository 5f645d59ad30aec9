/** What one call of `handle_request` ends in. */
module Outcomes {
  import opened Bytes

  /** Why the handler panics: one constructor per unwrap of `handle_request`,
      `serve_directory` and `serve_file` that the model keeps; the write
      unwraps are not modelled. */
  datatype Panic =
    | ReadFailed          // main.rs:11, the read itself fails
    | NoRequestLine       // main.rs:17, `lines().next()` is `None`
    | NoTarget            // main.rs:18, the line has no second token
    | BadEscape           // main.rs:21, percent-decoding fails
    | RootUnresolved      // main.rs:28, canonicalizing the root fails
    | ResourceUnresolved  // main.rs:30, canonicalizing the resource fails
    | WalkFailed          // main.rs:46, a directory-walk entry is an error
    | FileUnreadable      // main.rs:59, reading the file fails

  /** The bytes written to the connection, nothing written at all, or a
      panic, which unwinds out of `handle_request` before any write. */
  datatype Outcome = Sent(response: seq<byte>) | Silent | Crash(panic: Panic)
}
