/** Outcomes of remote calls. */
module Remote {
  /** What becomes of one remote call that changes something. */
  datatype Rpc =
    | Delivered   // applied, and the caller is told so
    | Refused     // not applied, the caller gets an error
    | ReplyLost   // applied, but the caller gets an error
}
