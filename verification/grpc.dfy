/** The gRPC status codes the distributed file system exchanges, and the
    reduction of a failed call's code that both DFS clients apply. */
module Grpc {

  /** `grpc::StatusCode`, in the order of its numeric values 0..16. */
  datatype StatusCode =
    | Ok | Cancelled | Unknown | InvalidArgument | DeadlineExceeded | NotFound
    | AlreadyExists | PermissionDenied | ResourceExhausted | FailedPrecondition
    | Aborted | OutOfRange | Unimplemented | Internal | Unavailable | DataLoss
    | Unauthenticated

  /** The three codes a failed call is reported as. */
  predicate Reported(s: StatusCode)
  {
    s == DeadlineExceeded || s == NotFound || s == Cancelled
  }

  /** `HandleBadRPCStatus`, and the `Finish` error branch of the part-1
      `Store`: a timeout and a missing file keep their code, anything else
      becomes CANCELLED. */
  function ReduceError(s: StatusCode): (r: StatusCode)
    ensures Reported(r)
    ensures Reported(s) ==> r == s
    ensures !Reported(s) ==> r == Cancelled
  {
    if s == DeadlineExceeded then DeadlineExceeded
    else if s == NotFound then NotFound
    else Cancelled
  }

  /** Reducing twice is reducing once, and the reported codes are exactly
      the fixed points. */
  lemma ReduceErrorIdempotent(s: StatusCode)
    ensures ReduceError(ReduceError(s)) == ReduceError(s)
    ensures ReduceError(s) == s <==> Reported(s)
  {
  }
}
