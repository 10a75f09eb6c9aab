/**
  The reply values the decoder produces and the executor returns (the
  entity package's Reply types). Their wire encoding (`ToBytes`) lives in
  entity/reply.go, which is not part of this model; only which reply is
  built, and from what, is modelled.
 */
module Replies {
  import opened Base

  datatype Reply =
      /** MakeStatusReply: `+status` */
    | StatusReply(status: Bytes)
      /** MakeErrReply: `-text`; the error value is kept rather than its formatted text */
    | ErrReply(err: Error)
      /** MakeIntReply: `:n` */
    | IntReply(n: int)
      /** MakeBulkReply: one byte string, which may be Go's nil */
    | BulkReply(arg: Option<Bytes>)
      /** NullBulkReply: `$-1` */
    | NullBulkReply
      /** MakeMultiBulkReply: a sequence of byte strings, each of which may be nil */
    | MultiBulkReply(args: seq<Option<Bytes>>)
      /** EmptyMultiBulkReply: `*0` */
    | EmptyMultiBulkReply
      /** MakeOkReply: `+OK` */
    | OkReply

  /** An error reply built from a message string. */
  function ErrText(text: Bytes): Reply
  {
    ErrReply(Msg(text))
  }
}
