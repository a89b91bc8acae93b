/** What the listener hands to a sink: the argument of `send_msg`, shared by
    the NATS and the cloud messaging sinks. */
module Messages {
  import Utf8

  /** The `msg: Union[str, bytes]` argument of a sink's `send_msg`, or any
      other Python value a caller might pass instead. */
  datatype MsgValue = Str(text: string) | Bytes(data: seq<Utf8.byte>) | NotTextOrBytes
}
