/** `hl7_listener/messaging/cloud_messaging.py`: the cloud sink. Each
    `send_msg` opens an Azure Service Bus client for the configured
    namespace, sends one text message to the outbound queue and releases the
    client. The client library is reduced to the calls made on it; the send's
    answer is a parameter. */
module CloudMessaging {
  import opened Results
  import opened Utf8
  import opened Messages
  import opened MessagingSettings

  /** The `timeout` of every `send_message`, in seconds. */
  const SendTimeout: int := 5

  const TextPlain: string := "text/plain"

  datatype CloudClientKind = AzureAsyncServiceBus

  datatype CloudMessage = CloudMessage(data: string, contentType: string)

  /** The calls `send_msg` makes through the client library, in order. */
  datatype CloudCall =
    | CreateClient(kind: CloudClientKind, namespace: string)
    | SendMessage(queue: string, message: CloudMessage, timeout: int)
    | ReleaseClient

  datatype SendError =
    | AssertionError           // `msg` is neither str nor bytes
    | UnicodeDecodeError       // `msg` is bytes that are not UTF-8
    | SendFailed(text: string) // the error `send_message` raised

  datatype CloudSend = CloudSend(calls: seq<CloudCall>, result: Result<(), SendError>)

  /** `connect`, lines 17-18: does nothing and answers None. */
  function Connect(): (r: Option<bool>)
    ensures r == None
  {
    None
  }

  /** The text `send_msg` sends (lines 23-27): bytes are decoded as UTF-8, a
      str goes unchanged, anything else fails the assertion. */
  function Text(msg: MsgValue): (r: Result<string, SendError>)
    ensures msg.Str? ==> r == Success(msg.text)
    ensures msg.Bytes? ==> (r.Success? <==> Decode(msg.data).Some?)
    ensures msg.Bytes? && r.Success? ==> Encode(r.value) == msg.data
    ensures msg.Bytes? && r.Failure? ==> r.error == UnicodeDecodeError
    ensures msg.NotTextOrBytes? ==> r == Failure(AssertionError)
  {
    match msg
    case Str(text) => Success(text)
    case Bytes(data) =>
      (match Decode(data)
       case Some(text) =>
         EncodeDecode(data);
         Success(text)
       case None => Failure(UnicodeDecodeError))
    case NotTextOrBytes => Failure(AssertionError)
  }

  /** `send_msg`, lines 21-40. When the text is ready, exactly one message is
      sent, to OUTBOUND_QUEUE_NAME, as "text/plain" with a 5-second timeout,
      inside a client for MSG_NAMESPACE that is released whether or not the
      send raised; the send's error reaches the caller. When the text is not
      ready no client is opened. */
  function SendMsg(msg: MsgValue, settings: CloudMessagingSettings, outcome: Outcome<string>): (r: CloudSend)
    ensures Text(msg).Failure? ==> r == CloudSend([], Failure(Text(msg).error))
    ensures Text(msg).Success? ==>
              r.calls == [CreateClient(AzureAsyncServiceBus, settings.msgNamespace),
                          SendMessage(settings.outboundQueueName, CloudMessage(Text(msg).value, TextPlain), SendTimeout),
                          ReleaseClient]
    ensures r.result.Success? <==> Text(msg).Success? && outcome.Ok?
    ensures Text(msg).Success? && outcome.Raise? ==> r.result == Failure(SendFailed(outcome.error))
  {
    match Text(msg)
    case Failure(e) => CloudSend([], Failure(e))
    case Success(text) =>
      var calls := [CreateClient(AzureAsyncServiceBus, settings.msgNamespace),
                    SendMessage(settings.outboundQueueName, CloudMessage(text, TextPlain), SendTimeout),
                    ReleaseClient];
      match outcome
      case Ok => CloudSend(calls, Success(()))
      case Raise(e) => CloudSend(calls, Failure(SendFailed(e)))
  }
}
