/** `hl7_listener/messaging/nats.py`: the NATS sink. `connect` replaces the
    messager's connection with a new client and connects it to the configured
    server; `send_msg` builds the keyword arguments of one request-reply call
    and awaits it. The NATS client library is reduced to a record of what was
    asked of it, its answers being parameters. */
module Nats {
  import opened Results
  import opened Utf8
  import opened Messages
  import opened MessagingSettings

  /** PILOT_HEADER, line 14. */
  const PilotHeader: map<string, string> :=
    map["record_id" := "pilot:pilot", "payload_type" := "hl7", "trigger" := "pilot"]

  /** The `timeout` keyword of every request, in seconds. */
  const RequestTimeout: int := 10

  /** Errors the client library raises: ErrNoServers from `connect`, anything
      else (a timeout, a closed connection) described by its text. */
  datatype NatsError = ErrNoServers | OtherNatsError(text: string)

  /** Errors `send_msg` raises. */
  datatype SendError =
    | AssertionError           // `msg` is neither str nor bytes
    | AttributeError           // there is no client to call `request` on
    | RequestError(cause: NatsError)

  /** A value passed as a keyword argument to `request`. */
  datatype Arg = StrArg(s: string) | BytesArg(b: seq<byte>) | IntArg(i: int) | HeadersArg(h: map<string, string>)

  type Kwargs = map<string, Arg>

  /** What a `nats.aio.client.Client` was asked to do. */
  class NatsClient {
    var servers: seq<string>
    var connected: bool
    var requests: seq<Kwargs>

    constructor ()
      ensures servers == [] && !connected && requests == []
    {
      servers := [];
      connected := false;
      requests := [];
    }

    /** `await client.connect(url)`; `outcome` is the server's answer. */
    method Connect(url: string, outcome: Outcome<NatsError>) returns (r: Outcome<NatsError>)
      modifies this
      ensures servers == old(servers) + [url]
      ensures connected == (old(connected) || outcome.Ok?)
      ensures requests == old(requests)
      ensures r == outcome
    {
      servers := servers + [url];
      connected := connected || outcome.Ok?;
      r := outcome;
    }

    /** `await client.request(**kwargs)`; `outcome` is the reply or the error. */
    method Request(kwargs: Kwargs, outcome: Outcome<NatsError>) returns (r: Outcome<NatsError>)
      modifies this
      ensures requests == old(requests) + [kwargs]
      ensures servers == old(servers) && connected == old(connected)
      ensures r == outcome
    {
      requests := requests + [kwargs];
      r := outcome;
    }
  }

  /** The bytes `send_msg` puts on the wire (lines 47-51): a str is UTF-8
      encoded, bytes go unchanged, anything else fails the assertion. */
  function Payload(msg: MsgValue): (r: Result<seq<byte>, SendError>)
    ensures r.Failure? <==> msg.NotTextOrBytes?
    ensures r.Failure? ==> r.error == AssertionError
    ensures msg.Bytes? ==> r == Success(msg.data)
    ensures msg.Str? ==> r.Success? && Decode(r.value) == Some(msg.text)
  {
    match msg
    case Str(text) =>
      DecodeEncode(text);
      Success(Encode(text))
    case Bytes(data) => Success(data)
    case NotTextOrBytes => Failure(AssertionError)
  }

  /** The keyword arguments of the request (lines 55-62): subject, payload and a
      10-second timeout, plus the pilot headers exactly in pilot mode. */
  function RequestKwargs(payload: seq<byte>, settings: NatsSettings): (k: Kwargs)
    ensures "headers" in k <==> settings.pilotMode
    ensures k.Keys == {"subject", "payload", "timeout"} + (if settings.pilotMode then {"headers"} else {})
    ensures k["subject"] == StrArg(settings.outgoingSubject)
    ensures k["payload"] == BytesArg(payload)
    ensures k["timeout"] == IntArg(10)
    ensures settings.pilotMode ==> k["headers"] == HeadersArg(PilotHeader)
  {
    var base := map["subject" := StrArg(settings.outgoingSubject), "payload" := BytesArg(payload), "timeout" := IntArg(RequestTimeout)];
    if settings.pilotMode then base["headers" := HeadersArg(PilotHeader)] else base
  }

  /** A NATSMessager: `conn` is the client `connect` created, null before. */
  class NatsMessager {
    var conn: NatsClient?

    constructor ()
      ensures conn == null
    {
      conn := null;
    }

    /** `connect`, lines 20-38: a new client replaces any earlier one and is
        connected to NATS_SERVER_URL; success answers True, and the client's
        error (ErrNoServers or any other) reaches the caller unchanged. The
        new client stays in `conn` either way. */
    method Connect(settings: NatsSettings, outcome: Outcome<NatsError>) returns (r: Result<bool, NatsError>)
      modifies this
      ensures fresh(conn)
      ensures conn.servers == [settings.serverUrl] && conn.requests == []
      ensures conn.connected <==> outcome.Ok?
      ensures outcome.Ok? ==> r == Success(true)
      ensures outcome.Raise? ==> r == Failure(outcome.error)
    {
      conn := new NatsClient();
      var answer := conn.Connect(settings.serverUrl, outcome);
      if answer.Raise? {
        return Failure(answer.error);
      }
      return Success(true);
    }

    /** `send_msg`, lines 41-69: exactly one request carrying the encoded
        message, the configured subject, the 10-second timeout and, in pilot
        mode, the pilot headers; the request's error reaches the caller. */
    method SendMsg(msg: MsgValue, settings: NatsSettings, outcome: Outcome<NatsError>) returns (r: Result<(), SendError>)
      modifies conn
      ensures Payload(msg).Failure? ==> r == Failure(AssertionError) && (conn != null ==> unchanged(conn))
      ensures Payload(msg).Success? && conn == null ==> r == Failure(AttributeError)
      ensures Payload(msg).Success? && conn != null ==>
                && conn.requests == old(conn.requests) + [RequestKwargs(Payload(msg).value, settings)]
                && conn.servers == old(conn.servers) && conn.connected == old(conn.connected)
                && r == (if outcome.Ok? then Success(()) else Failure(RequestError(outcome.error)))
    {
      if !(msg.Str? || msg.Bytes?) {
        return Failure(AssertionError);
      }
      var toSend := msg;
      if msg.Str? {
        toSend := Bytes(Encode(msg.text));
      }
      var kwargs := map["subject" := StrArg(settings.outgoingSubject), "payload" := BytesArg(toSend.data), "timeout" := IntArg(RequestTimeout)];
      if settings.pilotMode {
        kwargs := kwargs["headers" := HeadersArg(PilotHeader)];
      }
      if conn == null {
        return Failure(AttributeError);
      }
      var reply := conn.Request(kwargs, outcome);
      if reply.Raise? {
        return Failure(RequestError(reply.error));
      }
      return Success(());
    }
  }
}
