/** What the listener forwards reaches either sink as the same text: the
    NATS sink puts its UTF-8 encoding on the wire, the cloud sink sends the
    text itself, and bytes handed to both are carried consistently. */
module Forwarding {
  import opened Results
  import opened Utf8
  import opened Messages
  import opened MessagingSettings
  import Nats
  import CloudMessaging
  import opened Listener
  import ListenerProperties
  import Redaction

  /** Whenever both sinks accept a value, the NATS payload is the UTF-8
      encoding of the cloud text. */
  lemma SinksAgree(msg: MsgValue)
    requires Nats.Payload(msg).Success? && CloudMessaging.Text(msg).Success?
    ensures Nats.Payload(msg).value == Encode(CloudMessaging.Text(msg).value)
  {
  }

  /** Every Send of a session carries the text of a message read, parsed and
      typed in that session: the NATS request holds its UTF-8 encoding, which
      decodes back to it, and the cloud message holds it unchanged. */
  lemma SessionSendsReachBothSinks(f: Redaction.Formatter, rounds: seq<Round>, text: string,
                                   nats: NatsSettings, cloud: CloudMessagingSettings, outcome: Outcome<string>)
    requires Send(text) in Session(f, rounds).trace
    ensures text in ListenerProperties.Forwardable(rounds)
    ensures Nats.Payload(Str(text)).Success?
    ensures Decode(Nats.Payload(Str(text)).value) == Some(text)
    ensures Nats.RequestKwargs(Nats.Payload(Str(text)).value, nats)["payload"] == Nats.BytesArg(Encode(text))
    ensures CloudMessaging.SendMsg(Str(text), cloud, outcome).calls[1].message
              == CloudMessaging.CloudMessage(text, "text/plain")
  {
    ListenerProperties.SessionForwardsOnlyParsed(f, rounds);
  }
}
