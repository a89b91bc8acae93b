# HL7 MLLP listener: a Dafny model

The listener accepts HL7 v2 messages over MLLP. For each connection,
`process_received_hl7_messages` does the following:

- reads messages until the stream ends;
- parses each message and extracts its type (MSH-9);
- forwards the message text to the configured outbound sink;
- acknowledges each forwarded message with AA and drains the writer.

The whole loop sits inside one `try`, so the first exception ends the
connection. One of three handlers then decides what happens:

- a parse failure is acknowledged AR;
- an unexpected incomplete read or any other exception is acknowledged AE when a
  message is held, and raised after redaction when none is;
- an incomplete read at end of stream ends the session quietly.

The writer is closed on every path.

Before exception texts are logged or raised, `exception_formatter` replaces
quoted HL7 content (`"MSH|…"`) with `<hl7message>`.

There are two sinks, selected by `OUTBOUND_QUEUE_TYPE`:

- **NATS** (the default): one request-reply call per message, with the
  UTF-8 bytes of the text, a 10-second timeout and, in pilot mode, the
  fixed pilot headers.
- **Cloud**: one Azure Service Bus message per message, `text/plain`, with a
  5-second timeout, sent inside a client scoped to the configured namespace.

The modules of the model:

- `Results`: Option, Result and Outcome (a call that returns or raises).
- `Utf8`: `str.encode()` and `bytes.decode()` as UTF-8 over Unicode scalar
  values, with both round trips proved.
- `Redaction`: `exception_formatter`.
  - `re.sub(r'\"MSH\|.*\"', …)` is modelled as a leftmost, non-overlapping
    scan. Each match's greedy `.*` stops at the last `"` before the next newline.
  - `Formatter` chooses between the formatter as written and the truncation it
    was meant to perform (see Findings).
- `Listener`: the connection coroutine, driven by a script.
  - Each `Round` says what `readmessage()`, `hl7.parse`, the MSH-9 lookup,
    `send_msg` and `drain()` do in one pass.
  - `at_eof()` answers False while rounds remain.
  - The session produces the ordered calls made on its collaborators, plus
    the way it ends.
  - `Session` is the specification and `ProcessReceivedHl7Messages` the loop
    proved equal to it.
- `ListenerProperties`: the promises made by the session.
- `MessagingSettings`: the settings classes, their defaults and the
  queue-type map.
- `Messages`: the `str`-or-`bytes` value that both sinks' `send_msg` accept.
- `Nats`: `NATSMessager` as a class whose `conn` is replaced by `connect` and
  used by `send_msg`.
- `CloudMessaging`: `CloudMessager`.
- `Forwarding`: what the session forwards reaches either sink as the same text.

## Model

| member | source | states |
|---|---|---|
| Listener.Iterate | src/main/py/hl7_listener/main.py:55-71 | one pass reads first; it raises exactly when some call failed, and what it raises is the exception of the first call that failed; `hl7_message` is updated only by a successful read |
| Listener.IterateEffects | src/main/py/hl7_listener/main.py:55-71 | a pass only reads, sends, drains and writes AA for the message it just read; it forwards exactly when the message was read, parsed and typed, with the message's own text; it writes AA exactly when the sink also succeeded |
| Listener.Handle | src/main/py/hl7_listener/main.py:73-115 | at most one acknowledgment, never together with a raise; it is AR for a parse failure and AE otherwise, always built from the held message; it is written exactly when a message is held, the exception is not a cancellation or end-of-stream incomplete read, and redaction succeeds; the redacted text is raised only when no message is held and the failure is not a parse error |
| Listener.LoopFrom | src/main/py/hl7_listener/main.py:53-71 | the loop itself never closes the writer |
| Listener.Session | src/main/py/hl7_listener/main.py:48-127 | every session ends with close then wait_closed, and neither occurs earlier |
| Listener.ReadAndForward | src/main/py/hl7_listener/main.py:55-71 | the imperative loop body yields exactly the pass `Iterate` specifies |
| Listener.HandleCaught | src/main/py/hl7_listener/main.py:73-115 | the imperative handlers yield exactly the acknowledgment and status `Handle` specifies |
| Listener.ProcessReceivedHl7Messages | src/main/py/hl7_listener/main.py:40-127 | the loop, its handlers and the `finally` produce exactly `Session`'s trace and status |
| ListenerProperties.HappyLoop | src/main/py/hl7_listener/main.py:54-71 | when no call raises, the loop runs to end of stream doing read, send, AA, drain per message |
| ListenerProperties.HappySession | src/main/py/hl7_listener/main.py:53-120 | happy path: per message read, send of its text, AA built from it, drain; then close and wait_closed; nothing raised |
| ListenerProperties.LoopToFirstFailure | src/main/py/hl7_listener/main.py:48-71 | the loop stops at the first pass that raises, holding that pass's message or else the last one read |
| ListenerProperties.SessionAtFirstFailure | src/main/py/hl7_listener/main.py:48-127 | a session is the happy prefix, the failing pass, its handler's acknowledgment and the close |
| ListenerProperties.FailureEndsSession | src/main/py/hl7_listener/main.py:48-73 | rounds after the first failing one change nothing: the connection's handling ends there |
| ListenerProperties.HappyTraceAccepts | src/main/py/hl7_listener/main.py:66-69 | in a happy trace every AA immediately follows the send of the message it acknowledges |
| ListenerProperties.PassAccepts | src/main/py/hl7_listener/main.py:66-69 | within one pass an AA immediately follows the send of its message |
| ListenerProperties.AcceptOnlyAfterSend | src/main/py/hl7_listener/main.py:66-115 | in every session an AA is written only right after that message was forwarded; handlers never write AA |
| ListenerProperties.ParseFailureRejects | src/main/py/hl7_listener/main.py:73-81 | a read message that fails to parse gets exactly one AR built from it, and is not forwarded or drained; the session ends quietly |
| ListenerProperties.ParseFailureWithoutMessage | src/main/py/hl7_listener/main.py:53-81 | a ParseException from the first read finds `hl7_message` None: `create_ack` raises AttributeError and no acknowledgment is written |
| ListenerProperties.IncompleteReadAtEof | src/main/py/hl7_listener/main.py:83-89 | an incomplete read with the peer at end of stream: no acknowledgment, nothing raised |
| ListenerProperties.SinkFailureAcknowledgedAE | src/main/py/hl7_listener/main.py:104-113 | a failing sink send is acknowledged AE for that message and is not propagated |
| ListenerProperties.FirstReadFailureRaises | src/main/py/hl7_listener/main.py:90-115 | an unexpected failure of the very first read raises an exception carrying the redacted text; no acknowledgment |
| ListenerProperties.CancellationEscapes | src/main/py/hl7_listener/main.py:104-120 | a cancellation is caught by no handler: it escapes after the writer is closed, unacknowledged |
| ListenerProperties.RedactionFailurePreemptsAck | src/main/py/hl7_listener/main.py:73-115 | when redaction raises, the AttributeError escapes before the handler writes its AR/AE |
| ListenerProperties.StaleMessageAcknowledged | src/main/py/hl7_listener/main.py:53-113 | a read failing after an accepted message gets AR/AE built from that earlier, already-AA'd message |
| ListenerProperties.LoopForwardsOnlyParsed | src/main/py/hl7_listener/main.py:55-66 | the loop forwards only texts of messages read, parsed and typed |
| ListenerProperties.SessionForwardsOnlyParsed | src/main/py/hl7_listener/main.py:55-115 | a session forwards only texts of messages read, parsed and typed in it; handlers forward nothing |
| ListenerProperties.TruncatingFormatterAcknowledges | src/main/py/hl7_listener/main.py:73-115 | with the intended formatter, every handled failure while a message is held gets its AR/AE, and the session ends quietly |
| Redaction.MatchEnd | src/main/py/hl7_listener/main.py:33 | the end of a `"MSH\|.*"` match at the start of the text: the text opens with `"MSH\|`, the match closes on a double quote, and no line feed lies between them |
| Redaction.MatchEndLastQuote | src/main/py/hl7_listener/main.py:33 | greedy `.*` closes the match on the last double quote of its line; when the text opens with `"MSH\|` but there is no match, no double quote follows on that line |
| Redaction.ExceptionFormatter | src/main/py/hl7_listener/main.py:32-36 | fails, naming the missing attribute `indexOf`, exactly when `MSH\|` survives the substitution; otherwise returns the substituted text, which then holds no `MSH\|` |
| Redaction.Substitute | src/main/py/hl7_listener/main.py:33 | a text holding no `MSH\|`, or no double quote, has no match and is returned unchanged |
| Redaction.HeaderFreeUnchanged | src/main/py/hl7_listener/main.py:32-36 | a text without `MSH\|` is returned unchanged |
| Redaction.FormatterIdempotent | src/main/py/hl7_listener/main.py:32-36 | formatting a formatted text changes nothing |
| Redaction.SubstituteQuoteFreePrefix | src/main/py/hl7_listener/main.py:33 | text before the first quote is kept as is |
| Redaction.SubstituteMarkerFreePrefix | src/main/py/hl7_listener/main.py:33 | text holding no `"MSH\|` is kept as is when what follows it starts with a double quote, since no match can start inside it |
| Redaction.QuotedRunRedacted | src/main/py/hl7_listener/main.py:33 | a quoted `"MSH\|…"` run on one line, up to its line's last quote, becomes `<hl7message>` whenever no `"MSH\|` occurs before it (other quotes may); the text before it is kept and the rest is scanned on |
| Redaction.UnquotedHeaderRaises | src/main/py/hl7_listener/main.py:34-35 | a quote-free text containing `MSH\|` makes the formatter fail on `indexOf` |
| Redaction.HeaderIndex | src/main/py/hl7_listener/main.py:35 | a position at which `MSH\|` occurs in a text containing it |
| Redaction.NoHeaderBeforeFirst | src/main/py/hl7_listener/main.py:35 | no `MSH\|` occurs before the position HeaderIndex returns, so it is the first one |
| Redaction.TruncatingFormatter | src/main/py/hl7_listener/main.py:34-35 | the intended formatter never fails and never leaves `MSH\|`; it cuts at the first surviving header and appends ` <message truncated>` |
| Redaction.TruncatingFormatterIdempotent | src/main/py/hl7_listener/main.py:32-36 | the intended formatter is idempotent |
| Redaction.FormattersAgreeOnSuccess | src/main/py/hl7_listener/main.py:32-36 | where the as-written formatter succeeds, the intended one gives the same text |
| Redaction.Format | src/main/py/hl7_listener/main.py:32-36 | either formatter's result is free of `MSH\|`; only the as-written one fails, and only when a header survives substitution |
| Utf8.Encode | src/main/py/hl7_listener/messaging/nats.py:49-51 | encoding takes one to four bytes per character |
| Utf8.Decode | src/main/py/hl7_listener/messaging/cloud_messaging.py:25-27 | a decoded text has at most one character per byte and at least one per four bytes; that only well-formed UTF-8 decodes is Utf8.EncodeDecode |
| Utf8.DecodeEncode | src/main/py/hl7_listener/messaging/nats.py:49-51 | decoding the encoding of any text gives the text back |
| Utf8.EncodeDecode | src/main/py/hl7_listener/messaging/cloud_messaging.py:25-27 | bytes that decode are the encoding of what they decode to |
| MessagingSettings.LoadNatsSettings | src/main/py/hl7_listener/messaging/settings.py:20-23 | NATS_SERVER_URL is required; the subject defaults to HL7.MESSAGES and pilot mode to False; given values are kept |
| MessagingSettings.LoadCloudSettings | src/main/py/hl7_listener/messaging/settings.py:15-17 | both fields are required, and the error names exactly the missing ones |
| MessagingSettings.Select | src/main/py/hl7_listener/messaging/settings.py:26-33 | the queue type selects its settings class and messager class from one entry, so they always belong to the same sink; a settings validation error means no messager |
| MessagingSettings.DefaultSelectsNats | src/main/py/hl7_listener/settings.py:13 | with the queue type left at its default the NATS messager is selected, and selection succeeds exactly when NATS_SERVER_URL is set |
| MessagingSettings.ConfigMapIsTotal | src/main/py/hl7_listener/messaging/settings.py:26-29 | the map has exactly one entry per queue type, with distinct classes |
| Nats.Payload | src/main/py/hl7_listener/messaging/nats.py:47-51 | a str is sent as bytes that decode back to it; bytes are sent unchanged; anything else fails the assertion |
| Nats.RequestKwargs | src/main/py/hl7_listener/messaging/nats.py:55-62 | the request carries the configured subject, the payload and a 10-second timeout, and carries the pilot headers exactly in pilot mode |
| Nats.NatsMessager.Connect | src/main/py/hl7_listener/messaging/nats.py:20-38 | a new client replaces `conn` and is connected to NATS_SERVER_URL; success answers True; the client's error reaches the caller unchanged |
| Nats.NatsMessager.SendMsg | src/main/py/hl7_listener/messaging/nats.py:41-69 | exactly one request with those arguments is appended to the client's requests; nothing else about the client changes; the request's error propagates; no request when the assertion fails |
| CloudMessaging.Connect | src/main/py/hl7_listener/messaging/cloud_messaging.py:17-18 | connecting does nothing and answers None |
| CloudMessaging.Text | src/main/py/hl7_listener/messaging/cloud_messaging.py:23-27 | a str is sent unchanged; bytes are sent as the text they decode to, and are rejected when not UTF-8; anything else fails the assertion |
| CloudMessaging.SendMsg | src/main/py/hl7_listener/messaging/cloud_messaging.py:21-40 | one message, `text/plain`, to OUTBOUND_QUEUE_NAME with a 5-second timeout, inside a client for MSG_NAMESPACE that is then released; the send's error propagates; no client when the text is not ready |
| Forwarding.SinksAgree | src/main/py/hl7_listener/messaging/cloud_messaging.py:23-27 | whenever both sinks accept a value, the NATS bytes are the encoding of the cloud text |
| Forwarding.SessionSendsReachBothSinks | src/main/py/hl7_listener/main.py:66 | every text the session forwards was read in it; NATS carries its encoding, which decodes back to it, and the cloud message carries it unchanged |

## Left out

- Sockets, MLLP framing, `hl7.parse` and `create_ack` content: these are library code. Readers, parsers and writers become scripted outcomes, and an acknowledgment is recorded as its code and the message it is built from.
- `writemessage`, `close` and `wait_closed` are modelled as never raising, and `create_ack` is modelled as never raising on a real message. Exceptions raised inside a handler or in the `finally` clause are therefore not modelled.
- The `if hl7_writer:` guard is modelled as always true, since a connection always has a writer. The `if hl7_message:` guard is modelled as "a message has been read"; a message object whose truthiness is False is not modelled.
- Logging, tracing, `peername` and the log codes are left out: they have no effect on behaviour.
- asyncio scheduling and concurrent connections are left out. Each connection is modelled on its own, and `await` is treated as an ordinary call.
- `hl7_receiver` and `main` (the server start-up) are left out. The `MessagingInterface` base class is not part of this model, so `conn` is taken as null before `connect`.
- Pydantic reading of the environment is left out. Environment values arrive already typed, so string-to-bool parsing and URL validation are not modelled, and neither are the HL7_MLLP_HOST/PORT and LOG_LEVEL settings.
- The NATS and Azure clients are reduced to the arguments they are given. Their answers are parameters, and the content of NATS replies is not modelled.
- Utf8.Encode: characters are Unicode scalar values. A Python str holding lone surrogates, which makes `encode()` raise, cannot be represented.
- Listener.Session: a `Round` lets every call in the loop body raise any exception, CancelledError included. The synchronous `hl7.parse` and MSH-9 lookup cannot actually receive a cancellation, so the model allows more than the code does there. A cancellation delivered during `wait_closed` in the `finally` clause is not modelled.
- ListenerProperties.CancellationEscapes: CancelledError is taken to derive from BaseException, as it does from Python 3.8 on. Under Python 3.7 it is an Exception, and the generic handler would catch it.

## Findings

| source | as written | input that shows it | evidently intended | confidence | as-written member | corrected member |
|---|---|---|---|---|---|---|
| src/main/py/hl7_listener/main.py:35 | `exception_text.indexOf('MSH\|')`: Python's `str` has no `indexOf`, so this raises AttributeError whenever `MSH\|` survives the substitution (the contract of Redaction.ExceptionFormatter states this for every input) | a ParseException whose text holds an unquoted `MSH\|` (e.g. `bad segment MSH\|^~\&`), raised while a message is held: the handler raises AttributeError instead of writing AR | cut the text at the first `MSH\|` (`str.find`/`str.index`) and append ` <message truncated>` | not executed | Redaction.UnquotedHeaderRaises | Redaction.TruncatingFormatter |

The session is stated for both formatters through `Redaction.Formatter`:

- `ListenerProperties.RedactionFailurePreemptsAck` shows the acknowledgment
  lost with the formatter as written.
- `ListenerProperties.TruncatingFormatterAcknowledges` shows it restored with
  the intended formatter.
