/** One connection of the HL7 MLLP listener: `process_received_hl7_messages`.
    The loop reads a message, parses it, extracts MSH-9, forwards its text to
    the configured sink, acknowledges it with AA and drains the writer, until
    the reader reports end of stream. The `try` encloses the whole loop, so
    the first exception ends the session; the handlers then decide between
    an AR or AE acknowledgment (HL7 table 0008, MSA-1), a quiet end, or a
    raise. The `finally` clause closes the writer on every path.

    The collaborators (reader, parser, sink, writer) are replaced by a script:
    one Round per pass through the loop, listing what each call does. The
    reader's `at_eof()` at the head of the loop answers False exactly while
    rounds remain. */
module Listener {
  import opened Results
  import Redaction

  /** A message as returned by `readmessage()`; `str(message)` is `text`. */
  datatype Message = Message(text: string)

  /** Acknowledgment codes of HL7 table 0008 carried in MSA-1. */
  datatype AckCode = AA | AR | AE

  /** The exceptions the loop body can meet, by the handler that catches them. */
  datatype Exc =
    | ParseException(text: string)       // hl7.exceptions.ParseException
    | IncompleteReadError(text: string)  // asyncio.IncompleteReadError
    | OtherException(text: string)       // any other subclass of Exception
    | CancelledError                     // asyncio.CancelledError, a BaseException since Python 3.8: no handler catches it

  /** What `readmessage()` does: return a message or raise (the MLLP reader
      parses what it reads, so it may raise ParseException itself). */
  datatype ReadOutcome = Received(message: Message) | ReadRaised(exc: Exc)

  /** The script of one pass: what `readmessage()`, `hl7.parse`, the MSH-9
      field lookup, `send_msg` and `drain()` do, and what `at_eof()` answers
      if it is asked again inside the IncompleteReadError handler. Every call
      may raise any exception; a cancellation can in fact reach only the
      awaited ones (`readmessage`, `send_msg`, `drain`), so for the two
      synchronous calls the script allows more than the code does. */
  datatype Round = Round(
    read: ReadOutcome,
    parse: Outcome<Exc>,
    extract: Outcome<Exc>,
    send: Outcome<Exc>,
    drain: Outcome<Exc>,
    eofInHandler: bool)

  /** The calls the session makes on its collaborators, in order. */
  datatype Effect =
    | Read                                   // hl7_reader.readmessage()
    | Send(payload: string)                  // messager.send_msg(msg=payload)
    | WriteAck(code: AckCode, ackOf: Message) // hl7_writer.writemessage(ackOf.create_ack(code))
    | Drain                                  // hl7_writer.drain()
    | Close                                  // hl7_writer.close()
    | WaitClosed                             // hl7_writer.wait_closed()

  /** What escapes the session when it raises. */
  datatype Escaped =
    | FormattedException(text: string)  // raise Exception(exception_formatter(str(exp)))
    | AttributeError(name: string)      // an attribute the handler looked up does not exist
    | Cancelled                         // the CancelledError itself

  datatype Status = Ended | Raised(escaped: Escaped)

  datatype Run = Run(trace: seq<Effect>, status: Status)

  /** Every AA acknowledgment immediately follows the forwarding of the
      message it acknowledges. */
  ghost predicate AcceptsFollowSends(t: seq<Effect>) {
    forall k :: 0 <= k < |t| && t[k].WriteAck? && t[k].code == AA ==>
      0 < k && t[k - 1] == Send(t[k].ackOf.text)
  }

  lemma AcceptsFollowSendsConcat(a: seq<Effect>, b: seq<Effect>)
    requires AcceptsFollowSends(a) && AcceptsFollowSends(b)
    ensures AcceptsFollowSends(a + b)
  {
    var t := a + b;
    forall k | 0 <= k < |t| && t[k].WriteAck? && t[k].code == AA
      ensures 0 < k && t[k - 1] == Send(t[k].ackOf.text)
    {
      if k >= |a| {
        assert t[k] == b[k - |a|];
        assert t[k - 1] == b[k - |a| - 1];
      } else {
        assert t[k] == a[k];
      }
    }
  }

  /** A pass in which no call raises. */
  predicate Happy(r: Round) {
    r.read.Received? && r.parse.Ok? && r.extract.Ok? && r.send.Ok? && r.drain.Ok?
  }

  /** The outcome of one pass through the loop body: its calls, the message
      it assigned to `hl7_message` (None when `readmessage()` raised and left
      it as it was) and the exception that left the body, if any. */
  datatype Pass = Pass(effects: seq<Effect>, message: Option<Message>, thrown: Option<Exc>)

  /** The loop body, lines 55-71. */
  function Iterate(r: Round): (p: Pass)
    ensures |p.effects| >= 1 && p.effects[0] == Read
    ensures p.thrown.None? <==> Happy(r)
    ensures p.message == (if r.read.Received? then Some(r.read.message) else None)
    ensures p.thrown.Some? ==> p.thrown.value == FirstRaised(r)
  {
    match r.read
    case ReadRaised(e) => Pass([Read], None, Some(e))
    case Received(m) =>
      if r.parse.Raise? then Pass([Read], Some(m), Some(r.parse.error))
      else if r.extract.Raise? then Pass([Read], Some(m), Some(r.extract.error))
      else if r.send.Raise? then Pass([Read, Send(m.text)], Some(m), Some(r.send.error))
      else if r.drain.Raise? then Pass([Read, Send(m.text), WriteAck(AA, m), Drain], Some(m), Some(r.drain.error))
      else Pass([Read, Send(m.text), WriteAck(AA, m), Drain], Some(m), None)
  }

  /** The exception of the first call of a pass that raised. */
  function FirstRaised(r: Round): Exc
    requires !Happy(r)
  {
    if r.read.ReadRaised? then r.read.exc
    else if r.parse.Raise? then r.parse.error
    else if r.extract.Raise? then r.extract.error
    else if r.send.Raise? then r.send.error
    else r.drain.error
  }

  /** What one pass does on the wire: only reads, sends, AA acknowledgments
      of the message just read and drains; the message is forwarded exactly
      when it was read, parsed and its type extracted, with its own text; it
      is accepted exactly when the sink also reported success. */
  lemma IterateEffects(r: Round)
    ensures forall e :: e in Iterate(r).effects ==>
              e.Read? || e.Send? || e.Drain? || (e.WriteAck? && e.code == AA && r.read == Received(e.ackOf))
    ensures forall x :: Send(x) in Iterate(r).effects <==>
              r.read.Received? && r.parse.Ok? && r.extract.Ok? && x == r.read.message.text
    ensures forall m :: WriteAck(AA, m) in Iterate(r).effects <==>
              r.read == Received(m) && r.parse.Ok? && r.extract.Ok? && r.send.Ok?
  {
  }

  datatype Handled = Handled(effects: seq<Effect>, status: Status)

  /** Lines 91-102 and 105-115: log the redacted text, then acknowledge with
      AE when a message has been read, or raise the redacted text. The
      redaction is evaluated first, as an argument of the log call, so when
      it raises no acknowledgment is written. */
  function Unexpected(f: Redaction.Formatter, text: string, last: Option<Message>): Handled {
    match Redaction.Format(f, text)
    case Failure(attribute) => Handled([], Raised(AttributeError(attribute)))
    case Success(redacted) =>
      if last.Some? then Handled([WriteAck(AE, last.value)], Ended)
      else Handled([], Raised(FormattedException(redacted)))
  }

  /** The `except` clauses, lines 73-115. */
  function Handle(f: Redaction.Formatter, e: Exc, last: Option<Message>, eofInHandler: bool): (h: Handled)
    ensures |h.effects| <= 1
    // an acknowledgment and a raise never go together
    ensures h.status.Raised? ==> h.effects == []
    // any acknowledgment is built from the last message read: AR for a parse
    // failure, AE for everything else, never AA
    ensures h.effects != [] ==>
              last.Some? && h.effects == [WriteAck(if e.ParseException? then AR else AE, last.value)]
    // one is written exactly when a message exists, the failure is not the
    // expected end of stream and the redaction of its text succeeds
    ensures h.effects != [] <==>
              && last.Some?
              && !e.CancelledError?
              && !(e.IncompleteReadError? && eofInHandler)
              && Redaction.Format(f, e.text).Success?
    // the session ends quietly exactly when it acknowledged or met the end of stream
    ensures h.status.Ended? <==> h.effects != [] || (e.IncompleteReadError? && eofInHandler)
    // the redacted text is raised only when no message exists, and never for a parse failure
    ensures h.status.Raised? && h.status.escaped.FormattedException? ==>
              && last.None? && !e.ParseException? && !e.CancelledError?
              && Redaction.Format(f, e.text) == Success(h.status.escaped.text)
  {
    match e
    case CancelledError => Handled([], Raised(Cancelled))
    case ParseException(text) =>
      (match Redaction.Format(f, text)
       case Failure(attribute) => Handled([], Raised(AttributeError(attribute)))
       case Success(_) =>
         // no None guard here: `None.create_ack` raises AttributeError
         if last.None? then Handled([], Raised(AttributeError("create_ack")))
         else Handled([WriteAck(AR, last.value)], Ended))
    case IncompleteReadError(text) =>
      if eofInHandler then Handled([], Ended) else Unexpected(f, text, last)
    case OtherException(text) => Unexpected(f, text, last)
  }

  /** How the loop is left: `at_eof()` answered True, or an exception was
      caught with `hl7_message` holding `last`. */
  datatype Exit = Exhausted | Caught(exc: Exc, last: Option<Message>, eofInHandler: bool)

  datatype Loop = Loop(effects: seq<Effect>, exit: Exit)

  /** The `while not hl7_reader.at_eof()` loop over the remaining rounds,
      with `hl7_message` holding `last`. */
  function LoopFrom(rounds: seq<Round>, last: Option<Message>): (l: Loop)
    ensures Close !in l.effects && WaitClosed !in l.effects
    decreases |rounds|
  {
    if rounds == [] then Loop([], Exhausted)
    else
      var p := Iterate(rounds[0]);
      var current := if p.message.Some? then p.message else last;
      if p.thrown.Some? then Loop(p.effects, Caught(p.thrown.value, current, rounds[0].eofInHandler))
      else
        var rest := LoopFrom(rounds[1..], current);
        Loop(p.effects + rest.effects, rest.exit)
  }

  /** The whole coroutine: `hl7_message = None`, the loop, the handler that
      caught its exception, and the `finally` clause. */
  function Session(f: Redaction.Formatter, rounds: seq<Round>): (r: Run)
    ensures |r.trace| >= 2 && r.trace[|r.trace| - 2..] == [Close, WaitClosed]
    ensures Close !in r.trace[..|r.trace| - 2] && WaitClosed !in r.trace[..|r.trace| - 2]
  {
    var loop := LoopFrom(rounds, None);
    var h := match loop.exit
      case Exhausted => Handled([], Ended)
      case Caught(e, last, eof) => Handle(f, e, last, eof);
    var body := loop.effects + h.effects;
    assert forall e :: e in h.effects ==> e.WriteAck?;
    assert (body + [Close, WaitClosed])[..|body|] == body;
    Run(body + [Close, WaitClosed], h.status)
  }

  lemma LoopStep(rounds: seq<Round>, i: nat, last: Option<Message>)
    requires i < |rounds|
    ensures var p := Iterate(rounds[i]);
            var current := if p.message.Some? then p.message else last;
            LoopFrom(rounds[i..], last) ==
              if p.thrown.Some? then Loop(p.effects, Caught(p.thrown.value, current, rounds[i].eofInHandler))
              else Loop(p.effects + LoopFrom(rounds[i + 1..], current).effects, LoopFrom(rounds[i + 1..], current).exit)
  {
    assert rounds[i..][0] == rounds[i] && rounds[i..][1..] == rounds[i + 1..];
  }

  /** The loop state after one more pass: the calls so far followed by what
      the remaining rounds do, or the exception that ends the loop. */
  lemma LoopAdvance(rounds: seq<Round>, i: nat, trace: seq<Effect>, last: Option<Message>,
                    step: seq<Effect>, message: Option<Message>, thrown: Option<Exc>)
    requires i < |rounds|
    requires Pass(step, message, thrown) == Iterate(rounds[i])
    requires var rest := LoopFrom(rounds[i..], last);
             LoopFrom(rounds, None) == Loop(trace + rest.effects, rest.exit)
    ensures var current := if message.Some? then message else last;
            var rest := LoopFrom(rounds[i + 1..], current);
            thrown.None? ==> LoopFrom(rounds, None) == Loop(trace + step + rest.effects, rest.exit)
    ensures var current := if message.Some? then message else last;
            thrown.Some? ==>
              LoopFrom(rounds, None) == Loop(trace + step, Caught(thrown.value, current, rounds[i].eofInHandler))
  {
    LoopStep(rounds, i, last);
    var current := if message.Some? then message else last;
    if thrown.None? {
      var rest := LoopFrom(rounds[i + 1..], current);
      assert LoopFrom(rounds[i..], last) == Loop(step + rest.effects, rest.exit);
      assert trace + (step + rest.effects) == trace + step + rest.effects;
    } else {
      assert LoopFrom(rounds[i..], last) == Loop(step, Caught(thrown.value, current, rounds[i].eofInHandler));
    }
  }

  /** One pass through the loop body, lines 55-71: the calls it makes, the
      value it leaves in `hl7_message`, and the exception that ends it. */
  method ReadAndForward(round: Round) returns (step: seq<Effect>, message: Option<Message>, thrown: Option<Exc>)
    ensures Pass(step, message, thrown) == Iterate(round)
  {
    step, message, thrown := [Read], None, None;
    match round.read {
      case ReadRaised(e) =>
        thrown := Some(e);
      case Received(m) =>
        message := Some(m);
        if round.parse.Raise? {
          thrown := Some(round.parse.error);
        } else if round.extract.Raise? {
          thrown := Some(round.extract.error);
        } else {
          step := step + [Send(m.text)];
          if round.send.Raise? {
            thrown := Some(round.send.error);
          } else {
            step := step + [WriteAck(AA, m), Drain];
            if round.drain.Raise? {
              thrown := Some(round.drain.error);
            }
          }
        }
    }
  }

  /** The `except` clauses, lines 73-115, given the caught exception, the
      value of `hl7_message` and what `at_eof()` answers inside the handler. */
  method HandleCaught(f: Redaction.Formatter, e: Exc, hl7Message: Option<Message>, atEof: bool) returns (acks: seq<Effect>, status: Status)
    ensures Handled(acks, status) == Handle(f, e, hl7Message, atEof)
  {
    acks, status := [], Ended;
    match e {
      case CancelledError =>
        status := Raised(Cancelled);
      case ParseException(text) =>
        var redacted := Redaction.Format(f, text);
        if redacted.Failure? {
          status := Raised(AttributeError(redacted.error));
        } else if hl7Message.None? {
          status := Raised(AttributeError("create_ack"));
        } else {
          acks := [WriteAck(AR, hl7Message.value)];
        }
      case IncompleteReadError(text) =>
        if !atEof {
          var redacted := Redaction.Format(f, text);
          if redacted.Failure? {
            status := Raised(AttributeError(redacted.error));
          } else if hl7Message.Some? {
            acks := [WriteAck(AE, hl7Message.value)];
          } else {
            status := Raised(FormattedException(redacted.value));
          }
        }
      case OtherException(text) =>
        var redacted := Redaction.Format(f, text);
        if redacted.Failure? {
          status := Raised(AttributeError(redacted.error));
        } else if hl7Message.Some? {
          acks := [WriteAck(AE, hl7Message.value)];
        } else {
          status := Raised(FormattedException(redacted.value));
        }
    }
  }

  /** `process_received_hl7_messages`, lines 40-127: the loop runs until
      `at_eof()` or the first exception, the handler for that exception
      runs, and the writer is closed on every path. */
  method ProcessReceivedHl7Messages(f: Redaction.Formatter, rounds: seq<Round>) returns (trace: seq<Effect>, status: Status)
    ensures Run(trace, status) == Session(f, rounds)
  {
    trace := [];
    var hl7Message: Option<Message> := None;
    var caught: Option<Exc> := None;
    var eofInHandler := false;
    var i := 0;
    while i < |rounds| && caught.None?
      invariant 0 <= i <= |rounds|
      invariant caught.None? ==>
                  var rest := LoopFrom(rounds[i..], hl7Message);
                  LoopFrom(rounds, None) == Loop(trace + rest.effects, rest.exit)
      invariant caught.Some? ==>
                  LoopFrom(rounds, None) == Loop(trace, Caught(caught.value, hl7Message, eofInHandler))
    {
      var step, message, thrown := ReadAndForward(rounds[i]);
      LoopAdvance(rounds, i, trace, hl7Message, step, message, thrown);
      trace := trace + step;
      if message.Some? {
        hl7Message := message;
      }
      caught := thrown;

      eofInHandler := rounds[i].eofInHandler;
      i := i + 1;
    }
    status := Ended;
    if caught.Some? {
      var acks;
      acks, status := HandleCaught(f, caught.value, hl7Message, eofInHandler);
      trace := trace + acks;
    }
    trace := trace + [Close, WaitClosed];
  }
}
