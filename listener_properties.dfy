/** What `process_received_hl7_messages` promises, stated over the Session
    model: the happy path, the first exception ending the session, the
    acknowledgment chosen for each kind of failure, the writer closed on
    every path and acknowledgments built from a stale `hl7_message`. */
module ListenerProperties {
  import opened Results
  import opened Listener
  import Redaction

  predicate AllHappy(rounds: seq<Round>) {
    forall i :: 0 <= i < |rounds| ==> Happy(rounds[i])
  }

  /** The calls of a pass in which nothing raises: read, forward, AA, drain. */
  function Accepted(m: Message): seq<Effect> {
    [Read, Send(m.text), WriteAck(AA, m), Drain]
  }

  function HappyTrace(rounds: seq<Round>): seq<Effect>
    requires AllHappy(rounds)
  {
    if rounds == [] then [] else Accepted(rounds[0].read.message) + HappyTrace(rounds[1..])
  }

  /** What `hl7_message` holds when round `j` raises, every earlier round
      having succeeded: the message of round `j` if its read returned one,
      otherwise the message of round `j - 1`, otherwise `last`. */
  function HeldAt(rounds: seq<Round>, j: nat, last: Option<Message>): Option<Message>
    requires j < |rounds|
  {
    if rounds[j].read.Received? then Some(rounds[j].read.message)
    else if j == 0 then last
    else if rounds[j - 1].read.Received? then Some(rounds[j - 1].read.message)
    else last
  }

  lemma {:induction false} HappyLoop(rounds: seq<Round>, last: Option<Message>)
    requires AllHappy(rounds)
    ensures LoopFrom(rounds, last) == Loop(HappyTrace(rounds), Exhausted)
    decreases |rounds|
  {
    if rounds != [] {
      assert Happy(rounds[0]);
      assert AllHappy(rounds[1..]) by {
        forall i | 0 <= i < |rounds[1..]| ensures Happy(rounds[1..][i]) { assert rounds[1..][i] == rounds[i + 1]; }
      }
      HappyLoop(rounds[1..], Some(rounds[0].read.message));
    }
  }

  /** Happy path: per message, in this order, one send of its text, one AA
      acknowledgment built from it and one drain; then the writer is closed
      and the session ends normally. */
  lemma HappySession(f: Redaction.Formatter, rounds: seq<Round>)
    requires AllHappy(rounds)
    ensures Session(f, rounds) == Run(HappyTrace(rounds) + [Close, WaitClosed], Ended)
  {
    HappyLoop(rounds, None);
    var loop := LoopFrom(rounds, None);
    assert loop.exit == Exhausted;
    assert HappyTrace(rounds) + [] == HappyTrace(rounds);
  }

  lemma PrefixHappy(rounds: seq<Round>, j: nat)
    requires j <= |rounds| && forall i :: 0 <= i < j ==> Happy(rounds[i])
    ensures AllHappy(rounds[..j])
  {
    forall i | 0 <= i < j ensures Happy(rounds[..j][i]) { assert rounds[..j][i] == rounds[i]; }
  }

  lemma {:induction false} LoopToFirstFailure(rounds: seq<Round>, j: nat, last: Option<Message>)
    requires j < |rounds|
    requires forall i :: 0 <= i < j ==> Happy(rounds[i])
    requires !Happy(rounds[j])
    ensures AllHappy(rounds[..j])
    ensures var p := Iterate(rounds[j]);
            LoopFrom(rounds, last) ==
              Loop(HappyTrace(rounds[..j]) + p.effects,
                   Caught(p.thrown.value, HeldAt(rounds, j, last), rounds[j].eofInHandler))
    decreases j
  {
    PrefixHappy(rounds, j);
    if j == 0 {
      assert rounds[..j] == [];
    } else {
      var m := rounds[0].read.message;
      var tail := rounds[1..];
      assert FirstFailureAt(tail, j - 1) by {
        forall i | 0 <= i < j - 1 ensures Happy(tail[i]) { assert tail[i] == rounds[i + 1]; }
        assert tail[j - 1] == rounds[j];
      }
      LoopToFirstFailure(tail, j - 1, Some(m));
      LoopHappyHead(rounds, last);
      HappyTraceHead(rounds, j, Iterate(rounds[j]).effects);
      assert HeldAt(tail, j - 1, Some(m)) == HeldAt(rounds, j, last) by {
        assert tail[j - 1] == rounds[j];
        if j > 1 { assert tail[j - 2] == rounds[j - 1]; }
      }
    }
  }

  /** A first round in which nothing raises contributes its accepted pass and
      leaves its message in `hl7_message`. */
  lemma LoopHappyHead(rounds: seq<Round>, last: Option<Message>)
    requires |rounds| > 0 && Happy(rounds[0])
    ensures var m := rounds[0].read.message;
            var rest := LoopFrom(rounds[1..], Some(m));
            LoopFrom(rounds, last) == Loop(Accepted(m) + rest.effects, rest.exit)
  {
    var m := rounds[0].read.message;
    assert Iterate(rounds[0]) == Pass(Accepted(m), Some(m), None);
  }

  lemma HappyTraceHead(rounds: seq<Round>, j: nat, after: seq<Effect>)
    requires 0 < j <= |rounds| && AllHappy(rounds[..j])
    ensures AllHappy(rounds[1..][..j - 1])
    ensures HappyTrace(rounds[..j]) + after
            == Accepted(rounds[0].read.message) + (HappyTrace(rounds[1..][..j - 1]) + after)
  {
    assert rounds[..j][1..] == rounds[1..][..j - 1];
    assert rounds[..j][0] == rounds[0];
    var t := rounds[1..][..j - 1];
    forall i | 0 <= i < |t| ensures Happy(t[i]) {
      assert t[i] == rounds[..j][i + 1];
    }
  }

  /** The session up to and including the first pass that raises: what the
      earlier passes did, what that pass did, what the handler did with the
      exception and `hl7_message`, and the closing of the writer. Nothing of
      the later rounds is read. */
  lemma SessionAtFirstFailure(f: Redaction.Formatter, rounds: seq<Round>, j: nat)
    requires j < |rounds|
    requires forall i :: 0 <= i < j ==> Happy(rounds[i])
    requires !Happy(rounds[j])
    ensures AllHappy(rounds[..j])
    ensures var p := Iterate(rounds[j]);
            var h := Handle(f, p.thrown.value, HeldAt(rounds, j, None), rounds[j].eofInHandler);
            Session(f, rounds) == Run(HappyTrace(rounds[..j]) + p.effects + h.effects + [Close, WaitClosed], h.status)
  {
    LoopToFirstFailure(rounds, j, None);
  }

  /** Any exception caught by the handlers ends the session: the rounds after
      the first failing one make no difference. */
  lemma FailureEndsSession(f: Redaction.Formatter, rounds: seq<Round>, j: nat)
    requires j < |rounds|
    requires forall i :: 0 <= i < j ==> Happy(rounds[i])
    requires !Happy(rounds[j])
    ensures Session(f, rounds) == Session(f, rounds[..j + 1])
  {
    var cut := rounds[..j + 1];
    assert cut[j] == rounds[j] && cut[..j] == rounds[..j];
    forall i | 0 <= i < j ensures Happy(cut[i]) { assert cut[i] == rounds[i]; }
    if j > 0 { assert cut[j - 1] == rounds[j - 1]; }
    assert HeldAt(cut, j, None) == HeldAt(rounds, j, None);
    SessionAtFirstFailure(f, rounds, j);
    SessionAtFirstFailure(f, cut, j);
  }

  lemma {:induction false} HappyTraceAccepts(rounds: seq<Round>)
    requires AllHappy(rounds)
    ensures AcceptsFollowSends(HappyTrace(rounds))
    decreases |rounds|
  {
    if rounds != [] {
      assert AllHappy(rounds[1..]) by {
        forall i | 0 <= i < |rounds[1..]| ensures Happy(rounds[1..][i]) { assert rounds[1..][i] == rounds[i + 1]; }
      }
      HappyTraceAccepts(rounds[1..]);
      var a := Accepted(rounds[0].read.message);
      assert AcceptsFollowSends(a) by {
        forall k | 0 <= k < |a| && a[k].WriteAck? && a[k].code == AA
          ensures 0 < k && a[k - 1] == Send(a[k].ackOf.text)
        {
          assert k == 2;
        }
      }
      AcceptsFollowSendsConcat(a, HappyTrace(rounds[1..]));
    }
  }

  lemma PassAccepts(r: Round)
    ensures AcceptsFollowSends(Iterate(r).effects)
  {
    var t := Iterate(r).effects;
    forall k | 0 <= k < |t| && t[k].WriteAck? && t[k].code == AA
      ensures 0 < k && t[k - 1] == Send(t[k].ackOf.text)
    {
      assert k == 2;
    }
  }

  /** The first round that raises, when one does. */
  lemma {:induction false} FirstFailure(rounds: seq<Round>) returns (j: nat)
    requires !AllHappy(rounds)
    ensures j < |rounds| && !Happy(rounds[j])
    ensures forall i :: 0 <= i < j ==> Happy(rounds[i])
    decreases |rounds|
  {
    if !Happy(rounds[0]) {
      j := 0;
    } else {
      assert !AllHappy(rounds[1..]) by {
        var k :| 0 <= k < |rounds| && !Happy(rounds[k]);
        assert k > 0 && rounds[1..][k - 1] == rounds[k];
      }
      var j' := FirstFailure(rounds[1..]);
      j := j' + 1;
      forall i | 0 < i < j ensures Happy(rounds[i]) { assert rounds[i] == rounds[1..][i - 1]; }
      assert rounds[j] == rounds[1..][j'];
    }
  }

  /** No AA acknowledgment is ever written before the send of the message it
      acknowledges has completed: each one directly follows that send. */
  lemma AcceptOnlyAfterSend(f: Redaction.Formatter, rounds: seq<Round>)
    ensures AcceptsFollowSends(Session(f, rounds).trace)
  {
    var closing := [Close, WaitClosed];
    assert AcceptsFollowSends(closing) by {
      forall k | 0 <= k < |closing| ensures !closing[k].WriteAck? { }
    }
    if AllHappy(rounds) {
      HappySession(f, rounds);
      HappyTraceAccepts(rounds);
      AcceptsFollowSendsConcat(HappyTrace(rounds), closing);
    } else {
      var j := FirstFailure(rounds);
      SessionAtFirstFailure(f, rounds, j);
      var p := Iterate(rounds[j]);
      var h := Handle(f, p.thrown.value, HeldAt(rounds, j, None), rounds[j].eofInHandler);
      HappyTraceAccepts(rounds[..j]);
      PassAccepts(rounds[j]);
      assert AcceptsFollowSends(h.effects) by {
        forall k | 0 <= k < |h.effects| ensures h.effects[k].code != AA { }
      }
      AcceptsFollowSendsConcat(HappyTrace(rounds[..j]), p.effects);
      AcceptsFollowSendsConcat(HappyTrace(rounds[..j]) + p.effects, h.effects);
      AcceptsFollowSendsConcat(HappyTrace(rounds[..j]) + p.effects + h.effects, closing);
    }
  }

  /** Round `j` is the first one that raises. */
  predicate FirstFailureAt(rounds: seq<Round>, j: nat) {
    && j < |rounds|
    && (forall i :: 0 <= i < j ==> Happy(rounds[i]))
    && !Happy(rounds[j])
  }

  /** A parse failure of a message that was read: exactly one AR
      acknowledgment built from it, no send, no drain, no raise. */
  lemma ParseFailureRejects(f: Redaction.Formatter, rounds: seq<Round>, j: nat, m: Message, text: string)
    requires FirstFailureAt(rounds, j)
    requires rounds[j].read == Received(m) && rounds[j].parse == Raise(ParseException(text))
    requires Redaction.Format(f, text).Success?
    ensures AllHappy(rounds[..j])
    ensures Session(f, rounds) == Run(HappyTrace(rounds[..j]) + [Read, WriteAck(AR, m), Close, WaitClosed], Ended)
  {
    SessionAtFirstFailure(f, rounds, j);
  }

  /** `readmessage()` itself raising ParseException before any message was
      read: the handler has no None guard, so `None.create_ack` raises
      AttributeError and no acknowledgment is written. */
  lemma ParseFailureWithoutMessage(f: Redaction.Formatter, rounds: seq<Round>, text: string)
    requires |rounds| > 0 && rounds[0].read == ReadRaised(ParseException(text))
    requires Redaction.Format(f, text).Success?
    ensures Session(f, rounds) == Run([Read, Close, WaitClosed], Raised(AttributeError("create_ack")))
  {
    SessionAtFirstFailure(f, rounds, 0);
  }

  /** An IncompleteReadError while `at_eof()` answers True inside the handler:
      the peer has closed; no acknowledgment, nothing raised. */
  lemma IncompleteReadAtEof(f: Redaction.Formatter, rounds: seq<Round>, j: nat, text: string)
    requires FirstFailureAt(rounds, j)
    requires rounds[j].read == ReadRaised(IncompleteReadError(text)) && rounds[j].eofInHandler
    ensures AllHappy(rounds[..j])
    ensures Session(f, rounds) == Run(HappyTrace(rounds[..j]) + [Read, Close, WaitClosed], Ended)
  {
    SessionAtFirstFailure(f, rounds, j);
  }

  /** A failing sink send: the message is acknowledged AE and the failure
      does not propagate; only this connection ends. */
  lemma SinkFailureAcknowledgedAE(f: Redaction.Formatter, rounds: seq<Round>, j: nat, m: Message, text: string)
    requires FirstFailureAt(rounds, j)
    requires rounds[j].read == Received(m) && rounds[j].parse.Ok? && rounds[j].extract.Ok?
    requires rounds[j].send == Raise(OtherException(text))
    requires Redaction.Format(f, text).Success?
    ensures AllHappy(rounds[..j])
    ensures Session(f, rounds) ==
              Run(HappyTrace(rounds[..j]) + [Read, Send(m.text), WriteAck(AE, m), Close, WaitClosed], Ended)
  {
    SessionAtFirstFailure(f, rounds, j);
  }

  /** An unexpected IncompleteReadError, or any other Exception, raised by the
      very first read: no message exists, so the redacted text is raised. */
  lemma FirstReadFailureRaises(f: Redaction.Formatter, rounds: seq<Round>, text: string)
    requires |rounds| > 0
    requires rounds[0].read == ReadRaised(OtherException(text))
             || (rounds[0].read == ReadRaised(IncompleteReadError(text)) && !rounds[0].eofInHandler)
    requires Redaction.Format(f, text).Success?
    ensures Session(f, rounds) ==
              Run([Read, Close, WaitClosed], Raised(FormattedException(Redaction.Format(f, text).value)))
  {
    SessionAtFirstFailure(f, rounds, 0);
  }

  /** A CancelledError is caught by no handler (it is a BaseException from
      Python 3.8 on): it escapes unchanged, after the writer is closed, and
      no acknowledgment is written for it. */
  lemma CancellationEscapes(f: Redaction.Formatter, rounds: seq<Round>, j: nat)
    requires FirstFailureAt(rounds, j)
    requires Iterate(rounds[j]).thrown == Some(CancelledError)
    ensures AllHappy(rounds[..j])
    ensures Session(f, rounds) == Run(HappyTrace(rounds[..j]) + Iterate(rounds[j]).effects + [Close, WaitClosed], Raised(Cancelled))
  {
    SessionAtFirstFailure(f, rounds, j);
  }

  /** When redacting the exception text raises (`str.indexOf`), the handler
      fails before writing its acknowledgment: the AttributeError escapes and
      the sender gets no AR or AE. */
  lemma RedactionFailurePreemptsAck(f: Redaction.Formatter, rounds: seq<Round>, j: nat)
    requires FirstFailureAt(rounds, j)
    requires var e := Iterate(rounds[j]).thrown.value;
             && !e.CancelledError?
             && !(e.IncompleteReadError? && rounds[j].eofInHandler)
             && Redaction.Format(f, e.text).Failure?
    ensures AllHappy(rounds[..j])
    ensures Session(f, rounds) ==
              Run(HappyTrace(rounds[..j]) + Iterate(rounds[j]).effects + [Close, WaitClosed], Raised(AttributeError("indexOf")))
  {
    SessionAtFirstFailure(f, rounds, j);
  }

  lemma {:induction false} HappyTraceSnoc(rounds: seq<Round>)
    requires rounds != [] && AllHappy(rounds)
    ensures AllHappy(rounds[..|rounds| - 1])
    ensures HappyTrace(rounds) == HappyTrace(rounds[..|rounds| - 1]) + Accepted(rounds[|rounds| - 1].read.message)
    decreases |rounds|
  {
    var n := |rounds|;
    PrefixHappy(rounds, n - 1);
    if n > 1 {
      var tail := rounds[1..];
      assert AllHappy(tail) by {
        forall i | 0 <= i < |tail| ensures Happy(tail[i]) { assert tail[i] == rounds[i + 1]; }
      }
      HappyTraceSnoc(tail);
      assert tail[..|tail| - 1] == rounds[..n - 1][1..];
      assert rounds[..n - 1][0] == rounds[0];
      assert tail[|tail| - 1] == rounds[n - 1];
    } else {
      assert rounds[..0] == [];
    }
  }

  /** `hl7_message` is set to None once per connection. When a read fails
      after an earlier message was accepted, the AR or AE acknowledgment is
      built from that earlier message, which has already been acknowledged
      AA. */
  lemma StaleMessageAcknowledged(f: Redaction.Formatter, rounds: seq<Round>, j: nat, e: Exc)
    requires FirstFailureAt(rounds, j) && j > 0
    requires rounds[j].read == ReadRaised(e)
    requires e.ParseException? || e.OtherException? || (e.IncompleteReadError? && !rounds[j].eofInHandler)
    requires Redaction.Format(f, e.text).Success?
    ensures AllHappy(rounds[..j - 1])
    ensures var m := rounds[j - 1].read.message;
            var code := if e.ParseException? then AR else AE;
            Session(f, rounds) ==
              Run(HappyTrace(rounds[..j - 1])
                    + [Read, Send(m.text), WriteAck(AA, m), Drain]
                    + [Read, WriteAck(code, m), Close, WaitClosed],
                  Ended)
  {
    var m := rounds[j - 1].read.message;
    var code := if e.ParseException? then AR else AE;
    SessionAtFirstFailure(f, rounds, j);
    assert HappyTrace(rounds[..j]) == HappyTrace(rounds[..j - 1]) + Accepted(m) by {
      HappyTraceSnoc(rounds[..j]);
      assert rounds[..j][..j - 1] == rounds[..j - 1];
      assert rounds[..j][j - 1] == rounds[j - 1];
    }
    assert Iterate(rounds[j]).effects == [Read];
    assert Handle(f, e, HeldAt(rounds, j, None), rounds[j].eofInHandler).effects == [WriteAck(code, m)];
    Regroup(HappyTrace(rounds[..j - 1]), Accepted(m), [Read], [WriteAck(code, m)], [Close, WaitClosed]);
    assert [Read] + [WriteAck(code, m)] + [Close, WaitClosed] == [Read, WriteAck(code, m), Close, WaitClosed];
  }

  /** Proved on its own so that the regrouping is not searched for inside the
      larger session proofs, where it roughly doubles their cost. */
  lemma Regroup(h: seq<Effect>, a: seq<Effect>, x: seq<Effect>, y: seq<Effect>, z: seq<Effect>)
    ensures h + a + x + y + z == h + a + (x + y + z)
  {
  }

  /** The texts of the messages that some round read, parsed and typed. */
  ghost function Forwardable(rounds: seq<Round>): set<string> {
    set j | 0 <= j < |rounds| && rounds[j].read.Received? && rounds[j].parse.Ok? && rounds[j].extract.Ok?
      :: rounds[j].read.message.text
  }

  lemma {:induction false} LoopForwardsOnlyParsed(rounds: seq<Round>, last: Option<Message>)
    ensures forall x :: Send(x) in LoopFrom(rounds, last).effects ==> x in Forwardable(rounds)
    decreases |rounds|
  {
    if rounds != [] {
      var p := Iterate(rounds[0]);
      var current := if p.message.Some? then p.message else last;
      if p.thrown.None? {
        LoopForwardsOnlyParsed(rounds[1..], current);
        forall j | 0 <= j < |rounds[1..]| ensures rounds[1..][j] == rounds[j + 1] { }
      }
      forall x | Send(x) in p.effects ensures x in Forwardable(rounds) {
        assert rounds[0].read.Received? && rounds[0].parse.Ok? && rounds[0].extract.Ok?;
      }
    }
  }

  /** Only a message that was read, parsed and typed in this session is ever
      forwarded to the sink; the handlers forward nothing. */
  lemma SessionForwardsOnlyParsed(f: Redaction.Formatter, rounds: seq<Round>)
    ensures forall x :: Send(x) in Session(f, rounds).trace ==> x in Forwardable(rounds)
  {
    var loop := LoopFrom(rounds, None);
    LoopForwardsOnlyParsed(rounds, None);
    var h := match loop.exit
      case Exhausted => Handled([], Ended)
      case Caught(e, last, eof) => Handle(f, e, last, eof);
    assert Session(f, rounds).trace == loop.effects + h.effects + [Close, WaitClosed];
  }

  /** With the intended truncating formatter, redaction never preempts the
      handler: every caught exception other than a cancellation or the end
      of stream, met while a message is held, gets its AR or AE
      acknowledgment and the session ends quietly. */
  lemma TruncatingFormatterAcknowledges(rounds: seq<Round>, j: nat)
    requires FirstFailureAt(rounds, j)
    requires var e := Iterate(rounds[j]).thrown.value;
             && !e.CancelledError?
             && !(e.IncompleteReadError? && rounds[j].eofInHandler)
             && HeldAt(rounds, j, None).Some?
    ensures AllHappy(rounds[..j])
    ensures var e := Iterate(rounds[j]).thrown.value;
            var code := if e.ParseException? then AR else AE;
            Session(Redaction.Truncating, rounds) ==
              Run(HappyTrace(rounds[..j]) + Iterate(rounds[j]).effects
                  + [WriteAck(code, HeldAt(rounds, j, None).value), Close, WaitClosed], Ended)
  {
    SessionAtFirstFailure(Redaction.Truncating, rounds, j);
    var p := Iterate(rounds[j]);
    var h := Handle(Redaction.Truncating, p.thrown.value, HeldAt(rounds, j, None), rounds[j].eofInHandler);
    assert HappyTrace(rounds[..j]) + p.effects + h.effects + [Close, WaitClosed]
        == HappyTrace(rounds[..j]) + p.effects + (h.effects + [Close, WaitClosed]);
  }
}
