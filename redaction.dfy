/** `exception_formatter` of the listener: the redaction applied to every
    exception text before it is logged or re-raised. It substitutes the
    regular expression `"MSH\|.*"` by `<hl7message>` and then, if `MSH|` is
    still present, calls `str.indexOf`, a method Python strings do not have. */
module Redaction {
  import opened Results

  const Placeholder: string := "<hl7message>"
  /** The text a match starts with: a double quote and the MSH segment id. */
  const OpenMarker: string := "\"MSH|"
  const Header: string := "MSH|"
  const TruncationNote: string := " <message truncated>"

  /** The number of characters before the first line feed (`.` in a Python
      regular expression matches every character but `\n`, so `\r` too). */
  function LineLength(s: string): (n: nat)
    ensures n <= |s|
    ensures forall k :: 0 <= k < n ==> s[k] != '\n'
    ensures n < |s| ==> s[n] == '\n'
  {
    if s == [] || s[0] == '\n' then 0 else 1 + LineLength(s[1..])
  }

  /** The index of the last double quote of `s`. */
  function LastQuote(s: string): (r: Option<nat>)
    ensures r.Some? ==> r.value < |s| && s[r.value] == '"'
    ensures r.Some? ==> forall k :: r.value < k < |s| ==> s[k] != '"'
    ensures r.None? ==> '"' !in s
  {
    if s == [] then None
    else match LastQuote(s[1..])
      case Some(j) => Some(j + 1)
      case None => if s[0] == '"' then Some(0) else None
  }

  /** Where a match of `"MSH\|.*"` that starts at index 0 of `s` ends: the
      index of its closing quote, which greedy `.*` puts on the last double
      quote before the next line feed. None when no match starts at 0. */
  function MatchEnd(s: string): (r: Option<nat>)
    ensures r.Some? ==> 5 <= r.value < |s| && s[..5] == OpenMarker && s[r.value] == '"'
    ensures r.Some? ==> '\n' !in s[5..r.value]
  {
    if |s| < 5 || s[..5] != OpenMarker then None
    else
      var rest := s[5..];
      match LastQuote(rest[..LineLength(rest)])
      case Some(j) => Some(5 + j)
      case None => None
  }

  /** Greedy `.*` ends a match at the last quote of its line: no quote
      follows it before the next line feed, and when a text starts with the
      marker but has no match, no quote follows the marker on its line. */
  lemma MatchEndLastQuote(s: string)
    ensures MatchEnd(s).Some? ==>
              forall k :: MatchEnd(s).value < k < |s| && s[k] == '"' ==> '\n' in s[MatchEnd(s).value..k]
    ensures MatchEnd(s).None? && |s| >= 5 && s[..5] == OpenMarker ==>
              forall k :: 5 <= k < |s| && s[k] == '"' ==> '\n' in s[5..k]
  {
    if |s| >= 5 && s[..5] == OpenMarker {
      var rest := s[5..];
      var n := LineLength(rest);
      assert forall i :: 5 <= i < 5 + n ==> s[i] == rest[..n][i - 5];
      match LastQuote(rest[..n])
      case Some(j) =>
        forall k | 5 + j < k < |s| && s[k] == '"'
          ensures '\n' in s[5 + j..k]
        {
          assert s[5 + j..k][5 + n - (5 + j)] == '\n';
        }
      case None =>
        forall k | 5 <= k < |s| && s[k] == '"'
          ensures '\n' in s[5..k]
        {
          assert s[5..k][n] == '\n';
        }
    }
  }

  /** `re.sub(r'\"MSH\|.*\"', "<hl7message>", s)`: scanning left to right,
      each match is replaced and scanning resumes after it. Every match
      holds a double quote followed by `MSH|`, so a text lacking either is
      left as it is. */
  function Substitute(s: string): (r: string)
    ensures !ContainsHeader(s) ==> r == s
    ensures '"' !in s ==> r == s
    decreases |s|
  {
    if s == [] then []
    else match MatchEnd(s)
      case Some(j) =>
        // a match opens with a quote followed by `MSH|`
        assert s[0] == '"' && ContainsHeader(s[1..]) by {
          assert s[..5][0] == s[0];
          assert s[1..][..4] == s[..5][1..];
        }
        Placeholder + Substitute(s[j + 1..])
      case None =>
        assert [s[0]] + s[1..] == s;
        [s[0]] + Substitute(s[1..])
  }

  /** `"MSH|" in s`. */
  predicate ContainsHeader(s: string) {
    |s| >= 4 && (s[..4] == Header || ContainsHeader(s[1..]))
  }

  /** `exception_formatter` as written: the substituted text, or the
      AttributeError raised by `str.indexOf` (its error names the missing
      attribute) whenever `MSH|` survives the substitution. */
  function ExceptionFormatter(s: string): (r: Result<string, string>)
    ensures r.Failure? <==> ContainsHeader(Substitute(s))
    ensures r.Success? ==> r.value == Substitute(s) && !ContainsHeader(r.value)
    ensures r.Failure? ==> r.error == "indexOf"
  {
    var t := Substitute(s);
    if ContainsHeader(t) then Failure("indexOf") else Success(t)
  }

  lemma HeaderFreeTail(s: string)
    requires !ContainsHeader(s) && s != []
    ensures !ContainsHeader(s[1..])
  {
  }

  /** Text containing no `MSH|` is returned unchanged. */
  lemma HeaderFreeUnchanged(s: string)
    requires !ContainsHeader(s)
    ensures ExceptionFormatter(s) == Success(s)
  {
  }

  /** Any successful result is a fixed point: formatting twice is formatting once. */
  lemma FormatterIdempotent(s: string)
    requires ExceptionFormatter(s).Success?
    ensures ExceptionFormatter(ExceptionFormatter(s).value) == ExceptionFormatter(s)
  {
    HeaderFreeUnchanged(ExceptionFormatter(s).value);
  }

  /** No match can start inside a prefix that holds no double quote. */
  lemma {:induction false} SubstituteQuoteFreePrefix(pre: string, s: string)
    requires '"' !in pre
    ensures Substitute(pre + s) == pre + Substitute(s)
    decreases |pre|
  {
    if pre != [] {
      // regrouped index by index, before any fact about Substitute is in scope
      var r := Substitute(s);
      var glued := [pre[0]] + (pre[1..] + r);
      forall k | 0 <= k < |glued| ensures glued[k] == (pre + r)[k] {
        if k > 0 { assert glued[k] == (pre[1..] + r)[k - 1]; }
      }
      assert glued == pre + r;
      var t := pre + s;
      assert Substitute(t) == [pre[0]] + Substitute(pre[1..] + s) by {
        assert t[0] == pre[0] && t[0] != '"';
        assert MatchEnd(t).None? by { if |t| >= 5 { assert t[..5][0] == t[0]; } }
        assert t[1..] == pre[1..] + s;
      }
      SubstituteQuoteFreePrefix(pre[1..], s);
    } else {
      assert pre + s == s;
    }
  }

  /** `"MSH|`, the text every match starts with, occurs in `s`. */
  predicate ContainsMarker(s: string) {
    |s| >= 5 && (s[..5] == OpenMarker || ContainsMarker(s[1..]))
  }

  /** No match starts at the head of a text free of `"MSH|`, even when text
      opening with a double quote follows it: such a quote cannot complete a
      marker begun earlier. So the substitution keeps that head character. */
  lemma MarkerFreeHeadKept(pre: string, s: string)
    requires !ContainsMarker(pre) && pre != []
    requires s == [] || s[0] == '"'
    ensures !ContainsMarker(pre[1..])
    ensures Substitute(pre + s) == [pre[0]] + Substitute(pre[1..] + s)
  {
    var t := pre + s;
    assert MatchEnd(t).None? by {
      if |t| >= 5 {
        if |pre| >= 5 {
          assert t[..5] == pre[..5];
        } else {
          assert t[..5][|pre|] == '"' != OpenMarker[|pre|];
        }
      }
    }
    assert t[1..] == pre[1..] + s;
  }

  /** No match can start inside a prefix free of `"MSH|` when what follows
      it opens with a double quote (or is empty). */
  lemma {:induction false} SubstituteMarkerFreePrefix(pre: string, s: string)
    requires !ContainsMarker(pre)
    requires s == [] || s[0] == '"'
    ensures Substitute(pre + s) == pre + Substitute(s)
    decreases |pre|
  {
    if pre == [] {
      assert pre + s == s;
    } else {
      // regrouped index by index, before any fact about Substitute is in scope
      var r := Substitute(s);
      var glued := [pre[0]] + (pre[1..] + r);
      forall k | 0 <= k < |glued| ensures glued[k] == (pre + r)[k] {
        if k > 0 { assert glued[k] == (pre[1..] + r)[k - 1]; }
      }
      assert glued == pre + r;
      MarkerFreeHeadKept(pre, s);
      SubstituteMarkerFreePrefix(pre[1..], s);
    }
  }

  lemma {:induction false} LineLengthSkips(a: string, b: string)
    requires '\n' !in a
    ensures LineLength(a + b) == |a| + LineLength(b)
    decreases |a|
  {
    if a != [] {
      assert (a + b)[0] == a[0] && a[0] != '\n';
      assert (a + b)[1..] == a[1..] + b;
      LineLengthSkips(a[1..], b);
    } else {
      assert a + b == b;
    }
  }

  lemma {:induction false} LastQuoteBeforeQuoteFree(a: string, b: string)
    requires '"' !in b
    ensures LastQuote(a + "\"" + b) == Some(|a|)
    decreases |a|
  {
    if a == [] {
      assert a + "\"" + b == "\"" + b;
      assert ("\"" + b)[1..] == b;
    } else {
      assert (a + "\"" + b)[1..] == a[1..] + "\"" + b;
      LastQuoteBeforeQuoteFree(a[1..], b);
    }
  }

  lemma MatchEndOfRun(run: string, post: string)
    requires '\n' !in run
    requires '"' !in post[..LineLength(post)]
    ensures MatchEnd(OpenMarker + run + "\"" + post) == Some(5 + |run|)
  {
    var q := OpenMarker + run + "\"" + post;
    var rest := q[5..];
    assert q[..5] == OpenMarker;
    assert rest == (run + "\"") + post;
    LineLengthSkips(run + "\"", post);
    var line := rest[..LineLength(rest)];
    assert line == run + "\"" + post[..LineLength(post)];
    LastQuoteBeforeQuoteFree(run, post[..LineLength(post)]);
  }

  lemma SubstituteRun(run: string, post: string)
    requires '\n' !in run
    requires '"' !in post[..LineLength(post)]
    ensures Substitute(OpenMarker + run + "\"" + post) == Placeholder + Substitute(post)
  {
    var q := OpenMarker + run + "\"" + post;
    MatchEndOfRun(run, post);
    assert q[5 + |run| + 1..] == post;
  }

  /** A quoted run `"MSH|…"` is replaced by the placeholder. Greedy `.*`
      carries the match to the last double quote of its line, so the run may
      itself contain quotes, but not a line feed, and the rest of its line
      must be free of quotes. Text before the run is kept as it is when no
      `"MSH|` occurs in it, so no earlier match can swallow the run. */
  lemma QuotedRunRedacted(pre: string, run: string, post: string)
    requires !ContainsMarker(pre)
    requires '\n' !in run
    requires '"' !in post[..LineLength(post)]
    ensures Substitute(pre + OpenMarker + run + "\"" + post) == pre + Placeholder + Substitute(post)
  {
    var q := OpenMarker + run + "\"" + post;
    assert pre + OpenMarker + run + "\"" + post == pre + q;
    assert q[0] == '"';
    SubstituteMarkerFreePrefix(pre, q);
    SubstituteRun(run, post);
    var r := Substitute(post);
    var glued := pre + (Placeholder + r);
    forall k | 0 <= k < |glued| ensures glued[k] == (pre + Placeholder + r)[k] {
      if k < |pre| {
        assert (pre + Placeholder)[k] == pre[k];
      } else if k < |pre + Placeholder| {
        assert (pre + Placeholder)[k] == Placeholder[k - |pre|];
        assert glued[k] == (Placeholder + r)[k - |pre|];
      } else {
        assert glued[k] == (Placeholder + r)[k - |pre|];
      }
    }
    assert glued == pre + Placeholder + r;
  }

  /** Finding (as written): text holding `MSH|` but no double quote, such as
      an unquoted segment in a parser's error message, is not matched, so
      `str.indexOf` is reached and the formatter raises instead of returning. */
  lemma UnquotedHeaderRaises(s: string)
    requires '"' !in s && ContainsHeader(s)
    ensures ExceptionFormatter(s) == Failure("indexOf")
  {
  }

  /** The index of the first `MSH|` in `s`. */
  function HeaderIndex(s: string): (k: nat)
    requires ContainsHeader(s)
    ensures k + 4 <= |s| && s[k..k + 4] == Header
  {
    if s[..4] == Header then 0 else 1 + HeaderIndex(s[1..])
  }

  lemma {:induction false} NoHeaderBeforeFirst(s: string)
    requires ContainsHeader(s)
    ensures !ContainsHeader(s[..HeaderIndex(s)])
    decreases |s|
  {
    if s[..4] != Header {
      NoHeaderBeforeFirst(s[1..]);
      var p := s[..HeaderIndex(s)];
      assert p[1..] == s[1..][..HeaderIndex(s[1..])];
      if |p| >= 4 { assert p[..4] == s[..4]; }
    }
  }

  lemma {:induction false} NoCapitalM(s: string)
    requires forall k :: 0 <= k < |s| ==> s[k] != 'M'
    ensures !ContainsHeader(s)
    decreases |s|
  {
    if |s| >= 4 {
      assert s[..4][0] == s[0];
      NoCapitalM(s[1..]);
    }
  }

  lemma NoteHasNoHeader()
    ensures !ContainsHeader(TruncationNote)
  {
    assert forall k :: 0 <= k < |TruncationNote| ==> TruncationNote[k] != 'M';
    NoCapitalM(TruncationNote);
  }

  /** A header-free text followed by the note cannot start a header: the note
      starts with a space. */
  lemma NoHeaderAtStartWithNote(p: string)
    requires !ContainsHeader(p) && p != []
    ensures (p + TruncationNote)[..4] != Header
  {
    var t := p + TruncationNote;
    if |p| >= 4 {
      assert t[..4] == p[..4];
    } else {
      assert t[|p|] == ' ';
      assert t[..4][|p|] == ' ';
    }
  }

  lemma {:induction false} NoHeaderWithNote(p: string)
    requires !ContainsHeader(p)
    ensures !ContainsHeader(p + TruncationNote)
    decreases |p|
  {
    var t := p + TruncationNote;
    if p == [] {
      assert !ContainsHeader(t) by {
        assert t == TruncationNote;
        NoteHasNoHeader();
      }
    } else {
      assert !ContainsHeader(t) by {
        assert t[1..] == p[1..] + TruncationNote;
        HeaderFreeTail(p);
        NoHeaderWithNote(p[1..]);
        NoHeaderAtStartWithNote(p);
      }
    }
  }

  /** Finding (intended): the truncation line 35 was meant to perform, with
      `str.find` in place of `indexOf`. It never fails, never lets `MSH|`
      through, and is idempotent. */
  function TruncatingFormatter(s: string): (r: string)
    ensures !ContainsHeader(r)
    ensures !ContainsHeader(Substitute(s)) ==> r == Substitute(s)
    ensures ContainsHeader(Substitute(s)) ==>
              r == Substitute(s)[..HeaderIndex(Substitute(s))] + TruncationNote
  {
    var t := Substitute(s);
    if ContainsHeader(t) then
      NoHeaderBeforeFirst(t);
      NoHeaderWithNote(t[..HeaderIndex(t)]);
      t[..HeaderIndex(t)] + TruncationNote
    else t
  }

  lemma TruncatingFormatterIdempotent(s: string)
    ensures TruncatingFormatter(TruncatingFormatter(s)) == TruncatingFormatter(s)
  {
  }

  /** Where the as-written formatter succeeds, the intended one agrees with it. */
  lemma FormattersAgreeOnSuccess(s: string)
    requires ExceptionFormatter(s).Success?
    ensures TruncatingFormatter(s) == ExceptionFormatter(s).value
  {
  }

  /** Which formatter the handlers call: `exception_formatter` as written, or
      the truncation it was meant to perform. */
  datatype Formatter = AsWritten | Truncating

  function Format(f: Formatter, s: string): (r: Result<string, string>)
    ensures r.Success? ==> !ContainsHeader(r.value)
    ensures f.Truncating? ==> r.Success?
    ensures r.Failure? ==> f.AsWritten? && ContainsHeader(Substitute(s))
  {
    match f
    case AsWritten => ExceptionFormatter(s)
    case Truncating => Success(TruncatingFormatter(s))
  }
}
