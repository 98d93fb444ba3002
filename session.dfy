/** The receive loop of one remote-control connection
    (RemoteControlServer.handle_client): chunks are appended to a buffer,
    the buffer is cut at every "\n", and each non-blank stripped line goes
    to the dispatcher; an exception ends the session. */
module Session {
  import opened Wrappers
  import opened Sequences
  import opened Commands

  /** The characters Python's `str.strip()` removes (`str.isspace()`). */
  const WHITESPACE: set<char> := {
    '\t', '\n', '\U{0B}', '\U{0C}', '\r', '\U{1C}', '\U{1D}', '\U{1E}', '\U{1F}', ' ',
    '\U{85}', '\U{A0}', '\U{1680}',
    '\U{2000}', '\U{2001}', '\U{2002}', '\U{2003}', '\U{2004}', '\U{2005}',
    '\U{2006}', '\U{2007}', '\U{2008}', '\U{2009}', '\U{200A}',
    '\U{2028}', '\U{2029}', '\U{202F}', '\U{205F}', '\U{3000}'
  }

  /** The lines, each followed by its "\n". */
  function Terminated(lines: seq<string>): string
    decreases |lines|
  {
    if lines == [] then [] else lines[0] + ['\n'] + Terminated(lines[1..])
  }

  lemma TerminatedCons(line: string, lines: seq<string>, rest: string)
    ensures Terminated([line] + lines) + rest == line + ['\n'] + (Terminated(lines) + rest)
  {
    assert ([line] + lines)[1..] == lines;
  }

  lemma {:induction false} TerminatedAppend(a: seq<string>, b: seq<string>)
    ensures Terminated(a + b) == Terminated(a) + Terminated(b)
    decreases |a|
  {
    if a != [] {
      assert (a + b)[1..] == a[1..] + b;
      TerminatedAppend(a[1..], b);
      assert Terminated(a + b) == a[0] + ['\n'] + (Terminated(a[1..]) + Terminated(b));
    } else {
      assert a + b == b;
    }
  }

  lemma CutAtNewline(s: string, i: nat)
    requires i < |s| && s[i] == '\n'
    ensures s == s[..i] + ['\n'] + s[i + 1..]
  {
  }

  /** A receive buffer cut into its complete lines (without their "\n")
      and the unterminated text after the last "\n". */
  datatype Framing = Framing(lines: seq<string>, rest: string)

  /** Cutting `s` at its first newline `i` in front of a framing of what
      follows it frames `s`. */
  lemma FramedCons(s: string, i: nat, f: Framing)
    requires i < |s| && s[i] == '\n' && '\n' !in s[..i]
    requires Terminated(f.lines) + f.rest == s[i + 1..]
    requires forall k :: 0 <= k < |f.lines| ==> '\n' !in f.lines[k]
    ensures Terminated([s[..i]] + f.lines) + f.rest == s
    ensures forall k :: 0 <= k < |[s[..i]] + f.lines| ==> '\n' !in ([s[..i]] + f.lines)[k]
  {
    TerminatedCons(s[..i], f.lines, f.rest);
    CutAtNewline(s, i);
    var lines := [s[..i]] + f.lines;
    assert forall k :: 1 <= k < |lines| ==> lines[k] == f.lines[k - 1];
  }

  /** Repeatedly cutting the buffer at its first newline until none is left. */
  function Frame(s: string): (f: Framing)
    ensures Terminated(f.lines) + f.rest == s
    ensures forall k :: 0 <= k < |f.lines| ==> '\n' !in f.lines[k]
    ensures '\n' !in f.rest
    decreases |s|
  {
    FindSingle(s, '\n');
    match Find(s, ['\n'])
    case None => Framing([], s)
    case Some(i) =>
      var f := Frame(s[i + 1..]);
      FramedCons(s, i, f);
      Framing([s[..i]] + f.lines, f.rest)
  }

  /** Frame is the only way to cut `s` into newline-free lines and a
      newline-free rest. */
  lemma {:induction false} FrameUnique(s: string, lines: seq<string>, rest: string)
    requires Terminated(lines) + rest == s
    requires forall k :: 0 <= k < |lines| ==> '\n' !in lines[k]
    requires '\n' !in rest
    ensures Frame(s) == Framing(lines, rest)
    decreases |lines|
  {
    if lines == [] {
      FindSingle(s, '\n');
    } else {
      var l := lines[0];
      var after := Terminated(lines[1..]) + rest;
      assert [l] + lines[1..] == lines;
      TerminatedCons(l, lines[1..], rest);
      assert s[..|l|] == l && s[|l|] == '\n' && s[|l| + 1..] == after;
      FindSingleAt(s, '\n', |l|);
      FrameUnique(after, lines[1..], rest);
      FrameFirst(s, |l|);
      FramingCons(Frame(s), l, Frame(after), lines, rest);
    }
  }

  lemma FramingCons(whole: Framing, line: string, after: Framing, lines: seq<string>, rest: string)
    requires lines != [] && lines[0] == line
    requires whole == Framing([line] + after.lines, after.rest)
    requires after == Framing(lines[1..], rest)
    ensures whole == Framing(lines, rest)
  {
    assert [line] + lines[1..] == lines;
  }

  /** A framing of `s` followed by a framing of its rest and `t` together
      frame `s + t`. */
  lemma JoinFramings(s: string, t: string, f: Framing, g: Framing)
    requires Terminated(f.lines) + f.rest == s
    requires forall k :: 0 <= k < |f.lines| ==> '\n' !in f.lines[k]
    requires Terminated(g.lines) + g.rest == f.rest + t
    requires forall k :: 0 <= k < |g.lines| ==> '\n' !in g.lines[k]
    ensures Terminated(f.lines + g.lines) + g.rest == s + t
    ensures forall k :: 0 <= k < |f.lines + g.lines| ==> '\n' !in (f.lines + g.lines)[k]
  {
    TerminatedAppend(f.lines, g.lines);
    var head, tail := Terminated(f.lines), Terminated(g.lines);
    assert (head + tail) + g.rest == head + (tail + g.rest);
    assert head + (f.rest + t) == (head + f.rest) + t;
    var lines := f.lines + g.lines;
    assert forall k :: |f.lines| <= k < |lines| ==> lines[k] == g.lines[k - |f.lines|];
  }

  /** The framing of a buffer does not depend on where it was cut into
      chunks: framing `s + t` is framing `s`, then framing what `s` left
      over followed by `t`. */
  lemma FrameAppend(s: string, t: string)
    ensures Frame(s + t) ==
      Framing(Frame(s).lines + Frame(Frame(s).rest + t).lines, Frame(Frame(s).rest + t).rest)
  {
    var f := Frame(s);
    var g := Frame(f.rest + t);
    JoinFramings(s, t, f, g);
    FrameUnique(s + t, f.lines + g.lines, g.rest);
  }

  /** A line as it reaches the dispatcher: not blank, and neither end is
      whitespace. */
  predicate Trimmed(line: string) {
    line != [] && line[0] !in WHITESPACE && line[|line| - 1] !in WHITESPACE
  }

  lemma StripTrimmed(s: string)
    ensures Strip(s, WHITESPACE) != [] ==> Trimmed(Strip(s, WHITESPACE))
  {
  }

  /** `line = line.strip()` on every line, keeping the non-blank ones. */
  function CommandLines(pieces: seq<string>): (lines: seq<string>)
    ensures |lines| <= |pieces|
    ensures forall k :: 0 <= k < |lines| ==> Trimmed(lines[k])
    decreases |pieces|
  {
    if pieces == [] then []
    else
      var line := Strip(pieces[0], WHITESPACE);
      StripTrimmed(pieces[0]);
      var more := CommandLines(pieces[1..]);
      if line == [] then more else [line] + more
  }

  lemma {:induction false} CommandLinesAppend(a: seq<string>, b: seq<string>)
    ensures CommandLines(a + b) == CommandLines(a) + CommandLines(b)
    decreases |a|
  {
    if a == [] {
      assert a + b == b;
    } else {
      assert (a + b)[0] == a[0];
      assert (a + b)[1..] == a[1..] + b;
      CommandLinesAppend(a[1..], b);
    }
  }

  /** What running lines through the dispatcher did: the actions issued,
      how many lines were handed to it, and whether the last one raised. */
  datatype Outcome = Outcome(actions: seq<Action>, dispatched: nat, failed: bool)

  /** `process_command` returns without raising on `line`. */
  predicate Accepted(line: string) {
    Dispatch(line).Success?
  }

  /** `process_command` on each line in order, stopping at the first
      exception. */
  function RunCommands(lines: seq<string>): (o: Outcome)
    ensures o.dispatched <= |lines| && |o.actions| <= o.dispatched
    ensures !o.failed ==> o.dispatched == |lines|
    ensures o.failed ==> o.dispatched > 0 && !Accepted(lines[o.dispatched - 1])
    ensures forall k :: 0 <= k < o.dispatched - (if o.failed then 1 else 0) ==> Accepted(lines[k])
    decreases |lines|
  {
    if lines == [] then Outcome([], 0, false)
    else
      match Dispatch(lines[0])
      case Failure(_) => Outcome([], 1, true)
      case Success(acts) =>
        var o := RunCommands(lines[1..]);
        assert forall k :: 1 <= k < |lines| ==> lines[k] == lines[1..][k - 1];
        Outcome(acts + o.actions, o.dispatched + 1, o.failed)
  }

  /** The outcome of `b` following a run that did not fail. */
  function Then(o: Outcome, next: Outcome): Outcome {
    Outcome(o.actions + next.actions, o.dispatched + next.dispatched, next.failed)
  }

  /** Running `a + b` is running `a` and, unless it failed, then `b`. */
  lemma {:induction false} RunAppend(a: seq<string>, b: seq<string>)
    ensures RunCommands(a + b) ==
      if RunCommands(a).failed then RunCommands(a) else Then(RunCommands(a), RunCommands(b))
    decreases |a|
  {
    if a == [] {
      assert a + b == b;
    } else {
      assert (a + b)[0] == a[0];
      assert (a + b)[1..] == a[1..] + b;
      RunAppend(a[1..], b);
      RunFirst(a);
      RunFirst(a + b);
      PrependThen(Dispatch(a[0]), RunCommands(a[1..]), RunCommands(b));
    }
  }

  /** The outcome of the first line followed by that of the others. */
  function Prepend(d: Result<seq<Action>, CommandError>, o: Outcome): Outcome {
    match d
    case Failure(_) => Outcome([], 1, true)
    case Success(acts) => Outcome(acts + o.actions, o.dispatched + 1, o.failed)
  }

  lemma RunFirst(lines: seq<string>)
    requires lines != []
    ensures RunCommands(lines) == Prepend(Dispatch(lines[0]), RunCommands(lines[1..]))
  {
  }

  lemma PrependThen(d: Result<seq<Action>, CommandError>, o: Outcome, p: Outcome)
    ensures Prepend(d, if o.failed then o else Then(o, p)) ==
      if Prepend(d, o).failed then Prepend(d, o) else Then(Prepend(d, o), p)
  {
    if d.Success? {
      assert d.value + (o.actions + p.actions) == (d.value + o.actions) + p.actions;
    }
  }

  /** What a session does with everything it has received so far. Only
      completed lines are dispatched: nothing happens before the first
      newline. */
  function SessionOutcome(stream: string): (o: Outcome)
    ensures o.dispatched <= |Frame(stream).lines|
    ensures '\n' !in stream ==> o == Outcome([], 0, false)
  {
    FindSingle(stream, '\n');
    RunCommands(CommandLines(Frame(stream).lines))
  }

  /** The session's behaviour depends on the bytes, not on the chunks they
      arrived in: after `s`, receiving `t` does what running the lines
      completed by `t`, starting from the leftover of `s`, does. */
  lemma SessionOutcomeAppend(s: string, t: string)
    ensures var o := SessionOutcome(s);
      SessionOutcome(s + t) ==
        if o.failed then o
        else Then(o, RunCommands(CommandLines(Frame(Frame(s).rest + t).lines)))
  {
    var f := Frame(s);
    var g := Frame(f.rest + t);
    FrameAppend(s, t);
    CommandLinesAppend(f.lines, g.lines);
    RunAppend(CommandLines(f.lines), CommandLines(g.lines));
  }

  /** Frame unfolded once: the first line, then the framing of the rest. */
  lemma FrameFirst(buffer: string, i: nat)
    requires Find(buffer, ['\n']) == Some(i)
    ensures i < |buffer| && buffer[i] == '\n'
    ensures Frame(buffer) ==
      Framing([buffer[..i]] + Frame(buffer[i + 1..]).lines, Frame(buffer[i + 1..]).rest)
  {
    OccursSingle(buffer, '\n', i);
    var after := buffer[i + 1..];
    var f := Frame(after);
    assert Frame(buffer) == Framing([buffer[..i]] + f.lines, f.rest);
  }

  /** Taking the first line off the buffer keeps the text received so far. */
  lemma CutKeepsText(whole: string, pieces: seq<string>, buffer: string, i: nat)
    requires Terminated(pieces) + buffer == whole
    requires i < |buffer| && buffer[i] == '\n'
    ensures Terminated(pieces + [buffer[..i]]) + buffer[i + 1..] == whole
  {
    var line, after := buffer[..i], buffer[i + 1..];
    TerminatedAppend(pieces, [line]);
    TerminatedCons(line, [], []);
    CutAtNewline(buffer, i);
    var done := Terminated(pieces);
    assert Terminated([line]) == line + ['\n'];
    assert (done + (line + ['\n'])) + after == done + (line + ['\n'] + after);
  }

  /** Taking the first line off the buffer keeps the framing of everything
      received so far. */
  lemma CutKeepsFraming(whole: string, pieces: seq<string>, buffer: string, i: nat)
    requires Frame(whole) == Framing(pieces + Frame(buffer).lines, Frame(buffer).rest)
    requires Find(buffer, ['\n']) == Some(i)
    ensures i < |buffer| && buffer[i] == '\n'
    ensures Frame(whole) ==
      Framing((pieces + [buffer[..i]]) + Frame(buffer[i + 1..]).lines, Frame(buffer[i + 1..]).rest)
  {
    FrameFirst(buffer, i);
    Regroup(Frame(whole), pieces, Frame(buffer), buffer[..i], Frame(buffer[i + 1..]));
  }

  lemma Regroup(whole: Framing, pieces: seq<string>, buffer: Framing, line: string, after: Framing)
    requires whole == Framing(pieces + buffer.lines, buffer.rest)
    requires buffer == Framing([line] + after.lines, after.rest)
    ensures whole == Framing((pieces + [line]) + after.lines, after.rest)
  {
    assert pieces + ([line] + after.lines) == (pieces + [line]) + after.lines;
  }

  /** With no newline left, the lines cut off so far are all the lines. */
  lemma Drained(whole: string, pieces: seq<string>, buffer: string)
    requires Frame(whole) == Framing(pieces + Frame(buffer).lines, Frame(buffer).rest)
    requires !Contains(buffer, ['\n'])
    ensures Frame(whole) == Framing(pieces, buffer)
  {
    FindSingle(buffer, '\n');
    assert pieces + [] == pieces;
  }

  lemma StripNext(pieces: seq<string>, piece: string)
    ensures CommandLines(pieces + [piece]) ==
      CommandLines(pieces) + (if Strip(piece, WHITESPACE) == [] then [] else [Strip(piece, WHITESPACE)])
  {
    CommandLinesAppend(pieces, [piece]);
    CommandLinesOne(piece);
  }

  lemma CommandLinesOne(piece: string)
    ensures CommandLines([piece]) == if Strip(piece, WHITESPACE) == [] then [] else [Strip(piece, WHITESPACE)]
  {
    assert [piece][0] == piece && [piece][1..] == [];
  }

  lemma RunOne(line: string)
    ensures RunCommands([line]) ==
      if Accepted(line) then Outcome(Dispatch(line).value, 1, false) else Outcome([], 1, true)
  {
    assert [line][0] == line && [line][1..] == [];
  }

  /** Dispatching one more line after a run that did not fail. */
  lemma DispatchNext(lines: seq<string>, actions: seq<Action>, line: string)
    requires RunCommands(lines) == Outcome(actions, |lines|, false)
    ensures RunCommands(lines + [line]) ==
      if Accepted(line) then Outcome(actions + Dispatch(line).value, |lines| + 1, false)
      else Outcome(actions, |lines| + 1, true)
  {
    RunAppend(lines, [line]);
    RunOne(line);
  }

  /** Once a line fails, the lines still in the buffer do not matter. */
  lemma Stopped(whole: string, pieces: seq<string>, buffer: string, lines: seq<string>, actions: seq<Action>)
    requires Frame(whole) == Framing(pieces + Frame(buffer).lines, Frame(buffer).rest)
    requires lines == CommandLines(pieces)
    requires RunCommands(lines) == Outcome(actions, |lines|, true)
    ensures RunCommands(CommandLines(Frame(whole).lines)) == Outcome(actions, |lines|, true)
    ensures CommandLines(Frame(whole).lines)[..|lines|] == lines
  {
    CommandLinesAppend(pieces, Frame(buffer).lines);
    RunAppend(lines, CommandLines(Frame(buffer).lines));
  }

  /** What the receive loop keeps true of everything received so far
      (`whole`): the lines already taken off, the buffer still to be
      framed, the command lines and the actions dispatched so far. */
  ghost predicate Consumed(whole: string, pieces: seq<string>, buffer: string,
                           lines: seq<string>, actions: seq<Action>)
  {
    Terminated(pieces) + buffer == whole &&
    Frame(whole) == Framing(pieces + Frame(buffer).lines, Frame(buffer).rest) &&
    lines == CommandLines(pieces) &&
    RunCommands(lines) == Outcome(actions, |lines|, false)
  }

  /** One turn of the receive loop takes the first line off the buffer
      (SkipBlank, TakeAccepted, TakeRejected): a blank line is skipped. */
  lemma SkipBlank(whole: string, pieces: seq<string>, buffer: string,
                  lines: seq<string>, actions: seq<Action>, i: nat)
    requires Consumed(whole, pieces, buffer, lines, actions)
    requires Find(buffer, ['\n']) == Some(i)
    requires Strip(buffer[..i], WHITESPACE) == []
    ensures Consumed(whole, pieces + [buffer[..i]], buffer[i + 1..], lines, actions)
  {
    CutKeepsFraming(whole, pieces, buffer, i);
    CutKeepsText(whole, pieces, buffer, i);
    StripNext(pieces, buffer[..i]);
  }

  /** An accepted line adds its actions. */
  lemma TakeAccepted(whole: string, pieces: seq<string>, buffer: string,
                     lines: seq<string>, actions: seq<Action>, i: nat, line: string)
    requires Consumed(whole, pieces, buffer, lines, actions)
    requires Find(buffer, ['\n']) == Some(i)
    requires line == Strip(buffer[..i], WHITESPACE) && line != [] && Accepted(line)
    ensures Consumed(whole, pieces + [buffer[..i]], buffer[i + 1..], lines + [line],
                     actions + Dispatch(line).value)
  {
    CutKeepsFraming(whole, pieces, buffer, i);
    CutKeepsText(whole, pieces, buffer, i);
    StripNext(pieces, buffer[..i]);
    DispatchNext(lines, actions, line);
  }

  /** A rejected line ends the session with the outcome of the whole
      stream: nothing after it is dispatched. */
  lemma TakeRejected(whole: string, pieces: seq<string>, buffer: string,
                     lines: seq<string>, actions: seq<Action>, i: nat, line: string)
    requires Consumed(whole, pieces, buffer, lines, actions)
    requires Find(buffer, ['\n']) == Some(i)
    requires line == Strip(buffer[..i], WHITESPACE) && line != [] && !Accepted(line)
    ensures Terminated(pieces + [buffer[..i]]) + buffer[i + 1..] == whole
    ensures RunCommands(CommandLines(Frame(whole).lines)) == Outcome(actions, |lines| + 1, true)
    ensures CommandLines(Frame(whole).lines)[..|lines| + 1] == lines + [line]
    ensures StartsWith(Frame(whole).lines, pieces + [buffer[..i]])
  {
    CutKeepsFraming(whole, pieces, buffer, i);
    CutKeepsText(whole, pieces, buffer, i);
    StripNext(pieces, buffer[..i]);
    DispatchNext(lines, actions, line);
    Stopped(whole, pieces + [buffer[..i]], buffer[i + 1..], lines + [line], actions);
  }

  /** What is left after some terminated lines ends the text. */
  lemma TextAfterLines(whole: string, pieces: seq<string>, rest: string)
    requires Terminated(pieces) + rest == whole
    ensures EndsWith(whole, rest)
  {
    assert whole[|whole| - |rest|..] == rest;
  }

  /** When no newline is left in the buffer, the loop has dispatched every
      line of everything received so far, and the buffer holds exactly the
      unterminated rest. */
  lemma Finished(whole: string, pieces: seq<string>, buffer: string,
                 lines: seq<string>, actions: seq<Action>)
    requires Consumed(whole, pieces, buffer, lines, actions)
    requires !Contains(buffer, ['\n'])
    ensures var f := Frame(whole);
      var o := RunCommands(CommandLines(f.lines));
      actions == o.actions && !o.failed && lines == CommandLines(f.lines)[..o.dispatched] &&
      pieces == f.lines && buffer == f.rest && '\n' !in buffer
  {
    Drained(whole, pieces, buffer);
    FindSingle(buffer, '\n');
  }

  /** The state of one connection's handler: its receive buffer, and
      whether the loop is still running. */
  class LineSession {
    var buffer: string
    var open: bool

    constructor ()
      ensures buffer == [] && open
    {
      buffer := [];
      open := true;
    }

    /** One round of the receive loop with the decoded chunk `recv`
        returned: an empty chunk ends the session; otherwise the chunk is
        appended and every complete line is taken off the buffer. `lines`
        are the lines handed to `process_command`, `actions` what they did,
        `pieces` the raw lines cut off the buffer. */
    method Feed(chunk: string) returns (lines: seq<string>, actions: seq<Action>, ghost pieces: seq<string>)
      requires open
      modifies this
      ensures chunk == [] ==> !open && buffer == old(buffer) && lines == [] && actions == [] && pieces == []
      ensures chunk != [] ==> Terminated(pieces) + buffer == old(buffer) + chunk
      ensures chunk != [] ==>
        var f := Frame(old(buffer) + chunk);
        var o := RunCommands(CommandLines(f.lines));
        actions == o.actions && open == !o.failed &&
        lines == CommandLines(f.lines)[..o.dispatched] &&
        (open ==> pieces == f.lines && buffer == f.rest && '\n' !in buffer) &&
        (!open ==> StartsWith(f.lines, pieces) && EndsWith(old(buffer) + chunk, buffer))
    {
      lines, actions, pieces := [], [], [];
      if chunk == [] {
        open := false;
        return;
      }
      ghost var whole := buffer + chunk;
      var pending := buffer + chunk;
      while Contains(pending, ['\n'])
        invariant Consumed(whole, pieces, pending, lines, actions)
        invariant open && buffer == old(buffer)
        decreases |pending|
      {
        var i := Find(pending, ['\n']).value;
        var piece, after := pending[..i], pending[i + 1..];
        var line := Strip(piece, WHITESPACE);
        if line == [] {
          SkipBlank(whole, pieces, pending, lines, actions, i);
        } else {
          var r := Dispatch(line);
          if !r.Success? {
            TakeRejected(whole, pieces, pending, lines, actions, i, line);
            TextAfterLines(whole, pieces + [piece], after);
            pieces, lines := pieces + [piece], lines + [line];
            buffer, open := after, false;
            return;
          }
          TakeAccepted(whole, pieces, pending, lines, actions, i, line);
          lines, actions := lines + [line], actions + r.value;
        }
        pieces, pending := pieces + [piece], after;
      }
      Finished(whole, pieces, pending, lines, actions);
      buffer := pending;
    }
  }

  /** The chunks `recv` delivered before the first empty one (the peer
      closed the connection). */
  function UntilClosed(chunks: seq<string>): seq<string>
    decreases |chunks|
  {
    if chunks == [] || chunks[0] == [] then [] else [chunks[0]] + UntilClosed(chunks[1..])
  }

  /** What is received is a prefix of non-empty chunks, cut at an empty
      chunk or at the end. */
  lemma {:induction false} UntilClosedShape(chunks: seq<string>)
    ensures var r := UntilClosed(chunks);
      |r| <= |chunks| && (forall k :: 0 <= k < |r| ==> r[k] == chunks[k] && r[k] != []) &&
      (|r| < |chunks| ==> chunks[|r|] == [])
    decreases |chunks|
  {
    if chunks != [] && chunks[0] != [] {
      UntilClosedShape(chunks[1..]);
      var r, t := UntilClosed(chunks), UntilClosed(chunks[1..]);
      assert r == [chunks[0]] + t;
      assert forall k :: 1 <= k < |r| ==> r[k] == t[k - 1];
    }
  }

  function Concat(chunks: seq<string>): string
    decreases |chunks|
  {
    if chunks == [] then [] else chunks[0] + Concat(chunks[1..])
  }

  lemma {:induction false} ConcatAppend(a: seq<string>, b: seq<string>)
    ensures Concat(a + b) == Concat(a) + Concat(b)
    decreases |a|
  {
    if a == [] {
      assert a + b == b;
    } else {
      assert (a + b)[1..] == a[1..] + b;
      ConcatAppend(a[1..], b);
    }
  }

  /** While no empty chunk came, the chunks so far are a prefix of what the
      session will have received. */
  lemma {:induction false} UntilClosedPrefix(chunks: seq<string>, n: nat)
    requires n <= |chunks|
    requires forall k :: 0 <= k < n ==> chunks[k] != []
    ensures UntilClosed(chunks) == chunks[..n] + UntilClosed(chunks[n..])
    decreases n
  {
    if n > 0 {
      assert chunks[1..][..n - 1] == chunks[1..n];
      assert chunks[1..][n - 1..] == chunks[n..];
      UntilClosedPrefix(chunks[1..], n - 1);
      assert chunks[..n] == [chunks[0]] + chunks[1..n];
    }
  }

  /** No chunk among the first `n` is empty. */
  predicate NoneEmpty(chunks: seq<string>, n: nat)
    requires n <= |chunks|
  {
    forall k :: 0 <= k < n ==> chunks[k] != []
  }

  lemma ReceivedNext(chunks: seq<string>, n: nat)
    requires n < |chunks|
    ensures Concat(chunks[..n + 1]) == Concat(chunks[..n]) + chunks[n]
  {
    assert chunks[..n + 1] == chunks[..n] + [chunks[n]];
    ConcatAppend(chunks[..n], [chunks[n]]);
    assert [chunks[n]][1..] == [];
    assert chunks[n] + [] == chunks[n];
  }

  /** An empty chunk ends what the session receives. */
  lemma ClosedAt(chunks: seq<string>, n: nat)
    requires n < |chunks| && NoneEmpty(chunks, n) && chunks[n] == []
    ensures Concat(UntilClosed(chunks)) == Concat(chunks[..n])
  {
    UntilClosedPrefix(chunks, n);
    assert UntilClosed(chunks[n..]) == [];
    assert chunks[..n] + [] == chunks[..n];
  }

  lemma NeverClosed(chunks: seq<string>)
    requires NoneEmpty(chunks, |chunks|)
    ensures UntilClosed(chunks) == chunks
  {
    UntilClosedPrefix(chunks, |chunks|);
    assert chunks[..|chunks|] == chunks;
    assert chunks[|chunks|..] == [];
    assert chunks + [] == chunks;
  }

  /** Once the text received so far makes a command raise, nothing received
      later changes the outcome. */
  lemma FailedAt(chunks: seq<string>, n: nat)
    requires n <= |chunks| && NoneEmpty(chunks, n)
    requires SessionOutcome(Concat(chunks[..n])).failed
    ensures SessionOutcome(Concat(UntilClosed(chunks))) == SessionOutcome(Concat(chunks[..n]))
  {
    UntilClosedPrefix(chunks, n);
    ConcatAppend(chunks[..n], UntilClosed(chunks[n..]));
    SessionOutcomeAppend(Concat(chunks[..n]), Concat(UntilClosed(chunks[n..])));
  }

  /** Feeding a chunk to a session whose buffer holds what was left of
      `received` continues the outcome of `received`. */
  lemma FeedContinues(received: string, buffer: string, chunk: string)
    requires buffer == Frame(received).rest && !SessionOutcome(received).failed
    ensures SessionOutcome(received + chunk) ==
      Then(SessionOutcome(received), RunCommands(CommandLines(Frame(buffer + chunk).lines)))
    ensures Frame(received + chunk).rest == Frame(buffer + chunk).rest
  {
    SessionOutcomeAppend(received, chunk);
    FrameAppend(received, chunk);
  }

  /** What the connection loop keeps true after `n` chunks while the
      session is open: none of them was empty, the actions are those of the
      text received so far, no command raised, and the buffer holds the
      unterminated rest of that text. */
  ghost predicate Serving(chunks: seq<string>, n: nat, actions: seq<Action>, buffer: string)
  {
    n <= |chunks| && NoneEmpty(chunks, n) &&
    actions == SessionOutcome(Concat(chunks[..n])).actions &&
    !SessionOutcome(Concat(chunks[..n])).failed &&
    buffer == Frame(Concat(chunks[..n])).rest
  }

  /** One turn of the connection loop: chunk `n` is fed to the session as
      LineSession.Feed promises; the session either stays open and the loop
      invariant moves on to `n + 1`, or it closed and the actions are final. */
  lemma ReceiveChunk(chunks: seq<string>, n: nat, actions: seq<Action>, buffer: string,
                     acts: seq<Action>, open: bool, after: string)
    requires n < |chunks| && Serving(chunks, n, actions, buffer)
    requires chunks[n] == [] ==> acts == [] && !open
    requires chunks[n] != [] ==>
      var f := Frame(buffer + chunks[n]);
      var o := RunCommands(CommandLines(f.lines));
      acts == o.actions && open == !o.failed && (open ==> after == f.rest)
    ensures open ==> Serving(chunks, n + 1, actions + acts, after)
    ensures !open ==> actions + acts == SessionOutcome(Concat(UntilClosed(chunks))).actions
  {
    var received := Concat(chunks[..n]);
    if chunks[n] == [] {
      ClosedAt(chunks, n);
      assert actions + acts == actions;
    } else {
      ReceivedNext(chunks, n);
      FeedContinues(received, buffer, chunks[n]);
      assert NoneEmpty(chunks, n + 1);
      if !open {
        FailedAt(chunks, n + 1);
      }
    }
  }

  /** Every chunk was received without the session closing. */
  lemma AllReceived(chunks: seq<string>, actions: seq<Action>, buffer: string)
    requires Serving(chunks, |chunks|, actions, buffer)
    ensures actions == SessionOutcome(Concat(UntilClosed(chunks))).actions
  {
    NeverClosed(chunks);
    assert chunks[..|chunks|] == chunks;
  }

  /** handle_client: runs the receive loop over the chunks `recv` returns,
      until the peer closes or a command raises. The actions are those of
      the text received before the close, however it was cut into chunks. */
  method HandleClient(chunks: seq<string>) returns (actions: seq<Action>)
    ensures actions == SessionOutcome(Concat(UntilClosed(chunks))).actions
  {
    var session := new LineSession();
    actions := [];
    var n := 0;
    assert chunks[..0] == [];
    while n < |chunks| && session.open
      invariant 0 <= n <= |chunks|
      invariant session.open ==> Serving(chunks, n, actions, session.buffer)
      invariant !session.open ==> actions == SessionOutcome(Concat(UntilClosed(chunks))).actions
      decreases |chunks| - n
    {
      ghost var buffer := session.buffer;
      var lines, acts, pieces := session.Feed(chunks[n]);
      ReceiveChunk(chunks, n, actions, buffer, acts, session.open, session.buffer);
      actions := actions + acts;
      n := n + 1;
    }
    if session.open {
      AllReceived(chunks, actions, session.buffer);
    }
  }

}
