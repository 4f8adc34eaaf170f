// What the client prints for its input files, as one pass of the analyser over their lines: the server keeps
// the state of the analyser from line to line and from file to file (server_squoia.cc, analyzer_client.cc).
module AnalyserOutput {
  import opened Options
  import opened Framing
  import opened ClientServer

  // No line is one of the server's commands.
  ghost predicate PlainLines(lines: seq<string>)
  {
    forall i :: 0 <= i < |lines| ==> lines[i] != RESET_STATS && lines[i] != PRINT_STATS && lines[i] != FLUSH_BUFFER
  }

  ghost predicate PlainInputs(inputs: seq<seq<string>>)
  {
    forall f :: 0 <= f < |inputs| ==> PlainLines(inputs[f])
  }

  // A message is always answered, with the acknowledgement when there is no output.
  function Answer(out: Option<string>): string
  {
    match out
    case None => ACK
    case Some(text) => text
  }

  // Nothing is printed when there is no output, or when it is the text of the acknowledgement.
  function Visible(out: Option<string>): string
  {
    if out.Some? && out.value != ACK then out.value else ""
  }

  // The analyser over the lines of a file: its state behind them, and the text printed.
  function Analysed<A>(w: Worker<A>, a: A, lines: seq<string>): (A, string)
  {
    if lines == [] then (a, "")
    else
      var (a', out) := w.analyze(a, lines[0]);
      var (b, text) := Analysed(w, a', lines[1..]);
      (b, Visible(out) + text)
  }

  // File by file: the lines, then a flush from where they have led, and its state with the offset reset for
  // the next file.
  function AnalysedFiles<A>(w: Worker<A>, a: A, inputs: seq<seq<string>>): string
  {
    if inputs == [] then ""
    else
      var (b, text) := Analysed(w, a, inputs[0]);
      var (c, out) := w.flush(b);
      text + Visible(out) + AnalysedFiles(w, w.resetOffset(c), inputs[1..])
  }

  // ---- The replies to a part of the script. ----

  function StateAfter<A>(w: Worker<A>, a: A, messages: seq<string>): A
  {
    if messages == [] then a else StateAfter(w, Reply(w, a, messages[0]).0, messages[1..])
  }

  function ShownAfter<A>(w: Worker<A>, a: A, messages: seq<string>): string
  {
    if messages == [] then ""
    else Shown(Reply(w, a, messages[0]).1) + ShownAfter(w, Reply(w, a, messages[0]).0, messages[1..])
  }

  lemma {:induction false} MessagesAppend<A>(w: Worker<A>, a: A, us: seq<string>, vs: seq<string>)
    ensures StateAfter(w, a, us + vs) == StateAfter(w, StateAfter(w, a, us), vs)
    ensures ShownAfter(w, a, us + vs) == ShownAfter(w, a, us) + ShownAfter(w, StateAfter(w, a, us), vs)
  {
    hide Reply;
    if us == [] {
      assert us + vs == vs && "" + ShownAfter(w, a, vs) == ShownAfter(w, a, vs);
    } else {
      assert (us + vs)[1..] == us[1..] + vs;
      MessagesAppend(w, Reply(w, a, us[0]).0, us[1..], vs);
    }
  }

  lemma OneMessage<A>(w: Worker<A>, a: A, message: string)
    ensures StateAfter(w, a, [message]) == Reply(w, a, message).0
    ensures ShownAfter(w, a, [message]) == Shown(Reply(w, a, message).1)
  {
    hide Reply;
    assert [message][1..] == [];
    assert ShownAfter(w, Reply(w, a, message).0, [message][1..]) == "";
  }

  lemma LineReply<A>(w: Worker<A>, a: A, line: string)
    requires PlainLines([line])
    ensures Reply(w, a, line).0 == w.analyze(a, line).0
    ensures Reply(w, a, line).1 == Answer(w.analyze(a, line).1)
    ensures Shown(Reply(w, a, line).1) == Visible(w.analyze(a, line).1)
  {
    assert [line][0] == line;
  }

  lemma FlushReply<A>(w: Worker<A>, a: A)
    ensures Reply(w, a, FLUSH_BUFFER).0 == w.resetOffset(w.flush(a).0)
    ensures Reply(w, a, FLUSH_BUFFER).1 == Answer(w.flush(a).1)
    ensures Shown(Reply(w, a, FLUSH_BUFFER).1) == Visible(w.flush(a).1)
  {
  }

  lemma {:induction false} LinesShown<A>(w: Worker<A>, a: A, lines: seq<string>)
    requires PlainLines(lines)
    ensures (StateAfter(w, a, lines), ShownAfter(w, a, lines)) == Analysed(w, a, lines)
  {
    hide Reply, Visible, Shown;
    if lines == [] {
    } else {
      assert PlainLines([lines[0]]);
      LineReply(w, a, lines[0]);
      LinesShown(w, w.analyze(a, lines[0]).0, lines[1..]);
    }
  }

  lemma {:induction false} FilesShown<A>(w: Worker<A>, a: A, inputs: seq<seq<string>>)
    requires PlainInputs(inputs)
    ensures ShownAfter(w, a, Bodies(inputs)) == AnalysedFiles(w, a, inputs)
  {
    hide Reply, Visible, Shown, PlainLines, StateAfter, ShownAfter, Analysed;
    if inputs == [] {
      NoMessages(w, a);
    } else {
      var (b, text) := Analysed(w, a, inputs[0]);
      var later := Bodies(inputs[1..]);
      LinesShown(w, a, inputs[0]);
      FlushReply(w, b);
      OneMessage(w, b, FLUSH_BUFFER);
      MessagesAppend(w, a, inputs[0] + [FLUSH_BUFFER], later);
      MessagesAppend(w, a, inputs[0], [FLUSH_BUFFER]);
      assert forall f :: 0 <= f < |inputs[1..]| ==> inputs[1..][f] == inputs[f + 1];
      FilesShown(w, w.resetOffset(w.flush(b).0), inputs[1..]);
    }
  }

  lemma NoMessages<A>(w: Worker<A>, a: A)
    ensures ShownAfter(w, a, []) == "" && StateAfter(w, a, []) == a
  {
  }

  // The states and the printed text of the exchange are those.
  lemma {:induction false} ExchangeShows<A>(w: Worker<A>, script: seq<string>, i: nat)
    requires 1 <= i <= |script|
    ensures WorkerAfter(w, script, i) == StateAfter(w, w.start, script[..i])
    ensures PrintedAfter(w, script, i) == ShownAfter(w, StateAfter(w, w.start, script[..1]), script[1..i])
  {
    hide Reply, Shown, StateAfter, ShownAfter;
    var n := i - 1;
    assert script[..i] == script[..n] + [script[n]];
    MessagesAppend(w, w.start, script[..n], [script[n]]);
    NoMessages(w, w.start);
    OneMessage(w, StateAfter(w, w.start, script[..n]), script[n]);
    if i == 1 {
      assert script[..n] == [] && script[1..i] == [];
      NoMessages(w, StateAfter(w, w.start, script[..1]));
    } else {
      ExchangeShows(w, script, n);
      var first := StateAfter(w, w.start, script[..1]);
      assert script[1..i] == script[1..n] + [script[n]] && script[..n] == script[..1] + script[1..n];
      MessagesAppend(w, w.start, script[..1], script[1..n]);
      MessagesAppend(w, first, script[1..n], [script[n]]);
      OneMessage(w, StateAfter(w, first, script[1..n]), script[n]);
    }
  }

  // For input files without command lines, a run that cannot go on has printed what the analyser gives for
  // their lines and a flush behind each file.
  lemma PrintedIsAnalysed<A(!new)>(w: Worker<A>, inputs: seq<seq<string>>, steps: seq<Step>)
    requires NulFree(w) && forall f, i :: 0 <= f < |inputs| && 0 <= i < |inputs[f]| ==> NUL !in inputs[f][i]
    requires Runs(w, Script(inputs), Init(w), steps)
    requires forall step :: !Enabled(Script(inputs), Exec(w, Script(inputs), Init(w), steps), step)
    requires PlainInputs(inputs)
    ensures Exec(w, Script(inputs), Init(w), steps).printed == AnalysedFiles(w, w.resetStats(w.start), inputs)
  {
    hide Reply, Enabled, Next, Runs, Exec, PrintedAfter, StateAfter, ShownAfter, NulFree, Bodies, PlainInputs;
    var script := Script(inputs);
    MaximalRunsComplete(w, inputs, steps);
    ExchangeShows(w, script, |script|);
    assert script[..1] == [RESET_STATS] && script[1..|script|] == Bodies(inputs);
    OneMessage(w, w.start, RESET_STATS);
    ResetReply(w, w.start);
    FilesShown(w, w.resetStats(w.start), inputs);
  }

  lemma ResetReply<A>(w: Worker<A>, a: A)
    ensures Reply(w, a, RESET_STATS) == (w.resetStats(a), ACK)
  {
  }

  // Commands among the lines: statistics are printed from the state as it is and leave it alone, a reset prints
  // nothing.
  lemma CommandsAnswered<A>(w: Worker<A>, a: A, us: seq<string>, vs: seq<string>)
    ensures var b := StateAfter(w, a, us);
      ShownAfter(w, a, us + ([PRINT_STATS] + vs))
      == ShownAfter(w, a, us) + (Visible(Some(w.statsText(b))) + ShownAfter(w, b, vs))
    ensures ShownAfter(w, a, us + ([RESET_STATS] + vs))
      == ShownAfter(w, a, us) + ShownAfter(w, w.resetStats(StateAfter(w, a, us)), vs)
  {
    var b := StateAfter(w, a, us);
    StatsReply(w, b);
    ResetReply(w, b);
    hide Reply, StateAfter, ShownAfter;
    MessagesAppend(w, a, us, [PRINT_STATS] + vs);
    MessagesAppend(w, b, [PRINT_STATS], vs);
    MessagesAppend(w, a, us, [RESET_STATS] + vs);
    MessagesAppend(w, b, [RESET_STATS], vs);
    OneMessage(w, b, PRINT_STATS);
    OneMessage(w, b, RESET_STATS);
    var later := ShownAfter(w, w.resetStats(b), vs);
    assert "" + later == later;
  }

  lemma StatsReply<A>(w: Worker<A>, a: A)
    ensures Reply(w, a, PRINT_STATS) == (a, w.statsText(a))
  {
  }
}
