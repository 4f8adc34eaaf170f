// The analyser client and a text-mode server worker, as one step system over two byte streams
// (analyzer_client.cc, server_squoia.cc, socket.h). Writes append a whole message; reads take any
// number of the bytes that are there.
module ClientServer {
  import opened Options
  import opened Framing

  const ACK := "FL-SERVER-READY"
  const RESET_STATS := "RESET_STATS"
  const PRINT_STATS := "PRINT_STATS"
  const FLUSH_BUFFER := "FLUSH_BUFFER"

  // The analyser and the statistics of one worker; A is their state. None is an empty sentence list.
  datatype Worker<!A> = Worker(
    start: A,
    analyze: (A, string) -> (A, Option<string>),
    flush: A -> (A, Option<string>),
    resetOffset: A -> A,
    resetStats: A -> A,
    statsText: A -> string)

  // OutputSentences: an empty list is answered with the acknowledgement.
  function Text(out: Option<string>): string
  {
    if out.Some? then out.value else ACK
  }

  // One iteration of process_text_incremental.
  function Reply<A>(w: Worker<A>, a: A, line: string): (A, string)
  {
    if line == RESET_STATS then (w.resetStats(a), ACK)
    else if line == PRINT_STATS then (a, w.statsText(a))
    else if line == FLUSH_BUFFER then
      var (a', out) := w.flush(a);
      (w.resetOffset(a'), Text(out))
    else
      var (a', out) := w.analyze(a, line);
      (a', Text(out))
  }

  function FinalReply<A>(w: Worker<A>, a: A): string
  {
    Text(w.flush(a).1)
  }

  // No reply contains the terminator.
  ghost predicate NulFree<A(!new)>(w: Worker<A>)
  {
    && (forall a, line :: NUL !in Reply(w, a, line).1)
    && (forall a :: NUL !in FinalReply(w, a))
  }

  // Everything the client sends: the handshake, then each input's lines and a flush.
  function Script(inputs: seq<seq<string>>): seq<string>
  {
    [RESET_STATS] + Bodies(inputs)
  }

  function Bodies(inputs: seq<seq<string>>): seq<string>
  {
    if inputs == [] then [] else inputs[0] + [FLUSH_BUFFER] + Bodies(inputs[1..])
  }

  // ---- What an exchange without a network would do. ----

  function WorkerAfter<A>(w: Worker<A>, script: seq<string>, i: nat): A
    requires i <= |script|
  {
    if i == 0 then w.start else Reply(w, WorkerAfter(w, script, i - 1), script[i - 1]).0
  }

  function ReplyTo<A>(w: Worker<A>, script: seq<string>, i: nat): string
    requires i < |script|
  {
    Reply(w, WorkerAfter(w, script, i), script[i]).1
  }

  // The client's printing after i replies; the first reply is the handshake's.
  function PrintedAfter<A>(w: Worker<A>, script: seq<string>, i: nat): string
    requires i <= |script|
  {
    if i <= 1 then ""
    else PrintedAfter(w, script, i - 1) + Shown(ReplyTo(w, script, i - 1))
  }

  function Shown(reply: string): string
  {
    if reply != ACK then reply else ""
  }

  // ---- The step system. ----

  datatype Client =
    | Sending(i: nat)                  // about to write message i, or to close after the last one
    | Awaiting(i: nat, acc: string)    // inside read_message for the reply to message i
    | Closed(ready: bool)

  datatype Server<A> =
    | Reading(anl: A, acc: string, nt: nat)  // inside read_message
    | Replying(anl: A, line: string)
    | Flushing(anl: A)                       // the read returned 0
    | Exited

  datatype State<A> = State(client: Client, server: Server<A>, c2s: string, s2c: string, printed: string)

  datatype Step =
    | ClientSend | ClientRead(k: nat) | ClientReadsEnd | ClientClose
    | ServerRead(k: nat) | ServerReadsEnd | ServerReply | ServerFlush

  predicate Readable(k: nat, pipe: string)
  {
    1 <= k <= |pipe| && k <= BUFF_SZ
  }

  // What the client does with a complete reply.
  function Received<A>(s: State<A>, i: nat, reply: string): State<A>
  {
    if i == 0 then s.(client := if reply == ACK then Sending(1) else Closed(false))
    else s.(client := Sending(i + 1), printed := s.printed + Shown(reply))
  }

  predicate Enabled<A>(script: seq<string>, s: State<A>, step: Step)
  {
    match step
    case ClientSend => s.client.Sending? && s.client.i < |script|
    case ClientRead(k) => s.client.Awaiting? && Readable(k, s.s2c)
    case ClientReadsEnd => s.client.Awaiting? && s.s2c == "" && s.server.Exited?
    case ClientClose => s.client.Sending? && s.client.i >= |script|
    case ServerRead(k) => s.server.Reading? && Readable(k, s.c2s)
    case ServerReadsEnd => s.server.Reading? && s.c2s == "" && s.client.Closed?
    case ServerReply => s.server.Replying?
    case ServerFlush => s.server.Flushing?
  }

  function Next<A>(w: Worker<A>, script: seq<string>, s: State<A>, step: Step): State<A>
    requires Enabled(script, s, step)
  {
    match step
    case ClientSend =>
      s.(c2s := s.c2s + script[s.client.i] + [NUL], client := Awaiting(s.client.i, ""))
    case ClientRead(k) =>
      var chunk := s.s2c[..k];
      var acc := s.client.acc + UpToNul(chunk);
      var s' := s.(s2c := s.s2c[k..]);
      if EndsMessage(chunk) then Received(s', s.client.i, acc)
      else s'.(client := Awaiting(s.client.i, acc))
    case ClientReadsEnd => Received(s, s.client.i, s.client.acc)
    case ClientClose => s.(client := Closed(true))
    case ServerRead(k) =>
      var chunk := s.c2s[..k];
      var acc := s.server.acc + UpToNul(chunk);
      var s' := s.(c2s := s.c2s[k..]);
      if EndsMessage(chunk) then s'.(server := Replying(s.server.anl, acc))
      else s'.(server := Reading(s.server.anl, acc, s.server.nt + k))
    case ServerReadsEnd =>
      if s.server.nt > 0 then s.(server := Replying(s.server.anl, s.server.acc))
      else s.(server := Flushing(s.server.anl))
    case ServerReply =>
      var (a, text) := Reply(w, s.server.anl, s.server.line);
      s.(s2c := s.s2c + text + [NUL], server := Reading(a, "", 0))
    case ServerFlush =>
      s.(s2c := s.s2c + FinalReply(w, s.server.anl) + [NUL], server := Exited)
  }

  function Init<A>(w: Worker<A>): State<A>
  {
    State(Sending(0), Reading(w.start, "", 0), "", "", "")
  }

  // ---- Lockstep: the invariant of every reachable state. ----

  ghost predicate Lockstep<A>(w: Worker<A>, script: seq<string>, s: State<A>)
  {
    match s.client
    case Sending(i) =>
      && i <= |script|
      && s.server == Reading(WorkerAfter(w, script, i), "", 0)
      && s.c2s == "" && s.s2c == ""
      && s.printed == PrintedAfter(w, script, i)
    case Awaiting(i, acc) =>
      && i < |script|
      && s.printed == PrintedAfter(w, script, i)
      && (RequestInFlight(w, script, s) || RequestRead(w, script, s) || ReplyInFlight(w, script, s))
    case Closed(ready) =>
      && ready && s.c2s == ""
      && s.printed == PrintedAfter(w, script, |script|)
      && var a := WorkerAfter(w, script, |script|);
         || (s.server == Reading(a, "", 0) && s.s2c == "")
         || (s.server == Flushing(a) && s.s2c == "")
         || (s.server == Exited && s.s2c == FinalReply(w, a) + [NUL])
  }

  // Message i is on its way to the server, which has read a part of it.
  ghost predicate RequestInFlight<A>(w: Worker<A>, script: seq<string>, s: State<A>)
    requires s.client.Awaiting? && s.client.i < |script|
  {
    && s.server.Reading? && s.server.anl == WorkerAfter(w, script, s.client.i)
    && s.c2s != "" && s.server.acc + s.c2s == script[s.client.i] + [NUL] && s.server.nt == |s.server.acc|
    && s.client.acc == "" && s.s2c == ""
  }

  // The server has read exactly message i.
  ghost predicate RequestRead<A>(w: Worker<A>, script: seq<string>, s: State<A>)
    requires s.client.Awaiting? && s.client.i < |script|
  {
    && s.server == Replying(WorkerAfter(w, script, s.client.i), script[s.client.i])
    && s.c2s == "" && s.client.acc == "" && s.s2c == ""
  }

  // The reply to message i is on its way to the client, which has read a part of it.
  ghost predicate ReplyInFlight<A>(w: Worker<A>, script: seq<string>, s: State<A>)
    requires s.client.Awaiting? && s.client.i < |script|
  {
    && s.server == Reading(WorkerAfter(w, script, s.client.i + 1), "", 0)
    && s.s2c != "" && s.client.acc + s.s2c == ReplyTo(w, script, s.client.i) + [NUL]
    && s.c2s == ""
  }

  ghost predicate WellFormed<A(!new)>(w: Worker<A>, script: seq<string>)
  {
    && NulFree(w)
    && (forall i :: 0 <= i < |script| ==> NUL !in script[i])
    && script != [] && script[0] == RESET_STATS
  }

  lemma InitIsLockstep<A(!new)>(w: Worker<A>, script: seq<string>)
    ensures Lockstep(w, script, Init(w))
  {
  }

  lemma AckReply<A(!new)>(w: Worker<A>, script: seq<string>)
    requires WellFormed(w, script)
    ensures ReplyTo(w, script, 0) == ACK
  {
  }

  lemma ServerReadKeepsLockstep<A(!new)>(w: Worker<A>, script: seq<string>, s: State<A>, k: nat)
    requires WellFormed(w, script) && Lockstep(w, script, s) && Enabled(script, s, ServerRead(k))
    ensures Lockstep(w, script, Next(w, script, s, ServerRead(k)))
  {
    var i := s.client.i;
    PartOfMessage(script[i], s.server.acc, s.c2s[..k], s.c2s[k..]);
  }

  lemma ClientReadKeepsLockstep<A(!new)>(w: Worker<A>, script: seq<string>, s: State<A>, k: nat)
    requires WellFormed(w, script) && Lockstep(w, script, s) && Enabled(script, s, ClientRead(k))
    ensures Lockstep(w, script, Next(w, script, s, ClientRead(k)))
  {
    AckReply(w, script);
    hide Reply, ReplyTo, WorkerAfter, UpToNul;
    var i := s.client.i;
    PartOfMessage(ReplyTo(w, script, i), s.client.acc, s.s2c[..k], s.s2c[k..]);
  }

  lemma StepKeepsLockstep<A(!new)>(w: Worker<A>, script: seq<string>, s: State<A>, step: Step)
    requires WellFormed(w, script) && Lockstep(w, script, s) && Enabled(script, s, step)
    ensures Lockstep(w, script, Next(w, script, s, step))
  {
    match step
    case ServerRead(k) => ServerReadKeepsLockstep(w, script, s, k);
    case ClientRead(k) => ClientReadKeepsLockstep(w, script, s, k);
    case _ =>
  }

  // ---- Runs: any interleaving of enabled steps. ----

  ghost predicate Runs<A>(w: Worker<A>, script: seq<string>, s: State<A>, steps: seq<Step>)
    decreases |steps|
  {
    steps != [] ==> Enabled(script, s, steps[0]) && Runs(w, script, Next(w, script, s, steps[0]), steps[1..])
  }

  ghost function Exec<A>(w: Worker<A>, script: seq<string>, s: State<A>, steps: seq<Step>): State<A>
    requires Runs(w, script, s, steps)
    decreases |steps|
  {
    if steps == [] then s else Exec(w, script, Next(w, script, s, steps[0]), steps[1..])
  }

  // Steps still to be taken: each message costs its writes and at most one read a byte.
  function Work<A>(w: Worker<A>, script: seq<string>, i: nat): nat
    decreases |script| - i
  {
    if i >= |script| then 3
    else |script[i]| + |ReplyTo(w, script, i)| + 4 + Work(w, script, i + 1)
  }

  function Measure<A>(w: Worker<A>, script: seq<string>, s: State<A>): nat
  {
    match s.client
    case Sending(i) => Work(w, script, i)
    case Awaiting(i, _) =>
      if i >= |script| then 0
      else if s.c2s != "" then |s.c2s| + |ReplyTo(w, script, i)| + 2 + Work(w, script, i + 1)
      else if s.server.Replying? then |ReplyTo(w, script, i)| + 2 + Work(w, script, i + 1)
      else |s.s2c| + Work(w, script, i + 1)
    case Closed(_) => if s.server.Exited? then 0 else if s.server.Flushing? then 1 else 2
  }

  lemma StepDecreases<A(!new)>(w: Worker<A>, script: seq<string>, s: State<A>, step: Step)
    requires WellFormed(w, script) && Lockstep(w, script, s) && Enabled(script, s, step)
    ensures Measure(w, script, Next(w, script, s, step)) < Measure(w, script, s)
  {
    match step
    case ServerRead(k) => ServerReadDecreases(w, script, s, k);
    case ClientRead(k) => ClientReadDecreases(w, script, s, k);
    case _ => hide Reply, WorkerAfter;
  }

  lemma ServerReadDecreases<A(!new)>(w: Worker<A>, script: seq<string>, s: State<A>, k: nat)
    requires WellFormed(w, script) && Lockstep(w, script, s) && Enabled(script, s, ServerRead(k))
    ensures Measure(w, script, Next(w, script, s, ServerRead(k))) < Measure(w, script, s)
  {
    hide Lockstep, WellFormed, Next, Measure, Work, ReplyTo;
    ReadsRequest(w, script, s, k);
    RequestShrinks(w, script, s, k);
    MeasureOfRequest(w, script, s);
    MeasureOfRequest(w, script, Next(w, script, s, ServerRead(k)));
  }

  // What the server reads is the client's last message.
  lemma ReadsRequest<A(!new)>(w: Worker<A>, script: seq<string>, s: State<A>, k: nat)
    requires WellFormed(w, script) && Lockstep(w, script, s) && Enabled(script, s, ServerRead(k))
    ensures s.client.Awaiting? && s.client.i < |script| && RequestInFlight(w, script, s)
    ensures NUL !in script[s.client.i]
  {
    hide Reply, WorkerAfter, PrintedAfter, ReplyTo;
  }

  lemma RequestShrinks<A(!new)>(w: Worker<A>, script: seq<string>, s: State<A>, k: nat)
    requires s.client.Awaiting? && s.client.i < |script| && RequestInFlight(w, script, s)
    requires NUL !in script[s.client.i] && Enabled(script, s, ServerRead(k))
    ensures var now := Next(w, script, s, ServerRead(k));
      && now.client == s.client && |now.c2s| < |s.c2s|
      && (now.c2s == "" ==> now.server.Replying?)
  {
    hide Reply, WorkerAfter, UpToNul, EndsMessage;
    PartOfMessage(script[s.client.i], s.server.acc, s.c2s[..k], s.c2s[k..]);
  }

  lemma MeasureOfRequest<A>(w: Worker<A>, script: seq<string>, s: State<A>)
    requires s.client.Awaiting? && s.client.i < |script| && (s.c2s == "" ==> s.server.Replying?)
    ensures Measure(w, script, s)
      == |s.c2s| + |ReplyTo(w, script, s.client.i)| + 2 + Work(w, script, s.client.i + 1)
  {
    hide Reply, WorkerAfter, ReplyTo, Work;
  }

  lemma ClientReadDecreases<A(!new)>(w: Worker<A>, script: seq<string>, s: State<A>, k: nat)
    requires WellFormed(w, script) && Lockstep(w, script, s) && Enabled(script, s, ClientRead(k))
    ensures Measure(w, script, Next(w, script, s, ClientRead(k))) < Measure(w, script, s)
  {
    hide Lockstep, WellFormed, Next, Measure, Work, ReplyTo, UpToNul, EndsMessage, ReplyInFlight;
    ReadsReply(w, script, s, k);
    AckReply(w, script);
    var i, chunk, left := s.client.i, s.s2c[..k], s.s2c[k..];
    MeasureInFlight(w, script, s);
    ReadsPart(w, script, s, k);
    if left == "" {
      MeasureReceived(w, script, s.(s2c := left), i, ReplyTo(w, script, i));
    } else {
      MeasureInFlight(w, script, Next(w, script, s, ClientRead(k)));
    }
  }

  lemma ReadsPart<A(!new)>(w: Worker<A>, script: seq<string>, s: State<A>, k: nat)
    requires s.client.Awaiting? && s.client.i < |script| && ReplyInFlight(w, script, s)
    requires NUL !in ReplyTo(w, script, s.client.i) && Enabled(script, s, ClientRead(k))
    ensures var i, left := s.client.i, s.s2c[k..];
      var now := Next(w, script, s, ClientRead(k));
      if left == "" then now == Received(s.(s2c := left), i, ReplyTo(w, script, i))
      else now.client.Awaiting? && now.client.i == i && now.s2c == left && ReplyInFlight(w, script, now)
  {
    hide Reply, WorkerAfter, ReplyTo, UpToNul, EndsMessage;
    PartOfMessage(ReplyTo(w, script, s.client.i), s.client.acc, s.s2c[..k], s.s2c[k..]);
  }

  lemma MeasureInFlight<A>(w: Worker<A>, script: seq<string>, s: State<A>)
    requires s.client.Awaiting? && s.client.i < |script| && ReplyInFlight(w, script, s)
    ensures Measure(w, script, s) == |s.s2c| + Work(w, script, s.client.i + 1) && s.s2c != ""
  {
    hide Reply, WorkerAfter, ReplyTo, Work;
  }

  lemma MeasureReceived<A>(w: Worker<A>, script: seq<string>, s: State<A>, i: nat, reply: string)
    requires i == 0 ==> reply == ACK
    ensures Measure(w, script, Received(s, i, reply)) == Work(w, script, i + 1)
  {
    hide Reply, WorkerAfter, ReplyTo, Work;
  }

  // What the client reads is the reply to its last message.
  lemma ReadsReply<A(!new)>(w: Worker<A>, script: seq<string>, s: State<A>, k: nat)
    requires WellFormed(w, script) && Lockstep(w, script, s) && Enabled(script, s, ClientRead(k))
    ensures s.client.Awaiting? && s.client.i < |script| && ReplyInFlight(w, script, s)
    ensures NUL !in ReplyTo(w, script, s.client.i)
  {
    hide Reply, WorkerAfter, PrintedAfter;
  }

  // Every run stays in lockstep, and none is longer than the measure of its first state.
  lemma {:induction false} RunsKeepLockstep<A(!new)>(w: Worker<A>, script: seq<string>, s: State<A>, steps: seq<Step>)
    requires WellFormed(w, script) && Lockstep(w, script, s) && Runs(w, script, s, steps)
    ensures Lockstep(w, script, Exec(w, script, s, steps))
    ensures |steps| + Measure(w, script, Exec(w, script, s, steps)) <= Measure(w, script, s)
    decreases |steps|
  {
    if steps == [] {
    } else {
      StepKeepsLockstep(w, script, s, steps[0]);
      StepDecreases(w, script, s, steps[0]);
      RunsKeepLockstep(w, script, Next(w, script, s, steps[0]), steps[1..]);
    }
  }

  ghost predicate Over<A>(s: State<A>)
  {
    s.client.Closed? && s.server.Exited?
  }

  // No deadlock: as long as the conversation is not over, someone can take a step.
  lemma NeverStuck<A(!new)>(w: Worker<A>, script: seq<string>, s: State<A>) returns (step: Step)
    requires WellFormed(w, script) && Lockstep(w, script, s) && !Over(s)
    ensures Enabled(script, s, step)
  {
    match s.client
    case Sending(i) =>
      step := if i < |script| then ClientSend else ClientClose;
    case Awaiting(i, _) =>
      step := if s.c2s != "" then ServerRead(1) else if s.server.Replying? then ServerReply else ClientRead(1);
    case Closed(_) =>
      step := if s.server.Flushing? then ServerFlush else ServerReadsEnd;
  }

  function Terminators(pipe: string): nat
  {
    if pipe == "" then 0 else (if pipe[0] == NUL then 1 else 0) + Terminators(pipe[1..])
  }

  lemma {:induction false} OneTerminator(m: string, acc: string, pipe: string)
    requires NUL !in m && acc + pipe == m + [NUL]
    ensures pipe != "" ==> Terminators(pipe) == 1
    decreases |pipe|
  {
    if |pipe| == 1 {
      assert (acc + pipe)[|m|] == NUL;
      assert pipe[1..] == "";
    } else if pipe != "" {
      assert pipe[0] == (acc + pipe)[|acc|] == m[|acc|];
      OneTerminator(m, acc + [pipe[0]], pipe[1..]);
    }
  }

  // At most one message is in flight, over both directions together.
  lemma OneMessageInFlight<A(!new)>(w: Worker<A>, script: seq<string>, s: State<A>)
    requires WellFormed(w, script) && Lockstep(w, script, s)
    ensures Terminators(s.c2s) + Terminators(s.s2c) <= 1
  {
    assert Terminators("") == 0;
    hide Reply, WorkerAfter, PrintedAfter, Terminators;
    match s.client
    case Awaiting(i, acc) =>
      if s.server.Reading? && s.c2s != "" {
        OneTerminator(script[i], s.server.acc, s.c2s);
      } else if s.s2c != "" {
        OneTerminator(ReplyTo(w, script, i), acc, s.s2c);
      }
    case Closed(_) =>
      if s.server.Exited? {
        assert "" + s.s2c == s.s2c;
        OneTerminator(FinalReply(w, WorkerAfter(w, script, |script|)), "", s.s2c);
      }
    case Sending(_) =>
  }

  // In every reachable state of every run:
  //   - at most one message is in flight;
  //   - what the server has read as a line is exactly the message the client sent last;
  //   - the server sees the end of the connection only after the client has closed it, so an empty
  //     line is never taken for it, and the client never sees it at all;
  //   - the client has printed the replies to the messages answered so far, in order.
  lemma ReachableStates<A(!new)>(w: Worker<A>, inputs: seq<seq<string>>, steps: seq<Step>)
    requires NulFree(w) && forall f, i :: 0 <= f < |inputs| && 0 <= i < |inputs[f]| ==> NUL !in inputs[f][i]
    requires Runs(w, Script(inputs), Init(w), steps)
    ensures var script := Script(inputs);
      var s := Exec(w, script, Init(w), steps);
      && Lockstep(w, script, s)
      && Terminators(s.c2s) + Terminators(s.s2c) <= 1
      && (s.server.Replying? ==> s.client.Awaiting? && s.client.i < |script| && s.server.line == script[s.client.i])
      && (s.server.Flushing? || s.server.Exited? ==> s.client.Closed?)
      && !Enabled(script, s, ClientReadsEnd)
      && |steps| <= Work(w, script, 0)
  {
    hide Reply, WorkerAfter, PrintedAfter, Terminators, Exec, Runs;
    ScriptIsWellFormed(w, inputs);
    InitIsLockstep(w, Script(inputs));
    RunsKeepLockstep(w, Script(inputs), Init(w), steps);
    OneMessageInFlight(w, Script(inputs), Exec(w, Script(inputs), Init(w), steps));
  }

  lemma ScriptIsWellFormed<A(!new)>(w: Worker<A>, inputs: seq<seq<string>>)
    requires NulFree(w) && forall f, i :: 0 <= f < |inputs| && 0 <= i < |inputs[f]| ==> NUL !in inputs[f][i]
    ensures WellFormed(w, Script(inputs))
  {
    BodiesAreNulFree(inputs);
  }

  lemma {:induction false} BodiesAreNulFree(inputs: seq<seq<string>>)
    requires forall f, i :: 0 <= f < |inputs| && 0 <= i < |inputs[f]| ==> NUL !in inputs[f][i]
    ensures forall m :: m in Bodies(inputs) ==> NUL !in m
  {
    if inputs == [] {
    } else {
      forall f, i | 0 <= f < |inputs| - 1 && 0 <= i < |inputs[1..][f]|
        ensures NUL !in inputs[1..][f][i]
      {
        assert inputs[1..][f] == inputs[f + 1];
      }
      BodiesAreNulFree(inputs[1..]);
    }
  }

  // ---- What the client has printed when it is done. ----

  // The analyser's output for one message; a reset produces none.
  function Output<A>(w: Worker<A>, a: A, line: string): string
  {
    var out := if line == RESET_STATS then None
      else if line == PRINT_STATS then Some(w.statsText(a))
      else if line == FLUSH_BUFFER then w.flush(a).1
      else w.analyze(a, line).1;
    if out.Some? then out.value else ""
  }

  function Outputs<A>(w: Worker<A>, script: seq<string>, i: nat): string
    requires i <= |script|
  {
    if i == 0 then ""
    else Outputs(w, script, i - 1) + Output(w, WorkerAfter(w, script, i - 1), script[i - 1])
  }

  function OutputTo<A>(w: Worker<A>, script: seq<string>, j: nat): string
    requires j < |script|
  {
    Output(w, WorkerAfter(w, script, j), script[j])
  }

  // The client prints the outputs exactly when none of them is the acknowledgement text itself, which
  // it would swallow.
  lemma {:induction false} PrintedIsOutputs<A>(w: Worker<A>, script: seq<string>, i: nat)
    requires i <= |script| && (script != [] ==> script[0] == RESET_STATS)
    ensures |PrintedAfter(w, script, i)| <= |Outputs(w, script, i)|
    ensures PrintedAfter(w, script, i) == Outputs(w, script, i) <==> NoOutputIsAck(w, script, i)
  {
    hide PrintedAfter, Outputs, OutputTo, NoOutputIsAck;
    if i == 0 {
      NothingPrinted(w, script);
    } else {
      PrintedIsOutputs(w, script, i - 1);
      PrintedStep(w, script, i - 1);
      if OutputTo(w, script, i - 1) != ACK {
        SameTail(PrintedAfter(w, script, i - 1), Outputs(w, script, i - 1), OutputTo(w, script, i - 1));
      }
    }
  }

  ghost predicate NoOutputIsAck<A>(w: Worker<A>, script: seq<string>, i: nat)
    requires i <= |script|
  {
    forall j :: 0 <= j < i ==> OutputTo(w, script, j) != ACK
  }

  lemma NothingPrinted<A>(w: Worker<A>, script: seq<string>)
    ensures PrintedAfter(w, script, 0) == Outputs(w, script, 0) == "" && NoOutputIsAck(w, script, 0)
  {
  }

  lemma PrintedStep<A>(w: Worker<A>, script: seq<string>, j: nat)
    requires j < |script| && script[0] == RESET_STATS
    ensures Outputs(w, script, j + 1) == Outputs(w, script, j) + OutputTo(w, script, j)
    ensures PrintedAfter(w, script, j + 1)
      == PrintedAfter(w, script, j) + (if OutputTo(w, script, j) == ACK then "" else OutputTo(w, script, j))
    ensures NoOutputIsAck(w, script, j + 1) <==> NoOutputIsAck(w, script, j) && OutputTo(w, script, j) != ACK
  {
    ShownOutput(w, script, j);
    hide Output, Reply, WorkerAfter;
    if j == 0 {
      assert PrintedAfter(w, script, 0) + "" == PrintedAfter(w, script, 1);
    }
  }

  lemma ShownOutput<A>(w: Worker<A>, script: seq<string>, j: nat)
    requires j < |script|
    ensures Shown(ReplyTo(w, script, j)) == if OutputTo(w, script, j) == ACK then "" else OutputTo(w, script, j)
    ensures script[j] == RESET_STATS ==> OutputTo(w, script, j) == ""
  {
  }

  lemma SameTail(u: string, v: string, tail: string)
    ensures u + tail == v + tail <==> u == v
  {
    if u + tail == v + tail {
      assert |u + tail| == |v + tail|;
      assert u == (u + tail)[..|u|] && v == (v + tail)[..|v|];
    }
  }

  // Every run that cannot be continued ends with both sides closed and the analyser's outputs
  // printed in order.
  lemma MaximalRunsComplete<A(!new)>(w: Worker<A>, inputs: seq<seq<string>>, steps: seq<Step>)
    requires NulFree(w) && forall f, i :: 0 <= f < |inputs| && 0 <= i < |inputs[f]| ==> NUL !in inputs[f][i]
    requires Runs(w, Script(inputs), Init(w), steps)
    requires forall step :: !Enabled(Script(inputs), Exec(w, Script(inputs), Init(w), steps), step)
    ensures var s := Exec(w, Script(inputs), Init(w), steps);
      && Over(s) && s.client.ready
      && s.printed == PrintedAfter(w, Script(inputs), |Script(inputs)|)
      && (s.printed == Outputs(w, Script(inputs), |Script(inputs)|) <==>
            NoOutputIsAck(w, Script(inputs), |Script(inputs)|))
  {
    var script := Script(inputs);
    ScriptIsWellFormed(w, inputs);
    var s := Exec(w, script, Init(w), steps);
    RunsKeepLockstep(w, script, Init(w), steps);
    if !Over(s) {
      var step := NeverStuck(w, script, s);
    }
    PrintedIsOutputs(w, script, |script|);
  }
}
