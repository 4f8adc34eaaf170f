// The dispatcher's accounting of worker slots (server_squoia.cc): a semaphore, forked workers, and a
// SIGCHLD handler that reaps one child and gives one slot back. The steps of the dispatcher, the
// children, the kernel and the handler interleave freely; pending signals of one kind merge, and the
// handler is not interrupted by its own signal. While the handler runs the dispatcher stands still.
module WorkerSlots {

  datatype Handler = Idle | Entered | Reaped

  datatype State = State(
    sem: nat,          // value of the semaphore
    live: nat,         // running workers
    unreaped: nat,     // workers that have exited and were not waited for
    holding: bool,     // the dispatcher is past sem_wait and has not forked
    pending: bool,     // SIGCHLD is raised and not delivered
    handler: Handler,
    lost: nat)         // slots taken for forks that failed

  datatype Step =
    | SemWait
    | Fork
    | ForkFails
    | ChildExits
    | Deliver          // child_ended is entered
    | Wait             // wait returns
    | SemPost          // child_ended posts and returns

  function Init(maxWorkers: nat): State
  {
    State(maxWorkers, 0, 0, false, false, Idle, 0)
  }

  predicate Enabled(s: State, step: Step)
  {
    match step
    case SemWait => s.handler == Idle && !s.holding && s.sem > 0
    case Fork => s.handler == Idle && s.holding
    case ForkFails => s.handler == Idle && s.holding
    case ChildExits => s.live > 0
    case Deliver => s.handler == Idle && s.pending
    case Wait => s.handler == Entered && (s.unreaped > 0 || s.live == 0)
    case SemPost => s.handler == Reaped
  }

  // Without any child wait fails, and child_ended posts all the same.
  function Next(s: State, step: Step): State
    requires Enabled(s, step)
  {
    match step
    case SemWait => s.(sem := s.sem - 1, holding := true)
    case Fork => s.(holding := false, live := s.live + 1)
    case ForkFails => s.(holding := false, lost := s.lost + 1)
    case ChildExits => s.(live := s.live - 1, unreaped := s.unreaped + 1, pending := true)
    case Deliver => s.(pending := false, handler := Entered)
    case Wait => s.(handler := Reaped, unreaped := if s.unreaped > 0 then s.unreaped - 1 else 0)
    case SemPost => s.(handler := Idle, sem := s.sem + 1)
  }

  function One(b: bool): nat
  {
    if b then 1 else 0
  }

  // Every slot is in exactly one place; Reaped is a child waited for whose slot is not posted yet.
  function Slots(s: State): nat
  {
    s.sem + s.live + s.unreaped + One(s.handler == Reaped) + One(s.holding) + s.lost
  }

  // Children that have exited and that no raised signal or running handler will reap.
  function Forgotten(s: State): int
  {
    s.unreaped - One(s.pending) - One(s.handler == Entered)
  }

  ghost predicate Inv(maxWorkers: nat, s: State)
  {
    Slots(s) == maxWorkers && Forgotten(s) >= 0
  }

  ghost predicate Runs(s: State, steps: seq<Step>)
    decreases |steps|
  {
    steps != [] ==> Enabled(s, steps[0]) && Runs(Next(s, steps[0]), steps[1..])
  }

  ghost function Exec(s: State, steps: seq<Step>): State
    requires Runs(s, steps)
    decreases |steps|
  {
    if steps == [] then s else Exec(Next(s, steps[0]), steps[1..])
  }

  // Exits whose signal merged with one already raised.
  ghost function Merged(s: State, steps: seq<Step>): nat
    requires Runs(s, steps)
    decreases |steps|
  {
    if steps == [] then 0
    else One(steps[0] == ChildExits && s.pending) + Merged(Next(s, steps[0]), steps[1..])
  }

  ghost function FailedForks(s: State, steps: seq<Step>): nat
    requires Runs(s, steps)
    decreases |steps|
  {
    if steps == [] then 0
    else One(steps[0] == ForkFails) + FailedForks(Next(s, steps[0]), steps[1..])
  }

  lemma StepKeepsSlots(maxWorkers: nat, s: State, step: Step)
    requires Inv(maxWorkers, s) && Enabled(s, step)
    ensures Inv(maxWorkers, Next(s, step))
    ensures Forgotten(Next(s, step)) == Forgotten(s) + One(step == ChildExits && s.pending)
    ensures Next(s, step).lost == s.lost + One(step == ForkFails)
  {
  }

  lemma {:induction false} RunKeepsSlots(maxWorkers: nat, s: State, steps: seq<Step>)
    requires Inv(maxWorkers, s) && Runs(s, steps)
    ensures Inv(maxWorkers, Exec(s, steps))
    ensures Forgotten(Exec(s, steps)) == Forgotten(s) + Merged(s, steps)
    ensures Exec(s, steps).lost == s.lost + FailedForks(s, steps)
    decreases |steps|
  {
    if steps == [] {
    } else {
      StepKeepsSlots(maxWorkers, s, steps[0]);
      RunKeepsSlots(maxWorkers, Next(s, steps[0]), steps[1..]);
    }
  }

  // Over every run from the start all slots are accounted for, and what is free or working is at most
  // MaxWorkers less one for each merged exit and each failed fork.
  lemma SlotsAreConserved(maxWorkers: nat, steps: seq<Step>)
    requires Runs(Init(maxWorkers), steps)
    ensures var s := Exec(Init(maxWorkers), steps);
      && s.sem + s.live + s.unreaped + One(s.handler == Reaped) + One(s.holding)
         + FailedForks(Init(maxWorkers), steps) == maxWorkers
      && s.live <= maxWorkers
      && s.unreaped == Merged(Init(maxWorkers), steps) + One(s.pending) + One(s.handler == Entered)
  {
    RunKeepsSlots(maxWorkers, Init(maxWorkers), steps);
  }

  // In a reachable state wait neither blocks nor fails: a handler finds a child to reap.
  lemma HandlerFindsChild(maxWorkers: nat, steps: seq<Step>)
    requires Runs(Init(maxWorkers), steps) && Exec(Init(maxWorkers), steps).handler == Entered
    ensures Exec(Init(maxWorkers), steps).unreaped > 0
    ensures Enabled(Exec(Init(maxWorkers), steps), Wait)
  {
    RunKeepsSlots(maxWorkers, Init(maxWorkers), steps);
  }

  // ---- When the server can still take a client. ----

  ghost predicate CanAccept(s: State)
  {
    exists steps :: AcceptsAfter(s, steps)
  }

  ghost predicate AcceptsAfter(s: State, steps: seq<Step>)
  {
    Runs(s, steps) && Exec(s, steps).holding
  }

  // The steps until the dispatcher gets a slot: at most one more exit and the handler's work on it.
  function Distance(s: State): nat
  {
    if s.holding then 0
    else match s.handler
      case Idle => if s.sem > 0 then 1 else if s.pending then 4 else 5
      case Entered => 3
      case Reaped => 2
  }

  function Towards(s: State): Step
  {
    match s.handler
    case Entered => Wait
    case Reaped => SemPost
    case Idle => if s.sem > 0 then SemWait else if s.pending then Deliver else ChildExits
  }

  lemma {:induction false} PathToAccept(maxWorkers: nat, s: State) returns (steps: seq<Step>)
    requires Inv(maxWorkers, s) && s.lost + Forgotten(s) < maxWorkers
    ensures AcceptsAfter(s, steps)
    decreases Distance(s)
  {
    if s.holding {
      steps := [];
    } else {
      var step := Towards(s);
      StepKeepsSlots(maxWorkers, s, step);
      var rest := PathToAccept(maxWorkers, Next(s, step));
      steps := [step] + rest;
      assert steps[1..] == rest;
    }
  }

  // The dispatcher can come to hold a slot again exactly when merged exits and failed forks have not
  // used all of them up; once they have, no run ever accepts another client.
  lemma AcceptsIff(maxWorkers: nat, steps: seq<Step>)
    requires Runs(Init(maxWorkers), steps)
    ensures CanAccept(Exec(Init(maxWorkers), steps)) <==>
      Merged(Init(maxWorkers), steps) + FailedForks(Init(maxWorkers), steps) < maxWorkers
  {
    var s := Exec(Init(maxWorkers), steps);
    RunKeepsSlots(maxWorkers, Init(maxWorkers), steps);
    if s.lost + Forgotten(s) < maxWorkers {
      var path := PathToAccept(maxWorkers, s);
      assert AcceptsAfter(s, path);
    }
    if CanAccept(s) {
      var path :| AcceptsAfter(s, path);
      RunKeepsSlots(maxWorkers, s, path);
    }
  }
}
