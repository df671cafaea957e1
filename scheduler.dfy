/**
 * The change-triggered scheduler of `startMonitoring` (content.js), as an
 * abstract state machine: whether the mutation observer is connected, whether
 * the single debounce timer is armed, and whether the extension context has
 * been found invalidated. Time is not modelled: a timer that fires is one that
 * saw no further mutation during its window.
 */
module Scheduler {

  /** How reporting a pass's result to the extension went. */
  datatype ReportOutcome =
    | Delivered     // the badge message was sent and the rules were stored
    | ContextGone   // the extension context was invalidated: the report threw, or there was no runtime
    | OtherFailure  // some other exception, which is swallowed

  datatype Sched = Sched(observing: bool, armed: bool, invalidated: bool)

  /** The three phases of the scheduler: waiting, a pass pending, and the terminal state. */
  datatype Phase = Idle | Pending | Invalidated

  function PhaseOf(s: Sched): (p: Phase)
    ensures p == Invalidated <==> s.invalidated
    ensures p == Pending <==> !s.invalidated && s.armed
  {
    if s.invalidated then Invalidated else if s.armed then Pending else Idle
  }

  /** What can happen to the content script. */
  datatype Signal =
    | Start(outcome: ReportOutcome)       // startMonitoring: a pass, then a fresh observer
    | Mutation                            // the page's DOM changed
    | TimerFires(outcome: ReportOutcome)  // the debounce timer ran out: an automatic pass
    | RunAll(outcome: ReportOutcome)      // the popup asked for a forced pass

  datatype StepResult = StepResult(next: Sched, ran: bool)

  /** The scheduler state after an evaluation pass whose report ended with `o`. */
  function AfterPass(s: Sched, o: ReportOutcome): (r: Sched)
    requires !s.invalidated
    ensures r.armed == s.armed
    ensures r.invalidated <==> o == ContextGone
    ensures r.invalidated ==> !r.observing
    ensures o != ContextGone ==> r == s
  {
    if o == ContextGone then s.(invalidated := true, observing := false) else s
  }

  /**
   * One signal. A pass runs only while the context is valid. A mutation is
   * seen only by a connected observer; once invalidated, the observer
   * disconnects itself on the next mutation it sees.
   */
  function Step(s: Sched, sig: Signal): (r: StepResult)
    ensures r.ran ==> !s.invalidated
    ensures s.invalidated ==> r.next.invalidated && !r.ran
    ensures sig.Mutation? ==> !r.ran && r.next.invalidated == s.invalidated
  {
    match sig
    case Start(o) =>
      if s.invalidated then StepResult(s, false)
      else StepResult(AfterPass(s, o).(observing := true), true)
    case Mutation =>
      if !s.observing then StepResult(s, false)
      else if s.invalidated then StepResult(s.(observing := false), false)
      else StepResult(s.(armed := true), false)
    case TimerFires(o) =>
      if !s.armed then StepResult(s, false)
      else if s.invalidated then StepResult(s.(armed := false), false)
      else StepResult(AfterPass(s.(armed := false), o), true)
    case RunAll(o) =>
      if s.invalidated then StepResult(s, false)
      else StepResult(AfterPass(s, o), true)
  }

  /** A mutation seen by the observer in a valid context leaves a pass pending, and runs none yet. */
  lemma MutationMakesPending(s: Sched)
    requires PhaseOf(s) != Invalidated && s.observing
    ensures PhaseOf(Step(s, Mutation).next) == Pending && !Step(s, Mutation).ran
  {
  }

  /**
   * The timer firing on a pending pass runs exactly that pass, after which the
   * scheduler is idle again, or invalidated when the report met an invalidated context.
   */
  lemma TimerEndsPending(s: Sched, o: ReportOutcome)
    requires PhaseOf(s) == Pending
    ensures Step(s, TimerFires(o)).ran
    ensures PhaseOf(Step(s, TimerFires(o)).next) == (if o == ContextGone then Invalidated else Idle)
  {
  }

  /** Invalidated absorbs every signal: the phase stays and no pass runs. */
  lemma InvalidatedAbsorbs(s: Sched, sig: Signal)
    requires PhaseOf(s) == Invalidated
    ensures PhaseOf(Step(s, sig).next) == Invalidated && !Step(s, sig).ran
  {
  }

  datatype RunResult = RunResult(last: Sched, passes: nat)

  /** A sequence of signals, and how many evaluation passes it caused. */
  function Run(s: Sched, trace: seq<Signal>): (r: RunResult)
    decreases |trace|
    ensures r.passes <= |trace|
  {
    if trace == [] then RunResult(s, 0)
    else
      var first := Step(s, trace[0]);
      var rest := Run(first.next, trace[1..]);
      RunResult(rest.last, rest.passes + (if first.ran then 1 else 0))
  }

  /** Running two traces one after the other. */
  lemma {:induction false} RunAppend(s: Sched, t1: seq<Signal>, t2: seq<Signal>)
    ensures Run(s, t1 + t2) == RunResult(Run(Run(s, t1).last, t2).last, Run(s, t1).passes + Run(Run(s, t1).last, t2).passes)
    decreases |t1|
  {
    if t1 != [] {
      assert (t1 + t2)[0] == t1[0];
      assert (t1 + t2)[1..] == t1[1..] + t2;
      RunAppend(Step(s, t1[0]).next, t1[1..], t2);
    } else {
      assert t1 + t2 == t2;
    }
  }

  /** `n` mutations in a row. */
  function Mutations(n: nat): (t: seq<Signal>)
    ensures |t| == n && forall k :: 0 <= k < n ==> t[k] == Mutation
  {
    if n == 0 then [] else [Mutation] + Mutations(n - 1)
  }

  /** While observing, any number of mutations only arms the one timer, and runs no pass. */
  lemma {:induction false} MutationsOnlyArm(s: Sched, n: nat)
    requires s.observing && !s.invalidated
    ensures Run(s, Mutations(n)) == RunResult(s.(armed := s.armed || n > 0), 0)
    decreases n
  {
    if n > 0 {
      assert Mutations(n)[1..] == Mutations(n - 1);
      MutationsOnlyArm(s.(armed := true), n - 1);
    }
  }

  /**
   * Debounce coalescing: any burst of one or more mutations followed by the
   * timer firing causes exactly one evaluation pass.
   */
  lemma MutationsCoalesce(s: Sched, n: nat, o: ReportOutcome)
    requires s.observing && !s.invalidated && n > 0
    ensures Run(s, Mutations(n) + [TimerFires(o)]).passes == 1
  {
    MutationsOnlyArm(s, n);
    RunAppend(s, Mutations(n), [TimerFires(o)]);
  }

  /** Invalidation is terminal: nothing that happens afterwards runs a pass or revives the context. */
  lemma {:induction false} InvalidatedIsTerminal(s: Sched, trace: seq<Signal>)
    requires s.invalidated
    ensures Run(s, trace).passes == 0 && Run(s, trace).last.invalidated
    decreases |trace|
  {
    if trace != [] {
      InvalidatedIsTerminal(Step(s, trace[0]).next, trace[1..]);
    }
  }

  /** After invalidation the observer is disconnected by the next mutation at the latest, and stays so. */
  lemma {:induction false} InvalidatedStopsObserving(s: Sched, trace: seq<Signal>)
    requires s.invalidated
    requires Mutation in trace
    ensures !Run(s, trace).last.observing
    decreases |trace|
  {
    if trace[0] == Mutation {
      InvalidatedStaysDisconnected(Step(s, Mutation).next, trace[1..]);
    } else {
      InvalidatedStopsObserving(Step(s, trace[0]).next, trace[1..]);
    }
  }

  /** An invalidated scheduler whose observer is disconnected never reconnects it. */
  lemma {:induction false} InvalidatedStaysDisconnected(s: Sched, trace: seq<Signal>)
    requires s.invalidated && !s.observing
    ensures !Run(s, trace).last.observing
    decreases |trace|
  {
    if trace != [] {
      InvalidatedStaysDisconnected(Step(s, trace[0]).next, trace[1..]);
    }
  }
}
