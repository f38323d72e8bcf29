/** Supervision of one J-Link GDB server process against an arbitrary environment.
    Every answer of a hook and every state change of the child is nondeterministic;
    the trace records what the supervisor saw and did. */
module Supervisor {
  import opened Outcomes

  datatype Event =
    | ParentArmed                     // parent-death signal installed
    | PortFree                        // port_busy answered False
    | PortTaken
    | Spawn
    | Poll(found: Option<int>)        // None: the child has not been reaped
    | OwnerAlive                      // parent unchanged and channel open
    | OwnerLost
    | StopAsked(yes: bool)
    | Clock(expired: bool)
    | ListenerOwned(yes: bool)
    | Ready                           // readiness announced
    | Sleep
    | Terminate
    | Kill
    | WaitDone(code: int)
    | WaitTimeout
    | Raised                          // a hook raised

  /** How a run ends. Watching means that the run is cut off while it is still polling. */
  datatype Outcome = Returned(code: int) | Failed | StopTimedOut | Watching

  type Trace = seq<Event>

  // ------------------------------------------------------ safety of a trace

  predicate IsSignal(e: Event) {
    e == Terminate || e == Kill
  }

  predicate IsReap(e: Event) {
    e.WaitDone? || (e.Poll? && e.found.Some?)
  }

  predicate BeforeSpawn(e: Event) {
    e == ParentArmed || e == PortFree || e == PortTaken || e == Raised
  }

  ghost predicate Reaped(t: Trace) {
    exists i :: 0 <= i < |t| && IsReap(t[i])
  }

  ghost predicate Signalled(t: Trace) {
    exists i :: 0 <= i < |t| && IsSignal(t[i])
  }

  /** A signal directly follows a poll that found the child unreaped. */
  ghost predicate SignalsFollowPolls(t: Trace) {
    forall i | 0 <= i < |t| && IsSignal(t[i]) :: i > 0 && t[i - 1] == Poll(None)
  }

  ghost predicate NoSignalAfterReap(t: Trace) {
    forall i, j | 0 <= i < j < |t| && IsReap(t[i]) :: !IsSignal(t[j])
  }

  /** A kill follows an expired wait. */
  ghost predicate KillsFollowTimeouts(t: Trace) {
    forall i | 0 <= i < |t| && t[i] == Kill :: i > 1 && t[i - 2] == WaitTimeout
  }

  /** At most one terminate, before at most one kill. */
  ghost predicate SignalsOnce(t: Trace) {
    forall i, j | 0 <= i < j < |t| && IsSignal(t[i]) && IsSignal(t[j]) :: t[i] == Terminate && t[j] == Kill
  }

  /** One spawn, directly after the port was seen free, before anything else. */
  ghost predicate SpawnsFirst(t: Trace) {
    && (forall i | 0 <= i < |t| && t[i] == Spawn :: i > 0 && t[i - 1] == PortFree)
    && (forall i, j | 0 <= i < j < |t| && t[j] == Spawn :: BeforeSpawn(t[i]))
    && (Spawn !in t ==> forall i | 0 <= i < |t| :: BeforeSpawn(t[i]))
  }

  /** One announcement, directly after the listener was seen owned. */
  ghost predicate ReadyOnce(t: Trace) {
    && (forall i | 0 <= i < |t| && t[i] == Ready :: i > 0 && t[i - 1] == ListenerOwned(true))
    && (forall i, j | 0 <= i < j < |t| && t[i] == Ready :: t[j] != Ready)
  }

  predicate AfterTerminate(e: Event) {
    e == Kill || e.WaitDone? || e == WaitTimeout
  }

  /** Nothing is waited for or killed that was not terminated before. */
  ghost predicate TerminatesFirst(t: Trace) {
    forall i | 0 <= i < |t| && AfterTerminate(t[i]) :: Terminate in t[..i]
  }

  ghost predicate Safe(t: Trace) {
    && SignalsFollowPolls(t) && NoSignalAfterReap(t) && KillsFollowTimeouts(t) && SignalsOnce(t)
    && TerminatesFirst(t) && SpawnsFirst(t) && ReadyOnce(t)
  }

  /** The owner went away, or a stop was requested. */
  ghost predicate Dismissed(t: Trace) {
    OwnerLost in t || StopAsked(true) in t
  }

  /** What a run that has ended leaves behind. */
  ghost predicate Finished(t: Trace, outcome: Outcome) {
    // every exit after the spawn leaves the child reaped, unless the wait after a kill expired
    && (Spawn in t ==> Reaped(t) || outcome == StopTimedOut)
    && (outcome == StopTimedOut ==> |t| > 1 && t[|t| - 1] == WaitTimeout && t[|t| - 2] == Kill)
    // a child that had to be stopped while it ran was terminated first
    && (outcome == StopTimedOut || (exists i :: 0 <= i < |t| && t[i].WaitDone?) ==> Terminate in t)
    // nothing is signalled without a reason
    && (Signalled(t) ==> Dismissed(t) || Raised in t || Clock(true) in t)
    // a code is returned exactly after readiness, and then it is the child's own
    // code of a natural exit without any signal, or 0 because the owner is gone
    && (outcome.Returned? <==> Ready in t && Raised !in t && outcome != StopTimedOut)
    && (outcome.Returned? && !Dismissed(t) ==>
          |t| > 0 && t[|t| - 1] == Poll(Some(outcome.code)) && !Signalled(t))
    && (outcome.Returned? && Dismissed(t) ==> outcome.code == 0)
    // a busy port is never spawned on, and without a spawn the run fails
    && (PortTaken in t ==> Spawn !in t)
    && (Spawn !in t ==> outcome == Failed)
  }

  /** What appending e to a safe trace after the spawn requires. */
  ghost predicate MayFollow(t: Trace, e: Event) {
    && e != Spawn
    && (IsSignal(e) ==> !Reaped(t) && |t| > 0 && t[|t| - 1] == Poll(None))
    && (e == Terminate ==> !Signalled(t))
    && (AfterTerminate(e) ==> Terminate in t)
    && (e == Kill ==> |t| > 1 && t[|t| - 2] == WaitTimeout && Kill !in t)
    && (e == Ready ==> Ready !in t && |t| > 0 && t[|t| - 1] == ListenerOwned(true))
  }

  lemma AppendSignals(t: Trace, e: Event)
    requires SignalsFollowPolls(t) && NoSignalAfterReap(t) && MayFollow(t, e)
    ensures SignalsFollowPolls(t + [e]) && NoSignalAfterReap(t + [e])
  {
    hide Signalled;
    var u := t + [e];
    assert forall i | 0 <= i < |t| :: u[i] == t[i];
  }

  lemma AppendKills(t: Trace, e: Event)
    requires KillsFollowTimeouts(t) && SignalsOnce(t) && MayFollow(t, e)
    ensures KillsFollowTimeouts(t + [e]) && SignalsOnce(t + [e])
  {
    hide Reaped, SignalsOnce, AfterTerminate;
    var u := t + [e];
    assert forall i | 0 <= i < |t| :: u[i] == t[i];
    AppendOnce(t, e);
  }

  lemma AppendOnce(t: Trace, e: Event)
    requires SignalsOnce(t) && MayFollow(t, e)
    ensures SignalsOnce(t + [e])
  {
    hide Reaped, AfterTerminate;
    var u := t + [e];
    assert forall i | 0 <= i < |t| :: u[i] == t[i] && t[i] in t;
    forall i, j | 0 <= i < j < |u| && IsSignal(u[i]) && IsSignal(u[j]) ensures u[i] == Terminate && u[j] == Kill {
      if j == |t| {
        assert IsSignal(t[i]) && Signalled(t);
      }
    }
  }

  lemma AppendTerminates(t: Trace, e: Event)
    requires TerminatesFirst(t) && MayFollow(t, e)
    ensures TerminatesFirst(t + [e])
  {
    hide Reaped, Signalled;
    var u := t + [e];
    assert u[..|t|] == t;
    forall i | 0 <= i < |u| && AfterTerminate(u[i]) ensures Terminate in u[..i] {
      assert i < |t| ==> u[i] == t[i] && u[..i] == t[..i];
    }
  }

  lemma AppendSpawns(t: Trace, e: Event)
    requires SpawnsFirst(t) && Spawn in t && e != Spawn
    ensures SpawnsFirst(t + [e])
  {
    hide BeforeSpawn;
    var u := t + [e];
    assert forall i | 0 <= i < |t| :: u[i] == t[i];
    assert Spawn in u;
  }

  lemma AppendReady(t: Trace, e: Event)
    requires ReadyOnce(t) && MayFollow(t, e)
    ensures ReadyOnce(t + [e])
  {
    hide Reaped, Signalled;
    var u := t + [e];
    assert forall i | 0 <= i < |t| :: u[i] == t[i];
    assert forall i | 0 <= i < |t| :: t[i] in t;
  }

  lemma Append(t: Trace, e: Event)
    requires Safe(t) && Spawn in t && MayFollow(t, e)
    ensures Safe(t + [e]) && Spawn in t + [e]
    ensures Reaped(t + [e]) <==> Reaped(t) || IsReap(e)
    ensures Signalled(t + [e]) <==> Signalled(t) || IsSignal(e)
  {
    hide SignalsFollowPolls, NoSignalAfterReap, KillsFollowTimeouts, SignalsOnce, SpawnsFirst, ReadyOnce, MayFollow;
    hide TerminatesFirst;
    AppendSignals(t, e);
    AppendKills(t, e);
    AppendTerminates(t, e);
    assert e != Spawn by {
      NotSpawn(t, e);
    }
    AppendSpawns(t, e);
    AppendReady(t, e);
    var u := t + [e];
    assert forall i | 0 <= i < |t| :: u[i] == t[i];
    assert u[|t|] == e;
  }

  lemma NotSpawn(t: Trace, e: Event)
    requires MayFollow(t, e)
    ensures e != Spawn
  {
  }

  /** Events that neither start, announce, signal nor reap. */
  predicate Benign(e: Event) {
    e == OwnerAlive || e == OwnerLost || e.StopAsked? || e.Clock? || e.ListenerOwned? || e == Sleep
      || e == Raised
  }

  predicate IsStopping(e: Event) {
    e.Poll? || e == Terminate || e == Kill || e.WaitDone? || e == WaitTimeout
  }

  /** No reason to stop the child has come up yet. */
  ghost predicate Calm(t: Trace) {
    !Signalled(t) && !Dismissed(t) && Raised !in t && Clock(true) !in t
  }

  /** An event that gives such a reason. */
  predicate IsReason(e: Event) {
    e == OwnerLost || e == StopAsked(true) || e == Raised || e == Clock(true)
  }

  lemma CalmAppend(t: Trace, e: Event)
    requires Signalled(t + [e]) == Signalled(t)
    ensures Calm(t + [e]) <==> Calm(t) && !IsReason(e)
    ensures Ready in t + [e] <==> Ready in t || e == Ready
  {
    hide Signalled;
  }

  /** Before anything is polled, announced or signalled only the order of the spawn matters. */
  lemma QuietIsSafe(t: Trace)
    requires SpawnsFirst(t) && forall i | 0 <= i < |t| :: BeforeSpawn(t[i]) || t[i] == Spawn
    ensures Safe(t) && !Signalled(t) && !Reaped(t)
  {
    hide SpawnsFirst;
  }

  lemma BeforeAppend(t: Trace, e: Event)
    requires SpawnsFirst(t) && Spawn !in t && BeforeSpawn(e)
    ensures Safe(t + [e]) && Spawn !in t + [e] && !Signalled(t + [e]) && !Reaped(t + [e])
  {
    hide Safe, Signalled, Reaped;
    var u := t + [e];
    assert forall i | 0 <= i < |u| :: BeforeSpawn(u[i]);
    QuietIsSafe(u);
  }

  lemma SpawnAppend(t: Trace)
    requires SpawnsFirst(t) && Spawn !in t && |t| > 0 && t[|t| - 1] == PortFree
    ensures Safe(t + [Spawn]) && !Signalled(t + [Spawn]) && !Reaped(t + [Spawn])
  {
    hide Safe, Signalled, Reaped;
    var u := t + [Spawn];
    assert forall i | 0 <= i < |t| :: BeforeSpawn(u[i]);
    assert u[|t|] == Spawn;
    QuietIsSafe(u);
  }

  lemma SafeSpawns(t: Trace)
    requires Safe(t)
    ensures SpawnsFirst(t)
  {
  }

  lemma SafeStart()
    ensures Safe([]) && !Signalled([])
  {
  }

  // --------------------------------------------------------- quiet turns

  /** A startup turn in which nothing happens: the deadline has not passed, the child
      runs, its owner is there, no stop is asked for and no listener is up. */
  const QUIET_START: Trace := [Clock(false), Poll(None), OwnerAlive, StopAsked(false), ListenerOwned(false), Sleep]

  /** A startup turn up to the listener, with nothing against going on. */
  const INQUIRED: Trace := [Clock(false), Poll(None), OwnerAlive, StopAsked(false)]

  /** A turn after readiness in which nothing happens. */
  const QUIET_WATCH: Trace := [Poll(None), StopAsked(false), OwnerAlive, Sleep]

  ghost function Repeated(turn: Trace, n: nat): Trace {
    if n == 0 then [] else Repeated(turn, n - 1) + turn
  }

  lemma OneMoreTurn(t: Trace, turn: Trace, n: nat)
    ensures (t + Repeated(turn, n)) + turn == t + Repeated(turn, n + 1)
  {
  }

  lemma NoTurnYet(t: Trace, turn: Trace)
    ensures t + Repeated(turn, 0) == t
  {
  }

  // ---------------------------------------------------------- whole traces

  /** What happens before the child exists: the parent-death signal, then the port, then the spawn. */
  ghost predicate LaunchTrace(t: Trace, spawned: bool) {
    if spawned then t == [ParentArmed, PortFree, Spawn]
    else
      || t == [Raised] || t == [ParentArmed, Raised]
      || t == [ParentArmed, PortTaken] || t == [ParentArmed, PortFree, Raised]
  }

  /** The startup turn that decides: deadline, child, owner, stop request and listener
      are asked in this order, and the first bad answer ends it. */
  ghost predicate StartTrace(t: Trace, start: Start) {
    match start
    case Announced => t == [Clock(false), Poll(None), OwnerAlive, StopAsked(false), ListenerOwned(true), Ready]
    case Refused(stopping) =>
      if !stopping then exists c :: t == [Clock(false), Poll(Some(c))]
      else
        || t == [Clock(true)] || t == [Raised]
        || t == [Clock(false), Poll(None), OwnerLost] || t == [Clock(false), Poll(None), Raised]
        || t == [Clock(false), Poll(None), OwnerAlive, StopAsked(true)]
        || t == [Clock(false), Poll(None), OwnerAlive, Raised]
        || t == [Clock(false), Poll(None), OwnerAlive, StopAsked(false), Raised]
        || t == [Clock(false), Poll(None), OwnerAlive, StopAsked(false), ListenerOwned(true), Ready, Raised]
        || t == [Clock(false), Poll(None), OwnerAlive, StopAsked(false), ListenerOwned(false), Raised]
    case StillStarting => t == []
  }

  /** The turn that ends the loop after readiness: child, stop request and owner in this order. */
  ghost predicate WatchTrace(t: Trace, end: End) {
    match end
    case Exited(code) => t == [Poll(Some(code))]
    case LetGo => t == [Poll(None), StopAsked(true)] || t == [Poll(None), StopAsked(false), OwnerLost]
    case HookThrew =>
      || t == [Poll(None), Raised] || t == [Poll(None), StopAsked(false), Raised]
      || t == [Poll(None), StopAsked(false), OwnerAlive, Raised]
    case StillRunning => t == []
  }

  /** The cleanup: a poll, a terminate, a wait, and only after that a poll, a kill and a wait. */
  ghost predicate StopTrace(t: Trace, stopped: bool) {
    if !stopped then t == [Poll(None), Terminate, WaitTimeout, Poll(None), Kill, WaitTimeout]
    else exists c :: StoppedWith(t, c)
  }

  ghost predicate StoppedWith(t: Trace, c: int) {
    || t == [Poll(Some(c))]
    || t == [Poll(None), Terminate, WaitDone(c)]
    || t == [Poll(None), Terminate, WaitTimeout, Poll(Some(c)), WaitDone(c)]
    || t == [Poll(None), Terminate, WaitTimeout, Poll(None), Kill, WaitDone(c)]
  }

  /** A run in pieces: the quiet turns of both loops and the turns that ended them. */
  datatype Run = Run(launch: Trace, quiet: nat, start: Trace, decided: Start,
                     watched: nat, watch: Trace, end: End, stop: Trace)
  {
    ghost function Loops(): Trace {
      Repeated(QUIET_START, quiet) + start + Repeated(QUIET_WATCH, watched) + watch
    }

    /** The two loops, as far as they were observed. */
    ghost predicate Looped(turns: nat) {
      && quiet <= turns && StartTrace(start, decided) && (decided == StillStarting ==> quiet == turns)
      && if decided == Announced
         then watched <= turns && WatchTrace(watch, end) && (end == StillRunning ==> watched == turns)
         else watched == 0 && watch == []
    }

    /** The outcome of what the loops came to, before the cleanup. */
    ghost function Verdict(): Outcome {
      match decided
      case StillStarting => Watching
      case Refused(_) => Failed
      case Announced =>
        match end
        case Exited(c) => Returned(c)
        case LetGo => Returned(0)
        case HookThrew => Failed
        case StillRunning => Watching
    }

    /** The child has to be stopped, unless it exited by itself or is still watched. */
    ghost predicate Stopping() {
      (decided.Refused? && decided.stopping) || (decided == Announced && (end == LetGo || end == HookThrew))
    }

    /** The whole trace and outcome of a run of the supervisor. */
    ghost predicate Explains(t: Trace, outcome: Outcome, turns: nat) {
      if launch != [ParentArmed, PortFree, Spawn] then LaunchTrace(launch, false) && t == launch && outcome == Failed
      else
        && t == launch + Loops() + stop && Looped(turns)
        && if Stopping()
           then StopTrace(stop, outcome != StopTimedOut) && outcome in {Verdict(), StopTimedOut}
           else stop == [] && outcome == Verdict()
    }
  }

  // ----------------------------------------------------------------- clock

  /** Milliseconds from the spawn to the startup deadline, and of one sleep. */
  const START_TIMEOUT := 10_000
  const POLL := 50
  /** As many startup turns as fit before the deadline. */
  const START_TURNS := START_TIMEOUT / POLL

  datatype Answer = Yes | No | Threw

  function Told(answer: Answer, yes: Event, no: Event): Event {
    match answer case Yes => yes case No => no case Threw => Raised
  }

  datatype Start = Announced | Refused(stopping: bool) | StillStarting

  datatype End = Exited(code: int) | LetGo | HookThrew | StillRunning

  class Session {
    var trace: Trace
    var code: Option<int>  // the child's return code, once it has been reaped
    var clock: int         // the monotonic time is at least this

    constructor ()
      ensures trace == [] && code == None
    {
      trace, code, clock := [], None, 0;
    }

    /** The child exists, and every step so far was safe. */
    ghost predicate Live()
      reads this
    {
      Safe(trace) && Spawn in trace && PortTaken !in trace && (code.Some? <==> Reaped(trace))
    }

    lemma ReapedIff()
      requires Live()
      ensures code.Some? <==> Reaped(trace)
    {
    }

    method Note(e: Event)
      requires Live() && Benign(e)
      modifies this`trace, this`code
      ensures Live() && trace == old(trace) + [e] && code == old(code)
      ensures Signalled(trace) == old(Signalled(trace))
    {
      hide Safe, Reaped, Signalled;
      Append(trace, e);
      trace := trace + [e];
    }

    /** process.poll(): a reaped child keeps its code, an unreaped one may have exited. */
    method PollChild() returns (found: Option<int>)
      requires Live()
      modifies this`trace, this`code
      ensures Live() && trace == old(trace) + [Poll(found)] && code == found
      ensures old(code).Some? ==> found == old(code)
      ensures Signalled(trace) == old(Signalled(trace))
      ensures Calm(trace) == old(Calm(trace)) && (Ready in trace <==> old(Ready in trace))
    {
      hide Safe, Reaped, Signalled;
      found := code;
      if found == None {
        var exited: bool := *;
        if exited {
          var c: int := *;
          found := Some(c);
        }
      }
      Append(trace, Poll(found));
      CalmAppend(trace, Poll(found));
      trace, code := trace + [Poll(found)], found;
    }

    /** process.wait(timeout): immediate on a reaped child. */
    method WaitChild() returns (done: bool)
      requires Live() && Terminate in trace
      modifies this`trace, this`code
      ensures Live() && (done <==> code.Some?)
      ensures old(code).Some? ==> done && code == old(code)
      ensures done ==> trace == old(trace) + [WaitDone(code.value)]
      ensures !done ==> trace == old(trace) + [WaitTimeout]
    {
      hide Safe, Reaped, Signalled;
      if code == None {
        var exited: bool := *;
        if exited {
          var c: int := *;
          code := Some(c);
        }
      }
      done := code.Some?;
      var e := if done then WaitDone(code.value) else WaitTimeout;
      Append(trace, e);
      trace := trace + [e];
    }

    method Signal(e: Event)
      requires Live() && IsSignal(e) && code == None && |trace| > 0 && trace[|trace| - 1] == Poll(None)
      requires e == Terminate ==> !Signalled(trace)
      requires e == Kill ==> |trace| > 1 && trace[|trace| - 2] == WaitTimeout && Kill !in trace && Terminate in trace
      modifies this`trace, this`code
      ensures Live() && trace == old(trace) + [e] && code == None
    {
      hide Safe, Reaped, Signalled;
      Append(trace, e);
      trace := trace + [e];
    }

    /** The kill of a child that outlived the wait after its termination. */
    method KillChild() returns (stopped: bool, ghost steps: Trace)
      requires Live() && code == None && |trace| > 0 && trace[|trace| - 1] == WaitTimeout
      requires Kill !in trace && Terminate in trace
      modifies this`trace, this`code
      ensures Live() && (stopped ==> code.Some?) && trace == old(trace) + steps
      ensures !stopped ==> steps == [Poll(None), Kill, WaitTimeout]
      ensures stopped ==>
                steps == [Poll(code), WaitDone(code.value)] || steps == [Poll(None), Kill, WaitDone(code.value)]
    {
      hide Safe, Reaped, Signalled, Live, Calm;
      var found := PollChild();
      steps := [Poll(found)];
      if found == None {
        Signal(Kill);
        steps := [Poll(None), Kill];
      }
      stopped := WaitChild();
      steps := steps + [if stopped then WaitDone(code.value) else WaitTimeout];
    }

    /** Terminates, and kills only a child that outlived the first wait. */
    method StopChild() returns (stopped: bool, ghost steps: Trace)
      requires Live() && !Signalled(trace)
      modifies this`trace, this`code
      ensures Live() && (stopped ==> Reaped(trace))
      ensures trace == old(trace) + steps && StopTrace(steps, stopped)
    {
      hide Safe, Reaped, Signalled, Live, Calm, StopTrace;
      NoKillYet(trace);
      var found := PollChild();
      if found.Some? {
        ReapedIff();
        StoppedAtOnce(found.value);
        return true, [Poll(found)];
      }
      Signal(Terminate);
      stopped := WaitChild();
      if stopped {
        ReapedIff();
        StoppedByTerminate(code.value);
        return true, [Poll(None), Terminate, WaitDone(code.value)];
      }
      assert trace == old(trace) + [Poll(None), Terminate, WaitTimeout];
      ghost var more;
      stopped, more := KillChild();
      steps := [Poll(None), Terminate, WaitTimeout] + more;
      ReapedIff();
      StoppedAfterWait(more, code, stopped);
    }

    /** A hook with two answers that may also raise. */
    method Consult(yes: Event, no: Event) returns (answer: Answer)
      requires Live() && Benign(yes) && Benign(no)
      modifies this`trace, this`code
      ensures Live() && code == old(code) && Signalled(trace) == old(Signalled(trace))
      ensures var e := Told(answer, yes, no);
              trace == old(trace) + [e] && (Calm(trace) <==> old(Calm(trace)) && !IsReason(e))
      ensures Ready in trace <==> old(Ready in trace)
    {
      hide Safe, Reaped, Signalled, Calm;
      var raises: bool, holds: bool := *, *;
      answer := if raises then Threw else if holds then Yes else No;
      ghost var before := trace;
      Note(Told(answer, yes, no));
      CalmAppend(before, Told(answer, yes, no));
    }

    /** Time passes, if any does, and never backwards. */
    method Pass(least: nat)
      modifies this`clock
      ensures clock >= old(clock) + least
    {
      var more: int := *;
      clock := clock + least + if more > 0 then more else 0;
    }

    /** Sets the startup deadline. None: the clock raised. */
    method SetDeadline() returns (deadline: Option<int>)
      requires Live()
      modifies this
      ensures Live() && code == old(code) && Signalled(trace) == old(Signalled(trace))
      ensures deadline.Some? ==> trace == old(trace) && deadline.value == clock + START_TIMEOUT
      ensures deadline == None ==> trace == old(trace) + [Raised] && !Calm(trace)
    {
      hide Safe, Reaped, Signalled;
      Pass(0);
      deadline := Some(clock + START_TIMEOUT);
      var raises: bool := *;
      if raises {
        Note(Raised);
        deadline := None;
      }
    }

    /** Compares the clock with the deadline. */
    method ReadClock(deadline: int) returns (late: Answer)
      requires Live()
      modifies this
      ensures Live() && code == old(code) && Signalled(trace) == old(Signalled(trace))
      ensures clock >= old(clock) && (late == No ==> clock < deadline) && (late == Yes ==> deadline <= clock)
      ensures var e := Told(late, Clock(true), Clock(false));
              trace == old(trace) + [e] && (Calm(trace) <==> old(Calm(trace)) && !IsReason(e))
      ensures Ready in trace <==> old(Ready in trace)
    {
      hide Safe, Reaped, Signalled, Calm;
      Pass(0);
      var raises: bool := *;
      late := if raises then Threw else if deadline <= clock then Yes else No;
      ghost var before := trace;
      Note(Told(late, Clock(true), Clock(false)));
      CalmAppend(before, Told(late, Clock(true), Clock(false)));
    }

    /** Sleeps at least one poll interval, unless the sleep raises. */
    method Doze() returns (slept: bool)
      requires Live()
      modifies this
      ensures Live() && code == old(code) && Signalled(trace) == old(Signalled(trace))
      ensures clock >= old(clock) + if slept then POLL else 0
      ensures var e := if slept then Sleep else Raised;
              trace == old(trace) + [e] && (Calm(trace) <==> old(Calm(trace)) && slept)
      ensures Ready in trace <==> old(Ready in trace)
    {
      hide Safe, Reaped, Signalled, Calm;
      var answer := Consult(Sleep, Sleep);
      slept := answer != Threw;
      Pass(if slept then POLL else 0);
    }

    /** Announces readiness; the announcement itself may raise. */
    method Announce() returns (ok: bool)
      requires Live() && Ready !in trace && |trace| > 0 && trace[|trace| - 1] == ListenerOwned(true)
      modifies this`trace, this`code
      ensures Live() && code == old(code) && Signalled(trace) == old(Signalled(trace))
      ensures Ready in trace && (Calm(trace) <==> old(Calm(trace)) && ok) && (!ok ==> Raised in trace)
      ensures trace == old(trace) + if ok then [Ready] else [Ready, Raised]
    {
      hide Safe, Reaped, Signalled, Calm;
      Append(trace, Ready);
      CalmAppend(trace, Ready);
      trace := trace + [Ready];
      ok := *;
      if !ok {
        ghost var before := trace;
        Note(Raised);
        CalmAppend(before, Raised);
      }
    }

    /** The questions of a startup turn before the listener. None: all is well so far. */
    method Inquire(deadline: int) returns (start: Option<Start>, ghost turn: Trace)
      requires Live() && Calm(trace) && Ready !in trace && code == None
      modifies this
      ensures Live() && !Signalled(trace) && Ready !in trace && trace == old(trace) + turn
      ensures old(clock) <= clock
      ensures start == None ==> Calm(trace) && code == None && turn == INQUIRED && old(clock) < deadline
      ensures start.Some? ==> start.value.Refused? && StartTrace(turn, start.value)
      ensures start.Some? ==> if start.value.stopping then !Calm(trace) else Calm(trace) && code.Some?
    {
      hide Safe, Reaped, Signalled, Calm, Live, StartTrace;
      CalmUnsignalled(trace);
      var expired := ReadClock(deadline);
      turn := [Told(expired, Clock(true), Clock(false))];
      StartRefused(turn);
      if expired != No {
        return Some(Refused(true)), turn;
      }
      var found := PollChild();
      turn := [Clock(false), Poll(found)];
      if found.Some? {
        StartExited(found.value);
        return Some(Refused(false)), turn;
      }
      var alive := Consult(OwnerAlive, OwnerLost);
      turn := [Clock(false), Poll(None), Told(alive, OwnerAlive, OwnerLost)];
      StartRefused(turn);
      if alive != Yes {
        return Some(Refused(true)), turn;
      }
      var stop := Consult(StopAsked(true), StopAsked(false));
      turn := [Clock(false), Poll(None), OwnerAlive, Told(stop, StopAsked(true), StopAsked(false))];
      StartRefused(turn);
      return if stop != No then Some(Refused(true)) else None, turn;
    }

    /** One turn of the startup loop. None: nothing decided yet. */
    method StartTurn(deadline: int) returns (start: Option<Start>, ghost turn: Trace)
      requires Live() && Calm(trace) && Ready !in trace && code == None
      modifies this
      ensures Live() && !Signalled(trace)
      ensures start == None ==> Calm(trace) && Ready !in trace && code == None
      ensures trace == old(trace) + turn && if start.Some? then StartTrace(turn, start.value) else turn == QUIET_START
      ensures start == None ==> old(clock) < deadline && old(clock) + POLL <= clock
      ensures start != Some(StillStarting)
      ensures start == Some(Announced) ==> Calm(trace) && Ready in trace && code == None
      ensures start.Some? && start.value.Refused? ==>
                && (Ready !in trace || Raised in trace)
                && if start.value.stopping then !Calm(trace) else Calm(trace) && code.Some?
    {
      hide Safe, Reaped, Signalled, Calm, Live, StartTrace;
      start, turn := Inquire(deadline);
      if start.Some? {
        return;
      }
      var owned := Consult(ListenerOwned(true), ListenerOwned(false));
      turn := INQUIRED + [Told(owned, ListenerOwned(true), ListenerOwned(false))];
      ListenerAnswers();
      if owned == Threw {
        return Some(Refused(true)), turn;
      } else if owned == Yes {
        var ok := Announce();
        turn := turn + if ok then [Ready] else [Ready, Raised];
        return Some(if ok then Announced else Refused(true)), turn;
      }
      var slept := Doze();
      turn := turn + [if slept then Sleep else Raised];
      return if slept then None else Some(Refused(true)), turn;
    }

    /** The startup loop, observed for at most turns turns. Every turn sleeps, so the
        deadline ends it within START_TURNS turns whatever else happens. */
    method AwaitReady(turns: nat) returns (start: Start, ghost quiet: nat, ghost last: Trace)
      requires Live() && Calm(trace) && Ready !in trace && code == None
      modifies this
      ensures Live() && !Signalled(trace)
      ensures start == Announced ==> Calm(trace) && Ready in trace && code == None
      ensures start.Refused? ==>
                && (Ready !in trace || Raised in trace)
                && if start.stopping then !Calm(trace) else Calm(trace) && code.Some?
      ensures trace == old(trace) + Repeated(QUIET_START, quiet) + last && StartTrace(last, start) && quiet <= turns
      ensures start == StillStarting ==> Ready !in trace && quiet == turns <= START_TURNS
    {
      hide Safe, Reaped, Signalled, Live, Calm, Repeated, QUIET_START, StartTrace;
      StartEdges();
      NoTurnYet(trace, QUIET_START);
      CalmUnsignalled(trace);
      var deadline := SetDeadline();
      if deadline == None {
        return Refused(true), 0, [Raised];
      }
      for i := 0 to turns
        invariant Live() && Calm(trace) && Ready !in trace && code == None
        invariant deadline.value - START_TIMEOUT + i * POLL <= clock && (i > 0 ==> (i - 1) * POLL < START_TIMEOUT)
        invariant trace == old(trace) + Repeated(QUIET_START, i)
      {
        OneMoreTurn(old(trace), QUIET_START, i);
        var decided;
        decided, last := StartTurn(deadline.value);
        if decided.Some? {
          return decided.value, i, last;
        }
      }
      CalmUnsignalled(trace);
      assert trace + [] == trace;
      return StillStarting, turns, [];
    }

    /** One turn of the loop after readiness. None: the child still runs for its owner. */
    method WatchTurn() returns (end: Option<End>, ghost turn: Trace)
      requires Live() && Calm(trace) && Ready in trace && code == None
      modifies this
      ensures Live() && !Signalled(trace) && Ready in trace
      ensures end == None ==> Calm(trace) && code == None
      ensures trace == old(trace) + turn && if end.Some? then WatchTrace(turn, end.value) else turn == QUIET_WATCH
      ensures end != Some(StillRunning)
      ensures end.Some? && end.value.Exited? ==>
                Calm(trace) && code == Some(end.value.code) && |trace| > 0 && trace[|trace| - 1] == Poll(code)
      ensures end == Some(LetGo) ==> Dismissed(trace) && Raised !in trace
      ensures end == Some(HookThrew) ==> Raised in trace
    {
      hide Safe, Reaped, Signalled, Live, Calm;
      CalmUnsignalled(trace);
      CalmUnraised(trace);
      var found := PollChild();
      turn := [Poll(found)];
      if found.Some? {
        return Some(Exited(found.value)), turn;
      }
      var stop := Consult(StopAsked(true), StopAsked(false));
      turn := turn + [Told(stop, StopAsked(true), StopAsked(false))];
      if stop != No {
        return Some(if stop == Yes then LetGo else HookThrew), turn;
      }
      var alive := Consult(OwnerAlive, OwnerLost);
      turn := turn + [Told(alive, OwnerAlive, OwnerLost)];
      if alive != Yes {
        return Some(if alive == No then LetGo else HookThrew), turn;
      }
      var slept := Doze();
      turn := turn + [if slept then Sleep else Raised];
      return if slept then None else Some(HookThrew), turn;
    }

    /** The loop after readiness, observed for at most turns turns. */
    method WatchChild(turns: nat) returns (end: End, ghost quiet: nat, ghost last: Trace)
      requires Live() && Calm(trace) && Ready in trace && code == None
      modifies this
      ensures Live() && !Signalled(trace) && Ready in trace
      ensures end.Exited? ==> Calm(trace) && code == Some(end.code) && |trace| > 0 && trace[|trace| - 1] == Poll(code)
      ensures end == LetGo ==> Dismissed(trace) && Raised !in trace
      ensures end == HookThrew ==> Raised in trace
      ensures trace == old(trace) + Repeated(QUIET_WATCH, quiet) + last && WatchTrace(last, end) && quiet <= turns
      ensures end == StillRunning ==> quiet == turns
    {
      hide Safe, Reaped, Signalled, Live, Calm, Repeated, QUIET_WATCH, WatchTrace;
      WatchEdges();
      NoTurnYet(trace, QUIET_WATCH);
      for i := 0 to turns
        invariant Live() && Calm(trace) && Ready in trace && code == None
        invariant trace == old(trace) + Repeated(QUIET_WATCH, i)
      {
        OneMoreTurn(old(trace), QUIET_WATCH, i);
        var ended;
        ended, last := WatchTurn();
        if ended.Some? {
          return ended.value, i, last;
        }
      }
      CalmUnsignalled(trace);
      assert trace + [] == trace;
      return StillRunning, turns, [];
    }

    /** Everything before the child exists. */
    method Launch() returns (spawned: bool)
      requires trace == [] && code == None
      modifies this
      ensures spawned ==> Live() && Calm(trace) && Ready !in trace && code == None
      ensures !spawned ==> Safe(trace) && Spawn !in trace && Ready !in trace && !Signalled(trace)
      ensures LaunchTrace(trace, spawned)
    {
      hide Safe, Reaped, Signalled, SpawnsFirst;
      SafeStart();
      spawned := false;
      var armed: bool, known: bool, busy: bool, started: bool := *, *, *, *;
      Prepare(if armed then ParentArmed else Raised);
      if !armed {
        return;
      }
      Prepare(if !known then Raised else if busy then PortTaken else PortFree);
      if !known || busy {
        return;
      }
      if !started {
        Prepare(Raised);
        return;
      }
      SafeSpawns(trace);
      SpawnAppend(trace);
      trace, spawned := trace + [Spawn], true;
    }

    /** A step before the spawn. */
    method Prepare(e: Event)
      requires Safe(trace) && Spawn !in trace && BeforeSpawn(e)
      modifies this
      ensures Safe(trace) && Spawn !in trace && !Signalled(trace) && !Reaped(trace)
      ensures trace == old(trace) + [e] && code == old(code)
    {
      hide Safe, Reaped, Signalled, SpawnsFirst;
      SafeSpawns(trace);
      BeforeAppend(trace, e);
      trace := trace + [e];
    }

    /** The guarded part of a run, from the spawn to the cleanup: whether the child
        has to be stopped, and what the run amounts to if that works. */
    method Serve(turns: nat) returns (stopping: bool, outcome: Outcome, ghost run: Run)
      requires Live() && Calm(trace) && Ready !in trace && code == None
      modifies this
      ensures Live() && !Signalled(trace)
      ensures outcome != Watching ==> Served(trace, code, stopping, outcome)
      ensures outcome == Watching ==> Ready in trace || turns <= START_TURNS
      ensures trace == old(trace) + run.Loops() && run.Looped(turns)
      ensures outcome == run.Verdict() && (outcome != Watching ==> (stopping <==> run.Stopping()))
    {
      hide Safe, Reaped, Signalled, Live, Repeated, QUIET_START, QUIET_WATCH, StartTrace, WatchTrace;
      var start;
      ghost var quiet, first;
      start, quiet, first := AwaitReady(turns);
      run := Run([], quiet, first, start, 0, [], StillRunning, []);
      OneLoop(old(trace), Repeated(QUIET_START, quiet), first, QUIET_WATCH);
      match start {
        case StillStarting => return true, Watching, run;
        case Refused(s) => return s, Failed, run;
        case Announced =>
          var end;
          ghost var watched, last;
          end, watched, last := WatchChild(turns);
          run := Run([], quiet, first, start, watched, last, end, []);
          TwoLoops(old(trace), Repeated(QUIET_START, quiet), first, Repeated(QUIET_WATCH, watched), last);
          match end {
            case StillRunning => return true, Watching, run;
            case Exited(c) => return false, Returned(c), run;
            case LetGo => return true, Returned(0), run;
            case HookThrew => return true, Failed, run;
          }
      }
    }

    /** Runs one child until it exits or an owner boundary disappears. The run is
        explained from its first to its last event; the bound on turns only cuts the
        observation short, and before readiness the deadline bounds it anyway. */
    method Supervise(turns: nat) returns (outcome: Outcome, ghost run: Run)
      requires trace == [] && code == None
      modifies this
      ensures Safe(trace) && run.Explains(trace, outcome, turns)
      ensures outcome != Watching ==> Finished(trace, outcome)
      ensures outcome == Watching ==> Ready in trace || turns <= START_TURNS
    {
      hide Safe, Reaped, Signalled, Calm, Served, Finished, Repeated, StartTrace, WatchTrace, StopTrace;
      var spawned := Launch();
      ghost var launch := trace;
      if !spawned {
        NotSpawned(trace);
        return Failed, Run(launch, 0, [], StillStarting, 0, [], StillRunning, []);
      }
      var stopping;
      stopping, outcome, run := Serve(turns);
      run := run.(launch := launch, stop := []);
      ghost var served, found := trace, code;
      SafeTerminates(served);
      assert served + [] == served;
      if outcome == Watching {
        return;
      }
      if stopping {
        ghost var ended := outcome;
        var stopped;
        ghost var steps;
        stopped, steps := StopChild();
        run := run.(stop := steps);
        if !stopped {
          outcome := StopTimedOut;
        }
        ServedStopped(served, found, ended, steps, stopped);
      } else {
        ServedAlone(trace, code, outcome);
      }
    }
  }

  /** Bad answers to the questions before the listener. */
  lemma StartRefused(t: Trace)
    ensures t == [Clock(true)] || t == [Raised] ==> StartTrace(t, Refused(true))
    ensures t == [Clock(false), Poll(None), OwnerLost] ==> StartTrace(t, Refused(true))
    ensures t == [Clock(false), Poll(None), Raised] ==> StartTrace(t, Refused(true))
    ensures t == [Clock(false), Poll(None), OwnerAlive, StopAsked(true)] ==> StartTrace(t, Refused(true))
    ensures t == [Clock(false), Poll(None), OwnerAlive, Raised] ==> StartTrace(t, Refused(true))
  {
  }

  lemma StartExited(c: int)
    ensures StartTrace([Clock(false), Poll(Some(c))], Refused(false))
  {
  }

  /** What can follow when all questions before the listener were answered well. */
  lemma ListenerAnswers()
    ensures StartTrace(INQUIRED + [Raised], Refused(true))
    ensures StartTrace(INQUIRED + [ListenerOwned(true)] + [Ready], Announced)
    ensures StartTrace(INQUIRED + [ListenerOwned(true)] + [Ready, Raised], Refused(true))
    ensures StartTrace(INQUIRED + [ListenerOwned(false)] + [Raised], Refused(true))
    ensures INQUIRED + [ListenerOwned(false)] + [Sleep] == QUIET_START
  {
  }

  lemma StartEdges()
    ensures StartTrace([Raised], Refused(true)) && StartTrace([], StillStarting)
  {
  }

  lemma WatchEdges()
    ensures WatchTrace([], StillRunning)
  {
  }

  lemma OneLoop(t: Trace, quiet: Trace, first: Trace, turn: Trace)
    ensures t + quiet + first == t + (quiet + first + Repeated(turn, 0) + [])
  {
  }

  lemma TwoLoops(t: Trace, a: Trace, b: Trace, c: Trace, d: Trace)
    ensures ((t + a + b) + c) + d == t + (a + b + c + d)
  {
  }

  lemma StoppedAtOnce(c: int)
    ensures StopTrace([Poll(Some(c))], true)
  {
    assert StoppedWith([Poll(Some(c))], c);
  }

  lemma StoppedByTerminate(c: int)
    ensures StopTrace([Poll(None), Terminate, WaitDone(c)], true)
  {
    assert StoppedWith([Poll(None), Terminate, WaitDone(c)], c);
  }

  lemma StoppedAfterWait(more: Trace, code: Option<int>, stopped: bool)
    requires !stopped ==> more == [Poll(None), Kill, WaitTimeout]
    requires stopped ==> code.Some?
    requires stopped ==> more == [Poll(code), WaitDone(code.value)] || more == [Poll(None), Kill, WaitDone(code.value)]
    ensures StopTrace([Poll(None), Terminate, WaitTimeout] + more, stopped)
  {
    if stopped {
      assert StoppedWith([Poll(None), Terminate, WaitTimeout] + more, code.value);
    }
  }

  lemma NotSpawned(t: Trace)
    requires LaunchTrace(t, false)
    ensures Finished(t, Failed)
  {
    assert forall e | e in t :: BeforeSpawn(e);
  }

  /** What the guarded part leaves to the cleanup. */
  ghost predicate Served(t: Trace, code: Option<int>, stopping: bool, outcome: Outcome) {
    && (outcome == Failed || outcome.Returned?)
    && (outcome.Returned? <==> Ready in t && Raised !in t)
    && (stopping ==> !Calm(t))
    && (stopping && outcome.Returned? ==> Dismissed(t) && outcome.code == 0)
    && (!stopping ==> Calm(t) && code.Some?)
    && (!stopping && outcome.Returned? ==> |t| > 0 && t[|t| - 1] == Poll(code) && outcome.code == code.value)
  }

  lemma CalmUnsignalled(t: Trace)
    requires Calm(t)
    ensures !Signalled(t)
  {
  }

  lemma ServedAlone(t: Trace, code: Option<int>, outcome: Outcome)
    requires Served(t, code, false, outcome) && (code.Some? ==> Reaped(t)) && Spawn in t && PortTaken !in t
    requires Safe(t)
    ensures Finished(t, outcome)
  {
    SafeTerminates(t);
    hide Reaped, Signalled, Safe;
  }

  lemma SafeTerminates(t: Trace)
    requires Safe(t)
    ensures TerminatesFirst(t)
    ensures forall i | 0 <= i < |t| && t[i].WaitDone? :: Terminate in t
  {
    assert forall i | 0 <= i < |t| && t[i].WaitDone? :: Terminate in t[..i];
  }

  /** Stopping the child adds its reaping, or the expired wait, and no other reason. */
  lemma ServedStopped(t: Trace, code: Option<int>, outcome: Outcome, steps: Trace, stopped: bool)
    requires Served(t, code, true, outcome) && !Signalled(t) && TerminatesFirst(t) && Spawn in t && PortTaken !in t
    requires StopTrace(steps, stopped) && (stopped ==> Reaped(t + steps))
    ensures Finished(t + steps, if stopped then outcome else StopTimedOut)
  {
    hide Reaped, Signalled, StopTrace, TerminatesFirst, IsStopping;
    StopsAreStops();
    StopsKeep(t, steps, OwnerLost);
    StopsKeep(t, steps, StopAsked(true));
    StopsKeep(t, steps, Raised);
    StopsKeep(t, steps, Ready);
    StopsKeep(t, steps, Clock(true));
    StopsKeep(t, steps, Spawn);
    StopsKeep(t, steps, PortTaken);
    StopsTerminate(t, steps, stopped);
  }

  lemma StopsAreStops()
    ensures !IsStopping(OwnerLost) && !IsStopping(StopAsked(true)) && !IsStopping(Raised) && !IsStopping(Ready)
    ensures !IsStopping(Clock(true)) && !IsStopping(Spawn) && !IsStopping(PortTaken)
  {
  }

  lemma StopsKeep(t: Trace, steps: Trace, e: Event)
    requires (StopTrace(steps, true) || StopTrace(steps, false)) && !IsStopping(e)
    ensures e in t + steps <==> e in t
  {
    assert forall x | x in steps :: IsStopping(x);
  }

  lemma StopsTerminate(t: Trace, steps: Trace, stopped: bool)
    requires StopTrace(steps, stopped) && TerminatesFirst(t)
    ensures !stopped ==> Terminate in t + steps
    ensures !stopped ==>
              |t + steps| > 1 && (t + steps)[|t + steps| - 1] == WaitTimeout && (t + steps)[|t + steps| - 2] == Kill
    ensures forall i | 0 <= i < |t + steps| && (t + steps)[i].WaitDone? :: Terminate in t + steps
  {
    forall i | 0 <= i < |t + steps| && (t + steps)[i].WaitDone? ensures Terminate in t + steps {
      if i < |t| {
        assert Terminate in t[..i];
      } else {
        assert (t + steps)[i] == steps[i - |t|];
      }
    }
  }

  lemma CalmUnraised(t: Trace)
    requires Calm(t)
    ensures Raised !in t
  {
  }

  lemma NoKillYet(t: Trace)
    requires !Signalled(t)
    ensures Kill !in t
  {
    assert forall i | 0 <= i < |t| :: !IsSignal(t[i]);
  }
}
