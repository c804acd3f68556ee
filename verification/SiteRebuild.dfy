/** Coalescing of site rebuilds (cmd/relkit-agent/server.go, triggerSiteRebuild):
    any number of goroutines share two flags under one lock, and a pass may
    panic. */
module SiteRebuild {

  /** The two fields that siteTriggerMu guards. */
  datatype Flags = Flags(pending: bool, running: bool)

  // ---------------------------------------------------------------------
  // The critical sections
  // ---------------------------------------------------------------------

  /** Ask for a pass; the caller starts a worker if none is running. */
  function Request(flags: Flags): (Flags, bool) {
    (Flags(true, true), !flags.running)
  }

  /** The worker's loop head: take the request and run a pass, or stop. */
  function Take(flags: Flags): (Flags, bool) {
    if flags.pending then (flags.(pending := false), true) else (flags.(running := false), false)
  }

  /** After a panic: give up the worker role, and say whether to ask again. */
  function GiveUp(flags: Flags): (Flags, bool) {
    (flags.(running := false), flags.pending)
  }

  class SiteTrigger {
    var sitePending: bool
    var siteRunning: bool

    function Now(): Flags
      reads this
    {
      Flags(sitePending, siteRunning)
    }

    constructor ()
      ensures Now() == Flags(false, false)
    {
      sitePending, siteRunning := false, false;
    }

    method TriggerSiteRebuild() returns (start: bool)
      modifies this
      ensures (Now(), start) == Request(old(Now()))
      ensures sitePending && siteRunning && (start <==> !old(siteRunning))
    {
      sitePending := true;
      if siteRunning {
        return false;
      }
      siteRunning := true;
      return true;
    }

    method LoopHead() returns (pass: bool)
      modifies this
      ensures (Now(), pass) == Take(old(Now()))
      ensures !sitePending && (pass <==> old(sitePending)) && siteRunning == (pass && old(siteRunning))
    {
      if !sitePending {
        siteRunning := false;
        return false;
      }
      sitePending := false;
      return true;
    }

    method Recover() returns (restart: bool)
      modifies this
      ensures (Now(), restart) == GiveUp(old(Now()))
      ensures !siteRunning && sitePending == old(sitePending) && (restart <==> old(sitePending))
    {
      restart := sitePending;
      siteRunning := false;
    }
  }

  // ---------------------------------------------------------------------
  // All goroutines together
  // ---------------------------------------------------------------------

  /** How many goroutines stand at each point between critical sections, and
      when the latest request was made and the latest pass began. */
  datatype State = State(
    flags: Flags,
    atHead: nat,        // about to run the loop head
    inPass: nat,        // rebuilding
    recovering: nat,    // panicked, about to give up the role
    restarting: nat,    // gave up with a request pending, about to ask again
    clock: nat,
    requested: nat,     // time of the latest request, 0 before any
    passed: nat)        // time the latest pass began, 0 before any

  datatype Event = Trigger | Head | PassReturns | PassPanics | GivesUp | AsksAgain

  predicate Enabled(s: State, e: Event) {
    match e
    case Trigger => true
    case Head => s.atHead > 0
    case PassReturns => s.inPass > 0
    case PassPanics => s.inPass > 0
    case GivesUp => s.recovering > 0
    case AsksAgain => s.restarting > 0
  }

  function Next(s: State, e: Event): State
    requires Enabled(s, e)
  {
    var t := s.(clock := s.clock + 1);
    match e
    case Trigger =>
      var (flags, start) := Request(s.flags);
      t.(flags := flags, atHead := s.atHead + (if start then 1 else 0), requested := t.clock)
    case Head =>
      var (flags, pass) := Take(s.flags);
      if pass then t.(flags := flags, atHead := s.atHead - 1, inPass := s.inPass + 1, passed := t.clock)
      else t.(flags := flags, atHead := s.atHead - 1)
    case PassReturns => t.(inPass := s.inPass - 1, atHead := s.atHead + 1)
    case PassPanics => t.(inPass := s.inPass - 1, recovering := s.recovering + 1)
    case GivesUp =>
      var (flags, restart) := GiveUp(s.flags);
      t.(flags := flags, recovering := s.recovering - 1, restarting := s.restarting + (if restart then 1 else 0))
    case AsksAgain =>
      var (flags, start) := Request(s.flags);
      t.(flags := flags, restarting := s.restarting - 1,
         atHead := s.atHead + (if start then 1 else 0), requested := t.clock)
  }

  predicate IsInitial(s: State) {
    s == State(Flags(false, false), 0, 0, 0, 0, 0, 0, 0)
  }

  /** Run a schedule, stopping where it asks for something not enabled. */
  function Run(s: State, schedule: seq<Event>): State
    decreases |schedule|
  {
    if schedule == [] || !Enabled(s, schedule[0]) then s else Run(Next(s, schedule[0]), schedule[1..])
  }

  /** A request that no pass has begun after. */
  predicate Unserved(s: State) {
    s.passed < s.requested
  }

  ghost predicate Invariant(s: State) {
    && s.atHead + s.inPass + s.recovering == (if s.flags.running then 1 else 0)
    && (s.flags.pending ==> s.flags.running || s.restarting > 0)
    && (Unserved(s) <==> s.flags.pending)
    && s.requested <= s.clock && s.passed <= s.clock
  }

  lemma InvariantIsInductive(s: State, e: Event)
    requires Invariant(s) && Enabled(s, e)
    ensures Invariant(Next(s, e))
  {}

  lemma {:induction false} RunKeepsInvariant(s: State, schedule: seq<Event>)
    requires Invariant(s)
    ensures Invariant(Run(s, schedule))
    decreases |schedule|
  {
    if schedule != [] && Enabled(s, schedule[0]) {
      RunKeepsInvariant(Next(s, schedule[0]), schedule[1..]);
    }
  }

  ghost predicate Reachable(s: State) {
    exists start, schedule :: IsInitial(start) && s == Run(start, schedule)
  }

  lemma ReachableIsInvariant(s: State)
    requires Reachable(s)
    ensures Invariant(s)
  {
    var start, schedule :| IsInitial(start) && s == Run(start, schedule);
    RunKeepsInvariant(start, schedule);
  }

  /** In every reachable state at most one worker is between its start and its
      exit, a pending request has a worker or a recoverer to serve it, and once
      every goroutine has finished, each request was followed by a pass. */
  lemma NoLostRebuild(s: State)
    requires Reachable(s)
    ensures s.atHead + s.inPass + s.recovering <= 1
    ensures s.flags.pending ==> s.atHead + s.inPass + s.recovering == 1 || s.restarting > 0
    ensures s.atHead == s.inPass == s.recovering == s.restarting == 0 ==> !Unserved(s)
  {
    ReachableIsInvariant(s);
  }

  /** Nothing is rebuilt without need: a pass begins, and a worker that panicked
      asks again, only while some request is unserved; with none left the worker
      at its loop head stops. */
  lemma NoIdlePass(s: State, e: Event)
    requires Reachable(s) && Enabled(s, e)
    ensures Next(s, e).inPass > s.inPass <==> e == Head && Unserved(s)
    ensures Next(s, e).restarting > s.restarting <==> e == GivesUp && Unserved(s)
    ensures e == Head && !Unserved(s) ==> !Next(s, e).flags.running && Next(s, e).atHead == s.atHead - 1
    ensures Unserved(Next(s, e)) <==> e == Trigger || e == AsksAgain || (Unserved(s) && e != Head)
  {
    ReachableIsInvariant(s);
  }

  // ---------------------------------------------------------------------
  // Every request is served in bounded work
  // ---------------------------------------------------------------------

  /** The steps the goroutines can still take before a pass must begin. */
  function Potential(s: State): nat {
    s.atHead + 4 * s.inPass + 3 * s.recovering + s.restarting + (if s.flags.running then 0 else 1)
  }

  predicate BeginsPass(s: State, e: Event) {
    e == Head && s.flags.pending
  }

  lemma PotentialFalls(s: State, e: Event)
    requires Invariant(s) && s.flags.pending && Enabled(s, e) && !BeginsPass(s, e)
    ensures Next(s, e).flags.pending
    ensures if e == Trigger then Potential(Next(s, e)) == Potential(s) else Potential(Next(s, e)) < Potential(s)
  {}

  /** No pass begins along this schedule, all of which runs. */
  ghost predicate Passless(s: State, schedule: seq<Event>)
    decreases |schedule|
  {
    schedule == [] ||
    (Enabled(s, schedule[0]) && !BeginsPass(s, schedule[0]) && Passless(Next(s, schedule[0]), schedule[1..]))
  }

  function OwnSteps(schedule: seq<Event>): nat {
    if schedule == [] then 0 else (if schedule[0] == Trigger then 0 else 1) + OwnSteps(schedule[1..])
  }

  lemma {:induction false} PasslessIsShort(s: State, schedule: seq<Event>)
    requires Invariant(s) && s.flags.pending && Passless(s, schedule)
    ensures OwnSteps(schedule) <= Potential(s)
    decreases |schedule|
  {
    if schedule != [] {
      PotentialFalls(s, schedule[0]);
      PasslessIsShort(Next(s, schedule[0]), schedule[1..]);
    }
  }

  /** From any reachable state with an unserved request some goroutine can step,
      and however the schedule goes on, with whatever further requests and
      panics, a pass begins within a bounded number of goroutine steps. */
  lemma EveryRequestIsServed(s: State, schedule: seq<Event>)
    requires Reachable(s) && Unserved(s)
    ensures exists e | e != Trigger :: Enabled(s, e)
    ensures Passless(s, schedule) ==> OwnSteps(schedule) <= Potential(s)
  {
    ReachableIsInvariant(s);
    assert Enabled(s, Head) || Enabled(s, PassReturns) || Enabled(s, GivesUp) || Enabled(s, AsksAgain);
    if Passless(s, schedule) {
      PasslessIsShort(s, schedule);
    }
  }
}
