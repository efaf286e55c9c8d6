/** Coalesced reloads (internal/acme/manager.go): any number of callers, one
    reconciliation at a time, and none of the calls lost. */
module ReloadLoop {

  /** What `reloadMu` guards, and whether the context has been cancelled. */
  datatype Flags = Flags(running: bool, pending: bool, stopped: bool, cancelled: bool)

  datatype Outcome = Refused | Merged | Started

  function Requested(f: Flags): (Flags, Outcome) {
    if f.stopped then (f, Refused)
    else if f.running then (f.(pending := true), Merged)
    else (f.(running := true), Started)
  }

  /** After a reconciliation: whether to go round once more. */
  function Decided(f: Flags): (Flags, bool) {
    if !f.pending || f.cancelled then (f.(running := false, pending := false), false)
    else (f.(pending := false), true)
  }

  class Manager {
    var reloadRunning: bool
    var reloadPending: bool
    var stopped: bool
    var cancelled: bool

    constructor ()
      ensures View() == Flags(false, false, false, false)
    {
      reloadRunning, reloadPending, stopped, cancelled := false, false, false, false;
    }

    function View(): Flags
      reads this
    {
      Flags(reloadRunning, reloadPending, stopped, cancelled)
    }

    /** The critical section of `Reload`; `Started` asks for a goroutine. */
    method Reload() returns (outcome: Outcome)
      modifies this
      ensures (View(), outcome) == Requested(old(View()))
    {
      if stopped {
        return Refused;
      }
      if reloadRunning {
        reloadPending := true;
        return Merged;
      }
      reloadRunning := true;
      outcome := Started;
    }

    /** The critical section at the end of the goroutine's loop. */
    method Decide() returns (again: bool)
      modifies this
      ensures (View(), again) == Decided(old(View()))
    {
      if !reloadPending || cancelled {
        reloadRunning := false;
        reloadPending := false;
        return false;
      }
      reloadPending := false;
      again := true;
    }

    method Stop()
      modifies this
      ensures View() == old(View()).(stopped := true)
    {
      stopped := true;
    }
  }

  // ---- Steps ---------------------------------------------------------------

  /** A goroutine about to reconcile, at it since some time, about to decide, gone. */
  datatype Worker = Ready | Reconciling(since: nat) | Deciding | Gone

  /** `now` counts steps; `accepted` are the times of the calls that were not refused,
      `completed` the times at which the reconciliations that finished had begun. */
  datatype State = State(flags: Flags, workers: seq<Worker>, now: nat, accepted: seq<nat>, completed: seq<nat>)

  datatype Event = Reload | Stop | Cancel | Begin(w: nat) | Complete(w: nat) | Decide(w: nat)

  predicate Enabled(s: State, e: Event) {
    match e
    case Reload => true
    case Stop => true
    case Cancel => true
    case Begin(w) => w < |s.workers| && s.workers[w].Ready?
    case Complete(w) => w < |s.workers| && s.workers[w].Reconciling?
    case Decide(w) => w < |s.workers| && s.workers[w].Deciding?
  }

  function Next(s: State, e: Event): State
    requires Enabled(s, e)
  {
    var t := s.now + 1;
    match e
    case Reload =>
      var (flags, outcome) := Requested(s.flags);
      State(flags, if outcome.Started? then s.workers + [Ready] else s.workers, t,
            if outcome.Refused? then s.accepted else s.accepted + [t], s.completed)
    case Stop => s.(flags := s.flags.(stopped := true), now := t)
    case Cancel => s.(flags := s.flags.(cancelled := true), now := t)
    case Begin(w) => s.(workers := s.workers[w := Reconciling(t)], now := t)
    case Complete(w) =>
      s.(workers := s.workers[w := Deciding], completed := s.completed + [s.workers[w].since], now := t)
    case Decide(w) =>
      var (flags, again) := Decided(s.flags);
      s.(flags := flags, workers := s.workers[w := if again then Ready else Gone], now := t)
  }

  // ---- What every step keeps -----------------------------------------------

  predicate Live(w: Worker) {
    !w.Gone?
  }

  ghost predicate OneWorker(s: State) {
    && (forall v, w :: 0 <= v < w < |s.workers| ==> !(Live(s.workers[v]) && Live(s.workers[w])))
    && (s.flags.running <==> exists w :: 0 <= w < |s.workers| && Live(s.workers[w]))
    && (s.flags.pending ==> s.flags.running)
  }

  predicate Served(completed: seq<nat>, t: nat) {
    exists k :: 0 <= k < |completed| && completed[k] > t
  }

  /** A worker whose next completed reconciliation has begun after t. */
  predicate WillServe(w: Worker, t: nat) {
    w.Ready? || (w.Reconciling? && w.since > t)
  }

  ghost predicate SomeWillServe(workers: seq<Worker>, t: nat) {
    exists w :: 0 <= w < |workers| && WillServe(workers[w], t)
  }

  ghost predicate Remembered(s: State, t: nat) {
    Served(s.completed, t) || s.flags.pending || SomeWillServe(s.workers, t)
  }

  ghost predicate Inv(s: State) {
    && OneWorker(s)
    && (forall i :: 0 <= i < |s.accepted| ==> s.accepted[i] <= s.now)
    && (!s.flags.cancelled ==> forall i :: 0 <= i < |s.accepted| ==> Remembered(s, s.accepted[i]))
  }

  lemma ServedStays(completed: seq<nat>, x: nat, t: nat)
    ensures Served(completed, t) ==> Served(completed + [x], t)
    ensures x > t ==> Served(completed + [x], t)
  {
    if Served(completed, t) {
      var k :| 0 <= k < |completed| && completed[k] > t;
      assert (completed + [x])[k] > t;
    }
    assert (completed + [x])[|completed|] == x;
  }

  lemma ReloadKeeps(s: State)
    requires Inv(s)
    ensures Inv(Next(s, Reload))
  {
    var n := Next(s, Reload);
    if !s.flags.stopped && !s.flags.running {
      assert Live(n.workers[|s.workers|]);
      forall t ensures SomeWillServe(n.workers, t) {
        assert WillServe(n.workers[|s.workers|], t);
      }
    } else {
      assert n.workers == s.workers;
      forall i | 0 <= i < |s.accepted| && !n.flags.cancelled ensures Remembered(n, s.accepted[i]) {
        assert Remembered(s, s.accepted[i]);
      }
    }
  }

  /** One worker moves; what it leaves behind is remembered. */
  lemma WorkerKeeps(s: State, e: Event, w: nat)
    requires Inv(s) && Enabled(s, e) && (e == Begin(w) || e == Complete(w) || e == Decide(w))
    ensures Inv(Next(s, e))
  {
    var n := Next(s, e);
    OneWorkerMoves(s, e, w);
    forall i | 0 <= i < |s.accepted| && !n.flags.cancelled ensures Remembered(n, s.accepted[i]) {
      WorkerRemembers(s, e, w, s.accepted[i]);
    }
  }

  lemma OneWorkerMoves(s: State, e: Event, w: nat)
    requires Inv(s) && Enabled(s, e) && (e == Begin(w) || e == Complete(w) || e == Decide(w))
    ensures OneWorker(Next(s, e))
  {
    var n := Next(s, e);
    assert Live(s.workers[w]);
    if Live(n.workers[w]) {
      assert n.flags.running;
    }
  }

  lemma WorkerRemembers(s: State, e: Event, w: nat, t: nat)
    requires Inv(s) && Enabled(s, e) && (e == Begin(w) || e == Complete(w) || e == Decide(w))
    requires !s.flags.cancelled && Remembered(s, t) && t <= s.now
    ensures Remembered(Next(s, e), t)
  {
    var n := Next(s, e);
    assert Live(s.workers[w]);
    if Served(s.completed, t) {
      if e.Complete? {
        ServedStays(s.completed, s.workers[w].since, t);
      }
    } else if s.flags.pending {
      if e.Decide? {
        assert WillServe(n.workers[w], t);
      }
    } else {
      var v :| 0 <= v < |s.workers| && WillServe(s.workers[v], t);
      assert v == w;
      if e.Begin? {
        assert WillServe(n.workers[w], t);
      } else {
        ServedStays(s.completed, s.workers[w].since, t);
      }
    }
  }

  lemma StepKeeps(s: State, e: Event)
    requires Inv(s) && Enabled(s, e)
    ensures Inv(Next(s, e))
  {
    match e
    case Reload => ReloadKeeps(s);
    case Stop =>
      forall i | 0 <= i < |s.accepted| && !s.flags.cancelled ensures Remembered(Next(s, e), s.accepted[i]) {
        assert Remembered(s, s.accepted[i]);
      }
    case Cancel =>
    case Begin(w) => WorkerKeeps(s, e, w);
    case Complete(w) => WorkerKeeps(s, e, w);
    case Decide(w) => WorkerKeeps(s, e, w);
  }

  // ---- Whole runs ----------------------------------------------------------

  function Initial(): State {
    State(Flags(false, false, false, false), [], 0, [], [])
  }

  ghost predicate Reaches(events: seq<Event>, s: State) {
    if events == [] then s == Initial()
    else
      var n := |events| - 1;
      exists before: State {:trigger Reaches(events[..n], before)} ::
        Reaches(events[..n], before) && Enabled(before, events[n]) && s == Next(before, events[n])
  }

  lemma {:induction false} ReachesInv(events: seq<Event>, s: State)
    requires Reaches(events, s)
    ensures Inv(s)
  {
    if events != [] {
      hide Inv, Enabled, Next;
      var n := |events| - 1;
      var before: State :| Reaches(events[..n], before) && Enabled(before, events[n]) && s == Next(before, events[n]);
      ReachesInv(events[..n], before);
      StepKeeps(before, events[n]);
    }
  }

  /** Main result 1. At most one reconciliation runs at a time. */
  lemma OneReconciliation(events: seq<Event>, s: State, v: nat, w: nat)
    requires Reaches(events, s) && v < |s.workers| && w < |s.workers|
    requires s.workers[v].Reconciling? && s.workers[w].Reconciling?
    ensures v == w
  {
    ReachesInv(events, s);
  }

  /** Main result 2. No call is lost: unless the work has been cancelled, as soon as no
      goroutine is left every accepted call has been followed by a complete
      reconciliation that began after it. */
  lemma NoCallIsLost(events: seq<Event>, s: State, i: nat)
    requires Reaches(events, s) && !s.flags.cancelled && i < |s.accepted|
    requires !s.flags.running
    ensures exists k :: 0 <= k < |s.completed| && s.completed[k] > s.accepted[i]
  {
    ReachesInv(events, s);
    AtRestIsServed(s, i);
  }

  lemma RunningIsBusy(s: State)
    requires Inv(s)
    ensures s.flags.running <==> exists w :: 0 <= w < |s.workers| && !s.workers[w].Gone?
    ensures s.flags.pending ==> s.flags.running
  {
    assert s.flags.running <==> exists w :: 0 <= w < |s.workers| && Live(s.workers[w]);
  }

  /** A call is accepted unless the manager has been stopped. It starts a goroutine when
      none runs, and otherwise only asks the one that runs for another round; so much for
      what it changes. */
  lemma CallIsAcceptedExactlyWhen(events: seq<Event>, s: State)
    requires Reaches(events, s)
    ensures var t, busy := Next(s, Reload), exists w :: 0 <= w < |s.workers| && !s.workers[w].Gone?;
            && t.accepted == (if s.flags.stopped then s.accepted else s.accepted + [s.now + 1])
            && t.workers == (if s.flags.stopped || busy then s.workers else s.workers + [Ready])
            && (t.flags.pending <==> s.flags.pending || (busy && !s.flags.stopped))
            && t.completed == s.completed
  {
    hide Reaches, Inv;
    ReachesInv(events, s);
    RunningIsBusy(s);
  }

  /** Stopping and cancelling are always possible and for good: once stopped no call is
      accepted any more, and once cancelled the goroutine ends with the round it is in. */
  lemma StopIsForGood(s: State, e: Event)
    requires Enabled(s, e)
    ensures Enabled(s, Stop) && Next(s, Stop).flags.stopped && Enabled(s, Cancel) && Next(s, Cancel).flags.cancelled
    ensures s.flags.stopped ==> Next(s, e).flags.stopped && Next(s, e).accepted == s.accepted
    ensures s.flags.cancelled ==> Next(s, e).flags.cancelled && (e.Decide? ==> Next(s, e).workers[e.w].Gone?)
    ensures e.Stop? || e.Cancel? ==> Next(s, e).workers == s.workers && Next(s, e).completed == s.completed
  {
  }

  /** What the goroutine does when nobody calls any more. */
  function Drain(s: State, w: nat, steps: nat): State
    decreases steps
  {
    if steps == 0 || w >= |s.workers| || s.workers[w].Gone? then s
    else
      var e :=
        if s.workers[w].Ready? then Begin(w) else if s.workers[w].Reconciling? then Complete(w) else Decide(w);
      Drain(Next(s, e), w, steps - 1)
  }

  /** Main result 3. It comes to rest within six steps and at most two completed
      reconciliations, and then every accepted call has been served. */
  lemma ComesToRest(s: State, w: nat)
    requires Inv(s) && w < |s.workers| && Live(s.workers[w])
    ensures var d := Drain(s, w, 6);
            && !d.flags.running && d.accepted == s.accepted && |d.completed| <= |s.completed| + 2
            && (!s.flags.cancelled ==> forall i :: 0 <= i < |s.accepted| ==> Served(d.completed, s.accepted[i]))
  {
    OthersAreGone(s, w);
    DrainsInTime(s, w, 6);
    var d := Drain(s, w, 6);
    hide Drain;
    forall i | 0 <= i < |s.accepted| && !s.flags.cancelled ensures Served(d.completed, s.accepted[i]) {
      AtRestIsServed(d, i);
    }
  }

  lemma AtRestIsServed(s: State, i: nat)
    requires Inv(s) && !s.flags.running && !s.flags.cancelled && i < |s.accepted|
    ensures Served(s.completed, s.accepted[i])
  {
    assert Remembered(s, s.accepted[i]);
  }

  lemma {:induction false} DrainsInTime(s: State, w: nat, steps: nat)
    requires Inv(s) && w < |s.workers| && forall v :: 0 <= v < |s.workers| && v != w ==> s.workers[v].Gone?
    requires StepsLeft(s, w) <= steps
    ensures var d := Drain(s, w, steps);
            && Inv(d) && !d.flags.running && d.accepted == s.accepted && d.flags.cancelled == s.flags.cancelled
            && |d.completed| <= |s.completed| + RoundsLeft(s, w)
    decreases steps
  {
    hide Inv, Drain;
    if steps == 0 {
      DrainNothing(s, w);
      NoneIsLive(s, w);
    } else {
      var n := DrainStep(s, w, steps);
      DrainsInTime(n, w, steps - 1);
    }
  }

  lemma OthersAreGone(s: State, w: nat)
    requires Inv(s) && w < |s.workers| && Live(s.workers[w])
    ensures forall v :: 0 <= v < |s.workers| && v != w ==> s.workers[v].Gone?
  {
  }

  lemma DrainNothing(s: State, w: nat)
    ensures Drain(s, w, 0) == s
  {
  }

  /** One step of the goroutine: the rounds still to come get fewer. */
  lemma DrainStep(s: State, w: nat, steps: nat) returns (n: State)
    requires Inv(s) && w < |s.workers| && steps > 0
    requires forall v :: 0 <= v < |s.workers| && v != w ==> s.workers[v].Gone?
    ensures Inv(n) && |n.workers| == |s.workers| && Drain(s, w, steps) == Drain(n, w, steps - 1)
    ensures forall v :: 0 <= v < |n.workers| && v != w ==> n.workers[v].Gone?
    ensures n.accepted == s.accepted && n.flags.cancelled == s.flags.cancelled
    ensures StepsLeft(n, w) <= if StepsLeft(s, w) > 0 then StepsLeft(s, w) - 1 else 0
    ensures |n.completed| + RoundsLeft(n, w) <= |s.completed| + RoundsLeft(s, w)
  {
    if s.workers[w].Gone? {
      n := s;
    } else {
      var e := if s.workers[w].Ready? then Begin(w) else if s.workers[w].Reconciling? then Complete(w) else Decide(w);
      StepKeeps(s, e);
      n := Next(s, e);
    }
  }

  function StepsLeft(s: State, w: nat): nat
    requires w < |s.workers|
  {
    (match s.workers[w] case Ready => 3 case Reconciling(_) => 2 case Deciding => 1 case Gone => 0)
    + if Live(s.workers[w]) && s.flags.pending && !s.flags.cancelled then 3 else 0
  }

  /** Reconciliations still to complete. */
  function RoundsLeft(s: State, w: nat): nat
    requires w < |s.workers|
  {
    (if s.workers[w].Ready? || s.workers[w].Reconciling? then 1 else 0)
    + if Live(s.workers[w]) && s.flags.pending && !s.flags.cancelled then 1 else 0
  }

  lemma NoneIsLive(s: State, w: nat)
    requires Inv(s) && w < |s.workers| && s.workers[w].Gone?
    requires forall v :: 0 <= v < |s.workers| && v != w ==> s.workers[v].Gone?
    ensures !s.flags.running
  {
  }
}
