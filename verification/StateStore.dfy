/** Debounced writing of the running state (internal/config/state.go): updates in
    memory, timers and flushes in any interleaving. A step is one critical section,
    one write of the file, or the firing of the timer. */
module StateStore {

  /** A fired timer stays set until its goroutine has taken the lock. */
  datatype Timer = Idle | Armed | Fired

  /** `history` holds every state the memory has had; the generation is the index of
      the last one, `disk` that of the state in the file. */
  datatype Store<V> = Store(history: seq<V>, dirty: bool, timer: Timer, closed: bool, disk: nat)

  /** Where a goroutine is in `flushAsync` or `Flush`. */
  datatype Place = Begun | Waiting | Writing(gen: nat) | Written(gen: nat) | Retrying | Done

  datatype Flusher = Flusher(place: Place, async: bool)

  datatype System<V> = System(store: Store<V>, flushers: seq<Flusher>)

  datatype Event<V> =
    | Update(v: V)
    | Fire
    | Flush
    | Close
    | Begin(g: nat)
    | Snapshot(g: nat)
    | Write(g: nat)
    | WriteFails(g: nat)
    | Settle(g: nat)
    | Rearm(g: nat)

  function Generation<V>(s: Store<V>): int {
    |s.history| - 1
  }

  // ---- Critical sections ---------------------------------------------------

  function ArmedIfDue<V>(s: Store<V>): Store<V> {
    if !s.timer.Idle? || s.closed || !s.dirty then s else s.(timer := Armed)
  }

  function Updated<V>(s: Store<V>, v: V): Store<V> {
    ArmedIfDue(s.(history := s.history + [v], dirty := true))
  }

  /** `Close` stops the timer; a callback that has already fired runs on. */
  function Closed<V>(s: Store<V>): Store<V> {
    s.(closed := true, timer := Idle)
  }

  function Settled<V>(s: Store<V>, gen: nat): Store<V> {
    if Generation(s) == gen then s.(dirty := false) else s
  }

  // ---- Steps ---------------------------------------------------------------

  /** Inside the lock that serialises flushes. */
  predicate Holds(f: Flusher) {
    f.place.Writing? || f.place.Written?
  }

  predicate Free<V>(s: System<V>) {
    forall g :: 0 <= g < |s.flushers| ==> !Holds(s.flushers[g])
  }

  predicate At<V>(s: System<V>, g: nat) {
    g < |s.flushers|
  }

  predicate Enabled<V>(s: System<V>, e: Event<V>) {
    match e
    case Update(_) => true
    case Fire => s.store.timer.Armed?
    case Flush => true
    case Close => true
    case Begin(g) => At(s, g) && s.flushers[g].place.Begun?
    case Snapshot(g) => At(s, g) && s.flushers[g].place.Waiting? && Free(s) && |s.store.history| > 0
    case Write(g) => At(s, g) && s.flushers[g].place.Writing?
    case WriteFails(g) => At(s, g) && s.flushers[g].place.Writing?
    case Settle(g) => At(s, g) && s.flushers[g].place.Written?
    case Rearm(g) => At(s, g) && s.flushers[g].place.Retrying?
  }

  function Moved<V>(s: System<V>, g: nat, place: Place): System<V>
    requires At(s, g)
  {
    s.(flushers := s.flushers[g := s.flushers[g].(place := place)])
  }

  function Next<V>(s: System<V>, e: Event<V>): System<V>
    requires Enabled(s, e)
  {
    match e
    case Update(v) => s.(store := Updated(s.store, v))
    case Fire => s.(store := s.store.(timer := Fired), flushers := s.flushers + [Flusher(Begun, true)])
    case Flush => s.(flushers := s.flushers + [Flusher(Waiting, false)])
    case Close => s.(store := Closed(s.store), flushers := s.flushers + [Flusher(Waiting, false)])
    case Begin(g) => Moved(s.(store := s.store.(timer := Idle)), g, Waiting)
    case Snapshot(g) => Moved(s, g, if s.store.dirty then Writing(Generation(s.store)) else Done)
    case Write(g) =>
      var gen := s.flushers[g].place.gen;
      Moved(s.(store := s.store.(disk := gen)), g, Written(gen))
    case WriteFails(g) => Moved(s, g, if s.flushers[g].async then Retrying else Done)
    case Settle(g) => Moved(s.(store := Settled(s.store, s.flushers[g].place.gen)), g, Done)
    case Rearm(g) => Moved(s.(store := ArmedIfDue(s.store)), g, Done)
  }

  // ---- What every step keeps -----------------------------------------------

  /** Not dirty means that the file has the state in memory; the file always has a
      state the memory has had. */
  predicate DiskOK<V>(s: Store<V>) {
    && s.disk < |s.history|
    && (!s.dirty ==> s.disk == Generation(s))
  }

  predicate FlusherOK<V>(s: Store<V>, f: Flusher) {
    match f.place
    case Writing(gen) => s.disk <= gen < |s.history|
    case Written(gen) => s.disk == gen < |s.history|
    case Begun => f.async
    case Retrying => f.async
    case _ => true
  }

  predicate FlushersOK<V>(s: System<V>) {
    forall g :: 0 <= g < |s.flushers| ==> FlusherOK(s.store, s.flushers[g])
  }

  predicate OneHolder(flushers: seq<Flusher>) {
    forall g, k :: 0 <= g < k < |flushers| ==> !(Holds(flushers[g]) && Holds(flushers[k]))
  }

  /** A goroutine that will write the latest state, or put the timer back. */
  predicate Covers<V>(s: Store<V>, f: Flusher) {
    match f.place
    case Begun => true
    case Waiting => f.async
    case Writing(gen) => f.async && gen == Generation(s)
    case Written(gen) => f.async && gen == Generation(s)
    case Retrying => true
    case Done => false
  }

  ghost predicate SomeCovers<V>(s: System<V>) {
    exists g :: 0 <= g < |s.flushers| && Covers(s.store, s.flushers[g])
  }

  ghost predicate SomeBegun<V>(s: System<V>) {
    exists g :: 0 <= g < |s.flushers| && s.flushers[g].place.Begun?
  }

  /** At most the one goroutine of a fired timer is about to clear it. */
  predicate TimerOK<V>(s: System<V>) {
    && (s.store.closed ==> s.store.timer.Idle?)
    && (!s.store.closed ==>
          && (forall g :: 0 <= g < |s.flushers| && s.flushers[g].place.Begun? ==> s.store.timer.Fired?)
          && (forall g, k :: 0 <= g < k < |s.flushers| ==> !(s.flushers[g].place.Begun? && s.flushers[k].place.Begun?)))
  }

  ghost predicate Inv<V>(s: System<V>) {
    && DiskOK(s.store) && FlushersOK(s) && OneHolder(s.flushers) && TimerOK(s)
    && (s.store.timer.Fired? ==> SomeBegun(s))
    && (s.store.dirty && !s.store.closed ==> s.store.timer.Armed? || SomeCovers(s))
  }

  lemma Witness<V>(s: System<V>, g: nat)
    requires At(s, g)
    ensures Covers(s.store, s.flushers[g]) ==> SomeCovers(s)
    ensures s.flushers[g].place.Begun? ==> SomeBegun(s) && SomeCovers(s)
  {
    if s.flushers[g].place.Begun? {
      assert Covers(s.store, s.flushers[g]);
    }
  }

  lemma UpdateKeeps<V>(s: System<V>, v: V)
    requires Inv(s)
    ensures Inv(Next(s, Update(v)))
  {
    var t := Next(s, Update(v));
    assert t.flushers == s.flushers;
    if s.store.timer.Fired? {
      var g :| 0 <= g < |s.flushers| && s.flushers[g].place.Begun?;
      Witness(t, g);
    }
  }

  lemma FireKeeps<V>(s: System<V>)
    requires Inv(s) && Enabled(s, Fire)
    ensures Inv(Next(s, Fire))
  {
    var t := Next(s, Fire);
    Witness(t, |s.flushers|);
  }

  /** A goroutine joins that does nothing for the cover. */
  lemma JoinKeeps<V>(s: System<V>, store: Store<V>)
    requires Inv(s) && (store == s.store || store == Closed(s.store))
    ensures Inv(System(store, s.flushers + [Flusher(Waiting, false)]))
  {
    hide OneHolder, SomeCovers, SomeBegun;
    var t := System(store, s.flushers + [Flusher(Waiting, false)]);
    JoinedCovers(s, store);
    OneHolderJoined(s.flushers);
    forall g | 0 <= g < |t.flushers| ensures FlusherOK(store, t.flushers[g]) {
      if g < |s.flushers| {
        assert FlusherOK(s.store, s.flushers[g]);
      }
    }
  }

  lemma OneHolderJoined(flushers: seq<Flusher>)
    requires OneHolder(flushers)
    ensures OneHolder(flushers + [Flusher(Waiting, false)])
  {
  }

  lemma JoinedCovers<V>(s: System<V>, store: Store<V>)
    requires store == s.store || store == Closed(s.store)
    ensures var t := System(store, s.flushers + [Flusher(Waiting, false)]);
            (SomeBegun(s) ==> SomeBegun(t)) && (SomeCovers(s) ==> SomeCovers(t))
  {
    var t := System(store, s.flushers + [Flusher(Waiting, false)]);
    if SomeBegun(s) {
      var g :| 0 <= g < |s.flushers| && s.flushers[g].place.Begun?;
      assert t.flushers[g] == s.flushers[g];
    }
    if SomeCovers(s) {
      var g :| 0 <= g < |s.flushers| && Covers(s.store, s.flushers[g]);
      assert t.flushers[g] == s.flushers[g];
    }
  }

  lemma BeginKeeps<V>(s: System<V>, g: nat)
    requires Inv(s) && Enabled(s, Begin(g))
    ensures Inv(Next(s, Begin(g)))
  {
    Witness(Next(s, Begin(g)), g);
  }

  /** A goroutine that has taken the lock moves on to another place, and the store
      changes with it. */
  ghost predicate MovesOn<V>(s: System<V>, store: Store<V>, g: nat, place: Place)
    requires At(s, g)
  {
    && !s.flushers[g].place.Begun? && !place.Begun?
    && DiskOK(store) && FlusherOK(store, Flusher(place, s.flushers[g].async))
    && (Holds(Flusher(place, s.flushers[g].async)) ==> Holds(s.flushers[g]) || Free(s))
    && store.history == s.store.history && store.closed == s.store.closed
    && (store.timer == s.store.timer || (s.store.timer.Idle? && store.timer.Armed? && !store.closed))
    && (store.disk == s.store.disk || Holds(s.flushers[g]))
  }

  lemma MovedFlushersOK<V>(s: System<V>, store: Store<V>, g: nat, place: Place)
    requires Inv(s) && At(s, g) && MovesOn(s, store, g, place)
    ensures FlushersOK(Moved(System(store, s.flushers), g, place))
    ensures OneHolder(Moved(System(store, s.flushers), g, place).flushers)
  {
    var t := Moved(System(store, s.flushers), g, place);
    forall k | 0 <= k < |t.flushers| ensures FlusherOK(store, t.flushers[k]) {
      if k != g {
        assert FlusherOK(s.store, s.flushers[k]);
      }
    }
  }

  lemma MovedTimerOK<V>(s: System<V>, store: Store<V>, g: nat, place: Place)
    requires Inv(s) && At(s, g) && MovesOn(s, store, g, place)
    ensures var t := Moved(System(store, s.flushers), g, place);
            TimerOK(t) && (store.timer.Fired? ==> SomeBegun(t))
  {
    hide FlushersOK, OneHolder, SomeCovers, FlusherOK, DiskOK;
    var t := Moved(System(store, s.flushers), g, place);
    if t.store.timer.Fired? {
      var k :| 0 <= k < |s.flushers| && s.flushers[k].place.Begun?;
      assert t.flushers[k] == s.flushers[k];
    }
  }

  /** The place of one goroutine changes and the cover does not suffer. */
  lemma MovedKeeps<V>(s: System<V>, store: Store<V>, g: nat, place: Place)
    requires Inv(s) && At(s, g) && MovesOn(s, store, g, place)
    requires store.dirty && !store.closed ==>
               && s.store.dirty
               && (Covers(s.store, s.flushers[g]) ==>
                     || Covers(store, Flusher(place, s.flushers[g].async)) || store.timer.Armed?
                     || SomeCovers(Moved(System(store, s.flushers), g, place)))
    ensures Inv(Moved(System(store, s.flushers), g, place))
  {
    hide FlushersOK, OneHolder, TimerOK, FlusherOK, SomeBegun;
    var t := Moved(System(store, s.flushers), g, place);
    MovedFlushersOK(s, store, g, place);
    MovedTimerOK(s, store, g, place);
    if t.store.dirty && !t.store.closed && !t.store.timer.Armed? {
      var k :| 0 <= k < |s.flushers| && Covers(s.store, s.flushers[k]);
      if k == g {
        Witness(t, g);
      } else {
        assert t.flushers[k] == s.flushers[k];
        Witness(t, k);
      }
    }
  }

  lemma SnapshotKeeps<V>(s: System<V>, g: nat)
    requires Inv(s) && Enabled(s, Snapshot(g))
    ensures Inv(Next(s, Snapshot(g)))
  {
    MovedKeeps(s, s.store, g, if s.store.dirty then Writing(Generation(s.store)) else Done);
  }

  lemma WriteKeeps<V>(s: System<V>, g: nat)
    requires Inv(s) && Enabled(s, Write(g))
    ensures Inv(Next(s, Write(g)))
  {
    var gen := s.flushers[g].place.gen;
    assert FlusherOK(s.store, s.flushers[g]);
    MovedKeeps(s, s.store.(disk := gen), g, Written(gen));
  }

  lemma WriteFailsKeeps<V>(s: System<V>, g: nat)
    requires Inv(s) && Enabled(s, WriteFails(g))
    ensures Inv(Next(s, WriteFails(g)))
  {
    MovedKeeps(s, s.store, g, if s.flushers[g].async then Retrying else Done);
  }

  lemma SettleKeeps<V>(s: System<V>, g: nat)
    requires Inv(s) && Enabled(s, Settle(g))
    ensures Inv(Next(s, Settle(g)))
  {
    assert FlusherOK(s.store, s.flushers[g]);
    MovedKeeps(s, Settled(s.store, s.flushers[g].place.gen), g, Done);
  }

  lemma RearmKeeps<V>(s: System<V>, g: nat)
    requires Inv(s) && Enabled(s, Rearm(g))
    ensures Inv(Next(s, Rearm(g)))
  {
    assert FlusherOK(s.store, s.flushers[g]);
    var t := Next(s, Rearm(g));
    if s.store.timer.Fired? {
      var k :| 0 <= k < |s.flushers| && s.flushers[k].place.Begun?;
      assert t.flushers[k] == s.flushers[k];
      Witness(t, k);
    }
    MovedKeeps(s, ArmedIfDue(s.store), g, Done);
  }

  /** Main result 1. Every step keeps the invariant, and the generation in the file
      never goes back. */
  lemma StepKeeps<V>(s: System<V>, e: Event<V>)
    requires Inv(s) && Enabled(s, e)
    ensures Inv(Next(s, e)) && s.store.disk <= Next(s, e).store.disk
    ensures s.store.history <= Next(s, e).store.history
  {
    match e
    case Update(v) => UpdateKeeps(s, v);
    case Fire => FireKeeps(s);
    case Flush => JoinKeeps(s, s.store);
    case Close => JoinKeeps(s, Closed(s.store));
    case Begin(g) => BeginKeeps(s, g);
    case Snapshot(g) => SnapshotKeeps(s, g);
    case Write(g) => WriteKeeps(s, g); assert FlusherOK(s.store, s.flushers[g]);
    case WriteFails(g) => WriteFailsKeeps(s, g);
    case Settle(g) => SettleKeeps(s, g);
    case Rearm(g) => RearmKeeps(s, g);
  }

  // ---- Whole runs ----------------------------------------------------------

  function Loaded<V>(v: V): System<V> {
    System(Store([v], false, Idle, false, 0), [])
  }

  ghost predicate Reaches<V(!new)>(v: V, events: seq<Event<V>>, s: System<V>) {
    if events == [] then s == Loaded(v)
    else
      var n := |events| - 1;
      exists before: System<V> {:trigger Reaches(v, events[..n], before)} ::
        Reaches(v, events[..n], before) && Enabled(before, events[n]) && s == Next(before, events[n])
  }

  lemma {:induction false} ReachesInv<V(!new)>(v: V, events: seq<Event<V>>, s: System<V>)
    requires Reaches(v, events, s)
    ensures Inv(s)
  {
    if events != [] {
      hide Inv, Enabled, Next;
      var n := |events| - 1;
      var before: System<V> :| Reaches(v, events[..n], before) && Enabled(before, events[n])
                               && s == Next(before, events[n]);
      ReachesInv(v, events[..n], before);
      StepKeeps(before, events[n]);
    }
  }

  /** Main result 2. The file always has a state the memory has had, and the one it
      has now unless something is waiting to be written; what waits is not forgotten:
      the timer is set or a goroutine is on its way, until the store is closed. */
  lemma NothingIsForgotten<V(!new)>(v: V, events: seq<Event<V>>, s: System<V>)
    requires Reaches(v, events, s)
    ensures s.store.disk < |s.store.history|
    ensures !s.store.dirty ==> s.store.history[s.store.disk] == s.store.history[|s.store.history| - 1]
    ensures s.store.dirty ==> s.store.closed || s.store.timer.Armed? || SomeCovers(s)
  {
    hide Reaches, SomeCovers, FlushersOK, OneHolder, TimerOK, Covers;
    ReachesInv(v, events, s);
  }

  /** At most one goroutine writes, so no write undoes a later one. */
  lemma WritesNeverGoBack<V(!new)>(v: V, events: seq<Event<V>>, s: System<V>, g: nat)
    requires Reaches(v, events, s) && Enabled(s, Write(g))
    ensures s.store.disk <= Next(s, Write(g)).store.disk
    ensures forall k :: 0 <= k < |s.flushers| && k != g ==> !Holds(s.flushers[k])
  {
    ReachesInv(v, events, s);
    StepKeeps(s, Write(g));
  }

  // ---- The store itself ----------------------------------------------------

  class RunningState<V> {
    var state: V
    var gen: nat
    var dirty: bool
    var timer: Timer
    var closed: bool
    var file: V
    ghost var history: seq<V>
    ghost var disk: nat

    constructor (v: V)
      ensures Valid() && View() == Store([v], false, Idle, false, 0)
    {
      state, file, gen, dirty := v, v, 0, false;
      timer, closed := Idle, false;
      history, disk := [v], 0;
    }

    ghost predicate Valid()
      reads this
    {
      && |history| == gen + 1 && history[gen] == state
      && disk < |history| && history[disk] == file
    }

    ghost function View(): Store<V>
      reads this
    {
      Store(history, dirty, timer, closed, disk)
    }

    method Update(f: V -> V)
      requires Valid()
      modifies this
      ensures Valid() && View() == Updated(old(View()), f(old(state)))
    {
      state := f(state);
      dirty := true;
      gen := gen + 1;
      history := history + [state];
      ArmFlushLocked();
    }

    method ArmFlushLocked()
      requires Valid()
      modifies `timer
      ensures Valid() && View() == ArmedIfDue(old(View()))
    {
      if !timer.Idle? || closed || !dirty {
        return;
      }
      timer := Armed;
    }

    /** A flush whose write succeeds or not, with the updates that arrive while it is
        writing: the store is clean afterwards only if there were none. */
    method Flush(succeeds: bool, during: seq<V -> V>) returns (ok: bool)
      requires Valid()
      modifies this
      ensures Valid() && old(history) <= history
      ensures ok == (succeeds || !old(dirty))
      ensures !old(dirty) ==> View() == old(View())
      ensures old(dirty) ==> |history| == |old(history)| + |during|
      ensures old(dirty) && ok ==> disk == old(gen) && dirty == (during != [])
      ensures old(dirty) && !ok ==> disk == old(disk) && dirty
      ensures closed == old(closed) && (old(timer.Idle?) ==> !timer.Fired?)
      ensures old(timer.Idle?) && old(dirty) && during != [] && !closed ==> timer.Armed?
    {
      if !dirty {
        return true;
      }
      var taken, data := gen, state;
      for i := 0 to |during|
        invariant Valid() && gen == taken + i && dirty && disk == old(disk)
        invariant |history| == |old(history)| + i && old(history) <= history && closed == old(closed)
        invariant old(timer.Idle?) ==> !timer.Fired? && (i > 0 && !closed ==> timer.Armed?)
      {
        Update(during[i]);
      }
      if !succeeds {
        return false;
      }
      file := data;
      disk := taken;
      if gen == taken {
        dirty := false;
      }
      ok := true;
    }

    /** The callback of the timer: a failed write puts the timer back. */
    method FlushAsync(succeeds: bool, during: seq<V -> V>)
      requires Valid()
      modifies this
      ensures Valid() && closed == old(closed)
      ensures dirty && !closed ==> timer.Armed?
      ensures old(dirty) && succeeds ==> disk == old(gen)
    {
      timer := Idle;
      var ok := Flush(succeeds, during);
      if !ok {
        ArmFlushLocked();
      }
    }
  }
}
