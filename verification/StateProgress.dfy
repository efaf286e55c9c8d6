/** What the steps of the state store achieve (internal/config/state.go): an update is the
    new state, and what is dirty can always be written. */
module StateProgress {
  import opened StateStore

  /** These events can happen one after the other and lead from s to t. */
  ghost predicate Plays<V(!new)>(s: System<V>, events: seq<Event<V>>, t: System<V>)
    decreases |events|
  {
    if events == [] then s == t else Enabled(s, events[0]) && Plays(Next(s, events[0]), events[1..], t)
  }

  lemma PlaysNothing<V(!new)>(s: System<V>)
    ensures Plays(s, [], s)
  {
  }

  lemma {:induction false} PlaysOn<V(!new)>(s: System<V>, events: seq<Event<V>>, t: System<V>, e: Event<V>)
    requires Plays(s, events, t) && Enabled(t, e)
    ensures Plays(s, events + [e], Next(t, e))
    decreases |events|
  {
    hide Enabled, Next;
    if events == [] {
      PlaysNothing(Next(t, e));
      assert ([e] + [])[1..] == [];
    } else {
      PlaysOn(Next(s, events[0]), events[1..], t, e);
      assert (events + [e])[1..] == events[1..] + [e];
    }
  }

  /** An update is the new state in memory, waits to be written, and sets the timer unless
      that is set already or the store is closed. */
  lemma UpdateIsTheNewState<V>(s: System<V>, v: V)
    ensures var t := Next(s, Update(v)).store;
            && t.history == s.store.history + [v] && t.dirty && t.disk == s.store.disk && t.closed == s.store.closed
            && t.timer == if s.store.timer.Idle? && !s.store.closed then Armed else s.store.timer
  {
  }

  /** The events of one flush by goroutine g, given whether something is dirty. */
  function Flushing<V>(start: Event<V>, g: nat, dirty: bool): seq<Event<V>> {
    [start] + [Snapshot(g)] + if dirty then [Write(g)] + [Settle(g)] else []
  }

  /** Main result 1. A flush that nobody disturbs leaves the store clean, with the latest
      state in the file; so does closing, which also stops the timer for good. */
  lemma FlushWrites<V(!new)>(s: System<V>, close: bool) returns (t: System<V>)
    requires Inv(s) && Free(s)
    ensures Plays(s, Flushing(if close then Close else Flush, |s.flushers|, s.store.dirty), t)
    ensures t.store.history == s.store.history && t.store.disk == |s.store.history| - 1 && !t.store.dirty
    ensures t.store.closed == (s.store.closed || close) && (close ==> t.store.timer.Idle?)
    ensures !close ==> t.store.timer == s.store.timer
    ensures Free(t)
  {
    hide Plays;
    var g, start: Event<V> := |s.flushers|, if close then Close else Flush;
    PlaysNothing(s);
    var s1 := Next(s, start);
    PlaysOn(s, [], s, start);
    assert [] + [start] == [start];
    assert Free(s1) by {
      assert forall k :: 0 <= k < g ==> s1.flushers[k] == s.flushers[k];
    }
    var s2 := Next(s1, Snapshot(g));
    PlaysOn(s, [start], s1, Snapshot(g));
    assert forall k :: 0 <= k < g ==> s2.flushers[k] == s.flushers[k];
    if s.store.dirty {
      var s3 := Next(s2, Write(g));
      PlaysOn(s, [start] + [Snapshot(g)], s2, Write(g));
      t := Next(s3, Settle(g));
      PlaysOn(s, [start] + [Snapshot(g)] + [Write(g)], s3, Settle(g));
      assert [start] + [Snapshot(g)] + [Write(g)] + [Settle(g)] == Flushing(start, g, true);
      assert forall k :: 0 <= k < g ==> t.flushers[k] == s.flushers[k];
    } else {
      t := s2;
      assert [start] + [Snapshot(g)] == Flushing(start, g, false);
    }
  }

  /** The timer's way: it fires, its goroutine clears it, and the latest state is written. */
  lemma TimerWrites<V(!new)>(s: System<V>) returns (t: System<V>)
    requires Inv(s) && Free(s) && s.store.dirty && s.store.timer.Armed?
    ensures var g := |s.flushers|;
            Plays(s, [Fire] + [Begin(g)] + [Snapshot(g)] + [Write(g)] + [Settle(g)], t)
    ensures t.store.history == s.store.history && t.store.disk == |s.store.history| - 1 && !t.store.dirty
    ensures t.store.timer.Idle? && t.store.closed == s.store.closed && Free(t)
  {
    var g := |s.flushers|;
    PlaysNothing(s);
    var start: seq<Event<V>> := [Fire];
    PlaysOn(s, [], s, Fire);
    assert [] + start == start;
    var s1 := Next(s, Fire);
    PlaysOn(s, [Fire], s1, Begin(g));
    var s2 := Next(s1, Begin(g));
    assert Free(s2) by {
      assert forall k :: 0 <= k < g ==> s2.flushers[k] == s.flushers[k];
    }
    PlaysOn(s, [Fire] + [Begin(g)], s2, Snapshot(g));
    var s3 := Next(s2, Snapshot(g));
    PlaysOn(s, [Fire] + [Begin(g)] + [Snapshot(g)], s3, Write(g));
    var s4 := Next(s3, Write(g));
    PlaysOn(s, [Fire] + [Begin(g)] + [Snapshot(g)] + [Write(g)], s4, Settle(g));
    t := Next(s4, Settle(g));
    assert forall k :: 0 <= k < g ==> t.flushers[k] == s.flushers[k];
  }

  /** A write of the timer's goroutine that fails leaves the file alone and sets the timer
      again, unless it is set or the store is closed. */
  lemma FailedWriteIsRetried<V(!new)>(s: System<V>, g: nat)
    requires Inv(s) && Enabled(s, WriteFails(g)) && s.flushers[g].async
    ensures var failed := Next(s, WriteFails(g));
            && Enabled(failed, Rearm(g)) && failed.store == s.store
            && Next(failed, Rearm(g)).store
               == s.store.(timer := if s.store.dirty && s.store.timer.Idle? && !s.store.closed then Armed
                                    else s.store.timer)
  {
  }

  /** A flush or close asked for by a caller joins as a goroutine that does not retry: when
      its write fails, the caller is told and the store is left as it is. */
  lemma FailedFlushIsReported<V(!new)>(s: System<V>, close: bool, g: nat)
    requires Inv(s)
    ensures Next(s, if close then Close else Flush).flushers == s.flushers + [Flusher(Waiting, false)]
    ensures Enabled(s, WriteFails(g)) && !s.flushers[g].async ==>
              Next(s, WriteFails(g)) == s.(flushers := s.flushers[g := Flusher(Done, false)])
  {
  }

  /** What the safety results are about: updates, flushes and closing at any time, the timer
      once it is set, and any goroutine's next step, where a write may fail and only taking
      the lock waits. */
  lemma AnythingCanHappen<V>(s: System<V>, g: nat)
    requires Inv(s)
    ensures (forall v :: Enabled(s, Update(v))) && Enabled(s, Flush) && Enabled(s, Close)
    ensures s.store.timer.Armed? ==> Enabled(s, Fire)
    ensures g < |s.flushers| ==>
              match s.flushers[g].place
              case Begun => Enabled(s, Begin(g))
              case Waiting => Enabled(s, Snapshot(g)) <==> forall k :: 0 <= k < |s.flushers| ==> !Holds(s.flushers[k])
              case Writing(_) => Enabled(s, Write(g)) && Enabled(s, WriteFails(g))
              case Written(_) => Enabled(s, Settle(g))
              case Retrying => Enabled(s, Rearm(g))
              case Done => true
  {
  }

  /** The goroutine inside the lock can always finish, and that frees the lock. */
  lemma HolderFinishes<V(!new)>(s: System<V>, g: nat) returns (events: seq<Event<V>>, t: System<V>)
    requires Inv(s) && g < |s.flushers| && Holds(s.flushers[g])
    ensures Plays(s, events, t) && Inv(t) && Free(t) && t.store.history == s.store.history
  {
    PlaysNothing(s);
    var s1 := s;
    events := [];
    if s.flushers[g].place.Writing? {
      PlaysOn(s, [], s, Write(g));
      StepKeeps(s, Write(g));
      s1 := Next(s, Write(g));
      events := [] + [Write(g)];
    }
    PlaysOn(s, events, s1, Settle(g));
    StepKeeps(s1, Settle(g));
    t := Next(s1, Settle(g));
    events := events + [Settle(g)];
    OthersDoNotHold(s, g);
    assert forall k :: 0 <= k < |s.flushers| && k != g ==> t.flushers[k] == s.flushers[k];
  }

  lemma OthersDoNotHold<V>(s: System<V>, g: nat)
    requires Inv(s) && g < |s.flushers| && Holds(s.flushers[g])
    ensures forall k :: 0 <= k < |s.flushers| && k != g ==> !Holds(s.flushers[k])
  {
  }

  lemma {:induction false} PlaysConcat<V(!new)>(s: System<V>, a: seq<Event<V>>, t: System<V>, b: seq<Event<V>>,
                                                u: System<V>)
    requires Plays(s, a, t) && Plays(t, b, u)
    ensures Plays(s, a + b, u)
    decreases |a|
  {
    hide Enabled, Next;
    if a == [] {
      assert a + b == b;
    } else {
      PlaysConcat(Next(s, a[0]), a[1..], t, b, u);
      assert (a + b)[1..] == a[1..] + b;
    }
  }

  /** Main result 2. From every state that a run reaches, whoever is writing at the time,
      the store can become clean with the latest state in the file. */
  lemma CanBecomeClean<V(!new)>(v: V, before: seq<Event<V>>, s: System<V>)
    returns (events: seq<Event<V>>, t: System<V>)
    requires Reaches(v, before, s)
    ensures Plays(s, events, t)
    ensures t.store.history == s.store.history && t.store.disk == |s.store.history| - 1 && !t.store.dirty
  {
    hide Inv, Reaches, Plays;
    ReachesInv(v, before, s);
    var between := s;
    events := [];
    PlaysNothing(s);
    if g :| 0 <= g < |s.flushers| && Holds(s.flushers[g]) {
      events, between := HolderFinishes(s, g);
    }
    t := FlushWrites(between, false);
    PlaysConcat(s, events, between, Flushing(Flush, |between.flushers|, between.store.dirty), t);
    events := events + Flushing(Flush, |between.flushers|, between.store.dirty);
  }
}
