/** What the steps of the shared admissions achieve: slots are granted whenever one is
    free, a request leaves no trace, a handler comes up and goes away. */
module AdmissionProgress {
  import opened Admission
  import opened AdmissionSafety
  import opened Tallies

  // ---- Runs ----------------------------------------------------------------

  /** These steps can be taken one after the other and lead from s to t. */
  ghost predicate Plays(s: Sys, actions: seq<Action>, t: Sys)
    decreases |actions|
  {
    if actions == [] then s == t
    else Indexed(s) && Enabled(s, actions[0]) && Plays(Next(s, actions[0]), actions[1..], t)
  }

  lemma InvIndexed(s: Sys)
    requires Inv(s)
    ensures Indexed(s)
  {
    hide Indexed, TableOK, MembersOK, RefsOK, SlotsOK, PoolTallyOK, PoolLimitOK, NodeTallyOK, NodeLimitOK, InsideOK;
    hide LivesOK, RequestsOK;
  }

  lemma PlaysOne(s: Sys, a: Action)
    requires Indexed(s) && Enabled(s, a)
    ensures Plays(s, [a], Next(s, a))
  {
    hide Enabled, Next, Indexed;
  }

  lemma {:induction false} PlaysConcat(s: Sys, a: seq<Action>, t: Sys, b: seq<Action>, u: Sys)
    requires Plays(s, a, t) && Plays(t, b, u)
    ensures Plays(s, a + b, u)
    decreases |a|
  {
    hide Enabled, Next, Indexed;
    if a == [] {
      assert a + b == b;
    } else {
      PlaysConcat(Next(s, a[0]), a[1..], t, b, u);
      assert (a + b)[1..] == a[1..] + b;
    }
  }

  lemma PlaysOn(s: Sys, actions: seq<Action>, t: Sys, a: Action)
    requires Plays(s, actions, t) && Indexed(t) && Enabled(t, a)
    ensures Plays(s, actions + [a], Next(t, a))
  {
    hide Enabled, Next, Indexed, Plays;
    PlaysOne(t, a);
    PlaysConcat(s, actions, t, [a], Next(t, a));
  }

  lemma {:induction false} PlaysInv(s: Sys, actions: seq<Action>, t: Sys)
    requires Inv(s) && Plays(s, actions, t)
    ensures Inv(t)
    decreases |actions|
  {
    hide Enabled, Next, Inv;
    if actions != [] {
      StepKeeps(s, actions[0]);
      PlaysInv(Next(s, actions[0]), actions[1..], t);
    }
  }

  /** A run that continues a run. */
  lemma {:induction false} PlaysReach(before: seq<Action>, s: Sys, actions: seq<Action>, t: Sys)
    requires Reaches(before, s) && Plays(s, actions, t)
    ensures Reaches(before + actions, t)
    decreases |actions|
  {
    hide Enabled, Next, Indexed;
    if actions == [] {
      assert before + actions == before;
    } else {
      var next := before + [actions[0]];
      assert next[..|before|] == before;
      assert Reaches(next[..|before|], s);
      PlaysReach(next, Next(s, actions[0]), actions[1..], t);
      assert before + actions == next + actions[1..];
    }
  }

  // ---- Slots ---------------------------------------------------------------

  /** Main result 1. A request gets a slot of its pool if and only if fewer requests
      hold one than the handler's limit allows, which is 4096 when there is none;
      otherwise it leaves, and nothing has changed but that. */
  lemma PoolSlotExactlyWhen(actions: seq<Action>, s: Sys, r: nat)
    requires Reaches(actions, s) && Indexed(s) && Enabled(s, TakePool(r))
    ensures var q, t := s.requests[r], Next(s, TakePool(r));
            var limit, held := s.handlers[q.handler].limit, HoldingPool(s, q.pool);
            var free := held < if limit <= 0 then 4096 else limit;
            && t.requests == s.requests[r := q.(phase := if free then Holding else Leaving)]
            && t.pools == s.pools[q.pool := s.pools[q.pool].(active := if free then held + 1 else held)]
            && t.table == s.table && t.nodes == s.nodes && t.handlers == s.handlers
  {
    hide Reaches, Tally, Indexed, TableOK, MembersOK, RefsOK, SlotsOK, PoolLimitOK, NodeTallyOK, NodeLimitOK, InsideOK;
    hide LivesOK, RequestsOK;
    ReachesInv(actions, s);
    var p := s.requests[r].pool;
    SlotBounds(s, r);
    assert s.pools[p].active == HoldingPool(s, p);
  }

  lemma SlotBounds(s: Sys, r: nat)
    requires Indexed(s) && r < |s.requests|
    ensures s.requests[r].handler < |s.handlers| && s.requests[r].pool < |s.pools|
  {
  }

  /** The same for the node chosen for an attempt; its limit is its own, or else the
      pool's, or else 4096. */
  lemma NodeSlotExactlyWhen(actions: seq<Action>, s: Sys, r: nat, e: nat)
    requires Reaches(actions, s) && Indexed(s) && Enabled(s, TakeNode(r, e))
    ensures var q, h, t := s.requests[r], s.handlers[s.requests[r].handler], Next(s, TakeNode(r, e));
            var n, limit := h.slots[e], if h.nodeLimits[e] != 0 then h.nodeLimits[e] else h.limit;
            var held := HoldingNode(s, n);
            var free := held < if limit <= 0 then 4096 else limit;
            && t.requests
               == s.requests[r := q.(tries := q.tries + 1, nodes := if free then q.nodes + [n] else q.nodes,
                                     unwinding := !free)]
            && t.nodes == s.nodes[n := s.nodes[n].(active := if free then held + 1 else held)]
            && t.table == s.table && t.pools == s.pools && t.handlers == s.handlers
  {
    hide Reaches, Tally, TableOK, MembersOK, RefsOK, SlotsOK, PoolTallyOK, PoolLimitOK, NodeLimitOK, InsideOK;
    hide LivesOK, RequestsOK;
    ReachesInv(actions, s);
    var n := s.handlers[s.requests[r].handler].slots[e];
    assert s.nodes[n].active == HoldingNode(s, n);
  }

  // ---- A request leaves no trace -------------------------------------------

  /** The steps of a request that asks for node e, given what it is granted. */
  function Visit(h: nat, r: nat, e: nat, pool: bool, node: bool): seq<Action> {
    [Arrive(h), TakePool(r)]
    + (if !pool then [] else [TakeNode(r, e)] + (if node then [GiveNode(r)] else []) + [GivePool(r)])
    + [Finish(r)]
  }

  function PoolThreshold(h: Handler): nat {
    if h.limit <= 0 then 4096 else h.limit
  }

  function NodeThreshold(h: Handler, e: nat): nat
    requires e < |h.nodeLimits|
  {
    var limit := if h.nodeLimits[e] != 0 then h.nodeLimits[e] else h.limit;
    if limit <= 0 then 4096 else limit
  }

  predicate Serving(s: Sys, h: nat) {
    h < |s.handlers| && s.handlers[h].stage.Ready? && !s.handlers[h].retired
  }

  /** State s with one more request inside handler h, which holds dp slots of the pool
      and dn of node n. */
  function With(s: Sys, h: nat, q: Request, dp: int, n: nat, dn: int): Sys
    requires h < |s.handlers| && s.handlers[h].pool < |s.pools| && n < |s.nodes|
  {
    var p := s.handlers[h].pool;
    s.(handlers := s.handlers[h := s.handlers[h].(requests := s.handlers[h].requests + 1)],
       requests := s.requests + [q],
       pools := s.pools[p := s.pools[p].(active := s.pools[p].active + dp)],
       nodes := s.nodes[n := s.nodes[n].(active := s.nodes[n].active + dn)])
  }

  /** The handler and its node are there. */
  predicate Fits(s: Sys, h: nat, e: nat) {
    && Serving(s, h) && s.handlers[h].pool < |s.pools|
    && e < |s.handlers[h].slots| <= |s.handlers[h].nodeLimits| && s.handlers[h].slots[e] < |s.nodes|
  }

  lemma ServingFits(s: Sys, h: nat, e: nat)
    requires Inv(s) && Serving(s, h) && e < |s.handlers[h].slots|
    ensures Fits(s, h, e)
  {
    hide TableOK, MembersOK, RefsOK, SlotsOK, PoolTallyOK, PoolLimitOK, NodeTallyOK, NodeLimitOK, InsideOK;
    hide LivesOK, RequestsOK;
  }

  function RequestIn(s: Sys, h: nat, phase: Phase, tries: nat, unwinding: bool, nodes: seq<nat>): Request
    requires h < |s.handlers|
  {
    Request(h, s.handlers[h].pool, phase, tries, unwinding, nodes)
  }

  lemma ArriveStep(s: Sys, h: nat, e: nat)
    requires Indexed(s) && Fits(s, h, e)
    ensures Enabled(s, Arrive(h))
    ensures Next(s, Arrive(h)) == With(s, h, RequestIn(s, h, Entered, 0, false, []), 0, s.handlers[h].slots[e], 0)
  {
    hide Indexed;
  }

  lemma TakePoolStep(s: Sys, h: nat, e: nat)
    requires Fits(s, h, e)
    requires var now := With(s, h, RequestIn(s, h, Entered, 0, false, []), 0, s.handlers[h].slots[e], 0); Indexed(now)
    ensures var r, n := |s.requests|, s.handlers[h].slots[e];
            var now := With(s, h, RequestIn(s, h, Entered, 0, false, []), 0, n, 0);
            && Enabled(now, TakePool(r))
            && Next(now, TakePool(r))
               == if s.pools[s.handlers[h].pool].active < PoolThreshold(s.handlers[h])
                  then With(s, h, RequestIn(s, h, Holding, 0, false, []), 1, n, 0)
                  else With(s, h, RequestIn(s, h, Leaving, 0, false, []), 0, n, 0)
  {
    hide Indexed;
  }

  lemma TakeNodeStep(s: Sys, h: nat, e: nat)
    requires Fits(s, h, e)
    requires var now := With(s, h, RequestIn(s, h, Holding, 0, false, []), 1, s.handlers[h].slots[e], 0); Indexed(now)
    ensures var r, n := |s.requests|, s.handlers[h].slots[e];
            var now := With(s, h, RequestIn(s, h, Holding, 0, false, []), 1, n, 0);
            && Enabled(now, TakeNode(r, e))
            && Next(now, TakeNode(r, e))
               == if s.nodes[n].active < NodeThreshold(s.handlers[h], e)
                  then With(s, h, RequestIn(s, h, Holding, 1, false, [n]), 1, n, 1)
                  else With(s, h, RequestIn(s, h, Holding, 1, true, []), 1, n, 0)
  {
    hide Indexed;
    var r, n := |s.requests|, s.handlers[h].slots[e];
    var now := With(s, h, RequestIn(s, h, Holding, 0, false, []), 1, n, 0);
    assert now.nodes == s.nodes && now.requests[r] == RequestIn(s, h, Holding, 0, false, []);
    assert now.requests[r].nodes + [n] == [n];
  }

  lemma GiveNodeStep(s: Sys, h: nat, e: nat)
    requires Fits(s, h, e)
    requires var n := s.handlers[h].slots[e]; Indexed(With(s, h, RequestIn(s, h, Holding, 1, false, [n]), 1, n, 1))
    ensures var r, n := |s.requests|, s.handlers[h].slots[e];
            var now := With(s, h, RequestIn(s, h, Holding, 1, false, [n]), 1, n, 1);
            && Enabled(now, GiveNode(r))
            && Next(now, GiveNode(r)) == With(s, h, RequestIn(s, h, Holding, 1, true, []), 1, n, 0)
  {
    hide Indexed;
  }

  lemma GivePoolStep(s: Sys, h: nat, e: nat, tries: nat)
    requires Fits(s, h, e)
    requires var now := With(s, h, RequestIn(s, h, Holding, tries, true, []), 1, s.handlers[h].slots[e], 0);
             Indexed(now)
    ensures var r, n := |s.requests|, s.handlers[h].slots[e];
            var now := With(s, h, RequestIn(s, h, Holding, tries, true, []), 1, n, 0);
            && Enabled(now, GivePool(r))
            && Next(now, GivePool(r)) == With(s, h, RequestIn(s, h, Leaving, tries, true, []), 0, n, 0)
  {
    hide Indexed;
  }

  lemma FinishStep(s: Sys, h: nat, e: nat, tries: nat, unwinding: bool)
    requires Fits(s, h, e)
    requires var now := With(s, h, RequestIn(s, h, Leaving, tries, unwinding, []), 0, s.handlers[h].slots[e], 0);
             Indexed(now)
    ensures var r, n := |s.requests|, s.handlers[h].slots[e];
            var now := With(s, h, RequestIn(s, h, Leaving, tries, unwinding, []), 0, n, 0);
            && Enabled(now, Finish(r))
            && Next(now, Finish(r))
               == s.(requests := s.requests + [RequestIn(s, h, Finished, tries, unwinding, [])])
  {
    hide Indexed;
  }

  /** Main result 2. A request to a serving handler can always go through, whatever is
      in flight: it gets a slot of the pool if one is free and then one of its node if
      one is free, and when it is gone everything is as before it came. */
  lemma RequestLeavesNoTrace(actions: seq<Action>, s: Sys, h: nat, e: nat)
    requires Reaches(actions, s) && Serving(s, h) && e < |s.handlers[h].slots|
    requires s.handlers[h].pool < |s.pools| && s.handlers[h].slots[e] < |s.nodes| && e < |s.handlers[h].nodeLimits|
    ensures var n := s.handlers[h].slots[e];
            var pool := HoldingPool(s, s.handlers[h].pool) < PoolThreshold(s.handlers[h]);
            var node := HoldingNode(s, n) < NodeThreshold(s.handlers[h], e);
            var gone := RequestIn(s, h, Finished, if pool then 1 else 0, pool, []);
            Plays(s, Visit(h, |s.requests|, e, pool, node), s.(requests := s.requests + [gone]))
  {
    hide Reaches, Inv, Indexed, Enabled, Next, Plays, With, Tally, RequestIn, HoldingPool, HoldingNode;
    ReachesInv(actions, s);
    ServingFits(s, h, e);
    CountersCount(s, s.handlers[h].pool, s.handlers[h].slots[e]);
    VisitPlays(s, h, e);
  }

  lemma CountersCount(s: Sys, p: nat, n: nat)
    requires Inv(s) && p < |s.pools| && n < |s.nodes|
    ensures s.pools[p].active == HoldingPool(s, p) && s.nodes[n].active == HoldingNode(s, n)
  {
    hide TableOK, MembersOK, RefsOK, SlotsOK, PoolLimitOK, NodeLimitOK, InsideOK, LivesOK, RequestsOK, Tally, Indexed;
  }

  lemma VisitPlays(s: Sys, h: nat, e: nat)
    requires Inv(s) && Fits(s, h, e)
    ensures var n := s.handlers[h].slots[e];
            var pool := s.pools[s.handlers[h].pool].active < PoolThreshold(s.handlers[h]);
            var node := s.nodes[n].active < NodeThreshold(s.handlers[h], e);
            var gone := RequestIn(s, h, Finished, if pool then 1 else 0, pool, []);
            Plays(s, Visit(h, |s.requests|, e, pool, node), s.(requests := s.requests + [gone]))
  {
    hide Inv, Enabled, Next, Plays, With, RequestIn, PoolThreshold, NodeThreshold;
    var r, n := |s.requests|, s.handlers[h].slots[e];
    InvIndexed(s);
    ArriveStep(s, h, e);
    StepKeeps(s, Arrive(h));
    var entered := With(s, h, RequestIn(s, h, Entered, 0, false, []), 0, n, 0);
    InvIndexed(entered);
    TakePoolStep(s, h, e);
    StepKeeps(entered, TakePool(r));
    InvIndexed(Next(entered, TakePool(r)));
    PlaysOne(s, Arrive(h));
    PlaysOn(s, [Arrive(h)], entered, TakePool(r));
    if s.pools[s.handlers[h].pool].active < PoolThreshold(s.handlers[h]) {
      AttemptPlays(s, h, e);
      var gone := s.(requests := s.requests + [RequestIn(s, h, Finished, 1, true, [])]);
      var node := s.nodes[n].active < NodeThreshold(s.handlers[h], e);
      PlaysConcat(s, [Arrive(h)] + [TakePool(r)], With(s, h, RequestIn(s, h, Holding, 0, false, []), 1, n, 0),
                  Attempt(r, e, node), gone);
      assert [Arrive(h)] + [TakePool(r)] + Attempt(r, e, node) == Visit(h, r, e, true, node);
    } else {
      var leaving := With(s, h, RequestIn(s, h, Leaving, 0, false, []), 0, n, 0);
      FinishStep(s, h, e, 0, false);
      PlaysOn(s, [Arrive(h)] + [TakePool(r)], leaving, Finish(r));
      var node := s.nodes[n].active < NodeThreshold(s.handlers[h], e);
      assert [Arrive(h)] + [TakePool(r)] + [Finish(r)] == Visit(h, r, e, false, node);
    }
  }

  function Attempt(r: nat, e: nat, node: bool): seq<Action> {
    [TakeNode(r, e)] + (if node then [GiveNode(r)] else []) + [GivePool(r)] + [Finish(r)]
  }

  lemma AttemptPlays(s: Sys, h: nat, e: nat)
    requires Fits(s, h, e)
    requires Inv(With(s, h, RequestIn(s, h, Holding, 0, false, []), 1, s.handlers[h].slots[e], 0))
    ensures var n := s.handlers[h].slots[e];
            Plays(With(s, h, RequestIn(s, h, Holding, 0, false, []), 1, n, 0),
                  Attempt(|s.requests|, e, s.nodes[n].active < NodeThreshold(s.handlers[h], e)),
                  s.(requests := s.requests + [RequestIn(s, h, Finished, 1, true, [])]))
  {
    hide Inv, Enabled, Next, Plays, With, RequestIn, NodeThreshold;
    var r, n := |s.requests|, s.handlers[h].slots[e];
    var holding := With(s, h, RequestIn(s, h, Holding, 0, false, []), 1, n, 0);
    var unwinding := With(s, h, RequestIn(s, h, Holding, 1, true, []), 1, n, 0);
    var node := s.nodes[n].active < NodeThreshold(s.handlers[h], e);
    InvIndexed(holding);
    TakeNodeStep(s, h, e);
    StepKeeps(holding, TakeNode(r, e));
    InvIndexed(Next(holding, TakeNode(r, e)));
    PlaysOne(holding, TakeNode(r, e));
    var so := [TakeNode(r, e)] + if node then [GiveNode(r)] else [];
    if node {
      var served := With(s, h, RequestIn(s, h, Holding, 1, false, [n]), 1, n, 1);
      GiveNodeStep(s, h, e);
      StepKeeps(served, GiveNode(r));
      InvIndexed(unwinding);
      PlaysOn(holding, [TakeNode(r, e)], served, GiveNode(r));
    } else {
      assert so == [TakeNode(r, e)];
    }
    GivePoolStep(s, h, e, 1);
    StepKeeps(unwinding, GivePool(r));
    InvIndexed(Next(unwinding, GivePool(r)));
    PlaysOn(holding, so, unwinding, GivePool(r));
    FinishStep(s, h, e, 1, true);
    PlaysOn(holding, so + [GivePool(r)], With(s, h, RequestIn(s, h, Leaving, 1, true, []), 0, n, 0), Finish(r));
  }

  /** When the first node has been granted, the request may ask for one more, and whatever
      comes of that for no third; when it has been refused, for none. */
  lemma OneRetry(actions: seq<Action>, s: Sys, r: nat, e: nat, again: nat)
    requires Reaches(actions, s) && Indexed(s) && Enabled(s, TakeNode(r, e)) && Indexed(Next(s, TakeNode(r, e)))
    requires again < |s.handlers[s.requests[r].handler].slots|
    ensures var t := Next(s, TakeNode(r, e));
            Enabled(t, TakeNode(r, again))
            <==> s.requests[r].tries == 0
                 && HoldingNode(s, s.handlers[s.requests[r].handler].slots[e])
                    < NodeThreshold(s.handlers[s.requests[r].handler], e)
  {
    hide Reaches, Tally, HoldingNode;
    NodeSlotExactlyWhen(actions, s, r, e);
    hide Indexed;
  }

  // ---- A handler comes up --------------------------------------------------

  /** Main result 3. A handler that has found an admission becomes its member if and
      only if that has not retired, and looks for another one otherwise. */
  lemma JoinExactlyWhen(s: Sys, h: nat)
    requires Indexed(s) && Enabled(s, Join(h))
    ensures var p, t := s.handlers[h].pool, Next(s, Join(h));
            && t.handlers == s.handlers[h := s.handlers[h].(stage := if s.pools[p].retired then Seeking else Building)]
            && t.pools[p].members == s.pools[p].members + (if s.pools[p].retired then 0 else 1)
            && t.pools == s.pools[p := s.pools[p].(members := t.pools[p].members)]
            && t.table == s.table && t.nodes == s.nodes && t.requests == s.requests
  {
  }

  function Acquiring(h: nat, n: nat): seq<Action> {
    seq(n, i => AcquireNode(h))
  }

  /** What taking node references leaves alone. */
  ghost predicate OnlyReferences(s: Sys, t: Sys, h: nat)
    requires h < |s.handlers| && s.handlers[h].pool < |s.pools|
  {
    var p := s.handlers[h].pool;
    && |t.handlers| == |s.handlers| && t.handlers == s.handlers[h := s.handlers[h].(slots := t.handlers[h].slots)]
    && |t.pools| == |s.pools| && t.pools == s.pools[p := s.pools[p].(refs := t.pools[p].refs, slot := t.pools[p].slot)]
    && t.table == s.table && t.requests == s.requests && s.nodes <= t.nodes
  }

  lemma AcquireStep(s: Sys, h: nat)
    requires Indexed(s) && Enabled(s, AcquireNode(h))
    ensures s.handlers[h].pool < |s.pools| && OnlyReferences(s, Next(s, AcquireNode(h)), h)
    ensures |Next(s, AcquireNode(h)).handlers[h].slots| == |s.handlers[h].slots| + 1
  {
  }

  lemma OnlyReferencesTwice(s: Sys, t: Sys, u: Sys, h: nat)
    requires h < |s.handlers| && s.handlers[h].pool < |s.pools| && OnlyReferences(s, t, h)
    requires OnlyReferences(t, u, h)
    ensures OnlyReferences(s, u, h)
  {
  }

  lemma {:induction false} AcquireAll(s: Sys, h: nat) returns (t: Sys)
    requires Inv(s) && h < |s.handlers| && s.handlers[h].stage.Building?
    requires |s.handlers[h].slots| <= |s.handlers[h].urls| && s.handlers[h].pool < |s.pools|
    requires !s.pools[s.handlers[h].pool].removing
    ensures Plays(s, Acquiring(h, |s.handlers[h].urls| - |s.handlers[h].slots|), t) && Inv(t)
    ensures OnlyReferences(s, t, h) && |t.handlers[h].slots| == |s.handlers[h].urls|
    decreases |s.handlers[h].urls| - |s.handlers[h].slots|
  {
    hide Inv, Next;
    var left := |s.handlers[h].urls| - |s.handlers[h].slots|;
    if left == 0 {
      t := s;
    } else {
      InvIndexed(s);
      StepKeeps(s, AcquireNode(h));
      AcquireStep(s, h);
      var next := Next(s, AcquireNode(h));
      t := AcquireAll(next, h);
      OnlyReferencesTwice(s, next, t, h);
      assert Acquiring(h, left)[1..] == Acquiring(h, left - 1);
    }
  }

  /** The steps of a handler with n nodes that comes up as handler h. */
  function ComingUp(h: nat, id: string, urls: seq<string>, nodeLimits: seq<int>, limit: int): seq<Action> {
    [NewHandler(id, urls, nodeLimits, limit), LoadOrStore(h), Join(h)] + Acquiring(h, |urls|) + [Publish(h)]
  }

  /** The admission listed for a pool can be joined: none is listed, or one whose last
      member is not just removing it. */
  predicate Joinable(s: Sys, id: string) {
    id in s.table ==> s.table[id] < |s.pools| && !s.pools[s.table[id]].removing
  }

  lemma FoundIsLive(s: Sys, h: nat)
    requires Inv(s) && Enabled(s, LoadOrStore(h)) && Joinable(s, s.handlers[h].id)
    ensures var t := Next(s, LoadOrStore(h));
            && t.handlers == s.handlers[h := t.handlers[h]]
            && t.handlers[h] == s.handlers[h].(stage := Loaded, pool := t.handlers[h].pool)
            && t.handlers[h].pool < |t.pools|
            && !t.pools[t.handlers[h].pool].removing && !t.pools[t.handlers[h].pool].retired
            && t.requests == s.requests && s.nodes == t.nodes
            && s.handlers[h].id in t.table && t.table[s.handlers[h].id] == t.handlers[h].pool
            && t.table == s.table[s.handlers[h].id := t.handlers[h].pool]
            && (if s.handlers[h].id in s.table
                then t.pools == s.pools && t.handlers[h].pool == s.table[s.handlers[h].id]
                else t.handlers[h].pool == |s.pools| && t.pools == s.pools + [t.pools[|s.pools|]]
                     && t.pools[|s.pools|].members == t.pools[|s.pools|].active == 0)
  {
    hide MembersOK, RefsOK, SlotsOK, PoolTallyOK, PoolLimitOK, NodeTallyOK, NodeLimitOK, InsideOK;
    hide LivesOK, RequestsOK;
  }

  /** How many members the admission listed for a pool has. */
  function ListedMembers(s: Sys, id: string): int {
    if id in s.table && s.table[id] < |s.pools| then s.pools[s.table[id]].members else 0
  }

  /** Main result 4. A new handler comes up by its own steps alone: it ends up serving,
      with one slot for each node, as one more member of the admission that is listed
      for its pool, the one listed before if there is one. Requests and other handlers
      do not notice. */
  lemma HandlerComesUp(actions: seq<Action>, s: Sys, id: string, urls: seq<string>, nodeLimits: seq<int>, limit: int)
    returns (t: Sys)
    requires Reaches(actions, s) && |urls| == |nodeLimits| && Joinable(s, id)
    ensures Plays(s, ComingUp(|s.handlers|, id, urls, nodeLimits, limit), t)
    ensures |t.handlers| == |s.handlers| + 1 && t.handlers[..|s.handlers|] == s.handlers && t.requests == s.requests
    ensures var x := t.handlers[|s.handlers|];
            && x.id == id && x.urls == urls && x.nodeLimits == nodeLimits && x.limit == limit
            && Serving(t, |s.handlers|) && x.requests == 0 && |x.slots| == |urls| && x.pool < |t.pools|
            && id in t.table && t.table[id] == x.pool && t.table == s.table[id := x.pool]
            && (id in s.table ==> x.pool == s.table[id])
            && t.pools[x.pool].members == ListedMembers(s, id) + 1
  {
    hide Reaches, Inv, Plays, Next, Enabled, Indexed;
    ReachesInv(actions, s);
    var h, a := |s.handlers|, NewHandler(id, urls, nodeLimits, limit);
    InvIndexed(s);
    var s1 := NewStep(s, id, urls, nodeLimits, limit);
    InvIndexed(s1);
    FoundIsLive(s1, h);
    StepKeeps(s1, LoadOrStore(h));
    var s2 := Next(s1, LoadOrStore(h));
    InvIndexed(s2);
    var s3 := JoinStep(s2, h);
    InvIndexed(s3);
    var s4 := AcquireAll(s3, h);
    InvIndexed(s4);
    t := PublishStep(s4, h);
    PlaysOne(s, a);
    PlaysOn(s, [a], s1, LoadOrStore(h));
    PlaysOn(s, [a] + [LoadOrStore(h)], s2, Join(h));
    PlaysConcat(s, [a] + [LoadOrStore(h)] + [Join(h)], s3, Acquiring(h, |urls|), s4);
    PlaysOn(s, [a] + [LoadOrStore(h)] + [Join(h)] + Acquiring(h, |urls|), s4, Publish(h));
    assert [a] + [LoadOrStore(h)] + [Join(h)] + Acquiring(h, |urls|) + [Publish(h)]
        == ComingUp(h, id, urls, nodeLimits, limit);
  }

  lemma NewStep(s: Sys, id: string, urls: seq<string>, nodeLimits: seq<int>, limit: int) returns (t: Sys)
    requires Inv(s) && |urls| == |nodeLimits| && Joinable(s, id)
    ensures Indexed(s) && Indexed(t) && Enabled(s, NewHandler(id, urls, nodeLimits, limit))
    ensures t == Next(s, NewHandler(id, urls, nodeLimits, limit))
    ensures Inv(t) && Enabled(t, LoadOrStore(|s.handlers|))
    ensures t == s.(handlers := s.handlers + [Entry(id, urls, nodeLimits, limit)]) && Joinable(t, id)
  {
    InvIndexed(s);
    hide Inv, Indexed;
    t := Next(s, NewHandler(id, urls, nodeLimits, limit));
    StepKeeps(s, NewHandler(id, urls, nodeLimits, limit));
  }

  lemma JoinStep(s: Sys, h: nat) returns (t: Sys)
    requires Inv(s) && h < |s.handlers| && s.handlers[h].stage.Loaded? && s.handlers[h].pool < |s.pools|
    requires !s.pools[s.handlers[h].pool].removing && !s.pools[s.handlers[h].pool].retired
    ensures Enabled(s, Join(h)) && t == Next(s, Join(h)) && Inv(t)
    ensures var p := s.handlers[h].pool;
            && t.handlers == s.handlers[h := s.handlers[h].(stage := Building)]
            && t.pools == s.pools[p := s.pools[p].(members := s.pools[p].members + 1)]
            && t.table == s.table && t.nodes == s.nodes && t.requests == s.requests
  {
    hide Inv, Next, Indexed;
    InvIndexed(s);
    StepKeeps(s, Join(h));
    JoinExactlyWhen(s, h);
    t := Next(s, Join(h));
  }

  lemma PublishStep(s: Sys, h: nat) returns (t: Sys)
    requires Inv(s) && h < |s.handlers| && s.handlers[h].stage.Building?
    requires |s.handlers[h].slots| == |s.handlers[h].urls|
    ensures Enabled(s, Publish(h)) && t == Next(s, Publish(h))
    ensures t == s.(handlers := s.handlers[h := s.handlers[h].(stage := Ready)])
  {
    hide Inv, Indexed;
    InvIndexed(s);
    t := Next(s, Publish(h));
  }

  // ---- A handler goes away -------------------------------------------------

  lemma MemberStays(s: Sys, h: nat)
    requires Inv(s) && h < |s.handlers| && Member(s.handlers[h])
    ensures s.handlers[h].pool < |s.pools| && !s.pools[s.handlers[h].pool].removing
    ensures !s.pools[s.handlers[h].pool].retired && s.pools[s.handlers[h].pool].id == s.handlers[h].id
  {
    MembersAreNotRemoved(s, h);
    MemberIsCounted(s, h);
  }

  /** What giving its admission back comes to for handler h and the admission. */
  ghost predicate GaveBack(s: Sys, t: Sys, h: nat)
    requires h < |s.handlers| && s.handlers[h].pool < |s.pools|
  {
    var p, last := s.handlers[h].pool, s.pools[s.handlers[h].pool].members == 1;
    && |t.handlers| == |s.handlers| && t.handlers[h].stage.Released? && t.handlers[h].releases == 1
    && (forall k :: 0 <= k < |s.handlers| && k != h ==> t.handlers[k] == s.handlers[k])
    && |t.pools| == |s.pools| && (forall k :: 0 <= k < |s.pools| && k != p ==> t.pools[k] == s.pools[k])
    && t.pools[p].members == s.pools[p].members - 1 && t.pools[p].active == s.pools[p].active
    && (forall u :: RefCount(t.pools[p].refs, u)
                    == RefCount(s.pools[p].refs, u) - multiset(s.handlers[h].urls)[u])
    && t.pools[p].retired == t.pools[p].removing == last
    && t.table == s.table && t.nodes == s.nodes
  }

  /** A member's references are in the node table. */
  lemma MemberHasReferences(s: Sys, h: nat, u: string)
    requires Inv(s) && h < |s.handlers| && s.handlers[h].stage.Ready? && s.handlers[h].pool < |s.pools|
    ensures RefCount(s.pools[s.handlers[h].pool].refs, u) >= multiset(s.handlers[h].urls)[u]
  {
    hide TableOK, MembersOK, SlotsOK, PoolTallyOK, PoolLimitOK, NodeTallyOK, NodeLimitOK, InsideOK, RequestsOK, Tally;
    var x := s.handlers[h];
    assert LifeOK(x);
    assert x.urls[..|x.slots|] == x.urls;
    TallyAtLeast(s.handlers, h, RefsTo(x.pool, u));
  }

  lemma ReleaseGivesBack(s: Sys, h: nat, x: Handler, requests: seq<Request>)
    requires Inv(s) && h < |s.handlers| && s.handlers[h].stage.Ready? && s.handlers[h].pool < |s.pools|
    requires MustRelease(x) && x.pool == s.handlers[h].pool && x.urls == s.handlers[h].urls && x.releases == 0
    requires !s.pools[x.pool].retired && !s.pools[x.pool].removing
    ensures var t := ReleaseIfDue(WithHandler(s.(requests := requests), h, x), h);
            GaveBack(s, t, h) && t.requests == requests
  {
    hide Inv;
    forall u ensures RefCount(s.pools[x.pool].refs, u) >= multiset(x.urls)[u] {
      MemberHasReferences(s, h, u);
    }
  }

  /** Main result 5. A handler that is shut down takes no more requests. If none is
      inside it gives its admission back at once, and if some are nothing but the
      handler changes. */
  lemma ShutdownGivesBack(actions: seq<Action>, s: Sys, h: nat)
    requires Reaches(actions, s) && Indexed(s) && Serving(s, h) && s.handlers[h].pool < |s.pools|
    ensures Enabled(s, Shutdown(h)) && Indexed(Next(s, Shutdown(h)))
    ensures var t := Next(s, Shutdown(h));
            && |t.handlers| == |s.handlers| && t.handlers[h].retired && !Enabled(t, Arrive(h))
            && t.requests == s.requests
            && if s.handlers[h].requests > 0 then t == s.(handlers := s.handlers[h := s.handlers[h].(retired := true)])
               else GaveBack(s, t, h)
  {
    hide Reaches, TableOK, RefsOK, SlotsOK, PoolTallyOK, PoolLimitOK, NodeTallyOK, NodeLimitOK, RequestsOK;
    hide MembersOK, Tally, GaveBack;
    ReachesInv(actions, s);
    MemberStays(s, h);
    StepKeeps(s, Shutdown(h));
    hide Indexed, RefCount;
    assert LifeOK(s.handlers[h]);
    if s.handlers[h].requests == 0 {
      ReleaseGivesBack(s, h, s.handlers[h].(retired := true), s.requests);
      assert s.(requests := s.requests) == s;
    }
  }

  /** The end of a request is counted, and the last one of a handler that has been shut
      down gives its admission back. */
  lemma LastRequestGivesBack(actions: seq<Action>, s: Sys, r: nat)
    requires Reaches(actions, s) && Indexed(s) && r < |s.requests| && s.requests[r].phase.Leaving?
    ensures s.requests[r].handler < |s.handlers| && s.handlers[s.requests[r].handler].pool < |s.pools|
    ensures Enabled(s, Finish(r))
    ensures var t, h := Next(s, Finish(r)), s.requests[r].handler;
            var x := s.handlers[h];
            && t.requests == s.requests[r := s.requests[r].(phase := Finished)]
            && if x.retired && x.requests == 1 then GaveBack(s, t, h)
               else t == s.(requests := t.requests, handlers := s.handlers[h := x.(requests := x.requests - 1)])
  {
    hide Reaches, TableOK, RefsOK, SlotsOK, PoolTallyOK, PoolLimitOK, NodeTallyOK, NodeLimitOK, InsideOK, MembersOK;
    hide Tally, GaveBack, RefCount;
    ReachesInv(actions, s);
    var h := s.requests[r].handler;
    assert RequestOK(s.requests[r], s.handlers[h]) && LifeOK(s.handlers[h]);
    hide RequestsOK, LivesOK;
    MemberStays(s, h);
    hide Indexed;
    if s.handlers[h].retired && s.handlers[h].requests == 1 {
      ReleaseGivesBack(s, h, LeftBy(s.handlers[h]), s.requests[r := s.requests[r].(phase := Finished)]);
    }
  }

  /** A retired admission that is still listed can be removed, and then its pool's name
      stands for none. */
  lemma RemovalUnlists(actions: seq<Action>, s: Sys, p: nat)
    requires Reaches(actions, s) && Indexed(s) && p < |s.pools| && s.pools[p].removing
    ensures Enabled(s, Remove(p)) && s.pools[p].id in s.table && s.table[s.pools[p].id] == p
    ensures var t := Next(s, Remove(p));
            && t.table == s.table - {s.pools[p].id} && t.pools == s.pools[p := s.pools[p].(removing := false)]
            && t.handlers == s.handlers && t.requests == s.requests && t.nodes == s.nodes
            && Joinable(t, s.pools[p].id)
  {
    hide Reaches, RefsOK, SlotsOK, PoolTallyOK, PoolLimitOK, NodeTallyOK, NodeLimitOK, InsideOK, MembersOK;
    hide Tally, LivesOK, RequestsOK;
    ReachesInv(actions, s);
    hide Indexed;
  }

  /** No handler is ever stuck: each has a next step, and only one about to join waits, for
      a removal that can be made. New handlers come, requests arrive and serving handlers are
      shut down at any time. */
  lemma HandlersAreNotStuck(actions: seq<Action>, s: Sys, h: nat)
    requires Reaches(actions, s) && Indexed(s)
    ensures forall id, urls, nodeLimits, limit ::
              Enabled(s, NewHandler(id, urls, nodeLimits, limit)) <==> |urls| == |nodeLimits|
    ensures h < |s.handlers| ==>
              match s.handlers[h].stage
              case Seeking => Enabled(s, LoadOrStore(h))
              case Loaded => Enabled(s, Join(h)) || Enabled(s, Remove(s.handlers[h].pool))
              case Building =>
                Enabled(s, if |s.handlers[h].slots| < |s.handlers[h].urls| then AcquireNode(h) else Publish(h))
              case Ready => Enabled(s, Shutdown(h)) && (!s.handlers[h].retired ==> Enabled(s, Arrive(h)))
              case Released => Enabled(s, Shutdown(h))
  {
    hide Reaches, Tally, PoolTallyOK, PoolLimitOK, NodeTallyOK, NodeLimitOK, InsideOK, MembersOK, RefsOK, RequestsOK;
    ReachesInv(actions, s);
    if h < |s.handlers| && Member(s.handlers[h]) {
      MemberStays(s, h);
    }
    hide TableOK, SlotsOK;
  }

  /** Nor is a request. */
  lemma RequestsAreNotStuck(actions: seq<Action>, s: Sys, r: nat)
    requires Reaches(actions, s) && Indexed(s) && r < |s.requests|
    ensures match s.requests[r].phase
            case Entered => Enabled(s, TakePool(r))
            case Holding => Enabled(s, if s.requests[r].nodes == [] then GivePool(r) else GiveNode(r))
            case Leaving => Enabled(s, Finish(r))
            case Finished => true
  {
    hide Reaches, Tally, PoolTallyOK, PoolLimitOK, NodeTallyOK, NodeLimitOK, InsideOK, MembersOK, RefsOK, LivesOK;
    ReachesInv(actions, s);
    hide TableOK, SlotsOK;
    if s.requests[r].phase.Leaving? {
      assert RequestOK(s.requests[r], s.handlers[s.requests[r].handler]);
      MemberStays(s, s.requests[r].handler);
    }
  }
}
