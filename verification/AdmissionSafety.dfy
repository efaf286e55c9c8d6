/** Safety of the shared pool admissions over every interleaving of handlers and
    requests, across any number of reloads. */
module AdmissionSafety {
  import opened Admission
  import opened AdmissionSteps
  import opened Tallies

  // ---- One step at a time --------------------------------------------------

  lemma HandlerKeeps(s: Sys, h: nat, x: Handler)
    requires Inv(s) && h < |s.handlers|
    requires var was := s.handlers[h];
             && Evolves(was, x) && x.requests == was.requests && LifeOK(x)
             && (Member(x) <==> Member(was)) && (Member(was) ==> x.pool == was.pool && x.slots == was.slots)
             && (was.stage.Ready? ==> x.stage.Ready?)
             && (!x.stage.Seeking? ==> x.pool < |s.pools| && s.pools[x.pool].id == x.id)
             && (!Member(x) ==> x.slots == was.slots)
    ensures Inv(WithHandler(s, h, x))
  {
    hide TableOK, RefsOK, SlotsOK, PoolTallyOK, PoolLimitOK, NodeTallyOK, NodeLimitOK, InsideOK, RequestsOK;
    HandlerIndexed(s, h, x);
    MembersHandler(s.pools, s.handlers, h, x);
    RefsHandler(s.pools, s.handlers, h, x);
    SlotsHandler(s.pools, s.nodes, s.handlers, h, x);
    LimitsHandler(s.handlers, s.requests, h, x);
    InsideHandler(s.handlers, s.requests, h, x);
    RequestsHandler(s.handlers, s.requests, h, x);
  }

  lemma HandlerIndexed(s: Sys, h: nat, x: Handler)
    requires Indexed(s) && RequestsOK(s.handlers, s.requests) && h < |s.handlers| && Evolves(s.handlers[h], x)
    requires x.slots == s.handlers[h].slots && (!x.stage.Seeking? ==> x.pool < |s.pools|)
    ensures Indexed(WithHandler(s, h, x))
  {
  }

  lemma NewHandlerKeeps(s: Sys, id: string, urls: seq<string>, nodeLimits: seq<int>, limit: int)
    requires Inv(s) && |urls| == |nodeLimits|
    ensures Inv(s.(handlers := s.handlers + [Entry(id, urls, nodeLimits, limit)]))
  {
    var x := Entry(id, urls, nodeLimits, limit);
    hide RefsOK, SlotsOK, PoolTallyOK, PoolLimitOK, NodeTallyOK, NodeLimitOK, InsideOK, TableOK;
    MembersNewHandler(s.pools, s.handlers, x);
    RefsNewHandler(s.pools, s.handlers, x);
    SlotsNewHandler(s.pools, s.nodes, s.handlers, x);
    LimitsNewHandler(s.handlers, s.requests, x);
    InsideNewHandler(s.handlers, s.requests, x);
  }

  lemma NewPoolKeeps(s: Sys, id: string)
    requires Inv(s) && id !in s.table
    ensures Inv(s.(table := s.table[id := |s.pools|], pools := s.pools + [FreshPool(id)]))
  {
    hide RefsOK, SlotsOK, PoolTallyOK, PoolLimitOK, NodeTallyOK, NodeLimitOK;
    hide InsideOK, TableOK, LivesOK, RequestsOK, MembersOK;
    TableNewPool(s.table, s.pools, id);
    MembersNewPool(s.pools, s.handlers, id);
    RefsNewPool(s.pools, s.handlers, id);
    SlotsNewPool(s.pools, s.nodes, s.handlers, id);
    PoolTallyNewPool(s.pools, s.requests, id);
  }

  lemma LoadKeeps(s: Sys, h: nat)
    requires Inv(s) && Enabled(s, LoadOrStore(h))
    ensures Inv(Load(s, h))
  {
    hide RefsOK, SlotsOK, PoolTallyOK, PoolLimitOK, NodeTallyOK, NodeLimitOK, InsideOK, RequestsOK, Tally;
    var handler := s.handlers[h];
    if handler.id in s.table {
      HandlerKeeps(s, h, handler.(stage := Loaded, pool := s.table[handler.id]));
    } else {
      NewPoolKeeps(s, handler.id);
      HandlerKeeps(s.(table := s.table[handler.id := |s.pools|], pools := s.pools + [FreshPool(handler.id)]), h,
                   handler.(stage := Loaded, pool := |s.pools|));
    }
  }

  /** A handler becomes x and its admission y in one critical section. */
  function Moved(s: Sys, h: nat, x: Handler, y: Pool): Sys
    requires h < |s.handlers| && x.pool < |s.pools|
  {
    WithPool(WithHandler(s, h, x), x.pool, y)
  }

  lemma MovedKeeps(s: Sys, due: int, h: nat, x: Handler, y: Pool)
    requires InvBut(s, due) && h < |s.handlers| && x.pool < |s.pools|
    requires Evolves(s.handlers[h], x) && x.requests == s.handlers[h].requests && y.active == s.pools[x.pool].active
    requires Indexed(Moved(s, h, x, y)) && TableOK(s.table, s.pools[x.pool := y])
    requires MembersOK(s.pools[x.pool := y], s.handlers[h := x])
    requires RefsOK(s.pools[x.pool := y], s.handlers[h := x])
    requires SlotsOK(s.pools[x.pool := y], s.nodes, s.handlers[h := x])
    requires LivesOK(s.handlers[h := x], -1) && RequestsOK(s.handlers[h := x], s.requests)
    ensures Inv(Moved(s, h, x, y))
  {
    hide RefsOK, SlotsOK, PoolTallyOK, PoolLimitOK, NodeTallyOK, NodeLimitOK;
    hide InsideOK, TableOK, MembersOK, RequestsOK, LivesOK, Indexed;
    PoolTallyPool(s.pools, s.requests, x.pool, y);
    LimitsHandler(s.handlers, s.requests, h, x);
    InsideHandler(s.handlers, s.requests, h, x);
  }

  lemma JoinKeeps(s: Sys, h: nat)
    requires Inv(s) && h < |s.handlers| && s.handlers[h].stage.Loaded? && s.handlers[h].pool < |s.pools|
    ensures Inv(Joined(s, h))
  {
    hide InvBut;
    if s.pools[s.handlers[h].pool].retired {
      StartsOver(s, h);
    } else {
      NewMemberKeeps(s, h);
    }
  }

  lemma StartsOver(s: Sys, h: nat)
    requires Inv(s) && h < |s.handlers| && s.handlers[h].stage.Loaded?
    ensures Inv(WithHandler(s, h, s.handlers[h].(stage := Seeking)))
  {
    HandlerKeeps(s, h, s.handlers[h].(stage := Seeking));
  }

  lemma NewMemberKeeps(s: Sys, h: nat)
    requires Inv(s) && h < |s.handlers| && s.handlers[h].stage.Loaded? && s.handlers[h].pool < |s.pools|
    requires !s.pools[s.handlers[h].pool].retired
    ensures var was := s.handlers[h];
            var pool := s.pools[was.pool];
            Inv(Moved(s, h, was.(stage := Building), pool.(members := pool.members + 1)))
  {
    hide RefsOK, SlotsOK, PoolTallyOK, PoolLimitOK, NodeTallyOK, NodeLimitOK;
    hide InsideOK, TableOK, MembersOK, RequestsOK, Tally, LivesOK;
    var was := s.handlers[h];
    var p, pool := was.pool, s.pools[was.pool];
    var x, y := was.(stage := Building), pool.(members := pool.members + 1);
    LivesHandler(s.handlers, h, x);
    TableSame(s.table, s.pools, p, y);
    MembersJoin(s.pools, s.handlers, h, x);
    RefsPool(s.pools, s.handlers, p, y);
    RefsHandler(s.pools[p := y], s.handlers, h, x);
    SlotsPool(s.pools, s.nodes, s.handlers, p, y);
    SlotsHandler(s.pools[p := y], s.nodes, s.handlers, h, x);
    RequestsHandler(s.handlers, s.requests, h, x);
    MovedIndexed(s, h, x, y);
    MovedKeeps(s, -1, h, x, y);
  }

  lemma MovedIndexed(s: Sys, h: nat, x: Handler, y: Pool)
    requires Indexed(s) && h < |s.handlers| && x.pool == s.handlers[h].pool < |s.pools| && Evolves(s.handlers[h], x)
    requires |x.slots| <= |x.urls| && (forall k :: 0 <= k < |x.slots| ==> x.slots[k] < |s.nodes|)
    requires y.refs.Keys == y.slot.Keys && (forall u :: u in y.slot ==> y.slot[u] < |s.nodes|)
    ensures Indexed(Moved(s, h, x, y))
  {
  }

  lemma LivesHandler(handlers: seq<Handler>, h: nat, x: Handler)
    requires LivesOK(handlers, -1) && h < |handlers|
    ensures LifeOK(x) ==> LivesOK(handlers[h := x], -1)
    ensures LifeOKOrDue(x) ==> LivesOK(handlers[h := x], h)
    ensures LifeOK(handlers[h])
  {
    hide LifeOK, LifeOKOrDue;
  }

  lemma PoolOfHandler(pools: seq<Pool>, handlers: seq<Handler>, h: nat)
    requires MembersOK(pools, handlers) && h < |handlers| && !handlers[h].stage.Seeking?
    ensures handlers[h].pool < |pools| && pools[handlers[h].pool].id == handlers[h].id
  {
    hide Tally;
  }

  // ---- Node references -----------------------------------------------------

  lemma NewNodeKeeps(s: Sys, p: nat, url: string)
    requires Inv(s)
    ensures Inv(s.(nodes := s.nodes + [Node(p, url, 0)]))
  {
    hide RefsOK, PoolTallyOK, PoolLimitOK, NodeTallyOK, NodeLimitOK, InsideOK;
    hide TableOK, MembersOK, RequestsOK, LivesOK, Tally;
    NodeTallyNewNode(s.nodes, s.requests, p, url);
  }

  /** The slot of a URL gets a reference and the next node of handler h. */
  lemma ReferenceKeeps(s: Sys, h: nat, n: nat, y: Pool)
    requires Inv(s) && h < |s.handlers| && s.handlers[h].stage.Building? && s.handlers[h].pool < |s.pools|
    requires |s.handlers[h].slots| < |s.handlers[h].urls| && n < |s.nodes|
    requires var was := s.handlers[h];
             var pool, url := s.pools[was.pool], was.urls[|was.slots|];
             && y == pool.(refs := AddRef(pool.refs, url), slot := pool.slot[url := n])
             && s.nodes[n].pool == was.pool && s.nodes[n].url == url
             && (url in pool.slot ==> pool.slot[url] == n)
    ensures Inv(Moved(s, h, s.handlers[h].(slots := s.handlers[h].slots + [n]), y))
  {
    hide RefsOK, SlotsOK, PoolTallyOK, PoolLimitOK, NodeTallyOK, NodeLimitOK;
    hide InsideOK, TableOK, RequestsOK, Tally, LivesOK, MembersOK;
    var was := s.handlers[h];
    var p := was.pool;
    var x := was.(slots := was.slots + [n]);
    TableSame(s.table, s.pools, p, y);
    MembersPool(s.pools, s.handlers, p, y);
    PoolOfHandler(s.pools, s.handlers, h);
    MembersHandler(s.pools[p := y], s.handlers, h, x);
    RefsAcquire(s.pools, s.handlers, h, x, y);
    SlotsListed(s.pools, s.nodes, s.handlers, p, was.urls[|was.slots|], n, y);
    SlotsAcquire(s.pools[p := y], s.nodes, s.handlers, h, x);
    RequestsHandler(s.handlers, s.requests, h, x);
    LivesHandler(s.handlers, h, x);
    MovedIndexed(s, h, x, y);
    MovedKeeps(s, -1, h, x, y);
  }

  lemma AcquireKeeps(s: Sys, h: nat)
    requires Inv(s) && Enabled(s, AcquireNode(h))
    ensures Inv(Acquired(s, h))
  {
    hide RefsOK, PoolTallyOK, PoolLimitOK, NodeTallyOK, NodeLimitOK, InsideOK;
    hide TableOK, MembersOK, RequestsOK, LivesOK, Tally;
    var was := s.handlers[h];
    var p := was.pool;
    var pool, url := s.pools[p], was.urls[|was.slots|];
    if url in pool.slot {
      assert pool.slot[url := pool.slot[url]] == pool.slot;
      ReferenceKeeps(s, h, pool.slot[url], pool.(refs := AddRef(pool.refs, url)));
    } else {
      NewNodeKeeps(s, p, url);
      ReferenceKeeps(s.(nodes := s.nodes + [Node(p, url, 0)]), h, |s.nodes|,
                     pool.(refs := AddRef(pool.refs, url), slot := pool.slot[url := |s.nodes|]));
    }
  }

  // ---- Release -------------------------------------------------------------

  lemma ReleaseKeeps(s: Sys, h: nat)
    requires InvBut(s, h) && h < |s.handlers| && s.handlers[h].pool < |s.pools|
    ensures Inv(ReleaseIfDue(s, h))
  {
    hide RefsOK, SlotsOK, PoolTallyOK, PoolLimitOK, NodeTallyOK, NodeLimitOK;
    hide InsideOK, TableOK, MembersOK, RequestsOK, Indexed, Tally;
    if MustRelease(s.handlers[h]) {
      DueReleaseKeeps(s, h);
    }
  }

  lemma DueReleaseKeeps(s: Sys, h: nat)
    requires InvBut(s, h) && h < |s.handlers| && s.handlers[h].pool < |s.pools|
    requires MustRelease(s.handlers[h]) && s.handlers[h].releases == 0 && |s.handlers[h].slots| == |s.handlers[h].urls|
    ensures var was := s.handlers[h];
            Inv(Moved(s, h, was.(stage := Released, releases := 1), WithoutMember(s.pools[was.pool], was.urls)))
  {
    hide RefsOK, SlotsOK, PoolTallyOK, PoolLimitOK, NodeTallyOK, NodeLimitOK;
    hide InsideOK, TableOK, MembersOK, RequestsOK, Indexed, Tally;
    var was := s.handlers[h];
    var p := was.pool;
    var x, y := was.(stage := Released, releases := 1), WithoutMember(s.pools[p], was.urls);
    MembersLeave(s.pools, s.handlers, h, x);
    if y.retired {
      TableRetires(s.table, s.pools, p, y);
    } else {
      TableSame(s.table, s.pools, p, y);
    }
    RefsLeave(s.pools, s.handlers, h, x, y);
    SlotsHandler(s.pools, s.nodes, s.handlers, h, x);
    SlotsLeave(s.pools, s.nodes, s.handlers[h := x], p, y);
    RequestsRelease(s.handlers, s.requests, h, x);
    WithoutMemberIndexed(s, h, x);
    MovedKeeps(s, h, h, x, y);
  }

  lemma WithoutMemberIndexed(s: Sys, h: nat, x: Handler)
    requires Indexed(s) && h < |s.handlers| && x.pool == s.handlers[h].pool < |s.pools|
    requires Evolves(s.handlers[h], x) && x.slots == s.handlers[h].slots
    ensures Indexed(Moved(s, h, x, WithoutMember(s.pools[x.pool], x.urls)))
  {
    var y := WithoutMember(s.pools[x.pool], x.urls);
    assert y.refs.Keys == y.slot.Keys;
    MovedIndexed(s, h, x, y);
  }

  /** Asking a handler to retire. */
  lemma ShutdownKeeps(s: Sys, h: nat)
    requires Inv(s) && h < |s.handlers| && Published(s.handlers[h])
    ensures Inv(ReleaseIfDue(WithHandler(s, h, s.handlers[h].(retired := true)), h))
  {
    var x := s.handlers[h].(retired := true);
    RetiredKeeps(s, h, x);
    ReleaseKeeps(WithHandler(s, h, x), h);
  }

  lemma RetiredKeeps(s: Sys, h: nat, x: Handler)
    requires Inv(s) && h < |s.handlers| && Published(s.handlers[h]) && x == s.handlers[h].(retired := true)
    ensures InvBut(WithHandler(s, h, x), h) && x.pool < |s.pools|
  {
    hide TableOK, RefsOK, SlotsOK, PoolTallyOK, PoolLimitOK, NodeTallyOK, NodeLimitOK, InsideOK, RequestsOK;
    HandlerIndexed(s, h, x);
    MembersHandler(s.pools, s.handlers, h, x);
    RefsHandler(s.pools, s.handlers, h, x);
    SlotsHandler(s.pools, s.nodes, s.handlers, h, x);
    LimitsHandler(s.handlers, s.requests, h, x);
    InsideHandler(s.handlers, s.requests, h, x);
    RequestsHandler(s.handlers, s.requests, h, x);
  }

  // ---- Requests ------------------------------------------------------------

  lemma RequestIndexed(s: Sys, r: nat, q: Request)
    requires Indexed(s) && r < |s.requests| && q.handler == s.requests[r].handler && q.pool == s.requests[r].pool
    requires forall k :: 0 <= k < |q.nodes| ==> q.nodes[k] < |s.nodes|
    ensures Indexed(WithRequest(s, r, q))
  {
  }

  lemma CountersIndexed(s: Sys, p: nat, n: nat, d: int)
    requires Indexed(s)
    ensures p < |s.pools| ==> Indexed(AddActive(s, p, d))
    ensures n < |s.nodes| ==> Indexed(AddNodeActive(s, n, d))
  {
  }

  lemma RequestHolds(s: Sys, r: nat)
    requires Indexed(s) && RequestsOK(s.handlers, s.requests) && r < |s.requests|
    ensures var q := s.requests[r];
            && q.handler < |s.handlers| && q.pool < |s.pools| && RequestOK(q, s.handlers[q.handler])
            && forall k :: 0 <= k < |q.nodes| ==> q.nodes[k] < |s.nodes|
  {
  }

  lemma RequestReplaced(handlers: seq<Handler>, requests: seq<Request>, r: nat, q: Request)
    requires RequestsOK(handlers, requests) && r < |requests|
    requires q.handler < |handlers| && RequestOK(q, handlers[q.handler])
    ensures RequestsOK(handlers, requests[r := q])
  {
    hide RequestOK;
  }

  lemma RequestAdded(handlers: seq<Handler>, requests: seq<Request>, q: Request)
    requires RequestsOK(handlers, requests)
    requires q.handler < |handlers| && RequestOK(q, handlers[q.handler])
    ensures RequestsOK(handlers, requests + [q])
  {
    hide RequestOK;
  }

  /** A counter that does not change. */
  lemma SameCounter(pools: seq<Pool>, p: nat)
    requires p < |pools|
    ensures pools[p := pools[p].(active := pools[p].active + 0)] == pools
  {
  }

  lemma ArrivedIndexed(s: Sys, h: nat)
    requires Indexed(s) && h < |s.handlers| && s.handlers[h].pool < |s.pools|
    ensures Indexed(Arrived(s, h))
  {
  }

  lemma ArriveKeeps(s: Sys, h: nat)
    requires Inv(s) && h < |s.handlers| && Published(s.handlers[h])
    requires !s.handlers[h].retired && s.handlers[h].pool < |s.pools|
    ensures Inv(Arrived(s, h))
  {
    hide RefsOK, SlotsOK, PoolTallyOK, PoolLimitOK, NodeTallyOK, NodeLimitOK;
    hide InsideOK, TableOK, MembersOK, LivesOK, RequestsOK, Indexed;
    var was := s.handlers[h];
    var x, q := was.(requests := was.requests + 1), Request(h, was.pool, Entered, 0, false, []);
    PoolOfHandler(s.pools, s.handlers, h);
    MembersHandler(s.pools, s.handlers, h, x);
    RefsHandler(s.pools, s.handlers, h, x);
    SlotsHandler(s.pools, s.nodes, s.handlers, h, x);
    PoolTallyNewRequest(s.pools, s.requests, q);
    NodeTallyNewRequest(s.nodes, s.requests, q);
    LimitsHandler(s.handlers, s.requests, h, x);
    LimitsNewRequest(s.handlers[h := x], s.requests, q);
    InsideArrive(s.handlers, s.requests, h, x, q);
    RequestsHandler(s.handlers, s.requests, h, x);
    ArrivedIndexed(s, h);
    LivesHandler(s.handlers, h, x);
    RequestAdded(s.handlers[h := x], s.requests, q);
  }

  /** A request moves on, and the counters of its pool with it. */
  lemma PoolStepKeeps(s: Sys, r: nat, q: Request, d: int)
    requires Inv(s) && r < |s.requests|
    requires var was := s.requests[r];
             && q.handler == was.handler && q.pool == was.pool < |s.pools| && q.nodes == was.nodes == []
             && !was.phase.Finished? && !q.phase.Finished?
             && d == (if q.phase.Holding? then 1 else 0) - (if was.phase.Holding? then 1 else 0)
             && (d > 0 ==> was.handler < |s.handlers|
                           && s.pools[q.pool].active < Effective(s.handlers[was.handler].limit))
    ensures Inv(AddActive(WithRequest(s, r, q), q.pool, d))
  {
    hide RefsOK, SlotsOK, PoolTallyOK, PoolLimitOK, NodeTallyOK, NodeLimitOK;
    hide InsideOK, TableOK, MembersOK, LivesOK, RequestsOK, Indexed;
    var p := q.pool;
    var y := s.pools[p].(active := s.pools[p].active + d);
    TableSame(s.table, s.pools, p, y);
    MembersPool(s.pools, s.handlers, p, y);
    RefsPool(s.pools, s.handlers, p, y);
    SlotsPool(s.pools, s.nodes, s.handlers, p, y);
    RequestHolds(s, r);
    PoolTallyRequest(s.pools, s.requests, r, q, d);
    if d > 0 {
      PoolLimitTake(s.pools, s.handlers, s.requests, r, q);
    } else {
      PoolLimitRequest(s.handlers, s.requests, r, q);
    }
    NodeLimitRequest(s.handlers, s.requests, r, q);
    NodeTallyRequest(s.nodes, s.requests, r, q);
    InsideRequest(s.handlers, s.requests, r, q);
    RequestIndexed(s, r, q);
    CountersIndexed(WithRequest(s, r, q), p, |s.nodes|, d);
    RequestReplaced(s.handlers, s.requests, r, q);
  }

  lemma TakePoolKeeps(s: Sys, r: nat)
    requires Inv(s) && r < |s.requests| && s.requests[r].phase.Entered?
    requires s.requests[r].handler < |s.handlers| && s.requests[r].pool < |s.pools|
    ensures Inv(TookPool(s, r))
  {
    hide TableOK, MembersOK, RefsOK, SlotsOK, PoolTallyOK, PoolLimitOK;
    hide NodeTallyOK, NodeLimitOK, InsideOK, LivesOK, Indexed;
    var q := s.requests[r];
    if s.pools[q.pool].active >= Effective(s.handlers[q.handler].limit) {
      PoolStepKeeps(s, r, q.(phase := Leaving), 0);
      assert s.pools[q.pool := s.pools[q.pool].(active := s.pools[q.pool].active + 0)] == s.pools;
    } else {
      PoolStepKeeps(s, r, q.(phase := Holding), 1);
    }
  }

  lemma GivePoolKeeps(s: Sys, r: nat)
    requires Inv(s) && r < |s.requests| && s.requests[r].phase.Holding? && s.requests[r].nodes == []
    requires s.requests[r].pool < |s.pools|
    ensures Inv(GavePool(s, r))
  {
    PoolStepKeeps(s, r, s.requests[r].(phase := Leaving), -1);
  }

  lemma NodeTakenKeeps(s: Sys, r: nat, q: Request, n: nat, e: nat)
    requires Inv(s) && r < |s.requests| && n < |s.nodes|
    requires var was := s.requests[r];
             && was.phase.Holding? && was.handler < |s.handlers|
             && q == was.(tries := was.tries + 1, nodes := was.nodes + [n])
             && e < |s.handlers[was.handler].slots| && e < |s.handlers[was.handler].nodeLimits|
             && s.handlers[was.handler].slots[e] == n
             && s.nodes[n].active < NodeLimit(s.handlers[was.handler], e)
    ensures Inv(AddNodeActive(WithRequest(s, r, q), n, 1))
  {
    hide RefsOK, SlotsOK, PoolTallyOK, PoolLimitOK, NodeTallyOK, NodeLimitOK;
    hide InsideOK, TableOK, MembersOK, LivesOK, RequestsOK, Indexed;
    var y := s.nodes[n].(active := s.nodes[n].active + 1);
    RequestHolds(s, r);
    SlotsNode(s.pools, s.nodes, s.handlers, n, y);
    PoolTallyRequest(s.pools, s.requests, r, q, 0);
    SameCounter(s.pools, q.pool);
    NodeTallyTake(s.nodes, s.requests, r, q, n);
    PoolLimitRequest(s.handlers, s.requests, r, q);
    NodeLimitTake(s.nodes, s.handlers, s.requests, r, q, n, e);
    InsideRequest(s.handlers, s.requests, r, q);
    RequestIndexed(s, r, q);
    CountersIndexed(WithRequest(s, r, q), |s.pools|, n, 1);
    RequestReplaced(s.handlers, s.requests, r, q);
  }

  lemma NodeRefusedKeeps(s: Sys, r: nat, q: Request)
    requires Inv(s) && r < |s.requests| && s.requests[r].phase.Holding?
    requires q == s.requests[r].(tries := s.requests[r].tries + 1, unwinding := true)
    ensures Inv(WithRequest(s, r, q))
  {
    hide RefsOK, SlotsOK, PoolTallyOK, PoolLimitOK, NodeTallyOK, NodeLimitOK;
    hide InsideOK, TableOK, MembersOK, LivesOK, RequestsOK, Indexed;
    RequestHolds(s, r);
    PoolTallyRequest(s.pools, s.requests, r, q, 0);
    SameCounter(s.pools, q.pool);
    NodeTallyRequest(s.nodes, s.requests, r, q);
    PoolLimitRequest(s.handlers, s.requests, r, q);
    NodeLimitRequest(s.handlers, s.requests, r, q);
    InsideRequest(s.handlers, s.requests, r, q);
    RequestIndexed(s, r, q);
    RequestReplaced(s.handlers, s.requests, r, q);
  }

  lemma TakeNodeKeeps(s: Sys, r: nat, e: nat)
    requires Inv(s) && r < |s.requests| && s.requests[r].phase.Holding? && s.requests[r].handler < |s.handlers|
    requires var h := s.handlers[s.requests[r].handler];
             e < |h.slots| && e < |h.nodeLimits| && h.slots[e] < |s.nodes|
    ensures Inv(TookNode(s, r, e))
  {
    hide InvBut;
    var q := s.requests[r];
    var n := s.handlers[q.handler].slots[e];
    if s.nodes[n].active >= NodeLimit(s.handlers[q.handler], e) {
      NodeRefusedKeeps(s, r, q.(tries := q.tries + 1, unwinding := true));
    } else {
      NodeTakenKeeps(s, r, q.(tries := q.tries + 1, nodes := q.nodes + [n]), n, e);
    }
  }

  lemma GiveNodeKeeps(s: Sys, r: nat)
    requires Inv(s) && r < |s.requests| && s.requests[r].phase.Holding? && s.requests[r].nodes != []
    requires s.requests[r].nodes[|s.requests[r].nodes| - 1] < |s.nodes|
    ensures Inv(GaveNode(s, r))
  {
    hide RefsOK, SlotsOK, PoolTallyOK, PoolLimitOK, NodeTallyOK, NodeLimitOK;
    hide InsideOK, TableOK, MembersOK, LivesOK, RequestsOK, Indexed;
    var was := s.requests[r];
    var last := |was.nodes| - 1;
    var n := was.nodes[last];
    var q := was.(unwinding := true, nodes := was.nodes[..last]);
    var y := s.nodes[n].(active := s.nodes[n].active - 1);
    RequestHolds(s, r);
    SlotsNode(s.pools, s.nodes, s.handlers, n, y);
    PoolTallyRequest(s.pools, s.requests, r, q, 0);
    SameCounter(s.pools, q.pool);
    assert was.nodes == q.nodes + [n];
    NodeTallyGive(s.nodes, s.requests, r, q, n);
    PoolLimitRequest(s.handlers, s.requests, r, q);
    NodeLimitRequest(s.handlers, s.requests, r, q);
    InsideRequest(s.handlers, s.requests, r, q);
    RequestIndexed(s, r, q);
    CountersIndexed(WithRequest(s, r, q), |s.pools|, n, -1);
    RequestReplaced(s.handlers, s.requests, r, q);
  }

  lemma LeftKeeps(s: Sys, r: nat)
    requires Inv(s) && r < |s.requests| && s.requests[r].phase.Leaving?
    requires s.requests[r].handler < |s.handlers| && s.handlers[s.requests[r].handler].pool < |s.pools|
    ensures var h := s.requests[r].handler;
            InvBut(WithHandler(WithRequest(s, r, s.requests[r].(phase := Finished)), h, LeftBy(s.handlers[h])), h)
  {
    hide RefsOK, SlotsOK, PoolTallyOK, PoolLimitOK, NodeTallyOK, NodeLimitOK;
    hide InsideOK, TableOK, MembersOK, LivesOK, RequestsOK, Indexed;
    var was, h := s.requests[r], s.requests[r].handler;
    var q, x := was.(phase := Finished), LeftBy(s.handlers[h]);
    RequestHolds(s, r);
    LiveRequestIsCounted(s, r);
    PoolOfHandler(s.pools, s.handlers, h);
    MembersHandler(s.pools, s.handlers, h, x);
    RefsHandler(s.pools, s.handlers, h, x);
    SlotsHandler(s.pools, s.nodes, s.handlers, h, x);
    PoolTallyRequest(s.pools, s.requests, r, q, 0);
    SameCounter(s.pools, q.pool);
    NodeTallyRequest(s.nodes, s.requests, r, q);
    LimitsHandler(s.handlers, s.requests, h, x);
    PoolLimitRequest(s.handlers[h := x], s.requests, r, q);
    NodeLimitRequest(s.handlers[h := x], s.requests, r, q);
    InsideLeaves(s.handlers, s.requests, h, x, r, q);
    RequestsHandler(s.handlers, s.requests, h, x);
    RequestReplaced(s.handlers[h := x], s.requests, r, q);
    LivesHandler(s.handlers, h, x);
    RequestIndexed(s, r, q);
    LeftByIndexed(WithRequest(s, r, q), h);
  }

  lemma LeftByIndexed(s: Sys, h: nat)
    requires Indexed(s) && h < |s.handlers|
    ensures Indexed(WithHandler(s, h, LeftBy(s.handlers[h])))
  {
  }

  lemma LiveRequestIsCounted(s: Sys, r: nat)
    requires Inv(s) && r < |s.requests| && !s.requests[r].phase.Finished? && s.requests[r].handler < |s.handlers|
    ensures s.handlers[s.requests[r].handler].requests >= 1 && s.handlers[s.requests[r].handler].stage.Ready?
  {
    TallyAtLeast(s.requests, r, Inside(s.requests[r].handler));
  }

  lemma FinishKeeps(s: Sys, r: nat)
    requires Inv(s) && r < |s.requests| && s.requests[r].phase.Leaving?
    requires s.requests[r].handler < |s.handlers| && s.handlers[s.requests[r].handler].pool < |s.pools|
    ensures Inv(Left(s, r))
  {
    hide InvBut;
    var h := s.requests[r].handler;
    LeftKeeps(s, r);
    ReleaseKeeps(WithHandler(WithRequest(s, r, s.requests[r].(phase := Finished)), h, LeftBy(s.handlers[h])), h);
  }

  lemma RemoveKeeps(s: Sys, p: nat)
    requires Inv(s) && p < |s.pools| && s.pools[p].removing
    ensures Inv(Removed(s, p))
  {
    hide RefsOK, SlotsOK, PoolTallyOK, PoolLimitOK, NodeTallyOK, NodeLimitOK;
    hide InsideOK, TableOK, MembersOK, RequestsOK, LivesOK;
    var y := s.pools[p].(removing := false);
    TableRemoves(s.table, s.pools, p);
    MembersPool(s.pools, s.handlers, p, y);
    RefsPool(s.pools, s.handlers, p, y);
    SlotsPool(s.pools, s.nodes, s.handlers, p, y);
    PoolTallyPool(s.pools, s.requests, p, y);
  }

  lemma PublishKeeps(s: Sys, h: nat)
    requires Inv(s) && h < |s.handlers| && s.handlers[h].stage.Building?
    requires |s.handlers[h].slots| == |s.handlers[h].urls|
    ensures Inv(WithHandler(s, h, s.handlers[h].(stage := Ready)))
  {
    HandlerKeeps(s, h, s.handlers[h].(stage := Ready));
  }

  /** Main result 1. Every step of every goroutine keeps the invariant. */
  lemma StepKeeps(s: Sys, a: Action)
    requires Inv(s) && Enabled(s, a)
    ensures Inv(Next(s, a))
  {
    hide TableOK, MembersOK, RefsOK, SlotsOK, PoolTallyOK, PoolLimitOK;
    hide NodeTallyOK, NodeLimitOK, InsideOK, LivesOK, RequestsOK, Tally;
    match a
    case NewHandler(id, urls, nodeLimits, limit) => NewHandlerKeeps(s, id, urls, nodeLimits, limit);
    case LoadOrStore(h) => LoadKeeps(s, h);
    case Join(h) => JoinKeeps(s, h);
    case AcquireNode(h) => AcquireKeeps(s, h);
    case Publish(h) => PublishKeeps(s, h);
    case Shutdown(h) => ShutdownKeeps(s, h);
    case Arrive(h) => ArriveKeeps(s, h);
    case TakePool(r) => TakePoolKeeps(s, r);
    case TakeNode(r, e) => TakeNodeKeeps(s, r, e);
    case GiveNode(r) => GiveNodeKeeps(s, r);
    case GivePool(r) => GivePoolKeeps(s, r);
    case Finish(r) => FinishKeeps(s, r);
    case Remove(p) => RemoveKeeps(s, p);
  }

  // ---- Whole runs ----------------------------------------------------------

  function Start(): Sys {
    Sys(map[], [], [], [], [])
  }

  /** The states that some interleaving of steps leads to. */
  ghost predicate Reaches(actions: seq<Action>, s: Sys) {
    if actions == [] then s == Start()
    else
      var n := |actions| - 1;
      exists before: Sys {:trigger Reaches(actions[..n], before)} ::
        Reaches(actions[..n], before) && Indexed(before) && Enabled(before, actions[n]) && s == Next(before, actions[n])
  }

  lemma NothingIndexed()
    ensures Indexed(Start())
  {
  }

  lemma NothingListed()
    ensures TableOK(map[], []) && MembersOK([], []) && RefsOK([], [])
    ensures SlotsOK([], [], [])
  {
    hide Tally;
  }

  lemma NothingCounted()
    ensures PoolTallyOK([], []) && NodeTallyOK([], []) && InsideOK([], [])
    ensures LivesOK([], -1) && RequestsOK([], [])
  {
    hide Tally;
  }

  lemma NothingHeld()
    ensures PoolLimitOK([], []) && NodeLimitOK([], [])
  {
  }

  lemma StartKeeps()
    ensures Inv(Start())
  {
    hide TableOK, MembersOK, RefsOK, SlotsOK, PoolTallyOK, PoolLimitOK, NodeTallyOK, NodeLimitOK, InsideOK, LivesOK;
    hide RequestsOK, Indexed;
    NothingIndexed();
    NothingListed();
    NothingCounted();
    NothingHeld();
  }

  lemma {:induction false} ReachesInv(actions: seq<Action>, s: Sys)
    requires Reaches(actions, s)
    ensures Inv(s)
  {
    hide Inv, Enabled, Next, Indexed;
    if actions == [] {
      StartKeeps();
    } else {
      var n := |actions| - 1;
      var before: Sys :| Reaches(actions[..n], before) && Indexed(before) && Enabled(before, actions[n])
                         && s == Next(before, actions[n]);
      ReachesInv(actions[..n], before);
      StepKeeps(before, actions[n]);
    }
  }

  lemma MemberIsCounted(s: Sys, h: nat)
    requires Inv(s) && h < |s.handlers| && Member(s.handlers[h])
    ensures s.handlers[h].pool < |s.pools| && s.pools[s.handlers[h].pool].members >= 1
    ensures !s.pools[s.handlers[h].pool].retired
  {
    TallyAtLeast(s.handlers, h, MemberOf(s.handlers[h].pool));
  }

  /** Main result 2. All handlers of a pool that have not been released share one
      admission, which is the listed one and has not retired. */
  lemma SharedAdmission(actions: seq<Action>, s: Sys, h: nat, k: nat)
    requires Reaches(actions, s) && h < |s.handlers| && k < |s.handlers|
    requires Member(s.handlers[h]) && Member(s.handlers[k]) && s.handlers[h].id == s.handlers[k].id
    ensures s.handlers[h].pool == s.handlers[k].pool < |s.pools|
    ensures !s.pools[s.handlers[h].pool].retired
    ensures s.handlers[h].id in s.table && s.table[s.handlers[h].id] == s.handlers[h].pool
  {
    hide Reaches;
    ReachesInv(actions, s);
    MemberIsCounted(s, h);
    MemberIsCounted(s, k);
  }

  /** The requests that hold a slot of admission p, and how often node slot n is held. */
  function HoldingPool(s: Sys, p: nat): nat {
    Tally(s.requests, PoolHeld(p))
  }

  function HoldingNode(s: Sys, n: nat): nat {
    Tally(s.requests, NodeHeld(n))
  }

  /** Main result 3. The counters are the slots in use, and they never exceed the
      largest limit of the handlers for whose requests slots are held now. Limits of
      handlers that a reload has replaced no longer matter once their requests are
      gone. */
  lemma CountersAreSlotsInUse(actions: seq<Action>, s: Sys, p: nat, n: nat, largest: nat)
    requires Reaches(actions, s) && p < |s.pools| && n < |s.nodes|
    ensures s.pools[p].active == HoldingPool(s, p) && s.nodes[n].active == HoldingNode(s, n)
    ensures (forall r :: 0 <= r < |s.requests| && s.requests[r].phase.Holding? && s.requests[r].pool == p ==>
                           LimitWithin(s, s.requests[r].handler, largest))
            ==> s.pools[p].active <= largest
    ensures (forall r :: 0 <= r < |s.requests| && n in s.requests[r].nodes ==>
                           NodeLimitWithin(s, s.requests[r].handler, n, largest))
            ==> s.nodes[n].active <= largest
  {
    hide Reaches, Indexed, TableOK, MembersOK, RefsOK, SlotsOK, InsideOK, LivesOK, RequestsOK, Tally;
    ReachesInv(actions, s);
    PoolWithinLargest(s, p, largest);
    NodeWithinLargest(s, n, largest);
  }

  predicate LimitWithin(s: Sys, h: nat, largest: nat) {
    h < |s.handlers| && Effective(s.handlers[h].limit) <= largest
  }

  predicate NodeLimitWithin(s: Sys, h: nat, n: nat, largest: nat) {
    h < |s.handlers| && NodeWithin(s.handlers[h], n, largest)
  }

  lemma PoolWithinLargest(s: Sys, p: nat, largest: nat)
    requires PoolLimitOK(s.handlers, s.requests)
    ensures (forall r :: 0 <= r < |s.requests| && s.requests[r].phase.Holding? && s.requests[r].pool == p ==>
                           LimitWithin(s, s.requests[r].handler, largest))
            ==> HoldingPool(s, p) <= largest
  {
    if forall r :: 0 <= r < |s.requests| && s.requests[r].phase.Holding? && s.requests[r].pool == p ==>
                     LimitWithin(s, s.requests[r].handler, largest)
    {
      TallyLe(s.requests, PoolHeld(p), PoolHeldWithin(s.handlers, p, largest));
    }
  }

  lemma NodeWithinLargest(s: Sys, n: nat, largest: nat)
    requires NodeLimitOK(s.handlers, s.requests)
    ensures (forall r :: 0 <= r < |s.requests| && n in s.requests[r].nodes ==>
                           NodeLimitWithin(s, s.requests[r].handler, n, largest))
            ==> HoldingNode(s, n) <= largest
  {
    if forall r :: 0 <= r < |s.requests| && n in s.requests[r].nodes ==>
                     NodeLimitWithin(s, s.requests[r].handler, n, largest)
    {
      TallyLe(s.requests, NodeHeld(n), NodeHeldWithin(s.handlers, n, largest));
    }
  }

  /** Main result 4. A published handler gives its admission back exactly once, and
      exactly when it has been retired and its last request is gone. */
  lemma ReleasedExactlyOnce(actions: seq<Action>, s: Sys, h: nat)
    requires Reaches(actions, s) && h < |s.handlers| && Published(s.handlers[h])
    ensures s.handlers[h].releases <= 1
    ensures s.handlers[h].releases == 1 <==> s.handlers[h].retired && s.handlers[h].requests == 0
    ensures s.handlers[h].requests == Tally(s.requests, Inside(h))
  {
    hide Reaches, Indexed, TableOK, MembersOK, RefsOK, SlotsOK, PoolTallyOK, PoolLimitOK, NodeTallyOK, NodeLimitOK;
    ReachesInv(actions, s);
  }

  /** Main result 5. What is dropped is idle: a retired admission has no request, no
      member and no reference, and a node slot with a request is still listed. */
  lemma DroppedAreIdle(actions: seq<Action>, s: Sys, p: nat, n: nat)
    requires Reaches(actions, s) && p < |s.pools| && n < |s.nodes|
    ensures s.pools[p].retired ==> s.pools[p].active == 0 && s.pools[p].members == 0 && s.pools[p].refs == map[]
    ensures s.nodes[n].active > 0 ==>
              var node := s.nodes[n];
              && node.pool < |s.pools| && !s.pools[node.pool].retired
              && node.url in s.pools[node.pool].slot && s.pools[node.pool].slot[node.url] == n
  {
    ReachesInv(actions, s);
    if s.pools[p].retired {
      RetiredIsIdle(s, p);
    }
    if s.nodes[n].active > 0 {
      BusyNodeIsListed(s, n);
    }
  }

  lemma RetiredIsIdle(s: Sys, p: nat)
    requires Inv(s) && p < |s.pools| && s.pools[p].retired
    ensures s.pools[p].active == 0 && s.pools[p].members == 0 && s.pools[p].refs == map[]
  {
    forall h | 0 <= h < |s.handlers| ensures !(Member(s.handlers[h]) && s.handlers[h].pool == p) {
      if Member(s.handlers[h]) {
        MemberIsCounted(s, h);
      }
    }
    forall u ensures u !in s.pools[p].refs {
      TallyZero(s.handlers, RefsTo(p, u));
      assert RefCount(s.pools[p].refs, u) == 0;
    }
    TallyZero(s.requests, PoolHeld(p));
  }

  lemma BusyNodeIsListed(s: Sys, n: nat)
    requires Inv(s) && n < |s.nodes| && s.nodes[n].active > 0
    ensures var node := s.nodes[n];
            && node.pool < |s.pools| && !s.pools[node.pool].retired
            && node.url in s.pools[node.pool].slot && s.pools[node.pool].slot[node.url] == n
  {
    hide TableOK, MembersOK, RefsOK, PoolTallyOK, PoolLimitOK, NodeLimitOK, InsideOK, LivesOK, LifeOK;
    var r := TallyPositive(s.requests, NodeHeld(n));
    var h := s.requests[r].handler;
    assert n in s.requests[r].nodes && RequestOK(s.requests[r], s.handlers[h]);
    var k :| 0 <= k < |s.handlers[h].slots| && s.handlers[h].slots[k] == n;
    assert Attached(s.handlers[h], s.pools);
    MemberIsCounted(s, h);
  }

  lemma MembersAreNotRemoved(s: Sys, h: nat)
    requires Inv(s) && h < |s.handlers| && Member(s.handlers[h])
    ensures s.handlers[h].pool < |s.pools| && !s.pools[s.handlers[h].pool].removing
  {
    MemberIsCounted(s, h);
  }

  lemma RetiredIsUnlisted(s: Sys, p: nat)
    requires Inv(s) && p < |s.pools| && s.pools[p].retired && !s.pools[p].removing
    ensures forall id :: id in s.table ==> s.table[id] != p
  {
  }

  /** Main result 6. A member never waits for a removal, and whoever starts over
      because its admission has retired does not find the same one again. */
  lemma RemovalsDoNotBlock(actions: seq<Action>, s: Sys, h: nat)
    requires Reaches(actions, s) && h < |s.handlers|
    ensures Member(s.handlers[h]) ==> s.handlers[h].pool < |s.pools| && !s.pools[s.handlers[h].pool].removing
    ensures var p := s.handlers[h].pool;
            p < |s.pools| && s.pools[p].retired && !s.pools[p].removing ==>
              forall id :: id in s.table ==> s.table[id] != p
  {
    hide Inv, Reaches;
    ReachesInv(actions, s);
    if Member(s.handlers[h]) {
      MembersAreNotRemoved(s, h);
    }
    var p := s.handlers[h].pool;
    if p < |s.pools| && s.pools[p].retired && !s.pools[p].removing {
      RetiredIsUnlisted(s, p);
    }
  }
}
