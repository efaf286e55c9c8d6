/** How the parts of the admission invariant follow single updates: one more pool,
    handler or request, or one of them replaced. */
module AdmissionSteps {
  import opened Tallies
  import opened Admission

  // ---- The table -----------------------------------------------------------

  lemma TableSame(table: map<string, nat>, pools: seq<Pool>, p: nat, x: Pool)
    requires TableOK(table, pools) && p < |pools|
    requires x.id == pools[p].id && x.retired == pools[p].retired && x.removing == pools[p].removing
    ensures TableOK(table, pools[p := x])
  {
  }

  lemma TableNewPool(table: map<string, nat>, pools: seq<Pool>, id: string)
    requires TableOK(table, pools) && id !in table
    ensures TableOK(table[id := |pools|], pools + [FreshPool(id)])
  {
  }

  lemma TableRetires(table: map<string, nat>, pools: seq<Pool>, p: nat, x: Pool)
    requires TableOK(table, pools) && p < |pools| && !pools[p].retired
    requires x.id == pools[p].id && x.retired && x.removing
    ensures TableOK(table, pools[p := x])
  {
  }

  lemma TableRemoves(table: map<string, nat>, pools: seq<Pool>, p: nat)
    requires TableOK(table, pools) && p < |pools| && pools[p].removing
    ensures pools[p].id in table && table[pools[p].id] == p
    ensures TableOK(table - {pools[p].id}, pools[p := pools[p].(removing := false)])
  {
  }

  // ---- Members -------------------------------------------------------------

  ghost predicate SameMembership(h: Handler, x: Handler) {
    && (Member(h) <==> Member(x))
    && (Member(x) ==> x.pool == h.pool)
  }

  lemma MembersNewHandler(pools: seq<Pool>, handlers: seq<Handler>, x: Handler)
    requires MembersOK(pools, handlers) && x.stage.Seeking?
    ensures MembersOK(pools, handlers + [x])
  {
    forall p | 0 <= p < |pools| ensures pools[p].members == Tally(handlers + [x], MemberOf(p)) {
      TallySnoc(handlers, x, MemberOf(p));
    }
  }

  lemma MembersHandler(pools: seq<Pool>, handlers: seq<Handler>, h: nat, x: Handler)
    requires MembersOK(pools, handlers) && h < |handlers| && SameMembership(handlers[h], x)
    requires !x.stage.Seeking? ==> x.pool < |pools| && pools[x.pool].id == x.id
    ensures MembersOK(pools, handlers[h := x])
  {
    forall p | 0 <= p < |pools| ensures pools[p].members == Tally(handlers[h := x], MemberOf(p)) {
      TallyUpdate(handlers, h, x, MemberOf(p));
    }
  }

  lemma MembersPool(pools: seq<Pool>, handlers: seq<Handler>, p: nat, x: Pool)
    requires MembersOK(pools, handlers) && p < |pools|
    requires x.id == pools[p].id && x.members == pools[p].members && x.retired == pools[p].retired
    ensures MembersOK(pools[p := x], handlers)
  {
  }

  lemma MembersNewPool(pools: seq<Pool>, handlers: seq<Handler>, id: string)
    requires MembersOK(pools, handlers)
    ensures MembersOK(pools + [FreshPool(id)], handlers)
  {
    TallyZero(handlers, MemberOf(|pools|));
  }

  lemma MembersJoin(pools: seq<Pool>, handlers: seq<Handler>, h: nat, x: Handler)
    requires MembersOK(pools, handlers) && h < |handlers|
    requires handlers[h].stage.Loaded? && Member(x) && x.pool == handlers[h].pool && x.id == handlers[h].id
    requires !pools[x.pool].retired
    ensures MembersOK(pools[x.pool := pools[x.pool].(members := pools[x.pool].members + 1)], handlers[h := x])
  {
    forall p | 0 <= p < |pools|
      ensures Tally(handlers[h := x], MemberOf(p)) == Tally(handlers, MemberOf(p)) + if p == x.pool then 1 else 0
    {
      TallyUpdate(handlers, h, x, MemberOf(p));
    }
  }

  lemma MembersLeave(pools: seq<Pool>, handlers: seq<Handler>, h: nat, x: Handler)
    requires MembersOK(pools, handlers) && h < |handlers|
    requires Member(handlers[h]) && x.stage.Released? && x.pool == handlers[h].pool && x.id == handlers[h].id
    ensures pools[x.pool].members >= 1 && !pools[x.pool].retired
    ensures MembersOK(pools[x.pool := WithoutMember(pools[x.pool], x.urls)], handlers[h := x])
  {
    forall p | 0 <= p < |pools|
      ensures Tally(handlers[h := x], MemberOf(p)) == Tally(handlers, MemberOf(p)) - if p == x.pool then 1 else 0
    {
      TallyUpdate(handlers, h, x, MemberOf(p));
    }
    TallyAtLeast(handlers, h, MemberOf(x.pool));
  }

  // ---- References ----------------------------------------------------------

  ghost predicate SameRefs(h: Handler, x: Handler) {
    || (!Member(h) && !Member(x))
    || (Member(h) && Member(x) && x.pool == h.pool && x.urls == h.urls && |x.slots| == |h.slots|)
    || (!Member(h) && x.slots == [])
  }

  lemma RefsNewHandler(pools: seq<Pool>, handlers: seq<Handler>, x: Handler)
    requires RefsOK(pools, handlers) && x.stage.Seeking?
    ensures RefsOK(pools, handlers + [x])
  {
    forall p, u | 0 <= p < |pools| ensures RefCount(pools[p].refs, u) == Tally(handlers + [x], RefsTo(p, u)) {
      TallySnoc(handlers, x, RefsTo(p, u));
    }
  }

  lemma RefsHandler(pools: seq<Pool>, handlers: seq<Handler>, h: nat, x: Handler)
    requires RefsOK(pools, handlers) && h < |handlers| && SameRefs(handlers[h], x)
    ensures RefsOK(pools, handlers[h := x])
  {
    forall p, u | 0 <= p < |pools| ensures RefCount(pools[p].refs, u) == Tally(handlers[h := x], RefsTo(p, u)) {
      TallyUpdate(handlers, h, x, RefsTo(p, u));
    }
  }

  lemma RefsPool(pools: seq<Pool>, handlers: seq<Handler>, p: nat, x: Pool)
    requires RefsOK(pools, handlers) && p < |pools| && x.refs == pools[p].refs
    ensures RefsOK(pools[p := x], handlers)
  {
  }

  lemma RefsNewPool(pools: seq<Pool>, handlers: seq<Handler>, id: string)
    requires RefsOK(pools, handlers)
    requires forall h :: 0 <= h < |handlers| && Member(handlers[h]) ==> handlers[h].pool < |pools|
    ensures RefsOK(pools + [FreshPool(id)], handlers)
  {
    forall u ensures Tally(handlers, RefsTo(|pools|, u)) == 0 {
      TallyZero(handlers, RefsTo(|pools|, u));
    }
  }

  lemma RefsAcquire(pools: seq<Pool>, handlers: seq<Handler>, h: nat, x: Handler, pool: Pool)
    requires RefsOK(pools, handlers) && h < |handlers| && handlers[h].pool < |pools|
    requires var was := handlers[h];
             && Member(was) && Member(x) && x.pool == was.pool && x.urls == was.urls
             && |x.slots| == |was.slots| + 1 <= |x.urls|
             && pool.refs == AddRef(pools[x.pool].refs, x.urls[|was.slots|])
    ensures RefsOK(pools[x.pool := pool], handlers[h := x])
  {
    var n := |handlers[h].slots|;
    assert x.urls[..n + 1] == x.urls[..n] + [x.urls[n]];
    forall p, u | 0 <= p < |pools|
      ensures RefCount(pools[x.pool := pool][p].refs, u) == Tally(handlers[h := x], RefsTo(p, u))
    {
      TallyUpdate(handlers, h, x, RefsTo(p, u));
    }
  }

  lemma RefsLeave(pools: seq<Pool>, handlers: seq<Handler>, h: nat, x: Handler, pool: Pool)
    requires RefsOK(pools, handlers) && h < |handlers| && handlers[h].pool < |pools|
    requires var was := handlers[h];
             && Member(was) && !Member(x) && x.pool == was.pool && |was.slots| == |was.urls|
             && pool.refs == DropRefs(pools[x.pool].refs, was.urls)
    ensures RefsOK(pools[x.pool := pool], handlers[h := x])
  {
    var was := handlers[h];
    assert was.urls[..|was.slots|] == was.urls;
    forall p, u | 0 <= p < |pools|
      ensures RefCount(pools[x.pool := pool][p].refs, u) == Tally(handlers[h := x], RefsTo(p, u))
    {
      TallyUpdate(handlers, h, x, RefsTo(p, u));
      TallyAtLeast(handlers, h, RefsTo(p, u));
    }
  }

  // ---- Slots ---------------------------------------------------------------

  lemma SlotsNewHandler(pools: seq<Pool>, nodes: seq<Node>, handlers: seq<Handler>, x: Handler)
    requires SlotsOK(pools, nodes, handlers) && !Member(x)
    ensures SlotsOK(pools, nodes, handlers + [x])
  {
  }

  lemma SlotsHandler(pools: seq<Pool>, nodes: seq<Node>, handlers: seq<Handler>, h: nat, x: Handler)
    requires SlotsOK(pools, nodes, handlers) && h < |handlers|
    requires !Member(x) || (x.slots == [] && x.pool < |pools|)
             || (Member(handlers[h]) && x.pool == handlers[h].pool
                 && x.urls == handlers[h].urls && x.slots == handlers[h].slots)
    ensures SlotsOK(pools, nodes, handlers[h := x])
  {
  }

  lemma SlotsPool(pools: seq<Pool>, nodes: seq<Node>, handlers: seq<Handler>, p: nat, x: Pool)
    requires SlotsOK(pools, nodes, handlers) && p < |pools| && x.slot == pools[p].slot
    ensures SlotsOK(pools[p := x], nodes, handlers)
  {
  }

  lemma SlotsNode(pools: seq<Pool>, nodes: seq<Node>, handlers: seq<Handler>, n: nat, x: Node)
    requires SlotsOK(pools, nodes, handlers) && n < |nodes| && x.pool == nodes[n].pool && x.url == nodes[n].url
    ensures SlotsOK(pools, nodes[n := x], handlers)
  {
  }

  lemma SlotsNewPool(pools: seq<Pool>, nodes: seq<Node>, handlers: seq<Handler>, id: string)
    requires SlotsOK(pools, nodes, handlers)
    ensures SlotsOK(pools + [FreshPool(id)], nodes, handlers)
  {
  }

  lemma SlotsListed(pools: seq<Pool>, nodes: seq<Node>, handlers: seq<Handler>, p: nat, url: string, n: nat, x: Pool)
    requires SlotsOK(pools, nodes, handlers) && p < |pools| && n < |nodes|
    requires nodes[n].pool == p && nodes[n].url == url && x.slot == pools[p].slot[url := n]
    requires url in pools[p].slot ==> pools[p].slot[url] == n
    ensures SlotsOK(pools[p := x], nodes, handlers)
  {
    forall h | 0 <= h < |handlers| && Member(handlers[h]) ensures Attached(handlers[h], pools[p := x]) {
      assert Attached(handlers[h], pools);
    }
  }

  lemma SlotsAcquire(pools: seq<Pool>, nodes: seq<Node>, handlers: seq<Handler>, h: nat, x: Handler)
    requires SlotsOK(pools, nodes, handlers) && h < |handlers|
    requires var was := handlers[h];
             && Member(was) && x.pool == was.pool < |pools| && x.urls == was.urls
             && |was.slots| < |x.urls| && x.urls[|was.slots|] in pools[x.pool].slot
             && x.slots == was.slots + [pools[x.pool].slot[x.urls[|was.slots|]]]
    ensures SlotsOK(pools, nodes, handlers[h := x])
  {
  }

  lemma SlotsLeave(pools: seq<Pool>, nodes: seq<Node>, handlers: seq<Handler>, p: nat, x: Pool)
    requires SlotsOK(pools, nodes, handlers) && p < |pools|
    requires RefsOK(pools[p := x], handlers)
    requires x.slot == map u | u in pools[p].slot && u in x.refs :: pools[p].slot[u]
    ensures SlotsOK(pools[p := x], nodes, handlers)
  {
    forall h | 0 <= h < |handlers| && Member(handlers[h]) && handlers[h].pool == p
      ensures Attached(handlers[h], pools[p := x])
    {
      forall k | 0 <= k < |handlers[h].slots| ensures handlers[h].urls[k] in x.refs {
        StillReferenced(pools[p := x], handlers, h, k);
      }
    }
  }

  lemma StillReferenced(pools: seq<Pool>, handlers: seq<Handler>, h: nat, k: nat)
    requires RefsOK(pools, handlers) && h < |handlers| && Member(handlers[h]) && handlers[h].pool < |pools|
    requires k < |handlers[h].slots| <= |handlers[h].urls|
    ensures handlers[h].urls[k] in pools[handlers[h].pool].refs
  {
    var p, u := handlers[h].pool, handlers[h].urls[k];
    assert handlers[h].urls[..|handlers[h].slots|][k] == u;
    TallyAtLeast(handlers, h, RefsTo(p, u));
    assert RefCount(pools[p].refs, u) == Tally(handlers, RefsTo(p, u));
  }

  // ---- Pool counters -------------------------------------------------------

  lemma PoolTallyPool(pools: seq<Pool>, requests: seq<Request>, p: nat, x: Pool)
    requires PoolTallyOK(pools, requests) && p < |pools| && x.active == pools[p].active
    ensures PoolTallyOK(pools[p := x], requests)
  {
  }

  lemma PoolTallyNewPool(pools: seq<Pool>, requests: seq<Request>, id: string)
    requires PoolTallyOK(pools, requests) && forall r :: 0 <= r < |requests| ==> requests[r].pool < |pools|
    ensures PoolTallyOK(pools + [FreshPool(id)], requests)
  {
    TallyZero(requests, PoolHeld(|pools|));
  }

  lemma PoolTallyNewRequest(pools: seq<Pool>, requests: seq<Request>, q: Request)
    requires PoolTallyOK(pools, requests) && !q.phase.Holding?
    ensures PoolTallyOK(pools, requests + [q])
  {
    forall p | 0 <= p < |pools| ensures pools[p].active == Tally(requests + [q], PoolHeld(p)) {
      TallySnoc(requests, q, PoolHeld(p));
    }
  }

  /** A request changes what it holds, and the counter follows by the difference. */
  lemma PoolTallyRequest(pools: seq<Pool>, requests: seq<Request>, r: nat, q: Request, d: int)
    requires PoolTallyOK(pools, requests) && r < |requests| && requests[r].pool == q.pool < |pools|
    requires d == (if q.phase.Holding? then 1 else 0) - (if requests[r].phase.Holding? then 1 else 0)
    ensures PoolTallyOK(pools[q.pool := pools[q.pool].(active := pools[q.pool].active + d)], requests[r := q])
  {
    forall p | 0 <= p < |pools|
      ensures Tally(requests[r := q], PoolHeld(p)) == Tally(requests, PoolHeld(p)) + if p == q.pool then d else 0
    {
      TallyUpdate(requests, r, q, PoolHeld(p));
    }
  }

  /** A handler keeps its limits, and once published its admission and slots. */
  ghost predicate Evolves(h: Handler, x: Handler) {
    && x.id == h.id && x.urls == h.urls && x.limit == h.limit && x.nodeLimits == h.nodeLimits
    && (Published(h) ==> Published(x) && x.pool == h.pool && x.slots == h.slots)
  }

  // ---- Node counters -------------------------------------------------------

  lemma NodeTallyNewNode(nodes: seq<Node>, requests: seq<Request>, p: nat, url: string)
    requires NodeTallyOK(nodes, requests)
    requires forall r, k :: 0 <= r < |requests| && 0 <= k < |requests[r].nodes| ==> requests[r].nodes[k] < |nodes|
    ensures NodeTallyOK(nodes + [Node(p, url, 0)], requests)
  {
    TallyZero(requests, NodeHeld(|nodes|));
  }

  lemma NodeTallyNewRequest(nodes: seq<Node>, requests: seq<Request>, q: Request)
    requires NodeTallyOK(nodes, requests) && q.nodes == []
    ensures NodeTallyOK(nodes, requests + [q])
  {
    forall n | 0 <= n < |nodes| ensures nodes[n].active == Tally(requests + [q], NodeHeld(n)) {
      TallySnoc(requests, q, NodeHeld(n));
    }
  }

  lemma NodeTallyRequest(nodes: seq<Node>, requests: seq<Request>, r: nat, q: Request)
    requires NodeTallyOK(nodes, requests) && r < |requests| && q.nodes == requests[r].nodes
    ensures NodeTallyOK(nodes, requests[r := q])
  {
    forall n | 0 <= n < |nodes| ensures nodes[n].active == Tally(requests[r := q], NodeHeld(n)) {
      TallyUpdate(requests, r, q, NodeHeld(n));
    }
  }

  lemma NodeTallyTake(nodes: seq<Node>, requests: seq<Request>, r: nat, q: Request, m: nat)
    requires NodeTallyOK(nodes, requests) && r < |requests| && m < |nodes| && q.nodes == requests[r].nodes + [m]
    ensures NodeTallyOK(nodes[m := nodes[m].(active := nodes[m].active + 1)], requests[r := q])
  {
    forall n | 0 <= n < |nodes|
      ensures Tally(requests[r := q], NodeHeld(n)) == Tally(requests, NodeHeld(n)) + if n == m then 1 else 0
    {
      TallyUpdate(requests, r, q, NodeHeld(n));
    }
  }

  lemma NodeTallyGive(nodes: seq<Node>, requests: seq<Request>, r: nat, q: Request, m: nat)
    requires NodeTallyOK(nodes, requests) && r < |requests| && m < |nodes| && requests[r].nodes == q.nodes + [m]
    ensures NodeTallyOK(nodes[m := nodes[m].(active := nodes[m].active - 1)], requests[r := q])
  {
    forall n | 0 <= n < |nodes|
      ensures Tally(requests[r := q], NodeHeld(n)) == Tally(requests, NodeHeld(n)) - if n == m then 1 else 0
    {
      TallyUpdate(requests, r, q, NodeHeld(n));
    }
  }

  // ---- Limits --------------------------------------------------------------

  /** The handlers of the requests have the limits and slots they had. */
  ghost predicate SameLimits(a: seq<Handler>, b: seq<Handler>, requests: seq<Request>) {
    forall r :: 0 <= r < |requests| ==>
                  && requests[r].handler < |a| && requests[r].handler < |b|
                  && b[requests[r].handler].limit == a[requests[r].handler].limit
                  && b[requests[r].handler].nodeLimits == a[requests[r].handler].nodeLimits
                  && b[requests[r].handler].slots == a[requests[r].handler].slots
  }

  lemma LimitsKept(a: seq<Handler>, b: seq<Handler>, requests: seq<Request>)
    requires PoolLimitOK(a, requests) && NodeLimitOK(a, requests) && SameLimits(a, b, requests)
    ensures PoolLimitOK(b, requests) && NodeLimitOK(b, requests)
  {
    forall p: nat, bound: nat ensures Tally(requests, PoolHeldWithin(b, p, bound)) <= bound {
      TallyLe(requests, PoolHeldWithin(b, p, bound), PoolHeldWithin(a, p, bound));
    }
    forall n: nat, bound: nat ensures Tally(requests, NodeHeldWithin(b, n, bound)) <= bound {
      TallyLe(requests, NodeHeldWithin(b, n, bound), NodeHeldWithin(a, n, bound));
    }
  }

  lemma LimitsHandler(handlers: seq<Handler>, requests: seq<Request>, h: nat, x: Handler)
    requires PoolLimitOK(handlers, requests) && NodeLimitOK(handlers, requests) && RequestsOK(handlers, requests)
    requires h < |handlers| && Evolves(handlers[h], x)
    ensures PoolLimitOK(handlers[h := x], requests) && NodeLimitOK(handlers[h := x], requests)
  {
    hide PoolLimitOK, NodeLimitOK;
    LimitsKept(handlers, handlers[h := x], requests);
  }

  lemma LimitsNewHandler(handlers: seq<Handler>, requests: seq<Request>, x: Handler)
    requires PoolLimitOK(handlers, requests) && NodeLimitOK(handlers, requests) && RequestsOK(handlers, requests)
    ensures PoolLimitOK(handlers + [x], requests) && NodeLimitOK(handlers + [x], requests)
  {
    hide PoolLimitOK, NodeLimitOK;
    LimitsKept(handlers, handlers + [x], requests);
  }

  lemma LimitsNewRequest(handlers: seq<Handler>, requests: seq<Request>, q: Request)
    requires PoolLimitOK(handlers, requests) && NodeLimitOK(handlers, requests)
    requires !q.phase.Holding? && q.nodes == []
    ensures PoolLimitOK(handlers, requests + [q]) && NodeLimitOK(handlers, requests + [q])
  {
    forall p: nat, bound: nat ensures Tally(requests + [q], PoolHeldWithin(handlers, p, bound)) <= bound {
      TallySnoc(requests, q, PoolHeldWithin(handlers, p, bound));
    }
    forall n: nat, bound: nat ensures Tally(requests + [q], NodeHeldWithin(handlers, n, bound)) <= bound {
      TallySnoc(requests, q, NodeHeldWithin(handlers, n, bound));
    }
  }

  lemma PoolLimitRequest(handlers: seq<Handler>, requests: seq<Request>, r: nat, q: Request)
    requires PoolLimitOK(handlers, requests) && r < |requests|
    requires q.handler == requests[r].handler && q.pool == requests[r].pool
    requires q.phase.Holding? ==> requests[r].phase.Holding?
    ensures PoolLimitOK(handlers, requests[r := q])
  {
    forall p: nat, bound: nat ensures Tally(requests[r := q], PoolHeldWithin(handlers, p, bound)) <= bound {
      TallyUpdate(requests, r, q, PoolHeldWithin(handlers, p, bound));
    }
  }

  /** Below the handler's limit one more slot of the pool can be held. */
  lemma PoolLimitTake(pools: seq<Pool>, handlers: seq<Handler>, requests: seq<Request>, r: nat, q: Request)
    requires PoolLimitOK(handlers, requests) && PoolTallyOK(pools, requests) && r < |requests|
    requires q.handler == requests[r].handler < |handlers| && q.pool == requests[r].pool < |pools|
    requires pools[q.pool].active < Effective(handlers[q.handler].limit)
    ensures PoolLimitOK(handlers, requests[r := q])
  {
    forall p: nat, bound: nat ensures Tally(requests[r := q], PoolHeldWithin(handlers, p, bound)) <= bound {
      TallyUpdate(requests, r, q, PoolHeldWithin(handlers, p, bound));
      TallyLe(requests, PoolHeldWithin(handlers, p, bound), PoolHeld(p));
    }
  }

  lemma NodeLimitRequest(handlers: seq<Handler>, requests: seq<Request>, r: nat, q: Request)
    requires NodeLimitOK(handlers, requests) && r < |requests| && q.handler == requests[r].handler
    requires multiset(q.nodes) <= multiset(requests[r].nodes)
    ensures NodeLimitOK(handlers, requests[r := q])
  {
    forall n: nat, bound: nat ensures Tally(requests[r := q], NodeHeldWithin(handlers, n, bound)) <= bound {
      TallyUpdate(requests, r, q, NodeHeldWithin(handlers, n, bound));
    }
  }

  lemma NodeLimitTake(nodes: seq<Node>, handlers: seq<Handler>, requests: seq<Request>, r: nat, q: Request, m: nat,
                      e: nat)
    requires NodeLimitOK(handlers, requests) && NodeTallyOK(nodes, requests) && r < |requests| && m < |nodes|
    requires q.handler == requests[r].handler < |handlers| && q.nodes == requests[r].nodes + [m]
    requires var h := handlers[q.handler];
             e < |h.slots| && e < |h.nodeLimits| && h.slots[e] == m && nodes[m].active < NodeLimit(h, e)
    ensures NodeLimitOK(handlers, requests[r := q])
  {
    forall n: nat, bound: nat ensures Tally(requests[r := q], NodeHeldWithin(handlers, n, bound)) <= bound {
      TallyUpdate(requests, r, q, NodeHeldWithin(handlers, n, bound));
      TallyLe(requests, NodeHeldWithin(handlers, n, bound), NodeHeld(n));
    }
  }

  // ---- Requests inside -----------------------------------------------------

  lemma InsideNewHandler(handlers: seq<Handler>, requests: seq<Request>, x: Handler)
    requires InsideOK(handlers, requests) && x.requests == 0
    requires forall r :: 0 <= r < |requests| ==> requests[r].handler < |handlers|
    ensures InsideOK(handlers + [x], requests)
  {
    TallyZero(requests, Inside(|handlers|));
  }

  lemma InsideHandler(handlers: seq<Handler>, requests: seq<Request>, h: nat, x: Handler)
    requires InsideOK(handlers, requests) && h < |handlers| && x.requests == handlers[h].requests
    ensures InsideOK(handlers[h := x], requests)
  {
  }

  lemma InsideArrive(handlers: seq<Handler>, requests: seq<Request>, h: nat, x: Handler, q: Request)
    requires InsideOK(handlers, requests) && h < |handlers| && x.requests == handlers[h].requests + 1
    requires q.handler == h && !q.phase.Finished?
    ensures InsideOK(handlers[h := x], requests + [q])
  {
    forall i | 0 <= i < |handlers|
      ensures Tally(requests + [q], Inside(i)) == Tally(requests, Inside(i)) + if i == h then 1 else 0
    {
      TallySnoc(requests, q, Inside(i));
    }
  }

  lemma InsideRequest(handlers: seq<Handler>, requests: seq<Request>, r: nat, q: Request)
    requires InsideOK(handlers, requests) && r < |requests|
    requires q.handler == requests[r].handler && (q.phase.Finished? <==> requests[r].phase.Finished?)
    ensures InsideOK(handlers, requests[r := q])
  {
    forall i | 0 <= i < |handlers| ensures Tally(requests[r := q], Inside(i)) == Tally(requests, Inside(i)) {
      TallyUpdate(requests, r, q, Inside(i));
    }
  }

  lemma InsideLeaves(handlers: seq<Handler>, requests: seq<Request>, h: nat, x: Handler, r: nat, q: Request)
    requires InsideOK(handlers, requests) && h < |handlers| && x.requests == handlers[h].requests - 1
    requires r < |requests| && requests[r].handler == h == q.handler
    requires !requests[r].phase.Finished? && q.phase.Finished?
    ensures InsideOK(handlers[h := x], requests[r := q])
  {
    forall i | 0 <= i < |handlers|
      ensures Tally(requests[r := q], Inside(i)) == Tally(requests, Inside(i)) - if i == h then 1 else 0
    {
      TallyUpdate(requests, r, q, Inside(i));
    }
  }

  lemma IdleHasNoLiveRequest(handlers: seq<Handler>, requests: seq<Request>, h: nat, r: nat)
    requires InsideOK(handlers, requests) && h < |handlers| && handlers[h].requests == 0
    requires r < |requests| && requests[r].handler == h
    ensures requests[r].phase.Finished?
  {
    TallyAtLeast(requests, r, Inside(h));
  }

  lemma RequestsHandler(handlers: seq<Handler>, requests: seq<Request>, h: nat, x: Handler)
    requires RequestsOK(handlers, requests) && h < |handlers| && Evolves(handlers[h], x)
    requires handlers[h].stage.Ready? ==> x.stage.Ready?
    ensures RequestsOK(handlers[h := x], requests)
  {
  }

  lemma RequestsRelease(handlers: seq<Handler>, requests: seq<Request>, h: nat, x: Handler)
    requires RequestsOK(handlers, requests) && InsideOK(handlers, requests)
    requires h < |handlers| && handlers[h].requests == 0 && Evolves(handlers[h], x)
    ensures RequestsOK(handlers[h := x], requests)
  {
    forall r | 0 <= r < |requests| && requests[r].handler == h ensures requests[r].phase.Finished? {
      IdleHasNoLiveRequest(handlers, requests, h, r);
    }
  }
}
