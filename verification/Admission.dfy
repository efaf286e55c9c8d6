/** Admission to backend pools as a state machine: handlers of any number of site
    generations join and leave the shared admission of their pool while requests
    take and give back slots (internal/webproxy/backend_pool.go, reverse.go,
    healthcheck.go). A step is one critical section or one atomic operation;
    steps of different goroutines interleave freely. */
module Admission {
  import opened Tallies

  const DEFAULT_LIMIT: nat := 4096

  /** The admission of a pool: `refs` and `slot` are the node table, the reference
      count and the counter of each node URL. `removing` says that its last member
      has left and holds the lock until the table entry is gone. */
  datatype Pool = Pool(id: string, active: int, members: int, retired: bool, removing: bool,
                       refs: map<string, int>, slot: map<string, nat>)

  /** An in-flight counter of a node, as handlers and requests point to it. */
  datatype Node = Node(pool: nat, url: string, active: int)

  /** How far a handler is: looking for its admission, about to lock the one it
      found, taking node references, serving, and finally released. */
  datatype Stage = Seeking | Loaded | Building | Ready | Released

  datatype Handler = Handler(id: string, urls: seq<string>, nodeLimits: seq<int>, limit: int,
                             stage: Stage, pool: nat, slots: seq<nat>, requests: int, retired: bool, releases: nat)

  datatype Phase = Entered | Holding | Leaving | Finished

  /** A request inside a handler; `nodes` are the node slots it holds, the first
      attempt below the retry. */
  datatype Request = Request(handler: nat, pool: nat, phase: Phase, tries: nat, unwinding: bool, nodes: seq<nat>)

  datatype Sys = Sys(table: map<string, nat>, pools: seq<Pool>, nodes: seq<Node>,
                     handlers: seq<Handler>, requests: seq<Request>)

  function Effective(limit: int): nat {
    if limit <= 0 then DEFAULT_LIMIT else limit
  }

  function NodeLimit(h: Handler, e: nat): nat
    requires e < |h.nodeLimits|
  {
    Effective(if h.nodeLimits[e] == 0 then h.limit else h.nodeLimits[e])
  }

  // ---- The node table ------------------------------------------------------

  function AddRef(refs: map<string, int>, url: string): map<string, int> {
    refs[url := (if url in refs then refs[url] else 0) + 1]
  }

  /** Every occurrence in urls gives back one reference; a node without references
      leaves the table. */
  function DropRefs(refs: map<string, int>, urls: seq<string>): map<string, int> {
    map u | u in refs && refs[u] > multiset(urls)[u] :: refs[u] - multiset(urls)[u]
  }

  // ---- Steps ---------------------------------------------------------------

  datatype Action =
    | NewHandler(id: string, urls: seq<string>, nodeLimits: seq<int>, limit: int)
    | LoadOrStore(h: nat)
    | Join(h: nat)
    | AcquireNode(h: nat)
    | Publish(h: nat)
    | Shutdown(h: nat)
    | Arrive(h: nat)
    | TakePool(r: nat)
    | TakeNode(r: nat, e: nat)
    | GiveNode(r: nat)
    | GivePool(r: nat)
    | Finish(r: nat)
    | Remove(p: nat)

  ghost predicate Indexed(s: Sys) {
    && (forall h :: 0 <= h < |s.handlers| && !s.handlers[h].stage.Seeking? ==> s.handlers[h].pool < |s.pools|)
    && (forall h :: 0 <= h < |s.handlers| ==> |s.handlers[h].nodeLimits| == |s.handlers[h].urls|)
    && (forall h :: 0 <= h < |s.handlers| ==> |s.handlers[h].slots| <= |s.handlers[h].urls|)
    && (forall h, k :: 0 <= h < |s.handlers| && 0 <= k < |s.handlers[h].slots| ==> s.handlers[h].slots[k] < |s.nodes|)
    && (forall r :: 0 <= r < |s.requests| ==> s.requests[r].handler < |s.handlers| && s.requests[r].pool < |s.pools|)
    && (forall r :: 0 <= r < |s.requests| ==> s.handlers[s.requests[r].handler].pool < |s.pools|)
    && (forall r, k :: 0 <= r < |s.requests| && 0 <= k < |s.requests[r].nodes| ==> s.requests[r].nodes[k] < |s.nodes|)
    && (forall id :: id in s.table ==> s.table[id] < |s.pools|)
    && (forall p :: 0 <= p < |s.pools| ==> s.pools[p].refs.Keys == s.pools[p].slot.Keys)
    && (forall p, u :: 0 <= p < |s.pools| && u in s.pools[p].slot ==> s.pools[p].slot[u] < |s.nodes|)
  }

  /** A published handler that is retired and idle gives its admission back. */
  predicate MustRelease(h: Handler) {
    h.stage.Ready? && h.retired && h.requests == 0
  }

  /** Whether a step can be taken: a step that needs the lock of an admission waits
      while its last member is removing it. */
  ghost predicate Enabled(s: Sys, a: Action)
    requires Indexed(s)
  {
    match a
    case NewHandler(_, urls, nodeLimits, _) => |urls| == |nodeLimits|
    case LoadOrStore(h) => h < |s.handlers| && s.handlers[h].stage.Seeking?
    case Join(h) => h < |s.handlers| && s.handlers[h].stage.Loaded? && !s.pools[s.handlers[h].pool].removing
    case AcquireNode(h) =>
      && h < |s.handlers| && s.handlers[h].stage.Building?
      && |s.handlers[h].slots| < |s.handlers[h].urls| && !s.pools[s.handlers[h].pool].removing
    case Publish(h) =>
      h < |s.handlers| && s.handlers[h].stage.Building? && |s.handlers[h].slots| == |s.handlers[h].urls|
    case Shutdown(h) =>
      && h < |s.handlers| && (s.handlers[h].stage.Ready? || s.handlers[h].stage.Released?)
      && (MustRelease(s.handlers[h].(retired := true)) ==> !s.pools[s.handlers[h].pool].removing)
    case Arrive(h) =>
      h < |s.handlers| && (s.handlers[h].stage.Ready? || s.handlers[h].stage.Released?) && !s.handlers[h].retired
    case TakePool(r) => r < |s.requests| && s.requests[r].phase.Entered?
    case TakeNode(r, e) =>
      && r < |s.requests| && s.requests[r].phase.Holding? && !s.requests[r].unwinding
      && s.requests[r].tries == |s.requests[r].nodes| < 2
      && e < |s.handlers[s.requests[r].handler].slots|
    case GiveNode(r) => r < |s.requests| && s.requests[r].phase.Holding? && s.requests[r].nodes != []
    case GivePool(r) => r < |s.requests| && s.requests[r].phase.Holding? && s.requests[r].nodes == []
    case Finish(r) =>
      && r < |s.requests| && s.requests[r].phase.Leaving?
      && (MustRelease(LeftBy(s.handlers[s.requests[r].handler])) ==> !s.pools[s.requests[r].pool].removing)
    case Remove(p) => p < |s.pools| && s.pools[p].removing
  }

  function LeftBy(h: Handler): Handler
  {
    h.(requests := h.requests - 1)
  }

  function FreshPool(id: string): Pool {
    Pool(id, 0, 0, false, false, map[], map[])
  }

  function WithHandler(s: Sys, h: nat, handler: Handler): Sys
    requires h < |s.handlers|
  {
    s.(handlers := s.handlers[h := handler])
  }

  function WithPool(s: Sys, p: nat, pool: Pool): Sys
    requires p < |s.pools|
  {
    s.(pools := s.pools[p := pool])
  }

  function WithRequest(s: Sys, r: nat, request: Request): Sys
    requires r < |s.requests|
  {
    s.(requests := s.requests[r := request])
  }

  /** The admission after the members' handler with these urls has left. */
  function WithoutMember(pool: Pool, urls: seq<string>): Pool
  {
    var refs := DropRefs(pool.refs, urls);
    var last := pool.members == 1;
    pool.(refs := refs, slot := map u | u in pool.slot && u in refs :: pool.slot[u],
          members := pool.members - 1, retired := pool.retired || last, removing := pool.removing || last)
  }

  /** `releaseRetiredAdmissionLocked`, with the release of the admission. */
  function ReleaseIfDue(s: Sys, h: nat): Sys
    requires h < |s.handlers| && s.handlers[h].pool < |s.pools|
  {
    var handler := s.handlers[h];
    if MustRelease(handler) then
      WithPool(WithHandler(s, h, handler.(stage := Released, releases := handler.releases + 1)),
               handler.pool, WithoutMember(s.pools[handler.pool], handler.urls))
    else s
  }

  function Entry(id: string, urls: seq<string>, nodeLimits: seq<int>, limit: int): Handler {
    Handler(id, urls, nodeLimits, limit, Seeking, 0, [], 0, false, 0)
  }

  /** `LoadOrStore` of the table: the admission listed under the pool's name, which
      is a new one when none is. */
  function Load(s: Sys, h: nat): Sys
    requires h < |s.handlers|
  {
    var handler := s.handlers[h];
    if handler.id in s.table then
      WithHandler(s, h, handler.(stage := Loaded, pool := s.table[handler.id]))
    else
      WithHandler(s, h, handler.(stage := Loaded, pool := |s.pools|))
      .(table := s.table[handler.id := |s.pools|], pools := s.pools + [FreshPool(handler.id)])
  }

  /** Becoming a member, or starting over when the admission has retired meanwhile. */
  function Joined(s: Sys, h: nat): Sys
    requires h < |s.handlers| && s.handlers[h].pool < |s.pools|
  {
    var handler := s.handlers[h];
    var pool := s.pools[handler.pool];
    if pool.retired then WithHandler(s, h, handler.(stage := Seeking))
    else WithPool(WithHandler(s, h, handler.(stage := Building)), handler.pool, pool.(members := pool.members + 1))
  }

  function Acquired(s: Sys, h: nat): Sys
    requires h < |s.handlers| && s.handlers[h].pool < |s.pools| && |s.handlers[h].slots| < |s.handlers[h].urls|
  {
    var handler := s.handlers[h];
    var p := handler.pool;
    var pool, url := s.pools[p], handler.urls[|handler.slots|];
    if url in pool.slot then
      WithPool(WithHandler(s, h, handler.(slots := handler.slots + [pool.slot[url]])), p,
               pool.(refs := AddRef(pool.refs, url)))
    else
      var n := |s.nodes|;
      WithPool(WithHandler(s, h, handler.(slots := handler.slots + [n])), p,
               pool.(refs := AddRef(pool.refs, url), slot := pool.slot[url := n]))
      .(nodes := s.nodes + [Node(p, url, 0)])
  }

  function Arrived(s: Sys, h: nat): Sys
    requires h < |s.handlers|
  {
    var handler := s.handlers[h];
    WithHandler(s, h, handler.(requests := handler.requests + 1))
    .(requests := s.requests + [Request(h, handler.pool, Entered, 0, false, [])])
  }

  function AddActive(s: Sys, p: nat, d: int): Sys
    requires p < |s.pools|
  {
    WithPool(s, p, s.pools[p].(active := s.pools[p].active + d))
  }

  function AddNodeActive(s: Sys, n: nat, d: int): Sys
    requires n < |s.nodes|
  {
    s.(nodes := s.nodes[n := s.nodes[n].(active := s.nodes[n].active + d)])
  }

  /** `takeSlot` on the pool's counter. */
  function TookPool(s: Sys, r: nat): Sys
    requires r < |s.requests| && s.requests[r].handler < |s.handlers| && s.requests[r].pool < |s.pools|
  {
    var q := s.requests[r];
    if s.pools[q.pool].active >= Effective(s.handlers[q.handler].limit) then WithRequest(s, r, q.(phase := Leaving))
    else AddActive(WithRequest(s, r, q.(phase := Holding)), q.pool, 1)
  }

  /** `takeSlot` on the counter of the node picked for a first or second attempt. */
  function TookNode(s: Sys, r: nat, e: nat): Sys
    requires r < |s.requests| && s.requests[r].handler < |s.handlers|
    requires var h := s.handlers[s.requests[r].handler];
             e < |h.slots| && e < |h.nodeLimits| && h.slots[e] < |s.nodes|
  {
    var q := s.requests[r];
    var n := s.handlers[q.handler].slots[e];
    if s.nodes[n].active >= NodeLimit(s.handlers[q.handler], e) then
      WithRequest(s, r, q.(tries := q.tries + 1, unwinding := true))
    else AddNodeActive(WithRequest(s, r, q.(tries := q.tries + 1, nodes := q.nodes + [n])), n, 1)
  }

  function GaveNode(s: Sys, r: nat): Sys
    requires r < |s.requests| && s.requests[r].nodes != []
    requires s.requests[r].nodes[|s.requests[r].nodes| - 1] < |s.nodes|
  {
    var q := s.requests[r];
    var last := |q.nodes| - 1;
    AddNodeActive(WithRequest(s, r, q.(unwinding := true, nodes := q.nodes[..last])), q.nodes[last], -1)
  }

  function GavePool(s: Sys, r: nat): Sys
    requires r < |s.requests| && s.requests[r].pool < |s.pools|
  {
    AddActive(WithRequest(s, r, s.requests[r].(phase := Leaving)), s.requests[r].pool, -1)
  }

  /** The deferred end of `ServeHTTP`. */
  function Left(s: Sys, r: nat): Sys
    requires r < |s.requests| && s.requests[r].handler < |s.handlers|
    requires s.handlers[s.requests[r].handler].pool < |s.pools|
  {
    var h := s.requests[r].handler;
    ReleaseIfDue(WithHandler(WithRequest(s, r, s.requests[r].(phase := Finished)), h, LeftBy(s.handlers[h])), h)
  }

  /** `CompareAndDelete`, and the lock is free again. */
  function Removed(s: Sys, p: nat): Sys
    requires p < |s.pools|
  {
    var id := s.pools[p].id;
    WithPool(s, p, s.pools[p].(removing := false))
    .(table := if id in s.table && s.table[id] == p then s.table - {id} else s.table)
  }

  ghost function Next(s: Sys, a: Action): Sys
    requires Indexed(s) && Enabled(s, a)
  {
    match a
    case NewHandler(id, urls, nodeLimits, limit) => s.(handlers := s.handlers + [Entry(id, urls, nodeLimits, limit)])
    case LoadOrStore(h) => Load(s, h)
    case Join(h) => Joined(s, h)
    case AcquireNode(h) => Acquired(s, h)
    case Publish(h) => WithHandler(s, h, s.handlers[h].(stage := Ready))
    case Shutdown(h) => ReleaseIfDue(WithHandler(s, h, s.handlers[h].(retired := true)), h)
    case Arrive(h) => Arrived(s, h)
    case TakePool(r) => TookPool(s, r)
    case TakeNode(r, e) => TookNode(s, r, e)
    case GiveNode(r) => GaveNode(s, r)
    case GivePool(r) => GavePool(s, r)
    case Finish(r) => Left(s, r)
    case Remove(p) => Removed(s, p)
  }

  // ---- What every step keeps -----------------------------------------------

  predicate Member(h: Handler) {
    h.stage.Building? || h.stage.Ready?
  }

  /** Measures counted over handlers and requests. */
  function MemberOf(p: nat): Handler -> nat {
    (h: Handler) => if Member(h) && h.pool == p then 1 else 0
  }

  function RefsTo(p: nat, url: string): Handler -> nat {
    (h: Handler) => if Member(h) && h.pool == p && |h.slots| <= |h.urls| then multiset(h.urls[..|h.slots|])[url] else 0
  }

  function PoolHeld(p: nat): Request -> nat {
    (r: Request) => if r.phase.Holding? && r.pool == p then 1 else 0
  }

  function NodeHeld(n: nat): Request -> nat {
    (r: Request) => multiset(r.nodes)[n]
  }

  function Inside(h: nat): Request -> nat {
    (r: Request) => if !r.phase.Finished? && r.handler == h then 1 else 0
  }

  /** The table lists exactly the admissions that have not retired, and one whose
      last member is just removing it. */
  ghost predicate TableOK(table: map<string, nat>, pools: seq<Pool>) {
    && (forall id :: id in table ==> table[id] < |pools| && pools[table[id]].id == id)
    && (forall p :: 0 <= p < |pools| ==> (pools[p].removing ==> pools[p].retired))
    && (forall p :: 0 <= p < |pools| ==>
                      ((pools[p].id in table && table[pools[p].id] == p) <==> (!pools[p].retired || pools[p].removing)))
  }

  ghost predicate MembersOK(pools: seq<Pool>, handlers: seq<Handler>) {
    && (forall p :: 0 <= p < |pools| ==> pools[p].members == Tally(handlers, MemberOf(p)))
    && (forall p :: 0 <= p < |pools| && pools[p].retired ==> pools[p].members == 0)
    && (forall h :: 0 <= h < |handlers| && !handlers[h].stage.Seeking? ==>
                      handlers[h].pool < |pools| && pools[handlers[h].pool].id == handlers[h].id)
  }

  function RefCount(refs: map<string, int>, url: string): int {
    if url in refs then refs[url] else 0
  }

  ghost predicate RefsOK(pools: seq<Pool>, handlers: seq<Handler>) {
    && (forall p, u :: 0 <= p < |pools| && u in pools[p].refs ==> pools[p].refs[u] >= 1)
    && (forall p, u :: 0 <= p < |pools| ==> RefCount(pools[p].refs, u) == Tally(handlers, RefsTo(p, u)))
  }

  /** A member's slots are the ones its node URLs stand for in the node table. */
  ghost predicate SlotsOK(pools: seq<Pool>, nodes: seq<Node>, handlers: seq<Handler>) {
    && (forall p, u :: 0 <= p < |pools| && u in pools[p].slot ==>
                         && pools[p].slot[u] < |nodes|
                         && nodes[pools[p].slot[u]].pool == p && nodes[pools[p].slot[u]].url == u)
    && (forall h :: 0 <= h < |handlers| && Member(handlers[h]) ==> Attached(handlers[h], pools))
  }

  ghost predicate Attached(h: Handler, pools: seq<Pool>) {
    && h.pool < |pools| && |h.slots| <= |h.urls|
    && (forall k :: 0 <= k < |h.slots| ==>
                      h.urls[k] in pools[h.pool].slot && pools[h.pool].slot[h.urls[k]] == h.slots[k])
  }

  /** The pool counter is the number of requests holding a pool slot. */
  ghost predicate PoolTallyOK(pools: seq<Pool>, requests: seq<Request>) {
    forall p :: 0 <= p < |pools| ==> pools[p].active == Tally(requests, PoolHeld(p))
  }

  /** A slot of pool p held for a handler whose limit is at most `bound`. */
  function PoolHeldWithin(handlers: seq<Handler>, p: nat, bound: nat): Request -> nat {
    (r: Request) =>
      if r.phase.Holding? && r.pool == p && r.handler < |handlers| && Effective(handlers[r.handler].limit) <= bound
      then 1 else 0
  }

  /** The requests of handlers whose limit is at most some bound hold no more slots of
      a pool than that bound. */
  ghost predicate PoolLimitOK(handlers: seq<Handler>, requests: seq<Request>) {
    forall p: nat, bound: nat :: Tally(requests, PoolHeldWithin(handlers, p, bound)) <= bound
  }

  predicate Published(h: Handler) {
    h.stage.Ready? || h.stage.Released?
  }

  ghost predicate NodeTallyOK(nodes: seq<Node>, requests: seq<Request>) {
    forall n :: 0 <= n < |nodes| ==> nodes[n].active == Tally(requests, NodeHeld(n))
  }

  /** All limits the handler has for node slot n are at most `bound`. */
  predicate NodeWithin(h: Handler, n: nat, bound: nat) {
    forall e :: 0 <= e < |h.slots| && e < |h.nodeLimits| && h.slots[e] == n ==> NodeLimit(h, e) <= bound
  }

  function NodeHeldWithin(handlers: seq<Handler>, n: nat, bound: nat): Request -> nat {
    (r: Request) =>
      if r.handler < |handlers| && NodeWithin(handlers[r.handler], n, bound) then multiset(r.nodes)[n] else 0
  }

  /** The same for the slots of a node. */
  ghost predicate NodeLimitOK(handlers: seq<Handler>, requests: seq<Request>) {
    forall n: nat, bound: nat :: Tally(requests, NodeHeldWithin(handlers, n, bound)) <= bound
  }

  ghost predicate InsideOK(handlers: seq<Handler>, requests: seq<Request>) {
    forall h :: 0 <= h < |handlers| ==> handlers[h].requests == Tally(requests, Inside(h))
  }

  /** A handler gives its admission back once, exactly when it is retired and no
      request is inside. */
  predicate LifeOK(h: Handler) {
    && h.releases == (if h.stage.Released? then 1 else 0)
    && (h.stage.Released? ==> h.retired && h.requests == 0)
    && (h.stage.Ready? ==> !(h.retired && h.requests == 0))
    && (!Published(h) ==> h.requests == 0 && !h.retired)
    && (Published(h) ==> |h.slots| == |h.urls|)
    && (h.stage.Seeking? || h.stage.Loaded? ==> h.slots == [])
  }

  /** The same, or the release is due: the state in the middle of a critical section. */
  predicate LifeOKOrDue(h: Handler) {
    LifeOK(h) || (MustRelease(h) && h.releases == 0 && |h.slots| == |h.urls|)
  }

  ghost predicate LivesOK(handlers: seq<Handler>, due: int) {
    forall h :: 0 <= h < |handlers| ==> if h == due then LifeOKOrDue(handlers[h]) else LifeOK(handlers[h])
  }

  predicate RequestOK(q: Request, h: Handler) {
    && q.pool == h.pool && Published(h)
    && (!q.phase.Holding? ==> q.nodes == [])
    && (!q.phase.Finished? ==> h.stage.Ready?)
    && (forall k :: 0 <= k < |q.nodes| ==> q.nodes[k] in h.slots)
  }

  ghost predicate RequestsOK(handlers: seq<Handler>, requests: seq<Request>) {
    forall r :: 0 <= r < |requests| ==>
                  requests[r].handler < |handlers| && RequestOK(requests[r], handlers[requests[r].handler])
  }

  ghost predicate InvBut(s: Sys, due: int) {
    && Indexed(s)
    && TableOK(s.table, s.pools)
    && MembersOK(s.pools, s.handlers)
    && RefsOK(s.pools, s.handlers)
    && SlotsOK(s.pools, s.nodes, s.handlers)
    && PoolTallyOK(s.pools, s.requests)
    && PoolLimitOK(s.handlers, s.requests)
    && NodeTallyOK(s.nodes, s.requests)
    && NodeLimitOK(s.handlers, s.requests)
    && InsideOK(s.handlers, s.requests)
    && LivesOK(s.handlers, due)
    && RequestsOK(s.handlers, s.requests)
  }

  ghost predicate Inv(s: Sys) {
    InvBut(s, -1)
  }
}
