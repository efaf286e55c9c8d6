/** The synchroniser's write-ahead protocol (internal/tunnel/routes.go): journal
    the attempted entries, PUT the merged table, record what was applied, then
    forget the retired routes. It can stop at any point and is simply run again. */
module IngressSync {
  import opened Wrappers
  import opened JsonDocs
  import opened Ingress
  import opened IngressLaws

  // ---- The local records ---------------------------------------------------

  function Pend(socket: SocketPath, r: Route): Route {
    r.(pendingHostname := r.hostname, pendingService := RouteService(socket, r))
  }

  function Apply(socket: SocketPath, r: Route): Route {
    r.(appliedHostname := r.hostname, appliedService := RouteService(socket, r),
       appliedSkipTLSVerify := r.skipTLSVerify, pendingHostname := "", pendingService := "")
  }

  function Journal(socket: SocketPath, inst: Instance): Instance {
    inst.(routes := seq(|inst.routes|, i requires 0 <= i < |inst.routes| => Pend(socket, inst.routes[i])))
  }

  function Commit(socket: SocketPath, inst: Instance): Instance {
    inst.(routes := seq(|inst.routes|, i requires 0 <= i < |inst.routes| => Apply(socket, inst.routes[i])))
  }

  function Retire(inst: Instance): Instance {
    inst.(retired := [])
  }

  // ---- One run, stopped somewhere ------------------------------------------

  /** Where a run stops: by a crash, a failed save or a lost response. */
  datatype Stop =
    | BeforeJournal        // nothing was saved
    | PutLost              // the journal was saved, the cloud kept its table
    | PutAcceptedUnnoticed // the cloud has the new table, the local records say pending
    | BeforeCleanup        // applied locally, retired routes still on record
    | Completed

  datatype Durable = Durable(inst: Instance, config: Object)

  function SyncOnce(socket: SocketPath, d: Durable, stop: Stop): Durable {
    AfterMerge(socket, d, Merge(socket, d.inst, d.config), stop)
  }

  function AfterMerge(socket: SocketPath, d: Durable, merged: Result<Object, MergeError>, stop: Stop): Durable {
    match merged
    case Err(_) => d
    case Ok(next) =>
      match stop
      case BeforeJournal => d
      case PutLost => Durable(Journal(socket, d.inst), d.config)
      case PutAcceptedUnnoticed => Durable(Journal(socket, d.inst), next)
      case BeforeCleanup => Durable(Commit(socket, d.inst), next)
      case Completed => Durable(Retire(Commit(socket, d.inst)), next)
  }

  /** Runs repeated one after another with no edit in between. */
  function Runs(socket: SocketPath, d: Durable, stops: seq<Stop>): Durable {
    if stops == [] then d else SyncOnce(socket, Runs(socket, d, stops[..|stops| - 1]), stops[|stops| - 1])
  }

  /** The journal loop: every route records what is about to be attempted. */
  method RecordAttempt(socket: SocketPath, inst: Instance) returns (now: Instance)
    ensures now == Journal(socket, inst)
  {
    now := inst;
    for i := 0 to |now.routes|
      invariant |now.routes| == |inst.routes| && now.retired == inst.retired
      invariant forall j :: 0 <= j < i ==> now.routes[j] == Pend(socket, inst.routes[j])
      invariant forall j :: i <= j < |now.routes| ==> now.routes[j] == inst.routes[j]
    {
      var r := now.routes[i];
      r := r.(pendingHostname := r.hostname);
      r := r.(pendingService := RouteService(socket, r));
      now := now.(routes := now.routes[i := r]);
    }
    assert now.routes == Journal(socket, inst).routes;
  }

  /** The apply loop: every route records what the cloud now has. */
  method RecordApplied(socket: SocketPath, inst: Instance) returns (now: Instance)
    ensures now == Commit(socket, inst)
  {
    now := inst;
    for i := 0 to |now.routes|
      invariant |now.routes| == |inst.routes| && now.retired == inst.retired
      invariant forall j :: 0 <= j < i ==> now.routes[j] == Apply(socket, inst.routes[j])
      invariant forall j :: i <= j < |now.routes| ==> now.routes[j] == inst.routes[j]
    {
      var r := now.routes[i];
      r := r.(appliedHostname := r.hostname);
      r := r.(appliedService := RouteService(socket, r));
      r := r.(appliedSkipTLSVerify := r.skipTLSVerify);
      r := r.(pendingHostname := "", pendingService := "");
      now := now.(routes := now.routes[i := r]);
    }
    assert now.routes == Commit(socket, inst).routes;
  }

  lemma CommitAfterJournal(socket: SocketPath, inst: Instance)
    ensures Commit(socket, Journal(socket, inst)) == Commit(socket, inst)
  {
  }

  class Synchronizer {
    var saved: Instance
    var cloud: Object

    constructor (inst: Instance, config: Object)
      ensures saved == inst && cloud == config
    {
      saved, cloud := inst, config;
    }

    /** One run that stops where the caller says. */
    method SyncCloud(socket: SocketPath, stop: Stop) returns (error: Option<MergeError>)
      modifies this
      ensures Durable(saved, cloud) == SyncOnce(socket, old(Durable(saved, cloud)), stop)
      ensures error == match Merge(socket, old(saved), old(cloud)) { case Err(e) => Some(e) case Ok(_) => None }
    {
      error := None;
      var inst := saved;
      var merged := MergeIngress(socket, inst, cloud);
      if merged.Err? {
        return Some(merged.error);
      }
      if stop.BeforeJournal? {
        return;
      }
      inst := RecordAttempt(socket, inst);
      saved := inst;
      if stop.PutLost? {
        return;
      }
      cloud := merged.value;
      if stop.PutAcceptedUnnoticed? {
        return;
      }
      inst := RecordApplied(socket, inst);
      CommitAfterJournal(socket, old(saved));
      saved := inst;
      if stop.BeforeCleanup? {
        return;
      }
      inst := inst.(retired := []);
      saved := inst;
    }
  }

  /** What a run leaves, record by record: with the journal saved every route has what
      is about to be published as pending; once the table is in the cloud and recorded,
      that is applied and nothing pending; and only a run that completes forgets the
      retired routes. A refused merge leaves everything as it was. */
  lemma EachStopLeaves(socket: SocketPath, d: Durable, stop: Stop)
    ensures var now, merged := SyncOnce(socket, d, stop), Merge(socket, d.inst, d.config);
            if merged.Err? || stop == BeforeJournal then now == d
            else
              && now.config == (if stop == PutLost then d.config else merged.value)
              && now.inst.retired == (if stop == Completed then [] else d.inst.retired)
              && |now.inst.routes| == |d.inst.routes|
              && forall i :: 0 <= i < |d.inst.routes| ==>
                               var was := d.inst.routes[i];
                               var service := if was.target == "site" then "unix:" + socket(was.siteId) else was.url;
                               now.inst.routes[i]
                               == if stop == PutLost || stop == PutAcceptedUnnoticed then
                                    was.(pendingHostname := was.hostname, pendingService := service)
                                  else
                                    was.(appliedHostname := was.hostname, appliedService := service,
                                         appliedSkipTLSVerify := was.skipTLSVerify,
                                         pendingHostname := "", pendingService := "")
  {
    hide Merge;
  }

  // ---- Hypotheses of crash safety ------------------------------------------

  /** The hostnames a record speaks for: what it claims, and for a current route
      also what it desires. */
  predicate Names(route: Route, current: bool, host: string) {
    ClaimsHost(route, host) || (current && route.hostname == host)
  }

  function Records(inst: Instance): seq<Route> {
    inst.retired + inst.routes
  }

  /** No hostname is claimed or desired by two different route IDs. */
  predicate Unshared(inst: Instance) {
    var all := Records(inst);
    forall i, j :: 0 <= i < |all| && 0 <= j < |all| && all[i].id != all[j].id ==>
                     !SharesHost(all[i], i >= |inst.retired|, all[j], j >= |inst.retired|)
  }

  predicate SharesHost(a: Route, aCurrent: bool, b: Route, bCurrent: bool) {
    || (a.appliedHostname != "" && Names(b, bCurrent, a.appliedHostname))
    || (a.pendingHostname != "" && Names(b, bCurrent, a.pendingHostname))
    || (aCurrent && Names(b, bCurrent, a.hostname))
  }

  /** The records after a completed sync and one round of edits: nothing is
      pending, and a retired version of a route still on record claims exactly
      what that route claims. */
  predicate EditedOnce(inst: Instance) {
    && (forall r :: r in Records(inst) ==> r.pendingHostname == "" && r.pendingService == "")
    && (forall q, r :: q in inst.retired && r in inst.routes && q.id == r.id ==>
                         q.appliedHostname == r.appliedHostname && q.appliedService == r.appliedService)
  }

  /** The service of a row is still one the records know once the journal is saved.
      An owned row without a service passes while nothing is pending; with the
      journal it passes only when its owner has no applied service either, is not a
      current route, or is about to publish no service. */
  predicate StaysKnown(socket: SocketPath, plan: Plan, row: Json) {
    Managed(row, plan.owned.Keys) && Service(row) == "" ==>
      var owner := plan.owned[Host(row)];
      owner.appliedService == "" || owner.id !in plan.byID || RouteService(socket, plan.byID[owner.id]) == ""
  }

  predicate RowsStayKnown(socket: SocketPath, plan: Plan, rows: Rows) {
    forall row :: row in rows ==> StaysKnown(socket, plan, row)
  }

  // ---- The same rows with the journal saved --------------------------------

  /** How the lookups differ once the journal is saved: every owned hostname keeps
      its route and its applied claim, and only desired hostnames are added. */
  ghost predicate JournalAlike(socket: SocketPath, a: Plan, b: Plan) {
    && b.desired == a.desired
    && |b.routes| == |a.routes| && (forall i :: 0 <= i < |a.routes| ==> b.routes[i] == Pend(socket, a.routes[i]))
    && (forall id :: id in a.byID <==> id in b.byID)
    && (forall id :: id in a.byID ==> b.byID[id] == Pend(socket, a.byID[id]))
    && (forall host :: host in a.owned ==> SameOwner(socket, a, b, host))
    && b.owned.Keys <= a.owned.Keys + a.desired
  }

  predicate SameOwner(socket: SocketPath, a: Plan, b: Plan, host: string)
    requires host in a.owned
  {
    && host in b.owned && b.owned[host].id == a.owned[host].id
    && b.owned[host].appliedService == a.owned[host].appliedService
    && a.owned[host].pendingService == ""
    && b.owned[host].pendingService
       == (if a.owned[host].id in a.byID then RouteService(socket, a.byID[a.owned[host].id]) else "")
  }

  lemma {:induction false} NewRowsAlike(socket: SocketPath, a: seq<Route>, b: seq<Route>, seen: set<string>)
    requires |a| == |b| && forall i :: 0 <= i < |a| ==> b[i] == Pend(socket, a[i])
    ensures NewRows(socket, a, seen) == NewRows(socket, b, seen)
  {
    if a != [] {
      NewRowsAlike(socket, a[1..], b[1..], seen);
      NewRowsAlike(socket, a[1..], b[1..], seen + {a[0].hostname});
      UpdatedEntryAlike(socket, map[], a[0]);
    }
  }

  lemma UpdatedEntryAlike(socket: SocketPath, original: Object, route: Route)
    ensures UpdatedEntry(socket, original, Pend(socket, route)) == UpdatedEntry(socket, original, route)
  {
  }

  lemma OwnedRowAlike(socket: SocketPath, a: Plan, b: Plan, p: Progress, row: Json)
    requires JournalAlike(socket, a, b) && Managed(row, a.owned.Keys)
    requires MergeOne(socket, a, p, row).Ok?
    ensures StaysKnown(socket, a, row) ==> MergeOne(socket, b, p, row) == MergeOne(socket, a, p, row)
    ensures !StaysKnown(socket, a, row) ==> MergeOne(socket, b, p, row) == Err(ServiceChanged)
  {
    hide UpdatedEntry, NewRows, Pend;
    assert SameOwner(socket, a, b, Host(row));
    var id := a.owned[Host(row)].id;
    if id in a.byID {
      UpdatedEntryAlike(socket, Members(row), a.byID[id]);
      PendKeepsHostname(socket, a.byID[id]);
    }
  }

  lemma PendKeepsHostname(socket: SocketPath, route: Route)
    ensures Pend(socket, route).hostname == route.hostname
  {
  }

  lemma OtherRowAlike(socket: SocketPath, a: Plan, b: Plan, p: Progress, row: Json)
    requires JournalAlike(socket, a, b) && !Managed(row, a.owned.Keys)
    requires MergeOne(socket, a, p, row).Ok?
    ensures MergeOne(socket, b, p, row) == MergeOne(socket, a, p, row)
  {
    hide UpdatedEntry, NewRows, Pend, SameOwner;
    NewRowsAlike(socket, a.routes, b.routes, p.seen);
  }

  lemma JournalRowAlike(socket: SocketPath, a: Plan, b: Plan, p: Progress, row: Json)
    requires JournalAlike(socket, a, b)
    requires MergeOne(socket, a, p, row).Ok?
    ensures StaysKnown(socket, a, row) ==> MergeOne(socket, b, p, row) == MergeOne(socket, a, p, row)
    ensures !StaysKnown(socket, a, row) ==> MergeOne(socket, b, p, row) == Err(ServiceChanged)
  {
    hide JournalAlike, MergeOne;
    if Managed(row, a.owned.Keys) {
      OwnedRowAlike(socket, a, b, p, row);
    } else {
      OtherRowAlike(socket, a, b, p, row);
    }
  }

  lemma {:induction false} JournalMergesAlike(socket: SocketPath, a: Plan, b: Plan, rows: Rows)
    requires JournalAlike(socket, a, b)
    requires MergeRows(socket, a, rows).Ok?
    ensures RowsStayKnown(socket, a, rows) ==> MergeRows(socket, b, rows) == MergeRows(socket, a, rows)
    ensures !RowsStayKnown(socket, a, rows) ==> MergeRows(socket, b, rows) == Err(ServiceChanged)
    ensures Finish(socket, b, MergeRows(socket, a, rows).value) == Finish(socket, a, MergeRows(socket, a, rows).value)
  {
    hide JournalAlike, MergeOne, StaysKnown, Finish, NewRows;
    if rows != [] {
      var n := |rows| - 1;
      assert forall row :: row in rows <==> row in rows[..n] || row == rows[n];
      JournalMergesAlike(socket, a, b, rows[..n]);
      JournalRowAlike(socket, a, b, MergeRows(socket, a, rows[..n]).value, rows[n]);
    }
    FinishAlike(socket, a, b, MergeRows(socket, a, rows).value);
  }

  lemma FinishAlike(socket: SocketPath, a: Plan, b: Plan, p: Progress)
    requires JournalAlike(socket, a, b)
    ensures Finish(socket, b, p) == Finish(socket, a, p)
  {
    NewRowsAlike(socket, a.routes, b.routes, p.seen);
  }

  lemma {:induction false} ByIDAlike(socket: SocketPath, a: seq<Route>, b: seq<Route>, id: string)
    requires |a| == |b| && forall i :: 0 <= i < |a| ==> b[i] == Pend(socket, a[i])
    ensures id in ByID(a) <==> id in ByID(b)
    ensures id in ByID(a) ==> ByID(b)[id] == Pend(socket, ByID(a)[id])
  {
    if a != [] {
      ByIDAlike(socket, a[..|a| - 1], b[..|a| - 1], id);
    }
  }

  lemma SameHostnames(a: seq<Route>, b: seq<Route>)
    requires |a| == |b| && forall i :: 0 <= i < |a| ==> a[i].hostname == b[i].hostname
    ensures Hostnames(a) == Hostnames(b)
  {
    forall host | host in Hostnames(a) ensures host in Hostnames(b) {
      var i :| 0 <= i < |a| && a[i].hostname == host;
      assert b[i] in b;
    }
    forall host | host in Hostnames(b) ensures host in Hostnames(a) {
      var i :| 0 <= i < |b| && b[i].hostname == host;
      assert a[i] in a;
    }
  }

  lemma SharedHostSharedID(inst: Instance, i: nat, j: nat, host: string)
    requires Unshared(inst) && i < |Records(inst)| && j < |Records(inst)|
    requires ClaimsHost(Records(inst)[i], host)
    requires Names(Records(inst)[j], j >= |inst.retired|, host)
    ensures Records(inst)[i].id == Records(inst)[j].id
  {
    if Records(inst)[i].id != Records(inst)[j].id {
      assert SharesHost(Records(inst)[i], i >= |inst.retired|, Records(inst)[j], j >= |inst.retired|);
    }
  }

  lemma JournalRecords(socket: SocketPath, inst: Instance)
    ensures |Records(Journal(socket, inst))| == |Records(inst)|
    ensures forall j :: 0 <= j < |Records(inst)| ==>
                          Records(Journal(socket, inst))[j]
                          == if j < |inst.retired| then Records(inst)[j] else Pend(socket, Records(inst)[j])
  {
  }

  lemma RetiredYields(inst: Instance, i: nat, j: nat, host: string)
    requires EditedOnce(inst) && i < |inst.retired| <= j < |Records(inst)|
    requires ClaimsHost(Records(inst)[i], host) && Records(inst)[i].id == Records(inst)[j].id
    ensures ClaimsHost(Records(inst)[j], host)
  {
    assert Records(inst)[i] in inst.retired && Records(inst)[j] in inst.routes;
    assert Records(inst)[i] in Records(inst);
  }

  /** The owner of a hostname before and after the journal is saved, by position
      in the records. */
  lemma JournalOwnerStays(socket: SocketPath, inst: Instance, host: string) returns (i: nat)
    requires ValidRoutes(inst.routes) && EditedOnce(inst) && Unshared(inst)
    requires host in Owned(inst)
    ensures i < |Records(inst)| && Owned(inst)[host] == Records(inst)[i] && ClaimsHost(Records(inst)[i], host)
    ensures forall j :: i < j < |Records(inst)| ==> !ClaimsHost(Records(inst)[j], host)
    ensures host in Owned(Journal(socket, inst))
    ensures Owned(Journal(socket, inst))[host] == Records(Journal(socket, inst))[i]
  {
    var all, now, k := Records(inst), Records(Journal(socket, inst)), |inst.retired|;
    JournalRecords(socket, inst);
    i := BindIsLastClaimant(all, host);
    var i' := BindIsLastClaimant(now, host);
    assert all[i] in all && ClaimsHost(now[i], host) && i <= i';
    if k <= i' {
      SharedHostSharedID(inst, i, i', host);
      if i < k {
        RetiredYields(inst, i, i', host);
        assert false;
      }
    }
    assert i == i';
  }

  lemma JournalClaimsKnownHosts(socket: SocketPath, inst: Instance)
    requires EditedOnce(inst)
    ensures Owned(Journal(socket, inst)).Keys <= Owned(inst).Keys + Hostnames(inst.routes)
  {
    hide Bind, EditedOnce;
    var all, k, before := Records(Journal(socket, inst)), |inst.retired|, Records(inst);
    JournalRecords(socket, inst);
    assert forall j :: 0 <= j < |before| ==> before[j] in before;
    forall host | host in Owned(Journal(socket, inst)) ensures host in Owned(inst).Keys + Hostnames(inst.routes) {
      var last := BindIsLastClaimant(all, host);
      if before[last].appliedHostname == host || last < k {
        var _ := BindIsLastClaimant(before, host);
        assert ClaimsHost(before[last], host);
      } else {
        assert inst.routes[last - k] in inst.routes && inst.routes[last - k].hostname == host;
      }
    }
  }

  lemma JournalPlansAlike(socket: SocketPath, inst: Instance)
    requires ValidRoutes(inst.routes) && EditedOnce(inst) && Unshared(inst)
    ensures JournalAlike(socket, PlanOf(inst), PlanOf(Journal(socket, inst)))
  {
    hide Owned, ByID, Hostnames, EditedOnce, Unshared, ValidRoutes, SameOwner;
    var a, b := PlanOf(inst), PlanOf(Journal(socket, inst));
    SameHostnames(a.routes, b.routes);
    JournalClaimsKnownHosts(socket, inst);
    forall id ensures (id in a.byID <==> id in b.byID) && (id in a.byID ==> b.byID[id] == Pend(socket, a.byID[id])) {
      ByIDAlike(socket, a.routes, b.routes, id);
    }
    forall host | host in a.owned ensures SameOwner(socket, a, b, host) {
      JournalOwnerPends(socket, inst, host);
    }
  }

  /** A retired record that owns a hostname has no current version. */
  lemma RetiredOwnerIsGone(inst: Instance, i: nat, host: string)
    requires EditedOnce(inst) && i < |inst.retired| && ClaimsHost(Records(inst)[i], host)
    requires forall j :: i < j < |Records(inst)| ==> !ClaimsHost(Records(inst)[j], host)
    ensures forall j :: 0 <= j < |inst.routes| ==> inst.routes[j].id != Records(inst)[i].id
  {
    var k := |inst.retired|;
    forall j | 0 <= j < |inst.routes| ensures inst.routes[j].id != Records(inst)[i].id {
      if inst.routes[j].id == Records(inst)[i].id {
        RetiredYields(inst, i, k + j, host);
      }
    }
  }

  lemma JournalOwnerPends(socket: SocketPath, inst: Instance, host: string)
    requires ValidRoutes(inst.routes) && EditedOnce(inst) && Unshared(inst) && host in Owned(inst)
    ensures SameOwner(socket, PlanOf(inst), PlanOf(Journal(socket, inst)), host)
  {
    var i := JournalOwnerStays(socket, inst, host);
    var k := |inst.retired|;
    JournalRecords(socket, inst);
    assert Records(inst)[i] in Records(inst);
    ByIDFinds(inst.routes);
    if i >= k {
      assert Records(inst)[i] == inst.routes[i - k];
    } else {
      RetiredOwnerIsGone(inst, i, host);
    }
  }

  // ---- The new table is settled for every later record ---------------------

  /** Later records of the same routes, which own every desired hostname by its
      own route with a service the cloud now has, and claim nothing else new. */
  ghost predicate Follows(socket: SocketPath, a: Plan, b: Plan) {
    && |b.routes| == |a.routes|
    && (forall i :: 0 <= i < |a.routes| ==>
                      && SamePublication(a.routes[i], b.routes[i])
                      && SameOrSettledOrigin(a.routes[i], b.routes[i])
                      && OwnsAsPublished(socket, b, a.routes[i]))
    && b.owned.Keys <= ManagedHosts(a)
  }

  predicate OwnsAsPublished(socket: SocketPath, plan: Plan, route: Route) {
    && route.hostname in plan.owned && plan.owned[route.hostname].id == route.id
    && (|| plan.owned[route.hostname].appliedService == RouteService(socket, route)
        || plan.owned[route.hostname].pendingService == RouteService(socket, route))
  }

  lemma FollowingRoutesAreValid(socket: SocketPath, a: Plan, inst: Instance)
    requires ValidPlan(a) && Follows(socket, a, PlanOf(inst))
    ensures ValidPlan(PlanOf(inst)) && PlanOf(inst).desired == a.desired
  {
    PublishedRoutesAreValid(a.routes, inst.routes);
    SameHostnames(a.routes, inst.routes);
    PlanIsValid(inst);
  }

  lemma PublishedRoutesAreValid(a: seq<Route>, b: seq<Route>)
    requires ValidRoutes(a)
    requires |a| == |b| && forall i :: 0 <= i < |a| ==> SamePublication(a[i], b[i])
    ensures ValidRoutes(b) && forall i :: 0 <= i < |a| ==> a[i].hostname == b[i].hostname
  {
    forall i | 0 <= i < |a| ensures ValidTarget(b[i]) && a[i].hostname == b[i].hostname && a[i].id == b[i].id {
      assert SamePublication(a[i], b[i]) && ValidTarget(a[i]);
    }
  }

  lemma NewRowIsSettled(socket: SocketPath, a: Plan, b: Plan, row: Json, i: nat)
    requires ValidPlan(b) && Follows(socket, a, b)
    requires i < |a.routes| && Publishes(socket, row, a.routes[i])
    ensures SettledRow(socket, b, row)
  {
    assert SamePublication(a.routes[i], b.routes[i]) && OwnsAsPublished(socket, b, a.routes[i]);
    UpdateIsIdempotent(socket, Members(row), a.routes[i], b.routes[i]);
    UpdatedEntryReads(socket, Members(row), a.routes[i]);
    assert b.routes[i].id in b.byID;
  }

  lemma ManagedRowHasRoute(socket: SocketPath, plan: Plan, out: Rows, row: Json) returns (j: nat)
    requires ValidPlan(plan) && PlacedTable(socket, plan, out)
    requires row in out && Managed(row, ManagedHosts(plan))
    ensures j < |plan.routes| && Publishes(socket, row, plan.routes[j])
  {
    CountZero(out, Host(row));
    assert Host(row) in Hostnames(plan.routes);
    j :| 0 <= j < |plan.routes| && plan.routes[j].hostname == Host(row);
  }

  lemma PlacedAlike(socket: SocketPath, a: Plan, b: Plan, out: Rows)
    requires PlacedTable(socket, a, out)
    requires |a.routes| == |b.routes|
    requires forall i :: 0 <= i < |a.routes| ==> a.routes[i].hostname == b.routes[i].hostname
    ensures SettledUpTo(socket, b, out, 0)
  {
  }

  lemma NewTableIsSettled(socket: SocketPath, a: Plan, b: Plan, out: Rows)
    requires ValidPlan(a) && ValidPlan(b) && a.desired == b.desired && Follows(socket, a, b)
    requires PlacedTable(socket, a, out)
    ensures Settled(socket, b, out)
  {
    PublishedRoutesAreValid(a.routes, b.routes);
    PlacedAlike(socket, a, b, out);
    forall k | 0 <= k < |out| && Managed(out[k], ManagedHosts(b)) ensures SettledRow(socket, b, out[k]) {
      var i := ManagedRowHasRoute(socket, a, out, out[k]);
      NewRowIsSettled(socket, a, b, out[k], i);
    }
  }

  lemma JournalFollows(socket: SocketPath, inst: Instance)
    requires ValidRoutes(inst.routes) && EditedOnce(inst) && Unshared(inst)
    ensures Follows(socket, PlanOf(inst), PlanOf(Journal(socket, inst)))
  {
    UnsharedIsNotHeldLater(inst);
    NotHeldLaterFollows(socket, inst);
  }

  /** The records after the local apply, pending again or not. */
  ghost predicate Committed(socket: SocketPath, inst: Instance, now: Instance) {
    && (now.retired == inst.retired || now.retired == [])
    && |now.routes| == |inst.routes|
    && forall i :: 0 <= i < |inst.routes| ==>
                     || now.routes[i] == Apply(socket, inst.routes[i])
                     || now.routes[i] == Pend(socket, Apply(socket, inst.routes[i]))
  }

  lemma CommittedClaims(socket: SocketPath, inst: Instance, now: Instance, j: nat, host: string)
    requires Committed(socket, inst, now) && j < |inst.routes|
    ensures ClaimsHost(now.routes[j], host) <==> host != "" && host == inst.routes[j].hostname
    ensures now.routes[j].id == inst.routes[j].id
    ensures now.routes[j].appliedService == RouteService(socket, inst.routes[j])
  {
  }

  lemma CommittedPublication(socket: SocketPath, inst: Instance, now: Instance, j: nat)
    requires Committed(socket, inst, now) && j < |inst.routes| && ValidTarget(inst.routes[j])
    ensures SamePublication(inst.routes[j], now.routes[j])
    ensures SameOrSettledOrigin(inst.routes[j], now.routes[j])
  {
  }

  lemma CommittedOwner(socket: SocketPath, inst: Instance, now: Instance, i: nat)
    requires ValidRoutes(inst.routes) && Committed(socket, inst, now) && i < |inst.routes|
    ensures OwnsAsPublished(socket, PlanOf(now), inst.routes[i])
  {
    hide Bind, Apply, Pend, ByID, Hostnames;
    var all, k := Records(now), |now.retired|;
    var host := inst.routes[i].hostname;
    CommittedClaims(socket, inst, now, i, host);
    assert all[k + i] == now.routes[i];
    var last := BindIsLastClaimant(all, host);
    assert k <= last && all[last] == now.routes[last - k];
    CommittedClaims(socket, inst, now, last - k, host);
    assert last - k == i;
  }

  lemma CommittedOwnsNothingNew(socket: SocketPath, inst: Instance, now: Instance, host: string)
    requires Committed(socket, inst, now)
    requires host in Owned(now)
    ensures host in ManagedHosts(PlanOf(inst))
  {
    var all, k := Records(now), |now.retired|;
    var last := BindIsLastClaimant(all, host);
    if k <= last {
      CommittedClaims(socket, inst, now, last - k, host);
      assert inst.routes[last - k] in inst.routes;
    } else {
      var records := Records(inst);
      assert ClaimsHost(records[last], host);
      var _ := BindIsLastClaimant(records, host);
    }
  }

  lemma CommittedFollows(socket: SocketPath, inst: Instance, now: Instance)
    requires ValidRoutes(inst.routes) && Committed(socket, inst, now)
    ensures Follows(socket, PlanOf(inst), PlanOf(now))
  {
    var a, b := PlanOf(inst), PlanOf(now);
    forall i | 0 <= i < |inst.routes|
      ensures OwnsAsPublished(socket, b, inst.routes[i]) && SamePublication(inst.routes[i], now.routes[i])
              && SameOrSettledOrigin(inst.routes[i], now.routes[i])
    {
      CommittedOwner(socket, inst, now, i);
      CommittedPublication(socket, inst, now, i);
    }
    forall host | host in b.owned ensures host in ManagedHosts(a) {
      CommittedOwnsNothingNew(socket, inst, now, host);
    }
  }

  // ---- Main results --------------------------------------------------------

  lemma {:induction false} MergedRowsAreObjects(socket: SocketPath, plan: Plan, rows: Rows)
    requires MergeRows(socket, plan, rows).Ok?
    requires forall row :: row in rows ==> row.JObj? || row.JNull?
    ensures forall row :: row in MergeRows(socket, plan, rows).value.out ==> row.JObj? || row.JNull?
    ensures forall row :: row in Finish(socket, plan, MergeRows(socket, plan, rows).value) ==> row.JObj? || row.JNull?
  {
    if rows != [] {
      var n := |rows| - 1;
      MergedRowsAreObjects(socket, plan, rows[..n]);
      NewRowsAreObjects(socket, plan.routes, MergeRows(socket, plan, rows[..n]).value.seen);
    }
    NewRowsAreObjects(socket, plan.routes, MergeRows(socket, plan, rows).value.seen);
  }

  lemma {:induction false} NewRowsAreObjects(socket: SocketPath, routes: seq<Route>, seen: set<string>)
    ensures forall row :: row in NewRows(socket, routes, seen) ==> row.JObj?
  {
    if routes != [] {
      NewRowsAreObjects(socket, routes[1..], seen);
      NewRowsAreObjects(socket, routes[1..], seen + {routes[0].hostname});
    }
  }

  /** The merged configuration has exactly the placed table in it. */
  lemma MergedTable(socket: SocketPath, inst: Instance, config: Object) returns (out: Rows)
    requires ValidRoutes(inst.routes)
    requires Merge(socket, inst, config).Ok?
    ensures PlacedTable(socket, PlanOf(inst), out)
    ensures Merge(socket, inst, config).value == config["ingress" := JArr(out)]
    ensures TableOf(Merge(socket, inst, config).value) == Some(out)
  {
    hide MergeRows, Finish, PlacedTable, Owned, ByID, Hostnames, ValidPlan, ValidRoutes;
    var rows := TableOf(config).value;
    var plan := PlanOf(inst);
    PlanIsValid(inst);
    out := Finish(socket, plan, MergeRows(socket, plan, rows).value);
    MergePlacesDesired(socket, plan, rows);
    MergedRowsAreObjects(socket, plan, rows);
  }

  lemma SettledMerge(socket: SocketPath, now: Instance, config: Object, out: Rows)
    requires ValidPlan(PlanOf(now)) && Settled(socket, PlanOf(now), out)
    requires "ingress" in config && config["ingress"] == JArr(out) && TableOf(config) == Some(out)
    ensures Merge(socket, now, config) == Ok(config)
  {
    SettledIsFixpoint(socket, PlanOf(now), out);
    assert config["ingress" := JArr(out)] == config;
  }

  lemma MergesToItself(socket: SocketPath, inst: Instance, config: Object, now: Instance)
    requires ValidRoutes(inst.routes)
    requires Merge(socket, inst, config).Ok?
    requires Follows(socket, PlanOf(inst), PlanOf(now))
    ensures var next := Merge(socket, inst, config).value;
            Merge(socket, now, next) == Ok(next)
  {
    var next := Merge(socket, inst, config).value;
    var out := MergedTable(socket, inst, config);
    var a, b := PlanOf(inst), PlanOf(now);
    assert ValidPlan(a) && ValidPlan(b) && a.desired == b.desired by {
      PlanIsValid(inst);
      FollowingRoutesAreValid(socket, a, now);
    }
    NewTableIsSettled(socket, a, b, out);
    SettledMerge(socket, now, next, out);
  }

  /** Main result 4. Merging again after a completed run changes nothing. */
  lemma CompletedSyncIsFixpoint(socket: SocketPath, inst: Instance, config: Object)
    requires ValidRoutes(inst.routes)
    requires Merge(socket, inst, config).Ok?
    ensures var next := Merge(socket, inst, config).value;
            Merge(socket, Retire(Commit(socket, inst)), next) == Ok(next)
  {
    CommittedFollows(socket, inst, Retire(Commit(socket, inst)));
    MergesToItself(socket, inst, config, Retire(Commit(socket, inst)));
  }

  /** The records and the table a run of the protocol can leave behind. */
  ghost predicate Reachable(socket: SocketPath, start: Durable, next: Object, d: Durable) {
    || d == start
    || d == Durable(Journal(socket, start.inst), start.config)
    || d == Durable(Journal(socket, start.inst), next)
    || (Committed(socket, start.inst, d.inst) && d.config == next)
  }

  predicate CrashHypotheses(start: Durable) {
    ValidRoutes(start.inst.routes) && EditedOnce(start.inst) && Unshared(start.inst) && TableOf(start.config).Some?
  }

  /** No row of the table turns unknown when the journal is saved. */
  predicate TableStaysKnown(socket: SocketPath, start: Durable)
    requires TableOf(start.config).Some?
  {
    RowsStayKnown(socket, PlanOf(start.inst), TableOf(start.config).value)
  }

  lemma ReachableMergesToNext(socket: SocketPath, start: Durable, next: Object, d: Durable)
    requires CrashHypotheses(start) && TableStaysKnown(socket, start)
    requires Merge(socket, start.inst, start.config) == Ok(next)
    requires Reachable(socket, start, next, d)
    ensures Merge(socket, d.inst, d.config) == Ok(next)
  {
    var inst := start.inst;
    if d == start {
    } else if d == Durable(Journal(socket, inst), start.config) {
      JournalPlansAlike(socket, inst);
      JournalMergesAlike(socket, PlanOf(inst), PlanOf(Journal(socket, inst)), TableOf(start.config).value);
    } else if d == Durable(Journal(socket, inst), next) {
      JournalFollows(socket, inst);
      MergesToItself(socket, inst, start.config, Journal(socket, inst));
    } else {
      CommittedFollows(socket, inst, d.inst);
      MergesToItself(socket, inst, start.config, d.inst);
    }
  }

  lemma CommittedAgain(socket: SocketPath, inst: Instance, now: Instance)
    requires Committed(socket, inst, now)
    ensures Committed(socket, inst, Journal(socket, now))
    ensures Committed(socket, inst, Commit(socket, now))
    ensures Committed(socket, inst, Retire(Commit(socket, now)))
    ensures Retire(Commit(socket, now)) == Retire(Commit(socket, inst))
  {
  }

  lemma JournalAgain(socket: SocketPath, inst: Instance)
    ensures Journal(socket, Journal(socket, inst)) == Journal(socket, inst)
    ensures Commit(socket, Journal(socket, inst)) == Commit(socket, inst)
    ensures Committed(socket, inst, Commit(socket, inst))
    ensures Committed(socket, inst, Retire(Commit(socket, inst)))
  {
    CommitAfterJournal(socket, inst);
  }

  lemma StepStaysReachable(socket: SocketPath, start: Durable, next: Object, d: Durable, stop: Stop)
    requires Reachable(socket, start, next, d)
    ensures Reachable(socket, start, next, AfterMerge(socket, d, Ok(next), stop))
    ensures AfterMerge(socket, d, Ok(next), Completed) == Durable(Retire(Commit(socket, start.inst)), next)
  {
    JournalAgain(socket, start.inst);
    if Committed(socket, start.inst, d.inst) && d.config == next {
      CommittedAgain(socket, start.inst, d.inst);
    }
  }

  lemma {:induction false} RunsStayReachable(socket: SocketPath, start: Durable, next: Object, stops: seq<Stop>)
    requires CrashHypotheses(start) && TableStaysKnown(socket, start)
    requires Merge(socket, start.inst, start.config) == Ok(next)
    ensures Reachable(socket, start, next, Runs(socket, start, stops))
  {
    if stops != [] {
      var before := Runs(socket, start, stops[..|stops| - 1]);
      RunsStayReachable(socket, start, next, stops[..|stops| - 1]);
      ReachableMergesToNext(socket, start, next, before);
      StepStaysReachable(socket, start, next, before, stops[|stops| - 1]);
    }
  }

  /** Main result 5. However often a run is stopped, wherever it stops, merging
      what it left behind succeeds and computes the table of the first attempt;
      the cloud only ever holds the old table or that one; and once a run
      completes, the records and the cloud are what an undisturbed run leaves. */
  lemma CrashSafety(socket: SocketPath, start: Durable, stops: seq<Stop>)
    requires CrashHypotheses(start) && TableStaysKnown(socket, start) && Merge(socket, start.inst, start.config).Ok?
    ensures var d := Runs(socket, start, stops);
            && Merge(socket, d.inst, d.config) == Merge(socket, start.inst, start.config)
            && (d.config == start.config || d.config == Merge(socket, start.inst, start.config).value)
            && (stops != [] && stops[|stops| - 1] == Completed ==> d == SyncOnce(socket, start, Completed))
  {
    hide Merge, ValidRoutes, EditedOnce, Unshared, RowsStayKnown, Committed, Commit, Journal, Retire;
    var next := Merge(socket, start.inst, start.config).value;
    RunsStayReachable(socket, start, next, stops);
    ReachableMergesToNext(socket, start, next, Runs(socket, start, stops));
    if stops != [] && stops[|stops| - 1] == Completed {
      var before := Runs(socket, start, stops[..|stops| - 1]);
      RunsStayReachable(socket, start, next, stops[..|stops| - 1]);
      ReachableMergesToNext(socket, start, next, before);
      StepStaysReachable(socket, start, next, before, Completed);
    }
  }

  /** With no hostname shared, the retry of a lost PUT computes the same table if and
      only if no row of the table turns unknown with the journal saved. */
  lemma LostPutKeepsTableExactlyWhen(socket: SocketPath, start: Durable)
    requires CrashHypotheses(start) && Merge(socket, start.inst, start.config).Ok?
    ensures var d := SyncOnce(socket, start, PutLost);
            && (Merge(socket, d.inst, d.config) == Merge(socket, start.inst, start.config)
                <==> TableStaysKnown(socket, start))
            && (!TableStaysKnown(socket, start) ==> Merge(socket, d.inst, d.config) == Err(ServiceChanged))
  {
    hide JournalAlike, MergeRows, Finish, PlanOf, Owned, RowsStayKnown, ValidRoutes, EditedOnce, Unshared;
    JournalPlansAlike(socket, start.inst);
    JournalMergesAlike(socket, PlanOf(start.inst), PlanOf(Journal(socket, start.inst)), TableOf(start.config).value);
  }

  ghost predicate MergesAsAtFirst(socket: SocketPath, start: Durable, stops: seq<Stop>) {
    var d := Runs(socket, start, stops);
    Merge(socket, d.inst, d.config) == Merge(socket, start.inst, start.config)
  }

  /** So the condition on the table is exact: interrupted runs keep computing the
      same table if and only if it holds. */
  lemma SameTableExactlyWhen(socket: SocketPath, start: Durable)
    requires CrashHypotheses(start) && Merge(socket, start.inst, start.config).Ok?
    ensures TableStaysKnown(socket, start) <==> forall stops: seq<Stop> :: MergesAsAtFirst(socket, start, stops)
  {
    hide Merge, RowsStayKnown, SyncOnce, ValidRoutes, EditedOnce, Unshared;
    if TableStaysKnown(socket, start) {
      forall stops: seq<Stop> ensures MergesAsAtFirst(socket, start, stops) {
        CrashSafety(socket, start, stops);
      }
    } else {
      LostPutKeepsTableExactlyWhen(socket, start);
      OneRun(socket, start, PutLost);
      assert !MergesAsAtFirst(socket, start, [PutLost]);
    }
  }

  lemma OneRun(socket: SocketPath, start: Durable, stop: Stop)
    ensures Runs(socket, start, [stop]) == SyncOnce(socket, start, stop)
  {
    assert [stop][..0] == [];
  }

  // ---- Hostnames that a later route still holds ----------------------------

  /** A route further down the list still holds the new hostname of this one. */
  predicate HeldLater(routes: seq<Route>, i: nat)
    requires i < |routes|
  {
    exists j :: i < j < |routes| && routes[j].appliedHostname == routes[i].hostname
  }

  predicate NoneHeldLater(routes: seq<Route>) {
    forall i :: 0 <= i < |routes| ==> !HeldLater(routes, i)
  }

  lemma HolderIsTheRoute(inst: Instance, i: nat, j: nat)
    requires ValidRoutes(inst.routes) && Unshared(inst)
    requires i < |inst.routes| && j < |inst.routes| && inst.routes[j].appliedHostname == inst.routes[i].hostname
    ensures i == j
  {
    var all, k := Records(inst), |inst.retired|;
    assert all[k + i] == inst.routes[i] && all[k + j] == inst.routes[j];
    SharedHostSharedID(inst, k + j, k + i, inst.routes[i].hostname);
  }

  lemma UnsharedIsNotHeldLater(inst: Instance)
    requires ValidRoutes(inst.routes) && Unshared(inst)
    ensures NoneHeldLater(inst.routes)
  {
    forall i, j | 0 <= i < |inst.routes| && 0 <= j < |inst.routes|
                  && inst.routes[j].appliedHostname == inst.routes[i].hostname
      ensures i == j
    {
      HolderIsTheRoute(inst, i, j);
    }
  }

  lemma JournalOwnerIndex(socket: SocketPath, inst: Instance, i: nat) returns (j: nat)
    requires i < |inst.routes| && inst.routes[i].hostname != ""
    ensures var host := inst.routes[i].hostname;
            && i <= j < |inst.routes|
            && host in Owned(Journal(socket, inst))
            && Owned(Journal(socket, inst))[host] == Pend(socket, inst.routes[j])
            && ClaimsHost(Pend(socket, inst.routes[j]), host)
            && (HeldLater(inst.routes, i) ==> i < j)
  {
    hide Bind;
    var host := inst.routes[i].hostname;
    var all, k := Records(Journal(socket, inst)), |inst.retired|;
    JournalRecords(socket, inst);
    assert all[k + i] == Pend(socket, inst.routes[i]);
    var last := BindIsLastClaimant(all, host);
    j := last - k;
    assert all[last] == Pend(socket, inst.routes[j]);
    if HeldLater(inst.routes, i) {
      var m :| i < m < |inst.routes| && inst.routes[m].appliedHostname == host;
      assert all[k + m] == Pend(socket, inst.routes[m]);
    }
  }

  lemma JournalOwnsIffNotHeldLater(socket: SocketPath, inst: Instance, i: nat)
    requires ValidRoutes(inst.routes) && i < |inst.routes|
    ensures OwnsAsPublished(socket, PlanOf(Journal(socket, inst)), inst.routes[i]) <==> !HeldLater(inst.routes, i)
  {
    var j := JournalOwnerIndex(socket, inst, i);
    if i < j {
      assert inst.routes[i].id != inst.routes[j].id && inst.routes[i].hostname != inst.routes[j].hostname;
      assert inst.routes[j].appliedHostname == inst.routes[i].hostname;
    }
  }

  lemma NotHeldLaterFollows(socket: SocketPath, inst: Instance)
    requires ValidRoutes(inst.routes) && EditedOnce(inst) && NoneHeldLater(inst.routes)
    ensures Follows(socket, PlanOf(inst), PlanOf(Journal(socket, inst)))
  {
    hide Owned, ByID, Hostnames, OwnsAsPublished, HeldLater, EditedOnce, ValidRoutes;
    JournalClaimsKnownHosts(socket, inst);
    forall i | 0 <= i < |inst.routes|
      ensures OwnsAsPublished(socket, PlanOf(Journal(socket, inst)), inst.routes[i])
    {
      JournalOwnsIffNotHeldLater(socket, inst, i);
    }
  }

  lemma {:induction false} OutOnlyGrows(socket: SocketPath, plan: Plan, rows: Rows, k: nat)
    requires k <= |rows| && MergeRows(socket, plan, rows).Ok?
    ensures MergeRows(socket, plan, rows[..k]).Ok?
    ensures MergeRows(socket, plan, rows[..k]).value.out <= MergeRows(socket, plan, rows).value.out
    decreases |rows|
  {
    if k == |rows| {
      assert rows[..k] == rows;
    } else {
      var init := rows[..|rows| - 1];
      assert init[..k] == rows[..k];
      OutOnlyGrows(socket, plan, init, k);
    }
  }

  lemma JournalRoutes(socket: SocketPath, inst: Instance)
    ensures |Journal(socket, inst).routes| == |inst.routes|
    ensures forall i :: 0 <= i < |inst.routes| ==> SamePublication(inst.routes[i], Journal(socket, inst).routes[i])
  {
  }

  lemma JournalPlan(socket: SocketPath, inst: Instance)
    requires ValidRoutes(inst.routes) && EditedOnce(inst)
    ensures var a, b := PlanOf(inst), PlanOf(Journal(socket, inst));
            && ValidPlan(a) && ValidPlan(b) && b.desired == a.desired && b.owned.Keys <= ManagedHosts(a)
            && |a.routes| == |b.routes|
            && forall i :: 0 <= i < |a.routes| ==> a.routes[i].hostname == b.routes[i].hostname
  {
    JournalRoutes(socket, inst);
    PublishedRoutesAreValid(inst.routes, Journal(socket, inst).routes);
    PlanIsValid(inst);
    PlanIsValid(Journal(socket, inst));
    SameHostnames(inst.routes, Journal(socket, inst).routes);
    JournalClaimsKnownHosts(socket, inst);
  }

  lemma {:induction false} SomeExactRow(rows: Rows, host: string) returns (m: nat)
    requires Count(rows, host) > 0
    ensures m < |rows| && Exact(rows[m], host)
  {
    m := 0;
    if !Exact(rows[0], host) {
      m := SomeExactRow(rows[1..], host);
      m := m + 1;
    }
  }
}
