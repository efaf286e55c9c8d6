/** One round of edits to the desired routes (internal/tunnel/api_routes.go):
    old claims are never forgotten, and after a completed sync the records meet
    the hypotheses under which a crash is harmless. */
module RouteEdits {
  import opened Wrappers
  import opened JsonDocs
  import opened Ingress
  import opened IngressLaws
  import opened IngressSync
  import opened IngressRetries
  import opened RemoteRoutes

  datatype RouteInput = RouteInput(
    id: string,
    hostname: string,
    zoneId: string,
    target: string,
    siteId: string,
    url: string,
    skipTLSVerify: bool,
    adoptHostname: string)

  datatype SaveError =
    | TooMany | UnknownID | Invalid | Duplicate | HostTaken
    | CannotAdopt | CloudUnavailable | NothingToAdopt | AmbiguousAdoption | AlreadyManaged

  /** The fields that route validation may rewrite. */
  datatype Normal = Normal(hostname: string, url: string, skipTLSVerify: bool)

  /** What an edit depends on besides the records: route validation, the
      hostnames of other local tunnels, new IDs, and the cloud table as loaded
      for adoptions. */
  datatype Env = Env(
    socket: SocketPath,
    validate: Route -> Option<Normal>,
    taken: string -> bool,
    newID: nat -> string,
    linked: bool,
    cloud: Option<Object>,
    reader: Reader)

  const NO_ROUTE: Route := Route("", "", "", "", "", "", false, "", "", false, "", "", "", false)

  datatype Edit = Edit(desired: seq<Route>, retired: seq<Route>)

  predicate HasClaim(route: Route) {
    route.appliedHostname != "" || route.pendingHostname != ""
  }

  function Ids(routes: seq<Route>): set<string> {
    set r | r in routes :: r.id
  }

  function WithInput(was: Route, item: RouteInput): Route {
    was.(hostname := item.hostname, zoneId := item.zoneId, target := item.target, siteId := item.siteId,
         url := item.url, skipTLSVerify := item.skipTLSVerify)
  }

  predicate Changed(socket: SocketPath, was: Route, now: Route) {
    || was.hostname != now.hostname || was.zoneId != now.zoneId
    || RouteService(socket, was) != RouteService(socket, now) || was.skipTLSVerify != now.skipTLSVerify
  }

  function Adoptable(views: seq<View>, host: string): seq<View> {
    if views == [] then []
    else (if views[0].hostname == host && views[0].editable then [views[0]] else []) + Adoptable(views[1..], host)
  }

  function Adopt(env: Env, inst: Instance, route: Route, item: RouteInput, known: bool): Result<Route, SaveError> {
    if item.adoptHostname == "" then Ok(route)
    else if known || !env.linked then Err(CannotAdopt)
    else if env.cloud.None? then Err(CloudUnavailable)
    else
      var found := Adoptable(Views(env.reader, RowsOf(env.cloud.value)), item.adoptHostname);
      if |found| > 1 then Err(AmbiguousAdoption)
      else if found == [] then Err(NothingToAdopt)
      else if exists r :: r in inst.routes && r.appliedHostname == found[0].hostname then Err(AlreadyManaged)
      else
        Ok(route.(appliedHostname := found[0].hostname, appliedService := found[0].service,
                  appliedSkipTLSVerify := found[0].skipTLSVerify))
  }

  function EditOne(env: Env, inst: Instance, e: Edit, item: RouteInput): Result<Edit, SaveError> {
    var previous := ByID(inst.routes);
    var known := item.id in previous;
    var was := if known then previous[item.id] else NO_ROUTE;
    if item.id != "" && !known then Err(UnknownID)
    else
      var named := if known then WithInput(was, item) else WithInput(was, item).(id := env.newID(|e.desired|));
      match env.validate(named)
      case None => Err(Invalid)
      case Some(n) =>
        var route := named.(hostname := n.hostname, url := n.url, skipTLSVerify := n.skipTLSVerify);
        if route.id in Ids(e.desired) || route.hostname in Hostnames(e.desired) then Err(Duplicate)
        else if env.taken(route.hostname) then Err(HostTaken)
        else
          var retired :=
            if known && Changed(env.socket, was, route) && HasClaim(was) then e.retired + [was] else e.retired;
          var moved := known && (was.hostname != route.hostname || was.zoneId != route.zoneId);
          var settled := if moved then route.(dnsRecordId := "", dnsOwned := false) else route;
          match Adopt(env, inst, settled, item, known)
          case Err(error) => Err(error)
          case Ok(final) => Ok(Edit(e.desired + [final], retired))
  }

  function EditAll(env: Env, inst: Instance, items: seq<RouteInput>): Result<Edit, SaveError> {
    if items == [] then Ok(Edit([], inst.retired))
    else
      match EditAll(env, inst, items[..|items| - 1])
      case Err(error) => Err(error)
      case Ok(e) => EditOne(env, inst, e, items[|items| - 1])
  }

  /** The deleted routes that still claim something. */
  function Deleted(routes: seq<Route>, desired: seq<Route>): seq<Route> {
    if routes == [] then []
    else
      Deleted(routes[..|routes| - 1], desired)
      + (var was := routes[|routes| - 1];
         if HasClaim(was) && was.id !in Ids(desired) then [was] else [])
  }

  function Save(env: Env, inst: Instance, items: seq<RouteInput>): Result<Instance, SaveError> {
    if |items| > 100 then Err(TooMany)
    else
      match EditAll(env, inst, items)
      case Err(error) => Err(error)
      case Ok(e) => Ok(Instance(e.desired, e.retired + Deleted(inst.routes, e.desired)))
  }

  // ---- The handler as it runs ----------------------------------------------

  method FindAdoptable(views: seq<View>, host: string) returns (found: Option<View>, many: bool)
    ensures many <==> |Adoptable(views, host)| > 1
    ensures !many ==> found == if Adoptable(views, host) == [] then None else Some(Adoptable(views, host)[0])
  {
    found, many := None, false;
    for i := 0 to |views|
      invariant Adoptable(views, host) == (if found.None? then [] else [found.value]) + Adoptable(views[i..], host)
    {
      assert views[i..][1..] == views[i + 1..];
      if views[i].hostname == host && views[i].editable {
        if found.Some? {
          return found, true;
        }
        found := Some(views[i]);
      }
    }
  }

  method AdoptRoute(env: Env, inst: Instance, route: Route, item: RouteInput, known: bool)
    returns (r: Result<Route, SaveError>)
    ensures r == Adopt(env, inst, route, item, known)
  {
    if item.adoptHostname == "" {
      return Ok(route);
    }
    if known || !env.linked {
      return Err(CannotAdopt);
    }
    if env.cloud.None? {
      return Err(CloudUnavailable);
    }
    var views := RemoteRouteViews(env.reader, env.cloud.value);
    var found, many := FindAdoptable(views, item.adoptHostname);
    if many {
      return Err(AmbiguousAdoption);
    }
    if found.None? {
      return Err(NothingToAdopt);
    }
    if exists r :: r in inst.routes && r.appliedHostname == found.value.hostname {
      return Err(AlreadyManaged);
    }
    return Ok(route.(appliedHostname := found.value.hostname, appliedService := found.value.service,
                     appliedSkipTLSVerify := found.value.skipTLSVerify));
  }

  /** The second loop of the handler: retire what the edit dropped. */
  method RetireDropped(routes: seq<Route>, desired: seq<Route>, before: seq<Route>) returns (retired: seq<Route>)
    ensures retired == before + Deleted(routes, desired)
  {
    retired := before;
    for i := 0 to |routes|
      invariant retired == before + Deleted(routes[..i], desired)
    {
      assert routes[..i + 1][..i] == routes[..i];
      if routes[i].id !in Ids(desired) && HasClaim(routes[i]) {
        retired := retired + [routes[i]];
      }
    }
    assert routes[..|routes|] == routes;
  }

  method SaveRoutes(env: Env, inst: Instance, items: seq<RouteInput>) returns (r: Result<Instance, SaveError>)
    ensures r == Save(env, inst, items)
  {
    if |items| > 100 {
      return Err(TooMany);
    }
    hide EditOne, Deleted, Ids, Hostnames, ByID;
    NoneSeen();
    var previous := IndexByID(inst.routes);
    var e := Edit([], inst.retired);
    var seenID: set<string>, seenHost: set<string> := {}, {};
    for i := 0 to |items|
      invariant |e.desired| == i
      invariant seenID == Ids(e.desired) && seenHost == Hostnames(e.desired)
      invariant EditAll(env, inst, items[..i]) == Ok(e)
    {
      EditNext(env, inst, items, i, e);
      var edited := ApplyInput(env, inst, previous, e, seenID, seenHost, items[i]);
      if edited.Err? {
        return Err(edited.error);
      }
      ghost var before := e.desired;
      e := edited.value;
      var route := e.desired[i];
      assert e.desired == before + [route];
      SeenGrows(before, route);
      seenID, seenHost := seenID + {route.id}, seenHost + {route.hostname};
    }
    assert items[..|items|] == items;
    var retired := RetireDropped(inst.routes, e.desired, e.retired);
    return Ok(Instance(e.desired, retired));
  }

  /** The body of the handler's loop over the submitted routes. */
  method ApplyInput(env: Env, inst: Instance, previous: map<string, Route>, e: Edit, seenID: set<string>,
                    seenHost: set<string>, item: RouteInput)
    returns (r: Result<Edit, SaveError>)
    requires previous == ByID(inst.routes) && seenID == Ids(e.desired) && seenHost == Hostnames(e.desired)
    ensures r == EditOne(env, inst, e, item)
    ensures r.Ok? ==> |r.value.desired| == |e.desired| + 1 && r.value.desired[..|e.desired|] == e.desired
  {
    var known := item.id in previous;
    if item.id != "" && !known {
      return Err(UnknownID);
    }
    var was := if known then previous[item.id] else NO_ROUTE;
    var route := WithInput(was, item);
    if !known {
      route := route.(id := env.newID(|e.desired|));
    }
    var normal := env.validate(route);
    if normal.None? {
      return Err(Invalid);
    }
    route := route.(hostname := normal.value.hostname, url := normal.value.url,
                    skipTLSVerify := normal.value.skipTLSVerify);
    if route.id in seenID || route.hostname in seenHost {
      return Err(Duplicate);
    }
    if env.taken(route.hostname) {
      return Err(HostTaken);
    }
    var retired := e.retired;
    if known && Changed(env.socket, was, route) && HasClaim(was) {
      retired := retired + [was];
    }
    if known && (was.hostname != route.hostname || was.zoneId != route.zoneId) {
      route := route.(dnsRecordId := "", dnsOwned := false);
    }
    var adopted := AdoptRoute(env, inst, route, item, known);
    if adopted.Err? {
      return Err(adopted.error);
    }
    return Ok(Edit(e.desired + [adopted.value], retired));
  }

  lemma NoneSeen()
    ensures Ids([]) == {} && Hostnames([]) == {}
  {
  }

  lemma SeenGrows(desired: seq<Route>, route: Route)
    ensures Ids(desired + [route]) == Ids(desired) + {route.id}
    ensures Hostnames(desired + [route]) == Hostnames(desired) + {route.hostname}
  {
    assert route in desired + [route];
    assert forall d :: d in desired ==> d in desired + [route];
  }

  lemma EditNext(env: Env, inst: Instance, items: seq<RouteInput>, i: nat, e: Edit)
    requires i < |items| && EditAll(env, inst, items[..i]) == Ok(e)
    ensures EditAll(env, inst, items[..i + 1]) == EditOne(env, inst, e, items[i])
    ensures EditOne(env, inst, e, items[i]).Err? ==>
              EditAll(env, inst, items) == Err(EditOne(env, inst, e, items[i]).error)
  {
    assert items[..i + 1][..i] == items[..i];
    if EditOne(env, inst, e, items[i]).Err? {
      FirstErrorStays(env, inst, items, i + 1);
    }
  }

  lemma {:induction false} FirstErrorStays(env: Env, inst: Instance, items: seq<RouteInput>, k: nat)
    requires k <= |items| && EditAll(env, inst, items[..k]).Err?
    ensures EditAll(env, inst, items) == EditAll(env, inst, items[..k])
    decreases |items|
  {
    if k == |items| {
      assert items[..k] == items;
    } else {
      var init := items[..|items| - 1];
      assert init[..k] == items[..k];
      FirstErrorStays(env, inst, init, k);
    }
  }

  // ---- What an edit keeps --------------------------------------------------

  predicate SameClaims(a: Route, b: Route) {
    a.appliedHostname == b.appliedHostname && a.appliedService == b.appliedService
    && a.pendingHostname == b.pendingHostname && a.pendingService == b.pendingService
  }

  /** New IDs are random and meet no ID on record. */
  ghost predicate NewIDsAreNew(env: Env, inst: Instance) {
    forall k: nat :: env.newID(k) !in Ids(inst.routes)
  }

  /** Route validation accepts only targets that the merge can publish. */
  ghost predicate ValidatesTargets(env: Env) {
    forall r: Route :: env.validate(r).Some? ==>
                         && env.validate(r).value.hostname != ""
                         && (r.target == "site" || !HasPrefix(env.validate(r).value.url, "unix:"))
  }

  /** Where a route of the edited list comes from: an old route with the same ID
      and the same claims, or a new one with nothing pending. */
  predicate Descends(inst: Instance, r: Route) {
    if r.id in Ids(inst.routes) then
      r.id in ByID(inst.routes) && SameClaims(r, ByID(inst.routes)[r.id])
    else
      r.pendingHostname == "" && r.pendingService == ""
  }

  ghost predicate KeptSoFar(inst: Instance, e: Edit) {
    && DistinctRoutes(e.desired)
    && (forall r :: r in e.desired ==> Descends(inst, r) && ValidTarget(r))
    && inst.retired <= e.retired
    && (forall q :: q in e.retired ==> q in inst.retired || q in inst.routes)
  }

  lemma AdoptKeepsRest(env: Env, inst: Instance, route: Route, item: RouteInput, known: bool)
    requires Adopt(env, inst, route, item, known).Ok?
    ensures var r := Adopt(env, inst, route, item, known).value;
            && r.id == route.id && r.hostname == route.hostname && r.target == route.target && r.url == route.url
            && r.pendingHostname == route.pendingHostname && r.pendingService == route.pendingService
            && (known ==> r == route)
  {
  }

  /** What one item comes to: the old route or none, what it is edited to before any
      adoption, and what it adds to the lists. */
  lemma EditOneShape(env: Env, inst: Instance, e: Edit, item: RouteInput) returns (was: Route, settled: Route)
    requires DistinctRoutes(inst.routes) && EditOne(env, inst, e, item).Ok?
    ensures var known, now := item.id in ByID(inst.routes), EditOne(env, inst, e, item).value;
            && SameClaims(settled, was)
            && (if known then was == ByID(inst.routes)[item.id] && was in inst.routes && settled.id == was.id
                else was == NO_ROUTE && settled.id == env.newID(|e.desired|))
            && (ValidatesTargets(env) ==> ValidTarget(settled))
            && settled.id !in Ids(e.desired) && settled.hostname !in Hostnames(e.desired)
            && Adopt(env, inst, settled, item, known).Ok?
            && now.desired == e.desired + [Adopt(env, inst, settled, item, known).value]
            && (now.retired == e.retired || (known && now.retired == e.retired + [was]))
  {
    hide Adopt, Ids, Hostnames, DistinctRoutes, Changed;
    ByIDFinds(inst.routes);
    var previous := ByID(inst.routes);
    var known := item.id in previous;
    was := if known then previous[item.id] else NO_ROUTE;
    var named := if known then WithInput(was, item) else WithInput(was, item).(id := env.newID(|e.desired|));
    var n := env.validate(named).value;
    var route := named.(hostname := n.hostname, url := n.url, skipTLSVerify := n.skipTLSVerify);
    var moved := known && (was.hostname != route.hostname || was.zoneId != route.zoneId);
    settled := if moved then route.(dnsRecordId := "", dnsOwned := false) else route;
  }

  lemma DistinctSnoc(desired: seq<Route>, r: Route)
    requires DistinctRoutes(desired) && r.id !in Ids(desired) && r.hostname !in Hostnames(desired)
    ensures DistinctRoutes(desired + [r])
  {
    forall d | d in desired ensures d.id != r.id && d.hostname != r.hostname {
      assert d.id in Ids(desired) && d.hostname in Hostnames(desired);
    }
  }

  lemma AddedDescends(env: Env, inst: Instance, known: bool, was: Route, r: Route, k: nat)
    requires DistinctRoutes(inst.routes) && NewIDsAreNew(env, inst)
    requires if known then was in inst.routes && r.id == was.id && SameClaims(r, was)
             else r.id == env.newID(k) && r.pendingHostname == "" && r.pendingService == ""
    ensures Descends(inst, r)
  {
    hide ByID;
    ByIDFinds(inst.routes);
  }

  lemma EditOneKeeps(env: Env, inst: Instance, e: Edit, item: RouteInput)
    requires DistinctRoutes(inst.routes) && NewIDsAreNew(env, inst) && ValidatesTargets(env)
    requires KeptSoFar(inst, e) && EditOne(env, inst, e, item).Ok?
    ensures KeptSoFar(inst, EditOne(env, inst, e, item).value)
  {
    hide EditOne, Adopt, Ids, Hostnames, DistinctRoutes, Descends, ByID, ValidatesTargets, NewIDsAreNew;
    var was, settled := EditOneShape(env, inst, e, item);
    var known := item.id in ByID(inst.routes);
    AdoptKeepsRest(env, inst, settled, item, known);
    var final := Adopt(env, inst, settled, item, known).value;
    AddedDescends(env, inst, known, was, final, |e.desired|);
    DistinctSnoc(e.desired, final);
  }

  lemma {:induction false} EditAllKeeps(env: Env, inst: Instance, items: seq<RouteInput>)
    requires DistinctRoutes(inst.routes) && NewIDsAreNew(env, inst) && ValidatesTargets(env)
    requires EditAll(env, inst, items).Ok?
    ensures KeptSoFar(inst, EditAll(env, inst, items).value)
  {
    if items != [] {
      EditAllKeeps(env, inst, items[..|items| - 1]);
      EditOneKeeps(env, inst, EditAll(env, inst, items[..|items| - 1]).value, items[|items| - 1]);
    }
  }

  lemma {:induction false} DeletedAre(routes: seq<Route>, desired: seq<Route>, q: Route)
    ensures q in Deleted(routes, desired) <==> q in routes && HasClaim(q) && q.id !in Ids(desired)
  {
    if routes != [] {
      DeletedAre(routes[..|routes| - 1], desired, q);
      assert routes == routes[..|routes| - 1] + [routes[|routes| - 1]];
    }
  }

  /** Main result 7. An edit forgets no claim: whatever an old route claimed is
      still claimed, with the same services and under the same ID, by the route
      that replaced it or by a retired record; and retired records stay. */
  lemma EditsForgetNothing(env: Env, inst: Instance, items: seq<RouteInput>, was: Route)
    requires DistinctRoutes(inst.routes) && NewIDsAreNew(env, inst) && ValidatesTargets(env)
    requires Save(env, inst, items).Ok? && was in inst.routes && HasClaim(was)
    ensures var now := Save(env, inst, items).value;
            && inst.retired <= now.retired
            && exists q :: q in Records(now) && q.id == was.id && SameClaims(q, was)
  {
    var e := EditAll(env, inst, items).value;
    var now := Save(env, inst, items).value;
    EditAllKeeps(env, inst, items);
    ByIDFinds(inst.routes);
    if was.id in Ids(e.desired) {
      var r :| r in e.desired && r.id == was.id;
      assert r.id in Ids(inst.routes) && Descends(inst, r);
      assert r in Records(now) && SameClaims(r, was);
    } else {
      DeletedAre(inst.routes, e.desired, was);
      assert was in Records(now);
    }
  }

  /** A completed sync: nothing is retired or pending. */
  predicate Synced(socket: SocketPath, inst: Instance) {
    && inst.retired == [] && DistinctRoutes(inst.routes)
    && forall r :: r in inst.routes ==> r.pendingHostname == "" && r.pendingService == ""
                                        && r.appliedHostname == r.hostname
                                        && r.appliedService == RouteService(socket, r)
  }

  lemma CompletedRunIsSynced(socket: SocketPath, inst: Instance)
    requires ValidRoutes(inst.routes)
    ensures Synced(socket, Retire(Commit(socket, inst)))
  {
    var now := Retire(Commit(socket, inst));
    assert forall i :: 0 <= i < |inst.routes| ==> now.routes[i] == Apply(socket, inst.routes[i]);
  }

  lemma OneRoundOfEdits(env: Env, inst: Instance, items: seq<RouteInput>)
    requires Synced(env.socket, inst) && NewIDsAreNew(env, inst) && ValidatesTargets(env)
    requires Save(env, inst, items).Ok?
    ensures ValidRoutes(Save(env, inst, items).value.routes)
    ensures EditedOnce(Save(env, inst, items).value)
  {
    var e := EditAll(env, inst, items).value;
    var now := Save(env, inst, items).value;
    EditAllKeeps(env, inst, items);
    ByIDFinds(inst.routes);
    forall q | q in now.retired ensures q in inst.routes {
      DeletedAre(inst.routes, e.desired, q);
    }
    forall r | r in now.routes ensures r.pendingHostname == "" && r.pendingService == "" {
      assert Descends(inst, r);
    }
    forall q, r | q in now.retired && r in now.routes && q.id == r.id
      ensures q.appliedHostname == r.appliedHostname && q.appliedService == r.appliedService
    {
      assert r.id in Ids(inst.routes) && Descends(inst, r);
      assert ByID(inst.routes)[q.id] == q;
    }
  }

  lemma CompletedRunSyncs(socket: SocketPath, start: Durable)
    requires ValidRoutes(start.inst.routes) && Merge(socket, start.inst, start.config).Ok?
    ensures Synced(socket, SyncOnce(socket, start, Completed).inst)
  {
    CompletedRunIsSynced(socket, start.inst);
  }

  /** Main result 8. After a completed sync and one round of edits that leaves no
      hostname shared by two route IDs, syncing is crash safe, and the next run
      to complete leaves the records synced again. */
  lemma EditThenSyncIsCrashSafe(env: Env, inst: Instance, items: seq<RouteInput>, start: Durable, stops: seq<Stop>)
    requires Synced(env.socket, inst) && NewIDsAreNew(env, inst) && ValidatesTargets(env)
    requires Save(env, inst, items) == Ok(start.inst) && Unshared(start.inst)
    requires TableOf(start.config).Some? && TableStaysKnown(env.socket, start)
    requires Merge(env.socket, start.inst, start.config).Ok?
    ensures var d := Runs(env.socket, start, stops);
            && Merge(env.socket, d.inst, d.config) == Merge(env.socket, start.inst, start.config)
            && (stops != [] && stops[|stops| - 1] == Completed ==> Synced(env.socket, d.inst))
  {
    OneRoundOfEdits(env, inst, items);
    assert CrashHypotheses(start);
    CrashSafety(env.socket, start, stops);
    CompletedRunSyncs(env.socket, start);
  }

  /** Without any assumption on shared hostnames: after such an edit running again is
      accepted after every interrupted sequence of runs if and only if every row fits
      the journal and no route further down the list still holds the new hostname of an
      earlier one. */
  lemma EditThenSyncExactlyWhen(env: Env, inst: Instance, items: seq<RouteInput>, start: Durable)
    requires Synced(env.socket, inst) && NewIDsAreNew(env, inst) && ValidatesTargets(env)
    requires Save(env, inst, items) == Ok(start.inst) && Merge(env.socket, start.inst, start.config).Ok?
    ensures (forall stops: seq<Stop> :: AcceptedAfter(env.socket, start, stops))
            <==> FitsJournal(env.socket, start) && NoneHeldLater(start.inst.routes)
  {
    hide *;
    OneRoundOfEdits(env, inst, items);
    CrashSafeExactlyWhen(env.socket, start);
  }
}
