/** What saving the desired routes does, record by record (internal/tunnel/api_routes.go):
    which submissions are accepted, what the saved routes are, and which old versions
    stay on record as retired. */
module RouteSaves {
  import opened Wrappers
  import opened Ingress
  import opened IngressLaws
  import opened RemoteRoutes
  import opened RouteEdits

  // ---- What a submitted item says ------------------------------------------

  predicate OnRecord(inst: Instance, id: string) {
    exists q :: q in inst.routes && q.id == id
  }

  /** The record an item edits, or an empty one. */
  ghost predicate Edits(inst: Instance, item: RouteInput, was: Route) {
    if OnRecord(inst, item.id) then was in inst.routes && was.id == item.id
    else was == Route("", "", "", "", "", "", false, "", "", false, "", "", "", false)
  }

  /** What is submitted for item i, before validation. */
  function Submitted(env: Env, inst: Instance, items: seq<RouteInput>, i: nat, was: Route): Route
    requires i < |items|
  {
    Route(if OnRecord(inst, items[i].id) then was.id else env.newID(i), items[i].hostname, items[i].zoneId,
          items[i].target, items[i].siteId, items[i].url, items[i].skipTLSVerify, was.appliedHostname,
          was.appliedService, was.appliedSkipTLSVerify, was.pendingHostname, was.pendingService, was.dnsRecordId,
          was.dnsOwned)
  }

  predicate HasSameService(socket: SocketPath, a: Route, b: Route) {
    (if a.target == "site" then "unix:" + socket(a.siteId) else a.url)
    == if b.target == "site" then "unix:" + socket(b.siteId) else b.url
  }

  /** The saved route r is what the item says: its zone, target and site, what validation
      made of its hostname, URL and flag; a DNS record only where hostname and zone stay;
      the claims of the record it edits, or of the row it adopts. */
  ghost predicate IsSaved(env: Env, inst: Instance, items: seq<RouteInput>, i: nat, was: Route, r: Route)
    requires i < |items|
  {
    var item, known := items[i], OnRecord(inst, items[i].id);
    var normal := env.validate(Submitted(env, inst, items, i, was));
    && normal.Some?
    && r.id == (if known then item.id else env.newID(i))
    && r.zoneId == item.zoneId && r.target == item.target && r.siteId == item.siteId
    && r.hostname == normal.value.hostname && r.url == normal.value.url
    && r.skipTLSVerify == normal.value.skipTLSVerify
    && (if known && r.hostname == was.hostname && r.zoneId == was.zoneId
        then r.dnsRecordId == was.dnsRecordId && r.dnsOwned == was.dnsOwned
        else r.dnsRecordId == "" && !r.dnsOwned)
    && r.pendingHostname == was.pendingHostname && r.pendingService == was.pendingService
    && (item.adoptHostname == "" ==>
          && r.appliedHostname == was.appliedHostname && r.appliedService == was.appliedService
          && r.appliedSkipTLSVerify == was.appliedSkipTLSVerify)
    && (item.adoptHostname != "" ==>
          && !known && env.cloud.Some?
          && var offers := Adoptable(Views(env.reader, RowsOf(env.cloud.value)), item.adoptHostname);
             && |offers| == 1 && r.appliedHostname == offers[0].hostname && r.appliedService == offers[0].service
             && r.appliedSkipTLSVerify == offers[0].skipTLSVerify)
  }

  /** The old version of a route differs from the one saved under its ID. */
  predicate Replaced(socket: SocketPath, was: Route, desired: seq<Route>) {
    exists r :: r in desired && r.id == was.id
                && (r.hostname != was.hostname || r.zoneId != was.zoneId || !HasSameService(socket, r, was)
                    || r.skipTLSVerify != was.skipTLSVerify)
  }

  predicate Gone(was: Route, desired: seq<Route>) {
    forall r :: r in desired ==> r.id != was.id
  }

  // ---- One item ------------------------------------------------------------

  lemma RecordOf(inst: Instance, id: string)
    requires DistinctRoutes(inst.routes)
    ensures OnRecord(inst, id) <==> id in ByID(inst.routes)
    ensures OnRecord(inst, id) ==> ByID(inst.routes)[id] in inst.routes && ByID(inst.routes)[id].id == id
  {
    hide ByID;
    ByIDFinds(inst.routes);
  }

  lemma AdoptGives(env: Env, inst: Instance, route: Route, item: RouteInput, known: bool)
    requires Adopt(env, inst, route, item, known).Ok?
    ensures var r := Adopt(env, inst, route, item, known).value;
            && r == route.(appliedHostname := r.appliedHostname, appliedService := r.appliedService,
                           appliedSkipTLSVerify := r.appliedSkipTLSVerify)
            && (item.adoptHostname == "" ==> r == route)
            && (item.adoptHostname != "" ==>
                  && !known && env.cloud.Some?
                  && var offers := Adoptable(Views(env.reader, RowsOf(env.cloud.value)), item.adoptHostname);
                     && |offers| == 1 && r.appliedHostname == offers[0].hostname
                     && r.appliedService == offers[0].service && r.appliedSkipTLSVerify == offers[0].skipTLSVerify)
  {
    hide Views, Adoptable;
  }

  /** What editing one more item adds: a route, and the version it replaces. */
  ghost predicate Adds(env: Env, inst: Instance, items: seq<RouteInput>, i: nat, e: Edit, now: Edit, was: Route,
                       r: Route)
    requires i < |items|
  {
    && Edits(inst, items[i], was) && IsSaved(env, inst, items, i, was, r)
    && now.desired == e.desired + [r] && Gone(r, e.desired)
    && now.retired
       == e.retired
          + if OnRecord(inst, items[i].id) && HasClaim(was) && Replaced(env.socket, was, [r]) then [was] else []
  }

  lemma ChangedIsReplaced(socket: SocketPath, was: Route, route: Route, r: Route)
    requires r.id == was.id && r.hostname == route.hostname && r.zoneId == route.zoneId && r.url == route.url
    requires r.target == route.target && r.siteId == route.siteId && r.skipTLSVerify == route.skipTLSVerify
    ensures Changed(socket, was, route) <==> Replaced(socket, was, [r])
  {
    assert r in [r];
  }

  lemma NewIDIsGone(r: Route, desired: seq<Route>)
    requires r.id !in Ids(desired)
    ensures Gone(r, desired)
  {
    assert forall d :: d in desired ==> d.id in Ids(desired);
  }

  lemma EditOneAdds(env: Env, inst: Instance, items: seq<RouteInput>, i: nat, e: Edit) returns (was: Route, r: Route)
    requires DistinctRoutes(inst.routes) && i < |items| && |e.desired| == i && EditOne(env, inst, e, items[i]).Ok?
    ensures Adds(env, inst, items, i, e, EditOne(env, inst, e, items[i]).value, was, r)
  {
    hide Adopt, ByID, Hostnames, Ids, DistinctRoutes, Views, Adoptable, Changed, Replaced, OnRecord, Gone;
    RecordOf(inst, items[i].id);
    var previous, item := ByID(inst.routes), items[i];
    var known := item.id in previous;
    was := if known then previous[item.id] else NO_ROUTE;
    var named := if known then WithInput(was, item) else WithInput(was, item).(id := env.newID(|e.desired|));
    assert named == Submitted(env, inst, items, i, was);
    var n := env.validate(named).value;
    var route := named.(hostname := n.hostname, url := n.url, skipTLSVerify := n.skipTLSVerify);
    var moved := known && (was.hostname != route.hostname || was.zoneId != route.zoneId);
    var settled := if moved then route.(dnsRecordId := "", dnsOwned := false) else route;
    AdoptGives(env, inst, settled, item, known);
    r := Adopt(env, inst, settled, item, known).value;
    NewIDIsGone(r, e.desired);
    if known {
      ChangedIsReplaced(env.socket, was, route, r);
    }
  }

  // ---- The whole save ------------------------------------------------------

  ghost predicate ItemSaved(env: Env, inst: Instance, items: seq<RouteInput>, i: nat, r: Route)
    requires i < |items|
  {
    exists was :: Edits(inst, items[i], was) && IsSaved(env, inst, items, i, was, r)
  }

  /** Saved routes and retired versions after some of the items. */
  ghost predicate SavedSoFar(env: Env, inst: Instance, items: seq<RouteInput>, n: nat, e: Edit)
    requires n <= |items|
  {
    && |e.desired| == n
    && (forall i :: 0 <= i < n ==> ItemSaved(env, inst, items, i, e.desired[i]))
    && RetiredSoFar(env.socket, inst, e)
  }

  /** The old versions retired so far are those replaced so far that claim something. */
  ghost predicate RetiredSoFar(socket: SocketPath, inst: Instance, e: Edit) {
    && inst.retired <= e.retired
    && forall was :: multiset(e.retired[|inst.retired|..])[was]
                     == if was in inst.routes && HasClaim(was) && Replaced(socket, was, e.desired) then 1 else 0
  }

  lemma RetiredNext(env: Env, inst: Instance, items: seq<RouteInput>, i: nat, e: Edit, now: Edit, was: Route, r: Route)
    requires DistinctRoutes(inst.routes) && NewIDsAreNew(env, inst) && i < |items|
    requires RetiredSoFar(env.socket, inst, e) && Adds(env, inst, items, i, e, now, was, r)
    ensures RetiredSoFar(env.socket, inst, now)
  {
    hide HasClaim, IsSaved, HasSameService;
    var known, socket := OnRecord(inst, items[i].id), env.socket;
    assert r.id == if known then items[i].id else env.newID(i) by {
      SavedID(env, inst, items, i, was, r);
    }
    var more := now.retired[|e.retired|..];
    assert now.retired[|inst.retired|..] == e.retired[|inst.retired|..] + more;
    forall q ensures multiset(now.retired[|inst.retired|..])[q]
                     == if q in inst.routes && HasClaim(q) && Replaced(socket, q, now.desired) then 1 else 0
    {
      ReplacedSnoc(socket, q, e.desired, r);
      if q in inst.routes && q.id == r.id {
        OneRecord(inst, q, was, known, r.id, env, i);
        GoneIsNotReplaced(socket, q, r, e.desired);
      }
      if q in inst.routes && q.id != r.id {
        OtherIsNotReplaced(socket, q, r);
      }
    }
  }

  lemma SavedID(env: Env, inst: Instance, items: seq<RouteInput>, i: nat, was: Route, r: Route)
    requires i < |items| && IsSaved(env, inst, items, i, was, r)
    ensures r.id == if OnRecord(inst, items[i].id) then items[i].id else env.newID(i)
  {
  }

  lemma OneRecord(inst: Instance, q: Route, was: Route, known: bool, id: string, env: Env, i: nat)
    requires DistinctRoutes(inst.routes) && NewIDsAreNew(env, inst) && q in inst.routes && q.id == id
    requires if known then was in inst.routes && was.id == id else id == env.newID(i)
    ensures known && q == was
  {
    assert q.id in Ids(inst.routes);
  }

  lemma ReplacedSnoc(socket: SocketPath, q: Route, desired: seq<Route>, r: Route)
    ensures Replaced(socket, q, desired + [r]) <==> Replaced(socket, q, desired) || Replaced(socket, q, [r])
  {
    hide HasSameService;
    assert r in desired + [r] && r in [r];
    assert forall d :: d in desired ==> d in desired + [r];
  }

  lemma GoneIsNotReplaced(socket: SocketPath, q: Route, r: Route, desired: seq<Route>)
    requires q.id == r.id && Gone(r, desired)
    ensures !Replaced(socket, q, desired)
  {
  }

  lemma OtherIsNotReplaced(socket: SocketPath, q: Route, r: Route)
    requires q.id != r.id
    ensures !Replaced(socket, q, [r])
  {
  }

  lemma {:induction false} EditAllSaves(env: Env, inst: Instance, items: seq<RouteInput>, n: nat)
    requires DistinctRoutes(inst.routes) && NewIDsAreNew(env, inst) && n <= |items|
    requires EditAll(env, inst, items[..n]).Ok?
    ensures SavedSoFar(env, inst, items, n, EditAll(env, inst, items[..n]).value)
  {
    hide EditOne, Adds, ItemSaved, RetiredSoFar, DistinctRoutes, NewIDsAreNew;
    if n == 0 {
      NothingRetired(env.socket, inst);
    } else {
      assert items[..n][..n - 1] == items[..n - 1];
      EditAllSaves(env, inst, items, n - 1);
      var e := EditAll(env, inst, items[..n - 1]).value;
      assert SavedSoFar(env, inst, items, n - 1, e);
      var now := EditOne(env, inst, e, items[n - 1]).value;
      var was, r := EditOneAdds(env, inst, items, n - 1, e);
      RetiredNext(env, inst, items, n - 1, e, now, was, r);
      SavedNext(env, inst, items, n - 1, e, now, was, r);
      assert EditAll(env, inst, items[..n]).value == now;
    }
  }

  lemma SavedNext(env: Env, inst: Instance, items: seq<RouteInput>, i: nat, e: Edit, now: Edit, was: Route, r: Route)
    requires i < |items| && SavedSoFar(env, inst, items, i, e) && Adds(env, inst, items, i, e, now, was, r)
    requires RetiredSoFar(env.socket, inst, now)
    ensures SavedSoFar(env, inst, items, i + 1, now)
  {
    hide IsSaved, Edits, RetiredSoFar;
    assert ItemSaved(env, inst, items, i, r);
    hide ItemSaved;
  }

  lemma NothingRetired(socket: SocketPath, inst: Instance)
    ensures RetiredSoFar(socket, inst, Edit([], inst.retired))
  {
    assert inst.retired[|inst.retired|..] == [];
  }

  lemma LastIsNew(routes: seq<Route>)
    requires DistinctRoutes(routes) && routes != []
    ensures var n := |routes| - 1;
            routes[n] !in routes[..n] && DistinctRoutes(routes[..n]) && routes == routes[..n] + [routes[n]]
  {
    var n := |routes| - 1;
    forall j | 0 <= j < n ensures routes[..n][j] != routes[n] {
      assert routes[j].id != routes[n].id;
    }
  }

  lemma {:induction false} DeletedOnce(routes: seq<Route>, desired: seq<Route>, q: Route)
    requires DistinctRoutes(routes)
    ensures multiset(Deleted(routes, desired))[q] == if q in routes && HasClaim(q) && Gone(q, desired) then 1 else 0
  {
    hide HasClaim, Gone, DistinctRoutes, Ids;
    if routes != [] {
      LastIsNew(routes);
      DeletedOnce(routes[..|routes| - 1], desired, q);
      GoneIsDeleted(routes[|routes| - 1], desired);
    }
  }

  lemma GoneIsDeleted(q: Route, desired: seq<Route>)
    ensures q.id !in Ids(desired) <==> Gone(q, desired)
  {
    assert forall d :: d in desired ==> d.id in Ids(desired);
  }

  /** Main result 1. Every saved route is what its item says. */
  lemma SavedRoutesAreAsSubmitted(env: Env, inst: Instance, items: seq<RouteInput>, now: Instance, i: nat)
    returns (was: Route)
    requires DistinctRoutes(inst.routes) && NewIDsAreNew(env, inst) && Save(env, inst, items) == Ok(now)
    requires i < |items|
    ensures |now.routes| == |items| && Edits(inst, items[i], was)
    ensures IsSaved(env, inst, items, i, was, now.routes[i])
  {
    hide EditAll, Deleted, Edits, IsSaved, RetiredSoFar;
    assert items[..|items|] == items;
    EditAllSaves(env, inst, items, |items|);
    assert ItemSaved(env, inst, items, i, now.routes[i]);
    was :| Edits(inst, items[i], was) && IsSaved(env, inst, items, i, was, now.routes[i]);
  }

  /** Main result 2. What was retired stays so; and an old route is retired, once, if and
      only if it claims a hostname, applied or pending, and is either gone or saved with
      another hostname, zone, service or TLS flag. */
  lemma RetiredExactlyWhen(env: Env, inst: Instance, items: seq<RouteInput>, now: Instance, was: Route)
    requires DistinctRoutes(inst.routes) && NewIDsAreNew(env, inst) && Save(env, inst, items) == Ok(now)
    ensures inst.retired <= now.retired
    ensures multiset(now.retired[|inst.retired|..])[was]
            == if && was in inst.routes && (was.appliedHostname != "" || was.pendingHostname != "")
                  && (Gone(was, now.routes) || Replaced(env.socket, was, now.routes))
               then 1 else 0
  {
    hide EditAll, Deleted, Edits, IsSaved, DistinctRoutes, Replaced, Gone;
    assert items[..|items|] == items;
    EditAllSaves(env, inst, items, |items|);
    var e := EditAll(env, inst, items).value;
    assert RetiredSoFar(env.socket, inst, e);
    DeletedOnce(inst.routes, e.desired, was);
    assert now.retired[|inst.retired|..] == e.retired[|inst.retired|..] + Deleted(inst.routes, e.desired);
    NotBoth(env.socket, was, e.desired);
  }

  lemma NotBoth(socket: SocketPath, was: Route, desired: seq<Route>)
    ensures !(Gone(was, desired) && Replaced(socket, was, desired))
  {
  }

  // ---- Which submissions are accepted --------------------------------------

  /** What is wrong with item i, given the saved routes of the items before it. */
  function Rejection(env: Env, inst: Instance, items: seq<RouteInput>, i: nat, was: Route, before: seq<Route>)
    : Option<SaveError>
    requires i < |items|
  {
    var item, known := items[i], OnRecord(inst, items[i].id);
    var route := Submitted(env, inst, items, i, was);
    if item.id != "" && !known then Some(UnknownID)
    else if env.validate(route).None? then Some(Invalid)
    else if exists r :: r in before && (r.id == route.id || r.hostname == env.validate(route).value.hostname)
    then Some(Duplicate)
    else if env.taken(env.validate(route).value.hostname) then Some(HostTaken)
    else if item.adoptHostname == "" then None
    else if known || !env.linked then Some(CannotAdopt)
    else if env.cloud.None? then Some(CloudUnavailable)
    else
      var offers := Adoptable(Views(env.reader, RowsOf(env.cloud.value)), item.adoptHostname);
      if |offers| > 1 then Some(AmbiguousAdoption)
      else if |offers| == 0 then Some(NothingToAdopt)
      else if exists q :: q in inst.routes && q.appliedHostname == offers[0].hostname then Some(AlreadyManaged)
      else None
  }

  lemma RejectedOne(env: Env, inst: Instance, items: seq<RouteInput>, i: nat, e: Edit, was: Route)
    requires DistinctRoutes(inst.routes) && i < |items| && |e.desired| == i && Edits(inst, items[i], was)
    ensures var rejected := Rejection(env, inst, items, i, was, e.desired);
            if rejected.Some? then EditOne(env, inst, e, items[i]) == Err(rejected.value)
            else EditOne(env, inst, e, items[i]).Ok?
  {
    hide ByID, Views, Adoptable, Changed, HasClaim, OnRecord;
    RecordOf(inst, items[i].id);
    EditsRecord(inst, items[i], was);
    var previous, item := ByID(inst.routes), items[i];
    var known := item.id in previous;
    var named := if known then WithInput(was, item) else WithInput(was, item).(id := env.newID(|e.desired|));
    assert named == Submitted(env, inst, items, i, was);
  }

  lemma EditsRecord(inst: Instance, item: RouteInput, was: Route)
    requires DistinctRoutes(inst.routes) && Edits(inst, item, was)
    ensures was == if item.id in ByID(inst.routes) then ByID(inst.routes)[item.id] else NO_ROUTE
  {
    hide ByID;
    RecordOf(inst, item.id);
  }

  /** Main result 3. A submission is refused when it is too long, and otherwise for the
      first item with which something is wrong; if there is none it is accepted. */
  lemma AcceptedExactlyWhen(env: Env, inst: Instance, items: seq<RouteInput>)
    requires DistinctRoutes(inst.routes)
    ensures |items| > 100 ==> Save(env, inst, items) == Err(TooMany)
    ensures |items| <= 100 && Save(env, inst, items).Err? ==>
              exists i, was, e :: FirstRejected(env, inst, items, i, was, e, Save(env, inst, items).error)
    ensures |items| <= 100 ==>
              (Save(env, inst, items).Ok? <==> forall i :: 0 <= i < |items| ==> Accepted(env, inst, items, i))
  {
    hide EditAll, Accepted, FirstRejected, DistinctRoutes;
    assert items[..|items|] == items;
    if |items| <= 100 {
      AcceptedUpTo(env, inst, items, |items|);
      if Save(env, inst, items).Err? {
        var i, was, e :| FirstRejected(env, inst, items, i, was, e, Save(env, inst, items).error);
        RejectedIsNotAccepted(env, inst, items, i, was, e, Save(env, inst, items).error);
      }
    }
  }

  lemma RejectedIsNotAccepted(env: Env, inst: Instance, items: seq<RouteInput>, i: nat, was: Route, e: Edit,
                              reason: SaveError)
    requires DistinctRoutes(inst.routes) && FirstRejected(env, inst, items, i, was, e, reason)
    ensures i < |items| && !Accepted(env, inst, items, i)
  {
    hide EditAll, Rejection, Edits;
    if Accepted(env, inst, items, i) {
      var w, d :| EditAll(env, inst, items[..i]) == Ok(d) && Edits(inst, items[i], w)
                  && Rejection(env, inst, items, i, w, d.desired).None?;
      EditsRecord(inst, items[i], w);
      EditsRecord(inst, items[i], was);
    }
  }

  /** Item i is the first one to be rejected, and this is the reason. */
  ghost predicate FirstRejected(env: Env, inst: Instance, items: seq<RouteInput>, i: nat, was: Route, e: Edit,
                                reason: SaveError)
  {
    && i < |items| && EditAll(env, inst, items[..i]) == Ok(e) && Edits(inst, items[i], was)
    && Rejection(env, inst, items, i, was, e.desired) == Some(reason)
  }

  /** Nothing is wrong with item i. */
  ghost predicate Accepted(env: Env, inst: Instance, items: seq<RouteInput>, i: nat)
    requires i < |items|
  {
    exists was, e :: EditAll(env, inst, items[..i]) == Ok(e) && Edits(inst, items[i], was)
                     && Rejection(env, inst, items, i, was, e.desired).None?
  }

  lemma {:induction false} AcceptedUpTo(env: Env, inst: Instance, items: seq<RouteInput>, n: nat)
    requires DistinctRoutes(inst.routes) && n <= |items|
    ensures EditAll(env, inst, items[..n]).Err? ==>
              exists i, was, e :: FirstRejected(env, inst, items, i, was, e, EditAll(env, inst, items[..n]).error)
    ensures EditAll(env, inst, items[..n]).Ok? ==>
              |EditAll(env, inst, items[..n]).value.desired| == n
              && forall i :: 0 <= i < n ==> Accepted(env, inst, items, i)
  {
    hide EditOne, Rejection, Edits, DistinctRoutes;
    if n > 0 {
      assert items[..n][..n - 1] == items[..n - 1];
      AcceptedUpTo(env, inst, items, n - 1);
      if EditAll(env, inst, items[..n - 1]).Ok? {
        var e := EditAll(env, inst, items[..n - 1]).value;
        var was := SomeRecord(inst, items[n - 1]);
        RejectedOne(env, inst, items, n - 1, e, was);
        if EditOne(env, inst, e, items[n - 1]).Ok? {
          var w, r := EditOneAdds(env, inst, items, n - 1, e);
          assert Accepted(env, inst, items, n - 1);
        } else {
          assert FirstRejected(env, inst, items, n - 1, was, e, EditOne(env, inst, e, items[n - 1]).error);
        }
      }
    }
  }

  lemma SomeRecord(inst: Instance, item: RouteInput) returns (was: Route)
    ensures Edits(inst, item, was)
  {
    if OnRecord(inst, item.id) {
      was :| was in inst.routes && was.id == item.id;
    } else {
      was := NO_ROUTE;
    }
  }
}
