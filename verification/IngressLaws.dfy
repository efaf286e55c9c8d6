/** What the ingress merge guarantees: foreign rows and foreign requests are left
    alone, the desired routes are placed exactly once, claimed hostnames that
    are no longer desired disappear, and a settled table is a fixpoint. */
module IngressLaws {
  import opened Wrappers
  import opened JsonDocs
  import opened Ingress

  // ---- What route validation guarantees before a merge ---------------------

  predicate DistinctRoutes(routes: seq<Route>) {
    forall i, j :: 0 <= i < j < |routes| ==> routes[i].id != routes[j].id && routes[i].hostname != routes[j].hostname
  }

  predicate ValidTarget(route: Route) {
    && route.hostname != ""
    && (route.target == "site" || !HasPrefix(route.url, "unix:"))
  }

  predicate ValidRoutes(routes: seq<Route>) {
    && DistinctRoutes(routes)
    && forall i :: 0 <= i < |routes| ==> ValidTarget(routes[i])
  }

  lemma {:induction false} ByIDFinds(routes: seq<Route>)
    requires DistinctRoutes(routes)
    ensures forall i :: 0 <= i < |routes| ==> routes[i].id in ByID(routes) && ByID(routes)[routes[i].id] == routes[i]
    ensures forall id :: id in ByID(routes) ==> ByID(routes)[id] in routes && ByID(routes)[id].id == id
  {
    if routes != [] {
      var init := routes[..|routes| - 1];
      ByIDFinds(init);
      forall i | 0 <= i < |routes| - 1
        ensures routes[i].id in ByID(routes) && ByID(routes)[routes[i].id] == routes[i]
      {
        assert init[i] == routes[i];
      }
    }
  }

  lemma {:induction false} NeverOwnsEmpty(routes: seq<Route>)
    ensures "" !in Bind(routes)
  {
    if routes != [] {
      NeverOwnsEmpty(routes[..|routes| - 1]);
    }
  }

  /** A plan made from valid routes. */
  ghost predicate ValidPlan(plan: Plan) {
    && ValidRoutes(plan.routes)
    && plan.desired == Hostnames(plan.routes)
    && "" !in plan.owned
    && (forall i :: 0 <= i < |plan.routes| ==>
                      plan.routes[i].id in plan.byID && plan.byID[plan.routes[i].id] == plan.routes[i])
    && (forall id :: id in plan.byID ==> plan.byID[id] in plan.routes && plan.byID[id].id == id)
  }

  lemma PlanIsValid(inst: Instance)
    requires ValidRoutes(inst.routes)
    ensures ValidPlan(PlanOf(inst))
  {
    ByIDFinds(inst.routes);
    NeverOwnsEmpty(inst.retired + inst.routes);
  }

  // ---- One updated entry ---------------------------------------------------

  lemma UpdatedEntryReads(socket: SocketPath, original: Object, route: Route)
    ensures var row := UpdatedEntry(socket, original, route);
            Host(row) == route.hostname && Service(row) == RouteService(socket, route)
            && Path(row) == StringAt(original, "path")
  {
  }

  /** An update touches three members of the entry, and two of its origin options. */
  lemma UpdateKeepsOtherFields(socket: SocketPath, original: Object, route: Route, key: string)
    requires key != "hostname" && key != "service" && key != "originRequest"
    ensures var now := Members(UpdatedEntry(socket, original, route));
            && (key in now <==> key in original) && (key in original ==> now[key] == original[key])
            && var before, after := ObjectAt(original, "originRequest"), ObjectAt(now, "originRequest");
               forall option :: option != "noTLSVerify" && option != "httpHostHeader" ==>
                                  (option in after <==> option in before)
                                  && (option in before ==> after[option] == before[option])
  {
  }

  /** Two versions of one route that publish the same entry. */
  predicate SamePublication(a: Route, b: Route) {
    a.id == b.id && a.hostname == b.hostname && a.target == b.target && a.siteId == b.siteId
    && a.url == b.url && a.skipTLSVerify == b.skipTLSVerify
  }

  predicate SameOrSettledOrigin(a: Route, b: Route) {
    || (a.appliedHostname == b.appliedHostname && a.appliedService == b.appliedService)
    || !HasPrefix(b.appliedService, "unix:")
    || b.target == "site"
  }

  lemma OriginIsIdempotent(origin: Object, a: Route, b: Route)
    requires SamePublication(a, b) && SameOrSettledOrigin(a, b)
    ensures UpdatedOrigin(UpdatedOrigin(origin, a), b) == UpdatedOrigin(origin, a)
  {
  }

  lemma UpdateIsIdempotent(socket: SocketPath, original: Object, a: Route, b: Route)
    requires SamePublication(a, b) && SameOrSettledOrigin(a, b)
    ensures UpdatedEntry(socket, Members(UpdatedEntry(socket, original, a)), b) == UpdatedEntry(socket, original, a)
  {
    hide UpdatedOrigin;
    var row := Members(UpdatedEntry(socket, original, a));
    OriginIsIdempotent(ObjectAt(original, "originRequest"), a, b);
    assert Members(UpdatedEntry(socket, row, b)) == row;
  }

  // ---- Foreign rows --------------------------------------------------------

  function ManagedHosts(plan: Plan): set<string> {
    plan.owned.Keys + plan.desired
  }

  predicate Managed(row: Json, hosts: set<string>) {
    Host(row) in hosts && Path(row) == ""
  }

  /** The rows the synchroniser must not touch, in order. */
  function Foreign(rows: Rows, hosts: set<string>): Rows {
    if rows == [] then []
    else if Managed(rows[0], hosts) then Foreign(rows[1..], hosts)
    else [rows[0]] + Foreign(rows[1..], hosts)
  }

  lemma {:induction false} ForeignAppend(a: Rows, b: Rows, hosts: set<string>)
    ensures Foreign(a + b, hosts) == Foreign(a, hosts) + Foreign(b, hosts)
  {
    if a == [] {
      assert a + b == b;
    } else {
      assert (a + b)[1..] == a[1..] + b;
      ForeignAppend(a[1..], b, hosts);
    }
  }

  lemma {:induction false} NewRowsManaged(socket: SocketPath, routes: seq<Route>, seen: set<string>, hosts: set<string>)
    requires Hostnames(routes) <= hosts
    ensures Foreign(NewRows(socket, routes, seen), hosts) == []
  {
    if routes != [] {
      assert routes[0].hostname in Hostnames(routes);
      assert forall r :: r in routes[1..] ==> r in routes;
      UpdatedEntryReads(socket, map[], routes[0]);
      NewRowsManaged(socket, routes[1..], seen, hosts);
      NewRowsManaged(socket, routes[1..], seen + {routes[0].hostname}, hosts);
      var row := UpdatedEntry(socket, map[], routes[0]);
      ForeignAppend([row], NewRows(socket, routes[1..], seen + {routes[0].hostname}), hosts);
      assert Foreign([row], hosts) == [];
    }
  }

  lemma ForeignSnoc(a: Rows, row: Json, hosts: set<string>)
    ensures Foreign(a + [row], hosts) == Foreign(a, hosts) + (if Managed(row, hosts) then [] else [row])
  {
    ForeignAppend(a, [row], hosts);
    assert [row][1..] == [];
  }

  lemma StepKeepsForeign(socket: SocketPath, plan: Plan, p: Progress, row: Json)
    requires ValidPlan(plan)
    requires MergeOne(socket, plan, p, row).Ok?
    ensures var q := MergeOne(socket, plan, p, row).value;
            && Foreign(q.out, ManagedHosts(plan))
               == Foreign(p.out, ManagedHosts(plan)) + (if Managed(row, ManagedHosts(plan)) then [] else [row])
            && q.catchAll == (p.catchAll || IsCatchAll(row))
  {
    var hosts := ManagedHosts(plan);
    if Host(row) in plan.owned && Path(row) == "" {
      var previous := plan.owned[Host(row)];
      if previous.id in plan.byID {
        var route := plan.byID[previous.id];
        UpdatedEntryReads(socket, Members(row), route);
        ForeignSnoc(p.out, UpdatedEntry(socket, Members(row), route), hosts);
      }
    } else if IsCatchAll(row) {
      var added := NewRows(socket, plan.routes, p.seen);
      NewRowsManaged(socket, plan.routes, p.seen, hosts);
      ForeignAppend(p.out, added, hosts);
      ForeignSnoc(p.out + added, row, hosts);
    } else {
      ForeignSnoc(p.out, row, hosts);
    }
  }

  lemma {:induction false} MergeKeepsForeign(socket: SocketPath, plan: Plan, rows: Rows)
    requires ValidPlan(plan)
    requires MergeRows(socket, plan, rows).Ok?
    ensures var p := MergeRows(socket, plan, rows).value;
            && Foreign(p.out, ManagedHosts(plan)) == Foreign(rows, ManagedHosts(plan))
            && (p.catchAll <==> exists row :: row in rows && IsCatchAll(row))
  {
    if rows != [] {
      var n := |rows| - 1;
      assert rows == rows[..n] + [rows[n]];
      MergeKeepsForeign(socket, plan, rows[..n]);
      StepKeepsForeign(socket, plan, MergeRows(socket, plan, rows[..n]).value, rows[n]);
      ForeignSnoc(rows[..n], rows[n], ManagedHosts(plan));
    }
  }

  lemma FinishKeepsForeign(socket: SocketPath, plan: Plan, p: Progress)
    requires ValidPlan(plan)
    ensures Foreign(Finish(socket, plan, p), ManagedHosts(plan))
            == Foreign(p.out, ManagedHosts(plan)) + (if p.catchAll then [] else [NOT_FOUND_ROW])
  {
    hide NewRows, Foreign, ValidRoutes;
    var added := NewRows(socket, plan.routes, p.seen);
    NoEmptyHost(plan);
    assert !Managed(NOT_FOUND_ROW, ManagedHosts(plan));
    NewRowsManaged(socket, plan.routes, p.seen, ManagedHosts(plan));
    ForeignAppend(p.out, added, ManagedHosts(plan));
    ForeignSnoc(p.out + added, NOT_FOUND_ROW, ManagedHosts(plan));
  }

  /** Main result 1. Foreign rows keep their content and their order; the only
      foreign row a merge can add is the closing 404. */
  lemma ForeignRowsKept(socket: SocketPath, plan: Plan, rows: Rows)
    requires ValidPlan(plan)
    requires MergeRows(socket, plan, rows).Ok?
    ensures var p := MergeRows(socket, plan, rows).value;
            Foreign(Finish(socket, plan, p), ManagedHosts(plan))
            == Foreign(rows, ManagedHosts(plan))
               + (if exists row :: row in rows && IsCatchAll(row) then [] else [NOT_FOUND_ROW])
  {
    MergeKeepsForeign(socket, plan, rows);
    FinishKeepsForeign(socket, plan, MergeRows(socket, plan, rows).value);
  }

  // ---- Meaning of the table ------------------------------------------------

  /** First match: the table answers a request with the first row that matches
      it. How a row's hostname and path patterns match is left open. */
  function FirstMatch(rows: Rows, matches: Json -> bool): Option<Json> {
    if rows == [] then None
    else if matches(rows[0]) then Some(rows[0])
    else FirstMatch(rows[1..], matches)
  }

  lemma {:induction false} OnlyForeignRowsAnswer(rows: Rows, hosts: set<string>, matches: Json -> bool)
    requires forall row :: row in rows && Managed(row, hosts) ==> !matches(row)
    ensures FirstMatch(Foreign(rows, hosts), matches) == FirstMatch(rows, matches)
  {
    if rows != [] {
      OnlyForeignRowsAnswer(rows[1..], hosts, matches);
    }
  }

  lemma {:induction false} FirstMatchAppend(a: Rows, b: Rows, matches: Json -> bool)
    ensures FirstMatch(a + b, matches)
            == if FirstMatch(a, matches).Some? then FirstMatch(a, matches) else FirstMatch(b, matches)
  {
    if a == [] {
      assert a + b == b;
    } else {
      assert (a + b)[1..] == a[1..] + b;
      FirstMatchAppend(a[1..], b, matches);
    }
  }

  lemma {:induction false} SomeRowAnswers(rows: Rows, matches: Json -> bool, row: Json)
    requires row in rows && matches(row)
    ensures FirstMatch(rows, matches).Some?
  {
    if rows[0] != row {
      assert row in rows[1..];
      SomeRowAnswers(rows[1..], matches, row);
    }
  }

  /** The request is for none of these exact hostnames. */
  ghost predicate Avoids(matches: Json -> bool, hosts: set<string>) {
    forall row :: Managed(row, hosts) ==> !matches(row)
  }

  ghost predicate AcceptsCatchAll(matches: Json -> bool) {
    forall row :: IsCatchAll(row) ==> matches(row)
  }

  /** Main result 2. A request that no exact claimed or desired hostname answers
      is answered by the same row before and after, or by the closing 404 when
      nothing answered it before. */
  lemma RequestsToForeignHostsUnchanged(socket: SocketPath, plan: Plan, rows: Rows, matches: Json -> bool)
    requires ValidPlan(plan)
    requires MergeRows(socket, plan, rows).Ok?
    requires Avoids(matches, ManagedHosts(plan)) && AcceptsCatchAll(matches)
    ensures var p := MergeRows(socket, plan, rows).value;
            FirstMatch(Finish(socket, plan, p), matches)
            == if FirstMatch(rows, matches).Some? then FirstMatch(rows, matches)
               else Some(JObj(map["service" := JStr("http_status:404")]))
  {
    hide MergeRows, Finish, Foreign, FirstMatch, ValidPlan, ManagedHosts;
    var hosts := ManagedHosts(plan);
    var out := Finish(socket, plan, MergeRows(socket, plan, rows).value);
    ForeignRowsKept(socket, plan, rows);
    OnlyForeignRowsAnswer(rows, hosts, matches);
    OnlyForeignRowsAnswer(out, hosts, matches);
    if row :| row in rows && IsCatchAll(row) {
      SomeRowAnswers(rows, matches, row);
      assert Foreign(rows, hosts) + [] == Foreign(rows, hosts);
    } else {
      FirstMatchAppend(Foreign(rows, hosts), [NOT_FOUND_ROW], matches);
      NotFoundAnswers(matches);
    }
  }

  lemma NotFoundAnswers(matches: Json -> bool)
    requires AcceptsCatchAll(matches)
    ensures FirstMatch([NOT_FOUND_ROW], matches) == Some(NOT_FOUND_ROW)
  {
    assert IsCatchAll(NOT_FOUND_ROW);
  }

  // ---- Placement of the managed hostnames ----------------------------------

  /** How many rows claim exactly this hostname. */
  function Count(rows: Rows, host: string): nat {
    if rows == [] then 0 else (if Exact(rows[0], host) then 1 else 0) + Count(rows[1..], host)
  }

  lemma {:induction false} CountAppend(a: Rows, b: Rows, host: string)
    ensures Count(a + b, host) == Count(a, host) + Count(b, host)
  {
    if a == [] {
      assert a + b == b;
    } else {
      assert (a + b)[1..] == a[1..] + b;
      CountAppend(a[1..], b, host);
    }
  }

  lemma CountSnoc(a: Rows, row: Json, host: string)
    ensures Count(a + [row], host) == Count(a, host) + if Exact(row, host) then 1 else 0
  {
    CountAppend(a, [row], host);
    assert [row][1..] == [];
  }

  lemma {:induction false} CountZero(rows: Rows, host: string)
    ensures Count(rows, host) == 0 <==> forall row :: row in rows ==> !Exact(row, host)
  {
    if rows != [] {
      CountZero(rows[1..], host);
    }
  }

  function BeforeCatchAll(rows: Rows): Rows {
    if rows == [] || IsCatchAll(rows[0]) then [] else [rows[0]] + BeforeCatchAll(rows[1..])
  }

  lemma {:induction false} BeforeCatchAllAppend(a: Rows, b: Rows)
    ensures BeforeCatchAll(a + b) == if Count(a, "") == 0 then a + BeforeCatchAll(b) else BeforeCatchAll(a)
  {
    if a == [] {
      assert a + b == b;
    } else {
      assert (a + b)[1..] == a[1..] + b;
      BeforeCatchAllAppend(a[1..], b);
    }
  }

  lemma FirstIsDistinct(routes: seq<Route>)
    requires DistinctRoutes(routes) && routes != []
    ensures DistinctRoutes(routes[1..]) && routes[0].hostname !in Hostnames(routes[1..])
    ensures Hostnames(routes) == {routes[0].hostname} + Hostnames(routes[1..])
    ensures forall r :: r in routes <==> r == routes[0] || r in routes[1..]
  {
    assert routes == [routes[0]] + routes[1..];
  }

  lemma {:induction false} NewRowsPlace(socket: SocketPath, routes: seq<Route>, seen: set<string>, host: string)
    requires DistinctRoutes(routes)
    ensures Count(NewRows(socket, routes, seen), host) == if host in Hostnames(routes) - seen then 1 else 0
    ensures forall row :: row in NewRows(socket, routes, seen) ==>
                            exists r :: r in routes && Publishes(socket, row, r)
  {
    if routes != [] {
      var first := routes[0];
      hide UpdatedEntry, Publishes, DistinctRoutes;
      FirstIsDistinct(routes);
      var row := UpdatedEntry(socket, map[], first);
      UpdatedEntryReads(socket, map[], first);
      NewRowsPlace(socket, routes[1..], seen, host);
      NewRowsPlace(socket, routes[1..], seen + {first.hostname}, host);
      CountAppend([row], NewRows(socket, routes[1..], seen + {first.hostname}), host);
      UpdatedEntryPublishes(socket, map[], first);
    }
  }

  /** A row publishes a route when updating it for that route changes nothing. */
  predicate Publishes(socket: SocketPath, row: Json, route: Route) {
    Exact(row, route.hostname) && row == UpdatedEntry(socket, Members(row), route)
  }

  lemma UpdatedEntryPublishes(socket: SocketPath, original: Object, route: Route)
    requires StringAt(original, "path") == ""
    ensures Publishes(socket, UpdatedEntry(socket, original, route), route)
  {
    UpdatedEntryReads(socket, original, route);
    UpdateIsIdempotent(socket, original, route, route);
  }

  ghost predicate Published(socket: SocketPath, routes: seq<Route>, rows: Rows) {
    forall i, row :: 0 <= i < |routes| && row in rows && Exact(row, routes[i].hostname) ==>
                       Publishes(socket, row, routes[i])
  }

  /** What holds of a merge in progress. */
  ghost predicate Placing(socket: SocketPath, plan: Plan, p: Progress) {
    && p.seen <= plan.desired
    && (forall host :: host in ManagedHosts(plan) ==> Count(p.out, host) == if host in p.seen then 1 else 0)
    && Published(socket, plan.routes, p.out)
    && (!p.catchAll ==> Count(p.out, "") == 0)
    && (p.catchAll ==> Placed(plan, p.out))
  }

  ghost predicate Placed(plan: Plan, rows: Rows) {
    && Count(rows, "") > 0
    && forall i :: 0 <= i < |plan.routes| ==> Count(BeforeCatchAll(rows), plan.routes[i].hostname) == 1
  }

  lemma PlaceNewCounts(socket: SocketPath, routes: seq<Route>, p: Progress, closing: Json, host: string)
    requires DistinctRoutes(routes)
    ensures Count(p.out + NewRows(socket, routes, p.seen) + [closing], host)
            == Count(p.out, host) + (if host in Hostnames(routes) - p.seen then 1 else 0)
               + (if Exact(closing, host) then 1 else 0)
    ensures Count(p.out + NewRows(socket, routes, p.seen), host)
            == Count(p.out, host) + (if host in Hostnames(routes) - p.seen then 1 else 0)
  {
    CountSnoc(p.out + NewRows(socket, routes, p.seen), closing, host);
    CountAppend(p.out, NewRows(socket, routes, p.seen), host);
    NewRowsPlace(socket, routes, p.seen, host);
  }

  lemma CatchAllEnds(closing: Json)
    requires IsCatchAll(closing)
    ensures BeforeCatchAll([closing]) == []
  {
  }

  lemma PlaceNewBefore(socket: SocketPath, plan: Plan, p: Progress, closing: Json)
    requires ValidPlan(plan) && Placing(socket, plan, p) && IsCatchAll(closing)
    ensures Placed(plan, p.out + NewRows(socket, plan.routes, p.seen) + [closing])
  {
    hide Published, NewRows, Count, BeforeCatchAll, DistinctRoutes;
    var added := NewRows(socket, plan.routes, p.seen);
    var out := p.out + added + [closing];
    NoEmptyHost(plan);
    PlaceNewCounts(socket, plan.routes, p, closing, "");
    if p.catchAll {
      BeforeCatchAllAppend(p.out, added + [closing]);
      assert out == p.out + (added + [closing]);
    } else {
      BeforeCatchAllAppend(p.out + added, [closing]);
      CatchAllEnds(closing);
      assert p.out + added + [] == p.out + added;
      forall i | 0 <= i < |plan.routes| ensures Count(BeforeCatchAll(out), plan.routes[i].hostname) == 1 {
        assert plan.routes[i].hostname in plan.desired;
        PlaceNewCounts(socket, plan.routes, p, closing, plan.routes[i].hostname);
      }
    }
  }

  lemma NoEmptyHost(plan: Plan)
    requires ValidPlan(plan)
    ensures "" !in plan.desired && "" !in plan.owned
  {
    forall i | 0 <= i < |plan.routes| ensures plan.routes[i].hostname != "" {
      assert ValidTarget(plan.routes[i]);
    }
  }

  lemma PlaceNew(socket: SocketPath, plan: Plan, p: Progress, closing: Json)
    requires ValidPlan(plan) && Placing(socket, plan, p) && IsCatchAll(closing)
    ensures Placing(socket, plan, Progress(p.out + NewRows(socket, plan.routes, p.seen) + [closing],
                                           p.seen + plan.desired, true))
  {
    hide NewRows, Count, BeforeCatchAll, UpdatedEntry;
    PlaceNewBefore(socket, plan, p, closing);
    var added := NewRows(socket, plan.routes, p.seen);
    var out := p.out + added + [closing];
    forall host | host in ManagedHosts(plan)
      ensures Count(out, host) == if host in p.seen + plan.desired then 1 else 0
    {
      PlaceNewCounts(socket, plan.routes, p, closing, host);
    }
    forall i, row | 0 <= i < |plan.routes| && row in out && Exact(row, plan.routes[i].hostname)
      ensures Publishes(socket, row, plan.routes[i])
    {
      if row in added {
        NewRowsPlace(socket, plan.routes, p.seen, "");
        var r :| r in plan.routes && Publishes(socket, row, r);
      } else if row == closing {
        assert false;
      }
    }
  }

  lemma PlaceForeign(socket: SocketPath, plan: Plan, p: Progress, row: Json)
    requires ValidPlan(plan) && Placing(socket, plan, p)
    requires !IsCatchAll(row) && !Managed(row, ManagedHosts(plan))
    ensures Placing(socket, plan, p.(out := p.out + [row]))
  {
    hide BeforeCatchAll, UpdatedEntry, DistinctRoutes;
    var out := p.out + [row];
    forall host | host in ManagedHosts(plan) || host == "" ensures Count(out, host) == Count(p.out, host) {
      CountSnoc(p.out, row, host);
    }
    BeforeCatchAllAppend(p.out, [row]);
    forall i, other | 0 <= i < |plan.routes| && other in out && Exact(other, plan.routes[i].hostname)
      ensures Publishes(socket, other, plan.routes[i])
    {
      assert plan.routes[i] in plan.routes;
    }
  }

  lemma PlaceOwned(socket: SocketPath, plan: Plan, p: Progress, row: Json, route: Route)
    requires ValidPlan(plan) && Placing(socket, plan, p)
    requires route in plan.routes && route.hostname !in p.seen && Publishes(socket, row, route)
    ensures Placing(socket, plan, Progress(p.out + [row], p.seen + {route.hostname}, p.catchAll))
  {
    hide Published, Publishes, Count, BeforeCatchAll, DistinctRoutes;
    var out := p.out + [row];
    NoEmptyHost(plan);
    assert route.hostname in plan.desired && Exact(row, route.hostname) by {
      PublishesExactly(socket, row, route);
    }
    forall host ensures Count(out, host) == Count(p.out, host) + if host == route.hostname then 1 else 0 {
      CountSnoc(p.out, row, host);
    }
    BeforeCatchAllAppend(p.out, [row]);
    PublishedSnoc(socket, plan.routes, p.out, row, route);
  }

  lemma PublishesExactly(socket: SocketPath, row: Json, route: Route)
    requires Publishes(socket, row, route)
    ensures Exact(row, route.hostname)
  {
  }

  lemma PublishedSnoc(socket: SocketPath, routes: seq<Route>, out: Rows, row: Json, route: Route)
    requires DistinctRoutes(routes) && route in routes
    requires Published(socket, routes, out) && Publishes(socket, row, route)
    ensures Published(socket, routes, out + [row])
  {
    hide UpdatedEntry;
  }

  lemma {:induction false} MergePlaces(socket: SocketPath, plan: Plan, rows: Rows)
    requires ValidPlan(plan)
    requires MergeRows(socket, plan, rows).Ok?
    ensures Placing(socket, plan, MergeRows(socket, plan, rows).value)
  {
    if rows != [] {
      var n := |rows| - 1;
      var row := rows[n];
      MergePlaces(socket, plan, rows[..n]);
      var p := MergeRows(socket, plan, rows[..n]).value;
      if Host(row) in plan.owned && Path(row) == "" {
        if plan.owned[Host(row)].id in plan.byID {
          var route := plan.byID[plan.owned[Host(row)].id];
          UpdatedEntryPublishes(socket, Members(row), route);
          PlaceOwned(socket, plan, p, UpdatedEntry(socket, Members(row), route), route);
        }
      } else if IsCatchAll(row) {
        PlaceNew(socket, plan, p, row);
      } else {
        PlaceForeign(socket, plan, p, row);
      }
    }
  }

  /** A table in which every desired hostname has exactly one row without a path,
      which publishes its route and stands before the first catch-all, while a
      claimed hostname that is no longer desired has none. */
  ghost predicate PlacedTable(socket: SocketPath, plan: Plan, rows: Rows) {
    && Placed(plan, rows)
    && Published(socket, plan.routes, rows)
    && (forall i :: 0 <= i < |plan.routes| ==> Count(rows, plan.routes[i].hostname) == 1)
    && (forall host :: host in plan.owned && host !in plan.desired ==> Count(rows, host) == 0)
  }

  /** Main result 3. A successful merge places the table; in particular the one
      row of a desired hostname is bound to the service of its route. */
  lemma MergePlacesDesired(socket: SocketPath, plan: Plan, rows: Rows)
    requires ValidPlan(plan)
    requires MergeRows(socket, plan, rows).Ok?
    ensures var out := Finish(socket, plan, MergeRows(socket, plan, rows).value);
            && PlacedTable(socket, plan, out)
            && (forall i, row :: 0 <= i < |plan.routes| && row in out && Exact(row, plan.routes[i].hostname) ==>
                                   Service(row) == RouteService(socket, plan.routes[i]))
  {
    hide MergeRows, Placing, ValidRoutes, UpdatedEntry, NewRows, Placed, Count, Publishes, RouteService;
    MergePlaces(socket, plan, rows);
    var p := MergeRows(socket, plan, rows).value;
    if p.catchAll {
      PlacingIsPlaced(socket, plan, p);
    } else {
      PlaceNew(socket, plan, p, NOT_FOUND_ROW);
      PlacingIsPlaced(socket, plan, Progress(p.out + NewRows(socket, plan.routes, p.seen) + [NOT_FOUND_ROW],
                                             p.seen + plan.desired, true));
    }
    var out := Finish(socket, plan, p);
    forall i, row | 0 <= i < |plan.routes| && row in out && Exact(row, plan.routes[i].hostname)
      ensures Service(row) == RouteService(socket, plan.routes[i])
    {
      assert Publishes(socket, row, plan.routes[i]);
      PublishedService(socket, row, plan.routes[i]);
    }
  }

  lemma PublishedService(socket: SocketPath, row: Json, route: Route)
    requires Publishes(socket, row, route)
    ensures Service(row) == RouteService(socket, route)
  {
    UpdatedEntryReads(socket, Members(row), route);
  }

  lemma PlacingIsPlaced(socket: SocketPath, plan: Plan, p: Progress)
    requires ValidPlan(plan) && Placing(socket, plan, p) && p.catchAll
    ensures PlacedTable(socket, plan, p.out)
  {
    forall i | 0 <= i < |plan.routes| ensures Count(p.out, plan.routes[i].hostname) == 1 {
      assert plan.routes[i].hostname in plan.desired;
      CountBefore(p.out, plan.routes[i].hostname);
    }
  }

  lemma {:induction false} CountBefore(rows: Rows, host: string)
    ensures Count(BeforeCatchAll(rows), host) <= Count(rows, host)
  {
    if rows != [] && !IsCatchAll(rows[0]) {
      CountBefore(rows[1..], host);
      CountAppend([rows[0]], BeforeCatchAll(rows[1..]), host);
    }
  }

  // ---- Settled tables ------------------------------------------------------

  /** A table that already says what the instance wants: every managed row is
      owned with a matching service and publishes its own route, and every
      desired hostname is placed once. */
  ghost predicate Settled(socket: SocketPath, plan: Plan, rows: Rows) {
    SettledUpTo(socket, plan, rows, |rows|)
  }

  ghost predicate SettledUpTo(socket: SocketPath, plan: Plan, rows: Rows, k: nat) {
    && k <= |rows|
    && Placed(plan, rows)
    && (forall i :: 0 <= i < |plan.routes| ==> Count(rows, plan.routes[i].hostname) == 1)
    && (forall j :: 0 <= j < k && Managed(rows[j], ManagedHosts(plan)) ==> SettledRow(socket, plan, rows[j]))
  }

  predicate SettledRow(socket: SocketPath, plan: Plan, row: Json) {
    && Host(row) in plan.owned
    && var owner := plan.owned[Host(row)];
    && (owner.appliedService == Service(row) || owner.pendingService == Service(row))
    && owner.id in plan.byID
    && Publishes(socket, row, plan.byID[owner.id])
  }

  lemma {:induction false} NoNewRows(socket: SocketPath, routes: seq<Route>, seen: set<string>)
    requires Hostnames(routes) <= seen
    ensures NewRows(socket, routes, seen) == []
  {
    if routes != [] {
      assert routes[0].hostname in Hostnames(routes);
      assert forall r :: r in routes[1..] ==> r in routes;
      NoNewRows(socket, routes[1..], seen);
    }
  }

  function SeenIn(plan: Plan, rows: Rows): set<string> {
    set host | host in plan.desired && Count(rows, host) > 0
  }

  lemma AllSeenAtCatchAll(plan: Plan, rows: Rows, k: nat)
    requires ValidPlan(plan) && k < |rows| && Placed(plan, rows) && IsCatchAll(rows[k])
    ensures plan.desired <= SeenIn(plan, rows[..k])
  {
    forall i | 0 <= i < |plan.routes| ensures Count(rows[..k], plan.routes[i].hostname) > 0 {
      var host := plan.routes[i].hostname;
      assert rows == rows[..k] + rows[k..];
      BeforeCatchAllAppend(rows[..k], rows[k..]);
      assert BeforeCatchAll(rows[k..]) == [];
      CountBefore(rows[..k], host);
      assert rows[..k] + [] == rows[..k];
    }
  }

  lemma SeenSnoc(plan: Plan, rows: Rows, row: Json)
    ensures SeenIn(plan, rows + [row])
            == SeenIn(plan, rows) + if Path(row) == "" && Host(row) in plan.desired then {Host(row)} else {}
  {
    forall host ensures Count(rows + [row], host) == Count(rows, host) + if Exact(row, host) then 1 else 0 {
      CountSnoc(rows, row, host);
    }
  }

  lemma NotYetSeen(plan: Plan, rows: Rows, k: nat)
    requires k < |rows| && Path(rows[k]) == "" && Count(rows, Host(rows[k])) == 1
    ensures Host(rows[k]) !in SeenIn(plan, rows[..k])
  {
    CountSplit(rows, k, Host(rows[k]));
    assert rows[k..][0] == rows[k];
  }

  lemma CountSplit(rows: Rows, k: nat, host: string)
    requires k <= |rows|
    ensures Count(rows, host) == Count(rows[..k], host) + Count(rows[k..], host)
  {
    CountAppend(rows[..k], rows[k..], host);
    assert rows == rows[..k] + rows[k..];
  }

  /** A settled row under a managed hostname is kept, and its hostname seen. */
  lemma SettledManagedStep(socket: SocketPath, plan: Plan, rows: Rows, k: nat)
    requires ValidPlan(plan) && k < |rows| && SettledUpTo(socket, plan, rows, k + 1)
    requires Managed(rows[k], ManagedHosts(plan))
    ensures Host(rows[k]) in plan.desired && !IsCatchAll(rows[k])
    ensures var done, seen := rows[..k], SeenIn(plan, rows[..k]);
            MergeOne(socket, plan, Progress(done, seen, Count(done, "") > 0), rows[k])
            == Ok(Progress(done + [rows[k]], seen + {Host(rows[k])}, Count(done, "") > 0))
  {
    hide Count, SeenIn, NewRows, Placed, UpdatedEntry, DistinctRoutes;
    var row := rows[k];
    NoEmptyHost(plan);
    assert SettledRow(socket, plan, row);
    var route := plan.byID[plan.owned[Host(row)].id];
    var i :| 0 <= i < |plan.routes| && plan.routes[i] == route;
    assert route.hostname == Host(row) && row == UpdatedEntry(socket, Members(row), route);
    NotYetSeen(plan, rows, k);
  }

  lemma SettledStep(socket: SocketPath, plan: Plan, rows: Rows, k: nat)
    requires ValidPlan(plan) && k < |rows| && SettledUpTo(socket, plan, rows, k + 1)
    ensures MergeOne(socket, plan, Progress(rows[..k], SeenIn(plan, rows[..k]), Count(rows[..k], "") > 0), rows[k])
            == Ok(Progress(rows[..k] + [rows[k]], SeenIn(plan, rows[..k] + [rows[k]]),
                           Count(rows[..k] + [rows[k]], "") > 0))
  {
    hide Count, SeenIn, NewRows, Placed, UpdatedEntry;
    var done, row := rows[..k], rows[k];
    SeenSnoc(plan, done, row);
    CountSnoc(done, row, "");
    if Managed(row, ManagedHosts(plan)) {
      SettledManagedStep(socket, plan, rows, k);
    } else if IsCatchAll(row) {
      AllSeenAtCatchAll(plan, rows, k);
      NoNewRows(socket, plan.routes, SeenIn(plan, done));
      assert SeenIn(plan, done) + plan.desired == SeenIn(plan, done);
      assert done + [] + [row] == done + [row];
      assert SeenIn(plan, done) + {} == SeenIn(plan, done);
    } else {
      assert SeenIn(plan, done) + {} == SeenIn(plan, done);
    }
  }

  lemma {:induction false} SettledProgress(socket: SocketPath, plan: Plan, rows: Rows, k: nat)
    requires ValidPlan(plan) && SettledUpTo(socket, plan, rows, k)
    ensures MergeRows(socket, plan, rows[..k])
            == Ok(Progress(rows[..k], SeenIn(plan, rows[..k]), Count(rows[..k], "") > 0))
  {
    if k == 0 {
      assert SeenIn(plan, rows[..k]) == {};
    } else {
      assert rows[..k][..k - 1] == rows[..k - 1] && rows[..k] == rows[..k - 1] + [rows[k - 1]];
      SettledProgress(socket, plan, rows, k - 1);
      SettledStep(socket, plan, rows, k - 1);
    }
  }

  lemma SettledIsFixpoint(socket: SocketPath, plan: Plan, rows: Rows)
    requires ValidPlan(plan) && Settled(socket, plan, rows)
    ensures MergeRows(socket, plan, rows).Ok?
    ensures Finish(socket, plan, MergeRows(socket, plan, rows).value) == rows
  {
    SettledProgress(socket, plan, rows, |rows|);
    assert rows[..|rows|] == rows;
  }
}
