/** The conflict view and its acknowledgement (internal/tunnel/reconcile.go), and
    why an acknowledged table cannot be refused for a changed service. */
module RouteConflicts {
  import opened Wrappers
  import opened JsonDocs
  import opened Ingress
  import opened IngressLaws
  import opened RemoteRoutes

  datatype Conflict = Conflict(
    hostname: string,
    service: string,
    desiredService: string,
    removing: bool,
    recoverable: bool)

  // ---- The view ------------------------------------------------------------

  /** The exact rows of a hostname, in table order. */
  function ExactRows(views: seq<View>, host: string): seq<View> {
    if views == [] then []
    else ExactRows(views[..|views| - 1], host)
         + (var v := views[|views| - 1]; if v.hostname == host && v.path == "" then [v] else [])
  }

  predicate Agrees(binding: Route, host: string, row: View) {
    || (host == binding.appliedHostname && row.rawService == binding.appliedService)
    || (host == binding.pendingHostname && row.rawService == binding.pendingService)
  }

  function Describe(socket: SocketPath, inst: Instance, host: string, rows: seq<View>): (c: Conflict)
    requires rows != [] && host in Owned(inst)
    ensures c.hostname == host && (c.recoverable ==> |rows| == 1)
  {
    var row, binding, desired := rows[0], Owned(inst)[host], ByID(inst.routes);
    var recoverable := |rows| == 1
                       && (|| row.editable
                           || (binding.target == "site" && row.rawService == RouteService(socket, binding)));
    if binding.id in desired then
      Conflict(host, row.service, RouteService(socket, desired[binding.id]), false, recoverable)
    else
      Conflict(host, row.service, "", true, recoverable)
  }

  datatype Scan = Scan(seen: set<string>, out: seq<Conflict>)

  const NOTHING_SEEN: Scan := Scan({}, [])

  function ScanOne(socket: SocketPath, inst: Instance, views: seq<View>, s: Scan, host: string): Scan
    requires host != "" ==> host in Owned(inst)
  {
    if host == "" || host in s.seen || ExactRows(views, host) == [] then s
    else
      var rows := ExactRows(views, host);
      if |rows| == 1 && Agrees(Owned(inst)[host], host, rows[0]) then s.(seen := s.seen + {host})
      else Scan(s.seen + {host}, s.out + [Describe(socket, inst, host, rows)])
  }

  predicate OwnedClaims(inst: Instance, route: Route) {
    && (route.appliedHostname != "" ==> route.appliedHostname in Owned(inst))
    && (route.pendingHostname != "" ==> route.pendingHostname in Owned(inst))
  }

  /** Every claimed hostname is looked at once, in the order of the routes. */
  function ScanRoutes(socket: SocketPath, inst: Instance, views: seq<View>, routes: seq<Route>): Scan
    requires forall r :: r in routes ==> OwnedClaims(inst, r)
  {
    if routes == [] then NOTHING_SEEN
    else
      var r := routes[|routes| - 1];
      assert OwnedClaims(inst, r);
      var s := ScanRoutes(socket, inst, views, routes[..|routes| - 1]);
      ScanOne(socket, inst, views, ScanOne(socket, inst, views, s, r.appliedHostname), r.pendingHostname)
  }

  lemma ClaimsAreOwned(inst: Instance)
    ensures forall r :: r in inst.routes + inst.retired ==> OwnedClaims(inst, r)
  {
    forall r | r in inst.routes + inst.retired ensures OwnedClaims(inst, r) {
      var bound := inst.retired + inst.routes;
      assert r in bound;
      var i :| 0 <= i < |bound| && bound[i] == r;
      if r.appliedHostname != "" {
        assert ClaimsHost(bound[i], r.appliedHostname);
        var _ := BindIsLastClaimant(bound, r.appliedHostname);
      }
      if r.pendingHostname != "" {
        assert ClaimsHost(bound[i], r.pendingHostname);
        var _ := BindIsLastClaimant(bound, r.pendingHostname);
      }
    }
  }

  function ScanOf(socket: SocketPath, reader: Reader, inst: Instance, config: Object): Scan {
    ClaimsAreOwned(inst);
    ScanRoutes(socket, inst, Views(reader, RowsOf(config)), inst.routes + inst.retired)
  }

  function Conflicts(socket: SocketPath, reader: Reader, inst: Instance, config: Object): seq<Conflict> {
    ScanOf(socket, reader, inst, config).out
  }

  // ---- The view as the handler builds it -----------------------------------

  method GroupExact(views: seq<View>) returns (entries: map<string, seq<View>>)
    ensures "" !in entries
    ensures forall host :: host in entries ==> entries[host] == ExactRows(views, host)
    ensures forall host :: host != "" && host !in entries ==> ExactRows(views, host) == []
  {
    hide ExactRows;
    NoExactRows();
    entries := map[];
    for i := 0 to |views|
      invariant "" !in entries
      invariant forall host :: host in entries ==> entries[host] == ExactRows(views[..i], host)
      invariant forall host :: host != "" && host !in entries ==> ExactRows(views[..i], host) == []
    {
      var row := views[i];
      forall host {
        ExactRowsNext(views, i, host);
      }
      if row.hostname != "" && row.path == "" {
        var before := if row.hostname in entries then entries[row.hostname] else [];
        entries := entries[row.hostname := before + [row]];
      }
    }
    assert views[..|views|] == views;
  }

  lemma NoExactRows()
    ensures forall host :: ExactRows([], host) == []
  {
  }

  lemma ExactRowsNext(views: seq<View>, i: nat, host: string)
    requires i < |views|
    ensures ExactRows(views[..i + 1], host)
            == ExactRows(views[..i], host) + if views[i].hostname == host && views[i].path == "" then [views[i]] else []
  {
    assert views[..i + 1][..i] == views[..i];
  }

  /** The body of the inner loop: one claimed hostname. */
  method LookAt(socket: SocketPath, inst: Instance, views: seq<View>, entries: map<string, seq<View>>,
                desired: map<string, Route>, owned: map<string, Route>, s: Scan, host: string)
    returns (now: Scan)
    requires host != "" ==> host in Owned(inst)
    requires desired == ByID(inst.routes) && owned == Owned(inst)
    requires "" !in entries
    requires host in entries ==> entries[host] == ExactRows(views, host)
    requires host != "" && host !in entries ==> ExactRows(views, host) == []
    ensures now == ScanOne(socket, inst, views, s, host)
  {
    now := s;
    var rows := if host in entries then entries[host] else [];
    if host == "" || host in s.seen || |rows| == 0 {
      return;
    }
    now := now.(seen := now.seen + {host});
    var row, binding := rows[0], owned[host];
    if |rows| == 1 && Agrees(binding, host, row) {
      return;
    }
    var recoverable := |rows| == 1
                       && (|| row.editable
                           || (binding.target == "site" && row.rawService == RouteService(socket, binding)));
    var item := Conflict(host, row.service, "", true, recoverable);
    if binding.id in desired {
      item := item.(removing := false, desiredService := RouteService(socket, desired[binding.id]));
    }
    now := now.(out := now.out + [item]);
  }

  lemma ScanNext(socket: SocketPath, inst: Instance, views: seq<View>, routes: seq<Route>, i: nat)
    requires i < |routes| && forall r :: r in routes ==> OwnedClaims(inst, r)
    ensures OwnedClaims(inst, routes[i])
    ensures ScanRoutes(socket, inst, views, routes[..i + 1])
            == ScanOne(socket, inst, views,
                       ScanOne(socket, inst, views, ScanRoutes(socket, inst, views, routes[..i]),
                               routes[i].appliedHostname),
                       routes[i].pendingHostname)
  {
    assert routes[..i + 1][..i] == routes[..i];
  }

  method RouteConflictsOf(socket: SocketPath, reader: Reader, inst: Instance, config: Object)
    returns (out: seq<Conflict>)
    ensures out == Conflicts(socket, reader, inst, config)
  {
    hide ScanOne, Owned, ByID, ExactRows, OwnedClaims, Views;
    ClaimsAreOwned(inst);
    var views := RemoteRouteViews(reader, config);
    var entries := GroupExact(views);
    var desired := IndexByID(inst.routes);
    var owned := OwnedRouteBindings(inst);
    var all := inst.routes + inst.retired;
    var s := NOTHING_SEEN;
    for i := 0 to |all|
      invariant s == ScanRoutes(socket, inst, views, all[..i])
    {
      ScanNext(socket, inst, views, all, i);
      s := LookAt(socket, inst, views, entries, desired, owned, s, all[i].appliedHostname);
      s := LookAt(socket, inst, views, entries, desired, owned, s, all[i].pendingHostname);
    }
    assert all[..|all|] == all;
    return s.out;
  }

  // ---- What the view reports -----------------------------------------------

  predicate Reported(conflicts: seq<Conflict>, c: Conflict) {
    c in conflicts
  }

  /** A scan has an entry for a hostname exactly when its rows disagree with the
      record, and that entry describes them. */
  ghost predicate Accounts(socket: SocketPath, inst: Instance, views: seq<View>, s: Scan) {
    && (forall host :: host in s.seen ==> host != "" && host in Owned(inst) && ExactRows(views, host) != [])
    && (forall c :: Reported(s.out, c) ==>
                      && c.hostname in s.seen && c == Describe(socket, inst, c.hostname, ExactRows(views, c.hostname))
                      && !AgreesAlone(inst, views, c.hostname))
    && (forall host :: host in s.seen && !AgreesAlone(inst, views, host) ==>
                         Reported(s.out, Describe(socket, inst, host, ExactRows(views, host))))
  }

  predicate AgreesAlone(inst: Instance, views: seq<View>, host: string) {
    && host in Owned(inst) && |ExactRows(views, host)| == 1
    && Agrees(Owned(inst)[host], host, ExactRows(views, host)[0])
  }

  lemma ScanOneAccounts(socket: SocketPath, inst: Instance, views: seq<View>, s: Scan, host: string)
    requires host != "" ==> host in Owned(inst)
    requires Accounts(socket, inst, views, s)
    ensures Accounts(socket, inst, views, ScanOne(socket, inst, views, s, host))
    ensures s.seen <= ScanOne(socket, inst, views, s, host).seen
    ensures host != "" && ExactRows(views, host) != [] ==> host in ScanOne(socket, inst, views, s, host).seen
  {
    hide Owned, ExactRows, Describe, Agrees;
    var now := ScanOne(socket, inst, views, s, host);
    if now.out != s.out {
      var added := Describe(socket, inst, host, ExactRows(views, host));
      assert now.out == s.out + [added];
      assert forall c :: Reported(now.out, c) <==> Reported(s.out, c) || c == added;
    }
  }

  lemma {:induction false} ScanRoutesAccounts(socket: SocketPath, inst: Instance, views: seq<View>, routes: seq<Route>)
    requires forall r :: r in routes ==> OwnedClaims(inst, r)
    ensures var s := ScanRoutes(socket, inst, views, routes);
            && Accounts(socket, inst, views, s)
            && (forall r, host :: r in routes && ClaimsHost(r, host) && ExactRows(views, host) != [] ==> host in s.seen)
  {
    if routes != [] {
      var n := |routes| - 1;
      var r := routes[n];
      assert OwnedClaims(inst, r) && routes == routes[..n] + [r];
      ScanRoutesAccounts(socket, inst, views, routes[..n]);
      var s := ScanRoutes(socket, inst, views, routes[..n]);
      ScanOneAccounts(socket, inst, views, s, r.appliedHostname);
      ScanOneAccounts(socket, inst, views, ScanOne(socket, inst, views, s, r.appliedHostname), r.pendingHostname);
    }
  }

  /** The view is complete: an owned hostname with rows in the table either agrees
      with its record or is reported. */
  lemma ViewIsComplete(socket: SocketPath, reader: Reader, inst: Instance, config: Object, host: string)
    requires host in Owned(inst)
    requires ExactRows(Views(reader, RowsOf(config)), host) != []
    ensures var views := Views(reader, RowsOf(config));
            var out := Conflicts(socket, reader, inst, config);
            if AgreesAlone(inst, views, host) then forall c :: Reported(out, c) ==> c.hostname != host
            else Reported(out, Describe(socket, inst, host, ExactRows(views, host)))
                 && forall c :: Reported(out, c) && c.hostname == host ==>
                                  c == Describe(socket, inst, host, ExactRows(views, host))
  {
    var views, all := Views(reader, RowsOf(config)), inst.routes + inst.retired;
    ClaimsAreOwned(inst);
    ScanRoutesAccounts(socket, inst, views, all);
    var i := BindIsLastClaimant(inst.retired + inst.routes, host);
    assert (inst.retired + inst.routes)[i] in all;
  }

  // ---- Acknowledging the view ----------------------------------------------

  function Acknowledge(selected: map<string, string>, r: Route): Route {
    var r := if r.appliedHostname in selected then r.(appliedService := selected[r.appliedHostname]) else r;
    if r.pendingHostname in selected then r.(pendingService := selected[r.pendingHostname]) else r
  }

  function AcknowledgeAll(selected: map<string, string>, routes: seq<Route>): seq<Route> {
    seq(|routes|, i requires 0 <= i < |routes| => Acknowledge(selected, routes[i]))
  }

  function Acknowledged(selected: map<string, string>, inst: Instance): Instance {
    Instance(AcknowledgeAll(selected, inst.routes), AcknowledgeAll(selected, inst.retired))
  }

  datatype ReconcileError = BadSelection | NotRecoverable

  /** The choices a request makes: a service for each selected hostname, provided
      every one of them is a recoverable conflict. */
  ghost predicate Selects(conflicts: seq<Conflict>, hostnames: seq<string>, selected: map<string, string>) {
    && (forall host :: host in selected <==> host in hostnames)
    && (forall host :: host in selected ==>
                         exists c :: && Reported(conflicts, c) && c.hostname == host && c.recoverable
                                     && selected[host] == c.service)
  }

  ghost predicate LeavesNothingOut(conflicts: seq<Conflict>, hostnames: seq<string>) {
    forall c :: Reported(conflicts, c) ==> c.hostname in hostnames
  }

  ghost predicate Unrecoverable(conflicts: seq<Conflict>, host: string) {
    forall c :: Reported(conflicts, c) && c.hostname == host ==> !c.recoverable
  }

  method AcknowledgeRoutes(selected: map<string, string>, routes: seq<Route>) returns (now: seq<Route>)
    ensures now == AcknowledgeAll(selected, routes)
  {
    now := routes;
    for i := 0 to |routes|
      invariant |now| == |routes|
      invariant forall j :: 0 <= j < i ==> now[j] == Acknowledge(selected, routes[j])
      invariant forall j :: i <= j < |routes| ==> now[j] == routes[j]
    {
      var r := now[i];
      if r.appliedHostname in selected {
        r := r.(appliedService := selected[r.appliedHostname]);
      }
      if r.pendingHostname in selected {
        r := r.(pendingService := selected[r.pendingHostname]);
      }
      now := now[i := r];
    }
  }

  method ReconcileRoutes(socket: SocketPath, reader: Reader, inst: Instance, config: Object, hostnames: seq<string>)
    returns (r: Result<Instance, ReconcileError>, ghost selected: map<string, string>)
    ensures r == Err(BadSelection) <==> |hostnames| == 0 || |hostnames| > 100
    ensures r.Ok? ==> Selects(Conflicts(socket, reader, inst, config), hostnames, selected)
                      && r.value == Acknowledged(selected, inst)
    ensures r.Ok? && SocketsArePlain(socket, reader)
            && LeavesNothingOut(Conflicts(socket, reader, inst, config), hostnames) ==>
              Merge(socket, r.value, config) != Err(ServiceChanged)
    ensures r == Err(NotRecoverable) ==>
              exists i :: 0 <= i < |hostnames| && Unrecoverable(Conflicts(socket, reader, inst, config), hostnames[i])
  {
    selected := map[];
    if |hostnames| == 0 || |hostnames| > 100 {
      return Err(BadSelection), map[];
    }
    var conflicts := RouteConflictsOf(socket, reader, inst, config);
    var changes := IndexConflicts(socket, reader, inst, config, conflicts);
    var chosen: map<string, string> := map[];
    for i := 0 to |hostnames|
      invariant Selects(conflicts, hostnames[..i], chosen)
    {
      assert hostnames[..i + 1] == hostnames[..i] + [hostnames[i]];
      if hostnames[i] !in changes || !changes[hostnames[i]].recoverable {
        assert Unrecoverable(conflicts, hostnames[i]);
        return Err(NotRecoverable), map[];
      }
      chosen := chosen[hostnames[i] := changes[hostnames[i]].service];
    }
    assert hostnames[..|hostnames|] == hostnames;
    selected := chosen;
    var routes := AcknowledgeRoutes(chosen, inst.routes);
    var retired := AcknowledgeRoutes(chosen, inst.retired);
    r := Ok(Instance(routes, retired));
    if SocketsArePlain(socket, reader) && LeavesNothingOut(Conflicts(socket, reader, inst, config), hostnames) {
      ReconciledTableIsAccepted(socket, reader, inst, config, hostnames, selected);
    }
  }

  method IndexConflicts(socket: SocketPath, reader: Reader, inst: Instance, config: Object, conflicts: seq<Conflict>)
    returns (changes: map<string, Conflict>)
    requires conflicts == Conflicts(socket, reader, inst, config)
    ensures forall host :: host in changes ==> Reported(conflicts, changes[host]) && changes[host].hostname == host
    ensures forall c :: Reported(conflicts, c) ==> c.hostname in changes && changes[c.hostname] == c
  {
    changes := map[];
    for i := 0 to |conflicts|
      invariant forall host :: host in changes ==> Reported(conflicts, changes[host]) && changes[host].hostname == host
      invariant forall j :: 0 <= j < i ==>
                              conflicts[j].hostname in changes && changes[conflicts[j].hostname] == conflicts[j]
    {
      assert Reported(conflicts, conflicts[i]);
      if conflicts[i].hostname in changes {
        OneConflictPerHost(socket, reader, inst, config, changes[conflicts[i].hostname], conflicts[i]);
      }
      changes := changes[conflicts[i].hostname := conflicts[i]];
    }
  }

  lemma OneConflictPerHost(socket: SocketPath, reader: Reader, inst: Instance, config: Object, c: Conflict, d: Conflict)
    requires Reported(Conflicts(socket, reader, inst, config), c)
    requires Reported(Conflicts(socket, reader, inst, config), d)
    requires c.hostname == d.hostname
    ensures c == d
  {
    ClaimsAreOwned(inst);
    ScanRoutesAccounts(socket, inst, Views(reader, RowsOf(config)), inst.routes + inst.retired);
  }

  // ---- Why the merge then accepts the table --------------------------------

  lemma AcknowledgedOwner(selected: map<string, string>, inst: Instance, host: string)
    ensures host in Owned(Acknowledged(selected, inst)) <==> host in Owned(inst)
    ensures host in Owned(inst) ==>
              Owned(Acknowledged(selected, inst))[host] == Acknowledge(selected, Owned(inst)[host])
  {
    hide Acknowledge, Bind, ClaimsHost;
    var a, b := inst.retired + inst.routes, Acknowledged(selected, inst).retired + Acknowledged(selected, inst).routes;
    assert forall j :: 0 <= j < |a| ==> b[j] == Acknowledge(selected, a[j]);
    forall j | 0 <= j < |a| ensures ClaimsHost(b[j], host) <==> ClaimsHost(a[j], host) {
      AcknowledgedClaims(selected, a[j], host);
    }
    var i := BindIsLastClaimant(a, host);
    var j := BindIsLastClaimant(b, host);
  }

  lemma AcknowledgedClaims(selected: map<string, string>, r: Route, host: string)
    ensures ClaimsHost(Acknowledge(selected, r), host) <==> ClaimsHost(r, host)
  {
  }

  lemma {:induction false} ExactRowsHas(reader: Reader, rows: Rows, k: nat)
    requires k < |rows| && Path(rows[k]) == ""
    ensures ViewOf(reader, rows[k]) in ExactRows(Views(reader, rows), Host(rows[k]))
    decreases |rows|
  {
    var n := |rows| - 1;
    assert Views(reader, rows)[..n] == Views(reader, rows[..n]);
    if k < n {
      ExactRowsHas(reader, rows[..n], k);
    }
  }

  /** The row of a managed hostname carries a service its record has. */
  predicate ServiceKnown(inst: Instance, row: Json) {
    Managed(row, Owned(inst).Keys) ==>
      || Owned(inst)[Host(row)].appliedService == Service(row)
      || Owned(inst)[Host(row)].pendingService == Service(row)
  }

  lemma {:induction false} KnownServicesNeverChange(socket: SocketPath, inst: Instance, rows: Rows)
    requires forall row :: row in rows ==> ServiceKnown(inst, row)
    ensures MergeRows(socket, PlanOf(inst), rows) != Err(ServiceChanged)
  {
    if rows != [] {
      var n := |rows| - 1;
      assert forall row :: row in rows[..n] ==> row in rows;
      KnownServicesNeverChange(socket, inst, rows[..n]);
      assert ServiceKnown(inst, rows[n]);
    }
  }

  /** Socket services are not URLs with credentials. */
  ghost predicate SocketsArePlain(socket: SocketPath, reader: Reader) {
    forall site :: reader.url("unix:" + socket(site)).Some? ==> !reader.url("unix:" + socket(site)).value.hasUser
  }

  lemma RecoverableShowsRaw(socket: SocketPath, reader: Reader, inst: Instance, rows: Rows, host: string)
    requires SocketsArePlain(socket, reader)
    requires host in Owned(inst) && ExactRows(Views(reader, rows), host) != []
    requires Describe(socket, inst, host, ExactRows(Views(reader, rows), host)).recoverable
    ensures var exact := ExactRows(Views(reader, rows), host);
            |exact| == 1 && Describe(socket, inst, host, exact).service == exact[0].rawService
  {
    var exact := ExactRows(Views(reader, rows), host);
    ExactRowsAreViews(reader, rows, host, exact[0]);
  }

  lemma {:induction false} ExactRowsAreViews(reader: Reader, rows: Rows, host: string, v: View)
    requires v in ExactRows(Views(reader, rows), host)
    ensures exists row :: row in rows && v == ViewOf(reader, row)
    decreases |rows|
  {
    var n := |rows| - 1;
    assert Views(reader, rows)[..n] == Views(reader, rows[..n]);
    if v in ExactRows(Views(reader, rows[..n]), host) {
      ExactRowsAreViews(reader, rows[..n], host, v);
      var row :| row in rows[..n] && v == ViewOf(reader, row);
      assert row in rows;
    } else {
      assert v == ViewOf(reader, rows[n]);
    }
  }

  /** Every conflict the view reports was recoverable and is acknowledged. */
  ghost predicate CoversAll(conflicts: seq<Conflict>, selected: map<string, string>) {
    && (forall c :: Reported(conflicts, c) ==>
                      c.recoverable && c.hostname in selected && selected[c.hostname] == c.service)
    && (forall host :: host in selected ==> exists c :: Reported(conflicts, c) && c.hostname == host)
  }

  /** A row under a hostname that has only this row without a path. */
  lemma OnlyExactRow(reader: Reader, rows: Rows, k: nat)
    requires k < |rows| && Path(rows[k]) == "" && |ExactRows(Views(reader, rows), Host(rows[k]))| == 1
    ensures ExactRows(Views(reader, rows), Host(rows[k]))[0].rawService == Service(rows[k])
  {
    hide ExactRows, Views;
    ExactRowsHas(reader, rows, k);
    var exact := ExactRows(Views(reader, rows), Host(rows[k]));
    assert exact == [exact[0]];
  }

  lemma AgreedRowIsKnown(reader: Reader, inst: Instance, rows: Rows, selected: map<string, string>, k: nat)
    requires k < |rows| && Path(rows[k]) == "" && Host(rows[k]) !in selected
    requires AgreesAlone(inst, Views(reader, rows), Host(rows[k]))
    ensures ServiceKnown(Acknowledged(selected, inst), rows[k])
  {
    hide ExactRows, Views, Owned, Acknowledged;
    OnlyExactRow(reader, rows, k);
    AcknowledgedOwner(selected, inst, Host(rows[k]));
  }

  lemma ChosenRowIsKnown(inst: Instance, selected: map<string, string>, row: Json)
    requires Host(row) in Owned(inst) && Host(row) in selected && selected[Host(row)] == Service(row)
    ensures ServiceKnown(Acknowledged(selected, inst), row)
  {
    hide Bind, Acknowledged;
    AcknowledgedOwner(selected, inst, Host(row));
    var _ := BindIsLastClaimant(inst.retired + inst.routes, Host(row));
  }

  lemma AcknowledgedRowIsKnown(socket: SocketPath, reader: Reader, inst: Instance, config: Object,
                               selected: map<string, string>, k: nat)
    requires SocketsArePlain(socket, reader)
    requires CoversAll(Conflicts(socket, reader, inst, config), selected)
    requires k < |RowsOf(config)|
    ensures ServiceKnown(Acknowledged(selected, inst), RowsOf(config)[k])
  {
    hide Views, ExactRows, Conflicts, Reported, Owned, Describe, Acknowledged, AgreesAlone, SocketsArePlain, RowsOf;
    var rows := RowsOf(config);
    var row, host := rows[k], Host(rows[k]);
    AcknowledgedOwner(selected, inst, host);
    if Path(row) == "" && host in Owned(inst) {
      ExactRowsHas(reader, rows, k);
      ViewIsComplete(socket, reader, inst, config, host);
      if AgreesAlone(inst, Views(reader, rows), host) {
        AgreedRowIsKnown(reader, inst, rows, selected, k);
      } else {
        RecoverableShowsRaw(socket, reader, inst, rows, host);
        OnlyExactRow(reader, rows, k);
        ChosenRowIsKnown(inst, selected, row);
      }
    }
  }

  /** Main result 9. When the view reports nothing, or everything it reports was
      recoverable and has been acknowledged against the same table, the merge of
      that table is not refused for a changed service. */
  lemma AcknowledgedTableIsAccepted(socket: SocketPath, reader: Reader, inst: Instance, config: Object,
                                    selected: map<string, string>)
    requires SocketsArePlain(socket, reader)
    requires CoversAll(Conflicts(socket, reader, inst, config), selected)
    ensures Merge(socket, Acknowledged(selected, inst), config) != Err(ServiceChanged)
  {
    var rows := RowsOf(config);
    forall row | row in rows ensures ServiceKnown(Acknowledged(selected, inst), row) {
      var k :| 0 <= k < |rows| && rows[k] == row;
      AcknowledgedRowIsKnown(socket, reader, inst, config, selected, k);
    }
    KnownServicesNeverChange(socket, Acknowledged(selected, inst), rows);
  }

  /** A selection that leaves out nothing reported covers the view. */
  lemma FullSelectionCovers(socket: SocketPath, reader: Reader, inst: Instance, config: Object,
                            hostnames: seq<string>, selected: map<string, string>)
    requires Selects(Conflicts(socket, reader, inst, config), hostnames, selected)
    requires LeavesNothingOut(Conflicts(socket, reader, inst, config), hostnames)
    ensures CoversAll(Conflicts(socket, reader, inst, config), selected)
  {
    hide Conflicts, Reported;
    var out := Conflicts(socket, reader, inst, config);
    forall c | Reported(out, c) ensures c.recoverable && c.hostname in selected && selected[c.hostname] == c.service {
      var d :| Reported(out, d) && d.hostname == c.hostname && d.recoverable && selected[c.hostname] == d.service;
      OneConflictPerHost(socket, reader, inst, config, c, d);
    }
  }

  /** What a successful request with this result is worth: chosen in full, it leaves
      records under which the merge of the same table reports no changed service. */
  lemma ReconciledTableIsAccepted(socket: SocketPath, reader: Reader, inst: Instance, config: Object,
                                  hostnames: seq<string>, selected: map<string, string>)
    requires SocketsArePlain(socket, reader)
    requires Selects(Conflicts(socket, reader, inst, config), hostnames, selected)
    requires LeavesNothingOut(Conflicts(socket, reader, inst, config), hostnames)
    ensures Merge(socket, Acknowledged(selected, inst), config) != Err(ServiceChanged)
  {
    hide *;
    FullSelectionCovers(socket, reader, inst, config, hostnames, selected);
    AcknowledgedTableIsAccepted(socket, reader, inst, config, selected);
  }
}
