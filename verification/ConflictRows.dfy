/** What a reported conflict says about the table and the records
    (internal/tunnel/reconcile.go). */
module ConflictRows {
  import opened Wrappers
  import opened JsonDocs
  import opened Ingress
  import opened IngressLaws
  import opened RemoteRoutes
  import opened RouteConflicts

  /** Row k is the first one of the hostname without a path. */
  ghost predicate FirstRow(rows: Rows, host: string, k: int) {
    0 <= k < |rows| && Exact(rows[k], host) && forall j :: 0 <= j < k ==> !Exact(rows[j], host)
  }

  ghost predicate OnlyRow(rows: Rows, host: string, k: int) {
    0 <= k < |rows| && Exact(rows[k], host) && forall j :: 0 <= j < |rows| && j != k ==> !Exact(rows[j], host)
  }

  lemma {:induction false} ExactRowsAre(reader: Reader, rows: Rows, host: string) returns (k: int)
    ensures var exact := ExactRows(Views(reader, rows), host);
            && (exact == [] <==> forall j :: 0 <= j < |rows| ==> !Exact(rows[j], host))
            && (exact != [] ==> FirstRow(rows, host, k) && exact[0] == ViewOf(reader, rows[k]))
            && (|exact| == 1 <==> exists j :: OnlyRow(rows, host, j))
  {
    hide ViewOf, Views, Exact;
    k := 0;
    if rows == [] {
      NoViews(reader);
    } else {
      var n := |rows| - 1;
      k := ExactRowsAre(reader, rows[..n], host);
      OneMoreRow(reader, rows, host);
      OnlyRowNext(rows, host);
      hide ExactRows;
      if Exact(rows[n], host) && ExactRows(Views(reader, rows[..n]), host) == [] {
        k := n;
      }
    }
  }

  lemma NoViews(reader: Reader)
    ensures Views(reader, []) == []
  {
  }

  lemma OneMoreRow(reader: Reader, rows: Rows, host: string)
    requires rows != []
    ensures var n := |rows| - 1;
            ExactRows(Views(reader, rows), host)
            == ExactRows(Views(reader, rows[..n]), host)
               + if Exact(rows[n], host) then [ViewOf(reader, rows[n])] else []
  {
    hide ViewOf, Host, Path;
    var n := |rows| - 1;
    assert Views(reader, rows)[..n] == Views(reader, rows[..n]);
    RawIsTheService(reader, rows[n]);
  }

  lemma OnlyRowNext(rows: Rows, host: string)
    requires rows != []
    ensures var n := |rows| - 1;
            (exists j :: OnlyRow(rows, host, j))
            <==> if Exact(rows[n], host) then forall j :: 0 <= j < n ==> !Exact(rows[j], host)
                 else exists j :: OnlyRow(rows[..n], host, j)
  {
    hide Exact;
    var n := |rows| - 1;
    if j :| OnlyRow(rows, host, j) {
      assert j < n ==> OnlyRow(rows[..n], host, j);
    }
    if Exact(rows[n], host) && forall j :: 0 <= j < n ==> !Exact(rows[j], host) {
      assert OnlyRow(rows, host, n);
    }
    if j :| !Exact(rows[n], host) && OnlyRow(rows[..n], host, j) {
      assert OnlyRow(rows, host, j);
    }
  }

  /** Main result 1. A hostname is reported exactly when it is owned, the table has rows of
      it without a path, and that is not just one row with the service on record, applied
      or pending, for that hostname. */
  lemma ReportedExactlyWhen(socket: SocketPath, reader: Reader, inst: Instance, config: Object, host: string)
    requires host in Owned(inst)
    ensures var rows, owner := RowsOf(config), Owned(inst)[host];
            (exists c :: Reported(Conflicts(socket, reader, inst, config), c) && c.hostname == host)
            <==> && (exists j :: 0 <= j < |rows| && Exact(rows[j], host))
                 && !exists j :: && OnlyRow(rows, host, j)
                                 && (|| (owner.appliedHostname == host && owner.appliedService == Service(rows[j]))
                                     || (owner.pendingHostname == host && owner.pendingService == Service(rows[j])))
  {
    hide Conflicts, Bind, ExactRows, Views, Describe, Exact;
    var rows := RowsOf(config);
    var k := ExactRowsAre(reader, rows, host);
    if ExactRows(Views(reader, rows), host) == [] {
      NothingToReport(socket, reader, inst, config, host);
    } else {
      ViewIsComplete(socket, reader, inst, config, host);
      RawIsTheService(reader, rows[k]);
      assert forall j :: OnlyRow(rows, host, j) ==> j == k;
    }
  }

  lemma RawIsTheService(reader: Reader, row: Json)
    ensures ViewOf(reader, row).rawService == Service(row) && ViewOf(reader, row).hostname == Host(row)
    ensures ViewOf(reader, row).path == Path(row)
  {
  }

  lemma NothingToReport(socket: SocketPath, reader: Reader, inst: Instance, config: Object, host: string)
    requires ExactRows(Views(reader, RowsOf(config)), host) == []
    ensures forall c :: Reported(Conflicts(socket, reader, inst, config), c) ==> c.hostname != host
  {
    hide Views, ExactRows, Owned, Describe, ScanRoutes;
    ClaimsAreOwned(inst);
    ScanRoutesAccounts(socket, inst, Views(reader, RowsOf(config)), inst.routes + inst.retired);
  }

  /** Main result 2. What a reported conflict says: the service of the first row, without
      credentials; whether the route of its owner is gone, and otherwise the service that
      route wants; and that it can be taken over when the row is the only one and is
      either an HTTP or HTTPS service without credentials, or the socket of its owner's
      site. */
  lemma ConflictSays(socket: SocketPath, reader: Reader, inst: Instance, config: Object, c: Conflict) returns (k: int)
    requires DistinctRoutes(inst.routes) && Reported(Conflicts(socket, reader, inst, config), c)
    ensures c.hostname in Owned(inst) && FirstRow(RowsOf(config), c.hostname, k)
    ensures var rows, owner := RowsOf(config), Owned(inst)[c.hostname];
            var raw := Service(rows[k]);
            var url := reader.url(raw);
            && c.service == (if url.Some? && url.value.hasUser then url.value.withoutUser else raw)
            && (c.removing <==> forall r :: r in inst.routes ==> r.id != owner.id)
            && (c.removing ==> c.desiredService == "")
            && (forall r :: r in inst.routes && r.id == owner.id ==>
                              c.desiredService == if r.target == "site" then "unix:" + socket(r.siteId) else r.url)
            && (c.recoverable
                <==> && OnlyRow(rows, c.hostname, k)
                     && (|| (url.Some? && !url.value.hasUser && url.value.scheme in {"http", "https"})
                         || (owner.target == "site" && raw == "unix:" + socket(owner.siteId))))
  {
    hide Conflicts, Bind, ExactRows, Views, ByID, Exact;
    var rows := RowsOf(config);
    k := ExactRowsAre(reader, rows, c.hostname);
    ReportedIsDescribed(socket, reader, inst, config, c);
    ByIDFinds(inst.routes);
    NeverOwnsEmpty(inst.retired + inst.routes);
    FirstIsExact(rows, c.hostname, k);
    assert forall j :: OnlyRow(rows, c.hostname, j) ==> j == k;
  }

  lemma FirstIsExact(rows: Rows, host: string, k: int)
    requires FirstRow(rows, host, k)
    ensures Host(rows[k]) == host && Path(rows[k]) == ""
  {
  }

  lemma ReportedIsDescribed(socket: SocketPath, reader: Reader, inst: Instance, config: Object, c: Conflict)
    requires Reported(Conflicts(socket, reader, inst, config), c)
    ensures c.hostname in Owned(inst)
    ensures var exact := ExactRows(Views(reader, RowsOf(config)), c.hostname);
            exact != [] && c == Describe(socket, inst, c.hostname, exact)
  {
    hide Views, ExactRows, Owned, Describe, ScanRoutes;
    ClaimsAreOwned(inst);
    ScanRoutesAccounts(socket, inst, Views(reader, RowsOf(config)), inst.routes + inst.retired);
  }

  // ---- Order ---------------------------------------------------------------

  /** Conflicts come in the order in which their hostnames are first claimed. */
  ghost predicate InRecordOrder(all: seq<Route>, out: seq<Conflict>) {
    && (forall a :: 0 <= a < |out| ==> Claimed(all, |all|, out[a].hostname))
    && forall a, b, j :: 0 <= a < b < |out| && 0 <= j < |all| && ClaimsHost(all[j], out[b].hostname) ==>
                           Claimed(all, j + 1, out[a].hostname)
  }

  /** One of the first n routes claims the hostname. */
  ghost predicate Claimed(all: seq<Route>, n: int, host: string) {
    exists i :: 0 <= i < n && i < |all| && ClaimsHost(all[i], host)
  }

  /** What has been looked at. */
  ghost predicate Looked(views: seq<View>, all: seq<Route>, n: nat, s: Scan) {
    && n <= |all|
    && (forall host :: host in s.seen ==> Claimed(all, n, host))
    && (forall j, host :: 0 <= j < n - 1 && ClaimsHost(all[j], host) && ExactRows(views, host) != [] ==> host in s.seen)
    && (forall c :: c in s.out ==> c.hostname in s.seen && ExactRows(views, c.hostname) != [])
    && forall a, b, j :: 0 <= a < b < |s.out| && 0 <= j < |all| && ClaimsHost(all[j], s.out[b].hostname) ==>
                           Claimed(all, j + 1, s.out[a].hostname)
  }

  lemma LookOne(socket: SocketPath, inst: Instance, views: seq<View>, all: seq<Route>, n: nat, s: Scan, host: string)
    requires host != "" ==> host in Owned(inst)
    requires 0 < n && Looked(views, all, n, s) && (host == "" || ClaimsHost(all[n - 1], host))
    ensures Looked(views, all, n, ScanOne(socket, inst, views, s, host))
    ensures s.seen <= ScanOne(socket, inst, views, s, host).seen
    ensures host != "" && ExactRows(views, host) != [] ==> host in ScanOne(socket, inst, views, s, host).seen
  {
    hide ExactRows, Owned, Describe, Agrees, ClaimsHost;
    var now := ScanOne(socket, inst, views, s, host);
    if now != s {
      assert Claimed(all, n, host);
      forall a, b, j | 0 <= a < b < |now.out| && 0 <= j < |all| && ClaimsHost(all[j], now.out[b].hostname)
        ensures Claimed(all, j + 1, now.out[a].hostname)
      {
        if b == |s.out| {
          assert now.out[a] in s.out;
          assert now.out[b].hostname == host && !(j < n - 1);
          var i :| 0 <= i < n && i < |all| && ClaimsHost(all[i], now.out[a].hostname);
        }
      }
    }
  }

  lemma {:induction false} LooksInOrder(socket: SocketPath, inst: Instance, views: seq<View>, all: seq<Route>, n: nat)
    requires (forall r :: r in all ==> OwnedClaims(inst, r)) && n <= |all|
    ensures var s := ScanRoutes(socket, inst, views, all[..n]);
            && Looked(views, all, n, s)
            && (n > 0 ==>
                  forall host :: ClaimsHost(all[n - 1], host) && ExactRows(views, host) != [] ==> host in s.seen)
  {
    hide ExactRows, Owned, ScanOne, OwnedClaims;
    if n > 0 {
      ScanNext(socket, inst, views, all, n - 1);
      LooksInOrder(socket, inst, views, all, n - 1);
      var s := ScanRoutes(socket, inst, views, all[..n - 1]);
      LookedNext(views, all, n, s);
      ClaimsOf(inst, all[n - 1]);
      var between := ScanOne(socket, inst, views, s, all[n - 1].appliedHostname);
      LookOne(socket, inst, views, all, n, s, all[n - 1].appliedHostname);
      LookOne(socket, inst, views, all, n, between, all[n - 1].pendingHostname);
    }
  }

  lemma ClaimsOf(inst: Instance, r: Route)
    requires OwnedClaims(inst, r)
    ensures r.appliedHostname != "" ==> r.appliedHostname in Owned(inst) && ClaimsHost(r, r.appliedHostname)
    ensures r.pendingHostname != "" ==> r.pendingHostname in Owned(inst) && ClaimsHost(r, r.pendingHostname)
  {
  }

  lemma LookedNext(views: seq<View>, all: seq<Route>, n: nat, s: Scan)
    requires 0 < n <= |all| && Looked(views, all, n - 1, s)
    requires n > 1 ==> forall host :: ClaimsHost(all[n - 2], host) && ExactRows(views, host) != [] ==> host in s.seen
    ensures Looked(views, all, n, s)
  {
    hide ExactRows, ClaimsHost;
    forall host | host in s.seen ensures Claimed(all, n, host) {
      var i :| 0 <= i < n - 1 && i < |all| && ClaimsHost(all[i], host);
    }
  }

  /** The conflicts are reported in the order of the records, current routes first. */
  lemma ReportedInRecordOrder(socket: SocketPath, reader: Reader, inst: Instance, config: Object)
    ensures InRecordOrder(inst.routes + inst.retired, Conflicts(socket, reader, inst, config))
  {
    hide Views, Owned, ExactRows, ScanRoutes;
    ClaimsAreOwned(inst);
    var all := inst.routes + inst.retired;
    LooksInOrder(socket, inst, Views(reader, RowsOf(config)), all, |all|);
    assert all[..|all|] == all;
  }

  // ---- Acknowledged records ------------------------------------------------

  /** Acknowledging changes nothing but the services on record for selected hostnames. */
  lemma AcknowledgedExactly(selected: map<string, string>, routes: seq<Route>, i: nat)
    requires i < |routes|
    ensures |AcknowledgeAll(selected, routes)| == |routes|
    ensures var was := routes[i];
            AcknowledgeAll(selected, routes)[i]
            == was.(appliedService := if was.appliedHostname in selected then selected[was.appliedHostname]
                                      else was.appliedService,
                    pendingService := if was.pendingHostname in selected then selected[was.pendingHostname]
                                      else was.pendingService)
  {
  }
}
