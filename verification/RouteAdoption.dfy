/** What adopting a row of the cloud table into a new route is worth
    (internal/tunnel/api_routes.go): the next merge of that table takes the row over. */
module RouteAdoption {
  import opened Wrappers
  import opened JsonDocs
  import opened Ingress
  import opened IngressLaws
  import opened IngressSync
  import opened IngressRetries
  import opened IngressRows
  import opened RemoteRoutes
  import opened RouteEdits

  // ---- Which row is adopted ------------------------------------------------

  /** A row that is on offer under its hostname: no path, and an HTTP or HTTPS
      service without credentials. */
  predicate OnOffer(reader: Reader, row: Json, host: string) {
    && Exact(row, host) && host != ""
    && reader.url(Service(row)).Some?
    && reader.url(Service(row)).value.scheme in {"http", "https"} && !reader.url(Service(row)).value.hasUser
  }

  lemma {:induction false} OffersFound(reader: Reader, rows: Rows, host: string)
    ensures forall j :: 0 <= j < |rows| && OnOffer(reader, rows[j], host) ==>
                          ViewOf(reader, rows[j]) in Adoptable(Views(reader, rows), host)
  {
    if rows != [] {
      assert Views(reader, rows)[1..] == Views(reader, rows[1..]);
      OffersFound(reader, rows[1..], host);
      forall j | 0 <= j < |rows| && OnOffer(reader, rows[j], host)
        ensures ViewOf(reader, rows[j]) in Adoptable(Views(reader, rows), host)
      {
        assert j > 0 ==> rows[j] == rows[1..][j - 1];
      }
    }
  }

  /** The one view that adoption accepts is that of the only row on offer, and it
      shows the service of the row unchanged. */
  lemma {:induction false} OnlyOffer(reader: Reader, rows: Rows, host: string) returns (k: nat)
    requires |Adoptable(Views(reader, rows), host)| == 1
    ensures k < |rows| && Adoptable(Views(reader, rows), host)[0] == ViewOf(reader, rows[k])
    ensures OnOffer(reader, rows[k], host) && ViewOf(reader, rows[k]).service == Service(rows[k])
    ensures forall j :: 0 <= j < |rows| && OnOffer(reader, rows[j], host) ==> j == k
  {
    assert Views(reader, rows)[1..] == Views(reader, rows[1..]);
    assert forall j :: 0 < j < |rows| ==> rows[j] == rows[1..][j - 1];
    if OnOffer(reader, rows[0], host) {
      k := 0;
      OffersFound(reader, rows[1..], host);
    } else {
      var later := OnlyOffer(reader, rows[1..], host);
      k := later + 1;
    }
  }

  // ---- Where the claims of a saved list come from --------------------------

  /** A new route that claims nothing, or just the row it adopted. */
  predicate AdoptsOrNothing(env: Env, inst: Instance, r: Route) {
    && r.pendingHostname == "" && r.pendingService == ""
    && (r.appliedHostname != "" ==>
          && env.cloud.Some?
          && (var found := Adoptable(Views(env.reader, RowsOf(env.cloud.value)), r.appliedHostname);
              |found| == 1 && r.appliedService == found[0].service)
          && forall q :: q in inst.routes ==> q.appliedHostname != r.appliedHostname)
  }

  /** What a submitted item makes of the claims: those of the known route it edits, or
      those of a new route. */
  predicate FromItem(env: Env, inst: Instance, item: RouteInput, r: Route) {
    if item.id in ByID(inst.routes) then
      item.adoptHostname == "" && SameClaims(r, ByID(inst.routes)[item.id])
    else
      AdoptsOrNothing(env, inst, r) && r.appliedHostname == item.adoptHostname
  }

  lemma AdoptedClaims(env: Env, inst: Instance, route: Route, item: RouteInput)
    requires route.appliedHostname == "" && route.pendingHostname == "" && route.pendingService == ""
    requires Adopt(env, inst, route, item, false).Ok?
    ensures var r := Adopt(env, inst, route, item, false).value;
            AdoptsOrNothing(env, inst, r) && r.appliedHostname == item.adoptHostname
    ensures item.adoptHostname != "" ==> env.cloud.Some?
  {
    if item.adoptHostname != "" {
      var _ := OnlyOffer(env.reader, RowsOf(env.cloud.value), item.adoptHostname);
    }
  }

  lemma EditOneOrigin(env: Env, inst: Instance, e: Edit, item: RouteInput)
    requires DistinctRoutes(inst.routes) && EditOne(env, inst, e, item).Ok?
    ensures var now := EditOne(env, inst, e, item).value.desired;
            && now != [] && now[..|now| - 1] == e.desired && FromItem(env, inst, item, now[|now| - 1])
            && (DistinctRoutes(e.desired) ==> DistinctRoutes(now))
    ensures item.adoptHostname != "" ==> env.cloud.Some?
  {
    hide Views, Adoptable, AdoptsOrNothing, Adopt, EditOne, ByID, DistinctRoutes, Ids, Hostnames;
    var known := item.id in ByID(inst.routes);
    var was, settled := EditOneShape(env, inst, e, item);
    AdoptKeepsRest(env, inst, settled, item, known);
    if DistinctRoutes(e.desired) {
      DistinctSnoc(e.desired, Adopt(env, inst, settled, item, known).value);
    }
    if known {
      KnownAdoptNothing(env, inst, settled, item);
    } else {
      AdoptedClaims(env, inst, settled, item);
    }
  }

  lemma KnownAdoptNothing(env: Env, inst: Instance, route: Route, item: RouteInput)
    requires Adopt(env, inst, route, item, true).Ok?
    ensures item.adoptHostname == ""
  {
  }

  /** The saved routes come from the items, one by one. */
  ghost predicate FromItems(env: Env, inst: Instance, items: seq<RouteInput>, now: seq<Route>) {
    && |now| == |items| && DistinctRoutes(now)
    && forall i :: 0 <= i < |items| ==>
                     FromItem(env, inst, items[i], now[i]) && (items[i].adoptHostname != "" ==> env.cloud.Some?)
  }

  lemma FromItemsSnoc(env: Env, inst: Instance, items: seq<RouteInput>, now: seq<Route>, item: RouteInput, r: Route)
    requires FromItems(env, inst, items, now) && FromItem(env, inst, item, r) && DistinctRoutes(now + [r])
    requires item.adoptHostname != "" ==> env.cloud.Some?
    ensures FromItems(env, inst, items + [item], now + [r])
  {
    hide FromItem, DistinctRoutes;
  }

  lemma {:induction false} EditAllOrigins(env: Env, inst: Instance, items: seq<RouteInput>)
    requires DistinctRoutes(inst.routes) && EditAll(env, inst, items).Ok?
    ensures FromItems(env, inst, items, EditAll(env, inst, items).value.desired)
  {
    hide FromItem, EditOne;
    if items != [] {
      var n := |items| - 1;
      EditAllOrigins(env, inst, items[..n]);
      EditOneOrigin(env, inst, EditAll(env, inst, items[..n]).value, items[n]);
      var now := EditAll(env, inst, items).value.desired;
      assert now == now[..|now| - 1] + [now[|now| - 1]] && items == items[..n] + [items[n]];
      FromItemsSnoc(env, inst, items[..n], now[..|now| - 1], items[n], now[|now| - 1]);
    }
  }

  // ---- Who claims the hostname after the save ------------------------------

  predicate KnownPends(inst: Instance, item: RouteInput, host: string) {
    item.id in ByID(inst.routes) && ByID(inst.routes)[item.id].pendingHostname == host
  }

  /** An item whose route claims a hostname that no record has applied: it adopts the
      row, or it edits a route that has the hostname pending. */
  predicate ItemClaims(inst: Instance, item: RouteInput, host: string) {
    item.adoptHostname == host || KnownPends(inst, item, host)
  }

  /** No item after this one claims the hostname. */
  predicate NoneAfter(inst: Instance, items: seq<RouteInput>, at: int, host: string) {
    forall j :: 0 <= j < |items| && at < j ==> !ItemClaims(inst, items[j], host)
  }

  /** The last item to claim the hostname edits a route that has it pending and knows
      the service neither as applied nor as pending. */
  predicate Outclaimed(inst: Instance, items: seq<RouteInput>, host: string, service: string) {
    exists at :: && 0 <= at < |items| && KnownPends(inst, items[at], host) && NoneAfter(inst, items, at, host)
                 && ByID(inst.routes)[items[at].id].appliedService != service
                 && ByID(inst.routes)[items[at].id].pendingService != service
  }

  lemma ClaimsByItem(env: Env, inst: Instance, item: RouteInput, r: Route, host: string)
    requires FromItem(env, inst, item, r) && host != "" && DistinctRoutes(inst.routes)
    requires forall q :: q in inst.routes ==> q.appliedHostname != host
    ensures ClaimsHost(r, host) <==> ItemClaims(inst, item, host)
  {
    hide Views, Adoptable, ByID;
    ByIDFinds(inst.routes);
  }

  // ---- What the merge makes of it ------------------------------------------

  /** A route that adopted the row knows its service. */
  lemma AdopterKnows(env: Env, inst: Instance, k: nat, item: RouteInput, r: Route)
    requires env.cloud.Some? && FromItem(env, inst, item, r) && item.adoptHostname != ""
    requires var rows := RowsOf(env.cloud.value);
             && k < |rows|
             && forall j :: 0 <= j < |rows| && OnOffer(env.reader, rows[j], item.adoptHostname) ==> j == k
    ensures r.appliedService == Service(RowsOf(env.cloud.value)[k])
  {
    hide Views, Adoptable;
    var _ := OnlyOffer(env.reader, RowsOf(env.cloud.value), item.adoptHostname);
  }

  /** The row that a saved item adopts is the only one on offer under its hostname, and
      nobody has the hostname applied. */
  lemma AdoptedOffer(env: Env, inst: Instance, items: seq<RouteInput>, i: nat, now: Instance) returns (k: nat)
    requires DistinctRoutes(inst.routes) && Save(env, inst, items) == Ok(now)
    requires i < |items| && items[i].adoptHostname != ""
    ensures env.cloud.Some? && FromItems(env, inst, items, now.routes)
    ensures forall q :: q in inst.routes ==> q.appliedHostname != items[i].adoptHostname
    ensures var rows, host := RowsOf(env.cloud.value), items[i].adoptHostname;
            && k < |rows| && OnOffer(env.reader, rows[k], host)
            && forall j :: 0 <= j < |rows| && OnOffer(env.reader, rows[j], host) ==> j == k
  {
    hide Views, Adoptable, DistinctRoutes, EditAll, OnOffer, ByID;
    EditAllOrigins(env, inst, items);
    assert FromItem(env, inst, items[i], now.routes[i]);
    k := OnlyOffer(env.reader, RowsOf(env.cloud.value), items[i].adoptHostname);
  }

  /** Main result 13. The row that a saved item adopts is the only one on offer under
      its hostname, and the last item to claim the hostname owns it: the item's own
      route exactly when no later item claims it. */
  lemma AdoptedRowIsOwned(env: Env, inst: Instance, items: seq<RouteInput>, i: nat, now: Instance)
    returns (k: nat, at: nat)
    requires DistinctRoutes(inst.routes) && Save(env, inst, items) == Ok(now)
    requires i < |items| && items[i].adoptHostname != ""
    ensures env.cloud.Some? && |now.routes| == |items|
    ensures var rows, host := RowsOf(env.cloud.value), items[i].adoptHostname;
            && k < |rows| && OnOffer(env.reader, rows[k], host)
            && (forall j :: 0 <= j < |rows| && OnOffer(env.reader, rows[j], host) ==> j == k)
            && i <= at < |items| && ItemClaims(inst, items[at], host) && NoneAfter(inst, items, at, host)
            && host in Owned(now) && Owned(now)[host] == now.routes[at]
            && (Owned(now)[host] == now.routes[i] <==> NoneAfter(inst, items, i, host))
            && (items[at].id in ByID(inst.routes) ==> items[at].adoptHostname == "")
            && (items[at].adoptHostname == host ==> now.routes[at].appliedService == Service(rows[k]))
            && (items[at].adoptHostname != host ==>
                  KnownPends(inst, items[at], host) && SameClaims(now.routes[at], ByID(inst.routes)[items[at].id]))
  {
    hide Views, Adoptable, EditAll, Bind, AdoptsOrNothing, OnOffer, ByID;
    var host := items[i].adoptHostname;
    k := AdoptedOffer(env, inst, items, i, now);
    forall j | 0 <= j < |items| ensures ClaimsHost(now.routes[j], host) <==> ItemClaims(inst, items[j], host) {
      ClaimsByItem(env, inst, items[j], now.routes[j], host);
    }
    at := LastCurrentClaimant(now, i, host);
    if items[at].adoptHostname == host {
      AdopterKnows(env, inst, k, items[at], now.routes[at]);
    }
  }

  /** The row is refused as changed exactly when it is outclaimed, and never as
      foreign. */
  lemma AdoptedRowIsRefusedExactlyWhen(env: Env, inst: Instance, items: seq<RouteInput>, i: nat, now: Instance)
    returns (k: nat, at: nat)
    requires DistinctRoutes(inst.routes) && Save(env, inst, items) == Ok(now)
    requires i < |items| && items[i].adoptHostname != ""
    ensures env.cloud.Some? && k < |RowsOf(env.cloud.value)| && at < |now.routes| && |now.routes| == |items|
    ensures OnOffer(env.reader, RowsOf(env.cloud.value)[k], items[i].adoptHostname)
    ensures items[i].adoptHostname in Owned(now) && Owned(now)[items[i].adoptHostname] == now.routes[at]
    ensures now.routes[at] == now.routes[i] <==> NoneAfter(inst, items, i, items[i].adoptHostname)
    ensures forall done ::
              var row := RowsOf(env.cloud.value)[k];
              && Misfit(PlanOf(now), done, row) in {None, Some(ServiceChanged), Some(DuplicateHost)}
              && (Misfit(PlanOf(now), done, row) == Some(ServiceChanged)
                  <==> Outclaimed(inst, items, items[i].adoptHostname, Service(row)))
  {
    hide Views, Adoptable, EditAll, Bind, DistinctRoutes, Save, Taken, Hostnames;
    k, at := AdoptedRowIsOwned(env, inst, items, i, now);
    var row, host := RowsOf(env.cloud.value)[k], items[i].adoptHostname;
    OutclaimedByLast(env, inst, items, now.routes, at, host, Service(row));
  }

  lemma OutclaimedByLast(env: Env, inst: Instance, items: seq<RouteInput>, now: seq<Route>, at: nat, host: string,
                         service: string)
    requires |now| == |items| && at < |items|
    requires ItemClaims(inst, items[at], host) && NoneAfter(inst, items, at, host)
    requires items[at].adoptHostname == host ==> now[at].appliedService == service
    requires items[at].adoptHostname != host ==> SameClaims(now[at], ByID(inst.routes)[items[at].id])
    requires items[at].id in ByID(inst.routes) ==> items[at].adoptHostname == ""
    requires host != ""
    ensures Outclaimed(inst, items, host, service)
            <==> now[at].appliedService != service && now[at].pendingService != service
  {
    hide ByID;
    if Outclaimed(inst, items, host, service) {
      var other :| && 0 <= other < |items|
                   && KnownPends(inst, items[other], host) && NoneAfter(inst, items, other, host)
                   && ByID(inst.routes)[items[other].id].appliedService != service
                   && ByID(inst.routes)[items[other].id].pendingService != service;
      assert other == at;
    }
  }

  lemma LastCurrentClaimant(now: Instance, i: nat, host: string) returns (at: nat)
    requires i < |now.routes| && ClaimsHost(now.routes[i], host)
    ensures at < |now.routes| && ClaimsHost(now.routes[at], host)
    ensures host in Owned(now) && Owned(now)[host] == now.routes[at]
    ensures forall j :: at < j < |now.routes| ==> !ClaimsHost(now.routes[j], host)
  {
    hide Bind;
    var all, first := now.retired + now.routes, |now.retired|;
    var last := BindIsLastClaimant(all, host);
    assert forall j :: 0 <= j < |now.routes| ==> all[first + j] == now.routes[j];
    assert ClaimsHost(all[first + i], host);
    at := last - first;
  }

  /** The next merge of the table: it is refused when the adopted row is outclaimed, and
      if it succeeds, the row is kept with the new hostname and service of its owner, in
      the one row of that hostname. The owner is the item's own route exactly when no
      later item claims the hostname. */
  lemma AdoptedRowIsTakenOver(env: Env, inst: Instance, items: seq<RouteInput>, i: nat, now: Instance)
    returns (k: nat, owner: Route)
    requires DistinctRoutes(inst.routes) && NewIDsAreNew(env, inst) && ValidatesTargets(env)
    requires Save(env, inst, items) == Ok(now)
    requires i < |items| && items[i].adoptHostname != ""
    ensures env.cloud.Some? && owner in now.routes && |now.routes| == |items|
    ensures k < |RowsOf(env.cloud.value)| && OnOffer(env.reader, RowsOf(env.cloud.value)[k], items[i].adoptHostname)
    ensures owner == now.routes[i] <==> NoneAfter(inst, items, i, items[i].adoptHostname)
    ensures var merged := Merge(env.socket, now, env.cloud.value);
            && (Outclaimed(inst, items, items[i].adoptHostname, Service(RowsOf(env.cloud.value)[k])) ==> merged.Err?)
            && (merged.Ok? ==>
                  && TableOf(merged.value).Some? && Count(TableOf(merged.value).value, owner.hostname) == 1
                  && exists row :: row in TableOf(merged.value).value && Exact(row, owner.hostname)
                                   && Says(env.socket, row, Members(RowsOf(env.cloud.value)[k]), owner))
  {
    hide Adoptable, Views, EditAll, Bind, ByID, Finish, MergeRows, UpdatedEntry, DistinctRoutes, Count, Outclaimed;
    hide Misfit, Hostnames, NoneAfter, Says, ValidRoutes;
    var at;
    k, at := AdoptedRowIsRefusedExactlyWhen(env, inst, items, i, now);
    owner := now.routes[at];
    SavedRoutesAreValid(env, inst, items);
    var rows := RowsOf(env.cloud.value);
    if Merge(env.socket, now, env.cloud.value).Ok? {
      var out, row := DesiredRowsSay(env.socket, now, env.cloud.value, at);
      assert BelongsTo(now, rows[k], owner.id);
      var table := MergedTable(env.socket, now, env.cloud.value);
      PlanIsValid(now);
      MergeDecided(env.socket, PlanOf(now), rows);
      assert Misfit(PlanOf(now), rows[..k], rows[k]).None?;
    }
  }

  lemma SavedRoutesAreValid(env: Env, inst: Instance, items: seq<RouteInput>)
    requires DistinctRoutes(inst.routes) && NewIDsAreNew(env, inst) && ValidatesTargets(env)
    requires Save(env, inst, items).Ok?
    ensures ValidRoutes(Save(env, inst, items).value.routes)
  {
    hide EditAll, Descends;
    EditAllKeeps(env, inst, items);
  }
}
