/** What the rows of desired hostnames say after a merge, member by member
    (internal/tunnel/routes.go). */
module IngressRows {
  import opened Wrappers
  import opened JsonDocs
  import opened Ingress
  import opened IngressLaws
  import opened IngressSync
  import opened IngressRetries

  // ---- One row -------------------------------------------------------------

  /** The origin request that publishes the route where `before` was: TLS verification
      as the route wants it; a site is asked for by the hostname; and for a URL the host
      header stays what it was, unless it was the one written for a site under the
      hostname applied before. */
  ghost predicate OriginSays(origin: Object, before: Object, route: Route) {
    && "noTLSVerify" in origin && origin["noTLSVerify"] == JBool(route.skipTLSVerify)
    && (if route.target == "site" then
          "httpHostHeader" in origin && origin["httpHostHeader"] == JStr(route.hostname)
        else if "unix:" <= route.appliedService && StringAt(before, "httpHostHeader") == route.appliedHostname then
          "httpHostHeader" !in origin
        else
          && ("httpHostHeader" in origin <==> "httpHostHeader" in before)
          && ("httpHostHeader" in origin ==> origin["httpHostHeader"] == before["httpHostHeader"]))
    && forall option :: option != "noTLSVerify" && option != "httpHostHeader" ==>
                          && (option in origin <==> option in before)
                          && (option in origin ==> origin[option] == before[option])
  }

  /** The row publishes the route in place of a row with these members. */
  ghost predicate Says(socket: SocketPath, row: Json, was: Object, route: Route) {
    && row.JObj? && {"hostname", "service", "originRequest"} <= row.members.Keys
    && row.members["hostname"] == JStr(route.hostname)
    && row.members["service"] == JStr(if route.target == "site" then "unix:" + socket(route.siteId) else route.url)
    && row.members["originRequest"].JObj?
    && OriginSays(row.members["originRequest"].members, ObjectAt(was, "originRequest"), route)
    && forall key :: key !in {"hostname", "service", "originRequest"} ==>
                       && (key in row.members <==> key in was)
                       && (key in was ==> row.members[key] == was[key])
  }

  lemma UpdatedOriginSays(origin: Object, route: Route)
    ensures OriginSays(UpdatedOrigin(origin, route), origin, route)
  {
  }

  lemma UpdatedEntrySays(socket: SocketPath, was: Object, route: Route)
    ensures Says(socket, UpdatedEntry(socket, was, route), was, route)
  {
    hide OriginSays, UpdatedOrigin;
    UpdatedOriginSays(ObjectAt(was, "originRequest"), route);
  }

  // ---- Rows of a merge -----------------------------------------------------

  lemma OwnedStep(socket: SocketPath, plan: Plan, p: Progress, row: Json)
    requires Managed(row, plan.owned.Keys) && plan.owned[Host(row)].id in plan.byID
    requires MergeOne(socket, plan, p, row).Ok?
    ensures UpdatedEntry(socket, Members(row), plan.byID[plan.owned[Host(row)].id])
            in MergeOne(socket, plan, p, row).value.out
  {
    hide UpdatedEntry, NewRows;
  }

  lemma FinishGrows(socket: SocketPath, plan: Plan, p: Progress)
    ensures p.out <= Finish(socket, plan, p)
  {
    hide NewRows;
  }

  /** A successful merge updates every row that a current route owns. */
  lemma OwnedRowIsUpdated(socket: SocketPath, plan: Plan, rows: Rows, k: nat)
    requires MergeRows(socket, plan, rows).Ok? && k < |rows|
    requires Managed(rows[k], plan.owned.Keys) && plan.owned[Host(rows[k])].id in plan.byID
    ensures UpdatedEntry(socket, Members(rows[k]), plan.byID[plan.owned[Host(rows[k])].id])
            in Finish(socket, plan, MergeRows(socket, plan, rows).value)
  {
    hide UpdatedEntry, NewRows, MergeOne, Finish, MergeRows, Managed;
    OutOnlyGrows(socket, plan, rows, k);
    OutOnlyGrows(socket, plan, rows, k + 1);
    var p := MergeRows(socket, plan, rows[..k]).value;
    MergeNext(socket, plan, rows, k, p);
    OwnedStep(socket, plan, p, rows[k]);
    FinishGrows(socket, plan, MergeRows(socket, plan, rows).value);
  }

  /** All rows of the route's hostname are new ones. */
  ghost predicate NewlyMade(socket: SocketPath, out: Rows, route: Route) {
    forall row :: row in out && Exact(row, route.hostname) ==> row == UpdatedEntry(socket, map[], route)
  }

  lemma {:induction false} NewRowsAreNew(socket: SocketPath, routes: seq<Route>, seen: set<string>, route: Route)
    requires forall r :: r in routes && r.hostname == route.hostname ==> r == route
    ensures NewlyMade(socket, NewRows(socket, routes, seen), route)
  {
    hide UpdatedEntry;
    if routes != [] {
      var now := if routes[0].hostname in seen then seen else seen + {routes[0].hostname};
      NewRowsAreNew(socket, routes[1..], now, route);
      UpdatedEntryReads(socket, map[], routes[0]);
    }
  }

  lemma NewStep(socket: SocketPath, plan: Plan, p: Progress, row: Json, route: Route)
    requires ValidPlan(plan) && route in plan.routes && NewlyMade(socket, p.out, route)
    requires !OwnedBy(plan, row, route.id) && MergeOne(socket, plan, p, row).Ok?
    ensures NewlyMade(socket, MergeOne(socket, plan, p, row).value.out, route)
  {
    hide UpdatedEntry, NewRows;
    NewRowsAreNew(socket, plan.routes, p.seen, route);
    if Managed(row, plan.owned.Keys) && plan.owned[Host(row)].id in plan.byID {
      UpdatedEntryReads(socket, Members(row), plan.byID[plan.owned[Host(row)].id]);
    }
  }

  lemma {:induction false} UnownedRowsAreNew(socket: SocketPath, plan: Plan, rows: Rows, route: Route)
    requires ValidPlan(plan) && route in plan.routes && MergeRows(socket, plan, rows).Ok?
    requires forall row :: row in rows ==> !OwnedBy(plan, row, route.id)
    ensures NewlyMade(socket, MergeRows(socket, plan, rows).value.out, route)
  {
    hide MergeOne, UpdatedEntry, OwnedBy, ValidPlan;
    if rows != [] {
      var n := |rows| - 1;
      UnownedRowsAreNew(socket, plan, rows[..n], route);
      NewStep(socket, plan, MergeRows(socket, plan, rows[..n]).value, rows[n], route);
    }
  }

  lemma FinishNew(socket: SocketPath, plan: Plan, p: Progress, route: Route)
    requires ValidPlan(plan) && route in plan.routes && NewlyMade(socket, p.out, route)
    ensures NewlyMade(socket, Finish(socket, plan, p), route)
  {
    hide UpdatedEntry, NewRows;
    NewRowsAreNew(socket, plan.routes, p.seen, route);
  }

  lemma {:induction false} OnlyOneCounted(rows: Rows, host: string, a: Json, b: Json)
    requires Count(rows, host) <= 1 && a in rows && b in rows && Exact(a, host) && Exact(b, host)
    ensures a == b
  {
    hide Exact;
    CountZero(rows[1..], host);
    if a in rows[1..] && b in rows[1..] {
      OnlyOneCounted(rows[1..], host, a, b);
    }
  }

  /** The row stands under a hostname, without a path, that the record of this ID owns. */
  predicate BelongsTo(inst: Instance, row: Json, id: string) {
    && StringAt(Members(row), "path") == "" && StringAt(Members(row), "hostname") in Owned(inst)
    && Owned(inst)[StringAt(Members(row), "hostname")].id == id
  }

  /** Main result. After a successful merge every desired hostname has exactly one row
      without a path, and that row says what its route says, in place of the row that
      belonged to the route before, or as a new row when there was none. */
  lemma DesiredRowsSay(socket: SocketPath, inst: Instance, config: Object, i: nat) returns (out: Rows, row: Json)
    requires ValidRoutes(inst.routes) && i < |inst.routes|
    requires Merge(socket, inst, config).Ok?
    ensures Merge(socket, inst, config).value == config["ingress" := JArr(out)] && TableOf(config).Some?
    ensures row in out && Count(out, inst.routes[i].hostname) == 1 && Exact(row, inst.routes[i].hostname)
    ensures var rows, route := TableOf(config).value, inst.routes[i];
            if exists k :: 0 <= k < |rows| && BelongsTo(inst, rows[k], route.id) then
              forall k :: 0 <= k < |rows| && BelongsTo(inst, rows[k], route.id) ==>
                            Says(socket, row, Members(rows[k]), route)
            else Says(socket, row, map[], route)
  {
    hide Says, UpdatedEntry, NewRows, Bind, ByID, MergeOne, MergeRows, Finish, Hostnames, ValidRoutes, Count, Exact;
    hide Placed, Published, ValidPlan;
    var plan, rows, route := PlanOf(inst), TableOf(config).value, inst.routes[i];
    PlanIsValid(inst);
    PlanFinds(plan, i);
    out := MergedTable(socket, inst, config);
    RowOfCounted(out, route.hostname);
    row :| row in out && Exact(row, route.hostname);
    assert out == Finish(socket, plan, MergeRows(socket, plan, rows).value);
    if exists k :: 0 <= k < |rows| && BelongsTo(inst, rows[k], route.id) {
      forall k | 0 <= k < |rows| && BelongsTo(inst, rows[k], route.id)
        ensures Says(socket, row, Members(rows[k]), route)
      {
        OwnedRowIsUpdated(socket, plan, rows, k);
        var updated := UpdatedEntry(socket, Members(rows[k]), route);
        UpdatedRowIsExact(socket, Members(rows[k]), route);
        OnlyOneCounted(out, route.hostname, row, updated);
        UpdatedEntrySays(socket, Members(rows[k]), route);
      }
    } else {
      NoneOwned(inst, rows, route.id);
      UnownedRowsAreNew(socket, plan, rows, route);
      FinishNew(socket, plan, MergeRows(socket, plan, rows).value, route);
      UpdatedEntrySays(socket, map[], route);
    }
  }

  lemma NoneOwned(inst: Instance, rows: Rows, id: string)
    requires !exists k :: 0 <= k < |rows| && BelongsTo(inst, rows[k], id)
    ensures forall row :: row in rows ==> !OwnedBy(PlanOf(inst), row, id)
  {
    hide Bind;
    forall row | row in rows ensures !OwnedBy(PlanOf(inst), row, id) {
      var k :| 0 <= k < |rows| && rows[k] == row;
      assert !BelongsTo(inst, rows[k], id);
    }
  }

  lemma PlanFinds(plan: Plan, i: nat)
    requires ValidPlan(plan) && i < |plan.routes|
    ensures plan.routes[i].id in plan.byID && plan.byID[plan.routes[i].id] == plan.routes[i]
  {
  }

  lemma UpdatedRowIsExact(socket: SocketPath, was: Object, route: Route)
    requires StringAt(was, "path") == ""
    ensures Exact(UpdatedEntry(socket, was, route), route.hostname)
  {
    UpdatedEntryReads(socket, was, route);
  }

  lemma RowOfCounted(rows: Rows, host: string)
    requires Count(rows, host) == 1
    ensures exists row :: row in rows && Exact(row, host)
  {
    CountZero(rows, host);
  }

  // ---- Places --------------------------------------------------------------

  /** What a row of the table becomes: nothing when the route that owned it is gone, the
      updated row of that route, and itself when nobody owns it. */
  function Becomes(socket: SocketPath, plan: Plan, row: Json): Option<Json> {
    if !Managed(row, plan.owned.Keys) then Some(row)
    else if plan.owned[Host(row)].id !in plan.byID then None
    else Some(UpdatedEntry(socket, Members(row), plan.byID[plan.owned[Host(row)].id]))
  }

  /** `at` says where each row went: in the order of the table, and nowhere when it is
      dropped. */
  ghost predicate InPlace(socket: SocketPath, plan: Plan, rows: Rows, out: Rows, at: seq<int>) {
    && |at| == |rows|
    && (forall k :: 0 <= k < |rows| ==>
                      if Becomes(socket, plan, rows[k]).None? then at[k] == -1
                      else 0 <= at[k] < |out| && out[at[k]] == Becomes(socket, plan, rows[k]).value)
    && (forall j, k :: 0 <= j < k < |rows| && at[j] != -1 && at[k] != -1 ==> at[j] < at[k])
  }

  lemma StepAppends(socket: SocketPath, plan: Plan, p: Progress, row: Json)
    requires MergeOne(socket, plan, p, row).Ok?
    ensures var out := MergeOne(socket, plan, p, row).value.out;
            && p.out <= out
            && (Becomes(socket, plan, row).Some? ==>
                  |p.out| < |out| && out[|out| - 1] == Becomes(socket, plan, row).value)
  {
    hide UpdatedEntry, NewRows;
  }

  lemma InPlaceLater(socket: SocketPath, plan: Plan, rows: Rows, out: Rows, more: Rows, at: seq<int>)
    requires InPlace(socket, plan, rows, out, at) && out <= more
    ensures InPlace(socket, plan, rows, more, at)
  {
    hide Becomes;
  }

  lemma InPlaceNext(socket: SocketPath, plan: Plan, rows: Rows, out: Rows, at: seq<int>, more: Rows)
    requires rows != [] && InPlace(socket, plan, rows[..|rows| - 1], out, at) && out <= more
    requires var last := Becomes(socket, plan, rows[|rows| - 1]);
             last.Some? ==> |out| < |more| && more[|more| - 1] == last.value
    ensures InPlace(socket, plan, rows, more,
                    at + [if Becomes(socket, plan, rows[|rows| - 1]).None? then -1 else |more| - 1])
  {
    hide Becomes;
    var n := |rows| - 1;
    assert forall k :: 0 <= k < n ==> rows[..n][k] == rows[k];
  }

  lemma {:induction false} RowsStayInPlace(socket: SocketPath, plan: Plan, rows: Rows) returns (at: seq<int>)
    requires MergeRows(socket, plan, rows).Ok?
    ensures InPlace(socket, plan, rows, MergeRows(socket, plan, rows).value.out, at)
  {
    hide MergeOne, Becomes;
    if rows == [] {
      at := [];
    } else {
      var n := |rows| - 1;
      var before := MergeRows(socket, plan, rows[..n]).value;
      at := RowsStayInPlace(socket, plan, rows[..n]);
      StepAppends(socket, plan, before, rows[n]);
      var out := MergeOne(socket, plan, before, rows[n]).value.out;
      InPlaceNext(socket, plan, rows, before.out, at, out);
      at := at + [if Becomes(socket, plan, rows[n]).None? then -1 else |out| - 1];
    }
  }

  /** Every row that stays, updated or not, keeps its place among the others. */
  lemma MergeKeepsPlaces(socket: SocketPath, plan: Plan, rows: Rows) returns (at: seq<int>)
    requires MergeRows(socket, plan, rows).Ok?
    ensures InPlace(socket, plan, rows, Finish(socket, plan, MergeRows(socket, plan, rows).value), at)
  {
    hide MergeRows, Finish, InPlace;
    at := RowsStayInPlace(socket, plan, rows);
    var p := MergeRows(socket, plan, rows).value;
    FinishGrows(socket, plan, p);
    InPlaceLater(socket, plan, rows, p.out, Finish(socket, plan, p), at);
  }

  /** New rows come in the order of their routes. */
  lemma {:induction false} NewRowsInOrder(socket: SocketPath, routes: seq<Route>, seen: set<string>, a: nat, b: nat)
    returns (i: nat, j: nat)
    requires a < b < |NewRows(socket, routes, seen)|
    ensures i < j < |routes| && Says(socket, NewRows(socket, routes, seen)[a], map[], routes[i])
    ensures Says(socket, NewRows(socket, routes, seen)[b], map[], routes[j])
  {
    hide UpdatedEntry, Says;
    if routes[0].hostname in seen {
      i, j := NewRowsInOrder(socket, routes[1..], seen, a, b);
      i, j := i + 1, j + 1;
    } else {
      var later := seen + {routes[0].hostname};
      if a > 0 {
        i, j := NewRowsInOrder(socket, routes[1..], later, a - 1, b - 1);
        i, j := i + 1, j + 1;
      } else {
        i := 0;
        UpdatedEntrySays(socket, map[], routes[0]);
        j := NewRowFrom(socket, routes[1..], later, b - 1);
        j := j + 1;
      }
    }
  }

  lemma {:induction false} NewRowFrom(socket: SocketPath, routes: seq<Route>, seen: set<string>, b: nat)
    returns (j: nat)
    requires b < |NewRows(socket, routes, seen)|
    ensures j < |routes| && Says(socket, NewRows(socket, routes, seen)[b], map[], routes[j])
  {
    hide UpdatedEntry, Says;
    if routes[0].hostname in seen {
      j := NewRowFrom(socket, routes[1..], seen, b);
      j := j + 1;
    } else if b == 0 {
      j := 0;
      UpdatedEntrySays(socket, map[], routes[0]);
    } else {
      j := NewRowFrom(socket, routes[1..], seen + {routes[0].hostname}, b - 1);
      j := j + 1;
    }
  }

  /** A row that nobody claims and that no route wants: its hostname is neither owned nor
      desired, or it has a path. */
  predicate Untouchable(inst: Instance, row: Json) {
    || StringAt(Members(row), "path") != ""
    || (&& StringAt(Members(row), "hostname") !in Owned(inst)
        && forall r :: r in inst.routes ==> r.hostname != StringAt(Members(row), "hostname"))
  }

  /** Such rows come out as they were, one behind the other as before. */
  lemma OthersStayInPlace(socket: SocketPath, inst: Instance, config: Object) returns (out: Rows, at: seq<int>)
    requires ValidRoutes(inst.routes) && Merge(socket, inst, config).Ok?
    ensures Merge(socket, inst, config).value == config["ingress" := JArr(out)] && TableOf(config).Some?
    ensures var rows := TableOf(config).value;
            && |at| == |rows|
            && (forall k :: 0 <= k < |rows| && Untouchable(inst, rows[k]) ==>
                              0 <= at[k] < |out| && out[at[k]] == rows[k])
            && (forall j, k :: 0 <= j < k < |rows| && Untouchable(inst, rows[j]) && Untouchable(inst, rows[k]) ==>
                                 at[j] < at[k])
  {
    hide UpdatedEntry, Bind, ByID, MergeRows, Finish, Hostnames, ValidRoutes;
    var plan, rows := PlanOf(inst), TableOf(config).value;
    out := MergedTable(socket, inst, config);
    at := MergeKeepsPlaces(socket, plan, rows);
    assert forall k :: 0 <= k < |rows| && Untouchable(inst, rows[k]) ==>
                         Becomes(socket, plan, rows[k]) == Some(rows[k]);
  }

  // ---- Where the rows stand ------------------------------------------------

  lemma {:induction false} CountedBefore(rows: Rows, host: string) returns (k: nat)
    requires Count(BeforeCatchAll(rows), host) >= 1
    ensures k < |rows| && Exact(rows[k], host) && forall j :: 0 <= j <= k ==> !IsCatchAll(rows[j])
  {
    hide Exact;
    if Exact(rows[0], host) {
      k := 0;
    } else {
      k := CountedBefore(rows[1..], host);
      k := k + 1;
    }
  }

  lemma {:induction false} CountedOnce(rows: Rows, host: string, k: nat)
    requires Count(rows, host) == 1 && k < |rows| && Exact(rows[k], host)
    ensures forall j :: 0 <= j < |rows| && j != k ==> !Exact(rows[j], host)
  {
    hide Exact;
    CountZero(rows[1..], host);
    if k > 0 {
      assert rows[k] in rows[1..];
      CountedOnce(rows[1..], host, k - 1);
    }
  }

  /** Every desired hostname has one row without a path, and that stands before every row
      for all hostnames, of which there is one. */
  lemma DesiredRowStands(socket: SocketPath, inst: Instance, config: Object, i: nat) returns (out: Rows, k: nat)
    requires ValidRoutes(inst.routes) && i < |inst.routes|
    requires Merge(socket, inst, config).Ok?
    ensures Merge(socket, inst, config).value == config["ingress" := JArr(out)] && k < |out|
    ensures forall j :: 0 <= j < |out| ==>
                          (j == k <==> && StringAt(Members(out[j]), "hostname") == inst.routes[i].hostname
                                       && StringAt(Members(out[j]), "path") == "")
    ensures forall j :: 0 <= j < |out|
                        && StringAt(Members(out[j]), "hostname") == StringAt(Members(out[j]), "path") == "" ==>
                          k < j
    ensures exists j :: && 0 <= j < |out|
                        && StringAt(Members(out[j]), "hostname") == StringAt(Members(out[j]), "path") == ""
  {
    hide UpdatedEntry, Bind, ByID, MergeRows, Finish, Hostnames, ValidRoutes, Count, BeforeCatchAll, Published;
    out := MergedTable(socket, inst, config);
    var host := inst.routes[i].hostname;
    k := CountedBefore(out, host);
    CountedOnce(out, host, k);
    CountZero(out, "");
    var row :| row in out && Exact(row, "");
    var j :| 0 <= j < |out| && out[j] == row;
    assert IsCatchAll(out[j]);
  }
}
