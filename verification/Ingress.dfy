/** The exact-hostname merge of the desired tunnel routes into the ingress table
    kept by the cloud (internal/tunnel/routes.go). */
module Ingress {
  import opened Wrappers
  import opened JsonDocs

  datatype Route = Route(
    id: string,
    hostname: string,
    zoneId: string,
    target: string,
    siteId: string,
    url: string,
    skipTLSVerify: bool,
    appliedHostname: string,
    appliedService: string,
    appliedSkipTLSVerify: bool,
    pendingHostname: string,
    pendingService: string,
    dnsRecordId: string,
    dnsOwned: bool)

  datatype Instance = Instance(routes: seq<Route>, retired: seq<Route>)

  datatype MergeError = BadFormat | ServiceChanged | DuplicateHost | ForeignClash

  type Rows = seq<Json>

  /** The Unix socket a site listens on, as a function of the configuration
      directory and the site; its layout plays no part in the merge. */
  type SocketPath = string -> string

  function RouteService(socket: SocketPath, route: Route): string {
    if route.target == "site" then "unix:" + socket(route.siteId) else route.url
  }

  function Host(row: Json): string { StringAt(Members(row), "hostname") }

  function Service(row: Json): string { StringAt(Members(row), "service") }

  function Path(row: Json): string { StringAt(Members(row), "path") }

  predicate Exact(row: Json, host: string) { Host(row) == host && Path(row) == "" }

  predicate IsCatchAll(row: Json) { Exact(row, "") }

  const NOT_FOUND_ROW: Json := JObj(map["service" := JStr("http_status:404")])

  // ---- Ownership -----------------------------------------------------------

  function BindOne(owned: map<string, Route>, route: Route): map<string, Route> {
    var owned := if route.appliedHostname != "" then owned[route.appliedHostname := route] else owned;
    if route.pendingHostname != "" then owned[route.pendingHostname := route] else owned
  }

  function Bind(routes: seq<Route>): map<string, Route> {
    if routes == [] then map[] else BindOne(Bind(routes[..|routes| - 1]), routes[|routes| - 1])
  }

  /** Which route answers for each claimed hostname. Current routes come after
      the retired ones and win over them. */
  function Owned(inst: Instance): map<string, Route> {
    Bind(inst.retired + inst.routes)
  }

  method OwnedRouteBindings(inst: Instance) returns (owned: map<string, Route>)
    ensures owned == Owned(inst)
  {
    owned := map[];
    var all := inst.retired + inst.routes;
    for i := 0 to |all|
      invariant owned == Bind(all[..i])
    {
      assert all[..i + 1][..i] == all[..i];
      if all[i].appliedHostname != "" {
        owned := owned[all[i].appliedHostname := all[i]];
      }
      if all[i].pendingHostname != "" {
        owned := owned[all[i].pendingHostname := all[i]];
      }
    }
    assert all[..|all|] == all;
  }

  predicate ClaimsHost(route: Route, host: string) {
    host != "" && (route.appliedHostname == host || route.pendingHostname == host)
  }

  /** The meaning of the bindings: a hostname is owned exactly when some route
      claims it, and the last claimant in the list is the one that owns it. */
  lemma {:induction false} BindIsLastClaimant(routes: seq<Route>, host: string) returns (i: nat)
    ensures host !in Bind(routes) ==> forall j :: 0 <= j < |routes| ==> !ClaimsHost(routes[j], host)
    ensures host in Bind(routes) ==>
              && i < |routes| && ClaimsHost(routes[i], host) && Bind(routes)[host] == routes[i]
              && forall j :: i < j < |routes| ==> !ClaimsHost(routes[j], host)
  {
    i := 0;
    if routes != [] {
      var n := |routes| - 1;
      i := BindIsLastClaimant(routes[..n], host);
      assert forall j :: 0 <= j < n ==> routes[j] == routes[..n][j];
      if ClaimsHost(routes[n], host) {
        i := n;
      }
    }
  }

  // ---- Desired routes ------------------------------------------------------

  function ByID(routes: seq<Route>): map<string, Route> {
    if routes == [] then map[]
    else ByID(routes[..|routes| - 1])[routes[|routes| - 1].id := routes[|routes| - 1]]
  }

  method IndexByID(routes: seq<Route>) returns (byID: map<string, Route>)
    ensures byID == ByID(routes)
  {
    byID := map[];
    for i := 0 to |routes|
      invariant byID == ByID(routes[..i])
    {
      assert routes[..i + 1][..i] == routes[..i];
      byID := byID[routes[i].id := routes[i]];
    }
    assert routes[..|routes|] == routes;
  }

  function Hostnames(routes: seq<Route>): set<string> {
    set r | r in routes :: r.hostname
  }

  /** What the merge looks up: who owns a hostname, which current route has an
      ID, and which hostnames are desired. */
  datatype Plan = Plan(owned: map<string, Route>, byID: map<string, Route>, desired: set<string>, routes: seq<Route>)

  function PlanOf(inst: Instance): Plan {
    Plan(Owned(inst), ByID(inst.routes), Hostnames(inst.routes), inst.routes)
  }

  // ---- One entry -----------------------------------------------------------

  predicate HasPrefix(s: string, prefix: string) {
    prefix <= s
  }

  function UpdatedOrigin(origin: Object, route: Route): Object {
    var origin := origin["noTLSVerify" := JBool(route.skipTLSVerify)];
    if route.target == "site" then origin["httpHostHeader" := JStr(route.hostname)]
    else if HasPrefix(route.appliedService, "unix:") && StringAt(origin, "httpHostHeader") == route.appliedHostname
    then origin - {"httpHostHeader"}
    else origin
  }

  function UpdatedEntry(socket: SocketPath, original: Object, route: Route): Json {
    JObj(original["hostname" := JStr(route.hostname)]
                 ["service" := JStr(RouteService(socket, route))]
                 ["originRequest" := JObj(UpdatedOrigin(ObjectAt(original, "originRequest"), route))])
  }

  // ---- The merge as a specification ----------------------------------------

  datatype Progress = Progress(out: Rows, seen: set<string>, catchAll: bool)

  const START: Progress := Progress([], {}, false)

  /** Entries for the routes not seen yet, in the order of the routes. */
  function NewRows(socket: SocketPath, routes: seq<Route>, seen: set<string>): Rows {
    if routes == [] then []
    else if routes[0].hostname in seen then NewRows(socket, routes[1..], seen)
    else [UpdatedEntry(socket, map[], routes[0])] + NewRows(socket, routes[1..], seen + {routes[0].hostname})
  }

  function MergeOne(socket: SocketPath, plan: Plan, p: Progress, row: Json): Result<Progress, MergeError> {
    if Host(row) in plan.owned && Path(row) == "" then
      var previous := plan.owned[Host(row)];
      if previous.appliedService != Service(row) && previous.pendingService != Service(row) then Err(ServiceChanged)
      else if previous.id !in plan.byID then Ok(p)
      else
        var route := plan.byID[previous.id];
        if route.hostname in p.seen then Err(DuplicateHost)
        else Ok(Progress(p.out + [UpdatedEntry(socket, Members(row), route)], p.seen + {route.hostname}, p.catchAll))
    else if Host(row) in plan.desired && Path(row) == "" then Err(ForeignClash)
    else if IsCatchAll(row) then
      Ok(Progress(p.out + NewRows(socket, plan.routes, p.seen) + [row], p.seen + plan.desired, true))
    else
      Ok(p.(out := p.out + [row]))
  }

  function MergeRows(socket: SocketPath, plan: Plan, rows: Rows): Result<Progress, MergeError> {
    if rows == [] then Ok(START)
    else
      match MergeRows(socket, plan, rows[..|rows| - 1])
      case Err(e) => Err(e)
      case Ok(p) => MergeOne(socket, plan, p, rows[|rows| - 1])
  }

  function Finish(socket: SocketPath, plan: Plan, p: Progress): Rows {
    if p.catchAll then p.out else p.out + NewRows(socket, plan.routes, p.seen) + [NOT_FOUND_ROW]
  }

  /** The rows of a configuration: a missing or null table is an empty one, and
      every row must be an object or null. */
  function TableOf(config: Object): Option<Rows> {
    if "ingress" !in config || config["ingress"].JNull? then Some([])
    else if config["ingress"].JArr? && forall row :: row in config["ingress"].items ==> row.JObj? || row.JNull?
    then Some(config["ingress"].items)
    else None
  }

  function Merge(socket: SocketPath, inst: Instance, config: Object): Result<Object, MergeError> {
    match TableOf(config)
    case None => Err(BadFormat)
    case Some(rows) =>
      match MergeRows(socket, PlanOf(inst), rows)
      case Err(e) => Err(e)
      case Ok(p) => Ok(config["ingress" := JArr(Finish(socket, PlanOf(inst), p))])
  }

  // ---- The merge as the synchroniser runs it -------------------------------

  lemma NewRowsFrom(socket: SocketPath, routes: seq<Route>, i: nat, seen: set<string>)
    requires i <= |routes|
    ensures NewRows(socket, routes[i..], seen)
            == if i == |routes| then [] else if routes[i].hostname in seen then NewRows(socket, routes[i + 1..], seen)
               else [UpdatedEntry(socket, map[], routes[i])]
                    + NewRows(socket, routes[i + 1..], seen + {routes[i].hostname})
  {
    assert i < |routes| ==> routes[i..][0] == routes[i] && routes[i..][1..] == routes[i + 1..];
  }

  lemma HostnamesUpTo(routes: seq<Route>, i: nat)
    requires i < |routes|
    ensures Hostnames(routes[..i + 1]) == Hostnames(routes[..i]) + {routes[i].hostname}
  {
    assert routes[..i + 1] == routes[..i] + [routes[i]];
  }

  method AppendNewEntries(socket: SocketPath, routes: seq<Route>, before: Rows, already: set<string>)
    returns (out: Rows, seen: set<string>)
    ensures out == before + NewRows(socket, routes, already)
    ensures seen == already + Hostnames(routes)
  {
    hide UpdatedEntry, NewRows;
    out, seen := before, already;
    assert routes[0..] == routes && routes[..0] == [];
    for i := 0 to |routes|
      invariant seen == already + Hostnames(routes[..i])
      invariant out + NewRows(socket, routes[i..], seen) == before + NewRows(socket, routes, already)
    {
      NewRowsFrom(socket, routes, i, seen);
      HostnamesUpTo(routes, i);
      if routes[i].hostname !in seen {
        var entry := UpdatedEntry(socket, map[], routes[i]);
        ghost var rest := NewRows(socket, routes[i + 1..], seen + {routes[i].hostname});
        assert out + ([entry] + rest) == out + [entry] + rest;
        out := out + [entry];
        seen := seen + {routes[i].hostname};
      }
    }
    NewRowsFrom(socket, routes, |routes|, seen);
    assert routes[..|routes|] == routes && out + [] == out;
  }

  method MergeIngress(socket: SocketPath, inst: Instance, config: Object) returns (r: Result<Object, MergeError>)
    ensures r == Merge(socket, inst, config)
  {
    var table := TableOf(config);
    if table.None? {
      return Err(BadFormat);
    }
    var ingress := table.value;
    var owned := OwnedRouteBindings(inst);
    var byID := IndexByID(inst.routes);
    var desired: set<string> := {};
    for i := 0 to |inst.routes|
      invariant desired == Hostnames(inst.routes[..i])
    {
      HostnamesUpTo(inst.routes, i);
      desired := desired + {inst.routes[i].hostname};
    }
    assert inst.routes[..|inst.routes|] == inst.routes;
    ghost var plan := PlanOf(inst);
    var out: Rows, seen: set<string>, catchAll := [], {}, false;
    for i := 0 to |ingress|
      invariant MergeRows(socket, plan, ingress[..i]) == Ok(Progress(out, seen, catchAll))
    {
      var entry := ingress[i];
      MergeNext(socket, plan, ingress, i, Progress(out, seen, catchAll));
      var hostname, service, path := Host(entry), Service(entry), Path(entry);
      if hostname in owned && path == "" {
        var previous := owned[hostname];
        if previous.appliedService != service && previous.pendingService != service {
          return Err(ServiceChanged);
        }
        if previous.id in byID {
          var route := byID[previous.id];
          if route.hostname in seen {
            return Err(DuplicateHost);
          }
          out := out + [UpdatedEntry(socket, Members(entry), route)];
          seen := seen + {route.hostname};
        }
        continue;
      }
      if hostname in desired && path == "" {
        return Err(ForeignClash);
      }
      if hostname == "" && path == "" {
        out, seen := AppendNewEntries(socket, inst.routes, out, seen);
        catchAll := true;
      }
      out := out + [entry];
    }
    assert ingress[..|ingress|] == ingress;
    if !catchAll {
      out, seen := AppendNewEntries(socket, inst.routes, out, seen);
      out := out + [NOT_FOUND_ROW];
    }
    return Ok(config["ingress" := JArr(out)]);
  }

  lemma MergeNext(socket: SocketPath, plan: Plan, rows: Rows, i: nat, p: Progress)
    requires i < |rows| && MergeRows(socket, plan, rows[..i]) == Ok(p)
    ensures MergeRows(socket, plan, rows[..i + 1]) == MergeOne(socket, plan, p, rows[i])
    ensures MergeOne(socket, plan, p, rows[i]).Err? ==>
              MergeRows(socket, plan, rows) == MergeOne(socket, plan, p, rows[i])
  {
    assert rows[..i + 1][..i] == rows[..i];
    if MergeOne(socket, plan, p, rows[i]).Err? {
      FirstErrorStays(socket, plan, rows, i + 1);
    }
  }

  /** An error found in a prefix is the answer for the whole table. */
  lemma {:induction false} FirstErrorStays(socket: SocketPath, plan: Plan, rows: Rows, k: nat)
    requires k <= |rows| && MergeRows(socket, plan, rows[..k]).Err?
    ensures MergeRows(socket, plan, rows) == MergeRows(socket, plan, rows[..k])
    decreases |rows|
  {
    if k == |rows| {
      assert rows[..k] == rows;
    } else {
      var init := rows[..|rows| - 1];
      assert init[..k] == rows[..k];
      FirstErrorStays(socket, plan, init, k);
    }
  }
}
