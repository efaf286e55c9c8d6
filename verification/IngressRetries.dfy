/** Exactly when a merge succeeds, and what follows for running an interrupted sync
    again without assuming anything about shared hostnames (internal/tunnel/routes.go). */
module IngressRetries {
  import opened Wrappers
  import opened JsonDocs
  import opened Ingress
  import opened IngressLaws
  import opened IngressSync

  // ---- Exactly when a merge succeeds ---------------------------------------

  /** Whether a route can no longer be placed after these rows: a row of the same
      owner came before, or a catch-all, where the rest is placed. */
  predicate Taken(plan: Plan, done: Rows, id: string) {
    exists row :: row in done && (IsCatchAll(row) || OwnedBy(plan, row, id))
  }

  predicate OwnedBy(plan: Plan, row: Json, id: string) {
    Managed(row, plan.owned.Keys) && plan.owned[Host(row)].id == id
  }

  /** What is wrong with a row behind the rows done: its owner does not know its
      service, its current owner has been placed, or it has a desired hostname that
      nobody owns. */
  function Misfit(plan: Plan, done: Rows, row: Json): Option<MergeError> {
    if Managed(row, plan.owned.Keys) then
      var owner := plan.owned[Host(row)];
      if owner.appliedService != Service(row) && owner.pendingService != Service(row) then Some(ServiceChanged)
      else if owner.id in plan.byID && Taken(plan, done, owner.id) then Some(DuplicateHost)
      else None
    else if Managed(row, plan.desired) then Some(ForeignClash)
    else None
  }

  predicate RowsFit(plan: Plan, rows: Rows) {
    forall j :: 0 <= j < |rows| ==> Misfit(plan, rows[..j], rows[j]).None?
  }

  lemma TakenSnoc(plan: Plan, done: Rows, row: Json, id: string)
    ensures Taken(plan, done + [row], id) <==> Taken(plan, done, id) || IsCatchAll(row) || OwnedBy(plan, row, id)
  {
    assert row in done + [row];
    if Taken(plan, done, id) {
      var r :| r in done && (IsCatchAll(r) || OwnedBy(plan, r, id));
      assert r in done + [row];
    }
  }

  /** The hostnames seen are those of the routes that can no longer be placed. */
  ghost predicate SeenAreTaken(plan: Plan, done: Rows, seen: set<string>) {
    forall i :: 0 <= i < |plan.routes| ==> (plan.routes[i].hostname in seen <==> Taken(plan, done, plan.routes[i].id))
  }

  lemma MergeOneDecided(socket: SocketPath, plan: Plan, done: Rows, p: Progress, row: Json)
    requires ValidPlan(plan) && SeenAreTaken(plan, done, p.seen)
    ensures Misfit(plan, done, row).Some? ==> MergeOne(socket, plan, p, row) == Err(Misfit(plan, done, row).value)
    ensures Misfit(plan, done, row).None? ==>
              && MergeOne(socket, plan, p, row).Ok?
              && SeenAreTaken(plan, done + [row], MergeOne(socket, plan, p, row).value.seen)
  {
    hide UpdatedEntry, NewRows, Taken, ValidRoutes;
    if Managed(row, plan.owned.Keys) && plan.owned[Host(row)].id in plan.byID {
      var route := plan.byID[plan.owned[Host(row)].id];
      var k :| 0 <= k < |plan.routes| && plan.routes[k] == route;
    }
    forall i | 0 <= i < |plan.routes| && Misfit(plan, done, row).None?
      ensures plan.routes[i].hostname in MergeOne(socket, plan, p, row).value.seen
              <==> Taken(plan, done + [row], plan.routes[i].id)
    {
      TakenSnoc(plan, done, row, plan.routes[i].id);
      SeenNext(socket, plan, done, p, row, i);
    }
  }

  lemma SeenNext(socket: SocketPath, plan: Plan, done: Rows, p: Progress, row: Json, i: nat)
    requires ValidPlan(plan) && SeenAreTaken(plan, done, p.seen) && MergeOne(socket, plan, p, row).Ok?
    requires i < |plan.routes|
    ensures plan.routes[i].hostname in MergeOne(socket, plan, p, row).value.seen
            <==> plan.routes[i].hostname in p.seen || IsCatchAll(row) || OwnedBy(plan, row, plan.routes[i].id)
  {
    hide UpdatedEntry, NewRows, Taken, SeenAreTaken;
    var r := plan.routes[i];
    assert r.hostname in plan.desired && ValidTarget(r);
    if Managed(row, plan.owned.Keys) && plan.owned[Host(row)].id in plan.byID {
      var route := plan.byID[plan.owned[Host(row)].id];
      var k :| 0 <= k < |plan.routes| && plan.routes[k] == route;
      assert route.hostname == r.hostname <==> i == k;
    }
  }

  /** Main result 10. The outcome of a merge: it succeeds if and only if every row
      fits, and otherwise reports what is wrong with the first one that does not. */
  lemma {:induction false} MergeDecided(socket: SocketPath, plan: Plan, rows: Rows)
    requires ValidPlan(plan)
    ensures MergeRows(socket, plan, rows).Ok? <==> RowsFit(plan, rows)
    ensures forall j :: 0 <= j < |rows| && RowsFit(plan, rows[..j]) && Misfit(plan, rows[..j], rows[j]).Some? ==>
                          MergeRows(socket, plan, rows) == Err(Misfit(plan, rows[..j], rows[j]).value)
    ensures MergeRows(socket, plan, rows).Ok? ==> SeenAreTaken(plan, rows, MergeRows(socket, plan, rows).value.seen)
  {
    hide Misfit, MergeOne, SeenAreTaken;
    if rows == [] {
      NothingSeen(plan);
    } else {
      var n := |rows| - 1;
      MergeDecided(socket, plan, rows[..n]);
      RowsFitSnoc(plan, rows);
      if RowsFit(plan, rows[..n]) {
        MergeOneDecided(socket, plan, rows[..n], MergeRows(socket, plan, rows[..n]).value, rows[n]);
        assert rows[..n] + [rows[n]] == rows;
      }
      forall j | 0 <= j < |rows| && RowsFit(plan, rows[..j]) && Misfit(plan, rows[..j], rows[j]).Some?
        ensures MergeRows(socket, plan, rows) == Err(Misfit(plan, rows[..j], rows[j]).value)
      {
        if j < n {
          assert rows[..n][..j] == rows[..j] && rows[..n][j] == rows[j];
        }
      }
    }
  }

  lemma NothingSeen(plan: Plan)
    ensures SeenAreTaken(plan, [], {})
  {
  }

  lemma RowsFitSnoc(plan: Plan, rows: Rows)
    requires rows != []
    ensures var n := |rows| - 1;
            RowsFit(plan, rows) <==> RowsFit(plan, rows[..n]) && Misfit(plan, rows[..n], rows[n]).None?
  {
    hide Misfit;
    var n := |rows| - 1;
    forall j | 0 <= j < n ensures rows[..n][..j] == rows[..j] && rows[..n][j] == rows[j] {
    }
  }

  /** So a merge is refused as malformed exactly when the table is there and is not a
      list of objects, and accepted exactly when it is readable and every row fits; the
      rest of the configuration stays. */
  lemma MergeAcceptedExactlyWhen(socket: SocketPath, inst: Instance, config: Object)
    requires ValidRoutes(inst.routes)
    ensures var merged := Merge(socket, inst, config);
            var rows := if "ingress" in config && config["ingress"].JArr? then config["ingress"].items else [];
            && (merged == Err(BadFormat)
                <==> && "ingress" in config && !config["ingress"].JNull?
                     && (!config["ingress"].JArr? || exists row :: row in rows && !row.JObj? && !row.JNull?))
            && (merged.Ok? <==> merged != Err(BadFormat) && RowsFit(PlanOf(inst), rows))
            && (merged.Ok? ==> merged.value.Keys == config.Keys + {"ingress"}
                               && forall key :: key in config && key != "ingress" ==> merged.value[key] == config[key])
  {
    hide MergeRows, Finish, Owned, ByID, Hostnames, ValidRoutes, Misfit;
    PlanIsValid(inst);
    if TableOf(config).Some? {
      MergeDecided(socket, PlanOf(inst), TableOf(config).value);
      RowsAreReadable(socket, PlanOf(inst), TableOf(config).value);
    }
  }

  lemma {:induction false} RowsAreReadable(socket: SocketPath, plan: Plan, rows: Rows)
    ensures MergeRows(socket, plan, rows) != Err(BadFormat)
  {
    hide UpdatedEntry, NewRows;
    if rows != [] {
      RowsAreReadable(socket, plan, rows[..|rows| - 1]);
    }
  }

  // ---- A lost PUT ----------------------------------------------------------

  /** What a caller can look up before the journal is saved: every row of the table
      fits the records as the journal will have them. */
  predicate FitsJournal(socket: SocketPath, start: Durable) {
    TableOf(start.config).Some? && RowsFit(PlanOf(Journal(socket, start.inst)), TableOf(start.config).value)
  }

  lemma JournalIsValid(socket: SocketPath, inst: Instance)
    requires ValidRoutes(inst.routes)
    ensures ValidRoutes(Journal(socket, inst).routes) && ValidPlan(PlanOf(Journal(socket, inst)))
  {
    JournalRoutes(socket, inst);
    PublishedRoutesAreValid(inst.routes, Journal(socket, inst).routes);
    PlanIsValid(Journal(socket, inst));
  }

  /** Main result 11. After a lost PUT the next run is accepted if and only if every
      row of the table fits the journal, whoever shares a hostname. */
  lemma LostPutRetriesExactlyWhen(socket: SocketPath, start: Durable)
    requires ValidRoutes(start.inst.routes) && Merge(socket, start.inst, start.config).Ok?
    ensures var d := SyncOnce(socket, start, PutLost);
            Merge(socket, d.inst, d.config).Ok? <==> FitsJournal(socket, start)
  {
    hide ValidRoutes, MergeRows, RowsFit, Owned, ByID, Finish, ValidPlan;
    JournalIsValid(socket, start.inst);
    MergeDecided(socket, PlanOf(Journal(socket, start.inst)), TableOf(start.config).value);
  }

  /** What the records claim the journal claims as well. */
  lemma JournalOwns(socket: SocketPath, inst: Instance, host: string)
    requires EditedOnce(inst) && host in Owned(inst)
    ensures host in Owned(Journal(socket, inst))
  {
    hide Bind, Journal;
    var before, now := Records(inst), Records(Journal(socket, inst));
    JournalRecords(socket, inst);
    var i := BindIsLastClaimant(before, host);
    assert before[i] in before;
    assert ClaimsHost(now[i], host);
    var _ := BindIsLastClaimant(now, host);
  }

  lemma JournalKeepsClaims(socket: SocketPath, inst: Instance)
    requires ValidRoutes(inst.routes) && EditedOnce(inst)
    ensures ManagedHosts(PlanOf(Journal(socket, inst))) == ManagedHosts(PlanOf(inst))
    ensures PlanOf(inst).owned.Keys <= PlanOf(Journal(socket, inst)).owned.Keys
  {
    hide Owned, ByID, Hostnames, ValidPlan, ValidRoutes, EditedOnce, Journal;
    JournalPlan(socket, inst);
    forall host | host in Owned(inst) ensures host in Owned(Journal(socket, inst)) {
      JournalOwns(socket, inst, host);
    }
  }

  lemma PendedPublishes(socket: SocketPath, inst: Instance, rows: Rows)
    requires PlacedTable(socket, PlanOf(Journal(socket, inst)), rows)
    requires PlanOf(Journal(socket, inst)).desired == PlanOf(inst).desired
    requires PlanOf(inst).owned.Keys <= PlanOf(Journal(socket, inst)).owned.Keys
    ensures PlacedTable(socket, PlanOf(inst), rows)
  {
    hide Owned, ByID, Hostnames, UpdatedEntry, Count, BeforeCatchAll;
    var a, b := PlanOf(inst), PlanOf(Journal(socket, inst));
    forall i | 0 <= i < |a.routes| ensures b.routes[i] == Pend(socket, a.routes[i]) {
    }
    forall i, row | 0 <= i < |a.routes| && row in rows && Exact(row, a.routes[i].hostname)
      ensures Publishes(socket, row, a.routes[i])
    {
      assert Exact(row, b.routes[i].hostname) && Publishes(socket, row, b.routes[i]);
      UpdatedEntryAlike(socket, Members(row), a.routes[i]);
    }
  }

  lemma ForeignOfMerge(socket: SocketPath, inst: Instance, config: Object, out: Rows)
    requires ValidRoutes(inst.routes) && Merge(socket, inst, config).Ok?
    requires TableOf(Merge(socket, inst, config).value) == Some(out)
    ensures var rows, hosts := TableOf(config).value, ManagedHosts(PlanOf(inst));
            Foreign(out, hosts)
            == Foreign(rows, hosts) + (if exists row :: row in rows && IsCatchAll(row) then [] else [NOT_FOUND_ROW])
  {
    hide ValidRoutes, MergeRows, Owned, ByID, Finish, ValidPlan, Foreign, ManagedHosts, Hostnames;
    PlanIsValid(inst);
    ForeignRowsKept(socket, PlanOf(inst), TableOf(config).value);
  }

  /** And the table it computes then has the same effect as that of the first attempt:
      the same routes published, and the same rows of others. */
  lemma LostPutRepublishes(socket: SocketPath, start: Durable) returns (first: Rows, again: Rows)
    requires ValidRoutes(start.inst.routes) && EditedOnce(start.inst)
    requires Merge(socket, start.inst, start.config).Ok? && FitsJournal(socket, start)
    ensures TableOf(Merge(socket, start.inst, start.config).value) == Some(first)
    ensures var d := SyncOnce(socket, start, PutLost);
            Merge(socket, d.inst, d.config).Ok? && TableOf(Merge(socket, d.inst, d.config).value) == Some(again)
    ensures var plan := PlanOf(start.inst);
            && PlacedTable(socket, plan, first) && PlacedTable(socket, plan, again)
            && Foreign(again, ManagedHosts(plan)) == Foreign(first, ManagedHosts(plan))
  {
    hide ValidRoutes, EditedOnce, MergeRows, RowsFit, Owned, ByID, Finish, ValidPlan, PlacedTable, Foreign, FitsJournal;
    LostPutRetriesExactlyWhen(socket, start);
    JournalIsValid(socket, start.inst);
    first := MergedTable(socket, start.inst, start.config);
    again := MergedTable(socket, Journal(socket, start.inst), start.config);
    JournalPlan(socket, start.inst);
    JournalKeepsClaims(socket, start.inst);
    PendedPublishes(socket, start.inst, again);
    ForeignOfMerge(socket, start.inst, start.config, first);
    ForeignOfMerge(socket, Journal(socket, start.inst), start.config, again);
  }

  // ---- An unnoticed PUT ----------------------------------------------------

  /** Two rows of one current owner do not fit. */
  lemma TwoOwnedRows(plan: Plan, rows: Rows, a: nat, b: nat, id: string)
    requires a < |rows| && b < |rows| && a != b && id in plan.byID
    requires OwnedBy(plan, rows[a], id) && OwnedBy(plan, rows[b], id)
    ensures !RowsFit(plan, rows)
  {
    var first, second := if a < b then a else b, if a < b then b else a;
    assert rows[first] in rows[..second];
    assert Taken(plan, rows[..second], id);
    assert Misfit(plan, rows[..second], rows[second]).Some?;
  }

  /** With the journal saved, a route that nobody further down takes over but that still
      holds the new hostname of an earlier route owns two rows of the new table. */
  lemma HolderOwnsTwoRows(socket: SocketPath, inst: Instance, out: Rows, i: nat, j: nat)
    requires ValidRoutes(inst.routes) && PlacedTable(socket, PlanOf(inst), out)
    requires i < j < |inst.routes|
    requires OwnsAfterJournal(socket, inst, inst.routes[i].hostname, j)
    requires OwnsAfterJournal(socket, inst, inst.routes[j].hostname, j)
    ensures !RowsFit(PlanOf(Journal(socket, inst)), out)
  {
    hide Bind, ByID, Count, ValidPlan, UpdatedEntry;
    var plan := PlanOf(Journal(socket, inst));
    JournalIsValid(socket, inst);
    assert Count(out, PlanOf(inst).routes[i].hostname) == 1 && Count(out, PlanOf(inst).routes[j].hostname) == 1;
    var a := SomeExactRow(out, inst.routes[i].hostname);
    var b := SomeExactRow(out, inst.routes[j].hostname);
    JournalHasID(socket, inst, j);
    TwoOwnedRows(plan, out, a, b, inst.routes[j].id);
  }

  predicate OwnsAfterJournal(socket: SocketPath, inst: Instance, host: string, j: nat)
    requires j < |inst.routes|
  {
    host in Owned(Journal(socket, inst)) && Owned(Journal(socket, inst))[host] == Pend(socket, inst.routes[j])
  }

  lemma JournalHasID(socket: SocketPath, inst: Instance, j: nat)
    requires ValidRoutes(inst.routes) && j < |inst.routes|
    ensures inst.routes[j].id in ByID(Journal(socket, inst).routes)
  {
    hide ByID;
    JournalIsValid(socket, inst);
    ByIDFinds(Journal(socket, inst).routes);
    assert Journal(socket, inst).routes[j] == Pend(socket, inst.routes[j]);
  }

  /** Following the holders down the list ends with one that owns two rows. */
  lemma {:induction false} HeldLaterDoesNotFit(socket: SocketPath, inst: Instance, out: Rows, i: nat)
    requires ValidRoutes(inst.routes) && PlacedTable(socket, PlanOf(inst), out)
    requires i < |inst.routes| && HeldLater(inst.routes, i)
    ensures !RowsFit(PlanOf(Journal(socket, inst)), out)
    decreases |inst.routes| - i
  {
    hide Owned, ByID, RowsFit, PlacedTable, HeldLater;
    assert ValidTarget(inst.routes[i]);
    var j := JournalOwnerIndex(socket, inst, i);
    assert ValidTarget(inst.routes[j]);
    var last := JournalOwnerIndex(socket, inst, j);
    if last == j {
      HolderOwnsTwoRows(socket, inst, out, i, j);
    } else {
      HoldsForLater(socket, inst, j, last);
      HeldLaterDoesNotFit(socket, inst, out, j);
    }
  }

  lemma HoldsForLater(socket: SocketPath, inst: Instance, i: nat, j: nat)
    requires ValidRoutes(inst.routes) && i < j < |inst.routes|
    requires ClaimsHost(Pend(socket, inst.routes[j]), inst.routes[i].hostname)
    ensures HeldLater(inst.routes, i)
  {
  }

  /** Main result 6. Whoever shares a hostname: when the cloud took the table but the
      local records still say pending, running again computes that table if no route
      further down the list still holds the new hostname of an earlier one, and is
      refused otherwise. */
  lemma UnnoticedPutRetriesExactlyWhen(socket: SocketPath, inst: Instance, config: Object)
    requires ValidRoutes(inst.routes) && EditedOnce(inst)
    requires Merge(socket, inst, config).Ok?
    ensures var next := Merge(socket, inst, config).value;
            var retried := Merge(socket, Journal(socket, inst), next);
            if NoneHeldLater(inst.routes) then retried == Ok(next) else retried.Err?
  {
    hide MergeRows, Finish, PlacedTable, Owned, ByID, Hostnames, ValidRoutes, EditedOnce, HeldLater, Follows, RowsFit;
    if NoneHeldLater(inst.routes) {
      NotHeldLaterFollows(socket, inst);
      MergesToItself(socket, inst, config, Journal(socket, inst));
    } else {
      var i :| 0 <= i < |inst.routes| && HeldLater(inst.routes, i);
      var out := MergedTable(socket, inst, config);
      HeldLaterDoesNotFit(socket, inst, out, i);
      JournalIsValid(socket, inst);
      MergeDecided(socket, PlanOf(Journal(socket, inst)), out);
    }
  }

  // ---- Interrupted runs ----------------------------------------------------

  /** Running again is accepted, and should its PUT go unnoticed, so is the run after
      it, which computes the same table. */
  ghost predicate RetriesWell(socket: SocketPath, d: Durable) {
    var merged := Merge(socket, d.inst, d.config);
    merged.Ok? && Merge(socket, Journal(socket, d.inst), merged.value) == merged
  }

  /** Running again after these runs is accepted. */
  ghost predicate AcceptedAfter(socket: SocketPath, start: Durable, stops: seq<Stop>) {
    var d := Runs(socket, start, stops);
    Merge(socket, d.inst, d.config).Ok?
  }

  ghost predicate RetriesWellAfter(socket: SocketPath, start: Durable, stops: seq<Stop>) {
    RetriesWell(socket, Runs(socket, start, stops))
  }

  /** What runs can leave behind: the table is the old one, that of the first attempt,
      or the one computed with the journal saved. */
  ghost predicate Left(socket: SocketPath, start: Durable, next: Object, again: Object, d: Durable) {
    || d == start
    || (d.inst == Journal(socket, start.inst) && d.config in {start.config, next, again})
    || (Committed(socket, start.inst, d.inst) && d.config in {next, again})
  }

  ghost predicate Attempts(socket: SocketPath, start: Durable, next: Object, again: Object) {
    && ValidRoutes(start.inst.routes) && EditedOnce(start.inst) && NoneHeldLater(start.inst.routes)
    && Merge(socket, start.inst, start.config) == Ok(next)
    && Merge(socket, Journal(socket, start.inst), start.config) == Ok(again)
  }

  /** The journal's own table is settled for the journal. */
  lemma JournalFollowsItself(socket: SocketPath, inst: Instance)
    requires ValidRoutes(inst.routes) && NoneHeldLater(inst.routes)
    ensures Follows(socket, PlanOf(Journal(socket, inst)), PlanOf(Journal(socket, inst)))
  {
    hide Owned, ByID, Hostnames, HeldLater, ValidRoutes;
    var now := Journal(socket, inst);
    forall i | 0 <= i < |now.routes| ensures OwnsAsPublished(socket, PlanOf(now), now.routes[i]) {
      JournalOwnsIffNotHeldLater(socket, inst, i);
      assert now.routes[i] == Pend(socket, inst.routes[i]);
    }
  }

  lemma CommittedFromJournal(socket: SocketPath, inst: Instance, now: Instance)
    requires Committed(socket, inst, now)
    ensures Committed(socket, Journal(socket, inst), now)
  {
  }

  /** A table merged from any of the records is kept by every later one. */
  lemma LaterRecordsKeep(socket: SocketPath, start: Durable, next: Object, again: Object, now: Instance, config: Object)
    requires Attempts(socket, start, next, again) && config in {next, again}
    requires now == Journal(socket, start.inst) || Committed(socket, start.inst, now)
    ensures Merge(socket, now, config) == Ok(config)
  {
    hide Merge, Follows, ValidRoutes, EditedOnce, NoneHeldLater, PlanOf, Committed;
    var inst, pended := start.inst, Journal(socket, start.inst);
    var origin := if config == next then inst else pended;
    assert ValidRoutes(origin.routes) && Merge(socket, origin, start.config) == Ok(config) by {
      JournalIsValid(socket, inst);
    }
    if now == pended {
      NotHeldLaterFollows(socket, inst);
      JournalFollowsItself(socket, inst);
    } else {
      CommittedFromJournal(socket, inst, now);
      CommittedFollows(socket, origin, now);
    }
    MergesToItself(socket, origin, start.config, now);
  }

  lemma LeftRetriesWell(socket: SocketPath, start: Durable, next: Object, again: Object, d: Durable)
    requires Attempts(socket, start, next, again) && Left(socket, start, next, again, d)
    ensures RetriesWell(socket, d)
    ensures Merge(socket, d.inst, d.config) == Ok(next) || Merge(socket, d.inst, d.config) == Ok(again)
  {
    hide Merge, ValidRoutes, EditedOnce, NoneHeldLater, Committed, Journal;
    var pended := Journal(socket, start.inst);
    JournalAgain(socket, start.inst);
    LaterRecordsKeep(socket, start, next, again, pended, next);
    LaterRecordsKeep(socket, start, next, again, pended, again);
    if Committed(socket, start.inst, d.inst) && d.config in {next, again} {
      CommittedAgain(socket, start.inst, d.inst);
      LaterRecordsKeep(socket, start, next, again, d.inst, d.config);
      LaterRecordsKeep(socket, start, next, again, Journal(socket, d.inst), d.config);
    }
  }

  lemma StepStaysLeft(socket: SocketPath, start: Durable, next: Object, again: Object, d: Durable, stop: Stop)
    requires Attempts(socket, start, next, again) && Left(socket, start, next, again, d)
    ensures Left(socket, start, next, again, SyncOnce(socket, d, stop))
  {
    hide Merge, ValidRoutes, EditedOnce, NoneHeldLater, Committed, Journal, Commit, Retire;
    LeftRetriesWell(socket, start, next, again, d);
    JournalAgain(socket, start.inst);
    if Committed(socket, start.inst, d.inst) {
      CommittedAgain(socket, start.inst, d.inst);
    }
    if d.inst == Journal(socket, start.inst) && d.config in {next, again} {
      LaterRecordsKeep(socket, start, next, again, d.inst, d.config);
    }
    if Committed(socket, start.inst, d.inst) && d.config in {next, again} {
      LaterRecordsKeep(socket, start, next, again, d.inst, d.config);
    }
  }

  lemma {:induction false} RunsStayLeft(socket: SocketPath, start: Durable, next: Object, again: Object,
                                        stops: seq<Stop>)
    requires Attempts(socket, start, next, again)
    ensures Left(socket, start, next, again, Runs(socket, start, stops))
  {
    hide Attempts, Left, SyncOnce;
    if stops == [] {
      StartIsLeft(socket, start, next, again);
    } else {
      RunsStayLeft(socket, start, next, again, stops[..|stops| - 1]);
      StepStaysLeft(socket, start, next, again, Runs(socket, start, stops[..|stops| - 1]), stops[|stops| - 1]);
    }
  }

  lemma StartIsLeft(socket: SocketPath, start: Durable, next: Object, again: Object)
    ensures Left(socket, start, next, again, start)
  {
  }

  /** Main result 12. Whoever shares a hostname: running again is accepted after every
      interrupted sequence of runs if and only if every row fits the journal and no
      route further down the list still holds the new hostname of an earlier one; and
      then the run after an unnoticed one computes the same table. */
  lemma CrashSafeExactlyWhen(socket: SocketPath, start: Durable)
    requires ValidRoutes(start.inst.routes) && EditedOnce(start.inst) && Merge(socket, start.inst, start.config).Ok?
    ensures (forall stops: seq<Stop> :: AcceptedAfter(socket, start, stops))
            <==> FitsJournal(socket, start) && NoneHeldLater(start.inst.routes)
    ensures FitsJournal(socket, start) && NoneHeldLater(start.inst.routes) ==>
              forall stops: seq<Stop> :: RetriesWellAfter(socket, start, stops)
  {
    hide Merge, ValidRoutes, EditedOnce, NoneHeldLater, FitsJournal, Runs, SyncOnce;
    LostPutRetriesExactlyWhen(socket, start);
    UnnoticedPutRetriesExactlyWhen(socket, start.inst, start.config);
    AfterOneStop(socket, start);
    if FitsJournal(socket, start) && NoneHeldLater(start.inst.routes) {
      var next := Merge(socket, start.inst, start.config).value;
      var again := Merge(socket, Journal(socket, start.inst), start.config).value;
      forall stops: seq<Stop>
        ensures RetriesWellAfter(socket, start, stops) && AcceptedAfter(socket, start, stops)
      {
        RunsStayLeft(socket, start, next, again, stops);
        LeftRetriesWell(socket, start, next, again, Runs(socket, start, stops));
      }
    } else {
      assert !AcceptedAfter(socket, start, [PutLost]) || !AcceptedAfter(socket, start, [PutAcceptedUnnoticed]);
    }
  }

  lemma AfterOneStop(socket: SocketPath, start: Durable)
    requires Merge(socket, start.inst, start.config).Ok?
    ensures Runs(socket, start, [PutLost]) == SyncOnce(socket, start, PutLost)
            == Durable(Journal(socket, start.inst), start.config)
    ensures Runs(socket, start, [PutAcceptedUnnoticed])
            == Durable(Journal(socket, start.inst), Merge(socket, start.inst, start.config).value)
  {
    OneRun(socket, start, PutLost);
    OneRun(socket, start, PutAcceptedUnnoticed);
  }
}
