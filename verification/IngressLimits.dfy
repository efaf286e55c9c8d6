/** Why crash safety has its conditions. A lost PUT cannot be retried after two routes
    have swapped their hostnames, after a route has been deleted and created again
    with another service, and when the row of a published route has no service. And
    an adopted row is not taken over when a route behind has its hostname pending, and
    only by the last of several routes that adopted it. */
module IngressLimits {
  import opened Wrappers
  import opened JsonDocs
  import opened Ingress
  import opened IngressLaws
  import opened IngressSync
  import opened RemoteRoutes
  import opened RouteEdits

  const FIRST: Route := Route("1", "b", "z", "url", "", "p", false, "a", "q", false, "", "", "", false)
  const SECOND: Route := Route("2", "a", "z", "url", "", "r", false, "b", "s", false, "", "", "", false)
  const SWAPPED: Instance := Instance([FIRST, SECOND], [])

  function PlainRow(host: string, service: string): Json {
    JObj(map["hostname" := JStr(host), "service" := JStr(service)])
  }

  const ROW_A: Json := PlainRow("a", "q")
  const ROW_B: Json := PlainRow("b", "s")
  const SWAP_CONFIG: Object := map["ingress" := JArr([ROW_A, ROW_B, NOT_FOUND_ROW])]

  lemma BindTwo(a: Route, b: Route)
    ensures Bind([a, b]) == BindOne(BindOne(map[], a), b)
  {
    assert [a, b][..1] == [a] && [a][..0] == [];
    assert Bind([a]) == BindOne(map[], a);
  }

  lemma ByIDTwo(a: Route, b: Route)
    ensures ByID([a, b]) == map[a.id := a][b.id := b]
  {
    assert [a, b][..1] == [a] && [a][..0] == [];
    assert ByID([a]) == map[a.id := a];
  }

  lemma MergeThree(socket: SocketPath, plan: Plan, a: Json, b: Json, c: Json)
    ensures MergeRows(socket, plan, [a]) == MergeOne(socket, plan, START, a)
    ensures MergeRows(socket, plan, [a]).Ok? ==>
              MergeRows(socket, plan, [a, b]) == MergeOne(socket, plan, MergeRows(socket, plan, [a]).value, b)
    ensures MergeRows(socket, plan, [a, b]).Ok? ==>
              MergeRows(socket, plan, [a, b, c]) == MergeOne(socket, plan, MergeRows(socket, plan, [a, b]).value, c)
    ensures MergeRows(socket, plan, [a]).Err? ==>
              MergeRows(socket, plan, [a, b, c]) == Err(MergeRows(socket, plan, [a]).error)
  {
    hide MergeOne;
    assert [a][..0] == [] && [a, b][..1] == [a] && [a, b, c][..2] == [a, b];
  }

  lemma SwapPlan()
    ensures PlanOf(SWAPPED).owned == map["a" := FIRST, "b" := SECOND]
    ensures PlanOf(SWAPPED).byID == map["1" := FIRST, "2" := SECOND]
    ensures PlanOf(SWAPPED).routes == [FIRST, SECOND]
  {
    assert SWAPPED.retired + SWAPPED.routes == [FIRST, SECOND];
    BindTwo(FIRST, SECOND);
    ByIDTwo(FIRST, SECOND);
  }

  lemma FirstRowMoves(socket: SocketPath, plan: Plan)
    requires plan.owned == map["a" := FIRST, "b" := SECOND] && plan.byID == map["1" := FIRST, "2" := SECOND]
    ensures MergeOne(socket, plan, START, ROW_A).Ok?
    ensures MergeOne(socket, plan, START, ROW_A).value.seen == {"b"}
  {
    assert Host(ROW_A) == "a" && Path(ROW_A) == "" && Service(ROW_A) == "q";
  }

  lemma SecondRowMoves(socket: SocketPath, plan: Plan, p: Progress)
    requires plan.owned == map["a" := FIRST, "b" := SECOND] && plan.byID == map["1" := FIRST, "2" := SECOND]
    requires p.seen == {"b"}
    ensures MergeOne(socket, plan, p, ROW_B).Ok?
  {
    assert Host(ROW_B) == "b" && Path(ROW_B) == "" && Service(ROW_B) == "s";
  }

  lemma CatchAllMerges(socket: SocketPath, plan: Plan, p: Progress)
    requires "" !in plan.owned && "" !in plan.desired
    ensures MergeOne(socket, plan, p, NOT_FOUND_ROW).Ok?
  {
    assert Host(NOT_FOUND_ROW) == "" && Path(NOT_FOUND_ROW) == "";
  }

  lemma SwapRowsMerge(socket: SocketPath, plan: Plan)
    requires plan.owned == map["a" := FIRST, "b" := SECOND] && plan.byID == map["1" := FIRST, "2" := SECOND]
    requires "" !in plan.desired
    ensures MergeRows(socket, plan, [ROW_A, ROW_B, NOT_FOUND_ROW]).Ok?
  {
    MergeThree(socket, plan, ROW_A, ROW_B, NOT_FOUND_ROW);
    FirstRowMoves(socket, plan);
    SecondRowMoves(socket, plan, MergeRows(socket, plan, [ROW_A]).value);
    CatchAllMerges(socket, plan, MergeRows(socket, plan, [ROW_A, ROW_B]).value);
  }

  lemma SwapMerges(socket: SocketPath)
    ensures Merge(socket, SWAPPED, SWAP_CONFIG).Ok?
  {
    hide Owned, ByID, MergeRows, Finish;
    SwapPlan();
    assert forall r :: r in SWAPPED.routes ==> r.hostname != "";
    SwapRowsMerge(socket, PlanOf(SWAPPED));
  }

  lemma SwapHypotheses()
    ensures ValidRoutes(SWAPPED.routes) && EditedOnce(SWAPPED) && !Unshared(SWAPPED)
  {
    assert ValidTarget(FIRST) && ValidTarget(SECOND);
    assert Records(SWAPPED)[0] == FIRST && Records(SWAPPED)[1] == SECOND;
    assert SharesHost(FIRST, true, SECOND, true);
  }

  lemma SwapOwner(socket: SocketPath)
    ensures "a" in PlanOf(Journal(socket, SWAPPED)).owned
    ensures PlanOf(Journal(socket, SWAPPED)).owned["a"] == Pend(socket, SECOND)
  {
    var now := Journal(socket, SWAPPED);
    assert now.retired + now.routes == [Pend(socket, FIRST), Pend(socket, SECOND)];
    BindTwo(Pend(socket, FIRST), Pend(socket, SECOND));
  }

  /** The routes are valid, nothing is pending and the first merge succeeds, yet
      the merge after a lost PUT is refused: once the journal is saved, both
      hostnames belong to the second route. */
  lemma SwapBreaksRetry(socket: SocketPath)
    ensures ValidRoutes(SWAPPED.routes) && EditedOnce(SWAPPED) && !Unshared(SWAPPED)
    ensures Merge(socket, SWAPPED, SWAP_CONFIG).Ok?
    ensures var d := SyncOnce(socket, Durable(SWAPPED, SWAP_CONFIG), PutLost);
            Merge(socket, d.inst, d.config) == Err(ServiceChanged)
  {
    hide Owned, Bind, ByID, Hostnames, ValidRoutes, EditedOnce, Unshared, NewRows, UpdatedEntry, MergeRows;
    SwapHypotheses();
    SwapMerges(socket);
    SwapOwner(socket);
    var plan := PlanOf(Journal(socket, SWAPPED));
    assert Host(ROW_A) == "a" && Path(ROW_A) == "" && Service(ROW_A) == "q";
    assert MergeOne(socket, plan, START, ROW_A) == Err(ServiceChanged);
    MergeThree(socket, plan, ROW_A, ROW_B, NOT_FOUND_ROW);
  }

  const ALONE: Route := Route("1", "a", "z", "url", "", "p", false, "a", "q", false, "", "", "", false)
  const KEPT: Instance := Instance([ALONE], [])
  const EMPTY_ROW: Json := PlainRow("a", "")
  const EMPTY_CONFIG: Object := map["ingress" := JArr([EMPTY_ROW])]

  lemma KeptPlan()
    ensures PlanOf(KEPT).owned == map["a" := ALONE] && PlanOf(KEPT).byID == map["1" := ALONE]
  {
    assert KEPT.retired + KEPT.routes == [ALONE] && [ALONE][..0] == [];
    assert Bind([ALONE]) == BindOne(map[], ALONE);
    assert ByID([ALONE]) == map["1" := ALONE];
  }

  lemma KeptHypotheses()
    ensures CrashHypotheses(Durable(KEPT, EMPTY_CONFIG))
  {
    hide TableOf, Unshared, EditedOnce;
    assert ValidTarget(ALONE);
    EmptyTable();
    AloneIsUnshared();
    AloneIsEditedOnce();
  }

  lemma AloneIsUnshared()
    ensures Unshared(KEPT)
  {
    hide SharesHost;
    assert Records(KEPT) == [ALONE];
  }

  lemma AloneIsEditedOnce()
    ensures EditedOnce(KEPT)
  {
    assert Records(KEPT) == [ALONE];
  }

  lemma EmptyTable()
    ensures TableOf(EMPTY_CONFIG) == Some([EMPTY_ROW])
  {
  }

  /** Nothing is shared and nothing is pending, and the first merge accepts the row
      without a service; with the journal saved it is refused. */
  lemma EmptyServiceBreaksRetry(socket: SocketPath)
    ensures CrashHypotheses(Durable(KEPT, EMPTY_CONFIG)) && Merge(socket, KEPT, EMPTY_CONFIG).Ok?
    ensures var d := SyncOnce(socket, Durable(KEPT, EMPTY_CONFIG), PutLost);
            Merge(socket, d.inst, d.config) == Err(ServiceChanged)
  {
    hide Owned, ByID, Hostnames, ValidRoutes, EditedOnce, Unshared, NewRows, UpdatedEntry, MergeRows;
    KeptPlan();
    KeptHypotheses();
    assert Host(EMPTY_ROW) == "a" && Path(EMPTY_ROW) == "" && Service(EMPTY_ROW) == "";
    MergeAlone(socket, PlanOf(KEPT), EMPTY_ROW);
    assert EMPTY_ROW in [EMPTY_ROW] && !StaysKnown(socket, PlanOf(KEPT), EMPTY_ROW);
    LostPutKeepsTableExactlyWhen(socket, Durable(KEPT, EMPTY_CONFIG));
  }

  // ---- Deleted and created again -------------------------------------------

  const DELETED: Route := Route("9", "a", "z", "url", "", "p", false, "a", "p", false, "", "", "", false)
  const CREATED: Route := Route("10", "a", "z", "url", "", "q", false, "", "", false, "", "", "", false)
  const RECREATED: Instance := Instance([CREATED], [DELETED])
  const OLD_ROW: Json := PlainRow("a", "p")
  const OLD_CONFIG: Object := map["ingress" := JArr([OLD_ROW])]
  const RECREATION: RouteInput := RouteInput("", "a", "z", "url", "", "q", false, "")

  lemma RecreatedPlan(socket: SocketPath)
    ensures ValidRoutes(RECREATED.routes) && EditedOnce(RECREATED) && NoneHeldLater(RECREATED.routes)
    ensures PlanOf(RECREATED).owned == map["a" := DELETED] && PlanOf(RECREATED).byID == map["10" := CREATED]
    ensures PlanOf(Journal(socket, RECREATED)).owned == map["a" := Pend(socket, CREATED)]
  {
    assert ValidTarget(CREATED);
    assert RECREATED.retired + RECREATED.routes == [DELETED, CREATED];
    BindTwo(DELETED, CREATED);
    assert [CREATED][..0] == [] && ByID([CREATED]) == map["10" := CREATED];
    var pended := Journal(socket, RECREATED);
    assert pended.retired + pended.routes == [DELETED, Pend(socket, CREATED)];
    BindTwo(DELETED, Pend(socket, CREATED));
  }

  lemma MergeAlone(socket: SocketPath, plan: Plan, row: Json)
    ensures MergeRows(socket, plan, [row]) == MergeOne(socket, plan, START, row)
  {
    assert [row][..0] == [];
  }

  /** One save deletes a route and creates another one for its hostname; the merge
      accepts that, and after a lost PUT the retry is refused. */
  lemma RecreationBreaksRetry(socket: SocketPath)
    ensures ValidRoutes(RECREATED.routes) && EditedOnce(RECREATED) && NoneHeldLater(RECREATED.routes)
    ensures Merge(socket, RECREATED, OLD_CONFIG).Ok?
    ensures var d := SyncOnce(socket, Durable(RECREATED, OLD_CONFIG), PutLost);
            Merge(socket, d.inst, d.config) == Err(ServiceChanged)
  {
    hide Owned, ByID, Hostnames, ValidRoutes, EditedOnce, NoneHeldLater, NewRows, MergeRows, UpdatedEntry;
    RecreatedPlan(socket);
    assert Host(OLD_ROW) == "a" && Path(OLD_ROW) == "" && Service(OLD_ROW) == "p";
    MergeAlone(socket, PlanOf(RECREATED), OLD_ROW);
    MergeAlone(socket, PlanOf(Journal(socket, RECREATED)), OLD_ROW);
  }

  lemma CreatedInput(env: Env, inst: Instance)
    requires inst == Instance([DELETED], []) && env.newID(0) == "10" && !env.taken("a")
    requires env.validate(CREATED) == Some(Normal("a", "q", false))
    ensures EditOne(env, inst, Edit([], []), RECREATION) == Ok(Edit([CREATED], []))
  {
    var none: seq<Route> := [];
    assert [DELETED][..0] == none && ByID([DELETED]) == map["9" := DELETED];
    assert WithInput(NO_ROUTE, RECREATION).(id := "10") == CREATED;
    assert Ids(none) == {} && Hostnames(none) == {} && |none| == 0;
    assert CREATED.(hostname := "a", url := "q", skipTLSVerify := false) == CREATED;
    assert Adopt(env, inst, CREATED, RECREATION, false) == Ok(CREATED);
    assert none + [CREATED] == [CREATED];
  }

  /** That is an edit the management API accepts. */
  lemma RecreationIsOneEdit(env: Env)
    requires env.newID(0) == "10" && !env.taken("a")
    requires env.validate(CREATED) == Some(Normal("a", "q", false))
    ensures Save(env, Instance([DELETED], []), [RECREATION]) == Ok(RECREATED)
  {
    hide EditOne;
    var inst := Instance([DELETED], []);
    CreatedInput(env, inst);
    assert [RECREATION][..0] == [] && EditAll(env, inst, []) == Ok(Edit([], []));
    assert [DELETED][..0] == [] && Deleted([], [CREATED]) == [] && Ids([CREATED]) == {"10"};
    assert Deleted([DELETED], [CREATED]) == [DELETED];
  }

  // ---- Adopted under a pending hostname ------------------------------------

  const PENDING: Route := Route("9", "a", "z", "url", "", "p", false, "", "", false, "a", "p", "", false)
  const ADOPTER: Route := Route("10", "b", "z", "url", "", "r", false, "a", "q", false, "", "", "", false)
  const ADOPTION: RouteInput := RouteInput("", "b", "z", "url", "", "r", false, "a")
  const UNCHANGED: RouteInput := RouteInput("9", "a", "z", "url", "", "p", false, "")

  ghost predicate AcceptsAdoption(env: Env) {
    && env.newID(0) == "10" && !env.taken("a") && !env.taken("b") && env.linked
    && env.validate(ADOPTER.(appliedHostname := "", appliedService := "")) == Some(Normal("b", "r", false))
    && env.validate(PENDING) == Some(Normal("a", "p", false))
    && env.cloud == Some(map["ingress" := JArr([ROW_A])])
    && env.reader.url("q") == Some(ParsedUrl("http", false, ""))
  }

  lemma AdoptsRowA(env: Env, inst: Instance, route: Route)
    requires AcceptsAdoption(env) && forall q :: q in inst.routes ==> q.appliedHostname != "a"
    ensures Adopt(env, inst, route, ADOPTION, false) == Ok(route.(appliedHostname := "a", appliedService := "q",
                                                                  appliedSkipTLSVerify := false))
  {
    var view := ViewOf(env.reader, ROW_A);
    assert Host(ROW_A) == "a" && Path(ROW_A) == "" && Service(ROW_A) == "q";
    assert view == View("q", "a", "q", "", true, false);
    assert Views(env.reader, [ROW_A]) == [view] && [view][1..] == [];
    assert Adoptable([view], "a") == [view];
  }

  lemma FirstItem(env: Env, inst: Instance)
    requires AcceptsAdoption(env) && inst == Instance([PENDING], [])
    ensures EditOne(env, inst, Edit([], []), ADOPTION) == Ok(Edit([ADOPTER], []))
  {
    hide Adopt;
    var none: seq<Route> := [];
    assert [PENDING][..0] == none && ByID([PENDING]) == map["9" := PENDING];
    var route := WithInput(NO_ROUTE, ADOPTION).(id := "10");
    assert route == ADOPTER.(appliedHostname := "", appliedService := "");
    assert Ids(none) == {} && Hostnames(none) == {} && |none| == 0;
    AdoptsRowA(env, inst, route);
    assert none + [ADOPTER] == [ADOPTER];
  }

  lemma SecondItem(env: Env, inst: Instance)
    requires AcceptsAdoption(env) && inst == Instance([PENDING], [])
    ensures EditOne(env, inst, Edit([ADOPTER], []), UNCHANGED) == Ok(Edit([ADOPTER, PENDING], []))
  {
    assert [PENDING][..0] == [] && ByID([PENDING]) == map["9" := PENDING];
    assert WithInput(PENDING, UNCHANGED) == PENDING;
    assert Ids([ADOPTER]) == {"10"} && Hostnames([ADOPTER]) == {"b"};
    assert [ADOPTER] + [PENDING] == [ADOPTER, PENDING];
  }

  /** A save adopts a row while a later route has its hostname pending with another
      service. It is accepted, and the merge of the same table is refused. */
  lemma PendingClaimBlocksAdoption(env: Env)
    requires AcceptsAdoption(env)
    ensures var now := Instance([ADOPTER, PENDING], []);
            && Save(env, Instance([PENDING], []), [ADOPTION, UNCHANGED]) == Ok(now)
            && Merge(env.socket, now, env.cloud.value) == Err(ServiceChanged)
  {
    BothItems(env);
    PendingOwnsRow(env);
  }

  lemma BothItems(env: Env)
    requires AcceptsAdoption(env)
    ensures Save(env, Instance([PENDING], []), [ADOPTION, UNCHANGED]) == Ok(Instance([ADOPTER, PENDING], []))
  {
    hide EditOne, AcceptsAdoption;
    var inst := Instance([PENDING], []);
    FirstItem(env, inst);
    SecondItem(env, inst);
    assert [ADOPTION, UNCHANGED][..1] == [ADOPTION] && [ADOPTION][..0] == [];
    assert EditAll(env, inst, [ADOPTION]) == Ok(Edit([ADOPTER], []));
    assert [PENDING][..0] == [] && PENDING in [ADOPTER, PENDING];
    assert Deleted([], [ADOPTER, PENDING]) == [] && Deleted([PENDING], [ADOPTER, PENDING]) == [];
  }

  lemma PendingOwnsRow(env: Env)
    requires AcceptsAdoption(env)
    ensures Merge(env.socket, Instance([ADOPTER, PENDING], []), env.cloud.value) == Err(ServiceChanged)
  {
    hide Hostnames, ByID, NewRows, Bind, UpdatedEntry, MergeRows;
    var now := Instance([ADOPTER, PENDING], []);
    assert now.retired + now.routes == [ADOPTER, PENDING];
    BindTwo(ADOPTER, PENDING);
    assert Host(ROW_A) == "a" && Path(ROW_A) == "" && Service(ROW_A) == "q";
    MergeAlone(env.socket, PlanOf(now), ROW_A);
  }

  // ---- Adopted twice -------------------------------------------------------

  const SECOND_ADOPTER: Route := Route("11", "c", "z", "url", "", "r", false, "a", "q", false, "", "", "", false)
  const ADOPTED_AGAIN: RouteInput := RouteInput("", "c", "z", "url", "", "r", false, "a")

  ghost predicate AcceptsBoth(env: Env) {
    && AcceptsAdoption(env) && env.newID(1) == "11" && !env.taken("c")
    && env.validate(SECOND_ADOPTER.(appliedHostname := "", appliedService := "")) == Some(Normal("c", "r", false))
  }

  lemma FirstAdoption(env: Env, inst: Instance)
    requires AcceptsBoth(env) && inst == Instance([], [])
    ensures EditOne(env, inst, Edit([], []), ADOPTION) == Ok(Edit([ADOPTER], []))
  {
    hide Adopt;
    var none: seq<Route> := [];
    var route := WithInput(NO_ROUTE, ADOPTION).(id := "10");
    assert route == ADOPTER.(appliedHostname := "", appliedService := "");
    assert Ids(none) == {} && Hostnames(none) == {} && |none| == 0;
    AdoptsRowA(env, inst, route);
    assert none + [ADOPTER] == [ADOPTER];
  }

  lemma SecondAdoption(env: Env, inst: Instance)
    requires AcceptsBoth(env) && inst == Instance([], [])
    ensures EditOne(env, inst, Edit([ADOPTER], []), ADOPTED_AGAIN) == Ok(Edit([ADOPTER, SECOND_ADOPTER], []))
  {
    hide Adopt;
    var route := WithInput(NO_ROUTE, ADOPTED_AGAIN).(id := "11");
    assert route == SECOND_ADOPTER.(appliedHostname := "", appliedService := "");
    assert Ids([ADOPTER]) == {"10"} && Hostnames([ADOPTER]) == {"b"} && |[ADOPTER]| == 1;
    AdoptsRowA(env, inst, route);
    SameAdoption(env, inst, route);
    assert [ADOPTER] + [SECOND_ADOPTER] == [ADOPTER, SECOND_ADOPTER];
  }

  lemma SameAdoption(env: Env, inst: Instance, route: Route)
    ensures Adopt(env, inst, route, ADOPTED_AGAIN, false) == Adopt(env, inst, route, ADOPTION, false)
  {
  }

  /** One save may adopt the same row into two routes, because only the records before
      the save are looked at; the second one owns it, and the merge succeeds. */
  lemma AdoptedTwiceIsAccepted(env: Env)
    requires AcceptsBoth(env)
    ensures var now := Instance([ADOPTER, SECOND_ADOPTER], []);
            && Save(env, Instance([], []), [ADOPTION, ADOPTED_AGAIN]) == Ok(now)
            && Owned(now) == map["a" := SECOND_ADOPTER] && Merge(env.socket, now, env.cloud.value).Ok?
  {
    hide EditOne, Hostnames, NewRows, UpdatedEntry, MergeRows, Finish, ByID, Bind;
    var inst, now := Instance([], []), Instance([ADOPTER, SECOND_ADOPTER], []);
    FirstAdoption(env, inst);
    SecondAdoption(env, inst);
    BothAdopted(env, inst);
    assert now.retired + now.routes == [ADOPTER, SECOND_ADOPTER];
    BindTwo(ADOPTER, SECOND_ADOPTER);
    ByIDTwo(ADOPTER, SECOND_ADOPTER);
    assert Host(ROW_A) == "a" && Path(ROW_A) == "" && Service(ROW_A) == "q";
    MergeAlone(env.socket, PlanOf(now), ROW_A);
  }

  lemma BothAdopted(env: Env, inst: Instance)
    requires inst == Instance([], [])
    requires EditOne(env, inst, Edit([], []), ADOPTION) == Ok(Edit([ADOPTER], []))
    requires EditOne(env, inst, Edit([ADOPTER], []), ADOPTED_AGAIN) == Ok(Edit([ADOPTER, SECOND_ADOPTER], []))
    ensures Save(env, inst, [ADOPTION, ADOPTED_AGAIN]) == Ok(Instance([ADOPTER, SECOND_ADOPTER], []))
  {
    hide EditOne;
    assert [ADOPTION, ADOPTED_AGAIN][..1] == [ADOPTION] && [ADOPTION][..0] == [];
    assert EditAll(env, inst, []) == Ok(Edit([], []));
    assert EditAll(env, inst, [ADOPTION]) == Ok(Edit([ADOPTER], []));
    var none: seq<Route> := [];
    assert none + Deleted(none, [ADOPTER, SECOND_ADOPTER]) == none;
  }
}
