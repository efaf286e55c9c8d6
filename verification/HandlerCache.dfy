/** The handlers a site keeps for its rules (internal/webproxy/server.go, reverse.go,
    dispatch.go, service_root.go): built on demand, dropped when a rule changes. */
module HandlerCache {
  import opened Wrappers

  /** A rule; `rest` stands for its remaining settings, compared as a whole. */
  datatype Rule = Rule(id: string, kind: string, enabled: bool, rest: int)

  type Rules = seq<Rule>

  /** A built handler: the rule it was built from, and which one it is. */
  datatype Handler = Handler(rule: Rule, serial: nat)

  datatype Failure = RuleUpdated | BuildFailed(rule: Rule)

  /** Everything that `handlerMu` guards. */
  datatype Cache = Cache(site: Rules, reverse: map<string, Handler>, errors: map<string, Rule>,
                         fixed: map<string, Handler>, built: nat)

  /** The rule of an ID; the last one should there be several. */
  function Find(site: Rules, id: string): Option<Rule> {
    if site == [] then None
    else
      var last := site[|site| - 1];
      if last.id == id then Some(last) else Find(site[..|site| - 1], id)
  }

  predicate Service(rule: Rule) {
    rule.enabled && (rule.kind == "webdav" || rule.kind == "cgi")
  }

  /** The first service rule with its ID. */
  predicate FirstService(site: Rules, i: nat)
    requires i < |site|
  {
    Service(site[i]) && forall j :: 0 <= j < i && Service(site[j]) ==> site[j].id != site[i].id
  }

  /** The first service rule of every ID that has no handler yet is the rule in force. */
  predicate NewInForce(kept: set<string>, site: Rules) {
    forall i :: 0 <= i < |site| && FirstService(site, i) && site[i].id !in kept ==>
                  Find(site, site[i].id) == Some(site[i])
  }

  /** So for all IDs; with unique IDs the first service rule is the only one. */
  predicate ServicesInForce(site: Rules) {
    NewInForce({}, site)
  }

  predicate UniqueIDs(site: Rules) {
    forall i, j :: 0 <= i < j < |site| ==> site[i].id != site[j].id
  }

  /** `currentRuleLocked`: the rule is, in all its settings, the one in force. */
  predicate Current(site: Rules, rule: Rule) {
    Find(site, rule.id) == Some(rule)
  }

  // ---- Requests ------------------------------------------------------------

  /** `reverseHandlerFor` with a rule from any snapshot; `builds` says whether the
      handler can be built. */
  function ReverseServed(c: Cache, rule: Rule, builds: bool): (Cache, Result<Handler, Failure>) {
    if !Current(c.site, rule) then (c, Err(RuleUpdated))
    else if rule.id in c.reverse then (c, Ok(c.reverse[rule.id]))
    else if rule.id in c.errors then (c, Err(BuildFailed(c.errors[rule.id])))
    else if !builds then (c.(errors := c.errors[rule.id := rule]), Err(BuildFailed(rule)))
    else
      var h := Handler(rule, c.built);
      (c.(reverse := c.reverse[rule.id := h], built := c.built + 1), Ok(h))
  }

  /** `staticHandlerFor`. */
  function StaticServed(c: Cache, rule: Rule): (Cache, Option<Handler>) {
    if !Current(c.site, rule) then (c, None)
    else if rule.id in c.fixed then (c, Some(c.fixed[rule.id]))
    else
      var h := Handler(rule, c.built);
      (c.(fixed := c.fixed[rule.id := h], built := c.built + 1), Some(h))
  }

  // ---- Updates -------------------------------------------------------------

  /** A rule of the old site that is not the same in the new one. */
  predicate Dropped(was: Rules, next: Rules, id: string) {
    Find(was, id).Some? && Find(next, id) != Find(was, id)
  }

  function Pruned<T>(m: map<string, T>, was: Rules, next: Rules): map<string, T> {
    map id | id in m && !Dropped(was, next, id) :: m[id]
  }

  /** `prepareServiceHandlers`: handlers bound to a directory are built at once. */
  function Prepared(c: Cache, rules: Rules): Cache {
    if rules == [] then c
    else
      var n := |rules| - 1;
      var before := Prepared(c, rules[..n]);
      if rules[n].id in before.fixed || !Service(rules[n]) then before
      else before.(fixed := before.fixed[rules[n].id := Handler(rules[n], before.built)], built := before.built + 1)
  }

  function Updated(c: Cache, site: Rules): Cache {
    var pruned := c.(reverse := Pruned(c.reverse, c.site, site), errors := Pruned(c.errors, c.site, site),
                     fixed := Pruned(c.fixed, c.site, site));
    Prepared(pruned, site).(site := site)
  }

  /** Reverse handlers an update shuts down. */
  function Retired(c: Cache, site: Rules): set<Handler> {
    set id | id in c.reverse && Dropped(c.site, site, id) :: c.reverse[id]
  }

  // ---- What every step keeps -----------------------------------------------

  predicate AllCurrent(m: map<string, Handler>, site: Rules) {
    forall id :: id in m ==> Find(site, id) == Some(m[id].rule)
  }

  /** Every cached handler, and every remembered failure, is of the rule in force. */
  predicate UpToDate(c: Cache) {
    && AllCurrent(c.reverse, c.site) && AllCurrent(c.fixed, c.site)
    && (forall id :: id in c.errors ==> Find(c.site, id) == Some(c.errors[id]))
  }

  lemma {:induction false} FindHasID(site: Rules, id: string)
    ensures Find(site, id).Some? ==> Find(site, id).value.id == id && Find(site, id).value in site
  {
    if site != [] && site[|site| - 1].id != id {
      FindHasID(site[..|site| - 1], id);
    }
  }

  lemma {:induction false} FindUnique(site: Rules, i: nat)
    requires UniqueIDs(site) && i < |site|
    ensures Find(site, site[i].id) == Some(site[i])
  {
    if i < |site| - 1 {
      FindUnique(site[..|site| - 1], i);
    }
  }

  lemma UniqueServicesAreInForce(site: Rules)
    requires UniqueIDs(site)
    ensures ServicesInForce(site)
  {
    forall i | 0 <= i < |site| ensures Find(site, site[i].id) == Some(site[i]) {
      FindUnique(site, i);
    }
  }

  lemma ReverseKeeps(c: Cache, rule: Rule, builds: bool)
    requires UpToDate(c)
    ensures UpToDate(ReverseServed(c, rule, builds).0)
  {
  }

  lemma StaticKeeps(c: Cache, rule: Rule)
    requires UpToDate(c)
    ensures UpToDate(StaticServed(c, rule).0)
  {
  }

  /** Preparing adds handlers of rules in force only, and keeps the ones there are. */
  lemma {:induction false} PreparedKeeps(c: Cache, site: Rules, n: nat)
    requires NewInForce(c.fixed.Keys, site) && AllCurrent(c.fixed, site) && n <= |site|
    ensures var p := Prepared(c, site[..n]);
            && AllCurrent(p.fixed, site) && p == c.(fixed := p.fixed, built := p.built)
            && (forall id :: id in c.fixed ==> id in p.fixed && p.fixed[id] == c.fixed[id])
            && (forall i :: 0 <= i < n && Service(site[i]) ==> site[i].id in p.fixed)
  {
    if n > 0 {
      PreparedKeeps(c, site, n - 1);
      assert site[..n][..n - 1] == site[..n - 1];
      var p := Prepared(c, site[..n - 1]);
      assert Service(site[n - 1]) && site[n - 1].id !in p.fixed ==> FirstService(site, n - 1);
    } else {
      assert site[..0] == [];
    }
  }

  /** The fixed handlers that an update keeps. */
  function KeptIDs(c: Cache, site: Rules): set<string> {
    Pruned(c.fixed, c.site, site).Keys
  }

  lemma UpdateKeeps(c: Cache, site: Rules)
    requires UpToDate(c) && NewInForce(KeptIDs(c, site), site)
    ensures UpToDate(Updated(c, site))
  {
    var pruned := c.(reverse := Pruned(c.reverse, c.site, site), errors := Pruned(c.errors, c.site, site),
                     fixed := Pruned(c.fixed, c.site, site));
    PreparedKeeps(pruned, site, |site|);
    assert site[..|site|] == site;
  }

  // ---- Whole runs ----------------------------------------------------------

  /** Requests come with a rule from whatever snapshot they were matched against. */
  datatype Event = Reverse(rule: Rule, builds: bool) | Fixed(rule: Rule) | Update(site: Rules)

  function Next(c: Cache, e: Event): Cache {
    match e
    case Reverse(rule, builds) => ReverseServed(c, rule, builds).0
    case Fixed(rule) => StaticServed(c, rule).0
    case Update(site) => Updated(c, site)
  }

  function Started(site: Rules): Cache {
    Prepared(Cache(site, map[], map[], map[], 0), site)
  }

  function Run(site: Rules, events: seq<Event>): Cache {
    if events == [] then Started(site) else Next(Run(site, events[..|events| - 1]), events[|events| - 1])
  }

  ghost predicate Proper(events: seq<Event>) {
    forall i :: 0 <= i < |events| && events[i].Update? ==> ServicesInForce(events[i].site)
  }

  /** Main result 1. After any interleaving of requests and updates every cached
      handler was built from the rule in force. */
  lemma {:induction false} NeverStale(site: Rules, events: seq<Event>)
    requires ServicesInForce(site) && Proper(events)
    ensures UpToDate(Run(site, events))
  {
    if events == [] {
      PreparedKeeps(Cache(site, map[], map[], map[], 0), site, |site|);
      assert site[..|site|] == site;
    } else {
      var n := |events| - 1;
      NeverStale(site, events[..n]);
      match events[n]
      case Reverse(rule, builds) => ReverseKeeps(Run(site, events[..n]), rule, builds);
      case Fixed(rule) => StaticKeeps(Run(site, events[..n]), rule);
      case Update(next) => UpdateKeeps(Run(site, events[..n]), next);
    }
  }

  /** Main result 2. A request is served by a handler of exactly its own rule, and only
      while that rule is in force: what was removed or changed does not come back. */
  lemma ServedByItsOwnRule(site: Rules, events: seq<Event>, rule: Rule, builds: bool)
    requires ServicesInForce(site) && Proper(events)
    ensures var c := Run(site, events);
            var answer, fixed := ReverseServed(c, rule, builds).1, StaticServed(c, rule).1;
            && (answer.Ok? ==> answer.value.rule == rule && Current(c.site, rule))
            && (fixed.Some? <==> Current(c.site, rule))
            && (fixed.Some? ==> fixed.value.rule == rule)
            && (!Current(c.site, rule) ==> answer == Err(RuleUpdated))
  {
    NeverStale(site, events);
  }

  /** Main result 3. An update keeps the very handlers of the rules it does not change,
      and no handler of another rule. */
  lemma UpdateKeepsExactlyUnchanged(c: Cache, site: Rules, id: string)
    requires UpToDate(c) && ServicesInForce(site)
    ensures id in Updated(c, site).reverse <==> id in c.reverse && Find(site, id) == Find(c.site, id)
    ensures id in Updated(c, site).reverse ==> Updated(c, site).reverse[id] == c.reverse[id]
    ensures id in c.reverse ==> (c.reverse[id] in Retired(c, site) || id in Updated(c, site).reverse)
    ensures id in c.fixed && Find(site, id) == Find(c.site, id) ==>
              id in Updated(c, site).fixed && Updated(c, site).fixed[id] == c.fixed[id]
  {
    var pruned := c.(reverse := Pruned(c.reverse, c.site, site), errors := Pruned(c.errors, c.site, site),
                     fixed := Pruned(c.fixed, c.site, site));
    PreparedKeeps(pruned, site, |site|);
    assert site[..|site|] == site;
  }

  // ---- What a request gets -------------------------------------------------

  /** The rule is on the site, and no later rule has its ID. */
  ghost predicate InForce(site: Rules, rule: Rule) {
    exists i :: 0 <= i < |site| && site[i] == rule && forall j :: i < j < |site| ==> site[j].id != rule.id
  }

  lemma {:induction false} CurrentExactlyWhen(site: Rules, rule: Rule)
    ensures Current(site, rule) <==> InForce(site, rule)
  {
    if site != [] {
      var n := |site| - 1;
      CurrentExactlyWhen(site[..n], rule);
      if InForce(site[..n], rule) && site[n].id != rule.id {
        var i :| 0 <= i < n && site[..n][i] == rule && forall j :: i < j < n ==> site[..n][j].id != rule.id;
        assert site[i] == rule;
        assert forall j :: i < j < n ==> site[j] == site[..n][j];
      }
      if InForce(site, rule) && site[n].id != rule.id {
        var i :| 0 <= i < |site| && site[i] == rule && forall j :: i < j < |site| ==> site[j].id != rule.id;
        assert site[..n][i] == rule;
        assert forall j :: i < j < n ==> site[j] == site[..n][j];
      }
    }
  }

  /** A request is refused exactly when its rule is not in force. Otherwise it gets the
      handler there is, or the failure remembered; and where there is neither, a new handler
      if that can be built. What it got is what the next one gets. */
  lemma ServedExactlyWhen(c: Cache, rule: Rule, builds: bool, again: bool)
    requires UpToDate(c)
    ensures var (next, answer) := ReverseServed(c, rule, builds);
            && (answer == Err(RuleUpdated) <==> !InForce(c.site, rule))
            && (answer.Ok? <==> InForce(c.site, rule) && (rule.id in c.reverse || (rule.id !in c.errors && builds)))
            && (answer.Ok? ==> answer.value.rule == rule && rule.id in next.reverse
                               && next.reverse == c.reverse[rule.id := answer.value])
            && (answer.Err? && answer.error.BuildFailed? ==> answer.error.rule == rule && rule.id in next.errors)
            && next.site == c.site && next.fixed == c.fixed
            && ReverseServed(next, rule, again).1 == answer
  {
    hide InForce;
    CurrentExactlyWhen(c.site, rule);
    assert rule.id in c.reverse && Current(c.site, rule) ==> c.reverse[c.reverse[rule.id].rule.id].rule == rule;
  }

  /** The same for fixed handlers, which can always be built. */
  lemma FixedServedExactlyWhen(c: Cache, rule: Rule)
    requires UpToDate(c)
    ensures var (next, answer) := StaticServed(c, rule);
            && (answer.Some? <==> InForce(c.site, rule))
            && (answer.Some? ==> answer.value.rule == rule && next.fixed == c.fixed[rule.id := answer.value])
            && next.site == c.site && next.reverse == c.reverse && next.errors == c.errors
            && StaticServed(next, rule).1 == answer
  {
    hide InForce;
    CurrentExactlyWhen(c.site, rule);
  }

  /** The failures that an update remembers are those of unchanged rules, and the reverse
      handlers that it gives back to be shut down are those of the others. */
  lemma UpdateForgetsExactly(c: Cache, site: Rules, id: string)
    requires UpToDate(c)
    ensures var next := Updated(c, site);
            && next.site == site
            && (id in next.errors <==> id in c.errors && Find(site, id) == Find(c.site, id))
            && (id in next.errors ==> next.errors[id] == c.errors[id])
    ensures forall h :: h in Retired(c, site) <==>
                          exists k :: k in c.reverse && c.reverse[k] == h && Find(site, k) != Find(c.site, k)
  {
    hide Find, Prepared;
    var pruned := c.(reverse := Pruned(c.reverse, c.site, site), errors := Pruned(c.errors, c.site, site),
                     fixed := Pruned(c.fixed, c.site, site));
    PreparedFrame(pruned, site);
  }

  /** A rule of this ID is to be prepared: WebDAV or CGI, and enabled. */
  ghost predicate HasService(site: Rules, id: string) {
    exists i :: && 0 <= i < |site| && site[i].id == id && site[i].enabled
                && (site[i].kind == "webdav" || site[i].kind == "cgi")
  }

  lemma {:induction false} PreparedExactly(c: Cache, rules: Rules, id: string)
    ensures id in Prepared(c, rules).fixed <==> id in c.fixed || HasService(rules, id)
  {
    hide HasService;
    if rules == [] {
      assert !HasService([], id) by {
        NoService(id);
      }
    } else {
      var n := |rules| - 1;
      PreparedExactly(c, rules[..n], id);
      HasServiceSnoc(rules, id);
    }
  }

  lemma NoService(id: string)
    ensures !HasService([], id)
  {
  }

  lemma HasServiceSnoc(rules: Rules, id: string)
    requires rules != []
    ensures var n := |rules| - 1;
            HasService(rules, id) <==> HasService(rules[..n], id) || (rules[n].id == id && Service(rules[n]))
  {
    var n := |rules| - 1;
    assert forall i :: 0 <= i < n ==> rules[..n][i] == rules[i];
  }

  /** After an update a fixed handler is there for an ID exactly when it was there and the
      rule is unchanged, or when a rule of that ID is to be prepared. */
  lemma UpdatePreparesExactly(c: Cache, site: Rules, id: string)
    requires UpToDate(c)
    ensures id in Updated(c, site).fixed
            <==> (id in c.fixed && Find(site, id) == Find(c.site, id)) || HasService(site, id)
  {
    hide Find, Prepared, HasService;
    var pruned := c.(reverse := Pruned(c.reverse, c.site, site), errors := Pruned(c.errors, c.site, site),
                     fixed := Pruned(c.fixed, c.site, site));
    PreparedExactly(pruned, site, id);
    assert id in c.fixed ==> Find(c.site, id).Some?;
  }

  // ---- Exactly when nothing goes stale --------------------------------------

  lemma {:induction false} FirstServiceStays(c: Cache, site: Rules, n: nat, i: nat)
    requires i < n <= |site| && FirstService(site, i) && site[i].id !in c.fixed
    ensures var p := Prepared(c, site[..n]).fixed; site[i].id in p && p[site[i].id].rule == site[i]
  {
    assert site[..n][..n - 1] == site[..n - 1];
    if i < n - 1 {
      FirstServiceStays(c, site, n - 1, i);
    } else {
      PreparedOnlyServices(c, site[..i], site[i].id);
    }
  }

  lemma {:induction false} PreparedOnlyServices(c: Cache, rules: Rules, id: string)
    requires id !in c.fixed && forall j :: 0 <= j < |rules| && Service(rules[j]) ==> rules[j].id != id
    ensures id !in Prepared(c, rules).fixed
  {
    if rules != [] {
      PreparedOnlyServices(c, rules[..|rules| - 1], id);
    }
  }

  /** Preparing a site leaves no stale handler if and only if what it adds is in force. */
  lemma PreparedExactlyWhen(c: Cache, site: Rules)
    requires AllCurrent(c.fixed, site)
    ensures AllCurrent(Prepared(c, site).fixed, site) <==> NewInForce(c.fixed.Keys, site)
  {
    assert site[..|site|] == site;
    if NewInForce(c.fixed.Keys, site) {
      PreparedKeeps(c, site, |site|);
    } else {
      var i :| 0 <= i < |site| && FirstService(site, i) && site[i].id !in c.fixed.Keys
               && Find(site, site[i].id) != Some(site[i]);
      FirstServiceStays(c, site, |site|, i);
    }
  }

  lemma StartIsUpToDateExactlyWhen(site: Rules)
    ensures UpToDate(Started(site)) <==> ServicesInForce(site)
  {
    var empty := Cache(site, map[], map[], map[], 0);
    PreparedFrame(empty, site);
    PreparedExactlyWhen(empty, site);
  }

  lemma UpdateIsUpToDateExactlyWhen(c: Cache, site: Rules)
    requires UpToDate(c)
    ensures UpToDate(Updated(c, site)) <==> NewInForce(KeptIDs(c, site), site)
  {
    var pruned := c.(reverse := Pruned(c.reverse, c.site, site), errors := Pruned(c.errors, c.site, site),
                     fixed := Pruned(c.fixed, c.site, site));
    PreparedFrame(pruned, site);
    PreparedExactlyWhen(pruned, site);
  }

  /** Every site a run meets has the new services in force, given the handlers kept at
      that time. */
  ghost predicate AlwaysInForce(site: Rules, events: seq<Event>) {
    && ServicesInForce(site)
    && forall k :: 0 <= k < |events| ==> UpdateInForce(site, events, k)
  }

  ghost predicate UpdateInForce(site: Rules, events: seq<Event>, k: nat)
    requires k < |events|
  {
    events[k].Update? ==> NewInForce(KeptIDs(Run(site, events[..k]), events[k].site), events[k].site)
  }

  lemma NextExactlyWhen(site: Rules, events: seq<Event>, k: nat)
    requires k < |events| && UpToDate(Run(site, events[..k]))
    ensures UpToDate(Run(site, events[..k + 1])) <==> UpdateInForce(site, events, k)
  {
    assert events[..k + 1][..k] == events[..k];
    var c := Run(site, events[..k]);
    match events[k]
    case Reverse(rule, builds) => ReverseKeeps(c, rule, builds);
    case Fixed(rule) => StaticKeeps(c, rule);
    case Update(next) => UpdateIsUpToDateExactlyWhen(c, next);
  }

  lemma {:induction false} InForceUpTo(site: Rules, events: seq<Event>, k: nat)
    requires AlwaysInForce(site, events) && k <= |events|
    ensures UpToDate(Run(site, events[..k]))
  {
    hide Run, UpToDate;
    if k == 0 {
      RunStarts(site);
      StartIsUpToDateExactlyWhen(site);
      assert events[..0] == [];
    } else {
      InForceUpTo(site, events, k - 1);
      NextExactlyWhen(site, events, k - 1);
    }
  }

  lemma RunStarts(site: Rules)
    ensures Run(site, []) == Started(site)
  {
  }

  /** Main result 4. The condition is exact: the cache is up to date all through a run
      if and only if every site it meets has its new services in force. */
  lemma NeverStaleExactlyWhen(site: Rules, events: seq<Event>)
    ensures (forall k :: 0 <= k <= |events| ==> UpToDate(Run(site, events[..k]))) <==> AlwaysInForce(site, events)
  {
    hide UpToDate, Run, UpdateInForce, ServicesInForce;
    if AlwaysInForce(site, events) {
      forall k | 0 <= k <= |events| ensures UpToDate(Run(site, events[..k])) {
        InForceUpTo(site, events, k);
      }
    }
    if forall k :: 0 <= k <= |events| ==> UpToDate(Run(site, events[..k])) {
      assert events[..0] == [] && UpToDate(Run(site, events[..0]));
      RunStarts(site);
      StartIsUpToDateExactlyWhen(site);
      forall k | 0 <= k < |events| ensures UpdateInForce(site, events, k) {
        assert UpToDate(Run(site, events[..k])) && UpToDate(Run(site, events[..k + 1]));
        NextExactlyWhen(site, events, k);
      }
    }
  }

  /** In particular when the rule IDs of every site are unique. */
  lemma UniqueIDsNeverGoStale(site: Rules, events: seq<Event>)
    requires UniqueIDs(site)
    requires forall i :: 0 <= i < |events| && events[i].Update? ==> UniqueIDs(events[i].site)
    ensures UpToDate(Run(site, events))
  {
    hide UniqueIDs, ServicesInForce, UpToDate, Run;
    UniqueServicesAreInForce(site);
    forall i | 0 <= i < |events| && events[i].Update? ensures ServicesInForce(events[i].site) {
      UniqueServicesAreInForce(events[i].site);
    }
    NeverStale(site, events);
  }

  /** With the same ID twice the first service's handler can be there while the last
      one is in force. */
  lemma DuplicateIDsGoStale()
    ensures !UpToDate(Started([Rule("a", "webdav", true, 1), Rule("a", "webdav", true, 2)]))
  {
    var site := [Rule("a", "webdav", true, 1), Rule("a", "webdav", true, 2)];
    assert FirstService(site, 0) && Find(site, "a") == Some(site[1]);
    StartIsUpToDateExactlyWhen(site);
  }

  // ---- The site ------------------------------------------------------------

  class SiteServer {
    var site: Rules
    var ruleIndex: Option<map<string, Rule>>
    var revHandler: map<string, Handler>
    var revErr: map<string, Rule>
    var staticHandler: map<string, Handler>
    var built: nat

    constructor (site: Rules)
      ensures Valid() && View() == Started(site)
    {
      this.site, ruleIndex := site, None;
      revHandler, revErr, staticHandler, built := map[], map[], map[], 0;
      new;
      PrepareServiceHandlers(site);
      PreparedFrame(Cache(site, map[], map[], map[], 0), site);
    }

    ghost function View(): Cache
      reads this
    {
      Cache(site, revHandler, revErr, staticHandler, built)
    }

    /** The index, once made, is that of the site. */
    ghost predicate Valid()
      reads this
    {
      ruleIndex.Some? ==> IndexOf(ruleIndex.value, site)
    }

    method PrepareServiceHandlers(rules: Rules)
      modifies `staticHandler, `built
      ensures var p := Prepared(old(View()), rules); staticHandler == p.fixed && built == p.built
    {
      for i := 0 to |rules|
        invariant var p := Prepared(old(View()), rules[..i]); staticHandler == p.fixed && built == p.built
      {
        assert rules[..i + 1][..i] == rules[..i];
        if rules[i].id !in staticHandler && Service(rules[i]) {
          staticHandler := staticHandler[rules[i].id := Handler(rules[i], built)];
          built := built + 1;
        }
      }
      assert rules[..|rules|] == rules;
    }

    method CurrentRuleLocked(rule: Rule) returns (current: bool)
      requires Valid()
      modifies `ruleIndex
      ensures Valid() && current == Current(site, rule)
    {
      if ruleIndex.None? {
        var index := MakeIndex(site);
        ruleIndex := Some(index);
      }
      var index := ruleIndex.value;
      current := rule.id in index && index[rule.id] == rule;
    }

    static method MakeIndex(rules: Rules) returns (index: map<string, Rule>)
      ensures IndexOf(index, rules)
    {
      index := map[];
      for i := 0 to |rules|
        invariant IndexOf(index, rules[..i])
      {
        assert rules[..i + 1][..i] == rules[..i];
        index := index[rules[i].id := rules[i]];
      }
      assert rules[..|rules|] == rules;
    }

    method ReverseHandlerFor(rule: Rule, builds: bool) returns (r: Result<Handler, Failure>)
      requires Valid()
      modifies this
      ensures Valid() && (View(), r) == ReverseServed(old(View()), rule, builds)
    {
      var current := CurrentRuleLocked(rule);
      if !current {
        return Err(RuleUpdated);
      }
      if rule.id in revHandler {
        return Ok(revHandler[rule.id]);
      }
      if rule.id in revErr {
        return Err(BuildFailed(revErr[rule.id]));
      }
      if !builds {
        revErr := revErr[rule.id := rule];
        return Err(BuildFailed(rule));
      }
      var h := Handler(rule, built);
      built := built + 1;
      revHandler := revHandler[rule.id := h];
      r := Ok(h);
    }

    method StaticHandlerFor(rule: Rule) returns (r: Option<Handler>)
      requires Valid()
      modifies this
      ensures Valid() && (View(), r) == StaticServed(old(View()), rule)
    {
      var current := CurrentRuleLocked(rule);
      if !current {
        return None;
      }
      if rule.id in staticHandler {
        return Some(staticHandler[rule.id]);
      }
      var h := Handler(rule, built);
      built := built + 1;
      staticHandler := staticHandler[rule.id := h];
      r := Some(h);
    }

    method UpdateSite(next: Rules) returns (retired: set<Handler>)
      requires Valid()
      modifies this
      ensures Valid() && View() == Updated(old(View()), next)
      ensures retired == Retired(old(View()), next)
    {
      var oldRules := MakeIndex(site);
      var nextRules := MakeIndex(next);
      retired := DropChanged(oldRules, nextRules, next);
      ghost var pruned := View();
      PrepareServiceHandlers(next);
      PreparedFrame(pruned, next);
      site := next;
      ruleIndex := Some(nextRules);
    }

    method DropChanged(oldRules: map<string, Rule>, nextRules: map<string, Rule>, ghost next: Rules)
      returns (retired: set<Handler>)
      requires IndexOf(oldRules, site) && IndexOf(nextRules, next)
      modifies `revHandler, `revErr, `staticHandler
      ensures revHandler == Pruned(old(revHandler), site, next) && revErr == Pruned(old(revErr), site, next)
      ensures staticHandler == Pruned(old(staticHandler), site, next)
      ensures retired == Retired(old(View()), next)
    {
      hide Find, Dropped, DroppedSoFar, RetiredSoFar, Pruned;
      retired := {};
      var todo := oldRules.Keys;
      NothingDropped(revHandler, oldRules, site, next);
      NothingDropped(revErr, oldRules, site, next);
      NothingDropped(staticHandler, oldRules, site, next);
      NothingRetired(revHandler, oldRules, site, next);
      while todo != {}
        invariant todo <= oldRules.Keys
        invariant revHandler == DroppedSoFar(old(revHandler), site, next, todo)
        invariant revErr == DroppedSoFar(old(revErr), site, next, todo)
        invariant staticHandler == DroppedSoFar(old(staticHandler), site, next, todo)
        invariant retired == RetiredSoFar(old(revHandler), site, next, todo)
        decreases |todo|
      {
        var id :| id in todo;
        DropStep(old(revHandler), site, next, todo, id);
        DropStep(old(revErr), site, next, todo, id);
        DropStep(old(staticHandler), site, next, todo, id);
        RetireStep(old(revHandler), site, next, todo, id);
        DroppedByIndex(oldRules, nextRules, site, next, id);
        todo := todo - {id};
        if !(id in nextRules && oldRules[id] == nextRules[id]) {
          if id in revHandler {
            retired := retired + {revHandler[id]};
          }
          revHandler, revErr, staticHandler := revHandler - {id}, revErr - {id}, staticHandler - {id};
        }
      }
      AllDropped(old(revHandler), site, next);
      AllDropped(old(revErr), site, next);
      AllDropped(old(staticHandler), site, next);
      AllRetired(old(View()), next);
    }
  }

  lemma DroppedByIndex(oldRules: map<string, Rule>, nextRules: map<string, Rule>, was: Rules, next: Rules, id: string)
    requires IndexOf(oldRules, was) && IndexOf(nextRules, next) && id in oldRules
    ensures Dropped(was, next, id) <==> !(id in nextRules && oldRules[id] == nextRules[id])
  {
  }

  lemma NothingDropped<T>(m: map<string, T>, oldRules: map<string, Rule>, was: Rules, next: Rules)
    requires IndexOf(oldRules, was)
    ensures DroppedSoFar(m, was, next, oldRules.Keys) == m
  {
  }

  lemma NothingRetired(m: map<string, Handler>, oldRules: map<string, Rule>, was: Rules, next: Rules)
    requires IndexOf(oldRules, was)
    ensures RetiredSoFar(m, was, next, oldRules.Keys) == {}
  {
  }

  lemma AllDropped<T>(m: map<string, T>, was: Rules, next: Rules)
    ensures DroppedSoFar(m, was, next, {}) == Pruned(m, was, next)
  {
  }

  lemma AllRetired(c: Cache, site: Rules)
    ensures RetiredSoFar(c.reverse, c.site, site, {}) == Retired(c, site)
  {
  }

  lemma DropStep<T>(m: map<string, T>, was: Rules, next: Rules, todo: set<string>, id: string)
    requires id in todo
    ensures DroppedSoFar(m, was, next, todo - {id})
            == if Dropped(was, next, id) then DroppedSoFar(m, was, next, todo) - {id}
               else DroppedSoFar(m, was, next, todo)
    ensures id in DroppedSoFar(m, was, next, todo) <==> id in m
    ensures id in m ==> DroppedSoFar(m, was, next, todo)[id] == m[id]
  {
  }

  lemma RetireStep(m: map<string, Handler>, was: Rules, next: Rules, todo: set<string>, id: string)
    requires id in todo
    ensures RetiredSoFar(m, was, next, todo - {id})
            == RetiredSoFar(m, was, next, todo) + if Dropped(was, next, id) && id in m then {m[id]} else {}
  {
    var before, after := RetiredSoFar(m, was, next, todo), RetiredSoFar(m, was, next, todo - {id});
    forall h | h in after ensures h in before || (Dropped(was, next, id) && id in m && h == m[id]) {
      var k :| k in m && Dropped(was, next, k) && k !in todo - {id} && m[k] == h;
    }
  }

  function RetiredSoFar(m: map<string, Handler>, was: Rules, next: Rules, todo: set<string>): set<Handler> {
    set id | id in m && Dropped(was, next, id) && id !in todo :: m[id]
  }

  ghost predicate IndexOf(index: map<string, Rule>, site: Rules) {
    forall id :: if id in index then Find(site, id) == Some(index[id]) else Find(site, id).None?
  }

  function DroppedSoFar<T>(m: map<string, T>, was: Rules, next: Rules, todo: set<string>): map<string, T> {
    map id | id in m && (id in todo || !Dropped(was, next, id)) :: m[id]
  }

  lemma {:induction false} PreparedFrame(c: Cache, rules: Rules)
    ensures Prepared(c, rules) == c.(fixed := Prepared(c, rules).fixed, built := Prepared(c, rules).built)
  {
    if rules != [] {
      PreparedFrame(c, rules[..|rules| - 1]);
    }
  }
}
