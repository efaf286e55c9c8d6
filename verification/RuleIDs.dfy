/** The IDs that the API gives to the rules of a site before it saves them
    (`ensureRuleIDs`, internal/webproxy/api.go). They keep the cached handlers of
    `HandlerCache` in force. */
module RuleIDs {
  import opened HandlerCache

  function IDs(rules: Rules): set<string> {
    set i | 0 <= i < |rules| :: rules[i].id
  }

  /** A rule without an ID, or with that of a rule before it, gets a new one. */
  predicate Renamed(before: Rules, rule: Rule) {
    rule.id == "" || rule.id in IDs(before)
  }

  /** The rules with their IDs; `drawn[i]` is what `ids.New` returns for rule i. */
  function Identified(rules: Rules, drawn: seq<string>): (out: Rules)
    requires |drawn| == |rules|
    ensures |out| == |rules|
  {
    if rules == [] then []
    else
      var n := |rules| - 1;
      var before := Identified(rules[..n], drawn[..n]);
      before + [if Renamed(before, rules[n]) then rules[n].(id := drawn[n]) else rules[n]]
  }

  method EnsureRuleIDs(rules: array<Rule>, drawn: seq<string>)
    requires |drawn| == rules.Length
    modifies rules
    ensures rules[..] == Identified(old(rules[..]), drawn)
  {
    hide Identified;
    ghost var was := rules[..];
    var seen: set<string> := {};
    IdentifiedStarts(was, drawn);
    for i := 0 to rules.Length
      invariant rules[..i] == Identified(was[..i], drawn[..i]) && rules[i..] == was[i..]
      invariant seen == IDs(rules[..i])
    {
      IdentifiedStep(was, drawn, i);
      ghost var before := rules[..i];
      assert rules[i] == was[i] by {
        assert rules[i..][0] == was[i..][0];
      }
      if rules[i].id == "" || rules[i].id in seen {
        rules[i] := rules[i].(id := drawn[i]);
      }
      seen := seen + {rules[i].id};
      assert rules[..i] == before && rules[..i + 1] == before + [rules[i]];
      OneMoreID(before, rules[i]);
      assert rules[i + 1..] == was[i..][1..];
    }
    assert rules[..rules.Length] == rules[..] && was[..rules.Length] == was && drawn[..rules.Length] == drawn;
  }

  lemma IdentifiedStarts(rules: Rules, drawn: seq<string>)
    requires |drawn| == |rules|
    ensures Identified(rules[..0], drawn[..0]) == [] && IDs([]) == {}
  {
  }

  lemma IdentifiedStep(rules: Rules, drawn: seq<string>, i: nat)
    requires i < |rules| == |drawn|
    ensures var before := Identified(rules[..i], drawn[..i]);
            Identified(rules[..i + 1], drawn[..i + 1])
            == before + [if Renamed(before, rules[i]) then rules[i].(id := drawn[i]) else rules[i]]
  {
    assert rules[..i + 1][..i] == rules[..i] && drawn[..i + 1][..i] == drawn[..i];
  }

  lemma OneMoreID(rules: Rules, rule: Rule)
    ensures IDs(rules + [rule]) == IDs(rules) + {rule.id}
  {
    var all := rules + [rule];
    assert all[|rules|] == rule;
    forall i | 0 <= i < |rules| ensures rules[i].id in IDs(all) {
      assert all[i] == rules[i];
    }
  }

  // ---- What the IDs are ----------------------------------------------------

  lemma {:induction false} IdentifiedPrefix(rules: Rules, drawn: seq<string>, n: nat)
    requires n <= |rules| == |drawn|
    ensures Identified(rules, drawn)[..n] == Identified(rules[..n], drawn[..n])
  {
    var last := |rules| - 1;
    if n == |rules| {
      assert rules[..n] == rules && drawn[..n] == drawn;
    } else {
      IdentifiedPrefix(rules[..last], drawn[..last], n);
      assert rules[..last][..n] == rules[..n] && drawn[..last][..n] == drawn[..n];
    }
  }

  /** Nothing but the ID changes, and that exactly for rules that need another one. */
  lemma IdentifiedAt(rules: Rules, drawn: seq<string>, i: nat)
    requires i < |rules| == |drawn|
    ensures var out := Identified(rules, drawn);
            out[i] == if Renamed(out[..i], rules[i]) then rules[i].(id := drawn[i]) else rules[i]
  {
    hide Renamed;
    IdentifiedPrefix(rules, drawn, i);
    IdentifiedPrefix(rules, drawn, i + 1);
    IdentifiedStep(rules, drawn, i);
    assert Identified(rules, drawn)[..i + 1][i] == Identified(rules, drawn)[i];
  }

  lemma {:induction false} UniqueStep(rules: Rules, n: nat)
    requires n < |rules|
    ensures UniqueIDs(rules[..n + 1]) <==> UniqueIDs(rules[..n]) && rules[n].id !in IDs(rules[..n])
  {
    var now, before := rules[..n + 1], rules[..n];
    assert forall i :: 0 <= i < n ==> now[i] == before[i];
    assert forall i :: 0 <= i < n ==> before[i].id in IDs(before);
    if rules[n].id in IDs(before) {
      var i :| 0 <= i < n && before[i].id == rules[n].id;
      assert now[i].id == now[n].id;
    }
  }

  /** No drawn ID is that of a rule before it. */
  ghost predicate DrawnApart(rules: Rules, drawn: seq<string>)
    requires |drawn| == |rules|
  {
    var out := Identified(rules, drawn);
    forall i :: 0 <= i < |rules| && Renamed(out[..i], rules[i]) ==> drawn[i] !in IDs(out[..i])
  }

  lemma {:induction false} UniqueUpTo(rules: Rules, drawn: seq<string>, n: nat)
    requires n <= |rules| == |drawn|
    ensures var out := Identified(rules, drawn);
            UniqueIDs(out[..n])
            <==> forall i :: 0 <= i < n && Renamed(out[..i], rules[i]) ==> drawn[i] !in IDs(out[..i])
  {
    hide Identified, UniqueIDs, IDs;
    var out := Identified(rules, drawn);
    if n == 0 {
      NoRulesUnique(out[..0]);
    } else {
      UniqueUpTo(rules, drawn, n - 1);
      UniqueStep(out, n - 1);
      IdentifiedAt(rules, drawn, n - 1);
    }
  }

  lemma NoRulesUnique(rules: Rules)
    requires rules == []
    ensures UniqueIDs(rules)
  {
  }

  /** Main result 1. The IDs are unique if and only if none is drawn that a rule before
      it has: the loop does not look at what it draws. */
  lemma UniqueExactlyWhen(rules: Rules, drawn: seq<string>)
    requires |drawn| == |rules|
    ensures UniqueIDs(Identified(rules, drawn)) <==> DrawnApart(rules, drawn)
  {
    hide Identified, UniqueIDs, Renamed;
    UniqueUpTo(rules, drawn, |rules|);
    assert Identified(rules, drawn)[..|rules|] == Identified(rules, drawn);
  }

  /** What random IDs are like: not in use and never the same twice. */
  ghost predicate Random(rules: Rules, drawn: seq<string>) {
    && (forall i :: 0 <= i < |drawn| ==> drawn[i] !in IDs(rules))
    && (forall i, j :: 0 <= i < j < |drawn| ==> drawn[i] != drawn[j])
  }

  /** Each ID is that of the rule or the one drawn for it. */
  lemma IDComesFrom(rules: Rules, drawn: seq<string>, n: nat, id: string) returns (k: nat)
    requires n <= |rules| == |drawn| && id in IDs(Identified(rules, drawn)[..n])
    ensures k < n && (id == rules[k].id || id == drawn[k])
  {
    var out := Identified(rules, drawn);
    k :| 0 <= k < n && out[..n][k].id == id;
    IdentifiedAt(rules, drawn, k);
  }

  lemma RandomIsApart(rules: Rules, drawn: seq<string>)
    requires |drawn| == |rules| && Random(rules, drawn)
    ensures DrawnApart(rules, drawn)
  {
    hide Identified, Renamed;
    var out := Identified(rules, drawn);
    forall i, id | 0 <= i < |rules| && id in IDs(out[..i]) ensures id != drawn[i] {
      var k := IDComesFrom(rules, drawn, i, id);
      assert rules[k].id in IDs(rules);
    }
  }

  /** Main result 2. With random IDs all IDs are unique, and exactly the first rule of
      every ID keeps its own. */
  lemma FirstOfEachKeepsItsID(rules: Rules, drawn: seq<string>, i: nat)
    requires i < |rules| == |drawn| && Random(rules, drawn)
    ensures UniqueIDs(Identified(rules, drawn))
    ensures Identified(rules, drawn)[i].id == rules[i].id
            <==> rules[i].id != "" && forall j :: 0 <= j < i ==> rules[j].id != rules[i].id
    ensures Identified(rules, drawn)[i] == rules[i].(id := Identified(rules, drawn)[i].id)
  {
    hide Identified, UniqueIDs;
    RandomIsApart(rules, drawn);
    UniqueExactlyWhen(rules, drawn);
    IdentifiedAt(rules, drawn, i);
    assert rules[i].id in IDs(rules) && drawn[i] !in IDs(rules);
    if rules[i].id != "" {
      SeenBefore(rules, drawn, i);
    }
  }

  lemma {:induction false} SeenBefore(rules: Rules, drawn: seq<string>, i: nat)
    requires i < |rules| == |drawn| && Random(rules, drawn) && rules[i].id != ""
    ensures rules[i].id in IDs(Identified(rules, drawn)[..i])
            <==> exists j :: 0 <= j < i && rules[j].id == rules[i].id
  {
    hide Identified;
    var out := Identified(rules, drawn);
    assert rules[i].id in IDs(rules);
    if rules[i].id in IDs(out[..i]) {
      var k := IDComesFrom(rules, drawn, i, rules[i].id);
      assert drawn[k] !in IDs(rules);
    }
    if j :| 0 <= j < i && rules[j].id == rules[i].id {
      IdentifiedAt(rules, drawn, j);
      assert out[..i][j] == out[j];
      if Renamed(out[..j], rules[j]) {
        SeenEarlier(out, j, i, rules[j].id);
      }
    }
  }

  lemma SeenEarlier(out: Rules, j: nat, i: nat, id: string)
    requires j <= i <= |out| && id in IDs(out[..j])
    ensures id in IDs(out[..i])
  {
    var k :| 0 <= k < j && out[..j][k].id == id;
    assert out[..i][k] == out[k];
  }

  // ---- Sites the API saves -------------------------------------------------

  predicate SameIDs(a: Rules, b: Rules) {
    |a| == |b| && forall i :: 0 <= i < |a| ==> a[i].id == b[i].id
  }

  /** Every change through the API gives the rules their IDs before it saves them; what
      it still changes after that are other settings. */
  ghost predicate SavedByAPI(site: Rules) {
    exists rules: Rules, drawn :: |drawn| == |rules| && Random(rules, drawn) && SameIDs(site, Identified(rules, drawn))
  }

  lemma SavedIsUnique(site: Rules)
    requires SavedByAPI(site)
    ensures UniqueIDs(site)
  {
    hide Identified, Random;
    var rules: Rules, drawn :| |drawn| == |rules| && Random(rules, drawn) && SameIDs(site, Identified(rules, drawn));
    RandomIsApart(rules, drawn);
    UniqueExactlyWhen(rules, drawn);
  }

  /** Main result 3. While the sites come from the API, no cached handler is ever
      stale. */
  lemma SavedNeverGoStale(site: Rules, events: seq<Event>)
    requires SavedByAPI(site)
    requires forall i :: 0 <= i < |events| && events[i].Update? ==> SavedByAPI(events[i].site)
    ensures UpToDate(Run(site, events))
  {
    hide SavedByAPI, UniqueIDs, UpToDate, Run;
    SavedIsUnique(site);
    forall i | 0 <= i < |events| && events[i].Update? ensures UniqueIDs(events[i].site) {
      SavedIsUnique(events[i].site);
    }
    UniqueIDsNeverGoStale(site, events);
  }
}
