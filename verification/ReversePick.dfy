/** Choosing a backend for a request (internal/webproxy/reverse.go): `Pick` walks the
    node list in place, adding to and subtracting from `currentWeight` as it goes. */
module ReversePick {
  import opened Counters
  import opened Tallies
  import opened Wrappers
  import opened Scheduler

  const DEFAULT_CONCURRENT: nat := 4096
  const COUNTER_RANGE: nat := 0x1_0000_0000_0000_0000

  class ProxyEntry {
    const active: Counter // shared by the entries of the same pool node
    const weight: nat
    const maxConcurrent: nat
    var currentWeight: int
    var coolUntil: int
    var up: bool

    constructor (active: Counter, weight: nat, maxConcurrent: nat)
      ensures this.active == active && this.weight == weight && this.maxConcurrent == maxConcurrent
      ensures currentWeight == 0 && coolUntil == 0 && up
    {
      this.active := active;
      this.weight := weight;
      this.maxConcurrent := maxConcurrent;
      currentWeight, coolUntil, up := 0, 0, true;
    }
  }

  /** The first configured limit: the node's, the pool's, the default. */
  function LimitOf(node: nat, pool: nat): nat {
    if node != 0 then node else if pool != 0 then pool else DEFAULT_CONCURRENT
  }

  lemma NoPrefix(raised: Weights, weight: seq<nat>, eligible: seq<bool>)
    ensures Best(raised[..0], eligible[..0]).None? && Total(weight[..0], eligible[..0]) == 0
  {
  }

  /** Looking at one more node. */
  lemma PrefixStep(raised: Weights, weight: seq<nat>, eligible: seq<bool>, n: nat)
    requires n < |raised| == |weight| == |eligible|
    ensures var best := Best(raised[..n], eligible[..n]);
            Best(raised[..n + 1], eligible[..n + 1])
            == if eligible[n] && (best.None? || (best.value < n && raised[n] > raised[best.value])) then Some(n)
               else best
    ensures Total(weight[..n + 1], eligible[..n + 1])
            == Total(weight[..n], eligible[..n]) + if eligible[n] then weight[n] else 0
  {
    assert raised[..n + 1][..n] == raised[..n] && eligible[..n + 1][..n] == eligible[..n];
    assert weight[..n + 1][..n] == weight[..n];
  }

  class ReverseHandler {
    const pool: Option<nat>
    const proxies: seq<ProxyEntry>
    var counter: nat
    var activeCheck: bool

    constructor (pool: Option<nat>, proxies: seq<ProxyEntry>)
      requires |proxies| > 0
      requires forall i, j :: 0 <= i < j < |proxies| ==> proxies[i] != proxies[j]
      ensures this.pool == pool && this.proxies == proxies && Valid() && counter == 0 && !activeCheck
    {
      this.pool, this.proxies := pool, proxies;
      counter, activeCheck := 0, false;
    }

    ghost predicate Valid()
      reads this
    {
      && |proxies| > 0
      && counter < COUNTER_RANGE
      && forall i, j :: 0 <= i < j < |proxies| ==> proxies[i] != proxies[j]
    }

    ghost function CounterSet(): set<Counter> {
      set e | e in proxies :: e.active
    }

    function CurrentWeights(): (w: Weights)
      reads proxies
      ensures |w| == |proxies|
    {
      seq(|proxies|, i requires 0 <= i < |proxies| reads proxies => proxies[i].currentWeight)
    }

    function ConfiguredWeights(): (w: seq<nat>)
      ensures |w| == |proxies|
    {
      seq(|proxies|, i requires 0 <= i < |proxies| => proxies[i].weight)
    }

    /** Taken out by the caller, by the active check, by a cool-down, or full. */
    predicate Admits(e: ProxyEntry, exclude: ProxyEntry?, now: int)
      requires pool.Some?
      reads `activeCheck, e`up, e`coolUntil, e.active
    {
      && e != exclude
      && !(activeCheck && !e.up)
      && e.coolUntil <= now
      && e.active.value < LimitOf(e.maxConcurrent, pool.value)
    }

    ghost function Eligible(exclude: ProxyEntry?, now: int): (r: seq<bool>)
      requires pool.Some?
      reads this, proxies, CounterSet()
      ensures |r| == |proxies|
    {
      seq(|proxies|, i requires 0 <= i < |proxies| reads this, proxies, CounterSet() =>
          Admits(proxies[i], exclude, now))
    }

    lemma EligibleAre(exclude: ProxyEntry?, now: int, eligible: seq<bool>)
      requires pool.Some? && |eligible| == |proxies|
      ensures eligible == Eligible(exclude, now)
              <==> forall i :: 0 <= i < |proxies| ==> eligible[i] == Admits(proxies[i], exclude, now)
    {
      hide Admits;
    }

    /** Without a pool: not excluded, not taken out, and not cooling down. */
    predicate Available(e: ProxyEntry, exclude: ProxyEntry?, now: int)
      reads `activeCheck, e`up, e`coolUntil
    {
      e != exclude && !(activeCheck && !e.up) && e.coolUntil <= now
    }

    ghost predicate Chosen(best: ProxyEntry?, choice: Option<nat>, n: nat)
      requires n <= |proxies|
    {
      match choice
      case None => best == null
      case Some(b) => b < n && best == proxies[b]
    }

    ghost predicate Shapes(current: Weights, weight: seq<nat>, eligible: seq<bool>, raised: Weights) {
      && |proxies| == |current| && Shaped(current, weight, eligible)
      && raised == Raised(current, weight, eligible)
      && weight == ConfiguredWeights()
    }

    /** Nodes before n are raised, the others are as they were. */
    ghost predicate RaisedTo(current: Weights, raised: Weights, n: nat)
      requires |current| == |raised| == |proxies|
      reads proxies
    {
      forall i :: 0 <= i < |proxies| ==> proxies[i].currentWeight == if i < n then raised[i] else current[i]
    }

    method Consider(n: nat, exclude: ProxyEntry?, now: int, total: nat, best: ProxyEntry?,
                    ghost current: Weights, ghost weight: seq<nat>, ghost eligible: seq<bool>, ghost raised: Weights)
      returns (total': nat, best': ProxyEntry?)
      requires Valid() && pool.Some? && n < |proxies|
      requires Shapes(current, weight, eligible, raised) && eligible[n] == Admits(proxies[n], exclude, now)
      requires RaisedTo(current, raised, n) && total == Total(weight[..n], eligible[..n])
      requires Chosen(best, Best(raised[..n], eligible[..n]), n)
      modifies proxies`currentWeight
      ensures RaisedTo(current, raised, n + 1) && total' == Total(weight[..n + 1], eligible[..n + 1])
      ensures Chosen(best', Best(raised[..n + 1], eligible[..n + 1]), n + 1)
    {
      hide Best, Total;
      PrefixStep(raised, weight, eligible, n);
      var e := proxies[n];
      total', best' := total, best;
      if Admits(e, exclude, now) {
        e.currentWeight := e.currentWeight + e.weight;
        total' := total + e.weight;
        if best == null || e.currentWeight > best.currentWeight {
          best' := e;
        }
      }
    }

    /** A pool's nodes share the work by smooth weighted round robin. */
    method PickWeighted(exclude: ProxyEntry?, now: int) returns (best: ProxyEntry?)
      requires Valid() && pool.Some?
      modifies proxies`currentWeight
      ensures Valid()
      ensures var choice := Choose(old(CurrentWeights()), ConfiguredWeights(), old(Eligible(exclude, now)));
              CurrentWeights() == choice.current && Chosen(best, choice.best, |proxies|)
      ensures Eligible(exclude, now) == old(Eligible(exclude, now))
      ensures Sum(CurrentWeights()) == old(Sum(CurrentWeights()))
    {
      hide Best, Total, Eligible, Sum, Choose;
      ghost var current, weight, eligible := CurrentWeights(), ConfiguredWeights(), Eligible(exclude, now);
      EligibleAre(exclude, now, eligible);
      ghost var raised := Raised(current, weight, eligible);
      var total := 0;
      best := null;
      NoPrefix(raised, weight, eligible);
      for n := 0 to |proxies|
        invariant RaisedTo(current, raised, n)
        invariant forall i :: 0 <= i < |proxies| ==> eligible[i] == Admits(proxies[i], exclude, now)
        invariant total == Total(weight[..n], eligible[..n])
        invariant Chosen(best, Best(raised[..n], eligible[..n]), n)
      {
        total, best := Consider(n, exclude, now, total, best, current, weight, eligible, raised);
      }
      assert raised[..|proxies|] == raised && weight[..|proxies|] == weight && eligible[..|proxies|] == eligible;
      TakeTotal(best, total, current, weight, eligible, raised);
      EligibleAre(exclude, now, eligible);
    }

    method TakeTotal(best: ProxyEntry?, total: nat,
                     ghost current: Weights, ghost weight: seq<nat>, ghost eligible: seq<bool>, ghost raised: Weights)
      requires Valid() && Shapes(current, weight, eligible, raised) && RaisedTo(current, raised, |proxies|)
      requires total == Total(weight, eligible) && Chosen(best, Best(raised, eligible), |proxies|)
      modifies proxies`currentWeight
      ensures CurrentWeights() == Choose(current, weight, eligible).current
      ensures Chosen(best, Choose(current, weight, eligible).best, |proxies|)
      ensures Sum(CurrentWeights()) == Sum(current)
    {
      hide Best, Total, Sum;
      ChooseKeepsSum(current, weight, eligible);
      if best != null {
        best.currentWeight := best.currentWeight - total;
      }
    }

    /** The nodes in turn, from the position the counter has reached. */
    ghost function Turn(c: nat, k: nat): ProxyEntry
      requires |proxies| > 0
    {
      proxies[(c + k) % |proxies|]
    }

    /** As the loops compute it. */
    function At(start: nat, k: nat): ProxyEntry
      requires |proxies| > 0
    {
      proxies[(start % |proxies| + k) % |proxies|]
    }

    lemma TurnAt(c: nat, k: nat)
      requires |proxies| > 0
      ensures Turn(c, k) == At(c, k)
    {
      AddWrapped(c, k, |proxies|);
    }

    /** Why the k-th node in turn is passed over at first. */
    ghost predicate Unusable(e: ProxyEntry, exclude: ProxyEntry?, now: int)
      reads this, e
    {
      e == exclude || (activeCheck && !e.up) || e.coolUntil > now
    }

    /** The first usable node in turn; when there is none, the first that is not excluded;
        and the excluded one when there is no other. */
    ghost predicate InTurn(c: nat, exclude: ProxyEntry?, now: int, e: ProxyEntry?)
      requires |proxies| > 0
      reads this, proxies
    {
      var n := |proxies|;
      || (exists k :: && 0 <= k < n && e == Turn(c, k) && !Unusable(Turn(c, k), exclude, now)
                      && forall j :: 0 <= j < k ==> Unusable(Turn(c, j), exclude, now))
      || ((forall j :: 0 <= j < n ==> Unusable(Turn(c, j), exclude, now))
          && ((exists k :: && 0 <= k < n && e == Turn(c, k) && e != exclude
                           && forall j :: 0 <= j < k ==> Turn(c, j) == exclude)
              || (e == exclude && forall j :: 0 <= j < n ==> Turn(c, j) == exclude)))
    }

    /** Every node comes up exactly once in as many turns as there are nodes. */
    lemma EveryNodeHasItsTurn(c: nat, i: nat)
      requires Valid() && i < |proxies|
      ensures exists k :: 0 <= k < |proxies| && Turn(c, k) == proxies[i]
      ensures forall j, k :: 0 <= j < k < |proxies| ==> Turn(c, j) != Turn(c, k)
    {
      var n, s := |proxies|, c % |proxies|;
      var k := if i >= s then i - s else i + n - s;
      hide Turn;
      TurnAt(c, k);
      WrapOnce(s + k, n);
      assert Turn(c, k) == proxies[i];
      forall j, k | 0 <= j < k < n ensures Turn(c, j) != Turn(c, k) {
        TurnAt(c, j);
        TurnAt(c, k);
        WrapOnce(s + j, n);
        WrapOnce(s + k, n);
      }
    }

    /** Without a pool the nodes take turns: the first available one from the
        counter's position, failing that the first that is not excluded. */
    method PickInTurn(exclude: ProxyEntry?, now: int) returns (e: ProxyEntry?)
      requires Valid()
      modifies `counter
      ensures Valid() && counter == if old(counter) + 1 == COUNTER_RANGE then 0 else old(counter) + 1
      ensures InTurn(old(counter), exclude, now, e)
    {
      hide Turn, At;
      var n, c := |proxies|, counter;
      var next := if c + 1 == COUNTER_RANGE then 0 else c + 1;
      counter := next;
      for k := 0 to n
        invariant counter == next
        invariant forall j :: 0 <= j < k ==> Unusable(Turn(c, j), exclude, now)
      {
        TurnAt(c, k);
        e := At(c, k);
        if Available(e, exclude, now) {
          return;
        }
      }
      for k := 0 to n
        invariant counter == next
        invariant forall j :: 0 <= j < k ==> Turn(c, j) == exclude
      {
        TurnAt(c, k);
        e := At(c, k);
        if e != exclude {
          return;
        }
      }
      e := exclude;
    }

    /** What keeps a node of a pool from being chosen, and its limit: its own, or else
        the pool's, or else 4096. */
    ghost predicate Unfit(e: ProxyEntry, exclude: ProxyEntry?, now: int)
      requires pool.Some?
      reads this, e, e.active
    {
      || e == exclude || (activeCheck && !e.up) || e.coolUntil > now
      || e.active.value >= (if e.maxConcurrent != 0 then e.maxConcurrent
                            else if pool.value != 0 then pool.value else 4096)
    }

    /** The first among the fit nodes with the greatest weight, raised by its own. */
    ghost predicate FirstHeaviest(b: nat, exclude: ProxyEntry?, now: int, current: Weights)
      requires pool.Some? && |current| == |proxies|
      reads this, proxies, CounterSet()
    {
      && b < |proxies| && !Unfit(proxies[b], exclude, now)
      && (forall i :: 0 <= i < |proxies| && !Unfit(proxies[i], exclude, now) ==>
                        current[i] + proxies[i].weight <= current[b] + proxies[b].weight)
      && (forall i :: 0 <= i < b && !Unfit(proxies[i], exclude, now) ==>
                        current[i] + proxies[i].weight < current[b] + proxies[b].weight)
    }

    lemma AdmitsTheFit(e: ProxyEntry, exclude: ProxyEntry?, now: int)
      requires pool.Some?
      ensures Admits(e, exclude, now) <==> !Unfit(e, exclude, now)
    {
    }

    lemma ChosenIsFirstHeaviest(exclude: ProxyEntry?, now: int, current: Weights, e: ProxyEntry?)
      requires Valid() && pool.Some? && |current| == |proxies|
      requires var choice := Choose(current, ConfiguredWeights(), Eligible(exclude, now)).best;
               Chosen(e, choice, |proxies|)
      ensures e == null <==> forall i :: 0 <= i < |proxies| ==> Unfit(proxies[i], exclude, now)
      ensures e != null ==> exists b :: 0 <= b < |proxies| && e == proxies[b] && FirstHeaviest(b, exclude, now, current)
      ensures var choice := Choose(current, ConfiguredWeights(), Eligible(exclude, now)).current;
              forall i :: 0 <= i < |proxies| && proxies[i] != e ==>
                            choice[i] == current[i] + if Unfit(proxies[i], exclude, now) then 0 else proxies[i].weight
    {
      hide Best, Total, Unfit, Admits;
      var eligible := Eligible(exclude, now);
      BestIsFirstGreatest(Raised(current, ConfiguredWeights(), eligible), eligible);
      forall i | 0 <= i < |proxies| ensures eligible[i] <==> !Unfit(proxies[i], exclude, now) {
        AdmitsTheFit(proxies[i], exclude, now);
      }
    }

    /** Main result. A pool hands the request to the first of the heaviest nodes that are
        fit, or to none exactly when none is, raising the fit ones and keeping the sum;
        without a pool the nodes take turns. */
    method Pick(exclude: ProxyEntry?, now: int) returns (e: ProxyEntry?)
      requires Valid()
      modifies `counter, proxies`currentWeight
      ensures Valid()
      ensures pool.Some? ==> (e == null <==> forall i :: 0 <= i < |proxies| ==> Unfit(proxies[i], exclude, now))
      ensures pool.Some? && e != null ==>
                exists b :: && 0 <= b < |proxies| && e == proxies[b]
                            && FirstHeaviest(b, exclude, now, old(CurrentWeights()))
      ensures pool.Some? ==>
                && counter == old(counter)
                && forall i :: 0 <= i < |proxies| && proxies[i] != e ==>
                                 proxies[i].currentWeight
                                 == old(proxies[i].currentWeight)
                                    + if Unfit(proxies[i], exclude, now) then 0 else proxies[i].weight
      ensures Sum(CurrentWeights()) == old(Sum(CurrentWeights()))
      ensures pool.None? ==> InTurn(old(counter), exclude, now, e) && CurrentWeights() == old(CurrentWeights())
    {
      hide Total, InTurn, Best, Sum, Choose, Unfit, Admits, Eligible, FirstHeaviest;
      if pool.Some? {
        ghost var current := CurrentWeights();
        e := PickWeighted(exclude, now);
        ChosenIsFirstHeaviest(exclude, now, current, e);
      } else {
        e := PickInTurn(exclude, now);
      }
    }
  }

  lemma AddWrapped(c: nat, k: nat, n: nat)
    requires n > 0
    ensures (c + k) % n == (c % n + k) % n
  {
    var x, y := c + k, c % n + k;
    var m := c / n + y / n - x / n;
    assert x % n - y % n == n * m;
    Multiple(n, m);
  }

  lemma Multiple(n: int, m: int)
    requires n > 0
    ensures m >= 1 ==> n * m >= n
    ensures m <= -1 ==> n * m <= -n
  {
    assert n * m == n + n * (m - 1) == -n + n * (m + 1);
  }

  lemma WrapOnce(x: nat, n: nat)
    requires n > 0 && x < n + n
    ensures x % n == if x < n then x else x - n
  {
  }
}
