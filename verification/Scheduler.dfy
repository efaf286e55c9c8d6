/** Smooth weighted round robin over the nodes of a backend pool, as plain values
    (internal/webproxy/reverse.go). */
module Scheduler {
  import opened Tallies
  import opened Wrappers

  /** The current weights, the configured weights and who may be chosen. */
  type Weights = seq<int>

  predicate Shaped(current: Weights, weight: seq<nat>, eligible: seq<bool>) {
    |current| == |weight| == |eligible|
  }

  function Raised(current: Weights, weight: seq<nat>, eligible: seq<bool>): Weights
    requires Shaped(current, weight, eligible)
  {
    seq(|current|, i requires 0 <= i < |current| => current[i] + (if eligible[i] then weight[i] else 0))
  }

  function Total(weight: seq<nat>, eligible: seq<bool>): nat
    requires |weight| == |eligible|
  {
    if weight == [] then 0
    else
      var n := |weight| - 1;
      Total(weight[..n], eligible[..n]) + if eligible[n] then weight[n] else 0
  }

  /** The first eligible node whose raised weight is the largest so far. */
  function Best(raised: Weights, eligible: seq<bool>): Option<nat>
    requires |raised| == |eligible|
  {
    if raised == [] then None
    else
      var n := |raised| - 1;
      var best := Best(raised[..n], eligible[..n]);
      if !eligible[n] then best
      else if best.None? || (best.value < n && raised[n] > raised[best.value]) then Some(n)
      else best
  }

  datatype Choice = Choice(best: Option<nat>, current: Weights)

  function Choose(current: Weights, weight: seq<nat>, eligible: seq<bool>): Choice
    requires Shaped(current, weight, eligible)
  {
    var raised := Raised(current, weight, eligible);
    match Best(raised, eligible)
    case None => Choice(None, raised)
    case Some(b) =>
      if b < |raised| then Choice(Some(b), raised[b := raised[b] - Total(weight, eligible)]) else Choice(None, raised)
  }

  /** The meaning of the choice: no node when none is eligible, otherwise the
      first of the eligible nodes with the greatest raised weight. */
  lemma {:induction false} BestIsFirstGreatest(raised: Weights, eligible: seq<bool>)
    requires |raised| == |eligible|
    ensures Best(raised, eligible).None? <==> forall i :: 0 <= i < |eligible| ==> !eligible[i]
    ensures Best(raised, eligible).Some? ==>
              var b := Best(raised, eligible).value;
              && b < |raised| && eligible[b]
              && (forall i :: 0 <= i < |raised| && eligible[i] ==> raised[i] <= raised[b])
              && (forall i :: 0 <= i < b && eligible[i] ==> raised[i] < raised[b])
  {
    if raised != [] {
      var n := |raised| - 1;
      BestIsFirstGreatest(raised[..n], eligible[..n]);
      assert forall i :: 0 <= i < n ==> eligible[i] == eligible[..n][i] && raised[i] == raised[..n][i];
    }
  }

  // ---- Sums ----------------------------------------------------------------

  lemma {:induction false} SumUpdate(s: seq<int>, i: nat, v: int)
    requires i < |s|
    ensures Sum(s[i := v]) == Sum(s) - s[i] + v
  {
    var n := |s| - 1;
    if i < n {
      SumUpdate(s[..n], i, v);
      assert s[i := v][..n] == s[..n][i := v];
    } else {
      assert s[i := v][..n] == s[..n];
    }
  }

  lemma {:induction false} SumRaised(current: Weights, weight: seq<nat>, eligible: seq<bool>)
    requires Shaped(current, weight, eligible)
    ensures Sum(Raised(current, weight, eligible)) == Sum(current) + Total(weight, eligible)
  {
    if current != [] {
      var n := |current| - 1;
      SumRaised(current[..n], weight[..n], eligible[..n]);
      assert Raised(current, weight, eligible)[..n] == Raised(current[..n], weight[..n], eligible[..n]);
    }
  }

  lemma {:induction false} SumAtMost(s: seq<int>, bound: int)
    requires forall i :: 0 <= i < |s| ==> s[i] <= bound
    ensures Sum(s) <= |s| * bound
  {
    if s != [] {
      SumAtMost(s[..|s| - 1], bound);
    }
  }

  lemma {:induction false} EqualSumsOfBounded(a: seq<int>, b: seq<int>)
    requires |a| == |b| && Sum(a) == Sum(b)
    requires forall i :: 0 <= i < |a| ==> a[i] <= b[i]
    ensures a == b
  {
    if a != [] {
      var n := |a| - 1;
      SumMonotone(a[..n], b[..n]);
      EqualSumsOfBounded(a[..n], b[..n]);
      assert a == a[..n] + [a[n]] && b == b[..n] + [b[n]];
    }
  }

  lemma {:induction false} SumMonotone(a: seq<int>, b: seq<int>)
    requires |a| == |b| && forall i :: 0 <= i < |a| ==> a[i] <= b[i]
    ensures Sum(a) <= Sum(b)
  {
    if a != [] {
      SumMonotone(a[..|a| - 1], b[..|b| - 1]);
    }
  }

  // ---- Whatever is eligible: the weights sum to zero -----------------------

  lemma ChooseKeepsSum(current: Weights, weight: seq<nat>, eligible: seq<bool>)
    requires Shaped(current, weight, eligible)
    ensures Shaped(Choose(current, weight, eligible).current, weight, eligible)
    ensures Sum(Choose(current, weight, eligible).current) == Sum(current)
  {
    var raised := Raised(current, weight, eligible);
    SumRaised(current, weight, eligible);
    BestIsFirstGreatest(raised, eligible);
    match Best(raised, eligible)
    case None => NoneEligible(weight, eligible);
    case Some(b) => SumUpdate(raised, b, raised[b] - Total(weight, eligible));
  }

  lemma {:induction false} NoneEligible(weight: seq<nat>, eligible: seq<bool>)
    requires |weight| == |eligible| && forall i :: 0 <= i < |eligible| ==> !eligible[i]
    ensures Total(weight, eligible) == 0
  {
    if weight != [] {
      NoneEligible(weight[..|weight| - 1], eligible[..|weight| - 1]);
    }
  }

  /** A run of picks under a changing eligibility. */
  function After(weight: seq<nat>, history: seq<seq<bool>>): Weights
    requires forall e :: e in history ==> |e| == |weight|
    ensures |After(weight, history)| == |weight|
  {
    if history == [] then seq(|weight|, i => 0)
    else
      var n := |history| - 1;
      assert forall e :: e in history[..n] ==> e in history;
      assert history[n] in history;
      var before := After(weight, history[..n]);
      var choice := Choose(before, weight, history[n]);
      choice.current
  }

  /** Main result 1. The current weights always sum to zero, whatever was eligible
      at each pick. */
  lemma {:induction false} ZeroSum(weight: seq<nat>, history: seq<seq<bool>>)
    requires forall e :: e in history ==> |e| == |weight|
    ensures Sum(After(weight, history)) == 0
  {
    if history == [] {
      SumZeros(|weight|);
    } else {
      var n := |history| - 1;
      assert forall e :: e in history[..n] ==> e in history;
      assert history[n] in history;
      ZeroSum(weight, history[..n]);
      ChooseKeepsSum(After(weight, history[..n]), weight, history[n]);
    }
  }

  lemma {:induction false} SumZeros(n: nat)
    ensures Sum(seq(n, i => 0)) == 0
  {
    if n > 0 {
      SumZeros(n - 1);
      assert seq(n, i => 0)[..n - 1] == seq(n - 1, i => 0);
    }
  }

  // ---- Fixed eligibility: exact fairness -----------------------------------

  /** The state after t picks and how often each node was picked. */
  datatype Round = Round(current: Weights, picks: seq<nat>)

  predicate Schedulable(weight: seq<nat>, eligible: seq<bool>) {
    && |weight| == |eligible|
    && (forall i :: 0 <= i < |weight| ==> weight[i] >= 1)
    && exists i :: 0 <= i < |eligible| && eligible[i]
  }

  function Rounds(weight: seq<nat>, eligible: seq<bool>, t: nat): Round
    requires Schedulable(weight, eligible)
    ensures |Rounds(weight, eligible, t).current| == |Rounds(weight, eligible, t).picks| == |weight|
  {
    if t == 0 then Round(seq(|weight|, i => 0), seq(|weight|, i => 0))
    else
      var r := Rounds(weight, eligible, t - 1);
      BestIsFirstGreatest(Raised(r.current, weight, eligible), eligible);
      var b := Best(Raised(r.current, weight, eligible), eligible).value;
      Round(Choose(r.current, weight, eligible).current, r.picks[b := r.picks[b] + 1])
  }

  /** The node picked at step t, counting from zero. */
  function PickAt(weight: seq<nat>, eligible: seq<bool>, t: nat): nat
    requires Schedulable(weight, eligible)
    ensures PickAt(weight, eligible, t) < |weight| && eligible[PickAt(weight, eligible, t)]
  {
    var raised := Raised(Rounds(weight, eligible, t).current, weight, eligible);
    BestIsFirstGreatest(raised, eligible);
    Best(raised, eligible).value
  }

  /** What one more pick does to a round, with the total w as a plain number. */
  ghost predicate Stepped(r: Round, r': Round, weight: seq<nat>, eligible: seq<bool>, b: nat, w: int) {
    && |r.current| == |r.picks| == |r'.current| == |r'.picks| == |weight| == |eligible|
    && b < |weight| && eligible[b]
    && r'.picks == r.picks[b := r.picks[b] + 1]
    && (forall i :: 0 <= i < |weight| ==>
                      r'.current[i]
                      == r.current[i] + (if eligible[i] then weight[i] else 0) - (if i == b then w else 0))
    && (forall i :: 0 <= i < |weight| && eligible[i] ==> r.current[i] + weight[i] <= r.current[b] + weight[b])
  }

  lemma RoundsStep(weight: seq<nat>, eligible: seq<bool>, t: nat)
    requires Schedulable(weight, eligible)
    ensures Stepped(Rounds(weight, eligible, t), Rounds(weight, eligible, t + 1), weight, eligible,
                    PickAt(weight, eligible, t), Total(weight, eligible))
  {
    var raised := Raised(Rounds(weight, eligible, t).current, weight, eligible);
    BestIsFirstGreatest(raised, eligible);
  }

  lemma {:induction false} TotalPositive(weight: seq<nat>, eligible: seq<bool>, i: nat)
    requires |weight| == |eligible| && i < |weight| && eligible[i] && weight[i] >= 1
    ensures Total(weight, eligible) >= weight[i]
  {
    var n := |weight| - 1;
    if i < n {
      TotalPositive(weight[..n], eligible[..n], i);
    }
  }

  lemma TotalIsPositive(weight: seq<nat>, eligible: seq<bool>)
    requires Schedulable(weight, eligible)
    ensures Total(weight, eligible) >= 1
  {
    var k :| 0 <= k < |eligible| && eligible[k];
    TotalPositive(weight, eligible, k);
  }

  /** The product a * n, as repeated addition. */
  function Times(a: int, n: nat): int {
    if n == 0 then 0 else Times(a, n - 1) + a
  }

  lemma {:induction false} TimesIsProduct(a: int, n: nat)
    ensures Times(a, n) == a * n
  {
    if n > 0 {
      TimesIsProduct(a, n - 1);
    }
  }

  lemma {:induction false} TimesAdd(a: int, m: nat, n: nat)
    ensures Times(a, m + n) == Times(a, m) + Times(a, n)
  {
    if n > 0 {
      TimesAdd(a, m, n - 1);
    }
  }

  lemma TimesCommutes(a: nat, b: nat)
    ensures Times(a, b) == Times(b, a)
  {
    TimesIsProduct(a, b);
    TimesIsProduct(b, a);
  }

  lemma {:induction false} TimesNotNegative(a: nat, n: nat)
    ensures Times(a, n) >= 0
  {
    if n > 0 {
      TimesNotNegative(a, n - 1);
    }
  }

  lemma TimesLess(w: nat, a: nat, b: nat)
    requires a < b
    ensures Times(w, a) + w <= Times(w, b)
  {
    TimesNotNegative(w, b - a - 1);
    TimesAdd(w, a, b - a);
  }

  /** A node's current weight is its weight for each pick made, less the total for
      each time it was picked. */
  ghost predicate Closed(r: Round, weight: seq<nat>, eligible: seq<bool>, w: int, t: nat, i: nat) {
    && |r.current| == |r.picks| == |weight| == |eligible| && i < |weight|
    && (!eligible[i] ==> r.picks[i] == 0 && r.current[i] == 0)
    && (eligible[i] ==> r.current[i] == Times(weight[i], t) - Times(w, r.picks[i]))
  }

  lemma ClosedStep(r: Round, r': Round, weight: seq<nat>, eligible: seq<bool>, b: nat, w: int, t: nat, i: nat)
    requires Stepped(r, r', weight, eligible, b, w) && Closed(r, weight, eligible, w, t, i)
    ensures Closed(r', weight, eligible, w, t + 1, i)
  {
  }

  lemma ClosedAtStart(weight: seq<nat>, eligible: seq<bool>, i: nat)
    requires Schedulable(weight, eligible) && i < |weight|
    ensures Closed(Rounds(weight, eligible, 0), weight, eligible, Total(weight, eligible), 0, i)
  {
  }

  lemma {:induction false} ClosedForm(weight: seq<nat>, eligible: seq<bool>, t: nat, i: nat)
    requires Schedulable(weight, eligible) && i < |weight|
    ensures Closed(Rounds(weight, eligible, t), weight, eligible, Total(weight, eligible), t, i)
  {
    hide Rounds, PickAt, Total;
    if t == 0 {
      ClosedAtStart(weight, eligible, i);
    } else {
      ClosedForm(weight, eligible, t - 1, i);
      RoundsStep(weight, eligible, t - 1);
      ClosedStep(Rounds(weight, eligible, t - 1), Rounds(weight, eligible, t), weight, eligible,
                 PickAt(weight, eligible, t - 1), Total(weight, eligible), t - 1, i);
    }
  }

  lemma SumsStep(r: Round, r': Round, weight: seq<nat>, eligible: seq<bool>, b: nat, w: int)
    requires Stepped(r, r', weight, eligible, b, w) && w == Total(weight, eligible)
    ensures Sum(r'.current) == Sum(r.current) && Sum(r'.picks) == Sum(r.picks) + 1
  {
    SumUpdate(r.picks, b, r.picks[b] + 1);
    var raised := Raised(r.current, weight, eligible);
    SumRaised(r.current, weight, eligible);
    SumUpdate(raised, b, raised[b] - w);
    assert r'.current == raised[b := raised[b] - w];
  }

  lemma SumsAtStart(weight: seq<nat>, eligible: seq<bool>)
    requires Schedulable(weight, eligible)
    ensures Sum(Rounds(weight, eligible, 0).current) == 0 && Sum(Rounds(weight, eligible, 0).picks) == 0
  {
    SumZeros(|weight|);
  }

  lemma {:induction false} RoundsSums(weight: seq<nat>, eligible: seq<bool>, t: nat)
    requires Schedulable(weight, eligible)
    ensures Sum(Rounds(weight, eligible, t).current) == 0
    ensures Sum(Rounds(weight, eligible, t).picks) == t
  {
    hide Rounds, PickAt, Total, Sum;
    if t == 0 {
      SumsAtStart(weight, eligible);
    } else {
      RoundsSums(weight, eligible, t - 1);
      RoundsStep(weight, eligible, t - 1);
      SumsStep(Rounds(weight, eligible, t - 1), Rounds(weight, eligible, t), weight, eligible,
               PickAt(weight, eligible, t - 1), Total(weight, eligible));
    }
  }

  /** The largest raised weight is positive when the raised weights sum to the
      positive total and the nodes left out stand at zero. */
  lemma LargestIsPositive(r: Round, r': Round, weight: seq<nat>, eligible: seq<bool>, b: nat, w: int)
    requires Stepped(r, r', weight, eligible, b, w) && w == Total(weight, eligible) && w >= 1
    requires Sum(r.current) == 0
    requires forall i :: 0 <= i < |weight| && !eligible[i] ==> r.current[i] == 0
    ensures r.current[b] + weight[b] >= 1
  {
    SumRaised(r.current, weight, eligible);
    if r.current[b] + weight[b] <= 0 {
      SumAtMost(Raised(r.current, weight, eligible), 0);
    }
  }

  lemma PickedIsPositive(weight: seq<nat>, eligible: seq<bool>, t: nat)
    requires Schedulable(weight, eligible)
    ensures var r, b := Rounds(weight, eligible, t), PickAt(weight, eligible, t);
            r.current[b] + weight[b] >= 1
  {
    var r := Rounds(weight, eligible, t);
    RoundsSums(weight, eligible, t);
    TotalIsPositive(weight, eligible);
    RoundsStep(weight, eligible, t);
    forall i | 0 <= i < |weight| && !eligible[i] ensures r.current[i] == 0 {
      ClosedForm(weight, eligible, t, i);
    }
    LargestIsPositive(r, Rounds(weight, eligible, t + 1), weight, eligible, PickAt(weight, eligible, t),
                      Total(weight, eligible));
  }

  lemma BoundStep(r: Round, r': Round, weight: seq<nat>, eligible: seq<bool>, b: nat, w: int, i: nat)
    requires Stepped(r, r', weight, eligible, b, w) && i < |weight|
    requires r.current[i] + w > 0 && r.current[b] + weight[b] >= 1
    ensures r'.current[i] + w > 0
  {
  }

  lemma StartsAboveMinusTotal(weight: seq<nat>, eligible: seq<bool>, i: nat)
    requires Schedulable(weight, eligible) && i < |weight|
    ensures Rounds(weight, eligible, 0).current[i] + Total(weight, eligible) > 0
  {
    hide Total;
    TotalIsPositive(weight, eligible);
  }

  /** Main result 2. No current weight ever falls to minus the total. */
  lemma {:induction false} StaysAboveMinusTotal(weight: seq<nat>, eligible: seq<bool>, t: nat, i: nat)
    requires Schedulable(weight, eligible) && i < |weight|
    ensures Rounds(weight, eligible, t).current[i] + Total(weight, eligible) > 0
  {
    hide PickAt, Total, Rounds;
    if t == 0 {
      StartsAboveMinusTotal(weight, eligible, i);
    } else {
      StaysAboveMinusTotal(weight, eligible, t - 1, i);
      RoundsStep(weight, eligible, t - 1);
      PickedIsPositive(weight, eligible, t - 1);
      BoundStep(Rounds(weight, eligible, t - 1), Rounds(weight, eligible, t), weight, eligible,
                PickAt(weight, eligible, t - 1), Total(weight, eligible), i);
    }
  }

  lemma AtMostWeightPicks(w: nat, weight: nat, picks: nat, current: int)
    requires w > 0 && current == Times(weight, w) - Times(w, picks) && current + w > 0
    ensures picks <= weight
  {
    TimesCommutes(weight, w);
    if picks > weight {
      TimesLess(w, weight, picks);
    }
  }

  function EligibleWeights(weight: seq<nat>, eligible: seq<bool>): seq<int>
    requires |weight| == |eligible|
  {
    seq(|weight|, i requires 0 <= i < |weight| => if eligible[i] then weight[i] else 0)
  }

  lemma {:induction false} SumEligible(weight: seq<nat>, eligible: seq<bool>)
    requires |weight| == |eligible|
    ensures Sum(EligibleWeights(weight, eligible)) == Total(weight, eligible)
  {
    if weight != [] {
      var n := |weight| - 1;
      SumEligible(weight[..n], eligible[..n]);
      assert EligibleWeights(weight, eligible)[..n] == EligibleWeights(weight[..n], eligible[..n]);
    }
  }

  lemma ShareReached(r: Round, weight: seq<nat>, eligible: seq<bool>, w: nat)
    requires w > 0 && forall i :: 0 <= i < |weight| ==> Closed(r, weight, eligible, w, w, i) && r.current[i] + w > 0
    requires |r.current| == |r.picks| == |weight| == |eligible|
    requires Sum(r.picks) == w == Total(weight, eligible)
    ensures r.picks == EligibleWeights(weight, eligible)
    ensures r.current == seq(|weight|, i => 0)
  {
    var share := EligibleWeights(weight, eligible);
    forall i | 0 <= i < |weight| ensures r.picks[i] <= share[i] {
      assert Closed(r, weight, eligible, w, w, i);
      if eligible[i] {
        AtMostWeightPicks(w, weight[i], r.picks[i], r.current[i]);
      }
    }
    SumEligible(weight, eligible);
    EqualSumsOfBounded(r.picks, share);
    forall i | 0 <= i < |weight| ensures r.current[i] == 0 {
      assert Closed(r, weight, eligible, w, w, i);
      assert r.picks[i] == share[i];
      TimesCommutes(weight[i], w);
    }
  }

  /** After as many picks as the total weight, every node has been picked exactly
      by its weight and the state is back at zero. */
  lemma OnePeriod(weight: seq<nat>, eligible: seq<bool>)
    requires Schedulable(weight, eligible)
    ensures var r := Rounds(weight, eligible, Total(weight, eligible));
            && r.current == seq(|weight|, i => 0)
            && r.picks == EligibleWeights(weight, eligible)
  {
    var w := Total(weight, eligible);
    TotalIsPositive(weight, eligible);
    forall i | 0 <= i < |weight|
      ensures Closed(Rounds(weight, eligible, w), weight, eligible, w, w, i)
      ensures Rounds(weight, eligible, w).current[i] + w > 0
    {
      ClosedForm(weight, eligible, w, i);
      StaysAboveMinusTotal(weight, eligible, w, i);
    }
    RoundsSums(weight, eligible, w);
    ShareReached(Rounds(weight, eligible, w), weight, eligible, w);
  }

  lemma PeriodicAtStart(weight: seq<nat>, eligible: seq<bool>)
    requires Schedulable(weight, eligible)
    ensures Rounds(weight, eligible, Total(weight, eligible)).current == Rounds(weight, eligible, 0).current
  {
    OnePeriod(weight, eligible);
  }

  lemma SameChoiceNext(weight: seq<nat>, eligible: seq<bool>, s: nat, t: nat)
    requires Schedulable(weight, eligible) && Rounds(weight, eligible, s).current == Rounds(weight, eligible, t).current
    ensures Rounds(weight, eligible, s + 1).current == Rounds(weight, eligible, t + 1).current
  {
  }

  /** The state repeats with the total weight as its period. */
  lemma {:induction false} Periodic(weight: seq<nat>, eligible: seq<bool>, t: nat)
    requires Schedulable(weight, eligible)
    ensures Rounds(weight, eligible, t + Total(weight, eligible)).current == Rounds(weight, eligible, t).current
  {
    hide Rounds, Total;
    if t == 0 {
      PeriodicAtStart(weight, eligible);
    } else {
      Periodic(weight, eligible, t - 1);
      SameChoiceNext(weight, eligible, t - 1 + Total(weight, eligible), t - 1);
    }
  }

  /** How often node i is picked in the steps from s up to t. */
  function PicksBetween(weight: seq<nat>, eligible: seq<bool>, s: nat, t: nat, i: nat): nat
    requires Schedulable(weight, eligible) && s <= t
    decreases t - s
  {
    if s == t then 0
    else PicksBetween(weight, eligible, s, t - 1, i) + if PickAt(weight, eligible, t - 1) == i then 1 else 0
  }

  lemma {:induction false} PicksAreCounted(weight: seq<nat>, eligible: seq<bool>, s: nat, t: nat, i: nat)
    requires Schedulable(weight, eligible) && s <= t && i < |weight|
    ensures Rounds(weight, eligible, t).picks[i]
            == Rounds(weight, eligible, s).picks[i] + PicksBetween(weight, eligible, s, t, i)
    decreases t - s
  {
    hide Rounds, PickAt, Schedulable;
    if s < t {
      PicksAreCounted(weight, eligible, s, t - 1, i);
      PickCounted(weight, eligible, t - 1, i);
    }
  }

  lemma PickCounted(weight: seq<nat>, eligible: seq<bool>, t: nat, i: nat)
    requires Schedulable(weight, eligible) && i < |weight|
    ensures Rounds(weight, eligible, t + 1).picks[i]
            == Rounds(weight, eligible, t).picks[i] + if PickAt(weight, eligible, t) == i then 1 else 0
  {
    RoundsStep(weight, eligible, t);
  }

  lemma SharesBetween(r: Round, r': Round, weight: seq<nat>, eligible: seq<bool>, w: nat, s: nat, i: nat)
    requires w > 0 && Closed(r, weight, eligible, w, s, i) && Closed(r', weight, eligible, w, s + w, i)
    requires r.current == r'.current
    ensures r'.picks[i] == r.picks[i] + if eligible[i] then weight[i] else 0
  {
    if eligible[i] {
      TimesAdd(weight[i], s, w);
      TimesCommutes(weight[i], w);
      TimesAdd(w, r.picks[i], weight[i]);
      EqualFactors(w, r'.picks[i], r.picks[i] + weight[i]);
    }
  }

  lemma EqualFactors(w: nat, a: nat, b: nat)
    requires w > 0 && Times(w, a) == Times(w, b)
    ensures a == b
  {
    if a < b {
      TimesLess(w, a, b);
    } else if b < a {
      TimesLess(w, b, a);
    }
  }

  /** Main result 3. Exact fairness: in any stretch of as many consecutive picks
      as the total weight, wherever it starts, each eligible node is picked
      exactly as often as its weight says. */
  lemma ExactlyFair(weight: seq<nat>, eligible: seq<bool>, s: nat, i: nat)
    requires Schedulable(weight, eligible) && i < |weight|
    ensures PicksBetween(weight, eligible, s, s + Total(weight, eligible), i) == if eligible[i] then weight[i] else 0
  {
    hide Rounds, PickAt, Total;
    var w := Total(weight, eligible);
    TotalIsPositive(weight, eligible);
    Periodic(weight, eligible, s);
    ClosedForm(weight, eligible, s, i);
    ClosedForm(weight, eligible, s + w, i);
    PicksAreCounted(weight, eligible, s, s + w, i);
    SharesBetween(Rounds(weight, eligible, s), Rounds(weight, eligible, s + w), weight, eligible, w, s, i);
  }
}
