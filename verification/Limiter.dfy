/** Rate limiting by token buckets, one per rule and client address
    (internal/webproxy/limiter.go). Times are seconds, tokens are real numbers. */
module Limiter {
  import opened Wrappers

  const MAX_BUCKETS: nat := 4096
  const PRUNE_INTERVAL: real := 30.0
  const IDLE_LIMIT: real := 600.0
  const EVICT_SAMPLE: nat := 64

  datatype Bucket = Bucket(tokens: real, updated: real, lastSeen: real)

  type Table = map<string, Bucket>

  datatype Rule = Rule(id: string, rps: int, burst: int)

  /** The configured burst, twice the rate by default. */
  function Burst(rule: Rule): (b: int)
    requires rule.rps > 0
    ensures b >= 1
  {
    if rule.burst <= 0 then rule.rps * 2 else rule.burst
  }

  function Key(rule: Rule, ip: string): string {
    rule.id + ['\0'] + ip
  }

  function Min(a: real, b: real): real {
    if a < b then a else b
  }

  function Refilled(b: Bucket, rate: real, burst: real, now: real): real {
    if now - b.updated > 0.0 then Min(burst, b.tokens + (now - b.updated) * rate) else b.tokens
  }

  function Spent(b: Bucket, rate: real, burst: real, now: real): Bucket {
    var tokens := Refilled(b, rate, burst, now);
    Bucket(if tokens < 1.0 then tokens else tokens - 1.0, now, now)
  }

  predicate Admitted(b: Bucket, rate: real, burst: real, now: real) {
    Refilled(b, rate, burst, now) >= 1.0
  }

  // ---- The table -----------------------------------------------------------

  function Pruned(table: Table, now: real): Table {
    map k | k in table && table[k].lastSeen >= now - IDLE_LIMIT :: table[k]
  }

  /** The longest unseen of a sample of the table. */
  ghost predicate OldestOf(table: Table, sample: set<string>, victim: string) {
    && victim in sample && sample <= table.Keys
    && |sample| == (if |table| < EVICT_SAMPLE then |table| else EVICT_SAMPLE)
    && forall k :: k in sample ==> table[victim].lastSeen <= table[k].lastSeen
  }

  /** One bucket is gone: the longest unseen of some sample. */
  ghost predicate EvictedOne(before: Table, after: Table) {
    exists victim, sample :: OldestOf(before, sample, victim) && after == before - {victim}
  }

  predicate PruneDue(lastPrune: Option<real>, now: real) {
    lastPrune.None? || now - lastPrune.value >= PRUNE_INTERVAL
  }

  /** The table that a request with this key finds: pruned when that is due, and with
      room for the key. */
  ghost predicate MadeRoom(before: Table, due: bool, key: string, now: real, kept: Table) {
    var pruned := if due then Pruned(before, now) else before;
    if key in pruned || |pruned| < MAX_BUCKETS then kept == pruned else EvictedOne(pruned, kept)
  }

  function Found(kept: Table, key: string, burst: real, now: real): Bucket {
    if key in kept then kept[key] else Bucket(burst, now, now)
  }

  /** The burst is the configured one, or else twice the rate. */
  lemma BurstExactly(rule: Rule)
    requires rule.rps > 0
    ensures Burst(rule) == if rule.burst > 0 then rule.burst else 2 * rule.rps
  {
  }

  lemma PruneDueExactly(lastPrune: Option<real>, now: real)
    ensures PruneDue(lastPrune, now) <==> lastPrune.None? || now - lastPrune.value >= 30.0
  {
  }

  /** Pruning drops exactly the buckets unseen for ten minutes. */
  lemma PrunedExactly(table: Table, now: real, k: string)
    ensures k in Pruned(table, now) <==> k in table && table[k].lastSeen >= now - 600.0
    ensures k in Pruned(table, now) ==> Pruned(table, now)[k] == table[k]
  {
  }

  /** Eviction drops exactly one bucket, which nobody of a sample of sixty-four, or of the
      whole table, has been unseen for longer than. */
  lemma EvictedExactly(before: Table, after: Table) returns (victim: string, sample: set<string>)
    requires EvictedOne(before, after)
    ensures victim in before && after == before - {victim}
    ensures victim in sample && sample <= before.Keys && |sample| == if |before| < 64 then |before| else 64
    ensures forall k :: k in sample ==> before[victim].lastSeen <= before[k].lastSeen
  {
    var v, seen :| OldestOf(before, seen, v) && after == before - {v};
    victim, sample := v, seen;
  }

  /** A request is admitted when a whole token is there after refilling, and takes it. */
  lemma AdmittedExactlyWhen(b: Bucket, rate: real, burst: real, now: real)
    ensures var more := if now > b.updated then b.tokens + (now - b.updated) * rate else b.tokens;
            var tokens := if now > b.updated && more > burst then burst else more;
            && (Admitted(b, rate, burst, now) <==> tokens >= 1.0)
            && Spent(b, rate, burst, now) == Bucket(if tokens >= 1.0 then tokens - 1.0 else tokens, now, now)
  {
    var added := (now - b.updated) * rate;
    assert Refilled(b, rate, burst, now)
        == if now > b.updated then (if b.tokens + added > burst then burst else b.tokens + added) else b.tokens;
  }

  /** Every client has a bucket of its own for every rule, when IDs have no zero byte. */
  lemma ClientsAreSeparate(a: Rule, x: string, b: Rule, y: string)
    requires '\0' !in a.id && '\0' !in b.id
    ensures Key(a, x) == Key(b, y) <==> a.id == b.id && x == y
  {
    var k := Key(a, x);
    if k == Key(b, y) {
      assert k[|a.id|] == '\0' && k[|b.id|] == '\0';
      assert forall i :: 0 <= i < |a.id| ==> k[i] == a.id[i];
      assert forall i :: 0 <= i < |b.id| ==> k[i] == b.id[i];
      assert |a.id| == |b.id|;
      assert k[..|a.id|] == a.id && k[..|b.id|] == b.id;
      assert k[|a.id| + 1..] == x && k[|b.id| + 1..] == y;
    }
  }

  class RuleLimiter {
    var buckets: Table
    var lastPrune: Option<real>

    constructor ()
      ensures Valid() && buckets == map[] && lastPrune.None?
    {
      buckets, lastPrune := map[], None;
    }

    /** The table never holds more than the maximal number of buckets. */
    predicate Valid()
      reads this
    {
      |buckets| <= MAX_BUCKETS
    }

    method Allow(rule: Rule, ip: string, now: real) returns (ok: bool, retryAfter: nat, ghost kept: Table)
      requires Valid()
      modifies this
      ensures Valid() && |buckets| <= 4096 && retryAfter == (if ok then 0 else 1)
      ensures rule.rps <= 0 ==> ok && buckets == old(buckets) && lastPrune == old(lastPrune)
      ensures rule.rps > 0 ==>
                var key, rate := Key(rule, ip), rule.rps as real;
                var burst := (if rule.burst > 0 then rule.burst else 2 * rule.rps) as real;
                var due := old(lastPrune).None? || now - old(lastPrune).value >= 30.0;
                && lastPrune == (if due then Some(now) else old(lastPrune))
                && MadeRoom(old(buckets), due, key, now, kept)
                && ok == Admitted(Found(kept, key, burst, now), rate, burst, now)
                && buckets == kept[key := Spent(Found(kept, key, burst, now), rate, burst, now)]
    {
      hide Spent, Admitted, Refilled, OldestOf, Burst, PruneDue, Pruned, EvictedOne, Key;
      kept := map[];
      if rule.rps <= 0 {
        return true, 0, kept;
      }
      BurstExactly(rule);
      PruneDueExactly(lastPrune, now);
      var rate, burst := rule.rps as real, Burst(rule) as real;
      if PruneDue(lastPrune, now) {
        lastPrune := Some(now);
        Prune(now);
      }
      var key := Key(rule, ip);
      if key !in buckets && |buckets| >= MAX_BUCKETS {
        EvictOldest();
      }
      kept := buckets;
      var b := Found(buckets, key, burst, now);
      b, ok := Spend(b, rate, burst, now);
      retryAfter := if ok then 0 else 1;
      OneMore(buckets, key, b);
      buckets := buckets[key := b];
    }

    static method Spend(b: Bucket, rate: real, burst: real, now: real) returns (b': Bucket, ok: bool)
      ensures b' == Spent(b, rate, burst, now) && ok == Admitted(b, rate, burst, now)
    {
      var tokens := b.tokens;
      var elapsed := now - b.updated;
      if elapsed > 0.0 {
        tokens := Min(burst, tokens + elapsed * rate);
      }
      ok := !(tokens < 1.0);
      if ok {
        tokens := tokens - 1.0;
      }
      b' := Bucket(tokens, now, now);
    }

    method Prune(now: real)
      modifies `buckets
      ensures buckets == Pruned(old(buckets), now) && |buckets| <= |old(buckets)|
    {
      var cutoff := now - IDLE_LIMIT;
      var todo := buckets.Keys;
      while todo != {}
        invariant todo <= buckets.Keys <= old(buckets).Keys
        invariant forall k :: k in buckets ==> buckets[k] == old(buckets)[k]
        invariant forall k :: k in old(buckets) && k !in todo ==> (k in buckets <==> old(buckets)[k].lastSeen >= cutoff)
        decreases |todo|
      {
        var key :| key in todo;
        todo := todo - {key};
        if buckets[key].lastSeen < cutoff {
          buckets := buckets - {key};
        }
      }
      SmallerTable(buckets, old(buckets));
    }

    method EvictOldest()
      requires |buckets| > 0
      modifies `buckets
      ensures EvictedOne(old(buckets), buckets) && |buckets| == |old(buckets)| - 1
    {
      var victim, sample := OldestOfSample(buckets);
      buckets := buckets - {victim};
      OneLess(old(buckets), victim);
    }
  }

  /** The first keys of the table in any order, and the longest unseen among them. */
  method OldestOfSample(table: Table) returns (oldest: string, ghost sample: set<string>)
    requires |table| > 0
    ensures oldest in table && OldestOf(table, sample, oldest)
  {
    var todo := table.Keys;
    KeysOf(table);
    oldest :| oldest in todo;
    todo := todo - {oldest};
    sample := {oldest};
    var seen := 1;
    while todo != {} && seen < EVICT_SAMPLE
      invariant todo <= table.Keys && sample <= table.Keys && sample !! todo
      invariant seen == |sample| <= EVICT_SAMPLE && seen + |todo| == |table|
      invariant oldest in sample && forall k :: k in sample ==> table[oldest].lastSeen <= table[k].lastSeen
      decreases |todo|
    {
      var key :| key in todo;
      if table[key].lastSeen < table[oldest].lastSeen {
        oldest := key;
      }
      todo, sample, seen := todo - {key}, sample + {key}, seen + 1;
    }
  }

  lemma OneLess(t: Table, k: string)
    requires k in t
    ensures |t - {k}| == |t| - 1
  {
    KeysOf(t);
    KeysOf(t - {k});
    assert (t - {k}).Keys == t.Keys - {k};
  }

  lemma OneMore(t: Table, k: string, b: Bucket)
    ensures |t[k := b]| == |t| + if k in t then 0 else 1
  {
    KeysOf(t);
    KeysOf(t[k := b]);
    assert t[k := b].Keys == t.Keys + {k};
  }

  lemma KeysOf(t: Table)
    ensures |t| == |t.Keys|
  {
  }

  lemma SmallerTable(a: Table, b: Table)
    requires a.Keys <= b.Keys
    ensures |a| <= |b|
  {
    KeysOf(a);
    KeysOf(b);
    SmallerSet(a.Keys, b.Keys);
  }

  lemma {:induction false} SmallerSet(a: set<string>, b: set<string>)
    requires a <= b
    ensures |a| <= |b|
  {
    if a != {} {
      var k :| k in a;
      SmallerSet(a - {k}, b - {k});
    }
  }
}
