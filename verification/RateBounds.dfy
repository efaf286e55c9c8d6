/** What the token buckets guarantee over whole histories of requests. */
module RateBounds {
  import opened Limiter

  /** One request, the table it found after pruning and eviction, and the answer. */
  datatype Call = Call(rule: Rule, ip: string, now: real, kept: Table, ok: bool)

  function KeyOf(c: Call): string {
    Key(c.rule, c.ip)
  }

  /** The limiter's answer to a call, as `RuleLimiter.Allow` gives it. */
  ghost predicate Answered(before: Table, c: Call, after: Table) {
    if c.rule.rps <= 0 then c.ok && after == before
    else
      var key, rate, burst := KeyOf(c), c.rule.rps as real, Burst(c.rule) as real;
      && (exists due :: MadeRoom(before, due, key, c.now, c.kept))
      && c.ok == Admitted(Found(c.kept, key, burst, c.now), rate, burst, c.now)
      && after == c.kept[key := Spent(Found(c.kept, key, burst, c.now), rate, burst, c.now)]
  }

  ghost predicate History(tables: seq<Table>, calls: seq<Call>) {
    && |tables| == |calls| + 1
    && (forall i :: 0 <= i < |calls| ==> Answered(tables[i], calls[i], tables[i + 1]))
    && (forall i, j :: 0 <= i < j < |calls| ==> calls[i].now <= calls[j].now)
  }

  /** All requests under this key have the same rate and burst. */
  ghost predicate Configured(calls: seq<Call>, key: string, rate: real, burst: real) {
    forall i :: 0 <= i < |calls| && KeyOf(calls[i]) == key && calls[i].rule.rps > 0 ==>
                  calls[i].rule.rps as real == rate && Burst(calls[i].rule) as real == burst
  }

  predicate Concerns(c: Call, key: string) {
    KeyOf(c) == key && c.rule.rps > 0
  }

  /** A call for which the bucket of the key was dropped. */
  predicate Drops(before: Table, c: Call, key: string) {
    key in before && c.rule.rps > 0 && key !in c.kept
  }

  /** The bucket of the key is pruned or evicted only when it would be full again. */
  ghost predicate DroppedOnlyFull(tables: seq<Table>, calls: seq<Call>, key: string, rate: real, burst: real)
    requires |tables| == |calls| + 1
  {
    forall i :: 0 <= i < |calls| && Drops(tables[i], calls[i], key) ==>
                  Refilled(tables[i][key], rate, burst, calls[i].now) == burst
  }

  function AdmittedCalls(calls: seq<Call>, key: string): nat {
    if calls == [] then 0
    else
      var n := |calls| - 1;
      AdmittedCalls(calls[..n], key) + if Concerns(calls[n], key) && calls[n].ok then 1 else 0
  }

  // ---- One bucket ----------------------------------------------------------

  predicate InRange(b: Bucket, burst: real) {
    0.0 <= b.tokens <= burst
  }

  /** What the rate adds in a stretch of time. */
  function Gain(rate: real, elapsed: real): real {
    rate * elapsed
  }

  lemma GainAdds(rate: real, a: real, b: real)
    ensures Gain(rate, a + b) == Gain(rate, a) + Gain(rate, b)
  {
  }

  lemma GainSign(rate: real, a: real)
    requires rate >= 0.0
    ensures a >= 0.0 ==> Gain(rate, a) >= 0.0
    ensures a <= 0.0 ==> Gain(rate, a) <= 0.0
  {
  }

  lemma GainStretch(rate: real, s: real, u: real, t: real)
    requires rate >= 0.0 && u <= t
    ensures Gain(rate, u - s) <= Gain(rate, t - s) && Gain(rate, u - s) + Gain(rate, t - u) == Gain(rate, t - s)
  {
    hide Gain;
    GainSign(rate, t - u);
    GainAdds(rate, u - s, t - u);
  }

  lemma RefilledGain(b: Bucket, rate: real, burst: real, now: real)
    ensures Refilled(b, rate, burst, now)
            == if now > b.updated then Min(burst, b.tokens + Gain(rate, now - b.updated)) else b.tokens
  {
  }

  /** Refilling adds at most what the rate allows, and stops at the burst. */
  lemma RefillBound(b: Bucket, rate: real, burst: real, now: real)
    requires InRange(b, burst) && rate > 0.0 && b.updated <= now
    ensures 0.0 <= Refilled(b, rate, burst, now) <= burst
    ensures Refilled(b, rate, burst, now) <= b.tokens + Gain(rate, now - b.updated)
    ensures Gain(rate, now - b.updated) >= 0.0
  {
    hide Gain, Refilled;
    RefilledGain(b, rate, burst, now);
    GainSign(rate, now - b.updated);
  }

  /** Requests admitted since s, plus the tokens left, stay within the burst and the
      refill since s. */
  ghost predicate Accounted(b: Bucket, rate: real, burst: real, s: real, admitted: nat) {
    && InRange(b, burst)
    && (admitted == 0 || (s <= b.updated && admitted as real + b.tokens <= burst + Gain(rate, b.updated - s)))
  }

  lemma SpendAccounted(b: Bucket, rate: real, burst: real, now: real, s: real, admitted: nat)
    requires Accounted(b, rate, burst, s, admitted) && rate > 0.0 && burst >= 1.0 && b.updated <= now && s <= now
    ensures var ok := Admitted(b, rate, burst, now);
            Accounted(Spent(b, rate, burst, now), rate, burst, s, admitted + if ok then 1 else 0)
  {
    hide Gain, Refilled;
    RefillBound(b, rate, burst, now);
    GainSign(rate, now - s);
    if admitted > 0 {
      GainStretch(rate, s, b.updated, now);
    }
  }

  lemma {:induction false} AdmittedPrefix(calls: seq<Call>, key: string, n: nat)
    requires n < |calls|
    ensures AdmittedCalls(calls[..n + 1], key)
            == AdmittedCalls(calls[..n], key) + if Concerns(calls[n], key) && calls[n].ok then 1 else 0
  {
    assert calls[..n + 1][..n] == calls[..n];
  }

  lemma KeptIsPart(before: Table, due: bool, key: string, now: real, kept: Table, k: string)
    requires MadeRoom(before, due, key, now, kept) && k in kept
    ensures k in before && kept[k] == before[k]
  {
  }

  // ---- The bound -----------------------------------------------------------

  /** A bucket that is not there counts as a full one. */
  ghost predicate BoundHolds(table: Table, key: string, rate: real, burst: real, s: real, admitted: nat, now: real) {
    if key in table then
      Accounted(table[key], rate, burst, s, admitted) && table[key].lastSeen == table[key].updated <= now
    else
      Accounted(Bucket(burst, now, now), rate, burst, s, admitted)
  }

  /** Waiting with a full bucket. */
  lemma FullLater(rate: real, burst: real, s: real, admitted: nat, last: real, now: real)
    requires Accounted(Bucket(burst, last, last), rate, burst, s, admitted)
    requires rate > 0.0 && burst >= 1.0 && last <= now
    ensures Accounted(Bucket(burst, now, now), rate, burst, s, admitted)
  {
    hide Gain;
    GainStretch(rate, s, last, now);
  }

  /** A bucket that has refilled is as good as a new one. */
  lemma FullAccounted(b: Bucket, rate: real, burst: real, s: real, admitted: nat, now: real)
    requires Accounted(b, rate, burst, s, admitted) && rate > 0.0 && burst >= 1.0 && b.updated <= now
    requires Refilled(b, rate, burst, now) == burst
    ensures Accounted(Bucket(burst, now, now), rate, burst, s, admitted)
  {
    hide Gain, Refilled;
    RefillBound(b, rate, burst, now);
    if admitted > 0 {
      GainStretch(rate, s, b.updated, now);
    }
  }

  /** What the call finds under the key, as it counts at that time. */
  lemma FoundAccounted(before: Table, c: Call, key: string, rate: real, burst: real, s: real, admitted: nat, last: real)
    requires BoundHolds(before, key, rate, burst, s, admitted, last)
    requires last <= c.now && rate > 0.0 && burst >= 1.0 && c.rule.rps > 0
    requires key in c.kept ==> key in before && c.kept[key] == before[key]
    requires Drops(before, c, key) ==> Refilled(before[key], rate, burst, c.now) == burst
    ensures BoundHolds(c.kept, key, rate, burst, s, admitted, c.now)
  {
    hide Accounted, Gain, Refilled;
    if key in c.kept {
    } else if key in before {
      FullAccounted(before[key], rate, burst, s, admitted, c.now);
    } else {
      FullLater(rate, burst, s, admitted, last, c.now);
    }
  }

  lemma SpentStep(kept: Table, key: string, rate: real, burst: real, s: real, admitted: nat, now: real)
    requires BoundHolds(kept, key, rate, burst, s, admitted, now) && s <= now && rate > 0.0 && burst >= 1.0
    ensures var b := Found(kept, key, burst, now);
            BoundHolds(kept[key := Spent(b, rate, burst, now)], key, rate, burst, s,
                       admitted + (if Admitted(b, rate, burst, now) then 1 else 0), now)
  {
    hide Spent, Admitted, Accounted, Gain;
    var b := Found(kept, key, burst, now);
    SpendAccounted(b, rate, burst, now, s, admitted);
    SpentAt(b, rate, burst, now);
  }

  lemma BoundStep(before: Table, c: Call, after: Table, key: string, rate: real, burst: real, s: real, admitted: nat,
                  last: real)
    requires Answered(before, c, after) && BoundHolds(before, key, rate, burst, s, admitted, last)
    requires last <= c.now && s <= c.now && rate > 0.0 && burst >= 1.0
    requires Concerns(c, key) ==> c.rule.rps as real == rate && Burst(c.rule) as real == burst
    requires Drops(before, c, key) ==> Refilled(before[key], rate, burst, c.now) == burst
    ensures BoundHolds(after, key, rate, burst, s, admitted + (if Concerns(c, key) && c.ok then 1 else 0), c.now)
  {
    hide Spent, Admitted, Accounted, Gain, MadeRoom;
    if c.rule.rps > 0 {
      var due :| MadeRoom(before, due, KeyOf(c), c.now, c.kept);
      if key in c.kept {
        KeptIsPart(before, due, KeyOf(c), c.now, c.kept, key);
      }
      FoundAccounted(before, c, key, rate, burst, s, admitted, last);
      if KeyOf(c) == key {
        SpentStep(c.kept, key, rate, burst, s, admitted, c.now);
      }
    } else if key !in before {
      FullLater(rate, burst, s, admitted, last, c.now);
    }
  }

  lemma FreshAccounted(rate: real, burst: real, now: real, s: real)
    requires burst >= 1.0
    ensures Accounted(Bucket(burst, now, now), rate, burst, s, 0)
  {
  }

  lemma SpentAt(b: Bucket, rate: real, burst: real, now: real)
    ensures Spent(b, rate, burst, now).updated == Spent(b, rate, burst, now).lastSeen == now
  {
  }

  /** What a stretch of requests starts with: a bucket in range, or none. */
  predicate StartsInRange(table: Table, key: string, burst: real, now: real) {
    key in table ==> InRange(table[key], burst) && table[key].lastSeen == table[key].updated <= now
  }

  lemma {:induction false} BoundAfter(tables: seq<Table>, calls: seq<Call>, key: string, rate: real, burst: real,
                                      s: real, n: nat)
    requires History(tables, calls) && Configured(calls, key, rate, burst)
    requires DroppedOnlyFull(tables, calls, key, rate, burst)
    requires rate > 0.0 && burst >= 1.0 && 0 < n <= |calls|
    requires s <= calls[0].now && StartsInRange(tables[0], key, burst, calls[0].now)
    ensures BoundHolds(tables[n], key, rate, burst, s, AdmittedCalls(calls[..n], key), calls[n - 1].now)
  {
    hide Answered, Gain, Accounted;
    AdmittedPrefix(calls, key, n - 1);
    assert Answered(tables[n - 1], calls[n - 1], tables[n]);
    if n == 1 {
      assert calls[..0] == [];
      StartsAccounted(tables[0], key, rate, burst, s, calls[0].now);
      BoundStep(tables[0], calls[0], tables[1], key, rate, burst, s, 0, calls[0].now);
    } else {
      BoundAfter(tables, calls, key, rate, burst, s, n - 1);
      BoundStep(tables[n - 1], calls[n - 1], tables[n], key, rate, burst, s, AdmittedCalls(calls[..n - 1], key),
                calls[n - 2].now);
    }
  }

  lemma StartsAccounted(table: Table, key: string, rate: real, burst: real, s: real, now: real)
    requires burst >= 1.0 && StartsInRange(table, key, burst, now)
    ensures BoundHolds(table, key, rate, burst, s, 0, now)
  {
    FreshAccounted(rate, burst, now, s);
  }

  /** Main result 1. In any stretch of requests from time s to the last one at time t,
      at most burst + Gain(rate, t - s) are admitted, and the bucket holds between
      nothing and the burst. Dropping the bucket on the way does not matter once it has
      refilled. */
  lemma RateBound(tables: seq<Table>, calls: seq<Call>, key: string, rate: real, burst: real, s: real)
    requires History(tables, calls) && calls != []
    requires Configured(calls, key, rate, burst) && rate > 0.0 && burst >= 1.0
    requires DroppedOnlyFull(tables, calls, key, rate, burst)
    requires s <= calls[0].now && StartsInRange(tables[0], key, burst, calls[0].now)
    ensures var t := calls[|calls| - 1].now;
            AdmittedCalls(calls, key) as real <= burst + Gain(rate, t - s)
    ensures key in tables[|calls|] ==> InRange(tables[|calls|][key], burst)
  {
    hide Accounted, History, Configured, DroppedOnlyFull, AdmittedCalls, Gain;
    var n := |calls|;
    LastIsLatest(tables, calls);
    BoundAfter(tables, calls, key, rate, burst, s, n);
    assert calls[..n] == calls;
    var t := calls[n - 1].now;
    if key in tables[n] {
      AccountedAt(tables[n][key], rate, burst, s, AdmittedCalls(calls, key), t);
    } else {
      AccountedAt(Bucket(burst, t, t), rate, burst, s, AdmittedCalls(calls, key), t);
    }
  }

  /** With the default burst the idle time always refills a bucket. */
  lemma DefaultBurstRefills(rule: Rule)
    requires rule.rps > 0 && rule.burst <= 0
    ensures Gain(rule.rps as real, IDLE_LIMIT) >= Burst(rule) as real
  {
    assert Gain(rule.rps as real, IDLE_LIMIT) == (rule.rps as real) * 600.0;
    assert Burst(rule) as real == (rule.rps as real) * 2.0;
  }

  // ---- What is dropped -----------------------------------------------------

  lemma SpentInRange(b: Bucket, rate: real, burst: real, now: real)
    requires InRange(b, burst) && rate > 0.0 && burst >= 1.0 && b.updated <= now
    ensures InRange(Spent(b, rate, burst, now), burst)
  {
    hide Gain, Refilled;
    RefillBound(b, rate, burst, now);
  }

  lemma RangeStep(before: Table, c: Call, after: Table, key: string, rate: real, burst: real, last: real)
    requires Answered(before, c, after) && StartsInRange(before, key, burst, last) && last <= c.now
    requires Concerns(c, key) ==> c.rule.rps as real == rate && Burst(c.rule) as real == burst
    requires rate > 0.0 && burst >= 1.0
    ensures StartsInRange(after, key, burst, c.now)
  {
    hide Spent, Admitted, MadeRoom, Refilled;
    if c.rule.rps > 0 {
      var due :| MadeRoom(before, due, KeyOf(c), c.now, c.kept);
      if key in c.kept {
        KeptIsPart(before, due, KeyOf(c), c.now, c.kept, key);
      }
      if KeyOf(c) == key {
        SpentInRange(Found(c.kept, key, burst, c.now), rate, burst, c.now);
        SpentAt(Found(c.kept, key, burst, c.now), rate, burst, c.now);
      }
    }
  }

  /** Whatever is dropped, the bucket a call finds is in range. */
  lemma {:induction false} RangeAfter(tables: seq<Table>, calls: seq<Call>, key: string, rate: real, burst: real,
                                      n: nat)
    requires History(tables, calls) && Configured(calls, key, rate, burst) && rate > 0.0 && burst >= 1.0
    requires n < |calls| && StartsInRange(tables[0], key, burst, calls[0].now)
    ensures StartsInRange(tables[n], key, burst, calls[n].now)
  {
    hide Answered, StartsInRange;
    if n > 0 {
      RangeAfter(tables, calls, key, rate, burst, n - 1);
      assert Answered(tables[n - 1], calls[n - 1], tables[n]);
      RangeStep(tables[n - 1], calls[n - 1], tables[n], key, rate, burst, calls[n - 1].now);
      LaterInRange(tables[n], key, burst, calls[n - 1].now, calls[n].now);
    }
  }

  lemma LaterInRange(table: Table, key: string, burst: real, last: real, now: real)
    requires StartsInRange(table, key, burst, last) && last <= now
    ensures StartsInRange(table, key, burst, now)
  {
  }

  /** The bucket is dropped although its client was seen within the idle time. */
  predicate DropsSeen(before: Table, c: Call, key: string) {
    Drops(before, c, key) && before[key].lastSeen >= c.now - IDLE_LIMIT
  }

  /** Only eviction drops such a bucket: for a request under another key, out of a full
      table, and as the longest unseen of a whole sample. */
  lemma SeenIsEvicted(before: Table, c: Call, after: Table, key: string) returns (sample: set<string>)
    requires Answered(before, c, after) && DropsSeen(before, c, key)
    ensures |before| >= 4096 && KeyOf(c) != key
    ensures |sample| == 64 && OldestOf(before, sample, key)
  {
    hide Spent, Admitted;
    var due :| MadeRoom(before, due, KeyOf(c), c.now, c.kept);
    var pruned := if due then Pruned(before, c.now) else before;
    SmallerTable(pruned, before);
    assert EvictedOne(pruned, c.kept);
    var victim, seen :| OldestOf(pruned, seen, victim) && c.kept == pruned - {victim};
    sample := seen;
  }

  /** Where the idle time fills any bucket, pruning drops full buckets only, so that the
      condition of the bound is about evictions alone. */
  lemma OnlyEvictionMatters(tables: seq<Table>, calls: seq<Call>, key: string, rate: real, burst: real)
    requires History(tables, calls) && calls != []
    requires Configured(calls, key, rate, burst) && rate > 0.0 && burst >= 1.0
    requires Gain(rate, IDLE_LIMIT) >= burst && StartsInRange(tables[0], key, burst, calls[0].now)
    ensures DroppedOnlyFull(tables, calls, key, rate, burst)
            <==> forall i :: 0 <= i < |calls| && DropsSeen(tables[i], calls[i], key) ==>
                               Refilled(tables[i][key], rate, burst, calls[i].now) == burst
  {
    hide Answered, Gain, Refilled;
    forall i | 0 <= i < |calls| && Drops(tables[i], calls[i], key) && !DropsSeen(tables[i], calls[i], key)
      ensures Refilled(tables[i][key], rate, burst, calls[i].now) == burst
    {
      RangeAfter(tables, calls, key, rate, burst, i);
      IdleIsFull(tables[i][key], rate, burst, calls[i].now);
    }
  }

  lemma LastIsLatest(tables: seq<Table>, calls: seq<Call>)
    requires History(tables, calls) && calls != []
    ensures |tables| == |calls| + 1
    ensures forall i :: 0 <= i < |calls| ==> calls[0].now <= calls[i].now <= calls[|calls| - 1].now
  {
  }

  lemma AccountedAt(b: Bucket, rate: real, burst: real, s: real, admitted: nat, t: real)
    requires Accounted(b, rate, burst, s, admitted) && rate > 0.0 && burst >= 1.0 && s <= t && b.updated <= t
    ensures admitted as real <= burst + Gain(rate, t - s) && InRange(b, burst)
  {
    hide Gain;
    GainSign(rate, t - s);
    if admitted > 0 {
      GainStretch(rate, s, b.updated, t);
    }
  }

  // ---- Spaced requests -----------------------------------------------------

  lemma SpacedIsAdmitted(b: Bucket, rate: real, burst: real, now: real)
    requires b.tokens >= 0.0 && rate > 0.0 && burst >= 1.0 && Gain(rate, now - b.updated) >= 1.0
    ensures Admitted(b, rate, burst, now)
  {
    hide Gain, Refilled;
    GainSign(rate, now - b.updated);
    RefilledGain(b, rate, burst, now);
  }

  /** Requests under the key are at least 1 / rate apart. */
  ghost predicate Spaced(calls: seq<Call>, key: string, rate: real) {
    forall i, j :: 0 <= i < j < |calls| && Concerns(calls[i], key) && Concerns(calls[j], key) ==>
                     Gain(rate, calls[j].now - calls[i].now) >= 1.0
  }

  /** The bucket was last used by one of the calls so far. */
  ghost predicate UsedBy(table: Table, key: string, calls: seq<Call>, n: nat) {
    key in table ==>
      && table[key].tokens >= 0.0
      && exists i :: 0 <= i < n <= |calls| && Concerns(calls[i], key) && table[key].updated == calls[i].now
  }

  lemma TokensStayUp(b: Bucket, rate: real, burst: real, now: real)
    requires b.tokens >= 0.0 && rate > 0.0 && burst >= 1.0
    ensures Spent(b, rate, burst, now).tokens >= 0.0
  {
    hide Gain, Refilled;
    GainSign(rate, now - b.updated);
    RefilledGain(b, rate, burst, now);
  }

  lemma SpacedStep(before: Table, c: Call, after: Table, key: string, rate: real, burst: real, calls: seq<Call>, n: nat)
    requires Answered(before, c, after) && n < |calls| && calls[n] == c && UsedBy(before, key, calls, n)
    requires Configured(calls, key, rate, burst) && Spaced(calls, key, rate) && rate > 0.0 && burst >= 1.0
    ensures UsedBy(after, key, calls, n + 1) && (Concerns(c, key) ==> c.ok)
  {
    hide Spent, Admitted, Gain;
    if c.rule.rps > 0 {
      var due :| MadeRoom(before, due, KeyOf(c), c.now, c.kept);
      if key in c.kept {
        KeptIsPart(before, due, KeyOf(c), c.now, c.kept, key);
      }
      if KeyOf(c) == key {
        var b := Found(c.kept, key, burst, c.now);
        if key in c.kept {
          var i :| 0 <= i < n && Concerns(calls[i], key) && b.updated == calls[i].now;
          SpacedIsAdmitted(b, rate, burst, c.now);
        } else {
          FullIsAdmitted(rate, burst, c.now);
        }
        TokensStayUp(b, rate, burst, c.now);
        SpentAt(b, rate, burst, c.now);
      }
    }
  }

  lemma FullIsAdmitted(rate: real, burst: real, now: real)
    requires burst >= 1.0
    ensures Admitted(Bucket(burst, now, now), rate, burst, now)
  {
  }

  lemma {:induction false} SpacedAfter(tables: seq<Table>, calls: seq<Call>, key: string, rate: real, burst: real,
                                       n: nat)
    requires History(tables, calls) && Configured(calls, key, rate, burst) && Spaced(calls, key, rate)
    requires key !in tables[0] && rate > 0.0 && burst >= 1.0 && n <= |calls|
    ensures UsedBy(tables[n], key, calls, n)
    ensures forall i :: 0 <= i < n && Concerns(calls[i], key) ==> calls[i].ok
  {
    hide Answered, UsedBy, Configured, Spaced;
    if n == 0 {
      NoneUsedYet(tables[0], key, calls);
    } else {
      SpacedAfter(tables, calls, key, rate, burst, n - 1);
      assert Answered(tables[n - 1], calls[n - 1], tables[n]);
      SpacedStep(tables[n - 1], calls[n - 1], tables[n], key, rate, burst, calls, n - 1);
    }
  }

  lemma NoneUsedYet(table: Table, key: string, calls: seq<Call>)
    requires key !in table
    ensures UsedBy(table, key, calls, 0)
  {
  }

  /** Main result 2. A client whose requests are at least 1 / rate apart is never
      refused, whatever is pruned or evicted meanwhile. */
  lemma SpacedIsNeverRefused(tables: seq<Table>, calls: seq<Call>, key: string, rate: real, burst: real, i: nat)
    requires History(tables, calls) && Configured(calls, key, rate, burst) && Spaced(calls, key, rate)
    requires key !in tables[0] && rate > 0.0 && burst >= 1.0
    requires i < |calls| && Concerns(calls[i], key)
    ensures calls[i].ok
  {
    SpacedAfter(tables, calls, key, rate, burst, |calls|);
  }

  // ---- Pruning -------------------------------------------------------------

  /** Whether a client would not notice that its bucket is dropped: the answer and the
      bucket afterwards are those of a new one. */
  predicate Unnoticed(b: Bucket, rate: real, burst: real, now: real) {
    var full := Bucket(burst, now, now);
    && Admitted(b, rate, burst, now) == Admitted(full, rate, burst, now)
    && Spent(b, rate, burst, now) == Spent(full, rate, burst, now)
  }

  predicate Idle(b: Bucket, burst: real, now: real) {
    InRange(b, burst) && b.updated == b.lastSeen < now - IDLE_LIMIT
  }

  lemma UnnoticedMeansFull(b: Bucket, rate: real, burst: real, now: real)
    requires burst >= 1.0
    ensures Unnoticed(b, rate, burst, now) <==> Refilled(b, rate, burst, now) == burst
  {
  }

  /** Main result 3. Dropping idle buckets goes unnoticed exactly when the idle time
      fills any bucket. */
  lemma PruningIsUnnoticedExactlyWhen(rate: real, burst: real)
    requires rate > 0.0 && burst >= 1.0
    ensures (forall b: Bucket, now: real :: Idle(b, burst, now) ==> Unnoticed(b, rate, burst, now))
            <==> Gain(rate, IDLE_LIMIT) >= burst
  {
    hide Unnoticed, Gain, Refilled;
    if Gain(rate, IDLE_LIMIT) >= burst {
      forall b: Bucket, now: real | Idle(b, burst, now) ensures Unnoticed(b, rate, burst, now) {
        IdleIsFull(b, rate, burst, now);
        UnnoticedMeansFull(b, rate, burst, now);
      }
    } else {
      var margin := (burst - Gain(rate, IDLE_LIMIT)) / (2.0 * rate);
      NotQuiteFull(rate, burst, margin);
      var empty := Bucket(0.0, 0.0, 0.0);
      UnnoticedMeansFull(empty, rate, burst, IDLE_LIMIT + margin);
      assert Idle(empty, burst, IDLE_LIMIT + margin) && !Unnoticed(empty, rate, burst, IDLE_LIMIT + margin);
    }
  }

  lemma IdleIsFull(b: Bucket, rate: real, burst: real, now: real)
    requires rate > 0.0 && Gain(rate, IDLE_LIMIT) >= burst && Idle(b, burst, now)
    ensures Refilled(b, rate, burst, now) == burst
  {
    hide Gain, Refilled;
    GainAdds(rate, IDLE_LIMIT, now - b.updated - IDLE_LIMIT);
    GainSign(rate, now - b.updated - IDLE_LIMIT);
    RefilledGain(b, rate, burst, now);
  }

  lemma NotQuiteFull(rate: real, burst: real, margin: real)
    requires rate > 0.0 && Gain(rate, IDLE_LIMIT) < burst && margin == (burst - Gain(rate, IDLE_LIMIT)) / (2.0 * rate)
    ensures margin > 0.0 && Refilled(Bucket(0.0, 0.0, 0.0), rate, burst, IDLE_LIMIT + margin) < burst
  {
    var gap := burst - Gain(rate, IDLE_LIMIT);
    HalfGap(rate, gap, margin);
    hide Gain, Refilled;
    GainSign(rate, margin);
    GainAdds(rate, IDLE_LIMIT, margin);
    RefilledGain(Bucket(0.0, 0.0, 0.0), rate, burst, IDLE_LIMIT + margin);
  }

  lemma HalfGap(rate: real, gap: real, margin: real)
    requires rate > 0.0 && margin == gap / (2.0 * rate)
    ensures Gain(rate, margin) == gap / 2.0
  {
    assert margin * (2.0 * rate) == gap;
  }

  // ---- The limiter itself --------------------------------------------------

  datatype Request = Request(rule: Rule, ip: string, now: real)

  /** Serving requests one after the other makes a history. */
  method Serve(limiter: RuleLimiter, requests: seq<Request>)
    returns (answers: seq<bool>, ghost tables: seq<Table>, ghost calls: seq<Call>)
    requires limiter.Valid() && forall i, j :: 0 <= i < j < |requests| ==> requests[i].now <= requests[j].now
    modifies limiter
    ensures limiter.Valid() && History(tables, calls)
    ensures tables[0] == old(limiter.buckets) && tables[|tables| - 1] == limiter.buckets
    ensures |calls| == |requests| == |answers|
    ensures forall i :: 0 <= i < |calls| ==>
                          && calls[i].rule == requests[i].rule && calls[i].ip == requests[i].ip
                          && calls[i].now == requests[i].now && calls[i].ok == answers[i]
  {
    hide MadeRoom, Admitted, Spent, Found;
    answers, tables, calls := [], [limiter.buckets], [];
    for n := 0 to |requests|
      invariant limiter.Valid() && |calls| == n == |answers| && |tables| == n + 1
      invariant tables[0] == old(limiter.buckets) && tables[n] == limiter.buckets
      invariant forall i :: 0 <= i < n ==> Answered(tables[i], calls[i], tables[i + 1])
      invariant forall i :: 0 <= i < n ==>
                              && calls[i].rule == requests[i].rule && calls[i].ip == requests[i].ip
                              && calls[i].now == requests[i].now && calls[i].ok == answers[i]
    {
      var ok, retryAfter;
      ghost var before, kept := limiter.buckets, map[];
      ok, retryAfter, kept := limiter.Allow(requests[n].rule, requests[n].ip, requests[n].now);
      ghost var call := Call(requests[n].rule, requests[n].ip, requests[n].now, kept, ok);
      assert Answered(before, call, limiter.buckets);
      answers, calls, tables := answers + [ok], calls + [call], tables + [limiter.buckets];
    }
  }
}
