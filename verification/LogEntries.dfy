/** Entries of the logs in memory, the queries over them, and the order in which both
    logs are read together (internal/logcenter/logcenter.go). */
module LogEntries {

  /** `seqNo` numbers the entries of all logs; `time` and the text fields are the ones
      that filters look at. */
  datatype Entry = Entry(seqNo: nat, time: int, level: string, source: string, entityID: string, message: string)

  type Filter = Entry -> bool

  const MAX_ENTRIES: nat := 2000

  /** The last n elements. */
  function LastOf<T>(s: seq<T>, n: nat): (r: seq<T>)
    ensures |s| <= n ==> r == s
    ensures |s| > n ==> |r| == n && r == s[|s| - n..]
  {
    if |s| > n then s[|s| - n..] else s
  }

  lemma LastOfSnoc<T>(s: seq<T>, x: T, n: nat)
    ensures LastOf(LastOf(s, n) + [x], n) == LastOf(s + [x], n)
  {
  }

  /** The entry as it is stored: defaults filled in and the next number. */
  function Stored(e: Entry, seqNo: nat): Entry {
    e.(seqNo := seqNo, level := if e.level == "" then "info" else e.level,
       source := if e.source == "" then "system" else e.source)
  }

  predicate InAccessLog(e: Entry) {
    e.source == "webproxy"
  }

  /** Sequence numbers rise and are positive. */
  ghost predicate Rising(log: seq<Entry>, bound: int) {
    && (forall i :: 0 <= i < |log| ==> 0 < log[i].seqNo <= bound)
    && (forall i, j :: 0 <= i < j < |log| ==> log[i].seqNo < log[j].seqNo)
  }

  lemma RisingSnoc(log: seq<Entry>, e: Entry, bound: int)
    requires Rising(log, bound) && e.seqNo == bound + 1 && bound >= 0
    ensures Rising(log + [e], bound + 1)
  {
  }

  lemma RisingUp(log: seq<Entry>, bound: int)
    requires Rising(log, bound)
    ensures Rising(log, bound + 1)
  {
  }

  // ---- Queries -------------------------------------------------------------

  /** The entries a filter accepts, newest first. */
  function Newest(pool: seq<Entry>, f: Filter): seq<Entry> {
    if pool == [] then []
    else
      var n := |pool| - 1;
      (if f(pool[n]) then [pool[n]] else []) + Newest(pool[..n], f)
  }

  /** The position after the first entry with this number, 0 when there is none. */
  function After(matched: seq<Entry>, cursor: int): (start: nat)
    ensures start <= |matched|
  {
    if matched == [] then 0
    else
      var n := |matched| - 1;
      var before := After(matched[..n], cursor);
      if before > 0 || matched[n].seqNo != cursor then before else n + 1
  }

  function PageSize(limit: int): (n: nat)
    ensures 1 <= n <= 500
  {
    if limit <= 0 then 100 else if limit > 500 then 500 else limit
  }

  datatype Page = Page(entries: seq<Entry>, next: int)

  /** One page, and the number to ask for the next one with (-1 at the end). */
  function PageOf(matched: seq<Entry>, start: nat, limit: nat): Page
    requires limit > 0
  {
    if start >= |matched| then Page([], -1)
    else if start + limit < |matched| then Page(matched[start..start + limit], matched[start + limit - 1].seqNo)
    else Page(matched[start..], -1)
  }

  /** A page is the stretch of matches from its start, as many as asked for or as there are;
      a number comes with it exactly when there are more, and is that of its last entry. */
  lemma PageIsExact(matched: seq<Entry>, start: nat, limit: nat)
    requires limit > 0 && start <= |matched|
    ensures var page := PageOf(matched, start, limit);
            var end := if start + limit < |matched| then start + limit else |matched|;
            && page.entries == matched[start..end]
            && (page.next == -1 <==> end == |matched|)
            && (page.next != -1 ==> page.next == matched[end - 1].seqNo)
  {
  }

  /** The pool filtered newest first, and the page behind the cursor's entry. */
  function Query(pool: seq<Entry>, f: Filter, cursor: int, limit: int): Page {
    var matched := Newest(pool, f);
    PageOf(matched, if cursor > 0 then After(matched, cursor) else 0, PageSize(limit))
  }

  lemma AfterPrefix(matched: seq<Entry>, cursor: int, k: nat)
    requires k < |matched|
    ensures After(matched[..k + 1], cursor) ==
            var before := After(matched[..k], cursor);
            if before > 0 || matched[k].seqNo != cursor then before else k + 1
  {
    assert matched[..k + 1][..k] == matched[..k];
  }

  /** Once found, the position stays. */
  lemma {:induction false} AfterStays(matched: seq<Entry>, cursor: int, k: nat)
    requires k <= |matched| && After(matched[..k], cursor) > 0
    ensures After(matched, cursor) == After(matched[..k], cursor)
    decreases |matched| - k
  {
    if k == |matched| {
      assert matched[..k] == matched;
    } else {
      AfterPrefix(matched, cursor, k);
      AfterStays(matched, cursor, k + 1);
    }
  }

  // ---- Both logs together --------------------------------------------------

  /** Stable sorting by time: an entry goes behind those that are no later. */
  function Inserted(sorted: seq<Entry>, e: Entry): seq<Entry> {
    if sorted == [] || sorted[|sorted| - 1].time <= e.time then sorted + [e]
    else Inserted(sorted[..|sorted| - 1], e) + [sorted[|sorted| - 1]]
  }

  function SortedByTime(s: seq<Entry>): seq<Entry> {
    if s == [] then [] else Inserted(SortedByTime(s[..|s| - 1]), s[|s| - 1])
  }

  ghost predicate TimesRise(s: seq<Entry>) {
    forall i, j :: 0 <= i < j < |s| ==> s[i].time <= s[j].time
  }

  /** The entries of one time, in order. */
  function AtTime(s: seq<Entry>, t: int): seq<Entry> {
    if s == [] then []
    else AtTime(s[..|s| - 1], t) + if s[|s| - 1].time == t then [s[|s| - 1]] else []
  }

  lemma {:induction false} InsertedHas(sorted: seq<Entry>, e: Entry)
    ensures multiset(Inserted(sorted, e)) == multiset(sorted) + multiset{e}
  {
    if sorted != [] && sorted[|sorted| - 1].time > e.time {
      var n := |sorted| - 1;
      InsertedHas(sorted[..n], e);
      assert sorted == sorted[..n] + [sorted[n]];
    }
  }

  lemma InsertedMember(sorted: seq<Entry>, e: Entry, x: Entry)
    requires x in Inserted(sorted, e)
    ensures x in sorted || x == e
  {
    InsertedHas(sorted, e);
    assert x in multiset(Inserted(sorted, e));
  }

  lemma RisesSnoc(s: seq<Entry>, e: Entry)
    requires TimesRise(s) && forall x :: x in s ==> x.time <= e.time
    ensures TimesRise(s + [e])
  {
  }

  lemma {:induction false} InsertedRises(sorted: seq<Entry>, e: Entry)
    requires TimesRise(sorted)
    ensures TimesRise(Inserted(sorted, e))
  {
    if sorted != [] && sorted[|sorted| - 1].time > e.time {
      var n := |sorted| - 1;
      var before := Inserted(sorted[..n], e);
      InsertedRises(sorted[..n], e);
      forall x | x in before ensures x.time <= sorted[n].time {
        InsertedMember(sorted[..n], e, x);
      }
      RisesSnoc(before, sorted[n]);
    } else {
      RisesSnoc(sorted, e);
    }
  }

  lemma AtTimeSnoc(s: seq<Entry>, e: Entry, t: int)
    ensures AtTime(s + [e], t) == AtTime(s, t) + if e.time == t then [e] else []
  {
    assert (s + [e])[..|s|] == s;
  }

  lemma {:induction false} InsertedIsStable(sorted: seq<Entry>, e: Entry, t: int)
    ensures AtTime(Inserted(sorted, e), t) == AtTime(sorted, t) + if e.time == t then [e] else []
  {
    hide AtTime;
    if sorted != [] && sorted[|sorted| - 1].time > e.time {
      var init, last := sorted[..|sorted| - 1], sorted[|sorted| - 1];
      InsertedIsStable(init, e, t);
      assert sorted == init + [last];
      AtTimeSnoc(init, last, t);
      AtTimeSnoc(Inserted(init, e), last, t);
      assert AtTime(init, t) + [] == AtTime(init, t);
    } else {
      AtTimeSnoc(sorted, e, t);
    }
  }

  /** The result is sorted by time, and entries of the same time keep their order. */
  lemma {:induction false} SortedStably(s: seq<Entry>)
    ensures TimesRise(SortedByTime(s)) && multiset(SortedByTime(s)) == multiset(s)
    ensures SameAtAllTimes(SortedByTime(s), s)
  {
    hide AtTime, SameAtAllTimes, TimesRise, Inserted;
    if s == [] {
      SameAsItself([]);
    } else {
      var n := |s| - 1;
      SortedStably(s[..n]);
      InsertedHas(SortedByTime(s[..n]), s[n]);
      InsertedRises(SortedByTime(s[..n]), s[n]);
      InsertedSame(SortedByTime(s[..n]), s[..n], s[n]);
      assert s == s[..n] + [s[n]];
    }
  }

  lemma SameAsItself(s: seq<Entry>)
    ensures SameAtAllTimes(s, s) && (|s| < 2 ==> TimesRise(s))
  {
  }

  lemma InsertedSame(sorted: seq<Entry>, s: seq<Entry>, e: Entry)
    requires SameAtAllTimes(sorted, s)
    ensures SameAtAllTimes(Inserted(sorted, e), s + [e])
  {
    forall t: int ensures AtTime(Inserted(sorted, e), t) == AtTime(s + [e], t) {
      InsertedIsStable(sorted, e, t);
      SameAt(sorted, s, t);
      AtTimeSnoc(s, e, t);
    }
  }

  lemma {:induction false} AtTimeHas(s: seq<Entry>, t: int)
    ensures AtTime(s, t) == [] <==> forall e :: e in s ==> e.time != t
  {
    if s != [] {
      var n := |s| - 1;
      AtTimeHas(s[..n], t);
      assert s == s[..n] + [s[n]];
    }
  }

  lemma AtTimeEnds(s: seq<Entry>, t: int)
    requires s != [] && s[|s| - 1].time == t
    ensures AtTime(s, t) != [] && AtTime(s, t)[|AtTime(s, t)| - 1] == s[|s| - 1]
  {
  }

  ghost predicate SameAtAllTimes(a: seq<Entry>, b: seq<Entry>) {
    forall t :: AtTime(a, t) == AtTime(b, t)
  }

  /** Nothing else can be asked of a stable sort: two sequences sorted by time with the
      same entries in the same order for every time are the same. */
  lemma {:induction false} StableSortIsUnique(a: seq<Entry>, b: seq<Entry>)
    requires TimesRise(a) && TimesRise(b) && SameAtAllTimes(a, b)
    ensures a == b
  {
    hide SameAtAllTimes, AtTime;
    if a == [] {
      if b != [] {
        var _ := SameTimes(b, a, b[0]);
      }
    } else {
      SameLast(a, b);
      SameInit(a, b);
      StableSortIsUnique(a[..|a| - 1], b[..|b| - 1]);
      assert a == a[..|a| - 1] + [a[|a| - 1]] && b == b[..|b| - 1] + [b[|b| - 1]];
    }
  }

  lemma SameTimes(a: seq<Entry>, b: seq<Entry>, e: Entry) returns (d: Entry)
    requires (SameAtAllTimes(a, b) || SameAtAllTimes(b, a)) && e in a
    ensures d in b && d.time == e.time
  {
    hide AtTime;
    AtTimeHas(a, e.time);
    AtTimeHas(b, e.time);
    assert AtTime(a, e.time) == AtTime(b, e.time);
    d :| d in b && d.time == e.time;
  }

  lemma SameLast(a: seq<Entry>, b: seq<Entry>)
    requires TimesRise(a) && TimesRise(b) && a != [] && SameAtAllTimes(a, b)
    ensures b != [] && b[|b| - 1] == a[|a| - 1]
  {
    hide AtTime, SameAtAllTimes;
    var x := a[|a| - 1];
    var d := SameTimes(a, b, x);
    var y := b[|b| - 1];
    var e := SameTimes(b, a, y);
    assert d.time <= y.time && e.time <= x.time;
    AtTimeEnds(a, x.time);
    AtTimeEnds(b, x.time);
    SameAt(a, b, x.time);
  }

  lemma SameAt(a: seq<Entry>, b: seq<Entry>, t: int)
    requires SameAtAllTimes(a, b)
    ensures AtTime(a, t) == AtTime(b, t)
  {
  }

  lemma SameInit(a: seq<Entry>, b: seq<Entry>)
    requires a != [] && b != [] && a[|a| - 1] == b[|b| - 1] && SameAtAllTimes(a, b)
    ensures SameAtAllTimes(a[..|a| - 1], b[..|b| - 1])
  {
    var c, d, e := a[..|a| - 1], b[..|b| - 1], a[|a| - 1];
    forall t: int ensures AtTime(c, t) == AtTime(d, t) {
      SameAt(a, b, t);
      var x, y := AtTime(c, t), AtTime(d, t);
      if e.time == t {
        assert AtTime(a, t) == x + [e] && AtTime(b, t) == y + [e];
        assert x == (x + [e])[..|x + [e]| - 1] && y == (y + [e])[..|y + [e]| - 1];
      } else {
        assert AtTime(a, t) == x + [] == x && AtTime(b, t) == y + [] == y;
      }
    }
  }

  /** What a query looks through. */
  datatype Kind = SystemOnly | AccessOnly | BothLogs

  function PoolOf(kind: Kind, system: seq<Entry>, access: seq<Entry>): seq<Entry> {
    match kind
    case SystemOnly => system
    case AccessOnly => access
    case BothLogs => SortedByTime(system + access)
  }

  /** What a query looks through: each entry of the logs it asks for, once. */
  lemma PoolHolds(kind: Kind, system: seq<Entry>, access: seq<Entry>)
    ensures multiset(PoolOf(kind, system, access))
            == (if kind == AccessOnly then multiset{} else multiset(system))
               + (if kind == SystemOnly then multiset{} else multiset(access))
  {
    hide SortedByTime;
    if kind == BothLogs {
      SortedStably(system + access);
      assert multiset(system + access) == multiset(system) + multiset(access);
    }
  }

  /** Whether one entry stands before another in a pool, whatever else is in it. */
  predicate Precedes(kind: Kind, a: Entry, b: Entry) {
    if kind == BothLogs then
      a.time < b.time || (a.time == b.time && AddedBefore(a, b))
    else
      a.seqNo < b.seqNo
  }

  predicate AddedBefore(a: Entry, b: Entry) {
    if InAccessLog(a) == InAccessLog(b) then a.seqNo < b.seqNo else InAccessLog(b)
  }

  ghost predicate InOrder(kind: Kind, pool: seq<Entry>) {
    forall i, j :: 0 <= i < j < |pool| ==> Precedes(kind, pool[i], pool[j])
  }

  lemma InOrderSnoc(kind: Kind, s: seq<Entry>, e: Entry)
    requires InOrder(kind, s) && forall x :: x in s ==> Precedes(kind, x, e)
    ensures InOrder(kind, s + [e])
  {
    hide Precedes;
  }

  lemma {:induction false} InsertedInOrder(sorted: seq<Entry>, e: Entry)
    requires InOrder(BothLogs, sorted) && forall x :: x in sorted ==> AddedBefore(x, e)
    ensures InOrder(BothLogs, Inserted(sorted, e))
  {
    hide InOrder, AddedBefore;
    if sorted == [] {
      InOrderSnoc(BothLogs, [], e);
    } else {
      var n := |sorted| - 1;
      assert sorted == sorted[..n] + [sorted[n]];
      InitInOrder(sorted[..n], sorted[n]);
      if sorted[n].time > e.time {
        var before := Inserted(sorted[..n], e);
        InsertedInOrder(sorted[..n], e);
        forall x | x in before ensures Precedes(BothLogs, x, sorted[n]) {
          InsertedMember(sorted[..n], e, x);
        }
        InOrderSnoc(BothLogs, before, sorted[n]);
      } else {
        InOrderSnoc(BothLogs, sorted, e);
      }
    }
  }

  lemma InitInOrder(init: seq<Entry>, last: Entry)
    requires InOrder(BothLogs, init + [last])
    ensures InOrder(BothLogs, init)
    ensures forall x :: x in init ==> Precedes(BothLogs, x, last) && x.time <= last.time
  {
    hide AddedBefore;
    var s := init + [last];
    assert forall i :: 0 <= i < |init| ==> s[i] == init[i];
    forall x | x in init ensures Precedes(BothLogs, x, last) {
      var i :| 0 <= i < |init| && init[i] == x;
      assert Precedes(BothLogs, s[i], s[|init|]);
    }
  }

  lemma {:induction false} SortedInOrder(s: seq<Entry>)
    requires forall i, j :: 0 <= i < j < |s| ==> AddedBefore(s[i], s[j])
    ensures InOrder(BothLogs, SortedByTime(s))
  {
    if s != [] {
      var n := |s| - 1;
      SortedInOrder(s[..n]);
      SortedStably(s[..n]);
      forall x | x in SortedByTime(s[..n]) ensures AddedBefore(x, s[n]) {
        assert x in multiset(SortedByTime(s[..n]));
      }
      InsertedInOrder(SortedByTime(s[..n]), s[n]);
    }
  }

  /** The logs as they are kept: each entry in the log of its kind, numbers rise, and no
      number is in both. */
  ghost predicate Kept(system: seq<Entry>, access: seq<Entry>, bound: int) {
    && Rising(system, bound) && Rising(access, bound)
    && (forall e :: e in system ==> !InAccessLog(e))
    && (forall e :: e in access ==> InAccessLog(e))
    && (forall x, y :: x in system && y in access ==> x.seqNo != y.seqNo)
  }

  lemma KeptWithSystem(system: seq<Entry>, access: seq<Entry>, e: Entry, bound: nat)
    requires Kept(system, access, bound) && e.seqNo == bound + 1 && !InAccessLog(e)
    ensures Kept(system + [e], access, bound + 1)
  {
    RisingSnoc(system, e, bound);
    RisingUp(access, bound);
    assert forall y :: y in access ==> y.seqNo <= bound;
    hide Rising;
  }

  lemma KeptWithAccess(system: seq<Entry>, access: seq<Entry>, e: Entry, bound: nat)
    requires Kept(system, access, bound) && e.seqNo == bound + 1 && InAccessLog(e)
    ensures Kept(system, access + [e], bound + 1)
  {
    RisingSnoc(access, e, bound);
    RisingUp(system, bound);
    assert forall x :: x in system ==> x.seqNo <= bound;
    hide Rising;
  }

  lemma LastOfMember(log: seq<Entry>, cap: nat, e: Entry)
    requires e in LastOf(log, cap)
    ensures e in log
  {
  }

  lemma KeptEnds(system: seq<Entry>, access: seq<Entry>, bound: int, cap: nat)
    requires Kept(system, access, bound)
    ensures Kept(LastOf(system, cap), LastOf(access, cap), bound)
  {
    hide Rising, LastOf, InAccessLog;
    RisingEnd(system, bound, cap);
    RisingEnd(access, bound, cap);
    forall e | e in LastOf(system, cap) ensures e in system {
      LastOfMember(system, cap, e);
    }
    forall e | e in LastOf(access, cap) ensures e in access {
      LastOfMember(access, cap, e);
    }
  }

  lemma RisingEnd(log: seq<Entry>, bound: int, cap: nat)
    requires Rising(log, bound)
    ensures Rising(LastOf(log, cap), bound)
  {
  }

  /** Every pool is read in one order that does not depend on what else it holds. */
  lemma PoolInOrder(kind: Kind, system: seq<Entry>, access: seq<Entry>, bound: int)
    requires Kept(system, access, bound)
    ensures InOrder(kind, PoolOf(kind, system, access))
  {
    if kind == BothLogs {
      var s := system + access;
      forall i, j | 0 <= i < j < |s| ensures AddedBefore(s[i], s[j]) {
        assert i < |system| ==> s[i] in system;
        assert j < |system| ==> s[j] in system;
        assert i >= |system| ==> s[i] in access;
        assert j >= |system| ==> s[j] in access;
      }
      SortedInOrder(s);
    }
  }
}
