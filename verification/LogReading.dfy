/** Reading page by page while entries arrive: through any kind of pool nothing is
    returned twice and nothing that stays is missed; and a client of the centre that
    follows the cursors reads like that. */
module LogReading {
  import opened LogEntries
  import opened LogPaging
  import opened LogRing

  // ---- Pools in one order --------------------------------------------------

  /** The pool at one request, the page it got and the number that came with it. */
  datatype Look = Look(pool: seq<Entry>, limit: int, page: Page)

  function CursorAt(looks: seq<Look>, i: nat): int
    requires i < |looks|
  {
    if i == 0 then 0 else looks[i - 1].page.next
  }

  /** Pools that one reading sees: in order, and a number means one entry. */
  ghost predicate SeenPools(kind: Kind, looks: seq<Look>) {
    && (forall i :: 0 <= i < |looks| ==> InOrder(kind, looks[i].pool))
    && (forall i, x :: 0 <= i < |looks| && x in looks[i].pool ==> x.seqNo > 0)
    && (forall i, j, x, y ::
          0 <= i < |looks| && 0 <= j < |looks| && x in looks[i].pool && y in looks[j].pool && x.seqNo == y.seqNo ==>
            x == y)
  }

  ghost predicate HeldIn(pool: seq<Entry>, cursor: int) {
    exists e :: e in pool && e.seqNo == cursor
  }

  /** Pages are asked for with the number from the page before, whose entry is still
      held. Between the pages entries may come and go anywhere in the pool. */
  ghost predicate LookOK(looks: seq<Look>, f: Filter, i: nat)
    requires i < |looks|
  {
    && looks[i].page == Query(looks[i].pool, f, CursorAt(looks, i), looks[i].limit)
    && (i > 0 ==> looks[i - 1].page.next != -1 && HeldIn(looks[i].pool, CursorAt(looks, i)))
  }

  ghost predicate Asked(looks: seq<Look>, f: Filter) {
    forall i :: 0 <= i < |looks| ==> LookOK(looks, f, i)
  }

  ghost predicate Reading(kind: Kind, looks: seq<Look>, f: Filter) {
    SeenPools(kind, looks) && Asked(looks, f)
  }

  function Gathered(looks: seq<Look>): seq<Entry> {
    if looks == [] then [] else Gathered(looks[..|looks| - 1]) + looks[|looks| - 1].page.entries
  }

  ghost predicate Backward(kind: Kind, s: seq<Entry>) {
    forall i, j :: 0 <= i < j < |s| ==> Precedes(kind, s[j], s[i])
  }

  // ---- One page ------------------------------------------------------------

  lemma PrecedesIsStrict(kind: Kind, a: Entry, b: Entry, c: Entry)
    ensures !Precedes(kind, a, a)
    ensures Precedes(kind, a, b) && Precedes(kind, b, c) ==> Precedes(kind, a, c)
  {
  }

  lemma {:induction false} NewestBackward(kind: Kind, pool: seq<Entry>, f: Filter)
    requires InOrder(kind, pool)
    ensures Backward(kind, Newest(pool, f))
  {
    hide Precedes;
    if pool != [] {
      var n := |pool| - 1;
      NewestBackward(kind, pool[..n], f);
      forall k | 0 <= k < |Newest(pool[..n], f)| ensures Precedes(kind, Newest(pool[..n], f)[k], pool[n]) {
        NewestFrom(pool[..n], f, k);
      }
    }
  }

  lemma NewestMembers(pool: seq<Entry>, f: Filter, e: Entry)
    ensures e in Newest(pool, f) <==> e in pool && f(e)
  {
    if e in Newest(pool, f) {
      var k :| 0 <= k < |Newest(pool, f)| && Newest(pool, f)[k] == e;
      NewestFrom(pool, f, k);
    }
    if e in pool && f(e) {
      NewestHas(pool, f, e);
    }
  }

  lemma BackwardDistinct(kind: Kind, s: seq<Entry>, i: nat, k: nat)
    requires Backward(kind, s) && i < |s| && k < |s| && s[i] == s[k]
    ensures i == k
  {
    PrecedesIsStrict(kind, s[i], s[i], s[i]);
  }

  /** The number of an entry leads right behind it. */
  lemma BehindCursor(kind: Kind, matched: seq<Entry>, e: Entry) returns (k: nat)
    requires Backward(kind, matched) && e in matched
    requires forall x :: x in matched && x.seqNo == e.seqNo ==> x == e
    ensures k < |matched| && matched[k] == e && After(matched, e.seqNo) == k + 1
  {
    hide Backward, After;
    k :| 0 <= k < |matched| && matched[k] == e;
    forall i | 0 <= i < |matched| && matched[i].seqNo == e.seqNo ensures i == k {
      assert matched[i] in matched;
      BackwardDistinct(kind, matched, i, k);
    }
    AfterFinds(matched, k);
  }

  /** What has been gathered still runs backwards with a page that starts behind its
      last entry. */
  lemma PageAdds(kind: Kind, matched: seq<Entry>, start: nat, limit: nat, got: seq<Entry>)
    requires Backward(kind, matched) && Backward(kind, got) && limit > 0 && start <= |matched|
    requires if start == 0 then got == [] else got != [] && got[|got| - 1] == matched[start - 1]
    ensures Backward(kind, got + PageOf(matched, start, limit).entries)
  {
    var page := PageOf(matched, start, limit).entries;
    forall i, j | 0 <= i < |got| && 0 <= j < |page| ensures Precedes(kind, page[j], got[i]) {
      PrecedesIsStrict(kind, page[j], matched[start - 1], got[i]);
      assert page[j] == matched[start + j];
    }
    BackwardConcat(kind, got, page);
  }

  lemma BackwardConcat(kind: Kind, a: seq<Entry>, b: seq<Entry>)
    requires Backward(kind, a) && Backward(kind, b)
    requires forall i, j :: 0 <= i < |a| && 0 <= j < |b| ==> Precedes(kind, b[j], a[i])
    ensures Backward(kind, a + b)
  {
    hide Precedes;
  }

  /** A match behind the start of a page is in it or behind its end. */
  lemma PageLeaves(kind: Kind, matched: seq<Entry>, start: nat, limit: nat, e: Entry)
    requires Backward(kind, matched) && limit > 0 && start <= |matched| && e in matched
    requires start > 0 ==> Precedes(kind, e, matched[start - 1])
    ensures var page := PageOf(matched, start, limit);
            || e in page.entries
            || (page.next != -1 && page.entries != [] && Precedes(kind, e, page.entries[|page.entries| - 1]))
  {
    var k :| 0 <= k < |matched| && matched[k] == e;
    var page := PageOf(matched, start, limit);
    if start > 0 {
      PrecedesIsStrict(kind, e, matched[start - 1], e);
    }
    assert k >= start;
    if k < start + |page.entries| {
      assert page.entries[k - start] == e;
    }
  }

  // ---- No repeats, nothing missed ------------------------------------------

  ghost predicate HeldThroughout(looks: seq<Look>, e: Entry) {
    forall i :: 0 <= i < |looks| ==> e in looks[i].pool
  }

  ghost predicate HeldOnce(looks: seq<Look>, e: Entry) {
    exists i :: 0 <= i < |looks| && e in looks[i].pool
  }

  /** Where a reading stands: the next number is that of the last entry gathered, and
      of the matches that every pool so far held, those not gathered precede it. */
  ghost predicate Stands(kind: Kind, looks: seq<Look>, f: Filter, got: seq<Entry>, next: int) {
    && Backward(kind, got)
    && (forall e :: e in got ==> f(e) && HeldOnce(looks, e))
    && (next != -1 ==> got != [] && got[|got| - 1].seqNo == next)
    && (forall e :: f(e) && HeldThroughout(looks, e) && e !in got ==> next != -1 && Precedes(kind, e, got[|got| - 1]))
  }

  lemma SeenMatches(kind: Kind, looks: seq<Look>, f: Filter, i: nat)
    requires SeenPools(kind, looks) && i < |looks|
    ensures Backward(kind, Newest(looks[i].pool, f))
    ensures forall x :: x in Newest(looks[i].pool, f) ==> x.seqNo > 0
    ensures forall x, y ::
              x in Newest(looks[i].pool, f) && y in Newest(looks[i].pool, f) && x.seqNo == y.seqNo ==> x == y
  {
    hide Backward, Newest, Precedes;
    NewestBackward(kind, looks[i].pool, f);
    forall x | x in Newest(looks[i].pool, f) ensures x in looks[i].pool {
      NewestMembers(looks[i].pool, f, x);
    }
  }

  /** What carries the cursor's number now is the entry that carried it before. */
  lemma CursorEntry(kind: Kind, looks: seq<Look>, n: nat, last: Entry)
    requires SeenPools(kind, looks) && n < |looks| && HeldOnce(looks[..n], last)
    requires HeldIn(looks[n].pool, last.seqNo)
    ensures last in looks[n].pool && last.seqNo > 0
  {
    hide InOrder;
    var i :| 0 <= i < n && last in looks[..n][i].pool;
    var x :| x in looks[n].pool && x.seqNo == last.seqNo;
    assert last in looks[i].pool && x == last;
  }

  /** Where a page starts: at the front, or right behind the last entry gathered. */
  lemma StartOf(kind: Kind, looks: seq<Look>, f: Filter, n: nat, got: seq<Entry>) returns (start: nat)
    requires Reading(kind, looks, f) && n < |looks|
    requires if n == 0 then got == [] else Stands(kind, looks[..n], f, got, looks[n - 1].page.next)
    ensures var matched := Newest(looks[n].pool, f);
            && start <= |matched| && looks[n].page == PageOf(matched, start, PageSize(looks[n].limit))
            && (if n == 0 then start == 0 else start > 0 && got != [] && got[|got| - 1] == matched[start - 1])
  {
    hide Newest, PageOf, Precedes, Backward, After, HeldThroughout, HeldOnce, SeenPools, HeldIn;
    var matched := Newest(looks[n].pool, f);
    assert LookOK(looks, f, n);
    start := 0;
    if n > 0 {
      var last := got[|got| - 1];
      assert last in got && HeldOnce(looks[..n], last);
      CursorEntry(kind, looks, n, last);
      NewestMembers(looks[n].pool, f, last);
      SeenMatches(kind, looks, f, n);
      var k := BehindCursor(kind, matched, last);
      start := k + 1;
    }
  }

  lemma PageEnds(matched: seq<Entry>, start: nat, limit: nat)
    requires limit > 0
    ensures var page := PageOf(matched, start, limit);
            && (forall e :: e in page.entries ==> e in matched)
            && (page.next != -1 ==> page.entries != [] && page.next == page.entries[|page.entries| - 1].seqNo)
  {
  }

  /** What is gathered with the page matches and was held. */
  lemma PageIsHeld(looks: seq<Look>, f: Filter, n: nat, e: Entry)
    requires n < |looks| && e in Newest(looks[n].pool, f)
    ensures f(e) && HeldOnce(looks[..n + 1], e)
  {
    NewestMembers(looks[n].pool, f, e);
    assert looks[..n + 1][n] == looks[n];
  }

  lemma HeldOnceStays(looks: seq<Look>, n: nat, e: Entry)
    requires n < |looks| && HeldOnce(looks[..n], e)
    ensures HeldOnce(looks[..n + 1], e)
  {
    var i :| 0 <= i < n && e in looks[..n][i].pool;
    assert looks[..n + 1][i] == looks[..n][i];
  }

  lemma HeldBefore(looks: seq<Look>, n: nat, e: Entry)
    requires n < |looks| && HeldThroughout(looks[..n + 1], e)
    ensures HeldThroughout(looks[..n], e) && e in looks[n].pool
  {
    forall i | 0 <= i < n ensures e in looks[..n][i].pool {
      assert looks[..n + 1][i] == looks[..n][i];
    }
    assert looks[..n + 1][n] == looks[n];
  }

  lemma StandsNext(kind: Kind, looks: seq<Look>, f: Filter, n: nat, got: seq<Entry>)
    requires Reading(kind, looks, f) && n < |looks|
    requires if n == 0 then got == [] else Stands(kind, looks[..n], f, got, looks[n - 1].page.next)
    ensures Stands(kind, looks[..n + 1], f, got + looks[n].page.entries, looks[n].page.next)
  {
    hide Newest, PageOf, Precedes, Backward, PageSize, HeldOnce, HeldThroughout, LookOK, SeenPools;
    var matched, page, size := Newest(looks[n].pool, f), looks[n].page, PageSize(looks[n].limit);
    var start := StartOf(kind, looks, f, n, got);
    SeenMatches(kind, looks, f, n);
    assert Backward(kind, got) by {
      EmptyBackward(kind);
    }
    PageAdds(kind, matched, start, size, got);
    PageEnds(matched, start, size);
    var now := got + page.entries;
    forall e | e in now ensures f(e) && HeldOnce(looks[..n + 1], e) {
      if e in page.entries {
        PageIsHeld(looks, f, n, e);
      } else {
        HeldOnceStays(looks, n, e);
      }
    }
    forall e | f(e) && HeldThroughout(looks[..n + 1], e) && e !in now
      ensures page.next != -1 && Precedes(kind, e, now[|now| - 1])
    {
      HeldBefore(looks, n, e);
      NewestMembers(looks[n].pool, f, e);
      PageLeaves(kind, matched, start, size, e);
    }
  }

  lemma EmptyBackward(kind: Kind)
    ensures Backward(kind, [])
  {
  }

  lemma GatheredStep(looks: seq<Look>, n: nat)
    requires n < |looks|
    ensures Gathered(looks[..n + 1]) == Gathered(looks[..n]) + looks[n].page.entries
  {
    assert looks[..n + 1][..n] == looks[..n];
  }

  lemma {:induction false} ReadingStands(kind: Kind, looks: seq<Look>, f: Filter, n: nat)
    requires Reading(kind, looks, f) && 0 < n <= |looks|
    ensures Stands(kind, looks[..n], f, Gathered(looks[..n]), looks[n - 1].page.next)
  {
    hide Reading, Stands;
    GatheredStep(looks, n - 1);
    if n > 1 {
      ReadingStands(kind, looks, f, n - 1);
    }
    StandsNext(kind, looks, f, n - 1, Gathered(looks[..n - 1]));
  }

  /** Main result. While the entry of the cursor is held, a reading of one log or of
      both returns nothing twice and only matches; and at its end it has returned every
      match that was held throughout, whatever came and went in between. */
  lemma ReadingIsComplete(kind: Kind, looks: seq<Look>, f: Filter)
    requires Reading(kind, looks, f) && looks != []
    ensures Backward(kind, Gathered(looks))
    ensures forall i, j :: 0 <= i < j < |Gathered(looks)| ==> Gathered(looks)[i] != Gathered(looks)[j]
    ensures forall e :: e in Gathered(looks) ==> f(e) && HeldOnce(looks, e)
    ensures looks[|looks| - 1].page.next == -1 ==>
              forall e :: f(e) && HeldThroughout(looks, e) ==> e in Gathered(looks)
  {
    hide Reading, Backward, HeldThroughout, HeldOnce, Gathered;
    ReadingStands(kind, looks, f, |looks|);
    assert looks[..|looks|] == looks;
    var got := Gathered(looks);
    forall i, j | 0 <= i < j < |got| ensures got[i] != got[j] {
      if got[i] == got[j] {
        BackwardDistinct(kind, got, i, j);
      }
    }
  }

  // ---- A client of the centre ----------------------------------------------

  /** What can happen while a client reads: an entry arrives, or the client asks for
      the next page. */
  datatype Event = Arrive(e: Entry) | Ask(limit: int)

  /** Every pool is in order and drawn from the logs. */
  ghost predicate Drawn(kind: Kind, looks: seq<Look>, system: seq<Entry>, access: seq<Entry>) {
    forall i :: 0 <= i < |looks| ==>
                  InOrder(kind, looks[i].pool) && forall x :: x in looks[i].pool ==> x in system || x in access
  }

  lemma DrawnLater(kind: Kind, looks: seq<Look>, s: seq<Entry>, a: seq<Entry>, system: seq<Entry>, access: seq<Entry>)
    requires Drawn(kind, looks, s, a) && s <= system && a <= access
    ensures Drawn(kind, looks, system, access)
  {
    hide InOrder;
    assert forall x :: x in s ==> x in system;
    assert forall x :: x in a ==> x in access;
  }

  lemma PoolIsDrawn(kind: Kind, looks: seq<Look>, look: Look, system: seq<Entry>, access: seq<Entry>, bound: int)
    requires Drawn(kind, looks, system, access) && Kept(system, access, bound)
    requires look.pool == PoolOf(kind, LastOf(system, MAX_ENTRIES), LastOf(access, MAX_ENTRIES))
    ensures Drawn(kind, looks + [look], system, access)
  {
    hide InOrder, Kept, PoolOf, LastOf;
    KeptEnds(system, access, bound, MAX_ENTRIES);
    PoolInOrder(kind, LastOf(system, MAX_ENTRIES), LastOf(access, MAX_ENTRIES), bound);
    forall x | x in look.pool ensures x in system || x in access {
      PoolMember(kind, LastOf(system, MAX_ENTRIES), LastOf(access, MAX_ENTRIES), x);
      if x in LastOf(system, MAX_ENTRIES) {
        LastOfMember(system, MAX_ENTRIES, x);
      } else {
        LastOfMember(access, MAX_ENTRIES, x);
      }
    }
  }

  lemma PoolMember(kind: Kind, system: seq<Entry>, access: seq<Entry>, x: Entry)
    requires x in PoolOf(kind, system, access)
    ensures x in system || x in access
  {
    if kind == BothLogs {
      SortedStably(system + access);
      assert x in multiset(SortedByTime(system + access));
    }
  }

  lemma DrawnIsSeen(kind: Kind, looks: seq<Look>, system: seq<Entry>, access: seq<Entry>, bound: int)
    requires Drawn(kind, looks, system, access) && Kept(system, access, bound)
    ensures SeenPools(kind, looks)
  {
    hide InOrder;
    forall x, y | (x in system || x in access) && (y in system || y in access) && x.seqNo == y.seqNo
      ensures x == y && x.seqNo > 0
    {
      OneEntryPerNumber(system, access, bound, x, y);
    }
    forall i, x | 0 <= i < |looks| && x in looks[i].pool ensures x.seqNo > 0 {
      OneEntryPerNumber(system, access, bound, x, x);
    }
  }

  lemma OneEntryPerNumber(system: seq<Entry>, access: seq<Entry>, bound: int, x: Entry, y: Entry)
    requires Kept(system, access, bound)
    requires (x in system || x in access) && (y in system || y in access) && x.seqNo == y.seqNo
    ensures x == y && x.seqNo > 0
  {
  }

  lemma AskedOn(looks: seq<Look>, f: Filter, look: Look)
    requires Asked(looks, f)
    requires var cursor := if looks == [] then 0 else looks[|looks| - 1].page.next;
             && look.page == Query(look.pool, f, cursor, look.limit)
             && (looks != [] ==> cursor != -1 && HeldIn(look.pool, cursor))
    ensures Asked(looks + [look], f)
  {
    hide Query;
    var now := looks + [look];
    forall i | 0 <= i < |now| ensures LookOK(now, f, i) {
      if i < |looks| {
        assert LookOK(looks, f, i);
      }
    }
  }

  lemma WalkedOn(visits: seq<Visit>, cap: nat, f: Filter, visit: Visit, bound: int)
    requires Walk(visits, cap, f) && Rising(visit.log, bound)
    requires var cursor := if visits == [] then 0 else visits[|visits| - 1].page.next;
             && visit.page == Query(LastOf(visit.log, cap), f, cursor, visit.limit)
             && (visits != [] ==> visits[|visits| - 1].log <= visit.log && cursor != -1 && Held(visit.log, cap, cursor))
    ensures Walk(visits + [visit], cap, f)
  {
    hide Query, LastOf, Held;
    var now := visits + [visit];
    assert Rising(visit.log, Top(visit.log));
    forall i | 0 <= i < |now| ensures VisitOK(now, cap, f, i) {
      if i < |visits| {
        assert VisitOK(visits, cap, f, i);
      }
    }
  }

  function OneLog(kind: Kind, system: seq<Entry>, access: seq<Entry>): seq<Entry> {
    if kind == AccessOnly then access else system
  }

  /** What the pages of a client amount to: questions with the right cursors to pools
      drawn from the logs, and for a single log a walk through it. */
  ghost predicate Follows(kind: Kind, f: Filter, looks: seq<Look>, visits: seq<Visit>, system: seq<Entry>,
                          access: seq<Entry>)
  {
    && Drawn(kind, looks, system, access) && Asked(looks, f)
    && |visits| == |looks| && (forall i :: 0 <= i < |looks| ==> visits[i].page == looks[i].page)
    && (kind != BothLogs ==>
          && Walk(visits, MAX_ENTRIES, f)
          && (visits != [] ==> visits[|visits| - 1].log <= OneLog(kind, system, access)))
  }

  lemma FollowsNothing(kind: Kind, f: Filter, system: seq<Entry>, access: seq<Entry>)
    ensures Follows(kind, f, [], [], system, access)
  {
  }

  lemma FollowsLater(kind: Kind, f: Filter, looks: seq<Look>, visits: seq<Visit>, s: seq<Entry>, a: seq<Entry>,
                     system: seq<Entry>, access: seq<Entry>)
    requires Follows(kind, f, looks, visits, s, a) && s <= system && a <= access
    ensures Follows(kind, f, looks, visits, system, access)
  {
    hide Drawn, Asked, Walk;
    DrawnLater(kind, looks, s, a, system, access);
  }

  lemma HeldMeans(kind: Kind, system: seq<Entry>, access: seq<Entry>, cursor: int)
    requires kind != BothLogs
    ensures HeldIn(PoolOf(kind, LastOf(system, MAX_ENTRIES), LastOf(access, MAX_ENTRIES)), cursor)
            <==> Held(OneLog(kind, system, access), MAX_ENTRIES, cursor)
  {
  }

  /** The next page, with the cursor's entry still held or from the beginning. */
  lemma FollowsOn(kind: Kind, f: Filter, looks: seq<Look>, visits: seq<Visit>, system: seq<Entry>, access: seq<Entry>,
                  bound: int, look: Look)
    requires Follows(kind, f, looks, visits, system, access) && Kept(system, access, bound)
    requires look.pool == PoolOf(kind, LastOf(system, MAX_ENTRIES), LastOf(access, MAX_ENTRIES))
    requires var cursor := if looks == [] then 0 else looks[|looks| - 1].page.next;
             && look.page == Query(look.pool, f, cursor, look.limit)
             && (looks != [] ==> cursor != -1 && HeldIn(look.pool, cursor))
    ensures Follows(kind, f, looks + [look], visits + [Visit(OneLog(kind, system, access), look.limit, look.page)],
                    system, access)
  {
    hide Drawn, Asked, Walk, Query, HeldIn, Held, LastOf, Rising;
    PoolIsDrawn(kind, looks, look, system, access, bound);
    AskedOn(looks, f, look);
    var log := OneLog(kind, system, access);
    if kind != BothLogs {
      if looks != [] {
        HeldMeans(kind, system, access, looks[|looks| - 1].page.next);
      }
      WalkedOn(visits, MAX_ENTRIES, f, Visit(log, look.limit, look.page), bound);
    }
  }

  /** The client's request for the page behind its cursor. */
  method AskNext(c: Center, kind: Kind, f: Filter, cursor: int, limit: int, ghost looks: seq<Look>,
                 ghost visits: seq<Visit>)
    returns (page: Page, ghost nowLooks: seq<Look>, ghost nowVisits: seq<Visit>)
    requires c.Valid() && Follows(kind, f, looks, visits, c.systemLog, c.accessLog)
    requires cursor == (if looks == [] then 0 else looks[|looks| - 1].page.next) && cursor != -1
    ensures Follows(kind, f, nowLooks, nowVisits, c.systemLog, c.accessLog)
    ensures page == Query(c.Pool(kind), f, cursor, limit)
    ensures nowLooks == (if looks == [] || HeldIn(c.Pool(kind), cursor) then looks else [])
                        + [Look(c.Pool(kind), limit, page)]
  {
    hide Follows, Query, HeldIn, Kept, PoolOf, LastOf;
    page := c.Find(kind, f, cursor, limit);
    ghost var look := Look(c.Pool(kind), limit, page);
    ghost var visit := Visit(OneLog(kind, c.systemLog, c.accessLog), limit, page);
    if looks == [] || HeldIn(look.pool, cursor) {
      FollowsOn(kind, f, looks, visits, c.systemLog, c.accessLog, c.nextSeq, look);
      nowLooks, nowVisits := looks + [look], visits + [visit];
    } else {
      LostIsGone(look.pool, cursor);
      LostCursorStartsOver(look.pool, f, cursor, limit);
      FollowsNothing(kind, f, c.systemLog, c.accessLog);
      FollowsOn(kind, f, [], [], c.systemLog, c.accessLog, c.nextSeq, look);
      nowLooks, nowVisits := [] + [look], [] + [visit];
    }
  }

  lemma LostIsGone(pool: seq<Entry>, cursor: int)
    requires !HeldIn(pool, cursor)
    ensures forall i :: 0 <= i < |pool| ==> pool[i].seqNo != cursor
  {
    forall i | 0 <= i < |pool| ensures pool[i].seqNo != cursor {
      assert pool[i] in pool;
    }
  }

  /** All looks of a client: each page is the answer to the cursor of the page before. */
  ghost predicate Answers(looks: seq<Look>, f: Filter) {
    forall i :: 0 <= i < |looks| ==> looks[i].page == Query(looks[i].pool, f, CursorAt(looks, i), looks[i].limit)
  }

  /** Look i had a cursor whose entry was gone. */
  ghost predicate Lost(looks: seq<Look>, i: nat)
    requires i < |looks|
  {
    i > 0 && !HeldIn(looks[i].pool, CursorAt(looks, i))
  }

  /** The client started over with look `from`, and not since. */
  ghost predicate Since(looks: seq<Look>, from: nat) {
    && (if looks == [] then from == 0 else from < |looks|)
    && (from > 0 ==> Lost(looks, from))
    && forall i :: from < i < |looks| ==> !Lost(looks, i)
  }

  /** The look went to the last two thousand entries that the logs had at some time. */
  ghost predicate AtSomeTime(kind: Kind, look: Look, system: seq<Entry>, access: seq<Entry>) {
    exists s, a :: SawEnds(kind, look, s, a) && s <= system && a <= access
  }

  ghost predicate SawEnds(kind: Kind, look: Look, system: seq<Entry>, access: seq<Entry>) {
    look.pool == PoolOf(kind, LastOf(system, 2000), LastOf(access, 2000))
  }

  ghost predicate AllAtSomeTime(kind: Kind, looks: seq<Look>, system: seq<Entry>, access: seq<Entry>) {
    forall i :: 0 <= i < |looks| ==> AtSomeTime(kind, looks[i], system, access)
  }

  lemma AtSomeTimeLater(kind: Kind, looks: seq<Look>, s: seq<Entry>, a: seq<Entry>, system: seq<Entry>,
                        access: seq<Entry>)
    requires AllAtSomeTime(kind, looks, s, a) && s <= system && a <= access
    ensures AllAtSomeTime(kind, looks, system, access)
  {
    hide SawEnds;
    forall i | 0 <= i < |looks| ensures AtSomeTime(kind, looks[i], system, access) {
      assert AtSomeTime(kind, looks[i], s, a);
    }
  }

  lemma AtThisTime(kind: Kind, looks: seq<Look>, look: Look, system: seq<Entry>, access: seq<Entry>)
    requires AllAtSomeTime(kind, looks, system, access)
    requires look.pool == PoolOf(kind, LastOf(system, MAX_ENTRIES), LastOf(access, MAX_ENTRIES))
    ensures AllAtSomeTime(kind, looks + [look], system, access)
  {
    assert SawEnds(kind, look, system, access);
    assert AtSomeTime(kind, look, system, access);
  }

  lemma CursorStays(all: seq<Look>, look: Look)
    ensures forall i :: 0 <= i <= |all| ==> CursorAt(all + [look], i) == if i == 0 then 0 else all[i - 1].page.next
    ensures forall i :: 0 <= i < |all| ==> Lost(all + [look], i) == Lost(all, i)
    ensures Lost(all + [look], |all|) == (all != [] && !HeldIn(look.pool, all[|all| - 1].page.next))
  {
    hide HeldIn;
  }

  lemma AnswersNext(all: seq<Look>, look: Look, f: Filter)
    requires Answers(all, f)
    requires look.page == Query(look.pool, f, if all == [] then 0 else all[|all| - 1].page.next, look.limit)
    ensures Answers(all + [look], f)
  {
    hide Query;
  }

  lemma SinceNext(all: seq<Look>, from: nat, look: Look) returns (now: nat)
    requires Since(all, from)
    ensures Since(all + [look], now) && now <= |all| && from <= |all|
    ensures (all + [look])[now..]
            == (if all[from..] == [] || HeldIn(look.pool, all[|all| - 1].page.next) then all[from..] else []) + [look]
  {
    hide HeldIn, Lost;
    CursorStays(all, look);
    now := if all == [] || HeldIn(look.pool, all[|all| - 1].page.next) then from else |all|;
    assert (all + [look])[now..] == all[now..] + [look];
  }

  /** Where a client stands: `all` are its looks, one for each page, and those since it
      last started over follow the cursors. */
  ghost predicate Stood(kind: Kind, f: Filter, pages: seq<Page>, all: seq<Look>, from: nat, visits: seq<Visit>,
                        system: seq<Entry>, access: seq<Entry>)
  {
    && Since(all, from) && Answers(all, f) && Drawn(kind, all, system, access)
    && AllAtSomeTime(kind, all, system, access)
    && Follows(kind, f, all[from..], visits, system, access)
    && |all| == |pages| && forall i :: 0 <= i < |pages| ==> all[i].page == pages[i]
  }

  function CursorOf(pages: seq<Page>): int {
    if pages == [] then 0 else pages[|pages| - 1].next
  }

  lemma StoodNothing(kind: Kind, f: Filter, system: seq<Entry>, access: seq<Entry>)
    ensures Stood(kind, f, [], [], 0, [], system, access)
  {
    FollowsNothing(kind, f, system, access);
  }

  lemma StoodLater(kind: Kind, f: Filter, pages: seq<Page>, all: seq<Look>, from: nat, visits: seq<Visit>,
                   s: seq<Entry>, a: seq<Entry>, system: seq<Entry>, access: seq<Entry>)
    requires Stood(kind, f, pages, all, from, visits, s, a) && s <= system && a <= access
    ensures Stood(kind, f, pages, all, from, visits, system, access)
  {
    hide Answers, Drawn, Follows, Lost, AllAtSomeTime;
    FollowsLater(kind, f, all[from..], visits, s, a, system, access);
    DrawnLater(kind, all, s, a, system, access);
    AtSomeTimeLater(kind, all, s, a, system, access);
  }

  lemma SameCursor(kind: Kind, f: Filter, pages: seq<Page>, all: seq<Look>, from: nat, visits: seq<Visit>,
                   system: seq<Entry>, access: seq<Entry>)
    requires Stood(kind, f, pages, all, from, visits, system, access)
    ensures CursorOf(pages) == if all == [] then 0 else all[|all| - 1].page.next
    ensures from <= |all| && Follows(kind, f, all[from..], visits, system, access)
    ensures CursorOf(pages) == if all[from..] == [] then 0 else all[from..][|all[from..]| - 1].page.next
  {
    hide Answers, Drawn, Follows, AllAtSomeTime;
  }

  lemma StoodOn(kind: Kind, f: Filter, pages: seq<Page>, all: seq<Look>, from: nat, visits: seq<Visit>,
                system: seq<Entry>, access: seq<Entry>, bound: int, look: Look, looks: seq<Look>, nowVisits: seq<Visit>)
    returns (now: nat)
    requires Stood(kind, f, pages, all, from, visits, system, access) && Kept(system, access, bound)
    requires look.pool == PoolOf(kind, LastOf(system, MAX_ENTRIES), LastOf(access, MAX_ENTRIES))
    requires look.page == Query(look.pool, f, CursorOf(pages), look.limit)
    requires looks == (if all[from..] == [] || HeldIn(look.pool, CursorOf(pages)) then all[from..] else []) + [look]
    requires Follows(kind, f, looks, nowVisits, system, access)
    ensures Stood(kind, f, pages + [look.page], all + [look], now, nowVisits, system, access)
  {
    hide Since, Answers, Drawn, Follows, Kept, PoolOf, LastOf, Query, HeldIn, AllAtSomeTime;
    SameCursor(kind, f, pages, all, from, visits, system, access);
    now := SinceNext(all, from, look);
    AnswersNext(all, look, f);
    PoolIsDrawn(kind, all, look, system, access, bound);
    AtThisTime(kind, all, look, system, access);
  }

  lemma StoodMeans(kind: Kind, f: Filter, pages: seq<Page>, all: seq<Look>, from: nat, visits: seq<Visit>,
                   system: seq<Entry>, access: seq<Entry>, bound: int)
    requires Stood(kind, f, pages, all, from, visits, system, access) && Kept(system, access, bound)
    ensures SeenPools(kind, all) && Answers(all, f) && Since(all, from) && Reading(kind, all[from..], f)
    ensures AllAtSomeTime(kind, all, system, access)
    ensures (forall i :: 0 <= i < |all| ==> !Lost(all, i)) <==> from == 0
    ensures |all| == |pages| && forall i :: 0 <= i < |pages| ==> all[i].page == pages[i]
    ensures kind != BothLogs ==> Walk(visits, MAX_ENTRIES, f)
    ensures |visits| == |pages| - from && forall i :: 0 <= i < |visits| ==> visits[i].page == pages[from + i]
  {
    hide Answers, Drawn, Asked, Walk, Kept, SeenPools, AllAtSomeTime;
    DrawnIsSeen(kind, all, system, access, bound);
    DrawnIsSeen(kind, all[from..], system, access, bound);
    assert from > 0 ==> Lost(all, from);
  }

  /** A client that follows the cursors to the end while entries arrive in any order.
      `all` are its looks, one for each page, each at the ends of the logs. It starts over exactly when the entry of
      its cursor is gone, so never if that does not happen; since the last time its
      looks form a reading, and those at a single log a walk. */
  method Browse(c: Center, kind: Kind, f: Filter, events: seq<Event>)
    returns (pages: seq<Page>, ghost all: seq<Look>, ghost from: nat, ghost visits: seq<Visit>)
    requires c.Valid()
    modifies c, c.system, c.access
    ensures c.Valid() && SeenPools(kind, all) && Answers(all, f)
    ensures AllAtSomeTime(kind, all, c.systemLog, c.accessLog)
    ensures |all| == |pages| && forall i :: 0 <= i < |pages| ==> all[i].page == pages[i]
    ensures Since(all, from) && Reading(kind, all[from..], f)
    ensures (forall i :: 0 <= i < |all| ==> !Lost(all, i)) <==> from == 0
    ensures kind != BothLogs ==> Walk(visits, MAX_ENTRIES, f)
    ensures |visits| == |pages| - from && forall i :: 0 <= i < |visits| ==> visits[i].page == pages[from + i]
  {
    hide Kept, Stood, Follows, Query, HeldIn, PoolOf, LastOf, Since, Answers, Reading, Walk, SeenPools;
    hide AllAtSomeTime;
    pages, all, from, visits := [], [], 0, [];
    StoodNothing(kind, f, c.systemLog, c.accessLog);
    for n := 0 to |events|
      invariant c.Valid() && Stood(kind, f, pages, all, from, visits, c.systemLog, c.accessLog)
    {
      match events[n] {
        case Arrive(e) =>
          ghost var s, a := c.systemLog, c.accessLog;
          c.Add(e);
          StoodLater(kind, f, pages, all, from, visits, s, a, c.systemLog, c.accessLog);
        case Ask(limit) =>
          var cursor := CursorOf(pages);
          if cursor != -1 {
            var page;
            ghost var looks, nowVisits;
            SameCursor(kind, f, pages, all, from, visits, c.systemLog, c.accessLog);
            page, looks, nowVisits := AskNext(c, kind, f, cursor, limit, all[from..], visits);
            ghost var look := Look(c.Pool(kind), limit, page);
            from := StoodOn(kind, f, pages, all, from, visits, c.systemLog, c.accessLog, c.nextSeq, look, looks,
                            nowVisits);
            all, visits, pages := all + [look], nowVisits, pages + [page];
          }
      }
    }
    StoodMeans(kind, f, pages, all, from, visits, c.systemLog, c.accessLog, c.nextSeq);
  }
}
