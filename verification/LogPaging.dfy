/** Paging through one log by cursor, while entries arrive and old ones are evicted. */
module LogPaging {
  import opened LogEntries

  // ---- Filtering newest first ----------------------------------------------

  lemma {:induction false} NewestConcat(a: seq<Entry>, b: seq<Entry>, f: Filter)
    ensures Newest(a + b, f) == Newest(b, f) + Newest(a, f)
  {
    if b == [] {
      assert a + b == a;
      assert [] + Newest(a, f) == Newest(a, f);
    } else {
      var n := |b| - 1;
      assert (a + b)[..|a + b| - 1] == a + b[..n];
      NewestConcat(a, b[..n], f);
      var last := if f(b[n]) then [b[n]] else [];
      assert last + (Newest(b[..n], f) + Newest(a, f)) == (last + Newest(b[..n], f)) + Newest(a, f);
    }
  }

  lemma {:induction false} NewestFrom(pool: seq<Entry>, f: Filter, k: nat)
    requires k < |Newest(pool, f)|
    ensures Newest(pool, f)[k] in pool && f(Newest(pool, f)[k])
  {
    var n := |pool| - 1;
    var last := if f(pool[n]) then [pool[n]] else [];
    if k >= |last| {
      NewestFrom(pool[..n], f, k - |last|);
    }
  }

  /** Filtered newest first, the numbers fall. */
  lemma {:induction false} NewestFalls(pool: seq<Entry>, f: Filter, bound: int)
    requires Rising(pool, bound)
    ensures forall i, j :: 0 <= i < j < |Newest(pool, f)| ==> Newest(pool, f)[i].seqNo > Newest(pool, f)[j].seqNo
    ensures forall i :: 0 <= i < |Newest(pool, f)| ==> 0 < Newest(pool, f)[i].seqNo <= bound
  {
    if pool != [] {
      var n := |pool| - 1;
      NewestFalls(pool[..n], f, bound);
      forall k | 0 <= k < |Newest(pool[..n], f)| ensures Newest(pool[..n], f)[k].seqNo < pool[n].seqNo {
        NewestFrom(pool[..n], f, k);
      }
    }
  }

  ghost predicate Falling(s: seq<Entry>) {
    forall i, j :: 0 <= i < j < |s| ==> s[i].seqNo > s[j].seqNo
  }

  /** The cursor is found where its entry is. */
  lemma {:induction false} AfterFinds(s: seq<Entry>, k: nat)
    requires k < |s| && forall i :: 0 <= i < |s| && s[i].seqNo == s[k].seqNo ==> i == k
    ensures After(s, s[k].seqNo) == k + 1
  {
    var n := |s| - 1;
    if k < n {
      AfterFinds(s[..n], k);
    } else {
      AfterMisses(s[..n], s[n].seqNo);
    }
  }

  lemma FallingDistinct(s: seq<Entry>, k: nat)
    requires Falling(s) && k < |s|
    ensures forall i :: 0 <= i < |s| && s[i].seqNo == s[k].seqNo ==> i == k
  {
  }

  lemma {:induction false} AfterMisses(s: seq<Entry>, cursor: int)
    requires forall i :: 0 <= i < |s| ==> s[i].seqNo != cursor
    ensures After(s, cursor) == 0
  {
    if s != [] {
      AfterMisses(s[..|s| - 1], cursor);
    }
  }

  // ---- A walk through the pages --------------------------------------------

  /** The log at one request, the page it got and the number that came with it. */
  datatype Visit = Visit(log: seq<Entry>, limit: int, page: Page)

  ghost predicate Held(log: seq<Entry>, cap: nat, cursor: int) {
    exists e :: e in LastOf(log, cap) && e.seqNo == cursor
  }

  /** Pages are asked for one after the other with the number from the page before,
      whose entry is still held; entries are only added in between. */
  ghost predicate Walk(visits: seq<Visit>, cap: nat, f: Filter) {
    forall i :: 0 <= i < |visits| ==> VisitOK(visits, cap, f, i)
  }

  ghost predicate VisitOK(visits: seq<Visit>, cap: nat, f: Filter, i: nat)
    requires i < |visits|
  {
    && Rising(visits[i].log, Top(visits[i].log))
    && visits[i].page == Query(LastOf(visits[i].log, cap), f, CursorOf(visits, i), visits[i].limit)
    && (i > 0 ==>
          && visits[i - 1].log <= visits[i].log && visits[i - 1].page.next != -1
          && Held(visits[i].log, cap, CursorOf(visits, i)))
  }

  function Top(log: seq<Entry>): int {
    if log == [] then 0 else log[|log| - 1].seqNo
  }

  function CursorOf(visits: seq<Visit>, i: nat): int
    requires i < |visits|
  {
    if i == 0 then 0 else visits[i - 1].page.next
  }

  function Collected(visits: seq<Visit>): seq<Entry> {
    if visits == [] then [] else Collected(visits[..|visits| - 1]) + visits[|visits| - 1].page.entries
  }

  /** The entries of a first log that a later one still holds. */
  function StillHeld(first: seq<Entry>, later: seq<Entry>, cap: nat): seq<Entry>
    requires |first| <= |later|
  {
    var dropped := |later| - |LastOf(later, cap)|;
    if dropped <= |first| then first[dropped..] else []
  }

  /** The matching entries of a later log are the new ones and then the ones of the
      first log that are still held, which are the first of those held at first. */
  lemma LaterMatches(first: seq<Entry>, later: seq<Entry>, cap: nat, f: Filter) returns (added: seq<Entry>)
    requires first <= later && Rising(later, Top(later))
    ensures var held := Newest(StillHeld(first, later, cap), f);
            held <= Newest(LastOf(first, cap), f) && Newest(LastOf(later, cap), f) == added + held
    ensures forall i :: 0 <= i < |added| ==> added[i].seqNo > Top(first)
  {
    hide Newest, LastOf, StillHeld, Rising;
    var held := StillHeld(first, later, cap);
    var evicted, extra := PoolsSplit(first, later, cap);
    NewestConcat(held, extra, f);
    NewestConcat(evicted, held, f);
    NewestAbove(extra, f, Top(first));
    added := Newest(extra, f);
  }

  /** A later pool is what is still held and the new entries; the first pool is what
      has been evicted since and what is still held. */
  lemma PoolsSplit(first: seq<Entry>, later: seq<Entry>, cap: nat) returns (evicted: seq<Entry>, extra: seq<Entry>)
    requires first <= later && Rising(later, Top(later))
    ensures LastOf(first, cap) == evicted + StillHeld(first, later, cap)
    ensures LastOf(later, cap) == StillHeld(first, later, cap) + extra
    ensures forall i :: 0 <= i < |extra| ==> extra[i].seqNo > Top(first)
  {
    hide Rising, LastOf, Top;
    var n, m := |first|, |later|;
    var d, d0 := m - |LastOf(later, cap)|, n - |LastOf(first, cap)|;
    SuffixOf(later, cap);
    SuffixOf(first, cap);
    var cut := if d <= n then n else d;
    evicted, extra := first[d0..if d <= n then d else n], later[cut..];
    if d <= n {
      SplitOnce(first, d0, d);
      PrefixGoesOn(first, later, d);
    }
    LaterAbove(first, later, cut);
  }

  lemma SplitOnce(s: seq<Entry>, i: nat, j: nat)
    requires i <= j <= |s|
    ensures s[i..] == s[i..j] + s[j..]
  {
  }

  lemma PrefixGoesOn(first: seq<Entry>, later: seq<Entry>, d: nat)
    requires first <= later && d <= |first|
    ensures later[d..] == first[d..] + later[|first|..]
  {
    SplitOnce(later, d, |first|);
    assert later[d..|first|] == first[d..];
  }

  lemma SuffixOf(log: seq<Entry>, cap: nat)
    ensures var d := |log| - |LastOf(log, cap)|;
            d == (if |log| > cap then |log| - cap else 0) && LastOf(log, cap) == log[d..]
  {
  }

  lemma LaterAbove(first: seq<Entry>, later: seq<Entry>, cut: nat)
    requires first <= later && Rising(later, Top(later)) && |first| <= cut <= |later|
    ensures forall i :: 0 <= i < |later[cut..]| ==> later[cut..][i].seqNo > Top(first)
  {
    if first != [] {
      assert Top(first) == later[|first| - 1].seqNo;
    }
  }

  lemma NewestAbove(pool: seq<Entry>, f: Filter, floor: int)
    requires forall i :: 0 <= i < |pool| ==> pool[i].seqNo > floor
    ensures forall i :: 0 <= i < |Newest(pool, f)| ==> Newest(pool, f)[i].seqNo > floor
  {
    forall i | 0 <= i < |Newest(pool, f)| ensures Newest(pool, f)[i].seqNo > floor {
      NewestFrom(pool, f, i);
    }
  }

  // ---- No gaps and no repeats ----------------------------------------------

  /** Where the walk stands: the first n matches of the first log have been returned,
      and the number of the last one is the next cursor. */
  ghost predicate Reached(matches: seq<Entry>, collected: seq<Entry>, next: int) {
    && collected <= matches
    && (next != -1 ==> collected != [] && next == collected[|collected| - 1].seqNo)
  }

  ghost predicate Above(added: seq<Entry>, matches: seq<Entry>) {
    forall i, j :: 0 <= i < |added| && 0 <= j < |matches| ==> added[i].seqNo > matches[j].seqNo
  }

  /** The entry of the cursor is the last one returned, wherever it is now. */
  lemma CursorIndex(matches: seq<Entry>, held: seq<Entry>, added: seq<Entry>, n: nat, k: nat)
    requires held <= matches && Falling(matches) && Above(added, matches)
    requires 0 < n <= |matches| && k < |added| + |held| && (added + held)[k].seqNo == matches[n - 1].seqNo
    ensures k == |added| + n - 1 && n <= |held|
  {
    if k >= |added| {
      assert (added + held)[k] == matches[k - |added|];
    }
  }

  lemma SliceBehind(added: seq<Entry>, held: seq<Entry>, from: nat, to: nat)
    requires from <= to <= |held|
    ensures (added + held)[|added| + from..|added| + to] == held[from..to]
  {
    var a, b := (added + held)[|added| + from..|added| + to], held[from..to];
    assert |a| == |b|;
    forall i | 0 <= i < |a| ensures a[i] == b[i] {
      assert a[i] == (added + held)[|added| + from + i];
    }
  }

  /** The page from position n on of what is still held. */
  lemma PageCut(held: seq<Entry>, added: seq<Entry>, n: nat, limit: nat)
    requires n <= |held| && limit > 0 && forall i :: 0 <= i < |held| ==> held[i].seqNo > 0
    ensures var page := PageOf(added + held, |added| + n, limit);
            && held[..n] + page.entries <= held
            && (page.next != -1 ==> page.entries != [] && page.next == page.entries[|page.entries| - 1].seqNo)
            && (page.next == -1 ==> held[..n] + page.entries == held)
  {
    var all, start := added + held, |added| + n;
    if start < |all| {
      var end := if start + limit < |all| then start + limit else |all|;
      SliceBehind(added, held, n, end - |added|);
      assert held[..n] + held[n..end - |added|] == held[..end - |added|];
      if start + limit < |all| {
        assert all[end - 1] == held[end - 1 - |added|];
      }
    }
  }

  /** A page with the number of the last entry returned goes on right after it. */
  lemma PageGoesOn(matches: seq<Entry>, held: seq<Entry>, added: seq<Entry>, n: nat, cursor: int, limit: nat)
    requires held <= matches && Falling(matches) && Above(added, matches) && Falling(added + held)
    requires 0 < n <= |matches| && cursor == matches[n - 1].seqNo && limit > 0
    requires exists e :: e in added + held && e.seqNo == cursor
    requires forall i :: 0 <= i < |held| ==> held[i].seqNo > 0
    ensures n <= |held| && After(added + held, cursor) == |added| + n
    ensures var page := PageOf(added + held, |added| + n, limit);
            && Reached(matches, matches[..n] + page.entries, page.next)
            && (page.next == -1 ==> matches[..n] + page.entries == held)
  {
    hide After, PageOf, Falling, Above;
    var e :| e in added + held && e.seqNo == cursor;
    var k :| 0 <= k < |added + held| && (added + held)[k] == e;
    CursorIndex(matches, held, added, n, k);
    FallingDistinct(added + held, k);
    AfterFinds(added + held, k);
    PageCut(held, added, n, limit);
    assert matches[..n] == held[..n];
    var page := PageOf(added + held, |added| + n, limit);
    var all := matches[..n] + page.entries;
    assert page.entries != [] ==> all[|all| - 1] == page.entries[|page.entries| - 1];
  }

  lemma MatchesFall(log: seq<Entry>, cap: nat, f: Filter)
    requires Rising(log, Top(log))
    ensures Falling(Newest(LastOf(log, cap), f))
    ensures forall i :: 0 <= i < |Newest(LastOf(log, cap), f)| ==> 0 < Newest(LastOf(log, cap), f)[i].seqNo <= Top(log)
  {
    NewestFalls(LastOf(log, cap), f, Top(log));
  }

  /** The first page starts with the newest match. */
  lemma FirstPage(log: seq<Entry>, cap: nat, f: Filter, limit: int)
    requires Rising(log, Top(log))
    ensures var matches, page := Newest(LastOf(log, cap), f), Query(LastOf(log, cap), f, 0, limit);
            && Reached(matches, page.entries, page.next)
            && (page.next == -1 ==> page.entries == Newest(StillHeld(log, log, cap), f))
  {
    hide Newest, PageOf, Falling;
    var matches := Newest(LastOf(log, cap), f);
    MatchesFall(log, cap, f);
    PageCut(matches, [], 0, PageSize(limit));
    assert [] + matches == matches;
    var page := PageOf(matches, 0, PageSize(limit));
    assert matches[..0] + page.entries == page.entries;
    SuffixOf(log, cap);
  }

  /** A later page takes the walk on. */
  lemma NextPage(first: seq<Entry>, later: seq<Entry>, cap: nat, f: Filter, collected: seq<Entry>, cursor: int,
                 limit: int)
    requires first <= later && Rising(first, Top(first)) && Rising(later, Top(later))
    requires Reached(Newest(LastOf(first, cap), f), collected, cursor) && cursor != -1 && Held(later, cap, cursor)
    ensures var matches, page := Newest(LastOf(first, cap), f), Query(LastOf(later, cap), f, cursor, limit);
            && Reached(matches, collected + page.entries, page.next)
            && (page.next == -1 ==> collected + page.entries == Newest(StillHeld(first, later, cap), f))
  {
    hide Newest, PageOf, Falling, After, Rising, LastOf, StillHeld, Top;
    var matches, held := Newest(LastOf(first, cap), f), Newest(StillHeld(first, later, cap), f);
    var n := |collected|;
    MatchesFall(first, cap, f);
    MatchesFall(later, cap, f);
    var added := LaterMatches(first, later, cap, f);
    assert matches[n - 1] == collected[n - 1] && matches[..n] == collected;
    HeldMatches(first, later, cap, f, matches[n - 1]);
    PageGoesOn(matches, held, added, n, cursor, PageSize(limit));
  }

  /** The entry of a cursor that is still held matches in the later log as well. */
  lemma HeldMatches(first: seq<Entry>, later: seq<Entry>, cap: nat, f: Filter, e: Entry)
    requires first <= later && Rising(later, Top(later))
    requires e in Newest(LastOf(first, cap), f) && Held(later, cap, e.seqNo)
    ensures e in Newest(LastOf(later, cap), f)
  {
    hide Newest, Rising, LastOf;
    var k :| 0 <= k < |Newest(LastOf(first, cap), f)| && Newest(LastOf(first, cap), f)[k] == e;
    NewestFrom(LastOf(first, cap), f, k);
    var x :| x in LastOf(later, cap) && x.seqNo == e.seqNo;
    LastOfMember(first, cap, e);
    LastOfMember(later, cap, x);
    SameNumberSameEntry(later, e, x);
    NewestHas(LastOf(later, cap), f, e);
  }

  lemma SameNumberSameEntry(log: seq<Entry>, a: Entry, b: Entry)
    requires Rising(log, Top(log)) && a in log && b in log && a.seqNo == b.seqNo
    ensures a == b
  {
  }

  lemma {:induction false} NewestHas(pool: seq<Entry>, f: Filter, e: Entry)
    requires e in pool && f(e)
    ensures e in Newest(pool, f)
  {
    var n := |pool| - 1;
    if e != pool[n] {
      NewestHas(pool[..n], f, e);
    }
  }

  lemma {:induction false} WalkReached(visits: seq<Visit>, cap: nat, f: Filter, n: nat)
    requires Walk(visits, cap, f) && 0 < n <= |visits|
    ensures visits[0].log <= visits[n - 1].log
    ensures var matches, collected := Newest(LastOf(visits[0].log, cap), f), Collected(visits[..n]);
            && Reached(matches, collected, visits[n - 1].page.next)
            && (visits[n - 1].page.next == -1 ==>
                  collected == Newest(StillHeld(visits[0].log, visits[n - 1].log, cap), f))
  {
    hide Newest, Query, LastOf, StillHeld, Reached, Rising, Held;
    assert VisitOK(visits, cap, f, n - 1) && VisitOK(visits, cap, f, 0);
    CollectedStep(visits, n - 1);
    if n == 1 {
      FirstPage(visits[0].log, cap, f, visits[0].limit);
      assert visits[..0] == [];
      assert Collected([]) + visits[0].page.entries == visits[0].page.entries;
    } else {
      WalkReached(visits, cap, f, n - 1);
      NextPage(visits[0].log, visits[n - 1].log, cap, f, Collected(visits[..n - 1]), CursorOf(visits, n - 1),
               visits[n - 1].limit);
    }
  }

  lemma CollectedStep(visits: seq<Visit>, n: nat)
    requires n < |visits|
    ensures Collected(visits[..n + 1]) == Collected(visits[..n]) + visits[n].page.entries
  {
    assert visits[..n + 1][..n] == visits[..n];
  }

  /** Main result. While the entry of the cursor is held, the pages of a walk are, put
      together, the first matches of the log as it was at the first page, without a
      gap or a repeat; once there is no next page they are all of them that the log
      still holds. */
  lemma PagesHaveNoGapsOrRepeats(visits: seq<Visit>, cap: nat, f: Filter)
    requires Walk(visits, cap, f) && visits != []
    ensures var matches, last := Newest(LastOf(visits[0].log, cap), f), visits[|visits| - 1];
            && Collected(visits) <= matches && Falling(Collected(visits))
            && visits[0].log <= last.log
            && (last.page.next == -1 ==> Collected(visits) == Newest(StillHeld(visits[0].log, last.log, cap), f))
  {
    hide Newest, Query, LastOf, StillHeld, Rising, Held, Collected, Falling;
    assert VisitOK(visits, cap, f, 0);
    WalkReached(visits, cap, f, |visits|);
    assert visits[..|visits|] == visits;
    MatchesFall(visits[0].log, cap, f);
    PrefixFalls(Newest(LastOf(visits[0].log, cap), f), Collected(visits));
  }

  lemma PrefixFalls(s: seq<Entry>, p: seq<Entry>)
    requires Falling(s) && p <= s
    ensures Falling(p)
  {
  }

  /** A cursor whose entry is gone starts the walk over: repeats rather than gaps. */
  lemma LostCursorStartsOver(pool: seq<Entry>, f: Filter, cursor: int, limit: int)
    requires forall i :: 0 <= i < |pool| ==> pool[i].seqNo != cursor
    ensures Query(pool, f, cursor, limit) == Query(pool, f, 0, limit)
  {
    var matched := Newest(pool, f);
    forall i | 0 <= i < |matched| ensures matched[i].seqNo != cursor {
      NewestFrom(pool, f, i);
    }
    AfterMisses(matched, cursor);
  }
}
