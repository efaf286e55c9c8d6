/** Recent log entries in memory (internal/logcenter/logcenter.go): a ring buffer per
    log, and the centre that adds entries and answers queries. */
module LogRing {
  import opened LogEntries

  /** A ring of entries, read from the oldest to the newest. */
  function Unrolled(buf: seq<Entry>, start: nat): seq<Entry> {
    if start <= |buf| then buf[start..] + buf[..start] else []
  }

  lemma UnrolledAt(front: seq<Entry>, back: seq<Entry>)
    ensures Unrolled(front + back, |front|) == back + front
    ensures Unrolled(front + back, 0) == front + back
  {
    assert (front + back)[|front|..] == back && (front + back)[..|front|] == front;
  }

  /** Overwriting the oldest entry of a full ring drops it and adds the new one at the
      end. */
  lemma Overwritten(buf: seq<Entry>, start: nat, e: Entry)
    requires start < |buf|
    ensures Unrolled(buf[start := e], if start + 1 == |buf| then 0 else start + 1)
            == Unrolled(buf, start)[1..] + [e]
  {
    hide Unrolled;
    var front, back := buf[..start], buf[start + 1..];
    assert buf == front + ([buf[start]] + back);
    UnrolledAt(front, [buf[start]] + back);
    assert ([buf[start]] + back + front)[1..] == back + front;
    assert buf[start := e] == (front + [e]) + back;
    UnrolledAt(front + [e], back);
    assert back + (front + [e]) == back + front + [e];
  }

  class EntryRing {
    var buf: seq<Entry>
    var start: nat // index of the oldest entry

    constructor ()
      ensures Valid(0) && Ordered() == []
    {
      buf, start := [], 0;
    }

    /** The buffer is filled from the front before it wraps. */
    ghost predicate Valid(limit: int)
      reads this
    {
      && (start == 0 || start < |buf|)
      && (|buf| < limit ==> start == 0)
      && (limit > 0 ==> |buf| <= limit)
    }

    /** The entries from the oldest to the newest. */
    function Ordered(): seq<Entry>
      reads this
    {
      Unrolled(buf, start)
    }

    /** The ring keeps the last `limit` entries. */
    method Append(e: Entry, limit: int)
      requires Valid(limit)
      modifies this
      ensures Valid(limit)
      ensures limit > 0 ==> Ordered() == LastOf(old(Ordered()) + [e], limit)
      ensures limit <= 0 ==> Ordered() == old(Ordered())
    {
      if limit <= 0 {
        return;
      }
      if |buf| < limit {
        buf := buf + [e];
        return;
      }
      hide Unrolled;
      FullRing(buf, start, e);
      buf := buf[start := e];
      start := start + 1;
      if start == |buf| {
        start := 0;
      }
    }
  }

  lemma FullRing(buf: seq<Entry>, start: nat, e: Entry)
    requires start < |buf|
    ensures Unrolled(buf[start := e], if start + 1 == |buf| then 0 else start + 1)
            == LastOf(Unrolled(buf, start) + [e], |buf|)
  {
    Overwritten(buf, start, e);
    assert |Unrolled(buf, start)| == |buf|;
    assert (Unrolled(buf, start) + [e])[1..] == Unrolled(buf, start)[1..] + [e];
  }

  class Center {
    const system: EntryRing
    const access: EntryRing
    var nextSeq: nat
    ghost var systemLog: seq<Entry> // every entry ever added
    ghost var accessLog: seq<Entry>

    constructor ()
      ensures Valid() && fresh(system) && fresh(access)
      ensures nextSeq == 0 && systemLog == [] && accessLog == []
    {
      system := new EntryRing();
      access := new EntryRing();
      nextSeq, systemLog, accessLog := 0, [], [];
    }

    /** Main result 1. However many entries have been added, each ring has the last
        `MAX_ENTRIES` of its log, oldest first. */
    ghost predicate Valid()
      reads this, system, access
    {
      && system != access
      && system.Valid(MAX_ENTRIES) && access.Valid(MAX_ENTRIES)
      && Kept(systemLog, accessLog, nextSeq)
      && system.Ordered() == LastOf(systemLog, MAX_ENTRIES)
      && access.Ordered() == LastOf(accessLog, MAX_ENTRIES)
    }

    /** What a query of this kind looks through. */
    ghost function Pool(kind: Kind): seq<Entry>
      reads this
    {
      PoolOf(kind, LastOf(systemLog, MAX_ENTRIES), LastOf(accessLog, MAX_ENTRIES))
    }

    /** A new entry goes to the log of its kind, with the next number of all logs. */
    method Add(e: Entry)
      requires Valid()
      modifies this, system, access
      ensures Valid() && nextSeq == old(nextSeq) + 1
      ensures var x := Entry(nextSeq, e.time, if e.level == "" then "info" else e.level,
                             if e.source == "" then "system" else e.source, e.entityID, e.message);
              if x.source == "webproxy" then accessLog == old(accessLog) + [x] && systemLog == old(systemLog)
              else systemLog == old(systemLog) + [x] && accessLog == old(accessLog)
    {
      hide LastOf, Kept, Unrolled;
      nextSeq := nextSeq + 1;
      var x := Stored(e, nextSeq);
      if InAccessLog(x) {
        KeptWithAccess(systemLog, accessLog, x, nextSeq - 1);
        LastOfSnoc(accessLog, x, MAX_ENTRIES);
        access.Append(x, MAX_ENTRIES);
        accessLog := accessLog + [x];
      } else {
        KeptWithSystem(systemLog, accessLog, x, nextSeq - 1);
        LastOfSnoc(systemLog, x, MAX_ENTRIES);
        system.Append(x, MAX_ENTRIES);
        systemLog := systemLog + [x];
      }
    }

    /** A page of one log, or of both together. */
    method Find(kind: Kind, f: Filter, cursor: int, limit: int) returns (page: Page)
      requires Valid()
      ensures page == Query(Pool(kind), f, cursor, limit)
      ensures var size := if limit <= 0 then 100 else if limit > 500 then 500 else limit;
              |page.entries| <= size && (page.next != -1 ==> |page.entries| == size)
    {
      hide Newest, After, PageOf, SortedByTime, LastOf, Kept, Unrolled;
      var pool: seq<Entry>;
      match kind {
        case AccessOnly => pool := access.Ordered();
        case SystemOnly => pool := system.Ordered();
        case BothLogs => pool := SortedByTime(system.Ordered() + access.Ordered());
      }
      var matched := Select(pool, f);
      var start := 0;
      if cursor > 0 {
        start := Seek(matched, cursor);
      }
      page := Cut(matched, start, if limit <= 0 then 100 else if limit > 500 then 500 else limit);
    }

    static method Cut(matched: seq<Entry>, start: nat, size: nat) returns (page: Page)
      requires size > 0
      ensures page == PageOf(matched, start, size)
      ensures |page.entries| <= size && (page.next != -1 ==> |page.entries| == size)
    {
      if start >= |matched| {
        return Page([], -1);
      }
      var end, next: int := start + size, -1;
      if end < |matched| {
        next := matched[end - 1].seqNo;
      } else {
        end := |matched|;
      }
      page := Page(matched[start..end], next);
    }

    static method Select(pool: seq<Entry>, f: Filter) returns (matched: seq<Entry>)
      ensures matched == Newest(pool, f)
    {
      matched := [];
      assert pool[..|pool|] == pool;
      for i := |pool| downto 0
        invariant matched + Newest(pool[..i], f) == Newest(pool, f)
      {
        assert pool[..i + 1][..i] == pool[..i];
        if f(pool[i]) {
          assert matched + ([pool[i]] + Newest(pool[..i], f)) == matched + [pool[i]] + Newest(pool[..i], f);
          matched := matched + [pool[i]];
        } else {
          assert [] + Newest(pool[..i], f) == Newest(pool[..i], f);
        }
      }
    }

    static method Seek(matched: seq<Entry>, cursor: int) returns (start: nat)
      ensures start == After(matched, cursor)
    {
      start := 0;
      for i := 0 to |matched|
        invariant start == 0 == After(matched[..i], cursor)
      {
        AfterPrefix(matched, cursor, i);
        if matched[i].seqNo == cursor {
          AfterStays(matched, cursor, i + 1);
          return i + 1;
        }
      }
      assert matched[..|matched|] == matched;
    }
  }
}
