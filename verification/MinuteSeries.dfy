/** Per-minute traffic of a site (internal/webproxy/stats.go): a bounded summary that
    agrees with the log of all requests. */
module MinuteSeries {
  import opened Tallies
  import opened Wrappers

  const MAX_POINTS: nat := 1440

  datatype Point = Point(minute: int, requests: int, bytesIn: int, bytesOut: int)

  datatype Request = Request(minute: int, bytesIn: int, bytesOut: int)

  // ---- The full log --------------------------------------------------------

  /** The exact sums of one minute over every request ever added. */
  function Sums(log: seq<Request>, minute: int): (p: Point)
    ensures p.minute == minute
  {
    if log == [] then Point(minute, 0, 0, 0)
    else
      var n := |log| - 1;
      var before := Sums(log[..n], minute);
      if log[n].minute == minute then Counted(before, log[n].bytesIn, log[n].bytesOut) else before
  }

  function Counted(p: Point, bytesIn: int, bytesOut: int): Point {
    Point(p.minute, p.requests + 1, p.bytesIn + bytesIn, p.bytesOut + bytesOut)
  }

  /** The requests of a minute, in the order they were added. */
  function During(log: seq<Request>, minute: int): seq<Request> {
    if log == [] then []
    else
      var n := |log| - 1;
      During(log[..n], minute) + if log[n].minute == minute then [log[n]] else []
  }

  function Received(log: seq<Request>): seq<int> {
    seq(|log|, i requires 0 <= i < |log| => log[i].bytesIn)
  }

  function Delivered(log: seq<Request>): seq<int> {
    seq(|log|, i requires 0 <= i < |log| => log[i].bytesOut)
  }

  /** How many requests a minute has had, and what they received and delivered. */
  lemma {:induction false} SumsAreExact(log: seq<Request>, minute: int)
    ensures var requests := During(log, minute);
            Sums(log, minute) == Point(minute, |requests|, Sum(Received(requests)), Sum(Delivered(requests)))
    ensures forall r :: r in During(log, minute) <==> r in log && r.minute == minute
  {
    if log != [] {
      var n := |log| - 1;
      SumsAreExact(log[..n], minute);
      assert log == log[..n] + [log[n]];
      var before, now := During(log[..n], minute), During(log, minute);
      if log[n].minute == minute {
        assert Received(now)[..|before|] == Received(before) && Delivered(now)[..|before|] == Delivered(before);
      } else {
        assert now == before;
      }
    }
  }

  /** What is shown for these requests of a minute, which is given in seconds. */
  function Traffic(requests: seq<Request>, minute: int): Point {
    Point(minute * 60, |requests|, Sum(Received(requests)), Sum(Delivered(requests)))
  }

  lemma TrafficIsSums(log: seq<Request>, minute: int)
    ensures Traffic(During(log, minute), minute) == Sums(log, minute).(minute := minute * 60)
  {
    SumsAreExact(log, minute);
  }

  /** The clock does not go back. */
  predicate Chronological(log: seq<Request>) {
    forall i, j :: 0 <= i < j < |log| ==> log[i].minute <= log[j].minute
  }

  predicate HasMinute(log: seq<Request>, minute: int) {
    exists i :: 0 <= i < |log| && log[i].minute == minute
  }

  lemma {:induction false} NoRequestsNoSums(log: seq<Request>, minute: int)
    requires !HasMinute(log, minute)
    ensures Sums(log, minute) == Point(minute, 0, 0, 0)
  {
    if log != [] {
      var n := |log| - 1;
      assert log[n].minute != minute;
      forall i | 0 <= i < n ensures log[..n][i].minute != minute {
        assert log[i].minute != minute;
      }
      NoRequestsNoSums(log[..n], minute);
    }
  }

  lemma SumsSnoc(log: seq<Request>, r: Request, minute: int)
    ensures Sums(log + [r], minute) ==
            if r.minute == minute then Counted(Sums(log, minute), r.bytesIn, r.bytesOut) else Sums(log, minute)
  {
    assert (log + [r])[..|log|] == log;
  }

  lemma HasMinuteSnoc(log: seq<Request>, r: Request, minute: int)
    ensures HasMinute(log + [r], minute) <==> HasMinute(log, minute) || r.minute == minute
  {
    if HasMinute(log, minute) {
      var i :| 0 <= i < |log| && log[i].minute == minute;
      assert (log + [r])[i].minute == minute;
    }
    if r.minute == minute {
      assert (log + [r])[|log|].minute == minute;
    }
  }

  // ---- The summary ---------------------------------------------------------

  predicate Increasing(points: seq<Point>) {
    forall i, j :: 0 <= i < j < |points| ==> points[i].minute < points[j].minute
  }

  predicate Sealed(points: seq<Point>, minute: int) {
    exists i :: 0 <= i < |points| && points[i].minute == minute
  }

  /** Minutes before the first sealed point have been trimmed, and then only when the
      summary is full. */
  predicate Trimmed(points: seq<Point>, minute: int) {
    |points| == MAX_POINTS && minute < points[0].minute
  }

  /** The summary of a log: the last minute so far, the sealed minutes before it with
      their exact sums, and no minute missing but those trimmed. */
  ghost predicate Summarises(points: seq<Point>, cur: Option<Point>, log: seq<Request>) {
    && Chronological(log) && |points| <= MAX_POINTS && Increasing(points)
    && (log == [] <==> cur.None?) && (cur.None? ==> points == [])
    && (cur.Some? ==>
          && cur.value == Sums(log, log[|log| - 1].minute)
          && (forall i :: 0 <= i < |points| ==> points[i].minute < cur.value.minute)
          && (forall i :: 0 <= i < |points| ==> points[i] == Sums(log, points[i].minute))
          && (forall m :: HasMinute(log, m) && m != cur.value.minute ==> Sealed(points, m) || Trimmed(points, m)))
  }

  lemma SummaryIsUpToDate(points: seq<Point>, cur: Option<Point>, log: seq<Request>)
    requires Summarises(points, cur, log)
    ensures cur.Some? ==> log != [] && cur.value.minute == log[|log| - 1].minute
  {
  }

  function Keep(points: seq<Point>): (r: seq<Point>)
    ensures |points| <= MAX_POINTS ==> r == points
    ensures |points| > MAX_POINTS ==> |r| == MAX_POINTS && r == points[|points| - MAX_POINTS..]
  {
    if |points| > MAX_POINTS then points[|points| - MAX_POINTS..] else points
  }

  lemma SameMinuteSummarises(points: seq<Point>, cur: Point, log: seq<Request>, r: Request)
    requires Summarises(points, Some(cur), log) && r.minute == cur.minute
    ensures Summarises(points, Some(Counted(cur, r.bytesIn, r.bytesOut)), log + [r])
  {
    SumsSnoc(log, r, r.minute);
    forall i | 0 <= i < |points| ensures points[i] == Sums(log + [r], points[i].minute) {
      SumsSnoc(log, r, points[i].minute);
    }
    forall m | HasMinute(log + [r], m) && m != cur.minute ensures Sealed(points, m) || Trimmed(points, m) {
      HasMinuteSnoc(log, r, m);
    }
  }

  lemma FirstMinuteSummarises(r: Request)
    ensures Summarises([], Some(Counted(Point(r.minute, 0, 0, 0), r.bytesIn, r.bytesOut)), [r])
  {
    SumsSnoc([], r, r.minute);
    assert [] + [r] == [r];
    forall m | HasMinute([r], m) ensures m == r.minute {
      HasMinuteSnoc([], r, m);
    }
  }

  lemma NewMinuteSummarises(points: seq<Point>, cur: Point, log: seq<Request>, r: Request)
    requires Summarises(points, Some(cur), log) && r.minute > cur.minute
    ensures Summarises(Keep(points + [cur]), Some(Counted(Point(r.minute, 0, 0, 0), r.bytesIn, r.bytesOut)), log + [r])
  {
    var all, kept := points + [cur], Keep(points + [cur]);
    assert !HasMinute(log, r.minute);
    NoRequestsNoSums(log, r.minute);
    SumsSnoc(log, r, r.minute);
    forall i | 0 <= i < |all| ensures all[i] == Sums(log + [r], all[i].minute) && all[i].minute < r.minute {
      SumsSnoc(log, r, all[i].minute);
    }
    forall m | HasMinute(log + [r], m) && m != r.minute ensures Sealed(kept, m) || Trimmed(kept, m) {
      HasMinuteSnoc(log, r, m);
      KeptOrTrimmed(points, cur, m);
    }
  }

  lemma KeptOrTrimmed(points: seq<Point>, cur: Point, m: int)
    requires |points| <= MAX_POINTS && Increasing(points + [cur])
    requires m == cur.minute || Sealed(points, m) || Trimmed(points, m)
    ensures Sealed(Keep(points + [cur]), m) || Trimmed(Keep(points + [cur]), m)
  {
    var all, kept := points + [cur], Keep(points + [cur]);
    var cut := |all| - |kept|;
    if m == cur.minute {
      assert kept[|kept| - 1].minute == m;
    } else if Sealed(points, m) {
      var i :| 0 <= i < |points| && points[i].minute == m;
      assert all[i].minute == m;
      if i >= cut {
        assert kept[i - cut].minute == m;
      } else {
        assert kept[0] == all[cut];
      }
    } else {
      assert kept[0] == all[1] && all[0].minute < all[1].minute;
    }
  }

  // ---- Reading it back -----------------------------------------------------

  /** What a snapshot reports for a minute. */
  function Reported(points: seq<Point>, minute: int): (p: Point)
    ensures p.minute == minute
  {
    if points == [] then Point(minute, 0, 0, 0)
    else
      var last := points[|points| - 1];
      if last.minute == minute then last else Reported(points[..|points| - 1], minute)
  }

  lemma {:induction false} ReportedPoint(points: seq<Point>, minute: int)
    ensures Sealed(points, minute) ==> Reported(points, minute) in points
    ensures !Sealed(points, minute) ==> Reported(points, minute) == Point(minute, 0, 0, 0)
  {
    if points != [] {
      var n := |points| - 1;
      ReportedPoint(points[..n], minute);
      assert Sealed(points[..n], minute) ==> Sealed(points, minute) by {
        if Sealed(points[..n], minute) {
          var i :| 0 <= i < n && points[..n][i].minute == minute;
          assert points[i].minute == minute;
        }
      }
      if points[n].minute != minute && Sealed(points, minute) {
        var i :| 0 <= i < |points| && points[i].minute == minute;
        assert points[..n][i].minute == minute;
      }
    }
  }

  /** The points a snapshot from `from` on looks at. */
  function Visible(points: seq<Point>, cur: Option<Point>, from: int): seq<Point> {
    if cur.Some? && cur.value.minute >= from then points + [cur.value] else points
  }

  /** A full summary goes back at least as far as the maximal number of minutes. */
  lemma {:induction false} FullGoesBack(points: seq<Point>, k: nat, bound: int)
    requires Increasing(points) && k < |points| && forall i :: 0 <= i < |points| ==> points[i].minute < bound
    ensures points[|points| - 1 - k].minute < bound - k
  {
    if k > 0 {
      FullGoesBack(points, k - 1, bound);
    }
  }

  /** Main result 1. Over at most the maximal number of minutes, ending no earlier
      than the current one, a snapshot reports the exact sums of the full log. */
  lemma SnapshotIsExact(points: seq<Point>, cur: Option<Point>, log: seq<Request>, from: int, to: int, m: int)
    requires Summarises(points, cur, log)
    requires from <= m <= to && to - from < MAX_POINTS && (cur.Some? ==> cur.value.minute <= to)
    ensures Reported(Visible(points, cur, from), m) == Sums(log, m)
  {
    var visible := Visible(points, cur, from);
    ReportedPoint(visible, m);
    if Sealed(visible, m) {
      VisibleIsExact(points, cur, log, from, Reported(visible, m));
    } else {
      NotVisibleIsQuiet(points, cur, log, from, to, m);
      NoRequestsNoSums(log, m);
    }
  }

  lemma VisibleIsExact(points: seq<Point>, cur: Option<Point>, log: seq<Request>, from: int, p: Point)
    requires Summarises(points, cur, log) && p in Visible(points, cur, from)
    ensures p == Sums(log, p.minute)
  {
    if p in points {
      var i :| 0 <= i < |points| && points[i] == p;
    }
  }

  lemma NotVisibleIsQuiet(points: seq<Point>, cur: Option<Point>, log: seq<Request>, from: int, to: int, m: int)
    requires Summarises(points, cur, log) && !Sealed(Visible(points, cur, from), m)
    requires from <= m <= to && to - from < MAX_POINTS && (cur.Some? ==> cur.value.minute <= to)
    ensures !HasMinute(log, m)
  {
    VisibleSealed(points, cur, from, m);
    if HasMinute(log, m) && Trimmed(points, m) {
      TrimmedIsOld(points, cur, log, m);
    }
  }

  lemma VisibleSealed(points: seq<Point>, cur: Option<Point>, from: int, m: int)
    ensures Sealed(points, m) ==> Sealed(Visible(points, cur, from), m)
    ensures cur.Some? && cur.value.minute == m >= from ==> Sealed(Visible(points, cur, from), m)
  {
    var visible := Visible(points, cur, from);
    if Sealed(points, m) {
      var i :| 0 <= i < |points| && points[i].minute == m;
      assert visible[i].minute == m;
    }
    if cur.Some? && cur.value.minute == m >= from {
      assert visible[|points|].minute == m;
    }
  }

  lemma TrimmedIsOld(points: seq<Point>, cur: Option<Point>, log: seq<Request>, m: int)
    requires Summarises(points, cur, log) && Trimmed(points, m)
    ensures m <= cur.value.minute - MAX_POINTS
  {
    FullGoesBack(points, |points| - 1, cur.value.minute);
  }

  /** The traffic of a site, minute by minute. */
  class SiteSeries {
    var cur: Option<Point>
    var points: seq<Point>

    constructor ()
      ensures Summarises(points, cur, [])
    {
      cur, points := None, [];
    }

    /** One request at time `now`, in seconds; the log is everything added before. */
    method Add(now: nat, bytesIn: int, bytesOut: int, ghost log: seq<Request>)
      requires Summarises(points, cur, log)
      requires log != [] ==> log[|log| - 1].minute <= now / 60
      modifies this
      ensures Summarises(points, cur, log + [Request(now / 60, bytesIn, bytesOut)]) && |points| <= 1440
    {
      hide Sums, Sealed, Trimmed, HasMinute, Increasing, Chronological;
      var m := now / 60;
      ghost var r := Request(m, bytesIn, bytesOut);
      if cur.Some? && cur.value.minute == m {
        SameMinuteSummarises(points, cur.value, log, r);
        cur := Some(Counted(cur.value, bytesIn, bytesOut));
        return;
      }
      if cur.Some? {
        NewMinuteSummarises(points, cur.value, log, r);
        points := points + [cur.value];
        if |points| > MAX_POINTS {
          points := points[|points| - MAX_POINTS..];
        }
      } else {
        FirstMinuteSummarises(r);
        assert log + [r] == [r];
      }
      cur := Some(Counted(Point(m, 0, 0, 0), bytesIn, bytesOut));
    }

    /** One point for every minute, in order. */
    method Snapshot(from: int, to: int) returns (out: seq<Point>)
      requires from <= to + 1
      ensures |out| == to - from + 1
      ensures forall i :: 0 <= i < |out| ==> out[i] == Reported(Visible(points, cur, from), from + i)
    {
      var visible := points;
      if cur.Some? && cur.value.minute >= from {
        visible := visible + [cur.value];
      }
      var byMinute: map<int, Point> := map[];
      for k := 0 to |visible|
        invariant forall m :: m in byMinute <==> Sealed(visible[..k], m)
        invariant forall m :: m in byMinute ==> byMinute[m] == Reported(visible[..k], m)
      {
        PrefixSealed(visible, k);
        byMinute := byMinute[visible[k].minute := visible[k]];
      }
      assert visible[..|visible|] == visible;
      out := [];
      for m := from to to + 1
        invariant |out| == m - from
        invariant forall i :: 0 <= i < |out| ==> out[i] == Reported(visible, from + i)
      {
        ReportedPoint(visible, m);
        out := out + [if m in byMinute then byMinute[m] else Point(m, 0, 0, 0)];
      }
    }

    /** Main result 2. The view of the last `span` minutes at time `now` is dense and
        has the exact sums of every request added so far. */
    method View(now: nat, span: nat, ghost log: seq<Request>) returns (view: seq<Point>)
      requires Summarises(points, cur, log) && span <= 1440
      requires log != [] ==> log[|log| - 1].minute <= now / 60
      ensures |view| == span
      ensures forall i :: 0 <= i < span ==>
                            view[i] == Traffic(During(log, now / 60 - span + 1 + i), now / 60 - span + 1 + i)
    {
      hide Traffic, During, Sums, Summarises, Reported, Visible;
      SummaryIsUpToDate(points, cur, log);
      var to := now / 60;
      var from := to - span + 1;
      var points' := Snapshot(from, to);
      view := [];
      for i := 0 to |points'|
        invariant |view| == i
        invariant forall j :: 0 <= j < i ==> view[j] == Traffic(During(log, from + j), from + j)
      {
        SnapshotIsExact(points, cur, log, from, to, from + i);
        TrafficIsSums(log, from + i);
        view := view + [points'[i].(minute := points'[i].minute * 60)];
      }
    }
  }

  lemma PrefixSealed(points: seq<Point>, k: nat)
    requires k < |points|
    ensures forall m :: Sealed(points[..k + 1], m) <==> Sealed(points[..k], m) || points[k].minute == m
    ensures forall m ::
              Reported(points[..k + 1], m) == if points[k].minute == m then points[k] else Reported(points[..k], m)
  {
    var a, b := points[..k], points[..k + 1];
    assert b[..k] == a && b[k] == points[k];
    forall m ensures Sealed(b, m) <==> Sealed(a, m) || points[k].minute == m {
      if Sealed(a, m) {
        var i :| 0 <= i < |a| && a[i].minute == m;
        assert b[i].minute == m;
      }
      if Sealed(b, m) && points[k].minute != m {
        var i :| 0 <= i < |b| && b[i].minute == m;
        assert a[i].minute == m;
      }
      if points[k].minute == m {
        assert b[k].minute == m;
      }
    }
    forall m ensures Reported(b, m) == if points[k].minute == m then points[k] else Reported(a, m) {
      assert b[|b| - 1] == points[k] && b[..|b| - 1] == a;
    }
  }
}
