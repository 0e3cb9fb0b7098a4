/** The day pipeline of web/services/gps.py: sessions, stops and the journeys carved between them. */
module Journeys {
  import opened Basics
  import opened Fixes
  import opened Sorting
  import opened Stops
  import opened Outliers

  const MIN_JOURNEY_DISTANCE_M := 200.0
  const SESSION_GAP_SECONDS := 1800.0

  datatype Journey = Journey(start: real, end: real, from: Place, to: Place,
                             distance: real, track: seq<Fix>)

  // ---- Carving journeys between stops ----

  /** The time before, between and after the stops. */
  function AllGaps(pts: seq<Fix>, stops: seq<Stop>): (all: seq<Interval>)
    requires pts != []
    ensures |all| == |stops| + 1
  {
    seq(|stops| + 1, k requires 0 <= k <= |stops| =>
      Interval(if k == 0 then pts[0].t else stops[k - 1].end,
               if k == |stops| then pts[|pts| - 1].t else stops[k].start))
  }

  /** The same without an empty first or last gap. */
  function Gaps(pts: seq<Fix>, stops: seq<Stop>): seq<Interval>
    requires pts != []
  {
    var all := AllGaps(pts, stops);
    if stops == [] then all
    else
      var h := if stops[0].start > pts[0].t then 0 else 1;
      var e := if stops[|stops| - 1].end < pts[|pts| - 1].t then |all| else |all| - 1;
      all[h..e]
  }

  function JourneyIn(d: Metric, pts: seq<Fix>, gap: Interval): Option<Journey> {
    var track := InWindow(pts, gap.lo, gap.hi);
    if |track| < 2 || Length(d, track) < MIN_JOURNEY_DISTANCE_M then None
    else
      var a, b := track[0], track[|track| - 1];
      Some(Journey(a.t, b.t, a.at, b.at, Length(d, track), track))
  }

  function Carve(d: Metric, pts: seq<Fix>, gaps: seq<Interval>): seq<Journey> {
    if gaps == [] then []
    else
      var n := |gaps| - 1;
      var j := JourneyIn(d, pts, gaps[n]);
      Carve(d, pts, gaps[..n]) + (if j.Some? then [j.value] else [])
  }

  function JourneysOf(d: Metric, pts: seq<Fix>, stops: seq<Stop>): seq<Journey> {
    if |pts| < 2 then [] else Carve(d, pts, Gaps(pts, stops))
  }

  function HeadGap(pts: seq<Fix>, stops: seq<Stop>): seq<Interval>
    requires pts != [] && stops != []
  {
    if stops[0].start > pts[0].t then [Interval(pts[0].t, stops[0].start)] else []
  }

  function TailGap(pts: seq<Fix>, stops: seq<Stop>): seq<Interval>
    requires pts != [] && stops != []
  {
    var end := stops[|stops| - 1].end;
    if end < pts[|pts| - 1].t then [Interval(end, pts[|pts| - 1].t)] else []
  }

  lemma GapsSplit(pts: seq<Fix>, stops: seq<Stop>)
    requires pts != [] && stops != []
    ensures Gaps(pts, stops)
         == HeadGap(pts, stops) + AllGaps(pts, stops)[1..|stops|] + TailGap(pts, stops)
  {
    hide AllGaps;
    var all, n := AllGaps(pts, stops), |stops|;
    EndGaps(pts, stops);
    MiddleOf(all, 0, n);
    MiddleOf(all, 1, n);
  }

  lemma EndGaps(pts: seq<Fix>, stops: seq<Stop>)
    requires pts != [] && stops != []
    ensures AllGaps(pts, stops)[0] == Interval(pts[0].t, stops[0].start)
    ensures AllGaps(pts, stops)[|stops|] == Interval(stops[|stops| - 1].end, pts[|pts| - 1].t)
    ensures AllGaps(pts, stops)[1..1] == []
  {
  }

  lemma MiddleOf(all: seq<Interval>, h: nat, n: nat)
    requires |all| == n + 1 && 0 < n && h <= 1
    ensures var head, tail := if h == 0 then [all[0]] else [], [all[n]];
            all[h..n] == head + all[1..n] + [] && all[h..n + 1] == head + all[1..n] + tail
  {
  }

  lemma GapBetween(pts: seq<Fix>, stops: seq<Stop>, i: nat)
    requires pts != [] && i + 1 < |stops|
    ensures AllGaps(pts, stops)[1..i + 2]
            == AllGaps(pts, stops)[1..i + 1] + [Interval(stops[i].end, stops[i + 1].start)]
  {
  }

  lemma WholeGap(pts: seq<Fix>)
    requires pts != []
    ensures Gaps(pts, []) == [Interval(pts[0].t, pts[|pts| - 1].t)]
  {
  }

  method SpansBetween(points: seq<Fix>, stops: seq<Stop>) returns (spans: seq<Interval>)
    requires points != []
    ensures spans == Gaps(points, stops)
  {
    hide AllGaps, Gaps;
    var first, last := points[0].t, points[|points| - 1].t;
    if stops == [] {
      WholeGap(points);
      return [Interval(first, last)];
    }
    EndGaps(points, stops);
    spans := [];
    if stops[0].start > first {
      spans := [Interval(first, stops[0].start)];
    }
    for i := 0 to |stops| - 1
      invariant spans == HeadGap(points, stops) + AllGaps(points, stops)[1..i + 1]
    {
      GapBetween(points, stops, i);
      spans := spans + [Interval(stops[i].end, stops[i + 1].start)];
    }
    if stops[|stops| - 1].end < last {
      spans := spans + [Interval(stops[|stops| - 1].end, last)];
    }
    GapsSplit(points, stops);
  }

  method BuildJourneys(d: Metric, points: seq<Fix>, stops: seq<Stop>) returns (journeys: seq<Journey>)
    ensures journeys == JourneysOf(d, points, stops)
  {
    journeys := [];
    if |points| < 2 {
      return;
    }
    var spans := SpansBetween(points, stops);
    for k := 0 to |spans|
      invariant journeys == Carve(d, points, spans[..k])
    {
      assert spans[..k + 1][..k] == spans[..k];
      var track := InWindow(points, spans[k].lo, spans[k].hi);
      if |track| < 2 {
        continue;
      }
      var dist := TrackLength(d, track);
      if dist < MIN_JOURNEY_DISTANCE_M {
        continue;
      }
      var a, b := track[0], track[|track| - 1];
      journeys := journeys + [Journey(a.t, b.t, a.at, b.at, dist, track)];
    }
    assert spans[..|spans|] == spans;
  }

  method TrackLength(d: Metric, track: seq<Fix>) returns (dist: real)
    requires track != []
    ensures dist == Length(d, track)
  {
    dist := 0.0;
    for i := 1 to |track|
      invariant dist == Length(d, track[..i])
    {
      assert track[..i + 1][..i] == track[..i];
      dist := dist + d(track[i - 1].at, track[i].at);
    }
    assert track[..|track|] == track;
  }

  // ---- Sessions ----

  /** The stream broken wherever the camera was silent for longer than the limit. */
  function Sessions(pts: seq<Fix>, limit: real): (r: seq<seq<Fix>>)
    ensures (r == [] <==> pts == []) && forall k :: 0 <= k < |r| ==> r[k] != []
    ensures pts != [] ==> r[|r| - 1][|r[|r| - 1]| - 1] == pts[|pts| - 1]
  {
    if pts == [] then []
    else
      var n := |pts| - 1;
      var init := Sessions(pts[..n], limit);
      if init == [] || pts[n].t - pts[n - 1].t > limit then init + [[pts[n]]]
      else init[..|init| - 1] + [init[|init| - 1] + [pts[n]]]
  }

  method SplitOnTimeGaps(points: seq<Fix>, maxGap: real) returns (chunks: seq<seq<Fix>>)
    ensures chunks == Sessions(points, maxGap)
  {
    if points == [] {
      return [];
    }
    chunks := [[points[0]]];
    for i := 1 to |points|
      invariant chunks == Sessions(points[..i], maxGap)
    {
      assert points[..i + 1][..i] == points[..i];
      var open := chunks[|chunks| - 1];
      if points[i].t - open[|open| - 1].t > maxGap {
        chunks := chunks + [[points[i]]];
      } else {
        chunks := chunks[..|chunks| - 1] + [open + [points[i]]];
      }
    }
    assert points[..|points|] == points;
  }

  function Flatten(ss: seq<seq<Fix>>): seq<Fix> {
    if ss == [] then [] else Flatten(ss[..|ss| - 1]) + ss[|ss| - 1]
  }

  function Start(s: seq<Fix>): real requires s != [] { s[0].t }

  function End(s: seq<Fix>): real requires s != [] { s[|s| - 1].t }

  /** Sessions are tracks, one after the other, with more than the limit between them. */
  ghost predicate Separated(ss: seq<seq<Fix>>) {
    && (forall k :: 0 <= k < |ss| ==> ss[k] != [] && InOrder(ss[k]))
    && (forall i, j :: 0 <= i < j < |ss| ==> Start(ss[j]) - End(ss[i]) > SESSION_GAP_SECONDS)
  }

  /** Splitting loses nothing and reorders nothing. */
  lemma {:induction false} SessionsKeepAll(pts: seq<Fix>, limit: real)
    ensures Flatten(Sessions(pts, limit)) == pts
  {
    if pts == [] {
    } else {
      var n := |pts| - 1;
      SessionsKeepAll(pts[..n], limit);
      var init, ss := Sessions(pts[..n], limit), Sessions(pts, limit);
      if |ss| == |init| + 1 {
        assert ss[..|init|] == init;
      } else {
        assert ss[..|ss| - 1] == init[..|init| - 1];
      }
      assert pts == pts[..n] + [pts[n]];
    }
  }

  /** A session has no silence longer than the limit inside. */
  lemma {:induction false} SessionsAreDense(pts: seq<Fix>, limit: real, k: nat)
    requires k < |Sessions(pts, limit)|
    ensures var s := Sessions(pts, limit)[k]; GapsWithin(s, 0, |s| - 1, limit)
  {
    if pts == [] {
    } else {
      var n := |pts| - 1;
      var init, ss := Sessions(pts[..n], limit), Sessions(pts, limit);
      if k < |init| { SessionsAreDense(pts[..n], limit, k); }
      if k < |init| && ss[k] != init[k] {
        var s := init[k];
        assert ss[k] == s + [pts[n]] && s[|s| - 1] == pts[n - 1];
      }
    }
  }

  /** The stream is cut exactly at its long silences. */
  lemma {:induction false} SessionsAreSeparated(pts: seq<Fix>)
    requires InOrder(pts)
    ensures Separated(Sessions(pts, SESSION_GAP_SECONDS))
  {
    if pts == [] {
    } else {
      var n := |pts| - 1;
      SessionsAreSeparated(pts[..n]);
      var init := Sessions(pts[..n], SESSION_GAP_SECONDS);
      if init == [] || pts[n].t - pts[n - 1].t > SESSION_GAP_SECONDS {
        NewSession(pts, init);
      } else {
        GrowSession(pts, init);
      }
    }
  }

  lemma NewSession(pts: seq<Fix>, init: seq<seq<Fix>>)
    requires InOrder(pts) && pts != [] && Separated(init)
    requires init != [] ==> pts[|pts| - 1].t - End(init[|init| - 1]) > SESSION_GAP_SECONDS
    ensures Separated(init + [[pts[|pts| - 1]]])
  {
    var ss := init + [[pts[|pts| - 1]]];
    forall i, j | 0 <= i < j < |ss| ensures Start(ss[j]) - End(ss[i]) > SESSION_GAP_SECONDS {
      if j == |init| && i < j - 1 {
        assert Start(init[j - 1]) - End(init[i]) > SESSION_GAP_SECONDS;
        assert init[j - 1][0].t <= init[j - 1][|init[j - 1]| - 1].t;
      }
    }
  }

  lemma GrowSession(pts: seq<Fix>, init: seq<seq<Fix>>)
    requires InOrder(pts) && |pts| > 1 && Separated(init) && init != []
    requires End(init[|init| - 1]) == pts[|pts| - 2].t
    ensures Separated(init[..|init| - 1] + [init[|init| - 1] + [pts[|pts| - 1]]])
  {
    var last := init[|init| - 1];
    var grown := last + [pts[|pts| - 1]];
    forall i, j | 0 <= i < j < |grown| ensures grown[i].t <= grown[j].t {
      assert last[i].t <= last[|last| - 1].t;
    }
  }

  // ---- A whole day ----

  predicate IsStationary(d: Metric, chunk: seq<Fix>) {
    |chunk| < 2 || forall i :: 1 <= i < |chunk| ==> Near(d, chunk, 0, i)
  }

  function ChunkStop(chunk: seq<Fix>): Stop
    requires chunk != []
  {
    Stop(Start(chunk), End(chunk), Center(chunk), |chunk|)
  }

  function SessionStops(d: Metric, s: seq<Fix>): seq<Stop>
    requires s != []
  {
    if IsStationary(d, s) then [ChunkStop(s)] else StopsOf(d, s, StopSpans(d, s))
  }

  function SessionJourneys(d: Metric, s: seq<Fix>): seq<Journey> {
    if IsStationary(d, s) then [] else JourneysOf(d, s, StopsOf(d, s, StopSpans(d, s)))
  }

  function DayStops(d: Metric, ss: seq<seq<Fix>>): seq<Stop>
    requires forall k :: 0 <= k < |ss| ==> ss[k] != []
  {
    if ss == [] then [] else DayStops(d, ss[..|ss| - 1]) + SessionStops(d, ss[|ss| - 1])
  }

  function DayJourneys(d: Metric, ss: seq<seq<Fix>>): seq<Journey> {
    if ss == [] then [] else DayJourneys(d, ss[..|ss| - 1]) + SessionJourneys(d, ss[|ss| - 1])
  }

  function Instant(p: Fix): real { p.t }

  /** The merged fixes of a day: in time order, spikes removed. */
  function Merged(d: Metric, fixes: seq<Fix>): seq<Fix> {
    Filtered(d, SortBy(fixes, Instant))
  }

  method StationaryChunk(d: Metric, chunk: seq<Fix>) returns (r: bool)
    ensures r == IsStationary(d, chunk)
  {
    if |chunk| < 2 {
      return true;
    }
    for i := 1 to |chunk|
      invariant forall k :: 1 <= k < i ==> Near(d, chunk, 0, k)
    {
      if d(chunk[0].at, chunk[i].at) > STOP_RADIUS_M {
        assert !Near(d, chunk, 0, i);
        return false;
      }
    }
    return true;
  }

  method AggregateSession(d: Metric, session: seq<Fix>) returns (stops: seq<Stop>, journeys: seq<Journey>)
    requires session != []
    ensures stops == SessionStops(d, session) && journeys == SessionJourneys(d, session)
  {
    var still := StationaryChunk(d, session);
    if still {
      return [ChunkStop(session)], [];
    }
    stops := DetectStops(d, session);
    journeys := BuildJourneys(d, session, stops);
  }

  lemma DayOfNone(d: Metric)
    ensures DayStops(d, []) == [] && DayJourneys(d, []) == [] && Sessions([], SESSION_GAP_SECONDS) == []
  {
  }

  lemma DayNext(d: Metric, ss: seq<seq<Fix>>, k: nat)
    requires k < |ss| && forall i :: 0 <= i < |ss| ==> ss[i] != []
    ensures DayStops(d, ss[..k + 1]) == DayStops(d, ss[..k]) + SessionStops(d, ss[k])
    ensures DayJourneys(d, ss[..k + 1]) == DayJourneys(d, ss[..k]) + SessionJourneys(d, ss[k])
  {
    assert ss[..k + 1][..k] == ss[..k];
  }

  method AggregateDay(d: Metric, fixes: seq<Fix>)
    returns (points: seq<Fix>, stops: seq<Stop>, journeys: seq<Journey>)
    ensures points == Merged(d, fixes)
    ensures var ss := Sessions(points, SESSION_GAP_SECONDS);
            stops == DayStops(d, ss) && journeys == DayJourneys(d, ss)
  {
    hide SessionStops, SessionJourneys, DayStops, DayJourneys;
    DayOfNone(d);
    points := FilterOutliers(d, SortBy(fixes, Instant));
    stops, journeys := [], [];
    if points == [] {
      return;
    }
    var sessions := SplitOnTimeGaps(points, SESSION_GAP_SECONDS);
    for k := 0 to |sessions|
      invariant stops == DayStops(d, sessions[..k]) && journeys == DayJourneys(d, sessions[..k])
    {
      DayNext(d, sessions, k);
      var found, carved := AggregateSession(d, sessions[k]);
      stops := stops + found;
      journeys := journeys + carved;
    }
    assert sessions[..|sessions|] == sessions;
  }
}
