/** The auto-skip of web/services/geofence.py: which queued clips count as idling at home. */
module Geofence {
  import opened Fixes
  import opened ShutdownTails
  import S = Stops
  import J = Journeys
  import R = RouteWindows

  datatype Candidate = Candidate(filename: string, recordedAt: real)

  /** The stops whose centre lies in some zone. */
  function HomeOf(d: Metric, stops: seq<S.Stop>, zones: seq<R.Zone>): seq<Span> {
    if stops == [] then []
    else
      var n := |stops| - 1;
      var init := HomeOf(d, stops[..n], zones);
      if R.InZone(d, zones, stops[n].center) then init + [Span(stops[n].start, stops[n].end)] else init
  }

  method HomeStops(d: Metric, stops: seq<S.Stop>, zones: seq<R.Zone>) returns (home: seq<Span>)
    ensures home == HomeOf(d, stops, zones)
  {
    home := [];
    for k := 0 to |stops|
      invariant home == HomeOf(d, stops[..k], zones)
    {
      assert stops[..k + 1][..k] == stops[..k];
      for z := 0 to |zones|
        invariant home == HomeOf(d, stops[..k], zones)
        invariant forall i :: 0 <= i < z ==> d(stops[k].center, zones[i].center) > zones[i].radius
      {
        if d(stops[k].center, zones[z].center) <= zones[z].radius {
          home := home + [Span(stops[k].start, stops[k].end)];
          break;
        }
      }
    }
    assert stops[..|stops|] == stops;
  }

  /** Some window, its leading edge moved ahead by the pad, holds the instant. */
  predicate Within(spans: seq<Span>, pad: real, t: real) {
    exists i :: 0 <= i < |spans| && spans[i].start - pad <= t <= spans[i].end
  }

  predicate Skips(t: real, windows: seq<Span>, drives: seq<Span>, protected: seq<Span>) {
    && Within(windows, LEADING_EDGE_PAD_S, t)
    && !Within(drives, 0.0, t)
    && !Within(protected, LEADING_EDGE_PAD_S, t)
  }

  function Skipped(cs: seq<Candidate>, windows: seq<Span>, drives: seq<Span>, protected: seq<Span>): seq<Candidate> {
    if cs == [] then []
    else
      var n := |cs| - 1;
      var init := Skipped(cs[..n], windows, drives, protected);
      if Skips(cs[n].recordedAt, windows, drives, protected) then init + [cs[n]] else init
  }

  function PaddedDrives(js: seq<J.Journey>, parking: seq<Interval>): seq<Span> {
    seq(|js|, i requires 0 <= i < |js| => Span(R.PadStart(js[i].start, parking), R.PadEnd(js[i].end, parking)))
  }

  function EndsOf(js: seq<J.Journey>): (ends: seq<real>)
    ensures |ends| == |js| && forall i :: 0 <= i < |js| ==> ends[i] == js[i].end
  {
    seq(|js|, i requires 0 <= i < |js| => js[i].end)
  }

  /** All a day's verdict depends on. */
  datatype Day = Day(fixes: seq<Fix>, zones: seq<R.Zone>, parking: seq<Interval>, rows: seq<Row>, now: real)
  {
    function Found(d: Metric): seq<seq<Fix>> {
      J.Sessions(J.Merged(d, fixes), J.SESSION_GAP_SECONDS)
    }

    function Home(d: Metric): seq<Span> { HomeOf(d, J.DayStops(d, Found(d)), zones) }

    function Drives(d: Metric): seq<Span> { PaddedDrives(J.DayJourneys(d, Found(d)), parking) }

    function Ends(d: Metric): seq<real> { EndsOf(J.DayJourneys(d, Found(d))) }

    function Protected(d: Metric): seq<Span> {
      TailsOf(rows, Home(d), Ends(d), now) + UndecidedOf(rows, Home(d), Ends(d), now)
    }
  }

  method PadDrives(js: seq<J.Journey>, parking: seq<Interval>) returns (drives: seq<Span>)
    ensures drives == PaddedDrives(js, parking)
  {
    drives := [];
    for i := 0 to |js|
      invariant drives == PaddedDrives(js[..i], parking)
    {
      var w := R.ExpandJourneyWindow(js[i].start, js[i].end, parking);
      drives := drives + [Span(w.lo, w.hi)];
    }
    assert js[..|js|] == js;
  }

  method Select(cs: seq<Candidate>, windows: seq<Span>, drives: seq<Span>, protected: seq<Span>)
    returns (toSkip: seq<Candidate>)
    ensures toSkip == Skipped(cs, windows, drives, protected)
  {
    toSkip := [];
    for k := 0 to |cs|
      invariant toSkip == Skipped(cs[..k], windows, drives, protected)
    {
      assert cs[..k + 1][..k] == cs[..k];
      if Skips(cs[k].recordedAt, windows, drives, protected) {
        toSkip := toSkip + [cs[k]];
      }
    }
    assert cs[..|cs|] == cs;
  }

  /** The skipped clips are the candidates that skip, and no other, in their order. */
  lemma {:induction false} SkippedMembers(cs: seq<Candidate>, windows: seq<Span>, drives: seq<Span>,
                                          protected: seq<Span>, c: Candidate)
    ensures c in Skipped(cs, windows, drives, protected)
            <==> c in cs && Skips(c.recordedAt, windows, drives, protected)
  {
    if cs != [] {
      var n := |cs| - 1;
      assert cs == cs[..n] + [cs[n]];
      SkippedMembers(cs[..n], windows, drives, protected, c);
    }
  }

  lemma SkippedAre(cs: seq<Candidate>, windows: seq<Span>, drives: seq<Span>, protected: seq<Span>)
    ensures forall c :: c in Skipped(cs, windows, drives, protected)
              <==> c in cs && Skips(c.recordedAt, windows, drives, protected)
  {
    forall c ensures c in Skipped(cs, windows, drives, protected)
                     <==> c in cs && Skips(c.recordedAt, windows, drives, protected)
    {
      SkippedMembers(cs, windows, drives, protected, c);
    }
  }

  /** The clips of the day to skip: the candidates that skip, in their order. */
  method EvaluateDay(d: Metric, day: Day, candidates: seq<Candidate>) returns (toSkip: seq<Candidate>)
    ensures toSkip == Skipped(candidates, day.Home(d), day.Drives(d), day.Protected(d))
    ensures forall c :: c in toSkip
              <==> c in candidates && Skips(c.recordedAt, day.Home(d), day.Drives(d), day.Protected(d))
  {
    hide HomeOf, Skipped, PaddedDrives, EndsOf, J.DayStops, J.DayJourneys, J.Merged, J.Sessions, TailsOf, UndecidedOf;
    NoHome(d, day, candidates);
    SkippedAre(candidates, day.Home(d), day.Drives(d), day.Protected(d));
    if day.zones == [] || candidates == [] {
      return [];
    }
    var points, stops, journeys := J.AggregateDay(d, day.fixes);
    var home := HomeStops(d, stops, day.zones);
    if home == [] {
      return [];
    }
    var drives := PadDrives(journeys, day.parking);
    var tails, undecided := Classify(day.rows, home, EndsOf(journeys), day.now);
    toSkip := Select(candidates, home, drives, tails + undecided);
  }

  lemma NoHome(d: Metric, day: Day, cs: seq<Candidate>)
    ensures cs == [] || day.zones == [] || day.Home(d) == []
            ==> Skipped(cs, day.Home(d), day.Drives(d), day.Protected(d)) == []
  {
    if day.zones == [] { NoZones(d, J.DayStops(d, day.Found(d))); }
    NothingSkipped(cs, day.Drives(d), day.Protected(d));
  }

  lemma {:induction false} NoZones(d: Metric, stops: seq<S.Stop>)
    ensures HomeOf(d, stops, []) == []
  {
    if stops != [] { NoZones(d, stops[..|stops| - 1]); }
  }

  lemma {:induction false} NothingSkipped(cs: seq<Candidate>, drives: seq<Span>, protected: seq<Span>)
    ensures Skipped(cs, [], drives, protected) == []
  {
    if cs != [] { NothingSkipped(cs[..|cs| - 1], drives, protected); }
  }

  // ---- Which clips are skipped ----

  /** The footage listed at t counts as idling at a stop, not as the end of the drive there:
      parking mode followed the arrival, or the recording went on past the cap, or no drive
      arrived there, or the footage comes after the camera fell silent. */
  ghost predicate Idle(rows: seq<Row>, ss: real, ends: seq<real>, t: real) {
    || ParkingWithin(rows, ss, ss + TAIL_CAP_S + TAIL_GAP_S)
    || exists last :: FirstSilence(rows, ss, last)
         && (last > ss + TAIL_CAP_S || (!UntriagedBefore(rows, ss) && !Arrives(ends, ss)) || t > last + NOMINAL_CLIP_S)
  }

  /** The verdict on a stop protects the instant. */
  ghost predicate Protects(rows: seq<Row>, ss: real, ends: seq<real>, now: real, t: real) {
    match Judge(rows, ss, ends, now)
    case NotATail => false
    case Undecided(e) => ss - LEADING_EDGE_PAD_S <= t <= e
    case Tail(e) => ss - LEADING_EDGE_PAD_S <= t <= e
  }

  /** A stop leaves a listed clip unprotected exactly when the clip idles there. The clock has
      no say: it only decides between a tail and a deferral, and both protect. */
  lemma UnprotectedIffIdle(rows: seq<Row>, ss: real, ends: seq<real>, now: real, t: real)
    requires ListingInOrder(rows) && Listed(rows, t) && ss - LEADING_EDGE_PAD_S <= t
    ensures !Protects(rows, ss, ends, now, t) <==> Idle(rows, ss, ends, t)
  {
    RunMembers(rows, ss, t);
    WalkIsFirstSilence(rows, ss);
    var last := Walk(RunFrom(rows, ss)).0;
    assert forall u :: FirstSilence(rows, ss, u) ==> u == last;
  }

  lemma {:induction false} ProtectedByOne(rows: seq<Row>, stops: seq<Span>, ends: seq<real>, now: real, t: real)
    ensures Within(TailsOf(rows, stops, ends, now), LEADING_EDGE_PAD_S, t)
            || Within(UndecidedOf(rows, stops, ends, now), LEADING_EDGE_PAD_S, t)
            <==> exists i :: 0 <= i < |stops| && Protects(rows, stops[i].start, ends, now, t)
  {
    hide Judge, TailsOf, UndecidedOf;
    if stops == [] {
      NothingProtected(rows, ends, now, t);
    } else {
      var n := |stops| - 1;
      ProtectedByOne(rows, stops[..n], ends, now, t);
      ProtectedByLast(rows, stops, ends, now, t);
    }
  }

  lemma NothingProtected(rows: seq<Row>, ends: seq<real>, now: real, t: real)
    ensures TailsOf(rows, [], ends, now) == [] && UndecidedOf(rows, [], ends, now) == []
  {
  }

  lemma ProtectedByLast(rows: seq<Row>, stops: seq<Span>, ends: seq<real>, now: real, t: real)
    requires stops != []
    ensures var n := |stops| - 1;
            Within(TailsOf(rows, stops, ends, now), LEADING_EDGE_PAD_S, t)
            || Within(UndecidedOf(rows, stops, ends, now), LEADING_EDGE_PAD_S, t)
            <==> Within(TailsOf(rows, stops[..n], ends, now), LEADING_EDGE_PAD_S, t)
                 || Within(UndecidedOf(rows, stops[..n], ends, now), LEADING_EDGE_PAD_S, t)
                 || Protects(rows, stops[n].start, ends, now, t)
  {
    hide Judge, Within;
    var n := |stops| - 1;
    var verdict := Judge(rows, stops[n].start, ends, now);
    if verdict.Undecided? {
      WithinMore(UndecidedOf(rows, stops[..n], ends, now), Span(stops[n].start, verdict.end), t);
    } else if verdict.Tail? {
      WithinMore(TailsOf(rows, stops[..n], ends, now), Span(stops[n].start, verdict.end), t);
    }
  }

  lemma WithinMore(spans: seq<Span>, s: Span, t: real)
    ensures Within(spans + [s], LEADING_EDGE_PAD_S, t)
            <==> Within(spans, LEADING_EDGE_PAD_S, t) || s.start - LEADING_EDGE_PAD_S <= t <= s.end
  {
    var all := spans + [s];
    if s.start - LEADING_EDGE_PAD_S <= t <= s.end { assert all[|spans|] == s; }
    if i :| 0 <= i < |spans| && spans[i].start - LEADING_EDGE_PAD_S <= t <= spans[i].end {
      assert all[i] == spans[i];
    }
  }

  lemma WithinEither(a: seq<Span>, b: seq<Span>, t: real)
    ensures Within(a + b, LEADING_EDGE_PAD_S, t)
            <==> Within(a, LEADING_EDGE_PAD_S, t) || Within(b, LEADING_EDGE_PAD_S, t)
  {
    var all := a + b;
    if i :| 0 <= i < |a| && a[i].start - LEADING_EDGE_PAD_S <= t <= a[i].end { assert all[i] == a[i]; }
    if i :| 0 <= i < |b| && b[i].start - LEADING_EDGE_PAD_S <= t <= b[i].end { assert all[|a| + i] == b[i]; }
  }

  /** Main result: a listed clip of the day is skipped exactly when it lies at home, outside every
      padded drive, and idles at every home stop that had begun by then. */
  lemma SkippedIffIdle(d: Metric, day: Day, t: real)
    requires ListingInOrder(day.rows) && Listed(day.rows, t)
    ensures var home, ends := day.Home(d), day.Ends(d);
            Skips(t, home, day.Drives(d), day.Protected(d))
            <==> && Within(home, LEADING_EDGE_PAD_S, t) && !Within(day.Drives(d), 0.0, t)
                 && forall i :: 0 <= i < |home| && home[i].start - LEADING_EDGE_PAD_S <= t
                      ==> Idle(day.rows, home[i].start, ends, t)
  {
    var home, ends := day.Home(d), day.Ends(d);
    WithinEither(TailsOf(day.rows, home, ends, day.now), UndecidedOf(day.rows, home, ends, day.now), t);
    ProtectedByOne(day.rows, home, ends, day.now, t);
    forall i | 0 <= i < |home| && home[i].start - LEADING_EDGE_PAD_S <= t
      ensures !Protects(day.rows, home[i].start, ends, day.now, t) <==> Idle(day.rows, home[i].start, ends, t)
    {
      UnprotectedIffIdle(day.rows, home[i].start, ends, day.now, t);
    }
  }

  ghost predicate AtHome(d: Metric, zones: seq<R.Zone>, s: S.Stop) {
    exists z :: 0 <= z < |zones| && d(s.center, zones[z].center) <= zones[z].radius
  }

  /** The home stops are exactly those whose centre lies within the radius of a zone. */
  lemma {:induction false} HomeAre(d: Metric, stops: seq<S.Stop>, zones: seq<R.Zone>, h: Span)
    ensures h in HomeOf(d, stops, zones)
            <==> exists k :: 0 <= k < |stops| && AtHome(d, zones, stops[k]) && h == Span(stops[k].start, stops[k].end)
  {
    if stops != [] {
      var n := |stops| - 1;
      HomeAre(d, stops[..n], zones, h);
      forall k | 0 <= k < n ensures stops[..n][k] == stops[k] {}
      assert AtHome(d, zones, stops[n]) <==> R.InZone(d, zones, stops[n].center);
    }
  }

  /** The instant lies in a drive with its padding. */
  ghost predicate Driving(js: seq<J.Journey>, parking: seq<Interval>, t: real) {
    exists i, lo, hi :: && 0 <= i < |js| && R.PadsStart(lo, js[i].start, parking) && R.PadsEnd(hi, js[i].end, parking)
                        && lo <= t <= hi
  }

  lemma DrivesAre(js: seq<J.Journey>, parking: seq<Interval>, t: real)
    ensures Within(PaddedDrives(js, parking), 0.0, t) <==> Driving(js, parking, t)
  {
    hide R.PadsStart, R.PadsEnd, R.PadStart, R.PadEnd;
    var drives := PaddedDrives(js, parking);
    forall i | 0 <= i < |js|
      ensures R.PadsStart(drives[i].start, js[i].start, parking) && R.PadsEnd(drives[i].end, js[i].end, parking)
    {
      R.PadStartIsTight(js[i].start, parking);
      R.PadEndIsTight(js[i].end, parking);
    }
    if i, lo, hi :| && 0 <= i < |js| && R.PadsStart(lo, js[i].start, parking) && R.PadsEnd(hi, js[i].end, parking)
                    && lo <= t <= hi {
      R.PadsAreUnique(lo, drives[i].start, js[i].start, parking);
      R.PadsAreUnique(hi, drives[i].end, js[i].end, parking);
    }
  }

  ghost predicate HomeStopHolds(d: Metric, zones: seq<R.Zone>, stops: seq<S.Stop>, t: real) {
    exists k :: 0 <= k < |stops| && AtHome(d, zones, stops[k])
                && stops[k].start - LEADING_EDGE_PAD_S <= t <= stops[k].end
  }

  ghost predicate IdleAtHome(d: Metric, zones: seq<R.Zone>, stops: seq<S.Stop>, rows: seq<Row>, ends: seq<real>,
                             t: real) {
    forall k :: 0 <= k < |stops| && AtHome(d, zones, stops[k]) && stops[k].start - LEADING_EDGE_PAD_S <= t
      ==> Idle(rows, stops[k].start, ends, t)
  }

  lemma HomeHolds(d: Metric, zones: seq<R.Zone>, stops: seq<S.Stop>, t: real)
    ensures Within(HomeOf(d, stops, zones), LEADING_EDGE_PAD_S, t) <==> HomeStopHolds(d, zones, stops, t)
  {
    hide AtHome, HomeOf;
    var home := HomeOf(d, stops, zones);
    if i :| 0 <= i < |home| && home[i].start - LEADING_EDGE_PAD_S <= t <= home[i].end {
      HomeAre(d, stops, zones, home[i]);
    }
    if k :| 0 <= k < |stops| && AtHome(d, zones, stops[k]) && stops[k].start - LEADING_EDGE_PAD_S <= t <= stops[k].end {
      HomeAre(d, stops, zones, Span(stops[k].start, stops[k].end));
      var i :| 0 <= i < |home| && home[i] == Span(stops[k].start, stops[k].end);
    }
  }

  lemma HomeIdles(d: Metric, zones: seq<R.Zone>, stops: seq<S.Stop>, rows: seq<Row>, ends: seq<real>, t: real)
    ensures var home := HomeOf(d, stops, zones);
            (forall i :: 0 <= i < |home| && home[i].start - LEADING_EDGE_PAD_S <= t ==>
               Idle(rows, home[i].start, ends, t))
            <==> IdleAtHome(d, zones, stops, rows, ends, t)
  {
    hide AtHome, HomeOf, Idle;
    var home := HomeOf(d, stops, zones);
    forall i | 0 <= i < |home| && home[i].start - LEADING_EDGE_PAD_S <= t && IdleAtHome(d, zones, stops, rows, ends, t)
      ensures Idle(rows, home[i].start, ends, t)
    {
      HomeAre(d, stops, zones, home[i]);
    }
    forall k | 0 <= k < |stops| && AtHome(d, zones, stops[k]) && stops[k].start - LEADING_EDGE_PAD_S <= t
      ensures exists i :: 0 <= i < |home| && home[i].start == stops[k].start
    {
      HomeAre(d, stops, zones, Span(stops[k].start, stops[k].end));
      var i :| 0 <= i < |home| && home[i] == Span(stops[k].start, stops[k].end);
    }
  }

  /** The same told by the stops and journeys of the day: a listed clip is skipped exactly when a stop at
      home holds it, no padded drive does, and it idles at every stop at home that had begun by then. */
  lemma SkippedIffIdleAtHome(d: Metric, day: Day, t: real)
    requires ListingInOrder(day.rows) && Listed(day.rows, t)
    ensures var stops, js := J.DayStops(d, day.Found(d)), J.DayJourneys(d, day.Found(d));
            Skips(t, day.Home(d), day.Drives(d), day.Protected(d))
            <==> && HomeStopHolds(d, day.zones, stops, t) && !Driving(js, day.parking, t)
                 && IdleAtHome(d, day.zones, stops, day.rows, EndsOf(js), t)
  {
    hide Idle, HomeOf, PaddedDrives, Driving, Skips, Within, HomeStopHolds, IdleAtHome, EndsOf;
    hide J.DayStops, J.DayJourneys, J.Sessions;
    SkippedIffIdle(d, day, t);
    var stops, js := J.DayStops(d, day.Found(d)), J.DayJourneys(d, day.Found(d));
    DrivesAre(js, day.parking, t);
    HomeHolds(d, day.zones, stops, t);
    HomeIdles(d, day.zones, stops, day.rows, EndsOf(js), t);
  }

  /** Once a home stop is a confirmed tail, no later sweep skips a clip of that tail, as long as
      the stop is still seen there. */
  lemma TailIsNeverSkipped(d: Metric, views: seq<View>, ss: real, e: real, n: nat, day: Day, i: nat, t: real)
    requires n < |views| && ListingInOrder(views[0].rows)
    requires Judge(views[0].rows, ss, views[0].ends, views[0].now) == Tail(e)
    requires forall i, k :: 0 <= i < k < |views| && k == i + 1 ==>
               Later(views[i], views[k], e - NOMINAL_CLIP_S + TAIL_GAP_S, ss + TAIL_CAP_S + TAIL_GAP_S)
    requires views[n] == View(day.rows, day.Ends(d), day.now)
    requires i < |day.Home(d)| && day.Home(d)[i].start == ss
    requires ss - LEADING_EDGE_PAD_S <= t <= e
    ensures !Skips(t, day.Home(d), day.Drives(d), day.Protected(d))
  {
    var home, ends := day.Home(d), day.Ends(d);
    TailStaysForGood(views, ss, e, n);
    assert Protects(day.rows, home[i].start, ends, day.now, t);
    ProtectedByOne(day.rows, home, ends, day.now, t);
    WithinEither(TailsOf(day.rows, home, ends, day.now), UndecidedOf(day.rows, home, ends, day.now), t);
  }
}
