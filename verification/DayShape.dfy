/** What holds of every day's stops and journeys: the journeys come in time order with at
    least five minutes between them, keep clear of the stops, and carry exactly the fixes
    of their own time range. The read-time windows of the archive lean on this. */
module DayShape {
  import opened Basics
  import opened Fixes
  import opened Sorting
  import opened Stops
  import opened Outliers
  import opened Journeys

  /** Stops in time order, each of at least five minutes, within [lo, hi]. */
  ghost predicate StopsFit(stops: seq<Stop>, lo: real, hi: real) {
    && (forall i :: 0 <= i < |stops| ==>
          lo <= stops[i].start && stops[i].end <= hi
          && stops[i].end - stops[i].start >= MIN_STOP_DURATION_S)
    && (forall i, j :: 0 <= i < j < |stops| ==> stops[i].end <= stops[j].start)
  }

  lemma SpanFits(d: Metric, s: seq<Fix>, sp: Span)
    requires InOrder(s) && IsStop(d, s, sp)
    ensures sp.anchor < sp.last < sp.left <= |s|
    ensures Start(s) <= s[sp.anchor].t && s[sp.last].t <= End(s)
    ensures s[sp.last].t - s[sp.anchor].t >= MIN_STOP_DURATION_S
  {
    hide ShortExcursions, AllFar, Near;
  }

  lemma DetectedStopsFit(d: Metric, s: seq<Fix>)
    requires s != [] && InOrder(s)
    ensures StopsFit(StopsOf(d, s, StopSpans(d, s)), Start(s), End(s))
  {
    hide IsStop, StopSpans;
    StopsAreSound(d, s);
    var spans := StopSpans(d, s);
    var stops := StopsOf(d, s, spans);
    forall i | 0 <= i < |stops|
      ensures Start(s) <= stops[i].start && stops[i].end <= End(s)
              && stops[i].end - stops[i].start >= MIN_STOP_DURATION_S
    {
      SpanFits(d, s, spans[i]);
    }
    forall i, j | 0 <= i < j < |stops| ensures stops[i].end <= stops[j].start {
      SpanFits(d, s, spans[i]);
      SpanFits(d, s, spans[j]);
      assert spans[i].left <= spans[j].anchor;
    }
  }

  // ---- Journeys of one session ----

  ghost predicate GapsApart(gaps: seq<Interval>) {
    forall i, j :: 0 <= i < j < |gaps| ==> gaps[i].hi + MIN_STOP_DURATION_S <= gaps[j].lo
  }

  ghost predicate GapsClear(gaps: seq<Interval>, stops: seq<Stop>) {
    forall i, k :: 0 <= i < |gaps| && 0 <= k < |stops|
      ==> stops[k].end <= gaps[i].lo || gaps[i].hi <= stops[k].start
  }

  /** Gap k runs from the end of stop k-1 to the start of stop k. */
  ghost predicate Between(all: seq<Interval>, stops: seq<Stop>) {
    && |all| == |stops| + 1
    && (forall i :: 0 <= i < |stops| ==> all[i].hi == stops[i].start)
    && (forall i, k :: 0 <= i < |stops| && k == i + 1 ==> all[k].lo == stops[i].end)
  }

  lemma GapAt(pts: seq<Fix>, stops: seq<Stop>, k: nat)
    requires pts != [] && k <= |stops|
    ensures |AllGaps(pts, stops)| == |stops| + 1
    ensures k > 0 ==> AllGaps(pts, stops)[k].lo == stops[k - 1].end
    ensures k < |stops| ==> AllGaps(pts, stops)[k].hi == stops[k].start
  {
  }

  lemma AllGapsBetween(pts: seq<Fix>, stops: seq<Stop>)
    requires pts != []
    ensures Between(AllGaps(pts, stops), stops)
  {
    hide AllGaps;
    GapAt(pts, stops, 0);
    var all := AllGaps(pts, stops);
    forall i | 0 <= i < |stops| ensures all[i].hi == stops[i].start {
      GapAt(pts, stops, i);
    }
    forall i, k | 0 <= i < |stops| && k == i + 1 ensures all[k].lo == stops[i].end {
      GapAt(pts, stops, k);
    }
  }

  lemma GapPairApart(all: seq<Interval>, stops: seq<Stop>, lo: real, hi: real, i: nat, j: nat)
    requires Between(all, stops) && StopsFit(stops, lo, hi) && i < j <= |stops|
    ensures all[i].hi + MIN_STOP_DURATION_S <= all[j].lo
  {
    assert all[j].lo == stops[j - 1].end;
    if i < j - 1 { assert stops[i].end <= stops[j - 1].start; }
  }

  lemma GapStopClear(all: seq<Interval>, stops: seq<Stop>, lo: real, hi: real, i: nat, k: nat)
    requires Between(all, stops) && StopsFit(stops, lo, hi) && i <= |stops| && k < |stops|
    ensures stops[k].end <= all[i].lo || all[i].hi <= stops[k].start
  {
    if k < i {
      assert all[i].lo == stops[i - 1].end;
      if k < i - 1 { assert stops[k].end <= stops[i - 1].start; }
    } else {
      assert all[i].hi == stops[i].start;
      if i < k { assert stops[i].end <= stops[k].start; }
    }
  }

  lemma GapsFit(pts: seq<Fix>, stops: seq<Stop>)
    requires pts != [] && StopsFit(stops, Start(pts), End(pts))
    ensures GapsApart(Gaps(pts, stops)) && GapsClear(Gaps(pts, stops), stops)
  {
    hide AllGaps;
    AllGapsBetween(pts, stops);
    var h := if stops != [] && stops[0].start <= pts[0].t then 1 else 0;
    SliceFits(AllGaps(pts, stops), Gaps(pts, stops), h, stops, Start(pts), End(pts));
  }

  lemma SliceFits(all: seq<Interval>, gaps: seq<Interval>, h: nat, stops: seq<Stop>, lo: real, hi: real)
    requires Between(all, stops) && StopsFit(stops, lo, hi)
    requires h + |gaps| <= |all| && gaps == all[h..h + |gaps|]
    ensures GapsApart(gaps) && GapsClear(gaps, stops)
  {
    forall i, j | 0 <= i < j < |gaps| ensures gaps[i].hi + MIN_STOP_DURATION_S <= gaps[j].lo {
      GapPairApart(all, stops, lo, hi, h + i, h + j);
    }
    forall i, k | 0 <= i < |gaps| && 0 <= k < |stops|
      ensures stops[k].end <= gaps[i].lo || gaps[i].hi <= stops[k].start
    {
      GapStopClear(all, stops, lo, hi, h + i, k);
    }
  }

  /** Nothing is lost: every instant of a session lies in a stop or in a gap to carve. */
  lemma StopsAndGapsCover(pts: seq<Fix>, stops: seq<Stop>, t: real)
    requires pts != [] && StopsFit(stops, Start(pts), End(pts)) && Start(pts) <= t <= End(pts)
    ensures (exists k :: 0 <= k < |stops| && stops[k].start <= t <= stops[k].end)
         || (exists i :: 0 <= i < |Gaps(pts, stops)| && Gaps(pts, stops)[i].lo <= t <= Gaps(pts, stops)[i].hi)
  {
    hide AllGaps, Gaps;
    AllGapsBetween(pts, stops);
    EndsAreCarved(pts, stops);
    var all, gaps := AllGaps(pts, stops), Gaps(pts, stops);
    if stops == [] {
      assert gaps[0] == Interval(Start(pts), End(pts));
    } else if forall k :: 0 <= k < |stops| ==> !(stops[k].start <= t <= stops[k].end) {
      var k := 0;
      while k < |stops| && stops[k].end < t
        invariant k <= |stops| && (k > 0 ==> stops[k - 1].end < t)
      {
        k := k + 1;
      }
      if k < |stops| { assert t < stops[k].start; }
      var h := if stops[0].start > pts[0].t then 0 else 1;
      assert gaps[k - h] == all[k];
    }
  }

  /** Only an empty first or last gap is not carved. */
  lemma EndsAreCarved(pts: seq<Fix>, stops: seq<Stop>)
    requires pts != []
    ensures stops == [] ==> Gaps(pts, stops) == [Interval(Start(pts), End(pts))]
    ensures stops != [] ==>
              var all, n := AllGaps(pts, stops), |stops|;
              var h, e := if stops[0].start > pts[0].t then 0 else 1, if stops[n - 1].end < End(pts) then n + 1 else n;
              && all[0] == Interval(Start(pts), stops[0].start) && all[n] == Interval(stops[n - 1].end, End(pts))
              && Gaps(pts, stops) == all[h..e]
  {
    hide AllGaps;
    if stops == [] { WholeGap(pts); } else { EndGaps(pts, stops); }
  }

  /** A journey carries exactly the fixes of its time range and is worth showing. */
  ghost predicate IsJourney(d: Metric, pts: seq<Fix>, j: Journey) {
    && |j.track| >= 2
    && j.start == j.track[0].t && j.end == j.track[|j.track| - 1].t && j.start <= j.end
    && j.from == j.track[0].at && j.to == j.track[|j.track| - 1].at
    && j.track == InWindow(pts, j.start, j.end)
    && j.distance == Length(d, j.track) && j.distance >= MIN_JOURNEY_DISTANCE_M
  }

  lemma JourneyInGap(d: Metric, pts: seq<Fix>, gap: Interval)
    requires InOrder(pts) && JourneyIn(d, pts, gap).Some?
    ensures var j := JourneyIn(d, pts, gap).value;
            IsJourney(d, pts, j) && gap.lo <= j.start && j.end <= gap.hi
  {
    WindowOfOwnRange(pts, gap.lo, gap.hi);
  }

  ghost predicate JourneysApart(js: seq<Journey>) {
    forall i, k :: 0 <= i < k < |js| ==> js[i].end + MIN_STOP_DURATION_S <= js[k].start
  }

  ghost predicate Clear(js: seq<Journey>, stops: seq<Stop>) {
    forall i, k :: 0 <= i < |js| && 0 <= k < |stops|
      ==> stops[k].end <= js[i].start || js[i].end <= stops[k].start
  }

  ghost predicate AllJourneys(d: Metric, pts: seq<Fix>, js: seq<Journey>) {
    forall i :: 0 <= i < |js| ==> IsJourney(d, pts, js[i])
  }

  /** Each carved journey comes from a gap of its own, in the order of the gaps. */
  lemma {:induction false} CarveOrigins(d: Metric, pts: seq<Fix>, gaps: seq<Interval>)
    returns (origin: seq<nat>)
    ensures var js := Carve(d, pts, gaps);
            && |origin| == |js|
            && (forall i, k :: 0 <= i < k < |origin| ==> origin[i] < origin[k])
            && forall i :: 0 <= i < |origin| ==>
                 origin[i] < |gaps| && JourneyIn(d, pts, gaps[origin[i]]) == Some(js[i])
  {
    if gaps == [] {
      origin := [];
    } else {
      var n := |gaps| - 1;
      var init := CarveOrigins(d, pts, gaps[..n]);
      var j := JourneyIn(d, pts, gaps[n]);
      if j.None? {
        origin := init;
        assert Carve(d, pts, gaps) == Carve(d, pts, gaps[..n]);
      } else {
        origin := init + [n];
        assert Carve(d, pts, gaps) == Carve(d, pts, gaps[..n]) + [j.value];
      }
    }
  }

  /** No journey ends within five minutes of a stop's start, except exactly at it. */
  ghost predicate EndsExactly(js: seq<Journey>, stops: seq<Stop>) {
    forall i, k :: 0 <= i < |js| && 0 <= k < |stops| ==> NearIsExact(js[i].end, stops[k].start)
  }

  ghost predicate NearIsExact(end: real, start: real) {
    -MIN_STOP_DURATION_S < start - end < MIN_STOP_DURATION_S ==> start == end
  }

  /** Every stop starts at a fix of the track. */
  ghost predicate StartAtFixes(pts: seq<Fix>, stops: seq<Stop>) {
    forall k :: 0 <= k < |stops| ==> exists a :: 0 <= a < |pts| && pts[a].t == stops[k].start
  }

  lemma DetectedStartAtFixes(d: Metric, s: seq<Fix>)
    ensures StartAtFixes(s, StopsOf(d, s, StopSpans(d, s)))
  {
    var spans := StopSpans(d, s);
    var stops := StopsOf(d, s, spans);
    forall k | 0 <= k < |stops| ensures exists a :: 0 <= a < |s| && s[a].t == stops[k].start {
      assert s[spans[k].anchor].t == stops[k].start;
    }
  }

  /** A journey before a stop carries the stop's first fix: it ends where the stop starts. */
  lemma EndsWhereTheStopStarts(d: Metric, pts: seq<Fix>, gap: Interval, a: nat)
    requires InOrder(pts) && JourneyIn(d, pts, gap).Some? && a < |pts| && pts[a].t == gap.hi
    ensures JourneyIn(d, pts, gap).value.end == gap.hi
  {
    var from, to := WindowIsSlice(pts, gap.lo, gap.hi);
    var track := InWindow(pts, gap.lo, gap.hi);
    assert track[0] == pts[from] && track[|track| - 1] == pts[to - 1];
    assert gap.lo <= pts[from].t && pts[to - 1].t <= gap.hi;
    assert from <= a <= to - 1 && pts[a].t <= pts[to - 1].t;
  }

  lemma JourneyMeetsStop(d: Metric, pts: seq<Fix>, stops: seq<Stop>, m: nat, k: nat)
    requires pts != [] && InOrder(pts) && StopsFit(stops, Start(pts), End(pts)) && StartAtFixes(pts, stops)
    requires m <= |stops| && k < |stops| && JourneyIn(d, pts, AllGaps(pts, stops)[m]).Some?
    ensures NearIsExact(JourneyIn(d, pts, AllGaps(pts, stops)[m]).value.end, stops[k].start)
  {
    hide AllGaps, JourneyIn;
    AllGapsBetween(pts, stops);
    var all := AllGaps(pts, stops);
    JourneyInGap(d, pts, all[m]);
    GapStopClear(all, stops, Start(pts), End(pts), m, k);
    if k < m {
      assert all[m].lo == stops[m - 1].end;
      if k < m - 1 { assert stops[k].end <= stops[m - 1].start; }
    } else {
      var a :| 0 <= a < |pts| && pts[a].t == stops[m].start;
      EndsWhereTheStopStarts(d, pts, all[m], a);
      if m < k { assert stops[m].end <= stops[k].start; }
    }
  }

  lemma CarvedEndExactly(d: Metric, pts: seq<Fix>, stops: seq<Stop>)
    requires pts != [] && InOrder(pts) && StopsFit(stops, Start(pts), End(pts)) && StartAtFixes(pts, stops)
    ensures EndsExactly(Carve(d, pts, Gaps(pts, stops)), stops)
  {
    hide AllGaps, Gaps, JourneyIn, StartAtFixes;
    var gaps := Gaps(pts, stops);
    var js := Carve(d, pts, gaps);
    var origin := CarveOrigins(d, pts, gaps);
    EndsAreCarved(pts, stops);
    var h := if stops != [] && stops[0].start <= pts[0].t then 1 else 0;
    forall i, k | 0 <= i < |js| && 0 <= k < |stops| ensures NearIsExact(js[i].end, stops[k].start) {
      assert gaps[origin[i]] == AllGaps(pts, stops)[h + origin[i]];
      JourneyMeetsStop(d, pts, stops, h + origin[i], k);
    }
  }

  lemma CarvedFit(d: Metric, pts: seq<Fix>, gaps: seq<Interval>, stops: seq<Stop>)
    requires InOrder(pts) && GapsApart(gaps) && GapsClear(gaps, stops)
    ensures var js := Carve(d, pts, gaps);
            AllJourneys(d, pts, js) && JourneysApart(js) && Clear(js, stops)
  {
    var origin := CarveOrigins(d, pts, gaps);
    var js := Carve(d, pts, gaps);
    forall i | 0 <= i < |js|
      ensures IsJourney(d, pts, js[i]) && gaps[origin[i]].lo <= js[i].start && js[i].end <= gaps[origin[i]].hi
    {
      JourneyInGap(d, pts, gaps[origin[i]]);
    }
  }

  // ---- Journeys of a day ----

  /** Stops one after the other. */
  ghost predicate InTurn(stops: seq<Stop>) {
    forall i, k :: 0 <= i < k < |stops| ==> stops[i].end <= stops[k].start
  }

  /** The shape of a session, or of several: everything holds up to the instant `hi`. */
  ghost predicate Shape(d: Metric, pts: seq<Fix>, stops: seq<Stop>, js: seq<Journey>, lo: real, hi: real) {
    && AllJourneys(d, pts, js) && JourneysApart(js) && Clear(js, stops)
    && EndsExactly(js, stops) && InTurn(stops)
    && (forall i :: 0 <= i < |js| ==> lo <= js[i].start <= js[i].end <= hi)
    && (forall k :: 0 <= k < |stops| ==> lo <= stops[k].start <= stops[k].end <= hi)
  }

  lemma JourneysWithin(d: Metric, pts: seq<Fix>, js: seq<Journey>)
    requires pts != [] && InOrder(pts) && AllJourneys(d, pts, js)
    ensures forall i :: 0 <= i < |js| ==> Start(pts) <= js[i].start <= js[i].end <= End(pts)
  {
    forall i | 0 <= i < |js| ensures Start(pts) <= js[i].start <= js[i].end <= End(pts) {
      assert IsJourney(d, pts, js[i]);
      var a, b := WindowIsSlice(pts, js[i].start, js[i].end);
      assert js[i].start == pts[a].t && js[i].end == pts[b - 1].t;
    }
  }

  lemma MovingSession(d: Metric, s: seq<Fix>)
    requires s != [] && InOrder(s) && !IsStationary(d, s)
    ensures Shape(d, s, SessionStops(d, s), SessionJourneys(d, s), Start(s), End(s))
  {
    var stops := StopsOf(d, s, StopSpans(d, s));
    DetectedStopsFit(d, s);
    GapsFit(s, stops);
    CarvedFit(d, s, Gaps(s, stops), stops);
    DetectedStartAtFixes(d, s);
    CarvedEndExactly(d, s, stops);
    JourneysWithin(d, s, SessionJourneys(d, s));
  }

  lemma SessionShape(d: Metric, s: seq<Fix>)
    requires s != [] && InOrder(s)
    ensures Shape(d, s, SessionStops(d, s), SessionJourneys(d, s), Start(s), End(s))
  {
    if !IsStationary(d, s) { MovingSession(d, s); }
  }

  lemma {:induction false} FlattenBounds(ss: seq<seq<Fix>>)
    requires Separated(ss) && ss != []
    ensures forall i :: 0 <= i < |Flatten(ss)| ==> Start(ss[0]) <= Flatten(ss)[i].t <= End(ss[|ss| - 1])
  {
    var init, s := ss[..|ss| - 1], ss[|ss| - 1];
    if init == [] {
      assert Flatten(init) == [];
    } else {
      FlattenBounds(init);
      assert Start(s) - End(ss[|ss| - 2]) > SESSION_GAP_SECONDS;
      assert Start(s) - End(ss[0]) > SESSION_GAP_SECONDS;
    }
  }

  lemma JourneyLifts(d: Metric, before: seq<Fix>, pts: seq<Fix>, after: seq<Fix>, j: Journey)
    requires IsJourney(d, pts, j)
    requires forall i :: 0 <= i < |before| ==> before[i].t < j.start
    requires forall i :: 0 <= i < |after| ==> j.end < after[i].t
    ensures IsJourney(d, before + pts + after, j)
  {
    InWindowConcat(before, pts, j.start, j.end);
    InWindowConcat(before + pts, after, j.start, j.end);
    InWindowNone(before, j.start, j.end);
    InWindowNone(after, j.start, j.end);
  }

  lemma EndsJoin(ja: seq<Journey>, sa: seq<Stop>, jb: seq<Journey>, sb: seq<Stop>, mid: real, next: real)
    requires EndsExactly(ja, sa) && EndsExactly(jb, sb) && InTurn(sa) && InTurn(sb)
    requires mid + MIN_STOP_DURATION_S <= next
    requires forall i :: 0 <= i < |ja| ==> ja[i].end <= mid
    requires forall i :: 0 <= i < |jb| ==> next <= jb[i].start <= jb[i].end
    requires forall k :: 0 <= k < |sa| ==> sa[k].start <= sa[k].end <= mid
    requires forall k :: 0 <= k < |sb| ==> next <= sb[k].start
    ensures EndsExactly(ja + jb, sa + sb) && InTurn(sa + sb)
  {
  }

  lemma ShapesJoin(d: Metric, a: seq<Fix>, sa: seq<Stop>, ja: seq<Journey>, lo: real, mid: real,
                   b: seq<Fix>, sb: seq<Stop>, jb: seq<Journey>, next: real, hi: real)
    requires Shape(d, a, sa, ja, lo, mid) && Shape(d, b, sb, jb, next, hi)
    requires lo <= mid && mid + MIN_STOP_DURATION_S <= next && next <= hi
    requires forall i :: 0 <= i < |a| ==> a[i].t <= mid
    requires forall i :: 0 <= i < |b| ==> next <= b[i].t
    ensures Shape(d, a + b, sa + sb, ja + jb, lo, hi)
  {
    hide IsJourney, EndsExactly, InTurn;
    EndsJoin(ja, sa, jb, sb, mid, next);
    var js := ja + jb;
    forall i | 0 <= i < |js| ensures IsJourney(d, a + b, js[i]) {
      if i < |ja| {
        JourneyLifts(d, [], a, b, ja[i]);
        assert [] + a + b == a + b;
      } else {
        JourneyLifts(d, a, b, [], jb[i - |ja|]);
        assert a + b + [] == a + b;
      }
    }
    assert Clear(js, sa + sb) by {
      forall i, k | 0 <= i < |js| && 0 <= k < |sa + sb|
        ensures (sa + sb)[k].end <= js[i].start || js[i].end <= (sa + sb)[k].start {
      }
    }
  }

  lemma LastSession(d: Metric, ss: seq<seq<Fix>>)
    requires ss != [] && forall k :: 0 <= k < |ss| ==> ss[k] != []
    ensures var init, s := ss[..|ss| - 1], ss[|ss| - 1];
            && Flatten(ss) == Flatten(init) + s
            && DayStops(d, ss) == DayStops(d, init) + SessionStops(d, s)
            && DayJourneys(d, ss) == DayJourneys(d, init) + SessionJourneys(d, s)
            && (init == [] ==> Flatten(ss) == s && DayStops(d, ss) == SessionStops(d, s)
                               && DayJourneys(d, ss) == SessionJourneys(d, s))
  {
    hide SessionStops, SessionJourneys;
  }

  lemma {:induction false} DayHasShape(d: Metric, ss: seq<seq<Fix>>)
    requires Separated(ss) && ss != []
    ensures Shape(d, Flatten(ss), DayStops(d, ss), DayJourneys(d, ss), Start(ss[0]), End(ss[|ss| - 1]))
  {
    hide Shape, SessionStops, SessionJourneys, DayStops, DayJourneys, Flatten;
    var init, s := ss[..|ss| - 1], ss[|ss| - 1];
    LastSession(d, ss);
    SessionShape(d, s);
    if init != [] {
      DayHasShape(d, init);
      FlattenBounds(init);
      assert Start(s) - End(ss[|ss| - 2]) > SESSION_GAP_SECONDS;
      assert Start(ss[0]) <= End(ss[|ss| - 2]);
      ShapesJoin(d, Flatten(init), DayStops(d, init), DayJourneys(d, init), Start(ss[0]), End(ss[|ss| - 2]),
                 s, SessionStops(d, s), SessionJourneys(d, s), Start(s), End(s));
    }
  }

  /** Merging a day's fixes puts them in time order and invents none. */
  lemma MergedInOrder(d: Metric, fixes: seq<Fix>)
    ensures InOrder(Merged(d, fixes))
    ensures forall p :: p in Merged(d, fixes) ==> p in fixes
  {
    var sorted := SortBy(fixes, Instant);
    SortByMembers(fixes, Instant);
    forall i, j | 0 <= i < j < |sorted| ensures sorted[i].t <= sorted[j].t {
      SortByCorrect(fixes, Instant, 0.0);
      assert Instant(sorted[i]) <= Instant(sorted[j]);
    }
    FilteredInOrder(d, sorted);
    var index := FilteredIsSubsequence(d, sorted);
  }

  /** The merged fixes are those of the sorted day that pass the filter, each in its place. */
  lemma MergedAreKept(d: Metric, fixes: seq<Fix>) returns (sorted: seq<Fix>, index: seq<nat>)
    ensures InOrder(sorted) && multiset(sorted) == multiset(fixes)
    ensures Picks(Merged(d, fixes), sorted, index)
    ensures forall i :: 0 <= i < |sorted| ==> (i in index <==> |sorted| < 3 || Keeps(d, sorted, i))
  {
    sorted := SortBy(fixes, Instant);
    SortByCorrect(fixes, Instant, 0.0);
    forall i, j | 0 <= i < j < |sorted| ensures sorted[i].t <= sorted[j].t {
      assert Instant(sorted[i]) <= Instant(sorted[j]);
    }
    index := FilteredIsSubsequence(d, sorted);
  }

  /** Main result: whatever fixes a day brings, in whatever order, its journeys come in time
      order with at least five minutes between one and the next, never overlap a stop, and
      carry exactly the merged fixes of their own time range; its stops come one after the
      other; and a stop that starts within five minutes of a journey's end starts exactly there. */
  lemma EveryDayHasShape(d: Metric, fixes: seq<Fix>)
    ensures var pts := Merged(d, fixes);
            var ss := Sessions(pts, SESSION_GAP_SECONDS);
            && InOrder(pts)
            && AllJourneys(d, pts, DayJourneys(d, ss))
            && JourneysApart(DayJourneys(d, ss))
            && Clear(DayJourneys(d, ss), DayStops(d, ss))
            && EndsExactly(DayJourneys(d, ss), DayStops(d, ss))
            && InTurn(DayStops(d, ss))
            && forall k :: 0 <= k < |DayStops(d, ss)| ==> DayStops(d, ss)[k].start <= DayStops(d, ss)[k].end
  {
    var pts := Merged(d, fixes);
    MergedInOrder(d, fixes);
    var ss := Sessions(pts, SESSION_GAP_SECONDS);
    if pts != [] {
      SessionsKeepAll(pts, SESSION_GAP_SECONDS);
      SessionsAreSeparated(pts);
      DayHasShape(d, ss);
    }
  }

  // ---- Every stop and every drive is there ----

  ghost predicate NeverLeaves(d: Metric, s: seq<Fix>) {
    forall i :: 0 <= i < |s| ==> d(s[0].at, s[i].at) <= STOP_RADIUS_M
  }

  ghost predicate IsStopAt(d: Metric, s: seq<Fix>, sp: Span, stop: Stop)
    requires sp.anchor < |s| && sp.last < |s|
  {
    var counted := Gathered(d, s, sp.anchor, sp.last + 1);
    && stop.start == s[sp.anchor].t && stop.end == s[sp.last].t
    && stop.center == Center(counted) && stop.pointCount == |counted|
  }

  /** A stop a session gives: all of it when it never leaves the radius of its first fix, and
      otherwise one the detector finds. */
  ghost predicate StopOfSession(d: Metric, s: seq<Fix>, stop: Stop)
    requires s != []
  {
    if NeverLeaves(d, s) then stop == Stop(s[0].t, s[|s| - 1].t, Center(s), |s|)
    else exists i :: 0 <= i < |StopSpans(d, s)| && IsStopAt(d, s, StopSpans(d, s)[i], stop)
  }

  /** The time between two stops, or before the first or after the last one if there is any. */
  ghost predicate IsGap(pts: seq<Fix>, stops: seq<Stop>, gap: Interval)
    requires pts != []
  {
    if stops == [] then gap == Interval(pts[0].t, pts[|pts| - 1].t)
    else
      || (gap.lo == pts[0].t < stops[0].start && gap.hi == stops[0].start)
      || (gap.lo == stops[|stops| - 1].end < pts[|pts| - 1].t && gap.hi == pts[|pts| - 1].t)
      || exists i, k :: 0 <= i < |stops| && k == i + 1 && k < |stops|
                        && gap.lo == stops[i].end && gap.hi == stops[k].start
  }

  /** The drive made of the fixes of a gap: two at least, over at least 200 metres. */
  ghost predicate IsDriveIn(d: Metric, pts: seq<Fix>, gap: Interval, j: Journey) {
    var track := InWindow(pts, gap.lo, gap.hi);
    && |track| >= 2 && Length(d, track) >= MIN_JOURNEY_DISTANCE_M && j.track == track && j.distance == Length(d, track)
    && j.start == track[0].t && j.end == track[|track| - 1].t
    && j.from == track[0].at && j.to == track[|track| - 1].at
  }

  /** A journey a session gives: the drive of any gap that has one. */
  ghost predicate JourneyOfSession(d: Metric, s: seq<Fix>, j: Journey)
    requires s != []
  {
    && !NeverLeaves(d, s)
    && exists gap :: IsGap(s, StopsOf(d, s, StopSpans(d, s)), gap) && IsDriveIn(d, s, gap, j)
  }

  lemma GapsAre(pts: seq<Fix>, stops: seq<Stop>, gap: Interval)
    requires pts != []
    ensures gap in Gaps(pts, stops) <==> IsGap(pts, stops, gap)
  {
    hide AllGaps, Gaps;
    EndsAreCarved(pts, stops);
    var all, gaps, n := AllGaps(pts, stops), Gaps(pts, stops), |stops|;
    AllGapsBetween(pts, stops);
    if n > 0 {
      var h := if stops[0].start > pts[0].t then 0 else 1;
      var e := if stops[n - 1].end < End(pts) then n + 1 else n;
      if gap in gaps {
        var m :| 0 <= m < |gaps| && gaps[m] == gap;
        assert gap == all[h + m];
        if 0 < h + m < n { assert gap.lo == stops[h + m - 1].end && gap.hi == stops[h + m].start; }
      }
      if gap.lo == pts[0].t < stops[0].start && gap.hi == stops[0].start { assert gaps[0] == gap; }
      if gap.lo == stops[n - 1].end < pts[|pts| - 1].t && gap.hi == pts[|pts| - 1].t { assert gaps[n - h] == gap; }
      if i, k :| 0 <= i < n && k == i + 1 && k < n && gap.lo == stops[i].end && gap.hi == stops[k].start {
        assert gaps[k - h] == all[k] == gap;
      }
    }
  }

  lemma {:induction false} CarvedAre(d: Metric, pts: seq<Fix>, gaps: seq<Interval>, j: Journey)
    ensures j in Carve(d, pts, gaps) <==> exists i :: 0 <= i < |gaps| && IsDriveIn(d, pts, gaps[i], j)
  {
    hide IsDriveIn;
    if gaps != [] {
      var n := |gaps| - 1;
      CarvedAre(d, pts, gaps[..n], j);
      DriveIsJourney(d, pts, gaps[n], j);
      forall i | 0 <= i < n ensures gaps[..n][i] == gaps[i] {}
    }
  }

  lemma DriveIsJourney(d: Metric, pts: seq<Fix>, gap: Interval, j: Journey)
    ensures IsDriveIn(d, pts, gap, j) <==> JourneyIn(d, pts, gap) == Some(j)
  {
  }

  lemma StillIsNeverLeaving(d: Metric, s: seq<Fix>)
    requires s != []
    ensures IsStationary(d, s) <==> NeverLeaves(d, s)
  {
    assert d(s[0].at, s[0].at) == 0.0;
    if IsStationary(d, s) {
      forall i | 0 <= i < |s| ensures d(s[0].at, s[i].at) <= STOP_RADIUS_M {
        if i > 0 { assert Near(d, s, 0, i); }
      }
    }
  }

  lemma FirstIsCounted(d: Metric, s: seq<Fix>, sp: Span)
    requires IsStop(d, s, sp)
    ensures Gathered(d, s, sp.anchor, sp.last + 1) != []
  {
    hide IsStop, ShortExcursions, AllFar;
    SpanIsForward(d, s, sp);
    CountedAreNear(d, s, sp.anchor, sp.last + 1, s[sp.anchor]);
    assert d(s[sp.anchor].at, s[sp.anchor].at) == 0.0;
    assert NearAnchor(d, s, sp.anchor, sp.last + 1, s[sp.anchor]);
  }

  lemma SpanIsForward(d: Metric, s: seq<Fix>, sp: Span)
    requires IsStop(d, s, sp)
    ensures sp.anchor < sp.last < |s|
  {
    hide ShortExcursions, AllFar, Near;
  }

  lemma SessionStopsAre(d: Metric, s: seq<Fix>, stop: Stop)
    requires s != [] && InOrder(s)
    ensures stop in SessionStops(d, s) <==> StopOfSession(d, s, stop)
  {
    hide StopSpans, Gathered, Center, IsStop, NeverLeaves, IsStationary;
    StillIsNeverLeaving(d, s);
    if !NeverLeaves(d, s) {
      StopsAreSound(d, s);
      var spans := StopSpans(d, s);
      forall i | 0 <= i < |spans| ensures IsStopAt(d, s, spans[i], stop) <==> StopOf(d, s, spans[i]) == stop {
        FirstIsCounted(d, s, spans[i]);
      }
      var stops := StopsOf(d, s, spans);
      assert forall i :: 0 <= i < |spans| ==> stops[i] == StopOf(d, s, spans[i]);
    }
  }

  lemma SessionJourneysAre(d: Metric, s: seq<Fix>, j: Journey)
    requires s != []
    ensures j in SessionJourneys(d, s) <==> JourneyOfSession(d, s, j)
  {
    hide StopSpans, StopsOf, NeverLeaves, IsStationary, IsGap, IsDriveIn, Gaps, Carve;
    StillIsNeverLeaving(d, s);
    if !NeverLeaves(d, s) {
      LeavingTakesTwo(d, s);
      var stops := StopsOf(d, s, StopSpans(d, s));
      var gaps := Gaps(s, stops);
      CarvedAre(d, s, gaps, j);
      forall gap ensures gap in gaps <==> IsGap(s, stops, gap) { GapsAre(s, stops, gap); }
      if i :| 0 <= i < |gaps| && IsDriveIn(d, s, gaps[i], j) { assert gaps[i] in gaps; }
      if gap :| IsGap(s, stops, gap) && IsDriveIn(d, s, gap, j) {
        var i :| 0 <= i < |gaps| && gaps[i] == gap;
      }
    }
  }

  lemma LeavingTakesTwo(d: Metric, s: seq<Fix>)
    requires s != [] && !NeverLeaves(d, s)
    ensures |s| >= 2
  {
    assert d(s[0].at, s[0].at) == 0.0;
  }

  lemma {:induction false} DayStopsAre(d: Metric, ss: seq<seq<Fix>>, stop: Stop)
    requires forall k :: 0 <= k < |ss| ==> ss[k] != []
    ensures stop in DayStops(d, ss) <==> exists k :: 0 <= k < |ss| && stop in SessionStops(d, ss[k])
  {
    hide SessionStops;
    if ss != [] {
      var n := |ss| - 1;
      DayStopsAre(d, ss[..n], stop);
      forall k | 0 <= k < n ensures ss[..n][k] == ss[k] {}
    }
  }

  lemma {:induction false} DayJourneysAre(d: Metric, ss: seq<seq<Fix>>, j: Journey)
    ensures j in DayJourneys(d, ss) <==> exists k :: 0 <= k < |ss| && j in SessionJourneys(d, ss[k])
  {
    hide SessionJourneys;
    if ss != [] {
      var n := |ss| - 1;
      DayJourneysAre(d, ss[..n], j);
      forall k | 0 <= k < n ensures ss[..n][k] == ss[k] {}
    }
  }

  /** Main result: the stops of a day are exactly those of its sessions, and its journeys exactly the
      drives of at least 200 metres in the gaps between them. */
  lemma EveryStopAndDriveIsThere(d: Metric, fixes: seq<Fix>, stop: Stop, j: Journey)
    ensures var ss := Sessions(Merged(d, fixes), SESSION_GAP_SECONDS);
            && (stop in DayStops(d, ss) <==> exists k :: 0 <= k < |ss| && StopOfSession(d, ss[k], stop))
            && (j in DayJourneys(d, ss) <==> exists k :: 0 <= k < |ss| && JourneyOfSession(d, ss[k], j))
  {
    hide Merged, SessionStops, SessionJourneys, DayStops, DayJourneys, StopOfSession, JourneyOfSession;
    MergedInOrder(d, fixes);
    SessionsAreSeparated(Merged(d, fixes));
    var ss := Sessions(Merged(d, fixes), SESSION_GAP_SECONDS);
    DayStopsAre(d, ss, stop);
    DayJourneysAre(d, ss, j);
    forall k | 0 <= k < |ss|
      ensures stop in SessionStops(d, ss[k]) <==> StopOfSession(d, ss[k], stop)
      ensures j in SessionJourneys(d, ss[k]) <==> JourneyOfSession(d, ss[k], j)
    {
      SessionStopsAre(d, ss[k], stop);
      SessionJourneysAre(d, ss[k], j);
    }
  }
}
