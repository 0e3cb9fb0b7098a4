/** The stop detector of web/services/gps.py: where the car stood still, and for how long. */
module Stops {
  import opened Basics
  import opened Fixes

  const STOP_RADIUS_M := 50.0
  const MIN_STOP_DURATION_S := 300.0
  const MIN_DEPARTURE_DURATION_S := 60.0

  datatype Stop = Stop(start: real, end: real, center: Place, pointCount: nat)

  /** A stop told by indices into the track: the fix it gathers around, the last fix
      inside the radius, and the fix that proves the departure (the track's length when
      the track ends first). */
  datatype Span = Span(anchor: nat, last: nat, left: nat)

  /** Where the detector is after some fixes. */
  datatype Phase =
    | Idle
    | Moving(anchor: nat)
    | Parked(anchor: nat, last: nat, departed: Option<nat>)

  datatype Scan = Scan(phase: Phase, spans: seq<Span>)

  predicate Near(d: Metric, pts: seq<Fix>, anchor: nat, i: nat)
    requires anchor < |pts| && i < |pts|
  {
    d(pts[anchor].at, pts[i].at) <= STOP_RADIUS_M
  }

  ghost predicate Within(s: Scan, n: nat) {
    && (match s.phase
        case Idle => true
        case Moving(a) => a < n
        case Parked(a, l, q) => a < n && l < n && (q.Some? ==> q.value < n))
    && forall i :: 0 <= i < |s.spans| ==> s.spans[i].anchor < n && s.spans[i].last < n
  }

  function Step(d: Metric, pts: seq<Fix>, i: nat, s: Scan): (r: Scan)
    requires i < |pts| && Within(s, i)
    ensures Within(r, i + 1)
  {
    match s.phase
    case Idle => Scan(Moving(i), s.spans)
    case Moving(a) =>
      if !Near(d, pts, a, i) then Scan(Moving(i), s.spans)
      else if pts[i].t - pts[a].t >= MIN_STOP_DURATION_S then Scan(Parked(a, i, None), s.spans)
      else s
    case Parked(a, l, departed) =>
      if Near(d, pts, a, i) then Scan(Parked(a, i, None), s.spans)
      else
        var q := if departed.Some? then departed.value else i;
        if pts[i].t - pts[q].t >= MIN_DEPARTURE_DURATION_S
        then Scan(Moving(i), s.spans + [Span(a, l, i)])
        else Scan(Parked(a, l, Some(q)), s.spans)
  }

  function ScanTo(d: Metric, pts: seq<Fix>, n: nat): (r: Scan)
    requires n <= |pts|
    ensures Within(r, n)
  {
    if n == 0 then Scan(Idle, []) else Step(d, pts, n - 1, ScanTo(d, pts, n - 1))
  }

  ghost predicate InTrack(pts: seq<Fix>, spans: seq<Span>) {
    forall i :: 0 <= i < |spans| ==> spans[i].anchor < |pts| && spans[i].last < |pts|
  }

  /** The stops of a track, by index. */
  function StopSpans(d: Metric, pts: seq<Fix>): (spans: seq<Span>)
    ensures InTrack(pts, spans)
  {
    var s := ScanTo(d, pts, |pts|);
    if s.phase.Parked? then s.spans + [Span(s.phase.anchor, s.phase.last, |pts|)] else s.spans
  }

  /** The fixes of pts[anchor..upTo] inside the anchor's radius. */
  function Gathered(d: Metric, pts: seq<Fix>, anchor: nat, upTo: nat): seq<Fix>
    requires anchor < |pts| && upTo <= |pts|
  {
    if upTo <= anchor then []
    else Gathered(d, pts, anchor, upTo - 1)
         + (if Near(d, pts, anchor, upTo - 1) then [pts[upTo - 1]] else [])
  }

  function SumLat(pts: seq<Fix>): real {
    if pts == [] then 0.0 else SumLat(pts[..|pts| - 1]) + pts[|pts| - 1].at.lat
  }

  function SumLon(pts: seq<Fix>): real {
    if pts == [] then 0.0 else SumLon(pts[..|pts| - 1]) + pts[|pts| - 1].at.lon
  }

  function Center(pts: seq<Fix>): Place {
    var n := if pts == [] then 1 else |pts|;
    Place(SumLat(pts) / n as real, SumLon(pts) / n as real)
  }

  function StopOf(d: Metric, pts: seq<Fix>, span: Span): Stop
    requires span.anchor < |pts| && span.last < |pts|
  {
    var gathered := Gathered(d, pts, span.anchor, span.last + 1);
    Stop(pts[span.anchor].t, pts[span.last].t, Center(gathered),
         if gathered == [] then 1 else |gathered|)
  }

  function StopsOf(d: Metric, pts: seq<Fix>, spans: seq<Span>): seq<Stop>
    requires InTrack(pts, spans)
  {
    seq(|spans|, i requires 0 <= i < |spans| => StopOf(d, pts, spans[i]))
  }

  // ---- What a detected stop is ----

  /** Every fix of pts[j..k+1] lies outside the anchor's radius. */
  ghost predicate AllFar(d: Metric, pts: seq<Fix>, anchor: nat, j: nat, k: nat)
    requires anchor < |pts| && k < |pts|
  {
    forall i :: j <= i <= k ==> !Near(d, pts, anchor, i)
  }

  /** No excursion out of the radius between two indices lasts a minute. */
  ghost predicate ShortExcursions(d: Metric, pts: seq<Fix>, anchor: nat, from: nat, to: nat)
    requires anchor < |pts| && to < |pts|
  {
    forall j, k :: from <= j <= k <= to && AllFar(d, pts, anchor, j, k)
      ==> pts[k].t - pts[j].t < MIN_DEPARTURE_DURATION_S
  }

  /** A stop lasts five minutes, ends inside the radius, has no excursion of a minute, and
      ends for the first minute spent outside or for the end of the track. */
  ghost predicate IsStop(d: Metric, pts: seq<Fix>, sp: Span) {
    && sp.anchor < sp.last < sp.left <= |pts|
    && pts[sp.last].t - pts[sp.anchor].t >= MIN_STOP_DURATION_S
    && Near(d, pts, sp.anchor, sp.last)
    && ShortExcursions(d, pts, sp.anchor, sp.anchor, sp.left - 1)
    && (sp.last + 1 < sp.left ==> AllFar(d, pts, sp.anchor, sp.last + 1, sp.left - 1))
    && (sp.left < |pts| ==>
          && sp.last + 1 < sp.left
          && AllFar(d, pts, sp.anchor, sp.last + 1, sp.left)
          && pts[sp.left].t - pts[sp.last + 1].t >= MIN_DEPARTURE_DURATION_S)
  }

  ghost predicate AllStops(d: Metric, pts: seq<Fix>, spans: seq<Span>) {
    forall i :: 0 <= i < |spans| ==> IsStop(d, pts, spans[i])
  }

  ghost predicate LeftBy(spans: seq<Span>, n: nat) {
    forall i :: 0 <= i < |spans| ==> spans[i].left <= n
  }

  ghost predicate Ordered(spans: seq<Span>) {
    forall i, j :: 0 <= i < j < |spans| ==> spans[i].left <= spans[j].anchor
  }

  ghost predicate PhaseInv(d: Metric, pts: seq<Fix>, n: nat, phase: Phase)
    requires n <= |pts|
  {
    match phase
    case Idle => n == 0
    case Moving(a) =>
      && a < n
      && (forall i :: a <= i < n ==> Near(d, pts, a, i))
      && pts[n - 1].t - pts[a].t < MIN_STOP_DURATION_S
    case Parked(a, l, q) =>
      && a < l < n
      && pts[l].t - pts[a].t >= MIN_STOP_DURATION_S
      && Near(d, pts, a, l)
      && ShortExcursions(d, pts, a, a, n - 1)
      && (l + 1 < n ==> AllFar(d, pts, a, l + 1, n - 1))
      && q == (if l + 1 < n then Some(l + 1) else None)
  }

  ghost predicate ScanInv(d: Metric, pts: seq<Fix>, n: nat, s: Scan)
    requires n <= |pts|
  {
    && AllStops(d, pts, s.spans)
    && Ordered(s.spans)
    && PhaseInv(d, pts, n, s.phase)
    && LeftBy(s.spans, if s.phase.Idle? then 0 else s.phase.anchor)
  }

  lemma ExcursionsGrow(d: Metric, pts: seq<Fix>, a: nat, l: nat, i: nat)
    requires InOrder(pts) && a < l < i < |pts|
    requires Near(d, pts, a, l)
    requires ShortExcursions(d, pts, a, a, i - 1)
    requires !Near(d, pts, a, i) ==> pts[i].t - pts[l + 1].t < MIN_DEPARTURE_DURATION_S
    ensures ShortExcursions(d, pts, a, a, i)
  {
    forall j, k | a <= j <= k <= i && AllFar(d, pts, a, j, k)
      ensures pts[k].t - pts[j].t < MIN_DEPARTURE_DURATION_S
    {
      if k < i {
      } else if j > l {
        assert pts[l + 1].t <= pts[j].t;
      }
    }
  }

  lemma MovingStep(d: Metric, pts: seq<Fix>, i: nat, s: Scan)
    requires InOrder(pts) && i < |pts| && !s.phase.Parked? && Within(s, i)
    requires PhaseInv(d, pts, i, s.phase)
    ensures PhaseInv(d, pts, i + 1, Step(d, pts, i, s).phase)
  {
    var r := Step(d, pts, i, s);
    if r.phase.Parked? {
      var a := r.phase.anchor;
      forall j, k | a <= j <= k <= i ensures !AllFar(d, pts, a, j, k) {
        assert Near(d, pts, a, j);
      }
    }
  }

  lemma ParkedStays(d: Metric, pts: seq<Fix>, i: nat, s: Scan)
    requires InOrder(pts) && i < |pts| && s.phase.Parked? && Within(s, i)
    requires PhaseInv(d, pts, i, s.phase) && Step(d, pts, i, s).phase.Parked?
    ensures PhaseInv(d, pts, i + 1, Step(d, pts, i, s).phase)
  {
    hide ShortExcursions;
    ExcursionsGrow(d, pts, s.phase.anchor, s.phase.last, i);
  }

  lemma ParkedLeaves(d: Metric, pts: seq<Fix>, i: nat, s: Scan)
    requires i < |pts| && s.phase.Parked? && Within(s, i)
    requires PhaseInv(d, pts, i, s.phase) && !Step(d, pts, i, s).phase.Parked?
    ensures Step(d, pts, i, s) == Scan(Moving(i), s.spans + [Span(s.phase.anchor, s.phase.last, i)])
    ensures IsStop(d, pts, Span(s.phase.anchor, s.phase.last, i))
    ensures PhaseInv(d, pts, i + 1, Moving(i))
  {
    hide Near, ShortExcursions;
    var a, l := s.phase.anchor, s.phase.last;
    assert l + 1 < i && AllFar(d, pts, a, l + 1, i - 1) && !Near(d, pts, a, i);
    NearItself(d, pts, i);
  }

  lemma NearItself(d: Metric, pts: seq<Fix>, i: nat)
    requires i < |pts|
    ensures Near(d, pts, i, i)
  {
  }

  lemma AddStop(d: Metric, pts: seq<Fix>, spans: seq<Span>, sp: Span)
    requires AllStops(d, pts, spans) && Ordered(spans)
    requires LeftBy(spans, sp.anchor) && IsStop(d, pts, sp)
    ensures AllStops(d, pts, spans + [sp]) && Ordered(spans + [sp]) && LeftBy(spans + [sp], sp.left)
  {
  }

  lemma StepInv(d: Metric, pts: seq<Fix>, i: nat, s: Scan)
    requires InOrder(pts) && i < |pts| && Within(s, i) && ScanInv(d, pts, i, s)
    ensures ScanInv(d, pts, i + 1, Step(d, pts, i, s))
  {
    hide PhaseInv, IsStop, Near;
    var r := Step(d, pts, i, s);
    if !s.phase.Parked? {
      MovingStep(d, pts, i, s);
    } else if r.phase.Parked? {
      ParkedStays(d, pts, i, s);
    } else {
      ParkedLeaves(d, pts, i, s);
      AddStop(d, pts, s.spans, Span(s.phase.anchor, s.phase.last, i));
    }
  }

  lemma {:induction false} ScanToInv(d: Metric, pts: seq<Fix>, n: nat)
    requires InOrder(pts) && n <= |pts|
    ensures ScanInv(d, pts, n, ScanTo(d, pts, n))
  {
    if n == 0 {
    } else {
      ScanToInv(d, pts, n - 1);
      StepInv(d, pts, n - 1, ScanTo(d, pts, n - 1));
    }
  }

  /** Soundness of the detector: every stop is one, and they come one after the other. */
  lemma StopsAreSound(d: Metric, pts: seq<Fix>)
    requires InOrder(pts)
    ensures AllStops(d, pts, StopSpans(d, pts)) && Ordered(StopSpans(d, pts))
  {
    ScanToInv(d, pts, |pts|);
    var s := ScanTo(d, pts, |pts|);
    if s.phase.Parked? {
      AddStop(d, pts, s.spans, Span(s.phase.anchor, s.phase.last, |pts|));
    } else {
      assert s.spans + [] == s.spans;
    }
  }

  /** Two stops have at least a minute of motion between them. */
  lemma StopsAreApart(d: Metric, pts: seq<Fix>, i: nat, j: nat)
    requires InOrder(pts) && i < j < |StopSpans(d, pts)|
    ensures var spans := StopSpans(d, pts);
            && spans[j].anchor < |pts| && spans[i].last < |pts|
            && pts[spans[j].anchor].t - pts[spans[i].last].t >= MIN_DEPARTURE_DURATION_S
  {
    hide IsStop, StopSpans;
    StopsAreSound(d, pts);
    SpansAreApart(d, pts, StopSpans(d, pts)[i], StopSpans(d, pts)[j]);
  }

  lemma SpansAreApart(d: Metric, pts: seq<Fix>, x: Span, y: Span)
    requires InOrder(pts) && IsStop(d, pts, x) && IsStop(d, pts, y) && x.left <= y.anchor
    ensures pts[y.anchor].t - pts[x.last].t >= MIN_DEPARTURE_DURATION_S
  {
    hide Near, AllFar, ShortExcursions;
    assert pts[x.left].t <= pts[y.anchor].t;
    assert pts[x.last].t <= pts[x.last + 1].t;
  }

  // ---- No long dwell is missed ----

  /** All fixes of pts[j..k+1] lie within the radius of each other. */
  ghost predicate Dwell(d: Metric, pts: seq<Fix>, j: nat, k: nat) {
    j <= k < |pts| && forall x, y :: j <= x <= y <= k ==> Near(d, pts, x, y)
  }

  /** No two consecutive fixes of pts[j..k+1] are more than `gap` seconds apart. */
  ghost predicate GapsWithin(pts: seq<Fix>, j: nat, k: nat, gap: real)
    requires k < |pts|
  {
    forall x, y :: j <= x < y <= k && y == x + 1 ==> pts[y].t - pts[x].t <= gap
  }

  ghost predicate Meets(sp: Span, j: nat, k: nat) { sp.anchor <= k && j <= sp.last }

  ghost predicate Found(s: Scan, j: nat, k: nat) {
    || (exists i :: 0 <= i < |s.spans| && Meets(s.spans[i], j, k))
    || (s.phase.Parked? && s.phase.anchor <= k && j <= s.phase.last)
  }

  /** What can still stand between a dwell and its stop: the tail of an older candidate or
      of an older stop. */
  ghost predicate Closing(pts: seq<Fix>, j: nat, n: nat, gap: real, phase: Phase)
    requires j < n <= |pts|
  {
    match phase
    case Idle => false
    case Moving(a) => a <= j || (a < n && pts[a].t - pts[j].t < MIN_STOP_DURATION_S + gap)
    case Parked(a, l, q) =>
      l < j && q.Some? && q.value <= j && pts[n - 1].t - pts[q.value].t < MIN_DEPARTURE_DURATION_S
  }

  lemma PhaseAt(d: Metric, pts: seq<Fix>, n: nat)
    requires InOrder(pts) && n <= |pts|
    ensures PhaseInv(d, pts, n, ScanTo(d, pts, n).phase)
  {
    ScanToInv(d, pts, n);
  }

  lemma FoundStays(d: Metric, pts: seq<Fix>, i: nat, s: Scan, j: nat, k: nat)
    requires i < |pts| && Within(s, i) && Found(s, j, k)
    ensures Found(Step(d, pts, i, s), j, k)
  {
    var r := Step(d, pts, i, s);
    if x :| 0 <= x < |s.spans| && Meets(s.spans[x], j, k) {
      assert r.spans[x] == s.spans[x];
    } else if !r.phase.Parked? {
      assert Meets(r.spans[|s.spans|], j, k);
    }
  }

  lemma {:induction false} FoundForGood(d: Metric, pts: seq<Fix>, n: nat, m: nat, j: nat, k: nat)
    requires j < n <= m <= |pts| && Found(ScanTo(d, pts, n), j, k)
    ensures Found(ScanTo(d, pts, m), j, k)
  {
    if n < m {
      FoundForGood(d, pts, n, m - 1, j, k);
      FoundStays(d, pts, m - 1, ScanTo(d, pts, m - 1), j, k);
    }
  }

  lemma DwellStep(d: Metric, pts: seq<Fix>, j: nat, k: nat, gap: real, i: nat, s: Scan)
    requires InOrder(pts) && Dwell(d, pts, j, k) && gap >= 0.0
    requires j < i <= k && GapsWithin(pts, j, k, gap)
    requires Within(s, i) && PhaseInv(d, pts, i, s.phase)
    requires Closing(pts, j, i, gap, s.phase)
    ensures var r := Step(d, pts, i, s); Found(r, j, k) || Closing(pts, j, i + 1, gap, r.phase)
  {
    hide ShortExcursions;
    var r := Step(d, pts, i, s);
    match s.phase
    case Moving(a) =>
      assert pts[i].t - pts[i - 1].t <= gap;
      if j < a {
        assert Near(d, pts, a, i);
      } else {
        assert pts[a].t <= pts[j].t;
      }
    case Parked(a, l, q) =>
      assert pts[q.value].t <= pts[j].t;
  }

  ghost predicate Tracked(d: Metric, pts: seq<Fix>, j: nat, k: nat, gap: real, n: nat)
    requires j < n <= |pts|
  {
    var s := ScanTo(d, pts, n);
    Found(s, j, k) || Closing(pts, j, n, gap, s.phase)
  }

  lemma DwellStart(d: Metric, pts: seq<Fix>, j: nat, k: nat, gap: real)
    requires InOrder(pts) && Dwell(d, pts, j, k) && gap >= 0.0
    ensures Tracked(d, pts, j, k, gap, j + 1)
  {
    PhaseAt(d, pts, j);
  }

  lemma DwellAdvance(d: Metric, pts: seq<Fix>, j: nat, k: nat, gap: real, i: nat)
    requires InOrder(pts) && Dwell(d, pts, j, k) && gap >= 0.0
    requires j < i <= k && GapsWithin(pts, j, k, gap)
    requires Tracked(d, pts, j, k, gap, i)
    ensures Tracked(d, pts, j, k, gap, i + 1)
  {
    var s := ScanTo(d, pts, i);
    if Found(s, j, k) {
      FoundStays(d, pts, i, s, j, k);
    } else {
      PhaseAt(d, pts, i);
      DwellStep(d, pts, j, k, gap, i, s);
    }
  }

  lemma DwellTracked(d: Metric, pts: seq<Fix>, j: nat, k: nat, gap: real)
    requires InOrder(pts) && Dwell(d, pts, j, k) && gap >= 0.0
    requires GapsWithin(pts, j, k, gap)
    ensures Tracked(d, pts, j, k, gap, k + 1)
  {
    hide Tracked, GapsWithin;
    DwellStart(d, pts, j, k, gap);
    for i := j + 1 to k + 1
      invariant Tracked(d, pts, j, k, gap, i)
    {
      DwellAdvance(d, pts, j, k, gap, i);
    }
  }

  lemma DwellClosed(d: Metric, pts: seq<Fix>, j: nat, k: nat, gap: real)
    requires InOrder(pts) && j <= k < |pts| && gap >= 0.0
    requires pts[k].t - pts[j].t >= 2.0 * MIN_STOP_DURATION_S + gap
    ensures !Closing(pts, j, k + 1, gap, ScanTo(d, pts, k + 1).phase)
  {
    hide ScanTo, Near, ShortExcursions, AllFar;
    PhaseAt(d, pts, k + 1);
  }

  lemma FoundIsEmitted(d: Metric, pts: seq<Fix>, j: nat, k: nat)
    requires Found(ScanTo(d, pts, |pts|), j, k)
    ensures var spans := StopSpans(d, pts);
            exists i :: 0 <= i < |spans| && Meets(spans[i], j, k)
  {
    var e, spans := ScanTo(d, pts, |pts|), StopSpans(d, pts);
    if x :| 0 <= x < |e.spans| && Meets(e.spans[x], j, k) {
      assert spans[x] == e.spans[x];
    } else {
      assert Meets(spans[|e.spans|], j, k);
    }
  }

  lemma DwellFound(d: Metric, pts: seq<Fix>, j: nat, k: nat, gap: real)
    requires InOrder(pts) && Dwell(d, pts, j, k) && gap >= 0.0
    requires GapsWithin(pts, j, k, gap)
    requires pts[k].t - pts[j].t >= 2.0 * MIN_STOP_DURATION_S + gap
    ensures Found(ScanTo(d, pts, k + 1), j, k)
  {
    DwellTracked(d, pts, j, k, gap);
    DwellClosed(d, pts, j, k, gap);
  }

  /** Completeness of the detector: ten minutes spent within one radius, plus the longest
      silence of the receiver meanwhile, always meet a stop. */
  lemma DwellMeetsAStop(d: Metric, pts: seq<Fix>, j: nat, k: nat, gap: real)
    requires InOrder(pts) && Dwell(d, pts, j, k) && gap >= 0.0
    requires GapsWithin(pts, j, k, gap)
    requires pts[k].t - pts[j].t >= 2.0 * MIN_STOP_DURATION_S + gap
    ensures var spans := StopSpans(d, pts);
            exists i :: 0 <= i < |spans| && Meets(spans[i], j, k)
  {
    DwellFound(d, pts, j, k, gap);
    FoundForGood(d, pts, k + 1, |pts|, j, k);
    FoundIsEmitted(d, pts, j, k);
  }

  // ---- The detector as it runs ----

  lemma GatheredFar(d: Metric, pts: seq<Fix>, a: nat, l: nat, n: nat)
    requires a <= l < n <= |pts|
    requires forall i :: l < i < n ==> !Near(d, pts, a, i)
    ensures Gathered(d, pts, a, n) == Gathered(d, pts, a, l + 1)
  {
    if l + 1 < n { GatheredFar(d, pts, a, l, n - 1); }
  }

  lemma GatheredNext(d: Metric, pts: seq<Fix>, a: nat, n: nat)
    requires a <= n < |pts|
    ensures Gathered(d, pts, a, n + 1) == Gathered(d, pts, a, n) + (if Near(d, pts, a, n) then [pts[n]] else [])
    ensures Gathered(d, pts, n, n) == []
  {
  }

  ghost predicate NearAnchor(d: Metric, pts: seq<Fix>, anchor: nat, upTo: nat, p: Fix)
    requires anchor < |pts| && upTo <= |pts|
  {
    exists i :: anchor <= i < upTo && pts[i] == p && Near(d, pts, anchor, i)
  }

  /** The fixes counted in a stop, and averaged for its centre, are those of its time that lie
      within the radius of its anchor. */
  lemma {:induction false} CountedAreNear(d: Metric, pts: seq<Fix>, anchor: nat, upTo: nat, p: Fix)
    requires anchor < |pts| && upTo <= |pts|
    ensures p in Gathered(d, pts, anchor, upTo) <==> NearAnchor(d, pts, anchor, upTo, p)
  {
    if anchor < upTo {
      var n := upTo - 1;
      CountedAreNear(d, pts, anchor, n, p);
      assert NearAnchor(d, pts, anchor, upTo, p)
             <==> NearAnchor(d, pts, anchor, n, p) || (pts[n] == p && Near(d, pts, anchor, n));
    }
  }

  ghost predicate Counts(d: Metric, pts: seq<Fix>, anchor: nat, upTo: nat, i: int)
    requires anchor < |pts| && upTo <= |pts|
  {
    anchor <= i < upTo && Near(d, pts, anchor, i)
  }

  ghost predicate Gathers(pts: seq<Fix>, counted: seq<Fix>, index: seq<int>) {
    |index| == |counted| && forall k :: 0 <= k < |index| ==> 0 <= index[k] < |pts| && counted[k] == pts[index[k]]
  }

  lemma GathersOneMore(pts: seq<Fix>, counted: seq<Fix>, index: seq<int>, n: nat)
    requires n < |pts| && Gathers(pts, counted, index)
    ensures Gathers(pts, counted + [pts[n]], index + [n])
  {
  }

  /** The fixes counted are those near the anchor, one by one, in order. */
  lemma {:induction false} CountedInOrder(d: Metric, pts: seq<Fix>, anchor: nat, upTo: nat) returns (index: seq<int>)
    requires anchor < |pts| && upTo <= |pts|
    ensures Gathers(pts, Gathered(d, pts, anchor, upTo), index) && Ascending(index)
    ensures forall i :: i in index <==> Counts(d, pts, anchor, upTo, i)
    ensures forall k :: 0 <= k < |index| ==> index[k] < upTo
  {
    hide Near, Gathers, Ascending;
    index := [];
    if anchor < upTo {
      var n := upTo - 1;
      var init := CountedInOrder(d, pts, anchor, n);
      index := init;
      GatheredNext(d, pts, anchor, n);
      assert Gathered(d, pts, anchor, n) + [] == Gathered(d, pts, anchor, n);
      if Near(d, pts, anchor, n) {
        AppendedIndex(init, n);
        GathersOneMore(pts, Gathered(d, pts, anchor, n), init, n);
        index := init + [n];
      }
      forall i ensures i in index <==> Counts(d, pts, anchor, upTo, i) {
        assert Counts(d, pts, anchor, upTo, i)
               <==> Counts(d, pts, anchor, n, i) || (i == n && Near(d, pts, anchor, n));
      }
    } else {
      NoneGathered(pts);
    }
  }

  lemma NoneGathered(pts: seq<Fix>)
    ensures Gathers(pts, [], []) && Ascending([])
  {
  }

  lemma {:induction false} SumsJoin(a: seq<Fix>, b: seq<Fix>)
    ensures SumLat(a + b) == SumLat(a) + SumLat(b) && SumLon(a + b) == SumLon(a) + SumLon(b)
  {
    if b == [] {
      assert a + b == a;
    } else {
      assert (a + b)[..|a + b| - 1] == a + b[..|b| - 1];
      SumsJoin(a, b[..|b| - 1]);
    }
  }

  /** A centre is the mean: its coordinates times the number of fixes are the sums, which add up over
      parts of the fixes and are the coordinates themselves for a single fix. */
  lemma CenterIsMean(pts: seq<Fix>, a: seq<Fix>, b: seq<Fix>, p: Fix)
    ensures pts != [] ==> Center(pts).lat * |pts| as real == SumLat(pts)
                          && Center(pts).lon * |pts| as real == SumLon(pts)
    ensures SumLat(a + b) == SumLat(a) + SumLat(b) && SumLon(a + b) == SumLon(a) + SumLon(b)
    ensures SumLat([p]) == p.at.lat && SumLon([p]) == p.at.lon
  {
    SumsJoin(a, b);
    SumsOfOne(p);
    hide SumLat, SumLon;
    if pts != [] {
      Share(SumLat(pts), |pts|);
      Share(SumLon(pts), |pts|);
    }
  }

  lemma SumsOfOne(p: Fix)
    ensures SumLat([p]) == p.at.lat && SumLon([p]) == p.at.lon
  {
  }

  lemma Share(sum: real, n: nat)
    requires n > 0
    ensures (sum / n as real) * n as real == sum
  {
  }

  ghost function Times(x: real, n: nat): real { x * n as real }

  lemma OneMoreTime(x: real, n: nat)
    ensures Times(x, n + 1) == Times(x, n) + x
    ensures Times(x, 0) == 0.0
  {
    assert (n + 1) as real == n as real + 1.0;
  }

  lemma {:induction false} SumsInside(pts: seq<Fix>, lo: Place, hi: Place)
    requires forall i :: 0 <= i < |pts| ==> lo.lat <= pts[i].at.lat <= hi.lat && lo.lon <= pts[i].at.lon <= hi.lon
    ensures Times(lo.lat, |pts|) <= SumLat(pts) <= Times(hi.lat, |pts|)
    ensures Times(lo.lon, |pts|) <= SumLon(pts) <= Times(hi.lon, |pts|)
  {
    hide Times;
    var n := if pts == [] then 0 else |pts| - 1;
    OneMoreTime(lo.lat, n);
    OneMoreTime(hi.lat, n);
    OneMoreTime(lo.lon, n);
    OneMoreTime(hi.lon, n);
    if pts == [] {
    } else {
      SumsInside(pts[..n], lo, hi);
    }
  }

  /** A centre lies among its fixes. */
  lemma CenterIsInside(pts: seq<Fix>, lo: Place, hi: Place)
    requires pts != []
    requires forall i :: 0 <= i < |pts| ==> lo.lat <= pts[i].at.lat <= hi.lat && lo.lon <= pts[i].at.lon <= hi.lon
    ensures lo.lat <= Center(pts).lat <= hi.lat && lo.lon <= Center(pts).lon <= hi.lon
  {
    SumsInside(pts, lo, hi);
    Quotient(SumLat(pts), |pts|, lo.lat, hi.lat);
    Quotient(SumLon(pts), |pts|, lo.lon, hi.lon);
  }

  lemma Quotient(sum: real, n: nat, lo: real, hi: real)
    requires n > 0 && Times(lo, n) <= sum <= Times(hi, n)
    ensures lo <= sum / n as real <= hi
  {
    var q := sum / n as real;
    assert q * n as real == sum;
  }

  lemma StopsOfAdd(d: Metric, pts: seq<Fix>, spans: seq<Span>, sp: Span)
    requires InTrack(pts, spans) && sp.anchor < |pts| && sp.last < |pts|
    ensures InTrack(pts, spans + [sp])
    ensures StopsOf(d, pts, spans + [sp]) == StopsOf(d, pts, spans) + [StopOf(d, pts, sp)]
  {
  }

  /** A stop the detector emits is the stop of its span: the fixes seen since its last are far. */
  lemma EmitIsStopOf(d: Metric, pts: seq<Fix>, sp: Span, n: nat)
    requires sp.anchor <= sp.last < n <= |pts|
    requires forall i :: sp.last < i < n ==> !Near(d, pts, sp.anchor, i)
    ensures Emit(pts[sp.anchor].t, pts[sp.last].t, Gathered(d, pts, sp.anchor, n)) == StopOf(d, pts, sp)
  {
    GatheredFar(d, pts, sp.anchor, sp.last, n);
  }

  lemma TooShortToStop(d: Metric, pts: seq<Fix>)
    requires |pts| < 2
    ensures StopSpans(d, pts) == [] && StopsOf(d, pts, []) == []
  {
    if |pts| == 1 {
      assert ScanTo(d, pts, 0) == Scan(Idle, []);
    }
  }

  lemma ScanNext(d: Metric, pts: seq<Fix>, i: nat)
    ensures ScanTo(d, pts, 0) == Scan(Idle, []) && StopsOf(d, pts, []) == []
    ensures i < |pts| ==> ScanTo(d, pts, i + 1) == Step(d, pts, i, ScanTo(d, pts, i))
  {
  }

  /** The two-state detector. It emits exactly the stops of StopSpans. */
  method DetectStops(d: Metric, points: seq<Fix>) returns (stops: seq<Stop>)
    ensures stops == StopsOf(d, points, StopSpans(d, points))
  {
    hide ScanTo, Gathered, StopsOf, Emit;
    stops := [];
    if |points| < 2 {
      TooShortToStop(d, points);
      return;
    }
    var stationary := false;
    var anchor: Option<Fix> := None;
    var candidateStart := 0.0;
    var candidates: seq<Fix> := [];
    var confirmedStart, confirmedEnd := 0.0, 0.0;
    var departure: Option<real> := None;
    ScanNext(d, points, 0);
    for i := 0 to |points|
      invariant Mirrors(d, points, i, stationary, anchor, candidateStart, candidates,
                        confirmedStart, confirmedEnd, departure)
      invariant stops == StopsOf(d, points, ScanTo(d, points, i).spans)
    {
      ghost var s := ScanTo(d, points, i);
      ScanNext(d, points, i);
      GatheredNext(d, points, i, i);
      if !s.phase.Idle? {
        GatheredNext(d, points, s.phase.anchor, i);
      }
      var p := points[i];
      if !stationary {
        if anchor.None? || d(anchor.value.at, p.at) > STOP_RADIUS_M {
          anchor, candidateStart, candidates := Some(p), p.t, [p];
        } else {
          candidates := candidates + [p];
          if p.t - candidateStart >= MIN_STOP_DURATION_S {
            stationary := true;
            confirmedStart, confirmedEnd, departure := candidateStart, p.t, None;
          }
        }
      } else if d(anchor.value.at, p.at) <= STOP_RADIUS_M {
        candidates := candidates + [p];
        confirmedEnd, departure := p.t, None;
      } else {
        if departure.None? {
          departure := Some(p.t);
        }
        if p.t - departure.value >= MIN_DEPARTURE_DURATION_S {
          EmitIsStopOf(d, points, Span(s.phase.anchor, s.phase.last, i), i);
          StopsOfAdd(d, points, s.spans, Span(s.phase.anchor, s.phase.last, i));
          stops := stops + [Emit(confirmedStart, confirmedEnd, candidates)];
          stationary := false;
          anchor, candidateStart, candidates := Some(p), p.t, [p];
          departure := None;
        }
      }
    }
    if stationary {
      ghost var s := ScanTo(d, points, |points|);
      EmitIsStopOf(d, points, Span(s.phase.anchor, s.phase.last, |points|), |points|);
      StopsOfAdd(d, points, s.spans, Span(s.phase.anchor, s.phase.last, |points|));
      stops := stops + [Emit(confirmedStart, confirmedEnd, candidates)];
    }
  }

  function Emit(start: real, end: real, candidates: seq<Fix>): Stop {
    Stop(start, end, Center(candidates), if candidates == [] then 1 else |candidates|)
  }

  /** The detector's variables say what the scan says. */
  ghost predicate Mirrors(d: Metric, pts: seq<Fix>, n: nat, stationary: bool, anchor: Option<Fix>,
                          candidateStart: real, candidates: seq<Fix>,
                          confirmedStart: real, confirmedEnd: real, departure: Option<real>)
    requires n <= |pts|
  {
    match ScanTo(d, pts, n).phase
    case Idle => !stationary && anchor == None && n == 0
    case Moving(a) =>
      && !stationary && anchor == Some(pts[a]) && candidateStart == pts[a].t
      && candidates == Gathered(d, pts, a, n)
    case Parked(a, l, q) =>
      && stationary && anchor == Some(pts[a]) && a <= l
      && candidates == Gathered(d, pts, a, n)
      && (forall i :: l < i < n ==> !Near(d, pts, a, i))
      && confirmedStart == pts[a].t && confirmedEnd == pts[l].t
      && departure == (if q.None? then None else Some(pts[q.value].t))
  }
}
