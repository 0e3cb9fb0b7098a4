/** The median filter of web/services/gps.py (`_filter_outliers`) and, over the fixes that
    decode, of viofosync_lib/_gpx.py (`filter_gps_spikes`). */
module Outliers {
  import opened Basics
  import opened Fixes
  import opened Sorting

  const OUTLIER_RETURN_RADIUS_M := 150.0

  function Identity(x: real): real { x }

  function Median(xs: seq<real>): real
    requires xs != []
  {
    SortByMembers(xs, Identity);
    SortBy(xs, Identity)[|xs| / 2]
  }

  function Half(n: nat): nat { if n >= 5 then 2 else 1 }

  /** Where the neighbourhood of a fix starts: slid inwards at the ends of the track, so it is
      always whole and always holds the fix. */
  function WindowStart(n: nat, idx: nat): (start: nat)
    requires idx < n && n >= 3
    ensures start <= idx <= start + 2 * Half(n) < n
    ensures Half(n) == if n < 5 then 1 else 2
    ensures Half(n) <= idx < n - Half(n) ==> start + Half(n) == idx
    ensures idx < Half(n) ==> start == 0
    ensures idx >= n - Half(n) ==> start + 2 * Half(n) == n - 1
  {
    var half := Half(n);
    var low := if idx >= half then idx else half;
    var center := if low <= n - 1 - half then low else n - 1 - half;
    center - half
  }

  function Neighbourhood(pts: seq<Fix>, idx: nat): (window: seq<Fix>)
    requires idx < |pts| && |pts| >= 3
    ensures |window| == (if |pts| >= 5 then 5 else 3)
    ensures forall i :: 0 <= i < |window| ==> window[i] == pts[WindowStart(|pts|, idx) + i]
  {
    var start := WindowStart(|pts|, idx);
    pts[start..start + 2 * Half(|pts|) + 1]
  }

  function Lats(pts: seq<Fix>): seq<real> { seq(|pts|, i requires 0 <= i < |pts| => pts[i].at.lat) }

  function Lons(pts: seq<Fix>): seq<real> { seq(|pts|, i requires 0 <= i < |pts| => pts[i].at.lon) }

  function MedianPlace(window: seq<Fix>): Place
    requires window != []
  {
    Place(Median(Lats(window)), Median(Lons(window)))
  }

  predicate Keeps(d: Metric, pts: seq<Fix>, idx: nat)
    requires idx < |pts| && |pts| >= 3
  {
    d(pts[idx].at, MedianPlace(Neighbourhood(pts, idx))) <= OUTLIER_RETURN_RADIUS_M
  }

  /** Which fixes pass the test. */
  function Verdicts(d: Metric, pts: seq<Fix>): (r: seq<bool>)
    requires |pts| >= 3
    ensures |r| == |pts|
  {
    seq(|pts|, i requires 0 <= i < |pts| => Keeps(d, pts, i))
  }

  function Chosen(pts: seq<Fix>, keep: seq<bool>): seq<Fix>
    requires |keep| == |pts|
  {
    if pts == [] then []
    else
      var n := |pts| - 1;
      Chosen(pts[..n], keep[..n]) + (if keep[n] then [pts[n]] else [])
  }

  function Filtered(d: Metric, pts: seq<Fix>): seq<Fix> {
    if |pts| < 3 then pts else Chosen(pts, Verdicts(d, pts))
  }

  method FilterOutliers(d: Metric, points: seq<Fix>) returns (filtered: seq<Fix>)
    ensures filtered == Filtered(d, points)
  {
    var n := |points|;
    if n < 3 {
      return points;
    }
    filtered := [];
    ghost var keep := Verdicts(d, points);
    for idx := 0 to n
      invariant filtered == Chosen(points[..idx], keep[..idx])
    {
      assert points[..idx + 1][..idx] == points[..idx] && keep[..idx + 1][..idx] == keep[..idx];
      var window := Neighbourhood(points, idx);
      var median := Place(Median(Lats(window)), Median(Lons(window)));
      if d(points[idx].at, median) > OUTLIER_RETURN_RADIUS_M {
        continue;
      }
      filtered := filtered + [points[idx]];
    }
    assert points[..n] == points && keep[..n] == keep;
  }

  /** The spike filter over decoded atoms: those that do not decode are dropped first. */
  method FilterGpsSpikes(d: Metric, decoded: seq<Option<Fix>>) returns (filtered: seq<Fix>)
    ensures filtered == Filtered(d, Decoded(decoded))
  {
    var valid := [];
    for i := 0 to |decoded|
      invariant valid == Decoded(decoded[..i])
    {
      assert decoded[..i + 1][..i] == decoded[..i];
      if decoded[i].None? {
        continue;
      }
      valid := valid + [decoded[i].value];
    }
    assert decoded[..|decoded|] == decoded;
    filtered := FilterOutliers(d, valid);
  }

  function Decoded(atoms: seq<Option<Fix>>): seq<Fix> {
    if atoms == [] then []
    else
      var last := atoms[|atoms| - 1];
      Decoded(atoms[..|atoms| - 1]) + (if last.Some? then [last.value] else [])
  }

  /** What decodes, piece by piece: the fixes that decode, in order, and nothing else. */
  lemma {:induction false} DecodedJoins(a: seq<Option<Fix>>, b: seq<Option<Fix>>, p: Fix)
    ensures Decoded(a + b) == Decoded(a) + Decoded(b)
    ensures Decoded([Some(p)]) == [p] && Decoded([None]) == []
  {
    if b == [] {
      assert a + b == a;
    } else {
      assert (a + b)[..|a + b| - 1] == a + b[..|b| - 1];
      DecodedJoins(a, b[..|b| - 1], p);
    }
  }

  // ---- The output is an ordered subsequence ----

  ghost predicate Increasing(index: seq<nat>) {
    forall i, j :: 0 <= i < j < |index| ==> index[i] < index[j]
  }

  ghost predicate Picks(sub: seq<Fix>, pts: seq<Fix>, index: seq<nat>) {
    && |index| == |sub| && Increasing(index)
    && forall i :: 0 <= i < |index| ==> index[i] < |pts| && sub[i] == pts[index[i]]
  }

  lemma PicksStay(sub: seq<Fix>, pts: seq<Fix>, index: seq<nat>, n: nat)
    requires n <= |pts| && Picks(sub, pts[..n], index)
    ensures Picks(sub, pts, index)
    ensures n < |pts| ==> Picks(sub + [pts[n]], pts, index + [n])
  {
  }

  /** The indices kept, in order. */
  function Kept(keep: seq<bool>): seq<nat> {
    if keep == [] then []
    else
      var n := |keep| - 1;
      Kept(keep[..n]) + (if keep[n] then [n] else [])
  }

  lemma {:induction false} KeptMembers(keep: seq<bool>, i: nat)
    ensures i in Kept(keep) <==> i < |keep| && keep[i]
  {
    if keep != [] { KeptMembers(keep[..|keep| - 1], i); }
  }

  lemma {:induction false} ChosenAreKept(pts: seq<Fix>, keep: seq<bool>)
    requires |keep| == |pts|
    ensures Picks(Chosen(pts, keep), pts, Kept(keep))
  {
    if pts != [] {
      var n := |pts| - 1;
      ChosenAreKept(pts[..n], keep[..n]);
      PicksStay(Chosen(pts[..n], keep[..n]), pts, Kept(keep[..n]), n);
    }
  }

  /** The filter keeps exactly the fixes that pass the test, in their order. */
  lemma FilteredIsSubsequence(d: Metric, pts: seq<Fix>) returns (index: seq<nat>)
    ensures Picks(Filtered(d, pts), pts, index)
    ensures forall i :: 0 <= i < |pts| ==> (i in index <==> |pts| < 3 || Keeps(d, pts, i))
  {
    if |pts| < 3 {
      index := seq(|pts|, i => i);
      forall i | 0 <= i < |pts| ensures i in index { assert index[i] == i; }
    } else {
      var keep := Verdicts(d, pts);
      index := Kept(keep);
      ChosenAreKept(pts, keep);
      forall i | 0 <= i < |pts| ensures i in index <==> Keeps(d, pts, i) {
        KeptMembers(keep, i);
      }
    }
  }

  lemma FilteredInOrder(d: Metric, pts: seq<Fix>)
    requires InOrder(pts)
    ensures InOrder(Filtered(d, pts))
  {
    var index := FilteredIsSubsequence(d, pts);
  }

  // ---- A majority decides ----

  ghost function CountIn(xs: seq<real>, lo: real, hi: real): nat {
    if xs == [] then 0 else (if lo <= xs[0] <= hi then 1 else 0) + CountIn(xs[1..], lo, hi)
  }

  lemma {:induction false} CountInsert(x: real, s: seq<real>, lo: real, hi: real)
    ensures CountIn(Insert(x, s, Identity), lo, hi) == CountIn([x] + s, lo, hi)
  {
    assert ([x] + s)[1..] == s;
    if s == [] || Identity(x) <= Identity(s[0]) {
    } else {
      CountInsert(x, s[1..], lo, hi);
      assert ([x] + s[1..])[1..] == s[1..];
      assert ([s[0]] + Insert(x, s[1..], Identity))[1..] == Insert(x, s[1..], Identity);
    }
  }

  lemma {:induction false} CountSorted(xs: seq<real>, lo: real, hi: real)
    ensures CountIn(SortBy(xs, Identity), lo, hi) == CountIn(xs, lo, hi)
  {
    if xs == [] {
    } else {
      CountSorted(xs[1..], lo, hi);
      var rest := SortBy(xs[1..], Identity);
      CountInsert(xs[0], rest, lo, hi);
      assert ([xs[0]] + rest)[1..] == rest;
    }
  }

  lemma {:induction false} CountOutside(s: seq<real>, k: nat, lo: real, hi: real)
    requires k <= |s|
    ensures (forall i :: 0 <= i < k ==> !(lo <= s[i] <= hi)) ==> CountIn(s, lo, hi) <= |s| - k
    ensures (forall i :: k <= i < |s| ==> !(lo <= s[i] <= hi)) ==> CountIn(s, lo, hi) <= k
  {
    if s == [] {
    } else {
      CountOutside(s[1..], if k == 0 then 0 else k - 1, lo, hi);
      assert forall i :: 0 <= i < |s[1..]| ==> s[1..][i] == s[i + 1];
      if k == 0 {
        assert (forall i :: k <= i < |s| ==> !(lo <= s[i] <= hi)) ==>
          (forall i :: 0 <= i < |s[1..]| ==> !(lo <= s[1..][i] <= hi));
      }
    }
  }

  lemma MiddleIn(s: seq<real>, lo: real, hi: real)
    requires s != [] && 2 * CountIn(s, lo, hi) > |s|
    requires forall i, j :: 0 <= i < j < |s| ==> s[i] <= s[j]
    ensures lo <= s[|s| / 2] <= hi
  {
    CountOutside(s, |s| / 2 + 1, lo, hi);
    CountOutside(s, |s| / 2, lo, hi);
  }

  /** When more than half of the values lie in an interval, so does the median. */
  lemma MajorityHoldsMedian(xs: seq<real>, lo: real, hi: real)
    requires xs != [] && 2 * CountIn(xs, lo, hi) > |xs|
    ensures lo <= Median(xs) <= hi
  {
    var s := SortBy(xs, Identity);
    SortByMembers(xs, Identity);
    CountSorted(xs, lo, hi);
    forall i, j | 0 <= i < j < |s| ensures s[i] <= s[j] {
      SortByCorrect(xs, Identity, 0.0);
      assert Identity(s[i]) <= Identity(s[j]);
    }
    MiddleIn(s, lo, hi);
  }

  datatype Box = Box(latLo: real, latHi: real, lonLo: real, lonHi: real) {
    predicate Holds(p: Place) { latLo <= p.lat <= latHi && lonLo <= p.lon <= lonHi }
  }

  ghost function FixesIn(window: seq<Fix>, box: Box): nat {
    if window == [] then 0
    else (if box.Holds(window[0].at) then 1 else 0) + FixesIn(window[1..], box)
  }

  lemma {:induction false} CoordinatesIn(window: seq<Fix>, box: Box)
    ensures FixesIn(window, box) <= CountIn(Lats(window), box.latLo, box.latHi)
    ensures FixesIn(window, box) <= CountIn(Lons(window), box.lonLo, box.lonHi)
  {
    if window == [] {
    } else {
      CoordinatesIn(window[1..], box);
      assert Lats(window)[1..] == Lats(window[1..]);
      assert Lons(window)[1..] == Lons(window[1..]);
    }
  }

  lemma MajorityHoldsMedianPlace(window: seq<Fix>, box: Box)
    requires window != [] && 2 * FixesIn(window, box) > |window|
    ensures box.Holds(MedianPlace(window))
  {
    CoordinatesIn(window, box);
    MajorityHoldsMedian(Lats(window), box.latLo, box.latHi);
    MajorityHoldsMedian(Lons(window), box.lonLo, box.lonHi);
  }

  /** Robustness: when a box holds a strict majority of a fix's neighbourhood, a fix in the box
      survives if the box is no wider than the radius, and a fix farther than the radius from
      the whole box is dropped, wherever the minority lies. */
  lemma MajorityDecides(d: Metric, pts: seq<Fix>, idx: nat, box: Box)
    requires idx < |pts| && |pts| >= 3
    requires 2 * FixesIn(Neighbourhood(pts, idx), box) > |Neighbourhood(pts, idx)|
    ensures box.Holds(pts[idx].at)
            && (forall p, q :: box.Holds(p) && box.Holds(q) ==> d(p, q) <= OUTLIER_RETURN_RADIUS_M)
            ==> Keeps(d, pts, idx)
    ensures (forall q :: box.Holds(q) ==> d(pts[idx].at, q) > OUTLIER_RETURN_RADIUS_M)
            ==> !Keeps(d, pts, idx)
  {
    MajorityHoldsMedianPlace(Neighbourhood(pts, idx), box);
  }
}
