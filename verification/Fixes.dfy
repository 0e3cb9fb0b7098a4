/** GPS fixes, the distance between places, and tracks of fixes in time order. */
module Fixes {

  datatype Place = Place(lat: real, lon: real)

  /** One re-anchored GPS fix: its instant in seconds and its place. */
  datatype Fix = Fix(t: real, at: Place)

  ghost predicate IsMetric(d: (Place, Place) -> real) {
    && (forall p, q :: d(p, q) >= 0.0)
    && (forall p :: d(p, p) == 0.0)
  }

  /** The great-circle distance in metres; only what the services rely on is known of it. */
  type Metric = d: (Place, Place) -> real | IsMetric(d) witness ((p: Place, q: Place) => 0.0)

  ghost predicate InOrder(pts: seq<Fix>) {
    forall i, j :: 0 <= i < j < |pts| ==> pts[i].t <= pts[j].t
  }

  datatype Interval = Interval(lo: real, hi: real)

  /** Metres along a track. */
  function Length(d: Metric, track: seq<Fix>): (r: real)
    ensures r >= 0.0
  {
    if |track| < 2 then 0.0
    else Length(d, track[..|track| - 1]) + d(track[|track| - 2].at, track[|track| - 1].at)
  }

  function Max(a: real, b: real): (m: real)
    ensures m >= a && m >= b && (m == a || m == b)
  {
    if a >= b then a else b
  }

  function Min(a: real, b: real): (m: real)
    ensures m <= a && m <= b && (m == a || m == b)
  {
    if a <= b then a else b
  }

  /** The fixes whose instant lies in the closed window [lo, hi], in order. */
  function InWindow(pts: seq<Fix>, lo: real, hi: real): seq<Fix> {
    if pts == [] then []
    else
      var p, rest := pts[|pts| - 1], InWindow(pts[..|pts| - 1], lo, hi);
      if lo <= p.t <= hi then rest + [p] else rest
  }

  lemma {:induction false} InWindowConcat(a: seq<Fix>, b: seq<Fix>, lo: real, hi: real)
    ensures InWindow(a + b, lo, hi) == InWindow(a, lo, hi) + InWindow(b, lo, hi)
  {
    if b == [] {
      assert a + b == a;
    } else {
      assert (a + b)[..|a + b| - 1] == a + b[..|b| - 1];
      InWindowConcat(a, b[..|b| - 1], lo, hi);
    }
  }

  lemma {:induction false} InWindowNone(a: seq<Fix>, lo: real, hi: real)
    requires forall i :: 0 <= i < |a| ==> !(lo <= a[i].t <= hi)
    ensures InWindow(a, lo, hi) == []
  {
    if a != [] { InWindowNone(a[..|a| - 1], lo, hi); }
  }

  lemma InWindowNext(pts: seq<Fix>, lo: real, hi: real, n: nat)
    requires 0 < n <= |pts|
    ensures InWindow(pts[..n], lo, hi)
            == InWindow(pts[..n - 1], lo, hi) + if lo <= pts[n - 1].t <= hi then [pts[n - 1]] else []
  {
    assert pts[..n][..n - 1] == pts[..n - 1];
  }

  lemma {:induction false} WindowIsSliceTo(pts: seq<Fix>, lo: real, hi: real, n: nat)
    returns (from: nat, to: nat)
    requires InOrder(pts) && n <= |pts|
    ensures from <= to <= n && InWindow(pts[..n], lo, hi) == pts[from..to]
    ensures forall i :: 0 <= i < n ==> (from <= i < to <==> lo <= pts[i].t <= hi)
  {
    if n == 0 {
      from, to := 0, 0;
    } else {
      from, to := WindowIsSliceTo(pts, lo, hi, n - 1);
      InWindowNext(pts, lo, hi, n);
      if lo <= pts[n - 1].t <= hi {
        if from == to {
          from, to := n - 1, n;
        } else {
          assert pts[from].t >= lo;
          assert forall i :: from <= i < n ==> lo <= pts[i].t <= hi;
          assert to == n - 1;
          to := n;
        }
      }
    }
  }

  /** In a track, a window selects a contiguous slice: exactly the fixes inside it. */
  lemma WindowIsSlice(pts: seq<Fix>, lo: real, hi: real) returns (from: nat, to: nat)
    requires InOrder(pts)
    ensures from <= to <= |pts| && InWindow(pts, lo, hi) == pts[from..to]
    ensures forall i :: 0 <= i < |pts| ==> (from <= i < to <==> lo <= pts[i].t <= hi)
  {
    from, to := WindowIsSliceTo(pts, lo, hi, |pts|);
    assert pts[..|pts|] == pts;
  }

  /** The fixes a window selects are also those between its first and its last one. */
  lemma WindowOfOwnRange(pts: seq<Fix>, lo: real, hi: real)
    requires InOrder(pts) && InWindow(pts, lo, hi) != []
    ensures var w := InWindow(pts, lo, hi);
            && lo <= w[0].t <= w[|w| - 1].t <= hi
            && InWindow(pts, w[0].t, w[|w| - 1].t) == w
  {
    var w := InWindow(pts, lo, hi);
    var a, b := WindowIsSlice(pts, lo, hi);
    var x, y := WindowIsSlice(pts, w[0].t, w[|w| - 1].t);
    assert w[0] == pts[a] && w[|w| - 1] == pts[b - 1];
    assert x <= a < y && x <= b - 1 < y;
    assert lo <= pts[x].t && pts[y - 1].t <= hi;
    assert x == a && y == b;
  }

  /** A wider window of a track holds a narrower one as a slice. */
  lemma WiderWindow(pts: seq<Fix>, lo: real, hi: real, lo2: real, hi2: real)
    returns (before: seq<Fix>, after: seq<Fix>)
    requires InOrder(pts) && lo2 <= lo && hi <= hi2 && InWindow(pts, lo, hi) != []
    ensures InWindow(pts, lo2, hi2) == before + InWindow(pts, lo, hi) + after
  {
    var a, b := WindowIsSlice(pts, lo, hi);
    var x, y := WindowIsSlice(pts, lo2, hi2);
    assert lo <= pts[a].t <= hi && lo <= pts[b - 1].t <= hi;
    assert x <= a < y && x <= b - 1 < y;
    before, after := pts[x..a], pts[b..y];
    assert pts[x..y] == pts[x..a] + pts[a..b] + pts[b..y];
  }

  /** The metres of a track are those of its two parts and of the way from one to the other; a single
      fix has none. */
  lemma {:induction false} LengthJoins(d: Metric, a: seq<Fix>, b: seq<Fix>)
    requires a != [] && b != []
    ensures Length(d, a + b) == Length(d, a) + d(a[|a| - 1].at, b[0].at) + Length(d, b)
    ensures |a| == 1 ==> Length(d, a) == 0.0
  {
    if |b| == 1 {
      assert (a + b)[..|a + b| - 1] == a;
    } else {
      assert (a + b)[..|a + b| - 1] == a + b[..|b| - 1];
      LengthJoins(d, a, b[..|b| - 1]);
    }
  }

  lemma LengthConcat(d: Metric, a: seq<Fix>, b: seq<Fix>)
    ensures Length(d, a + b) >= Length(d, a) + Length(d, b)
  {
    if a == [] {
      assert a + b == b;
    } else if b == [] {
      assert a + b == a;
    } else {
      LengthJoins(d, a, b);
    }
  }
}
