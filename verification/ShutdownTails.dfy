/** Shutdown tails of web/services/geofence.py: whether the footage after an arrival ends
    because the camera was switched off. */
module ShutdownTails {
  const LEADING_EDGE_PAD_S := 60.0
  const TAIL_CAP_S := 900.0
  const TAIL_GAP_S := 300.0
  const TAIL_SLACK_S := 120.0
  const ARRIVAL_MATCH_S := 120.0
  const NOMINAL_CLIP_S := 60.0

  /** One file of the day's listing: when it starts, whether it is a parking-mode file, and
      whether it is a GPS-lens clip still waiting for triage. */
  datatype Row = Row(recordedAt: real, parking: bool, awaitsTriage: bool)

  datatype Span = Span(start: real, end: real)

  datatype Verdict = NotATail | Undecided(end: real) | Tail(end: real)

  ghost predicate ListingInOrder(rows: seq<Row>) {
    forall i, j :: 0 <= i < j < |rows| ==> rows[i].recordedAt <= rows[j].recordedAt
  }

  predicate ParkingWithin(rows: seq<Row>, lo: real, hi: real) {
    exists i :: 0 <= i < |rows| && rows[i].parking && lo <= rows[i].recordedAt <= hi
  }

  predicate UntriagedBefore(rows: seq<Row>, ss: real) {
    exists i :: 0 <= i < |rows| && rows[i].awaitsTriage && ss - TAIL_GAP_S <= rows[i].recordedAt < ss
  }

  function Abs(x: real): real { if x < 0.0 then -x else x }

  predicate Arrives(ends: seq<real>, ss: real) {
    exists i :: 0 <= i < |ends| && Abs(ss - ends[i]) <= ARRIVAL_MATCH_S
  }

  /** The times listed from a minute before the stop on. */
  function RunFrom(rows: seq<Row>, ss: real): seq<real> {
    if rows == [] then []
    else
      var t := rows[|rows| - 1].recordedAt;
      RunFrom(rows[..|rows| - 1], ss) + (if t >= ss - LEADING_EDGE_PAD_S then [t] else [])
  }

  /** The last time before the first long silence, and whether a later file proves it. */
  function Walk(run: seq<real>): (real, bool)
    requires run != []
  {
    var n := |run| - 1;
    if n == 0 then (run[0], false)
    else
      var (last, stopped) := Walk(run[..n]);
      if stopped || run[n] - last > TAIL_GAP_S then (last, true) else (run[n], false)
  }

  function Judge(rows: seq<Row>, ss: real, ends: seq<real>, now: real): Verdict {
    var run := RunFrom(rows, ss);
    if ParkingWithin(rows, ss, ss + TAIL_CAP_S + TAIL_GAP_S) || run == [] then NotATail
    else
      var (last, stopped) := Walk(run);
      if last > ss + TAIL_CAP_S then NotATail
      else if UntriagedBefore(rows, ss) then Undecided(last + NOMINAL_CLIP_S)
      else if !Arrives(ends, ss) then NotATail
      else if !stopped && now < last + TAIL_GAP_S + TAIL_SLACK_S then Undecided(last + NOMINAL_CLIP_S)
      else Tail(last + NOMINAL_CLIP_S)
  }

  function TailsOf(rows: seq<Row>, stops: seq<Span>, ends: seq<real>, now: real): seq<Span> {
    if stops == [] then []
    else
      var s := stops[|stops| - 1];
      var init := TailsOf(rows, stops[..|stops| - 1], ends, now);
      match Judge(rows, s.start, ends, now) { case Tail(e) => init + [Span(s.start, e)] case _ => init }
  }

  function UndecidedOf(rows: seq<Row>, stops: seq<Span>, ends: seq<real>, now: real): seq<Span> {
    if stops == [] then []
    else
      var s := stops[|stops| - 1];
      var init := UndecidedOf(rows, stops[..|stops| - 1], ends, now);
      match Judge(rows, s.start, ends, now) { case Undecided(e) => init + [Span(s.start, e)] case _ => init }
  }

  method Classify(rows: seq<Row>, zoneStops: seq<Span>, ends: seq<real>, now: real)
    returns (tails: seq<Span>, undecided: seq<Span>)
    ensures tails == TailsOf(rows, zoneStops, ends, now)
    ensures undecided == UndecidedOf(rows, zoneStops, ends, now)
  {
    tails, undecided := [], [];
    for k := 0 to |zoneStops|
      invariant tails == TailsOf(rows, zoneStops[..k], ends, now)
      invariant undecided == UndecidedOf(rows, zoneStops[..k], ends, now)
    {
      assert zoneStops[..k + 1][..k] == zoneStops[..k];
      var ss := zoneStops[k].start;
      if ParkingWithin(rows, ss, ss + TAIL_CAP_S + TAIL_GAP_S) {
        continue;
      }
      var run := RunFrom(rows, ss);
      if run == [] {
        continue;
      }
      var last, stopped := EndOfRun(run);
      if last > ss + TAIL_CAP_S {
        continue;
      }
      if UntriagedBefore(rows, ss) {
        undecided := undecided + [Span(ss, last + NOMINAL_CLIP_S)];
        continue;
      }
      if !Arrives(ends, ss) {
        continue;
      }
      if !stopped && now < last + TAIL_GAP_S + TAIL_SLACK_S {
        undecided := undecided + [Span(ss, last + NOMINAL_CLIP_S)];
        continue;
      }
      tails := tails + [Span(ss, last + NOMINAL_CLIP_S)];
    }
    assert zoneStops[..|zoneStops|] == zoneStops;
  }

  lemma {:induction false} StoppedForGood(run: seq<real>, n: nat)
    requires 0 < n <= |run| && Walk(run[..n]).1
    ensures Walk(run) == Walk(run[..n])
  {
    if n == |run| {
      assert run[..n] == run;
    } else {
      assert run[..|run| - 1][..n] == run[..n];
      StoppedForGood(run[..|run| - 1], n);
    }
  }

  method EndOfRun(run: seq<real>) returns (last: real, stopped: bool)
    requires run != []
    ensures (last, stopped) == Walk(run)
  {
    last, stopped := run[0], false;
    for i := 1 to |run|
      invariant (last, false) == Walk(run[..i])
    {
      assert run[..i + 1][..i] == run[..i];
      if run[i] - last > TAIL_GAP_S {
        StoppedForGood(run, i + 1);
        return last, true;
      }
      last := run[i];
    }
    assert run[..|run|] == run;
  }

  // ---- What the walk finds, told without the walk ----

  ghost predicate Listed(rows: seq<Row>, t: real) {
    exists i :: 0 <= i < |rows| && rows[i].recordedAt == t
  }

  /** No file starts within the gap after t. */
  ghost predicate Silent(rows: seq<Row>, t: real) {
    forall i :: 0 <= i < |rows| ==> !(t < rows[i].recordedAt <= t + TAIL_GAP_S)
  }

  /** t is the first listed time, from a minute before the stop on, that a long silence follows. */
  ghost predicate FirstSilence(rows: seq<Row>, ss: real, t: real) {
    && Listed(rows, t) && ss - LEADING_EDGE_PAD_S <= t && Silent(rows, t)
    && forall u :: Listed(rows, u) && ss - LEADING_EDGE_PAD_S <= u && Silent(rows, u) ==> t <= u
  }

  lemma {:induction false} RunMembers(rows: seq<Row>, ss: real, t: real)
    ensures t in RunFrom(rows, ss) <==> Listed(rows, t) && t >= ss - LEADING_EDGE_PAD_S
  {
    if rows == [] {
    } else {
      var n := |rows| - 1;
      RunMembers(rows[..n], ss, t);
      assert Listed(rows, t) <==> Listed(rows[..n], t) || rows[n].recordedAt == t by {
        if i :| 0 <= i < |rows| && rows[i].recordedAt == t {
          if i < n { assert rows[..n][i].recordedAt == t; }
        }
        if j :| 0 <= j < n && rows[..n][j].recordedAt == t { assert rows[j].recordedAt == t; }
      }
    }
  }

  ghost predicate Ascending(run: seq<real>) {
    forall i, j :: 0 <= i < j < |run| ==> run[i] <= run[j]
  }

  lemma {:induction false} RunAscends(rows: seq<Row>, ss: real)
    requires ListingInOrder(rows)
    ensures Ascending(RunFrom(rows, ss))
  {
    if rows == [] {
    } else {
      var n := |rows| - 1;
      RunAscends(rows[..n], ss);
      var init := RunFrom(rows[..n], ss);
      forall k | 0 <= k < |init| ensures init[k] <= rows[n].recordedAt {
        assert init[k] in init;
        RunMembers(rows[..n], ss, init[k]);
        var i :| 0 <= i < n && rows[..n][i].recordedAt == init[k];
        assert rows[i].recordedAt <= rows[n].recordedAt;
      }
    }
  }

  ghost predicate Quiet(run: seq<real>, t: real) {
    forall i :: 0 <= i < |run| ==> !(t < run[i] <= t + TAIL_GAP_S)
  }

  /** t is the last time before the first silence of the run. */
  ghost predicate EndsRun(run: seq<real>, t: real) {
    && t in run && Quiet(run, t)
    && forall i :: 0 <= i < |run| && run[i] < t ==> !Quiet(run, run[i])
  }

  lemma RunGoesOn(init: seq<real>, x: real, t: real)
    requires init != [] && Ascending(init + [x]) && EndsRun(init, t)
    requires t == init[|init| - 1] && x - t <= TAIL_GAP_S
    ensures EndsRun(init + [x], x)
  {
    var run := init + [x];
    assert run[|init|] == x && run[|init| - 1] == t;
    forall i | 0 <= i < |run| && run[i] < x ensures !Quiet(run, run[i]) {
      if run[i] < t {
        var k :| 0 <= k < |init| && init[i] < init[k] <= init[i] + TAIL_GAP_S;
        assert run[k] == init[k];
      } else {
        assert run[i] < run[|init|] <= run[i] + TAIL_GAP_S;
      }
    }
  }

  lemma RunIsOver(init: seq<real>, x: real, t: real)
    requires init != [] && Ascending(init + [x]) && EndsRun(init, t)
    requires t < init[|init| - 1] || x - t > TAIL_GAP_S
    ensures EndsRun(init + [x], t)
  {
    var run := init + [x];
    assert run[|init|] == x && run[|init| - 1] == init[|init| - 1];
    assert !(t < init[|init| - 1] <= t + TAIL_GAP_S);
    forall i | 0 <= i < |run| && run[i] < t ensures !Quiet(run, run[i]) {
      var k :| 0 <= k < |init| && init[i] < init[k] <= init[i] + TAIL_GAP_S;
      assert run[k] == init[k];
    }
  }

  lemma {:induction false} WalkFinds(run: seq<real>)
    requires run != [] && Ascending(run)
    ensures EndsRun(run, Walk(run).0) && (Walk(run).1 <==> Walk(run).0 < run[|run| - 1])
  {
    var n := |run| - 1;
    if n > 0 {
      var init := run[..n];
      assert run == init + [run[n]];
      WalkFinds(init);
      var (last, stopped) := Walk(init);
      if stopped || run[n] - last > TAIL_GAP_S {
        RunIsOver(init, run[n], last);
      } else {
        RunGoesOn(init, run[n], last);
      }
    }
  }

  /** The walk stops at the first silence of the listing. */
  lemma WalkIsFirstSilence(rows: seq<Row>, ss: real)
    requires ListingInOrder(rows) && RunFrom(rows, ss) != []
    ensures FirstSilence(rows, ss, Walk(RunFrom(rows, ss)).0)
    ensures Walk(RunFrom(rows, ss)).1 <==> exists t :: Listed(rows, t) && t > Walk(RunFrom(rows, ss)).0
  {
    var run := RunFrom(rows, ss);
    var last := Walk(run).0;
    RunAscends(rows, ss);
    WalkFinds(run);
    RunMembers(rows, ss, last);
    forall t ensures t in run <==> Listed(rows, t) && t >= ss - LEADING_EDGE_PAD_S { RunMembers(rows, ss, t); }
    forall u | u in run ensures Quiet(run, u) <==> Silent(rows, u) { SilenceAgrees(rows, ss, u); }
    assert run[|run| - 1] in run;
    if t :| Listed(rows, t) && t > last { assert t in run; }
  }

  lemma SilenceAgrees(rows: seq<Row>, ss: real, u: real)
    requires u >= ss - LEADING_EDGE_PAD_S
    ensures Quiet(RunFrom(rows, ss), u) <==> Silent(rows, u)
  {
    var run := RunFrom(rows, ss);
    forall t ensures t in run <==> Listed(rows, t) && t >= ss - LEADING_EDGE_PAD_S { RunMembers(rows, ss, t); }
    if !Quiet(run, u) {
      var i :| 0 <= i < |run| && u < run[i] <= u + TAIL_GAP_S;
      assert Listed(rows, run[i]);
    }
    if !Silent(rows, u) {
      var i :| 0 <= i < |rows| && u < rows[i].recordedAt <= u + TAIL_GAP_S;
      assert Listed(rows, rows[i].recordedAt);
      var k :| 0 <= k < |run| && run[k] == rows[i].recordedAt;
    }
  }

  // ---- What a tail is ----

  /** The rule for a shutdown tail ending at e, in terms of the listing alone. */
  ghost predicate Confirms(rows: seq<Row>, ss: real, ends: seq<real>, now: real, e: real) {
    var last := e - NOMINAL_CLIP_S;
    && FirstSilence(rows, ss, last) && last <= ss + TAIL_CAP_S
    && !ParkingWithin(rows, ss, ss + TAIL_CAP_S + TAIL_GAP_S)
    && !UntriagedBefore(rows, ss)
    && Arrives(ends, ss)
    && ((exists t :: Listed(rows, t) && t > last) || now >= last + TAIL_GAP_S + TAIL_SLACK_S)
  }

  lemma RunIsEmpty(rows: seq<Row>, ss: real, t: real)
    requires RunFrom(rows, ss) == []
    ensures !FirstSilence(rows, ss, t)
  {
    RunMembers(rows, ss, t);
  }

  /** The classifier calls a stop a tail ending at e exactly when the rule says so. */
  lemma TailIffConfirmed(rows: seq<Row>, ss: real, ends: seq<real>, now: real, e: real)
    requires ListingInOrder(rows)
    ensures Judge(rows, ss, ends, now) == Tail(e) <==> Confirms(rows, ss, ends, now, e)
  {
    if RunFrom(rows, ss) == [] {
      RunIsEmpty(rows, ss, e - NOMINAL_CLIP_S);
    } else {
      WalkIsFirstSilence(rows, ss);
    }
  }

  /** A tail ends within sixteen minutes of arrival, holds no parking file, and more than five
      minutes without any listed file follow its last one. */
  lemma TailIsBounded(rows: seq<Row>, ss: real, ends: seq<real>, now: real, e: real)
    requires ListingInOrder(rows) && Judge(rows, ss, ends, now) == Tail(e)
    ensures ss <= e <= ss + TAIL_CAP_S + NOMINAL_CLIP_S
    ensures forall i :: 0 <= i < |rows| && rows[i].parking ==> !(ss <= rows[i].recordedAt <= e)
    ensures Listed(rows, e - NOMINAL_CLIP_S)
    ensures forall i :: 0 <= i < |rows| && rows[i].recordedAt > e - NOMINAL_CLIP_S
              ==> rows[i].recordedAt > e - NOMINAL_CLIP_S + TAIL_GAP_S
  {
    TailIffConfirmed(rows, ss, ends, now, e);
  }

  /** The tails are exactly those of the stops judged one. */
  lemma {:induction false} TailsAre(rows: seq<Row>, stops: seq<Span>, ends: seq<real>, now: real, t: Span)
    ensures t in TailsOf(rows, stops, ends, now)
            <==> exists i :: 0 <= i < |stops| && stops[i].start == t.start
                             && Judge(rows, stops[i].start, ends, now) == Tail(t.end)
  {
    hide Judge;
    if stops != [] {
      var n := |stops| - 1;
      TailsAre(rows, stops[..n], ends, now, t);
      forall i | 0 <= i < n ensures stops[..n][i] == stops[i] {}
    }
  }

  /** Every tail comes from a stop that was judged one. */
  lemma {:induction false} TailOrigin(rows: seq<Row>, stops: seq<Span>, ends: seq<real>, now: real, k: nat)
    returns (i: nat)
    requires k < |TailsOf(rows, stops, ends, now)|
    ensures i < |stops| && TailsOf(rows, stops, ends, now)[k].start == stops[i].start
    ensures Judge(rows, stops[i].start, ends, now) == Tail(TailsOf(rows, stops, ends, now)[k].end)
  {
    hide Judge;
    var n := |stops| - 1;
    if k < |TailsOf(rows, stops[..n], ends, now)| {
      i := TailOrigin(rows, stops[..n], ends, now, k);
    } else {
      i := n;
    }
  }

  // ---- A confirmed tail stays confirmed ----

  /** What the evaluator sees at one moment. */
  datatype View = View(rows: seq<Row>, ends: seq<real>, now: real)

  /** The same file later on: it may have been triaged meanwhile. */
  ghost predicate SameFile(a: Row, b: Row) {
    a.recordedAt == b.recordedAt && a.parking == b.parking && (b.awaitsTriage ==> a.awaitsTriage)
  }

  ghost predicate StillListed(a: View, b: View, i: nat)
    requires i < |a.rows|
  {
    exists j :: 0 <= j < |b.rows| && SameFile(a.rows[i], b.rows[j])
  }

  /** File j of the later view was listed before, or starts after `since` and is no parking
      file before `clear`. */
  ghost predicate OldOrLate(a: View, b: View, since: real, clear: real, j: nat)
    requires j < |b.rows|
  {
    || (b.rows[j].recordedAt > since && (b.rows[j].parking ==> b.rows[j].recordedAt > clear))
    || exists i :: 0 <= i < |a.rows| && SameFile(a.rows[i], b.rows[j])
  }

  /** A later view: no listed file has gone, new ones are late, triage and the clock have moved
      on, journeys were added. */
  ghost predicate Later(a: View, b: View, since: real, clear: real) {
    && ListingInOrder(b.rows)
    && (forall i {:trigger StillListed(a, b, i)} :: 0 <= i < |a.rows| ==> StillListed(a, b, i))
    && (forall j {:trigger OldOrLate(a, b, since, clear, j)} :: 0 <= j < |b.rows| ==> OldOrLate(a, b, since, clear, j))
    && (forall x :: x in a.ends ==> x in b.ends)
    && a.now <= b.now
  }

  lemma ListedStays(a: View, b: View, since: real, clear: real, t: real)
    requires Later(a, b, since, clear)
    ensures Listed(a.rows, t) ==> Listed(b.rows, t)
    ensures Listed(b.rows, t) && t <= since ==> Listed(a.rows, t)
  {
    if i :| 0 <= i < |a.rows| && a.rows[i].recordedAt == t { assert StillListed(a, b, i); }
    if j :| 0 <= j < |b.rows| && b.rows[j].recordedAt == t { assert OldOrLate(a, b, since, clear, j); }
  }

  lemma SilenceStays(a: View, b: View, since: real, clear: real, t: real)
    requires Later(a, b, since, clear) && t + TAIL_GAP_S <= since
    ensures Silent(a.rows, t) <==> Silent(b.rows, t)
  {
    if !Silent(a.rows, t) {
      var i :| 0 <= i < |a.rows| && t < a.rows[i].recordedAt <= t + TAIL_GAP_S;
      assert StillListed(a, b, i);
    }
    if !Silent(b.rows, t) {
      var j :| 0 <= j < |b.rows| && t < b.rows[j].recordedAt <= t + TAIL_GAP_S;
      assert OldOrLate(a, b, since, clear, j);
    }
  }

  lemma FirstSilenceStays(a: View, b: View, since: real, clear: real, ss: real, last: real)
    requires Later(a, b, since, clear) && last + TAIL_GAP_S <= since && FirstSilence(a.rows, ss, last)
    ensures FirstSilence(b.rows, ss, last)
  {
    ListedStays(a, b, since, clear, last);
    SilenceStays(a, b, since, clear, last);
    forall u | Listed(b.rows, u) && ss - LEADING_EDGE_PAD_S <= u && Silent(b.rows, u) ensures last <= u {
      if u < last {
        ListedStays(a, b, since, clear, u);
        SilenceStays(a, b, since, clear, u);
      }
    }
  }

  lemma GuardsStay(a: View, b: View, since: real, ss: real, clear: real)
    requires Later(a, b, since, clear) && ss <= since
    ensures ParkingWithin(b.rows, ss, clear) ==> ParkingWithin(a.rows, ss, clear)
    ensures UntriagedBefore(b.rows, ss) ==> UntriagedBefore(a.rows, ss)
  {
    if j :| 0 <= j < |b.rows| && b.rows[j].parking && ss <= b.rows[j].recordedAt <= clear {
      assert OldOrLate(a, b, since, clear, j);
    }
    if j :| 0 <= j < |b.rows| && b.rows[j].awaitsTriage && ss - TAIL_GAP_S <= b.rows[j].recordedAt < ss {
      assert OldOrLate(a, b, since, clear, j);
    }
  }

  lemma TailStays(a: View, b: View, ss: real, e: real)
    requires ListingInOrder(a.rows) && Judge(a.rows, ss, a.ends, a.now) == Tail(e)
    requires Later(a, b, e - NOMINAL_CLIP_S + TAIL_GAP_S, ss + TAIL_CAP_S + TAIL_GAP_S)
    ensures Judge(b.rows, ss, b.ends, b.now) == Tail(e)
  {
    var last := e - NOMINAL_CLIP_S;
    var since, clear := last + TAIL_GAP_S, ss + TAIL_CAP_S + TAIL_GAP_S;
    TailIffConfirmed(a.rows, ss, a.ends, a.now, e);
    FirstSilenceStays(a, b, since, clear, ss, last);
    GuardsStay(a, b, since, ss, clear);
    assert Arrives(b.ends, ss) by {
      var i :| 0 <= i < |a.ends| && Abs(ss - a.ends[i]) <= ARRIVAL_MATCH_S;
      assert a.ends[i] in b.ends;
    }
    if t :| Listed(a.rows, t) && t > last { ListedStays(a, b, since, clear, t); }
    TailIffConfirmed(b.rows, ss, b.ends, b.now, e);
  }

  /** Main result: over any run of evaluations, once a stop is a shutdown tail it stays the
      same tail, however much triage, later recordings, new journeys and time follow. */
  lemma {:induction false} TailStaysForGood(views: seq<View>, ss: real, e: real, n: nat)
    requires n < |views| && ListingInOrder(views[0].rows)
    requires Judge(views[0].rows, ss, views[0].ends, views[0].now) == Tail(e)
    requires forall i, k :: 0 <= i < k < |views| && k == i + 1 ==>
               Later(views[i], views[k], e - NOMINAL_CLIP_S + TAIL_GAP_S, ss + TAIL_CAP_S + TAIL_GAP_S)
    ensures ListingInOrder(views[n].rows)
    ensures Judge(views[n].rows, ss, views[n].ends, views[n].now) == Tail(e)
  {
    if n > 0 {
      TailStaysForGood(views, ss, e, n - 1);
      TailStays(views[n - 1], views[n], ss, e);
    }
  }
}
