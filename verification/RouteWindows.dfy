/** The read-time window chain of web/routers/archive.py: journeys are padded against parking
    clips and extended by shutdown tails, stops give way to the padded journeys, and each
    journey's trace is re-cut from the day's points. */
module RouteWindows {
  import opened Basics
  import opened Fixes
  import S = Stops
  import J = Journeys
  import Tails = ShutdownTails

  const MAX_JOURNEY_BUFFER_S := 120.0

  // ---- Padding against parking clips (web/services/gps.py) ----

  function PadStart(start: real, parking: seq<Interval>): real {
    if parking == [] then start - MAX_JOURNEY_BUFFER_S
    else
      var r, p := PadStart(start, parking[..|parking| - 1]), parking[|parking| - 1];
      if p.lo < start then Max(r, Min(p.hi, start)) else r
  }

  function PadEnd(end: real, parking: seq<Interval>): real {
    if parking == [] then end + MAX_JOURNEY_BUFFER_S
    else
      var r, p := PadEnd(end, parking[..|parking| - 1]), parking[|parking| - 1];
      if p.hi > end then Min(r, Max(p.lo, end)) else r
  }

  method ExpandJourneyWindow(start: real, end: real, parking: seq<Interval>) returns (w: Interval)
    ensures w == Interval(PadStart(start, parking), PadEnd(end, parking))
  {
    var newStart, newEnd := start - MAX_JOURNEY_BUFFER_S, end + MAX_JOURNEY_BUFFER_S;
    for k := 0 to |parking|
      invariant newStart == PadStart(start, parking[..k]) && newEnd == PadEnd(end, parking[..k])
    {
      assert parking[..k + 1][..k] == parking[..k];
      var p := parking[k];
      if p.lo < start {
        newStart := Max(newStart, Min(p.hi, start));
      }
      if p.hi > end {
        newEnd := Min(newEnd, Max(p.lo, end));
      }
    }
    assert parking[..|parking|] == parking;
    w := Interval(newStart, newEnd);
  }

  /** The instant is the earliest within two minutes of the start that no parking clip begun before
      the journey reaches past. */
  ghost predicate PadsStart(r: real, start: real, parking: seq<Interval>) {
    && start - MAX_JOURNEY_BUFFER_S <= r <= start
    && (forall i :: 0 <= i < |parking| && parking[i].lo < start ==> parking[i].hi <= r || r == start)
    && (r == start - MAX_JOURNEY_BUFFER_S
        || exists i :: 0 <= i < |parking| && parking[i].lo < start
                       && (r == parking[i].hi || r == start <= parking[i].hi))
  }

  lemma {:induction false} PadStartIsTight(start: real, parking: seq<Interval>)
    ensures PadsStart(PadStart(start, parking), start, parking)
  {
    if parking == [] {
    } else {
      var n := |parking| - 1;
      PadStartIsTight(start, parking[..n]);
      forall i | 0 <= i < n ensures parking[..n][i] == parking[i] {}
    }
  }

  /** The instant is the latest within two minutes of the end before which no parking clip that
      outlasts the journey begins. */
  ghost predicate PadsEnd(r: real, end: real, parking: seq<Interval>) {
    && end <= r <= end + MAX_JOURNEY_BUFFER_S
    && (forall i :: 0 <= i < |parking| && parking[i].hi > end ==> r <= parking[i].lo || r == end)
    && (r == end + MAX_JOURNEY_BUFFER_S
        || exists i :: 0 <= i < |parking| && parking[i].hi > end
                       && (r == parking[i].lo || r == end >= parking[i].lo))
  }

  lemma {:induction false} PadEndIsTight(end: real, parking: seq<Interval>)
    ensures PadsEnd(PadEnd(end, parking), end, parking)
  {
    if parking == [] {
    } else {
      var n := |parking| - 1;
      PadEndIsTight(end, parking[..n]);
      forall i | 0 <= i < n ensures parking[..n][i] == parking[i] {}
    }
  }

  /** There is one padded start and one padded end. */
  lemma PadsAreUnique(r: real, q: real, at: real, parking: seq<Interval>)
    ensures PadsStart(r, at, parking) && PadsStart(q, at, parking) ==> r == q
    ensures PadsEnd(r, at, parking) && PadsEnd(q, at, parking) ==> r == q
  {
  }

  // ---- The payload ----

  datatype Card = Card(start: real, end: real, from: Place, to: Place, distance: real,
                       durationS: int, track: seq<Fix>, group: Option<Interval>)
  {
    function Window(): Interval {
      if group.Some? then group.value else Interval(start, end)
    }
  }

  datatype StopCard = StopCard(start: real, end: real, durationS: int, center: Place)

  datatype Zone = Zone(center: Place, radius: real)

  function CardOf(j: J.Journey): Card {
    Card(j.start, j.end, j.from, j.to, j.distance, (j.end - j.start).Floor, j.track, None)
  }

  function StopCardOf(s: S.Stop): StopCard {
    StopCard(s.start, s.end, (s.end - s.start).Floor, s.center)
  }

  function CardsOf(js: seq<J.Journey>): (cards: seq<Card>)
    ensures |cards| == |js|
    ensures forall i :: 0 <= i < |js| ==>
              && cards[i].start == js[i].start && cards[i].end == js[i].end && cards[i].from == js[i].from
              && cards[i].to == js[i].to && cards[i].distance == js[i].distance && cards[i].track == js[i].track
              && cards[i].group.None?
  {
    seq(|js|, i requires 0 <= i < |js| => CardOf(js[i]))
  }

  function StopCardsOf(stops: seq<S.Stop>): (cards: seq<StopCard>)
    ensures |cards| == |stops|
    ensures forall i :: 0 <= i < |stops| ==>
              cards[i].start == stops[i].start && cards[i].end == stops[i].end && cards[i].center == stops[i].center
  {
    seq(|stops|, i requires 0 <= i < |stops| => StopCardOf(stops[i]))
  }

  // ---- Group windows ----

  /** A trailing edge extended by the tails that start at the journey's end, up to a limit. */
  function Extend(hi: real, end: real, limit: Option<real>, tails: seq<Tails.Span>): real {
    if tails == [] then hi
    else
      var r, t := Extend(hi, end, limit, tails[..|tails| - 1]), tails[|tails| - 1];
      if Tails.Abs(t.start - end) <= Tails.ARRIVAL_MATCH_S
      then Max(r, if limit.None? then t.end else Min(t.end, limit.value))
      else r
  }

  function GroupWindow(js: seq<Card>, i: nat, parking: seq<Interval>, tails: seq<Tails.Span>): Interval
    requires i < |js|
  {
    var limit := if i + 1 < |js| then Some(PadStart(js[i + 1].start, parking)) else None;
    Interval(PadStart(js[i].start, parking),
             Extend(PadEnd(js[i].end, parking), js[i].end, limit, tails))
  }

  function Windowed(js: seq<Card>, parking: seq<Interval>, tails: seq<Tails.Span>): seq<Card> {
    seq(|js|, i requires 0 <= i < |js| => js[i].(group := Some(GroupWindow(js, i, parking, tails))))
  }

  /** The tail starts where the journey ends, give or take two minutes. */
  ghost predicate Matched(t: Tails.Span, end: real) {
    end - Tails.ARRIVAL_MATCH_S <= t.start <= end + Tails.ARRIVAL_MATCH_S
  }

  /** A trailing edge: no earlier than the pad nor than any matched tail, up to the limit, and equal
      to one of these. */
  ghost predicate IsEdge(hi: real, pad: real, end: real, limit: Option<real>, tails: seq<Tails.Span>) {
    && pad <= hi
    && (forall k :: 0 <= k < |tails| && Matched(tails[k], end) ==>
          tails[k].end <= hi || (limit.Some? && limit.value <= hi))
    && (hi == pad || exists k :: 0 <= k < |tails| && Matched(tails[k], end)
                                   && hi == if limit.Some? && limit.value < tails[k].end then limit.value
                                            else tails[k].end)
  }

  lemma {:induction false} ExtendIsEdge(pad: real, end: real, limit: Option<real>, tails: seq<Tails.Span>)
    ensures IsEdge(Extend(pad, end, limit, tails), pad, end, limit, tails)
  {
    if tails == [] {
    } else {
      var n := |tails| - 1;
      ExtendIsEdge(pad, end, limit, tails[..n]);
      forall i | 0 <= i < n ensures tails[..n][i] == tails[i] {}
    }
  }

  /** The windows are exact on both sides: each begins at the padded start and ends at the padded end or
      the latest tail at the journey's end, up to where the next one begins. Nothing else changes. */
  ghost predicate AreWindowed(raw: seq<Card>, js: seq<Card>, parking: seq<Interval>, tails: seq<Tails.Span>) {
    && |js| == |raw|
    && (forall i :: 0 <= i < |js| ==> js[i].group.Some? && js[i] == raw[i].(group := js[i].group))
    && (forall i :: 0 <= i < |js| ==> PadsStart(js[i].group.value.lo, raw[i].start, parking))
    && forall i :: 0 <= i < |js| ==> EndsAt(js, i, raw[i].end, parking, tails)
  }

  ghost predicate EndsAt(js: seq<Card>, i: nat, end: real, parking: seq<Interval>, tails: seq<Tails.Span>)
    requires i < |js| && forall k :: 0 <= k < |js| ==> js[k].group.Some?
  {
    exists pad :: PadsEnd(pad, end, parking) && IsEdge(js[i].group.value.hi, pad, end, NextStart(js, i), tails)
  }

  /** Where the next window begins. */
  ghost function NextStart(js: seq<Card>, i: nat): Option<real>
    requires i < |js|
  {
    if i + 1 < |js| then Some(js[i + 1].Window().lo) else None
  }

  lemma WindowedIsExact(js: seq<Card>, parking: seq<Interval>, tails: seq<Tails.Span>)
    ensures AreWindowed(js, Windowed(js, parking, tails), parking, tails)
  {
    hide PadsStart, PadsEnd, IsEdge, PadStart, PadEnd, Extend;
    var out := Windowed(js, parking, tails);
    forall i | 0 <= i < |js| ensures PadsStart(out[i].group.value.lo, js[i].start, parking) {
      PadStartIsTight(js[i].start, parking);
    }
    forall i | 0 <= i < |js| ensures EndsAt(out, i, js[i].end, parking, tails) {
      PadEndIsTight(js[i].end, parking);
      ExtendIsEdge(PadEnd(js[i].end, parking), js[i].end, NextStart(out, i), tails);
    }
  }

  predicate InZone(d: Metric, zones: seq<Zone>, p: Place) {
    exists z :: 0 <= z < |zones| && d(p, zones[z].center) <= zones[z].radius
  }

  function ZoneStops(d: Metric, zones: seq<Zone>, stops: seq<StopCard>): seq<Tails.Span> {
    if stops == [] then []
    else
      var s := stops[|stops| - 1];
      ZoneStops(d, zones, stops[..|stops| - 1])
      + (if InZone(d, zones, s.center) then [Tails.Span(s.start, s.end)] else [])
  }

  function Ends(js: seq<Card>): (ends: seq<real>)
    ensures |ends| == |js| && forall i :: 0 <= i < |js| ==> ends[i] == js[i].end
  {
    seq(|js|, i requires 0 <= i < |js| => js[i].end)
  }

  // ---- Trimming ----

  datatype Trim = Trim(lo: real, hi: real)

  /** One stop against the windows, always judged by its original edges. */
  function TrimAgainst(s: StopCard, ws: seq<Interval>): Trim {
    if ws == [] then Trim(s.start, s.end)
    else
      var r, w := TrimAgainst(s, ws[..|ws| - 1]), ws[|ws| - 1];
      Trim(if w.lo <= s.start < w.hi then Max(r.lo, w.hi) else r.lo,
           if w.lo < s.end <= w.hi then Min(r.hi, w.lo) else r.hi)
  }

  function TrimmedStop(s: StopCard, ws: seq<Interval>): Option<StopCard> {
    var r := TrimAgainst(s, ws);
    if r.lo >= r.hi then None
    else if r.lo == s.start && r.hi == s.end then Some(s)
    else Some(StopCard(r.lo, r.hi, (r.hi - r.lo).Floor, s.center))
  }

  function Trimmed(stops: seq<StopCard>, ws: seq<Interval>): seq<StopCard> {
    if stops == [] then []
    else
      var r := TrimmedStop(stops[|stops| - 1], ws);
      Trimmed(stops[..|stops| - 1], ws) + (if r.Some? then [r.value] else [])
  }

  function WindowsOf(js: seq<Card>): seq<Interval> {
    seq(|js|, i requires 0 <= i < |js| => js[i].Window())
  }

  // ---- Reframing ----

  function Reframe(d: Metric, pts: seq<Fix>, c: Card): Card {
    var w := c.Window();
    var slice := InWindow(pts, w.lo, w.hi);
    if |slice| < 2 then c
    else
      var a, b := slice[0], slice[|slice| - 1];
      Card(a.t, b.t, a.at, b.at, Length(d, slice), (b.t - a.t).Floor, slice, c.group)
  }

  function Reframed(d: Metric, pts: seq<Fix>, js: seq<Card>): seq<Card> {
    seq(|js|, i requires 0 <= i < |js| => Reframe(d, pts, js[i]))
  }

  lemma NothingToReframe(d: Metric, js: seq<Card>)
    ensures Reframed(d, [], js) == js
  {
  }

  /** The route payload of a day, changed in place by the three steps. */
  class RoutePayload {
    var points: seq<Fix>
    var journeys: seq<Card>
    var stops: seq<StopCard>

    constructor (points: seq<Fix>, stops: seq<S.Stop>, journeys: seq<J.Journey>)
      ensures this.points == points
      ensures this.journeys == CardsOf(journeys) && this.stops == StopCardsOf(stops)
    {
      this.points := points;
      this.journeys := CardsOf(journeys);
      this.stops := StopCardsOf(stops);
    }

    method ApplyGroupWindows(d: Metric, parking: seq<Interval>, zones: seq<Zone>,
                             rows: seq<Tails.Row>, now: real)
      modifies this`journeys
      ensures var zs := ZoneStops(d, zones, stops);
              journeys == Windowed(old(journeys), parking, Tails.TailsOf(rows, zs, Ends(old(journeys)), now))
      ensures var zs := ZoneStops(d, zones, stops);
              AreWindowed(old(journeys), journeys, parking, Tails.TailsOf(rows, zs, Ends(old(journeys)), now))
    {
      hide PadStart, PadEnd, Extend, ZoneStops, AreWindowed;
      ghost var found := Tails.TailsOf(rows, ZoneStops(d, zones, stops), Ends(journeys), now);
      WindowedIsExact(journeys, parking, found);
      if journeys == [] {
        return;
      }
      var tails, undecided := [], [];
      var zoneStops := ZoneStops(d, zones, stops);
      if zoneStops != [] {
        tails, undecided := Tails.Classify(rows, zoneStops, Ends(journeys), now);
      }
      var base := PadAll(parking);
      for i := 0 to |journeys|
        invariant |journeys| == |old(journeys)|
        invariant forall k :: 0 <= k < i ==> journeys[k] == Windowed(old(journeys), parking, tails)[k]
        invariant forall k :: i <= k < |journeys| ==> journeys[k] == old(journeys)[k]
      {
        var limit := if i + 1 < |base| then Some(base[i + 1].lo) else None;
        var hi := ExtendEdge(base[i].hi, journeys[i].end, limit, tails);
        journeys := journeys[i := journeys[i].(group := Some(Interval(base[i].lo, hi)))];
      }
    }

    method PadAll(parking: seq<Interval>) returns (base: seq<Interval>)
      ensures |base| == |journeys| && forall k :: 0 <= k < |base| ==>
                base[k] == Interval(PadStart(journeys[k].start, parking), PadEnd(journeys[k].end, parking))
    {
      base := [];
      for i := 0 to |journeys|
        invariant |base| == i && forall k :: 0 <= k < i ==>
                    base[k] == Interval(PadStart(journeys[k].start, parking), PadEnd(journeys[k].end, parking))
      {
        var w := ExpandJourneyWindow(journeys[i].start, journeys[i].end, parking);
        base := base + [w];
      }
    }

    static method ExtendEdge(edge: real, end: real, limit: Option<real>, tails: seq<Tails.Span>)
      returns (hi: real)
      ensures hi == Extend(edge, end, limit, tails)
    {
      hi := edge;
      for k := 0 to |tails|
        invariant hi == Extend(edge, end, limit, tails[..k])
      {
        assert tails[..k + 1][..k] == tails[..k];
        var t := tails[k];
        if Tails.Abs(t.start - end) <= Tails.ARRIVAL_MATCH_S {
          hi := Max(hi, if limit.None? then t.end else Min(t.end, limit.value));
        }
      }
      assert tails[..|tails|] == tails;
    }

    method TrimStopsToJourneys()
      modifies this`stops
      ensures stops == if journeys == [] then old(stops) else Trimmed(old(stops), WindowsOf(journeys))
    {
      var windows := WindowsOf(journeys);
      if windows == [] {
        return;
      }
      var kept := [];
      for k := 0 to |stops|
        invariant stops == old(stops) && kept == Trimmed(stops[..k], windows)
      {
        assert stops[..k + 1][..k] == stops[..k];
        var s := stops[k];
        var ss, se := s.start, s.end;
        for i := 0 to |windows|
          invariant Trim(ss, se) == TrimAgainst(s, windows[..i])
        {
          assert windows[..i + 1][..i] == windows[..i];
          var w := windows[i];
          if w.lo <= s.start < w.hi {
            ss := Max(ss, w.hi);
          }
          if w.lo < s.end <= w.hi {
            se := Min(se, w.lo);
          }
        }
        assert windows[..|windows|] == windows;
        if ss >= se {
          continue;
        }
        if ss != s.start || se != s.end {
          s := StopCard(ss, se, (se - ss).Floor, s.center);
        }
        kept := kept + [s];
      }
      assert stops[..|stops|] == stops;
      stops := kept;
    }

    method ReframeJourneys(d: Metric)
      modifies this`journeys
      ensures journeys == Reframed(d, points, old(journeys))
    {
      hide Reframe;
      if points == [] {
        NothingToReframe(d, journeys);
        return;
      }
      for i := 0 to |journeys|
        invariant |journeys| == |old(journeys)|
        invariant forall k :: 0 <= k < i ==> journeys[k] == Reframe(d, points, old(journeys)[k])
        invariant forall k :: i <= k < |journeys| ==> journeys[k] == old(journeys)[k]
      {
        ReframeOne(d, i);
      }
    }

    method ReframeOne(d: Metric, i: nat)
      requires i < |journeys|
      modifies this`journeys
      ensures journeys == old(journeys)[i := Reframe(d, points, old(journeys)[i])]
    {
      var w := journeys[i].Window();
      var slice := InWindow(points, w.lo, w.hi);
      if |slice| < 2 {
        return;
      }
      var dist := J.TrackLength(d, slice);
      var a, b := slice[0], slice[|slice| - 1];
      journeys := journeys[i := journeys[i].(start := a.t, end := b.t, from := a.at, to := b.at,
                                             distance := dist, durationS := (b.t - a.t).Floor,
                                             track := slice)];
    }
  }
}
