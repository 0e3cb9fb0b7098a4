/** Why the window chain is safe: padded windows never overlap, contain their journeys, and
    take from the stops exactly the time they claim; re-cut traces share nothing but a
    boundary instant. */
module RouteShape {
  import opened Basics
  import opened Fixes
  import opened RouteWindows
  import S = Stops
  import J = Journeys
  import D = DayShape
  import Tails = ShutdownTails

  // ---- The payload as assembled ----

  ghost predicate RawCard(d: Metric, pts: seq<Fix>, c: Card) {
    && |c.track| >= 2 && c.start <= c.end
    && c.start == c.track[0].t && c.end == c.track[|c.track| - 1].t
    && c.from == c.track[0].at && c.to == c.track[|c.track| - 1].at
    && c.durationS == (c.end - c.start).Floor
    && c.track == InWindow(pts, c.start, c.end) && c.distance == Length(d, c.track)
  }

  ghost predicate CardsApart(js: seq<Card>) {
    forall i, k :: 0 <= i < k < |js| ==> js[i].end + S.MIN_STOP_DURATION_S <= js[k].start
  }

  ghost predicate StopsClear(js: seq<Card>, stops: seq<StopCard>) {
    forall i, k :: 0 <= i < |js| && 0 <= k < |stops|
      ==> stops[k].end <= js[i].start || js[i].end <= stops[k].start
  }

  ghost predicate StopsInTurn(stops: seq<StopCard>) {
    forall i, k :: 0 <= i < k < |stops| ==> stops[i].end <= stops[k].start
  }

  /** No journey ends within five minutes of a stop's start, except exactly at it. */
  ghost predicate EndsExactly(js: seq<Card>, stops: seq<StopCard>) {
    forall i, k :: 0 <= i < |js| && 0 <= k < |stops| ==> D.NearIsExact(js[i].end, stops[k].start)
  }

  ghost predicate Raw(d: Metric, pts: seq<Fix>, js: seq<Card>, stops: seq<StopCard>) {
    && InOrder(pts)
    && (forall i :: 0 <= i < |js| ==> RawCard(d, pts, js[i]))
    && CardsApart(js) && StopsClear(js, stops) && EndsExactly(js, stops) && StopsInTurn(stops)
    && forall k :: 0 <= k < |stops| ==> stops[k].start <= stops[k].end && LastsAsShown(stops[k])
  }

  ghost predicate LastsAsShown(s: StopCard) { s.durationS == (s.end - s.start).Floor }

  lemma CardIsRaw(d: Metric, pts: seq<Fix>, j: J.Journey)
    requires D.IsJourney(d, pts, j)
    ensures RawCard(d, pts, CardOf(j))
  {
  }

  lemma CardsAreRaw(d: Metric, pts: seq<Fix>, js: seq<J.Journey>, stops: seq<S.Stop>)
    requires InOrder(pts) && D.AllJourneys(d, pts, js) && D.JourneysApart(js) && D.Clear(js, stops)
    requires D.EndsExactly(js, stops) && D.InTurn(stops)
    requires forall k :: 0 <= k < |stops| ==> stops[k].start <= stops[k].end
    ensures Raw(d, pts, CardsOf(js), StopCardsOf(stops))
  {
    var cards, cs := CardsOf(js), StopCardsOf(stops);
    assert forall i :: 0 <= i < |js| ==> cards[i].start == js[i].start && cards[i].end == js[i].end;
    assert forall k :: 0 <= k < |stops| ==> cs[k].start == stops[k].start && cs[k].end == stops[k].end;
    assert CardsApart(cards) && StopsClear(cards, cs) && EndsExactly(cards, cs) && StopsInTurn(cs);
    forall i | 0 <= i < |cards| ensures RawCard(d, pts, cards[i]) {
      CardIsRaw(d, pts, js[i]);
    }
  }

  lemma DayIsRaw(d: Metric, fixes: seq<Fix>)
    ensures var pts := J.Merged(d, fixes);
            var ss := J.Sessions(pts, J.SESSION_GAP_SECONDS);
            Raw(d, pts, CardsOf(J.DayJourneys(d, ss)), StopCardsOf(J.DayStops(d, ss)))
  {
    D.EveryDayHasShape(d, fixes);
    var pts := J.Merged(d, fixes);
    var ss := J.Sessions(pts, J.SESSION_GAP_SECONDS);
    CardsAreRaw(d, pts, J.DayJourneys(d, ss), J.DayStops(d, ss));
  }

  // ---- Windows ----

  /** A group window contains its journey and reaches at most two minutes beyond it, except
      for a trailing edge carried on by a tail that starts at the journey's end. */
  lemma WindowContainsJourney(js: seq<Card>, i: nat, parking: seq<Interval>, tails: seq<Tails.Span>)
    requires i < |js|
    ensures var w := GroupWindow(js, i, parking, tails);
            && js[i].start - MAX_JOURNEY_BUFFER_S <= w.lo <= js[i].start
            && js[i].end <= w.hi
            && (w.hi <= js[i].end + MAX_JOURNEY_BUFFER_S
                || exists k :: 0 <= k < |tails| && w.hi <= tails[k].end
                     && Tails.Abs(tails[k].start - js[i].end) <= Tails.ARRIVAL_MATCH_S)
  {
    PadStartIsTight(js[i].start, parking);
    PadEndIsTight(js[i].end, parking);
    var limit := if i + 1 < |js| then Some(PadStart(js[i + 1].start, parking)) else None;
    ExtendIsEdge(PadEnd(js[i].end, parking), js[i].end, limit, tails);
  }

  /** Main result: group windows never overlap, whatever tails extend them, and stay strictly
      apart where no tail applies. */
  lemma WindowsNeverOverlap(js: seq<Card>, i: nat, k: nat, parking: seq<Interval>, tails: seq<Tails.Span>)
    requires CardsApart(js) && i < k < |js|
    requires forall x :: 0 <= x < |js| ==> js[x].start <= js[x].end
    ensures GroupWindow(js, i, parking, tails).hi <= GroupWindow(js, k, parking, tails).lo
    ensures (forall t :: 0 <= t < |tails| ==> Tails.Abs(tails[t].start - js[i].end) > Tails.ARRIVAL_MATCH_S)
            ==> GroupWindow(js, i, parking, tails).hi < GroupWindow(js, k, parking, tails).lo
  {
    var next := js[i + 1];
    assert js[i].end + S.MIN_STOP_DURATION_S <= next.start;
    PadEndIsTight(js[i].end, parking);
    PadStartIsTight(next.start, parking);
    PadStartIsTight(js[k].start, parking);
    ExtendIsEdge(PadEnd(js[i].end, parking), js[i].end, Some(PadStart(next.start, parking)), tails);
    if i + 1 < k { assert next.end + S.MIN_STOP_DURATION_S <= js[k].start; }
  }

  // ---- Tails ----

  /** The stops looked at are stops of the day. */
  ghost predicate FromStops(zs: seq<Tails.Span>, stops: seq<StopCard>) {
    forall z :: 0 <= z < |zs| ==> exists k :: 0 <= k < |stops| && stops[k].start == zs[z].start
  }

  lemma {:induction false} ZoneStopsAreStops(d: Metric, zones: seq<Zone>, stops: seq<StopCard>)
    ensures FromStops(ZoneStops(d, zones, stops), stops)
  {
    if stops != [] {
      var n := |stops| - 1;
      ZoneStopsAreStops(d, zones, stops[..n]);
      var zs, init := ZoneStops(d, zones, stops), ZoneStops(d, zones, stops[..n]);
      forall z | 0 <= z < |zs| ensures exists k :: 0 <= k < |stops| && stops[k].start == zs[z].start {
        if z < |init| {
          assert zs[z] == init[z];
          var k :| 0 <= k < n && stops[..n][k].start == init[z].start;
          assert stops[k].start == zs[z].start;
        } else {
          assert stops[n].start == zs[z].start;
        }
      }
    }
  }

  /** A tail matched to a journey starts exactly where the journey ends. */
  lemma MatchedTailStartsAtTheEnd(js: seq<Card>, stops: seq<StopCard>, rows: seq<Tails.Row>, zs: seq<Tails.Span>,
                                  now: real, i: nat, k: nat)
    requires EndsExactly(js, stops) && FromStops(zs, stops) && Tails.ListingInOrder(rows) && i < |js|
    requires k < |Tails.TailsOf(rows, zs, Ends(js), now)|
    requires var t := Tails.TailsOf(rows, zs, Ends(js), now)[k];
             Tails.Abs(t.start - js[i].end) <= Tails.ARRIVAL_MATCH_S
    ensures var t := Tails.TailsOf(rows, zs, Ends(js), now)[k];
            && t.start == js[i].end && t.end <= js[i].end + MAX_EXTENSION_S
            && forall r :: 0 <= r < |rows| && rows[r].parking ==> !(js[i].end <= rows[r].recordedAt <= t.end)
  {
    hide Tails.TailsOf, Tails.Judge;
    var z := Tails.TailOrigin(rows, zs, Ends(js), now, k);
    var t := Tails.TailsOf(rows, zs, Ends(js), now)[k];
    var m :| 0 <= m < |stops| && stops[m].start == zs[z].start;
    assert D.NearIsExact(js[i].end, stops[m].start);
    Tails.TailIsBounded(rows, zs[z].start, Ends(js), now, t.end);
  }

  const MAX_EXTENSION_S := Tails.TAIL_CAP_S + Tails.NOMINAL_CLIP_S

  /** What carries an edge past the padding is footage: at most sixteen minutes of it from the
      journey's end on, without a parking file among it. */
  ghost predicate SafelyExtended(c: Card, hi: real, parking: seq<Interval>, rows: seq<Tails.Row>) {
    hi <= PadEnd(c.end, parking)
    || (hi <= c.end + MAX_EXTENSION_S
        && forall r :: 0 <= r < |rows| && rows[r].parking ==> !(c.end <= rows[r].recordedAt <= hi))
  }

  lemma ExtensionIsSafe(js: seq<Card>, stops: seq<StopCard>, parking: seq<Interval>, rows: seq<Tails.Row>,
                        zs: seq<Tails.Span>, now: real, i: nat)
    requires EndsExactly(js, stops) && FromStops(zs, stops) && Tails.ListingInOrder(rows) && i < |js|
    ensures SafelyExtended(js[i], GroupWindow(js, i, parking, Tails.TailsOf(rows, zs, Ends(js), now)).hi, parking, rows)
  {
    hide PadStart, PadEnd, Extend, Tails.TailsOf;
    var tails := Tails.TailsOf(rows, zs, Ends(js), now);
    var limit := if i + 1 < |js| then Some(PadStart(js[i + 1].start, parking)) else None;
    ExtendIsEdge(PadEnd(js[i].end, parking), js[i].end, limit, tails);
    PadEndIsTight(js[i].end, parking);
    var hi := GroupWindow(js, i, parking, tails).hi;
    if hi > PadEnd(js[i].end, parking) {
      var k :| 0 <= k < |tails| && hi <= tails[k].end
                 && Tails.Abs(tails[k].start - js[i].end) <= Tails.ARRIVAL_MATCH_S;
      MatchedTailStartsAtTheEnd(js, stops, rows, zs, now, i, k);
    }
  }

  /** Main result: on every day, whatever the listing, an edge that a tail carries past the padding
      ends within sixteen minutes of the journey's end, and no parking file starts in between. */
  lemma EveryExtensionIsSafe(d: Metric, fixes: seq<Fix>, parking: seq<Interval>, zones: seq<Zone>,
                             rows: seq<Tails.Row>, now: real, i: nat)
    requires Tails.ListingInOrder(rows)
    requires i < |J.DayJourneys(d, J.Sessions(J.Merged(d, fixes), J.SESSION_GAP_SECONDS))|
    ensures var ss := J.Sessions(J.Merged(d, fixes), J.SESSION_GAP_SECONDS);
            var js, stops := CardsOf(J.DayJourneys(d, ss)), StopCardsOf(J.DayStops(d, ss));
            var tails := Tails.TailsOf(rows, ZoneStops(d, zones, stops), Ends(js), now);
            SafelyExtended(js[i], GroupWindow(js, i, parking, tails).hi, parking, rows)
  {
    hide J.Merged, J.Sessions, J.DayJourneys, J.DayStops, Tails.TailsOf, ZoneStops, GroupWindow, SafelyExtended;
    DayIsRaw(d, fixes);
    var ss := J.Sessions(J.Merged(d, fixes), J.SESSION_GAP_SECONDS);
    var js, stops := CardsOf(J.DayJourneys(d, ss)), StopCardsOf(J.DayStops(d, ss));
    ZoneStopsAreStops(d, zones, stops);
    ExtensionIsSafe(js, stops, parking, rows, ZoneStops(d, zones, stops), now, i);
  }

  ghost predicate AtHome(d: Metric, zones: seq<Zone>, s: StopCard) {
    exists z :: 0 <= z < |zones| && d(s.center, zones[z].center) <= zones[z].radius
  }

  /** The stops looked at are exactly those whose centre lies within the radius of a zone. */
  lemma {:induction false} ZoneStopsAre(d: Metric, zones: seq<Zone>, stops: seq<StopCard>, z: Tails.Span)
    ensures z in ZoneStops(d, zones, stops)
            <==> exists k :: 0 <= k < |stops| && AtHome(d, zones, stops[k])
                             && z == Tails.Span(stops[k].start, stops[k].end)
  {
    if stops != [] {
      var n := |stops| - 1;
      ZoneStopsAre(d, zones, stops[..n], z);
      forall k | 0 <= k < n ensures stops[..n][k] == stops[k] {}
      assert AtHome(d, zones, stops[n]) <==> InZone(d, zones, stops[n].center);
    }
  }

  /** The listing confirms a tail until e: at a stop of the day, at home, that starts within two minutes
      of the journey's end. */
  ghost predicate TailAt(d: Metric, zones: seq<Zone>, raw: seq<Card>, stops: seq<StopCard>, rows: seq<Tails.Row>,
                         now: real, end: real, e: real) {
    exists k :: 0 <= k < |stops| && AtHome(d, zones, stops[k])
                && end - Tails.ARRIVAL_MATCH_S <= stops[k].start <= end + Tails.ARRIVAL_MATCH_S
                && Tails.Confirms(rows, stops[k].start, Ends(raw), now, e)
  }

  lemma MatchedIsTailAt(d: Metric, zones: seq<Zone>, raw: seq<Card>, stops: seq<StopCard>, rows: seq<Tails.Row>,
                        now: real, end: real, e: real)
    requires Tails.ListingInOrder(rows)
    ensures var tails := Tails.TailsOf(rows, ZoneStops(d, zones, stops), Ends(raw), now);
            TailAt(d, zones, raw, stops, rows, now, end, e)
            <==> exists k :: 0 <= k < |tails| && Matched(tails[k], end) && tails[k].end == e
  {
    hide Tails.TailsOf, Tails.Judge, Tails.Confirms, ZoneStops, AtHome;
    var zs := ZoneStops(d, zones, stops);
    var tails := Tails.TailsOf(rows, zs, Ends(raw), now);
    if k :| 0 <= k < |stops| && AtHome(d, zones, stops[k])
            && end - Tails.ARRIVAL_MATCH_S <= stops[k].start <= end + Tails.ARRIVAL_MATCH_S
            && Tails.Confirms(rows, stops[k].start, Ends(raw), now, e) {
      Tails.TailIffConfirmed(rows, stops[k].start, Ends(raw), now, e);
      var z := Tails.Span(stops[k].start, stops[k].end);
      ZoneStopsAre(d, zones, stops, z);
      var i :| 0 <= i < |zs| && zs[i] == z;
      Tails.TailsAre(rows, zs, Ends(raw), now, Tails.Span(z.start, e));
      var m :| 0 <= m < |tails| && tails[m] == Tails.Span(z.start, e);
    }
    if k :| 0 <= k < |tails| && Matched(tails[k], end) && tails[k].end == e {
      Tails.TailsAre(rows, zs, Ends(raw), now, tails[k]);
      var i :| 0 <= i < |zs| && zs[i].start == tails[k].start
               && Tails.Judge(rows, zs[i].start, Ends(raw), now) == Tails.Tail(e);
      ZoneStopsAre(d, zones, stops, zs[i]);
      Tails.TailIffConfirmed(rows, zs[i].start, Ends(raw), now, e);
    }
  }

  /** An edge told by the listing: no earlier than the pad nor than any tail confirmed at the journey's
      end, up to where the next window begins, and equal to one of these. */
  ghost predicate EdgeIsTold(d: Metric, zones: seq<Zone>, raw: seq<Card>, stops: seq<StopCard>, rows: seq<Tails.Row>,
                             now: real, hi: real, pad: real, end: real, limit: Option<real>) {
    && pad <= hi
    && (forall e :: TailAt(d, zones, raw, stops, rows, now, end, e) ==>
          e <= hi || (limit.Some? && limit.value <= hi))
    && (hi == pad || exists e :: TailAt(d, zones, raw, stops, rows, now, end, e)
                                   && hi == if limit.Some? && limit.value < e then limit.value else e)
  }

  lemma EdgeByListing(d: Metric, zones: seq<Zone>, raw: seq<Card>, stops: seq<StopCard>, rows: seq<Tails.Row>,
                      now: real, hi: real, pad: real, end: real, limit: Option<real>)
    requires Tails.ListingInOrder(rows)
    requires IsEdge(hi, pad, end, limit, Tails.TailsOf(rows, ZoneStops(d, zones, stops), Ends(raw), now))
    ensures EdgeIsTold(d, zones, raw, stops, rows, now, hi, pad, end, limit)
  {
    hide Tails.TailsOf, ZoneStops, TailAt, Matched;
    var tails := Tails.TailsOf(rows, ZoneStops(d, zones, stops), Ends(raw), now);
    forall e | TailAt(d, zones, raw, stops, rows, now, end, e) ensures e <= hi || (limit.Some? && limit.value <= hi) {
      MatchedIsTailAt(d, zones, raw, stops, rows, now, end, e);
    }
    if hi != pad {
      var k :| 0 <= k < |tails| && Matched(tails[k], end)
               && hi == if limit.Some? && limit.value < tails[k].end then limit.value else tails[k].end;
      MatchedIsTailAt(d, zones, raw, stops, rows, now, end, tails[k].end);
    }
  }

  // ---- Trimming ----

  ghost predicate CoversStart(s: StopCard, w: Interval) { w.lo <= s.start < w.hi }

  ghost predicate CoversEnd(s: StopCard, w: Interval) { w.lo < s.end <= w.hi }

  /** No window lies strictly inside the stop. */
  ghost predicate NoneInside(s: StopCard, ws: seq<Interval>) {
    forall i :: 0 <= i < |ws| ==> ws[i].lo <= s.start || s.end <= ws[i].hi
  }

  ghost predicate Covered(ws: seq<Interval>, t: real) {
    exists i :: 0 <= i < |ws| && ws[i].lo <= t <= ws[i].hi
  }

  lemma {:induction false} TrimIsTight(s: StopCard, ws: seq<Interval>)
    requires s.start <= s.end
    ensures var r := TrimAgainst(s, ws);
            && s.start <= r.lo && r.hi <= s.end
            && (forall i :: 0 <= i < |ws| && CoversStart(s, ws[i]) ==> ws[i].hi <= r.lo)
            && (forall i :: 0 <= i < |ws| && CoversEnd(s, ws[i]) ==> r.hi <= ws[i].lo)
            && (r.lo == s.start || exists i :: 0 <= i < |ws| && CoversStart(s, ws[i]) && r.lo == ws[i].hi)
            && (r.hi == s.end || exists i :: 0 <= i < |ws| && CoversEnd(s, ws[i]) && r.hi == ws[i].lo)
  {
    if ws == [] {
    } else {
      var n := |ws| - 1;
      TrimIsTight(s, ws[..n]);
      forall i | 0 <= i < n ensures ws[..n][i] == ws[i] {}
    }
  }

  /** What survives of a stop is a non-empty part of it, clear of every window. */
  lemma SurvivorIsClear(s: StopCard, ws: seq<Interval>)
    requires s.start <= s.end && NoneInside(s, ws) && TrimmedStop(s, ws).Some?
    ensures var r := TrimmedStop(s, ws).value;
            && s.start <= r.start < r.end <= s.end && r.center == s.center
            && forall i :: 0 <= i < |ws| ==> ws[i].hi <= r.start || r.end <= ws[i].lo
  {
    TrimIsTight(s, ws);
    forall i | 0 <= i < |ws|
      ensures var r := TrimmedStop(s, ws).value; ws[i].hi <= r.start || r.end <= ws[i].lo
    {
      assert CoversStart(s, ws[i]) || CoversEnd(s, ws[i]) || ws[i].hi <= s.start || s.end <= ws[i].lo;
    }
  }

  /** Trimming hands over time and loses none: an instant of a stop of positive length is in
      what survives of it or in a window. */
  lemma NoInstantIsLost(s: StopCard, ws: seq<Interval>, t: real)
    requires s.start < s.end && s.start <= t <= s.end
    ensures Covered(ws, t)
            || (TrimmedStop(s, ws).Some? && TrimmedStop(s, ws).value.start <= t <= TrimmedStop(s, ws).value.end)
  {
    TrimIsTight(s, ws);
  }

  /** A stop is dropped exactly when it has no length or the windows cover all of it. */
  lemma DroppedIffCovered(s: StopCard, ws: seq<Interval>)
    requires s.start <= s.end && NoneInside(s, ws)
    ensures TrimmedStop(s, ws).None?
            <==> s.start == s.end || forall t :: s.start <= t <= s.end ==> Covered(ws, t)
  {
    TrimIsTight(s, ws);
    if TrimmedStop(s, ws).Some? {
      SurvivorIsClear(s, ws);
      var r := TrimmedStop(s, ws).value;
      var mid := (r.start + r.end) / 2.0;
      assert !Covered(ws, mid);
    } else if s.start < s.end {
      forall t | s.start <= t <= s.end ensures Covered(ws, t) { NoInstantIsLost(s, ws, t); }
    }
  }

  ghost predicate ClearOfWindows(stops: seq<StopCard>, ws: seq<Interval>) {
    forall k, i :: 0 <= k < |stops| && 0 <= i < |ws| ==> ws[i].hi <= stops[k].start || stops[k].end <= ws[i].lo
  }

  lemma {:induction false} TrimmedAreClear(stops: seq<StopCard>, ws: seq<Interval>)
    requires forall k :: 0 <= k < |stops| ==> stops[k].start <= stops[k].end && NoneInside(stops[k], ws)
    ensures ClearOfWindows(Trimmed(stops, ws), ws)
    ensures forall k :: 0 <= k < |Trimmed(stops, ws)| ==> Trimmed(stops, ws)[k].start < Trimmed(stops, ws)[k].end
  {
    if stops == [] {
    } else {
      var n := |stops| - 1;
      forall k | 0 <= k < n ensures stops[..n][k] == stops[k] {}
      TrimmedAreClear(stops[..n], ws);
      if TrimmedStop(stops[n], ws).Some? { SurvivorIsClear(stops[n], ws); }
    }
  }

  /** Every trimmed stop is part of an original one. */
  lemma {:induction false} TrimmedIsPart(stops: seq<StopCard>, ws: seq<Interval>, k: nat) returns (m: nat)
    requires forall i :: 0 <= i < |stops| ==> stops[i].start <= stops[i].end && LastsAsShown(stops[i])
    requires k < |Trimmed(stops, ws)|
    ensures m < |stops| && PartOf(Trimmed(stops, ws)[k], stops[m])
  {
    hide TrimmedStop;
    var n := |stops| - 1;
    if k < |Trimmed(stops[..n], ws)| {
      m := TrimmedIsPart(stops[..n], ws, k);
    } else {
      m := n;
      SurvivorIsPart(stops[n], ws);
    }
  }

  ghost predicate PartOf(r: StopCard, s: StopCard) {
    s.start <= r.start < r.end <= s.end && r.center == s.center && LastsAsShown(r)
  }

  lemma SurvivorIsPart(s: StopCard, ws: seq<Interval>)
    requires s.start <= s.end && LastsAsShown(s) && TrimmedStop(s, ws).Some?
    ensures PartOf(TrimmedStop(s, ws).value, s)
  {
    TrimIsTight(s, ws);
  }

  /** The stops that are left keep their order, and none is there twice. */
  lemma {:induction false} TrimmedInTurn(stops: seq<StopCard>, ws: seq<Interval>)
    requires StopsInTurn(stops) && forall k :: 0 <= k < |stops| ==> stops[k].start <= stops[k].end
    ensures StopsInTurn(Trimmed(stops, ws))
    ensures stops != [] ==> forall k :: 0 <= k < |Trimmed(stops, ws)| ==>
                              Trimmed(stops, ws)[k].end <= stops[|stops| - 1].end
  {
    hide TrimmedStop;
    if stops != [] {
      var n := |stops| - 1;
      TrimmedInTurn(stops[..n], ws);
      if n > 0 { assert stops[n - 1].end <= stops[n].start; }
      if TrimmedStop(stops[n], ws).Some? { SurvivorIsInside(stops[n], ws); }
    }
  }

  lemma SurvivorIsInside(s: StopCard, ws: seq<Interval>)
    requires s.start <= s.end && TrimmedStop(s, ws).Some?
    ensures var r := TrimmedStop(s, ws).value; s.start <= r.start < r.end <= s.end
  {
    TrimIsTight(s, ws);
  }

  ghost predicate InSome(stops: seq<StopCard>, t: real) {
    exists k :: 0 <= k < |stops| && stops[k].start <= t <= stops[k].end
  }

  /** Over the whole list: an instant of a stop of positive length stays in a stop or is in a window. */
  lemma {:induction false} TrimmedLosesNothing(stops: seq<StopCard>, ws: seq<Interval>, m: nat, t: real)
    requires m < |stops| && stops[m].start < stops[m].end && stops[m].start <= t <= stops[m].end
    ensures Covered(ws, t) || InSome(Trimmed(stops, ws), t)
  {
    hide TrimmedStop, Covered;
    var n := |stops| - 1;
    var init, all := Trimmed(stops[..n], ws), Trimmed(stops, ws);
    if m < n {
      TrimmedLosesNothing(stops[..n], ws, m, t);
      if !Covered(ws, t) {
        var k :| 0 <= k < |init| && init[k].start <= t <= init[k].end;
        assert all[k] == init[k];
      }
    } else {
      NoInstantIsLost(stops[n], ws, t);
      if TrimmedStop(stops[n], ws).Some? { assert all[|init|] == TrimmedStop(stops[n], ws).value; }
    }
  }

  ghost predicate ContainRaw(raw: seq<Card>, js: seq<Card>) {
    && |js| == |raw|
    && forall i :: 0 <= i < |js| ==> js[i].Window().lo <= raw[i].start && raw[i].end <= js[i].Window().hi
  }

  /** A window around a journey that is clear of a stop cannot lie strictly inside the stop. */
  lemma WindowsAreNotInside(raw: seq<Card>, js: seq<Card>, stops: seq<StopCard>)
    requires ContainRaw(raw, js) && StopsClear(raw, stops)
    requires forall i :: 0 <= i < |raw| ==> raw[i].start <= raw[i].end
    ensures forall k :: 0 <= k < |stops| ==> NoneInside(stops[k], WindowsOf(js))
  {
    forall k, i | 0 <= k < |stops| && 0 <= i < |js|
      ensures WindowsOf(js)[i].lo <= stops[k].start || stops[k].end <= WindowsOf(js)[i].hi
    {
      assert stops[k].end <= raw[i].start || raw[i].end <= stops[k].start;
    }
  }

  // ---- Reframing ----

  /** A card with fewer than two fixes in its window stays as it is. */
  lemma ThinCardsStay(d: Metric, pts: seq<Fix>, c: Card)
    requires |InWindow(pts, c.Window().lo, c.Window().hi)| < 2
    ensures Reframe(d, pts, c) == c
  {
  }

  lemma ReframeCutsToWindow(d: Metric, pts: seq<Fix>, c: Card)
    requires InOrder(pts) && |InWindow(pts, c.Window().lo, c.Window().hi)| >= 2
    ensures var r := Reframe(d, pts, c);
            && r.track == InWindow(pts, c.Window().lo, c.Window().hi)
            && RawCard(d, pts, r) && r.group == c.group
  {
    WindowOfOwnRange(pts, c.Window().lo, c.Window().hi);
  }

  /** A re-cut trace is exactly the points inside the window; it contains the raw journey's
      fixes in a row, so it is at least as long and reaches at least as far on both sides. */
  lemma ReframeIsExact(d: Metric, pts: seq<Fix>, raw: Card, c: Card)
    returns (before: seq<Fix>, after: seq<Fix>)
    requires InOrder(pts) && RawCard(d, pts, raw)
    requires c.Window().lo <= raw.start && raw.end <= c.Window().hi
    ensures var r := Reframe(d, pts, c);
            && r.track == InWindow(pts, c.Window().lo, c.Window().hi)
            && r.track == before + raw.track + after
            && RawCard(d, pts, r) && r.group == c.group
            && raw.distance <= r.distance
  {
    var w := c.Window();
    before, after := WiderWindow(pts, raw.start, raw.end, w.lo, w.hi);
    assert InWindow(pts, w.lo, w.hi) == before + raw.track + after;
    ReframeCutsToWindow(d, pts, c);
    LengthConcat(d, before + raw.track, after);
    LengthConcat(d, before, raw.track);
  }

  ghost predicate WindowsInOrder(js: seq<Card>) {
    forall i, k :: 0 <= i < k < |js| ==> js[i].Window().hi <= js[k].Window().lo
  }

  /** Two re-cut traces share a fix only at the instant where their windows touch. */
  lemma TracesShareOnlyABoundary(d: Metric, pts: seq<Fix>, js: seq<Card>, i: nat, k: nat, p: Fix)
    requires InOrder(pts) && i < k < |js| && WindowsInOrder(js)
    requires p in InWindow(pts, js[i].Window().lo, js[i].Window().hi)
    requires p in InWindow(pts, js[k].Window().lo, js[k].Window().hi)
    ensures p.t == js[i].Window().hi == js[k].Window().lo
  {
    var a, b := WindowIsSlice(pts, js[i].Window().lo, js[i].Window().hi);
    var x, y := WindowIsSlice(pts, js[k].Window().lo, js[k].Window().hi);
    var m :| 0 <= m < b - a && pts[a..b][m] == p;
    var n :| 0 <= n < y - x && pts[x..y][n] == p;
    assert pts[a + m] == p && pts[x + n] == p;
  }

  // ---- The whole chain ----

  /** A card whose trace, endpoints and length all describe its group window. */
  ghost predicate CutToGroup(d: Metric, pts: seq<Fix>, c: Card) {
    && c.group.Some? && c.track == InWindow(pts, c.group.value.lo, c.group.value.hi)
    && RawCard(d, pts, c)
  }

  /** The card still holds its raw journey: the window reaches at most two minutes before it and
      not less than its end, and the trace is the raw one with more before and after it. */
  ghost predicate HoldsJourney(d: Metric, pts: seq<Fix>, raw: Card, c: Card) {
    && CutToGroup(d, pts, c)
    && raw.start - MAX_JOURNEY_BUFFER_S <= c.group.value.lo <= raw.start && raw.end <= c.group.value.hi
    && raw.distance <= c.distance
    && exists before, after :: Surrounds(c.track, before, raw.track, after)
  }

  ghost predicate Surrounds(track: seq<Fix>, before: seq<Fix>, middle: seq<Fix>, after: seq<Fix>) {
    track == before + middle + after
  }

  ghost predicate ShareOnlyABoundary(a: Card, b: Card) {
    forall p :: p in a.track && p in b.track ==> p.t == a.Window().hi == b.Window().lo
  }

  /** The stops that are left: parts of the original ones, clear of the windows, with every instant
      of a stop of positive length in one of them or in a window. */
  ghost predicate StopsGiveWay(rawStops: seq<StopCard>, stops: seq<StopCard>, ws: seq<Interval>) {
    && (forall k :: 0 <= k < |stops| ==> PartOfSome(stops[k], rawStops))
    && ClearOfWindows(stops, ws) && StopsInTurn(stops)
    && forall m :: 0 <= m < |rawStops| && rawStops[m].start < rawStops[m].end ==> KeepsInstants(rawStops[m], stops, ws)
  }

  ghost predicate PartOfSome(r: StopCard, stops: seq<StopCard>) {
    exists m :: 0 <= m < |stops| && PartOf(r, stops[m])
  }

  ghost predicate KeepsInstants(s: StopCard, stops: seq<StopCard>, ws: seq<Interval>) {
    forall t :: s.start <= t <= s.end ==> Covered(ws, t) || InSome(stops, t)
  }

  /** What a reader of the route payload may rely on, in terms of the day's journeys and stops. */
  ghost predicate Final(d: Metric, pts: seq<Fix>, raw: seq<Card>, rawStops: seq<StopCard>,
                        js: seq<Card>, stops: seq<StopCard>) {
    && |js| == |raw|
    && (forall i :: 0 <= i < |js| ==> HoldsJourney(d, pts, raw[i], js[i]))
    && WindowsInOrder(js)
    && (forall i, k :: 0 <= i < k < |js| ==> ShareOnlyABoundary(js[i], js[k]))
    && (if js == [] then stops == rawStops else StopsGiveWay(rawStops, stops, WindowsOf(js)))
  }

  lemma WindowedFit(d: Metric, pts: seq<Fix>, raw: seq<Card>, stops: seq<StopCard>,
                    parking: seq<Interval>, tails: seq<Tails.Span>)
    requires Raw(d, pts, raw, stops)
    ensures var js := Windowed(raw, parking, tails);
            && ContainRaw(raw, js) && WindowsInOrder(js)
            && forall k :: 0 <= k < |stops| ==> NoneInside(stops[k], WindowsOf(js))
  {
    var js := Windowed(raw, parking, tails);
    forall i | 0 <= i < |raw| ensures raw[i].start <= raw[i].end {
      assert RawCard(d, pts, raw[i]);
    }
    forall i | 0 <= i < |js| ensures js[i].Window().lo <= raw[i].start && raw[i].end <= js[i].Window().hi {
      WindowContainsJourney(raw, i, parking, tails);
    }
    forall i, k | 0 <= i < k < |js| ensures js[i].Window().hi <= js[k].Window().lo {
      WindowsNeverOverlap(raw, i, k, parking, tails);
    }
    WindowsAreNotInside(raw, js, stops);
  }

  lemma ReframedHolds(d: Metric, pts: seq<Fix>, raw: seq<Card>, parking: seq<Interval>, tails: seq<Tails.Span>, i: nat)
    requires InOrder(pts) && i < |raw| && RawCard(d, pts, raw[i])
    ensures HoldsJourney(d, pts, raw[i], Reframed(d, pts, Windowed(raw, parking, tails))[i])
  {
    hide GroupWindow, Reframe, RawCard, InWindow, Length;
    var c := Windowed(raw, parking, tails)[i];
    RawIsInOrder(d, pts, raw[i]);
    WindowContainsJourney(raw, i, parking, tails);
    var before, after := ReframeIsExact(d, pts, raw[i], c);
    assert Surrounds(Reframe(d, pts, c).track, before, raw[i].track, after);
  }

  lemma RawIsInOrder(d: Metric, pts: seq<Fix>, c: Card)
    requires RawCard(d, pts, c)
    ensures c.start <= c.end
  {
  }

  lemma ReframedFit(d: Metric, pts: seq<Fix>, raw: seq<Card>, parking: seq<Interval>, tails: seq<Tails.Span>)
    requires InOrder(pts) && forall i :: 0 <= i < |raw| ==> RawCard(d, pts, raw[i])
    requires WindowsInOrder(Windowed(raw, parking, tails))
    ensures var js := Windowed(raw, parking, tails);
            var out := Reframed(d, pts, js);
            && |out| == |raw| && (forall i :: 0 <= i < |out| ==> HoldsJourney(d, pts, raw[i], out[i]))
            && WindowsInOrder(out) && WindowsOf(out) == WindowsOf(js)
            && forall i, k :: 0 <= i < k < |out| ==> ShareOnlyABoundary(out[i], out[k])
  {
    hide HoldsJourney, Reframe, RawCard, GroupWindow;
    var js := Windowed(raw, parking, tails);
    var out := Reframed(d, pts, js);
    forall i | 0 <= i < |out| ensures HoldsJourney(d, pts, raw[i], out[i]) && out[i].group == js[i].group {
      ReframedHolds(d, pts, raw, parking, tails, i);
      ReframeKeepsGroup(d, pts, js[i]);
    }
    assert WindowsOf(out) == WindowsOf(js);
    forall i, k | 0 <= i < k < |out| ensures ShareOnlyABoundary(out[i], out[k]) {
      CutTracesShare(d, pts, raw, out, i, k);
    }
  }

  lemma ReframeKeepsGroup(d: Metric, pts: seq<Fix>, c: Card)
    ensures Reframe(d, pts, c).group == c.group
  {
  }

  lemma CutTracesShare(d: Metric, pts: seq<Fix>, raw: seq<Card>, js: seq<Card>, i: nat, k: nat)
    requires InOrder(pts) && WindowsInOrder(js) && i < k < |js| == |raw|
    requires forall m :: 0 <= m < |js| ==> HoldsJourney(d, pts, raw[m], js[m])
    ensures ShareOnlyABoundary(js[i], js[k])
  {
    hide InWindow, Length;
    assert HoldsJourney(d, pts, raw[i], js[i]) && HoldsJourney(d, pts, raw[k], js[k]);
    forall p | p in js[i].track && p in js[k].track ensures p.t == js[i].Window().hi == js[k].Window().lo {
      TracesShareOnlyABoundary(d, pts, js, i, k, p);
    }
  }

  lemma StopsGaveWay(stops: seq<StopCard>, ws: seq<Interval>)
    requires forall k :: 0 <= k < |stops| ==> stops[k].start <= stops[k].end && NoneInside(stops[k], ws)
    requires (forall k :: 0 <= k < |stops| ==> LastsAsShown(stops[k])) && StopsInTurn(stops)
    ensures StopsGiveWay(stops, Trimmed(stops, ws), ws)
  {
    hide Trimmed, NoneInside, ClearOfWindows, StopsInTurn, PartOf, LastsAsShown, KeepsInstants;
    TrimmedAreClear(stops, ws);
    TrimmedInTurn(stops, ws);
    var out := Trimmed(stops, ws);
    forall k | 0 <= k < |out| ensures PartOfSome(out[k], stops) {
      var m := TrimmedIsPart(stops, ws, k);
    }
    forall m | 0 <= m < |stops| && stops[m].start < stops[m].end ensures KeepsInstants(stops[m], out, ws) {
      InstantsAreKept(stops, ws, m);
    }
  }

  lemma InstantsAreKept(stops: seq<StopCard>, ws: seq<Interval>, m: nat)
    requires m < |stops| && stops[m].start < stops[m].end
    ensures KeepsInstants(stops[m], Trimmed(stops, ws), ws)
  {
    hide Trimmed, Covered, InSome;
    forall t | stops[m].start <= t <= stops[m].end ensures Covered(ws, t) || InSome(Trimmed(stops, ws), t) {
      TrimmedLosesNothing(stops, ws, m, t);
    }
  }

  /** The chain over any raw day. */
  lemma ChainIsFinal(d: Metric, pts: seq<Fix>, raw: seq<Card>, stops: seq<StopCard>,
                     parking: seq<Interval>, tails: seq<Tails.Span>)
    requires Raw(d, pts, raw, stops)
    ensures var js := Windowed(raw, parking, tails);
            Final(d, pts, raw, stops, Reframed(d, pts, js), if js == [] then stops else Trimmed(stops, WindowsOf(js)))
  {
    hide GroupWindow, Reframe, RawCard, Trimmed, WindowsInOrder, NoneInside;
    hide HoldsJourney, ShareOnlyABoundary, StopsGiveWay;
    var js := Windowed(raw, parking, tails);
    WindowedFit(d, pts, raw, stops, parking, tails);
    if js != [] { StopsGaveWay(stops, WindowsOf(js)); }
    ReframedFit(d, pts, raw, parking, tails);
  }

  /** The payload of every day: aggregate, window, trim, reframe, in that order. What it holds is
      told of the day's own journeys and stops. */
  method BuildRoute(d: Metric, fixes: seq<Fix>, parking: seq<Interval>, zones: seq<Zone>,
                    rows: seq<Tails.Row>, now: real)
    returns (payload: RoutePayload)
    ensures fresh(payload) && payload.points == J.Merged(d, fixes)
    ensures var ss := J.Sessions(payload.points, J.SESSION_GAP_SECONDS);
            var raw, rawStops := CardsOf(J.DayJourneys(d, ss)), StopCardsOf(J.DayStops(d, ss));
            && Final(d, payload.points, raw, rawStops, payload.journeys, payload.stops)
            && (forall i :: 0 <= i < |raw| ==> PadsStart(payload.journeys[i].Window().lo, raw[i].start, parking))
            && (Tails.ListingInOrder(rows) ==> forall i :: 0 <= i < |raw| ==>
                  && SafelyExtended(raw[i], payload.journeys[i].Window().hi, parking, rows)
                  && EndIsTold(d, zones, raw, rawStops, parking, rows, now, payload.journeys, i))
  {
    hide J.Merged, J.Sessions, J.DayJourneys, J.DayStops, Windowed, Reframed, Trimmed, ZoneStops, Tails.TailsOf;
    hide Final, PadsStart, SafelyExtended, EndIsTold;
    var points, dayStops, dayJourneys := J.AggregateDay(d, fixes);
    payload := new RoutePayload(points, dayStops, dayJourneys);
    ghost var raw, stops := payload.journeys, payload.stops;
    DayIsRaw(d, fixes);
    ghost var tails := Tails.TailsOf(rows, ZoneStops(d, zones, stops), Ends(raw), now);
    payload.ApplyGroupWindows(d, parking, zones, rows, now);
    payload.TrimStopsToJourneys();
    payload.ReframeJourneys(d);
    ChainIsFinal(d, points, raw, stops, parking, tails);
    WindowsStay(d, points, raw, parking, tails);
    forall i | 0 <= i < |raw| ensures PadsStart(payload.journeys[i].Window().lo, raw[i].start, parking) {
      PadStartIsTight(raw[i].start, parking);
    }
    if Tails.ListingInOrder(rows) {
      forall i | 0 <= i < |raw|
        ensures SafelyExtended(raw[i], payload.journeys[i].Window().hi, parking, rows)
        ensures EndIsTold(d, zones, raw, stops, parking, rows, now, payload.journeys, i)
      {
        EveryExtensionIsSafe(d, fixes, parking, zones, rows, now, i);
        WindowEndIsTold(d, points, zones, raw, stops, parking, rows, now, i);
      }
    }
  }

  /** The end of a window of the payload, told by the parking clips and the listing. */
  ghost predicate EndIsTold(d: Metric, zones: seq<Zone>, raw: seq<Card>, stops: seq<StopCard>, parking: seq<Interval>,
                            rows: seq<Tails.Row>, now: real, js: seq<Card>, i: nat)
    requires i < |js| == |raw|
  {
    exists pad :: PadsEnd(pad, raw[i].end, parking)
                  && EdgeIsTold(d, zones, raw, stops, rows, now, js[i].Window().hi, pad, raw[i].end, NextStart(js, i))
  }

  lemma WindowEndIsTold(d: Metric, pts: seq<Fix>, zones: seq<Zone>, raw: seq<Card>, stops: seq<StopCard>,
                        parking: seq<Interval>, rows: seq<Tails.Row>, now: real, i: nat)
    requires Tails.ListingInOrder(rows) && i < |raw|
    ensures var tails := Tails.TailsOf(rows, ZoneStops(d, zones, stops), Ends(raw), now);
            EndIsTold(d, zones, raw, stops, parking, rows, now, Reframed(d, pts, Windowed(raw, parking, tails)), i)
  {
    hide PadsStart, PadsEnd, IsEdge, EdgeIsTold, GroupWindow, Tails.TailsOf, ZoneStops, Reframe;
    var tails := Tails.TailsOf(rows, ZoneStops(d, zones, stops), Ends(raw), now);
    var js := Windowed(raw, parking, tails);
    WindowedIsExact(raw, parking, tails);
    assert EndsAt(js, i, raw[i].end, parking, tails);
    var pad :| PadsEnd(pad, raw[i].end, parking)
               && IsEdge(js[i].group.value.hi, pad, raw[i].end, NextStart(js, i), tails);
    EdgeByListing(d, zones, raw, stops, rows, now, js[i].group.value.hi, pad, raw[i].end, NextStart(js, i));
    ReframeKeepsGroup(d, pts, js[i]);
    if i + 1 < |js| { ReframeKeepsGroup(d, pts, js[i + 1]); }
  }

  lemma WindowsStay(d: Metric, pts: seq<Fix>, raw: seq<Card>, parking: seq<Interval>, tails: seq<Tails.Span>)
    ensures var js := Windowed(raw, parking, tails);
            var out := Reframed(d, pts, js);
            && |out| == |js| == |raw|
            && forall i :: 0 <= i < |raw| ==> out[i].Window() == GroupWindow(raw, i, parking, tails)
  {
    hide GroupWindow;
  }
}
