/** The trims of web/services/exporter.py: a cut list laid over the recorded clips. Times are whole
    milliseconds, so the rounding to three decimals is exact. */
module SwitchPieces {
  import opened Basics
  import opened Sorting
  import C = CutEditor
  import E = EditorSession

  const MIN_PIECE := 50

  datatype Clip = Clip(path: string, channel: string, start: int, duration: nat)
  {
    function End(): int { start + duration }
  }

  datatype Trim = Trim(path: string, ss: int, t: int, ts: int, pip: Option<string>)

  predicate Matches(seg: E.Piece, c: Clip) {
    c.channel == seg.channel && c.start < seg.end && c.End() > seg.start
  }

  function Matching(seg: E.Piece, clips: seq<Clip>): seq<Clip> {
    if clips == [] then []
    else if Matches(seg, clips[0]) then [clips[0]] + Matching(seg, clips[1..])
    else Matching(seg, clips[1..])
  }

  function StartOf(c: Clip): real { c.start as real }

  /** The clips that reach into a segment, in time order. */
  function InTime(seg: E.Piece, clips: seq<Clip>): seq<Clip> { SortBy(Matching(seg, clips), StartOf) }

  /** How much of a segment a clip fills. */
  function Overlap(seg: E.Piece, c: Clip): int { C.Min(seg.end, c.End()) - C.Max(seg.start, c.start) }

  function TrimOf(seg: E.Piece, c: Clip): Trim {
    Trim(c.path, C.Max(seg.start, c.start) - c.start, Overlap(seg, c), C.Max(seg.start, c.start), seg.pip)
  }

  function Trims(seg: E.Piece, cs: seq<Clip>): seq<Trim> {
    if cs == [] then []
    else
      var n := |cs| - 1;
      var init := Trims(seg, cs[..n]);
      if Overlap(seg, cs[n]) >= MIN_PIECE then init + [TrimOf(seg, cs[n])] else init
  }

  function PiecesOf(segs: seq<E.Piece>, clips: seq<Clip>): seq<Trim> {
    if segs == [] then []
    else
      var n := |segs| - 1;
      PiecesOf(segs[..n], clips) + Trims(segs[n], InTime(segs[n], clips))
  }

  method BuildSwitchPieces(segments: seq<E.Piece>, clips: seq<Clip>) returns (pieces: seq<Trim>)
    ensures pieces == PiecesOf(segments, clips)
    ensures forall p :: p in pieces
              <==> exists i, c :: 0 <= i < |segments| && c in clips && IsShare(segments[i], c, p)
  {
    hide InTime, IsShare;
    pieces := [];
    for i := 0 to |segments|
      invariant pieces == PiecesOf(segments[..i], clips)
    {
      assert segments[..i + 1][..i] == segments[..i];
      var more := CutSegment(segments[i], InTime(segments[i], clips));
      pieces := pieces + more;
    }
    assert segments[..|segments|] == segments;
    forall p ensures p in PiecesOf(segments, clips)
                     <==> exists i, c :: 0 <= i < |segments| && c in clips && IsShare(segments[i], c, p)
    {
      PiecesAre(segments, clips, p);
    }
  }

  method CutSegment(seg: E.Piece, segClips: seq<Clip>) returns (pieces: seq<Trim>)
    ensures pieces == Trims(seg, segClips)
  {
    pieces := [];
    for k := 0 to |segClips|
      invariant pieces == Trims(seg, segClips[..k])
    {
      assert segClips[..k + 1][..k] == segClips[..k];
      var c := segClips[k];
      var cs := c.start;
      var ce := cs + c.duration;
      var from := C.Max(seg.start, cs) - cs;
      var to := C.Min(seg.end, ce) - cs;
      if to - from >= MIN_PIECE {
        pieces := pieces + [Trim(c.path, from, to - from, C.Max(seg.start, cs), seg.pip)];
      }
    }
    assert segClips[..|segClips|] == segClips;
  }

  // ---- Which clips are cut ----

  lemma {:induction false} MatchingMembers(seg: E.Piece, clips: seq<Clip>, c: Clip)
    ensures c in Matching(seg, clips) <==> c in clips && Matches(seg, c)
  {
    if clips != [] { MatchingMembers(seg, clips[1..], c); }
  }

  lemma InTimeMembers(seg: E.Piece, clips: seq<Clip>, c: Clip)
    ensures c in InTime(seg, clips) <==> c in clips && Matches(seg, c)
  {
    MatchingMembers(seg, clips, c);
    SortByMembers(Matching(seg, clips), StartOf);
  }

  /** The trim is cut from a clip of the list, inside the clip and inside the segment. */
  ghost predicate CutFrom(seg: E.Piece, clips: seq<Clip>, p: Trim, c: Clip) {
    && c in clips && c.channel == seg.channel && p.path == c.path && p.pip == seg.pip
    && p.ss == p.ts - c.start && p.t >= MIN_PIECE
    && c.start <= p.ts && p.ts + p.t <= c.End()
    && seg.start <= p.ts && p.ts + p.t <= seg.end
  }

  lemma {:induction false} TrimSource(seg: E.Piece, cs: seq<Clip>, i: nat) returns (k: nat)
    requires i < |Trims(seg, cs)|
    ensures k < |cs| && Overlap(seg, cs[k]) >= MIN_PIECE && Trims(seg, cs)[i] == TrimOf(seg, cs[k])
  {
    var n := |cs| - 1;
    if i < |Trims(seg, cs[..n])| {
      k := TrimSource(seg, cs[..n], i);
    } else {
      k := n;
    }
  }

  /** Every trim of a segment is cut from one of its clips. */
  lemma TrimsAreInside(seg: E.Piece, clips: seq<Clip>, i: nat) returns (c: Clip)
    requires i < |Trims(seg, InTime(seg, clips))|
    ensures CutFrom(seg, clips, Trims(seg, InTime(seg, clips))[i], c)
  {
    hide InTime;
    var k := TrimSource(seg, InTime(seg, clips), i);
    c := InTime(seg, clips)[k];
    assert c in InTime(seg, clips);
    InTimeMembers(seg, clips, c);
  }

  /** A trim is what one clip of the segment's channel fills of it: from the later start to the earlier
      end, at least 50 ms, at its place in the clip, with the segment's inset. */
  ghost predicate IsShare(seg: E.Piece, c: Clip, p: Trim) {
    && c.channel == seg.channel && p.path == c.path && p.pip == seg.pip && p.ss == p.ts - c.start
    && seg.start <= p.ts && c.start <= p.ts && (p.ts == seg.start || p.ts == c.start)
    && p.ts + p.t <= seg.end && p.ts + p.t <= c.start + c.duration
    && (p.ts + p.t == seg.end || p.ts + p.t == c.start + c.duration)
    && p.t >= 50
  }

  lemma ShareIsTrim(seg: E.Piece, c: Clip, p: Trim)
    ensures IsShare(seg, c, p) <==> Matches(seg, c) && Overlap(seg, c) >= MIN_PIECE && p == TrimOf(seg, c)
  {
  }

  lemma {:induction false} TrimsAre(seg: E.Piece, cs: seq<Clip>, p: Trim)
    requires forall i :: 0 <= i < |cs| ==> Matches(seg, cs[i])
    ensures p in Trims(seg, cs) <==> exists i :: 0 <= i < |cs| && IsShare(seg, cs[i], p)
  {
    hide IsShare, Matches, Overlap, TrimOf;
    if cs != [] {
      var n := |cs| - 1;
      TrimsAre(seg, cs[..n], p);
      ShareIsTrim(seg, cs[n], p);
      forall i | 0 <= i < n ensures cs[..n][i] == cs[i] {}
    }
  }

  /** The trims of a segment are exactly the shares of the clips. */
  lemma SegmentTrimsAre(seg: E.Piece, clips: seq<Clip>, p: Trim)
    ensures p in Trims(seg, InTime(seg, clips)) <==> exists c :: c in clips && IsShare(seg, c, p)
  {
    hide InTime, IsShare, Matches;
    var cs := InTime(seg, clips);
    forall i | 0 <= i < |cs| ensures Matches(seg, cs[i]) { InTimeMembers(seg, clips, cs[i]); }
    TrimsAre(seg, cs, p);
    if i :| 0 <= i < |cs| && IsShare(seg, cs[i], p) { InTimeMembers(seg, clips, cs[i]); }
    if c :| c in clips && IsShare(seg, c, p) {
      ShareIsTrim(seg, c, p);
      InTimeMembers(seg, clips, c);
      var i :| 0 <= i < |cs| && cs[i] == c;
    }
  }

  /** Main result on the list: a trim is in it exactly when it is the share some clip has of some segment. */
  lemma {:induction false} PiecesAre(segs: seq<E.Piece>, clips: seq<Clip>, p: Trim)
    ensures p in PiecesOf(segs, clips)
            <==> exists i, c :: 0 <= i < |segs| && c in clips && IsShare(segs[i], c, p)
  {
    hide InTime, IsShare, Trims;
    if segs != [] {
      var n := |segs| - 1;
      PiecesAre(segs[..n], clips, p);
      SegmentTrimsAre(segs[n], clips, p);
      forall i | 0 <= i < n ensures segs[..n][i] == segs[i] {}
    }
  }

  // ---- Clips that do not overlap ----

  ghost predicate Apart(a: Clip, b: Clip) {
    a.channel == b.channel ==> a.End() <= b.start || b.End() <= a.start
  }

  /** No two entries of the list overlap on one channel. */
  ghost predicate AllApart(cs: seq<Clip>) {
    forall i, k :: 0 <= i < k < |cs| ==> Apart(cs[i], cs[k])
  }

  lemma {:induction false} MatchingApart(seg: E.Piece, clips: seq<Clip>)
    requires AllApart(clips)
    ensures AllApart(Matching(seg, clips))
  {
    if clips != [] {
      var rest := Matching(seg, clips[1..]);
      MatchingApart(seg, clips[1..]);
      forall k | 0 <= k < |rest| ensures Apart(clips[0], rest[k]) {
        MatchingMembers(seg, clips[1..], rest[k]);
      }
    }
  }

  lemma {:induction false} InsertApart(x: Clip, cs: seq<Clip>)
    requires AllApart([x] + cs)
    ensures AllApart(Insert(x, cs, StartOf))
    ensures forall c :: c in Insert(x, cs, StartOf) ==> c == x || c in cs
  {
    var all := [x] + cs;
    if cs != [] && StartOf(x) > StartOf(cs[0]) {
      var tail := [x] + cs[1..];
      forall i, k | 0 <= i < k < |tail| ensures Apart(tail[i], tail[k]) {
        assert Apart(all[if i == 0 then 0 else i + 1], all[k + 1]);
      }
      InsertApart(x, cs[1..]);
      var rest := Insert(x, cs[1..], StartOf);
      assert Apart(all[0], all[1]);
      forall k | 0 <= k < |rest| ensures Apart(cs[0], rest[k]) {
        assert rest[k] in rest;
        if rest[k] != x {
          var m :| 0 <= m < |cs[1..]| && cs[1..][m] == rest[k];
          assert Apart(all[1], all[m + 2]);
        }
      }
    }
  }

  lemma {:induction false} SortApart(cs: seq<Clip>)
    requires AllApart(cs)
    ensures AllApart(SortBy(cs, StartOf))
  {
    if cs != [] {
      SortApart(cs[1..]);
      SortByMembers(cs[1..], StartOf);
      var rest := SortBy(cs[1..], StartOf);
      forall k | 0 <= k < |rest| ensures Apart(cs[0], rest[k]) {
        assert rest[k] in cs[1..];
      }
      InsertApart(cs[0], rest);
    }
  }

  /** The clips of a segment: on its channel, reaching into it, one after the other. */
  ghost predicate Lined(seg: E.Piece, cs: seq<Clip>) {
    && (forall i :: 0 <= i < |cs| ==> Matches(seg, cs[i]))
    && forall i, k :: 0 <= i < k < |cs| ==>
         cs[i].End() <= cs[k].start || (cs[k].duration == 0 && cs[k].start <= cs[i].start)
  }

  lemma InTimeIsLined(seg: E.Piece, clips: seq<Clip>)
    requires AllApart(clips)
    ensures Lined(seg, InTime(seg, clips))
  {
    var m := Matching(seg, clips);
    MatchingApart(seg, clips);
    SortApart(m);
    SortByCorrect(m, StartOf, 0.0);
    var cs := InTime(seg, clips);
    forall i | 0 <= i < |cs| ensures Matches(seg, cs[i]) {
      InTimeMembers(seg, clips, cs[i]);
    }
    forall i, k | 0 <= i < k < |cs|
      ensures cs[i].End() <= cs[k].start || (cs[k].duration == 0 && cs[k].start <= cs[i].start)
    {
      assert StartOf(cs[i]) <= StartOf(cs[k]) && Apart(cs[i], cs[k]);
    }
  }

  // ---- Order ----

  /** The trims come one after the other in absolute time. */
  ghost predicate Forward(ps: seq<Trim>) {
    forall i, k :: 0 <= i < k < |ps| ==> ps[i].ts + ps[i].t <= ps[k].ts
  }

  ghost predicate EndBy(ps: seq<Trim>, t: int) {
    forall i :: 0 <= i < |ps| ==> ps[i].ts + ps[i].t <= t
  }

  lemma {:induction false} TrimsForward(seg: E.Piece, cs: seq<Clip>)
    requires Lined(seg, cs)
    ensures Forward(Trims(seg, cs))
  {
    if cs != [] {
      var n := |cs| - 1;
      TrimsForward(seg, cs[..n]);
      var init := Trims(seg, cs[..n]);
      if Overlap(seg, cs[n]) >= MIN_PIECE {
        forall i | 0 <= i < |init| ensures init[i].ts + init[i].t <= C.Max(seg.start, cs[n].start) {
          var k := TrimSource(seg, cs[..n], i);
          assert cs[k].End() <= cs[n].start;
        }
      }
    }
  }

  ghost predicate SegmentsForward(segs: seq<E.Piece>) {
    && (forall i :: 0 <= i < |segs| ==> segs[i].start <= segs[i].end)
    && forall i, k :: 0 <= i < k < |segs| ==> segs[i].end <= segs[k].start
  }

  lemma {:induction false} PiecesEnd(segs: seq<E.Piece>, clips: seq<Clip>, t: int)
    requires forall i :: 0 <= i < |segs| ==> segs[i].end <= t
    ensures EndBy(PiecesOf(segs, clips), t)
  {
    hide InTime;
    if segs != [] {
      var n := |segs| - 1;
      PiecesEnd(segs[..n], clips, t);
      var last := Trims(segs[n], InTime(segs[n], clips));
      forall i | 0 <= i < |last| ensures last[i].ts + last[i].t <= t {
        var c := TrimsAreInside(segs[n], clips, i);
      }
    }
  }

  lemma ForwardJoin(a: seq<Trim>, b: seq<Trim>, t: int)
    requires Forward(a) && Forward(b) && EndBy(a, t) && forall i :: 0 <= i < |b| ==> t <= b[i].ts
    ensures Forward(a + b)
  {
  }

  /** Over segments in time order and clips that do not overlap, the whole list of trims moves
      strictly forward in time. */
  lemma {:induction false} PiecesMoveForward(segs: seq<E.Piece>, clips: seq<Clip>)
    requires SegmentsForward(segs) && AllApart(clips)
    ensures Forward(PiecesOf(segs, clips))
  {
    hide InTime, Forward, EndBy, AllApart;
    if segs == [] {
      NoTrims();
    } else {
      var n := |segs| - 1;
      PiecesMoveForward(segs[..n], clips);
      InTimeIsLined(segs[n], clips);
      TrimsForward(segs[n], InTime(segs[n], clips));
      PiecesEnd(segs[..n], clips, segs[n].start);
      var last := Trims(segs[n], InTime(segs[n], clips));
      forall i | 0 <= i < |last| ensures segs[n].start <= last[i].ts {
        var c := TrimsAreInside(segs[n], clips, i);
      }
      ForwardJoin(PiecesOf(segs[..n], clips), last, segs[n].start);
    }
  }

  lemma NoTrims()
    ensures Forward([])
  {
  }

  // ---- Conservation of time ----

  predicate CoveredBy(cs: seq<Clip>, channel: string, x: int) {
    exists i :: 0 <= i < |cs| && cs[i].channel == channel && cs[i].start <= x < cs[i].End()
  }

  /** The milliseconds from lo on and before hi that some clip of the channel covers. */
  function CoveredTime(cs: seq<Clip>, channel: string, lo: int, hi: int): nat
    decreases hi - lo
  {
    if hi <= lo then 0
    else CoveredTime(cs, channel, lo, hi - 1) + if CoveredBy(cs, channel, hi - 1) then 1 else 0
  }

  function Total(ps: seq<Trim>): int {
    if ps == [] then 0 else Total(ps[..|ps| - 1]) + ps[|ps| - 1].t
  }

  /** The lengths too short to keep. */
  function Slivers(seg: E.Piece, cs: seq<Clip>): seq<int> {
    if cs == [] then []
    else
      var n := |cs| - 1;
      var init := Slivers(seg, cs[..n]);
      if Overlap(seg, cs[n]) >= MIN_PIECE then init else init + [Overlap(seg, cs[n])]
  }

  function Sum(xs: seq<int>): int {
    if xs == [] then 0 else Sum(xs[..|xs| - 1]) + xs[|xs| - 1]
  }

  lemma {:induction false} SameCover(a: seq<Clip>, b: seq<Clip>, channel: string, lo: int, hi: int)
    requires forall x :: lo <= x < hi ==> (CoveredBy(a, channel, x) <==> CoveredBy(b, channel, x))
    ensures CoveredTime(a, channel, lo, hi) == CoveredTime(b, channel, lo, hi)
    decreases hi - lo
  {
    hide CoveredBy;
    if lo < hi { SameCover(a, b, channel, lo, hi - 1); }
  }

  lemma InTimeCovers(seg: E.Piece, clips: seq<Clip>, x: int)
    requires seg.start <= x < seg.end
    ensures CoveredBy(InTime(seg, clips), seg.channel, x) <==> CoveredBy(clips, seg.channel, x)
  {
    hide InTime;
    var cs := InTime(seg, clips);
    if i :| 0 <= i < |cs| && cs[i].channel == seg.channel && cs[i].start <= x < cs[i].End() {
      InTimeMembers(seg, clips, cs[i]);
    }
    if i :| 0 <= i < |clips| && clips[i].channel == seg.channel && clips[i].start <= x < clips[i].End() {
      InTimeMembers(seg, clips, clips[i]);
      assert clips[i] in cs;
    }
  }

  lemma CoverOneMore(cs: seq<Clip>, c: Clip, channel: string, x: int)
    requires c.channel == channel
    ensures CoveredBy(cs + [c], channel, x) <==> CoveredBy(cs, channel, x) || c.start <= x < c.End()
  {
    var all := cs + [c];
    if c.start <= x < c.End() { assert all[|cs|] == c; }
    if i :| 0 <= i < |cs| && cs[i].channel == channel && cs[i].start <= x < cs[i].End() { assert all[i] == cs[i]; }
  }

  /** A clip apart from the others adds exactly its own share of a window. */
  lemma {:induction false} CoverGrows(cs: seq<Clip>, c: Clip, channel: string, lo: int, hi: int)
    requires c.channel == channel && lo <= hi
    requires forall x :: c.start <= x < c.End() ==> !CoveredBy(cs, channel, x)
    ensures CoveredTime(cs + [c], channel, lo, hi)
         == CoveredTime(cs, channel, lo, hi) + C.Max(0, C.Min(hi, c.End()) - C.Max(lo, c.start))
    decreases hi - lo
  {
    hide CoveredBy;
    if lo < hi {
      CoverGrows(cs, c, channel, lo, hi - 1);
      CoverOneMore(cs, c, channel, hi - 1);
    }
  }

  lemma LastIsApart(seg: E.Piece, cs: seq<Clip>, x: int)
    requires Lined(seg, cs) && cs != [] && cs[|cs| - 1].start <= x < cs[|cs| - 1].End()
    ensures !CoveredBy(cs[..|cs| - 1], seg.channel, x)
  {
    var n := |cs| - 1;
    forall i | 0 <= i < n ensures !(cs[..n][i].start <= x < cs[..n][i].End()) {
      assert cs[i].End() <= cs[n].start;
    }
  }

  lemma {:induction false} NothingCovered(channel: string, lo: int, hi: int)
    ensures CoveredTime([], channel, lo, hi) == 0
    decreases hi - lo
  {
    if lo < hi { NothingCovered(channel, lo, hi - 1); }
  }

  /** The last clip's share goes to the trims or to the slivers. */
  lemma LastIsShared(seg: E.Piece, cs: seq<Clip>)
    requires cs != [] && Matches(seg, cs[|cs| - 1]) && seg.start <= seg.end
    ensures var n := |cs| - 1;
            && Total(Trims(seg, cs)) + Sum(Slivers(seg, cs))
               == Total(Trims(seg, cs[..n])) + Sum(Slivers(seg, cs[..n])) + Overlap(seg, cs[n])
            && (Slivers(seg, cs) == Slivers(seg, cs[..n])
                || (Overlap(seg, cs[n]) < MIN_PIECE
                    && Slivers(seg, cs) == Slivers(seg, cs[..n]) + [Overlap(seg, cs[n])]))
  {
    hide Total, Sum;
    var n := |cs| - 1;
    Appended(Trims(seg, cs[..n]), TrimOf(seg, cs[n]));
    AppendedSliver(Slivers(seg, cs[..n]), Overlap(seg, cs[n]));
  }

  /** The share of a clip that meets the segment is not negative. */
  lemma ShareIsOverlap(seg: E.Piece, c: Clip)
    requires Matches(seg, c) && c.start <= c.End() && seg.start <= seg.end
    ensures 0 <= Overlap(seg, c) == C.Max(0, C.Min(seg.end, c.End()) - C.Max(seg.start, c.start))
  {
  }

  lemma {:induction false} TrimsConserve(seg: E.Piece, cs: seq<Clip>)
    requires Lined(seg, cs) && seg.start <= seg.end
    ensures Total(Trims(seg, cs)) + Sum(Slivers(seg, cs)) == CoveredTime(cs, seg.channel, seg.start, seg.end)
    ensures forall i :: 0 <= i < |Slivers(seg, cs)| ==> 0 <= Slivers(seg, cs)[i] < MIN_PIECE
  {
    if cs == [] {
      NothingCovered(seg.channel, seg.start, seg.end);
    } else {
      hide CoveredTime, CoveredBy, Total, Sum, Trims, Slivers, Overlap;
      var n := |cs| - 1;
      assert Lined(seg, cs[..n]);
      TrimsConserve(seg, cs[..n]);
      forall x | cs[n].start <= x < cs[n].End() ensures !CoveredBy(cs[..n], seg.channel, x) {
        LastIsApart(seg, cs, x);
      }
      CoverGrows(cs[..n], cs[n], seg.channel, seg.start, seg.end);
      assert cs == cs[..n] + [cs[n]];
      ShareIsOverlap(seg, cs[n]);
      LastIsShared(seg, cs);
    }
  }

  lemma Appended(ps: seq<Trim>, p: Trim)
    ensures Total(ps + [p]) == Total(ps) + p.t
  {
    assert (ps + [p])[..|ps|] == ps;
  }

  lemma AppendedSliver(xs: seq<int>, x: int)
    ensures Sum(xs + [x]) == Sum(xs) + x
  {
    assert (xs + [x])[..|xs|] == xs;
  }

  /** Main result: the trims of a segment last exactly as long as the part of it that clips of its
      channel cover, less the slivers, each shorter than the minimum. */
  lemma SegmentConservesTime(seg: E.Piece, clips: seq<Clip>)
    requires AllApart(clips) && seg.start <= seg.end
    ensures var slivers := Slivers(seg, InTime(seg, clips));
            && Total(Trims(seg, InTime(seg, clips))) + Sum(slivers)
               == CoveredTime(clips, seg.channel, seg.start, seg.end)
            && forall i :: 0 <= i < |slivers| ==> 0 <= slivers[i] < MIN_PIECE
  {
    hide InTime, CoveredBy, CoveredTime, Trims, Slivers, Total, Sum, AllApart;
    InTimeIsLined(seg, clips);
    TrimsConserve(seg, InTime(seg, clips));
    forall x | seg.start <= x < seg.end
      ensures CoveredBy(InTime(seg, clips), seg.channel, x) <==> CoveredBy(clips, seg.channel, x)
    {
      InTimeCovers(seg, clips, x);
    }
    SameCover(InTime(seg, clips), clips, seg.channel, seg.start, seg.end);
  }

  /** The recorded time of all segments. */
  function Recorded(segs: seq<E.Piece>, clips: seq<Clip>): nat {
    if segs == [] then 0
    else
      var s := segs[|segs| - 1];
      Recorded(segs[..|segs| - 1], clips) + CoveredTime(clips, s.channel, s.start, s.end)
  }

  function AllSlivers(segs: seq<E.Piece>, clips: seq<Clip>): seq<int> {
    if segs == [] then []
    else
      var s := segs[|segs| - 1];
      AllSlivers(segs[..|segs| - 1], clips) + Slivers(s, InTime(s, clips))
  }

  lemma {:induction false} TotalJoins(a: seq<Trim>, b: seq<Trim>)
    ensures Total(a + b) == Total(a) + Total(b)
  {
    if b == [] {
      assert a + b == a;
    } else {
      assert (a + b)[..|a + b| - 1] == a + b[..|b| - 1];
      TotalJoins(a, b[..|b| - 1]);
    }
  }

  lemma {:induction false} SumJoins(a: seq<int>, b: seq<int>)
    ensures Sum(a + b) == Sum(a) + Sum(b)
  {
    if b == [] {
      assert a + b == a;
    } else {
      assert (a + b)[..|a + b| - 1] == a + b[..|b| - 1];
      SumJoins(a, b[..|b| - 1]);
    }
  }

  /** Main result: all trims together last exactly as long as the recorded time of all segments, less
      the slivers. */
  lemma {:induction false} PiecesConserveTime(segs: seq<E.Piece>, clips: seq<Clip>)
    requires AllApart(clips) && forall i :: 0 <= i < |segs| ==> segs[i].start <= segs[i].end
    ensures Total(PiecesOf(segs, clips)) + Sum(AllSlivers(segs, clips)) == Recorded(segs, clips)
    ensures forall i :: 0 <= i < |AllSlivers(segs, clips)| ==> 0 <= AllSlivers(segs, clips)[i] < MIN_PIECE
  {
    if segs != [] {
      hide InTime, AllApart, CoveredTime, Trims, Slivers, Total, Sum;
      var n := |segs| - 1;
      PiecesConserveTime(segs[..n], clips);
      SegmentConservesTime(segs[n], clips);
      TotalJoins(PiecesOf(segs[..n], clips), Trims(segs[n], InTime(segs[n], clips)));
      SumJoins(AllSlivers(segs[..n], clips), Slivers(segs[n], InTime(segs[n], clips)));
    }
  }

  // ---- From the editor to the trims ----

  lemma {:induction false} TilesAreForward(ps: seq<E.Piece>, lo: int, hi: int, i: nat, k: nat)
    requires E.PiecesTile(ps, lo, hi) && i < k < |ps|
    ensures ps[i].end <= ps[k].start
    decreases k
  {
    if i < k - 1 { TilesAreForward(ps, lo, hi, i, k - 1); }
  }

  /** Whatever was edited, the exported cut plays strictly forward, consists of exactly the shares the
      clips have of the segments, and keeps the recorded time but for slivers, as a whole and of
      every segment. */
  lemma EveryExportPlaysForward(tl: C.Timeline, ops: seq<C.Op>, clips: seq<Clip>)
    requires tl.Usable() && C.DistinctChannels(tl) && AllApart(clips)
    ensures var c := C.Edited(tl, ops); var segs := E.Exported(c.segments, c.disabled);
            var pieces := PiecesOf(segs, clips);
            && Forward(pieces)
            && (forall p :: p in pieces <==> exists i, c :: 0 <= i < |segs| && c in clips && IsShare(segs[i], c, p))
            && Total(pieces) + Sum(AllSlivers(segs, clips)) == Recorded(segs, clips)
            && (forall j :: 0 <= j < |AllSlivers(segs, clips)| ==> 0 <= AllSlivers(segs, clips)[j] < MIN_PIECE)
            && forall i :: 0 <= i < |segs| ==>
                 var slivers := Slivers(segs[i], InTime(segs[i], clips));
                 && Total(Trims(segs[i], InTime(segs[i], clips))) + Sum(slivers)
                    == CoveredTime(clips, segs[i].channel, segs[i].start, segs[i].end)
                 && forall j :: 0 <= j < |slivers| ==> slivers[j] < MIN_PIECE
  {
    hide C.Edited, E.Exported, PiecesOf, InTime, Forward, AllApart, Trims, Slivers, Total, Sum, CoveredTime;
    hide IsShare, AllSlivers, Recorded;
    E.ExportIsTheWholeTiling(tl, ops);
    var c := C.Edited(tl, ops);
    var segs := E.Exported(c.segments, c.disabled);
    forall i, k | 0 <= i < k < |segs| ensures segs[i].end <= segs[k].start {
      TilesAreForward(segs, c.inTs, c.outTs, i, k);
    }
    PiecesMoveForward(segs, clips);
    PiecesConserveTime(segs, clips);
    forall p ensures p in PiecesOf(segs, clips)
                     <==> exists i, c :: 0 <= i < |segs| && c in clips && IsShare(segs[i], c, p)
    {
      PiecesAre(segs, clips, p);
    }
    forall i | 0 <= i < |segs|
      ensures var slivers := Slivers(segs[i], InTime(segs[i], clips));
              && Total(Trims(segs[i], InTime(segs[i], clips))) + Sum(slivers)
                 == CoveredTime(clips, segs[i].channel, segs[i].start, segs[i].end)
              && forall j :: 0 <= j < |slivers| ==> slivers[j] < MIN_PIECE
    {
      SegmentConservesTime(segs[i], clips);
    }
  }

  // ---- The partner of a picture-in-picture ----

  method FindClipAt(clips: seq<Clip>, channel: string, ts: int) returns (found: Option<Clip>)
    ensures found.None? <==> forall i :: 0 <= i < |clips| ==>
                               !(clips[i].channel == channel
                                 && clips[i].start <= ts < clips[i].start + clips[i].duration)
    ensures found.Some? ==> exists i :: && 0 <= i < |clips| && clips[i] == found.value && clips[i].channel == channel
                                        && clips[i].start <= ts < clips[i].start + clips[i].duration
                                        && forall k :: 0 <= k < i ==>
                                             !(clips[k].channel == channel
                                               && clips[k].start <= ts < clips[k].start + clips[k].duration)
  {
    for i := 0 to |clips|
      invariant forall k :: 0 <= k < i ==> !(clips[k].channel == channel && clips[k].start <= ts < clips[k].End())
    {
      var c := clips[i];
      if c.channel != channel {
        continue;
      }
      var ce := c.start + c.duration;
      if c.start <= ts < ce {
        return Some(c);
      }
    }
    found := None;
  }
}
